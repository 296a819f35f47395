/**
 * Convex-hull dimensions (ImageAnalyzer::calculateConvexHullDimensions and
 * ImageAnalyzer::convexHullDimensionsAsObjectDetails) and the rectangular
 * containment test ImageAnalyzer::objectIsWithinConvexHullBounds.
 */
module ConvexHullGeometry {
  import opened ObjectDetailsExtractor

  /** D2D_POINT_2U: a point with unsigned coordinates. */
  datatype Point = Point(x: nat, y: nat)

  /** A convex hull: the ordered boundary points built by the hull collaborator. */
  type ConvexHull = seq<Point>

  /** The four values calculateConvexHullDimensions writes through its reference parameters. */
  datatype Dimensions = Dimensions(width: nat, height: nat, centerX: nat, centerY: nat)

  const NoDimensions := Dimensions(0, 0, 0, 0)

  function Xs(hull: ConvexHull): (xs: seq<nat>)
    ensures |xs| == |hull| && forall i :: 0 <= i < |hull| ==> xs[i] == hull[i].x
  {
    seq(|hull|, i requires 0 <= i < |hull| => hull[i].x)
  }

  function Ys(hull: ConvexHull): (ys: seq<nat>)
    ensures |ys| == |hull| && forall i :: 0 <= i < |hull| ==> ys[i] == hull[i].y
  {
    seq(|hull|, i requires 0 <= i < |hull| => hull[i].y)
  }

  /** The smallest element: a lower bound of `s` (that occurs in it, by MinMaxOccur). */
  function Min(s: seq<nat>): (m: nat)
    requires |s| > 0
    ensures forall i :: 0 <= i < |s| ==> m <= s[i]
  {
    if |s| == 1 then s[0]
    else
      var m := Min(s[..|s| - 1]);
      if s[|s| - 1] < m then s[|s| - 1] else m
  }

  /** The largest element: an upper bound of `s` (that occurs in it, by MinMaxOccur). */
  function Max(s: seq<nat>): (m: nat)
    requires |s| > 0
    ensures forall i :: 0 <= i < |s| ==> s[i] <= m
  {
    if |s| == 1 then s[0]
    else
      var m := Max(s[..|s| - 1]);
      if s[|s| - 1] > m then s[|s| - 1] else m
  }

  /** The minimum and the maximum are elements of the sequence. */
  lemma {:induction false} MinMaxOccur(s: seq<nat>)
    requires |s| > 0
    ensures Min(s) in s && Max(s) in s
  {
    if |s| > 1 {
      var t := s[..|s| - 1];
      MinMaxOccur(t);
      assert s == t + [s[|s| - 1]];
    }
  }

  /**
   * The dimensions calculateConvexHullDimensions leaves in its reference
   * parameters, which held `prior` on entry: untouched for a hull of fewer
   * than two points, else the extents of the hull's bounding box and its
   * floor midpoint.
   */
  function HullDimensions(hull: ConvexHull, prior: Dimensions): Dimensions
  {
    if |hull| < 2 then prior
    else
      var minX, maxX := Min(Xs(hull)), Max(Xs(hull));
      var minY, maxY := Min(Ys(hull)), Max(Ys(hull));
      assert minX <= hull[0].x <= maxX && minY <= hull[0].y <= maxY;
      Dimensions(maxX - minX, maxY - minY, (maxX + minX) / 2, (maxY + minY) / 2)
  }

  /**
   * A hull of fewer than two points keeps the prior dimensions. Otherwise
   * the dimensions describe the hull's bounding box exactly: on each axis it
   * runs from `center - extent/2` to `center + (extent+1)/2`.
   */
  lemma HullBox(hull: ConvexHull, prior: Dimensions)
    ensures var d := HullDimensions(hull, prior);
      && (|hull| < 2 ==> d == prior)
      && (|hull| >= 2 ==>
           && Min(Xs(hull)) == d.centerX - d.width / 2 && Max(Xs(hull)) == d.centerX + (d.width + 1) / 2
           && Min(Ys(hull)) == d.centerY - d.height / 2 && Max(Ys(hull)) == d.centerY + (d.height + 1) / 2)
  {
  }

  /** Every point of a hull of two or more points lies in the box its dimensions describe. */
  lemma HullInsideItsBox(hull: ConvexHull, prior: Dimensions, i: nat)
    requires |hull| >= 2 && i < |hull|
    ensures var d := HullDimensions(hull, prior);
      && d.centerX - d.width / 2 <= hull[i].x <= d.centerX + (d.width + 1) / 2
      && d.centerY - d.height / 2 <= hull[i].y <= d.centerY + (d.height + 1) / 2
  {
    HullBox(hull, prior);
    assert Xs(hull)[i] == hull[i].x && Ys(hull)[i] == hull[i].y;
  }

  /** How one more element moves the running minimum and maximum of a prefix. */
  lemma ExtendPrefix(s: seq<nat>, i: nat)
    requires 0 < i < |s|
    ensures Min(s[..i]) <= Max(s[..i])
    ensures Min(s[..i + 1]) == if s[i] < Min(s[..i]) then s[i] else Min(s[..i])
    ensures Max(s[..i + 1]) == if s[i] > Max(s[..i]) then s[i] else Max(s[..i])
  {
    assert s[..i][0] == s[0];
    assert s[..i + 1][..i] == s[..i];
  }

  lemma DimensionsFromExtremes(hull: ConvexHull, prior: Dimensions)
    requires |hull| >= 2
    ensures var minX, maxX, minY, maxY := Min(Xs(hull)), Max(Xs(hull)), Min(Ys(hull)), Max(Ys(hull));
      HullDimensions(hull, prior) == Dimensions(maxX - minX, maxY - minY, (maxX + minX) / 2, (maxY + minY) / 2)
  {
  }

  /**
   * One coordinate's step of that pass: a value below the running minimum
   * replaces it, otherwise one above the running maximum replaces that.
   */
  method TrackExtremes(value: nat, lo: nat, hi: nat, ghost s: seq<nat>, ghost i: nat)
    returns (newLo: nat, newHi: nat)
    requires 0 < i < |s| && value == s[i]
    requires lo == Min(s[..i]) && hi == Max(s[..i])
    ensures newLo == Min(s[..i + 1]) && newHi == Max(s[..i + 1]) && newLo <= newHi
  {
    ExtendPrefix(s, i);
    newLo, newHi := lo, hi;
    if value < lo {
      newLo := value;
    } else if value > hi {
      newHi := value;
    }
  }

  /**
   * ImageAnalyzer::calculateConvexHullDimensions: one pass keeping the
   * running minimum and maximum of each coordinate (the maximum is only
   * looked at when the point is not a new minimum).
   */
  method CalculateConvexHullDimensions(hull: ConvexHull, prior: Dimensions) returns (d: Dimensions)
    ensures d == HullDimensions(hull, prior)
  {
    d := prior;
    if |hull| >= 2 {
      var minX, maxX, minY, maxY := ScanExtremes(hull);
      d := Dimensions(maxX - minX, maxY - minY, (maxX + minX) / 2, (maxY + minY) / 2);
      DimensionsFromExtremes(hull, prior);
    }
  }

  /** The loop of calculateConvexHullDimensions, seeded with the first point. */
  method ScanExtremes(hull: ConvexHull) returns (minX: nat, maxX: nat, minY: nat, maxY: nat)
    requires |hull| >= 2
    ensures minX == Min(Xs(hull)) && maxX == Max(Xs(hull)) && minY == Min(Ys(hull)) && maxY == Max(Ys(hull))
    ensures minX <= maxX && minY <= maxY
  {
    ghost var xs, ys := Xs(hull), Ys(hull);
    var currentPoint := hull[0];
    minX, maxX := currentPoint.x, currentPoint.x;
    minY, maxY := currentPoint.y, currentPoint.y;
    assert xs[..1] == [hull[0].x];
    assert ys[..1] == [hull[0].y];
    for i := 1 to |hull|
      invariant minX == Min(xs[..i]) && maxX == Max(xs[..i])
      invariant minY == Min(ys[..i]) && maxY == Max(ys[..i])
      invariant minX <= maxX && minY <= maxY
    {
      currentPoint := hull[i];
      minX, maxX := TrackExtremes(currentPoint.x, minX, maxX, xs, i);
      minY, maxY := TrackExtremes(currentPoint.y, minY, maxY, ys, i);
    }
    assert xs[..|hull|] == xs;
    assert ys[..|hull|] == ys;
  }

  /**
   * ImageAnalyzer::convexHullDimensionsAsObjectDetails: a fresh, all-zero
   * record whose width, height and centre receive the hull's dimensions.
   */
  method ConvexHullDimensionsAsObjectDetails(hull: ConvexHull) returns (details: ObjectDetails)
    ensures details.id == 0 && details.area == 0
    ensures var d := HullDimensions(hull, NoDimensions);
      details.width == d.width && details.height == d.height
      && details.centerX == d.centerX && details.centerY == d.centerY
  {
    var d := CalculateConvexHullDimensions(hull, NoDimensions);
    details := ObjectDetails(0, 0, d.width, d.height, d.centerX, d.centerY);
  }

  function Abs(x: int): nat
  {
    if x < 0 then -x else x
  }

  /**
   * The comparison of objectIsWithinConvexHullBounds: the object's centre is
   * within half the hull's width and half its height (integer halves) of the
   * hull's centre, on each axis independently.
   */
  predicate WithinBounds(objectDetails: ObjectDetails, hull: ObjectDetails)
  {
    Abs(hull.centerX - objectDetails.centerX) <= hull.width / 2
    && Abs(hull.centerY - objectDetails.centerY) <= hull.height / 2
  }

  /**
   * ImageAnalyzer::objectIsWithinConvexHullBounds. The test accepts exactly
   * the centres in the closed window `center - extent/2 .. center + extent/2`
   * of the hull's box on both axes.
   */
  method ObjectIsWithinConvexHullBounds(objectDetails: ObjectDetails, hull: ConvexHull) returns (isWithin: bool)
    ensures var d := HullDimensions(hull, NoDimensions);
      isWithin <==>
        && d.centerX - d.width / 2 <= objectDetails.centerX <= d.centerX + d.width / 2
        && d.centerY - d.height / 2 <= objectDetails.centerY <= d.centerY + d.height / 2
  {
    var hullDetails := ConvexHullDimensionsAsObjectDetails(hull);
    isWithin := true;
    if !WithinBounds(objectDetails, hullDetails) {
      isWithin := false;
    }
  }

  /**
   * The window is the hull's box less, on an axis of odd extent, its last
   * line: an object at the hull's smallest corner is always inside, and one
   * at its largest corner is inside exactly when both extents are even.
   */
  lemma CornersOfTheWindow(hull: ConvexHull, objectDetails: ObjectDetails)
    requires |hull| >= 2
    ensures var d := HullDimensions(hull, NoDimensions);
      var hullDetails := ObjectDetails(0, 0, d.width, d.height, d.centerX, d.centerY);
      && (objectDetails.centerX == Min(Xs(hull)) && objectDetails.centerY == Min(Ys(hull)) ==>
            WithinBounds(objectDetails, hullDetails))
      && (objectDetails.centerX == Max(Xs(hull)) && objectDetails.centerY == Max(Ys(hull)) ==>
            (WithinBounds(objectDetails, hullDetails) <==> d.width % 2 == 0 && d.height % 2 == 0))
  {
  }

  /** The example of a hull centred at 50 with width 10: 55 is inside, 56 is not. */
  lemma WindowExample()
    ensures WithinBounds(ObjectDetails(0, 0, 0, 0, 55, 55), ObjectDetails(0, 0, 10, 10, 50, 50))
    ensures !WithinBounds(ObjectDetails(0, 0, 0, 0, 56, 56), ObjectDetails(0, 0, 10, 10, 50, 50))
  {
  }

  /** The corners of a 10 x 20 rectangle give width 10, height 20 and centre (5, 10). */
  lemma RectangleDimensions()
    ensures HullDimensions([Point(0, 0), Point(10, 0), Point(10, 20), Point(0, 20)], NoDimensions)
         == Dimensions(10, 20, 5, 10)
  {
    var hull := [Point(0, 0), Point(10, 0), Point(10, 20), Point(0, 20)];
    assert Xs(hull) == [0, 10, 10, 0] && Ys(hull) == [0, 0, 20, 20];
    MinMaxOccur(Xs(hull));
    MinMaxOccur(Ys(hull));
  }
}
