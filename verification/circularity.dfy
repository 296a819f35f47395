/**
 * CircularityScorer: the integer aggregation of
 * ImageAnalyzer::circleCircumferenceError. The points on the ideal circle
 * come from cos/sin in getPointOnCircumference; here they are supplied by
 * the parameter `pointAt(center, radius, step)`, the point for the angle
 * `step * AngleIncrement`.
 */
module CircularityScorer {
  import opened ConvexHullGeometry
  import opened Arithmetic

  /** D2D_POINT_2L: a point with signed coordinates. */
  datatype SignedPoint = SignedPoint(x: int, y: int)

  /**
   * The number of angles the double-stepped loop visits: 0, a, 2a, ... with
   * a = 0.1667 * pi while below 2 * pi; 11a < 2 * pi <= 12a.
   */
  const SampleCount: nat := 12

  /**
   * The radius `round((width + height) / 4.0)`, halves rounded up: the
   * nearest integer to a quarter of width + height.
   */
  function Radius(width: nat, height: nat): (r: nat)
    ensures width + height < 4 * r + 2 && 4 * r <= width + height + 2
  {
    (width + height + 2) / 4
  }

  /**
   * The Manhattan distance from a hull point to a circle point, divided by
   * `(width + height) / 2` and, when `height` is not zero, multiplied by
   * `width / height` (all integer divisions).
   */
  function NormalisedDistance(p: Point, q: SignedPoint, width: nat, height: nat): nat
    requires (width + height) / 2 > 0
  {
    var normalised := (Abs(p.x - q.x) + Abs(p.y - q.y)) / ((width + height) / 2);
    if height != 0 then (MulMonotone(0, normalised, width / height); normalised * (width / height))
    else normalised
  }

  /**
   * The error for one circle point: -1 for an empty hull, otherwise the
   * LARGEST normalised distance over all hull points (the source keeps the
   * maximum although its comment speaks of the closest point).
   */
  function PointError(hull: ConvexHull, q: SignedPoint, width: nat, height: nat): (e: int)
    requires |hull| == 0 || (width + height) / 2 > 0
    ensures |hull| == 0 <==> e == -1
    ensures |hull| > 0 ==> e >= 0
  {
    if |hull| == 0 then -1
    else
      var pointError := PointError(hull[..|hull| - 1], q, width, height);
      var tempError := NormalisedDistance(hull[|hull| - 1], q, width, height);
      if pointError < tempError || pointError < 0 then tempError else pointError
  }

  /** For a non-empty hull the error is the largest normalised distance: an upper bound that some point attains. */
  lemma {:induction false} PointErrorIsLargestDistance(hull: ConvexHull, q: SignedPoint, width: nat, height: nat)
    requires |hull| > 0 && (width + height) / 2 > 0
    ensures forall i :: 0 <= i < |hull| ==> NormalisedDistance(hull[i], q, width, height) <= PointError(hull, q, width, height)
    ensures exists i :: 0 <= i < |hull| && NormalisedDistance(hull[i], q, width, height) == PointError(hull, q, width, height)
  {
    var init := hull[..|hull| - 1];
    var last := |hull| - 1;
    if |init| == 0 {
      assert NormalisedDistance(hull[last], q, width, height) == PointError(hull, q, width, height);
    } else {
      PointErrorIsLargestDistance(init, q, width, height);
      forall i | 0 <= i < last
        ensures NormalisedDistance(hull[i], q, width, height) <= PointError(hull, q, width, height)
      {
        assert hull[i] == init[i];
      }
      var j :| 0 <= j < |init| && NormalisedDistance(init[j], q, width, height) == PointError(init, q, width, height);
      assert hull[j] == init[j];
    }
  }

  /**
   * The total over the first `n` circle points. It is never negative for a
   * non-empty hull, and -n for an empty one.
   */
  function TotalError(hull: ConvexHull, width: nat, height: nat, center: Point,
                      pointAt: (Point, nat, nat) -> SignedPoint, n: nat): (total: int)
    requires |hull| == 0 || (width + height) / 2 > 0
    ensures |hull| == 0 ==> total == 0 - n
    ensures |hull| > 0 ==> total >= 0
  {
    if n == 0 then 0
    else
      TotalError(hull, width, height, center, pointAt, n - 1)
      + PointError(hull, pointAt(center, Radius(width, height), n - 1), width, height)
  }

  /**
   * ImageAnalyzer::circleCircumferenceError. The division by
   * `(width + height) / 2` happens once per hull point, so a non-empty hull
   * needs it to be positive.
   */
  method CircleCircumferenceError(hull: ConvexHull, width: nat, height: nat, center: Point,
                                  pointAt: (Point, nat, nat) -> SignedPoint)
    returns (totalError: int)
    requires |hull| == 0 || (width + height) / 2 > 0
    ensures totalError == TotalError(hull, width, height, center, pointAt, SampleCount)
  {
    var radius := Radius(width, height);
    totalError := 0;
    for step := 0 to SampleCount
      invariant totalError == TotalError(hull, width, height, center, pointAt, step)
    {
      var pointOnPerfectCircleCircumference := pointAt(center, radius, step);
      var pointError := LargestDistance(hull, pointOnPerfectCircleCircumference, width, height);
      totalError := totalError + pointError;
    }
  }

  /** The inner loop of circleCircumferenceError: the error for one circle point. */
  method LargestDistance(hull: ConvexHull, q: SignedPoint, width: nat, height: nat) returns (pointError: int)
    requires |hull| == 0 || (width + height) / 2 > 0
    ensures pointError == PointError(hull, q, width, height)
  {
    pointError := -1;
    for i := 0 to |hull|
      invariant pointError == PointError(hull[..i], q, width, height)
    {
      assert hull[..i + 1][..i] == hull[..i];
      var tempError := NormalisedDistance(hull[i], q, width, height);
      if pointError < tempError || pointError < 0 {
        pointError := tempError;
      }
    }
    assert hull[..|hull|] == hull;
  }
}
