/**
 * BestCandidateSelector: ImageAnalyzer::convexHullClosestToCircle, which
 * scores every candidate hull by its circumference error and keeps the
 * first one with the smallest error. A null entry of the candidate vector
 * is `None`.
 */
module BestCandidateSelector {
  import opened Wrappers
  import opened ConvexHullGeometry
  import opened CircularityScorer

  type Candidates = seq<Option<ConvexHull>>

  /**
   * The width, height and centre held by the routine's shared variables
   * after the first `n` candidates: each non-null hull updates them, but a
   * hull of fewer than two points leaves the previous hull's values in
   * place. They start at zero (the source leaves the centre uninitialised).
   */
  function CarriedDimensions(hulls: Candidates, n: nat): Dimensions
    requires n <= |hulls|
  {
    if n == 0 then NoDimensions
    else
      var prior := CarriedDimensions(hulls, n - 1);
      match hulls[n - 1]
      case None => prior
      case Some(hull) => HullDimensions(hull, prior)
  }

  /** Every non-empty hull is scored with a non-zero divisor. */
  ghost predicate Scorable(hulls: Candidates)
  {
    forall k :: 0 <= k < |hulls| && hulls[k].Some? && |hulls[k].value| > 0 ==>
      (CarriedDimensions(hulls, k + 1).width + CarriedDimensions(hulls, k + 1).height) / 2 > 0
  }

  /** The circumference error of candidate `k`, scored with the carried dimensions. */
  function HullError(hulls: Candidates, k: nat, pointAt: (Point, nat, nat) -> SignedPoint): int
    requires k < |hulls| && hulls[k].Some? && Scorable(hulls)
  {
    var d := CarriedDimensions(hulls, k + 1);
    TotalError(hulls[k].value, d.width, d.height, Point(d.centerX, d.centerY), pointAt, SampleCount)
  }

  /**
   * The error of every candidate; `None` for a null one. An empty hull
   * scores minus one per circle point, any other hull at least zero.
   */
  function Errors(hulls: Candidates, pointAt: (Point, nat, nat) -> SignedPoint): (errors: seq<Option<int>>)
    requires Scorable(hulls)
    ensures |errors| == |hulls|
    ensures forall k :: 0 <= k < |hulls| ==> (errors[k].Some? <==> hulls[k].Some?)
    ensures forall k :: 0 <= k < |hulls| && hulls[k].Some? && |hulls[k].value| == 0 ==>
      errors[k] == Some(0 - SampleCount)
    ensures forall k :: 0 <= k < |hulls| && hulls[k].Some? && |hulls[k].value| > 0 ==>
      errors[k].Some? && errors[k].value >= 0
  {
    seq(|hulls|, k requires 0 <= k < |hulls| =>
      if hulls[k].Some? then Some(HullError(hulls, k, pointAt)) else None)
  }

  /** Entry `k` holds the smallest error, and no earlier entry ties with it. */
  predicate IsFirstMinimum(errors: seq<Option<int>>, k: nat)
  {
    && k < |errors| && errors[k].Some?
    && (forall j :: 0 <= j < |errors| && errors[j].Some? ==> errors[k].value <= errors[j].value)
    && (forall j :: 0 <= j < k && errors[j].Some? ==> errors[k].value < errors[j].value)
  }

  /** There is at most one first minimum. */
  lemma FirstMinimumIsUnique(errors: seq<Option<int>>, i: nat, j: nat)
    requires IsFirstMinimum(errors, i) && IsFirstMinimum(errors, j)
    ensures i == j
  {
  }

  /** On a tie the earlier candidate wins. */
  lemma FirstMinimumExample()
    ensures IsFirstMinimum([Some(5), None, Some(3), Some(3), Some(7)], 2)
    ensures !IsFirstMinimum([Some(5), None, Some(3), Some(3), Some(7)], 3)
  {
  }

  /** A hull of fewer than two points is scored with the previous candidate's box. */
  lemma ShortHullReusesDimensions(hulls: Candidates, k: nat)
    requires 0 < k < |hulls| && hulls[k].Some? && |hulls[k].value| < 2
    ensures CarriedDimensions(hulls, k + 1) == CarriedDimensions(hulls, k)
  {
  }

  /** Non-empty hulls are never scored below zero. */
  lemma NonEmptyHullsScoreNonNegative(hulls: Candidates, pointAt: (Point, nat, nat) -> SignedPoint)
    requires Scorable(hulls)
    requires forall k :: 0 <= k < |hulls| && hulls[k].Some? ==> |hulls[k].value| > 0
    ensures NonNegative(Errors(hulls, pointAt))
  {
  }

  /** No candidate was scored below zero. */
  predicate NonNegative(errors: seq<Option<int>>)
  {
    forall k :: 0 <= k < |errors| && errors[k].Some? ==> errors[k].value >= 0
  }

  /**
   * The (index, error) pair the selection loop holds after reading
   * `errors`: (-1, -1) before any non-null candidate; a candidate replaces
   * the current one when its error is smaller or the current error is
   * negative.
   */
  function Selection(errors: seq<Option<int>>): (int, int)
  {
    if |errors| == 0 then (-1, -1)
    else
      var (bestIndex, error) := Selection(errors[..|errors| - 1]);
      match errors[|errors| - 1]
      case None => (bestIndex, error)
      case Some(currentError) =>
        if currentError < error || error < 0 then (|errors| - 1, currentError) else (bestIndex, error)
  }

  /**
   * What the selection picks: nothing exactly when every entry is null,
   * otherwise an entry whose error it reports, and the first minimum
   * whenever no error is negative.
   */
  lemma {:induction false} SelectionPicksFirstMinimum(errors: seq<Option<int>>)
    ensures var (bestIndex, error) := Selection(errors);
      && -1 <= bestIndex < |errors|
      && (bestIndex == -1 <==> forall k :: 0 <= k < |errors| ==> errors[k].None?)
      && (bestIndex == -1 ==> error == -1)
      && (bestIndex >= 0 ==> errors[bestIndex] == Some(error))
      && (bestIndex >= 0 && NonNegative(errors) ==> IsFirstMinimum(errors, bestIndex))
  {
    if |errors| > 0 {
      var init := errors[..|errors| - 1];
      SelectionPicksFirstMinimum(init);
      assert forall k :: 0 <= k < |init| ==> init[k] == errors[k];
    }
  }

  /**
   * ImageAnalyzer::convexHullClosestToCircle. Returns the index of the
   * chosen hull (the source returns the hull itself) and its error; no
   * index and error -1 when every candidate is null; the first minimum
   * whenever no candidate scored below zero.
   */
  method ConvexHullClosestToCircle(hulls: Candidates, pointAt: (Point, nat, nat) -> SignedPoint)
    returns (best: Option<nat>, error: int)
    requires Scorable(hulls)
    ensures best.None? <==> forall k :: 0 <= k < |hulls| ==> hulls[k].None?
    ensures best.None? ==> error == -1
    ensures best.Some? ==>
      best.value < |hulls| && hulls[best.value].Some? && error == HullError(hulls, best.value, pointAt)
    ensures best.Some? && NonNegative(Errors(hulls, pointAt)) ==> IsFirstMinimum(Errors(hulls, pointAt), best.value)
  {
    var bestIndex;
    bestIndex, error := ScoreCandidates(hulls, pointAt);
    SelectionPicksFirstMinimum(Errors(hulls, pointAt));
    best := if bestIndex >= 0 then Some(bestIndex) else None;
  }

  /**
   * The loop of convexHullClosestToCircle: score every present hull, with
   * the dimensions carried over from the previous present hull, and keep
   * the first lowest score.
   */
  method ScoreCandidates(hulls: Candidates, pointAt: (Point, nat, nat) -> SignedPoint)
    returns (bestIndex: int, error: int)
    requires Scorable(hulls)
    ensures (bestIndex, error) == Selection(Errors(hulls, pointAt))
  {
    ghost var errors := Errors(hulls, pointAt);
    var dims := NoDimensions;
    error := -1;
    bestIndex := -1;
    for i := 0 to |hulls|
      invariant dims == CarriedDimensions(hulls, i)
      invariant (bestIndex, error) == Selection(errors[..i])
    {
      assert errors[..i + 1][..i] == errors[..i];
      match hulls[i]
      case None =>
      case Some(hull) =>
        dims := CalculateConvexHullDimensions(hull, dims);
        var currentError := CircleCircumferenceError(hull, dims.width, dims.height,
                                                     Point(dims.centerX, dims.centerY), pointAt);
        assert errors[i] == Some(currentError);
        if currentError < error || error < 0 {
          error := currentError;
          bestIndex := i;
        }
    }
    assert errors[..|hulls|] == errors;
  }
}
