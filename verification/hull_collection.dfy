/**
 * ConvexHullCollector: ImageAnalyzer::extractConvexHullsOfLargestObjects.
 * Labelling the binary image into an object map, extracting an object's
 * sorted points and building their convex hull are collaborators that are
 * not part of this model: the object map (or its absence) and the object
 * count are inputs, and `hullFor(id)` is the hull built for object `id`,
 * or `None` when no points could be extracted for it.
 */
module ConvexHullCollector {
  import opened Wrappers
  import opened ObjectDetailsExtractor
  import opened ObjectFilter
  import opened ConvexHullGeometry

  /** The hulls that exist, in order. */
  function Present(results: seq<Option<ConvexHull>>): (hulls: seq<ConvexHull>)
    ensures |hulls| <= |results|
  {
    if |results| == 0 then []
    else
      var init := Present(results[..|results| - 1]);
      match results[|results| - 1]
      case None => init
      case Some(hull) => init + [hull]
  }

  /** The hull extraction result for each id, in the order of `ids`. */
  function Attempts(ids: seq<nat>, hullFor: nat -> Option<ConvexHull>): (results: seq<Option<ConvexHull>>)
    ensures |results| == |ids|
  {
    seq(|ids|, i requires 0 <= i < |ids| => hullFor(ids[i]))
  }

  lemma {:induction false} PresentAppend(a: seq<Option<ConvexHull>>, b: seq<Option<ConvexHull>>)
    ensures Present(a + b) == Present(a) + Present(b)
    decreases |b|
  {
    if |b| == 0 {
      assert a + b == a;
    } else {
      var init := b[..|b| - 1];
      assert (a + b)[..|a + b| - 1] == a + init;
      PresentAppend(a, init);
    }
  }

  /** Every hull that is present is one of the results. */
  lemma {:induction false} PresentComesFromResults(results: seq<Option<ConvexHull>>)
    ensures forall k :: 0 <= k < |Present(results)| ==> Some(Present(results)[k]) in results
  {
    if |results| > 0 {
      var init := results[..|results| - 1];
      PresentComesFromResults(init);
      assert forall r :: r in init ==> r in results;
    }
  }

  /**
   * The collection loop: it visits the ids in order and stops once more
   * than `maxNumberOfConvexHulls` hulls are held, so it keeps the first
   * `maxNumberOfConvexHulls + 1` hulls that exist, or all of them when
   * there are fewer.
   */
  method CollectConvexHulls(ids: seq<nat>, hullFor: nat -> Option<ConvexHull>, maxNumberOfConvexHulls: nat)
    returns (convexHulls: seq<ConvexHull>)
    ensures var available := Present(Attempts(ids, hullFor));
      && |convexHulls| == (if |available| <= maxNumberOfConvexHulls + 1 then |available| else maxNumberOfConvexHulls + 1)
      && convexHulls == available[..|convexHulls|]
  {
    ghost var attempts := Attempts(ids, hullFor);
    convexHulls := [];
    var i := 0;
    while i < |ids| && |convexHulls| <= maxNumberOfConvexHulls
      invariant 0 <= i <= |ids|
      invariant convexHulls == Present(attempts[..i])
      invariant |convexHulls| <= maxNumberOfConvexHulls + 1
    {
      assert attempts[..i + 1][..i] == attempts[..i];
      var convexHull := hullFor(ids[i]);
      if convexHull.Some? {
        convexHulls := convexHulls + [convexHull.value];
      }
      i := i + 1;
    }
    assert attempts == attempts[..i] + attempts[i..];
    PresentAppend(attempts[..i], attempts[i..]);
    if i == |ids| {
      assert attempts[i..] == [];
    }
  }

  /** Object `id` passes the size filter. */
  ghost predicate IsLargeObject(grid: seq<nat>, w: nat, h: nat, objectCount: nat, minSize: nat, id: nat)
  {
    1 <= id <= objectCount && ObjectDetailsOf(grid, w, h, id).width >= minSize
  }

  /**
   * ImageAnalyzer::extractConvexHullsOfLargestObjects: no hulls without an
   * object map. Otherwise the hulls built for the large objects, visited
   * largest first: the first `maxNumberOfConvexHulls + 1` of those that
   * exist, or all of them when there are fewer; each is built for an object
   * that passes the size filter.
   */
  method ExtractConvexHullsOfLargestObjects(objectMap: Option<seq<nat>>, imageWidth: nat, imageHeight: nat,
                                            objectCount: nat, minSize: nat, maxNumberOfConvexHulls: nat,
                                            hullFor: nat -> Option<ConvexHull>)
    returns (convexHulls: seq<ConvexHull>)
    requires objectMap.Some? ==> imageHeight * imageWidth <= |objectMap.value|
    ensures objectMap.None? ==> convexHulls == []
    ensures |convexHulls| <= maxNumberOfConvexHulls + 1
    ensures objectMap.Some? ==>
      exists ids :: LargeIdsBySize(objectMap.value, imageWidth, imageHeight, objectCount, minSize, ids)
        && var available := Present(Attempts(ids, hullFor));
           && |convexHulls| == (if |available| <= maxNumberOfConvexHulls + 1 then |available| else maxNumberOfConvexHulls + 1)
           && convexHulls == available[..|convexHulls|]
    ensures forall hull :: hull in convexHulls ==>
      exists id :: IsLargeObject(objectMap.value, imageWidth, imageHeight, objectCount, minSize, id)
                   && hullFor(id) == Some(hull)
  {
    convexHulls := [];
    if objectMap.Some? {
      var largeObjectIds := ResolveLargeObjectIds(objectMap.value, imageWidth, imageHeight, objectCount, minSize);
      convexHulls := CollectConvexHulls(largeObjectIds, hullFor, maxNumberOfConvexHulls);
      ghost var attempts := Attempts(largeObjectIds, hullFor);
      PresentComesFromResults(attempts);
      forall hull | hull in convexHulls
        ensures exists id :: IsLargeObject(objectMap.value, imageWidth, imageHeight, objectCount, minSize, id)
                             && hullFor(id) == Some(hull)
      {
        var k :| 0 <= k < |convexHulls| && convexHulls[k] == hull;
        assert Some(Present(attempts)[k]) in attempts;
        var j :| 0 <= j < |attempts| && attempts[j] == Some(hull);
        assert IsLargeObject(objectMap.value, imageWidth, imageHeight, objectCount, minSize, largeObjectIds[j]);
      }
    }
  }
}
