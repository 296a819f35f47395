/**
 * ObjectFilter: ImageAnalyzer::sortObjectDetailsBySize and
 * ImageAnalyzer::resolveLargeObjectIds. The records are ranked by
 * `width * height` (the product of the two density proxies, not the area)
 * and only the `width` proxy is compared with the size threshold.
 */
module ObjectFilter {
  import opened ObjectDetailsExtractor

  /** The sort key of sortObjectDetailsBySize. */
  function SizeKey(d: ObjectDetails): nat
  {
    d.width * d.height
  }

  /** Non-increasing in the sort key. */
  ghost predicate SortedBySize(s: seq<ObjectDetails>)
  {
    forall i, j :: 0 <= i < j < |s| ==> SizeKey(s[i]) >= SizeKey(s[j])
  }

  /** No element occurs twice. */
  ghost predicate Distinct<T>(s: seq<T>)
  {
    forall i, j :: 0 <= i < j < |s| ==> s[i] != s[j]
  }

  /** Non-increasing in `key`. */
  ghost predicate SortedDescendingBy<T>(s: seq<T>, key: T -> nat)
  {
    forall i, j :: 0 <= i < j < |s| ==> key(s[i]) >= key(s[j])
  }

  /** Exchanges two adjacent elements. */
  method SwapAdjacent<T>(a: array<T>, j: nat)
    requires 0 < j < a.Length
    modifies a
    ensures a[j - 1] == old(a[j]) && a[j] == old(a[j - 1])
    ensures forall k :: 0 <= k < a.Length && k != j - 1 && k != j ==> a[k] == old(a[k])
    ensures multiset(a[..]) == multiset(old(a[..]))
  {
    a[j - 1], a[j] := a[j], a[j - 1];
  }

  /**
   * std::sort with a "greater key first" comparator: sorts in place into
   * non-increasing key order. std::sort is not stable, so the order among
   * equal keys is left open: any sorted permutation meets the contract.
   */
  method SortDescendingBy<T>(a: array<T>, key: T -> nat)
    modifies a
    ensures SortedDescendingBy(a[..], key)
    ensures multiset(a[..]) == multiset(old(a[..]))
  {
    for i := 0 to a.Length
      invariant SortedDescendingBy(a[..i], key)
      invariant multiset(a[..]) == multiset(old(a[..]))
    {
      InsertDescending(a, i, key);
    }
  }

  /** Moves `a[i]` left past every smaller key, extending the sorted prefix by one. */
  method InsertDescending<T>(a: array<T>, i: nat, key: T -> nat)
    requires i < a.Length && SortedDescendingBy(a[..i], key)
    modifies a
    ensures SortedDescendingBy(a[..i + 1], key)
    ensures multiset(a[..i + 1]) == multiset(old(a[..i + 1]))
    ensures a[i + 1..] == old(a[i + 1..])
    ensures multiset(a[..]) == multiset(old(a[..]))
  {
    assert forall p, q :: 0 <= p < q < i ==> key(a[p]) >= key(a[q]) by {
      forall p, q | 0 <= p < q < i
        ensures key(a[p]) >= key(a[q])
      {
        assert a[..i][p] == a[p] && a[..i][q] == a[q];
      }
    }
    SiftLeft(a, i, key);
    assert a[i + 1..] == old(a[i + 1..]);
    PrefixPermutation(old(a[..]), a[..], i + 1);
  }

  /** The exchange loop of the insertion, stated on array positions. */
  method SiftLeft<T>(a: array<T>, i: nat, key: T -> nat)
    requires i < a.Length
    requires forall p, q :: 0 <= p < q < i ==> key(a[p]) >= key(a[q])
    modifies a
    ensures forall p, q :: 0 <= p < q <= i ==> key(a[p]) >= key(a[q])
    ensures multiset(a[..]) == multiset(old(a[..]))
    ensures forall k :: i < k < a.Length ==> a[k] == old(a[k])
  {
    var j := i;
    while j > 0 && key(a[j - 1]) < key(a[j])
      invariant 0 <= j <= i
      invariant multiset(a[..]) == multiset(old(a[..]))
      invariant forall k :: i < k < a.Length ==> a[k] == old(a[k])
      invariant forall p, q :: 0 <= p < q <= i && q != j ==> key(a[p]) >= key(a[q])
      invariant 0 < j < i ==> key(a[j - 1]) >= key(a[j + 1])
    {
      SiftStep(a, i, j, key);
      j := j - 1;
    }
  }

  /**
   * One exchange of the insertion: the element at `j` moves to `j - 1`, and
   * the prefix through `i` stays sorted everywhere except at its new place.
   */
  method SiftStep<T>(a: array<T>, i: nat, j: nat, key: T -> nat)
    requires 0 < j <= i < a.Length && key(a[j - 1]) < key(a[j])
    requires forall p, q :: 0 <= p < q <= i && q != j ==> key(a[p]) >= key(a[q])
    requires j < i ==> key(a[j - 1]) >= key(a[j + 1])
    modifies a
    ensures forall p, q :: 0 <= p < q <= i && q != j - 1 ==> key(a[p]) >= key(a[q])
    ensures 0 < j - 1 ==> key(a[j - 2]) >= key(a[j])
    ensures multiset(a[..]) == multiset(old(a[..]))
    ensures forall k :: i < k < a.Length ==> a[k] == old(a[k])
  {
    SwapAdjacent(a, j);
  }

  /** A permutation that leaves a suffix in place permutes the prefix before it. */
  lemma PrefixPermutation<T>(before: seq<T>, after: seq<T>, n: nat)
    requires n <= |before| == |after|
    requires multiset(after) == multiset(before) && after[n..] == before[n..]
    ensures multiset(after[..n]) == multiset(before[..n])
  {
    assert after == after[..n] + after[n..] && before == before[..n] + before[n..];
    assert multiset(after) == multiset(after[..n]) + multiset(after[n..]);
    assert multiset(before) == multiset(before[..n]) + multiset(before[n..]);
    forall e
      ensures multiset(after[..n])[e] == multiset(before[..n])[e]
    {
      assert multiset(after)[e] == multiset(after[..n])[e] + multiset(after[n..])[e];
      assert multiset(before)[e] == multiset(before[..n])[e] + multiset(before[n..])[e];
    }
  }

  /** ImageAnalyzer::sortObjectDetailsBySize: largest `width * height` first. */
  method SortObjectDetailsBySize(a: array<ObjectDetails>)
    modifies a
    ensures SortedBySize(a[..])
    ensures multiset(a[..]) == multiset(old(a[..]))
  {
    SortDescendingBy(a, SizeKey);
  }

  lemma DistinctOccursOnce<T>(s: seq<T>, x: T)
    requires Distinct(s)
    ensures multiset(s)[x] <= 1
  {
    if s != [] {
      var t := s[..|s| - 1];
      assert s == t + [s[|s| - 1]];
      assert Distinct(t);
      DistinctOccursOnce(t, x);
      if x == s[|s| - 1] {
        assert x !in t;
      }
    }
  }

  /** A permutation of a sequence without repetitions has none either. */
  lemma PermutationKeepsDistinct<T>(s: seq<T>, t: seq<T>)
    requires multiset(s) == multiset(t) && Distinct(s)
    ensures Distinct(t)
  {
    forall i, j | 0 <= i < j < |t|
      ensures t[i] != t[j]
    {
      if t[i] == t[j] {
        assert t == t[..j] + t[j..];
        assert t[i] in multiset(t[..j]) && t[j] in multiset(t[j..]);
        assert multiset(t)[t[i]] == multiset(t[..j])[t[i]] + multiset(t[j..])[t[i]];
        DistinctOccursOnce(s, t[i]);
      }
    }
  }

  /**
   * A permutation of the extractor's records: each element is the record of
   * its own id, no element repeats, and every id 1..objectCount has its
   * record among them.
   */
  lemma PermutedRecords(grid: seq<nat>, w: nat, h: nat, objectCount: nat,
                        details: seq<ObjectDetails>, s: seq<ObjectDetails>)
    requires |details| == objectCount
    requires forall i :: 0 <= i < objectCount ==> details[i] == ObjectDetailsOf(grid, w, h, i + 1)
    requires multiset(s) == multiset(details)
    ensures Distinct(s)
    ensures forall m :: 0 <= m < |s| ==> 1 <= s[m].id <= objectCount && s[m] == ObjectDetailsOf(grid, w, h, s[m].id)
    ensures forall id :: 1 <= id <= objectCount ==> ObjectDetailsOf(grid, w, h, id) in s
  {
    assert Distinct(details) by {
      forall i, j | 0 <= i < j < |details| ensures details[i] != details[j] {
        assert details[i].id == i + 1 && details[j].id == j + 1;
      }
    }
    PermutationKeepsDistinct(details, s);
    forall m | 0 <= m < |s|
      ensures 1 <= s[m].id <= objectCount && s[m] == ObjectDetailsOf(grid, w, h, s[m].id)
    {
      assert s[m] in multiset(details);
    }
    forall id | 1 <= id <= objectCount
      ensures ObjectDetailsOf(grid, w, h, id) in s
    {
      assert details[id - 1] in multiset(s);
    }
  }

  /** The ids of the records whose `width` reaches `minSize`, in record order. */
  function LargeIds(s: seq<ObjectDetails>, minSize: nat): seq<nat>
  {
    if s == [] then []
    else LargeIds(s[..|s| - 1], minSize) + (if s[|s| - 1].width >= minSize then [s[|s| - 1].id] else [])
  }

  /** The positions in `s` of the records LargeIds keeps. */
  ghost function LargePositions(s: seq<ObjectDetails>, minSize: nat): seq<nat>
  {
    if s == [] then []
    else LargePositions(s[..|s| - 1], minSize) + (if s[|s| - 1].width >= minSize then [|s| - 1] else [])
  }

  /**
   * LargeIds keeps, in increasing position order, exactly the records whose
   * `width` reaches `minSize`.
   */
  lemma LargePositionsLocate(s: seq<ObjectDetails>, minSize: nat)
    ensures var ids, positions := LargeIds(s, minSize), LargePositions(s, minSize);
      && |positions| == |ids|
      && (forall k :: 0 <= k < |ids| ==> positions[k] < |s| && s[positions[k]].id == ids[k])
      && (forall k :: 0 <= k < |ids| ==> s[positions[k]].width >= minSize)
      && (forall p, q :: 0 <= p < q < |ids| ==> positions[p] < positions[q])
      && (forall m :: 0 <= m < |s| && s[m].width >= minSize ==> s[m].id in ids)
  {
    LargePositionsPoint(s, minSize);
    LargePositionsIncrease(s, minSize);
    LargeIdsComplete(s, minSize);
  }

  /** Each kept id is read from a large record at the matching position. */
  lemma {:induction false} LargePositionsPoint(s: seq<ObjectDetails>, minSize: nat)
    ensures var ids, positions := LargeIds(s, minSize), LargePositions(s, minSize);
      && |positions| == |ids|
      && (forall k :: 0 <= k < |ids| ==> positions[k] < |s| && s[positions[k]].id == ids[k]
                                         && s[positions[k]].width >= minSize)
  {
    if s != [] {
      var t := s[..|s| - 1];
      LargePositionsPoint(t, minSize);
      assert forall m :: 0 <= m < |t| ==> s[m] == t[m];
    }
  }

  /** The positions of the kept records increase. */
  lemma {:induction false} LargePositionsIncrease(s: seq<ObjectDetails>, minSize: nat)
    ensures forall k :: 0 <= k < |LargePositions(s, minSize)| ==> LargePositions(s, minSize)[k] < |s|
    ensures forall p, q :: 0 <= p < q < |LargePositions(s, minSize)| ==>
              LargePositions(s, minSize)[p] < LargePositions(s, minSize)[q]
  {
    if s != [] {
      var t := s[..|s| - 1];
      LargePositionsIncrease(t, minSize);
      var earlier := LargePositions(t, minSize);
      var added := if s[|s| - 1].width >= minSize then [|s| - 1] else [];
      assert LargePositions(s, minSize) == earlier + added;
    }
  }

  /** Every large record's id is kept. */
  lemma {:induction false} LargeIdsComplete(s: seq<ObjectDetails>, minSize: nat)
    ensures forall m :: 0 <= m < |s| && s[m].width >= minSize ==> s[m].id in LargeIds(s, minSize)
  {
    if s != [] {
      var t := s[..|s| - 1];
      LargeIdsComplete(t, minSize);
      assert forall m :: 0 <= m < |t| ==> s[m] == t[m];
    }
  }

  /**
   * What the filter loop leaves behind, read back as facts about ids: the
   * large ids, each once, in the order of the sorted records.
   */
  lemma FilteredIds(grid: seq<nat>, w: nat, h: nat, objectCount: nat, minSize: nat,
                    sorted: seq<ObjectDetails>, ids: seq<nat>, positions: seq<nat>)
    requires SortedBySize(sorted) && Distinct(sorted)
    requires forall m :: 0 <= m < |sorted| ==>
               1 <= sorted[m].id <= objectCount && sorted[m] == ObjectDetailsOf(grid, w, h, sorted[m].id)
    requires forall id :: 1 <= id <= objectCount ==> ObjectDetailsOf(grid, w, h, id) in sorted
    requires |positions| == |ids|
    requires forall k :: 0 <= k < |ids| ==> positions[k] < |sorted| && sorted[positions[k]].id == ids[k]
    requires forall k :: 0 <= k < |ids| ==> sorted[positions[k]].width >= minSize
    requires forall p, q :: 0 <= p < q < |ids| ==> positions[p] < positions[q]
    requires forall m :: 0 <= m < |sorted| && sorted[m].width >= minSize ==> sorted[m].id in ids
    ensures LargeIdsBySize(grid, w, h, objectCount, minSize, ids)
  {
    forall k | 0 <= k < |ids|
      ensures 1 <= ids[k] <= objectCount && ObjectDetailsOf(grid, w, h, ids[k]).width >= minSize
    {
      assert sorted[positions[k]] == ObjectDetailsOf(grid, w, h, ids[k]);
    }
    forall id | 1 <= id <= objectCount && ObjectDetailsOf(grid, w, h, id).width >= minSize
      ensures id in ids
    {
      var m :| 0 <= m < |sorted| && sorted[m] == ObjectDetailsOf(grid, w, h, id);
      assert sorted[m].id == id;
    }
    forall p, q | 0 <= p < q < |ids|
      ensures ids[p] != ids[q]
      ensures SizeKey(ObjectDetailsOf(grid, w, h, ids[p])) >= SizeKey(ObjectDetailsOf(grid, w, h, ids[q]))
    {
      var dp, dq := sorted[positions[p]], sorted[positions[q]];
      assert dp != dq;
      assert dp == ObjectDetailsOf(grid, w, h, ids[p]);
      assert dq == ObjectDetailsOf(grid, w, h, ids[q]);
      assert SizeKey(dp) >= SizeKey(dq);
    }
  }

  /**
   * LargeIds of a sorted permutation of the extractor's records: the large
   * ids, each once, in non-increasing `width * height` order.
   */
  /**
   * `ids` is what resolveLargeObjectIds promises: the ids of exactly the
   * objects 1..objectCount whose `width` reaches `minSize`, each once, in
   * non-increasing `width * height` order.
   */
  ghost predicate LargeIdsBySize(grid: seq<nat>, w: nat, h: nat, objectCount: nat, minSize: nat, ids: seq<nat>)
  {
    && (forall k :: 0 <= k < |ids| ==>
          1 <= ids[k] <= objectCount && ObjectDetailsOf(grid, w, h, ids[k]).width >= minSize)
    && (forall id :: 1 <= id <= objectCount && ObjectDetailsOf(grid, w, h, id).width >= minSize ==>
          id in ids)
    && Distinct(ids)
    && (forall p, q :: 0 <= p < q < |ids| ==>
          SizeKey(ObjectDetailsOf(grid, w, h, ids[p])) >= SizeKey(ObjectDetailsOf(grid, w, h, ids[q])))
  }

  lemma SortedLargeIds(grid: seq<nat>, w: nat, h: nat, objectCount: nat, minSize: nat,
                       details: seq<ObjectDetails>, sorted: seq<ObjectDetails>)
    requires |details| == objectCount
    requires forall i :: 0 <= i < objectCount ==> details[i] == ObjectDetailsOf(grid, w, h, i + 1)
    requires multiset(sorted) == multiset(details) && SortedBySize(sorted)
    ensures LargeIdsBySize(grid, w, h, objectCount, minSize, LargeIds(sorted, minSize))
  {
    PermutedRecords(grid, w, h, objectCount, details, sorted);
    LargePositionsLocate(sorted, minSize);
    FilteredIds(grid, w, h, objectCount, minSize, sorted, LargeIds(sorted, minSize), LargePositions(sorted, minSize));
  }

  /**
   * ImageAnalyzer::resolveLargeObjectIds: the ids of exactly those objects
   * whose `width` reaches `minSize` (the height test is disabled in the
   * source), each once, in non-increasing `width * height` order.
   */
  method ResolveLargeObjectIds(grid: seq<nat>, w: nat, h: nat, objectCount: nat, minSize: nat)
    returns (ids: seq<nat>)
    requires h * w <= |grid|
    ensures LargeIdsBySize(grid, w, h, objectCount, minSize, ids)
  {
    var details := ExtractObjectDetails(grid, w, h, objectCount);
    var a := new ObjectDetails[|details|](i requires 0 <= i < |details| => details[i]);
    assert a[..] == details;
    SortObjectDetailsBySize(a);
    ids := CollectLargeIds(a, minSize);
    SortedLargeIds(grid, w, h, objectCount, minSize, details, a[..]);
  }

  /** The filter loop of resolveLargeObjectIds over the sorted records. */
  method CollectLargeIds(a: array<ObjectDetails>, minSize: nat) returns (ids: seq<nat>)
    ensures ids == LargeIds(a[..], minSize)
  {
    ids := [];
    for i := 0 to a.Length
      invariant ids == LargeIds(a[..i], minSize)
    {
      assert a[..i + 1][..i] == a[..i];
      if a[i].width >= minSize {
        ids := ids + [a[i].id];
      }
    }
    assert a[..a.Length] == a[..];
  }
}
