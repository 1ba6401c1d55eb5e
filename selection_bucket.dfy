/**
 * selection::SelectionBucket (src/selection/SelectionBucket.cpp): a vector
 * of selection indices, kept ascending so that membership is a
 * `std::binary_search` and two buckets meet by a merge-style walk. The
 * rvalue-qualified `merge` and `exclude` consume the bucket and return a
 * new one, so a bucket is a value here.
 */
module SelectionBuckets {
  import opened Wrappers
  import Utils

  /** `<` on selection indices. */
  function IndexLess(a: nat, b: nat): bool
  {
    a < b
  }

  lemma IndexLessIsStrictTotalOrder()
    ensures Utils.IsStrictTotalOrder(IndexLess)
  {
  }

  lemma SortedByIndexLess(s: seq<nat>)
    ensures Utils.SortedBy(s, IndexLess) <==> Utils.Sorted(s)
  {
  }

  datatype SelectionBucket = SelectionBucket(selections: seq<nat>)

  /** The constructor: the indices taken over, and sorted when asked to. */
  function Make(selections: seq<nat>, sort: bool): (b: SelectionBucket)
    ensures multiset(b.selections) == multiset(selections)
    ensures sort ==> Utils.Sorted(b.selections)
    ensures !sort ==> b.selections == selections
  {
    if sort then
      IndexLessIsStrictTotalOrder();
      var sorted := Utils.Sort(selections, IndexLess);
      SortedByIndexLess(sorted);
      SelectionBucket(sorted)
    else
      SelectionBucket(selections)
  }

  /** `contains`: a binary search among the selections. */
  predicate Contains(b: SelectionBucket, x: nat)
  {
    Utils.BinarySearch(b.selections, x, IndexLess)
  }

  /** On an ascending bucket `contains` is membership. */
  lemma ContainsIsMembership(b: SelectionBucket, x: nat)
    requires Utils.Sorted(b.selections)
    ensures Contains(b, x) <==> x in b.selections
  {
    IndexLessIsStrictTotalOrder();
    SortedByIndexLess(b.selections);
    Utils.BinarySearchIsMembership(b.selections, x, IndexLess);
  }

  /** `isSubSetOf`: every selection of b is found by binary search in other. */
  predicate IsSubSetOf(b: SelectionBucket, other: seq<nat>)
  {
    forall i :: 0 <= i < |b.selections| ==> Utils.BinarySearch(other, b.selections[i], IndexLess)
  }

  /** `isSuperSetOf`: b contains every element of other. */
  predicate IsSuperSetOf(b: SelectionBucket, other: seq<nat>)
  {
    forall i :: 0 <= i < |other| ==> Contains(b, other[i])
  }

  /** Against an ascending vector, `isSubSetOf` is inclusion of the elements. */
  lemma SubSetMeaning(b: SelectionBucket, other: seq<nat>)
    requires Utils.Sorted(other)
    ensures IsSubSetOf(b, other) <==> forall x :: x in b.selections ==> x in other
  {
    forall x | x in b.selections
      ensures Utils.BinarySearch(other, x, IndexLess) <==> x in other
    {
      ContainsIsMembership(SelectionBucket(other), x);
    }
  }

  /** For an ascending bucket, `isSuperSetOf` is inclusion of other's elements. */
  lemma SuperSetMeaning(b: SelectionBucket, other: seq<nat>)
    requires Utils.Sorted(b.selections)
    ensures IsSuperSetOf(b, other) <==> forall x :: x in other ==> x in b.selections
  {
    forall x | x in other
      ensures Contains(b, x) <==> x in b.selections
    {
      ContainsIsMembership(b, x);
    }
  }

  /** On ascending buckets, a is a superset of c exactly when c is a subset of a. */
  lemma SuperSetIsConverseOfSubSet(a: SelectionBucket, c: SelectionBucket)
    requires Utils.Sorted(a.selections) && Utils.Sorted(c.selections)
    ensures IsSuperSetOf(a, c.selections) <==> IsSubSetOf(c, a.selections)
  {
    SuperSetMeaning(a, c.selections);
    SubSetMeaning(c, a.selections);
  }

  /**
   * `getCommonSelection`: walks both ascending buckets, stepping past the
   * smaller head, and returns the first head they share. What it returns is
   * in both; on ascending buckets it is the least shared selection, and
   * there is none exactly when they are disjoint.
   */
  method GetCommonSelection(b: SelectionBucket, other: SelectionBucket) returns (r: Option<nat>)
    ensures r.Some? ==> r.value in b.selections && r.value in other.selections
    ensures Utils.Sorted(b.selections) && Utils.Sorted(other.selections) ==>
      (r.None? <==> forall x :: x in b.selections ==> x !in other.selections)
    ensures Utils.Sorted(b.selections) && Utils.Sorted(other.selections) && r.Some? ==>
      forall x :: x in b.selections && x in other.selections ==> r.value <= x
  {
    var s, t := b.selections, other.selections;
    ghost var sorted := Utils.Sorted(s) && Utils.Sorted(t);
    var i, j := 0, 0;
    while i < |s| && j < |t|
      invariant 0 <= i <= |s| && 0 <= j <= |t|
      invariant sorted ==> forall k :: 0 <= k < i ==> s[k] !in t
      invariant sorted ==> forall k :: 0 <= k < j ==> t[k] !in s
      decreases |s| - i + |t| - j
    {
      if s[i] < t[j] {
        if sorted {
          forall k | 0 <= k < |t|
            ensures t[k] != s[i]
          {
            if k < j {
              assert t[k] !in s;
            }
          }
        }
        i := i + 1;
      } else if t[j] < s[i] {
        if sorted {
          forall k | 0 <= k < |s|
            ensures s[k] != t[j]
          {
            if k < i {
              assert s[k] !in t;
            }
          }
        }
        j := j + 1;
      } else {
        if sorted {
          forall x | x in s && x in t
            ensures t[j] <= x
          {
            var k :| 0 <= k < |s| && s[k] == x;
            assert !(k < i);
          }
        }
        return Some(t[j]);
      }
    }
    if sorted {
      if i == |s| {
        forall x | x in s
          ensures x !in t
        {
          var k :| 0 <= k < |s| && s[k] == x;
        }
      } else {
        forall x | x in s
          ensures x !in t
        {
          assert forall k :: 0 <= k < |t| ==> t[k] != x;
        }
      }
    }
    return None;
  }

  /** `merge`: the `intersect` of the two buckets, unsorted-flagged since it comes out ascending. */
  function Merge(b: SelectionBucket, other: SelectionBucket): SelectionBucket
  {
    Utils.IntersectBounded(b.selections, other.selections, 0);
    SelectionBucket(Utils.Intersect(b.selections, other.selections))
  }

  /** Merging ascending buckets gives their ascending multiset intersection. */
  lemma MergeIsIntersection(b: SelectionBucket, other: SelectionBucket)
    requires Utils.Sorted(b.selections) && Utils.Sorted(other.selections)
    ensures Utils.Sorted(Merge(b, other).selections)
    ensures multiset(Merge(b, other).selections) == multiset(b.selections) * multiset(other.selections)
  {
    Utils.IntersectSorted(b.selections, other.selections);
    Utils.IntersectMultiset(b.selections, other.selections);
  }

  /** The selections other than x, in their order. */
  function Without(s: seq<nat>, x: nat): seq<nat>
  {
    if s == [] then []
    else Without(s[..|s| - 1], x) + (if s[|s| - 1] == x then [] else [s[|s| - 1]])
  }

  /** Removing x leaves no x and every other occurrence: x's count is set to zero. */
  lemma {:induction false} WithoutCounts(s: seq<nat>, x: nat)
    ensures multiset(Without(s, x)) == multiset(s)[x := 0]
  {
    if s != [] {
      var init, last := s[..|s| - 1], s[|s| - 1];
      WithoutCounts(init, x);
      assert s == init + [last];
    }
  }

  /** Removing keeps the order of the rest, so an ascending list stays ascending. */
  lemma {:induction false} WithoutKeepsSorted(s: seq<nat>, x: nat)
    requires Utils.Sorted(s)
    ensures Utils.Sorted(Without(s, x))
  {
    if s != [] {
      var init, last := s[..|s| - 1], s[|s| - 1];
      WithoutKeepsSorted(init, x);
      WithoutCounts(init, x);
      var w := Without(init, x);
      forall y | y in w
        ensures y <= last
      {
        assert y in multiset(w);
        var k :| 0 <= k < |init| && init[k] == y;
      }
      if last != x {
        var r := w + [last];
        forall i, j | 0 <= i < j < |r|
          ensures r[i] <= r[j]
        {
          assert r[i] == w[i];
          if j == |w| {
            assert w[i] in w;
          }
        }
      }
    }
  }

  /** A list without x is left as it is. */
  lemma {:induction false} WithoutAbsent(s: seq<nat>, x: nat)
    requires x !in s
    ensures Without(s, x) == s
  {
    if s != [] {
      WithoutAbsent(s[..|s| - 1], x);
    }
  }

  /**
   * `exclude`: the remove-erase idiom, keeping every selection but x in
   * order, written as the compacting loop `std::remove` runs.
   */
  method Exclude(b: SelectionBucket, x: nat) returns (r: SelectionBucket)
    ensures r.selections == Without(b.selections, x)
  {
    var s := b.selections;
    var kept: seq<nat> := [];
    var i := 0;
    while i < |s|
      invariant 0 <= i <= |s|
      invariant kept == Without(s[..i], x)
    {
      assert s[..i + 1][..i] == s[..i];
      if s[i] != x {
        kept := kept + [s[i]];
      }
      i := i + 1;
    }
    assert s[..i] == s;
    return SelectionBucket(kept);
  }

  /** `getFirstIndex`: the front selection, none for an empty bucket. */
  function GetFirstIndex(b: SelectionBucket): (r: Option<nat>)
    ensures r.None? <==> b.selections == []
    ensures r.Some? ==> r.value == b.selections[0]
  {
    if b.selections == [] then None else Some(b.selections[0])
  }

  /** `getLastIndex`: the back selection, none for an empty bucket. */
  function GetLastIndex(b: SelectionBucket): (r: Option<nat>)
    ensures r.None? <==> b.selections == []
    ensures r.Some? ==> r.value == b.selections[|b.selections| - 1]
  {
    if b.selections == [] then None else Some(b.selections[|b.selections| - 1])
  }

  /** On an ascending bucket the first index is the least selection and the last the greatest. */
  lemma FirstAndLastAreExtremes(b: SelectionBucket)
    requires Utils.Sorted(b.selections)
    ensures GetFirstIndex(b).Some? ==> forall x :: x in b.selections ==> GetFirstIndex(b).value <= x
    ensures GetLastIndex(b).Some? ==> forall x :: x in b.selections ==> x <= GetLastIndex(b).value
  {
    forall x | x in b.selections
      ensures b.selections[0] <= x <= b.selections[|b.selections| - 1]
    {
      var k :| 0 <= k < |b.selections| && b.selections[k] == x;
    }
  }
}
