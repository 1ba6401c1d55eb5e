/**
 * The variadic helpers of include/utils/Utils.hpp (`min`, `max`, `concat`,
 * `intersect`) and the two standard algorithms the library leans on:
 * `std::sort` (modelled by an insertion sort proved to sort and to permute)
 * and `std::set_intersection` on sorted ranges.
 *
 * A variadic call `f(a, b, c, ...)` is modelled as `F([a, b, c, ...])` on a
 * sequence of at least two arguments, folding left exactly as the templates do.
 */
module Utils {

  // ---------------------------------------------------------------------------
  // min / max

  /** The two-argument case of `utils::min`: `head0 < head1 ? head0 : head1`. */
  function Min2(a: int, b: int): int
  {
    if a < b then a else b
  }

  /** The two-argument case of `utils::max`: `head0 > head1 ? head0 : head1`. */
  function Max2(a: int, b: int): int
  {
    if a > b then a else b
  }

  /** `utils::min(head0, head1, tail...)`, a left fold of the two-argument case. */
  function MinOf(args: seq<int>): (r: int)
    requires |args| >= 2
    ensures r in args
    ensures forall i :: 0 <= i < |args| ==> r <= args[i]
    decreases |args|
  {
    if |args| == 2 then Min2(args[0], args[1])
    else
      var folded := [Min2(args[0], args[1])] + args[2..];
      var r := MinOf(folded);
      assert forall i :: 2 <= i < |args| ==> args[i] == folded[i - 1];
      assert r == folded[0] || r in args[2..];
      r
  }

  /** The four-argument minimum is one of the four and no greater than any. */
  lemma MinOfFour(a: int, b: int, c: int, d: int)
    ensures var r := MinOf([a, b, c, d]);
      r <= a && r <= b && r <= c && r <= d && (r == a || r == b || r == c || r == d)
  {
    var s := [a, b, c, d];
    assert s[0] == a && s[1] == b && s[2] == c && s[3] == d;
  }

  /** `utils::max(head0, head1, tail...)`, a left fold of the two-argument case. */
  function MaxOf(args: seq<int>): (r: int)
    requires |args| >= 2
    ensures r in args
    ensures forall i :: 0 <= i < |args| ==> args[i] <= r
    decreases |args|
  {
    if |args| == 2 then Max2(args[0], args[1])
    else
      var folded := [Max2(args[0], args[1])] + args[2..];
      var r := MaxOf(folded);
      assert forall i :: 2 <= i < |args| ==> args[i] == folded[i - 1];
      assert r == folded[0] || r in args[2..];
      r
  }

  /** The four-argument maximum is one of the four and no less than any. */
  lemma MaxOfFour(a: int, b: int, c: int, d: int)
    ensures var r := MaxOf([a, b, c, d]);
      a <= r && b <= r && c <= r && d <= r && (r == a || r == b || r == c || r == d)
  {
    var s := [a, b, c, d];
    assert s[0] == a && s[1] == b && s[2] == c && s[3] == d;
  }

  // ---------------------------------------------------------------------------
  // concat

  /** Reference definition: all the vectors, one after the other. */
  function Flatten<T>(parts: seq<seq<T>>): seq<T>
  {
    if parts == [] then [] else parts[0] + Flatten(parts[1..])
  }

  /** Total number of elements over all the vectors. */
  function TotalLength<T>(parts: seq<seq<T>>): nat
  {
    if parts == [] then 0 else |parts[0]| + TotalLength(parts[1..])
  }

  /**
   * `utils::concat(head0, head1, tail...)`: appends head1 to head0 and folds
   * the result leftwards through the tail.
   */
  function Concat<T>(parts: seq<seq<T>>): (r: seq<T>)
    requires |parts| >= 2
    ensures |r| == TotalLength(parts)
    decreases |parts|
  {
    TotalLengthFold(parts);
    if |parts| == 2 then parts[0] + parts[1]
    else Concat([parts[0] + parts[1]] + parts[2..])
  }

  lemma TotalLengthFold<T>(parts: seq<seq<T>>)
    requires |parts| >= 2
    ensures TotalLength([parts[0] + parts[1]] + parts[2..]) == TotalLength(parts)
  {
    assert ([parts[0] + parts[1]] + parts[2..])[1..] == parts[2..] == parts[1..][1..];
  }

  lemma {:induction false} FlattenAppend<T>(a: seq<T>, b: seq<T>, rest: seq<seq<T>>)
    ensures Flatten([a + b] + rest) == Flatten([a, b] + rest)
  {
    assert ([a + b] + rest)[1..] == rest;
    assert ([a, b] + rest)[1..] == [b] + rest;
    assert ([b] + rest)[1..] == rest;
  }

  /** The left fold of `concat` produces the vectors one after the other. */
  lemma {:induction false} ConcatIsFlatten<T>(parts: seq<seq<T>>)
    requires |parts| >= 2
    ensures Concat(parts) == Flatten(parts)
    decreases |parts|
  {
    if |parts| == 2 {
      assert parts == [parts[0], parts[1]] + [];
      FlattenAppend(parts[0], parts[1], []);
      assert Flatten([parts[0] + parts[1]]) == parts[0] + parts[1] + Flatten([]);
    } else {
      var rest := parts[2..];
      assert parts == [parts[0], parts[1]] + rest;
      ConcatIsFlatten([parts[0] + parts[1]] + rest);
      FlattenAppend(parts[0], parts[1], rest);
    }
  }

  // ---------------------------------------------------------------------------
  // sorted sequences and std::sort

  /** Ascending (duplicates allowed), as std::sort leaves a vector of indices. */
  ghost predicate Sorted(s: seq<int>)
  {
    forall i, j :: 0 <= i < j < |s| ==> s[i] <= s[j]
  }

  /** A strict total order on T, as std::sort and std::binary_search require. */
  ghost predicate IsStrictTotalOrder<T(!new)>(lt: (T, T) -> bool)
  {
    (forall a :: !lt(a, a)) &&
    (forall a, b, c :: lt(a, b) && lt(b, c) ==> lt(a, c)) &&
    (forall a, b :: a != b ==> lt(a, b) || lt(b, a))
  }

  /** Ascending under the order lt: no later element is smaller than an earlier one. */
  ghost predicate SortedBy<T>(s: seq<T>, lt: (T, T) -> bool)
  {
    forall i, j :: 0 <= i < j < |s| ==> !lt(s[j], s[i])
  }

  function InsertSorted<T(!new)>(x: T, s: seq<T>, lt: (T, T) -> bool): (r: seq<T>)
    requires IsStrictTotalOrder(lt) && SortedBy(s, lt)
    ensures SortedBy(r, lt)
    ensures multiset(r) == multiset(s) + multiset{x}
    ensures |r| == |s| + 1
  {
    if s == [] then [x]
    else if !lt(s[0], x) then [x] + s
    else
      var tail := InsertSorted(x, s[1..], lt);
      InsertedBehindHead(x, s, tail, lt);
      [s[0]] + tail
  }

  /** Inserting behind a head that is below x keeps the head in front of the ascending tail. */
  lemma InsertedBehindHead<T(!new)>(x: T, s: seq<T>, tail: seq<T>, lt: (T, T) -> bool)
    requires IsStrictTotalOrder(lt) && SortedBy(s, lt) && s != [] && lt(s[0], x)
    requires SortedBy(tail, lt) && multiset(tail) == multiset(s[1..]) + multiset{x}
    ensures SortedBy([s[0]] + tail, lt) && multiset([s[0]] + tail) == multiset(s) + multiset{x}
  {
    assert s == [s[0]] + s[1..];
    forall k | 0 <= k < |tail|
      ensures !lt(tail[k], s[0])
    {
      assert tail[k] in multiset(tail);
      assert tail[k] == x || tail[k] in multiset(s[1..]);
    }
    var r := [s[0]] + tail;
    forall i, j | 0 <= i < j < |r|
      ensures !lt(r[j], r[i])
    {
      assert r[j] == tail[j - 1];
      if i > 0 {
        assert r[i] == tail[i - 1];
      }
    }
  }

  /** The effect of `std::sort` with the order lt: an ascending permutation. */
  function Sort<T(!new)>(s: seq<T>, lt: (T, T) -> bool): (r: seq<T>)
    requires IsStrictTotalOrder(lt)
    ensures SortedBy(r, lt)
    ensures multiset(r) == multiset(s)
    ensures |r| == |s|
  {
    if s == [] then []
    else
      assert s == [s[0]] + s[1..];
      InsertSorted(s[0], Sort(s[1..], lt), lt)
  }

  /** The natural order on integers, the one std::sort uses on index vectors. */
  function IntLess(a: int, b: int): bool
  {
    a < b
  }

  lemma IntLessIsStrictTotalOrder()
    ensures IsStrictTotalOrder(IntLess)
  {
  }

  lemma SortedByIntLess(s: seq<int>)
    ensures SortedBy(s, IntLess) <==> Sorted(s)
  {
  }

  // ---------------------------------------------------------------------------
  // std::lower_bound and std::binary_search

  /**
   * `std::lower_bound` by halving: on a range ascending under lt, the first
   * position whose element is not below x.
   */
  function LowerBound<T>(s: seq<T>, x: T, lt: (T, T) -> bool): (k: nat)
    ensures k <= |s|
    decreases |s|
  {
    if s == [] then 0
    else
      var half := |s| / 2;
      if lt(s[half], x) then half + 1 + LowerBound(s[half + 1..], x, lt)
      else LowerBound(s[..half], x, lt)
  }

  /** `std::binary_search`: the lower bound lies inside the range and its element is not above x. */
  predicate BinarySearch<T>(s: seq<T>, x: T, lt: (T, T) -> bool)
  {
    var k := LowerBound(s, x, lt);
    k < |s| && !lt(x, s[k])
  }

  /** On an ascending range the lower bound splits it into the elements below x and the others. */
  lemma {:induction false} LowerBoundSplits<T(!new)>(s: seq<T>, x: T, lt: (T, T) -> bool)
    requires IsStrictTotalOrder(lt) && SortedBy(s, lt)
    ensures forall i :: 0 <= i < LowerBound(s, x, lt) ==> lt(s[i], x)
    ensures forall i :: LowerBound(s, x, lt) <= i < |s| ==> !lt(s[i], x)
    decreases |s|
  {
    if s != [] {
      var half := |s| / 2;
      if lt(s[half], x) {
        var t := s[half + 1..];
        LowerBoundSplits(t, x, lt);
        forall i | 0 <= i <= half
          ensures lt(s[i], x)
        {
          if s[i] != s[half] {
            assert lt(s[i], s[half]);
          }
        }
        forall i | half + 1 <= i < |s|
          ensures (i < LowerBound(s, x, lt) ==> lt(s[i], x)) && (LowerBound(s, x, lt) <= i ==> !lt(s[i], x))
        {
          assert s[i] == t[i - (half + 1)];
        }
      } else {
        var t := s[..half];
        LowerBoundSplits(t, x, lt);
        forall i | half <= i < |s|
          ensures !lt(s[i], x)
        {
          if s[i] != s[half] {
            assert lt(s[half], s[i]);
          }
        }
        forall i | 0 <= i < half
          ensures (i < LowerBound(s, x, lt) ==> lt(s[i], x)) && (LowerBound(s, x, lt) <= i ==> !lt(s[i], x))
        {
          assert s[i] == t[i];
        }
      }
    }
  }

  /** On an ascending range `std::binary_search` answers membership. */
  lemma BinarySearchIsMembership<T(!new)>(s: seq<T>, x: T, lt: (T, T) -> bool)
    requires IsStrictTotalOrder(lt) && SortedBy(s, lt)
    ensures BinarySearch(s, x, lt) <==> x in s
  {
    LowerBoundSplits(s, x, lt);
    var k := LowerBound(s, x, lt);
    if x in s {
      var i :| 0 <= i < |s| && s[i] == x;
      assert k <= i;
      assert k == i || !lt(s[i], s[k]);
    }
    if BinarySearch(s, x, lt) {
      assert s[k] == x;
    }
  }

  // ---------------------------------------------------------------------------
  // intersect (std::set_intersection)

  /**
   * `std::set_intersection` on two ascending ranges: walks both ranges,
   * dropping the smaller head, and copies a head from the first range when
   * the heads are equal.
   */
  function Intersect(a: seq<int>, b: seq<int>): (r: seq<int>)
    decreases |a| + |b|
  {
    if a == [] || b == [] then []
    else if a[0] < b[0] then Intersect(a[1..], b)
    else if b[0] < a[0] then Intersect(a, b[1..])
    else [a[0]] + Intersect(a[1..], b[1..])
  }

  lemma {:induction false} IntersectBounded(a: seq<int>, b: seq<int>, lo: int)
    requires forall k :: 0 <= k < |a| ==> lo <= a[k]
    ensures forall k :: 0 <= k < |Intersect(a, b)| ==> lo <= Intersect(a, b)[k]
    decreases |a| + |b|
  {
    if a == [] || b == [] {
    } else if a[0] < b[0] {
      IntersectBounded(a[1..], b, lo);
    } else if b[0] < a[0] {
      IntersectBounded(a, b[1..], lo);
    } else {
      IntersectBounded(a[1..], b[1..], lo);
    }
  }

  /** On ascending inputs the intersection is ascending. */
  lemma {:induction false} IntersectSorted(a: seq<int>, b: seq<int>)
    requires Sorted(a) && Sorted(b)
    ensures Sorted(Intersect(a, b))
    decreases |a| + |b|
  {
    if a == [] || b == [] {
    } else if a[0] < b[0] {
      IntersectSorted(a[1..], b);
    } else if b[0] < a[0] {
      IntersectSorted(a, b[1..]);
    } else {
      IntersectSorted(a[1..], b[1..]);
      IntersectBounded(a[1..], b[1..], a[0]);
    }
  }

  lemma MultisetDropAbsent(x: int, a: multiset<int>, b: multiset<int>)
    requires x !in b
    ensures (multiset{x} + a) * b == a * b
    ensures b * (multiset{x} + a) == b * a
  {
    assert forall y :: ((multiset{x} + a) * b)[y] == (a * b)[y];
    assert forall y :: (b * (multiset{x} + a))[y] == (b * a)[y];
  }

  lemma MultisetDropCommon(x: int, a: multiset<int>, b: multiset<int>)
    ensures (multiset{x} + a) * (multiset{x} + b) == multiset{x} + a * b
  {
    assert forall y :: ((multiset{x} + a) * (multiset{x} + b))[y] == (multiset{x} + a * b)[y];
  }

  /** A head below every element of an ascending b occurs in b zero times. */
  lemma HeadBelowAbsent(a: seq<int>, b: seq<int>)
    requires a != [] && b != [] && Sorted(b) && a[0] < b[0]
    ensures multiset(a) * multiset(b) == multiset(a[1..]) * multiset(b)
    ensures multiset(b) * multiset(a) == multiset(b) * multiset(a[1..])
  {
    assert a == [a[0]] + a[1..];
    assert a[0] !in multiset(b);
    MultisetDropAbsent(a[0], multiset(a[1..]), multiset(b));
  }

  /** A head shared by both sequences occurs once in the intersection on top of the tails'. */
  lemma HeadCommon(a: seq<int>, b: seq<int>)
    requires a != [] && b != [] && a[0] == b[0]
    ensures multiset(a) * multiset(b) == multiset{a[0]} + multiset(a[1..]) * multiset(b[1..])
  {
    assert a == [a[0]] + a[1..];
    assert b == [b[0]] + b[1..];
    MultisetDropCommon(a[0], multiset(a[1..]), multiset(b[1..]));
  }

  /**
   * On ascending inputs `std::set_intersection` yields the multiset
   * intersection: every value as often as it occurs in both inputs.
   */
  lemma {:induction false} IntersectMultiset(a: seq<int>, b: seq<int>)
    requires Sorted(a) && Sorted(b)
    ensures multiset(Intersect(a, b)) == multiset(a) * multiset(b)
    decreases |a| + |b|
  {
    if a == [] || b == [] {
    } else if a[0] < b[0] {
      IntersectMultiset(a[1..], b);
      HeadBelowAbsent(a, b);
    } else if b[0] < a[0] {
      IntersectMultiset(a, b[1..]);
      HeadBelowAbsent(b, a);
    } else {
      IntersectMultiset(a[1..], b[1..]);
      HeadCommon(a, b);
    }
  }

  /** An element is in the intersection exactly when it is in both ascending inputs. */
  lemma IntersectMembership(a: seq<int>, b: seq<int>, x: int)
    requires Sorted(a) && Sorted(b)
    ensures x in Intersect(a, b) <==> x in a && x in b
  {
    IntersectMultiset(a, b);
    assert x in Intersect(a, b) <==> x in multiset(Intersect(a, b));
  }

  /**
   * The same `std::set_intersection` walk over any element type, ordered
   * by lt (the template `utils::intersect` is instantiated with nodes as
   * well as indices).
   */
  function IntersectBy<T(==)>(a: seq<T>, b: seq<T>, lt: (T, T) -> bool): seq<T>
    decreases |a| + |b|
  {
    if a == [] || b == [] then []
    else if lt(a[0], b[0]) then IntersectBy(a[1..], b, lt)
    else if lt(b[0], a[0]) then IntersectBy(a, b[1..], lt)
    else [a[0]] + IntersectBy(a[1..], b[1..], lt)
  }

  /** On indices the generic walk is Intersect. */
  lemma {:induction false} IntersectIsIntersectBy(a: seq<int>, b: seq<int>)
    ensures IntersectBy(a, b, IntLess) == Intersect(a, b)
    decreases |a| + |b|
  {
    if a == [] || b == [] {
    } else if a[0] < b[0] {
      IntersectIsIntersectBy(a[1..], b);
    } else if b[0] < a[0] {
      IntersectIsIntersectBy(a, b[1..]);
    } else {
      IntersectIsIntersectBy(a[1..], b[1..]);
    }
  }

  /** On ranges ascending under a strict total order, an element is in the intersection iff it is in both. */
  lemma {:induction false} IntersectByMembership<T(!new)>(a: seq<T>, b: seq<T>, lt: (T, T) -> bool, x: T)
    requires IsStrictTotalOrder(lt) && SortedBy(a, lt) && SortedBy(b, lt)
    ensures x in IntersectBy(a, b, lt) <==> x in a && x in b
    decreases |a| + |b|
  {
    if a != [] && b != [] {
      assert SortedBy(a[1..], lt) && SortedBy(b[1..], lt);
      assert a == [a[0]] + a[1..] && b == [b[0]] + b[1..];
      if lt(a[0], b[0]) {
        IntersectByMembership(a[1..], b, lt, x);
        forall k | 0 <= k < |b|
          ensures b[k] != a[0]
        {
          if k > 0 {
            assert !lt(b[k], b[0]);
          }
        }
      } else if lt(b[0], a[0]) {
        IntersectByMembership(a, b[1..], lt, x);
        forall k | 0 <= k < |a|
          ensures a[k] != b[0]
        {
          if k > 0 {
            assert !lt(a[k], a[0]);
          }
        }
      } else {
        IntersectByMembership(a[1..], b[1..], lt, x);
      }
    }
  }

  /**
   * `utils::intersect(head0, head1, tail...)`: intersect the first two and
   * fold the result leftwards through the tail.
   */
  function IntersectAll(parts: seq<seq<int>>): (r: seq<int>)
    requires |parts| >= 2
    decreases |parts|
  {
    if |parts| == 2 then Intersect(parts[0], parts[1])
    else IntersectAll([Intersect(parts[0], parts[1])] + parts[2..])
  }

  /** Multiset intersection of all the parts, the reference meaning of IntersectAll. */
  ghost function CommonMultiset(parts: seq<seq<int>>): multiset<int>
    requires |parts| >= 1
    decreases |parts|
  {
    if |parts| == 1 then multiset(parts[0])
    else multiset(parts[0]) * CommonMultiset(parts[1..])
  }

  lemma MultisetIntersectionAssociative(a: multiset<int>, b: multiset<int>, c: multiset<int>)
    ensures (a * b) * c == a * (b * c)
  {
    assert forall y :: ((a * b) * c)[y] == (a * (b * c))[y];
  }

  /** On ascending inputs the folded intersection is ascending and is the common multiset. */
  lemma {:induction false} IntersectAllMultiset(parts: seq<seq<int>>)
    requires |parts| >= 2
    requires forall k :: 0 <= k < |parts| ==> Sorted(parts[k])
    ensures Sorted(IntersectAll(parts))
    ensures multiset(IntersectAll(parts)) == CommonMultiset(parts)
    decreases |parts|
  {
    IntersectSorted(parts[0], parts[1]);
    IntersectMultiset(parts[0], parts[1]);
    if |parts| == 2 {
      assert parts[1..][1..] == [] && |parts[1..]| == 1;
    } else {
      var folded := [Intersect(parts[0], parts[1])] + parts[2..];
      assert folded[1..] == parts[2..] == parts[1..][1..];
      IntersectAllMultiset(folded);
      MultisetIntersectionAssociative(multiset(parts[0]), multiset(parts[1]), CommonMultiset(parts[2..]));
    }
  }
}
