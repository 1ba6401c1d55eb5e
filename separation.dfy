/**
 * separation::Separation (src/separation/Separation.cpp): a pair of grid
 * cells, the clusters, either trivial or complex. A complex separation
 * also names a center node in each cluster and the distance between the
 * two centers. The free functions dispatch on the kind and treat the two
 * clusters as an unordered pair where the source does.
 *
 * `GridGraph::getTrivialDistance` is not part of this model: it is the
 * parameter `trivial`.
 */
module Separations {
  import opened Nodes
  import opened GridCells
  import Utils
  import Dijkstras
  import Arithmetic

  datatype Separation =
    | Complex(first: GridCell, second: GridCell, firstCenter: Node, secondCenter: Node, centerDistance: int)
    | Trivial(first: GridCell, second: GridCell)

  /**
   * `switchSides`: the clusters swapped, and for a complex separation the
   * centers swapped with them and the center distance kept.
   */
  function SwitchSides(sep: Separation): (r: Separation)
    ensures r.first == sep.second && r.second == sep.first
    ensures r.Complex? <==> sep.Complex?
    ensures r.Complex? ==> r.firstCenter == sep.secondCenter && r.secondCenter == sep.firstCenter
    ensures r.Complex? ==> r.centerDistance == sep.centerDistance
  {
    match sep
    case Complex(first, second, c1, c2, d) => Complex(second, first, c2, c1, d)
    case Trivial(first, second) => Trivial(second, first)
  }

  /** Switching sides twice gives back the separation. */
  lemma SwitchSidesIsInvolution(sep: Separation)
    ensures SwitchSides(SwitchSides(sep)) == sep
  {
  }

  /** `operator==`: the same two clusters, in either order; the kind and centers are not compared. */
  predicate Equal(lhs: Separation, rhs: Separation)
  {
    (GridCells.Equal(lhs.first, rhs.first) && GridCells.Equal(lhs.second, rhs.second))
    || (GridCells.Equal(lhs.first, rhs.second) && GridCells.Equal(lhs.second, rhs.first))
  }

  /** `operator!=` */
  predicate NotEqual(lhs: Separation, rhs: Separation)
  {
    !Equal(lhs, rhs)
  }

  /**
   * Equality is equality of the unordered pair of clusters: it is
   * reflexive and symmetric, and a separation equals its switched sides.
   */
  lemma EqualMeansSameClusterPair(lhs: Separation, rhs: Separation)
    ensures Equal(lhs, rhs) <==> {lhs.first, lhs.second} == {rhs.first, rhs.second} && multiset{lhs.first, lhs.second} == multiset{rhs.first, rhs.second}
    ensures Equal(lhs, rhs) <==> Equal(rhs, lhs)
    ensures Equal(lhs, lhs) && Equal(lhs, SwitchSides(lhs))
    ensures NotEqual(lhs, rhs) <==> !Equal(lhs, rhs)
  {
    GridCells.EqualIsIdentity(lhs.first, rhs.first);
    GridCells.EqualIsIdentity(lhs.second, rhs.second);
    GridCells.EqualIsIdentity(lhs.first, rhs.second);
    GridCells.EqualIsIdentity(lhs.second, rhs.first);
    GridCells.EqualIsIdentity(lhs.first, lhs.first);
    GridCells.EqualIsIdentity(lhs.second, lhs.second);
    if {lhs.first, lhs.second} == {rhs.first, rhs.second} && multiset{lhs.first, lhs.second} == multiset{rhs.first, rhs.second} {
      assert lhs.first in {rhs.first, rhs.second};
      if lhs.first == rhs.first {
        assert multiset{lhs.second} == multiset{lhs.first, lhs.second} - multiset{lhs.first};
        assert multiset{rhs.second} == multiset{rhs.first, rhs.second} - multiset{rhs.first};
      } else {
        assert multiset{lhs.second} == multiset{lhs.first, lhs.second} - multiset{lhs.first};
        assert multiset{rhs.first} == multiset{rhs.first, rhs.second} - multiset{rhs.second};
      }
    }
  }

  /** `weight`: the product of the cluster sizes, as `std::size_t`. */
  function Weight(sep: Separation): (w: u64)
    ensures Size(sep.first) * Size(sep.second) <= SIZE_MAX ==> w == Size(sep.first) * Size(sep.second)
  {
    Arithmetic.MulNonNegative(Size(sep.first) as int, Size(sep.second) as int);
    ToSize(Size(sep.first) * Size(sep.second))
  }

  /** `operator<`: by weight alone. */
  predicate Less(lhs: Separation, rhs: Separation)
  {
    Weight(lhs) < Weight(rhs)
  }

  /**
   * The weight does not depend on the order of the clusters, so switching
   * sides keeps it, and `<` is a strict order that switching does not
   * change.
   */
  lemma WeightIgnoresSides(sep: Separation, other: Separation, third: Separation)
    ensures Weight(SwitchSides(sep)) == Weight(sep)
    ensures Less(sep, other) <==> Less(SwitchSides(sep), other)
    ensures !Less(sep, sep)
    ensures Less(sep, other) && Less(other, third) ==> Less(sep, third)
  {
    assert Size(sep.second) * Size(sep.first) == Size(sep.first) * Size(sep.second);
  }

  /**
   * `isSuperSetOf` on separations: each cluster of the first contains a
   * different cluster of the second.
   */
  predicate IsSuperSetOf(lhs: Separation, rhs: Separation)
  {
    (GridCells.IsSuperSetOf(lhs.first, rhs.first) && GridCells.IsSuperSetOf(lhs.second, rhs.second))
    || (GridCells.IsSuperSetOf(lhs.first, rhs.second) && GridCells.IsSuperSetOf(lhs.second, rhs.first))
  }

  /** `isSubSetOf` on separations: each cluster of the first lies in a different cluster of the second. */
  predicate IsSubSetOf(lhs: Separation, rhs: Separation)
  {
    (GridCells.IsSubSetOf(lhs.first, rhs.first) && GridCells.IsSubSetOf(lhs.second, rhs.second))
    || (GridCells.IsSubSetOf(lhs.first, rhs.second) && GridCells.IsSubSetOf(lhs.second, rhs.first))
  }

  /**
   * `isSuperSetOf(a, b)` iff `isSubSetOf(b, a)`; both are reflexive and
   * blind to the order of the clusters.
   */
  lemma SuperSetIsConverseOfSubSet(a: Separation, b: Separation)
    ensures IsSuperSetOf(a, b) <==> IsSubSetOf(b, a)
    ensures IsSuperSetOf(a, a) && IsSubSetOf(a, a)
    ensures IsSubSetOf(a, b) <==> IsSubSetOf(SwitchSides(a), b)
  {
    GridCells.SuperSetIsConverseOfSubSet(a.first, b.first);
    GridCells.SuperSetIsConverseOfSubSet(a.second, b.second);
    GridCells.SuperSetIsConverseOfSubSet(a.first, b.second);
    GridCells.SuperSetIsConverseOfSubSet(a.second, b.first);
  }

  /**
   * `canAnswer`: `std::find` over the nodes each cluster visits finds one
   * node in the first cluster and the other in the second.
   */
  predicate CanAnswer(sep: Separation, from: Node, to: Node)
  {
    (from in CellNodes(sep.first) && to in CellNodes(sep.second))
    || (from in CellNodes(sep.second) && to in CellNodes(sep.first))
  }

  /**
   * For valid clusters, `canAnswer` holds iff one node lies in each
   * cluster; it is symmetric in the two nodes and does not change when
   * the sides are switched.
   */
  lemma CanAnswerMeaning(sep: Separation, from: Node, to: Node)
    requires IsValid(sep.first) && IsValid(sep.second)
    ensures CanAnswer(sep, from, to) <==>
      (IsInCell(sep.first, from) && IsInCell(sep.second, to)) || (IsInCell(sep.second, from) && IsInCell(sep.first, to))
    ensures CanAnswer(sep, from, to) <==> CanAnswer(sep, to, from)
    ensures CanAnswer(sep, from, to) <==> CanAnswer(SwitchSides(sep), from, to)
  {
    CellNodesAreTheCell(sep.first);
    CellNodesAreTheCell(sep.second);
  }

  /**
   * The inner `std::accumulate` of `smallestDistance`: from UNREACHABLE,
   * the minimum with the distance from `from` to each node in turn.
   */
  function MinDistanceFrom(trivial: (Node, Node) -> int, from: Node, nodes: seq<Node>): (r: int)
    ensures r <= Dijkstras.UNREACHABLE
    ensures forall k :: 0 <= k < |nodes| ==> r <= trivial(from, nodes[k])
    ensures r == Dijkstras.UNREACHABLE || exists k :: 0 <= k < |nodes| && r == trivial(from, nodes[k])
  {
    if nodes == [] then Dijkstras.UNREACHABLE
    else Utils.Min2(MinDistanceFrom(trivial, from, nodes[..|nodes| - 1]), trivial(from, nodes[|nodes| - 1]))
  }

  /**
   * The outer `std::accumulate`: from UNREACHABLE, the minimum with the
   * inner result for each node of the first cluster in turn. The result
   * is at most every pairwise distance and is one of them unless it is
   * UNREACHABLE.
   */
  function MinDistanceBetween(trivial: (Node, Node) -> int, lefts: seq<Node>, rights: seq<Node>): (r: int)
    ensures r <= Dijkstras.UNREACHABLE
    ensures forall i, k :: 0 <= i < |lefts| && 0 <= k < |rights| ==> r <= trivial(lefts[i], rights[k])
    ensures r == Dijkstras.UNREACHABLE
      || exists i, k :: 0 <= i < |lefts| && 0 <= k < |rights| && r == trivial(lefts[i], rights[k])
  {
    if lefts == [] then Dijkstras.UNREACHABLE
    else
      var init, last := lefts[..|lefts| - 1], lefts[|lefts| - 1];
      var before, here := MinDistanceBetween(trivial, init, rights), MinDistanceFrom(trivial, last, rights);
      assert forall i, k :: 0 <= i < |init| && 0 <= k < |rights| ==> trivial(lefts[i], rights[k]) == trivial(init[i], rights[k]);
      Utils.Min2(before, here)
  }

  /**
   * `smallestDistance`: the center distance of a complex separation;
   * otherwise the least trivial distance between a node of the first
   * cluster and a node of the second, UNREACHABLE when there is none.
   */
  function SmallestDistance(sep: Separation, trivial: (Node, Node) -> int): (r: int)
    ensures sep.Complex? ==> r == sep.centerDistance
  {
    match sep
    case Complex(_, _, _, _, d) => d
    case Trivial(first, second) => MinDistanceBetween(trivial, CellNodes(first), CellNodes(second))
  }

  /**
   * For a trivial separation of valid clusters the smallest distance is a
   * lower bound of the trivial distance over all pairs of cluster nodes,
   * and is attained by one unless it is UNREACHABLE.
   */
  lemma SmallestDistanceMeaning(sep: Separation, trivial: (Node, Node) -> int, a: Node, b: Node)
    requires sep.Trivial? && IsValid(sep.first) && IsValid(sep.second)
    ensures IsInCell(sep.first, a) && IsInCell(sep.second, b) ==> SmallestDistance(sep, trivial) <= trivial(a, b)
    ensures SmallestDistance(sep, trivial) == Dijkstras.UNREACHABLE
      || exists l, r :: IsInCell(sep.first, l) && IsInCell(sep.second, r) && SmallestDistance(sep, trivial) == trivial(l, r)
  {
    CellNodesAreTheCell(sep.first);
    CellNodesAreTheCell(sep.second);
    var lefts, rights := CellNodes(sep.first), CellNodes(sep.second);
    if IsInCell(sep.first, a) && IsInCell(sep.second, b) {
      var i :| 0 <= i < |lefts| && lefts[i] == a;
      var k :| 0 <= k < |rights| && rights[k] == b;
    }
    var d := SmallestDistance(sep, trivial);
    if d != Dijkstras.UNREACHABLE {
      var i, k :| 0 <= i < |lefts| && 0 <= k < |rights| && d == trivial(lefts[i], rights[k]);
      assert lefts[i] in lefts && rights[k] in rights;
    }
  }
}
