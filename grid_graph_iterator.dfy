/**
 * graph::GridGraphIterator (src/graph/GridGraphIterator.cpp): walks the
 * row-major indices of a grid graph, stopping only on walkable nodes or
 * at the end index width * height. Index arithmetic is `std::size_t` and
 * wraps modulo 2^64.
 */
module GridGraphIterators {
  import opened Nodes
  import opened GridGraphs
  import opened Arithmetic

  /**
   * `getNodeAtIdx`: row idx / width, column idx % width. The source takes
   * the row as `std::floor` of a double quotient; exact integer division
   * stands for it, which agrees while idx + width <= 2^53.
   */
  function NodeAtIdx(g: GridGraph, idx: u64): Node
    requires g.width > 0
  {
    DivAtMost(idx, g.width);
    Node(idx / g.width, idx % g.width)
  }

  /**
   * Inside the grid, `getNodeAtIdx` and `nodeToIndex` are inverse to each
   * other; at or beyond width * height the node lies below the last row.
   */
  lemma NodeAtIdxInvertsNodeToIndex(g: GridGraph, idx: u64)
    requires g.width > 0
    ensures idx < g.height * g.width ==>
      NodeAtIdx(g, idx).row < g.height && NodeAtIdx(g, idx).column < g.width
      && NodeToIndex(g, NodeAtIdx(g, idx)) == idx
    ensures idx >= g.height * g.width ==> NodeAtIdx(g, idx).row >= g.height
  {
    if idx < g.height * g.width {
      DivBelow(idx, g.width, g.height);
    } else {
      DivAtLeast(idx, g.width, g.height);
    }
  }

  lemma NodeToIndexInvertsNodeAtIdx(g: GridGraph, n: Node)
    requires g.width > 0 && n.row < g.height && n.column < g.width
    requires g.height * g.width <= SIZE_MAX + 1
    ensures 0 <= NodeToIndex(g, n) < g.height * g.width
    ensures NodeAtIdx(g, NodeToIndex(g, n) as u64) == n
  {
    RowMajorBelow(n.row, n.column, g.width, g.height);
    DivModOf(NodeToIndex(g, n), n.row, n.column, g.width);
  }

  /**
   * The index the skipping loops stop at: the first index from idx on
   * whose node is walkable, or the end index, whichever comes first; an
   * index already at or past the end stays where it is.
   */
  function SkipBarriers(g: GridGraph, idx: u64, maxIdx: u64): (r: u64)
    requires Valid(g) && g.width > 0
    ensures idx <= r
    ensures idx < maxIdx ==> r <= maxIdx
    ensures idx >= maxIdx ==> r == idx
    ensures r < maxIdx ==> IsWalkableNode(g, NodeAtIdx(g, r))
    ensures forall k: u64 :: idx <= k < r ==> k < maxIdx && IsBarrier(g, NodeAtIdx(g, k))
    decreases maxIdx - idx
  {
    if IsBarrier(g, NodeAtIdx(g, idx)) && idx < maxIdx then SkipBarriers(g, idx + 1, maxIdx) else idx
  }

  /**
   * For the graph's own end index: the stop is a walkable node of the grid,
   * or the end; no walkable node is skipped on the way.
   */
  lemma SkipBarriersFindsNextWalkable(g: GridGraph, idx: u64, n: Node)
    requires Valid(g) && g.width > 0 && g.height * g.width <= SIZE_MAX
    ensures var r := SkipBarriers(g, idx, EndIndex(g));
      r < EndIndex(g) ==>
        NodeAtIdx(g, r).row < g.height && NodeAtIdx(g, r).column < g.width && IsWalkableNode(g, NodeAtIdx(g, r))
    ensures IsWalkableNode(g, n) && idx <= NodeToIndex(g, n) ==>
      SkipBarriers(g, idx, EndIndex(g)) <= NodeToIndex(g, n)
  {
    var r := SkipBarriers(g, idx, EndIndex(g));
    ToSizeOfSize(g.width * g.height);
    NodeAtIdxInvertsNodeToIndex(g, r);
    if IsWalkableNode(g, n) && idx <= NodeToIndex(g, n) {
      NodeToIndexInvertsNodeAtIdx(g, n);
      var k := NodeToIndex(g, n) as u64;
      assert !IsBarrier(g, NodeAtIdx(g, k));
    }
  }

  class GridGraphIterator {
    const graph: GridGraph
    var idx: u64
    const maxIdx: u64

    /** The graph is well formed and has columns, and `max_idx_` is its width * height. */
    predicate Valid()
      reads this
    {
      GridGraphs.Valid(graph) && graph.width > 0 && maxIdx == EndIndex(graph)
    }

    /** The constructor: start at idx and skip barriers. */
    constructor (graph: GridGraph, idx: u64)
      requires GridGraphs.Valid(graph) && graph.width > 0
      ensures Valid() && this.graph == graph
      ensures this.idx == SkipBarriers(graph, idx, EndIndex(graph))
    {
      this.graph := graph;
      this.idx := idx;
      this.maxIdx := ToSize(graph.width * graph.height);
      new;
      var node := NodeAtIdx(graph, this.idx);
      while IsBarrier(graph, node) && this.idx < maxIdx
        invariant Valid() && this.graph == graph
        invariant SkipBarriers(graph, this.idx, maxIdx) == SkipBarriers(graph, idx, maxIdx)
        invariant node == NodeAtIdx(graph, this.idx)
        decreases maxIdx - this.idx
      {
        this.idx := this.idx + 1;
        node := NodeAtIdx(graph, this.idx);
      }
    }

    /** The defaulted copy constructor. */
    constructor Copy(other: GridGraphIterator)
      ensures graph == other.graph && idx == other.idx && maxIdx == other.maxIdx
    {
      graph := other.graph;
      idx := other.idx;
      maxIdx := other.maxIdx;
    }

    /** Prefix `operator++`: step once (wrapping), then skip barriers. */
    method Increment()
      requires Valid()
      modifies this
      ensures Valid()
      ensures idx == SkipBarriers(graph, Inc(old(idx)), maxIdx)
      ensures old(idx) < SIZE_MAX ==> old(idx) < idx
    {
      idx := Inc(idx);
      var node := NodeAtIdx(graph, idx);
      while IsBarrier(graph, node) && idx < maxIdx
        invariant Valid()
        invariant SkipBarriers(graph, idx, maxIdx) == SkipBarriers(graph, Inc(old(idx)), maxIdx)
        invariant old(idx) < SIZE_MAX ==> old(idx) < idx
        invariant node == NodeAtIdx(graph, idx)
        decreases maxIdx - idx
      {
        idx := idx + 1;
        node := NodeAtIdx(graph, idx);
      }
    }

    /** Postfix `operator++`: a copy of the iterator before the step. */
    method PostIncrement() returns (ret: GridGraphIterator)
      requires Valid()
      modifies this
      ensures fresh(ret) && ret.graph == graph && ret.idx == old(idx) && ret.maxIdx == maxIdx
      ensures Valid() && idx == SkipBarriers(graph, Inc(old(idx)), maxIdx)
    {
      ret := new GridGraphIterator.Copy(this);
      Increment();
    }

    /** `operator+=(difference_type)`: add to the index, without skipping. */
    method AddOffset(rhs: u64)
      modifies this
      ensures idx == ToSize(old(idx) + rhs)
    {
      idx := ToSize(idx + rhs);
    }

    /** `operator+=(const GridGraphIterator&)`: add the other's index, without skipping. */
    method AddIterator(rhs: GridGraphIterator)
      modifies this
      ensures idx == ToSize(old(idx) + old(rhs.idx))
    {
      idx := ToSize(idx + rhs.idx);
    }

    /** `operator*`: the node at the current index. */
    function Current(): Node
      reads this
      requires Valid()
    {
      NodeAtIdx(graph, idx)
    }

    predicate Equals(other: GridGraphIterator)
      reads this, other
    {
      idx == other.idx
    }

    predicate NotEquals(other: GridGraphIterator)
      reads this, other
    {
      idx != other.idx
    }

    predicate Less(other: GridGraphIterator)
      reads this, other
    {
      idx < other.idx
    }

    predicate LessEq(other: GridGraphIterator)
      reads this, other
    {
      idx <= other.idx
    }

    predicate Greater(other: GridGraphIterator)
      reads this, other
    {
      idx > other.idx
    }

    predicate GreaterEq(other: GridGraphIterator)
      reads this, other
    {
      idx >= other.idx
    }
  }

  /**
   * The iterator comparisons look at the index only: iterators over
   * different graphs compare as their indices do, `!=` is the negation of
   * `==`, and exactly one of `<`, `==`, `>` holds.
   */
  lemma ComparisonsFollowIndex(a: GridGraphIterator, b: GridGraphIterator)
    ensures a.Equals(b) <==> a.idx == b.idx
    ensures a.NotEquals(b) <==> !a.Equals(b)
    ensures a.LessEq(b) <==> a.Less(b) || a.Equals(b)
    ensures a.GreaterEq(b) <==> a.Greater(b) || a.Equals(b)
    ensures a.Greater(b) <==> b.Less(a)
    ensures (if a.Less(b) then 1 else 0) + (if a.Equals(b) then 1 else 0) + (if a.Greater(b) then 1 else 0) == 1
  {
  }
}
