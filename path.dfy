/**
 * pathfinding::Path (src/Path.cpp): a path as the vector of its nodes,
 * from source to target. Its length counts edges, in `std::size_t`.
 */
module Paths {
  import opened Nodes

  /** `getLength`: the node count minus one, wrapping to SIZE_MAX for an empty path. */
  function Length(nodes: seq<Node>): u64
  {
    ToSize(|nodes| - 1)
  }

  /**
   * A path with nodes (at most 2^64 of them) has one edge fewer than it has nodes; the empty path
   * reports the largest `std::size_t`.
   */
  lemma LengthCountsEdges(nodes: seq<Node>)
    ensures 0 < |nodes| <= SIZE_MAX + 1 ==> Length(nodes) + 1 == |nodes|
    ensures |nodes| == 0 ==> Length(nodes) == SIZE_MAX
  {
    if 0 < |nodes| <= SIZE_MAX + 1 {
      ToSizeOfSize(|nodes| - 1);
    }
  }

  /** Adding a node at either end of a path with nodes adds one edge. */
  lemma {:induction false} AddingANodeAddsAnEdge(nodes: seq<Node>, n: Node)
    requires 0 < |nodes| < SIZE_MAX
    ensures Length([n] + nodes) == Length(nodes) + 1
    ensures Length(nodes + [n]) == Length(nodes) + 1
  {
    LengthCountsEdges(nodes);
    LengthCountsEdges([n] + nodes);
    LengthCountsEdges(nodes + [n]);
  }

  class Path {
    var nodes: seq<Node>

    /** The constructor keeps the given nodes. */
    constructor (path: seq<Node>)
      ensures nodes == path
    {
      nodes := path;
    }

    /** `pushBack`: the node becomes the new target. */
    method PushBack(n: Node)
      modifies this
      ensures nodes == old(nodes) + [n]
      ensures GetTarget() == n
      ensures old(|nodes|) > 0 ==> GetSource() == old(GetSource())
      ensures 0 < old(|nodes|) < SIZE_MAX ==> GetLength() == old(GetLength()) + 1
    {
      if 0 < |nodes| < SIZE_MAX {
        AddingANodeAddsAnEdge(nodes, n);
      }
      nodes := nodes + [n];
    }

    /** `pushFront`: the node becomes the new source. */
    method PushFront(n: Node)
      modifies this
      ensures nodes == [n] + old(nodes)
      ensures GetSource() == n
      ensures old(|nodes|) > 0 ==> GetTarget() == old(GetTarget())
      ensures 0 < old(|nodes|) < SIZE_MAX ==> GetLength() == old(GetLength()) + 1
    {
      if 0 < |nodes| < SIZE_MAX {
        AddingANodeAddsAnEdge(nodes, n);
      }
      nodes := [n] + nodes;
    }

    function GetLength(): u64
      reads this
    {
      Length(nodes)
    }

    /** `getSource`: the front node; the source requires a non-empty path. */
    function GetSource(): Node
      reads this
      requires |nodes| > 0
    {
      nodes[0]
    }

    /** `getTarget`: the back node; the source requires a non-empty path. */
    function GetTarget(): Node
      reads this
      requires |nodes| > 0
    {
      nodes[|nodes| - 1]
    }

    /** `getNodes`: the stored vector itself. */
    function GetNodes(): seq<Node>
      reads this
    {
      nodes
    }
  }
}
