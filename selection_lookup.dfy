/**
 * selection::SelectionLookup (src/selection/SelectionLookup.cpp): an
 * inverted index from the nodes of a grid graph to the node selections
 * that hold them. For every node, at its `nodeToIndex`, one list gives
 * the selections holding the node on their left side and another those
 * holding it on their right side; both lists are ascending, so the
 * selections able to answer a query (a, b) are found by intersecting the
 * lists of a and b.
 */
module SelectionLookups {
  import opened Nodes
  import opened GridGraphs
  import opened Wrappers
  import Utils
  import Dijkstras
  import SelectionBuckets

  /** A node selection held by value: its left and right lists and its center. */
  datatype Selection = Selection(left: seq<Node>, right: seq<Node>, center: Node)

  function Side(s: Selection, left: bool): seq<Node>
  {
    if left then s.left else s.right
  }

  /** Selection s can answer a query between a and b: one is on its left, the other on its right. */
  predicate Serves(s: Selection, a: Node, b: Node)
  {
    (a in s.left && b in s.right) || (a in s.right && b in s.left)
  }

  /** Every node of every selection lies on the graph, as indexing the lists requires. */
  ghost predicate OnGraph(g: GridGraph, selections: seq<Selection>)
  {
    forall i, n :: 0 <= i < |selections| && (n in selections[i].left || n in selections[i].right) ==> Dijkstras.Inside(g, n)
  }

  /** How many of nodes sit at index idx. */
  function CountAt(g: GridGraph, nodes: seq<Node>, idx: int): nat
  {
    if nodes == [] then 0
    else CountAt(g, nodes[..|nodes| - 1], idx) + (if NodeToIndex(g, nodes[|nodes| - 1]) == idx then 1 else 0)
  }

  /** On the graph, a node occurs among nodes exactly when its index does. */
  lemma {:induction false} CountAtMeaning(g: GridGraph, nodes: seq<Node>, n: Node)
    requires Dijkstras.Inside(g, n)
    requires forall m :: m in nodes ==> Dijkstras.Inside(g, m)
    ensures CountAt(g, nodes, NodeToIndex(g, n)) > 0 <==> n in nodes
  {
    if nodes != [] {
      var init, last := nodes[..|nodes| - 1], nodes[|nodes| - 1];
      assert nodes == init + [last];
      CountAtMeaning(g, init, n);
      assert last in nodes;
      Dijkstras.GetIndexIsInjective(g, n, last);
    }
  }

  function Repeat(i: nat, k: nat): (r: seq<nat>)
    ensures |r| == k && forall x :: x in r ==> x == i
  {
    seq(k, _ => i)
  }

  /**
   * The list the constructor leaves at index idx for one side: selection
   * i appears once for each of its nodes on that side sitting at idx, in
   * the order of the selections.
   */
  function Entries(g: GridGraph, selections: seq<Selection>, left: bool, idx: int): seq<nat>
  {
    if selections == [] then []
    else
      var i := |selections| - 1;
      Entries(g, selections[..i], left, idx) + Repeat(i, CountAt(g, Side(selections[i], left), idx))
  }

  /** The entries are selection indices, ascending. */
  lemma {:induction false} EntriesAscending(g: GridGraph, selections: seq<Selection>, left: bool, idx: int)
    ensures forall x :: x in Entries(g, selections, left, idx) ==> x < |selections|
    ensures Utils.Sorted(Entries(g, selections, left, idx))
  {
    if selections != [] {
      var i := |selections| - 1;
      EntriesAscending(g, selections[..i], left, idx);
      var e, tail := Entries(g, selections[..i], left, idx), Repeat(i, CountAt(g, Side(selections[i], left), idx));
      var r := e + tail;
      forall a, b | 0 <= a < b < |r|
        ensures r[a] <= r[b]
      {
        if a < |e| && b >= |e| {
          assert r[a] in e && r[b] in tail;
        } else if a >= |e| {
          assert r[a] in tail && r[b] in tail;
        }
      }
    }
  }

  lemma OnGraphPrefix(g: GridGraph, selections: seq<Selection>, k: nat)
    requires OnGraph(g, selections) && k <= |selections|
    ensures OnGraph(g, selections[..k])
  {
    forall i, m | 0 <= i < k && (m in selections[..k][i].left || m in selections[..k][i].right)
      ensures Dijkstras.Inside(g, m)
    {
      assert selections[..k][i] == selections[i];
    }
  }

  /** Selection i is listed at a node's index exactly when it holds the node on that side. */
  lemma {:induction false} EntriesMeaning(g: GridGraph, selections: seq<Selection>, left: bool, n: Node, i: int)
    requires OnGraph(g, selections) && Dijkstras.Inside(g, n)
    ensures i in Entries(g, selections, left, NodeToIndex(g, n)) <==> 0 <= i < |selections| && n in Side(selections[i], left)
  {
    if selections != [] {
      var last := |selections| - 1;
      var idx := NodeToIndex(g, n);
      OnGraphPrefix(g, selections, last);
      EntriesMeaning(g, selections[..last], left, n, i);
      OnGraphSides(g, selections, last);
      CountAtMeaning(g, Side(selections[last], left), n);
      var e, t := Entries(g, selections[..last], left, idx), Repeat(last, CountAt(g, Side(selections[last], left), idx));
      assert Entries(g, selections, left, idx) == e + t;
      assert i in t <==> i == last && CountAt(g, Side(selections[last], left), idx) > 0 by {
        if i == last && CountAt(g, Side(selections[last], left), idx) > 0 {
          assert t[0] == i;
        }
      }
      if 0 <= i < last {
        assert selections[..last][i] == selections[i];
      }
    }
  }

  /** For each index of the graph, the entries of one side. */
  function Index(g: GridGraph, selections: seq<Selection>, left: bool): (r: seq<seq<nat>>)
    ensures |r| == Dijkstras.GraphSize(g)
  {
    seq(Dijkstras.GraphSize(g), idx => Entries(g, selections, left, idx))
  }

  /** What adding the nodes of one side of selection i to the lists gives. */
  function Added(g: GridGraph, lists: seq<seq<nat>>, i: nat, nodes: seq<Node>): (r: seq<seq<nat>>)
    ensures |r| == |lists|
  {
    seq(|lists|, idx requires 0 <= idx < |lists| => lists[idx] + Repeat(i, CountAt(g, nodes, idx)))
  }

  /**
   * The inner loops of the constructor: selection i is appended to the
   * list at the index of each of nodes, one node after another.
   */
  method AddSelection(g: GridGraph, lists: seq<seq<nat>>, i: nat, nodes: seq<Node>) returns (r: seq<seq<nat>>)
    requires |lists| == Dijkstras.GraphSize(g)
    requires forall m :: m in nodes ==> Dijkstras.Inside(g, m)
    ensures r == Added(g, lists, i, nodes)
  {
    r := lists;
    var k := 0;
    while k < |nodes|
      invariant 0 <= k <= |nodes| && |r| == |lists|
      invariant forall idx :: 0 <= idx < |r| ==> r[idx] == lists[idx] + Repeat(i, CountAt(g, nodes[..k], idx))
    {
      var node := nodes[k];
      Dijkstras.IndexInside(g, node);
      var at := NodeToIndex(g, node);
      assert nodes[..k + 1][..k] == nodes[..k];
      r := r[at := r[at] + [i]];
      forall idx | 0 <= idx < |r|
        ensures r[idx] == lists[idx] + Repeat(i, CountAt(g, nodes[..k + 1], idx))
      {
        if idx == at {
          assert Repeat(i, CountAt(g, nodes[..k], idx)) + [i] == Repeat(i, CountAt(g, nodes[..k], idx) + 1);
        }
      }
      k := k + 1;
    }
    assert nodes[..k] == nodes;
  }

  /** The indices of the first k selections, added one after another, make the index of those selections. */
  lemma IndexStep(g: GridGraph, selections: seq<Selection>, left: bool, k: nat)
    requires k < |selections|
    ensures Index(g, selections[..k + 1], left) == Added(g, Index(g, selections[..k], left), k, Side(selections[k], left))
  {
    assert selections[..k + 1][..k] == selections[..k];
  }

  lemma OnGraphSides(g: GridGraph, selections: seq<Selection>, k: nat)
    requires OnGraph(g, selections) && k < |selections|
    ensures forall m :: m in selections[k].left ==> Dijkstras.Inside(g, m)
    ensures forall m :: m in selections[k].right ==> Dijkstras.Inside(g, m)
  {
  }

  /** The intersections used by `getAllCommonSelection`: left(first)∩right(second), then right(first)∩left(second). */
  function CommonIndices(lefts: seq<nat>, rights: seq<nat>, firstLefts: seq<nat>, secondRights: seq<nat>): seq<int>
  {
    Utils.Intersect(lefts, rights) + Utils.Intersect(firstLefts, secondRights)
  }

  class SelectionLookup {
    const graph: GridGraph
    const selections: seq<Selection>
    var leftSelections: seq<seq<nat>>
    var rightSelections: seq<seq<nat>>

    /** Both lists hold, at every index, exactly the entries of the selections. */
    ghost predicate Valid()
      reads this
    {
      OnGraph(graph, selections)
      && leftSelections == Index(graph, selections, true)
      && rightSelections == Index(graph, selections, false)
    }

    /**
     * The constructor: for each selection i in turn, i is appended to the
     * left list of each of its left nodes and to the right list of each of
     * its right nodes.
     */
    constructor (graph: GridGraph, selections: seq<Selection>)
      requires OnGraph(graph, selections)
      ensures Valid() && this.graph == graph && this.selections == selections
    {
      this.graph := graph;
      this.selections := selections;
      var empty := seq(Dijkstras.GraphSize(graph), _ => []);
      var lefts, rights := empty, empty;
      assert lefts == Index(graph, selections[..0], true) && rights == Index(graph, selections[..0], false);
      var i := 0;
      while i < |selections|
        invariant 0 <= i <= |selections|
        invariant lefts == Index(graph, selections[..i], true)
        invariant rights == Index(graph, selections[..i], false)
      {
        OnGraphSides(graph, selections, i);
        lefts := AddSelection(graph, lefts, i, selections[i].left);
        rights := AddSelection(graph, rights, i, selections[i].right);
        IndexStep(graph, selections, true, i);
        IndexStep(graph, selections, false, i);
        i := i + 1;
      }
      assert selections[..i] == selections;
      leftSelections := lefts;
      rightSelections := rights;
    }

    /**
     * On the lists of a node, selection i is listed on the left exactly
     * when it holds the node on its left, on the right exactly when it
     * holds it on its right, and each list is ascending.
     */
    lemma ListsMeaning(n: Node, i: int)
      requires Valid() && Dijkstras.Inside(graph, n)
      ensures 0 <= NodeToIndex(graph, n) < |leftSelections| == |rightSelections|
      ensures i in leftSelections[NodeToIndex(graph, n)] <==> 0 <= i < |selections| && n in selections[i].left
      ensures i in rightSelections[NodeToIndex(graph, n)] <==> 0 <= i < |selections| && n in selections[i].right
      ensures Utils.Sorted(leftSelections[NodeToIndex(graph, n)]) && Utils.Sorted(rightSelections[NodeToIndex(graph, n)])
    {
      Dijkstras.IndexInside(graph, n);
      EntriesMeaning(graph, selections, true, n, i);
      EntriesMeaning(graph, selections, false, n, i);
      EntriesAscending(graph, selections, true, NodeToIndex(graph, n));
      EntriesAscending(graph, selections, false, NodeToIndex(graph, n));
    }

    /**
     * `getOneCommonSelection` on two lists: the same two-iterator walk as
     * `SelectionBucket::getCommonSelection`, returning a shared index.
     */
    method GetOneCommonSelection(first: seq<nat>, second: seq<nat>) returns (r: Option<nat>)
      ensures r.Some? ==> r.value in first && r.value in second
      ensures Utils.Sorted(first) && Utils.Sorted(second) ==> (r.None? <==> forall x :: x in first ==> x !in second)
    {
      r := SelectionBuckets.GetCommonSelection(SelectionBuckets.SelectionBucket(first), SelectionBuckets.SelectionBucket(second));
    }

    /** The selection indices `getAllCommonSelection(first, second)` maps to selections. */
    function AllCommonIndices(first: Node, second: Node): seq<int>
      reads this
      requires Valid() && Dijkstras.Inside(graph, first) && Dijkstras.Inside(graph, second)
    {
      Dijkstras.IndexInside(graph, first);
      Dijkstras.IndexInside(graph, second);
      var a, b := NodeToIndex(graph, first), NodeToIndex(graph, second);
      CommonIndices(leftSelections[a], rightSelections[b], rightSelections[a], leftSelections[b])
    }

    /**
     * The indices found are exactly those of the selections that can
     * answer a query between first and second.
     */
    lemma AllCommonIndicesMeaning(first: Node, second: Node, i: int)
      requires Valid() && Dijkstras.Inside(graph, first) && Dijkstras.Inside(graph, second)
      ensures i in AllCommonIndices(first, second) <==> 0 <= i < |selections| && Serves(selections[i], first, second)
    {
      ListsMeaning(first, i);
      ListsMeaning(second, i);
      var a, b := NodeToIndex(graph, first), NodeToIndex(graph, second);
      Utils.IntersectMembership(leftSelections[a], rightSelections[b], i);
      Utils.IntersectMembership(rightSelections[a], leftSelections[b], i);
    }

    /**
     * `getAllCommonSelection(first, second)`: the selections whose indices
     * are common to the lists of the two nodes; every one returned can
     * answer the query, and every selection that can is returned.
     */
    function GetAllCommonSelection(first: Node, second: Node): (r: seq<Selection>)
      reads this
      requires Valid() && Dijkstras.Inside(graph, first) && Dijkstras.Inside(graph, second)
      ensures forall k :: 0 <= k < |r| ==> Serves(r[k], first, second)
      ensures forall i :: 0 <= i < |selections| && Serves(selections[i], first, second) ==> selections[i] in r
    {
      var indices := AllCommonIndices(first, second);
      forall i | i in indices
        ensures 0 <= i < |selections| && Serves(selections[i], first, second)
      {
        AllCommonIndicesMeaning(first, second, i);
      }
      assert forall k :: 0 <= k < |indices| ==> indices[k] in indices;
      var r := seq(|indices|, k requires 0 <= k < |indices| => selections[indices[k]]);
      forall i | 0 <= i < |selections| && Serves(selections[i], first, second)
        ensures selections[i] in r
      {
        AllCommonIndicesMeaning(first, second, i);
        var k :| 0 <= k < |indices| && indices[k] == i;
        assert r[k] == selections[i];
      }
      r
    }

    /** `getSizeDistributionLeft`: how many walkable nodes have each number of left selections. */
    method GetSizeDistributionLeft() returns (r: map<nat, nat>)
      requires Valid() && GridGraphs.Valid(graph)
      ensures forall s :: s in r <==> s in WalkableSizes(graph, leftSelections, |graph.grid|)
      ensures forall s :: Count(r, s) == multiset(WalkableSizes(graph, leftSelections, |graph.grid|))[s]
    {
      r := CountSizes(map[], graph, leftSelections);
    }

    /** `getSizeDistributionRight`: how many walkable nodes have each number of right selections. */
    method GetSizeDistributionRight() returns (r: map<nat, nat>)
      requires Valid() && GridGraphs.Valid(graph)
      ensures forall s :: s in r <==> s in WalkableSizes(graph, rightSelections, |graph.grid|)
      ensures forall s :: Count(r, s) == multiset(WalkableSizes(graph, rightSelections, |graph.grid|))[s]
    {
      r := CountSizes(map[], graph, rightSelections);
    }

    /** `getSizeDistributionTotal`: the left counts, then the right counts added on top. */
    method GetSizeDistributionTotal() returns (r: map<nat, nat>)
      requires Valid() && GridGraphs.Valid(graph)
      ensures forall s :: s in r <==> s in WalkableSizes(graph, leftSelections, |graph.grid|) || s in WalkableSizes(graph, rightSelections, |graph.grid|)
      ensures forall s :: Count(r, s) == multiset(WalkableSizes(graph, leftSelections, |graph.grid|) + WalkableSizes(graph, rightSelections, |graph.grid|))[s]
    {
      var m := CountSizes(map[], graph, leftSelections);
      r := CountSizes(m, graph, rightSelections);
      ghost var ls, rs := WalkableSizes(graph, leftSelections, |graph.grid|), WalkableSizes(graph, rightSelections, |graph.grid|);
      assert forall s :: Count(r, s) == multiset(ls)[s] + multiset(rs)[s];
    }
  }

  /** A map's count for key s, zero when s is absent. */
  function Count(m: map<nat, nat>, s: nat): nat
  {
    if s in m then m[s] else 0
  }

  /**
   * The list sizes at the walkable indices below k, in index order: the
   * graph's iterator visits exactly the walkable nodes in row-major order.
   */
  function WalkableSizes(g: GridGraph, lists: seq<seq<nat>>, k: nat): seq<nat>
    requires k <= |g.grid| && |lists| == |g.grid|
  {
    if k == 0 then []
    else WalkableSizes(g, lists, k - 1) + (if g.grid[k - 1] then [|lists[k - 1]|] else [])
  }

  /** One size per walkable entry: the distribution's counts add up to the number of walkable nodes. */
  lemma {:induction false} WalkableSizesCount(g: GridGraph, lists: seq<seq<nat>>, k: nat)
    requires k <= |g.grid| && |lists| == |g.grid|
    ensures |WalkableSizes(g, lists, k)| == CountTrue(g.grid[..k])
  {
    if k > 0 {
      WalkableSizesCount(g, lists, k - 1);
      assert g.grid[..k][..k - 1] == g.grid[..k - 1];
    }
  }

  /** The number of walkable entries. */
  function CountTrue(s: seq<bool>): nat
  {
    if s == [] then 0 else CountTrue(s[..|s| - 1]) + (if s[|s| - 1] then 1 else 0)
  }

  /** Setting an absent count to one or incrementing a present one counts size once more. */
  lemma CountOneMore(prev: map<nat, nat>, r: map<nat, nat>, size: nat, m: map<nat, nat>, seen: seq<nat>)
    requires r == if size !in prev then prev[size := 1] else prev[size := prev[size] + 1]
    requires forall s :: s in prev <==> s in m || s in seen
    requires forall s :: Count(prev, s) == Count(m, s) + multiset(seen)[s]
    ensures forall s :: s in r <==> s in m || s in seen + [size]
    ensures forall s :: Count(r, s) == Count(m, s) + multiset(seen + [size])[s]
  {
    assert multiset(seen + [size]) == multiset(seen) + multiset{size};
    forall s: nat
      ensures Count(r, s) == Count(m, s) + multiset(seen + [size])[s]
    {
      assert Count(r, s) == Count(prev, s) + (if s == size then 1 else 0);
    }
  }

  /**
   * The loop of each distribution: for every walkable node, the count of
   * its list's size is set to one when absent and incremented otherwise.
   * The counts grow by the multiplicities of the sizes, so they add up to
   * the number of walkable nodes.
   */
  method CountSizes(m: map<nat, nat>, g: GridGraph, lists: seq<seq<nat>>) returns (r: map<nat, nat>)
    requires |lists| == |g.grid|
    ensures forall s :: s in r <==> s in m || s in WalkableSizes(g, lists, |g.grid|)
    ensures forall s :: Count(r, s) == Count(m, s) + multiset(WalkableSizes(g, lists, |g.grid|))[s]
  {
    r := m;
    var idx := 0;
    ghost var seen: seq<nat> := [];
    while idx < |g.grid|
      invariant 0 <= idx <= |g.grid| && seen == WalkableSizes(g, lists, idx)
      invariant forall s :: s in r <==> s in m || s in seen
      invariant forall s :: Count(r, s) == Count(m, s) + multiset(seen)[s]
    {
      if g.grid[idx] {
        var size := |lists[idx]|;
        ghost var prev := r;
        if size !in r {
          r := r[size := 1];
        } else {
          r := r[size := r[size] + 1];
        }
        CountOneMore(prev, r, size, m, seen);
        seen := seen + [size];
      }
      idx := idx + 1;
    }
    assert g.grid[..idx] == g.grid;
  }

}
