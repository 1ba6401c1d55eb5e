/**
 * pathfinding::Dijkstra (src/pathfinding/Dijkstra.cpp): unit-weight
 * Dijkstra on a grid graph whose state (distances, settled flags,
 * predecessors, the touched nodes, the queue and the last source) is kept
 * between queries and reset only when the source changes.
 *
 * Distances are `std::int64_t` with UNREACHABLE the largest one. The
 * vectors have one entry per node of the graph, at `nodeToIndex`.
 */
module Dijkstras {
  import opened Nodes
  import opened GridCells
  import opened GridGraphs
  import opened NeigbourCalculators
  import opened Wrappers
  import opened Arithmetic
  import opened Paths

  /** `graph::UNREACHABLE`: the largest `std::int64_t`. */
  const UNREACHABLE: int := 0x7FFF_FFFF_FFFF_FFFF

  /** `graph::NOT_REACHABLE`, the predecessor of nodes without one; its value is not part of this model's sources. */
  const NOT_REACHABLE: Node := Node(SIZE_MAX, SIZE_MAX)

  /** The number of nodes, the length of every state vector. */
  function GraphSize(g: GridGraph): nat
  {
    g.height * g.width
  }

  predicate Inside(g: GridGraph, n: Node)
  {
    n.row < g.height && n.column < g.width
  }

  lemma IndexInside(g: GridGraph, n: Node)
    requires Inside(g, n)
    ensures 0 <= NodeToIndex(g, n) < GraphSize(g)
  {
    RowMajorBelow(n.row, n.column, g.width, g.height);
  }

  lemma WalkableIsInside(g: GridGraph, n: Node)
    requires GridGraphs.Valid(g) && IsWalkableNode(g, n)
    ensures Inside(g, n)
  {
  }

  /** `getIndex`: none outside the grid, otherwise `row * width + column`. */
  function GetIndex(g: GridGraph, n: Node): (r: Option<nat>)
    ensures r.Some? ==> r.value < GraphSize(g)
  {
    if n.row >= g.height then None
    else if n.column >= g.width then None
    else
      IndexInside(g, n);
      Some(NodeToIndex(g, n))
  }

  /** `getIndex` is defined exactly on the grid's nodes and tells them apart. */
  lemma GetIndexIsInjective(g: GridGraph, a: Node, b: Node)
    ensures GetIndex(g, a).Some? <==> Inside(g, a)
    ensures GetIndex(g, a).Some? && GetIndex(g, a) == GetIndex(g, b) ==> a == b
  {
    if GetIndex(g, a).Some? && GetIndex(g, a) == GetIndex(g, b) {
      DivModOf(NodeToIndex(g, a), a.row, a.column, g.width);
      DivModOf(NodeToIndex(g, b), b.row, b.column, g.width);
    }
  }

  /** The entry of a state vector for n, or `outside` when n has no index. */
  function At<T>(g: GridGraph, xs: seq<T>, n: Node, outside: T): T
    requires |xs| == GraphSize(g)
  {
    match GetIndex(g, n)
    case Some(i) => xs[i]
    case None => outside
  }

  /** The state vector with the entry for n replaced, when n has an index. */
  function SetAt<T>(g: GridGraph, xs: seq<T>, n: Node, v: T): (r: seq<T>)
    requires |xs| == GraphSize(g)
    ensures |r| == |xs|
  {
    match GetIndex(g, n)
    case Some(i) => xs[i := v]
    case None => xs
  }

  /** Replacing the entry for n changes what n reads and nothing else. */
  lemma AtSetAt<T>(g: GridGraph, xs: seq<T>, n: Node, v: T, outside: T)
    requires |xs| == GraphSize(g)
    ensures forall m :: At(g, SetAt(g, xs, n, v), m, outside) == if m == n && Inside(g, n) then v else At(g, xs, m, outside)
  {
    forall m
      ensures At(g, SetAt(g, xs, n, v), m, outside) == if m == n && Inside(g, n) then v else At(g, xs, m, outside)
    {
      GetIndexIsInjective(g, m, n);
      GetIndexIsInjective(g, n, m);
    }
  }

  /** An entry of `pq_`. */
  datatype Entry = Entry(node: Node, dist: int)

  /** The fields of a Dijkstra object other than the graph. */
  datatype State = State(
    distances: seq<int>,
    settled: seq<bool>,
    before: seq<Node>,
    touched: seq<Node>,
    pq: seq<Entry>,
    lastSource: Option<Node>)

  predicate Sized(g: GridGraph, s: State)
  {
    GridGraphs.Valid(g)
    && |s.distances| == GraphSize(g) && |s.settled| == GraphSize(g) && |s.before| == GraphSize(g)
  }

  /** `getDistanceTo`: UNREACHABLE for nodes outside the grid. */
  function Dist(g: GridGraph, distances: seq<int>, n: Node): int
    requires |distances| == GraphSize(g)
  {
    At(g, distances, n, UNREACHABLE)
  }

  /** `isSettled`: false for nodes outside the grid. */
  predicate Settled(g: GridGraph, settled: seq<bool>, n: Node)
    requires |settled| == GraphSize(g)
  {
    At(g, settled, n, false)
  }

  /** The predecessor recorded for n. */
  function Before(g: GridGraph, before: seq<Node>, n: Node): Node
    requires |before| == GraphSize(g)
  {
    At(g, before, n, NOT_REACHABLE)
  }

  /** n's entries differ from a freshly constructed object's. */
  predicate Dirty(g: GridGraph, s: State, n: Node)
    requires Sized(g, s)
  {
    Dist(g, s.distances, n) != UNREACHABLE || Settled(g, s.settled, n) || Before(g, s.before, n) != NOT_REACHABLE
  }

  /** Stored distances lie in [0, UNREACHABLE]. */
  ghost predicate Bounded(distances: seq<int>)
  {
    forall i :: 0 <= i < |distances| ==> 0 <= distances[i] <= UNREACHABLE
  }

  /** Touched nodes are walkable nodes of the grid. */
  ghost predicate TouchedOk(g: GridGraph, touched: seq<Node>)
    requires GridGraphs.Valid(g)
  {
    forall t :: t in touched ==> Inside(g, t) && IsWalkableNode(g, t)
  }

  /** Every node whose entries differ from the constructor's is touched, so `reset` finds it. */
  ghost predicate Recorded(g: GridGraph, s: State)
    requires Sized(g, s)
  {
    forall n :: Dirty(g, s, n) ==> n in s.touched
  }

  /** Queue entries are touched nodes at a finite distance no better than the stored one. */
  ghost predicate Queued(g: GridGraph, distances: seq<int>, touched: seq<Node>, pq: seq<Entry>)
    requires |distances| == GraphSize(g)
  {
    forall e :: e in pq ==> e.node in touched && 0 <= e.dist < UNREACHABLE && Dist(g, distances, e.node) <= e.dist
  }

  /**
   * Before the first query nothing is touched or queued; afterwards the last
   * source is a node of the grid and the only node at distance 0.
   */
  ghost predicate SourceOk(g: GridGraph, distances: seq<int>, touched: seq<Node>, pq: seq<Entry>, lastSource: Option<Node>)
    requires |distances| == GraphSize(g)
  {
    (lastSource.None? ==> touched == [] && pq == [])
    && (lastSource.Some? ==> Inside(g, lastSource.value) && Dist(g, distances, lastSource.value) == 0)
    && (forall n :: Dist(g, distances, n) == 0 ==> lastSource == Some(n))
  }

  /** n's predecessor is a walkable neighbour strictly closer to the source. */
  predicate Steps(g: GridGraph, distances: seq<int>, before: seq<Node>, n: Node)
    requires GridGraphs.Valid(g) && |distances| == GraphSize(g) && |before| == GraphSize(g)
  {
    var b := Before(g, before, n);
    Inside(g, b) && IsWalkableNode(g, b) && IsNeigbourOf(g.calculator, b, n) && Dist(g, distances, b) < Dist(g, distances, n)
  }

  /** Every finitely distant node other than the source has a predecessor that steps towards it. */
  ghost predicate Tree(g: GridGraph, distances: seq<int>, before: seq<Node>)
    requires GridGraphs.Valid(g) && |distances| == GraphSize(g) && |before| == GraphSize(g)
  {
    forall n {:trigger Steps(g, distances, before, n)} :: 0 < Dist(g, distances, n) < UNREACHABLE ==> Steps(g, distances, before, n)
  }

  /** A finite distance is queued at that distance or its node is settled. */
  ghost predicate Covered(g: GridGraph, distances: seq<int>, settled: seq<bool>, pq: seq<Entry>)
    requires |distances| == GraphSize(g) && |settled| == GraphSize(g)
  {
    forall n :: Dist(g, distances, n) < UNREACHABLE ==> Entry(n, Dist(g, distances, n)) in pq || Settled(g, settled, n)
  }

  /** Settled nodes have finite distances. */
  ghost predicate SettledFinite(g: GridGraph, distances: seq<int>, settled: seq<bool>)
    requires |distances| == GraphSize(g) && |settled| == GraphSize(g)
  {
    forall n :: Settled(g, settled, n) ==> Dist(g, distances, n) < UNREACHABLE
  }

  /** What holds between and during the queries. */
  ghost predicate Core(g: GridGraph, s: State)
  {
    Sized(g, s)
    && Bounded(s.distances)
    && TouchedOk(g, s.touched)
    && Recorded(g, s)
    && Queued(g, s.distances, s.touched, s.pq)
    && SourceOk(g, s.distances, s.touched, s.pq, s.lastSource)
    && Tree(g, s.distances, s.before)
    && Covered(g, s.distances, s.settled, s.pq)
    && SettledFinite(g, s.distances, s.settled)
  }

  /** Every walkable neighbour of n is at most one step farther than n. */
  ghost predicate Relaxed(g: GridGraph, distances: seq<int>, n: Node)
    requires GridGraphs.Valid(g) && |distances| == GraphSize(g)
  {
    forall m :: IsNeigbourOf(g.calculator, n, m) && IsWalkableNode(g, m) ==> Dist(g, distances, m) <= Dist(g, distances, n) + 1
  }

  /** Every finitely distant node, except possibly skip, is queued at its distance or relaxed. */
  ghost predicate CompleteBut(g: GridGraph, distances: seq<int>, pq: seq<Entry>, skip: Option<Node>)
    requires GridGraphs.Valid(g) && |distances| == GraphSize(g)
  {
    forall n :: Dist(g, distances, n) < UNREACHABLE ==> Entry(n, Dist(g, distances, n)) in pq || Relaxed(g, distances, n) || skip == Some(n)
  }

  /** The object invariant of a Dijkstra. */
  ghost predicate Inv(g: GridGraph, s: State)
  {
    Core(g, s) && CompleteBut(g, s.distances, s.pq, None)
  }

  /** The state of a fresh object: every entry as the constructor sets it. */
  function Fresh(g: GridGraph): (s: State)
    requires GridGraphs.Valid(g)
    ensures Inv(g, s)
    ensures forall n :: !Dirty(g, s, n)
  {
    var n := GraphSize(g);
    var s := State(seq(n, _ => UNREACHABLE), seq(n, _ => false), seq(n, _ => NOT_REACHABLE), [], [], None);
    assert forall m :: !Dirty(g, s, m);
    s
  }

  /** A path of walkable nodes, each a neighbour of the one before. */
  predicate IsWalk(g: GridGraph, p: seq<Node>)
    requires GridGraphs.Valid(g)
  {
    |p| >= 1
    && (forall i :: 0 <= i < |p| ==> IsWalkableNode(g, p[i]))
    && (forall i :: 0 <= i < |p| - 1 ==> IsNeigbourOf(g.calculator, p[i], p[i + 1]))
  }

  /** `distances` after lowering n to v < its old distance, everything else kept. */
  ghost predicate LoweredAt(g: GridGraph, distances: seq<int>, distances': seq<int>, n: Node, v: int)
    requires |distances| == GraphSize(g) && |distances'| == GraphSize(g)
  {
    v < Dist(g, distances, n)
    && forall m :: Dist(g, distances', m) == if m == n then v else Dist(g, distances, m)
  }

  lemma SetAtLowers(g: GridGraph, distances: seq<int>, n: Node, v: int)
    requires |distances| == GraphSize(g) && Inside(g, n) && v < Dist(g, distances, n)
    requires Bounded(distances) && 0 <= v
    ensures LoweredAt(g, distances, SetAt(g, distances, n, v), n, v)
    ensures Bounded(SetAt(g, distances, n, v))
  {
    AtSetAt(g, distances, n, v, UNREACHABLE);
    IndexInside(g, n);
  }

  lemma LoweringKeepsTree(g: GridGraph, distances: seq<int>, distances': seq<int>, before: seq<Node>, before': seq<Node>, cur: Node, d: int, neig: Node)
    requires GridGraphs.Valid(g)
    requires |distances| == GraphSize(g) && |distances'| == GraphSize(g)
    requires |before| == GraphSize(g) && |before'| == GraphSize(g)
    requires Tree(g, distances, before) && LoweredAt(g, distances, distances', neig, d + 1)
    requires forall m :: Before(g, before', m) == if m == neig then cur else Before(g, before, m)
    requires Inside(g, cur) && IsWalkableNode(g, cur) && IsNeigbourOf(g.calculator, cur, neig)
    requires Dist(g, distances, cur) <= d && cur != neig
    ensures Tree(g, distances', before')
  {
    forall n | 0 < Dist(g, distances', n) < UNREACHABLE
      ensures Steps(g, distances', before', n)
    {
      if n != neig {
        assert Steps(g, distances, before, n);
      }
    }
  }

  lemma LoweringKeepsCovered(g: GridGraph, distances: seq<int>, distances': seq<int>, settled: seq<bool>, pq: seq<Entry>, neig: Node, v: int)
    requires |distances| == GraphSize(g) && |distances'| == GraphSize(g) && |settled| == GraphSize(g)
    requires Covered(g, distances, settled, pq) && LoweredAt(g, distances, distances', neig, v)
    ensures Covered(g, distances', settled, pq + [Entry(neig, v)])
  {
    forall n | Dist(g, distances', n) < UNREACHABLE
      ensures Entry(n, Dist(g, distances', n)) in pq + [Entry(neig, v)] || Settled(g, settled, n)
    {
      if n != neig {
        assert Entry(n, Dist(g, distances, n)) in pq || Settled(g, settled, n);
      }
    }
  }

  lemma LoweringKeepsRelaxed(g: GridGraph, distances: seq<int>, distances': seq<int>, neig: Node, v: int, x: Node)
    requires GridGraphs.Valid(g)
    requires |distances| == GraphSize(g) && |distances'| == GraphSize(g)
    requires LoweredAt(g, distances, distances', neig, v) && x != neig && Relaxed(g, distances, x)
    ensures Relaxed(g, distances', x)
  {
    forall m | IsNeigbourOf(g.calculator, x, m) && IsWalkableNode(g, m)
      ensures Dist(g, distances', m) <= Dist(g, distances', x) + 1
    {
      assert Dist(g, distances, m) <= Dist(g, distances, x) + 1;
    }
  }

  lemma LoweringKeepsComplete(g: GridGraph, distances: seq<int>, distances': seq<int>, pq: seq<Entry>, neig: Node, v: int, skip: Option<Node>)
    requires GridGraphs.Valid(g)
    requires |distances| == GraphSize(g) && |distances'| == GraphSize(g)
    requires CompleteBut(g, distances, pq, skip) && LoweredAt(g, distances, distances', neig, v)
    ensures CompleteBut(g, distances', pq + [Entry(neig, v)], skip)
  {
    forall n | Dist(g, distances', n) < UNREACHABLE
      ensures Entry(n, Dist(g, distances', n)) in pq + [Entry(neig, v)] || Relaxed(g, distances', n) || skip == Some(n)
    {
      if n != neig {
        if Relaxed(g, distances, n) {
          LoweringKeepsRelaxed(g, distances, distances', neig, v, n);
        }
      }
    }
  }

  lemma LoweringKeepsQueued(g: GridGraph, distances: seq<int>, distances': seq<int>, touched: seq<Node>, pq: seq<Entry>, neig: Node, v: int)
    requires |distances| == GraphSize(g) && |distances'| == GraphSize(g)
    requires Queued(g, distances, touched, pq) && LoweredAt(g, distances, distances', neig, v)
    requires 0 <= v < UNREACHABLE
    ensures Queued(g, distances', touched + [neig], pq + [Entry(neig, v)])
  {
    forall e | e in pq + [Entry(neig, v)]
      ensures e.node in touched + [neig] && 0 <= e.dist < UNREACHABLE && Dist(g, distances', e.node) <= e.dist
    {
      if e != Entry(neig, v) {
        assert e in pq;
      }
    }
  }

  lemma LoweringKeepsSource(g: GridGraph, distances: seq<int>, distances': seq<int>, touched: seq<Node>, pq: seq<Entry>, last: Option<Node>, neig: Node, v: int)
    requires |distances| == GraphSize(g) && |distances'| == GraphSize(g)
    requires SourceOk(g, distances, touched, pq, last) && LoweredAt(g, distances, distances', neig, v)
    requires last.Some? && 0 < v
    ensures SourceOk(g, distances', touched + [neig], pq + [Entry(neig, v)], last)
  {
    assert last.value != neig;
    forall n | Dist(g, distances', n) == 0
      ensures last == Some(n)
    {
      assert n != neig;
    }
  }

  lemma LoweringKeepsRecorded(g: GridGraph, s: State, s': State, neig: Node)
    requires Sized(g, s) && Sized(g, s') && Recorded(g, s)
    requires LoweredAt(g, s.distances, s'.distances, neig, Dist(g, s'.distances, neig))
    requires forall m :: m != neig ==> Before(g, s'.before, m) == Before(g, s.before, m)
    requires s'.settled == s.settled && s'.touched == s.touched + [neig]
    ensures Recorded(g, s')
  {
    forall n | Dirty(g, s', n)
      ensures n in s'.touched
    {
      if n != neig {
        assert Dirty(g, s, n);
      }
    }
  }

  lemma LoweringKeepsSettledFinite(g: GridGraph, distances: seq<int>, distances': seq<int>, settled: seq<bool>, neig: Node, v: int)
    requires |distances| == GraphSize(g) && |distances'| == GraphSize(g) && |settled| == GraphSize(g)
    requires SettledFinite(g, distances, settled) && LoweredAt(g, distances, distances', neig, v)
    ensures SettledFinite(g, distances', settled)
  {
    forall n | Settled(g, settled, n)
      ensures Dist(g, distances', n) < UNREACHABLE
    {
      assert Dist(g, distances, n) < UNREACHABLE;
    }
  }

  /** One relaxation: touch neig, give it distance d + 1 and predecessor cur, and queue it. */
  function Relax(g: GridGraph, s: State, cur: Node, d: int, neig: Node): (r: State)
    requires Sized(g, s)
    ensures Sized(g, r)
  {
    s.(touched := s.touched + [neig],
       distances := SetAt(g, s.distances, neig, d + 1),
       pq := s.pq + [Entry(neig, d + 1)],
       before := SetAt(g, s.before, neig, cur))
  }

  /**
   * A relaxation that improves a walkable neighbour's distance keeps the
   * invariant, lowers only that neighbour's distance, and keeps every other
   * relaxed node relaxed.
   */
  lemma RelaxKeepsCore(g: GridGraph, s: State, cur: Node, d: int, neig: Node, skip: Option<Node>)
    requires Core(g, s) && CompleteBut(g, s.distances, s.pq, skip)
    requires cur in s.touched && Dist(g, s.distances, cur) <= d < UNREACHABLE
    requires IsNeigbourOf(g.calculator, cur, neig) && IsWalkableNode(g, neig)
    requires d + 1 < Dist(g, s.distances, neig)
    ensures Core(g, Relax(g, s, cur, d, neig)) && CompleteBut(g, Relax(g, s, cur, d, neig).distances, Relax(g, s, cur, d, neig).pq, skip)
    ensures LoweredAt(g, s.distances, Relax(g, s, cur, d, neig).distances, neig, d + 1)
  {
    var s' := Relax(g, s, cur, d, neig);
    assert Inside(g, neig);
    assert 0 <= Dist(g, s.distances, cur) by {
      IndexInside(g, cur);
    }
    SetAtLowers(g, s.distances, neig, d + 1);
    AtSetAt(g, s.before, neig, cur, NOT_REACHABLE);
    assert cur != neig;
    LoweringKeepsTree(g, s.distances, s'.distances, s.before, s'.before, cur, d, neig);
    LoweringKeepsCovered(g, s.distances, s'.distances, s.settled, s.pq, neig, d + 1);
    LoweringKeepsComplete(g, s.distances, s'.distances, s.pq, neig, d + 1, skip);
    LoweringKeepsQueued(g, s.distances, s'.distances, s.touched, s.pq, neig, d + 1);
    LoweringKeepsSource(g, s.distances, s'.distances, s.touched, s.pq, s.lastSource, neig, d + 1);
    LoweringKeepsRecorded(g, s, s', neig);
    LoweringKeepsSettledFinite(g, s.distances, s'.distances, s.settled, neig, d + 1);
  }

  /** The popped node cur is queued at its distance, relaxed, or was popped at its distance d. */
  ghost predicate PoppedOk(g: GridGraph, distances: seq<int>, pq: seq<Entry>, cur: Node, d: int)
    requires GridGraphs.Valid(g) && |distances| == GraphSize(g)
  {
    Entry(cur, Dist(g, distances, cur)) in pq || Relaxed(g, distances, cur) || d == Dist(g, distances, cur)
  }

  /** One relaxation inside the neighbour loop of the popped node cur keeps what that loop needs. */
  lemma RelaxStep(g: GridGraph, s: State, cur: Node, d: int, neig: Node)
    requires Core(g, s) && CompleteBut(g, s.distances, s.pq, Some(cur))
    requires cur in s.touched && Dist(g, s.distances, cur) <= d < UNREACHABLE
    requires PoppedOk(g, s.distances, s.pq, cur, d)
    requires IsNeigbourOf(g.calculator, cur, neig) && IsWalkableNode(g, neig)
    requires d + 1 < Dist(g, s.distances, neig)
    ensures var s' := Relax(g, s, cur, d, neig);
      Core(g, s') && CompleteBut(g, s'.distances, s'.pq, Some(cur))
      && cur in s'.touched && Dist(g, s'.distances, cur) == Dist(g, s.distances, cur)
      && PoppedOk(g, s'.distances, s'.pq, cur, d)
      && (forall m :: Dist(g, s'.distances, m) <= Dist(g, s.distances, m))
      && Dist(g, s'.distances, neig) == d + 1
      && SumOf(s'.distances) < SumOf(s.distances)
      && s'.settled == s.settled && s'.lastSource == s.lastSource
  {
    var s' := Relax(g, s, cur, d, neig);
    RelaxKeepsCore(g, s, cur, d, neig, Some(cur));
    LoweringLowersSum(g, s.distances, neig, d + 1);
    if Relaxed(g, s.distances, cur) {
      LoweringKeepsRelaxed(g, s.distances, s'.distances, neig, d + 1, cur);
    }
  }

  /** Every node of ns is at most one step farther than d. */
  ghost predicate WithinStep(g: GridGraph, distances: seq<int>, ns: seq<Node>, d: int)
    requires |distances| == GraphSize(g)
  {
    forall m :: m in ns ==> Dist(g, distances, m) <= d + 1
  }

  lemma WithinStepExtends(g: GridGraph, d0: seq<int>, d1: seq<int>, neigs: seq<Node>, j: int, d: int)
    requires |d0| == GraphSize(g) && |d1| == GraphSize(g) && 0 <= j < |neigs|
    requires WithinStep(g, d0, neigs[..j], d)
    requires forall m :: Dist(g, d1, m) <= Dist(g, d0, m)
    requires Dist(g, d1, neigs[j]) <= d + 1
    ensures WithinStep(g, d1, neigs[..j + 1], d)
  {
    assert neigs[..j + 1] == neigs[..j] + [neigs[j]];
  }

  /** The sum of the stored distances, which every improvement lowers. */
  function SumOf(xs: seq<int>): int
  {
    if |xs| == 0 then 0 else SumOf(xs[..|xs| - 1]) + xs[|xs| - 1]
  }

  lemma {:induction false} SumOfUpdate(xs: seq<int>, i: int, v: int)
    requires 0 <= i < |xs|
    ensures SumOf(xs[i := v]) == SumOf(xs) - xs[i] + v
  {
    var last := |xs| - 1;
    if i < last {
      SumOfUpdate(xs[..last], i, v);
      assert xs[i := v][..last] == xs[..last][i := v];
    } else {
      assert xs[i := v][..last] == xs[..last];
    }
  }

  lemma {:induction false} SumOfNonNegative(xs: seq<int>)
    requires Bounded(xs)
    ensures 0 <= SumOf(xs)
  {
    if |xs| > 0 {
      SumOfNonNegative(xs[..|xs| - 1]);
    }
  }

  lemma SetAtKeepsBounded(g: GridGraph, distances: seq<int>, n: Node, v: int)
    requires |distances| == GraphSize(g) && Bounded(distances) && 0 <= v <= UNREACHABLE
    ensures Bounded(SetAt(g, distances, n, v))
  {
  }

  /** Lowering one node's distance lowers the sum of the distances. */
  lemma LoweringLowersSum(g: GridGraph, distances: seq<int>, n: Node, v: int)
    requires |distances| == GraphSize(g) && Inside(g, n) && v < Dist(g, distances, n)
    ensures SumOf(SetAt(g, distances, n, v)) < SumOf(distances)
  {
    IndexInside(g, n);
    SumOfUpdate(distances, NodeToIndex(g, n), v);
  }

  /** `settle` of a queued node keeps the invariant. */
  lemma SettleKeepsCore(g: GridGraph, s: State, k: int, skip: Option<Node>)
    requires Core(g, s) && 0 <= k < |s.pq|
    ensures var s' := s.(settled := SetAt(g, s.settled, s.pq[k].node, true));
      Core(g, s') && Settled(g, s'.settled, s.pq[k].node)
      && forall m :: m != s.pq[k].node ==> Settled(g, s'.settled, m) == Settled(g, s.settled, m)
  {
    var cur := s.pq[k].node;
    var s' := s.(settled := SetAt(g, s.settled, cur, true));
    AtSetAt(g, s.settled, cur, true, false);
    assert s.pq[k] in s.pq;
    assert Inside(g, cur);
    assert forall m :: Settled(g, s'.settled, m) == (m == cur || Settled(g, s.settled, m));
    assert Covered(g, s'.distances, s'.settled, s'.pq) by {
      forall n | Dist(g, s'.distances, n) < UNREACHABLE
        ensures Entry(n, Dist(g, s'.distances, n)) in s'.pq || Settled(g, s'.settled, n)
      {
        assert Entry(n, Dist(g, s.distances, n)) in s.pq || Settled(g, s.settled, n);
      }
    }
    assert SettledFinite(g, s'.distances, s'.settled) by {
      forall n | Settled(g, s'.settled, n)
        ensures Dist(g, s'.distances, n) < UNREACHABLE
      {
        if n != cur {
          assert Settled(g, s.settled, n);
        }
      }
    }
    assert Recorded(g, s') by {
      forall n | Dirty(g, s', n)
        ensures n in s'.touched
      {
        if n != cur {
          assert Dirty(g, s, n);
        }
      }
    }
  }

  /** `pq_` with the entry at k taken out. */
  function RemoveAt(pq: seq<Entry>, k: int): (r: seq<Entry>)
    requires 0 <= k < |pq|
    ensures |r| == |pq| - 1
    ensures forall e :: e in r ==> e in pq
    ensures forall e :: e in pq && e != pq[k] ==> e in r
  {
    var r := pq[..k] + pq[k + 1..];
    forall e | e in pq && e != pq[k]
      ensures e in r
    {
      var i :| 0 <= i < |pq| && pq[i] == e;
      if i < k {
        assert r[i] == e;
      } else {
        assert r[i - 1] == e;
      }
    }
    r
  }

  /**
   * Popping a settled entry keeps the invariant, except that the popped node
   * may now be neither queued at its distance nor relaxed, which only
   * happens when the popped entry carried its distance.
   */
  lemma PopKeepsCore(g: GridGraph, s: State, k: int)
    requires Core(g, s) && CompleteBut(g, s.distances, s.pq, None) && 0 <= k < |s.pq|
    requires Settled(g, s.settled, s.pq[k].node)
    ensures var s' := s.(pq := RemoveAt(s.pq, k)); var cur := s.pq[k].node;
      Core(g, s') && CompleteBut(g, s'.distances, s'.pq, Some(cur))
      && PoppedOk(g, s'.distances, s'.pq, cur, s.pq[k].dist)
      && cur in s'.touched && Dist(g, s'.distances, cur) <= s.pq[k].dist < UNREACHABLE
  {
    var s' := s.(pq := RemoveAt(s.pq, k));
    var cur := s.pq[k].node;
    assert s.pq[k] in s.pq;
    assert Queued(g, s'.distances, s'.touched, s'.pq);
    assert Covered(g, s'.distances, s'.settled, s'.pq) by {
      forall n | Dist(g, s'.distances, n) < UNREACHABLE
        ensures Entry(n, Dist(g, s'.distances, n)) in s'.pq || Settled(g, s'.settled, n)
      {
        assert Entry(n, Dist(g, s.distances, n)) in s.pq || Settled(g, s.settled, n);
      }
    }
    assert CompleteBut(g, s'.distances, s'.pq, Some(cur)) by {
      forall n | Dist(g, s'.distances, n) < UNREACHABLE
        ensures Entry(n, Dist(g, s'.distances, n)) in s'.pq || Relaxed(g, s'.distances, n) || Some(cur) == Some(n)
      {
        assert Entry(n, Dist(g, s.distances, n)) in s.pq || Relaxed(g, s.distances, n);
      }
    }
    assert Dist(g, s.distances, cur) < UNREACHABLE;
    assert Entry(cur, Dist(g, s.distances, cur)) in s.pq || Relaxed(g, s.distances, cur);
  }

  /** An unsettled node at the top of the queue is queued at its own distance. */
  lemma TopIsTargetDistance(g: GridGraph, s: State, k: int, target: Node)
    requires Core(g, s) && 0 <= k < |s.pq| && s.pq[k].node == target && !Settled(g, s.settled, target)
    requires forall i :: 0 <= i < |s.pq| ==> s.pq[k].dist <= s.pq[i].dist
    ensures s.pq[k].dist == Dist(g, s.distances, target)
  {
    assert s.pq[k] in s.pq;
    assert Entry(target, Dist(g, s.distances, target)) in s.pq;
  }

  /**
   * Once every walkable neighbour of the popped node is within one step of
   * the popped distance, the popped node is accounted for again.
   */
  lemma FinishKeepsComplete(g: GridGraph, distances: seq<int>, pq: seq<Entry>, cur: Node, d: int)
    requires GridGraphs.Valid(g)
    requires |distances| == GraphSize(g) && CompleteBut(g, distances, pq, Some(cur))
    requires PoppedOk(g, distances, pq, cur, d)
    requires forall m :: IsNeigbourOf(g.calculator, cur, m) && IsWalkableNode(g, m) ==> Dist(g, distances, m) <= d + 1
    ensures CompleteBut(g, distances, pq, None)
  {
    forall n | Dist(g, distances, n) < UNREACHABLE
      ensures Entry(n, Dist(g, distances, n)) in pq || Relaxed(g, distances, n)
    {
      if n == cur && Entry(cur, Dist(g, distances, cur)) !in pq && !Relaxed(g, distances, cur) {
        assert Relaxed(g, distances, cur);
      }
    }
  }

  /** Starting from a clean state at a walkable source gives the invariant. */
  lemma StartKeepsInv(g: GridGraph, s: State, src: Node)
    requires Sized(g, s) && (forall m :: !Dirty(g, s, m)) && s.touched == [] && s.pq == []
    requires Bounded(s.distances)
    requires IsWalkableNode(g, src)
    ensures var s' := s.(lastSource := Some(src), pq := [Entry(src, 0)],
                         distances := SetAt(g, s.distances, src, 0), touched := [src]);
      Inv(g, s')
      && (forall n :: Dist(g, s'.distances, n) == (if n == src then 0 else UNREACHABLE))
      && (forall n :: !Settled(g, s'.settled, n))
  {
    var s' := s.(lastSource := Some(src), pq := [Entry(src, 0)],
                 distances := SetAt(g, s.distances, src, 0), touched := [src]);
    assert Inside(g, src);
    assert !Dirty(g, s, src);
    SetAtLowers(g, s.distances, src, 0);
    assert forall m :: Dist(g, s'.distances, m) == (if m == src then 0 else UNREACHABLE) by {
      forall m
        ensures Dist(g, s'.distances, m) == (if m == src then 0 else UNREACHABLE)
      {
        assert !Dirty(g, s, m);
      }
    }
    assert Recorded(g, s') by {
      forall m | Dirty(g, s', m)
        ensures m in s'.touched
      {
        assert m == src || Dirty(g, s, m);
      }
    }
    assert forall m :: !Settled(g, s'.settled, m) by {
      forall m
        ensures !Settled(g, s'.settled, m)
      {
        assert !Dirty(g, s, m);
      }
    }
  }

  /**
   * Each node after the first of r is a grid node other than source whose
   * predecessor entry is the node before it.
   */
  predicate IsPredecessorChain(g: GridGraph, before: seq<Node>, source: Node, r: seq<Node>)
    requires |before| == GraphSize(g)
  {
    (forall k :: 1 <= k < |r| ==> r[k] != source && Inside(g, r[k]))
    && (forall k {:trigger Before(g, before, r[k])} :: 1 <= k < |r| ==> Before(g, before, r[k]) == r[k - 1])
  }

  /**
   * The walk the predecessors trace back from n: it starts at the last
   * source, ends at n, and has no more steps than n's distance.
   */
  function ChainTo(g: GridGraph, s: State, n: Node): (r: seq<Node>)
    requires Inv(g, s) && s.lastSource.Some? && Dist(g, s.distances, n) < UNREACHABLE
    ensures IsWalk(g, r) && r[0] == s.lastSource.value && r[|r| - 1] == n
    ensures |r| - 1 <= Dist(g, s.distances, n)
    decreases Dist(g, s.distances, n)
  {
    assert Dirty(g, s, n);
    IndexInside(g, n);
    if n == s.lastSource.value then [n]
    else
      assert Steps(g, s.distances, s.before, n);
      var b := Before(g, s.before, n);
      assert 0 <= Dist(g, s.distances, b) by {
        IndexInside(g, b);
      }
      var prefix := ChainTo(g, s, b);
      var r := prefix + [n];
      assert forall i :: 0 <= i < |r| - 1 ==> IsNeigbourOf(g.calculator, r[i], r[i + 1]) by {
        forall i | 0 <= i < |r| - 1
          ensures IsNeigbourOf(g.calculator, r[i], r[i + 1])
        {
          if i < |prefix| - 1 {
            assert r[i] == prefix[i] && r[i + 1] == prefix[i + 1];
          }
        }
      }
      r
  }

  /** The predecessor walk to n is a predecessor chain from the last source. */
  lemma {:induction false} ChainLinks(g: GridGraph, s: State, n: Node)
    requires Inv(g, s) && s.lastSource.Some? && Dist(g, s.distances, n) < UNREACHABLE
    ensures IsPredecessorChain(g, s.before, s.lastSource.value, ChainTo(g, s, n))
    decreases Dist(g, s.distances, n)
  {
    if n != s.lastSource.value {
      ChainStep(g, s, n);
      var b := Before(g, s.before, n);
      ChainLinks(g, s, b);
      ExtendChain(g, s.before, s.lastSource.value, ChainTo(g, s, b), n);
    } else {
      ChainStart(g, s);
    }
  }

  /** A predecessor chain grows by a grid node, other than the source, whose predecessor is its last node. */
  lemma ExtendChain(g: GridGraph, before: seq<Node>, source: Node, chain: seq<Node>, n: Node)
    requires |before| == GraphSize(g) && |chain| > 0 && IsPredecessorChain(g, before, source, chain)
    requires n != source && Inside(g, n) && Before(g, before, n) == chain[|chain| - 1]
    ensures IsPredecessorChain(g, before, source, chain + [n])
  {
    var r := chain + [n];
    forall k | 1 <= k < |r|
      ensures r[k] != source && Inside(g, r[k])
    {
      if k < |chain| {
        assert r[k] == chain[k];
      }
    }
    forall k | 1 <= k < |r|
      ensures Before(g, before, r[k]) == r[k - 1]
    {
      if k < |chain| {
        assert r[k] == chain[k] && r[k - 1] == chain[k - 1];
        assert Before(g, before, chain[k]) == chain[k - 1];
      }
    }
  }

  /** One step of the predecessor walk: away from the source, the walk to n is the walk to its predecessor, then n. */
  lemma ChainStep(g: GridGraph, s: State, n: Node)
    requires Inv(g, s) && s.lastSource.Some? && Dist(g, s.distances, n) < UNREACHABLE && n != s.lastSource.value
    ensures var b := Before(g, s.before, n);
      Inside(g, n) && 0 <= Dist(g, s.distances, b) < Dist(g, s.distances, n)
      && ChainTo(g, s, n) == ChainTo(g, s, b) + [n]
  {
    assert Dirty(g, s, n);
    assert Steps(g, s.distances, s.before, n);
    IndexInside(g, Before(g, s.before, n));
  }

  /**
   * Extending the walk being built by the predecessor of its front keeps it
   * a tail of the predecessor walk to the target.
   */
  lemma ChainExtends(g: GridGraph, s: State, target: Node, nodes: seq<Node>)
    requires Inv(g, s) && s.lastSource.Some? && Dist(g, s.distances, target) < UNREACHABLE
    requires |nodes| > 0 && nodes[0] != s.lastSource.value && Dist(g, s.distances, nodes[0]) < UNREACHABLE
    requires ChainTo(g, s, target) == ChainTo(g, s, nodes[0]) + nodes[1..]
    ensures var b := Before(g, s.before, nodes[0]);
      Inside(g, nodes[0]) && 0 <= Dist(g, s.distances, b) < Dist(g, s.distances, nodes[0])
      && ChainTo(g, s, target) == ChainTo(g, s, b) + nodes
  {
    ChainStep(g, s, nodes[0]);
    ConsTail(ChainTo(g, s, Before(g, s.before, nodes[0])), nodes);
  }

  lemma ConsTail<T>(prefix: seq<T>, nodes: seq<T>)
    requires |nodes| > 0
    ensures (prefix + [nodes[0]]) + nodes[1..] == prefix + nodes
  {
    assert nodes == [nodes[0]] + nodes[1..];
  }

  /** The predecessor walk to the source is the source alone. */
  lemma ChainStart(g: GridGraph, s: State)
    requires Inv(g, s) && s.lastSource.Some?
    ensures Dist(g, s.distances, s.lastSource.value) < UNREACHABLE
    ensures ChainTo(g, s, s.lastSource.value) == [s.lastSource.value]
  {
  }

  /**
   * With the queue empty, every node on a walk from the last source is at
   * most as far as its position on the walk.
   */
  lemma {:induction false} WalkBoundsDistance(g: GridGraph, s: State, p: seq<Node>, k: int)
    requires Inv(g, s) && s.pq == []
    requires IsWalk(g, p) && s.lastSource == Some(p[0])
    requires 0 <= k < |p|
    ensures Dist(g, s.distances, p[k]) <= k
  {
    if k > 0 {
      WalkBoundsDistance(g, s, p, k - 1);
      if Dist(g, s.distances, p[k - 1]) < UNREACHABLE {
        assert Relaxed(g, s.distances, p[k - 1]);
      } else {
        DistBounded(g, s.distances, p[k]);
      }
    }
  }

  lemma DistBounded(g: GridGraph, distances: seq<int>, n: Node)
    requires |distances| == GraphSize(g) && Bounded(distances)
    ensures 0 <= Dist(g, distances, n) <= UNREACHABLE
  {
    if Inside(g, n) {
      IndexInside(g, n);
    }
  }


  /** The index `pq_.top()` reads: here the first entry with the smallest distance. */
  function TopIndex(pq: seq<Entry>): (k: int)
    requires |pq| > 0
    ensures 0 <= k < |pq|
    ensures forall i :: 0 <= i < |pq| ==> pq[k].dist <= pq[i].dist
  {
    if |pq| == 1 then 0
    else
      var k := TopIndex(pq[..|pq| - 1]);
      if pq[|pq| - 1].dist < pq[k].dist then |pq| - 1 else k
  }

  /** p is a walk from a to b. */
  predicate Connects(g: GridGraph, p: seq<Node>, a: Node, b: Node)
    requires GridGraphs.Valid(g)
  {
    IsWalk(g, p) && p[0] == a && p[|p| - 1] == b
  }

  class Dijkstra {
    const graph: GridGraph
    var distances: seq<int>
    var settled: seq<bool>
    var before: seq<Node>
    var touched: seq<Node>
    var pq: seq<Entry>
    var lastSource: Option<Node>

    function Snap(): State
      reads this
    {
      State(distances, settled, before, touched, pq, lastSource)
    }

    ghost predicate Valid()
      reads this
    {
      Inv(graph, Snap())
    }

    /** The constructor: every node unreached, unsettled, without predecessor; no last source. */
    constructor (graph: GridGraph)
      requires GridGraphs.Valid(graph)
      ensures this.graph == graph && Snap() == Fresh(graph) && Valid()
    {
      this.graph := graph;
      var n := GraphSize(graph);
      distances := seq(n, _ => UNREACHABLE);
      settled := seq(n, _ => false);
      before := seq(n, _ => NOT_REACHABLE);
      touched := [];
      pq := [];
      lastSource := None;
    }

    /** `setDistanceTo`: ignored for nodes outside the grid. */
    method SetDistanceTo(n: Node, d: int)
      requires Sized(graph, Snap())
      modifies this
      ensures Snap() == old(Snap()).(distances := SetAt(graph, old(distances), n, d))
    {
      var idx := GetIndex(graph, n);
      if idx.Some? {
        distances := distances[idx.value := d];
      }
    }

    /** `settle`: ignored for nodes outside the grid. */
    method Settle(n: Node)
      requires Sized(graph, Snap())
      modifies this
      ensures Snap() == old(Snap()).(settled := SetAt(graph, old(settled), n, true))
    {
      var idx := GetIndex(graph, n);
      if idx.Some? {
        settled := settled[idx.value := true];
      }
    }

    /** `unSettle`: ignored for nodes outside the grid. */
    method UnSettle(n: Node)
      requires Sized(graph, Snap())
      modifies this
      ensures Snap() == old(Snap()).(settled := SetAt(graph, old(settled), n, false))
    {
      var idx := GetIndex(graph, n);
      if idx.Some? {
        settled := settled[idx.value := false];
      }
    }

    /** `setBefore` indexes with `nodeToIndex` unchecked, so n must be a node of the grid. */
    method SetBefore(n: Node, b: Node)
      requires Sized(graph, Snap()) && Inside(graph, n)
      modifies this
      ensures Snap() == old(Snap()).(before := SetAt(graph, old(before), n, b))
    {
      IndexInside(graph, n);
      before := before[NodeToIndex(graph, n) := b];
    }

    /**
     * `reset`: every touched node is returned to the constructor's entries,
     * after which no node differs from a fresh object; the touched list and
     * the queue are emptied.
     */
    method Reset()
      requires Sized(graph, Snap()) && Bounded(distances) && Recorded(graph, Snap())
      requires forall t :: t in touched ==> Inside(graph, t)
      modifies this
      ensures Sized(graph, Snap()) && Bounded(distances)
      ensures touched == [] && pq == [] && lastSource == old(lastSource)
      ensures forall n :: !Dirty(graph, Snap(), n)
    {
      var i := 0;
      while i < |touched|
        invariant 0 <= i <= |touched| && touched == old(touched)
        invariant Sized(graph, Snap()) && Bounded(distances) && lastSource == old(lastSource)
        invariant forall n :: Dirty(graph, Snap(), n) ==> n in touched[i..]
      {
        var n := touched[i];
        ghost var s := Snap();
        UnSettle(n);
        SetDistanceTo(n, UNREACHABLE);
        SetBefore(n, NOT_REACHABLE);
        AtSetAt(graph, s.settled, n, false, false);
        AtSetAt(graph, s.distances, n, UNREACHABLE, UNREACHABLE);
        AtSetAt(graph, s.before, n, NOT_REACHABLE, NOT_REACHABLE);
        SetAtKeepsBounded(graph, s.distances, n, UNREACHABLE);
        forall m | Dirty(graph, Snap(), m)
          ensures m in touched[i + 1..]
        {
          assert m != n && Dirty(graph, s, m);
          assert m in touched[i..];
        }
        i := i + 1;
      }
      assert forall n :: !Dirty(graph, Snap(), n);
      ghost var s := Snap();
      touched := [];
      pq := [];
      assert forall n :: Dirty(graph, Snap(), n) == Dirty(graph, s, n);
    }

    /**
     * The new-source branch of `computeDistance`: record the source, reset,
     * then queue, touch and give distance 0 to the source alone.
     */
    method Restart(source: Node)
      requires Valid() && IsWalkableNode(graph, source)
      modifies this
      ensures Valid() && lastSource == Some(source)
      ensures pq == [Entry(source, 0)] && touched == [source]
      ensures forall n :: Dist(graph, distances, n) == (if n == source then 0 else UNREACHABLE)
      ensures forall n :: !Settled(graph, settled, n)
    {
      lastSource := Some(source);
      Reset();
      ghost var s0 := Snap();
      pq := pq + [Entry(source, 0)];
      SetDistanceTo(source, 0);
      touched := touched + [source];
      StartKeepsInv(graph, s0, source);
    }

    /** The body of the relaxation: touch neig, set its distance, queue it, record cur as its predecessor. */
    method RelaxEdge(cur: Node, curDist: int, neig: Node)
      requires Sized(graph, Snap()) && Inside(graph, neig)
      modifies this
      ensures Snap() == Relax(graph, old(Snap()), cur, curDist, neig)
    {
      var newDist := curDist + 1;
      touched := touched + [neig];
      SetDistanceTo(neig, newDist);
      pq := pq + [Entry(neig, newDist)];
      SetBefore(neig, cur);
    }

    /**
     * The relaxation loop of `computeDistance` for the popped node cur at
     * queue distance curDist: every walkable neighbour farther than
     * curDist + 1 is touched, lowered to curDist + 1, queued and given cur
     * as predecessor. Afterwards the invariant holds again, and the sum of
     * the distances has dropped unless no neighbour was lowered and the
     * queue is as it was.
     */
    method RelaxNeigbours(cur: Node, curDist: int)
      requires Core(graph, Snap()) && CompleteBut(graph, distances, pq, Some(cur))
      requires cur in touched && Dist(graph, distances, cur) <= curDist < UNREACHABLE
      requires PoppedOk(graph, distances, pq, cur, curDist)
      modifies this
      ensures Valid() && lastSource == old(lastSource) && settled == old(settled)
      ensures SumOf(distances) < old(SumOf(distances)) || (SumOf(distances) == old(SumOf(distances)) && pq == old(pq))
      ensures forall m :: IsNeigbourOf(graph.calculator, cur, m) && IsWalkableNode(graph, m) ==>
        Dist(graph, distances, m) <= curDist + 1
    {
      var neigs := GetWalkableNeigbours(graph, cur);
      var j := 0;
      while j < |neigs|
        invariant 0 <= j <= |neigs|
        invariant Core(graph, Snap()) && CompleteBut(graph, distances, pq, Some(cur))
        invariant lastSource == old(lastSource) && settled == old(settled)
        invariant cur in touched && Dist(graph, distances, cur) <= curDist
        invariant PoppedOk(graph, distances, pq, cur, curDist)
        invariant WithinStep(graph, distances, neigs[..j], curDist)
        invariant SumOf(distances) < old(SumOf(distances)) || (SumOf(distances) == old(SumOf(distances)) && pq == old(pq))
      {
        ghost var d0 := distances;
        var neig := neigs[j];
        var neigDist := Dist(graph, distances, neig);
        var newDist := curDist + 1;
        if UNREACHABLE != curDist && neigDist > newDist {
          WalkableNeigboursMeaning(graph, cur, neig);
          RelaxStep(graph, Snap(), cur, curDist, neig);
          RelaxEdge(cur, curDist, neig);
        }
        WithinStepExtends(graph, d0, distances, neigs, j, curDist);
        j := j + 1;
      }
      assert neigs[..j] == neigs;
      forall m | IsNeigbourOf(graph.calculator, cur, m) && IsWalkableNode(graph, m)
        ensures Dist(graph, distances, m) <= curDist + 1
      {
        WalkableNeigboursMeaning(graph, cur, m);
      }
      FinishKeepsComplete(graph, distances, pq, cur, curDist);
    }

    /**
     * One pass of the search loop of `computeDistance`: settle the top
     * entry's node; if it is the target, report the entry's distance, which
     * is the target's stored distance, leaving the entry queued; otherwise
     * pop it and relax its walkable neighbours. A pass that does not find
     * the target lowers the sum of the distances or shortens the queue.
     */
    method SearchStep(source: Node, target: Node) returns (found: bool, d: int)
      requires Valid() && lastSource == Some(source) && !Settled(graph, settled, target) && pq != []
      modifies this
      ensures Valid() && lastSource == Some(source)
      ensures found ==> d == Dist(graph, distances, target) && d < UNREACHABLE
      ensures !found ==> !Settled(graph, settled, target)
      ensures !found ==> (SumOf(distances) < old(SumOf(distances))
        || (SumOf(distances) == old(SumOf(distances)) && |pq| < old(|pq|)))
    {
      var k := TopIndex(pq);
      var cur := pq[k].node;
      var curDist := pq[k].dist;
      if cur == target {
        TopIsTargetDistance(graph, Snap(), k, target);
      }
      SettleKeepsCore(graph, Snap(), k, None);
      Settle(cur);
      if cur == target {
        return true, curDist;
      }
      PopKeepsCore(graph, Snap(), k);
      pq := RemoveAt(pq, k);
      RelaxNeigbours(cur, curDist);
      return false, curDist;
    }

    /**
     * `computeDistance`: UNREACHABLE with nothing changed when an endpoint
     * is a barrier; otherwise the search (resumed for the same source, or
     * restarted from a reset state for a new one) stops when the target is
     * settled or the queue runs empty, and returns the target's stored
     * distance. A finite answer is witnessed by the predecessor walk from
     * the source, no longer than the answer; an UNREACHABLE answer means no
     * walk from the source reaches the target.
     */
    method ComputeDistance(source: Node, target: Node) returns (r: int)
      requires Valid()
      modifies this
      ensures Valid()
      ensures IsBarrier(graph, source) || IsBarrier(graph, target) ==> r == UNREACHABLE && Snap() == old(Snap())
      ensures !IsBarrier(graph, source) && !IsBarrier(graph, target) ==>
        lastSource == Some(source) && r == Dist(graph, distances, target)
      ensures !IsBarrier(graph, source) && !IsBarrier(graph, target) && old(lastSource) == Some(source) && old(Settled(graph, settled, target)) ==>
        Snap() == old(Snap()) && r == old(Dist(graph, distances, target))
      ensures r < UNREACHABLE ==>
        Connects(graph, ChainTo(graph, Snap(), target), source, target) && |ChainTo(graph, Snap(), target)| - 1 <= r
      ensures r == UNREACHABLE ==> forall p :: Connects(graph, p, source, target) ==> |p| > UNREACHABLE
    {
      if IsBarrier(graph, source) || IsBarrier(graph, target) {
        return UNREACHABLE;
      }
      if lastSource == Some(source) && Settled(graph, settled, target) {
        return Dist(graph, distances, target);
      }
      if lastSource != Some(source) {
        Restart(source);
      }
      while pq != []
        invariant Valid() && lastSource == Some(source)
        invariant !Settled(graph, settled, target)
        decreases SumOf(distances), |pq|
      {
        SumOfNonNegative(distances);
        var found, d := SearchStep(source, target);
        if found {
          return d;
        }
        SumOfNonNegative(distances);
      }
      r := Dist(graph, distances, target);
      forall p | Connects(graph, p, source, target)
        ensures r <= |p| - 1
      {
        WalkBoundsDistance(graph, Snap(), p, |p| - 1);
      }
    }

    /**
     * `extractShortestPath` after a search from source: none when the
     * target is unreached, otherwise the path that follows the recorded
     * predecessors back from the target to the source.
     */
    method ExtractShortestPath(source: Node, target: Node) returns (r: Option<Path>)
      requires Valid() && lastSource == Some(source)
      ensures r.None? <==> Dist(graph, distances, target) == UNREACHABLE
      ensures r.Some? ==> fresh(r.value) && r.value.nodes == ChainTo(graph, Snap(), target)
    {
      if UNREACHABLE == Dist(graph, distances, target) {
        return None;
      }
      ghost var s := Snap();
      var path := new Path([target]);
      while path.GetSource() != source
        invariant s == Snap() && Inv(graph, s) && s.lastSource == Some(source)
        invariant |path.nodes| > 0 && Dist(graph, s.distances, path.nodes[0]) < UNREACHABLE
        invariant ChainTo(graph, s, target) == ChainTo(graph, s, path.nodes[0]) + path.nodes[1..]
        decreases Dist(graph, s.distances, path.nodes[0])
      {
        var last := path.GetSource();
        IndexInside(graph, last);
        var b := before[NodeToIndex(graph, last)];
        ChainExtends(graph, s, target, path.nodes);
        ghost var old_nodes := path.nodes;
        path.PushFront(b);
        assert path.nodes[1..] == old_nodes;
      }
      ChainStart(graph, s);
      return Some(path);
    }

    /**
     * `getMinDistanceIn`: over the nodes of a valid cell, the least stored
     * distance, or UNREACHABLE; it is no larger than any node's, and a
     * finite one is some node's.
     */
    function GetMinDistanceIn(cell: GridCell): (r: int)
      reads this
      requires |distances| == GraphSize(graph)
      ensures r <= UNREACHABLE
      ensures IsValid(cell) ==> forall n :: IsInCell(cell, n) ==> r <= Dist(graph, distances, n)
      ensures IsValid(cell) && r != UNREACHABLE ==> exists n :: IsInCell(cell, n) && r == Dist(graph, distances, n)
    {
      var nodes := CellNodes(cell);
      var r := MinDistanceOver(graph, distances, nodes);
      if IsValid(cell) then
        CellNodesAreTheCell(cell);
        assert r != UNREACHABLE ==> exists i :: 0 <= i < |nodes| && IsInCell(cell, nodes[i]) && r == Dist(graph, distances, nodes[i]);
        r
      else r
    }

    /**
     * `getNodesWithMinDistanceIn`: the nodes of a valid cell whose stored
     * distance is the cell's least, in the cell's ascending order.
     */
    function GetNodesWithMinDistanceIn(cell: GridCell): (r: seq<Node>)
      reads this
      requires |distances| == GraphSize(graph)
      ensures IsValid(cell) ==> forall n :: n in r <==> IsInCell(cell, n) && Dist(graph, distances, n) == GetMinDistanceIn(cell)
      ensures IsValid(cell) ==> forall i, j :: 0 <= i < j < |r| ==> Nodes.Less(r[i], r[j])
    {
      var nodes := CellNodes(cell);
      var r := NodesAtDistance(graph, distances, nodes, MinDistanceOver(graph, distances, nodes));
      if IsValid(cell) then
        CellNodesAreTheCell(cell);
        NodesAtDistanceAscending(graph, distances, nodes, MinDistanceOver(graph, distances, nodes));
        r
      else r
    }

    /**
     * `findRoute`, with the source's guard added: a route only when the
     * search just made reports the target reachable; the route is a walk
     * from source to target. A none means no walk joins them.
     */
    method FindRoute(source: Node, target: Node) returns (r: Option<Path>)
      requires Valid()
      modifies this
      ensures Valid()
      ensures r.Some? ==> fresh(r.value) && Connects(graph, r.value.nodes, source, target)
      ensures r.None? ==> forall p :: Connects(graph, p, source, target) ==> |p| > UNREACHABLE
    {
      var d := ComputeDistance(source, target);
      if d == UNREACHABLE {
        return None;
      }
      r := ExtractShortestPath(source, target);
    }
  }

  // ---------------------------------------------------------------------------
  // findTrivialDistance

  /** `std::max(a, b) - std::min(a, b)` in `std::size_t`: the gap between two coordinates. */
  function AxisGap(a: u64, b: u64): u64
  {
    if a < b then b - a else a - b
  }

  /**
   * `findTrivialDistance`: UNREACHABLE when an endpoint is a barrier,
   * otherwise the row gap plus the column gap, added in `std::size_t` and
   * returned as a `std::int64_t`.
   */
  function FindTrivialDistance(g: GridGraph, source: Node, target: Node): int
    requires GridGraphs.Valid(g)
  {
    if IsBarrier(g, source) || IsBarrier(g, target) then UNREACHABLE
    else ToI64(ToSize(AxisGap(source.row, target.row) + AxisGap(source.column, target.column)))
  }

  function Abs(x: int): nat
  {
    if x < 0 then -x else x
  }

  /** The Manhattan distance of two nodes, on unbounded integers. */
  function ManhattanDistance(a: Node, b: Node): nat
  {
    Abs(a.row - b.row) + Abs(a.column - b.column)
  }

  /** Sides up to 2^62, so that no sum of two gaps overflows `std::int64_t`. */
  predicate Moderate(g: GridGraph)
  {
    g.height <= 0x4000_0000_0000_0000 && g.width <= 0x4000_0000_0000_0000
  }

  /**
   * On a grid with moderate sides the trivial distance is UNREACHABLE
   * exactly when an endpoint is a barrier, and otherwise the Manhattan
   * distance: symmetric, and zero exactly from a walkable node to itself.
   */
  lemma TrivialDistanceIsManhattan(g: GridGraph, a: Node, b: Node)
    requires GridGraphs.Valid(g) && Moderate(g)
    ensures FindTrivialDistance(g, a, b) == UNREACHABLE <==> IsBarrier(g, a) || IsBarrier(g, b)
    ensures !IsBarrier(g, a) && !IsBarrier(g, b) ==> FindTrivialDistance(g, a, b) == ManhattanDistance(a, b)
    ensures FindTrivialDistance(g, a, b) == FindTrivialDistance(g, b, a)
    ensures FindTrivialDistance(g, a, b) == 0 <==> IsWalkableNode(g, a) && a == b
  {
    if !IsBarrier(g, a) && !IsBarrier(g, b) {
      var sum := AxisGap(a.row, b.row) + AxisGap(a.column, b.column);
      assert sum < 0x8000_0000_0000_0000;
      ToSizeOfSize(sum);
    }
  }

  /**
   * Under the Manhattan calculator a walk on a grid with moderate sides
   * has at least as many steps as the Manhattan distance of its ends: each
   * step between nodes of the grid moves one coordinate by one.
   */
  lemma {:induction false} WalkCoversManhattan(g: GridGraph, p: seq<Node>, k: nat)
    requires GridGraphs.Valid(g) && Moderate(g) && g.calculator == Manhattan
    requires IsWalk(g, p) && k < |p|
    ensures ManhattanDistance(p[0], p[k]) <= k
  {
    if k > 0 {
      WalkCoversManhattan(g, p, k - 1);
      var x, y := p[k - 1], p[k];
      assert IsWalkableNode(g, x) && IsWalkableNode(g, y);
      assert ManhattanIsNeigbourOf(x, y);
      assert ManhattanDistance(x, y) == 1;
    }
  }

  /**
   * The trivial distance is a lower bound: under the Manhattan calculator
   * no walk between two nodes has fewer steps, so neither has the walk
   * witnessing a finite `computeDistance`.
   */
  lemma TrivialDistanceBoundsWalks(g: GridGraph, p: seq<Node>, a: Node, b: Node)
    requires GridGraphs.Valid(g) && Moderate(g) && g.calculator == Manhattan
    requires Connects(g, p, a, b)
    ensures FindTrivialDistance(g, a, b) <= |p| - 1
  {
    WalkCoversManhattan(g, p, |p| - 1);
    TrivialDistanceIsManhattan(g, a, b);
  }

  // ---------------------------------------------------------------------------
  // getMinDistanceIn / getNodesWithMinDistanceIn

  /**
   * The left fold of `std::min` over the stored distances of nodes,
   * starting from UNREACHABLE: a lower bound of every one of them, and
   * either UNREACHABLE or attained by one of them.
   */
  function MinDistanceOver(g: GridGraph, distances: seq<int>, nodes: seq<Node>): (r: int)
    requires |distances| == GraphSize(g)
    ensures r <= UNREACHABLE
    ensures forall i :: 0 <= i < |nodes| ==> r <= Dist(g, distances, nodes[i])
    ensures r == UNREACHABLE || exists i :: 0 <= i < |nodes| && r == Dist(g, distances, nodes[i])
  {
    if nodes == [] then UNREACHABLE
    else
      var init := nodes[..|nodes| - 1];
      var last := nodes[|nodes| - 1];
      var acc := MinDistanceOver(g, distances, init);
      assert forall i :: 0 <= i < |init| ==> init[i] == nodes[i];
      Utils.Min2(acc, Dist(g, distances, last))
  }

  /** The nodes whose stored distance is d, in their order (`std::copy_if`). */
  function NodesAtDistance(g: GridGraph, distances: seq<int>, nodes: seq<Node>, d: int): (r: seq<Node>)
    requires |distances| == GraphSize(g)
    ensures forall n :: n in r <==> n in nodes && Dist(g, distances, n) == d
    ensures |r| <= |nodes|
  {
    if nodes == [] then []
    else
      var rest := NodesAtDistance(g, distances, nodes[1..], d);
      if Dist(g, distances, nodes[0]) == d then [nodes[0]] + rest else rest
  }

  /** A subsequence of an ascending node list is ascending. */
  lemma {:induction false} NodesAtDistanceAscending(g: GridGraph, distances: seq<int>, nodes: seq<Node>, d: int)
    requires |distances| == GraphSize(g)
    requires forall i, j :: 0 <= i < j < |nodes| ==> Nodes.Less(nodes[i], nodes[j])
    ensures forall i, j :: 0 <= i < j < |NodesAtDistance(g, distances, nodes, d)| ==>
      Nodes.Less(NodesAtDistance(g, distances, nodes, d)[i], NodesAtDistance(g, distances, nodes, d)[j])
  {
    if nodes != [] {
      NodesAtDistanceAscending(g, distances, nodes[1..], d);
      var rest := NodesAtDistance(g, distances, nodes[1..], d);
      forall j | 0 <= j < |rest|
        ensures Nodes.Less(nodes[0], rest[j])
      {
        assert rest[j] in nodes[1..];
        var k :| 0 <= k < |nodes[1..]| && nodes[1..][k] == rest[j];
        assert nodes[k + 1] == rest[j];
      }
      var r := NodesAtDistance(g, distances, nodes, d);
      if Dist(g, distances, nodes[0]) == d {
        assert r == [nodes[0]] + rest;
        forall i, j | 0 <= i < j < |r|
          ensures Nodes.Less(r[i], r[j])
        {
          assert r[j] == rest[j - 1];
          if i > 0 {
            assert r[i] == rest[i - 1];
            assert Nodes.Less(rest[i - 1], rest[j - 1]);
          }
        }
      }
    }
  }

  // ---------------------------------------------------------------------------
  // The loop of extractShortestPath, and a stale route

  /** How the loop of `extractShortestPath` ends. */
  datatype Extraction = Extracted(nodes: seq<Node>) | IndexOutOfRange(node: Node) | Unfinished

  /**
   * The loop of `extractShortestPath` as written, run for at most fuel more
   * steps from the partial path nodes: it stops when the front is the
   * requested source; otherwise it reads `before_` at the front's
   * `nodeToIndex`, which is out of range for a node outside the grid.
   */
  function FollowBefore(g: GridGraph, before: seq<Node>, source: Node, nodes: seq<Node>, fuel: nat): Extraction
    requires |before| == GraphSize(g) && |nodes| > 0
    decreases fuel
  {
    if nodes[0] == source then Extracted(nodes)
    else if !Inside(g, nodes[0]) then IndexOutOfRange(nodes[0])
    else if fuel == 0 then Unfinished
    else FollowBefore(g, before, source, [Before(g, before, nodes[0])] + nodes, fuel - 1)
  }

  /** When the loop ends at the source, it has only put nodes in front of the partial path. */
  lemma {:induction false} FollowBeforePrepends(g: GridGraph, before: seq<Node>, source: Node, nodes: seq<Node>, fuel: nat)
    requires |before| == GraphSize(g) && |nodes| > 0
    ensures var r := FollowBefore(g, before, source, nodes, fuel);
      r.Extracted? ==> |nodes| <= |r.nodes| && r.nodes[0] == source && r.nodes[|r.nodes| - |nodes|..] == nodes
    decreases fuel
  {
    if nodes[0] != source && Inside(g, nodes[0]) && fuel > 0 {
      var longer := [Before(g, before, nodes[0])] + nodes;
      FollowBeforePrepends(g, before, source, longer, fuel - 1);
      var r := FollowBefore(g, before, source, longer, fuel - 1);
      if r.Extracted? {
        assert r.nodes[|r.nodes| - |nodes|..] == r.nodes[|r.nodes| - |longer|..][1..];
      }
    }
  }

  /**
   * After a search from source, the loop stops at the source within the
   * front's distance in steps and returns the predecessor walk to the
   * front, followed by the rest of the partial path.
   */
  lemma FollowBeforeTracesChain(g: GridGraph, s: State, source: Node, nodes: seq<Node>, fuel: nat)
    requires Inv(g, s) && s.lastSource == Some(source)
    requires |nodes| > 0 && Dist(g, s.distances, nodes[0]) < UNREACHABLE && Dist(g, s.distances, nodes[0]) <= fuel
    ensures FollowBefore(g, s.before, source, nodes, fuel) == Extracted(ChainTo(g, s, nodes[0]) + nodes[1..])
  {
    var chain := ChainTo(g, s, nodes[0]);
    ChainLinks(g, s, nodes[0]);
    assert [chain[|chain| - 1]] + nodes[1..] == nodes;
    FollowChain(g, s.before, source, chain, nodes[1..], fuel);
  }

  /**
   * Following the predecessors from the last node of a predecessor chain
   * that starts at source, with fuel for every step, gives back the chain,
   * followed by the rest of the partial path.
   */
  lemma {:induction false} FollowChain(g: GridGraph, before: seq<Node>, source: Node, chain: seq<Node>, rest: seq<Node>, fuel: nat)
    requires |before| == GraphSize(g) && |chain| >= 1 && chain[0] == source && |chain| - 1 <= fuel
    requires IsPredecessorChain(g, before, source, chain)
    ensures FollowBefore(g, before, source, [chain[|chain| - 1]] + rest, fuel) == Extracted(chain + rest)
    decreases |chain|
  {
    var n := chain[|chain| - 1];
    if |chain| > 1 {
      var shorter := ShorterChain(g, before, source, chain);
      FollowChain(g, before, source, shorter, [n] + rest, fuel - 1);
      FollowOneStep(g, before, source, [n] + rest, fuel);
      AppendAssociates(shorter, [n], rest);
    } else {
      assert ([n] + rest)[0] == source;
    }
  }

  /** A predecessor chain without its last node is one, the predecessor of that node ending it. */
  lemma ShorterChain(g: GridGraph, before: seq<Node>, source: Node, chain: seq<Node>) returns (shorter: seq<Node>)
    requires |before| == GraphSize(g) && |chain| > 1 && chain[0] == source
    requires IsPredecessorChain(g, before, source, chain)
    ensures shorter == chain[..|chain| - 1] && chain == shorter + [chain[|chain| - 1]]
    ensures shorter[0] == source && IsPredecessorChain(g, before, source, shorter)
    ensures var n := chain[|chain| - 1]; n != source && Inside(g, n) && Before(g, before, n) == shorter[|shorter| - 1]
  {
    shorter := chain[..|chain| - 1];
    forall k | 1 <= k < |shorter|
      ensures shorter[k] != source && Inside(g, shorter[k])
    {
      assert shorter[k] == chain[k];
    }
    forall k | 1 <= k < |shorter|
      ensures Before(g, before, shorter[k]) == shorter[k - 1]
    {
      assert shorter[k] == chain[k] && shorter[k - 1] == chain[k - 1];
      assert Before(g, before, chain[k]) == chain[k - 1];
    }
    assert Before(g, before, chain[|chain| - 1]) == chain[|chain| - 2];
  }

  lemma AppendAssociates<T>(a: seq<T>, b: seq<T>, c: seq<T>)
    ensures (a + b) + c == a + (b + c)
  {
  }

  /** One step of the loop: away from the source, a grid node's walk grows by its predecessor. */
  lemma FollowOneStep(g: GridGraph, before: seq<Node>, source: Node, nodes: seq<Node>, fuel: nat)
    requires |before| == GraphSize(g) && |nodes| > 0 && nodes[0] != source && Inside(g, nodes[0]) && fuel > 0
    ensures FollowBefore(g, before, source, nodes, fuel)
         == FollowBefore(g, before, source, [Before(g, before, nodes[0])] + nodes, fuel - 1)
  {
  }

  /** The 1 x 3 grid `..@` under the Manhattan calculator. */
  function LineGraph(): (g: GridGraph)
    ensures GridGraphs.Valid(g) && GraphSize(g) == 3
  {
    GridGraph([true, true, false], 1, 3, Manhattan)
  }

  /**
   * The state a search from (0, 0) to (0, 1) leaves on `..@`: (0, 0) is
   * settled at 0 and popped, (0, 1) is settled at 1 with predecessor
   * (0, 0) and still queued.
   */
  function SearchedLine(): (s: State)
    ensures Sized(LineGraph(), s)
  {
    State([0, 1, UNREACHABLE], [true, true, false], [NOT_REACHABLE, Node(0, 0), NOT_REACHABLE],
      [Node(0, 0), Node(0, 1)], [Entry(Node(0, 1), 1)], Some(Node(0, 0)))
  }

  /** The grid nodes of `..@` are (0, 0), (0, 1) and (0, 2), at indices 0, 1 and 2. */
  lemma LineIndex(n: Node)
    ensures GetIndex(LineGraph(), n) == if n == Node(0, 0) then Some(0) else if n == Node(0, 1) then Some(1) else if n == Node(0, 2) then Some(2) else None
  {
    var g := LineGraph();
    if n.row < 1 && n.column < 3 {
      assert NodeToIndex(g, n) == n.column;
    }
  }

  lemma LineNodes(n: Node)
    ensures Inside(LineGraph(), n) <==> n == Node(0, 0) || n == Node(0, 1) || n == Node(0, 2)
    ensures IsWalkableNode(LineGraph(), n) <==> n == Node(0, 0) || n == Node(0, 1)
  {
    var g := LineGraph();
    if n.row < 1 && n.column < 3 {
      assert NodeToIndex(g, n) == n.column;
    }
  }

  lemma LineEntries(n: Node)
    ensures Dist(LineGraph(), SearchedLine().distances, n) == if n == Node(0, 0) then 0 else if n == Node(0, 1) then 1 else UNREACHABLE
    ensures Settled(LineGraph(), SearchedLine().settled, n) <==> n == Node(0, 0) || n == Node(0, 1)
    ensures Before(LineGraph(), SearchedLine().before, n) == if n == Node(0, 1) then Node(0, 0) else NOT_REACHABLE
  {
    LineIndex(n);
  }

  lemma LineTouchedOk()
    ensures TouchedOk(LineGraph(), SearchedLine().touched)
  {
    forall t | t in SearchedLine().touched
      ensures Inside(LineGraph(), t) && IsWalkableNode(LineGraph(), t)
    {
      assert t == Node(0, 0) || t == Node(0, 1);
      LineNodes(t);
    }
  }

  lemma LineRecorded()
    ensures Recorded(LineGraph(), SearchedLine())
  {
    forall n | Dirty(LineGraph(), SearchedLine(), n)
      ensures n in SearchedLine().touched
    {
      LineEntries(n);
    }
  }

  lemma LineSourceOk()
    ensures var s := SearchedLine(); SourceOk(LineGraph(), s.distances, s.touched, s.pq, s.lastSource)
  {
    var s := SearchedLine();
    LineNodes(Node(0, 0));
    LineEntries(Node(0, 0));
    forall n | Dist(LineGraph(), s.distances, n) == 0
      ensures s.lastSource == Some(n)
    {
      LineEntries(n);
    }
  }

  lemma LineTree()
    ensures Tree(LineGraph(), SearchedLine().distances, SearchedLine().before)
  {
    var g, s := LineGraph(), SearchedLine();
    forall n | 0 < Dist(g, s.distances, n) < UNREACHABLE
      ensures Steps(g, s.distances, s.before, n)
    {
      LineEntries(n);
      LineStep();
    }
  }

  lemma LineStep()
    ensures Steps(LineGraph(), SearchedLine().distances, SearchedLine().before, Node(0, 1))
  {
    var g, s := LineGraph(), SearchedLine();
    var n := Node(0, 1);
    LineEntries(n);
    LineEntries(Node(0, 0));
    LineNodes(Node(0, 0));
    var b := Before(g, s.before, n);
    assert b == Node(0, 0);
    assert IsNeigbourOf(g.calculator, b, n);
  }

  lemma LineQueued()
    ensures Queued(LineGraph(), SearchedLine().distances, SearchedLine().touched, SearchedLine().pq)
  {
    var g, s := LineGraph(), SearchedLine();
    forall e | e in s.pq
      ensures e.node in s.touched && 0 <= e.dist < UNREACHABLE && Dist(g, s.distances, e.node) <= e.dist
    {
      assert e == Entry(Node(0, 1), 1);
      LineEntries(Node(0, 1));
    }
  }

  lemma LineCovered()
    ensures Covered(LineGraph(), SearchedLine().distances, SearchedLine().settled, SearchedLine().pq)
    ensures SettledFinite(LineGraph(), SearchedLine().distances, SearchedLine().settled)
  {
    var g, s := LineGraph(), SearchedLine();
    forall n | Dist(g, s.distances, n) < UNREACHABLE
      ensures Entry(n, Dist(g, s.distances, n)) in s.pq || Settled(g, s.settled, n)
    {
      LineEntries(n);
    }
    forall n | Settled(g, s.settled, n)
      ensures Dist(g, s.distances, n) < UNREACHABLE
    {
      LineEntries(n);
    }
  }

  lemma LineComplete()
    ensures CompleteBut(LineGraph(), SearchedLine().distances, SearchedLine().pq, None)
  {
    var g, s := LineGraph(), SearchedLine();
    LineEntries(Node(0, 0));
    forall m | IsNeigbourOf(g.calculator, Node(0, 0), m) && IsWalkableNode(g, m)
      ensures Dist(g, s.distances, m) <= 1
    {
      LineNodes(m);
      LineEntries(m);
    }
    assert Relaxed(g, s.distances, Node(0, 0));
    forall n | Dist(g, s.distances, n) < UNREACHABLE
      ensures Entry(n, Dist(g, s.distances, n)) in s.pq || Relaxed(g, s.distances, n)
    {
      LineEntries(n);
    }
  }

  /**
   * `findRoute` as written, after `findRoute((0, 0), (0, 1))` on `..@`, is
   * asked for a route from the barrier (0, 2) to (0, 1): the state is a
   * valid one of the last source (0, 0), which `computeDistance` from a
   * barrier leaves as it is; the target's stored distance is finite, so
   * the extraction loop starts, walks (0, 1) and (0, 0) without meeting
   * (0, 2), and reads `before_` at the index of NOT_REACHABLE, outside the
   * grid.
   */
  lemma StaleRouteReadsOutOfRange()
    ensures Inv(LineGraph(), SearchedLine()) && SearchedLine().lastSource == Some(Node(0, 0))
    ensures IsBarrier(LineGraph(), Node(0, 2))
    ensures Dist(LineGraph(), SearchedLine().distances, Node(0, 1)) != UNREACHABLE
    ensures FollowBefore(LineGraph(), SearchedLine().before, Node(0, 2), [Node(0, 1)], 3) == IndexOutOfRange(NOT_REACHABLE)
    ensures !Inside(LineGraph(), NOT_REACHABLE)
  {
    LineInv();
    LineNodes(Node(0, 2));
    LineEntries(Node(0, 1));
    LineFollow();
  }

  lemma LineInv()
    ensures Inv(LineGraph(), SearchedLine())
  {
    var g, s := LineGraph(), SearchedLine();
    LineTouchedOk();
    LineRecorded();
    LineQueued();
    LineSourceOk();
    LineTree();
    LineCovered();
    LineComplete();
  }

  lemma LineFollow()
    ensures FollowBefore(LineGraph(), SearchedLine().before, Node(0, 2), [Node(0, 1)], 3) == IndexOutOfRange(NOT_REACHABLE)
  {
    var g, s := LineGraph(), SearchedLine();
    LineNodes(Node(0, 1));
    LineNodes(Node(0, 0));
    LineEntries(Node(0, 1));
    LineEntries(Node(0, 0));
    assert FollowBefore(g, s.before, Node(0, 2), [Node(0, 1)], 3)
      == FollowBefore(g, s.before, Node(0, 2), [Node(0, 0), Node(0, 1)], 2)
      == FollowBefore(g, s.before, Node(0, 2), [NOT_REACHABLE, Node(0, 0), Node(0, 1)], 1);
  }
}
