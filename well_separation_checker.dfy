/**
 * separation::checkSeparation and findCenterCandidates
 * (include/separation/WellSeparationChecker.hpp): decides whether every
 * shortest path between two grid cells can be routed over one center node
 * in each cell.
 *
 * The path finder is abstract: `dist(a, b)` is `findDistance(a, b)`, and
 * `minNodes(from)` is `getNodesWithMinDistanceIn(second)` after the
 * searches from `from`, ascending as the cell's nodes are. Iterating a
 * cell, and `cell[i]`, visit its nodes in the order CellNodes gives.
 */
module WellSeparationCheckers {
  import opened Nodes
  import opened GridCells
  import opened Wrappers
  import Utils
  import Dijkstras
  import Separations
  import NodeSelections

  const UNREACHABLE := Dijkstras.UNREACHABLE

  /** n is one of the min-distance nodes reported after each of the sources. */
  predicate InAll(n: Node, minNodes: Node -> seq<Node>, sources: seq<Node>)
  {
    forall f :: f in sources ==> n in minNodes(f)
  }

  /** Some node is reported as a min-distance node after every source. */
  ghost predicate HasCommonCandidate(minNodes: Node -> seq<Node>, sources: seq<Node>)
  {
    exists n :: InAll(n, minNodes, sources)
  }

  /** Every report is ascending in node order. */
  ghost predicate ReportsAscending(minNodes: Node -> seq<Node>, sources: seq<Node>)
  {
    forall f :: f in sources ==> Utils.SortedBy(minNodes(f), Nodes.Less)
  }

  /** Pair (a, b) comes before pair (i, j) in the scan of first × second. */
  predicate Before(a: int, b: int, i: int, j: int)
  {
    a < i || (a == i && b < j)
  }

  /**
   * (i, j) is the pair the scan keeps: its distance is below UNREACHABLE
   * and at most every other, and every pair scanned before it is strictly
   * farther, so the strict `<` never replaced it.
   */
  predicate IsCenterPair(dist: (Node, Node) -> int, firsts: seq<Node>, seconds: seq<Node>, i: int, j: int)
  {
    0 <= i < |firsts| && 0 <= j < |seconds|
    && dist(firsts[i], seconds[j]) < UNREACHABLE
    && (forall a, b :: 0 <= a < |firsts| && 0 <= b < |seconds| ==> dist(firsts[i], seconds[j]) <= dist(firsts[a], seconds[b]))
    && (forall a, b :: 0 <= a < |firsts| && 0 <= b < |seconds| && Before(a, b, i, j) ==> dist(firsts[i], seconds[j]) < dist(firsts[a], seconds[b]))
  }

  /** At most one pair is the kept pair: the scan order decides between equally close pairs. */
  lemma CenterPairIsUnique(dist: (Node, Node) -> int, firsts: seq<Node>, seconds: seq<Node>, i: int, j: int, k: int, l: int)
    requires IsCenterPair(dist, firsts, seconds, i, j) && IsCenterPair(dist, firsts, seconds, k, l)
    ensures i == k && j == l
  {
  }

  /**
   * The scan's state once every pair before (i, j) is scanned: the least
   * distance so far (UNREACHABLE to begin with), and, exactly when it is
   * below UNREACHABLE, the first pair that attains it.
   */
  ghost predicate Scanned(dist: (Node, Node) -> int, firsts: seq<Node>, seconds: seq<Node>, i: int, j: int,
                          minDistance: int, firstCenter: Option<Node>, secondCenter: Option<Node>, ci: int, cj: int)
  {
    0 <= i <= |firsts| && 0 <= j <= |seconds| && minDistance <= UNREACHABLE
    && (forall a, b :: 0 <= a < |firsts| && 0 <= b < |seconds| && Before(a, b, i, j) ==> minDistance <= dist(firsts[a], seconds[b]))
    && (firstCenter.Some? <==> minDistance < UNREACHABLE) && (secondCenter.Some? <==> minDistance < UNREACHABLE)
    && (firstCenter.Some? ==>
          0 <= ci < |firsts| && 0 <= cj < |seconds| && Before(ci, cj, i, j)
          && firstCenter.value == firsts[ci] && secondCenter.value == seconds[cj]
          && minDistance == dist(firsts[ci], seconds[cj])
          && forall a, b :: 0 <= a < |firsts| && 0 <= b < |seconds| && Before(a, b, ci, cj) ==> minDistance < dist(firsts[a], seconds[b]))
  }

  /** Scanning pair (i, j): a strictly closer pair replaces the kept one. */
  lemma ScanStep(dist: (Node, Node) -> int, firsts: seq<Node>, seconds: seq<Node>, i: int, j: int,
                 minDistance: int, firstCenter: Option<Node>, secondCenter: Option<Node>, ci: int, cj: int)
    requires Scanned(dist, firsts, seconds, i, j, minDistance, firstCenter, secondCenter, ci, cj)
    requires i < |firsts| && j < |seconds|
    ensures dist(firsts[i], seconds[j]) < minDistance ==>
      Scanned(dist, firsts, seconds, i, j + 1, dist(firsts[i], seconds[j]), Some(firsts[i]), Some(seconds[j]), i, j)
    ensures dist(firsts[i], seconds[j]) >= minDistance ==>
      Scanned(dist, firsts, seconds, i, j + 1, minDistance, firstCenter, secondCenter, ci, cj)
  {
  }

  /** After the last pair of a row the scan goes on with the next row. */
  lemma RowDone(dist: (Node, Node) -> int, firsts: seq<Node>, seconds: seq<Node>, i: int,
                minDistance: int, firstCenter: Option<Node>, secondCenter: Option<Node>, ci: int, cj: int)
    requires Scanned(dist, firsts, seconds, i, |seconds|, minDistance, firstCenter, secondCenter, ci, cj)
    requires i < |firsts|
    ensures Scanned(dist, firsts, seconds, i + 1, 0, minDistance, firstCenter, secondCenter, ci, cj)
  {
  }

  /**
   * Once all of first × second is scanned, a kept pair is the center pair,
   * and when none is kept there is no center pair.
   */
  lemma ScanResult(dist: (Node, Node) -> int, firsts: seq<Node>, seconds: seq<Node>,
                   minDistance: int, firstCenter: Option<Node>, secondCenter: Option<Node>, ci: int, cj: int)
    requires Scanned(dist, firsts, seconds, |firsts|, 0, minDistance, firstCenter, secondCenter, ci, cj)
    ensures firstCenter.Some? ==> IsCenterPair(dist, firsts, seconds, ci, cj)
    ensures firstCenter.None? ==> forall a, b :: !IsCenterPair(dist, firsts, seconds, a, b)
  {
    if firstCenter.None? {
      assert forall a, b :: 0 <= a < |firsts| && 0 <= b < |seconds| ==> UNREACHABLE <= dist(firsts[a], seconds[b]);
    }
  }

  /**
   * The running candidates after the first k sources: the first report,
   * then intersected with each report in turn (the first report with
   * itself included).
   */
  function RunningCandidates(minNodes: Node -> seq<Node>, sources: seq<Node>, k: nat): seq<Node>
    requires 1 <= k <= |sources|
  {
    if k == 1 then Utils.IntersectBy(minNodes(sources[0]), minNodes(sources[0]), Nodes.Less)
    else Utils.IntersectBy(RunningCandidates(minNodes, sources, k - 1), minNodes(sources[k - 1]), Nodes.Less)
  }

  /** The running candidates are ascending and are exactly the nodes every report so far contains. */
  lemma {:induction false} RunningCandidatesMeaning(minNodes: Node -> seq<Node>, sources: seq<Node>, k: nat, n: Node)
    requires 1 <= k <= |sources| && ReportsAscending(minNodes, sources)
    ensures Utils.SortedBy(RunningCandidates(minNodes, sources, k), Nodes.Less)
    ensures n in RunningCandidates(minNodes, sources, k) <==> InAll(n, minNodes, sources[..k])
  {
    NodeSelections.NodeLessIsStrictTotalOrder();
    assert sources[0] in sources && sources[k - 1] in sources;
    if k == 1 {
      Utils.IntersectByMembership(minNodes(sources[0]), minNodes(sources[0]), Nodes.Less, n);
      IntersectKeepsAscending(minNodes(sources[0]), minNodes(sources[0]));
      assert sources[..1] == [sources[0]];
    } else {
      var before := RunningCandidates(minNodes, sources, k - 1);
      RunningCandidatesMeaning(minNodes, sources, k - 1, n);
      Utils.IntersectByMembership(before, minNodes(sources[k - 1]), Nodes.Less, n);
      IntersectKeepsAscending(before, minNodes(sources[k - 1]));
      InAllOneMore(n, minNodes, sources, k);
    }
  }

  /** A node is in all of the first k reports iff it is in the first k - 1 and in the k-th. */
  lemma InAllOneMore(n: Node, minNodes: Node -> seq<Node>, sources: seq<Node>, k: nat)
    requires 1 < k <= |sources|
    ensures InAll(n, minNodes, sources[..k]) <==> InAll(n, minNodes, sources[..k - 1]) && n in minNodes(sources[k - 1])
  {
    assert sources[..k] == sources[..k - 1] + [sources[k - 1]];
  }

  /** The intersection of ascending node lists is ascending. */
  lemma {:induction false} IntersectKeepsAscending(a: seq<Node>, b: seq<Node>)
    requires Utils.SortedBy(a, Nodes.Less) && Utils.SortedBy(b, Nodes.Less)
    ensures Utils.SortedBy(Utils.IntersectBy(a, b, Nodes.Less), Nodes.Less)
    decreases |a| + |b|
  {
    if a != [] && b != [] {
      assert Utils.SortedBy(a[1..], Nodes.Less) && Utils.SortedBy(b[1..], Nodes.Less);
      if Nodes.Less(a[0], b[0]) {
        IntersectKeepsAscending(a[1..], b);
      } else if Nodes.Less(b[0], a[0]) {
        IntersectKeepsAscending(a, b[1..]);
      } else {
        IntersectKeepsAscending(a[1..], b[1..]);
        var rest := Utils.IntersectBy(a[1..], b[1..], Nodes.Less);
        NodeSelections.NodeLessIsStrictTotalOrder();
        forall k | 0 <= k < |rest|
          ensures !Nodes.Less(rest[k], a[0])
        {
          Utils.IntersectByMembership(a[1..], b[1..], Nodes.Less, rest[k]);
          var m :| 0 <= m < |a[1..]| && a[1..][m] == rest[k];
          assert a[m + 1] == rest[k];
        }
        var r := [a[0]] + rest;
        forall i, j | 0 <= i < j < |r|
          ensures !Nodes.Less(r[j], r[i])
        {
          if i > 0 {
            assert r[i] == rest[i - 1] && r[j] == rest[j - 1];
          }
        }
      }
    }
  }

  /**
   * What `findCenterCandidates` gives: a pair and its distance exactly when
   * some pair is closer than UNREACHABLE and some node is a min-distance
   * node after every source, and then the pair is the center pair.
   */
  ghost predicate IsCenterResult(dist: (Node, Node) -> int, minNodes: Node -> seq<Node>, firsts: seq<Node>, seconds: seq<Node>,
                                 r: Option<(Node, Node, int)>)
  {
    (r.Some? <==> (exists i, j :: IsCenterPair(dist, firsts, seconds, i, j)) && HasCommonCandidate(minNodes, firsts))
    && (r.Some? ==> r.value.2 == dist(r.value.0, r.value.1) && exists i, j ::
          IsCenterPair(dist, firsts, seconds, i, j) && firsts[i] == r.value.0 && seconds[j] == r.value.1)
  }

  /**
   * `findCenterCandidates`: scans first × second keeping the first pair of
   * strictly least distance, and after each source intersects the running
   * candidates with that source's min-distance nodes in second, giving up
   * as soon as they run out. It gives the pair and its distance exactly
   * when some pair is closer than UNREACHABLE and some node is a
   * min-distance node after every source. `firsts` and `seconds` are the
   * nodes of the two cells in the order iterating them visits.
   */
  method FindCenterCandidates(dist: (Node, Node) -> int, minNodes: Node -> seq<Node>, firsts: seq<Node>, seconds: seq<Node>)
    returns (r: Option<(Node, Node, int)>)
    requires ReportsAscending(minNodes, firsts)
    ensures IsCenterResult(dist, minNodes, firsts, seconds, r)
  {
    var minDistance := UNREACHABLE;
    var firstCenter: Option<Node> := None;
    var secondCenter: Option<Node> := None;
    var isFirstRun := true;
    var candidates: seq<Node> := [];
    ghost var ci, cj := 0, 0;
    var i := 0;
    while i < |firsts|
      invariant 0 <= i <= |firsts| && isFirstRun == (i == 0)
      invariant Scanned(dist, firsts, seconds, i, 0, minDistance, firstCenter, secondCenter, ci, cj)
      invariant i > 0 ==> candidates == RunningCandidates(minNodes, firsts, i)
      invariant i > 0 ==> candidates != []
    {
      var from := firsts[i];
      minDistance, firstCenter, secondCenter, ci, cj := ScanRow(dist, firsts, seconds, i, minDistance, firstCenter, secondCenter, ci, cj);
      if isFirstRun {
        candidates := minNodes(from);
        isFirstRun := false;
      }
      candidates := Utils.IntersectBy(candidates, minNodes(from), Nodes.Less);
      assert candidates == RunningCandidates(minNodes, firsts, i + 1);
      if candidates == [] {
        NoCommonCandidate(minNodes, firsts, i + 1);
        return None;
      }
      i := i + 1;
    }
    ScanEnd(dist, minNodes, firsts, seconds, minDistance, firstCenter, secondCenter, ci, cj);
    if firstCenter.None? || secondCenter.None? || minDistance == UNREACHABLE {
      return None;
    }
    return Some((firstCenter.value, secondCenter.value, minDistance));
  }

  /**
   * The end of a scan of all of first × second whose running candidates
   * never ran out: the kept pair, if any, and its distance are the result.
   */
  lemma ScanEnd(dist: (Node, Node) -> int, minNodes: Node -> seq<Node>, firsts: seq<Node>, seconds: seq<Node>,
                minDistance: int, firstCenter: Option<Node>, secondCenter: Option<Node>, ci: int, cj: int)
    requires ReportsAscending(minNodes, firsts)
    requires 1 <= |firsts| ==> RunningCandidates(minNodes, firsts, |firsts|) != []
    requires Scanned(dist, firsts, seconds, |firsts|, 0, minDistance, firstCenter, secondCenter, ci, cj)
    ensures var found := firstCenter.Some? && secondCenter.Some? && minDistance != UNREACHABLE;
      IsCenterResult(dist, minNodes, firsts, seconds,
        if found then Some((firstCenter.value, secondCenter.value, minDistance)) else None)
  {
    if |firsts| == 0 {
      ScanResult(dist, firsts, seconds, minDistance, firstCenter, secondCenter, ci, cj);
    } else {
      CenterFound(dist, minNodes, firsts, seconds, minDistance, firstCenter, secondCenter, ci, cj);
    }
  }

  /**
   * The end of a scan of all of first × second whose running candidates
   * never ran out: there is a common candidate, and a kept pair is the
   * center pair.
   */
  lemma CenterFound(dist: (Node, Node) -> int, minNodes: Node -> seq<Node>, firsts: seq<Node>, seconds: seq<Node>,
                    minDistance: int, firstCenter: Option<Node>, secondCenter: Option<Node>, ci: int, cj: int)
    requires 1 <= |firsts| && ReportsAscending(minNodes, firsts)
    requires RunningCandidates(minNodes, firsts, |firsts|) != []
    requires Scanned(dist, firsts, seconds, |firsts|, 0, minDistance, firstCenter, secondCenter, ci, cj)
    ensures HasCommonCandidate(minNodes, firsts)
    ensures firstCenter.Some? <==> secondCenter.Some?
    ensures firstCenter.Some? <==> minDistance != UNREACHABLE
    ensures firstCenter.Some? <==> exists i, j :: IsCenterPair(dist, firsts, seconds, i, j)
    ensures firstCenter.Some? ==>
      IsCenterPair(dist, firsts, seconds, ci, cj)
      && firsts[ci] == firstCenter.value && seconds[cj] == secondCenter.value
      && minDistance == dist(firstCenter.value, secondCenter.value)
  {
    ScanResult(dist, firsts, seconds, minDistance, firstCenter, secondCenter, ci, cj);
    var candidates := RunningCandidates(minNodes, firsts, |firsts|);
    RunningCandidatesMeaning(minNodes, firsts, |firsts|, candidates[0]);
    assert firsts[..|firsts|] == firsts;
  }

  /** The inner loop of `findCenterCandidates`: the scan of one row, from `firsts[i]` to each node of second. */
  method ScanRow(dist: (Node, Node) -> int, firsts: seq<Node>, seconds: seq<Node>, i: int,
                 minDistance: int, firstCenter: Option<Node>, secondCenter: Option<Node>, ghost ci: int, ghost cj: int)
    returns (m: int, fc: Option<Node>, sc: Option<Node>, ghost ci': int, ghost cj': int)
    requires i < |firsts| && Scanned(dist, firsts, seconds, i, 0, minDistance, firstCenter, secondCenter, ci, cj)
    ensures Scanned(dist, firsts, seconds, i + 1, 0, m, fc, sc, ci', cj')
    ensures m <= minDistance && (m == minDistance ==> fc == firstCenter && sc == secondCenter)
  {
    m, fc, sc, ci', cj' := minDistance, firstCenter, secondCenter, ci, cj;
    var j := 0;
    while j < |seconds|
      invariant 0 <= j <= |seconds| && m <= minDistance && (m == minDistance ==> fc == firstCenter && sc == secondCenter)
      invariant Scanned(dist, firsts, seconds, i, j, m, fc, sc, ci', cj')
    {
      var distance := dist(firsts[i], seconds[j]);
      ScanStep(dist, firsts, seconds, i, j, m, fc, sc, ci', cj');
      if distance < m {
        m, fc, sc := distance, Some(firsts[i]), Some(seconds[j]);
        ci', cj' := i, j;
      }
      j := j + 1;
    }
    RowDone(dist, firsts, seconds, i, m, fc, sc, ci', cj');
  }

  /** When the running candidates run out after k sources, no node is common to all sources. */
  lemma NoCommonCandidate(minNodes: Node -> seq<Node>, sources: seq<Node>, k: nat)
    requires 1 <= k <= |sources| && ReportsAscending(minNodes, sources)
    requires RunningCandidates(minNodes, sources, k) == []
    ensures !HasCommonCandidate(minNodes, sources)
  {
    forall n
      ensures !InAll(n, minNodes, sources)
    {
      RunningCandidatesMeaning(minNodes, sources, k, n);
      assert forall f :: f in sources[..k] ==> f in sources;
    }
  }

  /**
   * The test each pair (s, t) must pass: when a to-center distance (or
   * the center distance) is UNREACHABLE, so must the direct distance be;
   * otherwise the direct distance is at least the distance over both
   * centers.
   */
  predicate PairRoutesOverCenters(dist: (Node, Node) -> int, s: Node, t: Node, c1: Node, c2: Node, d: int)
  {
    if dist(s, c1) == UNREACHABLE || dist(t, c2) == UNREACHABLE || d == UNREACHABLE then dist(s, t) == UNREACHABLE
    else dist(s, t) >= dist(s, c1) + d + dist(t, c2)
  }

  predicate AllPairsRouteOverCenters(dist: (Node, Node) -> int, firsts: seq<Node>, seconds: seq<Node>, c1: Node, c2: Node, d: int)
  {
    forall i, j :: 0 <= i < |firsts| && 0 <= j < |seconds| ==> PairRoutesOverCenters(dist, firsts[i], seconds[j], c1, c2, d)
  }

  /**
   * The to-center distances, as the `std::transform`s collect them: from
   * each node of a cell to its center.
   */
  method DistancesTo(dist: (Node, Node) -> int, nodes: seq<Node>, center: Node) returns (r: seq<int>)
    ensures |r| == |nodes| && forall k :: 0 <= k < |nodes| ==> r[k] == dist(nodes[k], center)
  {
    r := [];
    var k := 0;
    while k < |nodes|
      invariant 0 <= k <= |nodes| && |r| == k
      invariant forall m :: 0 <= m < k ==> r[m] == dist(nodes[m], center)
    {
      r := r + [dist(nodes[k], center)];
      k := k + 1;
    }
  }

  /**
   * The pair loop of `checkSeparation`: every pair of a node of first and
   * a node of second, given the distances of each to its center, passes
   * the test over the centers.
   */
  method AllPairsPass(dist: (Node, Node) -> int, firsts: seq<Node>, seconds: seq<Node>,
                      firstToCenter: seq<int>, secondToCenter: seq<int>, c1: Node, c2: Node, centerDistance: int)
    returns (ok: bool)
    requires |firstToCenter| == |firsts| && forall k :: 0 <= k < |firsts| ==> firstToCenter[k] == dist(firsts[k], c1)
    requires |secondToCenter| == |seconds| && forall k :: 0 <= k < |seconds| ==> secondToCenter[k] == dist(seconds[k], c2)
    ensures ok <==> AllPairsRouteOverCenters(dist, firsts, seconds, c1, c2, centerDistance)
  {
    var i := 0;
    while i < |firsts|
      invariant 0 <= i <= |firsts|
      invariant forall a, b :: 0 <= a < i && 0 <= b < |seconds| ==>
        PairRoutesOverCenters(dist, firsts[a], seconds[b], c1, c2, centerDistance)
    {
      var source := firsts[i];
      var j := 0;
      while j < |seconds|
        invariant 0 <= j <= |seconds|
        invariant forall b :: 0 <= b < j ==> PairRoutesOverCenters(dist, source, seconds[b], c1, c2, centerDistance)
      {
        var target := seconds[j];
        var optimalDistance := dist(source, target);
        if firstToCenter[i] == UNREACHABLE || secondToCenter[j] == UNREACHABLE || centerDistance == UNREACHABLE {
          if optimalDistance == UNREACHABLE {
            j := j + 1;
            continue;
          }
          return false;
        }
        var overCenterDistance := firstToCenter[i] + centerDistance + secondToCenter[j];
        if optimalDistance < overCenterDistance {
          return false;
        }
        j := j + 1;
      }
      i := i + 1;
    }
    return true;
  }

  /**
   * `checkSeparation`: none when one cell contains the other, when no
   * centers are found or when some pair of nodes does not route over
   * them; otherwise the complex separation over the center pair.
   */
  method CheckSeparation(dist: (Node, Node) -> int, minNodes: Node -> seq<Node>, first: GridCell, second: GridCell)
    returns (r: Option<Separations.Separation>)
    requires ReportsAscending(minNodes, CellNodes(first))
    ensures GridCells.IsSubSetOf(first, second) || GridCells.IsSuperSetOf(first, second) ==> r.None?
    ensures r.Some? ==> r.value.Complex? && r.value.first == first && r.value.second == second
    ensures r.Some? ==> HasCommonCandidate(minNodes, CellNodes(first))
    ensures r.Some? ==> r.value.centerDistance == dist(r.value.firstCenter, r.value.secondCenter) && exists i, j ::
      IsCenterPair(dist, CellNodes(first), CellNodes(second), i, j)
      && CellNodes(first)[i] == r.value.firstCenter && CellNodes(second)[j] == r.value.secondCenter
    ensures r.Some? ==> AllPairsRouteOverCenters(dist, CellNodes(first), CellNodes(second),
      r.value.firstCenter, r.value.secondCenter, r.value.centerDistance)
    ensures r.None? && !GridCells.IsSubSetOf(first, second) && !GridCells.IsSuperSetOf(first, second) ==>
      !HasCommonCandidate(minNodes, CellNodes(first)) || forall i, j :: IsCenterPair(dist, CellNodes(first), CellNodes(second), i, j) ==>
        !AllPairsRouteOverCenters(dist, CellNodes(first), CellNodes(second), CellNodes(first)[i], CellNodes(second)[j], dist(CellNodes(first)[i], CellNodes(second)[j]))
  {
    if GridCells.IsSubSetOf(first, second) || GridCells.IsSuperSetOf(first, second) {
      return None;
    }
    var centers := FindCenterCandidates(dist, minNodes, CellNodes(first), CellNodes(second));
    if centers.None? {
      return None;
    }
    var firsts, seconds := CellNodes(first), CellNodes(second);
    var (firstCenter, secondCenter, centerDistance) := centers.value;
    if centerDistance == UNREACHABLE {
      return None;
    }
    var firstToCenter := DistancesTo(dist, firsts, firstCenter);
    var secondToCenter := DistancesTo(dist, seconds, secondCenter);
    var ok := AllPairsPass(dist, firsts, seconds, firstToCenter, secondToCenter, firstCenter, secondCenter, centerDistance);
    if !ok {
      ghost var ci, cj :| IsCenterPair(dist, firsts, seconds, ci, cj) && firsts[ci] == firstCenter && seconds[cj] == secondCenter;
      forall a, b | IsCenterPair(dist, firsts, seconds, a, b)
        ensures a == ci && b == cj
      {
        CenterPairIsUnique(dist, firsts, seconds, a, b, ci, cj);
      }
      return None;
    }
    return Some(Separations.Complex(first, second, firstCenter, secondCenter, centerDistance));
  }
}
