/**
 * graph::GridGraph (src/graph/GridGraph.cpp): a rectangular grid of
 * walkable and barrier nodes, stored row after row in one flat vector,
 * together with the neighbour calculator that decides which nodes are
 * adjacent. Also `parseFileToGridGraph`, which reads the grid from the
 * lines of a map file.
 */
module GridGraphs {
  import opened Nodes
  import opened GridCorners
  import opened GridCells
  import opened NeigbourCalculators
  import opened Wrappers
  import opened Arithmetic

  /**
   * `grid_` holds the rows one after another; `height` is the number of rows
   * and `width` the length of the first row. Sizes of vectors are modelled
   * as unbounded naturals.
   */
  datatype GridGraph = GridGraph(grid: seq<bool>, height: nat, width: nat, calculator: NeigbourCalculator)

  /** The flat vector holds exactly height rows of width entries. */
  predicate Valid(g: GridGraph)
  {
    |g.grid| == g.height * g.width
  }

  /** At least one row, all rows as long as the first. */
  predicate IsGrid(rows: seq<seq<bool>>)
  {
    |rows| > 0 && forall i :: 0 <= i < |rows| ==> |rows[i]| == |rows[0]|
  }

  /** Where row r, column c of a grid of the given width sits in the flat vector. */
  function RowMajor(width: int, r: int, c: int): int
  {
    r * width + c
  }

  /** g stores rows row-major: row r, column c sits at r * width + c. */
  predicate StoresRows(g: GridGraph, rows: seq<seq<bool>>)
    requires IsGrid(rows)
  {
    g.height == |rows| && g.width == |rows[0]| && Valid(g)
    && forall r, c :: 0 <= r < |rows| && 0 <= c < |rows[0]| ==>
      0 <= RowMajor(g.width, r, c) < |g.grid| && g.grid[RowMajor(g.width, r, c)] == rows[r][c]
  }

  /** The first i rows sit row-major in grid. */
  ghost predicate HoldsRows(grid: seq<bool>, rows: seq<seq<bool>>, i: nat)
    requires IsGrid(rows) && i <= |rows|
  {
    |grid| == i * |rows[0]|
    && forall r, c :: 0 <= r < i && 0 <= c < |rows[0]| ==>
      0 <= RowMajor(|rows[0]|, r, c) < |grid| && grid[RowMajor(|rows[0]|, r, c)] == rows[r][c]
  }

  /** Appending row i to the first i rows gives the first i + 1 rows. */
  lemma AppendRow(grid: seq<bool>, rows: seq<seq<bool>>, i: nat)
    requires IsGrid(rows) && i < |rows| && HoldsRows(grid, rows, i)
    ensures HoldsRows(grid + rows[i], rows, i + 1)
  {
    var w := |rows[0]|;
    var next := grid + rows[i];
    assert |next| == (i + 1) * w;
    forall r, c | 0 <= r < i + 1 && 0 <= c < w
      ensures 0 <= RowMajor(w, r, c) < |next| && next[RowMajor(w, r, c)] == rows[r][c]
    {
      MulNonNegative(r, w);
      RowMajorBelow(r, c, w, i + 1);
      if r < i {
        RowMajorBelow(r, c, w, i);
      }
    }
  }

  /** The constructor: height and width from the rows, the rows appended one after another. */
  method NewGridGraph(rows: seq<seq<bool>>, calculator: NeigbourCalculator) returns (g: GridGraph)
    requires IsGrid(rows)
    ensures StoresRows(g, rows)
    ensures g.calculator == calculator
  {
    var grid: seq<bool> := [];
    var i := 0;
    while i < |rows|
      invariant 0 <= i <= |rows|
      invariant HoldsRows(grid, rows, i)
    {
      AppendRow(grid, rows, i);
      grid := grid + rows[i];
      i := i + 1;
    }
    g := GridGraph(grid, |rows|, |rows[0]|, calculator);
    AllRowsHeld(g, rows);
  }

  /** A grid holding all the rows, as tall and as wide as they are, stores them. */
  lemma AllRowsHeld(g: GridGraph, rows: seq<seq<bool>>)
    requires IsGrid(rows) && HoldsRows(g.grid, rows, |rows|)
    requires g.height == |rows| && g.width == |rows[0]|
    ensures StoresRows(g, rows)
  {
    forall r, c | 0 <= r < |rows| && 0 <= c < |rows[0]|
      ensures 0 <= RowMajor(g.width, r, c) < |g.grid| && g.grid[RowMajor(g.width, r, c)] == rows[r][c]
    {
      HeldEntry(g.grid, rows, r, c);
    }
  }

  /** One entry of a grid holding all the rows. */
  lemma HeldEntry(grid: seq<bool>, rows: seq<seq<bool>>, r: int, c: int)
    requires IsGrid(rows) && HoldsRows(grid, rows, |rows|)
    requires 0 <= r < |rows| && 0 <= c < |rows[0]|
    ensures 0 <= RowMajor(|rows[0]|, r, c) < |grid| && grid[RowMajor(|rows[0]|, r, c)] == rows[r][c]
  {
    var entry := rows[r][c];
    assert grid[RowMajor(|rows[0]|, r, c)] == entry;
  }

  /** `nodeToIndex`: the position of a node in the flat vector. */
  function NodeToIndex(g: GridGraph, n: Node): int
  {
    n.row * g.width + n.column
  }

  /** `isWalkableNode`: false outside the grid, otherwise the stored entry. */
  predicate IsWalkableNode(g: GridGraph, n: Node)
    requires Valid(g)
  {
    if n.row >= g.height then false
    else if n.column >= g.width then false
    else
      RowMajorBelow(n.row, n.column, g.width, g.height);
      g.grid[NodeToIndex(g, n)]
  }

  /** `isBarrier`: the negation of `isWalkableNode`. */
  predicate IsBarrier(g: GridGraph, n: Node)
    requires Valid(g)
  {
    !IsWalkableNode(g, n)
  }

  /**
   * A node of a graph built from rows is walkable exactly when it lies
   * inside the rows and its entry is true; every other node is a barrier.
   */
  lemma WalkableIsStoredEntry(g: GridGraph, rows: seq<seq<bool>>, n: Node)
    requires IsGrid(rows) && StoresRows(g, rows)
    ensures IsWalkableNode(g, n) <==> n.row < |rows| && n.column < |rows[0]| && rows[n.row][n.column]
    ensures IsBarrier(g, n) <==> !(n.row < |rows| && n.column < |rows[0]| && rows[n.row][n.column])
  {
    var r, c := n.row as int, n.column as int;
    if r < |rows| && c < |rows[0]| {
      assert 0 <= RowMajor(g.width, r, c) < |g.grid| && g.grid[RowMajor(g.width, r, c)] == rows[r][c];
      assert IsWalkableNode(g, n) == g.grid[RowMajor(g.width, r, c)];
    }
  }

  /** std::remove_if / std::copy_if with `isWalkableNode`: the walkable entries, in order. */
  function FilterWalkable(g: GridGraph, s: seq<Node>): (r: seq<Node>)
    requires Valid(g)
    ensures |r| <= |s|
    ensures forall n :: n in r <==> n in s && IsWalkableNode(g, n)
  {
    if |s| == 0 then []
    else
      assert s == [s[0]] + s[1..];
      (if IsWalkableNode(g, s[0]) then [s[0]] else []) + FilterWalkable(g, s[1..])
  }

  /** Filtering keeps the order: a strictly increasing sequence stays strictly increasing. */
  lemma {:induction false} FilterWalkableKeepsOrder(g: GridGraph, s: seq<Node>)
    requires Valid(g)
    requires forall i, j :: 0 <= i < j < |s| ==> Nodes.Less(s[i], s[j])
    ensures forall i, j :: 0 <= i < j < |FilterWalkable(g, s)| ==>
      Nodes.Less(FilterWalkable(g, s)[i], FilterWalkable(g, s)[j])
  {
    if |s| > 0 {
      var rest := FilterWalkable(g, s[1..]);
      FilterWalkableKeepsOrder(g, s[1..]);
      if IsWalkableNode(g, s[0]) {
        var r := [s[0]] + rest;
        assert r == FilterWalkable(g, s);
        forall i, j | 0 <= i < j < |r|
          ensures Nodes.Less(r[i], r[j])
        {
          if i == 0 {
            assert rest[j - 1] in s[1..];
            var k :| 0 <= k < |s[1..]| && s[1..][k] == rest[j - 1];
            assert s[k + 1] == r[j];
          } else {
            assert r[i] == rest[i - 1] && r[j] == rest[j - 1];
          }
        }
      }
    }
  }

  /** std::count_if with `isWalkableNode`. */
  function CountWalkable(g: GridGraph, s: seq<Node>): nat
    requires Valid(g)
  {
    if |s| == 0 then 0
    else (if IsWalkableNode(g, s[0]) then 1 else 0) + CountWalkable(g, s[1..])
  }

  /** The count is the length of the filtered sequence. */
  lemma {:induction false} CountWalkableIsFilterLength(g: GridGraph, s: seq<Node>)
    requires Valid(g)
    ensures CountWalkable(g, s) == |FilterWalkable(g, s)|
  {
    if |s| > 0 {
      CountWalkableIsFilterLength(g, s[1..]);
    }
  }

  /** The count falls short of the length iff some entry is a barrier. */
  lemma {:induction false} CountWalkableBelowLength(g: GridGraph, s: seq<Node>)
    requires Valid(g)
    ensures CountWalkable(g, s) <= |s|
    ensures CountWalkable(g, s) < |s| <==> exists n :: n in s && IsBarrier(g, n)
  {
    if |s| > 0 {
      CountWalkableBelowLength(g, s[1..]);
      if IsBarrier(g, s[0]) {
        assert s[0] in s;
      } else if exists n :: n in s && IsBarrier(g, n) {
        var n :| n in s && IsBarrier(g, n);
        assert n in s[1..];
      } else {
        forall n | n in s[1..]
          ensures !IsBarrier(g, n)
        {
          assert n in s;
        }
      }
    }
  }

  /**
   * The count is the number of walkable entries: positive iff one exists,
   * below the length iff a barrier exists.
   */
  lemma CountWalkableMeaning(g: GridGraph, s: seq<Node>)
    requires Valid(g)
    ensures CountWalkable(g, s) == |FilterWalkable(g, s)| <= |s|
    ensures CountWalkable(g, s) > 0 <==> exists n :: n in s && IsWalkableNode(g, n)
    ensures CountWalkable(g, s) < |s| <==> exists n :: n in s && IsBarrier(g, n)
  {
    CountWalkableIsFilterLength(g, s);
    CountWalkableBelowLength(g, s);
    var r := FilterWalkable(g, s);
    if |r| > 0 {
      assert r[0] in r;
    }
  }

  /** `getWalkableNeigbours`: the calculator's neighbours of n, barriers removed. */
  function GetWalkableNeigbours(g: GridGraph, n: Node): seq<Node>
    requires Valid(g)
  {
    FilterWalkable(g, CalculateNeigbours(g.calculator, n))
  }

  /** `areNeighbours`: the calculator's neighbour relation. */
  predicate AreNeighbours(g: GridGraph, first: Node, second: Node)
  {
    IsNeigbourOf(g.calculator, first, second)
  }

  /**
   * The walkable neighbours of n are exactly the walkable nodes that
   * `areNeighbours` relates to n; n itself is never among them.
   */
  lemma WalkableNeigboursMeaning(g: GridGraph, n: Node, m: Node)
    requires Valid(g)
    ensures m in GetWalkableNeigbours(g, n) <==> AreNeighbours(g, n, m) && IsWalkableNode(g, m)
    ensures n !in GetWalkableNeigbours(g, n)
  {
    IsNeigbourOfIffListed(g.calculator, n, m);
    NotOwnNeigbour(g.calculator, n);
  }

  /** `getAllWalkableNodesOfCell`: the cell's nodes, in iteration order, barriers removed. */
  function GetAllWalkableNodesOfCell(g: GridGraph, c: GridCell): seq<Node>
    requires Valid(g)
  {
    FilterWalkable(g, CellNodes(c))
  }

  /**
   * For a valid cell: exactly the walkable nodes inside the cell, each once,
   * in increasing (row, column) order, as many as `countNumberOfWalkableNodes`.
   */
  lemma WalkableNodesOfCellMeaning(g: GridGraph, c: GridCell)
    requires Valid(g) && IsValid(c)
    ensures forall n :: n in GetAllWalkableNodesOfCell(g, c) <==> IsInCell(c, n) && IsWalkableNode(g, n)
    ensures forall i, j :: 0 <= i < j < |GetAllWalkableNodesOfCell(g, c)| ==>
      Nodes.Less(GetAllWalkableNodesOfCell(g, c)[i], GetAllWalkableNodesOfCell(g, c)[j])
    ensures |GetAllWalkableNodesOfCell(g, c)| == CountNumberOfWalkableNodes(g, c)
  {
    CellNodesAreTheCell(c);
    FilterWalkableKeepsOrder(g, CellNodes(c));
    CountWalkableMeaning(g, CellNodes(c));
  }

  /** `hasWalkableNode`: std::any_of over the cell with `isWalkableNode`. */
  predicate HasWalkableNode(g: GridGraph, c: GridCell)
    requires Valid(g)
  {
    exists n :: n in CellNodes(c) && IsWalkableNode(g, n)
  }

  /** `countNumberOfWalkableNodes`: std::count_if over the cell with `isWalkableNode`. */
  function CountNumberOfWalkableNodes(g: GridGraph, c: GridCell): nat
    requires Valid(g)
  {
    CountWalkable(g, CellNodes(c))
  }

  /**
   * A valid cell has a walkable node iff its count is positive, and the
   * count never exceeds the cell's size.
   */
  lemma HasWalkableNodeIffCountPositive(g: GridGraph, c: GridCell)
    requires Valid(g) && IsValid(c)
    ensures HasWalkableNode(g, c) <==> CountNumberOfWalkableNodes(g, c) > 0
    ensures HasWalkableNode(g, c) <==> exists n :: IsInCell(c, n) && IsWalkableNode(g, n)
    ensures CountNumberOfWalkableNodes(g, c) <= Size(c)
  {
    CellNodesAreTheCell(c);
    CountWalkableMeaning(g, CellNodes(c));
  }

  /**
   * `hasBarrier` as written: the same std::any_of with `isWalkableNode` as
   * `hasWalkableNode`, so it answers whether the cell has a walkable node.
   */
  predicate HasBarrierAsWritten(g: GridGraph, c: GridCell)
    requires Valid(g)
  {
    exists n :: n in CellNodes(c) && IsWalkableNode(g, n)
  }

  /** `hasBarrier` as its name and callers mean it: some node of the cell is a barrier. */
  predicate HasBarrier(g: GridGraph, c: GridCell)
    requires Valid(g)
  {
    exists n :: n in CellNodes(c) && IsBarrier(g, n)
  }

  /**
   * A valid cell has a barrier iff some node inside it is a barrier, iff
   * fewer than all of its nodes are walkable.
   */
  lemma HasBarrierIffCountBelowSize(g: GridGraph, c: GridCell)
    requires Valid(g) && IsValid(c)
    ensures HasBarrier(g, c) <==> exists n :: IsInCell(c, n) && IsBarrier(g, n)
    ensures HasBarrier(g, c) <==> CountNumberOfWalkableNodes(g, c) < Size(c)
  {
    CellNodesAreTheCell(c);
    CountWalkableMeaning(g, CellNodes(c));
  }

  /** A one-node graph whose only node is walkable. */
  function OpenGraph(): (g: GridGraph)
    ensures Valid(g) && g.height == 1 && g.width == 1
  {
    GridGraph([true], 1, 1, Manhattan)
  }

  /** The cell holding just node (0, 0). */
  function OriginCell(): (c: GridCell)
    ensures IsValid(c) && IsInCell(c, Node(0, 0))
  {
    ToI32InRange(0);
    GridCell(MakeCorner(0, 0), MakeCorner(0, 0), MakeCorner(0, 0), MakeCorner(0, 0))
  }

  /** In a graph without barriers, `hasBarrier` as written still answers true. */
  lemma HasBarrierAsWrittenReportsOpenCell()
    ensures HasBarrierAsWritten(OpenGraph(), OriginCell())
    ensures !HasBarrier(OpenGraph(), OriginCell())
    ensures forall n :: !IsBarrier(OpenGraph(), n) <==> n == Node(0, 0)
  {
    var g, c := OpenGraph(), OriginCell();
    OpenGraphOnlyNode();
    OriginCellOnlyNode();
    assert Node(0, 0) in CellNodes(c) && IsWalkableNode(g, Node(0, 0));
    forall n | n in CellNodes(c)
      ensures !IsBarrier(g, n)
    {
    }
  }

  /** The one-node graph's only walkable node is (0, 0). */
  lemma OpenGraphOnlyNode()
    ensures forall n :: !IsBarrier(OpenGraph(), n) <==> n == Node(0, 0)
  {
    var g := OpenGraph();
    forall n
      ensures !IsBarrier(g, n) <==> n == Node(0, 0)
    {
      if n.row == 0 && n.column == 0 {
        assert NodeToIndex(g, n) == 0;
      }
    }
  }

  /** The origin cell holds node (0, 0) and nothing else. */
  lemma OriginCellOnlyNode()
    ensures forall n :: n in CellNodes(OriginCell()) <==> n == Node(0, 0)
  {
    var c := OriginCell();
    CellNodesAreTheCell(c);
    forall n
      ensures n in CellNodes(c) <==> n == Node(0, 0)
    {
      if n in CellNodes(c) {
        InCellCoordinates(c, n);
      }
    }
  }

  /** A `std::size_t` reinterpreted as `std::int64_t`. */
  function ToI64(x: u64): int
  {
    if x <= 0x7FFF_FFFF_FFFF_FFFF then x else x - (SIZE_MAX + 1)
  }

  /**
   * `wrapGraphInCell`: corners (0, 0) and (height - 1, width - 1), the
   * borders computed in `std::size_t`, cast to `std::int64_t` and stored in
   * the `int32` corner coordinates.
   */
  function WrapGraphInCell(g: GridGraph): GridCell
  {
    var right := ToI64(ToSize(g.width - 1));
    var bottom := ToI64(ToSize(g.height - 1));
    GridCell(MakeCorner(0, 0), MakeCorner(0, right), MakeCorner(bottom, 0), MakeCorner(bottom, right))
  }

  /**
   * For a graph whose sides fit the corners' `int32`, the wrapping cell is
   * valid iff the graph has a node; then it is the rectangle of the graph's
   * own size whose nodes are exactly the graph's nodes.
   */
  lemma WrapGraphInCellSpansGraph(g: GridGraph)
    requires g.height <= I32_MAX + 1 && g.width <= I32_MAX + 1
    ensures IsValid(WrapGraphInCell(g)) <==> g.height >= 1 && g.width >= 1
    ensures g.height >= 1 && g.width >= 1 ==>
      var c := WrapGraphInCell(g);
      IsRectangle(c) && Width(c) == g.width && Height(c) == g.height
      && forall n :: IsInCell(c, n) <==> n.row < g.height && n.column < g.width
  {
    ToI32InRange(0);
    ToI32InRange(-1);
    ToSizeOfSize(0);
    if g.width >= 1 {
      ToSizeOfSize(g.width - 1);
      ToI32InRange(g.width - 1);
    }
    if g.height >= 1 {
      ToSizeOfSize(g.height - 1);
      ToI32InRange(g.height - 1);
    }
  }

  /** `end()` of the graph: index width * height, in `std::size_t`. */
  function EndIndex(g: GridGraph): u64
  {
    ToSize(g.width * g.height)
  }

  /** A line that is neither empty nor of the header's width makes the parse fail. */
  predicate BadLine(width: nat, line: string)
  {
    |line| != width && |line| != 0
  }

  /** std::transform of a line: '.' is walkable, every other character a barrier. */
  function ToCells(line: string): (r: seq<bool>)
    ensures |r| == |line|
  {
    seq(|line|, i requires 0 <= i < |line| => line[i] == '.')
  }

  /** The rows the parser keeps: the lines of exactly the header's width, converted. */
  function KeptRows(width: nat, lines: seq<string>): (r: seq<seq<bool>>)
    ensures forall i :: 0 <= i < |r| ==> |r[i]| == width
    ensures |r| <= |lines|
  {
    if |lines| == 0 then []
    else
      var last := lines[|lines| - 1];
      KeptRows(width, lines[..|lines| - 1]) + (if |last| == width then [ToCells(last)] else [])
  }

  /**
   * `parseFileToGridGraph`, from the lines after the header on: width is
   * the header's width. A line neither empty nor of that width makes it
   * fail; the kept rows make up the graph. With no row kept the source
   * reads past the end of an empty vector; here the parse fails instead.
   */
  method ParseGridGraph(width: nat, lines: seq<string>, calculator: NeigbourCalculator)
    returns (r: Option<GridGraph>)
    ensures r.None? <==>
      (exists i :: 0 <= i < |lines| && BadLine(width, lines[i])) || |KeptRows(width, lines)| == 0
    ensures r.Some? ==>
      IsGrid(KeptRows(width, lines)) && StoresRows(r.value, KeptRows(width, lines))
      && r.value.calculator == calculator
  {
    var grid: seq<seq<bool>> := [];
    var i := 0;
    while i < |lines|
      invariant 0 <= i <= |lines|
      invariant grid == KeptRows(width, lines[..i])
      invariant forall k :: 0 <= k < i ==> !BadLine(width, lines[k])
    {
      var line := lines[i];
      if |line| != width && |line| != 0 {
        return None;
      }
      var gridLine := ToCells(line);
      if |gridLine| == width {
        grid := grid + [gridLine];
      }
      assert lines[..i + 1][..i] == lines[..i];
      i := i + 1;
    }
    assert lines[..i] == lines;
    if |grid| == 0 {
      return None;
    }
    var g := NewGridGraph(grid, calculator);
    return Some(g);
  }

  /** The map-file line of a row: '.' for walkable, '@' for a barrier. */
  function RenderRow(row: seq<bool>): (line: string)
    ensures |line| == |row|
  {
    seq(|row|, i requires 0 <= i < |row| => if row[i] then '.' else '@')
  }

  function Render(rows: seq<seq<bool>>): (lines: seq<string>)
    ensures |lines| == |rows|
  {
    seq(|rows|, i requires 0 <= i < |rows| => RenderRow(rows[i]))
  }

  /**
   * Parsing the rendering of rows of one width gives those rows back, and
   * no rendered line makes the parse fail.
   */
  lemma {:induction false} ParseRenderRoundTrip(width: nat, rows: seq<seq<bool>>)
    requires forall i :: 0 <= i < |rows| ==> |rows[i]| == width
    ensures forall i :: 0 <= i < |Render(rows)| ==> !BadLine(width, Render(rows)[i])
    ensures KeptRows(width, Render(rows)) == rows
  {
    if |rows| > 0 {
      var init := rows[..|rows| - 1];
      ParseRenderRoundTrip(width, init);
      assert Render(rows)[..|rows| - 1] == Render(init);
      var last := rows[|rows| - 1];
      assert ToCells(RenderRow(last)) == last;
      assert rows == init + [last];
    }
  }
}
