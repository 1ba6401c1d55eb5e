/**
 * The viewer's drawing rules (UI/python/view.py). The window is sized from
 * the graph's dimensions, every node is a square of the scale's side, and
 * the picture is the grid, then the left, right and center nodes of the
 * selection, each drawn over what came before.
 *
 * Tk is not part of this model: the canvas is the sequence of rectangles
 * `create_rectangle` is called with, in order, and a node shows the fill of
 * the last square drawn at it.
 */
module ViewerViews {
  import opened Wrappers
  import ViewerGraphs
  import Arithmetic

  datatype Colour = White | Gray | SpringGreen | DarkGreen | DeepSkyBlue | Navy | Red

  /** One `create_rectangle(x0, y0, x1, y1, fill=...)` call. */
  datatype Rectangle = Rectangle(x0: int, y0: int, x1: int, y1: int, fill: Colour)

  function Max(a: int, b: int): int
  {
    if a >= b then a else b
  }

  /**
   * `scale_factor`: 650 divided by the larger dimension, rounded down
   * (Python `//` on positive numbers), but at least 3. A zero-sized graph
   * raises ZeroDivisionError, which the caller must rule out.
   */
  function ScaleFactor(width: nat, height: nat): nat
    requires width > 0 || height > 0
  {
    var side := Max(width, height);
    Max(650 / side, 3)
  }

  /**
   * The scale is at least 3. It is 3 exactly when four squares of the
   * larger dimension overflow 650 pixels; otherwise it is the largest
   * side for which the larger dimension fits into 650 pixels.
   */
  lemma ScaleFactorMeaning(width: nat, height: nat)
    requires width > 0 || height > 0
    ensures ScaleFactor(width, height) >= 3
    ensures ScaleFactor(width, height) == 3 <==> 4 * Max(width, height) > 650
    ensures ScaleFactor(width, height) > 3 ==>
      ScaleFactor(width, height) * Max(width, height) <= 650 < (ScaleFactor(width, height) + 1) * Max(width, height)
  {
    var side, s := Max(width, height), ScaleFactor(width, height);
    var q := 650 / side;
    assert 650 == side * q + 650 % side;
    if 4 * side > 650 {
      Arithmetic.MulMonotone(side, 4, q);
    } else {
      Arithmetic.DivAtLeast(650, side, 4);
    }
    if s > 3 {
      assert s == q;
      assert s * side == side * q;
      assert (s + 1) * side == side * q + side;
    }
  }

  /** The canvas width: the larger dimension times the scale, at most 900 pixels. */
  function CanvasWidth(width: nat, height: nat): nat
    requires width > 0 || height > 0
  {
    var full := Max(height, width) * ScaleFactor(width, height);
    if 900 <= full then 900 else full
  }

  /**
   * The canvas is between 1 and 900 pixels wide, cut short only when the
   * whole graph would be wider, and when the scale is above 3 the whole
   * graph fits into 650 pixels.
   */
  lemma CanvasWidthMeaning(width: nat, height: nat)
    requires width > 0 || height > 0
    ensures 0 < CanvasWidth(width, height) <= 900
    ensures CanvasWidth(width, height) < Max(width, height) * ScaleFactor(width, height) ==> CanvasWidth(width, height) == 900
    ensures ScaleFactor(width, height) > 3 ==> CanvasWidth(width, height) == Max(width, height) * ScaleFactor(width, height) <= 650
  {
    ScaleFactorMeaning(width, height);
    var side, s := Max(width, height), ScaleFactor(width, height);
    assert Max(height, width) == side;
    Arithmetic.MulMonotone(side, 1, s);
  }

  /**
   * `draw_node`: the square of side `scale` whose corner is the node
   * scaled, the node's first coordinate (its row) along x.
   */
  function DrawNode(scale: nat, node: ViewerGraphs.Coordinate, fill: Colour): Rectangle
  {
    Rectangle(scale * node.0, scale * node.1, scale * node.0 + scale, scale * node.1 + scale, fill)
  }

  /** The square drawn for a node has the scale as its side, and squares of different nodes do not overlap. */
  lemma SquaresTile(scale: nat, p: ViewerGraphs.Coordinate, q: ViewerGraphs.Coordinate, f: Colour, g: Colour)
    requires scale > 0
    ensures DrawNode(scale, p, f).x1 - DrawNode(scale, p, f).x0 == scale == DrawNode(scale, p, f).y1 - DrawNode(scale, p, f).y0
    ensures p != q ==> var a, b := DrawNode(scale, p, f), DrawNode(scale, q, g);
      a.x1 <= b.x0 || b.x1 <= a.x0 || a.y1 <= b.y0 || b.y1 <= a.y0
  {
    if p.0 < q.0 {
      SpanEndsBefore(scale, p.0, q.0);
    } else if q.0 < p.0 {
      SpanEndsBefore(scale, q.0, p.0);
    } else if p.1 < q.1 {
      SpanEndsBefore(scale, p.1, q.1);
    } else if q.1 < p.1 {
      SpanEndsBefore(scale, q.1, p.1);
    }
  }

  /** Along one axis, the span of a smaller coordinate ends where a larger one's may begin at the earliest. */
  lemma SpanEndsBefore(scale: nat, a: int, b: int)
    requires a < b
    ensures scale * a + scale <= scale * b
  {
    Arithmetic.MulMonotone(scale, a + 1, b);
    assert scale * (a + 1) == scale * a + scale;
  }

  /** The rectangle is the square drawn for the node. */
  predicate IsSquareOf(r: Rectangle, scale: nat, node: ViewerGraphs.Coordinate)
  {
    r.x0 == scale * node.0 && r.y0 == scale * node.1
  }

  /** With a positive scale a square belongs to one node only. */
  lemma SquareOfOneNode(scale: nat, p: ViewerGraphs.Coordinate, q: ViewerGraphs.Coordinate, f: Colour)
    requires scale > 0 && IsSquareOf(DrawNode(scale, q, f), scale, p)
    ensures p == q
  {
    if p.0 != q.0 {
      Arithmetic.SmallMultipleIsZero(p.0 - q.0, scale);
    }
    if p.1 != q.1 {
      Arithmetic.SmallMultipleIsZero(p.1 - q.1, scale);
    }
  }

  /** What a node shows once the rectangles are drawn in order: the fill of the last one drawn at it. */
  function FinalFill(drawn: seq<Rectangle>, scale: nat, node: ViewerGraphs.Coordinate): Option<Colour>
  {
    if drawn == [] then None
    else if IsSquareOf(drawn[|drawn| - 1], scale, node) then Some(drawn[|drawn| - 1].fill)
    else FinalFill(drawn[..|drawn| - 1], scale, node)
  }

  /** Drawing more shows the later fill wherever the later rectangles reach. */
  lemma {:induction false} FinalFillOfAppend(a: seq<Rectangle>, b: seq<Rectangle>, scale: nat, node: ViewerGraphs.Coordinate)
    ensures FinalFill(a + b, scale, node) == if FinalFill(b, scale, node).Some? then FinalFill(b, scale, node) else FinalFill(a, scale, node)
  {
    if b == [] {
      assert a + b == a;
    } else {
      FinalFillOfAppend(a, b[..|b| - 1], scale, node);
      assert (a + b)[..|a + b| - 1] == a + b[..|b| - 1];
    }
  }

  /** Squares drawn for nodes, one per node with its own fill: a node shows the fill of its last square. */
  lemma {:induction false} FinalFillOfSquares(nodes: seq<ViewerGraphs.Coordinate>, fills: seq<Colour>, scale: nat, node: ViewerGraphs.Coordinate)
    requires scale > 0 && |fills| == |nodes|
    ensures var drawn := seq(|nodes|, k requires 0 <= k < |nodes| => DrawNode(scale, nodes[k], fills[k]));
      (node !in nodes ==> FinalFill(drawn, scale, node).None?)
      && (node in nodes ==> exists k :: 0 <= k < |nodes| && nodes[k] == node && FinalFill(drawn, scale, node) == Some(fills[k]))
  {
    var drawn := seq(|nodes|, k requires 0 <= k < |nodes| => DrawNode(scale, nodes[k], fills[k]));
    if nodes != [] {
      var n := |nodes| - 1;
      FinalFillOfSquares(nodes[..n], fills[..n], scale, node);
      assert drawn[..n] == seq(n, k requires 0 <= k < n => DrawNode(scale, nodes[..n][k], fills[..n][k]));
      if IsSquareOf(drawn[n], scale, node) {
        SquareOfOneNode(scale, node, nodes[n], fills[n]);
      } else {
        assert nodes == nodes[..n] + [nodes[n]];
        if node in nodes[..n] {
          var k :| 0 <= k < n && nodes[..n][k] == node && FinalFill(drawn[..n], scale, node) == Some(fills[..n][k]);
          assert nodes[k] == node && fills[k] == fills[..n][k];
        }
      }
    }
  }

  /** The grid cell fill: white when walkable, gray otherwise. */
  function CellColour(walkable: bool): Colour
  {
    if walkable then White else Gray
  }

  /** The squares of one row of the grid, left to right. */
  function RowSquares(scale: nat, row: int, cells: seq<bool>): seq<Rectangle>
  {
    seq(|cells|, c requires 0 <= c < |cells| => DrawNode(scale, (row, c), CellColour(cells[c])))
  }

  /** The squares of the grid, row after row. */
  function GridSquares(scale: nat, rows: seq<seq<bool>>): seq<Rectangle>
  {
    if rows == [] then []
    else GridSquares(scale, rows[..|rows| - 1]) + RowSquares(scale, |rows| - 1, rows[|rows| - 1])
  }

  /** A row's squares show each of its cells in white or gray, and nothing else. */
  lemma RowSquaresFill(scale: nat, row: int, cells: seq<bool>, node: ViewerGraphs.Coordinate)
    requires scale > 0
    ensures node.0 == row && 0 <= node.1 < |cells| ==> FinalFill(RowSquares(scale, row, cells), scale, node) == Some(CellColour(cells[node.1]))
    ensures !(node.0 == row && 0 <= node.1 < |cells|) ==> FinalFill(RowSquares(scale, row, cells), scale, node).None?
  {
    var nodes := seq(|cells|, c requires 0 <= c < |cells| => (row, c));
    var fills := seq(|cells|, c requires 0 <= c < |cells| => CellColour(cells[c]));
    FinalFillOfSquares(nodes, fills, scale, node);
    assert RowSquares(scale, row, cells) == seq(|nodes|, k requires 0 <= k < |nodes| => DrawNode(scale, nodes[k], fills[k]));
    if node.0 == row && 0 <= node.1 < |cells| {
      assert nodes[node.1] == node;
    }
  }

  /** The node is a cell of the grid's rows. */
  predicate InGrid(rows: seq<seq<bool>>, node: ViewerGraphs.Coordinate)
  {
    0 <= node.0 < |rows| && 0 <= node.1 < |rows[node.0]|
  }

  /** The grid shows every cell of every row in white or gray, and nothing outside the rows. */
  lemma {:induction false} GridSquaresFill(scale: nat, rows: seq<seq<bool>>, node: ViewerGraphs.Coordinate)
    requires scale > 0
    ensures InGrid(rows, node) ==> FinalFill(GridSquares(scale, rows), scale, node) == Some(CellColour(rows[node.0][node.1]))
    ensures !InGrid(rows, node) ==> FinalFill(GridSquares(scale, rows), scale, node).None?
  {
    if rows != [] {
      var n := |rows| - 1;
      var above, last := GridSquares(scale, rows[..n]), RowSquares(scale, n, rows[n]);
      assert GridSquares(scale, rows) == above + last;
      GridSquaresFill(scale, rows[..n], node);
      FinalFillOfAppend(above, last, scale, node);
      RowSquaresFill(scale, n, rows[n], node);
      GridFillStep(rows, node, FinalFill(above, scale, node), FinalFill(last, scale, node));
    }
  }

  /** The fill of the grid from the fill of all rows but the last and the fill of the last row. */
  lemma GridFillStep(rows: seq<seq<bool>>, node: ViewerGraphs.Coordinate, above: Option<Colour>, last: Option<Colour>)
    requires rows != []
    requires var n := |rows| - 1;
      (InGrid(rows[..n], node) ==> above == Some(CellColour(rows[..n][node.0][node.1])))
      && (!InGrid(rows[..n], node) ==> above.None?)
      && (node.0 == n && 0 <= node.1 < |rows[n]| ==> last == Some(CellColour(rows[n][node.1])))
      && (!(node.0 == n && 0 <= node.1 < |rows[n]|) ==> last.None?)
    ensures var fill := if last.Some? then last else above;
      (InGrid(rows, node) ==> fill == Some(CellColour(rows[node.0][node.1])))
      && (!InGrid(rows, node) ==> fill.None?)
  {
    var n := |rows| - 1;
    if 0 <= node.0 < n {
      assert rows[..n][node.0] == rows[node.0];
    }
  }

  /** `draw_graph`: a square per cell, row by row and left to right in each row. */
  method DrawGraph(g: ViewerGraphs.Graph, scale: nat) returns (drawn: seq<Rectangle>)
    ensures drawn == GridSquares(scale, g.nodes)
  {
    var rows := g.nodes;
    drawn := [];
    var row := 0;
    while row < |rows|
      invariant 0 <= row <= |rows| && drawn == GridSquares(scale, rows[..row])
    {
      var nested := rows[row];
      var column := 0;
      ghost var before := drawn;
      while column < |nested|
        invariant 0 <= column <= |nested| && drawn == before + RowSquares(scale, row, nested[..column])
      {
        var walkable := nested[column];
        if walkable {
          drawn := drawn + [DrawNode(scale, (row, column), White)];
        } else {
          drawn := drawn + [DrawNode(scale, (row, column), Gray)];
        }
        assert RowSquares(scale, row, nested[..column + 1]) == RowSquares(scale, row, nested[..column]) + [DrawNode(scale, (row, column), CellColour(walkable))];
        column := column + 1;
      }
      assert nested[..column] == nested;
      assert rows[..row + 1][..row] == rows[..row];
      row := row + 1;
    }
    assert rows[..row] == rows;
  }

  function LeftColour(walkable: bool): Colour
  {
    if walkable then SpringGreen else DarkGreen
  }

  function RightColour(walkable: bool): Colour
  {
    if walkable then DeepSkyBlue else Navy
  }

  /** The squares of some selection nodes, each filled by its walkability in the graph. */
  function SelectionSquares(g: ViewerGraphs.Graph, scale: nat, nodes: seq<ViewerGraphs.Coordinate>, colour: bool -> Colour): seq<Rectangle>
    reads g
  {
    seq(|nodes|, k requires 0 <= k < |nodes| reads g => DrawNode(scale, nodes[k], colour(g.IsWalkable(nodes[k].0, nodes[k].1))))
  }

  /** The squares of the centers, all red. */
  function CenterSquares(scale: nat, nodes: seq<ViewerGraphs.Coordinate>): seq<Rectangle>
  {
    seq(|nodes|, k requires 0 <= k < |nodes| => DrawNode(scale, nodes[k], Red))
  }

  /**
   * `draw_selection`: the left nodes in green, the right nodes in blue,
   * each light when walkable and dark otherwise, then the centers in red.
   */
  method DrawSelection(g: ViewerGraphs.Graph, sel: ViewerGraphs.NodeSelection, scale: nat) returns (drawn: seq<Rectangle>)
    ensures drawn == SelectionSquares(g, scale, sel.leftNodes, LeftColour)
      + SelectionSquares(g, scale, sel.rightNodes, RightColour) + CenterSquares(scale, sel.centers)
  {
    var left, right, centers := sel.leftNodes, sel.rightNodes, sel.centers;
    drawn := [];
    var k := 0;
    while k < |left|
      invariant 0 <= k <= |left| && drawn == SelectionSquares(g, scale, left[..k], LeftColour)
    {
      var node := left[k];
      if g.IsWalkable(node.0, node.1) {
        drawn := drawn + [DrawNode(scale, node, SpringGreen)];
      } else {
        drawn := drawn + [DrawNode(scale, node, DarkGreen)];
      }
      assert left[..k + 1] == left[..k] + [node];
      k := k + 1;
    }
    assert left[..k] == left;
    ghost var afterLeft := drawn;
    k := 0;
    while k < |right|
      invariant 0 <= k <= |right| && drawn == afterLeft + SelectionSquares(g, scale, right[..k], RightColour)
    {
      var node := right[k];
      if g.IsWalkable(node.0, node.1) {
        drawn := drawn + [DrawNode(scale, node, DeepSkyBlue)];
      } else {
        drawn := drawn + [DrawNode(scale, node, Navy)];
      }
      assert right[..k + 1] == right[..k] + [node];
      k := k + 1;
    }
    assert right[..k] == right;
    ghost var afterRight := drawn;
    k := 0;
    while k < |centers|
      invariant 0 <= k <= |centers| && drawn == afterRight + CenterSquares(scale, centers[..k])
    {
      drawn := drawn + [DrawNode(scale, centers[k], Red)];
      assert centers[..k + 1] == centers[..k] + [centers[k]];
      k := k + 1;
    }
    assert centers[..k] == centers;
  }

  /** `draw_model`: the canvas cleared, then the grid, then the selection over it. */
  method DrawModel(g: ViewerGraphs.Graph, sel: ViewerGraphs.NodeSelection, scale: nat) returns (drawn: seq<Rectangle>)
    ensures drawn == GridSquares(scale, g.nodes) + SelectionSquares(g, scale, sel.leftNodes, LeftColour)
      + SelectionSquares(g, scale, sel.rightNodes, RightColour) + CenterSquares(scale, sel.centers)
  {
    var grid := DrawGraph(g, scale);
    var selection := DrawSelection(g, sel, scale);
    drawn := grid + selection;
  }

  /** Walkability as the viewer reads it for a selection node. */
  predicate Walkable(g: ViewerGraphs.Graph, node: ViewerGraphs.Coordinate)
    reads g
  {
    g.IsWalkable(node.0, node.1)
  }

  /**
   * What the finished picture shows at a node: red at a center; else
   * blue at a right node and green at a left node, light when walkable
   * and dark otherwise; else the grid's white or gray inside the grid, and
   * nothing outside it.
   */
  lemma ModelFill(g: ViewerGraphs.Graph, sel: ViewerGraphs.NodeSelection, scale: nat, node: ViewerGraphs.Coordinate)
    requires scale > 0
    ensures var shown := FinalFill(GridSquares(scale, g.nodes) + SelectionSquares(g, scale, sel.leftNodes, LeftColour)
      + SelectionSquares(g, scale, sel.rightNodes, RightColour) + CenterSquares(scale, sel.centers), scale, node);
      (node in sel.centers ==> shown == Some(Red))
      && (node !in sel.centers && node in sel.rightNodes ==> shown == Some(RightColour(Walkable(g, node))))
      && (node !in sel.centers && node !in sel.rightNodes && node in sel.leftNodes ==> shown == Some(LeftColour(Walkable(g, node))))
      && (node !in sel.centers && node !in sel.rightNodes && node !in sel.leftNodes ==>
            (InGrid(g.nodes, node) ==> shown == Some(CellColour(g.nodes[node.0][node.1])))
            && (!InGrid(g.nodes, node) ==> shown.None?))
  {
    var grid := GridSquares(scale, g.nodes);
    var lefts := SelectionSquares(g, scale, sel.leftNodes, LeftColour);
    var rights := SelectionSquares(g, scale, sel.rightNodes, RightColour);
    var centers := CenterSquares(scale, sel.centers);
    FinalFillOfAppend(grid + lefts + rights, centers, scale, node);
    FinalFillOfAppend(grid + lefts, rights, scale, node);
    FinalFillOfAppend(grid, lefts, scale, node);
    SameFillSquares(g, scale, sel.leftNodes, LeftColour, node);
    SameFillSquares(g, scale, sel.rightNodes, RightColour, node);
    RedSquares(scale, sel.centers, node);
    GridSquaresFill(scale, g.nodes, node);
  }

  /** Selection squares show, at each of their nodes, the colour of its walkability, and nothing elsewhere. */
  lemma SameFillSquares(g: ViewerGraphs.Graph, scale: nat, nodes: seq<ViewerGraphs.Coordinate>, colour: bool -> Colour, node: ViewerGraphs.Coordinate)
    requires scale > 0
    ensures node in nodes ==> FinalFill(SelectionSquares(g, scale, nodes, colour), scale, node) == Some(colour(Walkable(g, node)))
    ensures node !in nodes ==> FinalFill(SelectionSquares(g, scale, nodes, colour), scale, node).None?
  {
    var fills := seq(|nodes|, k requires 0 <= k < |nodes| reads g => colour(Walkable(g, nodes[k])));
    FinalFillOfSquares(nodes, fills, scale, node);
    assert SelectionSquares(g, scale, nodes, colour) == seq(|nodes|, k requires 0 <= k < |nodes| => DrawNode(scale, nodes[k], fills[k]));
  }

  /** The centers' squares show red at every center and nothing elsewhere. */
  lemma RedSquares(scale: nat, nodes: seq<ViewerGraphs.Coordinate>, node: ViewerGraphs.Coordinate)
    requires scale > 0
    ensures node in nodes ==> FinalFill(CenterSquares(scale, nodes), scale, node) == Some(Red)
    ensures node !in nodes ==> FinalFill(CenterSquares(scale, nodes), scale, node).None?
  {
    var fills := seq(|nodes|, k requires 0 <= k < |nodes| => Red);
    FinalFillOfSquares(nodes, fills, scale, node);
    assert CenterSquares(scale, nodes) == seq(|nodes|, k requires 0 <= k < |nodes| => DrawNode(scale, nodes[k], fills[k]));
  }
}
