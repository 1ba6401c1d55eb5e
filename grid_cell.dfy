/**
 * graph::GridCell (src/graph/GridCell.cpp): a cell of the grid given by its
 * four corners. Widths, heights and sizes are `std::size_t`, so they wrap
 * modulo 2^64; node coordinates are built from `std::size_t` plus `int32`
 * corner coordinates and wrap the same way.
 *
 * The nodes of a cell, as its iterator visits them, are `cell[idx]` for
 * idx in [0, width * height), row-major.
 */
module GridCells {
  import opened Nodes
  import opened GridCorners
  import opened Wrappers
  import Utils
  import opened Arithmetic

  datatype GridCell = GridCell(
    topLeft: GridCorner,
    topRight: GridCorner,
    bottomLeft: GridCorner,
    bottomRight: GridCorner)

  /** `operator==`: the four corners are pairwise equal. */
  predicate Equal(a: GridCell, b: GridCell)
  {
    GridCorners.Equal(a.topLeft, b.topLeft)
    && GridCorners.Equal(a.topRight, b.topRight)
    && GridCorners.Equal(a.bottomLeft, b.bottomLeft)
    && GridCorners.Equal(a.bottomRight, b.bottomRight)
  }

  /** `operator!=` */
  predicate NotEqual(a: GridCell, b: GridCell)
  {
    !Equal(a, b)
  }

  lemma EqualIsIdentity(a: GridCell, b: GridCell)
    ensures Equal(a, b) <==> a == b
    ensures NotEqual(a, b) <==> a != b
  {
  }

  /** `getWidth`: right column minus left column plus one, as `std::size_t`. */
  function Width(c: GridCell): u64
  {
    ToSize(c.topRight.column - c.topLeft.column + 1)
  }

  /** `getHeight`: bottom row minus top row plus one, as `std::size_t`. */
  function Height(c: GridCell): u64
  {
    ToSize(c.bottomLeft.row - c.topLeft.row + 1)
  }

  /** `size`: height times width, as `std::size_t`. */
  function Size(c: GridCell): u64
  {
    ToSize(Height(c) * Width(c))
  }

  /**
   * `isValid`: the top corners share a row, the bottom corners share a row,
   * right columns are not left of left columns, and no coordinate is negative.
   * It does not ask the left (or right) corners to share a column.
   */
  predicate IsValid(c: GridCell)
  {
    c.topRight.row == c.topLeft.row
    && c.topRight.column >= c.topLeft.column
    && c.topLeft.row <= c.bottomLeft.row
    && c.bottomLeft.row == c.bottomRight.row
    && c.bottomRight.column >= c.bottomLeft.column
    && c.topLeft.row >= 0 && c.topLeft.column >= 0
    && c.topRight.row >= 0 && c.topRight.column >= 0
    && c.bottomLeft.row >= 0 && c.bottomLeft.column >= 0
    && c.bottomRight.row >= 0 && c.bottomRight.column >= 0
  }

  /** A valid cell whose corners form an axis-aligned rectangle. */
  predicate IsRectangle(c: GridCell)
  {
    IsValid(c)
    && c.topLeft.column == c.bottomLeft.column
    && c.topRight.column == c.bottomRight.column
  }

  /** For valid cells width and height do not wrap, and neither exceeds 2^31. */
  lemma ValidSides(c: GridCell)
    requires IsValid(c)
    ensures Width(c) == c.topRight.column - c.topLeft.column + 1 && 1 <= Width(c) <= 0x8000_0000
    ensures Height(c) == c.bottomLeft.row - c.topLeft.row + 1 && 1 <= Height(c) <= 0x8000_0000
  {
  }

  /** For valid cells nothing wraps: width, height and size are the plain integers. */
  lemma ValidDimensions(c: GridCell)
    requires IsValid(c)
    ensures Width(c) == c.topRight.column - c.topLeft.column + 1 >= 1
    ensures Height(c) == c.bottomLeft.row - c.topLeft.row + 1 >= 1
    ensures Size(c) == Width(c) * Height(c)
  {
    var w := c.topRight.column - c.topLeft.column + 1;
    var h := c.bottomLeft.row - c.topLeft.row + 1;
    assert 1 <= w <= 0x8000_0000 && 1 <= h <= 0x8000_0000;
    MulBound(h, w, 0x8000_0000);
  }

  /**
   * `operator[]`: the idx-th node in row-major order, with the row
   * `floor(idx / width)` and the column `idx % width`. The division by the
   * width needs a non-zero width.
   */
  function Index(c: GridCell, idx: u64): Node
    requires Width(c) > 0
  {
    var w := Width(c);
    Node(ToSize(idx / w + c.topLeft.row), ToSize(idx % w + c.topLeft.column))
  }

  /** `isInCell`: the node lies between the corners' rows and columns, each cast to `std::size_t`. */
  predicate IsInCell(c: GridCell, n: Node)
  {
    n.row >= ToSize(c.topLeft.row)
    && n.row <= ToSize(c.bottomLeft.row)
    && n.column >= ToSize(c.topLeft.column)
    && n.column <= ToSize(c.topRight.column)
  }

  /** In a valid cell no corner coordinate is negative, so the casts change nothing. */
  lemma InCellCoordinates(c: GridCell, n: Node)
    requires IsValid(c)
    ensures IsInCell(c, n) <==>
      c.topLeft.row <= n.row <= c.bottomLeft.row && c.topLeft.column <= n.column <= c.topRight.column
  {
    ToSizeOfSize(c.topLeft.row);
    ToSizeOfSize(c.bottomLeft.row);
    ToSizeOfSize(c.topLeft.column);
    ToSizeOfSize(c.topRight.column);
  }

  /** The row-major position of a node of a valid cell; the inverse of `Index`. */
  function IndexOf(c: GridCell, n: Node): int
  {
    (n.row - c.topLeft.row) * (c.topRight.column - c.topLeft.column + 1) + (n.column - c.topLeft.column)
  }

  lemma IndexRowBelowHeight(c: GridCell, idx: u64)
    requires IsValid(c) && idx < Size(c)
    ensures Width(c) > 0 && idx / Width(c) < Height(c)
  {
    ValidDimensions(c);
    DivBelow(idx, Width(c), Height(c));
  }

  /** The row and column of `cell[idx]` for a row inside a valid cell; nothing wraps. */
  lemma IndexValue(c: GridCell, idx: u64)
    requires IsValid(c) && Width(c) > 0 && idx / Width(c) < Height(c)
    ensures Index(c, idx).row == c.topLeft.row + idx / Width(c) && Index(c, idx).column == c.topLeft.column + idx % Width(c)
  {
    var w := Width(c);
    var q, m := idx / w, idx % w;
    assert Index(c, idx) == Node(ToSize(q + c.topLeft.row), ToSize(m + c.topLeft.column));
    assert 0 <= q + c.topLeft.row <= SIZE_MAX by {
      ValidSides(c);
      DivModBounds(idx, w);
    }
    assert 0 <= m + c.topLeft.column <= SIZE_MAX by {
      ValidSides(c);
      DivModBounds(idx, w);
    }
    ToSizeOfSize(q + c.topLeft.row);
    ToSizeOfSize(m + c.topLeft.column);
  }

  /**
   * For idx below the size of a valid cell, `cell[idx]` is the node
   * (top row + idx / width, left column + idx % width); it lies in the cell
   * and `IndexOf` gives idx back.
   */
  lemma IndexInCell(c: GridCell, idx: u64)
    requires IsValid(c) && idx < Size(c)
    ensures Width(c) > 0
    ensures Index(c, idx).row == c.topLeft.row + idx / Width(c) && Index(c, idx).column == c.topLeft.column + idx % Width(c)
    ensures IsInCell(c, Index(c, idx))
    ensures IndexOf(c, Index(c, idx)) == idx
  {
    IndexRowBelowHeight(c, idx);
    IndexValue(c, idx);
    ValidSides(c);
    var w := Width(c);
    var q, m := idx / w, idx % w;
    DivModBounds(idx, w);
    var n := Node(c.topLeft.row + q, c.topLeft.column + m);
    InCellCoordinates(c, n);
    IndexOfValue(c, n, q, m);
  }

  /** The position of the node q rows and m columns from the top-left corner is q * width + m. */
  lemma IndexOfValue(c: GridCell, n: Node, q: int, m: int)
    requires n.row == c.topLeft.row + q && n.column == c.topLeft.column + m
    ensures IndexOf(c, n) == q * (c.topRight.column - c.topLeft.column + 1) + m
  {
  }

  /** Every node of a valid cell is `cell[idx]` for exactly the idx that `IndexOf` gives. */
  lemma IndexOfInCell(c: GridCell, n: Node)
    requires IsValid(c) && IsInCell(c, n)
    ensures Width(c) > 0
    ensures 0 <= IndexOf(c, n) < Size(c)
    ensures Index(c, IndexOf(c, n) as u64) == n
  {
    ValidDimensions(c);
    InCellCoordinates(c, n);
    var w, h := Width(c), Height(c);
    var q, m := n.row - c.topLeft.row, n.column - c.topLeft.column;
    assert 0 <= q < h && 0 <= m < w;
    RowMajorBelow(q, m, w, h);
    DivModOf(q * w + m, q, m, w);
  }

  /** `cell[idx]` visits the nodes of a valid cell in increasing `Node` order. */
  lemma IndexIsIncreasing(c: GridCell, i: u64, j: u64)
    requires IsValid(c) && i < j < Size(c)
    ensures Width(c) > 0
    ensures Nodes.Less(Index(c, i), Index(c, j))
  {
    IndexInCell(c, i);
    IndexInCell(c, j);
    RowMajorOrder(i, j, Width(c));
  }

  /** `isSplitable`: width and height are both at least 2 and even. */
  predicate IsSplitable(c: GridCell)
  {
    Width(c) >= 2 && Height(c) >= 2 && Width(c) % 2 == 0 && Height(c) % 2 == 0
  }

  /** `isAtomic`: the cell is one node wide and one node high. */
  predicate IsAtomic(c: GridCell)
  {
    Width(c) == 1 && Height(c) == 1
  }

  /** A valid cell is atomic exactly when it holds one node. */
  lemma AtomicMeansOneNode(c: GridCell)
    requires IsValid(c)
    ensures IsAtomic(c) <==> Size(c) == 1
  {
    ValidDimensions(c);
    var w, h := Width(c), Height(c);
    MulMonotone(h, 1, w);
    MulMonotone(w, 1, h);
  }

  /** A splitable valid cell holds a positive multiple of four nodes. */
  lemma SplitableSize(c: GridCell)
    requires IsValid(c) && IsSplitable(c)
    ensures Size(c) >= 4 && Size(c) % 4 == 0
  {
    ValidDimensions(c);
    var hw, hh := Width(c) / 2, Height(c) / 2;
    assert Size(c) == (2 * hw) * (2 * hh) == 4 * (hw * hh);
    MulMonotone(hw, 1, hh);
  }

  /** `isSuperSetOf`: compares all eight corner coordinates. */
  predicate IsSuperSetOf(a: GridCell, other: GridCell)
  {
    a.topLeft.row <= other.topLeft.row
    && a.topLeft.column <= other.topLeft.column
    && a.bottomLeft.row >= other.bottomLeft.row
    && a.bottomLeft.column <= other.bottomLeft.column
    && a.bottomRight.row >= other.bottomRight.row
    && a.bottomRight.column >= other.bottomRight.column
    && a.topRight.row <= other.topRight.row
    && a.topRight.column >= other.topRight.column
  }

  /** `isSubSetOf`: the mirror image of `isSuperSetOf`. */
  predicate IsSubSetOf(a: GridCell, other: GridCell)
  {
    a.topLeft.row >= other.topLeft.row
    && a.topLeft.column >= other.topLeft.column
    && a.bottomLeft.row <= other.bottomLeft.row
    && a.bottomLeft.column >= other.bottomLeft.column
    && a.bottomRight.row <= other.bottomRight.row
    && a.bottomRight.column <= other.bottomRight.column
    && a.topRight.row >= other.topRight.row
    && a.topRight.column <= other.topRight.column
  }

  /** `a.isSuperSetOf(b)` iff `b.isSubSetOf(a)`; both are reflexive. */
  lemma SuperSetIsConverseOfSubSet(a: GridCell, b: GridCell)
    ensures IsSuperSetOf(a, b) <==> IsSubSetOf(b, a)
    ensures IsSuperSetOf(a, a) && IsSubSetOf(a, a)
  {
  }

  /** For rectangles, the corner test of `isSubSetOf` means exactly that every node of a is a node of b. */
  lemma SubSetMeansNodeContainment(a: GridCell, b: GridCell)
    requires IsRectangle(a) && IsRectangle(b)
    ensures IsSubSetOf(a, b) <==> (forall n :: IsInCell(a, n) ==> IsInCell(b, n))
  {
    if IsSubSetOf(a, b) {
      forall n | IsInCell(a, n) ensures IsInCell(b, n) {
        InCellCoordinates(a, n);
        InCellCoordinates(b, n);
      }
    }
    if forall n :: IsInCell(a, n) ==> IsInCell(b, n) {
      var first := Node(a.topLeft.row, a.topLeft.column);
      var last := Node(a.bottomLeft.row, a.topRight.column);
      InCellCoordinates(a, first);
      InCellCoordinates(a, last);
      InCellCoordinates(b, first);
      InCellCoordinates(b, last);
    }
  }

  /** Whether the row and column ranges of two cells overlap. */
  predicate Overlaps(a: GridCell, b: GridCell)
  {
    a.topLeft.row <= b.bottomLeft.row && b.topLeft.row <= a.bottomLeft.row
    && a.topLeft.column <= b.topRight.column && b.topLeft.column <= a.topRight.column
  }

  /** `hasCommonNodeWith`: some node visited by the other cell's iterator lies in this cell. */
  predicate HasCommonNodeWith(a: GridCell, other: GridCell)
  {
    Width(other) > 0 && exists idx: u64 :: idx < Size(other) && IsInCell(a, Index(other, idx))
  }

  /** For rectangles, two cells share a node exactly when their ranges overlap. */
  lemma CommonNodeMeansOverlap(a: GridCell, b: GridCell)
    requires IsRectangle(a) && IsRectangle(b)
    ensures HasCommonNodeWith(a, b) <==> Overlaps(a, b)
  {
    ValidDimensions(b);
    if HasCommonNodeWith(a, b) {
      var idx: u64 :| idx < Size(b) && IsInCell(a, Index(b, idx));
      IndexInCell(b, idx);
      InCellCoordinates(a, Index(b, idx));
      InCellCoordinates(b, Index(b, idx));
    }
    if Overlaps(a, b) {
      var n := Node(Utils.Max2(a.topLeft.row, b.topLeft.row), Utils.Max2(a.topLeft.column, b.topLeft.column));
      InCellCoordinates(a, n);
      InCellCoordinates(b, n);
      IndexOfInCell(b, n);
      var idx := IndexOf(b, n) as u64;
      assert idx < Size(b) && IsInCell(a, Index(b, idx));
    }
  }

  /**
   * `getNodeAt` as written: it rejects a column that is not below the width
   * or not below the height, and never looks at the row.
   */
  function GetNodeAt(c: GridCell, row: u64, column: u64): Option<Node>
  {
    if Width(c) <= column || Height(c) <= column then None
    else Some(Node(ToSize(row + c.topLeft.row), ToSize(column + c.topLeft.column)))
  }

  /** A one-row, two-column cell: its node in column 1 is refused, and row 5 is accepted. */
  lemma GetNodeAtChecksTheWrongBound()
    ensures IsValid(WideCell()) && IsInCell(WideCell(), Node(0, 1))
    ensures GetNodeAt(WideCell(), 0, 1) == None
    ensures GetNodeAt(WideCell(), 5, 0) == Some(Node(5, 0)) && !IsInCell(WideCell(), Node(5, 0))
  {
  }

  /** The cell spanning (0,0) to (0,1). */
  function WideCell(): (c: GridCell)
    ensures Width(c) == 2 && Height(c) == 1
  {
    GridCell(GridCorner(0, 0), GridCorner(0, 1), GridCorner(0, 0), GridCorner(0, 1))
  }

  /** `getNodeAt` with the row checked against the height, as its use intends. */
  function GetNodeAtChecked(c: GridCell, row: u64, column: u64): Option<Node>
  {
    if Width(c) <= column || Height(c) <= row then None
    else Some(Node(ToSize(row + c.topLeft.row), ToSize(column + c.topLeft.column)))
  }

  /**
   * On a valid cell the checked lookup finds a node exactly for a row below the
   * height and a column below the width; the node lies in the cell and is
   * `cell[row * width + column]`.
   */
  lemma GetNodeAtCheckedIsInCell(c: GridCell, row: u64, column: u64)
    requires IsValid(c)
    ensures GetNodeAtChecked(c, row, column).Some? <==> row < Height(c) && column < Width(c)
    ensures GetNodeAtChecked(c, row, column).Some? ==>
      IsInCell(c, GetNodeAtChecked(c, row, column).value)
      && IndexOf(c, GetNodeAtChecked(c, row, column).value) == row * Width(c) + column
  {
    ValidDimensions(c);
    if row < Height(c) && column < Width(c) {
      var n := Node(row + c.topLeft.row, column + c.topLeft.column);
      ToSizeOfSize(row + c.topLeft.row);
      ToSizeOfSize(column + c.topLeft.column);
      InCellCoordinates(c, n);
    }
  }

  /** The corner (row, column) of two 64-bit integers, truncated to 32 bits. */
  function Corner(row: int, column: int): GridCorner
  {
    MakeCorner(row, column)
  }

  /** The four corners of a rectangle whose sides fit in 32 bits are not truncated. */
  lemma RectangleExact(top: int, left: int, bottom: int, right: int)
    requires I32_MIN <= top <= bottom <= I32_MAX && I32_MIN <= left <= right <= I32_MAX
    ensures Corner(top, left) == GridCorner(top, left) && Corner(top, right) == GridCorner(top, right)
    ensures Corner(bottom, left) == GridCorner(bottom, left) && Corner(bottom, right) == GridCorner(bottom, right)
  {
    ToI32InRange(top);
    ToI32InRange(left);
    ToI32InRange(bottom);
    ToI32InRange(right);
  }

  /**
   * `split`: the four quadrants top-left, top-right, bottom-left and
   * bottom-right, cut after half the column span and half the row span
   * (`std::floor` of a non-negative or negative half is the division below).
   */
  function Split(c: GridCell): (r: seq<GridCell>)
    ensures |r| == 4
  {
    var halfWidth := (c.topRight.column - c.topLeft.column) / 2;
    var halfHeight := (c.bottomLeft.row - c.topLeft.row) / 2;
    var tl, tr, bl, br := c.topLeft, c.topRight, c.bottomLeft, c.bottomRight;
    [
      GridCell(
        Corner(tl.row, tl.column),
        Corner(tr.row, tl.column + halfWidth),
        Corner(tl.row + halfHeight, tl.column),
        Corner(tl.row + halfHeight, bl.column + halfWidth)),
      GridCell(
        Corner(tl.row, tl.column + halfWidth + 1),
        Corner(tr.row, tr.column),
        Corner(tl.row + halfHeight, tl.column + halfWidth + 1),
        Corner(tl.row + halfHeight, tr.column)),
      GridCell(
        Corner(tl.row + halfHeight + 1, bl.column),
        Corner(tl.row + halfHeight + 1, tl.column + halfWidth),
        Corner(bl.row, bl.column),
        Corner(br.row, tl.column + halfWidth)),
      GridCell(
        Corner(tl.row + halfHeight + 1, tl.column + halfWidth + 1),
        Corner(tl.row + halfHeight + 1, br.column),
        Corner(bl.row, tl.column + halfWidth + 1),
        Corner(br.row, br.column))
    ]
  }

  /** The quadrants of a rectangle, with the corner values spelled out (no truncation occurs). */
  lemma SplitCorners(c: GridCell)
    requires IsRectangle(c) && IsSplitable(c)
    ensures var hw, hh := (c.topRight.column - c.topLeft.column) / 2, (c.bottomLeft.row - c.topLeft.row) / 2;
      var top, left := c.topLeft.row, c.topLeft.column;
      var bottom, right := c.bottomLeft.row, c.topRight.column;
      Split(c) == [
        GridCell(GridCorner(top, left), GridCorner(top, left + hw),
                 GridCorner(top + hh, left), GridCorner(top + hh, left + hw)),
        GridCell(GridCorner(top, left + hw + 1), GridCorner(top, right),
                 GridCorner(top + hh, left + hw + 1), GridCorner(top + hh, right)),
        GridCell(GridCorner(top + hh + 1, left), GridCorner(top + hh + 1, left + hw),
                 GridCorner(bottom, left), GridCorner(bottom, left + hw)),
        GridCell(GridCorner(top + hh + 1, left + hw + 1), GridCorner(top + hh + 1, right),
                 GridCorner(bottom, left + hw + 1), GridCorner(bottom, right))
      ]
  {
    SplitLeftQuadrants(c);
    SplitRightQuadrants(c);
  }

  /** The top-left and bottom-left quadrants, spelled out. */
  lemma SplitLeftQuadrants(c: GridCell)
    requires IsRectangle(c) && IsSplitable(c)
    ensures var hw, hh := (c.topRight.column - c.topLeft.column) / 2, (c.bottomLeft.row - c.topLeft.row) / 2;
      var top, left, bottom := c.topLeft.row, c.topLeft.column, c.bottomLeft.row;
      Split(c)[0] == GridCell(GridCorner(top, left), GridCorner(top, left + hw),
                              GridCorner(top + hh, left), GridCorner(top + hh, left + hw))
      && Split(c)[2] == GridCell(GridCorner(top + hh + 1, left), GridCorner(top + hh + 1, left + hw),
                                 GridCorner(bottom, left), GridCorner(bottom, left + hw))
  {
    var hw, hh := (c.topRight.column - c.topLeft.column) / 2, (c.bottomLeft.row - c.topLeft.row) / 2;
    var top, left := c.topLeft.row, c.topLeft.column;
    var bottom, right := c.bottomLeft.row, c.topRight.column;
    assert 0 <= hw && left + hw + 1 <= right && 0 <= hh && top + hh + 1 <= bottom by { ValidSides(c); }
    RectangleExact(top, left, top + hh, left + hw);
    RectangleExact(top + hh + 1, left, bottom, left + hw);
  }

  /** The top-right and bottom-right quadrants, spelled out. */
  lemma SplitRightQuadrants(c: GridCell)
    requires IsRectangle(c) && IsSplitable(c)
    ensures var hw, hh := (c.topRight.column - c.topLeft.column) / 2, (c.bottomLeft.row - c.topLeft.row) / 2;
      var top, left := c.topLeft.row, c.topLeft.column;
      var bottom, right := c.bottomLeft.row, c.topRight.column;
      Split(c)[1] == GridCell(GridCorner(top, left + hw + 1), GridCorner(top, right),
                              GridCorner(top + hh, left + hw + 1), GridCorner(top + hh, right))
      && Split(c)[3] == GridCell(GridCorner(top + hh + 1, left + hw + 1), GridCorner(top + hh + 1, right),
                                 GridCorner(bottom, left + hw + 1), GridCorner(bottom, right))
  {
    var hw, hh := (c.topRight.column - c.topLeft.column) / 2, (c.bottomLeft.row - c.topLeft.row) / 2;
    var top, left := c.topLeft.row, c.topLeft.column;
    var bottom, right := c.bottomLeft.row, c.topRight.column;
    assert 0 <= hw && left + hw + 1 <= right && 0 <= hh && top + hh + 1 <= bottom by { ValidSides(c); }
    RectangleExact(top, left + hw + 1, top + hh, right);
    RectangleExact(top + hh + 1, left + hw + 1, bottom, right);
  }

  /** Each quadrant of a splitable rectangle is a rectangle inside it, half as wide and half as high. */
  lemma QuadrantShape(c: GridCell, k: nat)
    requires IsRectangle(c) && IsSplitable(c) && k < 4
    ensures IsRectangle(Split(c)[k]) && IsSubSetOf(Split(c)[k], c)
    ensures Width(Split(c)[k]) == Width(c) / 2 && Height(Split(c)[k]) == Height(c) / 2
  {
    SplitCorners(c);
    ValidDimensions(c);
    var q := Split(c)[k];
    assert IsRectangle(q);
    ValidDimensions(q);
  }

  /** Each quadrant of a splitable rectangle holds a quarter of its nodes. */
  lemma QuadrantSize(c: GridCell, k: nat)
    requires IsRectangle(c) && IsSplitable(c) && k < 4
    ensures Size(Split(c)[k]) == Size(c) / 4
  {
    QuadrantShape(c, k);
    var q := Split(c)[k];
    ValidDimensions(c);
    ValidDimensions(q);
    QuarterProduct(Width(c), Height(c));
  }

  /**
   * `split` of a valid splitable rectangle gives four valid rectangles, each
   * a subset of it, each half as wide and half as high, with sizes summing
   * to its size.
   */
  lemma SplitQuadrants(c: GridCell)
    requires IsRectangle(c) && IsSplitable(c)
    ensures forall q :: q in Split(c) ==>
      IsRectangle(q) && IsSubSetOf(q, c)
      && Width(q) == Width(c) / 2 && Height(q) == Height(c) / 2
    ensures Size(Split(c)[0]) + Size(Split(c)[1]) + Size(Split(c)[2]) + Size(Split(c)[3]) == Size(c)
  {
    QuadrantShape(c, 0);
    QuadrantShape(c, 1);
    QuadrantShape(c, 2);
    QuadrantShape(c, 3);
    QuadrantSize(c, 0);
    QuadrantSize(c, 1);
    QuadrantSize(c, 2);
    QuadrantSize(c, 3);
    SplitableSize(c);
  }

  /** The quadrants of a splitable rectangle tile it: each of its nodes lies in exactly one quadrant. */
  lemma SplitTiles(c: GridCell, n: Node)
    requires IsRectangle(c) && IsSplitable(c)
    ensures IsInCell(c, n) <==> exists k :: 0 <= k < 4 && IsInCell(Split(c)[k], n)
    ensures forall k, l :: 0 <= k < l < 4 ==> !(IsInCell(Split(c)[k], n) && IsInCell(Split(c)[l], n))
  {
    SplitLeftQuadrants(c);
    SplitRightQuadrants(c);
    ValidDimensions(c);
    if IsInCell(c, n) {
      var hw, hh := (c.topRight.column - c.topLeft.column) / 2, (c.bottomLeft.row - c.topLeft.row) / 2;
      var k := (if n.row <= c.topLeft.row + hh then 0 else 2) + (if n.column <= c.topLeft.column + hw then 0 else 1);
      assert IsInCell(Split(c)[k], n);
    }
  }

  /**
   * `merge`: the cell whose corners take the least or greatest of the four
   * cells' matching corner coordinates, outward in each direction.
   */
  function Merge(first: GridCell, second: GridCell, third: GridCell, fourth: GridCell): GridCell
  {
    GridCell(
      GridCorner(
        Utils.MinOf([first.topLeft.row, second.topLeft.row, third.topLeft.row, fourth.topLeft.row]),
        Utils.MinOf([first.topLeft.column, second.topLeft.column, third.topLeft.column, fourth.topLeft.column])),
      GridCorner(
        Utils.MinOf([first.topRight.row, second.topRight.row, third.topRight.row, fourth.topRight.row]),
        Utils.MaxOf([first.topRight.column, second.topRight.column, third.topRight.column, fourth.topRight.column])),
      GridCorner(
        Utils.MaxOf([first.bottomLeft.row, second.bottomLeft.row, third.bottomLeft.row, fourth.bottomLeft.row]),
        Utils.MinOf([first.bottomLeft.column, second.bottomLeft.column, third.bottomLeft.column, fourth.bottomLeft.column])),
      GridCorner(
        Utils.MaxOf([first.bottomRight.row, second.bottomRight.row, third.bottomRight.row, fourth.bottomRight.row]),
        Utils.MaxOf([first.bottomRight.column, second.bottomRight.column, third.bottomRight.column, fourth.bottomRight.column])))
  }

  /**
   * `merge` gives the least cover: each of the four cells is a subset of the
   * result, and any cell that is a superset of all four is a superset of it.
   */
  lemma MergeIsLeastCover(first: GridCell, second: GridCell, third: GridCell, fourth: GridCell, cover: GridCell)
    ensures var m := Merge(first, second, third, fourth);
      IsSubSetOf(first, m) && IsSubSetOf(second, m) && IsSubSetOf(third, m) && IsSubSetOf(fourth, m)
    ensures IsSuperSetOf(cover, first) && IsSuperSetOf(cover, second)
      && IsSuperSetOf(cover, third) && IsSuperSetOf(cover, fourth)
      ==> IsSuperSetOf(cover, Merge(first, second, third, fourth))
  {
    Utils.MinOfFour(first.topLeft.row, second.topLeft.row, third.topLeft.row, fourth.topLeft.row);
    Utils.MinOfFour(first.topLeft.column, second.topLeft.column, third.topLeft.column, fourth.topLeft.column);
    Utils.MinOfFour(first.topRight.row, second.topRight.row, third.topRight.row, fourth.topRight.row);
    Utils.MaxOfFour(first.topRight.column, second.topRight.column, third.topRight.column, fourth.topRight.column);
    Utils.MaxOfFour(first.bottomLeft.row, second.bottomLeft.row, third.bottomLeft.row, fourth.bottomLeft.row);
    Utils.MinOfFour(first.bottomLeft.column, second.bottomLeft.column, third.bottomLeft.column, fourth.bottomLeft.column);
    Utils.MaxOfFour(first.bottomRight.row, second.bottomRight.row, third.bottomRight.row, fourth.bottomRight.row);
    Utils.MaxOfFour(first.bottomRight.column, second.bottomRight.column, third.bottomRight.column, fourth.bottomRight.column);
  }

  /** `merge` of the quadrants that `split` makes of a splitable rectangle is that rectangle. */
  lemma MergeUndoesSplit(c: GridCell)
    requires IsRectangle(c) && IsSplitable(c)
    ensures Merge(Split(c)[0], Split(c)[1], Split(c)[2], Split(c)[3]) == c
  {
    var q0, q1, q2, q3 := Split(c)[0], Split(c)[1], Split(c)[2], Split(c)[3];
    SplitCorners(c);
    assert c.topLeft.row <= c.bottomLeft.row && c.topLeft.column <= c.topRight.column by { ValidSides(c); }
    Utils.MinOfFour(q0.topLeft.row, q1.topLeft.row, q2.topLeft.row, q3.topLeft.row);
    Utils.MinOfFour(q0.topLeft.column, q1.topLeft.column, q2.topLeft.column, q3.topLeft.column);
    Utils.MinOfFour(q0.topRight.row, q1.topRight.row, q2.topRight.row, q3.topRight.row);
    Utils.MaxOfFour(q0.topRight.column, q1.topRight.column, q2.topRight.column, q3.topRight.column);
    Utils.MaxOfFour(q0.bottomLeft.row, q1.bottomLeft.row, q2.bottomLeft.row, q3.bottomLeft.row);
    Utils.MinOfFour(q0.bottomLeft.column, q1.bottomLeft.column, q2.bottomLeft.column, q3.bottomLeft.column);
    Utils.MaxOfFour(q0.bottomRight.row, q1.bottomRight.row, q2.bottomRight.row, q3.bottomRight.row);
    Utils.MaxOfFour(q0.bottomRight.column, q1.bottomRight.column, q2.bottomRight.column, q3.bottomRight.column);
  }

  /** A valid cell whose left corners do not share a column. */
  function SkewedCell(): (c: GridCell)
    ensures IsValid(c) && IsSplitable(c) && !IsRectangle(c)
  {
    GridCell(GridCorner(0, 1), GridCorner(0, 2), GridCorner(1, 0), GridCorner(1, 1))
  }

  /** `isValid` admits skewed cells, and for one of them `merge` does not undo `split`. */
  lemma MergeDoesNotUndoSplitOfSkewedCell()
    ensures var c := SkewedCell();
      IsValid(c) && IsSplitable(c)
      && Merge(Split(c)[0], Split(c)[1], Split(c)[2], Split(c)[3]) != c
  {
    var c := SkewedCell();
    ToI32InRange(0);
    ToI32InRange(1);
    ToI32InRange(2);
    assert Split(c)[2].topLeft == GridCorner(1, 0);
  }

  /**
   * The nodes `begin()` to `end()` visit: `cell[idx]` for idx in
   * [0, width * height). A cell of width zero has no index map.
   */
  function CellNodes(c: GridCell): (r: seq<Node>)
    ensures |r| == (if Width(c) == 0 then 0 else Size(c) as int)
    ensures forall i :: 0 <= i < |r| ==> r[i] == Index(c, i as u64)
  {
    if Width(c) == 0 then [] else seq(Size(c), i requires 0 <= i < Size(c) => Index(c, i as u64))
  }

  /**
   * A valid cell visits exactly its own nodes, each once, in increasing
   * order of (row, column).
   */
  lemma CellNodesAreTheCell(c: GridCell)
    requires IsValid(c)
    ensures |CellNodes(c)| == Size(c)
    ensures forall n :: n in CellNodes(c) <==> IsInCell(c, n)
    ensures forall i, j :: 0 <= i < j < |CellNodes(c)| ==> Nodes.Less(CellNodes(c)[i], CellNodes(c)[j])
  {
    ValidDimensions(c);
    var r := CellNodes(c);
    forall n | n in r
      ensures IsInCell(c, n)
    {
      var i :| 0 <= i < |r| && r[i] == n;
      IndexInCell(c, i as u64);
    }
    forall n | IsInCell(c, n)
      ensures n in r
    {
      IndexOfInCell(c, n);
      assert r[IndexOf(c, n)] == n;
    }
    forall i, j | 0 <= i < j < |r|
      ensures Nodes.Less(r[i], r[j])
    {
      IndexIsIncreasing(c, i as u64, j as u64);
    }
  }
}
