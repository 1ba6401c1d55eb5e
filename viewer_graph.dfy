/**
 * The viewer's parsers (UI/python/graph.py). `Graph` turns the lines of a
 * grid file into rows of walkable flags, and `NodeSelection` reads the
 * left, right and center coordinates of a selection file, the text that
 * selection::NodeSelection::toFile writes.
 *
 * Opening and reading the files is not part of this model: each parser is
 * given the lines Python's file iteration yields, every one ending in its
 * newline except possibly the last.
 */
module ViewerGraphs {
  import opened Wrappers
  import Nodes

  /** A line the grid parser keeps: it holds a '@' or a '.'. */
  predicate IsGridLine(line: string)
  {
    '@' in line || '.' in line
  }

  /** The row made of a line: one flag per character, the newline included, set exactly for '.'. */
  function Row(line: string): seq<bool>
  {
    seq(|line|, k requires 0 <= k < |line| => line[k] == '.')
  }

  /** The rows of the kept lines, in file order. */
  function Rows(lines: seq<string>): seq<seq<bool>>
  {
    if lines == [] then []
    else Rows(lines[..|lines| - 1]) + (if IsGridLine(lines[|lines| - 1]) then [Row(lines[|lines| - 1])] else [])
  }

  /** Parsing two runs of lines one after the other gives their rows one after the other. */
  lemma {:induction false} RowsOfAppend(a: seq<string>, b: seq<string>)
    ensures Rows(a + b) == Rows(a) + Rows(b)
  {
    if b != [] {
      var init := b[..|b| - 1];
      RowsOfAppend(a, init);
      assert (a + b)[..|a + b| - 1] == a + init;
      assert (a + b)[|a + b| - 1] == b[|b| - 1];
    } else {
      assert a + b == a;
    }
  }

  /**
   * Every row comes from a kept line, every kept line gives a row, and a
   * row is walkable exactly at the '.' characters of its line.
   */
  lemma {:induction false} RowsMeaning(lines: seq<string>, row: seq<bool>)
    ensures row in Rows(lines) <==> exists line :: line in lines && IsGridLine(line) && row == Row(line)
    ensures forall k :: 0 <= k < |Rows(lines)| ==> |Rows(lines)[k]| > 0
  {
    if lines != [] {
      var init, last := lines[..|lines| - 1], lines[|lines| - 1];
      RowsMeaning(init, row);
      assert lines == init + [last];
      if IsGridLine(last) {
        var c :| c in last && (c == '@' || c == '.');
      }
    }
  }

  /** The first row is made of the first kept line. */
  lemma FirstRow(lines: seq<string>, i: nat)
    requires i < |lines| && IsGridLine(lines[i]) && forall j :: 0 <= j < i ==> !IsGridLine(lines[j])
    ensures Rows(lines) != [] && Rows(lines)[0] == Row(lines[i])
  {
    NoGridLines(lines[..i]);
    RowsOfAppend(lines[..i], [lines[i]]);
    RowsOfAppend(lines[..i + 1], lines[i + 1..]);
    assert lines[..i] + [lines[i]] == lines[..i + 1];
    assert lines[..i + 1] + lines[i + 1..] == lines;
  }

  /** Lines without a '@' or a '.' give no rows. */
  lemma {:induction false} NoGridLines(lines: seq<string>)
    requires forall j :: 0 <= j < |lines| ==> !IsGridLine(lines[j])
    ensures Rows(lines) == []
  {
    if lines != [] {
      NoGridLines(lines[..|lines| - 1]);
    }
  }

  /**
   * Python indexing of a list of length `len`: a non-negative index counts
   * from the front, a negative one from the back, and anything else raises
   * IndexError (none).
   */
  function PyIndex(len: nat, i: int): (r: Option<nat>)
    ensures r.Some? ==> r.value < len
  {
    if 0 <= i < len then Some(i)
    else if -(len as int) <= i < 0 then Some(len + i)
    else None
  }

  class Graph {
    var nodes: seq<seq<bool>>

    /** `__init__`: each kept line appended as a row, in file order. */
    constructor (lines: seq<string>)
      ensures nodes == Rows(lines)
    {
      var rows := [];
      var i := 0;
      while i < |lines|
        invariant 0 <= i <= |lines| && rows == Rows(lines[..i])
      {
        assert lines[..i + 1][..i] == lines[..i];
        var line := lines[i];
        if !IsGridLine(line) {
          i := i + 1;
          continue;
        }
        rows := rows + [Row(line)];
        i := i + 1;
      }
      assert lines[..i] == lines;
      nodes := rows;
    }

    /** `is_walkable`: `nodes[row][column]`, false when either index raises IndexError. */
    function IsWalkable(row: int, column: int): bool
      reads this
    {
      match PyIndex(|nodes|, row)
      case None => false
      case Some(r) =>
        match PyIndex(|nodes[r]|, column)
        case None => false
        case Some(c) => nodes[r][c]
    }

    /** `width`: the length of the first row; none for an empty grid, where `nodes[0]` raises. */
    function Width(): (w: Option<nat>)
      reads this
      ensures w.None? <==> nodes == []
      ensures w.Some? ==> w.value == |nodes[0]|
    {
      if nodes == [] then None else Some(|nodes[0]|)
    }

    /** `height`: the number of rows. */
    function Height(): nat
      reads this
    {
      |nodes|
    }
  }

  /**
   * `is_walkable` reads the cell for indices inside the grid, is false
   * past the last row or column, and reads a negative index from the
   * back, so it is true only at a '.' cell of the grid.
   */
  lemma IsWalkableMeaning(g: Graph, row: int, column: int)
    ensures 0 <= row < |g.nodes| && 0 <= column < |g.nodes[row]| ==> (g.IsWalkable(row, column) <==> g.nodes[row][column])
    ensures row >= |g.nodes| || row < -|g.nodes| ==> !g.IsWalkable(row, column)
    ensures 0 <= row < |g.nodes| && column >= |g.nodes[row]| ==> !g.IsWalkable(row, column)
    ensures -|g.nodes| <= row < 0 ==> g.IsWalkable(row, column) == g.IsWalkable(row + |g.nodes|, column)
    ensures 0 <= row < |g.nodes| && -|g.nodes[row]| <= column < 0 ==> g.IsWalkable(row, column) == g.IsWalkable(row, column + |g.nodes[row]|)
    ensures g.IsWalkable(row, column) ==> exists r, c :: 0 <= r < |g.nodes| && 0 <= c < |g.nodes[r]| && g.nodes[r][c]
  {
  }

  /**
   * A graph read from lines is as wide as its first kept line, newline
   * included, so it is never zero wide, and it has one row per kept line.
   */
  lemma ParsedGraphShape(g: Graph, lines: seq<string>, i: nat)
    requires g.nodes == Rows(lines)
    requires i < |lines| && IsGridLine(lines[i]) && forall j :: 0 <= j < i ==> !IsGridLine(lines[j])
    ensures g.Width() == Some(|lines[i]|) && |lines[i]| > 0 && g.Height() > 0
  {
    FirstRow(lines, i);
    RowsMeaning(lines, Row(lines[i]));
  }

  // ---------------------------------------------------------------------
  // Selection files

  type Coordinate = (int, int)

  datatype SelectionLists = SelectionLists(left: seq<Coordinate>, right: seq<Coordinate>, centers: seq<Coordinate>)

  /** `str.replace(' ', '')` */
  function RemoveSpaces(s: string): string
  {
    if s == [] then []
    else RemoveSpaces(s[..|s| - 1]) + (if s[|s| - 1] == ' ' then [] else [s[|s| - 1]])
  }

  /** Removing spaces from a concatenation removes them from each part. */
  lemma {:induction false} RemoveSpacesOfAppend(a: string, b: string)
    ensures RemoveSpaces(a + b) == RemoveSpaces(a) + RemoveSpaces(b)
  {
    if b != [] {
      var init := b[..|b| - 1];
      RemoveSpacesOfAppend(a, init);
      assert (a + b)[..|a + b| - 1] == a + init;
      assert (a + b)[|a + b| - 1] == b[|b| - 1];
    } else {
      assert a + b == a;
    }
  }

  /** Text without spaces is left as it is. */
  lemma {:induction false} RemoveSpacesWithoutSpaces(s: string)
    requires ' ' !in s
    ensures RemoveSpaces(s) == s
  {
    if s != [] {
      RemoveSpacesWithoutSpaces(s[..|s| - 1]);
    }
  }

  /** `s[start:-fromBack]`: Python slicing never raises; bounds past the ends are clamped. */
  function PySlice(s: string, start: nat, fromBack: nat): string
  {
    var stop := if |s| >= fromBack then |s| - fromBack else 0;
    if start < stop then s[start..stop] else []
  }

  /** `str.split(',')`: the pieces between the commas, at least one. */
  function Split(s: string): (parts: seq<string>)
    ensures |parts| >= 1
  {
    if s == [] then [[]]
    else
      var parts := Split(s[..|s| - 1]);
      if s[|s| - 1] == ',' then parts + [[]]
      else parts[..|parts| - 1] + [parts[|parts| - 1] + [s[|s| - 1]]]
  }

  /** Text without a comma splits into itself alone. */
  lemma {:induction false} SplitWithoutComma(s: string)
    requires ',' !in s
    ensures Split(s) == [s]
  {
    if s != [] {
      SplitWithoutComma(s[..|s| - 1]);
      assert s[..|s| - 1] + [s[|s| - 1]] == s;
    }
  }

  /** Two comma-free pieces joined by one comma split back into the two pieces. */
  lemma {:induction false} SplitPair(a: string, b: string)
    requires ',' !in a && ',' !in b
    ensures Split(a + "," + b) == [a, b]
  {
    if b == [] {
      SplitWithoutComma(a);
      assert (a + "," + b)[..|a + "," + b| - 1] == a;
    } else {
      var init := b[..|b| - 1];
      SplitPair(a, init);
      assert (a + "," + b)[..|a + "," + b| - 1] == a + "," + init;
      assert init + [b[|b| - 1]] == b;
    }
  }

  predicate IsDigit(c: char)
  {
    '0' <= c <= '9'
  }

  function DigitValue(c: char): nat
    requires IsDigit(c)
  {
    c as int - '0' as int
  }

  /** The value of a run of decimal digits. */
  function DigitsValue(s: string): nat
    requires forall k :: 0 <= k < |s| ==> IsDigit(s[k])
  {
    if s == [] then 0
    else 10 * DigitsValue(s[..|s| - 1]) + DigitValue(s[|s| - 1])
  }

  /**
   * `int(s)` on text without spaces: an optional sign and one or more
   * decimal digits; anything else raises ValueError (none).
   */
  function ParseInt(s: string): Option<int>
  {
    if |s| > 0 && (s[0] == '-' || s[0] == '+') then
      var digits := s[1..];
      if digits != [] && forall k :: 0 <= k < |digits| ==> IsDigit(digits[k]) then
        Some(if s[0] == '-' then -(DigitsValue(digits) as int) else DigitsValue(digits))
      else None
    else if s != [] && forall k :: 0 <= k < |s| ==> IsDigit(s[k]) then Some(DigitsValue(s))
    else None
  }

  /** The decimal digits of n, as `std::ostream << std::size_t` writes them. */
  function Decimal(n: nat): (s: string)
    ensures |s| >= 1 && forall k :: 0 <= k < |s| ==> IsDigit(s[k])
  {
    (if n < 10 then [] else Decimal(n / 10)) + [('0' as int + n % 10) as char]
  }

  /** Reading the digits written for n gives n back. */
  lemma {:induction false} DecimalRoundTrip(n: nat)
    ensures DigitsValue(Decimal(n)) == n
    ensures ParseInt(Decimal(n)) == Some(n)
    ensures ParseInt("-" + Decimal(n)) == Some(-(n as int))
  {
    var s := Decimal(n);
    assert s[..|s| - 1] == if n < 10 then [] else Decimal(n / 10);
    if n >= 10 {
      DecimalRoundTrip(n / 10);
    }
    assert ("-" + s)[1..] == s;
  }

  /**
   * One coordinate line: spaces removed, `prefixLength` characters and the
   * last two cut off, split at the comma, and both parts `int`ed.
   */
  function ParseCoordinate(line: string, prefixLength: nat): Option<Coordinate>
  {
    CoordinateOf(Split(PySlice(RemoveSpaces(line), prefixLength, 2)))
  }

  /** `row, column = parts` and the two `int`s: none unless there are two parts that both parse. */
  function CoordinateOf(parts: seq<string>): Option<Coordinate>
  {
    if |parts| != 2 then None
    else
      match (ParseInt(parts[0]), ParseInt(parts[1]))
      case (Some(row), Some(column)) => Some((row, column))
      case _ => None
  }

  predicate StartsWith(line: string, prefix: string)
  {
    prefix <= line
  }

  /** A line carries at most one of the three tags, since they differ in their first character. */
  lemma TagsAreExclusive(line: string)
    ensures StartsWith(line, "0: ") ==> !StartsWith(line, "1: ") && !StartsWith(line, "center: ")
    ensures StartsWith(line, "1: ") ==> !StartsWith(line, "center: ")
  {
    if StartsWith(line, "0: ") {
      assert line[0] == "0: "[0];
    }
    if StartsWith(line, "1: ") {
      assert line[0] == "1: "[0];
    }
  }

  /**
   * Reading one more line: a tagged line appends its coordinate to its
   * list or fails, any other line changes nothing.
   */
  function ReadLine(l: SelectionLists, line: string): Option<SelectionLists>
  {
    if StartsWith(line, "0: ") then
      match ParseCoordinate(line, 3)
      case None => None
      case Some(n) => Some(l.(left := l.left + [n]))
    else if StartsWith(line, "1: ") then
      match ParseCoordinate(line, 3)
      case None => None
      case Some(n) => Some(l.(right := l.right + [n]))
    else if StartsWith(line, "center: ") then
      match ParseCoordinate(line, 8)
      case None => None
      case Some(n) => Some(l.(centers := l.centers + [n]))
    else Some(l)
  }

  /**
   * The lists read from the lines, in file order; the first coordinate
   * that does not parse raises ValueError (none).
   */
  function Parse(lines: seq<string>): Option<SelectionLists>
  {
    if lines == [] then Some(SelectionLists([], [], []))
    else
      match Parse(lines[..|lines| - 1])
      case None => None
      case Some(l) => ReadLine(l, lines[|lines| - 1])
  }

  /** Lines that carry none of the three tags are ignored wherever they stand. */
  lemma {:induction false} ParseSkipsOtherLines(lines: seq<string>, other: string)
    requires !StartsWith(other, "0: ") && !StartsWith(other, "1: ") && !StartsWith(other, "center: ")
    ensures Parse(lines + [other]) == Parse(lines)
    ensures Parse([other] + lines) == Parse(lines)
  {
    assert (lines + [other])[..|lines|] == lines;
    if lines != [] {
      var init := lines[..|lines| - 1];
      ParseSkipsOtherLines(init, other);
      assert ([other] + lines)[..|lines|] == [other] + init;
    } else {
      assert [other] + lines == [other];
      assert [other][..0] == [];
    }
  }

  /** Once a prefix of the lines fails to parse, so do all the lines. */
  lemma {:induction false} ParseStopsAt(lines: seq<string>, k: nat)
    requires k <= |lines| && Parse(lines[..k]).None?
    ensures Parse(lines).None?
  {
    if k < |lines| {
      assert lines[..|lines| - 1][..k] == lines[..k];
      ParseStopsAt(lines[..|lines| - 1], k);
    } else {
      assert lines[..k] == lines;
    }
  }

  class NodeSelection {
    var leftNodes: seq<Coordinate>
    var rightNodes: seq<Coordinate>
    var centers: seq<Coordinate>

    /** The three empty lists `__init__` starts from. */
    constructor ()
      ensures leftNodes == [] && rightNodes == [] && centers == []
    {
      leftNodes, rightNodes, centers := [], [], [];
    }

    /**
     * The reading loop of `__init__`: each coordinate is appended to its
     * list in file order. It stops with false at the first coordinate that
     * raises ValueError, the lists then holding what was read before it.
     */
    method Read(lines: seq<string>) returns (ok: bool)
      modifies this
      ensures ok <==> Parse(lines).Some?
      ensures ok ==> leftNodes == old(leftNodes) + Parse(lines).value.left
      ensures ok ==> rightNodes == old(rightNodes) + Parse(lines).value.right
      ensures ok ==> centers == old(centers) + Parse(lines).value.centers
    {
      var i := 0;
      ghost var read := SelectionLists([], [], []);
      while i < |lines|
        invariant 0 <= i <= |lines| && Parse(lines[..i]) == Some(read)
        invariant leftNodes == old(leftNodes) + read.left && rightNodes == old(rightNodes) + read.right
        invariant centers == old(centers) + read.centers
      {
        var line := lines[i];
        assert lines[..i + 1][..i] == lines[..i];
        assert Parse(lines[..i + 1]) == ReadLine(read, line);
        TagsAreExclusive(line);
        if StartsWith(line, "0: ") {
          var n := ParseCoordinate(line, 3);
          if n.None? {
            ParseStopsAt(lines, i + 1);
            return false;
          }
          leftNodes := leftNodes + [n.value];
          read := read.(left := read.left + [n.value]);
        }
        if StartsWith(line, "1: ") {
          var n := ParseCoordinate(line, 3);
          if n.None? {
            ParseStopsAt(lines, i + 1);
            return false;
          }
          rightNodes := rightNodes + [n.value];
          read := read.(right := read.right + [n.value]);
        }
        if StartsWith(line, "center: ") {
          var n := ParseCoordinate(line, 8);
          if n.None? {
            ParseStopsAt(lines, i + 1);
            return false;
          }
          centers := centers + [n.value];
          read := read.(centers := read.centers + [n.value]);
        }
        i := i + 1;
      }
      assert lines[..i] == lines;
      return true;
    }
  }

  // ---------------------------------------------------------------------
  // The writer: selection::NodeSelection::toFile

  /** What `toFile` writes after a tag for a node: the row and column in parentheses. */
  function Coordinates(n: Nodes.Node): string
  {
    "(" + Decimal(n.row) + ", " + Decimal(n.column) + ")\n"
  }

  /** The line `toFile` writes for a node after the given tag. */
  function NodeLine(tag: string, n: Nodes.Node): string
  {
    tag + ": " + Coordinates(n)
  }

  function LinesFor(tag: string, nodes: seq<Nodes.Node>): seq<string>
  {
    seq(|nodes|, k requires 0 <= k < |nodes| => NodeLine(tag, nodes[k]))
  }

  /** `toFile`: a "0" line per left node, a "1" line per right node, then the center line. */
  function ToFileLines(left: seq<Nodes.Node>, right: seq<Nodes.Node>, center: Nodes.Node): seq<string>
  {
    LinesFor("0", left) + LinesFor("1", right) + [NodeLine("center", center)]
  }

  /** The coordinates Python reads for nodes. */
  function AsCoordinates(nodes: seq<Nodes.Node>): seq<Coordinate>
  {
    seq(|nodes|, k requires 0 <= k < |nodes| => (nodes[k].row as int, nodes[k].column as int))
  }

  /** Decimal digits hold no space and no comma. */
  lemma DecimalHasNoSeparators(n: nat)
    ensures ' ' !in Decimal(n) && ',' !in Decimal(n)
  {
    var s := Decimal(n);
    forall k | 0 <= k < |s|
      ensures s[k] != ' ' && s[k] != ','
    {
      assert IsDigit(s[k]);
    }
  }

  /** A trailing space is dropped. */
  lemma RemoveTrailingSpace(a: string)
    requires ' ' !in a
    ensures RemoveSpaces(a + " ") == a
  {
    assert (a + " ")[..|a|] == a;
    RemoveSpacesWithoutSpaces(a);
  }

  /** Removing the spaces around one space after space-free text. */
  lemma RemoveSpacesAfter(a: string, x: string)
    requires ' ' !in a
    ensures RemoveSpaces(a + " " + x) == a + RemoveSpaces(x)
  {
    RemoveSpacesOfAppend(a + " ", x);
    RemoveTrailingSpace(a);
  }

  /** A written line is the tag with its colon, a space, the row with its comma, a space, and the rest. */
  lemma LineShape(tag: string, r: string, c: string)
    ensures tag + ": " + ("(" + r + ", " + c + ")\n") == (tag + ":") + " " + (("(" + r + ",") + " " + (c + ")\n"))
  {
  }

  /** Removing the spaces of a written line leaves tag, colon, and the row and column joined by a comma. */
  lemma CompactLine(tag: string, r: string, c: string)
    requires ' ' !in tag && ' ' !in r && ' ' !in c
    ensures RemoveSpaces(tag + ": " + ("(" + r + ", " + c + ")\n")) == (tag + ":") + (("(" + r + ",") + (c + ")\n"))
  {
    var a, b, d := tag + ":", "(" + r + ",", c + ")\n";
    assert ' ' !in a && ' ' !in b && ' ' !in d;
    LineShape(tag, r, c);
    RemoveSpacesAfter(a, b + " " + d);
    RemoveSpacesAfter(b, d);
    RemoveSpacesWithoutSpaces(d);
  }

  /** Cutting the tag, colon and parenthesis and the closing parenthesis and newline leaves row, comma, column. */
  lemma SliceCompact(tag: string, r: string, c: string)
    ensures PySlice((tag + ":") + (("(" + r + ",") + (c + ")\n")), |tag| + 2, 2) == r + "," + c
  {
    var compact := (tag + ":") + (("(" + r + ",") + (c + ")\n"));
    assert compact[|tag| + 2..|compact| - 2] == r + "," + c;
  }

  /** Each written line is read back as the node's row and column. */
  lemma ParseNodeLine(tag: string, n: Nodes.Node)
    requires ' ' !in tag
    ensures ParseCoordinate(NodeLine(tag, n), |tag| + 2) == Some((n.row as int, n.column as int))
  {
    var r, c := Decimal(n.row), Decimal(n.column);
    DecimalHasNoSeparators(n.row);
    DecimalHasNoSeparators(n.column);
    var line := NodeLine(tag, n);
    assert line == tag + ": " + ("(" + r + ", " + c + ")\n");
    CompactLine(tag, r, c);
    var compact := RemoveSpaces(line);
    SliceCompact(tag, r, c);
    var sliced := PySlice(compact, |tag| + 2, 2);
    assert sliced == r + "," + c;
    SplitPair(r, c);
    var parts := Split(sliced);
    assert parts == [r, c];
    DecimalRoundTrip(n.row);
    DecimalRoundTrip(n.column);
    assert CoordinateOf(parts) == Some((n.row as int, n.column as int));
  }

  /** The tag a line is written with is the one it is read by. */
  lemma NodeLineTags(n: Nodes.Node)
    ensures StartsWith(NodeLine("0", n), "0: ")
    ensures StartsWith(NodeLine("1", n), "1: ") && !StartsWith(NodeLine("1", n), "0: ")
    ensures StartsWith(NodeLine("center", n), "center: ") && !StartsWith(NodeLine("center", n), "0: ")
    ensures !StartsWith(NodeLine("center", n), "1: ")
  {
    assert NodeLine("0", n)[..3] == "0: ";
    assert NodeLine("1", n)[..3] == "1: ";
    assert NodeLine("center", n)[..8] == "center: ";
    TagsAreExclusive(NodeLine("1", n));
    TagsAreExclusive(NodeLine("center", n));
  }

  /** The lists with coordinates appended to the list of a tag. */
  function Append(l: SelectionLists, tag: string, xs: seq<Coordinate>): SelectionLists
  {
    if tag == "0" then l.(left := l.left + xs)
    else if tag == "1" then l.(right := l.right + xs)
    else l.(centers := l.centers + xs)
  }

  /** Reading one written line appends its node to the list of its tag. */
  lemma ReadNodeLine(l: SelectionLists, tag: string, n: Nodes.Node)
    requires tag == "0" || tag == "1" || tag == "center"
    ensures ReadLine(l, NodeLine(tag, n)) == Some(Append(l, tag, [(n.row as int, n.column as int)]))
  {
    NodeLineTags(n);
    ParseNodeLine(tag, n);
  }

  /** Reading a run of lines of one tag appends their nodes to that list. */
  lemma {:induction false} ParseLinesFor(before: seq<string>, l: SelectionLists, tag: string, nodes: seq<Nodes.Node>)
    requires tag == "0" || tag == "1" || tag == "center"
    requires Parse(before) == Some(l)
    ensures Parse(before + LinesFor(tag, nodes)) == Some(Append(l, tag, AsCoordinates(nodes)))
  {
    if nodes == [] {
      assert before + LinesFor(tag, nodes) == before;
      assert AsCoordinates(nodes) == [];
      assert l.left + [] == l.left && l.right + [] == l.right && l.centers + [] == l.centers;
    } else {
      var init, last := nodes[..|nodes| - 1], nodes[|nodes| - 1];
      ParseLinesFor(before, l, tag, init);
      var mid := Append(l, tag, AsCoordinates(init));
      ParseOneMoreLine(before, tag, nodes, mid);
      SnocOfNodes(tag, nodes);
      AppendTwice(l, tag, AsCoordinates(init), [(last.row as int, last.column as int)]);
    }
  }

  lemma ParseOneMoreLine(before: seq<string>, tag: string, nodes: seq<Nodes.Node>, mid: SelectionLists)
    requires tag == "0" || tag == "1" || tag == "center"
    requires nodes != [] && Parse(before + LinesFor(tag, nodes[..|nodes| - 1])) == Some(mid)
    ensures Parse(before + LinesFor(tag, nodes)) == Some(Append(mid, tag, [(nodes[|nodes| - 1].row as int, nodes[|nodes| - 1].column as int)]))
  {
    var last := nodes[|nodes| - 1];
    var prior := before + LinesFor(tag, nodes[..|nodes| - 1]);
    SnocOfNodes(tag, nodes);
    assert before + LinesFor(tag, nodes) == prior + [NodeLine(tag, last)];
    ParseOneMore(prior, mid, NodeLine(tag, last));
    ReadNodeLine(mid, tag, last);
  }

  /** One more node gives one more written line and one more coordinate. */
  lemma SnocOfNodes(tag: string, nodes: seq<Nodes.Node>)
    requires nodes != []
    ensures LinesFor(tag, nodes) == LinesFor(tag, nodes[..|nodes| - 1]) + [NodeLine(tag, nodes[|nodes| - 1])]
    ensures AsCoordinates(nodes) == AsCoordinates(nodes[..|nodes| - 1]) + [(nodes[|nodes| - 1].row as int, nodes[|nodes| - 1].column as int)]
  {
  }

  /** Reading one more line after lines read into l is ReadLine on l. */
  lemma ParseOneMore(lines: seq<string>, l: SelectionLists, line: string)
    requires Parse(lines) == Some(l)
    ensures Parse(lines + [line]) == ReadLine(l, line)
  {
    assert (lines + [line])[..|lines|] == lines;
  }

  lemma AppendTwice(l: SelectionLists, tag: string, xs: seq<Coordinate>, ys: seq<Coordinate>)
    ensures Append(Append(l, tag, xs), tag, ys) == Append(l, tag, xs + ys)
  {
    assert l.left + xs + ys == l.left + (xs + ys);
    assert l.right + xs + ys == l.right + (xs + ys);
    assert l.centers + xs + ys == l.centers + (xs + ys);
  }

  /**
   * The viewer reads back what `toFile` writes: the left and right nodes
   * in their order and the center as the only center.
   */
  lemma ParseReadsToFile(left: seq<Nodes.Node>, right: seq<Nodes.Node>, center: Nodes.Node)
    ensures Parse(ToFileLines(left, right, center)) == Some(SelectionLists(AsCoordinates(left), AsCoordinates(right), AsCoordinates([center])))
  {
    var empty := SelectionLists([], [], []);
    var lefts, rights := LinesFor("0", left), LinesFor("1", right);
    ParseLinesFor([], empty, "0", left);
    assert [] + lefts == lefts && [] + AsCoordinates(left) == AsCoordinates(left);
    var afterLeft := SelectionLists(AsCoordinates(left), [], []);
    assert Parse(lefts) == Some(afterLeft);
    ParseLinesFor(lefts, afterLeft, "1", right);
    var afterRight := SelectionLists(AsCoordinates(left), AsCoordinates(right), []);
    assert [] + AsCoordinates(right) == AsCoordinates(right);
    assert Parse(lefts + rights) == Some(afterRight);
    ParseLinesFor(lefts + rights, afterRight, "center", [center]);
    assert LinesFor("center", [center]) == [NodeLine("center", center)];
    assert [] + AsCoordinates([center]) == AsCoordinates([center]);
  }
}
