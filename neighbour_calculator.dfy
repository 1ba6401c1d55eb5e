/**
 * graph::NeigbourCalculator (src/graph/NeigbourCalculator.cpp): a variant of
 * two calculators. The Manhattan calculator lists the four axis neighbours,
 * the all-surrounding one adds the four diagonals. The dispatch functions
 * forward to whichever calculator the variant holds.
 */
module NeigbourCalculators {
  import opened Nodes

  datatype NeigbourCalculator = Manhattan | AllSourounding

  /** `ManhattanNeigbourCalculator::calculateNeigbours`: right, left, up, down. */
  function ManhattanNeigbours(n: Node): seq<Node>
  {
    [Node(n.row, Inc(n.column)),
     Node(n.row, Dec(n.column)),
     Node(Dec(n.row), n.column),
     Node(Inc(n.row), n.column)]
  }

  /** `ManhattanNeigbourCalculator::isNeigbourOf` */
  predicate ManhattanIsNeigbourOf(first: Node, second: Node)
  {
    second == Node(first.row, Inc(first.column))
    || second == Node(first.row, Dec(first.column))
    || second == Node(Dec(first.row), first.column)
    || second == Node(Inc(first.row), first.column)
  }

  /** `AllSouroundingNeigbourCalculator::calculateNeigbours`: the four axis moves, then the diagonals. */
  function AllSouroundingNeigbours(n: Node): seq<Node>
  {
    [Node(n.row, Inc(n.column)),
     Node(n.row, Dec(n.column)),
     Node(Dec(n.row), n.column),
     Node(Inc(n.row), n.column),
     Node(Inc(n.row), Inc(n.column)),
     Node(Inc(n.row), Dec(n.column)),
     Node(Dec(n.row), Dec(n.column)),
     Node(Dec(n.row), Inc(n.column))]
  }

  /** `AllSouroundingNeigbourCalculator::isNeigbourOf` */
  predicate AllSouroundingIsNeigbourOf(first: Node, second: Node)
  {
    second == Node(first.row, Inc(first.column))
    || second == Node(first.row, Dec(first.column))
    || second == Node(Dec(first.row), first.column)
    || second == Node(Inc(first.row), first.column)
    || second == Node(Inc(first.row), Inc(first.column))
    || second == Node(Inc(first.row), Dec(first.column))
    || second == Node(Dec(first.row), Dec(first.column))
    || second == Node(Dec(first.row), Inc(first.column))
  }

  /** `graph::calculateNeigbours`: std::visit on the variant. */
  function CalculateNeigbours(calculator: NeigbourCalculator, n: Node): seq<Node>
  {
    match calculator
    case Manhattan => ManhattanNeigbours(n)
    case AllSourounding => AllSouroundingNeigbours(n)
  }

  /** `graph::isNeigbourOf`: std::visit on the variant. */
  predicate IsNeigbourOf(calculator: NeigbourCalculator, first: Node, second: Node)
  {
    match calculator
    case Manhattan => ManhattanIsNeigbourOf(first, second)
    case AllSourounding => AllSouroundingIsNeigbourOf(first, second)
  }

  /** Within one step (modulo 2^64) along an axis, including no step at all. */
  predicate WithinOne(a: u64, b: u64)
  {
    b == a || b == Inc(a) || b == Dec(a)
  }

  /**
   * The Manhattan list has four entries, and its members are exactly the
   * nodes the Manhattan `isNeigbourOf` accepts, which are exactly the Manhattan
   * neighbours of graph::Node.
   */
  lemma ManhattanListMatchesPredicate(n: Node, m: Node)
    ensures |ManhattanNeigbours(n)| == 4
    ensures m in ManhattanNeigbours(n) <==> ManhattanIsNeigbourOf(n, m)
    ensures ManhattanIsNeigbourOf(n, m) <==> IsManhattanNeigbourOf(n, m)
  {
  }

  /**
   * The all-surrounding list has eight entries, starts with the Manhattan
   * list, and its members are exactly the nodes its `isNeigbourOf` accepts:
   * the nodes other than n within one step in each coordinate.
   */
  lemma {:induction false} AllSouroundingListMatchesPredicate(n: Node, m: Node)
    ensures |AllSouroundingNeigbours(n)| == 8
    ensures AllSouroundingNeigbours(n)[..4] == ManhattanNeigbours(n)
    ensures m in AllSouroundingNeigbours(n) <==> AllSouroundingIsNeigbourOf(n, m)
    ensures AllSouroundingIsNeigbourOf(n, m) <==>
      m != n && WithinOne(n.row, m.row) && WithinOne(n.column, m.column)
  {
    IncDecInverse(n.row);
    IncDecInverse(n.column);
  }

  /** For either calculator, `isNeigbourOf(a, b)` holds iff b is listed by `calculateNeigbours(a)`. */
  lemma IsNeigbourOfIffListed(calculator: NeigbourCalculator, a: Node, b: Node)
    ensures IsNeigbourOf(calculator, a, b) <==> b in CalculateNeigbours(calculator, a)
  {
    match calculator
    case Manhattan => ManhattanListMatchesPredicate(a, b);
    case AllSourounding => AllSouroundingListMatchesPredicate(a, b);
  }

  /** No node is its own neighbour under either calculator. */
  lemma NotOwnNeigbour(calculator: NeigbourCalculator, n: Node)
    ensures n !in CalculateNeigbours(calculator, n)
    ensures !IsNeigbourOf(calculator, n, n)
  {
    IncDecInverse(n.row);
    IncDecInverse(n.column);
  }

  /** Both calculators' neighbour relations are symmetric. */
  lemma {:induction false} NeigbourSymmetric(calculator: NeigbourCalculator, a: Node, b: Node)
    ensures IsNeigbourOf(calculator, a, b) <==> IsNeigbourOf(calculator, b, a)
  {
    IncDecInverse(a.row);
    IncDecInverse(a.column);
    IncDecInverse(b.row);
    IncDecInverse(b.column);
  }
}
