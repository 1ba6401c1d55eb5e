/**
 * graph::Node (src/graph/Node.cpp): a grid position with unsigned 64-bit
 * row and column, its comparison operators and the Manhattan neighbour test.
 * Offsets such as `column - 1` are computed in std::size_t, so they wrap
 * around modulo 2^64; `Inc` and `Dec` make that explicit.
 */
module Nodes {

  const SIZE_MAX: int := 0xFFFF_FFFF_FFFF_FFFF

  /** std::size_t */
  type u64 = x: int | 0 <= x <= SIZE_MAX

  datatype Node = Node(row: u64, column: u64)

  /** `x + 1` in std::size_t. */
  function Inc(x: u64): u64
  {
    if x == SIZE_MAX then 0 else x + 1
  }

  /** `x - 1` in std::size_t. */
  function Dec(x: u64): u64
  {
    if x == 0 then SIZE_MAX else x - 1
  }

  /** Truncation of an integer to std::size_t (conversion modulo 2^64). */
  function ToSize(x: int): u64
  {
    if 0 <= x <= SIZE_MAX then x else x % (SIZE_MAX + 1)
  }

  /** The conversion leaves values that fit unchanged. */
  lemma ToSizeOfSize(x: int)
    requires 0 <= x <= SIZE_MAX
    ensures ToSize(x) == x
  {
  }

  lemma IncDecInverse(x: u64)
    ensures Dec(Inc(x)) == x && Inc(Dec(x)) == x
    ensures Inc(x) != x && Dec(x) != x && Inc(x) != Dec(x)
  {
  }

  /** `operator==`: both coordinates agree, which is exactly value equality. */
  predicate Equal(a: Node, b: Node)
  {
    a.row == b.row && a.column == b.column
  }

  /** `operator!=` */
  predicate NotEqual(a: Node, b: Node)
  {
    !Equal(a, b)
  }

  lemma EqualIsIdentity(a: Node, b: Node)
    ensures Equal(a, b) <==> a == b
    ensures NotEqual(a, b) <==> a != b
  {
  }

  /** `operator<`: the smaller row wins; on equal rows the smaller column. */
  predicate Less(a: Node, b: Node)
  {
    if a.row < b.row then true
    else if a.row > b.row then false
    else a.column < b.column
  }

  /** `operator<=` */
  predicate LessEq(a: Node, b: Node)
  {
    Less(a, b) || Equal(a, b)
  }

  /** `operator>`, written in the source as the negation of `<=`. */
  predicate Greater(a: Node, b: Node)
  {
    !LessEq(a, b)
  }

  /** `operator>=` */
  predicate GreaterEq(a: Node, b: Node)
  {
    Greater(a, b) || Equal(a, b)
  }

  /** `<` is a strict total order: irreflexive, transitive and total. */
  lemma LessIsStrictTotalOrder(a: Node, b: Node, c: Node)
    ensures !Less(a, a)
    ensures Less(a, b) && Less(b, c) ==> Less(a, c)
    ensures a != b ==> Less(a, b) || Less(b, a)
    ensures !(Less(a, b) && Less(b, a))
  {
  }

  /** `>` is `<` with the arguments swapped, and `>=` is `<=` swapped. */
  lemma GreaterIsConverse(a: Node, b: Node)
    ensures Greater(a, b) <==> Less(b, a)
    ensures GreaterEq(a, b) <==> LessEq(b, a)
    ensures GreaterEq(a, b) <==> !Less(a, b)
  {
  }

  /**
   * A key that orders nodes as `<` does: row first, then column. It lets
   * std::sort and std::binary_search on nodes be reasoned about on integers.
   */
  function Key(n: Node): (k: int)
    ensures 0 <= k
  {
    n.row * (SIZE_MAX + 1) + n.column
  }

  lemma {:induction false} KeyOrdersLikeLess(a: Node, b: Node)
    ensures Less(a, b) <==> Key(a) < Key(b)
    ensures Key(a) == Key(b) <==> a == b
  {
    if a.row < b.row {
      assert Key(a) < (a.row + 1) * (SIZE_MAX + 1) <= Key(b);
    } else if a.row > b.row {
      assert Key(b) < (b.row + 1) * (SIZE_MAX + 1) <= Key(a);
    }
  }

  /** `isManhattanNeigbourOf`: other is one step right, left, up or down of self. */
  predicate IsManhattanNeigbourOf(self: Node, other: Node)
  {
    other == Node(self.row, Inc(self.column))
    || other == Node(self.row, Dec(self.column))
    || other == Node(Dec(self.row), self.column)
    || other == Node(Inc(self.row), self.column)
  }

  /**
   * A Manhattan neighbour differs in exactly one coordinate, by one step
   * (modulo 2^64); in particular no node is its own neighbour, and the
   * relation is symmetric.
   */
  lemma ManhattanNeigbourMeaning(self: Node, other: Node)
    ensures IsManhattanNeigbourOf(self, other) <==>
      (other.row == self.row && (other.column == Inc(self.column) || other.column == Dec(self.column)))
      || (other.column == self.column && (other.row == Inc(self.row) || other.row == Dec(self.row)))
    ensures !IsManhattanNeigbourOf(self, self)
    ensures IsManhattanNeigbourOf(self, other) <==> IsManhattanNeigbourOf(other, self)
  {
    IncDecInverse(self.row);
    IncDecInverse(self.column);
    IncDecInverse(other.row);
    IncDecInverse(other.column);
  }
}
