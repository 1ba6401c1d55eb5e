/**
 * selection::NodeSelection (src/selection/NodeSelection.cpp): a left and a
 * right list of nodes and a center. The constructor sorts both lists, and
 * the lookups are `std::binary_search`es on them, so every query between a
 * node of one list and a node of the other can be answered over the
 * center. `deleteFromLeft` and `deleteFromRight` erase nodes in place.
 */
module NodeSelections {
  import opened Nodes
  import Utils

  /** `<` on nodes is a strict total order, as `std::sort` and `std::binary_search` require. */
  lemma NodeLessIsStrictTotalOrder()
    ensures Utils.IsStrictTotalOrder(Nodes.Less)
  {
    forall a: Node, b: Node, c: Node
      ensures !Less(a, a) && (Less(a, b) && Less(b, c) ==> Less(a, c)) && (a != b ==> Less(a, b) || Less(b, a))
    {
      LessIsStrictTotalOrder(a, b, c);
    }
  }

  /** Ascending under node `<`, as `std::sort` leaves a vector. */
  ghost predicate Ascending(s: seq<Node>)
  {
    Utils.SortedBy(s, Nodes.Less)
  }

  /** `std::find`: the first position holding x, or the length when there is none. */
  function Find(s: seq<Node>, x: Node): (k: nat)
    ensures k <= |s|
    ensures k < |s| ==> s[k] == x
    ensures forall i :: 0 <= i < k ==> s[i] != x
  {
    if s == [] then 0
    else if s[0] == x then 0
    else 1 + Find(s[1..], x)
  }

  /**
   * `erase(find(x))` when x is present: the first occurrence of x removed,
   * the order of the rest kept; nothing changes when x is absent.
   */
  function EraseFirst(s: seq<Node>, x: Node): seq<Node>
  {
    if s == [] then []
    else if s[0] == x then s[1..]
    else [s[0]] + EraseFirst(s[1..], x)
  }

  /** Erasing removes one occurrence of x when there is one, and nothing else. */
  lemma {:induction false} EraseFirstRemovesOne(s: seq<Node>, x: Node)
    ensures multiset(EraseFirst(s, x)) == multiset(s) - multiset{x}
  {
    if s != [] {
      assert s == [s[0]] + s[1..];
      if s[0] != x {
        EraseFirstRemovesOne(s[1..], x);
      }
    }
  }

  /** Erasing at the position `std::find` reports is EraseFirst. */
  lemma {:induction false} EraseAtFind(s: seq<Node>, x: Node)
    ensures Find(s, x) < |s| ==> s[..Find(s, x)] + s[Find(s, x) + 1..] == EraseFirst(s, x)
    ensures Find(s, x) == |s| ==> s == EraseFirst(s, x)
  {
    if s == [] {
    } else if s[0] == x {
      assert s[..0] + s[1..] == s[1..];
    } else {
      var rest := s[1..];
      EraseAtFind(rest, x);
      if Find(rest, x) < |rest| {
        RemoveAfterHead(s, Find(rest, x));
      } else {
        assert s == [s[0]] + rest;
      }
    }
  }

  /** Removing position k + 1 of s is keeping its head and removing position k of its tail. */
  lemma RemoveAfterHead(s: seq<Node>, k: nat)
    requires k + 1 < |s|
    ensures s[..k + 1] + s[k + 2..] == [s[0]] + (s[1..][..k] + s[1..][k + 1..])
  {
    assert s[..k + 1] == [s[0]] + s[1..][..k];
    assert s[k + 2..] == s[1..][k + 1..];
  }

  /** Erasing keeps a list ascending. */
  lemma {:induction false} EraseFirstKeepsAscending(s: seq<Node>, x: Node)
    requires Ascending(s)
    ensures Ascending(EraseFirst(s, x))
  {
    if s != [] && s[0] != x {
      EraseFirstKeepsAscending(s[1..], x);
      EraseFirstRemovesOne(s[1..], x);
      var rest := EraseFirst(s[1..], x);
      var r := [s[0]] + rest;
      forall i, j | 0 <= i < j < |r|
        ensures !Less(r[j], r[i])
      {
        assert r[j] == rest[j - 1];
        assert rest[j - 1] in multiset(rest);
        assert rest[j - 1] in multiset(s[1..]);
        var k :| 0 <= k < |s[1..]| && s[1..][k] == rest[j - 1];
        assert r[j] == s[k + 1];
        if i > 0 {
          assert r[i] == rest[i - 1];
        }
      }
    }
  }

  /** `std::find` then `erase` when found, on a vector of nodes. */
  method EraseOne(s: seq<Node>, x: Node) returns (r: seq<Node>)
    ensures r == EraseFirst(s, x)
  {
    var k := Find(s, x);
    EraseAtFind(s, x);
    r := s;
    if k < |r| {
      r := r[..k] + r[k + 1..];
    }
  }

  /** The list after erasing, one after another, one occurrence of each of nodes. */
  function EraseEach(s: seq<Node>, nodes: seq<Node>): seq<Node>
  {
    if nodes == [] then s
    else EraseFirst(EraseEach(s, nodes[..|nodes| - 1]), nodes[|nodes| - 1])
  }

  /** Erasing one more listed node is one more EraseFirst. */
  lemma EraseEachStep(s: seq<Node>, nodes: seq<Node>, i: nat)
    requires i < |nodes|
    ensures EraseEach(s, nodes[..i + 1]) == EraseFirst(EraseEach(s, nodes[..i]), nodes[i])
  {
    assert nodes[..i + 1][..i] == nodes[..i];
  }

  lemma MultisetDifferenceOfSum(a: multiset<Node>, b: multiset<Node>, x: Node)
    ensures (a - b) - multiset{x} == a - (b + multiset{x})
  {
    assert forall y :: ((a - b) - multiset{x})[y] == (a - (b + multiset{x}))[y];
  }

  /**
   * Erasing each node of a list removes one occurrence per listed node
   * that is still present, so the remaining nodes are the multiset
   * difference.
   */
  lemma {:induction false} EraseEachIsDifference(s: seq<Node>, nodes: seq<Node>)
    ensures multiset(EraseEach(s, nodes)) == multiset(s) - multiset(nodes)
  {
    if nodes != [] {
      var init, last := nodes[..|nodes| - 1], nodes[|nodes| - 1];
      EraseEachIsDifference(s, init);
      EraseFirstRemovesOne(EraseEach(s, init), last);
      assert nodes == init + [last];
      MultisetDifferenceOfSum(multiset(s), multiset(init), last);
    }
  }

  /** Erasing each node of a list keeps an ascending list ascending. */
  lemma {:induction false} EraseEachKeepsAscending(s: seq<Node>, nodes: seq<Node>)
    requires Ascending(s)
    ensures Ascending(EraseEach(s, nodes))
  {
    if nodes != [] {
      EraseEachKeepsAscending(s, nodes[..|nodes| - 1]);
      EraseFirstKeepsAscending(EraseEach(s, nodes[..|nodes| - 1]), nodes[|nodes| - 1]);
    }
  }

  /** `canAnswer` over two lists: one node is on the left, the other on the right. */
  predicate Answers(left: seq<Node>, right: seq<Node>, from: Node, to: Node)
  {
    (Utils.BinarySearch(left, from, Nodes.Less) && Utils.BinarySearch(right, to, Nodes.Less))
    || (Utils.BinarySearch(left, to, Nodes.Less) && Utils.BinarySearch(right, from, Nodes.Less))
  }

  /**
   * On ascending lists the binary searches answer membership: a query is
   * answered iff one node is on the left and the other on the right, in
   * either direction, so the answer is symmetric.
   */
  lemma AnswersMeaning(left: seq<Node>, right: seq<Node>, from: Node, to: Node)
    requires Ascending(left) && Ascending(right)
    ensures Answers(left, right, from, to) <==> (from in left && to in right) || (to in left && from in right)
    ensures Answers(left, right, from, to) <==> Answers(left, right, to, from)
  {
    NodeLessIsStrictTotalOrder();
    Utils.BinarySearchIsMembership(left, from, Nodes.Less);
    Utils.BinarySearchIsMembership(left, to, Nodes.Less);
    Utils.BinarySearchIsMembership(right, from, Nodes.Less);
    Utils.BinarySearchIsMembership(right, to, Nodes.Less);
  }

  class NodeSelection {
    var left: seq<Node>
    var right: seq<Node>
    const center: Node

    /** Both lists ascending, as the constructor leaves them and the erasures keep them. */
    ghost predicate Valid()
      reads this
    {
      Ascending(left) && Ascending(right)
    }

    /** The constructor: the two lists sorted, the center kept. */
    constructor (leftSelection: seq<Node>, rightSelection: seq<Node>, center: Node)
      ensures Valid() && this.center == center
      ensures multiset(left) == multiset(leftSelection) && multiset(right) == multiset(rightSelection)
    {
      NodeLessIsStrictTotalOrder();
      left := Utils.Sort(leftSelection, Nodes.Less);
      right := Utils.Sort(rightSelection, Nodes.Less);
      this.center := center;
    }

    /** `weight`: the number of left-right pairs, as a `std::size_t` product. */
    function Weight(): (w: u64)
      reads this
      ensures |left| * |right| <= SIZE_MAX ==> w == |left| * |right|
    {
      ToSize(|left| * |right|)
    }

    predicate CanAnswer(from: Node, to: Node)
      reads this
    {
      Answers(left, right, from, to)
    }

    /** `deleteFromLeft`: for each listed node in turn, its first occurrence on the left is erased. */
    method DeleteFromLeft(nodes: seq<Node>)
      requires Valid()
      modifies this
      ensures Valid() && left == EraseEach(old(left), nodes) && right == old(right)
    {
      var kept := left;
      var i := 0;
      while i < |nodes|
        invariant 0 <= i <= |nodes| && left == old(left) && right == old(right)
        invariant kept == EraseEach(old(left), nodes[..i])
      {
        kept := EraseOne(kept, nodes[i]);
        EraseEachStep(old(left), nodes, i);
        i := i + 1;
      }
      assert nodes[..i] == nodes;
      EraseEachKeepsAscending(old(left), nodes);
      left := kept;
    }

    /** `deleteFromRight`: for each listed node in turn, its first occurrence on the right is erased. */
    method DeleteFromRight(nodes: seq<Node>)
      requires Valid()
      modifies this
      ensures Valid() && right == EraseEach(old(right), nodes) && left == old(left)
    {
      var kept := right;
      var i := 0;
      while i < |nodes|
        invariant 0 <= i <= |nodes| && left == old(left) && right == old(right)
        invariant kept == EraseEach(old(right), nodes[..i])
      {
        kept := EraseOne(kept, nodes[i]);
        EraseEachStep(old(right), nodes, i);
        i := i + 1;
      }
      assert nodes[..i] == nodes;
      EraseEachKeepsAscending(old(right), nodes);
      right := kept;
    }

    /**
     * `isSubSetOf`: every pair of a left node and a right node of this
     * selection can be answered by other.
     */
    method IsSubSetOf(other: NodeSelection) returns (b: bool)
      ensures b <==> AnsweredBy(this, other)
    {
      var i := 0;
      while i < |left|
        invariant 0 <= i <= |left|
        invariant forall k, r :: 0 <= k < i && r in right ==> other.CanAnswer(left[k], r)
      {
        var j := 0;
        while j < |right|
          invariant 0 <= j <= |right|
          invariant forall m :: 0 <= m < j ==> other.CanAnswer(left[i], right[m])
        {
          if !other.CanAnswer(left[i], right[j]) {
            return false;
          }
          j := j + 1;
        }
        i := i + 1;
      }
      return true;
    }
  }

  /** Every (left, right) pair of sel is answerable by other. */
  ghost predicate AnsweredBy(sel: NodeSelection, other: NodeSelection)
    reads sel, other
  {
    forall l, r :: l in sel.left && r in sel.right ==> other.CanAnswer(l, r)
  }

  /** A valid selection answers all of its own pairs, so `isSubSetOf` is reflexive. */
  lemma SubSetIsReflexive(sel: NodeSelection)
    requires sel.Valid()
    ensures AnsweredBy(sel, sel)
  {
    forall l, r | l in sel.left && r in sel.right
      ensures sel.CanAnswer(l, r)
    {
      AnswersMeaning(sel.left, sel.right, l, r);
    }
  }

  /** On a valid selection `canAnswer` is membership on opposite sides, and symmetric. */
  lemma CanAnswerMeaning(sel: NodeSelection, from: Node, to: Node)
    requires sel.Valid()
    ensures sel.CanAnswer(from, to) <==> (from in sel.left && to in sel.right) || (to in sel.left && from in sel.right)
    ensures sel.CanAnswer(from, to) <==> sel.CanAnswer(to, from)
  {
    AnswersMeaning(sel.left, sel.right, from, to);
  }
}
