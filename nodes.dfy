/** `Node`: a value with a left and a right child, either of which may be `nil`. */
module Nodes {
  import opened Sequences

  /** `Nil` is Ruby's `nil` child; `Node` is a `Node` object, owned by its one parent. */
  datatype Subtree = Nil | Node(left: Subtree, value: int, right: Subtree)

  ghost function Contents(t: Subtree): set<int>
  {
    match t
    case Nil => {}
    case Node(l, x, r) => Contents(l) + {x} + Contents(r)
  }

  /** The in-order sequence of values: left subtree, node, right subtree. */
  ghost function Inorder(t: Subtree): seq<int>
  {
    match t
    case Nil => []
    case Node(l, x, r) => Inorder(l) + [x] + Inorder(r)
  }

  ghost function Size(t: Subtree): nat
  {
    match t
    case Nil => 0
    case Node(l, _, r) => Size(l) + 1 + Size(r)
  }

  /** The number of levels: nodes on the longest downward path, 0 for an empty subtree. */
  ghost function Levels(t: Subtree): nat
  {
    match t
    case Nil => 0
    case Node(l, _, r) => 1 + (if Levels(l) < Levels(r) then Levels(r) else Levels(l))
  }

  /** The binary-search-tree ordering: everything left of a node is below it, everything right above. */
  ghost predicate IsBst(t: Subtree)
  {
    match t
    case Nil => true
    case Node(l, x, r) =>
      IsBst(l) && IsBst(r) &&
      (forall y :: y in Contents(l) ==> y < x) &&
      (forall y :: y in Contents(r) ==> x < y)
  }

  /** The value reached by following left children: the first value in order, and the least one in a BST. */
  function Leftmost(t: Subtree): (m: int)
    requires t.Node?
    ensures m in Contents(t)
    ensures IsBst(t) ==> forall y :: y in Contents(t) ==> m <= y
  {
    if t.left.Nil? then t.value else Leftmost(t.left)
  }

  /** The leftmost value comes first in order. */
  lemma {:induction false} LeftmostFirst(t: Subtree)
    requires t.Node?
    ensures Inorder(t) == [Leftmost(t)] + Inorder(t)[1..]
  {
    if t.left.Node? {
      LeftmostFirst(t.left);
    }
  }

  /** A node holding `v` with no children appears somewhere in `t`. */
  ghost predicate HasLeaf(t: Subtree, v: int)
  {
    match t
    case Nil => false
    case Node(l, x, r) => (l.Nil? && x == v && r.Nil?) || HasLeaf(l, v) || HasLeaf(r, v)
  }

  /** The in-order sequence lists every node once, and exactly the values the subtree holds. */
  lemma {:induction false} InorderContents(t: Subtree)
    ensures |Inorder(t)| == Size(t)
    ensures forall x :: x in Inorder(t) <==> x in Contents(t)
  {
    if t.Node? {
      InorderContents(t.left);
      InorderContents(t.right);
    }
  }

  /** A subtree is a BST exactly when its in-order sequence is strictly ascending. */
  lemma {:induction false} BstIffInorderAscending(t: Subtree)
    ensures IsBst(t) <==> StrictlyAscending(Inorder(t))
  {
    match t
    case Nil =>
    case Node(l, x, r) =>
      BstIffInorderAscending(l);
      BstIffInorderAscending(r);
      InorderContents(l);
      InorderContents(r);
      StrictlyAscendingConcat(Inorder(l), x, Inorder(r));
  }
}
