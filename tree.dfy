/** `Tree`: the cached sorted values, the root, and the builder and mutators that work on subtrees. */
module BinarySearchTree {
  import opened Optional
  import opened Sequences
  import opened MergeSort
  import opened Normaliser
  import opened Nodes

  /** A child slot receives whatever the recursive call returned; a `nil` result leaves it empty. */
  function OrNil(o: Option<Subtree>): Subtree
  {
    if o.Some? then o.value else Nil
  }

  /** `mid = (start + stop) / 2`: Ruby floors the quotient, which for a non-empty range lies inside it
      and, when the range has even length, picks the lower of the two middle indices. */
  function Midpoint(start: int, stop: int): (mid: int)
    requires 0 <= start <= stop
    ensures start <= mid <= stop
  {
    (start + stop) / 2
  }

  /** The two sides of the midpoint differ by at most one index, the right one being the larger. */
  lemma MidpointBisects(start: int, stop: int)
    requires 0 <= start <= stop
    ensures var mid := Midpoint(start, stop); 0 <= (stop - mid) - (mid - start) <= 1
  {
  }

  class Tree {
    /** `@array`: the constructor's argument as given. */
    var input: seq<int>
    /** `@processed_array`: the sorted distinct values at construction; never updated afterwards. */
    var processedArray: seq<int>
    /** `@root`. */
    var root: Subtree

    /** `Tree.new(array)`. Ruby's `uniq!` yields `nil` for a duplicate-free argument and
        `build_tree(nil)` then raises, so only an argument with a repeated value builds a tree. */
    constructor (input: seq<int>)
      requires HasDuplicate(input)
      ensures this.input == input
      ensures Normalise(input) == Some(processedArray)
      ensures StrictlyAscending(processedArray)
      ensures forall x :: x in processedArray <==> x in input
      ensures root == BuildTree(processedArray, 0, |processedArray| - 1)
      ensures IsBst(root) && Inorder(root) == processedArray
    {
      this.input := input;
      var sorted := Sort(input);
      NormaliseSpec(input);
      var processed := UniqBang(sorted).value;
      processedArray := processed;
      root := BuildTree(processed, 0, |processed| - 1);
      BuildTreeInorder(processed, 0, |processed| - 1);
      assert processed[0..|processed|] == processed;
      BuildTreeBst(processed, 0, |processed| - 1);
    }

    /** `build_tree(array, start, stop)`: the element at index `(start + stop) / 2` becomes the root
        of the range, the indices below it the left subtree and those above it the right one. */
    static function BuildTree(items: seq<int>, start: int, stop: int): Subtree
      requires 0 <= start && stop < |items|
      decreases stop - start
    {
      if start > stop then
        Nil
      else
        var mid := Midpoint(start, stop);
        Node(BuildTree(items, start, mid - 1), items[mid], BuildTree(items, mid + 1, stop))
    }

    /** `insert(root, value)`: `nil` when `value` is among the cached values, otherwise the subtree with
        a new leaf for `value`, found by going right past smaller values and left past all others. */
    function Insert(root: Subtree, value: int): (r: Option<Subtree>)
      reads this`processedArray
      ensures r.None? <==> value in processedArray
      ensures r.Some? ==> Contents(r.value) == Contents(root) + {value}
      ensures r.Some? ==> HasLeaf(r.value, value) && Size(r.value) == Size(root) + 1
      decreases root
    {
      if value in processedArray then
        None
      else if root.Nil? then
        Some(Node(Nil, value, Nil))
      else if root.value < value then
        Some(Node(root.left, root.value, OrNil(Insert(root.right, value))))
      else
        Some(Node(OrNil(Insert(root.left, value)), root.value, root.right))
    }

    /** `delete(root, value)`: descends by comparison; at the matching node a missing child lets the
        other one take its place, and with two children the node takes the least value of its right
        subtree, which is then deleted from that subtree. */
    static function Delete(root: Subtree, value: int): (r: Subtree)
      ensures value !in Contents(root) ==> r == root
      ensures Contents(r) <= Contents(root)
      decreases root
    {
      match root
      case Nil => Nil
      case Node(l, x, rt) =>
        if x < value then
          Node(l, x, Delete(rt, value))
        else if x > value then
          Node(Delete(l, value), x, rt)
        else if l.Nil? then
          rt
        else if rt.Nil? then
          l
        else
          var m := Leftmost(rt);
          Node(l, m, Delete(rt, m))
    }

    /** `tree.insert(tree.root, value)` with its result dropped, as the sample run calls it. The nodes are
        updated in place, so `@root` sees the insertion unless the value is cached or the tree is
        empty; in the latter case the new node is returned but never attached. */
    method InsertIntoRoot(value: int)
      modifies this
      ensures input == old(input) && processedArray == old(processedArray)
      ensures root == if old(root).Node? && value !in processedArray then Insert(old(root), value).value else old(root)
    {
      if root.Node? {
        var r := Insert(root, value);
        if r.Some? {
          root := r.value;
        }
      }
    }

    /** `tree.delete(tree.root, value)` with its result dropped. A root holding `value` with a missing
        child is replaced only in the returned value, so `@root` keeps it; every other deletion
        works on the nodes in place and shows through `@root`. */
    method DeleteFromRoot(value: int)
      modifies this
      ensures input == old(input) && processedArray == old(processedArray)
      ensures root == if old(root).Node? && old(root).value == value && (old(root).left.Nil? || old(root).right.Nil?)
        then old(root) else Delete(old(root), value)
    {
      if !(root.Node? && root.value == value && (root.left.Nil? || root.right.Nil?)) {
        root := Delete(root, value);
      }
    }

    /** `minimum(root)`: follows left children from a node that is not `nil` and reports the last value. */
    static method Minimum(root: Subtree) returns (minimumValue: int)
      requires root.Node?
      ensures minimumValue == Leftmost(root)
      ensures minimumValue in Contents(root)
      ensures IsBst(root) ==> forall y :: y in Contents(root) ==> minimumValue <= y
    {
      var node := root;
      minimumValue := node.value;
      while node.left.Node?
        invariant node.Node? && minimumValue == node.value
        invariant Leftmost(node) == Leftmost(root)
        decreases node
      {
        minimumValue := node.left.value;
        node := node.left;
      }
    }
  }

  /** `build_tree` gives `nil` for an empty range and otherwise a node holding `items[(start + stop) / 2]`. */
  lemma BuildTreeRoot(items: seq<int>, start: int, stop: int)
    requires 0 <= start && stop < |items|
    ensures Tree.BuildTree(items, start, stop).Nil? <==> start > stop
    ensures start <= stop ==> Tree.BuildTree(items, start, stop).value == items[(start + stop) / 2]
  {
  }

  /** The values at indices `start` to `stop`, both included. */
  ghost function Segment(items: seq<int>, start: int, stop: int): seq<int>
    requires 0 <= start && stop < |items|
    decreases stop - start
  {
    if start > stop then [] else Segment(items, start, stop - 1) + [items[stop]]
  }

  lemma {:induction false} SegmentSplits(items: seq<int>, start: int, mid: int, stop: int)
    requires 0 <= start <= mid <= stop < |items|
    ensures Segment(items, start, stop) == Segment(items, start, mid - 1) + [items[mid]] + Segment(items, mid + 1, stop)
    decreases stop - mid
  {
    if mid < stop {
      SegmentSplits(items, start, mid, stop - 1);
    }
  }

  lemma {:induction false} SegmentIsSlice(items: seq<int>, start: int, stop: int)
    requires 0 <= start <= stop + 1 && stop < |items|
    ensures Segment(items, start, stop) == items[start..stop + 1]
    decreases stop - start
  {
    if start <= stop {
      SegmentIsSlice(items, start, stop - 1);
      assert items[start..stop + 1] == items[start..stop] + [items[stop]];
    }
  }

  lemma {:induction false} BuildTreeSegment(items: seq<int>, start: int, stop: int)
    requires 0 <= start && stop < |items|
    ensures Inorder(Tree.BuildTree(items, start, stop)) == Segment(items, start, stop)
    decreases stop - start
  {
    if start <= stop {
      var mid := Midpoint(start, stop);
      BuildTreeSegment(items, start, mid - 1);
      BuildTreeSegment(items, mid + 1, stop);
      SegmentSplits(items, start, mid, stop);
    }
  }

  /** `build_tree` lays the index range out in order. */
  lemma BuildTreeInorder(items: seq<int>, start: int, stop: int)
    requires 0 <= start <= stop + 1 && stop < |items|
    ensures Inorder(Tree.BuildTree(items, start, stop)) == items[start..stop + 1]
  {
    BuildTreeSegment(items, start, stop);
    SegmentIsSlice(items, start, stop);
  }

  /** Built from a strictly ascending array, the tree is a BST. */
  lemma BuildTreeBst(items: seq<int>, start: int, stop: int)
    requires 0 <= start <= stop + 1 && stop < |items| && StrictlyAscending(items)
    ensures IsBst(Tree.BuildTree(items, start, stop))
  {
    BuildTreeInorder(items, start, stop);
    BstIffInorderAscending(Tree.BuildTree(items, start, stop));
    if start <= stop {
      var part := items[start..stop + 1];
      forall i, j | 0 <= i < j < |part| ensures part[i] < part[j] {
        assert part[i] == items[start + i] && part[j] == items[start + j];
      }
    }
  }

  /** `build_tree` makes one node per index of the range. */
  lemma BuildTreeSize(items: seq<int>, start: int, stop: int)
    requires 0 <= start <= stop + 1 && stop < |items|
    ensures Size(Tree.BuildTree(items, start, stop)) == stop - start + 1
  {
    BuildTreeInorder(items, start, stop);
    InorderContents(Tree.BuildTree(items, start, stop));
  }

  /** At every node the right subtree has as many nodes as the left one, or one more. */
  ghost predicate Bisected(t: Subtree)
  {
    match t
    case Nil => true
    case Node(l, _, r) => Bisected(l) && Bisected(r) && Size(l) <= Size(r) <= Size(l) + 1
  }

  /** Midpoint bisection, with the floor of `(start + stop) / 2`, keeps every node's two sides within one,
      and makes one node per index. */
  lemma {:induction false} BuildTreeBisected(items: seq<int>, start: int, stop: int)
    requires 0 <= start <= stop + 1 && stop < |items|
    ensures Bisected(Tree.BuildTree(items, start, stop))
    ensures Size(Tree.BuildTree(items, start, stop)) == stop - start + 1
    decreases stop - start
  {
    if start <= stop {
      var mid := Midpoint(start, stop);
      var l, r := Tree.BuildTree(items, start, mid - 1), Tree.BuildTree(items, mid + 1, stop);
      assert Tree.BuildTree(items, start, stop) == Node(l, items[mid], r);
      BuildTreeBisected(items, start, mid - 1);
      BuildTreeBisected(items, mid + 1, stop);
      MidpointBisects(start, stop);
    }
  }

  ghost function Pow2(k: nat): nat
  {
    if k == 0 then 1 else 2 * Pow2(k - 1)
  }

  lemma {:induction false} Pow2Monotone(j: nat, k: nat)
    requires j <= k
    ensures Pow2(j) <= Pow2(k)
    decreases k
  {
    if j < k {
      Pow2Monotone(j, k - 1);
    }
  }

  /** Powers of two are strictly increasing, so a smaller power has a smaller exponent. */
  lemma Pow2Below(j: nat, k: nat)
    requires Pow2(j) < Pow2(k)
    ensures j < k
  {
    if k <= j {
      Pow2Monotone(k, j);
    }
  }

  /** Sides within one node of each other, the larger filling `k` levels, fill `k + 1` levels. */
  lemma BisectedStep(k: nat, sl: nat, sr: nat)
    requires sl <= sr <= sl + 1 && sr < Pow2(k)
    requires if sr == 0 then k == 0 else Pow2(k) <= 2 * sr
    ensures sl + 1 + sr < Pow2(k + 1) <= 2 * (sl + 1 + sr)
  {
    assert Pow2(k + 1) == 2 * Pow2(k);
    if sr == 0 {
      assert Pow2(0) == 1;
    }
  }

  /** A bisected tree has as few levels as its size allows: `L` nodes fill `floor(log2(L)) + 1` levels. */
  lemma {:induction false} BisectedLevels(t: Subtree)
    requires Bisected(t)
    ensures Size(t) < Pow2(Levels(t))
    ensures t.Node? ==> Pow2(Levels(t)) <= 2 * Size(t)
  {
    if t.Node? {
      var l, r := t.left, t.right;
      BisectedLevels(l);
      BisectedLevels(r);
      var k := Levels(r);
      if l.Node? {
        Pow2Below(Levels(l), k + 1);
      }
      assert Size(t) == Size(l) + 1 + Size(r) && Levels(t) == k + 1;
      BisectedStep(k, Size(l), Size(r));
    }
  }

  /** `build_tree` on `L` values gives `floor(log2(L)) + 1` levels. */
  lemma BuildTreeLevels(items: seq<int>, start: int, stop: int)
    requires 0 <= start <= stop < |items|
    ensures var k := Levels(Tree.BuildTree(items, start, stop));
      k >= 1 && Pow2(k - 1) <= stop - start + 1 < Pow2(k)
  {
    var t := Tree.BuildTree(items, start, stop);
    BuildTreeBisected(items, start, stop);
    BisectedLevels(t);
    assert Pow2(Levels(t)) == 2 * Pow2(Levels(t) - 1);
  }

  /** Inserting an uncached value adds exactly one occurrence of it, whatever the tree holds. */
  lemma {:induction false} InsertPermutes(t: Tree, root: Subtree, value: int)
    requires value !in t.processedArray
    ensures multiset(Inorder(t.Insert(root, value).value)) == multiset(Inorder(root)) + multiset{value}
    decreases root
  {
    if root.Node? {
      var l, x, r := root.left, root.value, root.right;
      if x < value {
        var r' := t.Insert(r, value).value;
        assert t.Insert(root, value).value == Node(l, x, r');
        InsertPermutes(t, r, value);
        assert multiset(Inorder(r')) == multiset(Inorder(r)) + multiset{value};
      } else {
        var l' := t.Insert(l, value).value;
        assert t.Insert(root, value).value == Node(l', x, r);
        InsertPermutes(t, l, value);
        assert multiset(Inorder(l')) == multiset(Inorder(l)) + multiset{value};
      }
    }
  }

  /** An insertion into the right subtree, past a node and a left side below `v`, is a sorted insertion. */
  lemma SlotInRight(l: Subtree, x: int, r: Subtree, r': Subtree, v: int)
    requires forall y :: y in Inorder(l) ==> y < v
    requires x < v && Inorder(r') == SlotIn(Inorder(r), v)
    ensures Inorder(Node(l, x, r')) == SlotIn(Inorder(Node(l, x, r)), v)
  {
    var front := Inorder(l) + [x];
    assert forall y :: y in front ==> y in Inorder(l) || y == x;
    assert Inorder(Node(l, x, r)) == front + Inorder(r);
    assert Inorder(Node(l, x, r')) == front + Inorder(r');
    SlotInAfter(front, Inorder(r), v);
  }

  /** An insertion into the left subtree, in front of a node not below `v`, is a sorted insertion. */
  lemma SlotInLeft(l: Subtree, x: int, r: Subtree, l': Subtree, v: int)
    requires v <= x && Inorder(l') == SlotIn(Inorder(l), v)
    ensures Inorder(Node(l', x, r)) == SlotIn(Inorder(Node(l, x, r)), v)
  {
    var left, left', right := Inorder(l), Inorder(l'), Inorder(r);
    assert Inorder(Node(l, x, r)) == left + ([x] + right);
    assert Inorder(Node(l', x, r)) == left' + ([x] + right);
    SlotInFrontOf(left, x, right, v);
  }

  /** In a BST, an uncached value is inserted at its sorted place in the in-order sequence. */
  lemma {:induction false} InsertInorder(t: Tree, root: Subtree, value: int)
    requires value !in t.processedArray && IsBst(root)
    ensures Inorder(t.Insert(root, value).value) == SlotIn(Inorder(root), value)
    decreases root
  {
    if root.Node? {
      var l, x, r := root.left, root.value, root.right;
      if x < value {
        InsertInorder(t, r, value);
        InorderContents(l);
        assert t.Insert(root, value).value == Node(l, x, t.Insert(r, value).value);
        SlotInRight(l, x, r, t.Insert(r, value).value, value);
      } else {
        InsertInorder(t, l, value);
        assert t.Insert(root, value).value == Node(t.Insert(l, value).value, x, r);
        SlotInLeft(l, x, r, t.Insert(l, value).value, value);
      }
    }
  }

  /** Into a BST that lacks it, an uncached value goes to its sorted place and the BST ordering is kept. */
  lemma InsertKeepsBst(t: Tree, root: Subtree, value: int)
    requires value !in t.processedArray && IsBst(root) && value !in Contents(root)
    ensures IsBst(t.Insert(root, value).value)
    ensures Inorder(t.Insert(root, value).value) == SlotIn(Inorder(root), value)
  {
    InsertInorder(t, root, value);
    InorderContents(root);
    BstIffInorderAscending(root);
    SlotInAscending(Inorder(root), value);
    BstIffInorderAscending(t.Insert(root, value).value);
  }

  /** A value that the tree holds but the cache does not is inserted again: equal values go left. */
  lemma InsertPresentDuplicates(t: Tree, root: Subtree, value: int)
    requires value !in t.processedArray && value in Contents(root)
    ensures HasDuplicate(Inorder(t.Insert(root, value).value))
  {
    var after := Inorder(t.Insert(root, value).value);
    InsertPermutes(t, root, value);
    InorderContents(root);
    assert value in multiset(Inorder(root));
    assert multiset(after)[value] >= 2;
    DistinctCounts(after);
  }

  /** Deletion keeps the BST ordering and removes exactly `value`. */
  lemma {:induction false} DeleteKeepsBst(root: Subtree, value: int)
    requires IsBst(root)
    ensures IsBst(Tree.Delete(root, value))
    ensures Contents(Tree.Delete(root, value)) == Contents(root) - {value}
    decreases root
  {
    if root.Node? {
      var l, x, rt := root.left, root.value, root.right;
      if x < value {
        DeleteKeepsBst(rt, value);
      } else if x > value {
        DeleteKeepsBst(l, value);
      } else if l.Node? && rt.Node? {
        var m := Leftmost(rt);
        DeleteKeepsBst(rt, m);
      }
    }
  }

  /** Removing `v` past a node and a left side without it is removing it from the right side. */
  lemma WithoutRight(l: Subtree, x: int, r: Subtree, r': Subtree, v: int)
    requires v !in Inorder(l) && x != v && Inorder(r') == Without(Inorder(r), v)
    ensures Inorder(Node(l, x, r')) == Without(Inorder(Node(l, x, r)), v)
  {
    WithoutConcat(Inorder(l) + [x], Inorder(r), v);
    WithoutConcat(Inorder(l), [x], v);
    WithoutAbsent(Inorder(l) + [x], v);
  }

  /** Removing `v` in front of a node and a right side without it is removing it from the left side. */
  lemma WithoutLeft(l: Subtree, x: int, r: Subtree, l': Subtree, v: int)
    requires v !in Inorder(r) && x != v && Inorder(l') == Without(Inorder(l), v)
    ensures Inorder(Node(l', x, r)) == Without(Inorder(Node(l, x, r)), v)
  {
    WithoutConcat(Inorder(l) + [x], Inorder(r), v);
    WithoutConcat(Inorder(l), [x], v);
    WithoutAbsent([x], v);
    WithoutAbsent(Inorder(r), v);
  }

  /** Removing a node's own value, found nowhere else, leaves its two sides joined. */
  lemma WithoutMiddle(l: Subtree, x: int, r: Subtree)
    requires x !in Inorder(l) && x !in Inorder(r)
    ensures Without(Inorder(Node(l, x, r)), x) == Inorder(l) + Inorder(r)
  {
    WithoutOnce(Inorder(l), x, Inorder(r));
  }

  /** Removing its least value from a BST's in-order sequence drops the first element. */
  lemma WithoutLeftmost(t: Subtree)
    requires IsBst(t) && t.Node?
    ensures Inorder(t) == [Leftmost(t)] + Inorder(t)[1..]
    ensures Without(Inorder(t), Leftmost(t)) == Inorder(t)[1..]
  {
    var m, rest := Leftmost(t), Inorder(t)[1..];
    LeftmostFirst(t);
    BstIffInorderAscending(t);
    StrictlyAscendingCons(m, rest);
    WithoutConcat([m], rest, m);
    WithoutAbsent(rest, m);
  }

  /** Deletion past a node below `value` is deletion from its right side. */
  lemma DeleteInorderRight(root: Subtree, value: int)
    requires IsBst(root) && root.Node? && root.value < value
    requires Inorder(Tree.Delete(root.right, value)) == Without(Inorder(root.right), value)
    ensures Inorder(Tree.Delete(root, value)) == Without(Inorder(root), value)
  {
    InorderContents(root.left);
    WithoutRight(root.left, root.value, root.right, Tree.Delete(root.right, value), value);
  }

  /** Deletion past a node above `value` is deletion from its left side. */
  lemma DeleteInorderLeft(root: Subtree, value: int)
    requires IsBst(root) && root.Node? && root.value > value
    requires Inorder(Tree.Delete(root.left, value)) == Without(Inorder(root.left), value)
    ensures Inorder(Tree.Delete(root, value)) == Without(Inorder(root), value)
  {
    InorderContents(root.right);
    WithoutLeft(root.left, root.value, root.right, Tree.Delete(root.left, value), value);
  }

  /** Deleting the value of a node with two children: the leftmost value of the right side moves up. */
  lemma DeleteInorderTwoChildren(root: Subtree)
    requires IsBst(root) && root.Node? && root.left.Node? && root.right.Node?
    requires Inorder(Tree.Delete(root.right, Leftmost(root.right))) == Without(Inorder(root.right), Leftmost(root.right))
    ensures Inorder(Tree.Delete(root, root.value)) == Without(Inorder(root), root.value)
  {
    var l, x, rt := root.left, root.value, root.right;
    var m := Leftmost(rt);
    InorderContents(l);
    InorderContents(rt);
    var rest := Inorder(rt)[1..];
    WithoutLeftmost(rt);
    assert Inorder(Tree.Delete(rt, m)) == rest;
    WithoutMiddle(l, x, rt);
    assert Without(Inorder(root), x) == Inorder(l) + ([m] + rest);
    assert Inorder(l) + ([m] + rest) == Inorder(l) + [m] + rest;
    assert Tree.Delete(root, x) == Node(l, m, Tree.Delete(rt, m));
  }

  /** Deleting the value of a node with a missing child leaves the other child. */
  lemma DeleteInorderOneChild(root: Subtree)
    requires IsBst(root) && root.Node? && (root.left.Nil? || root.right.Nil?)
    ensures Inorder(Tree.Delete(root, root.value)) == Without(Inorder(root), root.value)
  {
    InorderContents(root.left);
    InorderContents(root.right);
    WithoutMiddle(root.left, root.value, root.right);
  }

  /** Deletion from a BST leaves the in-order sequence with `value` taken out and the order kept. */
  lemma {:induction false} DeleteInorder(root: Subtree, value: int)
    requires IsBst(root)
    ensures Inorder(Tree.Delete(root, value)) == Without(Inorder(root), value)
    decreases root
  {
    if root.Node? {
      if root.value < value {
        DeleteInorder(root.right, value);
        DeleteInorderRight(root, value);
      } else if root.value > value {
        DeleteInorder(root.left, value);
        DeleteInorderLeft(root, value);
      } else {
        if root.left.Node? && root.right.Node? {
          DeleteInorder(root.right, Leftmost(root.right));
          DeleteInorderTwoChildren(root);
        } else {
          DeleteInorderOneChild(root);
        }
      }
    }
  }

  /** A node with two children takes the least value of its right subtree, and that value leaves the right subtree. */
  lemma DeleteTwoChildren(root: Subtree)
    requires IsBst(root) && root.Node? && root.left.Node? && root.right.Node?
    ensures Tree.Delete(root, root.value).Node?
    ensures Tree.Delete(root, root.value).left == root.left
    ensures Tree.Delete(root, root.value).value in Contents(root.right)
    ensures forall y :: y in Contents(root.right) ==> Tree.Delete(root, root.value).value <= y
    ensures Tree.Delete(root, root.value).value !in Contents(Tree.Delete(root, root.value).right)
  {
    DeleteKeepsBst(root.right, Leftmost(root.right));
  }
}
