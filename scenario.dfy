/** The sample run at the end of `lib/main.rb`, followed through the model. */
module SampleRun {
  import opened Optional
  import opened Sequences
  import opened MergeSort
  import opened Normaliser
  import opened Nodes
  import opened BinarySearchTree

  /** The argument of `Tree.new` in the sample run. */
  const Sample: seq<int> := [1, 7, 4, 23, 8, 9, 4, 3, 5, 7, 9, 67, 6345, 324]

  /** Its sorted, de-duplicated values. */
  const Processed: seq<int> := [1, 3, 4, 5, 7, 8, 9, 23, 67, 324, 6345]

  /** The shape `build_tree` gives eleven values: the sixth at the root, five on each side. */
  lemma BuildTreeEleven(items: seq<int>)
    requires |items| == 11
    ensures var root := Tree.BuildTree(items, 0, |items| - 1);
      root.Node? && root.value == items[5] && root.left.Node? && root.right.Node? &&
      Inorder(root.right) == items[6..]
  {
    var stop := |items| - 1;
    var mid := Midpoint(0, stop);
    assert mid == 5;
    BuildTreeInorder(items, mid + 1, stop);
    assert items[mid + 1..stop + 1] == items[6..];
  }

  lemma SampleRepeats()
    ensures HasDuplicate(Sample)
  {
    assert Sample[2] == Sample[6];
  }

  lemma SampleValues()
    ensures forall x :: x in Processed <==> x in Sample
  {
  }

  /** `@processed_array` of the sample tree: the argument sorted, with the repeated 4, 7 and 9 dropped. */
  lemma SampleNormalise()
    ensures Normalise(Sample) == Some(Processed)
  {
    SampleRepeats();
    SampleValues();
    StrictlyAscendingByNeighbours(Processed);
    NormaliseIs(Sample, Processed);
  }

  /** The in-order sequence the last `pretty_print` of the sample run shows. */
  const Final: seq<int> := [1, 2, 3, 4, 5, 7, 9, 23, 67, 324, 6345]

  /** The in-order sequence after inserting 2. */
  const Grown: seq<int> := [1, 2, 3, 4, 5, 7, 8, 9, 23, 67, 324, 6345]

  /** 2 slots in after the 1. */
  lemma GrownBySlotIn()
    ensures SlotIn(Processed, 2) == Grown
  {
    var tail := Processed[1..];
    assert Processed == [1] + tail && tail[0] == 3;
    assert Grown == [1] + ([2] + tail);
  }

  /** Taking 8 out of the grown sequence. */
  lemma FinalByWithout()
    ensures Without(Grown, 8) == Final
  {
    var front: seq<int>, back: seq<int> := [1, 2, 3, 4, 5, 7], [9, 23, 67, 324, 6345];
    assert Grown == front + [8] + back && Final == front + back;
    WithoutOnce(front, 8, back);
  }

  /** Inserting 2 into the sample tree: it goes left of the root and into its sorted place. */
  lemma SampleInsert(t: Tree, built: Subtree)
    requires t.processedArray == Processed && IsBst(built) && Inorder(built) == Processed
    requires built.Node? && built.value == 8 && built.left.Node?
    ensures t.Insert(built, 2).Some?
    ensures var grown := t.Insert(built, 2).value;
      IsBst(grown) && Inorder(grown) == Grown &&
      grown.Node? && grown.value == 8 && grown.left.Node? && grown.right == built.right
  {
    InorderContents(built);
    InsertKeepsBst(t, built, 2);
    GrownBySlotIn();
  }

  /** Deleting the root 8 after that: its two children make it take 9, the first value on its right. */
  lemma SampleDelete(grown: Subtree)
    requires IsBst(grown) && Inorder(grown) == Grown
    requires grown.Node? && grown.value == 8 && grown.left.Node? && grown.right.Node?
    requires Inorder(grown.right) == Processed[6..]
    ensures var after := Tree.Delete(grown, 8);
      IsBst(after) && Inorder(after) == Final && after.Node? && after.value == 9
  {
    var m := Leftmost(grown.right);
    LeftmostFirst(grown.right);
    assert m == Inorder(grown.right)[0] == 9;
    assert Tree.Delete(grown, 8) == Node(grown.left, m, Tree.Delete(grown.right, m));
    DeleteKeepsBst(grown, 8);
    DeleteInorder(grown, 8);
    FinalByWithout();
  }

  /** The sample run: build the tree and print its root, insert 2, insert the cached 1, delete the
      root 8. The root then holds 9, the least value of its right subtree, and the cache still lists
      the deleted 8, so inserting it again is refused. */
  method Run() returns (t: Tree, printedRoot: int)
    ensures printedRoot == 8
    ensures t.input == Sample && t.processedArray == Processed
    ensures IsBst(t.root) && Inorder(t.root) == Final
    ensures t.root.Node? && t.root.value == 9
    ensures t.Insert(t.root, 8).None?
  {
    assert Sample[2] == Sample[6];
    t := new Tree(Sample);
    SampleNormalise();
    var built := t.root;
    BuildTreeEleven(t.processedArray);
    printedRoot := built.value;

    t.InsertIntoRoot(2);
    SampleInsert(t, built);
    var grown := t.root;

    t.InsertIntoRoot(1);
    assert t.root == grown;

    t.DeleteFromRoot(8);
    SampleDelete(grown);
  }
}
