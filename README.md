# Binary search tree of `lib/main.rb`, modelled in Dafny

`lib/main.rb` builds a binary search tree from an array of integers. `Tree.new(array)` works in three steps:

1. It sorts the array with a recursive midpoint merge sort (`MergeSort#merge_sort`).
2. It removes repeated values with `uniq!`.
3. It builds a bisected tree by always rooting a range at index `(start + stop) / 2` (`Tree#build_tree`).

The tree has three other operations:

- `insert` adds a leaf, unless the value is listed in the cached `@processed_array`.
- `delete` removes a value. In the two-child case the node takes the least value of its right subtree, and that value is then deleted from the right subtree.
- `minimum` follows left children down to the least value.

The file ends with a short driver that builds a sample tree, prints it, inserts 2 and 1, and deletes 8.

The files of the model:

- `sequences.dfy`: `Option`, and orderings on integer sequences.
  - `SlotIn` is sorted insertion: the reference for `insert`.
  - `Without` removes every occurrence of a value: the reference for `delete`.
- `merge_sort.dfy`: `merge_sort`.
  - `MergeSorted` (with `Merged`) is its recursive reference definition.
  - `Merge` and `Sort` are the loop and the recursion of the Ruby code, proved equal to that definition.
- `normaliser.dfy`: Ruby's `uniq` and `uniq!`, and `Normalise`, which is `merge_sort(array).uniq!`.
- `nodes.dfy`: the `Node` class as the datatype `Subtree`, where `Nil` is Ruby's `nil`. Ghost helpers give the in-order sequence, the contents, the size, the number of levels and the BST ordering.
- `tree.dfy`: the class `Tree`. Its fields are `input`, `processedArray` and `root`, which stand for `@array`, `@processed_array` and `@root`. The file has the constructor, `build_tree`, `insert`, `delete` and `minimum`, and the lemmas about them.
- `scenario.dfy`: the sample run followed step by step.

`insert` and `delete` become functions that return the new subtree. The Ruby methods update each node on the search path in place, storing the recursive call's result in the child field (`root.right_child = insert(...)`), and return that same node. The model instead rebuilds the nodes on the path as new values; the resulting tree is the same. The driver drops the result of `tree.insert(tree.root, v)` and `tree.delete(tree.root, v)`. `Tree.InsertIntoRoot` and `Tree.DeleteFromRoot` model that: they say when the in-place updates show through `@root` and when they do not.

Two behaviours of the code are easy to miss, and the model keeps both:

- Ties in the merge are taken from the second half, because the comparison is the strict `a[0] < b[0]` (lib/main.rb:24).
- `insert` checks only the cached `@processed_array`, never the tree itself (lib/main.rb:59, 62-65). A value of the original array, once deleted, cannot be inserted again. A value outside it that the tree already holds is stored a second time, on the left (`InsertPresentDuplicates`).

## Model

| member | source | states |
|---|---|---|
| MergeSort.Merge | lib/main.rb:23-25 | the merge loop returns exactly `Merged(a, b)`: the front of `a` is taken only when it is strictly below the front of `b`, and once one side is empty the rest of both is appended |
| MergeSort.Sort | lib/main.rb:19-26 | `merge_sort` returns the recursive reference `MergeSorted(s)`, and arrays of size 0 or 1 unchanged |
| MergeSort.MergeSortedSorts | lib/main.rb:19-26 | the result of `merge_sort` is ascending and a permutation of the input (same multiset), and short inputs are returned as they are |
| MergeSort.MergeSortedPermutes | lib/main.rb:19-26 | `merge_sort` keeps every element with its multiplicity |
| MergeSort.MergeSortedAscending | lib/main.rb:19-26 | `merge_sort` returns an ascending sequence |
| MergeSort.MergedPermutes | lib/main.rb:24-25 | the merge's output is the multiset union of the two halves |
| MergeSort.MergedAscending | lib/main.rb:24-25 | merging two ascending halves gives an ascending sequence |
| Normaliser.UniqBang | lib/main.rb:36 | `uniq!`: no contract of its own; specified by `UniqBangNil` (nil exactly when nothing repeats) and, through `Uniq`, by `UniqOfDistinct` and `UniqOfAscending` |
| Normaliser.Normalise | lib/main.rb:36 | `merge_sort(array).uniq!`: no contract of its own; specified by `NormaliseNil`, `NormaliseSpec` and `NormaliseIs` |
| Normaliser.Uniq | lib/main.rb:36 | `uniq` leaves no value repeated and keeps exactly the values of its argument |
| Normaliser.UniqBangNil | lib/main.rb:36 | `uniq!` answers `nil` exactly when its argument has no repeated value |
| Normaliser.UniqOfAscending | lib/main.rb:36 | `uniq` of an ascending sequence is strictly ascending |
| Normaliser.NormaliseNil | lib/main.rb:36 | `merge_sort(array).uniq!` is `nil` exactly when the array has no repeated value |
| Normaliser.NormaliseSpec | lib/main.rb:36 | for an array with a repeated value, `@processed_array` is strictly ascending and holds exactly the array's values, each once |
| Normaliser.NormaliseIs | lib/main.rb:36 | `@processed_array` is the one strictly ascending sequence with the array's values |
| BinarySearchTree.Tree.constructor | lib/main.rb:34-38 | stores the array, sets `@processed_array` to the normalised array, and sets `@root` to `build_tree` of that, which is a BST whose in-order sequence is `@processed_array`; only an array with a repeated value gets that far |
| BinarySearchTree.Tree.BuildTree | lib/main.rb:41-50 | `build_tree`: no contract of its own; specified by `BuildTreeRoot`, `BuildTreeInorder`, `BuildTreeSize`, `BuildTreeBst`, `BuildTreeBisected` and `BuildTreeLevels` |
| BinarySearchTree.Midpoint | lib/main.rb:44 | the floored midpoint lies inside a non-empty range |
| BinarySearchTree.MidpointBisects | lib/main.rb:44 | the midpoint has as many indices above it as below, or one more |
| BinarySearchTree.BuildTreeRoot | lib/main.rb:41-45 | `build_tree` is `nil` exactly when `start > stop`, and otherwise its root holds `items[(start + stop) / 2]` |
| BinarySearchTree.BuildTreeInorder | lib/main.rb:41-50 | the in-order sequence of `build_tree(items, start, stop)` is `items[start..stop]` |
| BinarySearchTree.BuildTreeSize | lib/main.rb:41-50 | `build_tree` makes one node per index of the range |
| BinarySearchTree.BuildTreeBst | lib/main.rb:41-50 | built from a strictly ascending array, the tree satisfies the BST ordering |
| BinarySearchTree.BuildTreeBisected | lib/main.rb:44-47 | at every node of a built tree, the right side has as many nodes as the left side, or one more, and the tree has one node per index |
| BinarySearchTree.BuildTreeLevels | lib/main.rb:44-47 | a tree built from `L` values has `floor(log2(L)) + 1` levels: `2^(k-1) <= L < 2^k` |
| BinarySearchTree.Tree.Insert | lib/main.rb:58-68 | `insert` is `nil` exactly when the value is cached in `@processed_array`; otherwise the tree gains exactly that value, at a new leaf, with one node more |
| BinarySearchTree.InsertInorder | lib/main.rb:60-67 | into a BST, an uncached value is inserted at its sorted place in the in-order sequence |
| BinarySearchTree.InsertKeepsBst | lib/main.rb:60-67 | inserting an uncached value that the BST lacks keeps the BST ordering |
| BinarySearchTree.InsertPermutes | lib/main.rb:60-67 | on any tree, inserting an uncached value adds one occurrence of it and loses nothing |
| BinarySearchTree.InsertPresentDuplicates | lib/main.rb:62-65 | a value that the tree holds but the cache lacks is inserted again, since equal values go left, so the in-order sequence gets a repeated value |
| BinarySearchTree.Tree.Delete | lib/main.rb:70-87 | deleting an absent value returns the tree unchanged, and deletion never adds a value |
| BinarySearchTree.DeleteKeepsBst | lib/main.rb:70-87 | on a BST, `delete` keeps the BST ordering and removes exactly the value |
| BinarySearchTree.DeleteInorder | lib/main.rb:70-87 | on a BST, the in-order sequence after `delete` is the old one with the value taken out, order kept |
| BinarySearchTree.DeleteTwoChildren | lib/main.rb:83-84 | a node with two children takes the least value of its right subtree, keeps its left subtree, and that value leaves the right subtree |
| BinarySearchTree.Tree.Minimum | lib/main.rb:89-96 | the loop ends and returns the leftmost value, which is in the subtree and, in a BST, is its least value |
| Nodes.Subtree | lib/main.rb:2-10 | the `Node` class with its value and two children, where `Nil` is Ruby's `nil`; a datatype, specified through `Inorder`, `Contents`, `Size` and `IsBst` |
| Nodes.Leftmost | lib/main.rb:89-96 | the value reached by following left children is in the subtree and, in a BST, no larger than any of its values |
| BinarySearchTree.Tree.InsertIntoRoot | lib/main.rb:104-105 | `tree.insert(tree.root, v)` with its result dropped changes `@root` only when the root is a node and `v` is not cached, and then `@root` becomes the insertion's result |
| BinarySearchTree.Tree.DeleteFromRoot | lib/main.rb:107 | `tree.delete(tree.root, v)` with its result dropped leaves `@root` as it was when the root holds `v` and lacks a child; otherwise `@root` shows the deletion |
| SampleRun.SampleNormalise | lib/main.rb:99-102 | the sample array normalises to `[1, 3, 4, 5, 7, 8, 9, 23, 67, 324, 6345]` |
| SampleRun.BuildTreeEleven | lib/main.rb:41-50 | eleven values give a root holding the sixth, two non-empty sides, and the last five values on the right |
| SampleRun.SampleInsert | lib/main.rb:104 | inserting 2 into the sample tree keeps the BST ordering, puts 2 in order after 1, and leaves the root 8 and its right side as they were |
| SampleRun.SampleDelete | lib/main.rb:107 | deleting the root 8 then leaves a BST whose root holds 9 and whose in-order sequence lacks 8 |
| SampleRun.Run | lib/main.rb:99-108 | the sample run prints 8 as the root and keeps the argument and its normalised values; after inserting 2 and 1 and deleting 8, the tree is a BST whose root holds 9 and whose in-order sequence is `[1, 2, 3, 4, 5, 7, 9, 23, 67, 324, 6345]`, and 8 cannot be inserted again because the cache still lists it |

## Left out

- `pretty_print` (lib/main.rb:52-56) and the `puts` lines of the driver write to the console. The model records only the printed root value.
- `Node#<=>` and `Comparable` (lib/main.rb:3, 12-14) are not modelled. The values are integers compared with `<` and `>`, which is what the tree code uses.
- Ruby integers do not overflow, so `int` is exact and no width is modelled.
- Tree.constructor: requires an array with a repeated value. On a duplicate-free array, `uniq!` yields `nil` and `build_tree(nil)` raises. The model does not represent the exception. `Normalise` still returns `None` in that case (`NormaliseNil`).
- Tree.Minimum: requires a node. The source reads `root.value` first, so `minimum(nil)` raises; `delete` only calls it on a right child that is present.
- Node identity and sharing are not modelled. Subtrees are values. This is faithful inside `insert` and `delete`, because each recursive result is stored back into the same child field. Outside them it holds only through `InsertIntoRoot` and `DeleteFromRoot`, which cover the driver's dropped results.
- The `attr_accessor` setters for `array`, `processed_array` and `root` are not modelled, because the shown code never calls them.
- The source has no traversal, search or height operation of its own. `Inorder`, `Contents`, `Size` and `Levels` are ghost helpers for stating properties, not modelled operations.
