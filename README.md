# Binary search tree with a destructive sorted view

This project models, in Dafny, the binary tree of the `de.uni_koeln.info.java.binarytree`
package: `BTreeNode`, a heap object with one value and two mutable child links, and `BTree`,
which owns a `root` link. It covers:

- construction, empty or from an array;
- insertion by recursive descent, which rejects duplicates;
- membership by iterative descent;
- the sorted list built by an explicitly stacked traversal;
- the range query built on top of that list.

The model keeps the form of the code:

- `BTreeNode` is a class with a `const value` and mutable `left`/`right` fields. Ghost fields
  `Repr` (the nodes of the subtree) and `Values` (its values) describe the subtree, and
  `Valid()` states that it is an ordered tree.
- `BTree` is a class with a `root` field and ghost `Nodes`/`Values`.
- Insertion updates links in place. `FromArray` is a `for` loop over the array, `Contains` and
  `AsSortedList` (through `Drain`) are `while` loops, and `ElementsSmallerThan` (through
  `KeepBelow`) is a `for` loop. The `Stack` and the `ArrayList`s are `seq`s.
- The element type `T extends Comparable<T>` is `int`. `compareTo` is integer comparison.

Three behaviours of the code are modelled as written:

- **Orientation.** Values GREATER than a node's value go to its LEFT subtree, smaller ones to
  its RIGHT subtree (`BTree.java` lines 165 and 174, matched by `contains` at 241-244). The
  comments in the code describe the opposite orientation. Insertion and membership agree, so
  membership is exact. The in-order print (left, node, right) therefore visits the values in
  descending order, although the comment at `BTree.java:208-215` says it visits them sorted
  with the smaller values on the left.
- **Destructive traversal.** The sorted-list traversal nulls every child link it consumes.
  Afterwards the tree is the root alone, so the tree's value set becomes `{root.value}`.
- **Empty tree.** The sorted-list traversal reads `root.value` after its loop without a null
  check (`BTree.java:326`), so on an empty tree the Java code throws a null-pointer exception.
  The source says nothing else about an empty tree. The model does not model the exception:
  `AsSortedList` and `ElementsSmallerThan` require `root != null`, which excludes that call
  (see "## Left out").

The proof of the traversal uses a ghost record of the tree taken before the loop:

- the nodes `N`;
- the original links `L0`/`R0`;
- the subtree footprints `Sub`;
- a ghost set `Cut` of the nodes emitted so far.

The invariant (`Traversal.Walk`, together with `Traversal.Mirrors` for the heap) says:

- every live link reads as the recorded link, trimmed by `Cut`;
- the stack followed by `current` is a live path down from the root;
- every consumed node had already lost both of its links;
- the emitted values are those of the consumed nodes, each once.

Termination is lexicographic. Either one more node is consumed, or the stack and the
leaf-ness of `current` make progress (`Traversal.Rank`).

## Model

| member | source | states |
|---|---|---|
| TreeNode.BTreeNode.constructor | binarytree/src/de/uni_koeln/info/java/binarytree/BTreeNode.java:9-11 | the new node holds the given value and both child links are null; it is a valid one-node subtree |
| TreeNode.ReprClosed | binarytree/src/de/uni_koeln/info/java/binarytree/BTreeNode.java:4-5 | every node reachable in a valid subtree is itself the root of a valid subtree inside it |
| TreeNode.ChildrenInside | binarytree/src/de/uni_koeln/info/java/binarytree/BTreeNode.java:4-5 | no child link of a node of a valid subtree leads outside the subtree |
| TreeNode.RootUnlinked | binarytree/src/de/uni_koeln/info/java/binarytree/BTreeNode.java:4-5 | no link inside a valid subtree points back at its root, so there is no cycle through the root |
| TreeNode.SingleLeftParent | binarytree/src/de/uni_koeln/info/java/binarytree/BTreeNode.java:4 | no two nodes of a valid subtree share a left child |
| TreeNode.SingleRightParent | binarytree/src/de/uni_koeln/info/java/binarytree/BTreeNode.java:5 | no two nodes of a valid subtree share a right child |
| TreeNode.LeftNeverRight | binarytree/src/de/uni_koeln/info/java/binarytree/BTreeNode.java:4-5 | no node is the left child of one node and the right child of another: with `SingleLeftParent` and `SingleRightParent`, every node has at most one parent link |
| TreeNode.HasParent | binarytree/src/de/uni_koeln/info/java/binarytree/BTreeNode.java:4-5 | every node of a subtree but its root is the left or right child of some node of the subtree; with the rows above, every node but the root has exactly one parent link |
| TreeNode.ValuesOfNodes | binarytree/src/de/uni_koeln/info/java/binarytree/BTreeNode.java:6 | the value set of a valid subtree is exactly the set of its nodes' values, and no two nodes hold the same value |
| TreeNode.InOrder | binarytree/src/de/uni_koeln/info/java/binarytree/BTree.java:207-227 | the left-node-right order of the print traversal is strictly descending (greater values sit on the left) and holds exactly the subtree's values |
| SortedSeq.ReversedDescending | binarytree/src/de/uni_koeln/info/java/binarytree/BTree.java:207-227 | the print order read backwards is strictly ascending, with the same elements |
| BinaryTree.BTree.constructor | binarytree/src/de/uni_koeln/info/java/binarytree/BTree.java:141-143 | the default constructor gives an empty valid tree: no root, no nodes, no values |
| BinaryTree.BTree.FromArray | binarytree/src/de/uni_koeln/info/java/binarytree/BTree.java:145-149 | inserting the array elements in order gives a valid tree whose values are exactly the array's elements, with the first element at the root |
| BinaryTree.BTree.Insert | binarytree/src/de/uni_koeln/info/java/binarytree/BTree.java:151-159 | an empty tree gets a fresh leaf holding `value` as its root and true; otherwise the root is kept. The result is true iff the value was absent. The value set becomes old ∪ {value}. A rejected value changes no node and no link. An accepted one adds exactly one fresh leaf, hung on a formerly null link, and no other link changes |
| BinaryTree.BTree.InsertAt | binarytree/src/de/uni_koeln/info/java/binarytree/BTree.java:161-185 | on a valid subtree: greater values descend left, smaller right, an equal value gives false. The subtree stays valid, i.e. ordered (left values > node value > right values); it gains exactly the new leaf iff the value was absent, and only one formerly null link changes |
| BinaryTree.BTree.InsertLeft | binarytree/src/de/uni_koeln/info/java/binarytree/BTree.java:165-171 | for a value greater than the node's: a leaf is attached at a null left link, or the insertion descends left; validity and the footprint/value bookkeeping are restored |
| BinaryTree.BTree.InsertRight | binarytree/src/de/uni_koeln/info/java/binarytree/BTree.java:174-180 | for a value smaller than the node's: a leaf is attached at a null right link, or the insertion descends right; validity and the footprint/value bookkeeping are restored |
| BinaryTree.BTree.Contains | binarytree/src/de/uni_koeln/info/java/binarytree/BTree.java:236-251 | changes nothing, and returns true iff the value is stored in the tree; the descent terminates because each step moves into a strictly smaller subtree |
| BinaryTree.BTree.AsSortedList | binarytree/src/de/uni_koeln/info/java/binarytree/BTree.java:260-333 | on a non-empty tree: the result holds every stored value exactly once, in strictly ascending order, and equals the in-order print order read backwards; afterwards no node of the old tree has a child, and the tree is the root alone |
| BinaryTree.Drain | binarytree/src/de/uni_koeln/info/java/binarytree/BTree.java:264-325 | the traversal loop terminates, nulls every link of the tree, and emits the values of all nodes but the root, each once |
| BinaryTree.Step | binarytree/src/de/uni_koeln/info/java/binarytree/BTree.java:293-324 | one turn of the loop keeps the traversal invariant and makes the loop measure decrease |
| BinaryTree.StepRight | binarytree/src/de/uni_koeln/info/java/binarytree/BTree.java:294-303 | pushing and moving right, then emitting a leaf child and cutting its link, keeps the invariant and makes progress |
| BinaryTree.StepLeft | binarytree/src/de/uni_koeln/info/java/binarytree/BTree.java:304-313 | the same for the left link |
| BinaryTree.StepUp | binarytree/src/de/uni_koeln/info/java/binarytree/BTree.java:314-323 | leaving a node with no links pops the stack, or ends the loop exactly when the stack is empty, and lowers the rank |
| BinaryTree.Finished | binarytree/src/de/uni_koeln/info/java/binarytree/BTree.java:293 | when the loop exits, every node but the root has been consumed and emitted, and no node has a link left |
| BinaryTree.Record | binarytree/src/de/uni_koeln/info/java/binarytree/BTree.java:264-268 | the initial state (empty list, empty stack, `current` at the root) satisfies the traversal invariant for a valid tree |
| BinaryTree.BTree.ElementsSmallerThan | binarytree/src/de/uni_koeln/info/java/binarytree/BTree.java:340-367 | on a non-empty tree: the result is strictly ascending, holds exactly the stored values below `value`, and is the sorted list filtered to the values below `value`; the destructive effect is that of the sorted list |
| BinaryTree.KeepBelow | binarytree/src/de/uni_koeln/info/java/binarytree/BTree.java:345-353 | the copying loop keeps exactly the items below `value`, in list order |
| SortedSeq.Below | binarytree/src/de/uni_koeln/info/java/binarytree/BTree.java:350-352 | the filter keeps exactly the elements below `v` and preserves strict ascending order |
| Traversal.ChildBelow | binarytree/src/de/uni_koeln/info/java/binarytree/BTree.java:295-296 | a child reached through a live link is an unconsumed node, strictly below every node on the stack, so it is not already on the stack |
| Traversal.Descend | binarytree/src/de/uni_koeln/info/java/binarytree/BTree.java:295-296 | pushing the current node and moving to its child keeps a live path from the root, and the stack never exceeds the number of nodes |
| Traversal.Consume | binarytree/src/de/uni_koeln/info/java/binarytree/BTree.java:298-301 | emitting a leaf child and cutting its link consumes a node not consumed before, keeps the path, and changes no other link |
| Traversal.ConsumeCutsOneLink | binarytree/src/de/uni_koeln/info/java/binarytree/BTree.java:301 | cutting the link to a consumed child changes only that link of that parent |
| Traversal.Ascend | binarytree/src/de/uni_koeln/info/java/binarytree/BTree.java:317-318 | the popped node still has a live link, so it is not a leaf, and the shorter stack is again a path |
| Traversal.ConsumedBelow | binarytree/src/de/uni_koeln/info/java/binarytree/BTree.java:298-312 | a node with no live links has had its whole original subtree consumed |
| Traversal.EmittedOnce | binarytree/src/de/uni_koeln/info/java/binarytree/BTree.java:326 | the emitted values followed by the root's value are distinct and are exactly the tree's values |
| Traversal.SnapshotShaped | binarytree/src/de/uni_koeln/info/java/binarytree/BTreeNode.java:4-6 | the record taken of a valid tree describes a tree: nesting footprints, one parent per node, distinct values |
| SortedSeq.SortAscending | binarytree/src/de/uni_koeln/info/java/binarytree/BTree.java:330 | the sort yields an ascending permutation of its input, strictly ascending when the input is distinct |
| SortedSeq.InsertSorted | binarytree/src/de/uni_koeln/info/java/binarytree/BTree.java:330 | inserting into an ascending list keeps it ascending, and strictly so when the element is new |
| SortedSeq.SortedOnce | binarytree/src/de/uni_koeln/info/java/binarytree/BTree.java:330 | sorting distinct values gives them strictly ascending, none lost or added |
| SortedSeq.AscendingUnique | binarytree/src/de/uni_koeln/info/java/binarytree/BTree.java:330 | two strictly ascending sequences with the same elements are equal, so the sorted list is determined by the value set |

## Left out

- `print()` and `print(BTreeNode)` (`BTree.java:187-227`) write to the console. Only the order in which
  they visit the values is modelled, as the ghost function `TreeNode.InOrder`. The output itself is not.
- `BTreeNode.toString` formats a value with a library call. It is not modelled.
- Generics and `Comparable`: the element type is `int`, and `compareTo` is integer comparison.
- `Collections.sort` is modelled by its effect, an insertion-sort function `SortAscending`. Its
  algorithm is not modelled.
- `java.util.Stack` and `ArrayList` are modelled as `seq` values. Their capacity and
  reallocation are not modelled.
- BinaryTree.BTree.FromArray: three failure cases of `BTree(T[])` are not modelled. A null
  `input` array throws at the for-each (line 146); the parameter is a non-null `array<int>`.
  A null element is stored without a comparison when it becomes the root (lines 152-154), and
  throws only when a later value is compared with it (lines 165, 174, 241, 243); `int`
  elements are never null. The recursive `insert` (lines 170, 179) can overflow the Java call
  stack on a degenerate tree; the model has no stack bound.
- BinaryTree.BTree.AsSortedList: on an empty tree the code throws a null-pointer exception at
  line 326. The exception is not modelled; the precondition `root != null` excludes the call.
- BinaryTree.BTree.ElementsSmallerThan: it calls the sorted-list traversal first (line 343),
  so it throws the same exception on an empty tree. It is not modelled either; the same
  precondition `root != null` excludes the call.
- BinaryTree.BTree.InsertAt: the private `insert` also handles a null node, returning false
  (line 163). The model's parameter is non-null instead, because both callers (lines 158, 170
  and 179) only pass existing nodes.
- BinaryTree.BTree.Insert: it returns a ghost `leaf` next to the Java boolean, naming the
  attached node in the contract. It carries no run-time information.
- BinaryTree.BTree.AsSortedList: the ghost fields of the nodes are stale while the loop runs.
  They are brought up to date once it ends.
