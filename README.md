# Lazy-deletion binary search tree

A Dafny model of `LazySearchTree`. This is a plain, unbalanced binary search tree in which `remove` only sets a node's
`deleted` flag. The tree object holds a root link and two counters: `mSize` counts live nodes and `mSizeHard`
counts every node, deleted or not.

- `lazy_nodes.dfy`, module `LazyNodes`: the node shape `LazySTNode`. It is the datatype
  `Tree = Leaf | Node(left, data, deleted, right)`, where `Leaf` stands for a null link. The module also holds the
  node-level recursions of the class (`find`, soft `findMin`/`findMax`, `traverseHard`/`traverseSoft`, `findHeight`,
  `cloneSubtree`) as functions, and the tree each mutator leaves behind (`Inserted`, `MarkDeleted`). It gives an
  abstract view (`Elements`, `LiveSet`, `HardCount`, `SoftCount`, `IsBST`, `SameShape`, `Height`, `InOrder`) and the
  lemmas relating all of these.
- `lazy_search_tree.dfy`, module `LazyTrees`: the class `LazySearchTree` with the fields `mSize`, `mSizeHard` and
  `mRoot`. Its invariant `Valid()` says three things: the ordering holds over all nodes, `mSize` is the number of live
  nodes, and `mSizeHard` is the number of nodes. `clear`, `insert`, `remove` and the node-level `insert(root, x)` /
  `remove(root, x)` are methods that update the fields. The read-only public operations are functions that read
  them. The two Java exceptions become `Err(NoSuchElement)` and `Err(NullPointer)` of a `Result`.

Elements are `int` and the order is `<`, standing in for `Comparable.compareTo`. A visitor call per element is
modelled as the sequence of elements the traversal visits.

## Model

| member | source | states |
|---|---|---|
| `LazyNodes.TraverseHard` | src/lazyTrees/LazySearchTree.java:244-252 | the hard traversal visits one element per node, and exactly the elements held by nodes |
| `LazyNodes.TraverseSoft` | src/lazyTrees/LazySearchTree.java:260-269 | the soft traversal visits one element per live node, and exactly the live elements |
| `LazyNodes.TraverseHardIsInOrder` | src/lazyTrees/LazySearchTree.java:244-252 | the hard traversal is the data of the in-order node sequence |
| `LazyNodes.TraverseSoftIsLiveInOrder` | src/lazyTrees/LazySearchTree.java:260-269 | the soft traversal is that same in-order sequence with the deleted nodes filtered out |
| `LazyNodes.HardSorted` | src/lazyTrees/LazySearchTree.java:244-252 | under the ordering invariant the hard traversal is strictly increasing |
| `LazyNodes.SoftSorted` | src/lazyTrees/LazySearchTree.java:260-269 | under the ordering invariant the soft traversal is strictly increasing |
| `LazyNodes.Find` | src/lazyTrees/LazySearchTree.java:277-291 | a found node holds x and is live; under the ordering invariant a live x is always found, and a deleted match is reported as null |
| `LazyNodes.FindMin` | src/lazyTrees/LazySearchTree.java:168-177 | returns null exactly when no node of the subtree is live; otherwise a live node holding the first element of the soft traversal |
| `LazyNodes.FindMax` | src/lazyTrees/LazySearchTree.java:184-193 | returns null exactly when no node is live; otherwise a live node holding the last element of the soft traversal |
| `LazyNodes.FindMinIsLeast` | src/lazyTrees/LazySearchTree.java:168-177 | under the ordering invariant findMin finds a node exactly when some element is live, and that element is the least live one |
| `LazyNodes.FindMaxIsGreatest` | src/lazyTrees/LazySearchTree.java:184-193 | under the ordering invariant findMax finds a node exactly when some element is live, and it is the greatest live one |
| `LazyNodes.FindHeight` | src/lazyTrees/LazySearchTree.java:313-321 | findHeight(t, h) is h plus one plus the height of t, so findHeight(t, -1) is the height |
| `LazyNodes.HeightBounds` | src/lazyTrees/LazySearchTree.java:313-321 | the height is -1 exactly for the empty tree and is smaller than the node count |
| `LazyNodes.CloneSubtree` | src/lazyTrees/LazySearchTree.java:298-311 | the copy has the same shape and elements, and every one of its elements is live |
| `LazyNodes.CloneSubtreeRevives` | src/lazyTrees/LazySearchTree.java:304-309 | the copy's soft traversal is the original's hard traversal, and its live count is the original's node count |
| `LazyNodes.CloneSubtreeKeepingFlags` | src/lazyTrees/LazySearchTree.java:298-311 | a copy that keeps the deleted flags equals the original |
| `LazyNodes.SoftAtMostHard` | src/lazyTrees/LazySearchTree.java:14-15 | live count ≤ node count, with equality exactly when the soft and hard traversals coincide (no node deleted) |
| `LazyNodes.SoftCountZero` | src/lazyTrees/LazySearchTree.java:29-31 | the live count is zero exactly when no element is live |
| `LazyNodes.SameShapeAgrees` | src/lazyTrees/LazySearchTree.java:228-236 | two trees that differ only in deleted flags have the same elements, node count, hard traversal and height, and the same ordering |
| `LazyNodes.InsertedElements` | src/lazyTrees/LazySearchTree.java:201-221 | after insert the elements and the live elements are the old ones plus x |
| `LazyNodes.InsertedBST` | src/lazyTrees/LazySearchTree.java:201-221 | insert preserves the ordering invariant |
| `LazyNodes.InsertedCounts` | src/lazyTrees/LazySearchTree.java:204-218 | insert adds one node exactly when x was absent and one live node exactly when x was not live |
| `LazyNodes.InsertedPresentKeepsShape` | src/lazyTrees/LazySearchTree.java:215-218 | inserting a present (live or deleted) element creates no node: only a flag can change |
| `LazyNodes.InsertedLiveUnchanged` | src/lazyTrees/LazySearchTree.java:210-220 | inserting a live element leaves the tree unchanged |
| `LazyNodes.MarkDeletedKeepsShape` | src/lazyTrees/LazySearchTree.java:228-236 | lazy removal changes no node and no element, only a flag |
| `LazyNodes.MarkDeletedFound` | src/lazyTrees/LazySearchTree.java:228-236 | if find succeeds the live count drops by one; if it fails the tree is unchanged; afterwards find fails |
| `LazyNodes.MarkDeletedLive` | src/lazyTrees/LazySearchTree.java:228-236 | under the ordering invariant removal takes exactly x out of the live elements |
| `LazyNodes.MarkDeletedIdempotent` | src/lazyTrees/LazySearchTree.java:228-236 | a second removal of the same element changes nothing |
| `LazyNodes.InsertRemoveInsert` | src/lazyTrees/LazySearchTree.java:201-236 | insert x, remove x, insert x leaves exactly the tree the first insert left, so the same node is resurrected |
| `LazyTrees.LazySearchTree.constructor` | src/lazyTrees/LazySearchTree.java:21-23 | a new tree is empty and valid |
| `LazyTrees.LazySearchTree.Clear` | src/lazyTrees/LazySearchTree.java:44-48 | clear empties the root, zeroes both counters and establishes the invariant |
| `LazyTrees.LazySearchTree.Empty` | src/lazyTrees/LazySearchTree.java:29-31 | empty is true exactly when no element is live |
| `LazyTrees.LazySearchTree.Size` | src/lazyTrees/LazySearchTree.java:37-39 | size is the length of the soft traversal and at most sizeHard |
| `LazyTrees.LazySearchTree.SizeHard` | src/lazyTrees/LazySearchTree.java:58-60 | sizeHard is the length of the hard traversal and at least size |
| `LazyTrees.LazySearchTree.ShowHeight` | src/lazyTrees/LazySearchTree.java:50-52 | showHeight is the tree's height: -1 exactly for an empty root, below sizeHard otherwise |
| `LazyTrees.LazySearchTree.FindMin` | src/lazyTrees/LazySearchTree.java:66-70 | as written: NoSuchElement on a null root, NullPointer when nodes remain but none is live, otherwise the least live element |
| `LazyTrees.LazySearchTree.FindMax` | src/lazyTrees/LazySearchTree.java:76-80 | as written: the same error cases, otherwise the greatest live element |
| `LazyTrees.LazySearchTree.FindMinChecked` | src/lazyTrees/LazySearchTree.java:66-70 | corrected: fails with NoSuchElement exactly when no element is live, otherwise returns the least live element |
| `LazyTrees.LazySearchTree.FindMaxChecked` | src/lazyTrees/LazySearchTree.java:76-80 | corrected: fails with NoSuchElement exactly when no element is live, otherwise returns the greatest live element |
| `LazyTrees.LazySearchTree.Find` | src/lazyTrees/LazySearchTree.java:87-93 | returns x exactly when x is live, and throws NoSuchElement when x is absent or deleted |
| `LazyTrees.LazySearchTree.Contains` | src/lazyTrees/LazySearchTree.java:100-102 | true exactly when x is live |
| `LazyTrees.LazySearchTree.TraverseSoft` | src/lazyTrees/LazySearchTree.java:131-134 | visits the live elements in strictly increasing order, mSize of them |
| `LazyTrees.LazySearchTree.TraverseHard` | src/lazyTrees/LazySearchTree.java:141-144 | visits every element in strictly increasing order, mSizeHard of them |
| `LazyTrees.LazySearchTree.Insert` | src/lazyTrees/LazySearchTree.java:109-113 | keeps the invariant and returns true exactly when x was not live. A new x raises both counters; a deleted x raises only mSize and keeps the shape; a live x changes nothing |
| `LazyTrees.LazySearchTree.Remove` | src/lazyTrees/LazySearchTree.java:120-124 | keeps the invariant and the shape, never changes mSizeHard, and returns true exactly when x was live, in which case only x leaves the live set and mSize drops by one |
| `LazyTrees.LazySearchTree.InsertAt` | src/lazyTrees/LazySearchTree.java:201-221 | node-level insert returns the inserted tree and moves each counter by the change in node (live node) count |
| `LazyTrees.LazySearchTree.RemoveAt` | src/lazyTrees/LazySearchTree.java:228-236 | node-level remove flags the node find returns and moves mSize by the change in live count |
| `LazyTrees.LazySearchTree.Clone` | src/lazyTrees/LazySearchTree.java:151-159 | as written: a fresh tree over cloneSubtree of the root, with mSize copied and mSizeHard left at 0 |
| `LazyTrees.LazySearchTree.CloneKeepingCounts` | src/lazyTrees/LazySearchTree.java:151-159 | corrected: a fresh, valid tree with the same nodes, flags and both counters |
| `LazyTrees.CloneBreaksCounters` | src/lazyTrees/LazySearchTree.java:151-159 | on any non-empty tree the clone's counters contradict its nodes: its live count is the original's node count |

The node-level `insert` and `remove` rebuild the tree along the search path and return it. The source instead writes
`lftChild`, `rtChild` and `deleted` in place. `Inserted` and `MarkDeleted` are the functions those methods are proved
against. `LazyTrees.Example` and `LazyTrees.ExampleAllDeleted` are client methods that replay two short runs against
the class contracts: insert 5, 3, 8, 1, 4, then remove and re-insert 3; and insert then remove one element.

## Left out

- Nodes are values, not heap objects. The in-place writes `root.deleted = false` and `temp.deleted = true`, and the
  relinking of children after a recursive insert, are modelled by returning the rebuilt tree. Aliasing between
  nodes is therefore not modelled; the source has none, since every node has exactly one parent link.
- The `Traverser` visitor and `PrintObject.visit` are left out: the visitor is a callback and `visit` prints to the
  console. Each traversal returns the sequence of elements it would pass to `visit`.
- `Cloneable` and `super.clone()` are not modelled. `Clone` allocates a new tree and then does what the source does
  after the shallow copy.
- The parent link `myRoot` and the AVL stubs `getHeight`/`setHeight` carry no behaviour and are left out, as is the
  no-argument `LazySTNode()` constructor, which nothing calls.
- Generic elements under `Comparable` are replaced by `int` with `<`.
- `mSize` and `mSizeHard` are Java `int`s. The model uses unbounded integers, so overflow beyond 2^31 - 1 nodes is
  not modelled.
- Hard removal, garbage collection and structural (hard) minimum and maximum are not part of this source file, so
  they are not modelled.

## Findings

| source | as written | input that shows it | evidently intended | confidence | as-written member | corrected member |
|---|---|---|---|---|---|---|
| src/lazyTrees/LazySearchTree.java:151-159 | `clone` copies the nodes with `cloneSubtree`, whose node constructor clears `deleted`. It copies `mSize` but leaves `mSizeHard` at 0 from `clear()` | a tree holding 3 with 3 removed: the clone has `mSize` 0 and `mSizeHard` 0, yet it has one node, and `contains(3)` is true | a deep copy keeping the deleted flags and both counters | medium, not executed | `LazyTrees.CloneBreaksCounters` (about `LazyTrees.LazySearchTree.Clone`) | `LazyTrees.LazySearchTree.CloneKeepingCounts` |
| src/lazyTrees/LazySearchTree.java:66-80 | public `findMin`/`findMax` only guard `mRoot == null`, then read `.data` from the node-level result | a tree holding 3 with 3 removed: the root is non-null, the node-level search returns null, and a NullPointerException follows | NoSuchElementException whenever no element is live | high, not executed | `LazyTrees.LazySearchTree.FindMin` | `LazyTrees.LazySearchTree.FindMinChecked` |
