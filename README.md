# Employee binary search tree

A verified model of the unbalanced binary search tree of employee records in
`mricketts-hw2-code/BinarySearchTree.h`. Records (`id`, `age`, `name`, `level`) are
kept in heap nodes with `left`/`right` pointers and ordered by `id`. Strictly smaller
ids go left and everything else goes right, so equal ids end up in the right subtree.

The project has four modules:

- `Trees` (`trees.dfy`): a generic binary tree value with paths into it. `SubAt` reads
  the subtree at a path and `ReplaceAt` swaps one in. It also has the multiset and
  set of elements and the lemmas that relate these.
- `EmployeeTree` (`employee_tree.dfy`): the tree of records as a value, together with
  the ordering invariant `Ordered` (left ids < node id <= right ids). It also holds the
  specification of every operation as a function:
  - `Insert` stamps the new record with its depth.
  - `RemoveId` removes the first match on the search path and copies the successor on
    a two-child removal.
  - `Search`, `Leftmost` and `Rightmost` answer lookups.
  - `Emptied` is the makeEmpty loop.
  - `Listing` is report's `(id, depth)` lines.

  The properties of these functions are proved as lemmas.
- `NodeHeap` (`node_heap.dfy`): the node class `BinaryNode`. A ghost tree of nodes, the
  shape, mirrors the pointer structure. `Linked` ties the shape to the nodes' fields
  and `Abs` reads the records out of it. `SetChild`, `SetRecord` and `Unhook` make the
  pointer and record writes of insert and remove, and state what each does to the
  abstract tree.
- `Bst` (`bst.dfy`): the class `BinarySearchTree` with its `root`. It has the ghost
  `shape` and `Repr` and the invariant `Valid()`, and `Model()` is the abstract tree. Its
  methods are the source's `while` loops over `curr`/`prev` pointers. Each is proved
  to leave `Model()` equal to the specification function applied to the old model.

The source runs each of insert and remove as one function. In the model, the read-only
pointer walks are separate methods from the pointer writes, one method per branch of the
source:
- insert = `Insert` plus `Hang`;
- remove = `Remove`, `Locate`, `Splice`, `RemoveTwo` and `Successor`;
- report's inner loop = `Lefts`.

Each of these cites the source lines it models.

The code and its comments disagree in two places, and the model follows the code:
- The comment on insert says duplicates are ignored, but the code inserts them into the
  right subtree. `InsertIds` and `InsertDuplicateThenSearch` state what the code does.
- A traversal could be read as listing each record's stored `level`. The code instead
  prints the depth it recomputes with its level stack, and `Listing` follows the code.
  - `ListingLevels` shows the two agree while every record still carries its depth
    (`Stamped`), and `InsertStamped` shows that insertion keeps this.
  - `TwoChildRemoval` shows a removal can make them disagree.

## Model

| member | source | states |
|---|---|---|
| `NodeHeap.BinaryNode.constructor` | mricketts-hw2-code/BinarySearchTree.h:34-35 | a node holds the given record and child pointers |
| `Bst.BinarySearchTree.constructor` | mricketts-hw2-code/BinarySearchTree.h:43-45 | a new tree is valid and empty |
| `Bst.BinarySearchTree.IsEmpty` | mricketts-hw2-code/BinarySearchTree.h:93-96 | true exactly when the tree holds no record |
| `Bst.BinarySearchTree.Find` | mricketts-hw2-code/BinarySearchTree.h:333-352 | the walk finds the first record on the search path with the id; something is found iff the id occurs in the tree, and the record found has that id and is in the tree |
| `EmployeeTree.SearchCorrect` | mricketts-hw2-code/BinarySearchTree.h:337-342 | in an ordered tree the search finds a record iff some record has the id, and the one it finds carries the id |
| `EmployeeTree.SearchAtPath` | mricketts-hw2-code/BinarySearchTree.h:337-342 | the search stops at the end of its path: at the node it reports, or at an empty slot when it reports nothing |
| `Bst.BinarySearchTree.FindMin` | mricketts-hw2-code/BinarySearchTree.h:59-66 | returns the leftmost record; on an empty tree the default record with id -1; otherwise its id is in the tree and no id is smaller |
| `Bst.BinarySearchTree.FindMax` | mricketts-hw2-code/BinarySearchTree.h:72-79 | returns the rightmost record; on an empty tree the default record with id -1; otherwise its id is in the tree and no id is larger |
| `EmployeeTree.LeftmostIsMin` | mricketts-hw2-code/BinarySearchTree.h:302-311 | following left links ends at a record of the tree whose id is the least |
| `EmployeeTree.RightmostIsMax` | mricketts-hw2-code/BinarySearchTree.h:317-326 | following right links ends at a record of the tree whose id is the greatest |
| `EmployeeTree.ExtremeIds` | mricketts-hw2-code/BinarySearchTree.h:59-79 | the least and greatest ids of a non-empty ordered tree are the ids of its leftmost and rightmost records |
| `Bst.BinarySearchTree.InsertionPoint` | mricketts-hw2-code/BinarySearchTree.h:196-208 | the walk ends with prev at the last node of the insertion path (null iff the tree is empty) and level one more than the number of nodes passed |
| `Bst.BinarySearchTree.Insert` | mricketts-hw2-code/BinarySearchTree.h:190-226 | the tree stays valid and its records become exactly the old ones with x added at its insertion slot, stamped with its depth |
| `Bst.BinarySearchTree.Hang` | mricketts-hw2-code/BinarySearchTree.h:217-220 | linking the new node below prev on the side its id routes to yields the inserted tree; the footprint grows by that node only |
| `EmployeeTree.InsertAtPath` | mricketts-hw2-code/BinarySearchTree.h:196-220 | insertion fills the empty slot at the end of the search path with the new record and leaves every other node as it was |
| `EmployeeTree.InsertAddsOne` | mricketts-hw2-code/BinarySearchTree.h:190-220 | insertion adds exactly one record, the stamped x, to the multiset of records |
| `EmployeeTree.InsertIds` | mricketts-hw2-code/BinarySearchTree.h:201-220 | after insertion x's id is present, and its count goes up by one even when it was already there |
| `EmployeeTree.InsertOrdered` | mricketts-hw2-code/BinarySearchTree.h:201-220 | insertion keeps the ordering invariant |
| `EmployeeTree.InsertThenSearch` | mricketts-hw2-code/BinarySearchTree.h:190-220 | after inserting a new id, find returns the inserted record |
| `EmployeeTree.InsertDuplicateThenSearch` | mricketts-hw2-code/BinarySearchTree.h:201-206 | after inserting an id already present, find still returns the older record, which sits higher on the path |
| `EmployeeTree.InsertStamped` | mricketts-hw2-code/BinarySearchTree.h:198-210 | when every record's level is its depth, the same holds after insertion |
| `Bst.BinarySearchTree.Remove` | mricketts-hw2-code/BinarySearchTree.h:234-296 | the tree stays valid, the footprint shrinks, and the records become the specification's removal of the first match on the search path (unchanged when there is none) |
| `Bst.BinarySearchTree.Locate` | mricketts-hw2-code/BinarySearchTree.h:236-246 | the walk ends with curr at the end of the search path (null when the id is absent) and prev its parent, null iff curr is the root slot |
| `Bst.BinarySearchTree.Splice` | mricketts-hw2-code/BinarySearchTree.h:253-270 | with at most one child, putting the other child in curr's slot of prev (or in root) is the removal of curr |
| `Bst.BinarySearchTree.Successor` | mricketts-hw2-code/BinarySearchTree.h:275-282 | the walk ends at the leftmost node of curr's right subtree, which has no left child, with prev its parent or null when it is curr's right child |
| `Bst.BinarySearchTree.RemoveTwo` | mricketts-hw2-code/BinarySearchTree.h:273-293 | unhooking the successor and copying its whole record into curr is the removal of curr |
| `NodeHeap.SetChild` | mricketts-hw2-code/BinarySearchTree.h:265-268 | writing one child pointer replaces that subtree of the shape, and of the abstract tree, and nothing else |
| `NodeHeap.SetRecord` | mricketts-hw2-code/BinarySearchTree.h:290 | overwriting a node's record changes the abstract tree at that node only |
| `NodeHeap.Unhook` | mricketts-hw2-code/BinarySearchTree.h:285-288 | linking the successor's right child into its parent's slot replaces the successor by that child in the abstract tree |
| `EmployeeTree.RemoveAtPath` | mricketts-hw2-code/BinarySearchTree.h:240-293 | removal replaces the subtree at the end of the search path by that subtree without its root, or changes nothing if the path ends empty |
| `EmployeeTree.RemoveTwoAtPath` | mricketts-hw2-code/BinarySearchTree.h:275-290 | in the two-child case, cutting out the successor and then copying its record over the matched node gives the tree without that node |
| `EmployeeTree.RemoveMinAtPath` | mricketts-hw2-code/BinarySearchTree.h:279-288 | the leftmost node is at the end of the left path with no left child, and detaching it puts its right subtree in its place |
| `EmployeeTree.RemoveRootElems` | mricketts-hw2-code/BinarySearchTree.h:253-293 | whichever of the three shapes the node has (no left child, no right child, two children with the successor's record moved up), exactly the node's own record leaves the multiset, with no ordering needed |
| `EmployeeTree.RemoveRootCorrect` | mricketts-hw2-code/BinarySearchTree.h:253-293 | removing a node's root takes exactly its record out of the multiset and keeps the subtree ordered |
| `EmployeeTree.RemoveRemovesOne` | mricketts-hw2-code/BinarySearchTree.h:234-296 | removing a present id takes exactly the found record out of the multiset of records |
| `EmployeeTree.RemoveCount` | mricketts-hw2-code/BinarySearchTree.h:234-296 | removal lowers the count of the removed id by one when it is found and leaves every other count unchanged |
| `EmployeeTree.RemoveSize` | mricketts-hw2-code/BinarySearchTree.h:234-296 | removal shrinks the tree by one node iff the id is found |
| `EmployeeTree.RemoveAbsent` | mricketts-hw2-code/BinarySearchTree.h:240-250 | removing an id that is not in the tree leaves the tree, records included, unchanged |
| `EmployeeTree.RemoveOrdered` | mricketts-hw2-code/BinarySearchTree.h:253-293 | removal keeps the ordering invariant and adds no id |
| `EmployeeTree.RemoveMinOrdered` | mricketts-hw2-code/BinarySearchTree.h:275-288 | the successor's id is no greater than any id left in the right subtree, which stays ordered |
| `EmployeeTree.RemoveThenSearch` | mricketts-hw2-code/BinarySearchTree.h:234-296 | after removing an id that occurred once, find reports it absent |
| `EmployeeTree.TwoChildRemoval` | mricketts-hw2-code/BinarySearchTree.h:273-293 | on ids 5, 3, 8, 7, 9, removing 8 moves 9 into its place; 7 and 9 are still found, the order holds, and 9 keeps its old level 3 |
| `Bst.BinarySearchTree.MakeEmpty` | mricketts-hw2-code/BinarySearchTree.h:357-369 | the loop leaves the tree as `Emptied` of the old one; when no record has id -1 the tree ends up empty |
| `EmployeeTree.DrainStep` | mricketts-hw2-code/BinarySearchTree.h:362-365 | one round removes one node, the least, from a non-empty tree and keeps it ordered; on an empty tree findMin reads -1 and remove does nothing |
| `EmployeeTree.EmptiedClears` | mricketts-hw2-code/BinarySearchTree.h:361-365 | makeEmpty empties every ordered tree in which no record has id -1 |
| `EmployeeTree.EmptiedSentinel` | mricketts-hw2-code/BinarySearchTree.h:361-365 | with a record of id -1: if -1 is the least id nothing is removed; otherwise every smaller id and one -1 record are removed and all larger ids stay |
| `Bst.BinarySearchTree.Report` | mricketts-hw2-code/BinarySearchTree.h:125-176 | the lines printed are the in-order (id, depth) listing of the tree, root at depth 1; none on an empty tree |
| `Bst.Walk` | mricketts-hw2-code/BinarySearchTree.h:135-173 | the two-stack loop prints exactly the in-order (id, depth) listing of the linked nodes |
| `Bst.Lefts` | mricketts-hw2-code/BinarySearchTree.h:153-158 | pushing every node on the way left, with its depth, keeps the printed lines plus the pending lines equal to the full listing |
| `EmployeeTree.ReportingPush` | mricketts-hw2-code/BinarySearchTree.h:153-158 | stacking a node with its depth and going left keeps the walk's invariant |
| `EmployeeTree.ReportingPop` | mricketts-hw2-code/BinarySearchTree.h:161-172 | popping the top, printing its id with the popped depth and going right keeps the walk's invariant |
| `EmployeeTree.ListingInOrder` | mricketts-hw2-code/BinarySearchTree.h:150-173 | report lists the ids of the records in in-order order, each node once |
| `EmployeeTree.ListingCoversElems` | mricketts-hw2-code/BinarySearchTree.h:150-173 | report prints one line per node, and the listed ids are those of a sequence holding each record of the tree exactly as often as the tree does |
| `EmployeeTree.ListingSorted` | mricketts-hw2-code/BinarySearchTree.h:150-173 | on an ordered tree the listed ids are non-decreasing |
| `EmployeeTree.ListingIds` | mricketts-hw2-code/BinarySearchTree.h:150-173 | every listed id is in the tree and every listed depth is at least the root's |
| `EmployeeTree.ListingLevels` | mricketts-hw2-code/BinarySearchTree.h:161-167 | the depth listed equals the stored level while every record's level is its depth |
| `EmployeeTree.ThreeRecords` | mricketts-hw2-code/BinarySearchTree.h:59-79 | on ids 5, 3, 8 the least and greatest ids are 3 and 8 and report lists 3, 5, 8 |

## Left out

- `mricketts-hw2-code/Source.cpp` (menu, console input, `rand()` seeding, `toLower`,
  `treeToString`) is not part of this model. It is console I/O around the tree's public
  operations.
- `mricketts-hw2-code/Stack.h` and the `list.h` under it are not part of this model.
  report's two stacks are sequences, with push and pop at the front.
- All console output (the "ID not found" / "Found. Name: …" text of find, the header,
  column widths and "Tree is empty" of report) is left out:
  - find returns the found record as an `Option`, and its `Some?` is the source's bool;
  - report returns the `(id, depth)` pairs it prints.
- Dangling references are not modelled. On an empty tree, findMin and findMax return a
  reference to a temporary default `Employee`, and `Stack::pop` returns a reference to a
  local. Both are modelled as the values they evidently mean to return.
- The `size` field is left out. It is never initialised and has no getter. Only
  `insert`'s `size++`, `remove`'s `size--` and `makeEmpty`'s `size = 0` touch it, and
  nothing reads it.
- Memory management is left out: `new` is Dafny allocation, and `delete` and the
  destructor (which calls makeEmpty) are not modelled. A removed node drops out of the
  footprint `Repr`.
- The `t` parameter of the private `makeEmpty(BinaryNode*&)` is ignored by the source
  and is not modelled.
- `int` ids, ages, levels and counters are unbounded integers. The source never does
  arithmetic on ids, and levels never exceed the number of nodes.
