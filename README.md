# Red-black tree and binary tree traversals in Dafny

This project models the tree core of a small C++ data-structure library:

- `include/tree/RBTree.h`: a red-black tree of integers. It has search, the
  two rotations, insertion with `__Insert_Adjust`, and removal with
  `__Remove_Adjust`. Duplicate values are allowed when the tree is built with
  `ALLOW_DUP`.
- `include/tree/BinTree.h`: a binary tree held through shared pointers, with
  its four traversals (pre-, in-, post- and level order). Each traversal
  appends to an optional output vector.
- `include/binTree/binTree.h`: the same binary tree and traversals over raw
  pointers.

Modules:

- `RedBlack` (`rb_tree.dfy`) holds the shared definitions.
  - The tree is an algebraic value `Tree = Leaf | Node(color, left, value, right)`.
    The null child of the C++ code is `Leaf`, and it counts as black, as in
    `IsBlack`.
  - A parent pointer is a zipper `seq<Frame>`, innermost frame first.
    `Plug(cur, path)` rebuilds the whole tree from a node and its ancestors,
    so walking up `_parent` is dropping the head of the path.
  - The module also holds the red-black invariants, the rotations and the
    search.
- `RedBlackInsert` (`rb_insert.dfy`) follows `Insert` and `__Insert_Adjust`
  case by case.
- `RedBlackRemove` (`rb_remove.dfy`) follows `Remove` and `__Remove_Adjust`
  case by case, including the swap with the in-order successor.
- `RedBlackShape` (`rb_shape.dfy`) describes the nodes as the source links
  them.
  - A node record `RBNode(color, value, parent, left, right)` holds its three
    pointers as indices into a store `seq<RBNode>`, and `Null` is `-1`.
    Each pointer is an index into that store.
  - A ghost `Shape` is the tree of pointers reachable from the root.
    `Links(ns, s, up)` says the records hold exactly those pointers, parent
    pointers included. `Value(ns, s)` is the tree of colours and values that
    they describe.
  - A chain of ghost `Step`s is the path back to the root. Its `Frames` are
    the value-level parent chain.
  - The module gives the field writes of the rotations and of the splice in
    `Remove`, and the lemmas that relate them to the value model.
- `RedBlackHeap` (`rb_heap.dfy`) runs the source's functions on linked
  nodes.
  - The class `RBTreeStore` holds the store of node records and the ghost
    shape.
  - Its methods follow `Search`, `LeftRotate`, `RightRotate`, `Insert`,
    `__Insert_Adjust`, `Remove` and `__Remove_Adjust` pointer by pointer.
    Each one's `ensures` ties the new store to the value function that the
    lemmas of `RedBlack*` are about.
  - A root pointer that the source rebinds through `RBTree &root` is
    returned as `newRoot`.
- `BinTree` (`bin_tree.dfy`) models the shared-pointer tree. Its pieces are:
  - the tree as a value;
  - the traversal outputs as functions;
  - the output vector as a class;
  - the recursive traversals as methods that append to that vector;
  - level order as a method with a FIFO queue loop.

  The queue process (`Bfs`) is proved equal to a level-by-level reference
  (`Levels`).
- `RawBinTree` (`raw_bin_tree.dfy`) models the raw-pointer tree.
  - Each node is a heap object whose `left`/`right` fields can be reassigned.
  - An abstraction function `Abs` maps the linked nodes to a `BinTree.Tree`.
  - The traversal test is replayed: build the tree, traverse it, clear one
    node's links in place, and traverse again.

The tree invariant `Valid(t, allowDup)` has three parts:
- the root is black;
- no red node has a red child;
- every root-to-null path has the same number of black nodes;

and the ordering:
- strictly increasing in-order values for a tree without duplicates;
- non-decreasing in-order values under `ALLOW_DUP`.

## Model

| member | source | states |
|---|---|---|
| RedBlack.BalancedIffUniformPaths | include/tree/RBTree.h:470-590 | equal black heights of all children is the same as every root-to-null path holding the same number of black nodes |
| RedBlack.HeightBound | include/tree/RBTree.h:212-225 | in a red-black tree the height, the longest descent `Search` can make, is at most twice the black height, and the tree holds at least 2^(black height) - 1 values, so a descent is logarithmic in the size |
| RedBlack.HeightBoundSub | include/tree/RBTree.h:212-225 | the same bounds below the root, where a red top adds one level |
| RedBlack.RotateLeft | include/tree/RBTree.h:227-254 | the right child becomes the parent of the old node, the old node takes that child's left subtree, and in-order contents are unchanged |
| RedBlack.RotateRight | include/tree/RBTree.h:256-283 | the mirror of the left rotation; in-order contents are unchanged |
| RedBlack.RotationsInverse | include/tree/RBTree.h:227-283 | a right rotation undoes a left rotation and the other way round |
| RedBlack.PlugInOrder | include/tree/RBTree.h:227-283 | replacing the subtree under a parent chain changes the whole in-order sequence only in that subtree's slot |
| RedBlack.Locate | include/tree/RBTree.h:212-225 | the descent ends at a node holding the value, or at null, and the path it records leads back to the root |
| RedBlack.LocateFinds | include/tree/RBTree.h:212-225 | in an ordered tree the descent finds a node exactly when the value occurs in the in-order sequence |
| RedBlack.SearchCorrect | include/tree/RBTree.h:212-225 | `Search` returns a node holding the value if and only if the value is in the tree, and null otherwise |
| RedBlackInsert.Descend | include/tree/RBTree.h:293-305 | the insertion descent stops at a null link, or fails on an equal value when duplicates are refused |
| RedBlackInsert.DescendBounds | include/tree/RBTree.h:293-305 | the null link reached lies between the in-order values below and above the new value; a refused descent means the value is present |
| RedBlackInsert.InsertFix | include/tree/RBTree.h:322-399 | whichever case applies, the fix-up of a red node under a black-rooted chain ends with a black root |
| RedBlackInsert.RotateUnderLeft | include/tree/RBTree.h:352-370 | case 3 with the parent a left child: the grandparent's subtree becomes a node with a black top whose in-order sequence is the parent's subtree, the grandparent, then the uncle |
| RedBlackInsert.RotateUnderRight | include/tree/RBTree.h:381-397 | the mirror image, for a parent that is a right child |
| RedBlackInsert.InsertFixInOrder | include/tree/RBTree.h:322-399 | the recolourings and rotations of the insert fix-up leave the in-order sequence unchanged |
| RedBlackInsert.InsertFixRedBlack | include/tree/RBTree.h:322-399 | after a red node is linked below a valid black-height context, the fix-up yields a red-black tree with a black root |
| RedBlackInsert.InsertAtLink | include/tree/RBTree.h:306-319 | linking a red node at the null link found and fixing up inserts the value at its sorted place and keeps the tree valid |
| RedBlackInsert.Insert | include/tree/RBTree.h:285-320 | inserting into an empty tree gives a single black node holding the value; a refused insert leaves the tree unchanged |
| RedBlackInsert.InsertSucceeds | include/tree/RBTree.h:285-320 | `Insert` reports success exactly when duplicates are allowed or the value is absent |
| RedBlackInsert.InsertPlaced | include/tree/RBTree.h:285-320 | a successful insert gives a valid tree whose in-order sequence is the old one with the value added at a sorted position |
| RedBlackInsert.InsertCorrect | include/tree/RBTree.h:285-320 | success iff allowed; a failed insert leaves the tree unchanged; a successful one keeps it valid, adds exactly one copy of the value and grows the size by one |
| RedBlackRemove.Leftmost | include/tree/RBTree.h:416-420 | the successor walk goes left until there is no left child, extending the parent chain |
| RedBlackRemove.SwapWithSuccessor | include/tree/RBTree.h:416-423 | a node with two children trades values with the leftmost node of its right subtree, which has no left child |
| RedBlackRemove.SwapInOrder | include/tree/RBTree.h:413-423 | after the swap, unlinking the node reached removes one occurrence of the value from the in-order sequence |
| RedBlackRemove.SwapRedBlack | include/tree/RBTree.h:416-423 | the swap changes only values, so the red-black invariants still hold |
| RedBlackRemove.Case3Left | include/tree/RBTree.h:502-508 | case 3 for a left child: the recoloured and right-rotated sibling is again a node over the same in-order values |
| RedBlackRemove.Case3Right | include/tree/RBTree.h:556-563 | the mirror image for a right child |
| RedBlackRemove.FixLeft | include/tree/RBTree.h:498-533 | the black-sibling cases for a left child always leave a chain above the node: the parent is not lost |
| RedBlackRemove.FixRight | include/tree/RBTree.h:552-588 | the mirror image for a right child |
| RedBlackRemove.RemoveFix | include/tree/RBTree.h:470-590 | at the root there is nothing to fix: an empty chain stays empty |
| RedBlackRemove.RemoveFixCorrect | include/tree/RBTree.h:470-590 | for a black node about to lose one black level, the fix-up keeps the in-order values on both sides and returns a chain in which that node fits one black level lower |
| RedBlackRemove.FixLeftCorrect | include/tree/RBTree.h:483-535 | the cases of the fix-up for a node that is a left child keep the in-order sides and fix the black-height deficit or move it up one level |
| RedBlackRemove.FixRightCorrect | include/tree/RBTree.h:536-587 | the mirror cases for a right child |
| RedBlackRemove.Unlink | include/tree/RBTree.h:425-467 | the tree left after the node is spliced out has a black root or is empty, including when the root's only child is promoted |
| RedBlackRemove.UnlinkCorrect | include/tree/RBTree.h:425-467 | splicing out a node with at most one child, after the fix-up when it was black, keeps the red-black invariants and drops exactly that node's value |
| RedBlackRemove.RemovedAtOrdered | include/tree/RBTree.h:401-468 | dropping one element keeps a sorted sequence sorted; in a strictly sorted one the removed value no longer occurs |
| RedBlackRemove.Remove | include/tree/RBTree.h:401-468 | the node returned is detached from its children and holds the value removed; a null result leaves the tree unchanged |
| RedBlackRemove.RemoveCorrect | include/tree/RBTree.h:401-468 | `Remove` returns null iff the value is absent, and then leaves the tree unchanged; otherwise it returns a node holding the value and the tree stays valid with one occurrence removed |
| RedBlackRemove.RemoveTwice | test/test_RBTree.cpp:322-351 | removing a value from a tree without duplicates and then removing it again returns null the second time |
| RedBlackRemove.RemoveStep | include/tree/RBTree.h:401-468 | one removal keeps the tree valid, finds a node exactly when the value is stored, and takes one copy of it out of the stored values |
| RedBlackRemove.LeafIffEmpty | include/tree/RBTree.h:401-468 | a tree is empty exactly when it stores no value, so a removal that takes out the last value leaves the null root |
| RedBlackRemove.RemoveAll | test/test_RBTree.cpp:317-351 | a run of removals keeps the tree valid and reports one result per value |
| RedBlackRemove.RemoveAllCorrect | test/test_RBTree.cpp:317-351 | after a run of removals the stored values are the old ones minus the values removed, and each removal finds a node exactly when its value was still stored at that point |
| RedBlackRemove.RemoveAllEmpties | test/test_RBTree.cpp:317-351 | removing every stored value, each at least as often as it occurs, empties the tree |
| RedBlackRemove.RemoveAllDistinct | test/test_RBTree.cpp:317-351 | without duplicates, a removal succeeds exactly when its value is in the original tree and was not removed earlier in the run |
| RedBlackRemove.RemoveAllCovers | test/test_RBTree.cpp:317-351 | without duplicates, a run that names every stored value empties the tree |
| RedBlackRemove.RemoveSample | test/test_RBTree.cpp:269-351 | the test's tree 10 (5 (3, red 7 (6, 8)), 15 (11, 17)) is valid, and removing 14, 3, 17, 8, 10, 6, 15, 7, 11, 5, 8 fails for 14 and for the second 8, succeeds for the other nine, and leaves the empty tree |
| RedBlackShape.BlackNodeValue | include/tree/RBTree.h:81-88 | on a linked pointer, `IsBlack` agrees with the colour of the tree the pointer holds, and a pointer is null exactly when it holds no tree |
| RedBlackShape.RootAndLeafNodes | include/tree/RBTree.h:71-72 | in a linked tree, `IsRoot` holds exactly for the node with no step above it, and `IsLeaf` exactly when both of its subtrees are empty |
| RedBlackShape.LeftRotateLinks | include/tree/RBTree.h:227-254 | after the pointer writes of `LeftRotate` the records link the rotated shape with each node once, parent pointers included; no colour or value changes |
| RedBlackShape.RightRotateLinks | include/tree/RBTree.h:256-283 | the same for the pointer writes of `RightRotate` |
| RedBlackShape.LeftRotateValue | include/tree/RBTree.h:227-254 | after the pointer writes of `LeftRotate` the linked tree is the value-level left rotation, under the unchanged parent chain |
| RedBlackShape.RightRotateValue | include/tree/RBTree.h:256-283 | after the pointer writes of `RightRotate` the linked tree is the value-level right rotation, under the unchanged parent chain |
| RedBlackHeap.RBTreeStore.constructor | test/test_RBTree.cpp:256 | an empty tree, `Tree root = nullptr`: no records, the empty shape, and the value `Leaf` |
| RedBlackHeap.RBTreeStore.SetColor | include/tree/RBTree.h:348-349 | a colour write `p->_color = c` changes that record's colour and nothing else, and the records still link the same shape |
| RedBlackHeap.RBTreeStore.LeftRelink | include/tree/RBTree.h:227-254 | the store after the six pointer writes of `LeftRotate`, made in the source's order |
| RedBlackHeap.RBTreeStore.RightRelink | include/tree/RBTree.h:256-283 | the store after the pointer writes of `RightRotate`, made in the source's order |
| RedBlackHeap.RBTreeStore.LeftRotate | include/tree/RBTree.h:227-254 | the store stays a linked tree with the right child on top of the rotated subtree; colours and values are untouched; the whole tree is the value-level rotation put back in place |
| RedBlackHeap.RBTreeStore.RightRotate | include/tree/RBTree.h:256-283 | the mirror image of `LeftRotate` |
| RedBlackHeap.RBTreeStore.Search | include/tree/RBTree.h:212-225 | the loop over pointers finds what the value-level descent finds: null when the descent reaches a null link, otherwise the node whose subtree and parent chain the descent stops at |
| RedBlackHeap.RBTreeStore.Insert | include/tree/RBTree.h:285-320 | the linked insertion reports the same success and leaves the same tree as the value-level `Insert`; a success adds exactly one node record, a failure changes nothing |
| RedBlackHeap.RBTreeStore.AttachRed | include/tree/RBTree.h:306-319 | a new red record is appended and linked below the parent, on the side the comparison picks; the parent chain keeps its contents |
| RedBlackHeap.RBTreeStore.InsertAdjust | include/tree/RBTree.h:322-399 | the linked fix-up of a red node leaves the tree that the value-level fix-up computes, and returns the new root |
| RedBlackHeap.RBTreeStore.InsertRecolor | include/tree/RBTree.h:346-351 | case 2: the parent and the uncle turn black, the grandparent red, and the fix-up continues from the grandparent |
| RedBlackHeap.Case2Recolor | include/tree/RBTree.h:347-349 | the three colour writes of case 2 give the grandparent's subtree as a red node over two blackened children, and leave the chain above untouched |
| RedBlackHeap.RBTreeStore.InsertRotateLeftSide | include/tree/RBTree.h:352-370 | case 3 with the parent a left child: the optional left rotation, the recolouring and the right rotation of the grandparent leave the value model's result |
| RedBlackHeap.RBTreeStore.InsertRotateRightSide | include/tree/RBTree.h:381-397 | the mirror image, for a parent that is a right child |
| RedBlackHeap.Case3Paint | include/tree/RBTree.h:362-363 | turning the new top black and the grandparent red changes only those two colours in the grandparent's subtree |
| RedBlackHeap.RBTreeStore.Remove | include/tree/RBTree.h:401-468 | the linked removal leaves the same tree as the value-level `Remove`. It returns null exactly when that function removes nothing. Otherwise it returns a record that is outside the tree, has its three pointers cleared, and holds the colour and value the function reports removed |
| RedBlackHeap.RBTreeStore.Successor | include/tree/RBTree.h:417-420 | the left-going loop from the right child stops at a node with no left child, and that node and its chain are what the value-level successor walk reaches |
| RedBlackHeap.RBTreeStore.SwapSuccessor | include/tree/RBTree.h:416-423 | with two children the two values are swapped and no pointer changes; the node reached and its chain are the value-level swap's result |
| RedBlackShape.SwapValues | include/tree/RBTree.h:421 | the value swap keeps every pointer, and the minimum node then holds the removed value over its unchanged right subtree |
| RedBlackShape.SwapFrames | include/tree/RBTree.h:421-422 | after the swap, the chain above the minimum node passes through the original node, which now shows the minimum's old value |
| RedBlackHeap.RBTreeStore.RemoveNode | include/tree/RBTree.h:425-467 | a node with at most one child is taken out after the fix-up when it is black. The tree left is the value-level `Unlink`, and the removed record keeps its colour and value while losing its pointers |
| RedBlackHeap.RBTreeStore.Splice | include/tree/RBTree.h:431-467 | the two splice branches, chosen on the parent pointer, leave the value-level unlinked tree |
| RedBlackHeap.RBTreeStore.SpliceAtRoot | include/tree/RBTree.h:432-450 | at the root, the only child (if any) becomes the black root without a parent, and the old root loses its children |
| RedBlackShape.SpliceRoot | include/tree/RBTree.h:432-450 | those writes leave a linked tree without the old root, whose value is the child repainted black, or empty |
| RedBlackHeap.RBTreeStore.SpliceBelow | include/tree/RBTree.h:451-467 | below the root, the parent's child pointer takes the only child, which takes the parent as its parent, and the node loses all three pointers |
| RedBlackHeap.RBTreeStore.Bypass | include/tree/RBTree.h:451-466 | the store after the pointer writes of the splice below the root, in the source's order |
| RedBlackShape.BypassedSpliced | include/tree/RBTree.h:451-466 | those writes change the parent's child pointer, the child's parent pointer and the node's own pointers, and nothing else |
| RedBlackShape.SpliceInner | include/tree/RBTree.h:451-466 | after the splice the records link the tree with the node left out, each node once, under the same root |
| RedBlackShape.SpliceInnerValue | include/tree/RBTree.h:451-466 | the tree after the splice is the only child plugged into the unchanged parent chain |
| RedBlackHeap.RBTreeStore.RemoveAdjust | include/tree/RBTree.h:470-590 | the linked fix-up of a black node keeps that node's subtree and rebuilds the chain above it into the value-level fix-up's chain |
| RedBlackHeap.RBTreeStore.RemoveRedSiblingLeft | include/tree/RBTree.h:484-497 | case 1 with `cur` a left child: recolouring and rotating the parent, then the black-sibling cases, give the value-level fix-up's chain |
| RedBlackHeap.RBTreeStore.RemoveFixLeft | include/tree/RBTree.h:498-533 | cases 3, 2 and 4 with `cur` a left child give the chain of the value-level left-side fix-up |
| RedBlackHeap.RBTreeStore.RemoveCase3Left | include/tree/RBTree.h:502-508 | the new sibling is the value-level case 3 of the old one, and nothing else changes |
| RedBlackHeap.RBTreeStore.RemoveCase3RotateLeft | include/tree/RBTree.h:504-508 | the near cousin turns black, the sibling red, and the sibling is rotated right |
| RedBlackHeap.RBTreeStore.RemoveCase2Left | include/tree/RBTree.h:509-519 | case 2: the far cousin turns black, the sibling takes the parent's colour, and the parent turns black and is rotated left |
| RedBlackHeap.RBTreeStore.RemoveCase4Left | include/tree/RBTree.h:520-533 | case 4: the sibling turns red; a red parent turns black, and a black parent is adjusted in turn |
| RedBlackHeap.RBTreeStore.RemoveCase4UpLeft | include/tree/RBTree.h:528-532 | case 4.2: with the parent black the deficit moves up one level, as in the value model |
| RedBlackHeap.RBTreeStore.RemoveRedSiblingRight | include/tree/RBTree.h:538-551 | case 1 with `cur` a right child, the mirror image |
| RedBlackHeap.RBTreeStore.RemoveFixRight | include/tree/RBTree.h:552-588 | cases 3, 2 and 4 with `cur` a right child, the mirror image |
| RedBlackHeap.RBTreeStore.RemoveCase3Right | include/tree/RBTree.h:556-563 | the mirror image of RemoveCase3Left |
| RedBlackHeap.RBTreeStore.RemoveCase3RotateRight | include/tree/RBTree.h:559-563 | the mirror image of RemoveCase3RotateLeft |
| RedBlackHeap.RBTreeStore.RemoveCase2Right | include/tree/RBTree.h:564-574 | the mirror image of RemoveCase2Left |
| RedBlackHeap.RBTreeStore.RemoveCase4Right | include/tree/RBTree.h:575-588 | the mirror image of RemoveCase4Left |
| RedBlackHeap.RBTreeStore.RemoveCase4UpRight | include/tree/RBTree.h:583-587 | the mirror image of RemoveCase4UpLeft |
| BinTree.PushPreOrder | include/tree/BinTree.h:62-68 | the output vector gains exactly the pre-order sequence: the node, then its left and its right subtree |
| BinTree.PushInOrder | include/tree/BinTree.h:76-83 | the output vector gains exactly the in-order sequence |
| BinTree.PushPostOrder | include/tree/BinTree.h:91-97 | the output vector gains exactly the post-order sequence |
| BinTree.PushLevelOrder | include/tree/BinTree.h:105-118 | the FIFO queue loop appends exactly the breadth-first sequence |
| BinTree.BfsIsLevels | include/tree/BinTree.h:105-118 | the queue process equals listing the roots of each level left to right, one level after another |
| BinTree.LevelOrderByLevels | include/tree/BinTree.h:105-118 | level order is the root followed by the levels of its children |
| BinTree.TraversalsArePermutations | include/tree/BinTree.h:62-118 | each of the four traversals outputs every value of the tree exactly as often as it occurs |
| BinTree.TraversalLengths | include/tree/BinTree.h:62-118 | each traversal outputs one value per node |
| BinTree.RootPositions | include/tree/BinTree.h:62-118 | pre-order and level order start with the root, and post-order ends with it |
| BinTree.DetachRemovesSubtrees | test/test_BinTree.cpp:59-61 | clearing both links of a node removes exactly its two subtrees' values from every traversal |
| BinTree.SampleLevelOrder | test/test_BinTree.cpp:43-57 | the sample tree 4 (2 (1, 3), 6 (5, 7)) has level order 4 2 6 1 3 5 7 |
| BinTree.LeafOrders | include/tree/BinTree.h:62-118 | a single node's four traversals are each just its value |
| BinTree.SampleDetached | test/test_BinTree.cpp:59-61 | after node 6 loses its children, the depth-first orders are 4 2 1 3 6, 1 2 3 4 6 and 1 3 2 6 4 |
| RawBinTree.Node.Leaf | include/binTree/binTree.h:37 | a new node with the value and no children, valid and abstracting to a one-node tree |
| RawBinTree.Node.constructor | include/binTree/binTree.h:38-39 | a new node over the given children, valid, abstracting to the node over the children's trees |
| RawBinTree.Node.PreOrder | include/binTree/binTree.h:60-66 | the output vector gains the pre-order sequence of the tree the links describe |
| RawBinTree.Node.InOrder | include/binTree/binTree.h:74-81 | the output vector gains the in-order sequence of the linked tree |
| RawBinTree.Node.PostOrder | include/binTree/binTree.h:89-95 | the output vector gains the post-order sequence of the linked tree |
| RawBinTree.Node.LevelOrder | include/binTree/binTree.h:103-116 | the queue of node pointers appends the breadth-first sequence of the linked tree |
| RawBinTree.Collect | test/test_BinTree.cpp:13-35 | one traversal run into a fresh vector yields exactly that traversal's sequence of the linked tree |
| RawBinTree.AllOrders | test/test_BinTree.cpp:11-37 | printing a tree collects its four traversal sequences, each into a fresh vector |
| RawBinTree.BuildSample | test/test_BinTree.cpp:49-51 | the nodes built bottom-up form the sample tree; node 1 alone is the one-node tree; node 6 is the right child of the root, reached through no shared node |
| RawBinTree.DetachedAbs | include/binTree/binTree.h:30-33 | clearing both links of the node at a path, where no other link reaches it, leaves linked nodes whose tree is the old tree with that node's subtrees removed |
| RawBinTree.ClearLinks | test/test_BinTree.cpp:59 | the in-place write `n._left = n._right = nullptr` on a node of a linked tree turns its tree into the tree with that node's children detached |
| RawBinTree.DetachScenario | test/test_BinTree.cpp:53-61 | the traversals of the sample tree, of node 1 alone (each `[1]`), and of the sample tree after clearing node 6's links in place are exactly the expected lists |

## Left out

- Output and text: `PrintTree`, the printing helpers and any `ToString` or
  Graphviz text. Only the sequences that would be printed are modelled.
- The `vec` header is not part of this model.
- Ownership: the reference counts of `shared_ptr`/`weak_ptr` and the memory
  release of `Remove` are not modelled. A weak parent link is a path of
  ancestors in the value modules, a plain parent index in `RedBlackHeap`,
  and is absent from the binary trees.
- `virtual`: overriding `Visit` in a subclass is not modelled. `Visit`
  returns the stored value and has no contract of its own.
- Types: the element type `T` is `int`. Only the `<` comparison and equality
  of the values are used.
- Node records are never freed. The store only grows, and a removed record
  stays in it after it is detached. Pointer identity is the record's index;
  aliasing between different stores is not modelled.
- The root pointer that the source passes as `RBTree &root` is a parameter
  together with a `newRoot` result. A caller's other handles into the tree
  are not modelled.
- RedBlackHeap.RBTreeStore.Insert: requires a black root. The source
  asserts at include/tree/RBTree.h:338-341 that a red parent has a parent,
  which fails under a red root.
- RedBlackHeap.RBTreeStore.Remove: requires the red-black invariants. The
  fix-up dereferences a sibling that only those invariants guarantee
  (include/tree/RBTree.h:498-500 and 552-554).
- The assertion `that->IsLeaf()` at include/tree/RBTree.h:440 is not
  proved. The model takes the root's only child as it is.
- RedBlack.Search is the value-level descent. The pointer it returns is
  modelled by RedBlackHeap.RBTreeStore.Search.
- `BinTreeNode()` with value 0 is not modelled separately. It is `Leaf(0)`.
- The red-black ordering under `ALLOW_DUP` is stated as non-decreasing
  in-order values. The per-node rule "left ≤ value < right" does not survive
  the rotations: ties go left on insertion (include/tree/RBTree.h:302), and a
  right rotation can then put a value in the right subtree of its twin.
  The code only relies on the in-order sequence, so the model follows the
  code.
- RedBlackInsert.Insert: requires a black root, for the same reason as the
  linked `Insert`. The empty tree is allowed.
- RedBlackRemove.Remove: requires the red-black invariants, for the same
  reason as the linked `Remove`.
- RawBinTree.Node.Valid: requires the links to be acyclic. On a cycle the
  source's recursions and its queue loop never terminate. A node shared by
  two subtrees is allowed and appears once in each; RawBinTree.ClearLinks
  asks that no other link reaches the node whose links it clears.
