# Red-black tree insertion, modelled and verified

This project models `RedBlackTrees`, a red-black tree of `int` values with
parent links. The public operations are:

- `Insert`, with its helpers `insertUtil`, `handleRedRedConflict`, `leftRotate` and `rightRotate`;
- the read-only queries `search`, `min`, `max`, `successor`, `predecessor`, `height` and the in-order walk `Sort`.

Duplicates are allowed. Insertion sends a value left only when the node's value
is strictly greater, so equal values go right.

The model is in four modules:

- `Trees` (trees.dfy) is the abstract tree: `Tree = Leaf | Node(color, val, left, right)`.
  - Its in-order walk, the red-black predicates (`Balanced`, `NoRedRed`, `IsRedBlack`) and the ordering (`Ordered`: the walk is ascending).
  - `InsertLeaf`, the tree that insertion's descent produces before any repair.
  - The height bound of red-black trees.
- `Arena` (arena.dfy) is the node graph as the class stores it.
  - Node `i` has its left, right and parent links at index `i` of three sequences, with -1 for null.
  - A ghost `Shape` (a tree of node ids) records where each node sits. `Linked` ties the links to it.
  - `Abs` maps the arena to a `Tree`.
  - The lemmas cover sub-trees, replacing a sub-tree, the two rotations as link updates, attaching a node, and walking the arena.
- `Fixup` (fixup.dfy) holds the case lemmas of the red-red repair.
  - They are stated over node-by-node invariants: each node's recorded black height agrees with both children, and no Red node has a Red child except the one node being repaired.
  - `Settled` is the state with no exception. `Repairing(z)` is the state during the repair of `z`.
- `RBT` (rbt.dfy) is the class `RedBlackTrees`.
  - It has sequence fields `color`, `val`, `left`, `right` and `parent`, plus `root`; a node reference is an index into these sequences.
  - Two ghost fields support the proofs: `shape` and `bh` (each node's black height).
  - `Valid()` is the invariant every `Insert` keeps: a well-formed arena, the red-black rules node by node, a Black root, and an ascending in-order walk.

Java code mapped onto the model:

- The Java `Node` constructor is an append of a Red node to the sequences.
- The colour characters `'R'` and `'B'` are the datatype `Color`.
- The recursive `search`, `min`, `max`, `height` and `Sort` are functions over the arena.
- `successor`, `predecessor` and the loops of `insertUtil` and `handleRedRedConflict` are methods with `while` loops.
- The two mirror-image halves of `handleRedRedConflict`'s loop body are the methods `RepairLeftParent` and `RepairRightParent`; the rotation case of each is the method `RotateAtLeftParent` or `RotateAtRightParent`.
- The descent and the attachment in `insertUtil` are the methods `FindParent` and `Attach`.

## Model

| member | source | states |
|---|---|---|
| RBT.RedBlackTrees.constructor | src/RedBlackTrees.java:38-40 | a new tree has no root and no nodes, and is valid |
| RBT.RedBlackTrees.ValidIsRedBlack | src/RedBlackTrees.java:202-211 | the invariant `Insert` keeps implies the denoted tree is a red-black tree (no Red node with a Red child, Black root, and every path from the root to a leaf has the same number of Black nodes) whose walk is ascending |
| RBT.RedBlackTrees.Sort | src/RedBlackTrees.java:45-52 | the values visited from node `x` are exactly the in-order walk of the tree below `x` |
| RBT.RedBlackTrees.SortIsAscending | src/RedBlackTrees.java:45-52 | on a valid tree the walk from the root is the stored sequence of values and is ascending |
| RBT.RedBlackTrees.LeftRotate | src/RedBlackTrees.java:58-76 | X (the right child) takes the place of `node` under its parent, `node` becomes X's left child and X's old left child becomes `node`'s right child. The root becomes X exactly when `node` had no parent. Colours, values and the sorted walk are unchanged, the arena stays a tree, and the tree now below X is `Trees.RotateLeft` of the tree that was below `node` |
| RBT.RedBlackTrees.RightRotate | src/RedBlackTrees.java:83-101 | the mirror image of LeftRotate, with the left child rising and `Trees.RotateRight` as the abstract effect |
| Arena.RotateLeftArena | src/RedBlackTrees.java:58-76 | the links written by leftRotate are exactly those of the tree with `node`'s sub-tree rotated left. It has the same nodes in the same in-order sequence, and its top is X when `node` was the root |
| Arena.RotateRightArena | src/RedBlackTrees.java:83-101 | the mirror image of RotateLeftArena |
| Trees.RotateLeft | src/RedBlackTrees.java:58-76 | a left rotation of a tree keeps its in-order walk |
| Trees.RotateRight | src/RedBlackTrees.java:83-101 | a right rotation of a tree keeps its in-order walk |
| Arena.AbsRotateLeft | src/RedBlackTrees.java:58-76 | the sub-tree leftRotate leaves at the rotated position denotes the abstract left rotation (`Trees.RotateLeft`) of the tree that was there, colours moving with their nodes |
| Arena.AbsRotateRight | src/RedBlackTrees.java:83-101 | the mirror image of AbsRotateLeft, for rightRotate and `Trees.RotateRight` |
| Arena.RotateLeftBelow | src/RedBlackTrees.java:58-76 | after leftRotate at `x`, the sub-tree topped by the old right child denotes `Trees.RotateLeft` of the tree that was below `x` |
| Arena.RotateRightBelow | src/RedBlackTrees.java:83-101 | the mirror image of RotateLeftBelow, for rightRotate |
| Trees.RotationMovesEqualKeyLeft | src/RedBlackTrees.java:58-76 | the left rotation done after inserting 5 three times yields a tree whose left sub-tree holds a value equal to its root. The walk stays ascending, but "left strictly smaller" does not survive |
| RBT.RedBlackTrees.FindParent | src/RedBlackTrees.java:114-125 | the descent from the root stops at the node under which a search for `value` leaves the tree, and that node's child on the side of `value` is null |
| Fixup.DescentStep | src/RedBlackTrees.java:118-124 | one step of the descent moves to a strictly smaller sub-tree that still leads to the same stopping node, or stops exactly at it |
| RBT.RedBlackTrees.Attach | src/RedBlackTrees.java:126-130 | the new node is appended Red, becomes `y`'s left child when `y`'s value is greater and its right child otherwise, has `y` as its parent, and no other link or colour changes. The walk's multiset gains exactly `value`, the walk stays ascending, and only the new node may have a Red parent |
| Fixup.AttachCase | src/RedBlackTrees.java:126-130 | attaching at the stopping node yields the tree `InsertLeaf` describes, in the repairing state for the new node |
| Trees.InsertLeafElements | src/RedBlackTrees.java:118-130 | attaching a leaf adds exactly one occurrence of `value` to the multiset of the walk |
| Trees.InsertLeafOrdered | src/RedBlackTrees.java:118-130 | attaching where the descent stops keeps an ascending walk ascending |
| Trees.InsertLeafSearchTree | src/RedBlackTrees.java:118-130 | the descent alone keeps "left strictly smaller, right greater or equal" |
| RBT.RedBlackTrees.InsertUtil | src/RedBlackTrees.java:109-140 | from a valid tree with a root, one node holding `value` is appended, the multiset of values grows by exactly `value` and the result is valid. With no root nothing changes |
| RBT.RedBlackTrees.RepairLeftParent | src/RedBlackTrees.java:150-169 | with a Red parent that is a left child: when the uncle exists and is as Red as the parent, the uncle and parent become Black, the grandparent Red, the links, shape and root stay as they were, and the repair continues from the grandparent. Otherwise the repair continues from the old parent after a zig-zag and from `node` itself after a zig-zig; the new parent of that node becomes Black and the old grandparent Red, the shape is the old one rotated left at the parent (zig-zag only) and then right at the grandparent, and that parent is then not Red, so the loop ends. Either way the values and the walk are unchanged, the state is valid again at the root or still repairable, and the repair measure decreases |
| RBT.RedBlackTrees.RepairRightParent | src/RedBlackTrees.java:172-190 | the mirror image of RepairLeftParent, with the uncle on the left: recolour with links, shape and root unchanged and continue from the grandparent, or rotate (right at the parent for a zig-zag, then left at the grandparent), with the same colour changes and continuation node, leaving that node with a parent that is not Red |
| RBT.RedBlackTrees.RotateAtLeftParent | src/RedBlackTrees.java:159-168 | when the uncle is absent or Black: the result is the old parent when `node` was a right child and `node` otherwise; exactly the colours of that node's parent (Black) and of the old grandparent (Red) change; the new shape is the old one rotated left at the parent when `node` was a right child, then rotated right at the grandparent; afterwards the result has a parent that is not Red, with the values and the walk unchanged |
| RBT.RedBlackTrees.RotateAtRightParent | src/RedBlackTrees.java:180-189 | the mirror image of RotateAtLeftParent: a right rotation at the parent when `node` was a left child, then a left rotation at the grandparent, with the same result node and colour changes |
| RBT.RedBlackTrees.HandleRedRedConflict | src/RedBlackTrees.java:145-196 | the loop terminates and leaves a valid tree (red-black rules restored, root Black) with the same values in the same in-order sequence |
| Fixup.RecolorCase | src/RedBlackTrees.java:152-156 | recolouring uncle and parent Black and the grandparent Red keeps the black heights. The only possible conflict moves to the grandparent, or disappears when the grandparent is the root |
| Fixup.ZigZagLeftCase | src/RedBlackTrees.java:161-164 | rotating the parent left in the left-right case turns it into the left-left case, with the old parent as the node in conflict |
| Fixup.ZigZagRightCase | src/RedBlackTrees.java:182-185 | the mirror image of ZigZagLeftCase |
| Fixup.ZigZigLeftCase | src/RedBlackTrees.java:165-167 | painting the parent Black and the grandparent Red, then rotating the grandparent right, keeps the black heights and leaves the node with a Black parent. The root changes only when the grandparent was the root |
| Fixup.ZigZigRightCase | src/RedBlackTrees.java:186-188 | the mirror image of ZigZigLeftCase |
| Fixup.ResolvedCase | src/RedBlackTrees.java:148 | when the node's parent is Black there is no Red-Red edge left |
| Fixup.BlackenRootCase | src/RedBlackTrees.java:195 | painting the root Black keeps the node-by-node invariants |
| RBT.RedBlackTrees.Insert | src/RedBlackTrees.java:202-211 | on an empty tree the result is a single Black root node. Otherwise insertUtil runs. Either way exactly one value is appended, the multiset of values grows by `value`, and the tree stays valid |
| RBT.RedBlackTrees.Height | src/RedBlackTrees.java:218-223 | the height computed on the arena is the height of the tree below `x` |
| Trees.HeightBound | src/RedBlackTrees.java:218-223 | a red-black tree of n values has height h with 2^h <= (n + 1)^2, that is h <= 2 log2(n + 1) |
| RBT.RedBlackTrees.HeightLogarithmic | src/RedBlackTrees.java:218-223 | on a valid tree with n values, 2^height <= (n + 1)^2, that is height <= 2 log2(n + 1) |
| RBT.RedBlackTrees.Min | src/RedBlackTrees.java:230-238 | null for a null start. Otherwise the node reached has no left child and is the first node of the start's sub-tree in sorted order |
| RBT.RedBlackTrees.Max | src/RedBlackTrees.java:245-253 | null for a null start. Otherwise the node reached has no right child and is the last node of the start's sub-tree in sorted order |
| RBT.RedBlackTrees.MinMaxAreExtremes | src/RedBlackTrees.java:230-253 | on a valid non-empty tree, min and max from the root hold the first and last values of the walk, and every stored value lies between them |
| RBT.RedBlackTrees.Successor | src/RedBlackTrees.java:256-266 | the result is the node right after `x` in the in-order sequence of nodes, and it is null exactly when `x` is the last node |
| RBT.RedBlackTrees.Predecessor | src/RedBlackTrees.java:269-281 | the result is the node right before `x` in the in-order sequence of nodes, and it is null exactly when `x` is the first node |
| RBT.RedBlackTrees.Search | src/RedBlackTrees.java:289-300 | on a sub-tree whose walk is ascending, the search from `x` answers true exactly when `value` is stored below `x` |
| RBT.RedBlackTrees.SearchFindsStored | src/RedBlackTrees.java:289-300 | on a valid tree, search from the root is true exactly when `value` is one of the stored values |

## Left out

- `main` (reading `src/input.txt`, printing results) is not modelled. Neither is the printing itself: `Sort` returns the sequence it would print.
- Deletion does not exist in the source and is not modelled.
- Java `int` is 32 bits. Values are only compared, never computed with, so the model uses unbounded integers. `height` cannot overflow for any tree that fits in memory.
- Object references are indices into the sequence fields. A new node is appended and nodes are never freed, so aliasing between distinct trees is not modelled.
- Concurrency is not modelled; the class has no synchronisation.
- Insert: "left strictly smaller, right greater or equal" is kept by the descent (`Trees.InsertLeafSearchTree`) but not by the rotations. `Trees.RotationMovesEqualKeyLeft` shows the tree after inserting 5 three times. The model therefore proves the weaker invariant the rotations do keep: the in-order walk is ascending. Search relies only on that.
- InsertUtil: the null-node guard at line 111 is a live branch. The guard `newNode.parent == null` at line 134 cannot fire after the descent, so it is proved impossible rather than modelled as a return. The early return when the parent is the root (lines 136-137) is modelled.
- Successor, Predecessor: the result is stated in terms of node ids in the in-order sequence. With duplicates, "next value" and "next node" differ, and the source works with nodes.
- HandleRedRedConflict: its precondition is the state `insertUtil` leaves behind; it is not specified for arbitrary calls.
- Successor, Predecessor, LeftRotate, RightRotate require a non-null node. The source dereferences it without a check.
