# AVL tree with a slab node allocator

This project is a Dafny model of a C library: an AVL tree whose nodes live in a slab allocator (avl.c, avl.h). It proves the library's promises about that model.

The C tree keeps untyped payload pointers ordered by a caller-supplied comparator `eval(d1, d2)`. Each node holds two child pointers, a payload pointer and one flag byte. The flag byte packs the balance (-2..+2, stored as balance + 2 in bits 4-6) and three allocator bits:
- first node of its slab;
- in use;
- marked for release.

The library takes nodes from the C heap in slabs of `allocAtOnce` contiguous nodes. Free nodes sit on a LIFO stack chained through their right pointers. `AVL_dealloc` hands a slab back only when no node of it is in use.

How the model is built:
- **The arena.**
  - Memory is a sequence of node records indexed by address. Slab k covers indices [k·allocAtOnce, (k+1)·allocAtOnce), and NULL is -1.
  - A `live` sequence says which slabs are still allocated.
  - The flag byte is a `bv8` operated on with the source's masks and shifts (module `Flags`).
- **The abstract tree.**
  - `AVL_TREE` becomes the class `Avl.AvlTree`. Its ghost field `tree` is the abstract tree the arena represents, a datatype carrying each node's index, balance and payload.
  - `free` lists the free stack in stack order.
  - `Valid()` ties the arena to these. Every reachable pointer, payload and balance matches `tree`, and each node appears once. The free stack chains exactly through `free`. Every node of a live slab is either in the tree (used bit set) or free (used bit clear), and only slab heads carry the first-of-slab bit. The tree is AVL with exact balances and ordered by the comparator. `size` and `height` are its true size and height.
- **The operations.** Each is a method on the class, or a method on field values that the class method calls. Its contract relates the result to pure reference definitions:
  - `Inorder(tree)` (the class's `Contents()`);
  - `InsertSorted` and `RemoveSame` on sorted sequences;
  - `KnuthInsert` and `KnuthDelete`, which are Knuth's Algorithm A (TAOCP vol. 3, section 6.2.3) and its deletion counterpart, written over zipper paths;
  - `FlushOrder`, the post-order in which flushing pushes nodes;
  - `Survivors` and `Idle` for `AVL_dealloc`.
- **The comparator.** It is an abstract strict weak order (`Order.IsComparator`). `AVL_exampleEval` is one instance of it.

## Model

| member | source | states |
|---|---|---|
| Flags.GetBal | avl.c:55 | the balance read back from a flag byte lies in -2..5 |
| Flags.SetBal | avl.c:56 | after setting balance b (-2..2), reading it back gives b and every other bit is unchanged |
| Flags.IncBal | avl.c:57 | when the balance is below 2, incrementing raises it by exactly 1 and keeps the other bits |
| Flags.DecBal | avl.c:58 | when the balance is above -2, decrementing lowers it by exactly 1 and keeps the other bits |
| Flags.SetBit | avl.c:62 | setting bit k makes it set, leaves every other bit and the balance unchanged |
| Flags.ClrBit | avl.c:63 | clearing bit k makes it clear, leaves every other bit and the balance unchanged |
| Flags.SetBalKeepsBits | avl.c:41-56 | setting the balance never changes one of the three allocator bits |
| Flags.ClrUnset | avl.c:61-63 | clearing a bit that is clear is the identity, and clearing undoes setting |
| Flags.IncDecInverse | avl.c:57-58 | incrementing and decrementing the balance are mutual inverses on every byte |
| Order.ExampleEval | avl.h:125-128 | the example comparator is negative, zero or positive exactly when the second integer is smaller than, equal to or larger than the first |
| Order.ExampleEvalIsComparator | avl.h:108-128 | the example comparator satisfies the comparator contract |
| Order.InsertSortedSplit | avl.c:388-453 | inserting d into a sequence whose left part sorts before d and right part after d puts d exactly between them |
| Order.RemoveSameSplit | avl.c:629-663 | when x equals the key and everything before x sorts before it, removing the key takes out exactly x |
| Trees.CheckBalanceCorrect | avl.c:1411-1429 | AVL_checkBalance returns the true height of an AVL tree (every balance in -1..1 and equal to the height difference), and -1 otherwise |
| Trees.CheckBalance | avl.c:1411-1429 | the result is -1 or more, and when it is not -1 it is the tree's true height |
| Trees.Rotation | avl.c:514-532 | turning a node and its left child about each other, whatever balances they get, keeps the in-order sequence and the node set |
| Arena.LinkedPlug | avl.h:79-85 | the arena represents a tree assembled from a path and a subtree iff it represents the path down to that subtree's root and the subtree itself |
| Arena.Retarget | avl.c:785-796 | re-pointing the last node of a path at a new child makes the path lead to that child |
| Arena.HoleSide | avl.c:789-794 | the parent's left pointer equals the child exactly when the path went left, as the comparison that picks the side to re-point relies on |
| Arena.NewSlab | avl.c:106-126 | a fresh slab joins the heap as a live slab whose nodes are all free, stacked downward from the highest index, with only the first flagged as slab head |
| Arena.Pop | avl.c:129-139 | popping the free stack hands out its top node, now marked in use, balance 0, with children and payload cleared; the rest of the stack is intact |
| Arena.Release | avl.c:187-189 | releasing a tree node clears its used bit and pushes it on top of the free stack, keeping every other node |
| Arena.Discard | avl.c:807-812 | the node deleted from the tree loses its payload, left pointer and used bit and becomes the new top of the free stack |
| Arena.SlabMem | avl.c:106-126 | adding a fresh slab to an empty free stack preserves the memory invariant with the slab's nodes as the new stack |
| Arena.PopMem | avl.c:129-139 | popping a non-empty stack preserves the memory invariant with the popped node pending and the stack shortened by one |
| Arena.AdoptMem | avl.c:413-585 | once the pending node is linked into the reshaped tree, the memory invariant holds again with nothing pending |
| Avl.AvlTree.constructor | avl.c:89-93 | a valid empty tree with no nodes, no slabs and an empty free stack |
| Avl.AvlTree.NewTree | avl.c:84-96 | returns null exactly when malloc fails; otherwise a valid empty tree with size and height 0, allocAtOnce raised to at least 1, and no nodes |
| Avl.AvlTree.PushSlab | avl.c:106-126 | appends one live slab of allocAtOnce nodes whose indices, counted down from the highest, form the whole free stack; the tree is untouched |
| Avl.AvlTree.NewNode | avl.c:103-141 | returns a node exactly when the free stack is non-empty or malloc succeeds. On failure nothing changes. On success the node has clear children, no payload and balance 0, size grows by 1 and the tree is untouched. Either the stack loses its top node, or a new slab is added and all its nodes but the one returned are free |
| Avl.AvlTree.Find | avl.c:327-352 | returns nothing exactly when no stored payload compares equal to the key; otherwise a stored payload that compares equal to it |
| Avl.AvlTree.Insert | avl.c:362-588 | returns 0, 1 or 2. It returns 1 exactly when an equal payload is stored, and 2 exactly when none is stored, the free stack is empty and malloc fails; in those two cases nothing changes. On 0 the in-order sequence is the old one with d inserted in order, size grows by 1, height stays or grows by 1, and the tree stays valid (AVL, ordered, exact height). When the node came off the free stack, that stack loses its top and the node joins the tree's index set, with the slabs unchanged. When a new slab was needed, one live slab of allocAtOnce nodes is added, its highest index joins the tree and the rest, counted down, form the free stack |
| Avl.AvlTree.Descend | avl.c:388-587 | into a non-empty tree, the same outcomes as Insert |
| Avl.AvlTree.Plant | avl.c:372-384 | into an empty tree: 2 with nothing changed exactly when no node can be obtained, else a one-node tree of height 1 holding d, with the allocator changes stated for Insert |
| Avl.AvlTree.Hang | avl.c:410-585 | below the hole the search found: 2 with nothing changed exactly when no node can be obtained, else d inserted in order, size +1, height +1 exactly when the pivot was balanced (A7.i), with the allocator changes stated for Insert |
| Avl.AvlTree.Attach | avl.c:417-585 | linking the new node at the hole and rebalancing keeps the tree valid, inserts d in order, and grows the height exactly when the pivot was balanced. The free stack, its top, the slabs and the node count are unchanged, and the tree's index set gains exactly the new node |
| Avl.AvlTree.Delete | avl.c:613-1174 | returns nothing exactly when no stored payload compares equal to the key, and then changes nothing. Otherwise it returns a stored payload equal to the key, the in-order sequence loses exactly that element, size drops by 1, height stays or drops by 1, and the tree stays valid; the returned payload was stored, in the node that is now the top of the free stack, with that node's payload and left link cleared; the rest of the free stack and the slabs are unchanged |
| Avl.AvlTree.Take | avl.c:629-1173 | the same outcomes as Delete, for a non-empty tree, including the payload's node pushed on the free stack |
| Avl.AvlTree.Walk | avl.c:1195-1267 | the payloads passed to the callback are a prefix of the in-order sequence, in strictly increasing comparator order; below the depth bound they are the whole sequence, each node exactly once |
| Avl.AvlTree.Flush | avl.c:147-197 | afterwards the tree is empty and valid; the free stack is the old tree's nodes in flush order on top of the old free stack; no slab is freed; top, size and height are reset |
| Avl.AvlTree.Dealloc | avl.c:206-297 | the tree, top, size and height are untouched. A slab dies exactly when it was live with none of its nodes in use. The free stack loses exactly those slabs' nodes, in the same order. The result is allocAtOnce times the number of slabs freed |
| Avl.AvlTree.Destroy | avl.c:304-310 | after flush and dealloc the tree is empty, the free stack is empty and every slab is freed |
| Avl.InorderWalk | avl.c:1202-1263 | the explicit-stack walk outputs a prefix of the in-order sequence, all of it when the height is below MAX_DEPTH - 1 |
| Avl.WalkDown | avl.c:1216-1232 | the descending step keeps the walk invariant: it pushes the node and goes left, or moves on to the visit, touching only the stack |
| Avl.WalkVisit | avl.c:1235-1252 | the visiting step keeps the walk invariant and outputs exactly one payload when the node is reached from the left |
| Avl.WalkUp | avl.c:1255-1260 | the returning step keeps the walk invariant, popping one level or ending the walk |
| Avl.FlushNodes | avl.c:157-192 | the flush loop leaves an empty tree and pushes the tree's nodes, in flush order, on the old free stack, preserving the memory invariant |
| Avl.FlushLeaf | avl.c:176-191 | releasing one leaf keeps the flush loop invariant and shrinks the rest of the tree |
| Avl.AttachAt | avl.c:417-585 | on field values: the tree invariant holds for the Knuth insertion result, its in-order sequence is the sorted insertion, height grows by Grows, the arena keeps its length and the index set gains exactly the new node |
| Avl.PlantSound | avl.c:372-384 | storing the payload in the first node of an empty tree gives a sound one-node tree |
| Avl.InsertSound | avl.c:457-587 | an arena reshaped to represent the Knuth insertion result satisfies the tree invariant with size +1 and height +Grows; the result holds the old indices plus the new node |
| Avl.DeleteIn | avl.c:629-1173 | on field values, with the same outcomes as Delete: the returned payload is in the old in-order sequence and was the payload of the node pushed on the free stack, whose payload and left link are cleared |
| Avl.Remove | avl.c:670-1162 | after splicing, discarding and rebalancing, the arena represents the Knuth deletion result with the removed node on top of the free stack; h is that result's height change; that node's payload and left link are cleared |
| Avl.Excise | avl.c:670-813 | splicing out the node and discarding it leaves the spliced shape, the path stack of the splice and the removed node on top of the free stack, with its payload and left link cleared |
| Avl.Unhook | avl.c:670-801 | the splice leaves the arena in the spliced shape with the stack holding the path to the splice point |
| Avl.DeleteSound | avl.c:807-1170 | the tree invariant holds after the deletion with size -1 and the height dropping exactly when h is -1 at the root; the in-order sequence is the old one without the key |
| Avl.DeleteContents | avl.c:670-1170 | the Knuth deletion result is AVL and ordered, has one node fewer, drops exactly the key from the in-order sequence, and changes the height by h, which is 0 or -1 |
| Insertion.Pivot | avl.c:388-453 | the pivot is the deepest node on the search path with a non-zero balance, or the top node when there is none |
| Insertion.Lean | avl.c:457-495 | A6: every node below the pivot gets balance -1 or +1, toward the side the search went |
| Insertion.RotateIns | avl.c:514-583 | a single or double rotation keeps the in-order sequence and the node set |
| Insertion.Rebalance | avl.c:498-584 | A7: adjusting the pivot keeps the in-order sequence and the node set |
| Insertion.RotateInsCorrect | avl.c:514-570 | A8 and A9 after the pivot's heavy side grew return an AVL subtree exactly as high as the pivot's subtree before the insertion |
| Insertion.GrowsAtTop | avl.c:498-504 | if the height grows, the pivot is the top node and every node on the path was balanced |
| Insertion.KnuthInsertCorrect | avl.c:457-585 | Algorithm A yields an AVL, ordered tree. Its in-order sequence is the old one with d at the hole, its node set gains the new node, and its height grows exactly when the pivot was balanced |
| Deletion.Settle | avl.c:896-1133 | settling a node after deletion keeps the in-order sequence and node set |
| Deletion.Climb | avl.c:1138-1161 | one step of the upward loop keeps the in-order sequence and node set, and the subtree stays rooted at the frame's node |
| Deletion.Fixup | avl.c:883-1162 | the whole upward loop keeps the in-order sequence and node set |
| Deletion.SettleCorrect | avl.c:896-1133 | at a node with balance in -2..2 and AVL children, settling gives an AVL subtree whose height changed by h, with h 0 or -1 |
| Deletion.SettleRight | avl.c:901-1013 | for balance +2: the single or double rotation gives an AVL subtree, and h is 0 or -1 accordingly |
| Deletion.SettleLeft | avl.c:1020-1132 | for balance -2: the mirrored rotations give an AVL subtree, and h is 0 or -1 accordingly |
| Deletion.SettleShapes | avl.c:903-1032 | at balance +2 the heavy child and the grandchild the rotation reads are non-null, and likewise at -2, so the dereferences at 911-913 and 1030-1032 are safe |
| Deletion.ClimbCorrect | avl.c:1138-1161 | after the loop steps up, the parent's children are AVL and its balance is exact within -2..2, with h telling how its height changed |
| Deletion.FixupCorrect | avl.c:883-1162 | the upward loop ends with every balance in -1..1 and exact, the height changed by h, and h 0 or -1 |
| Deletion.FixupStops | avl.c:883-1162 | once h is 0 the remaining passes of the loop change nothing |
| Deletion.SpliceCorrect | avl.c:670-801 | splicing (a child moved up, or the successor or predecessor moved in) keeps the shape AVL above the splice point and removes exactly the deleted payload from the in-order sequence |
| Deletion.SpliceChild | avl.c:670-705 | a node with at most one child is replaced by that child, which is one level lower |
| Deletion.Removed | avl.c:706-755 | the node physically unlinked has at most one child |
| Deletion.KnuthDeleteCorrect | avl.c:670-1162 | the deletion result is AVL and ordered, the height changes by h (0 or -1), the in-order sequence loses exactly the deleted payload, and the node set loses exactly the deleted node |
| Linking.SearchHole | avl.c:388-453 | the search reports a stored equal payload exactly when one exists; otherwise it ends at the hole where d belongs, with b the pivot and p its parent |
| Linking.LinkNew | avl.c:413-420 | A5: the new node, with clear children and balance 0, linked at the hole represents the tree with the new leaf there, which gains exactly that index; only the old tree's nodes and the new node change |
| Linking.LinkLeaf | avl.c:417-446 | storing the payload in the new node and linking it below the last node of the path represents the tree with the new leaf at the hole |
| Linking.LeanPath | avl.c:457-495 | the A6 loop sets the balances between the pivot and the new node as Lean does, touching only those nodes |
| Linking.RotateSingle | avl.c:514-532 | A8 rewires the pivot and its child into the single rotation, touching only the nodes of the subtree |
| Linking.PivotLeft | avl.c:536-543 | the left double rotation's pointer moves give the pivoted shape, touching only three nodes |
| Linking.PivotRight | avl.c:544-551 | the right double rotation's pointer moves give the pivoted shape, touching only three nodes |
| Linking.DoubleBalances | avl.c:553-569 | the balance table of A9 gives the balanced result, touching only three nodes |
| Linking.RotateDouble | avl.c:533-570 | A9 as a whole: pointer moves and balance table give the double rotation |
| Linking.Rotate | avl.c:511-584 | A7.iii picks A8 or A9 by the child's balance and yields RotateIns |
| Linking.AtPivot | avl.c:498-584 | at the pivot: A7.i, A7.ii or A7.iii give Rebalance, the parent or top is re-pointed, and growth happens exactly when the pivot was balanced |
| Linking.TouchUp | avl.c:573-583 | A10: re-pointing the pivot's parent, or the top, at the rebalanced subtree represents the whole tree with that subtree in place, touching only the old tree's nodes |
| Linking.SetChild | avl.c:575-578 | the parent's left or right link, whichever the path went down, now points at the new child, and the path above still links to it; nothing outside the path changes |
| Linking.Grow | avl.c:457-585 | A6 followed by A7 give the Knuth insertion result below the parent of the pivot |
| Linking.Place | avl.c:413-585 | linking and rebalancing give exactly KnuthInsert, growing exactly when Grows |
| Linking.InsertResult | avl.c:413-587 | the insertion result is AVL, ordered and distinct, holds the in-order insertion of d, has one node more, and grows by Grows |
| Unlinking.SearchKey | avl.c:629-663 | the search with a path stack finds a node equal to the key exactly when one exists, leaving the stack holding the path to it |
| Unlinking.CutAt | avl.c:677-781 | re-pointing the parent at the removed node's only child is the first Climb step of the upward loop |
| Unlinking.SpliceOne | avl.c:670-705 | a node with at most one child is bypassed, leaving the spliced shape |
| Unlinking.LeftMost | avl.c:728-741 | the descent finds the leftmost node of the right subtree and stacks the path to it |
| Unlinking.RightMost | avl.c:742-755 | the descent finds the rightmost node of the left subtree and stacks the path to it |
| Unlinking.Successor | avl.c:728-741 | the in-order successor, its parent and its right child, with the stack extended to it |
| Unlinking.Predecessor | avl.c:742-755 | the in-order predecessor, its parent and its left child, with the stack extended to it |
| Unlinking.Neighbour | avl.c:706-755 | for a two-child node the successor is chosen when its balance is > 0, otherwise the predecessor |
| Unlinking.Transplant | avl.c:785-787 | the replacement node takes over the removed node's children and balance |
| Unlinking.Repoint | avl.c:789-794 | the parent's pointer, or top, now points to the replacement |
| Unlinking.MoveUp | avl.c:785-796 | the replacement takes the removed node's place with its balance and children, touching only the path and the replacement |
| Unlinking.TwoChildBalance | avl.c:706-801 | when the neighbour is unlinked, its parent's balance is in -1..1 and the moved node's balance is a valid balance |
| Unlinking.Detach | avl.c:768-794 | the neighbour is unlinked and moved into the removed node's place, and h is the first Climb step's |
| Unlinking.SpliceTwo | avl.c:706-801 | a two-child node is replaced by its neighbour, leaving the spliced shape and the stack of its path |
| Unlinking.Promote | avl.c:768-800 | unlinking the neighbour and moving it up leaves the spliced shape |
| Retrace.Turn | avl.c:910-920 | the single rotation's pointer moves, touching two nodes |
| Retrace.TurnBalances | avl.c:936-955 | the single rotation's balances; h becomes 0 exactly when the heavy child was balanced |
| Retrace.TiltedIsSettle | avl.c:903-956 | the single rotation is Settle's result, with h 0 exactly when the heavy child was balanced |
| Retrace.Raise | avl.c:963-1091 | the double rotation's pointer moves, touching three nodes |
| Retrace.RaiseRight | avl.c:963-972 | the right-left double rotation's pointer moves give the pivoted shape, touching only three nodes of the subtree |
| Retrace.RaiseLeft | avl.c:1082-1091 | the left-right double rotation's pointer moves give the pivoted shape, touching only three nodes of the subtree |
| Retrace.RebalancedIsSettle | avl.c:957-1132 | the double rotation with its balance table is Settle's result, with h -1 |
| Retrace.SingleAt | avl.c:903-956 | a single rotation and re-pointing of the parent give the tilted subtree in place |
| Retrace.DoubleAt | avl.c:957-1013 | a double rotation and re-pointing of the parent give the balanced subtree in place |
| Retrace.SettleAt | avl.c:896-1133 | one node of the loop settles as Settle does, touching only the nodes of the tree |
| Retrace.HeavyAt | avl.c:896-1133 | a node at +2 or -2 settles as Settle does |
| Retrace.ClimbAt | avl.c:1138-1161 | stepping up adjusts only the parent's balance, as Climb does |
| Retrace.FixupPass | avl.c:884-1162 | one pass of the loop is Settle followed by Climb, and the next node again has exact balance within -2..2 |
| Retrace.RetraceStart | avl.c:677-801 | after the splice the first loop node satisfies the loop's precondition |
| Retrace.Pass | avl.c:884-1162 | one iteration of the loop preserves its invariant, or finishes with the Fixup result |
| Retrace.Lift | avl.c:1138-1161 | climbing from the settled node restores the loop invariant one level up |
| Retrace.Unwind | avl.c:883-1162 | the upward loop turns the spliced arena into the Knuth deletion result with its h |
| Retrace.Retreat | avl.c:883-1162 | the loop, from pass k on, reaches the Fixup result |
| Traversal.Position | avl.c:1202-1263 | a node's position in the tree fixes its arena record and the walk's output before and after it |
| Traversal.SortedPrefix | avl.c:1202-1263 | every prefix of a sorted output is sorted |
| Traversal.FlushOrderIds | avl.c:157-192 | the flush order lists every tree node exactly once |
| Traversal.PruneLeaf | avl.c:176-191 | removing the first leaf of the flush order puts it last in the flush order of the rest |
| Traversal.CutLeaf | avl.c:183-186 | clearing the parent's pointer to the leaf represents the tree without it |
| Traversal.ReleaseLeaf | avl.c:176-191 | releasing a leaf keeps the memory invariant with that leaf on top of the free stack |
| Traversal.FlushDown | avl.c:162-175 | the descent of the flush loop keeps its invariant and goes to a lower subtree |
| Reclaim.Survivors | avl.c:264-293 | the entries of the free stack that are not in an idle slab, in the same order and without repetitions |
| Reclaim.UnmarkedSurvivors | avl.c:216-284 | when the marks are exactly the idle slabs, the unmarked entries are the survivors |
| Reclaim.CheckSlab | avl.c:227-239 | the scan of a slab marks its nodes up to the first used one, and stops there or at the slab's end |
| Reclaim.ClearSlab | avl.c:250-254 | the marks of a slab with a used node are all cleared again |
| Reclaim.IdleScan | avl.c:219-255 | the scan reaches the end of a slab exactly when the slab is idle |
| Reclaim.ScanSlab | avl.c:219-255 | scanning a slab head adds it to the release chain exactly when its slab is idle |
| Reclaim.MarkIdle | avl.c:216-258 | the first pass marks exactly the idle slabs, chains their heads, and counts their nodes |
| Reclaim.MarkStep | avl.c:219-257 | one iteration of the first pass keeps its invariant over one more free-stack entry |
| Reclaim.Unlink | avl.c:264-284 | the second pass leaves a free stack of exactly the unmarked entries in the same order, changing only right pointers |
| Reclaim.UnlinkStep | avl.c:269-282 | one iteration of the second pass keeps its invariant over one more free-stack entry |
| Reclaim.FreeSlabs | avl.c:286-292 | the last loop kills exactly the chained slabs |
| Reclaim.Sweep | avl.c:264-293 | unlinking and freeing leaves the survivors as the free stack and kills exactly the idle slabs |
| Reclaim.Dealloc | avl.c:206-297 | the survivors remain on the free stack, exactly the idle slabs die, the tree is untouched and the count is allocAtOnce per slab freed |
| Reclaim.EmptyIdle | avl.c:304-310 | with an empty tree every live slab is idle and no free-stack entry survives |

## Left out

- AVL_print (avl.c:1280-1390) is left out. It writes SVG/HTML to stdout, which is pure I/O.
- The diagnostic `fprintf` in AVL_checkBalance, AVL_exampleCallback and AVL_examplePrintLabel are left out because they only print. For checkBalance only the return value is modelled.
- avl_example.c is not part of this model. It is a multi-threaded stress harness.
- Concurrency and locking are not modelled. The library has no synchronisation, and every operation is modelled as sequential.
- Real memory is modelled abstractly:
  - malloc is a boolean parameter saying whether the allocation succeeds (NewTree, NewNode, Insert);
  - free() of a slab marks the slab dead;
  - the final free() of the handle in AVL_destroy is not modelled. After Destroy the object remains, empty, with every slab freed.
- Pointers are arena indices, and pointer equality is index equality.
- The opaque `user` pointer is folded into the comparator closure.
- Payloads are a type parameter, and a stored payload is never NULL. The source cannot tell a NULL payload from "not found", so payloads are wrapped as `Option` only where a node is free.
- Order.ExampleEval: C `int` subtraction can overflow for operands far apart. The model uses unbounded integers.
- The flag byte is modelled as an unsigned byte with the source's masks. In the source it is a signed int8_t, but the bits used are the same.
- Avl.AvlTree.Delete, Avl.AvlTree.Take, Avl.AvlTree.Flush, Avl.AvlTree.Destroy, Avl.DeleteIn, Avl.Remove, Avl.Excise, Avl.Unhook, Avl.FlushNodes, Unlinking.SearchKey: these require the tree height to be at most AVL_MAX_DEPTH (64).
  - The source keeps its paths in arrays of that size and does not check for overflow; its depth guards (avl.c:634, 732, 746) then never fire.
  - Deeper trees are not modelled, including the "not found" that the guard at avl.c:634 would report.
- Avl.AvlTree.Walk: the source quits silently when its stack is nearly full (avl.c:1263). The contract therefore promises the whole in-order sequence only for heights below AVL_MAX_DEPTH - 1, and a prefix otherwise.
- Deletion.SettleRight, Deletion.SettleLeft: the source reads a grandchild balance into a local variable in cases where it is then unused (avl.c:911-913, 1030-1032). These dead reads are not modelled; SettleShapes proves that the pointers read are non-null.
- The comments at avl.c:1109 and 1119 mislabel the balances in the mirrored double rotation. The model follows the code.
- The upward loop of delete follows the code. A rotation whose heavy child was balanced ends with h = 0 (Retrace.TiltedIsSettle); from then on the loop changes nothing (Deletion.FixupStops), so no further parent update is reachable.
- Release when a node leaves the tree follows the code rather than a description that clears all pointers:
  - AVL_flush clears only the used bit and re-points r at the stack head;
  - AVL_delete also clears d and l.
