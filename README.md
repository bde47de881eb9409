# Licence-plate registry: a verified model of its red-black tree

The registry keeps the licence plates it has issued in a red-black tree keyed
by plate string, with a shared black sentinel node `TNULL` and parent pointers,
and keeps beside it the annual revenue: 7 Galleons per custom plate and 4 per
generated plate. This project models the class `RedBlackTree` of
`plateMgmt.cpp` in Dafny and proves, for every operation, what it does to the
set of registered plates, to their order, to the red-black shape and to the
revenue.

How the model is built:

- **Nodes in an arena.** The source allocates every `Node` with `new` and links
  nodes with raw pointers. Here the nodes live in the field `nodes: seq<Node>`
  of the class `PlateMgmt.RedBlackTree`, and a pointer is an index into it.
  Index 0 is the sentinel `TNULL` and -1 is the null pointer. The fields
  `root` and `revenue` are the source's fields. Every method reassigns these
  fields one write at a time, in the order the source performs its writes.
  This includes the writes to the sentinel's parent pointer that `transplant`
  and `deleteNodeHelper` make and that `deleteFix` relies on.
- **The abstraction.** A ghost field `tree` holds the stored tree as a value
  (`RbTree.Tree`, each node carrying its arena index). `Arena.Encodes` ties the
  heap to that value. `Valid()` is the class invariant:
  - the heap stores `tree`, with no node twice;
  - the tree is a binary search tree;
  - it is a red-black tree (no red node with a red child, the same black-height
    on every path) with a black root;
  - no plate is empty;
  - `revenue` is 7 per custom plate plus 4 per generated plate.
  `Contents()` is the in-order list of (plate, flag) entries, and `Resident()`
  is the set of plates.
- **The order on plates.** `std::string`'s `<` compares bytes lexicographically.
  Dafny's `<` on sequences means "proper prefix", so `StringOrder.Less` writes
  the byte order out and proves it is a strict total order.
- **The fix-up loops.** `insertFix` and `deleteFix` are `while` loops over the
  heap. Their invariants are stated on a ghost zipper: the path `ctx` from the
  current node `k` (or `x`) up to the root, and the subtree `t` at that node.
  Module `Balance` proves each case of each loop on tree values. Modules
  `FixupHeap` and `DeleteHeap` prove what each repainting and rotation leaves
  in the heap.
- **The sorted-list specification.** Module `PlateList` gives the abstract
  registry: an ascending list of entries with `Insert`, `Delete`, `InRange` and
  `Revenue`, and the lemmas that relate them.
- **Random plates.** The values `rand()` would return are a parameter `rolls`.
  Attempt `k` uses `rolls[4k .. 4k+4]`.
- **Results as values.** Outcomes are returned as values (`AddOutcome`,
  `bool`, the neighbour plate or `""`, the list of plates in range, the
  revenue), not as message strings.

## Model

| member | source | states |
|---|---|---|
| StringOrder.StrictTotalOrder | plateMgmt.cpp:44-45 | the byte-lexicographic order used for every plate comparison is irreflexive, asymmetric, transitive and total, so a tree ordered by it holds each plate at most once |
| StringOrder.LessTransitive | plateMgmt.cpp:276 | `a < b` and `b < c` give `a < c` for `std::string` comparison |
| StringOrder.EmptyIsLeast | plateMgmt.cpp:310 | the empty string is below every non-empty plate and above none, so it can serve as the "no plate" marker |
| PlateMgmt.RedBlackTree.constructor | plateMgmt.cpp:239-246 | a new registry holds no plates, has revenue 0, and satisfies the class invariant with only the black sentinel in the heap, which is also the root |
| PlateMgmt.RedBlackTree.SearchTreeHelper | plateMgmt.cpp:43-47 | on an ordered subtree, the result is the sentinel exactly when the key is not in it; otherwise it is a node of that subtree holding the key, and its entry is in the subtree's in-order contents |
| PlateMgmt.RedBlackTree.InorderRange | plateMgmt.cpp:50-55 | the pruned walk appends to `result` exactly the in-range plates of the subtree, in in-order, so pruning drops no plate in range |
| PlateMgmt.RedBlackTree.LeftRotate | plateMgmt.cpp:58-68 | the heap changes node by node as `LeftRotated` says: `x`, `y`, the moved subtree's parent pointer and the grandparent's child pointer (or `root`); the stored tree becomes `RotateLeft` of the subtree at `x`, and the sentinel is untouched |
| PlateMgmt.RedBlackTree.RightRotate | plateMgmt.cpp:71-81 | the mirror image of `LeftRotate` |
| RbTree.RotateLeftKeeps | plateMgmt.cpp:58-68 | a left rotation keeps the in-order sequence of entries, hence the plate set and the order, and uses the same nodes without sharing any |
| RbTree.RotateRightKeeps | plateMgmt.cpp:71-81 | the same for a right rotation |
| RbTree.RotateLeftPlug | plateMgmt.cpp:58-68 | rotating any subtree of the whole tree leaves the whole tree's in-order contents unchanged |
| RbTree.RotateRightPlug | plateMgmt.cpp:71-81 | the same for a right rotation |
| Arena.LeftRotationSpec | plateMgmt.cpp:58-68 | the six writes of `leftRotate`, performed in order, have the node-by-node effect `LeftRotated` |
| Arena.RightRotationSpec | plateMgmt.cpp:71-81 | the same for `rightRotate` |
| Arena.RotateLeftStored | plateMgmt.cpp:58-68 | after those writes the heap stores the old tree with the subtree at `x` rotated, whether `x` was the root or a left or right child |
| Arena.RotateRightStored | plateMgmt.cpp:71-81 | the same for `rightRotate` |
| PlateMgmt.RedBlackTree.InsertFix | plateMgmt.cpp:84-126 | from a red node `k` that may have a red parent, the loop ends with a stored red-black tree with a black root, holding the same entries in the same order |
| PlateMgmt.RedBlackTree.InsertStep | plateMgmt.cpp:87-122 | one pass of the loop picks the case by the parent's side and the uncle's colour, keeps the loop invariant and moves `k` strictly closer to the root |
| PlateMgmt.RedBlackTree.InsertRecolor | plateMgmt.cpp:89-94 | case 1 (red uncle): parent and uncle turn black, grandparent red, `k` moves to the grandparent; contents unchanged |
| PlateMgmt.RedBlackTree.InsertStraighten | plateMgmt.cpp:96-99 | case 2: rotating at the parent turns an inner grandchild into an outer one, keeping the invariant and the contents |
| PlateMgmt.RedBlackTree.InsertLiftLeft | plateMgmt.cpp:101-103 | case 3 (right side): the parent turns black, the grandparent red, and a left rotation at the grandparent lifts the parent into its place, leaving `k`'s parent black so the loop stops; contents unchanged |
| PlateMgmt.RedBlackTree.InsertLiftRight | plateMgmt.cpp:118-120 | the mirror image of case 3 |
| Balance.InsertCase1 | plateMgmt.cpp:89-94 | on tree values, the case-1 recolouring keeps the `insertFix` invariant at the grandparent |
| Balance.InsertCase2 | plateMgmt.cpp:96-99 | the case-2 rotation keeps the invariant with the old parent as the new `k` |
| Balance.InsertCase3 | plateMgmt.cpp:101-103 | the case-3 recolouring and rotation leave a red-black subtree with a black root at the grandparent's position |
| Balance.InsertDone | plateMgmt.cpp:123-125 | when the loop stops, painting the root black gives a red-black tree with a black root |
| PlateMgmt.RedBlackTree.FindParent | plateMgmt.cpp:271-278 | the descent of `addLicence` for a plate not in the tree ends at the empty spot where the plate belongs between its neighbours, and returns that spot's parent (null for an empty tree) |
| RbTree.DescendStep | plateMgmt.cpp:276-277 | one step of that descent keeps the plate between everything before and everything after the spot |
| PlateMgmt.RedBlackTree.Attach | plateMgmt.cpp:268-283 | a new red node with sentinel children is appended and linked at that spot; the heap stores the old tree with the new node there |
| RbTree.PlugInsert | plateMgmt.cpp:280-283 | the tree with the new node in that spot holds the old entries with the new one inserted in order |
| PlateMgmt.RedBlackTree.InsertPlate | plateMgmt.cpp:268-288 | inserting an absent, non-empty plate keeps the class invariant, makes the contents the sorted insertion of the new entry, adds exactly that plate, and raises revenue by 7 (custom) or 4 (generated) |
| PlateMgmt.RedBlackTree.Transplant | plateMgmt.cpp:129-134 | the subtree at `v` takes `u`'s place under `u`'s parent or as the root, and `v`'s parent pointer is set even when `v` is the sentinel |
| PlateMgmt.RedBlackTree.Minimum | plateMgmt.cpp:137-140 | the loop ends at the leftmost node of the subtree |
| Balance.MinNodeFirst | plateMgmt.cpp:137-140 | the leftmost node holds the first entry in order, which is below every other plate of an ordered subtree |
| PlateMgmt.RedBlackTree.FindNode | plateMgmt.cpp:202-209 | the `<=` descent of `deleteNodeHelper` finds the node holding the key exactly when the key is registered, and the sentinel otherwise |
| PlateMgmt.RedBlackTree.SpliceOut | plateMgmt.cpp:213-218 | a node with at most one child is replaced by that child, whose parent pointer (even the sentinel's) names the removed node's parent |
| PlateMgmt.RedBlackTree.ReplaceBySuccessor | plateMgmt.cpp:219-233 | with two children, the successor is detached and relinked into the node's place with the node's colour; `yOrig` is the successor's old colour, and `x` the node in the successor's old position |
| PlateMgmt.RedBlackTree.DetachSuccessor | plateMgmt.cpp:222-228 | the successor ends detached, without a left child, holding the right subtree without itself, while the node and its left subtree are untouched |
| PlateMgmt.RedBlackTree.MoveSuccessor | plateMgmt.cpp:229-232 | `transplant(z, y)` and the adoption of `z`'s left subtree and colour leave the tree `SuccessorCtx` describes |
| Balance.RemoveOneChild | plateMgmt.cpp:211-218 | removing a black node with at most one child leaves the tree one black node short at the child; removing a red one leaves a red-black tree with a black root |
| Balance.RemoveTwoChildren | plateMgmt.cpp:219-234 | the same for moving the successor into the place of a node with two children, by the successor's original colour |
| Balance.RemovedEntries | plateMgmt.cpp:201-233 | in an ordered tree, deleting the node's plate from the in-order list leaves exactly the pieces on either side of the node |
| Balance.RemoveTwoChildrenEntries | plateMgmt.cpp:219-233 | after the successor move, the in-order list lacks exactly the removed node's entry |
| Balance.RemoveTwoChildrenIds | plateMgmt.cpp:219-233 | after the successor move, the tree uses exactly the old nodes but the removed one, none twice |
| PlateMgmt.RedBlackTree.Unlink | plateMgmt.cpp:211-233 | unlinking the found node leaves the tree without its entry, already red-black when the node taken out was red, and one black node short at `x` when it was black |
| PlateMgmt.RedBlackTree.DeleteFix | plateMgmt.cpp:143-198 | from a node one black node short, the loop ends with a stored red-black tree with a black root, holding the same entries in the same order |
| PlateMgmt.RedBlackTree.DeleteStep | plateMgmt.cpp:145-195 | one pass of the loop keeps the invariant and decreases the distance to the root (or ends at a red node) |
| PlateMgmt.RedBlackTree.DeleteRedSibling | plateMgmt.cpp:148-153 | case 1: the red sibling turns black, the parent red, and after the rotation `x` has a black sibling and a red parent |
| PlateMgmt.RedBlackTree.DeleteRecolorSibling | plateMgmt.cpp:154-156 | case 2: the sibling turns red and `x` moves up; the new `x` is red exactly when the parent was |
| PlateMgmt.RedBlackTree.DeleteStraighten | plateMgmt.cpp:158-163 | case 3: the sibling's far child becomes red, keeping the invariant |
| PlateMgmt.RedBlackTree.DeleteLift | plateMgmt.cpp:164-168 | case 4: recolouring and rotating at the parent repair the black-height, and `x` becomes the root |
| Balance.DeleteCase1 | plateMgmt.cpp:148-153 | on tree values, case 1 keeps the `deleteFix` invariant |
| Balance.DeleteCase2 | plateMgmt.cpp:154-156 | case 2 moves the deficiency to the parent |
| Balance.DeleteCase3 | plateMgmt.cpp:158-163 | case 3 keeps the invariant and makes the far child red |
| Balance.DeleteCase4 | plateMgmt.cpp:164-168 | case 4 (either side) leaves a red-black tree with a black root |
| Balance.DeleteDone | plateMgmt.cpp:197 | when the loop stops at a red node or the root, painting it black restores every red-black invariant |
| PlateMgmt.RedBlackTree.DeleteNodeHelper | plateMgmt.cpp:201-235 | the tree keeps BST order and the red-black invariants with a black root, its contents become the sorted list without the key, exactly that plate leaves the set, and the revenue is untouched |
| PlateDraw.DrawPlate | plateMgmt.cpp:255-259 | the inner `for` loop builds the four characters of attempt `k` |
| PlateDraw.PlateCharOnto | plateMgmt.cpp:257-258 | every digit and capital letter can be drawn |
| PlateDraw.FirstFree | plateMgmt.cpp:254-260 | a generated plate is 4 characters, each in `0-9` or `A-Z`, and is not among the taken plates |
| PlateDraw.FirstFreeIsFirst | plateMgmt.cpp:254-260 | when every earlier attempt is taken and attempt `k` is free, the loop settles on attempt `k` |
| PlateDraw.FirstFreeNone | plateMgmt.cpp:254-260 | when no attempt in `rolls` is free, every attempt's plate is taken |
| PlateMgmt.RedBlackTree.GeneratePlate | plateMgmt.cpp:253-261 | the `do … while` loop returns the first attempt whose plate is not registered |
| PlateMgmt.RedBlackTree.AddLicence | plateMgmt.cpp:249-292 | an already-registered custom plate is refused with nothing changed; otherwise the plate (custom, or the first free generated one for an empty argument) is inserted in order and the revenue rises by 7 or 4; the invariant holds after |
| PlateMgmt.RedBlackTree.DropLicence | plateMgmt.cpp:295-301 | an unregistered plate is refused with nothing changed; otherwise exactly that plate is removed, the order and red-black invariants hold, and the revenue falls by that entry's fee |
| PlateMgmt.RedBlackTree.LookupLicence | plateMgmt.cpp:304-306 | the answer is true exactly when the plate is registered |
| PlateMgmt.RedBlackTree.LookupPrev | plateMgmt.cpp:309-321 | the result is the greatest registered plate strictly below the query, or `""` when none is; the query need not be registered |
| PlateMgmt.RedBlackTree.LookupNext | plateMgmt.cpp:324-336 | the result is the least registered plate strictly above the query, or `""` when none is |
| Neighbours.PrevStep | plateMgmt.cpp:313-318 | one step of the `lookupPrev` descent keeps the best candidate so far and never skips a better one |
| Neighbours.NextStep | plateMgmt.cpp:328-333 | the same for `lookupNext` |
| Neighbours.PrevUnique | plateMgmt.cpp:309-321 | with no empty plate registered, the predecessor answer is unique |
| Neighbours.NextUnique | plateMgmt.cpp:324-336 | the same for the successor answer |
| PlateMgmt.RedBlackTree.LookupRange | plateMgmt.cpp:339-348 | the result is strictly ascending and holds exactly the registered plates `k` with `lo <= k <= hi`; it is empty when `hi < lo` |
| PlateList.InRangeSpec | plateMgmt.cpp:50-55 | on a sorted list the range filter is strictly ascending, holds exactly the plates in `[lo, hi]`, and is empty when `hi < lo` |
| RbTree.InRangeSplit | plateMgmt.cpp:52-54 | at a node, the range splits into left part, node and right part, and the left (right) part is empty when `lo` is not below (`hi` is not above) the node's plate, which justifies the pruning |
| PlateMgmt.RedBlackTree.RevenueReport | plateMgmt.cpp:351-353 | the reported revenue is 7 per registered custom plate plus 4 per registered generated plate |
| PlateList.InsertSpec | plateMgmt.cpp:268-288 | inserting an absent plate into a sorted list keeps it sorted, adds exactly that plate, and adds its fee to the revenue |
| PlateList.DeleteSpec | plateMgmt.cpp:295-299 | deleting a plate from a sorted list keeps it sorted, removes exactly that plate and its entry's fee, and changes nothing when the plate is absent |
| PlateList.DeleteInsert | plateMgmt.cpp:268-299 | registering an absent plate and then removing it gives back the same contents, hence the same plate set and revenue |
| PlateList.InsertDelete | plateMgmt.cpp:268-299 | removing a registered entry and then inserting it again gives back the same contents |

## Left out

- `processCommands` and `main` (plateMgmt.cpp:357-422) read the command file, trim and parse it, and write the output file. This is I/O and text glue around the class.
- The message strings of `addLicence`, `dropLicence`, `lookupLicence`, `lookupPrev`, `lookupNext`, `lookupRange` and `revenueReport`, including `to_string` and the comma join of `lookupRange`, are not modelled. The methods return the outcome as a value: `AddOutcome`, a `bool`, the neighbour plate or `""`, the list of plates, or the revenue as an integer.
- `srand(time(0))` and `rand()` are foreign calls. Their values are the parameter `rolls`.
- PlateMgmt.RedBlackTree.AddLicence: for an empty argument it requires that some attempt in `rolls` gives a free plate. The source's retry loop has no bound and runs forever when no free plate ever comes up; that case is not modelled.
- PlateMgmt.RedBlackTree.DropLicence: the source reads `found->is_custom` after `deleteNodeHelper` has unlinked the node. That read is safe there only because removed nodes are never freed. The model reads the flag just before unlinking; no node's plate or flag ever changes, so the value is the same.
- Removed nodes stay in the arena, as in the source, which never frees them. The model does not claim anything about memory reclamation.
- `revenue` is an unbounded integer. The source's `int` could overflow only after about 300 million registrations; wrap-around is not modelled.
- Characters stand for the bytes of a `std::string`, compared as unsigned values. The model has no encoding and no locale.
- The `u &&` null tests of `insertFix` (plateMgmt.cpp:89, 108) are kept as `u != NIL`; they never fail, because the uncle is always a node or the sentinel.
