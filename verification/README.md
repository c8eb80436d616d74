# Red-black tree catalogue core, modelled in Dafny

The program keeps a catalogue of records keyed by strings in a red-black tree
(`RedBlackTree` in `main.py`). It is the textbook structure:
- one shared BLACK sentinel node `NULL` stands for every missing child and for
  the root's parent;
- `insert` either replaces the payload of an existing key or links a new RED
  node and runs `_insert_fixup`;
- `delete` splices out the node (or its in-order successor) and runs
  `_delete_fixup` when a BLACK node left its place;
- `_find_node`/`search` descend by key;
- `inorder` lists `(key, data, colour)` in key order.

This project models that core as values and proves what it promises.

- `str_order.dfy` (`StrOrder`) is the key order: Python's `<` on `str`, which
  is lexicographic by code point with a proper prefix first. It is proved to
  be a strict total order.
- `assoc_list.dfy` (`AssocList`) is the reference semantics: a key-sorted
  list of entries with `Lookup`, `Put` (insert or replace) and `Remove`. It
  also holds the lemmas that make `Put` and `Remove` finite-map updates.
- `trees.dfy` (`Trees`) holds the node record as a tree value:
  - `Nil` is the sentinel, and its colour reads as BLACK;
  - the traversal `Inorder`;
  - the four red-black properties (`Ordered`, BLACK root, `NoRedRed`, `Balanced`);
  - the two rotations.
- `cursors.dfy` (`Cursors`) is a zipper. A `Cursor` is a subtree together with
  the chain of its ancestors, and that chain plays the role of the `parent`
  links. A cursor on `Nil` is the sentinel seen from the slot it fills, which
  is exactly what the sentinel's mutable `parent` field records after
  `_transplant`. The file also has lemmas that split each red-black property
  between a subtree and its context.
- `insertion.dfy` (`Insertion`) models `insert` and `_insert_fixup`. Each case
  of the fixup loop is a function on cursors whose contract keeps the loop
  invariant `FixupInv`.
- `search.dfy` (`Searching`) models `_find_node` and `search`.
- `deletion.dfy` (`Deletion`) models `_minimum`, `_transplant`, `delete` and
  `_delete_fixup`:
  - each of the four cases, on both sides, keeps `DeleteInv`;
  - the loop's side test `x == x.parent.left`, which compares the sentinel by
    identity, is modelled as written (`SideIsLeft`) and proved to pick the
    side `x` really is on.

The node objects themselves are modelled in a second layer:
- `links.dfy` (`Links`) is a store of `_Node` records addressed by
  references (`Ref`, with `NULL` the sentinel), together with `self.root`
  and the sentinel's own mutable `parent` field. The relations `Rep` and
  `At` say when the records reachable from a reference hold a tree value,
  and when the parent links hold a cursor's context. `__init__` and the two
  rotations are written field by field, one write per source line, and
  proved to act on the store as `Trees.RotateLeft` and `Trees.RotateRight`
  act on values.
- `store_ops.dfy` (`StoreOps`) does the same for the other primitives:
  - `_minimum` and `_transplant`, which writes the sentinel's `parent` too;
  - the side test `x == x.parent.left` of `_delete_fixup`;
  - recolouring and the payload overwrite;
  - `_find_node`, and the descent and linking steps of `insert`.
- `store_delete.dfy` (`StoreDelete`) is `delete` on the store up to the call
  of `_delete_fixup`:
  - the key is looked up;
  - the node is replaced by its only child or by its in-order successor;
  - the store is proved to hold the cursor that `Deletion.Delete` hands to
    the fixup, with `x.parent` naming the parent of `x`'s slot even when
    `x` is the sentinel (lines 34 and 160).
- `store_insert.dfy` (`StoreInsert`) is `_insert_fixup` and `insert` on the
  store. Each case writes the source's fields in the source's order. It is
  proved to leave the store holding the cursor that the matching
  `Insertion` case returns, so the value-level invariant and measure carry
  over to the loop on node objects.
- `store_delete_fixup.dfy` (`StoreDeleteFixup`) is `_delete_fixup` and the
  whole of `delete` on the store, built the same way on top of `Deletion`.
  When `x` is the sentinel, its parent is read from the sentinel's own
  `parent` field.

The public operations are proved to keep every red-black property:
- `Insert` matches the reference `Put`, and `Delete` matches the reference
  `Remove`, on the in-order contents;
- `Search` matches the reference `Lookup`.

Each loop has the source's exit condition, and its termination is proved.

## Model

| member | source | states |
|---|---|---|
| `StrOrder.LessTrichotomy` | main.py:82-86 | two keys are equal or one is below the other, so the three-way comparison of the descent covers every case |
| `StrOrder.LessTransitive` | main.py:82-86 | the key order is transitive, which the search-tree order relies on |
| `Trees.Empty` | main.py:20-23 | a new tree (root the sentinel) holds no entries, its traversal lists nothing, and it is a valid red-black tree |
| `Trees.Inorder` | main.py:240-248 | the traversal lists exactly the tree's entries, left to right, one item per real node; the sentinel is never listed |
| `Trees.InorderAscending` | main.py:240-248 | in a valid tree the traversal's keys strictly ascend |
| `Trees.RotateLeft` | main.py:42-55 | left rotation needs a real right child; it keeps the entries in order, the old right child becomes the subtree root with its own colour, and the old root, still with its colour, becomes its left child |
| `Trees.RotateRight` | main.py:57-70 | the mirror image: needs a real left child, keeps the entries in order, the old left child becomes the subtree root and the old root its right child, colours unchanged |
| `Trees.RotateLeftKeepsInorder` | main.py:42-55 | a left rotation leaves the traversal (keys, payloads and colours, in order) exactly as it was |
| `Trees.RotateRightKeepsInorder` | main.py:57-70 | a right rotation leaves the traversal exactly as it was |
| `Trees.RotationsInverse` | main.py:42-70 | a right rotation undoes a left rotation |
| `Cursors.Up` | main.py:111 | moving to `x.parent` keeps the tree and shortens the path to the root by one |
| `Cursors.PlugBalanced` | main.py:101-136 | a tree has uniform black-height exactly when a subtree does and its context accepts that subtree's black-height |
| `Cursors.PlugNoRedRed` | main.py:101-136 | a tree has no RED-RED edge exactly when a subtree has none and its context accepts that subtree's root colour |
| `Cursors.Descend` | main.py:80-85 | each step of the key-directed descent keeps the sought key between the entries before and after the current slot |
| `Cursors.FitsAtSentinel` | main.py:80-91 | a descent that reaches the sentinel proves the key absent from the tree |
| `Insertion.GrandparentExists` | main.py:103-105 | while the parent of `z` is RED, the parent is not the root and the grandparent exists and is BLACK, so `z.parent.parent` is a real node |
| `Insertion.RecolorCase` | main.py:106-111 | case 1 (uncle RED): recolouring parent, uncle and grandparent keeps the fixup invariant, moves `z` two levels up and keeps the contents |
| `Insertion.TurnLeftCase` | main.py:113-116 | case 2 (left side): rotating the parent turns the zig-zag into a straight line without breaking the invariant or changing the uncle |
| `Insertion.TurnRightCase` | main.py:130-132 | case 2, mirrored |
| `Insertion.LineLeftCase` | main.py:117-120 | case 3 (left side): after the recolouring and the rotation of the grandparent the parent of `z` is BLACK, so the loop ends in a valid state |
| `Insertion.LineRightCase` | main.py:133-135 | case 3, mirrored |
| `Insertion.InsertFixup` | main.py:101-136 | from a RED `z` whose only fault is its parent link, the loop ends, and painting the root BLACK leaves a BLACK root, no RED-RED edge and uniform black-height, with the contents unchanged |
| `Insertion.ReplaceSound` | main.py:86-89 | replacing the payload of an existing key is the map update and changes neither the shape, the keys nor the colours |
| `Insertion.LinkSound` | main.py:91-99 | a RED leaf linked where the descent fell off the tree starts the fixup in a valid state and adds exactly one entry in key order |
| `Insertion.Insert` | main.py:73-99 | insert keeps a valid red-black tree; its contents are the map update `Put`; every other key keeps its payload; an existing key leaves the shape and colours as they were; a new key adds one entry |
| `Searching.FindNode` | main.py:228-235 | the node found holds the key and lies in the tree; in an ordered tree `None` is returned exactly when the key is absent |
| `Searching.FoundLookup` | main.py:228-235 | the node the descent stops at holds the payload the map lookup returns |
| `Searching.Search` | main.py:237-238 | search returns the visit (key, payload and colour) of the node holding the key, which is one of the visits the traversal lists, and in an ordered tree it agrees with the map lookup |
| `Deletion.Minimum` | main.py:36-39 | from a real node the leftmost node is reached, it has no left child, and it holds the first (least) entry of the subtree |
| `Deletion.Transplant` | main.py:26-34 | the new subtree fills the old one's slot under the same parent, even when it is the sentinel, and the contents around the slot are kept |
| `Deletion.TransplantBack` | main.py:26-34 | transplanting the old subtree back restores the tree; this round trip holds by the definition of `Transplant`, whose store-level partner is `StoreOps.TransplantRefines` |
| `Deletion.SiblingFacts` | main.py:176-178 | while `x` is a BLACK non-root its sibling is a real node one BLACK taller, and the identity test `x == x.parent.left` on the shared sentinel picks the side `x` really is on |
| `Deletion.RedSiblingLeft` | main.py:179-184 | case 1 (sibling RED): the recolouring and rotation keep the invariant and give `x` a BLACK sibling under a RED parent |
| `Deletion.BlackNephewsLeft` | main.py:185-188 | case 2: painting the sibling RED moves the extra BLACK to the parent, one level up, keeping the invariant |
| `Deletion.NearNephewLeft` | main.py:190-195 | case 3: the recolouring and rotation of the sibling give a BLACK sibling with a RED far child, keeping the invariant |
| `Deletion.FarNephewLeft` | main.py:196-201 | case 4: the recolouring and rotation of the parent absorb the extra BLACK; `x` becomes the root |
| `Deletion.RedSiblingRight` | main.py:204-209 | case 1, mirrored |
| `Deletion.BlackNephewsRight` | main.py:210-212 | case 2, mirrored |
| `Deletion.NearNephewRight` | main.py:214-218 | case 3, mirrored |
| `Deletion.FarNephewRight` | main.py:219-223 | case 4, mirrored |
| `Deletion.FixupExit` | main.py:225 | when the loop stops (at the root or at a RED `x`), painting `x` BLACK gives a valid tree with the same contents |
| `Deletion.LeftRound` | main.py:177-201 | one pass of the loop body with `x` a left child keeps the loop invariant and the contents and strictly lowers the measure (twice the depth of `x`, plus one while `x` is BLACK), so the loop terminates |
| `Deletion.BlackSiblingLeft` | main.py:185-201 | with a BLACK sibling, either `x` moves up to its parent and takes the parent's colour (case 2), or `x` becomes the root (cases 3 and 4); the invariant and contents are kept |
| `Deletion.RightRound` | main.py:202-223 | the mirror image of `LeftRound` for `x` a right child |
| `Deletion.BlackSiblingRight` | main.py:210-223 | the mirror image of `BlackSiblingLeft` |
| `Deletion.DeleteFixup` | main.py:174-225 | from `x` carrying one extra BLACK, the loop ends and the tree is valid again with its contents unchanged |
| `Deletion.SpliceSound` | main.py:146-153 | replacing a node that has an empty side by its other child leaves either a valid tree (the node was RED) or a valid start for the fixup (it was BLACK) |
| `Deletion.SpliceEntries` | main.py:148-153 | that splice removes exactly the node's entry |
| `Deletion.SuccessorSound` | main.py:154-171 | moving the successor into the node's place with the node's colour leaves a valid tree or a valid start for the fixup, depending on the successor's own colour |
| `Deletion.SuccessorEntries` | main.py:154-168 | that splice removes exactly the deleted key's entry |
| `Deletion.Delete` | main.py:139-172 | delete reports whether the key was present; an absent key leaves the tree unchanged; otherwise the tree stays valid, its contents are the map removal `Remove`, and every other key keeps its payload |
| `Links.InitHolds` | main.py:20-23 | the new store, with no node objects and the sentinel as `self.root`, holds the empty tree, and the sentinel is its own `parent` |
| `Links.LeftRotate` | main.py:42-55 | a left rotation neither creates nor drops a node object and leaves the sentinel's `parent` alone |
| `Links.LeftRotateLinks` | main.py:43-47 | after `_left_rotate(x)`, `y` has `x`'s old parent and `x` as its left child; `x` has `y` as its parent and `y`'s old left subtree as its right subtree, whose root points back to `x` |
| `Links.LeftRotateSlot` | main.py:48-53 | `y` fills the slot that held `x`: `self.root` when `x.parent` is the sentinel, otherwise the left slot of `x.parent` if it held `x` and the right slot if not; no other node object changes |
| `Links.LeftRotateRefines` | main.py:42-55 | on a store holding a subtree with a real right child in some context, the rotation leaves the store holding the left-rotated subtree in the same context under the same parent, and the whole tree from `self.root` is the rotated one |
| `Links.RightRotate` | main.py:57-70 | a right rotation neither creates nor drops a node object and leaves the sentinel's `parent` alone |
| `Links.RightRotateLinks` | main.py:58-62 | the mirror image of `LeftRotateLinks` |
| `Links.RightRotateSlot` | main.py:63-68 | the mirror image of `LeftRotateSlot` |
| `Links.RightRotateRefines` | main.py:57-70 | the mirror image of `LeftRotateRefines` |
| `StoreOps.Minimum` | main.py:36-39 | from a real node the left links lead to the leftmost node of its subtree; it has the sentinel as its left child, holds the subtree's first entry, and is the start node exactly when its parent is still the start node's parent |
| `StoreOps.Transplant` | main.py:26-34 | no node object is created or dropped, and afterwards `v.parent` is `u`'s old parent, also when `v` is the sentinel |
| `StoreOps.TransplantLinks` | main.py:26-34 | `v` fills the slot of `u` (`self.root` when `u.parent` is the sentinel), `v.parent` is set, and no other node object changes |
| `StoreOps.TransplantRefines` | main.py:26-34 | on a held node with `v` one of its children, the store afterwards holds `v`'s subtree in the old context, as `Deletion.Transplant` builds it on values, with `v.parent` right even for the sentinel |
| `StoreOps.SideTest` | main.py:176-178 | when `x.parent` names the parent of `x`'s slot, the identity test `x == x.parent.left` is the value-level `Deletion.SideIsLeft` |
| `StoreOps.RecolorRefines` | main.py:108-110 | writing `x.color` on a held node repaints the root of its subtree and changes nothing else in the tree |
| `StoreOps.SetDataRefines` | main.py:88 | writing `x.data` on a held node replaces that node's payload and nothing else in the tree |
| `StoreOps.FindRef` | main.py:228-238 | the node found holds the key and lies in the tree; in an ordered tree the sentinel comes back exactly when the key is absent, and a node found holds the payload the map lookup gives |
| `StoreOps.InsertDescent` | main.py:78-89 | the descent stops at the node holding the key or at the sentinel, with `y` trailing one level behind, every step on the side the key comparison picks, and the key fitting the slot reached |
| `StoreOps.DescendStep` | main.py:80-85 | one step of the descent: the child on the side the comparison picks is held one level down, and the key still fits there |
| `StoreOps.ReplaceExit` | main.py:86-89 | overwriting the payload of the node holding the key gives the map update `Put` in a valid tree |
| `StoreOps.Link` | main.py:91-97 | linking adds exactly the fresh node object and leaves the sentinel's `parent` alone |
| `StoreOps.LinkRefines` | main.py:91-97 | the fresh RED leaf linked where the descent fell off the tree is held in that slot's context under the last node visited |
| `StoreOps.LinkExit` | main.py:91-99 | in a valid tree the linked leaf starts `_insert_fixup` with its loop invariant, and the contents become the map update `Put` |
| `StoreOps.InsertLink` | main.py:73-99 | `insert` up to the fixup: a present key has only its payload overwritten and no node object is added; an absent key links exactly one fresh RED node, which starts the fixup in a valid state; either way the contents are the map update |
| `StoreDelete.Detach` | main.py:159-164 | detaching the successor creates or drops no node object and does not write the deleted node |
| `StoreDelete.PromoteLinks` | main.py:163-165 | the successor takes the deleted node's right child and parent, that child points back to it, and it fills the deleted node's slot; no other node object changes |
| `StoreDelete.InheritLinks` | main.py:166-168 | the successor takes the deleted node's left child and colour, and that child points back to it; no other node object changes |
| `StoreDelete.PromoteRefines` | main.py:163-165 | a detached successor with an empty left side ends up holding the deleted node's right subtree, in the deleted node's context |
| `StoreDelete.InheritRefines` | main.py:166-168 | the successor in the deleted node's place then also holds the deleted node's left subtree and colour |
| `StoreDelete.ChildSuccessorRefines` | main.py:158-168 | when the successor is the deleted node's own right child, `x.parent = y` is written, also on the sentinel, and the store holds `x` in the context `Deletion.SuccessorCtx` describes |
| `StoreDelete.DeepSuccessorRefines` | main.py:158-168 | when the successor lies deeper, it is cut out by `_transplant(y, y.right)` and takes the deleted node's place; the store holds `x` in the context `Deletion.SuccessorCtx` describes, and `x.parent` is `y`'s old parent |
| `StoreDelete.SuccessorRefines` | main.py:156-168 | wherever `_minimum(z.right)` finds the successor, the store ends up holding `x = y.right` in the successor context, and `x.parent` names the parent of that slot |
| `StoreDelete.ChildSpliceRefines` | main.py:148-153 | replacing a node with an empty side by its other child leaves the store holding the cursor the fixup needs; it starts the fixup validly and its contents are the map removal |
| `StoreDelete.SuccessorSpliceRefines` | main.py:154-168 | the successor splice leaves the store holding the cursor the fixup needs, ready for it given the successor's own colour, with the map removal as its contents |
| `StoreDelete.Delete` | main.py:139-171 | `delete` on the store up to the fixup: it finds the key exactly when it is present; an absent key writes nothing; otherwise no node object is created, `x` and `x.parent` (the sentinel's field when `x` is the sentinel) are where the fixup needs them, the fixup starts validly when the removed colour is BLACK, and the contents are the map removal |
| `StoreOps.RecolorLeftChild` | main.py:192 | writing the colour of `x.left` on a held node repaints the root of the left subtree and changes nothing else in the tree |
| `StoreOps.RecolorRightChild` | main.py:199 | writing the colour of `x.right` on a held node repaints the root of the right subtree and changes nothing else in the tree |
| `StoreInsert.StepFacts` | main.py:103-105 | while `z.parent` is RED, `z.parent` and `z.parent.parent` are real node objects; the identity tests `z.parent == z.parent.parent.left` and `z == z.parent.right` pick the sides the cursor is on, and the uncle read on that side has the value-level uncle's colour |
| `StoreInsert.UncleRedRefines` | main.py:106-111 | case 1: the three colour writes leave the store holding the cursor of `Insertion.RecolorCase` at the grandparent, the new `z` |
| `StoreInsert.TurnLeftRefines` | main.py:113-116 | case 2: the parent has a real right child, and `_left_rotate(z.parent)` leaves the store holding the cursor of `Insertion.TurnLeftCase` at the old parent, the new `z` |
| `StoreInsert.TurnRightRefines` | main.py:130-132 | case 2, mirrored, with `_right_rotate` and `Insertion.TurnRightCase` |
| `StoreInsert.LineLeftRefines` | main.py:117-120 | case 3: after the two colour writes the grandparent has a real left child, and `_right_rotate(z.parent.parent)` leaves the store holding the cursor of `Insertion.LineLeftCase` at `z` |
| `StoreInsert.LineRightRefines` | main.py:133-135 | case 3, mirrored, with `_left_rotate` and `Insertion.LineRightCase` |
| `StoreInsert.RootPaintRefines` | main.py:136 | painting `self.root` BLACK leaves the store holding the whole tree with a BLACK root |
| `StoreInsert.LeftLine` | main.py:112-120 | cases 2 and 3 on the left side end the loop: `z.parent` is BLACK afterwards, the invariant and contents are kept, `z` is higher up, and no node object is added or dropped |
| `StoreInsert.RightLine` | main.py:129-135 | cases 2 and 3 on the right side, with the same guarantees |
| `StoreInsert.InsertFixup` | main.py:101-136 | on node objects, from a held `z` with the fixup invariant, the loop ends, and the store holds a tree with a BLACK root, no RED-RED link and uniform black-height, with the same contents and the same node objects |
| `StoreInsert.Insert` | main.py:73-99 | `insert` on node objects keeps a valid red-black tree whose contents are the map update `Put`; a present key adds no node object and leaves the shape and colours as they were, an absent key adds exactly the fresh one, and `self.root` is a real BLACK node afterwards |
| `StoreDeleteFixup.SiblingLeftAt` | main.py:177-178 | when `x` is a BLACK left child, `x.parent` is real with `x` on its left, `w = x.parent.right` is real, and the colours read at `w`, `w.left` and `w.right` are those of the value-level sibling and nephews |
| `StoreDeleteFixup.RedSiblingLeftRefines` | main.py:179-184 | case 1: the two colour writes and `_left_rotate(x.parent)` leave the store holding the cursor of `Deletion.RedSiblingLeft` at `x`, with `x.parent` unchanged |
| `StoreDeleteFixup.BlackNephewsLeftRefines` | main.py:185-188 | case 2: painting `w` RED leaves the store holding the cursor of `Deletion.BlackNephewsLeft` at `x.parent`, the new `x` |
| `StoreDeleteFixup.NearNephewLeftRefines` | main.py:190-195 | case 3: the two colour writes and `_right_rotate(w)` leave the store holding the cursor of `Deletion.NearNephewLeft` at `x` |
| `StoreDeleteFixup.FarNephewLeftRefines` | main.py:196-201 | case 4: the three colour writes and `_left_rotate(x.parent)` leave the store holding the cursor of `Deletion.FarNephewLeft` at `self.root` |
| `StoreDeleteFixup.RedSiblingLeftStep` | main.py:179-184 | case 1 on node objects: the sibling is BLACK afterwards under a RED parent, `x` is one level deeper, and the invariant, contents and node objects are kept |
| `StoreDeleteFixup.BlackNephewsLeftStep` | main.py:185-188 | case 2 on node objects: `x` moves to its parent, one level up, taking the parent's colour, and the invariant and contents are kept |
| `StoreDeleteFixup.NearNephewLeftStep` | main.py:190-195 | case 3 on node objects: the sibling stays BLACK but now has a RED far child, and `x`, its parent and the contents are kept |
| `StoreDeleteFixup.FarNephewLeftStep` | main.py:196-201 | case 4 on node objects: `x` becomes `self.root` and the invariant and contents are kept |
| `StoreDeleteFixup.LeftRound` | main.py:177-201 | one pass of the loop with `x` a left child, on node objects, keeps the loop invariant and contents and strictly lowers the measure |
| `StoreDeleteFixup.BlackSiblingLeft` | main.py:185-201 | with a BLACK sibling, either `x` moves one level up taking its parent's colour, or `x` becomes the root; the invariant and contents are kept |
| `StoreDeleteFixup.SiblingRightAt` | main.py:202-204 | the mirror image of `SiblingLeftAt` for `x` a right child |
| `StoreDeleteFixup.RedSiblingRightRefines` | main.py:205-209 | case 1, mirrored |
| `StoreDeleteFixup.BlackNephewsRightRefines` | main.py:210-212 | case 2, mirrored |
| `StoreDeleteFixup.NearNephewRightRefines` | main.py:214-218 | case 3, mirrored |
| `StoreDeleteFixup.FarNephewRightRefines` | main.py:219-223 | case 4, mirrored |
| `StoreDeleteFixup.RedSiblingRightStep` | main.py:205-209 | case 1 on node objects, mirrored |
| `StoreDeleteFixup.BlackNephewsRightStep` | main.py:210-212 | case 2 on node objects, mirrored |
| `StoreDeleteFixup.NearNephewRightStep` | main.py:214-218 | case 3 on node objects, mirrored |
| `StoreDeleteFixup.FarNephewRightStep` | main.py:219-223 | case 4 on node objects, mirrored |
| `StoreDeleteFixup.RightRound` | main.py:202-223 | the mirror image of `LeftRound` for `x` a right child |
| `StoreDeleteFixup.BlackSiblingRight` | main.py:210-223 | the mirror image of `BlackSiblingLeft` |
| `StoreDeleteFixup.ExitPaintRefines` | main.py:225 | painting `x` BLACK after the loop leaves the store holding the tree with `x`'s subtree root BLACK; when `x` is the sentinel nothing needs writing |
| `StoreDeleteFixup.DeleteFixup` | main.py:174-225 | on node objects, from a held `x` carrying one extra BLACK, the loop ends, and the store holds a tree with a BLACK root, no RED-RED link and uniform black-height, with the same contents and the same node objects |
| `StoreDeleteFixup.Delete` | main.py:139-172 | `delete` on node objects reports exactly whether the key was present; a missing key leaves the store as it was; otherwise the store holds a valid red-black tree whose contents are the map removal `Remove`, and no node object is created |

## Left out

- The tkinter user interface (everything from line 250 on): layout, dialogs, drawing, zooming and example data.
- The `str(key)` coercion at main.py:74, 141 and 229: keys are taken as strings already.
- The payload `dict`: it is an opaque type parameter `D`, never inspected by the tree.
- Hashing nodes by identity (`@dataclass(eq=False)`): only the user interface uses nodes as dict keys. The identity comparisons of the core are modelled by comparing references.
- Mutation in place: the store of node objects is a value, and each field write returns a new store. Aliasing is what the store's references model; nothing else of the heap is.
- Fresh node objects: `insert` takes the reference of its new node as an argument, one not yet in the store, in place of Python's allocation.
- `Searching.Search`: returns the key, payload and colour of the node rather than the node object with its links, since callers only read those fields.
- The final `x.color = "BLACK"` of `_delete_fixup` (line 225) when `x` is the sentinel: it is not written, because the sentinel is BLACK already and stays BLACK.
- Reclaiming node objects: the node spliced out by `delete` stays in the store but is no longer reachable from `self.root`, as in Python until garbage collection.
