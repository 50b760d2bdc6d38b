# Red-black tree with parent links and sentinel leaves

A Dafny model of `Rbtree` in `rbt.py`: a red-black tree of integer values
whose node objects (`NodePre`) carry `parent`, `left` and `right` links, a
colour and a value, and whose leaves are black `null` sentinel objects, two
fresh ones per inserted node. `insert` walks down to a sentinel, hangs a red
node there and runs `_insert_fixup_`; `remove` finds a node, splices it out
(directly, or by its successor, the minimum of its right subtree) and runs
`_remove_fixup_` when a black node left the tree.

How the model is built:

- `RbArena`: the node objects as an arena. Each object is one `NodePre`
  record in a `seq<NodePre>`, addressed by index, and a link is `Ptr = Nil |
  Ref(id)`. The accessors `get_grandparent`, `get_sibling`, `get_uncle` and
  `is_red` are functions on the arena. `Matches` ties an arena to a
  datatype tree of object ids.
- `RbShape`: that datatype tree (`Tree`), a zipper context (`Ctx`) for "the
  node the fix-up loop is at", in-order keys, black heights and the
  red-black predicates, and rotations on the tree.
- `RbPointer`: `_left_rotate_`, `_right_rotate_` and `_transplant_` as
  functions from the old arena to the new one, written as the source's
  field writes, and lemmas saying what each does to the tree the arena
  represents.
- `RbKeys`: search order. Equal values go right (rbt.py:87-90), so
  duplicates are kept, and order is stated as "the in-order sequence is
  sorted" plus multiset equations.
- `RbBalance`: the loop invariants of the two fix-ups and one lemma per
  case of each.
- `RbTree`: the class `Rbtree` with fields `nodes` (the arena) and `root`,
  and a ghost `shape`. Its methods perform the source's field writes in
  place. `Valid()` says the arena represents `shape`; `Invariant()` adds
  the red-black properties and search order. `Insert` and `Remove` keep
  `Invariant()` and change the key multiset by exactly one copy of the
  value.
- `RbFinding`: the right-hand inner case of `_insert_fixup_` as written (see
  Findings).

Where the code and its design notes disagree, the model follows the code:

- Duplicate values are inserted (into the right subtree), not rejected.
- Spliced-out nodes are not freed: their records stay in the arena,
  unreachable.

## Model

| member | source | states |
|---|---|---|
| RbArena.Grandparent | rbt.py:20-28 | a node without a parent has no grandparent (`None`); the result is a link into the arena |
| RbArena.Sibling | rbt.py:30-41 | a node without a parent has no sibling; the result is a link into the arena |
| RbArena.Uncle | rbt.py:43-54 | a node without a grandparent has no uncle; the result is a link into the arena |
| RbArena.Family | rbt.py:20-61 | in an arena representing a tree, `get_grandparent`, `get_sibling`, `get_uncle` and `is_red` at the fix-up's node return the grandparent, sibling and uncle that the tree shows, and the colours the tree shows; the parent's child link on the node's side points back to it |
| RbArena.Nephews | rbt.py:257-268 | the children of the sibling, as `_remove_fixup_` reads them, are the sibling's children in the tree, with the tree's colours |
| RbTree.Rbtree.constructor | rbt.py:63-64 | a new tree is one black null sentinel with no parent as root; it satisfies the invariant and holds no key |
| RbTree.Rbtree.FindMinimumNode | rbt.py:66-75 | the node reached is at the end of the left spine of the subtree, its left child is a sentinel, its key is the first of the subtree's in-order keys, and in a search tree the least of them |
| RbShape.Paint | rbt.py:208-210 | a colour write changes the colour of a node and nothing else: same in-order keys, same objects, same children |
| RbKeys.LeftmostIsMinimum | rbt.py:72-75 | the node with a sentinel left child at the end of a left spine holds the least key of a sorted subtree |
| RbTree.Rbtree.GetNodeParent | rbt.py:77-91 | returns the parent of the sentinel the search for the value ends at, `None` exactly when the tree is empty; at every node passed the search went left exactly when the node's key is greater than the value; in a search tree the value fits at that sentinel in order |
| RbKeys.FitsStep | rbt.py:85-90 | going left of a greater key and right otherwise keeps the value between the keys to its left and to its right |
| RbTree.Rbtree.GetNode | rbt.py:93-107 | a returned node holds the value and lies in the tree; in a search tree a node is returned exactly when the value is in the tree; the method changes nothing |
| RbKeys.SearchStep | rbt.py:99-106 | in a search tree a value below (above) a node's key is in the tree exactly when it is in the left (right) subtree |
| RbPointer.LeftRotated | rbt.py:109-134 | the arena after the field writes of `_left_rotate_`: links stay in the arena; y becomes the root when x had no parent; no record other than those of x, y, y's left child and x's parent changes |
| RbPointer.LeftRotatedRecords | rbt.py:121-134 | exactly how those four records change: x's right link is y's old left child and x's parent is y; y's parent is x's old parent and y's left child is x; the moved child's parent is x; x's parent's child link now points to y |
| RbTree.Rbtree.LeftRotate | rbt.py:109-134 | the method's field writes yield exactly `LeftRotated` of the old arena and root |
| RbPointer.LeftRotateShape | rbt.py:109-134 | on an arena representing a tree, `_left_rotate_` at a node gives an arena representing the same tree with that subtree rotated left (links consistent, objects distinct), with the same in-order keys |
| RbShape.RotateLeft | rbt.py:109-134 | left rotation of a tree keeps its in-order keys, its set of objects and their distinctness; y rises with x as its left child |
| RbTree.Rbtree.LeftRotateAt | rbt.py:109-134 | `_left_rotate_` at a node whose right child is a real node keeps a valid arena whose shape has that subtree rotated left, same keys |
| RbPointer.RightRotated | rbt.py:136-160 | the mirror image of `LeftRotated` |
| RbPointer.RightRotatedRecords | rbt.py:147-160 | the mirror image of `LeftRotatedRecords` |
| RbTree.Rbtree.RightRotate | rbt.py:136-160 | the method's field writes yield exactly `RightRotated` of the old arena and root |
| RbPointer.RightRotateShape | rbt.py:136-160 | the mirror image of `LeftRotateShape` |
| RbShape.RotateRight | rbt.py:136-160 | the mirror image of `RotateLeft` |
| RbTree.Rbtree.RightRotateAt | rbt.py:136-160 | the mirror image of `LeftRotateAt` |
| RbShape.RotationsInverse | rbt.py:109-160 | a right rotation undoes a left rotation |
| RbShape.RotateLeftRight | rbt.py:162-172 | the left child's right child rises to the top, with the old left child to its left and the node to its right, colours carried along; keys and objects unchanged |
| RbTree.Rbtree.LeftRightRotate | rbt.py:162-172 | `_left_rotate_` of the left child, then `_right_rotate_` of the node, keeps the arena a valid tree whose shape is `RotateLeftRight` of the subtree, same keys |
| RbShape.RotateRightLeft | rbt.py:174-184 | the mirror image of `RotateLeftRight` |
| RbTree.Rbtree.RightLeftRotate | rbt.py:174-184 | the mirror image of `LeftRightRotate` |
| RbPointer.Transplanted | rbt.py:186-195 | v takes u's slot in u's parent, or becomes the root when u has no parent; v's parent becomes u's parent even when v is a sentinel; no other record changes |
| RbPointer.TransplantedRecords | rbt.py:186-195 | exactly the two records a transplant writes: v's parent becomes u's parent, and u's parent's child link that pointed at u points at v |
| RbTree.Rbtree.Transplant | rbt.py:186-195 | the method's field writes yield exactly `Transplanted` of the old arena and root |
| RbPointer.TransplantShape | rbt.py:186-195 | transplanting a matched subtree into the slot of the node at the hole of a tree's context gives an arena representing the context with that subtree plugged in |
| RbPointer.RecolorShape | rbt.py:208-210 | recolouring the object at the root of a subtree recolours that node of the tree and nothing else; keys unchanged |
| RbTree.Rbtree.RecolorAt | rbt.py:208-210 | one colour write `x.color = c` changes that record's colour and nothing else, keeps a valid arena whose shape has that node repainted, same keys |
| RbBalance.InsertStart | rbt.py:300-312 | a red node with two sentinel children in place of a sentinel of a red-black tree meets the insert fix-up invariant: balanced, the only red-red edge is above the new node |
| RbBalance.InsertUncleRed | rbt.py:207-211 | red uncle (on either side; lines 221-225 are the same): parent and uncle black, grandparent red; the invariant holds with the grandparent as the node |
| RbTree.Rbtree.RecolorFamily | rbt.py:207-211 | the three recolourings keep a valid arena and move the invariant two levels up, keys unchanged |
| RbBalance.InsertOuterLeft | rbt.py:216-218 | black uncle, node a left child of a left child: after recolouring and rotating the grandparent right, the invariant holds with a black parent |
| RbBalance.InsertInnerLeft | rbt.py:213-218 | black uncle, node a right child of a left child: after rotating the parent left, then as `InsertOuterLeft` |
| RbTree.Rbtree.RotateLeftParent | rbt.py:212-218 | the black-uncle case on the left keeps a valid arena and the invariant, ends with a black parent (the loop stops), keys unchanged |
| RbTree.Rbtree.PromoteLeftParent | rbt.py:216-218 | the parent turns black, the grandparent red, and the rotation puts the parent in the grandparent's place |
| RbBalance.InsertOuterRight | rbt.py:230-232 | the mirror image of `InsertOuterLeft` |
| RbBalance.InsertInnerRight | rbt.py:226-232 | the mirror image of `InsertInnerLeft`, with the parent rotated right first (the corrected line 229) |
| RbTree.Rbtree.RotateRightParent | rbt.py:226-232 | the mirror image of `RotateLeftParent`, rotating the parent at line 229 |
| RbTree.Rbtree.PromoteRightParent | rbt.py:230-232 | the mirror image of `PromoteLeftParent` |
| RbTree.Rbtree.InsertStep | rbt.py:204-232 | one pass of the loop keeps a valid arena and the invariant, one or two levels higher, keys unchanged |
| RbBalance.InsertDone | rbt.py:233-235 | once the parent is black or the node is the root, painting the root black gives a red-black tree |
| RbBalance.PaintRootBlack | rbt.py:235 | painting the root of a balanced tree without red-red edges black gives a red-black tree |
| RbTree.Rbtree.InsertFixup | rbt.py:197-235 | the fix-up terminates and leaves a red-black tree with the same in-order keys |
| RbKeys.InsertSorted | rbt.py:300-309 | a new node at the sentinel where its value fits keeps the in-order sequence sorted |
| RbKeys.InsertKeys | rbt.py:300-309 | a new node in place of a sentinel adds exactly its value to the key multiset |
| RbPointer.Hung | rbt.py:300-311 | the arena after the writes of `insert` before its fix-up (rbt.py:301-311, what `LinkNew` performs): all links stay in the arena, and it has exactly three records more; `HungRecords` states each record it writes |
| RbTree.Rbtree.LinkNew | rbt.py:300-311 | the new red node and its two black sentinels are appended, and the node is hung under the parent on the side its value goes, or becomes the root |
| RbPointer.HungRecords | rbt.py:300-311 | the three new records (a red node with the value and parent `q`, two black null sentinels whose parent it is) and `q`'s link on the side the value goes are all that `insert` writes |
| RbTree.Rbtree.Hang | rbt.py:300-311 | the new node with its two sentinels takes the sentinel's place in the tree; the arena stays valid |
| RbPointer.HangShape | rbt.py:300-311 | those writes give an arena representing the tree with the new node and its sentinels in place of the sentinel the search ended at |
| RbTree.Rbtree.Insert | rbt.py:294-312 | a red-black tree in search order stays one, gains exactly one copy of the value, and has a non-null root; the kept invariant rests on the fix-up with line 229 corrected (see Findings) |
| RbBalance.RemoveDone | rbt.py:249-292 | when the loop stops (red node or root), painting the node black gives a red-black tree |
| RbBalance.RemoveSiblingRedLeft | rbt.py:252-256 | red sibling: after recolouring and rotating the parent left, the node is still one black short, now with a red parent and a black sibling |
| RbTree.Rbtree.RedSiblingLeft | rbt.py:252-256 | the recolourings and rotation keep a valid arena and the removal invariant, and the new sibling read at line 256 is black |
| RbBalance.RemoveBothBlack | rbt.py:257-259 | black sibling with black children: the sibling turns red and the shortage moves to the parent |
| RbTree.Rbtree.BothBlack | rbt.py:257-259 | keeps a valid arena; the node moves up to the parent, which is red exactly when the parent was red |
| RbBalance.RemoveNearRedLeft | rbt.py:261-265 | near nephew red, far one black: after recolouring and rotating the sibling right, the new sibling is black with a red far child |
| RbTree.Rbtree.NearRedLeft | rbt.py:261-265 | those writes keep a valid arena and the invariant; the sibling read at line 265 is black with a red far child |
| RbTree.Rbtree.PaintFarLeft | rbt.py:266-268 | the sibling takes the parent's colour, and the parent and far nephew turn black |
| RbBalance.RemoveFarRedLeft | rbt.py:266-270 | far nephew red: after the recolouring and rotating the parent left, the whole tree is a red-black tree |
| RbTree.Rbtree.FarRedLeft | rbt.py:266-270 | those writes leave a valid arena holding a red-black tree with the same keys |
| RbTree.Rbtree.BlackSiblingLeft | rbt.py:257-270 | with a black sibling, either the shortage moves up to the parent or the tree is repaired |
| RbTree.Rbtree.RemoveStepLeft | rbt.py:250-270 | one pass for a left-child node keeps a valid arena and the invariant, same keys, and lowers the loop measure |
| RbBalance.RemoveSiblingRedRight | rbt.py:273-277 | the mirror image of `RemoveSiblingRedLeft` |
| RbTree.Rbtree.RedSiblingRight | rbt.py:272-277 | the mirror image of `RedSiblingLeft` |
| RbBalance.RemoveNearRedRight | rbt.py:282-286 | the mirror image of `RemoveNearRedLeft` |
| RbTree.Rbtree.NearRedRight | rbt.py:282-286 | the mirror image of `NearRedLeft` |
| RbTree.Rbtree.PaintFarRight | rbt.py:287-289 | the mirror image of `PaintFarLeft` |
| RbBalance.RemoveFarRedRight | rbt.py:287-291 | the mirror image of `RemoveFarRedLeft` |
| RbTree.Rbtree.FarRedRight | rbt.py:287-291 | the mirror image of `FarRedLeft` |
| RbTree.Rbtree.BlackSiblingRight | rbt.py:278-291 | the mirror image of `BlackSiblingLeft` |
| RbTree.Rbtree.RemoveStepRight | rbt.py:271-291 | the mirror image of `RemoveStepLeft` |
| RbTree.Rbtree.RemoveFixup | rbt.py:237-292 | the fix-up terminates and leaves a red-black tree with the same in-order keys |
| RbBalance.RemoveOne | rbt.py:324-329 | unlinking a node with a sentinel child keeps the keys sorted with one copy of its key fewer; a black node leaves the other child one black short, a red one leaves a red-black tree |
| RbBalance.RemoveBlackOneChild | rbt.py:324-329 | unlinking a black node with a sentinel child leaves its other child exactly one black short, which is the removal fix-up's invariant |
| RbBalance.RemoveRedOneChild | rbt.py:324-329 | unlinking a red node with a sentinel child leaves a red-black tree |
| RbKeys.RemoveOneKeys | rbt.py:324-329 | the other child taking the node's place keeps the keys sorted with one copy of the node's key fewer |
| RbTree.Rbtree.CutOut | rbt.py:324-329 | `_transplant_` of the node by its other child keeps a valid arena, with the key and fix-up facts of `RemoveOne` |
| RbKeys.RemoveTwoKeys | rbt.py:330-346 | the minimum of the right subtree taking the node's place keeps the keys sorted with one copy of the node's key fewer |
| RbBalance.RemoveTwoChildren | rbt.py:330-346 | the successor taking the node's place and colour leaves its old right child one black short if the successor was black, and a red-black tree if it was red |
| RbTree.Rbtree.DetachMinimumNode | rbt.py:337-341 | a successor deeper than the right child is replaced by its right child and adopts the node's right subtree |
| RbTree.Rbtree.GraftMinimum | rbt.py:339-341 | the detached successor adopts the node's right subtree, so that the transplant at line 342 puts it in the node's place |
| RbTree.Rbtree.UnlinkMinimum | rbt.py:334-341 | both branches leave the successor ready to be transplanted; the node's own record and left subtree are untouched |
| RbTree.Rbtree.AdoptLeft | rbt.py:343-346 | the successor adopts the node's left subtree and takes the node's colour |
| RbTree.Rbtree.ReplaceByMinimum | rbt.py:330-346 | the successor, the minimum of the right subtree, takes the node's place, children and colour; its old right child is where the fix-up starts, and the returned colour is the successor's |
| RbTree.Rbtree.Splice | rbt.py:330-346 | the two-children case keeps a valid arena, sorted keys with one copy fewer, and the fix-up precondition when a black node left |
| RbTree.Rbtree.Unlink | rbt.py:320-346 | the three cases of `remove` keep a valid arena and sorted keys with one copy of the value fewer; with black removed the removal invariant holds at the fix-up's node, otherwise the tree is red-black |
| RbPointer.EmptyIsSentinel | rbt.py:63-64 | the root object is a null sentinel exactly when the tree holds no key |
| RbTree.Rbtree.Remove | rbt.py:314-348 | a present value: one copy is removed and the tree stays a red-black search tree; removing the only node leaves a sentinel root; an absent value is reported and nothing changes |
| RbTree.Rbtree.InsertThenRemove | rbt.py:388-393 | a value `insert` just added is found by `remove`, which restores the key multiset; the tree stays a red-black search tree |
| RbFinding.RightInnerAsWritten | rbt.py:226-232 | the right-hand black-uncle branch as written, which rotates the grandparent right at line 229; where it does not raise, node moves to its parent and the arena stays well linked |
| RbFinding.SentinelUncleRises | rbt.py:226-232 | for every arena in that branch whose uncle is a sentinel, the step as written hangs the red parent below the sentinel and puts the sentinel in the grandparent's slot; when the grandparent was the root, the sentinel becomes the root and the arena represents no tree |
| RbFinding.SentinelBecomesRoot | rbt.py:226-232 | after inserting 1, 3, 2 the branch as written makes the sentinel left child of 1 the root; the resulting arena represents no tree |
| RbFinding.RightInnerCorrected | rbt.py:226-232 | the same branch rotating the parent right instead |
| RbFinding.CorrectedOnExample | rbt.py:226-232 | on the same arena the corrected branch gives the red-black tree 2(1, 3) with keys 1, 2, 3 |

## Left out

- `_print_` and `output` (rbt.py:350-366) print to standard output. `RbShape.Keys` is the sequence they print, without the colours.
- The `__main__` driver (rbt.py:369-400) prints. Only its pattern of removing a value it inserted earlier (8 at lines 388 and 393) is modelled, as `InsertThenRemove`.
- The exception of `remove` for an absent value (rbt.py:321-322) is the result `found == false` of `RbTree.Rbtree.Remove`, with the tree unchanged. The message text is not modelled.
- Values are Dafny `int`, not any comparable Python value.
- Colours are the two-valued `Color`. Any other colour string, and the `KeyError` it would cause in `is_red` (rbt.py:61), cannot occur.
- A sentinel's `value` is `None` in the source and 0 in the model. It is never read.
- Object identity is an index into the arena. Spliced-out and replaced sentinel objects stay in the arena as unreachable records: memory is not reclaimed.
- Python truthiness tests on node objects (`if y.left:` and the like) are tests for a non-`None` link.
- RbTree.Rbtree.LeftRotate: requires x's right link to be a node object. The source raises `AttributeError` on `None`, and no caller passes one. `RightRotate` is the mirror image.
- RbTree.Rbtree.LeftRightRotate: requires the left child and its right child to be real nodes. With a sentinel there, the source rotates a sentinel into an inner position, which leaves no red-black tree to state anything about. `RightLeftRotate` is the mirror image. The source never calls either method.
- RbTree.Rbtree.InsertFixup: models the fix-up with line 229 corrected. The code as written is `RbFinding.RightInnerAsWritten`.
- RbTree.Rbtree.Insert and RbTree.Rbtree.Remove: require a red-black tree in search order. That holds for every tree built by the model's constructor, `Insert` and `Remove`, whose insert fix-up has line 229 corrected. It does not hold for the source as written: after `insert(1)`, `insert(3)`, `insert(2)` the root is a null sentinel and the objects form no tree (`RbFinding.SentinelBecomesRoot`).

## Findings

| source | as written | input that shows it | evidently intended | confidence | as-written member | corrected member |
|---|---|---|---|---|---|---|
| rbt.py:227-229 | when the parent is a right child and the node its left child, `node = node.parent` is followed by `_right_rotate_(g)`, rotating the grandparent | `insert(1)`, `insert(3)`, `insert(2)` on a new tree: the grandparent 1 is rotated right over its sentinel left child, which becomes the root, and the loop stops at a black sentinel parent | `_right_rotate_(node)`, rotating the parent, the mirror image of line 215 | not executed | RbFinding.RightInnerAsWritten, RbFinding.SentinelUncleRises, RbFinding.SentinelBecomesRoot | RbTree.Rbtree.RotateRightParent, RbFinding.RightInnerCorrected, RbFinding.CorrectedOnExample |
