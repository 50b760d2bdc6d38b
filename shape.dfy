// The abstract view of a red-black tree: a datatype tree whose nodes and null
// leaves carry the arena ids of the node objects they stand for, the zipper
// contexts used to focus on one subtree, and the red-black invariants.

module RbShape {

  datatype Color = Red | Black
  datatype Dir = Left | Right

  /** The subtree hanging below one node object; a `Leaf` is a null sentinel. */
  datatype Tree =
    | Leaf(id: nat)
    | Node(id: nat, color: Color, value: int, left: Tree, right: Tree)

  /**
   * A one-hole context, innermost frame first. A frame records the node above
   * the hole, the side (`dir`) on which the hole hangs, and the other child.
   */
  datatype Ctx =
    | Top
    | Frame(dir: Dir, id: nat, color: Color, value: int, sib: Tree, up: Ctx)

  function Flip(d: Dir): Dir { if d == Left then Right else Left }

  /** The node `id` with `s` on side `d` and `sib` on the other side. */
  function Join(d: Dir, id: nat, c: Color, v: int, sib: Tree, s: Tree): Tree
  {
    if d == Left then Node(id, c, v, s, sib) else Node(id, c, v, sib, s)
  }

  /** Fills the hole of `c` with `s`. */
  function Plug(c: Ctx, s: Tree): Tree
    decreases c
  {
    match c
    case Top => s
    case Frame(d, id, col, v, sib, up) => Plug(up, Join(d, id, col, v, sib, s))
  }

  function Depth(c: Ctx): nat
  {
    if c.Top? then 0 else 1 + Depth(c.up)
  }

  /** The in-order key sequence (what the source's traversal prints). */
  function Keys(t: Tree): seq<int>
  {
    match t
    case Leaf(_) => []
    case Node(_, _, v, l, r) => Keys(l) + [v] + Keys(r)
  }

  /** Every object id in the subtree, sentinels included. */
  function Ids(t: Tree): set<nat>
  {
    match t
    case Leaf(id) => {id}
    case Node(id, _, _, l, r) => {id} + Ids(l) + Ids(r)
  }

  /** No object occurs twice: the shape really is a tree of distinct objects. */
  predicate Distinct(t: Tree)
  {
    match t
    case Leaf(_) => true
    case Node(id, _, _, l, r) =>
      id !in Ids(l) && id !in Ids(r) && Ids(l) !! Ids(r) && Distinct(l) && Distinct(r)
  }

  function CtxIds(c: Ctx): set<nat>
  {
    match c
    case Top => {}
    case Frame(_, id, _, _, sib, up) => {id} + Ids(sib) + CtxIds(up)
  }

  predicate CtxDistinct(c: Ctx)
  {
    match c
    case Top => true
    case Frame(_, id, _, _, sib, up) =>
      id !in Ids(sib) && id !in CtxIds(up) && Ids(sib) !! CtxIds(up) &&
      Distinct(sib) && CtxDistinct(up)
  }

  /** Keys of the frames whose node lies to the left of the hole, in order. */
  function LeftKeys(c: Ctx): seq<int>
  {
    match c
    case Top => []
    case Frame(d, _, _, v, sib, up) =>
      if d == Left then LeftKeys(up) else LeftKeys(up) + Keys(sib) + [v]
  }

  function RightKeys(c: Ctx): seq<int>
  {
    match c
    case Top => []
    case Frame(d, _, _, v, sib, up) =>
      if d == Left then [v] + Keys(sib) + RightKeys(up) else RightKeys(up)
  }

  predicate Sorted(s: seq<int>)
  {
    forall i, j :: 0 <= i < j < |s| ==> s[i] <= s[j]
  }

  // ---------------------------------------------------------------------
  // Red-black invariants

  predicate IsRed(t: Tree) { t.Node? && t.color == Red }

  /** Black nodes from the root of `t` down to a sentinel, the sentinel included. */
  function BlackHeight(t: Tree): (h: nat)
    ensures h >= 1
  {
    match t
    case Leaf(_) => 1
    case Node(_, c, _, l, _) => BlackHeight(l) + (if c == Black then 1 else 0)
  }

  /** Every path from a node to a sentinel holds the same number of black nodes. */
  predicate Balanced(t: Tree)
  {
    match t
    case Leaf(_) => true
    case Node(_, _, _, l, r) =>
      BlackHeight(l) == BlackHeight(r) && Balanced(l) && Balanced(r)
  }

  /** No red node has a red child. */
  predicate NoRedRed(t: Tree)
  {
    match t
    case Leaf(_) => true
    case Node(_, c, _, l, r) =>
      (c == Red ==> !IsRed(l) && !IsRed(r)) && NoRedRed(l) && NoRedRed(r)
  }

  /** Root black, no red-red edge, equal black height on every path. */
  predicate RedBlack(t: Tree)
  {
    !IsRed(t) && NoRedRed(t) && Balanced(t)
  }

  /** The rest of the tree is balanced around a hole whose subtree has black height `h`. */
  predicate CtxFits(c: Ctx, h: nat)
  {
    match c
    case Top => true
    case Frame(_, _, col, _, sib, up) =>
      Balanced(sib) && BlackHeight(sib) == h &&
      CtxFits(up, h + (if col == Black then 1 else 0))
  }

  /** No red-red edge in the context, given the colour of the hole's root. */
  predicate CtxNoRedRed(c: Ctx, holeRed: bool)
  {
    match c
    case Top => true
    case Frame(_, _, col, _, sib, up) =>
      (col == Red ==> !holeRed && !IsRed(sib)) && NoRedRed(sib) && CtxNoRedRed(up, col == Red)
  }

  /** The tree with its root painted `c` (a sentinel stays as it is). */
  function Paint(t: Tree, c: Color): (r: Tree)
    ensures Keys(r) == Keys(t) && Ids(r) == Ids(t) && r.id == t.id
    ensures Distinct(r) == Distinct(t)
    ensures t.Node? ==> r.Node? && r.color == c && r.left == t.left && r.right == t.right
  {
    if t.Node? then t.(color := c) else t
  }

  // ---------------------------------------------------------------------
  // Rotations on the shape

  /** x(a, y(b, c)) becomes y(x(a, b), c). */
  function RotateLeft(t: Tree): (r: Tree)
    requires t.Node? && t.right.Node?
    ensures Keys(r) == Keys(t) && Ids(r) == Ids(t)
    ensures Distinct(t) ==> Distinct(r)
    ensures r.id == t.right.id && r.left.id == t.id
  {
    var y := t.right;
    assert Distinct(t) ==> Distinct(y) && t.id !in Ids(y) && Ids(t.left) !! Ids(y);
    Node(y.id, y.color, y.value, Node(t.id, t.color, t.value, t.left, y.left), y.right)
  }

  /** x(y(a, b), c) becomes y(a, x(b, c)). */
  function RotateRight(t: Tree): (r: Tree)
    requires t.Node? && t.left.Node?
    ensures Keys(r) == Keys(t) && Ids(r) == Ids(t)
    ensures Distinct(t) ==> Distinct(r)
    ensures r.id == t.left.id && r.right.id == t.id
  {
    var y := t.left;
    assert Distinct(t) ==> Distinct(y) && t.id !in Ids(y) && Ids(t.right) !! Ids(y);
    Node(y.id, y.color, y.value, y.left, Node(t.id, t.color, t.value, y.right, t.right))
  }

  lemma RotationsInverse(t: Tree)
    requires t.Node? && t.right.Node?
    ensures RotateRight(RotateLeft(t)) == t
  {
  }

  /**
   * Left rotation of the left child, then right rotation of the node: the
   * left child's right child `z` rises to the top, with the left child to
   * its left and the node to its right.
   */
  function RotateLeftRight(t: Tree): (r: Tree)
    requires t.Node? && t.left.Node? && t.left.right.Node?
    ensures Keys(r) == Keys(t) && Ids(r) == Ids(t)
    ensures Distinct(t) ==> Distinct(r)
    ensures r.id == t.left.right.id && r.left.Node? && r.left.id == t.left.id && r.right.Node? && r.right.id == t.id
    ensures r.color == t.left.right.color && r.left.color == t.left.color && r.right.color == t.color
  {
    RotateRight(Node(t.id, t.color, t.value, RotateLeft(t.left), t.right))
  }

  /** The mirror image of `RotateLeftRight`. */
  function RotateRightLeft(t: Tree): (r: Tree)
    requires t.Node? && t.right.Node? && t.right.left.Node?
    ensures Keys(r) == Keys(t) && Ids(r) == Ids(t)
    ensures Distinct(t) ==> Distinct(r)
    ensures r.id == t.right.left.id && r.right.Node? && r.right.id == t.right.id && r.left.Node? && r.left.id == t.id
    ensures r.color == t.right.left.color && r.right.color == t.right.color && r.left.color == t.color
  {
    RotateLeft(Node(t.id, t.color, t.value, t.left, RotateRight(t.right)))
  }

  // ---------------------------------------------------------------------
  // Plugging a subtree into a context

  lemma {:induction false} PlugKeys(c: Ctx, s: Tree)
    ensures Keys(Plug(c, s)) == LeftKeys(c) + Keys(s) + RightKeys(c)
    decreases c
  {
    match c
    case Top =>
    case Frame(d, id, col, v, sib, up) =>
      PlugKeys(up, Join(d, id, col, v, sib, s));
  }

  lemma {:induction false} PlugIds(c: Ctx, s: Tree)
    ensures Ids(Plug(c, s)) == CtxIds(c) + Ids(s)
    decreases c
  {
    match c
    case Top =>
    case Frame(d, id, col, v, sib, up) =>
      PlugIds(up, Join(d, id, col, v, sib, s));
  }

  lemma {:induction false} PlugDistinct(c: Ctx, s: Tree)
    ensures Distinct(Plug(c, s)) <==> Distinct(s) && CtxDistinct(c) && Ids(s) !! CtxIds(c)
    decreases c
  {
    match c
    case Top =>
    case Frame(d, id, col, v, sib, up) =>
      PlugDistinct(up, Join(d, id, col, v, sib, s));
  }

  lemma {:induction false} PlugBalanced(c: Ctx, s: Tree)
    ensures Balanced(Plug(c, s)) <==> Balanced(s) && CtxFits(c, BlackHeight(s))
    decreases c
  {
    match c
    case Top =>
    case Frame(d, id, col, v, sib, up) =>
      PlugBalanced(up, Join(d, id, col, v, sib, s));
  }

  lemma {:induction false} PlugNoRedRed(c: Ctx, s: Tree)
    ensures NoRedRed(Plug(c, s)) <==> NoRedRed(s) && CtxNoRedRed(c, IsRed(s))
    decreases c
  {
    match c
    case Top =>
    case Frame(d, id, col, v, sib, up) =>
      PlugNoRedRed(up, Join(d, id, col, v, sib, s));
  }

  /** Below a frame, the root of the whole tree does not depend on what fills the hole. */
  lemma {:induction false} PlugRoot(c: Ctx, s: Tree, s': Tree)
    requires c.Frame?
    ensures Plug(c, s).Node? && Plug(c, s').Node?
    ensures Plug(c, s).id == Plug(c, s').id && Plug(c, s).color == Plug(c, s').color
    decreases c
  {
    var Frame(d, id, col, v, sib, up) := c;
    if up.Frame? {
      PlugRoot(up, Join(d, id, col, v, sib, s), Join(d, id, col, v, sib, s'));
    }
  }

  lemma {:induction false} PlugRootId(c: Ctx, s: Tree)
    ensures c.Top? ==> Plug(c, s) == s
    ensures c.Frame? ==> Plug(c, s).Node? && Plug(c, s).id in CtxIds(c)
    decreases c
  {
    match c
    case Top =>
    case Frame(d, id, col, v, sib, up) =>
      PlugRootId(up, Join(d, id, col, v, sib, s));
  }

  /** Replacing the hole's subtree by one with the same keys keeps the in-order sequence. */
  lemma PlugSameKeys(c: Ctx, s: Tree, s': Tree)
    requires Keys(s) == Keys(s')
    ensures Keys(Plug(c, s)) == Keys(Plug(c, s'))
  {
    PlugKeys(c, s);
    PlugKeys(c, s');
  }

  /** Replacing the hole's subtree by one over the same objects keeps the object set. */
  lemma PlugSameIds(c: Ctx, s: Tree, s': Tree)
    requires Ids(s) == Ids(s') && Distinct(s')
    ensures Ids(Plug(c, s)) == Ids(Plug(c, s'))
    ensures Distinct(Plug(c, s)) ==> Distinct(Plug(c, s'))
  {
    PlugIds(c, s);
    PlugIds(c, s');
    PlugDistinct(c, s);
    PlugDistinct(c, s');
  }

  // ---------------------------------------------------------------------
  // Composing contexts

  /** `c1` inside `c2`: the frames of `c1` (innermost first), then those of `c2`. */
  function Append(c1: Ctx, c2: Ctx): Ctx
  {
    match c1
    case Top => c2
    case Frame(d, id, col, v, sib, up) => Frame(d, id, col, v, sib, Append(up, c2))
  }

  /** Black frame nodes of a context. */
  function CtxBlack(c: Ctx): nat
  {
    match c
    case Top => 0
    case Frame(_, _, col, _, _, up) => CtxBlack(up) + (if col == Black then 1 else 0)
  }

  /** Whether the outermost node of `c` is red (`holeRed` when `c` is empty). */
  function CtxRootRed(c: Ctx, holeRed: bool): bool
  {
    match c
    case Top => holeRed
    case Frame(_, _, col, _, _, up) => CtxRootRed(up, col == Red)
  }

  /** A path that only ever goes down to the left. */
  predicate LeftSpine(c: Ctx)
  {
    match c
    case Top => true
    case Frame(d, _, _, _, _, up) => d == Left && LeftSpine(up)
  }

  lemma {:induction false} PlugAppend(c1: Ctx, c2: Ctx, s: Tree)
    ensures Plug(Append(c1, c2), s) == Plug(c2, Plug(c1, s))
    decreases c1
  {
    match c1
    case Top =>
    case Frame(d, id, col, v, sib, up) =>
      PlugAppend(up, c2, Join(d, id, col, v, sib, s));
  }

  lemma {:induction false} CtxFitsAppend(c1: Ctx, c2: Ctx, h: nat)
    requires CtxFits(c1, h) && CtxFits(c2, h + CtxBlack(c1))
    ensures CtxFits(Append(c1, c2), h)
    decreases c1
  {
    match c1
    case Top =>
    case Frame(d, id, col, v, sib, up) =>
      CtxFitsAppend(up, c2, h + (if col == Black then 1 else 0));
  }

  lemma {:induction false} CtxNoRedRedAppend(c1: Ctx, c2: Ctx, holeRed: bool)
    requires CtxNoRedRed(c1, holeRed) && CtxNoRedRed(c2, CtxRootRed(c1, holeRed))
    ensures CtxNoRedRed(Append(c1, c2), holeRed)
    decreases c1
  {
    match c1
    case Top =>
    case Frame(d, id, col, v, sib, up) =>
      CtxNoRedRedAppend(up, c2, col == Red);
  }

  /** Plugging a fitting subtree adds the context's black frames to its black height. */
  lemma {:induction false} PlugBlackHeight(c: Ctx, s: Tree)
    requires CtxFits(c, BlackHeight(s))
    ensures BlackHeight(Plug(c, s)) == BlackHeight(s) + CtxBlack(c)
    decreases c
  {
    match c
    case Top =>
    case Frame(d, id, col, v, sib, up) =>
      PlugBlackHeight(up, Join(d, id, col, v, sib, s));
  }

  /** The outermost colour of a plugged context. */
  lemma {:induction false} PlugRootRed(c: Ctx, s: Tree)
    ensures IsRed(Plug(c, s)) == CtxRootRed(c, IsRed(s))
    decreases c
  {
    match c
    case Top =>
    case Frame(d, id, col, v, sib, up) =>
      PlugRootRed(up, Join(d, id, col, v, sib, s));
  }

  /** A context free of red-red edges around a red hole is free of them around a black one. */
  lemma CtxNoRedRedBlackHole(c: Ctx)
    requires CtxNoRedRed(c, true)
    ensures CtxNoRedRed(c, false)
  {
  }

  lemma {:induction false} AppendIds(c1: Ctx, c2: Ctx)
    ensures CtxIds(Append(c1, c2)) == CtxIds(c1) + CtxIds(c2)
    decreases c1
  {
    match c1
    case Top =>
    case Frame(d, id, col, v, sib, up) =>
      AppendIds(up, c2);
  }

  lemma {:induction false} AppendDepth(c1: Ctx, c2: Ctx)
    ensures Depth(Append(c1, c2)) == Depth(c1) + Depth(c2)
    decreases c1
  {
    match c1
    case Top =>
    case Frame(d, id, col, v, sib, up) =>
      AppendDepth(up, c2);
  }
}
