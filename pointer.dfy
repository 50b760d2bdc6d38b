// Pointer surgery on the arena: rbt.py `_left_rotate_`, `_right_rotate_` and
// `_transplant_` as functions from the old arena to the new one (these are the
// specifications of the Rbtree methods of the same names), and what each does
// to the shape of a matched tree.

module RbPointer {
  import opened RbShape
  import opened RbArena

  /** The arena together with the tree's `root` field. */
  datatype Heap = Heap(nodes: seq<NodePre>, root: nat)

  /** Sets the child link of `p` that points at `old` to `new` (else the right one). */
  function Relink(ns: seq<NodePre>, p: nat, oldChild: nat, newChild: nat): (r: seq<NodePre>)
    requires ArenaOk(ns) && p < |ns| && newChild < |ns|
    ensures ArenaOk(r) && |r| == |ns|
  {
    if ns[p].left == Ref(oldChild) then SetLeft(ns, p, Ref(newChild))
    else SetRight(ns, p, Ref(newChild))
  }

  /**
   * rbt.py `_left_rotate_(x)`: y = x.right takes x's place under x's parent
   * (or as root), x becomes y's left child and y's left subtree becomes x's
   * right subtree. Written as the source's sequence of field writes.
   */
  function LeftRotated(h: Heap, x: nat): (r: Heap)
    requires ArenaOk(h.nodes) && x < |h.nodes| && h.nodes[x].right.Ref?
    ensures ArenaOk(r.nodes) && |r.nodes| == |h.nodes|
    ensures h.nodes[x].right != Ref(x) && h.nodes[h.nodes[x].right.id].left != Ref(x) ==>
              r.root == if h.nodes[x].parent.Nil? then h.nodes[x].right.id else h.root
    ensures forall i | 0 <= i < |h.nodes| && i != x && i != h.nodes[x].right.id &&
                       Ref(i) != h.nodes[h.nodes[x].right.id].left && Ref(i) != h.nodes[x].parent ::
              r.nodes[i] == h.nodes[i]
  {
    var ns := h.nodes;
    var y := ns[x].right.id;
    var ns1 := SetRight(ns, x, ns[y].left);
    var ns2 := if ns1[y].left.Ref? then SetParent(ns1, ns1[y].left.id, Ref(x)) else ns1;
    var ns3 := SetParent(ns2, y, ns2[x].parent);
    var ns4 := if ns3[x].parent.Nil? then ns3 else Relink(ns3, ns3[x].parent.id, x, y);
    var root := if ns3[x].parent.Nil? then y else h.root;
    var ns5 := SetLeft(ns4, y, Ref(x));
    var ns6 := SetParent(ns5, x, Ref(y));
    Heap(ns6, root)
  }

  /** rbt.py `_right_rotate_(x)`, the mirror image of `LeftRotated`. */
  function RightRotated(h: Heap, x: nat): (r: Heap)
    requires ArenaOk(h.nodes) && x < |h.nodes| && h.nodes[x].left.Ref?
    ensures ArenaOk(r.nodes) && |r.nodes| == |h.nodes|
    ensures h.nodes[x].left != Ref(x) && h.nodes[h.nodes[x].left.id].right != Ref(x) ==>
              r.root == if h.nodes[x].parent.Nil? then h.nodes[x].left.id else h.root
    ensures forall i | 0 <= i < |h.nodes| && i != x && i != h.nodes[x].left.id &&
                       Ref(i) != h.nodes[h.nodes[x].left.id].right && Ref(i) != h.nodes[x].parent ::
              r.nodes[i] == h.nodes[i]
  {
    var ns := h.nodes;
    var y := ns[x].left.id;
    var ns1 := SetLeft(ns, x, ns[y].right);
    var ns2 := if ns1[y].right.Ref? then SetParent(ns1, ns1[y].right.id, Ref(x)) else ns1;
    var ns3 := SetParent(ns2, y, ns2[x].parent);
    var ns4 := if ns3[x].parent.Nil? then ns3 else Relink(ns3, ns3[x].parent.id, x, y);
    var root := if ns3[x].parent.Nil? then y else h.root;
    var ns5 := SetRight(ns4, y, Ref(x));
    var ns6 := SetParent(ns5, x, Ref(y));
    Heap(ns6, root)
  }

  /**
   * rbt.py `_transplant_(u, v)`: v takes u's slot in u's parent, or becomes the
   * root when u has no parent, and v's parent becomes u's parent even when v
   * is a sentinel. Nothing else changes.
   */
  function Transplanted(h: Heap, u: nat, v: nat): (r: Heap)
    requires ArenaOk(h.nodes) && u < |h.nodes| && v < |h.nodes|
    ensures ArenaOk(r.nodes) && |r.nodes| == |h.nodes|
    ensures r.root == if h.nodes[u].parent.Nil? then v else h.root
    ensures r.nodes[v].parent == h.nodes[u].parent
    ensures forall i | 0 <= i < |h.nodes| && i != v && Ref(i) != h.nodes[u].parent ::
              r.nodes[i] == h.nodes[i]
  {
    var ns := h.nodes;
    var p := ns[u].parent;
    var ns1 := if p.Nil? then ns else Relink(ns, p.id, u, v);
    var root := if p.Nil? then v else h.root;
    Heap(SetParent(ns1, v, ns1[u].parent), root)
  }

  /** The records a left rotation writes, when x, y, y's left child and x's parent are distinct. */
  lemma LeftRotatedRecords(h: Heap, x: nat, y: nat, b: nat)
    requires ArenaOk(h.nodes) && x < |h.nodes| && y < |h.nodes| && b < |h.nodes|
    requires h.nodes[x].right == Ref(y) && h.nodes[y].left == Ref(b)
    requires x != y && x != b && y != b
    requires h.nodes[x].parent.Ref? ==> h.nodes[x].parent.id !in {x, y, b}
    ensures var ns, ns' := h.nodes, LeftRotated(h, x).nodes;
      ns'[x] == ns[x].(right := Ref(b), parent := Ref(y)) &&
      ns'[y] == ns[y].(parent := ns[x].parent, left := Ref(x)) &&
      ns'[b] == ns[b].(parent := Ref(x)) &&
      (ns[x].parent.Ref? ==> ns'[ns[x].parent.id] == Relink(ns, ns[x].parent.id, x, y)[ns[x].parent.id]) &&
      LeftRotated(h, x).root == (if ns[x].parent.Nil? then y else h.root)
  {
  }

  lemma RightRotatedRecords(h: Heap, x: nat, y: nat, b: nat)
    requires ArenaOk(h.nodes) && x < |h.nodes| && y < |h.nodes| && b < |h.nodes|
    requires h.nodes[x].left == Ref(y) && h.nodes[y].right == Ref(b)
    requires x != y && x != b && y != b
    requires h.nodes[x].parent.Ref? ==> h.nodes[x].parent.id !in {x, y, b}
    ensures var ns, ns' := h.nodes, RightRotated(h, x).nodes;
      ns'[x] == ns[x].(left := Ref(b), parent := Ref(y)) &&
      ns'[y] == ns[y].(parent := ns[x].parent, right := Ref(x)) &&
      ns'[b] == ns[b].(parent := Ref(x)) &&
      (ns[x].parent.Ref? ==> ns'[ns[x].parent.id] == Relink(ns, ns[x].parent.id, x, y)[ns[x].parent.id]) &&
      RightRotated(h, x).root == (if ns[x].parent.Nil? then y else h.root)
  {
  }

  /** The arena matches the whole shape and `root` names the shape's root. */
  predicate Represents(h: Heap, t: Tree)
  {
    ArenaOk(h.nodes) && Distinct(t) && Matches(h.nodes, t, Nil) && h.root == t.id
  }

  /** The root object is a null sentinel exactly when the tree holds no key. */
  lemma EmptyIsSentinel(h: Heap, t: Tree)
    requires Represents(h, t)
    ensures h.root < |h.nodes| && (h.nodes[h.root].isNull <==> Keys(t) == [])
  {
    if t.Node? {
      assert t.value in Keys(t);
    }
  }

  /**
   * Rotating left at the root of a focused subtree rotates that subtree of the
   * shape and leaves the rest of the shape as it was.
   */
  lemma LeftRotateShape(h: Heap, c: Ctx, s: Tree)
    requires Represents(h, Plug(c, s)) && s.Node? && s.right.Node?
    ensures s.id < |h.nodes| && h.nodes[s.id].right.Ref?
    ensures Represents(LeftRotated(h, s.id), Plug(c, RotateLeft(s)))
    ensures Keys(Plug(c, RotateLeft(s))) == Keys(Plug(c, s))
  {
    PlugSameKeys(c, s, RotateLeft(s));
    var ns := h.nodes;
    MatchesPlug(ns, c, s, Nil);
    PlugDistinct(c, s);
    var t' := RotateLeft(s);
    var r := LeftRotated(h, s.id);
    LeftRotateLocal(h, c, s);
    MatchesPlug(r.nodes, c, t', Nil);
    PlugSameIds(c, s, t');
    PlugRootId(c, s);
    PlugRootId(c, t');
    if c.Frame? {
      PlugRoot(c, s, t');
    }
  }

  lemma LeftRotateLocal(h: Heap, c: Ctx, s: Tree)
    requires ArenaOk(h.nodes) && CtxDistinct(c) && Distinct(s) && Ids(s) !! CtxIds(c)
    requires MatchesCtx(h.nodes, c, s.id, Nil) && Matches(h.nodes, s, CtxParent(c, Nil))
    requires s.Node? && s.right.Node?
    ensures s.id < |h.nodes| && h.nodes[s.id].right.Ref?
    ensures var r := LeftRotated(h, s.id);
      MatchesCtx(r.nodes, c, s.right.id, Nil) && Matches(r.nodes, RotateLeft(s), CtxParent(c, Nil)) &&
      r.root == (if c.Top? then s.right.id else h.root)
  {
    var ns := h.nodes;
    MatchesCtxBound(ns, c, s.id, Nil);
    MatchesBound(ns, s, CtxParent(c, Nil));
    var Node(x, xc, xv, a, yt) := s;
    var Node(y, yc, yv, b, cc) := yt;
    assert x !in Ids(yt) && x !in Ids(a) && Ids(a) !! Ids(yt);
    assert y !in Ids(b) && y !in Ids(cc) && Ids(b) !! Ids(cc);
    assert b.id in Ids(b);
    assert c.Frame? ==> c.id !in Ids(s);
    LeftRotatedRecords(h, x, y, b.id);
    var k := {x, y, b.id} + (if c.Frame? then {c.id} else {});
    var ns' := LeftRotated(h, x).nodes;
    assert forall i | 0 <= i < |ns| && i !in k :: ns'[i] == ns[i];
    RotatedCtx(ns, ns', c, x, y, k);
    LeftRotatedSub(ns, ns', CtxParent(c, Nil), s, k);
  }

  /** The context part of a rotation: only the innermost frame's hole link changes. */
  lemma RotatedCtx(ns: seq<NodePre>, ns': seq<NodePre>, c: Ctx, x: nat, y: nat, k: set<nat>)
    requires MatchesCtx(ns, c, x, Nil) && CtxDistinct(c)
    requires |ns'| == |ns| && forall i | 0 <= i < |ns| && i !in k :: ns'[i] == ns[i]
    requires CtxIds(c) !! k - (if c.Frame? then {c.id} else {})
    requires c.Frame? ==> ns'[c.id] == Repoint(ns[c.id], c.dir, y)
    ensures MatchesCtx(ns', c, y, Nil)
  {
    MatchesCtxBound(ns, c, x, Nil);
    if c.Frame? {
      AgreeOutside(ns, ns', k, CtxIds(c) - {c.id});
      Repointed(ns, ns', c, x, y, Nil);
    }
  }

  /**
   * The subtree part of a left rotation: the three records the rotation
   * rewrites are those of the rotated shape, and every other object of the
   * subtree keeps its record.
   */
  lemma LeftRotatedSub(ns: seq<NodePre>, ns': seq<NodePre>, P: Ptr, s: Tree, k: set<nat>)
    requires Matches(ns, s, P) && Distinct(s) && s.Node? && s.right.Node?
    requires |ns'| == |ns| && forall i | 0 <= i < |ns| && i !in k :: ns'[i] == ns[i]
    requires var x, y, b := s.id, s.right.id, s.right.left.id;
      x < |ns| && y < |ns| && b < |ns| && Ids(s) * k <= {x, y, b} &&
      ns'[x] == ns[x].(right := Ref(b), parent := Ref(y)) &&
      ns'[y] == ns[y].(parent := P, left := Ref(x)) &&
      ns'[b] == ns[b].(parent := Ref(x))
    ensures Matches(ns', RotateLeft(s), P)
  {
    MatchesBound(ns, s, P);
    var Node(x, xc, xv, a, yt) := s;
    var Node(y, yc, yv, b, cc) := yt;
    assert x !in Ids(yt) && x !in Ids(a) && Ids(a) !! Ids(yt);
    assert y !in Ids(b) && y !in Ids(cc) && Ids(b) !! Ids(cc);
    assert b.id in Ids(b);
    assert Ids(s) * k <= {x, y, b.id};
    forall i | i in Ids(a) ensures i !in k {
      assert i in Ids(s) && i != x && i != y && i != b.id;
      assert i in k ==> i in Ids(s) * k;
    }
    forall i | i in Ids(cc) ensures i !in k {
      assert i in Ids(s) && i != x && i != y && i != b.id;
      assert i in k ==> i in Ids(s) * k;
    }
    forall i | i in Ids(b) - {b.id} ensures i !in k {
      assert i in Ids(s) && i != x && i != y;
      assert i in k ==> i in Ids(s) * k;
    }
    AgreeOutside(ns, ns', k, Ids(a));
    MatchesFrame(ns, ns', a, Ref(x));
    AgreeOutside(ns, ns', k, Ids(cc));
    MatchesFrame(ns, ns', cc, Ref(y));
    AgreeOutside(ns, ns', k, Ids(b) - {b.id});
    Reparent(ns, ns', b, Ref(y), Ref(x));
  }

  lemma RightRotatedSub(ns: seq<NodePre>, ns': seq<NodePre>, P: Ptr, s: Tree, k: set<nat>)
    requires Matches(ns, s, P) && Distinct(s) && s.Node? && s.left.Node?
    requires |ns'| == |ns| && forall i | 0 <= i < |ns| && i !in k :: ns'[i] == ns[i]
    requires var x, y, b := s.id, s.left.id, s.left.right.id;
      x < |ns| && y < |ns| && b < |ns| && Ids(s) * k <= {x, y, b} &&
      ns'[x] == ns[x].(left := Ref(b), parent := Ref(y)) &&
      ns'[y] == ns[y].(parent := P, right := Ref(x)) &&
      ns'[b] == ns[b].(parent := Ref(x))
    ensures Matches(ns', RotateRight(s), P)
  {
    MatchesBound(ns, s, P);
    var Node(x, xc, xv, yt, a) := s;
    var Node(y, yc, yv, cc, b) := yt;
    assert x !in Ids(yt) && x !in Ids(a) && Ids(a) !! Ids(yt);
    assert y !in Ids(b) && y !in Ids(cc) && Ids(b) !! Ids(cc);
    assert b.id in Ids(b);
    assert Ids(s) * k <= {x, y, b.id};
    forall i | i in Ids(a) ensures i !in k {
      assert i in Ids(s) && i != x && i != y && i != b.id;
      assert i in k ==> i in Ids(s) * k;
    }
    forall i | i in Ids(cc) ensures i !in k {
      assert i in Ids(s) && i != x && i != y && i != b.id;
      assert i in k ==> i in Ids(s) * k;
    }
    forall i | i in Ids(b) - {b.id} ensures i !in k {
      assert i in Ids(s) && i != x && i != y;
      assert i in k ==> i in Ids(s) * k;
    }
    AgreeOutside(ns, ns', k, Ids(a));
    MatchesFrame(ns, ns', a, Ref(x));
    AgreeOutside(ns, ns', k, Ids(cc));
    MatchesFrame(ns, ns', cc, Ref(y));
    AgreeOutside(ns, ns', k, Ids(b) - {b.id});
    Reparent(ns, ns', b, Ref(y), Ref(x));
  }

  lemma RightRotateShape(h: Heap, c: Ctx, s: Tree)
    requires Represents(h, Plug(c, s)) && s.Node? && s.left.Node?
    ensures s.id < |h.nodes| && h.nodes[s.id].left.Ref?
    ensures Represents(RightRotated(h, s.id), Plug(c, RotateRight(s)))
    ensures Keys(Plug(c, RotateRight(s))) == Keys(Plug(c, s))
  {
    PlugSameKeys(c, s, RotateRight(s));
    var ns := h.nodes;
    MatchesPlug(ns, c, s, Nil);
    PlugDistinct(c, s);
    var t' := RotateRight(s);
    var r := RightRotated(h, s.id);
    RightRotateLocal(h, c, s);
    MatchesPlug(r.nodes, c, t', Nil);
    PlugSameIds(c, s, t');
    PlugRootId(c, s);
    PlugRootId(c, t');
    if c.Frame? {
      PlugRoot(c, s, t');
    }
  }

  lemma RightRotateLocal(h: Heap, c: Ctx, s: Tree)
    requires ArenaOk(h.nodes) && CtxDistinct(c) && Distinct(s) && Ids(s) !! CtxIds(c)
    requires MatchesCtx(h.nodes, c, s.id, Nil) && Matches(h.nodes, s, CtxParent(c, Nil))
    requires s.Node? && s.left.Node?
    ensures s.id < |h.nodes| && h.nodes[s.id].left.Ref?
    ensures var r := RightRotated(h, s.id);
      MatchesCtx(r.nodes, c, s.left.id, Nil) && Matches(r.nodes, RotateRight(s), CtxParent(c, Nil)) &&
      r.root == (if c.Top? then s.left.id else h.root)
  {
    var ns := h.nodes;
    MatchesCtxBound(ns, c, s.id, Nil);
    MatchesBound(ns, s, CtxParent(c, Nil));
    var Node(x, xc, xv, yt, a) := s;
    var Node(y, yc, yv, cc, b) := yt;
    assert x !in Ids(yt) && x !in Ids(a) && Ids(a) !! Ids(yt);
    assert y !in Ids(b) && y !in Ids(cc) && Ids(b) !! Ids(cc);
    assert b.id in Ids(b);
    assert c.Frame? ==> c.id !in Ids(s);
    RightRotatedRecords(h, x, y, b.id);
    var k := {x, y, b.id} + (if c.Frame? then {c.id} else {});
    var ns' := RightRotated(h, x).nodes;
    assert forall i | 0 <= i < |ns| && i !in k :: ns'[i] == ns[i];
    RotatedCtx(ns, ns', c, x, y, k);
    RightRotatedSub(ns, ns', CtxParent(c, Nil), s, k);
  }

  /**
   * Recolouring the root of a focused subtree (a sentinel may only be made
   * black) recolours that node of the shape and nothing else.
   */
  lemma RecolorShape(h: Heap, c: Ctx, s: Tree, col: Color)
    requires Represents(h, Plug(c, s)) && (s.Node? || col == Black)
    ensures s.id < |h.nodes|
    ensures Represents(Heap(SetColor(h.nodes, s.id, col), h.root), Plug(c, Paint(s, col)))
    ensures Keys(Plug(c, Paint(s, col))) == Keys(Plug(c, s))
  {
    var ns := h.nodes;
    MatchesPlug(ns, c, s, Nil);
    PlugDistinct(c, s);
    MatchesCtxBound(ns, c, s.id, Nil);
    var ns' := SetColor(ns, s.id, col);
    var s' := Paint(s, col);
    assert s.id in Ids(s);
    AgreeOutside(ns, ns', {s.id}, CtxIds(c));
    MatchesCtxFrame(ns, ns', c, s.id, Nil);
    if s.Node? {
      assert s.id !in Ids(s.left) && s.id !in Ids(s.right);
      MatchesBound(ns, s, CtxParent(c, Nil));
      AgreeOutside(ns, ns', {s.id}, Ids(s.left));
      AgreeOutside(ns, ns', {s.id}, Ids(s.right));
      MatchesFrame(ns, ns', s.left, Ref(s.id));
      MatchesFrame(ns, ns', s.right, Ref(s.id));
    }
    assert Matches(ns', s', CtxParent(c, Nil));
    MatchesPlug(ns', c, s', Nil);
    PlugSameIds(c, s, s');
    PlugSameKeys(c, s, s');
    PlugRootId(c, s);
    PlugRootId(c, s');
    if c.Frame? {
      PlugRoot(c, s, s');
    }
  }

  /** The records a transplant writes, when `v` is neither `u` nor `u`'s parent. */
  lemma TransplantedRecords(h: Heap, u: nat, v: nat)
    requires ArenaOk(h.nodes) && u < |h.nodes| && v < |h.nodes| && u != v
    requires h.nodes[u].parent != Ref(v)
    ensures var ns, ns' := h.nodes, Transplanted(h, u, v).nodes;
      ns'[v] == ns[v].(parent := ns[u].parent) &&
      (ns[u].parent.Ref? ==> ns'[ns[u].parent.id] == Relink(ns, ns[u].parent.id, u, v)[ns[u].parent.id])
  {
  }

  /** A matched context and a matched subtree over disjoint objects make a represented tree. */
  lemma Assemble(h: Heap, c: Ctx, s: Tree)
    requires ArenaOk(h.nodes) && CtxDistinct(c) && Distinct(s) && Ids(s) !! CtxIds(c)
    requires MatchesCtx(h.nodes, c, s.id, Nil) && Matches(h.nodes, s, CtxParent(c, Nil))
    requires h.root == Plug(c, s).id
    ensures Represents(h, Plug(c, s))
  {
    MatchesPlug(h.nodes, c, s, Nil);
    PlugDistinct(c, s);
  }

  /**
   * Transplanting a subtree `V` (matched anywhere, with objects outside the
   * context) into the slot of `u` at the hole of `c` plugs `V` into `c`.
   */
  lemma TransplantShape(h: Heap, c: Ctx, U: Tree, V: Tree, par0: Ptr)
    requires ArenaOk(h.nodes) && CtxDistinct(c) && MatchesCtx(h.nodes, c, U.id, Nil)
    requires U.id < |h.nodes| && h.nodes[U.id].parent == CtxParent(c, Nil)
    requires h.root == Plug(c, U).id
    requires Matches(h.nodes, V, par0) && Distinct(V) && Ids(V) !! CtxIds(c) && U.id !in Ids(V)
    requires U.id !in CtxIds(c)
    ensures V.id < |h.nodes|
    ensures Represents(Transplanted(h, U.id, V.id), Plug(c, V))
  {
    var ns := h.nodes;
    MatchesCtxBound(ns, c, U.id, Nil);
    MatchesBound(ns, V, par0);
    assert V.id in Ids(V);
    var r := Transplanted(h, U.id, V.id);
    var k := {V.id} + (if c.Frame? then {c.id} else {});
    TransplantLocal(h, c, U.id, V, par0, k);
    PlugRootId(c, V);
    PlugRootId(c, U);
    if c.Frame? {
      PlugRoot(c, U, V);
    }
    Assemble(r, c, V);
  }

  lemma TransplantLocal(h: Heap, c: Ctx, u: nat, V: Tree, par0: Ptr, k: set<nat>)
    requires ArenaOk(h.nodes) && CtxDistinct(c) && MatchesCtx(h.nodes, c, u, Nil)
    requires u < |h.nodes| && h.nodes[u].parent == CtxParent(c, Nil)
    requires Matches(h.nodes, V, par0) && Distinct(V) && Ids(V) !! CtxIds(c) && u !in Ids(V)
    requires u !in CtxIds(c)
    requires forall i | i in CtxIds(c) :: i < |h.nodes|
    requires V.id < |h.nodes|
    requires k == {V.id} + (if c.Frame? then {c.id} else {})
    ensures var ns' := Transplanted(h, u, V.id).nodes;
      MatchesCtx(ns', c, V.id, Nil) && Matches(ns', V, CtxParent(c, Nil))
  {
    var ns := h.nodes;
    var ns' := Transplanted(h, u, V.id).nodes;
    assert V.id in Ids(V);
    MatchesBound(ns, V, par0);
    TransplantedRecords(h, u, V.id);
    TransplantCtx(h, c, u, V.id, k);
    forall i | i in Ids(V) - {V.id} ensures i !in k {
      assert i in Ids(V);
    }
    AgreeOutside(ns, ns', k, Ids(V) - {V.id});
    Reparent(ns, ns', V, par0, CtxParent(c, Nil));
  }

  lemma TransplantCtx(h: Heap, c: Ctx, u: nat, v: nat, k: set<nat>)
    requires ArenaOk(h.nodes) && CtxDistinct(c) && MatchesCtx(h.nodes, c, u, Nil)
    requires u < |h.nodes| && v < |h.nodes| && u != v && h.nodes[u].parent == CtxParent(c, Nil)
    requires u !in CtxIds(c) && v !in CtxIds(c)
    requires k == {v} + (if c.Frame? then {c.id} else {})
    ensures var ns' := Transplanted(h, u, v).nodes;
      MatchesCtx(ns', c, v, Nil) && |ns'| == |h.nodes| &&
      forall i | 0 <= i < |h.nodes| && i !in k :: ns'[i] == h.nodes[i]
  {
    var ns := h.nodes;
    var ns' := Transplanted(h, u, v).nodes;
    if c.Frame? {
      assert c.id in CtxIds(c);
      assert u != c.sib.id by {
        assert c.sib.id in Ids(c.sib);
      }
      TransplantedRecords(h, u, v);
      assert ns'[c.id] == Repoint(ns[c.id], c.dir, v);
    }
    RotatedCtx(ns, ns', c, u, v, k);
  }

  /** `_transplant_(u, v)` with `v` a child of `u`: `u` is cut out, `v` takes its place. */
  lemma TransplantChild(h: Heap, c: Ctx, U: Tree, V: Tree)
    requires Represents(h, Plug(c, U)) && U.Node? && (V == U.left || V == U.right)
    ensures U.id < |h.nodes| && V.id < |h.nodes|
    ensures Represents(Transplanted(h, U.id, V.id), Plug(c, V))
  {
    MatchesPlug(h.nodes, c, U, Nil);
    ChildIds(c, U, V);
    TransplantShape(h, c, U, V, Ref(U.id));
  }

  /** The record of a node of a represented tree shows its children, which are sentinels exactly when the shape says so. */
  lemma NodeLinks(h: Heap, c: Ctx, t: Tree)
    requires Represents(h, Plug(c, t)) && t.Node?
    ensures t.id < |h.nodes| && h.nodes[t.id].color == t.color
    ensures h.nodes[t.id].left == Ref(t.left.id) && h.nodes[t.id].right == Ref(t.right.id)
    ensures t.left.id < |h.nodes| && (h.nodes[t.left.id].isNull <==> t.left.Leaf?)
    ensures t.right.id < |h.nodes| && (h.nodes[t.right.id].isNull <==> t.right.Leaf?)
  {
    MatchesPlug(h.nodes, c, t, Nil);
  }

  /** A child subtree of `U` is distinct and apart from `U` and from the context. */
  lemma ChildIds(c: Ctx, U: Tree, V: Tree)
    requires Distinct(Plug(c, U)) && U.Node? && (V == U.left || V == U.right)
    ensures CtxDistinct(c) && Distinct(V) && Ids(V) !! CtxIds(c) && U.id !in Ids(V) && U.id !in CtxIds(c)
  {
    PlugDistinct(c, U);
    assert U.id in Ids(U);
  }

  /**
   * rbt.py:339-342 in the two-children case of `remove`: the detached minimum
   * `m` (whose left child is the sentinel `ml`) adopts `Q`'s right subtree and
   * then takes `Q`'s place.
   */
  lemma Graft(h: Heap, cq: Ctx, Q: Tree, m: nat, ml: nat)
    requires Represents(h, Plug(cq, Q)) && Q.Node?
    requires m < |h.nodes| && m != ml && m !in Ids(Plug(cq, Q)) && ml !in Ids(Plug(cq, Q))
    requires !h.nodes[m].isNull && h.nodes[m].left == Ref(ml) && Matches(h.nodes, Leaf(ml), Ref(m))
    ensures Q.id < |h.nodes| && Q.right.id < |h.nodes|
    ensures var ns1 := SetRight(h.nodes, m, Ref(Q.right.id));
      var ns2 := SetParent(ns1, Q.right.id, Ref(m));
      Represents(Transplanted(Heap(ns2, h.root), Q.id, m),
                 Plug(cq, Node(m, h.nodes[m].color, h.nodes[m].value, Leaf(ml), Q.right)))
  {
    var ns := h.nodes;
    MatchesPlug(ns, cq, Q, Nil);
    GraftIds(cq, Q, m, ml, ns[m].color, ns[m].value);
    MatchesBound(ns, Q, CtxParent(cq, Nil));
    MatchesCtxBound(ns, cq, Q.id, Nil);
    var ns2 := SetParent(SetRight(ns, m, Ref(Q.right.id)), Q.right.id, Ref(m));
    GraftLocal(ns, ns2, cq, Q, m, ml);
    TransplantShape(Heap(ns2, h.root), cq, Q, Node(m, ns[m].color, ns[m].value, Leaf(ml), Q.right), ns[m].parent);
  }

  /** The objects `Graft` relinks, and the subtree it builds, are apart from the rest of the tree. */
  lemma GraftIds(cq: Ctx, Q: Tree, m: nat, ml: nat, col: Color, v: int)
    requires Distinct(Plug(cq, Q)) && Q.Node? && m != ml && m !in Ids(Plug(cq, Q)) && ml !in Ids(Plug(cq, Q))
    ensures CtxDistinct(cq) && Distinct(Q) && Ids(Q) !! CtxIds(cq) && Q.id !in CtxIds(cq)
    ensures m !in Ids(Q) + CtxIds(cq) && ml !in Ids(Q) + CtxIds(cq)
    ensures Q.right.id in Ids(Q) && Q.id in Ids(Q)
    ensures var V := Node(m, col, v, Leaf(ml), Q.right);
      Distinct(V) && Ids(V) !! CtxIds(cq) && Q.id !in Ids(V)
  {
    PlugDistinct(cq, Q);
    PlugIds(cq, Q);
    assert Q.right.id in Ids(Q.right);
  }

  lemma GraftLocal(ns: seq<NodePre>, ns2: seq<NodePre>, cq: Ctx, Q: Tree, m: nat, ml: nat)
    requires ArenaOk(ns) && Q.Node? && CtxDistinct(cq) && Distinct(Q) && Ids(Q) !! CtxIds(cq)
    requires MatchesCtx(ns, cq, Q.id, Nil) && Matches(ns, Q, CtxParent(cq, Nil))
    requires forall i | i in Ids(Q) + CtxIds(cq) :: i < |ns|
    requires m < |ns| && m != ml && m !in Ids(Q) + CtxIds(cq) && ml !in Ids(Q) + CtxIds(cq)
    requires !ns[m].isNull && ns[m].left == Ref(ml) && Matches(ns, Leaf(ml), Ref(m))
    requires ns2 == SetParent(SetRight(ns, m, Ref(Q.right.id)), Q.right.id, Ref(m))
    ensures MatchesCtx(ns2, cq, Q.id, Nil) && ns2[Q.id] == ns[Q.id]
    ensures Matches(ns2, Node(m, ns[m].color, ns[m].value, Leaf(ml), Q.right), ns[m].parent)
  {
    var R := Q.right;
    assert R.id in Ids(R) && Q.id in Ids(Q);
    var k := {m, R.id};
    assert forall i | 0 <= i < |ns| && i !in k :: ns2[i] == ns[i];
    AgreeOutside(ns, ns2, k, CtxIds(cq));
    MatchesCtxFrame(ns, ns2, cq, Q.id, Nil);
    forall i | i in Ids(R) - {R.id} ensures i !in k {
      assert i in Ids(R);
    }
    AgreeOutside(ns, ns2, k, Ids(R) - {R.id});
    Reparent(ns, ns2, R, Ref(Q.id), Ref(m));
  }

  /**
   * rbt.py:343-346: the node that took `Q`'s place adopts `Q`'s left subtree
   * `QL` in place of its own left sentinel, and takes `Q`'s colour.
   */
  lemma Adopt(h: Heap, cq: Ctx, M: Tree, QL: Tree, par0: Ptr, col: Color)
    requires Represents(h, Plug(cq, M)) && M.Node? && M.left.Leaf?
    requires Matches(h.nodes, QL, par0) && Distinct(QL) && Ids(QL) !! Ids(Plug(cq, M))
    ensures M.id < |h.nodes| && QL.id < |h.nodes|
    ensures var ns1 := SetLeft(h.nodes, M.id, Ref(QL.id));
      var ns2 := SetParent(ns1, QL.id, Ref(M.id));
      Represents(Heap(SetColor(ns2, M.id, col), h.root), Plug(cq, Node(M.id, col, M.value, QL, M.right)))
  {
    var ns := h.nodes;
    MatchesPlug(ns, cq, M, Nil);
    AdoptIds(cq, M, QL, col);
    MatchesBound(ns, QL, par0);
    MatchesCtxBound(ns, cq, M.id, Nil);
    MatchesBound(ns, M, CtxParent(cq, Nil));
    var ns3 := SetColor(SetParent(SetLeft(ns, M.id, Ref(QL.id)), QL.id, Ref(M.id)), M.id, col);
    var N := Node(M.id, col, M.value, QL, M.right);
    var k := {M.id, QL.id};
    AdoptWrites(ns, M.id, QL.id, col);
    AgreeOutside(ns, ns3, k, CtxIds(cq));
    MatchesCtxFrame(ns, ns3, cq, M.id, Nil);
    AgreeOutside(ns, ns3, k, Ids(QL) - {QL.id});
    Reparent(ns, ns3, QL, par0, Ref(M.id));
    AgreeOutside(ns, ns3, k, Ids(M.right));
    MatchesFrame(ns, ns3, M.right, Ref(M.id));
    assert Matches(ns3, N, CtxParent(cq, Nil));
    MatchesPlug(ns3, cq, N, Nil);
    PlugRootId(cq, N);
    PlugRootId(cq, M);
    if cq.Frame? {
      PlugRoot(cq, M, N);
    }
  }

  /** The records `Adopt` writes are those of `m` and `l`. */
  lemma AdoptWrites(ns: seq<NodePre>, m: nat, l: nat, col: Color)
    requires ArenaOk(ns) && m < |ns| && l < |ns|
    ensures var ns3 := SetColor(SetParent(SetLeft(ns, m, Ref(l)), l, Ref(m)), m, col);
      |ns3| == |ns| && forall i | 0 <= i < |ns| && i !in {m, l} :: ns3[i] == ns[i]
  {
  }

  /** The objects `Adopt` relinks, and the tree it builds, are distinct and apart from the context. */
  lemma AdoptIds(cq: Ctx, M: Tree, QL: Tree, col: Color)
    requires Distinct(Plug(cq, M)) && M.Node? && M.left.Leaf? && Distinct(QL) && Ids(QL) !! Ids(Plug(cq, M))
    ensures QL.id in Ids(QL) && M.id in Ids(M) && M.id !in CtxIds(cq) && QL.id !in CtxIds(cq)
    ensures CtxIds(cq) !! {M.id, QL.id} && (Ids(QL) - {QL.id}) !! {M.id, QL.id} && Ids(M.right) !! {M.id, QL.id}
    ensures Ids(M.right) <= Ids(Plug(cq, M))
    ensures Distinct(Plug(cq, Node(M.id, col, M.value, QL, M.right)))
  {
    PlugDistinct(cq, M);
    PlugIds(cq, M);
    var N := Node(M.id, col, M.value, QL, M.right);
    PlugDistinct(cq, N);
    assert QL.id in Ids(QL);
  }

  /** The three records `insert` creates (rbt.py:302-304), after those of `ns`. */
  function Grow(ns: seq<NodePre>, q: Ptr, value: int): (r: seq<NodePre>)
    requires ArenaOk(ns) && InArena(q, |ns|)
    ensures ArenaOk(r) && |r| == |ns| + 3 && forall i | 0 <= i < |ns| :: r[i] == ns[i]
  {
    var nn := |ns|;
    ns + [NodePre(q, Nil, Nil, Red, value, false),
          NodePre(Ref(nn), Nil, Nil, Black, 0, true),
          NodePre(Ref(nn), Nil, Nil, Black, 0, true)]
  }

  /**
   * rbt.py:302-311 as arena writes: the new node `nn` and its sentinels are
   * created, `nn` is hung under `q` on the side `value` goes (or `q` is
   * `Nil` and `nn` becomes the root), and `nn`'s children are set.
   */
  function Hung(ns: seq<NodePre>, q: Ptr, value: int): (r: seq<NodePre>)
    requires ArenaOk(ns) && InArena(q, |ns|)
    ensures ArenaOk(r) && |r| == |ns| + 3
  {
    var nn := |ns|;
    var ns1 := Grow(ns, q, value);
    var ns2 := if q.Nil? then ns1
               else if ns1[q.id].value > value then SetLeft(ns1, q.id, Ref(nn))
               else SetRight(ns1, q.id, Ref(nn));
    SetRight(SetLeft(ns2, nn, Ref(nn + 1)), nn, Ref(nn + 2))
  }

  /** The parent of the hole of a represented tree is in the arena, with the frame's value. */
  lemma HoleParent(h: Heap, c: Ctx, l: Tree)
    requires Represents(h, Plug(c, l))
    ensures InArena(CtxParent(c, Nil), |h.nodes|)
    ensures c.Frame? ==> c.id < |h.nodes| && h.nodes[c.id].value == c.value
  {
    MatchesPlug(h.nodes, c, l, Nil);
  }

  /** What `Hung` writes: the three new records, and `q`'s link on the side of the hole of `c`. */
  lemma HungRecords(ns: seq<NodePre>, c: Ctx, q: Ptr, value: int)
    requires ArenaOk(ns) && InArena(q, |ns|) && q == CtxParent(c, Nil)
    requires c.Frame? ==> c.id < |ns| && (c.dir == Left <==> ns[c.id].value > value)
    ensures var r, nn := Hung(ns, q, value), |ns|;
      (forall i | 0 <= i < nn && Ref(i) != q :: r[i] == ns[i]) &&
      r[nn] == NodePre(q, Ref(nn + 1), Ref(nn + 2), Red, value, false) &&
      r[nn + 1] == NodePre(Ref(nn), Nil, Nil, Black, 0, true) &&
      r[nn + 2] == NodePre(Ref(nn), Nil, Nil, Black, 0, true) &&
      (c.Frame? ==> r[c.id] == Repoint(ns[c.id], c.dir, nn))
  {
  }

  /**
   * rbt.py:301-311 in `insert`: three fresh objects (the new red node and its
   * two sentinels) are appended, and the new node is hung in the slot of the
   * sentinel `l` at the hole of `c`. The old sentinel drops out of the tree.
   */
  lemma HangShape(h: Heap, c: Ctx, l: Tree, value: int, ns': seq<NodePre>, root': nat)
    requires Represents(h, Plug(c, l)) && l.Leaf? && ArenaOk(ns')
    requires |ns'| == |h.nodes| + 3
    requires forall i | 0 <= i < |h.nodes| && Ref(i) != CtxParent(c, Nil) :: ns'[i] == h.nodes[i]
    requires var nn := |h.nodes|;
      ns'[nn] == NodePre(CtxParent(c, Nil), Ref(nn + 1), Ref(nn + 2), Red, value, false) &&
      ns'[nn + 1] == NodePre(Ref(nn), Nil, Nil, Black, 0, true) &&
      ns'[nn + 2] == NodePre(Ref(nn), Nil, Nil, Black, 0, true)
    requires c.Frame? ==> c.id < |h.nodes| && ns'[c.id] == Repoint(h.nodes[c.id], c.dir, |h.nodes|)
    requires root' == if c.Top? then |h.nodes| else h.root
    ensures var nn := |h.nodes|;
      Represents(Heap(ns', root'), Plug(c, Node(nn, Red, value, Leaf(nn + 1), Leaf(nn + 2))))
  {
    var ns := h.nodes;
    var nn := |ns|;
    var s := Node(nn, Red, value, Leaf(nn + 1), Leaf(nn + 2));
    MatchesPlug(ns, c, l, Nil);
    PlugDistinct(c, l);
    MatchesCtxBound(ns, c, l.id, Nil);
    HangCtx(ns, ns', c, l.id);
    assert Matches(ns', Leaf(nn + 1), Ref(nn));
    assert Matches(ns', Leaf(nn + 2), Ref(nn));
    assert Matches(ns', s, CtxParent(c, Nil));
    PlugRootId(c, s);
    PlugRootId(c, l);
    if c.Frame? {
      PlugRoot(c, l, s);
    }
    Assemble(Heap(ns', root'), c, s);
  }

  /** Only the hole's parent is repointed, so the context still matches, now around the new node. */
  lemma HangCtx(ns: seq<NodePre>, ns': seq<NodePre>, c: Ctx, l: nat)
    requires MatchesCtx(ns, c, l, Nil) && CtxDistinct(c)
    requires |ns'| == |ns| + 3 && forall i | i in CtxIds(c) :: i < |ns|
    requires forall i | 0 <= i < |ns| && Ref(i) != CtxParent(c, Nil) :: ns'[i] == ns[i]
    requires c.Frame? ==> c.id < |ns| && ns'[c.id] == Repoint(ns[c.id], c.dir, |ns|)
    ensures MatchesCtx(ns', c, |ns|, Nil) && Ids(Node(|ns|, Red, 0, Leaf(|ns| + 1), Leaf(|ns| + 2))) !! CtxIds(c)
  {
    if c.Frame? {
      assert Agree(ns, ns', CtxIds(c) - {c.id});
    }
    Repointed(ns, ns', c, l, |ns|, Nil);
  }

  /**
   * Writes outside `k` leave the record of `Q` and its left subtree as they
   * were: `remove` reads both after it has relinked `Q`'s right side.
   */
  lemma Untouched(ns: seq<NodePre>, ns': seq<NodePre>, cq: Ctx, Q: Tree, k: set<nat>)
    requires ArenaOk(ns) && Distinct(Plug(cq, Q)) && Matches(ns, Plug(cq, Q), Nil) && Q.Node?
    requires |ns'| == |ns| && forall i | 0 <= i < |ns| && i !in k :: ns'[i] == ns[i]
    requires Ids(Q.left) !! k && Q.id !in k
    ensures Q.id < |ns| && ns'[Q.id] == ns[Q.id] && Matches(ns', Q.left, Ref(Q.id))
  {
    MatchesPlug(ns, cq, Q, Nil);
    MatchesBound(ns, Q.left, Ref(Q.id));
    AgreeOutside(ns, ns', k, Ids(Q.left));
    MatchesFrame(ns, ns', Q.left, Ref(Q.id));
  }

  /**
   * The minimum `M` of `Q`'s right subtree (found down the left spine `cm`)
   * is `Q`'s own child exactly when `cm` is empty; rbt.py:334 tells the two
   * cases apart by `M`'s parent link.
   */
  lemma MinimumParent(h: Heap, cq: Ctx, Q: Tree, cm: Ctx, M: Tree)
    requires Represents(h, Plug(cq, Q)) && Q.Node? && Q.right == Plug(cm, M) && M.Node?
    ensures M.id < |h.nodes| && (h.nodes[M.id].parent == Ref(Q.id) <==> cm.Top?)
    ensures Matches(h.nodes, M, CtxParent(cm, Ref(Q.id)))
  {
    MatchesPlug(h.nodes, cq, Q, Nil);
    assert Matches(h.nodes, Q.right, Ref(Q.id));
    MatchesPlug(h.nodes, cm, M, Ref(Q.id));
    if cm.Frame? {
      PlugDistinct(cq, Q);
      PlugIds(cm, M);
      assert cm.id in CtxIds(cm);
      assert Q.id !in Ids(Q.right);
    }
  }

  /** When the minimum is `Q`'s right child, its right child already points back at it (rbt.py:334-336). */
  lemma MinimumIsChild(h: Heap, cq: Ctx, Q: Tree)
    requires Represents(h, Plug(cq, Q)) && Q.Node? && Q.right.Node?
    ensures Q.right.id < |h.nodes| && Q.right.right.id < |h.nodes|
    ensures SetParent(h.nodes, Q.right.right.id, Ref(Q.right.id)) == h.nodes
  {
    MatchesPlug(h.nodes, cq, Q, Nil);
    assert Matches(h.nodes, Q.right.right, Ref(Q.right.id));
  }

  /**
   * rbt.py:337-338 when the minimum `M` lies deeper: `_transplant_(M, M.right)`
   * cuts `M` out of `Q`'s right subtree.
   */
  lemma DetachMinimum(h: Heap, cq: Ctx, Q: Tree, cm: Ctx, M: Tree)
    requires Represents(h, Plug(cq, Q)) && Q.Node? && Q.right == Plug(cm, M) && M.Node?
    ensures M.id < |h.nodes| && M.right.id < |h.nodes|
    ensures Represents(Transplanted(h, M.id, M.right.id),
                       Plug(cq, Node(Q.id, Q.color, Q.value, Q.left, Plug(cm, M.right))))
  {
    var cr := Frame(Right, Q.id, Q.color, Q.value, Q.left, cq);
    var cM := Append(cm, cr);
    PlugAppend(cm, cr, M);
    PlugAppend(cm, cr, M.right);
    assert Plug(cr, Plug(cm, M)) == Plug(cq, Q);
    TransplantChild(h, cM, M, M.right);
  }

  /**
   * What `DetachMinimum` leaves alone: the records of `M`, of its left
   * sentinel and of `Q`.
   */
  lemma MinimumIds(h: Heap, q: nat, R: Tree, cm: Ctx, M: Tree)
    requires ArenaOk(h.nodes) && Matches(h.nodes, R, Ref(q)) && Distinct(R) && q !in Ids(R)
    requires R == Plug(cm, M) && cm.Frame? && M.Node? && M.left.Leaf?
    ensures M.id < |h.nodes| && M.right.id < |h.nodes| && q < |h.nodes|
    ensures M.id != M.right.id && M.left.id != M.right.id && M.id != M.left.id
    ensures M.id != cm.id && M.left.id != cm.id && q != cm.id && q != M.right.id
    ensures h.nodes[M.id].parent == Ref(cm.id)
  {
    var ns := h.nodes;
    MatchesPlug(ns, cm, M, Ref(q));
    MatchesBound(ns, M, Ref(cm.id));
    assert M.id in Ids(M) && M.right.id in Ids(M);
    assert InArena(ns[R.id].parent, |ns|);
    SpineIds(q, R, cm, M);
  }

  /** The objects around the minimum are distinct from one another and from `q`. */
  lemma SpineIds(q: nat, R: Tree, cm: Ctx, M: Tree)
    requires Distinct(R) && q !in Ids(R) && R == Plug(cm, M) && cm.Frame? && M.Node?
    ensures M.id != M.right.id && M.left.id != M.right.id && M.id != M.left.id
    ensures M.id != cm.id && M.left.id != cm.id && q != cm.id && q != M.right.id
  {
    PlugDistinct(cm, M);
    PlugIds(cm, M);
    assert cm.id in CtxIds(cm);
    assert M.id in Ids(M) && M.left.id in Ids(M) && M.right.id in Ids(M);
  }

  lemma DetachMinimumRecords(h: Heap, q: nat, R: Tree, cm: Ctx, M: Tree)
    requires ArenaOk(h.nodes) && Matches(h.nodes, R, Ref(q)) && Distinct(R) && q !in Ids(R)
    requires R == Plug(cm, M) && cm.Frame? && M.Node? && M.left.Leaf?
    ensures M.id < |h.nodes| && M.right.id < |h.nodes| && q < |h.nodes|
    ensures var h1 := Transplanted(h, M.id, M.right.id);
      h1.nodes[M.id] == h.nodes[M.id] && h1.nodes[q] == h.nodes[q] &&
      M.id != M.left.id && Matches(h1.nodes, M.left, Ref(M.id))
  {
    MinimumIds(h, q, R, cm, M);
    MatchesPlug(h.nodes, cm, M, Ref(q));
    KeepRecords(h, M.id, M.right.id, M.left.id, q);
  }

  /** A transplant leaves alone every record but `v`'s and `u`'s parent's. */
  lemma KeepRecords(h: Heap, u: nat, v: nat, i: nat, j: nat)
    requires ArenaOk(h.nodes) && u < |h.nodes| && v < |h.nodes| && i < |h.nodes| && j < |h.nodes|
    requires u != v && i != v && j != v && h.nodes[u].parent.Ref?
    requires h.nodes[u].parent.id != u && h.nodes[u].parent.id != i && h.nodes[u].parent.id != j
    ensures var ns1 := Transplanted(h, u, v).nodes;
      ns1[u] == h.nodes[u] && ns1[i] == h.nodes[i] && ns1[j] == h.nodes[j]
  {
  }

  /** `M` and its left sentinel are no longer in the tree `DetachMinimum` leaves. */
  lemma DetachMinimumIds(cq: Ctx, Q: Tree, cm: Ctx, M: Tree)
    requires Distinct(Plug(cq, Q)) && Q.Node? && Q.right == Plug(cm, M) && M.Node?
    ensures var Q1 := Node(Q.id, Q.color, Q.value, Q.left, Plug(cm, M.right));
      M.id !in Ids(Plug(cq, Q1)) && M.left.id !in Ids(Plug(cq, Q1))
  {
    var Q1 := Node(Q.id, Q.color, Q.value, Q.left, Plug(cm, M.right));
    PlugDistinct(cq, Q);
    PlugIds(cq, Q);
    PlugIds(cq, Q1);
    PlugDistinct(cm, M);
    PlugIds(cm, M);
    PlugIds(cm, M.right);
    assert M.id in Ids(M) && M.left.id in Ids(M);
  }

  /**
   * The objects the two-children case of `remove` relinks are apart from
   * `Q`'s left subtree, which the minimum adopts at the end.
   */
  lemma RemovalIds(cq: Ctx, Q: Tree, cm: Ctx, M: Tree)
    requires Distinct(Plug(cq, Q)) && Q.Node? && Q.right == Plug(cm, M) && M.Node?
    ensures var M' := Node(M.id, M.color, M.value, M.left, Plug(cm, M.right));
      Distinct(Q.left) && Ids(Q.left) !! Ids(Plug(cq, M')) && Q.id !in Ids(Plug(cq, M'))
    ensures M.id != Q.id && M.id !in Ids(Q.left) && Plug(cm, M.right).id !in Ids(Q.left)
    ensures Q.left.id != Q.id && Q.left.id != M.id
    ensures cq.Frame? ==> cq.id !in Ids(Q.left) && cq.id != Q.id
  {
    var M' := Node(M.id, M.color, M.value, M.left, Plug(cm, M.right));
    PlugDistinct(cq, Q);
    PlugIds(cq, M');
    PlugIds(cm, M);
    PlugIds(cm, M.right);
    assert M.id in Ids(M) && Q.left.id in Ids(Q.left);
    assert Plug(cm, M.right).id in Ids(Plug(cm, M.right));
    if cq.Frame? {
      assert cq.id in CtxIds(cq);
    }
  }

  /**
   * `_transplant_(Q, Q.right)`: the right child takes `Q`'s place, and `Q`'s
   * record and left subtree are left as they were.
   */
  lemma RightChildTakesPlace(h: Heap, cq: Ctx, Q: Tree)
    requires Represents(h, Plug(cq, Q)) && Q.Node?
    ensures Q.id < |h.nodes| && Q.right.id < |h.nodes|
    ensures var h3 := Transplanted(h, Q.id, Q.right.id);
      Represents(h3, Plug(cq, Q.right)) && h3.nodes[Q.id] == h.nodes[Q.id] &&
      Matches(h3.nodes, Q.left, Ref(Q.id))
  {
    TransplantChild(h, cq, Q, Q.right);
    MatchesPlug(h.nodes, cq, Q, Nil);
    PlugDistinct(cq, Q);
    assert Q.right.id in Ids(Q.right) && Q.left.id in Ids(Q.left);
    var k := {Q.right.id} + (if cq.Frame? then {cq.id} else {});
    if cq.Frame? {
      assert cq.id in CtxIds(cq);
    }
    Untouched(h.nodes, Transplanted(h, Q.id, Q.right.id).nodes, cq, Q, k);
  }

  /** The records the writes of `Graft` touch: `m`, `r` and the parent of `q`. */
  lemma GraftWrites(h: Heap, q: nat, m: nat, r: nat)
    requires ArenaOk(h.nodes) && q < |h.nodes| && m < |h.nodes| && r < |h.nodes|
    ensures var ns2 := SetParent(SetRight(h.nodes, m, Ref(r)), r, Ref(m));
      var ns3 := Transplanted(Heap(ns2, h.root), q, m).nodes;
      |ns3| == |h.nodes| &&
      forall i | 0 <= i < |h.nodes| && i != m && i != r && Ref(i) != h.nodes[q].parent :: ns3[i] == h.nodes[i]
  {
  }

  /**
   * The writes of `Graft` leave `Q`'s record and left subtree as they were.
   */
  lemma GraftKeeps(h: Heap, cq: Ctx, Q: Tree, m: nat)
    requires Represents(h, Plug(cq, Q)) && Q.Node?
    requires m < |h.nodes| && m !in Ids(Plug(cq, Q))
    ensures Q.id < |h.nodes| && Q.right.id < |h.nodes|
    ensures var ns1 := SetRight(h.nodes, m, Ref(Q.right.id));
      var ns2 := SetParent(ns1, Q.right.id, Ref(m));
      var h3 := Transplanted(Heap(ns2, h.root), Q.id, m);
      h3.nodes[Q.id] == h.nodes[Q.id] && Matches(h3.nodes, Q.left, Ref(Q.id))
  {
    var ns := h.nodes;
    MatchesPlug(ns, cq, Q, Nil);
    MatchesBound(ns, Q, CtxParent(cq, Nil));
    KeepIds(cq, Q, m);
    var QL := Q.left;
    GraftWrites(h, Q.id, m, Q.right.id);
    var ns2 := SetParent(SetRight(ns, m, Ref(Q.right.id)), Q.right.id, Ref(m));
    var ns3 := Transplanted(Heap(ns2, h.root), Q.id, m).nodes;
    assert ns[Q.id].parent == CtxParent(cq, Nil);
    forall i | i in Ids(QL) ensures i < |ns| && i < |ns3| && ns3[i] == ns[i] {
      assert Ref(i) != CtxParent(cq, Nil);
    }
    MatchesFrame(ns, ns3, QL, Ref(Q.id));
  }

  /** `Q`, its left subtree, its right child, its parent and an outside object `m` are apart. */
  lemma KeepIds(cq: Ctx, Q: Tree, m: nat)
    requires Distinct(Plug(cq, Q)) && Q.Node? && m !in Ids(Plug(cq, Q))
    ensures Q.right.id in Ids(Q) && Q.id in Ids(Q) && Ids(Q.left) <= Ids(Q)
    ensures Q.id != m && Q.id != Q.right.id && Ref(Q.id) != CtxParent(cq, Nil)
    ensures forall i | i in Ids(Q.left) :: i != m && i != Q.right.id && i != Q.id && Ref(i) != CtxParent(cq, Nil)
  {
    PlugDistinct(cq, Q);
    PlugIds(cq, Q);
    assert Q.right.id in Ids(Q.right);
    if cq.Frame? {
      assert cq.id in CtxIds(cq);
    }
  }
}
