// The node objects of the source as an arena: one `NodePre` record per object,
// addressed by its index. Links are `Ptr`s; Python's `None` is `Nil`.
// `Matches` ties an arena to the datatype shape of RbShape.

module RbArena {
  import opened RbShape

  datatype Ptr = Nil | Ref(id: nat)

  /**
   * One node object (rbt.py `NodePre`): its three links, colour, value and the
   * `null` flag of a sentinel leaf. A sentinel's `value` is never read.
   */
  datatype NodePre = NodePre(parent: Ptr, left: Ptr, right: Ptr, color: Color, value: int, isNull: bool)

  predicate InArena(p: Ptr, n: nat)
  {
    p.Ref? ==> p.id < n
  }

  /** Every link of every record names an object of the arena, or is `Nil`. */
  predicate ArenaOk(ns: seq<NodePre>)
  {
    forall i | 0 <= i < |ns| ::
      InArena(ns[i].parent, |ns|) && InArena(ns[i].left, |ns|) && InArena(ns[i].right, |ns|)
  }

  /** `i.parent = p` */
  function SetParent(ns: seq<NodePre>, i: nat, p: Ptr): (r: seq<NodePre>)
    requires ArenaOk(ns) && i < |ns| && InArena(p, |ns|)
    ensures ArenaOk(r) && |r| == |ns|
  {
    ns[i := ns[i].(parent := p)]
  }

  /** `i.left = p` */
  function SetLeft(ns: seq<NodePre>, i: nat, p: Ptr): (r: seq<NodePre>)
    requires ArenaOk(ns) && i < |ns| && InArena(p, |ns|)
    ensures ArenaOk(r) && |r| == |ns|
  {
    ns[i := ns[i].(left := p)]
  }

  /** `i.right = p` */
  function SetRight(ns: seq<NodePre>, i: nat, p: Ptr): (r: seq<NodePre>)
    requires ArenaOk(ns) && i < |ns| && InArena(p, |ns|)
    ensures ArenaOk(r) && |r| == |ns|
  {
    ns[i := ns[i].(right := p)]
  }

  /** `i.color = c` */
  function SetColor(ns: seq<NodePre>, i: nat, c: Color): (r: seq<NodePre>)
    requires ArenaOk(ns) && i < |ns|
    ensures ArenaOk(r) && |r| == |ns|
  {
    ns[i := ns[i].(color := c)]
  }

  // ---------------------------------------------------------------------
  // The accessors of NodePre

  /** rbt.py `get_grandparent`. */
  function Grandparent(ns: seq<NodePre>, i: nat): (r: Ptr)
    requires ArenaOk(ns) && i < |ns|
    ensures InArena(r, |ns|)
    ensures ns[i].parent.Nil? ==> r.Nil?
  {
    var p := ns[i].parent;
    if p.Nil? then Nil else ns[p.id].parent
  }

  /** rbt.py `get_sibling`: the other child of the parent. */
  function Sibling(ns: seq<NodePre>, i: nat): (r: Ptr)
    requires ArenaOk(ns) && i < |ns|
    ensures InArena(r, |ns|)
    ensures ns[i].parent.Nil? ==> r.Nil?
  {
    var p := ns[i].parent;
    if p.Nil? then Nil
    else if Ref(i) == ns[p.id].left then ns[p.id].right
    else ns[p.id].left
  }

  /** rbt.py `get_uncle`: the sibling of the parent, or `Nil` without a grandparent. */
  function Uncle(ns: seq<NodePre>, i: nat): (r: Ptr)
    requires ArenaOk(ns) && i < |ns|
    ensures InArena(r, |ns|)
    ensures Grandparent(ns, i).Nil? ==> r.Nil?
  {
    var g := Grandparent(ns, i);
    if g.Nil? then Nil else Sibling(ns, ns[i].parent.id)
  }

  /** rbt.py `is_red`. */
  predicate IsRedAt(ns: seq<NodePre>, i: nat)
    requires i < |ns|
  {
    ns[i].color == Red
  }

  // ---------------------------------------------------------------------
  // Arena and shape

  /**
   * The objects of `t` are in the arena with exactly the links, colours and
   * values `t` shows; the root of `t` has parent `par`; sentinels are black,
   * flagged null and have no children.
   */
  predicate Matches(ns: seq<NodePre>, t: Tree, par: Ptr)
  {
    t.id < |ns| && ns[t.id].parent == par &&
    match t
    case Leaf(id) =>
      ns[id].isNull && ns[id].color == Black && ns[id].left == Nil && ns[id].right == Nil
    case Node(id, c, v, l, r) =>
      !ns[id].isNull && ns[id].color == c && ns[id].value == v &&
      ns[id].left == Ref(l.id) && ns[id].right == Ref(r.id) &&
      Matches(ns, l, Ref(id)) && Matches(ns, r, Ref(id))
  }

  /** The parent of the hole of `c`, when the root of the whole tree has parent `par`. */
  function CtxParent(c: Ctx, par: Ptr): Ptr
  {
    if c.Top? then par else Ref(c.id)
  }

  /** The record of a frame's node has its hole-side child set to `h`. */
  function Repoint(n: NodePre, d: Dir, h: nat): NodePre
  {
    if d == Left then n.(left := Ref(h)) else n.(right := Ref(h))
  }

  /**
   * The frames of `c` are in the arena; the hole's object is `hole` and the
   * outermost frame's parent is `par`.
   */
  predicate MatchesCtx(ns: seq<NodePre>, c: Ctx, hole: nat, par: Ptr)
    decreases c
  {
    match c
    case Top => true
    case Frame(d, id, col, v, sib, up) =>
      id < |ns| && ns[id].parent == CtxParent(up, par) &&
      !ns[id].isNull && ns[id].color == col && ns[id].value == v &&
      ns[id].left == Ref(if d == Left then hole else sib.id) &&
      ns[id].right == Ref(if d == Left then sib.id else hole) &&
      Matches(ns, sib, Ref(id)) && MatchesCtx(ns, up, id, par)
  }

  /** `ns'` holds the same record as `ns` for every object of `s`. */
  predicate Agree(ns: seq<NodePre>, ns': seq<NodePre>, s: set<nat>)
  {
    forall i | i in s :: i < |ns| && i < |ns'| && ns'[i] == ns[i]
  }

  /** Records outside `k` are unchanged, so the arenas agree on any set disjoint from `k`. */
  lemma AgreeOutside(ns: seq<NodePre>, ns': seq<NodePre>, k: set<nat>, s: set<nat>)
    requires |ns'| == |ns| && forall i | 0 <= i < |ns| && i !in k :: ns'[i] == ns[i]
    requires s !! k && forall i | i in s :: i < |ns|
    ensures Agree(ns, ns', s)
  {
  }

  lemma {:induction false} MatchesPlug(ns: seq<NodePre>, c: Ctx, s: Tree, par: Ptr)
    ensures Matches(ns, Plug(c, s), par) <==>
            MatchesCtx(ns, c, s.id, par) && Matches(ns, s, CtxParent(c, par))
    decreases c
  {
    match c
    case Top =>
    case Frame(d, id, col, v, sib, up) =>
      MatchesPlug(ns, up, Join(d, id, col, v, sib, s), par);
  }

  lemma {:induction false} MatchesBound(ns: seq<NodePre>, t: Tree, par: Ptr)
    requires Matches(ns, t, par)
    ensures forall i | i in Ids(t) :: i < |ns|
  {
    if t.Node? {
      MatchesBound(ns, t.left, Ref(t.id));
      MatchesBound(ns, t.right, Ref(t.id));
    }
  }

  lemma {:induction false} MatchesCtxBound(ns: seq<NodePre>, c: Ctx, hole: nat, par: Ptr)
    requires MatchesCtx(ns, c, hole, par)
    ensures forall i | i in CtxIds(c) :: i < |ns|
    decreases c
  {
    if c.Frame? {
      MatchesBound(ns, c.sib, Ref(c.id));
      MatchesCtxBound(ns, c.up, c.id, par);
    }
  }

  /** Matching depends only on the records of the subtree's own objects. */
  lemma {:induction false} MatchesFrame(ns: seq<NodePre>, ns': seq<NodePre>, t: Tree, par: Ptr)
    requires Matches(ns, t, par) && Agree(ns, ns', Ids(t))
    ensures Matches(ns', t, par)
  {
    if t.Node? {
      MatchesFrame(ns, ns', t.left, Ref(t.id));
      MatchesFrame(ns, ns', t.right, Ref(t.id));
    }
  }

  lemma {:induction false} MatchesCtxFrame(ns: seq<NodePre>, ns': seq<NodePre>, c: Ctx, hole: nat, par: Ptr)
    requires MatchesCtx(ns, c, hole, par) && Agree(ns, ns', CtxIds(c))
    ensures MatchesCtx(ns', c, hole, par)
    decreases c
  {
    if c.Frame? {
      MatchesFrame(ns, ns', c.sib, Ref(c.id));
      MatchesCtxFrame(ns, ns', c.up, c.id, par);
    }
  }

  /** Giving the root of a subtree a new parent, and nothing else, keeps it matched. */
  lemma Reparent(ns: seq<NodePre>, ns': seq<NodePre>, t: Tree, par: Ptr, par': Ptr)
    requires Matches(ns, t, par) && Distinct(t)
    requires Agree(ns, ns', Ids(t) - {t.id})
    requires t.id < |ns'| && ns'[t.id] == ns[t.id].(parent := par')
    ensures Matches(ns', t, par')
  {
    if t.Node? {
      assert Ids(t.left) <= Ids(t) - {t.id} && Ids(t.right) <= Ids(t) - {t.id};
      MatchesFrame(ns, ns', t.left, Ref(t.id));
      MatchesFrame(ns, ns', t.right, Ref(t.id));
    }
  }

  /** Changing only the hole-side link of the innermost frame keeps a context matched. */
  lemma Repointed(ns: seq<NodePre>, ns': seq<NodePre>, c: Ctx, hole: nat, hole': nat, par: Ptr)
    requires MatchesCtx(ns, c, hole, par) && CtxDistinct(c)
    requires c.Frame? ==> Agree(ns, ns', CtxIds(c) - {c.id})
    requires c.Frame? ==> c.id < |ns'| && ns'[c.id] == Repoint(ns[c.id], c.dir, hole')
    ensures MatchesCtx(ns', c, hole', par)
  {
    if c.Frame? {
      MatchesFrame(ns, ns', c.sib, Ref(c.id));
      MatchesCtxFrame(ns, ns', c.up, c.id, par);
    }
  }

  /**
   * In a matched tree the accessors of NodePre see the zipper: the hole's parent
   * is the innermost frame, its sibling that frame's other child, and so on.
   */
  lemma Family(ns: seq<NodePre>, c: Ctx, s: Tree)
    requires ArenaOk(ns) && Distinct(Plug(c, s)) && Matches(ns, Plug(c, s), Nil)
    ensures s.id < |ns| && Matches(ns, s, CtxParent(c, Nil))
    ensures ns[s.id].parent == CtxParent(c, Nil)
    ensures c.Frame? ==> Sibling(ns, s.id) == Ref(c.sib.id)
    ensures c.Frame? ==> Grandparent(ns, s.id) == CtxParent(c.up, Nil)
    ensures c.Frame? && c.up.Frame? ==> Uncle(ns, s.id) == Ref(c.up.sib.id)
    ensures c.Frame? ==> (ns[c.id].left == Ref(s.id) <==> c.dir == Left)
    ensures c.Frame? ==> (ns[c.id].right == Ref(s.id) <==> c.dir == Right)
    ensures c.Frame? ==> IsRedAt(ns, c.id) == (c.color == Red)
    ensures c.Frame? && c.up.Frame? ==> (ns[c.up.id].left == Ref(c.id) <==> c.up.dir == Left)
    ensures c.Frame? ==> c.sib.id < |ns| && IsRedAt(ns, c.sib.id) == IsRed(c.sib)
    ensures c.Frame? && c.up.Frame? ==> c.up.sib.id < |ns| && IsRedAt(ns, c.up.sib.id) == IsRed(c.up.sib)
    ensures IsRedAt(ns, s.id) == IsRed(s)
  {
    MatchesPlug(ns, c, s, Nil);
    PlugDistinct(c, s);
    if c.Frame? {
      var Frame(d, id, col, v, sib, up) := c;
      assert s.id != sib.id by {
        assert s.id in Ids(s);
        assert sib.id in Ids(sib);
      }
      if up.Frame? {
        var J := Join(d, id, col, v, sib, s);
        MatchesPlug(ns, up, J, Nil);
        PlugDistinct(up, J);
        assert id != up.sib.id by {
          assert id in Ids(J);
          assert up.sib.id in CtxIds(up);
        }
      }
    }
  }

  /** The children of the sibling of the hole, as `_remove_fixup_` reads them. */
  lemma Nephews(ns: seq<NodePre>, c: Ctx, s: Tree)
    requires ArenaOk(ns) && Distinct(Plug(c, s)) && Matches(ns, Plug(c, s), Nil)
    requires c.Frame? && c.sib.Node?
    ensures c.sib.id < |ns| && ns[c.sib.id].left == Ref(c.sib.left.id) && ns[c.sib.id].right == Ref(c.sib.right.id)
    ensures c.sib.left.id < |ns| && IsRedAt(ns, c.sib.left.id) == IsRed(c.sib.left)
    ensures c.sib.right.id < |ns| && IsRedAt(ns, c.sib.right.id) == IsRed(c.sib.right)
  {
    MatchesPlug(ns, c, s, Nil);
    assert Matches(ns, c.sib, Ref(c.id));
    assert Matches(ns, c.sib.left, Ref(c.sib.id));
    assert Matches(ns, c.sib.right, Ref(c.sib.id));
  }
}
