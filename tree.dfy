// rbt.py `Rbtree`: the tree object, whose methods update node objects in
// place. The node objects are the records of `nodes` (see RbArena); `shape` is
// the ghost datatype view of the tree that the arena represents.

module RbTree {
  import opened RbShape
  import opened RbArena
  import opened RbPointer
  import opened RbKeys
  import opened RbBalance

  class Rbtree {
    var nodes: seq<NodePre>
    var root: nat
    ghost var shape: Tree

    /** The arena holds a tree of distinct node objects, rooted at `root`, whose shape is `shape`. */
    ghost predicate Valid()
      reads this
    {
      Represents(Heap(nodes, root), shape)
    }

    /** What the public operations keep: a red-black tree in search order. */
    ghost predicate Invariant()
      reads this
    {
      Valid() && RedBlack(shape) && Sorted(Keys(shape))
    }

    /** rbt.py `__init__`: the root is a single black sentinel. */
    constructor ()
      ensures Invariant() && Keys(shape) == []
      ensures nodes == [NodePre(Nil, Nil, Nil, Black, 0, true)] && root == 0
    {
      nodes := [NodePre(Nil, Nil, Nil, Black, 0, true)];
      root := 0;
      shape := Leaf(0);
    }

    /**
     * rbt.py `_find_minimum_node_`: follows left links from `subLt` until the
     * left child is a sentinel. The node reached holds the first key of the
     * subtree, and its least key when the subtree is in search order.
     */
    method FindMinimumNode(subLt: nat, ghost c: Ctx, ghost sub: Tree)
      returns (lt: nat, ghost cm: Ctx, ghost m: Tree)
      requires Valid() && shape == Plug(c, sub) && sub.id == subLt && sub.Node?
      ensures LeftSpine(cm) && Plug(cm, m) == sub && m.Node? && m.left.Leaf? && m.id == lt
      ensures lt < |nodes| && !nodes[lt].isNull && nodes[lt].left.Ref?
      ensures nodes[lt].left.id < |nodes| && nodes[nodes[lt].left.id].isNull
      ensures nodes[lt].right == Ref(m.right.id) && nodes[lt].color == m.color && nodes[lt].value == m.value
      ensures Keys(sub) == [nodes[lt].value] + Keys(Plug(cm, m.right))
      ensures Sorted(Keys(sub)) ==> forall k | k in Keys(sub) :: nodes[lt].value <= k
    {
      MatchesPlug(nodes, c, sub, Nil);
      ghost var par := CtxParent(c, Nil);
      lt := subLt;
      cm := Top;
      m := sub;
      while !nodes[nodes[lt].left.id].isNull
        invariant LeftSpine(cm) && Plug(cm, m) == sub && m.Node? && m.id == lt
        invariant Matches(nodes, m, par)
        decreases m
      {
        cm := Frame(Left, m.id, m.color, m.value, m.right, cm);
        par := Ref(m.id);
        m := m.left;
        lt := nodes[lt].left.id;
      }
      LeftmostKeys(cm, m);
      if Sorted(Keys(sub)) {
        LeftmostIsMinimum(cm, m);
      }
    }

    /**
     * rbt.py `_get_node_parent_`: walks down as a search for `value` would
     * (left at a greater key, right otherwise) to a sentinel and returns the
     * last node passed, `Nil` for an empty tree. The sentinel reached is where
     * `value` belongs in search order.
     */
    method GetNodeParent(value: int) returns (q: Ptr, ghost c: Ctx, ghost l: Tree)
      requires Valid()
      ensures shape == Plug(c, l) && l.Leaf? && q == CtxParent(c, Nil)
      ensures q.Nil? <==> shape.Leaf?
      ensures SearchPath(c, value)
      ensures Sorted(Keys(shape)) ==> Fits(c, value)
    {
      var rt := root;
      q := Nil;
      c := Top;
      l := shape;
      while !nodes[rt].isNull
        invariant Plug(c, l) == shape && l.id == rt && Matches(nodes, l, q) && q == CtxParent(c, Nil)
        invariant SearchPath(c, value)
        invariant Sorted(Keys(shape)) ==> Fits(c, value) && Sorted(Keys(l))
        decreases l
      {
        q := Ref(rt);
        if Sorted(Keys(shape)) {
          FitsStep(c, l, value);
          SortedNode(l);
        }
        if nodes[rt].value > value {
          c := Frame(Left, l.id, l.color, l.value, l.right, c);
          l := l.left;
          rt := nodes[rt].left.id;
        } else {
          c := Frame(Right, l.id, l.color, l.value, l.left, c);
          l := l.right;
          rt := nodes[rt].right.id;
        }
      }
      if c.Frame? {
        PlugRootId(c, l);
      }
    }

    /**
     * rbt.py `_get_node_`: the search for `value`. A node found holds
     * `value`; in a tree in search order nothing is found only when no node
     * holds `value`.
     */
    method GetNode(value: int) returns (r: Ptr, ghost c: Ctx, ghost t: Tree)
      requires Valid()
      ensures r.Ref? ==> shape == Plug(c, t) && t.Node? && t.id == r.id && t.value == value
      ensures r.Ref? ==> r.id < |nodes| && nodes[r.id].value == value && value in Keys(shape)
      ensures Sorted(Keys(shape)) ==> (r.Ref? <==> value in Keys(shape))
    {
      var rt := root;
      c := Top;
      t := shape;
      while !nodes[rt].isNull
        invariant Plug(c, t) == shape && t.id == rt && Matches(nodes, t, CtxParent(c, Nil))
        invariant Sorted(Keys(shape)) ==> Sorted(Keys(t)) && (value in Keys(shape) <==> value in Keys(t))
        decreases t
      {
        if Sorted(Keys(shape)) {
          SearchStep(t, value);
        }
        if nodes[rt].value > value {
          c := Frame(Left, t.id, t.color, t.value, t.right, c);
          t := t.left;
          rt := nodes[rt].left.id;
        } else if nodes[rt].value < value {
          c := Frame(Right, t.id, t.color, t.value, t.left, c);
          t := t.right;
          rt := nodes[rt].right.id;
        } else {
          PlugKeys(c, t);
          return Ref(rt), c, t;
        }
      }
      return Nil, c, t;
    }

    /** rbt.py `_left_rotate_`, field write by field write; `LeftRotateShape` says what it does to the tree. */
    method LeftRotate(x: nat)
      requires ArenaOk(nodes) && x < |nodes| && nodes[x].right.Ref?
      modifies this`nodes, this`root
      ensures Heap(nodes, root) == LeftRotated(old(Heap(nodes, root)), x)
    {
      var y := nodes[x].right.id;
      nodes := SetRight(nodes, x, nodes[y].left);
      if nodes[y].left.Ref? {
        nodes := SetParent(nodes, nodes[y].left.id, Ref(x));
      }
      nodes := SetParent(nodes, y, nodes[x].parent);
      if nodes[x].parent.Nil? {
        root := y;
      } else if nodes[nodes[x].parent.id].left == Ref(x) {
        nodes := SetLeft(nodes, nodes[x].parent.id, Ref(y));
      } else {
        nodes := SetRight(nodes, nodes[x].parent.id, Ref(y));
      }
      nodes := SetLeft(nodes, y, Ref(x));
      nodes := SetParent(nodes, x, Ref(y));
    }

    /** rbt.py `_right_rotate_`, the mirror image of `LeftRotate`. */
    method RightRotate(x: nat)
      requires ArenaOk(nodes) && x < |nodes| && nodes[x].left.Ref?
      modifies this`nodes, this`root
      ensures Heap(nodes, root) == RightRotated(old(Heap(nodes, root)), x)
    {
      var y := nodes[x].left.id;
      nodes := SetLeft(nodes, x, nodes[y].right);
      if nodes[y].right.Ref? {
        nodes := SetParent(nodes, nodes[y].right.id, Ref(x));
      }
      nodes := SetParent(nodes, y, nodes[x].parent);
      if nodes[x].parent.Nil? {
        root := y;
      } else if nodes[nodes[x].parent.id].left == Ref(x) {
        nodes := SetLeft(nodes, nodes[x].parent.id, Ref(y));
      } else {
        nodes := SetRight(nodes, nodes[x].parent.id, Ref(y));
      }
      nodes := SetRight(nodes, y, Ref(x));
      nodes := SetParent(nodes, x, Ref(y));
    }

    /**
     * `SetColor` at the root `x` of the focused subtree `s` (a sentinel may
     * only be made black): the shape recolours that one node.
     */
    method RecolorAt(x: nat, col: Color, ghost c: Ctx, ghost s: Tree)
      requires Valid() && shape == Plug(c, s) && s.id == x && (s.Node? || col == Black)
      modifies this`nodes, this`shape
      ensures Valid() && shape == Plug(c, Paint(s, col)) && Keys(shape) == old(Keys(shape))
      ensures x < |old(nodes)| && nodes == SetColor(old(nodes), x, col) && root == old(root)
    {
      RecolorShape(Heap(nodes, root), c, s, col);
      nodes := SetColor(nodes, x, col);
      shape := Plug(c, Paint(s, col));
    }

    /** `LeftRotate` at the root `x` of the focused subtree `s`: the shape rotates `s` left. */
    method LeftRotateAt(x: nat, ghost c: Ctx, ghost s: Tree)
      requires Valid() && shape == Plug(c, s) && s.Node? && s.right.Node? && s.id == x
      modifies this`nodes, this`root, this`shape
      ensures Valid() && shape == Plug(c, RotateLeft(s)) && Keys(shape) == old(Keys(shape))
      ensures |nodes| == old(|nodes|)
    {
      LeftRotateShape(Heap(nodes, root), c, s);
      LeftRotate(x);
      shape := Plug(c, RotateLeft(s));
    }

    /** `RightRotate` at the root `x` of the focused subtree `s`: the shape rotates `s` right. */
    method RightRotateAt(x: nat, ghost c: Ctx, ghost s: Tree)
      requires Valid() && shape == Plug(c, s) && s.Node? && s.left.Node? && s.id == x
      modifies this`nodes, this`root, this`shape
      ensures Valid() && shape == Plug(c, RotateRight(s)) && Keys(shape) == old(Keys(shape))
      ensures |nodes| == old(|nodes|)
    {
      RightRotateShape(Heap(nodes, root), c, s);
      RightRotate(x);
      shape := Plug(c, RotateRight(s));
    }

    /**
     * rbt.py `_leftright_rotate_`: `_left_rotate_` of `x`'s left child, then
     * `_right_rotate_` of `x`. The tree keeps its keys and objects; the left
     * child's right child takes `x`'s place.
     */
    method LeftRightRotate(x: nat, ghost c: Ctx, ghost s: Tree)
      requires Valid() && shape == Plug(c, s) && s.Node? && s.id == x && s.left.Node? && s.left.right.Node?
      modifies this`nodes, this`root, this`shape
      ensures Valid() && shape == Plug(c, RotateLeftRight(s))
      ensures Keys(shape) == old(Keys(shape)) && |nodes| == old(|nodes|)
    {
      NodeLinks(Heap(nodes, root), c, s);
      var y := nodes[x].left.id;
      LeftRotateAt(y, Frame(Left, s.id, s.color, s.value, s.right, c), s.left);
      RightRotateAt(x, c, Node(s.id, s.color, s.value, RotateLeft(s.left), s.right));
    }

    /** rbt.py `_rightleft_rotate_`, the mirror image of `LeftRightRotate`. */
    method RightLeftRotate(x: nat, ghost c: Ctx, ghost s: Tree)
      requires Valid() && shape == Plug(c, s) && s.Node? && s.id == x && s.right.Node? && s.right.left.Node?
      modifies this`nodes, this`root, this`shape
      ensures Valid() && shape == Plug(c, RotateRightLeft(s))
      ensures Keys(shape) == old(Keys(shape)) && |nodes| == old(|nodes|)
    {
      NodeLinks(Heap(nodes, root), c, s);
      var y := nodes[x].right.id;
      RightRotateAt(y, Frame(Right, s.id, s.color, s.value, s.left, c), s.right);
      LeftRotateAt(x, c, Node(s.id, s.color, s.value, s.left, RotateRight(s.right)));
    }

    /** rbt.py `_transplant_`; `TransplantShape` says what it does to the tree. */
    method Transplant(u: nat, v: nat)
      requires ArenaOk(nodes) && u < |nodes| && v < |nodes|
      modifies this`nodes, this`root
      ensures Heap(nodes, root) == Transplanted(old(Heap(nodes, root)), u, v)
    {
      if nodes[u].parent.Nil? {
        root := v;
      } else if nodes[nodes[u].parent.id].left == Ref(u) {
        nodes := SetLeft(nodes, nodes[u].parent.id, Ref(v));
      } else {
        nodes := SetRight(nodes, nodes[u].parent.id, Ref(v));
      }
      nodes := SetParent(nodes, v, nodes[u].parent);
    }
  

    // -------------------------------------------------------------------
    // Insertion

    /**
     * Red uncle in `_insert_fixup_` (rbt.py:207-211, 221-225): parent `p` and
     * uncle `u` turn black and grandparent `g` red; `g`'s subtree now holds
     * the defect.
     */
    method RecolorFamily(n: nat, u: nat, g: nat, ghost ctx: Ctx, ghost sub: Tree)
      returns (n': nat, ghost ctx': Ctx, ghost sub': Tree)
      requires Valid() && shape == Plug(ctx, sub) && sub.id == n && InsertInv(ctx, sub)
      requires ctx.Frame? && ctx.color == Red && ctx.up.Frame? && IsRed(ctx.up.sib)
      requires g == ctx.up.id && u == ctx.up.sib.id
      modifies this`nodes, this`shape
      ensures Valid() && shape == Plug(ctx', sub') && sub'.id == n' && InsertInv(ctx', sub')
      ensures Depth(ctx') < Depth(ctx) && n' == g
      ensures root == old(root) && |nodes| == old(|nodes|) && Keys(shape) == old(Keys(shape))
    {
      Family(nodes, ctx, sub);
      InsertUnpack(ctx, sub);
      InsertUncleRed(ctx, sub);
      ghost var c2 := ctx.up;
      ghost var c3 := c2.up;
      ghost var P := Join(ctx.dir, ctx.id, Red, ctx.value, ctx.sib, sub);
      assert shape == Plug(c2, P);
      RecolorAt(nodes[n].parent.id, Black, c2, P);
      ghost var P1 := Paint(P, Black);
      ghost var cu := Frame(Flip(c2.dir), g, c2.color, c2.value, P1, c3);
      assert shape == Plug(cu, c2.sib);
      RecolorAt(u, Black, cu, c2.sib);
      ghost var G := Join(c2.dir, g, c2.color, c2.value, Paint(c2.sib, Black), P1);
      assert shape == Plug(c3, G);
      RecolorAt(g, Red, c3, G);
      n', ctx', sub' := g, c3, Paint(G, Red);
    }
  
    /**
     * The end of the black-uncle case with the parent on the left
     * (rbt.py:216-218): `node`'s parent `Y` is painted black, the
     * grandparent `g` red, and `g` is rotated right, so that `Y` takes `g`'s
     * place with `g` as its right child.
     */
    method PromoteLeftParent(n: nat, g: nat, ghost c2: Ctx, ghost Y: Tree)
      requires Valid() && shape == Plug(c2, Y) && Y.Node? && Y.left.id == n
      requires c2.Frame? && c2.dir == Left && c2.id == g
      modifies this`nodes, this`root, this`shape
      ensures Valid() && Keys(shape) == old(Keys(shape)) && |nodes| == old(|nodes|)
      ensures shape == Plug(c2.up, Node(Y.id, Black, Y.value, Y.left, Node(g, Red, c2.value, Y.right, c2.sib)))
    {
      ghost var c3 := c2.up;
      ghost var cy := Frame(Left, Y.id, Y.color, Y.value, Y.right, c2);
      assert shape == Plug(cy, Y.left);
      Family(nodes, cy, Y.left);
      RecolorAt(nodes[n].parent.id, Black, c2, Y);
      ghost var G := Node(g, c2.color, c2.value, Paint(Y, Black), c2.sib);
      assert shape == Plug(c3, G);
      RecolorAt(g, Red, c3, G);
      RightRotateAt(g, c3, Paint(G, Red));
    }

    /**
     * Black uncle, parent a left child (rbt.py:213-218): a right-child `node`
     * first moves up to its parent, which is rotated left; then
     * `PromoteLeftParent`. The subtree's new root is black, so the loop ends.
     */
    method RotateLeftParent(n: nat, g: nat, ghost ctx: Ctx, ghost sub: Tree)
      returns (n': nat, ghost ctx': Ctx, ghost sub': Tree)
      requires Valid() && shape == Plug(ctx, sub) && sub.id == n && InsertInv(ctx, sub)
      requires ctx.Frame? && ctx.color == Red && ctx.up.Frame? && ctx.up.dir == Left
      requires !IsRed(ctx.up.sib) && g == ctx.up.id
      modifies this`nodes, this`root, this`shape
      ensures Valid() && shape == Plug(ctx', sub') && sub'.id == n' && InsertInv(ctx', sub')
      ensures ctx'.Frame? && ctx'.color == Black && Depth(ctx') < Depth(ctx)
      ensures Keys(shape) == old(Keys(shape)) && |nodes| == old(|nodes|)
    {
      Family(nodes, ctx, sub);
      ghost var c2 := ctx.up;
      ghost var Y: Tree;
      var p := nodes[n].parent.id;
      if Ref(n) == nodes[p].right {
        ghost var P := Node(p, Red, ctx.value, ctx.sib, sub);
        assert shape == Plug(c2, P);
        InsertUnpack(ctx, sub);
        n' := p;
        LeftRotateAt(n', c2, P);
        Y := RotateLeft(P);
        InsertInnerLeft(ctx, sub);
      } else {
        n' := n;
        Y := Node(p, Red, ctx.value, sub, ctx.sib);
        InsertOuterLeft(ctx, sub);
      }
      PromoteLeftParent(n', g, c2, Y);
      ctx' := Frame(Left, Y.id, Black, Y.value, Node(g, Red, c2.value, Y.right, c2.sib), c2.up);
      sub' := Y.left;
    }
  
    /** The mirror image of `PromoteLeftParent` (rbt.py:230-232). */
    method PromoteRightParent(n: nat, g: nat, ghost c2: Ctx, ghost Y: Tree)
      requires Valid() && shape == Plug(c2, Y) && Y.Node? && Y.right.id == n
      requires c2.Frame? && c2.dir == Right && c2.id == g
      modifies this`nodes, this`root, this`shape
      ensures Valid() && Keys(shape) == old(Keys(shape)) && |nodes| == old(|nodes|)
      ensures shape == Plug(c2.up, Node(Y.id, Black, Y.value, Node(g, Red, c2.value, c2.sib, Y.left), Y.right))
    {
      ghost var c3 := c2.up;
      ghost var cy := Frame(Right, Y.id, Y.color, Y.value, Y.left, c2);
      assert shape == Plug(cy, Y.right);
      Family(nodes, cy, Y.right);
      RecolorAt(nodes[n].parent.id, Black, c2, Y);
      ghost var G := Node(g, c2.color, c2.value, c2.sib, Paint(Y, Black));
      assert shape == Plug(c3, G);
      RecolorAt(g, Red, c3, G);
      LeftRotateAt(g, c3, Paint(G, Red));
    }

    /**
     * Black uncle, parent a right child (rbt.py:226-232), corrected: a
     * left-child `node` moves up to its parent, and it is that parent which
     * is rotated right (rbt.py:229 rotates the grandparent instead; see
     * `RbFinding`); then `PromoteRightParent`.
     */
    method RotateRightParent(n: nat, g: nat, ghost ctx: Ctx, ghost sub: Tree)
      returns (n': nat, ghost ctx': Ctx, ghost sub': Tree)
      requires Valid() && shape == Plug(ctx, sub) && sub.id == n && InsertInv(ctx, sub)
      requires ctx.Frame? && ctx.color == Red && ctx.up.Frame? && ctx.up.dir == Right
      requires !IsRed(ctx.up.sib) && g == ctx.up.id
      modifies this`nodes, this`root, this`shape
      ensures Valid() && shape == Plug(ctx', sub') && sub'.id == n' && InsertInv(ctx', sub')
      ensures ctx'.Frame? && ctx'.color == Black && Depth(ctx') < Depth(ctx)
      ensures Keys(shape) == old(Keys(shape)) && |nodes| == old(|nodes|)
    {
      Family(nodes, ctx, sub);
      ghost var c2 := ctx.up;
      ghost var Y: Tree;
      var p := nodes[n].parent.id;
      if Ref(n) == nodes[p].left {
        ghost var P := Node(p, Red, ctx.value, sub, ctx.sib);
        assert shape == Plug(c2, P);
        InsertUnpack(ctx, sub);
        n' := p;
        RightRotateAt(n', c2, P);
        Y := RotateRight(P);
        InsertInnerRight(ctx, sub);
      } else {
        n' := n;
        Y := Node(p, Red, ctx.value, ctx.sib, sub);
        InsertOuterRight(ctx, sub);
      }
      PromoteRightParent(n', g, c2, Y);
      ctx' := Frame(Right, Y.id, Black, Y.value, Node(g, Red, c2.value, c2.sib, Y.left), c2.up);
      sub' := Y.right;
    }

    /**
     * One pass of the `_insert_fixup_` loop (rbt.py:204-232) at a `node`
     * whose parent is red: the case analysis on the side of the parent and
     * the colour of the uncle. The invariant holds again, one or two levels
     * higher.
     */
    method InsertStep(n: nat, ghost ctx: Ctx, ghost sub: Tree)
      returns (n': nat, ghost ctx': Ctx, ghost sub': Tree)
      requires Valid() && shape == Plug(ctx, sub) && sub.id == n && InsertInv(ctx, sub)
      requires ctx.Frame? && ctx.color == Red
      modifies this`nodes, this`root, this`shape
      ensures Valid() && shape == Plug(ctx', sub') && sub'.id == n' && InsertInv(ctx', sub')
      ensures Depth(ctx') < Depth(ctx)
      ensures Keys(shape) == old(Keys(shape)) && |nodes| == old(|nodes|)
    {
      Family(nodes, ctx, sub);
      InsertUnpack(ctx, sub);
      var g := Grandparent(nodes, n).id;
      if nodes[n].parent == nodes[g].left {
        var u := Uncle(nodes, n).id;
        if IsRedAt(nodes, u) {
          n', ctx', sub' := RecolorFamily(n, u, g, ctx, sub);
        } else {
          n', ctx', sub' := RotateLeftParent(n, g, ctx, sub);
        }
      } else {
        var u := Uncle(nodes, n).id;
        if IsRedAt(nodes, u) {
          n', ctx', sub' := RecolorFamily(n, u, g, ctx, sub);
        } else {
          n', ctx', sub' := RotateRightParent(n, g, ctx, sub);
        }
      }
    }

    /**
     * rbt.py `_insert_fixup_` (with the mirrored inner case corrected): walks
     * the red-red defect at `node` up the tree until the parent is black or
     * `node` is the root, then paints the root black. The result is a
     * red-black tree with the same keys in the same order.
     */
    method InsertFixup(node: nat, ghost c: Ctx, ghost s: Tree)
      requires Valid() && shape == Plug(c, s) && s.id == node && InsertInv(c, s)
      modifies this`nodes, this`root, this`shape
      ensures Valid() && RedBlack(shape) && Keys(shape) == old(Keys(shape)) && |nodes| == old(|nodes|)
    {
      var n := node;
      ghost var ctx := c;
      ghost var sub := s;
      Family(nodes, ctx, sub);
      while nodes[n].parent.Ref? && IsRedAt(nodes, nodes[n].parent.id)
        invariant Valid() && shape == Plug(ctx, sub) && sub.id == n && InsertInv(ctx, sub)
        invariant n < |nodes| && nodes[n].parent == CtxParent(ctx, Nil)
        invariant Keys(shape) == old(Keys(shape)) && |nodes| == old(|nodes|)
        decreases Depth(ctx)
      {
        Family(nodes, ctx, sub);
        n, ctx, sub := InsertStep(n, ctx, sub);
        Family(nodes, ctx, sub);
        if n == root {
          PlugRootId(ctx, sub);
          PlugDistinct(ctx, sub);
          assert sub.id in Ids(sub);
          break;
        }
      }
      Family(nodes, ctx, sub);
      InsertDone(ctx, sub);
      ghost var t := shape;
      RecolorAt(root, Black, Top, t);
    }

    /**
     * rbt.py:301-311, field write by field write: creates the red node
     * holding `value` and its two sentinels, and hangs it under `q` (the
     * result of `_get_node_parent_`) on the side `value` goes, or makes it
     * the root.
     */
    method LinkNew(q: Ptr, value: int) returns (nn: nat)
      requires ArenaOk(nodes) && InArena(q, |nodes|)
      modifies this`nodes, this`root
      ensures nn == old(|nodes|) && nodes == Hung(old(nodes), q, value)
      ensures root == if q.Nil? then nn else old(root)
    {
      nn := |nodes|;
      nodes := nodes + [NodePre(q, Nil, Nil, Red, value, false),
                        NodePre(Ref(nn), Nil, Nil, Black, 0, true),
                        NodePre(Ref(nn), Nil, Nil, Black, 0, true)];
      if q.Nil? {
        root := nn;
      } else if nodes[q.id].value > value {
        nodes := SetLeft(nodes, q.id, Ref(nn));
      } else {
        nodes := SetRight(nodes, q.id, Ref(nn));
      }
      nodes := SetLeft(nodes, nn, Ref(nn + 1));
      nodes := SetRight(nodes, nn, Ref(nn + 2));
    }

    /**
     * `LinkNew` at the sentinel `l` where the search for `value` ended: the
     * new node with its two sentinels takes `l`'s place in the tree.
     */
    method Hang(q: Ptr, value: int, ghost c: Ctx, ghost l: Tree) returns (nn: nat)
      requires Valid() && shape == Plug(c, l) && l.Leaf? && q == CtxParent(c, Nil)
      requires c.Frame? ==> (c.dir == Left <==> c.value > value)
      modifies this`nodes, this`root, this`shape
      ensures Valid() && nn == old(|nodes|) && |nodes| == nn + 3
      ensures shape == Plug(c, Node(nn, Red, value, Leaf(nn + 1), Leaf(nn + 2)))
    {
      ghost var h0 := Heap(nodes, root);
      HoleParent(h0, c, l);
      nn := LinkNew(q, value);
      HungRecords(h0.nodes, c, q, value);
      HangShape(h0, c, l, value, nodes, root);
      shape := Plug(c, Node(nn, Red, value, Leaf(nn + 1), Leaf(nn + 2)));
    }

    /**
     * rbt.py `insert`: a red node holding `value` with two fresh sentinel
     * children takes the place of the sentinel the search for `value` ends
     * at, and `InsertFixup` restores the colouring. A red-black tree in
     * search order stays one and gains exactly one `value`; duplicates are
     * kept.
     */
    method Insert(value: int)
      requires Invariant()
      modifies this
      ensures Invariant()
      ensures multiset(Keys(shape)) == multiset(old(Keys(shape))) + multiset{value}
      ensures |nodes| == old(|nodes|) + 3 && root < |nodes| && !nodes[root].isNull
    {
      var q, c, l := GetNodeParent(value);
      var nn := Hang(q, value, c, l);
      ghost var s := Node(nn, Red, value, Leaf(nn + 1), Leaf(nn + 2));
      InsertStart(c, l, s);
      InsertSorted(c, l, s);
      InsertKeys(c, l, s);
      InsertFixup(nn, c, s);
      assert value in multiset(Keys(shape));
      EmptyIsSentinel(Heap(nodes, root), shape);
    }

    // -------------------------------------------------------------------
    // Removal

    /**
     * Red sibling `sb`, `node` a left child (rbt.py:252-256): the sibling
     * turns black, the parent red, the parent is rotated left, and the new
     * sibling (the old sibling's left child) is black.
     */
    method RedSiblingLeft(n: nat, sb: nat, ghost c: Ctx, ghost s: Tree) returns (sb': nat, ghost c': Ctx)
      requires Valid() && shape == Plug(c, s) && s.id == n && RemoveInv(c, s) && !IsRed(s)
      requires c.Frame? && c.dir == Left && c.sib.id == sb && IsRed(c.sib)
      modifies this`nodes, this`root, this`shape
      ensures Valid() && shape == Plug(c', s) && RemoveInv(c', s)
      ensures c'.Frame? && c'.dir == Left && c'.color == Red && c'.sib.id == sb'
      ensures c'.sib.Node? && !IsRed(c'.sib) && c'.up.Frame? && c'.up.up == c.up
      ensures Keys(shape) == old(Keys(shape)) && |nodes| == old(|nodes|)
    {
      Family(nodes, c, s);
      RemoveSiblingRedLeft(c, s);
      ghost var S := c.sib;
      ghost var cs := Frame(Right, c.id, c.color, c.value, s, c.up);
      assert shape == Plug(cs, S);
      RecolorAt(sb, Black, cs, S);
      ghost var P := Node(c.id, c.color, c.value, s, Paint(S, Black));
      assert shape == Plug(c.up, P);
      RecolorAt(nodes[n].parent.id, Red, c.up, P);
      LeftRotateAt(nodes[n].parent.id, c.up, Paint(P, Red));
      c' := Frame(Left, c.id, Red, c.value, S.left, Frame(Left, S.id, Black, S.value, S.right, c.up));
      assert shape == Plug(c', s);
      Family(nodes, c', s);
      sb' := nodes[nodes[n].parent.id].right.id;
    }

    /**
     * Black sibling `sb` with two black children (rbt.py:257-259, 278-280):
     * the sibling turns red and `node` moves up to its parent.
     */
    method BothBlack(n: nat, sb: nat, ghost c: Ctx, ghost s: Tree) returns (n': nat, ghost c': Ctx, ghost s': Tree)
      requires Valid() && shape == Plug(c, s) && s.id == n && RemoveInv(c, s) && !IsRed(s)
      requires c.Frame? && c.sib.id == sb && c.sib.Node? && !IsRed(c.sib)
      requires !IsRed(c.sib.left) && !IsRed(c.sib.right)
      modifies this`nodes, this`shape
      ensures Valid() && shape == Plug(c', s') && s'.id == n' && RemoveInv(c', s')
      ensures c' == c.up && IsRed(s') == (c.color == Red)
      ensures Keys(shape) == old(Keys(shape)) && |nodes| == old(|nodes|)
    {
      Family(nodes, c, s);
      RemoveBothBlack(c, s);
      ghost var cs := Frame(Flip(c.dir), c.id, c.color, c.value, s, c.up);
      assert shape == Plug(cs, c.sib);
      RecolorAt(sb, Red, cs, c.sib);
      n' := nodes[n].parent.id;
      c' := c.up;
      s' := Join(c.dir, c.id, c.color, c.value, Paint(c.sib, Red), s);
      shape := Plug(c', s');
    }

    /**
     * Black sibling `sb` whose left child is red and right child black,
     * `node` a left child (rbt.py:261-265): the near child turns black, the
     * sibling red, the sibling is rotated right, and the new sibling has a
     * red right child.
     */
    method NearRedLeft(n: nat, sb: nat, ghost c: Ctx, ghost s: Tree) returns (sb': nat, ghost c': Ctx)
      requires Valid() && shape == Plug(c, s) && s.id == n && RemoveInv(c, s) && !IsRed(s)
      requires c.Frame? && c.dir == Left && c.sib.id == sb && c.sib.Node? && !IsRed(c.sib)
      requires IsRed(c.sib.left) && !IsRed(c.sib.right)
      modifies this`nodes, this`root, this`shape
      ensures Valid() && shape == Plug(c', s) && RemoveInv(c', s)
      ensures c'.Frame? && c'.dir == Left && c'.sib.id == sb' && c'.up == c.up && c'.color == c.color
      ensures c'.sib.Node? && !IsRed(c'.sib) && IsRed(c'.sib.right)
      ensures Keys(shape) == old(Keys(shape)) && |nodes| == old(|nodes|)
    {
      Nephews(nodes, c, s);
      RemoveNearRedLeft(c, s);
      ghost var S := c.sib;
      ghost var L := S.left;
      ghost var cp := Frame(Right, c.id, c.color, c.value, s, c.up);
      ghost var cl := Frame(Left, S.id, S.color, S.value, S.right, cp);
      assert shape == Plug(cl, L);
      RecolorAt(nodes[sb].left.id, Black, cl, L);
      ghost var S1 := Node(S.id, S.color, S.value, Paint(L, Black), S.right);
      assert shape == Plug(cp, S1);
      RecolorAt(sb, Red, cp, S1);
      RightRotateAt(sb, cp, Paint(S1, Red));
      c' := Frame(Left, c.id, c.color, c.value,
                  Node(L.id, Black, L.value, L.left, Node(S.id, Red, S.value, L.right, S.right)), c.up);
      assert shape == Plug(c', s);
      Family(nodes, c', s);
      sb' := nodes[nodes[n].parent.id].right.id;
    }

    /**
     * The recolouring of rbt.py:266-268: the sibling `sb` takes the parent's
     * colour, and the parent and the sibling's right child turn black.
     */
    method PaintFarLeft(n: nat, sb: nat, ghost c: Ctx, ghost s: Tree)
      requires Valid() && shape == Plug(c, s) && s.id == n
      requires c.Frame? && c.dir == Left && c.sib.id == sb && c.sib.Node?
      modifies this`nodes, this`shape
      ensures Valid() && Keys(shape) == old(Keys(shape)) && |nodes| == old(|nodes|) && root == old(root)
      ensures shape == Plug(c.up, Node(c.id, Black, c.value, s,
                                       Node(sb, c.color, c.sib.value, c.sib.left, Paint(c.sib.right, Black))))
    {
      Family(nodes, c, s);
      Nephews(nodes, c, s);
      ghost var S := c.sib;
      ghost var cs := Frame(Right, c.id, c.color, c.value, s, c.up);
      assert shape == Plug(cs, S);
      RecolorAt(sb, nodes[nodes[n].parent.id].color, cs, S);
      ghost var P1 := Node(c.id, c.color, c.value, s, Paint(S, c.color));
      assert shape == Plug(c.up, P1);
      RecolorAt(nodes[n].parent.id, Black, c.up, P1);
      ghost var cr := Frame(Right, S.id, c.color, S.value, S.left, Frame(Right, c.id, Black, c.value, s, c.up));
      assert shape == Plug(cr, S.right);
      RecolorAt(nodes[sb].right.id, Black, cr, S.right);
    }

    /**
     * Black sibling `sb` with a red right child, `node` a left child
     * (rbt.py:266-270): `PaintFarLeft`, then the parent is rotated left. The
     * tree is a red-black tree again.
     */
    method FarRedLeft(n: nat, sb: nat, ghost c: Ctx, ghost s: Tree)
      requires Valid() && shape == Plug(c, s) && s.id == n && RemoveInv(c, s) && !IsRed(s)
      requires c.Frame? && c.dir == Left && c.sib.id == sb && c.sib.Node? && !IsRed(c.sib)
      requires IsRed(c.sib.right)
      modifies this`nodes, this`root, this`shape
      ensures Valid() && RedBlack(shape)
      ensures Keys(shape) == old(Keys(shape)) && |nodes| == old(|nodes|)
    {
      RemoveFarRedLeft(c, s);
      Family(nodes, c, s);
      PaintFarLeft(n, sb, c, s);
      ghost var P := Node(c.id, Black, c.value, s, Node(sb, c.color, c.sib.value, c.sib.left, Paint(c.sib.right, Black)));
      Family(nodes, Frame(Left, c.id, Black, c.value, P.right, c.up), s);
      LeftRotateAt(nodes[n].parent.id, c.up, P);
    }

    /** The mirror image of `RedSiblingLeft` (rbt.py:273-277). */
    method RedSiblingRight(n: nat, sb: nat, ghost c: Ctx, ghost s: Tree) returns (sb': nat, ghost c': Ctx)
      requires Valid() && shape == Plug(c, s) && s.id == n && RemoveInv(c, s) && !IsRed(s)
      requires c.Frame? && c.dir == Right && c.sib.id == sb && IsRed(c.sib)
      modifies this`nodes, this`root, this`shape
      ensures Valid() && shape == Plug(c', s) && RemoveInv(c', s)
      ensures c'.Frame? && c'.dir == Right && c'.color == Red && c'.sib.id == sb'
      ensures c'.sib.Node? && !IsRed(c'.sib) && c'.up.Frame? && c'.up.up == c.up
      ensures Keys(shape) == old(Keys(shape)) && |nodes| == old(|nodes|)
    {
      Family(nodes, c, s);
      RemoveSiblingRedRight(c, s);
      ghost var S := c.sib;
      ghost var cs := Frame(Left, c.id, c.color, c.value, s, c.up);
      assert shape == Plug(cs, S);
      RecolorAt(sb, Black, cs, S);
      ghost var P := Node(c.id, c.color, c.value, Paint(S, Black), s);
      assert shape == Plug(c.up, P);
      RecolorAt(nodes[n].parent.id, Red, c.up, P);
      RightRotateAt(nodes[n].parent.id, c.up, Paint(P, Red));
      c' := Frame(Right, c.id, Red, c.value, S.right, Frame(Right, S.id, Black, S.value, S.left, c.up));
      assert shape == Plug(c', s);
      Family(nodes, c', s);
      sb' := nodes[nodes[n].parent.id].left.id;
    }

    /** The mirror image of `NearRedLeft` (rbt.py:282-286). */
    method NearRedRight(n: nat, sb: nat, ghost c: Ctx, ghost s: Tree) returns (sb': nat, ghost c': Ctx)
      requires Valid() && shape == Plug(c, s) && s.id == n && RemoveInv(c, s) && !IsRed(s)
      requires c.Frame? && c.dir == Right && c.sib.id == sb && c.sib.Node? && !IsRed(c.sib)
      requires IsRed(c.sib.right) && !IsRed(c.sib.left)
      modifies this`nodes, this`root, this`shape
      ensures Valid() && shape == Plug(c', s) && RemoveInv(c', s)
      ensures c'.Frame? && c'.dir == Right && c'.sib.id == sb' && c'.up == c.up && c'.color == c.color
      ensures c'.sib.Node? && !IsRed(c'.sib) && IsRed(c'.sib.left)
      ensures Keys(shape) == old(Keys(shape)) && |nodes| == old(|nodes|)
    {
      Nephews(nodes, c, s);
      RemoveNearRedRight(c, s);
      ghost var S := c.sib;
      ghost var R := S.right;
      ghost var cp := Frame(Left, c.id, c.color, c.value, s, c.up);
      ghost var cr := Frame(Right, S.id, S.color, S.value, S.left, cp);
      assert shape == Plug(cr, R);
      RecolorAt(nodes[sb].right.id, Black, cr, R);
      ghost var S1 := Node(S.id, S.color, S.value, S.left, Paint(R, Black));
      assert shape == Plug(cp, S1);
      RecolorAt(sb, Red, cp, S1);
      LeftRotateAt(sb, cp, Paint(S1, Red));
      c' := Frame(Right, c.id, c.color, c.value,
                  Node(R.id, Black, R.value, Node(S.id, Red, S.value, S.left, R.left), R.right), c.up);
      assert shape == Plug(c', s);
      Family(nodes, c', s);
      sb' := nodes[nodes[n].parent.id].left.id;
    }

    /** The recolouring of rbt.py:287-289, the mirror image of `PaintFarLeft`. */
    method PaintFarRight(n: nat, sb: nat, ghost c: Ctx, ghost s: Tree)
      requires Valid() && shape == Plug(c, s) && s.id == n
      requires c.Frame? && c.dir == Right && c.sib.id == sb && c.sib.Node?
      modifies this`nodes, this`shape
      ensures Valid() && Keys(shape) == old(Keys(shape)) && |nodes| == old(|nodes|) && root == old(root)
      ensures shape == Plug(c.up, Node(c.id, Black, c.value,
                                       Node(sb, c.color, c.sib.value, Paint(c.sib.left, Black), c.sib.right), s))
    {
      Family(nodes, c, s);
      Nephews(nodes, c, s);
      ghost var S := c.sib;
      ghost var cs := Frame(Left, c.id, c.color, c.value, s, c.up);
      assert shape == Plug(cs, S);
      RecolorAt(sb, nodes[nodes[n].parent.id].color, cs, S);
      ghost var P1 := Node(c.id, c.color, c.value, Paint(S, c.color), s);
      assert shape == Plug(c.up, P1);
      RecolorAt(nodes[n].parent.id, Black, c.up, P1);
      ghost var cl := Frame(Left, S.id, c.color, S.value, S.right, Frame(Left, c.id, Black, c.value, s, c.up));
      assert shape == Plug(cl, S.left);
      RecolorAt(nodes[sb].left.id, Black, cl, S.left);
    }

    /** The mirror image of `FarRedLeft` (rbt.py:287-291). */
    method FarRedRight(n: nat, sb: nat, ghost c: Ctx, ghost s: Tree)
      requires Valid() && shape == Plug(c, s) && s.id == n && RemoveInv(c, s) && !IsRed(s)
      requires c.Frame? && c.dir == Right && c.sib.id == sb && c.sib.Node? && !IsRed(c.sib)
      requires IsRed(c.sib.left)
      modifies this`nodes, this`root, this`shape
      ensures Valid() && RedBlack(shape)
      ensures Keys(shape) == old(Keys(shape)) && |nodes| == old(|nodes|)
    {
      RemoveFarRedRight(c, s);
      Family(nodes, c, s);
      PaintFarRight(n, sb, c, s);
      ghost var P := Node(c.id, Black, c.value, Node(sb, c.color, c.sib.value, Paint(c.sib.left, Black), c.sib.right), s);
      Family(nodes, Frame(Right, c.id, Black, c.value, P.left, c.up), s);
      RightRotateAt(nodes[n].parent.id, c.up, P);
    }

    /**
     * One pass of the `_remove_fixup_` loop for a left-child `node`
     * (rbt.py:251-270): a red sibling is first made black; then either both
     * of the sibling's children are black and `node` moves up, or the far
     * child is made red and the tree is repaired, `node` becoming the root.
     */
    method RemoveStepLeft(n: nat, ghost c: Ctx, ghost s: Tree) returns (n': nat, ghost c': Ctx, ghost s': Tree)
      requires Valid() && shape == Plug(c, s) && s.id == n && RemoveInv(c, s) && !IsRed(s)
      requires c.Frame? && c.dir == Left
      modifies this`nodes, this`root, this`shape
      ensures Valid() && shape == Plug(c', s') && s'.id == n' && RemoveInv(c', s')
      ensures RemoveMeasure(c', s') < RemoveMeasure(c, s)
      ensures Keys(shape) == old(Keys(shape)) && |nodes| == old(|nodes|)
    {
      Family(nodes, c, s);
      RemoveUnpack(c, s);
      var sb := Sibling(nodes, n).id;
      ghost var c1 := c;
      if IsRedAt(nodes, sb) {
        sb, c1 := RedSiblingLeft(n, sb, c, s);
      }
      n', c', s' := BlackSiblingLeft(n, sb, c1, s);
    }

    /**
     * The black-sibling cases of one pass for a left-child `node`
     * (rbt.py:257-270): either both of the sibling's children are black and
     * `node` moves up, or the far child is made red and the tree is
     * repaired, `node` becoming the root.
     */
    method BlackSiblingLeft(n: nat, sb: nat, ghost c: Ctx, ghost s: Tree) returns (n': nat, ghost c': Ctx, ghost s': Tree)
      requires Valid() && shape == Plug(c, s) && s.id == n && RemoveInv(c, s) && !IsRed(s)
      requires c.Frame? && c.dir == Left && c.sib.id == sb && c.sib.Node? && !IsRed(c.sib)
      modifies this`nodes, this`root, this`shape
      ensures Valid() && shape == Plug(c', s') && s'.id == n' && RemoveInv(c', s')
      ensures c'.Top? || (c' == c.up && IsRed(s') == (c.color == Red))
      ensures Keys(shape) == old(Keys(shape)) && |nodes| == old(|nodes|)
    {
      Nephews(nodes, c, s);
      if !IsRedAt(nodes, nodes[sb].left.id) && !IsRedAt(nodes, nodes[sb].right.id) {
        n', c', s' := BothBlack(n, sb, c, s);
      } else {
        var sb1 := sb;
        ghost var c1 := c;
        if !IsRedAt(nodes, nodes[sb].right.id) {
          sb1, c1 := NearRedLeft(n, sb, c, s);
        }
        FarRedLeft(n, sb1, c1, s);
        n', c', s' := root, Top, shape;
      }
    }

    /** The mirror image of `RemoveStepLeft` (rbt.py:271-291). */
    method RemoveStepRight(n: nat, ghost c: Ctx, ghost s: Tree) returns (n': nat, ghost c': Ctx, ghost s': Tree)
      requires Valid() && shape == Plug(c, s) && s.id == n && RemoveInv(c, s) && !IsRed(s)
      requires c.Frame? && c.dir == Right
      modifies this`nodes, this`root, this`shape
      ensures Valid() && shape == Plug(c', s') && s'.id == n' && RemoveInv(c', s')
      ensures RemoveMeasure(c', s') < RemoveMeasure(c, s)
      ensures Keys(shape) == old(Keys(shape)) && |nodes| == old(|nodes|)
    {
      Family(nodes, c, s);
      RemoveUnpack(c, s);
      var sb := nodes[nodes[n].parent.id].left.id;
      ghost var c1 := c;
      if IsRedAt(nodes, sb) {
        sb, c1 := RedSiblingRight(n, sb, c, s);
      }
      n', c', s' := BlackSiblingRight(n, sb, c1, s);
    }

    /**
     * The black-sibling cases of one pass for a right-child `node`
     * (rbt.py:278-291): either both of the sibling's children are black and
     * `node` moves up, or the far child is made red and the tree is
     * repaired, `node` becoming the root.
     */
    method BlackSiblingRight(n: nat, sb: nat, ghost c: Ctx, ghost s: Tree) returns (n': nat, ghost c': Ctx, ghost s': Tree)
      requires Valid() && shape == Plug(c, s) && s.id == n && RemoveInv(c, s) && !IsRed(s)
      requires c.Frame? && c.dir == Right && c.sib.id == sb && c.sib.Node? && !IsRed(c.sib)
      modifies this`nodes, this`root, this`shape
      ensures Valid() && shape == Plug(c', s') && s'.id == n' && RemoveInv(c', s')
      ensures c'.Top? || (c' == c.up && IsRed(s') == (c.color == Red))
      ensures Keys(shape) == old(Keys(shape)) && |nodes| == old(|nodes|)
    {
      Nephews(nodes, c, s);
      if !IsRedAt(nodes, nodes[sb].left.id) && !IsRedAt(nodes, nodes[sb].right.id) {
        n', c', s' := BothBlack(n, sb, c, s);
      } else {
        var sb1 := sb;
        ghost var c1 := c;
        if !IsRedAt(nodes, nodes[sb].left.id) {
          sb1, c1 := NearRedRight(n, sb, c, s);
        }
        FarRedRight(n, sb1, c1, s);
        n', c', s' := root, Top, shape;
      }
    }

    /**
     * rbt.py `_remove_fixup_`: moves the one-black shortage at `node` up the
     * tree until `node` is red or the root, then paints `node` black. The
     * result is a red-black tree with the same keys in the same order.
     */
    method RemoveFixup(node: nat, ghost c: Ctx, ghost s: Tree)
      requires Valid() && shape == Plug(c, s) && s.id == node && RemoveInv(c, s)
      modifies this`nodes, this`root, this`shape
      ensures Valid() && RedBlack(shape) && Keys(shape) == old(Keys(shape)) && |nodes| == old(|nodes|)
    {
      var n := node;
      ghost var ctx := c;
      ghost var sub := s;
      Family(nodes, ctx, sub);
      while n != root && !IsRedAt(nodes, n)
        invariant Valid() && shape == Plug(ctx, sub) && sub.id == n && RemoveInv(ctx, sub)
        invariant n < |nodes| && IsRedAt(nodes, n) == IsRed(sub)
        invariant Keys(shape) == old(Keys(shape)) && |nodes| == old(|nodes|)
        decreases RemoveMeasure(ctx, sub)
      {
        Family(nodes, ctx, sub);
        if Ref(n) == nodes[nodes[n].parent.id].left {
          n, ctx, sub := RemoveStepLeft(n, ctx, sub);
        } else {
          n, ctx, sub := RemoveStepRight(n, ctx, sub);
        }
        Family(nodes, ctx, sub);
      }
      if n == root {
        PlugRootId(ctx, sub);
        PlugDistinct(ctx, sub);
        assert sub.id in Ids(sub);
      }
      RemoveDone(ctx, sub);
      RecolorAt(n, Black, ctx, sub);
    }

    /**
     * rbt.py:343-346: the node `m` that took `q`'s place adopts `q`'s left
     * subtree `QL` in place of its left sentinel and takes `q`'s colour.
     */
    method AdoptLeft(q: nat, m: nat, ghost cq: Ctx, ghost M: Tree, ghost QL: Tree, ghost col: Color)
      requires Valid() && shape == Plug(cq, M) && M.Node? && M.left.Leaf? && M.id == m
      requires q < |nodes| && nodes[q].left == Ref(QL.id) && nodes[q].color == col && q != m && q != QL.id
      requires Matches(nodes, QL, Ref(q)) && Distinct(QL) && Ids(QL) !! Ids(Plug(cq, M))
      modifies this`nodes, this`shape
      ensures Valid() && shape == Plug(cq, Node(m, col, M.value, QL, M.right))
      ensures |nodes| == old(|nodes|) && root == old(root)
    {
      Adopt(Heap(nodes, root), cq, M, QL, Ref(q), col);
      nodes := SetLeft(nodes, m, nodes[q].left);
      nodes := SetParent(nodes, nodes[m].left.id, Ref(m));
      nodes := SetColor(nodes, m, nodes[q].color);
      shape := Plug(cq, Node(m, col, M.value, QL, M.right));
    }

    /**
     * rbt.py:339-341: the detached minimum `m` (left sentinel `ml`) adopts the
     * right subtree of `Q`, so that `_transplant_(Q, m)` can put it in `Q`'s
     * place.
     */
    method GraftMinimum(q: nat, m: nat, ghost cq: Ctx, ghost Q: Tree, ghost ml: nat)
      requires Valid() && shape == Plug(cq, Q) && Q.Node? && Q.id == q
      requires m < |nodes| && m != ml && m !in Ids(shape) && ml !in Ids(shape)
      requires !nodes[m].isNull && nodes[m].left == Ref(ml) && Matches(nodes, Leaf(ml), Ref(m))
      modifies this`nodes
      ensures ArenaOk(nodes) && q < |nodes| && m < |nodes| && |nodes| == old(|nodes|)
      ensures var h3 := Transplanted(Heap(nodes, root), q, m);
        Represents(h3, Plug(cq, Node(m, old(nodes[m].color), old(nodes[m].value), Leaf(ml), Q.right))) &&
        h3.nodes[q] == old(nodes[q]) && Matches(h3.nodes, Q.left, Ref(q))
    {
      Graft(Heap(nodes, root), cq, Q, m, ml);
      GraftKeeps(Heap(nodes, root), cq, Q, m);
      MatchesPlug(nodes, cq, Q, Nil);
      nodes := SetRight(nodes, m, nodes[q].right);
      nodes := SetParent(nodes, nodes[m].right.id, Ref(m));
    }

    /**
     * rbt.py:337-341, the minimum `M` lying deeper than `Q`'s right child:
     * `M`'s right child takes `M`'s place, and `M` adopts `Q`'s right subtree.
     */
    method DetachMinimumNode(q: nat, m: nat, ghost cq: Ctx, ghost Q: Tree, ghost cm: Ctx, ghost M: Tree)
      requires Valid() && shape == Plug(cq, Q) && Q.Node? && Q.id == q
      requires Q.right == Plug(cm, M) && cm.Frame? && M.Node? && M.left.Leaf? && M.id == m
      requires Matches(nodes, M, Ref(cm.id))
      modifies this`nodes, this`root, this`shape
      ensures ArenaOk(nodes) && q < |nodes| && m < |nodes| && |nodes| == old(|nodes|)
      ensures var h3 := Transplanted(Heap(nodes, root), q, m);
        Represents(h3, Plug(cq, Node(m, M.color, M.value, M.left, Plug(cm, M.right)))) &&
        h3.nodes[q] == old(nodes[q]) && Matches(h3.nodes, Q.left, Ref(q))
    {
      ghost var h0 := Heap(nodes, root);
      DetachMinimum(h0, cq, Q, cm, M);
      MatchesPlug(nodes, cq, Q, Nil);
      PlugDistinct(cq, Q);
      DetachMinimumRecords(h0, q, Q.right, cm, M);
      DetachMinimumIds(cq, Q, cm, M);
      Transplant(m, nodes[m].right.id);
      ghost var Q1 := Node(q, Q.color, Q.value, Q.left, Plug(cm, M.right));
      shape := Plug(cq, Q1);
      GraftMinimum(q, m, cq, Q1, M.left.id);
    }

    /**
     * rbt.py:334-341: the minimum `M` (node `m`, found down the left spine
     * `cm` of `Q`'s right subtree) is unlinked, so that the `_transplant_(Q,
     * M)` that follows puts `M`, with `Q`'s right subtree below it, in `Q`'s
     * place. `Q`'s record and left subtree stay as they were.
     */
    method UnlinkMinimum(q: nat, m: nat, fix: nat, ghost cq: Ctx, ghost Q: Tree, ghost cm: Ctx, ghost M: Tree)
      requires Valid() && shape == Plug(cq, Q) && Q.Node? && Q.id == q
      requires Q.right == Plug(cm, M) && M.Node? && M.left.Leaf? && M.id == m && M.right.id == fix
      modifies this`nodes, this`root, this`shape
      ensures ArenaOk(nodes) && q < |nodes| && m < |nodes| && |nodes| == old(|nodes|)
      ensures var h3 := Transplanted(Heap(nodes, root), q, m);
        Represents(h3, Plug(cq, Node(m, M.color, M.value, M.left, Plug(cm, M.right)))) &&
        h3.nodes[q] == old(nodes[q]) && Matches(h3.nodes, Q.left, Ref(q))
    {
      ghost var h0 := Heap(nodes, root);
      MinimumParent(h0, cq, Q, cm, M);
      if nodes[m].parent == Ref(q) {
        MinimumIsChild(h0, cq, Q);
        nodes := SetParent(nodes, fix, Ref(m));
        RightChildTakesPlace(h0, cq, Q);
      } else {
        DetachMinimumNode(q, m, cq, Q, cm, M);
      }
    }

    /**
     * The two-children case of rbt.py `remove` (lines 330-346): the minimum
     * `M` of `Q`'s right subtree is unlinked (its right child `fix` takes its
     * place) and then takes `Q`'s place, children and colour. `color` is the
     * colour that left the tree, `M`'s.
     */
    method ReplaceByMinimum(q: nat, ghost cq: Ctx, ghost Q: Tree)
      returns (fix: nat, color: Color, ghost cm: Ctx, ghost M: Tree)
      requires Valid() && shape == Plug(cq, Q) && Q.Node? && Q.id == q && Q.right.Node?
      modifies this`nodes, this`root, this`shape
      ensures Q.right == Plug(cm, M) && LeftSpine(cm) && M.Node? && M.left.Leaf?
      ensures fix == M.right.id && color == M.color
      ensures Valid() && shape == Plug(cq, Node(M.id, Q.color, M.value, Q.left, Plug(cm, M.right)))
      ensures |nodes| == old(|nodes|)
    {
      NodeLinks(Heap(nodes, root), cq, Q);
      ghost var cr := Frame(Right, q, Q.color, Q.value, Q.left, cq);
      assert shape == Plug(cr, Q.right);
      var m;
      m, cm, M := FindMinimumNode(nodes[q].right.id, cr, Q.right);
      color := nodes[m].color;
      fix := nodes[m].right.id;
      RemovalIds(cq, Q, cm, M);
      UnlinkMinimum(q, m, fix, cq, Q, cm, M);
      Transplant(q, m);
      shape := Plug(cq, Node(m, M.color, M.value, M.left, Plug(cm, M.right)));
      AdoptLeft(q, m, cq, Node(m, M.color, M.value, M.left, Plug(cm, M.right)), Q.left, Q.color);
    }

    /**
     * A node `q` with a sentinel child is cut out (rbt.py:324-329): its other
     * child `X` (node `x`) takes its place.
     */
    method CutOut(q: nat, x: nat, ghost cq: Ctx, ghost Q: Tree, ghost X: Tree)
      requires Invariant() && shape == Plug(cq, Q) && Q.Node? && Q.id == q && X.id == x
      requires (Q.left.Leaf? && X == Q.right) || (Q.right.Leaf? && X == Q.left)
      modifies this`nodes, this`root, this`shape
      ensures Valid() && shape == Plug(cq, X) && |nodes| == old(|nodes|)
      ensures Sorted(Keys(shape)) && multiset(Keys(shape)) == multiset(old(Keys(shape))) - multiset{Q.value}
      ensures Q.color == Black ==> RemoveInv(cq, X)
      ensures Q.color == Red ==> RedBlack(shape)
    {
      RemoveOne(cq, Q, X);
      TransplantChild(Heap(nodes, root), cq, Q, X);
      Transplant(q, x);
      shape := Plug(cq, X);
    }

    /**
     * A node `q` with two real children is replaced by the minimum of its
     * right subtree (rbt.py:330-346). Returns the node the colouring is
     * repaired from, where it sits, and the colour that was unlinked.
     */
    method Splice(q: nat, ghost cq: Ctx, ghost Q: Tree)
      returns (fix: nat, color: Color, ghost fc: Ctx, ghost fs: Tree)
      requires Invariant() && shape == Plug(cq, Q) && Q.Node? && Q.id == q && Q.right.Node?
      modifies this`nodes, this`root, this`shape
      ensures Valid() && shape == Plug(fc, fs) && fs.id == fix && |nodes| == old(|nodes|)
      ensures Sorted(Keys(shape)) && multiset(Keys(shape)) == multiset(old(Keys(shape))) - multiset{Q.value}
      ensures color == Black ==> RemoveInv(fc, fs)
      ensures color == Red ==> RedBlack(shape)
    {
      ghost var cm, M;
      fix, color, cm, M := ReplaceByMinimum(q, cq, Q);
      RemoveTwoKeys(cq, Q, cm, M, Q.color);
      RemoveTwoChildren(cq, Q, cm, M);
      fc := Append(cm, Frame(Right, M.id, Q.color, M.value, Q.left, cq));
      fs := M.right;
      PlugAppend(cm, Frame(Right, M.id, Q.color, M.value, Q.left, cq), M.right);
    }

    /**
     * rbt.py:322-346: unlinks the node `q` found by `_get_node_`, by one of
     * the three cases of `remove`. Returns the node `_remove_fixup_` would
     * start from, where it sits, and the colour that was unlinked.
     */
    method Unlink(q: nat, ghost cq: Ctx, ghost Q: Tree)
      returns (fix: nat, color: Color, ghost fc: Ctx, ghost fs: Tree)
      requires Invariant() && shape == Plug(cq, Q) && Q.Node? && Q.id == q
      modifies this`nodes, this`root, this`shape
      ensures Valid() && shape == Plug(fc, fs) && fs.id == fix && |nodes| == old(|nodes|)
      ensures Sorted(Keys(shape)) && multiset(Keys(shape)) == multiset(old(Keys(shape))) - multiset{Q.value}
      ensures color == Black ==> RemoveInv(fc, fs)
      ensures color == Red ==> RedBlack(shape)
    {
      NodeLinks(Heap(nodes, root), cq, Q);
      color := nodes[q].color;
      if nodes[nodes[q].left.id].isNull {
        fix := nodes[q].right.id;
        CutOut(q, fix, cq, Q, Q.right);
        fc, fs := cq, Q.right;
      } else if nodes[nodes[q].right.id].isNull {
        fix := nodes[q].left.id;
        CutOut(q, fix, cq, Q, Q.left);
        fc, fs := cq, Q.left;
      } else {
        fix, color, fc, fs := Splice(q, cq, Q);
      }
    }

    /**
     * rbt.py `remove`: unlinks a node holding `value` and repairs the
     * colouring with `RemoveFixup` when the unlinked colour was black. A
     * red-black tree in search order stays one and loses exactly one copy
     * of `value`. Where the source raises an exception for a missing
     * value, this reports `false` and leaves the tree as it was.
     */
    method Remove(value: int) returns (found: bool)
      requires Invariant()
      modifies this`nodes, this`root, this`shape
      ensures Invariant()
      ensures found <==> value in old(Keys(shape))
      ensures found ==> multiset(Keys(shape)) == multiset(old(Keys(shape))) - multiset{value}
      ensures !found ==> nodes == old(nodes) && root == old(root) && shape == old(shape)
      ensures |nodes| == old(|nodes|) && root < |nodes|
      ensures nodes[root].isNull <==> Keys(shape) == []
      ensures found && |old(Keys(shape))| == 1 ==> nodes[root].isNull
    {
      var r, cq, Q := GetNode(value);
      if r.Nil? {
        EmptyIsSentinel(Heap(nodes, root), shape);
        return false;
      }
      var fix, color, fc, fs := Unlink(r.id, cq, Q);
      if color == Black {
        RemoveFixup(fix, fc, fs);
      }
      EmptyIsSentinel(Heap(nodes, root), shape);
      assert |multiset(Keys(shape))| == |multiset(old(Keys(shape)))| - 1;
      return true;
    }

    /**
     * `insert` then `remove` of the same value, as the driver at
     * rbt.py:369-400 uses them: the value is found again, and the tree ends
     * with the keys it started with.
     */
    method InsertThenRemove(value: int) returns (found: bool)
      requires Invariant()
      modifies this
      ensures Invariant() && found
      ensures multiset(Keys(shape)) == multiset(old(Keys(shape)))
    {
      Insert(value);
      assert value in multiset(Keys(shape));
      found := Remove(value);
    }
  }
}
