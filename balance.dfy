// What each case of rbt.py `_insert_fixup_` and `_remove_fixup_` does to the
// shape, and the loop invariants the two fix-up loops keep. Everything here is
// about the datatype view; the class methods replay the same steps on the arena.

module RbBalance {
  import opened RbShape
  import opened RbKeys

  /** Paints the root of a tree whose only possible defect is a red root. */
  lemma PaintRootBlack(t: Tree)
    requires Balanced(t) && NoRedRed(t)
    ensures RedBlack(Paint(t, Black))
  {
  }

  // ---------------------------------------------------------------------
  // Insertion

  /**
   * Invariant of the `_insert_fixup_` loop with `node` at the hole of `c`: the
   * tree is balanced, and the only red-red edge allowed is between `node` and
   * its parent; the root is black unless `node` is the root.
   */
  predicate InsertInv(c: Ctx, s: Tree)
  {
    IsRed(s) && Balanced(s) && CtxFits(c, BlackHeight(s)) && NoRedRed(s) &&
    CtxNoRedRed(c, false) && (c.Frame? ==> !IsRed(Plug(c, s)))
  }

  /**
   * rbt.py:301-312 before the fix-up: a red node with two sentinel children
   * replaces a sentinel of a red-black tree; the result meets the invariant.
   */
  lemma InsertStart(c: Ctx, l: Tree, s: Tree)
    requires RedBlack(Plug(c, l)) && l.Leaf?
    requires s.Node? && s.color == Red && s.left.Leaf? && s.right.Leaf?
    ensures InsertInv(c, s)
  {
    PlugBalanced(c, l);
    PlugNoRedRed(c, l);
    if c.Frame? {
      PlugRoot(c, l, s);
    }
  }

  /**
   * The loop of `_insert_fixup_` has ended (a black parent, or `node` is the
   * root): painting the root black (rbt.py:235) gives a red-black tree.
   */
  lemma InsertDone(c: Ctx, s: Tree)
    requires InsertInv(c, s) && (c.Top? || c.color == Black)
    ensures RedBlack(Paint(Plug(c, s), Black))
  {
    assert CtxNoRedRed(c, true);
    PlugBalanced(c, s);
    PlugNoRedRed(c, s);
    PaintRootBlack(Plug(c, s));
  }

  /** With a red parent there is a grandparent, and it is black. */
  lemma InsertUnpack(c: Ctx, s: Tree)
    requires InsertInv(c, s) && c.Frame? && c.color == Red
    ensures c.up.Frame? && c.up.color == Black
    ensures Balanced(c.sib) && BlackHeight(c.sib) == BlackHeight(s) && !IsRed(c.sib) && NoRedRed(c.sib)
    ensures Balanced(c.up.sib) && BlackHeight(c.up.sib) == BlackHeight(s) && NoRedRed(c.up.sib)
    ensures CtxFits(c.up.up, BlackHeight(s) + 1) && CtxNoRedRed(c.up.up, false)
    ensures !IsRed(s.left) && !IsRed(s.right) && NoRedRed(s.left) && NoRedRed(s.right)
    ensures Balanced(s.left) && Balanced(s.right)
    ensures BlackHeight(s.left) == BlackHeight(s) == BlackHeight(s.right)
  {
    var Frame(d, p, pc, pv, sib, up) := c;
    PlugRootRed(c, s);
    var Frame(_, _, gc, _, u, up2) := up;
    assert CtxNoRedRed(up, true);
    assert gc == Black;
    assert CtxFits(up, BlackHeight(s));
    assert CtxNoRedRed(up2, false);
    assert NoRedRed(s.left) && NoRedRed(s.right);
  }

  /**
   * Red uncle (rbt.py:207-211 and 221-225): parent and uncle turn black, the
   * grandparent red, and the defect moves two levels up.
   */
  lemma InsertUncleRed(c: Ctx, s: Tree)
    requires InsertInv(c, s) && c.Frame? && c.color == Red && c.up.Frame? && IsRed(c.up.sib)
    ensures var g := c.up;
      InsertInv(g.up, Join(g.dir, g.id, Red, g.value, Paint(g.sib, Black),
                           Join(c.dir, c.id, Black, c.value, c.sib, s)))
  {
    var g := c.up;
    var P := Join(c.dir, c.id, Red, c.value, c.sib, s);
    var G := Join(g.dir, g.id, g.color, g.value, g.sib, P);
    var P' := Join(c.dir, c.id, Black, c.value, c.sib, s);
    var G' := Join(g.dir, g.id, Red, g.value, Paint(g.sib, Black), P');
    InsertUnpack(c, s);
    assert Plug(c, s) == Plug(g.up, G);
    if g.up.Frame? {
      PlugRoot(g.up, G, G');
    }
  }

  /** Black uncle, `node` a left child of a left child (rbt.py:216-218). */
  lemma InsertOuterLeft(c: Ctx, s: Tree)
    requires InsertInv(c, s) && c.Frame? && c.dir == Left && c.color == Red
    requires c.up.Frame? && c.up.dir == Left && !IsRed(c.up.sib)
    ensures var g := c.up;
      InsertInv(Frame(Left, c.id, Black, c.value, Node(g.id, Red, g.value, c.sib, g.sib), g.up), s)
  {
    var g := c.up;
    var G := Join(g.dir, g.id, g.color, g.value, g.sib, Join(c.dir, c.id, Red, c.value, c.sib, s));
    var G' := Node(c.id, Black, c.value, s, Node(g.id, Red, g.value, c.sib, g.sib));
    InsertUnpack(c, s);
    assert Plug(c, s) == Plug(g.up, G);
    if g.up.Frame? {
      PlugRoot(g.up, G, G');
    }
  }

  /** Black uncle, `node` a right child of a left child (rbt.py:213-218). */
  lemma InsertInnerLeft(c: Ctx, s: Tree)
    requires InsertInv(c, s) && c.Frame? && c.dir == Right && c.color == Red
    requires c.up.Frame? && c.up.dir == Left && !IsRed(c.up.sib)
    ensures var g := c.up;
      InsertInv(Frame(Left, s.id, Black, s.value, Node(g.id, Red, g.value, s.right, g.sib), g.up),
                Node(c.id, Red, c.value, c.sib, s.left))
  {
    var g := c.up;
    var G := Join(g.dir, g.id, g.color, g.value, g.sib, Join(c.dir, c.id, Red, c.value, c.sib, s));
    var G' := Node(s.id, Black, s.value, Node(c.id, Red, c.value, c.sib, s.left),
                   Node(g.id, Red, g.value, s.right, g.sib));
    InsertUnpack(c, s);
    assert Plug(c, s) == Plug(g.up, G);
    if g.up.Frame? {
      PlugRoot(g.up, G, G');
    }
  }

  /** Black uncle, `node` a right child of a right child (rbt.py:230-232). */
  lemma InsertOuterRight(c: Ctx, s: Tree)
    requires InsertInv(c, s) && c.Frame? && c.dir == Right && c.color == Red
    requires c.up.Frame? && c.up.dir == Right && !IsRed(c.up.sib)
    ensures var g := c.up;
      InsertInv(Frame(Right, c.id, Black, c.value, Node(g.id, Red, g.value, g.sib, c.sib), g.up), s)
  {
    var g := c.up;
    var G := Join(g.dir, g.id, g.color, g.value, g.sib, Join(c.dir, c.id, Red, c.value, c.sib, s));
    var G' := Node(c.id, Black, c.value, Node(g.id, Red, g.value, g.sib, c.sib), s);
    InsertUnpack(c, s);
    assert Plug(c, s) == Plug(g.up, G);
    if g.up.Frame? {
      PlugRoot(g.up, G, G');
    }
  }

  /**
   * Black uncle, `node` a left child of a right child: the mirror image of
   * `InsertInnerLeft`, with the parent rotated right first.
   */
  lemma InsertInnerRight(c: Ctx, s: Tree)
    requires InsertInv(c, s) && c.Frame? && c.dir == Left && c.color == Red
    requires c.up.Frame? && c.up.dir == Right && !IsRed(c.up.sib)
    ensures var g := c.up;
      InsertInv(Frame(Right, s.id, Black, s.value, Node(g.id, Red, g.value, g.sib, s.left), g.up),
                Node(c.id, Red, c.value, s.right, c.sib))
  {
    var g := c.up;
    var G := Join(g.dir, g.id, g.color, g.value, g.sib, Join(c.dir, c.id, Red, c.value, c.sib, s));
    var G' := Node(s.id, Black, s.value, Node(g.id, Red, g.value, g.sib, s.left),
                   Node(c.id, Red, c.value, s.right, c.sib));
    InsertUnpack(c, s);
    assert Plug(c, s) == Plug(g.up, G);
    if g.up.Frame? {
      PlugRoot(g.up, G, G');
    }
  }

  // ---------------------------------------------------------------------
  // Removal

  /**
   * Invariant of the `_remove_fixup_` loop with `node` at the hole of `c`:
   * every path through `node` is one black node short, `node`'s subtree is
   * otherwise balanced, red-red edges may only touch `node` itself, and the
   * root is black unless `node` is the root.
   */
  predicate RemoveInv(c: Ctx, s: Tree)
  {
    Balanced(s) && CtxFits(c, BlackHeight(s) + 1) &&
    (s.Node? ==> NoRedRed(s.left) && NoRedRed(s.right)) &&
    CtxNoRedRed(c, false) && (c.Frame? ==> !IsRed(Plug(c, s)))
  }

  /**
   * What each pass of the `_remove_fixup_` loop lowers: the shortage moves up,
   * or stays at the same depth under a red parent (which ends the loop next).
   */
  function RemoveMeasure(c: Ctx, s: Tree): nat
  {
    2 * Depth(c) + (if IsRed(s) then 0 else 1)
  }

  /** The loop stops at a red `node` or at the root; painting `node` black repairs the tree. */
  lemma RemoveDone(c: Ctx, s: Tree)
    requires RemoveInv(c, s) && (c.Top? || IsRed(s))
    ensures RedBlack(Plug(c, Paint(s, Black)))
  {
    var s' := Paint(s, Black);
    PlugBalanced(c, s');
    PlugNoRedRed(c, s');
    if c.Frame? {
      PlugRoot(c, s, s');
    }
  }

  /** A black `node` that is not the root has a real sibling, one black node higher. */
  lemma RemoveUnpack(c: Ctx, s: Tree)
    requires RemoveInv(c, s) && !IsRed(s) && c.Frame?
    ensures NoRedRed(s)
    ensures c.sib.Node? && Balanced(c.sib) && BlackHeight(c.sib) == BlackHeight(s) + 1 && NoRedRed(c.sib)
    ensures CtxFits(c.up, BlackHeight(s) + 1 + (if c.color == Black then 1 else 0))
    ensures CtxNoRedRed(c.up, c.color == Red)
    ensures c.color == Red ==> !IsRed(c.sib)
  {
  }

  /**
   * Red sibling, `node` on the left (rbt.py:252-256): the sibling turns black,
   * the parent red, the parent is rotated left, and `node` gets a black sibling.
   */
  lemma RemoveSiblingRedLeft(c: Ctx, s: Tree)
    requires RemoveInv(c, s) && !IsRed(s) && c.Frame? && c.dir == Left && IsRed(c.sib)
    ensures var S := c.sib;
      RemoveInv(Frame(Left, c.id, Red, c.value, S.left,
                      Frame(Left, S.id, Black, S.value, S.right, c.up)), s) &&
      S.left.Node? && !IsRed(S.left)
  {
    RemoveUnpack(c, s);
    var S := c.sib;
    var P := Node(c.id, c.color, c.value, s, S);
    var P' := Node(S.id, Black, S.value, Node(c.id, Red, c.value, s, S.left), S.right);
    assert Plug(c, s) == Plug(c.up, P);
    assert Plug(Frame(Left, c.id, Red, c.value, S.left,
                      Frame(Left, S.id, Black, S.value, S.right, c.up)), s) == Plug(c.up, P');
    if c.up.Frame? {
      PlugRoot(c.up, P, P');
    }
  }

  /** The mirror image of `RemoveSiblingRedLeft` (rbt.py:273-277). */
  lemma RemoveSiblingRedRight(c: Ctx, s: Tree)
    requires RemoveInv(c, s) && !IsRed(s) && c.Frame? && c.dir == Right && IsRed(c.sib)
    ensures var S := c.sib;
      RemoveInv(Frame(Right, c.id, Red, c.value, S.right,
                      Frame(Right, S.id, Black, S.value, S.left, c.up)), s) &&
      S.right.Node? && !IsRed(S.right)
  {
    RemoveUnpack(c, s);
    var S := c.sib;
    var P := Node(c.id, c.color, c.value, S, s);
    var P' := Node(S.id, Black, S.value, S.left, Node(c.id, Red, c.value, S.right, s));
    assert Plug(c, s) == Plug(c.up, P);
    assert Plug(Frame(Right, c.id, Red, c.value, S.right,
                      Frame(Right, S.id, Black, S.value, S.left, c.up)), s) == Plug(c.up, P');
    if c.up.Frame? {
      PlugRoot(c.up, P, P');
    }
  }

  /**
   * Black sibling with two black children (rbt.py:257-259 and 278-280): the
   * sibling turns red and the shortage moves up to the parent.
   */
  lemma RemoveBothBlack(c: Ctx, s: Tree)
    requires RemoveInv(c, s) && !IsRed(s) && c.Frame? && c.sib.Node? && !IsRed(c.sib)
    requires !IsRed(c.sib.left) && !IsRed(c.sib.right)
    ensures RemoveInv(c.up, Join(c.dir, c.id, c.color, c.value, Paint(c.sib, Red), s))
  {
    RemoveUnpack(c, s);
    var P := Join(c.dir, c.id, c.color, c.value, c.sib, s);
    var P' := Join(c.dir, c.id, c.color, c.value, Paint(c.sib, Red), s);
    assert Plug(c, s) == Plug(c.up, P);
    if c.color == Red {
      CtxNoRedRedBlackHole(c.up);
    }
    if c.up.Frame? {
      PlugRoot(c.up, P, P');
    }
  }

  /**
   * Black sibling whose near child is red and far child black, `node` on the
   * left (rbt.py:261-265): the sibling is rotated right, so that the new
   * sibling is black with a red far child.
   */
  lemma RemoveNearRedLeft(c: Ctx, s: Tree)
    requires RemoveInv(c, s) && !IsRed(s) && c.Frame? && c.dir == Left
    requires c.sib.Node? && !IsRed(c.sib) && IsRed(c.sib.left) && !IsRed(c.sib.right)
    ensures var S := c.sib; var L := S.left;
      var S' := Node(L.id, Black, L.value, L.left, Node(S.id, Red, S.value, L.right, S.right));
      RemoveInv(Frame(Left, c.id, c.color, c.value, S', c.up), s) && IsRed(S'.right)
  {
    RemoveUnpack(c, s);
    var S := c.sib;
    var L := S.left;
    var S' := Node(L.id, Black, L.value, L.left, Node(S.id, Red, S.value, L.right, S.right));
    var P := Node(c.id, c.color, c.value, s, S);
    var P' := Node(c.id, c.color, c.value, s, S');
    assert Plug(c, s) == Plug(c.up, P);
    assert Plug(Frame(Left, c.id, c.color, c.value, S', c.up), s) == Plug(c.up, P');
    assert Balanced(L) && NoRedRed(L) && !IsRed(L.right);
    assert BlackHeight(S) == BlackHeight(L) + 1 == BlackHeight(L.left) + 1;
    assert Balanced(S');
    assert BlackHeight(S') == BlackHeight(S);
    assert NoRedRed(S');
    if c.up.Frame? {
      PlugRoot(c.up, P, P');
    }
  }

  /** The mirror image of `RemoveNearRedLeft` (rbt.py:282-286). */
  lemma RemoveNearRedRight(c: Ctx, s: Tree)
    requires RemoveInv(c, s) && !IsRed(s) && c.Frame? && c.dir == Right
    requires c.sib.Node? && !IsRed(c.sib) && IsRed(c.sib.right) && !IsRed(c.sib.left)
    ensures var S := c.sib; var R := S.right;
      var S' := Node(R.id, Black, R.value, Node(S.id, Red, S.value, S.left, R.left), R.right);
      RemoveInv(Frame(Right, c.id, c.color, c.value, S', c.up), s) && IsRed(S'.left)
  {
    RemoveUnpack(c, s);
    var S := c.sib;
    var R := S.right;
    var S' := Node(R.id, Black, R.value, Node(S.id, Red, S.value, S.left, R.left), R.right);
    var P := Node(c.id, c.color, c.value, S, s);
    var P' := Node(c.id, c.color, c.value, S', s);
    assert Plug(c, s) == Plug(c.up, P);
    assert Plug(Frame(Right, c.id, c.color, c.value, S', c.up), s) == Plug(c.up, P');
    assert Balanced(R) && NoRedRed(R) && !IsRed(R.left);
    assert BlackHeight(S) == BlackHeight(S.left) + 1 == BlackHeight(R) + 1 == BlackHeight(R.left) + 1;
    assert Balanced(S');
    assert BlackHeight(S') == BlackHeight(S);
    assert NoRedRed(S');
    if c.up.Frame? {
      PlugRoot(c.up, P, P');
    }
  }

  /**
   * Black sibling with a red far child, `node` on the left (rbt.py:266-270):
   * the sibling takes the parent's colour, parent and far child turn black and
   * the parent is rotated left. The whole tree is a red-black tree again.
   */
  lemma RemoveFarRedLeft(c: Ctx, s: Tree)
    requires RemoveInv(c, s) && !IsRed(s) && c.Frame? && c.dir == Left
    requires c.sib.Node? && !IsRed(c.sib) && IsRed(c.sib.right)
    ensures var S := c.sib;
      RedBlack(Plug(c.up, Node(S.id, c.color, S.value, Node(c.id, Black, c.value, s, S.left),
                               Paint(S.right, Black))))
  {
    RemoveUnpack(c, s);
    var S := c.sib;
    var P := Node(c.id, c.color, c.value, s, S);
    var P' := Node(S.id, c.color, S.value, Node(c.id, Black, c.value, s, S.left), Paint(S.right, Black));
    assert Plug(c, s) == Plug(c.up, P);
    PlugBalanced(c.up, P');
    PlugNoRedRed(c.up, P');
    if c.up.Frame? {
      PlugRoot(c.up, P, P');
    }
  }

  /** The mirror image of `RemoveFarRedLeft` (rbt.py:287-291). */
  lemma RemoveFarRedRight(c: Ctx, s: Tree)
    requires RemoveInv(c, s) && !IsRed(s) && c.Frame? && c.dir == Right
    requires c.sib.Node? && !IsRed(c.sib) && IsRed(c.sib.left)
    ensures var S := c.sib;
      RedBlack(Plug(c.up, Node(S.id, c.color, S.value, Paint(S.left, Black),
                               Node(c.id, Black, c.value, S.right, s))))
  {
    RemoveUnpack(c, s);
    var S := c.sib;
    var P := Node(c.id, c.color, c.value, S, s);
    var P' := Node(S.id, c.color, S.value, Paint(S.left, Black), Node(c.id, Black, c.value, S.right, s));
    assert Plug(c, s) == Plug(c.up, P);
    PlugBalanced(c.up, P');
    PlugNoRedRed(c.up, P');
    if c.up.Frame? {
      PlugRoot(c.up, P, P');
    }
  }

  /**
   * Unlinking a node with a sentinel child (rbt.py:324-329): its other child
   * takes its place. Removing a black node leaves that child one black short.
   */
  lemma RemoveBlackOneChild(cq: Ctx, Q: Tree, X: Tree)
    requires RedBlack(Plug(cq, Q)) && Q.Node? && Q.color == Black
    requires X == Q.left || X == Q.right
    ensures RemoveInv(cq, X)
  {
    PlugBalanced(cq, Q);
    PlugNoRedRed(cq, Q);
    if cq.Frame? {
      PlugRoot(cq, Q, X);
    }
    assert BlackHeight(Q) == BlackHeight(X) + 1;
  }

  /** Removing a red node with a sentinel child leaves a red-black tree. */
  lemma RemoveRedOneChild(cq: Ctx, Q: Tree, X: Tree)
    requires RedBlack(Plug(cq, Q)) && Q.Node? && Q.color == Red
    requires X == Q.left || X == Q.right
    ensures RedBlack(Plug(cq, X))
  {
    PlugBalanced(cq, Q);
    PlugNoRedRed(cq, Q);
    RedChild(Q, X);
    CtxNoRedRedBlackHole(cq);
    PlugBalanced(cq, X);
    PlugNoRedRed(cq, X);
    if cq.Frame? {
      PlugRoot(cq, Q, X);
    }
  }

  /** A child of a red node in a red-black subtree is black, with the node's black height. */
  lemma RedChild(Q: Tree, X: Tree)
    requires Q.Node? && Q.color == Red && Balanced(Q) && NoRedRed(Q)
    requires X == Q.left || X == Q.right
    ensures BlackHeight(X) == BlackHeight(Q) && Balanced(X) && NoRedRed(X) && !IsRed(X)
  {
  }

  /**
   * Unlinking a node `Q` with a sentinel child from a red-black tree in
   * search order (rbt.py:324-329): the keys stay in order with one copy of
   * `Q`'s key fewer; a black `Q` leaves its other child one black short, a
   * red one leaves a red-black tree.
   */
  lemma RemoveOne(cq: Ctx, Q: Tree, X: Tree)
    requires RedBlack(Plug(cq, Q)) && Sorted(Keys(Plug(cq, Q))) && Q.Node?
    requires (Q.left.Leaf? && X == Q.right) || (Q.right.Leaf? && X == Q.left)
    ensures Sorted(Keys(Plug(cq, X))) && multiset(Keys(Plug(cq, X))) == multiset(Keys(Plug(cq, Q))) - multiset{Q.value}
    ensures Q.color == Black ==> RemoveInv(cq, X)
    ensures Q.color == Red ==> RedBlack(Plug(cq, X))
  {
    RemoveOneKeys(cq, Q, X);
    if Q.color == Black {
      RemoveBlackOneChild(cq, Q, X);
    } else {
      RemoveRedOneChild(cq, Q, X);
    }
  }

  /**
   * Unlinking a node with two real children (rbt.py:330-346): the minimum `M`
   * of the right subtree takes the node's place and colour, and `M`'s right
   * child takes `M`'s place. Removing a black `M` leaves that child one black short.
   */
  lemma RemoveTwoChildren(cq: Ctx, Q: Tree, cm: Ctx, M: Tree)
    requires RedBlack(Plug(cq, Q)) && Q.Node? && Q.right == Plug(cm, M) && LeftSpine(cm)
    requires M.Node? && M.left.Leaf?
    ensures var nc := Append(cm, Frame(Right, M.id, Q.color, M.value, Q.left, cq));
      (M.color == Black ==> RemoveInv(nc, M.right)) &&
      (M.color == Red ==> RedBlack(Plug(nc, M.right)))
  {
    var F := Frame(Right, M.id, Q.color, M.value, Q.left, cq);
    var nc := Append(cm, F);
    var Mr := M.right;
    var N := Node(M.id, Q.color, M.value, Q.left, Plug(cm, Mr));
    PlugBalanced(cq, Q);
    PlugNoRedRed(cq, Q);
    PlugBalanced(cm, M);
    PlugNoRedRed(cm, M);
    PlugBlackHeight(cm, M);
    PlugRootRed(cm, M);
    assert BlackHeight(M) == BlackHeight(Mr) + (if M.color == Black then 1 else 0);
    assert CtxFits(F, BlackHeight(M) + CtxBlack(cm));
    CtxFitsAppend(cm, F, BlackHeight(M));
    if IsRed(M) {
      CtxNoRedRedBlackHole(cm);
    }
    assert CtxNoRedRed(F, CtxRootRed(cm, false));
    CtxNoRedRedAppend(cm, F, false);
    PlugAppend(cm, F, Mr);
    assert Plug(nc, Mr) == Plug(cq, N);
    if cq.Frame? {
      PlugRoot(cq, Q, N);
    }
    if M.color == Red {
      assert Mr.Leaf?;
      PlugBalanced(nc, Mr);
      PlugNoRedRed(nc, Mr);
    }
  }
}
