// The right-hand black-uncle case of `_insert_fixup_` as rbt.py:226-232
// writes it. When `node` is the left child of a red right child, line 229
// rotates the grandparent right where the mirror of line 215 rotates the
// parent. The grandparent's left child is then the uncle, which may be a
// sentinel, and the sentinel ends up as the root.
// RbTree.Rbtree.RotateRightParent is the corrected step the model uses.

module RbFinding {
  import opened RbShape
  import opened RbArena
  import opened RbPointer

  /** A step of the fix-up: it dereferences a `None` link, or gives the new arena and `node`. */
  datatype Outcome = Raises | Step(heap: Heap, node: nat)

  /**
   * The arena after `insert(1)` and `insert(3)` on a new tree, with the red
   * node for `insert(2)` (record 7) hung below 3, before `_insert_fixup_`.
   * Records 0 and 3 are the sentinels that `1` and `3` replaced.
   */
  function Hung132(): Heap
  {
    var s := NodePre(Nil, Nil, Nil, Black, 0, true);
    Heap([s,
          NodePre(Nil, Ref(2), Ref(4), Black, 1, false),
          s.(parent := Ref(1)),
          s.(parent := Ref(1)),
          NodePre(Ref(1), Ref(7), Ref(6), Red, 3, false),
          s.(parent := Ref(4)),
          s.(parent := Ref(4)),
          NodePre(Ref(4), Ref(8), Ref(9), Red, 2, false),
          s.(parent := Ref(7)),
          s.(parent := Ref(7))], 1)
  }

  /** `Hung132` is the tree 1(sentinel, 3(2, sentinel)) with 3 and 2 red. */
  lemma Hung132Represents()
    ensures Represents(Hung132(), Node(1, Black, 1, Leaf(2), Node(4, Red, 3, Node(7, Red, 2, Leaf(8), Leaf(9)), Leaf(6))))
  {
    var ns := Hung132().nodes;
    assert Matches(ns, Leaf(8), Ref(7)) && Matches(ns, Leaf(9), Ref(7));
    assert Matches(ns, Node(7, Red, 2, Leaf(8), Leaf(9)), Ref(4));
    assert Matches(ns, Leaf(6), Ref(4)) && Matches(ns, Leaf(2), Ref(1));
    assert Matches(ns, Node(4, Red, 3, Node(7, Red, 2, Leaf(8), Leaf(9)), Leaf(6)), Ref(1));
  }

  /**
   * rbt.py:226-232 as written, in the branch where `node` is its parent's
   * left child: `node` moves up to its parent, the grandparent `g` is rotated
   * right, `node`'s parent is painted black, `g` red, and `g` is rotated left.
   */
  function RightInnerAsWritten(h: Heap, n: nat): (r: Outcome)
    requires ArenaOk(h.nodes) && n < |h.nodes|
    ensures r.Step? ==> ArenaOk(r.heap.nodes) && |r.heap.nodes| == |h.nodes| && h.nodes[n].parent == Ref(r.node)
  {
    var ns := h.nodes;
    if ns[n].parent.Nil? || ns[ns[n].parent.id].parent.Nil? then Raises
    else
      var p := ns[n].parent.id;
      var g := ns[p].parent.id;
      if ns[g].left.Nil? then Raises
      else
        var h1 := RightRotated(h, g);
        if h1.nodes[p].parent.Nil? then Raises
        else
          var ns3 := SetColor(SetColor(h1.nodes, h1.nodes[p].parent.id, Black), g, Red);
          if ns3[g].right.Nil? then Raises
          else Step(LeftRotated(Heap(ns3, h1.root), g), p)
  }

  /**
   * The same branch with the parent rotated right (the mirror of
   * rbt.py:213-215), as in RbTree.Rbtree.RotateRightParent.
   */
  function RightInnerCorrected(h: Heap, n: nat): (r: Outcome)
    requires ArenaOk(h.nodes) && n < |h.nodes|
    ensures r.Step? ==> ArenaOk(r.heap.nodes) && |r.heap.nodes| == |h.nodes| && h.nodes[n].parent == Ref(r.node)
  {
    var ns := h.nodes;
    if ns[n].parent.Nil? || ns[ns[n].parent.id].parent.Nil? then Raises
    else
      var p := ns[n].parent.id;
      var g := ns[p].parent.id;
      if ns[p].left.Nil? then Raises
      else
        var h1 := RightRotated(h, p);
        if h1.nodes[p].parent.Nil? then Raises
        else
          var ns3 := SetColor(SetColor(h1.nodes, h1.nodes[p].parent.id, Black), g, Red);
          if ns3[g].right.Nil? then Raises
          else Step(LeftRotated(Heap(ns3, h1.root), g), p)
  }

  /**
   * Inserting 1, 3, 2: record 7 is in the branch above. Its parent 4 is red
   * and the right child of 1, 7 is 4's left child, and the uncle 2 is a
   * black sentinel. As written, the step makes the sentinel 2 the
   * root; `node`'s new parent is that black sentinel, so the loop stops, and
   * the arena no longer represents any tree.
   */
  lemma SentinelBecomesRoot()
    ensures var h := Hung132();
      h.nodes[7].parent == Ref(4) && h.nodes[4].left == Ref(7) && IsRedAt(h.nodes, 4) &&
      h.nodes[4].parent == Ref(1) && h.nodes[1].right == Ref(4) &&
      Uncle(h.nodes, 7) == Ref(2) && !IsRedAt(h.nodes, 2)
    ensures var r := RightInnerAsWritten(Hung132(), 7);
      r.Step? && r.node == 4 && r.heap.root == 2 && r.heap.nodes[2].isNull &&
      r.heap.nodes[4].parent == Ref(2) && !IsRedAt(r.heap.nodes, 2) &&
      forall t :: !Represents(r.heap, t)
  {
    var r := RightInnerAsWritten(Hung132(), 7);
    assert r.heap.nodes[2].right == Ref(4);
  }

  /** Rotating `g` right over a sentinel left child `u`: the records of `g`, `u` and `g`'s parent. */
  lemma RightRotatedOverSentinel(h: Heap, g: nat, u: nat)
    requires ArenaOk(h.nodes) && g < |h.nodes| && u < |h.nodes| && g != u
    requires h.nodes[g].left == Ref(u) && h.nodes[u].left == Nil && h.nodes[u].right == Nil
    requires h.nodes[g].parent.Ref? ==> h.nodes[g].parent.id !in {g, u}
    ensures var ns, r := h.nodes, RightRotated(h, g);
      r.nodes[g] == ns[g].(left := Nil, parent := Ref(u)) &&
      r.nodes[u] == ns[u].(parent := ns[g].parent, right := Ref(g)) &&
      r.root == (if ns[g].parent.Nil? then u else h.root) &&
      (ns[g].parent.Ref? ==> r.nodes[ns[g].parent.id] == Relink(ns, ns[g].parent.id, g, u)[ns[g].parent.id])
  {
  }

  /** A root that is a sentinel with a child is the root of no tree. */
  lemma SentinelWithChild(h: Heap)
    requires h.root < |h.nodes| && h.nodes[h.root].isNull && h.nodes[h.root].right.Ref?
    ensures forall t :: !Represents(h, t)
  {
  }

  /**
   * The first half of the step as written when the uncle `u` is a sentinel:
   * `g` rotated right over `u`, then `g` painted black and red again. The
   * records of `g`, `u` and `g`'s parent, and the root.
   */
  lemma RecoloredOverSentinel(h: Heap, n: nat, p: nat, g: nat, u: nat) returns (h3: Heap)
    requires ArenaOk(h.nodes) && n < |h.nodes| && p < |h.nodes| && g < |h.nodes| && u < |h.nodes|
    requires n != p && n != g && n != u && p != g && p != u && g != u
    requires h.nodes[n].parent == Ref(p)
    requires h.nodes[p].parent == Ref(g) && h.nodes[g].right == Ref(p) && h.nodes[g].left == Ref(u)
    requires h.nodes[u].left == Nil && h.nodes[u].right == Nil
    requires h.nodes[g].parent.Ref? ==> h.nodes[g].parent.id !in {n, p, g, u}
    ensures ArenaOk(h3.nodes) && |h3.nodes| == |h.nodes| && h3.nodes[g].right.Ref?
    ensures RightInnerAsWritten(h, n) == Step(LeftRotated(h3, g), p)
    ensures h3.nodes[g] == h.nodes[g].(left := Nil, parent := Ref(u), color := Red)
    ensures h3.nodes[u] == h.nodes[u].(parent := h.nodes[g].parent, right := Ref(g))
    ensures h3.nodes[p] == h.nodes[p] && h3.nodes[n] == h.nodes[n]
    ensures h3.root == if h.nodes[g].parent.Nil? then u else h.root
    ensures var gp := h.nodes[g].parent;
      gp.Ref? ==> h3.nodes[gp.id] == Relink(h.nodes, gp.id, g, u)[gp.id]
  {
    var h1 := RightRotated(h, g);
    RightRotatedOverSentinel(h, g, u);
    assert h1.nodes[p] == h.nodes[p] && h1.nodes[n] == h.nodes[n];
    h3 := Heap(SetColor(SetColor(h1.nodes, g, Black), g, Red), h1.root);
  }

  /** The arena the step as written gives when the uncle `u` is a sentinel: the records of `u`, `p` and `g`'s parent. */
  lemma AsWrittenOverSentinel(h: Heap, n: nat, p: nat, g: nat, u: nat) returns (r: Heap)
    requires ArenaOk(h.nodes) && n < |h.nodes| && p < |h.nodes| && g < |h.nodes| && u < |h.nodes|
    requires n != p && n != g && n != u && p != g && p != u && g != u
    requires h.nodes[n].parent == Ref(p) && h.nodes[p].left == Ref(n)
    requires h.nodes[p].parent == Ref(g) && h.nodes[g].right == Ref(p) && h.nodes[g].left == Ref(u)
    requires h.nodes[u].left == Nil && h.nodes[u].right == Nil
    requires h.nodes[g].parent.Ref? ==> h.nodes[g].parent.id !in {n, p, g, u}
    ensures RightInnerAsWritten(h, n) == Step(r, p)
    ensures |r.nodes| == |h.nodes|
    ensures r.nodes[u] == h.nodes[u].(parent := h.nodes[g].parent, right := Ref(p))
    ensures r.nodes[p].parent == Ref(u)
    ensures r.root == if h.nodes[g].parent.Nil? then u else h.root
    ensures var gp := h.nodes[g].parent;
      gp.Ref? ==> r.nodes[gp.id] == Relink(h.nodes, gp.id, g, u)[gp.id]
  {
    var h3 := RecoloredOverSentinel(h, n, p, g, u);
    LeftRotatedRecords(h3, g, p, n);
    r := LeftRotated(h3, g);
  }

  /**
   * The defect for every arena in that branch: when the uncle `u` (the
   * grandparent's left child) is a sentinel, the step as written hangs the
   * red parent `p` below that sentinel, and the sentinel takes the
   * grandparent's place. When the grandparent was the root, the sentinel
   * becomes the root and the arena represents no tree.
   */
  lemma SentinelUncleRises(h: Heap, n: nat, p: nat, g: nat, u: nat)
    requires ArenaOk(h.nodes) && n < |h.nodes| && p < |h.nodes| && g < |h.nodes| && u < |h.nodes|
    requires n != p && n != g && n != u && p != g && p != u && g != u
    requires h.nodes[n].parent == Ref(p) && h.nodes[p].left == Ref(n)
    requires h.nodes[p].parent == Ref(g) && h.nodes[g].right == Ref(p) && h.nodes[g].left == Ref(u)
    requires h.nodes[u] == NodePre(Ref(g), Nil, Nil, Black, h.nodes[u].value, true)
    requires h.nodes[g].parent.Ref? ==> h.nodes[g].parent.id !in {n, p, g, u}
    ensures Uncle(h.nodes, n) == Ref(u)
    ensures var r := RightInnerAsWritten(h, n);
      r.Step? && r.node == p &&
      r.heap.nodes[u].isNull && r.heap.nodes[u].right == Ref(p) && r.heap.nodes[p].parent == Ref(u)
    ensures var r, gp := RightInnerAsWritten(h, n), h.nodes[g].parent;
      gp.Ref? ==> r.heap.nodes[gp.id].left == Ref(u) || r.heap.nodes[gp.id].right == Ref(u)
    ensures var r := RightInnerAsWritten(h, n);
      h.nodes[g].parent.Nil? ==> r.heap.root == u && forall t :: !Represents(r.heap, t)
  {
    var r := AsWrittenOverSentinel(h, n, p, g, u);
    if h.nodes[g].parent.Nil? {
      SentinelWithChild(r);
    }
  }

  /** The arena of `Hung132` after the parent 4 is rotated right: 7 sits between 1 and 4. */
  function Rotated132(): Heap
  {
    var s := NodePre(Nil, Nil, Nil, Black, 0, true);
    Heap([s,
          NodePre(Nil, Ref(2), Ref(7), Black, 1, false),
          s.(parent := Ref(1)),
          s.(parent := Ref(1)),
          NodePre(Ref(7), Ref(9), Ref(6), Red, 3, false),
          s.(parent := Ref(4)),
          s.(parent := Ref(4)),
          NodePre(Ref(1), Ref(8), Ref(4), Red, 2, false),
          s.(parent := Ref(7)),
          s.(parent := Ref(4))], 1)
  }

  /** The arena after the whole corrected step: 7 is the black root over the red 1 and 4. */
  function Fixed132(): Heap
  {
    var s := NodePre(Nil, Nil, Nil, Black, 0, true);
    Heap([s,
          NodePre(Ref(7), Ref(2), Ref(8), Red, 1, false),
          s.(parent := Ref(1)),
          s.(parent := Ref(1)),
          NodePre(Ref(7), Ref(9), Ref(6), Red, 3, false),
          s.(parent := Ref(4)),
          s.(parent := Ref(4)),
          NodePre(Nil, Ref(1), Ref(4), Black, 2, false),
          s.(parent := Ref(1)),
          s.(parent := Ref(4))], 7)
  }

  lemma RightRotated132()
    ensures RightRotated(Hung132(), 4) == Rotated132()
  {
    var r := RightRotated(Hung132(), 4);
    assert r.nodes[1] == Rotated132().nodes[1];
    assert r.nodes[4] == Rotated132().nodes[4];
    assert r.nodes[7] == Rotated132().nodes[7];
    assert r.nodes[9] == Rotated132().nodes[9];
    assert r.nodes == Rotated132().nodes;
  }

  lemma LeftRotated132()
    ensures LeftRotated(Heap(SetColor(SetColor(Rotated132().nodes, 7, Black), 1, Red), 1), 1) == Fixed132()
  {
    var r := LeftRotated(Heap(SetColor(SetColor(Rotated132().nodes, 7, Black), 1, Red), 1), 1);
    assert r.nodes[1] == Fixed132().nodes[1];
    assert r.nodes[7] == Fixed132().nodes[7];
    assert r.nodes[8] == Fixed132().nodes[8];
    assert r.nodes == Fixed132().nodes;
  }

  lemma Fixed132Represents()
    ensures Represents(Fixed132(), Node(7, Black, 2, Node(1, Red, 1, Leaf(2), Leaf(8)), Node(4, Red, 3, Leaf(9), Leaf(6))))
  {
    var ns := Fixed132().nodes;
    assert Matches(ns, Leaf(2), Ref(1)) && Matches(ns, Leaf(8), Ref(1));
    assert Matches(ns, Leaf(9), Ref(4)) && Matches(ns, Leaf(6), Ref(4));
    assert Matches(ns, Node(1, Red, 1, Leaf(2), Leaf(8)), Ref(7));
    assert Matches(ns, Node(4, Red, 3, Leaf(9), Leaf(6)), Ref(7));
  }

  /** The corrected step on `Hung132` ends at `Fixed132` with `node` at 4. */
  lemma CorrectedStep()
    ensures RightInnerCorrected(Hung132(), 7) == Step(Fixed132(), 4)
  {
    var h := Hung132();
    assert h.nodes[7].parent == Ref(4) && h.nodes[4].parent == Ref(1) && h.nodes[4].left == Ref(7);
    RightRotated132();
    assert Rotated132().nodes[4].parent == Ref(7);
    LeftRotated132();
  }

  /** The tree `Fixed132` represents: balanced, no red under red, keys 1, 2, 3. */
  lemma Fixed132Tree()
    ensures var t := Node(7, Black, 2, Node(1, Red, 1, Leaf(2), Leaf(8)), Node(4, Red, 3, Leaf(9), Leaf(6)));
      RedBlack(t) && Keys(t) == [1, 2, 3]
  {
    var t := Node(7, Black, 2, Node(1, Red, 1, Leaf(2), Leaf(8)), Node(4, Red, 3, Leaf(9), Leaf(6)));
    assert Keys(t.left) == [1] && Keys(t.right) == [3];
  }

  /**
   * On the same arena the corrected step puts 2 at the top with 1 and 3 as
   * its red children: a red-black tree with the keys 1, 2, 3 in order.
   */
  lemma CorrectedOnExample()
    ensures var r := RightInnerCorrected(Hung132(), 7);
      var t := Node(7, Black, 2, Node(1, Red, 1, Leaf(2), Leaf(8)), Node(4, Red, 3, Leaf(9), Leaf(6)));
      r.Step? && r.node == 4 && Represents(r.heap, t) && RedBlack(t) && Keys(t) == [1, 2, 3]
  {
    CorrectedStep();
    Fixed132Represents();
    Fixed132Tree();
  }
}
