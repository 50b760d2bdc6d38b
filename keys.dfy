// Search order. The source keeps a binary search tree in which a key equal to
// a node's key is placed in its right subtree (rbt.py:87-90), so the in-order
// key sequence is sorted but may repeat keys.

module RbKeys {
  import opened RbShape

  /**
   * `v` belongs at the hole of `c` in search order: no greater key to its
   * left and only greater keys to its right.
   */
  predicate Fits(c: Ctx, v: int)
  {
    (forall i | 0 <= i < |LeftKeys(c)| :: LeftKeys(c)[i] <= v) &&
    (forall i | 0 <= i < |RightKeys(c)| :: v < RightKeys(c)[i])
  }

  /**
   * `c` is the path a search for `v` takes: at every frame the search went
   * left exactly when the frame's key is greater than `v`.
   */
  predicate SearchPath(c: Ctx, v: int)
  {
    match c
    case Top => true
    case Frame(d, _, _, w, _, up) => (d == Left <==> w > v) && SearchPath(up, v)
  }

  lemma SortedMiddle(a: seq<int>, b: seq<int>, c: seq<int>)
    requires Sorted(a + b + c)
    ensures Sorted(b)
  {
    forall i, j | 0 <= i < j < |b| ensures b[i] <= b[j] {
      assert b[i] == (a + b + c)[|a| + i] && b[j] == (a + b + c)[|a| + j];
    }
  }

  /** A sorted sequence around one element: both sides sorted, and split by it. */
  lemma SortedAround(l: seq<int>, v: int, r: seq<int>)
    requires Sorted(l + [v] + r)
    ensures Sorted(l) && Sorted(r)
    ensures forall k | k in l :: k <= v
    ensures forall k | k in r :: v <= k
  {
    var s := l + [v] + r;
    assert s[|l|] == v;
    forall i, j | 0 <= i < j < |l| ensures l[i] <= l[j] {
      assert s[i] == l[i] && s[j] == l[j];
    }
    forall i, j | 0 <= i < j < |r| ensures r[i] <= r[j] {
      assert s[|l| + 1 + i] == r[i] && s[|l| + 1 + j] == r[j];
    }
    forall k | k in l ensures k <= v {
      var i :| 0 <= i < |l| && l[i] == k;
      assert s[i] == k;
    }
    forall k | k in r ensures v <= k {
      var i :| 0 <= i < |r| && r[i] == k;
      assert s[|l| + 1 + i] == k;
    }
  }

  /** The keys of a node of a search tree: both subtrees sorted, and split by the node's key. */
  lemma SortedNode(t: Tree)
    requires t.Node? && Sorted(Keys(t))
    ensures Sorted(Keys(t.left)) && Sorted(Keys(t.right))
    ensures forall k | k in Keys(t.left) :: k <= t.value
    ensures forall k | k in Keys(t.right) :: t.value <= k
  {
    SortedAround(Keys(t.left), t.value, Keys(t.right));
  }

  /** The subtree at the hole of a sorted tree is sorted. */
  lemma SortedPlug(c: Ctx, s: Tree)
    requires Sorted(Keys(Plug(c, s)))
    ensures Sorted(Keys(s))
  {
    PlugKeys(c, s);
    SortedMiddle(LeftKeys(c), Keys(s), RightKeys(c));
  }

  /** One step of `_get_node_`: the key is in the tree iff it is on the side the search takes. */
  lemma SearchStep(t: Tree, v: int)
    requires t.Node? && Sorted(Keys(t))
    ensures Sorted(Keys(t.left)) && Sorted(Keys(t.right))
    ensures t.value > v ==> (v in Keys(t) <==> v in Keys(t.left))
    ensures t.value < v ==> (v in Keys(t) <==> v in Keys(t.right))
  {
    SortedNode(t);
  }

  /** One step of `_get_node_parent_`: going left of a greater key, right otherwise, keeps the fit. */
  lemma FitsStep(c: Ctx, t: Tree, v: int)
    requires t.Node? && Sorted(Keys(t)) && Fits(c, v)
    ensures t.value > v ==> Fits(Frame(Left, t.id, t.color, t.value, t.right, c), v)
    ensures t.value <= v ==> Fits(Frame(Right, t.id, t.color, t.value, t.left, c), v)
  {
    SortedNode(t);
    var rk := [t.value] + Keys(t.right) + RightKeys(c);
    var lk := LeftKeys(c) + Keys(t.left) + [t.value];
    if t.value > v {
      forall i | 0 <= i < |rk| ensures v < rk[i] {
        if 0 < i <= |Keys(t.right)| {
          assert rk[i] in Keys(t.right);
        }
      }
    } else {
      forall i | 0 <= i < |lk| ensures lk[i] <= v {
        if |LeftKeys(c)| <= i < |LeftKeys(c)| + |Keys(t.left)| {
          assert lk[i] in Keys(t.left);
        }
      }
    }
  }

  /** Putting a key between the keys not greater and the keys greater keeps a sequence sorted. */
  lemma InsertSortedSeq(a: seq<int>, v: int, b: seq<int>)
    requires Sorted(a + b)
    requires forall i | 0 <= i < |a| :: a[i] <= v
    requires forall i | 0 <= i < |b| :: v < b[i]
    ensures Sorted(a + [v] + b)
  {
    var s := a + [v] + b;
    forall i, j | 0 <= i < j < |s| ensures s[i] <= s[j] {
      if j < |a| {
        assert s[i] == (a + b)[i] && s[j] == (a + b)[j];
      } else if |a| < i {
        assert s[i] == (a + b)[i - 1] && s[j] == (a + b)[j - 1];
      } else if i == |a| {
        assert s[j] == b[j - |a| - 1];
      } else if j == |a| {
        assert s[i] == a[i];
      } else {
        assert s[i] == a[i];
        assert s[j] == b[j - |a| - 1];
      }
    }
  }

  /** One element more in the middle of a sequence: its multiset gains that element (kept apart for the same reason as `Regroup`). */
  lemma InsertMultiset(a: seq<int>, v: int, b: seq<int>)
    ensures multiset(a + [v] + b) == multiset(a + b) + multiset{v}
  {
    calc {
      multiset(a + [v] + b);
      multiset(a) + multiset{v} + multiset(b);
      multiset(a + b) + multiset{v};
    }
  }

  /** Putting a key where it fits keeps the key sequence sorted (the `insert` of a search tree). */
  lemma InsertSorted(c: Ctx, l: Tree, n: Tree)
    requires n.Node? && n.left.Leaf? && n.right.Leaf?
    requires Sorted(Keys(Plug(c, l))) && l.Leaf? && Fits(c, n.value)
    ensures Sorted(Keys(Plug(c, n)))
  {
    PlugKeys(c, l);
    PlugKeys(c, n);
    var a, v, b := LeftKeys(c), n.value, RightKeys(c);
    assert Keys(n) == [v];
    assert Keys(Plug(c, l)) == a + b;
    assert Keys(Plug(c, n)) == a + [v] + b;
    InsertSortedSeq(a, v, b);
  }

  /** A new node in place of a sentinel adds its key to the tree's keys. */
  lemma InsertKeys(c: Ctx, l: Tree, n: Tree)
    requires n.Node? && n.left.Leaf? && n.right.Leaf? && l.Leaf?
    ensures multiset(Keys(Plug(c, n))) == multiset(Keys(Plug(c, l))) + multiset{n.value}
  {
    PlugKeys(c, l);
    PlugKeys(c, n);
    var a, v, b := LeftKeys(c), n.value, RightKeys(c);
    assert Keys(n) == [v];
    InsertMultiset(a, v, b);
  }

  /** Taking one key out of a sorted sequence leaves it sorted, with one copy of the key fewer. */
  lemma DeleteSorted(a: seq<int>, v: int, b: seq<int>)
    requires Sorted(a + [v] + b)
    ensures Sorted(a + b)
    ensures multiset(a + b) == multiset(a + [v] + b) - multiset{v}
  {
    var s := a + [v] + b;
    forall i, j | 0 <= i < j < |a + b| ensures (a + b)[i] <= (a + b)[j] {
      var i' := if i < |a| then i else i + 1;
      var j' := if j < |a| then j else j + 1;
      assert (a + b)[i] == s[i'] && (a + b)[j] == s[j'];
    }
    assert s == a + ([v] + b);
  }

  lemma {:induction false} LeftSpineKeys(c: Ctx)
    requires LeftSpine(c)
    ensures LeftKeys(c) == []
  {
    if c.Frame? {
      LeftSpineKeys(c.up);
    }
  }

  /**
   * At the end of a path that only goes left, above a node whose left child is
   * a sentinel, sits the first key of the subtree.
   */
  lemma LeftmostKeys(c: Ctx, m: Tree)
    requires LeftSpine(c) && m.Node? && m.left.Leaf?
    ensures Keys(Plug(c, m)) == [m.value] + Keys(Plug(c, m.right))
  {
    LeftSpineKeys(c);
    PlugKeys(c, m);
    PlugKeys(c, m.right);
  }

  /** ... and in search order it is the least key of the subtree. */
  lemma LeftmostIsMinimum(c: Ctx, m: Tree)
    requires LeftSpine(c) && m.Node? && m.left.Leaf? && Sorted(Keys(Plug(c, m)))
    ensures forall k | k in Keys(Plug(c, m)) :: m.value <= k
  {
    LeftmostKeys(c, m);
    var s := Keys(Plug(c, m));
    forall k | k in s ensures m.value <= k {
      var i :| 0 <= i < |s| && s[i] == k;
      if i > 0 {
        assert s[0] <= s[i];
      }
    }
  }

  /** The key sequences around a node with a sentinel child, before and after it is cut out. */
  lemma RemoveOneSplit(cq: Ctx, Q: Tree, X: Tree) returns (a: seq<int>, b: seq<int>)
    requires Q.Node? && ((Q.left.Leaf? && X == Q.right) || (Q.right.Leaf? && X == Q.left))
    ensures Keys(Plug(cq, Q)) == a + [Q.value] + b && Keys(Plug(cq, X)) == a + b
  {
    PlugKeys(cq, Q);
    PlugKeys(cq, X);
    var lk, rk := LeftKeys(cq), RightKeys(cq);
    var l, r := Keys(Q.left), Keys(Q.right);
    Regroup(lk, l, [Q.value], r, rk);
    a, b := lk + l, r + rk;
    assert Keys(X) == l + r;
    assert lk + (l + r) + rk == a + b;
  }

  /**
   * Removing a node with a sentinel child (rbt.py:324-329): the other child
   * takes its place, and the keys stay in order, one copy of the node's key fewer.
   */
  lemma RemoveOneKeys(cq: Ctx, Q: Tree, X: Tree)
    requires Q.Node? && Sorted(Keys(Plug(cq, Q)))
    requires (Q.left.Leaf? && X == Q.right) || (Q.right.Leaf? && X == Q.left)
    ensures Sorted(Keys(Plug(cq, X)))
    ensures multiset(Keys(Plug(cq, X))) == multiset(Keys(Plug(cq, Q))) - multiset{Q.value}
  {
    var a, b := RemoveOneSplit(cq, Q, X);
    DeleteSorted(a, Q.value, b);
  }

  /** The key sequences around a node with two real children, before and after the minimum of its right subtree takes its place. */
  lemma RemoveTwoSplit(cq: Ctx, Q: Tree, cm: Ctx, M: Tree, col: Color) returns (a: seq<int>, b: seq<int>)
    requires Q.Node? && Q.right == Plug(cm, M) && LeftSpine(cm) && M.Node? && M.left.Leaf?
    ensures Keys(Plug(cq, Q)) == a + [Q.value] + b
    ensures Keys(Plug(cq, Node(M.id, col, M.value, Q.left, Plug(cm, M.right)))) == a + b
  {
    var N := Node(M.id, col, M.value, Q.left, Plug(cm, M.right));
    PlugKeys(cq, Q);
    PlugKeys(cq, N);
    LeftmostKeys(cm, M);
    var lk, l, r, rk := LeftKeys(cq), Keys(Q.left), Keys(Plug(cm, M.right)), RightKeys(cq);
    assert Keys(Q) == l + [Q.value] + ([M.value] + r);
    assert Keys(N) == l + [M.value] + r;
    a, b := lk + l, [M.value] + r + rk;
    Regroup(lk, l, [Q.value], [M.value] + r, rk);
    Regroup(lk, l, [M.value], r, rk);
  }

  /**
   * Regrouping five concatenated pieces. Stated on its own so that the
   * proofs that use it get the regrouping as one fact: asserted in place,
   * the same equations cost those proofs several times as much to verify.
   */
  lemma Regroup(lk: seq<int>, l: seq<int>, x: seq<int>, r: seq<int>, rk: seq<int>)
    ensures lk + (l + x + r) + rk == (lk + l) + x + (r + rk)
  {
  }

  /**
   * Removing a node with two real children (rbt.py:330-346): the least key
   * `M` of its right subtree takes its place, and the keys stay in order,
   * one copy of the node's key fewer, whatever colour the node gets.
   */
  lemma RemoveTwoKeys(cq: Ctx, Q: Tree, cm: Ctx, M: Tree, col: Color)
    requires Q.Node? && Q.right == Plug(cm, M) && LeftSpine(cm) && M.Node? && M.left.Leaf?
    requires Sorted(Keys(Plug(cq, Q)))
    ensures var N := Node(M.id, col, M.value, Q.left, Plug(cm, M.right));
      Sorted(Keys(Plug(cq, N))) &&
      multiset(Keys(Plug(cq, N))) == multiset(Keys(Plug(cq, Q))) - multiset{Q.value}
  {
    var a, b := RemoveTwoSplit(cq, Q, cm, M, col);
    DeleteSorted(a, Q.value, b);
  }
}
