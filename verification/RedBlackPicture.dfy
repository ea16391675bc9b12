/** Reading a red-black tree, as a tree, off the cells of its nodes. */
module RedBlackPicture {
  import opened RedBlackShape
  import opened RedBlackState

  /** The subtree at position k; es lists keys and values in order. */
  ghost function Shape<K, V>(s: State, es: seq<(K, V)>, k: int): Tree<K, V>
    requires s.Linked() && |es| == |s.cells| && (k == NONE || s.In(k))
    decreases if k == NONE then 0 else s.cells[k].hi - s.cells[k].lo
  {
    if k == NONE then Nil
    else
      assert s.LinkedAt(k);
      Bin(s.cells[k].color, Shape(s, es, s.cells[k].left), es[k].0, es[k].1, Shape(s, es, s.cells[k].right))
  }

  /** An in-order walk of the subtree meets exactly the entries of its interval, in order. */
  lemma {:induction false} ShapeInOrder<K, V>(s: State, es: seq<(K, V)>, k: int)
    requires s.Linked() && |es| == |s.cells| && s.In(k)
    ensures s.LinkedAt(k) && InOrder(Shape(s, es, k)) == es[s.cells[k].lo..s.cells[k].hi]
    decreases s.cells[k].hi - s.cells[k].lo
  {
    assert s.LinkedAt(k);
    var c := s.cells[k];
    if c.left != NONE {
      ShapeInOrder(s, es, c.left);
    }
    if c.right != NONE {
      ShapeInOrder(s, es, c.right);
    }
    assert InOrder(Shape(s, es, c.left)) == es[c.lo..k];
    assert InOrder(Shape(s, es, c.right)) == es[k + 1..c.hi];
    SliceAround(es, c.lo, k, c.hi);
  }

  lemma SliceAround<K, V>(es: seq<(K, V)>, lo: int, k: int, hi: int)
    requires 0 <= lo <= k < hi <= |es|
    ensures es[lo..k] + [(es[k].0, es[k].1)] + es[k + 1..hi] == es[lo..hi]
  {
  }

  lemma {:induction false} ShapeNoRedRed<K, V>(s: State, es: seq<(K, V)>, k: int)
    requires s.Linked() && |es| == |s.cells| && s.In(k) && s.RedOkBut(NONE)
    ensures NoRedRed(Shape(s, es, k)) && IsRed(Shape(s, es, k)) == s.RedAt(k)
    decreases s.cells[k].hi - s.cells[k].lo
  {
    assert s.LinkedAt(k);
    var c := s.cells[k];
    if c.left != NONE {
      ShapeNoRedRed(s, es, c.left);
      assert s.RedOkAt(c.left);
    }
    if c.right != NONE {
      ShapeNoRedRed(s, es, c.right);
      assert s.RedOkAt(c.right);
    }
  }

  lemma {:induction false} ShapeBalanced<K, V>(s: State, es: seq<(K, V)>, k: int)
    requires s.Linked() && |es| == |s.cells| && s.In(k)
    requires forall n {:trigger s.BalancedAt(n, NONE)} :: s.cells[k].lo <= n < s.cells[k].hi && s.In(n) ==> s.BalancedAt(n, NONE)
    ensures Balanced(Shape(s, es, k)) && BlackHeight(Shape(s, es, k)) == s.cells[k].bh
    decreases s.cells[k].hi - s.cells[k].lo
  {
    assert s.LinkedAt(k) && s.BalancedAt(k, NONE);
    var c := s.cells[k];
    if c.left != NONE {
      ShapeBalanced(s, es, c.left);
    }
    if c.right != NONE {
      ShapeBalanced(s, es, c.right);
    }
  }

  lemma {:induction false} ShapeIgnoresHeights<K, V>(s: State, t: State, es: seq<(K, V)>, k: int)
    requires s.Linked() && t.Linked() && |es| == |s.cells| == |t.cells| && (k == NONE || s.In(k))
    requires forall n {:trigger t.cells[n]} :: s.In(n) ==> t.cells[n] == s.cells[n].(bh := t.cells[n].bh)
    ensures Shape(s, es, k) == Shape(t, es, k)
    decreases if k == NONE then 0 else s.cells[k].hi - s.cells[k].lo
  {
    if k != NONE {
      assert s.LinkedAt(k);
      ShapeIgnoresHeights(s, t, es, s.cells[k].left);
      ShapeIgnoresHeights(s, t, es, s.cells[k].right);
    }
  }

  /** Searching the tree leads to the node with the key. */
  lemma {:induction false} ShapeFind<K(!new), V>(lt: (K, K) -> bool, s: State, es: seq<(K, V)>, n: int, i: int)
    requires s.Linked() && |es| == |s.cells| && s.In(n) && s.In(i) && s.cells[n].lo <= i < s.cells[n].hi
    requires StrictTotalOrder(lt) && Ascending(lt, es)
    ensures Find(lt, Shape(s, es, n), es[i].0) == Shape(s, es, i)
    decreases s.cells[n].hi - s.cells[n].lo
  {
    assert s.LinkedAt(n);
    if i < n {
      ShapeFind(lt, s, es, s.cells[n].left, i);
    } else if n < i {
      ShapeFind(lt, s, es, s.cells[n].right, i);
    }
  }

  lemma {:induction false} ShapeFindNone<K(!new), V>(lt: (K, K) -> bool, s: State, es: seq<(K, V)>, n: int, key: K)
    requires s.Linked() && |es| == |s.cells| && (n == NONE || s.In(n))
    requires forall i {:trigger es[i]} :: 0 <= i < |es| ==> es[i].0 != key
    ensures Find(lt, Shape(s, es, n), key) == Nil
    decreases if n == NONE then 0 else s.cells[n].hi - s.cells[n].lo
  {
    if n != NONE {
      assert s.LinkedAt(n) && es[n].0 != key;
      ShapeFindNone(lt, s, es, s.cells[n].left, key);
      ShapeFindNone(lt, s, es, s.cells[n].right, key);
    }
  }

  /** The least key of a subtree is the first of its interval. */
  lemma {:induction false} ShapeLeast<K, V>(s: State, es: seq<(K, V)>, n: int)
    requires s.Linked() && |es| == |s.cells| && s.In(n)
    ensures s.LinkedAt(n) && s.In(s.cells[n].lo) && Least(Shape(s, es, n)) == Shape(s, es, s.cells[n].lo)
    decreases s.cells[n].hi - s.cells[n].lo
  {
    assert s.LinkedAt(n);
    if s.cells[n].left != NONE {
      ShapeLeast(s, es, s.cells[n].left);
    }
  }

  /** What deleting the entry at i would take, read off the tree. */
  lemma ShapeTakes<K(!new), V>(lt: (K, K) -> bool, s: State, es: seq<(K, V)>, i: int)
    requires s.Linked() && |es| == |s.cells| && s.In(i) && s.In(s.root)
    requires StrictTotalOrder(lt) && Ascending(lt, es)
    ensures TakesBlackLeaf(lt, Shape(s, es, s.root), es[i].0) == s.BlackLeaf(s.EmptiedBy(i))
  {
    assert s.LinkedAt(s.root) && s.LinkedAt(i);
    ShapeFind(lt, s, es, s.root, i);
    var n, e := Find(lt, Shape(s, es, s.root), es[i].0), s.EmptiedBy(i);
    ShapeEmptied(s, es, i);
    assert Shape(s, es, e) == if n.left.Bin? && n.right.Bin? then Least(n.right) else n;
    ShapeChildless(s, es, e);
    ShapeChildless(s, es, s.root);
    if Childless(Shape(s, es, s.root)) {
      assert s.cells[s.root].lo == s.root && s.cells[s.root].hi == s.root + 1;
    }
  }

  /** The position that is emptied is the node's own, or the least on its right. */
  lemma ShapeEmptied<K, V>(s: State, es: seq<(K, V)>, i: int)
    requires s.Linked() && |es| == |s.cells| && s.In(i)
    ensures var n, e := Shape(s, es, i), s.EmptiedBy(i);
            s.In(e) && n.Bin? && Shape(s, es, e) == if n.left.Bin? && n.right.Bin? then Least(n.right) else n
  {
    assert s.LinkedAt(i);
    if s.EmptiedBy(i) != i {
      ShapeLeast(s, es, s.cells[i].right);
    }
  }

  lemma ShapeChildless<K, V>(s: State, es: seq<(K, V)>, n: int)
    requires s.Linked() && |es| == |s.cells| && s.In(n)
    ensures Childless(Shape(s, es, n)) <==> s.cells[n].left == NONE && s.cells[n].right == NONE
    ensures IsRed(Shape(s, es, n)) == s.RedAt(n)
  {
    assert s.LinkedAt(n);
  }

  /** Balance of the whole tree is balance of every subtree. */
  lemma {:induction false} SubtreeBalanced<K, V>(s: State, es: seq<(K, V)>, k: int)
    requires s.Linked() && |es| == |s.cells| && s.In(k) && s.In(s.root)
    requires Balanced(Shape(s, es, s.root))
    ensures Balanced(Shape(s, es, k))
    decreases |s.cells| - (s.cells[k].hi - s.cells[k].lo)
  {
    assert s.LinkedAt(k);
    if s.cells[k].parent != NONE {
      assert s.LinkedAt(s.cells[k].parent);
      SubtreeBalanced(s, es, s.cells[k].parent);
    }
  }

  /** The same tree with the black heights read off its shape. */
  ghost function WithHeights<K, V>(s: State, es: seq<(K, V)>): State
    requires s.Linked() && |es| == |s.cells|
  {
    s.(cells := seq(|s.cells|, n requires 0 <= n < |s.cells| =>
                      s.cells[n].(bh := BlackHeight(Shape(s, es, n)))))
  }

  lemma WithHeightsLinked<K, V>(s: State, es: seq<(K, V)>)
    requires s.Linked() && |es| == |s.cells|
    ensures WithHeights(s, es).Linked()
    ensures s.RedOkBut(NONE) ==> WithHeights(s, es).RedOkBut(NONE)
    ensures Shape(WithHeights(s, es), es, s.root) == Shape(s, es, s.root)
    ensures s.SameTree(WithHeights(s, es))
  {
    var t := WithHeights(s, es);
    forall n | t.In(n) ensures t.LinkedAt(n) {
      assert s.LinkedAt(n);
    }
    if s.RedOkBut(NONE) {
      forall n | t.In(n) ensures t.RedOkAt(n) {
        assert s.RedOkAt(n);
      }
    }
    ShapeIgnoresHeights(s, t, es, s.root);
  }

  lemma WithHeightsBalanced<K, V>(s: State, es: seq<(K, V)>)
    requires s.Linked() && |es| == |s.cells| && s.root != NONE
    requires Balanced(Shape(s, es, s.root))
    ensures WithHeights(s, es).BalancedBut(NONE)
  {
    var t := WithHeights(s, es);
    forall n | t.In(n) ensures t.BalancedAt(n, NONE) {
      assert s.LinkedAt(n);
      SubtreeBalanced(s, es, n);
      assert t.cells[n] == s.cells[n].(bh := BlackHeight(Shape(s, es, n)));
      assert Shape(s, es, n).left == Shape(s, es, s.cells[n].left);
      assert Shape(s, es, n).right == Shape(s, es, s.cells[n].right);
    }
  }

  /** Emptying the place of a black leaf other than the root leaves no balanced tree behind. */
  lemma SplicedBroken<K, V>(s: State, e: int, es: seq<(K, V)>)
    requires s.Linked() && s.BalancedBut(NONE) && s.In(e) && e != s.root
    requires !s.RedAt(e) && s.cells[e].left == NONE && s.cells[e].right == NONE
    requires s.Spliced(e).Linked() && |es| == |s.cells| - 1
    ensures !Balanced(Shape(s.Spliced(e), es, s.Spliced(e).root))
  {
    var t := s.Spliced(e);
    assert s.LinkedAt(e) && s.BalancedAt(e, NONE);
    var p := s.cells[e].parent;
    assert s.LinkedAt(p) && s.BalancedAt(p, NONE);
    var w := if s.cells[p].left == e then s.cells[p].right else s.cells[p].left;
    assert s.LinkedAt(w);
    var p', w' := State.Down(p, e), State.Down(w, e);
    s.SplicedCell(e, p);
    s.SplicedCell(e, w);
    forall m | t.cells[w'].lo <= m < t.cells[w'].hi && t.In(m) ensures t.BalancedAt(m, NONE) {
      var n := if m < e then m else m + 1;
      assert s.LinkedAt(n) && s.BalancedAt(n, NONE) && m == State.Down(n, e);
      s.SplicedHeights(e, n);
    }
    ShapeBalanced(t, es, w');
    assert t.LinkedAt(p');
    assert Shape(t, es, p').left == Shape(t, es, t.cells[p'].left);
    assert Shape(t, es, p').right == Shape(t, es, t.cells[p'].right);
    if Balanced(Shape(t, es, t.root)) {
      SubtreeBalanced(t, es, p');
      assert false;
    }
  }
}
