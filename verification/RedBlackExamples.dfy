/** Concrete inputs on which Remove does not do what its documentation says. */
module RedBlackExamples {
  import opened RedBlackShape
  import opened RedBlackState
  import opened RedBlackTree
  import RedBlackMap

  function Below(a: int, b: int): bool {
    a < b
  }

  /** A red-black tree of four entries has a root with two black children, one of them childless. */
  lemma FourEntries<V>(t: Tree<int, V>)
    requires IsRedBlack(t) && RedBlackShape.Size(t) == 4
    ensures t.Bin? && t.left.Bin? && t.right.Bin? && t.left.color == Black && t.right.color == Black
    ensures (t.left.left == Nil && t.left.right == Nil) || (t.right.left == Nil && t.right.right == Nil)
  {
    var l, r := t.left, t.right;
    var b := BlackHeight(l);
    SizeFromBlackHeight(l);
    SizeFromBlackHeight(r);
    if b == 0 {
      NoBlackSmall(l);
      NoBlackSmall(r);
    } else if b == 1 {
      OneBlackSmall(l);
      OneBlackSmall(r);
    } else {
      assert Pow2(2) == 2 * Pow2(1) && Pow2(1) == 2 * Pow2(0);
      Pow2Monotone(2, b);
    }
  }

  lemma NoBlackSmall<V>(t: Tree<int, V>)
    requires NoRedRed(t) && Balanced(t) && BlackHeight(t) == 0
    ensures RedBlackShape.Size(t) <= 1
  {
    if t.Bin? {
      assert IsRed(t) && !IsRed(t.left) && !IsRed(t.right);
    }
  }

  lemma OneBlackSmall<V>(t: Tree<int, V>)
    requires NoRedRed(t) && Balanced(t) && BlackHeight(t) == 1
    ensures IsRed(t) ==> RedBlackShape.Size(t) >= 3
    ensures !IsRed(t) ==> RedBlackShape.Size(t) <= 3 && (RedBlackShape.Size(t) == 1 <==> t.left == Nil && t.right == Nil)
  {
    if IsRed(t) {
      assert t.left.Bin? && t.right.Bin?;
    } else {
      NoBlackSmall(t.left);
      NoBlackSmall(t.right);
    }
  }

  /** The place of the root's child on side d. */
  lemma ChildIsBlackLeaf<V>(t: TreeMap<int, V>, n: Node<int, V>)
    requires t.Valid() && t.Has(n) && n != t.root && n.color == Black && n.left == null && n.right == null
    ensures t.EmptiesBlackLeaf(n.key)
  {
    assert t.s.LinkedAt(n.pos);
    t.KeyPresent(n);
  }

  /** The keys 1 to n. */
  function Numbered(n: nat): (es: seq<(int, ())>)
    ensures |es| == n
  {
    seq(n, i => (i + 1, ()))
  }

  /** Add 1 to n. */
  method Build(n: nat) returns (t: TreeMap<int, ()>)
    ensures fresh(t) && forall j {:trigger t.order[j]} :: 0 <= j < |t.order| ==> fresh(t.order[j])
    ensures t.history == RedBlackMap.Adds(Numbered(n))
    ensures t.Valid() && t.Contents() == AsMap(Numbered(n)) && IsRedBlack(t.Shape()) && RedBlackShape.Size(t.Shape()) == n
  {
    var es := Numbered(n);
    t := RedBlackMap.FromEntries(Below, es);
    AsMapSize(es);
    t.WalkIsEntries();
    t.ValidShape();
  }

  /** The shape below a node is made of its colour and the shapes below its children. */
  lemma ShapeAround(t: TreeMap<int, ()>, n: Node<int, ()>)
    requires t.Valid() && t.Has(n)
    ensures (n.left != null ==> t.Has(n.left)) && (n.right != null ==> t.Has(n.right))
    ensures t.ShapeOf(n) == Bin(n.color, t.ShapeOf(n.left), n.key, n.value, t.ShapeOf(n.right))
    ensures (t.ShapeOf(n.left) == Nil <==> n.left == null) && (t.ShapeOf(n.right) == Nil <==> n.right == null)
  {
    t.WalkAround(n);
  }

  /** A childless child of the root. */
  method LeafKey(t: TreeMap<int, ()>) returns (k: int)
    requires t.Valid() && IsRedBlack(t.Shape()) && RedBlackShape.Size(t.Shape()) == 4
    ensures t.EmptiesBlackLeaf(k)
  {
    FourEntries(t.Shape());
    t.ValidShape();
    ShapeAround(t, t.root);
    var n := t.root.left;
    ShapeAround(t, n);
    if n.left != null || n.right != null {
      n := t.root.right;
      ShapeAround(t, n);
    }
    ChildIsBlackLeaf(t, n);
    k := n.key;
  }

  /** Removes the childless child of the root. */
  method RemoveLeafKey(t: TreeMap<int, ()>) returns (k: int)
    requires t.Valid() && IsRedBlack(t.Shape()) && RedBlackShape.Size(t.Shape()) == 4
    modifies t, t.order
    ensures t.Valid() && !Balanced(t.Shape()) && t.Contents() == old(t.Contents()) - {k}
    ensures t.history == old(t.history) + [Op.Remove(k)]
  {
    k := LeafKey(t);
    assert t.EmptiesBlackLeaf(k) && Balanced(t.Shape());
    var spins := t.Remove(k);
  }

  /** Add 1, 2, 3, 4, then Remove a childless black key below the root: the tree is valid still, but
      its paths no longer have the same number of black nodes. */
  method FourKeysLoseBalance() returns (t: TreeMap<int, ()>, k: int)
    ensures t.history == RedBlackMap.Adds(Numbered(4)) + [Op.Remove(k)]
    ensures t.Valid() && !Balanced(t.Shape()) && t.Contents() == AsMap(Numbered(4)) - {k}
  {
    t := Build(4);
    k := RemoveLeafKey(t);
  }

  // ---- a removal that never returns --------------------------------------------------------------

  /** The next position is the left child of the i-th. */
  ghost predicate LinkAt(s: State, c: seq<int>, i: int)
    requires 0 <= i < |c| - 1
  {
    s.In(c[i]) && s.In(c[i + 1]) && s.cells[c[i]].left == c[i + 1]
  }

  /** Every position is the left child of the one before it. */
  ghost predicate LeftChain(s: State, c: seq<int>) {
    && (forall i {:trigger c[i]} :: 0 <= i < |c| ==> s.In(c[i]))
    && (forall i {:trigger LinkAt(s, c, i)} :: 0 <= i < |c| - 1 ==> LinkAt(s, c, i))
  }

  /** With a black e below p, a black x below e, and nothing on the right of p and of e, taking e out leaves
      x without sibling: fixupDelete spins. */
  lemma LoneChainSpins(s: State, c: seq<int>)
    requires s.Linked() && |c| == 3 && LeftChain(s, c) && !s.RedAt(c[1]) && !s.RedAt(c[2])
    requires s.cells[c[0]].right == NONE && s.cells[c[1]].right == NONE
    ensures s.RemovalSpins(c[1])
  {
    var p, e, x := c[0], c[1], c[2];
    assert LinkAt(s, c, 0) && LinkAt(s, c, 1);
    assert s.LinkedAt(p) && s.LinkedAt(e) && s.LinkedAt(x);
    s.RemovalFound(e);
    s.SplicedCell(e, p);
    s.SplicedCell(e, x);
    var t := s.Spliced(e);
    assert t.LinkedAt(x) && t.LinkedAt(p - 1);
  }

  /** The node at n of the tree (was, s) is now at m, in the same colour, with nothing new on its right. */
  ghost predicate CarriedAt(was: seq<Node<int, ()>>, s: State, n: int, now: seq<Node<int, ()>>, t: State, m: int)
    requires |was| == |s.cells| && |now| == |t.cells|
  {
    && s.In(n) && t.In(m) && now[m] == was[n] && t.RedAt(m) == s.RedAt(n)
    && (s.cells[n].right == NONE ==> t.cells[m].right == NONE)
  }

  /** The chain c of the tree (was, s) has become the chain d of the tree (now, t). */
  ghost predicate Carried(was: seq<Node<int, ()>>, s: State, c: seq<int>, now: seq<Node<int, ()>>, t: State, d: seq<int>)
    requires |was| == |s.cells| && |now| == |t.cells|
  {
    && LeftChain(s, c) && LeftChain(t, d) && |c| == |d|
    && forall i {:trigger d[i]} {:trigger c[i]} :: 0 <= i < |c| ==> CarriedAt(was, s, c[i], now, t, d[i])
  }

  /** Another node than the loose one that is taken out. */
  lemma NodeKept(t: TreeMap<int, ()>, was: seq<Node<int, ()>>, s: State, n: int, k: int)
    requires |was| == |s.cells| && s.In(n) && s.LooseAt(k) && k != n
    requires |t.order| == |t.s.cells| && t.TakenOut(was, s, k)
    ensures var m := State.Down(n, k);
            && t.s.In(m) && t.order[m] == was[n] && t.s.RedAt(m) == s.RedAt(n)
            && (s.cells[n].left != k ==> t.s.cells[m].left == State.Down(s.cells[n].left, k))
            && (s.cells[n].right == NONE ==> t.s.cells[m].right == NONE)
  {
    s.SplicedCell(k, n);
  }

  /** Taking out a loose node off the chain. */
  lemma ChainKept(t: TreeMap<int, ()>, was: seq<Node<int, ()>>, s: State, c: seq<int>, k: int) returns (d: seq<int>)
    requires |was| == |s.cells| && LeftChain(s, c) && s.LooseAt(k) && k !in c
    requires |t.order| == |t.s.cells| && t.TakenOut(was, s, k)
    ensures Carried(was, s, c, t.order, t.s, d)
  {
    d := seq(|c|, i requires 0 <= i < |c| => State.Down(c[i], k));
    forall i {:trigger c[i]} | 0 <= i < |c| ensures CarriedAt(was, s, c[i], t.order, t.s, d[i]) {
      NodeKept(t, was, s, c[i], k);
    }
    forall i | 0 <= i < |c| - 1 ensures LinkAt(t.s, d, i) {
      assert LinkAt(s, c, i) && c[i + 1] in c;
      NodeKept(t, was, s, c[i], k);
      NodeKept(t, was, s, c[i + 1], k);
    }
  }

  lemma CarriedOn(was: seq<Node<int, ()>>, s: State, c: seq<int>, mid: seq<Node<int, ()>>, u: State, b: seq<int>,
                  now: seq<Node<int, ()>>, t: State, d: seq<int>)
    requires |was| == |s.cells| && |mid| == |u.cells| && |now| == |t.cells|
    requires Carried(was, s, c, mid, u, b) && Carried(mid, u, b, now, t, d)
    ensures Carried(was, s, c, now, t, d)
  {
  }

  /** The positions of a chain go down. */
  lemma {:induction false} ChainDescends(s: State, c: seq<int>, i: nat, j: nat)
    requires s.Linked() && LeftChain(s, c) && i < j < |c|
    ensures c[j] < c[i] && s.cells[c[i]].left != NONE
    decreases j - i
  {
    assert s.LinkedAt(c[i]) && LinkAt(s, c, i);
    if i + 1 < j {
      ChainDescends(s, c, i + 1, j);
    }
  }

  /** What has no left child and lies to the right of a node of the chain is not on it. */
  lemma NotOnChain(s: State, c: seq<int>, j: nat, k: int)
    requires s.Linked() && LeftChain(s, c) && j + 1 < |c| && s.In(k) && c[j] < k && s.cells[k].left == NONE
    ensures k !in c
  {
    forall i | 0 <= i < |c| ensures c[i] != k {
      if i + 1 < |c| {
        ChainDescends(s, c, i, i + 1);
      } else {
        ChainDescends(s, c, j, i);
      }
    }
  }

  /** A leaf below n, to its right. */
  method LeafRightOf(t: TreeMap<int, ()>, n: Node<int, ()>) returns (c: Node<int, ()>)
    requires t.Valid() && t.Has(n) && n.right != null
    ensures t.Has(c) && n.pos < c.pos && t.s.LooseAt(c.pos) && t.s.cells[c.pos].left == NONE && TreeMap<int, ()>.Loose(c)
  {
    assert t.s.LinkedAt(n.pos);
    c := n.right;
    assert t.s.LinkedAt(c.pos);
    while c.left != null || c.right != null
      invariant t.Has(c) && t.s.LinkedAt(c.pos) && n.pos < t.s.cells[c.pos].lo
      decreases t.s.cells[c.pos].hi - t.s.cells[c.pos].lo
    {
      if c.left != null {
        c := c.left;
      } else {
        c := c.right;
      }
      assert t.s.LinkedAt(c.pos);
    }
    t.LooseIsLoose(c);
  }

  /** Removes a leaf to the right of n. */
  method RemoveLeafRightOf(t: TreeMap<int, ()>, n: Node<int, ()>) returns (ghost k: int)
    requires t.Valid() && t.Has(n) && n.right != null
    modifies t, t.order
    ensures t.Valid() && old(n.pos) < k < |old(t.order)| && t.TakenOut(old(t.order), old(t.s), k)
    ensures old(t.s).LooseAt(k) && old(t.s).cells[k].left == NONE
    ensures t.history == old(t.history) + [Op.Remove(old(t.order)[k].key)]
    ensures forall i {:trigger t.order[i]} :: 0 <= i < |t.order| ==> t.order[i] in old(t.order)
  {
    var c := LeafRightOf(t, n);
    k := c.pos;
    t.FoundAgain(c);
    var spins := t.Remove(c.key);
  }

  /** The second run is the first one and then removals only. */
  ghost predicate RemovesOn(was: seq<Op<int, ()>>, now: seq<Op<int, ()>>) {
    was <= now && forall i {:trigger now[i]} :: |was| <= i < |now| ==> now[i].Remove?
  }

  /** Removes everything on the right of n, which is node j of the chain. */
  method ClearRight(t: TreeMap<int, ()>, n: Node<int, ()>, ghost c: seq<int>, ghost j: nat) returns (ghost d: seq<int>)
    requires t.Valid() && LeftChain(t.s, c) && j + 1 < |c| && t.order[c[j]] == n
    modifies t, t.order
    ensures t.Valid() && Carried(old(t.order), old(t.s), c, t.order, t.s, d) && t.s.cells[d[j]].right == NONE
    ensures forall i {:trigger t.order[i]} :: 0 <= i < |t.order| ==> t.order[i] in old(t.order)
    ensures RemovesOn(old(t.history), t.history)
  {
    d := c;
    while n.right != null
      invariant t.Valid() && Carried(old(t.order), old(t.s), c, t.order, t.s, d)
      invariant forall i {:trigger t.order[i]} :: 0 <= i < |t.order| ==> t.order[i] in old(t.order)
      invariant RemovesOn(old(t.history), t.history)
      decreases |t.order|
    {
      d := ClearStep(t, n, c, j, d, old(t.order), old(t.s));
    }
    assert t.s.LinkedAt(d[j]);
  }

  method ClearStep(t: TreeMap<int, ()>, n: Node<int, ()>, ghost c: seq<int>, ghost j: nat, ghost b: seq<int>,
                   ghost first: seq<Node<int, ()>>, ghost s: State) returns (ghost d: seq<int>)
    requires t.Valid() && |first| == |s.cells| && Carried(first, s, c, t.order, t.s, b)
    requires j + 1 < |c| && first[c[j]] == n && n.right != null
    modifies t, t.order
    ensures t.Valid() && Carried(first, s, c, t.order, t.s, d) && |t.order| < |old(t.order)|
    ensures forall i {:trigger t.order[i]} :: 0 <= i < |t.order| ==> t.order[i] in old(t.order)
    ensures RemovesOn(old(t.history), t.history)
  {
    ghost var was, u := t.order, t.s;
    assert was[b[j]] == n;
    ghost var k := RemoveLeafRightOf(t, n);
    NotOnChain(u, b, j, k);
    d := ChainKept(t, was, u, b, k);
    CarriedOn(first, s, c, was, u, b, t.order, t.s, d);
  }

  /** What the shape below a node says of its left child. */
  lemma LeftShape(t: TreeMap<int, ()>, n: Node<int, ()>)
    requires t.Valid() && t.Has(n) && NoRedRed(t.ShapeOf(n)) && BlackHeight(t.ShapeOf(n)) > (if n.color.Red? then 0 else 1)
    ensures t.s.LinkedAt(n.pos) && n.left != null && t.Has(n.left) && t.s.cells[n.pos].left == n.left.pos
    ensures NoRedRed(t.ShapeOf(n.left)) && (n.color.Red? ==> n.left.color.Black?)
    ensures BlackHeight(t.ShapeOf(n.left)) == BlackHeight(t.ShapeOf(n)) - if n.color.Red? then 0 else 1
    ensures t.s.RedAt(n.pos) == n.color.Red?
  {
    assert t.s.LinkedAt(n.pos);
    ShapeAround(t, n);
  }

  /** Red-black trees of sixteen entries have black height 3 or more. */
  lemma SixteenAreDeep<V>(t: Tree<int, V>)
    requires IsRedBlack(t) && RedBlackShape.Size(t) == 16
    ensures BlackHeight(t) >= 3
  {
    SizeFromHeight(t);
    HeightFromBlackHeight(t);
    assert Pow2(4) == 16 by {
      assert Pow2(4) == 2 * Pow2(3) && Pow2(3) == 2 * Pow2(2) && Pow2(2) == 2 * Pow2(1) && Pow2(1) == 2 * Pow2(0);
    }
    if Height(t) <= 4 {
      Pow2Monotone(Height(t), 4);
    }
  }

  /** Two neighbours e and m on the left edge of the tree, e black and below p; m is black or has a black left child. */
  method LeftEdge(t: TreeMap<int, ()>) returns (p: Node<int, ()>, e: Node<int, ()>, m: Node<int, ()>)
    requires t.Valid() && BlackHeight(t.Shape()) >= 3
    ensures t.Has(p) && t.Has(e) && t.Has(m) && !t.s.RedAt(e.pos) && LeftChain(t.s, [p.pos, e.pos, m.pos])
    ensures t.s.RedAt(m.pos) ==> m.left != null && t.Has(m.left) && !t.s.RedAt(m.left.pos) && t.s.cells[m.pos].left == m.left.pos
  {
    t.ValidShape();
    p := t.root;
    LeftShape(t, p);
    e := p.left;
    LeftShape(t, e);
    if e.color.Red? {
      p, e := e, e.left;
      LeftShape(t, e);
    }
    m := e.left;
    if m.color.Red? {
      LeftShape(t, m);
      LinkedColor(t, m.left);
    }
    LinkedColor(t, m);
  }

  lemma LinkedColor(t: TreeMap<int, ()>, n: Node<int, ()>)
    requires t.Valid() && t.Has(n)
    ensures t.s.RedAt(n.pos) == n.color.Red?
  {
  }

  /** Taking the third node of a chain out, when it has nothing on its right, brings the fourth up. */
  lemma MiddleTaken(t: TreeMap<int, ()>, was: seq<Node<int, ()>>, s: State, d: seq<int>) returns (c: seq<int>)
    requires |was| == |s.cells| && s.Linked() && |d| == 4 && LeftChain(s, d) && s.cells[d[2]].right == NONE
    requires |t.order| == |t.s.cells| && t.TakenOut(was, s, d[2])
    ensures |c| == 3 && LeftChain(t.s, c) && t.order[c[0]] == was[d[0]] && t.order[c[1]] == was[d[1]]
    ensures t.s.RedAt(c[1]) == s.RedAt(d[1]) && t.s.RedAt(c[2]) == s.RedAt(d[3])
  {
    var p, e, m, x := d[0], d[1], d[2], d[3];
    assert LinkAt(s, d, 0) && LinkAt(s, d, 1) && LinkAt(s, d, 2);
    assert s.LinkedAt(p) && s.LinkedAt(e) && s.LinkedAt(m);
    s.SplicedCell(m, p);
    s.SplicedCell(m, e);
    s.SplicedCell(m, x);
    c := [p - 1, e - 1, x];
  }

  /** Two black neighbours e and x on the left edge of a tree, e below p. */
  method BlackEdge(t: TreeMap<int, ()>) returns (p: Node<int, ()>, e: Node<int, ()>, ghost c: seq<int>)
    requires t.Valid() && BlackHeight(t.Shape()) >= 3
    modifies t, t.order
    ensures t.Valid() && |c| == 3 && LeftChain(t.s, c) && t.order[c[0]] == p && t.order[c[1]] == e
    ensures !t.s.RedAt(c[1]) && !t.s.RedAt(c[2])
    ensures forall i {:trigger t.order[i]} :: 0 <= i < |t.order| ==> t.order[i] in old(t.order)
    ensures RemovesOn(old(t.history), t.history)
  {
    var m;
    p, e, m := LeftEdge(t);
    c := [p.pos, e.pos, m.pos];
    LinkedColor(t, m);
    if m.color.Red? {
      c := DropRed(t, p, e, m);
    }
  }

  lemma ChainOfFour(s: State, p: int, e: int, m: int, x: int)
    requires LeftChain(s, [p, e, m]) && s.In(m) && s.In(x) && s.cells[m].left == x
    ensures LeftChain(s, [p, e, m, x])
  {
    assert LinkAt(s, [p, e, m], 0) && LinkAt(s, [p, e, m], 1);
  }

  /** The red node m between e and a black node on the left edge is removed. */
  method DropRed(t: TreeMap<int, ()>, ghost p: Node<int, ()>, ghost e: Node<int, ()>, m: Node<int, ()>) returns (ghost c: seq<int>)
    requires t.Valid() && t.Has(p) && t.Has(e) && t.Has(m) && m.left != null && t.Has(m.left)
    requires LeftChain(t.s, [p.pos, e.pos, m.pos]) && t.s.cells[m.pos].left == m.left.pos
    requires !t.s.RedAt(e.pos) && t.s.RedAt(m.pos) && !t.s.RedAt(m.left.pos)
    modifies t, t.order
    ensures t.Valid() && |c| == 3 && LeftChain(t.s, c) && t.order[c[0]] == p && t.order[c[1]] == e
    ensures !t.s.RedAt(c[1]) && !t.s.RedAt(c[2])
    ensures forall i {:trigger t.order[i]} :: 0 <= i < |t.order| ==> t.order[i] in old(t.order)
    ensures RemovesOn(old(t.history), t.history)
  {
    ghost var b := [p.pos, e.pos, m.pos, m.left.pos];
    ChainOfFour(t.s, p.pos, e.pos, m.pos, m.left.pos);
    ghost var d := ClearRight(t, m, b, 2);
    c := RemoveMiddle(t, p, e, m, d);
  }

  method RemoveMiddle(t: TreeMap<int, ()>, ghost p: Node<int, ()>, ghost e: Node<int, ()>, m: Node<int, ()>, ghost d: seq<int>)
    returns (ghost c: seq<int>)
    requires t.Valid() && |d| == 4 && LeftChain(t.s, d) && t.order[d[0]] == p && t.order[d[1]] == e && t.order[d[2]] == m
    requires !t.s.RedAt(d[1]) && t.s.RedAt(d[2]) && !t.s.RedAt(d[3]) && t.s.cells[d[2]].right == NONE
    modifies t, t.order
    ensures t.Valid() && |c| == 3 && LeftChain(t.s, c) && t.order[c[0]] == p && t.order[c[1]] == e
    ensures !t.s.RedAt(c[1]) && !t.s.RedAt(c[2])
    ensures forall i {:trigger t.order[i]} :: 0 <= i < |t.order| ==> t.order[i] in old(t.order)
    ensures t.history == old(t.history) + [Op.Remove(m.key)]
  {
    t.FoundAgain(m);
    t.LooseIsLoose(m);
    ghost var was, s := t.order, t.s;
    assert was[d[2]] == m && s.LooseAt(d[2]);
    var spins := t.Remove(m.key);
    c := MiddleTaken(t, was, s, d);
  }

  /** Clears the right of both: e can no longer be removed. */
  method Isolate(t: TreeMap<int, ()>, p: Node<int, ()>, e: Node<int, ()>, ghost c: seq<int>)
    requires t.Valid() && |c| == 3 && LeftChain(t.s, c) && t.order[c[0]] == p && t.order[c[1]] == e
    requires !t.s.RedAt(c[1]) && !t.s.RedAt(c[2])
    modifies t, t.order
    ensures t.Valid() && t.RemoveSpins(e.key)
    ensures RemovesOn(old(t.history), t.history)
  {
    ghost var b := ClearRight(t, e, c, 1);
    ghost var d := ClearRight(t, p, b, 0);
    LoneChainSpins(t.s, d);
    t.KeyPresent(e);
  }

  /** Add 1 to 16 to a new map, then remove some keys: there is a run after which the tree is as valid as ever,
      and the removal of one more key never returns. */
  method RunThatSpins() returns (t: TreeMap<int, ()>, k: int)
    ensures t.Valid() && t.RemoveSpins(k)
    ensures RemovesOn(RedBlackMap.Adds(Numbered(16)), t.history)
  {
    t := Build(16);
    SixteenAreDeep(t.Shape());
    var p, e;
    ghost var c;
    p, e, c := BlackEdge(t);
    Isolate(t, p, e, c);
    k := e.key;
  }
}
