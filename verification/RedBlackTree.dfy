module RedBlackTree {
  import opened Options
  import opened RedBlackShape
  import opened RedBlackState
  import opened RedBlackPicture

  class Node<K, V> {
    const key: K
    var value: V
    var color: Color
    var left: Node?<K, V>
    var right: Node?<K, V>
    var parent: Node?<K, V>
    ghost var pos: int

    constructor (key: K, value: V, color: Color, parent: Node?<K, V>)
      ensures this.key == key && this.value == value && this.color == color && this.parent == parent
      ensures left == null && right == null
    {
      this.key, this.value, this.color, this.parent := key, value, color, parent;
      left, right := null, null;
    }
  }

  /** On which side of its parent a node is; the root is on neither. */
  datatype Direction = Dir(side: Side) | NoDir

  /** The node at position i, if there is one. */
  ghost function At<K, V>(order: seq<Node<K, V>>, i: int): Node?<K, V> {
    if 0 <= i < |order| then order[i] else null
  }

  /** The fields of n are those of its cell. */
  ghost predicate Matches<K, V>(n: Node<K, V>, c: Cell, order: seq<Node<K, V>>)
    reads n
  {
    && n.color == c.color && n.left == At(order, c.left) && n.right == At(order, c.right)
    && n.parent == At(order, c.parent)
  }

  /** Opening position q in the order moves every other node from j to Up(j, q). */
  lemma AtOpened<K, V>(order: seq<Node<K, V>>, n: Node<K, V>, q: int, j: int)
    requires 0 <= q <= |order| && (j == NONE || 0 <= j < |order|)
    ensures At(order[..q] + [n] + order[q..], State.Up(j, q)) == At(order, j)
  {
  }

  ghost predicate Ascends<K, V>(lt: (K, K) -> bool, order: seq<Node<K, V>>) {
    forall i, j {:trigger order[i], order[j]} :: 0 <= i < j < |order| ==> lt(order[i].key, order[j].key)
  }

  lemma AscendsInserted<K, V>(lt: (K, K) -> bool, order: seq<Node<K, V>>, q: int, n: Node<K, V>)
    requires Ascends(lt, order) && 0 <= q <= |order|
    requires forall i {:trigger order[i]} :: 0 <= i < q ==> lt(order[i].key, n.key)
    requires forall i {:trigger order[i]} :: q <= i < |order| ==> lt(n.key, order[i].key)
    ensures Ascends(lt, order[..q] + [n] + order[q..])
  {
    var to := order[..q] + [n] + order[q..];
    forall i, j {:trigger to[i], to[j]} | 0 <= i < j < |to| ensures lt(to[i].key, to[j].key) {
      assert i != q ==> to[i] == order[if i < q then i else i - 1];
      assert j != q ==> to[j] == order[if j < q then j else j - 1];
    }
  }

  /** Closing position z of the order, and e of the cells, brings every link where the removal wants it. */
  lemma AtClosed<K, V>(order: seq<Node<K, V>>, t: State, z: int, e: int, k: int)
    requires t.Removal(z, e) && t.LinkedAt(e) && |order| == |t.cells| && (k == NONE || t.In(k))
    ensures var to := order[..z] + order[z + 1..];
            && At(to, t.DownKid(k, e)) == At(order, t.Redirect(z, e, k))
            && At(to, State.Down(if k == e then t.cells[e].parent else k, e)) == At(order, t.RedirectUp(z, e, k))
  {
  }

  lemma OnlyRemoved<K, V>(order: seq<Node<K, V>>, z: int)
    requires 0 <= z < |order|
    ensures var to := order[..z] + order[z + 1..];
            forall i {:trigger to[i]} :: 0 <= i < |to| ==> to[i] in order
  {
    var to := order[..z] + order[z + 1..];
    forall i {:trigger to[i]} | 0 <= i < |to| ensures to[i] in order {
      assert to[i] == order[if i < z then i else i + 1];
    }
  }

  lemma OnlyAdded<K, V>(order: seq<Node<K, V>>, q: int, n: Node<K, V>)
    requires 0 <= q <= |order|
    ensures var to := order[..q] + [n] + order[q..];
            forall i {:trigger to[i]} :: 0 <= i < |to| ==> to[i] == n || to[i] in order
  {
    var to := order[..q] + [n] + order[q..];
    forall i {:trigger to[i]} | 0 <= i < |to| ensures to[i] == n || to[i] in order {
      if i != q {
        assert to[i] == order[if i < q then i else i - 1];
      }
    }
  }

  datatype Op<K, V> = Add(key: K, value: V) | Remove(key: K) | Clear

  class TreeMap<K(==, !new), V> {
    const lt: (K, K) -> bool
    var root: Node?<K, V>
    ghost var order: seq<Node<K, V>>
    ghost var s: State
    ghost var history: seq<Op<K, V>>   // the operations since the tree was made

    ghost predicate Has(n: Node<K, V>)
      reads this`order, n`pos
    {
      0 <= n.pos < |order| && order[n.pos] == n
    }

    ghost function Pos(n: Node?<K, V>): int
      reads n
    {
      if n == null then NONE else n.pos
    }

    /** The heap holds what the cells say. */
    ghost predicate InStep()
      reads this`root, this`order, this`s, order
    {
      && |order| == |s.cells| && root == At(order, s.root)
      && (forall i {:trigger order[i]} :: 0 <= i < |order| ==> order[i].pos == i)
      && forall i {:trigger s.cells[i]} :: 0 <= i < |order| ==> Matches(order[i], s.cells[i], order)
    }

    method SetLeft(n: Node<K, V>, c: Node?<K, V>)
      requires InStep() && Has(n) && (c != null ==> Has(c))
      modifies n`left, this`s
      ensures InStep() && s == old(s).WithKid(n.pos, Left, Pos(c))
    {
      n.left := c;
      s := s.WithKid(n.pos, Left, Pos(c));
    }

    method SetRight(n: Node<K, V>, c: Node?<K, V>)
      requires InStep() && Has(n) && (c != null ==> Has(c))
      modifies n`right, this`s
      ensures InStep() && s == old(s).WithKid(n.pos, Right, Pos(c))
    {
      n.right := c;
      s := s.WithKid(n.pos, Right, Pos(c));
    }

    method SetParent(n: Node?<K, V>, c: Node?<K, V>)
      requires InStep() && (n != null ==> Has(n)) && (c != null ==> Has(c))
      modifies order`parent, this`s
      ensures InStep() && s == old(s).WithParent(Pos(n), Pos(c))
    {
      if n != null {
        n.parent := c;
        s := s.WithParent(n.pos, Pos(c));
        assert s.cells == old(s).cells[n.pos := s.cells[n.pos]];
      }
    }

    method SetColor(n: Node<K, V>, color: Color, ghost bh: int)
      requires InStep() && Has(n)
      modifies n`color, this`s
      ensures InStep() && s == old(s).Paint(n.pos, color, bh)
    {
      n.color := color;
      s := s.Paint(n.pos, color, bh);
      assert s.cells == old(s).cells[n.pos := s.cells[n.pos]];
    }

    /** What pointed down from p to x, or was the root x, now points to y. */
    method SwapChild(p: Node?<K, V>, x: Node<K, V>, y: Node?<K, V>)
      requires InStep() && (p != null ==> Has(p)) && Has(x) && (y != null ==> Has(y))
      modifies this`root, this`s, order`left, order`right
      ensures InStep() && s == old(s).SwapChild(Pos(p), x.pos, Pos(y))
    {
      if p == null {
        root := y;
        s := s.(root := Pos(y));
      } else if x == p.left {
        SetLeft(p, y);
      } else {
        SetRight(p, y);
      }
    }

    /** Another account of the same links. */
    ghost method Retell(t: State)
      requires InStep() && s.SameLinks(t)
      modifies this`s
      ensures InStep() && s == t
    {
      forall i | 0 <= i < |order| ensures Matches(order[i], t.cells[i], order) {
        assert Matches(order[i], s.cells[i], order);
      }
      s := t;
    }

    method RotateLeft(x: Node<K, V>)
      requires InStep() && s.Linked() && Has(x)
      modifies this`root, this`s, order`left, order`right, order`parent
      ensures InStep() && s.Linked()
      ensures s == if old(x.right) == null then old(s) else old(s).Rotated(x.pos, Left)
    {
      if x.right == null {
        return;
      }
      var y := x.right;
      assert s.LinkedAt(x.pos) && s.LinkedAt(y.pos);
      ghost var b, p := s.cells[y.pos].left, s.cells[x.pos].parent;
      s.TurningFacts(x.pos, Left);
      s.RotatedLinked(x.pos, Left);
      s.RelinkedIsRotated(x.pos, y.pos, b, p, Left);
      RelinkLeft(x, y, b, p);
      Retell(old(s).Rotated(x.pos, Left));
    }

    method RelinkLeft(x: Node<K, V>, y: Node<K, V>, ghost b: int, ghost p: int)
      requires InStep() && Has(x) && Has(y) && s.Turning(x.pos, y.pos, b, p, Left)
      modifies this`root, this`s, order`left, order`right, order`parent
      ensures InStep() && s == old(s).Relinked(x.pos, y.pos, b, p, Left)
    {
      var c, q := y.left, x.parent;
      SetRight(x, c);
      SetParent(c, x);
      SetParent(y, q);
      SwapChild(q, x, y);
      SetLeft(y, x);
      SetParent(x, y);
    }

    method RotateRight(x: Node<K, V>)
      requires InStep() && s.Linked() && Has(x)
      modifies this`root, this`s, order`left, order`right, order`parent
      ensures InStep() && s.Linked()
      ensures s == if old(x.left) == null then old(s) else old(s).Rotated(x.pos, Right)
    {
      if x.left == null {
        return;
      }
      var y := x.left;
      assert s.LinkedAt(x.pos) && s.LinkedAt(y.pos);
      ghost var b, p := s.cells[y.pos].right, s.cells[x.pos].parent;
      s.TurningFacts(x.pos, Right);
      s.RotatedLinked(x.pos, Right);
      s.RelinkedIsRotated(x.pos, y.pos, b, p, Right);
      RelinkRight(x, y, b, p);
      Retell(old(s).Rotated(x.pos, Right));
    }

    method RelinkRight(x: Node<K, V>, y: Node<K, V>, ghost b: int, ghost p: int)
      requires InStep() && Has(x) && Has(y) && s.Turning(x.pos, y.pos, b, p, Right)
      modifies this`root, this`s, order`left, order`right, order`parent
      ensures InStep() && s == old(s).Relinked(x.pos, y.pos, b, p, Right)
    {
      var c, q := y.right, x.parent;
      SetLeft(x, c);
      SetParent(c, x);
      SetParent(y, q);
      SwapChild(q, x, y);
      SetRight(y, x);
      SetParent(x, y);
    }

    static predicate IsRed(n: Node?<K, V>)
      reads n
    {
      n != null && n.color.Red?
    }

    // ---- insertion fixup -----------------------------------------------------------------------

    /** Parent red, uncle red. */
    method Recolor(p: Node<K, V>, u: Node<K, V>, g: Node<K, V>)
      requires InStep() && Has(p) && Has(u) && Has(g)
      modifies this`s, order`color
      ensures InStep() && s == old(s).Recolored(p.pos, u.pos, g.pos)
    {
      ghost var t := s;
      SetColor(p, Black, t.cells[p.pos].bh + 1);
      SetColor(u, Black, t.cells[u.pos].bh + 1);
      SetColor(g, Red, t.cells[g.pos].bh);
    }

    /** Parent red and to the left of the grandparent. */
    method PutStepLeft(z: Node<K, V>) returns (z': Node<K, V>)
      requires InStep() && Has(z) && z.parent != null && Has(z.parent) && z.parent.parent != null && Has(z.parent.parent)
      requires s.PutCase(z.pos, z.parent.pos, z.parent.parent.pos, Left)
      modifies this`root, this`s, order`left, order`right, order`parent, order`color
      ensures InStep() && Has(z') && old(s).PutProgress(s, z.pos, z'.pos)
    {
      var p, g := z.parent, z.parent.parent;
      ghost var t := s;
      var y := g.right;
      s.PutCaseFacts(z.pos, p.pos, g.pos, Left);
      if IsRed(y) {
        s.RecoloredProgress(z.pos, p.pos, g.pos, Left);
        Recolor(p, y, g);
        z' := g;
      } else {
        z' := TurnAndLiftLeft(z, p, g);
      }
    }

    /** Parent red and to the left of the grandparent, uncle not red. */
    method TurnAndLiftLeft(z: Node<K, V>, p: Node<K, V>, g: Node<K, V>) returns (z': Node<K, V>)
      requires InStep() && Has(z) && Has(p) && Has(g) && z.parent == p
      requires s.PutCase(z.pos, p.pos, g.pos, Left) && !s.RedAt(s.cells[g.pos].right)
      modifies this`root, this`s, order`left, order`right, order`parent, order`color
      ensures InStep() && Has(z') && old(s).PutProgress(s, z.pos, z'.pos)
    {
      s.PutCaseFacts(z.pos, p.pos, g.pos, Left);
      if z == p.right {
        z' := TurnLeft(z, p, g);
      } else {
        z' := z;
        s.LiftedProgress(z.pos, p.pos, g.pos, Left);
        LiftLeft(z'.parent, g);
      }
    }

    /** An inner z first rises over its parent. */
    method TurnLeft(z: Node<K, V>, p: Node<K, V>, g: Node<K, V>) returns (z': Node<K, V>)
      requires InStep() && Has(z) && Has(p) && Has(g) && z == p.right
      requires s.PutCase(z.pos, p.pos, g.pos, Left) && !s.RedAt(s.cells[g.pos].right)
      modifies this`root, this`s, order`left, order`right, order`parent, order`color
      ensures InStep() && Has(z') && old(s).PutProgress(s, z.pos, z'.pos)
    {
      s.InnerRotatedProgress(z.pos, p.pos, g.pos, Left);
      z' := p;
      RotateLeft(z');
      LiftLeft(z'.parent, g);
    }

    method LiftLeft(p: Node<K, V>, g: Node<K, V>)
      requires InStep() && s.Linked() && Has(p) && Has(g) && s.cells[g.pos].left == p.pos
      modifies this`root, this`s, order`left, order`right, order`parent, order`color
      ensures InStep() && s == old(s).Lifted(p.pos, g.pos, Left)
    {
      ghost var t := s;
      s.SwappedLinked(p.pos, g.pos);
      SetColor(p, Black, t.cells[p.pos].bh + 1);
      SetColor(g, Red, t.cells[g.pos].bh - 1);
      assert s == t.Swapped(p.pos, g.pos);
      RotateRight(g);
    }

    /** Parent red and to the right of the grandparent. */
    method PutStepRight(z: Node<K, V>) returns (z': Node<K, V>)
      requires InStep() && Has(z) && z.parent != null && Has(z.parent) && z.parent.parent != null && Has(z.parent.parent)
      requires s.PutCase(z.pos, z.parent.pos, z.parent.parent.pos, Right)
      modifies this`root, this`s, order`left, order`right, order`parent, order`color
      ensures InStep() && Has(z') && old(s).PutProgress(s, z.pos, z'.pos)
    {
      var p, g := z.parent, z.parent.parent;
      ghost var t := s;
      var y := g.left;
      s.PutCaseFacts(z.pos, p.pos, g.pos, Right);
      if IsRed(y) {
        s.RecoloredProgress(z.pos, p.pos, g.pos, Right);
        Recolor(p, y, g);
        z' := g;
      } else {
        z' := TurnAndLiftRight(z, p, g);
      }
    }

    /** Parent red and to the right of the grandparent, uncle not red. */
    method TurnAndLiftRight(z: Node<K, V>, p: Node<K, V>, g: Node<K, V>) returns (z': Node<K, V>)
      requires InStep() && Has(z) && Has(p) && Has(g) && z.parent == p
      requires s.PutCase(z.pos, p.pos, g.pos, Right) && !s.RedAt(s.cells[g.pos].left)
      modifies this`root, this`s, order`left, order`right, order`parent, order`color
      ensures InStep() && Has(z') && old(s).PutProgress(s, z.pos, z'.pos)
    {
      s.PutCaseFacts(z.pos, p.pos, g.pos, Right);
      if z == p.left {
        z' := TurnRight(z, p, g);
      } else {
        z' := z;
        s.LiftedProgress(z.pos, p.pos, g.pos, Right);
        LiftRight(z'.parent, g);
      }
    }

    /** An inner z first rises over its parent. */
    method TurnRight(z: Node<K, V>, p: Node<K, V>, g: Node<K, V>) returns (z': Node<K, V>)
      requires InStep() && Has(z) && Has(p) && Has(g) && z == p.left
      requires s.PutCase(z.pos, p.pos, g.pos, Right) && !s.RedAt(s.cells[g.pos].left)
      modifies this`root, this`s, order`left, order`right, order`parent, order`color
      ensures InStep() && Has(z') && old(s).PutProgress(s, z.pos, z'.pos)
    {
      s.InnerRotatedProgress(z.pos, p.pos, g.pos, Right);
      z' := p;
      RotateRight(z');
      LiftRight(z'.parent, g);
    }

    method LiftRight(p: Node<K, V>, g: Node<K, V>)
      requires InStep() && s.Linked() && Has(p) && Has(g) && s.cells[g.pos].right == p.pos
      modifies this`root, this`s, order`left, order`right, order`parent, order`color
      ensures InStep() && s == old(s).Lifted(p.pos, g.pos, Right)
    {
      ghost var t := s;
      s.SwappedLinked(p.pos, g.pos);
      SetColor(p, Black, t.cells[p.pos].bh + 1);
      SetColor(g, Red, t.cells[g.pos].bh - 1);
      assert s == t.Swapped(p.pos, g.pos);
      RotateLeft(g);
    }

    /** The loop body of fixupPut. */
    method PutStep(z: Node<K, V>) returns (z': Node<K, V>)
      requires InStep() && Has(z) && s.PutInv(z.pos) && z.parent != null && z.parent.color.Red?
      modifies this`root, this`s, order`left, order`right, order`parent, order`color
      ensures InStep() && Has(z') && old(s).PutProgress(s, z.pos, z'.pos)
    {
      assert s.LinkedAt(z.pos) && s.RedAt(s.cells[z.pos].parent);
      s.PutCaseFound(z.pos);
      if z.parent == z.parent.parent.left {
        z' := PutStepLeft(z);
      } else {
        z' := PutStepRight(z);
      }
    }

    method BlackenRoot(ghost z: Node<K, V>)
      requires InStep() && Has(z) && s.PutInv(z.pos) && (z.parent == null || z.parent.color.Black?)
      modifies this`s, order`color
      ensures InStep() && s.Linked() && s.RedOkBut(NONE) && |s.cells| == |old(s).cells|
      ensures old(s).BalancedBut(NONE) ==> s.BalancedBut(NONE)
    {
      assert s.LinkedAt(z.pos);
      s.PutDone(z.pos);
      s.BlackenedOk(s.root);
      SetColor(root, Black, s.cells[root.pos].bh + 1 - Weight(root.color));
    }

    /** Restores the red-black properties after a red node z0 has been hung in the tree. */
    method FixupPut(z0: Node<K, V>)
      requires InStep() && Has(z0) && s.PutInv(z0.pos)
      modifies this`root, this`s, order`left, order`right, order`parent, order`color
      ensures InStep() && s.Linked() && s.RedOkBut(NONE) && |s.cells| == |old(s).cells|
      ensures old(s).BalancedBut(NONE) ==> s.BalancedBut(NONE)
    {
      var z := z0;
      while z.parent != null && z.parent.color.Red?
        invariant InStep() && Has(z) && s.PutInv(z.pos) && |s.cells| == |old(s).cells|
        invariant old(s).BalancedBut(NONE) ==> s.BalancedBut(NONE)
        decreases s.PutRank(z.pos)
      {
        z := PutStep(z);
      }
      BlackenRoot(z);
    }

    // ---- lookup --------------------------------------------------------------------------------

    ghost predicate Sorted()
      reads this`order
    {
      Ascends(lt, order)
    }

    function ChildOf(parent: Node?<K, V>, dir: Direction): Node?<K, V>
      reads this`root, parent
    {
      if parent == null || dir.NoDir? then root else if dir.side.Left? then parent.left else parent.right
    }

    ghost predicate AtPlace(parent: Node?<K, V>, node: Node?<K, V>, dir: Direction)
      reads this`root, this`order, this`s, order, parent, node
    {
      && (node != null ==> Has(node)) && (parent != null ==> Has(parent)) && (parent == null <==> dir.NoDir?)
      && node == ChildOf(parent, dir)
    }

    /** Everything before position lo is below the key, everything from hi on above it. */
    ghost predicate Brackets(key: K, lo: int, hi: int)
      reads this`order
    {
      && 0 <= lo <= hi <= |order|
      && (forall i {:trigger order[i]} :: 0 <= i < lo ==> lt(order[i].key, key))
      && (forall i {:trigger order[i]} :: hi <= i < |order| ==> lt(key, order[i].key))
    }

    /** The positions the search has narrowed down to. */
    ghost function Span(parent: Node?<K, V>, node: Node?<K, V>, dir: Direction): (int, int)
      requires InStep() && AtPlace(parent, node, dir)
      reads this`root, this`order, this`s, order, parent, node
    {
      if node != null then (s.cells[node.pos].lo, s.cells[node.pos].hi)
      else if parent == null then (0, |order|)
      else (State.Slot(parent.pos, dir.side), State.Slot(parent.pos, dir.side))
    }

    /** One comparison narrows the search down to one side of the node. */
    lemma Narrows(node: Node<K, V>, key: K)
      requires InStep() && s.Linked() && Sorted() && StrictTotalOrder(lt) && Has(node) && key != node.key
      requires Brackets(key, s.cells[node.pos].lo, s.cells[node.pos].hi)
      ensures AtPlace(node, node.left, Dir(Left)) && AtPlace(node, node.right, Dir(Right))
      ensures if lt(key, node.key)
              then Brackets(key, Span(node, node.left, Dir(Left)).0, Span(node, node.left, Dir(Left)).1)
              else Brackets(key, Span(node, node.right, Dir(Right)).0, Span(node, node.right, Dir(Right)).1)
    {
      assert s.LinkedAt(node.pos);
      if lt(key, node.key) {
        forall i {:trigger order[i]} | node.pos <= i < |order| ensures lt(key, order[i].key) {
          assert i > node.pos ==> lt(node.key, order[i].key);
        }
      } else {
        forall i {:trigger order[i]} | 0 <= i <= node.pos ensures lt(order[i].key, key) {
          assert i < node.pos ==> lt(order[i].key, node.key);
        }
      }
    }

    /** Searches below node for the key, remembering the way. Returns whether the key is there, and
        the parent and side of the place where it is or would be. */
    function InternalLookup(parent: Node?<K, V>, node: Node?<K, V>, key: K, dir: Direction): (r: (bool, Node?<K, V>, Direction))
      requires InStep() && s.Linked() && Sorted() && StrictTotalOrder(lt)
      requires AtPlace(parent, node, dir) && Brackets(key, Span(parent, node, dir).0, Span(parent, node, dir).1)
      reads this`root, this`order, this`s, order, parent, node
      ensures AtPlace(r.1, ChildOf(r.1, r.2), r.2)
      ensures r.0 ==> ChildOf(r.1, r.2) != null && ChildOf(r.1, r.2).key == key
      ensures !r.0 ==> ChildOf(r.1, r.2) == null && Brackets(key, Span(r.1, null, r.2).0, Span(r.1, null, r.2).1)
      decreases if node == null then 0 else s.cells[node.pos].hi - s.cells[node.pos].lo
    {
      if node == null then (false, parent, dir)
      else
        assert s.LinkedAt(node.pos);
        if key == node.key then (true, parent, dir)
        else
          Narrows(node, key);
          if lt(key, node.key) then InternalLookup(node, node.left, key, Dir(Left))
          else InternalLookup(node, node.right, key, Dir(Right))
    }

    // ---- insertion -----------------------------------------------------------------------------

    /** Opens position q of the order for n. */
    ghost method Renumber(n: Node<K, V>, q: int)
      requires n !in order && 0 <= q <= |order|
      requires forall i, j {:trigger order[i], order[j]} :: 0 <= i < j < |order| ==> order[i] != order[j]
      modifies this`order, n`pos, order`pos
      ensures order == old(order)[..q] + [n] + old(order)[q..]
      ensures forall i {:trigger order[i]} :: 0 <= i < |order| ==> order[i].pos == i
    {
      order := order[..q] + [n] + order[q..];
      forall i | 0 <= i < |order| {
        order[i].pos := i;
      }
    }

    /** Hangs the new node on the empty side d of its parent. */
    method Hang(n: Node<K, V>, parent: Node<K, V>, d: Side)
      requires InStep() && s.Linked() && Has(parent) && n !in order
      requires s.cells[parent.pos].Kid(d) == NONE
      requires n.parent == parent && n.left == null && n.right == null && n.color == Red
      modifies this`order, this`s, n`pos, parent`left, parent`right, order`pos
      ensures InStep() && Has(n) && s == old(s).Inserted(old(parent.pos), d)
      ensures n.pos == State.Slot(old(parent.pos), d) && order == old(order)[..n.pos] + [n] + old(order)[n.pos..]
    {
      ghost var p := parent.pos;
      ghost var q := State.Slot(p, d);
      ghost var was, t := order, s;
      assert s.LinkedAt(p);
      if d.Left? {
        parent.left := n;
      } else {
        parent.right := n;
      }
      Renumber(n, q);
      assert order[q] == n;
      s := s.Inserted(p, d);
      forall j | 0 <= j < |was| ensures Hung(was[j], t.cells[j], was, n, parent, d) {
        assert old(Matches(was[j], t.cells[j], was));
      }
      HungInStep(was, t, n, parent, p, q, d);
    }

    /** m matches its cell but for the parent's new child n. */
    static ghost predicate Hung(m: Node<K, V>, c: Cell, was: seq<Node<K, V>>, n: Node<K, V>, parent: Node<K, V>, d: Side)
      reads m
    {
      && m.color == c.color && m.parent == At(was, c.parent)
      && m.left == (if m == parent && d.Left? then n else At(was, c.left))
      && m.right == (if m == parent && d.Right? then n else At(was, c.right))
    }

    lemma HungInStep(was: seq<Node<K, V>>, t: State, n: Node<K, V>, parent: Node<K, V>, p: int, q: int, d: Side)
      requires t.Linked() && 0 <= p < |was| == |t.cells| && was[p] == parent && q == State.Slot(p, d)
      requires order == was[..q] + [n] + was[q..] && s == t.Inserted(p, d) && root == At(was, t.root)
      requires forall i {:trigger order[i]} :: 0 <= i < |order| ==> order[i].pos == i
      requires forall j {:trigger was[j]} :: 0 <= j < |was| ==> Hung(was[j], t.cells[j], was, n, parent, d)
      requires n.parent == parent && n.left == null && n.right == null && n.color == Red
      ensures InStep()
    {
      forall i | 0 <= i < |order| ensures Matches(order[i], s.cells[i], order) {
        if i == q {
          AtOpened(was, n, q, p);
        } else {
          var j := if i < q then i else i - 1;
          assert order[i] == was[j];
          HungMatches(was, t, n, parent, p, q, d, j);
        }
      }
      AtOpened(was, n, q, t.root);
    }

    lemma HungMatches(was: seq<Node<K, V>>, t: State, n: Node<K, V>, parent: Node<K, V>, p: int, q: int, d: Side, j: int)
      requires t.Linked() && 0 <= p < |was| == |t.cells| && was[p] == parent && q == State.Slot(p, d)
      requires order == was[..q] + [n] + was[q..] && s == t.Inserted(p, d)
      requires forall i {:trigger order[i]} :: 0 <= i < |order| ==> order[i].pos == i
      requires 0 <= j < |was| && Hung(was[j], t.cells[j], was, n, parent, d)
      ensures Matches(was[j], s.cells[State.Up(j, q)], order)
    {
      assert t.LinkedAt(j);
      t.InsertedCell(p, d, j);
      AtOpened(was, n, q, t.cells[j].left);
      AtOpened(was, n, q, t.cells[j].right);
      AtOpened(was, n, q, t.cells[j].parent);
      assert order[State.Up(j, q)] == was[j] && order[State.Up(p, q)] == parent && order[q] == n;
    }

    // ---- the tree as a whole -------------------------------------------------------------------

    /** A search tree with consistent parent pointers, a black root and no red node with a red child. */
    ghost predicate Valid()
      reads this`root, this`order, this`s, order
    {
      StrictTotalOrder(lt) && InStep() && s.Linked() && s.RedOkBut(NONE) && Sorted()
    }

    ghost function Entries(): (es: seq<(K, V)>)
      reads this`root, this`order, this`s, order
      ensures |es| == |order|
    {
      var ns := order;
      seq(|ns|, i requires 0 <= i < |ns| reads ns => (ns[i].key, ns[i].value))
    }

    ghost function Contents(): map<K, V>
      reads this`root, this`order, this`s, order
    {
      AsMap(Entries())
    }

    ghost function Shape(): Tree<K, V>
      requires Valid()
      reads this`root, this`order, this`s, order
    {
      RedBlackPicture.Shape(s, Entries(), s.root)
    }

    lemma EntriesDistinct()
      requires Valid()
      ensures DistinctKeys(Entries())
    {
    }

    /** Recomputes the ghost black heights from the shape of the tree, and puts op on record. */
    ghost method Measure(op: Op<K, V>)
      requires Valid()
      modifies this`s, this`history
      ensures history == old(history) + [op]
      ensures Valid() && Entries() == old(Entries()) && Shape() == old(Shape()) && |s.cells| == |old(s).cells|
      ensures old(s).SameTree(s)
      ensures old(Balanced(Shape())) ==> s.BalancedBut(NONE)
    {
      ghost var es := Entries();
      WithHeightsLinked(s, es);
      if s.root != NONE && Balanced(Shape()) {
        WithHeightsBalanced(s, es);
      }
      s, history := WithHeights(s, es), history + [op];
    }

    lemma BalancedFromHeights()
      requires Valid() && s.BalancedBut(NONE)
      ensures Balanced(Shape())
    {
      if s.root != NONE {
        ShapeBalanced(s, Entries(), s.root);
      }
    }

    /** The first entry of an empty tree. */
    method AddFirst(key: K, value: V)
      requires Valid() && root == null
      modifies this`root, this`order, this`s
      ensures Valid() && Entries() == [(key, value)] && fresh(root) && order == [root]
      ensures Balanced(Shape())
    {
      root := new Node(key, value, Black, null);
      order := [root];
      root.pos := 0;
      s := State(0, [Cell(Black, NONE, NONE, NONE, 0, 1, 1)]);
      assert s.RedOkAt(0) && s.LinkedAt(0) && s.BalancedAt(0, NONE);
      BalancedFromHeights();
    }

    /** A new entry at an empty place. */
    method AddLeaf(parent: Node<K, V>, d: Side, key: K, value: V) returns (ghost n: Node<K, V>)
      requires InStep() && s.Linked() && s.RedOkBut(NONE) && Has(parent) && s.cells[parent.pos].Kid(d) == NONE
      modifies this`root, this`order, this`s, order`left, order`right, order`parent, order`color, order`pos
      ensures InStep() && s.Linked() && s.RedOkBut(NONE)
      ensures fresh(n) && n.key == key && n.value == value
      ensures var q := State.Slot(old(parent.pos), d); order == old(order)[..q] + [n] + old(order)[q..]
      ensures old(s).BalancedBut(NONE) ==> s.BalancedBut(NONE)
    {
      var newNode := new Node(key, value, Red, parent);
      n := newNode;
      s.InsertedOk(parent.pos, d);
      Hang(newNode, parent, d);
      OnlyAdded(old(order), newNode.pos, newNode);
      FixupPut(newNode);
    }

    lemma EntriesInserted(was: seq<Node<K, V>>, es: seq<(K, V)>, q: int, n: Node<K, V>)
      requires 0 <= q <= |was| == |es| && order == was[..q] + [n] + was[q..]
      requires forall i {:trigger was[i]} :: 0 <= i < |was| ==> es[i] == (was[i].key, was[i].value)
      ensures InsertedAt(es, Entries(), q, (n.key, n.value))
    {
    }

    method Update(n: Node<K, V>, value: V)
      requires Valid() && Has(n)
      modifies n`value
      ensures Valid() && Contents() == old(Contents())[n.key := value]
      ensures Entries() == old(Entries())[n.pos := (n.key, value)]
    {
      EntriesDistinct();
      n.value := value;
      AsMapUpdate(old(Entries()), n.pos, value);
      assert Entries() == old(Entries())[n.pos := (n.key, value)];
    }

    /** What a new node at its place in the order does to the mapping. */
    lemma InsertedContents(was: seq<Node<K, V>>, es: seq<(K, V)>, q: int, n: Node<K, V>)
      requires 0 <= q <= |was| == |es| && order == was[..q] + [n] + was[q..]
      requires forall i {:trigger was[i]} :: 0 <= i < |was| ==> es[i] == (was[i].key, was[i].value)
      requires StrictTotalOrder(lt) && Ascends(lt, was)
      requires forall i {:trigger was[i]} :: 0 <= i < q ==> lt(was[i].key, n.key)
      requires forall i {:trigger was[i]} :: q <= i < |was| ==> lt(n.key, was[i].key)
      ensures Sorted() && Contents() == AsMap(es)[n.key := n.value]
    {
      AscendsInserted(lt, was, q, n);
      EntriesInserted(was, es, q, n);
      assert DistinctKeys(es) by {
        forall i, j | 0 <= i < j < |es| ensures es[i].0 != es[j].0 {
          assert lt(was[i].key, was[j].key);
        }
      }
      forall i | 0 <= i < |es| ensures es[i].0 != n.key {
        assert lt(was[i].key, n.key) || lt(n.key, was[i].key);
      }
      AsMapInsert(es, Entries(), q, n.key, n.value);
    }

    /** A new entry at the place where the search for its key ended. */
    method Insert(parent: Node<K, V>, d: Side, key: K, value: V) returns (ghost n: Node<K, V>)
      requires InStep() && s.Linked() && s.RedOkBut(NONE) && Sorted() && StrictTotalOrder(lt)
      requires AtPlace(parent, null, Dir(d)) && Brackets(key, State.Slot(parent.pos, d), State.Slot(parent.pos, d))
      modifies this`root, this`order, this`s, order`left, order`right, order`parent, order`color, order`pos
      ensures InStep() && s.Linked() && s.RedOkBut(NONE) && Sorted()
      ensures Contents() == old(Contents())[key := value]
      ensures fresh(n) && forall i {:trigger order[i]} :: 0 <= i < |order| ==> order[i] == n || order[i] in old(order)
      ensures old(s).BalancedBut(NONE) ==> s.BalancedBut(NONE)
    {
      ghost var q := State.Slot(parent.pos, d);
      assert s.LinkedAt(parent.pos);
      n := AddLeaf(parent, d, key, value);
      InsertedContents(old(order), old(Entries()), q, n);
      OnlyAdded(old(order), q, n);
    }

    /** Add, with the ghost heights up to date if the tree is balanced. */
    method AddToMeasured(key: K, value: V)
      requires Valid() && root != null
      modifies this`root, this`order, this`s, order
      ensures Valid() && Contents() == old(Contents())[key := value]
      ensures forall i {:trigger order[i]} :: 0 <= i < |order| ==> order[i] in old(order) || fresh(order[i])
      ensures old(s).BalancedBut(NONE) ==> s.BalancedBut(NONE)
    {
      var (found, parent, dir) := InternalLookup(null, root, key, NoDir);
      if found {
        if parent == null {
          Update(root, value);
        } else if dir.side.Left? {
          Update(parent.left, value);
        } else {
          Update(parent.right, value);
        }
      } else if parent != null {
        ghost var n := Insert(parent, dir.side, key, value);
      }
    }

    /** Inserts or updates: the mapping becomes the old one with key bound to value, and a balanced
        tree stays balanced. */
    method Add(key: K, value: V)
      requires Valid()
      modifies this, order
      ensures Valid() && Contents() == old(Contents())[key := value] && history == old(history) + [Op.Add(key, value)]
      ensures forall i {:trigger order[i]} :: 0 <= i < |order| ==> order[i] in old(order) || fresh(order[i])
      ensures old(Balanced(Shape())) ==> Balanced(Shape())
    {
      if root == null {
        AddFirst(key, value);
        history := history + [Op.Add(key, value)];
      } else {
        Measure(Op.Add(key, value));
        AddToMeasured(key, value);
        if s.BalancedBut(NONE) {
          BalancedFromHeights();
        }
      }
    }

    /** The sibling turns red; the ghost account moves to the parent, whose colour stays. */
    method Defer(p: Node<K, V>, w: Node<K, V>)
      requires InStep() && Has(p) && Has(w) && p != w
      modifies this`s, w`color
      ensures InStep() && s == old(s).Deferred(p.pos, w.pos)
    {
      ghost var t := s;
      SetColor(w, Red, t.cells[w.pos].bh - 1);
      s := s.Paint(p.pos, p.color, t.cells[p.pos].bh - 1);
    }

    /** The last case: w takes its parent's colour, the parent and the outer nephew turn black, w rises. */
    method SettleRight(p: Node<K, V>, w: Node<K, V>, o: Node<K, V>)
      requires InStep() && s.Linked() && Has(p) && Has(w) && Has(o) && s.cells[p.pos].left == w.pos
      modifies this`root, this`s, order`left, order`right, order`parent, order`color
      ensures InStep() && s == old(s).Settled(p.pos, w.pos, o.pos, Right)
    {
      ghost var t := s;
      s.PrimedLinked(p.pos, w.pos, o.pos);
      SetColor(w, p.color, t.cells[p.pos].bh);
      SetColor(p, Black, t.cells[w.pos].bh);
      SetColor(o, Black, t.cells[o.pos].bh + 1);
      assert s == t.Primed(p.pos, w.pos, o.pos);
      RotateRight(p);
    }

    /** The sibling w of a right child x is black and has a red child. */
    method LiftAndSettleRight(x: Node<K, V>, p: Node<K, V>, w: Node<K, V>)
      requires InStep() && Has(x) && Has(p) && Has(w) && x != root && p.left == w
      requires s.DeleteCase(x.pos, p.pos, Right) && !s.RedAt(w.pos) && (IsRed(w.left) || IsRed(w.right))
      modifies this`root, this`s, order`left, order`right, order`parent, order`color
      ensures InStep() && s.In(s.root) && old(s).DeleteProgress(s, x.pos, s.root)
    {
      if IsRed(w.right) && !IsRed(w.left) {
        SettleInnerRight(x, p, w);
      } else {
        SettleOuterRight(x, p, w);
      }
    }

    /** Only the inner nephew is red: it rises above w first. */
    method SettleInnerRight(x: Node<K, V>, p: Node<K, V>, w: Node<K, V>)
      requires InStep() && Has(x) && Has(p) && Has(w) && x != root && p.left == w
      requires s.DeleteCase(x.pos, p.pos, Right) && !s.RedAt(w.pos) && IsRed(w.right) && !IsRed(w.left)
      modifies this`root, this`s, order`left, order`right, order`parent, order`color
      ensures InStep() && s.In(s.root) && old(s).DeleteProgress(s, x.pos, s.root)
    {
      s.InnerLifted(x.pos, p.pos, w.pos, w.right.pos, Right);
      ghost var v := w.right;
      LiftRight(w.right, w);
      assert s.cells[p.pos].left == v.pos && s.cells[v.pos].left == w.pos;
      SettleRight(p, p.left, p.left.left);
    }

    method SettleOuterRight(x: Node<K, V>, p: Node<K, V>, w: Node<K, V>)
      requires InStep() && Has(x) && Has(p) && Has(w) && x != root && p.left == w
      requires s.DeleteCase(x.pos, p.pos, Right) && !s.RedAt(w.pos) && IsRed(w.left)
      modifies this`root, this`s, order`left, order`right, order`parent, order`color
      ensures InStep() && s.In(s.root) && old(s).DeleteProgress(s, x.pos, s.root)
    {
      s.SettledProgress(x.pos, p.pos, w.pos, w.left.pos, Right);
      SettleRight(p, w, w.left);
    }

    /** One pass for a right child x whose sibling w is there and black. */
    method MendRight(x: Node<K, V>, p: Node<K, V>, w: Node<K, V>) returns (x': Node<K, V>)
      requires InStep() && Has(x) && Has(p) && Has(w) && x != root && p.left == w
      requires s.DeleteCase(x.pos, p.pos, Right) && !s.RedAt(w.pos)
      modifies this`root, this`s, order`left, order`right, order`parent, order`color
      ensures InStep() && Has(x') && old(s).DeleteProgress(s, x.pos, x'.pos)
    {
      if !IsRed(w.left) && !IsRed(w.right) {
        s.DeferredProgress(x.pos, p.pos, Right);
        assert s.LinkedAt(w.pos) && s.LinkedAt(p.pos);
        Defer(p, w);
        x' := p;
      } else {
        LiftAndSettleRight(x, p, w);
        x' := root;
      }
    }

    /** The red sibling of a right child x rises over the parent; w' is the new sibling. */
    method LiftSiblingRight(x: Node<K, V>, p: Node<K, V>, w: Node<K, V>) returns (w': Node?<K, V>)
      requires InStep() && Has(x) && Has(p) && Has(w) && x != root && p.left == w
      requires s.DeleteCase(x.pos, p.pos, Right) && s.RedAt(w.pos)
      modifies this`root, this`s, order`left, order`right, order`parent, order`color
      ensures InStep() && s.DeleteCase(x.pos, p.pos, Right) && x != root && old(s).DeleteProgress(s, x.pos, x.pos)
      ensures w' == p.left && (w' != null ==> Has(w') && !s.RedAt(w'.pos))
    {
      s.SiblingLiftedProgress(x.pos, p.pos, Right);
      LiftLeft(w, p);
      assert s.LinkedAt(p.pos);
      w' := p.left;
    }

    /** The loop body of fixupDelete for a right child x: nothing happens while the sibling is missing. */
    method DeleteStepRight(x: Node<K, V>) returns (x': Node<K, V>)
      requires InStep() && s.Linked() && Has(x) && x != root && x.parent != null && x == x.parent.right && Has(x.parent)
      requires s.DeleteCase(x.pos, x.parent.pos, Right)
      modifies this`root, this`s, order`left, order`right, order`parent, order`color
      ensures InStep() && Has(x')
      ensures old(x.parent.left) == null ==> x' == x && unchanged(this) && unchanged(order)
      ensures old(x.parent.left) != null ==> old(s).DeleteProgress(s, x.pos, x'.pos)
    {
      x' := x;
      var p := x.parent;
      var w := p.left;
      if IsRed(w) {
        w := LiftSiblingRight(x, p, w);
        ghost var t := s;
        if w != null {
          x' := MendRight(x, p, w);
          old(s).ProgressOn(t, s, x.pos, x'.pos);
        }
      } else if w != null {
        x' := MendRight(x, p, w);
      }
    }

    /** The last case: w takes its parent's colour, the parent and the outer nephew turn black, w rises. */
    method SettleLeft(p: Node<K, V>, w: Node<K, V>, o: Node<K, V>)
      requires InStep() && s.Linked() && Has(p) && Has(w) && Has(o) && s.cells[p.pos].right == w.pos
      modifies this`root, this`s, order`left, order`right, order`parent, order`color
      ensures InStep() && s == old(s).Settled(p.pos, w.pos, o.pos, Left)
    {
      ghost var t := s;
      s.PrimedLinked(p.pos, w.pos, o.pos);
      SetColor(w, p.color, t.cells[p.pos].bh);
      SetColor(p, Black, t.cells[w.pos].bh);
      SetColor(o, Black, t.cells[o.pos].bh + 1);
      assert s == t.Primed(p.pos, w.pos, o.pos);
      RotateLeft(p);
    }

    /** The sibling w of a left child x is black and has a red child. */
    method LiftAndSettleLeft(x: Node<K, V>, p: Node<K, V>, w: Node<K, V>)
      requires InStep() && Has(x) && Has(p) && Has(w) && x != root && p.right == w
      requires s.DeleteCase(x.pos, p.pos, Left) && !s.RedAt(w.pos) && (IsRed(w.right) || IsRed(w.left))
      modifies this`root, this`s, order`left, order`right, order`parent, order`color
      ensures InStep() && s.In(s.root) && old(s).DeleteProgress(s, x.pos, s.root)
    {
      if IsRed(w.left) && !IsRed(w.right) {
        SettleInnerLeft(x, p, w);
      } else {
        SettleOuterLeft(x, p, w);
      }
    }

    /** Only the inner nephew is red: it rises above w first. */
    method SettleInnerLeft(x: Node<K, V>, p: Node<K, V>, w: Node<K, V>)
      requires InStep() && Has(x) && Has(p) && Has(w) && x != root && p.right == w
      requires s.DeleteCase(x.pos, p.pos, Left) && !s.RedAt(w.pos) && IsRed(w.left) && !IsRed(w.right)
      modifies this`root, this`s, order`left, order`right, order`parent, order`color
      ensures InStep() && s.In(s.root) && old(s).DeleteProgress(s, x.pos, s.root)
    {
      s.InnerLifted(x.pos, p.pos, w.pos, w.left.pos, Left);
      ghost var v := w.left;
      LiftLeft(w.left, w);
      assert s.cells[p.pos].right == v.pos && s.cells[v.pos].right == w.pos;
      SettleLeft(p, p.right, p.right.right);
    }

    method SettleOuterLeft(x: Node<K, V>, p: Node<K, V>, w: Node<K, V>)
      requires InStep() && Has(x) && Has(p) && Has(w) && x != root && p.right == w
      requires s.DeleteCase(x.pos, p.pos, Left) && !s.RedAt(w.pos) && IsRed(w.right)
      modifies this`root, this`s, order`left, order`right, order`parent, order`color
      ensures InStep() && s.In(s.root) && old(s).DeleteProgress(s, x.pos, s.root)
    {
      s.SettledProgress(x.pos, p.pos, w.pos, w.right.pos, Left);
      SettleLeft(p, w, w.right);
    }

    /** One pass for a left child x whose sibling w is there and black. */
    method MendLeft(x: Node<K, V>, p: Node<K, V>, w: Node<K, V>) returns (x': Node<K, V>)
      requires InStep() && Has(x) && Has(p) && Has(w) && x != root && p.right == w
      requires s.DeleteCase(x.pos, p.pos, Left) && !s.RedAt(w.pos)
      modifies this`root, this`s, order`left, order`right, order`parent, order`color
      ensures InStep() && Has(x') && old(s).DeleteProgress(s, x.pos, x'.pos)
    {
      if !IsRed(w.right) && !IsRed(w.left) {
        s.DeferredProgress(x.pos, p.pos, Left);
        assert s.LinkedAt(w.pos) && s.LinkedAt(p.pos);
        Defer(p, w);
        x' := p;
      } else {
        LiftAndSettleLeft(x, p, w);
        x' := root;
      }
    }

    /** The red sibling of a left child x rises over the parent; w' is the new sibling. */
    method LiftSiblingLeft(x: Node<K, V>, p: Node<K, V>, w: Node<K, V>) returns (w': Node?<K, V>)
      requires InStep() && Has(x) && Has(p) && Has(w) && x != root && p.right == w
      requires s.DeleteCase(x.pos, p.pos, Left) && s.RedAt(w.pos)
      modifies this`root, this`s, order`left, order`right, order`parent, order`color
      ensures InStep() && s.DeleteCase(x.pos, p.pos, Left) && x != root && old(s).DeleteProgress(s, x.pos, x.pos)
      ensures w' == p.right && (w' != null ==> Has(w') && !s.RedAt(w'.pos))
    {
      s.SiblingLiftedProgress(x.pos, p.pos, Left);
      LiftRight(w, p);
      assert s.LinkedAt(p.pos);
      w' := p.right;
    }

    /** The loop body of fixupDelete for a left child x: nothing happens while the sibling is missing. */
    method DeleteStepLeft(x: Node<K, V>) returns (x': Node<K, V>)
      requires InStep() && s.Linked() && Has(x) && x != root && x.parent != null && x == x.parent.left && Has(x.parent)
      requires s.DeleteCase(x.pos, x.parent.pos, Left)
      modifies this`root, this`s, order`left, order`right, order`parent, order`color
      ensures InStep() && Has(x')
      ensures old(x.parent.right) == null ==> x' == x && unchanged(this) && unchanged(order)
      ensures old(x.parent.right) != null ==> old(s).DeleteProgress(s, x.pos, x'.pos)
    {
      x' := x;
      var p := x.parent;
      var w := p.right;
      if IsRed(w) {
        w := LiftSiblingLeft(x, p, w);
        ghost var t := s;
        if w != null {
          x' := MendLeft(x, p, w);
          old(s).ProgressOn(t, s, x.pos, x'.pos);
        }
      } else if w != null {
        x' := MendLeft(x, p, w);
      }
    }

    /** The loop body of fixupDelete. While x has no sibling it changes nothing. */
    method DeleteStep(x: Node<K, V>) returns (x': Node<K, V>, stuck: bool)
      requires InStep() && s.Linked() && Has(x) && x != root && !s.RedAt(x.pos) && s.RedOkNear(x.pos)
      modifies this`root, this`s, order`left, order`right, order`parent, order`color
      ensures InStep() && Has(x')
      ensures stuck ==> x' == x && unchanged(this) && unchanged(order) && s.Spins(x.pos) && !s.BalancedBut(x.pos)
      ensures !stuck ==> old(s).DeleteProgress(s, x.pos, x'.pos)
    {
      s.DeleteCaseFound(x.pos);
      assert s.LinkedAt(x.pos) && s.LinkedAt(x.parent.pos);
      s.SiblingMissing(x.pos, x.parent.pos, if x == x.parent.left then Left else Right);
      if x == x.parent.right {
        stuck := x.parent.left == null;
        x' := DeleteStepRight(x);
      } else {
        stuck := x.parent.right == null;
        x' := DeleteStepLeft(x);
      }
    }

    /** Restores the red-black properties at x after a deletion. The source loops for ever once x has
        no sibling, since its loop body then changes nothing; here the loop is left with spins set. */
    method FixupDelete(x0: Node<K, V>) returns (spins: bool)
      requires InStep() && s.Linked() && Has(x0) && s.RedOkNear(x0.pos)
      modifies this`root, this`s, order`left, order`right, order`parent, order`color
      ensures InStep() && s.Linked() && |s.cells| == |old(s).cells|
      ensures spins == old(s).Spins(x0.pos)
      ensures !spins ==> s.RedOkBut(NONE)
      ensures old(s).BalancedBut(x0.pos) ==> !spins && s.BalancedBut(NONE)
    {
      var x := x0;
      while x != root && x.color.Black?
        invariant InStep() && s.Linked() && Has(x) && s.RedOkNear(x.pos) && |s.cells| == |old(s).cells|
        invariant s.Spins(x.pos) == old(s).Spins(x0.pos)
        invariant old(s).BalancedBut(x0.pos) ==> s.BalancedBut(x.pos)
        decreases s.DeleteRank(x.pos)
      {
        s.RankPositive(x.pos);
        var stuck;
        x, stuck := DeleteStep(x);
        if stuck {
          return true;
        }
      }
      Blacken(x);
      return false;
    }

    method Blacken(x: Node<K, V>)
      requires InStep() && s.Linked() && Has(x) && s.RedOkNear(x.pos) && (x == root || x.color.Red?)
      modifies this`s, x`color
      ensures InStep() && s.Linked() && |s.cells| == |old(s).cells| && s.RedOkBut(NONE)
      ensures old(s).BalancedBut(x.pos) ==> s.BalancedBut(NONE)
    {
      s.BlackenedOk(x.pos);
      SetColor(x, Black, s.cells[x.pos].bh + 1 - Weight(x.color));
    }

    // ---- removal -------------------------------------------------------------------------------

    /** The fields of the node at place n of the old order are what After says. */
    static ghost predicate IsAfter(was: seq<Node<K, V>>, t: State, z: int, e: int, n: int)
      requires t.In(z) && t.In(e) && t.In(n) && |was| == |t.cells|
      reads was`color, was`left, was`right, was`parent
    {
      var m, c := was[n], t.After(z, e, n);
      && m.color == c.color && m.left == At(was, c.left) && m.right == At(was, c.right)
      && m.parent == At(was, c.parent)
    }

    lemma ClosedMatches(was: seq<Node<K, V>>, t: State, z: int, e: int, n: int, j: int)
      requires t.Removal(z, e) && |was| == |t.cells| && t.LinkedAt(e)
      requires 0 <= n < |was| && n != z && t.In(j) && j != e && t.LinkedAt(j) && j == (if n == e then z else n)
      requires IsAfter(was, t, z, e, n)
      ensures Matches(was[n], t.DownCell(j, e), was[..z] + was[z + 1..])
    {
      var c := t.cells[j];
      AtClosed(was, t, z, e, c.left);
      AtClosed(was, t, z, e, c.right);
      AtClosed(was, t, z, e, c.parent);
    }

    /** The node at place z is gone: every link between the other nodes is where After wants it. */
    lemma ClosedInStep(was: seq<Node<K, V>>, t: State, z: int, e: int)
      requires t.Removal(z, e) && |was| == |t.cells|
      requires order == was[..z] + was[z + 1..] && s == t.Spliced(e) && root == At(was, t.Redirect(z, e, t.root))
      requires forall i {:trigger order[i]} :: 0 <= i < |order| ==> order[i].pos == i
      requires forall n {:trigger IsAfter(was, t, z, e, n)} :: 0 <= n < |was| && n != z ==> IsAfter(was, t, z, e, n)
      ensures InStep()
    {
      assert t.LinkedAt(e);
      forall i | 0 <= i < |order| ensures Matches(order[i], s.cells[i], order) {
        var n, j := if i < z then i else i + 1, if i < e then i else i + 1;
        assert t.LinkedAt(j) && IsAfter(was, t, z, e, n);
        ClosedMatches(was, t, z, e, n, j);
        assert order[i] == was[n] && s.cells[i] == t.DownCell(j, e);
      }
      AtClosed(was, t, z, e, t.root);
    }

    lemma RearrangedIsAfter(t: State, z: int, e: int)
      requires InStep() && t.Removal(z, e) && t.Rearranged(s, z, e)
      ensures forall n {:trigger IsAfter(order, t, z, e, n)} :: 0 <= n < |order| && n != z ==> IsAfter(order, t, z, e, n)
    {
      forall n | 0 <= n < |order| && n != z ensures IsAfter(order, t, z, e, n) {
        assert Matches(order[n], s.cells[n], order);
      }
    }

    /** Takes place z out of the order. */
    ghost method Renumbered(z: int)
      requires 0 <= z < |order|
      requires forall i {:trigger order[i]} :: 0 <= i < |order| ==> order[i].pos == i
      modifies this`order, order`pos
      ensures order == old(order)[..z] + old(order)[z + 1..]
      ensures forall i {:trigger order[i]} :: 0 <= i < |order| ==> order[i].pos == i
    {
      ghost var was := order;
      order := was[..z] + was[z + 1..];
      assert forall i {:trigger order[i]} :: 0 <= i < |order| ==> order[i] == was[if i < z then i else i + 1];
      forall i | 0 <= i < |order| {
        order[i].pos := i;
      }
    }

    /** Takes the node at z, already unlinked, out of the tree's picture. */
    ghost method Close(t: State, z: int, e: int)
      requires InStep() && t.Removal(z, e) && t.Rearranged(s, z, e)
      modifies this`order, this`s, order`pos
      ensures InStep() && s == t.Spliced(e) && order == old(order)[..z] + old(order)[z + 1..]
    {
      RearrangedIsAfter(t, z, e);
      Renumbered(z);
      s := t.Spliced(e);
      ClosedInStep(old(order), t, z, e);
    }

    method Transplant(u: Node<K, V>, v: Node?<K, V>)
      requires InStep() && Has(u) && (v != null ==> Has(v))
      requires s.cells[u.pos].parent == NONE || s.In(s.cells[u.pos].parent)
      modifies this`root, this`s, order`left, order`right, order`parent
      ensures InStep() && s == old(s).Transplanted(u.pos, Pos(v))
    {
      var p := u.parent;
      SwapChild(p, u, v);
      SetParent(v, p);
    }

    /** The leftmost node below x0. */
    method GetMinimum(x0: Node<K, V>) returns (x: Node<K, V>)
      requires InStep() && s.Linked() && Has(x0)
      ensures Has(x) && s.cells[x.pos].left == NONE && x.pos == s.cells[x0.pos].lo
    {
      x := x0;
      assert s.LinkedAt(x.pos);
      while x.left != null
        invariant Has(x) && s.cells[x.pos].lo == s.cells[x0.pos].lo && s.LinkedAt(x.pos)
        decreases x.pos - s.cells[x0.pos].lo
      {
        x := x.left;
        assert s.LinkedAt(x.pos);
      }
    }

    /** The successor y takes z's place, left subtree and colour. */
    method Promote(z: Node<K, V>, y: Node<K, V>, ghost p: int, ghost l: int)
      requires InStep() && Has(z) && Has(y) && z != y && l == s.cells[z.pos].left && p == s.cells[z.pos].parent
      requires s.In(l) && (p == NONE || s.In(p)) && l != z.pos && l != y.pos && l != p && p != y.pos && p != z.pos
      modifies this`root, this`s, order`left, order`right, order`parent, order`color
      ensures InStep() && s == old(s).Promoted(z.pos, y.pos, p, l)
    {
      ghost var t := s;
      Transplant(z, y);
      assert s.cells[z.pos] == t.cells[z.pos];
      SetLeft(y, z.left);
      assert s.cells[y.pos].left == l;
      SetParent(y.left, y);
      assert s.cells[z.pos].color == t.cells[z.pos].color;
      SetColor(y, z.color, t.cells[z.pos].bh);
    }

    /** The successor y of z, which is z's own right child or lies further down, replaces it. */
    method PullUp(z: Node<K, V>, y: Node<K, V>)
      requires InStep() && Has(z) && Has(y) && y.pos == z.pos + 1 && s.Removal(z.pos, y.pos)
      modifies this`root, this`s, order`left, order`right, order`parent, order`color
      ensures InStep() && old(s).Rearranged(s, z.pos, y.pos)
    {
      ghost var t := s;
      ghost var x, p, q := t.cells[y.pos].right, t.cells[z.pos].parent, t.cells[y.pos].parent;
      ghost var l, r := t.cells[z.pos].left, t.cells[z.pos].right;
      t.PullingFound(z.pos);
      if y.parent == z {
        t.NearRearranged(z.pos, y.pos, x, p, l, r);
        SetParent(y.right, y);
        Promote(z, y, p, l);
      } else {
        PullUpFar(z, y, x, p, q, l, r);
      }
    }

    method PullUpFar(z: Node<K, V>, y: Node<K, V>, ghost x: int, ghost p: int, ghost q: int, ghost l: int, ghost r: int)
      requires InStep() && Has(z) && Has(y) && s.Removal(z.pos, y.pos) && s.Pulling(z.pos, y.pos, x, p, q, l, r) && q != z.pos
      modifies this`root, this`s, order`left, order`right, order`parent, order`color
      ensures InStep() && old(s).Rearranged(s, z.pos, y.pos)
    {
      s.FarRearranged(z.pos, y.pos, x, p, q, l, r);
      Detach(z, y, x, p, q, l, r);
      Promote(z, y, p, l);
    }

    method Detach(z: Node<K, V>, y: Node<K, V>, ghost x: int, ghost p: int, ghost q: int, ghost l: int, ghost r: int)
      requires InStep() && Has(z) && Has(y) && s.Pulling(z.pos, y.pos, x, p, q, l, r) && q != z.pos
      modifies this`root, this`s, order`left, order`right, order`parent
      ensures InStep() && s == old(s).Detached(z.pos, y.pos, x, p, q, l, r)
    {
      ghost var t := s;
      Transplant(y, y.right);
      assert s.cells[z.pos] == t.cells[z.pos];
      SetRight(y, z.right);
      assert s.cells[y.pos].right == r;
      SetParent(y.right, y);
    }

    /** Takes z, which has two children, out of the tree: its successor takes its place. */
    method UnlinkInner(z: Node<K, V>) returns (x: Node?<K, V>, color: Color)
      requires InStep() && s.Linked() && Has(z) && z.left != null && z.right != null
      modifies this`root, this`s, order`left, order`right, order`parent, order`color
      ensures var t, e := old(s), old(s).EmptiedBy(z.pos);
              && t.In(e) && t.Rearranged(s, z.pos, e) && InStep()
              && color == t.cells[e].color && x == At(order, t.OnlyKid(e))
    {
      s.RemovalFound(z.pos);
      assert s.LinkedAt(z.pos);
      var y := GetMinimum(z.right);
      color := y.color;
      x := y.right;
      PullUp(z, y);
    }

    /** Takes z, whose only child if any is x, out of the tree: x takes its place. */
    method UnlinkOuter(z: Node<K, V>, x: Node?<K, V>)
      requires InStep() && s.Linked() && Has(z) && (z.left == null || z.right == null)
      requires x == At(order, s.OnlyKid(z.pos))
      modifies this`root, this`s, order`left, order`right, order`parent
      ensures InStep() && old(s).Rearranged(s, z.pos, z.pos)
    {
      s.RemovalFound(z.pos);
      assert s.LinkedAt(z.pos);
      s.TransplantedRearranged(z.pos);
      Transplant(z, x);
    }

    /** Takes z out of the tree. Position e is emptied; its only child x, if any, has moved up. */
    method Unlink(z: Node<K, V>) returns (x: Node?<K, V>, color: Color, ghost e: int)
      requires InStep() && s.Linked() && Has(z)
      modifies this`root, this`order, this`s, order`left, order`right, order`parent, order`color, order`pos
      ensures e == old(s.EmptiedBy(z.pos)) && old(s).In(e) && color == old(s).cells[e].color
      ensures InStep() && s == old(s).Spliced(e)
      ensures order == old(order)[..old(z.pos)] + old(order)[old(z.pos) + 1..]
      ensures x == At(order, State.Down(old(s).OnlyKid(e), e))
    {
      ghost var t, k := s, z.pos;
      x, color := UnlinkNode(z);
      e := t.EmptiedBy(k);
      AtClosed(order, t, k, e, e);
      Close(t, k, e);
    }

    /** The links skip z. */
    method UnlinkNode(z: Node<K, V>) returns (x: Node?<K, V>, color: Color)
      requires InStep() && s.Linked() && Has(z)
      modifies this`root, this`s, order`left, order`right, order`parent, order`color
      ensures var t, e := old(s), old(s).EmptiedBy(z.pos);
              && t.Removal(z.pos, e) && t.LinkedAt(e) && t.Rearranged(s, z.pos, e) && InStep()
              && color == t.cells[e].color && x == At(order, t.OnlyKid(e))
    {
      s.RemovalFound(z.pos);
      assert s.LinkedAt(z.pos) && s.LinkedAt(s.EmptiedBy(z.pos));
      if z.left == null {
        color := z.color;
        x := z.right;
        UnlinkOuter(z, x);
      } else if z.right == null {
        color := z.color;
        x := z.left;
        UnlinkOuter(z, x);
      } else {
        x, color := UnlinkInner(z);
      }
    }

    // ---- removal as a whole --------------------------------------------------------------------

    /** A search tree with consistent parent pointers; its colours may be anything. */
    ghost predicate SearchTree()
      reads this`root, this`order, this`s, order
    {
      StrictTotalOrder(lt) && InStep() && s.Linked() && Sorted()
    }

    /** The key is there, and removing it empties the place of a black leaf other than the root. */
    ghost predicate EmptiesBlackLeaf(key: K)
      requires SearchTree()
      reads this`root, this`order, this`s, order
    {
      exists i :: 0 <= i < |order| && order[i].key == key && s.BlackLeaf(s.EmptiedBy(i))
    }

    /** The key is there, and after its removal fixupDelete never ends. */
    ghost predicate RemoveSpins(key: K)
      requires SearchTree()
      reads this`root, this`order, this`s, order
    {
      exists i :: 0 <= i < |order| && order[i].key == key && s.RemovalSpins(i)
    }

    /** A childless node, or a red one with a single child. */
    static predicate Loose(z: Node<K, V>)
      reads z
    {
      (z.left == null || z.right == null) && (z.color.Red? || z.left == z.right)
    }

    function GetNode(key: K): (n: Node?<K, V>)
      requires SearchTree()
      reads this`root, this`order, this`s, order
      ensures n != null ==> Has(n) && n.key == key
      ensures n == null ==> forall i :: 0 <= i < |order| ==> order[i].key != key
    {
      if root == null then null
      else
        var (found, parent, dir) := InternalLookup(null, root, key, NoDir);
        if found then ChildOf(parent, dir) else null
    }

    /** The node is gone from the order: what that does to the mapping. */
    lemma RemovedContents(was: seq<Node<K, V>>, es: seq<(K, V)>, z: int)
      requires 0 <= z < |was| == |es| && order == was[..z] + was[z + 1..]
      requires forall i {:trigger was[i]} :: 0 <= i < |was| ==> es[i] == (was[i].key, was[i].value)
      requires StrictTotalOrder(lt) && Ascends(lt, was)
      ensures Sorted() && Contents() == AsMap(es) - {was[z].key}
    {
      assert forall i {:trigger order[i]} :: 0 <= i < |order| ==> order[i] == was[if i < z then i else i + 1];
      assert DistinctKeys(es) by {
        forall i, j | 0 <= i < j < |es| ensures es[i].0 != es[j].0 {
          assert lt(was[i].key, was[j].key);
        }
      }
      AsMapDelete(es, z);
      assert Entries() == es[..z] + es[z + 1..];
    }

    /** Takes z out of the tree and mends what that has broken. */
    method RemoveNode(z: Node<K, V>) returns (spins: bool, ghost e: int)
      requires InStep() && s.Linked() && s.RedOkBut(NONE) && Has(z)
      modifies this`root, this`order, this`s, order`left, order`right, order`parent, order`color, order`pos
      ensures InStep() && s.Linked() && (!spins ==> s.RedOkBut(NONE))
      ensures order == old(order)[..old(z.pos)] + old(order)[old(z.pos) + 1..]
      ensures spins == old(s).RemovalSpins(old(z.pos)) && e == old(s).EmptiedBy(old(z.pos))
      ensures old(s).BalancedBut(NONE) && !old(s).BlackLeaf(e) ==> !spins && s.BalancedBut(NONE)
      ensures old(s).BlackLeaf(e) ==> !spins && s == old(s).Spliced(e)
      ensures old(s).LooseAt(old(z.pos)) ==> !spins && s == old(s).Spliced(old(z.pos))
    {
      ghost var t, k, was := s, z.pos, order;
      var x, color;
      x, color, e := Unlink(z);
      OnlyRemoved(was, k);
      spins := Mend(x, color, t, k, e);
    }

    /** What follows the unlinking of node k of t: nothing, unless a black node with a child has gone. */
    method Mend(x: Node?<K, V>, color: Color, ghost t: State, ghost k: int, ghost e: int) returns (spins: bool)
      requires t.Linked() && t.RedOkBut(NONE) && t.In(k) && e == t.EmptiedBy(k) && t.In(e) && InStep() && s == t.Spliced(e)
      requires color == t.cells[e].color && x == At(order, State.Down(t.OnlyKid(e), e))
      modifies this`root, this`s, order`left, order`right, order`parent, order`color
      ensures InStep() && s.Linked() && (!spins ==> s.RedOkBut(NONE))
      ensures spins == t.RemovalSpins(k)
      ensures t.BalancedBut(NONE) && !t.BlackLeaf(e) ==> !spins && s.BalancedBut(NONE)
      ensures t.BlackLeaf(e) ==> !spins && s == t.Spliced(e)
      ensures t.LooseAt(k) ==> !spins && s == t.Spliced(k)
    {
      t.RemovalLeaves(k);
      assert t.LinkedAt(e);
      if color == Black && x != null {
        spins := FixupDelete(x);
      } else {
        spins := false;
      }
    }

    /** Remove, once the node is found and the ghost heights are up to date if the tree is balanced; was is
        the tree with the heights it had before. */
    method RemoveFromMeasured(z: Node<K, V>, ghost was: State) returns (spins: bool)
      requires Valid() && Has(z) && was.Linked() && was.SameTree(s)
      modifies this`root, this`order, this`s, order`left, order`right, order`parent, order`color, order`pos
      ensures SearchTree() && Contents() == old(Contents()) - {z.key} && (!spins ==> Valid())
      ensures forall i {:trigger order[i]} :: 0 <= i < |order| ==> order[i] in old(order)
      ensures spins == was.RemovalSpins(old(z.pos))
      ensures old(s).BalancedBut(NONE) ==>
                !spins && (Balanced(Shape()) <==> !was.BlackLeaf(was.EmptiedBy(old(z.pos))))
      ensures was.LooseAt(old(z.pos)) ==> !spins && TakenOut(old(order), was, old(z.pos))
    {
      ghost var e, k, t := 0, z.pos, s;
      was.RemovalIgnoresHeights(t, k);
      spins, e := RemoveNode(z);
      RemovedContents(old(order), old(Entries()), k);
      OnlyRemoved(old(order), k);
      if t.BalancedBut(NONE) {
        BalanceAfter(t, e);
      }
      if t.LooseAt(k) {
        was.SplicedIgnoresHeights(t, k);
      }
    }

    /** Deletes the entry under key, if there is one. The source's fixup may never end (spins); a
        balanced tree makes it end, and stays balanced exactly if no black leaf below the root was lost.
        A loose node is taken out without any other change. */
    method Remove(key: K) returns (spins: bool)
      requires Valid()
      modifies this, order
      ensures SearchTree() && Contents() == old(Contents()) - {key}
      ensures forall i {:trigger order[i]} :: 0 <= i < |order| ==> order[i] in old(order)
      ensures spins == old(RemoveSpins(key))
      ensures !spins ==> Valid()
      ensures old(Balanced(Shape())) ==> !spins && (Balanced(Shape()) <==> !old(EmptiesBlackLeaf(key)))
      ensures var z := old(GetNode(key));
              z != null && old(Loose(z)) ==> !spins && TakenOut(old(order), old(s), old(z.pos))
      ensures history == old(history) + [Op.Remove(key)]
    {
      var z := GetNode(key);
      if z == null {
        KeyAbsent(key);
        history := history + [Op.Remove(key)];
        return false;
      }
      KeyPresent(z);
      spins := RemoveFound(z);
    }

    /** Remove, once the node is found. */
    method RemoveFound(z: Node<K, V>) returns (spins: bool)
      requires Valid() && Has(z)
      modifies this, order
      ensures SearchTree() && Contents() == old(Contents()) - {z.key} && (!spins ==> Valid())
      ensures history == old(history) + [Op.Remove(z.key)]
      ensures forall i {:trigger order[i]} :: 0 <= i < |order| ==> order[i] in old(order)
      ensures spins == old(s.RemovalSpins(z.pos))
      ensures old(Balanced(Shape())) ==> !spins && (Balanced(Shape()) <==> !old(s.BlackLeaf(s.EmptiedBy(z.pos))))
      ensures old(Loose(z)) ==> !spins && TakenOut(old(order), old(s), old(z.pos))
    {
      ghost var was := s;
      LooseIsLoose(z);
      Measure(Op.Remove(z.key));
      spins := RemoveFromMeasured(z, was);
    }

    /** The node at position k of the tree (was, t) has been taken out: its only child, if any, has moved up
        to its place, and nothing else has changed. */
    ghost predicate TakenOut(was: seq<Node<K, V>>, t: State, k: int)
      requires t.In(k) && |was| == |t.cells|
      reads this`order, this`s
    {
      order == was[..k] + was[k + 1..] && t.Spliced(k).SameTree(s)
    }

    lemma LooseIsLoose(z: Node<K, V>)
      requires InStep() && s.Linked() && Has(z)
      ensures Loose(z) == s.LooseAt(z.pos)
    {
      assert s.LinkedAt(z.pos);
    }

    lemma BalanceAfter(t: State, e: int)
      requires Valid() && t.Linked() && t.BalancedBut(NONE)
      requires if t.BlackLeaf(e) then s == t.Spliced(e) else s.BalancedBut(NONE)
      ensures Balanced(Shape()) <==> !t.BlackLeaf(e)
    {
      if t.BlackLeaf(e) {
        SplicedBroken(t, e, Entries());
      } else {
        BalancedFromHeights();
      }
    }

    lemma KeyAbsent(key: K)
      requires SearchTree() && forall i :: 0 <= i < |order| ==> order[i].key != key
      ensures key !in Contents() && !RemoveSpins(key) && !EmptiesBlackLeaf(key)
    {
      AsMapKeys(Entries(), key);
    }

    /** A key belongs to one node only. */
    lemma KeyPresent(z: Node<K, V>)
      requires SearchTree() && Has(z)
      ensures RemoveSpins(z.key) == s.RemovalSpins(z.pos)
      ensures EmptiesBlackLeaf(z.key) == s.BlackLeaf(s.EmptiedBy(z.pos))
    {
      forall i | 0 <= i < |order| && order[i].key == z.key ensures i == z.pos {
      }
    }

    /** The same, read off the tree. */
    lemma EmptiesReadOff(key: K)
      requires Valid()
      ensures EmptiesBlackLeaf(key) == TakesBlackLeaf(lt, Shape(), key)
    {
      var z := GetNode(key);
      EntriesDistinct();
      if z == null {
        KeyAbsent(key);
        ShapeFindNone(lt, s, Entries(), s.root, key);
      } else {
        KeyPresent(z);
        ShapeTakes(lt, s, Entries(), z.pos);
      }
    }

    lemma FoundAgain(z: Node<K, V>)
      requires SearchTree() && Has(z)
      ensures GetNode(z.key) == z
    {
      var n := GetNode(z.key);
      assert n != null;
      assert !(n.pos < z.pos) && !(z.pos < n.pos);
    }

    // ---- construction and reading --------------------------------------------------------------

    constructor (lt: (K, K) -> bool)
      requires StrictTotalOrder(lt)
      ensures this.lt == lt && Valid() && Contents() == map[] && order == [] && Balanced(Shape()) && history == []
    {
      this.lt := lt;
      root := null;
      order, history := [], [];
      s := State(NONE, []);
    }

    method Clear()
      requires SearchTree()
      modifies this
      ensures Valid() && Contents() == map[] && order == [] && Balanced(Shape()) && history == old(history) + [Op.Clear]
    {
      history := history + [Op.Clear];
      root := null;
      order := [];
      s := State(NONE, []);
    }

    method Get(key: K) returns (value: Option<V>)
      requires SearchTree()
      ensures value == if key in Contents() then Some(Contents()[key]) else None
    {
      var n := GetNode(key);
      if n == null {
        AsMapKeys(Entries(), key);
        value := None;
      } else {
        SearchTreeDistinct();
        AsMapAt(Entries(), n.pos);
        value := Some(n.value);
      }
    }

    method Contains(key: K) returns (found: bool)
      requires SearchTree()
      ensures found == (key in Contents())
    {
      var (there, _, _) := InternalLookup(null, root, key, NoDir);
      found := there;
      AsMapKeys(Entries(), key);
      if there {
        var n := GetNode(key);
        if n != null {
          assert Entries()[n.pos].0 == key;
        }
      }
    }

    lemma SearchTreeDistinct()
      requires SearchTree()
      ensures DistinctKeys(Entries()) && Ascending(lt, Entries())
    {
    }

    /** The in-order walk of a search tree meets every entry once, in ascending order. */
    lemma WalkIsEntries()
      requires SearchTree()
      ensures InOrder(ShapeOf(root)) == Entries() && Ascending(lt, Entries())
      ensures RedBlackShape.Size(ShapeOf(root)) == |Entries()| == |Contents()|
    {
      SearchTreeDistinct();
      AsMapSize(Entries());
      SizeIsWalkLength(ShapeOf(root));
      if s.root == NONE {
        assert s.cells == [];
      } else {
        ShapeInOrder(s, Entries(), s.root);
      }
    }

    /** What Valid adds: a black root, no red node with a red child; with balance, logarithmic height. */
    lemma ValidShape()
      requires Valid()
      ensures Shape() == ShapeOf(root) && !RedBlackShape.IsRed(Shape()) && NoRedRed(Shape())
      ensures Balanced(Shape()) ==> IsRedBlack(Shape())
      ensures Balanced(Shape()) ==> Pow2(Height(Shape())) <= (|Contents()| + 1) * (|Contents()| + 1)
    {
      WalkIsEntries();
      if s.root != NONE {
        assert s.RedOkAt(s.root);
        ShapeNoRedRed(s, Entries(), s.root);
      }
      if Balanced(Shape()) {
        HeightIsLogarithmic(Shape());
      }
    }

    /** Children and parents point at each other, and only the root has no parent. */
    lemma ParentsConsistent(n: Node<K, V>)
      requires SearchTree() && Has(n)
      ensures n.left != null ==> Has(n.left) && n.left.parent == n && lt(n.left.key, n.key)
      ensures n.right != null ==> Has(n.right) && n.right.parent == n && lt(n.key, n.right.key)
      ensures n.parent == null <==> n == root
      ensures n.parent != null ==> Has(n.parent) && (n.parent.left == n || n.parent.right == n)
    {
      assert s.LinkedAt(n.pos);
      if n.parent != null {
        assert s.LinkedAt(s.cells[n.pos].parent);
      }
      if n.left != null {
        assert s.LinkedAt(s.cells[n.pos].left);
      }
      if n.right != null {
        assert s.LinkedAt(s.cells[n.pos].right);
      }
    }

    /** The subtree below n, as a tree. */
    ghost function ShapeOf(n: Node?<K, V>): Tree<K, V>
      requires SearchTree() && (n != null ==> Has(n))
      reads this`root, this`order, this`s, order, n
    {
      RedBlackPicture.Shape(s, Entries(), Pos(n))
    }

    /** The walk below n is the walk below its left child, n itself, and the walk below its right child. */
    lemma WalkAround(n: Node<K, V>)
      requires SearchTree() && Has(n)
      ensures (n.left != null ==> Has(n.left)) && (n.right != null ==> Has(n.right)) && s.LinkedAt(n.pos)
      ensures InOrder(ShapeOf(n)) == InOrder(ShapeOf(n.left)) + [(n.key, n.value)] + InOrder(ShapeOf(n.right))
    {
      assert s.LinkedAt(n.pos);
    }

    lemma SizeAround(n: Node<K, V>)
      requires SearchTree() && Has(n)
      ensures n.left != null ==> Has(n.left) && s.cells[n.left.pos].hi - s.cells[n.left.pos].lo < s.cells[n.pos].hi - s.cells[n.pos].lo
      ensures n.right != null ==> Has(n.right) && s.cells[n.right.pos].hi - s.cells[n.right.pos].lo < s.cells[n.pos].hi - s.cells[n.pos].lo
      ensures s.cells[n.pos].lo < s.cells[n.pos].hi
      ensures RedBlackShape.Size(ShapeOf(n)) == RedBlackShape.Size(ShapeOf(n.left)) + 1 + RedBlackShape.Size(ShapeOf(n.right))
    {
      WalkAround(n);
    }

    method Size() returns (size: nat)
      requires SearchTree()
      ensures size == |Contents()|
    {
      WalkIsEntries();
      var v := new CountingVisitor();
      var _ := v.Visit(this, root);
      size := v.count;
    }
  }

  /** Counts the nodes it visits. */
  class CountingVisitor {
    var count: nat

    constructor ()
      ensures count == 0
    {
      count := 0;
    }

    method Visit<K(==, !new), V>(t: TreeMap<K, V>, n: Node?<K, V>) returns (ok: bool)
      requires t.SearchTree() && (n != null ==> t.Has(n))
      modifies this
      ensures ok && count == old(count) + RedBlackShape.Size(t.ShapeOf(n))
      decreases if n == null then 0 else t.s.cells[n.pos].hi - t.s.cells[n.pos].lo
    {
      if n == null {
        return true;
      }
      t.SizeAround(n);
      ghost var l, r := RedBlackShape.Size(t.ShapeOf(n.left)), RedBlackShape.Size(t.ShapeOf(n.right));
      ghost var all := RedBlackShape.Size(t.ShapeOf(n));
      ok := Visit(t, n.left);
      assert count == old(count) + l;
      if !ok {
        return;
      }
      count := count + 1;
      ok := Visit(t, n.right);
      assert count == old(count) + l + 1 + r == old(count) + all;
    }
  }
}
