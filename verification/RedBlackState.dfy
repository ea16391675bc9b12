/** A red-black tree as one value: the cell of every node, indexed by the node's in-order position.

    The pointer algorithms rewrite cells; everything they promise is proved here, on values, and
    `RedBlackTree` shows that the heap follows. */
module RedBlackState {
  import opened RedBlackShape

  datatype Side = Left | Right

  function Opposite(d: Side): Side {
    if d.Left? then Right else Left
  }

  const NONE := -1

  datatype Cell = Cell(color: Color, left: int, right: int, parent: int, lo: int, hi: int, bh: int)
  {
    function Kid(d: Side): int {
      if d.Left? then left else right
    }

    function WithKid(d: Side, n: int): Cell {
      if d.Left? then this.(left := n) else this.(right := n)
    }
  }

  datatype State = State(root: int, cells: seq<Cell>)
  {
    predicate In(n: int)
    {
      0 <= n < |cells|
    }

    ghost predicate KidAt(n: int, k: int, lo: int, hi: int)
    {
      if lo == hi then k == NONE
      else lo <= k < hi && In(k) && cells[k].parent == n && cells[k].lo == lo && cells[k].hi == hi
    }

    /** The pointers around n agree with each other and with the in-order sequence. */
    ghost predicate LinkedAt(n: int)
      requires In(n)
    {
      var c := cells[n];
      && 0 <= c.lo <= n < c.hi <= |cells|
      && KidAt(n, c.left, c.lo, n)
      && KidAt(n, c.right, n + 1, c.hi)
      && (if c.parent == NONE then n == root
          else In(c.parent) && (cells[c.parent].left == n || cells[c.parent].right == n))
    }

    ghost predicate Linked()
    {
      && KidAt(NONE, root, 0, |cells|)
      && (forall n {:trigger LinkedAt(n)} :: In(n) ==> LinkedAt(n))
    }


    // ---- colours and black heights -------------------------------------------------------------

    predicate RedAt(n: int)
    {
      In(n) && cells[n].color.Red?
    }

    /** A red node has a black parent (so the root is black). */
    ghost predicate RedOkAt(n: int)
      requires In(n)
    {
      RedAt(n) ==> cells[n].parent != NONE && !RedAt(cells[n].parent)
    }

    /** No red node has a red parent, except perhaps z. */
    ghost predicate RedOkBut(z: int)
    {
      forall n {:trigger RedOkAt(n)} :: In(n) && n != z ==> RedOkAt(n)
    }

    /** No red node has a red parent, except perhaps where x is one of the two. */
    ghost predicate RedOkNear(x: int)
    {
      forall n {:trigger RedOkAt(n)} :: In(n) && n != x && cells[n].parent != x ==> RedOkAt(n)
    }

    /** The black height of the subtree at k, counting one more black on x. */
    function HeightAt(k: int, x: int): int
    {
      if In(k) then cells[k].bh + (if k == x then 1 else 0) else 0
    }

    ghost predicate BalancedAt(n: int, x: int)
      requires In(n)
    {
      var c := cells[n];
      c.bh == Weight(c.color) + HeightAt(c.left, x) && HeightAt(c.left, x) == HeightAt(c.right, x)
    }

    /** Every path to a leaf has the same number of blacks, counting one more on x. */
    ghost predicate BalancedBut(x: int)
    {
      forall n {:trigger BalancedAt(n, x)} :: In(n) ==> BalancedAt(n, x)
    }

    function WithKid(n: int, d: Side, k: int): State
      requires In(n)
    {
      this.(cells := cells[n := cells[n].WithKid(d, k)])
    }

    function WithParent(n: int, p: int): State
      requires n == NONE || In(n)
    {
      if n == NONE then this else this.(cells := cells[n := cells[n].(parent := p)])
    }

    /** Whatever pointed from p (or from above, if p is none) down to x points to y. */
    function SwapChild(p: int, x: int, y: int): State
      requires p == NONE || In(p)
    {
      if p == NONE then this.(root := y)
      else if cells[p].left == x then WithKid(p, Left, y)
      else WithKid(p, Right, y)
    }

    /** Equal but for the ghost intervals and heights. */
    ghost predicate SameLinks(t: State)
    {
      && t.root == root && |t.cells| == |cells|
      && forall n {:trigger t.cells[n]} {:trigger cells[n]} :: In(n) ==>
           var c, e := cells[n], t.cells[n];
           c.color == e.color && c.left == e.left && c.right == e.right && c.parent == e.parent
    }

    function Paint(n: int, c: Color, bh: int): State
      requires In(n)
    {
      this.(cells := cells[n := cells[n].(color := c, bh := bh)])
    }

    lemma PaintLinked(n: int, c: Color, bh: int)
      requires In(n) && Linked()
      ensures Paint(n, c, bh).Linked()
    {
      var s := Paint(n, c, bh);
      forall m | s.In(m) ensures s.LinkedAt(m) {
        assert LinkedAt(m);
      }
    }

    // ---- rotation ------------------------------------------------------------------------------

    /** What becomes of node n when y rises over x towards side d; b changes sides, p is the old parent. */
    function RotatedCell(x: int, y: int, b: int, d: Side, n: int): Cell
      requires In(x) && In(y) && In(n)
    {
      var c := cells[n];
      if n == x then
        if d.Left? then Cell(c.color, c.left, b, y, c.lo, y, c.bh)
        else Cell(c.color, b, c.right, y, y + 1, c.hi, c.bh)
      else if n == y then
        if d.Left? then Cell(c.color, x, c.right, cells[x].parent, cells[x].lo, c.hi, c.bh)
        else Cell(c.color, c.left, x, cells[x].parent, c.lo, cells[x].hi, c.bh)
      else
        Cell(c.color, if c.left == x then y else c.left, if c.right == x then y else c.right,
             if n == b then x else c.parent, c.lo, c.hi, c.bh)
    }

    /** Rotation about x towards side d: the child on the other side rises. */
    function Rotated(x: int, d: Side): State
      requires In(x) && In(cells[x].Kid(Opposite(d)))
    {
      var y := cells[x].Kid(Opposite(d));
      var b := cells[y].Kid(d);
      State(if root == x then y else root,
            seq(|cells|, n requires 0 <= n < |cells| => RotatedCell(x, y, b, d, n)))
    }



    lemma RotatedPivots(x: int, d: Side)
      requires In(x) && In(cells[x].Kid(Opposite(d)))
      requires Linked()
      ensures Rotated(x, d).LinkedAt(x)
      ensures Rotated(x, d).LinkedAt(cells[x].Kid(Opposite(d)))
    {
      var y := cells[x].Kid(Opposite(d));
      assert LinkedAt(x) && LinkedAt(y);
      if d.Left? { assert Rotated(x, d).LinkedAt(x); } else { assert Rotated(x, d).LinkedAt(x);}
    }

    lemma RotatedKid(x: int, d: Side, n: int, k: int, lo: int, hi: int)
      requires In(x) && In(cells[x].Kid(Opposite(d)))
      requires n != x && n != cells[x].Kid(Opposite(d))
      requires LinkedAt(x) && LinkedAt(cells[x].Kid(Opposite(d)))
      requires KidAt(n, k, lo, hi)
      ensures Rotated(x, d).KidAt(n, if k == x then cells[x].Kid(Opposite(d)) else k, lo, hi)
    {
    }

    lemma RotatedOthers(x: int, d: Side, n: int)
      requires In(x) && In(cells[x].Kid(Opposite(d))) && In(n)
      requires n != x && n != cells[x].Kid(Opposite(d))
      requires LinkedAt(x) && LinkedAt(cells[x].Kid(Opposite(d)))
      requires LinkedAt(n)
      ensures Rotated(x, d).LinkedAt(n)
    {
      var c := cells[n];
      RotatedKid(x, d, n, c.left, c.lo, n);
      RotatedKid(x, d, n, c.right, n + 1, c.hi);
    }

    lemma RotatedLinked(x: int, d: Side)
      requires In(x) && In(cells[x].Kid(Opposite(d)))
      requires Linked()
      ensures Rotated(x, d).Linked()
    {
      var s := Rotated(x, d);
      var y := cells[x].Kid(Opposite(d));
      assert LinkedAt(x) && LinkedAt(y);
      RotatedKid(x, d, NONE, root, 0, |cells|);
      RotatedPivots(x, d);
      forall n | s.In(n) ensures s.LinkedAt(n) {
        if n != x && n != y {
          assert LinkedAt(n);
          RotatedOthers(x, d, n);
        }
      }
    }

    // ---- insertion fixup -----------------------------------------------------------------------

    /** What fixupPut keeps true: only z may be a red node with a red (or no) parent. */
    ghost predicate PutInv(z: int)
    {
      Linked() && In(z) && RedAt(z) && RedOkBut(z)
    }


    /** z, its red parent p, the grandparent g, and the side of g on which p hangs. */
    ghost predicate PutCase(z: int, p: int, g: int, d: Side)
    {
      && PutInv(z) && p == cells[z].parent && RedAt(p)
      && In(g) && g == cells[p].parent && cells[g].Kid(d) == p
    }

    lemma PutCaseFacts(z: int, p: int, g: int, d: Side)
      requires PutCase(z, p, g, d)
      ensures LinkedAt(z) && LinkedAt(p) && LinkedAt(g)
      ensures !RedAt(g) && z != p && p != g && z != g && cells[g].Kid(Opposite(d)) != p
      ensures cells[g].Kid(Opposite(d)) != z
      ensures cells[z].lo >= cells[p].lo >= cells[g].lo && cells[z].hi <= cells[p].hi <= cells[g].hi
      ensures cells[z].hi - cells[z].lo < cells[g].hi - cells[g].lo
    {
      assert LinkedAt(z) && LinkedAt(p) && LinkedAt(g);
      assert RedOkAt(p);
    }

    /** Parent and uncle turn black, the grandparent red. */
    function Recolored(p: int, u: int, g: int): State
      requires In(p) && In(u) && In(g)
    {
      Paint(p, Black, cells[p].bh + 1).Paint(u, Black, cells[u].bh + 1).Paint(g, Red, cells[g].bh)
    }

    lemma RecoloredPutInv(z: int, p: int, g: int, d: Side)
      requires PutCase(z, p, g, d) && RedAt(cells[g].Kid(Opposite(d)))
      ensures Recolored(p, cells[g].Kid(Opposite(d)), g).PutInv(g)
    {
      PutCaseFacts(z, p, g, d);
      var u := cells[g].Kid(Opposite(d));
      var s := Recolored(p, u, g);
      PaintLinked(p, Black, cells[p].bh + 1);
      Paint(p, Black, cells[p].bh + 1).PaintLinked(u, Black, cells[u].bh + 1);
      Paint(p, Black, cells[p].bh + 1).Paint(u, Black, cells[u].bh + 1).PaintLinked(g, Red, cells[g].bh);
      forall n | s.In(n) && n != g ensures s.RedOkAt(n) {
        assert LinkedAt(n) && (n != z ==> RedOkAt(n));
        RecoloredRedOkAt(z, p, u, g, n);
      }
    }

    lemma RecoloredRedOkAt(z: int, p: int, u: int, g: int, n: int)
      requires In(p) && In(u) && In(g) && In(n) && p != u && p != g && u != g && n != g && !RedAt(g)
      requires LinkedAt(p) && LinkedAt(g) && LinkedAt(n) && (n == z ==> cells[z].parent == p) && (n != z ==> RedOkAt(n))
      requires cells[p].parent == g && RedAt(u) && (cells[g].left == u || cells[g].right == u)
      ensures Recolored(p, u, g).RedOkAt(n)
    {
    }

    lemma RecoloredBalancedAt(t: State, p: int, u: int, g: int, d: Side, n: int)
      requires In(p) && In(u) && In(g) && In(n) && p != u && p != g && u != g
      requires |t.cells| == |cells| && t.cells[p] == cells[p].(color := Black, bh := cells[p].bh + 1)
      requires t.cells[u] == cells[u].(color := Black, bh := cells[u].bh + 1) && t.cells[g] == cells[g].(color := Red)
      requires forall m {:trigger t.cells[m]} :: In(m) && m != p && m != u && m != g ==> t.cells[m] == cells[m]
      requires LinkedAt(g) && LinkedAt(n) && BalancedAt(n, NONE)
      requires RedAt(p) && RedAt(u) && !RedAt(g) && cells[g].Kid(d) == p && cells[g].Kid(Opposite(d)) == u
      ensures t.BalancedAt(n, NONE)
    {
    }

    lemma RecoloredBalanced(z: int, p: int, g: int, d: Side)
      requires PutCase(z, p, g, d) && RedAt(cells[g].Kid(Opposite(d)))
      requires BalancedBut(NONE)
      ensures Recolored(p, cells[g].Kid(Opposite(d)), g).BalancedBut(NONE)
    {
      PutCaseFacts(z, p, g, d);
      var u := cells[g].Kid(Opposite(d));
      var s := Recolored(p, u, g);
      forall n | s.In(n) ensures s.BalancedAt(n, NONE) {
        assert LinkedAt(n) && BalancedAt(n, NONE);
        RecoloredBalancedAt(s, p, u, g, d, n);
      }
    }

    /** An inner z changes places with its parent, which becomes the node to mend. */
    lemma InnerRotatedPutInv(z: int, p: int, g: int, d: Side)
      requires PutCase(z, p, g, d) && cells[p].Kid(Opposite(d)) == z
      ensures Rotated(p, d).PutCase(p, z, g, d)
    {
      PutCaseFacts(z, p, g, d);
      RotatedLinked(p, d);
      var s := Rotated(p, d);
      forall n | s.In(n) && n != p ensures s.RedOkAt(n) {
        assert LinkedAt(n);
        if n != z {
          assert RedOkAt(n);
        }
      }
    }

    /** Turning an edge between two red nodes changes no black height. */
    lemma RedRotatedBalanced(p: int, z: int, d: Side)
      requires Linked() && In(p) && In(z) && RedAt(p) && RedAt(z) && cells[p].Kid(Opposite(d)) == z
      requires BalancedBut(NONE)
      ensures Rotated(p, d).BalancedBut(NONE)
    {
      assert LinkedAt(p) && LinkedAt(z) && BalancedAt(p, NONE) && BalancedAt(z, NONE);
      RedRotatedPivots(p, z, d);
      forall n | Rotated(p, d).In(n) ensures Rotated(p, d).BalancedAt(n, NONE) {
        if n != p && n != z {
          assert LinkedAt(n) && BalancedAt(n, NONE);
          RotatedBalancedAt(p, d, n, NONE);
        }
      }
    }

    lemma RedRotatedPivots(p: int, z: int, d: Side)
      requires In(p) && In(z) && RedAt(p) && RedAt(z) && cells[p].Kid(Opposite(d)) == z
      requires LinkedAt(p) && LinkedAt(z) && BalancedAt(p, NONE) && BalancedAt(z, NONE)
      ensures Rotated(p, d).BalancedAt(p, NONE) && Rotated(p, d).BalancedAt(z, NONE)
      ensures cells[p].bh == cells[z].bh
    {
    }

    lemma RotatedBalancedAt(x: int, d: Side, n: int, e: int)
      requires In(x) && In(cells[x].Kid(Opposite(d))) && In(n) && e != x && e != cells[x].Kid(Opposite(d))
      requires n != x && n != cells[x].Kid(Opposite(d)) && cells[x].bh == cells[cells[x].Kid(Opposite(d))].bh
      requires BalancedAt(n, e)
      ensures Rotated(x, d).BalancedAt(n, e)
    {
    }

    /** The parent turns black, the grandparent red. */
    function Swapped(p: int, g: int): State
      requires In(p) && In(g)
    {
      Paint(p, Black, cells[p].bh + 1).Paint(g, Red, cells[g].bh - 1)
    }

    lemma SwappedLinked(p: int, g: int)
      requires Linked() && In(p) && In(g)
      ensures Swapped(p, g).Linked()
    {
      PaintLinked(p, Black, cells[p].bh + 1);
      Paint(p, Black, cells[p].bh + 1).PaintLinked(g, Red, cells[g].bh - 1);
    }

    /** The parent turns black, the grandparent red, and the parent rises over it. */
    function Lifted(p: int, g: int, d: Side): State
      requires In(p) && In(g) && cells[g].Kid(d) == p
    {
      Swapped(p, g).Rotated(g, Opposite(d))
    }

    lemma LiftedLinked(p: int, g: int, d: Side)
      requires Linked() && In(p) && In(g) && cells[g].Kid(d) == p
      ensures Lifted(p, g, d).Linked()
    {
      SwappedLinked(p, g);
      Swapped(p, g).RotatedLinked(g, Opposite(d));
    }

    /** Lifting mends a red z under a red p, and does no harm when there is no such z. */
    lemma LiftedRedOk(z: int, p: int, g: int, d: Side)
      requires Linked() && RedAt(p) && In(g) && !RedAt(g) && cells[g].Kid(d) == p
      requires !RedAt(cells[g].Kid(Opposite(d)))
      requires RedOkBut(z) && (z == NONE || cells[p].Kid(d) == z)
      ensures Lifted(p, g, d).RedOkBut(NONE)
    {
      assert LinkedAt(p) && LinkedAt(g);
      forall n | Lifted(p, g, d).In(n) ensures Lifted(p, g, d).RedOkAt(n) {
        assert LinkedAt(n) && (n != z ==> RedOkAt(n));
        LiftedRedOkAt(z, p, g, d, n);
      }
    }

    lemma LiftedRedOkAt(z: int, p: int, g: int, d: Side, n: int)
      requires In(p) && In(g) && In(n) && LinkedAt(p) && LinkedAt(g) && LinkedAt(n)
      requires RedAt(p) && !RedAt(g) && cells[g].Kid(d) == p && !RedAt(cells[g].Kid(Opposite(d)))
      requires (n != z ==> RedOkAt(n)) && (z == NONE || cells[p].Kid(d) == z)
      ensures Lifted(p, g, d).RedOkAt(n)
    {
    }

    lemma LiftedBalancedPivots(p: int, g: int, d: Side, e: int)
      requires In(p) && In(g) && p != g && e != p && e != g && cells[g].Kid(d) == p && RedAt(p) && !RedAt(g)
      requires LinkedAt(p) && LinkedAt(g) && BalancedAt(p, e) && BalancedAt(g, e)
      ensures Lifted(p, g, d).BalancedAt(p, e) && Lifted(p, g, d).BalancedAt(g, e)
      ensures cells[p].bh + 1 == cells[g].bh
    {
    }

    /** Seen from above, the turned subtree is as high as before. */
    lemma LiftedKid(p: int, g: int, d: Side, k: int, e: int)
      requires In(p) && In(g) && p != g && e != p && e != g && cells[g].Kid(d) == p && cells[p].bh + 1 == cells[g].bh && k != p
      ensures Lifted(p, g, d).HeightAt(if k == g then p else k, e) == HeightAt(k, e)
    {
    }

    lemma LiftedPivots(p: int, g: int, d: Side)
      requires In(p) && In(g) && p != g && cells[g].Kid(d) == p
      ensures var t := Lifted(p, g, d);
              && t.cells[p].Kid(Opposite(d)) == g && t.cells[p].Kid(d) == cells[p].Kid(d) && t.cells[g].parent == p
              && !t.RedAt(p) && t.RedAt(g) && t.cells[g].Kid(d) == cells[p].Kid(Opposite(d)) && t.cells[p].parent == cells[g].parent
              && t.root == (if root == g then p else root)
    {
    }

    lemma LiftedCell(p: int, g: int, d: Side, n: int)
      requires In(p) && In(g) && In(n) && p != g && n != p && n != g && cells[g].Kid(d) == p
      ensures var c, f := cells[n], Lifted(p, g, d).cells[n];
              && f.color == c.color && f.bh == c.bh && (n != cells[p].Kid(Opposite(d)) ==> f.parent == c.parent)
              && f.left == (if c.left == g then p else c.left) && f.right == (if c.right == g then p else c.right)
    {
    }

    lemma LiftedBalancedAt(p: int, g: int, d: Side, n: int, e: int)
      requires In(p) && In(g) && In(n) && p != g && e != p && e != g && n != p && n != g && cells[g].Kid(d) == p
      requires LinkedAt(g) && LinkedAt(n) && BalancedAt(n, e) && cells[p].bh + 1 == cells[g].bh
      ensures Lifted(p, g, d).BalancedAt(n, e)
    {
      LiftedCell(p, g, d, n);
      LiftedKid(p, g, d, cells[n].left, e);
      LiftedKid(p, g, d, cells[n].right, e);
    }

    lemma LiftedBalanced(p: int, g: int, d: Side, e: int)
      requires Linked() && RedAt(p) && In(g) && !RedAt(g) && e != p && e != g && cells[g].Kid(d) == p
      requires BalancedBut(e)
      ensures Lifted(p, g, d).BalancedBut(e)
    {
      assert LinkedAt(p) && LinkedAt(g) && BalancedAt(p, e) && BalancedAt(g, e);
      LiftedBalancedPivots(p, g, d, e);
      forall n | Lifted(p, g, d).In(n) ensures Lifted(p, g, d).BalancedAt(n, e) {
        assert LinkedAt(n) && BalancedAt(n, e);
        if n != p && n != g {
          LiftedBalancedAt(p, g, d, n, e);
        }
      }
    }

    /** x turns black for good: it pays its debt of one black, or is the root and owes none. */
    function Blackened(x: int): State
      requires In(x)
    {
      Paint(x, Black, cells[x].bh + 1 - Weight(cells[x].color))
    }

    lemma BlackenedOk(x: int)
      requires Linked() && In(x) && RedOkNear(x) && (x == root || RedAt(x))
      ensures Blackened(x).Linked() && Blackened(x).RedOkBut(NONE)
      ensures BalancedBut(x) ==> Blackened(x).BalancedBut(NONE)
    {
      var s := Blackened(x);
      assert LinkedAt(x);
      PaintLinked(x, Black, cells[x].bh + 1 - Weight(cells[x].color));
      forall n | s.In(n) ensures s.RedOkAt(n) {
        assert LinkedAt(n);
        if n != x && cells[n].parent != x {
          assert RedOkAt(n);
        }
      }
      if BalancedBut(x) {
        forall n | s.In(n) ensures s.BalancedAt(n, NONE) {
          assert LinkedAt(n) && BalancedAt(n, x);
        }
      }
    }

    /** fixupPut has stopped at z: painting the root black completes it. */
    lemma PutDone(z: int)
      requires PutInv(z) && (cells[z].parent == NONE || !RedAt(cells[z].parent))
      ensures In(root) && RedOkNear(root)
      ensures BalancedBut(NONE) ==> BalancedBut(root)
    {
      assert LinkedAt(z);
      forall n | In(n) && n != root && cells[n].parent != root ensures RedOkAt(n) {
        assert LinkedAt(n);
      }
      RootOwesNothing();
    }

    lemma RootOwesNothing()
      requires Linked()
      ensures BalancedBut(NONE) <==> BalancedBut(root)
    {
      forall n | In(n) ensures BalancedAt(n, NONE) <==> BalancedAt(n, root) {
        assert LinkedAt(n);
      }
      if BalancedBut(NONE) {
        forall n | In(n) ensures BalancedAt(n, root) { assert BalancedAt(n, NONE); }
      }
      if BalancedBut(root) {
        forall n | In(n) ensures BalancedAt(n, NONE) { assert BalancedAt(n, root); }
      }
    }

    /** A red parent is not the root. */
    lemma PutCaseFound(z: int)
      requires PutInv(z) && RedAt(cells[z].parent)
      ensures var p := cells[z].parent;
              var g := cells[p].parent;
              In(g) && PutCase(z, p, g, if cells[g].left == p then Left else Right)
    {
      assert LinkedAt(z) && RedOkAt(cells[z].parent) && LinkedAt(cells[z].parent);
    }

    /** How far z is from the top while its parent is red; nothing is left to do at 0. */
    ghost function PutRank(z: int): nat
      requires Linked() && In(z)
    {
      assert LinkedAt(z);
      if RedAt(cells[z].parent) then 1 + |cells| - (cells[z].hi - cells[z].lo) else 0
    }

    /** One pass of fixupPut leads from z to z': the invariant holds on, balance is kept, z' is nearer the end. */
    ghost predicate PutProgress(t: State, z: int, z': int)
      requires Linked() && In(z)
    {
      && t.PutInv(z') && |t.cells| == |cells| && t.PutRank(z') < PutRank(z)
      && (BalancedBut(NONE) ==> t.BalancedBut(NONE))
    }

    lemma RecoloredProgress(z: int, p: int, g: int, d: Side)
      requires PutCase(z, p, g, d) && RedAt(cells[g].Kid(Opposite(d)))
      ensures PutProgress(Recolored(p, cells[g].Kid(Opposite(d)), g), z, g)
    {
      PutCaseFacts(z, p, g, d);
      RecoloredPutInv(z, p, g, d);
      if BalancedBut(NONE) {
        RecoloredBalanced(z, p, g, d);
      }
    }

    lemma LiftedProgress(z: int, p: int, g: int, d: Side)
      requires PutCase(z, p, g, d) && cells[p].Kid(d) == z && !RedAt(cells[g].Kid(Opposite(d)))
      ensures PutProgress(Lifted(p, g, d), z, z)
    {
      PutCaseFacts(z, p, g, d);
      LiftedLinked(p, g, d);
      LiftedRedOk(z, p, g, d);
      if BalancedBut(NONE) {
        LiftedBalanced(p, g, d, NONE);
      }
      assert Lifted(p, g, d).RedOkAt(z);
    }

    lemma InnerRotatedProgress(z: int, p: int, g: int, d: Side)
      requires PutCase(z, p, g, d) && cells[p].Kid(Opposite(d)) == z && !RedAt(cells[g].Kid(Opposite(d)))
      ensures var t := Rotated(p, d);
              && t.PutCase(p, z, g, d) && t.cells[z].Kid(d) == p && !t.RedAt(t.cells[g].Kid(Opposite(d)))
              && PutProgress(t.Lifted(z, g, d), z, p)
    {
      var t := Rotated(p, d);
      PutCaseFacts(z, p, g, d);
      InnerRotatedPutInv(z, p, g, d);
      assert t.cells[g].Kid(Opposite(d)) == cells[g].Kid(Opposite(d));
      t.LiftedProgress(p, z, g, d);
      assert t.LinkedAt(p);
      if BalancedBut(NONE) {
        RedRotatedBalanced(p, z, d);
      }
      var u := t.Lifted(z, g, d);
      assert u.PutRank(p) == 0 by {
        t.LiftedRedOk(p, z, g, d);
        assert u.RedOkAt(p);
      }
    }

    // ---- deletion fixup ------------------------------------------------------------------------

    /** x, a black node that is not the root, its parent p and its side of p. */
    ghost predicate DeleteCase(x: int, p: int, d: Side)
    {
      Linked() && RedOkBut(NONE) && In(x) && !RedAt(x) && In(p) && cells[x].parent == p && cells[p].Kid(d) == x
    }

    /** A red sibling rises over the parent, so that the new sibling is black. */
    lemma SiblingLifted(x: int, p: int, d: Side)
      requires DeleteCase(x, p, d) && RedAt(cells[p].Kid(Opposite(d)))
      ensures !RedAt(p)
      ensures var s := Lifted(cells[p].Kid(Opposite(d)), p, Opposite(d));
              s.DeleteCase(x, p, d) && s.RedAt(p)
    {
      var w := cells[p].Kid(Opposite(d));
      assert LinkedAt(p) && LinkedAt(x) && LinkedAt(w) && RedOkAt(w);
      LiftedLinked(w, p, Opposite(d));
      LiftedRedOk(NONE, w, p, Opposite(d));
    }

    /** The sibling takes over the missing black, and the parent owes it instead. */
    function Deferred(p: int, w: int): State
      requires In(p) && In(w)
    {
      Paint(w, Red, cells[w].bh - 1).Paint(p, cells[p].color, cells[p].bh - 1)
    }

    lemma DeferredRedOk(x: int, p: int, d: Side)
      requires DeleteCase(x, p, d)
      requires var w := cells[p].Kid(Opposite(d));
               In(w) && !RedAt(w) && !RedAt(cells[w].left) && !RedAt(cells[w].right)
      ensures var s := Deferred(p, cells[p].Kid(Opposite(d))); s.Linked() && s.RedOkNear(p)
    {
      var w := cells[p].Kid(Opposite(d));
      var s := Deferred(p, w);
      assert LinkedAt(p) && LinkedAt(w) && LinkedAt(x);
      PaintLinked(w, Red, cells[w].bh - 1);
      Paint(w, Red, cells[w].bh - 1).PaintLinked(p, cells[p].color, cells[p].bh - 1);
      forall n | s.In(n) && n != p && s.cells[n].parent != p ensures s.RedOkAt(n) {
        assert LinkedAt(n) && RedOkAt(n);
      }
    }

    lemma DeferredBalancedAt(t: State, x: int, p: int, w: int, d: Side, n: int)
      requires In(x) && In(p) && In(w) && In(n) && x != p && w != p && x != w && !RedAt(w)
      requires |t.cells| == |cells| && t.cells[w] == cells[w].(color := Red, bh := cells[w].bh - 1)
      requires t.cells[p] == cells[p].(bh := cells[p].bh - 1)
      requires forall m {:trigger t.cells[m]} :: In(m) && m != p && m != w ==> t.cells[m] == cells[m]
      requires LinkedAt(p) && LinkedAt(w) && LinkedAt(n) && cells[p].Kid(d) == x && cells[p].Kid(Opposite(d)) == w
      requires BalancedAt(n, x)
      ensures t.BalancedAt(n, p)
    {
    }

    lemma DeferredBalanced(x: int, p: int, d: Side)
      requires DeleteCase(x, p, d) && In(cells[p].Kid(Opposite(d))) && !RedAt(cells[p].Kid(Opposite(d)))
      requires BalancedBut(x)
      ensures Deferred(p, cells[p].Kid(Opposite(d))).BalancedBut(p)
    {
      var w := cells[p].Kid(Opposite(d));
      assert LinkedAt(p) && LinkedAt(w) && LinkedAt(x);
      forall n | Deferred(p, w).In(n) ensures Deferred(p, w).BalancedAt(n, p) {
        assert LinkedAt(n) && BalancedAt(n, x);
        DeferredBalancedAt(Deferred(p, w), x, p, w, d, n);
      }
    }

    /** The sibling w takes the parent's colour, parent and outer nephew o turn black, w rises. */
    function Settled(p: int, w: int, o: int, d: Side): State
      requires In(p) && In(w) && In(o) && cells[p].Kid(Opposite(d)) == w
    {
      Primed(p, w, o).Rotated(p, d)
    }

    /** The state Settled turns: colours and heights of the finished picture, links not yet. */
    function Primed(p: int, w: int, o: int): State
      requires In(p) && In(w) && In(o)
    {
      Paint(w, cells[p].color, cells[p].bh).Paint(p, Black, cells[w].bh).Paint(o, Black, cells[o].bh + 1)
    }

    lemma PrimedLinked(p: int, w: int, o: int)
      requires Linked() && In(p) && In(w) && In(o)
      ensures Primed(p, w, o).Linked()
    {
      PaintLinked(w, cells[p].color, cells[p].bh);
      var t := Paint(w, cells[p].color, cells[p].bh);
      t.PaintLinked(p, Black, cells[w].bh);
      t.Paint(p, Black, cells[w].bh).PaintLinked(o, Black, cells[o].bh + 1);
    }

    lemma SettledLinked(p: int, w: int, o: int, d: Side)
      requires Linked() && In(p) && In(w) && In(o) && cells[p].Kid(Opposite(d)) == w
      ensures Settled(p, w, o, d).Linked()
    {
      PrimedLinked(p, w, o);
      Primed(p, w, o).RotatedLinked(p, d);
    }

    /** The parties of the last deletion case, all distinct. */
    ghost predicate SettleCase(x: int, p: int, w: int, o: int, d: Side)
    {
      DeleteCase(x, p, d) && In(w) && cells[p].Kid(Opposite(d)) == w && RedAt(o) && cells[w].Kid(Opposite(d)) == o
    }

    lemma SettleCaseFacts(x: int, p: int, w: int, o: int, d: Side)
      requires SettleCase(x, p, w, o, d)
      ensures LinkedAt(x) && LinkedAt(p) && LinkedAt(w) && LinkedAt(o) && !RedAt(w)
      ensures x != p && x != w && x != o && p != w && p != o && w != o
    {
      assert LinkedAt(x) && LinkedAt(p) && LinkedAt(w) && LinkedAt(o) && RedOkAt(o);
    }

    /** Settled, cell by cell. */
    lemma SettledCells(p: int, w: int, o: int, d: Side)
      requires In(p) && In(w) && In(o) && p != w && p != o && w != o && cells[p].Kid(Opposite(d)) == w
      ensures PrimedTo(Primed(p, w, o), p, w, o)
      ensures Settled(p, w, o, d) == Primed(p, w, o).Rotated(p, d)
    {
    }

    /** t is this state with p, w and o repainted as in Settled. */
    ghost predicate PrimedTo(t: State, p: int, w: int, o: int)
    {
      && In(p) && In(w) && In(o) && p != w && p != o && w != o
      && t.root == root && |t.cells| == |cells|
      && t.cells[w] == cells[w].(color := cells[p].color, bh := cells[p].bh)
      && t.cells[p] == cells[p].(color := Black, bh := cells[w].bh)
      && t.cells[o] == cells[o].(color := Black, bh := cells[o].bh + 1)
      && (forall n {:trigger t.cells[n]} :: In(n) && n != p && n != w && n != o ==> t.cells[n] == cells[n])
    }

    lemma SettledRedOkAt(t: State, p: int, w: int, o: int, d: Side, n: int)
      requires PrimedTo(t, p, w, o) && cells[p].Kid(Opposite(d)) == w && cells[w].Kid(Opposite(d)) == o
      requires LinkedAt(p) && LinkedAt(w) && In(n) && LinkedAt(n) && RedOkAt(n) && RedOkAt(p)
      requires !RedAt(cells[p].Kid(d)) && !RedAt(w)
      ensures t.Rotated(p, d).RedOkAt(n)
    {
      if n != p && n != w && n != o {
        assert cells[n].parent == w ==> n == cells[w].Kid(d);
      }
    }

    lemma SettledRedOk(x: int, p: int, w: int, o: int, d: Side)
      requires SettleCase(x, p, w, o, d)
      ensures Settled(p, w, o, d).RedOkBut(NONE)
    {
      SettleCaseFacts(x, p, w, o, d);
      SettledCells(p, w, o, d);
      forall n | Settled(p, w, o, d).In(n) ensures Settled(p, w, o, d).RedOkAt(n) {
        assert LinkedAt(n) && RedOkAt(n) && RedOkAt(p);
        SettledRedOkAt(Primed(p, w, o), p, w, o, d, n);
      }
    }

    lemma SettledBalancedTurned(t: State, x: int, p: int, w: int, o: int, d: Side)
      requires PrimedTo(t, p, w, o) && cells[p].Kid(Opposite(d)) == w && cells[w].Kid(Opposite(d)) == o
      requires In(x) && cells[p].Kid(d) == x && x != p && x != w && x != o && !RedAt(w) && RedAt(o)
      requires LinkedAt(p) && LinkedAt(w) && BalancedAt(p, x) && BalancedAt(w, x)
      ensures t.Rotated(p, d).BalancedAt(p, NONE)
    {
    }

    lemma SettledBalancedPivots(t: State, x: int, p: int, w: int, o: int, d: Side)
      requires PrimedTo(t, p, w, o) && cells[p].Kid(Opposite(d)) == w && cells[w].Kid(Opposite(d)) == o
      requires In(x) && cells[p].Kid(d) == x && x != p && x != w && x != o && !RedAt(w) && RedAt(o)
      requires LinkedAt(p) && LinkedAt(w) && LinkedAt(o) && BalancedAt(p, x) && BalancedAt(w, x) && BalancedAt(o, x)
      ensures var s := t.Rotated(p, d); s.BalancedAt(p, NONE) && s.BalancedAt(w, NONE) && s.BalancedAt(o, NONE)
    {
      SettledBalancedTurned(t, x, p, w, o, d);
    }

    /** Seen from above, the turned subtree is as high as the old one was with x's extra black. */
    lemma SettledKid(t: State, x: int, p: int, w: int, o: int, d: Side, k: int)
      requires PrimedTo(t, p, w, o) && cells[p].Kid(Opposite(d)) == w
      requires x != p && k != x && k != w && k != o
      ensures t.Rotated(p, d).HeightAt(if k == p then w else k, NONE) == HeightAt(k, x)
    {
    }

    lemma SettledBalancedAt(t: State, x: int, p: int, w: int, o: int, d: Side, n: int)
      requires PrimedTo(t, p, w, o) && cells[p].Kid(Opposite(d)) == w && cells[w].Kid(Opposite(d)) == o
      requires In(x) && cells[p].Kid(d) == x && x != p && x != w && x != o
      requires LinkedAt(p) && LinkedAt(w)
      requires In(n) && LinkedAt(n) && n != p && n != w && n != o && BalancedAt(n, x)
      ensures t.Rotated(p, d).BalancedAt(n, NONE)
    {
      SettledKid(t, x, p, w, o, d, cells[n].left);
      SettledKid(t, x, p, w, o, d, cells[n].right);
    }

    lemma SettledBalanced(x: int, p: int, w: int, o: int, d: Side)
      requires SettleCase(x, p, w, o, d) && BalancedBut(x)
      ensures Settled(p, w, o, d).BalancedBut(NONE)
    {
      SettleCaseFacts(x, p, w, o, d);
      SettledCells(p, w, o, d);
      assert BalancedAt(p, x) && BalancedAt(w, x) && BalancedAt(o, x);
      SettledBalancedPivots(Primed(p, w, o), x, p, w, o, d);
      forall n | Settled(p, w, o, d).In(n) ensures Settled(p, w, o, d).BalancedAt(n, NONE) {
        if n != p && n != w && n != o {
          assert LinkedAt(n) && BalancedAt(n, x);
          SettledBalancedAt(Primed(p, w, o), x, p, w, o, d, n);
        }
      }
    }

    /** Whether fixupDelete, started at x, comes to a node whose sibling is missing, where its loop
        body changes nothing and so repeats for ever. */
    ghost predicate Spins(x: int)
      requires Linked() && In(x)
      decreases |cells| - (cells[x].hi - cells[x].lo)
    {
      assert LinkedAt(x);
      if x == root || RedAt(x) then false
      else
        var p := cells[x].parent;
        assert LinkedAt(p);
        var d := if cells[p].left == x then Left else Right;
        var w := cells[p].Kid(Opposite(d));
        if w == NONE then true
        else
          assert LinkedAt(w);
          if RedAt(w) then cells[w].Kid(d) == NONE
          else !RedAt(cells[w].left) && !RedAt(cells[w].right) && Spins(p)
    }

    /** The same tree in other colours. */
    ghost predicate Repainted(t: State)
    {
      && t.root == root && |t.cells| == |cells|
      && forall m {:trigger t.cells[m]} :: In(m) ==> t.cells[m] == cells[m].(color := t.cells[m].color, bh := t.cells[m].bh)
    }

    /** n and every node outside its subtree have kept their colours. */
    ghost predicate SameAround(t: State, n: int)
      requires In(n) && |t.cells| == |cells|
    {
      forall m {:trigger t.cells[m]} :: In(m) && (m < cells[n].lo || m == n || cells[n].hi <= m) ==> t.cells[m].color == cells[m].color
    }

    lemma SameAroundParent(t: State, n: int, p: int)
      requires In(n) && In(p) && |t.cells| == |cells| && SameAround(t, n) && LinkedAt(n) && LinkedAt(p) && cells[n].parent == p
      ensures SameAround(t, p)
    {
      assert p < cells[n].lo || cells[n].hi <= p;
    }

    /** The sibling of n and its children are outside the subtree of n. */
    lemma SameBeside(t: State, n: int, p: int, w: int)
      requires In(n) && In(p) && In(w) && |t.cells| == |cells| && SameAround(t, n) && n != w
      requires LinkedAt(n) && LinkedAt(p) && LinkedAt(w) && cells[n].parent == p && cells[w].parent == p
      ensures t.RedAt(w) == RedAt(w) && t.RedAt(cells[w].left) == RedAt(cells[w].left) && t.RedAt(cells[w].right) == RedAt(cells[w].right)
    {
      assert cells[w].hi <= cells[n].lo || cells[n].hi <= cells[w].lo;
    }

    /** Whether fixupDelete spins depends on nothing below the node it starts at. */
    lemma {:induction false} SpinsFromAbove(t: State, n: int)
      requires Linked() && t.Linked() && In(n) && Repainted(t) && SameAround(t, n)
      ensures t.Spins(n) == Spins(n)
      decreases |cells| - (cells[n].hi - cells[n].lo)
    {
      assert LinkedAt(n) && t.cells[n].parent == cells[n].parent;
      if n != root {
        var p := cells[n].parent;
        assert LinkedAt(p) && t.cells[p].left == cells[p].left && t.cells[p].right == cells[p].right;
        var w := cells[p].Kid(if cells[p].left == n then Right else Left);
        if In(w) {
          assert LinkedAt(w) && t.cells[w].left == cells[w].left && t.cells[w].right == cells[w].right;
          SameBeside(t, n, p, w);
        }
        SameAroundParent(t, n, p);
        SpinsFromAbove(t, p);
      }
    }

    lemma SpinsDeferred(x: int, p: int, d: Side)
      requires DeleteCase(x, p, d) && x != root
      requires var w := cells[p].Kid(Opposite(d));
               In(w) && !RedAt(w) && !RedAt(cells[w].left) && !RedAt(cells[w].right)
      ensures Deferred(p, cells[p].Kid(Opposite(d))).Linked()
      ensures Deferred(p, cells[p].Kid(Opposite(d))).Spins(p) == Spins(x)
    {
      var w := cells[p].Kid(Opposite(d));
      DeferredRedOk(x, p, d);
      assert LinkedAt(x) && LinkedAt(p) && LinkedAt(w);
      SpinsFromAbove(Deferred(p, w), p);
    }

    lemma SpinsLifted(x: int, p: int, d: Side)
      requires DeleteCase(x, p, d) && x != root && RedAt(cells[p].Kid(Opposite(d)))
      ensures Lifted(cells[p].Kid(Opposite(d)), p, Opposite(d)).Linked()
      ensures Lifted(cells[p].Kid(Opposite(d)), p, Opposite(d)).Spins(x) == Spins(x)
    {
      var w := cells[p].Kid(Opposite(d));
      var s := Lifted(w, p, Opposite(d));
      SiblingLifted(x, p, d);
      assert LinkedAt(x) && LinkedAt(p) && LinkedAt(w);
      assert s.LinkedAt(x) && s.LinkedAt(p);
      assert s.cells[p].Kid(Opposite(d)) == cells[w].Kid(d);
      var b := cells[w].Kid(d);
      if In(b) {
        assert s.RedOkAt(b) && s.LinkedAt(b);
        assert !s.RedAt(b);
      }
      assert s.RedAt(p) && !s.Spins(p);
    }

    ghost function SiblingOf(x: int): int
      requires In(x) && In(cells[x].parent)
    {
      var p := cells[cells[x].parent];
      if p.left == x then p.right else p.left
    }

    /** How far x is from the top; one more while its sibling is red. */
    ghost function DeleteRank(x: int): int
      requires Linked() && In(x)
    {
      assert LinkedAt(x);
      if x == root then 0
      else 2 * (|cells| - (cells[x].hi - cells[x].lo)) + (if RedAt(SiblingOf(x)) then 1 else 0)
    }

    /** One pass of fixupDelete leads from x to x', nearer the end: the pass neither decides whether
        the loop spins nor loses the account of blacks. */
    ghost predicate DeleteProgress(t: State, x: int, x': int)
      requires Linked() && In(x)
    {
      && t.Linked() && t.In(x') && t.RedOkNear(x') && |t.cells| == |cells|
      && t.DeleteRank(x') < DeleteRank(x) && t.Spins(x') == Spins(x)
      && (BalancedBut(x) ==> t.BalancedBut(x'))
    }

    lemma ProgressOn(t: State, u: State, x: int, x': int)
      requires Linked() && In(x) && DeleteProgress(t, x, x) && t.DeleteProgress(u, x, x')
      ensures DeleteProgress(u, x, x')
    {
    }

    /** A black x below the root is at the place the deletion cases speak of. */
    lemma DeleteCaseFound(x: int)
      requires Linked() && In(x) && RedOkNear(x) && !RedAt(x) && x != root
      ensures var p := cells[x].parent; In(p) && DeleteCase(x, p, if cells[p].left == x then Left else Right)
    {
      assert LinkedAt(x);
      forall n | In(n) ensures RedOkAt(n) {
        assert n != x && cells[n].parent != x ==> RedOkAt(n);
        assert LinkedAt(n);
      }
    }

    lemma RankOf(x: int, p: int, d: Side)
      requires DeleteCase(x, p, d) && x != root
      ensures LinkedAt(x) && LinkedAt(p) && SiblingOf(x) == cells[p].Kid(Opposite(d))
      ensures 2 <= DeleteRank(x)
    {
      assert LinkedAt(x) && LinkedAt(p);
      if p != root {
        assert LinkedAt(cells[p].parent);
      }
    }

    lemma RankPositive(x: int)
      requires Linked() && In(x)
      ensures DeleteRank(x) >= 0
    {
      assert LinkedAt(x);
    }

    /** Without a sibling for x the loop spins; that cannot be while x owes a black. */
    lemma SiblingMissing(x: int, p: int, d: Side)
      requires DeleteCase(x, p, d) && x != root
      ensures SiblingOf(x) == cells[p].Kid(Opposite(d))
      ensures SiblingOf(x) == NONE ==> Spins(x) && !BalancedBut(x)
    {
      assert LinkedAt(x) && LinkedAt(p);
      if BalancedBut(x) {
        SiblingExists(x, p, d);
      }
    }

    lemma SiblingLiftedProgress(x: int, p: int, d: Side)
      requires DeleteCase(x, p, d) && x != root && RedAt(cells[p].Kid(Opposite(d)))
      ensures var t := Lifted(cells[p].Kid(Opposite(d)), p, Opposite(d));
              t.DeleteCase(x, p, d) && x != t.root && !t.RedAt(t.cells[p].Kid(Opposite(d))) && DeleteProgress(t, x, x)
    {
      var w := cells[p].Kid(Opposite(d));
      var t := Lifted(w, p, Opposite(d));
      SiblingLifted(x, p, d);
      SpinsLifted(x, p, d);
      RankOf(x, p, d);
      assert t.LinkedAt(p) && t.LinkedAt(x);
      var b := t.cells[p].Kid(Opposite(d));
      if t.In(b) {
        assert t.RedOkAt(b) && t.LinkedAt(b);
      }
      t.RankOf(x, p, d);
      assert LinkedAt(w);
      if BalancedBut(x) {
        LiftedBalanced(w, p, Opposite(d), x);
      }
    }

    lemma DeferredProgress(x: int, p: int, d: Side)
      requires DeleteCase(x, p, d) && x != root
      requires var w := cells[p].Kid(Opposite(d));
               In(w) && !RedAt(w) && !RedAt(cells[w].left) && !RedAt(cells[w].right)
      ensures DeleteProgress(Deferred(p, cells[p].Kid(Opposite(d))), x, p)
    {
      var w := cells[p].Kid(Opposite(d));
      DeferredRedOk(x, p, d);
      SpinsDeferred(x, p, d);
      if BalancedBut(x) {
        DeferredBalanced(x, p, d);
      }
      assert LinkedAt(x) && LinkedAt(p) && LinkedAt(w);
      var t := Deferred(p, w);
      assert t.LinkedAt(p);
      if p != root {
        assert LinkedAt(cells[p].parent);
      }
    }

    lemma SettledProgress(x: int, p: int, w: int, o: int, d: Side)
      requires SettleCase(x, p, w, o, d) && x != root
      ensures var t := Settled(p, w, o, d); DeleteProgress(t, x, t.root)
    {
      var t := Settled(p, w, o, d);
      SettledLinked(p, w, o, d);
      SettledRedOk(x, p, w, o, d);
      if BalancedBut(x) {
        SettledBalanced(x, p, w, o, d);
      }
      t.RootOwesNothing();
      SettleCaseFacts(x, p, w, o, d);
      RankOf(x, p, d);
    }

    lemma InnerLiftedCase(x: int, p: int, w: int, v: int, d: Side)
      requires DeleteCase(x, p, d) && x != root && In(w) && cells[p].Kid(Opposite(d)) == w && !RedAt(w)
      requires RedAt(v) && cells[w].Kid(d) == v && !RedAt(cells[w].Kid(Opposite(d)))
      ensures var t := Lifted(v, w, d); t.SettleCase(x, p, v, w, d) && x != t.root
      ensures !Spins(x)
    {
      assert LinkedAt(x) && LinkedAt(p) && LinkedAt(w) && LinkedAt(v);
      LiftedLinked(v, w, d);
      LiftedRedOk(NONE, v, w, d);
      LiftedPivots(v, w, d);
      LiftedCell(v, w, d, x);
      LiftedCell(v, w, d, p);
    }

    /** An inner red nephew v is first lifted over the sibling w. */
    lemma InnerLifted(x: int, p: int, w: int, v: int, d: Side)
      requires DeleteCase(x, p, d) && x != root && In(w) && cells[p].Kid(Opposite(d)) == w && !RedAt(w)
      requires RedAt(v) && cells[w].Kid(d) == v && !RedAt(cells[w].Kid(Opposite(d)))
      ensures var t := Lifted(v, w, d); t.SettleCase(x, p, v, w, d) && x != t.root
      ensures var u := Lifted(v, w, d).Settled(p, v, w, d); DeleteProgress(u, x, u.root)
    {
      var t := Lifted(v, w, d);
      InnerLiftedCase(x, p, w, v, d);
      if BalancedBut(x) {
        assert LinkedAt(p) && LinkedAt(w);
        LiftedBalanced(v, w, d, x);
      }
      t.SettledProgress(x, p, v, w, d);
      RankOf(x, p, d);
      t.RankOf(x, p, d);
    }

    // ---- insertion -----------------------------------------------------------------------------

    /** Where position j goes when a new position q opens. */
    static function Up(j: int, q: int): int {
      if j >= q then j + 1 else j
    }

    function UpCell(n: int, p: int, d: Side, q: int): Cell
      requires In(n)
    {
      var c := cells[n];
      Cell(c.color,
           if n == p && d.Left? then q else Up(c.left, q),
           if n == p && d.Right? then q else Up(c.right, q),
           Up(c.parent, q),
           if c.lo <= q then c.lo else c.lo + 1,
           if c.hi < q then c.hi else c.hi + 1,
           c.bh)
    }

    static function Slot(p: int, d: Side): int {
      if d.Left? then p else p + 1
    }

    /** A red leaf hung on the empty side d of p. */
    function Inserted(p: int, d: Side): State
      requires In(p)
    {
      var q := Slot(p, d);
      State(Up(root, q),
            seq(|cells| + 1, i requires 0 <= i < |cells| + 1 =>
              if i == q then Cell(Red, NONE, NONE, Up(p, q), q, q + 1, 0)
              else UpCell(if i < q then i else i - 1, p, d, q)))
    }

    /** Between two neighbours in order there is only one empty place. */
    lemma {:induction false} OneGap(n: int, q: int)
      requires Linked() && In(n) && cells[n].lo < q < cells[n].hi
      ensures In(q) && In(q - 1) && (cells[q].left != NONE || cells[q - 1].right != NONE)
      decreases cells[n].hi - cells[n].lo
    {
      assert LinkedAt(n);
      if n < q - 1 {
        OneGap(cells[n].right, q);
      } else if n > q {
        OneGap(cells[n].left, q);
      }
    }

    lemma InsertedCell(p: int, d: Side, n: int)
      requires In(p) && In(n)
      ensures Inserted(p, d).cells[Up(n, Slot(p, d))] == UpCell(n, p, d, Slot(p, d))
    {
    }

    lemma InsertedKid(p: int, d: Side, n: int, k: int, lo: int, hi: int)
      requires In(p) && KidAt(n, k, lo, hi) && 0 <= lo <= hi <= |cells|
      requires lo == hi ==> lo != Slot(p, d)
      ensures var q := Slot(p, d);
              Inserted(p, d).KidAt(Up(n, q), Up(k, q), if lo <= q then lo else lo + 1, if hi < q then hi else hi + 1)
    {
      if lo != hi {
        InsertedCell(p, d, k);
      }
    }

    lemma InsertedAt(p: int, d: Side, n: int)
      requires In(p) && cells[p].Kid(d) == NONE && LinkedAt(p) && In(n) && LinkedAt(n)
      requires n == Slot(p, d) && n != p ==> cells[n].left != NONE
      requires n + 1 == Slot(p, d) && n != p ==> cells[n].right != NONE
      ensures Inserted(p, d).LinkedAt(Up(n, Slot(p, d)))
    {
      var q := Slot(p, d);
      var c := cells[n];
      InsertedCell(p, d, n);
      if n != p || d.Right? {
        InsertedKid(p, d, n, c.left, c.lo, n);
      }
      if n != p || d.Left? {
        InsertedKid(p, d, n, c.right, n + 1, c.hi);
      }
      if c.parent != NONE {
        InsertedCell(p, d, c.parent);
      }
    }

    lemma InsertedLinked(p: int, d: Side)
      requires Linked() && In(p) && cells[p].Kid(d) == NONE
      ensures Inserted(p, d).Linked()
    {
      var q := Slot(p, d);
      var s := Inserted(p, d);
      assert LinkedAt(p);
      assert s.LinkedAt(q) by {
        InsertedCell(p, d, p);
      }
      InsertedKid(p, d, NONE, root, 0, |cells|);
      forall m | s.In(m) ensures s.LinkedAt(m) {
        if m != q {
          var n := if m < q then m else m - 1;
          assert LinkedAt(n) && LinkedAt(root);
          if 0 < q < |cells| {
            OneGap(root, q);
          }
          InsertedAt(p, d, n);
          assert Up(n, q) == m;
        }
      }
    }

    lemma InsertedRedOk(p: int, d: Side)
      requires Linked() && In(p) && cells[p].Kid(d) == NONE && RedOkBut(NONE)
      ensures Inserted(p, d).PutInv(Slot(p, d))
    {
      var q := Slot(p, d);
      var s := Inserted(p, d);
      InsertedLinked(p, d);
      forall m | s.In(m) && m != q ensures s.RedOkAt(m) {
        var n := if m < q then m else m - 1;
        assert LinkedAt(n) && RedOkAt(n) && m == Up(n, q);
        InsertedCell(p, d, n);
        if cells[n].parent != NONE {
          InsertedCell(p, d, cells[n].parent);
        }
      }
    }

    lemma InsertedBalanced(p: int, d: Side)
      requires Linked() && In(p) && cells[p].Kid(d) == NONE && BalancedBut(NONE)
      ensures Inserted(p, d).BalancedBut(NONE)
    {
      var q := Slot(p, d);
      var s := Inserted(p, d);
      forall m | s.In(m) ensures s.BalancedAt(m, NONE) {
        if m != q {
          var n := if m < q then m else m - 1;
          assert LinkedAt(n) && BalancedAt(n, NONE) && m == Up(n, q);
          InsertedCell(p, d, n);
          if cells[n].left != NONE {
            InsertedCell(p, d, cells[n].left);
          }
          if cells[n].right != NONE {
            InsertedCell(p, d, cells[n].right);
          }
        }
      }
    }

    lemma InsertedOk(p: int, d: Side)
      requires Linked() && In(p) && cells[p].Kid(d) == NONE && RedOkBut(NONE)
      ensures Inserted(p, d).PutInv(Slot(p, d))
      ensures BalancedBut(NONE) ==> Inserted(p, d).BalancedBut(NONE)
    {
      InsertedRedOk(p, d);
      if BalancedBut(NONE) {
        InsertedBalanced(p, d);
      }
    }

    // ---- removal of a position -----------------------------------------------------------------

    /** Where position j goes when position e closes. */
    static function Down(j: int, e: int): int {
      if j > e then j - 1 else j
    }

    /** The only child of a node with an empty side. */
    function OnlyKid(e: int): int
      requires In(e)
    {
      if cells[e].left == NONE then cells[e].right else cells[e].left
    }

    function DownKid(k: int, e: int): int
      requires In(e)
    {
      Down(if k == e then OnlyKid(e) else k, e)
    }

    function DownCell(n: int, e: int): Cell
      requires In(n) && In(e)
    {
      var c := cells[n];
      Cell(c.color, DownKid(c.left, e), DownKid(c.right, e),
           Down(if c.parent == e then cells[e].parent else c.parent, e),
           if c.lo <= e then c.lo else c.lo - 1,
           if c.hi <= e then c.hi else c.hi - 1,
           c.bh)
    }

    /** Position e is emptied: its only child, if any, moves up. */
    function Spliced(e: int): State
      requires In(e)
    {
      State(DownKid(root, e),
            seq(|cells| - 1, i requires 0 <= i < |cells| - 1 => DownCell(if i < e then i else i + 1, e)))
    }

    lemma SplicedCell(e: int, n: int)
      requires In(e) && In(n) && n != e
      ensures Spliced(e).cells[Down(n, e)] == DownCell(n, e)
    {
    }

    lemma SplicedKid(e: int, n: int, k: int, lo: int, hi: int)
      requires In(e) && LinkedAt(e) && (cells[e].left == NONE || cells[e].right == NONE)
      requires KidAt(n, k, lo, hi) && 0 <= lo <= hi <= |cells| && n != e
      requires (n == NONE || hi == n || lo == n + 1)
      ensures Spliced(e).KidAt(Down(n, e), DownKid(k, e), if lo <= e then lo else lo - 1, if hi <= e then hi else hi - 1)
    {
      if lo != hi {
        if k != e {
          SplicedCell(e, k);
        } else if OnlyKid(e) != NONE {
          SplicedCell(e, OnlyKid(e));
        }
      }
    }

    /** The link from n upwards, once e is gone. */
    lemma SplicedUp(e: int, n: int)
      requires In(e) && LinkedAt(e) && (cells[e].left == NONE || cells[e].right == NONE)
      requires In(n) && LinkedAt(n) && n != e
      requires cells[e].parent != NONE ==> LinkedAt(cells[e].parent)
      ensures var s, m := Spliced(e), Down(n, e);
              s.In(m) && var p := s.cells[m].parent;
              if p == NONE then m == s.root else s.In(p) && (s.cells[p].left == m || s.cells[p].right == m)
    {
      var c := cells[n];
      SplicedCell(e, n);
      if c.parent == e {
        if cells[e].parent != NONE {
          SplicedCell(e, cells[e].parent);
        }
      } else if c.parent != NONE {
        SplicedCell(e, c.parent);
      }
    }

    lemma SplicedAt(e: int, n: int)
      requires In(e) && LinkedAt(e) && (cells[e].left == NONE || cells[e].right == NONE)
      requires In(n) && LinkedAt(n) && n != e
      requires cells[e].parent != NONE ==> LinkedAt(cells[e].parent)
      ensures Spliced(e).LinkedAt(Down(n, e))
    {
      var c := cells[n];
      SplicedCell(e, n);
      SplicedKid(e, n, c.left, c.lo, n);
      SplicedKid(e, n, c.right, n + 1, c.hi);
      SplicedUp(e, n);
    }

    lemma SplicedLinked(e: int)
      requires Linked() && In(e) && (cells[e].left == NONE || cells[e].right == NONE)
      ensures Spliced(e).Linked()
    {
      var s := Spliced(e);
      assert LinkedAt(e);
      SplicedKid(e, NONE, root, 0, |cells|);
      if cells[e].parent != NONE {
        assert LinkedAt(cells[e].parent);
      }
      forall m | s.In(m) ensures s.LinkedAt(m) {
        var n := if m < e then m else m + 1;
        assert LinkedAt(n) && m == Down(n, e);
        SplicedAt(e, n);
      }
    }

    /** Only the node that moved up can now be red under a red parent, and only if e was black. */
    lemma SplicedRedOk(e: int)
      requires Linked() && In(e) && (cells[e].left == NONE || cells[e].right == NONE) && RedOkBut(NONE)
      ensures Spliced(e).RedOkBut(if RedAt(e) then NONE else Down(OnlyKid(e), e))
    {
      var s := Spliced(e);
      assert LinkedAt(e) && RedOkAt(e);
      forall m | s.In(m) && (RedAt(e) || m != Down(OnlyKid(e), e)) ensures s.RedOkAt(m) {
        var n := if m < e then m else m + 1;
        assert LinkedAt(n) && RedOkAt(n) && m == Down(n, e);
        SplicedCell(e, n);
        var p := if cells[n].parent == e then cells[e].parent else cells[n].parent;
        if p != NONE {
          SplicedCell(e, p);
        }
      }
    }

    /** Apart from the parent of the emptied position, every node keeps its heights. */
    lemma SplicedHeights(e: int, n: int)
      requires In(e) && LinkedAt(e) && (cells[e].left == NONE || cells[e].right == NONE)
      requires In(n) && LinkedAt(n) && BalancedAt(n, NONE) && n != e && n != cells[e].parent
      ensures Spliced(e).BalancedAt(Down(n, e), NONE)
      ensures var x := Down(OnlyKid(e), e);
              (x == NONE || Down(n, e) != Spliced(e).cells[x].parent) ==> Spliced(e).BalancedAt(Down(n, e), x)
    {
      var c := cells[n];
      SplicedCell(e, n);
      if c.left != NONE {
        SplicedCell(e, c.left);
      }
      if c.right != NONE {
        SplicedCell(e, c.right);
      }
      if OnlyKid(e) != NONE {
        SplicedCell(e, OnlyKid(e));
      }
    }

    /** The splice, seen from the parent of the emptied position: a lost black is owed by x. */
    lemma SplicedHeightsAtParent(e: int)
      requires In(e) && LinkedAt(e) && (cells[e].left == NONE || cells[e].right == NONE)
      requires var p := cells[e].parent; In(p) && LinkedAt(p) && BalancedAt(p, NONE) && BalancedAt(e, NONE)
      requires RedAt(e) || OnlyKid(e) != NONE
      ensures Spliced(e).BalancedAt(Down(cells[e].parent, e), if RedAt(e) then NONE else Down(OnlyKid(e), e))
    {
      var p := cells[e].parent;
      var x := OnlyKid(e);
      SplicedCell(e, p);
      var o := if cells[p].left == e then cells[p].right else cells[p].left;
      if o != NONE {
        SplicedCell(e, o);
      }
      if x != NONE {
        SplicedCell(e, x);
      }
    }

    lemma SplicedBalanced(e: int)
      requires Linked() && In(e) && (cells[e].left == NONE || cells[e].right == NONE) && BalancedBut(NONE)
      requires RedAt(e) || OnlyKid(e) != NONE || e == root
      ensures Spliced(e).BalancedBut(if RedAt(e) then NONE else Down(OnlyKid(e), e))
    {
      var s := Spliced(e);
      var x := if RedAt(e) then NONE else Down(OnlyKid(e), e);
      assert LinkedAt(e) && BalancedAt(e, NONE);
      var p := cells[e].parent;
      if p != NONE {
        assert LinkedAt(p) && BalancedAt(p, NONE);
        SplicedHeightsAtParent(e);
      }
      if OnlyKid(e) != NONE {
        SplicedCell(e, OnlyKid(e));
      }
      forall m | s.In(m) ensures s.BalancedAt(m, x) {
        var n := if m < e then m else m + 1;
        assert LinkedAt(n) && BalancedAt(n, NONE) && m == Down(n, e);
        if n != p {
          SplicedHeights(e, n);
        }
      }
    }

    lemma {:induction false} HeightsPositive(n: int, x: int)
      requires Linked() && BalancedBut(x) && In(n)
      ensures cells[n].bh >= Weight(cells[n].color)
      decreases cells[n].hi - cells[n].lo
    {
      assert LinkedAt(n) && BalancedAt(n, x);
      if cells[n].left != NONE {
        HeightsPositive(cells[n].left, x);
      }
    }

    /** While x owes a black, its sibling cannot be missing. */
    lemma SiblingExists(x: int, p: int, d: Side)
      requires DeleteCase(x, p, d) && BalancedBut(x)
      ensures cells[p].Kid(Opposite(d)) != NONE
    {
      assert LinkedAt(p) && BalancedAt(p, x);
      HeightsPositive(x, x);
    }

    // ---- what the pointer assignments of the rotations amount to --------------------------------

    /** x and what hangs on it: the child y that rises, the subtree b that changes sides, the parent p. */
    ghost predicate Turning(x: int, y: int, b: int, p: int, d: Side)
    {
      && In(x) && In(y) && y == cells[x].Kid(Opposite(d)) && b == cells[y].Kid(d) && p == cells[x].parent
      && (b == NONE || In(b)) && (p == NONE || In(p))
      && x != y && b != x && b != y && p != x && p != y && (b == NONE || b != p)
    }

    lemma TurningFacts(x: int, d: Side)
      requires Linked() && In(x) && In(cells[x].Kid(Opposite(d)))
      ensures var y := cells[x].Kid(Opposite(d)); Turning(x, y, cells[y].Kid(d), cells[x].parent, d)
    {
      assert LinkedAt(x) && LinkedAt(cells[x].Kid(Opposite(d)));
      if cells[x].parent != NONE {
        assert LinkedAt(cells[x].parent);
      }
    }

    /** The assignments of a rotation, in the order in which the code makes them. */
    ghost function Relinked(x: int, y: int, b: int, p: int, d: Side): State
      requires Turning(x, y, b, p, d)
    {
      WithKid(x, Opposite(d), b).WithParent(b, x).WithParent(y, p).SwapChild(p, x, y).WithKid(y, d, x).WithParent(x, y)
    }

    lemma RelinkedPivots(x: int, y: int, b: int, p: int, d: Side)
      requires Turning(x, y, b, p, d) && (p == NONE <==> x == root)
      ensures var s, t := Relinked(x, y, b, p, d), Rotated(x, d);
              && s.root == t.root
              && s.cells[x] == t.cells[x].(lo := cells[x].lo, hi := cells[x].hi)
              && s.cells[y] == t.cells[y].(lo := cells[y].lo, hi := cells[y].hi)
    {
    }

    /** Away from x and y, relinking touches only b's parent and p's link. */
    lemma RelinkedOther(x: int, y: int, b: int, p: int, d: Side, n: int)
      requires Turning(x, y, b, p, d) && In(n) && n != x && n != y
      ensures Relinked(x, y, b, p, d).cells[n] ==
              if n == b then cells[n].(parent := x)
              else if n != p then cells[n]
              else if cells[n].left == x then cells[n].(left := y) else cells[n].(right := y)
    {
    }

    lemma RelinkedIsRotated(x: int, y: int, b: int, p: int, d: Side)
      requires Linked() && Turning(x, y, b, p, d)
      ensures Relinked(x, y, b, p, d).SameLinks(Rotated(x, d))
    {
      assert LinkedAt(x);
      RelinkedPivots(x, y, b, p, d);
      forall n | In(n) && n != x && n != y ensures Relinked(x, y, b, p, d).cells[n] == Rotated(x, d).cells[n] {
        assert LinkedAt(n);
        RelinkedThere(x, y, b, p, d, n);
      }
    }

    lemma RelinkedThere(x: int, y: int, b: int, p: int, d: Side, n: int)
      requires Turning(x, y, b, p, d) && In(n) && n != x && n != y && LinkedAt(x) && LinkedAt(n)
      ensures Relinked(x, y, b, p, d).cells[n] == Rotated(x, d).cells[n]
    {
      RelinkedOther(x, y, b, p, d, n);
    }

    // ---- what the pointer assignments of a removal amount to ------------------------------------

    /** The subtree at v takes the place of the subtree at u. */
    function Transplanted(u: int, v: int): State
      requires In(u) && (cells[u].parent == NONE || In(cells[u].parent)) && (v == NONE || In(v))
    {
      SwapChild(cells[u].parent, u, v).WithParent(v, cells[u].parent)
    }

    /** z is removed and position e emptied: z's own, or, if z has two children, that of its successor,
        whose node then takes z's place. */
    ghost predicate Removal(z: int, e: int)
    {
      && Linked() && In(z) && In(e)
      && (cells[e].left == NONE || cells[e].right == NONE)
      && (e == z || (e == z + 1 && cells[z].left != NONE && cells[z].right != NONE && cells[e].left == NONE))
    }

    /** Where a link down to k leads after the removal. */
    function Redirect(z: int, e: int, k: int): int
      requires In(e)
    {
      if k == e then OnlyKid(e) else if k == z then e else k
    }

    /** Where a link up to k leads after the removal. */
    function RedirectUp(z: int, e: int, k: int): int
      requires In(e)
    {
      if k == e then (if e != z && cells[e].parent == z then e else cells[e].parent)
      else if k == z then e else k
    }

    /** The cell of node j after the removal of z, in the old numbering. */
    function After(z: int, e: int, j: int): Cell
      requires In(z) && In(e) && In(j)
    {
      var c := if j == e then cells[z] else cells[j];
      c.(left := Redirect(z, e, c.left), right := Redirect(z, e, c.right), parent := RedirectUp(z, e, c.parent))
    }

    /** t is this state with the links and colours of every node but z rearranged as the removal asks. */
    ghost predicate Rearranged(t: State, z: int, e: int)
      requires In(z) && In(e)
    {
      && t.root == Redirect(z, e, root) && |t.cells| == |cells|
      && forall j {:trigger t.cells[j]} :: In(j) && j != z ==>
           var c, d := t.cells[j], After(z, e, j);
           c.color == d.color && c.left == d.left && c.right == d.right && c.parent == d.parent
    }

    lemma TransplantedRearranged(z: int)
      requires Removal(z, z) && LinkedAt(z)
      ensures Rearranged(Transplanted(z, OnlyKid(z)), z, z)
    {
      assert LinkedAt(z);
      var t := Transplanted(z, OnlyKid(z));
      forall j | In(j) && j != z ensures
        var c, d := t.cells[j], After(z, z, j);
        c.color == d.color && c.left == d.left && c.right == d.right && c.parent == d.parent {
        assert LinkedAt(j);
      }
    }

    /** The successor y of z, its only child x, and the neighbours whose links change, told apart. */
    ghost predicate Pulling(z: int, y: int, x: int, p: int, q: int, l: int, r: int)
    {
      && In(z) && In(y) && In(l) && In(r) && In(q) && (p == NONE || In(p)) && (x == NONE || In(x))
      && y == z + 1 && cells[y].left == NONE && x == cells[y].right
      && p == cells[z].parent && q == cells[y].parent && l == cells[z].left && r == cells[z].right
      && l != z && l != y && l != x && l != p && l != q && l != r
      && r != z && r != x && r != p && q != p && q != x && q != y && p != z && p != y && x != z && x != y
      && (p == NONE || p != x) && (q != z ==> cells[q].left == y && r != y) && (q == z ==> r == y)
      && (p == NONE <==> root == z) && root != y
    }

    lemma PullingFound(z: int)
      requires Removal(z, z + 1)
      ensures var y := z + 1;
              Pulling(z, y, cells[y].right, cells[z].parent, cells[y].parent, cells[z].left, cells[z].right)
    {
      var y := z + 1;
      assert LinkedAt(z) && LinkedAt(y) && LinkedAt(cells[z].left) && LinkedAt(cells[z].right);
      assert LinkedAt(cells[y].parent);
      if cells[z].parent != NONE {
        assert LinkedAt(cells[z].parent);
      }
      if cells[y].right != NONE {
        assert LinkedAt(cells[y].right);
      }
    }

    /** The successor leaves its place, deep in the right subtree, and takes over the right subtree. */
    ghost function Detached(z: int, y: int, x: int, p: int, q: int, l: int, r: int): State
      requires Pulling(z, y, x, p, q, l, r) && q != z
    {
      Transplanted(y, x).WithKid(y, Right, r).WithParent(r, y)
    }

    /** The successor takes z's place, left subtree and colour. */
    ghost function Promoted(z: int, y: int, p: int, l: int): State
      requires In(z) && In(y) && In(l) && p == cells[z].parent && (p == NONE || In(p))
    {
      Transplanted(z, y).WithKid(y, Left, l).WithParent(l, y).Paint(y, cells[z].color, cells[z].bh)
    }

    lemma DetachedCell(z: int, y: int, x: int, p: int, q: int, l: int, r: int, j: int)
      requires Pulling(z, y, x, p, q, l, r) && q != z && In(j)
      ensures var t := Detached(z, y, x, p, q, l, r);
              t.root == root && t.cells[j] ==
              (if j == y then cells[j].(right := r)
               else cells[j].(left := if j == q then x else cells[j].left,
                              parent := if j == x then q else if j == r then y else cells[j].parent))
    {
    }

    lemma PromotedCell(z: int, y: int, x: int, p: int, l: int, j: int)
      requires In(z) && In(y) && In(l) && In(j) && p == cells[z].parent && (p == NONE || In(p))
      requires y != z && l != z && l != y && l != p && p != y && p != z && j != z
      ensures var t := Promoted(z, y, p, l);
              t.root == (if p == NONE then y else root) &&
              t.cells[j] ==
              if j == y then cells[j].(left := l, parent := p, color := cells[z].color, bh := cells[z].bh)
              else if j == l then cells[j].(parent := y)
              else if j != p then cells[j]
              else if cells[j].left == z then cells[j].(left := y) else cells[j].(right := y)
    {
    }

    lemma FarRearrangedAt(t: State, u: State, z: int, y: int, x: int, p: int, q: int, l: int, r: int, j: int)
      requires Pulling(z, y, x, p, q, l, r) && q != z && In(j) && j != z && LinkedAt(j) && |t.cells| == |u.cells| == |cells|
      requires LinkedAt(z) && LinkedAt(y)
      requires t.cells[j] ==
               (if j == y then cells[j].(right := r)
                else cells[j].(left := if j == q then x else cells[j].left,
                               parent := if j == x then q else if j == r then y else cells[j].parent))
      requires u.cells[j] ==
               if j == y then t.cells[j].(left := l, parent := p, color := cells[z].color, bh := cells[z].bh)
               else if j == l then t.cells[j].(parent := y)
               else if j != p then t.cells[j]
               else if t.cells[j].left == z then t.cells[j].(left := y) else t.cells[j].(right := y)
      ensures var c, d := u.cells[j], After(z, y, j);
              c.color == d.color && c.left == d.left && c.right == d.right && c.parent == d.parent
    {
    }

    lemma FarRearranged(z: int, y: int, x: int, p: int, q: int, l: int, r: int)
      requires Removal(z, y) && Pulling(z, y, x, p, q, l, r) && q != z
      ensures var t := Detached(z, y, x, p, q, l, r);
              t.cells[z] == cells[z] && Rearranged(t.Promoted(z, y, p, l), z, y)
    {
      var t := Detached(z, y, x, p, q, l, r);
      var u := t.Promoted(z, y, p, l);
      DetachedCell(z, y, x, p, q, l, r, z);
      forall j {:trigger u.cells[j]} | In(j) && j != z ensures
        var c, d := u.cells[j], After(z, y, j);
        c.color == d.color && c.left == d.left && c.right == d.right && c.parent == d.parent {
        assert LinkedAt(j) && LinkedAt(z) && LinkedAt(y);
        DetachedCell(z, y, x, p, q, l, r, j);
        t.PromotedCell(z, y, x, p, l, j);
        FarRearrangedAt(t, u, z, y, x, p, q, l, r, j);
      }
      t.PromotedCell(z, y, x, p, l, y);
    }

    lemma NearRearrangedAt(u: State, z: int, y: int, x: int, p: int, l: int, r: int, j: int)
      requires Pulling(z, y, x, p, z, l, r) && In(j) && j != z && LinkedAt(j) && |u.cells| == |cells|
      requires LinkedAt(z) && LinkedAt(y)
      requires u.cells[j] ==
               if j == y then cells[j].(left := l, parent := p, color := cells[z].color, bh := cells[z].bh)
               else if j == l then cells[j].(parent := y)
               else if j != p then cells[j]
               else if cells[j].left == z then cells[j].(left := y) else cells[j].(right := y)
      ensures var c, d := u.cells[j], After(z, y, j);
              c.color == d.color && c.left == d.left && c.right == d.right && c.parent == d.parent
    {
    }

    lemma NearRearranged(z: int, y: int, x: int, p: int, l: int, r: int)
      requires Removal(z, y) && Pulling(z, y, x, p, z, l, r)
      ensures WithParent(x, y) == this && Rearranged(Promoted(z, y, p, l), z, y)
    {
      var u := Promoted(z, y, p, l);
      assert LinkedAt(y);
      assert x != NONE ==> cells[x := cells[x].(parent := y)] == cells;
      forall j {:trigger u.cells[j]} | In(j) && j != z ensures
        var c, d := u.cells[j], After(z, y, j);
        c.color == d.color && c.left == d.left && c.right == d.right && c.parent == d.parent {
        assert LinkedAt(j) && LinkedAt(z) && LinkedAt(y);
        PromotedCell(z, y, x, p, l, j);
        NearRearrangedAt(u, z, y, x, p, l, r, j);
      }
      PromotedCell(z, y, x, p, l, y);
    }

    /** The position that removing z empties. */
    function EmptiedBy(z: int): int
      requires In(z)
    {
      if cells[z].left != NONE && cells[z].right != NONE then z + 1 else z
    }

    /** In a tree with the node z, the position after z exists and has no left child if z has a right one. */
    lemma {:induction false} LeftmostIsNext(z: int, n: int)
      requires Linked() && In(z) && In(n) && cells[n].lo == z + 1
      ensures In(z + 1) && cells[z + 1].left == NONE
      decreases n - z
    {
      assert LinkedAt(n);
      if n != z + 1 {
        LeftmostIsNext(z, cells[n].left);
      } else if cells[n].left != NONE {
        assert false;
      }
    }

    lemma RemovalFound(z: int)
      requires Linked() && In(z)
      ensures In(EmptiedBy(z)) && Removal(z, EmptiedBy(z)) && Spliced(EmptiedBy(z)).Linked()
      ensures OnlyKid(EmptiedBy(z)) == NONE || In(OnlyKid(EmptiedBy(z)))
    {
      assert LinkedAt(z);
      if EmptiedBy(z) != z {
        LeftmostIsNext(z, cells[z].right);
      }
      SplicedLinked(EmptiedBy(z));
      assert LinkedAt(EmptiedBy(z));
    }

    /** A black node without children that is not the root: the one kind of place whose loss unbalances a tree. */
    predicate BlackLeaf(e: int)
    {
      In(e) && !RedAt(e) && cells[e].left == NONE && cells[e].right == NONE && e != root
    }

    /** A childless node, or a red one with a single child: taking it out asks for no fixup. */
    predicate LooseAt(z: int)
    {
      In(z) && (cells[z].left == NONE || cells[z].right == NONE) && (RedAt(z) || OnlyKid(z) == NONE)
    }

    /** Whether removing z sends fixupDelete into its endless loop. */
    ghost predicate RemovalSpins(z: int)
      requires Linked() && In(z)
    {
      RemovalFound(z);
      var e := EmptiedBy(z);
      var x := Down(OnlyKid(e), e);
      !RedAt(e) && Spliced(e).In(x) && Spliced(e).Spins(x)
    }

    lemma RemovalIgnoresHeights(t: State, z: int)
      requires Linked() && t.Linked() && SameTree(t) && In(z)
      ensures t.RemovalSpins(z) == RemovalSpins(z) && t.EmptiedBy(z) == EmptiedBy(z) && t.LooseAt(z) == LooseAt(z)
      ensures t.BlackLeaf(EmptiedBy(z)) == BlackLeaf(EmptiedBy(z))
    {
      RemovalFound(z);
      t.RemovalFound(z);
      var e := EmptiedBy(z);
      var x := Down(OnlyKid(e), e);
      var a, b := Spliced(e), t.Spliced(e);
      assert t.cells[z] == cells[z].(bh := t.cells[z].bh) && t.cells[e] == cells[e].(bh := t.cells[e].bh);
      SplicedIgnoresHeights(t, e);
      if a.In(x) {
        a.SpinsFromAbove(b, x);
      }
    }

    lemma SplicedIgnoresHeights(t: State, e: int)
      requires SameTree(t) && In(e)
      ensures Spliced(e).SameTree(t.Spliced(e))
    {
      forall m {:trigger t.Spliced(e).cells[m]} | Spliced(e).In(m)
        ensures t.Spliced(e).cells[m] == Spliced(e).cells[m].(bh := t.Spliced(e).cells[m].bh) {
        var n := if m < e then m else m + 1;
        assert t.cells[n] == cells[n].(bh := t.cells[n].bh) && t.cells[e] == cells[e].(bh := t.cells[e].bh);
        assert Spliced(e).cells[m] == DownCell(n, e) && t.Spliced(e).cells[m] == t.DownCell(n, e);
      }
    }

    /** Equal but for the heights. */
    ghost predicate SameTree(t: State)
    {
      && t.root == root && |t.cells| == |cells|
      && forall n {:trigger t.cells[n]} :: In(n) ==> t.cells[n] == cells[n].(bh := t.cells[n].bh)
    }

    /** The state fixupDelete finds, or that already is the end. */
    lemma RemovalLeaves(z: int)
      requires Linked() && RedOkBut(NONE) && In(z)
      ensures var e := EmptiedBy(z);
              In(e) && Spliced(e).Linked() && var x := Down(OnlyKid(e), e);
              if !RedAt(e) && x != NONE then
                && Spliced(e).In(x) && Spliced(e).RedOkNear(x) && RemovalSpins(z) == Spliced(e).Spins(x)
                && (BalancedBut(NONE) ==> Spliced(e).BalancedBut(x) && !BlackLeaf(e))
              else
                && Spliced(e).RedOkBut(NONE) && !RemovalSpins(z)
                && (BalancedBut(NONE) && !BlackLeaf(e) ==> Spliced(e).BalancedBut(NONE))
    {
      RemovalFound(z);
      var e := EmptiedBy(z);
      SplicedRedOk(e);
      assert LinkedAt(e);
      if OnlyKid(e) != NONE {
        SplicedCell(e, OnlyKid(e));
      }
      if BalancedBut(NONE) && !BlackLeaf(e) {
        SplicedBalanced(e);
      }
    }
  }
}
