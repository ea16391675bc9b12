/** The red-black properties, stated once and for all on immutable trees.

    `RedBlackTree.ShapeOf` reads such a tree off the mutable nodes; everything a caller is
    promised about a tree is said about its shape. */
module RedBlackShape {

  datatype Color = Red | Black

  datatype Tree<K, V> =
    | Nil
    | Bin(color: Color, left: Tree<K, V>, key: K, value: V, right: Tree<K, V>)

  /** The entries a full in-order walk yields. */
  function InOrder<K, V>(t: Tree<K, V>): seq<(K, V)> {
    match t
    case Nil => []
    case Bin(_, l, k, v, r) => InOrder(l) + [(k, v)] + InOrder(r)
  }

  function Size<K, V>(t: Tree<K, V>): nat {
    match t
    case Nil => 0
    case Bin(_, l, _, _, r) => Size(l) + 1 + Size(r)
  }

  function Height<K, V>(t: Tree<K, V>): nat {
    match t
    case Nil => 0
    case Bin(_, l, _, _, r) => 1 + (if Height(l) < Height(r) then Height(r) else Height(l))
  }

  predicate IsRed<K, V>(t: Tree<K, V>) {
    t.Bin? && t.color.Red?
  }

  function Weight(c: Color): nat {
    if c.Black? then 1 else 0
  }

  /** The number of black nodes down the left spine; down every path when `Balanced` holds. */
  function BlackHeight<K, V>(t: Tree<K, V>): nat {
    match t
    case Nil => 0
    case Bin(c, l, _, _, _) => Weight(c) + BlackHeight(l)
  }

  /** Property 4: a red node has no red child. */
  predicate NoRedRed<K, V>(t: Tree<K, V>) {
    match t
    case Nil => true
    case Bin(c, l, _, _, r) => (c.Red? ==> !IsRed(l) && !IsRed(r)) && NoRedRed(l) && NoRedRed(r)
  }

  /** Property 5: every path from a node to a leaf has the same number of black nodes. */
  predicate Balanced<K, V>(t: Tree<K, V>) {
    match t
    case Nil => true
    case Bin(_, l, _, _, r) => Balanced(l) && Balanced(r) && BlackHeight(l) == BlackHeight(r)
  }

  /** The five red-black properties; the first and third hold by the type. */
  predicate IsRedBlack<K, V>(t: Tree<K, V>) {
    !IsRed(t) && NoRedRed(t) && Balanced(t)
  }

  /** `lt` decides a strict total order, which is what the Sortable interface demands of its keys. */
  ghost predicate StrictTotalOrder<K(!new)>(lt: (K, K) -> bool) {
    && (forall a :: !lt(a, a))
    && (forall a, b, c :: lt(a, b) && lt(b, c) ==> lt(a, c))
    && (forall a, b :: a != b ==> lt(a, b) || lt(b, a))
  }

  ghost predicate Ascending<K, V>(lt: (K, K) -> bool, es: seq<(K, V)>) {
    forall i, j :: 0 <= i < j < |es| ==> lt(es[i].0, es[j].0)
  }

  /** The finite map with the given entries, later ones winning. */
  function AsMap<K, V>(es: seq<(K, V)>): map<K, V> {
    if es == [] then map[] else AsMap(es[..|es| - 1])[es[|es| - 1].0 := es[|es| - 1].1]
  }

  /** The subtree that a search for the key leads to. */
  function Find<K(==), V>(lt: (K, K) -> bool, t: Tree<K, V>, key: K): Tree<K, V> {
    match t
    case Nil => Nil
    case Bin(_, l, k, _, r) => if key == k then t else if lt(key, k) then Find(lt, l, key) else Find(lt, r, key)
  }

  /** The subtree at the least key. */
  function Least<K, V>(t: Tree<K, V>): Tree<K, V> {
    if t == Nil || t.left == Nil then t else Least(t.left)
  }

  predicate Childless<K, V>(t: Tree<K, V>) {
    t.Bin? && t.left == Nil && t.right == Nil
  }

  /** Deleting the key empties the place of a black node without children that is not the whole tree: the
      key's own place or, if it has two children, that of its successor. */
  predicate TakesBlackLeaf<K(==), V>(lt: (K, K) -> bool, t: Tree<K, V>, key: K) {
    var n := Find(lt, t, key);
    var e := if n.Bin? && n.left.Bin? && n.right.Bin? then Least(n.right) else n;
    Childless(e) && !IsRed(e) && !Childless(t)
  }

  function Pow2(n: nat): nat {
    if n == 0 then 1 else 2 * Pow2(n - 1)
  }

  lemma Pow2Monotone(m: nat, n: nat)
    requires m <= n
    ensures Pow2(m) <= Pow2(n)
    decreases n - m
  {
    if m < n {
      Pow2Monotone(m + 1, n);
    }
  }

  lemma {:induction false} Pow2Sum(m: nat, n: nat)
    ensures Pow2(m + n) == Pow2(m) * Pow2(n)
  {
    if m > 0 {
      Pow2Sum(m - 1, n);
      assert Pow2(m - 1 + n) == Pow2(m + n - 1);
    }
  }

  /** A balanced tree is at least as full as its black height says. */
  lemma {:induction false} SizeFromBlackHeight<K, V>(t: Tree<K, V>)
    requires Balanced(t)
    ensures Size(t) + 1 >= Pow2(BlackHeight(t))
  {
    match t
    case Nil =>
    case Bin(c, l, _, _, r) =>
      SizeFromBlackHeight(l);
      SizeFromBlackHeight(r);
  }

  /** No path is more than twice as long as its black nodes (plus a red top). */
  lemma {:induction false} HeightFromBlackHeight<K, V>(t: Tree<K, V>)
    requires Balanced(t) && NoRedRed(t)
    ensures Height(t) <= 2 * BlackHeight(t) + (if IsRed(t) then 1 else 0)
  {
    match t
    case Nil =>
    case Bin(c, l, _, _, r) =>
      HeightFromBlackHeight(l);
      HeightFromBlackHeight(r);
  }

  /** A red-black tree of n entries has height at most 2 * log2(n + 1). */
  lemma HeightIsLogarithmic<K, V>(t: Tree<K, V>)
    requires IsRedBlack(t)
    ensures Pow2(Height(t)) <= (Size(t) + 1) * (Size(t) + 1)
  {
    HeightFromBlackHeight(t);
    SizeFromBlackHeight(t);
    var b := BlackHeight(t);
    Pow2Monotone(Height(t), b + b);
    Pow2Sum(b, b);
    MulMonotone(Pow2(b), Size(t) + 1);
  }

  lemma {:induction false} SizeFromHeight<K, V>(t: Tree<K, V>)
    ensures Size(t) + 1 <= Pow2(Height(t))
  {
    match t
    case Nil =>
    case Bin(_, l, _, _, r) =>
      SizeFromHeight(l);
      SizeFromHeight(r);
      Pow2Monotone(Height(l), Height(t) - 1);
      Pow2Monotone(Height(r), Height(t) - 1);
  }

  lemma MulMonotone(a: nat, b: nat)
    requires a <= b
    ensures a * a <= b * b
  {
    assert a * a <= a * b <= b * b;
  }

  lemma {:induction false} SizeIsWalkLength<K, V>(t: Tree<K, V>)
    ensures Size(t) == |InOrder(t)|
  {
    match t
    case Nil =>
    case Bin(_, l, _, _, r) =>
      SizeIsWalkLength(l);
      SizeIsWalkLength(r);
  }

  lemma {:induction false} AsMapKeys<K, V>(es: seq<(K, V)>, k: K)
    ensures k in AsMap(es) <==> exists i :: 0 <= i < |es| && es[i].0 == k
  {
    if es != [] {
      AsMapKeys(es[..|es| - 1], k);
      if k in AsMap(es[..|es| - 1]) {
        var i :| 0 <= i < |es| - 1 && es[..|es| - 1][i].0 == k;
        assert es[i].0 == k;
      }
      if i :| 0 <= i < |es| && es[i].0 == k {
        if i < |es| - 1 {
          assert es[..|es| - 1][i].0 == k;
        }
      }
    }
  }

  ghost predicate DistinctKeys<K, V>(es: seq<(K, V)>) {
    forall i, j :: 0 <= i < j < |es| ==> es[i].0 != es[j].0
  }

  /** With distinct keys, every entry is what the map holds for its key. */
  lemma {:induction false} AsMapAt<K, V>(es: seq<(K, V)>, i: nat)
    requires DistinctKeys(es) && i < |es|
    ensures es[i].0 in AsMap(es) && AsMap(es)[es[i].0] == es[i].1
  {
    if i < |es| - 1 {
      AsMapAt(es[..|es| - 1], i);
    }
  }

  lemma {:induction false} AsMapSize<K, V>(es: seq<(K, V)>)
    requires DistinctKeys(es)
    ensures |AsMap(es)| == |es|
  {
    if es != [] {
      var front := es[..|es| - 1];
      AsMapSize(front);
      AsMapKeys(front, es[|es| - 1].0);
      assert forall i :: 0 <= i < |front| ==> front[i] == es[i];
      assert AsMap(es).Keys == AsMap(front).Keys + {es[|es| - 1].0};
    }
  }

  /** With distinct keys, a map that agrees with every entry and has no other key is the map of the entries. */
  lemma AsMapIs<K, V>(es: seq<(K, V)>, m: map<K, V>)
    requires DistinctKeys(es)
    requires forall i {:trigger es[i]} :: 0 <= i < |es| ==> es[i].0 in m && m[es[i].0] == es[i].1
    requires forall k {:trigger k in m} :: k in m ==> exists i :: 0 <= i < |es| && es[i].0 == k
    ensures AsMap(es) == m
  {
    forall k | k in AsMap(es) ensures k in m {
      AsMapKeys(es, k);
      var i :| 0 <= i < |es| && es[i].0 == k;
      assert es[i].0 in m;
    }
    forall k | k in m ensures k in AsMap(es) && AsMap(es)[k] == m[k] {
      var i :| 0 <= i < |es| && es[i].0 == k;
      AsMapAt(es, i);
    }
    assert AsMap(es).Keys == m.Keys;
  }

  /** fs is es with entry e put in at position q. */
  ghost predicate InsertedAt<K, V>(es: seq<(K, V)>, fs: seq<(K, V)>, q: int, e: (K, V)) {
    && 0 <= q <= |es| && |fs| == |es| + 1 && fs[q] == e
    && (forall i {:trigger fs[i]} :: 0 <= i < |fs| && i != q ==> fs[i] == es[if i < q then i else i - 1])
  }

  lemma AsMapInsert<K, V>(es: seq<(K, V)>, fs: seq<(K, V)>, q: int, k: K, v: V)
    requires DistinctKeys(es) && InsertedAt(es, fs, q, (k, v)) && (forall i :: 0 <= i < |es| ==> es[i].0 != k)
    ensures DistinctKeys(fs) && AsMap(fs) == AsMap(es)[k := v]
  {
    var m := AsMap(es)[k := v];
    forall i {:trigger fs[i]} | 0 <= i < |fs| ensures fs[i].0 in m && m[fs[i].0] == fs[i].1 {
      if i != q {
        AsMapAt(es, if i < q then i else i - 1);
      }
    }
    forall j | j in m ensures exists i :: 0 <= i < |fs| && fs[i].0 == j {
      if j != k {
        AsMapKeys(es, j);
        var i :| 0 <= i < |es| && es[i].0 == j;
        assert fs[if i < q then i else i + 1] == es[i];
      }
    }
    AsMapIs(fs, m);
  }

  lemma AsMapUpdate<K, V>(es: seq<(K, V)>, i: nat, v: V)
    requires DistinctKeys(es) && i < |es|
    ensures AsMap(es[i := (es[i].0, v)]) == AsMap(es)[es[i].0 := v]
  {
    var fs := es[i := (es[i].0, v)];
    var m := AsMap(es)[es[i].0 := v];
    forall j {:trigger fs[j]} | 0 <= j < |fs| ensures fs[j].0 in m && m[fs[j].0] == fs[j].1 {
      AsMapAt(es, j);
    }
    forall k | k in m ensures exists j :: 0 <= j < |fs| && fs[j].0 == k {
      if k == es[i].0 {
        assert fs[i].0 == k;
      } else {
        AsMapKeys(es, k);
        var j :| 0 <= j < |es| && es[j].0 == k;
        assert fs[j].0 == k;
      }
    }
    AsMapIs(fs, m);
  }

  lemma AsMapDelete<K, V>(es: seq<(K, V)>, i: nat)
    requires DistinctKeys(es) && i < |es|
    ensures AsMap(es[..i] + es[i + 1..]) == AsMap(es) - {es[i].0}
  {
    var fs := es[..i] + es[i + 1..];
    var m := AsMap(es) - {es[i].0};
    forall j {:trigger fs[j]} | 0 <= j < |fs| ensures fs[j].0 in m && m[fs[j].0] == fs[j].1 {
      AsMapAt(es, if j < i then j else j + 1);
    }
    forall k | k in m ensures exists j :: 0 <= j < |fs| && fs[j].0 == k {
      AsMapKeys(es, k);
      var j :| 0 <= j < |es| && es[j].0 == k;
      assert j != i;
      assert fs[if j < i then j else j - 1].0 == k;
    }
    AsMapIs(fs, m);
  }
}
