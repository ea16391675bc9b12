/** The red-black set: the tree of the map with nothing stored beside the keys. */
module RedBlackSet {
  import opened RedBlackShape
  import opened RedBlackTree
  import RedBlackMap

  datatype Nothing = Nothing

  ghost function Elements<K(!new)>(t: TreeMap<K, Nothing>): set<K>
    reads t, t.order
  {
    t.Contents().Keys
  }

  function Keys<K>(es: seq<(K, Nothing)>): seq<K> {
    seq(|es|, i requires 0 <= i < |es| => es[i].0)
  }

  function Pairs<K>(ks: seq<K>): seq<(K, Nothing)> {
    seq(|ks|, i requires 0 <= i < |ks| => (ks[i], Nothing))
  }

  lemma {:induction false} PairsKeys<K>(ks: seq<K>)
    ensures AsMap(Pairs(ks)).Keys == set k | k in ks
  {
    if ks != [] {
      var n := |ks| - 1;
      PairsKeys(ks[..n]);
      assert Pairs(ks)[..n] == Pairs(ks[..n]) && ks == ks[..n] + [ks[n]];
    }
  }

  method Add<K(==, !new)>(t: TreeMap<K, Nothing>, element: K)
    requires t.Valid()
    modifies t, t.order
    ensures t.Valid() && Elements(t) == old(Elements(t)) + {element}
    ensures old(Balanced(t.Shape())) ==> Balanced(t.Shape())
  {
    t.Add(element, Nothing);
  }

  /** Removes the element; says whether the removal never returns. */
  method Remove<K(==, !new)>(t: TreeMap<K, Nothing>, element: K) returns (spins: bool)
    requires t.Valid()
    modifies t, t.order
    ensures t.SearchTree() && Elements(t) == old(Elements(t)) - {element} && (!spins ==> t.Valid())
    ensures spins == old(t.RemoveSpins(element))
    ensures old(Balanced(t.Shape())) ==> !spins && (Balanced(t.Shape()) <==> !old(t.EmptiesBlackLeaf(element)))
  {
    spins := t.Remove(element);
  }

  /** Entries: every element once, in ascending order. */
  method Entries<K(==, !new)>(t: TreeMap<K, Nothing>) returns (ks: seq<K>)
    requires t.SearchTree()
    ensures forall i, j :: 0 <= i < j < |ks| ==> t.lt(ks[i], ks[j])
    ensures forall k :: k in ks <==> k in Elements(t)
    ensures ks == Keys(t.Entries())
  {
    var es := RedBlackMap.Seq(t);
    ks := Keys(es);
    forall k ensures k in ks <==> k in Elements(t) {
      AsMapKeys(es, k);
      if k in ks {
        var i :| 0 <= i < |ks| && ks[i] == k;
        assert es[i].0 == k;
      }
      if i :| 0 <= i < |es| && es[i].0 == k {
        assert ks[i] == k;
      }
    }
  }

  method Union<K(==, !new)>(t: TreeMap<K, Nothing>, others: seq<K>) returns (out: TreeMap<K, Nothing>)
    requires t.SearchTree()
    ensures fresh(out) && out.Valid() && Balanced(out.Shape())
    ensures Elements(out) == Elements(t) + set k | k in others
  {
    PairsKeys(others);
    out := RedBlackMap.Union(t, Pairs(others));
  }

  method Intersection<K(==, !new)>(t: TreeMap<K, Nothing>, other: TreeMap<K, Nothing>) returns (out: TreeMap<K, Nothing>)
    requires t.SearchTree() && other.SearchTree()
    ensures fresh(out) && out.Valid() && Balanced(out.Shape())
    ensures Elements(out) == Elements(t) * Elements(other)
  {
    out := RedBlackMap.Intersection(t, other);
  }

  method Filter<K(==, !new)>(t: TreeMap<K, Nothing>, keep: K -> bool) returns (out: TreeMap<K, Nothing>)
    requires t.SearchTree()
    ensures fresh(out) && out.Valid() && Balanced(out.Shape())
    ensures Elements(out) == set k | k in Elements(t) && keep(k)
  {
    out := RedBlackMap.Filter(t, (k, _) => keep(k));
  }
}
