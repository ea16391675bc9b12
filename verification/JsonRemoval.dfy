/** What removing a path does to a document, and when it undoes adding one. */
module JsonRemoval {
  import opened Options
  import opened JsonPathSyntax
  import opened JsonHeap

  datatype Removal = Removal(removed: bool, heap: Heap)

  /** removeRecursive: removes the last key and every map on the way that it leaves empty. */
  ghost function Removed(h: Heap, d: Dict, keys: seq<string>, via: Lookups): Removal
    decreases |keys|
  {
    if keys == [] || d !in h then Removal(false, h)
    else
      match via.Find(h[d], d, keys[0], false)
      case None => Removal(false, h)
      case Some(k) =>
        if |keys| == 1 then Removal(true, h[d := h[d] - {k}])
        else if !h[d][k].Object? then Removal(false, h)
        else
          var o := h[d][k].dict;
          var r := Removed(h, o, keys[1..], via);
          if r.removed && o in r.heap && r.heap[o] == map[] && d in r.heap
          then match via.Find(r.heap[d], d, keys[0], true)
               case None => r
               case Some(l) => Removal(true, r.heap[d := r.heap[d] - {l}])
          else r
  }

  /** The maps on the way and the keys that were found in them. */
  datatype Way = Way(dicts: seq<Dict>, names: seq<string>, value: Any)

  ghost function Resolve(h: Heap, d: Dict, keys: seq<string>, via: Lookups): Option<Way>
    decreases |keys|
  {
    if keys == [] || d !in h then None
    else
      match via.Find(h[d], d, keys[0], false)
      case None => None
      case Some(k) =>
        if |keys| == 1 then Some(Way([d], [k], h[d][k]))
        else if !h[d][k].Object? then None
        else match Resolve(h, h[d][k].dict, keys[1..], via)
          case None => None
          case Some(w) => Some(Way([d] + w.dicts, [k] + w.names, w.value))
  }

  /** The way starts at d, links up, and follows the keys as lookups do. */
  ghost predicate Leads(h: Heap, d: Dict, keys: seq<string>, via: Lookups, w: Way) {
    && Links(h, w.dicts, w.names, w.value) && |keys| == |w.dicts| && w.dicts[0] == d
    && forall i :: 0 <= i < |keys| ==> Named(h, keys, via, w, i)
  }

  ghost predicate Named(h: Heap, keys: seq<string>, via: Lookups, w: Way, i: nat)
    requires i < |keys| == |w.dicts| == |w.names|
  {
    w.dicts[i] in h && via.Find(h[w.dicts[i]], w.dicts[i], keys[i], false) == Some(w.names[i])
  }

  lemma {:induction false} ResolveLeads(h: Heap, d: Dict, keys: seq<string>, via: Lookups)
    ensures match Resolve(h, d, keys, via) case Some(w) => Leads(h, d, keys, via, w) case None => true
    decreases |keys|
  {
    if Resolve(h, d, keys, via).Some? {
      var w := Resolve(h, d, keys, via).value;
      if |keys| > 1 {
        var o := h[d][via.Find(h[d], d, keys[0], false).value].dict;
        ResolveLeads(h, o, keys[1..], via);
        var v := Resolve(h, o, keys[1..], via).value;
        forall i | 0 <= i < |keys| ensures Linked(h, w.dicts, w.names, w.value, i) && Named(h, keys, via, w, i) {
          if i > 0 {
            assert Linked(h, v.dicts, v.names, v.value, i - 1) && Named(h, keys[1..], via, v, i - 1);
          }
        }
      } else {
        assert Linked(h, w.dicts, w.names, w.value, 0) && Named(h, keys, via, w, 0);
      }
    }
  }

  /** Whether the i-th map of the way loses its key: the last one does, and one above a map that becomes
      empty by losing its own. */
  predicate Cut(h: Heap, dicts: seq<Dict>, names: seq<string>, i: nat)
    requires i < |dicts| == |names| && forall d :: d in dicts ==> d in h
    decreases |dicts| - i
  {
    i == |dicts| - 1 || (Cut(h, dicts, names, i + 1) && h[dicts[i + 1]].Keys == {names[i + 1]})
  }

  lemma {:induction false} CutRest(h: Heap, dicts: seq<Dict>, names: seq<string>, i: nat)
    requires 0 < i < |dicts| == |names| && forall d :: d in dicts ==> d in h
    ensures Cut(h, dicts[1..], names[1..], i - 1) == Cut(h, dicts, names, i)
    decreases |dicts| - i
  {
    if i < |dicts| - 1 {
      CutRest(h, dicts, names, i + 1);
    }
  }

  ghost predicate Distinct(dicts: seq<Dict>) {
    forall i, k {:trigger dicts[i], dicts[k]} :: 0 <= i < k < |dicts| ==> dicts[i] != dicts[k]
  }

  /** What has been removed from the i-th map of the way. */
  ghost predicate Pruned(h: Heap, h': Heap, w: Way, i: nat)
    requires i < |w.dicts| == |w.names| && forall d :: d in w.dicts ==> d in h
  {
    var d := w.dicts[i];
    d in h' && h'[d] == if Cut(h, w.dicts, w.names, i) then h[d] - {w.names[i]} else h[d]
  }

  /** The maps on the way have been pruned, and no other has been touched. */
  ghost predicate Cleared(h: Heap, g: Heap, w: Way)
    requires |w.dicts| == |w.names| && forall d :: d in w.dicts ==> d in h
  {
    && g.Keys == h.Keys
    && (forall e {:trigger g[e]} :: e in h && e !in w.dicts ==> g[e] == h[e])
    && forall i :: 0 <= i < |w.dicts| ==> Pruned(h, g, w, i)
  }

  /** Where the removal empties the map below, it looks the key of this one up again to delete it. */
  ghost predicate FoundAgain(h: Heap, keys: seq<string>, via: Lookups, w: Way, i: nat)
    requires i < |keys| == |w.dicts| == |w.names|
  {
    w.dicts[i] in h && via.Find(h[w.dicts[i]], w.dicts[i], keys[i], true) == Some(w.names[i])
  }

  /** Wherever a key is looked up again, the same one is found. */
  ghost predicate Steady(h: Heap, keys: seq<string>, via: Lookups, w: Way)
    requires |keys| == |w.dicts| == |w.names| && forall d :: d in w.dicts ==> d in h
  {
    forall i {:trigger FoundAgain(h, keys, via, w, i)} :: 0 <= i < |keys| - 1 && Cut(h, w.dicts, w.names, i) ==> FoundAgain(h, keys, via, w, i)
  }

  lemma LastKeyGone(m: map<string, Any>, k: string)
    requires k in m
    ensures m - {k} == map[] <==> m.Keys == {k}
  {
    if m.Keys == {k} {
      assert forall l :: l in m <==> l == k;
    }
    if m - {k} == map[] {
      forall l | l in m ensures l == k {
        assert l != k ==> l in m - {k};
      }
    }
  }

  /** The effect of one level, given that of the level below. */
  lemma RemovedStep(h: Heap, d: Dict, keys: seq<string>, via: Lookups, w: Way)
    requires Leads(h, d, keys, via, w) && (forall d :: d in w.dicts ==> d in h) && |keys| > 1
    requires Linked(h, w.dicts, w.names, w.value, 0) && Named(h, keys, via, w, 0)
    requires Linked(h, w.dicts, w.names, w.value, 1)
    requires var below := Removed(h, w.dicts[1], keys[1..], via);
             below.removed && below.heap.Keys == h.Keys && below.heap[d] == h[d] && Pruned(h, below.heap, w, 1)
    requires Cut(h, w.dicts, w.names, 0) ==> FoundAgain(h, keys, via, w, 0)
    ensures var r, below := Removed(h, d, keys, via), Removed(h, w.dicts[1], keys[1..], via);
            && r.removed && r.heap == below.heap[d := r.heap[d]] && Pruned(h, r.heap, w, 0)
  {
    LastKeyGone(h[w.dicts[1]], w.names[1]);
    var below := Removed(h, w.dicts[1], keys[1..], via);
    assert below.heap[w.dicts[1]] == map[] <==> Cut(h, w.dicts, w.names, 0);
  }

  /** Removing along a way that visits no map twice prunes the maps on it and touches no other, if every
      key that is looked up again is found again. */
  lemma {:induction false} RemovedAlong(h: Heap, d: Dict, keys: seq<string>, via: Lookups, w: Way)
    requires Leads(h, d, keys, via, w) && Distinct(w.dicts) && forall d :: d in w.dicts ==> d in h
    requires Steady(h, keys, via, w)
    ensures var r := Removed(h, d, keys, via);
            r.removed && Cleared(h, r.heap, w)
    decreases |keys|
  {
    assert Linked(h, w.dicts, w.names, w.value, 0) && Named(h, keys, via, w, 0);
    if |keys| > 1 {
      var v := RestLeads(h, d, keys, via, w);
      SteadyRest(h, keys, via, w, v);
      RemovedAlong(h, w.dicts[1], keys[1..], via, v);
      var r, below := Removed(h, d, keys, via), Removed(h, w.dicts[1], keys[1..], via);
      assert d !in v.dicts && below.heap[d] == h[d];
      assert Linked(h, w.dicts, w.names, w.value, 1);
      forall i | 1 <= i < |keys| ensures Pruned(h, below.heap, w, i) {
        CutRest(h, w.dicts, w.names, i);
        assert Pruned(h, below.heap, v, i - 1);
      }
      assert FoundAgain(h, keys, via, w, 0) || !Cut(h, w.dicts, w.names, 0);
      RemovedStep(h, d, keys, via, w);
      forall i | 0 <= i < |keys| ensures Pruned(h, r.heap, w, i) {
        if i > 0 {
          assert Pruned(h, below.heap, w, i) && w.dicts[i] != d;
        }
      }
    }
  }

  /** A way is steady if it is below its first map and, should that one lose its key, finds this again. */
  lemma SteadyRest(h: Heap, keys: seq<string>, via: Lookups, w: Way, v: Way)
    requires |keys| == |w.dicts| == |w.names| && |keys| > 1 && forall d :: d in w.dicts ==> d in h
    requires v == Way(w.dicts[1..], w.names[1..], w.value)
    ensures Steady(h, keys, via, w) <==>
              Steady(h, keys[1..], via, v) && (Cut(h, w.dicts, w.names, 0) ==> FoundAgain(h, keys, via, w, 0))
  {
    forall i | 0 < i < |keys|
      ensures Cut(h, v.dicts, v.names, i - 1) == Cut(h, w.dicts, w.names, i)
      ensures FoundAgain(h, keys[1..], via, v, i - 1) == FoundAgain(h, keys, via, w, i) {
      CutRest(h, w.dicts, w.names, i);
    }
    if Steady(h, keys, via, w) {
      forall j | 0 <= j < |keys| - 2 && Cut(h, v.dicts, v.names, j) ensures FoundAgain(h, keys[1..], via, v, j) {
        assert FoundAgain(h, keys[1..], via, v, j) == FoundAgain(h, keys, via, w, j + 1);
      }
      assert Cut(h, w.dicts, w.names, 0) ==> FoundAgain(h, keys, via, w, 0);
    }
    if Steady(h, keys[1..], via, v) && (Cut(h, w.dicts, w.names, 0) ==> FoundAgain(h, keys, via, w, 0)) {
      forall i | 0 <= i < |keys| - 1 && Cut(h, w.dicts, w.names, i) ensures FoundAgain(h, keys, via, w, i) {
        if i > 0 {
          assert FoundAgain(h, keys[1..], via, v, i - 1) == FoundAgain(h, keys, via, w, i);
        }
      }
    }
  }

  /** Whatever is found, only maps on the way are touched. */
  lemma {:induction false} RemovedTouches(h: Heap, d: Dict, keys: seq<string>, via: Lookups, w: Way)
    requires Leads(h, d, keys, via, w) && Distinct(w.dicts) && forall d :: d in w.dicts ==> d in h
    ensures var r := Removed(h, d, keys, via);
            r.removed && r.heap.Keys == h.Keys && forall e {:trigger r.heap[e]} :: e in h && e !in w.dicts ==> r.heap[e] == h[e]
    decreases |keys|
  {
    assert Linked(h, w.dicts, w.names, w.value, 0) && Named(h, keys, via, w, 0);
    if |keys| > 1 {
      var v := RestLeads(h, d, keys, via, w);
      RemovedTouches(h, w.dicts[1], keys[1..], via, v);
      assert Linked(h, w.dicts, w.names, w.value, 1);
    }
  }

  /** If some key that is looked up again is not found again, some map on the way loses the wrong key or none. */
  lemma {:induction false} RemovedWrong(h: Heap, d: Dict, keys: seq<string>, via: Lookups, w: Way) returns (i: nat)
    requires Leads(h, d, keys, via, w) && Distinct(w.dicts) && forall d :: d in w.dicts ==> d in h
    requires !Steady(h, keys, via, w)
    ensures i < |keys| && !Pruned(h, Removed(h, d, keys, via).heap, w, i)
    decreases |keys|
  {
    assert Linked(h, w.dicts, w.names, w.value, 0) && Named(h, keys, via, w, 0);
    assert |keys| > 1;
    assert Linked(h, w.dicts, w.names, w.value, 1);
    var v := RestLeads(h, d, keys, via, w);
    SteadyRest(h, keys, via, w, v);
    RemovedTouches(h, w.dicts[1], keys[1..], via, v);
    if Steady(h, keys[1..], via, v) {
      RemovedAlong(h, w.dicts[1], keys[1..], via, v);
      i := 0;
      WrongAbove(h, d, keys, via, w, v);
    } else {
      var j := RemovedWrong(h, w.dicts[1], keys[1..], via, v);
      i := j + 1;
      WrongBelow(h, d, keys, via, w, v, j);
    }
  }

  /** What is wrong below stays wrong. */
  lemma WrongBelow(h: Heap, d: Dict, keys: seq<string>, via: Lookups, w: Way, v: Way, j: nat)
    requires Leads(h, d, keys, via, w) && Distinct(w.dicts) && (forall d :: d in w.dicts ==> d in h) && j < |keys| - 1
    requires Linked(h, w.dicts, w.names, w.value, 0) && Named(h, keys, via, w, 0)
    requires v == Way(w.dicts[1..], w.names[1..], w.value)
    requires !Pruned(h, Removed(h, w.dicts[1], keys[1..], via).heap, v, j)
    ensures !Pruned(h, Removed(h, d, keys, via).heap, w, j + 1)
  {
    CutRest(h, w.dicts, w.names, j + 1);
    assert w.dicts[j + 1] != d;
  }

  lemma WrongAbove(h: Heap, d: Dict, keys: seq<string>, via: Lookups, w: Way, v: Way)
    requires Leads(h, d, keys, via, w) && Distinct(w.dicts) && (forall d :: d in w.dicts ==> d in h) && |keys| > 1
    requires Linked(h, w.dicts, w.names, w.value, 0) && Named(h, keys, via, w, 0) && Linked(h, w.dicts, w.names, w.value, 1)
    requires v == Way(w.dicts[1..], w.names[1..], w.value)
    requires var below := Removed(h, w.dicts[1], keys[1..], via); below.removed && Cleared(h, below.heap, v)
    requires Cut(h, w.dicts, w.names, 0) && !FoundAgain(h, keys, via, w, 0)
    ensures !Pruned(h, Removed(h, d, keys, via).heap, w, 0)
  {
    var below := Removed(h, w.dicts[1], keys[1..], via);
    CutRest(h, w.dicts, w.names, 1);
    assert Pruned(h, below.heap, v, 0);
    LastKeyGone(h[w.dicts[1]], w.names[1]);
    assert below.heap[w.dicts[1]] == map[];
    assert d !in v.dicts && below.heap[d] == h[d];
    assert w.names[0] in Removed(h, d, keys, via).heap[d];
  }

  lemma RestLeads(h: Heap, d: Dict, keys: seq<string>, via: Lookups, w: Way) returns (v: Way)
    requires Leads(h, d, keys, via, w) && |keys| > 1
    ensures v == Way(w.dicts[1..], w.names[1..], w.value) && Leads(h, w.dicts[1], keys[1..], via, v)
  {
    v := Way(w.dicts[1..], w.names[1..], w.value);
    LinksRest(h, w.dicts, w.names, w.value);
    forall i | 0 <= i < |keys| - 1 ensures Named(h, keys[1..], via, v, i) {
      assert Named(h, keys, via, w, i + 1);
    }
  }

  /** Nothing is removed unless the lookups lead all the way, and then the document stays as it is. */
  lemma {:induction false} RemovesIfFound(h: Heap, d: Dict, keys: seq<string>, via: Lookups)
    ensures var r := Removed(h, d, keys, via);
            && (r.removed <==> Resolve(h, d, keys, via).Some?)
            && (!r.removed ==> r.heap == h)
    decreases |keys|
  {
    if keys != [] && d in h {
      match via.Find(h[d], d, keys[0], false)
      case None =>
      case Some(k) =>
        if |keys| > 1 && h[d][k].Object? {
          RemovesIfFound(h, h[d][k].dict, keys[1..], via);
        }
    }
  }

  lemma {:induction false} WayFollow(h: Heap, dicts: seq<Dict>, names: seq<string>, value: Any, i: nat)
    requires Links(h, dicts, names, value) && i < |dicts|
    requires forall e, l {:trigger h[e][l]} :: e in h && l in h[e] && h[e][l].Object? ==> h[e][l].dict in h
    ensures Follow(h, dicts[0], names[..i]) == Some(Object(dicts[i]))
  {
    assert Linked(h, dicts, names, value, 0);
    if i > 0 {
      WayFollow(h, dicts, names, value, i - 1);
      assert names[..i] == names[..i - 1] + [names[i - 1]];
      FollowLast(h, dicts[0], names[..i - 1], names[i - 1]);
      assert Linked(h, dicts, names, value, i - 1);
    }
  }

  /** In a tree, a way visits no map twice. */
  lemma WayDistinct(h: Heap, root: Dict, dicts: seq<Dict>, names: seq<string>, value: Any)
    requires Tree(h, root) && Links(h, dicts, names, value) && dicts[0] == root
    ensures Distinct(dicts) && forall d :: d in dicts ==> d in h
  {
    forall i | 0 <= i < |dicts| ensures dicts[i] in h {
      assert Linked(h, dicts, names, value, i);
    }
    forall i, k | 0 <= i < k < |dicts| ensures dicts[i] != dicts[k] {
      WayFollow(h, dicts, names, value, i);
      WayFollow(h, dicts, names, value, k);
      if dicts[i] == dicts[k] {
        PathUnique(h, root, names[..i], names[..k]);
      }
    }
  }

  /** RemovePath removes the key at the end of the way, and the keys of the maps that this empties, going
      up, and changes nothing else, exactly if it finds each key that it looks up again. */
  lemma RemovedMeans(h: Heap, root: Dict, keys: seq<string>, via: Lookups, w: Way)
    requires Tree(h, root) && Resolve(h, root, keys, via) == Some(w)
    requires forall d :: d in w.dicts ==> d in h
    requires |w.dicts| == |w.names| == |keys|
    ensures var r := Removed(h, root, keys, via);
            && r.removed && Leads(h, root, keys, via, w) && r.heap.Keys == h.Keys
            && (forall e {:trigger r.heap[e]} :: e in h && e !in w.dicts ==> r.heap[e] == h[e])
            && (Cleared(h, r.heap, w) <==> Steady(h, keys, via, w))
  {
    ResolveLeads(h, root, keys, via);
    WayDistinct(h, root, w.dicts, w.names, w.value);
    RemovedTouches(h, root, keys, via, w);
    if Steady(h, keys, via, w) {
      RemovedAlong(h, root, keys, via, w);
    } else {
      var i := RemovedWrong(h, root, keys, via, w);
    }
  }

  /** Only one key of the map can be taken for `key`. */
  ghost predicate Decided(fields: map<string, Any>, key: string, via: Lookups) {
    key in fields || forall k, l {:trigger k in fields, l in fields} :: k in fields && l in fields && via.same(k, key) && via.same(l, key) ==> k == l
  }

  /** Ranging over a map yields all its keys. */
  ghost predicate Ranges(h: Heap, via: Lookups) {
    forall d, again {:trigger via.order(d, again)} :: d in h ==> forall k :: k in h[d] ==> k in via.order(d, again)
  }

  /** Where only one key can be meant, it is found again. */
  lemma DecidedIsSteady(h: Heap, root: Dict, keys: seq<string>, via: Lookups, w: Way)
    requires Leads(h, root, keys, via, w) && (forall d :: d in w.dicts ==> d in h) && Ranges(h, via)
    requires forall i {:trigger keys[i]} :: 0 <= i < |keys| - 1 && Cut(h, w.dicts, w.names, i) ==> Decided(h[w.dicts[i]], keys[i], via)
    ensures Steady(h, keys, via, w)
  {
    forall i | 0 <= i < |keys| - 1 && Cut(h, w.dicts, w.names, i) ensures FoundAgain(h, keys, via, w, i) {
      assert Named(h, keys, via, w, i) && keys[i] == keys[i];
      assert forall k :: k in h[w.dicts[i]] ==> k in via.order(w.dicts[i], true);
    }
  }

  /** Where another key can be meant, the runtime can pick an order in which the wrong key goes. */
  lemma UndecidedCanFail(h: Heap, root: Dict, keys: seq<string>, via: Lookups, w: Way, i: nat, l: string) returns (other: Lookups)
    requires Leads(h, root, keys, via, w) && Distinct(w.dicts) && forall d :: d in w.dicts ==> d in h
    requires i < |keys| - 1 && Cut(h, w.dicts, w.names, i) && keys[i] !in h[w.dicts[i]]
    requires l in h[w.dicts[i]] && l != w.names[i] && via.same(l, keys[i])
    requires Ranges(h, via)
    ensures other.same == via.same && forall d: Dict ::
              other.order(d, false) == via.order(d, false) && multiset(other.order(d, true)) == multiset(via.order(d, true))
    ensures Leads(h, root, keys, other, w) && !Steady(h, keys, other, w)
    ensures !Cleared(h, Removed(h, root, keys, other).heap, w)
  {
    other := Lookups(via.same, (d: Dict, again: bool) => if again then Foremost(l, via.order(d, true)) else via.order(d, false));
    forall d: Dict ensures multiset(other.order(d, true)) == multiset(via.order(d, true)) {
      ForemostOrder(l, via.order(d, true));
    }
    forall j | 0 <= j < |keys| ensures Named(h, keys, other, w, j) {
      assert Named(h, keys, via, w, j);
      SameFirst(via, other, h[w.dicts[j]], w.dicts[j], keys[j]);
    }
    assert l in via.order(w.dicts[i], true) && other.order(w.dicts[i], true) == Foremost(l, via.order(w.dicts[i], true));
    assert !FoundAgain(h, keys, other, w, i);
    var _ := RemovedWrong(h, root, keys, other, w);
  }

  /** ks with its first l, if any, in front. */
  function Foremost(l: string, ks: seq<string>): (r: seq<string>)
    ensures l in ks ==> r != [] && r[0] == l
  {
    if l in ks then [l] + Without(l, ks) else ks
  }

  /** ks without its first l. */
  function Without(l: string, ks: seq<string>): seq<string> {
    if ks == [] then [] else if ks[0] == l then ks[1..] else [ks[0]] + Without(l, ks[1..])
  }

  lemma {:induction false} ForemostOrder(l: string, ks: seq<string>)
    ensures multiset(Foremost(l, ks)) == multiset(ks)
  {
    if l in ks {
      assert ks == [ks[0]] + ks[1..];
      if ks[0] != l {
        ForemostOrder(l, ks[1..]);
        assert multiset(Foremost(l, ks)) == multiset{ks[0]} + multiset(Foremost(l, ks[1..]));
      }
    }
  }

  lemma SameFirst(a: Lookups, b: Lookups, fields: map<string, Any>, d: Dict, key: string)
    requires a.same == b.same && a.order(d, false) == b.order(d, false)
    ensures a.Find(fields, d, key, false) == b.Find(fields, d, key, false)
  {
    SameFound(a, b, a.order(d, false), fields, key);
  }

  lemma {:induction false} SameFound(a: Lookups, b: Lookups, ks: seq<string>, fields: map<string, Any>, key: string)
    requires a.same == b.same
    ensures a.FirstSame(ks, fields, key) == b.FirstSame(ks, fields, key)
  {
    if ks != [] {
      SameFound(a, b, ks[1..], fields, key);
    }
  }

  /** Adding made the way for the removal. */
  lemma AddedWay(h: Heap, h': Heap, root: Dict, keys: seq<string>, value: Any, news: seq<Dict>, via: Lookups)
    returns (w: Way)
    requires root in h && Tree(h, root) && keys != [] && Added(h, h', root, keys, value, news)
    ensures w == Way(Chain(h, root, keys) + news, keys, value)
    ensures Leads(h', root, keys, via, w) && Distinct(w.dicts) && forall d :: d in w.dicts ==> d in h'
  {
    var c := Chain(h, root, keys);
    w := Way(c + news, keys, value);
    AddedLinks(h, h', root, keys, value, news);
    forall i | 0 <= i < |keys| ensures Named(h', keys, via, w, i) {
      assert Linked(h', w.dicts, keys, value, i);
    }
    forall i | 0 <= i < |c| ensures c[i] in h {
      ChainHolds(h, root, keys, i);
    }
    forall i, k | 0 <= i < k < |c| ensures c[i] != c[k] {
      ChainDistinct(h, root, keys, i, k);
    }
  }

  /** Maps that hold nothing but the key to remove all go. */
  lemma {:induction false} SinglesCut(h: Heap, dicts: seq<Dict>, names: seq<string>, i: nat)
    requires i < |dicts| == |names| && forall d :: d in dicts ==> d in h
    requires forall m {:trigger dicts[m]} :: i < m < |dicts| ==> h[dicts[m]].Keys == {names[m]}
    ensures Cut(h, dicts, names, i)
    decreases |dicts| - i
  {
    if i < |dicts| - 1 {
      SinglesCut(h, dicts, names, i + 1);
    }
  }

  /** Below the last map that was there before, everything goes again. */
  lemma NewsCut(h: Heap, h': Heap, root: Dict, keys: seq<string>, value: Any, news: seq<Dict>)
    requires root in h && keys != [] && Added(h, h', root, keys, value, news)
    requires forall d :: d in Chain(h, root, keys) + news ==> d in h'
    ensures Cut(h', Chain(h, root, keys) + news, keys, |Chain(h, root, keys)| - 1)
  {
    var c := Chain(h, root, keys);
    var full := c + news;
    forall m {:trigger full[m]} | |c| <= m < |full| ensures h'[full[m]].Keys == {keys[m]} {
      assert Holds(h', keys, |c|, news, value, m - |c|);
    }
    SinglesCut(h', full, keys, |c| - 1);
  }

  lemma {:induction false} CutAbove(h: Heap, dicts: seq<Dict>, names: seq<string>, i: nat, k: nat)
    requires i <= k < |dicts| == |names| && (forall d :: d in dicts ==> d in h) && Cut(h, dicts, names, i)
    ensures Cut(h, dicts, names, k)
    decreases k - i
  {
    if i < k {
      CutAbove(h, dicts, names, i + 1, k);
    }
  }

  /** An absent path's first missing key is missing in the last map that exists on it. */
  lemma AbsentKey(h: Heap, root: Dict, keys: seq<string>)
    requires root in h && Tree(h, root) && keys != [] && !Blocked(h, root, keys) && Follow(h, root, keys) == None
    ensures var c := Chain(h, root, keys); c[|c| - 1] in h && keys[|c| - 1] !in h[c[|c| - 1]]
  {
    var j := |Chain(h, root, keys)| - 1;
    ChainHolds(h, root, keys, j);
    if j == |keys| - 1 {
      assert keys == keys[..j] + [keys[j]];
      FollowLast(h, root, keys[..j], keys[j]);
    }
  }

  /** The removal at the last map that was there before. */
  lemma LastRestored(h: Heap, h': Heap, root: Dict, keys: seq<string>, value: Any, news: seq<Dict>, w: Way, g: Heap)
    requires root in h && Tree(h, root) && keys != [] && Added(h, h', root, keys, value, news)
    requires Follow(h, root, keys) == None && w == Way(Chain(h, root, keys) + news, keys, value)
    requires (forall d :: d in w.dicts ==> d in h') && Pruned(h', g, w, |Chain(h, root, keys)| - 1)
    ensures var c := Chain(h, root, keys);
            c[|c| - 1] in h && c[|c| - 1] in g && g[c[|c| - 1]] == h[c[|c| - 1]]
  {
    AbsentKey(h, root, keys);
    NewsCut(h, h', root, keys, value, news);
    var j := |Chain(h, root, keys)| - 1;
    AddedGone(h[w.dicts[j]], keys[j], At(news, 0, value));
  }

  lemma AddedGone(m: map<string, Any>, k: string, v: Any)
    requires k !in m
    ensures m[k := v] - {k} == m && (m[k := v].Keys == {k} <==> m == map[])
  {
    LastKeyGone(m[k := v], k);
    assert m[k := v] - {k} == m;
  }

  /** The map above the last one is pruned exactly if that one was empty. */
  lemma AboveLast(h: Heap, h': Heap, root: Dict, keys: seq<string>, value: Any, news: seq<Dict>)
    requires root in h && Tree(h, root) && keys != [] && Added(h, h', root, keys, value, news)
    requires Follow(h, root, keys) == None && |Chain(h, root, keys)| > 1
    requires forall d :: d in Chain(h, root, keys) + news ==> d in h'
    ensures var c := Chain(h, root, keys);
            c[|c| - 1] in h && (Cut(h', c + news, keys, |c| - 2) <==> h[c[|c| - 1]] == map[])
  {
    AbsentKey(h, root, keys);
    NewsCut(h, h', root, keys, value, news);
    var c := Chain(h, root, keys);
    AddedGone(h[c[|c| - 1]], keys[|c| - 1], At(news, 0, value));
  }

  lemma RestoredAt(h: Heap, h': Heap, root: Dict, keys: seq<string>, value: Any, news: seq<Dict>, w: Way, g: Heap, i: nat)
    requires root in h && Tree(h, root) && keys != [] && Added(h, h', root, keys, value, news)
    requires w == Way(Chain(h, root, keys) + news, keys, value) && i < |Chain(h, root, keys)| - 1
    requires (forall d :: d in w.dicts ==> d in h') && Pruned(h', g, w, i)
    ensures w.dicts[i] in h && w.dicts[i] in g
    ensures !Cut(h', w.dicts, keys, |Chain(h, root, keys)| - 2) ==> g[w.dicts[i]] == h[w.dicts[i]]
    ensures Cut(h', w.dicts, keys, i) ==> g[w.dicts[i]] != h[w.dicts[i]]
  {
    OldLink(h, root, keys, i);
    PrunedOrNot(h, h', g, w, i, |Chain(h, root, keys)| - 2);
  }

  lemma PrunedOrNot(h: Heap, h': Heap, g: Heap, w: Way, i: nat, k: nat)
    requires i <= k < |w.dicts| == |w.names| && (forall d :: d in w.dicts ==> d in h') && Pruned(h', g, w, i)
    requires w.dicts[i] in h && h'[w.dicts[i]] == h[w.dicts[i]] && w.names[i] in h[w.dicts[i]]
    ensures !Cut(h', w.dicts, w.names, k) ==> g[w.dicts[i]] == h[w.dicts[i]]
    ensures Cut(h', w.dicts, w.names, i) ==> g[w.dicts[i]] != h[w.dicts[i]]
  {
    if Cut(h', w.dicts, w.names, i) {
      CutAbove(h', w.dicts, w.names, i, k);
      assert w.names[i] !in g[w.dicts[i]];
    }
  }

  lemma ElsewhereRestored(h: Heap, h': Heap, g: Heap, w: Way, c: seq<Dict>, news: seq<Dict>)
    requires Fresh(h, news) && h.Keys <= h'.Keys && w.dicts == c + news && |w.dicts| == |w.names|
    requires (forall d :: d in w.dicts ==> d in h') && Cleared(h', g, w)
    requires forall d {:trigger h'[d]} :: d in h && d !in c ==> h'[d] == h[d]
    requires forall i {:trigger c[i]} :: 0 <= i < |c| ==> c[i] in h && g[c[i]] == h[c[i]]
    ensures forall d {:trigger g[d]} :: d in h ==> g[d] == h[d]
  {
    forall d | d in h ensures g[d] == h[d] {
      if d !in c {
        assert d !in news;
        assert g[d] == h'[d];
      }
    }
  }

  lemma AllRestored(h: Heap, h': Heap, root: Dict, keys: seq<string>, value: Any, news: seq<Dict>, w: Way, g: Heap)
    requires root in h && Tree(h, root) && keys != [] && Added(h, h', root, keys, value, news)
    requires Follow(h, root, keys) == None && w == Way(Chain(h, root, keys) + news, keys, value)
    requires (forall d :: d in w.dicts ==> d in h') && Cleared(h', g, w)
    requires var c := Chain(h, root, keys); c[|c| - 1] in h && (|c| == 1 || h[c[|c| - 1]] != map[])
    ensures forall d {:trigger g[d]} :: d in h ==> g[d] == h[d]
  {
    var c := Chain(h, root, keys);
    forall i {:trigger c[i]} | 0 <= i < |c| ensures c[i] in h && g[c[i]] == h[c[i]] {
      assert Pruned(h', g, w, i) && w.dicts[i] == c[i];
      if i < |c| - 1 {
        AboveLast(h, h', root, keys, value, news);
        RestoredAt(h, h', root, keys, value, news, w, g, i);
      } else {
        LastRestored(h, h', root, keys, value, news, w, g);
      }
    }
    ElsewhereRestored(h, h', g, w, c, news);
  }

  lemma NotRestored(h: Heap, h': Heap, root: Dict, keys: seq<string>, value: Any, news: seq<Dict>, w: Way, g: Heap)
    requires root in h && Tree(h, root) && keys != [] && Added(h, h', root, keys, value, news)
    requires Follow(h, root, keys) == None && w == Way(Chain(h, root, keys) + news, keys, value)
    requires (forall d :: d in w.dicts ==> d in h') && Cleared(h', g, w)
    requires var c := Chain(h, root, keys); |c| > 1 && c[|c| - 1] in h && h[c[|c| - 1]] == map[]
    ensures var c := Chain(h, root, keys); c[|c| - 2] in h && c[|c| - 2] in g && g[c[|c| - 2]] != h[c[|c| - 2]]
  {
    var c := Chain(h, root, keys);
    AboveLast(h, h', root, keys, value, news);
    assert Pruned(h', g, w, |c| - 2) && w.dicts[|c| - 2] == c[|c| - 2];
    RestoredAt(h, h', root, keys, value, news, w, g, |c| - 2);
  }

  /** Keys that are there to the letter are found again. */
  lemma ExactIsSteady(h: Heap, root: Dict, keys: seq<string>, via: Lookups, w: Way)
    requires Leads(h, root, keys, via, w) && w.names == keys && forall d :: d in w.dicts ==> d in h
    ensures Steady(h, keys, via, w)
  {
    forall i | 0 <= i < |keys| - 1 && Cut(h, w.dicts, w.names, i) ensures FoundAgain(h, keys, via, w, i) {
      assert Named(h, keys, via, w, i);
    }
  }

  /** Removing the path just added prunes the way that was made. */
  lemma AddedIsCleared(h: Heap, h': Heap, root: Dict, keys: seq<string>, value: Any, news: seq<Dict>, via: Lookups) returns (w: Way)
    requires root in h && Tree(h, root) && keys != [] && Added(h, h', root, keys, value, news)
    ensures w == Way(Chain(h, root, keys) + news, keys, value) && forall d :: d in w.dicts ==> d in h'
    ensures var r := Removed(h', root, keys, via); r.removed && Cleared(h', r.heap, w) && h.Keys <= r.heap.Keys
  {
    w := AddedWay(h, h', root, keys, value, news, via);
    ExactIsSteady(h', root, keys, via, w);
    RemovedAlong(h', root, keys, via, w);
  }

  /** All is restored exactly if the last map that existed on the path is the root or was not empty. */
  lemma RestoredExactly(h: Heap, h': Heap, root: Dict, keys: seq<string>, value: Any, news: seq<Dict>, w: Way, g: Heap)
    requires root in h && Tree(h, root) && keys != [] && Added(h, h', root, keys, value, news)
    requires Follow(h, root, keys) == None && w == Way(Chain(h, root, keys) + news, keys, value)
    requires (forall d :: d in w.dicts ==> d in h') && Cleared(h', g, w) && h.Keys <= g.Keys
    ensures var c := Chain(h, root, keys);
            c[|c| - 1] in h && ((forall d {:trigger g[d]} :: d in h ==> g[d] == h[d]) <==> |c| == 1 || h[c[|c| - 1]] != map[])
  {
    var c := Chain(h, root, keys);
    AbsentKey(h, root, keys);
    if |c| == 1 || h[c[|c| - 1]] != map[] {
      AllRestored(h, h', root, keys, value, news, w, g);
    } else {
      NotRestored(h, h', root, keys, value, news, w, g);
      assert c[|c| - 2] in h && g[c[|c| - 2]] != h[c[|c| - 2]];
    }
  }

  /** Removing a path that was absent before it was added restores every map exactly when the last map
      that existed on the path is the root or was not empty: otherwise that map goes with the rest. */
  lemma RemovalUndoesAdding(h: Heap, h': Heap, root: Dict, keys: seq<string>, value: Any, news: seq<Dict>, via: Lookups)
    requires root in h && Tree(h, root) && keys != [] && Added(h, h', root, keys, value, news)
    requires Follow(h, root, keys) == None
    ensures var r := Removed(h', root, keys, via);
            var c := Chain(h, root, keys);
            && r.removed && h.Keys <= r.heap.Keys && c[|c| - 1] in h
            && ((forall d {:trigger r.heap[d]} :: d in h ==> r.heap[d] == h[d]) <==> |c| == 1 || h[c[|c| - 1]] != map[])
  {
    var w := AddedIsCleared(h, h', root, keys, value, news, via);
    RestoredExactly(h, h', root, keys, value, news, w, Removed(h', root, keys, via).heap);
  }

  /** Removing a path of two keys whose second map holds nothing else. */
  lemma TwoLevels(h: Heap, d: Dict, e: Dict, a: string, b: string, k: string, l: string, via: Lookups)
    requires d in h && e in h && d != e && k in h[d] && h[d][k] == Object(e) && h[e].Keys == {b}
    requires via.Find(h[d], d, a, false) == Some(k) && via.Find(h[d], d, a, true) == Some(l)
    ensures Removed(h, d, [a, b], via) == Removal(true, h[e := map[]][d := h[d] - {l}])
  {
    var keys := [a, b];
    assert keys[1..] == [b];
    LastKeyGone(h[e], b);
    assert Removed(h, e, [b], via) == Removal(true, h[e := map[]]);
  }

  /** {"a": {}} with $['a']['b']: adding the path and removing it again leaves {}. */
  lemma EmptyMapIsLost(d: Dict, e: Dict, value: Any, via: Lookups)
    requires d != e
    ensures var h, keys := map[d := map["a" := Object(e)], e := map[]], ["a", "b"];
            var h' := map[d := map["a" := Object(e)], e := map["b" := value]];
            && Tree(h, d) && Follow(h, d, keys) == None && Added(h, h', d, keys, value, [])
            && Removed(h', d, keys, via) == Removal(true, map[d := map[], e := map[]])
  {
    var h: Heap := map[d := map["a" := Object(e)], e := map[]];
    var h': Heap := map[d := map["a" := Object(e)], e := map["b" := value]];
    var keys := ["a", "b"];
    assert h[d]["a"] == Object(e);
    assert keys[1..] == ["b"] && Chain(h, d, keys) == [d, e];
    EmptyMapRemoved(h', d, e, via);
  }

  lemma EmptyMapRemoved(h: Heap, d: Dict, e: Dict, via: Lookups)
    requires d != e && h.Keys == {d, e} && h[d] == map["a" := Object(e)] && h[e].Keys == {"b"}
    ensures Removed(h, d, ["a", "b"], via) == Removal(true, map[d := map[], e := map[]])
  {
    TwoLevels(h, d, e, "a", "b", "a", "a", via);
    assert h[d] - {"a"} == map[] && h[e := map[]][d := map[]] == map[d := map[], e := map[]];
  }

  /** Two keys k and l that `a` can stand for: removing $['a']['b'] empties the map under the one, and then
      deletes the other with all that is in it. */
  lemma UnrelatedKeyIsLost(d: Dict, e: Dict, f: Dict, k: string, l: string, a: string, value: Any, kept: map<string, Any>, via: Lookups)
    requires d != e && d != f && e != f && k != l && a != k && a != l && via.same(k, a) && via.same(l, a)
    requires via.order(d, false) == [k, l] && via.order(d, true) == [l, k]
    ensures var h := map[d := map[k := Object(e), l := Object(f)], e := map["b" := value], f := kept];
            Removed(h, d, [a, "b"], via) == Removal(true, map[d := map[k := Object(e)], e := map[], f := kept])
  {
    var h: Heap := map[d := map[k := Object(e), l := Object(f)], e := map["b" := value], f := kept];
    assert via.Find(h[d], d, a, false) == Some(k) && via.Find(h[d], d, a, true) == Some(l);
    TwoLevels(h, d, e, a, "b", k, l, via);
    assert h[d] - {l} == map[k := Object(e)];
    assert h[e := map[]][d := map[k := Object(e)]] == map[d := map[k := Object(e)], e := map[], f := kept];
  }
}
