/** Nested maps as they lie in memory, and what looking up, adding and removing a path does to them. */
module JsonHeap {
  import opened Options
  import opened JsonPathSyntax

  /** A map[string]any; it is shared by reference. */
  class Dict {
    var fields: map<string, Any>

    constructor ()
      ensures fields == map[]
    {
      fields := map[];
    }
  }

  /** A value held in a map. */
  datatype Any = Null | Scalar(text: string) | Array(items: seq<Any>) | Object(dict: Dict)

  /** What the maps of a document contain at one moment. */
  type Heap = map<Dict, map<string, Any>>

  ghost function Snap(dicts: set<Dict>): (h: Heap)
    reads dicts
    ensures h.Keys == dicts
  {
    map d | d in dicts :: d.fields
  }

  /** How lookups go: `same` says which keys are equal up to case, and order(d, again) is the order in which
      ranging over the map d yields its keys, which the runtime picks anew each time: `again` tells the second
      time a removal looks a key up from the first. */
  datatype Lookups = Lookups(same: (string, string) -> bool, order: (Dict, bool) -> seq<string>)
  {
    /** The key that stands for `key` in the map d: itself if present, else the first that is the same up to case. */
    function Find(fields: map<string, Any>, d: Dict, key: string, again: bool): (found: Option<string>)
      ensures key in fields ==> found == Some(key)
      ensures found.Some? ==> found.value in fields && (found.value == key || same(found.value, key))
      ensures found.None? && (forall k :: k in fields ==> k in order(d, again)) ==>
                forall k :: k in fields ==> k != key && !same(k, key)
    {
      if key in fields then Some(key) else FirstSame(order(d, again), fields, key)
    }

    function FirstSame(ks: seq<string>, fields: map<string, Any>, key: string): (found: Option<string>)
      ensures found.Some? ==> found.value in fields && same(found.value, key)
      ensures found.None? ==> forall k :: k in ks && k in fields ==> !same(k, key)
    {
      if ks == [] then None
      else if ks[0] in fields && same(ks[0], key) then Some(ks[0])
      else FirstSame(ks[1..], fields, key)
    }
  }

  /** The maps an exact path leads through, as far as they exist. */
  function Chain(h: Heap, d: Dict, keys: seq<string>): (c: seq<Dict>)
    ensures c != [] && c[0] == d && (keys != [] ==> |c| <= |keys|)
  {
    if |keys| <= 1 || d !in h || keys[0] !in h[d] || !h[d][keys[0]].Object? then [d]
    else [d] + Chain(h, h[d][keys[0]].dict, keys[1..])
  }

  /** The value at an exact path. */
  function Follow(h: Heap, d: Dict, keys: seq<string>): Option<Any> {
    if keys == [] then Some(Object(d))
    else if d !in h || keys[0] !in h[d] then None
    else if |keys| == 1 then Some(h[d][keys[0]])
    else match h[d][keys[0]]
      case Object(o) => Follow(h, o, keys[1..])
      case _ => None
  }

  /** Each map of the document is the value of one key of one map, except the root, which is none's. */
  ghost predicate Tree(h: Heap, root: Dict) {
    && (forall d, k {:trigger h[d][k]} :: d in h && k in h[d] && h[d][k].Object? ==> h[d][k].dict in h && h[d][k].dict != root)
    && (forall d, k, e, l {:trigger h[d][k], h[e][l]} ::
          d in h && k in h[d] && e in h && l in h[e] && h[d][k].Object? && h[d][k] == h[e][l] ==> d == e && k == l)
  }

  /** The i-th map of a walk holds the next one under its key, and the last one the value. */
  ghost predicate Linked(h: Heap, dicts: seq<Dict>, keys: seq<string>, value: Any, i: nat)
    requires i < |dicts| == |keys|
  {
    && dicts[i] in h && keys[i] in h[dicts[i]]
    && h[dicts[i]][keys[i]] == if i == |dicts| - 1 then value else Object(dicts[i + 1])
  }

  /** A walk down the document. */
  ghost predicate Links(h: Heap, dicts: seq<Dict>, keys: seq<string>, value: Any) {
    |dicts| == |keys| > 0 && forall i :: 0 <= i < |dicts| ==> Linked(h, dicts, keys, value, i)
  }

  lemma {:induction false} FollowLinks(h: Heap, dicts: seq<Dict>, keys: seq<string>, value: Any)
    requires Links(h, dicts, keys, value)
    ensures Follow(h, dicts[0], keys) == Some(value)
  {
    assert Linked(h, dicts, keys, value, 0);
    if |keys| > 1 {
      LinksRest(h, dicts, keys, value);
      FollowLinks(h, dicts[1..], keys[1..], value);
    }
  }

  lemma LinksRest(h: Heap, dicts: seq<Dict>, keys: seq<string>, value: Any)
    requires Links(h, dicts, keys, value) && |keys| > 1
    ensures Links(h, dicts[1..], keys[1..], value)
  {
    forall i | 0 <= i < |dicts| - 1 ensures Linked(h, dicts[1..], keys[1..], value, i) {
      assert Linked(h, dicts, keys, value, i + 1);
    }
  }

  lemma {:induction false} FollowLast(h: Heap, d: Dict, p: seq<string>, k: string)
    requires d in h && forall e, l {:trigger h[e][l]} :: e in h && l in h[e] && h[e][l].Object? ==> h[e][l].dict in h
    ensures Follow(h, d, p + [k])
         == match Follow(h, d, p)
            case Some(Object(o)) => if o in h && k in h[o] then Some(h[o][k]) else None
            case _ => None
  {
    if p == [] {
      assert p + [k] == [k];
    } else {
      assert (p + [k])[1..] == p[1..] + [k];
      if p[0] in h[d] && h[d][p[0]].Object? {
        FollowLast(h, h[d][p[0]].dict, p[1..], k);
      } else if |p| == 1 {
        assert p[1..] == [];
      }
    }
  }

  /** In a tree, only one path leads to a map. */
  lemma {:induction false} PathUnique(h: Heap, root: Dict, p: seq<string>, q: seq<string>)
    requires root in h && Tree(h, root) && Follow(h, root, p).Some? && Follow(h, root, p) == Follow(h, root, q)
    requires Follow(h, root, p).value.Object?
    ensures p == q
    decreases |p|
  {
    if p != [] {
      assert p == p[..|p| - 1] + [p[|p| - 1]];
      FollowLast(h, root, p[..|p| - 1], p[|p| - 1]);
    }
    if q != [] {
      assert q == q[..|q| - 1] + [q[|q| - 1]];
      FollowLast(h, root, q[..|q| - 1], q[|q| - 1]);
    }
    if p != [] && q != [] {
      PathUnique(h, root, p[..|p| - 1], q[..|q| - 1]);
    }
  }

  /** What a chain says about the document. */
  ghost predicate ChainAt(h: Heap, d: Dict, keys: seq<string>, c: seq<Dict>, i: nat)
    requires i < |c| <= |keys|
  {
    && c[i] in h && Follow(h, d, keys[..i]) == Some(Object(c[i]))
    && (i < |c| - 1 ==> keys[i] in h[c[i]] && h[c[i]][keys[i]] == Object(c[i + 1]))
    && (i == |c| - 1 < |keys| - 1 && keys[i] in h[c[i]] ==> !h[c[i]][keys[i]].Object?)
  }

  lemma {:induction false} ChainHolds(h: Heap, d: Dict, keys: seq<string>, i: nat)
    requires d in h && forall e, l {:trigger h[e][l]} :: e in h && l in h[e] && h[e][l].Object? ==> h[e][l].dict in h
    requires keys != [] && i < |Chain(h, d, keys)|
    ensures ChainAt(h, d, keys, Chain(h, d, keys), i)
  {
    if i > 0 {
      var o := h[d][keys[0]].dict;
      ChainHolds(h, o, keys[1..], i - 1);
      assert keys[..i][1..] == keys[1..][..i - 1];
    }
  }

  lemma ChainDistinct(h: Heap, root: Dict, keys: seq<string>, i: nat, k: nat)
    requires root in h && Tree(h, root) && keys != [] && i < k < |Chain(h, root, keys)|
    ensures Chain(h, root, keys)[i] != Chain(h, root, keys)[k]
  {
    ChainHolds(h, root, keys, i);
    ChainHolds(h, root, keys, k);
    if Chain(h, root, keys)[i] == Chain(h, root, keys)[k] {
      PathUnique(h, root, keys[..i], keys[..k]);
    }
  }

  function At(news: seq<Dict>, i: nat, value: Any): Any {
    if i < |news| then Object(news[i]) else value
  }

  ghost predicate Fresh(h: Heap, news: seq<Dict>) {
    && (forall i {:trigger news[i]} :: 0 <= i < |news| ==> news[i] !in h)
    && (forall i, k {:trigger news[i], news[k]} :: 0 <= i < k < |news| ==> news[i] != news[k])
  }

  /** Adding a path is blocked by a value on the way that is not a map. */
  predicate Blocked(h: Heap, root: Dict, keys: seq<string>)
    requires root in h && keys != []
  {
    var c := Chain(h, root, keys);
    var j := |c| - 1;
    j < |keys| - 1 && c[j] in h && keys[j] in h[c[j]]
  }

  /** After i keys the path is at a value that is not a map. */
  predicate NoMapAt(h: Heap, root: Dict, keys: seq<string>, i: nat)
    requires i <= |keys|
  {
    Follow(h, root, keys[..i]).Some? && !Follow(h, root, keys[..i]).value.Object?
  }

  /** Adding is blocked exactly if some key before the last one leads to a value that is not a map, and the chain
      ends just there. */
  lemma BlockedExactly(h: Heap, root: Dict, keys: seq<string>)
    requires root in h && keys != [] && forall e, l {:trigger h[e][l]} :: e in h && l in h[e] && h[e][l].Object? ==> h[e][l].dict in h
    ensures Blocked(h, root, keys) <==> exists i :: 0 < i < |keys| && NoMapAt(h, root, keys, i)
    ensures forall i :: 0 < i < |keys| && NoMapAt(h, root, keys, i) ==> |Chain(h, root, keys)| == i
  {
    var c := Chain(h, root, keys);
    if Blocked(h, root, keys) {
      ChainHolds(h, root, keys, |c| - 1);
      assert keys[..|c|] == keys[..|c| - 1] + [keys[|c| - 1]];
      FollowLast(h, root, keys[..|c| - 1], keys[|c| - 1]);
      assert NoMapAt(h, root, keys, |c|);
    }
    forall i | 0 < i < |keys| && NoMapAt(h, root, keys, i) ensures Blocked(h, root, keys) && |c| == i {
      BlockedAt(h, root, keys, i);
    }
  }

  lemma {:induction false} BlockedAt(h: Heap, d: Dict, keys: seq<string>, i: nat)
    requires d in h && 0 < i < |keys| && NoMapAt(h, d, keys, i)
    requires forall e, l {:trigger h[e][l]} :: e in h && l in h[e] && h[e][l].Object? ==> h[e][l].dict in h
    ensures |Chain(h, d, keys)| == i && Blocked(h, d, keys)
  {
    assert keys[..i][0] == keys[0] && keys[..i][1..] == keys[1..][..i - 1];
    if i > 1 {
      BlockedAt(h, h[d][keys[0]].dict, keys[1..], i - 1);
    }
  }

  /** One key of one map has changed. */
  ghost predicate Changed(h: Heap, now: Heap, x: Dict, key: string, v: Any) {
    && x in h && x in now && now[x] == h[x][key := v]
    && forall d {:trigger now[d]} {:trigger h[d]} :: d in h && d != x ==> d in now && now[d] == h[d]
  }

  function Elements(s: seq<Dict>): set<Dict> {
    set d | d in s
  }

  /** The i-th map made holds just the next one, and the last one the value. */
  ghost predicate Holds(now: Heap, keys: seq<string>, base: nat, news: seq<Dict>, value: Any, i: nat)
    requires i < |news| && base + |news| <= |keys|
  {
    news[i] in now && now[news[i]] == map[keys[base + i] := At(news, i + 1, value)]
  }

  /** What adding a value at a path does: one key of the last existing map on the path changes, and new
      maps with one key each make up the rest of the path. */
  ghost predicate Added(h: Heap, h': Heap, root: Dict, keys: seq<string>, value: Any, news: seq<Dict>)
    requires root in h && keys != []
  {
    var c := Chain(h, root, keys);
    && !Blocked(h, root, keys) && |c| + |news| == |keys| && Fresh(h, news)
    && h'.Keys == h.Keys + Elements(news)
    && Changed(h, h', c[|c| - 1], keys[|c| - 1], At(news, 0, value))
    && forall i :: 0 <= i < |news| ==> Holds(h', keys, |c|, news, value, i)
  }

  lemma OldLink(h: Heap, root: Dict, keys: seq<string>, i: nat)
    requires root in h && Tree(h, root) && keys != [] && i < |Chain(h, root, keys)| - 1
    ensures var c := Chain(h, root, keys);
            c[i] != c[|c| - 1] && c[i] in h && keys[i] in h[c[i]] && h[c[i]][keys[i]] == Object(c[i + 1])
  {
    ChainHolds(h, root, keys, i);
    ChainDistinct(h, root, keys, i, |Chain(h, root, keys)| - 1);
  }

  lemma OldLinked(h: Heap, h': Heap, c: seq<Dict>, keys: seq<string>, value: Any, news: seq<Dict>, i: nat)
    requires i < |c| - 1 && |c| + |news| == |keys| && Changed(h, h', c[|c| - 1], keys[|c| - 1], At(news, 0, value))
    requires c[i] != c[|c| - 1] && c[i] in h && keys[i] in h[c[i]] && h[c[i]][keys[i]] == Object(c[i + 1])
    ensures Linked(h', c + news, keys, value, i)
  {
    assert h[c[i]] == h'[c[i]];
  }

  lemma LastLinked(h: Heap, h': Heap, c: seq<Dict>, keys: seq<string>, value: Any, news: seq<Dict>)
    requires c != [] && |c| + |news| == |keys| && Changed(h, h', c[|c| - 1], keys[|c| - 1], At(news, 0, value))
    ensures Linked(h', c + news, keys, value, |c| - 1)
  {
  }

  lemma NewLinked(h': Heap, c: seq<Dict>, keys: seq<string>, value: Any, news: seq<Dict>, i: nat)
    requires i < |news| && |c| + |news| == |keys| && Holds(h', keys, |c|, news, value, i)
    ensures Linked(h', c + news, keys, value, |c| + i)
  {
  }

  lemma NewLinks(h: Heap, h': Heap, root: Dict, keys: seq<string>, value: Any, news: seq<Dict>, i: nat)
    requires root in h && keys != [] && Added(h, h', root, keys, value, news) && |Chain(h, root, keys)| - 1 <= i < |keys|
    ensures Linked(h', Chain(h, root, keys) + news, keys, value, i)
  {
    var c := Chain(h, root, keys);
    if i == |c| - 1 {
      LastLinked(h, h', c, keys, value, news);
    } else {
      NewLinked(h', c, keys, value, news, i - |c|);
    }
  }

  lemma OldLinks(h: Heap, h': Heap, root: Dict, keys: seq<string>, value: Any, news: seq<Dict>, i: nat)
    requires root in h && Tree(h, root) && keys != [] && Added(h, h', root, keys, value, news) && i < |Chain(h, root, keys)| - 1
    ensures Linked(h', Chain(h, root, keys) + news, keys, value, i)
  {
    OldLink(h, root, keys, i);
    OldLinked(h, h', Chain(h, root, keys), keys, value, news, i);
  }

  lemma AddedLinks(h: Heap, h': Heap, root: Dict, keys: seq<string>, value: Any, news: seq<Dict>)
    requires root in h && Tree(h, root) && keys != [] && Added(h, h', root, keys, value, news)
    ensures Links(h', Chain(h, root, keys) + news, keys, value)
  {
    forall i | 0 <= i < |keys| ensures Linked(h', Chain(h, root, keys) + news, keys, value, i) {
      if i < |Chain(h, root, keys)| - 1 {
        OldLinks(h, h', root, keys, value, news, i);
      } else {
        NewLinks(h, h', root, keys, value, news, i);
      }
    }
  }

  /** Looking up the path just added gives the value. */
  lemma AddedIsFollowed(h: Heap, h': Heap, root: Dict, keys: seq<string>, value: Any, news: seq<Dict>)
    requires root in h && Tree(h, root) && keys != [] && Added(h, h', root, keys, value, news)
    ensures Follow(h', root, keys) == Some(value)
  {
    AddedLinks(h, h', root, keys, value, news);
    FollowLinks(h', Chain(h, root, keys) + news, keys, value);
  }

  ghost predicate Step(h: Heap, dicts: seq<Dict>, q: seq<string>, i: nat)
    requires i + 1 < |dicts| && i < |q|
  {
    dicts[i] in h && q[i] in h[dicts[i]] && h[dicts[i]][q[i]] == Object(dicts[i + 1])
  }

  lemma {:induction false} WalkTo(h: Heap, dicts: seq<Dict>, q: seq<string>, m: nat)
    requires m < |dicts| && m < |q| && forall i :: 0 <= i < m ==> Step(h, dicts, q, i)
    ensures Follow(h, dicts[0], q) == Follow(h, dicts[m], q[m..])
  {
    if m > 0 {
      forall i | 0 <= i < m - 1 ensures Step(h, dicts[1..], q[1..], i) {
        assert Step(h, dicts, q, i + 1);
      }
      assert Step(h, dicts, q, 0);
      WalkTo(h, dicts[1..], q[1..], m - 1);
      assert q[1..][m - 1..] == q[m..];
    }
  }

  /** A change to one map leaves alone what lies below a path that has left the way to that map. */
  lemma {:induction false} FollowOff(h: Heap, h': Heap, root: Dict, p: seq<string>, d: Dict, q: seq<string>, x: Dict, toX: seq<string>, e: nat)
    requires root in h && Tree(h, root) && Follow(h, root, p) == Some(Object(d)) && Follow(h, root, toX) == Some(Object(x))
    requires forall y {:trigger h[y]} {:trigger h'[y]} :: y in h && y != x ==> y in h' && h'[y] == h[y]
    requires d in h && (|p| > |toX| || (e < |p| && e < |toX| && p[e] != toX[e]))
    ensures Follow(h', d, q) == Follow(h, d, q)
    decreases |q|
  {
    if d == x {
      PathUnique(h, root, p, toX);
    }
    assert h[d] == h'[d];
    if |q| > 1 && q[0] in h[d] && h[d][q[0]].Object? {
      FollowLast(h, root, p, q[0]);
      FollowOff(h, h', root, p + [q[0]], h[d][q[0]].dict, q[1..], x, toX, e);
    }
  }

  /** Paths that part from the added one see what they saw before. */
  lemma DivergingUnaffected(h: Heap, h': Heap, root: Dict, keys: seq<string>, value: Any, news: seq<Dict>, q: seq<string>, e: nat)
    requires root in h && Tree(h, root) && keys != [] && Added(h, h', root, keys, value, news)
    requires e < |q| && e < |keys| && q[..e] == keys[..e] && q[e] != keys[e]
    ensures Follow(h', root, q) == Follow(h, root, q)
  {
    var c := Chain(h, root, keys);
    var j := |c| - 1;
    var m := if e <= j then e else j;
    forall i | 0 <= i < m ensures Step(h, c, q, i) {
      OldLink(h, root, keys, i);
      assert q[i] == q[..e][i] == keys[i];
    }
    WalkTo(h, c, q, m);
    WalkAdded(h, h', root, keys, value, news, q, e);
    if e <= j {
      PartingStep(h, h', root, keys, value, news, q, e);
    } else {
      assert q[j] == q[..e][j] == keys[j];
    }
  }

  lemma WalkAdded(h: Heap, h': Heap, root: Dict, keys: seq<string>, value: Any, news: seq<Dict>, q: seq<string>, e: nat)
    requires root in h && Tree(h, root) && keys != [] && Added(h, h', root, keys, value, news)
    requires e < |q| && e < |keys| && q[..e] == keys[..e]
    ensures Follow(h', root, q) == Follow(h', (Chain(h, root, keys) + news)[e], q[e..])
    ensures e >= |Chain(h, root, keys)| && q[e] != keys[e] ==> Follow(h', root, q) == None
  {
    var c := Chain(h, root, keys);
    var full := c + news;
    AddedLinks(h, h', root, keys, value, news);
    WalkLinks(h', full, keys, value, q, e);
    if e >= |c| {
      assert Holds(h', keys, |c|, news, value, e - |c|);
    }
  }

  lemma WalkLinks(h: Heap, dicts: seq<Dict>, keys: seq<string>, value: Any, q: seq<string>, e: nat)
    requires Links(h, dicts, keys, value) && e < |q| && e < |keys| && q[..e] == keys[..e]
    ensures Follow(h, dicts[0], q) == Follow(h, dicts[e], q[e..])
  {
    forall i | 0 <= i < e ensures Step(h, dicts, q, i) {
      assert Linked(h, dicts, keys, value, i);
      assert q[i] == q[..e][i] == keys[i];
    }
    WalkTo(h, dicts, q, e);
  }

  lemma PartingStep(h: Heap, h': Heap, root: Dict, keys: seq<string>, value: Any, news: seq<Dict>, q: seq<string>, e: nat)
    requires root in h && Tree(h, root) && keys != [] && Added(h, h', root, keys, value, news)
    requires e < |q| && e < |Chain(h, root, keys)| && q[..e] == keys[..e] && q[e] != keys[e]
    ensures var d := Chain(h, root, keys)[e]; Follow(h', d, q[e..]) == Follow(h, d, q[e..])
  {
    var c := Chain(h, root, keys);
    var j, d, k := |c| - 1, c[e], q[e];
    ChainHolds(h, root, keys, e);
    ChainHolds(h, root, keys, j);
    if e < j {
      ChainDistinct(h, root, keys, e, j);
    }
    assert h'[d] == h[d] || d == c[j];
    assert k in h'[d] <==> k in h[d];
    if k in h[d] && |q| > e + 1 && h[d][k].Object? {
      FollowLast(h, root, keys[..e], k);
      FollowOff(h, h', root, keys[..e] + [k], h[d][k].dict, q[e + 1..], c[j], keys[..j], e);
      assert q[e..][1..] == q[e + 1..];
    }
  }
}
