/** What the reply to a lookup means: the value a path denotes, item by item behind each wildcard, and the place
    where a lookup in vain stops. */
module JsonReplies {
  import opened Options
  import opened JsonPathSyntax
  import opened JsonHeap
  import opened JsonLookup

  /** The path from segment p on leads from `current` to v. A wildcard leads to an array of as many values as
      there are items, each one the value that the rest of the path leads to from the item at its place. */
  ghost predicate Denotes(h: Heap, current: Any, path: seq<string>, p: nat, via: Lookups, v: Any)
    requires p <= |path|
    decreases |path| - p
  {
    if p == |path| then v == current
    else if path[p] == WILD then
      && current.Array?
      && if p + 1 == |path| then v == current
         else
           && v.Array? && |v.items| == |current.items|
           && forall n {:trigger current.items[n]} {:trigger v.items[n]} :: 0 <= n < |current.items| ==>
                current.items[n].Object? && Denotes(h, current.items[n], path, p + 1, via, v.items[n])
    else
      && current.Object? && current.dict in h
      && var k := via.Find(h[current.dict], current.dict, path[p], false);
         && k.Some? && (p + 1 < |path| ==> !h[current.dict][k.value].Null?)
         && Denotes(h, h[current.dict][k.value], path, p + 1, via, v)
  }

  /** A lookup succeeds exactly with the value that the path denotes. */
  lemma {:induction false} DirectDenotes(h: Heap, current: Any, path: seq<string>, p: nat, via: Lookups, v: Any)
    requires p <= |path|
    ensures Direct(h, current, path, p, via) == Value(v) <==> Denotes(h, current, path, p, via, v)
    decreases |path| - p, 0
  {
    if p < |path| {
      if path[p] == WILD {
        if current.Array? && p + 1 < |path| {
          WildcardDenotes(h, current.items, path, p, via, v);
        }
      } else if current.Object? && current.dict in h {
        var k := via.Find(h[current.dict], current.dict, path[p], false);
        if k.Some? {
          DirectDenotes(h, h[current.dict][k.value], path, p + 1, via, v);
        }
      }
    }
  }

  lemma {:induction false} WildcardDenotes(h: Heap, items: seq<Any>, path: seq<string>, p: nat, via: Lookups, v: Any)
    requires p + 1 < |path| && path[p] == WILD
    ensures Direct(h, Array(items), path, p, via) == Value(v) <==> Denotes(h, Array(items), path, p, via, v)
    decreases |path| - p - 1, 1
  {
    WildcardItems(h, items, path, p, via);
    if v.Array? && |v.items| == |items| {
      forall n | 0 <= n < |items|
        ensures Direct(h, items[n], path, p + 1, via) == Value(v.items[n]) <==> Denotes(h, items[n], path, p + 1, via, v.items[n]) {
        DirectDenotes(h, items[n], path, p + 1, via, v.items[n]);
      }
    }
  }

  /** Behind a wildcard a lookup succeeds exactly if every item is a map and the rest of the path succeeds from
      it, and the reply has these values in the items' order. Otherwise the first item that is not a map, or from
      which the rest fails, decides the error. */
  lemma WildcardItems(h: Heap, items: seq<Any>, path: seq<string>, p: nat, via: Lookups)
    requires p + 1 < |path| && path[p] == WILD
    ensures var r := Direct(h, Array(items), path, p, via);
            && (r.Value? <==> forall n {:trigger items[n]} :: 0 <= n < |items| ==> items[n].Object? && Direct(h, items[n], path, p + 1, via).Value?)
            && (r.Value? ==>
                  && r.value.Array? && |r.value.items| == |items|
                  && forall n {:trigger items[n]} :: 0 <= n < |items| ==> Direct(h, items[n], path, p + 1, via) == Value(r.value.items[n]))
            && forall n {:trigger items[n]} :: 0 <= n < |items| && Succeed(h, items, n, path, p, via) ==>
                 && (!items[n].Object? ==> r == Failed(CannotTraverseItem(p, n)))
                 && (items[n].Object? && Direct(h, items[n], path, p + 1, via).Failed? ==> r == Direct(h, items[n], path, p + 1, via))
  {
    ItemsFrom(h, items, 0, path, p, [], via);
  }

  /** The first n items are maps from which the rest of the path succeeds. */
  ghost predicate Succeed(h: Heap, items: seq<Any>, n: nat, path: seq<string>, p: nat, via: Lookups)
    requires n <= |items| && p < |path|
  {
    forall m {:trigger items[m]} :: 0 <= m < n ==> items[m].Object? && Direct(h, items[m], path, p + 1, via).Value?
  }

  lemma {:induction false} ItemsFrom(h: Heap, items: seq<Any>, n: nat, path: seq<string>, p: nat, found: seq<Any>, via: Lookups)
    requires |found| == n <= |items| && p < |path|
    requires forall m {:trigger items[m]} :: 0 <= m < n ==> items[m].Object? && Direct(h, items[m], path, p + 1, via) == Value(found[m])
    ensures var r := DirectItems(h, items, n, path, p, found, via);
            && (r.Value? <==> Succeed(h, items, |items|, path, p, via))
            && (r.Value? ==>
                  && r.value.Array? && |r.value.items| == |items|
                  && forall m {:trigger items[m]} :: 0 <= m < |items| ==> Direct(h, items[m], path, p + 1, via) == Value(r.value.items[m]))
            && forall m {:trigger items[m]} :: 0 <= m < |items| && Succeed(h, items, m, path, p, via) ==>
                 && (!items[m].Object? ==> r == Failed(CannotTraverseItem(p, m)))
                 && (items[m].Object? && Direct(h, items[m], path, p + 1, via).Failed? ==> r == Direct(h, items[m], path, p + 1, via))
    decreases |items| - n
  {
    if n < |items| && items[n].Object? && Direct(h, items[n], path, p + 1, via).Value? {
      ItemsFrom(h, items, n + 1, path, p, found + [Direct(h, items[n], path, p + 1, via).value], via);
    }
  }

  /** GetValue succeeds exactly with the value that the path denotes: printing and parsing again behind each
      wildcard never gives a wrong value. */
  lemma GetDenotes(h: Heap, d: Dict, path: seq<string>, via: Lookups, v: Any)
    ensures Get(h, Object(d), path, 0, 0, via) == Value(v) <==> Denotes(h, Object(d), path, 0, via, v)
  {
    WholeGetIsDirect(h, d, path, via);
    DirectDenotes(h, Object(d), path, 0, via, v);
  }

  /** The value that the first p keys lead to, whatever stands there. */
  ghost function Reached(h: Heap, d: Dict, path: seq<string>, p: nat, via: Lookups): Option<Any>
    requires p <= |path|
  {
    if p == 0 then Some(Object(d))
    else
      match Reached(h, d, path, p - 1, via)
      case Some(Object(o)) =>
        if o !in h then None
        else (match via.Find(h[o], o, path[p - 1], false) case Some(k) => Some(h[o][k]) case None => None)
      case _ => None
  }

  /** Without wildcards: the lookup goes as far as the keys lead. If that is not the end, it reports the position
      and key of the segment that it cannot look up: in a null, in anything else that is not a map, or in a map
      without the key. */
  lemma PlainLookup(h: Heap, d: Dict, path: seq<string>, p: nat, via: Lookups)
    requires WILD !in path && p <= |path| && Reached(h, d, path, p, via).Some?
    ensures var r, v := Get(h, Object(d), path, 0, 0, via), Reached(h, d, path, p, via).value;
            && (p == |path| ==> r == Value(v))
            && (p < |path| ==>
                  && (v.Null? ==> r == Failed(NullValue(p, path[p])))
                  && (v.Scalar? || v.Array? ==> r == Failed(CannotTraverse(p)))
                  && (v.Object? && v.dict in h && via.Find(h[v.dict], v.dict, path[p], false).None? ==> r == Failed(KeyNotFound(p, path[p]))))
  {
    WithoutWildcards(path);
    HonestIsRight(h, d, path, via);
    PlainFrom(h, d, path, p, via);
    if p < |path| && Reached(h, d, path, p, via).value.Null? {
      PlainFrom(h, d, path, p - 1, via);
    }
  }

  /** The lookup from the start comes to segment p with the value reached there, unless that is a null in mid-path. */
  lemma {:induction false} PlainFrom(h: Heap, d: Dict, path: seq<string>, p: nat, via: Lookups)
    requires WILD !in path && p <= |path| && Reached(h, d, path, p, via).Some?
    ensures var v := Reached(h, d, path, p, via).value;
            !v.Null? || p == |path| ==> Direct(h, Object(d), path, 0, via) == Direct(h, v, path, p, via)
  {
    if p > 0 {
      PlainFrom(h, d, path, p - 1, via);
      assert path[p - 1] != WILD;
    }
  }

  /** The report of a null parent is never made: a null is already noticed where it is found. */
  lemma {:induction false} NeverNullParent(h: Heap, current: Any, path: seq<string>, p: nat, via: Lookups)
    requires p <= |path| && !current.Null?
    ensures var r := Direct(h, current, path, p, via); r.Failed? ==> !r.fault.NullParent?
    decreases |path| - p, 0
  {
    if p < |path| {
      if path[p] == WILD {
        if current.Array? && p + 1 < |path| {
          ItemsNeverNullParent(h, current.items, 0, path, p, [], via);
        }
      } else if current.Object? && current.dict in h {
        var k := via.Find(h[current.dict], current.dict, path[p], false);
        if k.Some? && !h[current.dict][k.value].Null? {
          NeverNullParent(h, h[current.dict][k.value], path, p + 1, via);
        }
      }
    }
  }

  lemma {:induction false} ItemsNeverNullParent(h: Heap, items: seq<Any>, n: nat, path: seq<string>, p: nat, found: seq<Any>, via: Lookups)
    requires n <= |items| && p < |path|
    ensures var r := DirectItems(h, items, n, path, p, found, via); r.Failed? ==> !r.fault.NullParent?
    decreases |path| - p - 1, 1 + |items| - n
  {
    if n < |items| && items[n].Object? {
      NeverNullParent(h, items[n], path, p + 1, via);
      var r := Direct(h, items[n], path, p + 1, via);
      if r.Value? {
        ItemsNeverNullParent(h, items, n + 1, path, p, found + [r.value], via);
      }
    }
  }

  /** A GetValue that is called from outside never reports a null parent. */
  lemma GetNeverNullParent(h: Heap, d: Dict, path: seq<string>, via: Lookups)
    ensures var r := Get(h, Object(d), path, 0, 0, via); r.Failed? ==> !r.fault.NullParent?
  {
    WholeGetIsDirect(h, d, path, via);
    NeverNullParent(h, Object(d), path, 0, via);
  }
}
