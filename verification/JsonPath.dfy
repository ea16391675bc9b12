/** Getting, adding and removing a value at a path, in place. `dicts` are the maps of the document. */
module JsonPath {
  import opened Options
  import opened JsonPathSyntax
  import opened JsonHeap
  import opened JsonLookup
  import JsonRemoval

  datatype Outcome = Done | AddBadPath(error: PathError) | WildNotSupported | CannotCreateNested(key: string)

  ghost predicate Held(h: Heap, v: Any) {
    match v
    case Object(d) => d in h
    case Array(items) => forall i {:trigger items[i]} :: 0 <= i < |items| && items[i].Object? ==> items[i].dict in h
    case _ => true
  }

  /** The document has all its maps. */
  ghost predicate Closed(h: Heap) {
    forall d, k {:trigger h[d][k]} :: d in h && k in h[d] ==> Held(h, h[d][k])
  }

  /** lookupKey, `again` telling which of the two lookups of a removal it is. */
  method LookupKey(d: Dict, key: string, via: Lookups, again: bool) returns (found: Option<string>)
    ensures found == via.Find(d.fields, d, key, again)
  {
    if key in d.fields {
      return Some(key);
    }
    var ks := via.order(d, again);
    for i := 0 to |ks|
      invariant via.FirstSame(ks, d.fields, key) == via.FirstSame(ks[i..], d.fields, key)
    {
      if ks[i] in d.fields && via.same(ks[i], key) {
        return Some(ks[i]);
      }
      assert ks[i..][1..] == ks[i + 1..];
    }
    return None;
  }

  lemma {:induction false} PrintedShorter(segments: seq<string>, i: nat)
    requires i < |segments|
    ensures |Printed(segments[i + 1..])| < |Printed(segments)|
  {
    var first, rest := Bracket(segments[0]), Brackets(segments[1..]);
    assert |first| > 0 && Brackets(segments) == first + rest;
    if i > 0 {
      PrintedShorter(segments[1..], i - 1);
      assert segments[1..][i..] == segments[i + 1..];
    }
  }

  /** getValue: prints and parses the rest of the path again for every item behind a wildcard. */
  method GetValue(ghost dicts: set<Dict>, input: Dict, path: string, via: Lookups, offset: nat) returns (r: Reply)
    requires Closed(Snap(dicts)) && input in dicts
    ensures r == GetPath(Snap(dicts), input, path, offset, via)
    decreases |path|, 2
  {
    var parse := ParsePath(path);
    if parse.Err? {
      return Failed(BadPath(parse.error));
    }
    ParsesWhatPrints(path, parse.segments);
    r := GetSegments(dicts, input, parse.segments, via, offset, path);
  }

  /** getValue's loop over the segments. */
  method GetSegments(ghost dicts: set<Dict>, input: Dict, segments: seq<string>, via: Lookups, offset: nat, ghost path: string)
    returns (r: Reply)
    requires Closed(Snap(dicts)) && input in dicts
    requires Valid(segments) && path == Printed(segments)
    ensures r == Get(Snap(dicts), Object(input), segments, 0, offset, via)
    decreases |path|, 1
  {
    ghost var h := Snap(dicts);
    var current := Object(input);
    ghost var whole := Get(h, Object(input), segments, 0, offset, via);
    for i := 0 to |segments|
      invariant Held(h, current) && whole == Get(h, current, segments, i, offset, via)
    {
      var segment, global := segments[i], i + offset;
      if segment == WILD {
        if !current.Array? {
          return Failed(CannotTraverse(global));
        }
        if i + 1 == |segments| {
          return Value(current);
        }
        PrintedShorter(segments, i);
        r := GetFromItems(dicts, current.items, segments[i + 1..], via, global, path);
        return;
      }
      if !current.Object? {
        return Failed(if current.Null? then NullParent(global, segment) else CannotTraverse(global));
      }
      var found := LookupKey(current.dict, segment, via, false);
      if found.None? {
        return Failed(KeyNotFound(global, segment));
      }
      var value := current.dict.fields[found.value];
      if value.Null? && i < |segments| - 1 {
        return Failed(if global + 1 < |segments| then NullValue(global + 1, segments[global + 1]) else Panicked);
      }
      assert Held(h, h[current.dict][found.value]);
      current := value;
    }
    r := Value(current);
  }

  /** The loop over the items behind a wildcard. */
  method GetFromItems(ghost dicts: set<Dict>, items: seq<Any>, rest: seq<string>, via: Lookups, global: nat, ghost outer: string)
    returns (r: Reply)
    requires Closed(Snap(dicts)) && Held(Snap(dicts), Array(items)) && Valid(rest)
    requires |Printed(rest)| < |outer|
    ensures r == GetItems(Snap(dicts), items, 0, rest, global, [], via)
    decreases |outer|, 0
  {
    ghost var h := Snap(dicts);
    var found := [];
    ghost var whole := GetItems(h, items, 0, rest, global, [], via);
    for n := 0 to |items|
      invariant whole == GetItems(h, items, n, rest, global, found, via)
    {
      if !items[n].Object? {
        return Failed(CannotTraverseItem(global, n));
      }
      var path := NewPath(rest);
      ParsesWhatPrints(path, rest);
      var value := GetValue(dicts, items[n].dict, path, via, global + 1);
      if value.Failed? {
        return value;
      }
      found := found + [value.value];
    }
    r := Value(Array(found));
  }

  /** Some maps on the path have been made, each holding the next one; the last is still empty. */
  ghost predicate Opened(h: Heap, now: Heap, root: Dict, keys: seq<string>, news: seq<Dict>)
    requires root in h && keys != [] && news != []
  {
    !Blocked(h, root, keys) && OpenedAfter(h, now, Chain(h, root, keys), keys, news)
  }

  ghost predicate OpenedAfter(h: Heap, now: Heap, c: seq<Dict>, keys: seq<string>, news: seq<Dict>)
    requires c != [] && news != []
  {
    && |c| + |news| <= |keys| && Fresh(h, news)
    && now.Keys == h.Keys + Elements(news)
    && Changed(h, now, c[|c| - 1], keys[|c| - 1], Object(news[0]))
    && (forall i :: 0 <= i < |news| - 1 ==> Holds(now, keys, |c|, news, Null, i))
    && now[news[|news| - 1]] == map[]
  }

  /** Puts a new map under a key. */
  method PutNew(ghost dicts: set<Dict>, current: Dict, key: string) returns (made: Dict)
    requires current in dicts
    modifies current
    ensures fresh(made)
    ensures var h := old(Snap(dicts)); Snap(dicts + {made}) == h[current := h[current][key := Object(made)]][made := map[]]
  {
    made := new Dict();
    current.fields := current.fields[key := Object(made)];
  }

  lemma FirstOpened(h: Heap, root: Dict, keys: seq<string>, made: Dict)
    requires root in h && keys != [] && made !in h
    requires var c := Chain(h, root, keys);
             |c| < |keys| && c[|c| - 1] in h && keys[|c| - 1] !in h[c[|c| - 1]]
    ensures var c := Chain(h, root, keys);
            var d := c[|c| - 1];
            Opened(h, h[d := h[d][keys[|c| - 1] := Object(made)]][made := map[]], root, keys, [made])
  {
  }

  lemma NextHolds(now: Heap, after: Heap, keys: seq<string>, base: nat, news: seq<Dict>, made: Dict)
    requires news != [] && base + |news| < |keys| && forall k :: 0 <= k < |news| - 1 ==> Holds(now, keys, base, news, Null, k)
    requires forall i, k {:trigger news[i], news[k]} :: 0 <= i < k < |news| ==> news[i] != news[k]
    requires made !in now && news[|news| - 1] in now
    requires after == now[news[|news| - 1] := map[keys[base + |news| - 1] := Object(made)]][made := map[]]
    ensures forall i :: 0 <= i < |news| ==> Holds(after, keys, base, news + [made], Null, i)
  {
    forall i | 0 <= i < |news| ensures Holds(after, keys, base, news + [made], Null, i) {
      if i < |news| - 1 {
        assert Holds(now, keys, base, news, Null, i);
      }
    }
  }

  lemma NextChanged(h: Heap, now: Heap, after: Heap, x: Dict, key: string, v: Any, last: Dict, made: Dict, fields: map<string, Any>)
    requires Changed(h, now, x, key, v) && last !in h && made !in h
    requires after == now[last := fields][made := map[]]
    ensures Changed(h, after, x, key, v)
  {
  }

  lemma FreshNext(h: Heap, now: Heap, news: seq<Dict>, made: Dict)
    requires Fresh(h, news) && now.Keys == h.Keys + Elements(news) && made !in now
    ensures Fresh(h, news + [made]) && Elements(news + [made]) == Elements(news) + {made}
    ensures now.Keys + {made} == h.Keys + Elements(news + [made])
  {
    assert forall i {:trigger news[i]} :: 0 <= i < |news| ==> news[i] in Elements(news);
  }

  lemma NextOpened(h: Heap, now: Heap, c: seq<Dict>, keys: seq<string>, news: seq<Dict>, made: Dict)
    requires c != [] && news != [] && OpenedAfter(h, now, c, keys, news) && made !in now && |c| + |news| < |keys|
    ensures var last := news[|news| - 1];
            && last in now && now[last] == map[]
            && OpenedAfter(h, now[last := map[keys[|c| + |news| - 1] := Object(made)]][made := map[]], c, keys, news + [made])
  {
    var last, fields := news[|news| - 1], map[keys[|c| + |news| - 1] := Object(made)];
    assert last in Elements(news);
    var after, all := now[last := fields][made := map[]], news + [made];
    FreshNext(h, now, news, made);
    assert after.Keys == now.Keys + {made};
    NextChanged(h, now, after, c[|c| - 1], keys[|c| - 1], Object(news[0]), last, made, fields);
    NextHolds(now, after, keys, |c|, news, made);
  }

  /** Where AddPath is after i keys: on the maps that were there, or on one it has made. */
  ghost predicate Underway(h: Heap, now: Heap, root: Dict, keys: seq<string>, news: seq<Dict>, current: Dict, i: nat)
    requires root in h && keys != []
  {
    var c := Chain(h, root, keys);
    && current in now && i < |keys|
    && if news == [] then i < |c| && current == c[i] && now == h
       else |c| + |news| == i + 1 && current == news[|news| - 1] && Opened(h, now, root, keys, news)
  }

  lemma Descended(h: Heap, now: Heap, root: Dict, keys: seq<string>, news: seq<Dict>, current: Dict, i: nat)
    requires root in h && keys != [] && Closed(h) && Underway(h, now, root, keys, news, current, i) && i < |keys| - 1
    ensures keys[i] in now[current] ==> news == []
    ensures keys[i] in now[current] && now[current][keys[i]].Object? ==>
              Underway(h, now, root, keys, news, now[current][keys[i]].dict, i + 1)
    ensures keys[i] in now[current] && !now[current][keys[i]].Object? ==>
              Blocked(h, root, keys) && i == |Chain(h, root, keys)| - 1
    ensures keys[i] !in now[current] && news == [] ==> i == |Chain(h, root, keys)| - 1
  {
    if news == [] {
      ChainHolds(h, root, keys, i);
      if keys[i] in h[current] {
        assert Held(h, h[current][keys[i]]);
      }
    }
  }

  lemma Made(h: Heap, now: Heap, root: Dict, keys: seq<string>, news: seq<Dict>, current: Dict, i: nat, made: Dict)
    requires root in h && keys != [] && Underway(h, now, root, keys, news, current, i) && i < |keys| - 1
    requires keys[i] !in now[current] && made !in now && (news == [] ==> i == |Chain(h, root, keys)| - 1)
    ensures Underway(h, now[current := now[current][keys[i] := Object(made)]][made := map[]], root, keys, news + [made], made, i + 1)
  {
    if news == [] {
      FirstOpened(h, root, keys, made);
    } else {
      NextOpened(h, now, Chain(h, root, keys), keys, news, made);
    }
  }

  /** The loop of AddPath down to the map that is to hold the value, making maps as needed. */
  method MakeWay(ghost dicts: set<Dict>, input: Dict, keys: seq<string>) returns (stop: Option<nat>, current: Dict, ghost news: seq<Dict>)
    requires Closed(Snap(dicts)) && input in dicts && keys != []
    modifies dicts
    ensures fresh(Elements(news)) && (stop.Some? ==> news == [])
    ensures stop.None? ==> Underway(old(Snap(dicts)), Snap(dicts + Elements(news)), input, keys, news, current, |keys| - 1)
    ensures stop.Some? ==>
              && Blocked(old(Snap(dicts)), input, keys) && Snap(dicts) == old(Snap(dicts))
              && stop.value == |Chain(old(Snap(dicts)), input, keys)| - 1
  {
    ghost var h, all := Snap(dicts), dicts;
    current, news := input, [];
    for i := 0 to |keys| - 1
      invariant fresh(Elements(news)) && all == dicts + Elements(news)
      invariant Underway(h, Snap(all), input, keys, news, current, i)
    {
      var key := keys[i];
      ghost var now := Snap(all);
      Descended(h, now, input, keys, news, current, i);
      if key in current.fields {
        match current.fields[key]
        case Object(d) => current := d;
        case _ =>
          assert all == dicts;
          return Some(i), current, [];
      } else {
        var made := PutNew(all, current, key);
        Made(h, now, input, keys, news, current, i, made);
        all, current, news := all + {made}, made, news + [made];
      }
    }
    stop := None;
  }

  lemma FinalAdded(h: Heap, now: Heap, root: Dict, keys: seq<string>, news: seq<Dict>, current: Dict, value: Any)
    requires root in h && keys != [] && Closed(h) && Underway(h, now, root, keys, news, current, |keys| - 1)
    ensures Added(h, now[current := now[current][keys[|keys| - 1] := value]], root, keys, value, news)
  {
    var c := Chain(h, root, keys);
    var after := now[current := now[current][keys[|keys| - 1] := value]];
    forall i | 0 <= i < |news| ensures Holds(after, keys, |c|, news, value, i) {
      if i < |news| - 1 {
        assert Holds(now, keys, |c|, news, Null, i) && news[i] != news[|news| - 1];
      }
    }
  }

  method PutValue(ghost dicts: set<Dict>, current: Dict, key: string, value: Any)
    requires current in dicts
    modifies current
    ensures Snap(dicts) == var h := old(Snap(dicts)); h[current := h[current][key := value]]
  {
    current.fields := current.fields[key := value];
  }

  /** AddPath on parsed keys. */
  method AddKeys(ghost dicts: set<Dict>, input: Dict, keys: seq<string>, value: Any) returns (r: Outcome, ghost news: seq<Dict>)
    requires Closed(Snap(dicts)) && input in dicts && keys != []
    modifies dicts
    ensures fresh(Elements(news))
    ensures if Blocked(old(Snap(dicts)), input, keys)
            then && r == CannotCreateNested(keys[|Chain(old(Snap(dicts)), input, keys)| - 1])
                 && news == [] && Snap(dicts) == old(Snap(dicts))
            else r == Done && Added(old(Snap(dicts)), Snap(dicts + Elements(news)), input, keys, value, news)
  {
    ghost var h := Snap(dicts);
    var stop, current;
    stop, current, news := MakeWay(dicts, input, keys);
    if stop.Some? {
      return CannotCreateNested(keys[stop.value]), [];
    }
    FinalAdded(h, Snap(dicts + Elements(news)), input, keys, news, current, value);
    PutValue(dicts + Elements(news), current, keys[|keys| - 1], value);
    r := Done;
  }

  /** AddPath. A failed one changes nothing. */
  method AddPath(ghost dicts: set<Dict>, input: Dict, path: string, value: Any) returns (r: Outcome, ghost news: seq<Dict>)
    requires Closed(Snap(dicts)) && input in dicts
    modifies dicts
    ensures fresh(Elements(news))
    ensures r != Done ==> news == [] && Snap(dicts) == old(Snap(dicts))
    ensures match Parsed(path)
            case Err(e) => r == AddBadPath(e)
            case Ok(keys) =>
              && keys != []
              && (WILD in keys ==> r == WildNotSupported)
              && (WILD !in keys && Blocked(old(Snap(dicts)), input, keys) ==>
                    r == CannotCreateNested(keys[|Chain(old(Snap(dicts)), input, keys)| - 1]))
              && (WILD !in keys && !Blocked(old(Snap(dicts)), input, keys) ==>
                    r == Done && Added(old(Snap(dicts)), Snap(dicts + Elements(news)), input, keys, value, news))
  {
    var parse := ParsePath(path);
    if parse.Err? {
      return AddBadPath(parse.error), [];
    }
    var keys := parse.segments;
    ParsesWhatPrints(path, keys);
    for i := 0 to |keys|
      invariant WILD !in keys[..i]
    {
      if keys[i] == WILD {
        return WildNotSupported, [];
      }
    }
    assert keys[..|keys|] == keys;
    r, news := AddKeys(dicts, input, keys, value);
  }

  lemma {:induction false} RemovalShrinks(h: Heap, d: Dict, keys: seq<string>, via: Lookups)
    ensures var r := JsonRemoval.Removed(h, d, keys, via);
            r.heap.Keys == h.Keys && forall e :: e in h ==> r.heap[e].Keys <= h[e].Keys
    decreases |keys|
  {
    if keys != [] && d in h {
      var name := via.Find(h[d], d, keys[0], false);
      if name.Some? && |keys| > 1 && h[d][name.value].Object? {
        RemovalShrinks(h, h[d][name.value].dict, keys[1..], via);
      }
    }
  }

  /** removeRecursive. */
  method RemoveKeys(ghost dicts: set<Dict>, current: Dict, keys: seq<string>, via: Lookups) returns (removed: bool)
    requires Closed(Snap(dicts)) && current in dicts
    modifies dicts
    ensures var r := JsonRemoval.Removed(old(Snap(dicts)), current, keys, via);
            removed == r.removed && Snap(dicts) == r.heap
    decreases |keys|
  {
    ghost var h := Snap(dicts);
    if keys == [] {
      return false;
    }
    var name := LookupKey(current, keys[0], via, false);
    if name.None? {
      return false;
    }
    if |keys| == 1 {
      current.fields := current.fields - {name.value};
      return true;
    }
    var value := current.fields[name.value];
    if !value.Object? {
      return false;
    }
    assert Held(h, h[current][name.value]);
    removed := RemoveKeys(dicts, value.dict, keys[1..], via);
    if removed && value.dict.fields == map[] {
      RemovalShrinks(h, value.dict, keys[1..], via);
      DropKey(dicts, current, keys[0], via);
    }
  }

  /** Removes the key that stands for `key`. */
  method DropKey(ghost dicts: set<Dict>, current: Dict, key: string, via: Lookups)
    requires current in dicts
    modifies current
    ensures var h := old(Snap(dicts));
            Snap(dicts) == match via.Find(h[current], current, key, true) case None => h case Some(k) => h[current := h[current] - {k}]
  {
    var name := LookupKey(current, key, via, true);
    if name.Some? {
      current.fields := current.fields - {name.value};
    }
  }

  /** RemovePath. */
  method RemovePath(ghost dicts: set<Dict>, input: Dict, path: string, via: Lookups) returns (r: Option<bool>)
    requires Closed(Snap(dicts)) && input in dicts
    modifies dicts
    ensures match Parsed(path)
            case Err(_) => r == None && Snap(dicts) == old(Snap(dicts))
            case Ok(keys) =>
              var removal := JsonRemoval.Removed(old(Snap(dicts)), input, keys, via);
              r == Some(removal.removed) && Snap(dicts) == removal.heap
  {
    var parse := ParsePath(path);
    if parse.Err? {
      return None;
    }
    var removed := RemoveKeys(dicts, input, parse.segments, via);
    r := Some(removed);
  }

  /** Getting the path just added gives the value. */
  lemma GetAfterAdd(h: Heap, h': Heap, root: Dict, keys: seq<string>, value: Any, news: seq<Dict>, via: Lookups)
    requires root in h && Tree(h, root) && keys != [] && WILD !in keys && Added(h, h', root, keys, value, news)
    ensures Get(h', Object(root), keys, 0, 0, via) == Value(value)
  {
    AddedIsFollowed(h, h', root, keys, value, news);
    assert keys[0..] == keys;
    GetFollows(h', root, keys, 0, via);
  }
}
