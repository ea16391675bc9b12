/** What looking up a path with wildcards gives, in the source's way and directly. */
module JsonLookup {
  import opened JsonPathSyntax
  import opened JsonHeap

  /** NullParent and NullValue are the two places where a null is met while segments remain. Panicked is
      the out-of-range index that the second one can end in. */
  datatype Fault =
    | BadPath(error: PathError)
    | CannotTraverse(segment: nat)
    | CannotTraverseItem(segment: nat, index: nat)
    | NullParent(segment: nat, key: string)
    | NullValue(segment: nat, key: string)
    | KeyNotFound(segment: nat, key: string)
    | Panicked

  datatype Reply = Value(value: Any) | Failed(fault: Fault)

  /** getValue's loop from segment i on: `segments` are those of the path passed to this call, of which
      outer calls have processed `offset` before. */
  ghost function Get(h: Heap, current: Any, segments: seq<string>, i: nat, offset: nat, via: Lookups): Reply
    requires i <= |segments|
    decreases |segments| - i, 0
  {
    if i == |segments| then Value(current)
    else if segments[i] == WILD then
      match current
      case Array(items) =>
        if i + 1 == |segments| then Value(current)
        else GetItems(h, items, 0, segments[i + 1..], offset + i, [], via)
      case _ => Failed(CannotTraverse(offset + i))
    else
      match current
      case Object(d) =>
        if d !in h then Failed(CannotTraverse(offset + i)) else
        (match via.Find(h[d], d, segments[i], false)
         case None => Failed(KeyNotFound(offset + i, segments[i]))
         case Some(k) =>
           if h[d][k].Null? && i + 1 < |segments| then
             if offset + i + 1 < |segments| then Failed(NullValue(offset + i + 1, segments[offset + i + 1])) else Failed(Panicked)
           else Get(h, h[d][k], segments, i + 1, offset, via))
      case Null => Failed(NullParent(offset + i, segments[i]))
      case _ => Failed(CannotTraverse(offset + i))
  }

  /** The wildcard at segment g: the remaining segments looked up in every item. */
  ghost function GetItems(h: Heap, items: seq<Any>, n: nat, rest: seq<string>, g: nat, found: seq<Any>, via: Lookups): Reply
    requires n <= |items|
    decreases |rest|, 1 + |items| - n
  {
    if n == |items| then Value(Array(found))
    else if !items[n].Object? then Failed(CannotTraverseItem(g, n))
    else
      match Get(h, items[n], rest, 0, g + 1, via)
      case Failed(e) => Failed(e)
      case Value(v) => GetItems(h, items, n + 1, rest, g, found + [v], via)
  }

  /** getValue on a printed path. */
  ghost function GetPath(h: Heap, d: Dict, path: string, offset: nat, via: Lookups): Reply {
    match Parsed(path)
    case Err(e) => Failed(BadPath(e))
    case Ok(segments) => Get(h, Object(d), segments, 0, offset, via)
  }

  /** The same lookup by plain recursion on the whole path: no printing, no parsing, absolute positions. */
  ghost function Direct(h: Heap, current: Any, path: seq<string>, p: nat, via: Lookups): Reply
    requires p <= |path|
    decreases |path| - p, 0
  {
    if p == |path| then Value(current)
    else if path[p] == WILD then
      match current
      case Array(items) =>
        if p + 1 == |path| then Value(current) else DirectItems(h, items, 0, path, p, [], via)
      case _ => Failed(CannotTraverse(p))
    else
      match current
      case Object(d) =>
        if d !in h then Failed(CannotTraverse(p)) else
        (match via.Find(h[d], d, path[p], false)
         case None => Failed(KeyNotFound(p, path[p]))
         case Some(k) =>
           if h[d][k].Null? && p + 1 < |path| then Failed(NullValue(p + 1, path[p + 1]))
           else Direct(h, h[d][k], path, p + 1, via))
      case Null => Failed(NullParent(p, path[p]))
      case _ => Failed(CannotTraverse(p))
  }

  ghost function DirectItems(h: Heap, items: seq<Any>, n: nat, path: seq<string>, p: nat, found: seq<Any>, via: Lookups): Reply
    requires n <= |items| && p < |path|
    decreases |path| - p - 1, 1 + |items| - n
  {
    if n == |items| then Value(Array(found))
    else if !items[n].Object? then Failed(CannotTraverseItem(p, n))
    else
      match Direct(h, items[n], path, p + 1, via)
      case Failed(e) => Failed(e)
      case Value(v) => DirectItems(h, items, n + 1, path, p, found + [v], via)
  }

  /** Where the part of the path begins that the innermost call for position p has got. */
  function Base(path: seq<string>, p: nat): (b: nat)
    requires p <= |path|
    ensures b <= p
  {
    if p == 0 then 0 else if path[p - 1] == WILD then p else Base(path, p - 1)
  }

  /** A null in mid-path is reported with the key at the absolute position of the inner call's own part of
      the path: the right key before any wildcard, another one or none at all after it. */
  ghost function Misread(path: seq<string>, r: Reply): Reply {
    if r.Failed? && r.fault.NullValue? && r.fault.segment <= |path| then
      var p := r.fault.segment;
      if Base(path, p) + p < |path| then Failed(NullValue(p, path[Base(path, p) + p])) else Failed(Panicked)
    else r
  }

  /** getValue's printing and parsing after each wildcard changes nothing but the report of a null in
      mid-path; that is wrong exactly by the length of the part of the path up to the last wildcard. */
  lemma {:induction false} GetIsDirect(h: Heap, current: Any, path: seq<string>, i: nat, offset: nat, via: Lookups)
    requires offset + i <= |path| && Base(path, offset + i) == offset
    ensures Get(h, current, path[offset..], i, offset, via) == Misread(path, Direct(h, current, path, offset + i, via))
    decreases |path| - offset - i, 0
  {
    var p := offset + i;
    if p < |path| {
      assert path[offset..][i] == path[p];
      if path[p] == WILD {
        if current.Array? && p + 1 < |path| {
          assert path[offset..][i + 1..] == path[p + 1..];
          ItemsAreDirect(h, current.items, 0, path, p, [], via);
        }
      } else if current.Object? && current.dict in h && via.Find(h[current.dict], current.dict, path[p], false).Some? {
        var v := h[current.dict][via.Find(h[current.dict], current.dict, path[p], false).value];
        GetIsDirect(h, v, path, i + 1, offset, via);
      }
    }
  }

  lemma {:induction false} ItemsAreDirect(h: Heap, items: seq<Any>, n: nat, path: seq<string>, p: nat, found: seq<Any>, via: Lookups)
    requires n <= |items| && p < |path| && path[p] == WILD
    ensures GetItems(h, items, n, path[p + 1..], p, found, via) == Misread(path, DirectItems(h, items, n, path, p, found, via))
    decreases |path| - p - 1, 1 + |items| - n
  {
    if n < |items| && items[n].Object? {
      GetIsDirect(h, items[n], path, 0, p + 1, via);
      var r := Direct(h, items[n], path, p + 1, via);
      if r.Value? {
        ItemsAreDirect(h, items, n + 1, path, p, found + [r.value], via);
      }
    }
  }

  /** GetValue is the direct lookup, but for the report of a null in mid-path. */
  lemma WholeGetIsDirect(h: Heap, d: Dict, path: seq<string>, via: Lookups)
    ensures Get(h, Object(d), path, 0, 0, via) == Misread(path, Direct(h, Object(d), path, 0, via))
  {
    assert path[0..] == path;
    GetIsDirect(h, Object(d), path, 0, 0, via);
  }

  // ---- which paths are reported rightly --------------------------------------------------------

  /** The first n segments can all be passed: a wildcard needs an array, so it is neither the first segment
      nor right behind another wildcard. */
  predicate Passable(path: seq<string>, n: nat)
    requires n <= |path|
  {
    n == 0 || (Passable(path, n - 1) && (path[n - 1] == WILD ==> n > 1 && path[n - 2] != WILD))
  }

  /** Some document has a null where segment p is looked up in vain: under the key before it. */
  predicate NullCanStopAt(path: seq<string>, p: nat) {
    0 < p < |path| && path[p - 1] != WILD && Passable(path, p)
  }

  /** The key that is named for segment p is that of segment p. */
  predicate NamedRightly(path: seq<string>, p: nat)
    requires p < |path|
  {
    var q := Base(path, p) + p;
    q < |path| && path[q] == path[p]
  }

  /** Nothing can go wrong with the path, whatever the document. */
  ghost predicate Honest(path: seq<string>) {
    forall p {:trigger NullCanStopAt(path, p)} :: NullCanStopAt(path, p) ==> NamedRightly(path, p)
  }

  ghost predicate PanicFree(path: seq<string>) {
    forall p {:trigger NullCanStopAt(path, p)} :: NullCanStopAt(path, p) ==> Base(path, p) + p < |path|
  }

  /** A null is reported only where one can stop the lookup, and by the direct lookup with the right key. */
  lemma {:induction false} NullStops(h: Heap, current: Any, path: seq<string>, p: nat, via: Lookups)
    requires p <= |path| && Passable(path, p) && (p == 0 || path[p - 1] == WILD ==> current.Object?)
    ensures var r := Direct(h, current, path, p, via);
            r.Failed? && r.fault.NullValue? ==> NullCanStopAt(path, r.fault.segment) && r.fault.key == path[r.fault.segment]
    decreases |path| - p, 0
  {
    if p < |path| {
      if path[p] == WILD {
        if current.Array? && p + 1 < |path| {
          NullStopsItems(h, current.items, 0, path, p, [], via);
        }
      } else if current.Object? && current.dict in h && via.Find(h[current.dict], current.dict, path[p], false).Some? {
        NullStops(h, h[current.dict][via.Find(h[current.dict], current.dict, path[p], false).value], path, p + 1, via);
      }
    }
  }

  lemma {:induction false} NullStopsItems(h: Heap, items: seq<Any>, n: nat, path: seq<string>, p: nat, found: seq<Any>, via: Lookups)
    requires n <= |items| && p < |path| && path[p] == WILD && Passable(path, p + 1)
    ensures var r := DirectItems(h, items, n, path, p, found, via);
            r.Failed? && r.fault.NullValue? ==> NullCanStopAt(path, r.fault.segment) && r.fault.key == path[r.fault.segment]
    decreases |path| - p - 1, 1 + |items| - n
  {
    if n < |items| && items[n].Object? {
      NullStops(h, items[n], path, p + 1, via);
      var r := Direct(h, items[n], path, p + 1, via);
      if r.Value? {
        NullStopsItems(h, items, n + 1, path, p, found + [r.value], via);
      }
    }
  }

  /** GetValue is right about a document exactly when, if a null stops the lookup, the position it takes the
      key from has that key. */
  lemma RightExactly(h: Heap, d: Dict, path: seq<string>, via: Lookups)
    ensures Get(h, Object(d), path, 0, 0, via) == Direct(h, Object(d), path, 0, via) <==>
            var r := Direct(h, Object(d), path, 0, via);
            r.Failed? && r.fault.NullValue? ==> r.fault.segment < |path| && NamedRightly(path, r.fault.segment)
  {
    WholeGetIsDirect(h, d, path, via);
    NullStops(h, Object(d), path, 0, via);
  }

  /** An honest path is looked up rightly in every document. */
  lemma HonestIsRight(h: Heap, d: Dict, path: seq<string>, via: Lookups)
    requires Honest(path)
    ensures Get(h, Object(d), path, 0, 0, via) == Direct(h, Object(d), path, 0, via)
  {
    RightExactly(h, d, path, via);
    NullStops(h, Object(d), path, 0, via);
  }

  /** Without wildcards every path is honest. */
  lemma WithoutWildcards(path: seq<string>)
    requires WILD !in path
    ensures Honest(path)
  {
    forall p | NullCanStopAt(path, p) ensures NamedRightly(path, p) {
      NoWildNoBase(path, p);
    }
  }

  lemma {:induction false} NoWildNoBase(path: seq<string>, p: nat)
    requires p <= |path| && WILD !in path
    ensures Base(path, p) == 0
  {
    if p > 0 {
      NoWildNoBase(path, p - 1);
    }
  }

  /** A document in which the lookup comes to segment p and finds null: dicts[i] is the map looked up for
      segment i, and the value for the segment i. */
  function Towards(path: seq<string>, p: nat, dicts: seq<Dict>, i: nat): Any
    requires i <= p <= |path| && p < |dicts|
  {
    if i == p then Null else if path[i] == WILD then Array([Object(dicts[i + 1])]) else Object(dicts[i])
  }

  function Document(path: seq<string>, p: nat, dicts: seq<Dict>, i: nat): Heap
    requires i <= p <= |path| && p < |dicts|
    decreases p - i
  {
    if i == p then map[]
    else Document(path, p, dicts, i + 1)[dicts[i] := map[path[i] := Towards(path, p, dicts, i + 1)]]
  }

  lemma {:induction false} DocumentAt(path: seq<string>, p: nat, dicts: seq<Dict>, i: nat, j: nat)
    requires i <= j < p <= |path| && p < |dicts| && forall k, l :: 0 <= k < l < |dicts| ==> dicts[k] != dicts[l]
    ensures dicts[j] in Document(path, p, dicts, i)
    ensures Document(path, p, dicts, i)[dicts[j]] == map[path[j] := Towards(path, p, dicts, j + 1)]
    decreases p - i
  {
    if i < j {
      DocumentAt(path, p, dicts, i + 1, j);
    }
  }

  lemma {:induction false} PassableBefore(path: seq<string>, n: nat, i: nat)
    requires i < n <= |path| && Passable(path, n) && path[i] == WILD
    ensures i > 0 && path[i - 1] != WILD && (i + 1 < n ==> path[i + 1] != WILD)
    decreases n
  {
    if i < n - 1 {
      PassableBefore(path, n - 1, i);
      if i + 1 == n - 1 && path[i + 1] == WILD {
        assert false;
      }
    }
  }

  lemma {:induction false} TowardsNull(path: seq<string>, p: nat, dicts: seq<Dict>, i: nat, via: Lookups)
    requires NullCanStopAt(path, p) && i < p < |dicts| && forall k, l :: 0 <= k < l < |dicts| ==> dicts[k] != dicts[l]
    ensures Direct(Document(path, p, dicts, 0), Towards(path, p, dicts, i), path, i, via) == Failed(NullValue(p, path[p]))
    decreases p - i
  {
    var h := Document(path, p, dicts, 0);
    if path[i] == WILD {
      PassableBefore(path, p, i);
      TowardsNull(path, p, dicts, i + 1, via);
      assert DirectItems(h, [Object(dicts[i + 1])], 0, path, i, [], via) == Failed(NullValue(p, path[p]));
    } else {
      DocumentAt(path, p, dicts, 0, i);
      if i + 1 < p {
        TowardsNull(path, p, dicts, i + 1, via);
      }
    }
  }

  /** Wherever a null can stop the lookup, some document has it do so, and then GetValue names the key at the
      wrong position or panics. dicts are enough different maps to build the document from. */
  lemma SomeDocumentStops(path: seq<string>, p: nat, dicts: seq<Dict>, via: Lookups) returns (h: Heap)
    requires NullCanStopAt(path, p) && p < |dicts| && forall k, l :: 0 <= k < l < |dicts| ==> dicts[k] != dicts[l]
    ensures Direct(h, Object(dicts[0]), path, 0, via) == Failed(NullValue(p, path[p]))
    ensures Get(h, Object(dicts[0]), path, 0, 0, via) ==
            var q := Base(path, p) + p;
            if q < |path| then Failed(NullValue(p, path[q])) else Failed(Panicked)
  {
    h := Document(path, p, dicts, 0);
    if path[0] == WILD {
      PassableBefore(path, p, 0);
    }
    TowardsNull(path, p, dicts, 0, via);
    WholeGetIsDirect(h, dicts[0], path, via);
  }

  /** The other half: for a path that is not honest there is a document that GetValue is wrong about, and for
      one that is not free of panics there is one on which it panics. */
  lemma DishonestIsWrong(path: seq<string>, dicts: seq<Dict>, via: Lookups) returns (h: Heap)
    requires !Honest(path) && |path| <= |dicts| && forall k, l :: 0 <= k < l < |dicts| ==> dicts[k] != dicts[l]
    ensures Get(h, Object(dicts[0]), path, 0, 0, via) != Direct(h, Object(dicts[0]), path, 0, via)
    ensures !PanicFree(path) ==> Get(h, Object(dicts[0]), path, 0, 0, via) == Failed(Panicked)
  {
    if !PanicFree(path) {
      var p :| NullCanStopAt(path, p) && Base(path, p) + p >= |path|;
      h := SomeDocumentStops(path, p, dicts, via);
    } else {
      var p :| NullCanStopAt(path, p) && !NamedRightly(path, p);
      h := SomeDocumentStops(path, p, dicts, via);
    }
  }

  /** A path without wildcards that is there is found, whatever keys differ only by case. */
  lemma {:induction false} GetFollows(h: Heap, d: Dict, path: seq<string>, i: nat, via: Lookups)
    requires i < |path| && WILD !in path && Follow(h, d, path[i..]).Some?
    ensures Get(h, Object(d), path, i, 0, via) == Value(Follow(h, d, path[i..]).value)
    decreases |path| - i
  {
    assert path[i..][0] == path[i] && path[i..][1..] == path[i + 1..];
    if i + 1 < |path| {
      GetFollows(h, h[d][path[i]].dict, path, i + 1, via);
    }
  }

  lemma {:induction false} DirectNeverPanics(h: Heap, current: Any, path: seq<string>, p: nat, via: Lookups)
    requires p <= |path|
    ensures Direct(h, current, path, p, via) != Failed(Panicked)
    decreases |path| - p, 0
  {
    if p < |path| {
      if path[p] == WILD {
        if current.Array? && p + 1 < |path| {
          ItemsNeverPanic(h, current.items, 0, path, p, [], via);
        }
      } else if current.Object? && current.dict in h && via.Find(h[current.dict], current.dict, path[p], false).Some? {
        DirectNeverPanics(h, h[current.dict][via.Find(h[current.dict], current.dict, path[p], false).value], path, p + 1, via);
      }
    }
  }

  lemma {:induction false} ItemsNeverPanic(h: Heap, items: seq<Any>, n: nat, path: seq<string>, p: nat, found: seq<Any>, via: Lookups)
    requires n <= |items| && p < |path|
    ensures DirectItems(h, items, n, path, p, found, via) != Failed(Panicked)
    decreases |path| - p - 1, 1 + |items| - n
  {
    if n < |items| && items[n].Object? {
      DirectNeverPanics(h, items[n], path, p + 1, via);
      var r := Direct(h, items[n], path, p + 1, via);
      if r.Value? {
        ItemsNeverPanic(h, items, n + 1, path, p, found + [r.value], via);
      }
    }
  }

  /** GetValue panics exactly when it meets a null in mid-path so far behind a wildcard that the position
      of the next segment lies beyond the inner call's part of the path. */
  lemma PanicsExactly(h: Heap, d: Dict, path: seq<string>, via: Lookups)
    ensures Get(h, Object(d), path, 0, 0, via) == Failed(Panicked) <==>
            var r := Direct(h, Object(d), path, 0, via);
            r.Failed? && r.fault.NullValue? && r.fault.segment <= |path|
            && Base(path, r.fault.segment) + r.fault.segment >= |path|
  {
    WholeGetIsDirect(h, d, path, via);
    DirectNeverPanics(h, Object(d), path, 0, via);
  }

  /** A path free of panics panics on no document. */
  lemma PanicFreeNeverPanics(h: Heap, d: Dict, path: seq<string>, via: Lookups)
    requires PanicFree(path)
    ensures Get(h, Object(d), path, 0, 0, via) != Failed(Panicked)
  {
    PanicsExactly(h, d, path, via);
    NullStops(h, Object(d), path, 0, via);
  }

  /** For instance $['items'][*]['a']['b'] on {"items": [{"a": null}]}. */
  lemma NullBehindWildcard(d: Dict, e: Dict, via: Lookups)
    requires d != e
    ensures Get(map[d := map["items" := Array([Object(e)])], e := map["a" := Null]], Object(d), ["items", WILD, "a", "b"], 0, 0, via)
         == Failed(Panicked)
  {
    var h: Heap := map[d := map["items" := Array([Object(e)])], e := map["a" := Null]];
    var path := ["items", WILD, "a", "b"];
    assert path[1 + 1..] == ["a", "b"];
    assert h[e]["a"] == Null && "a" != WILD && "items" != WILD by {
      assert |"items"| != |WILD| && "a"[0] != WILD[0];
    }
    assert Get(h, Object(e), ["a", "b"], 0, 2, via) == Failed(Panicked);
    assert GetItems(h, [Object(e)], 0, ["a", "b"], 1, [], via) == Failed(Panicked);
    assert Get(h, Array([Object(e)]), path, 1, 0, via) == Failed(Panicked);
  }

  /** $['items'][*]['a']['b']['c']['d'] on the same document: segment 3 is reported as 'd', but it is 'b'. */
  lemma WrongKeyNamed(d: Dict, e: Dict, via: Lookups)
    requires d != e
    ensures var h: Heap := map[d := map["items" := Array([Object(e)])], e := map["a" := Null]];
            var path := ["items", WILD, "a", "b", "c", "d"];
            && Direct(h, Object(d), path, 0, via) == Failed(NullValue(3, "b"))
            && Get(h, Object(d), path, 0, 0, via) == Failed(NullValue(3, "d"))
  {
    var h: Heap := map[d := map["items" := Array([Object(e)])], e := map["a" := Null]];
    var path := ["items", WILD, "a", "b", "c", "d"];
    assert |"items"| != |WILD| && "a"[0] != WILD[0];
    assert Direct(h, Object(e), path, 2, via) == Failed(NullValue(3, "b"));
    assert DirectItems(h, [Object(e)], 0, path, 1, [], via) == Failed(NullValue(3, "b"));
    assert Direct(h, Array([Object(e)]), path, 1, via) == Failed(NullValue(3, "b"));
    assert Base(path, 2) == 2 && Base(path, 3) == 2 by {
      assert "a" != WILD;
    }
    WholeGetIsDirect(h, d, path, via);
  }
}
