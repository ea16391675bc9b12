/** Following a chain of aliases with as few queries as needed. */
module CnameChain {
  import opened Options
  import opened DnsRecords
  import opened CnameWalk

  datatype Reply =
    | Ok(records: seq<Record>, trunc: Truncation)
    | QueryFailed(trunc: Truncation)
    | LoopFound(trunc: Truncation, name: string, next: string)
    | HopFailed(trunc: Truncation, name: string)
    | TooLong(trunc: Truncation)

  method HasRecordOfType(records: seq<Record>, canon: string -> string, target: string, qtype: nat) returns (found: bool)
    ensures found <==> HasType(records, canon, target, qtype)
  {
    for i := 0 to |records|
      invariant forall k :: 0 <= k < i ==> !(records[k].rtype == qtype && canon(records[k].name) == target)
    {
      if records[i].rtype == qtype && canon(records[i].name) == target {
        return true;
      }
    }
    return false;
  }

  method HasRecordsFor(records: seq<Record>, canon: string -> string, target: string) returns (found: bool)
    ensures found <==> HasAny(records, canon, target)
  {
    for i := 0 to |records|
      invariant forall k :: 0 <= k < i ==> canon(records[k].name) != target
    {
      if canon(records[i].name) == target {
        return true;
      }
    }
    return false;
  }

  predicate IsAlias(r: Record, canon: string -> string, n: string) {
    r.rtype == TYPE_CNAME && canon(r.name) == n
  }

  method CnameTarget(records: seq<Record>, canon: string -> string, target: string) returns (next: Option<string>)
    ensures next == Alias(records, canon, target)
    ensures next.None? ==> forall k :: 0 <= k < |records| ==> !IsAlias(records[k], canon, target)
    ensures next.Some? ==>
              exists i :: 0 <= i < |records| && IsAlias(records[i], canon, target) && next.value == canon(records[i].value)
                && forall k :: 0 <= k < i ==> !IsAlias(records[k], canon, target)
  {
    for i := 0 to |records|
      invariant Alias(records[i..], canon, target) == Alias(records, canon, target)
      invariant forall k :: 0 <= k < i ==> !IsAlias(records[k], canon, target)
    {
      if records[i].rtype == TYPE_CNAME && canon(records[i].name) == target {
        return Some(canon(records[i].value));
      }
      assert records[i..][1..] == records[i + 1..];
    }
    return None;
  }

  /** followChain's loop after i links. */
  function Chase(canon: string -> string, ask: string -> Answer, qtype: nat, i: nat,
                 target: string, visited: set<string>, all: seq<Record>, trunc: Truncation): (r: Reply)
    ensures r.Ok? ==> all <= r.records
    ensures r.HopFailed? ==> ask(r.name) == Failure(r.trunc)
    decreases MAX_DEPTH - i
  {
    if i >= MAX_DEPTH then TooLong(trunc)
    else if HasType(all, canon, target, qtype) then Ok(all, trunc)
    else
      match Alias(all, canon, target)
      case None => Ok(all, trunc)
      case Some(next) =>
        if next in visited then LoopFound(trunc, target, next)
        else if HasAny(all, canon, next) then
          Chase(canon, ask, qtype, i + 1, next, visited + {next}, all, trunc)
        else
          match ask(next)
          case Failure(hopTrunc) => HopFailed(hopTrunc, next)
          case Records(more, hopTrunc) => Chase(canon, ask, qtype, i + 1, next, visited + {next}, all + more, hopTrunc)
  }

  /** The names that the loop has queried in the end, `asked` being those of the first i links: every name
      that no record at hand is about when the walk comes to it. */
  function Asked(canon: string -> string, ask: string -> Answer, qtype: nat, i: nat,
                 target: string, visited: set<string>, all: seq<Record>, asked: seq<string>): (names: seq<string>)
    decreases MAX_DEPTH - i
  {
    if i >= MAX_DEPTH || HasType(all, canon, target, qtype) then asked
    else
      match Alias(all, canon, target)
      case None => asked
      case Some(next) =>
        if next in visited then asked
        else if HasAny(all, canon, next) then Asked(canon, ask, qtype, i + 1, next, visited + {next}, all, asked)
        else if ask(next).Failure? then asked + [next]
        else Asked(canon, ask, qtype, i + 1, next, visited + {next}, all + ask(next).records, asked + [next])
  }

  /** A name once queried stays on the list, and each link adds one name at most. */
  lemma {:induction false} AskedExtends(canon: string -> string, ask: string -> Answer, qtype: nat, i: nat,
                                        target: string, visited: set<string>, all: seq<Record>, asked: seq<string>)
    ensures var names := Asked(canon, ask, qtype, i, target, visited, all, asked);
            asked <= names && (i <= MAX_DEPTH ==> |names| <= |asked| + MAX_DEPTH - i)
    decreases MAX_DEPTH - i
  {
    if i < MAX_DEPTH && !HasType(all, canon, target, qtype) && Alias(all, canon, target).Some? {
      var next := Alias(all, canon, target).value;
      if next !in visited {
        if HasAny(all, canon, next) {
          AskedExtends(canon, ask, qtype, i + 1, next, visited + {next}, all, asked);
        } else if ask(next).Records? {
          AskedExtends(canon, ask, qtype, i + 1, next, visited + {next}, all + ask(next).records, asked + [next]);
        }
      }
    }
  }

  ghost predicate Agree(ask: string -> Answer, other: string -> Answer, names: seq<string>) {
    forall k {:trigger names[k]} :: 0 <= k < |names| ==> other(names[k]) == ask(names[k])
  }

  /** The reply depends on the queries made and on nothing else: another resolver that answers those alike
      is asked the same and leads to the same reply. */
  lemma {:induction false} OnlyAskedMatters(canon: string -> string, ask: string -> Answer, other: string -> Answer, qtype: nat, i: nat,
                                            target: string, visited: set<string>, all: seq<Record>, trunc: Truncation, asked: seq<string>)
    requires Agree(ask, other, Asked(canon, ask, qtype, i, target, visited, all, asked))
    ensures Asked(canon, other, qtype, i, target, visited, all, asked) == Asked(canon, ask, qtype, i, target, visited, all, asked)
    ensures Chase(canon, other, qtype, i, target, visited, all, trunc) == Chase(canon, ask, qtype, i, target, visited, all, trunc)
    decreases MAX_DEPTH - i
  {
    if i < MAX_DEPTH && !HasType(all, canon, target, qtype) && Alias(all, canon, target).Some? {
      var next := Alias(all, canon, target).value;
      if next !in visited {
        if HasAny(all, canon, next) {
          OnlyAskedMatters(canon, ask, other, qtype, i + 1, next, visited + {next}, all, trunc, asked);
        } else {
          assert (asked + [next])[|asked|] == next;
          if ask(next).Failure? {
            assert other(next) == ask(next);
          } else {
            AskedExtends(canon, ask, qtype, i + 1, next, visited + {next}, all + ask(next).records, asked + [next]);
            assert Asked(canon, ask, qtype, i, target, visited, all, asked)[|asked|] == next;
            OnlyAskedMatters(canon, ask, other, qtype, i + 1, next, visited + {next}, all + ask(next).records, ask(next).trunc, asked + [next]);
          }
        }
      }
    }
  }

  ghost predicate NoneTwice(names: seq<string>) {
    forall j, k :: 0 <= j < k < |names| ==> names[j] != names[k]
  }

  /** No name is queried twice, nor one that the walk has passed. */
  lemma {:induction false} AskedOnce(canon: string -> string, ask: string -> Answer, qtype: nat, i: nat,
                                     target: string, visited: set<string>, all: seq<Record>, asked: seq<string>)
    requires NoneTwice(asked) && forall n :: n in asked ==> n in visited
    ensures NoneTwice(Asked(canon, ask, qtype, i, target, visited, all, asked))
    ensures forall n :: n in Asked(canon, ask, qtype, i, target, visited, all, asked) && n in visited ==> n in asked
    decreases MAX_DEPTH - i
  {
    if i < MAX_DEPTH && !HasType(all, canon, target, qtype) && Alias(all, canon, target).Some? {
      var next := Alias(all, canon, target).value;
      if next !in visited {
        if HasAny(all, canon, next) {
          AskedOnce(canon, ask, qtype, i + 1, next, visited + {next}, all, asked);
        } else if ask(next).Records? {
          AskedOnce(canon, ask, qtype, i + 1, next, visited + {next}, all + ask(next).records, asked + [next]);
        }
      }
    }
  }

  /** The records that the queries for these names are answered with, one after the other. */
  function Gather(ask: string -> Answer, names: seq<string>): seq<Record> {
    if names == [] then []
    else
      var before, a := Gather(ask, names[..|names| - 1]), ask(names[|names| - 1]);
      before + if a.Records? then a.records else []
  }

  lemma {:induction false} GatherFirst(ask: string -> Answer, first: string, names: seq<string>)
    requires ask(first).Records?
    ensures Gather(ask, [first] + names) == ask(first).records + Gather(ask, names)
  {
    if names == [] {
      assert [first] + names == [first];
    } else {
      var f := names[..|names| - 1];
      GatherFirst(ask, first, f);
      assert ([first] + names)[..|names|] == [first] + f;
    }
  }

  /** What a chain is followed with: the resolver, the type asked for, and the first answer. */
  datatype Query = Query(canon: string -> string, ask: string -> Answer, qtype: nat, records: seq<Record>, trunc: Truncation)

  /** Each name of a path leads to the next one, and no name comes twice. */
  ghost predicate Linked(canon: string -> string, known: seq<Record>, path: seq<string>) {
    && NoneTwice(path)
    && forall j {:trigger path[j]} :: 0 <= j < |path| - 1 ==> Alias(known, canon, path[j]) == Some(path[j + 1])
  }

  /** The queries made so far: each one for a name on the path about which nothing was at hand, and answered. */
  ghost predicate Answered(q: Query, path: seq<string>, asked: seq<string>) {
    forall k {:trigger asked[k]} :: 0 <= k < |asked| ==>
      asked[k] in path && q.ask(asked[k]).Records? && !HasAny(q.records + Gather(q.ask, asked[..k]), q.canon, asked[k])
  }

  ghost function LastTrunc(q: Query, asked: seq<string>): Truncation {
    if asked == [] then q.trunc else q.ask(asked[|asked| - 1]).trunc
  }

  /** How followChain stands after some links: the path so far, and what is at hand. */
  ghost predicate Underway(q: Query, path: seq<string>, visited: set<string>, all: seq<Record>, trunc: Truncation, asked: seq<string>) {
    && path != [] && visited == (set n | n in path)
    && all == q.records + Gather(q.ask, asked) && trunc == LastTrunc(q, asked)
    && Linked(q.canon, all, path) && Answered(q, path, asked)
  }

  /** How followChain ends, for any resolver, `asked` being its queries and `path` the names it has passed. */
  ghost predicate Ended(q: Query, h: string, r: Reply, asked: seq<string>, path: seq<string>) {
    var known := q.records + Gather(q.ask, asked);
    && path != [] && path[0] == h && Linked(q.canon, known, path)
    && var last := path[|path| - 1];
       match r
       case Ok(records, trunc) =>
         && Answered(q, path, asked) && trunc == LastTrunc(q, asked) && records == known && |path| <= MAX_DEPTH
         && (HasType(known, q.canon, last, q.qtype) || Alias(known, q.canon, last) == None)
       case LoopFound(trunc, name, next) =>
         && Answered(q, path, asked) && trunc == LastTrunc(q, asked) && |path| <= MAX_DEPTH
         && name == last && !HasType(known, q.canon, last, q.qtype) && Alias(known, q.canon, last) == Some(next) && next in path
       case TooLong(trunc) =>
         Answered(q, path, asked) && trunc == LastTrunc(q, asked) && |path| == MAX_DEPTH + 1
       case HopFailed(trunc, name) =>
         && last == name && !HasAny(known, q.canon, name)
         && asked != [] && asked[|asked| - 1] == name && q.ask(name) == Failure(trunc) && Answered(q, path, asked[..|asked| - 1])
       case QueryFailed(_) => false
  }

  lemma {:induction false} AliasKept(canon: string -> string, a: seq<Record>, b: seq<Record>, n: string)
    requires Alias(a, canon, n).Some?
    ensures Alias(a + b, canon, n) == Alias(a, canon, n)
  {
    assert (a + b)[1..] == a[1..] + b;
    if !(a[0].rtype == TYPE_CNAME && canon(a[0].name) == n) {
      AliasKept(canon, a[1..], b, n);
    }
  }

  lemma LinkedKept(canon: string -> string, a: seq<Record>, b: seq<Record>, path: seq<string>)
    requires Linked(canon, a, path)
    ensures Linked(canon, a + b, path)
  {
    forall j {:trigger path[j]} | 0 <= j < |path| - 1 ensures Alias(a + b, canon, path[j]) == Some(path[j + 1]) {
      AliasKept(canon, a, b, path[j]);
    }
  }

  lemma LinkedNext(canon: string -> string, known: seq<Record>, path: seq<string>, next: string)
    requires path != [] && Linked(canon, known, path) && Alias(known, canon, path[|path| - 1]) == Some(next) && next !in path
    ensures Linked(canon, known, path + [next])
  {
  }

  lemma AnsweredNext(q: Query, path: seq<string>, asked: seq<string>, next: string)
    requires Answered(q, path, asked)
    ensures Answered(q, path + [next], asked)
    ensures q.ask(next).Records? && !HasAny(q.records + Gather(q.ask, asked), q.canon, next) ==> Answered(q, path + [next], asked + [next])
  {
    if q.ask(next).Records? && !HasAny(q.records + Gather(q.ask, asked), q.canon, next) {
      var names := asked + [next];
      forall k {:trigger names[k]} | 0 <= k < |names|
        ensures names[k] in path + [next] && q.ask(names[k]).Records? && !HasAny(q.records + Gather(q.ask, names[..k]), q.canon, names[k]) {
        assert names[..k] == asked[..k];
        if k < |asked| {
          assert names[k] == asked[k];
        }
      }
    }
  }

  lemma GatherNext(ask: string -> Answer, asked: seq<string>, next: string)
    ensures Gather(ask, asked + [next]) == Gather(ask, asked) + if ask(next).Records? then ask(next).records else []
  {
    assert (asked + [next])[..|asked|] == asked;
  }

  /** One link on, with the records at hand. */
  lemma UnderwayHave(q: Query, path: seq<string>, visited: set<string>, all: seq<Record>, trunc: Truncation, asked: seq<string>, next: string)
    requires Underway(q, path, visited, all, trunc, asked) && Alias(all, q.canon, path[|path| - 1]) == Some(next) && next !in visited
    ensures Underway(q, path + [next], visited + {next}, all, trunc, asked)
  {
    LinkedNext(q.canon, all, path, next);
    AnsweredNext(q, path, asked, next);
  }

  /** One link on, with the answer to a query. */
  lemma UnderwayAsk(q: Query, path: seq<string>, visited: set<string>, all: seq<Record>, trunc: Truncation, asked: seq<string>, next: string)
    requires Underway(q, path, visited, all, trunc, asked) && Alias(all, q.canon, path[|path| - 1]) == Some(next) && next !in visited
    requires q.ask(next).Records? && !HasAny(all, q.canon, next)
    ensures Underway(q, path + [next], visited + {next}, all + q.ask(next).records, q.ask(next).trunc, asked + [next])
  {
    LinkedNext(q.canon, all, path, next);
    LinkedKept(q.canon, all, q.ask(next).records, path + [next]);
    AnsweredNext(q, path, asked, next);
    GatherNext(q.ask, asked, next);
    assert q.records + Gather(q.ask, asked + [next]) == q.records + Gather(q.ask, asked) + q.ask(next).records;
  }

  lemma FoundEnds(q: Query, path: seq<string>, visited: set<string>, all: seq<Record>, trunc: Truncation, asked: seq<string>)
    requires Underway(q, path, visited, all, trunc, asked) && |path| <= MAX_DEPTH
    requires HasType(all, q.canon, path[|path| - 1], q.qtype) || Alias(all, q.canon, path[|path| - 1]) == None
    ensures Ended(q, path[0], Ok(all, trunc), asked, path)
  {
  }

  lemma LoopEnds(q: Query, path: seq<string>, visited: set<string>, all: seq<Record>, trunc: Truncation, asked: seq<string>, next: string)
    requires Underway(q, path, visited, all, trunc, asked) && |path| <= MAX_DEPTH
    requires !HasType(all, q.canon, path[|path| - 1], q.qtype) && Alias(all, q.canon, path[|path| - 1]) == Some(next) && next in visited
    ensures Ended(q, path[0], LoopFound(trunc, path[|path| - 1], next), asked, path)
  {
  }

  lemma FailureEnds(q: Query, path: seq<string>, visited: set<string>, all: seq<Record>, trunc: Truncation, asked: seq<string>, next: string)
    requires Underway(q, path, visited, all, trunc, asked) && Alias(all, q.canon, path[|path| - 1]) == Some(next) && next !in visited
    requires !HasAny(all, q.canon, next) && q.ask(next).Failure?
    ensures Ended(q, path[0], HopFailed(q.ask(next).trunc, next), asked + [next], path + [next])
  {
    LinkedNext(q.canon, all, path, next);
    AnsweredNext(q, path, asked, next);
    var names := asked + [next];
    GatherNext(q.ask, asked, next);
    assert names[..|names| - 1] == asked && q.records + Gather(q.ask, names) == all;
  }

  /** For any resolver: followChain goes from alias to alias, asks only for names about which it has nothing,
      and ends with the first of an answer or dead end, a repeated name, a failed query, or the bound. */
  lemma {:induction false} ChaseEnds(q: Query, h: string, i: nat, visited: set<string>, all: seq<Record>, trunc: Truncation,
                                     asked: seq<string>, path: seq<string>)
    returns (whole: seq<string>)
    requires Underway(q, path, visited, all, trunc, asked) && |path| == i + 1 && i <= MAX_DEPTH && path[0] == h
    ensures Ended(q, h, Chase(q.canon, q.ask, q.qtype, i, path[i], visited, all, trunc),
                  Asked(q.canon, q.ask, q.qtype, i, path[i], visited, all, asked), whole)
    decreases MAX_DEPTH - i
  {
    var target := path[i];
    whole := path;
    if i == MAX_DEPTH {
      return;
    }
    if HasType(all, q.canon, target, q.qtype) || Alias(all, q.canon, target).None? {
      FoundEnds(q, path, visited, all, trunc, asked);
      return;
    }
    var next := Alias(all, q.canon, target).value;
    if next in visited {
      LoopEnds(q, path, visited, all, trunc, asked, next);
    } else if HasAny(all, q.canon, next) {
      UnderwayHave(q, path, visited, all, trunc, asked, next);
      whole := ChaseEnds(q, h, i + 1, visited + {next}, all, trunc, asked, path + [next]);
    } else if q.ask(next).Records? {
      UnderwayAsk(q, path, visited, all, trunc, asked, next);
      whole := ChaseEnds(q, h, i + 1, visited + {next}, all + q.ask(next).records, q.ask(next).trunc, asked + [next], path + [next]);
    } else {
      FailureEnds(q, path, visited, all, trunc, asked, next);
      whole := path + [next];
    }
  }

  /** In terms of the queries alone: a chain fails for a query exactly if one of them fails, which is then the
      last; a chain that succeeds returns the first records and the answers to its queries. */
  ghost predicate Reported(ask: string -> Answer, first: seq<Record>, trunc0: Truncation, asked: seq<string>, r: Reply) {
    && (r.HopFailed? <==> exists k :: 0 <= k < |asked| && ask(asked[k]).Failure?)
    && (r.HopFailed? ==> asked != [] && asked[|asked| - 1] == r.name && ask(r.name) == Failure(r.trunc))
    && (forall k :: 0 <= k < |asked| - 1 ==> ask(asked[k]).Records?)
    && (!r.HopFailed? ==> r.trunc == if asked == [] then trunc0 else ask(asked[|asked| - 1]).trunc)
    && (r.Ok? ==> r.records == first + Gather(ask, asked))
    && !r.QueryFailed?
  }

  lemma AnsweredAll(q: Query, path: seq<string>, asked: seq<string>)
    requires Answered(q, path, asked)
    ensures forall k :: 0 <= k < |asked| ==> q.ask(asked[k]).Records?
  {
  }

  lemma ReportedSuccess(ask: string -> Answer, first: seq<Record>, trunc0: Truncation, asked: seq<string>, r: Reply)
    requires !r.HopFailed? && !r.QueryFailed? && forall k :: 0 <= k < |asked| ==> ask(asked[k]).Records?
    requires r.trunc == if asked == [] then trunc0 else ask(asked[|asked| - 1]).trunc
    requires r.Ok? ==> r.records == first + Gather(ask, asked)
    ensures Reported(ask, first, trunc0, asked, r)
  {
  }

  lemma ReportedFailure(ask: string -> Answer, first: seq<Record>, trunc0: Truncation, before: seq<string>, r: Reply)
    requires r.HopFailed? && ask(r.name) == Failure(r.trunc) && forall k :: 0 <= k < |before| ==> ask(before[k]).Records?
    ensures Reported(ask, first, trunc0, before + [r.name], r)
  {
    assert ask((before + [r.name])[|before|]).Failure?;
  }

  lemma EndedReported(q: Query, h: string, r: Reply, asked: seq<string>, path: seq<string>)
    requires Ended(q, h, r, asked, path)
    ensures Reported(q.ask, q.records, q.trunc, asked, r)
  {
    if r.HopFailed? {
      var before := asked[..|asked| - 1];
      AnsweredAll(q, path, before);
      ReportedFailure(q.ask, q.records, q.trunc, before, r);
      assert asked == before + [r.name];
    } else {
      AnsweredAll(q, path, asked);
      ReportedSuccess(q.ask, q.records, q.trunc, asked, r);
    }
  }

  /** The same with the first query among the others. */
  lemma ReportedFirst(ask: string -> Answer, host: string, hops: seq<string>, r: Reply)
    requires ask(host).Records? && Reported(ask, ask(host).records, ask(host).trunc, hops, r)
    ensures Reported(ask, [], ask(host).trunc, [host] + hops, r)
  {
    var asked := [host] + hops;
    GatherFirst(ask, host, hops);
    assert forall k :: 0 <= k < |hops| ==> hops[k] == asked[k + 1];
    if k :| 0 <= k < |hops| && ask(hops[k]).Failure? {
      assert ask(asked[k + 1]).Failure?;
    }
    forall k | 0 < k < |asked| ensures asked[k] == hops[k - 1] {
    }
  }

  /** The body of followChain's loop: either the reply, or the state one link on. */
  method Link(canon: string -> string, ask: string -> Answer, qtype: nat, ghost i: nat,
              target: string, visited: set<string>, all: seq<Record>, trunc: Truncation, asked: seq<string>)
    returns (reply: Option<Reply>, next: string, all': seq<Record>, trunc': Truncation, asked': seq<string>)
    requires i < MAX_DEPTH
    ensures reply.Some? ==>
              && Chase(canon, ask, qtype, i, target, visited, all, trunc) == reply.value
              && Asked(canon, ask, qtype, i, target, visited, all, asked) == asked'
    ensures reply.None? ==>
              && Chase(canon, ask, qtype, i, target, visited, all, trunc) == Chase(canon, ask, qtype, i + 1, next, visited + {next}, all', trunc')
              && Asked(canon, ask, qtype, i, target, visited, all, asked) == Asked(canon, ask, qtype, i + 1, next, visited + {next}, all', asked')
  {
    next, all', trunc', asked' := target, all, trunc, asked;
    var found := HasRecordOfType(all, canon, target, qtype);
    if found {
      return Some(Ok(all, trunc)), next, all', trunc', asked';
    }
    var alias := CnameTarget(all, canon, target);
    if alias.None? {
      return Some(Ok(all, trunc)), next, all', trunc', asked';
    }
    next := alias.value;
    if next in visited {
      return Some(LoopFound(trunc, target, next)), next, all', trunc', asked';
    }
    var have := HasRecordsFor(all, canon, next);
    if have {
      return None, next, all', trunc', asked';
    }
    asked' := asked + [next];
    match ask(next)
    case Failure(hopTrunc) => return Some(HopFailed(hopTrunc, next)), next, all', trunc', asked';
    case Records(more, hopTrunc) => return None, next, all + more, hopTrunc, asked';
  }

  /** followChain. `asked` are the names it has queried. */
  method FollowChain(canon: string -> string, ask: string -> Answer, host: string, qtype: nat, records: seq<Record>, trunc0: Truncation)
    returns (r: Reply, asked: seq<string>, ghost path: seq<string>)
    ensures r == Chase(canon, ask, qtype, 0, canon(host), {canon(host)}, records, trunc0)
    ensures asked == Asked(canon, ask, qtype, 0, canon(host), {canon(host)}, records, []) && |asked| <= MAX_DEPTH
    ensures Ended(Query(canon, ask, qtype, records, trunc0), canon(host), r, asked, path)
    ensures Reported(ask, records, trunc0, asked, r)
  {
    r, asked := Walk(canon, ask, host, qtype, records, trunc0);
    ghost var q := Query(canon, ask, qtype, records, trunc0);
    path := ChaseEnds(q, canon(host), 0, {canon(host)}, records, trunc0, [], [canon(host)]);
    EndedReported(q, canon(host), r, asked, path);
  }

  /** Its loop. */
  method Walk(canon: string -> string, ask: string -> Answer, host: string, qtype: nat, records: seq<Record>, trunc0: Truncation)
    returns (r: Reply, asked: seq<string>)
    ensures r == Chase(canon, ask, qtype, 0, canon(host), {canon(host)}, records, trunc0)
    ensures asked == Asked(canon, ask, qtype, 0, canon(host), {canon(host)}, records, []) && |asked| <= MAX_DEPTH
  {
    var all, trunc, target := records, trunc0, canon(host);
    var visited := {target};
    asked := [];
    ghost var outcome := Chase(canon, ask, qtype, 0, canon(host), {canon(host)}, records, trunc0);
    ghost var names := Asked(canon, ask, qtype, 0, canon(host), {canon(host)}, records, []);
    AskedExtends(canon, ask, qtype, 0, canon(host), {canon(host)}, records, []);
    for i := 0 to MAX_DEPTH
      invariant outcome == Chase(canon, ask, qtype, i, target, visited, all, trunc)
      invariant names == Asked(canon, ask, qtype, i, target, visited, all, asked)
    {
      var reply;
      reply, target, all, trunc, asked := Link(canon, ask, qtype, i, target, visited, all, trunc, asked);
      if reply.Some? {
        return reply.value, asked;
      }
      visited := visited + {target};
    }
    return TooLong(trunc), asked;
  }

  /** The names up to the i-th link. */
  ghost function Names(z: Zone, h: string, i: nat): set<string> {
    if i == 0 then {h} else Names(z, h, i - 1) + if At(z, h, i).Some? then {At(z, h, i).value} else {}
  }

  /** No name has come again up to the i-th link. */
  ghost predicate AllNew(z: Zone, h: string, i: nat) {
    i == 0 || (AllNew(z, h, i - 1) && At(z, h, i).Some? && At(z, h, i).value !in Names(z, h, i - 1))
  }

  lemma {:induction false} NameAt(z: Zone, h: string, i: nat, n: string) returns (j: nat)
    requires n in Names(z, h, i)
    ensures j <= i && At(z, h, j) == Some(n)
  {
    if At(z, h, i) == Some(n) {
      j := i;
    } else {
      j := NameAt(z, h, i - 1, n);
    }
  }

  lemma {:induction false} NamesHave(z: Zone, h: string, i: nat, j: nat)
    requires j <= i && At(z, h, j).Some?
    ensures At(z, h, j).value in Names(z, h, i)
  {
    if j < i {
      NamesHave(z, h, i - 1, j);
    }
  }

  lemma {:induction false} AllDiffer(z: Zone, h: string, i: nat, j: nat, k: nat)
    requires AllNew(z, h, i) && j < k <= i
    ensures At(z, h, j) != At(z, h, k)
  {
    if k < i {
      AllDiffer(z, h, i - 1, j, k);
    } else if At(z, h, j).Some? {
      NamesHave(z, h, i - 1, j);
    }
  }

  /** After i links: target and the names visited are the walk's, none of them has come twice, and what has
      been collected is complete and has their records. */
  ghost predicate Walked(z: Zone, h: string, i: nat, target: string, visited: set<string>, known: set<Record>) {
    && At(z, h, i) == Some(target) && visited == Names(z, h, i) && AllNew(z, h, i)
    && Complete(z, known) && CoversAll(z, known, visited)
  }

  ghost predicate CoversAll(z: Zone, known: set<Record>, names: set<string>) {
    forall n {:trigger n in names} :: n in names ==> Covers(z, known, n)
  }

  /** What the reply must be when no query fails and the records are consistent. */
  ghost predicate Follows(z: Zone, h: string, r: Reply) {
    && (r.Ok? <==> Ends(z, h))
    && (r.LoopFound? <==> Loops(z, h))
    && (r.TooLong? <==> !Ends(z, h) && !Loops(z, h))
    && (r.Ok? ==> forall i, n {:trigger At(z, h, i), Covers(z, All(r.records), n)} ::
                    0 <= i < MAX_DEPTH && At(z, h, i) == Some(n) ==> Covers(z, All(r.records), n))
  }

  lemma EndReached(z: Zone, h: string, i: nat, target: string, visited: set<string>, all: seq<Record>, trunc: Truncation)
    requires i < MAX_DEPTH && Walked(z, h, i, target, visited, All(all)) && Next(z, target) == None
    ensures Follows(z, h, Ok(all, trunc))
  {
    assert EndsAt(z, h, i);
    forall a, b | 0 <= b <= a < MAX_DEPTH ensures !Repeats(z, h, a, b) {
      EndNoLoop(z, h, i, a, b);
    }
    forall k, n {:trigger At(z, h, k), Covers(z, All(all), n)} | 0 <= k < MAX_DEPTH && At(z, h, k) == Some(n) ensures Covers(z, All(all), n) {
      if k > i {
        AtEarlier(z, h, i, k);
      }
      NamesHave(z, h, i, k);
    }
  }

  lemma LoopReached(z: Zone, h: string, i: nat, target: string, visited: set<string>, all: seq<Record>, trunc: Truncation, next: string)
    requires i < MAX_DEPTH && Walked(z, h, i, target, visited, All(all)) && Next(z, target) == Some(next) && next in visited
    ensures Follows(z, h, LoopFound(trunc, target, next))
  {
    var j := NameAt(z, h, i, next);
    assert At(z, h, i + 1) == Some(next);
    assert Repeats(z, h, i, j);
    forall e | 0 <= e < MAX_DEPTH ensures !EndsAt(z, h, e) {
      if EndsAt(z, h, e) {
        EndNoLoop(z, h, e, i, j);
      }
    }
  }

  lemma DepthReached(z: Zone, h: string, target: string, visited: set<string>, all: seq<Record>, trunc: Truncation)
    requires Walked(z, h, MAX_DEPTH, target, visited, All(all))
    ensures Follows(z, h, TooLong(trunc))
  {
    forall e | 0 <= e < MAX_DEPTH ensures !EndsAt(z, h, e) {
      AtEarlier(z, h, e, MAX_DEPTH);
    }
    forall a, b | 0 <= b <= a < MAX_DEPTH ensures !Repeats(z, h, a, b) {
      AllDiffer(z, h, MAX_DEPTH, b, a + 1);
    }
  }

  lemma OneLinkOn(z: Zone, h: string, i: nat, target: string, visited: set<string>, known: set<Record>, next: string, known': set<Record>)
    requires Walked(z, h, i, target, visited, known) && Next(z, target) == Some(next) && next !in visited
    requires Complete(z, known') && Covers(z, known', next) && known <= known'
    ensures Walked(z, h, i + 1, next, visited + {next}, known')
  {
  }

  /** What is at hand once the next name is. */
  function Gathered(canon: string -> string, ask: string -> Answer, next: string, all: seq<Record>, trunc: Truncation): (seq<Record>, Truncation)
    requires ask(next).Records?
  {
    if HasAny(all, canon, next) then (all, trunc)
    else (all + ask(next).records, ask(next).trunc)
  }

  lemma ChaseLink(canon: string -> string, ask: string -> Answer, qtype: nat, i: nat, target: string, visited: set<string>,
                  all: seq<Record>, trunc: Truncation, next: string)
    requires i < MAX_DEPTH && !HasType(all, canon, target, qtype) && Alias(all, canon, target) == Some(next)
    requires next !in visited && ask(next).Records?
    ensures var (all', trunc') := Gathered(canon, ask, next, all, trunc);
            Chase(canon, ask, qtype, i, target, visited, all, trunc)
            == Chase(canon, ask, qtype, i + 1, next, visited + {next}, all', trunc')
  {
  }

  /** followChain follows the walk: with honest answers it succeeds exactly when the walk ends within the
      bound, having collected the records of every name on it; it reports a loop exactly when a name comes
      again within the bound; and else that the chain is too long. */
  lemma ChaseFollows(w: World, h: string, records: seq<Record>, trunc0: Truncation)
    requires Complete(w.zone, All(records)) && Covers(w.zone, All(records), h)
    ensures Follows(w.zone, h, Chase(w.zone.canon, w.ask, w.zone.qtype, 0, h, {h}, records, trunc0))
  {
    var target, visited, all, trunc := h, {h}, records, trunc0;
    for i := 0 to MAX_DEPTH
      invariant Walked(w.zone, h, i, target, visited, All(all))
      invariant Chase(w.zone.canon, w.ask, w.zone.qtype, i, target, visited, all, trunc)
             == Chase(w.zone.canon, w.ask, w.zone.qtype, 0, h, {h}, records, trunc0)
    {
      LookupIsNext(w, all, target);
      var next := Next(w.zone, target);
      if next.None? {
        EndReached(w.zone, h, i, target, visited, all, trunc);
        return;
      }
      if next.value in visited {
        LoopReached(w.zone, h, i, target, visited, all, trunc, next.value);
        return;
      }
      NextWalked(w, h, i, target, visited, all, trunc, next.value);
      ChaseLink(w.zone.canon, w.ask, w.zone.qtype, i, target, visited, all, trunc, next.value);
      var (all', trunc') := Gathered(w.zone.canon, w.ask, next.value, all, trunc);
      target, visited, all, trunc := next.value, visited + {next.value}, all', trunc';
    }
    DepthReached(w.zone, h, target, visited, all, trunc);
  }

  lemma LookupIsNext(w: World, all: seq<Record>, target: string)
    requires Complete(w.zone, All(all)) && Covers(w.zone, All(all), target)
    ensures if HasType(all, w.zone.canon, target, w.zone.qtype) then Next(w.zone, target) == None
            else Next(w.zone, target) == Alias(all, w.zone.canon, target)
  {
    LookupIsZone(w.zone, all, target);
  }

  lemma NextWalked(w: World, h: string, i: nat, target: string, visited: set<string>, all: seq<Record>, trunc: Truncation, next: string)
    requires Walked(w.zone, h, i, target, visited, All(all)) && Next(w.zone, target) == Some(next) && next !in visited
    ensures w.ask(next).Records?
    ensures Walked(w.zone, h, i + 1, next, visited + {next}, All(Gathered(w.zone.canon, w.ask, next, all, trunc).0))
  {
    var z, ask := w.zone, w.ask;
    NextIsCanonical(z, target, next);
    if r :| r in all && z.canon(r.name) == next {
      assert r in All(all);
    } else {
      AddAnswer(z, All(all), All(ask(next).records), next);
      AllAppend(all, ask(next).records);
    }
    OneLinkOn(z, h, i, target, visited, All(all), next, All(Gathered(z.canon, ask, next, all, trunc).0));
  }

  lemma NextIsCanonical(z: Zone, n: string, next: string)
    requires WellFormed(z) && Next(z, n) == Some(next)
    ensures z.canon(next) == next
  {
    var r :| r in z.records(n) && next == z.canon(r.value);
    assert z.canon(z.canon(r.value)) == z.canon(r.value);
  }

  /** ResolveType: the first answer, then the chain. At most one query for each link beside it. The zone is
      what the resolver is honest about, if it is. */
  method ResolveType(canon: string -> string, ask: string -> Answer, host: string, qtype: nat, ghost records: string -> seq<Record>)
    returns (r: Reply, asked: seq<string>)
    ensures asked == [host] + (if ask(host).Failure? then []
                               else Asked(canon, ask, qtype, 0, canon(host), {canon(host)}, ask(host).records, []))
    ensures |asked| <= MAX_DEPTH + 1
    ensures ask(host).Failure? ==> r == QueryFailed(ask(host).trunc) && asked == [host]
    ensures r.QueryFailed? <==> ask(host).Failure?
    ensures ask(host).Records? ==> Reported(ask, [], ask(host).trunc, asked, r)
    ensures r.Ok? ==> r.records == Gather(ask, asked) && ask(host).records <= r.records
    ensures var z := Zone(canon, records, qtype);
            WellFormed(z) && Honest(z, ask) ==> Follows(z, canon(host), r)
  {
    match ask(host)
    case Failure(trunc) => return QueryFailed(trunc), [host];
    case Records(answer, trunc) =>
      var hops;
      ghost var path;
      r, hops, path := FollowChain(canon, ask, host, qtype, answer, trunc);
      asked := [host] + hops;
      ReportedFirst(ask, host, hops, r);
      ghost var z := Zone(canon, records, qtype);
      if WellFormed(z) && Honest(z, ask) {
        assert Covers(z, All(answer), canon(host));
        ChaseFollows(Setting(z, ask), canon(host), answer, trunc);
      }
  }
}
