/** Which callbacks a completed future owes a call, in which order it makes the calls, and what they get. */
module FutureCallbacks {
  import opened Options

  /** try.Try: a nil error means success. */
  datatype Try<T, E> = Try(value: T, error: Option<E>)

  datatype Kind = OnResult | OnSuccess | OnError

  /** A registered callback; the context of the *Context variants. */
  datatype Registration = Registration(kind: Kind, context: Option<nat>)

  /** A callback on one of the future's lists; id is the number of its registration. */
  datatype Callback = Callback(id: nat, context: Option<nat>)

  datatype Payload<T, E> = Whole(result: Try<T, E>) | Value(v: T) | Failed(e: E)

  /** A goroutine started to run a callback. */
  datatype Start<T, E> = Start(callback: Callback, payload: Payload<T, E>)

  /** What a callback of this kind gets from the result, if it is called at all. */
  function Due<T, E>(kind: Kind, result: Try<T, E>): Option<Payload<T, E>> {
    match kind
    case OnResult => Some(Whole(result))
    case OnSuccess => if result.error.None? then Some(Value(result.value)) else None
    case OnError => if result.error.Some? then Some(Failed(result.error.value)) else None
  }

  /** How often the result obliges the future to call callback id. */
  function Owed<T, E>(registered: seq<Registration>, result: Try<T, E>, id: nat): nat {
    if id < |registered| && Due(registered[id].kind, result).Some? then 1 else 0
  }

  /** The callback is called with its own context and what its kind gets. */
  predicate Right<T(==), E(==)>(registered: seq<Registration>, result: Try<T, E>, s: Start<T, E>) {
    && s.callback.id < |registered|
    && s.callback.context == registered[s.callback.id].context
    && Due(registered[s.callback.id].kind, result) == Some(s.payload)
  }

  function Starts<T, E>(starts: seq<Start<T, E>>, id: nat): nat {
    if starts == [] then 0
    else Starts(starts[..|starts| - 1], id) + if starts[|starts| - 1].callback.id == id then 1 else 0
  }

  lemma StartsNext<T, E>(a: seq<Start<T, E>>, s: Start<T, E>, id: nat)
    ensures Starts(a + [s], id) == Starts(a, id) + if s.callback.id == id then 1 else 0
  {
    assert (a + [s])[..|a|] == a;
  }

  lemma StartsNextAll<T, E>(a: seq<Start<T, E>>, s: Start<T, E>)
    ensures forall id: nat {:trigger Starts(a + [s], id)} :: Starts(a + [s], id) == Starts(a, id) + if s.callback.id == id then 1 else 0
  {
    forall id: nat ensures Starts(a + [s], id) == Starts(a, id) + if s.callback.id == id then 1 else 0 {
      StartsNext(a, s, id);
    }
  }

  lemma {:induction false} StartsAppend<T, E>(a: seq<Start<T, E>>, b: seq<Start<T, E>>, id: nat)
    ensures Starts(a + b, id) == Starts(a, id) + Starts(b, id)
  {
    if b == [] {
      assert a + b == a;
    } else {
      var f, l := b[..|b| - 1], b[|b| - 1];
      assert a + b == a + f + [l] && b == f + [l];
      StartsAppend(a, f, id);
      StartsNext(a + f, l, id);
    }
  }

  /** The list for callbacks of one kind, with or without a context, before the future is complete. */
  function Listed(registered: seq<Registration>, kind: Kind, withContext: bool): seq<Callback> {
    if registered == [] then []
    else
      var n := |registered| - 1;
      var r := registered[n];
      var was := Listed(registered[..n], kind, withContext);
      if r.kind == kind && r.context.Some? == withContext then was + [Callback(n, r.context)] else was
  }

  lemma ListedNext(registered: seq<Registration>, r: Registration, kind: Kind, withContext: bool)
    ensures var was := Listed(registered, kind, withContext);
            Listed(registered + [r], kind, withContext)
            == if r.kind == kind && r.context.Some? == withContext then was + [Callback(|registered|, r.context)] else was
  {
    assert (registered + [r])[..|registered|] == registered;
  }

  function StartAll<T, E>(callbacks: seq<Callback>, payload: Payload<T, E>): seq<Start<T, E>> {
    seq(|callbacks|, i requires 0 <= i < |callbacks| => Start(callbacks[i], payload))
  }

  lemma {:induction false} ListedOnce<T, E>(registered: seq<Registration>, kind: Kind, withContext: bool, payload: Payload<T, E>, id: nat)
    ensures Starts(StartAll(Listed(registered, kind, withContext), payload), id)
         == if id < |registered| && registered[id].kind == kind && registered[id].context.Some? == withContext then 1 else 0
  {
    if registered != [] {
      var n := |registered| - 1;
      var f, r := registered[..n], registered[n];
      ListedOnce(f, kind, withContext, payload, id);
      if r.kind == kind && r.context.Some? == withContext {
        var was := Listed(f, kind, withContext);
        assert StartAll(was + [Callback(n, r.context)], payload) == StartAll(was, payload) + [Start(Callback(n, r.context), payload)];
        StartsNext(StartAll(was, payload), Start(Callback(n, r.context), payload), id);
      }
    }
  }

  lemma {:induction false} ListedRight<T, E>(registered: seq<Registration>, result: Try<T, E>, kind: Kind, withContext: bool, payload: Payload<T, E>)
    requires Due(kind, result) == Some(payload)
    ensures forall s :: s in StartAll(Listed(registered, kind, withContext), payload) ==> Right(registered, result, s)
  {
    if registered != [] {
      ListedRight(registered[..|registered| - 1], result, kind, withContext, payload);
      var f, all := Listed(registered[..|registered| - 1], kind, withContext), Listed(registered, kind, withContext);
      forall s | s in StartAll(all, payload) ensures Right(registered, result, s) {
        var i :| 0 <= i < |all| && s == Start(all[i], payload);
        if i < |f| {
          assert s == StartAll(f, payload)[i];
          assert Right(registered[..|registered| - 1], result, s);
        } else {
          assert all[i] == Callback(|registered| - 1, registered[|registered| - 1].context);
        }
      }
    }
  }

  /** The calls a fulfilment makes: to all OnResult callbacks, then to the OnSuccess or else the OnError
      ones, each kind without a context before those with one, in order of registration. */
  function Plan<T, E>(registered: seq<Registration>, result: Try<T, E>): seq<Start<T, E>> {
    Calls(registered, OnResult, result) + Calls(registered, if result.error.None? then OnSuccess else OnError, result)
  }

  function Calls<T, E>(registered: seq<Registration>, kind: Kind, result: Try<T, E>): seq<Start<T, E>>
    requires Due(kind, result).Some?
  {
    StartAll(Listed(registered, kind, false), Due(kind, result).value)
    + StartAll(Listed(registered, kind, true), Due(kind, result).value)
  }

  lemma CallsOnce<T, E>(registered: seq<Registration>, kind: Kind, result: Try<T, E>, id: nat)
    requires Due(kind, result).Some?
    ensures Starts(Calls(registered, kind, result), id) == if id < |registered| && registered[id].kind == kind then 1 else 0
    ensures forall s :: s in Calls(registered, kind, result) ==> Right(registered, result, s)
  {
    var p := Due(kind, result).value;
    StartsAppend(StartAll(Listed(registered, kind, false), p), StartAll(Listed(registered, kind, true), p), id);
    ListedOnce(registered, kind, false, p, id);
    ListedOnce(registered, kind, true, p, id);
    ListedRight(registered, result, kind, false, p);
    ListedRight(registered, result, kind, true, p);
  }

  /** A fulfilment calls everyone it owes a call once, and nobody else. */
  lemma PlanOnce<T, E>(registered: seq<Registration>, result: Try<T, E>, id: nat)
    ensures Starts(Plan(registered, result), id) == Owed(registered, result, id)
    ensures Starts(Plan(registered, result), id)
         == if id < |registered| && (registered[id].kind == OnResult || registered[id].kind == (if result.error.None? then OnSuccess else OnError))
            then 1 else 0
    ensures forall s :: s in Plan(registered, result) ==> Right(registered, result, s)
  {
    var kind := if result.error.None? then OnSuccess else OnError;
    StartsAppend(Calls(registered, OnResult, result), Calls(registered, kind, result), id);
    CallsOnce(registered, OnResult, result, id);
    CallsOnce(registered, kind, result, id);
  }

  /** What each callback is given that a fulfilment calls. */
  lemma PlanGives<T, E>(registered: seq<Registration>, result: Try<T, E>, s: Start<T, E>)
    requires s in Plan(registered, result)
    ensures s.callback.id < |registered| && s.callback.context == registered[s.callback.id].context
    ensures s.payload == match registered[s.callback.id].kind
                         case OnResult => Whole(result)
                         case _ => if result.error.None? then Value(result.value) else Failed(result.error.value)
  {
    PlanOnce(registered, result, s.callback.id);
  }

  /** A list keeps the order of registration. */
  lemma {:induction false} ListedInOrder(registered: seq<Registration>, kind: Kind, withContext: bool, i: nat, j: nat)
    requires j < |Listed(registered, kind, withContext)| && i <= j
    ensures var all := Listed(registered, kind, withContext);
            && all[i].id <= all[j].id < |registered| && (i < j ==> all[i].id < all[j].id)
            && registered[all[i].id] == Registration(kind, all[i].context) && all[i].context.Some? == withContext
  {
    var n := |registered| - 1;
    var was, all := Listed(registered[..n], kind, withContext), Listed(registered, kind, withContext);
    if j < |was| {
      ListedInOrder(registered[..n], kind, withContext, i, j);
    } else if i < |was| {
      ListedInOrder(registered[..n], kind, withContext, i, i);
    }
  }

  /** The start at place i calls the callback at place x of one of the lists. */
  lemma PlanAt<T, E>(registered: seq<Registration>, result: Try<T, E>, i: nat) returns (kind: Kind, withContext: bool, x: nat)
    requires i < |Plan(registered, result)|
    ensures kind == OnResult || kind == if result.error.None? then OnSuccess else OnError
    ensures x < |Listed(registered, kind, withContext)|
    ensures Plan(registered, result)[i].callback == Listed(registered, kind, withContext)[x]
    ensures i == x + (if withContext then |Listed(registered, kind, false)| else 0)
                   + if kind == OnResult then 0 else |Listed(registered, OnResult, false)| + |Listed(registered, OnResult, true)|
  {
    var a, b := |Listed(registered, OnResult, false)|, |Listed(registered, OnResult, true)|;
    kind := if i < a + b then OnResult else if result.error.None? then OnSuccess else OnError;
    x := if i < a + b then i else i - a - b;
    assert Plan(registered, result)[i] == Calls(registered, kind, result)[x];
    withContext := x >= |Listed(registered, kind, false)|;
    if withContext {
      x := x - |Listed(registered, kind, false)|;
    }
  }

  /** The OnResult callbacks come first; in each kind the ones without a context come before those with one,
      and among these the one registered earlier comes first. */
  lemma PlanInOrder<T, E>(registered: seq<Registration>, result: Try<T, E>, i: nat, j: nat)
    requires i < j < |Plan(registered, result)|
    ensures var a, b := Plan(registered, result)[i].callback.id, Plan(registered, result)[j].callback.id;
            && a < |registered| && b < |registered|
            && var r, q := registered[a], registered[b];
               && (q.kind == OnResult ==> r.kind == OnResult)
               && (r.kind == q.kind && q.context.None? ==> r.context.None?)
               && (r.kind == q.kind && r.context.Some? == q.context.Some? ==> a < b)
  {
    var k, c, x := PlanAt(registered, result, i);
    var l, d, y := PlanAt(registered, result, j);
    ListedInOrder(registered, k, c, x, x);
    ListedInOrder(registered, l, d, y, y);
    if k == l && c == d {
      ListedInOrder(registered, k, c, x, y);
    }
  }
}
