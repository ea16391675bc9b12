/** Futures and promises as interleaved atomic steps: a registration is one step (it holds the mutex); a
    fulfilment is entering the once, the section under the mutex, and one step per started callback. */
module FuturePromise {
  import opened Options
  import opened FutureCallbacks

  /** What the goroutines using one future may do next, in any order. */
  datatype Step<T, E> =
    | Register(kind: Kind, context: Option<nat>, isNil: bool)
    | Succeed(value: T)
    | Fail(error: Option<E>)
    | Completed(value: T, error: Option<E>)
    | Locked
    | Started

  /** The outcome a step tries to fulfil the promise with. */
  function Outcome<T, E>(step: Step<T, E>, zero: T): Option<Try<T, E>> {
    match step
    case Succeed(v) => Some(Try(v, None))
    case Fail(e) => Some(Try(zero, e))
    case Completed(v, e) => Some(if e.Some? then Try(zero, e) else Try(v, None))
    case _ => None
  }

  /** The outcome of the first fulfilment, if there is one. */
  function FirstOutcome<T, E>(steps: seq<Step<T, E>>, zero: T): Option<Try<T, E>> {
    if steps == [] then None
    else
      var before, n := FirstOutcome(steps[..|steps| - 1], zero), |steps| - 1;
      if before.Some? then before else Outcome(steps[n], zero)
  }

  /** The callback a step registers; a nil one is ignored. */
  function Registers<T, E>(step: Step<T, E>): seq<Registration> {
    if step.Register? && !step.isNil then [Registration(step.kind, step.context)] else []
  }

  function Registrations<T, E>(steps: seq<Step<T, E>>): seq<Registration> {
    if steps == [] then [] else Registrations(steps[..|steps| - 1]) + Registers(steps[|steps| - 1])
  }

  /** The first step that fulfils decides. */
  lemma {:induction false} FirstOutcomeIs<T, E>(steps: seq<Step<T, E>>, zero: T, i: nat)
    requires i < |steps| && (steps[i].Succeed? || steps[i].Fail? || steps[i].Completed?)
    requires forall j :: 0 <= j < i ==> steps[j].Register? || steps[j].Locked? || steps[j].Started?
    ensures steps[i].Succeed? ==> FirstOutcome(steps, zero) == Some(Try(steps[i].value, None))
    ensures steps[i].Fail? ==> FirstOutcome(steps, zero) == Some(Try(zero, steps[i].error))
    ensures steps[i].Completed? ==>
              FirstOutcome(steps, zero) == Some(if steps[i].error.None? then Try(steps[i].value, None) else Try(zero, steps[i].error))
  {
    var f := steps[..|steps| - 1];
    if i < |f| {
      FirstOutcomeIs(f, zero, i);
    } else {
      NoOutcome(f, zero);
    }
  }

  lemma {:induction false} NoOutcome<T, E>(steps: seq<Step<T, E>>, zero: T)
    requires forall j :: 0 <= j < |steps| ==> steps[j].Register? || steps[j].Locked? || steps[j].Started?
    ensures FirstOutcome(steps, zero) == None
  {
    if steps != [] {
      NoOutcome(steps[..|steps| - 1], zero);
    }
  }

  /** What can be seen of a future between two steps. */
  datatype Moment<T, E> = Moment(claimed: Option<Try<T, E>>, result: Try<T, E>, resultReady: bool,
                                 pending: seq<Start<T, E>>, started: seq<Start<T, E>>, registered: seq<Registration>)

  /** The effect of one step. */
  function After<T, E>(zero: T, a: Moment<T, E>, step: Step<T, E>): Moment<T, E> {
    match step
    case Register(kind, context, isNil) =>
      if isNil then a
      else a.(registered := a.registered + [Registration(kind, context)],
              started := if a.resultReady then a.started + Reply(Callback(|a.registered|, context), kind, a.result) else a.started)
    case Locked =>
      if a.resultReady || a.claimed.None? then a
      else a.(result := a.claimed.value, resultReady := true, pending := Plan(a.registered, a.claimed.value))
    case Started =>
      if a.pending == [] then a else a.(started := a.started + [a.pending[0]], pending := a.pending[1..])
    case _ =>
      if a.claimed.Some? then a else a.(claimed := Outcome(step, zero))
  }

  /** The start that answers a registration with a complete future. */
  function Reply<T, E>(c: Callback, kind: Kind, result: Try<T, E>): seq<Start<T, E>> {
    match kind
    case OnResult => [Start(c, Whole(result))]
    case OnSuccess => if result.error.None? then [Start(c, Value(result.value))] else []
    case OnError => if result.error.Some? then [Start(c, Failed(result.error.value))] else []
  }

  /** The effect of any steps, one after the other. */
  function AfterAll<T, E>(zero: T, a: Moment<T, E>, steps: seq<Step<T, E>>): Moment<T, E> {
    if steps == [] then a else After(zero, AfterAll(zero, a, steps[..|steps| - 1]), steps[|steps| - 1])
  }

  /** What the steps between two moments add up to. */
  ghost predicate Totals<T, E>(a: Moment<T, E>, b: Moment<T, E>, added: seq<Registration>, outcome: Option<Try<T, E>>) {
    && b.registered == a.registered + added
    && b.claimed == (if a.claimed.Some? then a.claimed else outcome)
    && a.started <= b.started && (a.resultReady ==> b.resultReady)
    && (a.resultReady && a.claimed == Some(a.result) ==> b.result == a.result)
    && (b.resultReady && !a.resultReady ==> b.claimed == Some(b.result))
  }

  lemma StepTotals<T, E>(zero: T, a: Moment<T, E>, step: Step<T, E>)
    ensures Totals(a, After(zero, a, step), Registers(step), Outcome(step, zero))
  {
  }

  lemma TotalsAdd<T, E>(a: Moment<T, E>, b: Moment<T, E>, c: Moment<T, E>, x: seq<Registration>, y: seq<Registration>,
                        o: Option<Try<T, E>>, p: Option<Try<T, E>>)
    requires Totals(a, b, x, o) && Totals(b, c, y, p)
    ensures Totals(a, c, x + y, if o.Some? then o else p)
  {
  }

  lemma {:induction false} RunTotals<T, E>(zero: T, a: Moment<T, E>, steps: seq<Step<T, E>>)
    ensures Totals(a, AfterAll(zero, a, steps), Registrations(steps), FirstOutcome(steps, zero))
  {
    if steps != [] {
      var f, step := steps[..|steps| - 1], steps[|steps| - 1];
      var b := AfterAll(zero, a, f);
      RunTotals(zero, a, f);
      StepTotals(zero, b, step);
      TotalsAdd(a, b, After(zero, b, step), Registrations(f), Registers(step), FirstOutcome(f, zero), Outcome(step, zero));
    }
  }

  /** Once a fulfilment has entered the once, its section under the mutex makes the result ready for good. */
  lemma {:induction false} ReadyOnceLocked<T, E>(zero: T, a: Moment<T, E>, steps: seq<Step<T, E>>, i: nat)
    requires i < |steps| && steps[i].Locked? && (a.claimed.Some? || FirstOutcome(steps[..i], zero).Some?)
    ensures AfterAll(zero, a, steps).resultReady
  {
    var f := steps[..|steps| - 1];
    if i < |f| {
      assert f[..i] == steps[..i];
      ReadyOnceLocked(zero, a, f, i);
      StepTotals(zero, AfterAll(zero, a, f), steps[|f|]);
    } else {
      RunTotals(zero, a, f);
    }
  }

  class Future<T, E> {
    const zero: T                    // the zero value of T
    var claimed: Option<Try<T, E>>   // the argument of the fulfilment that entered the once
    var result: Try<T, E>
    var resultReady: bool            // the channel is closed
    var successCallbacks: seq<Callback>
    var errorCallbacks: seq<Callback>
    var resultCallbacks: seq<Callback>
    var successCtxCallbacks: seq<Callback>
    var errorCtxCallbacks: seq<Callback>
    var resultCtxCallbacks: seq<Callback>
    var pending: seq<Start<T, E>>    // what the fulfilment has still to start
    var started: seq<Start<T, E>>    // every callback started so far
    var registered: seq<Registration>  // every callback ever registered; a callback's id is its place here
    ghost var collected: nat         // registrations before the section under the mutex
    ghost var early: seq<Start<T, E>>  // started by the fulfilment

    constructor (zero: T)
      ensures Valid() && registered == [] && claimed.None? && started == [] && this.zero == zero
    {
      this.zero := zero;
      claimed, result, resultReady := None, Try(zero, None), false;
      successCallbacks, errorCallbacks, resultCallbacks := [], [], [];
      successCtxCallbacks, errorCtxCallbacks, resultCtxCallbacks := [], [], [];
      pending, started, registered, collected, early := [], [], [], 0, [];
    }

    ghost predicate Valid()
      reads this
    {
      if resultReady then claimed == Some(result) && NoneListed() && Underway() else AllListed()
    }

    /** Each list holds its callbacks in order of registration, and nothing has been called. */
    ghost predicate AllListed()
      reads this
    {
      && pending == [] && started == [] && early == []
      && successCallbacks == Listed(registered, Kind.OnSuccess, false)
      && errorCallbacks == Listed(registered, Kind.OnError, false)
      && resultCallbacks == Listed(registered, Kind.OnResult, false)
      && successCtxCallbacks == Listed(registered, Kind.OnSuccess, true)
      && errorCtxCallbacks == Listed(registered, Kind.OnError, true)
      && resultCtxCallbacks == Listed(registered, Kind.OnResult, true)
    }

    ghost predicate NoneListed()
      reads this
    {
      && successCallbacks == errorCallbacks == resultCallbacks == []
      && successCtxCallbacks == errorCtxCallbacks == resultCtxCallbacks == []
    }

    /** The fulfilment works through its plan, and every later registration has been answered at once. */
    ghost predicate Underway()
      reads this
    {
      && collected <= |registered|
      && early + pending == Plan(registered[..collected], result)
      && (forall id {:trigger Starts(started, id)} :: Starts(started, id) == Starts(early, id) + Late(id))
      && (forall i {:trigger started[i]} :: 0 <= i < |started| ==> Right(registered, result, started[i]))
    }

    ghost function Late(id: nat): nat
      reads this
    {
      if collected <= id then Owed(registered, result, id) else 0
    }

    /** No callback is started twice, whatever has happened so far. */
    lemma NeverTwice(id: nat)
      requires Valid()
      ensures Starts(started, id) <= 1
    {
      if resultReady {
        StartsAppend(early, pending, id);
        PlanOnce(registered[..collected], result, id);
        assert Starts(started, id) == Starts(early, id) + Late(id);
      }
    }

    /** A finished fulfilment has called every registered callback that the result obliges it to call
        exactly once, and no other. */
    lemma ExactlyOnce(id: nat)
      requires Valid() && resultReady && pending == []
      ensures Starts(started, id) == Owed(registered, result, id)
      ensures Starts(started, id)
           == if && id < |registered|
                 && (|| registered[id].kind == Kind.OnResult
                     || registered[id].kind == if result.error.None? then Kind.OnSuccess else Kind.OnError)
              then 1 else 0
    {
      assert early + pending == early;
      PlanOnce(registered[..collected], result, id);
      assert Starts(started, id) == Starts(early, id) + Late(id);
    }

    /** What a started callback has been given. */
    lemma RightPayload(i: nat)
      requires Valid() && i < |started|
      ensures resultReady && claimed == Some(result) && Right(registered, result, started[i])
      ensures var s, id := started[i], started[i].callback.id;
              && id < |registered| && s.callback.context == registered[id].context
              && (registered[id].kind == Kind.OnResult ==> s.payload == Whole(result))
              && (registered[id].kind == Kind.OnSuccess ==> result.error.None? && s.payload == Value(result.value))
              && (registered[id].kind == Kind.OnError ==> result.error.Some? && s.payload == Failed(result.error.value))
    {
    }

    /** How a registration changes the lists that are still kept. */
    lemma NextListedAll(r: Registration)
      ensures forall kind, withContext {:trigger Listed(registered + [r], kind, withContext)} ::
                Listed(registered + [r], kind, withContext)
                == if r.kind == kind && r.context.Some? == withContext
                   then Listed(registered, kind, withContext) + [Callback(|registered|, r.context)]
                   else Listed(registered, kind, withContext)
    {
      forall kind, withContext { ListedNext(registered, r, kind, withContext); }
    }

    /** Records a registration that a complete future answers at once, or not at all. */
    method Answer(r: Registration)
      requires Valid() && resultReady
      modifies this`registered, this`started
      ensures Valid() && registered == old(registered) + [r]
      ensures var c := Callback(|old(registered)|, r.context);
              && (r.kind == Kind.OnResult ==> started == old(started) + [Start(c, Whole(result))])
              && (r.kind == Kind.OnSuccess ==>
                    started == if result.error.None? then old(started) + [Start(c, Value(result.value))] else old(started))
              && (r.kind == Kind.OnError ==>
                    started == if result.error.Some? then old(started) + [Start(c, Failed(result.error.value))] else old(started))
    {
      ghost var was, before := registered, started;
      var callback := Callback(|registered|, r.context);
      registered := registered + [r];
      assert registered[..collected] == was[..collected];
      match Due(r.kind, result)
      case None =>
      case Some(p) =>
        started := started + [Start(callback, p)];
        forall id ensures Starts(started, id) == Starts(before, id) + if callback.id == id then 1 else 0 {
          StartsNext(before, Start(callback, p), id);
        }
    }

    /** OnResult and, with a context, OnResultContext. */
    method OnResult(context: Option<nat>, isNil: bool)
      requires Valid()
      modifies this
      ensures Valid() && (isNil ==> unchanged(this))
      ensures !isNil ==> registered == old(registered) + [Registration(Kind.OnResult, context)]
      ensures unchanged(`claimed, `result, `resultReady, `pending, `early, `collected)
      ensures started == if !isNil && resultReady then old(started) + [Start(Callback(|old(registered)|, context), Whole(result))] else old(started)
    {
      if isNil {
        return;
      }
      var r := Registration(Kind.OnResult, context);
      if resultReady {
        Answer(r);
      } else {
        NextListedAll(r);
        if context.None? {
          resultCallbacks := resultCallbacks + [Callback(|registered|, context)];
        } else {
          resultCtxCallbacks := resultCtxCallbacks + [Callback(|registered|, context)];
        }
        registered := registered + [r];
      }
    }

    /** OnSuccess and, with a context, OnSuccessContext. */
    method OnSuccess(context: Option<nat>, isNil: bool)
      requires Valid()
      modifies this
      ensures Valid() && (isNil ==> unchanged(this))
      ensures !isNil ==> registered == old(registered) + [Registration(Kind.OnSuccess, context)]
      ensures unchanged(`claimed, `result, `resultReady, `pending, `early, `collected)
      ensures started == if !isNil && resultReady && result.error.None?
                         then old(started) + [Start(Callback(|old(registered)|, context), Value(result.value))]
                         else old(started)
    {
      if isNil {
        return;
      }
      var r := Registration(Kind.OnSuccess, context);
      if resultReady {
        Answer(r);
      } else {
        NextListedAll(r);
        if context.None? {
          successCallbacks := successCallbacks + [Callback(|registered|, context)];
        } else {
          successCtxCallbacks := successCtxCallbacks + [Callback(|registered|, context)];
        }
        registered := registered + [r];
      }
    }

    /** OnError and, with a context, OnErrorContext. */
    method OnError(context: Option<nat>, isNil: bool)
      requires Valid()
      modifies this
      ensures Valid() && (isNil ==> unchanged(this))
      ensures !isNil ==> registered == old(registered) + [Registration(Kind.OnError, context)]
      ensures unchanged(`claimed, `result, `resultReady, `pending, `early, `collected)
      ensures started == if !isNil && resultReady && result.error.Some?
                         then old(started) + [Start(Callback(|old(registered)|, context), Failed(result.error.value))]
                         else old(started)
    {
      if isNil {
        return;
      }
      var r := Registration(Kind.OnError, context);
      if resultReady {
        Answer(r);
      } else {
        NextListedAll(r);
        if context.None? {
          errorCallbacks := errorCallbacks + [Callback(|registered|, context)];
        } else {
          errorCtxCallbacks := errorCtxCallbacks + [Callback(|registered|, context)];
        }
        registered := registered + [r];
      }
    }

    /** fulfill, up to the section under the mutex: only the first call gets past the once. */
    method Enter(outcome: Try<T, E>)
      requires Valid()
      modifies this`claimed
      ensures Valid() && claimed == if old(claimed).Some? then old(claimed) else Some(outcome)
    {
      if claimed.None? {
        claimed := Some(outcome);
      }
    }

    /** The starts that the collected lists call for. */
    method Collect(outcome: Try<T, E>) returns (calls: seq<Start<T, E>>)
      requires AllListed()
      ensures calls == Plan(registered, outcome)
    {
      var whole := Whole(outcome);
      calls := StartAll(resultCallbacks, whole) + StartAll(resultCtxCallbacks, whole);
      if outcome.error.None? {
        var p := Value(outcome.value);
        calls := calls + (StartAll(successCallbacks, p) + StartAll(successCtxCallbacks, p));
      } else {
        var p := Failed(outcome.error.value);
        calls := calls + (StartAll(errorCallbacks, p) + StartAll(errorCtxCallbacks, p));
      }
    }

    /** fulfill's section under the mutex: collects and clears the callbacks, stores the result, closes
        the channel. */
    method Publish()
      requires Valid() && claimed.Some? && !resultReady
      modifies this
      ensures Valid() && resultReady && unchanged(`claimed, `registered, `started)
      ensures claimed == Some(result) && pending == Plan(registered, result)
    {
      var calls := Collect(claimed.value);
      Clear();
      result, resultReady := claimed.value, true;
      pending := calls;
      collected := |registered|;
      assert registered[..collected] == registered && early + pending == pending;
    }

    method Clear()
      modifies this
      ensures NoneListed()
      ensures unchanged(`claimed, `registered, `started, `pending, `early)
    {
      successCallbacks, errorCallbacks, resultCallbacks := [], [], [];
      successCtxCallbacks, errorCtxCallbacks, resultCtxCallbacks := [], [], [];
    }

    /** One turn of fulfill's loops over the collected callbacks, outside the mutex. */
    method StartNext()
      requires Valid() && pending != []
      modifies this`pending, this`started, this`early
      ensures Valid() && started == old(started) + [old(pending)[0]] && pending == old(pending)[1..]
    {
      ghost var before, was := started, early;
      var next := pending[0];
      assert next in early + pending;
      PlanOnce(registered[..collected], result, next.callback.id);
      assert Right(registered[..collected], result, next);
      started := started + [next];
      pending := pending[1..];
      early := early + [next];
      assert early + pending == was + old(pending);
      StartsNextAll(before, next);
      StartsNextAll(was, next);
    }

    method Success(value: T)
      requires Valid()
      modifies this`claimed
      ensures Valid() && claimed == if old(claimed).Some? then old(claimed) else Some(Try(value, None))
    {
      Enter(Try(value, None));
    }

    /** Failure; with a nil error it is a success with the zero value. */
    method Failure(error: Option<E>)
      requires Valid()
      modifies this`claimed
      ensures Valid() && claimed == if old(claimed).Some? then old(claimed) else Some(Try(zero, error))
    {
      Enter(Try(zero, error));
    }

    method Complete(value: T, error: Option<E>)
      requires Valid()
      modifies this`claimed
      ensures Valid()
      ensures claimed == if old(claimed).Some? then old(claimed) else Some(if error.Some? then Try(zero, error) else Try(value, None))
    {
      if error.Some? {
        Failure(error);
      } else {
        Success(value);
      }
    }

    /** Await: None while it blocks, then the same result ever after. */
    method Await() returns (outcome: Option<Try<T, E>>)
      requires Valid()
      ensures outcome == if resultReady then claimed else None
    {
      outcome := if resultReady then Some(result) else None;
    }

    method Subscribe(kind: Kind, context: Option<nat>, isNil: bool)
      requires Valid()
      modifies this
      ensures Valid() && (isNil ==> unchanged(this))
      ensures !isNil ==> registered == old(registered) + [Registration(kind, context)]
      ensures unchanged(`claimed, `result, `resultReady, `pending, `early, `collected)
      ensures var c := Callback(|old(registered)|, context);
              var owed := resultReady && !isNil && (kind == Kind.OnResult || kind == (if result.error.None? then Kind.OnSuccess else Kind.OnError));
              && (owed && kind == Kind.OnResult ==> started == old(started) + [Start(c, Whole(result))])
              && (owed && kind == Kind.OnSuccess ==> started == old(started) + [Start(c, Value(result.value))])
              && (owed && kind == Kind.OnError ==> started == old(started) + [Start(c, Failed(result.error.value))])
              && (!owed ==> started == old(started))
    {
      match kind
      case OnResult => OnResult(context, isNil);
      case OnSuccess => OnSuccess(context, isNil);
      case OnError => OnError(context, isNil);
    }

    ghost function Now(): Moment<T, E>
      reads this
    {
      Moment(claimed, result, resultReady, pending, started, registered)
    }

    /** One step of one goroutine; a step that is not enabled does nothing. */
    method Take(step: Step<T, E>)
      requires Valid()
      modifies this
      ensures Valid() && registered == old(registered) + Registers(step)
      ensures claimed == if old(claimed).Some? then old(claimed) else Outcome(step, zero)
      ensures Now() == After(zero, old(Now()), step)
      ensures step.Locked? && old(claimed).Some? ==> resultReady
      ensures step.Started? && old(pending) != [] ==> started == old(started) + [old(pending)[0]] && pending == old(pending)[1..]
    {
      match step
      case Register(kind, context, isNil) => Subscribe(kind, context, isNil);
      case Succeed(v) => Success(v);
      case Fail(e) => Failure(e);
      case Completed(v, e) => Complete(v, e);
      case Locked =>
        if claimed.Some? && !resultReady {
          Publish();
        }
      case Started =>
        if pending != [] {
          StartNext();
        }
    }

    /** Any interleaving: every step has its effect, the result is the first fulfilment's and never changes
        again, and callbacks already started stay started. */
    method Run(steps: seq<Step<T, E>>)
      requires Valid()
      modifies this
      ensures Valid() && Now() == AfterAll(zero, old(Now()), steps)
      ensures registered == old(registered) + Registrations(steps)
      ensures claimed == if old(claimed).Some? then old(claimed) else FirstOutcome(steps, zero)
      ensures resultReady ==> claimed == Some(result)
      ensures old(started) <= started && (old(resultReady) ==> resultReady && result == old(result))
    {
      for i := 0 to |steps|
        invariant Valid() && Now() == AfterAll(zero, old(Now()), steps[..i])
      {
        Take(steps[i]);
        assert steps[..i + 1][..i] == steps[..i];
      }
      assert steps[..|steps|] == steps;
      RunTotals(zero, old(Now()), steps);
    }

    /** A fulfilment that has entered the once and runs to its end, whatever was registered before. */
    method Finish()
      requires Valid() && claimed.Some?
      modifies this
      ensures Valid() && resultReady && claimed == old(claimed) == Some(result) && pending == []
      ensures registered == old(registered)
      ensures forall id: nat {:trigger Starts(started, id)} ::
                Starts(started, id)
                == if && id < |registered|
                      && (|| registered[id].kind == Kind.OnResult
                          || registered[id].kind == if result.error.None? then Kind.OnSuccess else Kind.OnError)
                   then 1 else 0
    {
      if !resultReady {
        Publish();
      }
      while pending != []
        invariant Valid() && resultReady && claimed == old(claimed) && registered == old(registered)
        decreases |pending|
      {
        StartNext();
      }
      forall id: nat
        ensures Starts(started, id)
             == if && id < |registered|
                   && (|| registered[id].kind == Kind.OnResult
                       || registered[id].kind == if result.error.None? then Kind.OnSuccess else Kind.OnError)
                then 1 else 0 {
        ExactlyOnce(id);
      }
    }
  }

  /** The write side's cancellation. */
  class Promise {
    var canceled: bool
    const cancelFuncs: seq<nat>
    var called: seq<nat>    // the cancel functions called so far

    constructor (cancelFuncs: seq<nat>)
      ensures Valid() && !canceled && this.cancelFuncs == cancelFuncs
    {
      this.cancelFuncs := cancelFuncs;
      canceled, called := false, [];
    }

    ghost predicate Valid()
      reads this
    {
      called == if canceled then cancelFuncs else []
    }

    /** However often it is called, every cancel function is called once, in order. */
    method Cancel()
      requires Valid()
      modifies this
      ensures Valid() && canceled && called == cancelFuncs
    {
      if !canceled {
        canceled := true;
        for i := 0 to |cancelFuncs|
          invariant canceled && called == cancelFuncs[..i]
        {
          called := called + [cancelFuncs[i]];
        }
      }
    }
  }
}
