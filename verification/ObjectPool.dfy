/** The event loop of an object pool and its shutdown. The select is a choice of the next event; callers
    put each borrowed object back once, and no request times out. */
module ObjectPool {
  import opened Options
  import opened PoolObjects

  /** What the loop's select may receive, with the outside's answers while it is handled. */
  datatype Event =
    | GetRequest(valid: set<nat>, closes: set<nat>, made: Option<nat>)
    | PutRequest(obj: nat, now: int)
    | CloseIdleRequest(sweep: Sweep)
    | Tick(shuffled: seq<PoolObject>)
    | ClosedChannel

  /** A turn of the loop, whose closes answers the Close calls after the loop, or a step of Close. */
  datatype Step = Turn(event: Event, closes: set<nat>) | CloseGet | ClosePut | CloseRest

  /** The wait group is released once, after Close has begun, and before Close goes on. */
  ghost predicate Draining(getClosed: bool, putClosed: bool, ciClosed: bool, done: nat, drain: int, drainOnce: bool) {
    && (done > 0 ==> getClosed)
    && drain == (if getClosed then 1 else 0) - (if drainOnce then 1 else 0)
    && (drainOnce ==> getClosed)
    && (putClosed ==> drainOnce) && (ciClosed ==> putClosed)
  }

  /** How things stand between two steps. */
  datatype Moment = Moment(pool: seq<PoolObject>, ledger: Ledger, running: bool, getClosed: bool, putClosed: bool, ciClosed: bool,
                           done: nat, drained: bool, errors: Option<seq<nat>>)

  predicate Enabled(m: Moment, e: Event) {
    match e
    case GetRequest(_, _, made) => !m.getClosed && (made.Some? ==> made.value !in m.ledger.created)
    case PutRequest(obj, _) => !m.putClosed && obj in m.ledger.borrowed
    case CloseIdleRequest(sweep) => !m.ciClosed && |m.pool| <= |sweep.now|
    case Tick(shuffled) => multiset(shuffled) == multiset(m.pool)
    case ClosedChannel => m.getClosed
  }

  /** The effect of handling an event. */
  function Handled(m: Moment, e: Event): Moment
    requires e.CloseIdleRequest? ==> |m.pool| <= |e.sweep.now|
  {
    match e
    case GetRequest(valid, closes, made) =>
      var r := Serve(m.pool, m.ledger, valid, closes, made);
      m.(pool := r.pool, ledger := r.ledger)
    case PutRequest(obj, now) => m.(pool := m.pool + [PoolObject(obj, now)], ledger := m.ledger.(borrowed := m.ledger.borrowed - {obj}))
    case CloseIdleRequest(sweep) => m.(pool := Kept(m.pool, sweep), ledger := Swept(m.ledger, m.pool, sweep))
    case Tick(shuffled) => m.(pool := shuffled)
    case ClosedChannel => m.(done := m.done + 1)
  }

  /** What a Get is answered. */
  function Answer(m: Moment, e: Event): Option<nat> {
    match e
    case GetRequest(valid, closes, made) => Serve(m.pool, m.ledger, valid, closes, made).got
    case _ => None
  }

  /** The effect of the decision after a select. */
  function Decided(m: Moment, closes: set<nat>): Moment {
    if m.done == 0 || m.ledger.borrowed != {} then m
    else if m.done < 3 then m.(drained := true)
    else m.(pool := [], ledger := DiscardAll(m.ledger, m.pool, closes), running := false, drained := true,
            errors := Some(Unclosed(m.pool, closes)))
  }

  /** The effect of one step, which is none if the step is not enabled. */
  function After(m: Moment, step: Step): Moment {
    match step
    case Turn(e, closes) => if m.running && Enabled(m, e) then Decided(Handled(m, e), closes) else m
    case CloseGet => if m.running then m.(getClosed := true) else m
    case ClosePut => if m.getClosed && m.drained then m.(putClosed := true) else m
    case CloseRest => if m.putClosed then m.(ciClosed := true) else m
  }

  function Got(m: Moment, step: Step): Option<nat> {
    if step.Turn? && m.running && Enabled(m, step.event) then Answer(m, step.event) else None
  }

  ghost predicate Since(m: Moment, n: Moment) {
    Later(m.ledger, n.ledger) && (m.getClosed ==> n.getClosed)
  }

  /** How things stand before, between and after the steps of a run, and what each step hands out. */
  function Befores(m: Moment, steps: seq<Step>): (r: seq<Moment>)
    ensures |r| == |steps| + 1
  {
    if steps == [] then [m]
    else
      var n := |steps| - 1;
      var r := Befores(m, steps[..n]);
      r + [After(r[n], steps[n])]
  }

  function Gots(m: Moment, steps: seq<Step>): (r: seq<Option<nat>>)
    ensures |r| == |steps|
  {
    if steps == [] then []
    else
      var n := |steps| - 1;
      Gots(m, steps[..n]) + [Got(Befores(m, steps[..n])[n], steps[n])]
  }

  /** Each step has its effect. */
  lemma {:induction false} EachStep(m: Moment, steps: seq<Step>, i: nat)
    requires i < |steps|
    ensures Befores(m, steps)[0] == m
    ensures Befores(m, steps)[i + 1] == After(Befores(m, steps)[i], steps[i])
    ensures Gots(m, steps)[i] == Got(Befores(m, steps)[i], steps[i])
  {
    var n := |steps| - 1;
    if i < n {
      EachStep(m, steps[..n], i);
    } else if n > 0 {
      EachStep(m, steps[..n], 0);
    }
  }

  /** What step makes of moment m, if it hands out `got` and leads to moment n. A Get is answered with the first
      valid idle object, and the pool loses it and those before it; without a valid one it is answered with the
      object made. A CloseIdle leaves an object idle exactly if it is valid and has not been idle for too long, or
      its Close fails. When the loop ends, no object stays idle. */
  ghost predicate Answered(m: Moment, step: Step, got: Option<nat>, n: Moment) {
    match step
    case CloseGet => got == None && (m.running ==> n.getClosed)
    case ClosePut => got == None && (m.getClosed && m.drained ==> n.putClosed)
    case CloseRest => got == None && (m.putClosed ==> n.ciClosed)
    case Turn(e, _) =>
      && (!m.running ==> got == None && n == m)
      && (m.running && !n.running ==> n.pool == [] && n.ledger.borrowed == {})
      && (m.running ==>
            match e
            case GetRequest(valid, _, made) =>
              !m.getClosed && (made.Some? ==> made.value !in m.ledger.created) ==>
                && n.running
                && var k := Passed(m.pool, valid);
                   if k < |m.pool| then got == Some(m.pool[k].obj) && n.pool == m.pool[k + 1..] else got == made && n.pool == []
            case PutRequest(obj, now) =>
              && got == None
              && (!m.putClosed && obj in m.ledger.borrowed && n.running ==> n.pool == m.pool + [PoolObject(obj, now)])
            case CloseIdleRequest(sweep) =>
              && got == None
              && (!m.ciClosed && |m.pool| <= |sweep.now| && n.running ==>
                    && |n.pool| <= |m.pool|
                    && (forall p :: p in n.pool ==> p in m.pool)
                    && forall i {:trigger m.pool[i]} :: 0 <= i < |m.pool| ==>
                         (m.pool[i] in n.pool <==>
                            || (sweep.now[i] - m.pool[i].lastTouched < sweep.minIdle && m.pool[i].obj in sweep.valid)
                            || m.pool[i].obj !in sweep.closes))
            case Tick(shuffled) => got == None && (multiset(shuffled) == multiset(m.pool) && n.running ==> n.pool == shuffled)
            case ClosedChannel => got == None && (n.running ==> n.pool == m.pool) && (m.getClosed ==> n.done == m.done + 1))
  }

  /** One step from before[i] to before[i + 1]. */
  ghost predicate Recorded(before: seq<Moment>, got: seq<Option<nat>>, i: int)
    requires 0 <= i < |got| == |before| - 1
  {
    && Since(before[i], before[i + 1])
    && (got[i].Some? ==> got[i].value !in before[i].ledger.closed && got[i].value !in before[i].ledger.borrowed && !before[i].getClosed)
  }

  ghost predicate Chronicle(before: seq<Moment>, got: seq<Option<nat>>) {
    |got| == |before| - 1 && forall i {:trigger Recorded(before, got, i)} :: 0 <= i < |got| ==> Recorded(before, got, i)
  }

  lemma ChronicleNext(before: seq<Moment>, got: seq<Option<nat>>, now: Moment, o: Option<nat>)
    requires Chronicle(before, got) && Since(before[|got|], now)
    requires o.Some? ==> o.value !in before[|got|].ledger.closed && o.value !in before[|got|].ledger.borrowed && !before[|got|].getClosed
    ensures Chronicle(before + [now], got + [o])
  {
    forall i | 0 <= i < |got| + 1 ensures Recorded(before + [now], got + [o], i) {
      if i < |got| {
        assert Recorded(before, got, i);
      }
    }
  }

  /** What was closed at some moment is closed at every later one. */
  lemma {:induction false} SinceThen(before: seq<Moment>, got: seq<Option<nat>>, i: nat, j: nat)
    requires Chronicle(before, got) && i <= j < |got|
    ensures Since(before[i], before[j]) && Recorded(before, got, j)
    decreases j - i
  {
    assert Recorded(before, got, j);
    if i < j {
      assert Recorded(before, got, i);
      SinceThen(before, got, i + 1, j);
    }
  }

  lemma HandledOwned(m: Moment, e: Event)
    requires Owned(m.pool, m.ledger) && Enabled(m, e)
    ensures var n, got := Handled(m, e), Answer(m, e);
            && Owned(n.pool, n.ledger) && Since(m, n)
            && (got.Some? ==> got.value !in m.ledger.closed && got.value !in m.ledger.borrowed && !m.getClosed)
  {
    match e {
      case GetRequest(valid, closes, made) => ServeOwned(m.pool, m.ledger, valid, closes, made);
      case PutRequest(obj, now) => ReturnOwned(m.pool, m.ledger, PoolObject(obj, now));
      case CloseIdleRequest(sweep) => SweepOwned(m.pool, m.ledger, sweep);
      case Tick(shuffled) => Shuffled(m.pool, shuffled);
      case ClosedChannel =>
    }
  }

  lemma DecidedOwned(m: Moment, closes: set<nat>)
    requires Owned(m.pool, m.ledger)
    ensures Owned(Decided(m, closes).pool, Decided(m, closes).ledger) && Since(m, Decided(m, closes))
  {
    DiscardAllOwned(m.pool, m.ledger, closes);
  }

  /** The loop ends with nothing idle and nothing borrowed. */
  lemma EndsEmpty(m: Moment, closes: set<nat>)
    requires Owned(m.pool, m.ledger) && m.running && !Decided(m, closes).running
    ensures Decided(m, closes).pool == [] && Decided(m, closes).ledger.borrowed == {}
  {
    DiscardAllOwned(m.pool, m.ledger, closes);
  }

  lemma GetAnswered(m: Moment, step: Step)
    requires step.Turn? && step.event.GetRequest? && m.running && Enabled(m, step.event) && (m.done > 0 ==> m.getClosed)
    ensures Answered(m, step, Got(m, step), After(m, step))
  {
    var e := step.event;
    ServesFirstValid(m.pool, m.ledger, e.valid, e.closes, e.made);
  }

  lemma CloseIdleAnswered(m: Moment, step: Step)
    requires Owned(m.pool, m.ledger)
    requires step.Turn? && step.event.CloseIdleRequest? && m.running && Enabled(m, step.event)
    ensures Answered(m, step, Got(m, step), After(m, step))
  {
    var sweep := step.event.sweep;
    KeptMeans(m.pool, sweep);
    HandledOwned(m, step.event);
    if !After(m, step).running {
      EndsEmpty(Handled(m, step.event), step.closes);
    }
  }

  lemma AfterAnswered(m: Moment, step: Step)
    requires Owned(m.pool, m.ledger) && (m.done > 0 ==> m.getClosed)
    ensures Answered(m, step, Got(m, step), After(m, step))
  {
    if step.Turn? && m.running && Enabled(m, step.event) {
      if step.event.GetRequest? {
        GetAnswered(m, step);
      } else if step.event.CloseIdleRequest? {
        CloseIdleAnswered(m, step);
      } else {
        HandledOwned(m, step.event);
        if !After(m, step).running {
          EndsEmpty(Handled(m, step.event), step.closes);
        }
      }
    }
  }

  /** Every object stays in one place, and only an object that is neither borrowed nor closed is handed out. */
  lemma AfterOwned(m: Moment, step: Step)
    requires Owned(m.pool, m.ledger)
    ensures var n, got := After(m, step), Got(m, step);
            && Owned(n.pool, n.ledger) && Since(m, n)
            && (got.Some? ==> got.value !in m.ledger.closed && got.value !in m.ledger.borrowed && !m.getClosed)
  {
    if step.Turn? && m.running && Enabled(m, step.event) {
      HandledOwned(m, step.event);
      DecidedOwned(Handled(m, step.event), step.closes);
    }
  }

  lemma {:induction false} ChronicleOf(m: Moment, steps: seq<Step>)
    requires Owned(m.pool, m.ledger) && (m.done > 0 ==> m.getClosed)
    ensures var before := Befores(m, steps);
            var n := before[|steps|];
            Owned(n.pool, n.ledger) && (n.done > 0 ==> n.getClosed) && Chronicle(before, Gots(m, steps))
  {
    if steps != [] {
      var f, step := steps[..|steps| - 1], steps[|steps| - 1];
      var before := Befores(m, f);
      ChronicleOf(m, f);
      AfterOwned(before[|f|], step);
      ChronicleNext(before, Gots(m, f), After(before[|f|], step), Got(before[|f|], step));
    }
  }

  lemma {:induction false} StepAnswered(m: Moment, steps: seq<Step>, i: nat)
    requires Owned(m.pool, m.ledger) && (m.done > 0 ==> m.getClosed) && i < |steps|
    ensures Answered(Befores(m, steps)[i], steps[i], Gots(m, steps)[i], Befores(m, steps)[i + 1])
  {
    var n := |steps| - 1;
    if i < n {
      StepAnswered(m, steps[..n], i);
    } else {
      ChronicleOf(m, steps[..n]);
      AfterAnswered(Befores(m, steps[..n])[n], steps[n]);
    }
  }

  lemma AllAnswered(m: Moment, steps: seq<Step>, before: seq<Moment>, got: seq<Option<nat>>)
    requires Owned(m.pool, m.ledger) && (m.done > 0 ==> m.getClosed) && before == Befores(m, steps) && got == Gots(m, steps)
    ensures forall i {:trigger got[i]} :: 0 <= i < |steps| ==> Answered(before[i], steps[i], got[i], before[i + 1])
  {
    forall i {:trigger got[i]} | 0 <= i < |steps| ensures Answered(before[i], steps[i], got[i], before[i + 1]) {
      StepAnswered(m, steps, i);
    }
  }

  lemma Safe(before: seq<Moment>, got: seq<Option<nat>>)
    requires Chronicle(before, got)
    ensures forall i, j :: 0 <= i <= j < |got| && got[j].Some? ==>
              got[j].value !in before[i].ledger.closed && got[j].value !in before[j].ledger.borrowed && !before[i].getClosed
  {
    forall i, j | 0 <= i <= j < |got| && got[j].Some?
      ensures got[j].value !in before[i].ledger.closed && got[j].value !in before[j].ledger.borrowed && !before[i].getClosed {
      SinceThen(before, got, i, j);
    }
  }

  class Pool {
    var objectPool: seq<PoolObject>
    var outstanding: int
    var done: nat              // receives from closed channels so far
    var drainOnce: bool        // stopDrain has run
    var drain: int             // the counter of the wait group
    var running: bool
    var getClosed: bool
    var putClosed: bool
    var ciClosed: bool
    var errors: Option<seq<nat>>   // what the loop has sent to Close: the objects whose last Close failed
    var ledger: Ledger         // for the record: the source keeps none of it

    constructor ()
      ensures Valid() && running && !getClosed && ledger.created == {} && objectPool == []
    {
      objectPool, outstanding, done := [], 0, 0;
      drainOnce, drain, running, getClosed, putClosed, ciClosed := false, 0, true, false, false, false;
      errors := None;
      ledger := Ledger({}, {}, {}, {}, {});
    }

    /** As many objects are outstanding as are borrowed. */
    ghost predicate Counted()
      reads this
    {
      Owned(objectPool, ledger) && outstanding == |ledger.borrowed|
    }

    /** The wait group is released only with nothing borrowed; the loop has ended only after that, having
        called Close on every object there was and reported those that could not be closed. */
    ghost predicate Valid()
      reads this
    {
      && Counted()
      && Draining(getClosed, putClosed, ciClosed, done, drain, drainOnce)
      && (drainOnce ==> ledger.borrowed == {})
      && (!running ==> drainOnce && objectPool == [])
      && (running <==> errors == None)
      && (errors.Some? ==> forall o :: o in errors.value ==> o in ledger.tried && o !in ledger.closed)
    }

    /** An object whose Close succeeded is in nobody's hands and never will be. */
    lemma ClosedForGood()
      requires Valid()
      ensures ledger.closed !! ledger.borrowed && ledger.closed !! Objs(objectPool)
    {
    }

    /** When the loop has ended, every object ever made has been disposed of. */
    lemma NothingLeaks()
      requires Valid() && !running
      ensures ledger.borrowed == {} && ledger.created == ledger.discarded <= ledger.tried && outstanding == 0 && drain == 0
    {
    }

    /** Answers with the first valid idle object, discarding those before it, or else with a new one. */
    method HandleGet(valid: set<nat>, closes: set<nat>, made: Option<nat>) returns (got: Option<nat>)
      requires Owned(objectPool, ledger) && (made.Some? ==> made.value !in ledger.created)
      modifies this`objectPool, this`outstanding, this`ledger
      ensures Owned(objectPool, ledger) && Later(old(ledger), ledger)
      ensures Served(got, objectPool, ledger) == Serve(old(objectPool), old(ledger), valid, closes, made)
      ensures ledger.borrowed == Borrowing(old(ledger).borrowed, got, None)
      ensures outstanding == old(outstanding) + if got.Some? then 1 else 0
      ensures got.Some? ==> got.value !in old(ledger).borrowed && got.value !in old(ledger).closed
    {
      ServeOwned(objectPool, ledger, valid, closes, made);
      while objectPool != []
        invariant outstanding == old(outstanding)
        invariant Serve(objectPool, ledger, valid, closes, made) == Serve(old(objectPool), old(ledger), valid, closes, made)
        decreases |objectPool|
      {
        var o := objectPool[0].obj;
        objectPool := objectPool[1..];
        if o in valid {
          ledger, outstanding := Lend(ledger, o), outstanding + 1;
          return Some(o);
        }
        ledger := Discard(ledger, o, o in closes);
      }
      got := made;
      if made.Some? {
        ledger, outstanding := Lend(ledger, made.value), outstanding + 1;
      }
    }

    /** Takes a borrowed object back, behind the idle ones. */
    method HandlePut(obj: nat, now: int)
      requires Owned(objectPool, ledger) && obj in ledger.borrowed
      modifies this`objectPool, this`outstanding, this`ledger
      ensures Owned(objectPool, ledger) && outstanding == old(outstanding) - 1 && objectPool == old(objectPool) + [PoolObject(obj, now)]
      ensures ledger == old(ledger).(borrowed := old(ledger).borrowed - {obj}) && Later(old(ledger), ledger)
    {
      ReturnOwned(objectPool, ledger, PoolObject(obj, now));
      objectPool := objectPool + [PoolObject(obj, now)];
      ledger, outstanding := ledger.(borrowed := ledger.borrowed - {obj}), outstanding - 1;
    }

    /** The loop of CloseIdle over the idle objects: what it keeps, and the objects it called Close on. */
    static method Purge(s: seq<PoolObject>, sweep: Sweep) returns (successes: nat, errors: nat, remainder: seq<PoolObject>, attempted: set<nat>)
      requires |s| <= |sweep.now|
      ensures remainder == Kept(s, sweep) && errors == Failures(s, sweep) && successes + |remainder| == |s|
      ensures attempted == Attempted(s, sweep)
    {
      successes, errors, remainder, attempted := 0, 0, [], {};
      for i := 0 to |s|
        invariant remainder == Kept(s[..i], sweep) && errors == Failures(s[..i], sweep) && successes + |remainder| == i
        invariant attempted == Attempted(s[..i], sweep)
      {
        KeptNext(s, i, sweep);
        var p := s[i];
        var age := sweep.now[i] - p.lastTouched;
        if age < sweep.minIdle && p.obj in sweep.valid {
          remainder := remainder + [p];
          continue;
        }
        attempted := attempted + {p.obj};
        if p.obj !in sweep.closes {
          errors, remainder := errors + 1, remainder + [p];
        } else {
          successes := successes + 1;
        }
      }
      assert s[..|s|] == s;
    }

    /** Closes idle objects; keeps the ones it need not close and the ones whose Close fails. */
    method HandleCloseIdle(sweep: Sweep) returns (successes: nat, errors: nat)
      requires Owned(objectPool, ledger) && |objectPool| <= |sweep.now|
      modifies this`objectPool, this`ledger
      ensures Owned(objectPool, ledger) && objectPool == Kept(old(objectPool), sweep) && errors == Failures(old(objectPool), sweep)
      ensures successes + |objectPool| == |old(objectPool)| && successes + errors == |Attempted(old(objectPool), sweep)|
      ensures ledger == Swept(old(ledger), old(objectPool), sweep)
      ensures ledger.closed == old(ledger.closed) + (Objs(old(objectPool)) - Objs(objectPool))
      ensures ledger.tried == old(ledger.tried) + Attempted(old(objectPool), sweep)
      ensures ledger.borrowed == old(ledger.borrowed) && ledger.created == old(ledger.created) && Later(old(ledger), ledger)
    {
      ghost var s := objectPool;
      var remainder, attempted;
      successes, errors, remainder, attempted := Purge(objectPool, sweep);
      SweepOwned(s, ledger, sweep);
      SweepCounts(s, sweep);
      var gone := Objs(objectPool) - Objs(remainder);
      ledger := ledger.(discarded := ledger.discarded + gone, tried := ledger.tried + attempted, closed := ledger.closed + gone);
      objectPool := remainder;
    }

    method StopDrain()
      requires getClosed && drain == 1 - (if drainOnce then 1 else 0)
      modifies this`drainOnce, this`drain
      ensures drainOnce && drain == 0
    {
      if !drainOnce {
        drainOnce, drain := true, drain - 1;
      }
    }

    /** Close on every idle object; returns those whose Close fails. */
    method CloseAll(closes: set<nat>) returns (errs: seq<nat>)
      modifies this`objectPool, this`ledger
      ensures objectPool == [] && ledger == DiscardAll(old(ledger), old(objectPool), closes)
      ensures errs == Unclosed(old(objectPool), closes)
    {
      errs := [];
      ghost var failing, all := Unclosed(objectPool, closes), DiscardAll(ledger, objectPool, closes);
      while objectPool != []
        invariant DiscardAll(ledger, objectPool, closes) == all && failing == errs + Unclosed(objectPool, closes)
        decreases |objectPool|
      {
        var o := objectPool[0].obj;
        objectPool := objectPool[1..];
        ledger := Discard(ledger, o, o in closes);
        if o !in closes {
          errs := errs + [o];
        }
      }
    }

    /** What follows the loop: Close on every idle object, the report of its errors, and the deferred calls. */
    method Leave(closes: set<nat>)
      requires Owned(objectPool, ledger)
      requires getClosed && drain == 1 - (if drainOnce then 1 else 0)
      modifies this
      ensures Owned(objectPool, ledger) && objectPool == [] && !running && drainOnce && drain == 0
      ensures unchanged(`getClosed, `putClosed, `ciClosed, `done, `outstanding)
      ensures ledger == DiscardAll(old(ledger), old(objectPool), closes) && Later(old(ledger), ledger)
      ensures ledger.created == old(ledger).created && ledger.borrowed == old(ledger).borrowed
      ensures errors == Some(Unclosed(old(objectPool), closes))
      ensures forall o :: o in errors.value ==> o in ledger.tried && o !in ledger.closed
    {
      DiscardAllOwned(objectPool, ledger, closes);
      UnclosedTried(objectPool, ledger, closes);
      var errs := CloseAll(closes);
      errors := Some(errs);
      StopDrain();
      running := false;
    }

    /** The object a Put brings back. */
    function Returned(e: Event): Option<nat> {
      if e.PutRequest? then Some(e.obj) else None
    }

    /** How things stand. */
    ghost function Now(): Moment
      reads this
    {
      Moment(objectPool, ledger, running, getClosed, putClosed, ciClosed, done, drainOnce, errors)
    }

    method Handle(e: Event) returns (got: Option<nat>)
      requires Owned(objectPool, ledger) && Enabled(Now(), e)
      modifies this
      ensures Now() == Handled(old(Now()), e) && got == Answer(old(Now()), e)
      ensures Owned(objectPool, ledger) && Later(old(ledger), ledger)
      ensures got.Some? ==> e.GetRequest? && got.value !in old(ledger).borrowed && got.value !in old(ledger).closed
      ensures ledger.borrowed == Borrowing(old(ledger).borrowed, got, Returned(e))
      ensures outstanding == old(outstanding) + if got.Some? then 1 else if Returned(e).Some? then -1 else 0
      ensures drain == old(drain)
      ensures e.PutRequest? || e.ClosedChannel? ==> ledger.created == old(ledger).created
    {
      got := None;
      match e
      case GetRequest(valid, closes, made) => got := HandleGet(valid, closes, made);
      case PutRequest(obj, now) => HandlePut(obj, now);
      case CloseIdleRequest(sweep) => var _, _ := HandleCloseIdle(sweep);
      case Tick(shuffled) =>
        Shuffled(objectPool, shuffled);
        objectPool := shuffled;
      case ClosedChannel => done := done + 1;
    }

    method Receive(e: Event) returns (got: Option<nat>)
      requires Counted() && Enabled(Now(), e)
      modifies this
      ensures Now() == Handled(old(Now()), e) && got == Answer(old(Now()), e)
      ensures Counted() && Later(old(ledger), ledger) && drain == old(drain)
      ensures got.Some? ==> e.GetRequest? && got.value !in old(ledger).borrowed && got.value !in old(ledger).closed
      ensures ledger.borrowed == Borrowing(old(ledger).borrowed, got, Returned(e))
      ensures e.PutRequest? || e.ClosedChannel? ==> ledger.created == old(ledger).created
    {
      ghost var borrowed := ledger.borrowed;
      got := Handle(e);
      BorrowingCounts(borrowed, got, Returned(e));
    }

    /** The decision after a select. */
    method Decide(closes: set<nat>)
      requires Counted() && running && errors == None
      requires Draining(getClosed, putClosed, ciClosed, done, drain, drainOnce) && (drainOnce ==> ledger.borrowed == {})
      modifies this
      ensures Now() == Decided(old(Now()), closes)
      ensures Valid() && Later(old(ledger), ledger) && unchanged(`getClosed, `putClosed, `ciClosed, `done)
      ensures ledger.borrowed == old(ledger).borrowed && ledger.created == old(ledger).created
      ensures !running <==> done >= 3 && ledger.borrowed == {}
      ensures drainOnce <==> old(drainOnce) || (done >= 1 && ledger.borrowed == {})
      ensures running ==> objectPool == old(objectPool) && ledger == old(ledger)
      ensures !running ==> objectPool == [] && errors == Some(Unclosed(old(objectPool), closes))
    {
      assert outstanding == 0 <==> ledger.borrowed == {};
      if done >= 1 && outstanding > 0 {
        return;
      }
      if (done == 1 || done == 2) && outstanding == 0 {
        StopDrain();
        return;
      }
      if done >= 3 {
        Leave(closes);
      }
    }

    /** One turn of the loop: the select, then the decision whether to go on. Returns what a Get got. */
    method Turn(e: Event, closes: set<nat>) returns (got: Option<nat>)
      requires Valid() && running && Enabled(Now(), e)
      modifies this
      ensures Now() == Decided(Handled(old(Now()), e), closes) && got == Answer(old(Now()), e)
      ensures Valid() && Later(old(ledger), ledger)
      ensures unchanged(`getClosed, `putClosed, `ciClosed)
      ensures Answered(old(Now()), Step.Turn(e, closes), got, Now())
      ensures got.Some? ==> e.GetRequest?
      ensures got.Some? ==> got.value !in old(ledger.borrowed) && got.value !in old(ledger.closed)
      ensures !running <==> done >= 3 && ledger.borrowed == {}
      ensures drainOnce <==> old(drainOnce) || (done >= 1 && ledger.borrowed == {})
      ensures e.PutRequest? ==> ledger.borrowed == old(ledger.borrowed) - {e.obj} && ledger.created == old(ledger.created)
      ensures e.ClosedChannel? ==> ledger.borrowed == old(ledger.borrowed) && done == old(done) + 1 && ledger.created == old(ledger.created)
    {
      AfterAnswered(Now(), Step.Turn(e, closes));
      got := Receive(e);
      Decide(closes);
    }

    /** The steps of Close. The wait between the first two is for the wait group. */
    method CloseStep(step: Step)
      requires Valid() && !step.Turn? && CloseEnabled(step)
      modifies this
      ensures Valid() && unchanged(`ledger, `objectPool, `running, `done, `outstanding, `errors, `drainOnce) && getClosed
      ensures putClosed == (old(putClosed) || step.ClosePut?) && ciClosed == (old(ciClosed) || step.CloseRest?)
      ensures drain == old(drain) + if step.CloseGet? then 1 else 0
    {
      match step
      case CloseGet => drain, getClosed := drain + 1, true;
      case ClosePut => putClosed := true;
      case CloseRest => ciClosed := true;
    }

    predicate CloseEnabled(step: Step)
      requires !step.Turn?
      reads this
    {
      match step
      case CloseGet => running && !getClosed
      case ClosePut => getClosed && drain == 0 && !putClosed
      case CloseRest => putClosed && !ciClosed
    }

    /** One step of the loop or of Close; one that is not enabled does nothing. */
    method Take(step: Step) returns (got: Option<nat>)
      requires Valid()
      modifies this
      ensures Now() == After(old(Now()), step) && got == Got(old(Now()), step)
      ensures Answered(old(Now()), step, got, Now())
      ensures Valid() && Later(old(ledger), ledger)
      ensures old(getClosed) ==> getClosed
      ensures old(getClosed) || old(!running) ==> got.None?
      ensures got.Some? ==> got.value !in old(ledger).borrowed && got.value !in old(ledger).closed
    {
      AfterAnswered(Now(), step);
      AfterOwned(Now(), step);
      got := Act(step);
    }

    method Act(step: Step) returns (got: Option<nat>)
      requires Valid()
      modifies this
      ensures Valid() && Now() == After(old(Now()), step) && got == Got(old(Now()), step)
    {
      got := None;
      if !step.Turn? {
        if CloseEnabled(step) {
          CloseStep(step);
        }
      } else if running && Enabled(Moment(objectPool, ledger, running, getClosed, putClosed, ciClosed, done, drainOnce, errors), step.event) {
        got := Turn(step.event, step.closes);
      }
    }

    /** Any run, whatever the outside answers. got[i] is what step i handed out, and before[i] how things stood
        before it: an object is handed out only if it is not borrowed and has not been closed by then, and
        nothing is once Close has begun. */
    method Run(steps: seq<Step>) returns (got: seq<Option<nat>>, ghost before: seq<Moment>)
      requires Valid()
      modifies this
      ensures Valid() && before != [] && before[0] == old(Now()) && before[|before| - 1] == Now()
      ensures |got| == |steps| == |before| - 1 && Chronicle(before, got)
      ensures before == Befores(old(Now()), steps) && got == Gots(old(Now()), steps)
      ensures forall i {:trigger got[i]} :: 0 <= i < |steps| ==> Answered(before[i], steps[i], got[i], before[i + 1])
      ensures forall i, j :: 0 <= i <= j < |steps| && got[j].Some? ==>
                got[j].value !in before[i].ledger.closed && got[j].value !in before[j].ledger.borrowed && !before[i].getClosed
    {
      got, before := TakeAll(steps);
      ChronicleOf(old(Now()), steps);
      Safe(before, got);
      AllAnswered(old(Now()), steps, before, got);
    }

    method TakeAll(steps: seq<Step>) returns (got: seq<Option<nat>>, ghost before: seq<Moment>)
      requires Valid()
      modifies this
      ensures Valid() && before == Befores(old(Now()), steps) && got == Gots(old(Now()), steps)
      ensures before[0] == old(Now()) && before[|steps|] == Now()
    {
      got, before := [], [Now()];
      for n := 0 to |steps|
        invariant Valid() && before == Befores(old(Now()), steps[..n]) && got == Gots(old(Now()), steps[..n])
        invariant before[0] == old(Now()) && before[n] == Now()
      {
        var o := Act(steps[n]);
        assert steps[..n + 1][..n] == steps[..n];
        got, before := got + [o], before + [Now()];
      }
      assert steps[..|steps|] == steps;
    }

    /** Once Close has begun, putting every borrowed object back lets the loop end, however often it has
        already received from a closed channel; then every object ever made has been disposed of. */
    method Shutdown(now: int, closes: set<nat>)
      requires Valid() && running && getClosed
      modifies this
      ensures Valid() && !running && ledger.created == old(ledger.created) == ledger.discarded && ledger.closed >= old(ledger.closed) && drain == 0
    {
      while running && ledger.borrowed != {}
        invariant Valid() && getClosed && ledger.created == old(ledger.created) && ledger.closed >= old(ledger.closed)
        decreases |ledger.borrowed|
      {
        var o :| o in ledger.borrowed;
        var _ := Turn(PutRequest(o, now), closes);
      }
      while running
        invariant Valid() && getClosed && ledger.borrowed == {} && ledger.created == old(ledger.created) && ledger.closed >= old(ledger.closed)
        decreases if done >= 3 then 0 else 3 - done, running
      {
        var _ := Turn(ClosedChannel, closes);
      }
      NothingLeaks();
    }
  }
}
