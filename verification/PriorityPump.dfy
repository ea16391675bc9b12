/** The goroutine of CreatePriority as a state machine over its select statement. */
module PriorityPump {
  import opened PriorityOrder
  import opened PriorityHeap

  /** What the select may be woken by. */
  datatype Event<T> = Cancelled | Arrival(value: T) | InputClosed | Taken

  /** The values sent before the input is closed. */
  function Sent<T(==)>(events: seq<Event<T>>): seq<T> {
    if events == [] then []
    else
      var f, e := events[..|events| - 1], events[|events| - 1];
      if e.Arrival? && InputClosed !in f then Sent(f) + [e.value] else Sent(f)
  }

  /** What has passed through a pump, how much waits in it, and whether its two ends are closed. */
  datatype Moment<T> = Moment(received: seq<T>, delivered: seq<Entry<T>>, buffered: nat, inputClosed: bool, outputClosed: bool)

  /** What one event makes of a running pump. */
  ghost predicate Follows<T>(maxSize: int, m: Moment<T>, e: Event<T>, n: Moment<T>) {
    && !m.outputClosed && (n.outputClosed <==> (m.inputClosed && m.buffered == 0) || e.Cancelled?)
    && (e.Arrival? && !m.inputClosed && (maxSize <= 0 || m.buffered < maxSize) ==> n.received == m.received + [e.value])
    && (!e.Arrival? || m.inputClosed || (maxSize > 0 && m.buffered >= maxSize) ==> n.received == m.received)
    && (n.inputClosed <==> m.inputClosed || (e.InputClosed? && (maxSize <= 0 || m.buffered < maxSize)))
    && m.delivered <= n.delivered && |n.delivered| == |m.delivered| + (if e.Taken? && m.buffered > 0 then 1 else 0)
    && n.buffered == m.buffered + (|n.received| - |m.received|) - (|n.delivered| - |m.delivered|)
  }

  ghost predicate FollowsAt<T>(maxSize: int, events: seq<Event<T>>, before: seq<Moment<T>>, i: nat)
    requires i < |events| && |before| == |events| + 1
  {
    Follows(maxSize, before[i], events[i], before[i + 1])
  }

  /** One moment for each event of a run, and one at its end. */
  ghost predicate Traces<T>(maxSize: int, events: seq<Event<T>>, before: seq<Moment<T>>) {
    |before| == |events| + 1
    && forall i {:trigger FollowsAt(maxSize, events, before, i)} :: 0 <= i < |events| ==> FollowsAt(maxSize, events, before, i)
  }

  lemma TracesNext<T>(maxSize: int, events: seq<Event<T>>, before: seq<Moment<T>>, e: Event<T>, next: Moment<T>)
    requires Traces(maxSize, events, before) && Follows(maxSize, before[|events|], e, next)
    ensures Traces(maxSize, events + [e], before + [next])
  {
    forall i | 0 <= i < |events| + 1 ensures FollowsAt(maxSize, events + [e], before + [next], i) {
      if i < |events| {
        assert FollowsAt(maxSize, events, before, i);
      }
    }
  }

  lemma TracesBefore<T>(maxSize: int, events: seq<Event<T>>, before: seq<Moment<T>>)
    requires Traces(maxSize, events, before) && events != []
    ensures var n := |events| - 1;
            Traces(maxSize, events[..n], before[..n + 1]) && Follows(maxSize, before[n], events[n], before[n + 1])
  {
    var n := |events| - 1;
    assert FollowsAt(maxSize, events, before, n);
    var f, b := events[..n], before[..n + 1];
    forall i | 0 <= i < n ensures FollowsAt(maxSize, f, b, i) {
      assert FollowsAt(maxSize, events, before, i);
    }
  }

  /** An unbounded pump that is not cancelled takes all that is sent. */
  lemma {:induction false} TakesAllSent<T>(maxSize: int, events: seq<Event<T>>, before: seq<Moment<T>>)
    requires maxSize <= 0 && Cancelled !in events && Traces(maxSize, events, before) && !before[0].outputClosed
    ensures var m, n := before[0], before[|events|];
            && n.received == m.received + (if m.inputClosed then [] else Sent(events))
            && n.inputClosed == (m.inputClosed || InputClosed in events)
            && (n.outputClosed ==> n.inputClosed)
  {
    if events != [] {
      var n := |events| - 1;
      TracesBefore(maxSize, events, before);
      assert events == events[..n] + [events[n]];
      TakesAllSent(maxSize, events[..n], before[..n + 1]);
    }
  }

  /** Nothing counts as sent once the input is closed. */
  lemma {:induction false} SentStops<T>(events: seq<Event<T>>, n: nat)
    requires n <= |events| && InputClosed in events[..n]
    ensures Sent(events) == Sent(events[..n])
    decreases |events|
  {
    if n < |events| {
      var f := events[..|events| - 1];
      assert f[..n] == events[..n];
      assert InputClosed in f;
      SentStops(f, n);
    } else {
      assert events[..n] == events;
    }
  }

  /** The entries the first submissions make: values in order, numbered from 1. */
  function Submitted<T>(values: seq<T>): seq<Entry<T>> {
    seq(|values|, i requires 0 <= i < |values| => Entry(values[i], i + 1))
  }

  /** Every later one of two deliveries of equal priority was submitted later. */
  ghost predicate FifoAmongEquals<T>(less: (T, T) -> bool, es: seq<Entry<T>>) {
    forall i, j {:trigger es[i], es[j]} :: 0 <= i < j < |es| && EqualPriority(less, es[i].value, es[j].value) ==>
      es[i].seqNo < es[j].seqNo
  }

  /** Nothing of the same priority that waits was submitted before something delivered. */
  ghost predicate NoneOvertaken<T>(less: (T, T) -> bool, delivered: seq<Entry<T>>, waiting: multiset<Entry<T>>) {
    forall i, w {:trigger delivered[i], waiting[w]} :: 0 <= i < |delivered| && w in waiting ==>
      EqualPriority(less, delivered[i].value, w.value) ==> delivered[i].seqNo < w.seqNo
  }

  lemma SubmittedNext<T>(values: seq<T>, v: T)
    ensures Submitted(values + [v]) == Submitted(values) + [Entry(v, |values| + 1)]
  {
  }

  /** What was received and not delivered waits. */
  lemma WaitingCount<T>(values: seq<T>, delivered: seq<Entry<T>>, items: seq<Entry<T>>)
    requires multiset(Submitted(values)) == multiset(delivered) + multiset(items)
    ensures |items| == |values| - |delivered|
  {
    assert |multiset(Submitted(values))| == |values| && |multiset(delivered)| == |delivered| && |multiset(items)| == |items|;
  }

  /** An entry's number is the place of its submission. */
  lemma SubmittedNumber<T>(values: seq<T>, e: Entry<T>)
    requires e in multiset(Submitted(values))
    ensures 1 <= e.seqNo <= |values| && e.value == values[e.seqNo - 1]
  {
    var i :| 0 <= i < |values| && Submitted(values)[i] == e;
  }

  lemma {:induction false} SubmittedOnce<T>(values: seq<T>, e: Entry<T>)
    ensures multiset(Submitted(values))[e] <= 1
  {
    if values != [] {
      var f, l := values[..|values| - 1], values[|values| - 1];
      assert values == f + [l];
      SubmittedNext(f, l);
      SubmittedOnce(f, e);
      if e in multiset(Submitted(f)) {
        SubmittedNumber(f, e);
      }
    }
  }

  /** Entries waiting side by side come from different submissions. */
  lemma WaitingDiffer<T>(values: seq<T>, gone: multiset<Entry<T>>, rest: multiset<Entry<T>>, e: Entry<T>, w: Entry<T>)
    requires multiset(Submitted(values)) == gone + (rest + multiset{e}) && w in rest
    ensures w.seqNo != e.seqNo
  {
    SubmittedOnce(values, e);
    SubmittedNumber(values, e);
    SubmittedNumber(values, w);
  }

  /** The root of the heap comes before everything else that waits. */
  lemma RootComesFirst<T(!new)>(less: (T, T) -> bool, values: seq<T>, gone: multiset<Entry<T>>, s: seq<Entry<T>>, rest: multiset<Entry<T>>)
    requires StrictWeakOrder(less) && Heap(less, s) && s != []
    requires multiset(Submitted(values)) == gone + multiset(s) && multiset(s) == rest + multiset{s[0]}
    ensures forall w {:trigger rest[w]} :: w in rest ==> Before(less, s[0], w)
  {
    forall w | w in rest ensures Before(less, s[0], w) {
      assert w in multiset(s);
      var j :| 0 <= j < |s| && s[j] == w;
      RootIsLeast(less, s, j);
      WaitingDiffer(values, gone, rest, s[0], w);
      BeforeIsTotal(less, s[0], w, s[0]);
    }
  }

  class Pump<T(!new)> {
    const less: (T, T) -> bool
    const maxSize: int
    const queue: Queue<T>
    var seqNo: nat
    var inputClosed: bool
    var pending: nat
    var outputClosed: bool
    ghost var received: seq<T>            // every value taken from the input, in order
    ghost var delivered: seq<Entry<T>>    // every entry sent to the output, in order

    constructor (maxSize: int, less: (T, T) -> bool)
      requires StrictWeakOrder(less)
      ensures Valid() && fresh(queue) && this.maxSize == maxSize && this.less == less
      ensures received == [] && delivered == [] && queue.items == [] && !inputClosed && !outputClosed
    {
      this.less, this.maxSize := less, maxSize;
      queue := new Queue(less);
      seqNo, inputClosed, pending, outputClosed := 0, false, 0, false;
      received, delivered := [], [];
    }

    /** Holds in every state the pump reaches, at the head of its loop. */
    ghost predicate Valid()
      reads this, queue
    {
      && queue.less == less && StrictWeakOrder(less) && Heap(less, queue.items)
      && seqNo == |received| && pending == |queue.items|
      && multiset(Submitted(received)) == multiset(delivered) + multiset(queue.items)
      && (maxSize > 0 ==> |queue.items| <= maxSize)
      && FifoAmongEquals(less, delivered) && NoneOvertaken(less, delivered, multiset(queue.items))
    }

    /** The select's cases: a nil channel is never ready. */
    predicate Ready(e: Event<T>)
      reads this, queue
    {
      match e
      case Cancelled => true
      case Arrival(_) => !inputClosed && !(maxSize > 0 && |queue.items| >= maxSize)
      case InputClosed => !inputClosed && !(maxSize > 0 && |queue.items| >= maxSize)
      case Taken => |queue.items| > 0
    }

    /** The check before the select: closed and drained. */
    predicate Finished()
      reads this, queue
    {
      inputClosed && |queue.items| == 0
    }

    /** A value arrives: it joins the buffer, behind all of its priority that are there already. */
    method Accept(value: T)
      requires Valid() && !outputClosed && Ready(Arrival(value))
      modifies this, queue
      ensures Valid() && received == old(received) + [value] && delivered == old(delivered)
      ensures multiset(queue.items) == multiset(old(queue.items)) + multiset{Entry(value, |received|)}
      ensures inputClosed == old(inputClosed) && !outputClosed
    {
      seqNo := seqNo + 1;
      var e := Entry(value, seqNo);
      HeapPush(queue, e);
      pending := |queue.items|;
      received := received + [value];
      AcceptKeepsTurns(less, old(received), delivered, old(queue.items), queue.items, value);
    }

    /** A consumer takes the top value: the least buffered one, which leaves the heap. */
    method Deliver() returns (value: T, ghost e: Entry<T>)
      requires Valid() && !outputClosed && Ready(Taken)
      modifies this, queue
      ensures Valid() && received == old(received) && inputClosed == old(inputClosed) && !outputClosed
      ensures e.value == value && delivered == old(delivered) + [e]
      ensures multiset(old(queue.items)) == multiset(queue.items) + multiset{e} && |queue.items| == |old(queue.items)| - 1
      ensures forall w {:trigger multiset(queue.items)[w]} :: w in multiset(queue.items) ==> Before(less, e, w)
      ensures forall w {:trigger multiset(queue.items)[w]} :: w in multiset(queue.items) ==>
                !less(w.value, value) && (!less(value, w.value) ==> e.seqNo < w.seqNo)
    {
      value := queue.items[0].value;
      ghost var s := queue.items;
      var top := HeapPop(queue);
      e := top;
      pending := |queue.items|;
      assert |s| == |multiset(s)| && |queue.items| == |multiset(queue.items)|;
      RootComesFirst(less, received, multiset(delivered), s, multiset(queue.items));
      DeliverKeepsTurns(less, delivered, s, multiset(queue.items), e);
      delivered := delivered + [e];
    }

    /** Once the input is closed, a pump that is not cancelled can only deliver. */
    lemma ClosedOnlyDelivers(e: Event<T>)
      requires Valid() && inputClosed
      ensures Ready(e) && e != Cancelled ==> e == Taken && |queue.items| > 0
    {
    }

    /** With the input closed and no cancellation only deliveries are possible: they empty the buffer
        in order of priority, ties in order of submission, and then the output is closed. */
    method Drain() returns (ghost rest: seq<Entry<T>>)
      requires Valid() && !outputClosed && inputClosed
      modifies this, queue
      ensures outputClosed && queue.items == [] && received == old(received) && FifoAmongEquals(less, delivered)
      ensures delivered == old(delivered) + rest && InOrder(less, rest) && multiset(rest) == multiset(old(queue.items))
    {
      rest := [];
      while !Finished()
        invariant Valid() && !outputClosed && inputClosed && received == old(received)
        invariant delivered == old(delivered) + rest && Draining(less, rest, queue.items, old(queue.items))
        decreases |queue.items|
      {
        rest := DrainOne(rest, old(queue.items));
      }
      outputClosed := true;
    }

    method DrainOne(ghost done: seq<Entry<T>>, ghost all: seq<Entry<T>>) returns (ghost rest: seq<Entry<T>>)
      requires Valid() && !outputClosed && |queue.items| > 0 && Draining(less, done, queue.items, all)
      modifies this, queue
      ensures Valid() && !outputClosed && inputClosed == old(inputClosed) && received == old(received)
      ensures exists e :: rest == done + [e] && delivered == old(delivered) + [e]
      ensures Draining(less, rest, queue.items, all) && |queue.items| < |old(queue.items)|
    {
      var value;
      ghost var e;
      value, e := Deliver();
      rest := done + [e];
      DrainStep(less, done, old(queue.items), queue.items, all, e);
    }

    /** One turn of the loop. A pump whose input is closed and whose buffer is empty closes its output, and
        so does a cancelled one. A value is taken from the input unless that is closed or the buffer is
        full; an unbounded buffer never is. */
    method Turn(e: Event<T>)
      requires Valid() && !outputClosed
      modifies this, queue
      ensures Valid()
      ensures outputClosed <==> (old(inputClosed) && |old(queue.items)| == 0) || e == Cancelled
      ensures e.Arrival? && !old(inputClosed) && (maxSize <= 0 || |old(queue.items)| < maxSize) ==> received == old(received) + [e.value]
      ensures !e.Arrival? || old(inputClosed) || (maxSize > 0 && |old(queue.items)| >= maxSize) ==> received == old(received)
      ensures inputClosed <==> old(inputClosed) || (e.InputClosed? && (maxSize <= 0 || |old(queue.items)| < maxSize))
      ensures if e.Taken? && |old(queue.items)| > 0 then HandsOver(old(delivered), old(queue.items)) else delivered == old(delivered)
    {
      if Finished() {
        outputClosed := true;
      } else if Ready(e) {
        match e
        case Cancelled => outputClosed := true;
        case Arrival(v) => Accept(v);
        case InputClosed => inputClosed := true;
        case Taken =>
          var value;
          ghost var top;
          value, top := Deliver();
      }
    }

    /** One of the entries that waited has been delivered, and no other may come before it. */
    ghost predicate HandsOver(was: seq<Entry<T>>, waited: seq<Entry<T>>)
      reads this, queue
    {
      && |delivered| == |was| + 1 && was <= delivered
      && var e := delivered[|was|];
         && multiset(waited) == multiset(queue.items) + multiset{e}
         && forall w {:trigger multiset(queue.items)[w]} :: w in multiset(queue.items) ==>
              !less(w.value, e.value) && (!less(e.value, w.value) ==> e.seqNo < w.seqNo)
    }

    ghost function Now(): Moment<T>
      reads this, queue
    {
      Moment(received, delivered, |queue.items|, inputClosed, outputClosed)
    }

    /** A run of the goroutine against any sequence of events, until it returns or the events end; before[i] is
        how things stood before event i. Unbounded and not cancelled, it takes every value sent before the
        input is closed. */
    method Run(events: seq<Event<T>>) returns (done: nat, ghost before: seq<Moment<T>>)
      requires Valid() && !outputClosed
      modifies this, queue
      ensures Valid() && done <= |events| && (done < |events| ==> outputClosed)
      ensures |before| == done + 1 && before[0] == old(Now()) && before[done] == Now()
      ensures Traces(maxSize, events[..done], before)
      ensures maxSize <= 0 && Cancelled !in events ==> received == old(received) + if old(inputClosed) then [] else Sent(events)
    {
      done, before := 0, [Now()];
      while done < |events| && !outputClosed
        invariant Valid() && done <= |events| && |before| == done + 1 && before[0] == old(Now()) && before[done] == Now()
        invariant Traces(maxSize, events[..done], before)
      {
        TurnTold(events[done]);
        TracesNext(maxSize, events[..done], before, events[done], Now());
        assert events[..done + 1] == events[..done] + [events[done]];
        before := before + [Now()];
        done := done + 1;
      }
      if maxSize <= 0 && Cancelled !in events {
        assert Cancelled !in events[..done];
        TakesAllSent(maxSize, events[..done], before);
        if done < |events| && !old(inputClosed) {
          SentStops(events, done);
        }
        assert events[..|events|] == events;
      }
    }

    /** A turn, told by what stood before and stands after it. */
    method TurnTold(e: Event<T>)
      requires Valid() && !outputClosed
      modifies this, queue
      ensures Valid() && Follows(maxSize, old(Now()), e, Now())
    {
      WaitingCount(received, delivered, queue.items);
      Turn(e);
      WaitingCount(received, delivered, queue.items);
    }
  }

  /** Everything in es comes before everything that waits. */
  ghost predicate AllBefore<T>(less: (T, T) -> bool, es: seq<Entry<T>>, waiting: multiset<Entry<T>>) {
    forall i, w {:trigger es[i], waiting[w]} :: 0 <= i < |es| && w in waiting ==> Before(less, es[i], w)
  }

  /** Some of the buffer has been delivered, in order, and comes before all that waits. */
  ghost predicate Draining<T>(less: (T, T) -> bool, done: seq<Entry<T>>, s: seq<Entry<T>>, all: seq<Entry<T>>) {
    InOrder(less, done) && AllBefore(less, done, multiset(s)) && multiset(done) + multiset(s) == multiset(all)
  }

  lemma DrainStep<T(!new)>(less: (T, T) -> bool, done: seq<Entry<T>>, s: seq<Entry<T>>, t: seq<Entry<T>>, all: seq<Entry<T>>, e: Entry<T>)
    requires Draining(less, done, s, all) && multiset(s) == multiset(t) + multiset{e}
    requires forall w {:trigger multiset(t)[w]} :: w in multiset(t) ==> Before(less, e, w)
    ensures Draining(less, done + [e], t, all)
  {
    assert multiset(s)[e] > 0;
    var next, rest := done + [e], multiset(t);
    forall i, w {:trigger next[i], rest[w]} | 0 <= i < |next| && w in rest ensures Before(less, next[i], w) {
      assert multiset(s)[w] > 0;
      if i < |done| {
        assert done[i] == next[i];
      }
    }
  }

  /** What a drain delivers is the stable sort of the buffer by priority: `buffer` lists what waits in
      order of submission. */
  lemma DrainIsStableSort<T(!new)>(less: (T, T) -> bool, rest: seq<Entry<T>>, buffer: seq<Entry<T>>)
    requires StrictWeakOrder(less) && InOrder(less, rest) && multiset(rest) == multiset(buffer) && BySubmission(buffer)
    ensures rest == StableSort(less, buffer)
  {
    StableSortOrdered(less, buffer);
    StableSortKeeps(less, buffer);
    OrderIsUnique(less, rest, StableSort(less, buffer));
  }

  lemma AcceptKeepsTurns<T(!new)>(less: (T, T) -> bool, values: seq<T>, delivered: seq<Entry<T>>, s: seq<Entry<T>>, t: seq<Entry<T>>, v: T)
    requires multiset(Submitted(values)) == multiset(delivered) + multiset(s) && NoneOvertaken(less, delivered, multiset(s))
    requires multiset(t) == multiset(s) + multiset{Entry(v, |values| + 1)}
    ensures multiset(Submitted(values + [v])) == multiset(delivered) + multiset(t)
    ensures NoneOvertaken(less, delivered, multiset(t)) && |t| == |s| + 1
  {
    SubmittedNext(values, v);
    assert |t| == |multiset(t)| && |s| == |multiset(s)|;
    var e := Entry(v, |values| + 1);
    forall i, w {:trigger delivered[i], multiset(t)[w]} | 0 <= i < |delivered| && w in multiset(t) && EqualPriority(less, delivered[i].value, w.value)
      ensures delivered[i].seqNo < w.seqNo {
      assert delivered[i] in multiset(delivered);
      SubmittedNumber(values, delivered[i]);
      if w != e {
        assert multiset(s)[w] > 0;
      }
    }
  }

  lemma DeliverKeepsTurns<T(!new)>(less: (T, T) -> bool, delivered: seq<Entry<T>>, s: seq<Entry<T>>, rest: multiset<Entry<T>>, e: Entry<T>)
    requires FifoAmongEquals(less, delivered) && NoneOvertaken(less, delivered, multiset(s))
    requires multiset(s) == rest + multiset{e}
    requires forall w {:trigger rest[w]} :: w in rest ==> Before(less, e, w)
    ensures FifoAmongEquals(less, delivered + [e]) && NoneOvertaken(less, delivered + [e], rest)
  {
    var d := delivered + [e];
    forall i, j {:trigger d[i], d[j]} | 0 <= i < j < |d| && EqualPriority(less, d[i].value, d[j].value)
      ensures d[i].seqNo < d[j].seqNo {
      if j == |delivered| {
        assert e in multiset(s) && multiset(s)[e] > 0;
        assert d[i] == delivered[i];
      }
    }
    forall i, w {:trigger d[i], rest[w]} | 0 <= i < |d| && w in rest && EqualPriority(less, d[i].value, w.value)
      ensures d[i].seqNo < w.seqNo {
      if i < |delivered| {
        assert multiset(s)[w] > 0 && d[i] == delivered[i];
      }
    }
  }
}
