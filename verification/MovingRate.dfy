/** The sliding window of the retry budget: a bounded list of bucket counts, and what it counts. Times are
    nanoseconds since the zero time; every clock reading is an input. */
module MovingRate {
  import opened RateLog
  import opened RateWindow

  function Sum(counts: seq<int>): int {
    if counts == [] then 0 else Sum(counts[..|counts| - 1]) + counts[|counts| - 1]
  }

  /** Where a clock reading t stands with respect to an earlier one. */
  lemma BucketsBetween(was: int, t: int, d: int)
    requires d > 0 && was <= t
    ensures was / d <= t / d
    ensures RoundDown(t, d) <= was ==> was / d == t / d
    ensures RoundDown(t, d) > was ==> (RoundDown(t, d) - RoundDown(was, d)) / d == t / d - was / d > 0
  {
    RoundDownIsFloor(t, d);
    RoundDownIsFloor(was, d);
    DivMonotone(was, t, d);
    var a, b := was / d, t / d;
    assert d * b - d * a == d * (b - a);
    DivUnique(d * (b - a), d, b - a, 0);
    if d * b <= was {
      DivUnique(d * b, d, b, 0);
      DivMonotone(d * b, was, d);
    }
  }

  /** The last bucket holds the sum of the events of time bucket `last`, each one before it the sum of
      the time bucket before. */
  ghost predicate Agrees(counts: seq<int>, log: seq<Event>, L: int, last: int)
    requires L > 0
  {
    forall i {:trigger counts[i]} :: 0 <= i < |counts| ==>
      counts[i] == InBuckets(log, L, last - (|counts| - 1 - i), last - (|counts| - 1 - i))
  }

  /** counts is was with n empty buckets opened behind it and as many as needed dropped in front. */
  ghost predicate Shifted(was: seq<int>, counts: seq<int>, n: int) {
    && |counts| <= |was| + n
    && forall i {:trigger counts[i]} :: 0 <= i < |counts| ==>
         var j := i + |was| + n - |counts|;
         counts[i] == if j >= |was| then 0 else was[j]
  }

  /** Shifting by as many buckets as have passed keeps the agreement, however far the jump. */
  lemma ShiftAgrees(was: seq<int>, counts: seq<int>, log: seq<Event>, L: int, t0: int, n: int)
    requires L > 0 && n > 0 && UpTo(log, t0) && Agrees(was, log, L, t0 / L) && Shifted(was, counts, n)
    ensures Agrees(counts, log, L, t0 / L + n)
  {
    forall i {:trigger counts[i]} | 0 <= i < |counts|
      ensures counts[i] == InBuckets(log, L, t0 / L + n - (|counts| - 1 - i), t0 / L + n - (|counts| - 1 - i)) {
      var j := i + |was| + n - |counts|;
      if j >= |was| {
        NothingLater(log, L, t0, t0 / L + n - (|counts| - 1 - i), t0 / L + n - (|counts| - 1 - i));
      } else {
        assert was[j] == InBuckets(log, L, t0 / L - (|was| - 1 - j), t0 / L - (|was| - 1 - j));
        assert t0 / L - (|was| - 1 - j) == t0 / L + n - (|counts| - 1 - i);
      }
    }
  }

  /** Counting n more in the last bucket records an event of the last time bucket. */
  lemma AddAgrees(was: seq<Event>, before: seq<int>, L: int, t: int, n: int)
    requires L > 0 && before != [] && Agrees(before, was, L, t / L)
    ensures Agrees(before[|before| - 1 := before[|before| - 1] + n], was + [Event(t, n)], L, t / L)
  {
    var log := was + [Event(t, n)];
    var counts := before[|before| - 1 := before[|before| - 1] + n];
    assert log[..|log| - 1] == was;
    forall i {:trigger counts[i]} | 0 <= i < |counts|
      ensures counts[i] == InBuckets(log, L, t / L - (|counts| - 1 - i), t / L - (|counts| - 1 - i)) {
      assert before[i] == InBuckets(was, L, t / L - (|counts| - 1 - i), t / L - (|counts| - 1 - i));
    }
  }

  lemma {:induction false} SumIsRange(counts: seq<int>, log: seq<Event>, L: int, last: int, m: nat)
    requires L > 0 && Agrees(counts, log, L, last) && m <= |counts|
    ensures Sum(counts[..m]) == InBuckets(log, L, last - |counts| + 1, last - |counts| + m)
  {
    if m == 0 {
      EmptyRange(log, L, last - |counts| + 1);
    } else {
      SumIsRange(counts, log, L, last, m - 1);
      assert counts[..m][..m - 1] == counts[..m - 1];
      assert counts[m - 1] == InBuckets(log, L, last - |counts| + m, last - |counts| + m);
      OneMoreAtEnd(log, L, last - |counts| + 1, last - |counts| + m - 1);
    }
  }

  lemma {:induction false} EmptyRange(log: seq<Event>, L: int, a: int)
    requires L > 0
    ensures InBuckets(log, L, a, a - 1) == 0
  {
    if log != [] {
      EmptyRange(log[..|log| - 1], L, a);
    }
  }

  /** The loops of count. */
  method Total(counts: seq<int>) returns (c: real)
    ensures c == Sum(counts) as real
  {
    c := 0.0;
    for i := 0 to |counts|
      invariant c == Sum(counts[..i]) as real
    {
      assert counts[..i + 1][..i] == counts[..i];
      c := c + counts[i] as real;
    }
    assert counts[..|counts|] == counts;
  }

  /** A call of Add or Rate at some clock reading. */
  datatype Call = AddCall(t: int, n: int) | RateCall(t: int)

  /** The latest clock reading so far. */
  function Latest(calls: seq<Call>): int {
    if calls == [] then 0
    else
      var before, t := Latest(calls[..|calls| - 1]), calls[|calls| - 1].t;
      if t >= before then t else before
  }

  /** The events of the Add calls that were not overtaken by a later clock reading. */
  function Accepted(calls: seq<Call>): seq<Event> {
    if calls == [] then []
    else
      var f, c := calls[..|calls| - 1], calls[|calls| - 1];
      if c.AddCall? && c.t >= Latest(f) then Accepted(f) + [Event(c.t, c.n)] else Accepted(f)
  }

  lemma {:induction false} LatestIs(calls: seq<Call>)
    requires forall i :: 0 <= i < |calls| ==> calls[i].t > 0
    ensures forall i {:trigger calls[i]} :: 0 <= i < |calls| ==> calls[i].t <= Latest(calls)
    ensures calls != [] ==> exists i :: 0 <= i < |calls| && calls[i].t == Latest(calls)
    ensures calls == [] ==> Latest(calls) == 0
  {
    if calls != [] {
      var f := calls[..|calls| - 1];
      LatestIs(f);
      forall i {:trigger calls[i]} | 0 <= i < |f| ensures calls[i].t <= Latest(calls) {
        assert f[i] == calls[i];
      }
      if f == [] {
        assert calls[0].t == Latest(calls);
      } else {
        var i :| 0 <= i < |f| && f[i].t == Latest(f);
        assert calls[i].t == Latest(f);
      }
    }
  }

  /** A call of Add is accepted exactly if no earlier call read a later time; its event then comes last so far. */
  lemma AcceptedNext(calls: seq<Call>, i: nat)
    requires i < |calls| && forall j :: 0 <= j < |calls| ==> calls[j].t > 0
    ensures Accepted(calls[..i + 1])
         == Accepted(calls[..i])
            + if calls[i].AddCall? && forall j :: 0 <= j < i ==> calls[j].t <= calls[i].t then [Event(calls[i].t, calls[i].n)] else []
  {
    var f := calls[..i];
    assert calls[..i + 1][..i] == f;
    LatestIs(f);
    if f != [] {
      var k :| 0 <= k < |f| && f[k].t == Latest(f);
      assert f[k] == calls[k];
    }
    assert forall j :: 0 <= j < i ==> calls[j] == f[j];
  }

  class MovingRate {
    const bucketLength: int
    const bucketNum: int
    var counts: seq<int>
    var lastUpdate: int
    ghost var log: seq<Event>   // the accepted events
    ghost var first: int        // the time of the first update

    constructor (bucketLength: int, bucketNum: int)
      requires bucketLength > 0 && bucketNum > 0
      ensures this.bucketLength == bucketLength && this.bucketNum == bucketNum
      ensures Valid() && View() == Window([], 0, 0)
    {
      this.bucketLength, this.bucketNum := bucketLength, bucketNum;
      counts, lastUpdate, log, first := [], 0, [], 0;
    }

    function Bucket(t: int): int
      requires bucketLength > 0
    {
      t / bucketLength
    }

    /** What the buckets stand for. */
    ghost function View(): Window
      reads this
    {
      Window(log, first, lastUpdate)
    }

    /** Bucket k from the end counts exactly the accepted events of the k-th last time bucket; there are
        as many buckets as have begun since the first update, but not more than bucketNum + 1. */
    ghost predicate Valid()
      reads this
    {
      && bucketLength > 0 && bucketNum > 0 && View().Valid()
      && (lastUpdate == 0 ==> counts == [] && first == 0)
      && (lastUpdate != 0 ==> |counts| == Length(Bucket(lastUpdate) - Bucket(first)))
      && Agrees(counts, log, bucketLength, Bucket(lastUpdate))
    }

    function Length(elapsed: int): int {
      if elapsed >= bucketNum then bucketNum + 1 else elapsed + 1
    }

    /** Opens n new empty buckets at the end and drops what falls out of the window at the front. */
    method Shift(n0: int)
      requires bucketLength > 0 && bucketNum > 0 && n0 > 0
      modifies this`counts, this`lastUpdate
      ensures |counts| == (if |old(counts)| + n0 >= bucketNum + 1 then bucketNum + 1 else |old(counts)| + n0)
      ensures Shifted(old(counts), counts, n0)
    {
      var n := n0;
      if n > bucketNum + 1 {
        n := bucketNum + 1;
      }
      counts := counts + seq(n, _ => 0);
      var del := |counts| - (bucketNum + 1);
      if del > 0 {
        counts := counts[del..];
      }
      lastUpdate := RoundDown(lastUpdate, bucketLength) + n * bucketLength;
    }

    /** Advances the window to time t. The source's panic for a step of no buckets cannot happen. */
    method Forward(t: int)
      requires Valid() && t > 0 && t >= lastUpdate
      modifies this
      ensures Valid() && counts != [] && View() == old(View()).Moved(t)
      ensures old(lastUpdate) == t ==> counts == old(counts)
    {
      if lastUpdate == 0 {
        counts := [0];
        first := t;
        lastUpdate := t;
        return;
      }
      var rt := RoundDown(t, bucketLength);
      BucketsBetween(lastUpdate, t, bucketLength);
      BucketsBetween(first, lastUpdate, bucketLength);
      if rt <= lastUpdate {
        lastUpdate := t;
        return;
      }
      var n := (rt - RoundDown(lastUpdate, bucketLength)) / bucketLength;
      assert n > 0;
      Shift(n);
      ShiftAgrees(old(counts), counts, log, bucketLength, old(lastUpdate), n);
      lastUpdate := t;
    }

    /** n events at time t; events before the last update are ignored. */
    method Add(t: int, n: int)
      requires Valid() && t > 0
      modifies this
      ensures Valid() && View() == old(View()).Counted(t, n)
      ensures n >= 0 && NonNegative(old(log)) ==> NonNegative(log)
      ensures t < old(lastUpdate) ==> unchanged(this)
    {
      if t < lastUpdate {
        return;
      }
      Forward(t);
      AddAgrees(log, counts, bucketLength, t, n);
      RecordedValid(View(), n);
      counts := counts[|counts| - 1 := counts[|counts| - 1] + n];
      log := log + [Event(t, n)];
    }

    /** The buckets hold what the window's estimate is made of. */
    lemma BucketsHold()
      requires Valid() && counts != []
      ensures |counts| > bucketNum <==> View().Full(bucketLength, bucketNum)
      ensures |counts| <= bucketNum ==> Sum(counts) as real == View().Estimate(bucketLength, bucketNum)
      ensures |counts| > bucketNum ==> counts[0] == View().Oldest(bucketLength, bucketNum)
      ensures |counts| > bucketNum ==> Sum(counts[1..]) == View().Newer(bucketLength, bucketNum)
    {
      var b, L := Bucket(lastUpdate), bucketLength;
      DivMonotone(first, lastUpdate, L);
      if |counts| <= bucketNum {
        SumIsRange(counts, log, L, b, |counts|);
        assert counts[..|counts|] == counts;
      } else {
        var rest := counts[1..];
        assert Agrees(rest, log, L, b);
        SumIsRange(rest, log, L, b, |rest|);
        assert rest[..|rest|] == rest;
        assert counts[0] == InBuckets(log, L, b - bucketNum, b - bucketNum);
      }
    }

    /** The number of events in the window, the oldest bucket counted in part. */
    method Count() returns (c: real)
      requires Valid() && counts != []
      ensures c == View().Estimate(bucketLength, bucketNum)
    {
      BucketsHold();
      if |counts| <= bucketNum {
        c := Total(counts);
        return;
      }
      c := Total(counts[1..]);
      c := OpenFraction(lastUpdate, bucketLength) * counts[0] as real + c;
    }

    /** The seconds the window covers. */
    function Seconds(): (s: real)
      requires Valid()
      reads this
      ensures s == if counts == [] then 0.0 else View().Seconds(bucketLength, bucketNum)
    {
      if counts == [] then 0.0
      else
        DivMonotone(first, lastUpdate, bucketLength);
        RoundDownIsFloor(first, bucketLength);
        RoundDownIsFloor(lastUpdate, bucketLength);
        if |counts| <= bucketNum then
          BucketSpan(Bucket(first), Bucket(lastUpdate), bucketLength);
          (((|counts| - 1) * bucketLength) + (lastUpdate - RoundDown(lastUpdate, bucketLength))) as real / SECOND as real
        else
          (bucketNum * bucketLength) as real / SECOND as real
    }

    /** Events per second at time t; NaN for a time before the last update. */
    method Rate(t: int) returns (rate: Float)
      requires Valid() && t > 0
      modifies this
      ensures Valid() && View() == old(View()).Moved(t) && log == old(log)
      ensures rate == old(View()).RateAt(t, bucketLength, bucketNum)
      ensures t < old(lastUpdate) ==> unchanged(this)
    {
      if t < lastUpdate {
        return NaN;
      }
      Forward(t);
      var c := Count();
      rate := Quotient(Num(c), Num(Seconds()));
    }
  }

  lemma RecordedValid(w: Window, n: int)
    requires w.Valid() && w.last > 0
    ensures w.(log := w.log + [Event(w.last, n)]).Valid()
    ensures n >= 0 && NonNegative(w.log) ==> NonNegative(w.log + [Event(w.last, n)])
  {
  }

  lemma BucketSpan(a: int, b: int, L: int)
    ensures (b - a) * L + L * a == L * b
  {
  }

  /** Any run of calls on a new window, whatever the clock does: the buckets agree with the events
      accepted so far, the window began at the first call, and the panic is never reached. */
  method RunCalls(bucketLength: int, bucketNum: int, calls: seq<Call>) returns (m: MovingRate)
    requires bucketLength > 0 && bucketNum > 0 && forall i :: 0 <= i < |calls| ==> calls[i].t > 0
    ensures m.Valid() && m.log == Accepted(calls) && m.lastUpdate == Latest(calls)
    ensures calls != [] ==> m.first == calls[0].t
  {
    m := new MovingRate(bucketLength, bucketNum);
    for i := 0 to |calls|
      invariant fresh(m) && m.Valid() && m.log == Accepted(calls[..i]) && m.lastUpdate == Latest(calls[..i])
      invariant i > 0 ==> m.first == calls[0].t && m.lastUpdate > 0
      invariant i == 0 ==> m.lastUpdate == 0
    {
      assert calls[..i + 1][..i] == calls[..i];
      match calls[i] {
        case AddCall(t, n) => m.Add(t, n);
        case RateCall(t) => var _ := m.Rate(t);
      }
    }
    assert calls[..|calls|] == calls;
  }
}
