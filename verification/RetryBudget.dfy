/** The retry budget: initial calls always pass, retries only while they are few in proportion. */
module RetryBudget {
  import opened RateLog
  import opened RateWindow
  import opened MovingRate

  const BUCKETS := 60

  /** Whether the budget refuses a retry at the two rates. */
  predicate Exhausted(rate: real, ratio: real, initial: Float, retried: Float) {
    Above(initial, rate) && Above(Quotient(retried, initial), ratio)
  }

  /** When the budget refuses, in terms of the estimated counts ei and er and the covered seconds si and sr: the
      initial rate must be above the threshold, and the retries above the ratio of the initial calls. */
  lemma ExhaustedExactly(rate: real, ratio: real, ei: real, si: real, er: real, sr: real)
    requires ei >= 0.0 && si >= 0.0 && er >= 0.0 && sr >= 0.0
    ensures Refuses(rate, ratio, ei, si, er, sr) == Exhausted(rate, ratio, Quotient(Num(ei), Num(si)), Quotient(Num(er), Num(sr)))
  {
    if si > 0.0 {
      Divided(ei, si, rate);
      if sr > 0.0 && ei > 0.0 {
        RatioOfQuotients(ei, si, er, sr, ratio);
      } else if sr > 0.0 {
        Divided(er, sr, 0.0);
      }
    }
  }

  /** The budget's rule without divisions. With no time covered by the initial calls their rate is infinite,
      and no finite ratio to it is exceeded unless `ratio` is negative; with no initial calls any retry exceeds
      the ratio; with no time covered by the retries any retry does. */
  predicate Refuses(rate: real, ratio: real, ei: real, si: real, er: real, sr: real) {
    if si == 0.0 then ei > 0.0 && sr > 0.0 && ratio < 0.0
    else if ei <= rate * si then false
    else if sr == 0.0 || ei == 0.0 then er > 0.0
    else er * si > ratio * (ei * sr)
  }

  lemma Divided(e: real, s: real, x: real)
    requires s > 0.0
    ensures e / s > x <==> e > x * s
  {
    var q := e / s;
    assert e == q * s;
    if q > x {
      StrictlyMore(x, q, s);
    } else {
      MulMonotone(q, x, s);
    }
  }

  lemma StrictlyMore(a: real, b: real, c: real)
    requires a < b && c > 0.0
    ensures a * c < b * c
  {
  }

  lemma RatioOfQuotients(ei: real, si: real, er: real, sr: real, ratio: real)
    requires ei > 0.0 && si > 0.0 && er >= 0.0 && sr > 0.0
    ensures (er / sr) / (ei / si) > ratio <==> er * si > ratio * (ei * sr)
  {
    var x, y := ei / si, er / sr;
    assert ei == x * si && er == y * sr;
    Divided(ei, si, 0.0);
    Divided(y, x, ratio);
    Divided(y * (si * sr), si * sr, ratio * x);
    assert er * si == y * (si * sr) && ratio * (ei * sr) == ratio * x * (si * sr);
    Cancels(y, si * sr);
  }

  lemma Cancels(y: real, s: real)
    requires s > 0.0
    ensures y * s / s == y
  {
  }

  /** What a ratio of rates not above `ratio` says of the counts e over the seconds s. */
  lemma RatioBound(ei: real, si: real, er: real, sr: real, rate: real, ratio: real)
    requires ei >= 0.0 && si >= 0.0 && er >= 0.0 && sr >= 0.0 && rate >= 0.0
    requires Above(Quotient(Num(ei), Num(si)), rate)
    requires !Above(Quotient(Quotient(Num(er), Num(sr)), Quotient(Num(ei), Num(si))), ratio)
    ensures er * si <= ratio * (ei * sr)
    ensures ratio >= 0.0 || sr == 0.0
  {
    if si == 0.0 {
      assert ei > 0.0;
      if sr > 0.0 {
        assert ratio >= 0.0;
        Product(ratio, ei * sr);
      }
    } else if sr == 0.0 {
      assert er == 0.0;
    } else {
      CrossMultiplied(ei, si, er, sr, ratio);
    }
  }

  lemma CrossMultiplied(ei: real, si: real, er: real, sr: real, ratio: real)
    requires ei > 0.0 && si > 0.0 && er >= 0.0 && sr > 0.0 && (er / sr) / (ei / si) <= ratio
    ensures er * si <= ratio * (ei * sr) && ratio >= 0.0
  {
    var x, y := ei / si, er / sr;
    assert x > 0.0 && y >= 0.0 && ei == x * si && er == y * sr;
    var q := y / x;
    assert y == q * x && q >= 0.0;
    MulMonotone(q, ratio, x);
    MulMonotone(y, ratio * x, si * sr);
    assert er * si == y * (si * sr);
    assert ratio * (ei * sr) == ratio * x * (si * sr);
  }

  lemma MulMonotone(a: real, b: real, c: real)
    requires a <= b && c >= 0.0
    ensures a * c <= b * c
  {
  }

  /** Two windows under the default settings of the budget. */
  ghost predicate Counting(w: Window) {
    w.Valid() && w.last != 0 && NonNegative(w.log)
  }

  /** What an admitted retry leaves true, before it is counted itself: over the time that each window covers,
      the retries stay within the ratio of the initial calls, up to the oldest bucket of either window. */
  ghost predicate WithinRatio(ratio: real, i: Window, r: Window) {
    (r.TrueCount(SECOND, BUCKETS) - r.Oldest(SECOND, BUCKETS)) as real * i.Seconds(SECOND, BUCKETS)
    <= ratio * ((i.TrueCount(SECOND, BUCKETS) + i.Oldest(SECOND, BUCKETS)) as real * r.Seconds(SECOND, BUCKETS))
  }

  /** `ok` is the answer to a retry that follows from the estimated counts and the covered seconds. */
  ghost predicate InNumbers(rate: real, ratio: real, ei: real, si: real, er: real, sr: real, ok: bool) {
    && ei >= 0.0 && si >= 0.0 && er >= 0.0 && sr >= 0.0
    && (si > 0.0 && ei <= rate * si ==> ok)
    && (si > 0.0 && sr > 0.0 && ei > rate * si && ei > 0.0 ==> (ok <==> er * si <= ratio * (ei * sr)))
    && (si > 0.0 && (sr == 0.0 || ei == 0.0) && ei > rate * si ==> (ok <==> er == 0.0))
    && (si == 0.0 ==> (ok <==> ei == 0.0 || sr == 0.0 || ratio >= 0.0))
  }

  /** The rule on the windows that judge a retry: they refuse it exactly if the estimated initial calls exceed
      the threshold over the time covered, and the estimated retries exceed the ratio of the initial calls. */
  lemma RefusalInNumbers(rate: real, ratio: real, i: Window, r: Window, ok: bool)
    requires Counting(i) && Counting(r) && ok == !Exhausted(rate, ratio, i.Rate(SECOND, BUCKETS), r.Rate(SECOND, BUCKETS))
    ensures InNumbers(rate, ratio, i.Estimate(SECOND, BUCKETS), i.Seconds(SECOND, BUCKETS),
                      r.Estimate(SECOND, BUCKETS), r.Seconds(SECOND, BUCKETS), ok)
  {
    i.EstimateClose(SECOND, BUCKETS);
    r.EstimateClose(SECOND, BUCKETS);
    i.SecondsCovered(SECOND, BUCKETS);
    r.SecondsCovered(SECOND, BUCKETS);
    var ei, si, er, sr := i.Estimate(SECOND, BUCKETS), i.Seconds(SECOND, BUCKETS), r.Estimate(SECOND, BUCKETS), r.Seconds(SECOND, BUCKETS);
    ExhaustedExactly(rate, ratio, ei, si, er, sr);
  }

  /** What a window's rate is the quotient of, and the bounds on the truth. */
  lemma RateOf(w: Window) returns (e: real, s: real, lo: real, hi: real)
    requires Counting(w)
    ensures w.Rate(SECOND, BUCKETS) == Quotient(Num(e), Num(s)) && s == w.Seconds(SECOND, BUCKETS) && s >= 0.0
    ensures lo == (w.TrueCount(SECOND, BUCKETS) - w.Oldest(SECOND, BUCKETS)) as real
    ensures hi == (w.TrueCount(SECOND, BUCKETS) + w.Oldest(SECOND, BUCKETS)) as real
    ensures lo <= e <= hi && e >= 0.0
  {
    w.EstimateClose(SECOND, BUCKETS);
    w.SecondsCovered(SECOND, BUCKETS);
    e, s := w.Estimate(SECOND, BUCKETS), w.Seconds(SECOND, BUCKETS);
    lo := (w.TrueCount(SECOND, BUCKETS) - w.Oldest(SECOND, BUCKETS)) as real;
    hi := (w.TrueCount(SECOND, BUCKETS) + w.Oldest(SECOND, BUCKETS)) as real;
  }

  /** A retry that is admitted although the initial rate is above the threshold is within the ratio. */
  lemma AdmittedWithinRatio(rate: real, ratio: real, i: Window, r: Window)
    requires Counting(i) && Counting(r) && rate >= 0.0 && Above(i.Rate(SECOND, BUCKETS), rate)
    requires !Exhausted(rate, ratio, i.Rate(SECOND, BUCKETS), r.Rate(SECOND, BUCKETS))
    ensures WithinRatio(ratio, i, r)
  {
    var ei, si, low, hi := RateOf(i);
    var er, sr, lo, high := RateOf(r);
    Judged(rate, ratio, i.Rate(SECOND, BUCKETS), r.Rate(SECOND, BUCKETS), ei, si, er, sr, hi, lo);
    Restated(ratio, i, r, lo, si, hi, sr);
  }

  lemma Restated(ratio: real, i: Window, r: Window, lo: real, si: real, hi: real, sr: real)
    requires lo == (r.TrueCount(SECOND, BUCKETS) - r.Oldest(SECOND, BUCKETS)) as real && si == i.Seconds(SECOND, BUCKETS)
    requires hi == (i.TrueCount(SECOND, BUCKETS) + i.Oldest(SECOND, BUCKETS)) as real && sr == r.Seconds(SECOND, BUCKETS)
    requires lo * si <= ratio * (hi * sr)
    ensures WithinRatio(ratio, i, r)
  {
  }

  lemma Judged(rate: real, ratio: real, initial: Float, retried: Float,
               ei: real, si: real, er: real, sr: real, hi: real, lo: real)
    requires initial == Quotient(Num(ei), Num(si)) && retried == Quotient(Num(er), Num(sr))
    requires Above(initial, rate) && !Exhausted(rate, ratio, initial, retried)
    requires 0.0 <= ei <= hi && si >= 0.0 && er >= 0.0 && lo <= er && sr >= 0.0 && rate >= 0.0
    ensures lo * si <= ratio * (hi * sr)
  {
    Widened(rate, ratio, ei, si, er, sr, hi, lo);
  }

  /** The estimates replaced by bounds for them. */
  lemma Widened(rate: real, ratio: real, ei: real, si: real, er: real, sr: real, hi: real, lo: real)
    requires 0.0 <= ei <= hi && si >= 0.0 && er >= 0.0 && lo <= er && sr >= 0.0 && rate >= 0.0
    requires Above(Quotient(Num(ei), Num(si)), rate)
    requires !Above(Quotient(Quotient(Num(er), Num(sr)), Quotient(Num(ei), Num(si))), ratio)
    ensures lo * si <= ratio * (hi * sr)
  {
    RatioBound(ei, si, er, sr, rate, ratio);
    WidenedProducts(ratio, ei, si, er, sr, hi, lo);
  }

  lemma WidenedProducts(ratio: real, ei: real, si: real, er: real, sr: real, hi: real, lo: real)
    requires ei <= hi && si >= 0.0 && lo <= er && sr >= 0.0 && (ratio >= 0.0 || sr == 0.0)
    requires er * si <= ratio * (ei * sr)
    ensures lo * si <= ratio * (hi * sr)
  {
    MulMonotone(lo, er, si);
    MulMonotone(ei, hi, sr);
    var p, q := ei * sr, hi * sr;
    if ratio >= 0.0 {
      MulMonotone(p, q, ratio);
      assert ratio * p == p * ratio && ratio * q == q * ratio;
    } else {
      assert p == 0.0 && q == 0.0;
    }
  }

  /** With both windows full the times cancel out: this is the promised ratio of the counts themselves. */
  lemma FullWindowsRatio(ratio: real, i: Window, r: Window)
    requires i.Full(SECOND, BUCKETS) && r.Full(SECOND, BUCKETS)
    ensures WithinRatio(ratio, i, r) <==>
              (r.TrueCount(SECOND, BUCKETS) - r.Oldest(SECOND, BUCKETS)) as real
              <= ratio * (i.TrueCount(SECOND, BUCKETS) + i.Oldest(SECOND, BUCKETS)) as real
  {
    var s := i.Seconds(SECOND, BUCKETS);
    assert s == r.Seconds(SECOND, BUCKETS) == 60.0;
    Cancelled((r.TrueCount(SECOND, BUCKETS) - r.Oldest(SECOND, BUCKETS)) as real,
              (i.TrueCount(SECOND, BUCKETS) + i.Oldest(SECOND, BUCKETS)) as real, ratio);
  }

  lemma Cancelled(a: real, b: real, ratio: real)
    ensures a * 60.0 <= ratio * (b * 60.0) <==> a <= ratio * b
  {
    assert ratio * (b * 60.0) == (ratio * b) * 60.0;
  }

  // ---- the budget's decisions, one after the other ---------------------------------------------

  /** The two windows of a budget. */
  datatype Account = Account(initial: Window, retried: Window)

  datatype Request = Request(isRetry: bool, now: int)

  const UNUSED := Window([], 0, 0)

  predicate Admits(rate: real, ratio: real, a: Account, c: Request) {
    !c.isRetry || !Exhausted(rate, ratio, a.initial.RateAt(c.now, SECOND, BUCKETS), a.retried.RateAt(c.now, SECOND, BUCKETS))
  }

  /** An initial call is counted. A retry uses both windows, and is counted if it is admitted. */
  function Charge(a: Account, c: Request, ok: bool): Account {
    if !c.isRetry then a.(initial := a.initial.Counted(c.now, 1))
    else Account(a.initial.Moved(c.now), if ok then a.retried.Counted(c.now, 1) else a.retried.Moved(c.now))
  }

  function Charged(rate: real, ratio: real, a: Account, c: Request): Account {
    Charge(a, c, Admits(rate, ratio, a, c))
  }

  function After(rate: real, ratio: real, calls: seq<Request>): Account {
    if calls == [] then Account(UNUSED, UNUSED)
    else Charged(rate, ratio, After(rate, ratio, calls[..|calls| - 1]), calls[|calls| - 1])
  }

  /** The initial calls of a run. */
  function Initials(calls: seq<Request>): seq<Event> {
    if calls == [] then []
    else
      var before, c := Initials(calls[..|calls| - 1]), calls[|calls| - 1];
      if c.isRetry then before else before + [Event(c.now, 1)]
  }

  /** The retries of a run that were let through, oks being the answers. */
  function Retries(calls: seq<Request>, oks: seq<bool>): seq<Event>
    requires |oks| == |calls|
  {
    if calls == [] then []
    else
      var c, n := calls[|calls| - 1], |calls| - 1;
      if c.isRetry && oks[n] then Retries(calls[..n], oks[..n]) + [Event(c.now, 1)] else Retries(calls[..n], oks[..n])
  }

  /** The time of the first retry, 0 if there is none. */
  function FirstRetry(calls: seq<Request>): int {
    if calls == [] then 0
    else
      var before := FirstRetry(calls[..|calls| - 1]);
      if before == 0 && calls[|calls| - 1].isRetry then calls[|calls| - 1].now else before
  }

  /** The clock of a run never goes backwards. */
  ghost predicate Forwards(calls: seq<Request>) {
    && (forall j :: 0 <= j < |calls| ==> calls[j].now > 0)
    && forall j, k :: 0 <= j < k < |calls| ==> calls[j].now <= calls[k].now
  }

  /** The answer to call j of a run. */
  predicate Answer(rate: real, ratio: real, calls: seq<Request>, j: nat)
    requires j < |calls|
  {
    Admits(rate, ratio, After(rate, ratio, calls[..j]), calls[j])
  }

  /** The answers a budget gives in a run. */
  ghost predicate Answers(rate: real, ratio: real, calls: seq<Request>, oks: seq<bool>) {
    && |oks| == |calls|
    && forall j {:trigger oks[j]} :: 0 <= j < |calls| ==> oks[j] == Answer(rate, ratio, calls, j)
  }

  /** The window of the initial calls before calls[j], and that of the admitted retries before it, at its time. */
  function InitialWindow(calls: seq<Request>, j: nat): Window
    requires j < |calls|
  {
    Window(Initials(calls[..j]), calls[0].now, calls[j].now)
  }

  function RetryWindow(calls: seq<Request>, oks: seq<bool>, j: nat): Window
    requires j < |calls| == |oks|
  {
    Window(Retries(calls[..j], oks[..j]), FirstRetry(calls[..j + 1]), calls[j].now)
  }

  /** The window of the initial calls, which every call uses. */
  ghost predicate HoldsInitials(w: Window, calls: seq<Request>) {
    && w == (if calls == [] then UNUSED else Window(Initials(calls), calls[0].now, calls[|calls| - 1].now))
    && w.Valid() && NonNegative(w.log) && (calls != [] ==> w.last > 0)
  }

  /** The window of the admitted retries, which only retries use. */
  ghost predicate HoldsRetries(w: Window, calls: seq<Request>, oks: seq<bool>)
    requires |oks| == |calls|
  {
    && w.log == Retries(calls, oks) && w.first == FirstRetry(calls) && (w.last == 0 <==> FirstRetry(calls) == 0)
    && w.last <= (if calls == [] then 0 else calls[|calls| - 1].now)
    && w.Valid() && NonNegative(w.log)
  }

  /** The account holds all initial calls and all admitted retries of a run. */
  ghost predicate Holds(a: Account, calls: seq<Request>, oks: seq<bool>)
    requires |oks| == |calls|
  {
    HoldsInitials(a.initial, calls) && HoldsRetries(a.retried, calls, oks)
  }

  lemma InitialsNext(w: Window, was: seq<Request>, c: Request)
    requires HoldsInitials(w, was) && c.now > 0 && (was != [] ==> was[|was| - 1].now <= c.now)
    ensures HoldsInitials(if c.isRetry then w.Moved(c.now) else w.Counted(c.now, 1), was + [c])
  {
    assert (was + [c])[..|was|] == was;
    assert was != [] ==> (was + [c])[0] == was[0];
  }

  lemma RetriesNext(w: Window, was: seq<Request>, oks: seq<bool>, c: Request, ok: bool)
    requires |oks| == |was| && HoldsRetries(w, was, oks) && c.now > 0 && (was != [] ==> was[|was| - 1].now <= c.now)
    ensures HoldsRetries(if !c.isRetry then w else if ok then w.Counted(c.now, 1) else w.Moved(c.now), was + [c], oks + [ok])
  {
    assert (was + [c])[..|was|] == was && (oks + [ok])[..|was|] == oks;
  }

  lemma HoldsNext(a: Account, calls: seq<Request>, oks: seq<bool>, k: nat)
    requires |oks| == |calls| && k < |calls| && Forwards(calls) && Holds(a, calls[..k], oks[..k])
    ensures Holds(Charge(a, calls[k], oks[k]), calls[..k + 1], oks[..k + 1])
  {
    assert calls[..k + 1] == calls[..k] + [calls[k]] && oks[..k + 1] == oks[..k] + [oks[k]];
    InitialsNext(a.initial, calls[..k], calls[k]);
    RetriesNext(a.retried, calls[..k], oks[..k], calls[k], oks[k]);
  }

  /** One answer leads from one account to the next. */
  lemma AfterNext(rate: real, ratio: real, calls: seq<Request>, oks: seq<bool>, j: nat)
    requires Answers(rate, ratio, calls, oks) && j < |calls|
    ensures oks[j] == Admits(rate, ratio, After(rate, ratio, calls[..j]), calls[j])
    ensures After(rate, ratio, calls[..j + 1]) == Charge(After(rate, ratio, calls[..j]), calls[j], oks[j])
  {
    assert calls[..j + 1][..j] == calls[..j];
  }

  /** While the clock does not go backwards, the windows hold all initial calls and all admitted retries. */
  lemma WindowsHold(rate: real, ratio: real, calls: seq<Request>, oks: seq<bool>, j: nat)
    requires Forwards(calls) && Answers(rate, ratio, calls, oks) && j <= |calls|
    ensures Holds(After(rate, ratio, calls[..j]), calls[..j], oks[..j])
  {
    var k := 0;
    assert calls[..0] == [] && oks[..0] == [];
    while k < j
      invariant k <= j && Holds(After(rate, ratio, calls[..k]), calls[..k], oks[..k])
    {
      AfterNext(rate, ratio, calls, oks, k);
      HoldsNext(After(rate, ratio, calls[..k]), calls, oks, k);
      k := k + 1;
    }
  }

  /** The windows that judge calls[j], taken from what the account holds. */
  lemma WindowsAt(a: Account, calls: seq<Request>, oks: seq<bool>, j: nat)
    requires |oks| == |calls| && j < |calls| && calls[j].isRetry && Forwards(calls) && Holds(a, calls[..j], oks[..j])
    ensures a.initial.Moved(calls[j].now) == InitialWindow(calls, j) && a.initial.last <= calls[j].now
    ensures a.retried.Moved(calls[j].now) == RetryWindow(calls, oks, j) && a.retried.last <= calls[j].now
    ensures Counting(InitialWindow(calls, j)) && Counting(RetryWindow(calls, oks, j))
  {
    assert calls[..j + 1][..j] == calls[..j];
    assert j > 0 ==> calls[..j][0] == calls[0] && calls[..j][j - 1].now <= calls[j].now;
  }

  /** Safety over a whole run: a retry is let through exactly if the rates of all initial calls and of all
      retries let through before it allow it; and if the initial rate is above the threshold, it is then
      within the ratio. */
  lemma EveryRetryWithinRatio(rate: real, ratio: real, calls: seq<Request>, oks: seq<bool>, j: nat)
    requires Forwards(calls) && Answers(rate, ratio, calls, oks) && j < |calls| && calls[j].isRetry
    ensures var i, r := InitialWindow(calls, j), RetryWindow(calls, oks, j);
            && oks[j] == !Exhausted(rate, ratio, i.Rate(SECOND, BUCKETS), r.Rate(SECOND, BUCKETS))
            && (oks[j] && rate >= 0.0 && Above(i.Rate(SECOND, BUCKETS), rate) ==> WithinRatio(ratio, i, r))
    ensures var i, r := InitialWindow(calls, j), RetryWindow(calls, oks, j);
            var ei, si, er, sr := i.Estimate(SECOND, BUCKETS), i.Seconds(SECOND, BUCKETS), r.Estimate(SECOND, BUCKETS), r.Seconds(SECOND, BUCKETS);
            && ei >= 0.0 && si >= 0.0 && er >= 0.0 && sr >= 0.0
            && (si > 0.0 && ei <= rate * si ==> oks[j])
            && (si > 0.0 && sr > 0.0 && ei > rate * si && ei > 0.0 ==> (oks[j] <==> er * si <= ratio * (ei * sr)))
            && (si > 0.0 && (sr == 0.0 || ei == 0.0) && ei > rate * si ==> (oks[j] <==> er == 0.0))
            && (si == 0.0 ==> (oks[j] <==> ei == 0.0 || sr == 0.0 || ratio >= 0.0))
  {
    var i, r, a := InitialWindow(calls, j), RetryWindow(calls, oks, j), After(rate, ratio, calls[..j]);
    WindowsHold(rate, ratio, calls, oks, j);
    WindowsAt(a, calls, oks, j);
    AfterNext(rate, ratio, calls, oks, j);
    JudgedAt(rate, ratio, a, calls[j], i, r);
    RefusalInNumbers(rate, ratio, i, r, oks[j]);
  }

  lemma JudgedAt(rate: real, ratio: real, a: Account, c: Request, i: Window, r: Window)
    requires c.isRetry && a.initial.last <= c.now && a.retried.last <= c.now
    requires a.initial.Moved(c.now) == i && a.retried.Moved(c.now) == r && Counting(i) && Counting(r)
    ensures Admits(rate, ratio, a, c) == !Exhausted(rate, ratio, i.Rate(SECOND, BUCKETS), r.Rate(SECOND, BUCKETS))
    ensures Admits(rate, ratio, a, c) && rate >= 0.0 && Above(i.Rate(SECOND, BUCKETS), rate) ==> WithinRatio(ratio, i, r)
  {
    if Admits(rate, ratio, a, c) && rate >= 0.0 && Above(i.Rate(SECOND, BUCKETS), rate) {
      AdmittedWithinRatio(rate, ratio, i, r);
    }
  }

  // ---- the budget itself -----------------------------------------------------------------------

  class Budget {
    const rate: real
    const ratio: real
    var initialCalls: MovingRate?
    var retriedCalls: MovingRate?

    constructor (rate: real, ratio: real)
      ensures this.rate == rate && this.ratio == ratio && initialCalls == null && retriedCalls == null
    {
      this.rate, this.ratio := rate, ratio;
      initialCalls, retriedCalls := null, null;
    }

    ghost predicate Tracks(m: MovingRate)
      reads m
    {
      m.Valid() && m.bucketLength == SECOND && m.bucketNum == BUCKETS && NonNegative(m.log)
    }

    ghost predicate Valid()
      reads this, initialCalls, retriedCalls
    {
      && (initialCalls != null ==> Tracks(initialCalls))
      && (retriedCalls != null ==> Tracks(retriedCalls))
      && (initialCalls != null ==> initialCalls != retriedCalls)
    }

    ghost function View(m: MovingRate?): Window
      reads m
    {
      if m == null then UNUSED else m.View()
    }

    /** What the budget has counted. */
    ghost function State(): Account
      reads this, initialCalls, retriedCalls
    {
      Account(View(initialCalls), View(retriedCalls))
    }

    method EnsureTrackers()
      requires Valid()
      modifies this
      ensures Valid() && initialCalls != null && retriedCalls != null && State() == old(State())
      ensures if old(initialCalls) == null then fresh(initialCalls) else initialCalls == old(initialCalls)
      ensures if old(retriedCalls) == null then fresh(retriedCalls) else retriedCalls == old(retriedCalls)
    {
      if retriedCalls == null {
        retriedCalls := new MovingRate(SECOND, BUCKETS);
      }
      if initialCalls == null {
        initialCalls := new MovingRate(SECOND, BUCKETS);
      }
    }

    /** While the clock has not gone backwards and the initial rate is above the threshold, the retries
        counted so far are within the ratio. */
    ghost predicate Permitted(a: Account, now: int) {
      var i, r := a.initial.Moved(now), a.retried.Moved(now);
      a.initial.last <= now && a.retried.last <= now && rate >= 0.0 && Above(i.Rate(SECOND, BUCKETS), rate)
      ==> WithinRatio(ratio, i, r)
    }

    lemma PermittedIfAdmitted(a: Account, now: int)
      requires now > 0 && a.initial.Valid() && NonNegative(a.initial.log) && a.retried.Valid() && NonNegative(a.retried.log)
      ensures Admits(rate, ratio, a, Request(true, now)) ==> Permitted(a, now)
    {
      if a.initial.last <= now && a.retried.last <= now {
        JudgedAt(rate, ratio, a, Request(true, now), a.initial.Moved(now), a.retried.Moved(now));
      }
    }

    lemma RefusalWhenForward(a: Account, now: int, ok: bool)
      requires now > 0 && a.initial.Valid() && NonNegative(a.initial.log) && a.retried.Valid() && NonNegative(a.retried.log)
      requires ok == Admits(rate, ratio, a, Request(true, now))
      ensures now < a.initial.last || now < a.retried.last ==> ok
      ensures var i, r := a.initial.Moved(now), a.retried.Moved(now);
              var ei, si, er, sr := i.Estimate(SECOND, BUCKETS), i.Seconds(SECOND, BUCKETS), r.Estimate(SECOND, BUCKETS), r.Seconds(SECOND, BUCKETS);
              now >= a.initial.last && now >= a.retried.last ==> InNumbers(rate, ratio, ei, si, er, sr, ok)
    {
      if now >= a.initial.last && now >= a.retried.last {
        RefusalInNumbers(rate, ratio, a.initial.Moved(now), a.retried.Moved(now), ok);
      }
    }

    /** Decides on one call at time `now`. Initial calls are always allowed and counted. A retry is allowed
        and counted exactly if the budget is not exhausted at the two rates; it is then within the ratio. */
    method SendOK(isRetry: bool, now: int) returns (ok: bool)
      requires Valid() && now > 0
      modifies this, if initialCalls == null then {} else {initialCalls}, if retriedCalls == null then {} else {retriedCalls}
      ensures Valid() && initialCalls != null && retriedCalls != null
      ensures if old(initialCalls) == null then fresh(initialCalls) else initialCalls == old(initialCalls)
      ensures if old(retriedCalls) == null then fresh(retriedCalls) else retriedCalls == old(retriedCalls)
      ensures ok == Admits(rate, ratio, old(State()), Request(isRetry, now))
      ensures State() == Charged(rate, ratio, old(State()), Request(isRetry, now))
      ensures isRetry && ok ==> Permitted(old(State()), now)
      ensures !isRetry || now < old(State()).initial.last || now < old(State()).retried.last ==> ok
      ensures var i, r := old(State()).initial.Moved(now), old(State()).retried.Moved(now);
              var ei, si, er, sr := i.Estimate(SECOND, BUCKETS), i.Seconds(SECOND, BUCKETS), r.Estimate(SECOND, BUCKETS), r.Seconds(SECOND, BUCKETS);
              isRetry && now >= old(State()).initial.last && now >= old(State()).retried.last ==> InNumbers(rate, ratio, ei, si, er, sr, ok)
      ensures State().initial == if isRetry then old(State()).initial.Moved(now) else old(State()).initial.Counted(now, 1)
      ensures State().retried == if !isRetry then old(State()).retried
                                 else if ok then old(State()).retried.Counted(now, 1) else old(State()).retried.Moved(now)
    {
      if isRetry {
        PermittedIfAdmitted(State(), now);
      }
      ghost var was := State();
      EnsureTrackers();
      if !isRetry {
        initialCalls.Add(now, 1);
        return true;
      }
      ok := Retry(now);
      RefusalWhenForward(was, now, ok);
    }

    method Retry(now: int) returns (ok: bool)
      requires Valid() && now > 0 && initialCalls != null && retriedCalls != null
      modifies initialCalls, retriedCalls
      ensures Valid()
      ensures ok == Admits(rate, ratio, old(State()), Request(true, now))
      ensures State() == Charged(rate, ratio, old(State()), Request(true, now))
    {
      var initialRate := initialCalls.Rate(now);
      var retriedRate := retriedCalls.Rate(now);
      if Exhausted(rate, ratio, initialRate, retriedRate) {
        return false;
      }
      retriedCalls.Add(now, 1);
      return true;
    }
  }

  /** Later calls do not bear on an answer. */
  lemma AnswerBefore(rate: real, ratio: real, calls: seq<Request>, j: nat, k: nat)
    requires k < j <= |calls|
    ensures Answer(rate, ratio, calls[..j], k) == Answer(rate, ratio, calls, k)
  {
    assert calls[..j][..k] == calls[..k];
  }

  lemma AnswersNext(rate: real, ratio: real, calls: seq<Request>, oks: seq<bool>, j: nat)
    requires j < |calls| && Answers(rate, ratio, calls[..j], oks)
    ensures Answers(rate, ratio, calls[..j + 1], oks + [Answer(rate, ratio, calls, j)])
  {
    forall k {:trigger oks[k]} | 0 <= k < j ensures oks[k] == Answer(rate, ratio, calls[..j + 1], k) {
      AnswerBefore(rate, ratio, calls, j, k);
      AnswerBefore(rate, ratio, calls, j + 1, k);
    }
    AnswerBefore(rate, ratio, calls, j + 1, j);
  }

  lemma AfterPrefix(rate: real, ratio: real, calls: seq<Request>, j: nat)
    requires j < |calls|
    ensures var a, c := After(rate, ratio, calls[..j]), Request(calls[j].isRetry, calls[j].now);
            After(rate, ratio, calls[..j + 1]) == Charged(rate, ratio, a, c) && Admits(rate, ratio, a, c) == Answer(rate, ratio, calls, j)
  {
    assert calls[..j + 1][..j] == calls[..j] && Request(calls[j].isRetry, calls[j].now) == calls[j];
  }

  /** Any run of calls on a new budget, whatever the clock does. */
  method RunCalls(rate: real, ratio: real, calls: seq<Request>) returns (oks: seq<bool>)
    requires forall j :: 0 <= j < |calls| ==> calls[j].now > 0
    ensures Answers(rate, ratio, calls, oks)
    ensures forall j :: 0 <= j < |calls| && !calls[j].isRetry ==> oks[j]
  {
    var b := new Budget(rate, ratio);
    oks := [];
    for j := 0 to |calls|
      invariant fresh(b) && b.rate == rate && b.ratio == ratio && b.Valid()
      invariant (b.initialCalls != null ==> fresh(b.initialCalls)) && (b.retriedCalls != null ==> fresh(b.retriedCalls))
      invariant b.State() == After(rate, ratio, calls[..j])
      invariant Answers(rate, ratio, calls[..j], oks)
      invariant forall k :: 0 <= k < j && !calls[k].isRetry ==> oks[k]
    {
      AnswersNext(rate, ratio, calls, oks, j);
      AfterPrefix(rate, ratio, calls, j);
      var ok := b.SendOK(calls[j].isRetry, calls[j].now);
      oks := oks + [ok];
    }
    assert calls[..|calls|] == calls;
  }
}
