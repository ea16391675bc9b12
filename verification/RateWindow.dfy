/** What a log of events amounts to as a rate: the window's length, its estimate of the number of events
    in it, and how far the estimate can be from the truth. */
module RateWindow {
  import opened RateLog

  /** Rounds to the nearest multiple of d since the zero time, halves up. */
  function Round(t: int, d: int): int
    requires d > 0
  {
    var r := t % d;
    if r + r < d then t - r else t + (d - r)
  }

  /** timeRoundDown. */
  function RoundDown(t: int, d: int): int
    requires d > 0
  {
    var rt := Round(t, d);
    if rt > t then rt - d else rt
  }

  /** Rounding to the nearest and stepping back if that went too far is rounding down. */
  lemma RoundDownIsFloor(t: int, d: int)
    requires d > 0
    ensures RoundDown(t, d) == t - t % d == d * (t / d)
  {
    assert t == d * (t / d) + t % d;
  }

  /** A float64 as far as rates can tell: a number, an infinity, or NaN. Zeros are positive. */
  datatype Float = Num(r: real) | Inf | NegInf | NaN

  function Quotient(a: Float, b: Float): Float {
    match (a, b)
    case (Num(x), Num(y)) => if y != 0.0 then Num(x / y) else if x > 0.0 then Inf else if x < 0.0 then NegInf else NaN
    case (Inf, Num(y)) => if y < 0.0 then NegInf else Inf
    case (NegInf, Num(y)) => if y < 0.0 then Inf else NegInf
    case (Num(_), Inf) => Num(0.0)
    case (Num(_), NegInf) => Num(0.0)
    case _ => NaN
  }

  /** a > b; false when a is NaN. */
  predicate Above(a: Float, b: real) {
    match a
    case Num(x) => x > b
    case Inf => true
    case NegInf => false
    case NaN => false
  }

  /** The part of its last time bucket that time t leaves open. */
  function OpenFraction(t: int, L: int): (f: real)
    requires L > 0
    ensures 0.0 < f <= 1.0
  {
    RoundDownIsFloor(t, L);
    1.0 - (t - RoundDown(t, L)) as real / L as real
  }

  /** The fraction of the bucket's length is the time from t to the bucket's end. */
  lemma OpenFractionIs(t: int, L: int)
    requires L > 0
    ensures OpenFraction(t, L) * L as real == ((t / L + 1) * L - t) as real
  {
    RoundDownIsFloor(t, L);
    var x, l := (t - RoundDown(t, L)) as real, L as real;
    assert x / l * l == x;
    assert (1.0 - x / l) * l == l - x / l * l;
    assert (t / L + 1) * L == L * (t / L) + L;
  }

  /** Counting a fraction of o instead of what the window w really has of it. */
  lemma FractionOf(f: real, o: int, rest: int, w: int)
    requires 0.0 < f <= 1.0 && o >= 0 && 0 <= rest <= w <= rest + o
    ensures 0.0 <= f * o as real + rest as real
    ensures (w - o) as real <= f * o as real + rest as real <= (w + o) as real
  {
    Part(f, o as real);
    WithPart(f * o as real, o, rest, w);
  }

  lemma WithPart(x: real, o: int, rest: int, w: int)
    requires 0.0 <= x <= o as real && 0 <= rest <= w <= rest + o
    ensures 0.0 <= x + rest as real
    ensures (w - o) as real <= x + rest as real <= (w + o) as real
  {
  }

  lemma Part(f: real, o: real)
    requires 0.0 < f <= 1.0 && o >= 0.0
    ensures 0.0 <= f * o <= o
  {
    var rest := 1.0 - f;
    Product(f, o);
    Product(rest, o);
    assert rest * o == o - f * o;
  }

  lemma Product(a: real, b: real)
    requires a >= 0.0 && b >= 0.0
    ensures a * b >= 0.0
  {
  }

  lemma Weighted(e: real, o: int, r: int, L: int, t: int, open: int)
    requires L > 0 && e == OpenFraction(t, L) * o as real + r as real && open == (t / L + 1) * L - t
    ensures e * L as real == r as real * L as real + o as real * open as real
  {
    OpenFractionIs(t, L);
    Distributed(OpenFraction(t, L), o as real, r as real, L as real);
  }

  lemma Distributed(f: real, o: real, r: real, l: real)
    ensures (f * o + r) * l == r * l + o * (f * l)
  {
  }

  const SECOND := 1_000_000_000

  /** The events a rate has recorded, and the times of its first and its last use; last is 0 before the first.
      Its window is made of N time buckets of L nanoseconds. */
  datatype Window = Window(log: seq<Event>, first: int, last: int)
  {
    ghost predicate Valid() {
      if last == 0 then log == []
      else
        && 0 < first <= last && UpTo(log, last)
        && forall i {:trigger log[i]} :: 0 <= i < |log| ==> first <= log[i].t
    }

    /** Used at time t; a time before the last use is ignored. */
    function Moved(t: int): Window {
      if t < last then this else if last == 0 then Window(log, t, t) else this.(last := t)
    }

    /** n events at time t; ignored if t is before the last use. */
    function Counted(t: int, n: int): Window {
      if t < last then this else Moved(t).(log := log + [Event(t, n)])
    }

    /** The window's length has passed since the first use. */
    predicate Full(L: int, N: int)
      requires L > 0
    {
      last / L - first / L >= N
    }

    /** The events in the oldest bucket, of which the window covers a part only once it is full. */
    function Oldest(L: int, N: int): int
      requires L > 0
    {
      if Full(L, N) then InBuckets(log, L, last / L - N, last / L - N) else 0
    }

    /** The events in all buckets but the oldest of a full window. */
    function Newer(L: int, N: int): int
      requires L > 0
    {
      InBuckets(log, L, last / L - N + 1, last / L)
    }

    /** All events in the buckets, the oldest one of a full window counted for the fraction still covered. */
    function Estimate(L: int, N: int): real
      requires L > 0
    {
      if Full(L, N) then OpenFraction(last, L) * Oldest(L, N) as real + Newer(L, N) as real
      else InBuckets(log, L, first / L, last / L) as real
    }

    /** The seconds covered: since the bucket of the first use began, but no more than the window's length. */
    function Seconds(L: int, N: int): real
      requires L > 0
    {
      (if Full(L, N) then N * L else last - RoundDown(first, L)) as real / SECOND as real
    }

    /** Events per second. */
    function Rate(L: int, N: int): Float
      requires L > 0
    {
      Quotient(Num(Estimate(L, N)), Num(Seconds(L, N)))
    }

    /** The rate read at time t; NaN for a time before the last use. */
    function RateAt(t: int, L: int, N: int): Float
      requires L > 0
    {
      if t < last then NaN else Moved(t).Rate(L, N)
    }

    /** The number of events in the last N buckets' time. */
    function TrueCount(L: int, N: int): int {
      InWindow(log, last - N * L, last)
    }

    /** The window is full once N bucket boundaries have passed since the first use. It then covers the length
        of N buckets; before, the time since the bucket of the first use began. */
    lemma SecondsCovered(L: int, N: int)
      requires Valid() && last != 0 && L > 0 && N > 0
      ensures Seconds(L, N) >= 0.0 && (Full(L, N) ==> Seconds(L, N) > 0.0)
      ensures Full(L, N) <==> last >= (first / L + N) * L
      ensures last >= (first / L + N) * L ==> Seconds(L, N) == (N * L) as real / 1_000_000_000.0
      ensures last < (first / L + N) * L ==> Seconds(L, N) == (last - first / L * L) as real / 1_000_000_000.0
    {
      RoundDownIsFloor(first, L);
      assert N * L > 0;
      BoundariesPassed(first, last, L, N);
    }

    /** Until the window is full, nothing is estimated. */
    lemma EstimateExact(L: int, N: int)
      requires Valid() && last != 0 && L > 0 && N > 0 && !Full(L, N)
      ensures Estimate(L, N) == TrueCount(L, N) as real
    {
      forall i {:trigger log[i]} | 0 <= i < |log| ensures first / L <= log[i].t / L {
        DivMonotone(first, log[i].t, L);
      }
      NothingBefore(log, L, first / L, last / L - N + 1, last / L);
      AllInWindow(log, L, N, last);
    }

    /** The newer buckets lie in the window, the oldest one in part. */
    lemma FullWindow(L: int, N: int)
      requires Valid() && last != 0 && L > 0 && N > 0 && NonNegative(log) && Full(L, N)
      ensures 0 <= Oldest(L, N) && 0 <= Newer(L, N) <= TrueCount(L, N) <= Newer(L, N) + Oldest(L, N)
    {
      var b := last / L;
      WindowCovers(log, L, N, last);
      FirstBucket(log, L, b - N, b);
      NonNegativeSum(log, L, b - N + 1, b);
      NonNegativeSum(log, L, b - N, b - N);
    }

    /** A full window counts its newer buckets, and the oldest one for the part of its length that the window,
        which ends at the last use, still covers. */
    lemma EstimateIs(L: int, N: int) returns (o: int, r: int, open: int)
      requires L > 0 && Full(L, N)
      ensures o == InBuckets(log, L, last / L - N, last / L - N) && r == InBuckets(log, L, last / L - N + 1, last / L)
      ensures open == (last / L + 1) * L - last
      ensures Estimate(L, N) * L as real == r as real * L as real + o as real * open as real
    {
      o, r, open := Oldest(L, N), Newer(L, N), (last / L + 1) * L - last;
      Weighted(Estimate(L, N), o, r, L, last, open);
    }

    /** A full window's estimate is off by at most the oldest bucket. */
    lemma EstimateClose(L: int, N: int)
      requires Valid() && last != 0 && L > 0 && N > 0 && NonNegative(log)
      ensures 0.0 <= Estimate(L, N) && 0 <= Oldest(L, N)
      ensures (TrueCount(L, N) - Oldest(L, N)) as real <= Estimate(L, N) <= (TrueCount(L, N) + Oldest(L, N)) as real
    {
      if Full(L, N) {
        FullWindow(L, N);
        FractionOf(OpenFraction(last, L), Oldest(L, N), Newer(L, N), TrueCount(L, N));
      } else {
        EstimateExact(L, N);
        NonNegativeSum(log, L, first / L, last / L);
      }
    }
  }

  lemma BoundariesPassed(first: int, last: int, L: int, N: int)
    requires L > 0
    ensures last / L - first / L >= N <==> last >= (first / L + N) * L
    ensures first / L * L == L * (first / L)
  {
    var m := first / L + N;
    assert last == L * (last / L) + last % L;
    assert m * L == L * m;
    if last / L >= m {
      assert L * (last / L) >= L * m;
    } else {
      assert L * (last / L + 1) <= L * m;
    }
  }

  lemma {:induction false} NothingBefore(log: seq<Event>, L: int, a: int, a': int, b: int)
    requires L > 0 && a' <= a && forall i {:trigger log[i]} :: 0 <= i < |log| ==> a <= log[i].t / L
    ensures InBuckets(log, L, a', b) == InBuckets(log, L, a, b)
  {
    if log != [] {
      var f := log[..|log| - 1];
      assert forall i {:trigger f[i]} :: 0 <= i < |f| ==> f[i] == log[i];
      NothingBefore(f, L, a, a', b);
    }
  }

  /** Events of the last N buckets only: all of them are in the window. */
  lemma {:induction false} AllInWindow(log: seq<Event>, L: int, N: nat, t: int)
    requires L > 0 && UpTo(log, t)
    requires forall i {:trigger log[i]} :: 0 <= i < |log| ==> t / L - N + 1 <= log[i].t / L
    ensures InWindow(log, t - N * L, t) == InBuckets(log, L, t / L - N + 1, t / L)
  {
    if log != [] {
      var f, e := log[..|log| - 1], log[|log| - 1];
      assert forall i {:trigger f[i]} :: 0 <= i < |f| ==> f[i] == log[i];
      AllInWindow(f, L, N, t);
      DivMonotone(e.t, t, L);
      ShiftDiv(t, N, L);
      if e.t <= t - N * L {
        DivMonotone(e.t, t - N * L, L);
      }
    }
  }
}
