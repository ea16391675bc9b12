/** The full event log against which the bucketed window of the retry budget is judged. */
module RateLog {

  /** n events at time t, in nanoseconds since the zero time. */
  datatype Event = Event(t: int, n: int)

  /** Events in time buckets a to b, a bucket being L nanoseconds long. */
  function InBuckets(log: seq<Event>, L: int, a: int, b: int): int
    requires L > 0
  {
    if log == [] then 0
    else
      var e := log[|log| - 1];
      InBuckets(log[..|log| - 1], L, a, b) + if a <= e.t / L <= b then e.n else 0
  }

  /** Events after time a and up to time b. */
  function InWindow(log: seq<Event>, a: int, b: int): int {
    if log == [] then 0
    else
      var e := log[|log| - 1];
      InWindow(log[..|log| - 1], a, b) + if a < e.t <= b then e.n else 0
  }

  /** Nothing in the log is later than t, or counts negatively. */
  ghost predicate UpTo(log: seq<Event>, t: int) {
    forall i {:trigger log[i]} :: 0 <= i < |log| ==> 0 < log[i].t <= t
  }

  ghost predicate NonNegative(log: seq<Event>) {
    forall i {:trigger log[i]} :: 0 <= i < |log| ==> log[i].n >= 0
  }

  lemma {:induction false} NothingLater(log: seq<Event>, L: int, t: int, a: int, b: int)
    requires L > 0 && UpTo(log, t) && t / L < a
    ensures InBuckets(log, L, a, b) == 0
  {
    if log != [] {
      var f, e := log[..|log| - 1], log[|log| - 1];
      assert forall i {:trigger f[i]} :: 0 <= i < |f| ==> f[i] == log[i];
      NothingLater(f, L, t, a, b);
      DivMonotone(e.t, t, L);
    }
  }

  lemma DivMonotone(x: int, y: int, L: int)
    requires L > 0 && x <= y
    ensures x / L <= y / L
  {
    var a, b := x / L, y / L;
    assert x == L * a + x % L && y == L * b + y % L;
    assert L * (a - b) <= L - 1;
    assert a - b >= 1 ==> L * (a - b) >= L;
  }

  lemma {:induction false} OneMoreAtEnd(log: seq<Event>, L: int, a: int, b: int)
    requires L > 0 && a <= b + 1
    ensures InBuckets(log, L, a, b + 1) == InBuckets(log, L, a, b) + InBuckets(log, L, b + 1, b + 1)
  {
    if log != [] {
      OneMoreAtEnd(log[..|log| - 1], L, a, b);
    }
  }

  lemma {:induction false} FirstBucket(log: seq<Event>, L: int, a: int, b: int)
    requires L > 0 && a <= b
    ensures InBuckets(log, L, a, b) == InBuckets(log, L, a, a) + InBuckets(log, L, a + 1, b)
  {
    if log != [] {
      FirstBucket(log[..|log| - 1], L, a, b);
    }
  }

  lemma {:induction false} NonNegativeSum(log: seq<Event>, L: int, a: int, b: int)
    requires L > 0 && NonNegative(log)
    ensures InBuckets(log, L, a, b) >= 0
  {
    if log != [] {
      var f := log[..|log| - 1];
      assert forall i {:trigger f[i]} :: 0 <= i < |f| ==> f[i] == log[i];
      NonNegativeSum(f, L, a, b);
    }
  }

  /** The window of N buckets' length that ends at t covers the last N buckets and part of the one before. */
  lemma {:induction false} WindowCovers(log: seq<Event>, L: int, N: nat, t: int)
    requires L > 0 && UpTo(log, t) && NonNegative(log)
    ensures var w := InWindow(log, t - N * L, t);
            InBuckets(log, L, t / L - N + 1, t / L) <= w <= InBuckets(log, L, t / L - N, t / L)
  {
    if log != [] {
      var f, e := log[..|log| - 1], log[|log| - 1];
      assert forall i {:trigger f[i]} :: 0 <= i < |f| ==> f[i] == log[i];
      WindowCovers(f, L, N, t);
      DivMonotone(e.t, t, L);
      ShiftDiv(t, N, L);
      if e.t > t - N * L {
        DivMonotone(t - N * L, e.t, L);
      } else {
        DivMonotone(e.t, t - N * L, L);
      }
    }
  }

  lemma ShiftDiv(t: int, N: nat, L: int)
    requires L > 0
    ensures (t - N * L) / L == t / L - N
  {
    var q, r := t / L, t % L;
    assert t == L * q + r;
    assert t - N * L == L * (q - N) + r by {
      assert L * (q - N) == L * q - L * N;
    }
    DivUnique(t - N * L, L, q - N, r);
  }

  lemma DivUnique(x: int, L: int, q: int, r: int)
    requires L > 0 && x == L * q + r && 0 <= r < L
    ensures x / L == q && x % L == r
  {
    var d := x / L - q;
    assert x == L * (x / L) + x % L;
    assert L * d == L * (x / L) - L * q;
    Multiple(L, d);
  }

  lemma Multiple(L: int, d: int)
    requires L > 0
    ensures d >= 1 ==> L * d >= L
    ensures d <= -1 ==> L * d <= -L
  {
    assert L * d == L + L * (d - 1) == -L + L * (d + 1);
  }
}
