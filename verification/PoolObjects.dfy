/** The idle objects of a pool and what a Get or a CloseIdle picks from them. */
module PoolObjects {
  import opened Options

  /** An idle object; obj is its identity. */
  datatype PoolObject = PoolObject(obj: nat, lastTouched: int)

  /** What the outside answers during one CloseIdle: the clock readings, one for each object in turn,
      the objects found valid, and those whose Close succeeds. */
  datatype Sweep = Sweep(minIdle: int, now: seq<int>, valid: set<nat>, closes: set<nat>)

  function Objs(s: seq<PoolObject>): set<nat> {
    set p | p in s :: p.obj
  }

  ghost predicate Distinct(s: seq<PoolObject>) {
    forall i, j {:trigger s[i], s[j]} :: 0 <= i < j < |s| ==> s[i].obj != s[j].obj
  }

  lemma ObjsOfFirst(s: seq<PoolObject>)
    requires s != [] && Distinct(s)
    ensures Objs(s) == Objs(s[1..]) + {s[0].obj} && s[0].obj !in Objs(s[1..]) && Distinct(s[1..])
  {
    assert s == [s[0]] + s[1..];
  }

  lemma ObjsOfLast(s: seq<PoolObject>, p: PoolObject)
    requires Distinct(s) && p.obj !in Objs(s)
    ensures Objs(s + [p]) == Objs(s) + {p.obj} && Distinct(s + [p])
  {
    assert forall q :: q in s + [p] <==> q in s || q == p;
  }

  /** A shuffle keeps the objects, each once. */
  lemma {:induction false} Shuffled(s: seq<PoolObject>, t: seq<PoolObject>)
    requires Distinct(s) && multiset(s) == multiset(t)
    ensures Objs(s) == Objs(t) && Distinct(t)
  {
    assert forall p :: p in s <==> p in multiset(s);
    assert forall p :: p in t <==> p in multiset(t);
    forall i, j | 0 <= i < j < |t| ensures t[i].obj != t[j].obj {
      if t[i].obj == t[j].obj {
        assert t[i] in s && t[j] in s;
        assert t[i] == t[j];
        Twice(t, i, j);
        OnlyOnce(s, t[i]);
      }
    }
  }

  lemma Twice(t: seq<PoolObject>, i: nat, j: nat)
    requires i < j < |t| && t[i] == t[j]
    ensures multiset(t)[t[i]] >= 2
  {
    assert t == t[..i] + [t[i]] + t[i + 1..j] + [t[j]] + t[j + 1..];
  }

  lemma {:induction false} OnlyOnce(s: seq<PoolObject>, p: PoolObject)
    requires Distinct(s)
    ensures multiset(s)[p] <= 1
  {
    if s != [] {
      assert s == [s[0]] + s[1..];
      OnlyOnce(s[1..], p);
      if s[0] == p {
        assert p !in s[1..];
      }
    }
  }

  /** How many idle objects a Get discards before it finds a valid one. */
  function Passed(s: seq<PoolObject>, valid: set<nat>): (n: nat)
    ensures n <= |s| && (n < |s| ==> s[n].obj in valid)
    ensures forall i {:trigger s[i]} :: 0 <= i < n ==> s[i].obj !in valid
  {
    if s == [] || s[0].obj in valid then 0 else 1 + Passed(s[1..], valid)
  }

  /** Whether CloseIdle tries to close an object, the i-th. */
  predicate Tries(p: PoolObject, i: nat, sweep: Sweep)
    requires i < |sweep.now|
  {
    sweep.now[i] - p.lastTouched >= sweep.minIdle || p.obj !in sweep.valid
  }

  /** What a CloseIdle keeps: objects it need not close, and those whose Close fails. */
  function Kept(s: seq<PoolObject>, sweep: Sweep): (r: seq<PoolObject>)
    requires |s| <= |sweep.now|
    ensures |r| <= |s|
  {
    if s == [] then []
    else
      var n := |s| - 1;
      var r := Kept(s[..n], sweep);
      if Tries(s[n], n, sweep) && s[n].obj in sweep.closes then r else r + [s[n]]
  }

  /** How many Close calls of a CloseIdle fail. */
  function Failures(s: seq<PoolObject>, sweep: Sweep): nat
    requires |s| <= |sweep.now|
  {
    if s == [] then 0
    else
      var n := |s| - 1;
      Failures(s[..n], sweep) + if Tries(s[n], n, sweep) && s[n].obj !in sweep.closes then 1 else 0
  }

  /** The objects that CloseIdle calls Close on. */
  function Attempted(s: seq<PoolObject>, sweep: Sweep): set<nat>
    requires |s| <= |sweep.now|
  {
    if s == [] then {}
    else
      var n := |s| - 1;
      if Tries(s[n], n, sweep) then Attempted(s[..n], sweep) + {s[n].obj} else Attempted(s[..n], sweep)
  }

  lemma {:induction false} AttemptedHas(s: seq<PoolObject>, sweep: Sweep, i: nat)
    requires i < |s| <= |sweep.now| && Tries(s[i], i, sweep)
    ensures s[i].obj in Attempted(s, sweep)
  {
    if i < |s| - 1 {
      AttemptedHas(s[..|s| - 1], sweep, i);
    }
  }

  /** Close is called on an object exactly if it has been idle for too long or is not valid. */
  lemma {:induction false} AttemptedMeans(s: seq<PoolObject>, sweep: Sweep)
    requires Distinct(s) && |s| <= |sweep.now|
    ensures Attempted(s, sweep) <= Objs(s)
    ensures forall i {:trigger s[i]} :: 0 <= i < |s| ==>
              (s[i].obj in Attempted(s, sweep) <==> sweep.now[i] - s[i].lastTouched >= sweep.minIdle || s[i].obj !in sweep.valid)
  {
    if s != [] {
      var f := s[..|s| - 1];
      AttemptedMeans(f, sweep);
      forall i {:trigger s[i]} | 0 <= i < |f| ensures s[i].obj in Attempted(s, sweep) <==> s[i].obj in Attempted(f, sweep) {
        assert s[i] == f[i] && s[i].obj != s[|f|].obj;
      }
      assert s[|f|].obj !in Objs(f);
    }
  }

  /** Each Close that is called either fails or removes the object. */
  lemma {:induction false} SweepCounts(s: seq<PoolObject>, sweep: Sweep)
    requires Distinct(s) && |s| <= |sweep.now|
    ensures Failures(s, sweep) + (|s| - |Kept(s, sweep)|) == |Attempted(s, sweep)|
  {
    if s != [] {
      var f := s[..|s| - 1];
      SweepCounts(f, sweep);
      AttemptedMeans(f, sweep);
      assert s[|f|].obj !in Objs(f);
    }
  }

  /** One more object is kept or not. */
  lemma KeptNext(s: seq<PoolObject>, i: nat, sweep: Sweep)
    requires i < |s| <= |sweep.now|
    ensures Kept(s[..i + 1], sweep) == if Tries(s[i], i, sweep) && s[i].obj in sweep.closes then Kept(s[..i], sweep) else Kept(s[..i], sweep) + [s[i]]
    ensures Attempted(s[..i + 1], sweep) == if Tries(s[i], i, sweep) then Attempted(s[..i], sweep) + {s[i].obj} else Attempted(s[..i], sweep)
    ensures Failures(s[..i + 1], sweep) == Failures(s[..i], sweep) + if Tries(s[i], i, sweep) && s[i].obj !in sweep.closes then 1 else 0
  {
    assert s[..i + 1][..i] == s[..i];
  }

  /** Whether CloseIdle keeps an object, the i-th. */
  predicate Keeps(p: PoolObject, i: nat, sweep: Sweep)
    requires i < |sweep.now|
  {
    !(Tries(p, i, sweep) && p.obj in sweep.closes)
  }

  /** What CloseIdle keeps: an object stays exactly if it is valid and has not been idle for too long, or its
      Close fails. */
  lemma {:induction false} KeptMeans(s: seq<PoolObject>, sweep: Sweep)
    requires Distinct(s) && |s| <= |sweep.now|
    ensures forall p :: p in Kept(s, sweep) ==> p in s
    ensures forall i {:trigger s[i]} :: 0 <= i < |s| ==>
              (s[i] in Kept(s, sweep) <==>
                 (sweep.now[i] - s[i].lastTouched < sweep.minIdle && s[i].obj in sweep.valid) || s[i].obj !in sweep.closes)
  {
    if s != [] {
      var f, p := s[..|s| - 1], s[|s| - 1];
      KeptMeans(f, sweep);
      assert p !in f;
      forall i {:trigger s[i]} | 0 <= i < |f| ensures s[i] in Kept(s, sweep) <==> s[i] in Kept(f, sweep) {
        assert s[i] == f[i];
      }
    }
  }

  /** What it keeps stays in its order. */
  lemma {:induction false} KeptInOrder(s: seq<PoolObject>, sweep: Sweep, a: nat, b: nat) returns (i: nat, j: nat)
    requires |s| <= |sweep.now| && a < b < |Kept(s, sweep)|
    ensures i < j < |s| && Kept(s, sweep)[a] == s[i] && Kept(s, sweep)[b] == s[j]
  {
    var f := s[..|s| - 1];
    if b < |Kept(f, sweep)| {
      i, j := KeptInOrder(f, sweep, a, b);
    } else {
      j := |f|;
      i := KeptFrom(f, sweep, a);
    }
  }

  lemma {:induction false} KeptFrom(s: seq<PoolObject>, sweep: Sweep, a: nat) returns (i: nat)
    requires |s| <= |sweep.now| && a < |Kept(s, sweep)|
    ensures i < |s| && Kept(s, sweep)[a] == s[i]
  {
    var f := s[..|s| - 1];
    if a < |Kept(f, sweep)| {
      i := KeptFrom(f, sweep, a);
    } else {
      i := |f|;
    }
  }

  /** A CloseIdle splits the idle objects: an object is kept unless it was tried and its Close succeeded. */
  lemma KeptSplits(s: seq<PoolObject>, sweep: Sweep)
    requires Distinct(s) && |s| <= |sweep.now|
    ensures Distinct(Kept(s, sweep)) && Objs(Kept(s, sweep)) <= Objs(s)
    ensures forall i {:trigger s[i]} :: 0 <= i < |s| ==> (s[i].obj in Objs(Kept(s, sweep)) <==> Keeps(s[i], i, sweep))
  {
    var kept := Kept(s, sweep);
    KeptMeans(s, sweep);
    forall a, b | 0 <= a < b < |kept| ensures kept[a].obj != kept[b].obj {
      var i, j := KeptInOrder(s, sweep, a, b);
    }
    forall i {:trigger s[i]} | 0 <= i < |s| ensures s[i].obj in Objs(kept) <==> s[i] in kept {
      if s[i].obj in Objs(kept) {
        var p :| p in kept && p.obj == s[i].obj;
        assert p in s;
      }
    }
  }

  /** Who has had which object: those the factory made, those borrowed, those discarded, those on which
      the pool called Close, and those whose Close succeeded. */
  datatype Ledger = Ledger(created: set<nat>, borrowed: set<nat>, discarded: set<nat>, tried: set<nat>, closed: set<nat>)

  /** Every object made is in exactly one place: idle, borrowed or discarded. */
  ghost predicate Owned(pool: seq<PoolObject>, l: Ledger) {
    && Distinct(pool)
    && l.created == Objs(pool) + l.borrowed + l.discarded
    && Objs(pool) !! l.borrowed && Objs(pool) !! l.discarded && l.borrowed !! l.discarded
    && l.closed <= l.discarded <= l.tried
  }

  function Discard(l: Ledger, o: nat, closes: bool): Ledger {
    l.(discarded := l.discarded + {o}, tried := l.tried + {o}, closed := if closes then l.closed + {o} else l.closed)
  }

  lemma DiscardOwned(pool: seq<PoolObject>, l: Ledger, closes: bool)
    requires Owned(pool, l) && pool != []
    ensures Owned(pool[1..], Discard(l, pool[0].obj, closes))
  {
    ObjsOfFirst(pool);
  }

  function Lend(l: Ledger, o: nat): Ledger {
    l.(created := l.created + {o}, borrowed := l.borrowed + {o})
  }

  lemma LendOwned(pool: seq<PoolObject>, l: Ledger)
    requires Owned(pool, l) && pool != []
    ensures var o := pool[0].obj; Owned(pool[1..], Lend(l, o)) && Lend(l, o).created == l.created && o !in l.borrowed && o !in l.closed
  {
    ObjsOfFirst(pool);
  }

  lemma MakeOwned(pool: seq<PoolObject>, l: Ledger, o: nat)
    requires Owned(pool, l) && o !in l.created
    ensures Owned(pool, Lend(l, o)) && o !in l.borrowed && o !in l.closed
  {
  }

  lemma ReturnOwned(pool: seq<PoolObject>, l: Ledger, p: PoolObject)
    requires Owned(pool, l) && p.obj in l.borrowed
    ensures Owned(pool + [p], l.(borrowed := l.borrowed - {p.obj}))
  {
    ObjsOfLast(pool, p);
  }

  /** What a CloseIdle leaves behind: the objects it no longer keeps are closed. */
  function Swept(l: Ledger, pool: seq<PoolObject>, sweep: Sweep): Ledger
    requires |pool| <= |sweep.now|
  {
    var gone := Objs(pool) - Objs(Kept(pool, sweep));
    l.(discarded := l.discarded + gone, tried := l.tried + Attempted(pool, sweep), closed := l.closed + gone)
  }

  /** What a CloseIdle keeps is still owned; what it closes has been tried. */
  lemma SweepOwned(pool: seq<PoolObject>, l: Ledger, sweep: Sweep)
    requires Owned(pool, l) && |pool| <= |sweep.now|
    ensures Owned(Kept(pool, sweep), Swept(l, pool, sweep))
  {
    KeptSplits(pool, sweep);
    forall o | o in Objs(pool) - Objs(Kept(pool, sweep)) ensures o in Attempted(pool, sweep) {
      var i :| 0 <= i < |pool| && pool[i].obj == o;
      AttemptedHas(pool, sweep, i);
    }
  }

  /** Nobody forgets an object, and one whose Close succeeded stays closed. */
  ghost predicate Later(l: Ledger, m: Ledger) {
    l.created <= m.created && l.closed <= m.closed && l.discarded <= m.discarded
  }

  /** Disposes of objects one after the other. */
  function DiscardAll(l: Ledger, s: seq<PoolObject>, closes: set<nat>): Ledger
    decreases |s|
  {
    if s == [] then l else DiscardAll(Discard(l, s[0].obj, s[0].obj in closes), s[1..], closes)
  }

  lemma {:induction false} DiscardAllOwned(pool: seq<PoolObject>, l: Ledger, closes: set<nat>)
    requires Owned(pool, l)
    ensures var m := DiscardAll(l, pool, closes);
            && Owned([], m) && Later(l, m) && m.created == l.created && m.borrowed == l.borrowed
            && m.closed == l.closed + Objs(pool) * closes
  {
    if pool != [] {
      DiscardOwned(pool, l, pool[0].obj in closes);
      DiscardAllOwned(pool[1..], Discard(l, pool[0].obj, pool[0].obj in closes), closes);
      ObjsOfFirst(pool);
    }
  }

  /** The objects whose Close fails, in their order. */
  function Unclosed(s: seq<PoolObject>, closes: set<nat>): seq<nat> {
    if s == [] then [] else (if s[0].obj in closes then [] else [s[0].obj]) + Unclosed(s[1..], closes)
  }

  /** Disposing of all objects, those whose Close fails are reported, each once, and no other. */
  lemma {:induction false} UnclosedAre(pool: seq<PoolObject>, closes: set<nat>)
    requires Distinct(pool)
    ensures forall o :: o in Unclosed(pool, closes) <==> o in Objs(pool) && o !in closes
    ensures forall i, j :: 0 <= i < j < |Unclosed(pool, closes)| ==> Unclosed(pool, closes)[i] != Unclosed(pool, closes)[j]
  {
    if pool != [] {
      ObjsOfFirst(pool);
      UnclosedAre(pool[1..], closes);
    }
  }

  /** They are reported in the order in which they lay idle. */
  lemma {:induction false} UnclosedInOrder(pool: seq<PoolObject>, closes: set<nat>, a: nat, b: nat) returns (i: nat, j: nat)
    requires a <= b < |Unclosed(pool, closes)|
    ensures i <= j < |pool| && (a < b ==> i < j)
    ensures Unclosed(pool, closes)[a] == pool[i].obj && Unclosed(pool, closes)[b] == pool[j].obj
  {
    var n := if pool[0].obj in closes then 0 else 1;
    if a >= n {
      i, j := UnclosedInOrder(pool[1..], closes, a - n, b - n);
      i, j := i + 1, j + 1;
    } else {
      i, j := 0, 0;
      if b > 0 {
        var _, y := UnclosedInOrder(pool[1..], closes, b - n, b - n);
        j := y + 1;
      }
    }
  }

  /** What is reported was disposed of, and is not closed. */
  lemma UnclosedTried(pool: seq<PoolObject>, l: Ledger, closes: set<nat>)
    requires Owned(pool, l)
    ensures var m := DiscardAll(l, pool, closes);
            forall o :: o in Unclosed(pool, closes) ==> o in m.tried && o !in m.closed
  {
    DiscardAllOwned(pool, l, closes);
    UnclosedAre(pool, closes);
  }

  /** What a Get leaves behind. */
  datatype Served = Served(got: Option<nat>, pool: seq<PoolObject>, ledger: Ledger)

  /** A Get that discards idle objects until it finds a valid one, or else makes one. */
  function Serve(pool: seq<PoolObject>, l: Ledger, valid: set<nat>, closes: set<nat>, made: Option<nat>): Served {
    if pool == [] then Served(made, [], if made.Some? then Lend(l, made.value) else l)
    else
      var o := pool[0].obj;
      if o in valid then Served(Some(o), pool[1..], Lend(l, o))
      else Serve(pool[1..], Discard(l, o, o in closes), valid, closes, made)
  }

  /** A Get keeps the ownership, and hands out an object that is neither borrowed nor closed. */
  lemma {:induction false} ServeOwned(pool: seq<PoolObject>, l: Ledger, valid: set<nat>, closes: set<nat>, made: Option<nat>)
    requires Owned(pool, l) && (made.Some? ==> made.value !in l.created)
    ensures var r := Serve(pool, l, valid, closes, made);
            && Owned(r.pool, r.ledger) && Later(l, r.ledger)
            && match r.got
               case Some(o) => o !in l.borrowed && o !in l.closed && r.ledger.borrowed == l.borrowed + {o}
               case None => r.ledger.borrowed == l.borrowed
  {
    if pool == [] {
      if made.Some? {
        MakeOwned(pool, l, made.value);
      }
    } else if pool[0].obj in valid {
      LendOwned(pool, l);
    } else {
      DiscardOwned(pool, l, pool[0].obj in closes);
      ServeOwned(pool[1..], Discard(l, pool[0].obj, pool[0].obj in closes), valid, closes, made);
    }
  }

  /** A Get answers with the first valid idle object and leaves those behind it; without a valid one the
      pool is empty and the answer is a new object, if one could be made. Only those it passed are discarded. */
  lemma {:induction false} ServesFirstValid(pool: seq<PoolObject>, l: Ledger, valid: set<nat>, closes: set<nat>, made: Option<nat>)
    ensures var r, n := Serve(pool, l, valid, closes, made), Passed(pool, valid);
            && (n < |pool| ==> r.got == Some(pool[n].obj) && r.pool == pool[n + 1..])
            && (n == |pool| ==> r.got == made && r.pool == [])
            && r.ledger.discarded == l.discarded + Objs(pool[..n]) && r.ledger.tried == l.tried + Objs(pool[..n])
            && r.ledger.closed == l.closed + Objs(pool[..n]) * closes
  {
    if pool != [] && pool[0].obj !in valid {
      var o := pool[0].obj;
      ServesFirstValid(pool[1..], Discard(l, o, o in closes), valid, closes, made);
      ObjsOfPrefix(pool, Passed(pool, valid));
    }
  }

  lemma ObjsOfPrefix(s: seq<PoolObject>, n: nat)
    requires 0 < n <= |s|
    ensures Objs(s[..n]) == {s[0].obj} + Objs(s[1..][..n - 1])
  {
    assert s[..n] == [s[0]] + s[1..][..n - 1];
  }

  /** Who has borrowed an object after an event: whoever a Get answered has one more, a Put one less. */
  function Borrowing(borrowed: set<nat>, got: Option<nat>, returned: Option<nat>): set<nat> {
    if got.Some? then borrowed + {got.value} else if returned.Some? then borrowed - {returned.value} else borrowed
  }

  lemma BorrowingCounts(borrowed: set<nat>, got: Option<nat>, returned: Option<nat>)
    requires got.Some? ==> got.value !in borrowed
    requires got.None? && returned.Some? ==> returned.value in borrowed
    ensures |Borrowing(borrowed, got, returned)|
         == |borrowed| + if got.Some? then 1 else if returned.Some? then -1 else 0
  {
  }
}
