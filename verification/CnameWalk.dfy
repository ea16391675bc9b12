/** The walk down a chain of aliases (section 3.6.2 of RFC 1034), independently of how it is queried. */
module CnameWalk {
  import opened Options
  import opened DnsRecords

  /** What the DNS holds: the records of each canonical name, and the type that is asked for. */
  datatype Zone = Zone(canon: string -> string, records: string -> seq<Record>, qtype: nat)

  const MAX_DEPTH := 16

  /** Each name has its own records, and at most one canonical name. */
  ghost predicate WellFormed(z: Zone) {
    && (forall n {:trigger z.canon(z.canon(n))} :: z.canon(z.canon(n)) == z.canon(n))
    && (forall n, r :: r in z.records(n) ==> z.canon(r.name) == n)
    && (forall n, r, s :: r in z.records(n) && s in z.records(n) && r.rtype == TYPE_CNAME && s.rtype == TYPE_CNAME ==>
          z.canon(r.value) == z.canon(s.value))
  }

  /** The records hold nothing made up, and all of a name's records or none. */
  ghost predicate Complete(z: Zone, records: set<Record>) {
    && (forall r :: r in records ==> r in z.records(z.canon(r.name)))
    && (forall r, s :: r in records && s in z.records(z.canon(r.name)) ==> s in records)
  }

  function All(records: seq<Record>): set<Record> {
    set r | r in records
  }

  /** No query fails, and each is answered with all records of the name asked for, perhaps among others'. */
  ghost predicate Honest(z: Zone, ask: string -> Answer) {
    forall n {:trigger ask(n)} :: ask(n).Records? && Covers(z, All(ask(n).records), z.canon(n)) && Complete(z, All(ask(n).records))
  }

  ghost predicate Covers(z: Zone, records: set<Record>, n: string) {
    forall r :: r in z.records(n) ==> r in records
  }

  /** A resolver and the zone it is honest about. */
  datatype Setting = Setting(zone: Zone, ask: string -> Answer)

  type World = s: Setting | WellFormed(s.zone) && Honest(s.zone, s.ask)
    ghost witness Setting(Zone(n => n, n => [], 0), n => Records([], TruncationOK))

  predicate HasType(records: seq<Record>, canon: string -> string, n: string, qtype: nat) {
    exists r :: r in records && r.rtype == qtype && canon(r.name) == n
  }

  predicate HasAny(records: seq<Record>, canon: string -> string, n: string) {
    exists r :: r in records && canon(r.name) == n
  }

  /** The next name of the walk; none where it ends, at a record of the type asked for or a dead end. */
  ghost function Next(z: Zone, n: string): Option<string> {
    if exists r :: r in z.records(n) && r.rtype == z.qtype then None
    else if r :| r in z.records(n) && r.rtype == TYPE_CNAME then Some(z.canon(r.value))
    else None
  }

  /** The name after k links. */
  ghost function At(z: Zone, n: string, k: nat): Option<string> {
    if k == 0 then Some(n)
    else match At(z, n, k - 1) case None => None case Some(m) => Next(z, m)
  }

  ghost predicate EndsAt(z: Zone, n: string, i: nat) {
    At(z, n, i).Some? && Next(z, At(z, n, i).value).None?
  }

  ghost predicate Repeats(z: Zone, n: string, i: nat, j: nat) {
    j <= i && At(z, n, i + 1).Some? && At(z, n, i + 1) == At(z, n, j)
  }

  ghost predicate Ends(z: Zone, n: string) {
    exists i :: 0 <= i < MAX_DEPTH && EndsAt(z, n, i)
  }

  ghost predicate Loops(z: Zone, n: string) {
    exists i, j :: 0 <= j <= i < MAX_DEPTH && Repeats(z, n, i, j)
  }

  lemma {:induction false} AtEarlier(z: Zone, n: string, i: nat, k: nat)
    requires i <= k && At(z, n, k).Some?
    ensures At(z, n, i).Some? && (i < k ==> !EndsAt(z, n, i))
    decreases k - i
  {
    if i < k {
      AtEarlier(z, n, i + 1, k);
    }
  }

  lemma {:induction false} Periodic(z: Zone, n: string, a: nat, b: nat, m: nat)
    requires At(z, n, a) == At(z, n, b)
    ensures At(z, n, a + m) == At(z, n, b + m)
  {
    if m > 0 {
      Periodic(z, n, a, b, m - 1);
    }
  }

  /** A walk that ends never repeats a name, even beyond the bound. */
  lemma EndNoLoop(z: Zone, n: string, e: nat, i: nat, j: nat)
    requires EndsAt(z, n, e)
    ensures !Repeats(z, n, i, j)
  {
    if Repeats(z, n, i, j) {
      if e <= i {
        AtEarlier(z, n, e, i + 1);
      } else {
        Periodic(z, n, i + 1, j, e - i - 1);
        AtEarlier(z, n, j + e - i - 1, e);
      }
    }
  }

  /** The canonical name that the first alias record for n gives. */
  function Alias(records: seq<Record>, canon: string -> string, n: string): (next: Option<string>)
    ensures next.None? ==> forall r :: r in records && r.rtype == TYPE_CNAME ==> canon(r.name) != n
    ensures next.Some? ==> exists r :: r in records && r.rtype == TYPE_CNAME && canon(r.name) == n && canon(r.value) == next.value
  {
    if records == [] then None
    else if records[0].rtype == TYPE_CNAME && canon(records[0].name) == n then Some(canon(records[0].value))
    else
      assert forall r :: r in records <==> r == records[0] || r in records[1..];
      Alias(records[1..], canon, n)
  }

  /** What complete records that cover a name say of it. */
  lemma LookupIsZone(z: Zone, records: seq<Record>, n: string)
    requires WellFormed(z) && Complete(z, All(records)) && Covers(z, All(records), n)
    ensures if HasType(records, z.canon, n, z.qtype) then Next(z, n) == None else Next(z, n) == Alias(records, z.canon, n)
  {
    assert forall r :: r in z.records(n) ==> r in records by {
      forall r | r in z.records(n) ensures r in records {
        assert r in All(records);
      }
    }
    forall r | r in records && z.canon(r.name) == n ensures r in z.records(n) {
      assert r in All(records);
    }
    if HasType(records, z.canon, n, z.qtype) {
      var r :| r in records && r.rtype == z.qtype && z.canon(r.name) == n;
      assert r in z.records(n);
    } else {
      AliasIsNext(z, records, n);
    }
  }

  /** The alias found among a name's records is the one the zone has. */
  lemma AliasIsNext(z: Zone, records: seq<Record>, n: string)
    requires WellFormed(z) && !HasType(records, z.canon, n, z.qtype)
    requires forall r :: r in z.records(n) ==> r in records
    requires forall r :: r in records && z.canon(r.name) == n ==> r in z.records(n)
    ensures Next(z, n) == Alias(records, z.canon, n)
  {
    if Alias(records, z.canon, n).Some? {
      var r :| r in records && r.rtype == TYPE_CNAME && z.canon(r.name) == n && z.canon(r.value) == Alias(records, z.canon, n).value;
      assert r in z.records(n);
    }
  }

  /** Adding an honest answer. */
  lemma AddAnswer(z: Zone, known: set<Record>, more: set<Record>, n: string)
    requires Complete(z, known) && Complete(z, more)
    ensures Complete(z, known + more)
    ensures Covers(z, known, n) || Covers(z, more, n) ==> Covers(z, known + more, n)
  {
  }

  lemma AllAppend(a: seq<Record>, b: seq<Record>)
    ensures All(a + b) == All(a) + All(b)
  {
  }
}
