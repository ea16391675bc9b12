/** Comparing answers as multisets, and agreeing on one by counting votes. */
module Consensus {
  import opened Options
  import opened DnsRecords

  /** What distinguishes records of answers to the same query. */
  datatype Key = Key(value: string, ttl: nat)

  function KeyOf(r: Record, ignoreTTL: bool): Key {
    Key(r.value, if ignoreTTL then 0 else r.ttl)
  }

  /** The answer as a multiset of what distinguishes its records. */
  function Class(records: seq<Record>, ignoreTTL: bool): multiset<Key> {
    if records == [] then multiset{}
    else Class(records[..|records| - 1], ignoreTTL) + multiset{KeyOf(records[|records| - 1], ignoreTTL)}
  }

  lemma {:induction false} ClassSize(records: seq<Record>, ignoreTTL: bool)
    ensures |Class(records, ignoreTTL)| == |records|
  {
    if records != [] {
      ClassSize(records[..|records| - 1], ignoreTTL);
    }
  }

  lemma ClassNext(records: seq<Record>, i: nat, ignoreTTL: bool)
    requires i < |records|
    ensures Class(records[..i + 1], ignoreTTL) == Class(records[..i], ignoreTTL) + multiset{KeyOf(records[i], ignoreTTL)}
  {
    assert records[..i + 1][..i] == records[..i];
  }

  lemma {:induction false} ClassGrows(records: seq<Record>, i: nat, ignoreTTL: bool)
    requires i <= |records|
    ensures Class(records[..i], ignoreTTL) <= Class(records, ignoreTTL)
    decreases |records| - i
  {
    if i == |records| {
      assert records[..i] == records;
    } else {
      ClassNext(records, i, ignoreTTL);
      ClassGrows(records, i + 1, ignoreTTL);
    }
  }

  /** A multiset in another of the same size is the other. */
  lemma SameSize(a: multiset<Key>, b: multiset<Key>)
    requires a <= b && |a| == |b|
    ensures a == b
  {
    assert b == a + (b - a);
  }

  function Tally(counts: map<Key, int>, key: Key): int {
    if key in counts then counts[key] else 0
  }

  ghost predicate Tallies(counts: map<Key, int>, m: multiset<Key>) {
    forall k {:trigger Tally(counts, k)} {:trigger m[k]} :: Tally(counts, k) == m[k]
  }

  lemma TallyMore(counts: map<Key, int>, m: multiset<Key>, key: Key)
    requires Tallies(counts, m)
    ensures Tallies(counts[key := Tally(counts, key) + 1], m + multiset{key})
  {
    forall k ensures Tally(counts[key := Tally(counts, key) + 1], k) == (m + multiset{key})[k] {
      assert Tally(counts, k) == m[k];
    }
  }

  lemma TallyLess(counts: map<Key, int>, m: multiset<Key>, key: Key)
    requires Tallies(counts, m) && key in counts && counts[key] != 0
    ensures key in m && Tallies(counts[key := counts[key] - 1], m - multiset{key})
  {
    assert Tally(counts, key) == m[key];
    forall k ensures Tally(counts[key := counts[key] - 1], k) == (m - multiset{key})[k] {
      assert Tally(counts, k) == m[k];
    }
  }

  method CountKeys(records: seq<Record>, ignoreTTL: bool) returns (counts: map<Key, int>)
    ensures Tallies(counts, Class(records, ignoreTTL))
  {
    counts := map[];
    for i := 0 to |records|
      invariant Tallies(counts, Class(records[..i], ignoreTTL))
    {
      ClassNext(records, i, ignoreTTL);
      var key := KeyOf(records[i], ignoreTTL);
      TallyMore(counts, Class(records[..i], ignoreTTL), key);
      counts := counts[key := Tally(counts, key) + 1];
    }
    assert records[..|records|] == records;
  }

  /** Taking keys away from what is left of m, as long as they are in it. */
  lemma TakenAway(m: multiset<Key>, c: multiset<Key>, left: multiset<Key>, key: Key)
    requires m == c + left
    ensures key in left ==> m == (c + multiset{key}) + (left - multiset{key})
    ensures key !in left ==> !(c + multiset{key} <= m)
  {
    if key !in left {
      assert m[key] == c[key] && (c + multiset{key})[key] == c[key] + 1;
    }
  }

  /** How many records have this value and, unless it is ignored, this time to live. */
  function Copies(records: seq<Record>, value: string, ttl: nat, ignoreTTL: bool): nat {
    if records == [] then 0
    else
      var n := |records| - 1;
      Copies(records[..n], value, ttl, ignoreTTL) + if records[n].value == value && (ignoreTTL || records[n].ttl == ttl) then 1 else 0
  }

  lemma {:induction false} ClassCopies(records: seq<Record>, value: string, ttl: nat, ignoreTTL: bool)
    ensures Class(records, ignoreTTL)[Key(value, if ignoreTTL then 0 else ttl)] == Copies(records, value, ttl, ignoreTTL)
    ensures ignoreTTL && ttl != 0 ==> Key(value, ttl) !in Class(records, ignoreTTL)
  {
    if records != [] {
      ClassCopies(records[..|records| - 1], value, ttl, ignoreTTL);
    }
  }

  /** The answers hold as many copies of each value, with each time to live unless it is ignored. */
  ghost predicate SameCopies(a: seq<Record>, b: seq<Record>, ignoreTTL: bool) {
    forall value: string, ttl: nat :: Copies(a, value, ttl, ignoreTTL) == Copies(b, value, ttl, ignoreTTL)
  }

  /** Answers are of the same class exactly if they hold the same copies: names do not matter, and times to live
      only if they are not ignored. */
  lemma SameClass(a: seq<Record>, b: seq<Record>, ignoreTTL: bool)
    ensures Class(a, ignoreTTL) == Class(b, ignoreTTL) <==> SameCopies(a, b, ignoreTTL)
  {
    if Class(a, ignoreTTL) == Class(b, ignoreTTL) {
      forall value: string, ttl: nat ensures Copies(a, value, ttl, ignoreTTL) == Copies(b, value, ttl, ignoreTTL) {
        ClassCopies(a, value, ttl, ignoreTTL);
        ClassCopies(b, value, ttl, ignoreTTL);
      }
    }
    if SameCopies(a, b, ignoreTTL) {
      forall key: Key ensures Class(a, ignoreTTL)[key] == Class(b, ignoreTTL)[key] {
        ClassCopies(a, key.value, key.ttl, ignoreTTL);
        ClassCopies(b, key.value, key.ttl, ignoreTTL);
        assert key == Key(key.value, key.ttl);
      }
      assert Class(a, ignoreTTL) == Class(b, ignoreTTL);
    }
  }

  /** recordsEqual decides whether two answers hold the same records equally often. */
  method RecordsEqual(first: seq<Record>, second: seq<Record>, ignoreTTL: bool) returns (equal: bool)
    ensures equal <==> Class(first, ignoreTTL) == Class(second, ignoreTTL)
    ensures equal <==> SameCopies(first, second, ignoreTTL)
  {
    SameClass(first, second, ignoreTTL);
    ClassSize(first, ignoreTTL);
    ClassSize(second, ignoreTTL);
    if |first| != |second| {
      return false;
    }
    var counts := CountKeys(first, ignoreTTL);
    ghost var left := Class(first, ignoreTTL);
    for i := 0 to |second|
      invariant Class(first, ignoreTTL) == Class(second[..i], ignoreTTL) + left && Tallies(counts, left)
    {
      ClassNext(second, i, ignoreTTL);
      var key := KeyOf(second[i], ignoreTTL);
      TakenAway(Class(first, ignoreTTL), Class(second[..i], ignoreTTL), left, key);
      if key !in counts || counts[key] == 0 {
        ClassGrows(second, i + 1, ignoreTTL);
        assert Tally(counts, key) == left[key];
        return false;
      }
      TallyLess(counts, left, key);
      counts, left := counts[key := counts[key] - 1], left - multiset{key};
    }
    assert second[..|second|] == second;
    SameSize(Class(second, ignoreTTL), Class(first, ignoreTTL));
    return true;
  }

  /** How many resolvers answered with this class of records. */
  function Votes(answers: seq<Answer>, m: multiset<Key>, ignoreTTL: bool): nat {
    if answers == [] then 0
    else Votes(answers[..|answers| - 1], m, ignoreTTL) + Vote(answers[|answers| - 1], m, ignoreTTL)
  }

  function Vote(a: Answer, m: multiset<Key>, ignoreTTL: bool): nat {
    if a.Records? && Class(a.records, ignoreTTL) == m then 1 else 0
  }

  function Voters(answers: seq<Answer>, m: multiset<Key>, ignoreTTL: bool): set<nat> {
    set i: nat | i < |answers| && answers[i].Records? && Class(answers[i].records, ignoreTTL) == m
  }

  lemma VotersNext(answers: seq<Answer>, m: multiset<Key>, ignoreTTL: bool)
    requires answers != []
    ensures var n := |answers| - 1;
            var before := Voters(answers[..n], m, ignoreTTL);
            n !in before && Voters(answers, m, ignoreTTL) == if Vote(answers[n], m, ignoreTTL) == 1 then before + {n} else before
  {
  }

  /** The votes are as many as the resolvers that have answered, and with this class. */
  lemma {:induction false} VotesAre(answers: seq<Answer>, m: multiset<Key>, ignoreTTL: bool)
    ensures Votes(answers, m, ignoreTTL) == |Voters(answers, m, ignoreTTL)|
  {
    if answers != [] {
      VotesAre(answers[..|answers| - 1], m, ignoreTTL);
      VotersNext(answers, m, ignoreTTL);
    }
  }

  /** Two different classes do not share votes. */
  lemma {:induction false} VotesApart(answers: seq<Answer>, m: multiset<Key>, n: multiset<Key>, ignoreTTL: bool)
    requires m != n
    ensures Votes(answers, m, ignoreTTL) + Votes(answers, n, ignoreTTL) <= |answers|
  {
    if answers != [] {
      VotesApart(answers[..|answers| - 1], m, n, ignoreTTL);
    }
  }

  lemma {:induction false} VotesAppend(a: seq<Answer>, b: seq<Answer>, m: multiset<Key>, ignoreTTL: bool)
    ensures Votes(a + b, m, ignoreTTL) == Votes(a, m, ignoreTTL) + Votes(b, m, ignoreTTL)
  {
    if b == [] {
      assert a + b == a;
    } else {
      assert (a + b)[..|a + b| - 1] == a + b[..|b| - 1];
      VotesAppend(a, b[..|b| - 1], m, ignoreTTL);
    }
  }

  lemma VotesWithout(b: seq<Answer>, i: nat, m: multiset<Key>, ignoreTTL: bool)
    requires i < |b|
    ensures var rest := b[..i] + b[i + 1..];
            && multiset(rest) == multiset(b) - multiset{b[i]}
            && Votes(b, m, ignoreTTL) == Votes(rest, m, ignoreTTL) + Vote(b[i], m, ignoreTTL)
  {
    var l, x, r := b[..i], [b[i]], b[i + 1..];
    assert b == l + x + r;
    VotesAppend(l + x, r, m, ignoreTTL);
    VotesAppend(l, x, m, ignoreTTL);
    VotesAppend(l, r, m, ignoreTTL);
    assert x[..0] == [];
  }

  /** The order of the resolvers does not matter to the votes. */
  lemma {:induction false} VotesUnordered(a: seq<Answer>, b: seq<Answer>, m: multiset<Key>, ignoreTTL: bool)
    requires multiset(a) == multiset(b)
    ensures Votes(a, m, ignoreTTL) == Votes(b, m, ignoreTTL) && |a| == |b|
  {
    if a == [] {
      assert |multiset(b)| == 0;
    } else {
      var n := |a| - 1;
      var x := a[n];
      assert a == a[..n] + [x];
      assert x in multiset(b);
      var i :| 0 <= i < |b| && b[i] == x;
      VotesWithout(b, i, m, ignoreTTL);
      VotesUnordered(a[..n], b[..i] + b[i + 1..], m, ignoreTTL);
    }
  }

  /** The votes needed: as configured, or else the least that are more than half of the resolvers. */
  function Threshold(minAgreement: int, resolvers: nat): (t: int)
    ensures minAgreement > 0 ==> t == minAgreement
    ensures minAgreement <= 0 ==> 2 * t > resolvers && 2 * (t - 1) <= resolvers
  {
    if minAgreement <= 0 then resolvers / 2 + 1 else minAgreement
  }

  predicate Agreed(answers: seq<Answer>, a: Answer, threshold: int, ignoreTTL: bool) {
    a.Records? && Votes(answers, Class(a.records, ignoreTTL), ignoreTTL) >= threshold
  }

  /** The records of the earliest answer whose class has enough votes, or none if no class has. */
  ghost predicate Decides(answers: seq<Answer>, threshold: int, ignoreTTL: bool, chosen: Option<seq<Record>>) {
    match chosen
    case None => forall i :: 0 <= i < |answers| ==> !Agreed(answers, answers[i], threshold, ignoreTTL)
    case Some(records) =>
      exists i :: 0 <= i < |answers| && answers[i].Records? && answers[i].records == records
        && Agreed(answers, answers[i], threshold, ignoreTTL)
        && forall j :: 0 <= j < i ==> !Agreed(answers, answers[j], threshold, ignoreTTL)
  }

  /** With the default threshold, the winning class is the only one with enough votes, and neither it nor
      the lack of one depends on the order of the resolvers. */
  lemma MajorityUnordered(a: seq<Answer>, b: seq<Answer>, ignoreTTL: bool, x: Option<seq<Record>>, y: Option<seq<Record>>)
    requires multiset(a) == multiset(b)
    requires Decides(a, Threshold(0, |a|), ignoreTTL, x) && Decides(b, Threshold(0, |b|), ignoreTTL, y)
    ensures x.None? <==> y.None?
    ensures x.Some? && y.Some? ==> Class(x.value, ignoreTTL) == Class(y.value, ignoreTTL)
    ensures x.Some? ==> forall i :: 0 <= i < |a| && Agreed(a, a[i], Threshold(0, |a|), ignoreTTL) ==>
                          Class(a[i].records, ignoreTTL) == Class(x.value, ignoreTTL)
  {
    VotesUnordered(a, b, multiset{}, ignoreTTL);
    if x.Some? {
      Found(a, b, Threshold(0, |a|), ignoreTTL, x.value, y);
      forall i | 0 <= i < |a| && Agreed(a, a[i], Threshold(0, |a|), ignoreTTL)
        ensures Class(a[i].records, ignoreTTL) == Class(x.value, ignoreTTL) {
        if Class(a[i].records, ignoreTTL) != Class(x.value, ignoreTTL) {
          VotesApart(a, Class(a[i].records, ignoreTTL), Class(x.value, ignoreTTL), ignoreTTL);
        }
      }
      if y.Some? && Class(x.value, ignoreTTL) != Class(y.value, ignoreTTL) {
        VotesUnordered(a, b, Class(y.value, ignoreTTL), ignoreTTL);
        VotesApart(a, Class(x.value, ignoreTTL), Class(y.value, ignoreTTL), ignoreTTL);
      }
    }
    if y.Some? {
      Found(b, a, Threshold(0, |b|), ignoreTTL, y.value, x);
    }
  }

  /** What is decided in one order is decided somehow in every order. */
  lemma Found(a: seq<Answer>, b: seq<Answer>, threshold: int, ignoreTTL: bool, records: seq<Record>, y: Option<seq<Record>>)
    requires multiset(a) == multiset(b)
    requires Decides(a, threshold, ignoreTTL, Some(records)) && Decides(b, threshold, ignoreTTL, y)
    ensures y.Some?
  {
    var i :| 0 <= i < |a| && a[i].Records? && a[i].records == records && Agreed(a, a[i], threshold, ignoreTTL);
    assert a[i] in multiset(b);
    var j :| 0 <= j < |b| && b[j] == a[i];
    VotesUnordered(a, b, Class(records, ignoreTTL), ignoreTTL);
    assert Agreed(b, b[j], threshold, ignoreTTL);
  }

  datatype Group = Group(records: seq<Record>, count: nat)

  /** Each group counts the votes for its class. */
  ghost predicate Counted(groups: seq<Group>, answers: seq<Answer>, ignoreTTL: bool) {
    forall g {:trigger groups[g]} :: 0 <= g < |groups| ==>
      groups[g].count == Votes(answers, Class(groups[g].records, ignoreTTL), ignoreTTL)
  }

  /** Every vote is in a group of its class, and the groups are in order of their first votes: firsts gives
      the place of a group's first vote, of the group an answer is in. */
  ghost predicate Placed(groups: seq<Group>, firsts: seq<nat>, of: seq<nat>, answers: seq<Answer>, ignoreTTL: bool) {
    && |firsts| == |groups| && |of| == |answers|
    && (forall g {:trigger firsts[g]} :: 0 <= g < |firsts| ==>
          firsts[g] < |answers| && answers[firsts[g]].Records? && answers[firsts[g]].records == groups[g].records)
    && (forall g, k {:trigger firsts[g], firsts[k]} :: 0 <= g < k < |firsts| ==> firsts[g] < firsts[k])
    && (forall i {:trigger of[i]} :: 0 <= i < |of| && answers[i].Records? ==>
          of[i] < |groups| && firsts[of[i]] <= i
          && Class(groups[of[i]].records, ignoreTTL) == Class(answers[i].records, ignoreTTL))
  }

  ghost predicate Grouped(groups: seq<Group>, firsts: seq<nat>, of: seq<nat>, answers: seq<Answer>, ignoreTTL: bool) {
    Counted(groups, answers, ignoreTTL) && Placed(groups, firsts, of, answers, ignoreTTL)
  }

  /** Puts an answer into the first group of its class, or into a new one. */
  method PutIntoGroup(groups: seq<Group>, records: seq<Record>, ignoreTTL: bool) returns (g: nat, groups': seq<Group>)
    ensures g <= |groups|
    ensures forall k {:trigger groups[k]} :: 0 <= k < g ==> Class(groups[k].records, ignoreTTL) != Class(records, ignoreTTL)
    ensures g < |groups| ==>
              && Class(groups[g].records, ignoreTTL) == Class(records, ignoreTTL)
              && groups' == groups[g := groups[g].(count := groups[g].count + 1)]
    ensures g == |groups| ==> groups' == groups + [Group(records, 1)]
  {
    for i := 0 to |groups|
      invariant forall k {:trigger groups[k]} :: 0 <= k < i ==> Class(groups[k].records, ignoreTTL) != Class(records, ignoreTTL)
    {
      var same := RecordsEqual(groups[i].records, records, ignoreTTL);
      if same {
        return i, groups[i := groups[i].(count := groups[i].count + 1)];
      }
    }
    return |groups|, groups + [Group(records, 1)];
  }

  ghost predicate Apart(groups: seq<Group>, ignoreTTL: bool) {
    forall g, k {:trigger groups[g], groups[k]} :: 0 <= g < k < |groups| ==>
      Class(groups[g].records, ignoreTTL) != Class(groups[k].records, ignoreTTL)
  }

  lemma VotesNext(answers: seq<Answer>, a: Answer, m: multiset<Key>, ignoreTTL: bool)
    ensures Votes(answers + [a], m, ignoreTTL) == Votes(answers, m, ignoreTTL) + Vote(a, m, ignoreTTL)
  {
    assert (answers + [a])[..|answers|] == answers;
  }

  lemma FailureGrouped(groups: seq<Group>, firsts: seq<nat>, of: seq<nat>, answers: seq<Answer>, a: Answer, ignoreTTL: bool)
    requires Grouped(groups, firsts, of, answers, ignoreTTL) && a.Failure?
    ensures Grouped(groups, firsts, of + [0], answers + [a], ignoreTTL)
  {
    forall g | 0 <= g < |groups|
      ensures groups[g].count == Votes(answers + [a], Class(groups[g].records, ignoreTTL), ignoreTTL) {
      VotesNext(answers, a, Class(groups[g].records, ignoreTTL), ignoreTTL);
    }
  }

  lemma JoinedGrouped(groups: seq<Group>, firsts: seq<nat>, of: seq<nat>, answers: seq<Answer>, a: Answer, g: nat, ignoreTTL: bool)
    requires Grouped(groups, firsts, of, answers, ignoreTTL) && Apart(groups, ignoreTTL) && a.Records?
    requires g < |groups| && Class(groups[g].records, ignoreTTL) == Class(a.records, ignoreTTL)
    ensures var groups' := groups[g := groups[g].(count := groups[g].count + 1)];
            Grouped(groups', firsts, of + [g], answers + [a], ignoreTTL) && Apart(groups', ignoreTTL)
  {
    JoinedCounted(groups, answers, a, g, ignoreTTL);
    JoinedPlaced(groups, firsts, of, answers, a, g, ignoreTTL);
  }

  lemma JoinedCounted(groups: seq<Group>, answers: seq<Answer>, a: Answer, g: nat, ignoreTTL: bool)
    requires Counted(groups, answers, ignoreTTL) && Apart(groups, ignoreTTL) && a.Records?
    requires g < |groups| && Class(groups[g].records, ignoreTTL) == Class(a.records, ignoreTTL)
    ensures Counted(groups[g := groups[g].(count := groups[g].count + 1)], answers + [a], ignoreTTL)
  {
    var groups' := groups[g := groups[g].(count := groups[g].count + 1)];
    forall k | 0 <= k < |groups|
      ensures groups'[k].count == Votes(answers + [a], Class(groups'[k].records, ignoreTTL), ignoreTTL) {
      assert groups'[k].records == groups[k].records;
      VotesNext(answers, a, Class(groups[k].records, ignoreTTL), ignoreTTL);
    }
  }

  lemma JoinedPlaced(groups: seq<Group>, firsts: seq<nat>, of: seq<nat>, answers: seq<Answer>, a: Answer, g: nat, ignoreTTL: bool)
    requires Placed(groups, firsts, of, answers, ignoreTTL) && a.Records?
    requires g < |groups| && Class(groups[g].records, ignoreTTL) == Class(a.records, ignoreTTL)
    ensures Placed(groups[g := groups[g].(count := groups[g].count + 1)], firsts, of + [g], answers + [a], ignoreTTL)
  {
    assert firsts[g] < |answers|;
  }

  lemma {:induction false} NoVotes(answers: seq<Answer>, m: multiset<Key>, ignoreTTL: bool)
    requires forall i {:trigger answers[i]} :: 0 <= i < |answers| && answers[i].Records? ==> Class(answers[i].records, ignoreTTL) != m
    ensures Votes(answers, m, ignoreTTL) == 0
  {
    if answers != [] {
      NoVotes(answers[..|answers| - 1], m, ignoreTTL);
    }
  }

  lemma NoneYet(groups: seq<Group>, firsts: seq<nat>, of: seq<nat>, answers: seq<Answer>, m: multiset<Key>, ignoreTTL: bool)
    requires Grouped(groups, firsts, of, answers, ignoreTTL)
    requires forall k {:trigger groups[k]} :: 0 <= k < |groups| ==> Class(groups[k].records, ignoreTTL) != m
    ensures Votes(answers, m, ignoreTTL) == 0
  {
    forall i {:trigger answers[i]} | 0 <= i < |answers| && answers[i].Records? ensures Class(answers[i].records, ignoreTTL) != m {
      assert of[i] < |groups|;
    }
    NoVotes(answers, m, ignoreTTL);
  }

  lemma NewPlaced(groups: seq<Group>, firsts: seq<nat>, of: seq<nat>, answers: seq<Answer>, a: Answer, ignoreTTL: bool)
    requires Placed(groups, firsts, of, answers, ignoreTTL) && a.Records?
    ensures Placed(groups + [Group(a.records, 1)], firsts + [|answers|], of + [|groups|], answers + [a], ignoreTTL)
  {
  }

  lemma NewCounted(groups: seq<Group>, answers: seq<Answer>, a: Answer, ignoreTTL: bool)
    requires Counted(groups, answers, ignoreTTL) && a.Records? && Votes(answers, Class(a.records, ignoreTTL), ignoreTTL) == 0
    requires forall k {:trigger groups[k]} :: 0 <= k < |groups| ==> Class(groups[k].records, ignoreTTL) != Class(a.records, ignoreTTL)
    ensures Counted(groups + [Group(a.records, 1)], answers + [a], ignoreTTL)
  {
    var groups' := groups + [Group(a.records, 1)];
    forall k | 0 <= k < |groups'|
      ensures groups'[k].count == Votes(answers + [a], Class(groups'[k].records, ignoreTTL), ignoreTTL) {
      VotesNext(answers, a, Class(groups'[k].records, ignoreTTL), ignoreTTL);
      if k < |groups| {
        assert groups'[k] == groups[k];
      }
    }
  }

  lemma NewGrouped(groups: seq<Group>, firsts: seq<nat>, of: seq<nat>, answers: seq<Answer>, a: Answer, ignoreTTL: bool)
    requires Grouped(groups, firsts, of, answers, ignoreTTL) && Apart(groups, ignoreTTL) && a.Records?
    requires forall k {:trigger groups[k]} :: 0 <= k < |groups| ==> Class(groups[k].records, ignoreTTL) != Class(a.records, ignoreTTL)
    ensures var groups' := groups + [Group(a.records, 1)];
            Grouped(groups', firsts + [|answers|], of + [|groups|], answers + [a], ignoreTTL) && Apart(groups', ignoreTTL)
  {
    NoneYet(groups, firsts, of, answers, Class(a.records, ignoreTTL), ignoreTTL);
    NewCounted(groups, answers, a, ignoreTTL);
    NewPlaced(groups, firsts, of, answers, a, ignoreTTL);
  }

  /** The first group with enough votes is the earliest answer that enough resolvers agree with. */
  lemma FirstGroupDecides(groups: seq<Group>, firsts: seq<nat>, of: seq<nat>, answers: seq<Answer>, g: nat, threshold: int, ignoreTTL: bool)
    requires Grouped(groups, firsts, of, answers, ignoreTTL) && g < |groups| && groups[g].count >= threshold
    requires forall k {:trigger groups[k]} :: 0 <= k < g ==> groups[k].count < threshold
    ensures Decides(answers, threshold, ignoreTTL, Some(groups[g].records))
  {
    var i := firsts[g];
    assert Agreed(answers, answers[i], threshold, ignoreTTL);
    forall j | 0 <= j < i ensures !Agreed(answers, answers[j], threshold, ignoreTTL) {
      if answers[j].Records? {
        assert firsts[of[j]] <= j < firsts[g];
        assert of[j] < g;
        assert groups[of[j]].count < threshold;
      }
    }
  }

  lemma NoGroupDecides(groups: seq<Group>, firsts: seq<nat>, of: seq<nat>, answers: seq<Answer>, threshold: int, ignoreTTL: bool)
    requires Grouped(groups, firsts, of, answers, ignoreTTL)
    requires forall k {:trigger groups[k]} :: 0 <= k < |groups| ==> groups[k].count < threshold
    ensures Decides(answers, threshold, ignoreTTL, None)
  {
    forall j | 0 <= j < |answers| ensures !Agreed(answers, answers[j], threshold, ignoreTTL) {
      if answers[j].Records? {
        assert groups[of[j]].count < threshold;
      }
    }
  }

  /** Consensus.ResolveType: `answers` are the resolvers' answers in turn. */
  method ResolveType(answers: seq<Answer>, minAgreement: int, ignoreTTL: bool) returns (chosen: Option<seq<Record>>)
    ensures Decides(answers, Threshold(minAgreement, |answers|), ignoreTTL, chosen)
    ensures var needed := if minAgreement > 0 then minAgreement else |answers| / 2 + 1;
            && (chosen.None? ==>
                  forall i :: 0 <= i < |answers| && answers[i].Records? ==> Votes(answers, Class(answers[i].records, ignoreTTL), ignoreTTL) < needed)
            && (chosen.Some? ==>
                  exists i :: 0 <= i < |answers| && answers[i].Records? && chosen.value == answers[i].records
                    && Votes(answers, Class(answers[i].records, ignoreTTL), ignoreTTL) >= needed
                    && forall j :: 0 <= j < i && answers[j].Records? ==> Votes(answers, Class(answers[j].records, ignoreTTL), ignoreTTL) < needed)
  {
    var required := if minAgreement <= 0 then |answers| / 2 + 1 else minAgreement;
    var groups: seq<Group> := [];
    ghost var firsts: seq<nat>, of: seq<nat> := [], [];
    for i := 0 to |answers|
      invariant Grouped(groups, firsts, of, answers[..i], ignoreTTL) && Apart(groups, ignoreTTL)
    {
      assert answers[..i + 1] == answers[..i] + [answers[i]];
      if answers[i].Failure? {
        FailureGrouped(groups, firsts, of, answers[..i], answers[i], ignoreTTL);
        of := of + [0];
        continue;
      }
      var g, groups' := PutIntoGroup(groups, answers[i].records, ignoreTTL);
      if g < |groups| {
        JoinedGrouped(groups, firsts, of, answers[..i], answers[i], g, ignoreTTL);
      } else {
        NewGrouped(groups, firsts, of, answers[..i], answers[i], ignoreTTL);
        firsts := firsts + [i];
      }
      groups, of := groups', of + [g];
    }
    assert answers[..|answers|] == answers;
    for g := 0 to |groups|
      invariant forall k {:trigger groups[k]} :: 0 <= k < g ==> groups[k].count < required
    {
      if groups[g].count >= required {
        FirstGroupDecides(groups, firsts, of, answers, g, required, ignoreTTL);
        return Some(groups[g].records);
      }
    }
    NoGroupDecides(groups, firsts, of, answers, required, ignoreTTL);
    return None;
  }
}
