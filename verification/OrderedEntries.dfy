/** Association lists in order of insertion. Keys are compared by eq, which need not be identity. */
module OrderedEntries {
  import opened Options

  datatype Pair<K, V> = Pair(key: K, value: V)

  ghost predicate Equivalence<K(!new)>(eq: (K, K) -> bool) {
    && (forall a :: eq(a, a))
    && (forall a, b {:trigger eq(a, b)} :: eq(a, b) ==> eq(b, a))
    && (forall a, b, c {:trigger eq(a, b), eq(b, c)} :: eq(a, b) && eq(b, c) ==> eq(a, c))
  }

  /** Equal keys hash alike. */
  ghost predicate Respects<K(!new)>(hash: K -> Option<string>, eq: (K, K) -> bool) {
    forall a, b {:trigger eq(a, b)} :: eq(a, b) ==> hash(a) == hash(b)
  }

  ghost predicate Distinct<K, V>(es: seq<Pair<K, V>>, eq: (K, K) -> bool) {
    forall i, j {:trigger es[i], es[j]} :: 0 <= i < j < |es| ==> !eq(es[i].key, es[j].key)
  }

  /** The place of the entry for a key. */
  function Place<K, V>(es: seq<Pair<K, V>>, key: K, eq: (K, K) -> bool): (n: nat)
    ensures n <= |es| && (n < |es| ==> eq(es[n].key, key))
    ensures forall i {:trigger es[i]} :: 0 <= i < n ==> !eq(es[i].key, key)
  {
    if es == [] || eq(es[0].key, key) then 0 else 1 + Place(es[1..], key, eq)
  }

  /** A new entry goes to the end, one for a key that is there takes its place. */
  function Put<K, V>(es: seq<Pair<K, V>>, p: Pair<K, V>, eq: (K, K) -> bool): seq<Pair<K, V>> {
    var n := Place(es, p.key, eq);
    if n < |es| then es[n := p] else es + [p]
  }

  function PutAll<K, V>(es: seq<Pair<K, V>>, ps: seq<Pair<K, V>>, eq: (K, K) -> bool): seq<Pair<K, V>> {
    if ps == [] then es else Put(PutAll(es, ps[..|ps| - 1], eq), ps[|ps| - 1], eq)
  }

  function Without<K, V>(es: seq<Pair<K, V>>, key: K, eq: (K, K) -> bool): seq<Pair<K, V>> {
    var n := Place(es, key, eq);
    if n < |es| then es[..n] + es[n + 1..] else es
  }

  /** The place is the only one. */
  lemma PlaceIs<K(!new), V>(es: seq<Pair<K, V>>, key: K, eq: (K, K) -> bool, n: nat)
    requires Equivalence(eq) && Distinct(es, eq) && n < |es| && eq(es[n].key, key)
    ensures Place(es, key, eq) == n
  {
    assert eq(key, es[n].key);
    assert Place(es, key, eq) <= n;
  }

  lemma OthersDiffer<K(!new), V>(es: seq<Pair<K, V>>, key: K, eq: (K, K) -> bool, n: nat, j: nat)
    requires Equivalence(eq) && Distinct(es, eq) && n < |es| && j < |es| && j != n && eq(es[n].key, key)
    ensures !eq(es[j].key, key)
  {
    assert eq(key, es[n].key);
    assert !eq(es[if j < n then j else n].key, es[if j < n then n else j].key);
  }

  /** Putting an entry: at the place of the equal key if there is one, else at the end; all others stay. */
  lemma PutMeans<K(!new), V>(es: seq<Pair<K, V>>, p: Pair<K, V>, eq: (K, K) -> bool)
    requires Equivalence(eq) && Distinct(es, eq)
    ensures forall n {:trigger es[n]} :: 0 <= n < |es| && eq(es[n].key, p.key) ==> Put(es, p, eq) == es[..n] + [p] + es[n + 1..]
    ensures (forall n {:trigger es[n]} :: 0 <= n < |es| ==> !eq(es[n].key, p.key)) ==> Put(es, p, eq) == es + [p]
  {
    forall n {:trigger es[n]} | 0 <= n < |es| && eq(es[n].key, p.key) ensures Put(es, p, eq) == es[..n] + [p] + es[n + 1..] {
      PlaceIs(es, p.key, eq, n);
    }
  }

  /** Removing a key takes out the entry with the equal key, if there is one, and leaves the others in their order. */
  lemma WithoutMeans<K(!new), V>(es: seq<Pair<K, V>>, key: K, eq: (K, K) -> bool)
    requires Equivalence(eq) && Distinct(es, eq)
    ensures forall n {:trigger es[n]} :: 0 <= n < |es| && eq(es[n].key, key) ==> Without(es, key, eq) == es[..n] + es[n + 1..]
    ensures (forall n {:trigger es[n]} :: 0 <= n < |es| ==> !eq(es[n].key, key)) ==> Without(es, key, eq) == es
  {
    forall n {:trigger es[n]} | 0 <= n < |es| && eq(es[n].key, key) ensures Without(es, key, eq) == es[..n] + es[n + 1..] {
      PlaceIs(es, key, eq, n);
    }
  }

  lemma PutDistinct<K(!new), V>(es: seq<Pair<K, V>>, p: Pair<K, V>, eq: (K, K) -> bool)
    requires Equivalence(eq) && Distinct(es, eq)
    ensures Distinct(Put(es, p, eq), eq) && |es| <= |Put(es, p, eq)|
  {
    var n, r := Place(es, p.key, eq), Put(es, p, eq);
    forall i, j {:trigger r[i], r[j]} | 0 <= i < j < |r| ensures !eq(r[i].key, r[j].key) {
      if n < |es| {
        assert eq(es[n].key, p.key) && eq(p.key, es[n].key);
        assert i != n ==> r[i] == es[i];
        assert j != n ==> r[j] == es[j];
      }
    }
  }

  lemma WithoutDistinct<K(!new), V>(es: seq<Pair<K, V>>, key: K, eq: (K, K) -> bool)
    requires Equivalence(eq) && Distinct(es, eq)
    ensures Distinct(Without(es, key, eq), eq) && Place(Without(es, key, eq), key, eq) == |Without(es, key, eq)|
  {
    var n, r := Place(es, key, eq), Without(es, key, eq);
    if n < |es| {
      forall i {:trigger r[i]} | 0 <= i < |r| ensures r[i] == es[if i < n then i else i + 1] && !eq(r[i].key, key) {
        OthersDiffer(es, key, eq, n, if i < n then i else i + 1);
      }
    }
  }

  /** Putting back a removed key moves it to the end. */
  lemma ReaddedLast<K(!new), V>(es: seq<Pair<K, V>>, p: Pair<K, V>, eq: (K, K) -> bool)
    requires Equivalence(eq) && Distinct(es, eq)
    ensures Put(Without(es, p.key, eq), p, eq) == Without(es, p.key, eq) + [p]
  {
    WithoutDistinct(es, p.key, eq);
  }

  /** The entries of ps for keys that es does not have, in their order. */
  function Missing<K, V>(es: seq<Pair<K, V>>, ps: seq<Pair<K, V>>, eq: (K, K) -> bool): (r: seq<Pair<K, V>>)
    ensures forall p :: p in r ==> p in ps && Place(es, p.key, eq) == |es|
  {
    if ps == [] then []
    else
      var n := |ps| - 1;
      Missing(es, ps[..n], eq) + if Place(es, ps[n].key, eq) == |es| then [ps[n]] else []
  }

  /** The entries of es, with the entry of ps wherever that has one for the key. */
  function Overridden<K, V>(es: seq<Pair<K, V>>, ps: seq<Pair<K, V>>, eq: (K, K) -> bool): seq<Pair<K, V>> {
    seq(|es|, i requires 0 <= i < |es| =>
      var n := Place(ps, es[i].key, eq);
      if n < |ps| then ps[n] else es[i])
  }

  lemma {:induction false} PlaceAppend<K, V>(es: seq<Pair<K, V>>, p: Pair<K, V>, key: K, eq: (K, K) -> bool)
    ensures Place(es + [p], key, eq)
         == if Place(es, key, eq) < |es| then Place(es, key, eq) else if eq(p.key, key) then |es| else |es| + 1
  {
    if es == [] {
      assert es + [p] == [p] && [p][1..] == [];
    } else {
      assert (es + [p])[1..] == es[1..] + [p];
      PlaceAppend(es[1..], p, key, eq);
    }
  }

  /** Union: this map's entries in this map's order, overridden by the other's, then the other's entries
      for keys that are missing here, in the other's order. */
  lemma {:induction false} UnionMeans<K(!new), V>(es: seq<Pair<K, V>>, ps: seq<Pair<K, V>>, eq: (K, K) -> bool)
    requires Equivalence(eq) && Distinct(es, eq) && Distinct(ps, eq)
    ensures PutAll(es, ps, eq) == Overridden(es, ps, eq) + Missing(es, ps, eq)
    ensures Distinct(PutAll(es, ps, eq), eq)
  {
    if ps == [] {
      assert Overridden(es, ps, eq) == es;
    } else {
      var f, p := ps[..|ps| - 1], ps[|ps| - 1];
      assert ps == f + [p];
      UnionMeans(es, f, eq);
      assert forall i {:trigger f[i]} :: 0 <= i < |f| ==> f[i] == ps[i];
      UnionStep(es, f, p, eq);
      PutDistinct(PutAll(es, f, eq), p, eq);
    }
  }

  /** None of the entries is for p's key. */
  ghost predicate NotAmong<K, V>(f: seq<Pair<K, V>>, p: Pair<K, V>, eq: (K, K) -> bool) {
    forall i {:trigger f[i]} :: 0 <= i < |f| ==> !eq(f[i].key, p.key)
  }

  lemma OverriddenNext<K(!new), V>(es: seq<Pair<K, V>>, f: seq<Pair<K, V>>, p: Pair<K, V>, eq: (K, K) -> bool, i: nat)
    requires Equivalence(eq) && NotAmong(f, p, eq) && i < |es|
    ensures Overridden(es, f + [p], eq)[i] == if eq(p.key, es[i].key) then p else Overridden(es, f, eq)[i]
    ensures eq(Overridden(es, f, eq)[i].key, es[i].key)
  {
    PlaceAppend(f, p, es[i].key, eq);
    var n := Place(f, es[i].key, eq);
    if n < |f| {
      assert !eq(f[n].key, p.key);
    }
  }

  lemma UnionHit<K(!new), V>(es: seq<Pair<K, V>>, o: seq<Pair<K, V>>, o': seq<Pair<K, V>>, m: seq<Pair<K, V>>, p: Pair<K, V>, eq: (K, K) -> bool)
    requires Equivalence(eq) && Distinct(es, eq) && Distinct(o + m, eq) && |es| == |o| == |o'|
    requires forall i {:trigger o[i]} :: 0 <= i < |es| ==> eq(o[i].key, es[i].key)
    requires forall i {:trigger o'[i]} :: 0 <= i < |es| ==> o'[i] == if eq(p.key, es[i].key) then p else o[i]
    requires Place(es, p.key, eq) < |es|
    ensures Put(o + m, p, eq) == o' + m
  {
    var n := Place(es, p.key, eq);
    assert eq(o[n].key, es[n].key) && (o + m)[n] == o[n] && eq(p.key, es[n].key);
    PlaceIs(o + m, p.key, eq, n);
    forall i | 0 <= i < |es| ensures o'[i] == if i == n then p else o[i] {
      if eq(p.key, es[i].key) {
        assert eq(es[i].key, p.key);
        PlaceIs(es, p.key, eq, i);
      }
    }
  }

  lemma UnionMiss<K(!new), V>(es: seq<Pair<K, V>>, o: seq<Pair<K, V>>, o': seq<Pair<K, V>>, m: seq<Pair<K, V>>, p: Pair<K, V>, eq: (K, K) -> bool)
    requires Equivalence(eq) && |es| == |o| == |o'| && NotAmong(m, p, eq)
    requires forall i {:trigger o[i]} :: 0 <= i < |es| ==> eq(o[i].key, es[i].key)
    requires forall i {:trigger o'[i]} :: 0 <= i < |es| ==> o'[i] == if eq(p.key, es[i].key) then p else o[i]
    requires Place(es, p.key, eq) == |es|
    ensures Put(o + m, p, eq) == o' + (m + [p])
  {
    forall i | 0 <= i < |es| ensures !eq(o[i].key, p.key) && o'[i] == o[i] {
      assert !eq(es[i].key, p.key) && eq(o[i].key, es[i].key);
      assert eq(es[i].key, o[i].key);
    }
    assert o' == o;
  }

  lemma UnionStep<K(!new), V>(es: seq<Pair<K, V>>, f: seq<Pair<K, V>>, p: Pair<K, V>, eq: (K, K) -> bool)
    requires Equivalence(eq) && Distinct(es, eq) && NotAmong(f, p, eq)
    requires Distinct(Overridden(es, f, eq) + Missing(es, f, eq), eq)
    ensures Put(Overridden(es, f, eq) + Missing(es, f, eq), p, eq) == Overridden(es, f + [p], eq) + Missing(es, f + [p], eq)
  {
    var o, o', m := Overridden(es, f, eq), Overridden(es, f + [p], eq), Missing(es, f, eq);
    assert (f + [p])[..|f|] == f;
    forall i | 0 <= i < |es| ensures o'[i] == (if eq(p.key, es[i].key) then p else o[i]) && eq(o[i].key, es[i].key) {
      OverriddenNext(es, f, p, eq, i);
    }
    if Place(es, p.key, eq) < |es| {
      UnionHit(es, o, o', m, p, eq);
    } else {
      forall i {:trigger m[i]} | 0 <= i < |m| ensures !eq(m[i].key, p.key) {
        assert m[i] in f;
      }
      UnionMiss(es, o, o', m, p, eq);
    }
  }

  /** The entries of es whose keys ps has too. */
  function Common<K, V>(es: seq<Pair<K, V>>, ps: seq<Pair<K, V>>, eq: (K, K) -> bool): seq<Pair<K, V>> {
    if es == [] then []
    else
      var n := |es| - 1;
      Common(es[..n], ps, eq) + if Place(ps, es[n].key, eq) < |ps| then [es[n]] else []
  }

  lemma {:induction false} CommonFrom<K, V>(es: seq<Pair<K, V>>, ps: seq<Pair<K, V>>, eq: (K, K) -> bool, k: nat) returns (j: nat)
    requires k < |Common(es, ps, eq)|
    ensures j < |es| && Common(es, ps, eq)[k] == es[j]
  {
    var n := |es| - 1;
    if k < |Common(es[..n], ps, eq)| {
      j := CommonFrom(es[..n], ps, eq, k);
    } else {
      j := n;
    }
  }

  /** The entries in common are those of es for whose key ps has an equal one. */
  lemma {:induction false} CommonMeans<K, V>(es: seq<Pair<K, V>>, ps: seq<Pair<K, V>>, eq: (K, K) -> bool)
    ensures forall p :: p in Common(es, ps, eq) <==> p in es && exists j {:trigger ps[j]} :: 0 <= j < |ps| && eq(ps[j].key, p.key)
  {
    if es != [] {
      var n := |es| - 1;
      CommonMeans(es[..n], ps, eq);
      assert es == es[..n] + [es[n]];
    }
  }

  /** Another key has the same hash. */
  ghost predicate Clashes<K, V>(es: seq<Pair<K, V>>, key: K, hash: K -> Option<string>, eq: (K, K) -> bool) {
    exists i {:trigger es[i]} :: 0 <= i < |es| && hash(es[i].key) == hash(key) && !eq(key, es[i].key)
  }

  /** The entries can be put in one after the other without two keys colliding. */
  ghost predicate Addable<K, V>(es: seq<Pair<K, V>>, ps: seq<Pair<K, V>>, hash: K -> Option<string>, eq: (K, K) -> bool) {
    ps == [] ||
      var n := |ps| - 1;
      && Addable(es, ps[..n], hash, eq)
      && hash(ps[n].key).Some? && !Clashes(PutAll(es, ps[..n], eq), ps[n].key, hash, eq)
  }

  lemma {:induction false} AddablePrefix<K, V>(es: seq<Pair<K, V>>, ps: seq<Pair<K, V>>, hash: K -> Option<string>, eq: (K, K) -> bool, i: nat)
    requires i <= |ps| && Addable(es, ps, hash, eq)
    ensures Addable(es, ps[..i], hash, eq)
    decreases |ps|
  {
    if i < |ps| {
      AddablePrefix(es, ps[..|ps| - 1], hash, eq, i);
      assert ps[..|ps| - 1][..i] == ps[..i];
    } else {
      assert ps[..i] == ps;
    }
  }

  lemma NotAddable<K, V>(es: seq<Pair<K, V>>, ps: seq<Pair<K, V>>, hash: K -> Option<string>, eq: (K, K) -> bool, i: nat)
    requires i < |ps| && (hash(ps[i].key).None? || Clashes(PutAll(es, ps[..i], eq), ps[i].key, hash, eq))
    ensures !Addable(es, ps, hash, eq)
  {
    assert ps[..i + 1][..i] == ps[..i];
    if Addable(es, ps, hash, eq) {
      AddablePrefix(es, ps, hash, eq, i + 1);
    }
  }

  ghost predicate NewAmong<K, V>(es: seq<Pair<K, V>>, key: K, hash: K -> Option<string>) {
    forall i {:trigger es[i]} :: 0 <= i < |es| ==> hash(es[i].key) != hash(key)
  }

  /** An entry whose key's hash is new goes to the end. */
  lemma NewHash<K(!new), V>(es: seq<Pair<K, V>>, p: Pair<K, V>, hash: K -> Option<string>, eq: (K, K) -> bool)
    requires Respects(hash, eq) && NewAmong(es, p.key, hash)
    ensures !Clashes(es, p.key, hash, eq) && Put(es, p, eq) == es + [p]
  {
  }

  lemma CommonStep<K, V>(es: seq<Pair<K, V>>, ps: seq<Pair<K, V>>, eq: (K, K) -> bool, i: nat)
    requires i < |es|
    ensures Common(es[..i + 1], ps, eq) == Common(es[..i], ps, eq) + if Place(ps, es[i].key, eq) < |ps| then [es[i]] else []
  {
    assert es[..i + 1][..i] == es[..i];
  }

  lemma CommonHashes<K, V>(es: seq<Pair<K, V>>, ps: seq<Pair<K, V>>, hash: K -> Option<string>, eq: (K, K) -> bool, i: nat)
    requires i < |es| && HashesApart(es, hash)
    ensures NewAmong(Common(es[..i], ps, eq), es[i].key, hash)
  {
    var c := Common(es[..i], ps, eq);
    forall k {:trigger c[k]} | 0 <= k < |c| ensures hash(c[k].key) != hash(es[i].key) {
      var j := CommonFrom(es[..i], ps, eq, k);
      assert es[j] == c[k];
    }
  }

  /** What es and ps have in common can take the next entry of es too. */
  lemma CommonNext<K(!new), V>(es: seq<Pair<K, V>>, ps: seq<Pair<K, V>>, hash: K -> Option<string>, eq: (K, K) -> bool, i: nat)
    requires Respects(hash, eq) && i < |es| && HashesApart(es, hash)
    ensures var c := Common(es[..i], ps, eq);
            && !Clashes(c, es[i].key, hash, eq)
            && Common(es[..i + 1], ps, eq) == if Place(ps, es[i].key, eq) < |ps| then Put(c, es[i], eq) else c
  {
    var c := Common(es[..i], ps, eq);
    CommonHashes(es, ps, hash, eq, i);
    NewHash(c, es[i], hash, eq);
    CommonStep(es, ps, eq, i);
  }

  ghost predicate HashesApart<K, V>(es: seq<Pair<K, V>>, hash: K -> Option<string>) {
    && (forall i {:trigger es[i]} :: 0 <= i < |es| ==> hash(es[i].key).Some?)
    && (forall j, k {:trigger es[j], es[k]} :: 0 <= j < k < |es| ==> hash(es[j].key) != hash(es[k].key))
  }

  /** The key can be looked up in ps. */
  ghost predicate Findable<K, V>(key: K, ps: seq<Pair<K, V>>, hash: K -> Option<string>, eq: (K, K) -> bool) {
    hash(key).Some? && !Clashes(ps, key, hash, eq)
  }

  ghost predicate AllFindable<K, V>(es: seq<Pair<K, V>>, ps: seq<Pair<K, V>>, hash: K -> Option<string>, eq: (K, K) -> bool) {
    forall i {:trigger es[i]} :: 0 <= i < |es| ==> Findable(es[i].key, ps, hash, eq)
  }

  datatype Op<K, V> = AddOp(key: K, value: V) | RemoveOp(key: K) | ClearOp

  /** One operation on the list; where it is an error it does nothing. */
  ghost function AppliedOne<K, V>(es: seq<Pair<K, V>>, op: Op<K, V>, hash: K -> Option<string>, eq: (K, K) -> bool): seq<Pair<K, V>> {
    match op
    case AddOp(key, value) => if Findable(key, es, hash, eq) then Put(es, Pair(key, value), eq) else es
    case RemoveOp(key) => if Findable(key, es, hash, eq) then Without(es, key, eq) else es
    case ClearOp => []
  }

  ghost function Applied<K, V>(es: seq<Pair<K, V>>, ops: seq<Op<K, V>>, hash: K -> Option<string>, eq: (K, K) -> bool): seq<Pair<K, V>> {
    if ops == [] then es else AppliedOne(Applied(es, ops[..|ops| - 1], hash, eq), ops[|ops| - 1], hash, eq)
  }

  /** In every run no two keys are equal. */
  lemma {:induction false} AppliedDistinct<K(!new), V>(es: seq<Pair<K, V>>, ops: seq<Op<K, V>>, hash: K -> Option<string>, eq: (K, K) -> bool)
    requires Equivalence(eq) && Distinct(es, eq)
    ensures Distinct(Applied(es, ops, hash, eq), eq)
  {
    if ops != [] {
      AppliedDistinct(es, ops[..|ops| - 1], hash, eq);
      var was := Applied(es, ops[..|ops| - 1], hash, eq);
      match ops[|ops| - 1]
      case AddOp(key, value) => PutDistinct(was, Pair(key, value), eq);
      case RemoveOp(key) => WithoutDistinct(was, key, eq);
      case ClearOp =>
    }
  }

  /** What one operation of a run does to the list, entry by entry: nothing if the key cannot be hashed, or has the
      hash of a different key. */
  lemma OneMeans<K(!new), V>(es: seq<Pair<K, V>>, op: Op<K, V>, hash: K -> Option<string>, eq: (K, K) -> bool)
    requires Equivalence(eq) && Distinct(es, eq)
    ensures var r := AppliedOne(es, op, hash, eq);
            match op
            case ClearOp => r == []
            case AddOp(key, value) =>
              var fine := hash(key).Some? && forall i {:trigger es[i]} :: 0 <= i < |es| && hash(es[i].key) == hash(key) ==> eq(key, es[i].key);
              && (!fine ==> r == es)
              && (fine ==>
                    && (forall n {:trigger es[n]} :: 0 <= n < |es| && eq(es[n].key, key) ==> r == es[..n] + [Pair(key, value)] + es[n + 1..])
                    && ((forall n {:trigger es[n]} :: 0 <= n < |es| ==> !eq(es[n].key, key)) ==> r == es + [Pair(key, value)]))
            case RemoveOp(key) =>
              var fine := hash(key).Some? && forall i {:trigger es[i]} :: 0 <= i < |es| && hash(es[i].key) == hash(key) ==> eq(key, es[i].key);
              && (!fine ==> r == es)
              && (fine ==>
                    && (forall n {:trigger es[n]} :: 0 <= n < |es| && eq(es[n].key, key) ==> r == es[..n] + es[n + 1..])
                    && ((forall n {:trigger es[n]} :: 0 <= n < |es| ==> !eq(es[n].key, key)) ==> r == es))
  {
    match op
    case ClearOp =>
    case AddOp(key, value) => PutMeans(es, Pair(key, value), eq);
    case RemoveOp(key) => WithoutMeans(es, key, eq);
  }
}
