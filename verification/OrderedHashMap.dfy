/** The insertion-ordered map over a hash table: a slice of keys beside a table from hashes to entries. */
module OrderedHashMap {
  import opened Options
  import opened OrderedEntries

  /** The result of an operation whose error is that of the hash function, or that two keys collide. */
  datatype Outcome = Ok | HashFailed | HashCollision

  /** The keys have different hashes, and the table has, for exactly these hashes, entries for equal keys. */
  ghost predicate Stored<K(!new), V>(keys: seq<K>, data: map<string, Pair<K, V>>, hash: K -> Option<string>, eq: (K, K) -> bool) {
    && (forall i {:trigger keys[i]} :: 0 <= i < |keys| ==>
          hash(keys[i]).Some? && hash(keys[i]).value in data && eq(keys[i], data[hash(keys[i]).value].key))
    && (forall i, j {:trigger keys[i], keys[j]} :: 0 <= i < j < |keys| ==> hash(keys[i]) != hash(keys[j]))
    && (forall h {:trigger h in data} :: h in data ==> exists i :: 0 <= i < |keys| && hash(keys[i]) == Some(h))
  }

  function Entries<K, V>(keys: seq<K>, data: map<string, Pair<K, V>>, hash: K -> Option<string>): (es: seq<Pair<K, V>>)
    requires forall i {:trigger keys[i]} :: 0 <= i < |keys| ==> hash(keys[i]).Some? && hash(keys[i]).value in data
    ensures |es| == |keys| && forall i {:trigger es[i]} :: 0 <= i < |es| ==> es[i] == data[hash(keys[i]).value]
  {
    seq(|keys|, i requires 0 <= i < |keys| => data[hash(keys[i]).value])
  }

  /** Hashes find what comparing keys finds. */
  lemma LookupFinds<K(!new), V>(keys: seq<K>, data: map<string, Pair<K, V>>, hash: K -> Option<string>, eq: (K, K) -> bool, key: K)
    requires Equivalence(eq) && Respects(hash, eq) && Stored(keys, data, hash, eq) && hash(key).Some?
    ensures var es, h := Entries(keys, data, hash), hash(key).value;
            var n := Place(es, key, eq);
            && Distinct(es, eq)
            && (Clashes(es, key, hash, eq) <==> h in data && !eq(key, data[h].key))
            && (n < |es| <==> h in data && eq(key, data[h].key))
            && (n < |es| ==> hash(keys[n]) == hash(key) && es[n] == data[h] && eq(keys[n], key))
            && forall i {:trigger keys[i]} :: 0 <= i < |keys| && eq(keys[i], key) ==> i == n
  {
    var es, h := Entries(keys, data, hash), hash(key).value;
    forall i {:trigger es[i]} | 0 <= i < |es| ensures hash(es[i].key) == hash(keys[i]) {
      assert eq(keys[i], data[hash(keys[i]).value].key);
    }
    if h in data {
      var i :| 0 <= i < |keys| && hash(keys[i]) == Some(h);
      assert es[i] == data[h];
      if eq(key, data[h].key) {
        assert eq(data[h].key, key);
        PlaceIs(es, key, eq, i);
        assert eq(keys[i], es[i].key);
      }
    }
  }

  lemma UpdatedStored<K(!new), V>(keys: seq<K>, data: map<string, Pair<K, V>>, hash: K -> Option<string>, eq: (K, K) -> bool, p: Pair<K, V>)
    requires Equivalence(eq) && Respects(hash, eq) && Stored(keys, data, hash, eq) && hash(p.key).Some?
    requires hash(p.key).value in data && eq(p.key, data[hash(p.key).value].key)
    ensures var data' := data[hash(p.key).value := p];
            Stored(keys, data', hash, eq) && Entries(keys, data', hash) == Put(Entries(keys, data, hash), p, eq)
  {
    LookupFinds(keys, data, hash, eq, p.key);
    var n := Place(Entries(keys, data, hash), p.key, eq);
    forall i {:trigger keys[i]} | 0 <= i < |keys| && hash(keys[i]) == hash(p.key) ensures i == n {
      assert hash(keys[n]) == hash(keys[i]);
    }
  }

  lemma AppendedStored<K(!new), V>(keys: seq<K>, data: map<string, Pair<K, V>>, hash: K -> Option<string>, eq: (K, K) -> bool, p: Pair<K, V>)
    requires Equivalence(eq) && Respects(hash, eq) && Stored(keys, data, hash, eq) && hash(p.key).Some?
    requires hash(p.key).value !in data
    ensures var data' := data[hash(p.key).value := p];
            Stored(keys + [p.key], data', hash, eq) && Entries(keys + [p.key], data', hash) == Put(Entries(keys, data, hash), p, eq)
  {
    LookupFinds(keys, data, hash, eq, p.key);
    var h, keys' := hash(p.key).value, keys + [p.key];
    var data' := data[h := p];
    assert keys'[|keys|] == p.key;
    forall g | g in data' ensures exists i :: 0 <= i < |keys'| && hash(keys'[i]) == Some(g) {
      if g != h {
        var i :| 0 <= i < |keys| && hash(keys[i]) == Some(g);
        assert keys'[i] == keys[i];
      }
    }
  }

  /** The other keys' hashes survive the removal of a key's. */
  lemma OtherStays<K(!new), V>(keys: seq<K>, data: map<string, Pair<K, V>>, hash: K -> Option<string>, eq: (K, K) -> bool, key: K, n: nat, i: nat)
    requires Respects(hash, eq) && Stored(keys, data, hash, eq) && hash(key).Some? && n < |keys| && eq(keys[n], key)
    requires i < |keys| && i != n
    ensures var data' := data - {hash(key).value};
            && hash(keys[i]).Some? && hash(keys[i]).value in data' && data'[hash(keys[i]).value] == data[hash(keys[i]).value]
            && eq(keys[i], data'[hash(keys[i]).value].key)
  {
    assert hash(keys[n]) == hash(key);
    assert hash(keys[i]) != hash(keys[n]);
  }

  lemma RemovedKeys<K(!new), V>(keys: seq<K>, data: map<string, Pair<K, V>>, hash: K -> Option<string>, eq: (K, K) -> bool, key: K, n: nat)
    requires Respects(hash, eq) && Stored(keys, data, hash, eq) && hash(key).Some?
    requires n < |keys| && eq(keys[n], key)
    ensures Stored(keys[..n] + keys[n + 1..], data - {hash(key).value}, hash, eq)
  {
    var keys', data' := keys[..n] + keys[n + 1..], data - {hash(key).value};
    assert forall i {:trigger keys'[i]} :: 0 <= i < |keys'| ==> keys'[i] == keys[if i < n then i else i + 1];
    forall i {:trigger keys'[i]} | 0 <= i < |keys'|
      ensures hash(keys'[i]).Some? && hash(keys'[i]).value in data' && eq(keys'[i], data'[hash(keys'[i]).value].key) {
      OtherStays(keys, data, hash, eq, key, n, if i < n then i else i + 1);
    }
    forall i, j {:trigger keys'[i], keys'[j]} | 0 <= i < j < |keys'| ensures hash(keys'[i]) != hash(keys'[j]) {
      var k, l := if i < n then i else i + 1, if j < n then j else j + 1;
      assert hash(keys[k]) != hash(keys[l]);
    }
    forall g {:trigger g in data'} | g in data' ensures exists i :: 0 <= i < |keys'| && hash(keys'[i]) == Some(g) {
      var i := KeyStays(keys, data, hash, eq, key, n, g);
    }
  }

  lemma KeyStays<K(!new), V>(keys: seq<K>, data: map<string, Pair<K, V>>, hash: K -> Option<string>, eq: (K, K) -> bool, key: K, n: nat, g: string)
    returns (i: nat)
    requires Respects(hash, eq) && Stored(keys, data, hash, eq) && hash(key).Some? && n < |keys| && eq(keys[n], key)
    requires g in data && g != hash(key).value
    ensures i < |keys| - 1 && hash((keys[..n] + keys[n + 1..])[i]) == Some(g)
  {
    var j :| 0 <= j < |keys| && hash(keys[j]) == Some(g);
    assert hash(keys[n]) == hash(key);
    i := if j < n then j else j - 1;
  }

  lemma SameEntries<K, V>(keys: seq<K>, data: map<string, Pair<K, V>>, data': map<string, Pair<K, V>>, hash: K -> Option<string>, n: nat)
    requires forall i {:trigger keys[i]} :: 0 <= i < |keys| ==> hash(keys[i]).Some? && hash(keys[i]).value in data
    requires n < |keys| && forall i {:trigger keys[i]} :: 0 <= i < |keys| && i != n ==>
               hash(keys[i]).value in data' && data'[hash(keys[i]).value] == data[hash(keys[i]).value]
    ensures var es := Entries(keys, data, hash);
            Entries(keys[..n] + keys[n + 1..], data', hash) == es[..n] + es[n + 1..]
  {
    assert forall i {:trigger (keys[..n] + keys[n + 1..])[i]} :: 0 <= i < |keys| - 1 ==>
        (keys[..n] + keys[n + 1..])[i] == keys[if i < n then i else i + 1];
  }

  lemma RemovedStored<K(!new), V>(keys: seq<K>, data: map<string, Pair<K, V>>, hash: K -> Option<string>, eq: (K, K) -> bool, key: K, n: nat)
    requires Equivalence(eq) && Respects(hash, eq) && Stored(keys, data, hash, eq) && hash(key).Some?
    requires n < |keys| && eq(keys[n], key)
    ensures var keys', data' := keys[..n] + keys[n + 1..], data - {hash(key).value};
            Stored(keys', data', hash, eq) && Entries(keys', data', hash) == Without(Entries(keys, data, hash), key, eq)
  {
    RemovedKeys(keys, data, hash, eq, key, n);
    forall i {:trigger keys[i]} | 0 <= i < |keys| && i != n
      ensures hash(keys[i]).value in data - {hash(key).value}
           && (data - {hash(key).value})[hash(keys[i]).value] == data[hash(keys[i]).value] {
      OtherStays(keys, data, hash, eq, key, n, i);
    }
    LookupFinds(keys, data, hash, eq, key);
    SameEntries(keys, data, data - {hash(key).value}, hash, n);
  }

  class OrderedHashMap<K(!new), V> {
    const hash: K -> Option<string>
    const eq: (K, K) -> bool
    var orderedKeys: seq<K>
    var data: map<string, Pair<K, V>>

    constructor (hash: K -> Option<string>, eq: (K, K) -> bool)
      requires Equivalence(eq) && Respects(hash, eq)
      ensures Valid() && Contents() == [] && this.hash == hash && this.eq == eq
    {
      this.hash, this.eq := hash, eq;
      orderedKeys, data := [], map[];
    }

    ghost predicate Valid()
      reads this
    {
      Equivalence(eq) && Respects(hash, eq) && Stored(orderedKeys, data, hash, eq)
    }

    /** The entries in order of insertion. */
    ghost function Contents(): seq<Pair<K, V>>
      requires Valid()
      reads this
    {
      Entries(orderedKeys, data, hash)
    }

    ghost predicate Clash(key: K)
      requires Valid()
      reads this
    {
      Clashes(Contents(), key, hash, eq)
    }

    /** No two keys are equal. */
    lemma KeysDistinct()
      requires Valid()
      ensures Distinct(Contents(), eq)
    {
      var es := Contents();
      forall i, j {:trigger es[i], es[j]} | 0 <= i < j < |es| ensures !eq(es[i].key, es[j].key) {
        LookupFinds(orderedKeys, data, hash, eq, orderedKeys[i]);
      }
    }

    /** Get. */
    method Get(key: K) returns (r: Outcome, found: Option<V>)
      requires Valid()
      ensures hash(key).None? ==> r == HashFailed
      ensures hash(key).Some? ==> r == if Clash(key) then HashCollision else Ok
      ensures found == if r == Ok && Place(Contents(), key, eq) < |Contents()| then Some(Contents()[Place(Contents(), key, eq)].value) else None
    {
      match hash(key)
      case None => return HashFailed, None;
      case Some(h) =>
        LookupFinds(orderedKeys, data, hash, eq, key);
        if h !in data {
          return Ok, None;
        }
        if !eq(data[h].key, key) {
          return HashCollision, None;
        }
        return Ok, Some(data[h].value);
    }

    /** Contains. */
    method Contains(key: K) returns (r: Outcome, found: bool)
      requires Valid()
      ensures hash(key).None? ==> r == HashFailed
      ensures hash(key).Some? ==> r == if Clash(key) then HashCollision else Ok
      ensures found <==> r == Ok && Place(Contents(), key, eq) < |Contents()|
    {
      match hash(key)
      case None => return HashFailed, false;
      case Some(h) =>
        LookupFinds(orderedKeys, data, hash, eq, key);
        if h !in data {
          return Ok, false;
        }
        if !eq(key, data[h].key) {
          return HashCollision, false;
        }
        return Ok, true;
    }

    /** Add: a new key goes to the end, an equal one stays where it is. An error changes nothing. */
    method Add(key: K, value: V) returns (r: Outcome)
      requires Valid()
      modifies this
      ensures Valid() && (r != Ok ==> unchanged(this))
      ensures hash(key).None? ==> r == HashFailed
      ensures hash(key).Some? ==> r == if old(Clash(key)) then HashCollision else Ok
      ensures r == Ok ==> Contents() == Put(old(Contents()), Pair(key, value), eq)
    {
      match hash(key)
      case None => return HashFailed;
      case Some(h) =>
        LookupFinds(orderedKeys, data, hash, eq, key);
        if h in data && !eq(key, data[h].key) {
          return HashCollision;
        }
        if h in data {
          UpdatedStored(orderedKeys, data, hash, eq, Pair(key, value));
        } else {
          AppendedStored(orderedKeys, data, hash, eq, Pair(key, value));
          orderedKeys := orderedKeys + [key];
        }
        data := data[h := Pair(key, value)];
        return Ok;
    }

    /** Remove. An error changes nothing, nor does a key that is not there. */
    method Remove(key: K) returns (r: Outcome)
      requires Valid()
      modifies this
      ensures Valid() && (r != Ok ==> unchanged(this))
      ensures hash(key).None? ==> r == HashFailed
      ensures hash(key).Some? ==> r == if old(Clash(key)) then HashCollision else Ok
      ensures r == Ok ==> Contents() == Without(old(Contents()), key, eq)
    {
      match hash(key)
      case None => return HashFailed;
      case Some(h) =>
        LookupFinds(orderedKeys, data, hash, eq, key);
        if h !in data {
          assert data - {h} == data;
          data := data - {h};
          return Ok;
        }
        if !eq(key, data[h].key) {
          return HashCollision;
        }
        var i := 0;
        while i < |orderedKeys| && !eq(orderedKeys[i], key)
          invariant 0 <= i <= |orderedKeys| && forall k :: 0 <= k < i ==> !eq(orderedKeys[k], key)
        {
          i := i + 1;
        }
        RemovedStored(orderedKeys, data, hash, eq, key, i);
        orderedKeys := orderedKeys[..i] + orderedKeys[i + 1..];
        data := data - {h};
        return Ok;
    }

    method Clear()
      requires Valid()
      modifies this
      ensures Valid() && Contents() == []
    {
      orderedKeys, data := [], map[];
    }

    /** Any run of operations does to the map what it does to an association list. */
    method Run(ops: seq<Op<K, V>>)
      requires Valid()
      modifies this
      ensures Valid() && Contents() == Applied(old(Contents()), ops, hash, eq)
    {
      ghost var es := Contents();
      for i := 0 to |ops|
        invariant Valid() && Contents() == Applied(es, ops[..i], hash, eq)
      {
        assert ops[..i + 1][..i] == ops[..i];
        match ops[i] {
          case AddOp(key, value) => var _ := Add(key, value);
          case RemoveOp(key) => var _ := Remove(key);
          case ClearOp => Clear();
        }
      }
      assert ops[..|ops|] == ops;
    }

    /** Seq: the entries in order of insertion. */
    method Seq() returns (es: seq<Pair<K, V>>)
      requires Valid()
      ensures es == Contents()
    {
      es := [];
      for i := 0 to |orderedKeys|
        invariant es == Contents()[..i]
      {
        match hash(orderedKeys[i]) {
          case None => return;
          case Some(h) =>
            if h !in data {
              continue;
            }
            es := es + [data[h]];
        }
      }
    }

    lemma HashesDiffer()
      requires Valid()
      ensures HashesApart(Contents(), hash)
    {
      var es := Contents();
      forall i {:trigger es[i]} | 0 <= i < |es| ensures hash(es[i].key) == hash(orderedKeys[i]) {
        assert eq(orderedKeys[i], data[hash(orderedKeys[i]).value].key);
      }
    }

    /** Adds the i-th of some entries after those before it. */
    method AddNext(es: seq<Pair<K, V>>, i: nat)
      requires Valid() && i < |es| && HashesApart(es, hash) && Contents() == es[..i]
      modifies this
      ensures Valid() && Contents() == es[..i + 1]
    {
      NewHash(es[..i], es[i], hash, eq);
      var _ := Add(es[i].key, es[i].value);
      assert es[..i + 1] == es[..i] + [es[i]];
    }

    /** Clone. */
    method Clone() returns (result: OrderedHashMap<K, V>)
      requires Valid()
      ensures fresh(result) && result.Valid() && result.Contents() == Contents() && result.hash == hash && result.eq == eq
    {
      var es := Seq();
      HashesDiffer();
      result := new OrderedHashMap(hash, eq);
      for i := 0 to |es|
        invariant result.Valid() && result.Contents() == es[..i]
        modifies result
      {
        result.AddNext(es, i);
      }
      assert es[..|es|] == es;
    }

    /** Adds the i-th of some entries to what was `base`, those before it having been added. */
    method PutNext(ghost base: seq<Pair<K, V>>, ps: seq<Pair<K, V>>, i: nat) returns (r: Outcome)
      requires Valid() && i < |ps| && Contents() == PutAll(base, ps[..i], eq) && Addable(base, ps[..i], hash, eq)
      modifies this
      ensures Valid() && (r != Ok ==> !Addable(base, ps, hash, eq))
      ensures r == Ok ==> Contents() == PutAll(base, ps[..i + 1], eq) && Addable(base, ps[..i + 1], hash, eq)
    {
      assert ps[..i + 1][..i] == ps[..i];
      r := Add(ps[i].key, ps[i].value);
      if r != Ok {
        NotAddable(base, ps, hash, eq, i);
      }
    }

    /** Adds entries one after the other, up to the first error. */
    method PutEach(ps: seq<Pair<K, V>>) returns (r: Outcome)
      requires Valid()
      modifies this
      ensures Valid() && (r == Ok <==> Addable(old(Contents()), ps, hash, eq))
      ensures r == Ok ==> Contents() == PutAll(old(Contents()), ps, eq)
    {
      ghost var es := Contents();
      r := Ok;
      for i := 0 to |ps|
        invariant r == Ok && Valid() && Contents() == PutAll(es, ps[..i], eq) && Addable(es, ps[..i], hash, eq)
      {
        r := PutNext(es, ps, i);
        if r != Ok {
          return;
        }
      }
      assert ps[..|ps|] == ps;
    }

    /** Union fails exactly when two keys collide or the hash function fails for one of the other's. */
    method Union(other: OrderedHashMap<K, V>) returns (r: Outcome, result: OrderedHashMap?<K, V>)
      requires Valid() && other.Valid() && other.eq == eq
      ensures r == Ok <==> Addable(Contents(), other.Contents(), hash, eq)
      ensures r == Ok <==> result != null
      ensures result != null ==>
                && fresh(result) && result.Valid()
                && result.Contents() == Overridden(Contents(), other.Contents(), eq) + Missing(Contents(), other.Contents(), eq)
    {
      result := Clone();
      var ps := other.Seq();
      r := result.PutEach(ps);
      if r != Ok {
        return r, null;
      }
      KeysDistinct();
      other.KeysDistinct();
      UnionMeans(Contents(), ps, eq);
    }

    /** Adds the i-th of some entries if the other map has its key. */
    method AddIfIn(other: OrderedHashMap<K, V>, es: seq<Pair<K, V>>, i: nat) returns (r: Outcome)
      requires Valid() && other.Valid() && other != this && other.eq == eq && i < |es| && HashesApart(es, hash)
      requires Contents() == Common(es[..i], other.Contents(), eq)
      modifies this
      ensures Valid() && (r == Ok <==> Findable(es[i].key, other.Contents(), other.hash, eq))
      ensures r == Ok ==> Contents() == Common(es[..i + 1], other.Contents(), eq)
    {
      ghost var ps := other.Contents();
      CommonNext(es, ps, hash, eq, i);
      var contains;
      r, contains := other.Contains(es[i].key);
      if contains {
        var _ := Add(es[i].key, es[i].value);
      }
    }

    /** Intersection fails exactly when the other map cannot look up one of this map's keys. */
    method Intersection(other: OrderedHashMap<K, V>) returns (r: Outcome, result: OrderedHashMap?<K, V>)
      requires Valid() && other.Valid() && other.eq == eq
      ensures r == Ok <==> AllFindable(Contents(), other.Contents(), other.hash, eq)
      ensures r == Ok <==> result != null
      ensures result != null ==> fresh(result) && result.Valid() && result.Contents() == Common(Contents(), other.Contents(), eq)
    {
      var es := Seq();
      ghost var ps := other.Contents();
      HashesDiffer();
      var made := new OrderedHashMap<K, V>(hash, eq);
      for i := 0 to |es|
        invariant made.Valid() && made.hash == hash && made.eq == eq && made.Contents() == Common(es[..i], ps, eq)
        invariant forall k {:trigger es[k]} :: 0 <= k < i ==> Findable(es[k].key, ps, other.hash, eq)
        modifies made
      {
        r := made.AddIfIn(other, es, i);
        if r != Ok {
          return r, null;
        }
      }
      assert es[..|es|] == es;
      return Ok, made;
    }
  }
}
