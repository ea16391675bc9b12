/** The delivery order of the priority pump: by priority, then by submission. */
module PriorityOrder {

  /** A buffered value with the number of its submission. */
  datatype Entry<T> = Entry(value: T, seqNo: nat)

  /** `less` is a strict weak order: what CreatePriority needs of it for "equal priority" to make sense. */
  ghost predicate StrictWeakOrder<T(!new)>(less: (T, T) -> bool) {
    && (forall a :: !less(a, a))
    && (forall a, b, c :: less(a, b) && less(b, c) ==> less(a, c))
    && (forall a, b, c :: less(a, c) ==> less(a, b) || less(b, c))
  }

  /** The heap's comparison: priority first, equal priorities by submission. */
  function Before<T>(less: (T, T) -> bool, a: Entry<T>, b: Entry<T>): bool {
    if less(a.value, b.value) then true
    else if less(b.value, a.value) then false
    else a.seqNo < b.seqNo
  }

  predicate EqualPriority<T>(less: (T, T) -> bool, a: T, b: T) {
    !less(a, b) && !less(b, a)
  }

  /** Entries from different submissions are totally ordered. */
  lemma BeforeIsTotal<T(!new)>(less: (T, T) -> bool, a: Entry<T>, b: Entry<T>, c: Entry<T>)
    requires StrictWeakOrder(less)
    ensures !Before(less, a, a)
    ensures Before(less, a, b) ==> !Before(less, b, a)
    ensures a.seqNo != b.seqNo ==> Before(less, a, b) || Before(less, b, a)
    ensures Before(less, a, b) && Before(less, b, c) ==> Before(less, a, c)
    ensures !Before(less, a, b) && !Before(less, b, c) ==> !Before(less, a, c)
  {
  }

  ghost predicate InOrder<T>(less: (T, T) -> bool, es: seq<Entry<T>>) {
    forall i, j {:trigger es[i], es[j]} :: 0 <= i < j < |es| ==> Before(less, es[i], es[j])
  }

  /** In delivery order no value is less than an earlier one, and of two of equal priority the first was
      submitted first. */
  lemma InOrderMeans<T(!new)>(less: (T, T) -> bool, es: seq<Entry<T>>)
    requires StrictWeakOrder(less)
    ensures InOrder(less, es) <==>
              forall i, j {:trigger es[i], es[j]} :: 0 <= i < j < |es| ==>
                !less(es[j].value, es[i].value) && (less(es[i].value, es[j].value) || es[i].seqNo < es[j].seqNo)
  {
    forall i, j {:trigger es[i], es[j]} | 0 <= i < j < |es|
      ensures Before(less, es[i], es[j]) <==>
                !less(es[j].value, es[i].value) && (less(es[i].value, es[j].value) || es[i].seqNo < es[j].seqNo) {
      assert !(less(es[i].value, es[j].value) && less(es[j].value, es[i].value));
    }
  }

  ghost predicate BySubmission<T>(es: seq<Entry<T>>) {
    forall i, j {:trigger es[i], es[j]} :: 0 <= i < j < |es| ==> es[i].seqNo < es[j].seqNo
  }

  // ---- the reference: a stable sort by priority alone -------------------------------------------

  /** Puts e behind every entry of s that need not come after it; looks at priorities only. */
  function Place<T>(less: (T, T) -> bool, s: seq<Entry<T>>, e: Entry<T>): seq<Entry<T>> {
    if s != [] && less(e.value, s[|s| - 1].value) then Place(less, s[..|s| - 1], e) + [s[|s| - 1]]
    else s + [e]
  }

  function StableSort<T>(less: (T, T) -> bool, es: seq<Entry<T>>): seq<Entry<T>> {
    if es == [] then [] else Place(less, StableSort(less, es[..|es| - 1]), es[|es| - 1])
  }

  lemma {:induction false} PlaceKeeps<T>(less: (T, T) -> bool, s: seq<Entry<T>>, e: Entry<T>)
    ensures multiset(Place(less, s, e)) == multiset(s) + multiset{e}
  {
    if s != [] && less(e.value, s[|s| - 1].value) {
      PlaceKeeps(less, s[..|s| - 1], e);
      assert s == s[..|s| - 1] + [s[|s| - 1]];
    }
  }

  lemma {:induction false} StableSortKeeps<T>(less: (T, T) -> bool, es: seq<Entry<T>>)
    ensures multiset(StableSort(less, es)) == multiset(es)
  {
    if es != [] {
      var f, l := es[..|es| - 1], es[|es| - 1];
      assert es == f + [l];
      StableSortKeeps(less, f);
      var sorted := StableSort(less, f);
      PlaceKeeps(less, sorted, l);
    }
  }

  lemma {:induction false} PlaceOrdered<T(!new)>(less: (T, T) -> bool, s: seq<Entry<T>>, e: Entry<T>)
    requires StrictWeakOrder(less) && InOrder(less, s)
    requires forall i {:trigger s[i]} :: 0 <= i < |s| ==> s[i].seqNo < e.seqNo
    ensures InOrder(less, Place(less, s, e))
  {
    if s != [] && less(e.value, s[|s| - 1].value) {
      var f, l := s[..|s| - 1], s[|s| - 1];
      PlaceOrdered(less, f, e);
      PlaceKeeps(less, f, e);
      var p := Place(less, f, e);
      forall i | 0 <= i < |p| ensures Before(less, p[i], l) {
        assert p[i] in multiset(p);
        if p[i] != e {
          assert p[i] in multiset(f);
          var j :| 0 <= j < |f| && f[j] == p[i];
          assert s[j] == f[j];
        }
      }
    } else if s != [] {
      forall i | 0 <= i < |s| ensures Before(less, s[i], e) {
        if i < |s| - 1 {
          assert Before(less, s[i], s[|s| - 1]);
        }
        BeforeIsTotal(less, s[i], s[|s| - 1], e);
      }
    }
  }

  /** Sorting a list in submission order stably by priority alone gives the delivery order. */
  lemma {:induction false} StableSortOrdered<T(!new)>(less: (T, T) -> bool, es: seq<Entry<T>>)
    requires StrictWeakOrder(less) && BySubmission(es)
    ensures InOrder(less, StableSort(less, es))
  {
    if es != [] {
      var f, l := es[..|es| - 1], es[|es| - 1];
      StableSortOrdered(less, f);
      StableSortKeeps(less, f);
      var s := StableSort(less, f);
      forall i {:trigger s[i]} | 0 <= i < |s| ensures s[i].seqNo < l.seqNo {
        assert s[i] in multiset(s);
        assert s[i] in multiset(f);
        var j :| 0 <= j < |f| && f[j] == s[i];
        assert es[j] == f[j];
      }
      PlaceOrdered(less, s, l);
    }
  }

  lemma RestOf<T>(s: seq<Entry<T>>)
    requires s != []
    ensures multiset(s[1..]) == multiset(s) - multiset{s[0]}
  {
    assert s == [s[0]] + s[1..];
  }

  /** There is only one way to put given entries in delivery order. */
  lemma {:induction false} OrderIsUnique<T(!new)>(less: (T, T) -> bool, s: seq<Entry<T>>, t: seq<Entry<T>>)
    requires StrictWeakOrder(less) && InOrder(less, s) && InOrder(less, t) && multiset(s) == multiset(t)
    ensures s == t
  {
    assert |s| == |multiset(s)| == |multiset(t)| == |t|;
    if s != [] {
      FirstIsShared(less, s, t);
      RestOf(s);
      RestOf(t);
      OrderIsUnique(less, s[1..], t[1..]);
    }
  }

  lemma FirstIsShared<T(!new)>(less: (T, T) -> bool, s: seq<Entry<T>>, t: seq<Entry<T>>)
    requires StrictWeakOrder(less) && InOrder(less, s) && InOrder(less, t) && multiset(s) == multiset(t)
    requires s != [] && t != []
    ensures s[0] == t[0]
  {
    assert s[0] in multiset(t) && t[0] in multiset(s);
    var i :| 0 <= i < |t| && t[i] == s[0];
    var j :| 0 <= j < |s| && s[j] == t[0];
    if i > 0 && j > 0 {
      BeforeIsTotal(less, s[0], t[0], s[0]);
    }
  }
}
