/** The array heap of the priority pump, with the sift-up and sift-down of container/heap. */
module PriorityHeap {
  import opened PriorityOrder

  function Parent(j: nat): nat {
    if j == 0 then 0 else (j - 1) / 2
  }

  predicate OkAt<T>(less: (T, T) -> bool, s: seq<Entry<T>>, j: nat, p: nat)
    requires j < |s| && p < |s|
  {
    !Before(less, s[j], s[p])
  }

  /** No entry below position n comes before its parent, except perhaps at position k. */
  ghost predicate HeapBut<T>(less: (T, T) -> bool, s: seq<Entry<T>>, n: nat, k: int)
    requires n <= |s|
  {
    forall j: nat {:trigger Parent(j)} :: 0 < j < n && j != k ==> OkAt(less, s, j, Parent(j))
  }

  /** No child of k comes before k's parent. */
  ghost predicate Bridged<T>(less: (T, T) -> bool, s: seq<Entry<T>>, n: nat, k: nat)
    requires n <= |s|
  {
    forall j: nat {:trigger Parent(j)} :: 0 < j < n && 0 < k && Parent(j) == k ==> OkAt(less, s, j, Parent(k))
  }

  /** No entry below position n comes before its parent, except perhaps the children of k. */
  ghost predicate HeapButUnder<T>(less: (T, T) -> bool, s: seq<Entry<T>>, n: nat, k: nat)
    requires n <= |s|
  {
    forall j: nat {:trigger Parent(j)} :: 0 < j < n && Parent(j) != k ==> OkAt(less, s, j, Parent(j))
  }

  ghost predicate Heap<T>(less: (T, T) -> bool, s: seq<Entry<T>>) {
    HeapBut(less, s, |s|, -1)
  }

  function Swapped<T>(s: seq<T>, i: nat, j: nat): seq<T>
    requires i < |s| && j < |s|
  {
    s[i := s[j]][j := s[i]]
  }

  lemma SwappedKeeps<T>(s: seq<T>, i: nat, j: nat)
    requires i < |s| && j < |s|
    ensures multiset(Swapped(s, i, j)) == multiset(s)
  {
  }

  lemma UpStep<T(!new)>(less: (T, T) -> bool, s: seq<Entry<T>>, k: nat)
    requires StrictWeakOrder(less) && 0 < k < |s|
    requires HeapBut(less, s, |s|, k) && Bridged(less, s, |s|, k) && Before(less, s[k], s[Parent(k)])
    ensures HeapBut(less, Swapped(s, k, Parent(k)), |s|, Parent(k))
    ensures Bridged(less, Swapped(s, k, Parent(k)), |s|, Parent(k))
  {
    var p := Parent(k);
    var t := Swapped(s, k, p);
    forall j: nat {:trigger Parent(j)} | 0 < j < |s| && j != p ensures OkAt(less, t, j, Parent(j)) {
      BeforeIsTotal(less, s[j], s[p], s[k]);
      BeforeIsTotal(less, s[k], s[p], s[k]);
      assert j != k ==> OkAt(less, s, j, Parent(j));
      assert j != k && Parent(j) == k ==> OkAt(less, s, j, p);
    }
    forall j: nat {:trigger Parent(j)} | 0 < j < |s| && 0 < p && Parent(j) == p ensures OkAt(less, t, j, Parent(p)) {
      assert OkAt(less, s, p, Parent(p));
      assert j != k ==> OkAt(less, s, j, p);
      BeforeIsTotal(less, s[j], s[p], s[Parent(p)]);
    }
  }

  lemma DownStep<T(!new)>(less: (T, T) -> bool, s: seq<Entry<T>>, n: nat, k: nat, c: nat)
    requires StrictWeakOrder(less) && k < c < n <= |s| && Parent(c) == k
    requires HeapButUnder(less, s, n, k) && Bridged(less, s, n, k) && Before(less, s[c], s[k])
    requires forall j: nat {:trigger Parent(j)} :: 0 < j < n && Parent(j) == k ==> OkAt(less, s, j, c)
    ensures HeapButUnder(less, Swapped(s, c, k), n, c) && Bridged(less, Swapped(s, c, k), n, c)
  {
    var t := Swapped(s, c, k);
    forall j: nat {:trigger Parent(j)} | 0 < j < n && Parent(j) != c ensures OkAt(less, t, j, Parent(j)) {
      BeforeIsTotal(less, s[c], s[k], s[c]);
      assert Parent(j) == k ==> OkAt(less, s, j, c);
      assert Parent(j) != k ==> OkAt(less, s, j, Parent(j));
      if j == k {
        assert Bridged(less, s, n, k) && Parent(c) == k;
        assert OkAt(less, s, c, Parent(k));
      }
    }
    forall j: nat {:trigger Parent(j)} | 0 < j < n && Parent(j) == c ensures OkAt(less, t, j, k) {
      assert OkAt(less, s, j, c);
    }
  }

  lemma {:induction false} RootIsLeast<T(!new)>(less: (T, T) -> bool, s: seq<Entry<T>>, j: nat)
    requires StrictWeakOrder(less) && Heap(less, s) && j < |s|
    ensures !Before(less, s[j], s[0])
  {
    if j == 0 {
      BeforeIsTotal(less, s[0], s[0], s[0]);
    } else {
      RootIsLeast(less, s, Parent(j));
      assert OkAt(less, s, j, Parent(j));
      BeforeIsTotal(less, s[j], s[Parent(j)], s[0]);
    }
  }

  class Queue<T(!new)> {
    const less: (T, T) -> bool
    var items: seq<Entry<T>>

    constructor (less: (T, T) -> bool)
      ensures this.less == less && items == []
    {
      this.less := less;
      items := [];
    }

    predicate Less(i: nat, j: nat)
      requires i < |items| && j < |items|
      reads this
    {
      Before(less, items[i], items[j])
    }

    method Swap(i: nat, j: nat)
      requires i < |items| && j < |items|
      modifies this
      ensures items == Swapped(old(items), i, j)
    {
      items := items[i := items[j]][j := items[i]];
    }

    method Push(e: Entry<T>)
      modifies this
      ensures items == old(items) + [e]
    {
      items := items + [e];
    }

    method Pop() returns (e: Entry<T>)
      requires items != []
      modifies this
      ensures old(items) == items + [e]
    {
      e := items[|items| - 1];
      items := items[..|items| - 1];
    }
  }

  /** heap.Push. */
  method HeapPush<T(!new)>(h: Queue<T>, e: Entry<T>)
    requires StrictWeakOrder(h.less) && Heap(h.less, h.items)
    modifies h
    ensures Heap(h.less, h.items) && multiset(h.items) == multiset(old(h.items)) + multiset{e}
  {
    h.Push(e);
    var j := |h.items| - 1;
    while j > 0 && h.Less(j, Parent(j))
      invariant 0 <= j < |h.items| && multiset(h.items) == multiset(old(h.items)) + multiset{e}
      invariant HeapBut(h.less, h.items, |h.items|, j) && Bridged(h.less, h.items, |h.items|, j)
    {
      UpStep(h.less, h.items, j);
      SwappedKeeps(h.items, j, Parent(j));
      h.Swap(j, Parent(j));
      j := Parent(j);
    }
  }

  /** heap.Pop: the entry removed is the one at the root, and it comes before all that stay. */
  method HeapPop<T(!new)>(h: Queue<T>) returns (e: Entry<T>)
    requires StrictWeakOrder(h.less) && Heap(h.less, h.items) && h.items != []
    modifies h
    ensures e == old(h.items[0]) && multiset(old(h.items)) == multiset(h.items) + multiset{e}
    ensures Heap(h.less, h.items)
  {
    var n := |h.items| - 1;
    ghost var s := h.items;
    SwappedKeeps(s, 0, n);
    h.Swap(0, n);
    Down(h, n);
    e := h.Pop();
  }

  method Down<T(!new)>(h: Queue<T>, n: nat)
    requires StrictWeakOrder(h.less) && n < |h.items|
    requires HeapButUnder(h.less, h.items, n, 0)
    modifies h
    ensures |h.items| == |old(h.items)| && h.items[n..] == old(h.items[n..]) && multiset(h.items) == multiset(old(h.items))
    ensures HeapBut(h.less, h.items, n, -1)
  {
    var i := 0;
    while true
      invariant 0 <= i <= n && |h.items| == |old(h.items)| && h.items[n..] == old(h.items[n..])
      invariant multiset(h.items) == multiset(old(h.items))
      invariant HeapButUnder(h.less, h.items, n, i) && Bridged(h.less, h.items, n, i)
      decreases n - i
    {
      var j1 := 2 * i + 1;
      if j1 >= n {
        break;
      }
      var j := j1;
      var j2 := j1 + 1;
      if j2 < n && h.Less(j2, j1) {
        j := j2;
      }
      ChildIsLeast(h.less, h.items, n, i, j);
      if !h.Less(j, i) {
        break;
      }
      DownStep(h.less, h.items, n, i, j);
      SwappedKeeps(h.items, j, i);
      h.Swap(j, i);
      i := j;
    }
  }

  /** The child chosen by the sift-down does not come after its sibling. */
  lemma ChildIsLeast<T(!new)>(less: (T, T) -> bool, s: seq<Entry<T>>, n: nat, k: nat, c: nat)
    requires StrictWeakOrder(less) && n <= |s| && 2 * k + 1 < n
    requires c == if 2 * k + 2 < n && Before(less, s[2 * k + 2], s[2 * k + 1]) then 2 * k + 2 else 2 * k + 1
    ensures Parent(c) == k
    ensures forall j: nat {:trigger Parent(j)} :: 0 < j < n && Parent(j) == k ==> OkAt(less, s, j, c)
    ensures !Before(less, s[c], s[k]) ==> forall j: nat {:trigger Parent(j)} :: 0 < j < n && Parent(j) == k ==> OkAt(less, s, j, k)
  {
    forall j: nat {:trigger Parent(j)} | 0 < j < n && Parent(j) == k ensures OkAt(less, s, j, c) {
      assert j == 2 * k + 1 || j == 2 * k + 2;
      BeforeIsTotal(less, s[j], s[c], s[j]);
    }
    forall j: nat {:trigger Parent(j)} | 0 < j < n && Parent(j) == k && !Before(less, s[c], s[k]) ensures OkAt(less, s, j, k) {
      assert OkAt(less, s, j, c);
      BeforeIsTotal(less, s[j], s[c], s[k]);
    }
  }
}
