/** What the red-black map builds on its tree: ordered iteration, the derived maps, and whole runs. */
module RedBlackMap {
  import opened RedBlackShape
  import opened RedBlackTree

  /** What a consumer that starts from history h takes of es: it stops after the first entry that
      makes `more` of its history false. */
  function Taken<K, V>(h: seq<(K, V)>, es: seq<(K, V)>, more: seq<(K, V)> -> bool): seq<(K, V)>
    decreases es
  {
    if es == [] then h
    else if more(h + [es[0]]) then Taken(h + [es[0]], es[1..], more)
    else h + [es[0]]
  }

  predicate Wanted<K, V>(h: seq<(K, V)>, es: seq<(K, V)>, more: seq<(K, V)> -> bool)
    decreases es
  {
    es == [] || (more(h + [es[0]]) && Wanted(h + [es[0]], es[1..], more))
  }

  /** Offering fs after es is offering es + fs. */
  lemma {:induction false} TakenInTurn<K, V>(h: seq<(K, V)>, es: seq<(K, V)>, fs: seq<(K, V)>, more: seq<(K, V)> -> bool)
    ensures Wanted(h, es + fs, more) <==> Wanted(h, es, more) && Wanted(h + es, fs, more)
    ensures Taken(h, es + fs, more) == if Wanted(h, es, more) then Taken(h + es, fs, more) else Taken(h, es, more)
    decreases es
  {
    if es == [] {
      assert es + fs == fs && h + es == h;
    } else {
      assert (es + fs)[1..] == es[1..] + fs && h + [es[0]] + es[1..] == h + es;
      TakenInTurn(h + [es[0]], es[1..], fs, more);
    }
  }

  /** A consumer that wanted everything was given everything. */
  lemma {:induction false} WantedAll<K, V>(h: seq<(K, V)>, es: seq<(K, V)>, more: seq<(K, V)> -> bool)
    requires Wanted(h, es, more)
    ensures Taken(h, es, more) == h + es
    decreases es
  {
    if es != [] {
      assert h + [es[0]] + es[1..] == h + es;
      WantedAll(h + [es[0]], es[1..], more);
    }
  }

  /** A consumer takes the first n entries, n being the least number after which it wants no more, or all of them
      if it wants more after every one. */
  lemma {:induction false} TakenIs<K, V>(h: seq<(K, V)>, es: seq<(K, V)>, more: seq<(K, V)> -> bool) returns (n: nat)
    ensures n <= |es| && Taken(h, es, more) == h + es[..n]
    ensures forall i {:trigger es[..i]} :: 0 < i < n ==> more(h + es[..i])
    ensures Wanted(h, es, more) <==> n == |es| && (n > 0 ==> more(h + es))
    ensures !Wanted(h, es, more) ==> n > 0 && !more(h + es[..n])
    decreases es
  {
    if es == [] {
      n := 0;
      return;
    }
    var g, rest := h + [es[0]], es[1..];
    assert es[..1] == [es[0]];
    if !more(g) {
      n := 1;
      assert |es| == 1 ==> es == es[..1];
      return;
    }
    var m := TakenIs(g, rest, more);
    n := m + 1;
    forall i {:trigger es[..i]} | 0 < i <= |es| ensures h + es[..i] == g + rest[..i - 1] {
      assert es[..i] == [es[0]] + rest[..i - 1];
    }
    assert h + es == g + rest;
    forall i {:trigger es[..i]} | 0 < i < n ensures more(h + es[..i]) {
      var k := i - 1;
      assert h + es[..i] == g + rest[..k];
      assert k == 0 ==> g + rest[..k] == g;
    }
    assert h + es[..n] == g + rest[..m];
    if m == |rest| {
      assert es[..n] == es;
      assert m == 0 ==> h + es == g;
    }
  }

  /** A left subtree, the node between, a right subtree. */
  lemma TakenAround<K, V>(h: seq<(K, V)>, l: seq<(K, V)>, e: (K, V), r: seq<(K, V)>, more: seq<(K, V)> -> bool)
    ensures Wanted(h, l + [e] + r, more) <==>
              Wanted(h, l, more) && more(h + l + [e]) && Wanted(h + l + [e], r, more)
    ensures Taken(h, l + [e] + r, more) ==
            if !Wanted(h, l, more) then Taken(h, l, more)
            else if !more(h + l + [e]) then h + l + [e]
            else Taken(h + l + [e], r, more)
    ensures Wanted(h, l, more) ==> Taken(h, l, more) == h + l
  {
    if Wanted(h, l, more) {
      WantedAll(h, l, more);
    }
    assert l + [e] + r == l + ([e] + r);
    TakenInTurn(h, l, [e] + r, more);
    assert ([e] + r)[1..] == r;
  }

  /** A consumer that never stops. */
  predicate Always<K, V>(h: seq<(K, V)>) {
    true
  }

  lemma {:induction false} TakenAll<K, V>(h: seq<(K, V)>, es: seq<(K, V)>)
    ensures Wanted(h, es, Always<K, V>)
    decreases es
  {
    if es != [] {
      TakenAll(h + [es[0]], es[1..]);
    }
  }

  /** What there is to yield below n: its left subtree, the node itself, its right subtree. */
  lemma VisitAround<K(!new), V>(t: TreeMap<K, V>, n: Node<K, V>, h: seq<(K, V)>, more: seq<(K, V)> -> bool)
    requires t.SearchTree() && t.Has(n)
    ensures (n.left != null ==> t.Has(n.left)) && (n.right != null ==> t.Has(n.right))
    ensures var l, r, all := InOrder(t.ShapeOf(n.left)), InOrder(t.ShapeOf(n.right)), InOrder(t.ShapeOf(n));
            var e := (n.key, n.value);
            && |l| < |all| && |r| < |all|
            && (Wanted(h, all, more) <==> Wanted(h, l, more) && more(h + l + [e]) && Wanted(h + l + [e], r, more))
            && Taken(h, all, more) == (if !Wanted(h, l, more) then Taken(h, l, more)
                                       else if !more(h + l + [e]) then h + l + [e]
                                       else Taken(h + l + [e], r, more))
            && (Wanted(h, l, more) ==> Taken(h, l, more) == h + l)
  {
    t.WalkAround(n);
    TakenAround(h, InOrder(t.ShapeOf(n.left)), (n.key, n.value), InOrder(t.ShapeOf(n.right)), more);
  }

  /** Yields the entries below n, in order, to a consumer with history h, until it has had enough. */
  method Visit<K(==, !new), V>(t: TreeMap<K, V>, n: Node?<K, V>, h: seq<(K, V)>, more: seq<(K, V)> -> bool)
    returns (seen: seq<(K, V)>, ok: bool)
    requires t.SearchTree() && (n != null ==> t.Has(n))
    ensures seen == Taken(h, InOrder(t.ShapeOf(n)), more)
    ensures ok == Wanted(h, InOrder(t.ShapeOf(n)), more)
    decreases |InOrder(t.ShapeOf(n))|
  {
    if n == null {
      return h, true;
    }
    VisitAround(t, n, h, more);
    seen, ok := Visit(t, n.left, h, more);
    if !ok {
      return;
    }
    seen := seen + [(n.key, n.value)];
    ok := more(seen);
    if !ok {
      return;
    }
    seen, ok := Visit(t, n.right, seen, more);
  }

  lemma AlwaysTakesAll<K, V>(es: seq<(K, V)>)
    ensures Taken([], es, Always<K, V>) == es
  {
    TakenAll([], es);
    WantedAll([], es, Always<K, V>);
  }

  /** Ranging over a map to the end yields its entries in ascending order of their keys. */
  method Seq<K(==, !new), V>(t: TreeMap<K, V>) returns (es: seq<(K, V)>)
    requires t.SearchTree()
    ensures es == t.Entries() && Ascending(t.lt, es)
  {
    t.WalkIsEntries();
    var ok;
    es, ok := Visit(t, t.root, [], Always<K, V>);
    AlwaysTakesAll(t.Entries());
  }

  // ---- derived maps ----------------------------------------------------------------------------

  /** Adding the entries one after the other. */
  function Adds<K, V>(es: seq<(K, V)>): seq<Op<K, V>> {
    seq(|es|, i requires 0 <= i < |es| => Op.Add(es[i].0, es[i].1))
  }

  /** A new map to which the given entries have been added one after the other. */
  method FromEntries<K(==, !new), V>(lt: (K, K) -> bool, es: seq<(K, V)>) returns (out: TreeMap<K, V>)
    requires StrictTotalOrder(lt)
    ensures fresh(out) && forall j {:trigger out.order[j]} :: 0 <= j < |out.order| ==> fresh(out.order[j])
    ensures out.lt == lt && out.Valid() && Balanced(out.Shape()) && out.Contents() == AsMap(es) && out.history == Adds(es)
  {
    out := new TreeMap(lt);
    for i := 0 to |es|
      invariant fresh(out) && forall j {:trigger out.order[j]} :: 0 <= j < |out.order| ==> fresh(out.order[j])
      invariant out.lt == lt && out.Valid() && Balanced(out.Shape()) && out.Contents() == AsMap(es[..i])
      invariant out.history == Adds(es[..i])
    {
      out.Add(es[i].0, es[i].1);
      AddsNext(es, i);
    }
    assert es[..|es|] == es;
  }

  lemma AddsNext<K, V>(es: seq<(K, V)>, i: nat)
    requires i < |es|
    ensures Adds(es[..i + 1]) == Adds(es[..i]) + [Op.Add(es[i].0, es[i].1)]
    ensures AsMap(es[..i + 1]) == AsMap(es[..i])[es[i].0 := es[i].1]
  {
    assert es[..i + 1][..i] == es[..i];
  }

  lemma {:induction false} AsMapAppend<K, V>(es: seq<(K, V)>, fs: seq<(K, V)>)
    ensures AsMap(es + fs) == AsMap(es) + AsMap(fs)
    decreases fs
  {
    if fs == [] {
      assert es + fs == es;
    } else {
      AsMapAppend(es, fs[..|fs| - 1]);
      assert (es + fs)[..|es + fs| - 1] == es + fs[..|fs| - 1];
    }
  }

  /** The entries that pass the test. */
  function Kept<K, V>(es: seq<(K, V)>, keep: (K, V) -> bool): seq<(K, V)> {
    if es == [] then []
    else Kept(es[..|es| - 1], keep) + if keep(es[|es| - 1].0, es[|es| - 1].1) then [es[|es| - 1]] else []
  }

  /** The part of a map whose bindings pass the test. */
  function Restricted<K, V>(m: map<K, V>, keep: (K, V) -> bool): map<K, V> {
    map k | k in m && keep(k, m[k]) :: m[k]
  }

  /** One more entry is kept, or not. */
  lemma KeptNext<K, V>(es: seq<(K, V)>, i: nat, keep: (K, V) -> bool)
    requires i < |es|
    ensures Kept(es[..i + 1], keep) == if keep(es[i].0, es[i].1) then Kept(es[..i], keep) + [es[i]] else Kept(es[..i], keep)
    ensures AsMap(Kept(es[..i + 1], keep)) ==
            if keep(es[i].0, es[i].1) then AsMap(Kept(es[..i], keep))[es[i].0 := es[i].1] else AsMap(Kept(es[..i], keep))
  {
    assert es[..i + 1][..i] == es[..i];
    var k := Kept(es[..i], keep);
    assert (k + [es[i]])[..|k|] == k;
  }

  lemma {:induction false} KeptIsRestricted<K, V>(es: seq<(K, V)>, keep: (K, V) -> bool)
    requires DistinctKeys(es)
    ensures AsMap(Kept(es, keep)) == Restricted(AsMap(es), keep)
  {
    if es != [] {
      var front, e := es[..|es| - 1], es[|es| - 1];
      assert es[..|es|] == es;
      KeptNext(es, |es| - 1, keep);
      KeptIsRestricted(front, keep);
      AsMapKeys(front, e.0);
      RestrictedNext(AsMap(front), e.0, e.1, keep);
    }
  }

  lemma RestrictedNext<K, V>(m: map<K, V>, k: K, v: V, keep: (K, V) -> bool)
    requires k !in m
    ensures Restricted(m[k := v], keep) == if keep(k, v) then Restricted(m, keep)[k := v] else Restricted(m, keep)
  {
  }

  /** All entries of both maps, the other's values winning. */
  method Union<K(==, !new), V>(t: TreeMap<K, V>, others: seq<(K, V)>) returns (out: TreeMap<K, V>)
    requires t.SearchTree()
    ensures fresh(out) && out.Valid() && Balanced(out.Shape())
    ensures out.Contents() == t.Contents() + AsMap(others)
  {
    var es := Seq(t);
    AsMapAppend(es, others);
    out := FromEntries(t.lt, es + others);
  }

  method Clone<K(==, !new), V>(t: TreeMap<K, V>) returns (out: TreeMap<K, V>)
    requires t.SearchTree()
    ensures fresh(out) && out.Valid() && Balanced(out.Shape()) && out.Contents() == t.Contents()
  {
    var es := Seq(t);
    out := FromEntries(t.lt, es);
  }

  method Filter<K(==, !new), V>(t: TreeMap<K, V>, keep: (K, V) -> bool) returns (out: TreeMap<K, V>)
    requires t.SearchTree()
    ensures fresh(out) && out.Valid() && Balanced(out.Shape())
    ensures out.Contents() == Restricted(t.Contents(), keep)
    ensures out.Contents() == map k | k in t.Contents() && keep(k, t.Contents()[k]) :: t.Contents()[k]
  {
    var es := Seq(t);
    t.SearchTreeDistinct();
    KeptIsRestricted(es, keep);
    out := FromEntries(t.lt, Kept(es, keep));
  }

  /** The entries of this map whose keys the other map contains, with this map's values. */
  method Intersection<K(==, !new), V>(t: TreeMap<K, V>, other: TreeMap<K, V>) returns (out: TreeMap<K, V>)
    requires t.SearchTree() && other.SearchTree()
    ensures fresh(out) && out.Valid() && Balanced(out.Shape())
    ensures out.Contents() == Shared(t.Contents(), other.Contents().Keys)
    ensures out.Contents() == map k | k in t.Contents() && k in other.Contents() :: t.Contents()[k]
  {
    var es := Seq(t);
    t.SearchTreeDistinct();
    var both := Common(es, other);
    out := FromEntries(t.lt, both);
  }

  /** The part of a map whose keys another one has. */
  function Shared<K, V>(m: map<K, V>, keys: set<K>): map<K, V> {
    map k | k in m && k in keys :: m[k]
  }

  method Common<K(==, !new), V>(es: seq<(K, V)>, other: TreeMap<K, V>) returns (both: seq<(K, V)>)
    requires other.SearchTree() && DistinctKeys(es)
    ensures AsMap(both) == Shared(AsMap(es), other.Contents().Keys)
  {
    ghost var keys := other.Contents().Keys;
    ghost var keep := (k: K, v: V) => k in keys;
    both := [];
    for i := 0 to |es|
      invariant both == Kept(es[..i], keep)
    {
      KeptNext(es, i, keep);
      var found := other.Contains(es[i].0);
      if found {
        both := both + [es[i]];
      }
    }
    assert es[..|es|] == es;
    KeptIsRestricted(es, keep);
  }

  // ---- whole runs ------------------------------------------------------------------------------

  /** What an operation does to a finite map. */
  function Apply<K, V>(m: map<K, V>, op: Op<K, V>): map<K, V> {
    match op
    case Add(k, v) => m[k := v]
    case Remove(k) => m - {k}
    case Clear => map[]
  }

  function Applied<K, V>(ops: seq<Op<K, V>>): map<K, V> {
    if ops == [] then map[] else Apply(Applied(ops[..|ops| - 1]), ops[|ops| - 1])
  }

  /** The operation takes a black leaf below the root out of the tree. */
  predicate Loses<K(==), V>(lt: (K, K) -> bool, t: Tree<K, V>, op: Op<K, V>) {
    op.Remove? && TakesBlackLeaf(lt, t, op.key)
  }

  /** Performs one operation. A balanced tree stays balanced exactly if the operation takes no black leaf. */
  method Step<K(==, !new), V>(t: TreeMap<K, V>, op: Op<K, V>) returns (spins: bool)
    requires t.Valid()
    modifies t, t.order
    ensures t.SearchTree() && (!spins ==> t.Valid()) && t.history == old(t.history) + [op]
    ensures forall j {:trigger t.order[j]} :: 0 <= j < |t.order| ==> t.order[j] in old(t.order) || fresh(t.order[j])
    ensures t.Contents() == Apply(old(t.Contents()), op)
    ensures spins ==> op.Remove?
    ensures old(Balanced(t.Shape())) ==> !spins && (Balanced(t.Shape()) <==> !Loses(t.lt, old(t.Shape()), op))
  {
    spins := false;
    match op
    case Add(k, v) =>
      t.Add(k, v);
    case Remove(k) =>
      t.EmptiesReadOff(k);
      spins := t.Remove(k);
    case Clear =>
      t.Clear();
  }

  /** What one operation may make of the shape of a valid tree. */
  ghost predicate Follows<K(!new), V>(lt: (K, K) -> bool, was: Tree<K, V>, op: Op<K, V>, now: Tree<K, V>) {
    && !IsRed(was) && NoRedRed(was)
    && (Balanced(was) ==> (Balanced(now) <==> !Loses(lt, was, op)))
  }

  ghost predicate FollowsAt<K(!new), V>(lt: (K, K) -> bool, ops: seq<Op<K, V>>, trace: seq<Tree<K, V>>, i: int)
    requires |trace| == |ops| + 1 && 0 <= i < |ops|
  {
    Follows(lt, trace[i], ops[i], trace[i + 1])
  }

  /** The i-th shape has the entries that the first i operations ask for. */
  ghost predicate HoldsAt<K(!new), V>(ops: seq<Op<K, V>>, trace: seq<Tree<K, V>>, i: int)
    requires |trace| == |ops| + 1 && 0 <= i <= |ops|
  {
    AsMap(InOrder(trace[i])) == Applied(ops[..i])
  }

  /** The shapes a tree takes in a run: each is what the finite map of the operations before it asks for, and
      a balanced one is followed by a balanced one exactly if the operation takes no black leaf. */
  ghost predicate Traces<K(!new), V>(lt: (K, K) -> bool, ops: seq<Op<K, V>>, trace: seq<Tree<K, V>>) {
    && |trace| == |ops| + 1 && trace[0] == Nil
    && HoldsThroughout(ops, trace) && FollowsThroughout(lt, ops, trace)
  }

  ghost predicate HoldsThroughout<K(!new), V>(ops: seq<Op<K, V>>, trace: seq<Tree<K, V>>)
    requires |trace| == |ops| + 1
  {
    forall i {:trigger HoldsAt(ops, trace, i)} :: 0 <= i <= |ops| ==> HoldsAt(ops, trace, i)
  }

  ghost predicate FollowsThroughout<K(!new), V>(lt: (K, K) -> bool, ops: seq<Op<K, V>>, trace: seq<Tree<K, V>>)
    requires |trace| == |ops| + 1
  {
    forall i {:trigger FollowsAt(lt, ops, trace, i)} :: 0 <= i < |ops| ==> FollowsAt(lt, ops, trace, i)
  }

  /** No operation of the run takes a black leaf. */
  ghost predicate NeverLoses<K(!new), V>(lt: (K, K) -> bool, ops: seq<Op<K, V>>, trace: seq<Tree<K, V>>)
    requires |trace| == |ops| + 1
  {
    forall i {:trigger ops[i]} :: 0 <= i < |ops| ==> !Loses(lt, trace[i], ops[i])
  }

  /** While no operation takes a black leaf, every shape is balanced. */
  lemma {:induction false} StaysBalanced<K(!new), V>(lt: (K, K) -> bool, ops: seq<Op<K, V>>, trace: seq<Tree<K, V>>, i: nat)
    requires Traces(lt, ops, trace) && NeverLoses(lt, ops, trace) && i <= |ops|
    ensures Balanced(trace[i])
  {
    if i > 0 {
      StaysBalanced(lt, ops, trace, i - 1);
      assert FollowsAt(lt, ops, trace, i - 1) && !Loses(lt, trace[i - 1], ops[i - 1]);
    }
  }

  lemma HoldsKept<K(!new), V>(was: seq<Op<K, V>>, trace: seq<Tree<K, V>>, op: Op<K, V>, next: Tree<K, V>, i: nat)
    requires |trace| == |was| + 1 && i <= |was| && HoldsAt(was, trace, i)
    ensures HoldsAt(was + [op], trace + [next], i)
  {
    assert (was + [op])[..i] == was[..i] && (trace + [next])[i] == trace[i];
  }

  lemma FollowsKept<K(!new), V>(lt: (K, K) -> bool, was: seq<Op<K, V>>, trace: seq<Tree<K, V>>, op: Op<K, V>, next: Tree<K, V>, i: nat)
    requires |trace| == |was| + 1 && i < |was| && FollowsAt(lt, was, trace, i)
    ensures FollowsAt(lt, was + [op], trace + [next], i)
  {
    var ops, shapes := was + [op], trace + [next];
    assert ops[i] == was[i] && shapes[i] == trace[i] && shapes[i + 1] == trace[i + 1];
  }

  lemma TraceEnds<K(!new), V>(lt: (K, K) -> bool, was: seq<Op<K, V>>, trace: seq<Tree<K, V>>, op: Op<K, V>, next: Tree<K, V>)
    requires |trace| == |was| + 1 && AsMap(InOrder(next)) == Applied(was + [op]) && Follows(lt, trace[|was|], op, next)
    ensures HoldsAt(was + [op], trace + [next], |was| + 1) && FollowsAt(lt, was + [op], trace + [next], |was|)
  {
    var ops, shapes := was + [op], trace + [next];
    assert ops[..|ops|] == ops && shapes[|was| + 1] == next && shapes[|was|] == trace[|was|] && ops[|was|] == op;
  }

  lemma HoldsNext<K(!new), V>(was: seq<Op<K, V>>, trace: seq<Tree<K, V>>, op: Op<K, V>, next: Tree<K, V>)
    requires |trace| == |was| + 1 && HoldsThroughout(was, trace) && HoldsAt(was + [op], trace + [next], |was| + 1)
    ensures HoldsThroughout(was + [op], trace + [next])
  {
    forall i | 0 <= i <= |was| ensures HoldsAt(was + [op], trace + [next], i) {
      HoldsKept(was, trace, op, next, i);
    }
  }

  lemma FollowsNext<K(!new), V>(lt: (K, K) -> bool, was: seq<Op<K, V>>, trace: seq<Tree<K, V>>, op: Op<K, V>, next: Tree<K, V>)
    requires |trace| == |was| + 1 && FollowsThroughout(lt, was, trace) && FollowsAt(lt, was + [op], trace + [next], |was|)
    ensures FollowsThroughout(lt, was + [op], trace + [next])
  {
    forall i | 0 <= i < |was| ensures FollowsAt(lt, was + [op], trace + [next], i) {
      FollowsKept(lt, was, trace, op, next, i);
    }
  }

  lemma TracesNext<K(!new), V>(lt: (K, K) -> bool, was: seq<Op<K, V>>, trace: seq<Tree<K, V>>, op: Op<K, V>, next: Tree<K, V>)
    requires Traces(lt, was, trace) && AsMap(InOrder(next)) == Applied(was + [op]) && Follows(lt, trace[|was|], op, next)
    ensures Traces(lt, was + [op], trace + [next])
  {
    TraceEnds(lt, was, trace, op, next);
    HoldsNext(was, trace, op, next);
    FollowsNext(lt, was, trace, op, next);
  }

  lemma SafeRun<K(!new), V>(lt: (K, K) -> bool, ops: seq<Op<K, V>>, trace: seq<Tree<K, V>>)
    requires Traces(lt, ops, trace)
    ensures NeverLoses(lt, ops, trace) ==> forall i {:trigger trace[i]} :: 0 <= i <= |ops| ==> Balanced(trace[i])
  {
    if NeverLoses(lt, ops, trace) {
      forall i {:trigger trace[i]} | 0 <= i <= |ops| ensures Balanced(trace[i]) {
        StaysBalanced(lt, ops, trace, i);
      }
    }
  }

  lemma AppliedNext<K, V>(was: seq<Op<K, V>>, op: Op<K, V>)
    ensures Applied(was + [op]) == Apply(Applied(was), op)
  {
    assert (was + [op])[..|was|] == was;
  }

  /** The tree is where the run has led, and trace tells the shapes it had on the way. */
  ghost predicate RunSoFar<K(!new), V>(t: TreeMap<K, V>, run: seq<Op<K, V>>, trace: seq<Tree<K, V>>)
    reads t, t.order
  {
    && t.SearchTree() && t.history == run && t.Contents() == Applied(run)
    && Traces(t.lt, run, trace) && trace[|run|] == t.ShapeOf(t.root)
  }

  lemma RunStarts<K(!new), V>(t: TreeMap<K, V>)
    requires t.Valid() && t.order == [] && t.history == []
    ensures RunSoFar(t, [], [Nil])
  {
    assert HoldsAt<K, V>([], [Nil], 0);
  }

  /** Without a black leaf lost, the last removal has returned and the tree is red-black. */
  lemma RunEnds<K(!new), V>(t: TreeMap<K, V>, spins: bool, run: seq<Op<K, V>>, trace: seq<Tree<K, V>>)
    requires RunSoFar(t, run, trace) && (!spins ==> t.Valid())
    requires spins ==> run != [] && !Balanced(trace[|run| - 1])
    ensures NeverLoses(t.lt, run, trace) ==> !spins && IsRedBlack(trace[|run|])
  {
    SafeRun(t.lt, run, trace);
    if !spins {
      t.ValidShape();
    }
  }

  /** One more operation of a run. */
  method Advance<K(==, !new), V>(t: TreeMap<K, V>, op: Op<K, V>, ghost run: seq<Op<K, V>>, ghost trace: seq<Tree<K, V>>)
    returns (spins: bool, ghost next: Tree<K, V>)
    requires t.Valid() && RunSoFar(t, run, trace)
    modifies t, t.order
    ensures RunSoFar(t, run + [op], trace + [next]) && (!spins ==> t.Valid())
    ensures forall j {:trigger t.order[j]} :: 0 <= j < |t.order| ==> t.order[j] in old(t.order) || fresh(t.order[j])
    ensures spins ==> op.Remove? && !Balanced(trace[|run|])
  {
    t.ValidShape();
    AppliedNext(run, op);
    spins := Step(t, op);
    t.WalkIsEntries();
    next := t.ShapeOf(t.root);
    TracesNext(t.lt, run, trace, op, next);
  }

  lemma PrefixNext<K, V>(ops: seq<Op<K, V>>, n: nat)
    requires n < |ops|
    ensures ops[..n] + [ops[n]] == ops[..n + 1]
  {
  }

  /** The operations of a run, one after the other, until one does not return. */
  method Perform<K(==, !new), V>(t: TreeMap<K, V>, ops: seq<Op<K, V>>) returns (done: nat, spins: bool, ghost trace: seq<Tree<K, V>>)
    requires t.Valid() && t.order == [] && t.history == []
    modifies t, t.order
    ensures done <= |ops| && (!spins ==> done == |ops| && t.Valid())
    ensures RunSoFar(t, ops[..done], trace)
    ensures spins ==> done > 0 && ops[done - 1].Remove? && !Balanced(trace[done - 1])
  {
    done, spins, trace := 0, false, [Nil];
    RunStarts(t);
    while done < |ops| && !spins
      invariant done <= |ops| && (!spins ==> t.Valid())
      invariant forall j {:trigger t.order[j]} :: 0 <= j < |t.order| ==> fresh(t.order[j])
      invariant RunSoFar(t, ops[..done], trace)
      invariant spins ==> done > 0 && ops[done - 1].Remove? && !Balanced(trace[done - 1])
      decreases |ops| - done
    {
      ghost var next;
      spins, next := Advance(t, ops[done], ops[..done], trace);
      PrefixNext(ops, done);
      trace, done := trace + [next], done + 1;
    }
  }

  /** Any run of operations on a new map, up to the first removal that never returns. Such a removal meets an
      unbalanced tree, so there is none while no black leaf is taken. */
  method Run<K(==, !new), V>(lt: (K, K) -> bool, ops: seq<Op<K, V>>)
    returns (t: TreeMap<K, V>, done: nat, spins: bool, ghost trace: seq<Tree<K, V>>)
    requires StrictTotalOrder(lt)
    ensures done <= |ops| && (!spins ==> done == |ops| && t.Valid())
    ensures t.lt == lt && RunSoFar(t, ops[..done], trace)
    ensures spins ==> done > 0 && ops[done - 1].Remove? && !Balanced(trace[done - 1])
    ensures NeverLoses(lt, ops[..done], trace) ==> !spins && IsRedBlack(trace[done])
  {
    t := new TreeMap(lt);
    done, spins, trace := Perform(t, ops);
    RunEnds(t, spins, ops[..done], trace);
  }
}
