// Whole runs of sets and deletes on the AVL tree, from the empty tree.
module AvlRuns {
  import opened Orders
  import opened AvlShape

  // ref is the node that a set creates.
  datatype Step<N> = Put(key: Key, data: Data, ref: N) | Remove(key: Key)

  function After<N>(t: Tree<N>, s: Step<N>, cmp: (Key, Key) -> int): (r: Tree<N>)
    requires Positive(t)
    ensures Positive(r)
  {
    match s
    case Put(k, d, n) => Insert(t, cmp, k, d, n)
    case Remove(k) =>
      DeletePositive(t, cmp, k);
      Delete(t, cmp, k)
  }

  function Run<N>(steps: seq<Step<N>>, cmp: (Key, Key) -> int): (t: Tree<N>)
    ensures Positive(t)
  {
    if steps == [] then Leaf else After(Run(steps[..|steps| - 1], cmp), steps[|steps| - 1], cmp)
  }

  lemma {:induction false} DeletePositive<N>(t: Tree<N>, cmp: (Key, Key) -> int, k: Key)
    requires Positive(t)
    ensures Positive(Delete(t, cmp, k))
  {
    if t.Node? {
      DeletePositive(t.left, cmp, k);
      DeletePositive(t.right, cmp, k);
      if t.right.Node? { DeleteMinPositive(t.right); }
    }
  }

  lemma {:induction false} DeleteMinPositive<N>(t: Tree<N>)
    requires t.Node? && Positive(t)
    ensures Positive(DeleteMin(t))
  {
    if t.left.Node? { DeleteMinPositive(t.left); }
  }

  // The entries of a run that only sets.
  ghost function Given<N>(steps: seq<Step<N>>): multiset<Entry> {
    if steps == [] then multiset{}
    else
      var s := steps[|steps| - 1];
      Given(steps[..|steps| - 1]) + if s.Put? then multiset{(s.key, s.data)} else multiset{}
  }

  // Sets alone leave a balanced search tree of exactly the entries given, in which a
  // search visits logarithmically many nodes.
  lemma {:induction false} SetsOnly<N>(steps: seq<Step<N>>, cmp: (Key, Key) -> int, k: Key)
    requires TotalPreorder(cmp) && forall i :: 0 <= i < |steps| ==> steps[i].Put?
    ensures var t := Run(steps, cmp);
      Avl(t) && Ordered(t, cmp) && Entries(t) == Given(steps) && |Entries(t)| == |steps|
        && Pow2(Visits(t, cmp, k) / 2) <= |steps| + 1
  {
    hide TotalPreorder, Insert, Ordered, Avl;
    var t := Run(steps, cmp);
    if steps == [] {
      EmptyTree(t, cmp);
    } else {
      var before, s := steps[..|steps| - 1], steps[|steps| - 1];
      SetsOnly(before, cmp, k);
      InsertOrdered(Run(before, cmp), cmp, s.key, s.data, s.ref);
      InsertAvl(Run(before, cmp), cmp, s.key, s.data, s.ref);
    }
    SearchIsLogarithmic(t, cmp, k);
  }

  lemma EmptyTree<N>(t: Tree<N>, cmp: (Key, Key) -> int)
    requires t.Leaf?
    ensures Ordered(t, cmp) && Avl(t) && Entries(t) == multiset{}
  {
  }

  // Every delete of the run finds its tree in the state that keeps the balance.
  ghost predicate Careful<N>(steps: seq<Step<N>>, cmp: (Key, Key) -> int) {
    forall i :: 0 <= i < |steps| && steps[i].Remove? ==> Keeps(Run(steps[..i], cmp), cmp, steps[i].key)
  }

  // Sets and such deletes together keep the tree balanced; the first other delete after
  // them loses the balance.
  lemma {:induction false} CarefulRun<N>(steps: seq<Step<N>>, cmp: (Key, Key) -> int, k: Key)
    requires Careful(steps, cmp)
    ensures var t := Run(steps, cmp);
      Avl(t) && (Avl(Delete(t, cmp, k)) <==> Keeps(t, cmp, k)) && Pow2(Visits(t, cmp, k) / 2) <= |Entries(t)| + 1
  {
    hide Insert, Avl, Delete, Keeps;
    var t := Run(steps, cmp);
    if steps == [] {
      EmptyTree(t, cmp);
    } else {
      var before, s := steps[..|steps| - 1], steps[|steps| - 1];
      assert forall i :: 0 <= i < |before| ==> before[i] == steps[i] && before[..i] == steps[..i];
      CarefulRun(before, cmp, s.key);
      if s.Put? { InsertAvl(Run(before, cmp), cmp, s.key, s.data, s.ref); }
    }
    DeleteAvl(t, cmp, k);
    SearchIsLogarithmic(t, cmp, k);
  }

  // ----- sets and deletes, interleaved ----------------------------------------------

  // A multimap seen at one key: how many entries it has.
  ghost function Live<N>(steps: seq<Step<N>>, cmp: (Key, Key) -> int, k: Key): nat {
    if steps == [] then 0
    else
      var s, n := steps[|steps| - 1], Live(steps[..|steps| - 1], cmp, k);
      if cmp(s.key, k) != 0 then n
      else if s.Put? then n + 1
      else if n > 0 then n - 1
      else 0
  }

  ghost function Equal(e: Entry, cmp: (Key, Key) -> int, k: Key): nat {
    if cmp(e.0, k) == 0 then 1 else 0
  }

  // How many entries of m have a key equal to k.
  ghost function Tally(m: multiset<Entry>, cmp: (Key, Key) -> int, k: Key): nat {
    if m == multiset{} then 0
    else
      var e :| e in m;
      Equal(e, cmp, k) + Tally(m - multiset{e}, cmp, k)
  }

  lemma {:induction false} TallyMore(m: multiset<Entry>, e: Entry, cmp: (Key, Key) -> int, k: Key)
    requires e in m
    ensures Tally(m, cmp, k) == Equal(e, cmp, k) + Tally(m - multiset{e}, cmp, k)
    decreases |m|
  {
    hide Tally, Equal;
    var f := Picked(m, cmp, k);
    if e != f {
      OthersStay(m, e, f);
      TallyMore(m - multiset{f}, e, cmp, k);
      TallyMore(m - multiset{e}, f, cmp, k);
    }
  }

  lemma Picked(m: multiset<Entry>, cmp: (Key, Key) -> int, k: Key) returns (f: Entry)
    requires m != multiset{}
    ensures f in m && Tally(m, cmp, k) == Equal(f, cmp, k) + Tally(m - multiset{f}, cmp, k)
  {
    f :| f in m && Tally(m, cmp, k) == Equal(f, cmp, k) + Tally(m - multiset{f}, cmp, k);
  }

  lemma OthersStay(m: multiset<Entry>, e: Entry, f: Entry)
    requires e in m && f in m && e != f
    ensures e in m - multiset{f} && f in m - multiset{e}
    ensures |m - multiset{f}| < |m| && |m - multiset{e}| < |m|
    ensures m - multiset{f} - multiset{e} == m - multiset{e} - multiset{f}
  {
  }

  lemma TallyPlus(m: multiset<Entry>, e: Entry, cmp: (Key, Key) -> int, k: Key)
    ensures Tally(m + multiset{e}, cmp, k) == Equal(e, cmp, k) + Tally(m, cmp, k)
  {
    TallyMore(m + multiset{e}, e, cmp, k);
    assert m + multiset{e} - multiset{e} == m;
  }

  lemma {:induction false} TallyNone(m: multiset<Entry>, cmp: (Key, Key) -> int, k: Key)
    ensures Tally(m, cmp, k) == 0 <==> Absent(m, cmp, k)
    decreases |m|
  {
    forall e | e in m
      ensures Tally(m, cmp, k) == Equal(e, cmp, k) + Tally(m - multiset{e}, cmp, k)
      ensures Tally(m - multiset{e}, cmp, k) == 0 <==> Absent(m - multiset{e}, cmp, k)
    {
      TallyMore(m, e, cmp, k);
      TallyNone(m - multiset{e}, cmp, k);
    }
    if Absent(m, cmp, k) && m != multiset{} {
      var e :| e in m;
      assert Absent(m - multiset{e}, cmp, k);
    }
  }

  lemma EqualKeys(cmp: (Key, Key) -> int, a: Key, b: Key, k: Key)
    requires TotalPreorder(cmp) && cmp(a, b) == 0
    ensures cmp(a, k) == 0 <==> cmp(b, k) == 0
  {
    assert cmp(b, a) <= 0;
  }

  // Through any interleaving the tree keeps its search order and counts as a multimap
  // does; so a search finds an entry exactly when the multimap has one.
  lemma {:induction false} AnyRun<N>(steps: seq<Step<N>>, cmp: (Key, Key) -> int, k: Key)
    requires TotalPreorder(cmp)
    ensures var t := Run(steps, cmp);
      Ordered(t, cmp) && Tally(Entries(t), cmp, k) == Live(steps, cmp, k)
        && (Find(t, cmp, k).Node? <==> Live(steps, cmp, k) > 0)
  {
    hide TotalPreorder, Insert, Ordered, Avl, Delete, Entries, Tally;
    var t := Run(steps, cmp);
    if steps == [] {
      EmptyTree(t, cmp);
      NothingCounts(cmp, k);
    } else {
      var before, s := steps[..|steps| - 1], steps[|steps| - 1];
      AnyRun(before, cmp, k);
      if s.Put? {
        InsertOrdered(Run(before, cmp), cmp, s.key, s.data, s.ref);
        TallyPlus(Entries(Run(before, cmp)), (s.key, s.data), cmp, k);
      } else {
        Removed(Run(before, cmp), cmp, s.key, k);
      }
    }
    FindCorrect(t, cmp, k);
    TallyNone(Entries(t), cmp, k);
  }

  lemma NothingCounts(cmp: (Key, Key) -> int, k: Key)
    ensures Tally(multiset{}, cmp, k) == 0
  {
  }

  lemma Removed<N>(t: Tree<N>, cmp: (Key, Key) -> int, j: Key, k: Key)
    requires TotalPreorder(cmp) && Ordered(t, cmp) && Positive(t)
    ensures Ordered(Delete(t, cmp, j), cmp)
    ensures var n := Tally(Entries(t), cmp, k);
      Tally(Entries(Delete(t, cmp, j)), cmp, k) == if cmp(j, k) == 0 && n > 0 then n - 1 else n
  {
    hide TotalPreorder, Ordered, Delete, Entries, Tally;
    DeleteOrdered(t, cmp, j);
    FindCorrect(t, cmp, j);
    var f := Find(t, cmp, j);
    if f.Node? {
      TallyPlus(Entries(Delete(t, cmp, j)), (f.key, f.data), cmp, k);
      EqualKeys(cmp, f.key, j, k);
    } else {
      AbsentKept(t, cmp, j);
      if cmp(j, k) == 0 { AbsentElsewhere(Entries(t), cmp, j, k); }
      TallyNone(Entries(t), cmp, k);
    }
  }

  lemma AbsentElsewhere(m: multiset<Entry>, cmp: (Key, Key) -> int, j: Key, k: Key)
    requires TotalPreorder(cmp) && cmp(j, k) == 0 && Absent(m, cmp, j)
    ensures Absent(m, cmp, k)
  {
    hide TotalPreorder;
    forall e | e in m
      ensures cmp(e.0, k) != 0
    {
      if cmp(e.0, k) == 0 { Flipped(cmp, e.0, j, k); }
    }
  }

  lemma Flipped(cmp: (Key, Key) -> int, a: Key, j: Key, k: Key)
    requires TotalPreorder(cmp) && cmp(j, k) == 0 && cmp(a, k) == 0
    ensures cmp(a, j) == 0
  {
    assert cmp(k, j) <= 0 && cmp(k, a) <= 0;
  }
}
