// Whole runs of sets and deletes on the linked nodes of an AVL tree.
module TreeRuns {
  import opened Orders
  import opened AvlShape
  import opened AvlRuns
  import Avl

  // The steps of a run, the nodes that its sets made being named.
  ghost predicate Names(named: seq<Step<Avl.AVLNode>>, steps: seq<Step<()>>) {
    |named| == |steps| && forall i :: 0 <= i < |steps| ==> SameStep(named[i], steps[i])
  }

  ghost predicate SameStep(s: Step<Avl.AVLNode>, t: Step<()>) {
    s.Put? == t.Put? && s.key == t.key && (s.Put? ==> s.data == t.data)
  }

  // The names make no difference to what a run does.
  lemma {:induction false} SameRun(named: seq<Step<Avl.AVLNode>>, steps: seq<Step<()>>, cmp: (Key, Key) -> int, k: Key)
    requires Names(named, steps)
    ensures Live(named, cmp, k) == Live(steps, cmp, k) && Given(named) == Given(steps)
  {
    if steps != [] {
      SameRun(named[..|named| - 1], steps[..|steps| - 1], cmp, k);
    }
  }

  lemma NextStep<N>(steps: seq<Step<N>>, s: Step<N>, cmp: (Key, Key) -> int)
    ensures Run(steps + [s], cmp) == After(Run(steps, cmp), s, cmp)
  {
    assert (steps + [s])[..|steps + [s]| - 1] == steps;
  }

  lemma NamesOne(named: seq<Step<Avl.AVLNode>>, s: Step<Avl.AVLNode>, steps: seq<Step<()>>, i: nat)
    requires i < |steps| && Names(named, steps[..i]) && SameStep(s, steps[i])
    ensures Names(named + [s], steps[..i + 1])
  {
  }

  // One step on the nodes; s is the step, its new node named.
  method Apply(tree: Avl.AVLTree, step: Step<()>) returns (ghost s: Step<Avl.AVLNode>)
    requires tree.Valid()
    modifies tree, tree.nodes
    ensures tree.Valid() && fresh(tree.nodes - old(tree.nodes)) && SameStep(s, step)
    ensures old(Positive(tree.shape)) && tree.shape == After(old(tree.shape), s, tree.compare)
  {
    hide Avl.Distinct, Avl.Linked, Avl.Refs, Insert, Delete, Ordered, Positive, TotalPreorder;
    if step.Put? {
      ghost var n := tree.Set(step.key, step.data);
      s := Put(step.key, step.data, n);
    } else {
      var data := tree.Delete(step.key);
      s := Remove(step.key);
    }
  }

  // After any run from an empty tree the nodes are validly linked and hold, of every key,
  // as many entries as a multimap does; after sets alone they are balanced and hold
  // exactly the entries given.
  method RunTree(compare: (Key, Key) -> int, steps: seq<Step<()>>)
    returns (tree: Avl.AVLTree, ghost named: seq<Step<Avl.AVLNode>>)
    requires TotalPreorder(compare)
    ensures fresh(tree) && tree.Valid() && tree.compare == compare
    ensures Names(named, steps) && tree.shape == Run(named, compare)
    ensures forall k :: Tally(Entries(tree.shape), compare, k) == Live(steps, compare, k)
    ensures (forall i :: 0 <= i < |steps| ==> steps[i].Put?) ==>
      AvlShape.Avl(tree.shape) && Entries(tree.shape) == Given(steps)
  {
    hide Insert, Delete, Ordered, Positive, TotalPreorder, Tally, Entries, AvlShape.Avl, SameStep;
    tree := new Avl.AVLTree(compare);
    named := [];
    var i := 0;
    while i < |steps|
      invariant 0 <= i <= |steps| && fresh(tree) && fresh(tree.nodes) && tree.Valid() && tree.compare == compare
      invariant Names(named, steps[..i]) && tree.shape == Run(named, compare)
    {
      ghost var s := Apply(tree, steps[i]);
      NextStep(named, s, compare);
      NamesOne(named, s, steps, i);
      named := named + [s];
      i := i + 1;
    }
    assert steps[..i] == steps;
    forall k
      ensures Tally(Entries(tree.shape), compare, k) == Live(steps, compare, k)
    {
      AnyRun(named, compare, k);
      SameRun(named, steps, compare, k);
    }
    if forall j :: 0 <= j < |steps| ==> steps[j].Put? {
      AllSets(named, steps, compare);
    }
  }

  lemma AllSets(named: seq<Step<Avl.AVLNode>>, steps: seq<Step<()>>, cmp: (Key, Key) -> int)
    requires TotalPreorder(cmp) && Names(named, steps) && forall j :: 0 <= j < |steps| ==> steps[j].Put?
    ensures var t := Run(named, cmp); AvlShape.Avl(t) && Entries(t) == Given(steps)
  {
    if steps == [] {
      EmptyTree(Run(named, cmp), cmp);
    } else {
      SetsOnly(named, cmp, steps[0].key);
      SameRun(named, steps, cmp, steps[0].key);
    }
  }
}
