// The AVL tree as a value: what the linked nodes hold, with the stored heights, and
// the operations of the source on that value.
module AvlShape {
  import opened Orders
  import opened Wrappers

  type Key(==, !new)
  type Data(==, !new)

  // ref names the heap node a tree node stands for.
  datatype Tree<N> = Leaf | Node(left: Tree<N>, ref: N, key: Key, data: Data, height: int, right: Tree<N>)

  function Max(a: int, b: int): int {
    if a >= b then a else b
  }

  // The stored height, as the source reads it.
  function Height<N>(t: Tree<N>): int {
    if t.Leaf? then 0 else t.height
  }

  function Balance<N>(t: Tree<N>): int
    requires t.Node?
  {
    Height(t.left) - Height(t.right)
  }

  function Fix<N>(t: Tree<N>): Tree<N>
    requires t.Node?
  {
    t.(height := Max(Height(t.left), Height(t.right)) + 1)
  }

  // Every stored height is positive, however stale it may be.
  ghost predicate Positive<N>(t: Tree<N>) {
    t.Node? ==> t.height > 0 && Positive(t.left) && Positive(t.right)
  }

  function RotateRight<N>(t: Tree<N>): (r: Tree<N>)
    requires t.Node? && t.left.Node?
    ensures r.Node? && (Positive(t.left) && Positive(t.right) ==> Positive(r))
  {
    assert Positive(t.left) ==> Positive(t.left.left) && Positive(t.left.right);
    Fix(t.left.(right := Fix(t.(left := t.left.right))))
  }

  function RotateLeft<N>(t: Tree<N>): (r: Tree<N>)
    requires t.Node? && t.right.Node?
    ensures r.Node? && (Positive(t.left) && Positive(t.right) ==> Positive(r))
  {
    assert Positive(t.right) ==> Positive(t.right.left) && Positive(t.right.right);
    Fix(t.right.(left := Fix(t.(right := t.right.left))))
  }

  // The rotation test dereferences a child only where the heights say there is one.
  function Rotate<N>(t: Tree<N>): (r: Tree<N>)
    requires t.Node? && Positive(t.left) && Positive(t.right)
    ensures r.Node? && Positive(r)
  {
    assert t.left.Node? ==> Positive(t.left.left) && Positive(t.left.right);
    assert t.right.Node? ==> Positive(t.right.left) && Positive(t.right.right);
    if Balance(t) > 1 then
      if Balance(t.left) >= 0 then RotateRight(t) else RotateRight(t.(left := RotateLeft(t.left)))
    else if Balance(t) < -1 then
      if Balance(t.right) <= 0 then RotateLeft(t) else RotateLeft(t.(right := RotateRight(t.right)))
    else Fix(t)
  }

  function Insert<N>(t: Tree<N>, cmp: (Key, Key) -> int, k: Key, d: Data, n: N): (r: Tree<N>)
    requires Positive(t)
    ensures r.Node? && Positive(r)
  {
    if t.Leaf? then Node(Leaf, n, k, d, 1, Leaf)
    else if cmp(t.key, k) >= 0 then Rotate(t.(left := Insert(t.left, cmp, k, d, n)))
    else Rotate(t.(right := Insert(t.right, cmp, k, d, n)))
  }

  function Find<N>(t: Tree<N>, cmp: (Key, Key) -> int, k: Key): Tree<N> {
    if t.Leaf? then Leaf
    else if cmp(t.key, k) == 0 then t
    else if cmp(t.key, k) < 0 then Find(t.right, cmp, k)
    else Find(t.left, cmp, k)
  }

  // The leftmost node of a nonempty tree.
  function Min<N>(t: Tree<N>): (m: Tree<N>)
    requires t.Node?
    ensures m.Node?
  {
    if t.left.Leaf? then t else Min(t.left)
  }

  function DeleteMin<N>(t: Tree<N>): Tree<N>
    requires t.Node?
  {
    if t.left.Leaf? then t.right else t.(left := DeleteMin(t.left))
  }

  // Heights stay as they are: the source does not rebalance after a deletion.
  function DeleteTop<N>(t: Tree<N>): Tree<N>
    requires t.Node?
  {
    if t.left.Node? && t.right.Node? then
      var m := Min(t.right);
      t.(key := m.key, data := m.data, right := DeleteMin(t.right))
    else if t.left.Node? then t.left
    else t.right
  }

  function Delete<N>(t: Tree<N>, cmp: (Key, Key) -> int, k: Key): Tree<N> {
    if t.Leaf? then Leaf
    else if cmp(t.key, k) > 0 then t.(left := Delete(t.left, cmp, k))
    else if cmp(t.key, k) < 0 then t.(right := Delete(t.right, cmp, k))
    else DeleteTop(t)
  }

  // ----- search order and contents ----------------------------------------------

  type Entry = (Key, Data)

  ghost function Entries<N>(t: Tree<N>): multiset<Entry> {
    if t.Leaf? then multiset{} else Entries(t.left) + multiset{(t.key, t.data)} + Entries(t.right)
  }

  ghost predicate AtMost(m: multiset<Entry>, cmp: (Key, Key) -> int, k: Key) {
    forall e :: e in m ==> cmp(e.0, k) <= 0
  }

  ghost predicate AtLeast(m: multiset<Entry>, cmp: (Key, Key) -> int, k: Key) {
    forall e :: e in m ==> cmp(e.0, k) >= 0
  }

  // Equal keys may stand on either side: rotations move them.
  ghost predicate Ordered<N>(t: Tree<N>, cmp: (Key, Key) -> int) {
    t.Node? ==>
      && AtMost(Entries(t.left), cmp, t.key) && AtLeast(Entries(t.right), cmp, t.key)
      && Ordered(t.left, cmp) && Ordered(t.right, cmp)
  }

  lemma UpperBound(m: multiset<Entry>, cmp: (Key, Key) -> int, k: Key, k': Key)
    requires TotalPreorder(cmp) && AtMost(m, cmp, k) && cmp(k', k) >= 0
    ensures AtMost(m, cmp, k')
  {
    forall e | e in m
      ensures cmp(e.0, k') <= 0
    {
      assert cmp(e.0, k) <= 0 && cmp(k, k') <= 0;
    }
  }

  lemma LowerBound(m: multiset<Entry>, cmp: (Key, Key) -> int, k: Key, k': Key)
    requires TotalPreorder(cmp) && AtLeast(m, cmp, k) && cmp(k', k) <= 0
    ensures cmp(k, k') >= 0 && AtLeast(m, cmp, k')
  {
    forall e | e in m
      ensures cmp(e.0, k') >= 0
    {
      assert cmp(k, e.0) <= 0;
    }
  }

  // The bounds after a right rotation of a over x: l, x, m, a, r in order.
  lemma BoundsRight(cmp: (Key, Key) -> int, m: multiset<Entry>, x: Entry, a: Entry, r: multiset<Entry>,
      all: multiset<Entry>)
    requires TotalPreorder(cmp) && x in all && m <= all && AtMost(all, cmp, a.0) && AtLeast(m, cmp, x.0)
    requires AtLeast(r, cmp, a.0)
    ensures AtMost(m, cmp, a.0) && AtLeast(m + multiset{a} + r, cmp, x.0)
  {
    hide TotalPreorder;
    LowerBound(r, cmp, a.0, x.0);
  }

  lemma BoundsLeft(cmp: (Key, Key) -> int, l: multiset<Entry>, a: Entry, x: Entry, m: multiset<Entry>,
      all: multiset<Entry>)
    requires TotalPreorder(cmp) && x in all && m <= all && AtLeast(all, cmp, a.0) && AtMost(m, cmp, x.0)
    requires AtMost(l, cmp, a.0)
    ensures AtLeast(m, cmp, a.0) && AtMost(l + multiset{a} + m, cmp, x.0)
  {
    UpperBound(l, cmp, a.0, x.0);
  }

  lemma RotateRightOrdered<N>(t: Tree<N>, cmp: (Key, Key) -> int)
    requires TotalPreorder(cmp) && Ordered(t, cmp) && t.Node? && t.left.Node?
    ensures Ordered(RotateRight(t), cmp) && Entries(RotateRight(t)) == Entries(t)
  {
    hide TotalPreorder, AtMost, AtLeast;
    var x := t.left;
    BoundsRight(cmp, Entries(x.right), (x.key, x.data), (t.key, t.data), Entries(t.right), Entries(x));
  }

  lemma RotateLeftOrdered<N>(t: Tree<N>, cmp: (Key, Key) -> int)
    requires TotalPreorder(cmp) && Ordered(t, cmp) && t.Node? && t.right.Node?
    ensures Ordered(RotateLeft(t), cmp) && Entries(RotateLeft(t)) == Entries(t)
  {
    hide TotalPreorder, AtMost, AtLeast;
    var x := t.right;
    BoundsLeft(cmp, Entries(t.left), (t.key, t.data), (x.key, x.data), Entries(x.left), Entries(x));
  }

  // Replacing a subtree by one with the same entries.
  lemma SameLeft<N>(t: Tree<N>, l: Tree<N>, cmp: (Key, Key) -> int)
    requires t.Node? && Ordered(t, cmp) && Ordered(l, cmp) && Entries(l) == Entries(t.left)
    ensures Ordered(t.(left := l), cmp) && Entries(t.(left := l)) == Entries(t)
  {
  }

  lemma SameRight<N>(t: Tree<N>, r: Tree<N>, cmp: (Key, Key) -> int)
    requires t.Node? && Ordered(t, cmp) && Ordered(r, cmp) && Entries(r) == Entries(t.right)
    ensures Ordered(t.(right := r), cmp) && Entries(t.(right := r)) == Entries(t)
  {
  }

  lemma RotateOrdered<N>(t: Tree<N>, cmp: (Key, Key) -> int)
    requires TotalPreorder(cmp) && Ordered(t, cmp) && t.Node? && Positive(t.left) && Positive(t.right)
    ensures Ordered(Rotate(t), cmp) && Entries(Rotate(t)) == Entries(t)
  {
    hide Ordered, Entries, TotalPreorder;
    if Balance(t) > 1 {
      if Balance(t.left) >= 0 {
        RotateRightOrdered(t, cmp);
      } else {
        DoubleRightOrdered(t, cmp);
      }
    } else if Balance(t) < -1 {
      if Balance(t.right) <= 0 {
        RotateLeftOrdered(t, cmp);
      } else {
        DoubleLeftOrdered(t, cmp);
      }
    } else {
      FixOrdered(t, cmp);
    }
  }

  lemma FixOrdered<N>(t: Tree<N>, cmp: (Key, Key) -> int)
    requires Ordered(t, cmp) && t.Node?
    ensures Ordered(Fix(t), cmp) && Entries(Fix(t)) == Entries(t)
  {
  }

  lemma DoubleRightOrdered<N>(t: Tree<N>, cmp: (Key, Key) -> int)
    requires TotalPreorder(cmp) && Ordered(t, cmp) && t.Node? && t.left.Node? && t.left.right.Node?
    ensures var r := RotateRight(t.(left := RotateLeft(t.left))); Ordered(r, cmp) && Entries(r) == Entries(t)
  {
    hide Entries, TotalPreorder, Ordered;
    OrderedParts(t, cmp);
    RotateLeftOrdered(t.left, cmp);
    SameLeft(t, RotateLeft(t.left), cmp);
    RotateRightOrdered(t.(left := RotateLeft(t.left)), cmp);
  }

  lemma DoubleLeftOrdered<N>(t: Tree<N>, cmp: (Key, Key) -> int)
    requires TotalPreorder(cmp) && Ordered(t, cmp) && t.Node? && t.right.Node? && t.right.left.Node?
    ensures var r := RotateLeft(t.(right := RotateRight(t.right))); Ordered(r, cmp) && Entries(r) == Entries(t)
  {
    hide Entries, TotalPreorder, Ordered;
    OrderedParts(t, cmp);
    RotateRightOrdered(t.right, cmp);
    SameRight(t, RotateRight(t.right), cmp);
    RotateLeftOrdered(t.(right := RotateRight(t.right)), cmp);
  }

  lemma MoreLeft<N>(t: Tree<N>, l: Tree<N>, cmp: (Key, Key) -> int, k: Key, d: Data)
    requires TotalPreorder(cmp) && t.Node? && Ordered(t, cmp) && Ordered(l, cmp) && cmp(t.key, k) >= 0
    requires Entries(l) == Entries(t.left) + multiset{(k, d)}
    ensures Ordered(t.(left := l), cmp) && Entries(t.(left := l)) == Entries(t) + multiset{(k, d)}
  {
  }

  lemma MoreRight<N>(t: Tree<N>, r: Tree<N>, cmp: (Key, Key) -> int, k: Key, d: Data)
    requires TotalPreorder(cmp) && t.Node? && Ordered(t, cmp) && Ordered(r, cmp) && cmp(t.key, k) <= 0
    requires Entries(r) == Entries(t.right) + multiset{(k, d)}
    ensures Ordered(t.(right := r), cmp) && Entries(t.(right := r)) == Entries(t) + multiset{(k, d)}
  {
  }

  lemma SingleOrdered<N>(t: Tree<N>, cmp: (Key, Key) -> int)
    requires t.Node? && t.left.Leaf? && t.right.Leaf?
    ensures Ordered(t, cmp) && Entries(t) == Entries(t.left) + multiset{(t.key, t.data)}
  {
  }

  lemma OrderedParts<N>(t: Tree<N>, cmp: (Key, Key) -> int)
    requires t.Node? && Ordered(t, cmp)
    ensures Ordered(t.left, cmp) && Ordered(t.right, cmp)
  {
  }

  // A set keeps the search order and adds exactly one entry.
  lemma {:induction false} InsertOrdered<N>(t: Tree<N>, cmp: (Key, Key) -> int, k: Key, d: Data, n: N)
    requires TotalPreorder(cmp) && Ordered(t, cmp) && Positive(t)
    ensures Ordered(Insert(t, cmp, k, d, n), cmp)
    ensures Entries(Insert(t, cmp, k, d, n)) == Entries(t) + multiset{(k, d)}
  {
    hide Entries, Ordered, Rotate, TotalPreorder;
    if t.Leaf? {
      SingleOrdered(Insert(t, cmp, k, d, n), cmp);
    } else {
      OrderedParts(t, cmp);
      if cmp(t.key, k) >= 0 {
        var l := Insert(t.left, cmp, k, d, n);
        InsertOrdered(t.left, cmp, k, d, n);
        MoreLeft(t, l, cmp, k, d);
        RotateOrdered(t.(left := l), cmp);
      } else {
        var r := Insert(t.right, cmp, k, d, n);
        InsertOrdered(t.right, cmp, k, d, n);
        MoreRight(t, r, cmp, k, d);
        RotateOrdered(t.(right := r), cmp);
      }
    }
  }

  // ----- balance -------------------------------------------------------------------

  // The true height.
  ghost function Levels<N>(t: Tree<N>): (h: nat) {
    if t.Leaf? then 0 else 1 + if Levels(t.left) >= Levels(t.right) then Levels(t.left) else Levels(t.right)
  }

  // Stored heights are the true ones and differ by at most one between siblings.
  ghost predicate Avl<N>(t: Tree<N>) {
    t.Node? ==>
      && t.height == Levels(t) && -1 <= Levels(t.left) - Levels(t.right) <= 1
      && Avl(t.left) && Avl(t.right)
  }

  lemma {:induction false} AvlPositive<N>(t: Tree<N>)
    requires Avl(t)
    ensures Positive(t) && Height(t) == Levels(t)
  {
    if t.Node? {
      AvlPositive(t.left);
      AvlPositive(t.right);
    }
  }

  // r is balanced and t, out of balance by at most two, is no lower nor more than one
  // level higher.
  ghost predicate Rebalances<N>(t: Tree<N>, r: Tree<N>) {
    Avl(r) && Levels(t) - 1 <= Levels(r) <= Levels(t)
  }

  lemma SingleRightAvl<N>(t: Tree<N>)
    requires t.Node? && t.left.Node? && Avl(t.left) && Avl(t.right)
    requires Levels(t.left) == Levels(t.right) + 2 && Levels(t.left.left) >= Levels(t.left.right)
    ensures Rebalances(t, RotateRight(t))
  {
    AvlPositive(t.right);
    AvlPositive(t.left.left);
    AvlPositive(t.left.right);
  }

  lemma SingleLeftAvl<N>(t: Tree<N>)
    requires t.Node? && t.right.Node? && Avl(t.left) && Avl(t.right)
    requires Levels(t.right) == Levels(t.left) + 2 && Levels(t.right.right) >= Levels(t.right.left)
    ensures Rebalances(t, RotateLeft(t))
  {
    AvlPositive(t.left);
    AvlPositive(t.right.left);
    AvlPositive(t.right.right);
  }

  lemma DoubleRightAvl<N>(t: Tree<N>)
    requires t.Node? && t.left.Node? && t.left.right.Node? && Avl(t.left) && Avl(t.right)
    requires Levels(t.left) == Levels(t.right) + 2 && Levels(t.left.left) < Levels(t.left.right)
    ensures Rebalances(t, RotateRight(t.(left := RotateLeft(t.left))))
  {
    AvlPositive(t.right);
    AvlPositive(t.left.left);
    AvlPositive(t.left.right.left);
    AvlPositive(t.left.right.right);
  }

  lemma DoubleLeftAvl<N>(t: Tree<N>)
    requires t.Node? && t.right.Node? && t.right.left.Node? && Avl(t.left) && Avl(t.right)
    requires Levels(t.right) == Levels(t.left) + 2 && Levels(t.right.right) < Levels(t.right.left)
    ensures Rebalances(t, RotateLeft(t.(right := RotateRight(t.right))))
  {
    AvlPositive(t.left);
    AvlPositive(t.right.right);
    AvlPositive(t.right.left.left);
    AvlPositive(t.right.left.right);
  }

  // A node whose subtrees are balanced and differ by at most two is rebalanced by
  // one single or double rotation.
  lemma RotateAvl<N>(t: Tree<N>)
    requires t.Node? && Avl(t.left) && Avl(t.right) && -2 <= Levels(t.left) - Levels(t.right) <= 2
    ensures Positive(t.left) && Positive(t.right) && Rebalances(t, Rotate(t))
    ensures -1 <= Levels(t.left) - Levels(t.right) <= 1 ==> Levels(Rotate(t)) == Levels(t)
  {
    hide Rebalances, Avl, Levels, Positive, RotateRight, RotateLeft, Fix;
    BalanceIsTrue(t);
    if t.left.Node? { BalanceIsTrue(t.left); }
    if t.right.Node? { BalanceIsTrue(t.right); }
    if Balance(t) > 1 {
      if Balance(t.left) >= 0 { SingleRightAvl(t); } else { DoubleRightAvl(t); }
    } else if Balance(t) < -1 {
      if Balance(t.right) <= 0 { SingleLeftAvl(t); } else { DoubleLeftAvl(t); }
    } else {
      FixAvl(t);
    }
  }

  lemma BalanceIsTrue<N>(t: Tree<N>)
    requires t.Node? && Avl(t.left) && Avl(t.right)
    ensures Height(t.left) == Levels(t.left) && Height(t.right) == Levels(t.right)
    ensures Positive(t.left) && Positive(t.right)
    ensures t.left.Node? ==> Avl(t.left.left) && Avl(t.left.right)
    ensures t.right.Node? ==> Avl(t.right.left) && Avl(t.right.right)
  {
    AvlPositive(t.left);
    AvlPositive(t.right);
  }

  lemma FixAvl<N>(t: Tree<N>)
    requires t.Node? && Avl(t.left) && Avl(t.right) && -1 <= Levels(t.left) - Levels(t.right) <= 1
    requires Height(t.left) == Levels(t.left) && Height(t.right) == Levels(t.right)
    ensures Rebalances(t, Fix(t)) && Levels(Fix(t)) == Levels(t)
  {
  }

  // A set on a balanced tree leaves it balanced and at most one level higher.
  lemma {:induction false} InsertAvl<N>(t: Tree<N>, cmp: (Key, Key) -> int, k: Key, d: Data, n: N)
    requires Avl(t)
    ensures Positive(t) && Avl(Insert(t, cmp, k, d, n))
    ensures Levels(t) <= Levels(Insert(t, cmp, k, d, n)) <= Levels(t) + 1
  {
    AvlPositive(t);
    if t.Node? {
      if cmp(t.key, k) >= 0 {
        InsertAvl(t.left, cmp, k, d, n);
        RotateAvl(t.(left := Insert(t.left, cmp, k, d, n)));
      } else {
        InsertAvl(t.right, cmp, k, d, n);
        RotateAvl(t.(right := Insert(t.right, cmp, k, d, n)));
      }
    }
  }

  ghost function Fib(n: nat): nat {
    if n < 2 then n else Fib(n - 1) + Fib(n - 2)
  }

  lemma {:induction false} FibGrows(m: nat, n: nat)
    requires m <= n
    ensures Fib(m) <= Fib(n)
    decreases n
  {
    if m < n {
      FibGrows(m, n - 1);
    }
  }

  // A balanced tree of height h holds at least Fib(h + 2) - 1 entries.
  lemma {:induction false} AvlIsFull<N>(t: Tree<N>)
    requires Avl(t)
    ensures |Entries(t)| + 1 >= Fib(Levels(t) + 2)
  {
    if t.Node? {
      AvlIsFull(t.left);
      AvlIsFull(t.right);
      CountSplits(t);
      FibSum(Levels(t), Levels(t.left), Levels(t.right));
    }
  }

  lemma FibSum(h: nat, a: nat, b: nat)
    requires h >= 1 && (a == h - 1 || b == h - 1) && a >= h - 2 && b >= h - 2
    ensures Fib(a + 2) + Fib(b + 2) >= Fib(h + 2)
  {
    FibGrows(h, a + 2);
    FibGrows(h, b + 2);
    assert Fib(h + 2) == Fib(h + 1) + Fib(h);
  }

  lemma CountSplits<N>(t: Tree<N>)
    requires t.Node?
    ensures |Entries(t)| == |Entries(t.left)| + 1 + |Entries(t.right)|
  {
  }

  // How many nodes a search for k looks at.
  ghost function Visits<N>(t: Tree<N>, cmp: (Key, Key) -> int, k: Key): nat {
    if t.Leaf? then 0
    else if cmp(t.key, k) == 0 then 1
    else if cmp(t.key, k) < 0 then 1 + Visits(t.right, cmp, k)
    else 1 + Visits(t.left, cmp, k)
  }

  // A search looks at logarithmically many nodes.
  lemma SearchIsLogarithmic<N>(t: Tree<N>, cmp: (Key, Key) -> int, k: Key)
    requires Avl(t)
    ensures Fib(Visits(t, cmp, k) + 2) <= |Entries(t)| + 1
    ensures Pow2(Visits(t, cmp, k) / 2) <= |Entries(t)| + 1
  {
    hide Entries, Fib, Pow2, Visits, Levels, Avl;
    FibDoubles(Visits(t, cmp, k));
    VisitsBound(t, cmp, k);
    FibGrows(Visits(t, cmp, k) + 2, Levels(t) + 2);
    AvlIsFull(t);
  }

  ghost function Pow2(n: nat): nat {
    if n == 0 then 1 else 2 * Pow2(n - 1)
  }

  // The Fibonacci numbers grow exponentially.
  lemma {:induction false} FibDoubles(h: nat)
    ensures Fib(h + 2) >= Pow2(h / 2)
  {
    if h >= 2 {
      FibDoubles(h - 2);
      FibGrows(h, h + 1);
    }
  }

  lemma {:induction false} VisitsBound<N>(t: Tree<N>, cmp: (Key, Key) -> int, k: Key)
    ensures Visits(t, cmp, k) <= Levels(t)
  {
    if t.Node? {
      VisitsBound(t.left, cmp, k);
      VisitsBound(t.right, cmp, k);
    }
  }

  // ----- search and deletion ---------------------------------------------------------

  ghost predicate Absent(m: multiset<Entry>, cmp: (Key, Key) -> int, k: Key) {
    forall e :: e in m ==> cmp(e.0, k) != 0
  }

  // A search finds an entry with an equal key exactly when there is one.
  lemma {:induction false} FindCorrect<N>(t: Tree<N>, cmp: (Key, Key) -> int, k: Key)
    requires TotalPreorder(cmp) && Ordered(t, cmp)
    ensures var f := Find(t, cmp, k);
      if f.Leaf? then Absent(Entries(t), cmp, k)
      else cmp(f.key, k) == 0 && (f.key, f.data) in Entries(t)
  {
    hide TotalPreorder, Ordered, Absent;
    AbsentParts(t, cmp, k);
    if t.Node? {
      OrderedParts(t, cmp);
      FindCorrect(t.left, cmp, k);
      FindCorrect(t.right, cmp, k);
      OtherSideAbsent(t, cmp, k);
    }
  }

  lemma AbsentParts<N>(t: Tree<N>, cmp: (Key, Key) -> int, k: Key)
    ensures t.Leaf? ==> Absent(Entries(t), cmp, k)
    ensures t.Node? && Absent(Entries(t.left), cmp, k) && Absent(Entries(t.right), cmp, k) && cmp(t.key, k) != 0 ==>
      Absent(Entries(t), cmp, k)
  {
  }

  lemma OtherSideAbsent<N>(t: Tree<N>, cmp: (Key, Key) -> int, k: Key)
    requires TotalPreorder(cmp) && t.Node? && Ordered(t, cmp)
    ensures cmp(t.key, k) < 0 ==> Absent(Entries(t.left), cmp, k)
    ensures cmp(t.key, k) > 0 ==> Absent(Entries(t.right), cmp, k)
  {
  }

  // Removing an entry from a subtree removes it from the tree.
  lemma FewerLeft<N>(t: Tree<N>, l: Tree<N>, cmp: (Key, Key) -> int, m: multiset<Entry>)
    requires t.Node? && Ordered(t, cmp) && Ordered(l, cmp) && Entries(t.left) == Entries(l) + m
    ensures Ordered(t.(left := l), cmp) && Entries(t) == Entries(t.(left := l)) + m
  {
  }

  lemma FewerRight<N>(t: Tree<N>, r: Tree<N>, cmp: (Key, Key) -> int, m: multiset<Entry>)
    requires t.Node? && Ordered(t, cmp) && Ordered(r, cmp) && Entries(t.right) == Entries(r) + m
    ensures Ordered(t.(right := r), cmp) && Entries(t) == Entries(t.(right := r)) + m
  {
  }

  lemma {:induction false} MinIsLeast<N>(t: Tree<N>, cmp: (Key, Key) -> int)
    requires TotalPreorder(cmp) && t.Node? && Ordered(t, cmp)
    ensures (Min(t).key, Min(t).data) in Entries(t) && AtLeast(Entries(t), cmp, Min(t).key)
  {
    if t.left.Node? {
      MinIsLeast(t.left, cmp);
      BelowRoot(t, cmp, (Min(t).key, Min(t).data));
    } else {
      assert Entries(t) == multiset{(t.key, t.data)} + Entries(t.right);
    }
  }

  // What bounds the left subtree from below bounds the tree.
  lemma BelowRoot<N>(t: Tree<N>, cmp: (Key, Key) -> int, e: Entry)
    requires TotalPreorder(cmp) && t.Node? && Ordered(t, cmp) && e in Entries(t.left)
    requires AtLeast(Entries(t.left), cmp, e.0)
    ensures e in Entries(t) && AtLeast(Entries(t), cmp, e.0)
  {
    assert cmp(e.0, t.key) <= 0;
    forall f | f in Entries(t.right)
      ensures cmp(f.0, e.0) >= 0
    {
      assert cmp(t.key, f.0) <= 0;
    }
  }

  lemma {:induction false} DeleteMinOrdered<N>(t: Tree<N>, cmp: (Key, Key) -> int)
    requires t.Node? && Ordered(t, cmp) && Positive(t)
    ensures Ordered(DeleteMin(t), cmp) && Positive(DeleteMin(t))
    ensures Entries(t) == Entries(DeleteMin(t)) + multiset{(Min(t).key, Min(t).data)}
  {
    if t.left.Node? {
      DeleteMinOrdered(t.left, cmp);
      FewerLeft(t, DeleteMin(t.left), cmp, multiset{(Min(t).key, Min(t).data)});
    }
  }

  lemma BoundsSuccessor(cmp: (Key, Key) -> int, l: multiset<Entry>, k: Key, r: multiset<Entry>, e: Entry,
      all: multiset<Entry>)
    requires TotalPreorder(cmp) && all == r + multiset{e} && AtMost(l, cmp, k) && AtLeast(all, cmp, k)
    requires AtLeast(all, cmp, e.0)
    ensures AtMost(l, cmp, e.0) && AtLeast(r, cmp, e.0)
  {
    assert e in all;
    UpperBound(l, cmp, k, e.0);
  }

  lemma DeleteTopOrdered<N>(t: Tree<N>, cmp: (Key, Key) -> int)
    requires TotalPreorder(cmp) && t.Node? && Ordered(t, cmp) && Positive(t)
    ensures Ordered(DeleteTop(t), cmp) && Positive(DeleteTop(t))
    ensures Entries(t) == Entries(DeleteTop(t)) + multiset{(t.key, t.data)}
  {
    hide TotalPreorder, AtLeast, AtMost;
    if t.left.Node? && t.right.Node? {
      DeleteMinOrdered(t.right, cmp);
      MinIsLeast(t.right, cmp);
      var e := (Min(t.right).key, Min(t.right).data);
      BoundsSuccessor(cmp, Entries(t.left), t.key, Entries(DeleteMin(t.right)), e, Entries(t.right));
    } else {
      EmptySide(t);
    }
  }

  lemma EmptySide<N>(t: Tree<N>)
    requires t.Node?
    ensures t.left.Leaf? ==> Entries(t) == Entries(t.right) + multiset{(t.key, t.data)}
    ensures t.right.Leaf? ==> Entries(t) == Entries(t.left) + multiset{(t.key, t.data)}
  {
  }

  // A delete removes the entry a search finds, and nothing else.
  lemma {:induction false} DeleteOrdered<N>(t: Tree<N>, cmp: (Key, Key) -> int, k: Key)
    requires TotalPreorder(cmp) && Ordered(t, cmp) && Positive(t)
    ensures Ordered(Delete(t, cmp, k), cmp) && Positive(Delete(t, cmp, k))
    ensures Entries(t) == Entries(Delete(t, cmp, k)) + Found(t, cmp, k)
  {
    if t.Node? {
      if cmp(t.key, k) > 0 {
        DeleteOrdered(t.left, cmp, k);
        FewerLeft(t, Delete(t.left, cmp, k), cmp, Found(t.left, cmp, k));
      } else if cmp(t.key, k) < 0 {
        DeleteOrdered(t.right, cmp, k);
        FewerRight(t, Delete(t.right, cmp, k), cmp, Found(t.right, cmp, k));
      } else {
        DeleteTopOrdered(t, cmp);
      }
    }
  }

  // The entry a search finds, if any.
  ghost function Found<N>(t: Tree<N>, cmp: (Key, Key) -> int, k: Key): multiset<Entry> {
    var f := Find(t, cmp, k);
    if f.Leaf? then multiset{} else multiset{(f.key, f.data)}
  }

  // Deleting a key that is not there changes nothing.
  lemma {:induction false} AbsentKept<N>(t: Tree<N>, cmp: (Key, Key) -> int, k: Key)
    requires Find(t, cmp, k).Leaf?
    ensures Delete(t, cmp, k) == t
  {
    if t.Node? {
      if cmp(t.key, k) > 0 {
        AbsentKept(t.left, cmp, k);
      } else {
        AbsentKept(t.right, cmp, k);
      }
    }
  }

  lemma LeafFinds<N>(t: Tree<N>, cmp: (Key, Key) -> int, k: Key)
    ensures t.Leaf? ==> Find(t, cmp, k).Leaf?
  {
  }

  // ----- balance and deletion ------------------------------------------------------------

  // The found node is unlinked itself, having at most one child.
  predicate UnlinksTop<N>(t: Tree<N>, cmp: (Key, Key) -> int, k: Key) {
    t.Node? && cmp(t.key, k) == 0 && !(t.left.Node? && t.right.Node?)
  }

  // The subtree of the parent of the leftmost node of u, which hangs below p.
  function AboveMin<N>(u: Tree<N>, p: Tree<N>): Tree<N>
    requires u.Node?
  {
    if u.left.Leaf? then p else AboveMin(u.left, u)
  }

  // The subtree of the parent of the node a delete unlinks: the found node, or its
  // successor if it has two children. No subtree if the key is absent or the root of the
  // whole tree is unlinked.
  function UnlinkParent<N>(t: Tree<N>, cmp: (Key, Key) -> int, k: Key): Tree<N> {
    if t.Leaf? || UnlinksTop(t, cmp, k) then Leaf
    else if cmp(t.key, k) > 0 then
      if UnlinksTop(t.left, cmp, k) then t else UnlinkParent(t.left, cmp, k)
    else if cmp(t.key, k) < 0 then
      if UnlinksTop(t.right, cmp, k) then t else UnlinkParent(t.right, cmp, k)
    else AboveMin(t.right, t)
  }

  // Whether a delete keeps the balance, to be asked before it.
  predicate Keeps<N>(t: Tree<N>, cmp: (Key, Key) -> int, k: Key) {
    Even(UnlinkParent(t, cmp, k))
  }

  predicate Even<N>(t: Tree<N>) {
    t.Node? ==> Balance(t) == 0
  }

  // A delete on a balanced tree leaves it balanced exactly when the parent of the
  // unlinked node had subtrees of equal height. The tree loses a level only when its
  // top is unlinked.
  lemma {:induction false} DeleteAvl<N>(t: Tree<N>, cmp: (Key, Key) -> int, k: Key)
    requires Avl(t)
    ensures Avl(Delete(t, cmp, k)) <==> Keeps(t, cmp, k)
    ensures Keeps(t, cmp, k) ==>
      Levels(Delete(t, cmp, k)) == Levels(t) - if UnlinksTop(t, cmp, k) then 1 else 0
  {
    hide DeleteTop, AboveMin;
    if t.Leaf? {
    } else if cmp(t.key, k) > 0 {
      DeleteAvl(t.left, cmp, k);
      LeftShrinks(t, Delete(t.left, cmp, k));
    } else if cmp(t.key, k) < 0 {
      DeleteAvl(t.right, cmp, k);
      RightShrinks(t, Delete(t.right, cmp, k));
    } else {
      DeleteTopAvl(t);
    }
  }

  // A balanced left subtree that became l.
  lemma LeftShrinks<N>(t: Tree<N>, l: Tree<N>)
    requires t.Node? && Avl(t)
    ensures Avl(l) && Levels(l) == Levels(t.left) ==> Avl(t.(left := l)) && Levels(t.(left := l)) == Levels(t)
    ensures Avl(l) && Levels(l) == Levels(t.left) - 1 ==> (Avl(t.(left := l)) <==> Balance(t) == 0)
    ensures Levels(l) == Levels(t.left) - 1 && Balance(t) == 0 ==> Levels(t.(left := l)) == Levels(t)
    ensures !Avl(l) ==> !Avl(t.(left := l))
  {
    AvlPositive(t.left);
    AvlPositive(t.right);
  }

  lemma RightShrinks<N>(t: Tree<N>, r: Tree<N>)
    requires t.Node? && Avl(t)
    ensures Avl(r) && Levels(r) == Levels(t.right) ==> Avl(t.(right := r)) && Levels(t.(right := r)) == Levels(t)
    ensures Avl(r) && Levels(r) == Levels(t.right) - 1 ==> (Avl(t.(right := r)) <==> Balance(t) == 0)
    ensures Levels(r) == Levels(t.right) - 1 && Balance(t) == 0 ==> Levels(t.(right := r)) == Levels(t)
    ensures !Avl(r) ==> !Avl(t.(right := r))
  {
    AvlPositive(t.left);
    AvlPositive(t.right);
  }

  lemma DeleteTopAvl<N>(t: Tree<N>)
    requires t.Node? && Avl(t)
    ensures t.left.Node? && t.right.Node? ==>
      (Avl(DeleteTop(t)) <==> Even(AboveMin(t.right, t)))
      && (Avl(DeleteTop(t)) ==> Levels(DeleteTop(t)) == Levels(t))
    ensures !(t.left.Node? && t.right.Node?) ==> Avl(DeleteTop(t)) && Levels(DeleteTop(t)) == Levels(t) - 1
  {
    if t.left.Node? && t.right.Node? {
      var m, d := Min(t.right), DeleteMin(t.right);
      DeleteMinAvl(t.right, t);
      RightShrinks(t, d);
      SameShape(t.(right := d), m.key, m.data);
    }
  }

  lemma SameShape<N>(t: Tree<N>, k: Key, d: Data)
    requires t.Node?
    ensures Avl(t.(key := k, data := d)) <==> Avl(t)
    ensures Levels(t.(key := k, data := d)) == Levels(t)
  {
  }

  // Unlinking the leftmost node of u, the parent of which is p where it is u's top.
  lemma {:induction false} DeleteMinAvl<N>(u: Tree<N>, p: Tree<N>)
    requires u.Node? && Avl(u)
    ensures u.left.Leaf? ==> Avl(DeleteMin(u)) && Levels(DeleteMin(u)) == Levels(u) - 1
    ensures u.left.Node? ==>
      (Avl(DeleteMin(u)) <==> Even(AboveMin(u, p))) && (Avl(DeleteMin(u)) ==> Levels(DeleteMin(u)) == Levels(u))
  {
    if u.left.Node? {
      DeleteMinAvl(u.left, u);
      LeftShrinks(u, DeleteMin(u.left));
    }
  }

  // Deleting the only leaf below the root: the root keeps the height it no longer has.
  lemma StaleHeight<N>(cmp: (Key, Key) -> int, a: Key, b: Key, d: Data, n: N)
    requires TotalPreorder(cmp) && cmp(a, b) < 0
    ensures var t := Node(Leaf, n, a, d, 2, Node(Leaf, n, b, d, 1, Leaf));
      Avl(t) && Ordered(t, cmp) && !Avl(Delete(t, cmp, b)) && Levels(Delete(t, cmp, b)) == 1
        && Height(Delete(t, cmp, b)) == 2
  {
    assert cmp(b, b) == 0;
  }

  ghost function Single<N>(k: Key, d: Data, n: N): Tree<N> {
    Node(Leaf, n, k, d, 1, Leaf)
  }

  // Four nodes: b on top, a to its left, c and below it e to its right.
  ghost function Four<N>(a: Key, b: Key, c: Key, e: Key, d: Data, n: N): Tree<N> {
    Node(Single(a, d, n), n, b, d, 3, Node(Leaf, n, c, d, 2, Single(e, d, n)))
  }

  lemma SingleParts<N>(k: Key, d: Data, n: N, cmp: (Key, Key) -> int)
    ensures Entries(Single(k, d, n)) == multiset{(k, d)} && Ordered(Single(k, d, n), cmp)
  {
  }

  lemma FourAvl<N>(a: Key, b: Key, c: Key, e: Key, d: Data, n: N)
    ensures var t := Four(a, b, c, e, d, n); Avl(t) && Levels(t.right) == 2
  {
    assert forall k: Key :: Levels(Single(k, d, n)) == 1 && Avl(Single(k, d, n));
    assert Levels(Four(a, b, c, e, d, n).right) == 2;
  }

  lemma FourOrdered<N>(cmp: (Key, Key) -> int, a: Key, b: Key, c: Key, e: Key, d: Data, n: N)
    requires cmp(a, b) <= 0 && cmp(c, b) >= 0 && cmp(e, b) >= 0 && cmp(e, c) >= 0
    ensures Ordered(Four(a, b, c, e, d, n), cmp)
  {
    SingleParts(a, d, n, cmp);
    SingleParts(e, d, n, cmp);
    var right := Node(Leaf, n, c, d, 2, Single(e, d, n));
    assert Entries(right) == multiset{(c, d), (e, d)};
    assert Ordered(right, cmp);
  }

  // Deleting the left child of four nodes: the right subtree stays two levels high over
  // nothing to the left.
  lemma LostBalance<N>(cmp: (Key, Key) -> int, a: Key, b: Key, c: Key, e: Key, d: Data, n: N)
    requires TotalPreorder(cmp) && cmp(a, b) < 0 && cmp(b, c) < 0 && cmp(c, e) < 0
    ensures var t := Four(a, b, c, e, d, n);
      && Avl(t) && Ordered(t, cmp) && !Avl(Delete(t, cmp, a))
      && Delete(t, cmp, a) == t.(left := Leaf) && Levels(t.right) == 2
  {
    hide Ordered, Avl;
    FourAvl(a, b, c, e, d, n);
    assert cmp(a, a) == 0 && cmp(b, a) > 0 && cmp(b, e) <= 0;
    FourOrdered(cmp, a, b, c, e, d, n);
    TooLow(Four(a, b, c, e, d, n).(left := Leaf));
  }

  lemma TooLow<N>(t: Tree<N>)
    requires t.Node? && t.left.Leaf? && Levels(t.right) >= 2
    ensures !Avl(t)
  {
  }

  // ----- the entries in order ----------------------------------------------------------------

  ghost function InOrder<N>(t: Tree<N>): seq<Entry> {
    if t.Leaf? then [] else InOrder(t.left) + [(t.key, t.data)] + InOrder(t.right)
  }

  lemma {:induction false} InOrderEntries<N>(t: Tree<N>)
    ensures multiset(InOrder(t)) == Entries(t)
  {
    if t.Node? {
      InOrderEntries(t.left);
      InOrderEntries(t.right);
    }
  }

  // Rotations do not touch the order, whatever the keys and heights are.
  lemma RotateInOrder<N>(t: Tree<N>)
    requires t.Node? && Positive(t.left) && Positive(t.right)
    ensures InOrder(Rotate(t)) == InOrder(t)
  {
    hide InOrder;
    UnfoldInOrder(t);
    UnfoldInOrder(Fix(t));
    if Balance(t) > 1 {
      if Balance(t.left) >= 0 {
        RightInOrder(t);
      } else {
        LeftInOrder(t.left);
        UnfoldInOrder(t.(left := RotateLeft(t.left)));
        RightInOrder(t.(left := RotateLeft(t.left)));
      }
    } else if Balance(t) < -1 {
      if Balance(t.right) <= 0 {
        LeftInOrder(t);
      } else {
        RightInOrder(t.right);
        UnfoldInOrder(t.(right := RotateRight(t.right)));
        LeftInOrder(t.(right := RotateRight(t.right)));
      }
    }
  }

  lemma UnfoldInOrder<N>(t: Tree<N>)
    requires t.Node?
    ensures InOrder(t) == InOrder(t.left) + [(t.key, t.data)] + InOrder(t.right)
  {
  }

  lemma RightInOrder<N>(t: Tree<N>)
    requires t.Node? && t.left.Node?
    ensures InOrder(RotateRight(t)) == InOrder(t)
  {
    hide InOrder;
    var x, r := t.left, RotateRight(t);
    UnfoldInOrder(t);
    UnfoldInOrder(x);
    UnfoldInOrder(r);
    UnfoldInOrder(r.right);
    Regroup(InOrder(x.left), (x.key, x.data), InOrder(x.right), (t.key, t.data), InOrder(t.right));
  }

  lemma LeftInOrder<N>(t: Tree<N>)
    requires t.Node? && t.right.Node?
    ensures InOrder(RotateLeft(t)) == InOrder(t)
  {
    hide InOrder;
    var x, r := t.right, RotateLeft(t);
    UnfoldInOrder(t);
    UnfoldInOrder(x);
    UnfoldInOrder(r);
    UnfoldInOrder(r.left);
    Regroup(InOrder(t.left), (t.key, t.data), InOrder(x.left), (x.key, x.data), InOrder(x.right));
  }

  lemma Regroup(a: seq<Entry>, x: Entry, b: seq<Entry>, y: Entry, c: seq<Entry>)
    ensures a + [x] + b + [y] + c == a + [x] + (b + [y] + c)
  {
  }

  // i is the place in front of the first entry of s whose key is not smaller than k.
  ghost predicate FrontOf(s: seq<Entry>, cmp: (Key, Key) -> int, k: Key, i: nat) {
    && i <= |s|
    && (forall j :: 0 <= j < i ==> cmp(s[j].0, k) < 0)
    && forall j :: i <= j < |s| ==> cmp(s[j].0, k) >= 0
  }

  // s' is s with the entry (k, d) put there.
  ghost predicate PutAt(s: seq<Entry>, s': seq<Entry>, cmp: (Key, Key) -> int, k: Key, d: Data, i: nat) {
    FrontOf(s, cmp, k, i) && i <= |s| && s' == s[..i] + [(k, d)] + s[i..]
  }

  // s' is s without its entry at i, which has the key k and the data d.
  ghost predicate TakenAt(s: seq<Entry>, s': seq<Entry>, cmp: (Key, Key) -> int, k: Key, d: Data, i: nat) {
    i < |s| && cmp(s[i].0, k) == 0 && s[i].1 == d && s' == s[..i] + s[i + 1..]
  }

  // A set puts its entry in front of the first one whose key is not smaller, so in front of
  // those of equal keys.
  lemma {:induction false} InsertInOrder<N>(t: Tree<N>, cmp: (Key, Key) -> int, k: Key, d: Data, n: N) returns (i: nat)
    requires TotalPreorder(cmp) && Ordered(t, cmp) && Positive(t)
    ensures FrontOf(InOrder(t), cmp, k, i)
    ensures InOrder(Insert(t, cmp, k, d, n)) == InOrder(t)[..i] + [(k, d)] + InOrder(t)[i..]
  {
    hide TotalPreorder, Ordered, FrontOf, Rotate, InOrder;
    if t.Leaf? {
      i := 0;
      NothingInOrder(t, Insert(t, cmp, k, d, n), cmp, k, d);
    } else {
      OrderedParts(t, cmp);
      UnfoldInOrder(t);
      var l, m, r := InOrder(t.left), (t.key, t.data), InOrder(t.right);
      AroundRoot(t, cmp, k);
      if cmp(t.key, k) >= 0 {
        var u := t.(left := Insert(t.left, cmp, k, d, n));
        i := InsertInOrder(t.left, cmp, k, d, n);
        FrontBounds(l, cmp, k, i);
        UnfoldInOrder(u);
        RotateInOrder(u);
        FrontLeft(l, m, r, cmp, k, i);
        WithLeft(l, m, r, (k, d), i);
      } else {
        var u := t.(right := Insert(t.right, cmp, k, d, n));
        var j := InsertInOrder(t.right, cmp, k, d, n);
        FrontBounds(r, cmp, k, j);
        i := |l| + 1 + j;
        UnfoldInOrder(u);
        RotateInOrder(u);
        FrontRight(l, m, r, cmp, k, j);
        WithRight(l, m, r, (k, d), j);
      }
    }
  }

  lemma NothingInOrder<N>(t: Tree<N>, u: Tree<N>, cmp: (Key, Key) -> int, k: Key, d: Data)
    requires t.Leaf? && u.Node? && u.left.Leaf? && u.right.Leaf? && u.key == k && u.data == d
    ensures FrontOf(InOrder(t), cmp, k, 0) && InOrder(t) == [] && InOrder(u) == [(k, d)]
  {
  }

  lemma FrontBounds(s: seq<Entry>, cmp: (Key, Key) -> int, k: Key, i: nat)
    requires FrontOf(s, cmp, k, i)
    ensures i <= |s|
  {
  }

  // What the root's key tells of the keys on its two sides.
  lemma AroundRoot<N>(t: Tree<N>, cmp: (Key, Key) -> int, k: Key)
    requires TotalPreorder(cmp) && t.Node? && Ordered(t, cmp)
    ensures cmp(t.key, k) >= 0 ==> forall j :: 0 <= j < |InOrder(t.right)| ==> cmp(InOrder(t.right)[j].0, k) >= 0
    ensures cmp(t.key, k) < 0 ==> forall j :: 0 <= j < |InOrder(t.left)| ==> cmp(InOrder(t.left)[j].0, k) < 0
  {
    hide TotalPreorder, InOrder;
    InOrderEntries(t.left);
    InOrderEntries(t.right);
    forall j | 0 <= j < |InOrder(t.right)|
      ensures cmp(t.key, k) >= 0 ==> cmp(InOrder(t.right)[j].0, k) >= 0
    {
      assert InOrder(t.right)[j] in multiset(InOrder(t.right));
      Through(cmp, InOrder(t.right)[j].0, t.key, k);
    }
    forall j | 0 <= j < |InOrder(t.left)|
      ensures cmp(t.key, k) < 0 ==> cmp(InOrder(t.left)[j].0, k) < 0
    {
      assert InOrder(t.left)[j] in multiset(InOrder(t.left));
      Through(cmp, InOrder(t.left)[j].0, t.key, k);
    }
  }

  lemma Through(cmp: (Key, Key) -> int, a: Key, b: Key, k: Key)
    requires TotalPreorder(cmp)
    ensures cmp(a, b) >= 0 && cmp(b, k) >= 0 ==> cmp(a, k) >= 0
    ensures cmp(a, b) <= 0 && cmp(b, k) < 0 ==> cmp(a, k) < 0
  {
    assert cmp(k, a) <= 0 || cmp(a, k) < 0;
    assert cmp(k, b) <= 0 || cmp(b, k) < 0;
    assert cmp(b, a) <= 0 || cmp(a, b) < 0;
  }

  lemma FrontLeft(l: seq<Entry>, m: Entry, r: seq<Entry>, cmp: (Key, Key) -> int, k: Key, i: nat)
    requires FrontOf(l, cmp, k, i) && cmp(m.0, k) >= 0 && forall j :: 0 <= j < |r| ==> cmp(r[j].0, k) >= 0
    ensures FrontOf(l + [m] + r, cmp, k, i)
  {
  }

  lemma FrontRight(l: seq<Entry>, m: Entry, r: seq<Entry>, cmp: (Key, Key) -> int, k: Key, i: nat)
    requires FrontOf(r, cmp, k, i) && cmp(m.0, k) < 0 && forall j :: 0 <= j < |l| ==> cmp(l[j].0, k) < 0
    ensures FrontOf(l + [m] + r, cmp, k, |l| + 1 + i)
  {
    var s := l + [m] + r;
    assert forall j :: |l| < j < |s| ==> s[j] == r[j - |l| - 1];
  }

  lemma WithLeft(l: seq<Entry>, m: Entry, r: seq<Entry>, e: Entry, i: nat)
    requires i <= |l|
    ensures (l[..i] + [e] + l[i..]) + [m] + r == (l + [m] + r)[..i] + [e] + (l + [m] + r)[i..]
  {
  }

  lemma WithRight(l: seq<Entry>, m: Entry, r: seq<Entry>, e: Entry, i: nat)
    requires i <= |r|
    ensures var s := l + [m] + r;
      l + [m] + (r[..i] + [e] + r[i..]) == s[..|l| + 1 + i] + [e] + s[|l| + 1 + i..]
  {
  }

  // A delete takes the found entry out of its place and leaves the others in order.
  lemma {:induction false} DeleteInOrder<N>(t: Tree<N>, cmp: (Key, Key) -> int, k: Key) returns (i: nat)
    requires Find(t, cmp, k).Node?
    ensures i < |InOrder(t)| && InOrder(t)[i] == (Find(t, cmp, k).key, Find(t, cmp, k).data)
    ensures InOrder(Delete(t, cmp, k)) == InOrder(t)[..i] + InOrder(t)[i + 1..]
  {
    hide InOrder, DeleteTop;
    UnfoldInOrder(t);
    var l, m, r := InOrder(t.left), (t.key, t.data), InOrder(t.right);
    if cmp(t.key, k) > 0 {
      i := DeleteInOrder(t.left, cmp, k);
      UnfoldInOrder(Delete(t, cmp, k));
      WithoutLeft(l, m, r, i);
    } else if cmp(t.key, k) < 0 {
      var j := DeleteInOrder(t.right, cmp, k);
      i := |l| + 1 + j;
      UnfoldInOrder(Delete(t, cmp, k));
      WithoutRight(l, m, r, j);
    } else {
      i := |l|;
      DeleteTopInOrder(t);
    }
  }

  lemma WithoutLeft(l: seq<Entry>, m: Entry, r: seq<Entry>, i: nat)
    requires i < |l|
    ensures var s := l + [m] + r; s[i] == l[i] && (l[..i] + l[i + 1..]) + [m] + r == s[..i] + s[i + 1..]
  {
  }

  lemma WithoutRight(l: seq<Entry>, m: Entry, r: seq<Entry>, i: nat)
    requires i < |r|
    ensures var s := l + [m] + r; var j := |l| + 1 + i;
      s[j] == r[i] && l + [m] + (r[..i] + r[i + 1..]) == s[..j] + s[j + 1..]
  {
  }

  lemma DeleteTopInOrder<N>(t: Tree<N>)
    requires t.Node?
    ensures InOrder(DeleteTop(t)) == InOrder(t.left) + InOrder(t.right)
    ensures var s := InOrder(t.left) + [(t.key, t.data)] + InOrder(t.right); var i := |InOrder(t.left)|;
      s[..i] + s[i + 1..] == InOrder(t.left) + InOrder(t.right)
  {
    if t.left.Node? && t.right.Node? {
      MinFirst(t.right);
      UnfoldInOrder(DeleteTop(t));
    }
  }

  lemma {:induction false} MinFirst<N>(t: Tree<N>)
    requires t.Node?
    ensures InOrder(t) == [(Min(t).key, Min(t).data)] + InOrder(DeleteMin(t))
  {
    if t.left.Node? {
      MinFirst(t.left);
    }
  }

  // Of two entries with equal keys, set one after the other behind a smaller key, a search
  // finds the later one.
  lemma LaterIsFound<N>(cmp: (Key, Key) -> int, a: Key, b: Key, x: Data, y: Data, z: Data, n: N)
    requires TotalPreorder(cmp) && cmp(a, b) < 0
    ensures var t := Insert(Insert(Insert(Leaf, cmp, a, x, n), cmp, b, y, n), cmp, b, z, n);
      Find(t, cmp, b).Node? && Find(t, cmp, b).data == z
  {
    assert cmp(b, b) == 0;
    var two := Node(Leaf, n, a, x, 2, Single(b, y, n));
    assert Insert(Insert(Leaf, cmp, a, x, n), cmp, b, y, n) == two;
    assert Insert(two.right, cmp, b, z, n) == Node(Single(b, z, n), n, b, y, 2, Leaf);
    assert Insert(two, cmp, b, z, n) == Node(Single(a, x, n), n, b, z, 2, Single(b, y, n));
  }
}
