// Replacing the statistics at the end of a chain of tree nodes: every ancestor's sums
// count the mean of the next node on the chain.
module Tracer {
  class Stats {
    var sum: real
    var sumsq: real
    var n: nat

    constructor (sum: real, sumsq: real, n: nat)
      ensures this.sum == sum && this.sumsq == sumsq && this.n == n
    {
      this.sum, this.sumsq, this.n := sum, sumsq, n;
    }
  }

  class Traced {
    var stat: Stats?

    constructor (stat: Stats?)
      ensures this.stat == stat
    {
      this.stat := stat;
    }
  }

  // The fields of a statistic at one moment; all zero where there is none.
  datatype Cell = Cell(sum: real, sumsq: real, n: nat)

  ghost function CellOf(s: Stats?): Cell
    reads s
  {
    if s == null then Cell(0.0, 0.0, 0) else Cell(s.sum, s.sumsq, s.n)
  }

  function Mean(sum: real, n: nat): real {
    if n != 0 then sum / n as real else 0.0
  }

  // It is the mean, and zero without samples; and a square is a square.
  lemma MeanIsMean(sum: real, n: nat)
    ensures Square(Mean(sum, n)) == Mean(sum, n) * Mean(sum, n)
    ensures n != 0 ==> Mean(sum, n) * n as real == sum
    ensures n == 0 ==> Mean(sum, n) == 0.0
  {
  }

  // The mean of the samples of a statistic, from its fields; zero where there are none.
  ghost function Quotient(s: Stats?): (q: real)
    reads s
    ensures s != null && s.n != 0 ==> q * s.n as real == s.sum
    ensures s == null || s.n == 0 ==> q == 0.0
  {
    if s == null || s.n == 0 then 0.0 else s.sum / s.n as real
  }

  // x times x: a function, so that proofs need not multiply.
  ghost function Square(x: real): real {
    x * x
  }

  // What c holds besides the mean of the next node d.
  ghost function Rest(c: Cell, d: Cell): Cell {
    var m := Mean(d.sum, d.n);
    Cell(c.sum - m, c.sumsq - m * m, c.n)
  }

  // Distinct nodes with distinct statistics s, as far as they have any.
  ghost predicate Chain(list: seq<Traced>, s: seq<Stats?>)
    reads list
  {
    && |s| == |list|
    && (forall i :: 0 <= i < |list| ==> list[i].stat == s[i])
    && (forall i, j :: 0 <= i < j < |list| ==> list[i] != list[j])
    && (forall i, j :: 0 <= i < j < |list| && s[i] != null ==> s[i] != s[j])
  }

  // A node or the next one has no statistics: the loops break here.
  ghost predicate Gap(s: seq<Stats?>, i: nat)
    requires i + 1 < |s|
  {
    s[i] == null || s[i + 1] == null
  }

  ghost predicate FirstGap(s: seq<Stats?>, f: nat) {
    f < |s| && (forall i :: 0 <= i < f ==> !Gap(s, i)) && (f < |s| - 1 ==> Gap(s, f))
  }

  // The last gap is just above g.
  ghost predicate LastGap(s: seq<Stats?>, g: nat) {
    g < |s| && (forall i :: g <= i < |s| - 1 ==> !Gap(s, i)) && (g > 0 ==> Gap(s, g - 1))
  }

  // Only the last node may have no statistics.
  ghost predicate Complete(s: seq<Stats?>) {
    forall i :: 0 <= i < |s| - 1 ==> s[i] != null
  }

  method Withdraw(value1: Stats, value2: Stats)
    requires value1 != value2
    modifies value1
    ensures CellOf(value1) == Rest(old(CellOf(value1)), CellOf(value2))
  {
    var mean := Mean(value2.sum, value2.n);
    value1.sum := value1.sum - mean;
    value1.sumsq := value1.sumsq - mean * mean;
  }

  method Deposit(value1: Stats, value2: Stats)
    requires value1 != value2
    modifies value2
    ensures Rest(CellOf(value2), CellOf(value1)) == old(CellOf(value2))
  {
    var mean := Mean(value1.sum, value1.n);
    value2.sum := value2.sum + mean;
    value2.sumsq := value2.sumsq + mean * mean;
  }

  ghost predicate Cells(s: seq<Stats?>, c: seq<Cell>)
    reads set i | 0 <= i < |s| :: s[i]
  {
    |c| == |s| && forall i :: 0 <= i < |s| ==> CellOf(s[i]) == c[i]
  }

  ghost predicate TakenOut(s: seq<Stats?>, before: seq<Cell>, f: nat)
    reads set i | 0 <= i < |s| :: s[i]
  {
    && |before| == |s| && FirstGap(s, f)
    && (forall i :: 0 <= i < f ==> CellOf(s[i]) == Rest(before[i], before[i + 1]))
    && forall i :: f <= i < |s| ==> CellOf(s[i]) == before[i]
  }

  ghost predicate PutIn(s: seq<Stats?>, before: seq<Cell>, g: nat)
    reads set i | 0 <= i < |s| :: s[i]
  {
    && |before| == |s| && LastGap(s, g)
    && (forall i :: g <= i < |s| - 1 ==> Rest(CellOf(s[i]), CellOf(s[i + 1])) == before[i])
    && forall i :: 0 <= i < |s| && (i < g || i == |s| - 1) ==> CellOf(s[i]) == before[i]
  }

  // Down the chain up to the first gap, at f: take the old means out.
  method Down(list: seq<Traced>, ghost s: seq<Stats?>, ghost before: seq<Cell>) returns (ghost f: nat)
    requires list != [] && Chain(list, s) && Cells(s, before)
    modifies set i | 0 <= i < |s| && s[i] != null :: s[i]
    ensures TakenOut(s, before, f)
  {
    hide Rest;
    var last, cur := |list| - 1, 0;
    while cur != last
      invariant 0 <= cur <= last && forall i :: 0 <= i < cur ==> !Gap(s, i)
      invariant forall i :: 0 <= i < cur ==> CellOf(s[i]) == Rest(before[i], before[i + 1])
      invariant forall i :: cur <= i <= last ==> CellOf(s[i]) == before[i]
    {
      var value1, value2 := list[cur].stat, list[cur + 1].stat;
      if value1 == null || value2 == null {
        break;
      }
      Withdraw(value1, value2);
      cur := cur + 1;
    }
    f := cur;
  }

  // Up the chain down to the last gap, below g: put the new means in.
  method Up(list: seq<Traced>, ghost s: seq<Stats?>, ghost before: seq<Cell>) returns (ghost g: nat)
    requires list != [] && Chain(list, s) && Cells(s, before)
    modifies set i | 0 <= i < |s| - 1 && s[i] != null :: s[i]
    ensures PutIn(s, before, g)
  {
    hide Rest;
    var last := |list| - 1;
    var cur := last;
    while cur != 0
      invariant 0 <= cur <= last && forall i :: cur <= i < last ==> !Gap(s, i)
      invariant forall i :: 0 <= i < cur || i == last ==> CellOf(s[i]) == before[i]
      invariant forall i :: cur <= i < last ==> Rest(CellOf(s[i]), CellOf(s[i + 1])) == before[i]
    {
      var value1, value2 := list[cur].stat, list[cur - 1].stat;
      if value1 == null || value2 == null {
        break;
      }
      Deposit(value1, value2);
      cur := cur - 1;
    }
    g := cur;
  }

  // The cells between the two passes: rests up to f, the new last cell c.
  ghost function Between(before: seq<Cell>, f: nat, c: Cell): (m: seq<Cell>)
    requires f < |before|
    ensures |m| == |before| && m[|m| - 1] == c
    ensures forall i :: 0 <= i < |m| - 1 ==> m[i] == if i < f then Rest(before[i], before[i + 1]) else before[i]
  {
    seq(|before|, i requires 0 <= i < |before| =>
      if i == |before| - 1 then c else if i < f then Rest(before[i], before[i + 1]) else before[i])
  }

  // Put stat in place of the last node's statistics.
  method ReplaceLast(list: seq<Traced>, stat: Stats, ghost s: seq<Stats?>) returns (ghost s': seq<Stats?>)
    requires list != [] && Chain(list, s) && stat !in s
    modifies list[|list| - 1]
    ensures s' == s[..|s| - 1] + [stat] && Chain(list, s') && forall i :: 0 <= i < |s| - 1 ==> s'[i] == s[i]
  {
    list[|list| - 1].stat := stat;
    s' := s[..|s| - 1] + [stat];
  }

  // The two passes around the replacement.
  method Propagate(list: seq<Traced>, stat: Stats, ghost s: seq<Stats?>, ghost before: seq<Cell>)
    returns (rc: int, ghost s': seq<Stats?>, ghost f: nat, ghost g: nat)
    requires Chain(list, s) && stat !in s && Cells(s, before)
    modifies list, set i | 0 <= i < |s| && s[i] != null :: s[i]
    ensures rc == if list == [] then -1 else 0
    ensures list != [] ==> s' == s[..|s| - 1] + [stat] && Chain(list, s') && CellOf(stat) == old(CellOf(stat))
    ensures list != [] ==> Updated(s, s', before, f, g)
    ensures list != [] && Complete(s) ==>
      forall i :: 0 <= i < |s| - 1 ==> Rest(CellOf(s'[i]), CellOf(s'[i + 1])) == Rest(before[i], before[i + 1])
  {
    hide Rest, FirstGap, Updated, TakenOut, PutIn, Cells, Chain;
    if |list| == 0 {
      return -1, [], 0, 0;
    }
    ChainLength(list, s);
    NoCell(s, before);
    f := Down(list, s, before);
    s' := ReplaceLast(list, stat, s);
    AfterReplace(s, s', before, f, stat);
    g := Up(list, s', Between(before, f, CellOf(stat)));
    AfterUp(s, s', before, f, g, stat);
    Conserved(s, s', before, f, g);
    return 0, s', f, g;
  }

  lemma AfterReplace(s: seq<Stats?>, s': seq<Stats?>, before: seq<Cell>, f: nat, stat: Stats)
    requires TakenOut(s, before, f) && s' == s[..|s| - 1] + [stat]
    ensures |before| == |s| && FirstGap(s, f) && Cells(s', Between(before, f, CellOf(stat)))
  {
    var m := Between(before, f, CellOf(stat));
    forall i | 0 <= i < |s|
      ensures CellOf(s'[i]) == m[i]
    {
      assert i < |s| - 1 ==> CellOf(s[i]) == m[i] && s'[i] == s[i];
    }
  }

  lemma AfterUp(s: seq<Stats?>, s': seq<Stats?>, before: seq<Cell>, f: nat, g: nat, stat: Stats)
    requires s != [] && |before| == |s| && s' == s[..|s| - 1] + [stat] && FirstGap(s, f)
    requires PutIn(s', Between(before, f, CellOf(stat)), g)
    ensures Updated(s, s', before, f, g)
  {
  }

  // s and s' are the statistics of the chain before and after, f and g the gaps where the
  // passes break off. In a complete chain the new means replace the old ones all the way
  // up, so that what else the ancestors' sums hold is conserved.
  method UpdateTracer(list: seq<Traced>, stat: Stats, ghost s: seq<Stats?>, ghost before: seq<Cell>)
    returns (rc: int, ghost s': seq<Stats?>, ghost f: nat, ghost g: nat)
    requires Chain(list, s) && stat !in s && Cells(s, before)
    modifies list, set i | 0 <= i < |s| && s[i] != null :: s[i]
    ensures rc == if list == [] then -1 else 0
    ensures list != [] ==> s' == s[..|s| - 1] + [stat] && Chain(list, s') && CellOf(stat) == old(CellOf(stat))
    ensures list != [] ==> Updated(s, s', before, f, g)
    ensures list != [] && Complete(s) ==>
      forall i :: 0 <= i < |s| - 1 ==> Rest(CellOf(s'[i]), CellOf(s'[i + 1])) == Rest(before[i], before[i + 1])
    ensures list != [] && Complete(s) ==>
      forall i :: 0 <= i < |s| - 1 ==>
        && s'[i] == s[i] && s[i].n == old(s[i].n)
        && s[i].sum - Quotient(s'[i + 1]) == old(s[i].sum) - old(Quotient(s[i + 1]))
        && s[i].sumsq - Square(Quotient(s'[i + 1])) == old(s[i].sumsq) - old(Square(Quotient(s[i + 1])))
  {
    hide Rest, FirstGap, Updated, Cells, Chain, Quotient, Square, CellOf, Mean;
    ChainLength(list, s);
    InFields(s, before);
    rc, s', f, g := Propagate(list, stat, s, before);
    if list != [] && Complete(s) {
      SameBefore(s, s');
      RestInFields(s', before);
      forall i | 0 <= i < |s| - 1
        ensures s'[i] == s[i] && s[i].n == old(s[i].n)
        ensures s[i].sum - Quotient(s'[i + 1]) == old(s[i].sum) - old(Quotient(s[i + 1]))
        ensures s[i].sumsq - Square(Quotient(s'[i + 1])) == old(s[i].sumsq) - old(Square(Quotient(s[i + 1])))
      {
        assert s[i] != null && s'[i] != null;
        assert old(Quotient(s[i + 1])) == Mean(before[i + 1].sum, before[i + 1].n);
        assert old(s[i].sum) == before[i].sum;
      }
    }
  }

  lemma SameBefore(s: seq<Stats?>, s': seq<Stats?>)
    requires s != [] && |s'| == |s| && s'[..|s| - 1] == s[..|s| - 1]
    ensures forall i :: 0 <= i < |s| - 1 ==> s'[i] == s[i]
  {
    assert forall i :: 0 <= i < |s| - 1 ==> s'[i] == s'[..|s| - 1][i] == s[..|s| - 1][i];
  }

  // The means are taken out above the first gap f and put in from g on, behind the last.
  ghost predicate Updated(s: seq<Stats?>, s': seq<Stats?>, before: seq<Cell>, f: nat, g: nat)
    reads set i | 0 <= i < |s'| :: s'[i]
  {
    && |s| == |s'| == |before| && FirstGap(s, f) && LastGap(s', g)
    && forall i :: 0 <= i < |s| - 1 ==>
      (if i >= g then Rest(CellOf(s'[i]), CellOf(s'[i + 1])) else CellOf(s'[i]))
      == if i < f then Rest(before[i], before[i + 1]) else before[i]
  }

  // A complete chain has at most the gap of its last node, which takes no mean out.
  lemma Conserved(s: seq<Stats?>, s': seq<Stats?>, before: seq<Cell>, f: nat, g: nat)
    requires s != [] && |s| == |s'| && s'[..|s| - 1] == s[..|s| - 1] && s'[|s| - 1] != null
    requires Updated(s, s', before, f, g)
    requires s[|s| - 1] == null ==> before[|s| - 1] == Cell(0.0, 0.0, 0)
    ensures Complete(s) ==>
      forall i :: 0 <= i < |s| - 1 ==> Rest(CellOf(s'[i]), CellOf(s'[i + 1])) == Rest(before[i], before[i + 1])
  {
    if Complete(s) {
      forall i | 0 <= i < |s| - 1
        ensures s'[i] == s[i]
      {
        assert s'[i] == s'[..|s| - 1][i] == s[..|s| - 1][i];
      }
    }
  }

  lemma NoCell(s: seq<Stats?>, before: seq<Cell>)
    requires Cells(s, before)
    ensures |before| == |s| && (s != [] && s[|s| - 1] == null ==> before[|s| - 1] == Cell(0.0, 0.0, 0))
  {
  }

  lemma InFields(s: seq<Stats?>, before: seq<Cell>)
    requires Cells(s, before)
    ensures |before| == |s|
    ensures forall i :: 0 <= i < |s| ==> Quotient(s[i]) == Mean(before[i].sum, before[i].n)
    ensures forall i :: 0 <= i < |s| && s[i] != null ==>
      s[i].sum == before[i].sum && s[i].sumsq == before[i].sumsq && s[i].n == before[i].n
  {
  }

  lemma RestInFields(s': seq<Stats?>, before: seq<Cell>)
    requires |s'| == |before|
    requires forall i :: 0 <= i < |before| - 1 ==>
      Rest(CellOf(s'[i]), CellOf(s'[i + 1])) == Rest(before[i], before[i + 1])
    ensures forall i :: 0 <= i < |before| - 1 && s'[i] != null ==>
      && s'[i].n == before[i].n
      && s'[i].sum - Quotient(s'[i + 1]) == before[i].sum - Mean(before[i + 1].sum, before[i + 1].n)
      && s'[i].sumsq - Square(Quotient(s'[i + 1]))
        == before[i].sumsq - Square(Mean(before[i + 1].sum, before[i + 1].n))
  {
    hide Rest, CellOf, Quotient, Square, Mean;
    forall i | 0 <= i < |before| - 1 && s'[i] != null
      ensures s'[i].n == before[i].n
      ensures s'[i].sum - Quotient(s'[i + 1]) == before[i].sum - Mean(before[i + 1].sum, before[i + 1].n)
      ensures s'[i].sumsq - Square(Quotient(s'[i + 1]))
        == before[i].sumsq - Square(Mean(before[i + 1].sum, before[i + 1].n))
    {
      RestOfNode(s'[i], s'[i + 1], before[i], before[i + 1]);
    }
  }

  lemma RestOfNode(node: Stats, next: Stats?, a: Cell, b: Cell)
    requires Rest(CellOf(node), CellOf(next)) == Rest(a, b)
    ensures node.n == a.n
    ensures node.sum - Quotient(next) == a.sum - Mean(b.sum, b.n)
    ensures node.sumsq - Square(Quotient(next)) == a.sumsq - Square(Mean(b.sum, b.n))
  {
    assert Quotient(next) == Mean(CellOf(next).sum, CellOf(next).n);
  }

  lemma ChainLength(list: seq<Traced>, s: seq<Stats?>)
    requires Chain(list, s)
    ensures |s| == |list|
  {
  }
}
