// Sorting a dynamic array's contents in place.
module DArraySorts {
  import opened Orders

  type T(==, !new)
  type Compare = (T, T) -> int

  ghost predicate Sorted(s: seq<T>, cmp: Compare) {
    forall i, j :: 0 <= i < j < |s| ==> cmp(s[i], s[j]) <= 0
  }

  // t is s with the places lo up to hi permuted.
  ghost predicate Permuted(s: seq<T>, t: seq<T>, lo: nat, hi: nat) {
    lo <= hi <= |s| == |t| && t[..lo] == s[..lo] && t[hi..] == s[hi..] && multiset(t[lo..hi]) == multiset(s[lo..hi])
  }

  lemma PermutedTrans(s: seq<T>, t: seq<T>, u: seq<T>, lo: nat, hi: nat)
    requires Permuted(s, t, lo, hi) && Permuted(t, u, lo, hi)
    ensures Permuted(s, u, lo, hi)
  {
  }

  lemma PermutedWiden(s: seq<T>, t: seq<T>, lo: nat, hi: nat, lo': nat, hi': nat)
    requires Permuted(s, t, lo, hi) && lo' <= lo && hi <= hi' <= |s|
    ensures Permuted(s, t, lo', hi')
  {
    Split(s, lo', lo, hi, hi');
    Split(t, lo', lo, hi, hi');
    assert s[lo'..lo] == s[..lo][lo'..] == t[lo'..lo];
    assert s[hi..hi'] == s[hi..][..hi' - hi] == t[hi..hi'];
    assert s[..lo'] == s[..lo][..lo'] && t[..lo'] == t[..lo][..lo'];
    assert s[hi'..] == s[hi..][hi' - hi..] && t[hi'..] == t[hi..][hi' - hi..];
  }

  lemma Split(s: seq<T>, a: nat, b: nat, c: nat, d: nat)
    requires a <= b <= c <= d <= |s|
    ensures multiset(s[a..d]) == multiset(s[a..b]) + multiset(s[b..c]) + multiset(s[c..d])
  {
    assert s[a..d] == s[a..b] + s[b..c] + s[c..d];
  }

  lemma PermutedAll(s: seq<T>, t: seq<T>)
    requires Permuted(s, t, 0, |s|)
    ensures multiset(s) == multiset(t)
  {
    assert s[0..|s|] == s && t[0..|t|] == t;
  }

  function Swapped(s: seq<T>, i: nat, j: nat): (t: seq<T>)
    requires i < |s| && j < |s|
    ensures |t| == |s| && forall k :: 0 <= k < |s| ==> t[k] == if k == i then s[j] else if k == j then s[i] else s[k]
  {
    s[i := s[j]][j := s[i]]
  }

  lemma SwapPermuted(s: seq<T>, i: nat, j: nat, lo: nat, hi: nat)
    requires lo <= i < hi <= |s| && lo <= j < hi
    ensures Permuted(s, Swapped(s, i, j), lo, hi)
  {
    assert Swapped(s, i, j)[lo..hi] == s[lo..hi][i - lo := s[j]][j - lo := s[i]];
  }

  lemma Reflexive(cmp: Compare, x: T)
    requires TotalPreorder(cmp)
    ensures cmp(x, x) == 0
  {
  }

  lemma Transitive(cmp: Compare, x: T, y: T, z: T)
    requires TotalPreorder(cmp) && cmp(x, y) <= 0 && cmp(y, z) <= 0
    ensures cmp(x, z) <= 0
  {
  }

  // A place of t holds what some place of s held.
  lemma Origin(s: seq<T>, t: seq<T>, lo: nat, hi: nat, k: nat) returns (o: nat)
    requires Permuted(s, t, lo, hi) && lo <= k < hi
    ensures lo <= o < hi && s[o] == t[k]
  {
    assert t[lo..hi][k - lo] in multiset(t[lo..hi]);
    assert t[k] in s[lo..hi];
    var q :| 0 <= q < |s[lo..hi]| && s[lo..hi][q] == t[k];
    o := lo + q;
  }

  method Swap(a: array<T>, i: nat, j: nat)
    requires i < a.Length && j < a.Length
    modifies a
    ensures a[..] == Swapped(old(a[..]), i, j)
  {
    var temp := a[i];
    a[i] := a[j];
    a[j] := temp;
  }

  // ----- quicksort ---------------------------------------------------------------------

  // Places lo up to p are below x, places p up to j are not.
  ghost predicate Parted(s: seq<T>, cmp: Compare, lo: nat, p: nat, j: nat, x: T) {
    && lo <= p <= j <= |s|
    && (forall k :: lo <= k < p ==> cmp(s[k], x) < 0)
    && forall k :: p <= k < j ==> cmp(s[k], x) >= 0
  }

  // The pivot at p divides the places lo up to hi.
  ghost predicate Divided(s: seq<T>, cmp: Compare, lo: nat, p: nat, hi: nat) {
    lo <= p < hi <= |s| && Parted(s, cmp, lo, p, hi, s[p])
  }

  // s is s0 on the way: the pivot waits at e, the places before j are parted at p.
  ghost predicate OnTheWay(s0: seq<T>, s: seq<T>, cmp: Compare, lo: nat, p: nat, j: nat, e: nat) {
    p <= j <= e < |s| && Permuted(s0, s, lo, e + 1) && Parted(s, cmp, lo, p, j, s[e])
  }

  lemma PartedSwap(s: seq<T>, cmp: Compare, lo: nat, p: nat, j: nat, x: T)
    requires Parted(s, cmp, lo, p, j, x) && j < |s| && cmp(s[j], x) < 0
    ensures Parted(Swapped(s, p, j), cmp, lo, p + 1, j + 1, x)
  {
    hide Swapped;
  }

  lemma Smaller(s0: seq<T>, s: seq<T>, cmp: Compare, lo: nat, p: nat, j: nat, e: nat)
    requires j < e && OnTheWay(s0, s, cmp, lo, p, j, e) && cmp(s[j], s[e]) < 0
    ensures OnTheWay(s0, Swapped(s, p, j), cmp, lo, p + 1, j + 1, e)
  {
    hide Permuted, Parted, Swapped;
    PartedSwap(s, cmp, lo, p, j, s[e]);
    PartedBounds(s, cmp, lo, p, j, s[e]);
    SwapPermuted(s, p, j, lo, e + 1);
    PermutedTrans(s0, s, Swapped(s, p, j), lo, e + 1);
  }

  lemma NotSmaller(s0: seq<T>, s: seq<T>, cmp: Compare, lo: nat, p: nat, j: nat, e: nat)
    requires j < e && OnTheWay(s0, s, cmp, lo, p, j, e) && cmp(s[j], s[e]) >= 0
    ensures OnTheWay(s0, s, cmp, lo, p, j + 1, e)
  {
  }

  lemma PivotDivides(s: seq<T>, cmp: Compare, lo: nat, p: nat, e: nat)
    requires p <= e < |s| && Parted(s, cmp, lo, p, e, s[e]) && cmp(s[e], s[e]) == 0
    ensures Divided(Swapped(s, e, p), cmp, lo, p, e + 1)
  {
    hide Swapped;
  }

  lemma PivotPlaced(s0: seq<T>, s: seq<T>, cmp: Compare, lo: nat, p: nat, e: nat)
    requires TotalPreorder(cmp) && OnTheWay(s0, s, cmp, lo, p, e, e)
    ensures Permuted(s0, Swapped(s, e, p), lo, e + 1) && Divided(Swapped(s, e, p), cmp, lo, p, e + 1)
  {
    hide Permuted, Parted, Swapped, Divided, TotalPreorder;
    PartedBounds(s, cmp, lo, p, e, s[e]);
    Reflexive(cmp, s[e]);
    PivotDivides(s, cmp, lo, p, e);
    SwapPermuted(s, e, p, lo, e + 1);
    PermutedTrans(s0, s, Swapped(s, e, p), lo, e + 1);
  }

  lemma PartedBounds(s: seq<T>, cmp: Compare, lo: nat, p: nat, j: nat, x: T)
    requires Parted(s, cmp, lo, p, j, x)
    ensures lo <= p <= j <= |s|
  {
  }

  // Move the pivot, the last element, to its place p.
  method Partition(a: array<T>, start: nat, end: nat, cmp: Compare) returns (p: nat)
    requires start <= end < a.Length && TotalPreorder(cmp)
    modifies a
    ensures Permuted(old(a[..]), a[..], start, end + 1) && Divided(a[..], cmp, start, p, end + 1)
  {
    hide Permuted, OnTheWay, Divided, TotalPreorder, Swapped;
    ghost var s := a[..];
    var pivot := a[end];
    var i: int := start - 1;
    var j: int := start;
    Started(s, cmp, start, end);
    while j <= end - 1
      invariant start - 1 <= i < j <= end < a.Length && a[..][end] == pivot
      invariant OnTheWay(s, a[..], cmp, start, i + 1, j, end)
    {
      ghost var t := a[..];
      if cmp(a[j], pivot) < 0 {
        i := i + 1;
        Smaller(s, t, cmp, start, i, j, end);
        Swap(a, i, j);
      } else {
        NotSmaller(s, t, cmp, start, i + 1, j, end);
      }
      j := j + 1;
    }
    p := i + 1;
    PivotPlaced(s, a[..], cmp, start, p, end);
    Swap(a, end, p);
  }

  lemma Started(s: seq<T>, cmp: Compare, start: nat, end: nat)
    requires start <= end < |s|
    ensures OnTheWay(s, s, cmp, start, start, start, end)
  {
  }

  // Sorting one side keeps the division.
  lemma KeptDivided(s: seq<T>, t: seq<T>, cmp: Compare, lo: nat, p: nat, hi: nat)
    requires Divided(s, cmp, lo, p, hi) && (Permuted(s, t, lo, p) || Permuted(s, t, p + 1, hi))
    ensures Divided(t, cmp, lo, p, hi)
  {
    if Permuted(s, t, lo, p) {
      KeptAbove(s, t, p);
      forall k | lo <= k < p
        ensures cmp(t[k], t[p]) < 0
      {
        var o := Origin(s, t, lo, p, k);
      }
    } else {
      KeptBelow(s, t, p + 1);
      forall k | p + 1 <= k < hi
        ensures cmp(t[k], t[p]) >= 0
      {
        var o := Origin(s, t, p + 1, hi, k);
      }
    }
  }

  lemma KeptAbove(s: seq<T>, t: seq<T>, p: nat)
    requires p <= |s| == |t| && t[p..] == s[p..]
    ensures forall k :: p <= k < |s| ==> t[k] == s[k]
  {
    forall k | p <= k < |s|
      ensures t[k] == s[k]
    {
      assert t[p..][k - p] == s[p..][k - p];
    }
  }

  lemma KeptBelow(s: seq<T>, t: seq<T>, p: nat)
    requires p <= |s| == |t| && t[..p] == s[..p]
    ensures forall k :: 0 <= k < p ==> t[k] == s[k]
  {
    forall k | 0 <= k < p
      ensures t[k] == s[k]
    {
      assert t[..p][k] == s[..p][k];
    }
  }

  // The parts sorted around the pivot are sorted.
  lemma Conquered(s: seq<T>, cmp: Compare, lo: nat, p: nat, hi: nat)
    requires TotalPreorder(cmp) && Divided(s, cmp, lo, p, hi) && Sorted(s[lo..p], cmp) && Sorted(s[p + 1..hi], cmp)
    ensures Sorted(s[lo..hi], cmp)
  {
    forall i, j | lo <= i < j < hi
      ensures cmp(s[i], s[j]) <= 0
    {
      if j < p {
        assert cmp(s[lo..p][i - lo], s[lo..p][j - lo]) <= 0;
      } else if i > p {
        assert cmp(s[p + 1..hi][i - p - 1], s[p + 1..hi][j - p - 1]) <= 0;
      } else {
        assert i < p ==> cmp(s[i], s[p]) < 0;
        assert j > p ==> cmp(s[p], s[j]) <= 0;
      }
    }
  }

  method Quicksort(a: array<T>, start: nat, end: int, cmp: Compare)
    requires start <= end + 1 <= a.Length && TotalPreorder(cmp)
    modifies a
    ensures Permuted(old(a[..]), a[..], start, end + 1) && Sorted(a[start..end + 1], cmp)
    decreases end + 1 - start
  {
    hide Permuted, Divided, TotalPreorder;
    Unchanged(a[..], start, end + 1);
    if end - start >= 1 {
      ghost var s := a[..];
      var p: int := Partition(a, start, end, cmp);
      ghost var t := a[..];
      DividedPlace(t, cmp, start, p, end + 1);
      Quicksort(a, start, p - 1, cmp);
      ghost var u := a[..];
      Quicksort(a, p + 1, end, cmp);
      LeftDone(s, t, u, a[..], cmp, start, p, end + 1);
    }
  }

  lemma Unchanged(s: seq<T>, lo: nat, hi: nat)
    requires lo <= hi <= |s|
    ensures Permuted(s, s, lo, hi)
  {
  }

  lemma DividedPlace(s: seq<T>, cmp: Compare, lo: nat, p: nat, hi: nat)
    requires Divided(s, cmp, lo, p, hi)
    ensures lo <= p < hi
  {
  }

  lemma LeftDone(s: seq<T>, t: seq<T>, u: seq<T>, v: seq<T>, cmp: Compare, lo: nat, p: nat, hi: nat)
    requires TotalPreorder(cmp) && Permuted(s, t, lo, hi) && Divided(t, cmp, lo, p, hi) && lo <= p < hi
    requires Permuted(t, u, lo, p) && Sorted(u[lo..p], cmp) && Permuted(u, v, p + 1, hi) && Sorted(v[p + 1..hi], cmp)
    ensures Permuted(s, v, lo, hi) && Sorted(v[lo..hi], cmp)
  {
    hide Divided, TotalPreorder, Sorted;
    KeptDivided(t, u, cmp, lo, p, hi);
    KeptDivided(u, v, cmp, lo, p, hi);
    PermutedWiden(t, u, lo, p, lo, hi);
    PermutedWiden(u, v, p + 1, hi, lo, hi);
    PermutedTrans(s, t, u, lo, hi);
    PermutedTrans(s, u, v, lo, hi);
    KeptBelow(u, v, p + 1);
    assert v[lo..p] == u[lo..p];
    Conquered(v, cmp, lo, p, hi);
  }

  // ----- heapsort ------------------------------------------------------------------------

  // Everything in the first m places is at most something in places 0 up to i.
  ghost predicate Dominated(s: seq<T>, cmp: Compare, i: nat, m: nat) {
    i < m <= |s| && forall k :: 0 <= k < m ==> AtMostOne(s, cmp, s[k], i)
  }

  ghost predicate AtMostOne(s: seq<T>, cmp: Compare, x: T, i: nat) {
    exists p :: 0 <= p <= i && p < |s| && cmp(x, s[p]) <= 0
  }

  // s is s0 on the way, dominated by its places 0 up to top.
  ghost predicate Passing(s0: seq<T>, s: seq<T>, cmp: Compare, top: nat, m: nat) {
    Permuted(s0, s, 0, m) && Dominated(s, cmp, top, m)
  }

  // One step of the pass: t is s with the larger of the children, at f and f + 1,
  // lifted to their parent b if it is larger.
  ghost predicate Lifted(s: seq<T>, t: seq<T>, cmp: Compare, b: nat, f: nat, m: nat) {
    && b < f < m <= |s| == |t| && Permuted(s, t, 0, m)
    && (forall k :: 0 <= k < f && k != b ==> t[k] == s[k])
    && cmp(s[b], t[b]) <= 0 && forall k :: f <= k < m && k <= f + 1 ==> cmp(s[k], t[b]) <= 0
  }

  // What the children dominated, the parent dominates.
  lemma DominatedStep(s: seq<T>, t: seq<T>, cmp: Compare, b: nat, f: nat, top: nat, m: nat)
    requires TotalPreorder(cmp) && Lifted(s, t, cmp, b, f, m) && Dominated(s, cmp, top, m) && top <= f + 1
    ensures Dominated(t, cmp, f - 1, m)
  {
    hide Permuted, TotalPreorder;
    forall k | 0 <= k < m
      ensures AtMostOne(t, cmp, t[k], f - 1)
    {
      var o := Origin(s, t, 0, m, k);
      assert AtMostOne(s, cmp, s[o], top);
      var p :| 0 <= p <= top && p < |s| && cmp(s[o], s[p]) <= 0;
      if p == b || p >= f {
        Transitive(cmp, s[o], s[p], t[b]);
        assert cmp(t[k], t[b]) <= 0;
      } else {
        assert cmp(t[k], t[p]) <= 0;
      }
    }
  }

  // The parent of the children from f on and the larger of them change places if that
  // is larger than the parent.
  method Lift(a: array<T>, b: nat, large: nat, cmp: Compare, ghost s0: seq<T>, ghost f: nat, ghost top: nat,
      ghost m: nat)
    requires TotalPreorder(cmp) && b < f <= large < m <= a.Length && large <= f + 1
    requires forall k :: f <= k < m && k <= f + 1 ==> cmp(a[k], a[large]) <= 0
    requires Passing(s0, a[..], cmp, top, m) && top <= f + 1
    modifies a
    ensures Passing(s0, a[..], cmp, f - 1, m)
  {
    hide Permuted, Dominated;
    ghost var s := a[..];
    Unchanged(s, 0, m);
    assert cmp(s[b], s[b]) <= 0;
    if cmp(a[b], a[large]) < 0 {
      Swap(a, b, large);
      SwapPermuted(s, b, large, 0, m);
    } else {
      ParentStays(s, cmp, b, large, f, m);
    }
    DominatedStep(s, a[..], cmp, b, f, top, m);
    PermutedTrans(s0, s, a[..], 0, m);
  }

  lemma ParentStays(s: seq<T>, cmp: Compare, b: nat, large: nat, f: nat, m: nat)
    requires TotalPreorder(cmp) && b < f <= large < m <= |s| && large <= f + 1 && cmp(s[b], s[large]) >= 0
    requires forall k :: f <= k < m && k <= f + 1 ==> cmp(s[k], s[large]) <= 0
    ensures forall k :: f <= k < m && k <= f + 1 ==> cmp(s[k], s[b]) <= 0
  {
    assert cmp(s[large], s[b]) <= 0;
  }

  lemma Larger(cmp: Compare, x: T, y: T)
    requires TotalPreorder(cmp)
    ensures cmp(x, x) == 0 && cmp(y, y) == 0 && (cmp(x, y) > 0 <==> cmp(y, x) < 0)
  {
  }

  lemma PassStarts(s: seq<T>, cmp: Compare, m: nat)
    requires TotalPreorder(cmp) && 0 < m <= |s|
    ensures Passing(s, s, cmp, m - 1, m)
  {
    forall k | 0 <= k < m
      ensures AtMostOne(s, cmp, s[k], m - 1)
    {
      Larger(cmp, s[k], s[k]);
      assert cmp(s[k], s[k]) <= 0;
    }
  }

  // The first m places hold nothing greater than the first one does.
  ghost predicate Topped(s: seq<T>, cmp: Compare, m: nat) {
    m <= |s| && forall k :: 0 <= k < m ==> cmp(s[k], s[0]) <= 0
  }

  lemma PassEnds(s0: seq<T>, s: seq<T>, cmp: Compare, m: nat)
    requires Passing(s0, s, cmp, 0, m)
    ensures Permuted(s0, s, 0, m) && Topped(s, cmp, m)
  {
  }

  // One bottom-up pass: it need not make a heap, but puts the greatest element first.
  method BuildMaxheap(a: array<T>, heapsize: nat, cmp: Compare)
    requires heapsize <= a.Length && TotalPreorder(cmp)
    modifies a
    ensures Permuted(old(a[..]), a[..], 0, heapsize) && Topped(a[..], cmp, heapsize)
  {
    hide Permuted, TotalPreorder, Passing, Topped;
    ghost var s := a[..];
    if heapsize == 0 {
      NothingToDo(s, cmp);
      return;
    }
    PassStarts(s, cmp, heapsize);
    var i: int := heapsize - 1;
    if (heapsize - 1) % 2 == 0 {
      while i > 0
        invariant 0 <= i < heapsize && i % 2 == 0 && Passing(s, a[..], cmp, i, heapsize)
      {
        Larger(cmp, a[i], a[i - 1]);
        var large := if cmp(a[i], a[i - 1]) > 0 then i else i - 1;
        Lift(a, (i - 1) / 2, large, cmp, s, i - 1, i, heapsize);
        i := i - 2;
      }
    } else {
      while i > 0
        invariant -1 <= i < heapsize && (i == -1 || i % 2 == 1)
        invariant Passing(s, a[..], cmp, if i == heapsize - 1 then i else i + 1, heapsize)
      {
        Larger(cmp, a[i], a[if i == heapsize - 1 then i else i + 1]);
        var large := if i == heapsize - 1 || cmp(a[i], a[i + 1]) > 0 then i else i + 1;
        Lift(a, (i - 1) / 2, large, cmp, s, i, if i == heapsize - 1 then i else i + 1, heapsize);
        i := i - 2;
      }
    }
    PassEnds(s, a[..], cmp, heapsize);
  }

  lemma NothingToDo(s: seq<T>, cmp: Compare)
    ensures Permuted(s, s, 0, 0) && Topped(s, cmp, 0)
  {
  }

  // The places from m on are sorted and hold nothing smaller than those before.
  ghost predicate SortedTail(s: seq<T>, cmp: Compare, m: nat, n: nat) {
    m <= n <= |s| && Sorted(s[m..n], cmp) && forall k, j :: 0 <= k < m <= j < n ==> cmp(s[k], s[j]) <= 0
  }

  lemma TailKept(s: seq<T>, t: seq<T>, cmp: Compare, m: nat, n: nat)
    requires SortedTail(s, cmp, m, n) && Permuted(s, t, 0, m)
    ensures SortedTail(t, cmp, m, n)
  {
    KeptAbove(s, t, m);
    assert t[m..n] == s[m..n];
    forall k, j | 0 <= k < m <= j < n
      ensures cmp(t[k], t[j]) <= 0
    {
      var o := Origin(s, t, 0, m, k);
    }
  }

  // The greatest of the first m moves to their end.
  lemma TailGrows(s: seq<T>, cmp: Compare, m: nat, n: nat)
    requires TotalPreorder(cmp) && 0 < m && SortedTail(s, cmp, m, n) && Topped(s, cmp, m)
    ensures SortedTail(Swapped(s, 0, m - 1), cmp, m - 1, n)
  {
    hide TotalPreorder;
    var t := Swapped(s, 0, m - 1);
    assert t[m - 1..n] == [s[0]] + s[m..n];
    Larger(cmp, s[0], s[0]);
    SortedCons(s[0], s[m..n], cmp);
  }

  lemma SortedCons(x: T, s: seq<T>, cmp: Compare)
    requires Sorted(s, cmp) && forall i :: 0 <= i < |s| ==> cmp(x, s[i]) <= 0
    ensures Sorted([x] + s, cmp)
  {
  }

  method Heapsort(a: array<T>, heapsize: nat, cmp: Compare) returns (rc: int)
    requires heapsize <= a.Length && TotalPreorder(cmp)
    modifies a
    ensures rc == 1 && Permuted(old(a[..]), a[..], 0, heapsize) && Sorted(a[..heapsize], cmp)
  {
    hide Permuted, TotalPreorder, Topped, SortedTail, Sorted;
    ghost var s := a[..];
    BuildMaxheap(a, heapsize, cmp);
    EmptyTail(a[..], cmp, heapsize);
    var i: int := heapsize - 1;
    while i > 0
      invariant -1 <= i < heapsize && (i == -1 ==> heapsize == 0)
      invariant Permuted(s, a[..], 0, heapsize) && Topped(a[..], cmp, i + 1) && SortedTail(a[..], cmp, i + 1, heapsize)
    {
      ghost var t := a[..];
      TailGrows(t, cmp, i + 1, heapsize);
      SwapPermuted(t, 0, i, 0, heapsize);
      Swap(a, 0, i);
      PermutedTrans(s, t, a[..], 0, heapsize);
      ghost var u := a[..];
      BuildMaxheap(a, i, cmp);
      TailKept(u, a[..], cmp, i, heapsize);
      PermutedWiden(u, a[..], 0, i, 0, heapsize);
      PermutedTrans(s, u, a[..], 0, heapsize);
      i := i - 1;
    }
    WholeSorted(a[..], cmp, i + 1, heapsize);
    return 1;
  }

  lemma EmptyTail(s: seq<T>, cmp: Compare, m: nat)
    requires m <= |s|
    ensures SortedTail(s, cmp, m, m)
  {
  }

  lemma WholeSorted(s: seq<T>, cmp: Compare, m: nat, n: nat)
    requires SortedTail(s, cmp, m, n) && m <= 1
    ensures Sorted(s[..n], cmp)
  {
    if m == 1 {
      assert s[..n] == [s[0]] + s[1..n];
      forall i | 0 <= i < |s[1..n]|
        ensures cmp(s[0], s[1..n][i]) <= 0
      {
        assert s[1..n][i] == s[i + 1];
      }
      SortedCons(s[0], s[1..n], cmp);
    }
  }

  // ----- the two sorts agree ---------------------------------------------------------------

  // How many elements of s are at most x.
  ghost function Rank(s: seq<T>, cmp: Compare, x: T): nat {
    if s == [] then 0 else Rank(s[..|s| - 1], cmp, x) + if cmp(s[|s| - 1], x) <= 0 then 1 else 0
  }

  lemma {:induction false} RankConcat(s: seq<T>, t: seq<T>, cmp: Compare, x: T)
    ensures Rank(s + t, cmp, x) == Rank(s, cmp, x) + Rank(t, cmp, x)
  {
    if t == [] {
      assert s + t == s;
    } else {
      RankConcat(s, t[..|t| - 1], cmp, x);
      assert (s + t)[..|s + t| - 1] == s + t[..|t| - 1];
    }
  }

  lemma {:induction false} RankPermuted(s: seq<T>, t: seq<T>, cmp: Compare, x: T)
    requires multiset(s) == multiset(t)
    ensures Rank(s, cmp, x) == Rank(t, cmp, x)
  {
    hide Rank;
    if s == [] {
      assert |multiset(t)| == 0;
      assert t == s;
    } else {
      var init, e := s[..|s| - 1], s[|s| - 1];
      assert s == init + [e];
      assert e in multiset(t);
      var k :| 0 <= k < |t| && t[k] == e;
      var a, b := t[..k], t[k + 1..];
      assert t == a + [e] + b;
      Without(init, e, a, b);
      RankPermuted(init, a + b, cmp, x);
      RankOut(init, e, [], cmp, x);
      RankOut(a, e, b, cmp, x);
      assert init + [e] + [] == s && init + [] == init;
    }
  }

  lemma Without(init: seq<T>, e: T, a: seq<T>, b: seq<T>)
    requires multiset(init + [e]) == multiset(a + [e] + b)
    ensures multiset(init) == multiset(a + b)
  {
    assert multiset(a + [e] + b) == multiset(a) + multiset{e} + multiset(b) == multiset(a + b) + multiset{e};
    assert multiset(init + [e]) == multiset(init) + multiset{e};
    assert multiset(init) == multiset(init) + multiset{e} - multiset{e};
    assert multiset(a + b) == multiset(a + b) + multiset{e} - multiset{e};
  }

  lemma RankOut(a: seq<T>, e: T, b: seq<T>, cmp: Compare, x: T)
    ensures Rank(a + [e] + b, cmp, x) == Rank(a + b, cmp, x) + if cmp(e, x) <= 0 then 1 else 0
  {
    RankConcat(a, b, cmp, x);
    RankConcat(a + [e], b, cmp, x);
    assert (a + [e])[..|a|] == a;
  }

  lemma {:induction false} RankAll(s: seq<T>, cmp: Compare, x: T, c: bool)
    requires forall i :: 0 <= i < |s| ==> (cmp(s[i], x) <= 0 <==> c)
    ensures Rank(s, cmp, x) == if c then |s| else 0
  {
    if s != [] {
      RankAll(s[..|s| - 1], cmp, x, c);
    }
  }

  lemma {:induction false} RankBounds(s: seq<T>, cmp: Compare, x: T)
    ensures Rank(s, cmp, x) <= |s|
  {
    if s != [] {
      RankBounds(s[..|s| - 1], cmp, x);
    }
  }

  // The place of an element in sorted order bounds its rank from below, the place of a
  // greater one from above.
  lemma RankAtPlace(s: seq<T>, cmp: Compare, i: nat, x: T)
    requires TotalPreorder(cmp) && Sorted(s, cmp) && i < |s|
    ensures cmp(s[i], x) <= 0 ==> Rank(s, cmp, x) >= i + 1
    ensures cmp(s[i], x) > 0 ==> Rank(s, cmp, x) <= i
  {
    hide TotalPreorder, Sorted;
    SortedAround(s, cmp, i, x);
    if cmp(s[i], x) <= 0 {
      RankAll(s[..i + 1], cmp, x, true);
      RankConcat(s[..i + 1], s[i + 1..], cmp, x);
      assert s[..i + 1] + s[i + 1..] == s;
    } else {
      RankAll(s[i..], cmp, x, false);
      RankBounds(s[..i], cmp, x);
      RankConcat(s[..i], s[i..], cmp, x);
      assert s[..i] + s[i..] == s;
    }
  }

  lemma SortedAround(s: seq<T>, cmp: Compare, i: nat, x: T)
    requires TotalPreorder(cmp) && Sorted(s, cmp) && i < |s|
    ensures cmp(s[i], x) <= 0 ==> forall k :: 0 <= k <= i ==> cmp(s[k], x) <= 0
    ensures cmp(s[i], x) > 0 ==> forall k :: i <= k < |s| ==> cmp(s[k], x) > 0
  {
    hide TotalPreorder;
    forall k | 0 <= k < |s|
      ensures cmp(s[i], x) <= 0 && k <= i ==> cmp(s[k], x) <= 0
      ensures cmp(s[i], x) > 0 && k >= i ==> cmp(s[k], x) > 0
    {
      if k < i && cmp(s[i], x) <= 0 {
        Transitive(cmp, s[k], s[i], x);
      } else if k > i && cmp(s[k], x) <= 0 {
        Transitive(cmp, s[i], s[k], x);
      }
    }
  }

  // Two sorts of the same array agree place by place up to ties.
  lemma SortsAgree(before: seq<T>, s: seq<T>, t: seq<T>, cmp: Compare)
    requires TotalPreorder(cmp) && Sorted(s, cmp) && Sorted(t, cmp)
    requires Permuted(before, s, 0, |before|) && Permuted(before, t, 0, |before|)
    ensures |s| == |t| && forall i :: 0 <= i < |s| ==> cmp(s[i], t[i]) == 0
  {
    hide TotalPreorder, Sorted;
    PermutedAll(before, s);
    PermutedAll(before, t);
    forall i | 0 <= i < |s|
      ensures cmp(s[i], t[i]) == 0
    {
      Larger(cmp, s[i], t[i]);
      Larger(cmp, t[i], s[i]);
      RankPermuted(s, t, cmp, s[i]);
      RankPermuted(s, t, cmp, t[i]);
      RankAtPlace(s, cmp, i, s[i]);
      RankAtPlace(s, cmp, i, t[i]);
      RankAtPlace(t, cmp, i, s[i]);
      RankAtPlace(t, cmp, i, t[i]);
    }
  }
}
