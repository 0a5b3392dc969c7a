// The radix map: a fixed-capacity array of elements kept sorted by key.
module RadixMap {
  import opened Radix
  import opened Wrappers

  // Byte k of a key, the least significant first.
  function ByteAt(key: uint32, k: nat): (b: int)
    requires k < 4
    ensures 0 <= b < 256
  {
    match k
    case 0 => key % 0x100
    case 1 => key / 0x100 % 0x100
    case 2 => key / 0x1_0000 % 0x100
    case 3 => key / 0x100_0000
  }

  ghost function Byte(k: nat): Digit
    requires k < 4
  {
    (e: Element) => ByteAt(e.key, k)
  }

  // The low k + 1 bytes of a key.
  ghost function Low(k: nat): Digit
    requires k < 4
  {
    match k
    case 0 => Byte(0)
    case 1 => (e: Element) => e.key % 0x1_0000
    case 2 => (e: Element) => e.key % 0x100_0000
    case 3 => Key()
  }

  ghost function Key(): Digit {
    (e: Element) => e.key
  }

  lemma LowSplits(k: nat)
    requires k < 3
    ensures Splits(Low(k + 1), Byte(k + 1), Low(k))
  {
    hide Low, Byte;
    var h, f, g := Low(k + 1), Byte(k + 1), Low(k);
    forall e, e'
      ensures h(e) == h(e') <==> f(e) == f(e') && g(e) == g(e')
      ensures f(e) <= f(e') && (f(e) == f(e') ==> g(e) <= g(e')) ==> h(e) <= h(e')
    {
      LowNumber(e, k);
      LowNumber(e', k);
      TwoDigits(k, Byte(k + 1)(e), Low(k)(e), Byte(k + 1)(e'), Low(k)(e'));
    }
  }

  function Weight(k: nat): nat
    requires k < 3
  {
    match k
    case 0 => 0x100
    case 1 => 0x1_0000
    case 2 => 0x100_0000
  }

  lemma TwoDigits(k: nat, f: int, g: int, f': int, g': int)
    requires k < 3 && 0 <= g < Weight(k) && 0 <= g' < Weight(k)
    ensures f * Weight(k) + g == f' * Weight(k) + g' <==> f == f' && g == g'
    ensures f <= f' && (f == f' ==> g <= g') ==> f * Weight(k) + g <= f' * Weight(k) + g'
  {
    match k
    case 0 =>
    case 1 =>
    case 2 =>
  }

  lemma LowNumber(e: Element, k: nat)
    requires k < 3
    ensures Low(k + 1)(e) == Byte(k + 1)(e) * Weight(k) + Low(k)(e) && 0 <= Low(k)(e) < Weight(k)
  {
    Digits(e.key);
  }

  lemma Digits(key: uint32)
    ensures key % 0x1_0000 == key / 0x100 % 0x100 * 0x100 + key % 0x100
    ensures key % 0x100_0000 == key / 0x1_0000 % 0x100 * 0x1_0000 + key % 0x1_0000
    ensures key == key / 0x100_0000 * 0x100_0000 + key % 0x100_0000
  {
    LowTwo(key);
    LowThree(key);
  }

  lemma LowTwo(key: uint32)
    ensures key % 0x1_0000 == key / 0x100 % 0x100 * 0x100 + key % 0x100
  {
    var q := key / 0x100;
    assert key == (q / 0x100) * 0x1_0000 + (q % 0x100 * 0x100 + key % 0x100);
  }

  lemma LowThree(key: uint32)
    ensures key % 0x100_0000 == key / 0x1_0000 % 0x100 * 0x1_0000 + key % 0x1_0000
  {
    var q := key / 0x1_0000;
    assert key == (q / 0x100) * 0x100_0000 + (q % 0x100 * 0x1_0000 + key % 0x1_0000);
  }

  // ----- one pass ----------------------------------------------------------------------

  // While the elements done are placed, count[v] is the next place for digit v.
  ghost predicate Places(count: seq<int>, s: seq<Element>, f: Digit, done: seq<Element>) {
    |count| == 256 && forall v :: 0 <= v < 256 ==> count[v] == |Buckets(s, f, v)| + |Sub(done, f, v)|
  }

  // The places taken by the elements done hold what the whole pass will leave there.
  ghost predicate Filled(d: seq<Element>, lo: nat, s: seq<Element>, f: Digit, done: seq<Element>) {
    lo + |s| <= |d| && |Buckets(s, f, 256)| == |s| &&
    forall v, p :: 0 <= v < 256 && |Buckets(s, f, v)| <= p < |Buckets(s, f, v)| + |Sub(done, f, v)| && p < |s| ==>
      d[lo + p] == Buckets(s, f, 256)[p]
  }

  // Where the next element e goes.
  lemma PlaceOf(s: seq<Element>, f: Digit, done: seq<Element>, e: Element)
    requires done + [e] <= s && 0 <= f(e) < 256 && |Buckets(s, f, 256)| == |s|
    ensures var p := |Buckets(s, f, f(e))| + |Sub(done, f, f(e))|; p < |s| && Buckets(s, f, 256)[p] == e
  {
    hide Buckets, Sub;
    var v, r := f(e), s[|done| + 1..];
    assert s == done + [e] + r;
    SubConcat(done + [e], r, f, v);
    SubConcat(done, [e], f, v);
    SubOne(e, f, v);
    BucketsNext(s, f, v);
    BucketsPrefix(s, f, v + 1, 256);
    InBucket(Buckets(s, f, 256), Buckets(s, f, v), Sub(done, f, v), e, Sub(r, f, v));
  }

  lemma BucketsZero(s: seq<Element>, f: Digit)
    ensures Buckets(s, f, 0) == [] && forall v :: Sub([], f, v) == []
  {
  }

  lemma BucketsNext(s: seq<Element>, f: Digit, v: nat)
    ensures Buckets(s, f, v + 1) == Buckets(s, f, v) + Sub(s, f, v)
  {
  }

  lemma InBucket(all: seq<Element>, b: seq<Element>, d: seq<Element>, e: Element, r: seq<Element>)
    requires b + (d + [e] + r) <= all
    ensures |b| + |d| < |all| && all[|b| + |d|] == e
  {
    assert (b + (d + [e] + r))[|b| + |d|] == e;
  }

  lemma Fill(d: seq<Element>, lo: nat, s: seq<Element>, f: Digit, done: seq<Element>, e: Element, p: nat)
    requires Filled(d, lo, s, f, done) && done + [e] <= s && 0 <= f(e) < 256
    requires p == |Buckets(s, f, f(e))| + |Sub(done, f, f(e))|
    ensures p < |s| && Filled(d[lo + p := e], lo, s, f, done + [e])
  {
    hide Buckets, Sub;
    PlaceOf(s, f, done, e);
    var d', goal := d[lo + p := e], Buckets(s, f, 256);
    forall v, q | 0 <= v < 256 && |Buckets(s, f, v)| <= q < |Buckets(s, f, v)| + |Sub(done + [e], f, v)| && q < |s|
      ensures d'[lo + q] == goal[q]
    {
      SubConcat(done, [e], f, v);
      SubOne(e, f, v);
    }
  }

  // Every place belongs to a digit.
  lemma {:induction false} Owner(s: seq<Element>, f: Digit, p: nat, n: nat) returns (v: nat)
    requires p < |Buckets(s, f, n)|
    ensures v < n && |Buckets(s, f, v)| <= p < |Buckets(s, f, v)| + |Sub(s, f, v)|
  {
    if p < |Buckets(s, f, n - 1)| {
      v := Owner(s, f, p, n - 1);
    } else {
      v := n - 1;
    }
  }

  lemma AllFilled(d: seq<Element>, lo: nat, s: seq<Element>, f: Digit)
    requires Filled(d, lo, s, f, s)
    ensures d[lo..lo + |s|] == Buckets(s, f, 256)
  {
    hide Buckets, Sub;
    forall p | 0 <= p < |s|
      ensures d[lo + p] == Buckets(s, f, 256)[p]
    {
      var v := Owner(s, f, p, 256);
    }
  }

  // Count the occurrences of every byte value.
  method Count(offset: nat, source: array<Element>, lo: nat, hi: nat, count: array<int>)
    requires offset < 4 && lo <= hi <= source.Length
    requires count.Length == 256 && forall v :: 0 <= v < 256 ==> count[v] == 0
    modifies count
    ensures forall v :: 0 <= v < 256 ==> count[v] == |Sub(source[lo..hi], Byte(offset), v)|
  {
    var i := lo;
    while i < hi
      invariant lo <= i <= hi
      invariant forall v :: 0 <= v < 256 ==> count[v] == |Sub(source[lo..i], Byte(offset), v)|
    {
      assert source[lo..i + 1][..i - lo] == source[lo..i];
      var b := ByteAt(source[i].key, offset);
      count[b] := count[b] + 1;
      i := i + 1;
    }
  }

  // Turn counts into places.
  method SumUp(count: array<int>, ghost s: seq<Element>, ghost f: Digit)
    requires count.Length == 256 && forall v :: 0 <= v < 256 ==> count[v] == |Sub(s, f, v)|
    modifies count
    ensures Places(count[..], s, f, [])
  {
    hide Sub, Buckets;
    BucketsZero(s, f);
    var sum, i := 0, 0;
    while i < 256
      invariant 0 <= i <= 256 && sum == |Buckets(s, f, i)|
      invariant forall v :: 0 <= v < i ==> count[v] == |Buckets(s, f, v)|
      invariant forall v :: i <= v < 256 ==> count[v] == |Sub(s, f, v)|
    {
      var c := count[i];
      count[i] := sum;
      sum := sum + c;
      BucketsNext(s, f, i);
      i := i + 1;
    }
  }

  method Place(count: array<int>, dest: array<Element>, lo: nat, b: nat, e: Element, ghost s: seq<Element>,
      ghost f: Digit, ghost done: seq<Element>)
    requires Places(count[..], s, f, done) && Filled(dest[..], lo, s, f, done) && done + [e] <= s && f(e) == b < 256
    modifies count, dest
    ensures Places(count[..], s, f, done + [e]) && Filled(dest[..], lo, s, f, done + [e])
    ensures forall p :: 0 <= p < dest.Length && !(lo <= p < lo + |s|) ==> dest[p] == old(dest[p])
  {
    hide Buckets, Sub, Filled;
    assert count[b] == |Buckets(s, f, f(e))| + |Sub(done, f, f(e))|;
    ghost var before, p := dest[..], count[b];
    assert |dest[..]| >= lo + |s| by { FilledFits(dest[..], lo, s, f, done); }
    Fill(dest[..], lo, s, f, done, e, p);
    dest[lo + count[b]] := e;
    assert dest[..] == before[lo + p := e];
    count[b] := count[b] + 1;
    forall v | 0 <= v < 256
      ensures |Sub(done + [e], f, v)| == |Sub(done, f, v)| + if v == b then 1 else 0
    {
      SubConcat(done, [e], f, v);
      SubOne(e, f, v);
    }
  }

  lemma FilledFits(d: seq<Element>, lo: nat, s: seq<Element>, f: Digit, done: seq<Element>)
    requires Filled(d, lo, s, f, done)
    ensures lo + |s| <= |d|
  {
  }

  // A stable counting sort of source[lo..hi] by one byte into dest[lo..hi].
  method RadixSort(offset: nat, source: array<Element>, dest: array<Element>, lo: nat, hi: nat)
    requires offset < 4 && lo <= hi <= source.Length && hi <= dest.Length && source != dest
    modifies dest
    ensures StableSort(source[lo..hi], dest[lo..hi], Byte(offset))
    ensures forall p :: 0 <= p < dest.Length && !(lo <= p < hi) ==> dest[p] == old(dest[p])
  {
    hide Buckets, Sub, Filled, Places, StableSort;
    ghost var s, f := source[lo..hi], Byte(offset);
    var count := new int[256](_ => 0);
    Count(offset, source, lo, hi, count);
    SumUp(count, s, f);
    BucketsComplete(s, f, 256);
    NothingFilled(dest[..], lo, s, f);
    var i := lo;
    assert source[lo..i] == [];
    while i < hi
      invariant lo <= i <= hi && source[lo..hi] == s
      invariant Places(count[..], s, f, source[lo..i]) && Filled(dest[..], lo, s, f, source[lo..i])
      invariant forall p :: 0 <= p < dest.Length && !(lo <= p < hi) ==> dest[p] == old(dest[p])
    {
      assert source[lo..i + 1] == source[lo..i] + [source[i]];
      assert source[lo..i + 1] == s[..i + 1 - lo];
      Place(count, dest, lo, ByteAt(source[i].key, offset), source[i], s, f, source[lo..i]);
      i := i + 1;
    }
    AllFilled(dest[..], lo, s, f);
    assert dest[..][lo..hi] == dest[lo..hi];
    DistributionStable(s, f, 256);
  }

  lemma NothingFilled(d: seq<Element>, lo: nat, s: seq<Element>, f: Digit)
    requires lo + |s| <= |d| && |Buckets(s, f, 256)| == |s|
    ensures Filled(d, lo, s, f, [])
  {
  }

  // ----- the map -------------------------------------------------------------------------

  // The contents after adding e: behind all elements of smaller or equal keys.
  ghost function Slot(s: seq<Element>, k: uint32): (p: nat)
    ensures p <= |s| && (p > 0 ==> s[p - 1].key <= k) && forall i :: p <= i < |s| ==> s[i].key > k
  {
    if s == [] || s[|s| - 1].key <= k then |s| else Slot(s[..|s| - 1], k)
  }

  ghost function Inserted(s: seq<Element>, e: Element): seq<Element> {
    var p := Slot(s, e.key);
    s[..p] + [e] + s[p..]
  }

  ghost predicate Sorted(s: seq<Element>) {
    forall i, j :: 0 <= i < j < |s| ==> s[i].key <= s[j].key
  }

  // No live key is the greatest one, which deletion uses as its mark.
  ghost predicate Live(s: seq<Element>) {
    forall i :: 0 <= i < |s| ==> s[i].key < UINT32_MAX
  }

  // An element may pass others of different keys.
  lemma Pass(a: seq<Element>, e: Element, b: seq<Element>, v: int)
    requires forall x :: x in b ==> x.key != e.key
    ensures Sub(a + [e] + b, Key(), v) == Sub(a + b + [e], Key(), v)
  {
    hide Sub;
    SubConcat(a + [e], b, Key(), v);
    SubConcat(a, [e], Key(), v);
    SubConcat(a + b, [e], Key(), v);
    SubConcat(a, b, Key(), v);
    SubOne(e, Key(), v);
    SubMeaning(b, Key(), v);
    SomeElement(Sub(b, Key(), v));
    Exchange(Sub(a, Key(), v), Pick(e, Key(), v), Sub(b, Key(), v));
  }

  lemma Exchange(a: seq<Element>, p: seq<Element>, b: seq<Element>)
    requires p == [] || b == []
    ensures a + p + b == a + b + p
  {
  }

  // The one stable sort of a + [e] + b is x.
  lemma SortsTo(a: seq<Element>, e: Element, b: seq<Element>, x: seq<Element>, r: seq<Element>)
    requires (forall y :: y in b ==> y.key != e.key) && SortedBy(x, Key())
    requires (x == a + [e] + b && StableSort(a + b + [e], r, Key()))
      || (x == a + b + [e] && StableSort(a + [e] + b, r, Key()))
    ensures r == x
  {
    hide Sub, SortedBy;
    forall v
      ensures Sub(x, Key(), v) == Sub(r, Key(), v)
    {
      Pass(a, e, b, v);
    }
    Unique(x, r, Key());
  }

  lemma InsertedSorted(a: seq<Element>, e: Element, b: seq<Element>)
    requires Sorted(a + b) && (a == [] || a[|a| - 1].key <= e.key) && (b == [] || e.key < b[0].key)
    ensures SortedBy(a + [e] + b, Key()) && Sorted(a + [e] + b)
  {
    hide Sorted;
    SplitSorted(a, b);
    SingleSorted(e);
    JoinSorted(a, [e]);
    JoinSorted(a + [e], b);
    SortedByKey(a + [e] + b);
  }

  lemma SortedByKey(s: seq<Element>)
    ensures Sorted(s) <==> SortedBy(s, Key())
  {
  }

  lemma JoinSorted(a: seq<Element>, b: seq<Element>)
    requires Sorted(a) && Sorted(b) && (a == [] || b == [] || a[|a| - 1].key <= b[0].key)
    ensures Sorted(a + b)
  {
    forall i, j | 0 <= i < |a| && 0 <= j < |b|
      ensures a[i].key <= b[j].key
    {
      assert a[i].key <= a[|a| - 1].key && b[0].key <= b[j].key;
    }
  }

  lemma SplitSorted(a: seq<Element>, b: seq<Element>)
    requires Sorted(a + b)
    ensures Sorted(a) && Sorted(b)
  {
    forall i, j | 0 <= i < j < |b|
      ensures b[i].key <= b[j].key
    {
      assert (a + b)[|a| + i] == b[i] && (a + b)[|a| + j] == b[j];
    }
    forall i, j | 0 <= i < j < |a|
      ensures a[i].key <= a[j].key
    {
      assert (a + b)[i] == a[i] && (a + b)[j] == a[j];
    }
  }

  lemma SingleSorted(e: Element)
    ensures Sorted([e])
  {
  }

  // s, sorted, with a new last element: the stable sort moves it to its slot.
  lemma AddSorts(s: seq<Element>, e: Element, r: seq<Element>)
    requires Sorted(s) && StableSort(s + [e], r, Key())
    ensures r == Inserted(s, e)
  {
    hide StableSort, Sorted, SortedBy;
    var p := Slot(s, e.key);
    assert s == s[..p] + s[p..];
    InsertedSorted(s[..p], e, s[p..]);
    SortsTo(s[..p], e, s[p..], Inserted(s, e), r);
  }

  // Sorting from k on, at or before the slot, gives the same.
  lemma AddSuffix(s: seq<Element>, e: Element, r: seq<Element>, k: nat)
    requires Sorted(s) && k <= Slot(s, e.key) && k <= |r| && r[..k] == s[..k] && StableSort(s[k..] + [e], r[k..], Key())
    ensures r == Inserted(s, e)
  {
    hide StableSort, Sorted, Slot;
    SlotSuffix(s, e.key, k);
    var p, t := Slot(s, e.key), s[k..];
    AddSorts(t, e, r[k..]);
    Rejoin(s, [e], r, k, p);
  }

  lemma Rejoin(s: seq<Element>, e: seq<Element>, r: seq<Element>, k: nat, p: nat)
    requires k <= p <= |s| && k <= |r| && r[..k] == s[..k] && r[k..] == s[k..][..p - k] + e + s[k..][p - k..]
    ensures r == s[..p] + e + s[p..]
  {
    assert s[k..][p - k..] == s[p..] && s[..p] == s[..k] + s[k..][..p - k];
    assert r == r[..k] + r[k..];
  }

  lemma SlotSuffix(s: seq<Element>, k: uint32, n: nat)
    requires Sorted(s) && n <= Slot(s, k)
    ensures Sorted(s[n..]) && Slot(s[n..], k) == Slot(s, k) - n
  {
    SlotUnique(s[n..], k, Slot(s, k) - n);
  }

  lemma InsertedLive(s: seq<Element>, e: Element)
    requires Sorted(s) && Live(s) && e.key < UINT32_MAX
    ensures Sorted(Inserted(s, e)) && Live(Inserted(s, e)) && multiset(Inserted(s, e)) == multiset(s) + multiset{e}
  {
    hide Live, Sorted;
    var p := Slot(s, e.key);
    assert s == s[..p] + s[p..];
    InsertedSorted(s[..p], e, s[p..]);
    OneMore(s[..p], e, s[p..]);
  }

  lemma OneMore(a: seq<Element>, e: Element, b: seq<Element>)
    requires Live(a + b) && e.key < UINT32_MAX
    ensures Live(a + [e] + b) && multiset(a + [e] + b) == multiset(a + b) + multiset{e}
  {
    forall i | 0 <= i < |a + [e] + b|
      ensures (a + [e] + b)[i].key < UINT32_MAX
    {
      if i != |a| { assert (a + [e] + b)[i] == (a + b)[if i < |a| then i else i - 1]; }
    }
  }

  lemma RemovedLive(s: seq<Element>, i: nat)
    requires Sorted(s) && Live(s) && i < |s|
    ensures Sorted(s[..i] + s[i + 1..]) && Live(s[..i] + s[i + 1..])
  {
  }

  lemma OneLess(s: seq<Element>, i: nat)
    requires i < |s|
    ensures multiset(s) == multiset(s[..i] + s[i + 1..]) + multiset{s[i]}
  {
    assert s == s[..i] + [s[i]] + s[i + 1..];
  }

  lemma SlotUnique(s: seq<Element>, k: uint32, p: nat)
    requires Sorted(s) && p <= |s| && (p == 0 || s[p - 1].key <= k) && (p == |s| || s[p].key > k)
    ensures p == Slot(s, k)
  {
  }

  // The element at i got the greatest key of all: the stable sort moves it to the end.
  lemma DeleteSorts(s: seq<Element>, i: nat, e: Element, r: seq<Element>)
    requires i < |s| && Sorted(s) && (forall j :: 0 <= j < |s| ==> s[j].key < e.key) && StableSort(s[i := e], r, Key())
    ensures r == s[..i] + s[i + 1..] + [e]
  {
    hide StableSort;
    var a, b := s[..i], s[i + 1..];
    assert s[i := e] == a + [e] + b;
    SortsTo(a, e, b, a + b + [e], r);
  }

  // The contents after adding es one by one.
  ghost function Adds(es: seq<Element>): seq<Element> {
    if es == [] then [] else Inserted(Adds(es[..|es| - 1]), es[|es| - 1])
  }

  // A run of adds leaves the stable sort of what was added: ordered by key, elements of
  // equal keys in the order they came.
  lemma {:induction false} AddsSort(es: seq<Element>)
    requires Live(es)
    ensures StableSort(es, Adds(es), Key()) && Sorted(Adds(es)) && Live(Adds(es))
  {
    hide Sub, Inserted, Sorted, Slot;
    if es == [] {
      SortedByKey(es);
    } else {
      var init, e := es[..|es| - 1], es[|es| - 1];
      var s := Adds(init);
      assert es == init + [e];
      AddsSort(init);
      InsertedLive(s, e);
      SortedByKey(Adds(es));
      forall v
        ensures Sub(Adds(es), Key(), v) == Sub(es, Key(), v)
      {
        InsertedSub(s, e, v);
        SubNext(init, e, Key(), v);
      }
    }
  }

  lemma InsertedSub(s: seq<Element>, e: Element, v: int)
    ensures Sub(Inserted(s, e), Key(), v) == Sub(s, Key(), v) + Pick(e, Key(), v)
  {
    hide Sub;
    var p := Slot(s, e.key);
    assert s == s[..p] + s[p..];
    Pass(s[..p], e, s[p..], v);
    SubNext(s, e, Key(), v);
  }

  // A run of adds and of deletes by place.
  datatype Op = Put(e: Element) | Cut(i: nat)

  // The contents after a run; adds of the reserved key and deletes of nothing are refused.
  ghost function Run(ops: seq<Op>): seq<Element> {
    if ops == [] then []
    else
      var s := Run(ops[..|ops| - 1]);
      match ops[|ops| - 1]
      case Put(e) => if e.key < UINT32_MAX then Inserted(s, e) else s
      case Cut(i) => if i < |s| then s[..i] + s[i + 1..] else s
  }

  // What was added and not yet taken out, whatever its order.
  ghost function Ledger(ops: seq<Op>): multiset<Element> {
    if ops == [] then multiset{}
    else
      var before := ops[..|ops| - 1];
      match ops[|ops| - 1]
      case Put(e) => if e.key < UINT32_MAX then Ledger(before) + multiset{e} else Ledger(before)
      case Cut(i) => if i < |Run(before)| then Ledger(before) - multiset{Run(before)[i]} else Ledger(before)
  }

  // Over every run the map is sorted, holds no reserved key, and balances its ledger.
  lemma {:induction false} RunBalances(ops: seq<Op>)
    ensures Sorted(Run(ops)) && Live(Run(ops)) && multiset(Run(ops)) == Ledger(ops)
  {
    hide Sorted, Live, Inserted;
    if ops == [] {
      NothingLive();
    } else {
      var s := Run(ops[..|ops| - 1]);
      RunBalances(ops[..|ops| - 1]);
      match ops[|ops| - 1]
      case Put(e) => if e.key < UINT32_MAX { InsertedLive(s, e); }
      case Cut(i) =>
        if i < |s| {
          RemovedLive(s, i);
          OneLess(s, i);
        }
    }
  }

  lemma NothingLive()
    ensures Sorted([]) && Live([])
  {
  }

  class Map {
    const contents: array<Element>
    const temp: array<Element>
    var end: nat

    // Indices are C ints, and add sums two of them.
    ghost predicate Valid()
      reads this, contents, temp
    {
      && contents != temp && contents.Length == temp.Length <= 0x4000_0000 && end <= contents.Length
      && Sorted(contents[..end]) && Live(contents[..end])
    }

    ghost function Contents(): seq<Element>
      reads this, contents
      requires end <= contents.Length
    {
      contents[..end]
    }

    constructor (max: nat)
      requires max <= 0x4000_0000
      ensures Valid() && Contents() == [] && contents.Length == max && fresh(contents) && fresh(temp)
    {
      contents := new Element[max](_ => Element(0, 0));
      temp := new Element[max](_ => Element(0, 0));
      end := 0;
    }

    // Four passes between the two arrays sort the elements from start on.
    method Sort(start: nat)
      requires contents != temp && contents.Length == temp.Length && start <= end <= contents.Length
      modifies contents, temp
      ensures StableSort(old(contents[start..end]), contents[start..end], Key())
      ensures contents[..start] == old(contents[..start])
    {
      hide StableSort, Splits, Byte;
      ghost var s := contents[start..end];
      RadixSort(0, contents, temp, start, end);
      ghost var a := temp[start..end];
      RadixSort(1, temp, contents, start, end);
      ghost var b := contents[start..end];
      LowSplits(0);
      NextDigit(s, a, b, Low(1), Byte(1), Low(0));
      RadixSort(2, contents, temp, start, end);
      ghost var c := temp[start..end];
      LowSplits(1);
      NextDigit(s, b, c, Low(2), Byte(2), Low(1));
      RadixSort(3, temp, contents, start, end);
      LowSplits(2);
      NextDigit(s, c, contents[start..end], Low(3), Byte(3), Low(2));
    }

    // Binary search: an element with the key, if there is one.
    method Find(key: uint32) returns (found: int)
      requires Valid()
      ensures found == -1 || 0 <= found < end
      ensures if found == -1 then forall i :: 0 <= i < end ==> contents[i].key != key else contents[found].key == key
    {
      var low, high := 0, end as int - 1;
      while low <= high
        invariant 0 <= low <= end && -1 <= high < end
        invariant forall i :: 0 <= i < low ==> contents[..end][i].key < key
        invariant forall i :: high < i < end ==> contents[..end][i].key > key
      {
        var middle := low + (high - low) / 2;
        var k := contents[middle].key;
        assert contents[..end][middle].key == k;
        if key < k {
          high := middle - 1;
        } else if key > k {
          low := middle + 1;
        } else {
          return middle;
        }
      }
      return -1;
    }

    // Where add starts to sort: no later than the slot of the new key, all in front
    // being no greater.
    method SortKey(key: uint32, n: nat) returns (sortkey: nat)
      requires n < contents.Length && Sorted(contents[..n])
      ensures sortkey <= Slot(contents[..n], key)
    {
      ghost var s := contents[..n];
      var begin, stop := 0, n;
      sortkey := 0;
      while begin < stop - 1
        invariant begin <= stop <= n && (begin == stop ==> n == 0)
        invariant begin == 0 || s[begin].key < key
        invariant sortkey == 0 || sortkey == stop - 1
        decreases stop - begin
      {
        var middle := (begin + stop) / 2;
        var midkey := contents[middle].key;
        assert midkey == s[middle].key;
        if key > midkey {
          begin := middle;
        } else if key < midkey {
          stop := middle;
        } else {
          sortkey := middle;
          break;
        }
        sortkey := stop - 1;
      }
    }

    method Add(key: uint32, value: uint32) returns (rc: int)
      requires Valid() && (key < UINT32_MAX ==> end < contents.Length)
      modifies this, contents, temp
      ensures Valid() && rc == if key == UINT32_MAX then -1 else 0
      ensures var s := old(Contents());
        if rc == -1 then Contents() == s
        else Contents() == Inserted(s, Element(key, value))
    {
      hide Sorted, Live, Inserted, StableSort, Slot;
      if !(key < UINT32_MAX) {
        return -1;
      }
      ghost var s, e := Contents(), Element(key, value);
      contents[end] := Element(key, value);
      end := end + 1;
      ghost var before := contents[..end];
      assert before == s + [e];
      var sortkey := SortKey(key, end - 1);
      Sort(sortkey);
      assert before[sortkey..] == s[sortkey..] + [e] && contents[..end][sortkey..] == contents[sortkey..end];
      assert before[..sortkey] == s[..sortkey] && contents[..end][..sortkey] == contents[..sortkey];
      AddSuffix(s, e, contents[..end], sortkey);
      InsertedLive(s, e);
      return 0;
    }

    // Mark the element, sort it to the end, shrink. A null element is refused.
    method Delete(el: int) returns (rc: int)
      requires Valid() && -1 <= el < end
      modifies this, contents, temp
      ensures Valid() && rc == if el == -1 then -1 else 0
      ensures Contents() == if el == -1 then old(Contents()) else old(Contents()[..el] + Contents()[el + 1..])
    {
      hide Sorted, StableSort;
      if !(end > 0) || el == -1 {
        return -1;
      }
      ghost var s, e := Contents(), Element(UINT32_MAX, contents[el].value);
      contents[el] := Element(UINT32_MAX, contents[el].value);
      assert contents[..end] == s[el := e];
      if end > 1 {
        Sort(0);
        assert contents[0..end] == contents[..end];
        DeleteSorts(s, el, e, contents[..end]);
      }
      RemovedLive(s, el);
      assert contents[..end - 1] == contents[..end][..end - 1] == s[..el] + s[el + 1..];
      end := end - 1;
      return 0;
    }
  }
}
