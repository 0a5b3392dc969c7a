// Stable sorting by digits, on sequences: what one pass of the radix sort produces,
// and why passes from the least significant digit upwards sort by the whole key.
module Radix {
  import opened Wrappers

  const UINT32_MAX: uint32 := 0xFFFF_FFFF

  datatype Element = Element(key: uint32, value: uint32)

  type Digit = Element -> int

  // The elements of s whose digit is v, in order.
  ghost function Sub(s: seq<Element>, f: Digit, v: int): seq<Element> {
    if s == [] then []
    else Sub(s[..|s| - 1], f, v) + Pick(s[|s| - 1], f, v)
  }

  ghost function Pick(e: Element, f: Digit, v: int): seq<Element> {
    if f(e) == v then [e] else []
  }

  ghost predicate SortedBy(s: seq<Element>, f: Digit) {
    forall i, j :: 0 <= i < j < |s| ==> f(s[i]) <= f(s[j])
  }

  // r is s sorted by f, elements of equal digits in their old order.
  ghost predicate StableSort(s: seq<Element>, r: seq<Element>, f: Digit) {
    SortedBy(r, f) && SameSubs(r, s, f)
  }

  ghost predicate SameSubs(s: seq<Element>, r: seq<Element>, f: Digit) {
    forall v :: Sub(s, f, v) == Sub(r, f, v)
  }

  lemma SubNext(s: seq<Element>, e: Element, f: Digit, v: int)
    ensures Sub(s + [e], f, v) == Sub(s, f, v) + Pick(e, f, v)
  {
    assert (s + [e])[..|s + [e]| - 1] == s;
  }

  lemma {:induction false} SubConcat(s: seq<Element>, t: seq<Element>, f: Digit, v: int)
    ensures Sub(s + t, f, v) == Sub(s, f, v) + Sub(t, f, v)
  {
    hide Sub;
    if t == [] {
      SubNothing(f, v);
      assert s + t == s;
    } else {
      var u, e := t[..|t| - 1], t[|t| - 1];
      SubConcat(s, u, f, v);
      SubNext(s + u, e, f, v);
      SubNext(u, e, f, v);
      assert s + t == s + u + [e] && t == u + [e];
    }
  }

  lemma {:induction false} SubMeaning(s: seq<Element>, f: Digit, v: int)
    ensures forall e :: e in Sub(s, f, v) <==> e in s && f(e) == v
    ensures |Sub(s, f, v)| <= |s|
  {
    if s != [] {
      SubMeaning(s[..|s| - 1], f, v);
      assert s == s[..|s| - 1] + [s[|s| - 1]];
    }
  }

  lemma SubOne(e: Element, f: Digit, v: int)
    ensures Sub([e], f, v) == Pick(e, f, v)
  {
    assert [e][..0] == [];
  }

  lemma SubNothing(f: Digit, v: int)
    ensures Sub([], f, v) == []
  {
  }

  lemma SubPick(e: Element, f: Digit, v: int, g: Digit, w: int)
    ensures Sub(Pick(e, f, v), g, w) == if f(e) == v && g(e) == w then [e] else []
  {
    SubOne(e, g, w);
  }

  lemma SomeElement(s: seq<Element>)
    ensures s == [] || s[0] in s
  {
  }

  // ----- the result of one pass ------------------------------------------------------

  // The elements of digits below n, bucket after bucket.
  ghost function Buckets(s: seq<Element>, f: Digit, n: nat): seq<Element> {
    if n == 0 then [] else Buckets(s, f, n - 1) + Sub(s, f, n - 1)
  }

  lemma {:induction false} BucketsPrefix(s: seq<Element>, f: Digit, m: nat, n: nat)
    requires m <= n
    ensures |Buckets(s, f, m)| <= |Buckets(s, f, n)| && Buckets(s, f, n)[..|Buckets(s, f, m)|] == Buckets(s, f, m)
    decreases n
  {
    if m < n {
      BucketsPrefix(s, f, m, n - 1);
    }
  }

  lemma {:induction false} BucketsGrow(s: seq<Element>, e: Element, f: Digit, n: nat)
    requires f(e) >= 0
    ensures |Buckets(s + [e], f, n)| == |Buckets(s, f, n)| + if f(e) < n then 1 else 0
  {
    if n > 0 {
      BucketsGrow(s, e, f, n - 1);
      SubConcat(s, [e], f, n - 1);
      SubOne(e, f, n - 1);
    }
  }

  lemma {:induction false} BucketsComplete(s: seq<Element>, f: Digit, n: nat)
    requires forall e :: e in s ==> 0 <= f(e) < n
    ensures |Buckets(s, f, n)| == |s|
  {
    if s == [] {
      NoBuckets(f, n);
    } else {
      var t, e := s[..|s| - 1], s[|s| - 1];
      assert s == t + [e];
      BucketsComplete(t, f, n);
      BucketsGrow(t, e, f, n);
    }
  }

  lemma {:induction false} NoBuckets(f: Digit, n: nat)
    ensures Buckets([], f, n) == []
  {
    if n > 0 { NoBuckets(f, n - 1); }
  }

  ghost predicate Below(s: seq<Element>, f: Digit, n: nat) {
    SortedBy(s, f) && forall e :: e in s ==> 0 <= f(e) < n
  }

  // The buckets of digits below n have the elements of s and are sorted.
  lemma {:induction false} BucketsSorted(s: seq<Element>, f: Digit, n: nat)
    ensures Below(Buckets(s, f, n), f, n)
  {
    hide Sub, Below;
    if n == 0 {
      NothingBelow(f);
    } else {
      BucketsSorted(s, f, n - 1);
      SubMeaning(s, f, n - 1);
      Joined(Buckets(s, f, n - 1), Sub(s, f, n - 1), f, n - 1);
    }
  }

  lemma NothingBelow(f: Digit)
    ensures Below([], f, 0)
  {
  }

  lemma Joined(b: seq<Element>, t: seq<Element>, f: Digit, n: nat)
    requires Below(b, f, n) && forall e :: e in t ==> f(e) == n
    ensures Below(b + t, f, n + 1)
  {
    forall i, j | 0 <= i < j < |b + t|
      ensures f((b + t)[i]) <= f((b + t)[j])
    {
      if j >= |b| {
        assert t[j - |b|] in t;
        assert (b + t)[i] in b || (b + t)[i] in t;
      }
    }
  }

  lemma {:induction false} BucketsSubs(s: seq<Element>, f: Digit, n: nat, v: int)
    ensures Sub(Buckets(s, f, n), f, v) == if 0 <= v < n then Sub(s, f, v) else []
  {
    hide Sub;
    if n == 0 {
      SubNothing(f, v);
    } else {
      BucketsSubs(s, f, n - 1, v);
      SubConcat(Buckets(s, f, n - 1), Sub(s, f, n - 1), f, v);
      SubSub(s, f, n - 1, v);
    }
  }

  lemma {:induction false} SubSub(s: seq<Element>, f: Digit, v: int, w: int)
    ensures Sub(Sub(s, f, v), f, w) == if v == w then Sub(s, f, v) else []
  {
    if s != [] {
      var e := s[|s| - 1];
      SubSub(s[..|s| - 1], f, v, w);
      SubConcat(Sub(s[..|s| - 1], f, v), Pick(e, f, v), f, w);
      SubPick(e, f, v, f, w);
    }
  }

  lemma DistributionStable(s: seq<Element>, f: Digit, n: nat)
    requires forall e :: e in s ==> 0 <= f(e) < n
    ensures StableSort(s, Buckets(s, f, n), f)
  {
    BucketsSorted(s, f, n);
    forall v
      ensures Sub(Buckets(s, f, n), f, v) == Sub(s, f, v)
    {
      BucketsSubs(s, f, n, v);
      SubMeaning(s, f, v);
      SomeElement(Sub(s, f, v));
    }
  }

  // ----- least significant digit first -------------------------------------------------

  // Selecting by f and by g in either order.
  lemma {:induction false} SubCommute(s: seq<Element>, f: Digit, x: int, g: Digit, y: int)
    ensures Sub(Sub(s, f, x), g, y) == Sub(Sub(s, g, y), f, x)
  {
    if s != [] {
      var t, e := s[..|s| - 1], s[|s| - 1];
      SubCommute(t, f, x, g, y);
      SubConcat(Sub(t, f, x), Pick(e, f, x), g, y);
      SubConcat(Sub(t, g, y), Pick(e, g, y), f, x);
      SubPick(e, f, x, g, y);
      SubPick(e, g, y, f, x);
    }
  }

  // h is the number with the digit f in front of the digits g: it determines both and is
  // ordered by f first.
  ghost predicate Splits(h: Digit, f: Digit, g: Digit) {
    && (forall e, e' :: h(e) == h(e') <==> f(e) == f(e') && g(e) == g(e'))
    && (forall e, e' :: f(e) <= f(e') && (f(e) == f(e') ==> g(e) <= g(e')) ==> h(e) <= h(e'))
  }

  lemma {:induction false} SubBoth(s: seq<Element>, h: Digit, f: Digit, g: Digit, e: Element)
    requires Splits(h, f, g)
    ensures Sub(s, h, h(e)) == Sub(Sub(s, f, f(e)), g, g(e))
  {
    if s != [] {
      var t, l := s[..|s| - 1], s[|s| - 1];
      SubBoth(t, h, f, g, e);
      SubConcat(Sub(t, f, f(e)), Pick(l, f, f(e)), g, g(e));
      SubPick(l, f, f(e), g, g(e));
    }
  }

  lemma {:induction false} SubSorted(s: seq<Element>, f: Digit, x: int, g: Digit)
    requires SortedBy(s, g)
    ensures SortedBy(Sub(s, f, x), g)
  {
    if s != [] {
      SubSorted(s[..|s| - 1], f, x, g);
      SubMeaning(s[..|s| - 1], f, x);
      var u := Sub(s[..|s| - 1], f, x);
      forall i | 0 <= i < |u|
        ensures g(u[i]) <= g(s[|s| - 1])
      {
        assert u[i] in s[..|s| - 1];
      }
    }
  }

  // Two elements of equal digits keep their order in Sub.
  lemma SubOrder(s: seq<Element>, f: Digit, i: nat, j: nat, g: Digit)
    requires i < j < |s| && f(s[i]) == f(s[j]) && SortedBy(Sub(s, f, f(s[i])), g)
    ensures g(s[i]) <= g(s[j])
  {
    hide Sub;
    var x, l, r := f(s[i]), s[..i], s[i + 1..];
    assert s == l + [s[i]] + r;
    SubConcat(l + [s[i]], r, f, x);
    SubConcat(l, [s[i]], f, x);
    SubOne(s[i], f, x);
    SubMeaning(r, f, x);
    assert r[j - i - 1] == s[j];
    InOrder(Sub(l, f, x), s[i], Sub(r, f, x), s[j], g);
  }

  lemma InOrder(l: seq<Element>, a: Element, r: seq<Element>, b: Element, g: Digit)
    requires SortedBy(l + [a] + r, g) && b in r
    ensures g(a) <= g(b)
  {
    var k :| 0 <= k < |r| && r[k] == b;
    assert (l + [a] + r)[|l|] == a && (l + [a] + r)[|l| + 1 + k] == b;
  }

  // A stable sort by the next digit f of what is sorted by the lower digits g is sorted
  // by both together.
  lemma NextDigit(s: seq<Element>, a: seq<Element>, b: seq<Element>, h: Digit, f: Digit, g: Digit)
    requires Splits(h, f, g) && StableSort(s, a, g) && StableSort(a, b, f)
    ensures StableSort(s, b, h)
  {
    forall i, j | 0 <= i < j < |b|
      ensures h(b[i]) <= h(b[j])
    {
      if f(b[i]) == f(b[j]) {
        SubSorted(a, f, f(b[i]), g);
        SubOrder(b, f, i, j, g);
      }
    }
    forall v
      ensures Sub(b, h, v) == Sub(s, h, v)
    {
      if e: Element :| h(e) == v {
        SubBoth(b, h, f, g, e);
        SubBoth(s, h, f, g, e);
        SubCommute(a, f, f(e), g, g(e));
        SubCommute(s, f, f(e), g, g(e));
      } else {
        NoSub(b, h, v);
        NoSub(s, h, v);
      }
    }
  }

  lemma NoSub(s: seq<Element>, h: Digit, v: int)
    requires forall e :: h(e) != v
    ensures Sub(s, h, v) == []
  {
    SubMeaning(s, h, v);
    SomeElement(Sub(s, h, v));
  }

  // ----- there is one stable sort --------------------------------------------------------

  lemma {:induction false} Unique(a: seq<Element>, b: seq<Element>, f: Digit)
    requires SortedBy(a, f) && SortedBy(b, f) && SameSubs(a, b, f)
    ensures a == b
  {
    hide SortedBy, SameSubs;
    if a == [] {
      if b != [] {
        SameSubsBoth(a, b, f);
        InOther(b, a, b[|b| - 1], f);
      }
    } else if b == [] {
      InOther(a, b, a[|a| - 1], f);
    } else {
      var a', b', x, y := a[..|a| - 1], b[..|b| - 1], a[|a| - 1], b[|b| - 1];
      assert a == a' + [x] && b == b' + [y];
      LastDigit(a, b, f);
      SameLast(a', x, b', y, f);
      Peel(a', b', x, f);
      InitSorted(a', x, f);
      InitSorted(b', y, f);
      Unique(a', b', f);
    }
  }

  lemma InitSorted(s: seq<Element>, x: Element, f: Digit)
    requires SortedBy(s + [x], f)
    ensures SortedBy(s, f)
  {
    forall i, j | 0 <= i < j < |s|
      ensures f(s[i]) <= f(s[j])
    {
      assert (s + [x])[i] == s[i] && (s + [x])[j] == s[j];
    }
  }

  lemma SameLast(a: seq<Element>, x: Element, b: seq<Element>, y: Element, f: Digit)
    requires f(x) == f(y) && SameSubs(a + [x], b + [y], f)
    ensures x == y
  {
    hide Sub;
    SubConcat(a, [x], f, f(x));
    SubConcat(b, [y], f, f(x));
    SubOne(x, f, f(x));
    SubOne(y, f, f(x));
    SameInit(Sub(a, f, f(x)), [x], Sub(b, f, f(x)), [y]);
  }

  // Without their common last element the sequences still agree digit by digit.
  lemma Peel(a: seq<Element>, b: seq<Element>, x: Element, f: Digit)
    requires SameSubs(a + [x], b + [x], f)
    ensures SameSubs(a, b, f)
  {
    hide Sub;
    forall v
      ensures Sub(a, f, v) == Sub(b, f, v)
    {
      SubConcat(a, [x], f, v);
      SubConcat(b, [x], f, v);
      SubOne(x, f, v);
      SameInit(Sub(a, f, v), Pick(x, f, v), Sub(b, f, v), Pick(x, f, v));
    }
  }

  lemma SameInit(a: seq<Element>, s: seq<Element>, b: seq<Element>, t: seq<Element>)
    requires a + s == b + t && |s| == |t|
    ensures a == b && s == t
  {
    assert a == (a + s)[..|a|] && b == (b + t)[..|b|] && s == (a + s)[|a|..] && t == (b + t)[|b|..];
  }

  lemma InOther(a: seq<Element>, b: seq<Element>, e: Element, f: Digit)
    requires e in a && SameSubs(a, b, f)
    ensures e in b
  {
    hide Sub;
    SubMeaning(a, f, f(e));
    SubMeaning(b, f, f(e));
  }

  lemma LastDigit(a: seq<Element>, b: seq<Element>, f: Digit)
    requires a != [] && b != [] && SortedBy(a, f) && SortedBy(b, f) && SameSubs(a, b, f)
    ensures f(a[|a| - 1]) == f(b[|b| - 1])
  {
    hide SortedBy, SameSubs;
    SameSubsBoth(a, b, f);
    InOther(a, b, a[|a| - 1], f);
    InOther(b, a, b[|b| - 1], f);
    LastIsTop(a, b[|b| - 1], f);
    LastIsTop(b, a[|a| - 1], f);
  }

  lemma SameSubsBoth(a: seq<Element>, b: seq<Element>, f: Digit)
    requires SameSubs(a, b, f)
    ensures SameSubs(b, a, f)
  {
  }

  lemma LastIsTop(s: seq<Element>, e: Element, f: Digit)
    requires e in s && SortedBy(s, f)
    ensures f(e) <= f(s[|s| - 1])
  {
  }

  // A stable sort is a permutation.
  lemma {:induction false} StableIsPermutation(s: seq<Element>, r: seq<Element>, f: Digit)
    requires SameSubs(s, r, f)
    ensures multiset(s) == multiset(r)
  {
    forall e: Element
      ensures multiset(s)[e] == multiset(r)[e]
    {
      SubCount(s, f, e);
      SubCount(r, f, e);
    }
  }

  lemma {:induction false} SubCount(s: seq<Element>, f: Digit, e: Element)
    ensures multiset(Sub(s, f, f(e)))[e] == multiset(s)[e]
  {
    if s != [] {
      var t, x := s[..|s| - 1], s[|s| - 1];
      SubCount(t, f, e);
      assert s == t + [x];
      CountNext(t, [x], e);
      CountNext(Sub(t, f, f(e)), Pick(x, f, f(e)), e);
    }
  }

  lemma CountNext(s: seq<Element>, t: seq<Element>, e: Element)
    ensures multiset(s + t)[e] == multiset(s)[e] + multiset(t)[e]
  {
  }
}
