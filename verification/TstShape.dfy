// The ternary search tree as a value, and what it stores.
module TstShape {
  import opened Wrappers

  // Split characters compare as signed chars.
  type Char = x: int | -128 <= x < 128
  type Key = seq<Char>
  type Value(==, !new)

  datatype Tst = Leaf | Node(c: Char, value: Option<Value>, low: Tst, equal: Tst, high: Tst)

  function Insert(t: Tst, k: Key, v: Value): (r: Tst)
    requires k != []
    ensures r.Node?
    decreases |k|, t
  {
    if t.Leaf? then
      if |k| > 1 then Node(k[0], None, Leaf, Insert(Leaf, k[1..], v), Leaf) else Node(k[0], Some(v), Leaf, Leaf, Leaf)
    else if k[0] < t.c then t.(low := Insert(t.low, k, v))
    else if k[0] > t.c then t.(high := Insert(t.high, k, v))
    else if |k| > 1 then t.(equal := Insert(t.equal, k[1..], v))
    else if t.value.None? then t.(value := Some(v))
    else t
  }

  function Lookup(t: Tst, k: Key): Option<Value>
    requires k != []
    decreases |k|, t
  {
    if t.Leaf? then None
    else if k[0] < t.c then Lookup(t.low, k)
    else if k[0] > t.c then Lookup(t.high, k)
    else if |k| > 1 then Lookup(t.equal, k[1..])
    else t.value
  }

  // An insert adds its key if that is new, and changes the lookup of no other key.
  lemma {:induction false} InsertLookup(t: Tst, k: Key, v: Value, j: Key)
    requires k != [] && j != []
    ensures Lookup(Insert(t, k, v), j) == if j == k && Lookup(t, k).None? then Some(v) else Lookup(t, j)
    decreases |k|, t
  {
    if t.Leaf? {
      if |k| > 1 && |j| > 1 {
        InsertLookup(Leaf, k[1..], v, j[1..]);
        HeadTail(j, k);
      }
    } else if k[0] < t.c {
      InsertLookup(t.low, k, v, j);
    } else if k[0] > t.c {
      InsertLookup(t.high, k, v, j);
    } else if |k| > 1 && |j| > 1 {
      InsertLookup(t.equal, k[1..], v, j[1..]);
      HeadTail(j, k);
    }
  }

  lemma HeadTail(j: Key, k: Key)
    requires j != [] && k != []
    ensures j == k <==> j[0] == k[0] && j[1..] == k[1..]
  {
    assert j == [j[0]] + j[1..] && k == [k[0]] + k[1..];
  }

  // ----- what insertion keeps ----------------------------------------------------------

  // A node without a value has a child in the middle, so below every node is a value.
  ghost predicate Fruitful(t: Tst) {
    t.Node? ==> (t.value.None? ==> t.equal.Node?) && Fruitful(t.low) && Fruitful(t.equal) && Fruitful(t.high)
  }

  // First characters lie strictly between lo and hi, in search order.
  ghost predicate Bounded(t: Tst, lo: int, hi: int) {
    t.Node? ==> lo < t.c < hi && Bounded(t.low, lo, t.c) && Bounded(t.high, t.c, hi) && Bounded(t.equal, -129, 128)
  }

  lemma {:induction false} InsertFruitful(t: Tst, k: Key, v: Value)
    requires k != [] && Fruitful(t)
    ensures Fruitful(Insert(t, k, v))
    decreases |k|, t
  {
    if t.Leaf? {
      if |k| > 1 { InsertFruitful(Leaf, k[1..], v); }
    } else if k[0] < t.c {
      InsertFruitful(t.low, k, v);
    } else if k[0] > t.c {
      InsertFruitful(t.high, k, v);
    } else if |k| > 1 {
      InsertFruitful(t.equal, k[1..], v);
    }
  }

  lemma {:induction false} InsertBounded(t: Tst, k: Key, v: Value, lo: int, hi: int)
    requires k != [] && Bounded(t, lo, hi) && lo < k[0] < hi
    ensures Bounded(Insert(t, k, v), lo, hi)
    decreases |k|, t
  {
    if t.Leaf? {
      if |k| > 1 { InsertBounded(Leaf, k[1..], v, -129, 128); }
    } else if k[0] < t.c {
      InsertBounded(t.low, k, v, lo, t.c);
    } else if k[0] > t.c {
      InsertBounded(t.high, k, v, t.c, hi);
    } else if |k| > 1 {
      InsertBounded(t.equal, k[1..], v, -129, 128);
    }
  }

  // ----- runs ----------------------------------------------------------------------------

  datatype Put = Put(key: Key, value: Value)

  ghost predicate Keyed(puts: seq<Put>) {
    forall i :: 0 <= i < |puts| ==> puts[i].key != []
  }

  ghost function Build(puts: seq<Put>): Tst
    requires Keyed(puts)
  {
    if puts == [] then Leaf
    else Insert(Build(puts[..|puts| - 1]), puts[|puts| - 1].key, puts[|puts| - 1].value)
  }

  // The finite map in which the first write to a key wins.
  ghost function FirstWrites(puts: seq<Put>): map<Key, Value> {
    if puts == [] then map[]
    else
      var m, p := FirstWrites(puts[..|puts| - 1]), puts[|puts| - 1];
      if p.key in m then m else m[p.key := p.value]
  }

  // Over every run of inserts the tree is that map.
  lemma {:induction false} BuildIsMap(puts: seq<Put>, j: Key)
    requires Keyed(puts) && j != []
    ensures Fruitful(Build(puts)) && Bounded(Build(puts), -129, 128)
    ensures var m := FirstWrites(puts); Lookup(Build(puts), j) == if j in m then Some(m[j]) else None
  {
    if puts != [] {
      var before, p := puts[..|puts| - 1], puts[|puts| - 1];
      BuildIsMap(before, j);
      BuildIsMap(before, p.key);
      InsertLookup(Build(before), p.key, p.value, j);
      InsertFruitful(Build(before), p.key, p.value);
      InsertBounded(Build(before), p.key, p.value, -129, 128);
    }
  }

  // ----- walking down ----------------------------------------------------------------------

  // Keys that continue w with the character c are looked up in u as they are in t.
  ghost predicate Under(t: Tst, w: Key, u: Tst, c: Char) {
    forall j: Key :: j != [] && j[0] == c ==> Lookup(t, w + j) == Lookup(u, j)
  }

  lemma UnderEqual(t: Tst, w: Key, u: Tst, c: Char)
    requires u.Node? && Under(t, w, u, u.c)
    ensures Under(t, w + [u.c], u.equal, c) && Lookup(t, w + [u.c]) == u.value
  {
    forall j: Key | j != [] && j[0] == c
      ensures Lookup(t, w + [u.c] + j) == Lookup(u.equal, j)
    {
      assert w + [u.c] + j == w + ([u.c] + j);
      assert ([u.c] + j)[1..] == j;
    }
    assert Lookup(t, w + [u.c]) == Lookup(u, [u.c]);
  }

  lemma UnderSide(t: Tst, w: Key, u: Tst, c: Char)
    requires Under(t, w, u, c) && u.Node? && c != u.c
    ensures Under(t, w, if c < u.c then u.low else u.high, c)
  {
  }

  lemma UnderRoot(t: Tst, c: Char)
    ensures Under(t, [], t, c)
  {
    forall j: Key | j != []
      ensures Lookup(t, [] + j) == Lookup(t, j)
    {
      assert [] + j == j;
    }
  }

  // ----- traversal -------------------------------------------------------------------------

  // The stored entries in the order of the traversal; w is the path down to t.
  ghost function Visits(t: Tst, w: Key): seq<Put> {
    if t.Leaf? then []
    else
      Visits(t.low, w) + Visits(t.high, w) + Visits(t.equal, w + [t.c]) + Own(t, w)
  }

  ghost function Own(t: Tst, w: Key): seq<Put>
    requires t.Node?
  {
    if t.value.Some? then [Put(w + [t.c], t.value.value)] else []
  }

  // No key occurs twice.
  ghost predicate Once(s: seq<Put>) {
    forall a, b :: 0 <= a < b < |s| ==> s[a].key != s[b].key
  }

  // No key occurs in both.
  ghost predicate Apart(s: seq<Put>, r: seq<Put>) {
    forall p, q :: p in s && q in r ==> p.key != q.key
  }

  lemma OnceConcat(s: seq<Put>, r: seq<Put>)
    requires Once(s) && Once(r) && Apart(s, r)
    ensures Once(s + r)
  {
    forall a, b | 0 <= a < b < |s + r|
      ensures (s + r)[a].key != (s + r)[b].key
    {
      if a < |s| <= b {
        assert s[a] in s && r[b - |s|] in r;
      }
    }
  }

  // Every visited key goes through t, at a character in its bounds, to the visited value.
  lemma {:induction false} VisitsStored(t: Tst, w: Key, lo: int, hi: int)
    requires Bounded(t, lo, hi)
    ensures forall p :: p in Visits(t, w) ==> Through(t, w, lo, hi, p)
  {
    hide Through, Lookup;
    if t.Node? {
      VisitsStored(t.low, w, lo, t.c);
      VisitsStored(t.high, w, t.c, hi);
      VisitsStored(t.equal, w + [t.c], -129, 128);
      forall p | p in Visits(t, w)
        ensures Through(t, w, lo, hi, p)
      {
        FromChild(t, w, lo, hi, p);
      }
    }
  }

  // The key of p goes on from w through t, at a character in the bounds, to its value.
  ghost predicate Through(t: Tst, w: Key, lo: int, hi: int, p: Put) {
    |w| < |p.key| && p.key[..|w|] == w && lo < p.key[|w|] < hi && Lookup(t, p.key[|w|..]) == Some(p.value)
  }

  lemma FromChild(t: Tst, w: Key, lo: int, hi: int, p: Put)
    requires t.Node? && lo < t.c < hi
    requires Through(t.low, w, lo, t.c, p) || Through(t.high, w, t.c, hi, p)
      || Through(t.equal, w + [t.c], -129, 128, p) || p in Own(t, w)
    ensures Through(t, w, lo, hi, p)
  {
    if Through(t.equal, w + [t.c], -129, 128, p) {
      var k := p.key[|w|..];
      assert p.key[..|w| + 1][..|w|] == w && p.key[..|w| + 1][|w|] == t.c;
      assert k[0] == t.c && k[1..] == p.key[|w| + 1..];
    } else if p in Own(t, w) {
      assert p.key[|w|..] == [t.c];
    }
  }

  lemma {:induction false} StoredVisited(t: Tst, w: Key, j: Key)
    requires j != [] && Lookup(t, j).Some?
    ensures Put(w + j, Lookup(t, j).value) in Visits(t, w)
    decreases |j|, t
  {
    if j[0] < t.c {
      StoredVisited(t.low, w, j);
    } else if j[0] > t.c {
      StoredVisited(t.high, w, j);
    } else if |j| > 1 {
      StoredVisited(t.equal, w + [t.c], j[1..]);
      assert w + [t.c] + j[1..] == w + j;
    } else {
      assert j == [t.c];
    }
  }

  // The keys below the three children differ at the character behind w, or in length.
  lemma ChildrenApart(t: Tst, w: Key, lo: int, hi: int)
    requires t.Node? && Bounded(t, lo, hi)
    ensures Apart(Visits(t.low, w), Visits(t.high, w))
    ensures Apart(Visits(t.low, w) + Visits(t.high, w), Visits(t.equal, w + [t.c]))
    ensures Apart(Visits(t.low, w) + Visits(t.high, w) + Visits(t.equal, w + [t.c]), Own(t, w))
  {
    hide Visits, Lookup, Through;
    VisitsStored(t.low, w, lo, t.c);
    VisitsStored(t.high, w, t.c, hi);
    VisitsStored(t.equal, w + [t.c], -129, 128);
    forall p
      ensures p in Visits(t.low, w) ==> |w| < |p.key| && p.key[|w|] < t.c
      ensures p in Visits(t.high, w) ==> |w| < |p.key| && p.key[|w|] > t.c
      ensures p in Visits(t.equal, w + [t.c]) ==> |w| + 1 < |p.key| && p.key[|w|] == t.c
    {
      if p in Visits(t.low, w) { AtCharacter(t.low, w, lo, t.c, p); }
      if p in Visits(t.high, w) { AtCharacter(t.high, w, t.c, hi, p); }
      if p in Visits(t.equal, w + [t.c]) { AtCharacter(t.equal, w + [t.c], -129, 128, p); }
    }
  }

  lemma AtCharacter(t: Tst, w: Key, lo: int, hi: int, p: Put)
    requires Through(t, w, lo, hi, p)
    ensures |w| < |p.key| && lo < p.key[|w|] < hi && forall i :: 0 <= i < |w| ==> p.key[i] == w[i]
  {
    assert forall i :: 0 <= i < |w| ==> p.key[i] == p.key[..|w|][i];
  }

  lemma {:induction false} VisitsOnce(t: Tst, w: Key, lo: int, hi: int)
    requires Bounded(t, lo, hi)
    ensures Once(Visits(t, w))
  {
    hide Apart, Once;
    NoneTwice();
    if t.Node? {
      var low, high, equal := Visits(t.low, w), Visits(t.high, w), Visits(t.equal, w + [t.c]);
      VisitsOnce(t.low, w, lo, t.c);
      VisitsOnce(t.high, w, t.c, hi);
      VisitsOnce(t.equal, w + [t.c], -129, 128);
      OwnOnce(t, w);
      ChildrenApart(t, w, lo, hi);
      OnceConcat(low, high);
      OnceConcat(low + high, equal);
      OnceConcat(low + high + equal, Own(t, w));
    }
  }

  lemma NoneTwice()
    ensures Once([])
  {
  }

  lemma OwnOnce(t: Tst, w: Key)
    requires t.Node?
    ensures Once(Own(t, w))
  {
  }

  // A traversal visits exactly the stored entries, each once.
  lemma TraversalIsComplete(t: Tst, p: Put)
    requires Bounded(t, -129, 128) && p.key != []
    ensures Once(Visits(t, [])) && (p in Visits(t, []) <==> Lookup(t, p.key) == Some(p.value))
  {
    hide Visits, Lookup, Through, Once, Bounded;
    VisitsOnce(t, [], -129, 128);
    VisitsStored(t, [], -129, 128);
    if p in Visits(t, []) {
      ThroughRoot(t, p);
    }
    if Lookup(t, p.key).Some? {
      StoredVisited(t, [], p.key);
      assert [] + p.key == p.key;
    }
  }

  lemma ThroughRoot(t: Tst, p: Put)
    requires Through(t, [], -129, 128, p)
    ensures p.key != [] && Lookup(t, p.key) == Some(p.value)
  {
    assert p.key[0..] == p.key;
  }

  // ----- the order of a traversal ----------------------------------------------------------

  // No earlier key is a proper prefix of a later one.
  ghost predicate LongFirst(s: seq<Put>) {
    forall a, b :: 0 <= a < b < |s| ==> !(s[a].key < s[b].key)
  }

  ghost predicate NoPrefix(s: seq<Put>, r: seq<Put>) {
    forall p, q :: p in s && q in r ==> !(p.key < q.key)
  }

  lemma LongFirstConcat(s: seq<Put>, r: seq<Put>)
    requires LongFirst(s) && LongFirst(r) && NoPrefix(s, r)
    ensures LongFirst(s + r)
  {
    forall a, b | 0 <= a < b < |s + r|
      ensures !((s + r)[a].key < (s + r)[b].key)
    {
      if a < |s| <= b {
        assert s[a] in s && r[b - |s|] in r;
      }
    }
  }

  // Of the entries below a node: those under low, high and equal, and its own.
  ghost function Kind(p: Put, w: Key, c: Char): nat {
    if |p.key| <= |w| then 3
    else if p.key[|w|] < c then 0
    else if p.key[|w|] > c then 1
    else if |p.key| > |w| + 1 then 2
    else 3
  }

  lemma KindOfChild(t: Tst, w: Key, lo: int, hi: int, p: Put)
    requires t.Node? && Bounded(t, lo, hi)
    ensures p in Visits(t.low, w) ==> w < p.key && Kind(p, w, t.c) == 0
    ensures p in Visits(t.high, w) ==> w < p.key && Kind(p, w, t.c) == 1
    ensures p in Visits(t.equal, w + [t.c]) ==> w + [t.c] < p.key && Kind(p, w, t.c) == 2
    ensures p in Own(t, w) ==> p.key == w + [t.c] && Kind(p, w, t.c) == 3
  {
    hide Visits, Lookup;
    VisitsStored(t.low, w, lo, t.c);
    VisitsStored(t.high, w, t.c, hi);
    VisitsStored(t.equal, w + [t.c], -129, 128);
    if p in Visits(t.low, w) { AtCharacter(t.low, w, lo, t.c, p); }
    if p in Visits(t.high, w) { AtCharacter(t.high, w, t.c, hi, p); }
    if p in Visits(t.equal, w + [t.c]) {
      AtCharacter(t.equal, w + [t.c], -129, 128, p);
    }
  }

  // A key is no prefix of one of a later kind.
  lemma PrefixKinds(p: Put, q: Put, w: Key, c: Char)
    requires w < p.key && w < q.key && Kind(p, w, c) < Kind(q, w, c)
    ensures !(p.key < q.key)
  {
  }

  lemma ChildrenNoPrefix(t: Tst, w: Key, lo: int, hi: int)
    requires t.Node? && Bounded(t, lo, hi)
    ensures NoPrefix(Visits(t.low, w), Visits(t.high, w))
    ensures NoPrefix(Visits(t.low, w) + Visits(t.high, w), Visits(t.equal, w + [t.c]))
    ensures NoPrefix(Visits(t.low, w) + Visits(t.high, w) + Visits(t.equal, w + [t.c]), Own(t, w))
  {
    hide Visits, Kind, Bounded, Own;
    var low, high, equal, own := Visits(t.low, w), Visits(t.high, w), Visits(t.equal, w + [t.c]), Own(t, w);
    forall p, q | p in low + high + equal && q in high + equal + own
      ensures Kind(p, w, t.c) < Kind(q, w, t.c) ==> !(p.key < q.key)
    {
      KindOfChild(t, w, lo, hi, p);
      KindOfChild(t, w, lo, hi, q);
      if Kind(p, w, t.c) < Kind(q, w, t.c) { PrefixKinds(p, q, w, t.c); }
    }
    forall p
      ensures p in low ==> Kind(p, w, t.c) == 0
      ensures p in high ==> Kind(p, w, t.c) == 1
      ensures p in equal ==> Kind(p, w, t.c) == 2
      ensures p in own ==> Kind(p, w, t.c) == 3
    {
      KindOfChild(t, w, lo, hi, p);
    }
  }

  // Every stored extension of a key is visited before the key.
  lemma {:induction false} ExtensionsFirst(t: Tst, w: Key, lo: int, hi: int)
    requires Bounded(t, lo, hi)
    ensures LongFirst(Visits(t, w))
  {
    hide LongFirst, NoPrefix;
    FewLongFirst();
    if t.Node? {
      var low, high, equal := Visits(t.low, w), Visits(t.high, w), Visits(t.equal, w + [t.c]);
      ExtensionsFirst(t.low, w, lo, t.c);
      ExtensionsFirst(t.high, w, t.c, hi);
      ExtensionsFirst(t.equal, w + [t.c], -129, 128);
      ChildrenNoPrefix(t, w, lo, hi);
      LongFirstConcat(low, high);
      LongFirstConcat(low + high, equal);
      LongFirstConcat(low + high + equal, Own(t, w));
    }
  }

  lemma FewLongFirst()
    ensures LongFirst([]) && forall p :: LongFirst([p])
  {
  }

  // Below every node come the keys under low, those under high, the proper extensions of
  // the node's own key, and that key.
  lemma KindsAscend(t: Tst, w: Key, lo: int, hi: int, a: nat, b: nat)
    requires t.Node? && Bounded(t, lo, hi) && a < b < |Visits(t, w)|
    ensures Kind(Visits(t, w)[a], w, t.c) <= Kind(Visits(t, w)[b], w, t.c)
  {
    hide Kind, Bounded, Own;
    var low, high, equal, own := Visits(t.low, w), Visits(t.high, w), Visits(t.equal, w + [t.c]), Own(t, w);
    var v := low + high + equal + own;
    forall k | 0 <= k < |v|
      ensures Kind(v[k], w, t.c) ==
        if k < |low| then 0 else if k < |low| + |high| then 1 else if k < |low| + |high| + |equal| then 2 else 3
    {
      KindOfChild(t, w, lo, hi, v[k]);
      if k < |low| {
        assert v[k] == low[k];
      } else if k < |low| + |high| {
        assert v[k] == high[k - |low|];
      } else if k < |low| + |high| + |equal| {
        assert v[k] == equal[k - |low| - |high|];
      } else {
        assert v[k] == own[k - |low| - |high| - |equal|];
      }
    }
  }

  // ----- where a prefix search leads ---------------------------------------------------------

  // The characters along the middle links.
  ghost function Chain(t: Tst): Key {
    if t.Leaf? then [] else [t.c] + Chain(t.equal)
  }

  // The path to the node of q and on along the middle links; empty if there is no node.
  ghost function Trail(t: Tst, q: Key): Key
    requires q != []
    decreases |q|, t
  {
    if t.Leaf? then []
    else if q[0] < t.c then Trail(t.low, q)
    else if q[0] > t.c then Trail(t.high, q)
    else if |q| == 1 then Chain(t)
    else After(t.c, Trail(t.equal, q[1..]))
  }

  ghost function After(c: Char, w: Key): Key {
    if w == [] then [] else [c] + w
  }

  lemma {:induction false} TrailExtends(t: Tst, q: Key)
    requires q != []
    ensures Trail(t, q) == [] || q <= Trail(t, q)
    decreases |q|, t
  {
    if t.Node? {
      if q[0] < t.c {
        TrailExtends(t.low, q);
      } else if q[0] > t.c {
        TrailExtends(t.high, q);
      } else if |q| > 1 {
        TrailExtends(t.equal, q[1..]);
        assert q == [q[0]] + q[1..];
      } else {
        assert q == [t.c];
      }
    }
  }

  lemma {:induction false} ChainInsert(t: Tst, k: Key, v: Value)
    requires k != []
    ensures Chain(t) <= Chain(Insert(t, k, v)) && (t.Leaf? ==> Chain(Insert(t, k, v)) == k)
    decreases |k|, t
  {
    if t.Leaf? {
      if |k| > 1 { ChainInsert(Leaf, k[1..], v); }
      assert k == [k[0]] + k[1..];
    } else if k[0] == t.c && |k| > 1 {
      ChainInsert(t.equal, k[1..], v);
    }
  }

  // An insert lengthens a trail at most at its end; it makes one, of its own key, for the
  // queries that its key extends.
  lemma {:induction false} TrailInsert(t: Tst, k: Key, v: Value, q: Key)
    requires k != [] && q != []
    ensures var r := Trail(Insert(t, k, v), q);
      if Trail(t, q) != [] then Trail(t, q) <= r else if q <= k then r == k else r == []
    decreases |k|, t
  {
    if k[0] != q[0] {
      OtherTrail(t, k, v, q);
    } else if t.Leaf? {
      if |k| > 1 && |q| > 1 {
        TrailInsert(Leaf, k[1..], v, q[1..]);
        PrefixTail(q, k);
      } else {
        ChainInsert(Leaf, k, v);
        if |q| > 1 { assert !(q <= k); } else { assert q == [k[0]] <= k; }
      }
    } else if k[0] < t.c {
      TrailInsert(t.low, k, v, q);
    } else if k[0] > t.c {
      TrailInsert(t.high, k, v, q);
    } else if |k| > 1 && |q| > 1 {
      TrailInsert(t.equal, k[1..], v, q[1..]);
      PrefixTail(q, k);
      assert k == [k[0]] + k[1..];
    } else {
      ChainInsert(t, k, v);
    }
  }

  // A key of another first character leaves the trail as it is.
  lemma {:induction false} OtherTrail(t: Tst, k: Key, v: Value, q: Key)
    requires k != [] && q != [] && k[0] != q[0]
    ensures Trail(Insert(t, k, v), q) == Trail(t, q) && !(q <= k)
    decreases t
  {
    if t.Node? && k[0] < t.c {
      OtherTrail(t.low, k, v, q);
    } else if t.Node? && k[0] > t.c {
      OtherTrail(t.high, k, v, q);
    }
  }

  lemma PrefixTail(q: Key, k: Key)
    requires |q| > 1 && |k| > 1 && q[0] == k[0]
    ensures q <= k <==> q[1..] <= k[1..]
  {
    assert q == [q[0]] + q[1..] && k == [k[0]] + k[1..];
    if q[1..] <= k[1..] {
      assert k[..|q|] == [k[0]] + k[1..][..|q| - 1];
    }
    if q <= k {
      assert k[1..][..|q| - 1] == k[..|q|][1..];
    }
  }

  // The key of the first put that extends q.
  ghost function FirstExtending(puts: seq<Put>, q: Key): Key {
    if puts == [] then []
    else
      var r, k := FirstExtending(puts[..|puts| - 1], q), puts[|puts| - 1].key;
      if r != [] then r else if q <= k then k else []
  }

  // Over every run of inserts the trail of a query starts with the first key that extends
  // it, and is empty exactly when there is none.
  lemma {:induction false} TrailOfBuild(puts: seq<Put>, q: Key)
    requires Keyed(puts) && q != []
    ensures var f, r := FirstExtending(puts, q), Trail(Build(puts), q); f <= r && (f == [] <==> r == [])
    ensures var f := FirstExtending(puts, q); f != [] ==> q <= f && f in FirstWrites(puts)
  {
    if puts != [] {
      var before, p := puts[..|puts| - 1], puts[|puts| - 1];
      TrailOfBuild(before, q);
      TrailInsert(Build(before), p.key, p.value, q);
    }
  }

  // found is the value of the shortest stored key that extends q along the way.
  ghost predicate Nearest(t: Tst, q: Key, way: Key, found: Option<Value>) {
    exists m :: |q| <= m <= |way| && 0 < m && NearestAt(t, q, way, found, m)
  }

  ghost predicate NearestAt(t: Tst, q: Key, way: Key, found: Option<Value>, m: nat)
    requires 0 < m <= |way|
  {
    found.Some? && Lookup(t, way[..m]) == found
    && forall j :: |q| <= j < m && 0 < j ==> Lookup(t, way[..j]) == None
  }

  // So over every run of inserts a prefix search finds the value of the shortest stored key
  // that extends the query and is a prefix of the first key that does.
  lemma NearestOfBuild(puts: seq<Put>, q: Key, found: Option<Value>)
    requires Keyed(puts) && q != [] && FirstExtending(puts, q) != []
    requires Nearest(Build(puts), q, Trail(Build(puts), q), found)
    ensures Nearest(Build(puts), q, FirstExtending(puts, q), found)
  {
    hide Lookup, Build, Trail, FirstExtending, FirstWrites;
    var t, f, way := Build(puts), FirstExtending(puts, q), Trail(Build(puts), q);
    TrailOfBuild(puts, q);
    BuildIsMap(puts, f);
    var m :| |q| <= m <= |way| && 0 < m && NearestAt(t, q, way, found, m);
    assert way[..|f|] == f;
    assert m <= |f|;
    assert forall j :: 0 <= j <= |f| ==> f[..j] == way[..j];
    assert NearestAt(t, q, f, found, m);
  }
}
