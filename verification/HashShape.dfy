// A hash table as a value: buckets of entries in strict key order.
module HashShape {
  import opened Orders
  import opened Wrappers

  type Key(==, !new)
  type Data(==, !new)

  const DEFAULT_NUMBER_OF_BUCKETS := 10

  datatype Entry = Entry(key: Key, hash: uint32, data: Data)
  datatype Keying = Keying(compare: (Key, Key) -> int, hash: Key -> uint32)

  type Table = seq<seq<Entry>>

  // Keys that compare equal hash equally.
  ghost predicate Lawful(m: Keying) {
    TotalPreorder(m.compare) && forall a, b :: m.compare(a, b) == 0 ==> m.hash(a) == m.hash(b)
  }

  function BucketOf(m: Keying, k: Key): (n: nat)
    ensures n < DEFAULT_NUMBER_OF_BUCKETS
  {
    m.hash(k) % DEFAULT_NUMBER_OF_BUCKETS
  }

  ghost predicate Ascending(s: seq<Entry>, m: Keying) {
    forall i, j :: 0 <= i < j < |s| ==> m.compare(s[i].key, s[j].key) < 0
  }

  // A bucket is in order and holds only keys hashing to it, with their hashes.
  ghost predicate Proper(s: seq<Entry>, m: Keying, n: nat) {
    Ascending(s, m) && forall i :: 0 <= i < |s| ==> BucketOf(m, s[i].key) == n && s[i].hash == m.hash(s[i].key)
  }

  ghost predicate Valid(t: Table, m: Keying) {
    |t| == DEFAULT_NUMBER_OF_BUCKETS && forall n :: 0 <= n < |t| ==> Proper(t[n], m, n)
  }

  // How many keys are smaller than k: where k stands or belongs.
  ghost function Rank(s: seq<Entry>, m: Keying, k: Key): (r: nat)
    ensures r <= |s| && (r > 0 ==> m.compare(s[r - 1].key, k) < 0)
    ensures forall i :: r <= i < |s| ==> m.compare(s[i].key, k) >= 0
  {
    if s == [] || m.compare(s[|s| - 1].key, k) < 0 then |s| else Rank(s[..|s| - 1], m, k)
  }

  ghost predicate Has(s: seq<Entry>, m: Keying, k: Key) {
    Rank(s, m, k) < |s| && m.compare(s[Rank(s, m, k)].key, k) == 0
  }

  ghost function PutIn(s: seq<Entry>, m: Keying, k: Key, d: Data): seq<Entry> {
    var r := Rank(s, m, k);
    if Has(s, m, k) then s[r := s[r].(data := d)] else s[..r] + [Entry(k, m.hash(k), d)] + s[r..]
  }

  ghost function Put(t: Table, m: Keying, k: Key, d: Data): Table
    requires |t| == DEFAULT_NUMBER_OF_BUCKETS
  {
    t[BucketOf(m, k) := PutIn(t[BucketOf(m, k)], m, k, d)]
  }

  ghost function GetIn(s: seq<Entry>, m: Keying, k: Key): Option<Data> {
    if Has(s, m, k) then Some(s[Rank(s, m, k)].data) else None
  }

  ghost function Get(t: Table, m: Keying, k: Key): Option<Data>
    requires |t| == DEFAULT_NUMBER_OF_BUCKETS
  {
    GetIn(t[BucketOf(m, k)], m, k)
  }

  lemma Cmp(m: Keying, a: Key, b: Key, c: Key)
    requires Lawful(m)
    ensures m.compare(a, a) == 0 && (m.compare(a, b) < 0 <==> m.compare(b, a) > 0)
    ensures m.compare(a, b) < 0 && m.compare(b, c) <= 0 ==> m.compare(a, c) < 0
    ensures m.compare(a, b) <= 0 && m.compare(b, c) < 0 ==> m.compare(a, c) < 0
    ensures m.compare(a, b) == 0 ==>
      && (m.compare(a, c) < 0 <==> m.compare(b, c) < 0)
      && (m.compare(a, c) == 0 <==> m.compare(b, c) == 0)
  {
    assert m.compare(b, a) <= 0 || m.compare(a, b) < 0;
    assert m.compare(c, b) <= 0 || m.compare(b, c) < 0;
    assert m.compare(c, a) <= 0 || m.compare(a, c) < 0;
  }

  // In an ordered bucket an equal key is found wherever it stands.
  lemma HasIff(s: seq<Entry>, m: Keying, k: Key, i: nat)
    requires Lawful(m) && Ascending(s, m) && i < |s| && m.compare(s[i].key, k) == 0
    ensures Has(s, m, k) && Rank(s, m, k) == i
  {
    hide Lawful;
    var r := Rank(s, m, k);
    var l, h := if r > 0 then r - 1 else 0, if r < |s| then r else i;
    Cmp(m, s[h].key, s[i].key, k);
    Cmp(m, s[i].key, s[l].key, k);
    Cmp(m, s[i].key, k, s[l].key);
    Cmp(m, s[l].key, k, s[i].key);
  }

  // What a probe of a binary search tells.
  lemma Probe(s: seq<Entry>, m: Keying, k: Key, i: nat)
    requires Lawful(m) && Ascending(s, m) && i < |s|
    ensures var c := m.compare(s[i].key, k);
      && (c == 0 ==> Has(s, m, k) && Rank(s, m, k) == i && m.hash(s[i].key) == m.hash(k))
      && (c < 0 ==> i < Rank(s, m, k)) && (c > 0 ==> Rank(s, m, k) <= i && (Has(s, m, k) ==> Rank(s, m, k) < i))
  {
    Apart(s, m, k);
    if m.compare(s[i].key, k) == 0 { HasIff(s, m, k, i); }
  }

  // What is below the rank is smaller, what is not is greater or equal.
  lemma Apart(s: seq<Entry>, m: Keying, k: Key)
    requires Lawful(m) && Ascending(s, m)
    ensures forall i :: 0 <= i < Rank(s, m, k) ==> m.compare(s[i].key, k) < 0
    ensures !Has(s, m, k) ==> forall i :: Rank(s, m, k) <= i < |s| ==> m.compare(k, s[i].key) < 0
  {
    hide Lawful;
    var r := Rank(s, m, k);
    forall i | 0 <= i < r
      ensures m.compare(s[i].key, k) < 0
    {
      Cmp(m, s[i].key, s[r - 1].key, k);
    }
    if !Has(s, m, k) {
      forall i | r <= i < |s|
        ensures m.compare(k, s[i].key) < 0
      {
        if m.compare(s[i].key, k) == 0 { HasIff(s, m, k, i); }
        Cmp(m, k, s[i].key, k);
      }
    }
  }

  // A rank depends on the keys alone.
  lemma {:induction false} RankOfKeys(s: seq<Entry>, t: seq<Entry>, m: Keying, k: Key)
    requires |s| == |t| && forall i :: 0 <= i < |s| ==> t[i].key == s[i].key
    ensures Rank(s, m, k) == Rank(t, m, k)
  {
    if s != [] && m.compare(s[|s| - 1].key, k) >= 0 {
      RankOfKeys(s[..|s| - 1], t[..|t| - 1], m, k);
    }
  }

  lemma Inserted(s: seq<Entry>, m: Keying, r: nat, e: Entry)
    requires r <= |s| && Ascending(s, m)
    requires forall i :: 0 <= i < r ==> m.compare(s[i].key, e.key) < 0
    requires forall i :: r <= i < |s| ==> m.compare(e.key, s[i].key) < 0
    ensures Ascending(s[..r] + [e] + s[r..], m)
  {
    var t := s[..r] + [e] + s[r..];
    forall i, j | 0 <= i < j < |t|
      ensures m.compare(t[i].key, t[j].key) < 0
    {
      if i != r && j != r {
        assert m.compare(s[if i < r then i else i - 1].key, s[if j < r then j else j - 1].key) < 0;
      }
    }
  }

  lemma PutProper(s: seq<Entry>, m: Keying, k: Key, d: Data, n: nat)
    requires Lawful(m) && Proper(s, m, n) && BucketOf(m, k) == n
    ensures Proper(PutIn(s, m, k, d), m, n)
  {
    hide Lawful, Rank;
    Apart(s, m, k);
    if !Has(s, m, k) {
      Inserted(s, m, Rank(s, m, k), Entry(k, m.hash(k), d));
    }
  }

  // Setting k changes the lookup of the keys equal to k and of no other.
  lemma PutGet(s: seq<Entry>, m: Keying, k: Key, d: Data, j: Key, n: nat)
    requires Lawful(m) && Proper(s, m, n) && BucketOf(m, k) == n
    ensures GetIn(PutIn(s, m, k, d), m, j) == if m.compare(k, j) == 0 then Some(d) else GetIn(s, m, j)
  {
    hide Lawful, Rank;
    var t, r := PutIn(s, m, k, d), Rank(s, m, k);
    PutProper(s, m, k, d, n);
    Cmp(m, k, k, j);
    if Has(s, m, k) {
      RankOfKeys(s, t, m, j);
      Cmp(m, s[r].key, k, j);
      if m.compare(k, j) == 0 {
        HasIff(s, m, j, r);
      }
    } else if m.compare(k, j) == 0 {
      HasIff(t, m, j, r);
    } else {
      OthersFound(s, m, Entry(k, m.hash(k), d), r, j);
    }
  }

  lemma OthersFound(s: seq<Entry>, m: Keying, e: Entry, r: nat, j: Key)
    requires Lawful(m) && r <= |s| && Ascending(s, m) && Ascending(s[..r] + [e] + s[r..], m) && m.compare(e.key, j) != 0
    ensures GetIn(s[..r] + [e] + s[r..], m, j) == GetIn(s, m, j)
  {
    hide Lawful, Rank, Ascending;
    var t := s[..r] + [e] + s[r..];
    if Has(s, m, j) {
      var q := Rank(s, m, j);
      HasIff(t, m, j, if q < r then q else q + 1);
    } else if Has(t, m, j) {
      var q := Rank(t, m, j);
      assert t[q] == s[if q < r then q else q - 1];
      HasIff(s, m, j, if q < r then q else q - 1);
    }
  }

  // ----- the whole table, and runs --------------------------------------------------------

  lemma SameBucket(m: Keying, k: Key, j: Key)
    requires Lawful(m) && m.compare(k, j) == 0
    ensures BucketOf(m, k) == BucketOf(m, j)
  {
  }

  lemma SetGet(t: Table, m: Keying, k: Key, d: Data, j: Key)
    requires Lawful(m) && Valid(t, m)
    ensures Valid(Put(t, m, k, d), m)
    ensures Get(Put(t, m, k, d), m, j) == if m.compare(k, j) == 0 then Some(d) else Get(t, m, j)
  {
    hide Lawful, PutIn, GetIn, BucketOf, Proper;
    var n := BucketOf(m, k);
    PutProper(t[n], m, k, d, n);
    if m.compare(k, j) == 0 {
      SameBucket(m, k, j);
    }
    if BucketOf(m, j) == n {
      PutGet(t[n], m, k, d, j, n);
    }
  }

  datatype Write = Write(key: Key, data: Data)

  ghost function Empty(): Table {
    seq(DEFAULT_NUMBER_OF_BUCKETS, _ => [])
  }

  ghost function Build(writes: seq<Write>, m: Keying): (t: Table)
    ensures |t| == DEFAULT_NUMBER_OF_BUCKETS
  {
    if writes == [] then Empty()
    else Put(Build(writes[..|writes| - 1], m), m, writes[|writes| - 1].key, writes[|writes| - 1].data)
  }

  // A finite map up to equal keys: the last write counts.
  ghost function LastWrite(writes: seq<Write>, m: Keying, k: Key): Option<Data> {
    if writes == [] then None
    else if m.compare(writes[|writes| - 1].key, k) == 0 then Some(writes[|writes| - 1].data)
    else LastWrite(writes[..|writes| - 1], m, k)
  }

  // Over every run of sets the table is that map.
  lemma {:induction false} BuildIsMap(writes: seq<Write>, m: Keying, k: Key)
    requires Lawful(m)
    ensures Valid(Build(writes, m), m) && Get(Build(writes, m), m, k) == LastWrite(writes, m, k)
  {
    hide Lawful, Get, Put;
    if writes == [] {
      EmptyGet(m, k);
    } else {
      BuildIsMap(writes[..|writes| - 1], m, k);
      SetGet(Build(writes[..|writes| - 1], m), m, writes[|writes| - 1].key, writes[|writes| - 1].data, k);
    }
  }

  lemma EmptyGet(m: Keying, k: Key)
    ensures Valid(Empty(), m) && Get(Empty(), m, k) == None
  {
  }
}
