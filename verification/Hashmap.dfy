// The hash map of sorted, growable buckets.
module Hashmap {
  import opened Darray
  import opened HashShape
  import opened Wrappers

  class HashmapNode {
    const key: Key
    const hash: uint32
    var data: Data

    constructor (hash: uint32, key: Key, data: Data)
      ensures this.hash == hash && this.key == key && this.data == data
    {
      this.hash, this.key, this.data := hash, key, data;
    }
  }

  type Bucket = DArray<HashmapNode?>
  type BucketRef = DArray?<HashmapNode?>

  // The nodes stand for the entries.
  ghost predicate Stands(ns: seq<HashmapNode>, es: seq<Entry>)
    reads ns
  {
    |ns| == |es| && forall k :: 0 <= k < |ns| ==> es[k] == Entry(ns[k].key, ns[k].hash, ns[k].data)
  }

  ghost predicate Holds(b: BucketRef, ns: seq<HashmapNode>)
    reads b, if b == null then {} else {b.contents}
  {
    if b == null then ns == [] else b.Valid() && b.Elements() == ns
  }

  function CompareNode(m: Keying): (HashmapNode?, HashmapNode?) -> int {
    (a: HashmapNode?, b: HashmapNode?) => if a == null || b == null then 0 else m.compare(a.key, b.key)
  }

  // Sorting a new node in puts it at the rank of its key.
  lemma PlaceIsRank(m: Keying, ns: seq<HashmapNode>, es: seq<Entry>, el: HashmapNode)
    requires Lawful(m) && Ascending(es, m) && Stands(ns, es) && !Has(es, m, el.key)
    ensures Place<HashmapNode?>(ns, el, CompareNode(m)) == Rank(es, m, el.key)
  {
    Apart(es, m, el.key);
    var p, r := Place<HashmapNode?>(ns, el, CompareNode(m)), Rank(es, m, el.key);
    var l := if p > 0 then p - 1 else 0;
    forall k: Key
      ensures m.compare(k, el.key) < 0 <==> m.compare(el.key, k) > 0
    {
      Cmp(m, k, el.key, el.key);
    }
  }

  ghost function EnteredNodes(m: Keying, ns: seq<HashmapNode>, es: seq<Entry>, node: HashmapNode): (r: seq<HashmapNode>)
    requires |ns| == |es|
  {
    var p := Rank(es, m, node.key);
    ns[..p] + [node] + ns[p..]
  }

  lemma EnteredFrom(m: Keying, ns: seq<HashmapNode>, es: seq<Entry>, node: HashmapNode)
    requires |ns| == |es|
    ensures forall k :: 0 <= k < |EnteredNodes(m, ns, es, node)| ==>
      EnteredNodes(m, ns, es, node)[k] == node || EnteredNodes(m, ns, es, node)[k] in ns
  {
  }

  lemma Entered(m: Keying, ns: seq<HashmapNode>, es: seq<Entry>, node: HashmapNode, b: Bucket)
    requires Stands(ns, es) && !Has(es, m, node.key) && node.hash == m.hash(node.key)
    requires b.Valid() && b.Elements() == With<HashmapNode?>(ns, Rank(es, m, node.key), node)
    ensures Stands(EnteredNodes(m, ns, es, node), PutIn(es, m, node.key, node.data))
    ensures Holds(b, EnteredNodes(m, ns, es, node))
  {
    hide Rank, Has, Stands, With;
    StandsLength(ns, es);
    RankBound(es, m, node.key);
    StandsWith(ns, es, Rank(es, m, node.key), node);
    WithIs(ns, Rank(es, m, node.key), node);
  }

  lemma StandsLength(ns: seq<HashmapNode>, es: seq<Entry>)
    requires Stands(ns, es)
    ensures |ns| == |es|
  {
  }

  lemma RankBound(es: seq<Entry>, m: Keying, k: Key)
    ensures Rank(es, m, k) <= |es|
  {
  }

  lemma StandsWith(ns: seq<HashmapNode>, es: seq<Entry>, p: nat, node: HashmapNode)
    requires Stands(ns, es) && p <= |ns| == |es|
    ensures Stands(ns[..p] + [node] + ns[p..], es[..p] + [Entry(node.key, node.hash, node.data)] + es[p..])
  {
  }

  lemma WithIs(ns: seq<HashmapNode>, p: nat, node: HashmapNode)
    requires p <= |ns|
    ensures With<HashmapNode?>(ns, p, node) == ns[..p] + [node] + ns[p..]
  {
  }

  class Hashmap {
    const keying: Keying
    const buckets: array<BucketRef>
    ghost var nodes: seq<seq<HashmapNode>>
    ghost var table: Table
    ghost var Repr: set<object>

    ghost predicate Owned()
      reads this, buckets, Repr
    {
      && buckets.Length == |nodes| == |table| == DEFAULT_NUMBER_OF_BUCKETS && this !in Repr && buckets !in Repr
      && (forall i :: 0 <= i < buckets.Length && buckets[i] != null ==>
        buckets[i] in Repr && buckets[i].contents in Repr)
      && (forall i :: 0 <= i < |nodes| ==> forall k :: 0 <= k < |nodes[i]| ==> nodes[i][k] in Repr)
      && (forall i, j :: 0 <= i < j < buckets.Length && buckets[i] != null && buckets[j] != null ==>
        buckets[i] != buckets[j] && buckets[i].contents != buckets[j].contents)
    }

    ghost predicate Valid()
      reads this, buckets, Repr
    {
      && Owned()
      && (forall i :: 0 <= i < buckets.Length ==> Holds(buckets[i], nodes[i]))
      && (forall i :: 0 <= i < |nodes| ==> Stands(nodes[i], table[i]))
      && Lawful(keying) && HashShape.Valid(table, keying)
    }

    constructor (keying: Keying)
      requires Lawful(keying)
      ensures Valid() && table == Empty() && this.keying == keying && fresh(buckets) && fresh(Repr)
    {
      this.keying := keying;
      buckets := new BucketRef[DEFAULT_NUMBER_OF_BUCKETS](_ => null);
      nodes := seq(DEFAULT_NUMBER_OF_BUCKETS, _ => []);
      table := Empty();
      Repr := {};
    }

    method FindBucket(key: Key, create: bool) returns (bucket: BucketRef, hash: uint32)
      requires Valid()
      modifies buckets, `Repr
      ensures Valid() && hash == keying.hash(key) && bucket == buckets[BucketOf(keying, key)]
      ensures if create then bucket != null && fresh(Repr - old(Repr)) else unchanged(buckets) && Repr == old(Repr)
    {
      hide Lawful, Proper;
      hash := keying.hash(key);
      var n := hash % DEFAULT_NUMBER_OF_BUCKETS;
      bucket := buckets[n];
      if bucket == null && create {
        bucket := new DArray<HashmapNode?>(50);
        buckets[n] := bucket;
        Repr := Repr + {bucket, bucket.contents};
      }
    }

    // The probed node, in the terms of the table.
    lemma ProbeNode(bucket: Bucket, key: Key, middle: nat)
      requires Valid() && bucket == buckets[BucketOf(keying, key)] && middle < bucket.end
      ensures bucket.Valid() && bucket.contents[middle] != null
      ensures var s, node := table[BucketOf(keying, key)], bucket.contents[middle];
        && bucket.end == |s| && middle < |s| && node.data == s[middle].data
        && node == nodes[BucketOf(keying, key)][middle]
        && var c := keying.compare(node.key, key);
          && (c == 0 ==> Has(s, keying, key) && Rank(s, keying, key) == middle && node.hash == keying.hash(key))
          && (c < 0 ==> middle < Rank(s, keying, key))
          && (c > 0 ==> Rank(s, keying, key) <= middle && (Has(s, keying, key) ==> Rank(s, keying, key) < middle))
    {
      hide Lawful, Has, Rank;
      var n := BucketOf(keying, key);
      assert Holds(bucket, nodes[n]) && Stands(nodes[n], table[n]) && Proper(table[n], keying, n);
      assert bucket.Elements()[middle] == nodes[n][middle];
      Probe(table[n], keying, key, middle);
    }

    lemma BucketSize(bucket: Bucket, key: Key)
      requires Valid() && bucket == buckets[BucketOf(keying, key)]
      ensures var s := table[BucketOf(keying, key)]; bucket.Valid() && bucket.end == |s| && Ascending(s, keying)
      ensures Stands(nodes[BucketOf(keying, key)], table[BucketOf(keying, key)])
      ensures bucket.Elements() == nodes[BucketOf(keying, key)]
      ensures var s := table[BucketOf(keying, key)];
        Rank(s, keying, key) <= |s| && (Has(s, keying, key) ==> Rank(s, keying, key) < |s|)
    {
      var n := BucketOf(keying, key);
      assert Holds(bucket, nodes[n]) && Stands(nodes[n], table[n]) && Proper(table[n], keying, n);
    }

    // Binary search by key, checking the stored hash.
    method GetNode(hash: uint32, bucket: Bucket, key: Key) returns (loc: int)
      requires Valid() && hash == keying.hash(key) && bucket == buckets[BucketOf(keying, key)]
      ensures var s := table[BucketOf(keying, key)]; loc == if Has(s, keying, key) then Rank(s, keying, key) else -1
    {
      hide Lawful, Has, Rank, Stands, Holds, HashShape.Valid;
      ghost var s := table[BucketOf(keying, key)];
      BucketSize(bucket, key);
      var start, end := 0, bucket.end - 1;
      while start <= end
        invariant 0 <= start <= Rank(s, keying, key) <= end + 1 <= |s| == bucket.end
        invariant Has(s, keying, key) ==> Rank(s, keying, key) <= end
      {
        var middle := start + (end - start) / 2;
        ProbeNode(bucket, key, middle);
        var node := bucket.contents[middle];
        if keying.compare(node.key, key) == 0 && node.hash == hash {
          return middle;
        } else if keying.compare(node.key, key) < 0 {
          start := middle + 1;
        } else {
          end := middle - 1;
        }
      }
      return -1;
    }

    method Get(key: Key) returns (data: Option<Data>)
      requires Valid()
      modifies buckets, `Repr
      ensures Valid() && unchanged(buckets) && Repr == old(Repr)
      ensures data == HashShape.Get(table, keying, key)
    {
      hide Lawful, Has, Rank, Stands, Holds, HashShape.Valid;
      var bucket, hash := FindBucket(key, false);
      if bucket == null {
        NoBucket(key);
        return None;
      }
      var i := GetNode(hash, bucket, key);
      BucketSize(bucket, key);
      if i == -1 {
        return None;
      }
      ProbeNode(bucket, key, i);
      var node := bucket.contents[i];
      return Some(node.data);
    }

    // The node at place k of bucket n is in no other place.
    lemma OnePlace(n: nat, k: nat)
      requires Valid() && n < |nodes| && k < |nodes[n]|
      ensures forall i, l :: 0 <= i < |nodes| && 0 <= l < |nodes[i]| && nodes[i][l] == nodes[n][k] ==> i == n && l == k
    {
      hide Holds, Lawful;
      forall i, l | 0 <= i < |nodes| && 0 <= l < |nodes[i]| && nodes[i][l] == nodes[n][k]
        ensures i == n && l == k
      {
        assert Stands(nodes[i], table[i]) && Stands(nodes[n], table[n]) && Proper(table[i], keying, i)
          && Proper(table[n], keying, n);
        assert table[i][l].key == table[n][k].key;
        Cmp(keying, table[n][k].key, table[n][k].key, table[n][k].key);
      }
    }

    method Overwrite(bucket: Bucket, key: Key, data: Data, loc: nat)
      requires Valid() && bucket == buckets[BucketOf(keying, key)]
      requires Has(table[BucketOf(keying, key)], keying, key) && Rank(table[BucketOf(keying, key)], keying, key) == loc
      modifies Repr, `table
      ensures Valid() && table == Put(old(table), keying, key, data)
    {
      hide Lawful, Has, Rank, HashShape.Valid, Proper;
      ghost var n := BucketOf(keying, key);
      BucketSize(bucket, key);
      ProbeNode(bucket, key, loc);
      OnePlace(n, loc);
      SetGet(table, keying, key, data, key);
      var node := bucket.contents[loc];
      node.data := data;
      table := Put(table, keying, key, data);
    }

    // Sort the new node into its bucket; the ghost fields follow in Enter.
    method SortIn(bucket: Bucket, key: Key, node: HashmapNode)
      requires Valid() && bucket == buckets[BucketOf(keying, key)] && !Has(table[BucketOf(keying, key)], keying, key)
      requires node.key == key && node.hash == keying.hash(key) && node !in Repr
      modifies bucket, bucket.contents
      ensures var n := BucketOf(keying, key);
        && Holds(bucket, EnteredNodes(keying, nodes[n], table[n], node))
        && Stands(EnteredNodes(keying, nodes[n], table[n], node), PutIn(table[n], keying, key, node.data))
        && (forall i :: 0 <= i < buckets.Length && i != n ==> Holds(buckets[i], nodes[i]))
      ensures fresh(bucket.contents) || bucket.contents == old(bucket.contents)
    {
      hide Lawful, Has, Rank, HashShape.Valid, Proper, Stands, Holds, With, Ascending, PutIn, BucketOf;
      ghost var n, m := BucketOf(keying, key), keying;
      BucketSize(bucket, key);
      PlaceIsRank(m, nodes[n], table[n], node);
      bucket.PushSort(node, CompareNode(keying));
      Entered(m, nodes[n], table[n], node, bucket);
    }

    method Enter(bucket: Bucket, key: Key, node: HashmapNode)
      requires Valid() && bucket == buckets[BucketOf(keying, key)] && !Has(table[BucketOf(keying, key)], keying, key)
      requires node.key == key && node.hash == keying.hash(key) && node !in Repr
      modifies this, Repr
      ensures Valid() && table == Put(old(table), keying, key, node.data)
      ensures fresh(Repr - old(Repr) - {node})
    {
      hide Lawful, Has, Rank, HashShape.Valid, Proper, Stands, Holds, PutIn, BucketOf, EnteredNodes;
      ghost var n, m := BucketOf(keying, key), keying;
      BucketSize(bucket, key);
      SetGet(table, m, key, node.data, key);
      EnteredFrom(m, nodes[n], table[n], node);
      SortIn(bucket, key, node);
      nodes := nodes[n := EnteredNodes(m, nodes[n], table[n], node)];
      table := Put(table, m, key, node.data);
      Repr := Repr + {node, bucket.contents};
    }

    method Set(key: Key, data: Data) returns (rc: int)
      requires Valid()
      modifies this, buckets, Repr
      ensures rc == 0 && Valid() && table == Put(old(table), keying, key, data) && fresh(Repr - old(Repr))
    {
      hide Lawful, Has, Rank, HashShape.Valid, Proper, Stands, Holds;
      var bucket, hash := FindBucket(key, true);
      var loc := GetNode(hash, bucket, key);
      if loc >= 0 {
        Overwrite(bucket, key, data, loc);
      } else {
        var node := new HashmapNode(hash, key, data);
        Enter(bucket, key, node);
      }
      return 0;
    }

    lemma NoBucket(key: Key)
      requires Valid() && buckets[BucketOf(keying, key)] == null
      ensures !Has(table[BucketOf(keying, key)], keying, key)
    {
      assert Holds(buckets[BucketOf(keying, key)], nodes[BucketOf(keying, key)]);
      assert Stands(nodes[BucketOf(keying, key)], table[BucketOf(keying, key)]);
    }
  }
}
