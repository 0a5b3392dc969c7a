// The ternary search tree of linked nodes.
module Tstree {
  import opened TstShape
  import opened Wrappers

  class TSTree {
    var splitchar: Char
    var low: TSTree?
    var equal: TSTree?
    var high: TSTree?
    var value: Option<Value>

    constructor (c: Char)
      ensures splitchar == c && low == null && equal == null && high == null && value == None
    {
      splitchar := c;
      low := null;
      equal := null;
      high := null;
      value := None;
    }
  }

  // Which heap node stands for which node of the value.
  datatype Shape = Tip | At(ref: TSTree, c: Char, value: Option<Value>, low: Shape, equal: Shape, high: Shape)

  ghost function Plain(s: Shape): Tst {
    if s.Tip? then Leaf else Node(s.c, s.value, Plain(s.low), Plain(s.equal), Plain(s.high))
  }

  ghost function Refs(s: Shape): set<TSTree> {
    if s.Tip? then {} else {s.ref} + Refs(s.low) + Refs(s.equal) + Refs(s.high)
  }

  ghost predicate Distinct(s: Shape) {
    s.At? ==>
      && s.ref !in Refs(s.low) && s.ref !in Refs(s.equal) && s.ref !in Refs(s.high)
      && Refs(s.low) !! Refs(s.equal) && Refs(s.low) !! Refs(s.high) && Refs(s.equal) !! Refs(s.high)
      && Distinct(s.low) && Distinct(s.equal) && Distinct(s.high)
  }

  ghost function Top(s: Shape): TSTree? {
    if s.Tip? then null else s.ref
  }

  ghost predicate Holds(s: Shape)
    requires s.At?
    reads s.ref
  {
    && s.ref.splitchar == s.c && s.ref.value == s.value
    && s.ref.low == Top(s.low) && s.ref.equal == Top(s.equal) && s.ref.high == Top(s.high)
  }

  ghost predicate Linked(s: Shape)
    reads Refs(s)
  {
    s.At? ==> Holds(s) && Linked(s.low) && Linked(s.equal) && Linked(s.high)
  }

  // The nodes all form the tree t below the node top.
  ghost predicate Forms(top: TSTree?, s: Shape, all: set<TSTree>)
    reads Refs(s)
  {
    top == Top(s) && Linked(s) && Distinct(s) && Refs(s) == all
  }

  lemma Unfold(s: Shape)
    requires s.At? && Linked(s) && Distinct(s)
    ensures Holds(s)
    ensures Linked(s.low) && Linked(s.equal) && Linked(s.high) && Distinct(s.low) && Distinct(s.equal)
    ensures Distinct(s.high)
    ensures Refs(s) == {s.ref} + Refs(s.low) + Refs(s.equal) + Refs(s.high)
    ensures s.ref !in Refs(s.low) && s.ref !in Refs(s.equal) && s.ref !in Refs(s.high)
    ensures Refs(s.low) !! Refs(s.equal) && Refs(s.low) !! Refs(s.high) && Refs(s.equal) !! Refs(s.high)
  {
  }

  lemma Fold(s: Shape)
    requires s.At? && Holds(s) && Linked(s.low) && Linked(s.equal) && Linked(s.high)
    ensures Linked(s)
  {
  }

  // A child that kept its nodes and gained new ones.
  lemma NewLow(s: Shape, t: Shape, key: Key, v: Value)
    requires s.At? && Distinct(s) && Distinct(t) && Refs(s.low) <= Refs(t) && Refs(t) - Refs(s.low) !! Refs(s)
    requires key != [] && key[0] < s.c && Plain(t) == Insert(Plain(s.low), key, v)
    ensures Distinct(s.(low := t)) && Refs(s.(low := t)) == Refs(s) + Refs(t)
    ensures Plain(s.(low := t)) == Insert(Plain(s), key, v)
  {
  }

  lemma NewEqual(s: Shape, t: Shape, key: Key, v: Value)
    requires s.At? && Distinct(s) && Distinct(t) && Refs(s.equal) <= Refs(t) && Refs(t) - Refs(s.equal) !! Refs(s)
    requires key != [] && key[0] == s.c && |key| > 1 && Plain(t) == Insert(Plain(s.equal), key[1..], v)
    ensures Distinct(s.(equal := t)) && Refs(s.(equal := t)) == Refs(s) + Refs(t)
    ensures Plain(s.(equal := t)) == Insert(Plain(s), key, v)
  {
  }

  lemma NewHigh(s: Shape, t: Shape, key: Key, v: Value)
    requires s.At? && Distinct(s) && Distinct(t) && Refs(s.high) <= Refs(t) && Refs(t) - Refs(s.high) !! Refs(s)
    requires key != [] && key[0] > s.c && Plain(t) == Insert(Plain(s.high), key, v)
    ensures Distinct(s.(high := t)) && Refs(s.(high := t)) == Refs(s) + Refs(t)
    ensures Plain(s.(high := t)) == Insert(Plain(s), key, v)
  {
  }

  // The node to insert at, made if there is none.
  method NodeFor(node: TSTree?, key: Key, value: Value, ghost s: Shape, ghost all: set<TSTree>)
    returns (n: TSTree, ghost s': Shape, ghost all': set<TSTree>)
    requires key != [] && Forms(node, s, all)
    ensures Forms(n, s', all') && all <= all' && fresh(all' - all) && s'.At?
    ensures Insert(Plain(s'), key, value) == Insert(Plain(s), key, value)
    ensures s' == if s.At? then s else At(n, key[0], None, Tip, Tip, Tip)
  {
    if node == null {
      n := new TSTree(key[0]);
      s', all' := At(n, key[0], None, Tip, Tip, Tip), {n};
    } else {
      n, s', all' := node, s, all;
    }
  }

  method InsertBase(node: TSTree?, key: Key, value: Value, ghost s: Shape, ghost all: set<TSTree>)
    returns (r: TSTree, ghost s': Shape, ghost all': set<TSTree>)
    requires key != [] && Forms(node, s, all)
    modifies all
    ensures Forms(r, s', all') && all <= all' && fresh(all' - all) && Plain(s') == Insert(Plain(s), key, value)
    decreases |key|, s
  {
    hide Linked, Distinct, Refs, Plain, Insert;
    var n;
    n, s', all' := NodeFor(node, key, value, s, all);
    Unfold(s');
    r := n;
    if key[0] < n.splitchar {
      var c;
      ghost var t, below;
      c, t, below := InsertBase(n.low, key, value, s'.low, Refs(s'.low));
      n.low := c;
      NewLow(s', t, key, value);
      s', all' := s'.(low := t), all' + below;
      Fold(s');
    } else if key[0] == n.splitchar {
      if |key| > 1 {
        var c;
        ghost var t, below;
        c, t, below := InsertBase(n.equal, key[1..], value, s'.equal, Refs(s'.equal));
        n.equal := c;
        NewEqual(s', t, key, value);
        s', all' := s'.(equal := t), all' + below;
        Fold(s');
      } else {
        NewValue(s', key, value);
        if n.value != None {
          return;
        }
        n.value := Some(value);
        s' := s'.(value := Some(value));
        Fold(s');
      }
    } else {
      var c;
      ghost var t, below;
      c, t, below := InsertBase(n.high, key, value, s'.high, Refs(s'.high));
      n.high := c;
      NewHigh(s', t, key, value);
      s', all' := s'.(high := t), all' + below;
      Fold(s');
    }
  }

  lemma NewValue(s: Shape, key: Key, v: Value)
    requires s.At? && Distinct(s) && key == [s.c]
    ensures Distinct(s.(value := Some(v))) && Refs(s.(value := Some(v))) == Refs(s)
    ensures Plain(if s.value.Some? then s else s.(value := Some(v))) == Insert(Plain(s), key, v)
  {
  }

  method Search(root: TSTree?, key: Key, ghost s: Shape) returns (value: Option<Value>)
    requires Linked(s) && root == Top(s)
    ensures value == if key != [] then Lookup(Plain(s), key) else if root != null then root.value else None
  {
    var node, i := root, 0;
    ghost var u := s;
    assert key[0..] == key;
    while i < |key| && node != null
      invariant 0 <= i <= |key| && Linked(u) && node == Top(u)
      invariant key == [] ==> u == s
      invariant i < |key| ==> Lookup(Plain(u), key[i..]) == Lookup(Plain(s), key)
      invariant i == |key| > 0 ==> node != null && node.value == Lookup(Plain(s), key)
      decreases |key| - i, u
    {
      if key[i] < node.splitchar {
        node := node.low;
        u := u.low;
      } else if key[i] == node.splitchar {
        assert key[i..][1..] == key[i + 1..];
        i := i + 1;
        if i < |key| {
          node := node.equal;
          u := u.equal;
        }
      } else {
        node := node.high;
        u := u.high;
      }
    }
    return if node != null then node.value else None;
  }

  // ----- longest prefix -------------------------------------------------------------

  // No proper prefix of key longer than p, up to i characters, is stored.
  ghost predicate NoneBetween(t: Tst, key: Key, p: nat, i: nat) {
    i <= |key| && forall q :: p < q <= i ==> Lookup(t, key[..q]) == None
  }

  // last holds the value of the longest stored prefix of at most i characters.
  ghost predicate Longest(t: Tst, key: Key, i: nat, last: Option<Value>) {
    i <= |key| &&
    match last
    case None => NoneBetween(t, key, 0, i)
    case Some(v) => exists p :: 0 < p <= i && Lookup(t, key[..p]) == last && NoneBetween(t, key, p, i)
  }

  // found is the value of some stored extension of key, of key itself if it is stored.
  ghost predicate Extension(t: Tst, key: Key, found: Option<Value>) {
    && key != [] && found.Some?
    && (exists j: Key :: j != [] && key <= j && Lookup(t, j) == found)
    && (Lookup(t, key).Some? ==> found == Lookup(t, key))
  }

  ghost predicate Extended(t: Tst, key: Key) {
    exists j: Key :: j != [] && key <= j && Lookup(t, j).Some?
  }

  lemma LongestStep(t: Tst, key: Key, i: nat, last: Option<Value>, v: Option<Value>)
    requires i < |key| && Longest(t, key, i, last) && Lookup(t, key[..i + 1]) == v
    ensures Longest(t, key, i + 1, if v.Some? then v else last)
  {
    if v.Some? {
      assert NoneBetween(t, key, i + 1, i + 1);
    } else if last.Some? {
      var p :| 0 < p <= i && Lookup(t, key[..p]) == last && NoneBetween(t, key, p, i);
      assert NoneBetween(t, key, p, i + 1);
    }
  }

  // Fallen off the tree, no key extends the query.
  lemma FallenOff(t: Tst, key: Key, i: nat)
    requires i < |key| && Under(t, key[..i], Leaf, key[i])
    ensures !Extended(t, key)
  {
    forall j: Key | j != [] && key <= j
      ensures Lookup(t, j).None?
    {
      assert j == key[..i] + j[i..] && j[i..][0] == key[i];
      assert Lookup(Leaf, j[i..]) == None;
    }
  }

  // i characters matched, u holds the keys that go on, last the best prefix so far.
  ghost predicate Walked(t: Tst, key: Key, i: nat, u: Tst, last: Option<Value>) {
    && i < |key| && Longest(t, key, i, last) && Under(t, key[..i], u, key[i])
    && Trail(t, key) == Behind(key[..i], Trail(u, key[i..]))
  }

  // A trail of u seen from above the path w.
  ghost function Behind(w: Key, r: Key): Key {
    if r == [] then [] else w + r
  }

  // u is the node of the whole key.
  ghost predicate Arrived(t: Tst, key: Key, u: Tst) {
    && key != [] && u.Node? && u.c == key[|key| - 1] && Under(t, key[..|key| - 1], u, u.c)
    && Trail(t, key) == key[..|key| - 1] + Chain(u)
  }

  lemma WalkStart(t: Tst, key: Key)
    requires key != []
    ensures Walked(t, key, 0, t, None)
  {
    UnderRoot(t, key[0]);
    assert key[..0] == [] && key[0..] == key && [] + Trail(t, key) == Trail(t, key);
  }

  lemma StepSide(t: Tst, key: Key, i: nat, u: Tst, last: Option<Value>)
    requires Walked(t, key, i, u, last) && u.Node? && key[i] != u.c
    ensures Walked(t, key, i, if key[i] < u.c then u.low else u.high, last)
  {
    UnderSide(t, key[..i], u, key[i]);
  }

  lemma StepEqual(t: Tst, key: Key, i: nat, u: Tst, last: Option<Value>)
    requires Walked(t, key, i, u, last) && u.Node? && key[i] == u.c
    ensures i + 1 == |key| ==> Arrived(t, key, u)
    ensures i + 1 < |key| ==> Walked(t, key, i + 1, u.equal, if u.value.Some? then u.value else last)
  {
    hide Under, Longest;
    assert key[i..][1..] == key[i + 1..];
    if i + 1 < |key| {
      assert key[..i + 1] + Trail(u.equal, key[i + 1..]) == key[..i] + ([u.c] + Trail(u.equal, key[i + 1..]));
      UnderEqual(t, key[..i], u, key[i + 1]);
      assert key[..i + 1] == key[..i] + [u.c];
      LongestStep(t, key, i, last, u.value);
    }
  }

  lemma FallOff(t: Tst, key: Key, i: nat, last: Option<Value>)
    requires Walked(t, key, i, Leaf, last)
    ensures !Extended(t, key) && Longest(t, key, |key| - 1, last)
  {
    FallenOff(t, key, i);
    FallenOffLongest(t, key, i, last);
  }

  function ValueOf(node: TSTree?): Option<Value>
    reads node
  {
    if node != null then node.value else None
  }

  // The walk of the prefix search: to the node of the whole key, or off the tree.
  method WalkDown(root: TSTree?, key: Key, ghost s: Shape) returns (node: TSTree?, last: TSTree?, ghost u: Shape)
    requires key != [] && Linked(s) && root == Top(s) && Fruitful(Plain(s))
    ensures Linked(u) && node == Top(u) && Fruitful(Plain(u))
    ensures node != null ==> Arrived(Plain(s), key, Plain(u))
    ensures node == null ==> !Extended(Plain(s), key) && Longest(Plain(s), key, |key| - 1, ValueOf(last))
  {
    hide Walked, Arrived, Extended, Longest, Refs;
    ghost var t := Plain(s);
    var i := 0;
    node, last, u := root, null, s;
    WalkStart(t, key);
    while i < |key| && node != null
      invariant 0 <= i <= |key| && Linked(u) && node == Top(u) && Fruitful(Plain(u))
      invariant if i < |key| then Walked(t, key, i, Plain(u), ValueOf(last)) else Arrived(t, key, Plain(u))
      invariant i == |key| ==> node != null
      decreases |key| - i, u
    {
      if key[i] < node.splitchar {
        StepSide(t, key, i, Plain(u), ValueOf(last));
        node := node.low;
        u := u.low;
      } else if key[i] == node.splitchar {
        StepEqual(t, key, i, Plain(u), ValueOf(last));
        i := i + 1;
        if i < |key| {
          if node.value != None {
            last := node;
          }
          node := node.equal;
          u := u.equal;
        }
      } else {
        StepSide(t, key, i, Plain(u), ValueOf(last));
        node := node.high;
        u := u.high;
      }
    }
    if node == null {
      FallOff(t, key, i, ValueOf(last));
    }
  }

  method SearchPrefix(root: TSTree?, key: Key, ghost s: Shape) returns (value: Option<Value>)
    requires Linked(s) && root == Top(s) && Fruitful(Plain(s))
    ensures key == [] ==> value == None
    ensures key != [] ==>
      if Extended(Plain(s), key)
      then Extension(Plain(s), key, value) && Nearest(Plain(s), key, Trail(Plain(s), key), value)
      else Longest(Plain(s), key, |key| - 1, value)
  {
    hide Under, Longest, Extended, Extension, Refs, Nearest, Trail, Lookup;
    if |key| == 0 {
      return None;
    }
    ghost var t, u, w := Plain(s), s, key[..|key| - 1];
    var node, last;
    node, last, u := WalkDown(root, key, s);
    if node == null {
      return ValueOf(last);
    }
    assert key == w + [u.c];
    ghost var way := Trail(t, key);
    while node != null && node.value == None
      invariant u.At? && Linked(u) && node == Top(u) && Fruitful(Plain(u)) && Under(t, w, Plain(u), u.c)
      invariant key <= w + [u.c] && (Lookup(t, key).Some? ==> w + [u.c] == key)
      invariant way == w + Chain(Plain(u)) && NoneOnWay(t, way, |key|, |w|)
      decreases u
    {
      UnderEqual(t, w, Plain(u), u.equal.c);
      OneFurther(t, way, key, w, Plain(u));
      w := w + [u.c];
      node := node.equal;
      u := u.equal;
    }
    UnderEqual(t, w, Plain(u), u.c);
    Extends(t, key, w + [u.c]);
    NearestHere(t, way, key, w, Plain(u));
    return node.value;
  }

  // No key of from up to n characters on the way is stored.
  ghost predicate NoneOnWay(t: Tst, way: Key, from: nat, n: nat) {
    n <= |way| && forall j :: from <= j <= n && 0 < j ==> Lookup(t, way[..j]) == None
  }

  lemma OneFurther(t: Tst, way: Key, key: Key, w: Key, u: Tst)
    requires u.Node? && way == w + Chain(u) && NoneOnWay(t, way, |key|, |w|) && Lookup(t, w + [u.c]) == None
    ensures way == w + [u.c] + Chain(u.equal) && NoneOnWay(t, way, |key|, |w| + 1)
  {
    hide Lookup, Chain;
    ChainSplits(u);
    assert way == w + [u.c] + Chain(u.equal) && way[..|w| + 1] == w + [u.c];
  }

  lemma ChainSplits(u: Tst)
    requires u.Node?
    ensures Chain(u) == [u.c] + Chain(u.equal)
  {
  }

  lemma NearestHere(t: Tst, way: Key, key: Key, w: Key, u: Tst)
    requires u.Node? && u.value.Some? && way == w + Chain(u) && NoneOnWay(t, way, |key|, |w|)
    requires key != [] && key <= w + [u.c] && Lookup(t, w + [u.c]) == u.value
    ensures Nearest(t, key, way, u.value)
  {
    hide Lookup, Chain;
    ChainSplits(u);
    assert way == w + [u.c] + Chain(u.equal) && way[..|w| + 1] == w + [u.c];
    assert NearestAt(t, key, way, u.value, |w| + 1);
  }

  lemma Extends(t: Tst, key: Key, j: Key)
    requires key != [] && key <= j && Lookup(t, j).Some? && (Lookup(t, key).Some? ==> j == key)
    ensures Extended(t, key) && Extension(t, key, Lookup(t, j))
  {
  }

  lemma FallenOffLongest(t: Tst, key: Key, i: nat, last: Option<Value>)
    requires i < |key| && Under(t, key[..i], Leaf, key[i]) && Longest(t, key, i, last)
    ensures Longest(t, key, |key| - 1, last)
  {
    forall q | i < q <= |key|
      ensures Lookup(t, key[..q]) == None
    {
      assert key[..q] == key[..i] + key[i..q] && key[i..q][0] == key[i];
      assert Lookup(Leaf, key[i..q]) == None;
    }
    if last.Some? {
      var p :| 0 < p <= i && Lookup(t, key[..p]) == last && NoneBetween(t, key, p, i);
      assert NoneBetween(t, key, p, |key| - 1);
    }
  }

  // ----- traversal --------------------------------------------------------------------

  ghost function Values(puts: seq<Put>): (vs: seq<Value>)
    ensures |vs| == |puts| && forall k :: 0 <= k < |puts| ==> vs[k] == puts[k].value
  {
    if puts == [] then [] else Values(puts[..|puts| - 1]) + [puts[|puts| - 1].value]
  }

  lemma {:induction false} ValuesConcat(a: seq<Put>, b: seq<Put>)
    ensures Values(a + b) == Values(a) + Values(b)
  {
    if b == [] {
      assert a + b == a;
    } else {
      ValuesConcat(a, b[..|b| - 1]);
      assert (a + b)[..|a + b| - 1] == a + b[..|b| - 1];
    }
  }

  // calls are the values handed to the callback, in order.
  method Traverse(node: TSTree?, ghost s: Shape, ghost w: Key, ghost all: set<TSTree>) returns (calls: seq<Value>)
    requires Linked(s) && node == Top(s) && all == Refs(s)
    ensures calls == Values(Visits(Plain(s), w))
    decreases s
  {
    hide Values, Refs, Own;
    NoValues();
    if node == null {
      return [];
    }
    RefsParts(s);
    ghost var t := Plain(s);
    var low, high, equal := [], [], [];
    if node.low != null {
      low := Traverse(node.low, s.low, w, Refs(s.low));
    }
    if node.high != null {
      high := Traverse(node.high, s.high, w, Refs(s.high));
    }
    if node.equal != null {
      equal := Traverse(node.equal, s.equal, w + [s.c], Refs(s.equal));
    }
    ValuesConcat(Visits(t.low, w), Visits(t.high, w));
    ValuesConcat(Visits(t.low, w) + Visits(t.high, w), Visits(t.equal, w + [s.c]));
    ValuesConcat(Visits(t.low, w) + Visits(t.high, w) + Visits(t.equal, w + [s.c]), Own(t, w));
    OwnValue(t, w);
    calls := low + high + equal;
    if node.value != None {
      calls := calls + [node.value.value];
    }
  }

  lemma RefsParts(s: Shape)
    requires s.At?
    ensures Refs(s.low) <= Refs(s) && Refs(s.high) <= Refs(s) && Refs(s.equal) <= Refs(s)
    ensures s.ref in Refs(s)
  {
  }

  lemma NoValues()
    ensures Values([]) == []
  {
  }

  lemma OwnValue(t: Tst, w: Key)
    requires t.Node?
    ensures Values(Own(t, w)) == if t.value.Some? then [t.value.value] else []
  {
  }
}
