// The buffered stream of bstrlib over a reader that delivers its bytes in chunks
// of its own choosing.
module Stream {
  import opened Bstrings

  // How many bytes a reader that would give the sizes one after the other answers, of
  // what is unread, when asked for n: at least one while there is one, and never more
  // than n. Zero or less only at the end.
  function Chunk(unread: seq<Byte>, sizes: seq<int>, n: int): (l: int)
    requires 0 < n
    ensures if unread == [] then -1 <= l <= 0 else 1 <= l <= n && l <= |unread|
  {
    var size := if sizes == [] then n else sizes[0];
    if unread == [] then if size < 0 then -1 else 0
    else if size < 1 then 1
    else if size <= n && size <= |unread| then size
    else if n <= |unread| then n
    else |unread|
  }

  // Every size a reader may give is given by some reader, and none but these.
  lemma EveryChunk(unread: seq<Byte>, n: int, l: int)
    requires 0 < n
    ensures (exists sizes :: Chunk(unread, sizes, n) == l) <==>
      if unread == [] then -1 <= l <= 0 else 1 <= l <= n && l <= |unread|
  {
    if if unread == [] then -1 <= l <= 0 else 1 <= l <= n && l <= |unread| {
      assert Chunk(unread, [l], n) == l;
    }
  }

  // The fread-like callback with its parameter: a source of bytes not yet read, and the
  // sizes of the chunks it will give. Nothing is assumed of the sizes.
  class Core {
    var unread: seq<Byte>
    var sizes: seq<int>

    constructor (unread: seq<Byte>, sizes: seq<int>)
      ensures this.unread == unread && this.sizes == sizes
    {
      this.unread, this.sizes := unread, sizes;
    }

    method Read(b: array<Byte>, off: nat, n: int) returns (l: int)
      requires 0 < n && off + n <= b.Length
      modifies this, b
      ensures l == Chunk(old(unread), old(sizes), n)
      ensures l > 0 ==> b[off..off + l] == old(unread)[..l] && unread == old(unread)[l..]
      ensures l <= 0 ==> unread == []
      ensures forall k :: 0 <= k < b.Length && !(off <= k < off + l) ==> b[k] == old(b[k])
    {
      l := Chunk(unread, sizes, n);
      if sizes != [] { sizes := sizes[1..]; }
      if l > 0 {
        forall k | 0 <= k < l {
          b[off + k] := unread[k];
        }
        unread := unread[l..];
      }
    }
  }

  class BStream {
    const buff: Bstring
    const core: Core
    var maxBuffSz: int
    var isEOF: bool

    ghost predicate Valid()
      reads this, buff, core
    {
      && buff.Valid() && buff.slen < buff.mlen && 0 < maxBuffSz
      && (isEOF ==> core.unread == [])
    }

    // The virtual stream: what is buffered, then what the core still holds.
    ghost function Pending(): seq<Byte>
      requires buff.Readable()
      reads this, buff, buff.data, core
    {
      buff.Contents() + core.unread
    }

    constructor Open(core: Core)
      ensures Valid() && this.core == core && Pending() == core.unread
      ensures fresh(buff) && fresh(buff.data)
    {
      this.core := core;
      buff := new Bstring.Empty();
      maxBuffSz := 1024;
      isEOF := false;
    }
  }

  // How many bytes of v a line takes: up to and including the first terminator.
  ghost function LineLen(v: seq<Byte>, ts: set<Byte>): (n: nat)
    ensures n <= |v|
  {
    if v == [] then 0 else if v[0] in ts then 1 else 1 + LineLen(v[1..], ts)
  }

  ghost predicate Free(v: seq<Byte>, ts: set<Byte>) {
    forall k :: 0 <= k < |v| ==> v[k] !in ts
  }

  // The line is all of v, or ends in the first terminator of v.
  lemma {:induction false} LineLenMeaning(v: seq<Byte>, ts: set<Byte>)
    ensures var n := LineLen(v, ts);
      if Free(v, ts) then n == |v| else 0 < n && v[n - 1] in ts && Free(v[..n - 1], ts)
  {
    if v != [] && v[0] !in ts {
      LineLenMeaning(v[1..], ts);
      assert forall k :: 0 <= k < |v[1..]| ==> v[1..][k] == v[k + 1];
      assert forall k :: 1 <= k < |v| ==> v[k] == v[1..][k - 1];
      assert Free(v, ts) == Free(v[1..], ts);
    }
  }

  lemma {:induction false} LineLenSkips(a: seq<Byte>, b: seq<Byte>, ts: set<Byte>)
    requires Free(a, ts)
    ensures LineLen(a + b, ts) == |a| + LineLen(b, ts)
  {
    if a == [] {
      assert a + b == b;
    } else {
      LineLenSkips(a[1..], b, ts);
      assert (a + b)[1..] == a[1..] + b;
    }
  }

  lemma LineLenAt(front: seq<Byte>, c: seq<Byte>, i: nat, rest: seq<Byte>, ts: set<Byte>)
    requires Free(front, ts) && i < |c| && Free(c[..i], ts) && c[i] in ts
    ensures LineLen(front + (c + rest), ts) == |front| + i + 1
  {
    LineLenSkips(front, c + rest, ts);
    LineLenSkips(c[..i], c[i..] + rest, ts);
    assert c + rest == c[..i] + (c[i..] + rest);
  }

  // A line ends at position i of the part c of v behind a free front.
  lemma LineEndsAt(v: seq<Byte>, ts: set<Byte>, front: seq<Byte>, c: seq<Byte>, i: nat, rest: seq<Byte>)
    requires v == front + (c + rest) && Free(front, ts) && i < |c| && Free(c[..i], ts) && c[i] in ts
    ensures var n := LineLen(v, ts);
      n == |front| + i + 1 && v[..n] == front + c[..i + 1] && v[n..] == c[i + 1..] + rest
  {
    hide LineLen, Free;
    LineLenAt(front, c, i, rest, ts);
    assert v[..|front| + i + 1] == front + (c + rest)[..i + 1];
    assert (c + rest)[i + 1..] == c[i + 1..] + rest;
  }

  // r was given the first line of v and the stream delivers what follows it.
  ghost predicate LineRead(r: Bstring, s: BStream, r0: seq<Byte>, v: seq<Byte>, ts: set<Byte>, ret: int)
    reads r, r.data, s, s.buff, s.buff.data, s.core
  {
    var n := LineLen(v, ts);
    && r.Valid() && s.Valid() && r.Terminated() && r.data != s.buff.data
    && r.Contents() == r0 + v[..n] && s.Pending() == v[n..]
    && ret == if v == [] then BSTR_ERR else BSTR_OK
  }

  // Scan the bytes c at off with a sentinel behind them.
  method ScanSentinel(b: array<Byte>, off: nat, l: nat, ts: set<Byte>, sentinel: Byte, ghost c: seq<Byte>)
    returns (i: nat)
    requires off + l < b.Length && sentinel in ts && c == b[off..off + l]
    modifies b
    ensures i <= l && forall k :: 0 <= k < off + l ==> b[k] == old(b[k])
    ensures Free(c[..i], ts) && (i < l ==> c[i] in ts)
  {
    b[off + l] := sentinel;
    i := 0;
    while b[off + i] !in ts
      invariant i <= l && Free(c[..i], ts)
      decreases l - i
    {
      assert b[off + i] == c[i];
      i := i + 1;
    }
  }

  // A chunk c read from the core straight behind the contents of r and scanned.
  method ReadChunk(r: Bstring, s: BStream, ts: set<Byte>, sentinel: Byte) returns (l: int, i: nat, ghost c: seq<Byte>)
    requires r.Valid() && s.Valid() && r.data != s.buff.data && sentinel in ts
    modifies r, r.data, s.core
    ensures r.slen == old(r.slen) && r.Valid() && r.Contents() == old(r.Contents())
    ensures (r.data == old(r.data) || fresh(r.data))
    ensures l <= s.maxBuffSz && old(s.core.unread) == c + s.core.unread
    ensures if l <= 0 then c == [] && s.core.unread == [] && r.slen < r.mlen
            else l == |c| && r.slen + l < r.mlen && r.data[r.slen..r.slen + l] == c
    ensures l > 0 ==> i <= l && Free(c[..i], ts) && (i < l ==> c[i] in ts)
  {
    ghost var was, v := r.Contents(), s.core.unread;
    var ret := r.Balloc(r.slen + s.maxBuffSz + 1);
    l := s.core.Read(r.data, r.slen, s.maxBuffSz);
    assert r.Contents() == was;
    c, i := [], 0;
    if l > 0 {
      c := v[..l];
      i := ScanSentinel(r.data, r.slen, l, ts, sentinel, c);
      assert r.Contents() == was && r.data[r.slen..r.slen + l] == c;
    }
  }

  // Move the first x of the l bytes c held in the buffer block to r.
  method TakeFront(r: Bstring, s: BStream, l: nat, x: nat, ghost c: seq<Byte>)
    requires r.Valid() && s.Valid() && r != s.buff && r.data != s.buff.data
    requires x <= l < s.buff.mlen && c == s.buff.data[..l]
    modifies r, r.data, s.buff`slen, s.buff.data
    ensures r.Valid() && s.Valid() && r.Terminated() && (r.data == old(r.data) || fresh(r.data))
    ensures r.Contents() == old(r.Contents()) + c[..x] && s.buff.Contents() == c[x..]
  {
    assert s.buff.data[..x] == c[..x];
    r.ConcatBlock(s.buff.data, x);
    s.buff.slen := l;
    assert s.buff.Contents() == c;
    var rc := s.buff.Delete(0, x);
    assert c[..0] + c[x..] == c[x..];
  }

  // The terminator stands at i in the chunk of l bytes read behind r: the line is
  // accepted, the over-read goes to the buffer.
  method PushBack(r: Bstring, s: BStream, l: nat, i: nat, ghost c: seq<Byte>)
    requires r.Valid() && s.Valid() && r != s.buff && r.data != s.buff.data
    requires i < l && r.slen + l < r.mlen && l < s.buff.mlen && c == r.data[r.slen..r.slen + l]
    modifies r`slen, r.data, s.buff`slen, s.buff.data
    ensures r.Valid() && s.Valid() && r.Terminated()
    ensures r.Contents() == old(r.Contents()) + c[..i + 1] && s.buff.Contents() == c[i + 1..]
  {
    ghost var was := r.Contents();
    var from := r.slen + i + 1;
    s.buff.slen := l - (i + 1);
    MemMove(s.buff.data, 0, r.data, from, l - (i + 1));
    assert s.buff.Contents() == c[i + 1..];
    assert r.data[..from] == was + c[..i + 1];
    r.slen := from;
    r.data[r.slen] := 0;
    assert r.Contents() == was + c[..i + 1];
  }

  // The direct reads into the destination, the buffer having been used up.
  method ReadOn(r: Bstring, s: BStream, ts: set<Byte>, sentinel: Byte, rlo: int, ghost r0: seq<Byte>,
      ghost v: seq<Byte>)
    returns (ret: int)
    requires r.Valid() && s.Valid() && r != s.buff && r.data != s.buff.data && sentinel in ts
    requires s.maxBuffSz < s.buff.mlen && rlo == |r0|
    requires r.Contents() == r0 + s.buff.Contents() && v == s.Pending() && Free(s.buff.Contents(), ts)
    modifies s`isEOF, s.buff`slen, s.buff.data, s.core, r, r.data
    ensures LineRead(r, s, r0, v, ts, ret) && (r.data == old(r.data) || fresh(r.data))
  {
    hide LineLen, Free, LineRead;
    ghost var front := s.buff.Contents();
    while true
      invariant r.Valid() && s.Valid() && r.data != s.buff.data && (r.data == old(r.data) || fresh(r.data))
      invariant r.Contents() == r0 + front && v == front + s.core.unread && Free(front, ts)
      decreases |s.core.unread|
    {
      var l, i, c := ReadChunk(r, s, ts, sentinel);
      Regroup(front, c, s.core.unread);
      if l <= 0 {
        ret := EndOfStream(r, s, rlo, r0, ts, v);
        return;
      }
      if i < l {
        ret := FinishLine(r, s, l, i, ts, r0, front, c, v);
        return;
      }
      AcceptChunk(r, l, r0, front, c, ts);
      front := front + c;
    }
  }

  method FinishLine(r: Bstring, s: BStream, l: nat, i: nat, ghost ts: set<Byte>, ghost r0: seq<Byte>,
      ghost front: seq<Byte>, ghost c: seq<Byte>, ghost v: seq<Byte>)
    returns (ret: int)
    requires r.Valid() && s.Valid() && r != s.buff && r.data != s.buff.data
    requires i < l && r.slen + l < r.mlen && l < s.buff.mlen && c == r.data[r.slen..r.slen + l]
    requires r.Contents() == r0 + front && v == front + (c + s.core.unread)
    requires Free(front, ts) && Free(c[..i], ts) && c[i] in ts
    modifies r`slen, r.data, s.buff`slen, s.buff.data
    ensures LineRead(r, s, r0, v, ts, ret)
  {
    hide LineLen, Free;
    LineEndsAt(v, ts, front, c, i, s.core.unread);
    PushBack(r, s, l, i, c);
    ret := BSTR_OK;
  }

  lemma FreeJoin(a: seq<Byte>, b: seq<Byte>, ts: set<Byte>)
    requires Free(a, ts) && Free(b, ts)
    ensures Free(a + b, ts)
  {
  }

  lemma Regroup(a: seq<Byte>, b: seq<Byte>, c: seq<Byte>)
    ensures a + (b + c) == a + b + c
    ensures b == [] && c == [] ==> a + (b + c) == a
  {
  }

  method EndOfStream(r: Bstring, s: BStream, rlo: int, ghost r0: seq<Byte>, ghost ts: set<Byte>, ghost v: seq<Byte>)
    returns (ret: int)
    requires r.Valid() && s.Valid() && r.slen < r.mlen && r != s.buff && r.data != s.buff.data && s.core.unread == []
    requires Free(v, ts) && r.Contents() == r0 + v && rlo == |r0|
    modifies r.data, s.buff`slen, s`isEOF
    ensures LineRead(r, s, r0, v, ts, ret)
  {
    LineLenMeaning(v, ts);
    hide LineLen, Free;
    r.data[r.slen] := 0;
    s.buff.slen := 0;
    s.isEOF := true;
    assert r.Contents() == r0 + v && v[..|v|] == v;
    ret := if r.slen == rlo then BSTR_ERR else BSTR_OK;
  }

  // The l bytes c behind r become part of it.
  method Accept(r: Bstring, l: nat, ghost c: seq<Byte>)
    requires r.Valid() && r.slen + l < r.mlen && r.data[r.slen..r.slen + l] == c
    modifies r`slen
    ensures r.Valid() && r.slen < r.mlen && r.Contents() == old(r.Contents()) + c
  {
    assert r.data[..r.slen + l] == r.data[..r.slen] + r.data[r.slen..r.slen + l];
    r.slen := r.slen + l;
  }

  method AcceptChunk(r: Bstring, l: nat, ghost r0: seq<Byte>, ghost front: seq<Byte>, ghost c: seq<Byte>,
      ghost ts: set<Byte>)
    requires r.Valid() && r.slen + l < r.mlen && r.Contents() == r0 + front && r.data[r.slen..r.slen + l] == c
    requires Free(front, ts) && Free(c[..l], ts)
    modifies r`slen
    ensures r.Valid() && r.slen < r.mlen && r.Contents() == r0 + (front + c) && Free(front + c, ts)
  {
    assert c[..l] == c;
    FreeJoin(front, c, ts);
    Regroup(r0, front, c);
    Accept(r, l, c);
  }

  // The terminator stands in the buffer already.
  method LineInBuffer(r: Bstring, s: BStream, l: nat, i: nat, ghost ts: set<Byte>, ghost c: seq<Byte>,
      ghost v: seq<Byte>) returns (ret: int)
    requires r.Valid() && s.Valid() && r != s.buff && r.data != s.buff.data && v == c + s.core.unread
    requires i < l < s.buff.mlen && c == s.buff.data[..l] && Free(c[..i], ts) && c[i] in ts
    modifies r, r.data, s.buff`slen, s.buff.data
    ensures LineRead(r, s, old(r.Contents()), v, ts, ret) && (r.data == old(r.data) || fresh(r.data))
  {
    assert v == [] + (c + s.core.unread) && Free([], ts);
    hide LineLen, Free;
    LineEndsAt(v, ts, [], c, i, s.core.unread);
    TakeFront(r, s, l, i + 1, c);
    ret := BSTR_OK;
  }

  // bsreadlna is the case of one terminator; bsreadlnsa differs in the test only.
  method ReadLine(r: Bstring, s: BStream, ts: set<Byte>, sentinel: Byte) returns (ret: int)
    requires r.Valid() && s.Valid() && r != s.buff && r.data != s.buff.data && sentinel in ts
    modifies s`isEOF, s.buff, s.buff.data, s.core, r, r.data
    ensures LineRead(r, s, old(r.Contents()), old(s.Pending()), ts, ret)
    ensures r.data == old(r.data) || fresh(r.data)
    ensures s.buff.data == old(s.buff.data) || fresh(s.buff.data)
  {
    hide LineLen, LineRead;
    ghost var r0, v, c := r.Contents(), s.Pending(), s.buff.Contents();
    var l := s.buff.slen;
    var rc := s.buff.Balloc(s.maxBuffSz + 1);
    assert s.buff.data[0..l] == c;
    var i := ScanSentinel(s.buff.data, 0, l, ts, sentinel, c);
    assert s.buff.data[..l] == c && r.Contents() == r0;
    if i < l {
      ret := LineInBuffer(r, s, l, i, ts, c, v);
      return;
    }
    var rlo := r.slen;
    r.ConcatBlock(s.buff.data, l);
    ret := ReadOn(r, s, ts, sentinel, rlo, r0, v);
  }

  ghost function BytesOf(b: seq<Byte>): set<Byte> {
    set k | 0 <= k < |b| :: b[k]
  }

  // buildCharField: the set of the bytes of a nonempty string.
  method BuildCharField(b: Bstring) returns (ret: int, cf: set<Byte>)
    requires b.Readable()
    ensures ret == if b.slen == 0 then BSTR_ERR else BSTR_OK
    ensures cf == BytesOf(b.Contents())
  {
    cf := {};
    ret := BSTR_ERR;
    for i := 0 to b.slen
      invariant cf == BytesOf(b.data[..i])
    {
      cf := cf + {b.data[i]};
      assert b.data[..i + 1][i] == b.data[i];
      assert forall k :: 0 <= k < i ==> b.data[..i + 1][k] == b.data[..i][k];
    }
    if b.slen > 0 { ret := BSTR_OK; }
  }

  method Bsreadlna(r: Bstring, s: BStream, terminator: Byte) returns (ret: int)
    requires r.Valid() && s.Valid() && r != s.buff && r.data != s.buff.data
    modifies s`isEOF, s.buff, s.buff.data, s.core, r, r.data
    ensures LineRead(r, s, old(r.Contents()), old(s.Pending()), {terminator}, ret)
    ensures r.data == old(r.data) || fresh(r.data)
    ensures s.buff.data == old(s.buff.data) || fresh(s.buff.data)
  {
    ret := ReadLine(r, s, {terminator}, terminator);
  }

  method Bsreadlnsa(r: Bstring, s: BStream, term: Bstring) returns (ret: int)
    requires r.Valid() && s.Valid() && r != s.buff && r.data != s.buff.data && term.Readable()
    modifies s`isEOF, s.buff, s.buff.data, s.core, r, r.data
    ensures if old(term.slen) == 0
      then ret == BSTR_ERR && r.Valid() && s.Valid() && r.Contents() == old(r.Contents())
        && s.Pending() == old(s.Pending())
      else LineRead(r, s, old(r.Contents()), old(s.Pending()), BytesOf(old(term.Contents())), ret)
    ensures r.data == old(r.data) || fresh(r.data)
    ensures s.buff.data == old(s.buff.data) || fresh(s.buff.data)
  {
    if term.slen == 1 {
      assert BytesOf(term.Contents()) == {term.data[0]};
      ret := Bsreadlna(r, s, term.data[0]);
      return;
    }
    if term.slen < 1 { return BSTR_ERR; }
    var rc, cf := BuildCharField(term);
    assert term.Contents()[0] in cf;
    ret := ReadLine(r, s, cf, term.data[0]);
  }

  // r was given the first bytes of v, at most up to length goal and with full unless
  // v ran out before; the stream still delivers the others.
  ghost predicate Delivered(r: Bstring, s: BStream, r0: seq<Byte>, v: seq<Byte>, goal: int, full: bool, ret: int)
    reads r, r.data, s, s.buff, s.buff.data, s.core
  {
    && r.Valid() && s.Valid() && r.data != s.buff.data && 0 <= r.slen - |r0| <= |v| && r.slen <= goal
    && r.Contents() == r0 + v[..r.slen - |r0|] && s.Pending() == v[r.slen - |r0|..]
    && (full ==> r.slen == goal || s.Pending() == [])
    && (r.slen == |r0| <==> v == [])
    && ret == if v == [] then BSTR_ERR else BSTR_OK
  }

  // The empty buffer and the room in r that let bsreada read straight into r, once.
  ghost predicate ShortCut(r: Bstring, s: BStream, n: int)
    reads r, s, s.buff
  {
    s.buff.slen == 0 && r.mlen > r.slen + n
  }

  function Least(a: int, b: int): int {
    if a <= b then a else b
  }

  // How many bytes of v a read of n gets: one chunk of the reader on the short cut, else
  // all n, or what is left.
  function Gain(v: seq<Byte>, sizes: seq<int>, n: int, short: bool): int
    requires 0 < n
  {
    if short then
      var l := Chunk(v, sizes, n);
      if l < 0 then 0 else l
    else Least(n, |v|)
  }

  // The read promises n bytes, or what is left. Whatever the reader's chunks, it keeps
  // the promise exactly when it does not take the short cut or one byte is all it asks
  // for or all there is.
  lemma PromiseKept(v: seq<Byte>, n: int, short: bool)
    requires 0 < n
    ensures (forall sizes :: Gain(v, sizes, n, short) == Least(n, |v|)) <==> !short || n == 1 || |v| <= 1
  {
    assert short && n > 1 && |v| > 1 ==> Gain(v, [1], n, short) == 1;
  }

  // On the short cut the reader decides: some reader makes it any amount from one byte to
  // the promised number, and none makes it less or more.
  lemma AnyAmount(v: seq<Byte>, n: int, k: int)
    requires 0 < n
    ensures (exists sizes :: Gain(v, sizes, n, true) == k)
      <==> if v == [] then k == 0 else 1 <= k <= Least(n, |v|)
  {
    EveryChunk(v, n, k);
    if v == [] {
      assert Gain(v, [], n, true) == 0;
    } else if 1 <= k <= Least(n, |v|) {
      assert Gain(v, [k], n, true) == k;
    }
  }

  // bsreada: up to n bytes.
  method ReadUpTo(r: Bstring, s: BStream, n: int) returns (ret: int)
    requires r.Valid() && s.Valid() && r != s.buff && r.data != s.buff.data
    modifies s`isEOF, s.buff, s.buff.data, s.core, r, r.data
    ensures r.data == old(r.data) || fresh(r.data)
    ensures s.buff.data == old(s.buff.data) || fresh(s.buff.data)
    ensures if 0 < n <= INT_MAX - old(r.slen)
      then
        && Delivered(r, s, old(r.Contents()), old(s.Pending()), old(r.slen) + n, !old(ShortCut(r, s, n)), ret)
        && r.slen - old(r.slen) == Gain(old(s.Pending()), old(s.core.sizes), n, old(ShortCut(r, s, n)))
      else
        && ret == BSTR_ERR && r.Valid() && s.Valid()
        && r.Contents() == old(r.Contents()) && s.Pending() == old(s.Pending())
  {
    hide Delivered;
    ghost var r0, v := r.Contents(), s.Pending();
    if n <= 0 || n > INT_MAX - r.slen { return BSTR_ERR; }
    var goal := n + r.slen;
    var l := s.buff.slen;
    if 0 == l {
      if s.isEOF {
        NothingDelivered(r, s, r0, v, goal, n);
        return BSTR_ERR;
      }
      if r.mlen > goal {
        ret := ReadDirect(r, s, goal, r0, v);
        return;
      }
    }
    ghost var c := s.buff.Contents();
    var rc := s.buff.Balloc(s.maxBuffSz + 1);
    assert r.Contents() == r0 + v[..0] && s.buff.data[..l] == c;
    ret := ReadLoop(r, s, goal, l, r0, v, c);
    AllDelivered(r, s, r0, v, goal, ret);
  }

  lemma NothingDelivered(r: Bstring, s: BStream, r0: seq<Byte>, v: seq<Byte>, goal: int, n: int)
    requires r.Valid() && s.Valid() && s.isEOF && s.buff.slen == 0 && v == s.Pending() && r.data != s.buff.data
    requires r0 == r.Contents() && goal == |r0| + n && n > 0
    ensures v == [] && forall full :: Delivered(r, s, r0, v, goal, full, BSTR_ERR)
  {
  }

  lemma AllDelivered(r: Bstring, s: BStream, r0: seq<Byte>, v: seq<Byte>, goal: int, ret: int)
    requires Delivered(r, s, r0, v, goal, true, ret)
    ensures r.slen - |r0| == Least(goal - |r0|, |v|)
  {
  }

  // Three bytes pending, three asked for, and a reader that starts with one: one byte is
  // delivered.
  method ShortRead() returns (got: int, left: int)
    ensures got == 1 && left == 2
  {
    var core := new Core([1, 2, 3], [1]);
    var s := new BStream.Open(core);
    var r := new Bstring.Empty();
    var ret := ReadUpTo(r, s, 3);
    got, left := r.slen, s.buff.slen + |s.core.unread|;
    assert |s.Pending()| == left;
  }

  // The bytes got so far are the first of v; c and what the core holds are the rest.
  ghost predicate Consumed(r: Bstring, s: BStream, l: int, r0: seq<Byte>, v: seq<Byte>, c: seq<Byte>)
    requires r.Valid() && s.Valid()
    reads r, r.data, s, s.buff, s.buff.data, s.core
  {
    && 0 <= r.slen - |r0| <= |v| && r.Contents() == r0 + v[..r.slen - |r0|]
    && v[r.slen - |r0|..] == c + s.core.unread
    && 0 <= l < s.buff.mlen && s.buff.data[..l] == c && s.maxBuffSz < s.buff.mlen
  }

  ghost predicate AllTaken(r: Bstring, s: BStream, r0: seq<Byte>, v: seq<Byte>)
    reads r, r.data, s.core
  {
    r.Valid() && s.core.unread == [] && r.slen - |r0| == |v| && r.Contents() == r0 + v
  }

  method ReadLoop(r: Bstring, s: BStream, goal: int, l0: int, ghost r0: seq<Byte>, ghost v: seq<Byte>,
      ghost c0: seq<Byte>)
    returns (ret: int)
    requires r.Valid() && s.Valid() && r != s.buff && r.data != s.buff.data
    requires |r0| == r.slen < goal && Consumed(r, s, l0, r0, v, c0)
    modifies s`isEOF, s.buff`slen, s.buff.data, s.core, r, r.data
    ensures Delivered(r, s, r0, v, goal, true, ret) && (r.data == old(r.data) || fresh(r.data))
  {
    assert l0 >= 0;
    hide Consumed, Delivered, AllTaken;
    var l, orslen := l0, r.slen;
    ghost var c := c0;
    while true
      invariant r.Valid() && s.Valid() && r.data != s.buff.data && (r.data == old(r.data) || fresh(r.data))
      invariant orslen <= r.slen < goal && 0 <= l && Consumed(r, s, l, r0, v, c)
      decreases |s.core.unread|
    {
      if l + r.slen >= goal {
        ret := TakeLast(r, s, l, goal, orslen, r0, v, c);
        return;
      }
      l, c := TakeAllAndRead(r, s, l, goal, r0, v, c);
      if l <= 0 { break; }
    }
    ret := AtEnd(r, s, l, goal, orslen, r0, v);
  }

  method AtEnd(r: Bstring, s: BStream, l: int, goal: int, orslen: int, ghost r0: seq<Byte>, ghost v: seq<Byte>)
    returns (ret: int)
    requires s.Valid() && r != s.buff && r.data != s.buff.data && l <= 0 && AllTaken(r, s, r0, v) && r.slen < goal
    requires orslen == |r0|
    modifies s.buff`slen, s`isEOF
    ensures Delivered(r, s, r0, v, goal, true, ret)
  {
    var l' := if l < 0 then 0 else l;
    if l' == 0 { s.isEOF := true; }
    s.buff.slen := l';
    assert v[..|v|] == v;
    ret := if r.slen == orslen then BSTR_ERR else BSTR_OK;
  }

  method TakeLast(r: Bstring, s: BStream, l: nat, goal: int, orslen: int, ghost r0: seq<Byte>, ghost v: seq<Byte>,
      ghost c: seq<Byte>)
    returns (ret: int)
    requires r.Valid() && s.Valid() && r != s.buff && r.data != s.buff.data && Consumed(r, s, l, r0, v, c)
    requires r.slen < goal <= l + r.slen && orslen == |r0|
    modifies s.buff`slen, s.buff.data, r, r.data
    ensures Delivered(r, s, r0, v, goal, true, ret) && (r.data == old(r.data) || fresh(r.data))
  {
    var x := goal - r.slen;
    TakePart(v, r.slen - |r0|, r0, c, s.core.unread, x);
    TakeFront(r, s, l, x, c);
    ret := if r.slen == orslen then BSTR_ERR else BSTR_OK;
  }

  lemma TakePart(v: seq<Byte>, k: nat, r0: seq<Byte>, c: seq<Byte>, rest: seq<Byte>, x: nat)
    requires k <= |v| && v[k..] == c + rest && x <= |c|
    ensures k + x <= |v| && r0 + v[..k] + c[..x] == r0 + v[..k + x] && v[k + x..] == c[x..] + rest
  {
    assert v[k + x..] == v[k..][x..];
    assert c[..x] == v[k..][..x] == v[k..k + x];
  }

  // All l bytes held in the buffer block go to r.
  method TakeAll(r: Bstring, s: BStream, l: nat, ghost r0: seq<Byte>, ghost v: seq<Byte>, ghost c: seq<Byte>)
    requires r.Valid() && s.Valid() && r != s.buff && r.data != s.buff.data && Consumed(r, s, l, r0, v, c)
    modifies r, r.data
    ensures r.Valid() && r.data != s.buff.data && (r.data == old(r.data) || fresh(r.data))
    ensures r.slen == old(r.slen) + l && 0 <= r.slen - |r0| <= |v|
    ensures r.Contents() == r0 + v[..r.slen - |r0|] && v[r.slen - |r0|..] == s.core.unread
    ensures s.maxBuffSz < s.buff.mlen
  {
    assert c[..l] == c && c[l..] == [] && c[l..] + s.core.unread == s.core.unread;
    TakePart(v, r.slen - |r0|, r0, c, s.core.unread, l);
    r.ConcatBlock(s.buff.data, l);
  }

  method TakeAllAndRead(r: Bstring, s: BStream, l: nat, goal: int, ghost r0: seq<Byte>, ghost v: seq<Byte>,
      ghost c: seq<Byte>)
    returns (l': int, ghost c': seq<Byte>)
    requires r.Valid() && s.Valid() && r != s.buff && r.data != s.buff.data && Consumed(r, s, l, r0, v, c)
    requires l + r.slen < goal
    modifies s.buff.data, s.core, r, r.data
    ensures r.Valid() && s.Valid() && r.data != s.buff.data && (r.data == old(r.data) || fresh(r.data))
    ensures r.slen == old(r.slen) + l
    ensures if l' <= 0 then AllTaken(r, s, r0, v)
            else l' <= goal - r.slen && |s.core.unread| < old(|s.core.unread|) && Consumed(r, s, l', r0, v, c')
  {
    TakeAll(r, s, l, r0, v, c);
    l' := goal - r.slen;
    if l' > s.maxBuffSz { l' := s.maxBuffSz; }
    l', c' := Refill(r, s, l');
    assert v[..|v|] == v;
  }

  // A read of up to n bytes into the emptied buffer block.
  method Refill(r: Bstring, s: BStream, n: int) returns (l: int, ghost c: seq<Byte>)
    requires r.Valid() && s.Valid() && r.data != s.buff.data && 0 < n < s.buff.mlen
    modifies s.buff.data, s.core
    ensures s.Valid() && r.Valid() && r.Contents() == old(r.Contents()) && l <= n
    ensures old(s.core.unread) == c + s.core.unread
    ensures if l <= 0 then s.core.unread == [] && c == []
            else s.buff.data[..l] == c && |s.core.unread| < old(|s.core.unread|)
  {
    ghost var rest := s.core.unread;
    l := s.core.Read(s.buff.data, 0, n);
    c := if l > 0 then rest[..l] else [];
    assert l > 0 ==> s.buff.data[..l] == s.buff.data[0..0 + l] == c;
  }

  // The read straight into r.
  method ReadDirect(r: Bstring, s: BStream, goal: int, ghost r0: seq<Byte>, ghost v: seq<Byte>) returns (ret: int)
    requires r.Valid() && s.Valid() && r != s.buff && r.data != s.buff.data && r.slen < goal < r.mlen
    requires r.Contents() == r0 && s.buff.slen == 0 && v == s.core.unread
    modifies s`isEOF, s.core, r`slen, r.data
    ensures Delivered(r, s, r0, v, goal, false, ret)
    ensures r.slen - |r0| == Gain(v, old(s.core.sizes), goal - |r0|, true)
  {
    hide Delivered;
    var l := s.core.Read(r.data, r.slen, goal - r.slen);
    assert r.data[..r.slen] == r0;
    if 0 >= l || l > goal - r.slen {
      s.isEOF := true;
      NothingDelivered(r, s, r0, v, goal, goal - |r0|);
      return BSTR_ERR;
    }
    assert r.data[r.slen..r.slen + l] == v[..l];
    Accept(r, l, v[..l]);
    r.data[r.slen] := 0;
    assert r.Contents() == r0 + v[..l] && s.Pending() == v[l..];
    SomeDelivered(r, s, r0, v, goal, l);
    ret := BSTR_OK;
  }

  lemma SomeDelivered(r: Bstring, s: BStream, r0: seq<Byte>, v: seq<Byte>, goal: int, l: int)
    requires r.Valid() && s.Valid() && r.data != s.buff.data && 0 < l <= |v|
    requires r.Contents() == r0 + v[..l] && s.Pending() == v[l..] && r.slen == |r0| + l <= goal
    ensures Delivered(r, s, r0, v, goal, false, BSTR_OK)
  {
  }

  // bsunread
  method Unread(s: BStream, b: Bstring) returns (ret: int)
    requires s.Valid() && b.Readable() && b != s.buff && b.data != s.buff.data
    modifies s.buff, s.buff.data
    ensures s.Valid() && (s.buff.data == old(s.buff.data) || fresh(s.buff.data))
    ensures ret == if old(s.buff.slen) + b.slen < INT_MAX then BSTR_OK else BSTR_ERR
    ensures s.Pending() == (if ret == BSTR_OK then b.Contents() else []) + old(s.Pending())
  {
    hide Inserted;
    InsertedFront(s.buff.Contents(), b.Contents(), 0x3F);
    assert b.data[0..b.slen] == b.Contents();
    ret := s.buff.InsertBlock(0, b.data, 0, b.slen, 0x3F);
  }
}
