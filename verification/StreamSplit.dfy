// bssplitscb: the pieces of a stream between separator bytes, handed to a callback
// one by one, each at the moment its separator has been read.
module StreamSplit {
  import opened Bstrings
  import opened Stream

  const BSSSC_BUFF_LEN := 256

  // What the callback was given: the offset of a piece in the stream, and the piece.
  datatype Call = Call(ofs: int, entry: seq<Byte>)

  // The number of bytes in front of the first separator.
  ghost function Cut(v: seq<Byte>, ts: set<Byte>): (n: nat)
    ensures n <= |v|
  {
    if v == [] || v[0] in ts then 0 else 1 + Cut(v[1..], ts)
  }

  // All pieces of v, the first of them at offset p.
  ghost function Pieces(v: seq<Byte>, ts: set<Byte>, p: int): (cs: seq<Call>)
    ensures |cs| > 0
    decreases |v|
  {
    var n := Cut(v, ts);
    if n == |v| then [Call(p, v)]
    else [Call(p, v[..n])] + Pieces(v[n + 1..], ts, p + n + 1)
  }

  // The calls made when a negative answer of the callback stops the splitting, and
  // what is left of the stream then.
  ghost function Splitting(v: seq<Byte>, ts: set<Byte>, p: int, cb: Call -> int): (seq<Call>, seq<Byte>)
    decreases |v|
  {
    var n := Cut(v, ts);
    if n == |v| then ([Call(p, v)], [])
    else if cb(Call(p, v[..n])) < 0 then ([Call(p, v[..n])], v[n + 1..])
    else
      var (cs, rest) := Splitting(v[n + 1..], ts, p + n + 1, cb);
      ([Call(p, v[..n])] + cs, rest)
  }

  lemma {:induction false} CutMeaning(v: seq<Byte>, ts: set<Byte>)
    ensures var n := Cut(v, ts); Free(v[..n], ts) && (n < |v| ==> v[n] in ts)
  {
    if v != [] && v[0] !in ts {
      CutMeaning(v[1..], ts);
      var n := Cut(v, ts);
      assert v[..n] == [v[0]] + v[1..][..n - 1];
    }
  }

  lemma {:induction false} CutAt(front: seq<Byte>, rest: seq<Byte>, ts: set<Byte>)
    requires Free(front, ts) && (rest == [] || rest[0] in ts)
    ensures Cut(front + rest, ts) == |front|
  {
    if front != [] {
      CutAt(front[1..], rest, ts);
      assert (front + rest)[1..] == front[1..] + rest;
    } else {
      assert front + rest == rest;
    }
  }

  // The bytes e stand at lo in v and hold no separator.
  ghost predicate StandsAt(v: seq<Byte>, ts: set<Byte>, lo: int, e: seq<Byte>) {
    0 <= lo && lo + |e| <= |v| && v[lo..lo + |e|] == e && Free(e, ts)
  }

  // Piece j of cs stands at its offset in v and is followed by a separator and then by
  // the next piece, or by the end of v.
  ghost predicate PieceAt(v: seq<Byte>, ts: set<Byte>, p: int, cs: seq<Call>, j: int)
    requires 0 <= j < |cs|
  {
    var hi := cs[j].ofs - p + |cs[j].entry|;
    && StandsAt(v, ts, cs[j].ofs - p, cs[j].entry)
    && if j + 1 == |cs| then hi == |v| else cs[j + 1].ofs == p + hi + 1 && 0 <= hi < |v| && v[hi] in ts
  }

  // A piece of the text behind position n is a piece of the whole text.
  lemma PieceShifts(v: seq<Byte>, ts: set<Byte>, p: int, n: nat, ds: seq<Call>, c: Call, j: nat)
    requires n < |v| && j < |ds| && PieceAt(v[n + 1..], ts, p + n + 1, ds, j)
    ensures PieceAt(v, ts, p, [c] + ds, j + 1)
  {
    hide StandsAt;
    StandsBehind(v, ts, n, ds[j].ofs - (p + n + 1), ds[j].entry);
    assert ([c] + ds)[j + 1] == ds[j] && (j + 1 < |ds| ==> ([c] + ds)[j + 2] == ds[j + 1]);
  }

  lemma StandsBehind(v: seq<Byte>, ts: set<Byte>, n: nat, lo: int, e: seq<Byte>)
    requires n < |v| && StandsAt(v[n + 1..], ts, lo, e)
    ensures StandsAt(v, ts, lo + n + 1, e)
  {
    assert v[n + 1..][lo..lo + |e|] == v[lo + n + 1..lo + n + 1 + |e|];
  }

  lemma FirstPiece(v: seq<Byte>, ts: set<Byte>, p: int, n: nat, ds: seq<Call>)
    requires n < |v| && Free(v[..n], ts) && v[n] in ts && |ds| > 0 && ds[0].ofs == p + n + 1
    ensures PieceAt(v, ts, p, [Call(p, v[..n])] + ds, 0)
  {
    hide StandsAt;
    FrontStands(v, ts, n);
    assert ([Call(p, v[..n])] + ds)[1] == ds[0];
  }

  lemma FrontStands(v: seq<Byte>, ts: set<Byte>, n: nat)
    requires n <= |v| && Free(v[..n], ts)
    ensures StandsAt(v, ts, 0, v[..n])
  {
  }

  ghost predicate AllPieces(v: seq<Byte>, ts: set<Byte>, p: int, cs: seq<Call>) {
    |cs| > 0 && cs[0].ofs == p && forall j :: 0 <= j < |cs| ==> PieceAt(v, ts, p, cs, j)
  }

  lemma AllPiecesShift(v: seq<Byte>, ts: set<Byte>, p: int, n: nat, ds: seq<Call>)
    requires n < |v| && Free(v[..n], ts) && v[n] in ts && AllPieces(v[n + 1..], ts, p + n + 1, ds)
    ensures AllPieces(v, ts, p, [Call(p, v[..n])] + ds)
  {
    hide PieceAt, Free;
    var cs := [Call(p, v[..n])] + ds;
    FirstPiece(v, ts, p, n, ds);
    forall j | 0 <= j < |cs|
      ensures PieceAt(v, ts, p, cs, j)
    {
      if j > 0 { PieceShifts(v, ts, p, n, ds, cs[0], j - 1); }
    }
  }

  // The pieces are the maximal separator-free stretches, in order and without a gap.
  lemma {:induction false} PiecesExact(v: seq<Byte>, ts: set<Byte>, p: int)
    ensures AllPieces(v, ts, p, Pieces(v, ts, p))
    decreases |v|
  {
    hide AllPieces, Free;
    var n := Cut(v, ts);
    CutMeaning(v, ts);
    if n == |v| {
      WholePiece(v, ts, p);
    } else {
      PiecesExact(v[n + 1..], ts, p + n + 1);
      AllPiecesShift(v, ts, p, n, Pieces(v[n + 1..], ts, p + n + 1));
    }
  }

  lemma WholePiece(v: seq<Byte>, ts: set<Byte>, p: int)
    requires Free(v[..|v|], ts)
    ensures AllPieces(v, ts, p, [Call(p, v)])
  {
    hide StandsAt, Free;
    assert v[..|v|] == v;
    FrontStands(v, ts, |v|);
  }

  // The calls cs are the pieces all up to the first one answered negatively; the
  // stream is left where the next piece starts.
  ghost predicate Stops(v: seq<Byte>, p: int, all: seq<Call>, cs: seq<Call>, rest: seq<Byte>, cb: Call -> int) {
    var k := |cs|;
    && 0 < k <= |all| && cs == all[..k] && (forall j :: 0 <= j < k - 1 ==> cb(all[j]) >= 0)
    && if k == |all| then rest == []
       else cb(all[k - 1]) < 0 && 0 <= all[k].ofs - p <= |v| && rest == v[all[k].ofs - p..]
  }

  lemma StopsBehind(v: seq<Byte>, p: int, n: nat, c: Call, ds: seq<Call>, cs: seq<Call>, rest: seq<Byte>,
      cb: Call -> int)
    requires n < |v| && cb(c) >= 0 && Stops(v[n + 1..], p + n + 1, ds, cs, rest, cb)
    ensures Stops(v, p, [c] + ds, [c] + cs, rest, cb)
  {
    var all, k := [c] + ds, |cs|;
    assert all[..k + 1] == [c] + ds[..k];
    assert forall j :: 0 < j < k ==> all[j] == ds[j - 1];
    if k < |ds| {
      assert v[n + 1..][ds[k].ofs - (p + n + 1)..] == v[ds[k].ofs - p..];
    }
  }

  lemma StopsAtFirst(v: seq<Byte>, p: int, n: nat, c: Call, ds: seq<Call>, cb: Call -> int)
    requires n < |v| && cb(c) < 0 && |ds| > 0 && ds[0].ofs == p + n + 1
    ensures Stops(v, p, [c] + ds, [c], v[n + 1..], cb)
  {
  }

  lemma {:induction false} SplittingStops(v: seq<Byte>, ts: set<Byte>, p: int, cb: Call -> int)
    ensures Stops(v, p, Pieces(v, ts, p), Splitting(v, ts, p, cb).0, Splitting(v, ts, p, cb).1, cb)
    decreases |v|
  {
    hide Splitting, Pieces, Stops, Cut;
    var n := Cut(v, ts);
    UnfoldSplitting(v, ts, p, cb);
    if n == |v| {
      StopsAtEnd(v, p, Call(p, v), cb);
    } else {
      var c, ds := Call(p, v[..n]), Pieces(v[n + 1..], ts, p + n + 1);
      FirstOffset(v[n + 1..], ts, p + n + 1);
      if cb(c) < 0 {
        StopsAtFirst(v, p, n, c, ds, cb);
      } else {
        var s := Splitting(v[n + 1..], ts, p + n + 1, cb);
        SplittingStops(v[n + 1..], ts, p + n + 1, cb);
        StopsBehind(v, p, n, c, ds, s.0, s.1, cb);
      }
    }
  }

  lemma StopsAtEnd(v: seq<Byte>, p: int, c: Call, cb: Call -> int)
    ensures Stops(v, p, [c], [c], [], cb)
  {
  }

  lemma FirstOffset(v: seq<Byte>, ts: set<Byte>, p: int)
    ensures Pieces(v, ts, p) != [] && Pieces(v, ts, p)[0].ofs == p
  {
  }

  lemma UnfoldSplitting(v: seq<Byte>, ts: set<Byte>, p: int, cb: Call -> int)
    ensures var n, s := Cut(v, ts), Splitting(v, ts, p, cb);
      n <= |v| &&
      if n == |v| then Pieces(v, ts, p) == [Call(p, v)] && s == ([Call(p, v)], [])
      else
        var c, r := Call(p, v[..n]), Splitting(v[n + 1..], ts, p + n + 1, cb);
        && Pieces(v, ts, p) == [c] + Pieces(v[n + 1..], ts, p + n + 1)
        && s == if cb(c) < 0 then ([c], v[n + 1..]) else ([c] + r.0, r.1)
  {
  }

  // The calls made of those intended, when a negative answer stops them.
  ghost function Until(cs: seq<Call>, cb: Call -> int): seq<Call> {
    if cs == [] then [] else [cs[0]] + if cb(cs[0]) < 0 then [] else Until(cs[1..], cb)
  }

  // All calls up to and including the first one answered negatively, or all of them.
  lemma {:induction false} UntilMeaning(cs: seq<Call>, cb: Call -> int)
    ensures var r := Until(cs, cb);
      && r <= cs && (forall j :: 0 <= j < |r| - 1 ==> cb(r[j]) >= 0)
      && (|r| < |cs| ==> r != [] && cb(r[|r| - 1]) < 0)
  {
    if cs != [] && cb(cs[0]) >= 0 {
      UntilMeaning(cs[1..], cb);
      assert cs == [cs[0]] + cs[1..];
    }
  }

  lemma UntilFirst(c: Call, cs: seq<Call>, cb: Call -> int)
    ensures Until([c] + cs, cb) == [c] + if cb(c) < 0 then [] else Until(cs, cb)
  {
    assert ([c] + cs)[1..] == cs;
  }

  // The splitting of a stream makes the calls for its pieces in this way.
  lemma {:induction false} SplittingIsUntil(v: seq<Byte>, ts: set<Byte>, p: int, cb: Call -> int)
    ensures Splitting(v, ts, p, cb).0 == Until(Pieces(v, ts, p), cb)
    decreases |v|
  {
    hide Splitting, Pieces, Until;
    var n := Cut(v, ts);
    UnfoldSplitting(v, ts, p, cb);
    if n == |v| {
      UntilFirst(Call(p, v), [], cb);
      UntilNothing(cb);
      assert [Call(p, v)] + [] == [Call(p, v)];
    } else {
      if cb(Call(p, v[..n])) >= 0 { SplittingIsUntil(v[n + 1..], ts, p + n + 1, cb); }
      UntilFirst(Call(p, v[..n]), Pieces(v[n + 1..], ts, p + n + 1), cb);
    }
  }

  lemma UntilNothing(cb: Call -> int)
    ensures Until([], cb) == []
  {
  }

  // What buff holds and what the stream still delivers make up v.
  ghost predicate Joined(buff: Bstring, s: BStream, v: seq<Byte>)
    reads buff, buff.data, s, s.buff, s.buff.data, s.core
  {
    buff.Valid() && s.Valid() && buff.data != s.buff.data && v == buff.Contents() + s.Pending()
  }

  // bsreada moves bytes from the stream to buff, at least one while there is one.
  method Refill(buff: Bstring, s: BStream, ghost v: seq<Byte>) returns (ret: int)
    requires buff != s.buff && Joined(buff, s, v) && |v| <= INT_MAX - BSSSC_BUFF_LEN
    modifies s`isEOF, s.buff, s.buff.data, s.core, buff, buff.data
    ensures Joined(buff, s, v)
    ensures buff.data == old(buff.data) || fresh(buff.data)
    ensures s.buff.data == old(s.buff.data) || fresh(s.buff.data)
    ensures buff.slen <= |v|
    ensures if ret == BSTR_ERR then s.Pending() == [] && |v| == buff.slen == old(buff.slen)
            else ret == BSTR_OK && old(buff.slen) < buff.slen
  {
    ghost var c, w := buff.Contents(), s.Pending();
    ret := ReadUpTo(buff, s, BSSSC_BUFF_LEN);
    ghost var k := buff.slen - |c|;
    assert c + w == c + w[..k] + w[k..];
  }

  // The calls made so far and what the rest v of the stream still makes of itself.
  ghost predicate Ahead(goal: (seq<Call>, seq<Byte>), calls: seq<Call>, v: seq<Byte>, ts: set<Byte>, p: int,
      cb: Call -> int) {
    goal == (calls + Splitting(v, ts, p, cb).0, Splitting(v, ts, p, cb).1)
  }

  lemma NextPiece(goal: (seq<Call>, seq<Byte>), calls: seq<Call>, v: seq<Byte>, ts: set<Byte>, p: int, cb: Call -> int,
      i: nat)
    requires Ahead(goal, calls, v, ts, p, cb) && i < |v| && Free(v[..i], ts) && v[i] in ts
    ensures var c := Call(p, v[..i]);
      if cb(c) < 0 then goal == (calls + [c], v[i + 1..])
      else Ahead(goal, calls + [c], v[i + 1..], ts, p + i + 1, cb)
  {
    CutAt(v[..i], v[i..], ts);
    assert v == v[..i] + v[i..];
    var c, next := Call(p, v[..i]), Splitting(v[i + 1..], ts, p + i + 1, cb).0;
    assert calls + [c] + next == calls + ([c] + next);
  }

  lemma LastPiece(goal: (seq<Call>, seq<Byte>), calls: seq<Call>, v: seq<Byte>, ts: set<Byte>, p: int, cb: Call -> int)
    requires Ahead(goal, calls, v, ts, p, cb) && Free(v, ts)
    ensures goal == (calls + [Call(p, v)], [])
  {
    CutAt(v, [], ts);
    assert v == v + [];
  }

  lemma Tail(v: seq<Byte>, c: seq<Byte>, held: seq<Byte>, unread: seq<Byte>, i: nat)
    requires i <= |c| && v == c + (held + unread)
    ensures v[i..] == c[i..] + held + unread
  {
  }

  // Unread what follows the separator at i, and let buff hold the piece before it.
  method UnreadTail(buff: Bstring, s: BStream, i: nat, ghost v: seq<Byte>)
    requires buff.Valid() && s.Valid() && buff != s.buff && buff.data != s.buff.data
    requires v == buff.Contents() + s.Pending() && i < buff.slen && |v| < INT_MAX
    modifies s.buff, s.buff.data, buff`slen
    ensures buff.Valid() && s.Valid() && buff.data != s.buff.data
    ensures (s.buff.data == old(s.buff.data) || fresh(s.buff.data))
    ensures buff.slen == 0 && s.Pending() == v[i + 1..]
  {
    hide Inserted;
    ghost var tail, held, unread := buff.data[i + 1..buff.slen], s.buff.Contents(), s.core.unread;
    Tail(v, buff.Contents(), held, unread, i + 1);
    assert buff.Contents()[i + 1..] == tail;
    InsertedFront(held, tail, 0x3F);
    assert buff.data[i + 1..i + 1 + (buff.slen - (i + 1))] == tail;
    var ret := s.buff.InsertBlock(0, buff.data, i + 1, buff.slen - (i + 1), 0x3F);
    assert s.buff.Contents() == tail + held;
    buff.slen := 0;
  }

  // All calls are made: the stream is what the splitting leaves, and the answer of
  // the last call, cut off at zero, is the result.
  ghost predicate Settled(goal: (seq<Call>, seq<Byte>), calls: seq<Call>, s: BStream, cb: Call -> int, ret: int)
    reads s, s.buff, s.buff.data, s.core
  {
    && s.Valid() && goal == (calls, s.Pending()) && |calls| > 0
    && ret == if cb(calls[|calls| - 1]) > 0 then 0 else cb(calls[|calls| - 1])
  }

  // The loop's state: v is what buff and the stream hold, its first i bytes are no
  // separators, and the calls made are those before v.
  ghost predicate Scanning(buff: Bstring, s: BStream, v: seq<Byte>, ts: set<Byte>, p: int, i: int, cb: Call -> int,
                           calls: seq<Call>, goal: (seq<Call>, seq<Byte>))
    reads buff, buff.data, s, s.buff, s.buff.data, s.core
  {
    && Joined(buff, s, v) && |v| <= INT_MAX - BSSSC_BUFF_LEN
    && 0 <= i <= buff.slen && Free(v[..i], ts) && Ahead(goal, calls, v, ts, p, cb)
  }

  // The separator stands at i: the callback gets the piece before it.
  method EmitPiece(buff: Bstring, s: BStream, ghost ts: set<Byte>, p: int, i: nat, cb: Call -> int, calls: seq<Call>,
                   ghost v: seq<Byte>, ghost goal: (seq<Call>, seq<Byte>))
    returns (ret: int, calls': seq<Call>, ghost v': seq<Byte>)
    requires buff != s.buff && Scanning(buff, s, v, ts, p, i, cb, calls, goal) && i < buff.slen && buff.data[i] in ts
    modifies s.buff, s.buff.data, buff`slen
    ensures buff.slen == 0 && |v'| < |v| - i && (s.buff.data == old(s.buff.data) || fresh(s.buff.data))
    ensures if ret < 0 then Settled(goal, calls', s, cb, ret)
      else Scanning(buff, s, v', ts, p + i + 1, 0, cb, calls', goal)
  {
    assert v[..i] == buff.data[..i] && v[i] == buff.data[i];
    NextPiece(goal, calls, v, ts, p, cb, i);
    var c := Call(p, buff.data[..i]);
    UnreadTail(buff, s, i, v);
    ret := cb(c);
    calls' := calls + [c];
    v' := v[i + 1..];
  }

  // The stream is exhausted: the callback gets what buff holds.
  method EmitLast(buff: Bstring, s: BStream, ghost ts: set<Byte>, p: int, cb: Call -> int, calls: seq<Call>,
                  ghost v: seq<Byte>, ghost goal: (seq<Call>, seq<Byte>)) returns (ret: int, calls': seq<Call>)
    requires Scanning(buff, s, v, ts, p, buff.slen, cb, calls, goal) && |v| == buff.slen
    ensures Settled(goal, calls', s, cb, ret)
  {
    assert buff.data[..buff.slen] == v == v[..buff.slen];
    LastPiece(goal, calls, v, ts, p, cb);
    var c := Call(p, buff.data[..buff.slen]);
    ret := cb(c);
    calls' := calls + [c];
    if 0 < ret { ret := 0; }
  }

  // No separator at i.
  lemma StepOver(buff: Bstring, s: BStream, v: seq<Byte>, ts: set<Byte>, p: int, i: int, cb: Call -> int,
                 calls: seq<Call>, goal: (seq<Call>, seq<Byte>))
    requires Scanning(buff, s, v, ts, p, i, cb, calls, goal) && i < buff.slen && buff.data[i] !in ts
    ensures Scanning(buff, s, v, ts, p, i + 1, cb, calls, goal) && i < |v|
  {
    assert v[i] == buff.data[i] && v[..i + 1] == v[..i] + [v[i]];
  }

  // More bytes for buff; without any, the stream is exhausted.
  method RefillScan(buff: Bstring, s: BStream, ghost ts: set<Byte>, p: int, i: int, cb: Call -> int, calls: seq<Call>,
                    ghost v: seq<Byte>, ghost goal: (seq<Call>, seq<Byte>))
    requires buff != s.buff && Scanning(buff, s, v, ts, p, i, cb, calls, goal) && i == buff.slen
    modifies s`isEOF, s.buff, s.buff.data, s.core, buff, buff.data
    ensures Scanning(buff, s, v, ts, p, i, cb, calls, goal) && (i == buff.slen ==> |v| == i)
    ensures (buff.data == old(buff.data) || fresh(buff.data)) && (s.buff.data == old(s.buff.data) || fresh(s.buff.data))
  {
    hide Ahead, Free, Splitting;
    var rc := Refill(buff, s, v);
  }

  method SplitLoop(buff: Bstring, s: BStream, ts: set<Byte>, cb: Call -> int, ghost v0: seq<Byte>,
      ghost goal: (seq<Call>, seq<Byte>))
    returns (ret: int, calls: seq<Call>)
    requires buff != s.buff && Scanning(buff, s, v0, ts, 0, 0, cb, [], goal)
    modifies s`isEOF, s.buff, s.buff.data, s.core, buff, buff.data
    ensures Settled(goal, calls, s, cb, ret)
  {
    hide Scanning, Settled;
    ret, calls := 0, [];
    var p, i := 0, 0;
    ghost var v := v0;
    while true
      invariant buff.data == old(buff.data) || fresh(buff.data)
      invariant s.buff.data == old(s.buff.data) || fresh(s.buff.data)
      invariant Scanning(buff, s, v, ts, p, i, cb, calls, goal)
      decreases |v| - i
    {
      InRange(buff, s, v, ts, p, i, cb, calls, goal);
      if i >= buff.slen {
        RefillScan(buff, s, ts, p, i, cb, calls, v, goal);
        InRange(buff, s, v, ts, p, i, cb, calls, goal);
        if i >= buff.slen {
          ret, calls := EmitLast(buff, s, ts, p, cb, calls, v, goal);
          break;
        }
      }
      if buff.data[i] in ts {
        ret, calls, v := EmitPiece(buff, s, ts, p, i, cb, calls, v, goal);
        if ret < 0 { break; }
        p := p + i + 1;
        i := -1;
      } else {
        StepOver(buff, s, v, ts, p, i, cb, calls, goal);
      }
      i := i + 1;
    }
  }

  lemma InRange(buff: Bstring, s: BStream, v: seq<Byte>, ts: set<Byte>, p: int, i: int, cb: Call -> int,
                calls: seq<Call>, goal: (seq<Call>, seq<Byte>))
    requires Scanning(buff, s, v, ts, p, i, cb, calls, goal)
    ensures 0 <= i <= buff.slen <= |v| && buff.slen <= buff.data.Length
  {
  }

  // An empty separator string delivers the whole stream in one call.
  method WholeStream(s: BStream, cb: Call -> int) returns (ret: int, calls: seq<Call>)
    requires s.Valid() && |s.Pending()| <= INT_MAX - BSSSC_BUFF_LEN
    modifies s`isEOF, s.buff, s.buff.data, s.core
    ensures s.Valid() && s.Pending() == [] && calls == [Call(0, old(s.Pending()))]
    ensures ret == if cb(calls[0]) > 0 then 0 else cb(calls[0])
  {
    var buff := new Bstring.Empty();
    ghost var v := s.Pending();
    var rc := 0;
    while rc >= 0
      invariant fresh(buff) && fresh(buff.data) && (s.buff.data == old(s.buff.data) || fresh(s.buff.data))
      invariant Joined(buff, s, v) && buff.slen <= |v| <= INT_MAX - BSSSC_BUFF_LEN
      invariant rc < 0 ==> s.Pending() == []
      decreases rc >= 0, |v| - buff.slen
    {
      rc := Refill(buff, s, v);
    }
    assert buff.data[..buff.slen] == v;
    calls := [Call(0, buff.data[..buff.slen])];
    ret := cb(calls[0]);
    if ret > 0 { ret := 0; }
  }

  method Bssplitscb(s: BStream, splitStr: Bstring, cb: Call -> int) returns (ret: int, calls: seq<Call>)
    requires s.Valid() && splitStr.Readable() && |s.Pending()| <= INT_MAX - BSSSC_BUFF_LEN
    modifies s`isEOF, s.buff, s.buff.data, s.core
    ensures s.Valid() && |calls| > 0
    ensures Splitting(old(s.Pending()), BytesOf(old(splitStr.Contents())), 0, cb) == (calls, s.Pending())
    ensures ret == if cb(calls[|calls| - 1]) > 0 then 0 else cb(calls[|calls| - 1])
  {
    hide Splitting, Scanning, Settled, Free;
    ghost var v, ts := s.Pending(), BytesOf(splitStr.Contents());
    if splitStr.slen == 0 {
      assert ts == {};
      WholeSplitting(v, cb);
      ret, calls := WholeStream(s, cb);
    } else {
      var rc, chrs := BuildCharField(splitStr);
      ghost var goal := Splitting(v, ts, 0, cb);
      var buff := new Bstring.Empty();
      NothingScanned(buff, s, v, chrs, cb, goal);
      ret, calls := SplitLoop(buff, s, chrs, cb, v, goal);
      SettledMeans(goal, calls, s, cb, ret);
    }
  }

  lemma WholeSplitting(v: seq<Byte>, cb: Call -> int)
    ensures Splitting(v, {}, 0, cb) == ([Call(0, v)], [])
  {
    CutAt(v, [], {});
    assert v + [] == v;
  }

  lemma NothingScanned(buff: Bstring, s: BStream, v: seq<Byte>, ts: set<Byte>, cb: Call -> int,
                       goal: (seq<Call>, seq<Byte>))
    requires buff.Valid() && s.Valid() && buff.data != s.buff.data && buff.slen == 0 && v == s.Pending()
    requires |v| <= INT_MAX - BSSSC_BUFF_LEN && goal == Splitting(v, ts, 0, cb)
    ensures Scanning(buff, s, v, ts, 0, 0, cb, [], goal)
  {
    hide Splitting;
    assert [] + goal.0 == goal.0 && buff.Contents() == [] && [] + v == v;
  }

  lemma SettledMeans(goal: (seq<Call>, seq<Byte>), calls: seq<Call>, s: BStream, cb: Call -> int, ret: int)
    requires Settled(goal, calls, s, cb, ret)
    ensures s.Valid() && goal == (calls, s.Pending()) && |calls| > 0
    ensures ret == if cb(calls[|calls| - 1]) > 0 then 0 else cb(calls[|calls| - 1])
  {
  }
}
