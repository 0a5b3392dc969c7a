// The list of split pieces, the splitting loops that fill it, and the join.
module SplitJoin {
  import opened Bstrings
  import opened Stream
  import opened StreamSplit
  import opened Splits

  class BstrList {
    var entry: array<seq<Byte>>
    var qty: int

    ghost predicate Valid()
      reads this
    {
      0 <= qty <= entry.Length && 0 < entry.Length
    }

    ghost function Entries(): seq<seq<Byte>>
      reads this, entry
      requires Valid()
    {
      entry[..qty]
    }

    constructor ()
      ensures Valid() && Entries() == [] && fresh(entry)
    {
      entry := new seq<Byte>[4](_ => []);
      qty := 0;
    }

    // bscb: append a copy of a part of b, in a table that doubles when full.
    method Bscb(b: Bstring, ofs: nat, len: nat)
      requires Valid() && b.Readable() && ofs + len <= b.slen
      modifies this, entry
      ensures Valid() && Entries() == old(Entries()) + [b.Contents()[ofs..ofs + len]]
      ensures fresh(entry) || entry == old(entry)
    {
      if qty >= entry.Length {
        var tbl := new seq<Byte>[entry.Length * 2](_ => []);
        forall k | 0 <= k < qty {
          tbl[k] := entry[k];
        }
        entry := tbl;
      }
      assert b.Contents()[ofs..ofs + len] == b.data[ofs..ofs + len];
      entry[qty] := b.data[ofs..ofs + len];
      qty := qty + 1;
    }
  }

  // With done collected, making the intended calls rest until one is answered negatively
  // leads to the collection goal and the return value answer.
  ghost predicate Collects(done: seq<seq<Byte>>, rest: seq<Call>, cb: Call -> int, goal: seq<seq<Byte>>, answer: int) {
    goal == done + Texts(Until(rest, cb)) && answer == Answer(Until(rest, cb), cb)
  }

  // A negative answer to the last call made is returned.
  ghost function Answer(calls: seq<Call>, cb: Call -> int): int {
    if calls != [] && cb(calls[|calls| - 1]) < 0 then cb(calls[|calls| - 1]) else BSTR_OK
  }

  lemma Collection(done: seq<seq<Byte>>, rest: seq<Call>, cb: Call -> int, goal: seq<seq<Byte>>, answer: int)
    requires goal == done + Texts(Until(rest, cb)) && answer == Answer(Until(rest, cb), cb)
    ensures Collects(done, rest, cb, goal, answer)
  {
  }

  lemma NextCall(done: seq<seq<Byte>>, c: Call, rest: seq<Call>, cb: Call -> int, goal: seq<seq<Byte>>, answer: int)
    requires Collects(done, [c] + rest, cb, goal, answer)
    ensures if cb(c) < 0 then goal == done + [c.entry] && answer == cb(c)
      else Collects(done + [c.entry], rest, cb, goal, answer)
  {
    UntilFirst(c, rest, cb);
    if cb(c) < 0 {
      TextsFirst(c, []);
      assert [c] + [] == [c];
    } else {
      TextsFirst(c, Until(rest, cb));
      AnswerLater(c, Until(rest, cb), cb);
    }
  }

  lemma AnswerLater(c: Call, calls: seq<Call>, cb: Call -> int)
    requires cb(c) >= 0
    ensures Answer([c] + calls, cb) == Answer(calls, cb)
  {
  }

  lemma NoMoreCalls(done: seq<seq<Byte>>, cb: Call -> int, goal: seq<seq<Byte>>, answer: int)
    requires Collects(done, [], cb, goal, answer)
    ensures goal == done && answer == BSTR_OK
  {
  }

  // The piece from p up to i, and the rest.
  lemma NextPieces(s: seq<Byte>, p: nat, i: nat, ts: set<Byte>)
    requires p <= i <= |s| && (forall k :: p <= k < i ==> s[k] !in ts) && (i == |s| || s[i] in ts)
    ensures Pieces(s[p..], ts, p) == [Call(p, s[p..i])] + if i < |s| then Pieces(s[i + 1..], ts, i + 1) else []
  {
    hide Cut;
    assert s[p..] == s[p..i] + s[i..];
    CutAt(s[p..i], s[i..], ts);
    if i < |s| {
      assert s[p..][i - p + 1..] == s[i + 1..] && s[p..][..i - p] == s[p..i];
    } else {
      assert s[p..i] == s[p..];
    }
  }

  // One call of the callback: it collects the piece, as bscb does, and answers cb.
  method Emit(list: BstrList, str: Bstring, p: nat, i: nat, cb: Call -> int) returns (ret: int)
    requires list.Valid() && str.Readable() && p <= i <= str.slen
    modifies list, list.entry
    ensures list.Valid() && (fresh(list.entry) || list.entry == old(list.entry))
    ensures list.Entries() == old(list.Entries()) + [str.Contents()[p..i]] && ret == cb(Call(p, str.Contents()[p..i]))
  {
    list.Bscb(str, p, i - p);
    assert str.Contents()[p..i] == str.data[p..i];
    ret := cb(Call(p, str.data[p..i]));
  }

  // The next of the intended calls.
  method EmitNext(list: BstrList, str: Bstring, p: nat, i: nat, cb: Call -> int, ghost rest: seq<Call>,
      ghost goal: seq<seq<Byte>>, ghost answer: int) returns (ret: int)
    requires list.Valid() && str.Readable() && p <= i <= str.slen
    requires Collects(list.Entries(), [Call(p, str.Contents()[p..i])] + rest, cb, goal, answer)
    modifies list, list.entry
    ensures list.Valid() && (fresh(list.entry) || list.entry == old(list.entry))
    ensures if ret < 0 then goal == list.Entries() && answer == ret
      else Collects(list.Entries(), rest, cb, goal, answer)
  {
    hide Collects;
    NextCall(list.Entries(), Call(p, str.Contents()[p..i]), rest, cb, goal, answer);
    ret := Emit(list, str, p, i, cb);
  }

  // The loop of bsplitcb and of bsplitscb.
  method SplitAtBytes(list: BstrList, str: Bstring, ts: set<Byte>, pos: nat, cb: Call -> int) returns (ret: int)
    requires list.Valid() && str.Readable() && pos <= str.slen
    modifies list, list.entry
    ensures list.Valid() && (fresh(list.entry) || list.entry == old(list.entry))
    ensures Collects(old(list.Entries()), Pieces(str.Contents()[pos..], ts, pos), cb, list.Entries(), ret)
  {
    hide Pieces, Texts, Until, Collects, Answer;
    ghost var s, all := str.Contents(), Pieces(str.Contents()[pos..], ts, pos);
    ghost var goal, answer := list.Entries() + Texts(Until(all, cb)), Answer(Until(all, cb), cb);
    Collection(list.Entries(), all, cb, goal, answer);
    var p := pos;
    while p <= str.slen
      invariant pos <= p <= str.slen + 1 && list.Valid() && (fresh(list.entry) || list.entry == old(list.entry))
      invariant Collects(list.Entries(), if p <= str.slen then Pieces(s[p..], ts, p) else [], cb, goal, answer)
      decreases str.slen + 1 - p
    {
      var i := p;
      while i < str.slen && str.data[i] !in ts
        invariant p <= i <= str.slen && forall k :: p <= k < i ==> s[k] !in ts
      {
        i := i + 1;
      }
      NextPieces(s, p, i, ts);
      ghost var rest := if i < |s| then Pieces(s[i + 1..], ts, i + 1) else [];
      ret := EmitNext(list, str, p, i, cb, rest, goal, answer);
      if ret < 0 { return; }
      p := i + 1;
    }
    NoMoreCalls(list.Entries(), cb, goal, answer);
    return BSTR_OK;
  }

  method Bsplitcb(list: BstrList, str: Bstring, splitChar: Byte, pos: int, cb: Call -> int) returns (ret: int)
    requires list.Valid() && str.Readable()
    modifies list, list.entry
    ensures list.Valid() && (fresh(list.entry) || list.entry == old(list.entry))
    ensures if 0 <= pos <= str.slen
      then Collects(old(list.Entries()), Pieces(str.Contents()[pos..], {splitChar}, pos), cb, list.Entries(), ret)
      else ret == BSTR_ERR && list.Entries() == old(list.Entries())
  {
    if pos < 0 || pos > str.slen { return BSTR_ERR; }
    ret := SplitAtBytes(list, str, {splitChar}, pos, cb);
  }

  // The set {b} is the bytes of a one-byte string.
  lemma OneByte(b: seq<Byte>)
    requires |b| == 1
    ensures BytesOf(b) == {b[0]}
  {
  }

  lemma WholeCollects(done: seq<seq<Byte>>, c: Call, cb: Call -> int)
    ensures Collects(done, [c], cb, done + [c.entry], if cb(c) < 0 then cb(c) else BSTR_OK)
  {
    UntilFirst(c, [], cb);
    assert [c] + [] == [c];
    TextsFirst(c, []);
  }

  method Bsplitscb(list: BstrList, str: Bstring, splitStr: Bstring, pos: int, cb: Call -> int) returns (ret: int)
    requires list.Valid() && str.Readable() && splitStr.Readable()
    modifies list, list.entry
    ensures list.Valid() && (fresh(list.entry) || list.entry == old(list.entry))
    ensures if 0 <= pos <= str.slen
      then
        var all := if splitStr.slen == 0 then [Call(0, str.Contents())]
          else Pieces(str.Contents()[pos..], BytesOf(splitStr.Contents()), pos);
        Collects(old(list.Entries()), all, cb, list.Entries(), ret)
      else ret == BSTR_ERR && list.Entries() == old(list.Entries())
  {
    if pos < 0 || pos > str.slen { return BSTR_ERR; }
    if splitStr.slen == 0 {
      WholeCollects(list.Entries(), Call(0, str.Contents()), cb);
      assert str.Contents()[0..str.slen] == str.Contents();
      ret := Emit(list, str, 0, str.slen, cb);
      if ret > 0 { ret := 0; }
      return;
    }
    if splitStr.slen == 1 {
      OneByte(splitStr.Contents());
      ret := Bsplitcb(list, str, splitStr.data[0], pos, cb);
      return;
    }
    var rc, chrs := BuildCharField(splitStr);
    ret := SplitAtBytes(list, str, chrs, pos, cb);
  }

  // ----- separators of several bytes ---------------------------------------------------

  lemma NextCut(s: seq<Byte>, sep: seq<Byte>, p: nat, i: nat)
    requires sep != [] && p <= i && i + |sep| <= |s|
    ensures Cuts(s, sep, p, i, 1) ==
      if s[i..i + |sep|] == sep then [Call(p, s[p..i])] + Cuts(s, sep, i + |sep|, i + |sep| + 1, 1)
      else Cuts(s, sep, p, i + 1, 1)
  {
  }

  lemma LastCut(s: seq<Byte>, sep: seq<Byte>, p: nat, i: nat)
    requires sep != [] && p <= |s| && p <= i && i + |sep| > |s|
    ensures Cuts(s, sep, p, i, 1) == [Call(p, s[p..|s|])] + []
  {
    assert s[p..] == s[p..|s|];
  }

  // memcmp of the separator and the bytes at i.
  method Separates(str: Bstring, splitStr: Bstring, i: nat) returns (equal: bool)
    requires str.Readable() && splitStr.Readable() && i + splitStr.slen <= str.slen
    ensures equal == (str.Contents()[i..i + splitStr.slen] == splitStr.Contents())
  {
    assert str.Contents()[i..i + splitStr.slen] == str.data[i..i + splitStr.slen];
    equal := splitStr.data[..splitStr.slen] == str.data[i..i + splitStr.slen];
  }

  method SplitAtString(list: BstrList, str: Bstring, splitStr: Bstring, pos: nat, cb: Call -> int) returns (ret: int)
    requires list.Valid() && str.Readable() && splitStr.Readable() && pos <= str.slen && splitStr.slen > 1
    modifies list, list.entry
    ensures list.Valid() && (fresh(list.entry) || list.entry == old(list.entry))
    ensures Collects(old(list.Entries()), Cuts(str.Contents(), splitStr.Contents(), pos, pos, 1), cb, list.Entries(),
      ret)
  {
    hide Cuts, Texts, Until, Collects, Answer;
    ghost var s, sep := str.Contents(), splitStr.Contents();
    ghost var all := Cuts(s, sep, pos, pos, 1);
    ghost var goal, answer := list.Entries() + Texts(Until(all, cb)), Answer(Until(all, cb), cb);
    Collection(list.Entries(), all, cb, goal, answer);
    var i, p := pos, pos;
    while i <= str.slen - splitStr.slen
      invariant pos <= p <= str.slen && p <= i && list.Valid()
      invariant fresh(list.entry) || list.entry == old(list.entry)
      invariant Collects(list.Entries(), Cuts(s, sep, p, i, 1), cb, goal, answer)
      decreases str.slen - i
    {
      NextCut(s, sep, p, i);
      var separates := Separates(str, splitStr, i);
      if separates {
        ret := EmitNext(list, str, p, i, cb, Cuts(s, sep, i + |sep|, i + |sep| + 1, 1), goal, answer);
        if ret < 0 { return; }
        i := i + splitStr.slen;
        p := i;
      }
      i := i + 1;
    }
    LastCut(s, sep, p, i);
    ret := EmitNext(list, str, p, str.slen, cb, [], goal, answer);
    if ret < 0 { return; }
    NoMoreCalls(list.Entries(), cb, goal, answer);
    return BSTR_OK;
  }

  method SplitSingles(list: BstrList, str: Bstring, pos: nat, cb: Call -> int) returns (ret: int)
    requires list.Valid() && str.Readable() && pos <= str.slen
    modifies list, list.entry
    ensures list.Valid() && (fresh(list.entry) || list.entry == old(list.entry))
    ensures Collects(old(list.Entries()), Singles(str.Contents(), pos), cb, list.Entries(), ret)
  {
    hide Texts, Until, Collects, Answer;
    ghost var s, all := str.Contents(), Singles(str.Contents(), pos);
    ghost var goal, answer := list.Entries() + Texts(Until(all, cb)), Answer(Until(all, cb), cb);
    Collection(list.Entries(), all, cb, goal, answer);
    var i := pos;
    while i < str.slen
      invariant pos <= i <= str.slen && list.Valid() && (fresh(list.entry) || list.entry == old(list.entry))
      invariant Collects(list.Entries(), Singles(s, i), cb, goal, answer)
    {
      assert s[i..i + 1] == [s[i]];
      ret := EmitNext(list, str, i, i + 1, cb, Singles(s, i + 1), goal, answer);
      if ret < 0 { return; }
      i := i + 1;
    }
    NoMoreCalls(list.Entries(), cb, goal, answer);
    return BSTR_OK;
  }

  method Bsplitstrcb(list: BstrList, str: Bstring, splitStr: Bstring, pos: int, cb: Call -> int) returns (ret: int)
    requires list.Valid() && str.Readable() && splitStr.Readable()
    modifies list, list.entry
    ensures list.Valid() && (fresh(list.entry) || list.entry == old(list.entry))
    ensures if 0 <= pos <= str.slen
      then Collects(old(list.Entries()), StringPieces(str.Contents(), splitStr.Contents(), pos), cb, list.Entries(),
        ret)
      else ret == BSTR_ERR && list.Entries() == old(list.Entries())
  {
    if pos < 0 || pos > str.slen { return BSTR_ERR; }
    if splitStr.slen == 0 {
      ret := SplitSingles(list, str, pos, cb);
      return;
    }
    if splitStr.slen == 1 {
      ret := Bsplitcb(list, str, splitStr.data[0], pos, cb);
      return;
    }
    ret := SplitAtString(list, str, splitStr, pos, cb);
  }

  // ----- the lists of pieces -------------------------------------------------------------

  // A callback that is always content gets all pieces.
  lemma {:induction false} AllCollected(cs: seq<Call>, cb: Call -> int)
    requires forall c :: cb(c) >= 0
    ensures Until(cs, cb) == cs && Answer(cs, cb) == BSTR_OK
  {
    if cs != [] {
      AllCollected(cs[1..], cb);
    }
  }

  method Bsplit(str: Bstring, splitChar: Byte) returns (bl: BstrList)
    requires str.Readable()
    ensures fresh(bl) && bl.Valid() && bl.Entries() == Texts(Pieces(str.Contents(), {splitChar}, 0))
  {
    bl := new BstrList();
    var r := Bsplitcb(bl, str, splitChar, 0, _ => BSTR_OK);
    assert str.Contents()[0..] == str.Contents();
    AllCollected(Pieces(str.Contents(), {splitChar}, 0), _ => BSTR_OK);
  }

  method Bsplitstr(str: Bstring, splitStr: Bstring) returns (bl: BstrList)
    requires str.Readable() && splitStr.Readable()
    ensures fresh(bl) && bl.Valid() && bl.Entries() == Texts(StringPieces(str.Contents(), splitStr.Contents(), 0))
  {
    bl := new BstrList();
    var r := Bsplitstrcb(bl, str, splitStr, 0, _ => BSTR_OK);
    AllCollected(StringPieces(str.Contents(), splitStr.Contents(), 0), _ => BSTR_OK);
  }

  lemma {:induction false} JoinLast(es: seq<seq<Byte>>, e: seq<Byte>, sep: seq<Byte>)
    ensures Join(es + [e], sep) == if es == [] then e else Join(es, sep) + sep + e
  {
    if es != [] {
      JoinLast(es[1..], e, sep);
      assert (es + [e])[1..] == es[1..] + [e];
      assert es == [es[0]] + es[1..];
    }
  }

  // ----- joining --------------------------------------------------------------------------

  ghost function Total(es: seq<seq<Byte>>): nat {
    if es == [] then 0 else Total(es[..|es| - 1]) + |es[|es| - 1]|
  }

  lemma {:induction false} JoinLength(es: seq<seq<Byte>>, sep: seq<Byte>)
    requires es != []
    ensures |Join(es, sep)| == Total(es) + (|es| - 1) * |sep|
  {
    var init := es[..|es| - 1];
    assert es == init + [es[|es| - 1]];
    JoinLast(init, es[|es| - 1], sep);
    if init != [] {
      JoinLength(init, sep);
      assert (|es| - 1) * |sep| == (|init| - 1) * |sep| + |sep|;
    } else {
      assert (|es| - 1) * |sep| == 0;
    }
  }

  lemma {:induction false} TotalPrefix(es: seq<seq<Byte>>, i: nat)
    requires i <= |es|
    ensures Total(es[..i]) <= Total(es)
    decreases |es|
  {
    if i < |es| {
      TotalPrefix(es[..|es| - 1], i);
      assert es[..|es| - 1][..i] == es[..i];
    } else {
      assert es[..i] == es;
    }
  }

  lemma NextTotal(es: seq<seq<Byte>>, i: nat)
    requires i < |es|
    ensures Total(es[..i + 1]) == Total(es[..i]) + |es[i]| <= Total(es)
  {
    assert es[..i + 1][..i] == es[..i];
    TotalPrefix(es, i + 1);
  }

  // The join of one entry more, and room for it in the whole join.
  lemma NextJoin(es: seq<seq<Byte>>, i: nat, sep: seq<Byte>)
    requires i < |es|
    ensures Join(es[..i + 1], sep) == if i == 0 then es[0] else Join(es[..i], sep) + sep + es[i]
    ensures |Join(es[..i + 1], sep)| <= |Join(es, sep)|
  {
    assert es[..i + 1] == es[..i] + [es[i]];
    JoinLast(es[..i], es[i], sep);
    JoinPrefix(es, i + 1, sep);
  }

  lemma {:induction false} JoinPrefix(es: seq<seq<Byte>>, i: nat, sep: seq<Byte>)
    requires i <= |es|
    ensures |Join(es[..i], sep)| <= |Join(es, sep)|
    decreases |es|
  {
    if i < |es| {
      var init := es[..|es| - 1];
      JoinPrefix(init, i, sep);
      assert init[..i] == es[..i] && es == init + [es[|es| - 1]];
      JoinLast(init, es[|es| - 1], sep);
    } else {
      assert es[..i] == es;
    }
  }

  method Copy(data: array<Byte>, p: nat, e: seq<Byte>)
    requires p + |e| <= data.Length
    modifies data
    ensures data[..p + |e|] == old(data[..p]) + e
  {
    forall k | 0 <= k < |e| {
      data[p + k] := e[k];
    }
  }

  method CopyNext(data: array<Byte>, p: nat, sep: seq<Byte>, e: seq<Byte>, ghost done: seq<Byte>, ghost next: seq<Byte>)
    requires p + |sep| + |e| <= data.Length && data[..p] == done && next == done + sep + e
    modifies data
    ensures data[..p + |sep| + |e|] == next
  {
    Copy(data, p, sep);
    Copy(data, p + |sep|, e);
  }

  // Copy the entries with the separator in between into the block.
  method Fill(data: array<Byte>, bl: BstrList, sep: seq<Byte>)
    requires bl.Valid() && bl.qty > 0 && |Join(bl.Entries(), sep)| <= data.Length
    modifies data
    ensures data[..|Join(bl.Entries(), sep)|] == Join(bl.Entries(), sep)
  {
    hide Join;
    ghost var es := bl.Entries();
    NextJoin(es, 0, sep);
    Copy(data, 0, bl.entry[0]);
    var p, i := |bl.entry[0]|, 1;
    assert data[..p] == es[0];
    while i < bl.qty
      invariant 1 <= i <= bl.qty && p == |Join(es[..i], sep)| <= data.Length && data[..p] == Join(es[..i], sep)
    {
      NextJoin(es, i, sep);
      CopyNext(data, p, sep, bl.entry[i], Join(es[..i], sep), Join(es[..i + 1], sep));
      p := p + |sep| + |bl.entry[i]|;
      i := i + 1;
    }
    assert es[..i] == es;
  }

  // The sum of the entry lengths and one, unless it exceeds an int.
  method SumLengths(bl: BstrList) returns (c: int)
    requires bl.Valid()
    ensures c == if Total(bl.Entries()) + 1 <= INT_MAX then Total(bl.Entries()) + 1 else -1
  {
    ghost var es := bl.Entries();
    c := 1;
    var i := 0;
    while i < bl.qty
      invariant 0 <= i <= bl.qty && c == Total(es[..i]) + 1 <= INT_MAX
    {
      NextTotal(es, i);
      var v := |bl.entry[i]|;
      if v > INT_MAX - c { return -1; }
      c := c + v;
      i := i + 1;
    }
    assert es[..i] == es;
  }

  // The size of the joined block, with the closing zero, unless it exceeds an int.
  method BlockSize(bl: BstrList, len: nat, ghost sep: seq<Byte>) returns (c: int)
    requires bl.Valid() && bl.qty > 0 && |sep| == len
    ensures var n := |Join(bl.Entries(), sep)| + 1; c == if n <= INT_MAX then n else -1
  {
    JoinLength(bl.Entries(), sep);
    NotNegative(bl.qty - 1, len);
    c := SumLengths(bl);
    if c == -1 { return; }
    var v := (bl.qty - 1) * len;
    if v > INT_MAX - c { return -1; }
    c := c + v;
  }

  lemma NotNegative(a: nat, b: nat)
    ensures a * b >= 0
  {
  }

  method Bjoinblk(bl: BstrList, blk: array<Byte>, len: int) returns (b: Bstring?)
    requires bl.Valid() && len <= blk.Length
    ensures b == null <==> len < 0 || |Join(bl.Entries(), blk[..len])| >= INT_MAX
    ensures b != null ==> fresh(b) && b.Valid() && b.Terminated() && b.Contents() == Join(bl.Entries(), blk[..len])
  {
    if len < 0 { return null; }
    if bl.qty < 1 {
      b := new Bstring.Empty();
      return;
    }
    var c := BlockSize(bl, len, blk[..len]);
    if c == -1 { return null; }
    var data := new Byte[c];
    Fill(data, bl, blk[..len]);
    data[c - 1] := 0;
    b := new Bstring.Empty();
    b.data, b.mlen, b.slen := data, c, c - 1;
  }
}
