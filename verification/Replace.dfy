// findreplaceengine with binstr as its search function: overwriting in place,
// compacting forward, or spreading backward from an index of matches.
module Replace {
  import opened Bstrings
  import opened Search

  const INITIAL_STATIC_FIND_INDEX_COUNT := 32

  // The meaning: scan s from p, replacing every match met on the way.
  ghost function ReplaceFrom(s: seq<Byte>, p: nat, find: seq<Byte>, repl: seq<Byte>): seq<Byte>
    requires p <= |s| && 0 < |find|
    decreases |s| - p
  {
    if p + |find| > |s| then s[p..]
    else if Occurs(s, find, p) then repl + ReplaceFrom(s, p + |find|, find, repl)
    else [s[p]] + ReplaceFrom(s, p + 1, find, repl)
  }

  ghost function Replaced(s: seq<Byte>, pos: nat, find: seq<Byte>, repl: seq<Byte>): seq<Byte>
    requires 0 < |find|
  {
    if pos > |s| then s else s[..pos] + ReplaceFrom(s, pos, find, repl)
  }

  // The matches the scan from p replaces.
  ghost function Matches(s: seq<Byte>, p: nat, find: seq<Byte>): seq<int>
    requires p <= |s| && 0 < |find|
    decreases |s| - p
  {
    if p + |find| > |s| then []
    else if Occurs(s, find, p) then [p as int] + Matches(s, p + |find|, find)
    else Matches(s, p + 1, find)
  }

  // q is where the next piece of text from p ends: the first match, or the end.
  ghost predicate NextStop(s: seq<Byte>, p: int, find: seq<Byte>, q: int) {
    && 0 <= p <= q <= |s| && NoneIn(s, find, p, q)
    && (q < |s| ==> Occurs(s, find, q))
  }

  lemma {:induction false} SkipToStop(s: seq<Byte>, p: nat, find: seq<Byte>, repl: seq<Byte>, q: nat)
    requires 0 < |find| && NextStop(s, p, find, q)
    ensures ReplaceFrom(s, p, find, repl) == s[p..q] + ReplaceFrom(s, q, find, repl)
    ensures Matches(s, p, find) == Matches(s, q, find)
    decreases q - p
  {
    if p == q {
      assert s[p..q] == [];
    } else {
      SkipToStop(s, p + 1, find, repl, q);
      SkipOne(s, p, find, repl);
      HeadOfSlice(s, p, q, ReplaceFrom(s, q, find, repl));
    }
  }

  lemma SkipOne(s: seq<Byte>, p: nat, find: seq<Byte>, repl: seq<Byte>)
    requires 0 < |find| && p < |s| && !Occurs(s, find, p)
    ensures ReplaceFrom(s, p, find, repl) == [s[p]] + ReplaceFrom(s, p + 1, find, repl)
    ensures Matches(s, p, find) == Matches(s, p + 1, find)
  {
    if p + |find| > |s| {
      NoRoom(s, p + 1, find, repl);
    }
  }

  lemma HeadOfSlice(s: seq<Byte>, p: nat, q: nat, rest: seq<Byte>)
    requires p < q <= |s|
    ensures s[p..q] + rest == [s[p]] + (s[p + 1..q] + rest)
  {
  }

  lemma NoRoom(s: seq<Byte>, p: nat, find: seq<Byte>, repl: seq<Byte>)
    requires 0 < |find| && p <= |s| && p + |find| > |s|
    ensures ReplaceFrom(s, p, find, repl) == s[p..] && Matches(s, p, find) == []
  {
  }

  // One round of the scan: from p to the match at q, and on behind it.
  lemma OneRound(s: seq<Byte>, p: nat, find: seq<Byte>, repl: seq<Byte>, q: nat)
    requires 0 < |find| && NextStop(s, p, find, q) && q + |find| <= |s|
    ensures ReplaceFrom(s, p, find, repl) == s[p..q] + repl + ReplaceFrom(s, q + |find|, find, repl)
    ensures Matches(s, p, find) == [q as int] + Matches(s, q + |find|, find)
  {
    SkipToStop(s, p, find, repl, q);
    assert ReplaceFrom(s, q, find, repl) == repl + ReplaceFrom(s, q + |find|, find, repl);
  }

  lemma TakeMatchAt(s: seq<Byte>, p: nat, find: seq<Byte>, repl: seq<Byte>)
    requires 0 < |find| && Occurs(s, find, p)
    ensures ReplaceFrom(s, p, find, repl) == repl + ReplaceFrom(s, p + |find|, find, repl)
    ensures Matches(s, p, find) == [p as int] + Matches(s, p + |find|, find)
  {
  }

  // The last round: no match is left.
  lemma LastRound(s: seq<Byte>, p: nat, find: seq<Byte>, repl: seq<Byte>)
    requires 0 < |find| && NextStop(s, p, find, |s|)
    ensures ReplaceFrom(s, p, find, repl) == s[p..] && Matches(s, p, find) == []
  {
    SkipToStop(s, p, find, repl, |s|);
    NoRoom(s, |s|, find, repl);
  }

  // The text a buffer holds from p to its end decides where the search stops.
  lemma StopInOldText(h: seq<Byte>, s: seq<Byte>, p: int, find: seq<Byte>, q: int)
    requires 0 <= p <= |s| == |h| && (forall k :: p <= k < |s| ==> h[k] == s[k]) && NextStop(h, p, find, q)
    ensures NextStop(s, p, find, q)
  {
    forall k | p <= k && k + |find| <= |s|
      ensures Occurs(h, find, k) <==> Occurs(s, find, k)
    {
      assert h[k..k + |find|] == s[k..k + |find|];
    }
  }

  // binstr on a buffer that still holds the old text from p on performs one round
  // of the scan of the old text.
  method NextMatch(b: Bstring, p: int, find: Bstring, ghost s: seq<Byte>, ghost r: seq<Byte>) returns (i: int)
    requires b.Readable() && find.Readable() && find.slen > 0
    requires b.slen == |s| && 0 <= p <= |s| && forall k :: p <= k < |s| ==> b.data[k] == s[k]
    ensures i == BSTR_ERR || p <= i <= |s| - find.slen
    ensures ReplaceFrom(s, p, find.Contents(), r) ==
      if i == BSTR_ERR then s[p..] else s[p..i] + r + ReplaceFrom(s, i + find.slen, find.Contents(), r)
    ensures Matches(s, p, find.Contents()) ==
      if i == BSTR_ERR then [] else [i] + Matches(s, i + find.slen, find.Contents())
  {
    hide ReplaceFrom, Matches;
    i := Binstr(b, p, find);
    StopInOldText(b.Contents(), s, p, find.Contents(), if i == BSTR_ERR then |s| else i);
    if i == BSTR_ERR {
      LastRound(s, p, find.Contents(), r);
    } else {
      OneRound(s, p, find.Contents(), r, i);
    }
  }

  // ----- the two forward modes ------------------------------------------------

  // The scan starts with everything before pos finished.
  lemma ScanStarts(data: array<Byte>, s: seq<Byte>, pos: nat, find: seq<Byte>, repl: seq<Byte>)
    requires 0 < |find| && pos <= |s| <= data.Length && data[..|s|] == s
    ensures var goal := Replaced(s, pos, find, repl);
      Forward(data, s, pos, goal, pos) && goal[pos..] == ReplaceFrom(s, pos, find, repl)
  {
    hide ReplaceFrom;
  }

  // Below q the buffer holds the goal, from p on the old text still to be scanned,
  // and what the scan makes of it is the rest of the goal.
  ghost predicate Forward(data: array<Byte>, s: seq<Byte>, p: int, goal: seq<Byte>, q: int)
    reads data
  {
    && 0 <= q <= p <= |s| <= data.Length && q <= |goal|
    && (forall k :: 0 <= k < q ==> data[k] == goal[k])
    && (forall k :: p <= k < |s| ==> data[k] == s[k])
  }

  // A block of the goal and what stands behind it.
  lemma NextBlock(goal: seq<Byte>, q: nat, blk: seq<Byte>, rest: seq<Byte>)
    requires q <= |goal| && goal[q..] == blk + rest
    ensures q + |blk| <= |goal| && goal[q + |blk|..] == rest
    ensures forall k :: q <= k < q + |blk| ==> goal[k] == blk[k - q]
  {
    forall k | q <= k < q + |blk|
      ensures goal[k] == blk[k - q]
    {
      assert goal[k] == goal[q..][k - q];
    }
    assert goal[q + |blk|..] == goal[q..][|blk|..];
  }

  // The same for a block that is the text from p to i.
  lemma NextText(goal: seq<Byte>, q: nat, s: seq<Byte>, p: nat, i: nat, rest: seq<Byte>)
    requires q <= |goal| && p <= i <= |s| && goal[q..] == s[p..i] + rest
    ensures var d := q + (i - p);
      d <= |goal| && goal[d..] == rest && forall k :: q <= k < d ==> goal[k] == s[p + (k - q)]
  {
    NextBlock(goal, q, s[p..i], rest);
  }

  // The pieces of the goal one round produces.
  lemma NextPieces(goal: seq<Byte>, q: nat, s: seq<Byte>, p: nat, i: nat, r: seq<Byte>, rest: seq<Byte>)
    requires q <= |goal| && p <= i <= |s| && goal[q..] == s[p..i] + r + rest
    ensures var d := q + (i - p);
      && d + |r| <= |goal|
      && (forall k :: q <= k < d ==> goal[k] == s[p + (k - q)])
      && (forall k :: d <= k < d + |r| ==> goal[k] == r[k - d])
      && goal[d + |r|..] == rest
  {
    assert s[p..i] + r + rest == s[p..i] + (r + rest);
    NextText(goal, q, s, p, i, r + rest);
    NextBlock(goal, q + (i - p), r, rest);
  }

  // memcpy of a replacement string, skipped when it is empty.
  method CopyString(data: array<Byte>, d: nat, src: Bstring)
    requires src.Readable() && src.data != data && d + src.slen <= data.Length
    modifies data
    ensures forall k :: 0 <= k < data.Length ==>
      data[k] == if d <= k < d + src.slen then src.Contents()[k - d] else old(data[k])
  {
    if src.slen != 0 {
      MemMove(data, d, src.data, 0, src.slen);
    }
  }

  // memcpy of the replacement over the match at i.
  method OverwriteRound(b: Bstring, p: int, repl: Bstring, i: int, ghost s: seq<Byte>, ghost goal: seq<Byte>,
      ghost rest: seq<Byte>)
    requires repl.Readable() && b.data != repl.data && Forward(b.data, s, p, goal, p)
    requires p <= i && i + repl.slen <= |s| && goal[p..] == s[p..i] + repl.Contents() + rest
    modifies b.data
    ensures Forward(b.data, s, i + repl.slen, goal, i + repl.slen) && goal[i + repl.slen..] == rest
  {
    NextPieces(goal, p, s, p, i, repl.Contents(), rest);
    MemMove(b.data, i, repl.data, 0, repl.slen);
  }

  // delta == 0
  method Overwrite(b: Bstring, pos: int, find: Bstring, repl: Bstring)
    requires b.Valid() && find.Readable() && repl.Readable()
    requires b.data != find.data && b.data != repl.data && 0 < find.slen == repl.slen
    requires 0 <= pos <= b.slen - find.slen
    modifies b.data
    ensures b.Contents() == Replaced(old(b.Contents()), pos, find.Contents(), repl.Contents())
  {
    hide ReplaceFrom, Matches, Replaced;
    ghost var s, f, r := b.Contents(), find.Contents(), repl.Contents();
    ghost var goal := Replaced(s, pos, f, r);
    var p := pos;
    ScanStarts(b.data, s, pos, f, r);
    while true
      invariant Forward(b.data, s, p, goal, p) && goal[p..] == ReplaceFrom(s, p, f, r)
      invariant find.Contents() == f && repl.Contents() == r
      decreases b.slen - p
    {
      var i := NextMatch(b, p, find, s, r);
      if i < 0 { break; }
      OverwriteRound(b, p, repl, i, s, goal, ReplaceFrom(s, i + find.slen, f, r));
      p := i + find.slen;
    }
    LastPiece(b.data, s, p, goal, p);
  }

  lemma LastPiece(data: array<Byte>, s: seq<Byte>, p: int, goal: seq<Byte>, q: int)
    requires Forward(data, s, p, goal, q) && goal[q..] == s[p..]
    ensures |goal| == q + |s| - p && forall k :: q <= k < |goal| ==> goal[k] == s[p + (k - q)]
    ensures q == p ==> data[..|s|] == goal
  {
    forall k | q <= k < |goal|
      ensures goal[k] == s[p + (k - q)]
    {
      assert goal[k] == goal[q..][k - q];
    }
  }

  // memmove of the text up to i down by acc, when there is any.
  method MoveDown(b: Bstring, p: int, acc: int, i: int, ghost s: seq<Byte>, ghost goal: seq<Byte>)
    requires 0 <= acc <= p <= i <= |s| && Forward(b.data, s, p, goal, p - acc) && i - acc <= |goal|
    requires forall k :: p - acc <= k < i - acc ==> goal[k] == s[p + (k - (p - acc))]
    modifies b.data
    ensures Forward(b.data, s, i, goal, i - acc)
  {
    if acc != 0 && i > p {
      MemMove(b.data, p - acc, b.data, p, i - p);
    }
  }

  // The transfers of one round: memmove of the text between two matches, memcpy of the replacement behind it.
  method CompactRound(b: Bstring, p: int, acc: int, repl: Bstring, i: int, len: int, ghost s: seq<Byte>,
      ghost goal: seq<Byte>, ghost rest: seq<Byte>)
    requires repl.Readable() && b.data != repl.data && repl.slen < len && 0 <= acc <= p
    requires Forward(b.data, s, p, goal, p - acc)
    requires p <= i && i + len <= |s| && goal[p - acc..] == s[p..i] + repl.Contents() + rest
    modifies b.data
    ensures var q := i - acc + repl.slen; Forward(b.data, s, i + len, goal, q) && goal[q..] == rest
  {
    NextPieces(goal, p - acc, s, p, i, repl.Contents(), rest);
    MoveDown(b, p, acc, i, s, goal);
    if repl.slen != 0 {
      MemMove(b.data, i - acc, repl.data, 0, repl.slen);
    }
  }

  // delta > 0
  method Compact(b: Bstring, pos: int, find: Bstring, repl: Bstring)
    requires b.Valid() && find.Readable() && repl.Readable()
    requires b.data != find.data && b.data != repl.data && repl.slen < find.slen
    requires 0 <= pos <= b.slen - find.slen
    modifies b.data, b`slen
    ensures b.Valid() && b.Contents() == Replaced(old(b.Contents()), pos, find.Contents(), repl.Contents())
    ensures b.slen != old(b.slen) ==> b.Terminated()
  {
    hide ReplaceFrom, Matches, Replaced, Forward;
    ghost var s, f, r := b.Contents(), find.Contents(), repl.Contents();
    ghost var goal := Replaced(s, pos, f, r);
    var acc, p := 0, pos;
    ScanStarts(b.data, s, pos, f, r);
    OldTextAhead(b.data, s, p, goal, p);
    while true
      invariant b.slen == |s| && 0 <= acc <= p <= |s| && p - acc <= |goal|
      invariant Forward(b.data, s, p, goal, p - acc) && goal[p - acc..] == ReplaceFrom(s, p, f, r)
      invariant find.Contents() == f && repl.Contents() == r
      decreases b.slen - p
    {
      OldTextAhead(b.data, s, p, goal, p - acc);
      var i := NextMatch(b, p, find, s, r);
      if i < 0 { break; }
      CompactRound(b, p, acc, repl, i, find.slen, s, goal, ReplaceFrom(s, i + find.slen, f, r));
      acc := acc + find.slen - repl.slen;
      p := i + find.slen;
      OldTextAhead(b.data, s, p, goal, p - acc);
    }
    CompactLast(b, p, acc, s, goal);
  }

  lemma OldTextAhead(data: array<Byte>, s: seq<Byte>, p: int, goal: seq<Byte>, q: int)
    requires Forward(data, s, p, goal, q)
    ensures 0 <= q <= p <= |s| <= data.Length && q <= |goal| && forall k :: p <= k < |s| ==> data[k] == s[k]
  {
  }

  // The text behind the last match, the new length and its terminator.
  method CompactLast(b: Bstring, p: int, acc: int, ghost s: seq<Byte>, ghost goal: seq<Byte>)
    requires b.Valid() && b.slen == |s| && 0 <= acc <= p && Forward(b.data, s, p, goal, p - acc)
    requires goal[p - acc..] == s[p..]
    modifies b.data, b`slen
    ensures b.Valid() && b.Contents() == goal
    ensures b.slen != old(b.slen) ==> b.Terminated()
  {
    LastPiece(b.data, s, p, goal, p - acc);
    if acc != 0 {
      MoveDown(b, p, acc, b.slen, s, goal);
      b.slen := b.slen - acc;
      assert b.Contents() == goal;
      b.data[b.slen] := 0;
    }
  }

  // ----- the backward mode ----------------------------------------------------

  // The capacities the index runs through: doublings of the static one.
  ghost predicate Capacity(m: int) {
    m in {0x20, 0x40, 0x80, 0x100, 0x200, 0x400, 0x800, 0x1000, 0x2000, 0x4000, 0x8000, 0x1_0000, 0x2_0000, 0x4_0000,
          0x8_0000, 0x10_0000, 0x20_0000, 0x40_0000, 0x80_0000, 0x100_0000, 0x200_0000, 0x400_0000, 0x800_0000}
  }

  // The greatest number of entries the growable index takes on is one less.
  const INDEX_LIMIT := 0x800_0000

  // The first slen entries of the index are those of all.
  ghost predicate Indexed(d: array<int>, slen: nat, all: seq<int>)
    reads d
  {
    slen <= |all| && slen < d.Length && forall k :: 0 <= k < slen ==> d[k] == all[k]
  }

  lemma EnterMatch(all: seq<int>, k: nat, i: int, rest: seq<int>)
    requires k <= |all| && all[k..] == [i] + rest
    ensures k < |all| && all[k] == i && all[k + 1..] == rest
  {
    assert all[k] == all[k..][0] && all[k + 1..] == all[k..][1..];
  }

  // Enter a match; a full index is doubled first, unless it is at its limit.
  method PushMatch(d: array<int>, slen: nat, mlen: nat, i: int, ghost all: seq<int>, ghost rest: seq<int>)
    returns (ok: bool, t: array<int>, mlen': nat)
    requires slen <= mlen - 1 < d.Length && Capacity(mlen)
    requires Indexed(d, slen, all) && all[slen..] == [i] + rest
    modifies d
    ensures (t == d || fresh(t)) && Capacity(mlen')
    ensures ok <==> slen < INDEX_LIMIT - 1
    ensures slen < |all| && all[slen + 1..] == rest
    ensures ok ==> slen + 1 <= mlen' - 1 < t.Length && Indexed(t, slen + 1, all)
  {
    EnterMatch(all, slen, i, rest);
    t, mlen', ok := d, mlen, true;
    if slen >= mlen - 1 {
      if mlen > (INT_MAX / 8) / 2 {
        ok := false;
        return;
      }
      mlen' := mlen + mlen;
      t := new int[mlen'];
      forall k | 0 <= k < slen {
        t[k] := d[k];
      }
    }
    t[slen] := i;
  }

  // How much m replacements lengthen the text, each by grow.
  ghost function Growth(m: nat, grow: nat): (r: nat)
    ensures m > 0 ==> r >= grow
  {
    if m == 0 then 0 else grow + Growth(m - 1, grow)
  }

  lemma {:induction false} GrowthGrows(m: nat, n: nat, grow: nat)
    requires m <= n
    ensures Growth(m, grow) <= Growth(n, grow)
  {
    if m < n {
      GrowthGrows(m, n - 1, grow);
    }
  }

  lemma {:induction false} GrownLength(s: seq<Byte>, p: nat, find: seq<Byte>, repl: seq<Byte>)
    requires 0 < |find| <= |repl| && p <= |s|
    ensures |ReplaceFrom(s, p, find, repl)| == |s| - p + Growth(|Matches(s, p, find)|, |repl| - |find|)
    decreases |s| - p
  {
    if p + |find| <= |s| {
      if Occurs(s, find, p) {
        GrownLength(s, p + |find|, find, repl);
      } else {
        SkipOne(s, p, find, repl);
        GrownLength(s, p + 1, find, repl);
      }
    }
  }

  // The search loop.  It gives up when the index or the growth no longer fits an int.
  method CollectMatches(b: Bstring, pos: int, find: Bstring, grow: int)
    returns (ok: bool, d: array<int>, slen: nat, acc: int)
    requires b.Readable() && find.Readable() && 0 < find.slen && 0 <= pos <= b.slen && 0 < grow
    ensures fresh(d)
    ensures ok ==> slen == |Matches(b.Contents(), pos, find.Contents())| < INDEX_LIMIT
    ensures ok ==> Indexed(d, slen, Matches(b.Contents(), pos, find.Contents()))
    ensures ok ==> acc == Growth(slen, grow) <= INT_MAX
    ensures !ok ==>
      var m := |Matches(b.Contents(), pos, find.Contents())|;
      m >= INDEX_LIMIT || Growth(m, grow) > INT_MAX
  {
    hide ReplaceFrom, Matches;
    ghost var s, f := b.Contents(), find.Contents();
    ghost var all := Matches(s, pos, f);
    var mlen := INITIAL_STATIC_FIND_INDEX_COUNT;
    d := new int[INITIAL_STATIC_FIND_INDEX_COUNT + 1];
    slen, acc, ok := 0, 0, true;
    var p := pos;
    while true
      invariant fresh(d) && slen <= mlen - 1 < d.Length && Capacity(mlen)
      invariant 0 <= p <= |s| && Indexed(d, slen, all) && all[slen..] == Matches(s, p, f)
      invariant acc == Growth(slen, grow) && acc <= INT_MAX
      decreases b.slen - p
    {
      var i := NextMatch(b, p, find, s, []);
      if i < 0 { break; }
      ok, d, mlen := PushMatch(d, slen, mlen, i, all, Matches(s, i + find.slen, f));
      if !ok { break; }
      slen := slen + 1;
      acc := acc + grow;
      p := i + find.slen;
      if acc > INT_MAX {
        GrowthGrows(slen, |all|, grow);
        ok := false;
        break;
      }
    }
  }

  // Stop i of the scan from p: match i, or the end of the text behind the last one.
  ghost function Stop(s: seq<Byte>, p: nat, find: seq<Byte>, i: nat): int
    requires 0 < |find| && p <= |s| && i <= |Matches(s, p, find)|
  {
    var ms := Matches(s, p, find);
    if i < |ms| then ms[i] else |s|
  }

  lemma {:induction false} FirstStop(s: seq<Byte>, p: nat, find: seq<Byte>)
    requires 0 < |find| && p <= |s|
    ensures NextStop(s, p, find, Stop(s, p, find, 0))
    decreases |s| - p
  {
    if p + |find| <= |s| && !Occurs(s, find, p) {
      FirstStop(s, p + 1, find);
    }
  }

  // A match and the stop behind it.
  lemma {:induction false} StopBehind(s: seq<Byte>, p: nat, find: seq<Byte>, i: nat)
    requires 0 < |find| && p <= |s| && i < |Matches(s, p, find)|
    ensures var m := Stop(s, p, find, i);
      p <= m && Occurs(s, find, m) && NextStop(s, m + |find|, find, Stop(s, p, find, i + 1))
    decreases |s| - p
  {
    if Occurs(s, find, p) {
      if i == 0 {
        FirstStop(s, p + |find|, find);
      } else {
        StopBehind(s, p + |find|, find, i - 1);
      }
    } else {
      StopBehind(s, p + 1, find, i);
    }
  }

  // From q on the goal is what the scan makes of the old text from e on.
  ghost predicate GoalAt(goal: seq<Byte>, q: int, s: seq<Byte>, e: int, find: seq<Byte>, repl: seq<Byte>)
    requires 0 < |find|
  {
    0 <= q <= |goal| && 0 <= e <= |s| && goal[q..] == ReplaceFrom(s, e, find, repl)
  }

  // What the goal holds for the match at m and the text behind it up to e.
  ghost predicate MatchInGoal(goal: seq<Byte>, s: seq<Byte>, m: int, e: int, acc: nat, len: nat, repl: seq<Byte>)
  {
    && 0 <= m && m + len <= e <= |s| && e + acc + |repl| - len <= |goal|
    && (forall k :: m + acc <= k < m + acc + |repl| ==> goal[k] == repl[k - (m + acc)])
    && (forall k :: m + acc + |repl| <= k < e + acc + |repl| - len ==> goal[k] == s[m + len + (k - (m + acc + |repl|))])
  }

  lemma GoalRound(goal: seq<Byte>, s: seq<Byte>, m: nat, e: int, acc: nat, find: seq<Byte>, repl: seq<Byte>)
    requires 0 < |find| && Occurs(s, find, m) && NextStop(s, m + |find|, find, e)
    requires GoalAt(goal, m + acc, s, m, find, repl)
    ensures MatchInGoal(goal, s, m, e, acc, |find|, repl)
    ensures GoalAt(goal, e + acc + |repl| - |find|, s, e, find, repl)
  {
    hide ReplaceFrom;
    var t := m + |find|;
    TakeMatchAt(s, m, find, repl);
    SkipToStop(s, t, find, repl, e);
    NextBlock(goal, m + acc, repl, ReplaceFrom(s, t, find, repl));
    NextText(goal, m + acc + |repl|, s, t, e, ReplaceFrom(s, e, find, repl));
  }

  lemma GoalAtFirstStop(s: seq<Byte>, pos: nat, find: seq<Byte>, repl: seq<Byte>)
    requires 0 < |find| && pos <= |s|
    ensures var e := Stop(s, pos, find, 0);
      && GoalAt(Replaced(s, pos, find, repl), e, s, e, find, repl)
      && forall k :: 0 <= k < e ==> Replaced(s, pos, find, repl)[k] == s[k]
  {
    hide ReplaceFrom, Matches;
    var goal, e := Replaced(s, pos, find, repl), Stop(s, pos, find, 0);
    FirstStop(s, pos, find);
    SkipToStop(s, pos, find, repl, e);
    assert goal[pos..] == s[pos..e] + ReplaceFrom(s, e, find, repl);
    NextText(goal, pos, s, pos, e, ReplaceFrom(s, e, find, repl));
  }

  lemma {:induction false} GoalAtStop(s: seq<Byte>, pos: nat, find: seq<Byte>, repl: seq<Byte>, i: nat)
    requires 0 < |find| <= |repl| && pos <= |s| && i <= |Matches(s, pos, find)|
    ensures GoalAt(Replaced(s, pos, find, repl), Stop(s, pos, find, i) + Growth(i, |repl| - |find|), s,
      Stop(s, pos, find, i), find, repl)
  {
    hide ReplaceFrom, Matches, Replaced;
    var goal, grow := Replaced(s, pos, find, repl), |repl| - |find|;
    if i == 0 {
      GoalAtFirstStop(s, pos, find, repl);
    } else {
      GoalAtStop(s, pos, find, repl, i - 1);
      StopBehind(s, pos, find, i - 1);
      GoalRound(goal, s, Stop(s, pos, find, i - 1), Stop(s, pos, find, i), Growth(i - 1, grow), find, repl);
    }
  }

  // Match i as the backward loop meets it.
  lemma MatchToPlace(s: seq<Byte>, pos: nat, find: seq<Byte>, repl: seq<Byte>, i: nat)
    requires 0 < |find| <= |repl| && pos <= |s| && i < |Matches(s, pos, find)|
    ensures MatchInGoal(Replaced(s, pos, find, repl), s, Stop(s, pos, find, i), Stop(s, pos, find, i + 1),
      Growth(i, |repl| - |find|), |find|, repl)
  {
    GoalAtStop(s, pos, find, repl, i);
    StopBehind(s, pos, find, i);
    hide ReplaceFrom, Matches, Replaced;
    GoalRound(Replaced(s, pos, find, repl), s, Stop(s, pos, find, i), Stop(s, pos, find, i + 1),
      Growth(i, |repl| - |find|), find, repl);
  }

  // Up to e the buffer still holds the old text, from e + acc on the goal.
  ghost predicate Backward(data: array<Byte>, s: seq<Byte>, e: int, acc: int, goal: seq<Byte>)
    reads data
  {
    && 0 <= e <= |s| && 0 <= acc && e + acc <= |goal| <= data.Length
    && (forall k :: 0 <= k < e ==> data[k] == s[k])
    && (forall k :: e + acc <= k < |goal| ==> data[k] == goal[k])
  }

  // memmove of the text between the match at m and e up by acc, when there is any.
  method MoveUp(b: Bstring, m: int, e: int, acc: int, len: nat, ghost repl: seq<Byte>, ghost s: seq<Byte>,
      ghost goal: seq<Byte>)
    requires Backward(b.data, s, e, acc, goal) && |repl| - len <= acc
    requires MatchInGoal(goal, s, m, e, acc - (|repl| - len), len, repl)
    modifies b.data
    ensures Backward(b.data, s, m + len, acc, goal)
  {
    var t := m + len;
    var l := e - t;
    if l != 0 {
      MemMove(b.data, t + acc, b.data, t, l);
    }
  }

  // The transfers of one round: the text behind the match, then the replacement.
  method SpreadRound(b: Bstring, m: int, e: int, acc: int, len: nat, repl: Bstring, ghost s: seq<Byte>,
      ghost goal: seq<Byte>)
    requires repl.Readable() && b.data != repl.data && len < repl.slen && repl.slen - len <= acc
    requires Backward(b.data, s, e, acc, goal)
    requires MatchInGoal(goal, s, m, e, acc - (repl.slen - len), len, repl.Contents())
    modifies b.data
    ensures Backward(b.data, s, m, acc - (repl.slen - len), goal)
  {
    MoveUp(b, m, e, acc, len, repl.Contents(), s, goal);
    CopyString(b.data, m + len + acc - repl.slen, repl);
  }

  // The backward loop over the index, the buffer having been enlarged.
  method SpreadMatches(b: Bstring, find: Bstring, repl: Bstring, d: array<int>, slen: nat, total: int,
                       ghost s: seq<Byte>, ghost pos: nat)
    requires b.Valid() && find.Readable() && repl.Readable() && b.data != repl.data && b.data != find.data
    requires 0 < find.slen < repl.slen && pos <= |s| && total == Growth(slen, repl.slen - find.slen)
    requires slen == |Matches(s, pos, find.Contents())| && Indexed(d, slen, Matches(s, pos, find.Contents()))
    requires d[slen] == |s|
    requires b.slen == |s| + total < b.mlen && b.data[..|s|] == s
    modifies b.data
    ensures b.Contents() == Replaced(s, pos, find.Contents(), repl.Contents()) && b.Terminated()
  {
    hide ReplaceFrom, Matches, Replaced;
    ghost var f, r := find.Contents(), repl.Contents();
    ghost var goal := Replaced(s, pos, f, r);
    var acc, i := total, slen;
    GoalLength(s, pos, f, r);
    while i > 0
      invariant 0 <= i <= slen && acc == Growth(i, repl.slen - find.slen)
      invariant find.Contents() == f && repl.Contents() == r
      invariant Indexed(d, slen, Matches(s, pos, f)) && d[slen] == |s|
      invariant Backward(b.data, s, Stop(s, pos, f, i), acc, goal)
    {
      i := i - 1;
      MatchToPlace(s, pos, f, r, i);
      SpreadRound(b, d[i], d[i + 1], acc, find.slen, repl, s, goal);
      acc := acc - (repl.slen - find.slen);
    }
    GoalAtFirstStop(s, pos, f, r);
    b.data[b.slen] := 0;
    assert b.Contents() == goal;
  }

  lemma GoalLength(s: seq<Byte>, pos: nat, find: seq<Byte>, repl: seq<Byte>)
    requires 0 < |find| <= |repl| && pos <= |s|
    ensures |Replaced(s, pos, find, repl)| == |s| + Growth(|Matches(s, pos, find)|, |repl| - |find|)
  {
    GrownLength(s, pos, find, repl);
  }

  // Whether the expanded text, its terminator and the index of matches fit 32-bit ints.
  ghost predicate Fits(s: seq<Byte>, pos: nat, find: seq<Byte>, repl: seq<Byte>)
    requires pos <= |s| && 0 < |find|
  {
    |Matches(s, pos, find)| < INDEX_LIMIT && |Replaced(s, pos, find, repl)| + 1 <= INT_MAX
  }

  // No more matches than bytes, as they do not overlap.
  lemma {:induction false} MatchesAreFew(s: seq<Byte>, p: nat, find: seq<Byte>)
    requires 0 < |find| && p <= |s|
    ensures |Matches(s, p, find)| * |find| <= |s| - p
    ensures |Matches(s, p, find)| <= |s| - p
    decreases |s| - p
  {
    if p + |find| <= |s| {
      if Occurs(s, find, p) {
        MatchesAreFew(s, p + |find|, find);
        OneMoreTimes(|Matches(s, p + |find|, find)|, |find|);
      } else {
        MatchesAreFew(s, p + 1, find);
      }
    }
  }

  lemma OneMoreTimes(m: nat, n: nat)
    ensures (m + 1) * n == m * n + n
  {
  }

  // In plain numbers: a longer replacement succeeds exactly when there are fewer than 2^27
  // matches and the result with its terminator has at most 2^31 - 1 bytes. A text of fewer
  // than 2^27 bytes cannot have too many matches, so only the length of the result counts.
  lemma FitsInNumbers(s: seq<Byte>, pos: nat, find: seq<Byte>, repl: seq<Byte>)
    requires 0 < |find| && pos <= |s|
    ensures Fits(s, pos, find, repl) <==>
      |Matches(s, pos, find)| < 134217728 && |Replaced(s, pos, find, repl)| + 1 <= 2147483647
    ensures |s| < 134217728 ==> (Fits(s, pos, find, repl) <==> |Replaced(s, pos, find, repl)| + 1 <= 2147483647)
  {
    MatchesAreFew(s, pos, find);
  }

  // The length of the result, in plain numbers.
  lemma ReplacedLength(s: seq<Byte>, pos: nat, find: seq<Byte>, repl: seq<Byte>)
    requires 0 < |find| <= |repl| && pos <= |s|
    ensures |Replaced(s, pos, find, repl)| == |s| + |Matches(s, pos, find)| * (|repl| - |find|)
  {
    GoalLength(s, pos, find, repl);
    GrowthIsProduct(|Matches(s, pos, find)|, |repl| - |find|);
  }

  lemma {:induction false} GrowthIsProduct(m: nat, grow: nat)
    ensures Growth(m, grow) == m * grow
  {
    if m > 0 {
      GrowthIsProduct(m - 1, grow);
      OneMoreTimes(m - 1, grow);
    }
  }

  method Expand(b: Bstring, pos: int, find: Bstring, repl: Bstring) returns (ret: int)
    requires b.Valid() && find.Readable() && repl.Readable() && find != b && repl != b
    requires b.data != find.data && b.data != repl.data && 0 < find.slen < repl.slen
    requires 0 <= pos <= b.slen - find.slen && b.mlen <= INT_MAX && repl.slen <= INT_MAX
    modifies b, b.data
    ensures b.Valid()
    ensures ret == if Fits(old(b.Contents()), pos, find.Contents(), repl.Contents()) then BSTR_OK else BSTR_ERR
    ensures ret == BSTR_ERR ==> b.slen == old(b.slen) && b.Contents() == old(b.Contents())
    ensures ret == BSTR_OK ==>
      b.Terminated() && b.Contents() == Replaced(old(b.Contents()), pos, find.Contents(), repl.Contents())
  {
    hide ReplaceFrom, Matches, Replaced;
    ghost var s, f, r := b.Contents(), find.Contents(), repl.Contents();
    GoalLength(s, pos, f, r);
    var ok, d, slen, acc := CollectMatches(b, pos, find, repl.slen - find.slen);
    if !ok { return BSTR_ERR; }
    d[slen] := b.slen;
    // b->slen + acc + 1 in 32-bit arithmetic
    var want := b.slen + acc + 1;
    ret := b.Balloc(if want > INT_MAX then want - 0x1_0000_0000 else want);
    if ret == BSTR_OK {
      b.slen := b.slen + acc;
      SpreadMatches(b, find, repl, d, slen, acc, s, pos);
    }
  }

  // The three modes, find and repl being separate from b.
  method ReplaceSeparate(b: Bstring, find: Bstring, repl: Bstring, pos: int) returns (ret: int)
    requires b.Valid() && b.mlen <= INT_MAX && find.Readable() && repl.Readable() && repl.slen <= INT_MAX
    requires find != b && repl != b && b.data != find.data && b.data != repl.data
    requires 0 < find.slen && 0 <= pos <= b.slen - find.slen
    modifies b, b.data
    ensures b.Valid() && (ret == BSTR_OK || ret == BSTR_ERR)
    ensures ret == BSTR_ERR <==>
      find.slen < repl.slen && !Fits(old(b.Contents()), pos, find.Contents(), repl.Contents())
    ensures b.Contents() ==
      if ret == BSTR_ERR then old(b.Contents()) else Replaced(old(b.Contents()), pos, find.Contents(), repl.Contents())
    ensures b.slen != old(b.slen) ==> b.Terminated()
  {
    var delta := find.slen - repl.slen;
    if delta == 0 {
      Overwrite(b, pos, find, repl);
      ret := BSTR_OK;
    } else if delta > 0 {
      Compact(b, pos, find, repl);
      ret := BSTR_OK;
    } else {
      ret := Expand(b, pos, find, repl);
    }
  }

  // bstrcpy, where the block of find is that of b.
  method Unaliased(b: Bstring, find: Bstring, pos: nat) returns (auxf: Bstring)
    requires b.Valid() && find.Readable() && (find.data == b.data ==> pos < find.slen)
    ensures auxf.Readable() && auxf.Contents() == find.Contents() && auxf.slen == find.slen
    ensures auxf != b && auxf.data != b.data
  {
    auxf := find;
    if find.data == b.data && pos - find.slen < 0 {
      auxf := new Bstring.Copy(find);
    }
  }

  // find and repl may share the block of b, or be b, where pos lies inside them: the
  // source then copies them first.
  method FindReplaceEngine(b: Bstring, find: Bstring, repl: Bstring, pos: int) returns (ret: int)
    requires 0 < b.mlen == b.data.Length <= INT_MAX && find.Readable() && repl.Readable() && repl.slen <= INT_MAX
    requires find.data == b.data && 0 < find.slen && 0 <= pos <= b.slen - find.slen ==> pos < find.slen
    requires repl.data == b.data && 0 < find.slen && 0 <= pos <= b.slen - find.slen ==> pos < repl.slen
    modifies b, b.data
    ensures pos < 0 || old(find.slen) == 0 || !old(b.Valid()) ==>
      ret == BSTR_ERR && b.slen == old(b.slen) && b.data == old(b.data) && b.data[..] == old(b.data[..])
    ensures pos >= 0 && old(find.slen) > 0 && old(b.Valid()) ==>
      var s, f, r := old(b.Contents()), old(find.Contents()), old(repl.Contents());
      && b.Valid() && (ret == BSTR_OK || ret == BSTR_ERR)
      && (ret == BSTR_ERR <==> |f| < |r| && pos <= |s| - |f| && !Fits(s, pos, f, r))
      && b.Contents() == (if ret == BSTR_ERR then s else Replaced(s, pos, f, r))
      && (b.slen != old(b.slen) ==> b.Terminated())
  {
    hide ReplaceFrom, Fits;
    if pos < 0 || find.slen <= 0 || b.slen > b.mlen || b.slen < 0 { return BSTR_ERR; }
    if pos > b.slen - find.slen {
      if pos <= b.slen {
        NoRoom(b.Contents(), pos, find.Contents(), repl.Contents());
      }
      return BSTR_OK;
    }
    var auxf := Unaliased(b, find, pos);
    var auxr := Unaliased(b, repl, pos);
    ret := ReplaceSeparate(b, auxf, auxr, pos);
  }
}
