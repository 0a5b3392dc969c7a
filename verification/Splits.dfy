// Splitting text at separators and joining the pieces, as functions.
module Splits {
  import opened Bstrings
  import opened Search
  import opened Stream
  import opened StreamSplit

  // The entries with the separator in between.
  ghost function Join(es: seq<seq<Byte>>, sep: seq<Byte>): seq<Byte> {
    if es == [] then [] else if |es| == 1 then es[0] else es[0] + sep + Join(es[1..], sep)
  }

  ghost function Texts(cs: seq<Call>): (ts: seq<seq<Byte>>)
    ensures |ts| == |cs| && forall k :: 0 <= k < |cs| ==> ts[k] == cs[k].entry
  {
    if cs == [] then [] else [cs[0].entry] + Texts(cs[1..])
  }

  lemma JoinFirst(e: seq<Byte>, es: seq<seq<Byte>>, sep: seq<Byte>)
    ensures Join([e] + es, sep) == if es == [] then e else e + sep + Join(es, sep)
  {
    assert ([e] + es)[1..] == es;
  }

  lemma TextsFirst(c: Call, cs: seq<Call>)
    ensures Texts([c] + cs) == [c.entry] + Texts(cs)
  {
    assert ([c] + cs)[1..] == cs;
  }

  // Joining the pieces between the separator bytes gives the text back.
  lemma {:induction false} JoinOfSplit(v: seq<Byte>, c: Byte, p: int)
    ensures Join(Texts(Pieces(v, {c}, p)), [c]) == v
    decreases |v|
  {
    hide Free, Cut, Pieces, Join, Texts;
    var n := Cut(v, {c});
    CutMeaning(v, {c});
    UnfoldPieces(v, c, p);
    if n == |v| {
      NoTexts();
      TextsFirst(Call(p, v), []);
      assert [Call(p, v)] + [] == [Call(p, v)] && [v] + [] == [v];
      JoinFirst(v, [], [c]);
    } else {
      var rest := Pieces(v[n + 1..], {c}, p + n + 1);
      JoinOfSplit(v[n + 1..], c, p + n + 1);
      TextsFirst(Call(p, v[..n]), rest);
      TextsLength(rest);
      JoinFirst(v[..n], Texts(rest), [c]);
      assert v == v[..n] + [c] + v[n + 1..];
    }
  }

  lemma UnfoldPieces(v: seq<Byte>, c: Byte, p: int)
    ensures var n := Cut(v, {c});
      && n <= |v| && (n < |v| ==> v[n] == c)
      && if n == |v| then Pieces(v, {c}, p) == [Call(p, v)]
        else
          && Pieces(v, {c}, p) == [Call(p, v[..n])] + Pieces(v[n + 1..], {c}, p + n + 1)
          && Pieces(v[n + 1..], {c}, p + n + 1) != []
  {
    CutMeaning(v, {c});
  }

  lemma TextsLength(cs: seq<Call>)
    ensures |Texts(cs)| == |cs|
  {
  }

  lemma NoTexts()
    ensures Texts([]) == []
  {
  }

  // Splitting a join of separator-free entries gives the entries back.
  lemma {:induction false} SplitOfJoin(es: seq<seq<Byte>>, c: Byte, p: int)
    requires es != [] && forall i :: 0 <= i < |es| ==> Free(es[i], {c})
    ensures Texts(Pieces(Join(es, [c]), {c}, p)) == es
    decreases |es|
  {
    hide Free, Pieces;
    var e := es[0];
    if |es| == 1 {
      OnePiece(e, c, p);
      TextsFirst(Call(p, e), []);
      assert [Call(p, e)] + [] == [Call(p, e)];
    } else {
      var w := Join(es[1..], [c]);
      PieceAndRest(e, c, w, p);
      SplitOfJoin(es[1..], c, p + |e| + 1);
      TextsFirst(Call(p, e), Pieces(w, {c}, p + |e| + 1));
    }
  }

  lemma OnePiece(e: seq<Byte>, c: Byte, p: int)
    requires Free(e, {c})
    ensures Pieces(e, {c}, p) == [Call(p, e)]
  {
    CutAt(e, [], {c});
    assert e + [] == e;
  }

  lemma PieceAndRest(e: seq<Byte>, c: Byte, w: seq<Byte>, p: int)
    requires Free(e, {c})
    ensures Pieces(e + [c] + w, {c}, p) == [Call(p, e)] + Pieces(w, {c}, p + |e| + 1)
  {
    hide Free;
    var v := e + [c] + w;
    assert v == e + ([c] + w) && v[..|e|] == e && v[|e| + 1..] == w;
    CutAt(e, [c] + w, {c});
  }

  // ----- separators of several bytes --------------------------------------------------

  // The pieces of s from p on, when the search for the separator stands at i and, behind
  // a separator, goes on skip bytes later.
  ghost function Cuts(s: seq<Byte>, sep: seq<Byte>, p: nat, i: nat, skip: nat): (cs: seq<Call>)
    requires sep != [] && p <= |s| && p <= i
    ensures cs != []
    decreases |s| - i
  {
    if i + |sep| > |s| then [Call(p, s[p..])]
    else if Occurs(s, sep, i) then [Call(p, s[p..i])] + Cuts(s, sep, i + |sep|, i + |sep| + skip, skip)
    else Cuts(s, sep, p, i + 1, skip)
  }

  // Piece j stands at its offset, and no separator begins in it, but perhaps in its first
  // skip bytes if one stands in front of it; the separator and the next piece follow, or
  // the end.
  ghost predicate CutStands(s: seq<Byte>, sep: seq<Byte>, i: nat, skip: nat, cs: seq<Call>, j: nat)
    requires j < |cs|
  {
    var lo, hi := cs[j].ofs, cs[j].ofs + |cs[j].entry|;
    && 0 <= lo && hi <= |s| && s[lo..hi] == cs[j].entry
    && NoneIn(s, sep, if j == 0 then i else lo + skip, hi)
    && if j + 1 == |cs| then hi == |s| else Occurs(s, sep, hi) && cs[j + 1].ofs == hi + |sep|
  }

  lemma {:induction false} CutsExact(s: seq<Byte>, sep: seq<Byte>, p: nat, i: nat, skip: nat)
    requires sep != [] && p <= |s| && p <= i
    ensures var cs := Cuts(s, sep, p, i, skip);
      cs[0].ofs == p && forall j :: 0 <= j < |cs| ==> CutStands(s, sep, i, skip, cs, j)
    decreases |s| - i
  {
    hide CutStands, Occurs;
    var cs := Cuts(s, sep, p, i, skip);
    if i + |sep| > |s| {
      LastStands(s, sep, p, i, skip);
    } else if Occurs(s, sep, i) {
      var q := i + |sep|;
      var ds := Cuts(s, sep, q, q + skip, skip);
      CutsExact(s, sep, q, q + skip, skip);
      forall j | 0 <= j < |cs|
        ensures CutStands(s, sep, i, skip, cs, j)
      {
        if j == 0 { FirstStands(s, sep, p, i, skip, ds); } else { LaterStands(s, sep, p, i, skip, ds, j - 1); }
      }
    } else {
      var ds := Cuts(s, sep, p, i + 1, skip);
      CutsExact(s, sep, p, i + 1, skip);
      forall j | 0 <= j < |cs|
        ensures CutStands(s, sep, i, skip, cs, j)
      {
        OneFurther(s, sep, i, skip, ds, j);
      }
    }
  }

  lemma LastStands(s: seq<Byte>, sep: seq<Byte>, p: nat, i: nat, skip: nat)
    requires p <= |s| && i + |sep| > |s|
    ensures CutStands(s, sep, i, skip, [Call(p, s[p..])], 0)
  {
    assert s[p..|s|] == s[p..];
  }

  lemma FirstStands(s: seq<Byte>, sep: seq<Byte>, p: nat, i: nat, skip: nat, ds: seq<Call>)
    requires p <= i && Occurs(s, sep, i) && ds != [] && ds[0].ofs == i + |sep|
    ensures CutStands(s, sep, i, skip, [Call(p, s[p..i])] + ds, 0)
  {
  }

  lemma LaterStands(s: seq<Byte>, sep: seq<Byte>, p: nat, i: nat, skip: nat, ds: seq<Call>, j: nat)
    requires p <= i && i + |sep| <= |s| && j < |ds| && ds[0].ofs == i + |sep|
    requires CutStands(s, sep, i + |sep| + skip, skip, ds, j)
    ensures CutStands(s, sep, i, skip, [Call(p, s[p..i])] + ds, j + 1)
  {
    var cs := [Call(p, s[p..i])] + ds;
    assert cs[j + 1] == ds[j] && (j + 1 < |ds| ==> cs[j + 2] == ds[j + 1]);
  }

  lemma OneFurther(s: seq<Byte>, sep: seq<Byte>, i: nat, skip: nat, cs: seq<Call>, j: nat)
    requires j < |cs| && CutStands(s, sep, i + 1, skip, cs, j) && !Occurs(s, sep, i)
    ensures CutStands(s, sep, i, skip, cs, j)
  {
  }

  // However far the search skips, joining the pieces gives the text back.
  lemma {:induction false} JoinOfCuts(s: seq<Byte>, sep: seq<Byte>, p: nat, i: nat, skip: nat)
    requires sep != [] && p <= |s| && p <= i
    ensures Join(Texts(Cuts(s, sep, p, i, skip)), sep) == s[p..]
    decreases |s| - i
  {
    hide Join, Texts, Occurs;
    if i + |sep| > |s| {
      OneText(Call(p, s[p..]), sep);
    } else if Occurs(s, sep, i) {
      var q := i + |sep|;
      var rest := Cuts(s, sep, q, q + skip, skip);
      JoinOfCuts(s, sep, q, q + skip, skip);
      TextsFirst(Call(p, s[p..i]), rest);
      TextsLength(rest);
      JoinFirst(s[p..i], Texts(rest), sep);
      OccursSlice(s, sep, i);
      Reassembled(s, p, i, q);
    } else {
      JoinOfCuts(s, sep, p, i + 1, skip);
    }
  }

  lemma OccursSlice(s: seq<Byte>, sep: seq<Byte>, i: nat)
    requires Occurs(s, sep, i)
    ensures i + |sep| <= |s| && s[i..i + |sep|] == sep
  {
  }

  lemma OneText(c: Call, sep: seq<Byte>)
    ensures Join(Texts([c]), sep) == c.entry
  {
  }

  lemma Reassembled(s: seq<Byte>, p: nat, i: nat, q: nat)
    requires p <= i <= q <= |s|
    ensures s[p..] == s[p..i] + s[i..q] + s[q..]
  {
  }

  // No piece but the last is empty, from the given one on.
  ghost predicate InnerFull(cs: seq<Call>, from: nat) {
    forall k :: from <= k < |cs| - 1 ==> cs[k].entry != []
  }

  // Going on one byte after each separator misses a separator that follows at once. So
  // the pieces are all pieces exactly when none between the first and the last is empty.
  lemma {:induction false} SkippingIsExact(s: seq<Byte>, sep: seq<Byte>, p: nat, i: nat)
    requires sep != [] && p <= |s| && p <= i
    ensures Cuts(s, sep, p, i, 1) == Cuts(s, sep, p, i, 0) <==> InnerFull(Cuts(s, sep, p, i, 0), 1)
    decreases |s| - i
  {
    hide Occurs, InnerFull;
    if i + |sep| > |s| {
      OnlyLast(Call(p, s[p..]));
    } else if Occurs(s, sep, i) {
      var q := i + |sep|;
      var a, b := Cuts(s, sep, q, q + 1, 1), Cuts(s, sep, q, q, 0);
      InnerTail(Call(p, s[p..i]), b);
      SameTail(Call(p, s[p..i]), a, b);
      FromFirst(b);
      if Occurs(s, sep, q) {
        CutsFirst(s, sep, q, q + 1, 1);
        HasRoom(s, sep, q);
        assert a[0].entry != [] && b[0].entry == [] && |b| > 1;
      } else {
        assert b == Cuts(s, sep, q, q + 1, 0);
        SkippingIsExact(s, sep, q, q + 1);
        CutsFirst(s, sep, q, q + 1, 0);
        assert |b| == 1 || b[0].entry != [];
      }
    } else {
      SkippingIsExact(s, sep, p, i + 1);
    }
  }

  lemma OnlyLast(c: Call)
    ensures InnerFull([c], 1)
  {
  }

  lemma HasRoom(s: seq<Byte>, sep: seq<Byte>, q: nat)
    requires Occurs(s, sep, q)
    ensures q + |sep| <= |s|
  {
  }

  lemma FromFirst(b: seq<Call>)
    requires b != []
    ensures InnerFull(b, 0) <==> InnerFull(b, 1) && (|b| == 1 || b[0].entry != [])
  {
  }

  lemma InnerTail(c: Call, b: seq<Call>)
    ensures InnerFull([c] + b, 1) <==> InnerFull(b, 0)
  {
    assert forall k :: 0 <= k < |b| ==> ([c] + b)[k + 1] == b[k];
    if InnerFull([c] + b, 1) {
      forall k | 0 <= k < |b| - 1
        ensures b[k].entry != []
      {
        assert ([c] + b)[k + 1].entry != [];
      }
    }
  }

  lemma SameTail(c: Call, a: seq<Call>, b: seq<Call>)
    ensures [c] + a == [c] + b <==> a == b
  {
    assert ([c] + a)[1..] == a && ([c] + b)[1..] == b;
  }

  // The first piece goes on at least to where the search stands, or to the end.
  lemma {:induction false} CutsFirst(s: seq<Byte>, sep: seq<Byte>, p: nat, i: nat, skip: nat)
    requires sep != [] && p <= |s| && p <= i
    ensures var cs := Cuts(s, sep, p, i, skip); |cs[0].entry| >= i - p || cs == [Call(p, s[p..])]
    decreases |s| - i
  {
    if i + |sep| <= |s| && !Occurs(s, sep, i) {
      CutsFirst(s, sep, p, i + 1, skip);
    }
  }

  // Two separators in a row: the second one stays in the text.
  lemma SkippingMisses()
    ensures var s, sep: seq<Byte> := [1, 2, 1, 2], [1, 2];
      && Cuts(s, sep, 0, 0, 0) == [Call(0, []), Call(2, []), Call(4, [])]
      && Cuts(s, sep, 0, 0, 1) == [Call(0, []), Call(2, [1, 2])]
  {
    var s: seq<Byte>, sep: seq<Byte>, none: seq<Byte> := [1, 2, 1, 2], [1, 2], [];
    assert s[0..2] == sep && s[2..4] == sep;
    assert Occurs(s, sep, 0) && Occurs(s, sep, 2);
    assert s[4..] == none && s[2..2] == none && s[0..0] == none;
    assert Cuts(s, sep, 4, 4, 0) == [Call(4, none)];
    assert Cuts(s, sep, 2, 2, 0) == [Call(2, none), Call(4, none)];
  }

  // ----- separators of any length --------------------------------------------------------

  // The single bytes of s from p on.
  ghost function Singles(s: seq<Byte>, p: nat): seq<Call>
    requires p <= |s|
    decreases |s| - p
  {
    if p == |s| then [] else [Call(p, [s[p]])] + Singles(s, p + 1)
  }

  // One call for every byte, in order, at its offset.
  lemma {:induction false} SinglesExact(s: seq<Byte>, p: nat)
    requires p <= |s|
    ensures |Singles(s, p)| == |s| - p
    ensures forall k :: 0 <= k < |s| - p ==> Singles(s, p)[k] == Call(p + k, [s[p + k]])
    decreases |s| - p
  {
    if p < |s| {
      var first, rest := Call(p, [s[p]]), Singles(s, p + 1);
      SinglesExact(s, p + 1);
      forall k | 0 <= k < |s| - p
        ensures ([first] + rest)[k] == Call(p + k, [s[p + k]])
      {
        if k > 0 {
          assert ([first] + rest)[k] == rest[k - 1];
        }
      }
    }
  }

  // The pieces of s from pos on as the string split makes them.
  ghost function StringPieces(s: seq<Byte>, sep: seq<Byte>, pos: nat): seq<Call>
    requires pos <= |s|
  {
    if sep == [] then Singles(s, pos)
    else if |sep| == 1 then Pieces(s[pos..], {sep[0]}, pos)
    else Cuts(s, sep, pos, pos, 1)
  }

  lemma {:induction false} JoinSingles(s: seq<Byte>, p: nat)
    requires p <= |s|
    ensures Join(Texts(Singles(s, p)), []) == s[p..]
    decreases |s| - p
  {
    hide Join, Texts;
    if p == |s| {
      NothingJoined([]);
    } else {
      JoinSingles(s, p + 1);
      TextsFirst(Call(p, [s[p]]), Singles(s, p + 1));
      JoinFirst([s[p]], Texts(Singles(s, p + 1)), []);
      TextsLength(Singles(s, p + 1));
      assert s[p..] == [s[p]] + s[p + 1..];
    }
  }

  lemma NothingJoined(sep: seq<Byte>)
    ensures Join(Texts([]), sep) == []
  {
  }

  // Splitting at a string and joining with it gives the text back.
  lemma JoinOfStringSplit(s: seq<Byte>, sep: seq<Byte>)
    ensures Join(Texts(StringPieces(s, sep, 0)), sep) == s
  {
    hide Join, Texts;
    assert s[0..] == s;
    if sep == [] {
      JoinSingles(s, 0);
    } else if |sep| == 1 {
      JoinOfSplit(s, sep[0], 0);
      assert [sep[0]] == sep;
    } else {
      JoinOfCuts(s, sep, 0, 0, 1);
    }
  }
}
