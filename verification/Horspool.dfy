// Substring search with a table of skips.
module Horspool {
  import opened Bstrings
  import opened Search

  const UCHAR_MAX := 255

  // Of the first i needle bytes, v leads from the needle's last byte back to the last c;
  // it is the needle's length if there is none.
  ghost predicate SkipIn(needle: seq<Byte>, i: nat, c: Byte, v: int) {
    var last := |needle| - 1;
    i <= |needle| &&
    if v == |needle| then forall j :: 0 <= j < i ==> needle[j] != c
    else last - i < v <= last && 0 < v && needle[last - v] == c && forall j :: last - v < j < i ==> needle[j] != c
  }

  // How far the needle may move when c is the last byte of the window.
  ghost predicate SkipFor(needle: seq<Byte>, c: Byte, v: int) {
    SkipIn(needle, if needle == [] then 0 else |needle| - 1, c, v)
  }

  // Byte 255 gets no entry: its skip stays what it was.
  method SetupSkipchars(needle: seq<Byte>, skip: array<nat>)
    requires skip.Length == UCHAR_MAX + 1 && forall j :: 0 <= j < |needle| ==> needle[j] < 128
    modifies skip
    ensures forall c: Byte :: c < UCHAR_MAX ==> SkipFor(needle, c, skip[c])
    ensures skip[UCHAR_MAX] == old(skip[UCHAR_MAX])
  {
    var nlen := |needle|;
    var last := nlen - 1;
    var i := 0;
    while i < UCHAR_MAX
      invariant 0 <= i <= UCHAR_MAX && skip[UCHAR_MAX] == old(skip[UCHAR_MAX])
      invariant forall c :: 0 <= c < i ==> skip[c] == nlen
    {
      skip[i] := nlen;
      i := i + 1;
    }
    i := 0;
    while i < last
      invariant 0 <= i <= (if last < 0 then 0 else last) && skip[UCHAR_MAX] == old(skip[UCHAR_MAX])
      invariant forall c: Byte :: c < UCHAR_MAX ==> SkipIn(needle, i, c, skip[c])
    {
      skip[needle[i]] := last - i;
      i := i + 1;
    }
  }

  // No occurrence begins inside a skip.
  lemma SkipIsSafe(haystack: seq<Byte>, needle: seq<Byte>, pos: nat, v: int, i: nat)
    requires needle != [] && pos + |needle| <= |haystack| && SkipFor(needle, haystack[pos + |needle| - 1], v)
    requires pos < i < pos + v
    ensures !Occurs(haystack, needle, i)
  {
    if Occurs(haystack, needle, i) {
      OccursAt(haystack, needle, i, pos + |needle| - 1 - i);
      assert false;
    }
  }

  // ----- the rounds of the search ----------------------------------------------------------

  // A table made by SetupSkipchars, whatever its entry for byte 255.
  ghost predicate Table(needle: seq<Byte>, skip: seq<nat>) {
    |skip| == UCHAR_MAX + 1 && forall c: Byte :: c < UCHAR_MAX ==> SkipFor(needle, c, skip[c])
  }

  // Before a round the window stands at pos; or the search has ended.
  datatype State = Window(pos: nat) | Found(pos: nat) | Missed

  // One round. The window must end strictly before the haystack does.
  ghost function Round(haystack: seq<Byte>, needle: seq<Byte>, skip: seq<nat>, s: State): State
    requires needle != [] && |skip| == UCHAR_MAX + 1
  {
    if !s.Window? then s
    else if s.pos + |needle| >= |haystack| then Missed
    else if Occurs(haystack, needle, s.pos) then Found(s.pos)
    else Window(s.pos + skip[haystack[s.pos + |needle| - 1]])
  }

  // The state after n rounds.
  ghost function After(haystack: seq<Byte>, needle: seq<Byte>, skip: seq<nat>, n: nat): State
    requires |skip| == UCHAR_MAX + 1
  {
    if needle == [] || haystack == [] then Missed
    else if n == 0 then Window(0)
    else Round(haystack, needle, skip, After(haystack, needle, skip, n - 1))
  }

  ghost predicate Stops(haystack: seq<Byte>, needle: seq<Byte>, skip: seq<nat>)
    requires |skip| == UCHAR_MAX + 1
  {
    exists n :: !After(haystack, needle, skip, n).Window?
  }

  // From pos on the search comes to a window that does not match and ends in byte 255.
  ghost predicate Meets255(haystack: seq<Byte>, needle: seq<Byte>, skip: seq<nat>, pos: nat)
    requires Table(needle, skip)
    decreases |haystack| - pos
  {
    needle != [] && pos + |needle| < |haystack| && !Occurs(haystack, needle, pos) &&
    var c := haystack[pos + |needle| - 1];
    c == UCHAR_MAX || Meets255(haystack, needle, skip, pos + skip[c])
  }

  // One round of a search that meets no such window.
  lemma NextRound(haystack: seq<Byte>, needle: seq<Byte>, skip: seq<nat>, n: nat, pos: nat)
    requires Table(needle, skip) && After(haystack, needle, skip, n) == Window(pos)
    requires !Meets255(haystack, needle, skip, pos)
    ensures needle != [] && haystack != []
    ensures pos + |needle| >= |haystack| ==> After(haystack, needle, skip, n + 1) == Missed
    ensures Occurs(haystack, needle, pos) && pos + |needle| < |haystack| ==>
      After(haystack, needle, skip, n + 1) == Found(pos)
    ensures !Occurs(haystack, needle, pos) && pos + |needle| < |haystack| ==>
      var c := haystack[pos + |needle| - 1];
      && 0 < skip[c] <= |needle| && SkipFor(needle, c, skip[c])
      && After(haystack, needle, skip, n + 1) == Window(pos + skip[c])
         && !Meets255(haystack, needle, skip, pos + skip[c])
  {
  }

  // One round of a search that does.
  lemma MeetingRound(haystack: seq<Byte>, needle: seq<Byte>, skip: seq<nat>, n: nat, pos: nat)
    requires Table(needle, skip) && skip[UCHAR_MAX] == 0 && After(haystack, needle, skip, n) == Window(pos)
    requires Meets255(haystack, needle, skip, pos)
    ensures pos + |needle| < |haystack| && needle != []
    ensures var p := pos + skip[haystack[pos + |needle| - 1]];
      After(haystack, needle, skip, n + 1) == Window(p) && Meets255(haystack, needle, skip, p)
  {
  }

  // Without such a window some round ends the search.
  lemma {:induction false} Ends(haystack: seq<Byte>, needle: seq<Byte>, skip: seq<nat>, pos: nat, n: nat)
    requires Table(needle, skip) && After(haystack, needle, skip, n) == Window(pos)
    requires !Meets255(haystack, needle, skip, pos)
    ensures Stops(haystack, needle, skip)
    decreases |haystack| - pos
  {
    hide After, Meets255;
    NextRound(haystack, needle, skip, n, pos);
    var s := After(haystack, needle, skip, n + 1);
    if s.Window? {
      Ends(haystack, needle, skip, s.pos, n + 1);
    }
  }

  // With such a window ahead, and the table's entry for 255 as the source leaves it,
  // every further round leaves a window.
  lemma {:induction false} NeverEnds(haystack: seq<Byte>, needle: seq<Byte>, skip: seq<nat>, pos: nat, n: nat, m: nat)
    requires Table(needle, skip) && skip[UCHAR_MAX] == 0 && After(haystack, needle, skip, n) == Window(pos)
    requires Meets255(haystack, needle, skip, pos)
    ensures After(haystack, needle, skip, n + m).Window?
    decreases m
  {
    hide After, Meets255;
    if m > 0 {
      MeetingRound(haystack, needle, skip, n, pos);
      NeverEnds(haystack, needle, skip, pos + skip[haystack[pos + |needle| - 1]], n + 1, m - 1);
    }
  }

  // The search ends exactly when it meets no such window.
  lemma StopsIff(haystack: seq<Byte>, needle: seq<Byte>, skip: seq<nat>)
    requires Table(needle, skip) && skip[UCHAR_MAX] == 0
    ensures Stops(haystack, needle, skip) <==> !Meets255(haystack, needle, skip, 0)
  {
    if needle == [] || haystack == [] {
      assert !After(haystack, needle, skip, 0).Window?;
    } else if Meets255(haystack, needle, skip, 0) {
      forall n: nat
        ensures After(haystack, needle, skip, n).Window?
      {
        NeverEnds(haystack, needle, skip, 0, 0, n);
      }
    } else {
      Ends(haystack, needle, skip, 0, 0);
    }
  }

  // It is enough that no byte at which a window can end is 255.
  lemma {:induction false} NoneToMeet(haystack: seq<Byte>, needle: seq<Byte>, skip: seq<nat>, pos: nat)
    requires Table(needle, skip)
    requires forall j :: 0 <= j && |needle| - 1 <= j < |haystack| - 1 ==> haystack[j] < UCHAR_MAX
    ensures !Meets255(haystack, needle, skip, pos)
    decreases |haystack| - pos
  {
    if needle != [] && pos + |needle| < |haystack| && !Occurs(haystack, needle, pos) {
      NoneToMeet(haystack, needle, skip, pos + skip[haystack[pos + |needle| - 1]]);
    }
  }

  // It is not necessary: here the match comes first.
  lemma MatchFirst(skip: seq<nat>)
    requires Table([1], skip)
    ensures !Meets255([1, 255, 0], [1], skip, 0)
  {
    var h: seq<Byte>, nd: seq<Byte> := [1, 255, 0], [1];
    assert h[0..1] == nd;
    assert Occurs(h, nd, 0);
  }

  // A search that never ends.
  lemma Endless(skip: seq<nat>)
    requires Table([1], skip) && skip[UCHAR_MAX] == 0
    ensures Meets255([255, 0], [1], skip, 0) && !Stops([255, 0], [1], skip)
  {
    var h: seq<Byte>, nd: seq<Byte> := [255, 0], [1];
    assert h[0..1][0] != nd[0];
    StopsIff(h, nd, skip);
  }

  lemma NoneSkipped(haystack: seq<Byte>, needle: seq<Byte>, pos: nat, v: nat)
    requires needle != [] && pos + |needle| <= |haystack| && SkipFor(needle, haystack[pos + |needle| - 1], v)
    requires NoneIn(haystack, needle, 0, pos) && !Occurs(haystack, needle, pos)
    ensures NoneIn(haystack, needle, 0, pos + v)
  {
    forall k | pos < k < pos + v
      ensures !Occurs(haystack, needle, k)
    {
      SkipIsSafe(haystack, needle, pos, v, k);
    }
  }

  // Compare the window at pos with the needle from the end.
  method Matches(haystack: seq<Byte>, needle: seq<Byte>, pos: nat) returns (whole: bool)
    requires needle != [] && pos + |needle| <= |haystack|
    ensures whole == Occurs(haystack, needle, pos)
  {
    var i := |needle| - 1;
    while haystack[pos + i] == needle[i]
      invariant 0 <= i < |needle|
      invariant forall j :: i < j < |needle| ==> haystack[pos + j] == needle[j]
      decreases i
    {
      if i == 0 {
        return true;
      }
      i := i - 1;
    }
    assert haystack[pos..pos + |needle|][i] != needle[i];
    return false;
  }

  // The leftmost occurrence that ends before the last byte of the haystack, or -1.
  method BaseSearch(haystack: seq<Byte>, needle: seq<Byte>, skip: array<nat>) returns (found: int, ghost rounds: nat)
    requires Table(needle, skip[..]) && !Meets255(haystack, needle, skip[..], 0)
    ensures After(haystack, needle, skip[..], rounds) == if found < 0 then Missed else Found(found)
    ensures found == -1 ||
      (0 <= found && needle != [] && found + |needle| < |haystack| && Occurs(haystack, needle, found))
    ensures needle != [] ==>
      NoneIn(haystack, needle, 0, if found == -1 then |haystack| - |needle| else found)
  {
    hide After, Meets255, Occurs, SkipFor;
    ghost var table := skip[..];
    var nlen, hlen := |needle|, |haystack|;
    rounds := 0;
    FirstState(haystack, needle, table);
    if !(nlen > 0) || !(hlen > 0) {
      return -1, rounds;
    }
    var pos := 0;
    while hlen > nlen
      invariant 0 <= pos && hlen == |haystack| - pos && hlen > 0 && skip[..] == table
      invariant After(haystack, needle, table, rounds) == Window(pos) && !Meets255(haystack, needle, table, pos)
      invariant NoneIn(haystack, needle, 0, pos)
      decreases hlen
    {
      NextRound(haystack, needle, table, rounds, pos);
      rounds := rounds + 1;
      var matches := Matches(haystack, needle, pos);
      if matches {
        return pos, rounds;
      }
      var v := skip[haystack[pos + nlen - 1]];
      NoneSkipped(haystack, needle, pos, v);
      hlen := hlen - v;
      pos := pos + v;
    }
    NextRound(haystack, needle, table, rounds, pos);
    return -1, rounds + 1;
  }

  lemma FirstState(haystack: seq<Byte>, needle: seq<Byte>, skip: seq<nat>)
    requires |skip| == UCHAR_MAX + 1
    ensures After(haystack, needle, skip, 0) == if needle == [] || haystack == [] then Missed else Window(0)
  {
  }
}
