// binstr: substring search that collects the needle as a subsequence with gaps
// and tests for contiguity only when the needle is exhausted.
module Search {
  import opened Bstrings

  ghost predicate Occurs(h: seq<Byte>, nd: seq<Byte>, k: int) {
    0 <= k && k + |nd| <= |h| && h[k..k + |nd|] == nd
  }

  ghost predicate NoneIn(h: seq<Byte>, nd: seq<Byte>, lo: int, hi: int) {
    forall k :: lo <= k < hi ==> !Occurs(h, nd, k)
  }

  // The scan has matched the first j needle bytes greedily, the first of them at
  // ii, and stands at i.  Every whole occurrence from pos on has its byte number
  // j at i or later; without a gap the bytes from ii to i are the needle's first j.
  ghost predicate Scan(h: seq<Byte>, nd: seq<Byte>, pos: int, i: int, j: int, ii: int) {
    && 0 <= pos <= i <= |h| && 0 <= j <= |nd|
    && (forall s :: pos <= s && Occurs(h, nd, s) ==> i <= s + j)
    && (j > 0 ==> pos <= ii && ii + j <= i && (i == ii + j ==> h[ii..i] == nd[..j]))
  }

  lemma OccursAt(h: seq<Byte>, nd: seq<Byte>, s: int, j: int)
    requires Occurs(h, nd, s) && 0 <= j < |nd|
    ensures h[s + j] == nd[j]
  {
    assert h[s..s + |nd|][j] == nd[j];
  }

  // A byte that differs from needle byte j moves the earliest end past it.
  lemma SkipMismatch(h: seq<Byte>, nd: seq<Byte>, pos: int, i: int, j: int, ii: int)
    requires Scan(h, nd, pos, i, j, ii) && i < |h| && j < |nd| && h[i] != nd[j]
    ensures Scan(h, nd, pos, i + 1, j, ii)
  {
    forall s | pos <= s && Occurs(h, nd, s)
      ensures i + 1 <= s + j
    {
      OccursAt(h, nd, s, j);
    }
  }

  lemma TakeMatch(h: seq<Byte>, nd: seq<Byte>, pos: int, i: int, j: int, ii: int)
    requires Scan(h, nd, pos, i, j, ii) && i < |h| && j < |nd| && h[i] == nd[j]
    ensures Scan(h, nd, pos, i + 1, j + 1, if j == 0 then i else ii)
  {
    assert nd[..j + 1] == nd[..j] + [nd[j]];
    if j > 0 && i == ii + j {
      assert h[ii..i + 1] == h[ii..i] + [h[i]];
    }
  }

  // A completed match without gaps is the first occurrence.
  lemma GaplessIsFirst(h: seq<Byte>, nd: seq<Byte>, pos: int, ii: int)
    requires |nd| > 0 && Scan(h, nd, pos, ii + |nd|, |nd|, ii)
    ensures pos <= ii && Occurs(h, nd, ii) && NoneIn(h, nd, pos, ii)
  {
    assert nd[..|nd|] == nd;
  }

  // A completed match with gaps rules out every start before i - |nd|.
  lemma GappedRestarts(h: seq<Byte>, nd: seq<Byte>, pos: int, i: int, ii: int)
    requires |nd| > 0 && Scan(h, nd, pos, i, |nd|, ii) && i != ii + |nd|
    ensures Scan(h, nd, pos, i - |nd|, 0, ii) && ii < i - |nd|
  {
  }

  // A scan that ran off the end leaves no room for the needle's last bytes.
  lemma Exhausted(h: seq<Byte>, nd: seq<Byte>, pos: int, i: int, j: int, ii: int)
    requires Scan(h, nd, pos, i, j, ii) && j < |nd| && |h| - 1 <= i
    requires i == |h| - 1 && |nd| == j + 1 ==> h[i] != nd[j]
    ensures forall k :: pos <= k ==> !Occurs(h, nd, k)
  {
    forall k | pos <= k
      ensures !Occurs(h, nd, k)
    {
      if Occurs(h, nd, k) {
        OccursAt(h, nd, k, j);
      }
    }
  }

  method Binstr(b1: Bstring, pos: int, b2: Bstring) returns (r: int)
    requires b1.Readable() && b2.Readable()
    ensures r == BSTR_ERR <==> pos < 0 || forall k :: pos <= k ==> !Occurs(b1.Contents(), b2.Contents(), k)
    ensures r != BSTR_ERR ==>
      && pos <= r && Occurs(b1.Contents(), b2.Contents(), r)
      && NoneIn(b1.Contents(), b2.Contents(), pos, r)
  {
    ghost var h, nd := b1.Contents(), b2.Contents();
    if b1.slen == pos {
      assert b2.slen == 0 ==> Occurs(h, nd, pos);
      return if b2.slen == 0 then pos else BSTR_ERR;
    }
    if b1.slen < pos || pos < 0 { return BSTR_ERR; }
    if b2.slen == 0 {
      assert Occurs(h, nd, pos);
      return pos;
    }
    if b1.slen - b2.slen + 1 <= pos { return BSTR_ERR; }
    if b2.slen == 1 {
      r := FindByte(b1, pos, b2);
    } else {
      r := FindGreedily(b1, pos, b2);
    }
  }

  // The peeled off case of a one-byte needle.
  method FindByte(b1: Bstring, pos: int, b2: Bstring) returns (r: int)
    requires b1.Readable() && b2.Readable() && 0 <= pos < b1.slen && b2.slen == 1
    ensures if r == BSTR_ERR then forall k :: pos <= k ==> !Occurs(b1.Contents(), b2.Contents(), k)
            else pos <= r && Occurs(b1.Contents(), b2.Contents(), r) && NoneIn(b1.Contents(), b2.Contents(), pos, r)
  {
    ghost var h, nd := b1.Contents(), b2.Contents();
    var c0, i := b2.data[0], pos;
    while i < b1.slen
      invariant pos <= i <= b1.slen
      invariant NoneIn(h, nd, pos, i)
    {
      if c0 == b1.data[i] {
        assert Occurs(h, nd, i);
        return i;
      }
      if Occurs(h, nd, i) { OccursAt(h, nd, i, 0); }
      i := i + 1;
    }
    return BSTR_ERR;
  }

  // The do-while loop of the source, with its jump back to N0 from the test after
  // the loop as the second branch.
  method FindGreedily(b1: Bstring, pos: int, b2: Bstring) returns (r: int)
    requires b1.Readable() && b2.Readable() && 0 <= pos < b1.slen - b2.slen + 1 && b2.slen > 1
    ensures if r == BSTR_ERR then forall k :: pos <= k ==> !Occurs(b1.Contents(), b2.Contents(), k)
            else pos <= r && Occurs(b1.Contents(), b2.Contents(), r) && NoneIn(b1.Contents(), b2.Contents(), pos, r)
  {
    ghost var h, nd := b1.Contents(), b2.Contents();
    var d0, d1, ll := b2.data, b1.data, b2.slen;
    var c0 := d0[0];
    var c1, i, j, ii, lf := c0, pos, 0, -1, b1.slen - 1;
    while true
      invariant j < ll && c1 == nd[j] && Scan(h, nd, pos, i, j, ii)
      decreases 2 * |h| - (if j == 0 then 2 * i else 2 * ii + 1), |h| - i
    {
      if i < lf {
        if c1 != d1[i] {
          SkipMismatch(h, nd, pos, i, j, ii);
          if c1 != d1[1 + i] {
            SkipMismatch(h, nd, pos, i + 1, j, ii);
            i := i + 2;
            continue;
          }
          i := i + 1;
        }
        TakeMatch(h, nd, pos, i, j, ii);
        if 0 == j { ii := i; }
        j := j + 1;
        i := i + 1;
        if j < ll {
          c1 := d0[j];
          continue;
        }
        if i == ii + j {
          GaplessIsFirst(h, nd, pos, ii);
          return ii;
        }
        GappedRestarts(h, nd, pos, i, ii);
      } else if i == lf && ll == j + 1 && c1 == d1[i] {
        TakeMatch(h, nd, pos, i, j, ii);
        if i == ii + j {
          GaplessIsFirst(h, nd, pos, ii);
          return ii;
        }
        GappedRestarts(h, nd, pos, i + 1, ii);
      } else {
        Exhausted(h, nd, pos, i, j, ii);
        return BSTR_ERR;
      }
      i := i - j;
      j := 0;
      c1 := c0;
    }
  }
}
