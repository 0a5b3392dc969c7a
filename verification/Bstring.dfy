// The mutable string record of bstrlib: a byte block of mlen bytes of which the
// first slen are the string.
module Bstrings {
  type Byte = x: int | 0 <= x < 256

  const BSTR_ERR := -1
  const BSTR_OK := 0
  const INT_MAX := 0x7FFF_FFFF

  // memmove and memcpy: the source range is read before any byte is written.
  method MemMove(dst: array<Byte>, d: nat, src: array<Byte>, s: nat, len: nat)
    requires d + len <= dst.Length && s + len <= src.Length
    modifies dst
    ensures forall k :: 0 <= k < d ==> dst[k] == old(dst[k])
    ensures forall k :: d <= k < d + len ==> dst[k] == old(src[s + (k - d)])
    ensures forall k :: d + len <= k < dst.Length ==> dst[k] == old(dst[k])
  {
    forall k | 0 <= k < len {
      dst[d + k] := src[s + k];
    }
  }

  // Least power of two above i, found by doubling from p.
  function PowerAbove(p: int, i: int): (r: int)
    requires p > 0
    ensures r > i && r >= p
    ensures r == p || r <= 2 * i
    decreases i - p
  {
    if p > i then p else PowerAbove(2 * p, i)
  }

  // The guard (int) j >= i keeps the request itself once the power of two no
  // longer fits a 32-bit int.
  function SnapUpSize(i: int): (r: int)
    ensures r >= i && r >= 8
    ensures i <= INT_MAX ==> r <= INT_MAX
  {
    if i < 8 then 8
    else
      var j := PowerAbove(8, i);
      if j <= INT_MAX then j else i
  }

  class Bstring {
    var data: array<Byte>
    var slen: int
    var mlen: int

    // What the source checks of a string it only reads.
    ghost predicate Readable()
      reads this
    {
      0 <= slen <= data.Length
    }

    // What the source checks of a string it writes.
    ghost predicate Valid()
      reads this
    {
      0 <= slen <= mlen == data.Length && 0 < mlen
    }

    // The string is followed by the terminating zero byte.
    ghost predicate Terminated()
      requires Readable()
      reads this, data
    {
      slen < data.Length && data[slen] == 0
    }

    ghost function Contents(): (s: seq<Byte>)
      requires Readable()
      reads this, data
    {
      data[..slen]
    }

    constructor Empty()
      ensures Valid() && Contents() == [] && Terminated() && mlen == 8 && fresh(data)
    {
      slen := 0;
      mlen := 8;
      data := new Byte[8](_ => 0);
    }

    // bstrcpy
    constructor Copy(b: Bstring)
      requires b.Readable()
      ensures Valid() && Contents() == b.Contents() && Terminated() && fresh(data) && slen == b.slen
    {
      var len := SnapUpSize(b.slen + 1);
      var x := new Byte[len];
      MemMove(x, 0, b.data, 0, b.slen);
      x[b.slen] := 0;
      slen, mlen, data := b.slen, len, x;
    }

    method Balloc(olen: int) returns (ret: int)
      requires Valid()
      modifies this
      ensures Valid() && Contents() == old(Contents())
      ensures ret == if olen <= 0 then BSTR_ERR else BSTR_OK
      ensures mlen >= old(mlen) && mlen >= olen
      ensures data == old(data) || (fresh(data) && ret == BSTR_OK)
      ensures data == old(data) ==> mlen == old(mlen)
    {
      if olen <= 0 { return BSTR_ERR; }
      if olen >= mlen {
        var len := SnapUpSize(olen);
        if len <= mlen { return BSTR_OK; }
        var x := new Byte[len];
        MemMove(x, 0, data, 0, slen);
        data := x;
        mlen := len;
        data[slen] := 0;
      }
      ret := BSTR_OK;
    }

    // bconcat, the appended string being the first len bytes of a block.
    method ConcatBlock(blk: array<Byte>, len: nat)
      requires Valid() && len <= blk.Length
      modifies this, data
      ensures Valid() && Terminated()
      ensures Contents() == old(Contents()) + old(blk[..len])
      ensures data == old(data) || fresh(data)
    {
      var d := slen;
      if mlen <= d + len + 1 {
        var r := Balloc(d + len + 1);
      }
      MemMove(data, d, blk, 0, len);
      data[d + len] := 0;
      slen := d + len;
    }

    // bdelete; a negative position shortens the length.
    method Delete(pos: int, len: int) returns (ret: int)
      requires Valid()
      modifies this`slen, data
      ensures Valid() && slen <= old(slen)
      ensures ret == if (if pos < 0 then len + pos else len) < 0 then BSTR_ERR else BSTR_OK
      ensures Contents() == Deleted(old(Contents()), pos, len)
    {
      hide Deleted;
      var p, l := if pos < 0 then 0 else pos, if pos < 0 then len + pos else len;
      if l < 0 {
        NoneDeleted(Contents(), pos, len);
        return BSTR_ERR;
      }
      if l > 0 && p < slen {
        ghost var was, goal := Contents(), Deleted(Contents(), pos, len);
        DeletedAt(was, pos, len, p, l, goal);
        assert forall k :: 0 <= k < slen ==> data[k] == was[k];
        if p + l >= slen {
          slen := p;
        } else {
          MemMove(data, p, data, p + l, slen - (p + l));
          slen := slen - l;
        }
        assert forall k :: 0 <= k < slen ==> data[k] == goal[k];
        data[slen] := 0;
        assert forall k :: 0 <= k < slen ==> data[k] == goal[k];
      } else {
        NoneDeleted(Contents(), pos, len);
      }
      return BSTR_OK;
    }

    // Room for len bytes at pos: what stood there moves up, a gap before pos is filled.
    method OpenGap(pos: nat, len: nat, fill: Byte, ghost was: seq<Byte>) returns (ret: int)
      requires Valid() && was == Contents()
      modifies this, data
      ensures Valid() && (data == old(data) || fresh(data))
      ensures ret == if pos + len < INT_MAX && |was| + len < INT_MAX then BSTR_OK else BSTR_ERR
      ensures ret == BSTR_ERR ==> slen == |was| && mlen == old(mlen) && data == old(data) && data[..] == old(data[..])
      ensures ret == BSTR_OK ==>
        && slen == (if pos > |was| then pos + len else |was| + len) && slen < mlen
        && (forall k :: 0 <= k < pos ==> data[k] == if k < |was| then was[k] else fill)
        && (forall k :: pos + len <= k < slen ==> data[k] == was[k - len])
    {
      var d, l := slen + len, pos + len;
      if d > INT_MAX || l > INT_MAX { return BSTR_ERR; }
      // one more in 32-bit arithmetic
      var want := (if l > d then l else d) + 1;
      ret := Balloc(if want > INT_MAX then want - 0x1_0000_0000 else want);
      if ret != BSTR_OK { return; }
      assert forall k :: 0 <= k < slen ==> data[k] == Contents()[k];
      if l > d {
        forall k | slen <= k < pos {
          data[k] := fill;
        }
        slen := l;
      } else {
        MemMove(data, l, data, pos, d - l);
        slen := d;
      }
    }

    // A block of the string's own memory is copied first.
    method Unaliased(blk: array<Byte>, off: nat, len: nat) returns (aux: array<Byte>, at: nat)
      requires off + len <= blk.Length
      ensures aux != data && at + len <= aux.Length && aux[at..at + len] == blk[off..off + len]
    {
      aux, at := blk, off;
      if blk == data {
        aux, at := new Byte[len], 0;
        MemMove(aux, 0, blk, off, len);
      }
    }

    // binsertblk; past the end, the gap is filled. Refused where the length with the
    // closing zero is no int.
    method InsertBlock(pos: int, blk: array<Byte>, off: nat, len: nat, fill: Byte) returns (ret: int)
      requires Valid() && off + len <= blk.Length
      modifies this, data
      ensures Valid() && (data == old(data) || fresh(data))
      ensures ret == if 0 <= pos && pos + len < INT_MAX && old(slen) + len < INT_MAX then BSTR_OK else BSTR_ERR
      ensures ret == BSTR_ERR ==>
        slen == old(slen) && mlen == old(mlen) && data == old(data) && data[..] == old(data[..])
      ensures ret == BSTR_OK ==>
        Terminated() && Contents() == Inserted(old(Contents()), pos, old(blk[off..off + len]), fill)
    {
      hide Inserted;
      if pos < 0 { return BSTR_ERR; }
      var aux, at := Unaliased(blk, off, len);
      ret := InsertSeparate(pos, aux, at, len, fill);
    }

    method InsertSeparate(pos: nat, blk: array<Byte>, off: nat, len: nat, fill: Byte) returns (ret: int)
      requires Valid() && blk != data && off + len <= blk.Length
      modifies this, data
      ensures Valid() && (data == old(data) || fresh(data))
      ensures ret == if pos + len < INT_MAX && old(slen) + len < INT_MAX then BSTR_OK else BSTR_ERR
      ensures ret == BSTR_ERR ==>
        slen == old(slen) && mlen == old(mlen) && data == old(data) && data[..] == old(data[..])
      ensures ret == BSTR_OK ==>
        Terminated() && Contents() == Inserted(old(Contents()), pos, old(blk[off..off + len]), fill)
    {
      hide Inserted;
      ghost var was, e := Contents(), blk[off..off + len];
      ghost var goal := Inserted(was, pos, e, fill);
      ret := OpenGap(pos, len, fill, was);
      if ret != BSTR_OK { return; }
      InsertedAt(was, pos, e, fill, goal);
      assert forall j :: 0 <= j < len ==> blk[off + j] == e[j];
      MemMove(data, pos, blk, off, len);
      data[slen] := 0;
      assert forall k :: 0 <= k < slen ==> data[k] == goal[k];
    }
  }

  ghost function Deleted(s: seq<Byte>, pos: int, len: int): seq<Byte> {
    var p, l := if pos < 0 then 0 else pos, if pos < 0 then len + pos else len;
    if l <= 0 || p >= |s| then s else if p + l >= |s| then s[..p] else s[..p] + s[p + l..]
  }

  ghost function Inserted(s: seq<Byte>, pos: nat, blk: seq<Byte>, fill: Byte): seq<Byte> {
    if pos <= |s| then s[..pos] + blk + s[pos..] else s + seq(pos - |s|, _ => fill) + blk
  }

  lemma InsertedAt(s: seq<Byte>, pos: nat, blk: seq<Byte>, fill: Byte, r: seq<Byte>)
    requires r == Inserted(s, pos, blk, fill)
    ensures |r| == (if pos > |s| then pos else |s|) + |blk|
    ensures forall k :: 0 <= k < pos ==> r[k] == if k < |s| then s[k] else fill
    ensures forall k :: pos <= k < pos + |blk| ==> r[k] == blk[k - pos]
    ensures forall k :: pos + |blk| <= k < |r| ==> r[k] == s[k - |blk|]
  {
  }

  lemma NoneDeleted(s: seq<Byte>, pos: int, len: int)
    requires (if pos < 0 then len + pos else len) <= 0 || pos >= |s| || s == []
    ensures Deleted(s, pos, len) == s
  {
  }

  lemma DeletedAt(s: seq<Byte>, pos: int, len: int, p: int, l: int, r: seq<Byte>)
    requires p == (if pos < 0 then 0 else pos) && l == (if pos < 0 then len + pos else len)
    requires l > 0 && p < |s| && r == Deleted(s, pos, len)
    ensures |r| == if p + l >= |s| then p else |s| - l
    ensures forall k :: 0 <= k < p ==> r[k] == s[k]
    ensures forall k :: p <= k < |r| ==> r[k] == s[k + l]
  {
  }

  lemma InsertedFront(s: seq<Byte>, blk: seq<Byte>, fill: Byte)
    ensures Inserted(s, 0, blk, fill) == blk + s
  {
  }
}
