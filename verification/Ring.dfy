// A bounded queue of bytes, and two ring buffers that implement it.
module Fifo {
  import opened Bstrings

  // The result code and the queue after a write: all of d or nothing.
  function Write(q: seq<Byte>, capacity: nat, d: seq<Byte>): (int, seq<Byte>) {
    if |d| <= capacity - |q| then (|d|, q + d) else (-1, q)
  }

  // The result code, the bytes read and the queue after a read.
  function Read(q: seq<Byte>, amount: nat): (int, seq<Byte>, seq<Byte>) {
    if amount <= |q| then (amount, q[..amount], q[amount..]) else (-1, [], q)
  }

  // A write is refused exactly when it does not fit, a read when there is not as much.
  lemma RefusedIff(q: seq<Byte>, capacity: nat, d: seq<Byte>, amount: nat)
    ensures Write(q, capacity, d).0 == (if |q| + |d| > capacity then -1 else |d|)
    ensures Write(q, capacity, d).0 == -1 <==> |q| + |d| > capacity
    ensures Write(q, capacity, d).1 == if |q| + |d| > capacity then q else q + d
    ensures Read(q, amount).0 == -1 <==> amount > |q|
    ensures Read(q, amount).0 == if amount > |q| then -1 else amount
    ensures amount <= |q| ==> Read(q, amount).1 + Read(q, amount).2 == q && |Read(q, amount).1| == amount
    ensures amount > |q| ==> Read(q, amount).1 == [] && Read(q, amount).2 == q
  {
  }

  datatype Op = Put(bytes: seq<Byte>) | Take(amount: nat)

  // The queue, and all bytes ever accepted and ever read.
  datatype History = History(queue: seq<Byte>, accepted: seq<Byte>, taken: seq<Byte>)

  function Step(h: History, op: Op, capacity: nat): History {
    match op
    case Put(d) =>
      var (rc, q) := Write(h.queue, capacity, d);
      History(q, if rc == -1 then h.accepted else h.accepted + d, h.taken)
    case Take(n) =>
      var (rc, bytes, q) := Read(h.queue, n);
      History(q, h.accepted, h.taken + bytes)
  }

  function Run(ops: seq<Op>, capacity: nat): History {
    if ops == [] then History([], [], [])
    else Step(Run(ops[..|ops| - 1], capacity), ops[|ops| - 1], capacity)
  }

  // The run of one operation more.
  lemma NextRun(ops: seq<Op>, i: nat, capacity: nat)
    requires i < |ops|
    ensures Run(ops[..i + 1], capacity) == Step(Run(ops[..i], capacity), ops[i], capacity)
  {
    assert ops[..i + 1][..i] == ops[..i];
  }

  // How many bytes a ring of the capacity holds after a run: every write that fits adds its
  // length, every read of no more than there is takes its amount, others change nothing.
  function Held(ops: seq<Op>, capacity: nat): nat {
    if ops == [] then 0
    else
      var held := Held(ops[..|ops| - 1], capacity);
      match ops[|ops| - 1]
      case Put(d) => if held + |d| > capacity then held else held + |d|
      case Take(n) => if n > held then held else held - n
  }

  // The bytes of all writes that fitted, and how much was read.
  function Fitted(ops: seq<Op>, capacity: nat): (seq<Byte>, nat) {
    if ops == [] then ([], 0)
    else
      var before, held := Fitted(ops[..|ops| - 1], capacity), Held(ops[..|ops| - 1], capacity);
      match ops[|ops| - 1]
      case Put(d) => if held + |d| > capacity then before else (before.0 + d, before.1)
      case Take(n) => if n > held then before else (before.0, before.1 + n)
  }

  // A run accepts exactly the writes that fit, and delivers as much as the reads that can
  // be met ask for, from the front of what was accepted.
  lemma {:induction false} RunIsExact(ops: seq<Op>, capacity: nat)
    ensures var h, f := Run(ops, capacity), Fitted(ops, capacity);
      && |h.queue| == Held(ops, capacity) && h.accepted == f.0
      && f.1 <= |f.0| && h.taken == f.0[..f.1] && h.queue == f.0[f.1..]
  {
    NothingLost(ops, capacity);
    if ops != [] {
      RunIsExact(ops[..|ops| - 1], capacity);
      var h, op := Run(ops[..|ops| - 1], capacity), ops[|ops| - 1];
      RefusedIff(h.queue, capacity, if op.Put? then op.bytes else [], if op.Take? then op.amount else 0);
      Divided(Run(ops, capacity).taken, Run(ops, capacity).queue);
    }
  }

  lemma Divided(taken: seq<Byte>, queue: seq<Byte>)
    ensures taken == (taken + queue)[..|taken|] && queue == (taken + queue)[|taken|..]
  {
  }

  // Over every run bytes come out in the order written, none lost or duplicated.
  lemma {:induction false} NothingLost(ops: seq<Op>, capacity: nat)
    ensures var h := Run(ops, capacity); h.taken + h.queue == h.accepted && |h.queue| <= capacity
  {
    if ops != [] {
      NothingLost(ops[..|ops| - 1], capacity);
    }
  }
}

module Ring {
  import opened Bstrings
  import Fifo

  function Wrap(i: nat, length: nat): (w: nat)
    requires i < 2 * length
    ensures w < length
  {
    if i < length then i else i - length
  }

  lemma Mod(i: nat, length: nat)
    requires i < 2 * length
    ensures i % length == Wrap(i, length)
  {
    if i >= length {
      assert i == (i - length) + 1 * length;
    }
  }

  // How far p lies behind a, going round.
  function Behind(p: nat, a: nat, length: nat): (o: nat)
    requires p < length && a < length
    ensures o < length
  {
    if p >= a then p - a else p - a + length
  }

  // The n bytes from start on, going round.
  ghost function Around(b: seq<Byte>, start: nat, n: nat): (r: seq<Byte>)
    requires start < |b| && n <= |b|
    ensures |r| == n && forall k :: 0 <= k < n ==> r[k] == b[Wrap(start + k, |b|)]
  {
    seq(n, k requires 0 <= k < n => b[Wrap(start + k, |b|)])
  }

  // b' is b but for d, written from a on, going round.
  ghost predicate Written(b: seq<Byte>, b': seq<Byte>, a: nat, d: seq<Byte>)
    requires a < |b| && |d| <= |b|
  {
    |b'| == |b| && forall p :: 0 <= p < |b| ==>
      b'[p] == if Behind(p, a, |b|) < |d| then d[Behind(p, a, |b|)] else b[p]
  }

  lemma Appended(b: seq<Byte>, b': seq<Byte>, start: nat, n: nat, d: seq<Byte>)
    requires start < |b| && n + |d| <= |b|
    requires Written(b, b', Wrap(start + n, |b|), d)
    ensures Around(b', start, n + |d|) == Around(b, start, n) + d
  {
    var r, l := Around(b', start, n + |d|), Around(b, start, n) + d;
    forall k | 0 <= k < n + |d|
      ensures r[k] == l[k]
    {
      Gap(start, n, k, |b|);
      var p := Wrap(start + k, |b|);
      assert r[k] == b'[p];
      assert k < n ==> l[k] == b[p];
    }
  }

  lemma Gap(start: nat, n: nat, k: nat, length: nat)
    requires start < length && n <= length && k < length
    ensures Behind(Wrap(start + k, length), Wrap(start + n, length), length) ==
      if k >= n then k - n else if n - k == length then 0 else length - (n - k)
  {
  }

  lemma Dropped(b: seq<Byte>, start: nat, n: nat, a: nat)
    requires start < |b| && a <= n <= |b|
    ensures Around(b, Wrap(start + a, |b|), n - a) == Around(b, start, n)[a..]
  {
    var r, l := Around(b, Wrap(start + a, |b|), n - a), Around(b, start, n)[a..];
    forall k | 0 <= k < n - a
      ensures r[k] == l[k]
    {
      assert l[k] == Around(b, start, n)[a + k];
      assert Wrap(Wrap(start + a, |b|) + k, |b|) == Wrap(start + (a + k), |b|);
    }
  }

  // ----- the ring with a looped flag -----------------------------------------------------

  // The full contents q of a ring that starts at start, as they read from the front of
  // the block.
  function Turn(q: seq<Byte>, start: nat): seq<Byte>
    requires start <= |q|
  {
    q[|q| - start..] + q[..|q| - start]
  }

  lemma TurnedAround(b: seq<Byte>, start: nat)
    requires start < |b|
    ensures Turn(Around(b, start, |b|), start) == b && Around(b, 0, |b|) == b
  {
    var q := Around(b, start, |b|);
    forall k | 0 <= k < |b|
      ensures Turn(q, start)[k] == b[k] && Around(b, 0, |b|)[k] == b[k]
    {
      assert Turn(q, start)[k] == q[if k < start then |b| - start + k else k - start];
    }
  }

  // Turning keeps the contents, whatever they are, exactly when the ring starts at the
  // front.
  lemma ZeroRead(length: nat, start: nat)
    requires start < length
    ensures (forall q: seq<Byte> :: |q| == length ==> Turn(q, start) == q) <==> start == 0
  {
    if start == 0 {
      forall q: seq<Byte> | |q| == length
        ensures Turn(q, start) == q
      {
        assert q[|q|..] + q[..|q|] == q;
      }
    } else {
      PulseTurns(Pulse(length, 0), start);
    }
  }

  // A one at place t among zeros.
  ghost function Pulse(length: nat, t: int): (b: seq<Byte>)
    ensures |b| == length && forall k :: 0 <= k < length ==> b[k] == if k == t then 1 else 0
  {
    seq(length, k => if k == t then 1 else 0)
  }

  lemma PulseTurns(q: seq<Byte>, start: nat)
    requires 0 < start < |q| && q[0] == 1 && forall k :: 0 < k < |q| ==> q[k] == 0
    ensures Turn(q, start) != q
  {
    assert Turn(q, start)[0] == q[|q| - start] == 0;
  }

  // Where the ring starts after a read of amount bytes of the avail it holds: at the
  // front when the cursors meet, which they do on an empty ring, but on a full one too.
  function StartAfterRead(avail: nat, start: nat, amount: nat, length: nat): (s: nat)
    requires start < length && amount <= avail <= length
    ensures s < length
  {
    if avail == amount || (amount == 0 && avail == length) then 0 else Wrap(start + amount, length)
  }

  class LoopedRing {
    const buffer: array<Byte>
    const length: int
    var start: int
    var end: int
    var looped: bool

    ghost predicate Valid()
      reads this, buffer
    {
      && 0 < length == buffer.Length && 0 <= start < length && 0 <= end < length
      && if looped then end <= start else start <= end
    }

    constructor (length: nat)
      requires 0 < length
      ensures Valid() && Contents() == [] && start == 0 && this.length == length && fresh(buffer)
    {
      this.length := length;
      start, end, looped := 0, 0, false;
      buffer := new Byte[length](_ => 0);
    }

    function AvailableData(): (n: int)
      reads this, buffer
      requires Valid()
      ensures 0 <= n <= length
    {
      if !looped then end - start else length + end - start
    }

    function AvailableSpace(): int
      reads this, buffer
      requires Valid()
    {
      length - AvailableData()
    }

    ghost function Contents(): seq<Byte>
      reads this, buffer
      requires Valid()
    {
      Around(buffer[..], start, AvailableData())
    }

    method CommitWrite(n: nat)
      requires Valid() && n <= AvailableSpace()
      modifies `end, `looped
      ensures Valid() && AvailableData() == old(AvailableData()) + n
    {
      end := end + n;
      if end >= length {
        looped := true;
        Mod(end, length);
        end := end % length;
      }
    }

    // The one or two copies of a write.
    method CopyIn(data: array<Byte>, n: nat)
      requires Valid() && n <= data.Length && data != buffer && n <= AvailableSpace()
      modifies buffer
      ensures Written(old(buffer[..]), buffer[..], end, data[..n])
    {
      if !looped && length - end < n {
        MemMove(buffer, end, data, 0, length - end);
        MemMove(buffer, 0, data, length - end, n - (length - end));
      } else {
        MemMove(buffer, end, data, 0, n);
      }
    }

    // The one or two copies of a read.
    method CopyOut(target: array<Byte>, n: nat)
      requires Valid() && n <= target.Length && target != buffer && n <= AvailableData()
      modifies target
      ensures target[..n] == Contents()[..n] && target[n..] == old(target[n..])
    {
      if looped && length - start < n {
        MemMove(target, 0, buffer, start, length - start);
        MemMove(target, length - start, buffer, 0, n - length + start);
      } else {
        MemMove(target, 0, buffer, start, n);
      }
    }

    method Write(data: array<Byte>, length: nat) returns (rc: int)
      requires Valid() && length <= data.Length && data != buffer
      modifies this, buffer
      ensures Valid() && (rc, Contents()) == Fifo.Write(old(Contents()), buffer.Length, old(data[..length]))
      ensures start == if old(AvailableData()) == 0 then 0 else old(start)
    {
      if AvailableData() == 0 {
        start, end := 0, 0;
      }
      if !(length <= AvailableSpace()) {
        return -1;
      }
      ghost var b, n := buffer[..], AvailableData();
      CopyIn(data, length);
      Appended(b, buffer[..], start, n, data[..length]);
      CommitWrite(length);
      return length;
    }

    method CommitRead(n: nat)
      requires Valid() && n <= AvailableData()
      modifies `start, `looped
      ensures start == Wrap(old(start) + n, length) && looped == (old(looped) && old(start) + n < length)
    {
      start := start + n;
      if start >= length {
        looped := false;
        Mod(start, length);
        start := start % length;
      }
    }

    // A read of nothing from a full ring moves the start to the front of the buffer, as
    // if the ring were empty, which turns the contents; every other read is that of the
    // queue.
    method Read(target: array<Byte>, amount: nat) returns (rc: int)
      requires Valid() && target != buffer && amount <= target.Length
      modifies this, target
      ensures Valid()
      ensures var (r, bytes, q) := Fifo.Read(old(Contents()), amount);
        rc == r && target[..] == bytes + old(target[..])[|bytes|..]
        && Contents() == if amount == 0 && |q| == length then Turn(q, old(start)) else q
      ensures start ==
        if rc == -1 then old(start) else StartAfterRead(old(AvailableData()), old(start), amount, length)
    {
      hide Around, Turn;
      if !(amount <= AvailableData()) {
        return -1;
      }
      CopyOut(target, amount);
      TurnedAround(buffer[..], start);
      Dropped(buffer[..], start, AvailableData(), amount);
      CommitRead(amount);
      if end == start {
        start, end := 0, 0;
      }
      return amount;
    }
  }

  // ----- the ring mapped twice ------------------------------------------------------------

  lemma NextWritten(at: nat, i: nat, length: nat)
    requires i < length && at < 2 * length && at + i < 2 * length
    ensures forall p: nat :: p < length ==> (Behind(p, Wrap(at, length), length) == i <==> p == Wrap(at + i, length))
  {
  }

  // The second mapping of the same memory follows the first: address i is byte
  // Wrap(i) of it.
  class MirroredRing {
    const buffer: array<Byte>
    const length: int
    var start: int
    var end: int

    ghost predicate Valid()
      reads this, buffer
    {
      0 < length == buffer.Length && 0 <= start < length && start <= end <= start + length
    }

    ghost function Contents(): seq<Byte>
      reads this, buffer
      requires Valid()
    {
      Around(buffer[..], start, end - start)
    }

    constructor (length: nat)
      requires 0 < length
      ensures Valid() && Contents() == [] && this.length == length && fresh(buffer)
    {
      this.length := length;
      start, end := 0, 0;
      buffer := new Byte[length](_ => 0);
    }

    // memcpy into the mapping.
    method CopyIn(at: nat, data: array<Byte>, n: nat)
      requires Valid() && data != buffer && n <= length && n <= data.Length && at + n <= 2 * length && at < 2 * length
      modifies buffer
      ensures Written(old(buffer[..]), buffer[..], Wrap(at, length), data[..n])
    {
      ghost var b := buffer[..];
      var i := 0;
      while i < n
        invariant 0 <= i <= n && Written(b, buffer[..], Wrap(at, length), data[..i])
      {
        buffer[Wrap(at + i, length)] := data[i];
        NextWritten(at, i, length);
        i := i + 1;
      }
    }

    method CopyOut(at: nat, target: array<Byte>, n: nat)
      requires Valid() && target != buffer && n <= length && n <= target.Length && at + n <= 2 * length
      modifies target
      ensures forall j :: 0 <= j < n ==> target[j] == buffer[Wrap(at + j, length)]
      ensures forall j :: n <= j < target.Length ==> target[j] == old(target[j])
    {
      var i := 0;
      while i < n
        invariant 0 <= i <= n
        invariant forall j :: 0 <= j < i ==> target[j] == buffer[Wrap(at + j, length)]
        invariant forall j :: i <= j < target.Length ==> target[j] == old(target[j])
      {
        target[i] := buffer[Wrap(at + i, length)];
        i := i + 1;
      }
    }

    method Write(data: array<Byte>, length: nat) returns (rc: int)
      requires Valid() && length <= data.Length && data != buffer
      modifies this, buffer
      ensures Valid() && (rc, Contents()) == Fifo.Write(old(Contents()), buffer.Length, old(data[..length]))
    {
      if !(length <= this.length - end + start) {
        return -1;
      }
      ghost var b := buffer[..];
      CopyIn(end, data, length);
      Appended(b, buffer[..], start, end - start, data[..length]);
      end := end + length;
      return length;
    }

    method Read(target: array<Byte>, amount: nat) returns (rc: int)
      requires Valid() && target != buffer && amount <= target.Length
      modifies this, target
      ensures Valid()
      ensures var (r, bytes, q) := Fifo.Read(old(Contents()), amount);
        rc == r && target[..] == bytes + old(target[..])[|bytes|..] && Contents() == q
    {
      if !(amount <= end - start) {
        return -1;
      }
      CopyOut(start, target, amount);
      Dropped(buffer[..], start, end - start, amount);
      start := start + amount;
      if start >= length {
        start := start - length;
        end := end - length;
      }
      return amount;
    }
  }
}
