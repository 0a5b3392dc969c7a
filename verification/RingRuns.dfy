// Whole runs of the two ring buffers, against the queue.
module RingRuns {
  import opened Bstrings
  import opened Ring
  import Fifo

  // What a looped ring holds and where it starts, and all bytes ever read from it.
  datatype Looped = Looped(queue: seq<Byte>, start: nat, taken: seq<Byte>)

  ghost predicate Within(l: Looped, capacity: nat) {
    l.start < capacity && |l.queue| <= capacity
  }

  // A ring of the given capacity after one operation: as the queue, but that a read of
  // nothing turns full contents.
  function LoopedStep(l: Looped, op: Fifo.Op, capacity: nat): (r: Looped)
    requires Within(l, capacity)
    ensures Within(r, capacity)
  {
    match op
    case Put(d) =>
      Looped(Fifo.Write(l.queue, capacity, d).1, if l.queue == [] then 0 else l.start, l.taken)
    case Take(n) =>
      var (rc, bytes, q) := Fifo.Read(l.queue, n);
      if rc == -1 then l
      else
        Looped(if n == 0 && |q| == capacity then Turn(q, l.start) else q,
          StartAfterRead(|l.queue|, l.start, n, capacity), l.taken + bytes)
  }

  function LoopedRun(ops: seq<Fifo.Op>, capacity: nat): (r: Looped)
    requires 0 < capacity
    ensures Within(r, capacity)
  {
    if ops == [] then Looped([], 0, [])
    else LoopedStep(LoopedRun(ops[..|ops| - 1], capacity), ops[|ops| - 1], capacity)
  }

  lemma NextLooped(ops: seq<Fifo.Op>, i: nat, capacity: nat)
    requires i < |ops| && 0 < capacity
    ensures LoopedRun(ops[..i + 1], capacity) == LoopedStep(LoopedRun(ops[..i], capacity), ops[i], capacity)
  {
    assert ops[..i + 1][..i] == ops[..i];
  }

  // ----- driving the rings ----------------------------------------------------------------

  // An array of given bytes.
  method Bytes(d: seq<Byte>) returns (a: array<Byte>)
    ensures fresh(a) && a[..] == d
  {
    a := new Byte[|d|](i requires 0 <= i < |d| => d[i]);
  }

  ghost predicate Holds(ring: LoopedRing, l: Looped, taken: seq<Byte>)
    reads ring, ring.buffer
  {
    ring.Valid() && ring.Contents() == l.queue && ring.start == l.start && taken == l.taken
  }

  method StepLooped(ring: LoopedRing, op: Fifo.Op, taken: seq<Byte>, ghost l: Looped) returns (taken': seq<Byte>)
    requires Holds(ring, l, taken) && Within(l, ring.length)
    modifies ring, ring.buffer
    ensures Holds(ring, LoopedStep(l, op, ring.length), taken')
  {
    hide Around, Turn, StartAfterRead;
    taken' := taken;
    match op {
      case Put(d) =>
        var data := Bytes(d);
        assert data[..|d|] == d;
        var rc := ring.Write(data, |d|);
      case Take(n) =>
        var target := new Byte[n](_ => 0);
        var rc := ring.Read(target, n);
        if rc != -1 { taken' := taken + target[..n]; }
    }
  }

  // A fresh looped ring after any run, exactly; and as the queue, nothing lost, if the run
  // is guarded.
  method RunLooped(length: nat, ops: seq<Fifo.Op>) returns (ring: LoopedRing, taken: seq<Byte>)
    requires 0 < length
    ensures fresh(ring) && ring.length == length && Holds(ring, LoopedRun(ops, length), taken)
    ensures Guarded(ops, length) ==>
      var h := Fifo.Run(ops, length);
      ring.Contents() == h.queue && taken == h.taken && taken + ring.Contents() == h.accepted
  {
    hide LoopedRun, LoopedStep, Around;
    NothingLooped(length);
    ring := new LoopedRing(length);
    taken := [];
    var i := 0;
    while i < |ops|
      invariant 0 <= i <= |ops| && fresh(ring) && fresh(ring.buffer) && ring.length == length
      invariant Holds(ring, LoopedRun(ops[..i], length), taken) && Within(LoopedRun(ops[..i], length), length)
    {
      NextLooped(ops, i, length);
      taken := StepLooped(ring, ops[i], taken, LoopedRun(ops[..i], length));
      AlwaysWithin(ops[..i + 1], length);
      i := i + 1;
    }
    assert ops[..i] == ops;
    if Guarded(ops, length) {
      GuardedAgrees(ops, length);
      assert ops[..|ops|] == ops;
      Fifo.NothingLost(ops, length);
    }
  }

  lemma NothingLooped(capacity: nat)
    requires 0 < capacity
    ensures LoopedRun([], capacity) == Looped([], 0, []) && Within(LoopedRun([], capacity), capacity)
  {
  }

  lemma AlwaysWithin(ops: seq<Fifo.Op>, capacity: nat)
    requires 0 < capacity
    ensures Within(LoopedRun(ops, capacity), capacity)
  {
  }

  // The mirrored ring is the queue over every run.
  method RunMirrored(length: nat, ops: seq<Fifo.Op>) returns (ring: MirroredRing, taken: seq<Byte>)
    requires 0 < length
    ensures fresh(ring) && ring.Valid() && ring.Contents() == Fifo.Run(ops, length).queue
    ensures taken == Fifo.Run(ops, length).taken && taken + ring.Contents() == Fifo.Run(ops, length).accepted
  {
    hide Fifo.Run, Around;
    NothingRun(length);
    ring := new MirroredRing(length);
    taken := [];
    var i := 0;
    while i < |ops|
      invariant 0 <= i <= |ops| && fresh(ring) && fresh(ring.buffer) && ring.Valid() && ring.buffer.Length == length
      invariant ring.Contents() == Fifo.Run(ops[..i], length).queue && taken == Fifo.Run(ops[..i], length).taken
    {
      Fifo.NextRun(ops, i, length);
      match ops[i] {
        case Put(d) =>
          var data := Bytes(d);
          assert data[..|d|] == d;
          var rc := ring.Write(data, |d|);
        case Take(n) =>
          var target := new Byte[n](_ => 0);
          var rc := ring.Read(target, n);
          if rc != -1 { taken := taken + target[..n]; }
      }
      i := i + 1;
    }
    assert ops[..i] == ops;
    Fifo.NothingLost(ops, length);
  }

  lemma NothingRun(capacity: nat)
    ensures Fifo.Run([], capacity) == Fifo.History([], [], [])
  {
  }

  // ----- when the looped ring is the queue ----------------------------------------------

  // The operation is no read of nothing that finds the ring full and off the front.
  ghost predicate Safe(l: Looped, op: Fifo.Op, capacity: nat) {
    op == Fifo.Take(0) && |l.queue| == capacity ==> l.start == 0
  }

  // This can be checked before every operation.
  ghost predicate Guarded(ops: seq<Fifo.Op>, capacity: nat)
    requires 0 < capacity
  {
    forall i :: 0 <= i < |ops| ==> Safe(LoopedRun(ops[..i], capacity), ops[i], capacity)
  }

  // After each operation the ring holds what the queue does, and has delivered the same.
  ghost predicate Agrees(ops: seq<Fifo.Op>, capacity: nat)
    requires 0 < capacity
  {
    forall i :: 0 <= i <= |ops| ==> Same(LoopedRun(ops[..i], capacity), Fifo.Run(ops[..i], capacity))
  }

  ghost predicate Same(l: Looped, h: Fifo.History) {
    l.queue == h.queue && l.taken == h.taken
  }

  lemma SafeStep(l: Looped, h: Fifo.History, op: Fifo.Op, capacity: nat)
    requires Within(l, capacity) && Same(l, h) && Safe(l, op, capacity)
    ensures Same(LoopedStep(l, op, capacity), Fifo.Step(h, op, capacity))
  {
    assert Turn(l.queue, 0) == l.queue;
  }

  lemma {:induction false} GuardedAgreesAt(ops: seq<Fifo.Op>, capacity: nat, i: nat)
    requires 0 < capacity && i <= |ops| && Guarded(ops, capacity)
    ensures Same(LoopedRun(ops[..i], capacity), Fifo.Run(ops[..i], capacity))
  {
    hide LoopedStep, Fifo.Step, Safe;
    if i > 0 {
      GuardedAgreesAt(ops, capacity, i - 1);
      NextLooped(ops, i - 1, capacity);
      Fifo.NextRun(ops, i - 1, capacity);
      AlwaysWithin(ops[..i - 1], capacity);
      SafeStep(LoopedRun(ops[..i - 1], capacity), Fifo.Run(ops[..i - 1], capacity), ops[i - 1], capacity);
    }
  }

  lemma GuardedAgrees(ops: seq<Fifo.Op>, capacity: nat)
    requires 0 < capacity && Guarded(ops, capacity)
    ensures Agrees(ops, capacity) && Same(LoopedRun(ops, capacity), Fifo.Run(ops, capacity))
  {
    forall i | 0 <= i <= |ops|
      ensures Same(LoopedRun(ops[..i], capacity), Fifo.Run(ops[..i], capacity))
    {
      GuardedAgreesAt(ops, capacity, i);
    }
    assert ops[..|ops|] == ops;
  }

  // Whether an operation writes, and how much it writes or reads.
  ghost function Shape(op: Fifo.Op): (bool, nat) {
    match op
    case Put(d) => (true, |d|)
    case Take(n) => (false, n)
  }

  ghost predicate SameShape(ops: seq<Fifo.Op>, ops': seq<Fifo.Op>) {
    |ops| == |ops'| && forall i :: 0 <= i < |ops| ==> Shape(ops[i]) == Shape(ops'[i])
  }

  ghost predicate SameLengths(l: Looped, h: Fifo.History, l': Looped, h': Fifo.History) {
    && |l.queue| == |l'.queue| == |h.queue| == |h'.queue| && l.start == l'.start
    && |h.accepted| == |h'.accepted| && |h.taken| == |h'.taken|
  }

  // Lengths and cursors depend on the shape of a run alone.
  lemma {:induction false} ShapeDecides(ops: seq<Fifo.Op>, ops': seq<Fifo.Op>, capacity: nat, i: nat)
    requires 0 < capacity && SameShape(ops, ops') && i <= |ops|
    ensures SameLengths(LoopedRun(ops[..i], capacity), Fifo.Run(ops[..i], capacity),
      LoopedRun(ops'[..i], capacity), Fifo.Run(ops'[..i], capacity))
  {
    hide LoopedStep, Fifo.Step, SameLengths, Shape;
    if i == 0 {
      NothingSame(capacity);
    } else {
      ShapeDecides(ops, ops', capacity, i - 1);
      NextLooped(ops, i - 1, capacity);
      NextLooped(ops', i - 1, capacity);
      Fifo.NextRun(ops, i - 1, capacity);
      Fifo.NextRun(ops', i - 1, capacity);
      StepsSame(LoopedRun(ops[..i - 1], capacity), Fifo.Run(ops[..i - 1], capacity), ops[i - 1],
        LoopedRun(ops'[..i - 1], capacity), Fifo.Run(ops'[..i - 1], capacity), ops'[i - 1], capacity);
    }
  }

  lemma NothingSame(capacity: nat)
    requires 0 < capacity
    ensures SameLengths(LoopedRun([], capacity), Fifo.Run([], capacity),
      LoopedRun([], capacity), Fifo.Run([], capacity))
  {
  }

  lemma StepsSame(l: Looped, h: Fifo.History, op: Fifo.Op, l': Looped, h': Fifo.History, op': Fifo.Op, capacity: nat)
    requires Within(l, capacity) && Within(l', capacity) && SameLengths(l, h, l', h') && Shape(op) == Shape(op')
    ensures SameLengths(LoopedStep(l, op, capacity), Fifo.Step(h, op, capacity),
      LoopedStep(l', op', capacity), Fifo.Step(h', op', capacity))
  {
  }

  // The run with other bytes: of all those accepted, the one at place t is one, the others
  // are zero.
  ghost function Marked(ops: seq<Fifo.Op>, t: int, capacity: nat): seq<Fifo.Op> {
    if ops == [] then []
    else
      var before, op := ops[..|ops| - 1], ops[|ops| - 1];
      Marked(before, t, capacity) +
        [if op.Put? then Fifo.Put(Pulse(|op.bytes|, t - |Fifo.Run(before, capacity).accepted|)) else op]
  }

  lemma {:induction false} MarkedShape(ops: seq<Fifo.Op>, t: int, capacity: nat)
    ensures SameShape(ops, Marked(ops, t, capacity))
  {
    if ops != [] {
      MarkedShape(ops[..|ops| - 1], t, capacity);
    }
  }

  lemma {:induction false} MarkedAccepts(ops: seq<Fifo.Op>, t: int, capacity: nat)
    requires 0 < capacity
    ensures var h := Fifo.Run(Marked(ops, t, capacity), capacity);
      h.accepted == Pulse(|Fifo.Run(ops, capacity).accepted|, t)
  {
    hide Pulse;
    if ops == [] {
      NoPulse(t);
    } else {
      var before, op := ops[..|ops| - 1], ops[|ops| - 1];
      var h, m := Fifo.Run(before, capacity), Marked(before, t, capacity);
      MarkedAccepts(before, t, capacity);
      MarkedShape(before, t, capacity);
      ShapeDecides(before, m, capacity, |before|);
      assert before[..|before|] == before && m[..|m|] == m && Marked(ops, t, capacity)[..|before|] == m;
      if op.Put? {
        PulseGrows(|h.accepted|, |op.bytes|, t);
      }
    }
  }

  lemma NoPulse(t: int)
    ensures Pulse(0, t) == []
  {
  }

  lemma PulseGrows(a: nat, n: nat, t: int)
    ensures Pulse(a, t) + Pulse(n, t - a) == Pulse(a + n, t) && |Pulse(n, t - a)| == n
  {
  }

  // A read of nothing that is not safe after a run: with the marked bytes ring and queue
  // part there, if they have not before.
  lemma PartsAfter(before: seq<Fifo.Op>, capacity: nat) returns (m: seq<Fifo.Op>)
    requires 0 < capacity && !Safe(LoopedRun(before, capacity), Fifo.Take(0), capacity)
    ensures SameShape(before, m)
    ensures Same(LoopedRun(m, capacity), Fifo.Run(m, capacity)) ==>
      Within(LoopedRun(m, capacity), capacity)
      && !Same(LoopedStep(LoopedRun(m, capacity), Fifo.Take(0), capacity),
        Fifo.Step(Fifo.Run(m, capacity), Fifo.Take(0), capacity))
  {
    hide LoopedRun, Fifo.Run, LoopedStep, Fifo.Step, Pulse, SameShape;
    var t := |Fifo.Run(before, capacity).taken|;
    m := Marked(before, t, capacity);
    MarkedShape(before, t, capacity);
    MarkedAccepts(before, t, capacity);
    WholeShape(before, m, capacity);
    Fifo.NothingLost(m, capacity);
    AlwaysWithin(m, capacity);
    if Same(LoopedRun(m, capacity), Fifo.Run(m, capacity)) {
      FrontMarked(LoopedRun(m, capacity), Fifo.Run(m, capacity), capacity);
    }
  }

  lemma WholeShape(ops: seq<Fifo.Op>, ops': seq<Fifo.Op>, capacity: nat)
    requires 0 < capacity && SameShape(ops, ops')
    ensures SameLengths(LoopedRun(ops, capacity), Fifo.Run(ops, capacity),
      LoopedRun(ops', capacity), Fifo.Run(ops', capacity))
  {
    ShapeDecides(ops, ops', capacity, |ops|);
    assert ops[..|ops|] == ops && ops'[..|ops|] == ops';
  }

  lemma Unguarded(ops: seq<Fifo.Op>, capacity: nat) returns (i: nat)
    requires 0 < capacity && !Guarded(ops, capacity)
    ensures i < |ops| && ops[i] == Fifo.Take(0) && !Safe(LoopedRun(ops[..i], capacity), ops[i], capacity)
  {
    i :| 0 <= i < |ops| && !Safe(LoopedRun(ops[..i], capacity), ops[i], capacity);
  }

  lemma Exchanged(ops: seq<Fifo.Op>, m: seq<Fifo.Op>, i: nat)
    requires i < |ops| && SameShape(ops[..i], m)
    ensures var ops' := m + ops[i..]; SameShape(ops', ops) && ops'[..i] == m && ops'[i] == ops[i]
  {
  }

  // Where the guard fails, the ring and the queue part for some bytes of these lengths.
  lemma Parts(ops: seq<Fifo.Op>, capacity: nat) returns (ops': seq<Fifo.Op>)
    requires 0 < capacity && !Guarded(ops, capacity)
    ensures SameShape(ops', ops) && !Agrees(ops', capacity)
  {
    hide LoopedRun, Fifo.Run, LoopedStep, Fifo.Step, SameShape, Safe, Guarded, Same;
    var i := Unguarded(ops, capacity);
    var m := PartsAfter(ops[..i], capacity);
    Exchanged(ops, m, i);
    ops' := m + ops[i..];
    NextLooped(ops', i, capacity);
    Fifo.NextRun(ops', i, capacity);
    assert !(Same(LoopedRun(ops'[..i], capacity), Fifo.Run(ops'[..i], capacity))
      && Same(LoopedRun(ops'[..i + 1], capacity), Fifo.Run(ops'[..i + 1], capacity)));
  }

  lemma FrontMarked(l: Looped, h: Fifo.History, capacity: nat)
    requires Within(l, capacity) && Same(l, h) && |l.queue| == capacity && l.start != 0
    requires h.taken + h.queue == h.accepted && h.accepted == Pulse(|h.accepted|, |h.taken|)
    ensures !Same(LoopedStep(l, Fifo.Take(0), capacity), Fifo.Step(h, Fifo.Take(0), capacity))
  {
    assert forall k :: 0 <= k < |h.queue| ==> h.queue[k] == h.accepted[|h.taken| + k];
    PulseTurns(l.queue, l.start);
    assert l.queue[0..] == l.queue && h.queue[0..] == h.queue;
  }

  // So the guard is exact: it holds if and only if the looped ring is the queue throughout
  // the run, whatever the bytes.
  lemma GuardIsExact(ops: seq<Fifo.Op>, capacity: nat)
    requires 0 < capacity
    ensures (forall ops' :: SameShape(ops', ops) ==> Agrees(ops', capacity)) <==> Guarded(ops, capacity)
  {
    hide Agrees;
    if Guarded(ops, capacity) {
      forall ops' | SameShape(ops', ops)
        ensures Agrees(ops', capacity)
      {
        GuardOfShape(ops, ops', capacity);
        GuardedAgrees(ops', capacity);
      }
    } else {
      var ops' := Parts(ops, capacity);
    }
  }

  lemma GuardOfShape(ops: seq<Fifo.Op>, ops': seq<Fifo.Op>, capacity: nat)
    requires 0 < capacity && SameShape(ops', ops) && Guarded(ops, capacity)
    ensures Guarded(ops', capacity)
  {
    hide LoopedRun, Fifo.Run;
    forall i | 0 <= i < |ops'|
      ensures Safe(LoopedRun(ops'[..i], capacity), ops'[i], capacity)
    {
      ShapeDecides(ops, ops', capacity, i);
      assert Safe(LoopedRun(ops[..i], capacity), ops[i], capacity);
    }
  }

  // A run on which they part: the ring of two bytes starts at its second one, is full, and
  // a read of nothing turns it.
  lemma TurnedRun()
    ensures var ops := [Fifo.Put([1, 2]), Fifo.Take(1), Fifo.Put([3]), Fifo.Take(0)];
      LoopedRun(ops, 2).queue == [3, 2] && Fifo.Run(ops, 2).queue == [2, 3]
  {
    hide LoopedRun, Fifo.Run, LoopedStep, Fifo.Step;
    var ops := [Fifo.Put([1, 2]), Fifo.Take(1), Fifo.Put([3]), Fifo.Take(0)];
    NothingLooped(2);
    NothingRun(2);
    NextLooped(ops, 0, 2);
    NextLooped(ops, 1, 2);
    NextLooped(ops, 2, 2);
    NextLooped(ops, 3, 2);
    Fifo.NextRun(ops, 0, 2);
    Fifo.NextRun(ops, 1, 2);
    Fifo.NextRun(ops, 2, 2);
    Fifo.NextRun(ops, 3, 2);
    TurnedSteps();
    QueueSteps();
    assert ops[..4] == ops && ops[..0] == [];
  }

  lemma TurnedSteps()
    ensures LoopedStep(Looped([], 0, []), Fifo.Put([1, 2]), 2) == Looped([1, 2], 0, [])
    ensures LoopedStep(Looped([1, 2], 0, []), Fifo.Take(1), 2) == Looped([2], 1, [1])
    ensures LoopedStep(Looped([2], 1, [1]), Fifo.Put([3]), 2) == Looped([2, 3], 1, [1])
    ensures LoopedStep(Looped([2, 3], 1, [1]), Fifo.Take(0), 2) == Looped([3, 2], 0, [1])
  {
    hide Turn;
    TurnedPair(2, 3);
  }

  lemma TurnedPair(x: Byte, y: Byte)
    ensures Turn([x, y], 1) == [y, x]
  {
  }

  lemma QueueSteps()
    ensures Fifo.Step(Fifo.History([], [], []), Fifo.Put([1, 2]), 2) == Fifo.History([1, 2], [1, 2], [])
    ensures Fifo.Step(Fifo.History([1, 2], [1, 2], []), Fifo.Take(1), 2) == Fifo.History([2], [1, 2], [1])
    ensures Fifo.Step(Fifo.History([2], [1, 2], [1]), Fifo.Put([3]), 2) == Fifo.History([2, 3], [1, 2, 3], [1])
    ensures Fifo.Step(Fifo.History([2, 3], [1, 2, 3], [1]), Fifo.Take(0), 2).queue == [2, 3]
  {
  }
}
