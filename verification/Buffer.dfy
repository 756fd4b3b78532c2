/** The growable buffer behind both directions of the connection, as a value. */
module Buffer {
  import opened Bytes

  const INIT_SIZE: nat := 4096
  const MAX_MESSAGE_SIZE: nat := 0x1000_0000   // 256 MB

  /** A buffer of `cap` bytes: `data` is what lies below `end`, the readable or sendable part starts at `pos`. */
  datatype Buf = Buf(cap: nat, pos: nat, data: bytes) {
    ghost predicate Valid() { 0 < cap && pos <= |data| <= cap }

    function End(): nat { |data| }

    function Live(): bytes
      requires pos <= |data|
    {
      data[pos..]
    }
  }

  function Reset(b: Buf): Buf {
    Buf(b.cap, 0, [])
  }

  function Compact(b: Buf): Buf
    requires b.Valid()
  {
    Buf(b.cap, 0, b.Live())
  }

  /** An empty window goes back to offset 0. */
  function Rewind(b: Buf): Buf {
    if b.pos == |b.data| then Reset(b) else b
  }

  /** The first of ns, 2 ns, 4 ns, ... that is at least `need`. */
  function Doubled(ns: nat, need: nat): (r: nat)
    requires ns > 0
    ensures ns <= r && need <= r
    decreases need - ns
  {
    if ns < need then Doubled(2 * ns, need) else ns
  }

  /** The capacity is the first of the doublings that is enough. */
  lemma {:induction false} DoubledIsLeast(ns: nat, need: nat)
    requires ns > 0
    ensures var r := Doubled(ns, need);
            Doubling(ns, r) && forall c: nat :: Doubling(ns, c) && c < r ==> c < need
    decreases need - ns
  {
    if ns < need {
      DoubledIsLeast(2 * ns, need);
      DoublingOn(ns, Doubled(2 * ns, need));
      forall c: nat | Doubling(ns, c) && c < Doubled(ns, need)
        ensures c < need
      {
        DoublingOn(ns, c);
      }
    } else {
      forall c: nat | Doubling(ns, c)
        ensures c >= ns
      {
        DoublingAtLeast(ns, c);
      }
    }
  }

  /** The limits in numbers: 4096 bytes at first, 256 MB at most; a C string ends before its first NUL. */
  lemma Sizes(data: bytes, len: nat)
    requires len <= |data| && (len == 0 ==> NUL in data)
    ensures INIT_SIZE == 4096 && MAX_MESSAGE_SIZE == 268435456
    ensures len > 0 ==> Sized(data, len) == data[..len]
    ensures len == 0 ==> NUL !in Sized(data, 0) && Sized(data, 0) + [0] <= data
  {
    if len == 0 {
      var k := Scan(data, 0, IsNul);
      assert data[..k] + [data[k]] == data[..k + 1];
    }
  }

  /** Doubling for x and then for y is doubling for the larger of them. */
  lemma {:induction false} DoubledAgain(ns: nat, x: nat, y: nat)
    requires ns > 0 && x <= y
    ensures Doubled(Doubled(ns, x), y) == Doubled(ns, y)
    decreases x - ns
  {
    if ns < x {
      DoubledAgain(2 * ns, x, y);
    }
  }

  /** Where a buffer of `cap` bytes that doubles when full stops: at the limit, or where memory runs out. */
  function Ceiling(cap: nat, limit: nat, alloc: nat -> bool): (r: nat)
    requires cap > 0
    ensures cap <= r
    decreases limit - cap
  {
    if cap < limit && alloc(2 * cap) then Ceiling(2 * cap, limit, alloc) else cap
  }

  /** Growing on the way does not change where it stops. */
  lemma {:induction false} CeilingFrom(cap: nat, need: nat, limit: nat, alloc: nat -> bool)
    requires cap > 0 && need <= Ceiling(cap, limit, alloc)
    ensures Doubled(cap, need) <= Ceiling(cap, limit, alloc)
    ensures Ceiling(Doubled(cap, need), limit, alloc) == Ceiling(cap, limit, alloc)
    decreases need - cap
  {
    if cap < need {
      CeilingFrom(2 * cap, need, limit, alloc);
    }
  }

  /** When memory does not run out the limit is reached. */
  lemma {:induction false} CeilingReached(cap: nat, limit: nat, alloc: nat -> bool)
    requires cap > 0 && forall n :: alloc(n)
    ensures Ceiling(cap, limit, alloc) == Doubled(cap, limit) >= limit
    decreases limit - cap
  {
    if cap < limit {
      CeilingReached(2 * cap, limit, alloc);
    }
  }

  /**
   * A fresh allocation of ns bytes receives the live bytes at offset 0 while pos and end stay what they were,
   * so the pos bytes below end that were not copied are whatever the allocation held (junk).
   */
  function Grow(b: Buf, ns: nat, junk: bytes): Buf
    requires b.Valid() && |junk| == b.pos
  {
    Buf(ns, b.pos, b.Live() + junk)
  }

  /** The buffer just before the allocation is considered: rewound, and compacted if that alone makes the room. */
  function Settled(b: Buf, size: nat, compact: bool): Buf
    requires b.Valid()
  {
    var r := Rewind(b);
    if compact && r.pos > 0 && r.cap - r.End() < size <= r.cap - r.End() + r.pos then Compact(r) else r
  }

  datatype Ensured = Refused(b: Buf) | Ready(b: Buf)

  /** Making room for `size` bytes behind end; `alloc` says whether the allocation succeeds. */
  function Ensure(b: Buf, size: nat, compact: bool, alloc: bool, junk: bytes): Ensured
    requires b.Valid() && |junk| >= b.pos
  {
    var r := Settled(b, size, compact);
    if r.cap - r.End() >= size then Ready(r)
    else if r.cap >= MAX_MESSAGE_SIZE || !alloc then Refused(r)
    else Ready(Grow(r, Doubled(2 * r.cap, |r.Live()| + size), junk[..r.pos]))
  }

  /** The request forces a growth while sent bytes still stand in front of unsent ones. */
  predicate GrowsWhileOffset(b: Buf, size: nat)
    requires b.Valid()
  {
    0 < b.pos < |b.data| && size > b.cap - |b.Live()|
  }

  lemma EnsureValid(b: Buf, size: nat, compact: bool, alloc: bool, junk: bytes)
    requires b.Valid() && |junk| >= b.pos
    ensures Ensure(b, size, compact, alloc, junk).b.Valid()
    ensures var r := Ensure(b, size, compact, alloc, junk).b.cap;
            r == b.cap || (b.cap < MAX_MESSAGE_SIZE && r >= 2 * b.cap)
  {
  }

  /** Without a growth behind a partly sent window, the window keeps its bytes and the room is there. */
  lemma EnsureKeepsWindow(b: Buf, size: nat, alloc: bool, junk: bytes)
    requires b.Valid() && |junk| >= b.pos && !GrowsWhileOffset(b, size)
    ensures var r := Ensure(b, size, true, alloc, junk);
            && r.b.Valid() && r.b.Live() == b.Live()
            && (r.Ready? ==> r.b.cap - r.b.End() >= size)
            && (r.Refused? ==> b.cap >= MAX_MESSAGE_SIZE || !alloc)
  {
  }

  /** Reading in the bytes that a growth with pos > 0 puts into the window: the first pos live bytes are gone. */
  lemma OffsetGrowthShifts(b: Buf, size: nat, junk: bytes)
    requires b.Valid() && |junk| >= b.pos && GrowsWhileOffset(b, size) && b.cap < MAX_MESSAGE_SIZE
    ensures var r := Ensure(b, size, true, true, junk);
            r.Ready? && r.b.Valid() && r.b.Live() == (b.Live() + junk[..b.pos])[b.pos..] && |r.b.Live()| == |b.Live()|
  {
  }

  /**
   * A concrete loss: from an empty buffer three bytes are queued and one is sent; queueing 4095 more then turns the
   * window [2, 3] into [3, 0].
   */
  lemma OffsetGrowthExample()
    ensures var o, ops := Out(Buf(INIT_SIZE, 0, []), [], []), [Queue([1, 2, 3], true, []), Send(1)];
            var b := Buf(INIT_SIZE, 1, [1, 2, 3]);
            && AllowedRun(o, ops) && WriteRun(o, ops) == Out(b, [1], [1, 2, 3])
            && b.Live() == [2, 3] && Ensure(b, 4095, true, true, [0]).b.Live() == [3, 0]
  {
    var o, ops := Out(Buf(INIT_SIZE, 0, []), [], []), [Queue([1, 2, 3], true, []), Send(1)];
    var p := WriteStep(o, ops[0]);
    assert p == Out(Buf(INIT_SIZE, 0, [1, 2, 3]), [], [1, 2, 3]);
    assert ops[1..] == [Send(1)] && ops[1..][1..] == [];
    assert p.b.Live()[..1] == [1];
    assert AllowedRun(p, ops[1..]);
    var b := Buf(INIT_SIZE, 1, [1, 2, 3]);
    OffsetGrowthShifts(b, 4095, [0]);
    assert b.Live() + [0][..1] == [2, 3, 0];
  }

  /**
   * Exactly when making room is harmless: whatever the allocator hands out, the window is kept
   * if and only if the request does not grow the buffer behind a partly sent window.
   */
  lemma WindowKeptIff(b: Buf, size: nat)
    requires b.Valid() && b.cap < MAX_MESSAGE_SIZE
    ensures !GrowsWhileOffset(b, size) <==>
            forall junk: bytes :: |junk| == b.pos ==> Ensure(b, size, true, true, junk).b.Live() == b.Live()
  {
    if GrowsWhileOffset(b, size) {
      var last := b.Live()[|b.Live()| - 1];
      var other: byte := if last == 0 then 1 else 0;
      var junk: bytes := seq(b.pos, _ => other);
      OffsetGrowthShifts(b, size, junk);
      var w := Ensure(b, size, true, true, junk).b.Live();
      assert junk[..b.pos] == junk;
      assert w == (b.Live() + junk)[b.pos..];
      assert w[|w| - 1] == other;
    } else {
      forall junk: bytes | |junk| == b.pos
        ensures Ensure(b, size, true, true, junk).b.Live() == b.Live()
      {
        EnsureKeepsWindow(b, size, true, junk);
      }
    }
  }

  // ---------------------------------------------------------------------------------------------
  // The write side: messages queued, bytes handed to the socket
  // ---------------------------------------------------------------------------------------------

  /** What a message argument denotes: `size` bytes, or a C string when size is 0. */
  function Sized(message: bytes, size: nat): bytes
    requires size <= |message|
  {
    if size == 0 then message[..Scan(message, 0, IsNul)] else message[..size]
  }

  /** Overrun: the copy would pass the end of the allocation, which C leaves undefined. */
  datatype Added = Dropped(b: Buf) | Added(b: Buf) | Overrun

  function AddMessage(b: Buf, m: bytes, alloc: bool, junk: bytes): (r: Added)
    requires b.Valid() && |junk| >= b.pos
    ensures !r.Overrun? ==> r.b.Valid()
  {
    EnsureValid(b, |m|, true, alloc, junk);
    if m == [] then Added(b)
    else
      match Ensure(b, |m|, true, alloc, junk)
      case Refused(r) => Dropped(r)
      case Ready(r) => if r.End() + |m| > r.cap then Overrun else Added(Buf(r.cap, r.pos, r.data + m))
  }

  /** The new allocation has room for the live bytes and the message, but not for the message behind end. */
  predicate Overruns(b: Buf, size: nat)
    requires b.Valid()
  {
    GrowsWhileOffset(b, size) && b.cap < MAX_MESSAGE_SIZE && b.End() + size > Doubled(2 * b.cap, |b.Live()| + size)
  }

  lemma OverrunIff(b: Buf, m: bytes, alloc: bool, junk: bytes)
    requires b.Valid() && |junk| >= b.pos
    ensures AddMessage(b, m, alloc, junk).Overrun? <==> alloc && Overruns(b, |m|)
  {
    if !GrowsWhileOffset(b, |m|) {
      EnsureKeepsWindow(b, |m|, alloc, junk);
    }
  }

  /** The socket took k bytes of the window. */
  function Sent(b: Buf, k: nat): Buf
    requires b.Valid() && k <= |b.Live()|
  {
    Rewind(Buf(b.cap, b.pos + k, b.data))
  }

  /** Queue: one add_message call. Send: one send on a non-empty window, k == 0 when it would block. */
  datatype WriteOp = Queue(m: bytes, alloc: bool, junk: bytes) | Send(k: nat)

  /** The buffer, and ghostly everything the socket took and everything that was accepted for sending. */
  datatype Out = Out(b: Buf, sent: bytes, queued: bytes) {
    ghost predicate Conserved() { b.Valid() && sent + b.Live() == queued }
  }

  /** The op can happen in o, and does not grow the buffer behind a partly sent window. */
  predicate Allowed(o: Out, op: WriteOp)
    requires o.b.Valid()
  {
    match op
    case Queue(m, alloc, junk) => |junk| >= o.b.pos && !GrowsWhileOffset(o.b, |m|)
    case Send(k) => k <= |o.b.Live()|
  }

  function WriteStep(o: Out, op: WriteOp): (r: Out)
    requires o.b.Valid() && Allowed(o, op)
    ensures r.b.Valid()
  {
    match op
    case Queue(m, alloc, junk) =>
      (match AddMessage(o.b, m, alloc, junk)
       case Dropped(b) => Out(b, o.sent, o.queued)
       case Added(b) => Out(b, o.sent, o.queued + m)
       case Overrun => o)
    case Send(k) => Out(Sent(o.b, k), o.sent + o.b.Live()[..k], o.queued)
  }

  lemma QueueConserves(o: Out, m: bytes, alloc: bool, junk: bytes)
    requires o.Conserved() && |junk| >= o.b.pos && !GrowsWhileOffset(o.b, |m|)
    ensures !AddMessage(o.b, m, alloc, junk).Overrun?
    ensures WriteStep(o, Queue(m, alloc, junk)).Conserved()
  {
    hide Ensure;
    if m == [] {
      assert o.queued + m == o.queued;
    } else {
      EnsureKeepsWindow(o.b, |m|, alloc, junk);
      var r := Ensure(o.b, |m|, true, alloc, junk).b;
      assert r.pos <= |r.data| ==> (r.data + m)[r.pos..] == r.data[r.pos..] + m;
      assert o.sent + (r.Live() + m) == (o.sent + r.Live()) + m;
    }
  }

  lemma SendConserves(o: Out, k: nat)
    requires o.Conserved() && k <= |o.b.Live()|
    ensures WriteStep(o, Send(k)).Conserved()
  {
    var w := o.b.Live();
    assert w == w[..k] + w[k..];
    assert o.b.data[o.b.pos + k..] == w[k..];
    assert o.sent + w == (o.sent + w[..k]) + w[k..];
  }

  lemma StepConserves(o: Out, op: WriteOp)
    requires o.Conserved() && Allowed(o, op)
    ensures WriteStep(o, op).Conserved()
  {
    hide AddMessage, Sent, Ensure;
    match op
    case Queue(m, alloc, junk) => QueueConserves(o, m, alloc, junk);
    case Send(k) => SendConserves(o, k);
  }

  /** A run in which no queueing grows the buffer behind a partly sent window. */
  predicate AllowedRun(o: Out, ops: seq<WriteOp>)
    requires o.b.Valid()
    decreases |ops|
  {
    ops == [] || (Allowed(o, ops[0]) && AllowedRun(WriteStep(o, ops[0]), ops[1..]))
  }

  function WriteRun(o: Out, ops: seq<WriteOp>): Out
    requires o.b.Valid() && AllowedRun(o, ops)
    decreases |ops|
  {
    if ops == [] then o else WriteRun(WriteStep(o, ops[0]), ops[1..])
  }

  /** Conservation on the write side: over any such run, bytes sent and bytes waiting are the bytes queued, in order. */
  lemma {:induction false} WriteConservation(o: Out, ops: seq<WriteOp>)
    requires o.Conserved() && AllowedRun(o, ops)
    ensures WriteRun(o, ops).Conserved()
    ensures o.queued <= WriteRun(o, ops).queued && o.sent <= WriteRun(o, ops).sent
    decreases |ops|
  {
    hide AddMessage, Ensure;
    if ops != [] {
      StepConserves(o, ops[0]);
      WriteConservation(WriteStep(o, ops[0]), ops[1..]);
    }
  }
}
