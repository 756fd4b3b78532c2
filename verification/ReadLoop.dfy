/** The read side as it runs: receive into the buffer, parse in place, hand frames over, compact, grow. */
module ReadLoop {
  import opened Bytes
  import opened Wire
  import opened WireStability
  import opened WireContent
  import opened WireInPlace
  import opened Session
  import opened SessionObject
  import opened Stream
  import opened ReadLimits
  import opened BufferObject
  import B = Buffer

  /** Idle: all frames handled, room to receive. Otherwise the connection is closed; NoRoom: for size or memory. */
  datatype Outcome = Idle | Stopped(stop: Stop) | NoRoom

  /** One round on the buffer: a frame of n bytes was handled, or an outcome was reached. */
  datatype Round = Skip(n: nat) | End(outcome: Outcome)

  /** A buffer waiting for more: at least one byte is offered to the next receive. */
  ghost predicate Offering(b: B.Buf) {
    b.Valid() && CapInv(b.cap) && b.End() + 1 < b.cap
  }

  /** A full buffer that is not too large doubles exactly and keeps its bytes. */
  lemma DoublesExactly(b: B.Buf, junk: bytes)
    requires b.Valid() && CapInv(b.cap) && b.pos == 0 && b.End() == b.cap - 1 && b.cap < B.MAX_MESSAGE_SIZE
    ensures var r := B.Ensure(b, b.cap - 1, false, true, junk);
            r.Ready? && r.b == B.Buf(2 * b.cap, 0, b.data) && Offering(r.b)
  {
    MaxIsDoubling();
    DoublingGap(B.INIT_SIZE, b.cap, B.MAX_MESSAGE_SIZE);
    DoublingAtLeast(B.INIT_SIZE, b.cap);
    assert junk[..0] == [];
    assert b.data[0..] == b.data;
    assert b.data + [] == b.data;
  }

  /**
   * More bytes are needed: compact, and grow a full buffer unless that exceeds the limits or memory runs out.
   * alloc(n) says whether an allocation of n bytes succeeds.
   */
  method MakeRoom(conn: Conn, rbuf: NatsBuf, alloc: nat -> bool) returns (outcome: Outcome)
    requires rbuf.Valid() && CapInv(rbuf.Val().cap) && rbuf.end < rbuf.buf.Length
    modifies rbuf, rbuf.buf
    ensures rbuf.Valid() && CapInv(rbuf.Val().cap) && (rbuf.buf == old(rbuf.buf) || fresh(rbuf.buf))
    ensures rbuf.pos == 0 && rbuf.Val().Live() == old(rbuf.Val().Live())
    ensures var w, top := |rbuf.Val().Live()|, B.Ceiling(old(rbuf.Val().cap), Limit(conn.Val()), alloc);
            if w + 1 >= top then outcome == NoRoom && rbuf.Val().cap == top
            else outcome == Idle && rbuf.Val().cap == B.Doubled(old(rbuf.Val().cap), w + 2) && Offering(rbuf.Val())
    ensures var w, cap := |rbuf.Val().Live()|, old(rbuf.Val().cap);
            outcome == NoRoom <==>
            w + 1 == cap && (cap >= 0x1000_0000 || 0 < conn.server.maxPayload <= cap || !alloc(2 * cap))
  {
    rbuf.Compact();
    if rbuf.end >= rbuf.buf.Length - 1 {
      var smp, cap := conn.server.maxPayload, rbuf.buf.Length;
      assert cap >= B.INIT_SIZE by { DoublingAtLeast(B.INIT_SIZE, cap); }
      assert ((smp > 0 && cap >= smp) || cap >= B.MAX_MESSAGE_SIZE) == (cap >= Limit(conn.Val()));
      hide Limit;
      if (smp > 0 && cap >= smp) || cap >= B.MAX_MESSAGE_SIZE {
        return NoRoom;
      }
      ghost var full := rbuf.Val();
      var ok; ghost var junk;
      ok, junk := rbuf.Ensure(cap - 1, false, alloc(2 * cap));
      if !ok {
        assert rbuf.Val() == full;
        return NoRoom;
      }
      DoublesExactly(full, junk);
    }
    return Idle;
  }

  /** The frame at the front of the window, parsed in place: what it carries, and the rest of the window untouched. */
  method TakeFrame(rbuf: NatsBuf) returns (v: Verdict, c: Content)
    requires rbuf.Valid()
    modifies rbuf.buf
    ensures rbuf.Valid() && rbuf.Val().cap == old(rbuf.Val().cap)
    ensures var s := old(rbuf.Val().Live());
            && v == Parse(s)
            && (v.Frame? ==> v.n <= |s| && c == FrameContent(s) && rbuf.Val().Live()[v.n..] == s[v.n..])
            && (!v.Frame? ==> rbuf.Val() == old(rbuf.Val()))
  {
    hide Parse;
    ghost var s := rbuf.Val().Live();
    v := ParseWindow(rbuf);
    hide Patched;
    if v.Frame? {
      FrameBounds(s);
      PatchIsFramed(s, v.n, v.msg);
      c := ContentOf(rbuf.buf[rbuf.pos..rbuf.end], v.n, v.msg);
      assert rbuf.buf[rbuf.pos..rbuf.end] == rbuf.Val().Live();
    } else {
      c := Ok;
    }
  }

  /** Parsing in place, seen from the window. */
  method ParseWindow(rbuf: NatsBuf) returns (v: Verdict)
    requires rbuf.Valid()
    modifies rbuf.buf
    ensures rbuf.Valid() && rbuf.Val().cap == old(rbuf.Val().cap) && v == Parse(old(rbuf.Val().Live()))
    ensures v.Frame? ==> rbuf.Val().Live() == Patched(old(rbuf.Val().Live()), v.msg)
    ensures !v.Frame? ==> rbuf.Val() == old(rbuf.Val())
  {
    hide Parse, Stored, Patched;
    ghost var before := rbuf.buf[..];
    ghost var s := rbuf.buf[rbuf.pos..rbuf.end];
    assert s == rbuf.Val().Live();
    v := ParseInPlace(rbuf.buf, rbuf.pos, rbuf.end - rbuf.pos);
    StoredWindow(before, rbuf.pos, s, v);
    assert rbuf.Val().Live() == rbuf.buf[..][rbuf.pos..rbuf.end];
    if !v.Frame? {
      assert rbuf.buf[..rbuf.end] == rbuf.buf[..][..rbuf.end];
    }
  }

  lemma StoredWindow(before: bytes, base: nat, s: bytes, v: Verdict)
    requires base + |s| <= |before| && before[base..base + |s|] == s
    ensures |Stored(before, base, s, v)| == |before|
    ensures Stored(before, base, s, v)[base..base + |s|] == if v.Frame? then Patched(s, v.msg) else s
    ensures !v.Frame? ==> Stored(before, base, s, v) == before
  {
    hide Patched;
  }

  /** One round of the processing loop. */
  method ProcessMessage(conn: Conn, rbuf: NatsBuf, alloc: nat -> bool) returns (r: Round)
    requires rbuf.Valid() && CapInv(rbuf.Val().cap) && rbuf.end < rbuf.buf.Length
    modifies conn, rbuf, rbuf.buf
    ensures rbuf.Valid() && CapInv(rbuf.Val().cap) && (rbuf.buf == old(rbuf.buf) || fresh(rbuf.buf))
    ensures var s, cap := old(rbuf.Val().Live()), rbuf.Val().cap;
            var l := Load(old(conn.Val()), old(rbuf.Val().cap), s, alloc, conn.strtod);
            match r
            case Skip(n) =>
              && rbuf.end < rbuf.buf.Length && 0 < n <= |s| == |rbuf.Val().Live()| && rbuf.Val().Live()[n..] == s[n..]
              && l == Load(conn.Val(), cap, s[n..], alloc, conn.strtod)
            case End(Idle) =>
              Offering(rbuf.Val()) && l == Loaded(Drained(conn.Val(), rbuf.Val().Live(), Waiting), cap, false)
            case End(Stopped(stop)) => stop != Waiting && l == Loaded(Drained(conn.Val(), s, stop), cap, false)
            case End(NoRoom) => l == Loaded(Drained(conn.Val(), s, Waiting), cap, true)
  {
    hide Parse, Handle, FrameContent, Load, Limit;
    ghost var h, s := conn.Val(), rbuf.Val().Live();
    if rbuf.pos == rbuf.end {
      EmptyWaits(h, rbuf.Val().cap, alloc, conn.strtod);
      DoublingAtLeast(B.INIT_SIZE, rbuf.buf.Length);
      rbuf.Compact();
      return End(Idle);
    }
    var v, c := TakeFrame(rbuf);
    match v
    case Again =>
      LoadWaiting(h, rbuf.Val().cap, s, alloc, conn.strtod);
      var outcome := MakeRoom(conn, rbuf, alloc);
      return End(outcome);
    case Bad(f) =>
      LoadInWindow(h, rbuf.Val().cap, s, alloc, conn.strtod);
      return End(Stopped(Faulty(f)));
    case Frame(n, _) =>
      FrameBounds(s);
      LoadInWindow(h, rbuf.Val().cap, s, alloc, conn.strtod);
      var ok := conn.HandleFrame(c);
      if !ok {
        return End(Stopped(Rejected));
      }
      return Skip(n);
  }

  /** A message that the window holds whole needs no growth. */
  lemma LoadInWindow(h: Sess, cap: nat, s: bytes, alloc: nat -> bool, strtod: bytes -> bool)
    requires |s| < cap && !Parse(s).Again?
    ensures Parse(s).Bad? ==>
              Load(h, cap, s, alloc, strtod) == Loaded(Drained(h, s, Faulty(Parse(s).fault)), cap, false)
    ensures Parse(s).Frame? ==>
              var (h1, ok) := Handle(h, FrameContent(s), strtod);
              Parse(s).n <= |s| &&
              Load(h, cap, s, alloc, strtod) ==
              if ok then Load(h1, cap, s[Parse(s).n..], alloc, strtod) else Loaded(Drained(h1, s, Rejected), cap, false)
  {
    PeakStable(s, []);
    hide Parse, Handle, FrameContent, Peak, Limit;
    if Parse(s).Frame? {
      FrameBounds(s);
    }
  }

  lemma EmptyWaits(h: Sess, cap: nat, alloc: nat -> bool, strtod: bytes -> bool)
    requires cap > 1
    ensures Parse([]).Again? && Load(h, cap, [], alloc, strtod) == Loaded(Drained(h, [], Waiting), cap, false)
  {
    hide Load;
    LoadOffering(h, cap, [], alloc, strtod);
  }

  /** How a loop that reached `outcome` stands to the reference reading l. */
  ghost predicate Reached(outcome: Outcome, h: Sess, b: B.Buf, l: Loaded) {
    && b.Valid() && l.d.h == h && l.cap == b.cap
    && match outcome
       case Idle => Offering(b) && l == Loaded(Drained(h, b.Live(), Waiting), b.cap, false)
       case Stopped(stop) => !l.full && l.d.stop == stop != Waiting
       case NoRoom => l.full
  }

  /** The processing loop: all complete frames of the window, in order. */
  method ProcessBuffer(conn: Conn, rbuf: NatsBuf, alloc: nat -> bool) returns (outcome: Outcome)
    requires rbuf.Valid() && CapInv(rbuf.Val().cap) && rbuf.end < rbuf.buf.Length
    modifies conn, rbuf, rbuf.buf
    ensures rbuf.Valid() && CapInv(rbuf.Val().cap) && (rbuf.buf == old(rbuf.buf) || fresh(rbuf.buf))
    ensures var l := Load(old(conn.Val()), old(rbuf.Val().cap), old(rbuf.Val().Live()), alloc, conn.strtod);
            Reached(outcome, conn.Val(), rbuf.Val(), l)
  {
    hide Parse, Handle, FrameContent, Load;
    ghost var l := Load(conn.Val(), rbuf.Val().cap, rbuf.Val().Live(), alloc, conn.strtod);
    while true
      invariant rbuf.Valid() && CapInv(rbuf.Val().cap) && rbuf.end < rbuf.buf.Length
      invariant rbuf.buf == old(rbuf.buf) || fresh(rbuf.buf)
      invariant Load(conn.Val(), rbuf.Val().cap, rbuf.Val().Live(), alloc, conn.strtod) == l
      decreases rbuf.end - rbuf.pos
    {
      ghost var s := rbuf.Val().Live();
      var r := ProcessMessage(conn, rbuf, alloc);
      match r
      case End(o) => return o;
      case Skip(n) =>
        assert rbuf.Val().Live()[n..] == rbuf.Val().data[rbuf.pos + n..];
        rbuf.pos := rbuf.pos + n;
    }
  }

  // Receiving

  /** What is left of a stream that the reader waits with is an incomplete message. */
  lemma LoadWaits(h: Sess, cap: nat, s: bytes, alloc: nat -> bool, strtod: bytes -> bool)
    requires cap > 0
    ensures var l := Load(h, cap, s, alloc, strtod); !l.full && l.d.stop.Waiting? ==> Parse(l.d.rest).Again?
  {
    LoadIsDrain(h, cap, s, alloc, strtod);
    hide Parse, Load, Drain;
    if Drain(h, s, strtod).stop.Waiting? {
      WaitingRest(h, s, strtod);
    }
  }

  /** One receive of `chunk` behind `live`, with `more` of the stream still to come. */
  lemma OneRead(h: Sess, cap: nat, live: bytes, chunk: bytes, more: bytes, alloc: nat -> bool, strtod: bytes -> bool)
    requires cap > 0 && Has(h.state, BYTES_EXCHANGED)
    ensures var i := Load(h, cap, live + chunk, alloc, strtod);
            var j := Load(h, cap, live + (chunk + more), alloc, strtod);
            && Has(i.d.h.state, BYTES_EXCHANGED)
            && (if !i.full && i.d.stop.Waiting? then
                  Parse(i.d.rest).Again? && j == Load(i.d.h, i.cap, i.d.rest + more, alloc, strtod)
                else j.d.h == i.d.h && j.d.stop == i.d.stop && j.cap == i.cap && j.full == i.full)
  {
    hide Parse, Load, Has;
    assert live + (chunk + more) == live + chunk + more;
    LoadKeepsBytes(h, cap, live + chunk, alloc, strtod);
    LoadWaits(h, cap, live + chunk, alloc, strtod);
    LoadSplit(h, cap, live + chunk, more, alloc, strtod);
  }

  /** The receive itself: n bytes behind end, n at least 1 and at most what is offered. */
  method Receive(conn: Conn, rbuf: NatsBuf, chunk: bytes, alloc: nat -> bool) returns (outcome: Outcome)
    requires rbuf.Valid() && Offering(rbuf.Val()) && 0 < |chunk| <= rbuf.buf.Length - rbuf.end - 1
    modifies conn, rbuf, rbuf.buf
    ensures rbuf.Valid() && CapInv(rbuf.Val().cap) && (rbuf.buf == old(rbuf.buf) || fresh(rbuf.buf))
    ensures var s := old(rbuf.Val().Live()) + chunk;
            var l := Load(Exchanged(old(conn.Val())), old(rbuf.Val().cap), s, alloc, conn.strtod);
            Reached(outcome, conn.Val(), rbuf.Val(), l)
  {
    hide Load, Reached;
    ghost var live := rbuf.Val().Live();
    rbuf.Append(chunk);
    assert rbuf.Val().Live() == live + chunk;
    conn.CheckConnected();
    outcome := ProcessBuffer(conn, rbuf, alloc);
  }

  /** How many bytes a receive takes: at least one, at most what is offered and what is there. */
  function Taken(want: nat, offered: nat, there: nat): (n: nat)
    requires offered > 0 && there > 0
    ensures 0 < n <= offered && n <= there
  {
    var m := if offered < there then offered else there;
    if want == 0 then 1 else if want < m then want else m
  }

  /**
   * The read loop on a stream that then has no more bytes for now, the i-th receive taking take(i) bytes or as
   * many as it can: session, window, capacity and outcome are those of the whole stream loaded at once. In
   * particular it gives up for size or memory exactly when the stream does not fit.
   */
  method ReadFromNats(conn: Conn, rbuf: NatsBuf, stream: bytes, take: nat -> nat, alloc: nat -> bool)
    returns (outcome: Outcome)
    requires rbuf.Valid() && Offering(rbuf.Val()) && Parse(rbuf.Val().Live()).Again?
    modifies conn, rbuf, rbuf.buf
    ensures rbuf.Valid() && CapInv(rbuf.Val().cap) && (rbuf.buf == old(rbuf.buf) || fresh(rbuf.buf))
    ensures var h := if stream == [] then old(conn.Val()) else Exchanged(old(conn.Val()));
            var l := Load(h, old(rbuf.Val().cap), old(rbuf.Val().Live()) + stream, alloc, conn.strtod);
            Reached(outcome, conn.Val(), rbuf.Val(), l)
  {
    hide Parse, Load, Has, Exchanged;
    ghost var live := rbuf.Val().Live();
    ghost var l := Load(Exchanged(conn.Val()), rbuf.Val().cap, live + stream, alloc, conn.strtod);
    assert live + stream[0..] == live + stream;
    ExchangedTwice(conn.Val());
    var used, i := 0, 0;
    while used < |stream|
      invariant used <= |stream| && rbuf.Valid() && Offering(rbuf.Val()) && Parse(rbuf.Val().Live()).Again?
      invariant rbuf.buf == old(rbuf.buf) || fresh(rbuf.buf)
      invariant Has(Exchanged(conn.Val()).state, BYTES_EXCHANGED)
      invariant used == 0 ==> conn.Val() == old(conn.Val()) && rbuf.Val() == old(rbuf.Val())
      invariant used > 0 ==> Exchanged(conn.Val()) == conn.Val()
      invariant Load(Exchanged(conn.Val()), rbuf.Val().cap, rbuf.Val().Live() + stream[used..], alloc, conn.strtod) == l
    {
      var n := Taken(take(i), rbuf.buf.Length - rbuf.end - 1, |stream| - used);
      var chunk := stream[used..used + n];
      assert stream[used..] == chunk + stream[used + n..];
      OneRead(Exchanged(conn.Val()), rbuf.Val().cap, rbuf.Val().Live(), chunk, stream[used + n..], alloc, conn.strtod);
      outcome := Receive(conn, rbuf, chunk, alloc);
      used, i := used + n, i + 1;
      if outcome != Idle {
        return;
      }
      ExchangedTwice(conn.Val());
    }
    assert stream[used..] == [] && rbuf.Val().Live() + [] == rbuf.Val().Live();
    LoadOffering(conn.Val(), rbuf.Val().cap, rbuf.Val().Live(), alloc, conn.strtod);
    outcome := Idle;
  }
}
