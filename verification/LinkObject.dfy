/** The client's data as the C code keeps them, and the mutually recursive routines that connect, close and flush. */
module LinkObject {
  import opened Bytes
  import opened Wire
  import opened Session
  import opened SessionObject
  import opened Stream
  import opened ReadLimits
  import opened ReadLoop
  import opened BufferObject
  import opened Link
  import LinkTheorems
  import B = Buffer

  class NatsData {
    const n: nat
    const conn: Conn
    const rbuf: NatsBuf
    var curr: int
    var timer: bool
    var open: bool
    var unsent: bool
    ghost var tries: seq<nat>

    ghost predicate Valid()
      reads this, rbuf
    {
      n > 0 && -1 <= curr < n && rbuf.Valid() && CapInv(rbuf.buf.Length)
    }

    ghost function Val(): (nd: Nd)
      requires Valid()
      reads this, conn, rbuf, rbuf.buf
      ensures nd.Valid()
    {
      Nd(n, curr, timer, open, unsent, rbuf.Val().Live(), rbuf.Val().cap, conn.Val(), tries)
    }

    /** Between events the read buffer offers room to the next receive. */
    ghost predicate Settled()
      reads this, rbuf
    {
      Valid() && rbuf.end + 1 < rbuf.buf.Length
    }

    /** Module and worker start: empty buffers, then the first round. */
    constructor (servers: nat, strtod: bytes -> bool, o: Oracle)
      requires servers > 0
      ensures Valid() && Val() == Link.Init(servers, o) && conn.strtod == strtod
      ensures fresh(conn) && fresh(rbuf) && fresh(rbuf.buf) && Settled()
    {
      n := servers;
      conn := new Conn(strtod);
      rbuf := new NatsBuf(B.INIT_SIZE);
      curr, timer, open, unsent, tries := -1, false, false, false, [];
      new;
      hide ConnectRound;
      assert rbuf.Val().Live() == [];
      assert Val() == Start(servers);
      Connect(o);
      DoublingAtLeast(B.INIT_SIZE, rbuf.buf.Length);
    }

    method ArmReconnectTimer()
      requires Valid()
      modifies this`curr, this`timer
      ensures Valid() && Val() == AddReconnectTimer(old(Val()))
    {
      if !timer {
        curr := -1;
        timer := true;
      }
    }

    /** A new connection structure for the server that curr has just been moved to. */
    method BeginAttempt(ghost before: int)
      requires Valid() && curr == before + 1 && -1 <= before
      modifies this, conn, rbuf
      ensures Valid() && rbuf.buf == old(rbuf.buf) && rbuf.end == 0 && curr == old(curr)
      ensures Val() == Begin(old(Val()).(curr := before), curr) && !open && !unsent
    {
      rbuf.Reset();
      unsent, open := false, false;
      conn.Renew();
      tries := tries + [curr];
      assert rbuf.Val().Live() == [];
    }

    /** Moves to the next server of the round; false, at server 0, when the round has been through all. */
    method NextIndex() returns (found: bool)
      requires Valid()
      modifies this`curr
      ensures Valid() && found == (NextServer(old(Val())) < n)
      ensures Val() == old(Val()).(curr := if found then NextServer(old(Val())) else 0)
    {
      if curr < 0 {
        curr := 0;
        return true;
      }
      curr := curr + 1;
      if curr >= n {
        curr := 0;
      }
      return curr != 0;
    }

    /** One attempt; true when it failed and another must follow. */
    method ConnectLoop(o: Oracle) returns (again: bool)
      requires Valid()
      modifies this, conn, rbuf
      ensures Valid() && rbuf.buf == old(rbuf.buf) && (rbuf.end == 0 || rbuf.end == old(rbuf.end))
      ensures again ==> curr > old(curr) && ConnectRound(Val(), o) == ConnectRound(old(Val()), o)
      ensures !again ==> Val() == ConnectRound(old(Val()), o)
      decreases n - curr, 0
    {
      hide ConnectRound;
      ghost var nd := Val();
      RoundEnd(nd, o);
      var found := NextIndex();
      if !found {
        ArmReconnectTimer();
        return false;
      }
      assert Val().(curr := nd.curr) == nd;
      again := TryNext(nd, o);
    }

    /** The attempt on the server that curr has just been moved to. */
    method TryNext(ghost nd: Nd, o: Oracle) returns (again: bool)
      requires Valid() && nd.Valid() && curr == nd.curr + 1 && Val().(curr := nd.curr) == nd
      modifies this, conn, rbuf
      ensures Valid() && rbuf.buf == old(rbuf.buf) && (rbuf.end == 0 || rbuf.end == old(rbuf.end))
      ensures again ==> curr == old(curr) && ConnectRound(Val(), o) == ConnectRound(nd, o)
      ensures !again ==> Val() == ConnectRound(nd, o)
      decreases n - curr, 6
    {
      hide Flush, ConnectRound, Begin, ConnectionInit;
      RoundStep(nd, o);
      BeginAttempt(nd.curr);
      assert Val() == Begin(nd, nd.curr + 1);
      again := TryServer(o);
    }

    /** What the attempt on the current server leads to. */
    method TryServer(o: Oracle) returns (again: bool)
      requires Valid() && curr >= 0 && !open && !unsent
      modifies this, conn, rbuf
      ensures Valid() && rbuf.buf == old(rbuf.buf) && (rbuf.end == 0 || rbuf.end == old(rbuf.end))
      ensures again == o(old(curr)).Fails?
      ensures var b := old(Val());
              match o(old(curr))
              case Fails => Val() == b
              case Pending => Val() == b.(open := true)
              case Immediate(s) =>
                Val() == Flush(b.(open := true, unsent := true, sess := ConnectionInit(b.sess)), s, o)
      decreases n - curr, 5
    {
      hide Flush, ConnectionInit;
      match o(curr)
      case Fails => again := true;
      case Pending =>
        open := true;
        again := false;
      case Immediate(s) =>
        open := true;
        conn.Init();
        unsent := true;
        FlushBuffer(s, o);
        again := false;
    }

    method Connect(o: Oracle)
      requires Valid()
      modifies this, conn, rbuf
      ensures Valid() && rbuf.buf == old(rbuf.buf) && (rbuf.end == 0 || rbuf.end == old(rbuf.end))
      ensures Val() == ConnectRound(old(Val()), o)
      decreases n - curr, 1
    {
      hide ConnectRound;
      while true
        invariant Valid() && rbuf.buf == old(rbuf.buf) && curr >= old(curr)
        invariant rbuf.end == 0 || rbuf.end == old(rbuf.end)
        invariant ConnectRound(Val(), o) == ConnectRound(old(Val()), o)
        decreases n - curr
      {
        var again := ConnectLoop(o);
        if !again {
          return;
        }
      }
    }

    method Reconnect(o: Oracle)
      requires Valid()
      modifies this, conn, rbuf
      ensures Valid() && rbuf.buf == old(rbuf.buf) && (rbuf.end == 0 || rbuf.end == old(rbuf.end))
      ensures Val() == ProcessReconnect(old(Val()), o)
      decreases n - curr, 2
    {
      hide ConnectRound;
      timer := false;
      Connect(o);
    }

    method CloseConnection(reason: Reason, o: Oracle)
      requires Valid()
      modifies this, conn, rbuf
      ensures Valid() && rbuf.buf == old(rbuf.buf) && rbuf.end == 0
      ensures Val() == Close(old(Val()), reason, o)
      decreases n - curr, 3
    {
      hide ProcessReconnect;
      open := false;
      var immediate := conn.state & BYTES_EXCHANGED == 0;
      conn.CloseSession();
      rbuf.Reset();
      unsent := false;
      assert rbuf.Val().Live() == [];
      if reason == Lost || immediate {
        Reconnect(o);
      } else {
        ArmReconnectTimer();
      }
    }

    /** One send of what is queued. */
    method FlushBuffer(s: Send, o: Oracle)
      requires Valid()
      modifies this, conn, rbuf
      ensures Valid() && rbuf.buf == old(rbuf.buf) && (rbuf.end == 0 || rbuf.end == old(rbuf.end))
      ensures Val() == Flush(old(Val()), s, o)
      decreases n - curr, 4
    {
      hide Close;
      if !unsent {
        return;
      }
      match s
      case Took(all, eventOk) =>
        conn.CheckConnected();
        unsent := !all;
        if all && !eventOk {
          CloseConnection(OtherReason, o);
        }
      case SendFails => CloseConnection(Lost, o);
      case Blocks(eventOk) =>
        if !eventOk {
          CloseConnection(OtherReason, o);
        }
      case TookNone =>
    }

    // Event handlers; s and o are the outcomes of the send and of the attempts an event may lead to

    method OnTimer(o: Oracle)
      requires Settled() && timer
      modifies this, conn, rbuf
      ensures Settled() && rbuf.buf == old(rbuf.buf)
      ensures Val() == Step(old(Val()), TimerFires, TookNone, o, conn.strtod)
    {
      hide ConnectRound;
      Reconnect(o);
    }

    /** A session step that queued something marks the write buffer. */
    method MarkUnsent(before: nat)
      requires Valid()
      modifies this`unsent
      ensures Valid() && Val() == old(Val()).(unsent := old(unsent) || |conn.queued| > before)
    {
      if |conn.queued| > before {
        unsent := true;
      }
    }

    method OnWritable(timedOut: bool, s: Send, o: Oracle)
      requires Settled() && open
      modifies this, conn, rbuf
      ensures Settled() && rbuf.buf == old(rbuf.buf)
      ensures Val() == Step(old(Val()), Writable(timedOut), s, o, conn.strtod)
    {
      hide Close, Flush, ConnectionInit;
      assert rbuf.buf.Length > 1 by { DoublingAtLeast(B.INIT_SIZE, rbuf.buf.Length); }
      if timedOut {
        CloseConnection(OtherReason, o);
        return;
      }
      var before := |conn.queued|;
      conn.Init();
      MarkUnsent(before);
      FlushBuffer(s, o);
    }

    /** The read loop gives up: a close by the processor, then one by the loop. */
    method GiveUpReading(o: Oracle)
      requires Valid()
      modifies this, conn, rbuf
      ensures Settled() && rbuf.buf == old(rbuf.buf)
      ensures Val() == GiveUp(old(Val()), o)
    {
      hide Close;
      CloseConnection(OtherReason, o);
      CloseConnection(OtherReason, o);
      DoublingAtLeast(B.INIT_SIZE, rbuf.buf.Length);
    }

    method FinishRead(before: nat, end: ReadEnd, s: Send, o: Oracle)
      requires Settled()
      modifies this, conn, rbuf
      ensures Settled() && rbuf.buf == old(rbuf.buf)
      ensures Val() == ReadDone(old(Val()), before, end, s, o)
    {
      hide Close, Flush;
      assert rbuf.buf.Length > 1 by { DoublingAtLeast(B.INIT_SIZE, rbuf.buf.Length); }
      match end
      case PeerGone => CloseConnection(Lost, o);
      case NoMore(eventOk) =>
        if !eventOk {
          CloseConnection(OtherReason, o);
        } else if |conn.queued| > before {
          FlushBuffer(s, o);
        }
    }

    /** Reads and handles what has arrived, then gives up, closes or flushes. */
    method ReadAll(stream: bytes, take: nat -> nat, alloc: nat -> bool, end: ReadEnd, s: Send, o: Oracle)
      requires Settled() && open && Parse(Val().window).Again?
      modifies this, conn, rbuf, rbuf.buf
      ensures Settled() && (rbuf.buf == old(rbuf.buf) || fresh(rbuf.buf))
      ensures Val() == ReadEvent(old(Val()), Got(stream, alloc, end), s, o, conn.strtod)
    {
      hide Load, Parse, GiveUp, ReadDone, Close, Flush, ReadEvent, Exchanged;
      var before := |conn.queued|;
      ghost var nd := Val();
      var outcome := ReadFromNats(conn, rbuf, stream, take, alloc);
      MarkUnsent(before);
      if outcome == Idle {
        EndsInReadDone(nd, stream, alloc, end, Val(), s, o, conn.strtod);
        FinishRead(before, end, s, o);
        return;
      }
      EndsInGivingUp(nd, stream, alloc, end, Val(), s, o, conn.strtod);
      GiveUpReading(o);
    }

    /** Bytes have arrived, the i-th receive taking take(i) of them: all are read unless the connection is given up. */
    method OnReadable(stream: bytes, take: nat -> nat, alloc: nat -> bool, end: ReadEnd, s: Send, o: Oracle)
      requires Settled() && open && Parse(Val().window).Again?
      modifies this, conn, rbuf, rbuf.buf
      ensures Settled() && (rbuf.buf == old(rbuf.buf) || fresh(rbuf.buf))
      ensures Val() == Step(old(Val()), Readable(Got(stream, alloc, end)), s, o, conn.strtod)
    {
      hide Parse, ReadEvent;
      ReadAll(stream, take, alloc, end, s, o);
    }

    /** The read timed out, or the connection turns out not to have been made. */
    method OnReadFailure(failure: Read, o: Oracle)
      requires Settled() && open && !failure.Got?
      modifies this, conn, rbuf
      ensures Settled() && rbuf.buf == old(rbuf.buf)
      ensures Val() == Step(old(Val()), Readable(failure), TookNone, o, conn.strtod)
    {
      hide Close;
      CloseConnection(OtherReason, o);
      DoublingAtLeast(B.INIT_SIZE, rbuf.buf.Length);
    }

    method CallRegister(c: Client)
      requires Settled()
      modifies this, conn
      ensures Settled() && rbuf.buf == old(rbuf.buf)
      ensures Val() == Step(old(Val()), Registers(c), TookNone, _ => Fails, conn.strtod)
    {
      hide AddClient;
      LinkTheorems.AddClientQueues(conn.Val(), c);
      conn.Register(c);
    }

    /** The end of a client call: flush if something was queued. */
    method FinishCall(ghost nd: Nd, before: nat, s: Send, o: Oracle)
      requires Settled() && nd.Valid() && before == |nd.sess.queued| && Val() == nd.(sess := conn.Val())
      modifies this, conn, rbuf
      ensures Settled() && rbuf.buf == old(rbuf.buf)
      ensures Val() == Called(nd, old(conn.Val()), s, o)
    {
      hide Flush;
      assert rbuf.buf.Length > 1 by { DoublingAtLeast(B.INIT_SIZE, rbuf.buf.Length); }
      MarkUnsent(before);
      if |conn.queued| > before {
        FlushBuffer(s, o);
      }
    }

    method CallPublish(subject: bytes, replyto: Option<bytes>, data: bytes, len: nat, s: Send, o: Oracle)
      returns (r: Reply)
      requires Settled() && len <= |data| && (len == 0 ==> NUL in data)
      modifies this, conn, rbuf
      ensures Settled() && rbuf.buf == old(rbuf.buf)
      ensures r == PublishCall(old(conn.Val()), subject, replyto, data, len).1
      ensures Val() == Step(old(Val()), Publishes(subject, replyto, data, len), s, o, conn.strtod)
    {
      hide PublishCall, Called;
      ghost var nd := Val();
      var before := |conn.queued|;
      r := conn.PublishM(subject, replyto, data, len);
      FinishCall(nd, before, s, o);
    }

    method CallSubscribe(client: nat, handler: nat, subject: bytes, max: int, s: Send, o: Oracle) returns (r: Reply)
      requires Settled()
      modifies this, conn, rbuf
      ensures Settled() && rbuf.buf == old(rbuf.buf)
      ensures r == SubscribeCall(old(conn.Val()), client, handler, subject, max).1
      ensures Val() == Step(old(Val()), Subscribes(client, handler, subject, max), s, o, conn.strtod)
    {
      hide SubscribeCall, Called;
      ghost var nd := Val();
      var before := |conn.queued|;
      r := conn.SubscribeM(client, handler, subject, max);
      FinishCall(nd, before, s, o);
    }

    method CallUnsubscribe(sid: nat, s: Send, o: Oracle) returns (r: Reply)
      requires Settled()
      modifies this, conn, rbuf
      ensures Settled() && rbuf.buf == old(rbuf.buf)
      ensures r == UnsubscribeCall(old(conn.Val()), sid).1
      ensures Val() == Step(old(Val()), Unsubscribes(sid), s, o, conn.strtod)
    {
      hide UnsubscribeCall, Called;
      ghost var nd := Val();
      var before := |conn.queued|;
      r := conn.UnsubscribeM(sid);
      FinishCall(nd, before, s, o);
    }
  }

  lemma EndsInGivingUp(
    nd: Nd, stream: bytes, alloc: nat -> bool, end: ReadEnd, m: Nd, s: Send, o: Oracle, strtod: bytes -> bool)
    requires nd.Valid() && m.Valid()
    requires var l := Arrived(nd, stream, alloc, strtod);
             l.d.h == m.sess && l.cap == m.cap && (l.full || l.d.stop != Waiting)
    requires m == WithSession(nd, m.sess).(window := m.window, cap := m.cap)
    ensures ReadEvent(nd, Got(stream, alloc, end), s, o, strtod) == GiveUp(m, o)
  {
    hide Load, GiveUp;
    var l := Arrived(nd, stream, alloc, strtod);
    GiveUpForgetsWindow(m, o);
    assert m.(window := l.d.rest) == WithSession(nd, l.d.h).(window := l.d.rest, cap := l.cap);
  }

  lemma EndsInReadDone(
    nd: Nd, stream: bytes, alloc: nat -> bool, end: ReadEnd, m: Nd, s: Send, o: Oracle, strtod: bytes -> bool)
    requires nd.Valid() && m.Valid()
    requires Arrived(nd, stream, alloc, strtod) == Loaded(Drained(m.sess, m.window, Waiting), m.cap, false)
    requires m == WithSession(nd, m.sess).(window := m.window, cap := m.cap)
    ensures ReadEvent(nd, Got(stream, alloc, end), s, o, strtod) == ReadDone(m, |nd.sess.queued|, end, s, o)
  {
    hide Load, ReadDone;
  }

  /** Giving up does not depend on what was left in the read window. */
  lemma GiveUpForgetsWindow(nd: Nd, o: Oracle)
    requires nd.Valid()
    ensures forall w: bytes :: GiveUp(nd.(window := w), o) == GiveUp(nd, o)
  {
    hide ProcessReconnect;
  }

  /** The round has been through all servers. */
  lemma RoundEnd(nd: Nd, o: Oracle)
    requires nd.Valid()
    ensures nd.curr + 1 == nd.n ==> ConnectRound(nd, o) == AddReconnectTimer(nd.(curr := 0))
  {
  }

  /** The three ways one attempt of a round can go. */
  lemma RoundStep(nd: Nd, o: Oracle)
    requires nd.Valid() && nd.curr + 1 < nd.n
    ensures var k := nd.curr + 1;
            var b := Begin(nd, k);
            match o(k)
            case Fails => ConnectRound(nd, o) == ConnectRound(b, o)
            case Pending => ConnectRound(nd, o) == b.(open := true)
            case Immediate(s) =>
              ConnectRound(nd, o) == Flush(b.(open := true, unsent := true, sess := ConnectionInit(b.sess)), s, o)
  {
  }
}
