/** What an event does to the connection: it stays, the next server is tried at once, or the client waits. */
module LinkFate {
  import opened Bytes
  import opened Wire
  import opened Session
  import opened SessionInvariant
  import opened Stream
  import opened ReadLimits
  import opened Link
  import opened LinkTheorems
  import LinkHistory

  /** No byte has gone either way. */
  predicate Untouched(h: Sess) {
    h.state % 2 == 0
  }

  lemma UntouchedIff(h: Sess)
    ensures Untouched(h) <==> !Has(h.state, BYTES_EXCHANGED)
  {
    assert h.state & 1 == h.state % 2;
  }

  /** The next server is tried at once. */
  ghost predicate GoesOn(nd: Nd, r: Nd, o: Oracle)
    requires nd.Valid() && nd.curr + 1 >= 0
  {
    RoundEnds(nd, nd.curr + 1, r, o) && (nd.curr + 1 < nd.n ==> |r.tries| > |nd.tries|)
  }

  /** The timer is armed and nobody is tried. */
  predicate Waits(nd: Nd, r: Nd) {
    r.timer && !r.open && r.curr == -1 && r.tries == nd.tries
  }

  /** A close goes on at once when the peer has gone or no byte was exchanged, and waits otherwise. */
  lemma CloseFate(nd: Nd, reason: Reason, o: Oracle)
    requires nd.Valid() && !nd.timer
    ensures var r := Close(nd, reason, o);
            if reason == Lost || Untouched(nd.sess) then GoesOn(nd, r, o) else Waits(nd, r)
  {
    hide ConnectRound, Untouched;
    UntouchedIff(nd.sess);
    var c := nd.(open := false, unsent := false, window := [], sess := Closed(nd.sess));
    if reason == Lost || !Has(nd.sess.state, BYTES_EXCHANGED) {
      assert Close(nd, reason, o) == ProcessReconnect(c, o) == ConnectRound(c.(timer := false), o);
      RoundOrder(c.(timer := false), o);
      LinkHistory.RoundExtends(c.(timer := false), o);
    }
  }

  /** Exactly when a close attempts a server. */
  lemma CloseAttemptsIff(nd: Nd, reason: Reason, o: Oracle)
    requires nd.Valid() && !nd.timer
    ensures |Close(nd, reason, o).tries| > |nd.tries| <==>
            nd.curr + 1 < nd.n && (reason == Lost || Untouched(nd.sess))
  {
    CloseFate(nd, reason, o);
    hide Close, Untouched;
    assert nd.curr + 1 == nd.n ==> UpTo(nd.n, nd.n) == [];
  }

  datatype Fate = Stays | NextServer | Pause

  /** What a send does: an error loses the connection; a failed registration closes it, to wait once bytes were sent. */
  function SendFate(h: Sess, unsent: bool, s: Send): Fate {
    if !unsent then Stays
    else
      match s
      case Took(all, eventOk) => if all && !eventOk then Pause else Stays
      case SendFails => NextServer
      case Blocks(eventOk) => if eventOk then Stays else if Untouched(h) then NextServer else Pause
      case TookNone => Stays
  }

  /** A close for any other reason than a lost peer. */
  function CloseFateOf(h: Sess): Fate {
    if Untouched(h) then NextServer else Pause
  }

  /**
   * The fate of an open connection in an event: timeouts and failed registrations close it, an error or the end of
   * the stream loses it, and a stream that is refused or does not fit is given up.
   */
  ghost function FateOf(nd: Nd, e: Event, s: Send, strtod: bytes -> bool): Fate
    requires nd.Valid() && Enabled(nd, e)
  {
    match e
    case TimerFires => Stays
    case Writable(timedOut) =>
      if timedOut then CloseFateOf(nd.sess)
      else SendFate(nd.sess, nd.unsent || nd.sess.state & 2 == 0, s)
    case Readable(ReadTimedOut) => CloseFateOf(nd.sess)
    case Readable(ConnectTestFails) => CloseFateOf(nd.sess)
    case Readable(Got(stream, alloc, end)) =>
      var l := Arrived(nd, stream, alloc, strtod);
      if l.full || l.d.stop != Waiting then Pause
      else
        (match end
         case PeerGone => NextServer
         case NoMore(eventOk) =>
           if !eventOk then CloseFateOf(l.d.h)
           else SendFate(l.d.h, |l.d.h.queued| > |nd.sess.queued|, s))
    case Registers(_) => Stays
    case Publishes(subject, replyto, data, len) =>
      SendFate(nd.sess, |PublishCall(nd.sess, subject, replyto, data, len).0.queued| > |nd.sess.queued|, s)
    case Subscribes(client, handler, subject, max) =>
      SendFate(nd.sess, |SubscribeCall(nd.sess, client, handler, subject, max).0.queued| > |nd.sess.queued|, s)
    case Unsubscribes(sid) =>
      SendFate(nd.sess, |UnsubscribeCall(nd.sess, sid).0.queued| > |nd.sess.queued|, s)
  }

  /** r is what this fate makes of nd. */
  ghost predicate Meets(nd: Nd, f: Fate, r: Nd, o: Oracle)
    requires nd.Valid() && nd.curr + 1 >= 0
  {
    match f
    case Stays => r.open && !r.timer && r.tries == nd.tries && r.curr == nd.curr
    case NextServer => GoesOn(nd, r, o)
    case Pause => Waits(nd, r)
  }

  lemma CloseMeets(nd: Nd, m: Nd, o: Oracle)
    requires nd.Valid() && m.Valid() && !m.timer && m.n == nd.n && m.curr == nd.curr && m.tries == nd.tries
    ensures Meets(nd, CloseFateOf(m.sess), Close(m, OtherReason, o), o)
    ensures Meets(nd, NextServer, Close(m, Lost, o), o)
  {
    CloseFate(m, OtherReason, o);
    CloseFate(m, Lost, o);
    hide Close, Untouched;
  }

  lemma FlushMeets(nd: Nd, m: Nd, s: Send, o: Oracle)
    requires nd.Valid() && m.Valid() && m.open && !m.timer && m.n == nd.n && m.curr == nd.curr && m.tries == nd.tries
    ensures Meets(nd, SendFate(m.sess, m.unsent, s), Flush(m, s, o), o)
  {
    hide Close, Untouched;
    var t := m.(sess := Exchanged(m.sess), unsent := false);
    ReadLimits.ExchangedTwice(m.sess);
    UntouchedIff(t.sess);
    CloseMeets(nd, t, o);
    CloseMeets(nd, m, o);
  }

  lemma GiveUpMeets(nd: Nd, m: Nd, o: Oracle)
    requires nd.Valid() && m.Valid() && m.open && !m.timer && m.n == nd.n && m.tries == nd.tries
    requires Has(m.sess.state, BYTES_EXCHANGED)
    ensures Meets(nd, Pause, GiveUp(m, o), o)
  {
    hide GiveUp;
    GiveUpWaits(m, o);
  }

  lemma ReadMeets(nd: Nd, e: Event, s: Send, o: Oracle, strtod: bytes -> bool)
    requires Linked(nd) && nd.open && e.Readable?
    ensures Meets(nd, FateOf(nd, e, s, strtod), ReadEvent(nd, e.read, s, o, strtod), o)
  {
    hide Inv, Parse, Load, CapInv, Close, Flush, GiveUp, Has, Untouched, Meets, Exchanged;
    CloseMeets(nd, nd, o);
    if e.read.Got? {
      var rd := e.read;
      var l := Arrived(nd, rd.stream, rd.alloc, strtod);
      var m := WithSession(nd, l.d.h).(window := l.d.rest, cap := l.cap);
      LinkHistory.GivenUpCarried(nd, rd.stream, rd.alloc, strtod);
      if l.full || l.d.stop != Waiting {
        GiveUpMeets(nd, m, o);
      } else {
        CloseMeets(nd, m, o);
        FlushMeets(nd, m, s, o);
        SameStays(nd, m, o);
        SendWithout(l.d.h, s);
        assert |l.d.h.queued| > |nd.sess.queued| ==> m.unsent;
      }
    }
  }

  lemma SendWithout(h: Sess, s: Send)
    ensures SendFate(h, false, s) == Stays
  {
  }

  lemma SameStays(nd: Nd, m: Nd, o: Oracle)
    requires nd.Valid() && nd.curr + 1 >= 0 && m.open && !m.timer && m.tries == nd.tries && m.curr == nd.curr
    ensures Meets(nd, Stays, m, o)
  {
  }

  lemma CalledMeets(nd: Nd, h: Sess, s: Send, o: Oracle)
    requires Linked(nd) && nd.open && h.state == nd.sess.state
    ensures Meets(nd, SendFate(nd.sess, |h.queued| > |nd.sess.queued|, s), Called(nd, h, s, o), o)
  {
    hide Inv, Parse, CapInv, Flush, Meets;
    var m := WithSession(nd, h);
    FlushMeets(nd, m, s, o);
    SameStays(nd, m, o);
    SendWithout(nd.sess, s);
  }

  /** Every event on an open connection has this fate. */
  lemma StepFate(nd: Nd, e: Event, s: Send, o: Oracle, strtod: bytes -> bool)
    requires Linked(nd) && nd.open && Enabled(nd, e)
    ensures Meets(nd, FateOf(nd, e, s, strtod), Step(nd, e, s, o, strtod), o)
  {
    hide Inv, Parse, Close, Flush, ReadEvent, Called, PublishCall, SubscribeCall, UnsubscribeCall, AddClient;
    hide ConnectRound, CapInv, ConnectionInit, Meets, SendFate, Untouched;
    LinkHistory.CallsTell(nd.sess);
    match e
    case Writable(timedOut) =>
      CloseMeets(nd, nd, o);
      InitFate(nd, s);
      FlushMeets(nd, WithSession(nd, ConnectionInit(nd.sess)), s, o);
    case Readable(r) => ReadMeets(nd, e, s, o, strtod);
    case Registers(c) => SameStays(nd, WithSession(nd, AddClient(nd.sess, c)), o);
    case Publishes(subject, replyto, data, len) =>
      CalledMeets(nd, PublishCall(nd.sess, subject, replyto, data, len).0, s, o);
    case Subscribes(client, handler, subject, max) =>
      CalledMeets(nd, SubscribeCall(nd.sess, client, handler, subject, max).0, s, o);
    case Unsubscribes(sid) => CalledMeets(nd, UnsubscribeCall(nd.sess, sid).0, s, o);
  }

  lemma InitFate(nd: Nd, s: Send)
    ensures var m := WithSession(nd, ConnectionInit(nd.sess));
            SendFate(m.sess, m.unsent, s) == SendFate(nd.sess, nd.unsent || nd.sess.state & 2 == 0, s)
  {
    assert (nd.sess.state | 2) % 2 == nd.sess.state % 2;
  }

  // The handshake and the first bytes

  /** A connection that becomes writable and survives has CONNECT behind it, once. */
  lemma WritableConnects(nd: Nd, s: Send, o: Oracle, strtod: bytes -> bool)
    requires Linked(nd) && nd.open
    ensures var r := Step(nd, Writable(false), s, o, strtod);
            SameConnection(nd, r) ==>
              && r.sess.state & 2 == 2
              && r.sess.queued == if nd.sess.state & 2 == 2 then nd.sess.queued else nd.sess.queued + [Connect]
  {
    InitMarks(nd.sess);
    hide Inv, Parse, CapInv, Close, ConnectionInit;
    var m := WithSession(nd, ConnectionInit(nd.sess));
    CloseAttempts(m.(sess := Exchanged(m.sess), unsent := false), OtherReason, o);
    CloseAttempts(m, Lost, o);
    CloseAttempts(m, OtherReason, o);
  }

  lemma InitMarks(h: Sess)
    ensures var r := ConnectionInit(h);
            && r.state & 2 == 2 && Exchanged(r).state & 2 == 2
            && r.queued == if h.state & 2 == 2 then h.queued else h.queued + [Connect]
  {
    assert h.state & 2 != 0 <==> h.state & 2 == 2;
    assert (h.state | 2) & 2 == 2 && ((h.state | 2) | 1) & 2 == 2;
    assert h.state & 2 == 2 ==> (h.state | 1) & 2 == 2;
  }

  /** The first bytes either way are marked: those a read brings, and those a send takes. */
  lemma BytesMarked(nd: Nd, e: Event, s: Send, o: Oracle, strtod: bytes -> bool)
    requires Linked(nd) && nd.open && Enabled(nd, e)
    requires (e.Readable? && e.read.Got? && e.read.stream != []) || (e == Writable(false) && s.Took?)
    ensures var r := Step(nd, e, s, o, strtod);
            SameConnection(nd, r) && (e.Readable? || nd.unsent || nd.sess.state & 2 == 0) ==> r.sess.state % 2 == 1
  {
    hide Inv, Parse, CapInv, Load, Close, Flush, GiveUp, Exchanged, ConnectionInit;
    if e.Readable? {
      var l := Arrived(nd, e.read.stream, e.read.alloc, strtod);
      var m := WithSession(nd, l.d.h).(window := l.d.rest, cap := l.cap);
      ExchangedTwice(nd.sess);
      LoadKeepsBytes(Exchanged(nd.sess), nd.cap, nd.window + e.read.stream, e.read.alloc, strtod);
      UntouchedIff(l.d.h);
      GiveUpAttempts(m, o);
      CloseAttempts(m, Lost, o);
      CloseAttempts(m, OtherReason, o);
      FlushMarks(m, s, o);
    } else {
      InitQueues(nd.sess);
      FlushMarks(WithSession(nd, ConnectionInit(nd.sess)), s, o);
    }
  }

  lemma InitQueues(h: Sess)
    ensures h.state & 2 == 0 ==> |ConnectionInit(h).queued| > |h.queued|
  {
  }

  /** On a connection that survives a flush the mark stays, and a send that takes bytes sets it. */
  lemma FlushMarks(nd: Nd, s: Send, o: Oracle)
    requires nd.Valid() && nd.open
    ensures var r := Flush(nd, s, o);
            SameConnection(nd, r) && (nd.sess.state % 2 == 1 || (nd.unsent && s.Took?)) ==> r.sess.state % 2 == 1
  {
    hide Close;
    var t := nd.(sess := Exchanged(nd.sess), unsent := false);
    assert (nd.sess.state | 1) % 2 == 1;
    CloseAttempts(t, OtherReason, o);
    CloseAttempts(nd, Lost, o);
    CloseAttempts(nd, OtherReason, o);
  }

  // The session after an event

  /** The session an event leads to, up to the mark of the first bytes. */
  function SessionAfter(nd: Nd, e: Event, strtod: bytes -> bool): Sess
    requires nd.Valid() && Enabled(nd, e)
  {
    match e
    case Writable(_) => ConnectionInit(nd.sess)
    case Readable(Got(stream, alloc, _)) => Arrived(nd, stream, alloc, strtod).d.h
    case Registers(c) => AddClient(nd.sess, c)
    case Publishes(subject, replyto, data, len) => PublishCall(nd.sess, subject, replyto, data, len).0
    case Subscribes(client, handler, subject, max) => SubscribeCall(nd.sess, client, handler, subject, max).0
    case Unsubscribes(sid) => UnsubscribeCall(nd.sess, sid).0
    case _ => nd.sess
  }

  /** h with the first bytes perhaps marked. */
  ghost predicate UpToMark(h: Sess, r: Sess) {
    r == h || r == Exchanged(h)
  }

  lemma FlushSession(nd: Nd, s: Send, o: Oracle)
    requires nd.Valid() && nd.open
    ensures var r := Flush(nd, s, o);
            SameConnection(nd, r) ==> UpToMark(nd.sess, r.sess) && r.window == nd.window && r.cap == nd.cap
  {
    hide Close, Exchanged;
    CloseAttempts(nd.(sess := Exchanged(nd.sess), unsent := false), OtherReason, o);
    CloseAttempts(nd, Lost, o);
    CloseAttempts(nd, OtherReason, o);
  }

  /** A connection that survives an event is in the session the event leads to, and keeps what it has not parsed yet. */
  lemma StepSession(nd: Nd, e: Event, s: Send, o: Oracle, strtod: bytes -> bool)
    requires Linked(nd) && nd.open && Enabled(nd, e)
    ensures var r := Step(nd, e, s, o, strtod);
            SameConnection(nd, r) ==>
              && UpToMark(SessionAfter(nd, e, strtod), r.sess)
              && (if e.Readable? && e.read.Got? then
                    var l := Arrived(nd, e.read.stream, e.read.alloc, strtod); r.window == l.d.rest && r.cap == l.cap
                  else r.window == nd.window && r.cap == nd.cap)
  {
    hide Inv, Parse, Close, Flush, GiveUp, Load, PublishCall, SubscribeCall, UnsubscribeCall, AddClient;
    hide CapInv, ConnectionInit, Exchanged;
    CloseAttempts(nd, OtherReason, o);
    match e
    case Readable(Got(stream, alloc, end)) =>
      var l := Arrived(nd, stream, alloc, strtod);
      var m := WithSession(nd, l.d.h).(window := l.d.rest, cap := l.cap);
      GiveUpAttempts(m, o);
      CloseAttempts(m, Lost, o);
      CloseAttempts(m, OtherReason, o);
      FlushSession(m, s, o);
    case TimerFires =>
    case _ =>
      FlushSession(WithSession(nd, SessionAfter(nd, e, strtod)), s, o);
  }
}
