/** The bytes each connection hands to its socket: the write buffer beside the state machine, over whole runs. */
module Output {
  import opened Bytes
  import opened Session
  import opened SessionInvariant
  import opened Link
  import opened LinkTheorems
  import Wire
  import Stream
  import ReadLimits
  import Lines
  import opened B = Buffer

  // Commands as bytes

  datatype Login = Login(user: bytes, password: bytes)

  /** The add_message calls a command makes. */
  function Messages(c: Command, g: Login): seq<bytes> {
    match c
    case Connect => [Cut(Lines.ConnectText(g.user, g.password), Lines.CONNECT_SIZE)]
    case PongReply => [Wire.TEXT_PONG + CRLF]
    case Publish(header, payload) => [header, payload, CRLF]
    case Subscribe(line) => [line]
    case Unsubscribe(line) => [line]
  }

  function AllMessages(cs: seq<Command>, g: Login): seq<bytes> {
    if cs == [] then [] else Messages(cs[0], g) + AllMessages(cs[1..], g)
  }

  /** What a server must read of a connection on which these commands were queued. */
  function Rendered(cs: seq<Command>, g: Login): bytes {
    Stream.Concat(AllMessages(cs, g))
  }

  lemma {:induction false} ConcatSplit(xs: seq<bytes>, ys: seq<bytes>)
    ensures Stream.Concat(xs + ys) == Stream.Concat(xs) + Stream.Concat(ys)
    decreases |xs|
  {
    if xs == [] {
      assert xs + ys == ys;
    } else {
      assert (xs + ys)[1..] == xs[1..] + ys;
      ConcatSplit(xs[1..], ys);
    }
  }

  lemma {:induction false} RenderedSplit(cs: seq<Command>, ds: seq<Command>, g: Login)
    ensures Rendered(cs + ds, g) == Rendered(cs, g) + Rendered(ds, g)
    decreases |cs|
  {
    hide Messages;
    if cs == [] {
      assert cs + ds == ds;
    } else {
      assert (cs + ds)[1..] == cs[1..] + ds;
      RenderedSplit(cs[1..], ds, g);
      ConcatSplit(Messages(cs[0], g), AllMessages((cs + ds)[1..], g));
      ConcatSplit(Messages(cs[0], g), AllMessages(cs[1..], g));
    }
  }

  /** Commands with text leave something to send. */
  lemma RenderedHasText(cs: seq<Command>, g: Login)
    requires forall c :: c in cs ==> c.HasText()
    ensures Rendered(cs, g) == [] <==> cs == []
  {
    if cs != [] {
      OneHasText(cs[0], g);
      hide Messages;
      ConcatSplit(Messages(cs[0], g), AllMessages(cs[1..], g));
    }
  }

  lemma OneHasText(c: Command, g: Login)
    requires c.HasText()
    ensures Stream.Concat(Messages(c, g)) != []
  {
    var ms := Messages(c, g);
    if c.Publish? {
      assert ms[1..] == [c.payload, CRLF] && ms[1..][1..] == [CRLF];
      assert Stream.Concat([CRLF]) != [] && Stream.Concat([c.payload, CRLF]) != [];
    }
  }

  // The buffer of one connection

  /** No message is refused, and none grows the buffer behind a partly sent window. */
  predicate Accepts(o: Out, ms: seq<bytes>)
    requires o.b.Valid()
    decreases |ms|
  {
    ms == [] || (Takes(o, ms[0]) && Accepts(Put(o, ms[0]), ms[1..]))
  }

  predicate Takes(o: Out, m: bytes)
    requires o.b.Valid()
  {
    !GrowsWhileOffset(o.b, |m|) && AddMessage(o.b, m, true, Junk(o)).Added?
  }

  /** What fresh memory holds, which does not matter as long as messages are taken. */
  function Junk(o: Out): (junk: bytes)
    ensures |junk| == o.b.pos
  {
    seq(o.b.pos, _ => 0)
  }

  function Put(o: Out, m: bytes): (r: Out)
    requires o.b.Valid() && Takes(o, m)
    ensures r.b.Valid()
  {
    WriteStep(o, Queue(m, true, Junk(o)))
  }

  function PutAll(o: Out, ms: seq<bytes>): (r: Out)
    requires o.b.Valid() && Accepts(o, ms)
    ensures r.b.Valid()
    decreases |ms|
  {
    if ms == [] then o else PutAll(Put(o, ms[0]), ms[1..])
  }

  /** Whatever fresh memory holds, a message taken ends up the same. */
  lemma JunkDoesNotMatter(o: Out, m: bytes, junk: bytes)
    requires o.b.Valid() && Takes(o, m) && |junk| >= o.b.pos
    ensures WriteStep(o, Queue(m, true, junk)) == Put(o, m)
  {
    assert junk[..0] == Junk(o)[..0] == [];
  }

  lemma PutConserves(o: Out, m: bytes)
    requires o.Conserved() && Takes(o, m)
    ensures var r := Put(o, m); r.Conserved() && r.sent == o.sent && r.queued == o.queued + m && r.b.cap >= o.b.cap
  {
    QueueConserves(o, m, true, Junk(o));
    EnsureValid(o.b, |m|, true, true, Junk(o));
    hide Ensure, Junk;
  }

  lemma {:induction false} PutAllConserves(o: Out, ms: seq<bytes>)
    requires o.Conserved() && Accepts(o, ms)
    ensures var r := PutAll(o, ms);
            && r.Conserved() && r.sent == o.sent && r.queued == o.queued + Stream.Concat(ms) && r.b.cap >= o.b.cap
    decreases |ms|
  {
    hide Takes, Put;
    if ms != [] {
      PutConserves(o, ms[0]);
      PutAllConserves(Put(o, ms[0]), ms[1..]);
    }
  }

  /** Messages that fit the capacity beside what is waiting are always taken. */
  lemma {:induction false} SmallAreTaken(o: Out, ms: seq<bytes>)
    requires o.Conserved() && |o.b.Live()| + |Stream.Concat(ms)| <= o.b.cap
    ensures Accepts(o, ms)
    decreases |ms|
  {
    if ms != [] {
      SmallIsTaken(o, ms[0]);
      PutConserves(o, ms[0]);
      hide Takes, Put;
      var p := Put(o, ms[0]);
      assert |p.sent + p.b.Live()| == |o.sent + o.b.Live()| + |ms[0]|;
      SmallAreTaken(p, ms[1..]);
    }
  }

  lemma SmallIsTaken(o: Out, m: bytes)
    requires o.b.Valid() && |o.b.Live()| + |m| <= o.b.cap
    ensures Takes(o, m)
  {
    EnsureKeepsWindow(o.b, |m|, true, Junk(o));
  }

  // Beside the state machine

  /** On a connection that survives the event: whether what is queued is then sent. */
  predicate Flushes(nd: Nd, e: Event, r: Nd) {
    match e
    case Writable(_) => true
    case TimerFires => false
    case _ => |r.sess.queued| > |nd.sess.queued|
  }

  /** The last send on the connection that is there after the event. */
  function SendOf(nd: Nd, a: Act, r: Nd): Send
    requires r.curr >= 0
  {
    if SameConnection(nd, r) then if Flushes(nd, a.e, r) then a.s else TookNone
    else
      match a.o(r.curr)
      case Immediate(s) => s
      case _ => TookNone
  }

  /**
   * An event; how many bytes its send takes when it takes some of them; and by how much the buffer has grown in it
   * for a connection that it loses, since the next connection inherits the capacity.
   */
  datatype Move = Move(a: Act, k: nat, grown: nat)

  /** A new connection starts with an empty buffer, one that survives goes on with its own. */
  function Base(nd: Nd, r: Nd, out: Out, m: Move): Out {
    if SameConnection(nd, r) then out else Out(Buf(out.b.cap + m.grown, 0, []), [], [])
  }

  function NewCommands(nd: Nd, r: Nd): seq<Command> {
    if SameConnection(nd, r) && |nd.sess.queued| <= |r.sess.queued| then r.sess.queued[|nd.sess.queued|..]
    else r.sess.queued
  }

  /** How many of `waiting` bytes a send takes; k when it takes some of them. */
  function Amount(s: Send, k: nat, waiting: nat): nat {
    if !s.Took? || waiting == 0 then 0 else if s.all then waiting else k
  }

  /** A send that takes some of the bytes takes at least one and not all. */
  predicate Coherent(s: Send, k: nat, waiting: nat) {
    s.Took? && !s.all && waiting > 0 ==> 0 < k < waiting
  }

  /** What the event queues is taken, and its send is coherent. */
  predicate Smooth(nd: Nd, r: Nd, out: Out, m: Move, g: Login)
    requires out.b.Valid()
  {
    r.open ==>
      && r.curr >= 0 && Accepts(Base(nd, r, out, m), AllMessages(NewCommands(nd, r), g))
      && var s, w := SendOf(nd, m.a, r), |PutAll(Base(nd, r, out, m), AllMessages(NewCommands(nd, r), g)).b.Live()|;
      Coherent(s, m.k, w)
  }

  /** The buffer after the event that leads from nd to r. */
  function After(nd: Nd, r: Nd, out: Out, m: Move, g: Login): (x: Out)
    requires out.b.Valid() && Smooth(nd, r, out, m, g)
    ensures x.b.Valid()
  {
    var base := Base(nd, r, out, m);
    if !r.open then base
    else
      var p := PutAll(base, AllMessages(NewCommands(nd, r), g));
      WriteStep(p, B.Send(Amount(SendOf(nd, m.a, r), m.k, |p.b.Live()|)))
  }

  /** The buffer of an open connection holds exactly what was queued on it and not yet sent. */
  ghost predicate Fed(nd: Nd, out: Out, g: Login) {
    && out.b.Valid() && out.b.cap >= INIT_SIZE
    && (nd.open ==>
          out.Conserved() && out.queued == Rendered(nd.sess.queued, g) && (nd.unsent <==> out.b.Live() != []))
  }

  /** Queueing and one send, from a buffer that is fed. */
  lemma FedThrough(base: Out, cs: seq<Command>, ds: seq<Command>, s: Send, k: nat, g: Login)
    requires base.Conserved() && base.queued == Rendered(cs, g) && Accepts(base, AllMessages(ds, g))
    requires forall c :: c in ds ==> c.HasText()
    requires Coherent(s, k, |PutAll(base, AllMessages(ds, g)).b.Live()|)
    ensures var p := PutAll(base, AllMessages(ds, g));
            var x := WriteStep(p, B.Send(Amount(s, k, |p.b.Live()|)));
            && x.Conserved() && x.queued == Rendered(cs + ds, g) && x.b.cap >= base.b.cap && base.sent <= x.sent
            && (x.b.Live() != [] <==> (base.b.Live() != [] || ds != []) && !(s.Took? && s.all))
  {
    hide Accepts, PutAll, AllMessages, Stream.Concat;
    var p := PutAll(base, AllMessages(ds, g));
    PutAllConserves(base, AllMessages(ds, g));
    RenderedSplit(cs, ds, g);
    RenderedHasText(ds, g);
    assert |p.sent + p.b.Live()| == |base.sent + base.b.Live()| + |Rendered(ds, g)|;
    SendConserves(p, Amount(s, k, |p.b.Live()|));
    SendLeaves(p, Amount(s, k, |p.b.Live()|));
  }

  lemma SendLeaves(o: Out, n: nat)
    requires o.b.Valid() && n <= |o.b.Live()|
    ensures var x := WriteStep(o, B.Send(n));
            |x.b.Live()| == |o.b.Live()| - n && x.queued == o.queued && x.b.cap == o.b.cap && o.sent <= x.sent
  {
  }

  // Connections that begin

  /**
   * A connection just made: nothing is left of an earlier one, and nothing queued while it is pending, the handshake if
   * it was made at once.
   */
  ghost predicate JustMade(r: Nd, o: Oracle) {
    && r.curr >= 0 && r.window == [] && r.sess.server == UNKNOWN_SERVER
    && r.sess.subs == [] && r.sess.nextId == 0 && r.sess.told == []
    && match o(r.curr)
       case Fails => false
       case Pending => r.sess.state == 0 && r.sess.queued == [] && !r.unsent
       case Immediate(s) =>
         && r.sess.state == (if s.Took? then 3 else 2)
         && r.sess.queued == [Connect] && r.unsent == !(s.Took? && s.all)
  }

  lemma {:induction false} RoundMakes(nd: Nd, o: Oracle)
    requires nd.Valid() && !nd.open && nd.sess.subs == [] && nd.sess.nextId == 0
    ensures ConnectRound(nd, o).open ==> JustMade(ConnectRound(nd, o), o)
    decreases nd.Left(), 0
  {
    hide Close;
    var k := nd.curr + 1;
    if k < nd.n {
      var b := Begin(nd, k);
      match o(k)
      case Fails => RoundMakes(b, o);
      case Pending =>
      case Immediate(s) =>
        var f := b.(open := true, unsent := true, sess := ConnectionInit(b.sess));
        CloseMakes(f, Lost, o);
        CloseMakes(f, OtherReason, o);
        CloseMakes(f.(sess := Exchanged(f.sess), unsent := false), OtherReason, o);
    }
  }

  lemma {:induction false} CloseMakes(nd: Nd, reason: Reason, o: Oracle)
    requires nd.Valid()
    ensures Close(nd, reason, o).open ==> JustMade(Close(nd, reason, o), o)
    decreases nd.Left(), 2
  {
    hide ConnectRound, JustMade;
    var c := nd.(open := false, unsent := false, window := [], sess := Closed(nd.sess));
    if reason == Lost || !Has(nd.sess.state, BYTES_EXCHANGED) {
      assert Close(nd, reason, o) == ProcessReconnect(c, o) == ConnectRound(c.(timer := false), o);
      RoundMakes(c.(timer := false), o);
    }
  }

  // Connections that survive

  /** What a connection that survives a flush has left to send, or that it is a new one. */
  ghost predicate Flushed(nd: Nd, s: Send, r: Nd, o: Oracle) {
    r.open ==>
      if SameConnection(nd, r) then
        && r.curr == nd.curr && r.sess.queued == nd.sess.queued
        && r.unsent == (nd.unsent && !(s.Took? && s.all))
      else JustMade(r, o)
  }

  lemma FlushLeaves(nd: Nd, s: Send, o: Oracle)
    requires nd.Valid() && nd.open
    ensures Flushed(nd, s, Flush(nd, s, o), o)
  {
    hide Close, JustMade;
    var t := nd.(sess := Exchanged(nd.sess), unsent := false);
    CloseAttempts(t, OtherReason, o);
    CloseAttempts(nd, Lost, o);
    CloseAttempts(nd, OtherReason, o);
    CloseMakes(t, OtherReason, o);
    CloseMakes(nd, Lost, o);
    CloseMakes(nd, OtherReason, o);
  }

  /** After an event: a surviving connection has queued and sent as SendOf says, any other is just made. */
  ghost predicate Stepped(nd: Nd, a: Act, r: Nd) {
    r.open ==>
      if SameConnection(nd, r) then
        && r.curr >= 0 && nd.sess.queued <= r.sess.queued
        && var u := nd.unsent || |r.sess.queued| > |nd.sess.queued|;
        r.unsent == (u && !(SendOf(nd, a, r).Took? && SendOf(nd, a, r).all))
      else JustMade(r, a.o)
  }

  /** A session step that may have read bytes, then a flush that may or may not follow. */
  lemma SessionThenSend(nd: Nd, h: Sess, rest: bytes, cap: nat, a: Act)
    requires nd.Valid() && nd.open && nd.curr >= 0 && nd.sess.queued <= h.queued && cap > 0
    ensures var m := WithSession(nd, h).(window := rest, cap := cap);
            && (a.e.Writable? ==> Stepped(nd, a, Flush(m, a.s, a.o)))
            && (!a.e.Writable? && !a.e.TimerFires? ==>
                  Stepped(nd, a, if |h.queued| > |nd.sess.queued| then Flush(m, a.s, a.o) else m))
  {
    hide Flush, JustMade;
    FlushLeaves(WithSession(nd, h).(window := rest, cap := cap), a.s, a.o);
  }

  lemma ClosedIsNew(nd: Nd, m: Nd, reason: Reason, a: Act)
    requires m.Valid() && m.tries == nd.tries
    ensures Stepped(nd, a, Close(m, reason, a.o))
  {
    hide Close, JustMade;
    CloseAttempts(m, reason, a.o);
    CloseMakes(m, reason, a.o);
  }

  lemma GivenUpIsNew(nd: Nd, m: Nd, a: Act)
    requires m.Valid() && m.tries == nd.tries
    ensures Stepped(nd, a, GiveUp(m, a.o))
  {
    hide Close, JustMade;
    GiveUpAttempts(m, a.o);
    CloseMakes(Close(m, OtherReason, a.o), OtherReason, a.o);
  }

  lemma ReadLeaves(nd: Nd, a: Act, strtod: bytes -> bool)
    requires Linked(nd) && nd.open && a.e.Readable?
    ensures Stepped(nd, a, ReadEvent(nd, a.e.read, a.s, a.o, strtod))
  {
    hide Inv, Wire.Parse, ReadLimits.Load, Close, Flush, GiveUp, Stepped, ReadLimits.CapInv;
    var rd := a.e.read;
    ClosedIsNew(nd, nd, OtherReason, a);
    if rd.Got? {
      ExchangedKeeps(nd.sess);
      var h := if rd.stream == [] then nd.sess else Exchanged(nd.sess);
      var l := ReadLimits.Load(h, nd.cap, nd.window + rd.stream, rd.alloc, strtod);
      LoadGrows(h, nd.cap, nd.window + rd.stream, rd.alloc, strtod);
      var m := WithSession(nd, l.d.h).(window := l.d.rest, cap := l.cap);
      GivenUpIsNew(nd, m, a);
      ClosedIsNew(nd, m, Lost, a);
      ClosedIsNew(nd, m, OtherReason, a);
      SessionThenSend(nd, l.d.h, l.d.rest, l.cap, a);
    }
  }

  lemma CallLeaves(nd: Nd, h: Sess, a: Act)
    requires Linked(nd) && (nd.sess.IsReady() ==> nd.sess.queued <= h.queued) && (!nd.sess.IsReady() ==> h == nd.sess)
    requires !a.e.Writable? && !a.e.TimerFires?
    ensures Stepped(nd, a, Called(nd, h, a.s, a.o))
  {
    hide Inv, Wire.Parse, ReadLimits.CapInv, Flush, JustMade;
    if nd.open {
      SessionThenSend(nd, h, nd.window, nd.cap, a);
    }
  }

  lemma RegisterLeaves(nd: Nd, c: Client, a: Act)
    requires Linked(nd) && a.e == Registers(c)
    ensures Stepped(nd, a, WithSession(nd, AddClient(nd.sess, c)))
  {
    hide Inv, Wire.Parse, ReadLimits.CapInv, AddClient;
    AddClientQueues(nd.sess, c);
  }

  lemma NothingOpen(nd: Nd)
    requires Linked(nd) && !nd.open
    ensures nd.sess.subs == [] && nd.sess.nextId == 0
  {
    hide StateInv, QueueInv, SubsInv, Wire.Parse, ReadLimits.CapInv;
  }

  /** What every event does to the queue and to the flag of the state machine. */
  lemma StepLeaves(nd: Nd, a: Act, strtod: bytes -> bool)
    requires Linked(nd) && Enabled(nd, a.e)
    ensures Stepped(nd, a, Step(nd, a.e, a.s, a.o, strtod))
  {
    hide Inv, Wire.Parse, Close, Flush, ReadEvent, Called, PublishCall, SubscribeCall, UnsubscribeCall, AddClient;
    hide ConnectRound, ReadLimits.CapInv, ConnectionInit;
    CallsGrow(nd.sess);
    match a.e
    case TimerFires =>
      NothingOpen(nd);
      RoundMakes(nd.(timer := false), a.o);
    case Writable(timedOut) =>
      hide Stepped;
      ClosedIsNew(nd, nd, OtherReason, a);
      GrowsItself(nd.sess);
      SessionThenSend(nd, ConnectionInit(nd.sess), nd.window, nd.cap, a);
    case Readable(r) => ReadLeaves(nd, a, strtod);
    case Registers(c) => RegisterLeaves(nd, c, a);
    case Publishes(subject, replyto, data, len) =>
      PublishQueues(nd.sess, subject, replyto, data, len);
      CallLeaves(nd, PublishCall(nd.sess, subject, replyto, data, len).0, a);
    case Subscribes(client, handler, subject, max) =>
      SubscribeQueues(nd.sess, client, handler, subject, max);
      CallLeaves(nd, SubscribeCall(nd.sess, client, handler, subject, max).0, a);
    case Unsubscribes(sid) =>
      UnsubscribeQueues(nd.sess, sid);
      CallLeaves(nd, UnsubscribeCall(nd.sess, sid).0, a);
  }

  // Whole runs

  lemma SurvivorFed(nd: Nd, r: Nd, out: Out, m: Move, g: Login)
    requires nd.open && Inv(r.sess) && Fed(nd, out, g) && Stepped(nd, m.a, r) && SameConnection(nd, r)
    requires Smooth(nd, r, out, m, g)
    ensures Fed(r, After(nd, r, out, m, g), g) && out.sent <= After(nd, r, out, m, g).sent
  {
    var cs, ds := nd.sess.queued, NewCommands(nd, r);
    assert r.sess.queued == cs + ds;
    QueuedHaveText(r.sess);
    hide Inv, Accepts, PutAll, Rendered, WriteStep, AllMessages;
    FedThrough(out, cs, ds, SendOf(nd, m.a, r), m.k, g);
  }

  lemma QueuedHaveText(h: Sess)
    requires Inv(h)
    ensures forall c :: c in h.queued ==> c.HasText()
  {
    hide TableInv, Exactly;
  }

  lemma NewcomerFed(nd: Nd, r: Nd, out: Out, m: Move, g: Login)
    requires Fed(nd, out, g) && r.open && Inv(r.sess) && JustMade(r, m.a.o) && !SameConnection(nd, r)
    requires Smooth(nd, r, out, m, g)
    ensures Fed(r, After(nd, r, out, m, g), g)
  {
    var base, ds := Base(nd, r, out, m), r.sess.queued;
    assert [] + ds == ds && base.b.Live() == [];
    QueuedHaveText(r.sess);
    hide Inv, Accepts, PutAll, WriteStep;
    assert base.queued == Rendered([], g);
    hide Rendered, AllMessages;
    FedThrough(base, [], ds, SendOf(nd, m.a, r), m.k, g);
  }

  /** One event watched: the state and the buffer after it; None when it cannot happen or something is not taken. */
  ghost function Watch(nd: Nd, out: Out, m: Move, g: Login, strtod: bytes -> bool): (w: Option<(Nd, Out)>)
    requires nd.Valid() && out.b.Valid()
    ensures w.Some? ==> w.value.0.Valid() && w.value.1.b.Valid()
  {
    if !Enabled(nd, m.a.e) || !Defined(nd, m.a.e, strtod) then None
    else
      var r := Step(nd, m.a.e, m.a.s, m.a.o, strtod);
      if Smooth(nd, r, out, m, g) then Some((r, After(nd, r, out, m, g))) else None
  }

  /** Every event keeps the buffer fed; on a connection that survives it, what was sent stays sent. */
  lemma StepFeeds(nd: Nd, out: Out, m: Move, g: Login, strtod: bytes -> bool)
    requires Linked(nd) && Fed(nd, out, g)
    ensures var w := Watch(nd, out, m, g, strtod);
            w.Some? ==>
              && Linked(w.value.0) && Fed(w.value.0, w.value.1, g)
              && (SameConnection(nd, w.value.0) ==> out.sent <= w.value.1.sent)
  {
    hide Step, Inv, Wire.Parse, ReadLimits.CapInv, Smooth, Stepped, JustMade, Rendered;
    if Watch(nd, out, m, g, strtod).Some? {
      var r := Step(nd, m.a.e, m.a.s, m.a.o, strtod);
      StepKeeps(nd, m.a.e, m.a.s, m.a.o, strtod);
      StepLeaves(nd, m.a, strtod);
      EventFeeds(nd, r, out, m, g);
    }
  }

  lemma EventFeeds(nd: Nd, r: Nd, out: Out, m: Move, g: Login)
    requires Fed(nd, out, g) && Inv(r.sess) && Stepped(nd, m.a, r) && Smooth(nd, r, out, m, g)
    ensures Fed(r, After(nd, r, out, m, g), g)
    ensures SameConnection(nd, r) ==> out.sent <= After(nd, r, out, m, g).sent
  {
    hide Inv, Smooth, JustMade, Rendered;
    if SameConnection(nd, r) {
      SurvivorFed(nd, r, out, m, g);
    } else if r.open {
      NewcomerFed(nd, r, out, m, g);
    }
  }

  /** A run watched: None when something queued in it is not taken. */
  ghost function RunWith(nd: Nd, out: Out, moves: seq<Move>, g: Login, strtod: bytes -> bool): Option<(Nd, Out)>
    requires nd.Valid() && out.b.Valid()
    decreases |moves|
  {
    if moves == [] then Some((nd, out))
    else
      match Watch(nd, out, moves[0], g, strtod)
      case None => None
      case Some((r, x)) => RunWith(r, x, moves[1..], g, strtod)
  }

  lemma {:induction false} RunFeeds(nd: Nd, out: Out, moves: seq<Move>, g: Login, strtod: bytes -> bool)
    requires Linked(nd) && Fed(nd, out, g)
    ensures var w := RunWith(nd, out, moves, g, strtod); w.Some? ==> Linked(w.value.0) && Fed(w.value.0, w.value.1, g)
    decreases |moves|
  {
    hide Inv, Wire.Parse, ReadLimits.CapInv, Watch, Rendered;
    if moves != [] {
      StepFeeds(nd, out, moves[0], g, strtod);
      var w := Watch(nd, out, moves[0], g, strtod);
      if w.Some? {
        RunFeeds(w.value.0, w.value.1, moves[1..], g, strtod);
      }
    }
  }

  function Acts(moves: seq<Move>): (acts: seq<Act>)
    ensures |acts| == |moves|
  {
    if moves == [] then [] else [moves[0].a] + Acts(moves[1..])
  }

  /** Watching the buffer does not change the run. */
  lemma {:induction false} SameRun(nd: Nd, out: Out, moves: seq<Move>, g: Login, strtod: bytes -> bool)
    requires nd.Valid() && out.b.Valid()
    ensures var w := RunWith(nd, out, moves, g, strtod);
            w.Some? ==> Possible(nd, Acts(moves), strtod) && Run(nd, Acts(moves), strtod) == w.value.0
    decreases |moves|
  {
    hide Step, Smooth, After, Enabled, Defined;
    if moves != [] {
      assert Acts(moves)[1..] == Acts(moves[1..]);
      var w := Watch(nd, out, moves[0], g, strtod);
      if w.Some? {
        SameRun(w.value.0, w.value.1, moves[1..], g, strtod);
      }
    }
  }

  const NO_OUTPUT := Out(Buf(INIT_SIZE, 0, []), [], [])

  /** The start of the worker as an event, with the outcomes of the first round. */
  function Starting(o: Oracle, k: nat): Move {
    Move(Act(TimerFires, TookNone, o), k, 0)
  }

  ghost function WatchStart(n: nat, o: Oracle, k: nat, g: Login): (w: Option<(Nd, Out)>)
    requires n > 0
    ensures w.Some? ==> w.value.0 == Init(n, o) && w.value.0.Valid() && w.value.1.b.Valid()
  {
    var m, r := Starting(o, k), Init(n, o);
    if Smooth(Start(n), r, NO_OUTPUT, m, g) then Some((r, After(Start(n), r, NO_OUTPUT, m, g))) else None
  }

  lemma StartFeeds(n: nat, o: Oracle, k: nat, g: Login)
    requires n > 0
    ensures var w := WatchStart(n, o, k, g); w.Some? ==> Linked(w.value.0) && Fed(w.value.0, w.value.1, g)
  {
    StartReady(n);
    RoundKeeps(Start(n), o);
    RoundMakes(Start(n), o);
    hide ConnectRound, Inv, Wire.Parse, ReadLimits.CapInv, Smooth, JustMade, Rendered;
    if WatchStart(n, o, k, g).Some? {
      EventFeeds(Start(n), Init(n, o), NO_OUTPUT, Starting(o, k), g);
    }
  }

  /** A run from the start of the worker watched. */
  ghost function RunAll(n: nat, o: Oracle, k: nat, moves: seq<Move>, g: Login, strtod: bytes -> bool): Option<(Nd, Out)>
    requires n > 0
  {
    match WatchStart(n, o, k, g)
    case None => None
    case Some((r, x)) => RunWith(r, x, moves, g, strtod)
  }

  /**
   * The socket has taken a prefix of the commands queued on the connection, rendered in the order in which they were
   * queued; the buffer holds exactly the rest; and nothing is left to send exactly when the state machine says so.
   */
  ghost predicate Carried(r: Nd, x: Out, g: Login) {
    var wire := Rendered(r.sess.queued, g);
    r.open ==> x.b.Valid() && x.sent <= wire && x.b.Live() == wire[|x.sent|..] && (r.unsent <==> |x.sent| < |wire|)
  }

  /** On the wire: so it is after the start and any run of events in which everything queued is taken. */
  lemma OnTheWire(n: nat, o: Oracle, k: nat, moves: seq<Move>, g: Login, strtod: bytes -> bool)
    requires n > 0
    ensures var w := RunAll(n, o, k, moves, g, strtod); w.Some? ==> Carried(w.value.0, w.value.1, g)
  {
    hide Init, Inv, Wire.Parse, ReadLimits.CapInv, Rendered, WatchStart, RunWith;
    StartFeeds(n, o, k, g);
    var first := WatchStart(n, o, k, g);
    if first.Some? {
      RunFeeds(first.value.0, first.value.1, moves, g, strtod);
    }
  }

  /** The runs watched are runs of the state machine. */
  lemma RunAllIsRun(n: nat, o: Oracle, k: nat, moves: seq<Move>, g: Login, strtod: bytes -> bool)
    requires n > 0
    ensures var w := RunAll(n, o, k, moves, g, strtod);
            w.Some? ==> Possible(Init(n, o), Acts(moves), strtod) && w.value.0 == Run(Init(n, o), Acts(moves), strtod)
  {
    hide Init, WatchStart, RunWith, Possible, Run;
    var first := WatchStart(n, o, k, g);
    if first.Some? {
      SameRun(first.value.0, first.value.1, moves, g, strtod);
    }
  }

  /** As long as a connection has queued no more than the initial capacity in all, everything queued is taken. */
  lemma FewAreTaken(nd: Nd, r: Nd, out: Out, m: Move, g: Login)
    requires Fed(nd, out, g) && Stepped(nd, m.a, r) && r.open && |Rendered(r.sess.queued, g)| <= INIT_SIZE
    ensures Accepts(Base(nd, r, out, m), AllMessages(NewCommands(nd, r), g))
  {
    var base, ds := Base(nd, r, out, m), NewCommands(nd, r);
    if SameConnection(nd, r) {
      assert r.sess.queued == nd.sess.queued + ds;
      RenderedSplit(nd.sess.queued, ds, g);
      assert |base.sent + base.b.Live()| == |Rendered(nd.sess.queued, g)|;
    }
    hide Rendered, Accepts, AllMessages, Stepped;
    SmallAreTaken(base, AllMessages(ds, g));
  }

  /** The handshake is taken by every connection. */
  lemma HandshakeIsTaken(nd: Nd, r: Nd, out: Out, m: Move, g: Login)
    requires Fed(nd, out, g) && r.open && JustMade(r, m.a.o) && !SameConnection(nd, r)
    ensures Accepts(Base(nd, r, out, m), AllMessages(NewCommands(nd, r), g))
  {
    HandshakeLength(r.sess.queued, g);
    hide AllMessages, Accepts;
    SmallAreTaken(Base(nd, r, out, m), AllMessages(r.sess.queued, g));
  }

  lemma HandshakeLength(cs: seq<Command>, g: Login)
    requires cs == [] || cs == [Connect]
    ensures |Stream.Concat(AllMessages(cs, g))| <= Lines.CONNECT_SIZE
  {
    if cs != [] {
      var m := Cut(Lines.ConnectText(g.user, g.password), Lines.CONNECT_SIZE);
      assert cs[1..] == [];
      assert AllMessages(cs, g) == [m];
      hide Lines.ConnectText, AllMessages;
      var ms: seq<bytes> := [m];
      assert ms[1..] == [] && Stream.Concat(ms) == m + [];
    }
  }

  // Runs in which every connection queues little

  /** How many bytes wait for the send of an event, `sent` having gone out before it. */
  function Waiting(nd: Nd, r: Nd, sent: nat, g: Login): nat {
    var all, gone := |Rendered(r.sess.queued, g)|, if SameConnection(nd, r) then sent else 0;
    if gone <= all then all - gone else 0
  }

  function SentAfter(nd: Nd, r: Nd, sent: nat, m: Move, g: Login): nat {
    if !r.open || r.curr < 0 then 0
    else
      (if SameConnection(nd, r) then sent else 0) + Amount(SendOf(nd, m.a, r), m.k, Waiting(nd, r, sent, g))
  }

  /** The connection after the event has queued no more than the initial capacity in all, and its send is coherent. */
  predicate Little(nd: Nd, r: Nd, sent: nat, m: Move, g: Login) {
    r.open ==>
      && r.curr >= 0 && |Rendered(r.sess.queued, g)| <= INIT_SIZE
      && Coherent(SendOf(nd, m.a, r), m.k, Waiting(nd, r, sent, g))
  }

  /** The events can happen and each is a little one; nothing is said of the buffer. */
  ghost predicate Modest(nd: Nd, sent: nat, moves: seq<Move>, g: Login, strtod: bytes -> bool)
    requires nd.Valid()
    decreases |moves|
  {
    moves == [] ||
    (var m := moves[0];
     && Enabled(nd, m.a.e) && Defined(nd, m.a.e, strtod)
     && var r := Step(nd, m.a.e, m.a.s, m.a.o, strtod);
     Little(nd, r, sent, m, g) && Modest(r, SentAfter(nd, r, sent, m, g), moves[1..], g, strtod))
  }

  /** A little event is smooth, and its send takes what the numbers say. */
  lemma LittleIsSmooth(nd: Nd, r: Nd, out: Out, m: Move, g: Login)
    requires Fed(nd, out, g) && Stepped(nd, m.a, r) && Little(nd, r, |out.sent|, m, g)
    ensures Smooth(nd, r, out, m, g)
    ensures |After(nd, r, out, m, g).sent| == SentAfter(nd, r, |out.sent|, m, g)
  {
    if r.open {
      var base, ds := Base(nd, r, out, m), NewCommands(nd, r);
      FewAreTaken(nd, r, out, m, g);
      assert base.Conserved() && |base.queued| + |Rendered(ds, g)| == |Rendered(r.sess.queued, g)| by {
        BaseIsFed(nd, r, out, m, g);
      }
      PutAllConserves(base, AllMessages(ds, g));
      var p := PutAll(base, AllMessages(ds, g));
      hide Accepts, PutAll, Rendered, AllMessages, Stepped, WriteStep;
      assert Stream.Concat(AllMessages(ds, g)) == Rendered(ds, g) by { RenderedIs(ds, g); }
      assert |p.sent + p.b.Live()| == |p.queued|;
      assert |p.b.Live()| == Waiting(nd, r, |out.sent|, g);
      SendAdds(p, Amount(SendOf(nd, m.a, r), m.k, |p.b.Live()|));
    }
  }

  lemma RenderedIs(ds: seq<Command>, g: Login)
    ensures Rendered(ds, g) == Stream.Concat(AllMessages(ds, g))
  {
  }

  lemma SendAdds(o: Out, n: nat)
    requires o.b.Valid() && n <= |o.b.Live()|
    ensures |WriteStep(o, B.Send(n)).sent| == |o.sent| + n
  {
  }

  lemma BaseIsFed(nd: Nd, r: Nd, out: Out, m: Move, g: Login)
    requires Fed(nd, out, g) && Stepped(nd, m.a, r) && r.open
    ensures var base := Base(nd, r, out, m);
            && base.Conserved() && |base.queued| + |Rendered(NewCommands(nd, r), g)| == |Rendered(r.sess.queued, g)|
  {
    if SameConnection(nd, r) {
      assert r.sess.queued == nd.sess.queued + NewCommands(nd, r);
      RenderedSplit(nd.sess.queued, NewCommands(nd, r), g);
    }
    hide Rendered;
  }

  lemma {:induction false} ModestIsWatched(nd: Nd, out: Out, moves: seq<Move>, g: Login, strtod: bytes -> bool)
    requires Linked(nd) && Fed(nd, out, g) && Modest(nd, |out.sent|, moves, g, strtod)
    ensures RunWith(nd, out, moves, g, strtod).Some?
    decreases |moves|
  {
    hide Inv, Wire.Parse, ReadLimits.CapInv, Step, Smooth, Stepped, Rendered, Little, SentAfter, After;
    if moves != [] {
      var m := moves[0];
      var r := Step(nd, m.a.e, m.a.s, m.a.o, strtod);
      StepLeaves(nd, m.a, strtod);
      LittleIsSmooth(nd, r, out, m, g);
      StepFeeds(nd, out, m, g, strtod);
      ModestIsWatched(r, After(nd, r, out, m, g), moves[1..], g, strtod);
    }
  }

  /**
   * From the start of the worker: when every connection queues no more than 4096 bytes in all and every partial send
   * takes at least one byte and not all, everything queued is taken throughout, so all of it is carried.
   */
  lemma ModestRunsCarry(n: nat, o: Oracle, k: nat, moves: seq<Move>, g: Login, strtod: bytes -> bool)
    requires n > 0 && Little(Start(n), Init(n, o), 0, Starting(o, k), g)
    requires Modest(Init(n, o), SentAfter(Start(n), Init(n, o), 0, Starting(o, k), g), moves, g, strtod)
    ensures var w := RunAll(n, o, k, moves, g, strtod); w.Some? && Carried(w.value.0, w.value.1, g)
  {
    StartStepped(n, o, k);
    hide Init, Inv, Wire.Parse, ReadLimits.CapInv, Stepped, Rendered, Little, SentAfter, Modest, RunWith, Smooth, After;
    LittleIsSmooth(Start(n), Init(n, o), NO_OUTPUT, Starting(o, k), g);
    StartFeeds(n, o, k, g);
    var first := WatchStart(n, o, k, g);
    ModestIsWatched(first.value.0, first.value.1, moves, g, strtod);
    OnTheWire(n, o, k, moves, g, strtod);
  }

  lemma StartStepped(n: nat, o: Oracle, k: nat)
    requires n > 0
    ensures Stepped(Start(n), Starting(o, k).a, Init(n, o))
  {
    hide ConnectRound, JustMade;
    RoundMakes(Start(n), o);
  }
}
