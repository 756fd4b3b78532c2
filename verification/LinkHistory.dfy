/** What whole runs look like from outside: which servers are attempted in which order, who is told of a loss. */
module LinkHistory {
  import opened Bytes
  import opened Wire
  import WireStability
  import opened WireContent
  import Subscriptions
  import opened Session
  import opened SessionInvariant
  import opened Stream
  import opened ReadLimits
  import opened Link
  import opened LinkTheorems
  import Buffer

  // The servers attempted

  /** r has attempted the servers behind nd.curr, in order and each once, and stands at the last of them or waits. */
  ghost predicate Extends(nd: Nd, r: Nd) {
    var k := |r.tries| - |nd.tries|;
    && k >= 0 && nd.curr + 1 >= 0 && nd.curr + 1 + k <= nd.n
    && r.tries == nd.tries + UpTo(nd.curr + 1, nd.curr + 1 + k)
    && (if r.open then r.curr == nd.curr + k else r.curr == -1 || r.curr == nd.curr)
  }

  lemma RoundExtends(nd: Nd, o: Oracle)
    requires Between(nd)
    ensures Extends(nd, ConnectRound(nd, o))
    ensures nd.curr + 1 < nd.n ==> |ConnectRound(nd, o).tries| > |nd.tries|
  {
    hide ConnectRound;
    RoundOrder(nd, o);
  }

  lemma StaysExtended(nd: Nd, r: Nd)
    requires nd.Valid() && r.tries == nd.tries && (r.curr == nd.curr || (!r.open && r.curr == -1))
    ensures Extends(nd, r)
  {
    assert nd.tries + UpTo(nd.curr + 1, nd.curr + 1) == nd.tries;
  }

  lemma CloseExtends(nd: Nd, reason: Reason, o: Oracle)
    requires nd.Valid() && !nd.timer
    ensures Extends(nd, Close(nd, reason, o))
  {
    hide ConnectRound;
    var c := nd.(open := false, unsent := false, window := [], sess := Closed(nd.sess));
    if reason == Lost || !Has(nd.sess.state, BYTES_EXCHANGED) {
      assert Close(nd, reason, o) == ProcessReconnect(c, o) == ConnectRound(c.(timer := false), o);
      RoundExtends(c.(timer := false), o);
    } else {
      StaysExtended(nd, Close(nd, reason, o));
    }
  }

  lemma FlushExtends(nd: Nd, s: Send, o: Oracle)
    requires nd.Valid() && !nd.timer
    ensures Extends(nd, Flush(nd, s, o))
  {
    hide Close;
    StaysExtended(nd, nd);
    CloseExtends(nd, Lost, o);
    CloseExtends(nd, OtherReason, o);
    if s.Took? {
      var t := nd.(sess := Exchanged(nd.sess), unsent := !s.all);
      StaysExtended(nd, t);
      CloseExtends(t, OtherReason, o);
    }
  }

  /** A read that is given up has carried bytes. */
  lemma GivenUpCarried(nd: Nd, stream: bytes, alloc: nat -> bool, strtod: bytes -> bool)
    requires Linked(nd)
    ensures var l := Arrived(nd, stream, alloc, strtod);
            l.full || !l.d.stop.Waiting? ==> Has(l.d.h.state, BYTES_EXCHANGED)
  {
    hide Inv, Parse, Load, CapInv, Has, Exchanged;
    if stream == [] {
      assert nd.window + stream == nd.window;
      LoadOffering(nd.sess, nd.cap, nd.window, alloc, strtod);
    } else {
      ExchangedTwice(nd.sess);
      LoadKeepsBytes(Exchanged(nd.sess), nd.cap, nd.window + stream, alloc, strtod);
    }
  }

  lemma GiveUpExtends(nd: Nd, m: Nd, o: Oracle)
    requires m.Valid() && m.open && !m.timer && Has(m.sess.state, BYTES_EXCHANGED)
    requires nd.Valid() && m.tries == nd.tries && m.curr == nd.curr
    ensures Extends(nd, GiveUp(m, o))
  {
    hide GiveUp;
    GiveUpWaits(m, o);
    StaysExtended(nd, GiveUp(m, o));
  }

  lemma ReadExtends(nd: Nd, r: Read, s: Send, o: Oracle, strtod: bytes -> bool)
    requires Linked(nd) && nd.open
    ensures Extends(nd, ReadEvent(nd, r, s, o, strtod))
  {
    hide Inv, Parse, Load, CapInv, Close, Flush, GiveUp, Has, Extends;
    CloseExtends(nd, OtherReason, o);
    if r.Got? {
      var l := Arrived(nd, r.stream, r.alloc, strtod);
      var m := WithSession(nd, l.d.h).(window := l.d.rest, cap := l.cap);
      if l.full || !l.d.stop.Waiting? {
        GivenUpCarried(nd, r.stream, r.alloc, strtod);
        GiveUpExtends(nd, m, o);
      } else {
        CloseExtends(m, Lost, o);
        CloseExtends(m, OtherReason, o);
        FlushExtends(m, s, o);
        StaysExtended(m, m);
        SameBasis(nd, m, ReadDone(m, |nd.sess.queued|, r.end, s, o));
      }
    }
  }

  lemma CalledExtends(nd: Nd, h: Sess, s: Send, o: Oracle)
    requires Linked(nd) && (!nd.sess.IsReady() ==> h == nd.sess)
    ensures Extends(nd, Called(nd, h, s, o))
  {
    hide Inv, Parse, CapInv, Flush;
    StaysExtended(nd, WithSession(nd, h));
    if nd.open {
      FlushExtends(WithSession(nd, h), s, o);
    }
  }

  /** Every event goes on with the round where it stands; only the timer starts one anew, and then at server 0. */
  lemma StepExtends(nd: Nd, e: Event, s: Send, o: Oracle, strtod: bytes -> bool)
    requires Linked(nd) && Enabled(nd, e)
    ensures var r := Step(nd, e, s, o, strtod);
            Extends(nd, r) && (nd.timer ==> (|r.tries| > |nd.tries| <==> e.TimerFires?))
  {
    hide Inv, Parse, Close, Flush, ReadEvent, PublishCall, SubscribeCall, UnsubscribeCall, AddClient, Extends;
    hide ConnectRound, CapInv, ConnectionInit;
    match e
    case TimerFires =>
      RoundExtends(nd.(timer := false), o);
      SameStart(nd, ConnectRound(nd.(timer := false), o));
    case Writable(timedOut) =>
      CloseExtends(nd, OtherReason, o);
      FlushExtends(WithSession(nd, ConnectionInit(nd.sess)), s, o);
      SameBasis(nd, WithSession(nd, ConnectionInit(nd.sess)), Flush(WithSession(nd, ConnectionInit(nd.sess)), s, o));
    case Readable(r) => ReadExtends(nd, r, s, o, strtod);
    case Registers(c) => StaysExtended(nd, WithSession(nd, AddClient(nd.sess, c)));
    case Publishes(subject, replyto, data, len) =>
      PublishQueues(nd.sess, subject, replyto, data, len);
      CallExtends(nd, PublishCall(nd.sess, subject, replyto, data, len).0, s, o);
    case Subscribes(client, handler, subject, max) =>
      SubscribeQueues(nd.sess, client, handler, subject, max);
      CallExtends(nd, SubscribeCall(nd.sess, client, handler, subject, max).0, s, o);
    case Unsubscribes(sid) =>
      UnsubscribeQueues(nd.sess, sid);
      CallExtends(nd, UnsubscribeCall(nd.sess, sid).0, s, o);
  }

  lemma CallExtends(nd: Nd, h: Sess, s: Send, o: Oracle)
    requires Linked(nd) && (!nd.sess.IsReady() ==> h == nd.sess)
    ensures Extends(nd, Called(nd, h, s, o)) && (nd.timer ==> Called(nd, h, s, o).tries == nd.tries)
  {
    CalledExtends(nd, h, s, o);
    hide Inv, Parse, CapInv, Flush, Extends;
  }

  lemma SameStart(nd: Nd, r: Nd)
    requires Extends(nd.(timer := false), r)
    ensures Extends(nd, r)
  {
  }

  lemma SameBasis(nd: Nd, m: Nd, r: Nd)
    requires Extends(m, r) && m.n == nd.n && m.curr == nd.curr && m.tries == nd.tries
    ensures Extends(nd, r)
  {
  }

  /** Servers from 0 on, one after the other, again and again. */
  ghost predicate Rounds(tries: seq<nat>) {
    forall j :: 0 <= j < |tries| ==> tries[j] == 0 || (j > 0 && tries[j] == tries[j - 1] + 1)
  }

  /** The attempts so far are rounds, and an open connection is to the last server attempted. */
  ghost predicate Tried(nd: Nd) {
    && Rounds(nd.tries) && (forall j :: 0 <= j < |nd.tries| ==> nd.tries[j] < nd.n)
    && (nd.open ==> nd.tries != [] && nd.tries[|nd.tries| - 1] == nd.curr)
  }

  /** How often server 0 was attempted. */
  ghost function Begun(tries: seq<nat>): nat {
    multiset(tries)[0]
  }

  lemma UpToBegins(lo: nat, hi: nat)
    requires lo <= hi
    ensures Begun(UpTo(lo, hi)) == if lo == 0 && hi > 0 then 1 else 0
  {
    var u := UpTo(lo, hi);
    if lo == 0 && hi > 0 {
      assert u == [0] + u[1..];
      assert 0 !in multiset(u[1..]);
    } else {
      assert 0 !in multiset(u);
    }
  }

  lemma ExtendsTried(nd: Nd, r: Nd)
    requires nd.Valid() && Tried(nd) && Extends(nd, r) && r.n == nd.n && (nd.open || nd.curr == -1)
    requires r.open ==> nd.open || |r.tries| > |nd.tries|
    ensures Tried(r)
    ensures Begun(r.tries) == Begun(nd.tries) + if !nd.open && |r.tries| > |nd.tries| then 1 else 0
  {
    hide Rounds, Begun, Extends, UpTo;
    var lo, k := nd.curr + 1, |r.tries| - |nd.tries|;
    assert nd.open ==> lo > 0;
    ExtendsBy(nd, r);
    BegunGrows(nd.tries, lo, lo + k);
    RoundsGoOn(nd.tries, lo, lo + k);
    JoinedBelow(nd.tries, lo, lo + k, nd.n);
  }

  lemma ExtendsBy(nd: Nd, r: Nd)
    requires Extends(nd, r)
    ensures var lo, k := nd.curr + 1, |r.tries| - |nd.tries|;
            && 0 <= lo && 0 <= k && lo + k <= nd.n && r.tries == nd.tries + UpTo(lo, lo + k)
            && (r.open ==> r.curr == lo + k - 1)
  {
  }

  lemma BegunGrows(tries: seq<nat>, lo: nat, hi: nat)
    requires lo <= hi
    ensures Begun(tries + UpTo(lo, hi)) == Begun(tries) + if lo == 0 && hi > 0 then 1 else 0
  {
    UpToBegins(lo, hi);
    assert multiset(tries + UpTo(lo, hi)) == multiset(tries) + multiset(UpTo(lo, hi));
  }

  lemma JoinedBelow(tries: seq<nat>, lo: nat, hi: nat, n: nat)
    requires lo <= hi <= n && forall j :: 0 <= j < |tries| ==> tries[j] < n
    ensures var t := tries + UpTo(lo, hi);
            (forall j :: 0 <= j < |t| ==> t[j] < n) && (hi > lo ==> t[|t| - 1] == hi - 1) && (hi == lo ==> t == tries)
  {
  }

  lemma RoundsGoOn(tries: seq<nat>, lo: nat, hi: nat)
    requires Rounds(tries) && lo <= hi && (lo == 0 || (tries != [] && tries[|tries| - 1] + 1 == lo))
    ensures Rounds(tries + UpTo(lo, hi))
  {
    var u, t := UpTo(lo, hi), tries + UpTo(lo, hi);
    forall j | 0 <= j < |t|
      ensures t[j] == 0 || (j > 0 && t[j] == t[j - 1] + 1)
    {
      if j < |tries| {
        assert t[j] == tries[j] && (j > 0 ==> t[j - 1] == tries[j - 1]);
      } else {
        assert t[j] == u[j - |tries|];
        if j > |tries| {
          assert t[j - 1] == u[j - 1 - |tries|];
        }
      }
    }
  }

  /** How often the reconnect timer fired. */
  function Fired(acts: seq<Act>): nat {
    if acts == [] then 0 else (if acts[0].e.TimerFires? then 1 else 0) + Fired(acts[1..])
  }

  lemma StepTried(nd: Nd, a: Act, strtod: bytes -> bool)
    requires Linked(nd) && Enabled(nd, a.e) && Tried(nd)
    ensures var r := Step(nd, a.e, a.s, a.o, strtod);
            Tried(r) && Begun(r.tries) == Begun(nd.tries) + if a.e.TimerFires? then 1 else 0
  {
    hide Step, Inv, Parse, CapInv, Extends, Begun, Tried;
    var r := Step(nd, a.e, a.s, a.o, strtod);
    StepExtends(nd, a.e, a.s, a.o, strtod);
    StepOpens(nd, a, strtod);
    ExtendsTried(nd, r);
  }

  /** A connection that was not there before the event was attempted in it. */
  lemma StepOpens(nd: Nd, a: Act, strtod: bytes -> bool)
    requires Linked(nd) && Enabled(nd, a.e)
    ensures var r := Step(nd, a.e, a.s, a.o, strtod); r.open ==> nd.open || a.e.TimerFires?
  {
    hide Inv, Parse, CapInv, Flush, Close, ReadEvent, PublishCall, SubscribeCall, UnsubscribeCall, AddClient;
    hide ConnectRound;
    if !nd.open {
      match a.e
      case Publishes(subject, replyto, data, len) => PublishQueues(nd.sess, subject, replyto, data, len);
      case Subscribes(client, handler, subject, max) => SubscribeQueues(nd.sess, client, handler, subject, max);
      case Unsubscribes(sid) => UnsubscribeQueues(nd.sess, sid);
      case _ =>
    }
  }

  lemma {:induction false} RunTried(nd: Nd, acts: seq<Act>, strtod: bytes -> bool)
    requires Linked(nd) && Tried(nd) && Possible(nd, acts, strtod)
    ensures var r := Run(nd, acts, strtod); Tried(r) && Begun(r.tries) == Begun(nd.tries) + Fired(acts)
    decreases |acts|
  {
    hide Inv, Parse, Step, CapInv, Tried, Begun;
    if acts != [] {
      StepKeeps(nd, acts[0].e, acts[0].s, acts[0].o, strtod);
      StepTried(nd, acts[0], strtod);
      RunTried(Step(nd, acts[0].e, acts[0].s, acts[0].o, strtod), acts[1..], strtod);
    }
  }

  /**
   * Over any run the servers are attempted in rounds 0, 1, 2, ..., however many events a round takes, and a new round
   * begins exactly at the start and whenever the timer fires.
   */
  lemma RunOrder(n: nat, o: Oracle, acts: seq<Act>, strtod: bytes -> bool)
    requires n > 0 && Possible(Init(n, o), acts, strtod)
    ensures var r := Run(Init(n, o), acts, strtod); Tried(r) && Begun(r.tries) == 1 + Fired(acts)
  {
    hide Inv, Parse, ConnectRound, CapInv, Possible, Run;
    StartReady(n);
    RoundKeeps(Start(n), o);
    RoundExtends(Start(n), o);
    ExtendsTried(Start(n), Init(n, o));
    RunTried(Init(n, o), acts, strtod);
  }

  // Who is told of a loss

  /** How many of the notes say that a connection is gone. */
  function Gone(log: seq<Note>): nat {
    if log == [] then 0 else (if log[0].Disconnected? then 1 else 0) + Gone(log[1..])
  }

  lemma {:induction false} GoneJoin(a: seq<Note>, b: seq<Note>)
    ensures Gone(a + b) == Gone(a) + Gone(b)
    decreases |a|
  {
    if a == [] {
      assert a + b == b;
    } else {
      assert (a + b)[1..] == a[1..] + b;
      GoneJoin(a[1..], b);
    }
  }

  lemma {:induction false} GoneAll(log: seq<Note>)
    requires forall i :: 0 <= i < |log| ==> log[i].Disconnected?
    ensures Gone(log) == |log|
  {
    if log != [] {
      GoneAll(log[1..]);
    }
  }

  lemma GoneOne(log: seq<Note>, x: Note)
    ensures Gone(log + [x]) == Gone(log) + if x.Disconnected? then 1 else 0
  {
    GoneJoin(log, [x]);
    assert Gone([x][1..]) == 0;
  }

  lemma {:induction false} TellGone(h: Sess, k: nat)
    requires k < |h.clients|
    ensures Gone(Tell(h, k).log) == Gone(h.log)
    decreases h.clients[k], 1
  {
    hide Gone;
    GoneOne(h.log, Connected(k));
    AddAllGone(h.(log := h.log + [Connected(k)], told := h.told + [k]), h.clients[k].adds);
  }

  lemma {:induction false} AddClientGone(h: Sess, c: Client)
    ensures Gone(AddClient(h, c).log) == Gone(h.log)
    decreases c, 2
  {
    hide Gone;
    var h1 := h.(clients := h.clients + [c]);
    if h1.IsReady() {
      TellGone(h1, |h.clients|);
    }
  }

  lemma {:induction false} AddAllGone(h: Sess, cs: seq<Client>)
    ensures Gone(AddAll(h, cs).log) == Gone(h.log)
    decreases cs, 0
  {
    hide Gone;
    if cs != [] {
      AddClientGone(h, cs[0]);
      AddAllGone(AddClient(h, cs[0]), cs[1..]);
    }
  }

  lemma {:induction false} TellFromGone(h: Sess, i: nat, n: nat)
    requires i <= n <= |h.clients|
    ensures Gone(TellFrom(h, i, n).log) == Gone(h.log)
    decreases n - i
  {
    hide Gone, Tell;
    if i < n {
      TellGone(h, i);
      TellFromGone(Tell(h, i), i + 1, n);
    }
  }

  lemma HandleGone(h: Sess, c: Content, strtod: bytes -> bool)
    ensures Gone(Handle(h, c, strtod).0.log) == Gone(h.log)
  {
    hide Gone, ReadInfo, TellFrom, Subscriptions.Account, Subscriptions.Find;
    if c.Pong? {
      TellFromGone(h.(state := READY), 0, |h.clients|);
    } else if c.Message? {
      var k := Subscriptions.Find(h.subs, c.sid);
      if k < |h.subs| {
        var s := h.subs[k];
        GoneOne(h.log, Received(s.client, s.handler, c.sid, c.subject, c.replyto, c.payload));
      }
    }
  }

  lemma {:induction false} LoadGone(h: Sess, cap: nat, s: bytes, alloc: nat -> bool, strtod: bytes -> bool)
    requires cap > 0
    ensures Gone(Load(h, cap, s, alloc, strtod).d.h.log) == Gone(h.log)
    decreases |s|
  {
    hide Handle, FrameContent, Parse, Peak, Limit, Gone, Overfull;
    if Parse(s).Frame? && !Overfull(h, cap, s, alloc) {
      WireStability.FrameBounds(s);
      var (h1, ok) := Handle(h, FrameContent(s), strtod);
      HandleGone(h, FrameContent(s), strtod);
      if ok {
        LoadGone(h1, Buffer.Doubled(cap, Peak(s) + 2), s[Parse(s).n..], alloc, strtod);
      }
    }
  }

  /** r has told k more entries than nd that a connection is gone, and knows the same clients. */
  ghost predicate Told(nd: Nd, r: Nd, k: nat) {
    r.sess.clients == nd.sess.clients && Gone(r.sess.log) == Gone(nd.sess.log) + k
  }

  /** The entries a close tells. */
  function Losing(h: Sess): nat {
    if h.state == READY then |h.clients| else 0
  }

  lemma ClosedTells(h: Sess)
    ensures Gone(Closed(h).log) == Gone(h.log) + Losing(h) && Closed(h).clients == h.clients
  {
    hide Gone;
    if h.state == READY {
      GoneAll(DisconnectedNotes(|h.clients|));
      GoneJoin(h.log, DisconnectedNotes(|h.clients|));
    }
  }

  /** No connection that is made and lost within a round was ready. */
  lemma {:induction false} RoundTells(nd: Nd, o: Oracle)
    requires nd.Valid()
    ensures Told(nd, ConnectRound(nd, o), 0)
    decreases nd.Left(), 0
  {
    hide Close, Gone;
    var k := nd.curr + 1;
    if k < nd.n {
      var b := Begin(nd, k);
      match o(k)
      case Fails => RoundTells(b, o);
      case Pending =>
      case Immediate(s) =>
        var f := b.(open := true, unsent := true, sess := ConnectionInit(b.sess));
        CloseTells(f, Lost, o);
        CloseTells(f, OtherReason, o);
        CloseTells(f.(sess := Exchanged(f.sess), unsent := false), OtherReason, o);
    }
  }

  lemma {:induction false} CloseTells(nd: Nd, reason: Reason, o: Oracle)
    requires nd.Valid()
    ensures Told(nd, Close(nd, reason, o), Losing(nd.sess))
    decreases nd.Left(), 2
  {
    hide ConnectRound, Gone, Closed;
    ClosedTells(nd.sess);
    var c := nd.(open := false, unsent := false, window := [], sess := Closed(nd.sess));
    if reason == Lost || !Has(nd.sess.state, BYTES_EXCHANGED) {
      assert Close(nd, reason, o) == ProcessReconnect(c, o) == ConnectRound(c.(timer := false), o);
      RoundTells(c.(timer := false), o);
    }
  }

  /** A flush tells the entries of a ready connection if it loses it, and nobody otherwise. */
  lemma FlushTells(nd: Nd, s: Send, o: Oracle)
    requires nd.Valid() && nd.open && KnownState(nd.sess.state)
    ensures var r := Flush(nd, s, o); Told(nd, r, if SameConnection(nd, r) then 0 else Losing(nd.sess))
  {
    hide Close, Gone;
    var t := nd.(sess := Exchanged(nd.sess), unsent := false);
    ReadyExchanged(nd.sess);
    CloseAttempts(t, OtherReason, o);
    CloseAttempts(nd, Lost, o);
    CloseAttempts(nd, OtherReason, o);
    CloseTells(t, OtherReason, o);
    CloseTells(nd, Lost, o);
    CloseTells(nd, OtherReason, o);
  }

  lemma ReadyExchanged(h: Sess)
    requires KnownState(h.state)
    ensures Exchanged(h).state == READY <==> h.state == READY
    ensures ConnectionInit(h).state == READY <==> h.state == READY
    ensures KnownState(ConnectionInit(h).state)
  {
  }

  /** Giving up tells the entries of a ready connection twice. */
  lemma GiveUpTells(nd: Nd, o: Oracle)
    requires nd.Valid() && nd.open && !nd.timer && Has(nd.sess.state, BYTES_EXCHANGED)
    ensures var r := GiveUp(nd, o);
            !SameConnection(nd, r) && r.sess.clients == nd.sess.clients
            && Gone(r.sess.log) == Gone(nd.sess.log) + Losing(nd.sess) + Losing(nd.sess)
  {
    hide ConnectRound, Gone, Closed;
    var c := nd.(open := false, unsent := false, window := [], sess := Closed(nd.sess));
    ClosedState(nd.sess);
    CloseTells(nd, OtherReason, o);
    assert Close(nd, OtherReason, o) == AddReconnectTimer(c);
    CloseTells(AddReconnectTimer(c), OtherReason, o);
    GiveUpWaits(nd, o);
  }

  lemma ClosedState(h: Sess)
    ensures Closed(h).state == h.state
  {
  }

  /** How many notes of a loss the event adds: none, one for each entry, or two for each. */
  ghost function Notes(nd: Nd, e: Event, r: Nd, strtod: bytes -> bool): nat
    requires nd.Valid()
  {
    var n := |r.sess.clients|;
    if e.Readable? && e.read.Got? then
      var l := Arrived(nd, e.read.stream, e.read.alloc, strtod);
      if l.d.h.state != READY then 0
      else if l.full || !l.d.stop.Waiting? then n + n
      else if SameConnection(nd, r) then 0
      else n
    else if nd.open && nd.sess.state == READY && !SameConnection(nd, r) then n
    else 0
  }

  lemma ReadTells(nd: Nd, e: Event, s: Send, o: Oracle, strtod: bytes -> bool)
    requires Linked(nd) && nd.open && e.Readable?
    ensures var r := ReadEvent(nd, e.read, s, o, strtod);
            Gone(r.sess.log) == Gone(nd.sess.log) + Notes(nd, e, r, strtod)
  {
    hide Inv, Parse, Load, CapInv, Close, Flush, GiveUp, Has, Gone, Exchanged;
    CloseTells(nd, OtherReason, o);
    CloseAttempts(nd, OtherReason, o);
    if e.read.Got? {
      var rd := e.read;
      var l := Arrived(nd, rd.stream, rd.alloc, strtod);
      var m := WithSession(nd, l.d.h).(window := l.d.rest, cap := l.cap);
      ArrivedTells(nd, rd.stream, rd.alloc, strtod);
      GivenUpCarried(nd, rd.stream, rd.alloc, strtod);
      if l.full || !l.d.stop.Waiting? {
        GiveUpTells(m, o);
      } else {
        CloseTells(m, Lost, o);
        CloseTells(m, OtherReason, o);
        CloseAttempts(m, Lost, o);
        CloseAttempts(m, OtherReason, o);
        FlushTells(m, s, o);
      }
    }
  }

  lemma ArrivedTells(nd: Nd, stream: bytes, alloc: nat -> bool, strtod: bytes -> bool)
    requires Linked(nd) && nd.open
    ensures var l := Arrived(nd, stream, alloc, strtod);
            Gone(l.d.h.log) == Gone(nd.sess.log) && KnownState(l.d.h.state)
  {
    hide Parse, Load, CapInv, Gone;
    var h := if stream == [] then nd.sess else Exchanged(nd.sess);
    ExchangedKeeps(nd.sess);
    LoadGone(h, nd.cap, nd.window + stream, alloc, strtod);
    LoadInv(h, nd.cap, nd.window + stream, alloc, strtod);
    assert Inv(h) && h.log == nd.sess.log;
    InvState(Load(h, nd.cap, nd.window + stream, alloc, strtod).d.h);
  }

  lemma InvState(h: Sess)
    requires Inv(h)
    ensures KnownState(h.state)
  {
    hide TableInv, Exactly;
  }

  lemma CalledTells(nd: Nd, h: Sess, s: Send, o: Oracle)
    requires Linked(nd) && (!nd.sess.IsReady() ==> h == nd.sess)
    requires h.log == nd.sess.log && h.clients == nd.sess.clients && h.state == nd.sess.state
    ensures var r := Called(nd, h, s, o);
            r.sess.clients == nd.sess.clients && Gone(r.sess.log) ==
            Gone(nd.sess.log) + if nd.open && !SameConnection(nd, r) then Losing(nd.sess) else 0
  {
    InvState(nd.sess);
    hide Inv, Parse, CapInv, Flush, Gone;
    if nd.open {
      FlushTells(WithSession(nd, h), s, o);
    }
  }

  lemma CallsTell(h: Sess)
    ensures forall subject, replyto, data, len: nat :: len <= |data| ==>
              var r := PublishCall(h, subject, replyto, data, len).0;
              r.log == h.log && r.clients == h.clients && r.state == h.state
    ensures forall client, handler, subject, max ::
              var r := SubscribeCall(h, client, handler, subject, max).0;
              r.log == h.log && r.clients == h.clients && r.state == h.state
    ensures forall sid ::
              var r := UnsubscribeCall(h, sid).0; r.log == h.log && r.clients == h.clients && r.state == h.state
  {
    hide Cut, PubLine, SubLine, UnsubLine, Subscriptions.Add, Subscriptions.Remove, Subscriptions.Find;
  }

  lemma WritableTells(nd: Nd, timedOut: bool, s: Send, o: Oracle, strtod: bytes -> bool)
    requires Linked(nd) && nd.open
    ensures var e := Writable(timedOut);
            var r := Step(nd, e, s, o, strtod);
            Gone(r.sess.log) == Gone(nd.sess.log) + Notes(nd, e, r, strtod)
  {
    InvState(nd.sess);
    ReadyExchanged(nd.sess);
    InitTells(nd.sess);
    hide Inv, Parse, CapInv, Close, Flush, Gone, ConnectionInit;
    CloseTells(nd, OtherReason, o);
    CloseAttempts(nd, OtherReason, o);
    FlushTells(WithSession(nd, ConnectionInit(nd.sess)), s, o);
  }

  lemma InitTells(h: Sess)
    ensures ConnectionInit(h).log == h.log && ConnectionInit(h).clients == h.clients
  {
  }

  /**
   * An event tells of a loss nobody, every entry once, or every entry twice; and twice exactly when it is a read that
   * leaves a ready session and then gives the connection up, for size, for a fault or because a frame was refused.
   */
  lemma StepTells(nd: Nd, e: Event, s: Send, o: Oracle, strtod: bytes -> bool)
    requires Linked(nd) && Enabled(nd, e)
    ensures var r := Step(nd, e, s, o, strtod); Gone(r.sess.log) == Gone(nd.sess.log) + Notes(nd, e, r, strtod)
  {
    hide Inv, Parse, Close, Flush, ReadEvent, Called, PublishCall, SubscribeCall, UnsubscribeCall, AddClient;
    hide ConnectRound, CapInv, ConnectionInit, Gone;
    CallsTell(nd.sess);
    match e
    case TimerFires => RoundTells(nd.(timer := false), o);
    case Writable(timedOut) => WritableTells(nd, timedOut, s, o, strtod);
    case Readable(r) => ReadTells(nd, e, s, o, strtod);
    case Registers(c) => AddClientGone(nd.sess, c);
    case Publishes(subject, replyto, data, len) =>
      PublishQueues(nd.sess, subject, replyto, data, len);
      CalledTells(nd, PublishCall(nd.sess, subject, replyto, data, len).0, s, o);
    case Subscribes(client, handler, subject, max) =>
      SubscribeQueues(nd.sess, client, handler, subject, max);
      CalledTells(nd, SubscribeCall(nd.sess, client, handler, subject, max).0, s, o);
    case Unsubscribes(sid) =>
      UnsubscribeQueues(nd.sess, sid);
      CalledTells(nd, UnsubscribeCall(nd.sess, sid).0, s, o);
  }
}
