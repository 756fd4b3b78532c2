/** The order of a round, and what holds after every event of any run. */
module LinkTheorems {
  import opened Bytes
  import opened Wire
  import WireStability
  import WireOverflow
  import WireContent
  import Subscriptions
  import opened Session
  import opened SessionInvariant
  import opened Stream
  import opened ReadLimits
  import Buffer
  import opened Link

  // One round

  /** An attempt that fails without a byte exchanged: the round goes on with the next server. */
  predicate Dead(a: Attempt) {
    a.Fails? || a == Immediate(SendFails) || a == Immediate(Blocks(false))
  }

  /** An attempt whose first bytes went out and whose connection was then dropped: the round ends with the timer. */
  predicate Burnt(a: Attempt) {
    a == Immediate(Took(true, false))
  }

  /** The first server from k on whose attempt is not dead, n if there is none. */
  function FirstLive(n: nat, k: nat, o: Oracle): (j: nat)
    requires k <= n
    ensures k <= j <= n
    ensures forall i :: k <= i < j ==> Dead(o(i))
    ensures j < n ==> !Dead(o(j))
    decreases n - k
  {
    if k == n || !Dead(o(k)) then k else FirstLive(n, k + 1, o)
  }

  function UpTo(lo: nat, hi: nat): (r: seq<nat>)
    requires lo <= hi
    ensures |r| == hi - lo && forall i :: 0 <= i < |r| ==> r[i] == lo + i
  {
    seq(hi - lo, i => lo + i)
  }

  /** No connection and no timer: the situation in which a round starts or goes on. */
  ghost predicate Between(nd: Nd) {
    nd.Valid() && !nd.open && !nd.timer
  }

  /** How a round from server k on ends: attempts in order, each server once, up to the first that is not dead. */
  ghost predicate RoundEnds(nd: Nd, k: nat, r: Nd, o: Oracle)
    requires nd.Valid() && k <= nd.n
  {
    var j := FirstLive(nd.n, k, o);
    && r.tries == nd.tries + UpTo(k, if j < nd.n then j + 1 else j)
    && (if j < nd.n && !Burnt(o(j)) then r.open && !r.timer && r.curr == j
        else !r.open && r.timer && r.curr == -1)
  }

  lemma {:induction false} RoundOrder(nd: Nd, o: Oracle)
    requires Between(nd)
    ensures RoundEnds(nd, nd.curr + 1, ConnectRound(nd, o), o)
    decreases nd.Left()
  {
    hide ConnectRound, RoundEnds;
    var k := nd.curr + 1;
    if k == nd.n {
      RoundOver(nd, o);
    } else if Dead(o(k)) {
      var c := AfterDead(nd, k, o);
      RoundOrder(c, o);
      OneMoreDead(nd, c, k, ConnectRound(c, o), o);
    } else {
      LiveAttempt(nd, k, o);
      LiveEnds(nd, k, ConnectRound(nd, o), o);
    }
  }

  lemma RoundOver(nd: Nd, o: Oracle)
    requires Between(nd) && nd.curr + 1 == nd.n
    ensures RoundEnds(nd, nd.n, ConnectRound(nd, o), o)
  {
    assert nd.tries + UpTo(nd.n, nd.n) == nd.tries;
  }

  lemma OneMoreDead(nd: Nd, c: Nd, k: nat, r: Nd, o: Oracle)
    requires nd.Valid() && c.Valid() && c.n == nd.n && k < nd.n && Dead(o(k)) && c.tries == nd.tries + [k]
    requires RoundEnds(c, k + 1, r, o)
    ensures RoundEnds(nd, k, r, o)
  {
    hide Dead, Burnt;
    var j := FirstLive(nd.n, k + 1, o);
    var hi := if j < nd.n then j + 1 else j;
    assert nd.tries + [k] + UpTo(k + 1, hi) == nd.tries + UpTo(k, hi);
  }

  lemma LiveEnds(nd: Nd, k: nat, r: Nd, o: Oracle)
    requires nd.Valid() && k < nd.n && !Dead(o(k)) && r.tries == nd.tries + [k]
    requires if Burnt(o(k)) then !r.open && r.timer && r.curr == -1 else r.open && !r.timer && r.curr == k
    ensures RoundEnds(nd, k, r, o)
  {
    assert UpTo(k, k + 1) == [k];
  }

  /** After a dead attempt the round goes on from the same place, that server behind it. */
  lemma AfterDead(nd: Nd, k: nat, o: Oracle) returns (c: Nd)
    requires Between(nd) && k == nd.curr + 1 < nd.n && Dead(o(k))
    ensures Between(c) && c.n == nd.n && c.curr == k && c.tries == nd.tries + [k]
    ensures ConnectRound(nd, o) == ConnectRound(c, o)
  {
    var b := Begin(nd, k);
    if o(k).Fails? {
      c := b;
    } else {
      var f := b.(open := true, unsent := true, sess := ConnectionInit(b.sess));
      assert !Has(f.sess.state, BYTES_EXCHANGED);
      c := f.(open := false, unsent := false, window := [], sess := Closed(f.sess));
      var reason := if o(k).send.SendFails? then Lost else OtherReason;
      assert ConnectRound(nd, o) == Flush(f, o(k).send, o);
      assert Flush(f, o(k).send, o) == Close(f, reason, o);
      assert Close(f, reason, o) == ProcessReconnect(c, o);
      assert c.(timer := false) == c;
    }
  }

  lemma LiveAttempt(nd: Nd, k: nat, o: Oracle)
    requires Between(nd) && k == nd.curr + 1 < nd.n && !Dead(o(k))
    ensures var r := ConnectRound(nd, o);
            && r.tries == nd.tries + [k]
            && (if Burnt(o(k)) then !r.open && r.timer && r.curr == -1 else r.open && !r.timer && r.curr == k)
  {
    var b := Begin(nd, k);
    if o(k).Immediate? {
      var f := b.(open := true, unsent := true, sess := ConnectionInit(b.sess));
      assert ConnectRound(nd, o) == Flush(f, o(k).send, o);
      if Burnt(o(k)) {
        var t := f.(unsent := false, sess := Exchanged(f.sess));
        assert Has(t.sess.state, BYTES_EXCHANGED);
        assert Flush(f, o(k).send, o) == Close(t, OtherReason, o);
      }
    }
  }

  /** When every server still to be tried is dead, each was tried once in order and the client waits. */
  lemma AllDead(nd: Nd, o: Oracle)
    requires Between(nd) && forall i :: nd.curr < i < nd.n ==> Dead(o(i))
    ensures var r := ConnectRound(nd, o);
            r.tries == nd.tries + UpTo(nd.curr + 1, nd.n) && r.timer && !r.open && r.curr == -1
  {
    RoundOrder(nd, o);
    var j := FirstLive(nd.n, nd.curr + 1, o);
    assert j == nd.n;
  }

  /**
   * The documentation says that all listed servers are tried before waiting. With nothing but dead servers this
   * is what happens exactly when the round starts afresh: after losing server i only those behind it are tried.
   */
  lemma AllServersTriedIff(nd: Nd, o: Oracle)
    requires Between(nd) && forall i :: 0 <= i < nd.n ==> Dead(o(i))
    ensures var r := ConnectRound(nd, o);
            && r.timer && |nd.tries| <= |r.tries|
            && ((forall i :: 0 <= i < nd.n ==> i in r.tries[|nd.tries|..]) <==> nd.curr == -1)
  {
    hide ConnectRound;
    AllDead(nd, o);
    var r := ConnectRound(nd, o);
    var t := UpTo(nd.curr + 1, nd.n);
    assert r.tries[|nd.tries|..] == t;
    if nd.curr == -1 {
      forall i | 0 <= i < nd.n
        ensures i in t
      {
        assert t[i] == i;
      }
    } else {
      assert 0 !in t;
    }
  }

  /** With a single server, losing the connection leads to no attempt at all before the wait. */
  lemma LosingTheOnlyServer(nd: Nd, o: Oracle)
    requires nd.Valid() && nd.n == 1 && nd.open && !nd.timer && nd.curr == 0
    ensures var r := Close(nd, Lost, o); r.timer && !r.open && r.tries == nd.tries
  {
    var c := nd.(open := false, unsent := false, window := [], sess := Closed(nd.sess));
    assert Close(nd, Lost, o) == ProcessReconnect(c, o) == ConnectRound(c.(timer := false), o);
  }

  // Whole runs

  /**
   * What holds between events: exactly one of a connection (open or pending) and an armed timer; a timer means that
   * no round is on; a structure left behind by a failed attempt is still blank; the session invariant; the read
   * buffer holds an incomplete message, is within its bounds and has room for at least one byte more.
   */
  ghost predicate Linked(nd: Nd) {
    && nd.Valid() && nd.open != nd.timer
    && (nd.open ==> nd.sess.attached && nd.curr >= 0)
    && (nd.timer ==> nd.curr == -1)
    && (nd.sess.attached && !nd.open ==> nd.sess.state == 0)
    && Inv(nd.sess) && Parse(nd.window).Again? && CapInv(nd.cap) && |nd.window| + 1 < nd.cap
  }

  /** What a round needs to start or go on. */
  ghost predicate RoundReady(nd: Nd) {
    && Between(nd) && Inv(nd.sess) && Parse(nd.window).Again? && CapInv(nd.cap) && |nd.window| + 1 < nd.cap
    && (nd.sess.attached ==> nd.sess.state == 0)
  }

  lemma BlankWindow(cap: nat)
    requires CapInv(cap)
    ensures Parse([]).Again? && cap > 1
  {
    CapAtMost(cap);
  }

  lemma {:induction false} RoundKeeps(nd: Nd, o: Oracle)
    requires RoundReady(nd)
    ensures Linked(ConnectRound(nd, o))
    decreases nd.Left(), 0
  {
    hide Inv, Parse, Flush, CapInv;
    BlankWindow(nd.cap);
    var k := nd.curr + 1;
    if k < nd.n {
      var b := Begin(nd, k);
      FreshKeeps(nd.sess);
      match o(k)
      case Fails => RoundKeeps(b, o);
      case Pending =>
      case Immediate(s) =>
        InitKeeps(b.sess);
        FlushKeeps(b.(open := true, unsent := true, sess := ConnectionInit(b.sess)), s, o);
    }
  }

  /** Closing is safe in any state with a consistent session, also when a timer is already armed. */
  lemma {:induction false} CloseKeeps(nd: Nd, reason: Reason, o: Oracle)
    requires nd.Valid() && Inv(nd.sess) && (nd.timer ==> nd.curr == -1) && CapInv(nd.cap)
    ensures Linked(Close(nd, reason, o))
    decreases nd.Left(), 2
  {
    hide Inv, Parse, ConnectRound, CapInv;
    BlankWindow(nd.cap);
    ClosedKeeps(nd.sess);
    var c := nd.(open := false, unsent := false, window := [], sess := Closed(nd.sess));
    if reason == Lost || !Has(nd.sess.state, BYTES_EXCHANGED) {
      assert Close(nd, reason, o) == ProcessReconnect(c, o) == ConnectRound(c.(timer := false), o);
      RoundKeeps(c.(timer := false), o);
    }
  }

  lemma {:induction false} FlushKeeps(nd: Nd, s: Send, o: Oracle)
    requires Linked(nd) && nd.open
    ensures Linked(Flush(nd, s, o))
    decreases nd.Left(), 3
  {
    hide Inv, Parse, Close, CapInv;
    if nd.unsent {
      match s
      case Took(all, eventOk) =>
        ExchangedKeeps(nd.sess);
        var t := nd.(sess := Exchanged(nd.sess), unsent := !all);
        if all && !eventOk {
          CloseKeeps(t, OtherReason, o);
        }
      case SendFails => CloseKeeps(nd, Lost, o);
      case Blocks(eventOk) => if !eventOk { CloseKeeps(nd, OtherReason, o); }
      case TookNone =>
    }
  }

  lemma {:induction false} LoadInv(h: Sess, cap: nat, s: bytes, alloc: nat -> bool, strtod: bytes -> bool)
    requires cap > 0 && Inv(h) && h.attached
    ensures var r := Load(h, cap, s, alloc, strtod).d.h; Inv(r) && r.attached && Gains(h, r)
    decreases |s|
  {
    hide Inv, Handle, FrameContent, Parse, Peak, Limit;
    if Parse(s).Frame? && !Overfull(h, cap, s, alloc) {
      WireStability.FrameBounds(s);
      var (h1, ok) := Handle(h, FrameContent(s), strtod);
      HandleKeeps(h, FrameContent(s), strtod);
      if ok {
        LoadInv(h1, Buffer.Doubled(cap, Peak(s) + 2), s[Parse(s).n..], alloc, strtod);
        GainsTransitive(h, h1, Load(h, cap, s, alloc, strtod).d.h);
      }
    }
  }

  /** A read that leaves the client waiting leaves it ready to receive more. */
  lemma LoadReady(h: Sess, cap: nat, s: bytes, alloc: nat -> bool, strtod: bytes -> bool)
    requires cap > 0 && CapInv(cap)
    ensures var r := Load(h, cap, s, alloc, strtod);
            && CapInv(r.cap)
            && (!r.full && r.d.stop.Waiting? ==> Parse(r.d.rest).Again? && |r.d.rest| + 1 < r.cap)
  {
    hide Load, Parse, Drain, CapInv;
    LoadCap(h, cap, s, alloc, strtod);
    LoadIsDrain(h, cap, s, alloc, strtod);
    if Drain(h, s, strtod).stop.Waiting? {
      WaitingRest(h, s, strtod);
    }
  }

  lemma GainsTransitive(h: Sess, m: Sess, r: Sess)
    requires Gains(h, m) && Gains(m, r)
    ensures Gains(h, r)
  {
  }

  lemma CalledKeeps(nd: Nd, h: Sess, s: Send, o: Oracle)
    requires Linked(nd) && Inv(h) && h.state == nd.sess.state && h.attached == nd.sess.attached
    requires |h.queued| > |nd.sess.queued| ==> nd.sess.IsReady()
    ensures Linked(Called(nd, h, s, o))
  {
    hide Inv, Parse, Flush, CapInv;
    if |h.queued| > |nd.sess.queued| {
      FlushKeeps(WithSession(nd, h), s, o);
    }
  }

  lemma ReadKeeps(nd: Nd, r: Read, s: Send, o: Oracle, strtod: bytes -> bool)
    requires Linked(nd) && nd.open
    ensures Linked(ReadEvent(nd, r, s, o, strtod))
  {
    hide Inv, Parse, Load, Close, Flush, CapInv;
    match r
    case ReadTimedOut => CloseKeeps(nd, OtherReason, o);
    case ConnectTestFails => CloseKeeps(nd, OtherReason, o);
    case Got(stream, alloc, end) =>
      ExchangedKeeps(nd.sess);
      var h := if stream == [] then nd.sess else Exchanged(nd.sess);
      var l := Load(h, nd.cap, nd.window + stream, alloc, strtod);
      LoadInv(h, nd.cap, nd.window + stream, alloc, strtod);
      LoadReady(h, nd.cap, nd.window + stream, alloc, strtod);
      var m := WithSession(nd, l.d.h).(window := l.d.rest, cap := l.cap);
      if l.full || !l.d.stop.Waiting? {
        CloseKeeps(m, OtherReason, o);
        CloseKeeps(Close(m, OtherReason, o), OtherReason, o);
      } else {
        match end
        case PeerGone => CloseKeeps(m, Lost, o);
        case NoMore(eventOk) =>
          if !eventOk {
            CloseKeeps(m, OtherReason, o);
          } else if |m.sess.queued| > |nd.sess.queued| {
            FlushKeeps(m, s, o);
          }
      }
  }

  /** Never stuck, never doubled: every event keeps it. */
  lemma StepKeeps(nd: Nd, e: Event, s: Send, o: Oracle, strtod: bytes -> bool)
    requires Linked(nd) && Enabled(nd, e)
    ensures Linked(Step(nd, e, s, o, strtod))
  {
    hide Inv, Parse, Close, Flush, ReadEvent, Called, PublishCall, SubscribeCall, UnsubscribeCall, AddClient;
    hide ConnectRound;
    match e
    case TimerFires => RoundKeeps(nd.(timer := false), o);
    case Writable(timedOut) =>
      if timedOut {
        CloseKeeps(nd, OtherReason, o);
      } else {
        InitKeeps(nd.sess);
        FlushKeeps(WithSession(nd, ConnectionInit(nd.sess)), s, o);
      }
    case Readable(r) => ReadKeeps(nd, r, s, o, strtod);
    case Registers(c) =>
      AddClientKeeps(nd.sess, c);
      AddClientQueues(nd.sess, c);
    case Publishes(subject, replyto, data, len) =>
      PublishKeeps(nd.sess, subject, replyto, data, len);
      PublishQueues(nd.sess, subject, replyto, data, len);
      CalledKeeps(nd, PublishCall(nd.sess, subject, replyto, data, len).0, s, o);
    case Subscribes(client, handler, subject, max) =>
      SubscribeKeeps(nd.sess, client, handler, subject, max);
      SubscribeQueues(nd.sess, client, handler, subject, max);
      CalledKeeps(nd, SubscribeCall(nd.sess, client, handler, subject, max).0, s, o);
    case Unsubscribes(sid) =>
      UnsubscribeKeeps(nd.sess, sid);
      UnsubscribeQueues(nd.sess, sid);
      CalledKeeps(nd, UnsubscribeCall(nd.sess, sid).0, s, o);
  }

  lemma AddClientQueues(h: Sess, c: Client)
    ensures AddClient(h, c).queued == h.queued && AddClient(h, c).attached == h.attached
  {
    hide Tell;
  }

  lemma PublishQueues(h: Sess, subject: bytes, replyto: Option<bytes>, data: bytes, len: nat)
    requires len <= |data|
    ensures !h.IsReady() ==> PublishCall(h, subject, replyto, data, len).0 == h
  {
  }

  lemma SubscribeQueues(h: Sess, client: nat, handler: nat, subject: bytes, max: int)
    ensures !h.IsReady() ==> SubscribeCall(h, client, handler, subject, max).0 == h
  {
  }

  lemma UnsubscribeQueues(h: Sess, sid: nat)
    ensures !h.IsReady() ==> UnsubscribeCall(h, sid).0 == h
  {
  }

  /** An event with the outcomes of the send and the attempts it leads to. */
  datatype Act = Act(e: Event, s: Send, o: Oracle)

  /** A read has a meaning exactly when the reading does not come to a MSG with a decimal field above ngx_int_t. */
  lemma DefinedIff(nd: Nd, stream: bytes, alloc: nat -> bool, end: ReadEnd, strtod: bytes -> bool)
    requires nd.Valid()
    ensures var l := Arrived(nd, stream, alloc, strtod);
            Defined(nd, Readable(Got(stream, alloc, end)), strtod) <==> l.full || !WireOverflow.Unreadable(l.d.rest)
  {
    hide Load, Parse, Drain, WireOverflow.Unreadable;
    var h := if stream == [] then nd.sess else Exchanged(nd.sess);
    LoadIsDrain(h, nd.cap, nd.window + stream, alloc, strtod);
    StopTells(h, nd.window + stream, strtod);
    FullWaits(h, nd.cap, nd.window + stream, alloc, strtod);
    WireOverflow.OverflowIff(Arrived(nd, stream, alloc, strtod).d.rest);
  }

  /** The events can happen one after the other, and C gives each of them a meaning. */
  ghost predicate Possible(nd: Nd, acts: seq<Act>, strtod: bytes -> bool)
    requires nd.Valid()
    decreases |acts|
  {
    acts == [] ||
    (Enabled(nd, acts[0].e) && Defined(nd, acts[0].e, strtod) &&
     Possible(Step(nd, acts[0].e, acts[0].s, acts[0].o, strtod), acts[1..], strtod))
  }

  ghost function Run(nd: Nd, acts: seq<Act>, strtod: bytes -> bool): (r: Nd)
    requires nd.Valid() && Possible(nd, acts, strtod)
    ensures r.Valid()
    decreases |acts|
  {
    if acts == [] then nd else Run(Step(nd, acts[0].e, acts[0].s, acts[0].o, strtod), acts[1..], strtod)
  }

  lemma StartReady(n: nat)
    requires n > 0
    ensures RoundReady(Start(n))
  {
    BlankWindow(Buffer.INIT_SIZE);
  }

  lemma {:induction false} RunKeeps(nd: Nd, acts: seq<Act>, strtod: bytes -> bool)
    requires Linked(nd) && Possible(nd, acts, strtod)
    ensures Linked(Run(nd, acts, strtod))
    decreases |acts|
  {
    hide Inv, Parse, Step;
    if acts != [] {
      StepKeeps(nd, acts[0].e, acts[0].s, acts[0].o, strtod);
      RunKeeps(Step(nd, acts[0].e, acts[0].s, acts[0].o, strtod), acts[1..], strtod);
    }
  }

  /** After the start and any run of events: connected, connecting or waiting for the timer, and exactly one of them. */
  lemma NeverStuck(n: nat, o: Oracle, acts: seq<Act>, strtod: bytes -> bool)
    requires n > 0 && Possible(Init(n, o), acts, strtod)
    ensures var r := Run(Init(n, o), acts, strtod); r.open != r.timer && Linked(r)
  {
    hide Inv, Parse, Step, ConnectRound;
    StartReady(n);
    RoundKeeps(Start(n), o);
    RunKeeps(Init(n, o), acts, strtod);
  }

  /** The same run, in terms of what the server and the clients see of the connection. */
  lemma RunPromises(n: nat, o: Oracle, acts: seq<Act>, strtod: bytes -> bool)
    requires n > 0 && Possible(Init(n, o), acts, strtod)
    ensures var h := Run(Init(n, o), acts, strtod).sess;
            && |h.issued| == h.nextId
            && h.state in {0, 1, 2, 3, 15}
            && multiset(h.queued)[Connect] <= 1
            && (h.state != READY ==> forall c :: c in h.queued ==> c == Connect || c == PongReply)
            && (h.IsReady() ==> multiset(h.told) == multiset(Range(0, |h.clients|)))
            && (!h.IsReady() ==> Subscriptions.Table(h.subs) == map[] && h.nextId == 0)
            && (forall sid :: sid in Subscriptions.Table(h.subs) ==> 1 <= sid <= h.nextId)
            && (forall sid :: 1 <= sid <= h.nextId && h.issued[sid - 1] > 0 ==>
                  && multiset(h.delivered)[sid] <= h.issued[sid - 1]
                  && (sid in Subscriptions.Table(h.subs) ==> multiset(h.delivered)[sid] < h.issued[sid - 1]))
  {
    hide Step, Run, Init, Possible;
    NeverStuck(n, o, acts, strtod);
    Promises(Run(Init(n, o), acts, strtod).sess);
  }

  lemma Promises(h: Sess)
    requires Inv(h)
    ensures |h.issued| == h.nextId && h.state in {0, 1, 2, 3, 15} && multiset(h.queued)[Connect] <= 1
    ensures h.state != READY ==> forall c :: c in h.queued ==> c == Connect || c == PongReply
    ensures h.IsReady() ==> multiset(h.told) == multiset(Range(0, |h.clients|))
    ensures !h.IsReady() ==> Subscriptions.Table(h.subs) == map[] && h.nextId == 0
    ensures forall sid :: sid in Subscriptions.Table(h.subs) ==> 1 <= sid <= h.nextId
    ensures forall sid :: 1 <= sid <= h.nextId && h.issued[sid - 1] > 0 ==>
              && multiset(h.delivered)[sid] <= h.issued[sid - 1]
              && (sid in Subscriptions.Table(h.subs) ==> multiset(h.delivered)[sid] < h.issued[sid - 1])
  {
    if h.IsReady() {
      ExactlyIsMultiset(h.told, Range(0, |h.clients|));
    }
    EmptyTable();
    hide Exactly, Subscriptions.Table;
    forall sid | sid in Subscriptions.Table(h.subs)
      ensures 1 <= sid <= h.nextId && (h.issued[sid - 1] > 0 ==> Count(h.delivered, sid) < h.issued[sid - 1])
    {
      Subscriptions.TableMember(h.subs, sid);
      var i :| 0 <= i < |h.subs| && h.subs[i].sid == sid != 0;
      assert SlotInv(h.subs[i], h.issued, h.delivered);
    }
    forall sid | 1 <= sid <= h.nextId && h.issued[sid - 1] > 0
      ensures multiset(h.delivered)[sid] <= h.issued[sid - 1]
    {
      assert Count(h.delivered, sid) <= h.issued[sid - 1];
    }
  }

  /** A sequence without repetitions that has the members of a set is that set, as multisets. */
  lemma {:induction false} ExactlyIsMultiset(t: seq<nat>, s: set<nat>)
    requires Exactly(t, s)
    ensures multiset(t) == multiset(s)
    decreases |t|
  {
    if t == [] {
      assert s == {};
    } else {
      ExactlyTail(t, s);
      ExactlyIsMultiset(t[1..], s - {t[0]});
      hide Exactly;
      assert t == [t[0]] + t[1..];
      assert multiset(s) == multiset(s - {t[0]}) + multiset{t[0]};
    }
  }

  lemma ExactlyTail(t: seq<nat>, s: set<nat>)
    requires Exactly(t, s) && t != []
    ensures t[0] in s && Exactly(t[1..], s - {t[0]})
  {
    var x, u := t[0], t[1..];
    assert forall j :: 0 <= j < |u| ==> u[j] == t[j + 1] && u[j] != x;
    assert forall y :: y in t <==> y == x || y in u by { assert t == [x] + u; }
  }

  // Giving up on a bad stream

  /**
   * The read loop closes a connection that carried bytes twice: the first close arms the timer, so nothing is
   * reconnected in between and the second finds the timer armed; but clients of a ready connection are told twice.
   */
  lemma GiveUpWaits(nd: Nd, o: Oracle)
    requires nd.Valid() && nd.open && !nd.timer && Has(nd.sess.state, BYTES_EXCHANGED)
    ensures var r := GiveUp(nd, o);
            && r.timer && !r.open && r.curr == -1 && r.tries == nd.tries
            && var notes := DisconnectedNotes(|nd.sess.clients|);
            r.sess.log == if nd.sess.state == READY then nd.sess.log + notes + notes else nd.sess.log
  {
    var c := Close(nd, OtherReason, o);
    assert c == AddReconnectTimer(nd.(open := false, unsent := false, window := [], sess := Closed(nd.sess)));
    var d := Close(c, OtherReason, o);
    assert d == AddReconnectTimer(c.(open := false, unsent := false, window := [], sess := Closed(c.sess)));
  }

  // Within one connection

  /** History only grows: bits, sids issued, deliveries, commands queued, clients registered. */
  ghost predicate Grows(h: Sess, r: Sess) {
    && Gains(h, r) && h.issued <= r.issued && h.delivered <= r.delivered && h.queued <= r.queued
    && h.clients <= r.clients
  }

  lemma GrowsTransitive(h: Sess, m: Sess, r: Sess)
    requires Grows(h, m) && Grows(m, r)
    ensures Grows(h, r)
  {
  }

  lemma HandleGrows(h: Sess, c: WireContent.Content, strtod: bytes -> bool)
    requires Inv(h) && h.attached
    ensures Grows(h, Handle(h, c, strtod).0)
  {
    HandleKeeps(h, c, strtod);
    hide Inv, ReadInfo, TellFrom, Subscriptions.Account, Subscriptions.Find;
  }

  lemma {:induction false} LoadGrows(h: Sess, cap: nat, s: bytes, alloc: nat -> bool, strtod: bytes -> bool)
    requires cap > 0 && Inv(h) && h.attached
    ensures Grows(h, Load(h, cap, s, alloc, strtod).d.h)
    decreases |s|
  {
    hide Inv, Handle, FrameContent, Grows, Parse, Peak, Limit;
    GrowsItself(h);
    if Parse(s).Frame? && !Overfull(h, cap, s, alloc) {
      WireStability.FrameBounds(s);
      var (h1, ok) := Handle(h, FrameContent(s), strtod);
      HandleKeeps(h, FrameContent(s), strtod);
      HandleGrows(h, FrameContent(s), strtod);
      if ok {
        LoadGrows(h1, Buffer.Doubled(cap, Peak(s) + 2), s[Parse(s).n..], alloc, strtod);
        GrowsTransitive(h, h1, Load(h, cap, s, alloc, strtod).d.h);
      }
    }
  }

  lemma GrowsItself(h: Sess)
    ensures Grows(h, h) && Grows(h, Exchanged(h)) && Grows(h, ConnectionInit(h))
  {
  }

  /** A close that ends with a connection has attempted a server. */
  lemma CloseAttempts(nd: Nd, reason: Reason, o: Oracle)
    requires nd.Valid()
    ensures var r := Close(nd, reason, o); r.open ==> |r.tries| > |nd.tries|
  {
    hide ConnectRound;
    var c := nd.(open := false, unsent := false, window := [], sess := Closed(nd.sess));
    if reason == Lost || !Has(nd.sess.state, BYTES_EXCHANGED) {
      assert Close(nd, reason, o) == ProcessReconnect(c, o) == ConnectRound(c.(timer := false), o);
      RoundOrder(c.(timer := false), o);
    }
  }

  /** The connection survived the step: there is one, and no server was attempted. */
  predicate SameConnection(nd: Nd, r: Nd) {
    nd.open && r.open && r.tries == nd.tries
  }

  lemma FlushGrows(nd: Nd, s: Send, o: Oracle)
    requires nd.Valid() && nd.open
    ensures SameConnection(nd, Flush(nd, s, o)) ==> Grows(nd.sess, Flush(nd, s, o).sess)
  {
    hide Close, Grows;
    GrowsItself(nd.sess);
    var t := nd.(sess := Exchanged(nd.sess), unsent := false);
    CloseAttempts(t, OtherReason, o);
    CloseAttempts(nd, Lost, o);
    CloseAttempts(nd, OtherReason, o);
  }

  lemma SessionThenFlush(nd: Nd, h: Sess, s: Send, o: Oracle)
    requires nd.Valid() && nd.open && Grows(nd.sess, h)
    ensures var r := Flush(WithSession(nd, h), s, o); SameConnection(nd, r) ==> Grows(nd.sess, r.sess)
  {
    hide Flush, Grows;
    var m := WithSession(nd, h);
    FlushGrows(m, s, o);
    var r := Flush(m, s, o);
    if SameConnection(nd, r) {
      GrowsTransitive(nd.sess, h, r.sess);
    }
  }

  lemma GiveUpAttempts(nd: Nd, o: Oracle)
    requires nd.Valid()
    ensures GiveUp(nd, o).open ==> |GiveUp(nd, o).tries| > |nd.tries|
  {
    hide Close;
    CloseTries(nd, OtherReason, o);
    CloseAttempts(Close(nd, OtherReason, o), OtherReason, o);
  }

  lemma CloseTries(nd: Nd, reason: Reason, o: Oracle)
    requires nd.Valid()
    ensures |Close(nd, reason, o).tries| >= |nd.tries|
  {
    hide ConnectRound;
    var c := nd.(open := false, unsent := false, window := [], sess := Closed(nd.sess));
    if reason == Lost || !Has(nd.sess.state, BYTES_EXCHANGED) {
      assert Close(nd, reason, o) == ProcessReconnect(c, o) == ConnectRound(c.(timer := false), o);
      RoundOrder(c.(timer := false), o);
    }
  }

  lemma ReadDoneGrows(nd: Nd, before: nat, end: ReadEnd, s: Send, o: Oracle)
    requires nd.Valid() && nd.open
    ensures var x := ReadDone(nd, before, end, s, o); SameConnection(nd, x) ==> Grows(nd.sess, x.sess)
  {
    hide Close, Flush, Grows;
    GrowsItself(nd.sess);
    CloseAttempts(nd, Lost, o);
    CloseAttempts(nd, OtherReason, o);
    FlushGrows(nd, s, o);
  }

  lemma ReadGrows(nd: Nd, r: Read, s: Send, o: Oracle, strtod: bytes -> bool)
    requires Linked(nd) && nd.open
    ensures var x := ReadEvent(nd, r, s, o, strtod); SameConnection(nd, x) ==> Grows(nd.sess, x.sess)
  {
    hide Inv, Parse, Load, Close, Grows, GiveUp, ReadDone, CapInv;
    CloseAttempts(nd, OtherReason, o);
    if r.Got? {
      ExchangedKeeps(nd.sess);
      GrowsItself(nd.sess);
      var h := if r.stream == [] then nd.sess else Exchanged(nd.sess);
      var l := Load(h, nd.cap, nd.window + r.stream, r.alloc, strtod);
      LoadGrows(h, nd.cap, nd.window + r.stream, r.alloc, strtod);
      GrowsTransitive(nd.sess, h, l.d.h);
      var m := WithSession(nd, l.d.h).(window := l.d.rest, cap := l.cap);
      GiveUpAttempts(m, o);
      ReadDoneGrows(m, |nd.sess.queued|, r.end, s, o);
      var x := ReadDone(m, |nd.sess.queued|, r.end, s, o);
      if SameConnection(m, x) {
        GrowsTransitive(nd.sess, l.d.h, x.sess);
      }
    }
  }

  lemma CallsGrow(h: Sess)
    ensures forall subject, replyto, data, len: nat :: len <= |data| ==>
              Grows(h, PublishCall(h, subject, replyto, data, len).0)
    ensures forall client, handler, subject, max :: Grows(h, SubscribeCall(h, client, handler, subject, max).0)
    ensures forall sid :: Grows(h, UnsubscribeCall(h, sid).0)
    ensures forall c :: Grows(h, AddClient(h, c))
  {
    hide Cut, PubLine, SubLine, UnsubLine, Tell, Subscriptions.Add, Subscriptions.Remove, Subscriptions.Find;
  }

  /** As long as a connection lives, its state only gains bits, no sid is issued twice and nothing queued is undone. */
  lemma StepGrows(nd: Nd, e: Event, s: Send, o: Oracle, strtod: bytes -> bool)
    requires Linked(nd) && Enabled(nd, e)
    ensures var r := Step(nd, e, s, o, strtod); SameConnection(nd, r) ==> Grows(nd.sess, r.sess)
  {
    hide Inv, Parse, Close, Flush, ReadEvent, PublishCall, SubscribeCall, UnsubscribeCall, AddClient, Grows;
    hide ConnectRound;
    if nd.open {
      CallsGrow(nd.sess);
      GrowsItself(nd.sess);
      CloseAttempts(nd, OtherReason, o);
      match e
      case TimerFires =>
      case Writable(timedOut) => SessionThenFlush(nd, ConnectionInit(nd.sess), s, o);
      case Readable(r) => ReadGrows(nd, r, s, o, strtod);
      case Registers(c) =>
      case Publishes(subject, replyto, data, len) =>
        SessionThenFlush(nd, PublishCall(nd.sess, subject, replyto, data, len).0, s, o);
      case Subscribes(client, handler, subject, max) =>
        SessionThenFlush(nd, SubscribeCall(nd.sess, client, handler, subject, max).0, s, o);
      case Unsubscribes(sid) => SessionThenFlush(nd, UnsubscribeCall(nd.sess, sid).0, s, o);
    }
  }
}
