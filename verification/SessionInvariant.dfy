/** What every step of a connection keeps. */
module SessionInvariant {
  import opened Bytes
  import opened WireContent
  import opened Subscriptions
  import opened Session
  import Buffer

  // Who was told

  /** The members of t are the members of s, each once. */
  ghost predicate Exactly(t: seq<nat>, s: set<nat>) {
    (forall i, j :: 0 <= i < j < |t| ==> t[i] != t[j]) && (forall x :: x in t <==> x in s)
  }

  ghost function Range(lo: nat, hi: nat): (r: set<nat>)
    ensures forall x :: x in r <==> lo <= x < hi
    decreases hi - lo
  {
    if lo >= hi then {} else {lo} + Range(lo + 1, hi)
  }

  lemma ExactlyJoin(t: seq<nat>, s: set<nat>, u: seq<nat>, v: set<nat>)
    requires Exactly(t, s) && Exactly(u, v) && s !! v
    ensures Exactly(t + u, s + v)
  {
    var w := t + u;
    forall i, j | 0 <= i < j < |w|
      ensures w[i] != w[j]
    {
      if i < |t| <= j {
        assert t[i] in t && u[j - |t|] in u;
      }
    }
  }

  /** The entries a step told: those in r.told behind h.told. */
  ghost function NewlyTold(h: Sess, r: Sess): seq<nat>
    requires |h.told| <= |r.told|
  {
    r.told[|h.told|..]
  }

  lemma ToldChain(h: Sess, m: Sess, r: Sess)
    requires OnlyNotifies(h, m) && OnlyNotifies(m, r)
    ensures OnlyNotifies(h, r) && NewlyTold(h, r) == NewlyTold(h, m) + NewlyTold(m, r)
  {
  }

  lemma {:induction false} TellTells(h: Sess, k: nat)
    requires h.IsReady() && k < |h.clients|
    ensures var r := Tell(h, k); Exactly(NewlyTold(h, r), {k} + Range(|h.clients|, |r.clients|))
    decreases h.clients[k], 1
  {
    var m := h.(log := h.log + [Connected(k)], told := h.told + [k]);
    var r := Tell(h, k);
    AddAllTells(m, h.clients[k].adds);
    hide AddAll;
    assert NewlyTold(h, m) == [k];
    ToldChain(h, m, r);
    ExactlyJoin([k], {k}, NewlyTold(m, r), Range(|h.clients|, |r.clients|));
  }

  lemma {:induction false} AddClientTells(h: Sess, c: Client)
    requires h.IsReady()
    ensures var r := AddClient(h, c); Exactly(NewlyTold(h, r), Range(|h.clients|, |r.clients|))
    decreases c, 2
  {
    var m := h.(clients := h.clients + [c]);
    var r := AddClient(h, c);
    TellTells(m, |h.clients|);
    hide Tell;
    assert {|h.clients|} + Range(|m.clients|, |r.clients|) == Range(|h.clients|, |r.clients|);
  }

  lemma {:induction false} AddAllTells(h: Sess, cs: seq<Client>)
    requires h.IsReady()
    ensures var r := AddAll(h, cs); Exactly(NewlyTold(h, r), Range(|h.clients|, |r.clients|))
    decreases cs, 0
  {
    if cs != [] {
      var m := AddClient(h, cs[0]);
      var r := AddAll(h, cs);
      AddClientTells(h, cs[0]);
      hide AddClient;
      AddAllTells(m, cs[1..]);
      ToldChain(h, m, r);
      ExactlyJoin(NewlyTold(h, m), Range(|h.clients|, |m.clients|), NewlyTold(m, r), Range(|m.clients|, |r.clients|));
      assert Range(|h.clients|, |m.clients|) + Range(|m.clients|, |r.clients|) == Range(|h.clients|, |r.clients|);
    }
  }

  lemma RangesJoin(i: nat, n: nat, a: nat, b: nat, c: nat)
    requires i < n <= a <= b <= c
    ensures {i} + Range(a, b) !! Range(i + 1, n) + Range(b, c)
    ensures {i} + Range(a, b) + (Range(i + 1, n) + Range(b, c)) == Range(i, n) + Range(a, c)
  {
  }

  /** The notification loop tells the entries it covers and everyone registered meanwhile, each once. */
  lemma {:induction false} TellFromTells(h: Sess, i: nat, n: nat)
    requires h.IsReady() && i <= n <= |h.clients|
    ensures var r := TellFrom(h, i, n); Exactly(NewlyTold(h, r), Range(i, n) + Range(|h.clients|, |r.clients|))
    decreases n - i
  {
    hide Exactly, NewlyTold, Tell, OnlyNotifies, Range;
    var r := TellFrom(h, i, n);
    if i == n {
      NobodyTold(h, i);
    } else {
      var m := Tell(h, i);
      TellTells(h, i);
      Notified(h, m);
      TellFromTells(m, i + 1, n);
      ToldChain(h, m, r);
      Notified(m, r);
      RangesJoin(i, n, |h.clients|, |m.clients|, |r.clients|);
      ExactlyJoin(NewlyTold(h, m), {i} + Range(|h.clients|, |m.clients|),
                  NewlyTold(m, r), Range(i + 1, n) + Range(|m.clients|, |r.clients|));
    }
  }

  lemma NobodyTold(h: Sess, i: nat)
    ensures Exactly(NewlyTold(h, h), Range(i, i) + Range(|h.clients|, |h.clients|))
  {
  }

  lemma Notified(h: Sess, r: Sess)
    requires OnlyNotifies(h, r)
    ensures |h.clients| <= |r.clients| && |h.told| <= |r.told| && r.IsReady() == h.IsReady()
  {
  }

  // The invariant

  /** The five states a connection can be in. */
  predicate KnownState(state: bv8) {
    state == 0 || state == 1 || state == 2 || state == 3 || state == READY
  }

  ghost predicate StateInv(h: Sess) {
    && KnownState(h.state)
    && (h.attached && h.state == READY ==> Exactly(h.told, Range(0, |h.clients|)))
    && (h.state != READY ==> h.told == [])
  }

  /** CONNECT at most once, and only once the state says so; nothing that needs a ready connection before that. */
  ghost predicate QueueInv(h: Sess) {
    && multiset(h.queued)[Connect] <= 1
    && (!Has(h.state, CONNECT_SENT) ==> Connect !in h.queued)
    && (h.state == 2 || h.state == 3 ==> Connect in h.queued)
    && (h.state != READY ==> forall c :: c in h.queued ==> !c.NeedsReady())
    && (forall c :: c in h.queued ==> c.HasText())
  }

  /** How often sid was delivered to. */
  ghost function Count(delivered: seq<nat>, sid: nat): nat {
    multiset(delivered)[sid]
  }

  /** A slot in use: issued, with the maximum it was issued with, and not yet at it. */
  ghost predicate SlotInv(s: Sub, issued: seq<int>, delivered: seq<nat>) {
    s.sid > 0 ==>
      && s.sid <= |issued| && s.max == issued[s.sid - 1]
      && (s.max > 0 ==> s.recv == Count(delivered, s.sid) < s.max)
  }

  /** Nobody subscribed with a maximum gets more than that many messages. */
  ghost predicate WithinMaximum(issued: seq<int>, delivered: seq<nat>) {
    && (forall sid :: 1 <= sid <= |issued| && issued[sid - 1] > 0 ==> Count(delivered, sid) <= issued[sid - 1])
    && (forall sid :: sid in delivered ==> sid <= |issued|)
  }

  /** Live sids are distinct and issued, and the maxima are respected. */
  ghost predicate TableInv(subs: seq<Sub>, issued: seq<int>, delivered: seq<nat>) {
    && Distinct(subs)
    && (forall i :: 0 <= i < |subs| ==> SlotInv(subs[i], issued, delivered))
    && WithinMaximum(issued, delivered)
  }

  ghost predicate SubsInv(h: Sess) {
    |h.issued| == h.nextId && TableInv(h.subs, h.issued, h.delivered)
  }

  /** Only a ready connection has subscriptions: before the first PONG and after a close there is none, nor a sid. */
  predicate EmptyInv(h: Sess) {
    !h.IsReady() ==> h.subs == [] && h.nextId == 0
  }

  ghost predicate Inv(h: Sess) {
    StateInv(h) && QueueInv(h) && SubsInv(h) && EmptyInv(h)
  }

  /** Within a connection the state only gains bits. */
  predicate Gains(h: Sess, r: Sess) { h.state & r.state == h.state }

  lemma FreshKeeps(h: Sess)
    requires Inv(h) && !h.IsReady()
    ensures Inv(Fresh(h))
  {
    hide TableInv;
  }

  lemma ExchangedKeeps(h: Sess)
    requires Inv(h)
    ensures Inv(Exchanged(h)) && Gains(h, Exchanged(h))
  {
    hide Exactly, TableInv;
  }

  lemma InitKeeps(h: Sess)
    requires Inv(h)
    ensures Inv(ConnectionInit(h)) && Gains(h, ConnectionInit(h))
  {
    hide Exactly, TableInv;
  }

  lemma ClosedKeeps(h: Sess)
    requires Inv(h)
    ensures Inv(Closed(h)) && Table(Closed(h).subs) == map[] && Closed(h).nextId == 0
  {
    EmptyTable();
    hide Exactly, Table;
  }

  lemma EmptyTable()
    ensures Table([]) == map[]
  {
    assert Sids([]) == {};
  }

  /** Registering a client: told at once if ready, by the loop later if not. */
  lemma AddClientKeeps(h: Sess, c: Client)
    requires Inv(h)
    ensures Inv(AddClient(h, c)) && AddClient(h, c).state == h.state
  {
    hide TableInv, Exactly, Tell;
    var r := AddClient(h, c);
    if h.IsReady() {
      AddClientTells(h, c);
      hide AddClient;
      ToldAll(h, r);
    }
  }

  /** Entries told before and entries told now are together all entries. */
  lemma ToldAll(h: Sess, r: Sess)
    requires OnlyNotifies(h, r) && Exactly(h.told, Range(0, |h.clients|))
    requires Exactly(NewlyTold(h, r), Range(|h.clients|, |r.clients|))
    ensures Exactly(r.told, Range(0, |r.clients|))
  {
    assert r.told == h.told + NewlyTold(h, r);
    ExactlyJoin(h.told, Range(0, |h.clients|), NewlyTold(h, r), Range(|h.clients|, |r.clients|));
    assert Range(0, |h.clients|) + Range(|h.clients|, |r.clients|) == Range(0, |r.clients|);
  }

  /** The first PONG makes the connection ready and tells every entry. */
  lemma PongKeeps(h: Sess)
    requires Inv(h) && h.attached
    ensures Inv(HandlePong(h)) && Gains(h, HandlePong(h)) && HandlePong(h).IsReady()
  {
    hide TableInv, Exactly, Tell, TellFrom, Range;
    if !Has(h.state, CONNECT_OKAYED) {
      var h1 := h.(state := READY);
      var r := TellFrom(h1, 0, |h1.clients|);
      TellFromTells(h1, 0, |h1.clients|);
      NoneYet(h1, r);
      Notified(h1, r);
    }
  }

  lemma NoneYet(h: Sess, r: Sess)
    requires OnlyNotifies(h, r) && h.told == []
    requires Exactly(NewlyTold(h, r), Range(0, |h.clients|) + Range(|h.clients|, |r.clients|))
    ensures Exactly(r.told, Range(0, |r.clients|))
  {
    assert r.told == NewlyTold(h, r);
    assert Range(0, |h.clients|) + Range(|h.clients|, |r.clients|) == Range(0, |r.clients|);
  }

  /**
   * A PONG makes the connection ready whether or not CONNECT was queued; if it was not, it never will be on this
   * connection, because a ready state carries the bit that says it was.
   */
  lemma ReadyWithoutConnect(h: Sess)
    requires Inv(h) && h.attached && h.state != READY
    ensures HandlePong(h).IsReady()
    ensures Connect in HandlePong(h).queued <==> Has(h.state, CONNECT_SENT)
    ensures ConnectionInit(HandlePong(h)) == HandlePong(h)
  {
    hide TableInv, Exactly, Tell, TellFrom, Range;
    var h1 := h.(state := READY);
    Notified(h1, TellFrom(h1, 0, |h1.clients|));
  }

  // The subscription table

  lemma CountStep(delivered: seq<nat>, x: nat, sid: nat)
    ensures Count(delivered + [x], sid) == Count(delivered, sid) + (if x == sid then 1 else 0)
  {
    assert multiset(delivered + [x]) == multiset(delivered) + multiset{x};
  }

  /** A new sid is one more than any before, so it was never delivered to and no slot has it. */
  lemma AddKeepsTable(subs: seq<Sub>, issued: seq<int>, delivered: seq<nat>, s: Sub)
    requires TableInv(subs, issued, delivered)
    requires s.sid == |issued| + 1 && s.recv == 0
    ensures TableInv(Add(subs, s), issued + [s.max], delivered)
    ensures s.sid !in Table(subs) && Table(Add(subs, s)) == Table(subs)[s.sid := s]
  {
    var t, more := Add(subs, s), issued + [s.max];
    assert forall i :: 0 <= i < |subs| ==> SlotInv(subs[i], issued, delivered);
    TableMember(subs, s.sid);
    AddRefines(subs, s);
    assert Count(delivered, s.sid) == 0 by { assert s.sid !in delivered; }
    forall i | 0 <= i < |t|
      ensures SlotInv(t[i], more, delivered)
    {
      if t[i] != s {
        assert t[i] in subs;
      }
    }
  }

  lemma RemoveKeepsTable(subs: seq<Sub>, issued: seq<int>, delivered: seq<nat>, sid: nat)
    requires TableInv(subs, issued, delivered)
    ensures TableInv(Remove(subs, sid), issued, delivered)
    ensures Table(Remove(subs, sid)) == Table(subs) - {sid}
  {
    RemoveRefines(subs, sid);
    hide WithinMaximum, Distinct;
    var t := Remove(subs, sid);
    forall i | 0 <= i < |t|
      ensures SlotInv(t[i], issued, delivered)
    {
      assert SlotInv(subs[i], issued, delivered);
    }
  }

  /** A delivery to a live sid: counted, and the slot freed exactly when its maximum is reached. */
  lemma DeliverKeepsTable(subs: seq<Sub>, issued: seq<int>, delivered: seq<nat>, k: nat)
    requires TableInv(subs, issued, delivered) && k < |subs| && subs[k].sid > 0
    ensures TableInv(Account(subs, k), issued, delivered + [subs[k].sid])
    ensures var s := subs[k];
            s.max > 0 ==>
              (s.sid in Table(Account(subs, k)) <==> Count(delivered + [s.sid], s.sid) < s.max)
  {
    var s := subs[k];
    var t, d := Account(subs, k), delivered + [s.sid];
    assert SlotInv(s, issued, delivered);
    AccountRefines(subs, k);
    CountStep(delivered, s.sid, s.sid);
    forall i | 0 <= i < |t|
      ensures SlotInv(t[i], issued, d)
    {
      SlotDelivered(subs, issued, delivered, k, i);
    }
    hide Account;
    forall sid | 1 <= sid <= |issued| && issued[sid - 1] > 0
      ensures Count(d, sid) <= issued[sid - 1]
    {
      CountStep(delivered, s.sid, sid);
    }
  }

  lemma SlotDelivered(subs: seq<Sub>, issued: seq<int>, delivered: seq<nat>, k: nat, i: nat)
    requires TableInv(subs, issued, delivered) && k < |subs| && subs[k].sid > 0
    requires i < |Account(subs, k)|
    ensures SlotInv(Account(subs, k)[i], issued, delivered + [subs[k].sid])
  {
    assert i < |subs| && SlotInv(subs[i], issued, delivered);
    CountStep(delivered, subs[k].sid, subs[i].sid);
  }

  /** A message for sid 0 that finds a free slot changes nothing about live subscriptions. */
  lemma StrayKeepsTable(subs: seq<Sub>, issued: seq<int>, delivered: seq<nat>, k: nat)
    requires TableInv(subs, issued, delivered) && k < |subs| && subs[k].sid == 0
    ensures TableInv(Account(subs, k), issued, delivered + [0])
  {
    var t, d := Account(subs, k), delivered + [0];
    assert forall i :: 0 <= i < |t| ==> t[i].sid == subs[i].sid && (t[i].sid > 0 ==> t[i] == subs[i]);
    forall i | 0 <= i < |t|
      ensures SlotInv(t[i], issued, d)
    {
      assert SlotInv(subs[i], issued, delivered);
      CountStep(delivered, 0, t[i].sid);
    }
    forall sid | 1 <= sid <= |issued| && issued[sid - 1] > 0
      ensures Count(d, sid) <= issued[sid - 1]
    {
      CountStep(delivered, 0, sid);
    }
  }

  /**
   * Who gets a message: the handler of the live subscription with its sid; for sid 0, which no subscription has, the
   * stale handler of the first free slot if there is one; otherwise nobody.
   */
  lemma DeliveredTo(h: Sess, c: Content)
    requires c.Message? && Distinct(h.subs)
    ensures var r := Deliver(h, c);
            && (r != h <==>
                c.sid in Table(h.subs) || (c.sid == 0 && exists i :: 0 <= i < |h.subs| && h.subs[i].sid == 0))
            && (c.sid in Table(h.subs) ==>
                  var s := Table(h.subs)[c.sid];
                  r.log == h.log + [Received(s.client, s.handler, c.sid, c.subject, c.replyto, c.payload)])
  {
    hide Account;
    if c.sid > 0 {
      LookupRefines(h.subs, c.sid);
    } else {
      ZeroHitsFreeSlot(h.subs);
    }
    hide Table;
    assert Deliver(h, c) != h <==> Find(h.subs, c.sid) < |h.subs| by {
      if Find(h.subs, c.sid) < |h.subs| {
        assert |Deliver(h, c).delivered| == |h.delivered| + 1;
      }
    }
  }

  // The steps

  lemma QueueKeeps(h: Sess, c: Command)
    requires Inv(h) && c != Connect && (c.NeedsReady() ==> h.state == READY) && c.HasText()
    ensures Inv(Queue(h, c))
  {
    hide TableInv, Exactly;
    assert multiset(h.queued + [c]) == multiset(h.queued) + multiset{c};
  }

  lemma DeliverKeeps(h: Sess, c: Content)
    requires Inv(h) && c.Message?
    ensures Inv(Deliver(h, c)) && Deliver(h, c).state == h.state
  {
    hide TableInv, Exactly, Account;
    var k := Find(h.subs, c.sid);
    if k < |h.subs| {
      if c.sid > 0 {
        DeliverKeepsTable(h.subs, h.issued, h.delivered, k);
      } else {
        StrayKeepsTable(h.subs, h.issued, h.delivered, k);
      }
    }
  }

  /** Every frame keeps the invariant, and the state only gains bits. */
  lemma HandleKeeps(h: Sess, c: Content, strtod: bytes -> bool)
    requires Inv(h) && h.attached
    ensures var r := Handle(h, c, strtod).0; Inv(r) && Gains(h, r) && r.attached
  {
    hide Inv, Gains, ReadInfo, Deliver, HandlePong;
    SameStateGains(h, Handle(h, c, strtod).0);
    match c
    case Ping => QueueKeeps(h, PongReply);
    case Info(text) => ServerKeeps(h, ReadInfo(h.server, text, strtod).0);
    case Pong => PongKeeps(h);
    case Message(_, _, _, _) =>
      DeliverKeeps(h, c);
      assert Deliver(h, c).attached by { DeliverStaysAttached(h, c); }
    case _ =>
  }

  lemma SameStateGains(h: Sess, r: Sess)
    ensures r.state == h.state ==> Gains(h, r)
  {
  }

  lemma ServerKeeps(h: Sess, srv: Server)
    requires Inv(h)
    ensures Inv(h.(server := srv))
  {
    hide TableInv, Exactly;
  }

  lemma DeliverStaysAttached(h: Sess, c: Content)
    requires c.Message?
    ensures Deliver(h, c).attached == h.attached
  {
  }

  lemma PublishKeeps(h: Sess, subject: bytes, replyto: Option<bytes>, data: bytes, len: nat)
    requires Inv(h) && len <= |data|
    ensures var r := PublishCall(h, subject, replyto, data, len).0;
            Inv(r) && r.state == h.state && r.attached == h.attached
  {
    if h.IsReady() {
      QueueKeeps(h, Publish(Cut(PubLine(subject, replyto, len), HEADER_SIZE), Buffer.Sized(data, len)));
    }
    hide Inv, Cut, PubLine;
  }

  /** A subscription enters the table under a sid never used since the last close. */
  lemma SubscribeKeeps(h: Sess, client: nat, handler: nat, subject: bytes, max: int)
    requires Inv(h)
    ensures var (r, reply) := SubscribeCall(h, client, handler, subject, max);
            && Inv(r) && r.state == h.state && r.attached == h.attached
            && (reply.Sid? <==> h.IsReady())
            && (reply.Sid? ==>
                  && reply.sid == h.nextId + 1 && reply.sid !in Table(h.subs)
                  && Table(r.subs) == Table(h.subs)[reply.sid := Sub(reply.sid, client, handler, max, 0)])
  {
    hide TableInv, Exactly, Add, Table, Cut, SubLine, UnsubLine;
    if h.IsReady() {
      var sid := h.nextId + 1;
      AddKeepsTable(h.subs, h.issued, h.delivered, Sub(sid, client, handler, max, 0));
      var h1 := h.(nextId := sid, subs := Add(h.subs, Sub(sid, client, handler, max, 0)), issued := h.issued + [max]);
      assert Inv(h1);
      hide Inv;
      var line := Cut(SubLine(subject, sid), HEADER_SIZE);
      LinesHaveText(subject, sid, Some(max));
      QueueKeeps(h1, Subscribe(line));
      if max > 0 {
        QueueKeeps(Queue(h1, Subscribe(line)), Unsubscribe(Cut(UnsubLine(sid, Some(max)), HEADER_SIZE)));
      }
    }
  }

  lemma LinesHaveText(subject: bytes, sid: nat, max: Option<int>)
    ensures Cut(SubLine(subject, sid), HEADER_SIZE) != []
    ensures Cut(UnsubLine(sid, None), HEADER_SIZE) != []
    ensures max.Some? && max.value >= 0 ==> Cut(UnsubLine(sid, Some(max.value)), HEADER_SIZE) != []
  {
  }

  lemma UnsubscribeKeeps(h: Sess, sid: nat)
    requires Inv(h)
    ensures var (r, reply) := UnsubscribeCall(h, sid);
            && Inv(r) && r.state == h.state && r.attached == h.attached
            && (reply.Fine? <==> h.IsReady() && sid in Table(h.subs))
            && Table(r.subs) == if reply.Fine? then Table(h.subs) - {sid} else Table(h.subs)
  {
    hide TableInv, Exactly, Remove, Table, Cut, UnsubLine;
    if sid > 0 && h.IsReady() {
      assert Distinct(h.subs) by { TableDistinct(h); }
      LookupRefines(h.subs, sid);
      RemoveKeepsTable(h.subs, h.issued, h.delivered, sid);
      LinesHaveText([], sid, None);
      QueueKeeps(h.(subs := Remove(h.subs, sid)), Unsubscribe(Cut(UnsubLine(sid, None), HEADER_SIZE)));
    }
    ZeroHitsFreeSlot(h.subs);
  }

  lemma TableDistinct(h: Sess)
    requires TableInv(h.subs, h.issued, h.delivered)
    ensures Distinct(h.subs)
  {
  }
}
