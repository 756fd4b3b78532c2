/** Single steps of a session in plain terms: what is logged, when an error is fatal, what a call answers. */
module SessionFacts {
  import opened Bytes
  import opened WireContent
  import Json
  import JsonPrinter
  import Commands
  import opened Subscriptions
  import opened Session
  import opened SessionInvariant

  // Frames

  /** An -ERR changes nothing; it closes the connection exactly between CONNECT and the first PONG. */
  lemma ErrorIff(h: Sess, text: bytes, strtod: bytes -> bool)
    requires Inv(h)
    ensures var (r, ok) := Handle(h, Err(text), strtod); r == h && (!ok <==> h.state == 2 || h.state == 3)
  {
    hide TableInv, Exactly, QueueInv;
  }

  /** An INFO that a server prints of itself reaches the connection; +OK does nothing. */
  lemma InfoHandled(h: Sess, s: Server, rest: bytes, strtod: bytes -> bool)
    requires Commands.CleanServer(s)
    ensures var text := JsonPrinter.Print(Json.Obj(Commands.InfoObject(s))) + rest;
            Handle(h, Info(text), strtod) == (h.(server := s), true)
    ensures Handle(h, Ok, strtod) == (h, true)
  {
    Commands.InfoCarries(h.server, s, rest, strtod);
    hide ReadInfo, JsonPrinter.Print, Commands.InfoObject;
  }

  /** The first PONG makes the state 15; every later one changes nothing. */
  lemma PongIff(h: Sess, strtod: bytes -> bool)
    requires Inv(h)
    ensures var (r, ok) := Handle(h, Pong, strtod); ok && r.state == 15 && (h.state == 15 ==> r == h)
  {
    hide TableInv, Exactly, QueueInv, TellFrom;
  }

  // Notes

  /** The notes that these entries were told they are connected. */
  function ConnectedNotes(told: seq<nat>): seq<Note> {
    seq(|told|, i requires 0 <= i < |told| => Connected(told[i]))
  }

  lemma NotesJoin(t: seq<nat>, u: seq<nat>)
    ensures ConnectedNotes(t + u) == ConnectedNotes(t) + ConnectedNotes(u)
  {
  }

  /** The log says of whom a step told exactly that, in order. */
  ghost predicate Logged(h: Sess, r: Sess) {
    && |h.told| <= |r.told| && |h.log| <= |r.log|
    && r.log == h.log + ConnectedNotes(r.told[|h.told|..])
  }

  lemma LoggedChain(h: Sess, m: Sess, r: Sess)
    requires OnlyNotifies(h, m) && OnlyNotifies(m, r) && Logged(h, m) && Logged(m, r)
    ensures Logged(h, r)
  {
    var t, u := m.told[|h.told|..], r.told[|m.told|..];
    assert r.told[|h.told|..] == t + u;
    NotesJoin(t, u);
  }

  lemma {:induction false} TellLogs(h: Sess, k: nat)
    requires k < |h.clients|
    ensures Logged(h, Tell(h, k))
    decreases h.clients[k], 1
  {
    var m := h.(log := h.log + [Connected(k)], told := h.told + [k]);
    assert m.told[|h.told|..] == [k] && ConnectedNotes([k]) == [Connected(k)];
    AddAllLogs(m, h.clients[k].adds);
    assert Logged(h, m);
    hide Logged;
    LoggedChain(h, m, Tell(h, k));
  }

  lemma {:induction false} AddClientLogs(h: Sess, c: Client)
    ensures Logged(h, AddClient(h, c))
    decreases c, 2
  {
    var h1 := h.(clients := h.clients + [c]);
    if h1.IsReady() {
      TellLogs(h1, |h.clients|);
    } else {
      LogsNothing(h, h1);
    }
  }

  lemma {:induction false} AddAllLogs(h: Sess, cs: seq<Client>)
    ensures Logged(h, AddAll(h, cs))
    decreases cs, 0
  {
    LogsNothing(h, h);
    hide Logged;
    if cs != [] {
      AddClientLogs(h, cs[0]);
      AddAllLogs(AddClient(h, cs[0]), cs[1..]);
      LoggedChain(h, AddClient(h, cs[0]), AddAll(h, cs));
    }
  }

  lemma LogsNothing(h: Sess, r: Sess)
    requires r.log == h.log && r.told == h.told
    ensures Logged(h, r)
  {
    assert ConnectedNotes([]) == [];
  }

  /** The notification at the first PONG is logged entry by entry. */
  lemma {:induction false} TellFromLogs(h: Sess, i: nat, n: nat)
    requires i <= n <= |h.clients|
    ensures Logged(h, TellFrom(h, i, n))
    decreases n - i
  {
    LogsNothing(h, h);
    hide Logged, Tell;
    if i < n {
      TellLogs(h, i);
      TellFromLogs(Tell(h, i), i + 1, n);
      LoggedChain(h, Tell(h, i), TellFrom(h, i, n));
    }
  }

  /** The entries below n in a list, in their order. */
  function Below(t: seq<nat>, n: nat): seq<nat> {
    if t == [] then [] else (if t[0] < n then [t[0]] else []) + Below(t[1..], n)
  }

  lemma {:induction false} BelowJoin(t: seq<nat>, u: seq<nat>, n: nat)
    ensures Below(t + u, n) == Below(t, n) + Below(u, n)
    decreases |t|
  {
    if t == [] {
      assert t + u == u;
    } else {
      assert (t + u)[1..] == t[1..] + u;
      BelowJoin(t[1..], u, n);
    }
  }

  lemma {:induction false} NoneBelow(t: seq<nat>, n: nat)
    requires forall i :: 0 <= i < |t| ==> t[i] >= n
    ensures Below(t, n) == []
  {
    if t != [] {
      NoneBelow(t[1..], n);
    }
  }

  function From(i: nat, n: nat): seq<nat>
    requires i <= n
    decreases n - i
  {
    if i == n then [] else [i] + From(i + 1, n)
  }

  lemma TellOne(h: Sess, k: nat, n: nat)
    requires h.IsReady() && k < n <= |h.clients|
    ensures Below(NewlyTold(h, Tell(h, k)), n) == [k]
  {
    var m := h.(log := h.log + [Connected(k)], told := h.told + [k]);
    AddAllTells(m, h.clients[k].adds);
    var u := NewlyTold(m, Tell(h, k));
    hide Exactly, AddAll;
    assert NewlyTold(h, Tell(h, k)) == [k] + u;
    BelowJoin([k], u, n);
    NoneBelow(u, n) by { AllInRange(u, |h.clients|, |Tell(h, k).clients|); }
    assert Below([k], n) == [k] by { assert [k][1..] == []; }
  }

  lemma AllInRange(t: seq<nat>, lo: nat, hi: nat)
    requires Exactly(t, Range(lo, hi))
    ensures forall i :: 0 <= i < |t| ==> t[i] >= lo
  {
    assert forall i :: 0 <= i < |t| ==> t[i] in t;
  }

  /** The loop tells the entries it covers from the first to the last, whoever registers meanwhile. */
  lemma {:induction false} TellsInOrder(h: Sess, i: nat, n: nat)
    requires h.IsReady() && i <= n <= |h.clients|
    ensures Below(NewlyTold(h, TellFrom(h, i, n)), n) == From(i, n)
    decreases n - i
  {
    hide Tell, Below;
    if i < n {
      var m := Tell(h, i);
      TellOne(h, i, n);
      TellsInOrder(m, i + 1, n);
      ToldChain(h, m, TellFrom(h, i, n));
      BelowJoin(NewlyTold(h, m), NewlyTold(m, TellFrom(h, i, n)), n);
    } else {
      assert NewlyTold(h, h) == [];
      NoneBelow([], n);
    }
  }

  /** Registering puts the client behind those registered before. */
  lemma Registered(h: Sess, c: Client)
    ensures var r := AddClient(h, c);
            && |h.clients| < |r.clients| && r.clients[|h.clients|] == c && h.clients <= r.clients
            && (!Open(h) ==> r == h.(clients := h.clients + [c]))
            && (Open(h) ==> |r.log| > |h.log| && r.log[|h.log|] == Connected(|h.clients|))
  {
    var h1 := h.(clients := h.clients + [c]);
    assert h1.clients[|h.clients|] == c;
    if Open(h) {
      var m := h1.(log := h.log + [Connected(|h.clients|)], told := h.told + [|h.clients|]);
      assert Tell(h1, |h.clients|) == AddAll(m, c.adds);
    }
    hide AddAll;
  }

  /** A close of a ready connection logs one note for each entry, in order, and nothing else does. */
  lemma ClosedLogs(h: Sess)
    ensures !Closed(h).attached
    ensures var log := Closed(h).log;
            if h.state == 15 then
              |log| == |h.log| + |h.clients| && log[..|h.log|] == h.log &&
              forall i :: 0 <= i < |h.clients| ==> log[|h.log| + i] == Disconnected(i)
            else log == h.log
  {
  }

  // Calls

  /** A connection is in place and the server has answered its CONNECT. */
  predicate Open(h: Sess) {
    h.attached && h.state == 15
  }

  /** What a publish answers, and that it changes nothing unless it answers Fine. */
  lemma PublishReplyIff(h: Sess, subject: bytes, replyto: Option<bytes>, data: bytes, len: nat)
    requires len <= |data|
    ensures var (r, reply) := PublishCall(h, subject, replyto, data, len);
            var size := |subject| + if replyto.Some? then |replyto.value| else 0;
            && (reply == NotConnected <==> !Open(h))
            && (reply == Declined <==> Open(h) && size > 512)
            && (reply == Fine <==> Open(h) && size <= 512)
            && (reply != Fine ==> r == h)
  {
    hide Cut, PubLine;
  }

  lemma SubscribeReplyIff(h: Sess, client: nat, handler: nat, subject: bytes, max: int)
    ensures var (r, reply) := SubscribeCall(h, client, handler, subject, max);
            && (reply == NotConnected <==> !Open(h)) && (reply == Sid(h.nextId + 1) <==> Open(h))
            && (!Open(h) ==> r == h)
  {
    hide Cut, SubLine, UnsubLine, Add;
  }

  lemma UnsubscribeReplyIff(h: Sess, sid: nat)
    requires Inv(h)
    ensures var (r, reply) := UnsubscribeCall(h, sid);
            && (reply == NotConnected <==> sid != 0 && !Open(h))
            && (reply == Declined <==> sid == 0 || (Open(h) && sid !in Table(h.subs)))
            && (reply == Fine <==> Open(h) && sid in Table(h.subs))
            && (reply != Fine ==> r == h)
  {
    UnsubscribeKeeps(h, sid);
    ZeroHitsFreeSlot(h.subs);
    assert Distinct(h.subs) by { TableDistinct(h); }
    if sid > 0 {
      LookupRefines(h.subs, sid);
    }
    hide Inv, Table, Cut, UnsubLine, Remove;
  }

  /** The first subscription on a connection has sid 1, whatever was subscribed before a close. */
  lemma FirstSid(h: Sess, client: nat, handler: nat, subject: bytes, max: int)
    requires h.attached && Inv(h) && h.state != 15
    ensures SubscribeCall(HandlePong(h), client, handler, subject, max).1 == Sid(1)
  {
    hide TableInv, Exactly, QueueInv, StateInv;
    PongKeeps(h);
    SubscribeReplyIff(HandlePong(h), client, handler, subject, max);
    hide SubscribeCall, TellFrom;
  }

  // The table

  /** A subscription goes into the first free slot, and only without one behind the last. */
  lemma AddReuses(subs: seq<Sub>, s: Sub)
    ensures var t := Add(subs, s);
            if exists i :: 0 <= i < |subs| && subs[i].sid == 0 then
              exists k :: 0 <= k < |subs| && subs[k].sid == 0 && t == subs[k := s] &&
                          forall i :: 0 <= i < k ==> subs[i].sid != 0
            else t == subs + [s]
  {
    var k := Find(subs, 0);
    if k < |subs| {
      assert subs[k].sid == 0;
    }
  }

  /** Removing frees slots and leaves every other one as it is. */
  lemma RemoveFrees(subs: seq<Sub>, sid: nat)
    ensures var t := Remove(subs, sid);
            && |t| == |subs|
            && forall i :: 0 <= i < |subs| ==>
                 t[i] == subs[i] || (subs[i].sid == sid && t[i] == subs[i].(sid := 0))
  {
  }
}
