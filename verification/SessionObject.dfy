/** The connection and client data as the C code keeps them: fields that every routine updates in place. */
module SessionObject {
  import opened Bytes
  import opened WireContent
  import JsonReader
  import opened Subscriptions
  import opened Session
  import Buffer

  class Conn {
    var attached: bool
    var state: bv8
    var server: Server
    var queued: seq<Command>
    var clients: seq<Client>
    var subs: seq<Sub>
    var nextId: nat
    ghost var log: seq<Note>
    ghost var told: seq<nat>
    ghost var issued: seq<int>
    ghost var delivered: seq<nat>
    const strtod: bytes -> bool

    ghost function Val(): Sess
      reads this
    {
      Sess(attached, state, server, queued, clients, subs, nextId, log, told, issued, delivered)
    }

    /** Module start: nothing registered, no connection yet. */
    constructor (strtod: bytes -> bool)
      ensures Val() == Sess(false, 0, UNKNOWN_SERVER, [], [], [], 0, [], [], [], []) && this.strtod == strtod
    {
      this.strtod := strtod;
      attached, state, server, queued := false, 0, UNKNOWN_SERVER, [];
      clients, subs, nextId := [], [], 0;
      log, told, issued, delivered := [], [], [], [];
    }

    method Renew()
      modifies this
      ensures Val() == Fresh(old(Val()))
    {
      attached, state, server, queued := true, 0, UNKNOWN_SERVER, [];
      told := [];
    }

    method CheckConnected()
      modifies this`state
      ensures Val() == Exchanged(old(Val()))
    {
      if state & BYTES_EXCHANGED != 0 {
        assert state | BYTES_EXCHANGED == state;
        return;
      }
      state := state | BYTES_EXCHANGED;
    }

    method Init()
      modifies this`state, this`queued
      ensures Val() == ConnectionInit(old(Val()))
    {
      if state & CONNECT_SENT == 0 {
        state := state | CONNECT_SENT;
        queued := queued + [Connect];
      }
    }

    // Clients

    /** The `connected` callback of entry k. */
    method CallConnected(k: nat)
      requires k < |clients|
      modifies this
      ensures Val() == Tell(old(Val()), k)
      decreases clients[k], 1
    {
      log, told := log + [Connected(k)], told + [k];
      var adds := clients[k].adds;
      ghost var start := Val();
      var i := 0;
      assert adds[0..] == adds;
      while i < |adds|
        invariant i <= |adds|
        invariant AddAll(Val(), adds[i..]) == AddAll(start, adds)
      {
        assert adds[i..][0] == adds[i] && adds[i..][1..] == adds[i + 1..];
        Register(adds[i]);
        i := i + 1;
      }
    }

    method Register(c: Client)
      modifies this
      ensures Val() == AddClient(old(Val()), c)
      decreases c, 2
    {
      clients := clients + [c];
      if attached && state == READY {
        CallConnected(|clients| - 1);
      }
    }

    /** The loop over the entries present when the connection becomes ready. */
    method ConnectionReady()
      modifies this
      ensures Val() == TellFrom(old(Val()), 0, |old(clients)|)
    {
      var n := |clients|;
      var i := 0;
      while i < n
        invariant i <= n <= |clients|
        invariant TellFrom(Val(), i, n) == TellFrom(old(Val()), 0, n)
      {
        CallConnected(i);
        i := i + 1;
      }
    }

    // Subscriptions

    method GetSubscription(sid: nat) returns (k: nat)
      ensures k == Find(subs, sid)
    {
      k := 0;
      while k < |subs|
        invariant k <= |subs|
        invariant FindFrom(subs, sid, k) == FindFrom(subs, sid, 0)
      {
        if subs[k].sid == sid {
          return;
        }
        k := k + 1;
      }
    }

    method AddSubscription(s: Sub)
      modifies this`subs
      ensures subs == Add(old(subs), s)
    {
      var i := 0;
      while i < |subs|
        invariant i <= |subs| && subs == old(subs)
        invariant FindFrom(subs, 0, i) == FindFrom(subs, 0, 0)
      {
        if subs[i].sid == 0 {
          subs := subs[i := s];
          return;
        }
        i := i + 1;
      }
      subs := subs + [s];
    }

    method RemoveSubscription(sid: nat) returns (removed: nat)
      modifies this`subs
      ensures subs == Remove(old(subs), sid)
      ensures removed == if sid == 0 || Find(old(subs), sid) < |old(subs)| then sid else 0
    {
      if sid == 0 {
        return sid;
      }
      var i := 0;
      while i < |subs|
        invariant i <= |subs| && subs == old(subs)
        invariant FindFrom(subs, sid, i) == FindFrom(subs, sid, 0)
      {
        if subs[i].sid == sid {
          subs := subs[i := subs[i].(sid := 0)];
          return sid;
        }
        i := i + 1;
      }
      return 0;
    }

    method ProcessMsg(c: Content)
      requires c.Message?
      modifies this
      ensures Val() == Deliver(old(Val()), c)
    {
      var k := GetSubscription(c.sid);
      if k == |subs| {
        return;
      }
      var s := subs[k];
      if s.max > 0 {
        subs := subs[k := s.(recv := s.recv + 1)];
        if s.recv + 1 >= s.max {
          var _ := RemoveSubscription(s.sid);
        }
      }
      log := log + [Received(s.client, s.handler, c.sid, c.subject, c.replyto, c.payload)];
      delivered := delivered + [c.sid];
    }

    // Frames

    /** The INFO text: an object, whose known fields are taken over one by one. */
    method ProcessInfo(text: bytes) returns (ok: bool)
      modifies this`server
      ensures (server, ok) == ReadInfo(old(server), text, strtod)
    {
      hide InfoField;
      var r := JsonReader.ReadJson(text, strtod);
      if r.Fail? || !r.v.Obj? {
        return false;
      }
      var fs := r.v.fs;
      var i := 0;
      assert fs[0..] == fs;
      while i < |fs|
        invariant i <= |fs|
        invariant InfoFields(server, fs[i..]) == InfoFields(old(server), fs)
      {
        assert fs[i..][0] == fs[i] && fs[i..][1..] == fs[i + 1..];
        var s := InfoField(server, fs[i]);
        if s.None? {
          return false;
        }
        server := s.value;
        i := i + 1;
      }
      return true;
    }

    method HandleFrame(c: Content) returns (ok: bool)
      modifies this
      ensures (Val(), ok) == Handle(old(Val()), c, strtod)
    {
      hide ReadInfo, Deliver, TellFrom;
      match c
      case Ok => ok := true;
      case Err(_) => ok := !(state & CONNECT_SENT != 0 && state & CONNECT_OKAYED == 0);
      case Ping =>
        queued := queued + [PongReply];
        ok := true;
      case Pong =>
        if state & CONNECT_OKAYED == 0 {
          state := READY;
          ConnectionReady();
        }
        ok := true;
      case Info(text) => ok := ProcessInfo(text);
      case Message(_, _, _, _) =>
        ProcessMsg(c);
        ok := true;
    }

    // Calls of clients

    method PublishM(subject: bytes, replyto: Option<bytes>, data: bytes, len: nat) returns (r: Reply)
      requires len <= |data| && (len == 0 ==> NUL in data)
      modifies this`queued
      ensures (Val(), r) == PublishCall(old(Val()), subject, replyto, data, len)
    {
      if !attached || state != READY {
        return NotConnected;
      }
      if |subject| + (if replyto.Some? then |replyto.value| else 0) > SUBJECT_LIMIT {
        return Declined;
      }
      queued := queued + [Publish(Cut(PubLine(subject, replyto, len), HEADER_SIZE), Buffer.Sized(data, len))];
      return Fine;
    }

    method SubscribeM(client: nat, handler: nat, subject: bytes, max: int) returns (r: Reply)
      modifies this
      ensures (Val(), r) == SubscribeCall(old(Val()), client, handler, subject, max)
    {
      if !attached || state != READY {
        return NotConnected;
      }
      nextId := nextId + 1;
      var sid := nextId;
      AddSubscription(Sub(sid, client, handler, max, 0));
      issued := issued + [max];
      queued := queued + [Subscribe(Cut(SubLine(subject, sid), HEADER_SIZE))];
      if max > 0 {
        queued := queued + [Unsubscribe(Cut(UnsubLine(sid, Some(max)), HEADER_SIZE))];
      }
      return Sid(sid);
    }

    method UnsubscribeM(sid: nat) returns (r: Reply)
      modifies this
      ensures (Val(), r) == UnsubscribeCall(old(Val()), sid)
    {
      if sid == 0 {
        return Declined;
      }
      if !attached || state != READY {
        return NotConnected;
      }
      var removed := RemoveSubscription(sid);
      if removed == 0 {
        return Declined;
      }
      queued := queued + [Unsubscribe(Cut(UnsubLine(sid, None), HEADER_SIZE))];
      return Fine;
    }

    /** The session part of closing a connection. */
    method CloseSession()
      modifies this
      ensures Val() == Closed(old(Val()))
    {
      if state & BYTES_EXCHANGED != 0 && state == READY {
        var i := 0;
        while i < |clients|
          invariant i <= |clients|
          invariant Val() == old(Val()).(log := old(log) + DisconnectedNotes(i))
        {
          log := log + [Disconnected(i)];
          assert DisconnectedNotes(i + 1) == DisconnectedNotes(i) + [Disconnected(i)];
          i := i + 1;
        }
      }
      subs, nextId, attached := [], 0, false;
      issued, delivered := [], [];
    }
  }
}
