/** What one connection does: the handshake, the commands queued, the clients told, the messages delivered. */
module Session {
  import opened Bytes
  import opened WireContent
  import Json
  import JsonPrinter
  import opened Subscriptions
  import Buffer

  // Bits of the connection state
  const BYTES_EXCHANGED: bv8 := 0x01
  const CONNECT_SENT: bv8 := 0x02
  const CONNECT_OKAYED: bv8 := 0x04
  const READY: bv8 := 0x0f

  predicate Has(state: bv8, bit: bv8) { state & bit != 0 }

  /** What the server said of itself in INFO. */
  datatype Server = Server(
    id: bytes, host: bytes, port: int, version: bytes, go: bytes,
    maxPayload: int, authRequired: bool, sslRequired: bool)

  const UNKNOWN_SERVER := Server([], [], 0, [], [], 0, false, false)

  /** A command put into the write buffer. */
  datatype Command =
    | Connect
    | PongReply
    | Publish(header: bytes, payload: bytes)
    | Subscribe(line: bytes)
    | Unsubscribe(line: bytes) {

    /** Only the handshake and the answer to a PING may be queued before the server has answered. */
    predicate NeedsReady() { !Connect? && !PongReply? }

    /** It has bytes to send. */
    predicate HasText() { (Subscribe? ==> line != []) && (Unsubscribe? ==> line != []) }
  }

  /** A client, with the clients its `connected` callback registers when called. */
  datatype Client = Client(id: nat, adds: seq<Client>)

  /** What the outside sees, in order: callbacks by client entry, and messages by handler. */
  datatype Note =
    | Connected(entry: nat)
    | Disconnected(entry: nat)
    | Received(client: nat, handler: nat, sid: nat, subject: bytes, replyto: bytes, payload: bytes)

  /**
   * attached: a connection structure is in place. History: told are the entries told by this connection,
   * issued the maximum each sid was subscribed with, delivered the sid of every delivery since the last close.
   */
  datatype Sess = Sess(
    attached: bool,
    state: bv8,
    server: Server,
    queued: seq<Command>,
    clients: seq<Client>,
    subs: seq<Sub>,
    nextId: nat,
    log: seq<Note>,
    told: seq<nat>,
    issued: seq<int>,
    delivered: seq<nat>) {

    predicate IsReady() { attached && state == READY }
  }

  /** A new connection structure: all zero. */
  function Fresh(h: Sess): Sess {
    h.(attached := true, state := 0, server := UNKNOWN_SERVER, queued := [], told := [])
  }

  function Queue(h: Sess, c: Command): Sess {
    h.(queued := h.queued + [c])
  }

  /** The first bytes in either direction. */
  function Exchanged(h: Sess): Sess {
    h.(state := h.state | BYTES_EXCHANGED)
  }

  /** CONNECT and PING are queued once. */
  function ConnectionInit(h: Sess): Sess {
    if Has(h.state, CONNECT_SENT) then h
    else Queue(h.(state := h.state | CONNECT_SENT), Connect)
  }

  // Clients

  /** Notifying and registering touches nothing else, and entries keep their places. */
  ghost predicate OnlyNotifies(h: Sess, r: Sess) {
    && h.clients <= r.clients && h.told <= r.told && h.log <= r.log
    && r == h.(clients := r.clients, told := r.told, log := r.log)
  }

  /** Calls `connected` of entry k, which may register further clients. */
  function Tell(h: Sess, k: nat): (r: Sess)
    requires k < |h.clients|
    ensures OnlyNotifies(h, r)
    decreases h.clients[k], 1
  {
    AddAll(h.(log := h.log + [Connected(k)], told := h.told + [k]), h.clients[k].adds)
  }

  /** Registers a client; told at once on a ready connection. */
  function AddClient(h: Sess, c: Client): (r: Sess)
    ensures OnlyNotifies(h, r)
    decreases c, 2
  {
    var h1 := h.(clients := h.clients + [c]);
    if h1.IsReady() then Tell(h1, |h.clients|) else h1
  }

  function AddAll(h: Sess, cs: seq<Client>): (r: Sess)
    ensures OnlyNotifies(h, r)
    decreases cs, 0
  {
    if cs == [] then h else AddAll(AddClient(h, cs[0]), cs[1..])
  }

  /** The loop over the n entries present when the connection became ready. */
  function TellFrom(h: Sess, i: nat, n: nat): (r: Sess)
    requires i <= n <= |h.clients|
    ensures OnlyNotifies(h, r)
    decreases n - i
  {
    if i == n then h else TellFrom(Tell(h, i), i + 1, n)
  }

  // Frames

  const NAME_SERVER_ID: bytes := [115, 101, 114, 118, 101, 114, 95, 105, 100]
  const NAME_HOST: bytes := [104, 111, 115, 116]
  const NAME_PORT: bytes := [112, 111, 114, 116]
  const NAME_VERSION: bytes := [118, 101, 114, 115, 105, 111, 110]
  const NAME_AUTH: bytes := [97, 117, 116, 104, 95, 114, 101, 113, 117, 105, 114, 101, 100]
  const NAME_SSL: bytes := [115, 115, 108, 95, 114, 101, 113, 117, 105, 114, 101, 100]
  const NAME_MAX_PAYLOAD: bytes := [109, 97, 120, 95, 112, 97, 121, 108, 111, 97, 100]
  const NAME_GO: bytes := [103, 111]

  /** One field of the INFO object; None when a known field has the wrong type. */
  function InfoField(srv: Server, f: Json.Field): Option<Server> {
    var name := JsonPrinter.CString(f.name);
    var v := f.value;
    if SameFold(name, NAME_SERVER_ID) then if v.Str? then Some(srv.(id := v.s)) else None
    else if SameFold(name, NAME_HOST) then if v.Str? then Some(srv.(host := v.s)) else None
    else if SameFold(name, NAME_PORT) then if v.Int? then Some(srv.(port := v.i)) else None
    else if SameFold(name, NAME_VERSION) then if v.Str? then Some(srv.(version := v.s)) else None
    else if SameFold(name, NAME_AUTH) then if v.Bool? then Some(srv.(authRequired := v.flag != 0)) else None
    else if SameFold(name, NAME_SSL) then if v.Bool? then Some(srv.(sslRequired := v.flag != 0)) else None
    else if SameFold(name, NAME_MAX_PAYLOAD) then if v.Int? then Some(srv.(maxPayload := v.i)) else None
    else if SameFold(name, NAME_GO) then if v.Str? then Some(srv.(go := v.s)) else None
    else Some(srv)
  }

  /** The fields in order, a later one overriding an earlier one; what was set before a wrong one stays set. */
  function InfoFields(srv: Server, fs: seq<Json.Field>): (Server, bool)
    decreases |fs|
  {
    if fs == [] then (srv, true)
    else
      match InfoField(srv, fs[0])
      case None => (srv, false)
      case Some(s) => InfoFields(s, fs[1..])
  }

  function ReadInfo(srv: Server, text: bytes, strtod: bytes -> bool): (Server, bool) {
    match Json.Parse(text, strtod)
    case Fail(_) => (srv, false)
    case Done(v, _) => if v.Obj? then InfoFields(srv, v.fs) else (srv, false)
  }

  /** A message: counted against its subscription, then handed over. */
  function Deliver(h: Sess, c: Content): Sess
    requires c.Message?
  {
    var k := Find(h.subs, c.sid);
    if k == |h.subs| then h
    else
      var s := h.subs[k];
      h.(subs := Account(h.subs, k),
         log := h.log + [Received(s.client, s.handler, c.sid, c.subject, c.replyto, c.payload)],
         delivered := h.delivered + [c.sid])
  }

  /** The connection becomes ready at the first PONG. */
  function HandlePong(h: Sess): Sess {
    if Has(h.state, CONNECT_OKAYED) then h
    else
      var h1 := h.(state := READY);
      TellFrom(h1, 0, |h1.clients|)
  }

  /** The server refuses the handshake: an error between CONNECT and its answer. */
  predicate Refuses(h: Sess) { Has(h.state, CONNECT_SENT) && !Has(h.state, CONNECT_OKAYED) }

  /** One recognised frame; false when the connection must be closed. */
  function Handle(h: Sess, c: Content, strtod: bytes -> bool): (Sess, bool) {
    match c
    case Ok => (h, true)
    case Err(_) => (h, !Refuses(h))
    case Ping => (Queue(h, PongReply), true)
    case Pong => (HandlePong(h), true)
    case Info(text) =>
      var (srv, ok) := ReadInfo(h.server, text, strtod);
      (h.(server := srv), ok)
    case Message(_, _, _, _) => (Deliver(h, c), true)
  }

  // Closing

  /** Entries 0..n-1 are told they are disconnected. */
  function DisconnectedNotes(n: nat): seq<Note> {
    seq(n, i requires 0 <= i < n => Disconnected(i))
  }

  /** The bookkeeping of a close; the dead connection keeps its state. */
  function Closed(h: Sess): Sess {
    var tell := Has(h.state, BYTES_EXCHANGED) && h.state == READY;
    var log := if tell then h.log + DisconnectedNotes(|h.clients|) else h.log;
    h.(attached := false, subs := [], nextId := 0, log := log, issued := [], delivered := [])
  }

  // Calls of clients

  const HEADER_SIZE: nat := 576
  const SUBJECT_LIMIT: nat := 512
  const TEXT_PUB: bytes := [80, 85, 66, 32]                  // "PUB "
  const TEXT_SUB: bytes := [83, 85, 66, 32]                  // "SUB "
  const TEXT_UNSUB: bytes := [85, 78, 83, 85, 66, 32]        // "UNSUB "

  /** A line formatted into a buffer of `size` bytes. */
  function Cut(t: bytes, size: nat): bytes {
    if |t| <= size then t else t[..size]
  }

  function PubLine(subject: bytes, replyto: Option<bytes>, len: nat): bytes {
    TEXT_PUB + subject + [SP] + (if replyto.Some? then replyto.value + [SP] else []) + Decimal(len) + CRLF
  }

  function SubLine(subject: bytes, sid: nat): bytes {
    TEXT_SUB + subject + [SP] + Decimal(sid) + CRLF
  }

  function UnsubLine(sid: nat, max: Option<nat>): bytes {
    TEXT_UNSUB + Decimal(sid) + (if max.Some? then [SP] + Decimal(max.value) else []) + CRLF
  }

  datatype Reply = Sid(sid: nat) | Fine | NotConnected | Declined

  /** Publishing; a length of 0 makes the buffer take `data` as a C string. */
  function PublishCall(h: Sess, subject: bytes, replyto: Option<bytes>, data: bytes, len: nat): (Sess, Reply)
    requires len <= |data|
  {
    if !h.IsReady() then (h, NotConnected)
    else if |subject| + (if replyto.Some? then |replyto.value| else 0) > SUBJECT_LIMIT then (h, Declined)
    else (Queue(h, Publish(Cut(PubLine(subject, replyto, len), HEADER_SIZE), Buffer.Sized(data, len))), Fine)
  }

  function SubscribeCall(h: Sess, client: nat, handler: nat, subject: bytes, max: int): (Sess, Reply) {
    if !h.IsReady() then (h, NotConnected)
    else
      var sid := h.nextId + 1;
      var h1 := h.(nextId := sid, subs := Add(h.subs, Sub(sid, client, handler, max, 0)), issued := h.issued + [max]);
      var h2 := Queue(h1, Subscribe(Cut(SubLine(subject, sid), HEADER_SIZE)));
      (if max > 0 then Queue(h2, Unsubscribe(Cut(UnsubLine(sid, Some(max)), HEADER_SIZE))) else h2, Sid(sid))
  }

  function UnsubscribeCall(h: Sess, sid: nat): (Sess, Reply) {
    if sid == 0 then (h, Declined)
    else if !h.IsReady() then (h, NotConnected)
    else if Find(h.subs, sid) == |h.subs| then (h, Declined)
    else (Queue(h.(subs := Remove(h.subs, sid)), Unsubscribe(Cut(UnsubLine(sid, None), HEADER_SIZE))), Fine)
  }
}
