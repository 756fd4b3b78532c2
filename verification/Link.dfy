/** Connecting, losing and reconnecting: which servers are tried in which order, and when the client waits. */
module Link {
  import opened Bytes
  import Wire
  import opened Session
  import opened Stream
  import opened ReadLimits
  import Buffer

  /** Why a connection is closed; only the lost connection is told apart. */
  datatype Reason = Lost | OtherReason

  /** What a send does: takes bytes (all of them or not), fails, would block, or takes none. */
  datatype Send =
    | Took(all: bool, eventOk: bool)
    | SendFails
    | Blocks(eventOk: bool)
    | TookNone

  /** What a connection attempt does: fails at once, is pending, or succeeds at once and a first send follows. */
  datatype Attempt = Fails | Pending | Immediate(send: Send)

  /** The outcomes of attempts, by server; a server is attempted at most once before control returns. */
  type Oracle = nat -> Attempt

  /**
   * n servers; curr is the server of the current round, -1 outside one; timer: the reconnect timer is armed;
   * open: a socket is connected or connecting; unsent: the write buffer is not empty; window: received bytes
   * that are not a whole frame yet; cap: the capacity of the read buffer; tries: the servers attempted so far.
   */
  datatype Nd = Nd(
    n: nat, curr: int, timer: bool, open: bool, unsent: bool, window: bytes, cap: nat, sess: Sess, tries: seq<nat>) {

    ghost predicate Valid() { n > 0 && -1 <= curr < n && cap > 0 }

    /** Attempts left in this round, plus one for its end. */
    ghost function Left(): nat
      requires Valid()
    {
      n - curr
    }
  }

  /** An armed timer stays armed; arming it ends the round. */
  function AddReconnectTimer(nd: Nd): Nd {
    if nd.timer then nd else nd.(curr := -1, timer := true)
  }

  /** The next server of the round: 0 after -1; n when the round has come back to its start. */
  function NextServer(nd: Nd): nat
    requires nd.Valid()
  {
    nd.curr + 1
  }

  /** The structures of a new connection to server k. */
  function Begin(nd: Nd, k: nat): Nd {
    nd.(curr := k, open := false, unsent := false, window := [], sess := Fresh(nd.sess), tries := nd.tries + [k])
  }

  /** The attempts of a round until one gives a connection or all have failed. */
  function ConnectRound(nd: Nd, o: Oracle): (r: Nd)
    requires nd.Valid()
    ensures r.Valid() && r.n == nd.n
    decreases nd.Left(), 0
  {
    var k := NextServer(nd);
    if k == nd.n then AddReconnectTimer(nd.(curr := 0))
    else
      var b := Begin(nd, k);
      match o(k)
      case Fails => ConnectRound(b, o)
      case Pending => b.(open := true)
      case Immediate(s) => Flush(b.(open := true, unsent := true, sess := ConnectionInit(b.sess)), s, o)
  }

  function ProcessReconnect(nd: Nd, o: Oracle): (r: Nd)
    requires nd.Valid()
    ensures r.Valid() && r.n == nd.n
    decreases nd.Left(), 1
  {
    ConnectRound(nd.(timer := false), o)
  }

  /** Closing: at once a new attempt when the connection was lost or never carried a byte, else the timer. */
  function Close(nd: Nd, reason: Reason, o: Oracle): (r: Nd)
    requires nd.Valid()
    ensures r.Valid() && r.n == nd.n
    decreases nd.Left(), 2
  {
    var c := nd.(open := false, unsent := false, window := [], sess := Closed(nd.sess));
    if reason == Lost || !Has(nd.sess.state, BYTES_EXCHANGED) then ProcessReconnect(c, o)
    else AddReconnectTimer(c)
  }

  /** Sending what is queued. */
  function Flush(nd: Nd, s: Send, o: Oracle): (r: Nd)
    requires nd.Valid()
    ensures r.Valid() && r.n == nd.n
    decreases nd.Left(), 3
  {
    if !nd.unsent then nd
    else
      match s
      case Took(all, eventOk) =>
        var t := nd.(sess := Exchanged(nd.sess), unsent := !all);
        if all && !eventOk then Close(t, OtherReason, o) else t
      case SendFails => Close(nd, Lost, o)
      case Blocks(eventOk) => if eventOk then nd else Close(nd, OtherReason, o)
      case TookNone => nd
  }

  // Events

  /** How a read event ends once the bytes at hand are read: nothing more for now, or the peer has gone. */
  datatype ReadEnd = NoMore(eventOk: bool) | PeerGone

  /** alloc(n): whether an allocation of n bytes succeeds while these bytes are read. */
  datatype Read = ReadTimedOut | ConnectTestFails | Got(stream: bytes, alloc: nat -> bool, end: ReadEnd)

  datatype Event =
    | TimerFires
    | Writable(timedOut: bool)
    | Readable(read: Read)
    | Registers(registered: Client)
    | Publishes(subject: bytes, replyto: Option<bytes>, data: bytes, len: nat)
    | Subscribes(client: nat, handler: nat, subject: bytes, max: int)
    | Unsubscribes(sid: nat)

  /**
   * The timer can fire when armed; the socket can become readable or writable when there is one; data published
   * with length 0 must be a C string.
   */
  predicate Enabled(nd: Nd, e: Event) {
    match e
    case TimerFires => nd.timer
    case Writable(_) => nd.open
    case Readable(_) => nd.open
    case Publishes(_, _, data, len) => len <= |data| && (len == 0 ==> NUL in data)
    case _ => true
  }

  /** The event does not make the parser compute a number that is not one of ngx_int_t, to which C gives no meaning. */
  predicate Defined(nd: Nd, e: Event, strtod: bytes -> bool)
    requires nd.Valid()
  {
    e.Readable? && e.read.Got? ==> Arrived(nd, e.read.stream, e.read.alloc, strtod).d.stop != Faulty(Wire.Overflow)
  }

  /** A session step that may have queued something. */
  function WithSession(nd: Nd, h: Sess): Nd {
    nd.(sess := h, unsent := nd.unsent || |h.queued| > |nd.sess.queued|)
  }

  /** A client call: the buffer is flushed when something was queued. */
  function Called(nd: Nd, h: Sess, s: Send, o: Oracle): (r: Nd)
    requires nd.Valid()
    ensures r.Valid() && r.n == nd.n
  {
    var c := WithSession(nd, h);
    if |h.queued| > |nd.sess.queued| then Flush(c, s, o) else c
  }

  /** The read loop gives up: the processor has closed the connection, then the loop closes it again. */
  function GiveUp(nd: Nd, o: Oracle): (r: Nd)
    requires nd.Valid()
    ensures r.Valid() && r.n == nd.n
  {
    Close(Close(nd, OtherReason, o), OtherReason, o)
  }

  /** The end of a read event after everything at hand was processed. */
  function ReadDone(nd: Nd, before: nat, end: ReadEnd, s: Send, o: Oracle): (r: Nd)
    requires nd.Valid()
    ensures r.Valid() && r.n == nd.n
  {
    match end
    case PeerGone => Close(nd, Lost, o)
    case NoMore(eventOk) =>
      if !eventOk then Close(nd, OtherReason, o)
      else if |nd.sess.queued| > before then Flush(nd, s, o)
      else nd
  }

  /** What the bytes of a read event are loaded as, behind those already waiting. */
  function Arrived(nd: Nd, stream: bytes, alloc: nat -> bool, strtod: bytes -> bool): (l: Loaded)
    requires nd.Valid()
    ensures l.cap >= nd.cap
  {
    Load(if stream == [] then nd.sess else Exchanged(nd.sess), nd.cap, nd.window + stream, alloc, strtod)
  }

  function ReadEvent(nd: Nd, r: Read, s: Send, o: Oracle, strtod: bytes -> bool): (x: Nd)
    requires nd.Valid()
    ensures x.Valid() && x.n == nd.n
  {
    match r
    case ReadTimedOut => Close(nd, OtherReason, o)
    case ConnectTestFails => Close(nd, OtherReason, o)
    case Got(stream, alloc, end) =>
      var l := Arrived(nd, stream, alloc, strtod);
      var m := WithSession(nd, l.d.h).(window := l.d.rest, cap := l.cap);
      if l.full || !l.d.stop.Waiting? then GiveUp(m, o) else ReadDone(m, |nd.sess.queued|, end, s, o)
  }

  /** One event; s and o give the outcomes of the send and of the attempts it may lead to. */
  function Step(nd: Nd, e: Event, s: Send, o: Oracle, strtod: bytes -> bool): (r: Nd)
    requires nd.Valid() && Enabled(nd, e)
    ensures r.Valid() && r.n == nd.n
  {
    match e
    case TimerFires => ProcessReconnect(nd, o)
    case Writable(timedOut) =>
      if timedOut then Close(nd, OtherReason, o)
      else Flush(WithSession(nd, ConnectionInit(nd.sess)), s, o)
    case Readable(r) => ReadEvent(nd, r, s, o, strtod)
    case Registers(c) => WithSession(nd, AddClient(nd.sess, c))
    case Publishes(subject, replyto, data, len) =>
      Called(nd, PublishCall(nd.sess, subject, replyto, data, len).0, s, o)
    case Subscribes(client, handler, subject, max) =>
      Called(nd, SubscribeCall(nd.sess, client, handler, subject, max).0, s, o)
    case Unsubscribes(sid) => Called(nd, UnsubscribeCall(nd.sess, sid).0, s, o)
  }

  /** The state before the first connection: no round, no timer, nobody registered. */
  function Start(n: nat): Nd {
    var sess := Sess(false, 0, UNKNOWN_SERVER, [], [], [], 0, [], [], [], []);
    Nd(n, -1, false, false, false, [], Buffer.INIT_SIZE, sess, [])
  }

  /** Worker start: the first round. */
  function Init(n: nat, o: Oracle): (r: Nd)
    requires n > 0
    ensures r.Valid() && r.n == n
  {
    ConnectRound(Start(n), o)
  }
}
