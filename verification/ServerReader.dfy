/**
 * A server at the other end of the socket: it reads control lines and the payloads they announce. What it makes of the
 * bytes a client queues are the client's calls.
 */
module ServerReader {
  import opened Bytes
  import opened Session
  import opened Commands
  import Lines
  import Stream
  import Link
  import Output
  import WireContent
  import B = Buffer

  /** What a server understands. */
  datatype Order =
    | Hello(text: bytes)
    | AskPong
    | GivePong
    | Pub(subject: bytes, replyto: Option<bytes>, payload: bytes)
    | Sub(subject: bytes, sid: nat)
    | Unsub(sid: nat, max: Option<nat>)

  /** A word as a number. */
  function Number(w: bytes): Option<nat> {
    if w != [] && (forall i :: 0 <= i < |w| ==> 48 <= w[i] <= 57) && AllDigits(w) then Some(DecimalValue(w)) else None
  }

  /** An order that is complete in its control line; "CONNECT " keeps the rest of its line as it is. */
  function LineOrder(line: bytes): Option<Order> {
    if |line| >= 8 && line[..8] == [67, 79, 78, 78, 69, 67, 84, 32] then Some(Hello(line[8..]))
    else
      var ws := Words(line);
      if ws == [[80, 73, 78, 71]] then Some(AskPong)
      else if ws == [[80, 79, 78, 71]] then Some(GivePong)
      else if |ws| == 3 && ws[0] == [83, 85, 66] && Number(ws[2]).Some? then Some(Sub(ws[1], Number(ws[2]).value))
      else if |ws| == 2 && ws[0] == [85, 78, 83, 85, 66] && Number(ws[1]).Some? then
        Some(Unsub(Number(ws[1]).value, None))
      else if |ws| == 3 && ws[0] == [85, 78, 83, 85, 66] && Number(ws[1]).Some? && Number(ws[2]).Some? then
        Some(Unsub(Number(ws[1]).value, Some(Number(ws[2]).value)))
      else None
  }

  /** Subject, reply-to and announced length of a PUB. */
  function PubHead(line: bytes): Option<(bytes, Option<bytes>, nat)> {
    var ws := Words(line);
    if |ws| == 3 && ws[0] == [80, 85, 66] && Number(ws[2]).Some? then Some((ws[1], None, Number(ws[2]).value))
    else if |ws| == 4 && ws[0] == [80, 85, 66] && Number(ws[3]).Some? then
      Some((ws[1], Some(ws[2]), Number(ws[3]).value))
    else None
  }

  /** The first order in the bytes and how many bytes it takes; None when it is not all there, or not an order. */
  function FirstOrder(w: bytes): (r: Option<(Order, nat)>)
    ensures r.Some? ==> 0 < r.value.1 <= |w|
  {
    var n := Scan(w, 0, IsEol);
    if n + 2 > |w| || w[n] != 13 || w[n + 1] != 10 then None
    else
      var line := w[..n];
      match PubHead(line)
      case Some((subject, replyto, len)) =>
        var b := n + 2;
        if b + len + 2 > |w| || w[b + len] != 13 || w[b + len + 1] != 10 then None
        else Some((Pub(subject, replyto, w[b..b + len]), b + len + 2))
      case None =>
        match LineOrder(line)
        case Some(x) => Some((x, n + 2))
        case None => None
  }

  /** The orders in the bytes, one after the other. */
  function Orders(w: bytes): seq<Order>
    decreases |w|
  {
    match FirstOrder(w)
    case None => []
    case Some((x, n)) => [x] + Orders(w[n..])
  }

  // Control lines

  /** A line without a line end in it, and what follows its CR LF. */
  lemma LineFound(line: bytes, rest: bytes)
    requires NoEol(line)
    ensures var w := line + CRLF + rest;
            && Scan(w, 0, IsEol) == |line| && w[..|line|] == line
            && |line| + 2 <= |w| && w[|line|] == 13 && w[|line| + 1] == 10
    ensures (line + CRLF + rest)[|line| + 2..] == rest
  {
    var w := line + CRLF + rest;
    assert forall i :: 0 <= i < |line| ==> w[i] == line[i];
    ScanIs(w, 0, IsEol, |line|);
  }

  lemma NumberOf(n: nat)
    ensures Number(Decimal(n)) == Some(n)
  {
    var t := Decimal(n);
    assert forall i :: 0 <= i < |t| ==> IsDigit(t[i]);
  }

  /** A line that reads as these words, taken apart. */
  lemma ReadsApart(line: bytes, ws: seq<bytes>)
    requires ReadsAs(line, ws)
    ensures |line| >= 2
    ensures var t := line[..|line| - 2]; line == t + CRLF && NoEol(t) && Words(t) == ws
  {
    var n := |line| - 2;
    var t := line[..n];
    assert forall i :: 0 <= i < n ==> t[i] == line[i];
  }

  lemma OrderOfLine(t: bytes, rest: bytes, x: Order)
    requires NoEol(t) && PubHead(t).None? && LineOrder(t) == Some(x)
    ensures FirstOrder(t + CRLF + rest) == Some((x, |t| + 2)) && (t + CRLF + rest)[|t| + 2..] == rest
  {
    hide PubHead, LineOrder, Scan;
    LineFound(t, rest);
  }

  lemma OrderOfPub(t: bytes, payload: bytes, rest: bytes, subject: bytes, replyto: Option<bytes>)
    requires NoEol(t) && PubHead(t) == Some((subject, replyto, |payload|))
    ensures var w := t + CRLF + payload + CRLF + rest;
            var n := |t| + 2 + |payload| + 2;
            FirstOrder(w) == Some((Pub(subject, replyto, payload), n)) && w[n..] == rest
  {
    hide PubHead, LineOrder, Scan;
    var w := t + CRLF + payload + CRLF + rest;
    assert w == t + CRLF + (payload + CRLF + rest);
    LineFound(t, payload + CRLF + rest);
    var b := |t| + 2;
    assert w[b..] == payload + CRLF + rest;
    assert w[b..b + |payload|] == w[b..][..|payload|] == payload;
    assert w[b + |payload|] == w[b..][|payload|] == 13 && w[b + |payload| + 1] == w[b..][|payload| + 1] == 10;
    assert w[b + |payload| + 2..] == w[b..][|payload| + 2..] == rest;
  }

  // Commands

  /** These orders are what this command asks for. */
  ghost predicate Means(c: Command, xs: seq<Order>, g: Output.Login) {
    match c
    case Connect =>
      && NoEol(g.user) && NoEol(g.password) && |g.user| + |g.password| <= 512
      && xs == [Hello(Lines.ConnectLine(g.user, g.password)[8..]), AskPong]
    case PongReply => xs == [GivePong]
    case Publish(header, payload) =>
      && |xs| == 1 && xs[0].Pub? && xs[0].payload == payload
      && Word(xs[0].subject) && (xs[0].replyto.Some? ==> Word(xs[0].replyto.value))
      && header == PubLine(xs[0].subject, xs[0].replyto, |payload|)
    case Subscribe(line) => |xs| == 1 && xs[0].Sub? && Word(xs[0].subject) && line == SubLine(xs[0].subject, xs[0].sid)
    case Unsubscribe(line) => |xs| == 1 && xs[0].Unsub? && line == UnsubLine(xs[0].sid, xs[0].max)
  }

  lemma OrdersStep(w: bytes, x: Order, n: nat)
    requires FirstOrder(w) == Some((x, n))
    ensures n <= |w| && Orders(w) == [x] + Orders(w[n..])
  {
    hide FirstOrder;
  }

  /** A line order, and the bytes behind its line. */
  lemma LineRead(t: bytes, rest: bytes, x: Order)
    requires NoEol(t) && PubHead(t).None? && LineOrder(t) == Some(x)
    ensures Orders(t + CRLF + rest) == [x] + Orders(rest)
  {
    OrderOfLine(t, rest, x);
    OrdersStep(t + CRLF + rest, x, |t| + 2);
    hide FirstOrder, Orders, PubHead, LineOrder;
  }

  lemma PongRead(rest: bytes)
    ensures Orders([80, 79, 78, 71] + CRLF + rest) == [GivePong] + Orders(rest)
  {
    var t: bytes := [80, 79, 78, 71];
    OneWord(t);
    assert PubHead(t).None? && LineOrder(t) == Some(GivePong);
    LineRead(t, rest, GivePong);
  }

  lemma PingRead(rest: bytes)
    ensures Orders([80, 73, 78, 71] + CRLF + rest) == [AskPong] + Orders(rest)
  {
    var t: bytes := [80, 73, 78, 71];
    OneWord(t);
    assert PubHead(t).None? && LineOrder(t) == Some(AskPong);
    LineRead(t, rest, AskPong);
  }

  lemma HelloLine(t: bytes)
    requires |t| >= 8 && t[..8] == [67, 79, 78, 78, 69, 67, 84, 32]
    ensures PubHead(t).None? && LineOrder(t) == Some(Hello(t[8..]))
  {
    var w: bytes := [67, 79, 78, 78, 69, 67, 84];
    assert t == t[..8] + t[8..] == w + [SP] + t[8..];
    assert Solid(w);
    FirstWord(w, t[8..]);
    assert Words(t)[0] == w;
  }

  lemma ConnectRead(g: Output.Login, rest: bytes)
    requires NoEol(g.user) && NoEol(g.password)
    ensures var line := Lines.ConnectLine(g.user, g.password);
            && |line| >= 8
            && Orders(Lines.ConnectText(g.user, g.password) + rest) == [Hello(line[8..]), AskPong] + Orders(rest)
  {
    var line, text := Lines.ConnectLine(g.user, g.password), Lines.ConnectText(g.user, g.password);
    Lines.ConnectIsLine(g.user, g.password);
    Lines.ConnectLineStart(g.user, g.password);
    Lines.ConnectLineNoEol(g.user, g.password);
    HelloLine(line);
    hide Lines.ConnectLine, Lines.ConnectText, NoEol, PubHead, LineOrder, Orders;
    PingBehind(line, rest);
    LineRead(line, [80, 73, 78, 71] + CRLF + rest, Hello(line[8..]));
    PingRead(rest);
  }

  lemma PingBehind(line: bytes, rest: bytes)
    ensures line + Lines.PING_LINE + rest == line + CRLF + ([80, 73, 78, 71] + CRLF + rest)
  {
    assert Lines.PING_LINE == CRLF + [80, 73, 78, 71] + CRLF;
  }

  lemma PubHeadOf(t: bytes, subject: bytes, replyto: Option<bytes>, len: nat)
    requires Words(t) == PubWords(subject, replyto, len)
    ensures PubHead(t) == Some((subject, replyto, len))
  {
    NumberOf(len);
    hide Number, Words;
  }

  lemma PubRead(subject: bytes, replyto: Option<bytes>, payload: bytes, rest: bytes)
    requires Word(subject) && (replyto.Some? ==> Word(replyto.value))
    ensures Orders(PubLine(subject, replyto, |payload|) + payload + CRLF + rest) ==
            [Pub(subject, replyto, payload)] + Orders(rest)
  {
    var line := PubLine(subject, replyto, |payload|);
    PubReadsIff(subject, replyto, |payload|);
    hide PubLine, Word, Orders, FirstOrder, Words;
    ReadsApart(line, PubWords(subject, replyto, |payload|));
    var t := line[..|line| - 2];
    PubHeadOf(t, subject, replyto, |payload|);
    hide PubHead, NoEol, ReadsAs;
    PubLineRead(t, payload, rest, subject, replyto);
  }

  lemma PubLineRead(t: bytes, payload: bytes, rest: bytes, subject: bytes, replyto: Option<bytes>)
    requires NoEol(t) && PubHead(t) == Some((subject, replyto, |payload|))
    ensures Orders(t + CRLF + payload + CRLF + rest) == [Pub(subject, replyto, payload)] + Orders(rest)
  {
    hide PubHead, FirstOrder, Orders, NoEol;
    OrderOfPub(t, payload, rest, subject, replyto);
    OrdersStep(t + CRLF + payload + CRLF + rest, Pub(subject, replyto, payload), |t| + 2 + |payload| + 2);
  }

  lemma SubRead(subject: bytes, sid: nat, rest: bytes)
    requires Word(subject)
    ensures Orders(SubLine(subject, sid) + rest) == [Sub(subject, sid)] + Orders(rest)
  {
    var line := SubLine(subject, sid);
    SubReadsIff(subject, sid);
    NumberOf(sid);
    hide SubLine, Word, Orders, FirstOrder, Words, Number;
    ReadsApart(line, [WORD_SUB, subject, Decimal(sid)]);
    var t := line[..|line| - 2];
    NotConnect(t, WORD_SUB);
    LineRead(t, rest, Sub(subject, sid));
  }

  lemma UnsubRead(sid: nat, max: Option<nat>, rest: bytes)
    ensures Orders(UnsubLine(sid, max) + rest) == [Unsub(sid, max)] + Orders(rest)
  {
    var line := UnsubLine(sid, max);
    UnsubReads(sid, max);
    NumberOf(sid);
    if max.Some? {
      NumberOf(max.value);
    }
    hide UnsubLine, Orders, FirstOrder, Words, Number;
    ReadsApart(line, UnsubWords(sid, max));
    var t := line[..|line| - 2];
    NotConnect(t, WORD_UNSUB);
    LineRead(t, rest, Unsub(sid, max));
  }

  /** A line whose first word is another one does not start with "CONNECT ". */
  lemma NotConnect(t: bytes, w: bytes)
    requires |Words(t)| > 0 && Words(t)[0] == w && w != [67, 79, 78, 78, 69, 67, 84]
    ensures !(|t| >= 8 && t[..8] == [67, 79, 78, 78, 69, 67, 84, 32])
  {
    if |t| >= 8 && t[..8] == [67, 79, 78, 78, 69, 67, 84, 32] {
      var c: bytes := [67, 79, 78, 78, 69, 67, 84];
      assert t == t[..8] + t[8..] == c + [SP] + t[8..];
      FirstWord(c, t[8..]);
    }
  }

  // What is rendered of each command

  lemma OneMessage(m: bytes)
    ensures Stream.Concat([m]) == m
  {
    var ms := [m];
    assert ms[1..] == [];
    assert m + [] == m;
  }

  lemma RenderedOne(c: Command, g: Output.Login)
    ensures Output.Rendered([c], g) == Stream.Concat(Output.Messages(c, g))
  {
    var cs := [c];
    assert cs[1..] == [] && Output.AllMessages([], g) == [];
    assert Output.Messages(c, g) + [] == Output.Messages(c, g);
  }

  /** The bytes of each command: the handshake, six bytes for a PONG, header before payload before CR LF, the lines. */
  lemma CommandBytes(c: Command, g: Output.Login)
    ensures Output.Rendered([c], g) ==
            match c
            case Connect => Cut(Lines.ConnectText(g.user, g.password), 640)
            case PongReply => [80, 79, 78, 71, 13, 10]
            case Publish(header, payload) => header + payload + [13, 10]
            case Subscribe(line) => line
            case Unsubscribe(line) => line
  {
    RenderedOne(c, g);
    match c
    case Connect =>
      OneMessage(Cut(Lines.ConnectText(g.user, g.password), 640));
      hide Lines.ConnectText;
    case PongReply => OneMessage([80, 79, 78, 71, 13, 10]);
    case Publish(header, payload) =>
      var ms: seq<bytes> := [header, payload, CRLF];
      assert ms[1..] == [payload, CRLF] && ms[1..][1..] == [CRLF];
      OneMessage(CRLF);
      assert header + (payload + CRLF) == header + payload + [13, 10];
    case Subscribe(line) => OneMessage(line);
    case Unsubscribe(line) => OneMessage(line);
  }

  lemma RenderedAdds(cs: seq<Command>, c: Command, g: Output.Login)
    ensures Output.Rendered(cs + [c], g) == Output.Rendered(cs, g) + Output.Rendered([c], g)
  {
    Output.RenderedSplit(cs, [c], g);
  }

  /** What a publish of positive length adds to the bytes of the connection. */
  lemma PublishAdds(h: Sess, subject: bytes, replyto: Option<bytes>, data: bytes, len: nat, g: Output.Login)
    requires h.IsReady() && 0 < len <= |data| && len < U64
    requires |subject| + (if replyto.Some? then |replyto.value| else 0) <= 512
    ensures Output.Rendered(PublishCall(h, subject, replyto, data, len).0.queued, g) ==
            Output.Rendered(h.queued, g) + (PubLine(subject, replyto, len) + data[..len] + [13, 10])
  {
    Lines.PubHeaderWhole(subject, replyto, len);
    var c := Publish(PubLine(subject, replyto, len), data[..len]);
    assert PublishCall(h, subject, replyto, data, len).0.queued == h.queued + [c];
    CommandBytes(c, g);
    RenderedAdds(h.queued, c, g);
    hide Output.Rendered, PubLine, Cut;
  }

  /** What a subscribe adds: its SUB line and, with a maximum, its UNSUB line. */
  lemma SubscribeAdds(h: Sess, client: nat, handler: nat, subject: bytes, max: int, g: Output.Login)
    requires h.IsReady() && h.nextId + 1 < U64 && max < U64 && |subject| + |Decimal(h.nextId + 1)| <= 569
    ensures Output.Rendered(SubscribeCall(h, client, handler, subject, max).0.queued, g) ==
            Output.Rendered(h.queued, g) + SubLine(subject, h.nextId + 1)
            + (if max > 0 then UnsubLine(h.nextId + 1, Some(max)) else [])
  {
    hide Output.Rendered, SubLine, UnsubLine, Cut, Decimal, SubscribeCall;
    var sid := h.nextId + 1;
    Lines.SubLineWholeIff(subject, sid);
    SubscribeQueued(h, client, handler, subject, max);
    var c := Subscribe(SubLine(subject, sid));
    CommandBytes(c, g);
    RenderedAdds(h.queued, c, g);
    if max > 0 {
      Lines.UnsubLineWhole(sid, Some(max));
      var u := Unsubscribe(UnsubLine(sid, Some(max)));
      CommandBytes(u, g);
      RenderedAdds(h.queued + [c], u, g);
    } else {
      assert h.queued + [c] + [] == h.queued + [c];
    }
  }

  /** What an unsubscribe that is accepted adds: its UNSUB line. */
  lemma UnsubscribeAdds(h: Sess, sid: nat, g: Output.Login)
    requires sid < U64 && UnsubscribeCall(h, sid).1.Fine?
    ensures Output.Rendered(UnsubscribeCall(h, sid).0.queued, g) == Output.Rendered(h.queued, g) + UnsubLine(sid, None)
  {
    Lines.UnsubLineWhole(sid, None);
    var c := Unsubscribe(UnsubLine(sid, None));
    assert UnsubscribeCall(h, sid).0.queued == h.queued + [c];
    CommandBytes(c, g);
    RenderedAdds(h.queued, c, g);
    hide Output.Rendered, UnsubLine, Cut;
  }

  /** What the handshake and the answer to a PING add. */
  lemma ProtocolAdds(h: Sess, g: Output.Login, strtod: bytes -> bool)
    requires |g.user| + |g.password| <= 512
    ensures h.state & 2 == 0 ==>
              Output.Rendered(ConnectionInit(h).queued, g) ==
              Output.Rendered(h.queued, g) + Lines.ConnectText(g.user, g.password)
    ensures Output.Rendered(Handle(h, WireContent.Ping, strtod).0.queued, g) ==
            Output.Rendered(h.queued, g) + [80, 79, 78, 71, 13, 10]
  {
    Lines.ConnectWhole(g.user, g.password);
    CommandBytes(Connect, g);
    CommandBytes(PongReply, g);
    RenderedAdds(h.queued, Connect, g);
    RenderedAdds(h.queued, PongReply, g);
    hide Output.Rendered, Lines.ConnectText, Cut, ReadInfo;
  }

  // Whole queues

  lemma CommandRead(c: Command, xs: seq<Order>, g: Output.Login, rest: bytes)
    requires Means(c, xs, g)
    ensures Orders(Output.Rendered([c], g) + rest) == xs + Orders(rest)
  {
    hide PubLine, SubLine, UnsubLine, Orders, Lines.ConnectText, Lines.ConnectLine, Output.Rendered, Word, NoEol;
    CommandBytes(c, g);
    match c
    case Connect =>
      Lines.ConnectWhole(g.user, g.password);
      ConnectRead(g, rest);
    case PongReply =>
      PongRead(rest);
      assert [80, 79, 78, 71] + CRLF == [80, 79, 78, 71, 13, 10];
    case Publish(header, payload) =>
      PubRead(xs[0].subject, xs[0].replyto, payload, rest);
      assert xs == [xs[0]];
    case Subscribe(line) =>
      SubRead(xs[0].subject, xs[0].sid, rest);
      assert xs == [xs[0]];
    case Unsubscribe(line) =>
      UnsubRead(xs[0].sid, xs[0].max, rest);
      assert xs == [xs[0]];
  }

  function Flat(xss: seq<seq<Order>>): seq<Order> {
    if xss == [] then [] else xss[0] + Flat(xss[1..])
  }

  /** Each command means its orders. */
  ghost predicate AllMean(cs: seq<Command>, xss: seq<seq<Order>>, g: Output.Login) {
    |cs| == |xss| && forall i :: 0 <= i < |cs| ==> Means(cs[i], xss[i], g)
  }

  /** A server reads of the bytes of a queue the orders that its commands mean, in order, and goes on behind them. */
  lemma {:induction false} QueueRead(cs: seq<Command>, xss: seq<seq<Order>>, g: Output.Login, rest: bytes)
    requires AllMean(cs, xss, g)
    ensures Orders(Output.Rendered(cs, g) + rest) == Flat(xss) + Orders(rest)
    decreases |cs|
  {
    hide Means, Orders;
    if cs == [] {
      assert Output.Rendered(cs, g) + rest == rest;
    } else {
      var tail := Output.Rendered(cs[1..], g);
      assert cs == [cs[0]] + cs[1..];
      Output.RenderedSplit([cs[0]], cs[1..], g);
      hide Output.Rendered;
      assert Output.Rendered(cs, g) + rest == Output.Rendered([cs[0]], g) + (tail + rest);
      CommandRead(cs[0], xss[0], g, tail + rest);
      QueueRead(cs[1..], xss[1..], g, rest);
      assert xss[0] + (Flat(xss[1..]) + Orders(rest)) == Flat(xss) + Orders(rest);
    }
  }

  lemma FirstStable(u: bytes, t: bytes)
    requires FirstOrder(u).Some?
    ensures FirstOrder(u + t) == FirstOrder(u)
  {
    var n := Scan(u, 0, IsEol);
    ScanStable(u, t, 0, IsEol);
    assert (u + t)[..n] == u[..n];
    hide PubHead, LineOrder, Scan;
    var h := PubHead(u[..n]);
    if h.Some? {
      var b, len := n + 2, h.value.2;
      assert (u + t)[b..b + len] == u[b..b + len];
    }
  }

  /** More bytes only add orders. */
  lemma {:induction false} OrdersStable(u: bytes, t: bytes)
    ensures Orders(u) <= Orders(u + t)
    decreases |u|
  {
    hide FirstOrder, Orders;
    match FirstOrder(u)
    case None => NoFirst(u);
    case Some((x, n)) =>
      FirstStable(u, t);
      OrdersStep(u, x, n);
      OrdersStep(u + t, x, n);
      OrderBound(u, x, n);
      assert (u + t)[n..] == u[n..] + t;
      OrdersStable(u[n..], t);
  }

  lemma NoFirst(u: bytes)
    requires FirstOrder(u).None?
    ensures Orders(u) == []
  {
    hide FirstOrder;
  }

  lemma OrderBound(u: bytes, x: Order, n: nat)
    requires FirstOrder(u) == Some((x, n))
    ensures 0 < n <= |u|
  {
  }

  /**
   * What a server has understood at any time is the first of the orders that the commands of the connection mean, and
   * all of them once everything is sent.
   */
  lemma ServerUnderstands(r: Link.Nd, x: B.Out, xss: seq<seq<Order>>, g: Output.Login)
    requires Output.Carried(r, x, g) && r.open && AllMean(r.sess.queued, xss, g)
    ensures Orders(x.sent) <= Flat(xss) && (!r.unsent ==> Orders(x.sent) == Flat(xss))
  {
    hide Orders, AllMean, Output.Rendered;
    var wire := Output.Rendered(r.sess.queued, g);
    QueueRead(r.sess.queued, xss, g, []);
    assert wire + [] == wire;
    NoOrders();
    assert Flat(xss) + [] == Flat(xss);
    assert wire == x.sent + wire[|x.sent|..];
    OrdersStable(x.sent, wire[|x.sent|..]);
    if !r.unsent {
      assert x.sent == wire;
    }
  }

  lemma NoOrders()
    ensures Orders([]) == []
  {
  }

  // What calls mean

  /** The command that a publish with words for subject and reply-to queues means what was asked for. */
  lemma PublishMeans(h: Sess, subject: bytes, replyto: Option<bytes>, data: bytes, len: nat, g: Output.Login)
    requires h.IsReady() && 0 < len <= |data| && len < U64 && Word(subject) && (replyto.Some? ==> Word(replyto.value))
    requires |subject| + (if replyto.Some? then |replyto.value| else 0) <= 512
    ensures var q := PublishCall(h, subject, replyto, data, len).0.queued;
            |q| == |h.queued| + 1 && Means(q[|h.queued|], [Pub(subject, replyto, data[..len])], g)
  {
    Lines.PubHeaderWhole(subject, replyto, len);
    hide PubLine, Cut, Word;
  }

  lemma SubscribeMeans(h: Sess, client: nat, handler: nat, subject: bytes, max: int, g: Output.Login)
    requires h.IsReady() && h.nextId + 1 < U64 && max < U64 && Word(subject)
    requires |subject| + |Decimal(h.nextId + 1)| <= 569
    ensures var (r, reply) := SubscribeCall(h, client, handler, subject, max);
            var n := |h.queued|;
            && reply.Sid? && |r.queued| == (if max > 0 then n + 2 else n + 1)
            && Means(r.queued[n], [Sub(subject, reply.sid)], g)
            && (max > 0 ==> Means(r.queued[n + 1], [Unsub(reply.sid, Some(max))], g))
  {
    hide SubLine, UnsubLine, Cut, Decimal, SubscribeCall, Word;
    Lines.SubLineWholeIff(subject, h.nextId + 1);
    SubscribeQueued(h, client, handler, subject, max);
    if max > 0 {
      Lines.UnsubLineWhole(h.nextId + 1, Some(max));
    }
  }

  lemma UnsubscribeMeans(h: Sess, sid: nat, g: Output.Login)
    requires sid < U64 && UnsubscribeCall(h, sid).1.Fine?
    ensures var q := UnsubscribeCall(h, sid).0.queued;
            |q| == |h.queued| + 1 && Means(q[|h.queued|], [Unsub(sid, None)], g)
  {
    Lines.UnsubLineWhole(sid, None);
    hide UnsubLine, Cut;
  }
}
