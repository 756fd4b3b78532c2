/** What the incremental parser of server-to-client messages answers on the bytes received so far. */
module Wire {
  import opened Bytes

  const TEXT_OK: bytes := [43, 79, 75]          // "+OK"
  const TEXT_MSG: bytes := [77, 83, 71]         // "MSG"
  const TEXT_ERR: bytes := [45, 69, 82, 82]     // "-ERR"
  const TEXT_PING: bytes := [80, 73, 78, 71]    // "PING"
  const TEXT_PONG: bytes := [80, 79, 78, 71]    // "PONG"
  const TEXT_INFO: bytes := [73, 78, 70, 79]    // "INFO"

  datatype Kind = KOk | KErr | KPing | KPong | KInfo | KMsg {
    predicate IsText() { this == KErr || this == KInfo }
    predicate HasBody() { IsText() || this == KMsg }
  }

  /** A run of bytes inside the parsed text. */
  datatype Span = Span(start: nat, len: nat) {
    function End(): nat { start + len }
  }

  const NO_SPAN := Span(0, 0)

  /** The out-parameter of the parser; body is [bstart, bend). */
  datatype Msg = Msg(kind: Kind, sid: nat, subject: Span, replyto: Span, bstart: nat, bend: nat)

  /** Overflow stands for a decimal field that does not fit ngx_int_t: C gives that computation no meaning. */
  datatype Fault = InvalidHeader | InvalidMsg | Overflow

  /** Frame(n, m): a message of n bytes was recognised. */
  datatype Verdict = Again | Bad(fault: Fault) | Frame(n: nat, msg: Msg)

  predicate IsHeaderStop(b: byte) { b == LF || b == SP || b == CR }
  predicate IsCr(b: byte) { b == CR }
  predicate NotSp(b: byte) { b != SP }
  predicate IsTokenStop(b: byte) { b == SP || b == CR }

  /** The verdict on all the bytes received and not yet consumed. */
  function Parse(s: bytes): Verdict {
    var p := Scan(s, 0, IsHeaderStop);
    if p < |s| && s[p] == LF then Bad(InvalidHeader)
    else if p == |s| then Again
    else if p == 3 then
      if SameFold(s[..3], TEXT_OK) then ParseBare(s, p, KOk)
      else if SameFold(s[..3], TEXT_MSG) then ParseMsg(s, p)
      else Bad(InvalidHeader)
    else if p == 4 then
      if SameFold(s[..4], TEXT_ERR) then ParseErr(s, p)
      else if SameFold(s[..4], TEXT_PING) then ParseBare(s, p, KPing)
      else if SameFold(s[..4], TEXT_PONG) then ParseBare(s, p, KPong)
      else if SameFold(s[..4], TEXT_INFO) then ParseInfo(s, p)
      else Bad(InvalidHeader)
    else Bad(InvalidHeader)
  }

  /** "+OK", "PING" and "PONG": the header, then CR LF. */
  function ParseBare(s: bytes, h: nat, kind: Kind): Verdict
    requires h < |s|
  {
    if s[h] != CR then Bad(InvalidMsg)
    else if |s| < h + 2 then Again
    else if s[h + 1] != LF then Bad(InvalidMsg)
    else Frame(h + 2, Msg(kind, 0, NO_SPAN, NO_SPAN, 0, 0))
  }

  /** "-ERR" with an optional text. */
  function ParseErr(s: bytes, h: nat): Verdict
    requires h < |s|
  {
    var n := Scan(s, h, NotSp);
    if n == |s| then Again
    else if n == h then
      if s[n] != CR then Bad(InvalidMsg)
      else if n == |s| - 1 then Again
      else if s[n + 1] != LF then Bad(InvalidMsg)
      else Frame(n + 2, Msg(KErr, 0, NO_SPAN, NO_SPAN, h, h))
    else ParseText(s, n, KErr)
  }

  /** "INFO" with a text. */
  function ParseInfo(s: bytes, h: nat): Verdict
    requires h < |s|
  {
    var n := Scan(s, h, NotSp);
    if n == |s| then Again
    else if n == h then Bad(InvalidMsg)
    else ParseText(s, n, KInfo)
  }

  /** The text starts at b whatever byte that is, and runs to the next CR. */
  function ParseText(s: bytes, b: nat, kind: Kind): Verdict
    requires b < |s|
  {
    var n := Scan(s, b + 1, IsCr);
    if n + 1 >= |s| then Again
    else if s[n + 1] != LF then Bad(InvalidMsg)
    else Frame(n + 2, Msg(kind, 0, NO_SPAN, NO_SPAN, b, n))
  }

  datatype Token = NoToken | Token(next: nat, ns: nat, ne: nat)

  /** End of a quoted token whose next unread byte is at p; None when it does not close within the line. */
  function QuoteEnd(line: bytes, p: nat, q: byte): (r: Option<nat>)
    requires p <= |line|
    ensures r.Some? ==> p < r.value <= |line|
    decreases |line| - p
  {
    if p == |line| then None
    else if line[p] == BACKSLASH then
      if p >= |line| - 1 then None else QuoteEnd(line, p + 2, q)
    else if line[p] == q then Some(p + 1)
    else if p >= |line| - 1 then None
    else QuoteEnd(line, p + 1, q)
  }

  predicate NoCr(line: bytes, p: nat) {
    forall i :: p <= i < |line| ==> line[i] != CR
  }

  /** The next token of a header line: `next` is where to go on; no token left gives ns == ne == |line|. */
  function NextToken(line: bytes, p: nat): (t: Token)
    requires p <= |line| && NoCr(line, p)
    ensures t.Token? ==> p <= t.ns <= t.ne == t.next <= |line|
    ensures t.Token? && t.ns == t.ne ==> t.next == |line|
  {
    var ns := Scan(line, p, NotSp);
    if ns == |line| then Token(|line|, |line|, |line|)
    else if IsQuote(line[ns]) then
      if ns >= |line| - 1 then NoToken
      else
        var e := QuoteEnd(line, ns + 1, line[ns]);
        if e.None? then NoToken else Token(e.value, ns, e.value)
    else
      var ne := Scan(line, ns, IsTokenStop);
      Token(ne, ns, ne)
  }

  datatype Number = NotANumber | TooBig | Number(value: nat)

  /** The decimal loop on t[i..], having reached v; TooBig once the value leaves ngx_int_t. */
  function AtoiFrom(t: bytes, i: nat, v: nat): Number
    requires i <= |t|
    decreases |t| - i
  {
    if i == |t| then Number(v)
    else if !IsDigit(t[i]) then NotANumber
    else
      var w := v * 10 + (t[i] - ZERO);
      if w > I64_MAX then TooBig else AtoiFrom(t, i + 1, w)
  }

  function Atoi(t: bytes): Number {
    if |t| == 0 then NotANumber else AtoiFrom(t, 0, 0)
  }

  datatype MsgHead = BadHead(fault: Fault) | Head(subject: Span, sid: nat, replyto: Span, len: nat)

  function NumberFault(n: Number): Fault
    requires !n.Number?
  {
    if n.TooBig? then Overflow else InvalidMsg
  }

  /** "Subject Sid [reply-to] Len" in line[h..], the CR excluded. */
  function ParseMsgHead(line: bytes, h: nat): MsgHead
    requires h <= |line| && NoCr(line, h)
  {
    var t1 := NextToken(line, h);
    if t1.NoToken? || t1.next == |line| then BadHead(InvalidMsg)
    else
      var t2 := NextToken(line, t1.next);
      if t2.NoToken? || t2.next == |line| then BadHead(InvalidMsg)
      else
        var sid := Atoi(line[t2.ns..t2.ne]);
        if !sid.Number? then BadHead(NumberFault(sid))
        else ParseMsgTail(line, t2.next, Span(t1.ns, t1.ne - t1.ns), sid.value)
  }

  /** "[reply-to] Len" in line[p..]. */
  function ParseMsgTail(line: bytes, p: nat, subject: Span, sid: nat): MsgHead
    requires p <= |line| && NoCr(line, p)
  {
    var t3 := NextToken(line, p);
    if t3.NoToken? || t3.ns >= t3.ne then BadHead(InvalidMsg)
    else if t3.next == |line| then MsgLength(line, t3, subject, sid, NO_SPAN)
    else
      var t4 := NextToken(line, t3.next);
      if t4.NoToken? then BadHead(InvalidMsg)
      else
        var t5 := NextToken(line, t4.next);
        if t5.NoToken? || t5.next < |line| || t5.ns < t5.ne then BadHead(InvalidMsg)
        else if t4.ns < t4.ne then
          MsgLength(line, t4, subject, sid, Span(t3.ns, t3.ne - t3.ns))
        else
          MsgLength(line, t3, subject, sid, NO_SPAN)
  }

  function MsgLength(line: bytes, t: Token, subject: Span, sid: nat, replyto: Span): MsgHead
    requires t.Token? && t.ns <= t.ne <= |line|
  {
    var len := Atoi(line[t.ns..t.ne]);
    if !len.Number? then BadHead(NumberFault(len)) else Head(subject, sid, replyto, len.value)
  }

  /** "MSG" header line, then as many payload bytes as it announces, then CR LF. */
  function ParseMsg(s: bytes, h: nat): Verdict
    requires h < |s|
  {
    if s[h] != SP then Bad(InvalidMsg)
    else
      var cr := Scan(s, h, IsCr);
      if cr + 1 >= |s| then Again
      else if s[cr + 1] != LF then Bad(InvalidMsg)
      else
        match ParseMsgHead(s[..cr], h)
        case BadHead(f) => Bad(f)
        case Head(subject, sid, replyto, len) => ParsePayload(s, cr + 2, subject, sid, replyto, len)
  }

  /** `len` payload bytes from b on, then CR LF. */
  function ParsePayload(s: bytes, b: nat, subject: Span, sid: nat, replyto: Span, len: nat): Verdict {
    if b + len + 2 > |s| then Again
    else if s[b + len] != CR || s[b + len + 1] != LF then Bad(InvalidMsg)
    else Frame(b + len + 2, Msg(KMsg, sid, subject, replyto, b, b + len))
  }
}
