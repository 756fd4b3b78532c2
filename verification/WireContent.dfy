/** What a recognised message carries, what the parser overwrites in place, and the printers it inverts. */
module WireContent {
  import opened Bytes
  import opened Wire
  import opened WireStability

  /** A server message by its content; an empty replyto means none. */
  datatype Content =
    | Ok
    | Err(text: bytes)
    | Ping
    | Pong
    | Info(text: bytes)
    | Message(subject: bytes, sid: nat, replyto: bytes, payload: bytes)

  function Slice(s: bytes, w: Span): bytes
    requires w.End() <= |s|
  {
    s[w.start..w.End()]
  }

  /** The content the spans of m point to. */
  function ContentOf(s: bytes, n: nat, m: Msg): Content
    requires n <= |s| && InFrame(n, m)
  {
    match m.kind
    case KOk => Ok
    case KErr => Err(s[m.bstart..m.bend])
    case KPing => Ping
    case KPong => Pong
    case KInfo => Info(s[m.bstart..m.bend])
    case KMsg => Message(Slice(s, m.subject), m.sid, Slice(s, m.replyto), s[m.bstart..m.bend])
  }

  /** The positions the parser overwrites when it recognises m. */
  predicate Zeroed(m: Msg, i: nat) {
    || (m.kind.HasBody() && i == m.bend)
    || (m.kind == KMsg && i == m.subject.End())
    || (m.kind == KMsg && m.replyto.len > 0 && i == m.replyto.End())
  }

  /** The bytes after the parser has put its terminating NULs. */
  function Patched(s: bytes, m: Msg): (r: bytes)
    ensures |r| == |s|
  {
    seq(|s|, i requires 0 <= i < |s| => if Zeroed(m, i) then NUL else s[i])
  }

  lemma PatchKeeps(s: bytes, m: Msg, lo: nat, hi: nat)
    requires lo <= hi <= |s| && forall i :: lo <= i < hi ==> !Zeroed(m, i)
    ensures Patched(s, m)[lo..hi] == s[lo..hi]
  {
    hide Zeroed;
    var r := Patched(s, m);
    assert forall i :: lo <= i < hi ==> r[i] == s[i];
  }

  lemma PatchZeroes(s: bytes, m: Msg, i: nat)
    requires i < |s| && Zeroed(m, i)
    ensures Patched(s, m)[i] == NUL
  {
    hide Zeroed;
  }

  lemma PatchTail(s: bytes, n: nat, m: Msg)
    requires n <= |s| && InFrame(n, m)
    ensures Patched(s, m)[n..] == s[n..]
  {
    var r := Patched(s, m);
    forall i | n <= i < |s|
      ensures r[i] == s[i]
    {
      assert !Zeroed(m, i);
    }
  }

  lemma PatchMsg(s: bytes, n: nat, m: Msg)
    requires n <= |s| && InFrame(n, m) && m.kind == KMsg
    ensures ContentOf(Patched(s, m), n, m) == ContentOf(s, n, m)
    ensures Patched(s, m)[m.subject.End()] == NUL && Patched(s, m)[m.bend] == NUL
  {
    hide Patched;
    PatchKeeps(s, m, m.bstart, m.bend);
    PatchKeeps(s, m, m.subject.start, m.subject.End());
    PatchKeeps(s, m, m.replyto.start, m.replyto.End());
    PatchZeroes(s, m, m.subject.End());
    PatchZeroes(s, m, m.bend);
  }

  /**
   * In-place writes are framed: nothing outside the message changes, the content reads the same
   * afterwards, and subject, reply-to and body are each followed by a NUL.
   */
  lemma PatchIsFramed(s: bytes, n: nat, m: Msg)
    requires n <= |s| && InFrame(n, m)
    ensures Patched(s, m)[n..] == s[n..]
    ensures ContentOf(Patched(s, m), n, m) == ContentOf(s, n, m)
    ensures m.kind == KMsg ==> Patched(s, m)[m.subject.End()] == NUL
    ensures m.kind == KMsg && m.replyto.len > 0 ==> Patched(s, m)[m.replyto.End()] == NUL
    ensures m.kind.HasBody() ==> Patched(s, m)[m.bend] == NUL
    ensures forall i :: 0 <= i < |s| && Patched(s, m)[i] != s[i] ==>
              || (m.kind.HasBody() && i == m.bend)
              || (m.kind == KMsg && (i == m.subject.End() || (m.replyto.len > 0 && i == m.replyto.End())))
  {
    OthersStay(s, m);
    hide Patched;
    PatchTail(s, n, m);
    if m.kind == KMsg {
      hide ContentOf;
      PatchMsg(s, n, m);
      if m.replyto.len > 0 {
        PatchZeroes(s, m, m.replyto.End());
      }
    } else if m.kind.IsText() {
      PatchKeeps(s, m, m.bstart, m.bend);
      PatchZeroes(s, m, m.bend);
    }
  }

  lemma OthersStay(s: bytes, m: Msg)
    ensures forall i :: 0 <= i < |s| && !Zeroed(m, i) ==> Patched(s, m)[i] == s[i]
  {
  }

  // ---------------------------------------------------------------------------------------------
  // Printers
  // ---------------------------------------------------------------------------------------------

  /** A token the header line carries verbatim: no blank, no CR, no opening quote. */
  ghost predicate Plain(t: bytes) {
    |t| > 0 && !IsQuote(t[0]) && forall i :: 0 <= i < |t| ==> !IsTokenStop(t[i])
  }

  /** A text line body: no CR and not empty, not starting with a blank. */
  ghost predicate LineText(t: bytes) {
    |t| > 0 && t[0] != SP && forall i :: 0 <= i < |t| ==> t[i] != CR
  }

  ghost predicate Printable(c: Content) {
    match c
    case Err(text) => text == [] || LineText(text)
    case Info(text) => LineText(text)
    case Message(subject, sid, replyto, payload) =>
      Plain(subject) && sid <= I64_MAX && (replyto == [] || Plain(replyto)) && |payload| <= I64_MAX
    case _ => true
  }

  function MsgLine(subject: bytes, sid: nat, replyto: bytes, len: nat): bytes {
    TEXT_MSG + [SP] + subject + [SP] + Decimal(sid)
    + (if replyto == [] then [] else [SP] + replyto) + [SP] + Decimal(len)
  }

  /** The frame the server sends for c, after the NATS client protocol. */
  function Print(c: Content): bytes {
    match c
    case Ok => TEXT_OK + CRLF
    case Ping => TEXT_PING + CRLF
    case Pong => TEXT_PONG + CRLF
    case Err(text) => if text == [] then TEXT_ERR + CRLF else TEXT_ERR + [SP] + text + CRLF
    case Info(text) => TEXT_INFO + [SP] + text + CRLF
    case Message(subject, sid, replyto, payload) =>
      MsgLine(subject, sid, replyto, |payload|) + CRLF + payload + CRLF
  }

  lemma {:induction false} AtoiOfDigits(t: bytes, i: nat)
    requires i <= |t| && AllDigits(t) && DecimalValue(t) <= I64_MAX
    ensures AtoiFrom(t, i, DecimalValue(t[..i])) == Number(DecimalValue(t))
    decreases |t| - i
  {
    if i == |t| {
      assert t[..i] == t;
    } else {
      DecimalGrows(t, i);
      AtoiOfDigits(t, i + 1);
    }
  }

  lemma AtoiInvertsDecimal(n: nat)
    requires n <= I64_MAX
    ensures Atoi(Decimal(n)) == Number(n)
  {
    var t := Decimal(n);
    AtoiOfDigits(t, 0);
  }

  /** A plain token standing behind one blank is the next token. */
  lemma NextIsPlain(line: bytes, p: nat, t: bytes)
    requires p + 1 + |t| <= |line| && NoCr(line, p) && Plain(t)
    requires line[p] == SP && line[p + 1..p + 1 + |t|] == t
    requires p + 1 + |t| == |line| || line[p + 1 + |t|] == SP
    ensures NextToken(line, p) == Token(p + 1 + |t|, p + 1, p + 1 + |t|)
  {
    var e := p + 1 + |t|;
    assert forall i :: p + 1 <= i < e ==> line[i] == t[i - p - 1];
    assert line[p + 1] == t[0];
    ScanIs(line, p, NotSp, p + 1);
    ScanIs(line, p + 1, IsTokenStop, e);
  }

  lemma DecimalIsPlain(n: nat)
    ensures Plain(Decimal(n))
  {
    var t := Decimal(n);
    assert forall i :: 0 <= i < |t| ==> IsDigit(t[i]);
  }

  /** Where the fields of a MSG header line stand. */
  ghost predicate Laid(line: bytes, subject: bytes, d: bytes, replyto: bytes, l: bytes) {
    var a := 4 + |subject|;
    var b := a + 1 + |d|;
    var c := if replyto == [] then b else b + 1 + |replyto|;
    && |line| == c + 1 + |l| && line[3] == SP && line[a] == SP && line[b] == SP && line[c] == SP
    && line[4..a] == subject && line[a + 1..b] == d && line[c + 1..] == l
    && (replyto != [] ==> line[b + 1..c] == replyto)
  }

  lemma LineLaid(line: bytes, subject: bytes, d: bytes, replyto: bytes, l: bytes)
    requires line == TEXT_MSG + [SP] + subject + [SP] + d + (if replyto == [] then [] else [SP] + replyto) + [SP] + l
    ensures Laid(line, subject, d, replyto, l)
  {
    var x := TEXT_MSG + [SP] + subject;
    var y := x + [SP] + d;
    var z := y + (if replyto == [] then [] else [SP] + replyto);
    assert line == z + [SP] + l;
    assert z[..|y|] == y && y[..|x|] == x;
    assert line[..|x|] == x && line[..|y|] == y && line[..|z|] == z;
    assert line[|z| + 1..] == l;
    assert y[|x| + 1..] == d && x[4..] == subject;
    assert line[|x|] == y[|x|] == SP;
    assert line[|x| + 1..|y|] == line[..|y|][|x| + 1..] == d;
    assert line[4..|x|] == line[..|x|][4..] == subject;
    if replyto != [] {
      assert z[|y|] == SP && z[|y| + 1..] == replyto;
      assert line[|y|] == line[..|z|][|y|];
      assert line[|y| + 1..|z|] == line[..|z|][|y| + 1..];
    }
  }

  lemma LaidFieldsParse(line: bytes, subject: bytes, d: bytes, replyto: bytes, l: bytes)
    requires Plain(subject) && Plain(d) && (replyto == [] || Plain(replyto)) && Plain(l)
    requires Atoi(d).Number? && Atoi(l).Number?
    requires Laid(line, subject, d, replyto, l) && NoCr(line, 3)
    ensures ParseMsgHead(line, 3) ==
            Head(Span(4, |subject|), Atoi(d).value,
                 if replyto == [] then NO_SPAN else Span(6 + |subject| + |d|, |replyto|), Atoi(l).value)
  {
    hide NextToken, Atoi;
    var a := 4 + |subject|;
    var b := a + 1 + |d|;
    NextIsPlain(line, 3, subject);
    NextIsPlain(line, a, d);
    if replyto == [] {
      NextIsPlain(line, b, l);
    } else {
      NextIsPlain(line, b, replyto);
      NextIsPlain(line, b + 1 + |replyto|, l);
      NoMoreTokens(line);
    }
  }

  lemma NoMoreTokens(line: bytes)
    ensures NextToken(line, |line|) == Token(|line|, |line|, |line|)
  {
  }

  lemma MsgLineNoCr(subject: bytes, d: bytes, replyto: bytes, l: bytes)
    requires Plain(subject) && Plain(d) && (replyto == [] || Plain(replyto)) && Plain(l)
    ensures NoCr(TEXT_MSG + [SP] + subject + [SP] + d
                 + (if replyto == [] then [] else [SP] + replyto) + [SP] + l, 0)
  {
  }

  lemma FieldsOfLineParse(subject: bytes, d: bytes, replyto: bytes, l: bytes)
    requires Plain(subject) && Plain(d) && (replyto == [] || Plain(replyto)) && Plain(l)
    requires Atoi(d).Number? && Atoi(l).Number?
    ensures var line := TEXT_MSG + [SP] + subject + [SP] + d
                        + (if replyto == [] then [] else [SP] + replyto) + [SP] + l;
            && NoCr(line, 0) && |line| >= 3
            && ParseMsgHead(line, 3) ==
               Head(Span(4, |subject|), Atoi(d).value,
                    if replyto == [] then NO_SPAN else Span(6 + |subject| + |d|, |replyto|), Atoi(l).value)
  {
    var line := TEXT_MSG + [SP] + subject + [SP] + d + (if replyto == [] then [] else [SP] + replyto) + [SP] + l;
    MsgLineNoCr(subject, d, replyto, l);
    LineLaid(line, subject, d, replyto, l);
    LaidStart(line, subject, d, replyto, l);
    hide Plain, Atoi, ParseMsgHead, Laid;
    LaidFieldsParse(line, subject, d, replyto, l);
  }

  /** The header line of a MSG frame gives back its four fields. */
  lemma MsgLineParses(subject: bytes, sid: nat, replyto: bytes, len: nat)
    requires Plain(subject) && sid <= I64_MAX && (replyto == [] || Plain(replyto)) && len <= I64_MAX
    ensures var line := MsgLine(subject, sid, replyto, len);
            && NoCr(line, 0) && |line| >= 3
            && ParseMsgHead(line, 3) ==
               Head(Span(4, |subject|), sid,
                    if replyto == [] then NO_SPAN else Span(6 + |subject| + |Decimal(sid)|, |replyto|), len)
  {
    DecimalIsPlain(sid);
    DecimalIsPlain(len);
    AtoiInvertsDecimal(sid);
    AtoiInvertsDecimal(len);
    hide Decimal, Atoi, ParseMsgHead, NoCr, Plain;
    FieldsOfLineParse(subject, Decimal(sid), replyto, Decimal(len));
  }

  /** Parse(s) recognises c in exactly the first n bytes. */
  ghost predicate Recognised(s: bytes, n: nat, c: Content) {
    && Parse(s).Frame? && Parse(s).n == n <= |s| && InFrame(n, Parse(s).msg)
    && ContentOf(s, n, Parse(s).msg) == c
  }

  lemma HeaderIs(s: bytes, h: nat)
    requires h < |s| && (s[h] == SP || s[h] == CR)
    requires forall i :: 0 <= i < h ==> !IsHeaderStop(s[i])
    ensures Scan(s, 0, IsHeaderStop) == h
  {
    ScanIs(s, 0, IsHeaderStop, h);
  }

  lemma BareRoundTrip(c: Content, rest: bytes)
    requires c.Ok? || c.Ping? || c.Pong? || c == Err([])
    ensures Recognised(Print(c) + rest, |Print(c)|, c)
  {
    hide ParseMsg;
    var s := Print(c) + rest;
    var h := |Print(c)| - 2;
    assert s[h] == CR && s[h + 1] == LF;
    assert s[..h] == Print(c)[..h];
    HeaderIs(s, h);
    if c.Err? {
      ScanIs(s, h, NotSp, h);
    }
  }

  lemma TextRoundTrip(kind: Kind, head: bytes, text: bytes, rest: bytes)
    requires |head| == 4 && LineText(text)
    ensures var s := head + [SP] + text + CRLF + rest;
            && Scan(s, 4, NotSp) == 5
            && ParseText(s, 5, kind) == Frame(7 + |text|, Msg(kind, 0, NO_SPAN, NO_SPAN, 5, 5 + |text|))
            && s[..4] == head && s[4] == SP && s[5..5 + |text|] == text
  {
    var s := head + [SP] + text + CRLF + rest;
    assert s[5..5 + |text|] == text;
    assert forall i :: 5 <= i < 5 + |text| ==> s[i] == text[i - 5];
    ScanIs(s, 4, NotSp, 5);
    ScanIs(s, 6, IsCr, 5 + |text|);
  }

  lemma ErrRoundTrip(text: bytes, rest: bytes)
    requires LineText(text)
    ensures Recognised(Print(Err(text)) + rest, |Print(Err(text))|, Err(text))
  {
    hide ParseMsg, ParseText;
    var s := Print(Err(text)) + rest;
    TextRoundTrip(KErr, TEXT_ERR, text, rest);
    assert s == TEXT_ERR + [SP] + text + CRLF + rest;
    assert forall i :: 0 <= i < 4 ==> s[i] == s[..4][i];
    HeaderIs(s, 4);
  }

  lemma InfoRoundTrip(text: bytes, rest: bytes)
    requires LineText(text)
    ensures Recognised(Print(Info(text)) + rest, |Print(Info(text))|, Info(text))
  {
    hide ParseMsg, ParseText;
    var s := Print(Info(text)) + rest;
    TextRoundTrip(KInfo, TEXT_INFO, text, rest);
    assert s == TEXT_INFO + [SP] + text + CRLF + rest;
    assert forall i :: 0 <= i < 4 ==> s[i] == s[..4][i];
    HeaderIs(s, 4);
  }

  /** A MSG frame: the line, CR LF, as many bytes as the line says, CR LF. */
  lemma FrameOfLine(line: bytes, payload: bytes, rest: bytes, head: MsgHead)
    requires |line| >= 4 && line[3] == SP && NoCr(line, 0)
    requires ParseMsgHead(line, 3) == head && head.Head? && head.len == |payload|
    ensures var s := line + CRLF + payload + CRLF + rest;
            var b := |line| + 2;
            && s[..|line|] == line && s[b..b + |payload|] == payload
            && ParseMsg(s, 3) == Frame(b + |payload| + 2,
                                       Msg(KMsg, head.sid, head.subject, head.replyto, b, b + |payload|))
  {
    hide ParseMsgHead;
    var s := line + CRLF + payload + CRLF + rest;
    var b := |line| + 2;
    assert s[..|line|] == line;
    assert forall i :: 0 <= i < |line| ==> s[i] == line[i];
    ScanIs(s, 3, IsCr, |line|);
    assert s[b..b + |payload|] == payload;
    assert s[b + |payload|] == CR && s[b + |payload| + 1] == LF;
  }

  lemma IsMsgHeader(s: bytes)
    requires |s| >= 4 && s[..3] == TEXT_MSG && s[3] == SP
    ensures Parse(s) == ParseMsg(s, 3)
  {
    hide ParseMsg;
    assert s[0] == s[..3][0] && s[1] == s[..3][1] && s[2] == s[..3][2];
    HeaderIs(s, 3);
  }

  lemma MsgRecognised(s: bytes, m: Msg, c: Content)
    requires c.Message? && m.kind == KMsg && m.sid == c.sid && Parse(s) == Frame(m.bend + 2, m)
    requires m.subject.End() <= |s| && Slice(s, m.subject) == c.subject
    requires m.replyto.End() <= |s| && Slice(s, m.replyto) == c.replyto
    requires m.bstart <= m.bend <= |s| && s[m.bstart..m.bend] == c.payload
    ensures Recognised(s, m.bend + 2, c)
  {
    hide Parse, Slice, ContentOf;
    FrameBounds(s);
    ContentIs(s, m.bend + 2, m, c);
  }

  lemma LaidFrame(s: bytes, line: bytes, d: bytes, l: bytes, c: Content)
    requires c.Message? && Laid(line, c.subject, d, c.replyto, l) && |line| <= |s| && s[..|line|] == line
    requires Parse(s).Frame?
    requires var m := Parse(s).msg;
             && m.kind == KMsg && m.sid == c.sid && m.subject == Span(4, |c.subject|)
             && m.replyto == (if c.replyto == [] then NO_SPAN else Span(6 + |c.subject| + |d|, |c.replyto|))
             && m.bstart <= m.bend <= |s| && Parse(s).n == m.bend + 2 && s[m.bstart..m.bend] == c.payload
    ensures Recognised(s, Parse(s).n, c)
  {
    hide Parse, Recognised, Slice, Span.End, Laid;
    FieldsOfLine(s, line, c.subject, d, c.replyto, l);
    var m := Parse(s).msg;
    SpanIs(s, m.subject, 4, c.subject);
    if c.replyto == [] {
      SpanIs(s, m.replyto, 0, []);
    } else {
      SpanIs(s, m.replyto, 6 + |c.subject| + |d|, c.replyto);
    }
    MsgRecognised(s, m, c);
  }

  lemma SpanIs(s: bytes, w: Span, lo: nat, t: bytes)
    requires w == Span(lo, |t|) && lo + |t| <= |s| && s[lo..lo + |t|] == t
    ensures w.End() <= |s| && Slice(s, w) == t
  {
  }

  lemma LaidStart(line: bytes, subject: bytes, d: bytes, replyto: bytes, l: bytes)
    requires Laid(line, subject, d, replyto, l)
    ensures |line| >= 4 && line[3] == SP
  {
  }

  lemma ContentIs(s: bytes, n: nat, m: Msg, c: Content)
    requires c.Message? && m.kind == KMsg && n <= |s| && InFrame(n, m)
    requires Slice(s, m.subject) == c.subject && m.sid == c.sid
    requires Slice(s, m.replyto) == c.replyto && s[m.bstart..m.bend] == c.payload
    ensures ContentOf(s, n, m) == c
  {
  }

  lemma MsgRoundTrip(c: Content, rest: bytes)
    requires c.Message? && Printable(c)
    ensures Recognised(Print(c) + rest, |Print(c)|, c)
  {
    hide ParseMsgHead, ParseMsg, Parse, Decimal, Laid, Recognised, Plain, MsgLine;
    var line, s := MsgLine(c.subject, c.sid, c.replyto, |c.payload|), Print(c) + rest;
    MsgLineParses(c.subject, c.sid, c.replyto, |c.payload|);
    PrintedLine(c, rest);
    LaidStart(line, c.subject, Decimal(c.sid), c.replyto, Decimal(|c.payload|));
    FrameOfLine(line, c.payload, rest, ParseMsgHead(line, 3));
    StartsAlike(s, line);
    IsMsgHeader(s);
    LaidFrame(s, line, Decimal(c.sid), Decimal(|c.payload|), c);
  }

  /** A printed MSG frame: its line, laid out as expected, and the payload. */
  lemma PrintedLine(c: Content, rest: bytes)
    requires c.Message?
    ensures var line := MsgLine(c.subject, c.sid, c.replyto, |c.payload|);
            && Laid(line, c.subject, Decimal(c.sid), c.replyto, Decimal(|c.payload|)) && line[..3] == TEXT_MSG
            && Print(c) + rest == line + CRLF + c.payload + CRLF + rest
            && |Print(c)| == |line| + 2 + |c.payload| + 2
  {
    hide Decimal;
    var line := MsgLine(c.subject, c.sid, c.replyto, |c.payload|);
    LineLaid(line, c.subject, Decimal(c.sid), c.replyto, Decimal(|c.payload|));
    LaidStart(line, c.subject, Decimal(c.sid), c.replyto, Decimal(|c.payload|));
    hide Laid;
    assert line[..3] == TEXT_MSG;
  }

  lemma StartsAlike(s: bytes, line: bytes)
    requires 4 <= |line| <= |s| && s[..|line|] == line
    ensures s[..3] == line[..3] && s[3] == line[3]
  {
    assert s[..3] == s[..|line|][..3] && s[3] == s[..|line|][3];
  }

  lemma FieldsOfLine(s: bytes, line: bytes, subject: bytes, d: bytes, replyto: bytes, l: bytes)
    requires Laid(line, subject, d, replyto, l) && |line| <= |s| && s[..|line|] == line
    ensures 6 + |subject| + |d| + |replyto| <= |line|
    ensures s[4..4 + |subject|] == subject
    ensures replyto != [] ==> s[6 + |subject| + |d|..6 + |subject| + |d| + |replyto|] == replyto
  {
    assert s[4..4 + |subject|] == s[..|line|][4..4 + |subject|];
    if replyto != [] {
      var b := 6 + |subject| + |d|;
      assert s[b..b + |replyto|] == s[..|line|][b..b + |replyto|];
    }
  }

  /**
   * Round trip: a printed frame, whatever bytes follow it, is recognised with its exact length and
   * gives back its content; and every proper prefix of it is incomplete.
   */
  lemma RoundTrip(c: Content, rest: bytes)
    requires Printable(c)
    ensures Recognised(Print(c) + rest, |Print(c)|, c)
    ensures forall k :: 0 <= k < |Print(c)| ==> Parse(Print(c)[..k]).Again?
  {
    hide Parse, Print, ContentOf;
    assert Recognised(Print(c) + rest, |Print(c)|, c) by {
      match c
      case Message(_, _, _, _) => MsgRoundTrip(c, rest);
      case Err(text) => if text == [] { BareRoundTrip(c, rest); } else { ErrRoundTrip(text, rest); }
      case Info(text) => InfoRoundTrip(text, rest);
      case _ => BareRoundTrip(c, rest);
    }
    var s := Print(c) + rest;
    forall k | 0 <= k < |Print(c)|
      ensures Parse(Print(c)[..k]).Again?
    {
      ShorterIsAgain(s, k);
      assert s[..k] == Print(c)[..k];
    }
  }
}
