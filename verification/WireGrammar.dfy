/**
 * The texts of server messages as a grammar: six header words in any case, tokens behind blanks, a payload of the
 * announced length, CR LF. The parser is proved to recognise exactly these texts, with their fields.
 */
module WireGrammar {
  import opened Bytes
  import opened Wire
  import WireOverflow

  // Words and tokens

  /** w is the upper-case word t with any of its letters in lower case. */
  predicate InAnyCase(w: bytes, t: bytes) {
    |w| == |t| && forall i :: 0 <= i < |t| ==> w[i] == t[i] || (65 <= t[i] <= 90 && w[i] == t[i] + 32)
  }

  predicate Blanks(b: bytes) {
    forall i :: 0 <= i < |b| ==> b[i] == 32
  }

  /** One byte of a quoted token, or a backslash and the byte behind it. */
  datatype Piece = One(b: byte) | Pair(b: byte)

  /** A token is a run of bytes other than blanks that does not start with a quote, or stands between quotes. */
  datatype Tok = Bare(text: bytes) | Quoted(q: byte, pieces: seq<Piece>)

  function PieceText(x: Piece): bytes {
    match x
    case One(b) => [b]
    case Pair(b) => [92, b]
  }

  function PiecesText(xs: seq<Piece>): bytes {
    if xs == [] then [] else PieceText(xs[0]) + PiecesText(xs[1..])
  }

  function TokText(t: Tok): bytes {
    match t
    case Bare(text) => text
    case Quoted(q, pieces) => [q] + PiecesText(pieces) + [q]
  }

  predicate GoodPieces(xs: seq<Piece>, q: byte) {
    forall i :: 0 <= i < |xs| ==> xs[i].b != 13 && (xs[i].One? ==> xs[i].b != q && xs[i].b != 92)
  }

  predicate GoodTok(t: Tok) {
    match t
    case Bare(text) =>
      text != [] && text[0] != 34 && text[0] != 39 && forall i :: 0 <= i < |text| ==> text[i] != 32 && text[i] != 13
    case Quoted(q, pieces) => (q == 34 || q == 39) && GoodPieces(pieces, q)
  }

  // Where a quoted token ends

  lemma {:induction false} QuoteAccepted(line: bytes, p: nat, xs: seq<Piece>, q: byte)
    requires GoodPieces(xs, q) && q != 92 && At(line, p, PiecesText(xs) + [q])
    ensures p <= |line| && QuoteEnd(line, p, q) == Some(p + |PiecesText(xs)| + 1)
    decreases |xs|
  {
    hide At;
    if xs == [] {
      assert PiecesText(xs) + [q] == [q];
      AtByte(line, p, q);
    } else {
      var x, u := PieceText(xs[0]), PiecesText(xs[1..]);
      assert PiecesText(xs) + [q] == x + (u + [q]);
      AtSplit(line, p, x, u + [q]);
      PieceSkipped(line, p, xs[0], q);
      AtSplit(line, p + |x|, u, [q]);
      AtByte(line, p + |x| + |u|, q);
      QuoteAccepted(line, p + |x|, xs[1..], q);
    }
  }

  /** A piece with something behind it is skipped. */
  lemma PieceSkipped(line: bytes, p: nat, x: Piece, q: byte)
    requires At(line, p, PieceText(x)) && q != 92 && (x.One? ==> x.b != q && x.b != 92)
    ensures p + |PieceText(x)| < |line| ==> QuoteEnd(line, p, q) == QuoteEnd(line, p + |PieceText(x)|, q)
  {
    AtIndex(line, p, PieceText(x), 0);
  }

  lemma {:induction false} QuoteSound(line: bytes, p: nat, q: byte) returns (xs: seq<Piece>)
    requires p <= |line| && NoCr(line, p) && QuoteEnd(line, p, q).Some?
    ensures GoodPieces(xs, q) && At(line, p, PiecesText(xs) + [q])
    ensures QuoteEnd(line, p, q).value == p + |PiecesText(xs)| + 1
    decreases |line| - p
  {
    hide At, QuoteEnd, PiecesText;
    QuoteStep(line, p, q);
    AtByte(line, p, line[p]);
    if line[p] == 92 {
      var ys := QuoteSound(line, p + 2, q);
      xs := [Pair(line[p + 1])] + ys;
      AtByte(line, p + 1, line[p + 1]);
      AtSplit(line, p, [line[p]], [line[p + 1]]);
      assert [line[p]] + [line[p + 1]] == PieceText(xs[0]);
      QuoteLonger(line, p, xs, q);
    } else if line[p] == q {
      xs := [];
      NoPieces(q);
    } else {
      var ys := QuoteSound(line, p + 1, q);
      xs := [One(line[p])] + ys;
      QuoteLonger(line, p, xs, q);
    }
  }

  lemma QuoteStep(line: bytes, p: nat, q: byte)
    requires p <= |line| && QuoteEnd(line, p, q).Some?
    ensures p < |line|
    ensures if line[p] == 92 then p + 2 <= |line| && QuoteEnd(line, p + 2, q) == QuoteEnd(line, p, q)
            else if line[p] == q then QuoteEnd(line, p, q) == Some(p + 1)
            else QuoteEnd(line, p + 1, q) == QuoteEnd(line, p, q)
  {
  }

  lemma NoPieces(q: byte)
    ensures PiecesText([]) + [q] == [q] && PiecesText([]) == []
  {
  }

  lemma QuoteLonger(line: bytes, p: nat, xs: seq<Piece>, q: byte)
    requires xs != [] && At(line, p, PieceText(xs[0])) && At(line, p + |PieceText(xs[0])|, PiecesText(xs[1..]) + [q])
    ensures At(line, p, PiecesText(xs) + [q]) && |PiecesText(xs)| == |PieceText(xs[0])| + |PiecesText(xs[1..])|
  {
    hide At, PieceText;
    AtSplit(line, p, PieceText(xs[0]), PiecesText(xs[1..]) + [q]);
    assert PiecesText(xs) + [q] == PieceText(xs[0]) + (PiecesText(xs[1..]) + [q]);
  }

  // The next token

  /** A token is followed by what may follow it: a bare one by a blank or the end of the line. */
  predicate Ends(line: bytes, t: Tok, e: nat) {
    t.Quoted? || e >= |line| || line[e] == 32
  }

  lemma BlanksScanned(line: bytes, p: nat, b: bytes)
    requires Blanks(b) && At(line, p, b) && (p + |b| < |line| ==> line[p + |b|] != 32)
    ensures p <= |line| && Scan(line, p, NotSp) == p + |b|
  {
    assert forall i :: p <= i < p + |b| ==> line[i] == line[p..p + |b|][i - p];
    ScanIs(line, p, NotSp, p + |b|);
  }

  lemma BareScanned(line: bytes, p: nat, text: bytes)
    requires GoodTok(Bare(text)) && At(line, p, text) && Ends(line, Bare(text), p + |text|)
    ensures p < |line| && line[p] != 32 && !IsQuote(line[p]) && Scan(line, p, IsTokenStop) == p + |text|
  {
    AtIndex(line, p, text, 0);
    forall i | p <= i < p + |text|
      ensures line[i] != 32 && line[i] != 13
    {
      AtIndex(line, p, text, i - p);
    }
    ScanIs(line, p, IsTokenStop, p + |text|);
  }

  lemma TokenAccepted(line: bytes, p: nat, b: bytes, t: Tok)
    requires NoCr(line, p) && Blanks(b) && GoodTok(t) && At(line, p, b) && At(line, p + |b|, TokText(t))
    requires Ends(line, t, p + |b| + |TokText(t)|)
    ensures var e := p + |b| + |TokText(t)|; p + |b| < e <= |line| && NextToken(line, p) == Token(e, p + |b|, e)
  {
    hide NextToken, QuoteEnd, Scan, At, NoCr, GoodTok, TokText, Ends, Blanks;
    var ns := p + |b|;
    if t.Bare? {
      assert TokText(t) == t.text by { TextOfBare(t); }
      BareScanned(line, ns, t.text);
    } else {
      QuotedRead(line, ns, t);
    }
    BlanksScanned(line, p, b);
    NextTokenIs(line, p, ns);
  }

  lemma TextOfBare(t: Tok)
    requires t.Bare?
    ensures TokText(t) == t.text
  {
  }

  lemma NextTokenIs(line: bytes, p: nat, ns: nat)
    requires p <= ns <= |line| && NoCr(line, p) && Scan(line, p, NotSp) == ns
    ensures NextToken(line, p) ==
            if ns == |line| then Token(|line|, |line|, |line|)
            else if IsQuote(line[ns]) then
              if ns >= |line| - 1 then NoToken
              else if QuoteEnd(line, ns + 1, line[ns]).None? then NoToken
              else Token(QuoteEnd(line, ns + 1, line[ns]).value, ns, QuoteEnd(line, ns + 1, line[ns]).value)
            else Token(Scan(line, ns, IsTokenStop), ns, Scan(line, ns, IsTokenStop))
  {
    hide Scan, QuoteEnd;
  }

  lemma QuotedRead(line: bytes, ns: nat, t: Tok)
    requires t.Quoted? && GoodTok(t) && At(line, ns, TokText(t))
    ensures ns + 1 < |line| && line[ns] != 32 && IsQuote(line[ns])
    ensures QuoteEnd(line, ns + 1, line[ns]) == Some(ns + |TokText(t)|)
  {
    hide QuoteEnd, At;
    QuotedStart(line, ns, t);
    QuoteAccepted(line, ns + 1, t.pieces, t.q);
  }

  lemma QuotedStart(line: bytes, ns: nat, t: Tok)
    requires t.Quoted? && GoodTok(t) && At(line, ns, TokText(t))
    ensures ns + 1 < |line| && line[ns] == t.q && IsQuote(line[ns]) && At(line, ns + 1, PiecesText(t.pieces) + [t.q])
  {
    var u := PiecesText(t.pieces) + [t.q];
    assert TokText(t) == [t.q] + u;
    hide TokText;
    AtSplit(line, ns, [t.q], u);
    AtByte(line, ns, t.q);
  }

  lemma TokenSound(line: bytes, p: nat) returns (b: bytes, t: Tok)
    requires p <= |line| && NoCr(line, p) && NextToken(line, p).Token? && NextToken(line, p).ns < NextToken(line, p).ne
    ensures Blanks(b) && GoodTok(t) && At(line, p, b) && At(line, p + |b|, TokText(t))
    ensures var e := p + |b| + |TokText(t)|; NextToken(line, p) == Token(e, p + |b|, e) && Ends(line, t, e)
  {
    hide NextToken, QuoteEnd, At;
    var k := NextToken(line, p);
    TokenParts(line, p);
    b := line[p..k.ns];
    if IsQuote(line[k.ns]) {
      t := QuotedSound(line, k.ns);
    } else {
      t := BareSound(line, p);
    }
  }

  lemma TokenParts(line: bytes, p: nat)
    requires p <= |line| && NoCr(line, p) && NextToken(line, p).Token? && NextToken(line, p).ns < NextToken(line, p).ne
    ensures var k := NextToken(line, p);
            && p <= k.ns < k.ne == k.next <= |line| && Blanks(line[p..k.ns]) && At(line, p, line[p..k.ns])
            && (IsQuote(line[k.ns]) ==> QuoteEnd(line, k.ns + 1, line[k.ns]) == Some(k.ne))
  {
    hide QuoteEnd, Scan, Blanks, At, NextToken;
    var ns := Scan(line, p, NotSp);
    BlankFront(line, p, ns);
    NextTokenIs(line, p, ns);
  }

  lemma BlankFront(line: bytes, p: nat, ns: nat)
    requires p <= |line| && ns == Scan(line, p, NotSp)
    ensures p <= ns <= |line| && Blanks(line[p..ns]) && At(line, p, line[p..ns])
  {
  }

  lemma QuotedSound(line: bytes, ns: nat) returns (t: Tok)
    requires ns < |line| && NoCr(line, ns) && IsQuote(line[ns]) && QuoteEnd(line, ns + 1, line[ns]).Some?
    ensures t.Quoted? && GoodTok(t) && At(line, ns, TokText(t))
    ensures QuoteEnd(line, ns + 1, line[ns]).value == ns + |TokText(t)|
  {
    hide QuoteEnd, At;
    var xs := QuoteSound(line, ns + 1, line[ns]);
    t := Quoted(line[ns], xs);
    assert TokText(t) == [t.q] + (PiecesText(xs) + [t.q]);
    AtByte(line, ns, t.q);
    AtSplit(line, ns, [t.q], PiecesText(xs) + [t.q]);
  }

  lemma BareSound(line: bytes, p: nat) returns (t: Tok)
    requires p <= |line| && NoCr(line, p) && NextToken(line, p).Token? && NextToken(line, p).ns < NextToken(line, p).ne
    requires !IsQuote(line[NextToken(line, p).ns])
    ensures var k := NextToken(line, p);
            t == Bare(line[k.ns..k.ne]) && GoodTok(t) && At(line, k.ns, TokText(t)) && Ends(line, t, k.ne)
  {
    var k := NextToken(line, p);
    t := Bare(line[k.ns..k.ne]);
    hide QuoteEnd;
  }

  /** Nothing but blanks: no token. */
  lemma NoTokenIff(line: bytes, p: nat)
    requires p <= |line| && NoCr(line, p)
    ensures var k := NextToken(line, p);
            k.Token? && k.ns >= k.ne <==> Blanks(line[p..])
    ensures Blanks(line[p..]) ==> NextToken(line, p) == Token(|line|, |line|, |line|)
  {
    if Blanks(line[p..]) {
      assert forall i :: p <= i < |line| ==> line[i] == line[p..][i - p];
      ScanIs(line, p, NotSp, |line|);
    }
  }

  // Numbers

  /** A decimal number of ngx_int_t. */
  predicate Numeral(t: bytes) {
    && t != [] && (forall i :: 0 <= i < |t| ==> 48 <= t[i] <= 57)
    && AllDigits(t) && DecimalValue(t) <= 9223372036854775807
  }

  lemma NumberIff(t: bytes)
    ensures Atoi(t).Number? <==> Numeral(t)
    ensures Numeral(t) ==> Atoi(t) == Number(DecimalValue(t))
  {
    WireOverflow.AtoiIs(t);
    if AllDigits(t) {
      ScanIs(t, 0, WireOverflow.NotDigit, |t|);
      assert t[..|t|] == t;
    }
    if WireOverflow.Digits(t) == t {
      assert AllDigits(t);
    }
  }

  // Header lines

  /** Behind the sid: blanks, a reply-to with the blanks behind it or none, the length, blanks. */
  datatype Tail = Tail(b: bytes, reply: Option<Tok>, c: bytes, length: Tok, end: bytes)

  /** "MSG" in any case, then subject, sid and tail, each behind blanks. */
  datatype Line = Line(head: bytes, b: bytes, subject: Tok, c: bytes, sid: Tok, tail: Tail)

  function ReplyText(x: Tail): bytes {
    if x.reply.Some? then TokText(x.reply.value) + x.c else []
  }

  function TailText(x: Tail): bytes {
    x.b + (ReplyText(x) + (TokText(x.length) + x.end))
  }

  function LineText(l: Line): bytes {
    l.head + (l.b + (TokText(l.subject) + (l.c + (TokText(l.sid) + TailText(l.tail)))))
  }

  /** Blanks may be missing only behind a quoted token. */
  predicate GoodTail(x: Tail) {
    && Blanks(x.b) && Blanks(x.c) && Blanks(x.end) && GoodTok(x.length) && Numeral(TokText(x.length))
    && (x.reply.Some? ==> GoodTok(x.reply.value) && (x.reply.value.Bare? ==> x.c != []))
    && (x.reply.None? ==> x.c == [])
  }

  predicate GoodLine(l: Line) {
    && InAnyCase(l.head, [77, 83, 71]) && l.b != [] && Blanks(l.b) && Blanks(l.c)
    && GoodTok(l.subject) && (l.subject.Bare? ==> l.c != [])
    && GoodTok(l.sid) && Numeral(TokText(l.sid)) && (l.sid.Bare? ==> l.tail.b != []) && GoodTail(l.tail)
  }

  function ReplySpan(x: Tail, p: nat): Span {
    if x.reply.Some? then Span(p + |x.b|, |TokText(x.reply.value)|) else Span(0, 0)
  }

  function Value(t: Tok): nat
    requires Numeral(TokText(t))
  {
    DecimalValue(TokText(t))
  }

  /** Where the fields of a line stand. */
  function LineFields(l: Line): (r: MsgHead)
    requires GoodLine(l)
    ensures r.Head?
  {
    var p := |l.head| + |l.b| + |TokText(l.subject)| + |l.c| + |TokText(l.sid)|;
    Head(Span(|l.head| + |l.b|, |TokText(l.subject)|), Value(l.sid), ReplySpan(l.tail, p), Value(l.tail.length))
  }

  lemma BlanksAreBlank(line: bytes, p: nat, b: bytes)
    requires Blanks(b) && At(line, p, b)
    ensures forall i :: p <= i < p + |b| ==> line[i] == 32
  {
    forall i | p <= i < p + |b|
      ensures line[i] == 32
    {
      AtIndex(line, p, b, i - p);
    }
  }

  lemma AtEnd(line: bytes, p: nat, b: bytes)
    requires At(line, p, b) && p + |b| == |line|
    ensures line[p..] == b
  {
  }

  lemma TailAccepted(line: bytes, p: nat, subject: Span, sid: nat, x: Tail)
    requires NoCr(line, p) && GoodTail(x) && At(line, p, TailText(x)) && p + |TailText(x)| == |line|
    ensures p <= |line|
    ensures ParseMsgTail(line, p, subject, sid) == Head(subject, sid, ReplySpan(x, p), Value(x.length))
  {
    hide NextToken, Atoi, At, TokText, GoodTok, Numeral;
    var lt := TokText(x.length);
    AtSplit(line, p, x.b, ReplyText(x) + (lt + x.end));
    AtSplit(line, p + |x.b|, ReplyText(x), lt + x.end);
    var q := p + |x.b| + |ReplyText(x)|;
    AtSplit(line, q, lt, x.end);
    var e := q + |lt|;
    BlanksAreBlank(line, e, x.end);
    AtEnd(line, e, x.end);
    NumberIff(lt);
    AtIsSlice(line, q, lt);
    if x.reply.None? {
      TokenAccepted(line, p, x.b, x.length);
      BlankEnd(line, e);
    } else {
      var rt := TokText(x.reply.value);
      AtSplit(line, p + |x.b|, rt, x.c);
      var r := p + |x.b| + |rt|;
      BlanksAreBlank(line, r, x.c);
      TokenAccepted(line, p, x.b, x.reply.value);
      TokenAccepted(line, r, x.c, x.length);
      BlankEnd(line, e);
    }
  }

  lemma AtIsSlice(line: bytes, p: nat, t: bytes)
    requires At(line, p, t)
    ensures p + |t| <= |line| && line[p..p + |t|] == t
  {
  }

  /** Blanks up to the end give no further token, from the end either. */
  lemma BlankEnd(line: bytes, e: nat)
    requires e <= |line| && NoCr(line, e) && Blanks(line[e..])
    ensures NextToken(line, e) == Token(|line|, |line|, |line|)
    ensures NextToken(line, |line|) == Token(|line|, |line|, |line|)
  {
    NoTokenIff(line, e);
    NoTokenIff(line, |line|);
  }

  lemma TailLaid(line: bytes, p: nat, x: Tail)
    requires At(line, p, x.b)
    requires var q := p + |x.b| + |ReplyText(x)|;
             && At(line, p + |x.b|, ReplyText(x)) && At(line, q, TokText(x.length))
             && At(line, q + |TokText(x.length)|, x.end)
    ensures At(line, p, TailText(x))
    ensures |TailText(x)| == |x.b| + |ReplyText(x)| + |TokText(x.length)| + |x.end|
  {
    hide At, TokText, ReplyText;
    var lt := TokText(x.length);
    AtSplit(line, p + |x.b| + |ReplyText(x)|, lt, x.end);
    AtSplit(line, p + |x.b|, ReplyText(x), lt + x.end);
    AtSplit(line, p, x.b, ReplyText(x) + (lt + x.end));
  }

  /** A token right behind a bare one would belong to it. */
  lemma BlankBetween(line: bytes, e: nat, t: Tok, c: bytes, u: Tok)
    requires Ends(line, t, e) && e < |line| && GoodTok(u) && At(line, e, c) && At(line, e + |c|, TokText(u))
    ensures t.Bare? ==> c != []
  {
    AtIndex(line, e + |c|, TokText(u), 0);
  }

  lemma RestAt(line: bytes, p: nat)
    requires p <= |line|
    ensures At(line, p, line[p..])
  {
  }

  lemma TailSound(line: bytes, p: nat, subject: Span, sid: nat) returns (x: Tail)
    requires p <= |line| && NoCr(line, p) && ParseMsgTail(line, p, subject, sid).Head?
    ensures GoodTail(x) && At(line, p, TailText(x)) && p + |TailText(x)| == |line|
    ensures ParseMsgTail(line, p, subject, sid) == Head(subject, sid, ReplySpan(x, p), Value(x.length))
  {
    hide NextToken, Atoi, At, TokText, GoodTok, Numeral, TailText;
    var t3 := NextToken(line, p);
    var b, first := TokenSound(line, p);
    var e := t3.next;
    NoTokenIff(line, e);
    if e == |line| || NextToken(line, e).ns >= NextToken(line, e).ne {
      assert Blanks(line[e..]);
      x := OneToken(line, p, b, first);
      AtIsSlice(line, p + |b|, TokText(first));
      NumberIff(TokText(first));
    } else {
      var c, second := TokenSound(line, e);
      BlankBetween(line, e, first, c, second);
      var f := NextToken(line, e).next;
      NoTokenIff(line, f);
      x := Tail(b, Some(first), c, second, line[f..]);
      RestAt(line, f);
      AtSplit(line, p + |b|, TokText(first), c);
      TailLaid(line, p, x);
      AtIsSlice(line, e + |c|, TokText(second));
      NumberIff(TokText(second));
    }
  }

  /** A tail of one token: nothing but blanks behind it. */
  lemma OneToken(line: bytes, p: nat, b: bytes, t: Tok) returns (x: Tail)
    requires p <= |line| && NoCr(line, p) && Blanks(b) && GoodTok(t) && At(line, p, b) && At(line, p + |b|, TokText(t))
    requires var e := p + |b| + |TokText(t)|; e <= |line| && Blanks(line[e..])
    ensures x.b == b && x.reply == None && x.c == [] && x.length == t && Blanks(x.end)
    ensures At(line, p, TailText(x)) && p + |TailText(x)| == |line|
  {
    hide NextToken, TokText, GoodTok, TailText;
    var e := p + |b| + |TokText(t)|;
    x := Tail(b, None, [], t, line[e..]);
    RestAt(line, e);
    TailLaid(line, p, x);
  }

  /** Where the parts of a line stand. */
  predicate LineLaid(line: bytes, l: Line) {
    var p := |l.head|;
    var q := p + |l.b| + |TokText(l.subject)|;
    var r := q + |l.c| + |TokText(l.sid)|;
    && At(line, 0, l.head) && At(line, p, l.b) && At(line, p + |l.b|, TokText(l.subject))
    && At(line, q, l.c) && At(line, q + |l.c|, TokText(l.sid))
    && At(line, r, TailText(l.tail)) && r + |TailText(l.tail)| == |line|
  }

  lemma LineLaidIff(line: bytes, l: Line)
    ensures line == LineText(l) <==> LineLaid(line, l)
  {
    hide At, TokText, TailText;
    var t1, t2, x := TokText(l.subject), TokText(l.sid), TailText(l.tail);
    var p := |l.head|;
    var q := p + |l.b| + |t1|;
    AtWhole(line, LineText(l));
    AtSplit(line, 0, l.head, l.b + (t1 + (l.c + (t2 + x))));
    AtSplit(line, p, l.b, t1 + (l.c + (t2 + x)));
    AtSplit(line, p + |l.b|, t1, l.c + (t2 + x));
    AtSplit(line, q, l.c, t2 + x);
    AtSplit(line, q + |l.c|, t2, x);
    assert |LineText(l)| == q + |l.c| + |t2| + |x|;
  }

  lemma AtWhole(s: bytes, t: bytes)
    ensures s == t <==> At(s, 0, t) && |s| == |t|
  {
    if |s| == |t| {
      assert s[0..0 + |t|] == s;
    }
  }

  lemma BlankBehind(line: bytes, e: nat, t: Tok, c: bytes)
    requires Blanks(c) && At(line, e, c) && (t.Bare? ==> c != [])
    ensures Ends(line, t, e)
  {
    if c != [] {
      AtIndex(line, e, c, 0);
    }
  }

  lemma LineAccepted(line: bytes, l: Line)
    requires GoodLine(l) && line == LineText(l) && NoCr(line, 3)
    ensures |line| > 3 && line[3] == 32 && ParseMsgHead(line, 3) == LineFields(l)
  {
    hide NextToken, Atoi, At, TokText, GoodTok, Numeral, TailText, LineText, ParseMsgTail, GoodTail;
    LineLaidIff(line, l);
    var t1, t2 := TokText(l.subject), TokText(l.sid);
    var q := 3 + |l.b| + |t1|;
    var r := q + |l.c| + |t2|;
    BlanksAreBlank(line, 3, l.b);
    BlankBehind(line, q, l.subject, l.c);
    TokenAccepted(line, 3, l.b, l.subject);
    TailStart(line, r, l.sid, l.tail);
    TokenAccepted(line, q, l.c, l.sid);
    NumberIff(t2);
    AtIsSlice(line, q + |l.c|, t2);
    TailAccepted(line, r, Span(3 + |l.b|, |t1|), Value(l.sid), l.tail);
  }

  /** What a tail starts with lets the sid end, and there is something of it. */
  lemma TailStart(line: bytes, r: nat, sid: Tok, x: Tail)
    requires GoodTail(x) && At(line, r, TailText(x)) && (sid.Bare? ==> x.b != [])
    ensures Ends(line, sid, r) && r < |line|
  {
    hide At, TokText;
    var rest := ReplyText(x) + (TokText(x.length) + x.end);
    AtSplit(line, r, x.b, rest);
    BlankBehind(line, r, sid, x.b);
    AtBound(line, r, TailText(x));
  }

  lemma AtBound(line: bytes, r: nat, t: bytes)
    requires At(line, r, t)
    ensures r + |t| <= |line|
  {
  }

  lemma LineSound(line: bytes) returns (l: Line)
    requires |line| > 3 && line[3] == 32 && NoCr(line, 3) && InAnyCase(line[..3], [77, 83, 71])
    requires ParseMsgHead(line, 3).Head?
    ensures GoodLine(l) && line == LineText(l) && ParseMsgHead(line, 3) == LineFields(l)
  {
    hide NextToken, Atoi, At, TokText, GoodTok, Numeral, TailText, LineText, ParseMsgTail, GoodTail;
    SubjectIsToken(line);
    var b, first := TokenSound(line, 3);
    var q := NextToken(line, 3).next;
    SidIsToken(line, q);
    var c, second := TokenSound(line, q);
    var r := NextToken(line, q).next;
    BlankBetween(line, q, first, c, second);
    NumberIff(TokText(second));
    AtIsSlice(line, q + |c|, TokText(second));
    var x := TailSound(line, r, Span(3 + |b|, |TokText(first)|), Value(second));
    TailFirst(line, r, second, x);
    l := Line(line[..3], b, first, c, second, x);
    FirstBlank(line, b, first);
    AtHead(line);
    LineLaidIff(line, l);
  }

  lemma AtHead(line: bytes)
    requires |line| > 3
    ensures At(line, 0, line[..3]) && |line[..3]| == 3
  {
  }

  /** The first token of an accepted header is there, and so is the second. */
  lemma SubjectIsToken(line: bytes)
    requires |line| > 3 && NoCr(line, 3) && ParseMsgHead(line, 3).Head?
    ensures var k := NextToken(line, 3); k.Token? && k.ns < k.ne == k.next < |line|
  {
    hide NextToken, Atoi, ParseMsgTail;
  }

  lemma SidIsToken(line: bytes, q: nat)
    requires |line| > 3 && NoCr(line, 3) && ParseMsgHead(line, 3).Head? && q == NextToken(line, 3).next
    ensures q <= |line|
    ensures var k := NextToken(line, q);
            k.Token? && k.ns < k.ne == k.next < |line| && Atoi(line[k.ns..k.ne]).Number?
    ensures var k, t1 := NextToken(line, q), NextToken(line, 3);
            ParseMsgHead(line, 3) ==
            ParseMsgTail(line, k.next, Span(t1.ns, t1.ne - t1.ns), Atoi(line[k.ns..k.ne]).value)
  {
    hide NextToken, ParseMsgTail, AtoiFrom;
  }

  lemma FirstBlank(line: bytes, b: bytes, t: Tok)
    requires |line| > 3 && line[3] == 32 && At(line, 3, b) && At(line, 3 + |b|, TokText(t)) && GoodTok(t)
    ensures b != []
  {
    if b == [] {
      AtIndex(line, 3, TokText(t), 0);
    }
  }

  lemma TailFirst(line: bytes, r: nat, sid: Tok, x: Tail)
    requires Ends(line, sid, r) && r < |line| && GoodTail(x) && At(line, r, TailText(x))
    ensures sid.Bare? ==> x.b != []
  {
    hide At, TokText;
    var rest := ReplyText(x) + (TokText(x.length) + x.end);
    AtSplit(line, r, x.b, rest);
    if x.b == [] {
      if x.reply.Some? {
        var rt := TokText(x.reply.value);
        assert rest == rt + (x.c + (TokText(x.length) + x.end));
        AtSplit(line, r, rt, x.c + (TokText(x.length) + x.end));
        FirstOfToken(line, r, x.reply.value);
      } else {
        assert rest == TokText(x.length) + x.end;
        AtSplit(line, r, TokText(x.length), x.end);
        FirstOfToken(line, r, x.length);
      }
    }
  }

  lemma FirstOfToken(line: bytes, r: nat, t: Tok)
    requires GoodTok(t) && At(line, r, TokText(t))
    ensures r < |line| && line[r] != 32
  {
    AtIndex(line, r, TokText(t), 0);
  }

  lemma {:induction false} PiecesNoCr(xs: seq<Piece>, q: byte)
    requires GoodPieces(xs, q)
    ensures forall i :: 0 <= i < |PiecesText(xs)| ==> PiecesText(xs)[i] != 13
  {
    if xs != [] {
      PiecesNoCr(xs[1..], q);
    }
  }

  lemma TokNoCr(t: Tok)
    requires GoodTok(t)
    ensures NoCr(TokText(t), 0)
  {
    if t.Quoted? {
      PiecesNoCr(t.pieces, t.q);
    }
  }

  lemma NoCrJoin(a: bytes, b: bytes)
    requires NoCr(a, 0) && NoCr(b, 0)
    ensures NoCr(a + b, 0)
  {
  }

  lemma WordNoCr(w: bytes, t: bytes)
    requires InAnyCase(w, t) && NoCr(t, 0)
    ensures NoCr(w, 0)
  {
  }

  lemma TailNoCr(x: Tail)
    requires GoodTail(x)
    ensures NoCr(TailText(x), 0)
  {
    hide TokText, GoodTok, Numeral;
    TokNoCr(x.length);
    if x.reply.Some? {
      TokNoCr(x.reply.value);
    }
    assert NoCr(x.b, 0) && NoCr(x.c, 0) && NoCr(x.end, 0);
    hide NoCr;
    if x.reply.Some? {
      NoCrJoin(TokText(x.reply.value), x.c);
    } else {
      NothingNoCr();
    }
    NoCrJoin(TokText(x.length), x.end);
    NoCrJoin(ReplyText(x), TokText(x.length) + x.end);
    NoCrJoin(x.b, ReplyText(x) + (TokText(x.length) + x.end));
  }

  lemma NothingNoCr()
    ensures NoCr([], 0)
  {
  }

  lemma LineNoCr(l: Line)
    requires GoodLine(l)
    ensures NoCr(LineText(l), 0)
  {
    hide TokText, GoodTok, Numeral, GoodTail, TailText;
    TokNoCr(l.subject);
    TokNoCr(l.sid);
    TailNoCr(l.tail);
    WordNoCr(l.head, [77, 83, 71]);
    assert NoCr(l.b, 0) && NoCr(l.c, 0);
    hide NoCr;
    NoCrJoin(TokText(l.sid), TailText(l.tail));
    NoCrJoin(l.c, TokText(l.sid) + TailText(l.tail));
    NoCrJoin(TokText(l.subject), l.c + (TokText(l.sid) + TailText(l.tail)));
    NoCrJoin(l.b, TokText(l.subject) + (l.c + (TokText(l.sid) + TailText(l.tail))));
    NoCrJoin(l.head, l.b + (TokText(l.subject) + (l.c + (TokText(l.sid) + TailText(l.tail)))));
  }

  // Messages

  /** The six header words. */
  function WordOf(kind: Kind): bytes {
    match kind
    case KOk => [43, 79, 75]
    case KErr => [45, 69, 82, 82]
    case KPing => [80, 73, 78, 71]
    case KPong => [80, 79, 78, 71]
    case KInfo => [73, 78, 70, 79]
    case KMsg => [77, 83, 71]
  }

  /** A message without text, with a text, or with a payload. */
  datatype Shape =
    | BareShape(kind: Kind, word: bytes)
    | TextShape(kind: Kind, word: bytes, b: bytes, text: bytes)
    | MsgShape(line: Line, payload: bytes)

  const LINE_END: bytes := [13, 10]

  function ShapeText(sh: Shape): bytes {
    match sh
    case BareShape(_, word) => word + LINE_END
    case TextShape(_, word, b, text) => word + (b + (text + LINE_END))
    case MsgShape(line, payload) => LineText(line) + (LINE_END + (payload + LINE_END))
  }

  /** A text may start with a CR but holds none behind its first byte. */
  predicate GoodText(text: bytes) {
    text != [] && text[0] != 32 && forall i :: 1 <= i < |text| ==> text[i] != 13
  }

  predicate GoodShape(sh: Shape) {
    match sh
    case BareShape(kind, word) => kind != KInfo && kind != KMsg && InAnyCase(word, WordOf(kind))
    case TextShape(kind, word, b, text) =>
      (kind == KErr || kind == KInfo) && InAnyCase(word, WordOf(kind)) && b != [] && Blanks(b) && GoodText(text)
    case MsgShape(line, payload) => GoodLine(line) && |payload| == Value(line.tail.length)
  }

  function ShapeFields(sh: Shape): Msg
    requires GoodShape(sh)
  {
    match sh
    case BareShape(kind, _) =>
      var b := if kind == KErr then 4 else 0; Msg(kind, 0, Span(0, 0), Span(0, 0), b, b)
    case TextShape(kind, word, b, text) =>
      Msg(kind, 0, Span(0, 0), Span(0, 0), |word| + |b|, |word| + |b| + |text|)
    case MsgShape(line, payload) =>
      var h, b := LineFields(line), |LineText(line)| + 2;
      Msg(KMsg, h.sid, h.subject, h.replyto, b, b + |payload|)
  }

  predicate NoLower(t: bytes) {
    forall i :: 0 <= i < |t| ==> !(97 <= t[i] <= 122)
  }

  lemma FoldIff(w: bytes, t: bytes)
    requires NoLower(t)
    ensures SameFold(w, t) <==> InAnyCase(w, t)
  {
    if |w| == |t| {
      assert forall i :: 0 <= i < |t| ==> (Lower(w[i]) == Lower(t[i]) <==>
        w[i] == t[i] || (65 <= t[i] <= 90 && w[i] == t[i] + 32));
    }
  }

  predicate IsStop(b: byte) { b == 10 || b == 32 || b == 13 }

  /** A header word ends where the first stop stands. */
  lemma WordScanned(s: bytes, w: bytes, kind: Kind)
    requires InAnyCase(w, WordOf(kind)) && At(s, 0, w) && |w| < |s| && IsStop(s[|w|])
    ensures Scan(s, 0, IsHeaderStop) == |w| && s[..|w|] == w
  {
    forall i | 0 <= i < |w|
      ensures !IsHeaderStop(s[i])
    {
      AtIndex(s, 0, w, i);
    }
    ScanIs(s, 0, IsHeaderStop, |w|);
    assert s[0..0 + |w|] == s[..|w|];
  }

  /** What the parser goes on to behind a header word. */
  function Behind(s: bytes, h: nat, kind: Kind): Verdict
    requires h < |s|
  {
    match kind
    case KMsg => ParseMsg(s, h)
    case KErr => ParseErr(s, h)
    case KInfo => ParseInfo(s, h)
    case _ => ParseBare(s, h, kind)
  }

  lemma Dispatched(s: bytes, kind: Kind)
    requires var p := Scan(s, 0, IsHeaderStop); p < |s| && s[p] != 10 && InAnyCase(s[..p], WordOf(kind))
    ensures Parse(s) == Behind(s, |WordOf(kind)|, kind)
  {
    hide ParseMsg, ParseErr, ParseInfo, ParseBare, Scan, SameFold;
    var p := Scan(s, 0, IsHeaderStop);
    WordsFold(s[..p]);
    OneWord(s[..p], kind);
    assert p == |WordOf(kind)|;
  }

  lemma WordsFold(w: bytes)
    ensures SameFold(w, TEXT_OK) <==> InAnyCase(w, WordOf(KOk))
    ensures SameFold(w, TEXT_ERR) <==> InAnyCase(w, WordOf(KErr))
    ensures SameFold(w, TEXT_PING) <==> InAnyCase(w, WordOf(KPing))
    ensures SameFold(w, TEXT_PONG) <==> InAnyCase(w, WordOf(KPong))
    ensures SameFold(w, TEXT_INFO) <==> InAnyCase(w, WordOf(KInfo))
    ensures SameFold(w, TEXT_MSG) <==> InAnyCase(w, WordOf(KMsg))
  {
    hide SameFold, InAnyCase;
    FoldIff(w, WordOf(KOk));
    FoldIff(w, WordOf(KErr));
    FoldIff(w, WordOf(KPing));
    FoldIff(w, WordOf(KPong));
    FoldIff(w, WordOf(KInfo));
    FoldIff(w, WordOf(KMsg));
  }

  /** No text is two of the words. */
  lemma OneWord(w: bytes, kind: Kind)
    requires InAnyCase(w, WordOf(kind))
    ensures |w| == |WordOf(kind)|
    ensures forall k :: k != kind ==> !InAnyCase(w, WordOf(k))
  {
    forall k | k != kind
      ensures !InAnyCase(w, WordOf(k))
    {
      var i := if kind == KMsg || k == KMsg || kind == KOk || k == KOk then 0
               else if {kind, k} == {KPing, KPong} then 1 else 0;
      if |w| == |WordOf(k)| {
        assert i < |w| && w[i] != WordOf(k)[i];
      }
    }
  }

  lemma CrScanned(s: bytes, p: nat, n: nat)
    requires p <= n < |s| && s[n] == 13 && forall i :: p <= i < n ==> s[i] != 13
    ensures Scan(s, p, IsCr) == n
  {
    ScanIs(s, p, IsCr, n);
  }

  lemma LineEndAt(s: bytes, n: nat)
    ensures At(s, n, LINE_END) <==> n + 1 < |s| && s[n] == 13 && s[n + 1] == 10
  {
    if n + 1 < |s| {
      assert s[n..n + 2] == [s[n], s[n + 1]];
    }
  }

  lemma BareAccepted(s: bytes, sh: Shape)
    requires sh.BareShape? && GoodShape(sh) && At(s, 0, ShapeText(sh))
    ensures Parse(s) == Frame(|ShapeText(sh)|, ShapeFields(sh))
  {
    hide At, Parse;
    var h := |sh.word|;
    AtSplit(s, 0, sh.word, LINE_END);
    LineEndAt(s, h);
    WordScanned(s, sh.word, sh.kind);
    Dispatched(s, sh.kind);
    hide Scan, InAnyCase;
    if sh.kind == KErr {
      ErrBare(s, h);
    }
  }

  lemma ErrBare(s: bytes, h: nat)
    requires h + 1 < |s| && s[h] == 13
    ensures ParseErr(s, h) ==
            if s[h + 1] == 10 then Frame(h + 2, Msg(KErr, 0, Span(0, 0), Span(0, 0), h, h)) else Bad(InvalidMsg)
  {
  }

  /** A text behind blanks, up to its CR LF. */
  lemma TextRead(s: bytes, h: nat, kind: Kind, b: bytes, text: bytes)
    requires (kind == KErr || kind == KInfo) && b != [] && Blanks(b) && GoodText(text)
    requires At(s, h, b) && At(s, h + |b|, text) && At(s, h + |b| + |text|, LINE_END)
    ensures h < |s|
    ensures var e := h + |b| + |text|;
            Behind(s, h, kind) == Frame(e + 2, Msg(kind, 0, Span(0, 0), Span(0, 0), h + |b|, e))
  {
    hide At;
    var p, e := h + |b|, h + |b| + |text|;
    AtIndex(s, p, text, 0);
    LineEndAt(s, e);
    BlanksScanned(s, h, b);
    forall i | p + 1 <= i < e
      ensures s[i] != 13
    {
      AtIndex(s, p, text, i - p);
    }
    CrScanned(s, p + 1, e);
    hide Scan;
  }

  lemma TextAccepted(s: bytes, sh: Shape)
    requires sh.TextShape? && GoodShape(sh) && At(s, 0, ShapeText(sh))
    ensures Parse(s) == Frame(|ShapeText(sh)|, ShapeFields(sh))
  {
    hide At, Parse, Behind, GoodText;
    var h := |sh.word|;
    AtSplit(s, 0, sh.word, sh.b + (sh.text + LINE_END));
    AtSplit(s, h, sh.b, sh.text + LINE_END);
    AtSplit(s, h + |sh.b|, sh.text, LINE_END);
    AtIndex(s, h, sh.b, 0);
    WordScanned(s, sh.word, sh.kind);
    Dispatched(s, sh.kind);
    TextRead(s, h, sh.kind, sh.b, sh.text);
    hide Scan, InAnyCase, Blanks;
    assert |ShapeText(sh)| == h + |sh.b| + |sh.text| + 2;
  }

  /** A header line up to its CR LF, and what the parser makes of it. */
  lemma LineRead(s: bytes, l: Line)
    requires GoodLine(l) && At(s, 0, LineText(l)) && At(s, |LineText(l)|, LINE_END)
    ensures Parse(s) == ParsePayload(s, |LineText(l)| + 2, LineFields(l).subject, LineFields(l).sid,
                                     LineFields(l).replyto, LineFields(l).len)
  {
    hide At, Parse, LineText, ParsePayload, GoodLine, LineFields;
    var n := |LineText(l)|;
    LineNoCr(l);
    AtIsSlice(s, 0, LineText(l));
    assert s[..n] == s[0..0 + n] == LineText(l);
    LineEndAt(s, n);
    LineAccepted(s[..n], l);
    assert s[3] == s[..n][3];
    LineHead(s, l);
    CrScanned(s, 3, n);
    MsgOfLine(s, n);
  }

  lemma MsgOfLine(s: bytes, n: nat)
    requires 3 < n && n + 1 < |s| && s[3] == 32 && Scan(s, 3, IsCr) == n && s[n + 1] == 10 && NoCr(s[..n], 3)
    requires ParseMsgHead(s[..n], 3).Head?
    ensures var h := ParseMsgHead(s[..n], 3);
            ParseMsg(s, 3) == ParsePayload(s, n + 2, h.subject, h.sid, h.replyto, h.len)
  {
    hide ParseMsgHead, ParsePayload, Scan;
  }

  lemma LineHead(s: bytes, l: Line)
    requires GoodLine(l) && |LineText(l)| <= |s| && s[..|LineText(l)|] == LineText(l) && |LineText(l)| > 3 && s[3] == 32
    ensures Parse(s) == ParseMsg(s, 3) && forall i :: 0 <= i < |LineText(l)| ==> s[i] == LineText(l)[i]
  {
    hide Parse, TokText, GoodTok, Numeral, TailText, GoodTail;
    LineLaidIff(LineText(l), l);
    hide LineText;
    var n := |LineText(l)|;
    assert forall i :: 0 <= i < n ==> s[i] == s[..n][i];
    HeadAt(s, LineText(l), l.head);
    WordScanned(s, l.head, KMsg);
    Dispatched(s, KMsg);
  }

  lemma HeadAt(s: bytes, line: bytes, w: bytes)
    requires At(line, 0, w) && |line| <= |s| && s[..|line|] == line
    ensures At(s, 0, w)
  {
    assert s[0..0 + |w|] == line[0..0 + |w|];
  }

  lemma MsgAccepted(s: bytes, sh: Shape)
    requires sh.MsgShape? && GoodShape(sh) && At(s, 0, ShapeText(sh))
    ensures Parse(s) == Frame(|ShapeText(sh)|, ShapeFields(sh))
  {
    hide At, Parse, LineText, GoodLine;
    var n := |LineText(sh.line)|;
    var b := n + 2;
    AtSplit(s, 0, LineText(sh.line), LINE_END + (sh.payload + LINE_END));
    AtSplit(s, n, LINE_END, sh.payload + LINE_END);
    AtSplit(s, b, sh.payload, LINE_END);
    LineEndAt(s, b + |sh.payload|);
    LineRead(s, sh.line);
  }

  lemma ShapeAccepted(s: bytes, sh: Shape)
    requires GoodShape(sh) && At(s, 0, ShapeText(sh))
    ensures Parse(s) == Frame(|ShapeText(sh)|, ShapeFields(sh))
  {
    hide Parse, At, GoodShape, ShapeText, ShapeFields;
    match sh
    case BareShape(_, _) => BareAccepted(s, sh);
    case TextShape(_, _, _, _) => TextAccepted(s, sh);
    case MsgShape(_, _) => MsgAccepted(s, sh);
  }

  // Whatever is recognised

  lemma HeaderSound(s: bytes) returns (kind: Kind)
    requires Parse(s).Frame?
    ensures var h := |WordOf(kind)|;
            && h < |s| && InAnyCase(s[..h], WordOf(kind)) && At(s, 0, s[..h]) && Parse(s) == Behind(s, h, kind)
  {
    hide ParseMsg, ParseErr, ParseInfo, ParseBare, InAnyCase, SameFold;
    var p := Scan(s, 0, IsHeaderStop);
    WordsFold(s[..p]);
    if p == 3 {
      kind := if SameFold(s[..3], TEXT_OK) then KOk else KMsg;
    } else {
      kind := if SameFold(s[..4], TEXT_ERR) then KErr else if SameFold(s[..4], TEXT_PING) then KPing
              else if SameFold(s[..4], TEXT_PONG) then KPong else KInfo;
    }
  }

  lemma TextSound(s: bytes, h: nat, kind: Kind) returns (b: bytes, text: bytes)
    requires h < |s| && s[h] == 32 && (kind == KErr || kind == KInfo) && Behind(s, h, kind).Frame?
    ensures b != [] && Blanks(b) && GoodText(text)
    ensures At(s, h, b) && At(s, h + |b|, text) && At(s, h + |b| + |text|, LINE_END)
  {
    var p := Scan(s, h, NotSp);
    var n := Scan(s, p + 1, IsCr);
    assert Behind(s, h, kind) == ParseText(s, p, kind);
    b, text := s[h..p], s[p..n];
    LineEndAt(s, n);
  }

  lemma EndSound(s: bytes, h: nat, kind: Kind)
    requires h < |s| && Behind(s, h, kind).Frame? && kind != KMsg
    requires s[h] != 32 || kind == KOk || kind == KPing || kind == KPong
    ensures At(s, h, LINE_END) && kind != KInfo
  {
    LineEndAt(s, h);
  }

  lemma MsgSound(s: bytes) returns (sh: Shape)
    requires |s| > 3 && InAnyCase(s[..3], [77, 83, 71]) && ParseMsg(s, 3).Frame?
    ensures sh.MsgShape? && GoodShape(sh) && At(s, 0, ShapeText(sh))
  {
    hide ParseMsgHead, ParsePayload, InAnyCase, GoodLine, LineText, LineFields;
    var cr := Scan(s, 3, IsCr);
    assert s[..cr][..3] == s[..3];
    var l := LineSound(s[..cr]);
    var h := ParseMsgHead(s[..cr], 3);
    LengthIs(l);
    sh := PayloadSound(s, cr, l, h);
  }

  lemma LengthIs(l: Line)
    requires GoodLine(l)
    ensures Numeral(TokText(l.tail.length)) && LineFields(l).len == Value(l.tail.length)
  {
    hide Numeral;
  }

  lemma PayloadSound(s: bytes, cr: nat, l: Line, h: MsgHead) returns (sh: Shape)
    requires GoodLine(l) && cr + 1 < |s| && s[cr] == 13 && s[cr + 1] == 10 && s[..cr] == LineText(l)
    requires Numeral(TokText(l.tail.length)) && h.Head? && h.len == Value(l.tail.length)
    requires ParsePayload(s, cr + 2, h.subject, h.sid, h.replyto, h.len).Frame?
    ensures sh.MsgShape? && GoodShape(sh) && At(s, 0, ShapeText(sh))
  {
    hide GoodLine, LineText, Numeral, TokText, At;
    var b := cr + 2;
    var e := b + h.len;
    sh := MsgShape(l, s[b..e]);
    LineEndAt(s, cr);
    LineEndAt(s, e);
    SliceAt(s, 0, cr);
    SliceAt(s, b, e);
    assert s[0..cr] == s[..cr];
    AtSplit(s, b, sh.payload, LINE_END);
    AtSplit(s, cr, LINE_END, sh.payload + LINE_END);
    AtSplit(s, 0, LineText(l), LINE_END + (sh.payload + LINE_END));
  }

  lemma SliceAt(s: bytes, p: nat, e: nat)
    requires p <= e <= |s|
    ensures At(s, p, s[p..e])
  {
  }

  /** Whatever the parser recognises starts with a text of the grammar. */
  lemma ShapeSound(s: bytes) returns (sh: Shape)
    requires Parse(s).Frame?
    ensures GoodShape(sh) && At(s, 0, ShapeText(sh))
  {
    hide Parse, ParseMsg, At, InAnyCase, Behind, ShapeText, GoodShape;
    var kind := HeaderSound(s);
    if kind == KMsg {
      assert Behind(s, 3, kind) == ParseMsg(s, 3) by { BehindMsg(s); }
      sh := MsgSound(s);
    } else {
      sh := OtherSound(s, kind);
    }
  }

  lemma OtherSound(s: bytes, kind: Kind) returns (sh: Shape)
    requires kind != KMsg
    requires var h := |WordOf(kind)|;
             h < |s| && InAnyCase(s[..h], WordOf(kind)) && At(s, 0, s[..h]) && Behind(s, h, kind).Frame?
    ensures GoodShape(sh) && At(s, 0, ShapeText(sh))
  {
    hide At, InAnyCase, Behind, Blanks, GoodText, ShapeText;
    var h := |WordOf(kind)|;
    if s[h] == 32 && (kind == KErr || kind == KInfo) {
      var b, text := TextSound(s, h, kind);
      sh := TextShape(kind, s[..h], b, text);
      TextShapeAt(s, sh, h);
    } else {
      EndSound(s, h, kind);
      sh := BareShape(kind, s[..h]);
      BareShapeAt(s, sh);
    }
  }

  lemma BareShapeAt(s: bytes, sh: Shape)
    requires sh.BareShape? && At(s, 0, sh.word) && At(s, |sh.word|, LINE_END)
    ensures At(s, 0, ShapeText(sh))
  {
    hide At;
    AtSplit(s, 0, sh.word, LINE_END);
  }

  lemma BehindMsg(s: bytes)
    requires |s| > 3
    ensures Behind(s, 3, KMsg) == ParseMsg(s, 3)
  {
  }

  lemma TextShapeAt(s: bytes, sh: Shape, h: nat)
    requires sh.TextShape? && h == |sh.word| && At(s, 0, sh.word) && At(s, h, sh.b) && At(s, h + |sh.b|, sh.text)
    requires At(s, h + |sh.b| + |sh.text|, LINE_END)
    ensures At(s, 0, ShapeText(sh))
  {
    hide At;
    AtSplit(s, h + |sh.b|, sh.text, LINE_END);
    AtSplit(s, h, sh.b, sh.text + LINE_END);
    AtSplit(s, 0, sh.word, sh.b + (sh.text + LINE_END));
  }

  /** s starts with this text of the grammar, which has n bytes and these fields. */
  ghost predicate Starts(s: bytes, sh: Shape, n: nat, m: Msg) {
    GoodShape(sh) && At(s, 0, ShapeText(sh)) && n == |ShapeText(sh)| && m == ShapeFields(sh)
  }

  /** A message of n bytes is recognised exactly when the bytes start with such a text, and with its fields. */
  lemma FrameIff(s: bytes, n: nat, m: Msg)
    ensures Parse(s) == Frame(n, m) <==> exists sh :: Starts(s, sh, n, m)
  {
    hide Parse, GoodShape, ShapeText, ShapeFields, At;
    if Parse(s) == Frame(n, m) {
      var sh := ShapeSound(s);
      ShapeAccepted(s, sh);
      assert Starts(s, sh, n, m);
    }
    if sh :| Starts(s, sh, n, m) {
      ShapeAccepted(s, sh);
    }
  }

  // Refused and unfinished messages

  /** No CR in [p, n), and one at n with something behind it. */
  predicate FirstCr(s: bytes, p: nat, n: nat) {
    p <= n && n + 1 < |s| && s[n] == 13 && forall i :: p <= i < n ==> s[i] != 13
  }

  /** A text behind blanks whose CR is not followed by LF. */
  predicate TextRefused(s: bytes, h: nat, b: nat, n: nat) {
    h <= b < n && n <= |s| && Blanks(s[h..b]) && s[b] != 32 && FirstCr(s, b + 1, n) && s[n + 1] != 10
  }

  /** The line up to n is one of the grammar, its payload is there, and behind that is no CR LF. */
  ghost predicate PayloadRefused(s: bytes, n: nat, l: Line) {
    && GoodLine(l) && n <= |s| && s[..n] == LineText(l)
    && var e := n + 2 + Value(l.tail.length);
    e + 2 <= |s| && !(s[e] == 13 && s[e + 1] == 10)
  }

  ghost predicate IsGoodLine(line: bytes) {
    exists l :: GoodLine(l) && LineText(l) == line
  }

  /** A header line that is complete but wrong, or whose payload is there but not closed. */
  ghost predicate LineRefused(s: bytes, n: nat) {
    && FirstCr(s, 3, n)
    && (s[n + 1] != 10 || !IsGoodLine(s[..n]) || exists l :: PayloadRefused(s, n, l))
  }

  /** What is refused behind the header word of h bytes. */
  ghost predicate RefusedAs(s: bytes, h: nat, kind: Kind)
    requires h < |s|
  {
    match kind
    case KMsg => s[h] != 32 || exists n :: LineRefused(s, n)
    case KErr =>
      if s[h] == 13 then h + 1 < |s| && s[h + 1] != 10
      else s[h] != 32 || exists b, n :: TextRefused(s, h, b, n)
    case KInfo => s[h] != 32 || exists b, n :: TextRefused(s, h, b, n)
    case _ => s[h] != 13 || (h + 1 < |s| && s[h + 1] != 10)
  }

  predicate WordIs(s: bytes, h: nat, kind: Kind) {
    h <= |s| && InAnyCase(s[..h], WordOf(kind))
  }

  /** The header is settled and not one of the six, or it is one and what follows is refused. */
  ghost predicate Refused(s: bytes) {
    var h := Scan(s, 0, IsStop);
    && h < |s|
    && (|| s[h] == 10
        || (forall kind :: !WordIs(s, h, kind))
        || exists kind :: WordIs(s, h, kind) && RefusedAs(s, h, kind))
  }

  lemma StopsAgree(s: bytes)
    ensures Scan(s, 0, IsStop) == Scan(s, 0, IsHeaderStop)
  {
    ScanIs(s, 0, IsStop, Scan(s, 0, IsHeaderStop));
  }

  lemma TextBadIff(s: bytes, h: nat, kind: Kind)
    requires h < |s| && s[h] == 32 && (kind == KErr || kind == KInfo)
    ensures Behind(s, h, kind).Bad? <==> exists b, n :: TextRefused(s, h, b, n)
  {
    var b := Scan(s, h, NotSp);
    if b < |s| {
      var n := Scan(s, b + 1, IsCr);
      if n + 1 < |s| && s[n + 1] != 10 {
        assert TextRefused(s, h, b, n);
      }
    }
    if c: nat, n: nat :| TextRefused(s, h, c, n) {
      TextRefusedBad(s, h, kind, c, n);
    }
  }

  lemma TextRefusedBad(s: bytes, h: nat, kind: Kind, b: nat, n: nat)
    requires h < |s| && s[h] == 32 && (kind == KErr || kind == KInfo) && TextRefused(s, h, b, n)
    ensures Behind(s, h, kind).Bad?
  {
    assert forall i :: h <= i < b ==> s[i] == s[h..b][i - h];
    ScanIs(s, h, NotSp, b);
    CrScanned(s, b + 1, n);
    hide Scan;
  }

  lemma GoodLineIff(line: bytes)
    requires |line| > 3 && line[3] == 32 && NoCr(line, 3) && InAnyCase(line[..3], [77, 83, 71])
    ensures ParseMsgHead(line, 3).Head? <==> IsGoodLine(line)
  {
    hide ParseMsgHead, GoodLine, LineText, InAnyCase, LineFields;
    if ParseMsgHead(line, 3).Head? {
      var l := LineSound(line);
    }
    if l :| GoodLine(l) && LineText(l) == line {
      LineAccepted(line, l);
    }
  }

  lemma PayloadBadIff(s: bytes, n: nat, l: Line)
    requires FirstCr(s, 3, n) && s[n + 1] == 10 && |s| > 3 && s[3] == 32 && GoodLine(l) && s[..n] == LineText(l)
    ensures ParseMsg(s, 3).Bad? <==> PayloadRefused(s, n, l)
  {
    hide GoodLine, LineText, ParseMsgHead, LineFields, Numeral, TokText;
    LineAccepted(s[..n], l);
    CrScanned(s, 3, n);
    LengthIs(l);
    assert 3 < n;
    MsgOfLine(s, n);
    hide ParseMsg, Scan;
  }

  lemma MsgBadIff(s: bytes)
    requires |s| > 3 && s[3] == 32 && InAnyCase(s[..3], [77, 83, 71])
    ensures ParseMsg(s, 3).Bad? <==> exists n :: LineRefused(s, n)
  {
    hide GoodLine, LineText, ParseMsgHead, InAnyCase, PayloadRefused, ParsePayload, IsGoodLine;
    var n := Scan(s, 3, IsCr);
    if n + 1 < |s| {
      assert FirstCr(s, 3, n);
      if s[n + 1] == 10 {
        LineBadIff(s, n);
      }
      assert ParseMsg(s, 3).Bad? ==> LineRefused(s, n);
    }
    if k :| LineRefused(s, k) {
      CrScanned(s, 3, k);
    }
  }

  lemma LineBadIff(s: bytes, n: nat)
    requires |s| > 3 && s[3] == 32 && InAnyCase(s[..3], [77, 83, 71]) && FirstCr(s, 3, n) && s[n + 1] == 10
    ensures ParseMsg(s, 3).Bad? <==> !IsGoodLine(s[..n]) || exists l :: PayloadRefused(s, n, l)
  {
    hide GoodLine, LineText, ParseMsgHead, InAnyCase, PayloadRefused, ParsePayload, Scan, ParseMsg, LineFields;
    LineFront(s, n);
    GoodLineIff(s[..n]);
    if IsGoodLine(s[..n]) {
      var l :| GoodLine(l) && LineText(l) == s[..n];
      PayloadBadIff(s, n, l);
      if k :| PayloadRefused(s, n, k) {
        RefusedIsLine(s, n, k);
        PayloadBadIff(s, n, k);
      }
    } else {
      NoHeadIsBad(s, n);
    }
  }

  lemma RefusedIsLine(s: bytes, n: nat, l: Line)
    requires PayloadRefused(s, n, l)
    ensures GoodLine(l) && n <= |s| && s[..n] == LineText(l)
  {
  }

  lemma LineFront(s: bytes, n: nat)
    requires |s| > 3 && s[3] == 32 && FirstCr(s, 3, n)
    ensures 3 < n && |s[..n]| > 3 && s[..n][3] == 32 && NoCr(s[..n], 3) && s[..n][..3] == s[..3]
  {
  }

  lemma NoHeadIsBad(s: bytes, n: nat)
    requires |s| > 3 && s[3] == 32 && FirstCr(s, 3, n) && s[n + 1] == 10 && NoCr(s[..n], 3) && 3 < n
    requires !ParseMsgHead(s[..n], 3).Head?
    ensures ParseMsg(s, 3).Bad?
  {
    hide ParseMsgHead;
    CrScanned(s, 3, n);
  }

  lemma BehindBadIff(s: bytes, h: nat, kind: Kind)
    requires h < |s| && s[h] != 10 && WordIs(s, h, kind) && h == |WordOf(kind)|
    ensures Behind(s, h, kind).Bad? <==> RefusedAs(s, h, kind)
  {
    hide InAnyCase, LineRefused, TextRefused;
    if kind == KMsg {
      if s[h] == 32 {
        hide ParseMsg;
        MsgBadIff(s);
      }
    } else if (kind == KErr || kind == KInfo) && s[h] == 32 {
      TextBadIff(s, h, kind);
      hide Behind;
    } else if kind == KErr && s[h] == 13 && h + 1 < |s| {
      ErrBare(s, h);
    }
  }

  /** A text is refused exactly in these cases; otherwise, if it is not recognised, more bytes are waited for. */
  lemma BadIff(s: bytes)
    ensures Parse(s).Bad? <==> Refused(s)
  {
    hide ParseMsg, ParseErr, ParseInfo, ParseBare, Scan, SameFold, RefusedAs, InAnyCase;
    StopsAgree(s);
    var h := Scan(s, 0, IsStop);
    if h < |s| && s[h] != 10 {
      WordsFold(s[..h]);
      if kind :| WordIs(s, h, kind) {
        KindBadIff(s, h, kind);
      } else {
        NoWordIsBad(s, h);
      }
    }
  }

  lemma KindBadIff(s: bytes, h: nat, kind: Kind)
    requires h == Scan(s, 0, IsHeaderStop) < |s| && s[h] != 10 && WordIs(s, h, kind)
    ensures Parse(s).Bad? <==> exists k :: WordIs(s, h, k) && RefusedAs(s, h, k)
  {
    hide Parse, Behind, RefusedAs, Scan, InAnyCase;
    Dispatched(s, kind);
    OneWord(s[..h], kind);
    BehindBadIff(s, h, kind);
    if k :| WordIs(s, h, k) && RefusedAs(s, h, k) {
      assert k == kind;
    }
  }

  lemma NoWordIsBad(s: bytes, h: nat)
    requires h == Scan(s, 0, IsHeaderStop) < |s| && s[h] != 10 && forall kind :: !WordIs(s, h, kind)
    ensures Parse(s) == Bad(InvalidHeader)
  {
    hide ParseMsg, ParseErr, ParseInfo, ParseBare, Scan, SameFold, InAnyCase;
    WordsFold(s[..h]);
    assert !WordIs(s, h, KOk) && !WordIs(s, h, KErr) && !WordIs(s, h, KPing) && !WordIs(s, h, KPong);
    assert !WordIs(s, h, KInfo) && !WordIs(s, h, KMsg);
  }
}
