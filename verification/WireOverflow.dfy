/**
 * Decimal fields that leave ngx_int_t. The source computes them without a range check, so C gives such messages no
 * meaning; here is exactly which messages they are, and what becomes of one where the arithmetic wraps.
 */
module WireOverflow {
  import opened Bytes
  import opened Wire
  import opened WireContent
  import JsonNumber

  predicate NotDigit(b: byte) { !IsDigit(b) }

  /** The number in front of the first byte that is no digit is above ngx_int_t. */
  predicate Excess(t: bytes) {
    DecimalValue(Digits(t)) > I64_MAX
  }

  /** The digits t starts with. */
  function Digits(t: bytes): (d: bytes)
    ensures AllDigits(d)
  {
    t[..Scan(t, 0, NotDigit)]
  }

  /** What the decimal loop answers from i on, in terms of the digits of t alone. */
  lemma {:induction false} AtoiFromIs(t: bytes, i: nat)
    requires i <= |t| && AllDigits(t[..i]) && DecimalValue(t[..i]) <= I64_MAX
    ensures var k := Scan(t, i, NotDigit);
            && AllDigits(t[..k])
            && AtoiFrom(t, i, DecimalValue(t[..i])) ==
               if DecimalValue(t[..k]) > I64_MAX then TooBig
               else if k < |t| then NotANumber
               else Number(DecimalValue(t[..k]))
    decreases |t| - i
  {
    if i < |t| && IsDigit(t[i]) {
      DigitsUpTo(t, i, Scan(t, i, NotDigit));
      DigitsGrow(t, i, Scan(t, i, NotDigit));
      if DecimalValue(t[..i + 1]) <= I64_MAX {
        AtoiFromIs(t, i + 1);
      }
    }
  }

  lemma DigitsGrow(t: bytes, i: nat, k: nat)
    requires i < k <= |t| && AllDigits(t[..k]) && AllDigits(t[..i]) && AllDigits(t[..i + 1])
    ensures DecimalValue(t[..i]) * 10 + (t[i] - ZERO) == DecimalValue(t[..i + 1]) <= DecimalValue(t[..k])
  {
    var d := t[..k];
    assert d[..i] == t[..i] && d[..i + 1] == t[..i + 1] && d[i] == t[i];
    DecimalGrows(d, i);
  }

  lemma DigitsUpTo(t: bytes, i: nat, k: nat)
    requires i < |t| && AllDigits(t[..i]) && IsDigit(t[i]) && k == Scan(t, i, NotDigit)
    ensures i < k && AllDigits(t[..k]) && AllDigits(t[..i + 1])
  {
    forall j | 0 <= j < k
      ensures IsDigit(t[j])
    {
      if j < i {
        assert t[..i][j] == t[j];
      }
    }
  }

  /** A field is read as its value exactly when it is a decimal number of ngx_int_t. */
  lemma AtoiIs(t: bytes)
    ensures Atoi(t) ==
            if Excess(t) then TooBig
            else if t == [] || Digits(t) != t then NotANumber
            else Number(DecimalValue(t))
  {
    if t != [] {
      assert t[..0] == [];
      AtoiFromIs(t, 0);
      assert t[..|t|] == t;
    }
  }

  // Which messages

  function Field(line: bytes, w: Span): bytes
    requires w.End() <= |line|
  {
    line[w.start..w.End()]
  }

  /** The sid of a header line: its second token, with something behind it. */
  function SidField(line: bytes, h: nat): (r: Option<Span>)
    requires h <= |line| && NoCr(line, h)
    ensures r.Some? ==> h <= r.value.End() <= |line|
  {
    var t1 := NextToken(line, h);
    if t1.NoToken? || t1.next == |line| then None
    else
      var t2 := NextToken(line, t1.next);
      if t2.NoToken? || t2.next == |line| then None else Some(Span(t2.ns, t2.ne - t2.ns))
  }

  /** The length behind the sid: the last of one or two tokens. */
  function LengthField(line: bytes, p: nat): (r: Option<Span>)
    requires p <= |line| && NoCr(line, p)
    ensures r.Some? ==> r.value.End() <= |line|
  {
    var t3 := NextToken(line, p);
    if t3.NoToken? || t3.ns >= t3.ne then None
    else if t3.next == |line| then Some(Span(t3.ns, t3.ne - t3.ns))
    else
      var t4 := NextToken(line, t3.next);
      if t4.NoToken? then None
      else
        var t5 := NextToken(line, t4.next);
        if t5.NoToken? || t5.next < |line| || t5.ns < t5.ne then None
        else if t4.ns < t4.ne then Some(Span(t4.ns, t4.ne - t4.ns))
        else Some(Span(t3.ns, t3.ne - t3.ns))
  }

  /** The sid of the line is too big, or it is a number and the length is too big. */
  predicate ExcessLine(line: bytes, h: nat)
    requires h <= |line| && NoCr(line, h)
  {
    && SidField(line, h).Some?
    && var w := SidField(line, h).value;
    || Excess(Field(line, w))
    || (&& Field(line, w) != [] && Digits(Field(line, w)) == Field(line, w)
        && LengthField(line, w.End()).Some? && Excess(Field(line, LengthField(line, w.End()).value)))
  }

  lemma TailOverflowIff(line: bytes, p: nat, subject: Span, sid: nat)
    requires p <= |line| && NoCr(line, p)
    ensures ParseMsgTail(line, p, subject, sid) == BadHead(Overflow) <==>
            LengthField(line, p).Some? && Excess(Field(line, LengthField(line, p).value))
  {
    hide NextToken, Atoi, Excess, Digits;
    if LengthField(line, p).Some? {
      AtoiIs(Field(line, LengthField(line, p).value));
    }
  }

  lemma HeadOverflowIff(line: bytes, h: nat)
    requires h <= |line| && NoCr(line, h)
    ensures ParseMsgHead(line, h) == BadHead(Overflow) <==> ExcessLine(line, h)
  {
    hide NextToken, Atoi, Excess, Digits, ParseMsgTail, LengthField;
    if SidField(line, h).Some? {
      var w := SidField(line, h).value;
      var t1 := NextToken(line, h);
      AtoiIs(Field(line, w));
      if Atoi(Field(line, w)).Number? {
        TailOverflowIff(line, w.End(), Span(t1.ns, t1.ne - t1.ns), Atoi(Field(line, w)).value);
      }
    }
  }

  /** A MSG with a complete header line in which a decimal field is too big. */
  predicate Unreadable(s: bytes) {
    && |s| > 3 && SameFold(s[..3], TEXT_MSG) && s[3] == SP
    && var cr := Scan(s, 3, IsCr);
    cr + 1 < |s| && s[cr + 1] == LF && ExcessLine(s[..cr], 3)
  }

  lemma MsgOverflowIff(s: bytes)
    requires |s| > 3 && s[3] == SP
    ensures var cr := Scan(s, 3, IsCr);
            ParseMsg(s, 3) == Bad(Overflow) <==> cr + 1 < |s| && s[cr + 1] == LF && ExcessLine(s[..cr], 3)
  {
    hide ParseMsgHead, ExcessLine;
    var cr := Scan(s, 3, IsCr);
    if cr + 1 < |s| && s[cr + 1] == LF {
      HeadOverflowIff(s[..cr], 3);
    }
  }

  /** The parser meets a number it cannot compute exactly on these messages. */
  lemma OverflowIff(s: bytes)
    ensures Parse(s) == Bad(Overflow) <==> Unreadable(s)
  {
    hide ParseMsg, ExcessLine, SameFold;
    if |s| > 3 {
      if s[3] == SP {
        MsgOverflowIff(s);
        if SameFold(s[..3], TEXT_MSG) {
          FoldIsHeader(s);
        }
      } else {
        MsgNeedsBlank(s);
      }
    }
  }

  lemma MsgNeedsBlank(s: bytes)
    requires |s| > 3 && s[3] != SP
    ensures ParseMsg(s, 3) == Bad(InvalidMsg)
  {
  }

  lemma FoldIsHeader(s: bytes)
    requires |s| > 3 && SameFold(s[..3], TEXT_MSG) && s[3] == SP
    ensures Scan(s, 0, IsHeaderStop) == 3 && Parse(s) == ParseMsg(s, 3)
  {
    forall i | 0 <= i < 3
      ensures !IsHeaderStop(s[i])
    {
      assert Lower(s[..3][i]) == Lower(TEXT_MSG[i]);
    }
    ScanIs(s, 0, IsHeaderStop, 3);
    assert !SameFold(s[..3], TEXT_OK) by { assert Lower(s[..3][0]) == Lower(TEXT_MSG[0]); }
    hide ParseMsg, SameFold, Scan, IsHeaderStop;
  }

  // Fields of at most 18 digits

  lemma {:induction false} DecimalBelow(d: bytes)
    requires AllDigits(d)
    ensures DecimalValue(d) < Pow10(|d|)
  {
    if d != [] {
      DecimalBelow(d[..|d| - 1]);
    }
  }

  lemma {:induction false} Pow10Grows(m: nat, n: nat)
    requires m <= n
    ensures Pow10(m) <= Pow10(n)
    decreases n
  {
    if m < n {
      Pow10Grows(m, n - 1);
    }
  }

  lemma ShortIsSafe(t: bytes)
    requires |Digits(t)| <= 18
    ensures !Excess(t)
  {
    DecimalBelow(Digits(t));
    Pow10Grows(|Digits(t)|, 18);
    assert Pow10(5) == 10_0000;
    assert Pow10(10) == 100_0000_0000;
    assert Pow10(15) == 1000_0000_0000_0000;
    assert Pow10(18) == 100_0000_0000_0000_0000;
  }

  /** Decimal fields of at most 18 digits are always computed: what is unreadable has a longer one. */
  lemma UnreadableIsLong(s: bytes)
    requires Parse(s) == Bad(Overflow)
    ensures Unreadable(s)
    ensures var line := s[..Scan(s, 3, IsCr)];
            var w := SidField(line, 3).value;
            |Digits(Field(line, w))| > 18 ||
            (LengthField(line, w.End()).Some? && |Digits(Field(line, LengthField(line, w.End()).value))| > 18)
  {
    hide Parse, NextToken, SidField, LengthField, Excess, Digits;
    OverflowIff(s);
    var line := s[..Scan(s, 3, IsCr)];
    var w := SidField(line, 3).value;
    if |Digits(Field(line, w))| <= 18 {
      ShortIsSafe(Field(line, w));
      var l := LengthField(line, w.End()).value;
      if |Digits(Field(line, l))| <= 18 {
        ShortIsSafe(Field(line, l));
      }
    }
  }

  // A length that is too big

  /** A header line as the protocol writes it, with a length above ngx_int_t. */
  lemma LongLength(subject: bytes, sid: nat, len: nat, rest: bytes)
    requires Plain(subject) && sid <= I64_MAX < len
    ensures Parse(MsgLine(subject, sid, [], len) + CRLF + rest) == Bad(Overflow)
  {
    var line := MsgLine(subject, sid, [], len);
    var s := line + CRLF + rest;
    LongLine(subject, sid, len);
    hide MsgLine, Plain, Parse, ExcessLine, Scan;
    LineEnds(line, rest);
    StartsAlike(s, line);
    OverflowIff(s);
  }

  lemma LineEnds(line: bytes, rest: bytes)
    requires |line| >= 4 && NoCr(line, 0)
    ensures var s := line + CRLF + rest; Scan(s, 3, IsCr) == |line| && s[..|line|] == line && s[|line| + 1] == LF
  {
    var s := line + CRLF + rest;
    assert forall i :: 0 <= i < |line| ==> s[i] == line[i];
    ScanIs(s, 3, IsCr, |line|);
  }

  lemma LongLine(subject: bytes, sid: nat, len: nat)
    requires Plain(subject) && sid <= I64_MAX < len
    ensures var line := MsgLine(subject, sid, [], len);
            |line| >= 4 && line[..3] == TEXT_MSG && line[3] == SP && NoCr(line, 0) && ExcessLine(line, 3)
  {
    var d, l := Decimal(sid), Decimal(len);
    var line := MsgLine(subject, sid, [], len);
    DecimalIsPlain(sid);
    DecimalIsPlain(len);
    DigitsOfDecimal(sid);
    DigitsOfDecimal(len);
    hide Decimal, Plain, Digits, Excess, ExcessLine, SidField, LengthField, Laid;
    MsgLineNoCr(subject, d, [], l);
    LineLaid(line, subject, d, [], l);
    LaidStart(line, subject, d, [], l);
    assert line[..3] == TEXT_MSG;
    LaidFields(line, subject, d, l);
    ExcessLaid(line, subject, d, l);
  }

  lemma DigitsOfDecimal(n: nat)
    ensures Digits(Decimal(n)) == Decimal(n) && (Excess(Decimal(n)) <==> n > I64_MAX)
  {
    var d := Decimal(n);
    ScanIs(d, 0, NotDigit, |d|);
    assert d[..|d|] == d;
  }

  /** Where the two numbers of a laid out line are found. */
  lemma LaidFields(line: bytes, subject: bytes, d: bytes, l: bytes)
    requires Plain(subject) && Plain(d) && Plain(l) && Laid(line, subject, d, [], l) && NoCr(line, 0)
    ensures SidField(line, 3) == Some(Span(5 + |subject|, |d|))
    ensures LengthField(line, 5 + |subject| + |d|) == Some(Span(6 + |subject| + |d|, |l|))
    ensures 6 + |subject| + |d| + |l| == |line|
    ensures line[5 + |subject|..5 + |subject| + |d|] == d && line[6 + |subject| + |d|..] == l
  {
    hide NextToken;
    NextIsPlain(line, 3, subject);
    NextIsPlain(line, 4 + |subject|, d);
    NextIsPlain(line, 5 + |subject| + |d|, l);
  }

  lemma ExcessLaid(line: bytes, subject: bytes, d: bytes, l: bytes)
    requires |line| >= 3 && NoCr(line, 3) && d != [] && Digits(d) == d && Excess(l)
    requires 6 + |subject| + |d| + |l| == |line|
    requires SidField(line, 3) == Some(Span(5 + |subject|, |d|))
    requires LengthField(line, 5 + |subject| + |d|) == Some(Span(6 + |subject| + |d|, |l|))
    requires line[5 + |subject|..5 + |subject| + |d|] == d && line[6 + |subject| + |d|..] == l
    ensures ExcessLine(line, 3)
  {
    hide SidField, LengthField, Excess, Digits;
    assert Field(line, Span(5 + |subject|, |d|)) == d;
    assert Field(line, Span(6 + |subject| + |d|, |l|)) == l;
  }

  // Where the arithmetic wraps

  /** The decimal loop on 64 bits with wrap-around, from t[i..], having reached v. */
  function WrapFrom(t: bytes, i: nat, v: nat): Option<nat>
    requires i <= |t|
    decreases |t| - i
  {
    if i == |t| then Some(v)
    else if !IsDigit(t[i]) then None
    else WrapFrom(t, i + 1, (v * 10 + (t[i] - ZERO)) % U64)
  }

  lemma {:induction false} WrapIs(t: bytes, i: nat)
    requires i <= |t| && AllDigits(t)
    ensures WrapFrom(t, i, DecimalValue(t[..i]) % U64) == Some(DecimalValue(t) % U64)
    decreases |t| - i
  {
    if i == |t| {
      assert t[..i] == t;
    } else {
      DecimalGrows(t, i);
      WrapStep(DecimalValue(t[..i]), t[i] - ZERO);
      WrapIs(t, i + 1);
    }
  }

  lemma WrapStep(v: nat, d: nat)
    ensures (v % U64 * 10 + d) % U64 == (v * 10 + d) % U64
  {
    var q, r := v / U64, v % U64;
    assert v * 10 + d == (r * 10 + d) + 10 * q * U64;
    WrapTurns(r * 10 + d, 10 * q);
  }

  lemma WrapTurns(x: nat, k: nat)
    ensures (x + k * U64) % U64 == x % U64
  {
    assert x + k * U64 == (x / U64 + k) * U64 + x % U64;
  }

  /**
   * Behind a complete header line, with the payload to start at b, a negative length w passes the test for the
   * closing CR LF exactly when it is -2: the test then finds the end of the header line itself.
   */
  lemma NegativeLength(s: bytes, cr: nat, w: int)
    requires cr + 1 < |s| && (forall i :: 0 <= i < cr ==> s[i] != CR) && s[cr] == CR && s[cr + 1] == LF
    requires -(cr + 2) <= w < 0
    ensures var b := cr + 2; s[b + w] == CR && b + w + 1 < |s| && s[b + w + 1] == LF <==> w == -2
  {
  }

  /** Where the arithmetic wraps, this text of len bytes is taken for a message that ends before its payload starts. */
  ghost predicate TakenInverted(s: bytes, b: nat, len: nat) {
    && WrapFrom(Decimal(len), 0, 0).Some? && WrapFrom(Decimal(len), 0, 0).value < U64
    && var w := JsonNumber.Signed(WrapFrom(Decimal(len), 0, 0).value);
    w < 0 && 0 <= b + w && b + w + 2 <= |s| && s[b + w] == CR && s[b + w + 1] == LF
  }

  /** Any subject and sid with the length 18446744073709551614: no meaning here, an inverted payload when it wraps. */
  lemma WrappedLength(subject: bytes, sid: nat, len: nat)
    requires Plain(subject) && sid <= I64_MAX && len == U64 - 2
    ensures var line := MsgLine(subject, sid, [], len);
            Parse(line + CRLF) == Bad(Overflow) && TakenInverted(line + CRLF, |line| + 2, len)
  {
    hide MsgLine, Decimal, Parse, Plain, WrapFrom;
    var line := MsgLine(subject, sid, [], len);
    LongLength(subject, sid, len, []);
    assert line + CRLF + [] == line + CRLF;
    var d: bytes := Decimal(len);
    assert d[..0] == [];
    WrapIs(d, 0);
    assert (line + CRLF)[|line|] == CR && (line + CRLF)[|line| + 1] == LF;
  }

  /** "MSG a 1 18446744073709551614" CR LF. */
  lemma WrappedExample()
    ensures var line := MsgLine([97], 1, [], 18446744073709551614);
            Parse(line + CRLF) == Bad(Overflow) && TakenInverted(line + CRLF, |line| + 2, 18446744073709551614)
  {
    assert Plain([97]);
    hide MsgLine, Parse, Plain, TakenInverted;
    WrappedLength([97], 1, 18446744073709551614);
  }
}
