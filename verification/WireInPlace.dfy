/** The parser as it runs: index loops over the receive buffer, NULs written into it on success. */
module WireInPlace {
  import opened Bytes
  import opened Wire
  import opened WireStability
  import opened WireContent

  /** The bytes handed to the parser: len of them from `base` on. */
  ghost predicate Window(a: array<byte>, base: nat, s: bytes)
    reads a
  {
    base + |s| <= a.Length && forall i :: 0 <= i < |s| ==> a[base + i] == s[i]
  }

  method AtoiInPlace(a: array<byte>, base: nat, n: nat, ghost t: bytes) returns (r: Number)
    requires Window(a, base, t) && |t| == n
    ensures r == Atoi(t)
  {
    if n == 0 {
      return NotANumber;
    }
    var value: nat := 0;
    var i := 0;
    while i < n
      invariant i <= n
      invariant AtoiFrom(t, i, value) == Atoi(t)
    {
      if a[base + i] < ZERO || a[base + i] > NINE {
        return NotANumber;
      }
      if value * 10 + (a[base + i] - ZERO) > I64_MAX {
        return TooBig;
      }
      value := value * 10 + (a[base + i] - ZERO);
      i := i + 1;
    }
    return Number(value);
  }

  /** The quoted scan; a[base + max] == CR stops it without a bound check. */
  method QuoteInPlace(a: array<byte>, base: nat, start: nat, max: nat, q: byte, ghost line: bytes)
    returns (r: Option<nat>)
    requires Window(a, base, line) && |line| == max && start <= max
    requires base + max < a.Length && a[base + max] == CR && IsQuote(q)
    ensures r == QuoteEnd(line, start, q)
  {
    var pos := start;
    while true
      invariant pos <= max
      invariant QuoteEnd(line, pos, q) == QuoteEnd(line, start, q)
      decreases max - pos
    {
      if a[base + pos] == BACKSLASH {
        if pos >= max - 1 {
          return None;
        }
        pos := pos + 2;
      } else if a[base + pos] == q {
        return Some(pos + 1);
      } else if pos >= max - 1 {
        return None;
      } else {
        pos := pos + 1;
      }
    }
  }

  method TokenInPlace(a: array<byte>, base: nat, start: nat, max: nat, ghost line: bytes) returns (t: Token)
    requires Window(a, base, line) && |line| == max && start <= max
    requires base + max < a.Length && a[base + max] == CR && NoCr(line, start)
    ensures t == NextToken(line, start)
  {
    var pos := start;
    while pos < max && a[base + pos] == SP
      invariant start <= pos <= max
      invariant Scan(line, pos, NotSp) == Scan(line, start, NotSp)
    {
      pos := pos + 1;
    }
    if pos == max {
      return Token(max, max, max);
    }
    var ns := pos;
    if a[base + pos] == SQUOTE || a[base + pos] == DQUOTE {
      if pos >= max - 1 {
        return NoToken;
      }
      var e := QuoteInPlace(a, base, pos + 1, max, a[base + pos], line);
      return if e.None? then NoToken else Token(e.value, ns, e.value);
    }
    while pos < max && a[base + pos] != SP && a[base + pos] != CR
      invariant ns <= pos <= max
      invariant Scan(line, pos, IsTokenStop) == Scan(line, ns, IsTokenStop)
    {
      pos := pos + 1;
    }
    return Token(pos, ns, pos);
  }

  /** "Subject Sid [reply-to] Len" between h and max. */
  method MsgHeadInPlace(a: array<byte>, base: nat, h: nat, max: nat, ghost line: bytes) returns (r: MsgHead)
    requires Window(a, base, line) && |line| == max && h <= max
    requires base + max < a.Length && a[base + max] == CR && NoCr(line, h)
    ensures r == ParseMsgHead(line, h)
  {
    hide NextToken, Atoi;
    var t := TokenInPlace(a, base, h, max, line);
    if t.NoToken? || t.next == max || t.ns >= t.ne {
      return BadHead(InvalidMsg);
    }
    var subject := Span(t.ns, t.ne - t.ns);

    t := TokenInPlace(a, base, t.next, max, line);
    if t.NoToken? || t.next == max || t.ns >= t.ne {
      return BadHead(InvalidMsg);
    }
    SubWindow(a, base, line, t.ns, t.ne);
    var sid := AtoiInPlace(a, base + t.ns, t.ne - t.ns, line[t.ns..t.ne]);
    if !sid.Number? {
      return BadHead(NumberFault(sid));
    }
    r := MsgTailInPlace(a, base, t.next, max, subject, sid.value, line);
  }

  lemma SubWindow(a: array<byte>, base: nat, s: bytes, lo: nat, hi: nat)
    requires Window(a, base, s) && lo <= hi <= |s|
    ensures Window(a, base + lo, s[lo..hi])
  {
  }

  method MsgTailInPlace(a: array<byte>, base: nat, p: nat, max: nat, subject: Span, sid: nat, ghost line: bytes)
    returns (r: MsgHead)
    requires Window(a, base, line) && |line| == max && p <= max
    requires base + max < a.Length && a[base + max] == CR && NoCr(line, p)
    ensures r == ParseMsgTail(line, p, subject, sid)
  {
    hide NextToken, Atoi;
    var t := TokenInPlace(a, base, p, max, line);
    if t.NoToken? || t.ns >= t.ne {
      return BadHead(InvalidMsg);
    }
    var replyto := NO_SPAN;
    if t.next < max {
      var t2 := TokenInPlace(a, base, t.next, max, line);
      if t2.NoToken? {
        return BadHead(InvalidMsg);
      }
      var t3 := TokenInPlace(a, base, t2.next, max, line);
      if t3.NoToken? || t3.next < max || t3.ns < t3.ne {
        return BadHead(InvalidMsg);
      }
      if t2.ns < t2.ne {
        replyto := Span(t.ns, t.ne - t.ns);
        t := t2;
      }
    }
    SubWindow(a, base, line, t.ns, t.ne);
    var len := AtoiInPlace(a, base + t.ns, t.ne - t.ns, line[t.ns..t.ne]);
    return if len.Number? then Head(subject, sid, replyto, len.value) else BadHead(NumberFault(len));
  }

  /** What a verdict leaves in the whole array: the window patched on success, nothing changed otherwise. */
  ghost function Stored(before: bytes, base: nat, s: bytes, v: Verdict): bytes
    requires base + |s| <= |before|
  {
    before[..base] + (if v.Frame? then Patched(s, v.msg) else s) + before[base + |s|..]
  }

  lemma StoredAt(before: bytes, after: bytes, base: nat, s: bytes, m: Msg, n: nat)
    requires base + |s| <= |before| == |after|
    requires forall i :: 0 <= i < base ==> after[i] == before[i]
    requires forall i :: base + |s| <= i < |before| ==> after[i] == before[i]
    requires forall k :: 0 <= k < |s| ==> after[base + k] == Patched(s, m)[k]
    ensures after == Stored(before, base, s, Frame(n, m))
  {
    hide Patched;
    var r := Stored(before, base, s, Frame(n, m));
    forall i | 0 <= i < |before|
      ensures after[i] == r[i]
    {
      if base <= i < base + |s| {
        assert r[i] == Patched(s, m)[i - base];
        assert after[base + (i - base)] == Patched(s, m)[i - base];
      }
    }
  }

  lemma NothingStored(before: bytes, base: nat, s: bytes, v: Verdict)
    requires base + |s| <= |before| && before[base..base + |s|] == s && !v.Frame?
    ensures Stored(before, base, s, v) == before
  {
  }

  /** The CR that ends the header line; len - 1 when none stands before the last byte. */
  method FindLineEnd(a: array<byte>, base: nat, h: nat, len: nat, ghost s: bytes) returns (n: nat)
    requires Window(a, base, s) && |s| == len && h < len
    ensures h <= n <= len - 1
    ensures if n < len - 1 then Scan(s, h, IsCr) == n else Scan(s, h, IsCr) >= n
  {
    n := h;
    while n < len - 1 && a[base + n] != CR
      invariant h <= n <= len - 1
      invariant Scan(s, n, IsCr) == Scan(s, h, IsCr)
    {
      n := n + 1;
    }
  }

  method MsgInPlace(a: array<byte>, base: nat, h: nat, len: nat, ghost s: bytes) returns (v: Verdict)
    requires Window(a, base, s) && |s| == len && 3 <= h < len
    modifies a
    ensures v == ParseMsg(s, h)
    ensures a[..] == Stored(old(a[..]), base, s, v)
  {
    hide ParseMsgHead, Stored, Scan;
    ghost var before := a[..];
    assert before[base..base + |s|] == s;
    if a[base + h] != SP {
      v := Bad(InvalidMsg);
      NothingStored(before, base, s, v);
      return;
    }
    var n := FindLineEnd(a, base, h, len, s);
    if n >= len - 1 {
      v := Again;
      NothingStored(before, base, s, v);
      return;
    }
    if a[base + n + 1] != LF {
      v := Bad(InvalidMsg);
      NothingStored(before, base, s, v);
      return;
    }
    v := MsgLineInPlace(a, base, h, n, len, s);
  }

  /** A header line that ends at n: its fields, then the payload. */
  method MsgLineInPlace(a: array<byte>, base: nat, h: nat, n: nat, len: nat, ghost s: bytes) returns (v: Verdict)
    requires Window(a, base, s) && |s| == len && 3 <= h < n < len - 1
    requires s[h] == SP && Scan(s, h, IsCr) == n && s[n + 1] == LF
    modifies a
    ensures v == ParseMsg(s, h)
    ensures a[..] == Stored(old(a[..]), base, s, v)
  {
    hide ParseMsgHead, Stored, ParsePayload;
    SubWindow(a, base, s, 0, n);
    assert a[base + n] == s[n] == CR && NoCr(s[..n], h);
    assert a[..][base..base + |s|] == s;
    MsgWithLine(s, h, n);
    hide Scan, ParseMsg, NoCr;
    var head := MsgHeadInPlace(a, base, h, n, s[..n]);
    MsgHeadInLine(s[..n], h);
    if head.BadHead? {
      v := Bad(head.fault);
      NothingStored(a[..], base, s, v);
      return;
    }
    v := PayloadInPlace(a, base, n + 2, len, head, s);
  }

  lemma MsgWithLine(s: bytes, h: nat, n: nat)
    requires h < n < |s| - 1 && s[h] == SP && Scan(s, h, IsCr) == n && s[n + 1] == LF && NoCr(s[..n], h)
    ensures ParseMsg(s, h) ==
            match ParseMsgHead(s[..n], h)
            case BadHead(f) => Bad(f)
            case Head(subject, sid, replyto, len) => ParsePayload(s, n + 2, subject, sid, replyto, len)
  {
    hide ParseMsgHead, ParsePayload;
  }

  /** The payload check and the three writes. */
  method PayloadInPlace(a: array<byte>, base: nat, b: nat, len: nat, head: MsgHead, ghost s: bytes) returns (v: Verdict)
    requires Window(a, base, s) && |s| == len && b <= len && head.Head?
    requires head.subject.End() < b && head.replyto.End() < b
    modifies a
    ensures v == ParsePayload(s, b, head.subject, head.sid, head.replyto, head.len)
    ensures a[..] == Stored(old(a[..]), base, s, v)
  {
    hide Stored;
    ghost var before := a[..];
    assert before[base..base + |s|] == s;
    if b + head.len + 2 > len {
      v := Again;
      NothingStored(before, base, s, v);
      return;
    }
    if a[base + b + head.len] != CR || a[base + b + head.len + 1] != LF {
      v := Bad(InvalidMsg);
      NothingStored(before, base, s, v);
      return;
    }
    var m := Msg(KMsg, head.sid, head.subject, head.replyto, b, b + head.len);
    a[base + m.subject.End()] := NUL;
    if m.replyto.len > 0 {
      a[base + m.replyto.End()] := NUL;
    }
    a[base + m.bend] := NUL;
    v := Frame(b + head.len + 2, m);
    StoredAt(before, a[..], base, s, m, v.n);
  }

  /** "-ERR" and "INFO" once the text is known to start at b. */
  method TextInPlace(a: array<byte>, base: nat, b: nat, len: nat, kind: Kind, ghost s: bytes) returns (v: Verdict)
    requires Window(a, base, s) && |s| == len && 4 <= b < len && kind.IsText()
    modifies a
    ensures v == ParseText(s, b, kind)
    ensures a[..] == Stored(old(a[..]), base, s, v)
  {
    hide Stored;
    ghost var before := a[..];
    assert before[base..base + |s|] == s;
    var n := b + 1;
    while n < len && a[base + n] != CR
      invariant b < n <= len
      invariant Scan(s, n, IsCr) == Scan(s, b + 1, IsCr)
    {
      n := n + 1;
    }
    if n >= len - 1 {
      v := Again;
      NothingStored(before, base, s, v);
    } else if a[base + n + 1] != LF {
      v := Bad(InvalidMsg);
      NothingStored(before, base, s, v);
    } else {
      v := EndText(a, base, b, n, kind, s);
    }
  }

  /** The one write of a text message. */
  method EndText(a: array<byte>, base: nat, b: nat, e: nat, kind: Kind, ghost s: bytes) returns (v: Verdict)
    requires Window(a, base, s) && e < |s| && kind.IsText()
    modifies a
    ensures v == Frame(e + 2, Msg(kind, 0, NO_SPAN, NO_SPAN, b, e))
    ensures a[..] == Stored(old(a[..]), base, s, v)
  {
    hide Stored;
    ghost var before := a[..];
    assert before[base..base + |s|] == s;
    a[base + e] := NUL;
    v := Frame(e + 2, Msg(kind, 0, NO_SPAN, NO_SPAN, b, e));
    StoredAt(before, a[..], base, s, v.msg, v.n);
  }

  method ErrInPlace(a: array<byte>, base: nat, h: nat, len: nat, ghost s: bytes) returns (v: Verdict)
    requires Window(a, base, s) && |s| == len && 4 <= h < len
    modifies a
    ensures v == ParseErr(s, h)
    ensures a[..] == Stored(old(a[..]), base, s, v)
  {
    hide Stored, ParseText;
    ghost var before := a[..];
    assert before[base..base + |s|] == s;
    var n := h;
    while n < len && a[base + n] == SP
      invariant h <= n <= len
      invariant Scan(s, n, NotSp) == Scan(s, h, NotSp)
    {
      n := n + 1;
    }
    if n >= len {
      v := Again;
      NothingStored(before, base, s, v);
    } else if n == h {
      if a[base + n] != CR {
        v := Bad(InvalidMsg);
        NothingStored(before, base, s, v);
      } else if n == len - 1 {
        v := Again;
        NothingStored(before, base, s, v);
      } else if a[base + n + 1] != LF {
        v := Bad(InvalidMsg);
        NothingStored(before, base, s, v);
      } else {
        v := EndText(a, base, h, h, KErr, s);
      }
    } else {
      v := TextInPlace(a, base, n, len, KErr, s);
    }
  }

  method InfoInPlace(a: array<byte>, base: nat, h: nat, len: nat, ghost s: bytes) returns (v: Verdict)
    requires Window(a, base, s) && |s| == len && 4 <= h < len
    modifies a
    ensures v == ParseInfo(s, h)
    ensures a[..] == Stored(old(a[..]), base, s, v)
  {
    hide Stored, ParseText;
    ghost var before := a[..];
    assert before[base..base + |s|] == s;
    var n := h;
    while n < len && a[base + n] == SP
      invariant h <= n <= len
      invariant Scan(s, n, NotSp) == Scan(s, h, NotSp)
    {
      n := n + 1;
    }
    if n >= len {
      v := Again;
      NothingStored(before, base, s, v);
    } else if n == h {
      v := Bad(InvalidMsg);
      NothingStored(before, base, s, v);
    } else {
      v := TextInPlace(a, base, n, len, KInfo, s);
    }
  }

  method BareInPlace(a: array<byte>, base: nat, h: nat, len: nat, kind: Kind, ghost s: bytes) returns (v: Verdict)
    requires Window(a, base, s) && |s| == len && h < len && !kind.HasBody()
    ensures v == ParseBare(s, h, kind)
    ensures a[..] == Stored(a[..], base, s, v)
  {
    ghost var before := a[..];
    assert before[base..base + |s|] == s;
    if a[base + h] != CR {
      v := Bad(InvalidMsg);
    } else if len < h + 2 {
      v := Again;
    } else if a[base + h + 1] != LF {
      v := Bad(InvalidMsg);
    } else {
      v := Frame(h + 2, Msg(kind, 0, NO_SPAN, NO_SPAN, 0, 0));
      StoredAt(before, before, base, s, v.msg, v.n);
    }
    hide Stored;
    if !v.Frame? {
      NothingStored(before, base, s, v);
    }
  }

  method FoldMatches(a: array<byte>, base: nat, n: nat, text: bytes, ghost s: bytes) returns (same: bool)
    requires Window(a, base, s) && n <= |s| && |text| == n
    ensures same == SameFold(s[..n], text)
  {
    var i := 0;
    while i < n
      invariant i <= n
      invariant forall j :: 0 <= j < i ==> Lower(s[j]) == Lower(text[j])
    {
      if Lower(a[base + i]) != Lower(text[i]) {
        assert s[..n][i] == s[i];
        return false;
      }
      i := i + 1;
    }
    return true;
  }

  /**
   * The whole parser on a[base..base + len]: its answer is that of Parse on those bytes; on AGAIN and on an
   * error no byte of the array changes, on success exactly the patched positions of the message do.
   */
  method ParseInPlace(a: array<byte>, base: nat, len: nat) returns (v: Verdict)
    requires base + len <= a.Length
    modifies a
    ensures v == Parse(old(a[base..base + len]))
    ensures a[..] == Stored(old(a[..]), base, old(a[base..base + len]), v)
  {
    hide Stored, ParseMsg, ParseErr, ParseInfo, ParseBare, SameFold;
    ghost var s := a[base..base + len];
    ghost var before := a[..];
    assert before[base..base + |s|] == s;
    var p := 0;
    while p < len && a[base + p] != LF && a[base + p] != SP && a[base + p] != CR
      invariant p <= len
      invariant Scan(s, p, IsHeaderStop) == Scan(s, 0, IsHeaderStop)
    {
      p := p + 1;
    }
    if p < len && a[base + p] == LF {
      v := Bad(InvalidHeader);
      NothingStored(before, base, s, v);
    } else if p >= len {
      v := Again;
      NothingStored(before, base, s, v);
    } else if p == 3 {
      v := Dispatch3(a, base, len, s);
    } else if p == 4 {
      v := Dispatch4(a, base, len, s);
    } else {
      v := Bad(InvalidHeader);
      NothingStored(before, base, s, v);
    }
  }

  method Dispatch3(a: array<byte>, base: nat, len: nat, ghost s: bytes) returns (v: Verdict)
    requires Window(a, base, s) && |s| == len && 3 < len && s[3] != LF
    requires Scan(s, 0, IsHeaderStop) == 3
    modifies a
    ensures v == Parse(s)
    ensures a[..] == Stored(old(a[..]), base, s, v)
  {
    hide Stored, ParseMsg, ParseBare, SameFold;
    ghost var before := a[..];
    assert before[base..base + |s|] == s;
    var same := FoldMatches(a, base, 3, TEXT_OK, s);
    if same {
      v := BareInPlace(a, base, 3, len, KOk, s);
      return;
    }
    same := FoldMatches(a, base, 3, TEXT_MSG, s);
    if same {
      v := MsgInPlace(a, base, 3, len, s);
      return;
    }
    v := Bad(InvalidHeader);
    NothingStored(before, base, s, v);
  }

  method Dispatch4(a: array<byte>, base: nat, len: nat, ghost s: bytes) returns (v: Verdict)
    requires Window(a, base, s) && |s| == len && 4 < len && s[4] != LF
    requires Scan(s, 0, IsHeaderStop) == 4
    modifies a
    ensures v == Parse(s)
    ensures a[..] == Stored(old(a[..]), base, s, v)
  {
    hide Stored, ParseErr, ParseInfo, ParseBare, SameFold;
    ghost var before := a[..];
    assert before[base..base + |s|] == s;
    var same := FoldMatches(a, base, 4, TEXT_ERR, s);
    if same {
      v := ErrInPlace(a, base, 4, len, s);
      return;
    }
    same := FoldMatches(a, base, 4, TEXT_PING, s);
    if same {
      v := BareInPlace(a, base, 4, len, KPing, s);
      return;
    }
    same := FoldMatches(a, base, 4, TEXT_PONG, s);
    if same {
      v := BareInPlace(a, base, 4, len, KPong, s);
      return;
    }
    same := FoldMatches(a, base, 4, TEXT_INFO, s);
    if same {
      v := InfoInPlace(a, base, 4, len, s);
      return;
    }
    v := Bad(InvalidHeader);
    NothingStored(before, base, s, v);
  }
}
