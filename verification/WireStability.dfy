/** More input never changes a verdict already given, and a message is never recognised early. */
module WireStability {
  import opened Bytes
  import opened Wire

  lemma BareStable(s: bytes, t: bytes, h: nat, kind: Kind)
    requires h < |s| && !ParseBare(s, h, kind).Again?
    ensures ParseBare(s + t, h, kind) == ParseBare(s, h, kind)
  {
  }

  lemma TextStable(s: bytes, t: bytes, b: nat, kind: Kind)
    requires b < |s| && !ParseText(s, b, kind).Again?
    ensures ParseText(s + t, b, kind) == ParseText(s, b, kind)
  {
    ScanStable(s, t, b + 1, IsCr);
  }

  lemma ErrStable(s: bytes, t: bytes, h: nat)
    requires h < |s| && !ParseErr(s, h).Again?
    ensures ParseErr(s + t, h) == ParseErr(s, h)
  {
    ScanStable(s, t, h, NotSp);
    var n := Scan(s, h, NotSp);
    if n != h {
      TextStable(s, t, n, KErr);
    }
  }

  lemma InfoStable(s: bytes, t: bytes, h: nat)
    requires h < |s| && !ParseInfo(s, h).Again?
    ensures ParseInfo(s + t, h) == ParseInfo(s, h)
  {
    ScanStable(s, t, h, NotSp);
    var n := Scan(s, h, NotSp);
    if n != h {
      TextStable(s, t, n, KInfo);
    }
  }

  lemma MsgStable(s: bytes, t: bytes, h: nat)
    requires h < |s| && !ParseMsg(s, h).Again?
    ensures ParseMsg(s + t, h) == ParseMsg(s, h)
  {
    hide ParseMsgHead;
    if s[h] == SP {
      ScanStable(s, t, h, IsCr);
      var cr := Scan(s, h, IsCr);
      assert (s + t)[..cr] == s[..cr];
    }
  }

  /** Verdict stability: AGAIN is the only answer that more bytes can change. */
  lemma VerdictStable(s: bytes, t: bytes)
    requires !Parse(s).Again?
    ensures Parse(s + t) == Parse(s)
  {
    ScanStable(s, t, 0, IsHeaderStop);
    var p := Scan(s, 0, IsHeaderStop);
    assert p >= 3 ==> (s + t)[..3] == s[..3];
    assert p >= 4 ==> (s + t)[..4] == s[..4];
    if p == 3 && s[p] != LF {
      if SameFold(s[..3], TEXT_OK) { BareStable(s, t, p, KOk); }
      else if SameFold(s[..3], TEXT_MSG) { MsgStable(s, t, p); }
    } else if p == 4 && s[p] != LF {
      if SameFold(s[..4], TEXT_ERR) { ErrStable(s, t, p); }
      else if SameFold(s[..4], TEXT_PING) { BareStable(s, t, p, KPing); }
      else if SameFold(s[..4], TEXT_PONG) { BareStable(s, t, p, KPong); }
      else if SameFold(s[..4], TEXT_INFO) { InfoStable(s, t, p); }
    }
  }

  /** Where everything a message of n bytes refers to lies: inside those bytes, in order. */
  predicate InFrame(n: nat, m: Msg) {
    && 5 <= n
    && (!m.kind.HasBody() ==> m == Msg(m.kind, 0, NO_SPAN, NO_SPAN, 0, 0))
    && (m.kind.IsText() ==>
          4 <= m.bstart <= m.bend == n - 2 && m.subject == m.replyto == NO_SPAN)
    && (m.kind == KMsg ==>
          && 4 <= m.subject.start < m.subject.End()
          && (if m.replyto.len == 0 then m.replyto == NO_SPAN && m.subject.End() < m.bstart
              else m.subject.End() < m.replyto.start && m.replyto.End() < m.bstart)
          && m.bstart <= m.bend == n - 2)
  }

  lemma MsgHeadInLine(line: bytes, h: nat)
    requires h <= |line| && NoCr(line, h)
    ensures var r := ParseMsgHead(line, h);
            r.Head? ==>
              && h <= r.subject.start < r.subject.End()
              && (if r.replyto.len == 0 then r.replyto == NO_SPAN && r.subject.End() < |line|
                  else r.subject.End() < r.replyto.start && r.replyto.End() <= |line|)
  {
    hide NextToken, Atoi;
  }

  lemma MsgHeadAfterSpace(line: bytes, h: nat)
    requires h <= |line| && NoCr(line, h) && ParseMsgHead(line, h).Head?
    requires h < |line| && line[h] == SP
    ensures h < ParseMsgHead(line, h).subject.start
  {
    hide Atoi, QuoteEnd;
  }

  lemma MsgBounds(s: bytes, h: nat)
    requires 3 <= h < |s| && ParseMsg(s, h).Frame?
    ensures ParseMsg(s, h).n <= |s| && InFrame(ParseMsg(s, h).n, ParseMsg(s, h).msg)
  {
    hide ParseMsgHead;
    var cr := Scan(s, h, IsCr);
    MsgHeadInLine(s[..cr], h);
    MsgHeadAfterSpace(s[..cr], h);
  }

  lemma TextBounds(s: bytes, b: nat, kind: Kind)
    requires 4 <= b < |s| && kind.IsText() && ParseText(s, b, kind).Frame?
    ensures ParseText(s, b, kind).n <= |s| && InFrame(ParseText(s, b, kind).n, ParseText(s, b, kind).msg)
  {
  }

  lemma FrameBounds(s: bytes)
    requires Parse(s).Frame?
    ensures Parse(s).n <= |s| && InFrame(Parse(s).n, Parse(s).msg)
  {
    hide ParseMsg, SameFold;
    var p := Scan(s, 0, IsHeaderStop);
    var kind := Parse(s).msg.kind;
    assert p == 3 || p == 4;
    if p == 3 && !SameFold(s[..3], TEXT_OK) {
      MsgBounds(s, p);
    } else if kind.IsText() && Scan(s, p, NotSp) != p {
      TextBounds(s, Scan(s, p, NotSp), kind);
    }
  }

  /** A recognised message consumes bytes that were not enough one byte earlier: no proper prefix is a message. */
  lemma ShorterIsAgain(s: bytes, k: nat)
    requires Parse(s).Frame? && k < Parse(s).n
    ensures k <= |s| && Parse(s[..k]).Again?
  {
    FrameBounds(s);
    if !Parse(s[..k]).Again? {
      VerdictStable(s[..k], s[k..]);
      assert s[..k] + s[k..] == s;
      hide Parse;
      FrameBounds(s[..k]);
    }
  }

  lemma MsgLocal(s: bytes, h: nat)
    requires h < |s| && ParseMsg(s, h).Frame?
    ensures var n := ParseMsg(s, h).n; h < n <= |s| && ParseMsg(s[..n], h) == ParseMsg(s, h)
  {
    hide ParseMsgHead;
    var c, cr := s[..ParseMsg(s, h).n], Scan(s, h, IsCr);
    ScanIs(c, h, IsCr, cr);
    assert c[..cr] == s[..cr];
  }

  lemma TextLocal(s: bytes, b: nat, kind: Kind)
    requires b < |s| && ParseText(s, b, kind).Frame?
    ensures var n := ParseText(s, b, kind).n; b < n <= |s| && ParseText(s[..n], b, kind) == ParseText(s, b, kind)
  {
    var n := ParseText(s, b, kind).n;
    ScanIs(s[..n], b + 1, IsCr, n - 2);
  }

  /** The verdict on a recognised message depends on its own bytes only. */
  lemma FrameIsLocal(s: bytes)
    requires Parse(s).Frame?
    ensures Parse(s).n <= |s| && Parse(s[..Parse(s).n]) == Parse(s)
  {
    hide ParseMsg, SameFold;
    FrameBounds(s);
    var n, p, kind := Parse(s).n, Scan(s, 0, IsHeaderStop), Parse(s).msg.kind;
    ScanIs(s[..n], 0, IsHeaderStop, p);
    assert s[..n][..p] == s[..p];
    if p == 3 && !SameFold(s[..3], TEXT_OK) {
      MsgLocal(s, p);
    } else if kind.IsText() {
      var b := Scan(s, p, NotSp);
      if b != p {
        TextLocal(s, b, kind);
      }
      ScanIs(s[..n], p, NotSp, b);
    }
  }
}
