/** Every text of the grammar is accepted, with its value and its exact length. */
module JsonAccepts {
  import opened Bytes
  import opened Json
  import opened JsonGrammar

  /** Blanks, then a byte that is none: the scan stops there. */
  lemma AfterBlanks(s: bytes, p: nat, ws: bytes, c: byte)
    requires Blank(ws) && !IsWs(c) && At(s, p, ws + [c])
    ensures p + |ws| < |s| && s[p + |ws|] == c && Scan(s, p, NotWs) == p + |ws|
    ensures IsDelimiter(c) ==> Follows(s, p)
  {
    AtSplit(s, p, ws, [c]);
    AtByte(s, p + |ws|, c);
    assert forall i :: 0 <= i < |ws| ==> s[p..p + |ws|][i] == ws[i];
    assert forall i :: p <= i < p + |ws| ==> s[i] == ws[i - p];
    ScanIs(s, p, NotWs, p + |ws|);
    if |ws| > 0 {
      assert s[p] == ws[0];
    }
  }

  /** A primitive may end at e: the text ends there or a delimiter stands there. */
  predicate Follows(s: bytes, e: nat) {
    e == |s| || (e < |s| && IsDelimiter(s[e]))
  }

  // Strings

  lemma {:induction false} StringAccepted(s: bytes, p: nat, q: byte, us: seq<Unit>, out: bytes)
    requires GoodUnits(us, q) && |out| + |us| <= MAX_STRING - 2
    requires At(s, p, UnitsText(us) + [q])
    ensures p <= |s| && StringFrom(s, p, q, out) == Done(out + Decoded(us, q), p + |UnitsText(us)| + 1)
    decreases |us|
  {
    hide At, StringFrom, Decoded, UnitText, UnitsText, GoodUnits;
    if us == [] {
      StringEnds(s, p, q, out);
      assert out + [] == out;
    } else {
      UnitsStep(s, p, q, us);
      var b, n := UnitByte(us[0]), p + |UnitText(us[0])|;
      StringAccepted(s, n, q, us[1..], out + [b]);
      UnitRead(s, p, q, us[0], out);
      assert out + [b] + Decoded(us[1..], q) == out + ([b] + Decoded(us[1..], q));
    }
  }

  /** The first unit of a string body, and the rest of it. */
  lemma UnitsStep(s: bytes, p: nat, q: byte, us: seq<Unit>)
    requires us != [] && GoodUnits(us, q) && At(s, p, UnitsText(us) + [q])
    ensures IsQuote(q) && GoodUnit(us[0], q) && GoodUnits(us[1..], q)
    ensures At(s, p, UnitText(us[0])) && At(s, p + |UnitText(us[0])|, UnitsText(us[1..]) + [q])
    ensures |UnitsText(us)| == |UnitText(us[0])| + |UnitsText(us[1..])|
    ensures Decoded(us, q) == [UnitByte(us[0])] + Decoded(us[1..], q)
  {
    hide At;
    var t := UnitText(us[0]);
    assert UnitsText(us) + [q] == t + (UnitsText(us[1..]) + [q]);
    AtSplit(s, p, t, UnitsText(us[1..]) + [q]);
  }

  lemma StringEnds(s: bytes, p: nat, q: byte, out: bytes)
    requires GoodUnits([], q) && |out| <= MAX_STRING - 2 && At(s, p, UnitsText([]) + [q])
    ensures p < |s| && StringFrom(s, p, q, out) == Done(out, p + 1)
    ensures UnitsText([]) == [] && Decoded([], q) == []
  {
    assert UnitsText([]) + [q] == [q];
    AtByte(s, p, q);
  }

  lemma UnitRead(s: bytes, p: nat, q: byte, u: Unit, out: bytes)
    requires IsQuote(q) && GoodUnit(u, q) && |out| < MAX_STRING - 1 && At(s, p, UnitText(u))
    ensures p + |UnitText(u)| <= |s|
    ensures StringFrom(s, p, q, out) == StringFrom(s, p + |UnitText(u)|, q, out + [UnitByte(u)])
  {
    match u
    case Plain(b) => AtByte(s, p, b);
    case Escaped(e) =>
      assert [BACKSLASH, e] == [BACKSLASH] + [e];
      AtSplit(s, p, [BACKSLASH], [e]);
      AtByte(s, p, BACKSLASH);
      AtByte(s, p + 1, e);
  }

  lemma StringValueAccepted(s: bytes, p: nat, t: Tree, strtod: bytes -> bool)
    requires t.TStr? && Good(t, strtod) && At(s, p, Text(t))
    ensures p <= |s| && ParseValue(s, p, strtod) == Done(Meaning(t, strtod), p + |Text(t)|)
  {
    hide At, Decoded, IsWs, StringFrom, ParseValue, UnitsText;
    var rest := UnitsText(t.units) + [t.q];
    AtSplit(s, p, t.ws + [t.q], rest);
    QuoteIsNoWs(t.q);
    AfterBlanks(s, p, t.ws, t.q);
    StringAccepted(s, p + |t.ws| + 1, t.q, t.units, []);
    assert [] + Decoded(t.units, t.q) == Decoded(t.units, t.q);
    OpensString(s, p, p + |t.ws|, strtod);
  }

  lemma OpensString(s: bytes, p: nat, b: nat, strtod: bytes -> bool)
    requires p <= b < |s| && Scan(s, p, NotWs) == b && IsQuote(s[b]) && StringFrom(s, b + 1, s[b], []).Done?
    ensures var r := StringFrom(s, b + 1, s[b], []); ParseValue(s, p, strtod) == Done(Str(r.v), r.pos)
  {
    hide ParseItems, ParseMembers, StringFrom, Primitive;
  }

  lemma QuoteIsNoWs(q: byte)
    requires IsQuote(q)
    ensures !IsWs(q)
  {
  }

  // Primitives

  lemma PrimitiveSpan(s: bytes, b: nat, x: bytes)
    requires x != [] && At(s, b, x) && Follows(s, b + |x|)
    requires forall i :: 0 <= i < |x| ==> !IsDelimiter(x[i])
    ensures s[b] == x[0] && Scan(s, b, IsDelimiter) == b + |x|
  {
    hide IsDelimiter;
    assert forall i :: b <= i < b + |x| ==> s[i] == x[i - b];
    ScanIs(s, b, IsDelimiter, b + |x|);
  }

  lemma PrimitiveAccepted(s: bytes, p: nat, t: Tree, strtod: bytes -> bool)
    requires t.TPrim? && Good(t, strtod) && At(s, p, Text(t)) && Follows(s, p + |Text(t)|)
    ensures p <= |s| && ParseValue(s, p, strtod) == Done(Meaning(t, strtod), p + |Text(t)|)
  {
    hide At, Follows, Blank, GoodPrimitive, PrimitiveValue, Primitive, ParseValue, Scan, IsWs, IsQuote;
    var x, b := t.text, p + |t.ws|;
    AtSplit(s, p, t.ws, x);
    PrimitiveStart(x, strtod);
    PrimitiveRead(s, b, x, strtod);
    AtByte(s, b, x[0]);
    AtSplit(s, p, t.ws, [x[0]]);
    AfterBlanks(s, p, t.ws, x[0]);
    OpensPrimitive(s, p, b, strtod);
  }

  lemma PrimitiveStart(x: bytes, strtod: bytes -> bool)
    requires GoodPrimitive(x, strtod)
    ensures x != [] && !IsWs(x[0]) && !IsQuote(x[0]) && x[0] != LBRACE && x[0] != LBRACKET
    ensures PrimitiveValue(x, strtod).Some?
  {
    hide PrimitiveValue;
    assert !IsDelimiter(x[0]);
  }

  lemma PrimitiveRead(s: bytes, b: nat, x: bytes, strtod: bytes -> bool)
    requires GoodPrimitive(x, strtod) && At(s, b, x) && Follows(s, b + |x|)
    ensures b < |s| && s[b] == x[0] && Primitive(s, b, strtod) == Done(PrimitiveValue(x, strtod).value, b + |x|)
  {
    hide PrimitiveValue, IsDelimiter, Follows;
    PrimitiveSpan(s, b, x);
    assert s[b..b + |x|] == x;
  }

  lemma OpensPrimitive(s: bytes, p: nat, b: nat, strtod: bytes -> bool)
    requires p <= b < |s| && Scan(s, p, NotWs) == b && !IsQuote(s[b]) && s[b] != LBRACE && s[b] != LBRACKET
    ensures ParseValue(s, p, strtod) == Primitive(s, b, strtod)
  {
    hide ParseItems, ParseMembers, StringFrom, Primitive;
  }

  // Arrays and objects

  /** A closing or separating byte behind a value, with blanks before it. */
  lemma AfterValue(s: bytes, m: nat, after: bytes, c: byte)
    requires Blank(after) && At(s, m, after + [c]) && IsDelimiter(c) && !IsWs(c)
    ensures m + |after| < |s| && s[m + |after|] == c && Scan(s, m, NotWs) == m + |after| && Follows(s, m)
  {
    AfterBlanks(s, m, after, c);
  }

  /** The leading blanks of a value belong to it: starting behind them changes nothing. */
  lemma StartsBehindBlanks(s: bytes, p: nat, strtod: bytes -> bool)
    requires p <= |s|
    ensures ParseValue(s, Scan(s, p, NotWs), strtod) == ParseValue(s, p, strtod)
  {
    hide Primitive, StringFrom;
    var b := Scan(s, p, NotWs);
    ScanIs(s, b, NotWs, b);
  }

  /** The first byte of a tree's text behind its blanks. */
  function FirstOf(t: Tree, strtod: bytes -> bool): (c: byte)
    requires Good(t, strtod)
    ensures !IsWs(c) && c != RBRACKET && c != RBRACE && c != COMMA
  {
    hide GoodItems, GoodMembers, PrimitiveValue;
    match t
    case TPrim(_, text) => assert !IsDelimiter(text[0]); text[0]
    case TStr(_, q, _) => q
    case TArr(_, _) => LBRACKET
    case TObj(_, _) => LBRACE
  }

  lemma StartsWith(t: Tree, strtod: bytes -> bool) returns (rest: bytes)
    requires Good(t, strtod)
    ensures Text(t) == t.ws + [FirstOf(t, strtod)] + rest
  {
    hide GoodItems, GoodMembers, PrimitiveValue, GoodUnits;
    rest := match t
      case TPrim(_, text) => text[1..]
      case TStr(_, q, us) => UnitsText(us) + [q]
      case TArr(_, items) => ItemsText(items)
      case TObj(_, members) => MembersText(members);
    if t.TPrim? {
      assert t.text == [t.text[0]] + rest;
    }
  }

  /** A text of the grammar does not start, behind its blanks, with a closing bracket. */
  lemma FirstByte(s: bytes, p: nat, t: Tree, strtod: bytes -> bool)
    requires Good(t, strtod) && At(s, p, Text(t))
    ensures var b := Scan(s, p, NotWs); b < |s| && s[b] != RBRACKET && s[b] != RBRACE && s[b] != COMMA
  {
    hide At, Text, FirstOf;
    var rest := StartsWith(t, strtod);
    var c := FirstOf(t, strtod);
    AtSplit(s, p, t.ws + [c], rest);
    assert Blank(t.ws);
    hide Good;
    AfterBlanks(s, p, t.ws, c);
  }

  lemma OpensArray(s: bytes, p: nat, b: nat, strtod: bytes -> bool)
    requires p <= b < |s| && Scan(s, p, NotWs) == b && s[b] == LBRACKET && ParseItems(s, b + 1, false, strtod).Done?
    ensures var r := ParseItems(s, b + 1, false, strtod); ParseValue(s, p, strtod) == Done(Arr(r.v), r.pos)
  {
    hide ParseItems, ParseMembers, StringFrom, Primitive;
  }

  lemma OpensObject(s: bytes, p: nat, b: nat, strtod: bytes -> bool)
    requires p <= b < |s| && Scan(s, p, NotWs) == b && s[b] == LBRACE && ParseMembers(s, b + 1, false, strtod).Done?
    ensures var r := ParseMembers(s, b + 1, false, strtod); ParseValue(s, p, strtod) == Done(Obj(r.v), r.pos)
  {
    hide ParseItems, ParseMembers, StringFrom, Primitive;
  }

  lemma {:induction false} ValueAccepted(s: bytes, p: nat, t: Tree, strtod: bytes -> bool)
    requires Good(t, strtod) && At(s, p, Text(t))
    requires t.TPrim? ==> Follows(s, p + |Text(t)|)
    ensures p <= |s| && ParseValue(s, p, strtod) == Done(Meaning(t, strtod), p + |Text(t)|)
    decreases t, 1
  {
    hide At, PrimitiveValue, Decoded, ParseValue, ParseItems, ParseMembers, Blank, Scan, Follows, GoodUnits;
    hide GoodPrimitive;
    match t
    case TPrim(_, _) => PrimitiveAccepted(s, p, t, strtod);
    case TStr(_, _, _) => StringValueAccepted(s, p, t, strtod);
    case TArr(ws, items) =>
      AtSplit(s, p, ws + [LBRACKET], ItemsText(items));
      AfterBlanks(s, p, ws, LBRACKET);
      ItemsAccepted(s, p + |ws| + 1, items, false, strtod);
      OpensArray(s, p, p + |ws|, strtod);
    case TObj(ws, members) =>
      AtSplit(s, p, ws + [LBRACE], MembersText(members));
      AfterBlanks(s, p, ws, LBRACE);
      MembersAccepted(s, p + |ws| + 1, members, false, strtod);
      OpensObject(s, p, p + |ws|, strtod);
  }

  lemma EmptyArray(s: bytes, p: nat, i: Items, strtod: bytes -> bool)
    requires i.NoItem? && Blank(i.ws) && At(s, p, ItemsText(i))
    ensures p <= |s| && ParseItems(s, p, false, strtod) == Done([], p + |ItemsText(i)|)
  {
    hide At, ParseValue;
    AfterBlanks(s, p, i.ws, RBRACKET);
  }

  lemma EmptyObject(s: bytes, p: nat, m: Members, strtod: bytes -> bool)
    requires m.NoMember? && Blank(m.ws) && At(s, p, MembersText(m))
    ensures p <= |s| && ParseMembers(s, p, false, strtod) == Done([], p + |MembersText(m)|)
  {
    hide At, ParseName, ParseValue;
    AfterBlanks(s, p, m.ws, RBRACE);
  }

  /** One item read, a ']' or a comma behind it. */
  lemma ItemStep(s: bytes, p: nat, need: bool, strtod: bytes -> bool, v: Value, m: nat, e: nat)
    requires p <= |s| && ParseValue(s, p, strtod) == Done(v, m) && m <= e < |s| && Scan(s, m, NotWs) == e
    requires var b := Scan(s, p, NotWs); b < |s| && s[b] != RBRACKET
    ensures s[e] == RBRACKET ==> ParseItems(s, p, need, strtod) == Done([v], e + 1)
    ensures s[e] == COMMA && ParseItems(s, e + 1, true, strtod).Done? ==>
              var r := ParseItems(s, e + 1, true, strtod);
              ParseItems(s, p, need, strtod) == Done([v] + r.v, r.pos)
  {
    hide ParseValue;
    StartsBehindBlanks(s, p, strtod);
  }

  /** Where the parts of an item stand. */
  lemma ItemLaid(s: bytes, p: nat, i: Items)
    requires !i.NoItem? && Blank(i.after) && At(s, p, ItemsText(i))
    ensures var e := p + |Text(i.v)|;
            var f := e + |i.after|;
            && At(s, p, Text(i.v)) && Follows(s, e)
            && f < |s| && Scan(s, e, NotWs) == f && s[f] == (if i.LastItem? then RBRACKET else COMMA)
            && (i.LastItem? ==> p + |ItemsText(i)| == f + 1)
            && (i.Item? ==> At(s, f + 1, ItemsText(i.rest)) && p + |ItemsText(i)| == f + 1 + |ItemsText(i.rest)|)
  {
    hide At, Text;
    var e := p + |Text(i.v)|;
    if i.LastItem? {
      assert ItemsText(i) == Text(i.v) + (i.after + [RBRACKET]);
      AtSplit(s, p, Text(i.v), i.after + [RBRACKET]);
      AfterValue(s, e, i.after, RBRACKET);
    } else {
      assert ItemsText(i) == Text(i.v) + (i.after + [COMMA]) + ItemsText(i.rest);
      AtSplit3(s, p, Text(i.v), i.after + [COMMA], ItemsText(i.rest));
      AfterValue(s, e, i.after, COMMA);
    }
  }

  lemma {:induction false} ItemsAccepted(s: bytes, p: nat, i: Items, need: bool, strtod: bytes -> bool)
    requires GoodItems(i, strtod) && At(s, p, ItemsText(i)) && !(need && i.NoItem?)
    ensures p <= |s| && ParseItems(s, p, need, strtod) == Done(ItemsMeaning(i, strtod), p + |ItemsText(i)|)
    decreases i, 0
  {
    hide At, Good, Text, Meaning, ItemsText, ParseItems, ParseValue, Blank, Scan, Follows;
    if i.NoItem? {
      EmptyArray(s, p, i, strtod);
    } else {
      ItemLaid(s, p, i);
      var m := p + |Text(i.v)|;
      if i.Item? {
        ItemsAccepted(s, m + |i.after| + 1, i.rest, true, strtod);
      }
      ValueAccepted(s, p, i.v, strtod);
      FirstByte(s, p, i.v, strtod);
      ItemStep(s, p, need, strtod, Meaning(i.v, strtod), m, m + |i.after|);
    }
  }

  lemma NameAccepted(s: bytes, p: nat, n: Name)
    requires GoodName(n) && At(s, p, NameText(n))
    ensures var b := p + |n.ws|;
            && b < |s| && Scan(s, p, NotWs) == b && s[b] == n.q
            && ParseName(s, b + 1, n.q) == Done(NameValue(n), p + |NameText(n)|)
  {
    hide At, Decoded, IsWs, StringFrom, UnitsText, Blank, Scan;
    var body := UnitsText(n.units) + [n.q];
    assert NameText(n) == (n.ws + [n.q]) + body + (n.after + [COLON]);
    AtSplit3(s, p, n.ws + [n.q], body, n.after + [COLON]);
    QuoteIsNoWs(n.q);
    AfterBlanks(s, p, n.ws, n.q);
    StringAccepted(s, p + |n.ws| + 1, n.q, n.units, []);
    assert [] + Decoded(n.units, n.q) == Decoded(n.units, n.q);
    assert |Decoded(n.units, n.q)| == |n.units| by { DecodedLength(n.units, n.q); }
    assert !IsWs(COLON) by { ColonIsNoWs(); }
    AfterBlanks(s, p + |n.ws| + 1 + |body|, n.after, COLON);
  }

  lemma DecodedLength(us: seq<Unit>, q: byte)
    requires GoodUnits(us, q)
    ensures |Decoded(us, q)| == |us|
  {
  }

  lemma ColonIsNoWs()
    ensures !IsWs(COLON)
  {
  }

  /** One member read, a '}' or a comma behind it. */
  lemma MemberStep(
    s: bytes, p: nat, need: bool, strtod: bytes -> bool, b: nat, name: bytes, a: nat, v: Value, m: nat, e: nat)
    requires p <= b < a <= |s| && Scan(s, p, NotWs) == b && IsQuote(s[b]) && ParseName(s, b + 1, s[b]) == Done(name, a)
    requires ParseValue(s, a, strtod) == Done(v, m) && m <= e < |s| && Scan(s, m, NotWs) == e
    ensures s[e] == RBRACE ==> ParseMembers(s, p, need, strtod) == Done([Field(name, v)], e + 1)
    ensures s[e] == COMMA && ParseMembers(s, e + 1, true, strtod).Done? ==>
              var r := ParseMembers(s, e + 1, true, strtod);
              ParseMembers(s, p, need, strtod) == Done([Field(name, v)] + r.v, r.pos)
  {
    hide ParseName, ParseValue;
  }

  /** Where the parts of a member stand. */
  lemma MemberLaid(s: bytes, p: nat, m: Members)
    requires !m.NoMember? && Blank(m.after) && At(s, p, MembersText(m))
    ensures var a := p + |NameText(m.name)|;
            var e := a + |Text(m.v)|;
            var f := e + |m.after|;
            && At(s, p, NameText(m.name)) && At(s, a, Text(m.v)) && Follows(s, e)
            && f < |s| && Scan(s, e, NotWs) == f && s[f] == (if m.LastMember? then RBRACE else COMMA)
            && (m.LastMember? ==> p + |MembersText(m)| == f + 1)
            && (m.Member? ==> At(s, f + 1, MembersText(m.rest))
                              && p + |MembersText(m)| == f + 1 + |MembersText(m.rest)|)
  {
    hide At, Text, NameText;
    var e := p + |NameText(m.name)| + |Text(m.v)|;
    if m.LastMember? {
      assert MembersText(m) == NameText(m.name) + Text(m.v) + (m.after + [RBRACE]);
      AtSplit3(s, p, NameText(m.name), Text(m.v), m.after + [RBRACE]);
      AfterValue(s, e, m.after, RBRACE);
    } else {
      assert MembersText(m) == NameText(m.name) + Text(m.v) + (m.after + [COMMA] + MembersText(m.rest));
      AtSplit3(s, p, NameText(m.name), Text(m.v), m.after + [COMMA] + MembersText(m.rest));
      AtSplit(s, e, m.after + [COMMA], MembersText(m.rest));
      AfterValue(s, e, m.after, COMMA);
    }
  }

  lemma {:induction false} MembersAccepted(s: bytes, p: nat, m: Members, need: bool, strtod: bytes -> bool)
    requires GoodMembers(m, strtod) && At(s, p, MembersText(m)) && !(need && m.NoMember?)
    ensures p <= |s| && ParseMembers(s, p, need, strtod) == Done(MembersMeaning(m, strtod), p + |MembersText(m)|)
    decreases m, 0
  {
    hide At, Good, Text, Meaning, NameText, MembersText, NameValue, ParseName, ParseValue, ParseMembers, Blank;
    hide Scan, Follows;
    if m.NoMember? {
      EmptyObject(s, p, m, strtod);
    } else {
      var a := p + |NameText(m.name)|;
      var e := a + |Text(m.v)|;
      MemberLaid(s, p, m);
      if m.Member? {
        MembersAccepted(s, e + |m.after| + 1, m.rest, true, strtod);
      }
      NameAccepted(s, p, m.name);
      ValueAccepted(s, a, m.v, strtod);
      MemberStep(s, p, need, strtod, p + |m.name.ws|, NameValue(m.name), a, Meaning(m.v, strtod), e, e + |m.after|);
    }
  }
}
