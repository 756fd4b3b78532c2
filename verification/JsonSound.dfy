/** Whatever the reader accepts is a text of the grammar with that value and that length. */
module JsonSound {
  import opened Bytes
  import opened Json
  import opened JsonGrammar
  import opened JsonAccepts

  lemma {:induction false} StringSound(s: bytes, p: nat, q: byte, out: bytes) returns (us: seq<Unit>)
    requires p <= |s| && IsQuote(q) && StringFrom(s, p, q, out).Done?
    ensures var r := StringFrom(s, p, q, out);
            && |out| + |us| <= MAX_STRING - 2 && GoodUnits(us, q)
            && At(s, p, UnitsText(us) + [q]) && r.pos == p + |UnitsText(us)| + 1
            && r.v == out + Decoded(us, q)
    decreases |s| - p
  {
    hide At, Decoded, UnitsText, GoodUnits;
    if s[p] == q {
      us := [];
      EmptyString(s, p, q);
      assert out + [] == out;
    } else {
      var u := if s[p] == BACKSLASH then Escaped(s[p + 1]) else Plain(s[p]);
      UnitAt(s, p, u);
      var n := p + |UnitText(u)|;
      UnitRead(s, p, q, u, out);
      var rest := StringSound(s, n, q, out + [UnitByte(u)]);
      us := UnitConsed(s, p, q, u, rest);
      assert out + [UnitByte(u)] + Decoded(rest, q) == out + ([UnitByte(u)] + Decoded(rest, q));
    }
  }

  lemma EmptyString(s: bytes, p: nat, q: byte)
    requires p < |s| && s[p] == q && IsQuote(q)
    ensures GoodUnits([], q) && At(s, p, UnitsText([]) + [q]) && UnitsText([]) == [] && Decoded([], q) == []
  {
    AtByte(s, p, q);
    assert UnitsText([]) + [q] == [q];
  }

  lemma UnitAt(s: bytes, p: nat, u: Unit)
    requires p < |s| && (u.Plain? ==> s[p] == u.b)
    requires u.Escaped? ==> s[p] == BACKSLASH && p + 1 < |s| && s[p + 1] == u.e
    ensures At(s, p, UnitText(u))
  {
    AtByte(s, p, s[p]);
    if u.Escaped? {
      AtByte(s, p + 1, u.e);
      AtSplit(s, p, [BACKSLASH], [u.e]);
      assert [BACKSLASH] + [u.e] == UnitText(u);
    }
  }

  lemma UnitConsed(s: bytes, p: nat, q: byte, u: Unit, rest: seq<Unit>) returns (us: seq<Unit>)
    requires IsQuote(q) && GoodUnit(u, q) && GoodUnits(rest, q) && |rest| < MAX_STRING - 2
    requires At(s, p, UnitText(u)) && At(s, p + |UnitText(u)|, UnitsText(rest) + [q])
    ensures us == [u] + rest && GoodUnits(us, q) && Decoded(us, q) == [UnitByte(u)] + Decoded(rest, q)
    ensures UnitsText(us) == UnitText(u) + UnitsText(rest) && At(s, p, UnitsText(us) + [q])
  {
    us := [u] + rest;
    assert us[1..] == rest;
    AtSplit(s, p, UnitText(u), UnitsText(rest) + [q]);
    assert UnitsText(us) + [q] == UnitText(u) + (UnitsText(rest) + [q]);
  }

  /** The blanks a scan passes over, and the byte it stops at. */
  lemma BlanksAt(s: bytes, p: nat) returns (ws: bytes)
    requires p <= |s| && Scan(s, p, NotWs) < |s|
    ensures var b := Scan(s, p, NotWs);
            && Blank(ws) && |ws| == b - p && At(s, p, ws) && At(s, p, ws + [s[b]]) && !IsWs(s[b])
  {
    var b := Scan(s, p, NotWs);
    ws := s[p..b];
    AtByte(s, b, s[b]);
    AtSplit(s, p, ws, [s[b]]);
  }

  lemma PrimitiveSound(s: bytes, p: nat, strtod: bytes -> bool) returns (t: Tree)
    requires p <= |s| && Scan(s, p, NotWs) < |s|
    requires var b := Scan(s, p, NotWs); !IsQuote(s[b]) && Primitive(s, b, strtod).Done?
    ensures var r := Primitive(s, Scan(s, p, NotWs), strtod);
            && t.TPrim? && Good(t, strtod) && Meaning(t, strtod) == r.v
            && At(s, p, Text(t)) && r.pos == p + |Text(t)| && Follows(s, r.pos)
  {
    hide PrimitiveValue;
    var b := Scan(s, p, NotWs);
    var e := Scan(s, b, IsDelimiter);
    var ws := BlanksAt(s, p);
    var x := s[b..e];
    assert At(s, b, x);
    AtSplit(s, p, ws, x);
    t := TPrim(ws, x);
  }

  lemma StringValueSound(s: bytes, p: nat, strtod: bytes -> bool) returns (t: Tree)
    requires p <= |s| && Scan(s, p, NotWs) < |s|
    requires var b := Scan(s, p, NotWs); IsQuote(s[b]) && StringFrom(s, b + 1, s[b], []).Done?
    ensures var b := Scan(s, p, NotWs);
            var r := StringFrom(s, b + 1, s[b], []);
            && t.TStr? && Good(t, strtod) && Meaning(t, strtod) == Str(r.v)
            && At(s, p, Text(t)) && r.pos == p + |Text(t)|
  {
    hide StringFrom, Decoded, GoodUnits;
    var b := Scan(s, p, NotWs);
    var ws := BlanksAt(s, p);
    var us := StringSound(s, b + 1, s[b], []);
    AtSplit(s, p, ws + [s[b]], UnitsText(us) + [s[b]]);
    assert [] + Decoded(us, s[b]) == Decoded(us, s[b]);
    t := TStr(ws, s[b], us);
  }

  lemma {:induction false} ValueSound(s: bytes, p: nat, strtod: bytes -> bool) returns (t: Tree)
    requires p <= |s| && ParseValue(s, p, strtod).Done?
    ensures var r := ParseValue(s, p, strtod);
            && Good(t, strtod) && Meaning(t, strtod) == r.v
            && At(s, p, Text(t)) && r.pos == p + |Text(t)| && (t.TPrim? ==> Follows(s, r.pos))
    decreases |s| - p, 0
  {
    hide Primitive, StringFrom, PrimitiveValue, GoodPrimitive, GoodUnits, Decoded, At, ParseItems, ParseMembers;
    hide Follows, Blank;
    var b := Scan(s, p, NotWs);
    if s[b] == LBRACE {
      var ws := BlanksAt(s, p);
      var members := MembersSound(s, b + 1, false, strtod);
      AtSplit(s, p, ws + [LBRACE], MembersText(members));
      t := TObj(ws, members);
    } else if s[b] == LBRACKET {
      var ws := BlanksAt(s, p);
      var items := ItemsSound(s, b + 1, false, strtod);
      AtSplit(s, p, ws + [LBRACKET], ItemsText(items));
      t := TArr(ws, items);
    } else if IsQuote(s[b]) {
      t := StringValueSound(s, p, strtod);
    } else {
      t := PrimitiveSound(s, p, strtod);
    }
  }

  /** What an accepted array rest that is not empty was read from. */
  lemma ItemParts(s: bytes, p: nat, need: bool, strtod: bytes -> bool)
    requires p <= |s| && ParseItems(s, p, need, strtod).Done? && s[Scan(s, p, NotWs)] != RBRACKET
    ensures ParseValue(s, p, strtod).Done?
    ensures var r := ParseItems(s, p, need, strtod);
            var v := ParseValue(s, p, strtod);
            var e := Scan(s, v.pos, NotWs);
            && e < |s|
            && (s[e] == RBRACKET ==> r == Done([v.v], e + 1))
            && (s[e] != RBRACKET ==>
                  && s[e] == COMMA && ParseItems(s, e + 1, true, strtod).Done?
                  && var x := ParseItems(s, e + 1, true, strtod); r == Done([v.v] + x.v, x.pos))
  {
    hide ParseValue;
    StartsBehindBlanks(s, p, strtod);
  }

  lemma ItemAt(s: bytes, p: nat, i: Items)
    requires !i.NoItem? && At(s, p, Text(i.v))
    requires i.LastItem? ==> At(s, p + |Text(i.v)|, i.after + [RBRACKET])
    requires i.Item? ==> At(s, p + |Text(i.v)|, i.after + [COMMA])
    requires i.Item? ==> At(s, p + |Text(i.v)| + |i.after| + 1, ItemsText(i.rest))
    ensures At(s, p, ItemsText(i))
    ensures |ItemsText(i)| == |Text(i.v)| + |i.after| + 1 + (if i.Item? then |ItemsText(i.rest)| else 0)
  {
    hide At, Text;
    if i.LastItem? {
      AtSplit(s, p, Text(i.v), i.after + [RBRACKET]);
      assert ItemsText(i) == Text(i.v) + (i.after + [RBRACKET]);
    } else {
      AtSplit(s, p, Text(i.v), i.after + [COMMA]);
      AtSplit(s, p, Text(i.v) + (i.after + [COMMA]), ItemsText(i.rest));
      assert ItemsText(i) == Text(i.v) + (i.after + [COMMA]) + ItemsText(i.rest);
    }
  }

  lemma EmptyArraySound(s: bytes, p: nat, need: bool, strtod: bytes -> bool) returns (i: Items)
    requires p <= |s| && ParseItems(s, p, need, strtod).Done? && s[Scan(s, p, NotWs)] == RBRACKET
    ensures var r := ParseItems(s, p, need, strtod);
            && !need && i.NoItem? && GoodItems(i, strtod) && r.v == []
            && At(s, p, ItemsText(i)) && r.pos == p + |ItemsText(i)|
  {
    hide At, ParseValue;
    var ws := BlanksAt(s, p);
    i := NoItem(ws);
  }

  lemma ItemsDone(s: bytes, p: nat, need: bool, strtod: bytes -> bool)
    requires p <= |s| && ParseItems(s, p, need, strtod).Done?
    ensures Scan(s, p, NotWs) < |s|
  {
  }

  lemma {:induction false} ItemsSound(s: bytes, p: nat, need: bool, strtod: bytes -> bool) returns (i: Items)
    requires p <= |s| && ParseItems(s, p, need, strtod).Done?
    ensures var r := ParseItems(s, p, need, strtod);
            && GoodItems(i, strtod) && ItemsMeaning(i, strtod) == r.v && !(need && i.NoItem?)
            && At(s, p, ItemsText(i)) && r.pos == p + |ItemsText(i)|
    decreases |s| - p, 1
  {
    hide At, Good, Meaning, Text, ItemsText, ParseValue, ParseItems, Blank, Scan;
    ItemsDone(s, p, need, strtod);
    if s[Scan(s, p, NotWs)] == RBRACKET {
      i := EmptyArraySound(s, p, need, strtod);
    } else {
      ItemParts(s, p, need, strtod);
      var v := ValueSound(s, p, strtod);
      var m := p + |Text(v)|;
      var after := BlanksAt(s, m);
      var e := Scan(s, m, NotWs);
      if s[e] == RBRACKET {
        i := LastItem(v, after);
      } else {
        var rest := ItemsSound(s, e + 1, true, strtod);
        i := Item(v, after, rest);
      }
      ItemAt(s, p, i);
    }
  }

  lemma NameSound(s: bytes, p: nat) returns (n: Name)
    requires p <= |s| && Scan(s, p, NotWs) < |s|
    requires var b := Scan(s, p, NotWs); IsQuote(s[b]) && ParseName(s, b + 1, s[b]).Done?
    ensures var b := Scan(s, p, NotWs);
            var r := ParseName(s, b + 1, s[b]);
            && GoodName(n) && NameValue(n) == r.v && At(s, p, NameText(n)) && r.pos == p + |NameText(n)|
  {
    hide StringFrom, Decoded, At, UnitsText, Blank;
    var b := Scan(s, p, NotWs);
    var ws := BlanksAt(s, p);
    var us := StringSound(s, b + 1, s[b], []);
    var body := UnitsText(us) + [s[b]];
    assert [] + Decoded(us, s[b]) == Decoded(us, s[b]);
    DecodedLength(us, s[b]);
    var after := BlanksAt(s, b + 1 + |body|);
    AtSplit(s, p, ws + [s[b]], body);
    AtSplit(s, p, ws + [s[b]] + body, after + [COLON]);
    n := Name(ws, s[b], us, after);
    assert NameText(n) == ws + [s[b]] + body + (after + [COLON]);
  }

  /** What an accepted object rest that is not empty was read from. */
  lemma MemberParts(s: bytes, p: nat, b: nat, need: bool, strtod: bytes -> bool)
    requires p <= b < |s| && Scan(s, p, NotWs) == b && s[b] != RBRACE && ParseMembers(s, p, need, strtod).Done?
    ensures IsQuote(s[b]) && ParseName(s, b + 1, s[b]).Done?
    ensures ParseValue(s, ParseName(s, b + 1, s[b]).pos, strtod).Done?
    ensures var r := ParseMembers(s, p, need, strtod);
            var n := ParseName(s, b + 1, s[b]);
            var v := ParseValue(s, n.pos, strtod);
            var e := Scan(s, v.pos, NotWs);
            && e < |s|
            && (s[e] == RBRACE ==> r == Done([Field(n.v, v.v)], e + 1))
            && (s[e] != RBRACE ==>
                  && s[e] == COMMA && ParseMembers(s, e + 1, true, strtod).Done?
                  && var x := ParseMembers(s, e + 1, true, strtod); r == Done([Field(n.v, v.v)] + x.v, x.pos))
  {
    hide ParseValue, ParseName;
  }

  lemma MemberAt(s: bytes, p: nat, i: Members)
    requires !i.NoMember? && At(s, p, NameText(i.name)) && At(s, p + |NameText(i.name)|, Text(i.v))
    requires i.LastMember? ==> At(s, p + |NameText(i.name)| + |Text(i.v)|, i.after + [RBRACE])
    requires i.Member? ==> At(s, p + |NameText(i.name)| + |Text(i.v)|, i.after + [COMMA])
    requires i.Member? ==> At(s, p + |NameText(i.name)| + |Text(i.v)| + |i.after| + 1, MembersText(i.rest))
    ensures At(s, p, MembersText(i))
    ensures |MembersText(i)| ==
            |NameText(i.name)| + |Text(i.v)| + |i.after| + 1 + (if i.Member? then |MembersText(i.rest)| else 0)
  {
    hide At, Text, NameText;
    var nv := NameText(i.name) + Text(i.v);
    AtSplit(s, p, NameText(i.name), Text(i.v));
    if i.LastMember? {
      AtSplit(s, p, nv, i.after + [RBRACE]);
      assert MembersText(i) == nv + (i.after + [RBRACE]);
    } else {
      AtSplit(s, p, nv, i.after + [COMMA]);
      AtSplit(s, p, nv + (i.after + [COMMA]), MembersText(i.rest));
      assert MembersText(i) == nv + (i.after + [COMMA]) + MembersText(i.rest);
    }
  }

  lemma EmptyObjectSound(s: bytes, p: nat, need: bool, strtod: bytes -> bool) returns (i: Members)
    requires p <= |s| && ParseMembers(s, p, need, strtod).Done? && s[Scan(s, p, NotWs)] == RBRACE
    ensures var r := ParseMembers(s, p, need, strtod);
            && !need && i.NoMember? && GoodMembers(i, strtod) && r.v == []
            && At(s, p, MembersText(i)) && r.pos == p + |MembersText(i)|
  {
    hide At, ParseValue, ParseName;
    var ws := BlanksAt(s, p);
    i := NoMember(ws);
  }

  lemma MembersDone(s: bytes, p: nat, need: bool, strtod: bytes -> bool)
    requires p <= |s| && ParseMembers(s, p, need, strtod).Done?
    ensures Scan(s, p, NotWs) < |s|
  {
    hide ParseValue, ParseName;
  }

  lemma {:induction false} MembersSound(s: bytes, p: nat, need: bool, strtod: bytes -> bool) returns (i: Members)
    requires p <= |s| && ParseMembers(s, p, need, strtod).Done?
    ensures var r := ParseMembers(s, p, need, strtod);
            && GoodMembers(i, strtod) && MembersMeaning(i, strtod) == r.v && !(need && i.NoMember?)
            && At(s, p, MembersText(i)) && r.pos == p + |MembersText(i)|
    decreases |s| - p, 1
  {
    hide At, Good, Meaning, Text, MembersText, ParseValue, ParseName, ParseMembers;
    hide GoodName, NameValue, NameText, Blank, Scan;
    MembersDone(s, p, need, strtod);
    if s[Scan(s, p, NotWs)] == RBRACE {
      i := EmptyObjectSound(s, p, need, strtod);
    } else {
      MemberParts(s, p, Scan(s, p, NotWs), need, strtod);
      var n := NameSound(s, p);
      var a := p + |NameText(n)|;
      var v := ValueSound(s, a, strtod);
      var m := a + |Text(v)|;
      var after := BlanksAt(s, m);
      var e := Scan(s, m, NotWs);
      if s[e] == RBRACE {
        i := LastMember(n, v, after);
      } else {
        var rest := MembersSound(s, e + 1, true, strtod);
        i := Member(n, v, after, rest);
      }
      MemberAt(s, p, i);
    }
  }
}
