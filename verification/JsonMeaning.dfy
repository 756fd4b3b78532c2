/** What the characters of a JSON text mean, in numbers: escapes, blanks, delimiters, digits, literals, doubles. */
module JsonMeaning {
  import opened Bytes
  import opened JsonNumber
  import opened Json
  import opened JsonGrammar
  import opened JsonAccepts
  import JsonPrinter

  // Characters

  /** The byte that backslash and the letter e stand for: b t n f r, the quotes, the backslash and the slash. */
  lemma EscapeIff(e: byte, b: byte)
    ensures Unescape(e) == Some(b) <==>
            || (e == 98 && b == 8) || (e == 116 && b == 9) || (e == 110 && b == 10)
            || (e == 102 && b == 12) || (e == 114 && b == 13)
            || (e == 34 && b == 34) || (e == 39 && b == 39) || (e == 92 && b == 92) || (e == 47 && b == 47)
  {
  }

  lemma CharactersIff(b: byte)
    ensures IsWs(b) <==> b == 9 || b == 10 || b == 13 || b == 32
    ensures IsDelimiter(b) <==> IsWs(b) || b == 44 || b == 58 || b == 91 || b == 93 || b == 123 || b == 125
    ensures IsQuote(b) <==> b == 34 || b == 39
  {
  }

  lemma HexDigitIff(b: byte, v: nat)
    ensures HexDigit(b) == Some(v) <==>
            (v < 10 && b as int == 48 + v) || (10 <= v < 16 && (b as int == 87 + v || b as int == 55 + v))
  {
  }

  // Strings

  /** A byte of a string between quotes q, as a writer of JSON puts it. */
  function EscapeByte(b: byte, q: byte): bytes {
    if b == 8 then [92, 98]
    else if b == 9 then [92, 116]
    else if b == 10 then [92, 110]
    else if b == 12 then [92, 102]
    else if b == 13 then [92, 114]
    else if b == 92 then [92, 92]
    else if b == q then [92, q]
    else [b]
  }

  function EscapedText(t: bytes, q: byte): bytes {
    if t == [] then [] else EscapeByte(t[0], q) + EscapedText(t[1..], q)
  }

  lemma EscapeByteRead(s: bytes, p: nat, q: byte, b: byte, out: bytes)
    requires (q == 34 || q == 39) && At(s, p, EscapeByte(b, q)) && |out| < 1048575
    ensures var e := EscapeByte(b, q);
            p + |e| <= |s| && StringFrom(s, p, q, out) == StringFrom(s, p + |e|, q, out + [b])
  {
    if |EscapeByte(b, q)| == 1 {
      AtByte(s, p, b);
    } else {
      var e := EscapeByte(b, q)[1];
      assert EscapeByte(b, q) == [92] + [e];
      AtSplit(s, p, [92], [e]);
      AtByte(s, p, 92);
      AtByte(s, p + 1, e);
    }
  }

  lemma StringCloses(s: bytes, p: nat, q: byte, out: bytes)
    requires (q == 34 || q == 39) && At(s, p, [q]) && |out| < 1048575
    ensures p < |s| && StringFrom(s, p, q, out) == Done(out, p + 1)
  {
    AtByte(s, p, q);
  }

  /** Every byte string of at most 2^20 - 2 bytes comes back from its escaped text, behind what was read before. */
  lemma {:induction false} EscapedRead(s: bytes, p: nat, q: byte, t: bytes, out: bytes)
    requires (q == 34 || q == 39) && |out| + |t| <= 1048574 && At(s, p, EscapedText(t, q) + [q])
    ensures p <= |s| && StringFrom(s, p, q, out) == Done(out + t, p + |EscapedText(t, q)| + 1)
    decreases |t|
  {
    hide At, StringFrom, EscapeByte;
    if t == [] {
      assert EscapedText(t, q) + [q] == [q];
      StringCloses(s, p, q, out);
      assert out + t == out;
    } else {
      var e, u := EscapeByte(t[0], q), EscapedText(t[1..], q);
      assert EscapedText(t, q) + [q] == e + (u + [q]);
      AtSplit(s, p, e, u + [q]);
      EscapeByteRead(s, p, q, t[0], out);
      EscapedRead(s, p + |e|, q, t[1..], out + [t[0]]);
      assert out + [t[0]] + t[1..] == out + t;
    }
  }

  /** A string value written in quotes with these escapes, behind blanks and before anything, is read back. */
  lemma StringCarries(s: bytes, p: nat, ws: bytes, q: byte, t: bytes, strtod: bytes -> bool)
    requires (q == 34 || q == 39) && Blank(ws) && |t| <= 1048574
    requires At(s, p, ws + ([q] + (EscapedText(t, q) + [q])))
    ensures p <= |s| && ParseValue(s, p, strtod) == Done(Str(t), p + |ws| + |EscapedText(t, q)| + 2)
  {
    hide At, StringFrom, ParseValue, EscapedText;
    var b := p + |ws|;
    AtSplit(s, p, ws, [q] + (EscapedText(t, q) + [q]));
    AtSplit(s, b, [q], EscapedText(t, q) + [q]);
    AtByte(s, b, q);
    AtSplit(s, p, ws, [q]);
    CharactersIff(q);
    AfterBlanks(s, p, ws, q);
    EscapedRead(s, b + 1, q, t, []);
    assert [] + t == t;
    OpensString(s, p, b, strtod);
  }

  // Literals and doubles

  /** w is the lower-case word t with any of its letters in upper case. */
  predicate InEitherCase(w: bytes, t: bytes) {
    |w| == |t| && forall i :: 0 <= i < |t| ==> w[i] == t[i] || w[i] as int == t[i] as int - 32
  }

  predicate LowerCase(t: bytes) {
    forall i :: 0 <= i < |t| ==> 97 <= t[i] <= 122
  }

  lemma FoldIff(w: bytes, t: bytes)
    requires LowerCase(t)
    ensures SameFold(w, t) <==> InEitherCase(w, t)
  {
    if |w| == |t| {
      assert forall i :: 0 <= i < |t| ==>
        (Lower(w[i]) == Lower(t[i]) <==> w[i] == t[i] || w[i] as int == t[i] as int - 32);
    }
  }

  /** null, true and false in any mixture of cases are the literals, and nothing else is. */
  lemma LiteralIff(t: bytes, strtod: bytes -> bool)
    ensures PrimitiveValue(t, strtod) == Some(Null) <==> InEitherCase(t, [110, 117, 108, 108])
    ensures PrimitiveValue(t, strtod) == Some(Bool(1)) <==> InEitherCase(t, [116, 114, 117, 101])
    ensures PrimitiveValue(t, strtod) == Some(Bool(0)) <==> InEitherCase(t, [102, 97, 108, 115, 101])
  {
    FoldIff(t, [110, 117, 108, 108]);
    FoldIff(t, [116, 114, 117, 101]);
    FoldIff(t, [102, 97, 108, 115, 101]);
    if InEitherCase(t, [116, 114, 117, 101]) {
      assert t[0] != 110 && t[0] != 78;
    }
    hide SameFold, IntValue, HexValue;
  }

  /** A double is a number with a point or an exponent, of at most 31 characters, that strtod reads to its end. */
  lemma DoubleIff(t: bytes, x: bytes, strtod: bytes -> bool)
    ensures PrimitiveValue(t, strtod) == Some(Double(x)) <==>
            && x == t && t != [] && (48 <= t[0] <= 57 || t[0] == 46 || t[0] == 43 || t[0] == 45)
            && !(|t| > 2 && t[0] == 48 && (t[1] == 120 || t[1] == 88))
            && (exists i :: 0 <= i < |t| && (t[i] == 46 || t[i] == 101 || t[i] == 69))
            && |t| <= 31 && strtod(t)
  {
    hide IntValue, HexValue;
    if t != [] && (48 <= t[0] <= 57 || t[0] == 46 || t[0] == 43 || t[0] == 45) {
      NoLiteral(t);
    }
    if i :| 0 <= i < |t| && (t[i] == 46 || t[i] == 101 || t[i] == 69) {
      assert IsDoubleMark(t[i]);
    }
    if Scan(t, 0, IsDoubleMark) < |t| {
      var k := Scan(t, 0, IsDoubleMark);
      assert t[k] == 46 || t[k] == 101 || t[k] == 69;
    }
  }

  lemma NoLiteral(t: bytes)
    requires t != [] && (48 <= t[0] <= 57 || t[0] == 46 || t[0] == 43 || t[0] == 45)
    ensures !SameFold(t, TEXT_NULL) && !SameFold(t, TEXT_TRUE) && !SameFold(t, TEXT_FALSE)
  {
  }

  const EXAMPLE_FIELD := Field([97], Bool(1))
  const EXAMPLE_OBJECT: Value := Obj([EXAMPLE_FIELD])

  lemma ExampleObject()
    ensures JsonPrinter.Print(EXAMPLE_OBJECT) == [123, 34, 97, 34, 58, 116, 114, 117, 101, 125]
    ensures JsonPrinter.Printable(EXAMPLE_OBJECT)
  {
    var fs := [EXAMPLE_FIELD];
    assert fs[1..] == [];
    JsonPrinter.UnitsOfClean([97]);
    assert JsonPrinter.Quoted([97]) == [34, 97, 34];
    assert JsonPrinter.PrintField(EXAMPLE_FIELD) == [34, 97, 34, 58, 116, 114, 117, 101];
    assert JsonPrinter.PrintMembers(fs) == JsonPrinter.PrintField(EXAMPLE_FIELD);
    assert JsonPrinter.PrintableMembers(fs[1..]);
    assert JsonPrinter.Clean([97]) && JsonPrinter.Printable(Bool(1));
    assert JsonPrinter.PrintableMembers(fs);
    hide JsonPrinter.PrintMembers, JsonPrinter.PrintField, JsonPrinter.Quoted;
  }

  lemma ExampleArray()
    ensures var v := Arr([Int(-1), EXAMPLE_OBJECT]);
            && JsonPrinter.Print(v) == [91, 45, 49, 44, 123, 34, 97, 34, 58, 116, 114, 117, 101, 125, 93]
            && JsonPrinter.Printable(v)
  {
    ExampleObject();
    var vs := [Int(-1), EXAMPLE_OBJECT];
    assert vs[1..] == [EXAMPLE_OBJECT] && vs[1..][1..] == [];
    assert JsonPrinter.Print(Int(-1)) == [45, 49];
    assert JsonPrinter.Printable(Int(-1));
    hide JsonPrinter.PrintMembers, JsonPrinter.PrintableMembers, EXAMPLE_OBJECT;
    assert JsonPrinter.PrintItems(vs[1..]) == JsonPrinter.Print(EXAMPLE_OBJECT);
    assert JsonPrinter.PrintableItems(vs[1..][1..]);
    assert JsonPrinter.PrintableItems(vs[1..]);
    assert JsonPrinter.PrintItems(vs) == [45, 49] + [44] + JsonPrinter.PrintItems(vs[1..]);
  }

  /** [-1,{"a":true}] and what it is read as: brackets, braces, comma and colon in their places. */
  lemma StructureExample(strtod: bytes -> bool)
    ensures Parse([91, 45, 49, 44, 123, 34, 97, 34, 58, 116, 114, 117, 101, 125, 93], strtod) ==
            Done(Arr([Int(-1), Obj([Field([97], Bool(1))])]), 15)
  {
    var v := Arr([Int(-1), EXAMPLE_OBJECT]);
    ExampleArray();
    hide Parse, JsonPrinter.Print, JsonPrinter.Printable;
    JsonPrinter.RoundTrip(v, [], strtod);
    assert JsonPrinter.Print(v) + [] == JsonPrinter.Print(v);
  }
}
