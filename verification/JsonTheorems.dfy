/** What the reader promises as a whole: exact acceptance, self-delimiting texts. */
module JsonTheorems {
  import opened Bytes
  import opened JsonNumber
  import opened Json
  import opened JsonGrammar
  import opened JsonAccepts
  import opened JsonSound

  /** The grammar reads v from s between p and e. */
  ghost predicate Reads(t: Tree, s: bytes, p: nat, v: Value, e: nat, strtod: bytes -> bool) {
    && Good(t, strtod) && Meaning(t, strtod) == v && At(s, p, Text(t)) && e == p + |Text(t)|
    && (t.TPrim? ==> Follows(s, e))
  }

  /** The reader succeeds precisely on the texts of the grammar, with their value and their length. */
  lemma AcceptanceExact(s: bytes, p: nat, v: Value, e: nat, strtod: bytes -> bool)
    requires p <= |s|
    ensures ParseValue(s, p, strtod) == Done(v, e) <==> exists t: Tree :: Reads(t, s, p, v, e, strtod)
  {
    hide ParseValue, Good, Meaning, At, Text;
    if ParseValue(s, p, strtod) == Done(v, e) {
      var t := ValueSound(s, p, strtod);
      assert Reads(t, s, p, v, e, strtod);
    }
    if t: Tree :| Reads(t, s, p, v, e, strtod) {
      ValueAccepted(s, p, t, strtod);
    }
  }

  /** The grammar is unambiguous: one value and one length for the text at p. */
  lemma Unambiguous(t: Tree, u: Tree, s: bytes, p: nat, v: Value, w: Value, d: nat, e: nat, strtod: bytes -> bool)
    requires Reads(t, s, p, v, d, strtod) && Reads(u, s, p, w, e, strtod)
    ensures v == w && d == e
  {
    hide ParseValue, Good, Meaning, At, Text;
    ValueAccepted(s, p, t, strtod);
    ValueAccepted(s, p, u, strtod);
  }

  predicate IsContainerOrString(v: Value) {
    v.Arr? || v.Obj? || v.Str?
  }

  lemma PrimitiveTreeMeaning(t: Tree, strtod: bytes -> bool)
    requires Good(t, strtod)
    ensures t.TPrim? <==> !IsContainerOrString(Meaning(t, strtod))
  {
    hide GoodItems, GoodMembers, HexValue, IntValue;
  }

  lemma AtExtends(s: bytes, x: bytes, p: nat, t: bytes)
    requires At(s, p, t)
    ensures At(s + x, p, t)
  {
    assert (s + x)[p..p + |t|] == s[p..p + |t|];
  }

  /** Containers and strings are self-delimiting, and so is a primitive that something follows. */
  lemma SelfDelimiting(s: bytes, p: nat, x: bytes, strtod: bytes -> bool)
    requires p <= |s| && ParseValue(s, p, strtod).Done?
    requires IsContainerOrString(ParseValue(s, p, strtod).v) || ParseValue(s, p, strtod).pos < |s|
    ensures ParseValue(s + x, p, strtod) == ParseValue(s, p, strtod)
  {
    hide ParseValue, Good, Meaning, Text, At;
    var t := ValueSound(s, p, strtod);
    PrimitiveTreeMeaning(t, strtod);
    AtExtends(s, x, p, Text(t));
    ValueAccepted(s + x, p, t, strtod);
  }

  /** A primitive at the very end is not: one more letter makes it another text. */
  lemma PrimitiveAtEndIsOpen(s: bytes, p: nat, b: byte, strtod: bytes -> bool)
    requires p <= |s| && ParseValue(s, p, strtod).Done? && !IsDelimiter(b)
    requires !IsContainerOrString(ParseValue(s, p, strtod).v) && ParseValue(s, p, strtod).pos == |s|
    ensures ParseValue(s + [b], p, strtod) != ParseValue(s, p, strtod)
  {
    var r := ParseValue(s, p, strtod);
    if ParseValue(s + [b], p, strtod) == r {
      hide ParseValue, Good, Meaning, Text, At;
      var t := ValueSound(s + [b], p, strtod);
      PrimitiveTreeMeaning(t, strtod);
    }
  }

  /** Exactly when the answer is final: no continuation changes it iff it is delimited within the text. */
  lemma FinalIff(s: bytes, p: nat, strtod: bytes -> bool)
    requires p <= |s| && ParseValue(s, p, strtod).Done?
    ensures (forall x: bytes :: ParseValue(s + x, p, strtod) == ParseValue(s, p, strtod)) <==>
            IsContainerOrString(ParseValue(s, p, strtod).v) || ParseValue(s, p, strtod).pos < |s|
  {
    hide ParseValue;
    var r := ParseValue(s, p, strtod);
    if IsContainerOrString(r.v) || r.pos < |s| {
      forall x: bytes
        ensures ParseValue(s + x, p, strtod) == r
      {
        SelfDelimiting(s, p, x, strtod);
      }
    } else {
      PrimitiveAtEndIsOpen(s, p, 97, strtod);
    }
  }

  // Strings and the limit of the scratch string

  lemma {:induction false} StringTooLong(s: bytes, p: nat, q: byte, us: seq<Unit>, out: bytes)
    requires IsQuote(q) && (forall i :: 0 <= i < |us| ==> GoodUnit(us[i], q)) && At(s, p, UnitsText(us) + [q])
    requires |out| <= MAX_STRING - 1 <= |out| + |us|
    ensures p <= |s| && StringFrom(s, p, q, out) == Fail(Error)
    decreases |us|
  {
    if |out| < MAX_STRING - 1 {
      var u, t := us[0], UnitText(us[0]);
      assert UnitsText(us) + [q] == t + (UnitsText(us[1..]) + [q]);
      AtSplit(s, p, t, UnitsText(us[1..]) + [q]);
      UnitRead(s, p, q, u, out);
      hide StringFrom, At, UnitText;
      StringTooLong(s, p + |t|, q, us[1..], out + [UnitByte(u)]);
    }
  }

  /** A closed string of known escapes is accepted exactly when it decodes to at most 2^20 - 2 bytes. */
  lemma StringLimit(s: bytes, p: nat, q: byte, us: seq<Unit>)
    requires IsQuote(q) && (forall i :: 0 <= i < |us| ==> GoodUnit(us[i], q)) && At(s, p, UnitsText(us) + [q])
    ensures p <= |s|
    ensures StringFrom(s, p, q, []).Done? <==> |us| <= MAX_STRING - 2
    ensures |us| > MAX_STRING - 2 ==> StringFrom(s, p, q, []) == Fail(Error)
  {
    hide StringFrom, At;
    if |us| <= MAX_STRING - 2 {
      StringAccepted(s, p, q, us, []);
    } else {
      StringTooLong(s, p, q, us, []);
    }
  }

  // Primitives, without the reader's loops

  /** 0x and 1 to 16 hexadecimal digits, read as a two's complement 64-bit number. */
  ghost predicate HexOf(t: bytes, i: int) {
    && IsHexText(t) && |t| <= 18 && AllHex(t[2..]) && HexNumber(t[2..]) < U64
    && i == Signed(HexNumber(t[2..]))
  }

  /** A decimal integer in the signed 64-bit range that neither starts with 0 nor is minus zero. */
  ghost predicate DecimalOf(t: bytes, i: int) {
    && t != [] && t[0] != ZERO && InRange(t) && i == Denoted(t)
  }

  ghost predicate NumberOf(t: bytes, v: Value, strtod: bytes -> bool) {
    match v
    case Int(i) => (t == [ZERO] && i == 0) || HexOf(t, i) || DecimalOf(t, i)
    case Double(text) =>
      && text == t != [] && IsNumberStart(t[0]) && !IsHexText(t) && |t| <= MAX_DOUBLE_TEXT
      && (exists i :: 0 <= i < |t| && IsDoubleMark(t[i])) && strtod(t)
    case _ => false
  }

  lemma HexReader(t: bytes, i: int)
    requires IsHexText(t)
    ensures HexValue(t[2..]) == Some(i) <==> HexOf(t, i)
  {
    var d := t[2..];
    if |d| <= 16 {
      assert d[..0] == [];
      HexExact(d, 0);
      if AllHex(d) {
        HexFits(d);
      }
    }
  }

  lemma DecimalHasNoMark(t: bytes)
    requires AllDigits(Magnitude(t))
    ensures Scan(t, 0, IsDoubleMark) == |t|
  {
    forall i | 0 <= i < |t|
      ensures !IsDoubleMark(t[i])
    {
      if IsNegative(t) && i > 0 {
        assert t[i] == Magnitude(t)[i - 1];
      } else if !IsNegative(t) {
        assert t[i] == Magnitude(t)[i];
      }
    }
    ScanIs(t, 0, IsDoubleMark, |t|);
  }

  lemma DecimalStart(t: bytes, i: int)
    requires DecimalOf(t, i)
    ensures IsNumberStart(t[0]) && !IsHexText(t) && Scan(t, 0, IsDoubleMark) == |t|
  {
    DecimalHasNoMark(t);
    if !IsNegative(t) {
      assert t[0] == Magnitude(t)[0];
    }
  }

  /** The number reader accepts exactly these texts, with these values. */
  lemma NumberExact(t: bytes, v: Value, strtod: bytes -> bool)
    ensures NumberValue(t, strtod) == Some(v) <==> NumberOf(t, v, strtod)
  {
    hide HexValue, IntValue, InRange, HexNumber, Denoted;
    IntExact(t);
    if IsHexText(t) {
      if v.Int? { HexReader(t, v.i); }
    }
    if v.Int? && DecimalOf(t, v.i) {
      DecimalStart(t, v.i);
    }
  }
}
