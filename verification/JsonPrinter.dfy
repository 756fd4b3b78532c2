/** The printer of parsed values, and the proof that the reader inverts it. */
module JsonPrinter {
  import opened Bytes
  import opened JsonNumber
  import opened Json
  import opened JsonGrammar
  import opened JsonAccepts
  import opened JsonTheorems

  /** What "%s" shows of a NUL-terminated copy of s. */
  function CString(s: bytes): bytes {
    s[..Scan(s, 0, IsNul)]
  }

  function Quoted(s: bytes): bytes {
    [DQUOTE] + CString(s) + [DQUOTE]
  }

  function PrintInt(i: int): bytes {
    if i < 0 then [MINUS] + Decimal(-i) else Decimal(i)
  }

  /** A double is printed by "%f" from its value; its text stands for that here. */
  function Print(v: Value): bytes
    decreases v, 1
  {
    match v
    case Null => TEXT_NULL
    case Bool(flag) => if flag == 0 then TEXT_FALSE else TEXT_TRUE
    case Int(i) => PrintInt(i)
    case Double(text) => text
    case Str(s) => Quoted(s)
    case Arr(vs) => [LBRACKET] + PrintItems(vs) + [RBRACKET]
    case Obj(fs) => [LBRACE] + PrintMembers(fs) + [RBRACE]
  }

  function PrintItems(vs: seq<Value>): bytes
    decreases vs, 0
  {
    if vs == [] then []
    else if |vs| == 1 then Print(vs[0])
    else Print(vs[0]) + [COMMA] + PrintItems(vs[1..])
  }

  function PrintField(f: Field): bytes
    decreases f, 0
  {
    Quoted(f.name) + [COLON] + Print(f.value)
  }

  function PrintMembers(fs: seq<Field>): bytes
    decreases fs, 0
  {
    if fs == [] then []
    else if |fs| == 1 then PrintField(fs[0])
    else PrintField(fs[0]) + [COMMA] + PrintMembers(fs[1..])
  }

  /** Strings the printer shows unescaped without harm. */
  predicate Clean(s: bytes) {
    |s| <= MAX_STRING - 2 && forall i :: 0 <= i < |s| ==> s[i] != DQUOTE && s[i] != BACKSLASH && s[i] != NUL
  }

  /** Null, 0/1 booleans, integers above -2^63, clean strings, and containers of these with non-empty clean names. */
  predicate Printable(v: Value)
    decreases v, 1
  {
    match v
    case Null => true
    case Bool(flag) => flag == 0 || flag == 1
    case Int(i) => 0 - I64_MAX <= i <= I64_MAX
    case Double(_) => false
    case Str(s) => Clean(s)
    case Arr(vs) => PrintableItems(vs)
    case Obj(fs) => PrintableMembers(fs)
  }

  predicate PrintableItems(vs: seq<Value>)
    decreases vs, 0
  {
    vs == [] || (Printable(vs[0]) && PrintableItems(vs[1..]))
  }

  predicate PrintableMembers(fs: seq<Field>)
    decreases fs, 0
  {
    fs == [] || (Clean(fs[0].name) && fs[0].name != [] && Printable(fs[0].value) && PrintableMembers(fs[1..]))
  }

  lemma {:induction false} MembersPrintable(fs: seq<Field>)
    requires forall f :: f in fs ==> Clean(f.name) && f.name != [] && Printable(f.value)
    ensures PrintableMembers(fs)
    decreases |fs|
  {
    hide Clean, Printable;
    if fs != [] {
      MembersPrintable(fs[1..]);
    }
  }

  // The tree of the printed text

  function Units(s: bytes): seq<Unit> {
    seq(|s|, i requires 0 <= i < |s| => Plain(s[i]))
  }

  function TreeOf(v: Value): Tree
    decreases v, 1
  {
    match v
    case Arr(vs) => TArr([], ItemsOf(vs))
    case Obj(fs) => TObj([], MembersOf(fs))
    case Str(s) => TStr([], DQUOTE, Units(s))
    case Null => TPrim([], TEXT_NULL)
    case Bool(flag) => TPrim([], if flag == 0 then TEXT_FALSE else TEXT_TRUE)
    case Int(i) => TPrim([], PrintInt(i))
    case Double(text) => TPrim([], text)
  }

  function ItemsOf(vs: seq<Value>): Items
    decreases vs, 0
  {
    if vs == [] then NoItem([])
    else if |vs| == 1 then LastItem(TreeOf(vs[0]), [])
    else Item(TreeOf(vs[0]), [], ItemsOf(vs[1..]))
  }

  function NameOf(s: bytes): Name {
    Name([], DQUOTE, Units(s), [])
  }

  function MembersOf(fs: seq<Field>): Members
    decreases fs, 0
  {
    if fs == [] then NoMember([])
    else if |fs| == 1 then LastMember(NameOf(fs[0].name), TreeOf(fs[0].value), [])
    else Member(NameOf(fs[0].name), TreeOf(fs[0].value), [], MembersOf(fs[1..]))
  }

  lemma {:induction false} UnitsOfClean(s: bytes)
    requires Clean(s)
    ensures UnitsText(Units(s)) == s == CString(s)
    ensures GoodUnits(Units(s), DQUOTE) && Decoded(Units(s), DQUOTE) == s
  {
    ScanIs(s, 0, IsNul, |s|);
    UnitsTextPlain(s);
    assert GoodUnits(Units(s), DQUOTE);
    assert Decoded(Units(s), DQUOTE) == s;
  }

  lemma {:induction false} UnitsTextPlain(s: bytes)
    ensures UnitsText(Units(s)) == s
  {
    if s != [] {
      UnitsTextPlain(s[1..]);
      assert Units(s)[1..] == Units(s[1..]);
      assert [s[0]] + s[1..] == s;
    }
  }

  lemma IntTextIs(i: int, strtod: bytes -> bool)
    requires 0 - I64_MAX <= i <= I64_MAX
    ensures var t := PrintInt(i);
            && NumberValue(t, strtod) == Some(Int(i))
            && t != [] && forall k :: 0 <= k < |t| ==> IsDigit(t[k]) || t[k] == MINUS
  {
    var t := PrintInt(i);
    if i < 0 {
      assert Magnitude(t) == Decimal(-i);
    }
    NumberExact(t, Int(i), strtod);
  }

  lemma BareTree(t: bytes, v: Value, strtod: bytes -> bool)
    requires t != [] && !IsQuote(t[0]) && (forall i :: 0 <= i < |t| ==> !IsDelimiter(t[i]))
    requires PrimitiveValue(t, strtod) == Some(v)
    ensures Good(TPrim([], t), strtod) && Meaning(TPrim([], t), strtod) == v && Text(TPrim([], t)) == t
  {
    hide PrimitiveValue, IsDelimiter;
  }

  lemma LiteralValues(strtod: bytes -> bool)
    ensures PrimitiveValue(TEXT_NULL, strtod) == Some(Null)
    ensures PrimitiveValue(TEXT_TRUE, strtod) == Some(Bool(1))
    ensures PrimitiveValue(TEXT_FALSE, strtod) == Some(Bool(0))
  {
    hide NumberValue;
    assert Lower(TEXT_TRUE[0]) != Lower(TEXT_NULL[0]);
  }

  lemma IntIsNoLiteral(t: bytes, strtod: bytes -> bool)
    requires t != [] && (IsDigit(t[0]) || t[0] == MINUS)
    ensures PrimitiveValue(t, strtod) == NumberValue(t, strtod)
  {
    hide NumberValue;
  }

  lemma PrimitiveTree(v: Value, strtod: bytes -> bool)
    requires Printable(v) && !IsContainerOrString(v)
    ensures Good(TreeOf(v), strtod) && Meaning(TreeOf(v), strtod) == v && Text(TreeOf(v)) == Print(v)
  {
    hide Good, Meaning, Text, NumberValue, PrimitiveValue;
    LiteralValues(strtod);
    match v
    case Int(i) =>
      IntTextIs(i, strtod);
      var t := PrintInt(i);
      hide PrintInt;
      IntIsNoLiteral(t, strtod);
      assert forall k :: 0 <= k < |t| ==> (IsDigit(t[k]) || t[k] == MINUS) && !IsDelimiter(t[k]);
      BareTree(t, v, strtod);
    case Bool(flag) => BareTree(Print(v), v, strtod);
    case Null => BareTree(TEXT_NULL, v, strtod);
  }

  lemma NoBlanks()
    ensures Blank([])
  {
  }

  lemma {:induction false} TreeOfValue(v: Value, strtod: bytes -> bool)
    requires Printable(v)
    ensures Good(TreeOf(v), strtod) && Meaning(TreeOf(v), strtod) == v && Text(TreeOf(v)) == Print(v)
    decreases v, 1
  {
    hide PrimitiveValue, GoodPrimitive, GoodUnits, Decoded, Units, UnitsText, Clean, CString, Blank;
    assert Blank([]) by { NoBlanks(); }
    match v
    case Arr(vs) =>
      TreeOfItems(vs, strtod);
      assert [] + [LBRACKET] == [LBRACKET];
    case Obj(fs) =>
      TreeOfMembers(fs, strtod);
      assert [] + [LBRACE] == [LBRACE];
    case Str(s) =>
      UnitsOfClean(s);
      assert [] + [DQUOTE] == [DQUOTE];
    case _ => PrimitiveTree(v, strtod);
  }

  lemma {:induction false} TreeOfItems(vs: seq<Value>, strtod: bytes -> bool)
    requires PrintableItems(vs)
    ensures GoodItems(ItemsOf(vs), strtod) && ItemsMeaning(ItemsOf(vs), strtod) == vs
    ensures ItemsText(ItemsOf(vs)) == PrintItems(vs) + [RBRACKET]
    decreases vs, 0
  {
    hide Good, Meaning, Text, Print, Printable;
    if vs != [] {
      TreeOfValue(vs[0], strtod);
      if |vs| == 1 {
        assert Text(TreeOf(vs[0])) + [] == Print(vs[0]);
      } else {
        TreeOfItems(vs[1..], strtod);
        assert vs == [vs[0]] + vs[1..];
        assert Text(TreeOf(vs[0])) + [] + [COMMA] == Print(vs[0]) + [COMMA];
      }
    }
  }

  lemma NameTextIs(s: bytes)
    requires Clean(s) && s != []
    ensures GoodName(NameOf(s)) && NameValue(NameOf(s)) == s && NameText(NameOf(s)) == Quoted(s) + [COLON]
  {
    UnitsOfClean(s);
    hide Units, UnitsText, Decoded;
    assert |Units(s)| == |s| by { UnitsLength(s); }
  }

  lemma UnitsLength(s: bytes)
    ensures |Units(s)| == |s|
  {
  }

  lemma {:induction false} TreeOfMembers(fs: seq<Field>, strtod: bytes -> bool)
    requires PrintableMembers(fs)
    ensures GoodMembers(MembersOf(fs), strtod) && MembersMeaning(MembersOf(fs), strtod) == fs
    ensures MembersText(MembersOf(fs)) == PrintMembers(fs) + [RBRACE]
    decreases fs, 0
  {
    hide Good, Meaning, Text, Print, Printable, GoodName, NameValue, NameText, NameOf, Quoted, Clean;
    if fs != [] {
      NameTextIs(fs[0].name);
      TreeOfValue(fs[0].value, strtod);
      var n, v := NameText(NameOf(fs[0].name)), Text(TreeOf(fs[0].value));
      assert n + v == PrintField(fs[0]);
      if |fs| == 1 {
        assert n + v + [] == PrintField(fs[0]);
      } else {
        TreeOfMembers(fs[1..], strtod);
        assert fs == [fs[0]] + fs[1..];
        assert n + v + [] + [COMMA] == PrintField(fs[0]) + [COMMA];
      }
    }
  }

  /**
   * Round trip: reading the printed text of an object or array, whatever follows it, gives the value back
   * and stops exactly behind it; a primitive needs a delimiter or the end of the text behind it.
   */
  lemma RoundTrip(v: Value, rest: bytes, strtod: bytes -> bool)
    requires Printable(v)
    requires IsContainerOrString(v) || rest == [] || IsDelimiter(rest[0])
    ensures Parse(Print(v) + rest, strtod) == Done(v, |Print(v)|)
  {
    hide Good, Meaning, Text, At, ParseValue, Print, Printable, TreeOf, Follows, IsDelimiter;
    var s, t := Print(v) + rest, TreeOf(v);
    TreeOfValue(v, strtod);
    PrimitiveTreeMeaning(t, strtod);
    AtPrefix(Print(v), rest);
    ValueAccepted(s, 0, t, strtod);
    TextNotEmpty(t, strtod);
  }

  lemma AtPrefix(t: bytes, rest: bytes)
    ensures At(t + rest, 0, t)
    ensures rest == [] || IsDelimiter(rest[0]) ==> Follows(t + rest, |t|)
  {
  }

  lemma TextNotEmpty(t: Tree, strtod: bytes -> bool)
    requires Good(t, strtod)
    ensures Text(t) != []
  {
    hide GoodItems, GoodMembers, PrimitiveValue;
  }

  // The printer as it runs

  lemma Pow10At20()
    ensures Pow10(20) > U64
  {
    assert Pow10(5) == 10_0000;
    assert Pow10(10) == 100_0000_0000;
    assert Pow10(15) == 1000_0000_0000_0000;
  }

  /** The digits still to be written in front of those in the buffer. */
  function Ahead(u: nat): bytes {
    if u == 0 then [] else Decimal(u)
  }

  lemma NothingAhead()
    ensures Ahead(0) == []
  {
  }

  /** One turn of the array loop prints the head of what is left. */
  lemma ItemsTail(vs: seq<Value>, n: nat)
    requires n < |vs|
    ensures PrintItems(vs[n..]) == Print(vs[n]) + (if n < |vs| - 1 then [COMMA] + PrintItems(vs[n + 1..]) else [])
    ensures n == |vs| - 1 ==> PrintItems(vs[n + 1..]) == []
  {
    hide Print;
    assert vs[n..][0] == vs[n] && vs[n..][1..] == vs[n + 1..];
  }

  /** One turn of the object loop prints the head of what is left. */
  lemma MembersTail(fs: seq<Field>, n: nat)
    requires n < |fs|
    ensures n < |fs| - 1 ==> PrintMembers(fs[n..]) == PrintField(fs[n]) + [COMMA] + PrintMembers(fs[n + 1..])
    ensures n == |fs| - 1 ==> PrintMembers(fs[n..]) == PrintField(fs[n]) && PrintMembers(fs[n + 1..]) == []
  {
    hide PrintField;
    assert fs[n..][0] == fs[n] && fs[n..][1..] == fs[n + 1..];
  }

  lemma DigitStep(u: nat)
    requires u > 0
    ensures Ahead(u / 10) + [ZERO + u % 10] == Decimal(u) == Ahead(u)
  {
  }

  lemma OneDigitLess(u: nat, k: nat)
    requires 0 < u < Pow10(k)
    ensures k > 0 && u / 10 < Pow10(k - 1)
  {
  }

  lemma FirstDigit(u64: nat)
    requires u64 < U64
    ensures u64 / 10 < Pow10(19) && Ahead(u64 / 10) + [ZERO + u64 % 10] == Decimal(u64)
  {
    Pow10At20();
    if u64 > 0 {
      DigitStep(u64);
      OneDigitLess(u64, 20);
    }
  }

  /** Digits from the right into the first 27 bytes of a buffer: a 64-bit number needs 20 of them. */
  method WriteDigits(numbuf: array<byte>, u64: nat) returns (pos: nat)
    requires numbuf.Length == 28 && u64 < U64
    modifies numbuf
    ensures 7 <= pos < 27 && numbuf[pos..27] == Decimal(u64)
  {
    hide Pow10, Decimal, Ahead;
    FirstDigit(u64);
    pos := 26;
    numbuf[pos] := ZERO + u64 % 10;
    var u: nat := u64 / 10;
    assert numbuf[pos..27] == [ZERO + u64 % 10];
    while u != 0
      invariant 7 <= pos <= 26
      invariant u < Pow10(pos - 7)
      invariant Ahead(u) + numbuf[pos..27] == Decimal(u64)
    {
      OneDigitLess(u, pos - 7);
      DigitStep(u);
      ghost var tail := numbuf[pos..27];
      pos := pos - 1;
      numbuf[pos] := ZERO + u % 10;
      assert numbuf[pos + 1..27] == tail;
      assert numbuf[pos..27] == [numbuf[pos]] + numbuf[pos + 1..27];
      assert Ahead(u / 10) + ([ZERO + u % 10] + tail) == Ahead(u) + tail;
      u := u / 10;
    }
    NothingAhead();
    assert [] + numbuf[pos..27] == numbuf[pos..27];
  }

  class Printer {
    var out: bytes

    constructor ()
      ensures out == []
    {
      out := [];
    }

    method PrintNumber(u64: nat)
      requires u64 < U64
      modifies this
      ensures out == old(out) + Decimal(u64)
    {
      var numbuf := new byte[28];
      numbuf[27] := NUL;
      var pos := WriteDigits(numbuf, u64);
      out := out + numbuf[pos..27];
    }

    method PrintText(t: bytes)
      modifies this
      ensures out == old(out) + t
    {
      out := out + t;
    }

    /** "%s" in quotes: up to the first NUL. */
    method PrintQuoted(s: bytes)
      modifies this
      ensures out == old(out) + Quoted(s)
    {
      var n := 0;
      while n < |s| && s[n] != NUL
        invariant n <= |s|
        invariant Scan(s, n, IsNul) == Scan(s, 0, IsNul)
      {
        n := n + 1;
      }
      out := out + [DQUOTE] + s[..n] + [DQUOTE];
      assert out == old(out) + Quoted(s);
    }

    method PrintSigned(i: int)
      requires 0 - I64_MAX <= i <= I64_MAX
      modifies this
      ensures out == old(out) + PrintInt(i)
    {
      hide Decimal;
      if i < 0 {
        PrintText([MINUS]);
        PrintNumber(-i);
      } else {
        PrintNumber(i);
      }
    }

    method PrintValue(v: Value)
      requires IntsFit(v)
      modifies this
      ensures out == old(out) + Print(v)
      decreases v, 1
    {
      hide PrintInt, Quoted, PrintItems, PrintMembers;
      match v
      case Null => PrintText(TEXT_NULL);
      case Bool(flag) => PrintText(if flag == 0 then TEXT_FALSE else TEXT_TRUE);
      case Int(i) => PrintSigned(i);
      case Double(text) => PrintText(text);
      case Str(s) => PrintQuoted(s);
      case Arr(vs) => PrintArray(vs);
      case Obj(fs) => PrintObject(fs);
    }

    method PrintArray(vs: seq<Value>)
      requires forall v :: v in vs ==> IntsFit(v)
      modifies this
      ensures out == old(out) + ([LBRACKET] + PrintItems(vs) + [RBRACKET])
      decreases vs, 0
    {
      hide Print, PrintItems;
      PrintText([LBRACKET]);
      ghost var start := out;
      assert vs[0..] == vs;
      for n := 0 to |vs|
        invariant out + PrintItems(vs[n..]) == start + PrintItems(vs)
      {
        ItemsTail(vs, n);
        PrintValue(vs[n]);
        if n < |vs| - 1 {
          PrintText([COMMA]);
        }
      }
      NothingLeft(vs);
      assert out + [] == out;
      PrintText([RBRACKET]);
    }

    method PrintObject(fs: seq<Field>)
      requires forall f :: f in fs ==> IntsFit(f.value)
      modifies this
      ensures out == old(out) + ([LBRACE] + PrintMembers(fs) + [RBRACE])
      decreases fs, 0
    {
      hide Print, PrintMembers;
      PrintText([LBRACE]);
      ghost var start := out;
      assert fs[0..] == fs;
      for n := 0 to |fs|
        invariant out + PrintMembers(fs[n..]) == start + PrintMembers(fs)
      {
        MembersTail(fs, n);
        PrintQuoted(fs[n].name);
        PrintText([COLON]);
        PrintValue(fs[n].value);
        if n < |fs| - 1 {
          PrintText([COMMA]);
        }
      }
      NoMemberLeft(fs);
      assert out + [] == out;
      PrintText([RBRACE]);
    }
  }

  lemma NothingLeft(vs: seq<Value>)
    ensures PrintItems(vs[|vs|..]) == []
  {
  }

  lemma NoMemberLeft(fs: seq<Field>)
    ensures PrintMembers(fs[|fs|..]) == []
  {
  }

  /** The integers are values of int64_t other than -2^63, whose negation C does not define. */
  predicate IntsFit(v: Value)
    decreases v
  {
    match v
    case Int(i) => 0 - I64_MAX <= i <= I64_MAX
    case Arr(vs) => forall x :: x in vs ==> IntsFit(x)
    case Obj(fs) => forall f :: f in fs ==> IntsFit(f.value)
    case _ => true
  }
}
