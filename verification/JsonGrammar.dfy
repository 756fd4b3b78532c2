/**
 * The relaxed JSON grammar (sections 4 to 7 of RFC 8259, relaxed): concrete syntax trees, the text and the
 * value of each. The reader is proved to accept exactly these texts.
 */
module JsonGrammar {
  import opened Bytes
  import opened Json

  /** One character of a string body: written as itself or as an escape. */
  datatype Unit = Plain(b: byte) | Escaped(e: byte)

  /** Every blank of the text is kept; a primitive is its text. */
  datatype Tree =
    | TPrim(ws: bytes, text: bytes)
    | TStr(ws: bytes, q: byte, units: seq<Unit>)
    | TArr(ws: bytes, items: Items)
    | TObj(ws: bytes, members: Members)

  /** Behind '[' or a comma up to ']'. */
  datatype Items =
    | NoItem(ws: bytes)
    | LastItem(v: Tree, after: bytes)
    | Item(v: Tree, after: bytes, rest: Items)

  /** ws quote units quote ws ':' */
  datatype Name = Name(ws: bytes, q: byte, units: seq<Unit>, after: bytes)

  /** Behind '{' or a comma up to '}'. */
  datatype Members =
    | NoMember(ws: bytes)
    | LastMember(name: Name, v: Tree, after: bytes)
    | Member(name: Name, v: Tree, after: bytes, rest: Members)

  // Texts

  function UnitText(u: Unit): bytes {
    match u
    case Plain(b) => [b]
    case Escaped(e) => [BACKSLASH, e]
  }

  function UnitsText(us: seq<Unit>): bytes {
    if us == [] then [] else UnitText(us[0]) + UnitsText(us[1..])
  }

  function NameText(n: Name): bytes {
    n.ws + [n.q] + (UnitsText(n.units) + [n.q]) + n.after + [COLON]
  }

  function Text(t: Tree): bytes {
    match t
    case TPrim(ws, text) => ws + text
    case TStr(ws, q, us) => ws + [q] + (UnitsText(us) + [q])
    case TArr(ws, items) => ws + [LBRACKET] + ItemsText(items)
    case TObj(ws, members) => ws + [LBRACE] + MembersText(members)
  }

  function ItemsText(i: Items): bytes {
    match i
    case NoItem(ws) => ws + [RBRACKET]
    case LastItem(v, after) => Text(v) + after + [RBRACKET]
    case Item(v, after, rest) => Text(v) + after + [COMMA] + ItemsText(rest)
  }

  function MembersText(m: Members): bytes {
    match m
    case NoMember(ws) => ws + [RBRACE]
    case LastMember(n, v, after) => NameText(n) + Text(v) + after + [RBRACE]
    case Member(n, v, after, rest) => NameText(n) + Text(v) + after + [COMMA] + MembersText(rest)
  }

  // Values

  function UnitByte(u: Unit): byte
    requires u.Escaped? ==> Unescape(u.e).Some?
  {
    match u
    case Plain(b) => b
    case Escaped(e) => Unescape(e).value
  }

  predicate GoodUnit(u: Unit, q: byte) {
    match u
    case Plain(b) => b != BACKSLASH && b != q
    case Escaped(e) => Unescape(e).Some?
  }

  /** A string body between quotes q: no bare quote or backslash, only known escapes, not too long once decoded. */
  predicate GoodUnits(us: seq<Unit>, q: byte) {
    IsQuote(q) && |us| <= MAX_STRING - 2 && forall i :: 0 <= i < |us| ==> GoodUnit(us[i], q)
  }

  function Decoded(us: seq<Unit>, q: byte): bytes
    requires GoodUnits(us, q)
  {
    seq(|us|, i requires 0 <= i < |us| => assert GoodUnit(us[i], q); UnitByte(us[i]))
  }

  predicate Blank(ws: bytes) {
    forall i :: 0 <= i < |ws| ==> IsWs(ws[i])
  }

  predicate GoodName(n: Name) {
    Blank(n.ws) && GoodUnits(n.units, n.q) && n.units != [] && Blank(n.after)
  }

  predicate GoodPrimitive(text: bytes, strtod: bytes -> bool) {
    && text != [] && !IsQuote(text[0]) && (forall i :: 0 <= i < |text| ==> !IsDelimiter(text[i]))
    && PrimitiveValue(text, strtod).Some?
  }

  /** The tree is in the grammar; no comma stands before a closing bracket. */
  predicate Good(t: Tree, strtod: bytes -> bool) {
    Blank(t.ws) &&
    match t
    case TPrim(_, text) => GoodPrimitive(text, strtod)
    case TStr(_, q, us) => GoodUnits(us, q)
    case TArr(_, items) => GoodItems(items, strtod)
    case TObj(_, members) => GoodMembers(members, strtod)
  }

  predicate GoodItems(i: Items, strtod: bytes -> bool) {
    match i
    case NoItem(ws) => Blank(ws)
    case LastItem(v, after) => Good(v, strtod) && Blank(after)
    case Item(v, after, rest) => Good(v, strtod) && Blank(after) && !rest.NoItem? && GoodItems(rest, strtod)
  }

  predicate GoodMembers(m: Members, strtod: bytes -> bool) {
    match m
    case NoMember(ws) => Blank(ws)
    case LastMember(n, v, after) => GoodName(n) && Good(v, strtod) && Blank(after)
    case Member(n, v, after, rest) =>
      GoodName(n) && Good(v, strtod) && Blank(after) && !rest.NoMember? && GoodMembers(rest, strtod)
  }

  function NameValue(n: Name): bytes
    requires GoodName(n)
  {
    Decoded(n.units, n.q)
  }

  function Meaning(t: Tree, strtod: bytes -> bool): Value
    requires Good(t, strtod)
  {
    match t
    case TPrim(_, text) => PrimitiveValue(text, strtod).value
    case TStr(_, q, us) => Str(Decoded(us, q))
    case TArr(_, items) => Arr(ItemsMeaning(items, strtod))
    case TObj(_, members) => Obj(MembersMeaning(members, strtod))
  }

  function ItemsMeaning(i: Items, strtod: bytes -> bool): seq<Value>
    requires GoodItems(i, strtod)
  {
    match i
    case NoItem(_) => []
    case LastItem(v, _) => [Meaning(v, strtod)]
    case Item(v, _, rest) => [Meaning(v, strtod)] + ItemsMeaning(rest, strtod)
  }

  function MembersMeaning(m: Members, strtod: bytes -> bool): seq<Field>
    requires GoodMembers(m, strtod)
  {
    match m
    case NoMember(_) => []
    case LastMember(n, v, _) => [Field(NameValue(n), Meaning(v, strtod))]
    case Member(n, v, _, rest) => [Field(NameValue(n), Meaning(v, strtod))] + MembersMeaning(rest, strtod)
  }
}
