/** The relaxed JSON reader as functions of a text and a position. */
module Json {
  import opened Bytes
  import opened JsonNumber

  const MAX_STRING: nat := 0x10_0000          // the scratch string never grows beyond this
  const MAX_DOUBLE_TEXT: nat := 31

  const TEXT_NULL: bytes := [110, 117, 108, 108]         // "null"
  const TEXT_TRUE: bytes := [116, 114, 117, 101]         // "true"
  const TEXT_FALSE: bytes := [102, 97, 108, 115, 101]    // "false"

  /** A double is kept as its text: its value is what strtod makes of it. */
  datatype Value =
    | Null
    | Bool(flag: int)
    | Int(i: int)
    | Double(text: bytes)
    | Str(s: bytes)
    | Arr(vs: seq<Value>)
    | Obj(fs: seq<Field>)

  datatype Field = Field(name: bytes, value: Value)

  datatype Why = Error | Syntax | Eof | NotSupported

  datatype Result<+T> = Fail(why: Why) | Done(v: T, pos: nat)

  predicate IsWs(b: byte) { b == SP || b == CR || b == LF || b == TAB }
  predicate NotWs(b: byte) { !IsWs(b) }
  predicate IsDelimiter(b: byte) {
    IsWs(b) || b == COMMA || b == COLON || b == LBRACKET || b == RBRACKET || b == LBRACE || b == RBRACE
  }

  /** The byte an escape letter stands for. */
  function Unescape(b: byte): Option<byte> {
    if b == 98 then Some(8)              // \b
    else if b == 116 then Some(TAB)      // \t
    else if b == 110 then Some(LF)       // \n
    else if b == 102 then Some(12)       // \f
    else if b == 114 then Some(CR)       // \r
    else if IsQuote(b) || b == BACKSLASH || b == SLASH then Some(b)
    else None
  }

  /** A string body from p on, closed by q, with `out` decoded so far. */
  function StringFrom(s: bytes, p: nat, q: byte, out: bytes): (r: Result<bytes>)
    requires p <= |s|
    ensures r.Done? ==> p < r.pos <= |s|
    decreases |s| - p
  {
    if p == |s| then Fail(Eof)
    else if |out| >= MAX_STRING - 1 then Fail(Error)
    else if s[p] == BACKSLASH then
      if p + 1 >= |s| then Fail(Eof)
      else
        match Unescape(s[p + 1])
        case Some(b) => StringFrom(s, p + 2, q, out + [b])
        case None => Fail(if s[p + 1] == 117 then NotSupported else Syntax)   // \u
    else if s[p] == q then Done(out, p + 1)
    else StringFrom(s, p + 1, q, out + [s[p]])
  }

  predicate IsDoubleMark(b: byte) { b == DOT || b == 101 || b == 69 }   // '.', 'e', 'E'

  predicate IsNumberStart(b: byte) { IsDigit(b) || b == DOT || b == PLUS || b == MINUS }

  predicate IsHexText(t: bytes) {
    |t| > 2 && t[0] == ZERO && (t[1] == 120 || t[1] == 88)   // 'x', 'X'
  }

  function HexValue(d: bytes): Option<int> {
    if |d| > 16 then None
    else
      HexBound(d);
      match HexFrom(d, 0, 0)
      case None => None
      case Some(u) => Some(Signed(u))
  }

  lemma HexBound(d: bytes)
    requires |d| <= 16
    ensures HexFrom(d, 0, 0).Some? ==> HexFrom(d, 0, 0).value < U64
  {
    assert d[..0] == [];
    HexExact(d, 0);
  }

  /** What the text of a primitive means; strtod says which texts of a double it reads to the end. */
  function PrimitiveValue(t: bytes, strtod: bytes -> bool): Option<Value> {
    if SameFold(t, TEXT_NULL) then Some(Null)
    else if SameFold(t, TEXT_TRUE) then Some(Bool(1))
    else if SameFold(t, TEXT_FALSE) then Some(Bool(0))
    else NumberValue(t, strtod)
  }

  function NumberValue(t: bytes, strtod: bytes -> bool): Option<Value> {
    if t == [] || !IsNumberStart(t[0]) then None
    else if t == [ZERO] then Some(Int(0))
    else if IsHexText(t) then
      var h := HexValue(t[2..]);
      if h.None? then None else Some(Int(h.value))
    else if Scan(t, 0, IsDoubleMark) < |t| then
      if |t| > MAX_DOUBLE_TEXT || !strtod(t) then None else Some(Double(t))
    else if t[0] == ZERO then None
    else
      var i := IntValue(t);
      if i.None? then None else Some(Int(i.value))
  }

  /** Null, boolean or number: the text up to the next delimiter. */
  function Primitive(s: bytes, p: nat, strtod: bytes -> bool): (r: Result<Value>)
    requires p < |s|
    ensures r.Done? ==> p < r.pos <= |s|
  {
    var e := Scan(s, p, IsDelimiter);
    match PrimitiveValue(s[p..e], strtod)
    case None => Fail(Syntax)
    case Some(v) => Done(v, e)
  }

  function ParseValue(s: bytes, p: nat, strtod: bytes -> bool): (r: Result<Value>)
    requires p <= |s|
    ensures r.Done? ==> p < r.pos <= |s|
    decreases |s| - p, 0
  {
    var b := Scan(s, p, NotWs);
    if b == |s| then Fail(Eof)
    else if s[b] == LBRACE then
      match ParseMembers(s, b + 1, false, strtod)
      case Fail(w) => Fail(w)
      case Done(fs, e) => Done(Obj(fs), e)
    else if s[b] == LBRACKET then
      match ParseItems(s, b + 1, false, strtod)
      case Fail(w) => Fail(w)
      case Done(vs, e) => Done(Arr(vs), e)
    else if IsQuote(s[b]) then
      match StringFrom(s, b + 1, s[b], [])
      case Fail(w) => Fail(w)
      case Done(t, e) => Done(Str(t), e)
    else Primitive(s, b, strtod)
  }

  /** The rest of an array from p on; `need` after a comma. */
  function ParseItems(s: bytes, p: nat, need: bool, strtod: bytes -> bool): (r: Result<seq<Value>>)
    requires p <= |s|
    ensures r.Done? ==> p < r.pos <= |s|
    decreases |s| - p, 1
  {
    var b := Scan(s, p, NotWs);
    if b == |s| then Fail(Eof)
    else if s[b] == RBRACKET then
      if need then Fail(Syntax) else Done([], b + 1)
    else
      match ParseValue(s, b, strtod)
      case Fail(w) => Fail(w)
      case Done(v, m) =>
        var e := Scan(s, m, NotWs);
        if e == |s| then Fail(Eof)
        else if s[e] == RBRACKET then Done([v], e + 1)
        else if s[e] == COMMA then
          match ParseItems(s, e + 1, true, strtod)
          case Fail(w) => Fail(w)
          case Done(vs, f) => Done([v] + vs, f)
        else Fail(Syntax)
  }

  /** A field name and its colon from p on, a quote being the byte before p. */
  function ParseName(s: bytes, p: nat, q: byte): (r: Result<bytes>)
    requires p <= |s|
    ensures r.Done? ==> p < r.pos <= |s|
  {
    match StringFrom(s, p, q, [])
    case Fail(w) => Fail(w)
    case Done(name, m) =>
      if name == [] then Fail(Syntax)
      else
        var c := Scan(s, m, NotWs);
        if c == |s| then Fail(Eof)
        else if s[c] != COLON then Fail(Syntax)
        else Done(name, c + 1)
  }

  /** The rest of an object from p on; `need` after a comma. */
  function ParseMembers(s: bytes, p: nat, need: bool, strtod: bytes -> bool): (r: Result<seq<Field>>)
    requires p <= |s|
    ensures r.Done? ==> p < r.pos <= |s|
    decreases |s| - p, 1
  {
    var b := Scan(s, p, NotWs);
    if b == |s| then Fail(Eof)
    else if s[b] == RBRACE then
      if need then Fail(Syntax) else Done([], b + 1)
    else if !IsQuote(s[b]) then Fail(Syntax)
    else
      match ParseName(s, b + 1, s[b])
      case Fail(w) => Fail(w)
      case Done(name, n) =>
        match ParseValue(s, n, strtod)
        case Fail(w) => Fail(w)
        case Done(v, m) =>
          var e := Scan(s, m, NotWs);
          if e == |s| then Fail(Eof)
          else if s[e] == RBRACE then Done([Field(name, v)], e + 1)
          else if s[e] == COMMA then
            match ParseMembers(s, e + 1, true, strtod)
            case Fail(w) => Fail(w)
            case Done(fs, f) => Done([Field(name, v)] + fs, f)
          else Fail(Syntax)
  }

  /** The public entry: a value at the start of a non-empty text; the count of bytes read. */
  function Parse(s: bytes, strtod: bytes -> bool): Result<Value> {
    if s == [] then Fail(Syntax) else ParseValue(s, 0, strtod)
  }
}
