/** The reader as it runs: one context whose cursor and growing scratch string every routine updates. */
module JsonReader {
  import opened Bytes
  import opened JsonNumber
  import opened Json

  const SCRATCH_INIT: nat := 1024

  class Reader {
    const text: bytes
    const strtod: bytes -> bool
    var pos: nat
    var istart: nat
    var str: array<byte>

    /** The cursor stays in the text; the scratch string is 1024 doubled some number of times, at most 2^20. */
    ghost predicate Valid()
      reads this
    {
      pos <= |text| && Doubling(SCRATCH_INIT, str.Length) && str.Length <= MAX_STRING
    }

    constructor (text: bytes, strtod: bytes -> bool)
      ensures Valid() && fresh(str) && this.text == text && this.strtod == strtod && pos == 0
    {
      this.text := text;
      this.strtod := strtod;
      pos, istart := 0, 0;
      str := new byte[SCRATCH_INIT];
    }

    /** False at the end of the text, in which case the cursor has not moved. */
    method SkipSpaces() returns (found: bool)
      requires Valid()
      modifies this`pos
      ensures Valid() && found == (Scan(text, old(pos), NotWs) < |text|)
      ensures pos == if found then Scan(text, old(pos), NotWs) else old(pos)
    {
      var p := pos;
      while p < |text|
        invariant pos <= p <= |text|
        invariant Scan(text, p, NotWs) == Scan(text, pos, NotWs)
      {
        if NotWs(text[p]) {
          pos := p;
          return true;
        }
        p := p + 1;
      }
      return false;
    }

    /** Room for two more bytes behind nout, by doubling; refused at 2^20. What was written stays. */
    method EnsureStr(nout: nat) returns (ok: bool)
      requires Valid() && nout < str.Length
      modifies this`str
      ensures Valid() && (str == old(str) || fresh(str))
      ensures ok == (nout + 1 < MAX_STRING)
      ensures ok ==> nout + 1 < str.Length && str[..nout] == old(str[..nout])
    {
      if str.Length - nout < 2 {
        if str.Length >= MAX_STRING {
          return false;
        }
        MaxDoubling();
        DoublingGap(SCRATCH_INIT, str.Length, MAX_STRING);
        var bigger := new byte[str.Length * 2];
        forall i | 0 <= i < nout {
          bigger[i] := str[i];
        }
        str := bigger;
      }
      return true;
    }

    static lemma MaxDoubling()
      ensures Doubling(SCRATCH_INIT, MAX_STRING)
    {
      assert Doubling(1024, 2048) && Doubling(1024, 4096) && Doubling(1024, 8192);
      assert Doubling(1024, 16384) && Doubling(1024, 32768) && Doubling(1024, 65536);
      assert Doubling(1024, 131072) && Doubling(1024, 262144) && Doubling(1024, 524288);
    }

    /** The body of a string behind its opening quote q. */
    method ParseString(q: byte) returns (r: Result<bytes>)
      requires Valid() && pos > 0
      modifies this, str
      ensures Valid() && (str == old(str) || fresh(str))
      ensures r == StringFrom(text, old(pos), q, [])
      ensures r.Done? ==> pos == r.pos
    {
      istart := pos - 1;
      var n, nout := pos, 0;
      assert str[..0] == [];
      while n < |text|
        invariant pos == old(pos) <= n <= |text| && Valid() && nout < str.Length
        invariant str == old(str) || fresh(str)
        invariant StringFrom(text, n, q, str[..nout]) == StringFrom(text, old(pos), q, [])
      {
        if nout >= str.Length - 2 {
          var ok := EnsureStr(nout);
          if !ok {
            return Fail(Error);
          }
        }
        ghost var out := str[..nout];
        var c := text[n];
        n := n + 1;
        if c == BACKSLASH {
          if n >= |text| {
            return Fail(Eof);
          }
          c := text[n];
          n := n + 1;
          var u := Unescape(c);
          if u.None? {
            return Fail(if c == 117 then NotSupported else Syntax);
          }
          c := u.value;
        } else if c == q {
          pos := n;
          r := Done(str[..nout], n);
          return;
        }
        str[nout] := c;
        nout := nout + 1;
        assert str[..nout] == out + [c];
      }
      return Fail(Eof);
    }
  
    /** The hexadecimal digits between p and end. */
    method ParseHex(p: nat, end: nat) returns (r: Option<int>)
      requires p <= end <= |text|
      ensures r == HexValue(text[p..end])
    {
      ghost var d := text[p..end];
      if end - p > 16 {
        return None;
      }
      HexBound(d);
      var u64: nat := 0;
      var i := p;
      while i < end
        invariant p <= i <= end
        invariant HexFrom(d, i - p, u64) == HexFrom(d, 0, 0)
      {
        var c := text[i];
        assert c == d[i - p];
        i := i + 1;
        if ZERO <= c <= NINE {
          u64 := (u64 * 16 + (c - ZERO)) % U64;
        } else if 97 <= c <= 102 {
          u64 := (u64 * 16 + (10 + (c - 97))) % U64;
        } else if 65 <= c <= 70 {
          u64 := (u64 * 16 + (10 + (c - 65))) % U64;
        } else {
          return None;
        }
      }
      return Some(Signed(u64));
    }

    /** The decimal digits between p and end. */
    method ParseDigits(p: nat, end: nat) returns (r: Option<nat>)
      requires p <= end <= |text|
      ensures r == UintFrom(text[p..end], 0, 0)
    {
      ghost var d := text[p..end];
      var u64: nat := 0;
      var i := p;
      while i < end
        invariant p <= i <= end
        invariant UintFrom(d, i - p, u64) == UintFrom(d, 0, 0)
      {
        var c := text[i];
        assert c == d[i - p];
        i := i + 1;
        if c < ZERO || c > NINE {
          return None;
        }
        if u64 > MUL_LIMIT {
          return None;
        }
        u64 := (u64 * 10 + (c - ZERO)) % U64;
      }
      return Some(u64);
    }

    /** The decimal integer between istart and pos. */
    method ParseInt() returns (r: Option<int>)
      requires istart < pos <= |text|
      ensures r == IntValue(text[istart..pos])
    {
      ghost var t := text[istart..pos];
      var neg, p := false, istart;
      if text[p] == MINUS {
        neg := true;
        p := p + 1;
      }
      assert text[p..pos] == Magnitude(t);
      if p == pos {
        return None;
      }
      var u := ParseDigits(p, pos);
      if u.None? {
        return None;
      }
      if neg {
        if (u.value + U64 - 1) % U64 > I64_MAX {
          return None;
        }
        return Some(0 - u.value);
      }
      return if u.value > I64_MAX then None else Some(u.value);
    }

    method HasDoubleMark() returns (yes: bool)
      requires istart <= pos <= |text|
      ensures var t := text[istart..pos]; yes == (Scan(t, 0, IsDoubleMark) < |t|)
    {
      ghost var t := text[istart..pos];
      var n := istart;
      while n < pos
        invariant istart <= n <= pos
        invariant Scan(t, n - istart, IsDoubleMark) == Scan(t, 0, IsDoubleMark)
      {
        assert text[n] == t[n - istart];
        if IsDoubleMark(text[n]) {
          return true;
        }
        n := n + 1;
      }
      return false;
    }

    /** The number between istart and pos. */
    method ParseNumber() returns (r: Option<Value>)
      requires istart <= pos <= |text|
      ensures r == NumberValue(text[istart..pos], strtod)
    {
      hide HexValue, IntValue;
      var ilen := pos - istart;
      ghost var t := text[istart..pos];
      if ilen == 0 || !IsNumberStart(text[istart]) {
        return None;
      }
      var c := text[istart];
      assert c == t[0];
      if c == ZERO {
        if ilen == 1 {
          assert t == [ZERO];
          return Some(Int(0));
        }
        if ilen > 2 && (text[istart + 1] == 120 || text[istart + 1] == 88) {
          assert t[1] == text[istart + 1] && text[istart + 2..pos] == t[2..];
          var h := ParseHex(istart + 2, pos);
          return if h.None? then None else Some(Int(h.value));
        }
      }
      assert !IsHexText(t) && t != [ZERO];
      var isDouble := HasDoubleMark();
      if isDouble {
        return if ilen > MAX_DOUBLE_TEXT || !strtod(text[istart..pos]) then None else Some(Double(text[istart..pos]));
      }
      if c == ZERO {
        return None;
      }
      var i := ParseInt();
      return if i.None? then None else Some(Int(i.value));
    }

    /** Null, boolean or number at the cursor. */
    method ParsePrimitive() returns (r: Result<Value>)
      requires Valid() && pos < |text|
      modifies this`pos, this`istart
      ensures Valid() && r == Primitive(text, old(pos), strtod)
      ensures r.Done? ==> pos == r.pos
    {
      hide NumberValue, IsDelimiter;
      istart := pos;
      while pos < |text| && !IsDelimiter(text[pos])
        invariant istart == old(pos) <= pos <= |text|
        invariant Scan(text, pos, IsDelimiter) == Scan(text, istart, IsDelimiter)
      {
        pos := pos + 1;
      }
      var t := text[istart..pos];
      if SameFold(t, TEXT_NULL) {
        return Done(Null, pos);
      }
      if SameFold(t, TEXT_TRUE) {
        return Done(Bool(1), pos);
      }
      if SameFold(t, TEXT_FALSE) {
        return Done(Bool(0), pos);
      }
      var v := ParseNumber();
      return if v.None? then Fail(Syntax) else Done(v.value, pos);
    }
  
    method ParseValueAt() returns (r: Result<Value>)
      requires Valid()
      modifies this, str
      ensures Valid() && (str == old(str) || fresh(str))
      ensures r == ParseValue(text, old(pos), strtod)
      ensures r.Done? ==> pos == r.pos
      decreases |text| - pos, 0
    {
      hide Primitive, StringFrom, ParseItems, ParseMembers;
      var found := SkipSpaces();
      if !found {
        return Fail(Eof);
      }
      var c := text[pos];
      if c == LBRACE {
        pos := pos + 1;
        var o := ParseObject();
        return if o.Fail? then Fail(o.why) else Done(Obj(o.v), o.pos);
      }
      if c == LBRACKET {
        pos := pos + 1;
        var a := ParseArray();
        return if a.Fail? then Fail(a.why) else Done(Arr(a.v), a.pos);
      }
      if c == SQUOTE || c == DQUOTE {
        pos := pos + 1;
        var s := ParseString(c);
        return if s.Fail? then Fail(s.why) else Done(Str(s.v), s.pos);
      }
      r := ParsePrimitive();
    }

    /** One turn of the array loop. */
    method ReadItem(need: bool) returns (st: Step<Value>)
      requires Valid()
      modifies this, str
      ensures Valid() && (str == old(str) || fresh(str))
      ensures ParseItems(text, old(pos), need, strtod) ==
              match st
              case Failed(w) => Fail(w)
              case Closed(xs) => Done(xs, pos)
              case More(x) => Prepend([x], ParseItems(text, pos, true, strtod))
      ensures st.More? ==> old(pos) < pos
      decreases |text| - pos, 1
    {
      hide ParseValue, ParseItems, Scan;
      ItemsStart(text, pos, need, strtod);
      var found := SkipSpaces();
      if !found {
        return Failed(Eof);
      }
      istart := pos;
      if text[pos] == RBRACKET {
        if need {
          return Failed(Syntax);
        }
        pos := pos + 1;
        return Closed([]);
      }
      var v := ParseValueAt();
      if v.Fail? {
        return Failed(v.why);
      }
      found := SkipSpaces();
      if !found {
        return Failed(Eof);
      }
      var c := text[pos];
      pos := pos + 1;
      return if c == RBRACKET then Closed([v.v]) else if c == COMMA then More(v.v) else Failed(Syntax);
    }

    /** The loop of an array behind its opening bracket. */
    method ParseArray() returns (r: Result<seq<Value>>)
      requires Valid() && pos > 0
      modifies this, str
      ensures Valid() && (str == old(str) || fresh(str))
      ensures r == ParseItems(text, old(pos), false, strtod)
      ensures r.Done? ==> pos == r.pos
      decreases |text| - pos, 2
    {
      istart := pos - 1;
      var vs, need := [], false;
      ghost var whole := ParseItems(text, pos, false, strtod);
      NothingBefore(whole);
      EndsInEof(text, strtod);
      hide ParseItems;
      while pos < |text|
        invariant Valid() && old(pos) <= pos && (str == old(str) || fresh(str))
        invariant Prepend(vs, ParseItems(text, pos, need, strtod)) == whole
        decreases |text| - pos
      {
        var st := ReadItem(need);
        match st
        case Failed(w) => return Fail(w);
        case Closed(xs) => return Done(vs + xs, pos);
        case More(x) =>
          PrependOne(vs, x, ParseItems(text, pos, true, strtod));
          vs, need := vs + [x], true;
      }
      return Fail(Eof);
    }

    /** One turn of the object loop. */
    method ReadMember(need: bool) returns (st: Step<Field>)
      requires Valid()
      modifies this, str
      ensures Valid() && (str == old(str) || fresh(str))
      ensures ParseMembers(text, old(pos), need, strtod) ==
              match st
              case Failed(w) => Fail(w)
              case Closed(xs) => Done(xs, pos)
              case More(x) => Prepend([x], ParseMembers(text, pos, true, strtod))
      ensures st.More? ==> old(pos) < pos
      decreases |text| - pos, 1
    {
      hide ParseValue, ParseName, ParseMembers, MembersAfter, Scan;
      MembersStart(text, pos, need, strtod);
      var found := SkipSpaces();
      if !found {
        return Failed(Eof);
      }
      istart := pos;
      var c := text[pos];
      pos := pos + 1;
      if c == RBRACE {
        return if need then Failed(Syntax) else Closed([]);
      }
      if c != SQUOTE && c != DQUOTE {
        return Failed(Syntax);
      }
      var name := ParseFieldName(c);
      if name.Fail? {
        return Failed(name.why);
      }
      var v := ParseValueAt();
      if v.Fail? {
        return Failed(v.why);
      }
      st := AfterMember(Field(name.v, v.v));
    }

    /** The comma or the closing brace behind the member f. */
    method AfterMember(f: Field) returns (st: Step<Field>)
      requires Valid()
      modifies this`pos
      ensures Valid()
      ensures MembersAfter(text, f, old(pos), strtod) ==
              match st
              case Failed(w) => Fail(w)
              case Closed(xs) => Done(xs, pos)
              case More(x) => Prepend([x], ParseMembers(text, pos, true, strtod))
      ensures st.More? ==> old(pos) < pos
    {
      hide ParseMembers, Scan;
      var found := SkipSpaces();
      if !found {
        return Failed(Eof);
      }
      var c := text[pos];
      pos := pos + 1;
      return if c == RBRACE then Closed([f]) else if c == COMMA then More(f) else Failed(Syntax);
    }

    /** The loop of an object behind its opening brace. */
    method ParseObject() returns (r: Result<seq<Field>>)
      requires Valid() && pos > 0
      modifies this, str
      ensures Valid() && (str == old(str) || fresh(str))
      ensures r == ParseMembers(text, old(pos), false, strtod)
      ensures r.Done? ==> pos == r.pos
      decreases |text| - pos, 2
    {
      istart := pos - 1;
      var fs, need := [], false;
      ghost var whole := ParseMembers(text, pos, false, strtod);
      NothingBefore(whole);
      EndsInEof(text, strtod);
      hide ParseMembers;
      while pos < |text|
        invariant Valid() && old(pos) <= pos && (str == old(str) || fresh(str))
        invariant Prepend(fs, ParseMembers(text, pos, need, strtod)) == whole
        decreases |text| - pos
      {
        var st := ReadMember(need);
        match st
        case Failed(w) => return Fail(w);
        case Closed(xs) => return Done(fs + xs, pos);
        case More(x) =>
          PrependOne(fs, x, ParseMembers(text, pos, true, strtod));
          fs, need := fs + [x], true;
      }
      return Fail(Eof);
    }

    /** A field name behind its opening quote, and the colon. */
    method ParseFieldName(q: byte) returns (r: Result<bytes>)
      requires Valid() && pos > 0
      modifies this, str
      ensures Valid() && (str == old(str) || fresh(str))
      ensures r == ParseName(text, old(pos), q)
      ensures r.Done? ==> pos == r.pos
    {
      hide StringFrom;
      var name := ParseString(q);
      if name.Fail? {
        return Fail(name.why);
      }
      if |name.v| == 0 {
        return Fail(Syntax);
      }
      var found := SkipSpaces();
      if !found {
        return Fail(Eof);
      }
      var c := text[pos];
      pos := pos + 1;
      return if c != COLON then Fail(Syntax) else Done(name.v, pos);
    }
  }

  /** How one turn of a container loop ends: an error, the closing bracket, or a comma. */
  datatype Step<+T> = Failed(why: Why) | Closed(xs: seq<T>) | More(x: T)

  lemma NothingBefore<T>(r: Result<seq<T>>)
    ensures Prepend([], r) == r
  {
    if r.Done? {
      assert [] + r.v == r.v;
    }
  }

  lemma EndsInEof(text: bytes, strtod: bytes -> bool)
    ensures forall need :: ParseItems(text, |text|, need, strtod) == Fail(Eof)
    ensures forall need :: ParseMembers(text, |text|, need, strtod) == Fail(Eof)
  {
  }

  /** What follows the item v that ends at m. */
  function ItemsAfter(s: bytes, v: Value, m: nat, strtod: bytes -> bool): Result<seq<Value>>
    requires m <= |s|
  {
    var e := Scan(s, m, NotWs);
    if e == |s| then Fail(Eof)
    else if s[e] == RBRACKET then Done([v], e + 1)
    else if s[e] == COMMA then Prepend([v], ParseItems(s, e + 1, true, strtod))
    else Fail(Syntax)
  }

  lemma ItemsStart(s: bytes, p: nat, need: bool, strtod: bytes -> bool)
    requires p <= |s|
    ensures var b := Scan(s, p, NotWs);
            ParseItems(s, p, need, strtod) ==
            if b == |s| then Fail(Eof)
            else if s[b] == RBRACKET then (if need then Fail(Syntax) else Done([], b + 1))
            else
              match ParseValue(s, b, strtod)
              case Fail(w) => Fail(w)
              case Done(v, m) => ItemsAfter(s, v, m, strtod)
  {
    hide ParseValue;
  }

  /** What follows the member f that ends at m. */
  function MembersAfter(s: bytes, f: Field, m: nat, strtod: bytes -> bool): Result<seq<Field>>
    requires m <= |s|
  {
    var e := Scan(s, m, NotWs);
    if e == |s| then Fail(Eof)
    else if s[e] == RBRACE then Done([f], e + 1)
    else if s[e] == COMMA then Prepend([f], ParseMembers(s, e + 1, true, strtod))
    else Fail(Syntax)
  }

  lemma MembersStart(s: bytes, p: nat, need: bool, strtod: bytes -> bool)
    requires p <= |s|
    ensures var b := Scan(s, p, NotWs);
            ParseMembers(s, p, need, strtod) ==
            if b == |s| then Fail(Eof)
            else if s[b] == RBRACE then (if need then Fail(Syntax) else Done([], b + 1))
            else if !IsQuote(s[b]) then Fail(Syntax)
            else
              match ParseName(s, b + 1, s[b])
              case Fail(w) => Fail(w)
              case Done(name, n) =>
                match ParseValue(s, n, strtod)
                case Fail(w) => Fail(w)
                case Done(v, m) => MembersAfter(s, Field(name, v), m, strtod)
  {
    hide ParseValue, ParseName;
  }

  /** Elements already read, put before what the rest gives. */
  function Prepend<T>(xs: seq<T>, r: Result<seq<T>>): Result<seq<T>> {
    match r
    case Fail(w) => Fail(w)
    case Done(ys, e) => Done(xs + ys, e)
  }

  lemma PrependOne<T>(xs: seq<T>, x: T, r: Result<seq<T>>)
    ensures Prepend(xs, Prepend([x], r)) == Prepend(xs + [x], r)
  {
    if r.Done? {
      assert xs + ([x] + r.v) == xs + [x] + r.v;
    }
  }

  /** The public entry point. */
  method ReadJson(text: bytes, strtod: bytes -> bool) returns (r: Result<Value>)
    ensures r == Parse(text, strtod)
  {
    if |text| < 1 {
      return Fail(Syntax);
    }
    var reader := new Reader(text, strtod);
    r := reader.ParseValueAt();
  }
}
