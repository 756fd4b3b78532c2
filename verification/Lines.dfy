/** The lines the client formats into fixed buffers: when they come out whole. */
module Lines {
  import opened Bytes
  import opened Session
  import B = Buffer
  import Json
  import JsonPrinter

  /** A number below 10^k needs at most k digits. */
  lemma {:induction false} DigitsBelow(n: nat, k: nat)
    requires n < Pow10(k) && k > 0
    ensures |Decimal(n)| <= k
    decreases k
  {
    if n >= 10 {
      assert k >= 2 by { assert Pow10(1) == 10; }
      DigitsBelow(n / 10, k - 1);
    }
  }

  lemma DigitsOf64Bits(n: nat)
    requires n < U64
    ensures |Decimal(n)| <= 20
  {
    assert Pow10(5) == 10_0000;
    assert Pow10(10) == 100_0000_0000;
    assert Pow10(15) == 1000_0000_0000_0000;
    assert Pow10(20) == 1_0000_0000_0000_0000_0000;
    DigitsBelow(n, 20);
  }

  /** The header of a PUB is never cut: the subject limit leaves room for the rest. */
  lemma PubHeaderWhole(subject: bytes, replyto: Option<bytes>, len: nat)
    requires |subject| + (if replyto.Some? then |replyto.value| else 0) <= SUBJECT_LIMIT && len < U64
    ensures Cut(PubLine(subject, replyto, len), HEADER_SIZE) == PubLine(subject, replyto, len)
  {
    DigitsOf64Bits(len);
  }

  /** The bytes of a published message. */
  function PubBytes(c: Command): bytes
    requires c.Publish?
  {
    c.header + c.payload + CRLF
  }

  /** What the protocol wants: the header with the length of the payload, the payload, CR LF. */
  function PubFrame(subject: bytes, replyto: Option<bytes>, payload: bytes): bytes {
    PubLine(subject, replyto, |payload|) + payload + CRLF
  }

  /**
   * A publish queues a correct frame exactly when its length is positive or its data starts with a NUL:
   * a length of 0 makes the write buffer take the data as a C string behind a header that says 0.
   */
  lemma PublishCorrectIff(h: Sess, subject: bytes, replyto: Option<bytes>, data: bytes, len: nat)
    requires h.IsReady() && len <= |data| && len < U64 && (len == 0 ==> NUL in data)
    requires |subject| + (if replyto.Some? then |replyto.value| else 0) <= SUBJECT_LIMIT
    ensures var (r, reply) := PublishCall(h, subject, replyto, data, len);
            && reply == Fine && |r.queued| == |h.queued| + 1 && r.queued[|h.queued|].Publish?
            && (PubBytes(r.queued[|h.queued|]) == PubFrame(subject, replyto, data[..len]) <==>
                len > 0 || data[0] == NUL)
  {
    PubHeaderWhole(subject, replyto, len);
    var line := PubLine(subject, replyto, len);
    var sized := B.Sized(data, len);
    hide PubLine, Cut, B.Sized;
    var (r, reply) := PublishCall(h, subject, replyto, data, len);
    assert r.queued[|h.queued|] == Publish(line, sized);
    assert |data[..len]| == len;
    SizedIs(data, len);
    if len == 0 && data[0] != NUL {
      assert |line + sized + CRLF| != |line + data[..0] + CRLF|;
    }
  }

  lemma SizedIs(data: bytes, len: nat)
    requires len <= |data| && (len == 0 ==> NUL in data)
    ensures B.Sized(data, len) == data[..len] || (len == 0 && |B.Sized(data, len)| > 0)
    ensures len == 0 ==> (|B.Sized(data, len)| == 0 <==> data[0] == NUL)
  {
  }

  /** A SUB line is cut exactly when the subject leaves no room for the sid and the line end. */
  lemma SubLineWholeIff(subject: bytes, sid: nat)
    ensures Cut(SubLine(subject, sid), HEADER_SIZE) == SubLine(subject, sid)
            <==> |subject| + |Decimal(sid)| <= HEADER_SIZE - 7
  {
    hide Decimal;
  }

  /** UNSUB lines are never cut. */
  lemma UnsubLineWhole(sid: nat, max: Option<nat>)
    requires sid < U64 && (max.Some? ==> max.value < U64)
    ensures Cut(UnsubLine(sid, max), HEADER_SIZE) == UnsubLine(sid, max)
  {
    DigitsOf64Bits(sid);
    if max.Some? {
      DigitsOf64Bits(max.value);
    }
  }

  // The handshake

  const CONNECT_SIZE: nat := 640
  const USER_PASS_LIMIT: nat := 512

  const TEXT_CONNECT: bytes := [67, 79, 78, 78, 69, 67, 84, 32]      // "CONNECT "
  const NAME_VERBOSE: bytes := [118, 101, 114, 98, 111, 115, 101]
  const NAME_PEDANTIC: bytes := [112, 101, 100, 97, 110, 116, 105, 99]
  const NAME_USER: bytes := [117, 115, 101, 114]
  const NAME_PASS: bytes := [112, 97, 115, 115]
  const NAME_LANG: bytes := [108, 97, 110, 103]
  const TEXT_C_NGINX: bytes := [99, 45, 110, 103, 105, 110, 120]
  const PING_LINE: bytes := [CR, LF, 80, 73, 78, 71, CR, LF]

  function FlagText(name: bytes): bytes { [DQUOTE] + name + [DQUOTE, COLON] + Json.TEXT_FALSE }

  function LangText(): bytes { [DQUOTE] + NAME_LANG + [DQUOTE, COLON] + ([DQUOTE] + TEXT_C_NGINX + [DQUOTE]) }

  /** {"verbose":false,"pedantic":false,"user":" */
  function ConnectHead(): bytes {
    [LBRACE] + FlagText(NAME_VERBOSE) + [COMMA] + FlagText(NAME_PEDANTIC) + [COMMA, DQUOTE] + NAME_USER
    + [DQUOTE, COLON, DQUOTE]
  }

  /** ","pass":" */
  function ConnectMid(): bytes {
    [DQUOTE, COMMA, DQUOTE] + NAME_PASS + [DQUOTE, COLON, DQUOTE]
  }

  /** ","lang":"c-nginx"} CR LF PING CR LF */
  function ConnectTail(): bytes {
    [DQUOTE, COMMA] + LangText() + [RBRACE] + PING_LINE
  }

  /** CONNECT with the configured user and password as they are, then PING. */
  function ConnectText(user: bytes, password: bytes): bytes {
    TEXT_CONNECT + (ConnectHead() + user + ConnectMid() + password + ConnectTail())
  }

  /** The configuration check on user and password keeps the handshake whole. */
  lemma ConnectWhole(user: bytes, password: bytes)
    requires |user| + |password| <= USER_PASS_LIMIT
    ensures Cut(ConnectText(user, password), CONNECT_SIZE) == ConnectText(user, password)
  {
  }

  /** The object in it, as a value. */
  function ConnectObject(user: bytes, password: bytes): Json.Value {
    Json.Obj([
      Json.Field(NAME_VERBOSE, Json.Bool(0)), Json.Field(NAME_PEDANTIC, Json.Bool(0)),
      Json.Field(NAME_USER, Json.Str(user)), Json.Field(NAME_PASS, Json.Str(password)),
      Json.Field(NAME_LANG, Json.Str(TEXT_C_NGINX))])
  }

  /** The first line end of a text followed by one is that one exactly when the text holds none. */
  lemma FirstEol(t: bytes, rest: bytes)
    requires rest != [] && IsEol(rest[0])
    ensures Scan(t + rest, 0, IsEol) == |t| <==> NoEol(t)
  {
    var line := t + rest;
    assert forall i :: 0 <= i < |t| ==> line[i] == t[i];
    if NoEol(t) {
      ScanIs(line, 0, IsEol, |t|);
    }
  }

  lemma NoEolJoin(t: bytes, u: bytes)
    ensures NoEol(t + u) <==> NoEol(t) && NoEol(u)
  {
    var s := t + u;
    assert s[..|t|] == t && s[|t|..] == u;
    assert forall i :: 0 <= i < |t| ==> s[i] == t[i];
    assert forall i :: 0 <= i < |u| ==> s[|t| + i] == u[i];
  }

  /** The CONNECT line without its end. */
  function ConnectLine(user: bytes, password: bytes): bytes {
    TEXT_CONNECT + ConnectHead() + user + ConnectMid() + password + ([DQUOTE, COMMA] + LangText() + [RBRACE])
  }

  lemma ConnectIsLine(user: bytes, password: bytes)
    ensures ConnectText(user, password) == ConnectLine(user, password) + PING_LINE
  {
    hide ConnectHead, ConnectMid, LangText;
  }

  lemma ConnectLineNoEol(user: bytes, password: bytes)
    ensures NoEol(ConnectLine(user, password)) <==> NoEol(user) && NoEol(password)
  {
    var tail := [DQUOTE, COMMA] + LangText() + [RBRACE];
    FixedPartsNoEol();
    hide NoEol, ConnectHead, ConnectMid, LangText;
    var t := TEXT_CONNECT + ConnectHead();
    NoEolJoin(TEXT_CONNECT, ConnectHead());
    NoEolJoin(t, user);
    NoEolJoin(t + user, ConnectMid());
    NoEolJoin(t + user + ConnectMid(), password);
    NoEolJoin(t + user + ConnectMid() + password, tail);
  }

  lemma FixedPartsNoEol()
    ensures NoEol(TEXT_CONNECT) && NoEol(ConnectHead()) && NoEol(ConnectMid())
    ensures NoEol([DQUOTE, COMMA] + LangText() + [RBRACE])
  {
    HeadNoEol();
    hide ConnectHead;
  }

  lemma HeadNoEol()
    ensures NoEol(ConnectHead())
  {
    var t := [LBRACE] + FlagText(NAME_VERBOSE);
    var u := [COMMA] + FlagText(NAME_PEDANTIC);
    var w := [COMMA, DQUOTE] + NAME_USER + [DQUOTE, COLON, DQUOTE];
    assert ConnectHead() == t + u + w;
    assert NoEol(t) && NoEol(u) && NoEol(w);
    hide NoEol, ConnectHead, FlagText;
    NoEolJoin(t, u);
    NoEolJoin(t + u, w);
  }

  /**
   * What a server reads as the CONNECT line, up to the first line end, holds the object with user and password
   * exactly when neither breaks the line; both free of quotes, backslashes and NULs.
   */
  lemma ConnectCarries(user: bytes, password: bytes, strtod: bytes -> bool)
    requires JsonPrinter.Clean(user) && JsonPrinter.Clean(password)
    ensures var text := ConnectText(user, password);
            var e := Scan(text, 0, IsEol);
            && 8 <= e
            && (Json.Parse(text[8..e], strtod) == Json.Done(ConnectObject(user, password), |text| - 16) <==>
                NoEol(user) && NoEol(password))
  {
    hide Json.Parse, JsonPrinter.Print, ConnectText, ConnectLine, NoEol, Scan, JsonPrinter.Printable, ConnectObject;
    hide JsonPrinter.Clean;
    var line, v := ConnectLine(user, password), ConnectObject(user, password);
    PrintedConnect(user, password);
    PrintableConnect(user, password);
    ConnectIsLine(user, password);
    ConnectLineStart(user, password);
    ConnectLineNoEol(user, password);
    JsonPrinter.RoundTrip(v, [], strtod);
    assert JsonPrinter.Print(v) + [] == JsonPrinter.Print(v);
    CarriesIff(ConnectText(user, password), line, JsonPrinter.Print(v), v, strtod);
  }

  lemma ConnectLineStart(user: bytes, password: bytes)
    ensures var line := ConnectLine(user, password);
            |line| >= 8 && line[..8] == TEXT_CONNECT && NoEol(TEXT_CONNECT)
  {
    hide ConnectHead, ConnectMid, LangText;
  }

  /** Reading up to the first line end gives the value exactly when that is the end of the line. */
  lemma CarriesIff(text: bytes, line: bytes, printed: bytes, v: Json.Value, strtod: bytes -> bool)
    requires text == line + PING_LINE && |line| >= 8 && NoEol(line[..8]) && text[8..] == printed + PING_LINE
    requires Json.Parse(printed, strtod) == Json.Done(v, |printed|)
    ensures var e := Scan(text, 0, IsEol);
            && 8 <= e <= |text| && |printed| == |text| - 16
            && (Json.Parse(text[8..e], strtod) == Json.Done(v, |printed|) <==> NoEol(line))
  {
    FirstEol(line, PING_LINE);
    EolBehindStart(text, line);
    hide Json.Parse, NoEol, Scan;
    SameFront(text[8..|line|], printed, PING_LINE);
    ReadsWithin(text[8..Scan(text, 0, IsEol)], strtod);
  }

  lemma SameFront(t: bytes, u: bytes, e: bytes)
    requires t + e == u + e
    ensures t == u
  {
    assert |t| == |u|;
    assert t == (t + e)[..|t|] && u == (u + e)[..|u|];
  }

  lemma EolBehindStart(text: bytes, line: bytes)
    requires text == line + PING_LINE && |line| >= 8 && NoEol(line[..8])
    ensures 8 <= Scan(text, 0, IsEol) <= |line|
  {
    assert text[|line|] == CR;
    assert forall i :: 0 <= i < 8 ==> text[i] == line[..8][i];
  }

  /** A reading ends within the text. */
  lemma ReadsWithin(t: bytes, strtod: bytes -> bool)
    ensures Json.Parse(t, strtod).Done? ==> Json.Parse(t, strtod).pos <= |t|
  {
  }

  /** CONNECT {"verbose":false,"pedantic":false,"user":"..","pass":"..","lang":"c-nginx"} CR LF PING CR LF. */
  lemma ConnectLiteral(user: bytes, password: bytes)
    ensures ConnectText(user, password) ==
            [67, 79, 78, 78, 69, 67, 84, 32]
            + ([123] + [34, 118, 101, 114, 98, 111, 115, 101, 34, 58, 102, 97, 108, 115, 101] + [44]
            + [34, 112, 101, 100, 97, 110, 116, 105, 99, 34, 58, 102, 97, 108, 115, 101]
            + [44, 34, 117, 115, 101, 114, 34, 58, 34])
            + user + [34, 44, 34, 112, 97, 115, 115, 34, 58, 34] + password
            + ([34, 44] + [34, 108, 97, 110, 103, 34, 58, 34, 99, 45, 110, 103, 105, 110, 120, 34] + [125]
            + [13, 10, 80, 73, 78, 71, 13, 10])
  {
    HeadLiteral();
    TailLiteral();
    assert ConnectMid() == [34, 44, 34, 112, 97, 115, 115, 34, 58, 34];
    hide ConnectHead, ConnectMid, ConnectTail;
    assert ConnectText(user, password) ==
           TEXT_CONNECT + ConnectHead() + user + ConnectMid() + password + ConnectTail();
  }

  lemma HeadLiteral()
    ensures ConnectHead() ==
            [123] + [34, 118, 101, 114, 98, 111, 115, 101, 34, 58, 102, 97, 108, 115, 101] + [44]
            + [34, 112, 101, 100, 97, 110, 116, 105, 99, 34, 58, 102, 97, 108, 115, 101]
            + [44, 34, 117, 115, 101, 114, 34, 58, 34]
  {
    assert FlagText(NAME_VERBOSE) == [34, 118, 101, 114, 98, 111, 115, 101, 34, 58, 102, 97, 108, 115, 101];
    assert FlagText(NAME_PEDANTIC) == [34, 112, 101, 100, 97, 110, 116, 105, 99, 34, 58, 102, 97, 108, 115, 101];
    hide FlagText;
  }

  lemma TailLiteral()
    ensures ConnectTail() ==
            [34, 44] + [34, 108, 97, 110, 103, 34, 58, 34, 99, 45, 110, 103, 105, 110, 120, 34] + [125]
            + [13, 10, 80, 73, 78, 71, 13, 10]
  {
    assert LangText() == [34, 108, 97, 110, 103, 34, 58, 34, 99, 45, 110, 103, 105, 110, 120, 34];
    hide LangText;
  }

  lemma PrintableConnect(user: bytes, password: bytes)
    requires JsonPrinter.Clean(user) && JsonPrinter.Clean(password)
    ensures JsonPrinter.Printable(ConnectObject(user, password))
  {
    var fs := ConnectObject(user, password).fs;
    assert forall i :: 0 <= i < 5 ==> JsonPrinter.Clean(fs[i].name) && fs[i].name != [];
    hide JsonPrinter.Clean, JsonPrinter.PrintableMembers;
    JsonPrinter.MembersPrintable(fs);
  }

  /** A field with a clean name, printed. */
  lemma FieldText(f: Json.Field)
    requires JsonPrinter.Clean(f.name)
    ensures JsonPrinter.PrintField(f) == [DQUOTE] + f.name + [DQUOTE, COLON] + JsonPrinter.Print(f.value)
  {
    JsonPrinter.UnitsOfClean(f.name);
    hide JsonPrinter.Print;
  }

  lemma StringText(t: bytes)
    requires JsonPrinter.Clean(t)
    ensures JsonPrinter.Print(Json.Str(t)) == [DQUOTE] + t + [DQUOTE]
  {
    JsonPrinter.UnitsOfClean(t);
  }

  /** Five members, printed one by one. */
  lemma PrintedFive(fs: seq<Json.Field>)
    requires |fs| == 5
    ensures JsonPrinter.PrintMembers(fs) ==
            JsonPrinter.PrintField(fs[0]) + [COMMA] + (JsonPrinter.PrintField(fs[1]) + [COMMA]
            + (JsonPrinter.PrintField(fs[2]) + [COMMA] + (JsonPrinter.PrintField(fs[3]) + [COMMA]
            + JsonPrinter.PrintField(fs[4]))))
  {
    hide JsonPrinter.PrintField, JsonPrinter.PrintMembers;
    assert fs[0..] == fs;
    JsonPrinter.MembersTail(fs, 0);
    JsonPrinter.MembersTail(fs, 1);
    JsonPrinter.MembersTail(fs, 2);
    JsonPrinter.MembersTail(fs, 3);
    JsonPrinter.MembersTail(fs, 4);
  }

  lemma Regroup(f0: bytes, f1: bytes, nu: bytes, u: bytes, np: bytes, p: bytes, f4: bytes, e: bytes)
    ensures var f2 := [DQUOTE] + nu + [DQUOTE, COLON] + ([DQUOTE] + u + [DQUOTE]);
            var f3 := [DQUOTE] + np + [DQUOTE, COLON] + ([DQUOTE] + p + [DQUOTE]);
            [LBRACE] + (f0 + [COMMA] + (f1 + [COMMA] + (f2 + [COMMA] + (f3 + [COMMA] + f4)))) + [RBRACE] + e ==
            ([LBRACE] + f0 + [COMMA] + f1 + [COMMA, DQUOTE] + nu + [DQUOTE, COLON, DQUOTE]) + u
            + ([DQUOTE, COMMA, DQUOTE] + np + [DQUOTE, COLON, DQUOTE]) + p + ([DQUOTE, COMMA] + f4 + [RBRACE] + e)
  {
    var f2 := [DQUOTE] + nu + [DQUOTE, COLON] + ([DQUOTE] + u + [DQUOTE]);
    var f3 := [DQUOTE] + np + [DQUOTE, COLON] + ([DQUOTE] + p + [DQUOTE]);
    assert f2 + [COMMA] == [DQUOTE] + nu + [DQUOTE, COLON, DQUOTE] + u + [DQUOTE, COMMA];
    assert f3 + [COMMA] == [DQUOTE] + np + [DQUOTE, COLON, DQUOTE] + p + [DQUOTE, COMMA];
  }

  lemma BehindConnect(user: bytes, password: bytes)
    ensures ConnectText(user, password)[8..] == ConnectHead() + user + ConnectMid() + password + ConnectTail()
  {
    hide ConnectHead, ConnectMid, ConnectTail;
  }

  lemma FlagField(name: bytes)
    requires JsonPrinter.Clean(name)
    ensures JsonPrinter.PrintField(Json.Field(name, Json.Bool(0))) == FlagText(name)
  {
    FieldText(Json.Field(name, Json.Bool(0)));
    hide JsonPrinter.PrintField;
  }

  lemma StringField(name: bytes, t: bytes)
    requires JsonPrinter.Clean(name) && JsonPrinter.Clean(t)
    ensures JsonPrinter.PrintField(Json.Field(name, Json.Str(t))) ==
            [DQUOTE] + name + [DQUOTE, COLON] + ([DQUOTE] + t + [DQUOTE])
  {
    FieldText(Json.Field(name, Json.Str(t)));
    StringText(t);
    hide JsonPrinter.PrintField, JsonPrinter.Print;
  }

  /** The same with the names as parameters. */
  lemma PrintedObject(n0: bytes, n1: bytes, n2: bytes, u: bytes, n3: bytes, p: bytes, n4: bytes, l: bytes, e: bytes)
    requires JsonPrinter.Clean(n0) && JsonPrinter.Clean(n1) && JsonPrinter.Clean(n2) && JsonPrinter.Clean(n3)
    requires JsonPrinter.Clean(n4) && JsonPrinter.Clean(u) && JsonPrinter.Clean(p) && JsonPrinter.Clean(l)
    ensures var v := Json.Obj([
              Json.Field(n0, Json.Bool(0)), Json.Field(n1, Json.Bool(0)), Json.Field(n2, Json.Str(u)),
              Json.Field(n3, Json.Str(p)), Json.Field(n4, Json.Str(l))]);
            JsonPrinter.Print(v) + e ==
            ([LBRACE] + FlagText(n0) + [COMMA] + FlagText(n1) + [COMMA, DQUOTE] + n2 + [DQUOTE, COLON, DQUOTE]) + u
            + ([DQUOTE, COMMA, DQUOTE] + n3 + [DQUOTE, COLON, DQUOTE]) + p
            + ([DQUOTE, COMMA] + ([DQUOTE] + n4 + [DQUOTE, COLON] + ([DQUOTE] + l + [DQUOTE])) + [RBRACE] + e)
  {
    var f0, f1 := Json.Field(n0, Json.Bool(0)), Json.Field(n1, Json.Bool(0));
    var f2, f3, f4 := Json.Field(n2, Json.Str(u)), Json.Field(n3, Json.Str(p)), Json.Field(n4, Json.Str(l));
    PrintedFive([f0, f1, f2, f3, f4]);
    FlagField(n0);
    FlagField(n1);
    StringField(n2, u);
    StringField(n3, p);
    StringField(n4, l);
    hide JsonPrinter.PrintField, JsonPrinter.PrintMembers, JsonPrinter.Clean, FlagText;
    Regroup(FlagText(n0), FlagText(n1), n2, u, n3, p, JsonPrinter.PrintField(f4), e);
  }

  lemma PrintedConnect(user: bytes, password: bytes)
    requires JsonPrinter.Clean(user) && JsonPrinter.Clean(password)
    ensures ConnectText(user, password)[8..] == JsonPrinter.Print(ConnectObject(user, password)) + PING_LINE
  {
    hide ConnectText, JsonPrinter.Print, FlagText;
    BehindConnect(user, password);
    PrintedObject(
      NAME_VERBOSE, NAME_PEDANTIC, NAME_USER, user, NAME_PASS, password, NAME_LANG, TEXT_C_NGINX, PING_LINE);
  }
}
