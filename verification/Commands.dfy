/** What each end reads from what the other formats: command lines at the server, INFO and PING at the client. */
module Commands {
  import opened Bytes
  import opened Wire
  import opened WireContent
  import opened Session
  import opened Stream
  import Json
  import JsonPrinter
  import Lines

  // Command lines

  predicate IsSep(b: byte) { b == SP || b == TAB }
  predicate NotSep(b: byte) { !IsSep(b) }

  /** One field as far as delimiters go: not empty, no blank and no tab. */
  predicate Solid(w: bytes) {
    w != [] && forall i :: 0 <= i < |w| ==> !IsSep(w[i])
  }

  /** The fields of a control line by the NATS client protocol: delimited by runs of blanks and tabs. */
  function Words(t: bytes): (r: seq<bytes>)
    ensures forall i :: 0 <= i < |r| ==> Solid(r[i])
    decreases |t|
  {
    var p := Scan(t, 0, NotSep);
    if p == |t| then []
    else
      var k := Scan(t, p, IsSep);
      [t[p..k]] + Words(t[k..])
  }

  function Joined(ws: seq<bytes>): bytes
    requires ws != []
  {
    if |ws| == 1 then ws[0] else ws[0] + [SP] + Joined(ws[1..])
  }

  lemma {:induction false} JoinedNoEol(ws: seq<bytes>)
    requires ws != []
    ensures NoEol(Joined(ws)) <==> forall i :: 0 <= i < |ws| ==> NoEol(ws[i])
    decreases |ws|
  {
    if |ws| > 1 {
      JoinedNoEol(ws[1..]);
      JoinNoEol(ws[0], Joined(ws[1..]));
      hide NoEol;
      assert ws == [ws[0]] + ws[1..];
    }
  }

  lemma JoinNoEol(t: bytes, u: bytes)
    ensures NoEol(t + [SP] + u) <==> NoEol(t) && NoEol(u)
  {
    var s := t + [SP] + u;
    assert s[..|t|] == t && s[|t| + 1..] == u;
    assert forall i :: 0 <= i < |t| ==> s[i] == t[i];
    assert forall i :: 0 <= i < |u| ==> s[|t| + 1 + i] == u[i];
  }

  /** Splitting undoes joining exactly when no word is empty or holds a delimiter. */
  lemma {:induction false} WordsOfJoined(ws: seq<bytes>)
    requires ws != []
    ensures Words(Joined(ws)) == ws <==> forall i :: 0 <= i < |ws| ==> Solid(ws[i])
    decreases |ws|
  {
    if forall i :: 0 <= i < |ws| ==> Solid(ws[i]) {
      assert Solid(ws[0]);
      FirstWord(ws[0], if |ws| == 1 then [] else Joined(ws[1..]));
      hide Words, Solid;
      if |ws| > 1 {
        WordsOfJoined(ws[1..]);
        assert ws == [ws[0]] + ws[1..];
      }
    }
  }

  lemma FirstWord(w: bytes, rest: bytes)
    requires Solid(w)
    ensures Words(w) == [w] && Words(w + [SP] + rest) == [w] + Words(rest)
  {
    OneWord(w);
    var t, k := w + [SP] + rest, |w|;
    assert t[..k] == w && t[k..] == [SP] + rest && t[0] == w[0];
    assert forall i :: 0 <= i < k ==> t[i] == w[i];
    ScanIs(t, 0, NotSep, 0);
    ScanIs(t, 0, IsSep, k);
    LeadingBlank(rest);
    hide Solid, Scan;
    assert Words(t) == [t[0..k]] + Words(t[k..]);
  }

  lemma OneWord(w: bytes)
    requires Solid(w)
    ensures Words(w) == [w]
  {
    ScanIs(w, 0, NotSep, 0);
    ScanIs(w, 0, IsSep, |w|);
    assert w[0..|w|] == w && w[|w|..] == [];
  }

  lemma LeadingBlank(rest: bytes)
    ensures Words([SP] + rest) == Words(rest)
  {
    hide Words, Scan;
    var t, p := [SP] + rest, Scan(rest, 0, NotSep);
    SkipsBlank(rest);
    if p == |rest| {
      NoWords(t);
      NoWords(rest);
    } else {
      var k := Scan(rest, p, IsSep);
      ScanBehind(rest, p, IsSep);
      SlicesBehind(rest, p, k);
      WordsAt(t, p + 1, k + 1);
      WordsAt(rest, p, k);
    }
  }

  lemma NoWords(t: bytes)
    requires Scan(t, 0, NotSep) == |t|
    ensures Words(t) == []
  {
  }

  lemma WordsAt(t: bytes, p: nat, k: nat)
    requires p < |t| && Scan(t, 0, NotSep) == p && Scan(t, p, IsSep) == k
    ensures p < k && Words(t) == [t[p..k]] + Words(t[k..])
  {
    hide Solid;
  }

  lemma SlicesBehind(rest: bytes, p: nat, k: nat)
    requires p <= k <= |rest|
    ensures ([SP] + rest)[k + 1..] == rest[k..] && ([SP] + rest)[p + 1..k + 1] == rest[p..k]
  {
  }

  lemma SkipsBlank(rest: bytes)
    ensures Scan([SP] + rest, 0, NotSep) == Scan(rest, 0, NotSep) + 1
  {
    var t := [SP] + rest;
    assert t[0] == SP;
    assert Scan(t, 0, NotSep) == Scan(t, 1, NotSep);
    hide Scan;
    ScanBehind(rest, 0, NotSep);
  }

  lemma ScanBehind(rest: bytes, p: nat, stop: byte -> bool)
    requires p <= |rest|
    ensures Scan([SP] + rest, p + 1, stop) == Scan(rest, p, stop) + 1
  {
    var t, r := [SP] + rest, Scan(rest, p, stop);
    forall i | p + 1 <= i < r + 1
      ensures !stop(t[i])
    {
      assert t[i] == rest[i - 1];
    }
    ScanIs(t, p + 1, stop, r + 1);
  }

  /** A server reads the line up to its first CR or LF, which must be that of its end, as these words. */
  ghost predicate ReadsAs(line: bytes, ws: seq<bytes>) {
    var n := |line| - 2;
    n >= 0 && line[n..] == CRLF && Scan(line, 0, IsEol) == n && Words(line[..n]) == ws
  }

  /** A text that a control line carries as one field. */
  predicate Word(t: bytes) {
    Solid(t) && NoEol(t)
  }

  lemma LineReadsIff(ws: seq<bytes>)
    requires ws != []
    ensures ReadsAs(Joined(ws) + CRLF, ws) <==> forall i :: 0 <= i < |ws| ==> Word(ws[i])
  {
    var t := Joined(ws);
    var line := t + CRLF;
    assert line[..|t|] == t && line[|t|..] == CRLF;
    Lines.FirstEol(t, CRLF);
    WordsOfJoined(ws);
    JoinedNoEol(ws);
    hide Words, Joined, Solid, NoEol;
  }

  const WORD_PUB: bytes := [80, 85, 66]
  const WORD_SUB: bytes := [83, 85, 66]
  const WORD_UNSUB: bytes := [85, 78, 83, 85, 66]

  function PubWords(subject: bytes, replyto: Option<bytes>, len: nat): seq<bytes> {
    if replyto.Some? then [WORD_PUB, subject, replyto.value, Decimal(len)] else [WORD_PUB, subject, Decimal(len)]
  }

  function UnsubWords(sid: nat, max: Option<nat>): seq<bytes> {
    if max.Some? then [WORD_UNSUB, Decimal(sid), Decimal(max.value)] else [WORD_UNSUB, Decimal(sid)]
  }

  lemma NumberIsWord(n: nat)
    ensures Word(Decimal(n))
  {
    var t := Decimal(n);
    assert forall i :: 0 <= i < |t| ==> IsDigit(t[i]);
  }

  lemma JoinThree(a: bytes, b: bytes, c: bytes)
    ensures Joined([a, b, c]) == a + [SP] + b + [SP] + c
  {
    assert [a, b, c][1..] == [b, c] && [b, c][1..] == [c];
    assert Joined([b, c]) == b + [SP] + c;
  }

  lemma JoinTwo(a: bytes, b: bytes)
    ensures Joined([a, b]) == a + [SP] + b
  {
    assert [a, b][1..] == [b];
  }

  lemma CommandWords()
    ensures Word(WORD_PUB) && Word(WORD_SUB) && Word(WORD_UNSUB)
  {
  }

  lemma ThreeReadIff(a: bytes, b: bytes, c: bytes)
    ensures ReadsAs(a + [SP] + b + [SP] + c + CRLF, [a, b, c]) <==> Word(a) && Word(b) && Word(c)
  {
    var ws := [a, b, c];
    LineReadsIff(ws);
    JoinThree(a, b, c);
    hide ReadsAs, Joined, Word;
    assert ws[0] == a && ws[1] == b && ws[2] == c;
  }

  lemma TwoReadIff(a: bytes, b: bytes)
    ensures ReadsAs(a + [SP] + b + CRLF, [a, b]) <==> Word(a) && Word(b)
  {
    var ws := [a, b];
    LineReadsIff(ws);
    JoinTwo(a, b);
    hide ReadsAs, Joined, Word;
    assert ws[0] == a && ws[1] == b;
  }

  lemma FourReadIff(a: bytes, b: bytes, c: bytes, d: bytes)
    ensures ReadsAs(a + [SP] + (b + [SP] + c + [SP] + d) + CRLF, [a, b, c, d]) <==>
            Word(a) && Word(b) && Word(c) && Word(d)
  {
    var ws := [a, b, c, d];
    LineReadsIff(ws);
    JoinThree(b, c, d);
    assert ws[1..] == [b, c, d];
    assert Joined(ws) == a + [SP] + Joined([b, c, d]);
    hide ReadsAs, Joined, Word;
    assert ws[0] == a && ws[1] == b && ws[2] == c && ws[3] == d;
  }

  lemma PubLineText(subject: bytes, replyto: Option<bytes>, len: nat)
    ensures var d := Decimal(len);
            PubLine(subject, replyto, len) ==
            if replyto.Some? then WORD_PUB + [SP] + (subject + [SP] + replyto.value + [SP] + d) + CRLF
            else WORD_PUB + [SP] + subject + [SP] + d + CRLF
  {
    hide Decimal;
    assert TEXT_PUB == WORD_PUB + [SP];
  }

  /** The header of a PUB is read back exactly when subject and reply-to are words. */
  lemma PubReadsIff(subject: bytes, replyto: Option<bytes>, len: nat)
    ensures ReadsAs(PubLine(subject, replyto, len), PubWords(subject, replyto, len)) <==>
            Word(subject) && (replyto.Some? ==> Word(replyto.value))
  {
    NumberIsWord(len);
    CommandWords();
    PubLineText(subject, replyto, len);
    hide ReadsAs, Word, Decimal, PubLine;
    if replyto.Some? {
      FourReadIff(WORD_PUB, subject, replyto.value, Decimal(len));
    } else {
      ThreeReadIff(WORD_PUB, subject, Decimal(len));
    }
  }

  /** A whole SUB line is read back exactly when the subject is a word. */
  lemma SubReadsIff(subject: bytes, sid: nat)
    ensures ReadsAs(SubLine(subject, sid), [WORD_SUB, subject, Decimal(sid)]) <==> Word(subject)
  {
    NumberIsWord(sid);
    CommandWords();
    hide ReadsAs, Word, Decimal;
    assert TEXT_SUB == WORD_SUB + [SP];
    ThreeReadIff(WORD_SUB, subject, Decimal(sid));
  }

  lemma UnsubReads(sid: nat, max: Option<nat>)
    ensures ReadsAs(UnsubLine(sid, max), UnsubWords(sid, max))
  {
    NumberIsWord(sid);
    CommandWords();
    hide ReadsAs, Word, Decimal;
    assert TEXT_UNSUB == WORD_UNSUB + [SP];
    var d := Decimal(sid);
    if max.Some? {
      NumberIsWord(max.value);
      ThreeReadIff(WORD_UNSUB, d, Decimal(max.value));
      assert UnsubLine(sid, max) == WORD_UNSUB + [SP] + d + [SP] + Decimal(max.value) + CRLF;
    } else {
      TwoReadIff(WORD_UNSUB, d);
      assert UnsubLine(sid, max) == WORD_UNSUB + [SP] + d + CRLF;
    }
  }

  // What the calls of a client queue

  /** Subscribing queues SUB under the sid returned, and with a maximum UNSUB with that sid and that maximum. */
  lemma SubscribeSends(h: Sess, client: nat, handler: nat, subject: bytes, max: int)
    requires h.IsReady() && Word(subject) && h.nextId + 1 < U64 && max < U64
    requires |subject| + |Decimal(h.nextId + 1)| <= HEADER_SIZE - 7
    ensures var (r, reply) := SubscribeCall(h, client, handler, subject, max);
            var n := |h.queued|;
            && reply.Sid? && |r.queued| == (if max > 0 then n + 2 else n + 1) && r.queued[..n] == h.queued
            && r.queued[n].Subscribe? && ReadsAs(r.queued[n].line, [WORD_SUB, subject, Decimal(reply.sid)])
            && (max > 0 ==>
                  && r.queued[n + 1].Unsubscribe?
                  && ReadsAs(r.queued[n + 1].line, [WORD_UNSUB, Decimal(reply.sid), Decimal(max)]))
  {
    hide ReadsAs, Cut, SubLine, UnsubLine, Decimal, SubscribeCall, Word;
    var sid := h.nextId + 1;
    SubReadsIff(subject, sid);
    Lines.SubLineWholeIff(subject, sid);
    if max > 0 {
      UnsubReads(sid, Some(max));
      Lines.UnsubLineWhole(sid, Some(max));
    }
    SubscribeQueued(h, client, handler, subject, max);
  }

  lemma SubscribeQueued(h: Sess, client: nat, handler: nat, subject: bytes, max: int)
    requires h.IsReady()
    ensures var (r, reply) := SubscribeCall(h, client, handler, subject, max);
            var sid := h.nextId + 1;
            && reply == Sid(sid)
            && r.queued == h.queued + [Subscribe(Cut(SubLine(subject, sid), HEADER_SIZE))]
                           + (if max > 0 then [Unsubscribe(Cut(UnsubLine(sid, Some(max)), HEADER_SIZE))] else [])
  {
    hide Cut, SubLine, UnsubLine, Subscriptions.Add;
  }

  /** Unsubscribing a live sid queues UNSUB with it; otherwise nothing is queued. */
  lemma UnsubscribeSends(h: Sess, sid: nat)
    requires sid < U64
    ensures var (r, reply) := UnsubscribeCall(h, sid);
            var n := |h.queued|;
            && (!reply.Fine? ==> r.queued == h.queued)
            && (reply.Fine? ==>
                  && |r.queued| == n + 1 && r.queued[..n] == h.queued
                  && r.queued[n].Unsubscribe? && ReadsAs(r.queued[n].line, [WORD_UNSUB, Decimal(sid)]))
  {
    UnsubReads(sid, None);
    Lines.UnsubLineWhole(sid, None);
    hide ReadsAs, Cut, UnsubLine, Decimal, Subscriptions.Remove;
  }

  /** Publishing queues a header with subject, reply-to and length, and behind it that many bytes of the data. */
  lemma PublishSends(h: Sess, subject: bytes, replyto: Option<bytes>, data: bytes, len: nat)
    requires h.IsReady() && 0 < len <= |data| && len < U64
    requires Word(subject) && (replyto.Some? ==> Word(replyto.value))
    requires |subject| + (if replyto.Some? then |replyto.value| else 0) <= SUBJECT_LIMIT
    ensures var (r, reply) := PublishCall(h, subject, replyto, data, len);
            var n := |h.queued|;
            && reply == Fine && |r.queued| == n + 1 && r.queued[..n] == h.queued && r.queued[n].Publish?
            && ReadsAs(r.queued[n].header, PubWords(subject, replyto, len)) && r.queued[n].payload == data[..len]
  {
    PubReadsIff(subject, replyto, len);
    Lines.PubHeaderWhole(subject, replyto, len);
    hide ReadsAs, Cut, PubLine, Decimal, Word;
  }

  // INFO

  /** A field of INFO that the client knows has the type it expects. */
  predicate InfoTyped(f: Json.Field) {
    var name := JsonPrinter.CString(f.name);
    && (SameFold(name, NAME_SERVER_ID) || SameFold(name, NAME_HOST) ==> f.value.Str?)
    && (SameFold(name, NAME_VERSION) || SameFold(name, NAME_GO) ==> f.value.Str?)
    && (SameFold(name, NAME_PORT) || SameFold(name, NAME_MAX_PAYLOAD) ==> f.value.Int?)
    && (SameFold(name, NAME_AUTH) || SameFold(name, NAME_SSL) ==> f.value.Bool?)
  }

  /** The eight names differ by length, or by their first letter. */
  lemma NamesDiffer(name: bytes)
    ensures SameFold(name, NAME_SERVER_ID) ==> |name| == 9
    ensures SameFold(name, NAME_HOST) ==> |name| == 4 && Lower(name[0]) == 104
    ensures SameFold(name, NAME_PORT) ==> |name| == 4 && Lower(name[0]) == 112
    ensures SameFold(name, NAME_VERSION) ==> |name| == 7
    ensures SameFold(name, NAME_AUTH) ==> |name| == 13
    ensures SameFold(name, NAME_SSL) ==> |name| == 12
    ensures SameFold(name, NAME_MAX_PAYLOAD) ==> |name| == 11
    ensures SameFold(name, NAME_GO) ==> |name| == 2
  {
  }

  lemma FieldAcceptedIff(srv: Server, f: Json.Field)
    ensures InfoField(srv, f).Some? <==> InfoTyped(f)
  {
    NamesDiffer(JsonPrinter.CString(f.name));
    hide SameFold, JsonPrinter.CString;
  }

  /** INFO is refused exactly when some field the client knows has another type. */
  lemma {:induction false} InfoAcceptedIff(srv: Server, fs: seq<Json.Field>)
    ensures InfoFields(srv, fs).1 <==> forall i :: 0 <= i < |fs| ==> InfoTyped(fs[i])
    decreases |fs|
  {
    if fs != [] {
      FieldAcceptedIff(srv, fs[0]);
      hide InfoField, InfoTyped;
      assert fs == [fs[0]] + fs[1..];
      if InfoField(srv, fs[0]).Some? {
        InfoAcceptedIff(InfoField(srv, fs[0]).value, fs[1..]);
      }
    }
  }

  function Flag(b: bool): Json.Value { Json.Bool(if b then 1 else 0) }

  /** What a server says of itself, as the NATS client protocol lays it out. */
  function InfoObject(s: Server): seq<Json.Field> {
    [
      Json.Field([115, 101, 114, 118, 101, 114, 95, 105, 100], Json.Str(s.id)),
      Json.Field([104, 111, 115, 116], Json.Str(s.host)),
      Json.Field([112, 111, 114, 116], Json.Int(s.port)),
      Json.Field([118, 101, 114, 115, 105, 111, 110], Json.Str(s.version)),
      Json.Field([103, 111], Json.Str(s.go)),
      Json.Field([109, 97, 120, 95, 112, 97, 121, 108, 111, 97, 100], Json.Int(s.maxPayload)),
      Json.Field([97, 117, 116, 104, 95, 114, 101, 113, 117, 105, 114, 101, 100], Flag(s.authRequired)),
      Json.Field([115, 115, 108, 95, 114, 101, 113, 117, 105, 114, 101, 100], Flag(s.sslRequired))
    ]
  }

  predicate CleanServer(s: Server) {
    && JsonPrinter.Clean(s.id) && JsonPrinter.Clean(s.host) && JsonPrinter.Clean(s.version) && JsonPrinter.Clean(s.go)
    && 0 - I64_MAX <= s.port <= I64_MAX
    && 0 - I64_MAX <= s.maxPayload <= I64_MAX
  }

  lemma NamesClean()
    ensures JsonPrinter.Clean(NAME_SERVER_ID) && JsonPrinter.Clean(NAME_HOST) && JsonPrinter.Clean(NAME_PORT)
    ensures JsonPrinter.Clean(NAME_VERSION) && JsonPrinter.Clean(NAME_GO) && JsonPrinter.Clean(NAME_MAX_PAYLOAD)
    ensures JsonPrinter.Clean(NAME_AUTH) && JsonPrinter.Clean(NAME_SSL)
  {
  }

  lemma InfoPrintable(s: Server)
    requires CleanServer(s)
    ensures JsonPrinter.PrintableMembers(InfoObject(s))
  {
    NamesClean();
    hide JsonPrinter.Clean, JsonPrinter.PrintableMembers;
    JsonPrinter.MembersPrintable(InfoObject(s));
  }

  /** A field that is taken over leaves the rest to be read with it. */
  lemma InfoStep(srv: Server, fs: seq<Json.Field>, k: nat, next: Server)
    requires k < |fs| && InfoField(srv, fs[k]) == Some(next)
    ensures InfoFields(srv, fs[k..]) == InfoFields(next, fs[k + 1..])
  {
    hide InfoField;
    assert fs[k..][1..] == fs[k + 1..];
  }

  lemma NamesAreThemselves(name: bytes)
    requires JsonPrinter.Clean(name)
    ensures JsonPrinter.CString(name) == name && SameFold(name, name)
  {
    JsonPrinter.UnitsOfClean(name);
  }

  lemma TextTaken(srv: Server, t: bytes)
    ensures InfoField(srv, Json.Field(NAME_SERVER_ID, Json.Str(t))) == Some(srv.(id := t))
    ensures InfoField(srv, Json.Field(NAME_HOST, Json.Str(t))) == Some(srv.(host := t))
    ensures InfoField(srv, Json.Field(NAME_VERSION, Json.Str(t))) == Some(srv.(version := t))
    ensures InfoField(srv, Json.Field(NAME_GO, Json.Str(t))) == Some(srv.(go := t))
  {
    NamesClean();
    NamesAreThemselves(NAME_SERVER_ID);
    NamesAreThemselves(NAME_HOST);
    NamesAreThemselves(NAME_VERSION);
    NamesAreThemselves(NAME_GO);
    NamesDiffer(NAME_HOST);
    NamesDiffer(NAME_VERSION);
    NamesDiffer(NAME_GO);
    hide SameFold, JsonPrinter.CString, JsonPrinter.Clean;
  }

  lemma NumberTaken(srv: Server, i: int)
    ensures InfoField(srv, Json.Field(NAME_PORT, Json.Int(i))) == Some(srv.(port := i))
    ensures InfoField(srv, Json.Field(NAME_MAX_PAYLOAD, Json.Int(i))) == Some(srv.(maxPayload := i))
  {
    NamesClean();
    NamesAreThemselves(NAME_PORT);
    NamesAreThemselves(NAME_MAX_PAYLOAD);
    NamesDiffer(NAME_PORT);
    NamesDiffer(NAME_MAX_PAYLOAD);
    hide SameFold, JsonPrinter.CString, JsonPrinter.Clean;
  }

  lemma FlagTaken(srv: Server, b: bool)
    ensures InfoField(srv, Json.Field(NAME_AUTH, Flag(b))) == Some(srv.(authRequired := b))
    ensures InfoField(srv, Json.Field(NAME_SSL, Flag(b))) == Some(srv.(sslRequired := b))
  {
    NamesClean();
    NamesAreThemselves(NAME_AUTH);
    NamesAreThemselves(NAME_SSL);
    NamesDiffer(NAME_AUTH);
    NamesDiffer(NAME_SSL);
    hide SameFold, JsonPrinter.CString, JsonPrinter.Clean;
  }

  lemma FirstFieldsTaken(srv: Server, s: Server)
    ensures InfoFields(srv, InfoObject(s)) ==
            InfoFields(srv.(id := s.id, host := s.host, port := s.port, version := s.version), InfoObject(s)[4..])
  {
    var fs := InfoObject(s);
    var s1 := srv.(id := s.id);
    var s2 := s1.(host := s.host);
    var s3 := s2.(port := s.port);
    TextTaken(srv, s.id);
    TextTaken(s1, s.host);
    NumberTaken(s2, s.port);
    TextTaken(s3, s.version);
    hide InfoField, InfoFields;
    InfoStep(srv, fs, 0, s1);
    InfoStep(s1, fs, 1, s2);
    InfoStep(s2, fs, 2, s3);
    InfoStep(s3, fs, 3, s3.(version := s.version));
    assert fs[0..] == fs;
  }

  lemma LastFieldsTaken(srv: Server, s: Server)
    ensures InfoFields(srv, InfoObject(s)[4..]) ==
            (srv.(go := s.go, maxPayload := s.maxPayload, authRequired := s.authRequired, sslRequired := s.sslRequired),
             true)
  {
    var fs := InfoObject(s);
    var s1 := srv.(go := s.go);
    var s2 := s1.(maxPayload := s.maxPayload);
    var s3 := s2.(authRequired := s.authRequired);
    var s4 := s3.(sslRequired := s.sslRequired);
    TextTaken(srv, s.go);
    NumberTaken(s1, s.maxPayload);
    FlagTaken(s2, s.authRequired);
    FlagTaken(s3, s.sslRequired);
    NoMoreFields(s4);
    hide InfoField, InfoFields;
    InfoStep(srv, fs, 4, s1);
    InfoStep(s1, fs, 5, s2);
    InfoStep(s2, fs, 6, s3);
    InfoStep(s3, fs, 7, s4);
    assert fs[8..] == [];
  }

  lemma FieldsTaken(srv: Server, s: Server)
    ensures InfoFields(srv, InfoObject(s)) == (s, true)
  {
    hide InfoFields, InfoObject;
    FirstFieldsTaken(srv, s);
    LastFieldsTaken(srv.(id := s.id, host := s.host, port := s.port, version := s.version), s);
  }

  lemma NoMoreFields(s: Server)
    ensures InfoFields(s, []) == (s, true)
  {
  }

  /** What a server prints of itself in INFO, whatever follows it, is what the client then knows of it. */
  lemma InfoCarries(srv: Server, s: Server, rest: bytes, strtod: bytes -> bool)
    requires CleanServer(s)
    ensures ReadInfo(srv, JsonPrinter.Print(Json.Obj(InfoObject(s))) + rest, strtod) == (s, true)
  {
    InfoPrintable(s);
    FieldsTaken(srv, s);
    hide InfoFields, InfoObject, JsonPrinter.Print, Json.Parse, CleanServer;
    JsonPrinter.RoundTrip(Json.Obj(InfoObject(s)), rest, strtod);
  }

  // PING

  lemma PongsQueued(h: Sess, c: Content, strtod: bytes -> bool)
    ensures var r := Handle(h, c, strtod).0; r.queued == if c.Ping? then h.queued + [PongReply] else h.queued
  {
    hide ReadInfo, Subscriptions.Account, Subscriptions.Find;
  }

  /** Every PING is answered by one PONG, and nothing else the server sends makes the client queue anything. */
  lemma {:induction false} PingsAnswered(h: Sess, cs: seq<Content>, strtod: bytes -> bool)
    requires HandleAll(h, cs, strtod).1
    ensures var r := HandleAll(h, cs, strtod).0;
            && h.queued <= r.queued && |r.queued| == |h.queued| + multiset(cs)[Ping]
            && forall i :: |h.queued| <= i < |r.queued| ==> r.queued[i] == PongReply
    decreases |cs|
  {
    hide Handle;
    if cs != [] {
      PongsQueued(h, cs[0], strtod);
      PingsAnswered(Handle(h, cs[0], strtod).0, cs[1..], strtod);
      assert cs == [cs[0]] + cs[1..];
      assert multiset(cs)[Ping] == (if cs[0].Ping? then 1 else 0) + multiset(cs[1..])[Ping];
    }
  }
}
