/** A byte stream as the session sees it, frame by frame, and why its division into reads does not matter. */
module Stream {
  import opened Bytes
  import opened Wire
  import opened WireStability
  import opened WireContent
  import opened Session

  /** Why the reader stands still: it waits for bytes, the parser found a fault, or the session refused a frame. */
  datatype Stop = Waiting | Faulty(fault: Fault) | Rejected

  /** The session after the frames of a stream, the bytes not consumed, and why. */
  datatype Drained = Drained(h: Sess, rest: bytes, stop: Stop)

  function FrameContent(s: bytes): Content
    requires Parse(s).Frame?
  {
    FrameBounds(s);
    ContentOf(s, Parse(s).n, Parse(s).msg)
  }

  /** Parsing from the front, again and again: the reference reading of a whole stream. */
  function Drain(h: Sess, s: bytes, strtod: bytes -> bool): Drained
    decreases |s|
  {
    match Parse(s)
    case Again => Drained(h, s, Waiting)
    case Bad(f) => Drained(h, s, Faulty(f))
    case Frame(n, _) =>
      FrameBounds(s);
      var (h1, ok) := Handle(h, FrameContent(s), strtod);
      if ok then Drain(h1, s[n..], strtod) else Drained(h1, s, Rejected)
  }

  lemma FrameContentStable(s: bytes, t: bytes)
    requires Parse(s).Frame?
    ensures Parse(s + t) == Parse(s) && FrameContent(s + t) == FrameContent(s)
  {
    VerdictStable(s, t);
    FrameBounds(s);
    hide Parse;
    ContentStable(s, t, Parse(s).n, Parse(s).msg);
  }

  /** u and w have the same first n bytes. */
  ghost predicate SameStart(u: bytes, w: bytes, n: nat) {
    n <= |u| && n <= |w| && forall i :: 0 <= i < n ==> u[i] == w[i]
  }

  lemma SameSlice(u: bytes, w: bytes, n: nat, lo: nat, hi: nat)
    requires SameStart(u, w, n) && lo <= hi <= n
    ensures u[lo..hi] == w[lo..hi]
  {
  }

  lemma MsgContentLocal(u: bytes, w: bytes, n: nat, m: Msg)
    requires SameStart(u, w, n) && InFrame(n, m) && m.kind == KMsg
    ensures ContentOf(u, n, m) == ContentOf(w, n, m)
  {
    SameSlice(u, w, n, m.bstart, m.bend);
    SameSlice(u, w, n, m.subject.start, m.subject.End());
    SameSlice(u, w, n, m.replyto.start, m.replyto.End());
    hide SameStart;
  }

  /** The content of a frame depends on its own bytes only. */
  lemma ContentLocal(u: bytes, w: bytes, n: nat, m: Msg)
    requires SameStart(u, w, n) && InFrame(n, m)
    ensures ContentOf(u, n, m) == ContentOf(w, n, m)
  {
    if m.kind == KMsg {
      MsgContentLocal(u, w, n, m);
    } else if m.kind.IsText() {
      SameSlice(u, w, n, m.bstart, m.bend);
    }
    hide SameStart;
  }

  lemma ContentStable(s: bytes, t: bytes, n: nat, m: Msg)
    requires n <= |s| && InFrame(n, m)
    ensures ContentOf(s + t, n, m) == ContentOf(s, n, m)
  {
    hide ContentOf, InFrame;
    ContentLocal(s + t, s, n, m);
  }

  /**
   * Reading s and then t is reading s + t: if s leaves the reader waiting, it goes on from the bytes left over;
   * if it has stopped for good, more bytes change nothing.
   */
  lemma {:induction false} DrainSplit(h: Sess, s: bytes, t: bytes, strtod: bytes -> bool)
    ensures var d := Drain(h, s, strtod);
            if d.stop.Waiting? then Drain(h, s + t, strtod) == Drain(d.h, d.rest + t, strtod)
            else Drain(h, s + t, strtod) == Drained(d.h, d.rest + t, d.stop)
    decreases |s|
  {
    match Parse(s)
    case Again =>
    case Bad(f) =>
      VerdictStable(s, t);
      hide Parse;
    case Frame(n, _) =>
      FrameContentStable(s, t);
      hide Parse, FrameContent, Handle;
      FrameBounds(s);
      assert (s + t)[n..] == s[n..] + t;
      var (h1, ok) := Handle(h, FrameContent(s), strtod);
      if ok {
        DrainSplit(h1, s[n..], t, strtod);
      }
  }

  /** What is left when the reader waits is the unconsumed suffix, and it is not a frame. */
  lemma {:induction false} WaitingRest(h: Sess, s: bytes, strtod: bytes -> bool)
    requires Drain(h, s, strtod).stop.Waiting?
    ensures var d := Drain(h, s, strtod);
            |d.rest| <= |s| && d.rest == s[|s| - |d.rest|..] && Parse(d.rest).Again?
    decreases |s|
  {
    hide Drain, Handle, FrameContent, Parse;
    WaitingFirst(h, s, strtod);
    if Parse(s).Frame? {
      FrameBounds(s);
      var n := Parse(s).n;
      WaitingRest(Handle(h, FrameContent(s), strtod).0, s[n..], strtod);
      SuffixOfSuffix(s, n, Drain(h, s, strtod).rest);
    }
  }

  /** A reader that will wait has no frame in front, or handles it and goes on behind it. */
  lemma WaitingFirst(h: Sess, s: bytes, strtod: bytes -> bool)
    requires Drain(h, s, strtod).stop.Waiting?
    ensures if Parse(s).Frame? then
              && Parse(s).n <= |s|
              && Drain(h, s, strtod) == Drain(Handle(h, FrameContent(s), strtod).0, s[Parse(s).n..], strtod)
            else Parse(s).Again? && Drain(h, s, strtod).rest == s
  {
    hide FrameContent, Handle, Parse;
    if Parse(s).Frame? {
      FrameBounds(s);
    }
  }

  lemma SuffixOfSuffix(s: bytes, n: nat, rest: bytes)
    requires n <= |s| && |rest| <= |s| - n && rest == s[n..][|s| - n - |rest|..]
    ensures rest == s[|s| - |rest|..]
  {
  }

  /** Why the reader stands still is what the parser says of the bytes left. */
  lemma {:induction false} StopTells(h: Sess, s: bytes, strtod: bytes -> bool)
    ensures var d := Drain(h, s, strtod);
            match d.stop
            case Waiting => Parse(d.rest).Again?
            case Faulty(f) => Parse(d.rest) == Bad(f)
            case Rejected => Parse(d.rest).Frame?
    decreases |s|
  {
    hide Parse, Handle, FrameContent;
    if Parse(s).Frame? {
      FrameBounds(s);
      var (h1, ok) := Handle(h, FrameContent(s), strtod);
      if ok {
        StopTells(h1, s[Parse(s).n..], strtod);
      }
    }
  }

  function Concat(chunks: seq<bytes>): bytes {
    if chunks == [] then [] else chunks[0] + Concat(chunks[1..])
  }

  /** Reading chunk by chunk: each is put behind what was left over; nothing is read after a stop. */
  function Feed(d: Drained, chunks: seq<bytes>, strtod: bytes -> bool): Drained
    decreases |chunks|
  {
    if chunks == [] || !d.stop.Waiting? then d
    else Feed(Drain(d.h, d.rest + chunks[0], strtod), chunks[1..], strtod)
  }

  /** Two readings agree: same session, same reason to stand still, and the same bytes left while waiting. */
  predicate Agree(d: Drained, e: Drained) {
    d.h == e.h && d.stop == e.stop && (d.stop.Waiting? ==> d.rest == e.rest)
  }

  /** Chunk independence: however a stream is divided into reads, the session ends as on the whole stream. */
  lemma {:induction false} ChunkIndependence(d: Drained, chunks: seq<bytes>, strtod: bytes -> bool)
    requires d.stop.Waiting? && Parse(d.rest).Again?
    ensures Agree(Feed(d, chunks, strtod), Drain(d.h, d.rest + Concat(chunks), strtod))
    decreases |chunks|
  {
    hide Parse, Handle, FrameContent;
    if chunks == [] {
      assert d.rest + Concat(chunks) == d.rest;
      assert Drain(d.h, d.rest, strtod) == d;
    } else {
      var e := Drain(d.h, d.rest + chunks[0], strtod);
      var more := Concat(chunks[1..]);
      DrainSplit(d.h, d.rest + chunks[0], more, strtod);
      assert d.rest + Concat(chunks) == d.rest + chunks[0] + more;
      if e.stop.Waiting? {
        WaitingRest(d.h, d.rest + chunks[0], strtod);
        ChunkIndependence(e, chunks[1..], strtod);
      }
    }
  }

  // End to end

  function PrintAll(cs: seq<Content>): bytes {
    if cs == [] then [] else Print(cs[0]) + PrintAll(cs[1..])
  }

  /** The session given contents one after the other, up to the first it refuses. */
  function HandleAll(h: Sess, cs: seq<Content>, strtod: bytes -> bool): (Sess, bool)
    decreases |cs|
  {
    if cs == [] then (h, true)
    else
      var (h1, ok) := Handle(h, cs[0], strtod);
      if ok then HandleAll(h1, cs[1..], strtod) else (h1, false)
  }

  lemma PrintedFirst(c: Content, rest: bytes)
    requires Printable(c)
    ensures var s := Print(c) + rest;
            Parse(s).Frame? && Parse(s).n == |Print(c)| && FrameContent(s) == c && s[|Print(c)|..] == rest
  {
    RoundTrip(c, rest);
    hide Parse, Print, ContentOf;
  }

  /** Whatever the server sends, printed and cut into reads in any way, reaches the session content by content. */
  lemma {:induction false} SentIsHandled(h: Sess, cs: seq<Content>, strtod: bytes -> bool)
    requires forall c :: c in cs ==> Printable(c)
    ensures var d := Drain(h, PrintAll(cs), strtod);
            var (r, ok) := HandleAll(h, cs, strtod);
            d.h == r && (if ok then d.stop == Waiting && d.rest == [] else d.stop == Rejected)
    decreases |cs|
  {
    hide Handle, FrameContent, Print;
    if cs == [] {
      assert Parse([]).Again?;
    } else {
      var c, rest := cs[0], PrintAll(cs[1..]);
      PrintedFirst(c, rest);
      hide Parse;
      var (h1, ok) := Handle(h, c, strtod);
      if ok {
        SentIsHandled(h1, cs[1..], strtod);
      }
    }
  }

  /** The same through any division into reads. */
  lemma EndToEnd(h: Sess, cs: seq<Content>, chunks: seq<bytes>, strtod: bytes -> bool)
    requires (forall c :: c in cs ==> Printable(c)) && Concat(chunks) == PrintAll(cs)
    ensures var d := Feed(Drained(h, [], Waiting), chunks, strtod);
            var (r, ok) := HandleAll(h, cs, strtod);
            d.h == r && (if ok then d.stop == Waiting && d.rest == [] else d.stop == Rejected)
  {
    assert Parse([]).Again?;
    hide Parse, Handle, Drain;
    ChunkIndependence(Drained(h, [], Waiting), chunks, strtod);
    assert [] + Concat(chunks) == PrintAll(cs);
    SentIsHandled(h, cs, strtod);
  }
}
