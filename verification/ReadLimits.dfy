/** The size limit of the read buffer, as a property of the stream. */
module ReadLimits {
  import opened Bytes
  import opened Wire
  import opened WireStability
  import opened WireContent
  import opened Session
  import Subscriptions
  import opened Stream
  import B = Buffer

  /** What an incomplete message may not reach: the server's positive maximum payload or 256 MB, at least 4096. */
  function Limit(h: Sess): (r: nat)
    ensures B.INIT_SIZE <= r <= B.MAX_MESSAGE_SIZE
  {
    if B.INIT_SIZE <= h.server.maxPayload < B.MAX_MESSAGE_SIZE then h.server.maxPayload
    else if 0 < h.server.maxPayload < B.INIT_SIZE then B.INIT_SIZE
    else B.MAX_MESSAGE_SIZE
  }

  /** No prefix of s leaves the parser waiting with `limit` - 1 bytes or more. */
  ghost predicate ShortWaits(s: bytes, limit: nat) {
    forall k :: 0 <= k <= |s| && Parse(s[..k]).Again? ==> k + 1 < limit
  }

  /** Wherever the reader waits in the stream, what it waits with is below the limit in force there. */
  ghost predicate Fits(h: Sess, s: bytes, strtod: bytes -> bool)
    decreases |s|
  {
    && ShortWaits(s, Limit(h))
    && (Parse(s).Frame? ==>
          (FrameBounds(s);
           var (h1, ok) := Handle(h, FrameContent(s), strtod);
           ok ==> Fits(h1, s[Parse(s).n..], strtod)))
  }

  /** For a stream that starts with a message, waiting within the limit means that the message is shorter than it. */
  lemma FrameFits(s: bytes, limit: nat)
    requires Parse(s).Frame?
    ensures ShortWaits(s, limit) <==> Parse(s).n < limit
  {
    FrameBounds(s);
    var n := Parse(s).n;
    ShorterIsAgain(s, n - 1);
    FrameIsLocal(s);
    hide Parse;
    forall k | 0 <= k <= |s| && Parse(s[..k]).Again?
      ensures k < n
    {
      if k >= n {
        assert s[..n] + s[n..k] == s[..k];
        VerdictStable(s[..n], s[n..k]);
      }
    }
  }

  /** Going on with a stream that fits, behind its first message. */
  lemma FitsBehind(h: Sess, s: bytes, t: bytes, strtod: bytes -> bool)
    requires Fits(h, s + t, strtod) && Parse(s).Frame? && Handle(h, FrameContent(s), strtod).1
    ensures Parse(s).n <= |s| && Fits(Handle(h, FrameContent(s), strtod).0, s[Parse(s).n..] + t, strtod)
  {
    hide FrameContent, Handle, ShortWaits;
    FrameContentStable(s, t);
    FrameBounds(s);
    hide Parse;
    assert (s + t)[Parse(s).n..] == s[Parse(s).n..] + t;
  }

  /** Going on with a stream that fits, from wherever the reader waits. */
  lemma {:induction false} FitsSplit(h: Sess, s: bytes, t: bytes, strtod: bytes -> bool)
    requires Fits(h, s + t, strtod) && Drain(h, s, strtod).stop.Waiting?
    ensures var d := Drain(h, s, strtod); Fits(d.h, d.rest + t, strtod)
    decreases |s|
  {
    hide FrameContent, Handle, Fits, Parse;
    if Parse(s).Frame? {
      FrameBounds(s);
      FitsBehind(h, s, t, strtod);
      FitsSplit(Handle(h, FrameContent(s), strtod).0, s[Parse(s).n..], t, strtod);
    }
  }

  /** Every message is shorter than the limit in force when it comes. */
  ghost predicate AllShort(h: Sess, cs: seq<Content>, strtod: bytes -> bool)
    decreases |cs|
  {
    cs == [] ||
    (|Print(cs[0])| < Limit(h) && var (h1, ok) := Handle(h, cs[0], strtod); ok ==> AllShort(h1, cs[1..], strtod))
  }

  lemma {:induction false} ShortMessagesFit(h: Sess, cs: seq<Content>, strtod: bytes -> bool)
    requires (forall c :: c in cs ==> Printable(c)) && AllShort(h, cs, strtod)
    ensures Fits(h, PrintAll(cs), strtod)
    decreases |cs|
  {
    hide Handle, FrameContent, Print, Printable;
    if cs == [] {
      assert Parse([]).Again?;
      assert PrintAll(cs) == [];
    } else {
      var c, rest := cs[0], PrintAll(cs[1..]);
      PrintedFirst(c, rest);
      hide Parse;
      FrameFits(Print(c) + rest, Limit(h));
      var (h1, ok) := Handle(h, c, strtod);
      if ok {
        ShortMessagesFit(h1, cs[1..], strtod);
      }
    }
  }

  /** The capacity is 4096 doubled some number of times, at most 2^28. */
  ghost predicate CapInv(cap: nat) {
    Doubling(B.INIT_SIZE, cap) && cap <= B.MAX_MESSAGE_SIZE
  }

  lemma MaxIsDoubling()
    ensures Doubling(B.INIT_SIZE, B.MAX_MESSAGE_SIZE)
  {
    assert Doubling(4096, 0x2000) && Doubling(4096, 0x4000) && Doubling(4096, 0x8000) && Doubling(4096, 0x1_0000);
    assert Doubling(4096, 0x2_0000) && Doubling(4096, 0x4_0000) && Doubling(4096, 0x8_0000);
    assert Doubling(4096, 0x10_0000);
    assert Doubling(4096, 0x20_0000) && Doubling(4096, 0x40_0000) && Doubling(4096, 0x80_0000);
    assert Doubling(4096, 0x100_0000) && Doubling(4096, 0x200_0000) && Doubling(4096, 0x400_0000);
    assert Doubling(4096, 0x800_0000);
  }

  lemma {:induction false} DoubledCap(cap: nat, need: nat)
    requires CapInv(cap) && need <= B.MAX_MESSAGE_SIZE
    ensures cap > 0 && CapInv(B.Doubled(cap, need))
    decreases need - cap
  {
    DoublingAtLeast(B.INIT_SIZE, cap);
    if cap < need {
      MaxIsDoubling();
      DoublingGap(B.INIT_SIZE, cap, B.MAX_MESSAGE_SIZE);
      DoubledCap(2 * cap, need);
    }
  }

  lemma {:induction false} CeilingCap(cap: nat, limit: nat, alloc: nat -> bool)
    requires CapInv(cap) && limit <= B.MAX_MESSAGE_SIZE
    ensures cap > 0 && CapInv(B.Ceiling(cap, limit, alloc))
    decreases limit - cap
  {
    DoublingAtLeast(B.INIT_SIZE, cap);
    if cap < limit {
      MaxIsDoubling();
      DoublingGap(B.INIT_SIZE, cap, B.MAX_MESSAGE_SIZE);
      if alloc(2 * cap) {
        CeilingCap(2 * cap, limit, alloc);
      }
    }
  }

  // What a buffer of a given capacity makes of a stream

  /** The longest part of s[..k] that leaves the parser waiting. */
  function PeakFrom(s: bytes, k: nat): (r: nat)
    requires k <= |s|
    ensures r <= k && Parse(s[..r]).Again?
    ensures forall j :: r < j <= k ==> !Parse(s[..j]).Again?
  {
    if k == 0 || Parse(s[..k]).Again? then k else PeakFrom(s, k - 1)
  }

  /** How many bytes of the message at the front of s a reader can come to wait with. */
  function Peak(s: bytes): (r: nat)
    ensures r <= |s| && Parse(s[..r]).Again?
    ensures forall j :: r < j <= |s| ==> !Parse(s[..j]).Again?
  {
    PeakFrom(s, |s|)
  }

  /** The waiting parts of s are those up to its peak: it is settled by the next longer one. */
  lemma PeakIs(s: bytes, r: nat)
    requires r < |s| && Parse(s[..r]).Again? && !Parse(s[..r + 1]).Again?
    ensures Peak(s) == r
  {
    hide Parse;
    var p := Peak(s);
    if p > r {
      assert s[..r + 1] + s[r + 1..p] == s[..p];
      VerdictStable(s[..r + 1], s[r + 1..p]);
    }
  }

  lemma PeakOfWait(s: bytes, t: bytes)
    requires Parse(s).Again?
    ensures Peak(s) == |s| <= Peak(s + t)
  {
    hide Parse;
    assert s[..|s|] == s && (s + t)[..|s|] == s;
  }

  /** Once the parser has answered, more bytes do not change the peak; before a frame it is one byte short. */
  lemma PeakStable(s: bytes, t: bytes)
    requires !Parse(s).Again?
    ensures Peak(s + t) == Peak(s) < |s|
    ensures Parse(s).Frame? ==> Peak(s) == Parse(s).n - 1
  {
    hide Parse;
    assert s[..|s|] == s;
    if Parse(s).Frame? {
      PeakOfFrame(s);
    }
    PeakExtends(s, t);
  }

  lemma PeakOfFrame(s: bytes)
    requires Parse(s).Frame?
    ensures Peak(s) == Parse(s).n - 1
  {
    hide Parse;
    FrameBounds(s);
    ShorterIsAgain(s, Parse(s).n - 1);
    FrameIsLocal(s);
    PeakIs(s, Parse(s).n - 1);
  }

  lemma PeakExtends(s: bytes, t: bytes)
    requires Peak(s) < |s|
    ensures Peak(s + t) == Peak(s)
  {
    hide Parse;
    var r := Peak(s);
    assert (s + t)[..r] == s[..r] && (s + t)[..r + 1] == s[..r + 1];
    PeakIs(s + t, r);
  }

  /** full: the message at the front of d.rest does not fit a buffer that can grow to `cap` and no further. */
  datatype Loaded = Loaded(d: Drained, cap: nat, full: bool)

  /** The buffer fills up with the message at the front. */
  predicate Overfull(h: Sess, cap: nat, s: bytes, alloc: nat -> bool)
    requires cap > 0
  {
    Peak(s) + 1 >= B.Ceiling(cap, Limit(h), alloc)
  }

  /**
   * The reference reading of a stream through a buffer of `cap` bytes that doubles when an incomplete message fills
   * it, one byte being kept free, up to the limit in force or as far as allocations succeed.
   */
  function Load(h: Sess, cap: nat, s: bytes, alloc: nat -> bool, strtod: bytes -> bool): (r: Loaded)
    requires cap > 0
    ensures r.cap >= cap
    decreases |s|
  {
    var top := B.Ceiling(cap, Limit(h), alloc);
    if Overfull(h, cap, s, alloc) then Loaded(Drained(h, s, Waiting), top, true)
    else
      var c := B.Doubled(cap, Peak(s) + 2);
      match Parse(s)
      case Again => Loaded(Drained(h, s, Waiting), c, false)
      case Bad(f) => Loaded(Drained(h, s, Faulty(f)), c, false)
      case Frame(n, _) =>
        FrameBounds(s);
        var (h1, ok) := Handle(h, FrameContent(s), strtod);
        if ok then Load(h1, c, s[n..], alloc, strtod) else Loaded(Drained(h1, s, Rejected), c, false)
  }

  /** Unless it fills up, the buffer makes no difference. */
  lemma {:induction false} LoadIsDrain(h: Sess, cap: nat, s: bytes, alloc: nat -> bool, strtod: bytes -> bool)
    requires cap > 0
    ensures var r := Load(h, cap, s, alloc, strtod); !r.full ==> r.d == Drain(h, s, strtod)
    decreases |s|
  {
    hide FrameContent, Handle, Peak, Limit, Parse;
    if Parse(s).Frame? {
      FrameBounds(s);
      var h1 := Handle(h, FrameContent(s), strtod).0;
      LoadIsDrain(h1, B.Doubled(cap, Peak(s) + 2), s[Parse(s).n..], alloc, strtod);
    }
  }

  lemma {:induction false} FullWaits(h: Sess, cap: nat, s: bytes, alloc: nat -> bool, strtod: bytes -> bool)
    requires cap > 0
    ensures var r := Load(h, cap, s, alloc, strtod); r.full ==> r.d.stop == Waiting
    decreases |s|
  {
    hide FrameContent, Handle, Peak, Limit, Parse, Overfull;
    if Parse(s).Frame? {
      FrameBounds(s);
      var h1 := Handle(h, FrameContent(s), strtod).0;
      FullWaits(h1, B.Doubled(cap, Peak(s) + 2), s[Parse(s).n..], alloc, strtod);
    }
  }

  /** Among capacities the limit is what the code compares with: 256 MB, or a positive maximum payload of the server. */
  lemma LimitIff(h: Sess, cap: nat)
    requires CapInv(cap)
    ensures cap >= Limit(h) <==> cap >= 0x1000_0000 || 0 < h.server.maxPayload <= cap
    ensures 4096 <= cap <= 0x1000_0000
  {
    CapAtMost(cap);
  }

  /** c is reached from cap by doubling, and growth stops there: for size, or because memory runs out. */
  ghost predicate StopsAt(h: Sess, cap: nat, c: nat, alloc: nat -> bool)
    requires cap > 0
  {
    Doubling(cap, c) && (c >= 0x1000_0000 || 0 < h.server.maxPayload <= c || !alloc(2 * c))
  }

  /** The ceiling is the first doubling at which growth stops. */
  lemma {:induction false} CeilingIs(h: Sess, cap: nat, alloc: nat -> bool)
    requires CapInv(cap)
    ensures cap > 0 && StopsAt(h, cap, B.Ceiling(cap, Limit(h), alloc), alloc)
    ensures forall c: nat :: c < B.Ceiling(cap, Limit(h), alloc) ==> !StopsAt(h, cap, c, alloc)
    decreases Limit(h) - cap
  {
    LimitIff(h, cap);
    hide Limit;
    if cap < Limit(h) && alloc(2 * cap) {
      DoubledCap(cap, cap + 1);
      CeilingIs(h, 2 * cap, alloc);
      var top := B.Ceiling(2 * cap, Limit(h), alloc);
      DoublingOn(cap, top);
      forall c: nat | c < top
        ensures !StopsAt(h, cap, c, alloc)
      {
        if c != cap {
          DoublingOn(cap, c);
          assert !StopsAt(h, 2 * cap, c, alloc);
        }
      }
    } else {
      forall c: nat | c < cap
        ensures !StopsAt(h, cap, c, alloc)
      {
        if Doubling(cap, c) {
          DoublingAtLeast(cap, c);
        }
      }
    }
  }

  /**
   * Exactly when the message at the front fills the buffer up: some capacity reached by doubling is at a limit, or
   * cannot be doubled for lack of memory, and the message is still incomplete with all but one of its bytes used.
   */
  lemma OverfullIff(h: Sess, cap: nat, s: bytes, alloc: nat -> bool)
    requires CapInv(cap)
    ensures cap > 0
    ensures Overfull(h, cap, s, alloc) <==> exists c :: StopsAt(h, cap, c, alloc) && Peak(s) + 1 >= c
  {
    CeilingIs(h, cap, alloc);
    hide Peak, Limit, StopsAt;
    var top := B.Ceiling(cap, Limit(h), alloc);
    if Overfull(h, cap, s, alloc) {
      assert StopsAt(h, cap, top, alloc) && Peak(s) + 1 >= top;
    }
  }

  /** n bytes are fewer than the server's positive maximum payload and than 256 MB. */
  predicate Below(h: Sess, n: nat) {
    n < 0x1000_0000 && (h.server.maxPayload > 0 ==> n < h.server.maxPayload)
  }

  lemma BelowLimit(h: Sess, n: nat)
    requires Below(h, n)
    ensures n < Limit(h)
  {
  }

  /** Every message is below the limits in force when it comes. */
  ghost predicate AllBelow(h: Sess, cs: seq<Content>, strtod: bytes -> bool)
    decreases |cs|
  {
    cs == [] ||
    (Below(h, |Print(cs[0])|) && var (h1, ok) := Handle(h, cs[0], strtod); ok ==> AllBelow(h1, cs[1..], strtod))
  }

  /**
   * A server that keeps each message shorter than its own positive maximum payload and than 256 MB is never cut off:
   * all its messages are handled, whatever capacity the buffer starts with.
   */
  lemma {:induction false} BelowIsShort(h: Sess, cs: seq<Content>, strtod: bytes -> bool)
    requires AllBelow(h, cs, strtod)
    ensures AllShort(h, cs, strtod)
    decreases |cs|
  {
    hide Print, Handle, Limit;
    if cs != [] {
      BelowLimit(h, |Print(cs[0])|);
      if Handle(h, cs[0], strtod).1 {
        BelowIsShort(Handle(h, cs[0], strtod).0, cs[1..], strtod);
      }
    }
  }

  lemma BelowIsHandled(h: Sess, cap: nat, cs: seq<Content>, alloc: nat -> bool, strtod: bytes -> bool)
    requires cap > 0 && (forall c :: c in cs ==> Printable(c)) && AllBelow(h, cs, strtod) && forall n :: alloc(n)
    ensures var l := Load(h, cap, PrintAll(cs), alloc, strtod);
            !l.full && l.d.h == HandleAll(h, cs, strtod).0
  {
    hide Printable, Load, Drain, PrintAll, HandleAll;
    BelowIsShort(h, cs, strtod);
    ShortMessagesFit(h, cs, strtod);
    FitsLoads(h, cap, PrintAll(cs), alloc, strtod);
    LoadIsDrain(h, cap, PrintAll(cs), alloc, strtod);
    SentIsHandled(h, cs, strtod);
  }

  /** With memory to be had, a stream that fits the limits never fills the buffer up, whatever its capacity. */
  lemma {:induction false} FitsLoads(h: Sess, cap: nat, s: bytes, alloc: nat -> bool, strtod: bytes -> bool)
    requires cap > 0 && Fits(h, s, strtod) && forall n :: alloc(n)
    ensures !Load(h, cap, s, alloc, strtod).full
    decreases |s|
  {
    hide FrameContent, Handle, Limit, Parse;
    B.CeilingReached(cap, Limit(h), alloc);
    assert Peak(s) + 1 < Limit(h);
    hide Peak;
    if Parse(s).Frame? {
      FrameBounds(s);
      var (h1, ok) := Handle(h, FrameContent(s), strtod);
      if ok {
        FitsLoads(h1, B.Doubled(cap, Peak(s) + 2), s[Parse(s).n..], alloc, strtod);
      }
    }
  }

  /** Two capacities on the way to each other make the same of a stream. */
  lemma LoadFrom(h: Sess, cap: nat, need: nat, s: bytes, alloc: nat -> bool, strtod: bytes -> bool)
    requires cap > 0 && need <= Peak(s) + 2 && need <= B.Ceiling(cap, Limit(h), alloc)
    ensures Load(h, B.Doubled(cap, need), s, alloc, strtod) == Load(h, cap, s, alloc, strtod)
  {
    B.CeilingFrom(cap, need, Limit(h), alloc);
    B.DoubledAgain(cap, need, Peak(s) + 2);
    hide FrameContent, Handle, Peak, Limit, Parse, B.Ceiling, B.Doubled;
  }

  lemma SplitWaiting(h: Sess, cap: nat, s: bytes, t: bytes, alloc: nat -> bool, strtod: bytes -> bool)
    requires cap > 0 && Parse(s).Again?
    ensures var i := Load(h, cap, s, alloc, strtod);
            var j := Load(h, cap, s + t, alloc, strtod);
            if !i.full then i.d.stop.Waiting? && j == Load(i.d.h, i.cap, i.d.rest + t, alloc, strtod)
            else j == Loaded(Drained(i.d.h, i.d.rest + t, i.d.stop), i.cap, i.full)
  {
    hide FrameContent, Handle, Peak, Limit, Parse, B.Ceiling, B.Doubled;
    PeakOfWait(s, t);
    if !Overfull(h, cap, s, alloc) {
      LoadFrom(h, cap, |s| + 2, s + t, alloc, strtod);
    }
  }

  lemma SplitStopped(h: Sess, cap: nat, s: bytes, t: bytes, alloc: nat -> bool, strtod: bytes -> bool)
    requires cap > 0 && !Parse(s).Again?
    requires Overfull(h, cap, s, alloc) || Parse(s).Bad? || !Handle(h, FrameContent(s), strtod).1
    ensures var i := Load(h, cap, s, alloc, strtod);
            && (!i.full ==> !i.d.stop.Waiting?)
            && Load(h, cap, s + t, alloc, strtod) == Loaded(Drained(i.d.h, i.d.rest + t, i.d.stop), i.cap, i.full)
  {
    hide FrameContent, Handle, Peak, Limit, Parse, B.Ceiling, B.Doubled;
    PeakStable(s, t);
    VerdictStable(s, t);
    if Parse(s).Frame? {
      FrameContentStable(s, t);
    }
  }

  lemma SplitFrame(h: Sess, cap: nat, s: bytes, t: bytes, alloc: nat -> bool, strtod: bytes -> bool)
    requires cap > 0 && Parse(s).Frame? && !Overfull(h, cap, s, alloc) && Handle(h, FrameContent(s), strtod).1
    ensures var n, h1, c := Parse(s).n, Handle(h, FrameContent(s), strtod).0, B.Doubled(cap, Peak(s) + 2);
            && 0 < n <= |s|
            && Load(h, cap, s, alloc, strtod) == Load(h1, c, s[n..], alloc, strtod)
            && Load(h, cap, s + t, alloc, strtod) == Load(h1, c, s[n..] + t, alloc, strtod)
  {
    hide FrameContent, Handle, Peak, Limit, Parse, B.Ceiling, B.Doubled;
    FrameBounds(s);
    PeakStable(s, t);
    FrameContentStable(s, t);
    assert (s + t)[Parse(s).n..] == s[Parse(s).n..] + t;
  }

  /**
   * Loading s and then t is loading s + t: a reader that waits goes on with what it has and the capacity it has
   * reached; one that has stopped or filled up has done so for good.
   */
  lemma {:induction false} LoadSplit(h: Sess, cap: nat, s: bytes, t: bytes, alloc: nat -> bool, strtod: bytes -> bool)
    requires cap > 0
    ensures var i := Load(h, cap, s, alloc, strtod);
            var j := Load(h, cap, s + t, alloc, strtod);
            if !i.full && i.d.stop.Waiting? then j == Load(i.d.h, i.cap, i.d.rest + t, alloc, strtod)
            else j == Loaded(Drained(i.d.h, i.d.rest + t, i.d.stop), i.cap, i.full)
    decreases |s|
  {
    hide Load, FrameContent, Handle, Peak, Parse, Overfull, B.Doubled;
    if Parse(s).Again? {
      SplitWaiting(h, cap, s, t, alloc, strtod);
    } else if Overfull(h, cap, s, alloc) || Parse(s).Bad? || !Handle(h, FrameContent(s), strtod).1 {
      SplitStopped(h, cap, s, t, alloc, strtod);
    } else {
      SplitFrame(h, cap, s, t, alloc, strtod);
      LoadSplit(Handle(h, FrameContent(s), strtod).0, B.Doubled(cap, Peak(s) + 2), s[Parse(s).n..], t, alloc, strtod);
    }
  }

  /** The capacity stays within its bounds, and a reader that waits has room for at least one byte more. */
  lemma {:induction false} LoadCap(h: Sess, cap: nat, s: bytes, alloc: nat -> bool, strtod: bytes -> bool)
    requires cap > 0 && CapInv(cap)
    ensures var r := Load(h, cap, s, alloc, strtod);
            && CapInv(r.cap) && 4096 <= r.cap <= 0x1000_0000
            && (!r.full && r.d.stop.Waiting? ==> |r.d.rest| + 1 < r.cap)
    decreases |s|
  {
    hide FrameContent, Handle, Peak, Limit, Parse, B.Ceiling, B.Doubled, CapInv;
    CeilingCap(cap, Limit(h), alloc);
    CapAtMost(B.Ceiling(cap, Limit(h), alloc));
    if Parse(s).Again? {
      PeakOfWait(s, []);
    }
    if !Overfull(h, cap, s, alloc) {
      CapAtMost(B.Ceiling(cap, Limit(h), alloc));
      DoubledCap(cap, Peak(s) + 2);
      CapAtMost(B.Doubled(cap, Peak(s) + 2));
      if Parse(s).Frame? {
        FrameBounds(s);
        LoadCap(Handle(h, FrameContent(s), strtod).0, B.Doubled(cap, Peak(s) + 2), s[Parse(s).n..], alloc, strtod);
      }
    }
  }

  lemma CapAtMost(cap: nat)
    requires CapInv(cap)
    ensures B.INIT_SIZE <= cap <= B.MAX_MESSAGE_SIZE
  {
    DoublingAtLeast(B.INIT_SIZE, cap);
  }

  lemma LoadWaiting(h: Sess, cap: nat, s: bytes, alloc: nat -> bool, strtod: bytes -> bool)
    requires cap > 0 && Parse(s).Again?
    ensures var top := B.Ceiling(cap, Limit(h), alloc);
            Load(h, cap, s, alloc, strtod) ==
            if |s| + 1 >= top then Loaded(Drained(h, s, Waiting), top, true)
            else Loaded(Drained(h, s, Waiting), B.Doubled(cap, |s| + 2), false)
  {
    PeakOfWait(s, []);
    hide Parse, Handle, FrameContent, Peak, Limit;
  }

  /** A waiting reader that can receive makes nothing new of what it holds. */
  lemma LoadOffering(h: Sess, cap: nat, s: bytes, alloc: nat -> bool, strtod: bytes -> bool)
    requires |s| + 1 < cap && Parse(s).Again?
    ensures Load(h, cap, s, alloc, strtod) == Loaded(Drained(h, s, Waiting), cap, false)
  {
    hide Parse, Load, Limit;
    LoadWaiting(h, cap, s, alloc, strtod);
  }

  lemma HandleKeepsBytes(h: Sess, c: Content, strtod: bytes -> bool)
    requires Has(h.state, BYTES_EXCHANGED)
    ensures Has(Handle(h, c, strtod).0.state, BYTES_EXCHANGED)
  {
    hide ReadInfo, TellFrom, Subscriptions.Find, Subscriptions.Account;
  }

  lemma {:induction false} LoadKeepsBytes(h: Sess, cap: nat, s: bytes, alloc: nat -> bool, strtod: bytes -> bool)
    requires cap > 0 && Has(h.state, BYTES_EXCHANGED)
    ensures Has(Load(h, cap, s, alloc, strtod).d.h.state, BYTES_EXCHANGED)
    decreases |s|
  {
    hide Handle, FrameContent, Has, Parse, Limit, Peak;
    if Parse(s).Frame? {
      FrameBounds(s);
      var h1 := Handle(h, FrameContent(s), strtod).0;
      HandleKeepsBytes(h, FrameContent(s), strtod);
      LoadKeepsBytes(h1, B.Doubled(cap, Peak(s) + 2), s[Parse(s).n..], alloc, strtod);
    }
  }

  lemma ExchangedTwice(h: Sess)
    ensures Has(Exchanged(h).state, BYTES_EXCHANGED)
    ensures Has(h.state, BYTES_EXCHANGED) ==> Exchanged(h) == h
  {
    assert (h.state | 1) & 1 == 1;
    assert h.state & 1 != 0 ==> h.state | 1 == h.state;
  }
}
