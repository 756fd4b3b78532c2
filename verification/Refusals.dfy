/** Client calls when the write buffer refuses a message: what is left behind, and when a call is all or nothing. */
module Refusals {
  import opened Bytes
  import opened Session
  import opened SessionInvariant
  import opened Output
  import opened B = Buffer
  import Stream
  import Subscriptions

  /** How many of the messages of a call are taken; it returns at the first that is not. */
  function Taken(o: Out, ms: seq<bytes>): (n: nat)
    requires o.b.Valid()
    ensures n <= |ms|
    decreases |ms|
  {
    if ms == [] || !Takes(o, ms[0]) then 0 else 1 + Taken(Put(o, ms[0]), ms[1..])
  }

  /** The buffer after the call. */
  function LeftBehind(o: Out, ms: seq<bytes>): (r: Out)
    requires o.b.Valid()
    ensures r.b.Valid()
    decreases |ms|
  {
    if ms == [] || !Takes(o, ms[0]) then o else LeftBehind(Put(o, ms[0]), ms[1..])
  }

  /** What was taken stays: the first messages of the call, whole and in order, without the rest. */
  lemma {:induction false} TakenStays(o: Out, ms: seq<bytes>)
    requires o.Conserved()
    ensures var r, n := LeftBehind(o, ms), Taken(o, ms);
            && r.Conserved() && r.sent == o.sent && r.queued == o.queued + Stream.Concat(ms[..n])
            && (n == |ms| <==> Accepts(o, ms))
    decreases |ms|
  {
    hide Takes, Put;
    if ms != [] && Takes(o, ms[0]) {
      PutConserves(o, ms[0]);
      TakenStays(Put(o, ms[0]), ms[1..]);
      var n := Taken(o, ms);
      assert ms[..n][1..] == ms[1..][..n - 1];
    } else {
      assert ms[..0] == [];
    }
  }

  /** A buffer at the size limit takes exactly what fits beside what is waiting. */
  lemma FullTakesIff(o: Out, m: bytes)
    requires o.b.Valid() && o.b.cap >= MAX_MESSAGE_SIZE
    ensures Takes(o, m) <==> |o.b.Live()| + |m| <= o.b.cap
    ensures Takes(o, m) ==> Put(o, m).b.cap == o.b.cap
  {
    if |o.b.Live()| + |m| <= o.b.cap {
      SmallIsTaken(o, m);
    }
  }

  lemma {:induction false} FullAcceptsIff(o: Out, ms: seq<bytes>)
    requires o.Conserved() && o.b.cap >= MAX_MESSAGE_SIZE
    ensures Accepts(o, ms) <==> |o.b.Live()| + |Stream.Concat(ms)| <= o.b.cap
    decreases |ms|
  {
    if ms != [] {
      FullTakesIff(o, ms[0]);
      hide Takes, Put;
      if Takes(o, ms[0]) {
        PutConserves(o, ms[0]);
        var p := Put(o, ms[0]);
        assert |p.sent + p.b.Live()| == |o.sent + o.b.Live()| + |ms[0]|;
        FullAcceptsIff(p, ms[1..]);
      }
    }
  }

  /** At the size limit a call is all or nothing exactly when all of it fits or not even its first message does. */
  lemma AtomicIff(o: Out, ms: seq<bytes>)
    requires o.Conserved() && o.b.cap >= MAX_MESSAGE_SIZE && ms != []
    ensures var live := |o.b.Live()|;
            Taken(o, ms) == |ms| || Taken(o, ms) == 0 <==>
            live + |Stream.Concat(ms)| <= o.b.cap || live + |ms[0]| > o.b.cap
  {
    FullTakesIff(o, ms[0]);
    FullAcceptsIff(o, ms);
    TakenStays(o, ms);
    hide Takes, Put, Accepts;
  }

  /** Away from the size limit nothing is refused: a buffer with nothing sent off its front takes up to 256 MB. */
  lemma {:induction false} BelowLimitTaken(o: Out, ms: seq<bytes>)
    requires o.Conserved() && o.b.pos == 0 && |o.b.Live()| + |Stream.Concat(ms)| <= MAX_MESSAGE_SIZE
    ensures Taken(o, ms) == |ms|
    decreases |ms|
  {
    if ms != [] {
      FrontTakes(o, ms[0]);
      PutConserves(o, ms[0]);
      hide Takes, Put;
      var p := Put(o, ms[0]);
      assert |p.sent + p.b.Live()| == |o.sent + o.b.Live()| + |ms[0]|;
      BelowLimitTaken(p, ms[1..]);
    }
  }

  lemma FrontTakes(o: Out, m: bytes)
    requires o.b.Valid() && o.b.pos == 0 && |o.b.Live()| + |m| <= MAX_MESSAGE_SIZE
    ensures Takes(o, m) && Put(o, m).b.pos == 0
  {
    EnsureKeepsWindow(o.b, |m|, true, Junk(o));
  }

  /** A publish of which only the header is left behind: the buffer has just room for it. */
  lemma HeaderAlone(data: bytes, header: bytes, payload: bytes)
    requires |data| + |header| == MAX_MESSAGE_SIZE && payload != []
    ensures var o, ms := Out(Buf(MAX_MESSAGE_SIZE, 0, data), [], data), [header, payload, CRLF];
            o.Conserved() && Taken(o, ms) == 1 && LeftBehind(o, ms).queued == data + header
  {
    var o := Out(Buf(MAX_MESSAGE_SIZE, 0, data), [], data);
    var ms: seq<bytes> := [header, payload, CRLF];
    assert o.b.Live() == data;
    FullTakesIff(o, header);
    PutConserves(o, header);
    var p := Put(o, header);
    assert |p.sent + p.b.Live()| == MAX_MESSAGE_SIZE;
    FullTakesIff(p, payload);
    assert ms[1..][0] == payload;
    TakenStays(o, ms);
    var one := ms[..1];
    assert one == [header] && one[1..] == [];
    hide Takes, Put;
    assert Stream.Concat(one) == header + [];
  }

  // Subscribing

  /** A subscribe of which the first `taken` commands are taken: the table is changed before anything is queued. */
  function SubscribeWith(h: Sess, client: nat, handler: nat, subject: bytes, max: int, taken: nat): (Sess, bool) {
    var (r, reply) := SubscribeCall(h, client, handler, subject, max);
    if !reply.Sid? || |h.queued| + taken >= |r.queued| then (r, reply.Sid?)
    else (r.(queued := r.queued[..|h.queued| + taken]), false)
  }

  /**
   * A subscription is live exactly when the call came to the table, whether or not the call reports success; the two
   * agree exactly when every command was taken.
   */
  lemma SubscribedIff(h: Sess, client: nat, handler: nat, subject: bytes, max: int, taken: nat)
    requires Inv(h) && h.IsReady()
    ensures var (r, ok) := SubscribeWith(h, client, handler, subject, max, taken);
            && h.nextId + 1 in Subscriptions.Table(r.subs)
            && (ok <==> taken >= if max > 0 then 2 else 1)
            && (taken == 0 ==> r.queued == h.queued)
  {
    SubscribeKeeps(h, client, handler, subject, max);
    hide Inv, Subscriptions.Table, Subscriptions.Add, Cut, SubLine, UnsubLine;
  }
}
