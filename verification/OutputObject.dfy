/** The write side as it runs: commands copied into the buffer message by message, sends taking bytes off its front. */
module OutputObject {
  import opened Bytes
  import opened Session
  import opened Link
  import opened LinkTheorems
  import opened BufferObject
  import opened Output
  import opened B = Buffer

  class Writer {
    const wbuf: NatsBuf
    ghost var sent: bytes
    ghost var queued: bytes

    ghost predicate Valid()
      reads this, wbuf
    {
      wbuf.Valid()
    }

    ghost function Val(): (o: Out)
      requires Valid()
      reads this, wbuf, wbuf.buf
      ensures o.b.Valid()
    {
      Out(wbuf.Val(), sent, queued)
    }

    constructor ()
      ensures Valid() && Val() == NO_OUTPUT && fresh(wbuf) && fresh(wbuf.buf)
    {
      wbuf := new NatsBuf(INIT_SIZE);
      sent, queued := [], [];
    }

    /** One message, which the buffer takes. */
    method Enqueue(m: bytes)
      requires Valid() && Takes(Val(), m)
      modifies this, wbuf, wbuf.buf
      ensures Valid() && (wbuf.buf == old(wbuf.buf) || fresh(wbuf.buf))
      ensures Val() == Put(old(Val()), m)
    {
      ghost var o := Val();
      if m == [] {
        assert o.queued + m == o.queued;
        return;
      }
      var ok; ghost var junk;
      hide B.Ensure;
      assert Sized(m, |m|) == m;
      ok, junk := wbuf.AddMessage(m, |m|, true);
      queued := queued + m;
      JunkDoesNotMatter(o, m, junk);
      Untouched(o, m, junk);
    }

    method EnqueueAll(ms: seq<bytes>)
      requires Valid() && Accepts(Val(), ms)
      modifies this, wbuf, wbuf.buf
      ensures Valid() && (wbuf.buf == old(wbuf.buf) || fresh(wbuf.buf))
      ensures Val() == PutAll(old(Val()), ms)
    {
      hide Takes, Put;
      var i := 0;
      assert ms[0..] == ms;
      while i < |ms|
        invariant 0 <= i <= |ms| && Valid() && (wbuf.buf == old(wbuf.buf) || fresh(wbuf.buf))
        invariant Accepts(Val(), ms[i..]) && PutAll(Val(), ms[i..]) == PutAll(old(Val()), ms)
      {
        assert ms[i..][0] == ms[i] && ms[i..][1..] == ms[i + 1..];
        Enqueue(ms[i]);
        i := i + 1;
      }
    }

    /** One send: nothing to do on an empty buffer; k bytes go out when the socket takes some of them. */
    method SendOnce(s: Send, k: nat)
      requires Valid() && Coherent(s, k, |Val().b.Live()|)
      modifies this, wbuf
      ensures Valid() && wbuf.buf == old(wbuf.buf)
      ensures Val() == WriteStep(old(Val()), B.Send(Amount(s, k, |old(Val()).b.Live()|)))
    {
      ghost var live := Val().b.Live();
      var waiting := wbuf.end - wbuf.pos;
      var n := Amount(s, k, waiting);
      wbuf.Took(n);
      sent := sent + live[..n];
    }

    /** The connection is gone: the buffer is emptied and keeps its capacity. */
    method Forget()
      requires Valid()
      modifies this, wbuf
      ensures Valid() && wbuf.buf == old(wbuf.buf)
      ensures Val() == Out(Buf(old(Val()).b.cap, 0, []), [], [])
    {
      wbuf.Reset();
      sent, queued := [], [];
    }

    /**
     * What an event does to the buffer: goes on with it on the same connection, starts afresh otherwise; copies in
     * the new commands; sends.
     */
    method Follow(ghost nd: Nd, ghost r: Nd, m: Move, same: bool, open: bool, cs: seq<Command>, s: Send, g: Login)
      requires Valid() && m.grown == 0 && Smooth(nd, r, Val(), m, g)
      requires same == SameConnection(nd, r) && open == r.open
      requires open ==> cs == NewCommands(nd, r) && r.curr >= 0 && s == SendOf(nd, m.a, r)
      modifies this, wbuf, wbuf.buf
      ensures Valid() && (wbuf.buf == old(wbuf.buf) || fresh(wbuf.buf))
      ensures Val() == After(nd, r, old(Val()), m, g)
    {
      hide Accepts, PutAll, WriteStep;
      ghost var out := Val();
      if !same {
        Forget();
      }
      assert Val() == Base(nd, r, out, m);
      if open {
        EnqueueAll(AllMessages(cs, g));
        SendOnce(s, m.k);
      }
    }
  }

  lemma Untouched(o: Out, m: bytes, junk: bytes)
    requires o.b.Valid() && Takes(o, m) && |junk| >= o.b.pos && m != []
    ensures AddMessage(o.b, m, true, junk).Added? && WriteStep(o, Queue(m, true, junk)).sent == o.sent
    ensures WriteStep(o, Queue(m, true, junk)) == Out(AddMessage(o.b, m, true, junk).b, o.sent, o.queued + m)
  {
    EnsureKeepsWindow(o.b, |m|, true, junk);
    EnsureKeepsWindow(o.b, |m|, true, Junk(o));
    assert junk[..0] == Junk(o)[..0];
  }
}
