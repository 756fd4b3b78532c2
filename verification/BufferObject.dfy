/** The buffer as the C code keeps it: an allocation and two offsets, updated in place. */
module BufferObject {
  import opened Bytes
  import B = Buffer

  class NatsBuf {
    var buf: array<byte>
    var pos: nat
    var end: nat

    ghost predicate Valid()
      reads this
    {
      0 < buf.Length && pos <= end <= buf.Length
    }

    ghost function Val(): (b: B.Buf)
      requires Valid()
      reads this, buf
      ensures b.Valid()
    {
      B.Buf(buf.Length, pos, buf[..end])
    }

    constructor (size: nat)
      requires size > 0
      ensures Valid() && fresh(buf) && Val() == B.Buf(size, 0, [])
    {
      buf := new byte[size];
      pos, end := 0, 0;
    }

    method Reset()
      requires Valid()
      modifies this`pos, this`end
      ensures Valid() && Val() == B.Reset(old(Val()))
    {
      pos, end := 0, 0;
    }

    /** The memmove of the window to offset 0. */
    method MoveDown()
      requires Valid()
      modifies this`pos, this`end, buf
      ensures Valid() && Val() == B.Compact(old(Val()))
    {
      var n := end - pos;
      forall i | 0 <= i < n {
        buf[i] := buf[pos + i];
      }
      pos, end := 0, n;
    }

    method Compact()
      requires Valid()
      modifies this`pos, this`end, buf
      ensures Valid() && Val() == B.Compact(old(Val()))
    {
      if pos == end {
        pos, end := 0, 0;
        return;
      }
      if pos > 0 {
        MoveDown();
      }
    }

    /** Rewinding an empty window, and compacting when that alone makes the room. */
    method Settle(size: nat, compact: bool)
      requires Valid()
      modifies this`pos, this`end, buf
      ensures Valid() && Val() == B.Settled(old(Val()), size, compact)
    {
      if pos == end && pos != 0 {
        pos, end := 0, 0;
      }
      var tail := buf.Length - end;
      if tail >= size {
        return;
      }
      if compact && pos > 0 && size <= tail + pos {
        MoveDown();
      }
    }

    /** junk is what the new allocation held in the bytes below end that are not overwritten. */
    method Ensure(size: nat, compact: bool, alloc: bool) returns (ok: bool, ghost junk: bytes)
      requires Valid()
      modifies this, buf
      ensures Valid() && (buf == old(buf) || fresh(buf))
      ensures |junk| >= old(pos)
      ensures var r := B.Ensure(old(Val()), size, compact, alloc, junk); Val() == r.b && ok == r.Ready?
    {
      junk := seq(pos, _ => NUL);
      Settle(size, compact);
      hide B.Settled, B.Grow;
      if buf.Length - end >= size {
        return true, junk;
      }
      if buf.Length >= B.MAX_MESSAGE_SIZE || !alloc {
        return false, junk;
      }
      ghost var more := Realloc(size);
      junk := more + junk;
      assert junk[..pos] == more;
      return true, junk;
    }

    method Realloc(size: nat) returns (ghost junk: bytes)
      requires Valid()
      modifies this`buf
      ensures Valid() && fresh(buf) && |junk| == pos
      ensures Val() == B.Grow(old(Val()), B.Doubled(2 * old(buf.Length), |old(Val()).Live()| + size), junk)
    {
      var n := end - pos;
      var nt := n + size;
      var ns := buf.Length * 2;
      while ns < nt
        invariant ns >= buf.Length * 2
        invariant B.Doubled(ns, nt) == B.Doubled(2 * buf.Length, nt)
      {
        ns := ns * 2;
      }
      var bnew := new byte[ns];
      forall i | 0 <= i < n {
        bnew[i] := buf[pos + i];
      }
      junk := bnew[n..end];
      ghost var live := Val().Live();
      assert bnew[..n] == live;
      assert bnew[..end] == bnew[..n] + bnew[n..end];
      buf := bnew;
    }

    static method StringLength(message: bytes) returns (len: nat)
      requires NUL in message
      ensures len == Scan(message, 0, IsNul) < |message|
    {
      len := 0;
      while message[len] != NUL
        invariant len < |message| && NUL in message[len..]
        invariant Scan(message, len, IsNul) == Scan(message, 0, IsNul)
        decreases |message| - len
      {
        len := len + 1;
      }
    }

    /** The memcpy behind end. */
    method Append(m: bytes)
      requires Valid() && end + |m| <= buf.Length
      modifies this`end, buf
      ensures Valid() && Val() == B.Buf(old(Val()).cap, old(Val()).pos, old(Val()).data + m)
    {
      forall i | 0 <= i < |m| {
        buf[end + i] := m[i];
      }
      end := end + |m|;
    }

    /** Queues a message; a size of 0 means a C string. */
    method AddMessage(message: bytes, size: nat, alloc: bool) returns (ok: bool, ghost junk: bytes)
      requires Valid() && size <= |message|
      requires size == 0 ==> NUL in message
      requires alloc ==> !B.Overruns(Val(), |B.Sized(message, size)|)
      modifies this, buf
      ensures Valid() && (buf == old(buf) || fresh(buf))
      ensures |junk| >= old(pos)
      ensures var r := B.AddMessage(old(Val()), B.Sized(message, size), alloc, junk);
              !r.Overrun? && Val() == r.b && ok == r.Added?
    {
      hide B.Ensure;
      junk := seq(pos, _ => NUL);
      var len := size;
      if len == 0 {
        len := StringLength(message);
        if len == 0 {
          return true, junk;
        }
      }
      ok, junk := Ensure(len, true, alloc);
      B.OverrunIff(old(Val()), message[..len], alloc, junk);
      if ok {
        Append(message[..len]);
      }
    }

    /** The bookkeeping after the socket took k bytes. */
    method Took(k: nat)
      requires Valid() && k <= end - pos
      modifies this`pos, this`end
      ensures Valid() && Val() == B.Sent(old(Val()), k)
    {
      pos := pos + k;
      if pos == end {
        pos, end := 0, 0;
      }
    }
  }
}
