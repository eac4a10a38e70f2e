/**
 An anonymous pipe: a ring buffer with a count of open descriptors for each end. The
 ring is a queue of bytes; the counts decide end of file and broken pipe.
 */
module Pipes {
  import opened Wrappers

  const CAPACITY := 65536

  datatype Outcome = Done(n: nat) | Again | Broken

  /** The position `j` places after `pos` in the ring. */
  function Wrap(pos: nat, j: nat): (w: nat)
    ensures w < CAPACITY
  {
    (pos + j) % CAPACITY
  }

  lemma WrapZero(pos: nat)
    requires pos < CAPACITY
    ensures Wrap(pos, 0) == pos
  {
  }

  lemma WrapAdd(pos: nat, i: nat, j: nat)
    ensures Wrap(Wrap(pos, i), j) == Wrap(pos, i + j)
  {
  }

  lemma WrapDistinct(pos: nat, i: nat, j: nat)
    requires i < j < i + CAPACITY
    ensures Wrap(pos, i) != Wrap(pos, j)
  {
  }

  class PipeBuf {
    const buf: array<byte>
    var readPos: nat
    var writePos: nat
    var len: nat
    var writeClosed: bool
    var readClosed: bool
    var readers: nat
    var writers: nat
    ghost var queue: seq<byte>    // bytes written and not yet read
    ghost var written: seq<byte>  // all bytes ever accepted
    ghost var taken: seq<byte>    // all bytes ever read

    /** The ring holds `queue` from `readPos` on; nothing is lost, reordered or duplicated. */
    ghost predicate Ring()
      reads this, buf
    {
      && buf.Length == CAPACITY && readPos < CAPACITY && len <= CAPACITY
      && writePos == Wrap(readPos, len)
      && |queue| == len && (forall i: nat :: i < len ==> queue[i] == buf[Wrap(readPos, i)])
      && taken + queue == written
    }

    ghost predicate Valid()
      reads this, buf
    {
      && Ring()
      && (readClosed <==> readers == 0)
      && (writeClosed <==> writers == 0)
    }

    constructor ()
      ensures Valid() && fresh(buf) && readers == 1 && writers == 1 && queue == written == taken == []
    {
      buf := new byte[CAPACITY](_ => 0);
      readPos, writePos, len := 0, 0, 0;
      writeClosed, readClosed, readers, writers := false, false, 1, 1;
      queue, written, taken := [], [], [];
    }

    /** Move up to `dst.Length` bytes out; zero bytes mean that the write end is closed and all is read. */
    method TryRead(dst: array<byte>) returns (r: Outcome)
      requires Ring() && dst != buf
      modifies this`readPos, this`len, this`queue, this`taken, dst
      ensures Ring() && written == old(written) && taken + queue == written
      ensures old(queue) == [] ==>
        r == (if writeClosed then Done(0) else Again) && queue == [] && dst[..] == old(dst[..])
      ensures old(queue) != [] ==> r == Done(Min(dst.Length, |old(queue)|))
      ensures r.Done? ==>
        r.n <= dst.Length && r.n <= |old(queue)| && dst[..r.n] == old(queue)[..r.n] && dst[r.n..] == old(dst[..])[r.n..]
      ensures r.Done? ==> queue == old(queue)[r.n..] && taken == old(taken) + dst[..r.n]
      ensures !r.Done? ==> taken == old(taken)
    {
      hide Wrap;
      if len == 0 {
        assert queue[0..] == queue && dst[..0] == [] && taken + [] == taken;
        return if writeClosed then Done(0) else Again;
      }
      var n := Min(dst.Length, len);
      ghost var pos, q := readPos, queue;
      CopyOut(dst, n);
      ReadAdvances(pos, n);
      len := len - n;
      queue := queue[n..];
      taken := taken + dst[..n];
      assert q == q[..n] + queue;
      r := Done(n);
    }

    /** Copy the next `n` bytes out of the ring, one at a time. */
    method CopyOut(dst: array<byte>, n: nat)
      requires Ring() && dst != buf && n <= len && n <= dst.Length
      modifies this`readPos, dst
      ensures readPos == Wrap(old(readPos), n)
      ensures dst[..n] == queue[..n] && dst[n..] == old(dst[..])[n..]
    {
      hide Wrap;
      ghost var pos := readPos;
      WrapZero(pos);
      for i := 0 to n
        invariant readPos == Wrap(pos, i)
        invariant forall j :: 0 <= j < i ==> dst[j] == queue[j]
        invariant forall j :: i <= j < dst.Length ==> dst[j] == old(dst[j])
      {
        WrapAdd(pos, i, 1);
        assert queue[i] == buf[Wrap(pos, i)];
        dst[i] := buf[readPos];
        readPos := Wrap(readPos, 1);
      }
    }

    /** Seen from `n` places on, the ring holds the rest of the queue. */
    lemma ReadAdvances(pos: nat, n: nat)
      requires n <= len == |queue| && readPos == Wrap(pos, n) && buf.Length == CAPACITY && writePos == Wrap(pos, len)
      requires forall i: nat :: i < len ==> queue[i] == buf[Wrap(pos, i)]
      ensures writePos == Wrap(readPos, len - n)
      ensures forall i: nat :: i < len - n ==> queue[n..][i] == buf[Wrap(readPos, i)]
    {
      WrapAdd(pos, n, len - n);
      forall i: nat | i < len - n ensures queue[n..][i] == buf[Wrap(readPos, i)] { WrapAdd(pos, n, i); }
    }

    /** Accept as many bytes of `data` as there is room for. */
    method TryWrite(data: seq<byte>) returns (r: Outcome)
      requires Ring()
      modifies this`writePos, this`len, this`queue, this`written, buf
      ensures Ring() && taken == old(taken)
      ensures r.Broken? <==> readClosed
      ensures r.Again? <==> !readClosed && |old(queue)| == CAPACITY
      ensures r.Done? ==> r.n == Min(|data|, CAPACITY - |old(queue)|)
      ensures r.Done? ==> queue == old(queue) + data[..r.n] && written == old(written) + data[..r.n]
      ensures !r.Done? ==> queue == old(queue) && written == old(written)
    {
      hide Wrap;
      if readClosed { return Broken; }
      var space := CAPACITY - len;
      if space == 0 { return Again; }
      var n := Min(|data|, space);
      ghost var all := queue + data[..n];
      for i := 0 to n
        invariant writePos == Wrap(readPos, len + i)
        invariant len == old(len) && queue == old(queue) && written == old(written)
        invariant forall j: nat :: j < len + i ==> all[j] == buf[Wrap(readPos, j)]
      {
        WrapAdd(readPos, len + i, 1);
        forall j: nat | j < len + i ensures Wrap(readPos, j) != writePos { WrapDistinct(readPos, j, len + i); }
        assert all[len + i] == data[i];
        buf[writePos] := data[i];
        writePos := Wrap(writePos, 1);
      }
      len := len + n;
      queue := all;
      written := written + data[..n];
      r := Done(n);
    }

    method CloseWrite()
      requires Valid() && writers > 0
      modifies this`writers, this`writeClosed
      ensures Valid() && writers == old(writers) - 1
    {
      if writers > 0 { writers := writers - 1; }
      if writers == 0 { writeClosed := true; }
    }

    method CloseRead()
      requires Valid() && readers > 0
      modifies this`readers, this`readClosed
      ensures Valid() && readers == old(readers) - 1
    {
      if readers > 0 { readers := readers - 1; }
      if readers == 0 { readClosed := true; }
    }

    /** One more descriptor for the write end, which must still be open. */
    method DupWrite()
      requires Valid() && !writeClosed
      modifies this`writers
      ensures Valid() && writers == old(writers) + 1
    {
      writers := writers + 1;
    }

    method DupRead()
      requires Valid() && !readClosed
      modifies this`readers
      ensures Valid() && readers == old(readers) + 1
    {
      readers := readers + 1;
    }
  }
}
