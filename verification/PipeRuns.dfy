/**
 Whole runs of a pipe. The ring with its positions and counts answers every call as a plain
 queue of bytes would; over any run the bytes read, followed by those still buffered, are
 the bytes accepted.
 */
module PipeRuns {
  import opened Wrappers
  import opened Pipes

  datatype Call = Read(n: nat) | Write(data: seq<byte>) | CloseRead | CloseWrite

  datatype Reply = Got(bytes: seq<byte>) | Accepted(n: nat) | TryAgain | BrokenPipe | Closed

  /** A queue of at most `CAPACITY` bytes whose ends can be closed. */
  datatype Fifo = Fifo(queue: seq<byte>, readOpen: bool, writeOpen: bool)

  const EMPTY := Fifo([], true, true)

  function FifoReply(f: Fifo, call: Call): Reply {
    match call
    case Read(n) =>
      if f.queue == [] then (if f.writeOpen then TryAgain else Got([]))
      else Got(f.queue[..Min(n, |f.queue|)])
    case Write(data) =>
      if !f.readOpen then BrokenPipe
      else if |f.queue| >= CAPACITY then TryAgain
      else Accepted(Min(|data|, CAPACITY - |f.queue|))
    case CloseRead => Closed
    case CloseWrite => Closed
  }

  function FifoNext(f: Fifo, call: Call): Fifo {
    match call
    case Read(n) => f.(queue := f.queue[Min(n, |f.queue|)..])
    case Write(data) =>
      if f.readOpen && |f.queue| < CAPACITY then f.(queue := f.queue + data[..Min(|data|, CAPACITY - |f.queue|)]) else f
    case CloseRead => f.(readOpen := false)
    case CloseWrite => f.(writeOpen := false)
  }

  function FifoAfter(calls: seq<Call>): Fifo {
    if calls == [] then EMPTY else FifoNext(FifoAfter(calls[..|calls| - 1]), calls[|calls| - 1])
  }

  function FifoReplies(calls: seq<Call>): (replies: seq<Reply>)
    ensures |replies| == |calls|
  {
    if calls == [] then []
    else FifoReplies(calls[..|calls| - 1]) + [FifoReply(FifoAfter(calls[..|calls| - 1]), calls[|calls| - 1])]
  }

  /** All bytes that reads returned, in order. */
  function Delivered(replies: seq<Reply>): seq<byte> {
    if replies == [] then []
    else
      var last := replies[|replies| - 1];
      Delivered(replies[..|replies| - 1]) + if last.Got? then last.bytes else []
  }

  /** All bytes that writes accepted, in order. */
  function Taken(calls: seq<Call>, replies: seq<Reply>): seq<byte>
    requires |calls| == |replies|
  {
    if calls == [] then []
    else
      var n := |calls| - 1;
      var call, reply := calls[n], replies[n];
      Taken(calls[..n], replies[..n])
      + if call.Write? && reply.Accepted? && reply.n <= |call.data| then call.data[..reply.n] else []
  }

  lemma StepConserves(f: Fifo, call: Call)
    requires |f.queue| <= CAPACITY
    ensures var reply := FifoReply(f, call);
      && |FifoNext(f, call).queue| <= CAPACITY
      && (if reply.Got? then reply.bytes else []) + FifoNext(f, call).queue ==
           f.queue + if call.Write? && reply.Accepted? && reply.n <= |call.data| then call.data[..reply.n] else []
  {
  }

  /** Nothing is lost, duplicated or reordered over any run. */
  lemma {:induction false} FifoConserves(calls: seq<Call>)
    ensures Delivered(FifoReplies(calls)) + FifoAfter(calls).queue == Taken(calls, FifoReplies(calls))
    ensures |FifoAfter(calls).queue| <= CAPACITY
  {
    if calls == [] {
    } else {
      var n := |calls| - 1;
      FifoConserves(calls[..n]);
      StepConserves(FifoAfter(calls[..n]), calls[n]);
      var replies := FifoReplies(calls);
      assert replies[..n] == FifoReplies(calls[..n]);
      ConcatStep(Delivered(replies[..n]), FifoAfter(calls[..n]).queue, Taken(calls[..n], replies[..n]),
                 if replies[n].Got? then replies[n].bytes else [], FifoAfter(calls).queue,
                 if calls[n].Write? && replies[n].Accepted? && replies[n].n <= |calls[n].data|
                 then calls[n].data[..replies[n].n] else []);
    }
  }

  lemma ConcatStep(d: seq<byte>, q: seq<byte>, t: seq<byte>, got: seq<byte>, after: seq<byte>, more: seq<byte>)
    requires d + q == t && got + after == q + more
    ensures (d + got) + after == t + more
  {
    assert (d + got) + after == d + (got + after);
    assert d + (q + more) == (d + q) + more;
  }

  /** The pipe holds what the queue holds, and its ends are open alike. */
  ghost predicate Matches(pipe: PipeBuf, f: Fifo)
    reads pipe
  {
    pipe.queue == f.queue && pipe.readClosed == !f.readOpen && pipe.writeClosed == !f.writeOpen
  }

  method Serve(pipe: PipeBuf, call: Call, ghost f: Fifo) returns (reply: Reply)
    requires pipe.Valid() && Matches(pipe, f)
    modifies pipe, pipe.buf
    ensures pipe.Valid() && Matches(pipe, FifoNext(f, call)) && reply == FifoReply(f, call)
  {
    hide Wrap;
    match call {
      case Read(n) =>
        var dst := new byte[n](_ => 0);
        var r := pipe.TryRead(dst);
        reply := if r.Done? then Got(dst[..r.n]) else TryAgain;
      case Write(data) =>
        var r := pipe.TryWrite(data);
        reply := match r case Done(n) => Accepted(n) case Again => TryAgain case Broken => BrokenPipe;
      case CloseRead =>
        while pipe.readers > 0
          invariant pipe.Valid() && Matches(pipe, f.(readOpen := pipe.readers > 0))
        {
          pipe.CloseRead();
        }
        reply := Closed;
      case CloseWrite =>
        while pipe.writers > 0
          invariant pipe.Valid() && Matches(pipe, f.(writeOpen := pipe.writers > 0))
        {
          pipe.CloseWrite();
        }
        reply := Closed;
    }
  }

  /** Any run on a new pipe gets the queue's replies. */
  method Replay(calls: seq<Call>) returns (replies: seq<Reply>, pipe: PipeBuf)
    ensures replies == FifoReplies(calls) && pipe.Valid() && Matches(pipe, FifoAfter(calls))
    ensures |replies| == |calls| && Delivered(replies) + pipe.queue == Taken(calls, replies)
  {
    hide Wrap, FifoReply, FifoNext, Delivered, Taken;
    pipe := new PipeBuf();
    replies := [];
    for i := 0 to |calls|
      invariant pipe.Valid() && fresh(pipe) && fresh(pipe.buf)
      invariant replies == FifoReplies(calls[..i]) && Matches(pipe, FifoAfter(calls[..i]))
    {
      var reply := Serve(pipe, calls[i], FifoAfter(calls[..i]));
      assert calls[..i + 1][..i] == calls[..i];
      replies := replies + [reply];
    }
    assert calls[..|calls|] == calls;
    FifoConserves(calls);
  }
}
