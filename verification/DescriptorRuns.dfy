/**
 Whole runs of descriptor calls by all processes. The kernel keeps two counts and two flags
 for every pipe; it answers as a system without them would, in which an end of a pipe is
 open while some slot of some table holds it. In that system bytes come out of a pipe once
 and in the order they went in, whichever processes write and read, and an end of which the
 last descriptor is closed stays closed.
 */
module DescriptorRuns {
  import opened Wrappers
  import opened Pipes
  import opened Descriptors
  import PipeRuns

  datatype Call =
    | Open(p: nat, id: nat)
    | Dup(p: nat, fd: nat)
    | Dup2(p: nat, fd: nat, to: nat)
    | Close(p: nat, fd: nat)
    | MakePipe(p: nat)
    | Fork(p: nat, child: nat)
    | Read(p: nat, fd: nat, n: nat)
    | Write(p: nat, fd: nat, data: seq<byte>)

  datatype Answer = Slot(n: nat) | Ends(r: nat, w: nat) | Success | BadFd | NoProcess | FromPipe(reply: PipeRuns.Reply)

  /** The tables, and what is in each pipe. */
  datatype System = System(procs: map<nat, Proc>, queues: map<PipeBuf, seq<byte>>)

  /** The ends of a pipe are open while a slot holds them. */
  ghost function FifoOf(a: System, pipe: PipeBuf): PipeRuns.Fifo
    requires pipe in a.queues
  {
    PipeRuns.Fifo(a.queues[pipe], Slots(a.procs, ReadEnd(pipe)) != {}, Slots(a.procs, WriteEnd(pipe)) != {})
  }

  /** The caller exists, and a new process is new. */
  predicate Legal(procs: map<nat, Proc>, call: Call) {
    call.p in procs && (call.Fork? ==> call.child !in procs)
  }

  /** The search for a free slot does not end. */
  ghost predicate Spins(procs: map<nat, Proc>, call: Call) {
    && Legal(procs, call)
    && var x := procs[call.p];
      match call
      case Open(_, _) => !CanAlloc(x)
      case Dup(_, fd) => fd in x.fds && !CanAlloc(x)
      case MakePipe(_) => !CanAlloc(x) || !CanAlloc(Filled(x))
      case _ => false
  }

  /** What a read or a write asks of which pipe. */
  function Asks(procs: map<nat, Proc>, call: Call): Option<(PipeBuf, PipeRuns.Call)> {
    if call.p !in procs then None
    else
      var fds := procs[call.p].fds;
      match call
      case Read(_, fd, n) => if fd in fds && fds[fd].ReadEnd? then Some((fds[fd].pipe, PipeRuns.Read(n))) else None
      case Write(_, fd, data) =>
        if fd in fds && fds[fd].WriteEnd? then Some((fds[fd].pipe, PipeRuns.Write(data))) else None
      case _ => None
  }

  /** The tables after a call that makes no pipe. */
  ghost function Tables(procs: map<nat, Proc>, call: Call): map<nat, Proc>
    requires Legal(procs, call) && !Spins(procs, call)
  {
    var x := procs[call.p];
    match call
    case Open(p, id) => procs[p := Proc(x.fds[FirstFree(x) := Other(id)], FirstFree(x) + 1)]
    case Dup(p, fd) =>
      if fd in x.fds then procs[p := Proc(x.fds[FirstFree(x) := x.fds[fd]], FirstFree(x) + 1)] else procs
    case Dup2(p, fd, to) => if fd in x.fds then SetFd(procs, p, to, x.fds[fd]) else procs
    case Close(p, fd) => if fd in x.fds then ClearFd(procs, p, fd) else procs
    case Fork(p, child) => procs[child := x]
    case _ => procs
  }

  /** The answer to a call that makes no pipe and goes to none. */
  ghost function TableAnswer(procs: map<nat, Proc>, call: Call): Answer
    requires Legal(procs, call) && !Spins(procs, call)
  {
    var x := procs[call.p];
    match call
    case Open(_, _) => Slot(FirstFree(x))
    case Dup(_, fd) => if fd in x.fds then Slot(FirstFree(x)) else BadFd
    case Dup2(_, fd, to) => if fd in x.fds then Slot(to) else BadFd
    case Close(_, fd) => if fd in x.fds then Success else BadFd
    case Fork(_, _) => Success
    case _ => BadFd
  }

  /** A new pipe, empty, with its ends in the next two free slots. */
  ghost predicate Piped(a: System, p: nat, answer: Answer, b: System, pipe: PipeBuf)
    requires p in a.procs && CanAlloc(a.procs[p]) && CanAlloc(Filled(a.procs[p]))
  {
    var x := a.procs[p];
    var r, w := FirstFree(x), FirstFree(Filled(x));
    && pipe !in a.queues && answer == Ends(r, w) && r !in x.fds && w !in x.fds && r != w
    && b == System(a.procs[p := Proc(x.fds[r := ReadEnd(pipe)][w := WriteEnd(pipe)], w + 1)], a.queues[pipe := []])
  }

  /** One call of the system. */
  ghost predicate Step(a: System, call: Call, answer: Answer, b: System) {
    if !Legal(a.procs, call) then answer == NoProcess && b == a
    else
      && !Spins(a.procs, call)
      && match Asks(a.procs, call)
         case Some((pipe, ask)) =>
           && pipe in a.queues && answer == FromPipe(PipeRuns.FifoReply(FifoOf(a, pipe), ask))
           && b == a.(queues := a.queues[pipe := PipeRuns.FifoNext(FifoOf(a, pipe), ask).queue])
         case None =>
           if call.MakePipe? then exists pipe :: pipe in b.queues && Piped(a, call.p, answer, b, pipe)
           else answer == TableAnswer(a.procs, call) && b == a.(procs := Tables(a.procs, call))
  }

  // ---- The kernel follows the system ----

  ghost function Seen(k: Kernel): System
    reads k`procs, k`pipes, k.pipes`queue
  {
    System(k.procs, k.Queues())
  }

  /** The slot a search would end at. */
  method Search(x: Proc) returns (n: nat)
    requires CanAlloc(x)
    ensures n == FirstFree(x) && n !in x.fds
  {
    hide FirstFree, CanAlloc;
    n := x.nextFd;
    ghost var last, i := FirstProbe(x), 0;
    while n in x.fds
      invariant i <= last && n == Probe(x.nextFd, i)
      decreases last - i
    {
      n := Advance(n);
      i := i + 1;
    }
    FirstIs(x, i);
  }

  method WouldSpin(procs: map<nat, Proc>, call: Call) returns (b: bool)
    ensures b <==> Spins(procs, call)
  {
    hide CanAlloc, FirstFree;
    if !Legal(procs, call) { return false; }
    var x := procs[call.p];
    match call {
      case Open(_, _) => b := !CanAlloc(x);
      case Dup(_, fd) => b := fd in x.fds && !CanAlloc(x);
      case MakePipe(_) =>
        b := !CanAlloc(x);
        if !b {
          var n := Search(x);
          b := !CanAlloc(Proc(x.fds[n := Other(0)], n + 1));
        }
      case _ => b := false;
    }
  }

  /** The objects a run may change. */
  ghost function Parts(k: Kernel): set<object>
    reads k, k.pipes
  {
    {k} + k.pipes + set pipe | pipe in k.pipes :: pipe.buf
  }

  method ServePipe(k: Kernel, p: nat) returns (answer: Answer)
    requires k.Valid() && p in k.procs && !Spins(k.procs, MakePipe(p))
    modifies k
    ensures k.Valid() && Step(old(Seen(k)), MakePipe(p), answer, Seen(k)) && fresh(Parts(k) - old(Parts(k)))
  {
    hide Slots, PipeBuf.Ring, CanAlloc, FirstFree, Filled;
    var r, w, pipe := k.Pipe(p);
    answer := Ends(r, w);
    assert k.Queues() == old(k.Queues())[pipe := []];
    assert pipe in Seen(k).queues && Piped(old(Seen(k)), p, answer, Seen(k), pipe);
  }

  method ServeRead(k: Kernel, p: nat, fd: nat, n: nat) returns (answer: Answer)
    requires k.Valid() && p in k.procs
    modifies k.pipes
    ensures k.Valid() && Step(old(Seen(k)), Read(p, fd, n), answer, Seen(k)) && Parts(k) == old(Parts(k))
  {
    hide k.Valid, Slots, FirstFree, CanAlloc, Filled;
    var dst := new byte[n](_ => 0);
    var r := k.Read(p, fd, dst);
    if r.Some? {
      answer := FromPipe(if r.value.Done? then PipeRuns.Got(dst[..r.value.n]) else PipeRuns.TryAgain);
      ghost var pipe := k.procs[p].fds[fd].pipe;
      assert old(k.Queues())[pipe] == old(pipe.queue);
    } else {
      answer := BadFd;
    }
  }

  method ServeWrite(k: Kernel, p: nat, fd: nat, data: seq<byte>) returns (answer: Answer)
    requires k.Valid() && p in k.procs
    modifies k.pipes, set pipe | pipe in k.pipes :: pipe.buf
    ensures k.Valid() && Step(old(Seen(k)), Write(p, fd, data), answer, Seen(k)) && Parts(k) == old(Parts(k))
  {
    hide k.Valid, Slots, FirstFree, CanAlloc, Filled;
    k.QueuesFit();
    var r := k.Write(p, fd, data);
    if r.Some? {
      answer := FromPipe(match r.value
                         case Done(n) => PipeRuns.Accepted(n)
                         case Again => PipeRuns.TryAgain
                         case Broken => PipeRuns.BrokenPipe);
      ghost var pipe := k.procs[p].fds[fd].pipe;
      assert old(k.Queues())[pipe] == old(pipe.queue);
    } else {
      answer := BadFd;
    }
  }

  method Serve(k: Kernel, call: Call) returns (answer: Answer)
    requires k.Valid() && !Spins(k.procs, call)
    modifies Parts(k)
    ensures k.Valid() && Step(old(Seen(k)), call, answer, Seen(k)) && fresh(Parts(k) - old(Parts(k)))
  {
    hide k.Valid, Slots, CanAlloc, FirstFree, Filled;
    if !Legal(k.procs, call) { return NoProcess; }
    match call {
      case Open(p, id) =>
        var n := k.Open(p, id);
        answer := Slot(n);
      case Dup(p, fd) =>
        var r := k.Dup(p, fd);
        answer := if r.Some? then Slot(r.value) else BadFd;
      case Dup2(p, fd, to) =>
        var ok := k.Dup2(p, fd, to);
        answer := if ok then Slot(to) else BadFd;
      case Close(p, fd) =>
        var ok := k.Close(p, fd);
        answer := if ok then Success else BadFd;
      case MakePipe(p) => answer := ServePipe(k, p);
      case Fork(p, child) =>
        k.Fork(p, child);
        answer := Success;
      case Read(p, fd, n) => answer := ServeRead(k, p, fd, n);
      case Write(p, fd, data) => answer := ServeWrite(k, p, fd, data);
    }
  }

  // ---- Runs ----

  ghost predicate Runs(trace: seq<System>, calls: seq<Call>, answers: seq<Answer>) {
    && |trace| == |calls| + 1 == |answers| + 1
    && forall i :: 0 <= i < |calls| ==> Step(trace[i], calls[i], answers[i], trace[i + 1])
  }

  /** Any calls by any processes, up to a search that does not end, are a run of the system. */
  method Replay(k: Kernel, calls: seq<Call>) returns (answers: seq<Answer>, ghost trace: seq<System>)
    requires k.Valid()
    modifies Parts(k)
    ensures k.Valid() && |answers| <= |calls| && Runs(trace, calls[..|answers|], answers)
    ensures trace[0] == old(Seen(k)) && trace[|answers|] == Seen(k)
    ensures forall pipe :: pipe in trace[0].queues ==> |trace[0].queues[pipe]| <= CAPACITY
    ensures |answers| < |calls| ==> Spins(k.procs, calls[|answers|])
  {
    hide Step, Spins, k.Valid;
    answers, trace := [], [Seen(k)];
    k.QueuesFit();
    for i := 0 to |calls|
      invariant k.Valid() && fresh(Parts(k) - old(Parts(k)))
      invariant |answers| == i && Runs(trace, calls[..i], answers)
      invariant trace[0] == old(Seen(k)) && trace[i] == Seen(k)
    {
      var spins := WouldSpin(k.procs, calls[i]);
      if spins { return; }
      var answer := Serve(k, calls[i]);
      assert calls[..i + 1] == calls[..i] + [calls[i]];
      answers, trace := answers + [answer], trace + [Seen(k)];
    }
  }

  // ---- What holds of every run of the system ----

  lemma StaysClosedStep(a: System, call: Call, answer: Answer, b: System, end: Kind)
    requires Step(a, call, answer, b) && !end.Other? && end.pipe in a.queues && Slots(a.procs, end) == {}
    ensures end.pipe in b.queues && Slots(b.procs, end) == {}
  {
    hide FirstFree, CanAlloc, Filled;
    forall p: nat, fd: nat ensures (p, fd) !in Slots(b.procs, end) {
      InSlots(b.procs, end, p, fd);
      InSlots(a.procs, end, p, fd);
      if Legal(a.procs, call) && (call.Dup? || call.Dup2?) { InSlots(a.procs, end, call.p, call.fd); }
      if Legal(a.procs, call) && call.Fork? { InSlots(a.procs, end, call.p, fd); }
    }
  }

  /** Once no slot holds an end of a pipe, none ever will: end of file and broken pipe are final. */
  lemma {:induction false} StaysClosed(trace: seq<System>, calls: seq<Call>, answers: seq<Answer>, end: Kind, i: nat)
    requires Runs(trace, calls, answers) && i < |trace|
    requires !end.Other? && end.pipe in trace[0].queues && Slots(trace[0].procs, end) == {}
    ensures end.pipe in trace[i].queues && Slots(trace[i].procs, end) == {}
  {
    hide Step, Slots;
    if i == 0 {
    } else {
      StaysClosed(trace, calls, answers, end, i - 1);
      StaysClosedStep(trace[i - 1], calls[i - 1], answers[i - 1], trace[i], end);
    }
  }

  /** The bytes a call puts into `pipe`. */
  ghost function PutIn(a: System, call: Call, answer: Answer, pipe: PipeBuf): seq<byte> {
    match Asks(a.procs, call)
    case Some((q, ask)) =>
      if q == pipe && ask.Write? && answer.FromPipe? && answer.reply.Accepted? && answer.reply.n <= |ask.data|
      then ask.data[..answer.reply.n] else []
    case None => []
  }

  /** The bytes a call takes out of `pipe`. */
  ghost function TakenOut(a: System, call: Call, answer: Answer, pipe: PipeBuf): seq<byte> {
    match Asks(a.procs, call)
    case Some((q, _)) => if q == pipe && answer.FromPipe? && answer.reply.Got? then answer.reply.bytes else []
    case None => []
  }

  ghost function AllPutIn(trace: seq<System>, calls: seq<Call>, answers: seq<Answer>, pipe: PipeBuf, i: nat): seq<byte>
    requires |trace| == |calls| + 1 == |answers| + 1 && i <= |calls|
  {
    if i == 0 then []
    else AllPutIn(trace, calls, answers, pipe, i - 1) + PutIn(trace[i - 1], calls[i - 1], answers[i - 1], pipe)
  }

  ghost function AllTakenOut(
    trace: seq<System>, calls: seq<Call>, answers: seq<Answer>, pipe: PipeBuf, i: nat): seq<byte>
    requires |trace| == |calls| + 1 == |answers| + 1 && i <= |calls|
  {
    if i == 0 then []
    else AllTakenOut(trace, calls, answers, pipe, i - 1) + TakenOut(trace[i - 1], calls[i - 1], answers[i - 1], pipe)
  }

  lemma StepConserves(a: System, call: Call, answer: Answer, b: System, pipe: PipeBuf)
    requires Step(a, call, answer, b) && pipe in a.queues && |a.queues[pipe]| <= CAPACITY
    ensures pipe in b.queues && |b.queues[pipe]| <= CAPACITY
    ensures TakenOut(a, call, answer, pipe) + b.queues[pipe] == a.queues[pipe] + PutIn(a, call, answer, pipe)
  {
    hide FirstFree, CanAlloc, Filled, Slots, PipeRuns.FifoReply, PipeRuns.FifoNext, Tables, TableAnswer;
    if Legal(a.procs, call) && Asks(a.procs, call).Some? && Asks(a.procs, call).value.0 == pipe {
      PipeRuns.StepConserves(FifoOf(a, pipe), Asks(a.procs, call).value.1);
    } else {
      assert b.queues[pipe] == a.queues[pipe];
    }
  }

  /**
   Over any run, by whichever processes: what was in a pipe and what is put into it is what
   is taken out of it, in that order, followed by what is left.
   */
  lemma {:induction false} RunConserves(
      trace: seq<System>, calls: seq<Call>, answers: seq<Answer>, pipe: PipeBuf, i: nat)
    requires Runs(trace, calls, answers) && i <= |calls|
    requires pipe in trace[0].queues && |trace[0].queues[pipe]| <= CAPACITY
    ensures pipe in trace[i].queues && |trace[i].queues[pipe]| <= CAPACITY
    ensures trace[0].queues[pipe] + AllPutIn(trace, calls, answers, pipe, i) ==
      AllTakenOut(trace, calls, answers, pipe, i) + trace[i].queues[pipe]
  {
    hide Step, PutIn, TakenOut;
    if i == 0 {
    } else {
      var n := i - 1;
      RunConserves(trace, calls, answers, pipe, n);
      StepConserves(trace[n], calls[n], answers[n], trace[i], pipe);
      PipeRuns.ConcatStep(
        AllTakenOut(trace, calls, answers, pipe, n), trace[n].queues[pipe],
        trace[0].queues[pipe] + AllPutIn(trace, calls, answers, pipe, n),
        TakenOut(trace[n], calls[n], answers[n], pipe), trace[i].queues[pipe],
        PutIn(trace[n], calls[n], answers[n], pipe));
      assert trace[0].queues[pipe] + AllPutIn(trace, calls, answers, pipe, i) ==
        trace[0].queues[pipe] + AllPutIn(trace, calls, answers, pipe, n) + PutIn(trace[n], calls[n], answers[n], pipe);
    }
  }
}
