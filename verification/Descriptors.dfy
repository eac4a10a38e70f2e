/**
 Descriptor tables and the pipe ends they hold. For every pipe the two end counts are
 the numbers of descriptor slots, over all processes, that hold that end.
 */
module Descriptors {
  import opened Wrappers
  import opened Pipes

  const MAX_FDS := 1024

  /** What a descriptor stands for: an end of a pipe, or anything else. */
  datatype Kind = ReadEnd(pipe: PipeBuf) | WriteEnd(pipe: PipeBuf) | Other(id: nat)

  datatype Proc = Proc(fds: map<nat, Kind>, nextFd: nat)

  /** The slots, over all descriptor tables, that hold `k`. */
  ghost function Slots(procs: map<nat, Proc>, k: Kind): set<(nat, nat)> {
    set p, fd | p in procs && fd in procs[p].fds && procs[p].fds[fd] == k :: (p, fd)
  }

  lemma InSlots(procs: map<nat, Proc>, k: Kind, p: nat, fd: nat)
    ensures (p, fd) in Slots(procs, k) <==> p in procs && fd in procs[p].fds && procs[p].fds[fd] == k
  {
  }

  function SetFd(procs: map<nat, Proc>, p: nat, fd: nat, k: Kind): map<nat, Proc>
    requires p in procs
  {
    procs[p := procs[p].(fds := procs[p].fds[fd := k])]
  }

  function ClearFd(procs: map<nat, Proc>, p: nat, fd: nat): map<nat, Proc>
    requires p in procs
  {
    procs[p := procs[p].(fds := procs[p].fds - {fd})]
  }

  lemma SlotsSet(procs: map<nat, Proc>, p: nat, fd: nat, k: Kind, j: Kind)
    requires p in procs
    ensures Slots(SetFd(procs, p, fd, k), j) ==
      if j == k then Slots(procs, j) + {(p, fd)} else Slots(procs, j) - {(p, fd)}
  {
    var after := SetFd(procs, p, fd, k);
    forall q: nat, g: nat
      ensures (q, g) in Slots(after, j) <==> if (q, g) == (p, fd) then j == k else (q, g) in Slots(procs, j)
    {
      InSlots(after, j, q, g);
      InSlots(procs, j, q, g);
    }
  }

  lemma SlotsClear(procs: map<nat, Proc>, p: nat, fd: nat, j: Kind)
    requires p in procs
    ensures Slots(ClearFd(procs, p, fd), j) == Slots(procs, j) - {(p, fd)}
  {
    var after := ClearFd(procs, p, fd);
    forall q: nat, g: nat ensures (q, g) in Slots(after, j) <==> (q, g) != (p, fd) && (q, g) in Slots(procs, j) {
      InSlots(after, j, q, g);
      InSlots(procs, j, q, g);
    }
  }

  /** Slots depend on the tables only. */
  lemma SlotsSame(procs: map<nat, Proc>, after: map<nat, Proc>, j: Kind)
    requires forall p :: p in procs || p in after ==>
      (if p in procs then procs[p].fds else map[]) == (if p in after then after[p].fds else map[])
    ensures Slots(procs, j) == Slots(after, j)
  {
    forall q: nat, g: nat ensures (q, g) in Slots(after, j) <==> (q, g) in Slots(procs, j) {
      InSlots(after, j, q, g);
      InSlots(procs, j, q, g);
    }
  }

  lemma CountSet(procs: map<nat, Proc>, p: nat, fd: nat, k: Kind, j: Kind)
    requires p in procs && fd !in procs[p].fds
    ensures |Slots(SetFd(procs, p, fd, k), j)| == |Slots(procs, j)| + if j == k then 1 else 0
  {
    hide Slots;
    SlotsSet(procs, p, fd, k, j);
    InSlots(procs, j, p, fd);
  }

  lemma CountClear(procs: map<nat, Proc>, p: nat, fd: nat, j: Kind)
    requires p in procs && fd in procs[p].fds
    ensures |Slots(ClearFd(procs, p, fd), j)| == |Slots(procs, j)| - if j == procs[p].fds[fd] then 1 else 0
  {
    hide Slots;
    SlotsClear(procs, p, fd, j);
    InSlots(procs, j, p, fd);
    if j != procs[p].fds[fd] { assert Slots(procs, j) - {(p, fd)} == Slots(procs, j); }
  }

  class Kernel {
    var procs: map<nat, Proc>
    ghost var pipes: set<PipeBuf>  // all pipes ever made

    ghost predicate Parts()
      reads this, pipes
    {
      && (forall p, q :: p in pipes && q in pipes && p != q ==> p.buf != q.buf)
      && forall p, fd :: p in procs && fd in procs[p].fds && !procs[p].fds[fd].Other? ==> procs[p].fds[fd].pipe in pipes
    }

    ghost predicate Counted(pipe: PipeBuf)
      reads this, pipe, pipe.buf
    {
      && pipe.Valid()
      && pipe.readers == |Slots(procs, ReadEnd(pipe))|
      && pipe.writers == |Slots(procs, WriteEnd(pipe))|
    }

    ghost predicate Valid()
      reads this, pipes, set p | p in pipes :: p.buf
    {
      Parts() && forall pipe :: pipe in pipes ==> Counted(pipe)
    }

    /** What every pipe holds. */
    ghost function Queues(): map<PipeBuf, seq<byte>>
      reads this`pipes, pipes`queue
    {
      map pipe | pipe in pipes :: pipe.queue
    }

    constructor (pids: set<nat>)
      ensures Valid() && pipes == {} && procs.Keys == pids && forall p :: p in pids ==> procs[p] == Proc(map[], 3)
    {
      procs := map p | p in pids :: Proc(map[], 3);
      pipes := {};
    }

    /** Record one more descriptor for whatever `k` is. */
    method DupInc(k: Kind)
      requires !k.Other? ==>
        k.pipe.Valid() && (k.ReadEnd? ==> !k.pipe.readClosed) && (k.WriteEnd? ==> !k.pipe.writeClosed)
      modifies (if k.Other? then {} else {k.pipe})`readers, (if k.Other? then {} else {k.pipe})`writers
      ensures !k.Other? ==> k.pipe.Valid()
      ensures k.ReadEnd? ==> k.pipe.readers == old(k.pipe.readers) + 1 && k.pipe.writers == old(k.pipe.writers)
      ensures k.WriteEnd? ==> k.pipe.writers == old(k.pipe.writers) + 1 && k.pipe.readers == old(k.pipe.readers)
    {
      match k {
        case WriteEnd(pipe) => pipe.DupWrite();
        case ReadEnd(pipe) => pipe.DupRead();
        case Other(_) =>
      }
    }

    /** Put `k` into the empty slot `fd` of `p` and count it; `k` is held by some slot already. */
    method Install(p: nat, fd: nat, k: Kind)
      requires Valid() && p in procs && fd !in procs[p].fds
      requires !k.Other? ==> k.pipe in pipes && |Slots(procs, k)| > 0
      modifies this`procs, pipes`readers, pipes`writers
      ensures Valid() && procs == SetFd(old(procs), p, fd, k)
    {
      hide Slots, PipeBuf.Ring;
      ghost var was := procs;
      if !k.Other? { assert Counted(k.pipe); }
      DupInc(k);
      procs := procs[p := procs[p].(fds := procs[p].fds[fd := k])];
      forall pipe | pipe in pipes ensures Counted(pipe) {
        assert old(Counted(pipe));
        CountSet(was, p, fd, k, ReadEnd(pipe));
        CountSet(was, p, fd, k, WriteEnd(pipe));
      }
    }

    /** Take the slot `fd` of `p` out of the table and uncount what it held. */
    method Drop(p: nat, fd: nat)
      requires Valid() && p in procs && fd in procs[p].fds
      modifies this`procs, pipes`readers, pipes`writers, pipes`readClosed, pipes`writeClosed
      ensures Valid() && procs == ClearFd(old(procs), p, fd)
    {
      hide Slots, PipeBuf.Ring;
      ghost var was := procs;
      var k := procs[p].fds[fd];
      procs := procs[p := procs[p].(fds := procs[p].fds - {fd})];
      if !k.Other? {
        assert old(Counted(k.pipe));
        CountClear(was, p, fd, k);
      }
      match k {
        case WriteEnd(pipe) => pipe.CloseWrite();
        case ReadEnd(pipe) => pipe.CloseRead();
        case Other(_) =>
      }
      forall pipe | pipe in pipes ensures Counted(pipe) {
        assert old(Counted(pipe));
        CountClear(was, p, fd, ReadEnd(pipe));
        CountClear(was, p, fd, WriteEnd(pipe));
      }
    }

    /** Advance `nextFd` to the first free slot on the way, wrapping around at the table size, and move past it. */
    method FindFd(p: nat) returns (n: nat)
      requires p in procs && CanAlloc(procs[p])
      modifies this`procs
      ensures n == FirstFree(old(procs[p])) && n !in old(procs[p].fds)
      ensures procs == old(procs)[p := Proc(old(procs[p].fds), n + 1)]
    {
      hide FirstFree, CanAlloc;
      var x := procs[p];
      var fds := x.fds;
      ghost var last := FirstProbe(x);
      ghost var i := 0;
      while procs[p].nextFd in fds
        invariant p in procs && procs == old(procs)[p := Proc(fds, procs[p].nextFd)]
        invariant i <= last && procs[p].nextFd == Probe(x.nextFd, i)
        decreases last - i
      {
        var next := procs[p].nextFd + 1;
        if next >= MAX_FDS { next := 3; }
        procs := procs[p := Proc(fds, next)];
        i := i + 1;
      }
      n := procs[p].nextFd;
      FirstIs(x, i);
      procs := procs[p := Proc(fds, n + 1)];
    }

    lemma TablesOnly(was: map<nat, Proc>)
      requires forall p :: p in was || p in procs ==>
        (if p in procs then procs[p].fds else map[]) == (if p in was then was[p].fds else map[])
      ensures forall j :: Slots(procs, j) == Slots(was, j)
    {
      forall j ensures Slots(procs, j) == Slots(was, j) { SlotsSame(procs, was, j); }
    }

    /** dup and F_DUPFD: a second descriptor for what `fd` stands for. */
    method Dup(p: nat, fd: nat) returns (r: Option<nat>)
      requires Valid() && p in procs && (fd in procs[p].fds ==> CanAlloc(procs[p]))
      modifies this`procs, pipes`readers, pipes`writers
      ensures Valid()
      ensures r.None? <==> fd !in old(procs[p].fds)
      ensures r.None? ==> procs == old(procs)
      ensures r.Some? ==> r.value == FirstFree(old(procs[p])) && r.value !in old(procs[p].fds)
      ensures r.Some? ==>
        procs == old(procs)[p := Proc(old(procs[p].fds)[r.value := old(procs[p].fds)[fd]], r.value + 1)]
    {
      hide Slots, PipeBuf.Ring;
      if fd !in procs[p].fds { return None; }
      var k := procs[p].fds[fd];
      ghost var was := procs;
      var n := FindFd(p);
      TablesOnly(was);
      assert forall pipe :: pipe in pipes ==> Counted(pipe) by {
        forall pipe | pipe in pipes ensures Counted(pipe) { assert old(Counted(pipe)); }
      }
      HeldSomewhere(procs, k, p, fd);
      Install(p, n, k);
      r := Some(n);
    }

    /** dup2: make `to` stand for what `fd` stands for, closing what was there. */
    method Dup2(p: nat, fd: nat, to: nat) returns (ok: bool)
      requires Valid() && p in procs
      modifies this`procs, pipes`readers, pipes`writers, pipes`readClosed, pipes`writeClosed
      ensures Valid() && (ok <==> fd in old(procs[p].fds))
      ensures procs == if ok then SetFd(old(procs), p, to, old(procs[p].fds)[fd]) else old(procs)
    {
      hide Slots, PipeBuf.Ring;
      if fd !in procs[p].fds { return false; }
      if fd == to {
        SetSame(procs, p, fd);
        return true;
      }
      var k := procs[p].fds[fd];
      if to in procs[p].fds { Drop(p, to); }
      HeldSomewhere(procs, k, p, fd);
      Install(p, to, k);
      SetAfterClear(old(procs), p, to, k);
      ok := true;
    }

    method Close(p: nat, fd: nat) returns (ok: bool)
      requires Valid() && p in procs
      modifies this`procs, pipes`readers, pipes`writers, pipes`readClosed, pipes`writeClosed
      ensures Valid() && (ok <==> fd in old(procs[p].fds))
      ensures procs == if ok then ClearFd(old(procs), p, fd) else old(procs)
    {
      if fd !in procs[p].fds { return false; }
      Drop(p, fd);
      ok := true;
    }

    /** pipe: a new pipe whose two ends go into the next two free slots. */
    method Pipe(p: nat) returns (r: nat, w: nat, pipe: PipeBuf)
      requires Valid() && p in procs
      requires CanAlloc(procs[p]) && CanAlloc(Filled(procs[p]))
      modifies this
      ensures Valid() && fresh(pipe) && fresh(pipe.buf) && pipes == old(pipes) + {pipe}
      ensures r == FirstFree(old(procs[p])) && w == FirstFree(Filled(old(procs[p])))
      ensures r !in old(procs[p].fds) && w !in old(procs[p].fds) && r != w
      ensures procs == old(procs)[p := Proc(old(procs[p].fds)[r := ReadEnd(pipe)][w := WriteEnd(pipe)], w + 1)]
      ensures pipe.queue == [] && pipe.readers == 1 && pipe.writers == 1
    {
      hide Slots, PipeBuf.Ring, CanAlloc, FirstFree, Filled;
      pipe := new PipeBuf();
      ghost var was := procs;
      NobodyHolds(was, pipes, pipe);
      r, w := PlaceEnds(p, pipe);
      forall other | other in old(pipes) + {pipe} ensures Counted(other) {
        if other in old(pipes) { assert old(Counted(other)); }
        TwoInstalled(was, procs, p, r, w, pipe, ReadEnd(other));
        TwoInstalled(was, procs, p, r, w, pipe, WriteEnd(other));
      }
      pipes := pipes + {pipe};
    }

    /** Put the two ends of a pipe into the next two free slots. */
    method PlaceEnds(p: nat, pipe: PipeBuf) returns (r: nat, w: nat)
      requires p in procs && CanAlloc(procs[p]) && CanAlloc(Filled(procs[p]))
      modifies this`procs
      ensures r == FirstFree(old(procs[p])) && w == FirstFree(Filled(old(procs[p])))
      ensures r !in old(procs[p].fds) && w !in old(procs[p].fds) && r != w
      ensures procs == old(procs)[p := Proc(old(procs[p].fds)[r := ReadEnd(pipe)][w := WriteEnd(pipe)], w + 1)]
    {
      hide CanAlloc, FirstFree;
      ghost var x := procs[p];
      r := Place(p, ReadEnd(pipe));
      KindsDoNotMatter(Filled(x), procs[p]);
      w := Place(p, WriteEnd(pipe));
    }

    /** Put a descriptor into the next free slot. */
    method Place(p: nat, k: Kind) returns (n: nat)
      requires p in procs && CanAlloc(procs[p])
      modifies this`procs
      ensures n == FirstFree(old(procs[p])) && n !in old(procs[p].fds)
      ensures procs == old(procs)[p := Proc(old(procs[p].fds)[n := k], n + 1)]
    {
      n := FindFd(p);
      procs := procs[p := procs[p].(fds := procs[p].fds[n := k])];
    }

    /** Open something that is no pipe. */
    method Open(p: nat, id: nat) returns (n: nat)
      requires Valid() && p in procs && CanAlloc(procs[p])
      modifies this`procs
      ensures Valid() && n == FirstFree(old(procs[p])) && n !in old(procs[p].fds)
      ensures procs == old(procs)[p := Proc(old(procs[p].fds)[n := Other(id)], n + 1)]
    {
      hide Slots, PipeBuf.Ring, CanAlloc, FirstFree;
      ghost var was := procs;
      n := Place(p, Other(id));
      forall pipe | pipe in pipes ensures Counted(pipe) {
        assert old(Counted(pipe));
        OtherIsNoEnd(was, procs, p, n, id, ReadEnd(pipe));
        OtherIsNoEnd(was, procs, p, n, id, WriteEnd(pipe));
      }
    }

    /** fork's inheritance: the child gets every descriptor of the parent, each counted. */
    method Fork(p: nat, c: nat)
      requires Valid() && p in procs && c !in procs
      modifies this`procs, pipes`readers, pipes`writers
      ensures Valid() && procs == old(procs)[c := old(procs[p])]
    {
      hide Slots, PipeBuf.Ring, Inherited;
      ghost var was := procs;
      StartChild(p, c);
      var fds := procs[p].fds;
      var todo := fds.Keys;
      while todo != {}
        invariant Valid() && todo <= fds.Keys && procs == Inherited(was, p, c, todo)
        decreases |todo|
      {
        var fd :| fd in todo;
        InheritNext(was, p, c, todo, fd);
        HeldSomewhere(procs, fds[fd], p, fd);
        Install(c, fd, fds[fd]);
        todo := todo - {fd};
      }
      InheritDone(was, p, c);
    }

    method StartChild(p: nat, c: nat)
      requires Valid() && p in procs && c !in procs
      modifies this`procs
      ensures Valid() && procs == Inherited(old(procs), p, c, old(procs[p].fds.Keys)) && procs[p] == old(procs[p])
    {
      hide Slots, PipeBuf.Ring, Inherited;
      ghost var was := procs;
      procs := procs[c := Proc(map[], procs[p].nextFd)];
      TablesOnly(was);
      forall pipe | pipe in pipes ensures Counted(pipe) { assert old(Counted(pipe)); }
      InheritStart(was, p, c);
    }

    /**
     read on a pipe descriptor. It answers 0 for a non-empty buffer only when no write
     descriptor is left anywhere and every byte ever written has been read.
     */
    method Read(p: nat, fd: nat, dst: array<byte>) returns (r: Option<Outcome>)
      requires Valid() && p in procs && forall pipe :: pipe in pipes ==> pipe.buf != dst
      modifies pipes`readPos, pipes`len, pipes`queue, pipes`taken, dst
      ensures Valid() && (r.Some? <==> fd in procs[p].fds && procs[p].fds[fd].ReadEnd?)
      ensures r.None? ==> Queues() == old(Queues())
      ensures r.Some? ==>
        var pipe := procs[p].fds[fd].pipe;
        && pipe in pipes && var queue := old(pipe.queue);
        && (queue == [] ==> r.value == (if Slots(procs, WriteEnd(pipe)) == {} then Done(0) else Again))
        && (queue != [] ==> r.value == Done(Min(dst.Length, |queue|)))
        && (r.value == Done(0) && dst.Length > 0 ==> pipe.taken == pipe.written)
        && (r.value.Done? ==> dst[..r.value.n] == queue[..r.value.n])
        && Queues() == old(Queues())[pipe := if r.value.Done? then queue[r.value.n..] else queue]
    {
      hide Slots, PipeBuf.Ring;
      if fd !in procs[p].fds { return None; }
      match procs[p].fds[fd] {
        case ReadEnd(pipe) =>
          assert Counted(pipe);
          NoSlots(procs, WriteEnd(pipe));
          var o := pipe.TryRead(dst);
          r := Some(o);
          forall other | other in pipes ensures Counted(other) { assert old(Counted(other)); }
        case _ => r := None;
      }
    }

    /** write on a pipe descriptor: broken exactly when no read descriptor is left anywhere. */
    method Write(p: nat, fd: nat, data: seq<byte>) returns (r: Option<Outcome>)
      requires Valid() && p in procs
      modifies pipes`writePos, pipes`len, pipes`queue, pipes`written, set pipe | pipe in pipes :: pipe.buf
      ensures Valid() && (r.Some? <==> fd in procs[p].fds && procs[p].fds[fd].WriteEnd?)
      ensures r.None? ==> Queues() == old(Queues())
      ensures r.Some? ==>
        var pipe := procs[p].fds[fd].pipe;
        && pipe in pipes && var queue := old(pipe.queue);
        && (r.value.Broken? <==> Slots(procs, ReadEnd(pipe)) == {})
        && (r.value.Again? <==> Slots(procs, ReadEnd(pipe)) != {} && |queue| == CAPACITY)
        && (r.value.Done? ==> r.value.n == Min(|data|, CAPACITY - |queue|))
        && (r.value.Done? ==> pipe.written == old(pipe.written) + data[..r.value.n])
        && Queues() == old(Queues())[pipe := if r.value.Done? then queue + data[..r.value.n] else queue]
    {
      hide Slots, PipeBuf.Ring;
      if fd !in procs[p].fds { return None; }
      match procs[p].fds[fd] {
        case WriteEnd(pipe) =>
          assert Counted(pipe);
          NoSlots(procs, ReadEnd(pipe));
          QueuesFit();
          var o := pipe.TryWrite(data);
          r := Some(o);
          forall other | other in pipes ensures Counted(other) { assert old(Counted(other)); }
        case _ => r := None;
      }
    }

    lemma QueuesFit()
      requires Valid()
      ensures forall pipe :: pipe in pipes ==> |pipe.queue| <= CAPACITY
    {
      forall pipe | pipe in pipes ensures |pipe.queue| <= CAPACITY { assert Counted(pipe); }
    }
  }

  /** The tables in the middle of a fork: the child still lacks `todo`. */
  ghost function Inherited(was: map<nat, Proc>, p: nat, c: nat, todo: set<nat>): (procs: map<nat, Proc>)
    requires p in was
    ensures c in procs && (p != c ==> p in procs && procs[p] == was[p])
  {
    was[c := Proc(map fd | fd in was[p].fds && fd !in todo :: was[p].fds[fd], was[p].nextFd)]
  }

  lemma InheritNext(was: map<nat, Proc>, p: nat, c: nat, todo: set<nat>, fd: nat)
    requires p in was && c !in was && fd in todo && fd in was[p].fds
    ensures fd !in Inherited(was, p, c, todo)[c].fds
    ensures SetFd(Inherited(was, p, c, todo), c, fd, was[p].fds[fd]) == Inherited(was, p, c, todo - {fd})
  {
    var x := SetFd(Inherited(was, p, c, todo), c, fd, was[p].fds[fd]);
    var y := Inherited(was, p, c, todo - {fd});
    assert x[c].fds == y[c].fds;
    assert x == y;
  }

  lemma InheritDone(was: map<nat, Proc>, p: nat, c: nat)
    requires p in was
    ensures Inherited(was, p, c, {}) == was[c := was[p]]
  {
    assert Inherited(was, p, c, {})[c].fds == was[p].fds;
  }

  lemma InheritStart(was: map<nat, Proc>, p: nat, c: nat)
    requires p in was
    ensures Inherited(was, p, c, was[p].fds.Keys) == was[c := Proc(map[], was[p].nextFd)]
  {
    assert Inherited(was, p, c, was[p].fds.Keys)[c].fds.Keys == {};
  }

  lemma OtherIsNoEnd(was: map<nat, Proc>, procs: map<nat, Proc>, p: nat, n: nat, id: nat, j: Kind)
    requires p in was && n !in was[p].fds && procs == was[p := Proc(was[p].fds[n := Other(id)], n + 1)] && !j.Other?
    ensures |Slots(procs, j)| == |Slots(was, j)|
  {
    CountSet(was, p, n, Other(id), j);
    SlotsSame(SetFd(was, p, n, Other(id)), procs, j);
  }

  lemma NoSlots(procs: map<nat, Proc>, k: Kind)
    ensures |Slots(procs, k)| == 0 <==> Slots(procs, k) == {}
  {
  }

  lemma SetSame(procs: map<nat, Proc>, p: nat, fd: nat)
    requires p in procs && fd in procs[p].fds
    ensures SetFd(procs, p, fd, procs[p].fds[fd]) == procs
  {
    assert procs[p].fds[fd := procs[p].fds[fd]] == procs[p].fds;
    assert procs[p := procs[p]] == procs;
  }

  lemma SetAfterClear(procs: map<nat, Proc>, p: nat, fd: nat, k: Kind)
    requires p in procs
    ensures SetFd(ClearFd(procs, p, fd), p, fd, k) == SetFd(procs, p, fd, k)
  {
    assert (procs[p].fds - {fd})[fd := k] == procs[p].fds[fd := k];
    assert SetFd(ClearFd(procs, p, fd), p, fd, k) == SetFd(procs, p, fd, k);
  }

  lemma NobodyHolds(procs: map<nat, Proc>, pipes: set<PipeBuf>, pipe: PipeBuf)
    requires forall p, fd :: p in procs && fd in procs[p].fds && !procs[p].fds[fd].Other? ==>
      procs[p].fds[fd].pipe in pipes
    requires pipe !in pipes
    ensures Slots(procs, ReadEnd(pipe)) == {} && Slots(procs, WriteEnd(pipe)) == {}
  {
  }

  /** What two new descriptors for a new pipe do to the slots of any end. */
  lemma TwoInstalled(was: map<nat, Proc>, procs: map<nat, Proc>, p: nat, r: nat, w: nat, pipe: PipeBuf, j: Kind)
    requires p in was && r !in was[p].fds && w !in was[p].fds && r != w
    requires procs == was[p := Proc(was[p].fds[r := ReadEnd(pipe)][w := WriteEnd(pipe)], w + 1)]
    ensures |Slots(procs, j)| == |Slots(was, j)| + (if j == ReadEnd(pipe) || j == WriteEnd(pipe) then 1 else 0)
  {
    hide Slots;
    var one := SetFd(was, p, r, ReadEnd(pipe));
    CountSet(was, p, r, ReadEnd(pipe), j);
    CountSet(one, p, w, WriteEnd(pipe), j);
    SlotsSame(SetFd(one, p, w, WriteEnd(pipe)), procs, j);
  }

  // ---- The search for a free slot ----

  /** The slot tried after `fd`. */
  function Advance(fd: nat): nat {
    if fd + 1 >= MAX_FDS then 3 else fd + 1
  }

  /** The slot tried after `k` others, starting at `next`. */
  function Probe(next: nat, k: nat): nat {
    if k == 0 then next else Advance(Probe(next, k - 1))
  }

  /** The start of the search is free, or a slot of the table that it comes by. */
  predicate CanAlloc(x: Proc) {
    x.nextFd !in x.fds || exists f :: 0 <= f < MAX_FDS && (3 <= f || x.nextFd <= f) && f !in x.fds
  }

  lemma {:induction false} ProbeUp(next: nat, k: nat)
    requires next + k < MAX_FDS
    ensures Probe(next, k) == next + k
  {
    if k == 0 {
    } else {
      ProbeUp(next, k - 1);
    }
  }

  lemma {:induction false} ProbeAgain(next: nat, j: nat, k: nat)
    ensures Probe(Probe(next, j), k) == Probe(next, j + k)
  {
    if k == 0 {
    } else {
      ProbeAgain(next, j, k - 1);
    }
  }

  /** Every slot `3..MAX_FDS` is tried some time. */
  lemma ProbeReaches(next: nat, f: nat) returns (k: nat)
    requires 3 <= f < MAX_FDS || next <= f < MAX_FDS
    ensures Probe(next, k) == f
  {
    if next <= f {
      k := f - next;
      ProbeUp(next, k);
    } else {
      var wrap := if next >= MAX_FDS then 0 else MAX_FDS - 1 - next;
      if next < MAX_FDS { ProbeUp(next, wrap); }
      assert Probe(next, wrap + 1) == 3;
      ProbeUp(3, f - 3);
      ProbeAgain(next, wrap + 1, f - 3);
      k := wrap + 1 + (f - 3);
    }
  }

  lemma {:induction false} ProbeStays(next: nat, k: nat)
    ensures Probe(next, k) == next || 3 <= Probe(next, k) < MAX_FDS || next <= Probe(next, k) < MAX_FDS
  {
    if k == 0 {
    } else {
      ProbeStays(next, k - 1);
    }
  }

  ghost predicate Finds(x: Proc, k: nat) {
    Probe(x.nextFd, k) !in x.fds
  }

  /** The search ends exactly when the table allows it; else it goes round for ever. */
  lemma SearchEndsIff(x: Proc)
    ensures CanAlloc(x) <==> exists k: nat :: Finds(x, k)
  {
    if CanAlloc(x) {
      if x.nextFd !in x.fds {
        assert Finds(x, 0);
      } else {
        var f :| 0 <= f < MAX_FDS && (3 <= f || x.nextFd <= f) && f !in x.fds;
        var k := ProbeReaches(x.nextFd, f);
        assert Finds(x, k);
      }
    }
    forall k: nat | Finds(x, k) ensures CanAlloc(x) { ProbeStays(x.nextFd, k); }
  }

  /** The `k`-th slot tried is the first free one. */
  ghost predicate FirstAt(x: Proc, k: nat) {
    Finds(x, k) && forall j: nat :: j < k ==> !Finds(x, j)
  }

  lemma {:induction false} FirstExists(x: Proc, k: nat)
    requires Finds(x, k)
    ensures exists i: nat :: FirstAt(x, i)
  {
    if j: nat :| j < k && Finds(x, j) {
      FirstExists(x, j);
    } else {
      assert FirstAt(x, k);
    }
  }

  ghost function FirstProbe(x: Proc): (k: nat)
    requires CanAlloc(x)
    ensures FirstAt(x, k)
  {
    SearchEndsIff(x);
    var i: nat :| Finds(x, i);
    FirstExists(x, i);
    var k: nat :| FirstAt(x, k);
    k
  }

  /** The slot the search ends at. */
  ghost function FirstFree(x: Proc): nat
    requires CanAlloc(x)
  {
    Probe(x.nextFd, FirstProbe(x))
  }

  lemma FirstIs(x: Proc, k: nat)
    requires CanAlloc(x) && k <= FirstProbe(x) && Finds(x, k)
    ensures FirstFree(x) == Probe(x.nextFd, k) && FirstFree(x) !in x.fds
  {
  }

  /** The slot lies within the table's size exactly unless the search starts beyond it, at a free slot. */
  lemma WithinTableIff(x: Proc)
    requires CanAlloc(x)
    ensures FirstFree(x) < MAX_FDS <==> x.nextFd < MAX_FDS || x.nextFd in x.fds
  {
    var k := FirstProbe(x);
    if x.nextFd !in x.fds {
      assert Finds(x, 0);
    } else {
      ProbeStays(x.nextFd, k);
    }
  }

  /**
   Which slot that is: the one the search starts at if that is free; else the least free one
   after it in the table; else the least free one from slot 3 on.
   */
  lemma FirstFreeIs(x: Proc, f: nat)
    requires CanAlloc(x) && x.nextFd in x.fds && f < MAX_FDS && f !in x.fds
    ensures x.nextFd < f ==> x.nextFd < FirstFree(x) <= f
    ensures f < x.nextFd && 3 <= f && (forall g :: x.nextFd < g < MAX_FDS ==> g in x.fds) ==> 3 <= FirstFree(x) <= f
  {
    var k := FirstProbe(x);
    ProbeStays(x.nextFd, k);
    if x.nextFd < f {
      ProbeUp(x.nextFd, f - x.nextFd);
      assert Finds(x, f - x.nextFd);
      ProbeUp(x.nextFd, k);
    } else if f < x.nextFd && 3 <= f && (forall g :: x.nextFd < g < MAX_FDS ==> g in x.fds) {
      var wrap := if x.nextFd >= MAX_FDS then 0 else MAX_FDS - 1 - x.nextFd;
      if x.nextFd < MAX_FDS { ProbeUp(x.nextFd, wrap); }
      assert Probe(x.nextFd, wrap + 1) == 3;
      ProbeUp(3, f - 3);
      ProbeAgain(x.nextFd, wrap + 1, f - 3);
      assert Finds(x, wrap + 1 + (f - 3));
      if k <= wrap { ProbeUp(x.nextFd, k); }
      ProbeUp(3, k - (wrap + 1));
      ProbeAgain(x.nextFd, wrap + 1, k - (wrap + 1));
    }
  }

  /** The table once the first free slot has been filled. */
  ghost function Filled(x: Proc): Proc
    requires CanAlloc(x)
  {
    Proc(x.fds[FirstFree(x) := Other(0)], FirstFree(x) + 1)
  }

  /** The search looks at which slots are in use only. */
  lemma KindsDoNotMatter(x: Proc, y: Proc)
    requires x.fds.Keys == y.fds.Keys && x.nextFd == y.nextFd && CanAlloc(x)
    ensures CanAlloc(y) && FirstFree(x) == FirstFree(y)
  {
    assert forall k: nat :: Finds(x, k) <==> Finds(y, k);
    var i, j := FirstProbe(x), FirstProbe(y);
    assert FirstAt(y, i) && FirstAt(x, j);
    assert i <= j && j <= i;
  }

  lemma HeldSomewhere(procs: map<nat, Proc>, k: Kind, p: nat, fd: nat)
    requires p in procs && fd in procs[p].fds && procs[p].fds[fd] == k
    ensures |Slots(procs, k)| > 0
  {
    InSlots(procs, k, p, fd);
  }

  /** Slots 3 to 1023 filled by opening; the search stands just beyond. */
  method FullTable() returns (k: Kernel)
    ensures k.Valid() && fresh(k) && k.pipes == {} && k.procs.Keys == {1} && k.procs[1].nextFd == MAX_FDS
    ensures forall g :: g in k.procs[1].fds <==> 3 <= g < MAX_FDS
  {
    hide CanAlloc, FirstFree, Slots;
    k := new Kernel({1});
    for f := 3 to MAX_FDS
      invariant k.Valid() && fresh(k) && k.pipes == {} && k.procs.Keys == {1} && k.procs[1].nextFd == f
      invariant forall g :: g in k.procs[1].fds <==> 3 <= g < f
    {
      NextIsFree(k.procs[1]);
      var n := k.Open(1, f);
    }
  }

  /** One more open gets the slot beyond the table's size. */
  method BeyondTable() returns (k: Kernel, n: nat)
    ensures k.Valid() && n == MAX_FDS && 1 in k.procs && n in k.procs[1].fds
  {
    hide CanAlloc, FirstFree, Slots;
    k := FullTable();
    NextIsFree(k.procs[1]);
    n := k.Open(1, 0);
  }

  /** With that slot taken by dup2 the search never ends. */
  method SpinningTable() returns (k: Kernel)
    ensures k.Valid() && 1 in k.procs && !CanAlloc(k.procs[1])
    ensures forall i: nat :: !Finds(k.procs[1], i)
  {
    hide CanAlloc, FirstFree, Slots;
    k := FullTable();
    var ok := k.Dup2(1, 3, MAX_FDS);
    assert !CanAlloc(k.procs[1]) by { AllTaken(k.procs[1]); }
    SearchEndsIff(k.procs[1]);
  }

  lemma NextIsFree(x: Proc)
    requires x.nextFd !in x.fds
    ensures CanAlloc(x) && FirstFree(x) == x.nextFd
  {
    var k := FirstProbe(x);
    assert Finds(x, 0);
  }

  lemma AllTaken(x: Proc)
    requires x.nextFd == MAX_FDS && x.nextFd in x.fds && forall f :: 3 <= f < MAX_FDS ==> f in x.fds
    ensures !CanAlloc(x)
  {
  }
}
