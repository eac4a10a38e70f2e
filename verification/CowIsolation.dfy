/**
 What runs guarantee to a process: its memory is its own, and mappings the kernel places
 do not collide while nobody maps above the bump pointer.
 */
module CowIsolation {
  import opened Wrappers
  import opened VmRegions
  import opened CowState
  import opened CowMachine
  import opened CowRuns
  import DeepCopy

  // ---- Isolation ----

  lemma {:induction false} PopulateElsewhere(
    a: DeepCopy.Plain, p: nat, lo: nat, shared: bool, ids: seq<nat>, contents: seq<Content>, q: nat)
    requires p in a.spaces && q in a.spaces && p != q && |ids| == |contents|
    ensures DeepCopy.Populate(a, p, lo, shared, ids, contents).spaces[q] == a.spaces[q]
    decreases |contents|
  {
    var n := |contents|;
    if n == 0 {
    } else {
      PopulateElsewhere(a, p, lo, shared, ids[..n - 1], contents[..n - 1], q);
    }
  }

  /** The operation neither is by process `q` nor makes it. */
  predicate ByOther(op: Op, q: nat) {
    op.KernelTakes? || op.KernelGives? || (op.p != q && (op.Fork? ==> op.c != q))
  }

  lemma MapElsewhere(a: DeepCopy.Plain, op: Op, ch: Choice, q: nat)
    requires op.Map? && op.p in a.spaces && q in a.spaces && op.p != q
    ensures q in NextMap(a, op, ch).spaces && NextMap(a, op, ch).spaces[q] == a.spaces[q]
  {
    hide DeepCopy.Populate, PickAddr, Contents, Cut, Names;
    if !BadAddress(op) && !ch.failed {
      var lo, pages := Target(a, op).0, PagesFor(op.len);
      PopulateElsewhere(Ready(a, op), op.p, lo, op.shared, Names(ch.ids, pages), Contents(op.data, pages), q);
    }
  }

  lemma NextElsewhere(a: Abs, op: Op, ch: Choice, q: nat)
    requires q in a.plain.spaces && ByOther(op, q)
    ensures var b := Next(a, op, ch).plain; q in b.spaces && b.spaces[q] == a.plain.spaces[q]
  {
    hide NextMap, Cut;
    if op.Map? && op.p in a.plain.spaces { MapElsewhere(a.plain, op, ch, q); }
  }

  /** Whatever the others do, a process's own pages and regions stay as they are. */
  lemma {:induction false} Undisturbed(a: Abs, ops: seq<Op>, choices: seq<Choice>, q: nat)
    requires q in a.plain.spaces && |choices| == |ops| && forall i :: 0 <= i < |ops| ==> ByOther(ops[i], q)
    ensures var b := After(a, ops, choices).plain; q in b.spaces && b.spaces[q] == a.plain.spaces[q]
  {
    hide Next;
    if ops == [] {
    } else {
      var n := |ops| - 1;
      Undisturbed(a, ops[..n], choices[..n], q);
      NextElsewhere(After(a, ops[..n], choices[..n]), ops[n], choices[n], q);
    }
  }

  /** The page is the process's own, not MAP_SHARED memory. */
  ghost predicate OwnPage(a: DeepCopy.Plain, p: nat, vaddr: nat) {
    DeepCopy.Present(a, p, vaddr / PAGE_SIZE) && a.spaces[p].pages[vaddr / PAGE_SIZE].Private?
  }

  lemma SnapshotKept(a: Abs, p: nat, c: nat, ops: seq<Op>, choices: seq<Choice>, vaddr: nat, held: nat)
    requires p in a.plain.spaces && c !in a.plain.spaces && OwnPage(a.plain, p, vaddr)
    requires |choices| == |ops| && forall i :: 0 <= i < |ops| ==> ByOther(ops[i], c)
    ensures DeepCopy.ByteAt(After(Abs(DeepCopy.Fork(a.plain, p, c), held), ops, choices).plain, c, vaddr) ==
      DeepCopy.ByteAt(a.plain, p, vaddr)
  {
    hide After;
    Undisturbed(Abs(DeepCopy.Fork(a.plain, p, c), held), ops, choices, c);
  }

  /**
   On the copy-on-write machine: read a byte of the parent's private memory, fork, let all
   others do what they like, and read the child. The child still has the parent's byte.
   */
  method Snapshot(m: Machine, p: nat, c: nat, ops: seq<Op>, vaddr: nat)
    returns (forked: bool, before: Option<byte>, after: Option<byte>, answers: seq<Answer>, ghost choices: seq<Choice>)
    requires m.Valid() && p in m.spaces && c !in m.spaces && RoomToFork(m.St(), p) && OwnPage(m.plain, p, vaddr)
    requires forall i :: 0 <= i < |ops| ==> ByOther(ops[i], c)
    modifies m, m.refs
    ensures p in old(m.plain.spaces) && before.Some? && (forked <==> old(m.free) != {})
    ensures |answers| == |choices| <= |ops|
    ensures forked && |answers| == |ops| ==> after == before
    ensures forked && |answers| < |ops| ==>
      var a := Abs(DeepCopy.Fork(old(m.plain), p, c), |old(m.kernel)| + 1);
      Stops(After(a, ops[..|answers|], choices), ops[|answers|], |m.frames|)
  {
    hide Inv, DeepCopy.Refines, After, Ran, Stops, ByOther, DeepCopy.Fork;
    ghost var a := AbsOf(m);
    SameProcesses(m);
    before := m.Read(p, vaddr);
    after, answers, choices := None, [], [];
    forked := m.Fork(p, c);
    if !forked { return; }
    ghost var held := |m.kernel|;
    answers, choices := Replay(m, ops);
    if |answers| < |ops| { return; }
    SnapshotKept(a, p, c, ops, choices, vaddr, held);
    SameProcesses(m);
    ForkHasChild(a.plain, p, c);
    Undisturbed(Abs(DeepCopy.Fork(a.plain, p, c), held), ops, choices, c);
    after := m.Read(c, vaddr);
  }

  lemma ForkHasChild(a: DeepCopy.Plain, p: nat, c: nat)
    requires p in a.spaces
    ensures c in DeepCopy.Fork(a, p, c).spaces
  {
  }

  // ---- Collisions ----

  /** All regions lie below their process's bump pointer. */
  ghost predicate Settled(a: DeepCopy.Plain) {
    forall p :: p in a.spaces ==> BelowBase(a.spaces[p].regions, a.spaces[p].mmapBase)
  }

  /** A mapping whose address the caller chose ends at or below the bump pointer. */
  ghost predicate Tame(a: DeepCopy.Plain, op: Op) {
    op.Map? && op.p in a.spaces && !BadAddress(op) ==>
      var space := a.spaces[op.p];
      (op.fixed || HintTaken(PageOf(op.hint), PagesFor(op.len), space.regions)) ==>
        Target(a, op).0 + PagesFor(op.len) <= space.mmapBase
  }

  lemma {:induction false} PopulateRegions(
    a: DeepCopy.Plain, p: nat, lo: nat, shared: bool, ids: seq<nat>, contents: seq<Content>)
    requires p in a.spaces && |ids| == |contents|
    ensures var b := DeepCopy.Populate(a, p, lo, shared, ids, contents);
      && b.spaces.Keys == a.spaces.Keys
      && forall q :: q in a.spaces ==>
        b.spaces[q].regions == a.spaces[q].regions && b.spaces[q].mmapBase == a.spaces[q].mmapBase
    decreases |contents|
  {
    var n := |contents|;
    if n == 0 {
    } else {
      PopulateRegions(a, p, lo, shared, ids[..n - 1], contents[..n - 1]);
    }
  }

  lemma ReadySettled(a: DeepCopy.Plain, op: Op)
    requires Settled(a) && op.Map? && op.p in a.spaces && !BadAddress(op)
    ensures var b := Ready(a, op);
      && Settled(b) && b.spaces.Keys == a.spaces.Keys && b.spaces[op.p].mmapBase == a.spaces[op.p].mmapBase
  {
    hide Cut, BelowBase;
    if op.fixed && PagesFor(op.len) > 0 {
      var lo := Target(a, op).0;
      CutBelowBase(a.spaces[op.p].regions, lo, lo + PagesFor(op.len), a.spaces[op.p].mmapBase);
    }
  }

  lemma MapSettled(a: DeepCopy.Plain, op: Op, ch: Choice)
    requires Settled(a) && op.Map? && op.p in a.spaces && Tame(a, op)
    ensures Settled(NextMap(a, op, ch))
  {
    hide DeepCopy.Populate, Ready, Contents, Names, HintTaken;
    if !BadAddress(op) {
      ReadySettled(a, op);
      var b, pages := Ready(a, op), PagesFor(op.len);
      var (lo, base) := Target(a, op);
      PopulateRegions(b, op.p, lo, op.shared, Names(ch.ids, pages), Contents(op.data, pages));
    }
  }

  lemma NextSettled(a: Abs, op: Op, ch: Choice)
    requires Settled(a.plain) && Tame(a.plain, op)
    ensures Settled(Next(a, op, ch).plain)
  {
    hide NextMap, Cut, BelowBase, Tame;
    if Applies(a.plain.spaces.Keys, op) {
      match op {
        case Spawn(p) => EmptyBelow(MMAP_BASE_PAGE);
        case Map(_, _, _, _, _, _, _) => MapSettled(a.plain, op, ch);
        case Unmap(p, addr, len) =>
          var space := a.plain.spaces[p];
          CutBelowBase(space.regions, addr / PAGE_SIZE, (addr + len + PAGE_SIZE - 1) / PAGE_SIZE, space.mmapBase);
        case _ =>
      }
    }
  }

  lemma EmptyBelow(base: nat)
    ensures BelowBase([], base)
  {
  }

  /** While all mappings at chosen addresses end below the bump pointer, no mapping collides, over any run. */
  lemma {:induction false} TameNeverCollides(a: Abs, ops: seq<Op>, choices: seq<Choice>, op: Op)
    requires Settled(a.plain) && |choices| == |ops|
    requires forall i :: 0 <= i < |ops| ==> Tame(After(a, ops[..i], choices[..i]).plain, ops[i])
    ensures Settled(After(a, ops, choices).plain) && !Overlap(After(a, ops, choices).plain, op)
  {
    hide Next, Tame, Collides, BelowBase;
    if ops == [] {
    } else {
      var n := |ops| - 1;
      forall i | 0 <= i < n ensures Tame(After(a, ops[..n][..i], choices[..n][..i]).plain, ops[..n][i]) {
        assert ops[..n][..i] == ops[..i] && choices[..n][..i] == choices[..i];
      }
      TameNeverCollides(a, ops[..n], choices[..n], op);
      NextSettled(After(a, ops[..n], choices[..n]), ops[n], choices[n]);
    }
    var b := After(a, ops, choices).plain;
    if op.Map? && op.p in b.spaces {
      BelowBaseNeverCollides(PageOf(op.hint), PagesFor(op.len), b.spaces[op.p].regions, b.spaces[op.p].mmapBase);
    }
  }
}
