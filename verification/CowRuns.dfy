/**
 Whole runs of the memory manager, from boot on: processes start, fork, read, write, map,
 unmap and end, while the rest of the kernel takes and returns frames. Every call gets the
 answer of the machine that copies memory at fork. A call is refused for want of a frame
 only when that machine's pages and the kernel's own frames would not fit the memory.
 */
module CowRuns {
  import opened Wrappers
  import opened VmRegions
  import opened CowState
  import opened CowFrames
  import opened CowMachine
  import DeepCopy

  /** A fault finds a frame for its copy whenever the copying machine's pages fit beside the kernel's frames. */
  lemma CopyFindsFrame(s: State, a: DeepCopy.Plain, p: nat, v: nat)
    requires Inv(s) && DeepCopy.Refines(s, a) && |Pages(a)| + |s.kernel| <= |s.frames|
    ensures |s.refs| == MAX_FRAMES && !OutOfFrames(s, p, v)
  {
    hide Users, UsersOf, DeepCopy.Refines, Pages, Find, PageOk, RegionsOk, RootsOk;
    if OutOfFrames(s, p, v) {
      var f := PteAt(s, p, v).frame;
      UsedHaveUsers(s);
      FrameCounted(s, p, v);
      SoleUser(s, p, v);
      var used := s.frames - s.kernel;
      assert s.frames == used + s.kernel;
      assert f in used by { FrameShape(s, f); }
      FramesAtMostUsers(s, used - {f});
      UsersOfSplit(s, used, f);
      UsersOfPages(s, a, used);
    }
  }

  // ---- The copying machine ----

  datatype Op =
    | Spawn(p: nat)
    | Fork(p: nat, c: nat)
    | Load(p: nat, vaddr: nat)
    | Store(p: nat, vaddr: nat, b: byte)
    | Map(p: nat, hint: Option<nat>, len: nat, prot: Prot, fixed: bool, shared: bool, data: Option<seq<byte>>)
    | Unmap(p: nat, addr: nat, len: nat)
    | Exit(p: nat)
    | KernelTakes
    | KernelGives

  datatype Answer =
    | Done
    | Missing
    | Made(ok: bool)
    | Byte(value: Option<byte>)
    | Stored(ok: bool)
    | At(addr: Option<nat>)

  /** The copying machine, and how many frames the kernel holds for itself. */
  datatype Abs = Abs(plain: DeepCopy.Plain, held: nat)

  /** What the copying machine leaves open: names for new shared pages, and whether a frame was lacking. */
  datatype Choice = Choice(ids: seq<nat>, failed: bool)

  /** The processes the call names exist, and those it makes do not. */
  predicate Applies(processes: set<nat>, op: Op) {
    match op
    case Spawn(p) => p !in processes
    case Fork(p, c) => p in processes && c !in processes
    case KernelTakes => true
    case KernelGives => true
    case _ => op.p in processes
  }

  predicate BadAddress(op: Op)
    requires op.Map?
  {
    op.fixed && !FixedOk(op.hint, PagesFor(op.len))
  }

  /** Where a mapping goes, and the bump pointer afterwards. */
  ghost function Target(a: DeepCopy.Plain, op: Op): (nat, nat)
    requires op.Map? && op.p in a.spaces && (op.fixed ==> op.hint.Some?)
  {
    if op.fixed then (op.hint.value / PAGE_SIZE, a.spaces[op.p].mmapBase)
    else PickAddr(PageOf(op.hint), PagesFor(op.len), a.spaces[op.p].regions, a.spaces[op.p].mmapBase)
  }

  /** The machine just before a mapping: a fixed one first clears its range. */
  ghost function Ready(a: DeepCopy.Plain, op: Op): (b: DeepCopy.Plain)
    requires op.Map? && op.p in a.spaces && (op.fixed ==> op.hint.Some?)
    ensures op.p in b.spaces
  {
    if op.fixed then Cleared(a, op.p, Target(a, op).0, PagesFor(op.len)) else a
  }

  /** The mapping would land on another one. */
  ghost predicate Overlap(a: DeepCopy.Plain, op: Op) {
    && op.Map? && op.p in a.spaces && !op.fixed
    && Collides(PageOf(op.hint), PagesFor(op.len), a.spaces[op.p].regions, a.spaces[op.p].mmapBase)
  }

  /** The copying machine's pages and the kernel's frames leave room for what the call needs. */
  ghost predicate Fits(a: Abs, op: Op, frames: nat) {
    match op
    case Spawn(_) => |Pages(a.plain)| + a.held < frames
    case Fork(_, _) => |Pages(a.plain)| + a.held < frames
    case KernelTakes => |Pages(a.plain)| + a.held < frames
    case Store(_, _, _) => |Pages(a.plain)| + a.held <= frames
    case Map(p, _, len, _, _, _, _) =>
      p in a.plain.spaces && !BadAddress(op) ==> |Pages(Ready(a.plain, op))| + a.held + PagesFor(len) <= frames
    case _ => true
  }

  /**
   The calls a run does not get past: a mapping that collides, a fork with 65535 processes,
   and a store that needs a copy for which the memory does not suffice.
   */
  ghost predicate Stops(a: Abs, op: Op, frames: nat) {
    && Applies(a.plain.spaces.Keys, op)
    && (Overlap(a.plain, op)
        || (op.Fork? && |a.plain.spaces| >= MAX_REFS)
        || (op.Store? && DeepCopy.MayWrite(a.plain, op.p, op.vaddr / PAGE_SIZE) && !Fits(a, op, frames)))
  }

  /** Names for `n` pages of shared memory. */
  ghost function Names(ids: seq<nat>, n: nat): (r: seq<nat>)
    ensures |r| == n
  {
    if |ids| == n then ids else seq(n, _ => 0)
  }

  ghost function NextMap(a: DeepCopy.Plain, op: Op, ch: Choice): DeepCopy.Plain
    requires op.Map? && op.p in a.spaces
  {
    if BadAddress(op) then a
    else
      var (lo, base) := Target(a, op);
      var b, pages := Ready(a, op), PagesFor(op.len);
      if ch.failed then DeepCopy.WithRegions(b, op.p, b.spaces[op.p].regions, base)
      else
        var r := NewRegion(lo, op.len, op.prot, op.shared, op.data);
        DeepCopy.Mmap(b, op.p, r, base, Names(ch.ids, pages), Contents(op.data, pages))
  }

  /** What the copying machine does. */
  ghost function Next(a: Abs, op: Op, ch: Choice): Abs {
    if !Applies(a.plain.spaces.Keys, op) then a
    else match op
      case Spawn(p) => if ch.failed then a else Abs(DeepCopy.Spawned(a.plain, p), a.held + 1)
      case Fork(p, c) => if ch.failed then a else Abs(DeepCopy.Fork(a.plain, p, c), a.held + 1)
      case Load(_, _) => a
      case Store(p, vaddr, b) =>
        if DeepCopy.MayWrite(a.plain, p, vaddr / PAGE_SIZE) && DeepCopy.ByteAt(a.plain, p, vaddr).Some?
        then a.(plain := DeepCopy.Store(a.plain, p, vaddr / PAGE_SIZE, vaddr % PAGE_SIZE, b)) else a
      case Map(_, _, _, _, _, _, _) => a.(plain := NextMap(a.plain, op, ch))
      case Unmap(p, addr, len) =>
        if len == 0 then a
        else a.(plain := DeepCopy.Unmap(a.plain, p, addr / PAGE_SIZE, (addr + len + PAGE_SIZE - 1) / PAGE_SIZE))
      case Exit(p) => Abs(a.plain.(spaces := a.plain.spaces - {p}), if a.held > 0 then a.held - 1 else 0)
      case KernelTakes => if ch.failed then a else a.(held := a.held + 1)
      case KernelGives => if a.held > |a.plain.spaces| then a.(held := a.held - 1) else a
  }

  /** What the copying machine answers. */
  ghost function Reply(a: Abs, op: Op, ch: Choice): Answer {
    if !Applies(a.plain.spaces.Keys, op) then Missing
    else match op
      case Spawn(_) => Made(!ch.failed)
      case Fork(_, _) => Made(!ch.failed)
      case Load(p, vaddr) => Byte(DeepCopy.ByteAt(a.plain, p, vaddr))
      case Store(p, vaddr, _) => Stored(DeepCopy.MayWrite(a.plain, p, vaddr / PAGE_SIZE))
      case Map(_, _, _, _, _, _, _) =>
        if BadAddress(op) || ch.failed then At(None) else At(Some(Target(a.plain, op).0 * PAGE_SIZE))
      case KernelTakes => Made(!ch.failed)
      case KernelGives => Made(a.held > |a.plain.spaces|)
      case _ => Done
  }

  /**
   A frame is lacking only when memory does not suffice, no mapping lands on another one, and
   names given to shared pages are not in use.
   */
  ghost predicate Fair(a: Abs, op: Op, ch: Choice, frames: nat) {
    && (ch.failed ==> !Fits(a, op, frames)) && !Overlap(a.plain, op)
    && (op.Map? && op.p in a.plain.spaces && !BadAddress(op) && !ch.failed ==>
          |ch.ids| == PagesFor(op.len) && FreshNames(Ready(a.plain, op), ch.ids))
  }

  ghost function After(a: Abs, ops: seq<Op>, choices: seq<Choice>): Abs
    requires |choices| == |ops|
  {
    if ops == [] then a
    else
      var n := |ops| - 1;
      Next(After(a, ops[..n], choices[..n]), ops[n], choices[n])
  }

  ghost function Replies(a: Abs, ops: seq<Op>, choices: seq<Choice>): seq<Answer>
    requires |choices| == |ops|
  {
    if ops == [] then []
    else
      var n := |ops| - 1;
      Replies(a, ops[..n], choices[..n]) + [Reply(After(a, ops[..n], choices[..n]), ops[n], choices[n])]
  }

  /** The copying machine, started at `a`, gives `answers` to `ops` under fair choices. */
  ghost predicate Ran(a: Abs, ops: seq<Op>, answers: seq<Answer>, choices: seq<Choice>, frames: nat) {
    && |choices| == |ops| && answers == Replies(a, ops, choices)
    && forall i :: 0 <= i < |ops| ==> Fair(After(a, ops[..i], choices[..i]), ops[i], choices[i], frames)
  }

  lemma RanNothing(a: Abs, frames: nat)
    ensures Ran(a, [], [], [], frames) && After(a, [], []) == a
  {
  }

  lemma RanNext(a: Abs, ops: seq<Op>, answers: seq<Answer>, choices: seq<Choice>, frames: nat, op: Op, ch: Choice)
    requires Ran(a, ops, answers, choices, frames) && Fair(After(a, ops, choices), op, ch, frames)
    ensures var b := After(a, ops, choices);
      && Ran(a, ops + [op], answers + [Reply(b, op, ch)], choices + [ch], frames)
      && After(a, ops + [op], choices + [ch]) == Next(b, op, ch)
  {
    hide Next, Reply, Fair;
    var more, all, n := ops + [op], choices + [ch], |ops|;
    assert more[..n] == ops && all[..n] == choices;
    forall i | 0 <= i < |more| ensures Fair(After(a, more[..i], all[..i]), more[i], all[i], frames) {
      if i < n { assert more[..i] == ops[..i] && all[..i] == choices[..i]; }
    }
  }

  // ---- The copy-on-write machine ----

  /** Where a mapping goes does not depend on the copy-on-write marks. */
  lemma SamePlace(s: State, a: DeepCopy.Plain, p: nat, hint: Option<nat>, pages: nat)
    requires DeepCopy.Refines(s, a) && p in s.spaces && p in a.spaces
    ensures var rs, qs, base := s.spaces[p].regions, a.spaces[p].regions, s.spaces[p].mmapBase;
      && a.spaces[p].mmapBase == base && PickAddr(hint, pages, rs, base) == PickAddr(hint, pages, qs, base)
      && (Collides(hint, pages, rs, base) <==> Collides(hint, pages, qs, base))
  {
    hide DeepCopy.Refines;
    DeepCopy.SameSpace(s, a, p);
    var rs, qs, base := s.spaces[p].regions, a.spaces[p].regions, s.spaces[p].mmapBase;
    assert forall i :: 0 <= i < |rs| ==> qs[i].start == rs[i].start && qs[i].end == rs[i].end;
    if hint.Some? { SameOverlaps(rs, qs, hint.value, hint.value + pages); }
    SameShares(rs, qs, base, base + pages);
  }

  ghost predicate SameEnds(rs: seq<Region>, qs: seq<Region>) {
    |rs| == |qs| && forall i :: 0 <= i < |rs| ==> qs[i].start == rs[i].start && qs[i].end == rs[i].end
  }

  lemma SameOverlaps(rs: seq<Region>, qs: seq<Region>, lo: nat, hi: nat)
    requires SameEnds(rs, qs)
    ensures Overlaps(rs, lo, hi) <==> Overlaps(qs, lo, hi)
  {
    if Overlaps(rs, lo, hi) {
      var i :| 0 <= i < |rs| && rs[i].start < hi && rs[i].end > lo;
      assert qs[i].start < hi && qs[i].end > lo;
    }
  }

  lemma SameShares(rs: seq<Region>, qs: seq<Region>, lo: nat, hi: nat)
    requires SameEnds(rs, qs)
    ensures SharesPage(rs, lo, hi) <==> SharesPage(qs, lo, hi)
  {
    if SharesPage(rs, lo, hi) {
      var i :| 0 <= i < |rs| && Max(rs[i].start, lo) < Min(rs[i].end, hi);
      assert Max(qs[i].start, lo) < Min(qs[i].end, hi);
    }
  }

  ghost function AbsOf(m: Machine): Abs
    reads m
  {
    Abs(m.plain, |m.kernel|)
  }

  lemma SameProcesses(m: Machine)
    requires m.Valid()
    ensures m.spaces.Keys == m.plain.spaces.Keys && |m.spaces| == |m.plain.spaces| && |m.spaces| <= |m.kernel|
  {
    assert |m.spaces| == |m.spaces.Keys| && |m.plain.spaces| == |m.plain.spaces.Keys|;
    RootsCount(m.St());
  }

  method ServeMap(m: Machine, op: Op) returns (answer: Answer, ghost ch: Choice, stop: bool)
    requires m.Valid() && op.Map? && op.p in m.spaces
    modifies m`spaces, m`mem, m`free, m`plain, m.refs
    ensures stop <==> old(Overlap(m.plain, op))
    ensures !stop ==> m.Valid() && answer == Reply(old(AbsOf(m)), op, ch) && AbsOf(m) == Next(old(AbsOf(m)), op, ch)
    ensures !stop ==> Fair(old(AbsOf(m)), op, ch, |m.frames|)
  {
    hide Inv, DeepCopy.Refines, PickAddr, Collides, Pages, DeepCopy.Mmap, Contents, Cleared, FreshNames;
    hide DeepCopy.WithRegions;
    SameProcesses(m);
    SamePlace(m.St(), m.plain, op.p, PageOf(op.hint), PagesFor(op.len));
    FreeFrames(m.St(), m.plain);
    var space := m.spaces[op.p];
    answer, ch, stop := Done, Choice([], false), false;
    if !op.fixed && Collides(PageOf(op.hint), PagesFor(op.len), space.regions, space.mmapBase) {
      return Done, ch, true;
    }
    ghost var ids;
    var addr: Option<nat>;
    addr, ids := m.Mmap(op.p, op.hint, op.len, op.prot, op.fixed, op.shared, op.data);
    ch := Choice(ids, !BadAddress(op) && addr.None?);
    answer := At(addr);
  }

  /** One call on a process that exists, other than mapping. */
  method ServeProcess(m: Machine, op: Op) returns (answer: Answer, ghost ch: Choice, stop: bool)
    requires m.Valid() && Applies(m.spaces.Keys, op) && !op.Map? && !op.KernelTakes? && !op.KernelGives?
    modifies m, m.refs
    ensures stop ==> Stops(old(AbsOf(m)), op, |m.frames|)
    ensures !stop ==> m.Valid() && answer == Reply(old(AbsOf(m)), op, ch) && AbsOf(m) == Next(old(AbsOf(m)), op, ch)
    ensures !stop ==> Fair(old(AbsOf(m)), op, ch, |m.frames|)
  {
    hide Inv, DeepCopy.Refines, Pages, DeepCopy.Fork, DeepCopy.Unmap, DeepCopy.Store, DeepCopy.MayWrite;
    hide DeepCopy.Spawned;
    SameProcesses(m);
    FreeFrames(m.St(), m.plain);
    answer, ch, stop := Done, Choice([], false), false;
    match op {
      case Spawn(p) =>
        var ok := m.Spawn(p);
        answer, ch := Made(ok), Choice([], !ok);
      case Fork(p, c) =>
        if |m.spaces| >= MAX_REFS { return Done, ch, true; }
        FewProcesses(m.St(), p);
        var ok := m.Fork(p, c);
        answer, ch := Made(ok), Choice([], !ok);
      case Load(p, vaddr) =>
        var value := m.Read(p, vaddr);
        answer := Byte(value);
      case Store(p, vaddr, b) =>
        ghost var s, a := m.St(), m.plain;
        var r := m.Write(p, vaddr, b);
        if r.NoFrame? {
          if |Pages(a)| + |s.kernel| <= |s.frames| { CopyFindsFrame(s, a, p, vaddr / PAGE_SIZE); }
          return Done, ch, true;
        }
        answer := Stored(r.Written?);
      case Unmap(p, addr, len) => m.Munmap(p, addr, len);
      case Exit(p) => m.Release(p);
    }
  }

  /** One call; `stop` when the run does not get past it. */
  method Serve(m: Machine, op: Op) returns (answer: Answer, ghost ch: Choice, stop: bool)
    requires m.Valid()
    modifies m, m.refs
    ensures stop ==> Stops(old(AbsOf(m)), op, |m.frames|)
    ensures !stop ==> m.Valid() && answer == Reply(old(AbsOf(m)), op, ch) && AbsOf(m) == Next(old(AbsOf(m)), op, ch)
    ensures !stop ==> Fair(old(AbsOf(m)), op, ch, |m.frames|)
  {
    hide Inv, DeepCopy.Refines, Pages, Ready, Target, DeepCopy.MayWrite, NextMap, Collides, FreshNames;
    SameProcesses(m);
    answer, ch, stop := Missing, Choice([], false), false;
    if !Applies(m.spaces.Keys, op) { return Missing, Choice([], false), false; }
    FreeFrames(m.St(), m.plain);
    match op {
      case Map(_, _, _, _, _, _, _) => answer, ch, stop := ServeMap(m, op);
      case KernelTakes =>
        var ok := m.KernelTakes();
        answer, ch := Made(ok), Choice([], !ok);
      case KernelGives =>
        var ok := m.KernelGives();
        answer := Made(ok);
      case _ => answer, ch, stop := ServeProcess(m, op);
    }
  }

  /** Any calls on any valid machine get the copying machine's answers, up to the first that stops the run. */
  method Replay(m: Machine, ops: seq<Op>) returns (answers: seq<Answer>, ghost choices: seq<Choice>)
    requires m.Valid()
    modifies m, m.refs
    ensures |answers| == |choices| <= |ops|
    ensures Ran(old(AbsOf(m)), ops[..|answers|], answers, choices, |m.frames|)
    ensures |answers| == |ops| ==> m.Valid() && AbsOf(m) == After(old(AbsOf(m)), ops, choices)
    ensures |answers| < |ops| ==> Stops(After(old(AbsOf(m)), ops[..|answers|], choices), ops[|answers|], |m.frames|)
  {
    hide Inv, DeepCopy.Refines, Next, Reply, Replies, Fair, Stops, Ran;
    answers, choices := [], [];
    ghost var a, frames := AbsOf(m), |m.frames|;
    RanNothing(a, frames);
    for i := 0 to |ops|
      invariant m.Valid() && |answers| == |choices| == i && Ran(a, ops[..i], answers, choices, frames)
      invariant AbsOf(m) == After(a, ops[..i], choices)
    {
      var answer, stop;
      ghost var ch;
      answer, ch, stop := Serve(m, ops[i]);
      if stop { return; }
      RanNext(a, ops[..i], answers, choices, frames, ops[i], ch);
      assert ops[..i] + [ops[i]] == ops[..i + 1];
      answers, choices := answers + [answer], choices + [ch];
    }
    assert ops[..|ops|] == ops;
  }

  /** Under these choices the copying machine gives the answers, and the run ends early only where it stops. */
  ghost predicate Explains(a: Abs, ops: seq<Op>, answers: seq<Answer>, choices: seq<Choice>, frames: nat) {
    && |answers| == |choices| <= |ops| && Ran(a, ops[..|answers|], answers, choices, frames)
    && (|answers| < |ops| ==> Stops(After(a, ops[..|answers|], choices), ops[|answers|], frames))
  }

  /** The same from boot, when no process runs and all usable frames are free. */
  method BootAndReplay(usable: set<nat>, ops: seq<Op>) returns (answers: seq<Answer>)
    requires forall f :: f in usable ==> f < MAX_FRAMES
    ensures exists choices :: Explains(Abs(DeepCopy.Plain(map[], map[]), 0), ops, answers, choices, |usable|)
  {
    hide Inv, DeepCopy.Refines, Stops, Ran, After;
    var m := new Machine(usable);
    ghost var choices;
    answers, choices := Replay(m, ops);
    assert Explains(Abs(DeepCopy.Plain(map[], map[]), 0), ops, answers, choices, |usable|);
  }
}
