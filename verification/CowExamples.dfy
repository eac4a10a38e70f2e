/**
 Two runs on small machines in which the memory manager breaks its own rules: a write fault
 without a free frame, and a mapping placed on top of another one.
 */
module CowExamples {
  import opened Wrappers
  import opened VmRegions
  import opened CowState
  import opened CowFrames
  import opened CowMachine
  import opened CowRuns
  import DeepCopy

  const READ_WRITE := Prot(true, true, false)

  /** One page of private memory at `page`. */
  function OnePageAt(page: nat): Region {
    Region(page, page + 1, READ_WRITE, Anonymous, false, false)
  }

  /** The copying machine with one process and one private page. */
  ghost predicate OneProcess(a: DeepCopy.Plain, page: nat, base: nat) {
    && a.spaces.Keys == {1} && a.spaces[1].pages.Keys == {page} && a.spaces[1].pages[page].Private?
    && a.spaces[1].regions == [OnePageAt(page)] && a.spaces[1].mmapBase == base
  }

  lemma FirstMapping(a: DeepCopy.Plain, base: nat, ids: seq<nat>, contents: seq<Content>)
    requires |ids| == |contents| == 1
    ensures var b := DeepCopy.Spawned(DeepCopy.Plain(map[], map[]), 1);
      OneProcess(DeepCopy.Mmap(b, 1, OnePageAt(MMAP_BASE_PAGE), base, ids, contents), MMAP_BASE_PAGE, base)
  {
    var b := DeepCopy.Spawned(DeepCopy.Plain(map[], map[]), 1);
    assert ids[..0] == [] && contents[..0] == [];
    assert DeepCopy.Populate(b, 1, MMAP_BASE_PAGE, false, [], []) == b;
  }

  lemma OneProcessPages(a: DeepCopy.Plain, page: nat, base: nat)
    requires OneProcess(a, page, base)
    ensures Pages(a) == {(1, page)}
  {
  }

  /** A machine with three frames and one process. */
  method FirstProcess() returns (m: Machine)
    ensures m.Valid() && fresh(m) && fresh(m.refs) && |m.frames| == 3 && |m.kernel| == 1 && |m.free| >= 2
    ensures m.plain == DeepCopy.Spawned(DeepCopy.Plain(map[], map[]), 1)
    ensures m.spaces.Keys == {1} && m.spaces[1].regions == [] && m.spaces[1].mmapBase == MMAP_BASE_PAGE
  {
    hide Inv, DeepCopy.Refines, DeepCopy.Strip;
    m := new Machine({1, 2, 3});
    var ok := m.Spawn(1);
    SameProcesses(m);
    FreeFrames(m.St(), m.plain);
    assert Pages(m.plain) == {};
    DeepCopy.SameSpace(m.St(), m.plain, 1);
    StripNothing(m.spaces[1].regions);
  }

  lemma StripNothing(rs: seq<Region>)
    requires DeepCopy.Strip(rs) == []
    ensures rs == []
  {
  }

  /** On an empty region list the mapping goes to the bottom of the mapping area, hint or not. */
  lemma FirstPlace(hint: Option<nat>)
    requires hint.Some? ==> hint.value == MMAP_BASE_PAGE * PAGE_SIZE
    ensures PagesFor(PAGE_SIZE) == 1 && !Collides(PageOf(hint), 1, [], MMAP_BASE_PAGE)
    ensures PickAddr(PageOf(hint), 1, [], MMAP_BASE_PAGE) == (MMAP_BASE_PAGE, FirstBase(hint))
    ensures NewRegion(MMAP_BASE_PAGE, PAGE_SIZE, READ_WRITE, false, None) == OnePageAt(MMAP_BASE_PAGE)
  {
  }

  function FirstBase(hint: Option<nat>): nat {
    if hint.Some? then MMAP_BASE_PAGE else MMAP_BASE_PAGE + 2
  }

  /** The same with one page at the bottom of the mapping area. */
  method SmallMachine(hint: Option<nat>) returns (m: Machine, addr: nat)
    requires hint.Some? ==> hint.value == MMAP_BASE_PAGE * PAGE_SIZE
    ensures m.Valid() && fresh(m) && fresh(m.refs) && |m.frames| == 3 && |m.kernel| == 1 && m.spaces.Keys == {1}
    ensures addr == MMAP_BASE_PAGE * PAGE_SIZE && OneProcess(m.plain, MMAP_BASE_PAGE, FirstBase(hint))
  {
    hide Inv, DeepCopy.Refines, DeepCopy.Mmap, OneProcess, FreshNames, Contents, Disjoint, Collides, PickAddr;
    hide PagesFor, NewRegion, PageOf, FirstBase, DeepCopy.Spawned;
    m := FirstProcess();
    FirstPlace(hint);
    var got;
    ghost var ids;
    got, ids := m.Mmap(1, hint, PAGE_SIZE, READ_WRITE, false, false, None);
    FirstMapping(m.plain, FirstBase(hint), ids, Contents(None, 1));
    addr := got.value;
    SameProcesses(m);
    OneProcessKeys(m.plain, MMAP_BASE_PAGE, FirstBase(hint));
  }

  lemma OneProcessKeys(a: DeepCopy.Plain, page: nat, base: nat)
    requires OneProcess(a, page, base)
    ensures a.spaces.Keys == {1}
  {
  }

  /** A mapping at the bump pointer is taken by hint; the next one without a hint lands on it. */
  method BumpCollides() returns (m: Machine, first: nat, second: Option<nat>)
    ensures first == MMAP_BASE_PAGE * PAGE_SIZE && second == Some(first)
    ensures 1 in m.spaces && !Disjoint(m.spaces[1].regions) && !m.Valid()
  {
    hide Inv, DeepCopy.Refines, OneProcess;
    m, first := SmallMachine(Some(MMAP_BASE_PAGE * PAGE_SIZE));
    OneProcessPages(m.plain, MMAP_BASE_PAGE, MMAP_BASE_PAGE);
    FreeFrames(m.St(), m.plain);
    SamePlace(m.St(), m.plain, 1, None, 1);
    PageTaken(m.plain);
    ghost var ids;
    second, ids := m.Mmap(1, None, PAGE_SIZE, READ_WRITE, false, false, None);
  }

  lemma PageTaken(a: DeepCopy.Plain)
    requires OneProcess(a, MMAP_BASE_PAGE, MMAP_BASE_PAGE)
    ensures 1 in a.spaces && a.spaces[1].mmapBase == MMAP_BASE_PAGE
    ensures Collides(None, 1, a.spaces[1].regions, MMAP_BASE_PAGE)
  {
    var rs := a.spaces[1].regions;
    assert Max(rs[0].start, MMAP_BASE_PAGE) < Min(rs[0].end, MMAP_BASE_PAGE + 1);
  }

  /**
   With all frames in use, the first store after a fork finds none; the counts are wrong from
   then on. Unmapping the page of process 2 then frees the frame that process 1 still maps.
   */
  method FaultWithoutFrame() returns (m: Machine, r: WriteOutcome, live: nat)
    ensures r.NoFrame? && !m.Valid()
    ensures 1 in m.spaces && MMAP_BASE_PAGE in m.spaces[1].ptes && m.spaces[1].ptes[MMAP_BASE_PAGE].frame == live
    ensures live in m.free
  {
    hide Inv, DeepCopy.Refines, Users;
    m := SharedPair();
    ghost var s := m.St();
    r := m.Write(2, MMAP_BASE_PAGE * PAGE_SIZE, 7);
    TwoSharers(s, MMAP_BASE_PAGE);
    live := m.spaces[1].ptes[MMAP_BASE_PAGE].frame;
    m.UnmapPage(2, MMAP_BASE_PAGE);
    StillMapped(m.St(), 1, MMAP_BASE_PAGE);
  }

  /** A frame that is mapped and free. */
  lemma StillMapped(s: State, p: nat, v: nat)
    requires |s.refs| == MAX_FRAMES && IsMapped(s, p, v) && PteAt(s, p, v).frame in s.free
    ensures !Inv(s)
  {
    hide PageOk, RegionsOk;
    InUsers(s, PteAt(s, p, v).frame, p, v);
    if Inv(s) { FrameShape(s, PteAt(s, p, v).frame); }
  }

  /** Two processes that share the one page, on a machine without a free frame. */
  method SharedPair() returns (m: Machine)
    ensures m.Valid() && fresh(m) && fresh(m.refs) && |m.frames| == 3 && |m.kernel| == 2
    ensures m.spaces.Keys == {1, 2} && IsMapped(m.St(), 1, MMAP_BASE_PAGE) && OutOfFrames(m.St(), 2, MMAP_BASE_PAGE)
  {
    hide Inv, DeepCopy.Refines, OneProcess, RoomToFork, OutOfFrames;
    var addr;
    m, addr := SmallMachine(None);
    ghost var a := m.plain;
    OneProcessPages(a, MMAP_BASE_PAGE, MMAP_BASE_PAGE + 2);
    FreeFrames(m.St(), a);
    FewProcesses(m.St(), 1);
    var ok := m.Fork(1, 2);
    SameProcesses(m);
    ForkedPages(a, m.plain);
    AllFramesTaken(m.St(), m.plain, MMAP_BASE_PAGE);
  }

  /** The failed fault of one of two sharers, followed by unmapping, frees the frame of the other. */
  lemma TwoSharers(s: State, v: nat)
    requires Inv(s) && s.spaces.Keys == {1, 2} && |s.frames| == 3 && |s.kernel| == 2
    requires IsMapped(s, 1, v) && OutOfFrames(s, 2, v)
    ensures PteAt(s, 1, v).frame == PteAt(s, 2, v).frame
    ensures PteAt(s, 1, v).frame in DropStep(FailedFault(s, 2, v), 2, v).free
  {
    hide Inv, Users;
    BothInOneFrame(s, v);
    CowFaultIff(s, 2, v);
    var f := PteAt(s, 2, v).frame;
    FrameUsed(s, 2, v);
    SharersAreProcesses(s, f);
    assert |s.spaces| == |s.spaces.Keys| == 2;
    FailedCopyFreesLiveFrame(s, 2, v, Find(s.spaces[2].regions, v).value);
  }

  lemma ForkedPages(a: DeepCopy.Plain, b: DeepCopy.Plain)
    requires OneProcess(a, MMAP_BASE_PAGE, MMAP_BASE_PAGE + 2) && b == DeepCopy.Fork(a, 1, 2)
    ensures DeepCopy.Present(b, 1, MMAP_BASE_PAGE) && DeepCopy.Present(b, 2, MMAP_BASE_PAGE) && b.spaces.Keys == {1, 2}
    ensures b.spaces[2].regions == [OnePageAt(MMAP_BASE_PAGE)]
  {
  }

  /** Two pages and two top-level tables in three frames: the pages share, and nothing is free. */
  lemma AllFramesTaken(s: State, a: DeepCopy.Plain, v: nat)
    requires Inv(s) && DeepCopy.Refines(s, a) && |s.frames| == 3 && |s.kernel| == 2
    requires DeepCopy.Present(a, 1, v) && DeepCopy.Present(a, 2, v) && a.spaces[2].regions == [OnePageAt(v)]
    ensures IsMapped(s, 1, v) && OutOfFrames(s, 2, v)
  {
    hide Users, Inv, DeepCopy.Refines, DeepCopy.Strip;
    DeepCopy.RefinesLook(s, a, 1, v);
    DeepCopy.RefinesLook(s, a, 2, v);
    BothInOneFrame(s, v);
    FrameCounted(s, 2, v);
    DeepCopy.SameSpace(s, a, 2);
    StripOnly(s.spaces[2].regions, v);
    FindOnly(s.spaces[2].regions, v);
  }

  lemma StripOnly(rs: seq<Region>, v: nat)
    requires DeepCopy.Strip(rs) == [OnePageAt(v)]
    ensures |rs| == 1 && rs[0].(cow := false) == OnePageAt(v)
  {
    assert DeepCopy.Strip(rs)[0] == OnePageAt(v);
  }

  lemma BothInOneFrame(s: State, v: nat)
    requires Inv(s) && |s.frames| == 3 && |s.kernel| == 2 && IsMapped(s, 1, v) && IsMapped(s, 2, v)
    ensures s.free == {} && PteAt(s, 1, v).frame == PteAt(s, 2, v).frame && |Users(s, PteAt(s, 2, v).frame)| >= 2
  {
    hide Users, Inv;
    UsedHaveUsers(s);
    FrameUsed(s, 1, v);
    FrameUsed(s, 2, v);
    var f, g, used := PteAt(s, 1, v).frame, PteAt(s, 2, v).frame, s.frames - s.free - s.kernel;
    assert s.frames == s.free + s.kernel + used;
    OneLeft(used, f, g, |s.free|);
    InUsers(s, g, 1, v);
    InUsers(s, g, 2, v);
    TwoUsers(Users(s, g), (1, v), (2, v));
  }

  lemma FrameUsed(s: State, p: nat, v: nat)
    requires Inv(s) && IsMapped(s, p, v)
    ensures PteAt(s, p, v).frame in s.frames - s.free - s.kernel
  {
    hide Users, RegionsOk, RootsOk;
    FrameInBounds(s, p, v);
    InUsers(s, PteAt(s, p, v).frame, p, v);
    assert FrameOk(s, PteAt(s, p, v).frame);
  }

  lemma OneLeft(used: set<nat>, f: nat, g: nat, free: nat)
    requires f in used && g in used && free + |used| == 1
    ensures f == g && free == 0
  {
    assert |used - {f}| == |used| - 1;
    assert used - {f} == {};
  }

  lemma TwoUsers(users: set<(nat, nat)>, x: (nat, nat), y: (nat, nat))
    requires x in users && y in users && x != y
    ensures |users| >= 2
  {
    assert |users - {x}| == |users| - 1;
    assert y in users - {x};
  }

  lemma FindOnly(rs: seq<Region>, v: nat)
    requires |rs| == 1 && rs[0].(cow := false) == OnePageAt(v)
    ensures Find(rs, v) == Some(rs[0]) && CanCow(rs[0])
  {
  }
}
