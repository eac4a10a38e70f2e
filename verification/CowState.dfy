/**
 Physical frames shared copy-on-write between address spaces. The state is what the
 memory manager keeps: page tables (as maps), region lists, reference counts, frame
 contents and the frames that are free. The steps below are the loop bodies of fork,
 fault resolution, unmapping and mapping; each keeps the invariant.
 */
module CowState {
  import opened Wrappers
  import opened VmRegions

  const MAX_REFS := 65535

  type Content = seq<byte>

  /** A present page-table entry. */
  datatype Pte = Pte(frame: nat, writable: bool, cow: bool, noExec: bool)

  datatype Space = Space(ptes: map<nat, Pte>, regions: seq<Region>, mmapBase: nat)

  /**
   `frames` are the frames under management, of which `free` can be allocated and `kernel`
   are out of reach of user pages: top-level page tables, `roots`, of the processes, and
   whatever else of the kernel holds frames, such as lower page tables and the magazines
   of other CPUs.
   */
  datatype State = State(
    spaces: map<nat, Space>,
    refs: seq<nat>,
    mem: map<nat, Content>,
    free: set<nat>,
    frames: set<nat>,
    kernel: set<nat>,
    roots: map<nat, nat>
  )

  predicate IsMapped(s: State, p: nat, v: nat) {
    p in s.spaces && v in s.spaces[p].ptes
  }

  function PteAt(s: State, p: nat, v: nat): Pte
    requires IsMapped(s, p, v)
  {
    s.spaces[p].ptes[v]
  }

  /** The page-table entry for a page of a region with protection `prot`. */
  function PteFor(frame: nat, prot: Prot): Pte {
    Pte(frame, prot.write, false, !prot.exec)
  }

  predicate CanCow(r: Region) {
    r.prot.write && r.kind != Device && !r.shared
  }

  /** The pages, in all address spaces, that map frame `f`. */
  ghost function Users(s: State, f: nat): set<(nat, nat)> {
    set p, v | p in s.spaces && v in s.spaces[p].ptes && s.spaces[p].ptes[v].frame == f :: (p, v)
  }

  ghost predicate SharedPage(s: State, p: nat, v: nat)
    requires p in s.spaces
  {
    var r := Find(s.spaces[p].regions, v);
    r.Some? && r.value.shared
  }

  /** 0 or 1 for a frame with one user, the number of users from two on, 0 without users. */
  predicate RefOk(users: nat, n: nat) {
    if users >= 2 then n == users else n <= users
  }

  /** All users have the same page number: sharing starts at a fork, which copies tables page by page. */
  ghost predicate OnePage(users: set<(nat, nat)>) {
    forall x, y :: x in users && y in users ==> x.1 == y.1
  }

  /** A frame under management is free or the kernel's exactly when no page maps it, and its count fits. */
  ghost predicate FrameOk(s: State, f: nat)
    requires |s.refs| == MAX_FRAMES
  {
    && f < MAX_FRAMES && f in s.mem && |s.mem[f]| == PAGE_SIZE
    && RefOk(|Users(s, f)|, s.refs[f])
    && (f in s.free || f in s.kernel <==> Users(s, f) == {})
    && !(f in s.free && f in s.kernel)
    && OnePage(Users(s, f))
  }

  /**
   The entry agrees with its region: shared and read-only pages have the region's
   permission, a private writable page is either writable or waiting for its copy.
   */
  predicate PteFits(e: Pte, r: Region) {
    && e.noExec == !r.prot.exec
    && if CanCow(r) then e.writable != e.cow else !e.cow && e.writable == r.prot.write
  }

  /**
   A mapped page has a managed frame, lies in a region that its entry fits, and its frame
   is either MAP_SHARED memory everywhere or nowhere. A private page the hardware lets
   its process write to is the only user of its frame.
   */
  ghost predicate PageOk(s: State, p: nat, v: nat)
    requires IsMapped(s, p, v)
  {
    var e := PteAt(s, p, v);
    var r := Find(s.spaces[p].regions, v);
    && e.frame in s.frames
    && r.Some? && PteFits(e, r.value)
    && (e.writable && !r.value.shared ==> Users(s, e.frame) == {(p, v)})
    && forall q, w :: IsMapped(s, q, w) && PteAt(s, q, w).frame == e.frame ==>
      SharedPage(s, q, w) == SharedPage(s, p, v)
  }

  ghost predicate RegionsOk(rs: seq<Region>) {
    && Disjoint(rs)
    && forall i :: 0 <= i < |rs| ==> rs[i].start <= rs[i].end && rs[i].kind != Device && (rs[i].cow ==> CanCow(rs[i]))
  }

  /** Every process has a top-level page table of its own. */
  ghost predicate RootsOk(s: State) {
    && s.roots.Keys == s.spaces.Keys
    && (forall p :: p in s.roots ==> s.roots[p] in s.kernel)
    && forall p, q :: p in s.roots && q in s.roots && p != q ==> s.roots[p] != s.roots[q]
  }

  ghost predicate Inv(s: State) {
    && |s.refs| == MAX_FRAMES
    && s.free <= s.frames && s.kernel <= s.frames && RootsOk(s)
    && (forall f :: f in s.frames ==> FrameOk(s, f))
    && (forall p :: p in s.spaces ==> RegionsOk(s.spaces[p].regions))
    && (forall p, v :: IsMapped(s, p, v) ==> PageOk(s, p, v))
  }

  lemma RootsSame(s: State, t: State)
    requires RootsOk(s) && t.roots == s.roots && t.kernel == s.kernel && t.spaces.Keys == s.spaces.Keys
    ensures RootsOk(t)
  {
  }

  /** A frame stays in order while its users, count and size stay and it neither leaves nor enters the unused ones. */
  lemma FrameSame(s: State, t: State, f: nat)
    requires |s.refs| == |t.refs| == MAX_FRAMES && FrameOk(s, f) && Users(t, f) == Users(s, f)
    requires t.refs[f] == s.refs[f] && f in t.mem && |t.mem[f]| == PAGE_SIZE
    requires (f in t.free || f in t.kernel <==> f in s.free || f in s.kernel) && !(f in t.free && f in t.kernel)
    ensures FrameOk(t, f)
  {
    hide Users;
  }

  lemma FrameShape(s: State, f: nat)
    requires Inv(s) && f in s.frames
    ensures FrameOk(s, f) && f < MAX_FRAMES && f in s.mem && |s.mem[f]| == PAGE_SIZE && !(f in s.free && f in s.kernel)
  {
    hide Users, PageOk, RegionsOk, RootsOk;
    assert FrameOk(s, f);
  }

  function SetPte(s: State, p: nat, v: nat, e: Pte): State
    requires p in s.spaces
  {
    s.(spaces := s.spaces[p := s.spaces[p].(ptes := s.spaces[p].ptes[v := e])])
  }

  function DelPte(s: State, p: nat, v: nat): State
    requires p in s.spaces
  {
    s.(spaces := s.spaces[p := s.spaces[p].(ptes := s.spaces[p].ptes - {v})])
  }

  lemma InUsers(s: State, f: nat, p: nat, v: nat)
    ensures (p, v) in Users(s, f) <==> IsMapped(s, p, v) && PteAt(s, p, v).frame == f
  {
  }

  /** Users only depend on the page tables. */
  lemma UsersSame(s: State, t: State, f: nat)
    requires s.spaces == t.spaces
    ensures Users(s, f) == Users(t, f)
  {
  }

  lemma UsersSetPte(s: State, p: nat, v: nat, e: Pte, f: nat)
    requires p in s.spaces
    ensures Users(SetPte(s, p, v, e), f) == if f == e.frame then Users(s, f) + {(p, v)} else Users(s, f) - {(p, v)}
  {
    var t := SetPte(s, p, v, e);
    forall q: nat, w: nat
      ensures (q, w) in Users(t, f) <==> if (q, w) == (p, v) then f == e.frame else (q, w) in Users(s, f)
    {
      InUsers(t, f, q, w);
      InUsers(s, f, q, w);
    }
  }

  lemma UsersDelPte(s: State, p: nat, v: nat, f: nat)
    requires p in s.spaces
    ensures Users(DelPte(s, p, v), f) == Users(s, f) - {(p, v)}
  {
    var t := DelPte(s, p, v);
    forall q: nat, w: nat ensures (q, w) in Users(t, f) <==> (q, w) != (p, v) && (q, w) in Users(s, f) {
      InUsers(t, f, q, w);
      InUsers(s, f, q, w);
    }
  }

  function Dec(n: nat): nat {
    if n > 0 then n - 1 else 0
  }

  /** One more sharer: the first share of a private frame jumps to two. */
  function Share(n: nat): nat {
    if n == 0 then 2 else if n < MAX_REFS then n + 1 else n
  }

  /** Unmap one page: drop its reference and free the frame when none is left. */
  function DropStep(s: State, p: nat, v: nat): State
    requires IsMapped(s, p, v) && |s.refs| == MAX_FRAMES && PteAt(s, p, v).frame < MAX_FRAMES
  {
    var f := PteAt(s, p, v).frame;
    var n := Dec(s.refs[f]);
    DelPte(s, p, v).(refs := s.refs[f := n], free := if n == 0 then s.free + {f} else s.free)
  }

  lemma DropUsers(s: State, p: nat, v: nat, g: nat)
    requires Inv(s) && IsMapped(s, p, v) && PteAt(s, p, v).frame < MAX_FRAMES
    ensures Users(DropStep(s, p, v), g) == Users(s, g) - {(p, v)}
    ensures g != PteAt(s, p, v).frame ==> Users(DropStep(s, p, v), g) == Users(s, g)
    ensures g == PteAt(s, p, v).frame ==> |Users(DropStep(s, p, v), g)| == |Users(s, g)| - 1
  {
    UsersDelPte(s, p, v, g);
    UsersSame(DelPte(s, p, v), DropStep(s, p, v), g);
    InUsers(s, g, p, v);
  }

  lemma FrameInBounds(s: State, p: nat, v: nat)
    requires Inv(s) && IsMapped(s, p, v)
    ensures PteAt(s, p, v).frame in s.frames && PteAt(s, p, v).frame < MAX_FRAMES
  {
    assert PageOk(s, p, v);
    assert FrameOk(s, PteAt(s, p, v).frame);
  }

  lemma DropFrames(s: State, p: nat, v: nat, g: nat)
    requires Inv(s) && IsMapped(s, p, v) && PteAt(s, p, v).frame < MAX_FRAMES && g in s.frames
    ensures FrameOk(DropStep(s, p, v), g)
    ensures g in DropStep(s, p, v).free && g !in s.free <==> Users(s, g) == {(p, v)}
  {
    hide Users;
    var f := PteAt(s, p, v).frame;
    assert FrameOk(s, g);
    DropUsers(s, p, v, g);
    InUsers(s, g, p, v);
    if g == f {
      if |Users(s, g)| == 1 { OneElement(Users(s, g), (p, v)); }
      assert Users(DropStep(s, p, v), g) == {} <==> |Users(DropStep(s, p, v), g)| == 0;
    }
  }

  lemma OneElement(a: set<(nat, nat)>, x: (nat, nat))
    requires x in a
    ensures |a| == 1 <==> a == {x}
  {
    if |a| == 1 {
      assert |a - {x}| == 0;
      assert a - {x} == {};
    }
  }

  lemma DropPages(s: State, p: nat, v: nat, q: nat, w: nat)
    requires Inv(s) && IsMapped(s, p, v) && PteAt(s, p, v).frame < MAX_FRAMES && IsMapped(DropStep(s, p, v), q, w)
    ensures PageOk(DropStep(s, p, v), q, w)
  {
    hide Users, FrameOk;
    var t := DropStep(s, p, v);
    assert IsMapped(s, q, w) && PageOk(s, q, w);
    DropUsers(s, p, v, PteAt(s, q, w).frame);
    forall i, j | IsMapped(t, i, j) && PteAt(t, i, j).frame == PteAt(t, q, w).frame
      ensures SharedPage(t, i, j) == SharedPage(t, q, w)
    {
      assert IsMapped(s, i, j) && PteAt(s, i, j).frame == PteAt(s, q, w).frame;
    }
  }

  /** Unmapping one page keeps the invariant; the frame is freed exactly when this was its last user. */
  lemma DropKeeps(s: State, p: nat, v: nat)
    requires Inv(s) && IsMapped(s, p, v)
    ensures PteAt(s, p, v).frame < MAX_FRAMES && Inv(DropStep(s, p, v))
    ensures var f := PteAt(s, p, v).frame;
      DropStep(s, p, v).free == if Users(s, f) == {(p, v)} then s.free + {f} else s.free
  {
    hide Users, FrameOk, PageOk, RootsOk;
    FrameInBounds(s, p, v);
    var t := DropStep(s, p, v);
    RootsSame(s, t);
    forall f | f in t.frames ensures FrameOk(t, f) { DropFrames(s, p, v, f); }
    forall q, w | IsMapped(t, q, w) ensures PageOk(t, q, w) { DropPages(s, p, v, q, w); }
    DropFrames(s, p, v, PteAt(s, p, v).frame);
  }

  /** Two regions treat a page alike, up to the copy-on-write mark. */
  predicate SameUse(a: Option<Region>, b: Option<Region>) {
    && a.Some? && b.Some?
    && a.value.prot == b.value.prot && a.value.kind == b.value.kind && a.value.shared == b.value.shared
  }

  /**
   Fork's step for one page: a private writable page becomes read-only and copy-on-write
   on both sides, any other page keeps its permission; the frame gains a reference.
   */
  function ShareStep(s: State, p: nat, c: nat, v: nat, r: Region): State
    requires IsMapped(s, p, v) && c in s.spaces && |s.refs| == MAX_FRAMES && PteAt(s, p, v).frame < MAX_FRAMES
  {
    var f := PteAt(s, p, v).frame;
    var shared :=
      if CanCow(r) then
        var e := PteFor(f, r.prot.(write := false)).(cow := true);
        SetPte(SetPte(s, p, v, e), c, v, e)
      else SetPte(s, c, v, PteFor(f, r.prot));
    shared.(refs := s.refs[f := Share(s.refs[f])])
  }

  /** When fork may share page `v` of `p` with `c`. */
  ghost predicate Sharable(s: State, p: nat, c: nat, v: nat, r: Region) {
    && Inv(s) && IsMapped(s, p, v) && c in s.spaces && p != c && v !in s.spaces[c].ptes
    && Find(s.spaces[p].regions, v) == Some(r) && SameUse(Some(r), Find(s.spaces[c].regions, v))
    && PteAt(s, p, v).frame < MAX_FRAMES && s.refs[PteAt(s, p, v).frame] < MAX_REFS
  }

  lemma ShareUsers(s: State, p: nat, c: nat, v: nat, r: Region, g: nat)
    requires Sharable(s, p, c, v, r)
    ensures Users(ShareStep(s, p, c, v, r), g) ==
      if g == PteAt(s, p, v).frame then Users(s, g) + {(c, v)} else Users(s, g)
    ensures (c, v) !in Users(s, g)
  {
    hide Users, PageOk, FrameOk, RegionsOk, RootsOk;
    var f := PteAt(s, p, v).frame;
    var t := ShareStep(s, p, c, v, r);
    InUsers(s, g, p, v);
    InUsers(s, g, c, v);
    if CanCow(r) {
      var e := PteFor(f, r.prot.(write := false)).(cow := true);
      UsersSetPte(s, p, v, e, g);
      UsersSetPte(SetPte(s, p, v, e), c, v, e, g);
      UsersSame(SetPte(SetPte(s, p, v, e), c, v, e), t, g);
    } else {
      UsersSetPte(s, c, v, PteFor(f, r.prot), g);
      UsersSame(SetPte(s, c, v, PteFor(f, r.prot)), t, g);
    }
  }

  lemma ShareFrames(s: State, p: nat, c: nat, v: nat, r: Region, g: nat)
    requires Sharable(s, p, c, v, r) && g in s.frames
    ensures FrameOk(ShareStep(s, p, c, v, r), g)
  {
    hide Users, PageOk, RegionsOk, RootsOk;
    assert FrameOk(s, g);
    ShareUsers(s, p, c, v, r, g);
    InUsers(s, g, p, v);
  }

  lemma NotDevice(s: State, p: nat, v: nat)
    requires Inv(s) && p in s.spaces && Find(s.spaces[p].regions, v).Some?
    ensures Find(s.spaces[p].regions, v).value.kind != Device
    ensures Find(s.spaces[p].regions, v).value.cow ==> CanCow(Find(s.spaces[p].regions, v).value)
  {
    hide PageOk, FrameOk;
    var rs := s.spaces[p].regions;
    assert RegionsOk(rs);
  }

  /** What sharing does to the entry of any one page. */
  lemma ShareView(s: State, p: nat, c: nat, v: nat, r: Region, q: nat, w: nat)
    requires Sharable(s, p, c, v, r)
    ensures var t := ShareStep(s, p, c, v, r);
      && t.spaces.Keys == s.spaces.Keys && t.frames == s.frames
      && (q in s.spaces ==> t.spaces[q].regions == s.spaces[q].regions && SharedPage(t, q, w) == SharedPage(s, q, w))
      && (IsMapped(t, q, w) <==> IsMapped(s, q, w) || (q, w) == (c, v))
      && (IsMapped(s, q, w) ==> PteAt(t, q, w).frame == PteAt(s, q, w).frame)
      && (IsMapped(s, q, w) && ((q, w) != (p, v) || !CanCow(r)) ==> PteAt(t, q, w) == PteAt(s, q, w))
      && (IsMapped(t, q, w) && ((q, w) == (c, v) || ((q, w) == (p, v) && CanCow(r))) ==>
            PteAt(t, q, w) == Pte(PteAt(s, p, v).frame, r.prot.write && !CanCow(r), CanCow(r), !r.prot.exec))
  {
    hide PageOk, FrameOk, RegionsOk, RootsOk;
  }

  lemma SharePages(s: State, p: nat, c: nat, v: nat, r: Region, q: nat, w: nat)
    requires Sharable(s, p, c, v, r) && IsMapped(ShareStep(s, p, c, v, r), q, w)
    ensures PageOk(ShareStep(s, p, c, v, r), q, w)
  {
    hide Users, FrameOk, ShareStep, RegionsOk;
    var t := ShareStep(s, p, c, v, r);
    var f := PteAt(s, p, v).frame;
    ShareView(s, p, c, v, r, q, w);
    ShareView(s, p, c, v, r, p, v);
    NotDevice(s, p, v);
    var (x, y) := if (q, w) == (c, v) then (p, v) else (q, w);
    assert PageOk(s, x, y) && PageOk(s, p, v);
    ShareUsers(s, p, c, v, r, PteAt(t, q, w).frame);
    InUsers(s, f, p, v);
    InUsers(s, f, q, w);
    forall i: nat, j: nat | IsMapped(t, i, j) && PteAt(t, i, j).frame == PteAt(t, q, w).frame
      ensures SharedPage(t, i, j) == SharedPage(t, q, w)
    {
      ShareView(s, p, c, v, r, i, j);
      ShareSameKind(s, p, c, v, r, i, j, x, y);
    }
  }

  lemma ShareSameKind(s: State, p: nat, c: nat, v: nat, r: Region, i: nat, j: nat, x: nat, y: nat)
    requires Sharable(s, p, c, v, r) && IsMapped(s, x, y)
    requires IsMapped(s, i, j) || (i, j) == (c, v)
    requires PteAt(s, x, y).frame == if (i, j) == (c, v) then PteAt(s, p, v).frame else PteAt(s, i, j).frame
    ensures SharedPage(s, i, j) == SharedPage(s, x, y)
  {
    hide Users, FrameOk, RegionsOk, RootsOk;
    assert PageOk(s, x, y);
  }

  lemma ShareKeeps(s: State, p: nat, c: nat, v: nat, r: Region)
    requires Sharable(s, p, c, v, r)
    ensures Inv(ShareStep(s, p, c, v, r))
  {
    hide Users, FrameOk, PageOk, RootsOk;
    var t := ShareStep(s, p, c, v, r);
    RootsSame(s, t);
    forall f | f in t.frames ensures FrameOk(t, f) { ShareFrames(s, p, c, v, r, f); }
    forall q, w | IsMapped(t, q, w) ensures PageOk(t, q, w) { SharePages(s, p, c, v, r, q, w); }
  }

  /** A page of a private writable region, which is where a write fault is resolved. */
  ghost predicate Faulting(s: State, p: nat, v: nat, r: Region) {
    && Inv(s) && IsMapped(s, p, v) && Find(s.spaces[p].regions, v) == Some(r)
    && CanCow(r) && PteAt(s, p, v).frame < MAX_FRAMES
  }

  /** Resolve a fault on a frame nobody else holds: take it over. */
  function OwnStep(s: State, p: nat, v: nat, r: Region): State
    requires IsMapped(s, p, v) && |s.refs| == MAX_FRAMES && PteAt(s, p, v).frame < MAX_FRAMES
  {
    var f := PteAt(s, p, v).frame;
    SetPte(s, p, v, PteFor(f, r.prot.(write := true))).(refs := s.refs[f := Dec(s.refs[f])])
  }

  /** Resolve a fault on a shared frame: copy it into `nf` and drop one reference. */
  function CopyStep(s: State, p: nat, v: nat, r: Region, nf: nat): State
    requires IsMapped(s, p, v) && |s.refs| == MAX_FRAMES && PteAt(s, p, v).frame < MAX_FRAMES
    requires PteAt(s, p, v).frame in s.mem
  {
    var f := PteAt(s, p, v).frame;
    SetPte(s, p, v, PteFor(nf, r.prot.(write := true)))
    .(refs := s.refs[f := Dec(s.refs[f])], mem := s.mem[nf := s.mem[f]], free := s.free - {nf})
  }

  /** Entries after a fault is resolved by pointing page `v` of `p` at frame `nf`. */
  lemma SetPteView(s: State, p: nat, v: nat, e: Pte, q: nat, w: nat)
    requires IsMapped(s, p, v)
    ensures var t := SetPte(s, p, v, e);
      && t.spaces.Keys == s.spaces.Keys
      && (q in s.spaces ==> t.spaces[q].regions == s.spaces[q].regions && SharedPage(t, q, w) == SharedPage(s, q, w))
      && (IsMapped(t, q, w) <==> IsMapped(s, q, w))
      && (IsMapped(s, q, w) ==> PteAt(t, q, w) == if (q, w) == (p, v) then e else PteAt(s, q, w))
  {
  }

  /** A count that drops to zero had a single user behind it. */
  lemma SoleUser(s: State, p: nat, v: nat)
    requires Inv(s) && IsMapped(s, p, v) && PteAt(s, p, v).frame < MAX_FRAMES
    ensures var f := PteAt(s, p, v).frame;
      && (p, v) in Users(s, f)
      && (Dec(s.refs[f]) == 0 <==> Users(s, f) == {(p, v)})
      && (Dec(s.refs[f]) != 0 ==> s.refs[f] == |Users(s, f)| >= 2)
  {
    hide Users;
    var f := PteAt(s, p, v).frame;
    FrameInBounds(s, p, v);
    assert FrameOk(s, f);
    InUsers(s, f, p, v);
    OneElement(Users(s, f), (p, v));
  }

  lemma OwnUsers(s: State, p: nat, v: nat, r: Region, g: nat)
    requires Faulting(s, p, v, r)
    ensures Users(OwnStep(s, p, v, r), g) == Users(s, g)
  {
    hide Users, PageOk, FrameOk, RegionsOk, RootsOk;
    var e := PteFor(PteAt(s, p, v).frame, r.prot.(write := true));
    UsersSetPte(s, p, v, e, g);
    UsersSame(SetPte(s, p, v, e), OwnStep(s, p, v, r), g);
    InUsers(s, g, p, v);
  }

  lemma OwnPages(s: State, p: nat, v: nat, r: Region, q: nat, w: nat)
    requires Faulting(s, p, v, r) && Dec(s.refs[PteAt(s, p, v).frame]) == 0 && IsMapped(OwnStep(s, p, v, r), q, w)
    ensures PageOk(OwnStep(s, p, v, r), q, w)
  {
    hide Users, FrameOk, RegionsOk, RootsOk;
    var t := OwnStep(s, p, v, r);
    var e := PteFor(PteAt(s, p, v).frame, r.prot.(write := true));
    SetPteView(s, p, v, e, q, w);
    assert PageOk(s, q, w);
    SoleUser(s, p, v);
    OwnUsers(s, p, v, r, PteAt(s, q, w).frame);
    forall i: nat, j: nat | IsMapped(t, i, j) && PteAt(t, i, j).frame == PteAt(t, q, w).frame
      ensures SharedPage(t, i, j) == SharedPage(t, q, w)
    {
      SetPteView(s, p, v, e, i, j);
    }
  }

  lemma OwnKeeps(s: State, p: nat, v: nat, r: Region)
    requires Faulting(s, p, v, r) && Dec(s.refs[PteAt(s, p, v).frame]) == 0
    ensures Inv(OwnStep(s, p, v, r))
  {
    hide Users, PageOk, RootsOk;
    var t := OwnStep(s, p, v, r);
    RootsSame(s, t);
    forall f | f in t.frames ensures FrameOk(t, f) {
      assert FrameOk(s, f);
      OwnUsers(s, p, v, r, f);
    }
    forall q, w | IsMapped(t, q, w) ensures PageOk(t, q, w) { OwnPages(s, p, v, r, q, w); }
  }

  lemma CopyUsers(s: State, p: nat, v: nat, r: Region, nf: nat, g: nat)
    requires Faulting(s, p, v, r) && nf in s.free && PteAt(s, p, v).frame in s.mem
    ensures nf != PteAt(s, p, v).frame && Users(s, nf) == {}
    ensures Users(CopyStep(s, p, v, r, nf), g) ==
      if g == nf then {(p, v)} else if g == PteAt(s, p, v).frame then Users(s, g) - {(p, v)} else Users(s, g)
  {
    hide Users, PageOk, RegionsOk;
    var e := PteFor(nf, r.prot.(write := true));
    UsersSetPte(s, p, v, e, g);
    UsersSame(SetPte(s, p, v, e), CopyStep(s, p, v, r, nf), g);
    InUsers(s, g, p, v);
    InUsers(s, nf, p, v);
    assert FrameOk(s, nf);
  }

  lemma CopyFrames(s: State, p: nat, v: nat, r: Region, nf: nat, g: nat)
    requires Faulting(s, p, v, r) && nf in s.free && PteAt(s, p, v).frame in s.mem && g in s.frames
    requires Dec(s.refs[PteAt(s, p, v).frame]) != 0
    ensures FrameOk(CopyStep(s, p, v, r, nf), g)
  {
    hide Users, PageOk, RegionsOk;
    FrameInBounds(s, p, v);
    var f := PteAt(s, p, v).frame;
    assert FrameOk(s, g) && FrameOk(s, f);
    SoleUser(s, p, v);
    CopyUsers(s, p, v, r, nf, g);
    if g == f { assert |Users(s, g) - {(p, v)}| == |Users(s, g)| - 1; }
  }

  lemma CopyPages(s: State, p: nat, v: nat, r: Region, nf: nat, q: nat, w: nat)
    requires Faulting(s, p, v, r) && nf in s.free && PteAt(s, p, v).frame in s.mem
    requires Dec(s.refs[PteAt(s, p, v).frame]) != 0 && IsMapped(CopyStep(s, p, v, r, nf), q, w)
    ensures PageOk(CopyStep(s, p, v, r, nf), q, w)
  {
    hide Users, FrameOk, RegionsOk, RootsOk;
    var t := CopyStep(s, p, v, r, nf);
    var e := PteFor(nf, r.prot.(write := true));
    SetPteView(s, p, v, e, q, w);
    assert PageOk(s, q, w);
    SoleUser(s, p, v);
    InUsers(s, nf, q, w);
    CopyUsers(s, p, v, r, nf, PteAt(t, q, w).frame);
    forall i: nat, j: nat | IsMapped(t, i, j) && PteAt(t, i, j).frame == PteAt(t, q, w).frame
      ensures SharedPage(t, i, j) == SharedPage(t, q, w)
    {
      SetPteView(s, p, v, e, i, j);
      InUsers(s, nf, i, j);
    }
  }

  lemma CopyKeeps(s: State, p: nat, v: nat, r: Region, nf: nat)
    requires Faulting(s, p, v, r) && nf in s.free && Dec(s.refs[PteAt(s, p, v).frame]) != 0
    ensures PteAt(s, p, v).frame in s.mem && Inv(CopyStep(s, p, v, r, nf))
  {
    hide Users, PageOk, FrameOk, RegionsOk, RootsOk;
    FrameHasContent(s, p, v);
    var t := CopyStep(s, p, v, r, nf);
    RootsSame(s, t);
    forall f | f in t.frames ensures FrameOk(t, f) { CopyFrames(s, p, v, r, nf, f); }
    forall q, w | IsMapped(t, q, w) ensures PageOk(t, q, w) { CopyPages(s, p, v, r, nf, q, w); }
  }

  lemma FrameHasContent(s: State, p: nat, v: nat)
    requires Inv(s) && IsMapped(s, p, v)
    ensures PteAt(s, p, v).frame in s.mem && |s.mem[PteAt(s, p, v).frame]| == PAGE_SIZE
  {
    hide Users;
    FrameInBounds(s, p, v);
    assert FrameOk(s, PteAt(s, p, v).frame);
  }

  function Poke(c: Content, off: nat, b: byte): (r: Content)
    requires off < |c|
    ensures |r| == |c|
  {
    c[..off] + [b] + c[off + 1..]
  }

  /** Store one byte through a writable entry. */
  function WriteStep(s: State, p: nat, v: nat, off: nat, b: byte): State
    requires IsMapped(s, p, v) && PteAt(s, p, v).frame in s.mem && off < |s.mem[PteAt(s, p, v).frame]|
  {
    var f := PteAt(s, p, v).frame;
    s.(mem := s.mem[f := Poke(s.mem[f], off, b)])
  }

  lemma WriteKeeps(s: State, p: nat, v: nat, off: nat, b: byte)
    requires Inv(s) && IsMapped(s, p, v) && off < PAGE_SIZE
    requires PteAt(s, p, v).frame in s.mem && |s.mem[PteAt(s, p, v).frame]| == PAGE_SIZE
    ensures Inv(WriteStep(s, p, v, off, b))
  {
    hide Users, RegionsOk;
    var t := WriteStep(s, p, v, off, b);
    forall f | f in t.frames ensures FrameOk(t, f) { assert FrameOk(s, f); UsersSame(s, t, f); }
    forall q, w | IsMapped(t, q, w) ensures PageOk(t, q, w) { OnlyTablesMatter(s, t, q, w); }
  }

  lemma OnlyTablesMatter(s: State, t: State, q: nat, w: nat)
    requires Inv(s) && t.spaces == s.spaces && t.frames == s.frames && IsMapped(t, q, w)
    ensures PageOk(t, q, w)
  {
    hide Users, FrameOk, RegionsOk, RootsOk;
    assert PageOk(s, q, w);
    UsersSame(s, t, PteAt(s, q, w).frame);
    forall i: nat, j: nat | IsMapped(t, i, j) && PteAt(t, i, j).frame == PteAt(t, q, w).frame
      ensures SharedPage(t, i, j) == SharedPage(t, q, w)
    {
      assert IsMapped(s, i, j);
    }
  }

  /** Map an unmapped page of a region to a fresh frame holding `content`. */
  function MapStep(s: State, p: nat, v: nat, r: Region, nf: nat, content: Content): State
    requires p in s.spaces
  {
    SetPte(s, p, v, PteFor(nf, r.prot)).(mem := s.mem[nf := content], free := s.free - {nf})
  }

  ghost predicate Mappable(s: State, p: nat, v: nat, r: Region, nf: nat, content: Content) {
    && Inv(s) && p in s.spaces && v !in s.spaces[p].ptes && Find(s.spaces[p].regions, v) == Some(r)
    && nf in s.free && |content| == PAGE_SIZE
  }

  lemma MapUsers(s: State, p: nat, v: nat, r: Region, nf: nat, content: Content, g: nat)
    requires Mappable(s, p, v, r, nf, content)
    ensures Users(s, nf) == {} && nf < MAX_FRAMES && nf in s.frames
    ensures Users(MapStep(s, p, v, r, nf, content), g) == if g == nf then {(p, v)} else Users(s, g)
  {
    hide Users, PageOk, RegionsOk;
    UsersSetPte(s, p, v, PteFor(nf, r.prot), g);
    UsersSame(SetPte(s, p, v, PteFor(nf, r.prot)), MapStep(s, p, v, r, nf, content), g);
    InUsers(s, g, p, v);
    assert FrameOk(s, nf);
  }

  lemma MapPages(s: State, p: nat, v: nat, r: Region, nf: nat, content: Content, q: nat, w: nat)
    requires Mappable(s, p, v, r, nf, content) && IsMapped(MapStep(s, p, v, r, nf, content), q, w)
    ensures PageOk(MapStep(s, p, v, r, nf, content), q, w)
  {
    hide Users, FrameOk, RegionsOk, RootsOk;
    var t := MapStep(s, p, v, r, nf, content);
    if (q, w) != (p, v) {
      assert PageOk(s, q, w);
      InUsers(s, nf, q, w);
    }
    MapUsers(s, p, v, r, nf, content, PteAt(t, q, w).frame);
    forall i: nat, j: nat | IsMapped(t, i, j) && PteAt(t, i, j).frame == PteAt(t, q, w).frame
      ensures SharedPage(t, i, j) == SharedPage(t, q, w)
    {
      if (i, j) != (p, v) {
        assert IsMapped(s, i, j);
        InUsers(s, nf, i, j);
      }
    }
  }

  lemma MapKeeps(s: State, p: nat, v: nat, r: Region, nf: nat, content: Content)
    requires Mappable(s, p, v, r, nf, content)
    ensures Inv(MapStep(s, p, v, r, nf, content))
  {
    hide Users, PageOk, RegionsOk, RootsOk;
    var t := MapStep(s, p, v, r, nf, content);
    RootsSame(s, t);
    forall f | f in t.frames ensures FrameOk(t, f) {
      assert FrameOk(s, f);
      MapUsers(s, p, v, r, nf, content, f);
    }
    forall q, w | IsMapped(t, q, w) ensures PageOk(t, q, w) { MapPages(s, p, v, r, nf, content, q, w); }
  }

  /** Replace the region list of a process. */
  function SetRegions(s: State, p: nat, rs: seq<Region>, base: nat): State
    requires p in s.spaces
  {
    s.(spaces := s.spaces[p := s.spaces[p].(regions := rs, mmapBase := base)])
  }

  /** A new region list that keeps the use of every mapped page keeps the invariant. */
  lemma SetRegionsKeeps(s: State, p: nat, rs: seq<Region>, base: nat)
    requires Inv(s) && p in s.spaces && RegionsOk(rs)
    requires forall v :: v in s.spaces[p].ptes ==> SameUse(Find(s.spaces[p].regions, v), Find(rs, v))
    ensures Inv(SetRegions(s, p, rs, base))
    ensures forall f :: Users(SetRegions(s, p, rs, base), f) == Users(s, f)
  {
    hide Users, PageOk, RegionsOk, FrameOk, RootsOk;
    var t := SetRegions(s, p, rs, base);
    RootsSame(s, t);
    forall f: nat ensures Users(t, f) == Users(s, f) { SetRegionsUsers(s, p, rs, base, f); }
    forall f | f in t.frames ensures FrameOk(t, f) {
      FrameShape(s, f);
      FrameSame(s, t, f);
    }
    forall q, w | IsMapped(t, q, w) ensures PageOk(t, q, w) { SetRegionsPages(s, p, rs, base, q, w); }
  }

  lemma SetRegionsUsers(s: State, p: nat, rs: seq<Region>, base: nat, f: nat)
    requires p in s.spaces
    ensures Users(SetRegions(s, p, rs, base), f) == Users(s, f)
  {
    var t := SetRegions(s, p, rs, base);
    forall q: nat, w: nat ensures (q, w) in Users(t, f) <==> (q, w) in Users(s, f) {
      InUsers(t, f, q, w);
      InUsers(s, f, q, w);
    }
  }

  lemma SetRegionsPages(s: State, p: nat, rs: seq<Region>, base: nat, q: nat, w: nat)
    requires Inv(s) && p in s.spaces && IsMapped(s, q, w)
    requires forall v :: v in s.spaces[p].ptes ==> SameUse(Find(s.spaces[p].regions, v), Find(rs, v))
    ensures PageOk(SetRegions(s, p, rs, base), q, w)
  {
    hide Users, FrameOk, RegionsOk, RootsOk;
    var t := SetRegions(s, p, rs, base);
    assert PageOk(s, q, w);
    SetRegionsUsers(s, p, rs, base, PteAt(s, q, w).frame);
    forall i: nat, j: nat | IsMapped(t, i, j) ensures IsMapped(s, i, j) && SharedPage(t, i, j) == SharedPage(s, i, j) {}
  }

  /** Start an address space with regions and no mapped page; frame `root` becomes its top-level table. */
  function AddSpace(s: State, c: nat, rs: seq<Region>, base: nat, root: nat): State {
    s.(spaces := s.spaces[c := Space(map[], rs, base)], roots := s.roots[c := root],
       free := s.free - {root}, kernel := s.kernel + {root})
  }

  lemma AddSpaceKeeps(s: State, c: nat, rs: seq<Region>, base: nat, root: nat)
    requires Inv(s) && c !in s.spaces && RegionsOk(rs) && root in s.free
    ensures Inv(AddSpace(s, c, rs, base, root))
    ensures forall f :: Users(AddSpace(s, c, rs, base, root), f) == Users(s, f)
  {
    hide Users, PageOk, RegionsOk, FrameOk, SameMappings;
    var t := AddSpace(s, c, rs, base, root);
    AddSameMappings(s, c, rs, base, root);
    forall f: nat ensures Users(t, f) == Users(s, f) { SameTables(s, t, f); }
    FrameShape(s, root);
    forall f | f in t.frames ensures FrameOk(t, f) {
      FrameShape(s, f);
      FrameSame(s, t, f);
    }
    forall q, w | IsMapped(t, q, w) ensures PageOk(t, q, w) { SameTablesPages(s, t, q, w); }
  }

  lemma AddSameMappings(s: State, c: nat, rs: seq<Region>, base: nat, root: nat)
    requires c !in s.spaces
    ensures SameMappings(s, AddSpace(s, c, rs, base, root))
  {
  }

  /** Forget an address space that maps nothing and give its top-level table back. */
  function RemoveSpace(s: State, p: nat): State
    requires p in s.roots
  {
    s.(spaces := s.spaces - {p}, roots := s.roots - {p},
       free := s.free + {s.roots[p]}, kernel := s.kernel - {s.roots[p]})
  }

  lemma RemoveSpaceKeeps(s: State, p: nat)
    requires Inv(s) && p in s.spaces && s.spaces[p].ptes == map[]
    ensures p in s.roots && Inv(RemoveSpace(s, p))
  {
    hide Users, PageOk, RegionsOk, FrameOk;
    var t := RemoveSpace(s, p);
    forall f: nat ensures Users(t, f) == Users(s, f) { SameTables(s, t, f); }
    FrameShape(s, s.roots[p]);
    forall f | f in t.frames ensures FrameOk(t, f) {
      FrameShape(s, f);
      FrameSame(s, t, f);
    }
    forall q, w | IsMapped(t, q, w) ensures PageOk(t, q, w) { SameTablesPages(s, t, q, w); }
  }

  /** The kernel takes a free frame for itself. */
  function TakeStep(s: State, f: nat): State {
    s.(free := s.free - {f}, kernel := s.kernel + {f})
  }

  /** The kernel gives back a frame that is no top-level table. */
  function GiveStep(s: State, f: nat): State {
    s.(free := s.free + {f}, kernel := s.kernel - {f})
  }

  lemma TakeKeeps(s: State, f: nat)
    requires Inv(s) && f in s.free
    ensures Inv(TakeStep(s, f))
  {
    hide Users, PageOk, RegionsOk;
    var t := TakeStep(s, f);
    forall g | g in t.frames ensures FrameOk(t, g) { assert FrameOk(s, g); UsersSame(s, t, g); }
    forall q, w | IsMapped(t, q, w) ensures PageOk(t, q, w) { OnlyTablesMatter(s, t, q, w); }
  }

  lemma GiveKeeps(s: State, f: nat)
    requires Inv(s) && f in s.kernel && f !in s.roots.Values
    ensures Inv(GiveStep(s, f))
  {
    hide Users, PageOk, RegionsOk;
    var t := GiveStep(s, f);
    forall g | g in t.frames ensures FrameOk(t, g) { assert FrameOk(s, g); UsersSame(s, t, g); }
    forall q, w | IsMapped(t, q, w) ensures PageOk(t, q, w) { OnlyTablesMatter(s, t, q, w); }
  }

  /** Both states map the same pages, in address spaces that are otherwise equal. */
  ghost predicate SameMappings(s: State, t: State) {
    forall q: nat, w: nat :: (IsMapped(s, q, w) || IsMapped(t, q, w)) ==>
      IsMapped(s, q, w) && IsMapped(t, q, w) && s.spaces[q] == t.spaces[q]
  }

  lemma SameTables(s: State, t: State, f: nat)
    requires SameMappings(s, t)
    ensures Users(t, f) == Users(s, f)
  {
    forall q: nat, w: nat ensures (q, w) in Users(t, f) <==> (q, w) in Users(s, f) {
      InUsers(t, f, q, w);
      InUsers(s, f, q, w);
    }
  }

  lemma SameTablesPages(s: State, t: State, q: nat, w: nat)
    requires Inv(s) && SameMappings(s, t) && t.frames == s.frames && IsMapped(t, q, w)
    ensures PageOk(t, q, w)
  {
    hide Users, FrameOk, RegionsOk, RootsOk;
    assert IsMapped(s, q, w) && PageOk(s, q, w);
    SameTables(s, t, PteAt(s, q, w).frame);
    forall i: nat, j: nat | IsMapped(t, i, j) ensures IsMapped(s, i, j) && SharedPage(t, i, j) == SharedPage(s, i, j) {}
  }

  /** A fault that drops its reference and then finds no frame. */
  function FailedFault(s: State, p: nat, v: nat): State
    requires IsMapped(s, p, v) && |s.refs| == MAX_FRAMES && PteAt(s, p, v).frame < MAX_FRAMES
  {
    var f := PteAt(s, p, v).frame;
    s.(refs := s.refs[f := Dec(s.refs[f])])
  }

  /** Running out of frames in the middle of a fault leaves a count that is one short. */
  lemma FailedCopyBreaksCount(s: State, p: nat, v: nat, r: Region)
    requires Faulting(s, p, v, r) && Dec(s.refs[PteAt(s, p, v).frame]) != 0
    ensures !Inv(FailedFault(s, p, v))
  {
    hide Users, PageOk, RegionsOk;
    var f, t := PteAt(s, p, v).frame, FailedFault(s, p, v);
    FrameInBounds(s, p, v);
    SoleUser(s, p, v);
    UsersSame(s, t, f);
    assert !FrameOk(t, f);
  }

  /**
   What that leads to when the process is then ended: unmapping its page lowers the count
   again, and of two sharers the other one is left with a frame that counts as free.
   */
  lemma FailedCopyFreesLiveFrame(s: State, p: nat, v: nat, r: Region)
    requires Faulting(s, p, v, r) && Dec(s.refs[PteAt(s, p, v).frame]) != 0
    ensures var f, t := PteAt(s, p, v).frame, FailedFault(s, p, v);
      && IsMapped(t, p, v) && Users(DropStep(t, p, v), f) == Users(s, f) - {(p, v)} != {}
      && (f in DropStep(t, p, v).free <==> |Users(s, f)| == 2)
  {
    hide Users, PageOk, RegionsOk;
    var f, t := PteAt(s, p, v).frame, FailedFault(s, p, v);
    FrameInBounds(s, p, v);
    FrameShape(s, f);
    SoleUser(s, p, v);
    UsersSame(s, t, f);
    UsersDelPte(t, p, v, f);
    UsersSame(DelPte(t, p, v), DropStep(t, p, v), f);
    assert |Users(s, f) - {(p, v)}| == |Users(s, f)| - 1;
  }
}
