/**
 A machine that copies all private memory at fork, and the relation between it and the
 copy-on-write state. Every step of the copy-on-write machine is a step of this one, and
 resolving a fault is no step at all.
 */
module DeepCopy {
  import opened Wrappers
  import opened VmRegions
  import opened CowState

  /** A page of private memory, or a window on MAP_SHARED memory. */
  datatype Cell = Private(data: Content) | Common(id: nat)

  datatype PlainSpace = PlainSpace(pages: map<nat, Cell>, regions: seq<Region>, mmapBase: nat)

  datatype Plain = Plain(spaces: map<nat, PlainSpace>, objects: map<nat, Content>)

  predicate Present(a: Plain, p: nat, v: nat) {
    p in a.spaces && v in a.spaces[p].pages
  }

  /** What a process reads at a page. */
  function Look(a: Plain, p: nat, v: nat): Option<Content> {
    if !Present(a, p, v) then None
    else match a.spaces[p].pages[v]
      case Private(data) => Some(data)
      case Common(id) => if id in a.objects then Some(a.objects[id]) else None
  }

  /** The byte a process reads at a virtual address. */
  function ByteAt(a: Plain, p: nat, vaddr: nat): Option<byte> {
    var page := Look(a, p, vaddr / PAGE_SIZE);
    if page.Some? && vaddr % PAGE_SIZE < |page.value| then Some(page.value[vaddr % PAGE_SIZE]) else None
  }

  /** Two addresses of processes stand for one byte: the same address, or the same place of one MAP_SHARED page. */
  predicate SameByte(a: Plain, p: nat, vaddr: nat, q: nat, other: nat) {
    || (p == q && vaddr == other)
    || (&& vaddr % PAGE_SIZE == other % PAGE_SIZE
        && Present(a, p, vaddr / PAGE_SIZE) && Present(a, q, other / PAGE_SIZE)
        && a.spaces[p].pages[vaddr / PAGE_SIZE].Common?
        && a.spaces[p].pages[vaddr / PAGE_SIZE] == a.spaces[q].pages[other / PAGE_SIZE])
  }

  /** Regions without the copy-on-write mark, which has no meaning here. */
  function Strip(rs: seq<Region>): (r: seq<Region>)
    ensures |r| == |rs| && forall i :: 0 <= i < |rs| ==> r[i] == rs[i].(cow := false)
  {
    seq(|rs|, i requires 0 <= i < |rs| => rs[i].(cow := false))
  }

  /** A new process starts without regions or pages. */
  function Spawned(a: Plain, p: nat): Plain {
    a.(spaces := a.spaces[p := PlainSpace(map[], [], MMAP_BASE_PAGE)])
  }

  /** Fork copies the whole address space: private pages by value, shared ones by reference. */
  function Fork(a: Plain, p: nat, c: nat): Plain
    requires p in a.spaces
  {
    a.(spaces := a.spaces[c := a.spaces[p]])
  }

  /** Store one byte; memory shared through `id` changes for everybody who sees it. */
  function Store(a: Plain, p: nat, v: nat, off: nat, b: byte): Plain
    requires Present(a, p, v) && Look(a, p, v).Some? && off < |Look(a, p, v).value|
  {
    var data := Poke(Look(a, p, v).value, off, b);
    match a.spaces[p].pages[v]
    case Private(_) => SetCell(a, p, v, Private(data))
    case Common(id) => a.(objects := a.objects[id := data])
  }

  /** After a store the byte, wherever it is seen, is the one stored, and every other byte is as before. */
  lemma StoredByte(a: Plain, p: nat, vaddr: nat, b: byte, q: nat, other: nat)
    requires ByteAt(a, p, vaddr).Some?
    ensures ByteAt(Store(a, p, vaddr / PAGE_SIZE, vaddr % PAGE_SIZE, b), q, other) ==
      if SameByte(a, p, vaddr, q, other) then Some(b) else ByteAt(a, q, other)
  {
    var v, off := vaddr / PAGE_SIZE, vaddr % PAGE_SIZE;
    var was, after := Look(a, p, v).value, Store(a, p, v, off, b);
    PokedByte(was, off, b, other % PAGE_SIZE);
    assert p == q && v == other / PAGE_SIZE && off == other % PAGE_SIZE ==> vaddr == other;
    assert after.spaces.Keys == a.spaces.Keys;
  }

  lemma PokedByte(c: Content, off: nat, b: byte, i: nat)
    requires off < |c|
    ensures |Poke(c, off, b)| == |c| && (i < |c| ==> Poke(c, off, b)[i] == if i == off then b else c[i])
  {
  }

  function SetCell(a: Plain, p: nat, v: nat, cell: Cell): Plain
    requires p in a.spaces
  {
    a.(spaces := a.spaces[p := a.spaces[p].(pages := a.spaces[p].pages[v := cell])])
  }

  function DropCell(a: Plain, p: nat, v: nat): Plain
    requires p in a.spaces
  {
    a.(spaces := a.spaces[p := a.spaces[p].(pages := a.spaces[p].pages - {v})])
  }

  lemma DropNothing(s: State, a: Plain, p: nat, v: nat)
    requires Refines(s, a) && p in s.spaces && v !in s.spaces[p].ptes
    ensures p in a.spaces && DropCell(a, p, v) == a
  {
    hide Strip;
    assert SpaceOk(s.spaces[p], a.spaces[p]);
    assert a.spaces[p].pages - {v} == a.spaces[p].pages;
    assert a.spaces[p := a.spaces[p]] == a.spaces;
  }

  /** The page of process `p` shows in `a` what its frame holds in `s`. */
  ghost predicate CellOk(s: State, a: Plain, p: nat, v: nat)
    requires IsMapped(s, p, v) && Present(a, p, v)
  {
    var f := PteAt(s, p, v).frame;
    && f in s.mem
    && if SharedPage(s, p, v)
       then a.spaces[p].pages[v] == Common(f) && f in a.objects && a.objects[f] == s.mem[f]
       else a.spaces[p].pages[v] == Private(s.mem[f])
  }

  ghost predicate SpaceOk(x: Space, y: PlainSpace) {
    y.pages.Keys == x.ptes.Keys && y.regions == Strip(x.regions) && y.mmapBase == x.mmapBase
  }

  ghost predicate Refines(s: State, a: Plain) {
    && a.spaces.Keys == s.spaces.Keys
    && (forall p :: p in s.spaces ==> SpaceOk(s.spaces[p], a.spaces[p]))
    && forall p, v :: IsMapped(s, p, v) ==> Present(a, p, v) && CellOk(s, a, p, v)
  }

  /** Related machines show every process the same memory. */
  lemma RefinesLook(s: State, a: Plain, p: nat, v: nat)
    requires Refines(s, a)
    ensures Present(a, p, v) <==> IsMapped(s, p, v)
    ensures IsMapped(s, p, v) ==> PteAt(s, p, v).frame in s.mem && Look(a, p, v) == Some(s.mem[PteAt(s, p, v).frame])
  {
    if p in s.spaces { assert SpaceOk(s.spaces[p], a.spaces[p]); }
    if IsMapped(s, p, v) { assert CellOk(s, a, p, v); }
  }

  lemma AddSpaceRefines(s: State, a: Plain, c: nat, rs: seq<Region>, base: nat, root: nat)
    requires Refines(s, a) && c !in s.spaces
    ensures Refines(AddSpace(s, c, rs, base, root), a.(spaces := a.spaces[c := PlainSpace(map[], Strip(rs), base)]))
  {
    hide Strip;
    var t, b := AddSpace(s, c, rs, base, root), a.(spaces := a.spaces[c := PlainSpace(map[], Strip(rs), base)]);
    forall q, w | IsMapped(t, q, w) ensures Present(b, q, w) && CellOk(t, b, q, w) {
      assert IsMapped(s, q, w) && CellOk(s, a, q, w);
    }
  }

  lemma RemoveSpaceRefines(s: State, a: Plain, p: nat)
    requires Refines(s, a) && p in s.spaces && p in s.roots
    ensures Refines(RemoveSpace(s, p), a.(spaces := a.spaces - {p}))
  {
    hide Strip;
    var t, b := RemoveSpace(s, p), a.(spaces := a.spaces - {p});
    forall q, w | IsMapped(t, q, w) ensures Present(b, q, w) && CellOk(t, b, q, w) {
      assert IsMapped(s, q, w) && CellOk(s, a, q, w);
    }
  }

  /** Frames without pages do not show. */
  lemma SameTablesRefine(s: State, t: State, a: Plain)
    requires Refines(s, a) && t.spaces == s.spaces && t.mem == s.mem
    ensures Refines(t, a)
  {
    hide Strip;
    forall q, w | IsMapped(t, q, w) ensures Present(a, q, w) && CellOk(t, a, q, w) {
      assert IsMapped(s, q, w) && CellOk(s, a, q, w);
    }
  }

  lemma ShareCell(s: State, a: Plain, p: nat, c: nat, v: nat, r: Region, q: nat, w: nat)
    requires Refines(s, a) && Sharable(s, p, c, v, r) && Present(a, p, v) && IsMapped(ShareStep(s, p, c, v, r), q, w)
    ensures var b := SetCell(a, c, v, a.spaces[p].pages[v]);
      Present(b, q, w) && CellOk(ShareStep(s, p, c, v, r), b, q, w)
  {
    hide Strip, PageOk, FrameOk, RegionsOk, RootsOk, ShareStep;
    var t := ShareStep(s, p, c, v, r);
    ShareView(s, p, c, v, r, q, w);
    ShareView(s, p, c, v, r, p, v);
    assert t.mem == s.mem by { ShareMem(s, p, c, v, r); }
    assert CellOk(s, a, p, v);
    if (q, w) != (c, v) { assert CellOk(s, a, q, w); }
  }

  lemma ShareMem(s: State, p: nat, c: nat, v: nat, r: Region)
    requires Sharable(s, p, c, v, r)
    ensures ShareStep(s, p, c, v, r).mem == s.mem
    ensures forall q :: q in s.spaces ==>
      var t := ShareStep(s, p, c, v, r);
      && q in t.spaces && t.spaces[q].mmapBase == s.spaces[q].mmapBase
      && t.spaces[q].ptes.Keys == s.spaces[q].ptes.Keys + if q == c then {v} else {}
  {
    hide PageOk, FrameOk, RegionsOk, RootsOk;
  }

  /** Sharing a page at fork copies its cell. */
  lemma ShareRefines(s: State, a: Plain, p: nat, c: nat, v: nat, r: Region)
    requires Refines(s, a) && Sharable(s, p, c, v, r) && Present(a, p, v)
    ensures c in a.spaces && Refines(ShareStep(s, p, c, v, r), SetCell(a, c, v, a.spaces[p].pages[v]))
  {
    hide Strip, PageOk, FrameOk, RegionsOk, RootsOk, SharedPage, CellOk, ShareStep;
    var t, b := ShareStep(s, p, c, v, r), SetCell(a, c, v, a.spaces[p].pages[v]);
    ShareView(s, p, c, v, r, p, v);
    ShareMem(s, p, c, v, r);
    forall q | q in t.spaces ensures SpaceOk(t.spaces[q], b.spaces[q]) {
      assert SpaceOk(s.spaces[q], a.spaces[q]);
      ShareView(s, p, c, v, r, q, v);
    }
    forall q, w | IsMapped(t, q, w) ensures Present(b, q, w) && CellOk(t, b, q, w) {
      ShareCell(s, a, p, c, v, r, q, w);
    }
  }

  /** Unmapping a page removes its cell. */
  lemma DropRefines(s: State, a: Plain, p: nat, v: nat)
    requires Refines(s, a) && Inv(s) && IsMapped(s, p, v) && PteAt(s, p, v).frame < MAX_FRAMES
    ensures p in a.spaces
    ensures Refines(DropStep(s, p, v), DropCell(a, p, v))
  {
    hide Strip, PageOk, FrameOk, RegionsOk, RootsOk;
    var t, b := DropStep(s, p, v), DropCell(a, p, v);
    assert SpaceOk(s.spaces[p], a.spaces[p]);
    forall q | q in t.spaces ensures SpaceOk(t.spaces[q], b.spaces[q]) { assert SpaceOk(s.spaces[q], a.spaces[q]); }
    forall q, w | IsMapped(t, q, w) ensures Present(b, q, w) && CellOk(t, b, q, w) {
      assert IsMapped(s, q, w) && CellOk(s, a, q, w);
    }
  }

  /** Pointing a page at a frame with the same content is invisible. */
  lemma RepointRefines(s: State, a: Plain, p: nat, v: nat, e: Pte, t: State)
    requires Refines(s, a) && IsMapped(s, p, v) && !SharedPage(s, p, v)
    requires t.spaces == SetPte(s, p, v, e).spaces
    requires PteAt(s, p, v).frame in s.mem && e.frame in t.mem && t.mem[e.frame] == s.mem[PteAt(s, p, v).frame]
    requires forall q: nat, w: nat :: IsMapped(s, q, w) && (q, w) != (p, v) ==>
      var f := PteAt(s, q, w).frame; f in s.mem && f in t.mem && t.mem[f] == s.mem[f]
    ensures Refines(t, a)
  {
    hide Strip;
    forall q | q in t.spaces ensures SpaceOk(t.spaces[q], a.spaces[q]) { assert SpaceOk(s.spaces[q], a.spaces[q]); }
    forall q, w | IsMapped(t, q, w) ensures Present(a, q, w) && CellOk(t, a, q, w) {
      SetPteView(s, p, v, e, q, w);
      assert CellOk(s, a, q, w);
    }
  }

  /** Taking over a frame is invisible. */
  lemma OwnRefines(s: State, a: Plain, p: nat, v: nat, r: Region)
    requires Refines(s, a) && Faulting(s, p, v, r)
    ensures Refines(OwnStep(s, p, v, r), a)
  {
    hide Strip, PageOk, FrameOk, RegionsOk, RootsOk;
    var e := PteFor(PteAt(s, p, v).frame, r.prot.(write := true));
    forall q: nat, w: nat | IsMapped(s, q, w) ensures PteAt(s, q, w).frame in s.mem { assert CellOk(s, a, q, w); }
    RepointRefines(s, a, p, v, e, OwnStep(s, p, v, r));
  }

  /** Copying a frame is invisible. */
  lemma CopyRefines(s: State, a: Plain, p: nat, v: nat, r: Region, nf: nat)
    requires Refines(s, a) && Faulting(s, p, v, r) && nf in s.free && PteAt(s, p, v).frame in s.mem
    ensures Refines(CopyStep(s, p, v, r, nf), a)
  {
    hide Strip, PageOk, FrameOk, RegionsOk, RootsOk, Users;
    var e := PteFor(nf, r.prot.(write := true));
    CopyUsers(s, p, v, r, nf, nf);
    forall q: nat, w: nat | IsMapped(s, q, w) ensures PteAt(s, q, w).frame in s.mem && PteAt(s, q, w).frame != nf {
      assert CellOk(s, a, q, w);
      InUsers(s, nf, q, w);
    }
    RepointRefines(s, a, p, v, e, CopyStep(s, p, v, r, nf));
  }

  lemma WriteCell(s: State, a: Plain, p: nat, v: nat, off: nat, x: byte, q: nat, w: nat)
    requires Refines(s, a) && Inv(s) && IsMapped(s, p, v) && PteAt(s, p, v).writable && off < PAGE_SIZE
    requires PteAt(s, p, v).frame in s.mem && |s.mem[PteAt(s, p, v).frame]| == PAGE_SIZE
    requires Look(a, p, v) == Some(s.mem[PteAt(s, p, v).frame]) && Present(a, p, v)
    requires IsMapped(s, q, w)
    ensures Present(Store(a, p, v, off, x), q, w)
    ensures CellOk(WriteStep(s, p, v, off, x), Store(a, p, v, off, x), q, w)
  {
    hide Strip, FrameOk, RegionsOk, RootsOk, Users, Poke;
    assert CellOk(s, a, p, v) && CellOk(s, a, q, w);
    assert PageOk(s, p, v);
    InUsers(s, PteAt(s, p, v).frame, q, w);
  }

  /** A store through a writable entry is the plain machine's store. */
  lemma WriteRefines(s: State, a: Plain, p: nat, v: nat, off: nat, x: byte)
    requires Refines(s, a) && Inv(s) && IsMapped(s, p, v) && PteAt(s, p, v).writable && off < PAGE_SIZE
    ensures PteAt(s, p, v).frame in s.mem && |s.mem[PteAt(s, p, v).frame]| == PAGE_SIZE
    ensures Present(a, p, v) && Look(a, p, v) == Some(s.mem[PteAt(s, p, v).frame])
    ensures Refines(WriteStep(s, p, v, off, x), Store(a, p, v, off, x))
  {
    hide Strip, PageOk, FrameOk, RegionsOk, RootsOk, CellOk, Poke;
    FrameHasContent(s, p, v);
    RefinesLook(s, a, p, v);
    var t, b := WriteStep(s, p, v, off, x), Store(a, p, v, off, x);
    assert SpaceOk(s.spaces[p], a.spaces[p]);
    forall q | q in t.spaces ensures q in b.spaces && SpaceOk(t.spaces[q], b.spaces[q]) {
      assert SpaceOk(s.spaces[q], a.spaces[q]);
    }
    forall q, w | IsMapped(t, q, w) ensures Present(b, q, w) && CellOk(t, b, q, w) {
      WriteCell(s, a, p, v, off, x, q, w);
    }
  }

  /** Put a fresh page into the plain machine; MAP_SHARED memory gets the unused name `id`. */
  function Place(a: Plain, p: nat, v: nat, shared: bool, id: nat, content: Content): Plain
    requires p in a.spaces
  {
    if shared then SetCell(a, p, v, Common(id)).(objects := a.objects[id := content])
    else SetCell(a, p, v, Private(content))
  }

  lemma MapRefines(s: State, a: Plain, p: nat, v: nat, r: Region, nf: nat, content: Content)
    requires Refines(s, a) && Mappable(s, p, v, r, nf, content)
    ensures p in a.spaces && Refines(MapStep(s, p, v, r, nf, content), Place(a, p, v, r.shared, nf, content))
  {
    hide Strip, PageOk, FrameOk, RegionsOk, RootsOk, Users;
    var t, b := MapStep(s, p, v, r, nf, content), Place(a, p, v, r.shared, nf, content);
    assert SpaceOk(s.spaces[p], a.spaces[p]);
    forall q | q in t.spaces ensures q in b.spaces && SpaceOk(t.spaces[q], b.spaces[q]) {
      assert SpaceOk(s.spaces[q], a.spaces[q]);
    }
    forall q: nat, w: nat | IsMapped(t, q, w) ensures Present(b, q, w) && CellOk(t, b, q, w) {
      MapUsers(s, p, v, r, nf, content, nf);
      if (q, w) != (p, v) {
        assert IsMapped(s, q, w) && CellOk(s, a, q, w);
        InUsers(s, nf, q, w);
      }
    }
  }

  lemma SetRegionsRefines(s: State, a: Plain, p: nat, rs: seq<Region>, base: nat)
    requires Refines(s, a) && p in s.spaces
    requires forall v :: v in s.spaces[p].ptes ==> SameUse(Find(s.spaces[p].regions, v), Find(rs, v))
    ensures p in a.spaces && Refines(SetRegions(s, p, rs, base), WithRegions(a, p, Strip(rs), base))
  {
    hide Strip;
    var t := SetRegions(s, p, rs, base);
    var b := WithRegions(a, p, Strip(rs), base);
    forall q | q in t.spaces ensures q in b.spaces && SpaceOk(t.spaces[q], b.spaces[q]) {
      assert SpaceOk(s.spaces[q], a.spaces[q]);
    }
    forall q, w | IsMapped(t, q, w) ensures Present(b, q, w) && CellOk(t, b, q, w) {
      assert IsMapped(s, q, w) && CellOk(s, a, q, w);
      assert SharedPage(t, q, w) == SharedPage(s, q, w);
    }
  }

  /** The machine in the middle of a fork: the child has the parent's pages `done`. */
  ghost function Forking(a: Plain, p: nat, c: nat, done: set<nat>): Plain
    requires p in a.spaces
  {
    var pages := map v | v in a.spaces[p].pages && v in done :: a.spaces[p].pages[v];
    a.(spaces := a.spaces[c := a.spaces[p].(pages := pages)])
  }

  lemma ForkStarts(a: Plain, p: nat, c: nat)
    requires p in a.spaces
    ensures Forking(a, p, c, {}) ==
      a.(spaces := a.spaces[c := PlainSpace(map[], a.spaces[p].regions, a.spaces[p].mmapBase)])
  {
  }

  lemma ForkGoesOn(a: Plain, p: nat, c: nat, done: set<nat>, v: nat)
    requires p in a.spaces && p != c && v in a.spaces[p].pages
    ensures SetCell(Forking(a, p, c, done), c, v, a.spaces[p].pages[v]) == Forking(a, p, c, done + {v})
  {
    var x := SetCell(Forking(a, p, c, done), c, v, a.spaces[p].pages[v]);
    var y := Forking(a, p, c, done + {v});
    assert x.spaces[c].pages == y.spaces[c].pages;
    assert x.spaces == y.spaces;
  }

  lemma ForkEnds(a: Plain, p: nat, c: nat, done: set<nat>)
    requires p in a.spaces && a.spaces[p].pages.Keys <= done
    ensures Forking(a, p, c, done) == Fork(a, p, c)
  {
    assert Forking(a, p, c, done).spaces[c].pages == a.spaces[p].pages;
  }

  lemma SameSpace(s: State, a: Plain, p: nat)
    requires Refines(s, a) && p in s.spaces
    ensures p in a.spaces && a.spaces[p].pages.Keys == s.spaces[p].ptes.Keys
    ensures a.spaces[p].regions == Strip(s.spaces[p].regions) && a.spaces[p].mmapBase == s.spaces[p].mmapBase
  {
    hide Strip;
    assert SpaceOk(s.spaces[p], a.spaces[p]);
  }

  lemma StripMarked(rs: seq<Region>, m: seq<Region>)
    requires |m| == |rs| && forall i :: 0 <= i < |rs| ==> m[i].(cow := false) == rs[i].(cow := false)
    ensures Strip(m) == Strip(rs)
  {
  }

  /** Once the child has all the parent's pages, the fork is done. */
  lemma PagesOfFork(s: State, now: Plain, p: nat, c: nat, a: Plain)
    requires Refines(s, now) && p in s.spaces && c in s.spaces && p != c && p in a.spaces
    requires now == Forking(a, p, c, s.spaces[c].ptes.Keys)
    requires s.spaces[p].ptes.Keys <= s.spaces[c].ptes.Keys
    ensures now == Fork(a, p, c)
  {
    SameSpace(s, now, p);
    ForkEnds(a, p, c, s.spaces[c].ptes.Keys);
  }

  /** Drop the pages `from..to` of a process. */
  ghost function DropCells(a: Plain, p: nat, gone: set<nat>): Plain
    requires p in a.spaces
  {
    a.(spaces := a.spaces[p := a.spaces[p].(pages := a.spaces[p].pages - gone)])
  }

  lemma DropOneMore(a: Plain, p: nat, gone: set<nat>, v: nat)
    requires p in a.spaces
    ensures DropCell(DropCells(a, p, gone), p, v) == DropCells(a, p, gone + {v})
  {
    assert a.spaces[p].pages - gone - {v} == a.spaces[p].pages - (gone + {v});
    var x, y := DropCell(DropCells(a, p, gone), p, v), DropCells(a, p, gone + {v});
    assert x.spaces == y.spaces;
  }

  lemma DropNone(a: Plain, p: nat)
    requires p in a.spaces
    ensures DropCells(a, p, {}) == a
  {
    assert a.spaces[p].pages - {} == a.spaces[p].pages;
    assert a.spaces[p := a.spaces[p]] == a.spaces;
  }

  /** Unmapping forgets the pages of the range and cuts the regions. */
  ghost function Unmap(a: Plain, p: nat, lo: nat, hi: nat): Plain
    requires p in a.spaces
  {
    var pages := map v | v in a.spaces[p].pages && !(lo <= v < hi) :: a.spaces[p].pages[v];
    a.(spaces := a.spaces[p := a.spaces[p].(pages := pages, regions := Cut(a.spaces[p].regions, lo, hi))])
  }

  lemma UnmapIsDropAndCut(a: Plain, p: nat, gone: set<nat>, lo: nat, hi: nat)
    requires p in a.spaces
    requires forall v :: v in gone <==> lo <= v < hi && v in a.spaces[p].pages
    ensures var b := DropCells(a, p, gone);
      b.(spaces := b.spaces[p := b.spaces[p].(regions := Cut(a.spaces[p].regions, lo, hi))]) == Unmap(a, p, lo, hi)
  {
    var b := DropCells(a, p, gone);
    var x := b.(spaces := b.spaces[p := b.spaces[p].(regions := Cut(a.spaces[p].regions, lo, hi))]);
    assert x.spaces[p].pages == Unmap(a, p, lo, hi).spaces[p].pages;
    assert x.spaces == Unmap(a, p, lo, hi).spaces;
  }

  lemma StripConcat(a: seq<Region>, b: seq<Region>)
    ensures Strip(a + b) == Strip(a) + Strip(b)
  {
  }

  lemma StripCutOne(r: Region, lo: nat, hi: nat)
    ensures Strip(CutOne(r, lo, hi)) == CutOne(r.(cow := false), lo, hi)
  {
  }

  /** Cutting and forgetting the mark can be done in either order. */
  lemma {:induction false} StripCut(rs: seq<Region>, lo: nat, hi: nat)
    ensures Strip(Cut(rs, lo, hi)) == Cut(Strip(rs), lo, hi)
  {
    hide CutOne;
    if rs == [] {
    } else {
      var front, last := rs[..|rs| - 1], rs[|rs| - 1];
      StripCut(front, lo, hi);
      assert Strip(rs)[..|rs| - 1] == Strip(front);
      StripCutOne(last, lo, hi);
      StripConcat(Cut(front, lo, hi), CutOne(last, lo, hi));
    }
  }

  lemma {:induction false} FindStrip(rs: seq<Region>, m: seq<Region>, v: nat)
    requires |m| == |rs| && forall i :: 0 <= i < |rs| ==> m[i] == rs[i].(cow := false)
    ensures Find(m, v).Some? <==> Find(rs, v).Some?
    ensures Find(rs, v).Some? ==> SameUse(Find(rs, v), Find(m, v))
    decreases |rs|
  {
    if rs != [] && !rs[0].Contains(v) { FindStrip(rs[1..], m[1..], v); }
  }

  /** A process may write to a page that is present in a writable region. */
  predicate MayWrite(a: Plain, p: nat, v: nat) {
    && Present(a, p, v)
    && var r := Find(a.spaces[p].regions, v); r.Some? && r.value.prot.write
  }

  lemma MayWriteIff(s: State, a: Plain, p: nat, v: nat)
    requires Refines(s, a) && Inv(s) && p in s.spaces
    ensures MayWrite(a, p, v) <==>
      IsMapped(s, p, v) && Find(s.spaces[p].regions, v).Some? && Find(s.spaces[p].regions, v).value.prot.write
  {
    hide PageOk, FrameOk, RegionsOk, RootsOk, CellOk;
    RefinesLook(s, a, p, v);
    SameSpace(s, a, p);
    FindStrip(s.spaces[p].regions, a.spaces[p].regions, v);
  }

  /** Give a process a region list and bump pointer. */
  function WithRegions(a: Plain, p: nat, rs: seq<Region>, base: nat): Plain
    requires p in a.spaces
  {
    a.(spaces := a.spaces[p := a.spaces[p].(regions := rs, mmapBase := base)])
  }

  /** Fill the pages from `lo` on; MAP_SHARED pages get the names `ids`. */
  function Populate(a: Plain, p: nat, lo: nat, shared: bool, ids: seq<nat>, contents: seq<Content>): (b: Plain)
    requires p in a.spaces && |ids| == |contents|
    ensures p in b.spaces && b.spaces.Keys == a.spaces.Keys
    decreases |contents|
  {
    var n := |contents|;
    if n == 0 then a
    else
      var b := Populate(a, p, lo, shared, ids[..n - 1], contents[..n - 1]);
      Place(b, p, lo + n - 1, shared, ids[n - 1], contents[n - 1])
  }

  /** Map a fresh region. */
  function Mmap(a: Plain, p: nat, r: Region, base: nat, ids: seq<nat>, contents: seq<Content>): Plain
    requires p in a.spaces && |ids| == |contents|
  {
    WithRegions(Populate(a, p, r.start, r.shared, ids, contents), p, a.spaces[p].regions + [r], base)
  }

  /** No page refers to memory under this name. */
  ghost predicate Unused(a: Plain, id: nat) {
    forall q, w :: Present(a, q, w) ==> a.spaces[q].pages[w] != Common(id)
  }

  lemma FreeFrameUnused(s: State, a: Plain, f: nat)
    requires Refines(s, a) && Inv(s) && f in s.free
    ensures Unused(a, f)
  {
    hide PageOk, RegionsOk, Users;
    forall q, w | Present(a, q, w) ensures a.spaces[q].pages[w] != Common(f) {
      RefinesLook(s, a, q, w);
      assert IsMapped(s, q, w) && CellOk(s, a, q, w);
      assert FrameOk(s, f);
      InUsers(s, f, q, w);
    }
  }

  lemma PlaceWithRegions(a: Plain, p: nat, rs: seq<Region>, base: nat, v: nat, shared: bool, id: nat, content: Content)
    requires p in a.spaces
    ensures Place(WithRegions(a, p, rs, base), p, v, shared, id, content) ==
      WithRegions(Place(a, p, v, shared, id, content), p, rs, base)
  {
    var x := Place(WithRegions(a, p, rs, base), p, v, shared, id, content);
    var y := WithRegions(Place(a, p, v, shared, id, content), p, rs, base);
    assert x.spaces == y.spaces;
  }

  lemma WithRegionsTwice(a: Plain, p: nat, rs: seq<Region>, base: nat, rs': seq<Region>, base': nat)
    requires p in a.spaces
    ensures WithRegions(WithRegions(a, p, rs, base), p, rs', base') == WithRegions(a, p, rs', base')
  {
    assert WithRegions(WithRegions(a, p, rs, base), p, rs', base').spaces == WithRegions(a, p, rs', base').spaces;
  }

  lemma PopulateNext(
      a: Plain, p: nat, lo: nat, shared: bool, ids: seq<nat>, contents: seq<Content>, id: nat, content: Content)
    requires p in a.spaces && |ids| == |contents|
    ensures Populate(a, p, lo, shared, ids + [id], contents + [content])
         == Place(Populate(a, p, lo, shared, ids, contents), p, lo + |contents|, shared, id, content)
  {
    assert (ids + [id])[..|contents|] == ids && (contents + [content])[..|contents|] == contents;
  }

  lemma StripPush(rs: seq<Region>, r: Region)
    ensures Strip(rs + [r]) == Strip(rs) + [r.(cow := false)]
  {
  }

  /** Populating touches only the pages of the range and the names it is given. */
  lemma {:induction false} PopulateEffects(
      a: Plain, p: nat, lo: nat, shared: bool, ids: seq<nat>, contents: seq<Content>)
    requires p in a.spaces && |ids| == |contents|
    ensures var b := Populate(a, p, lo, shared, ids, contents);
      && (forall q :: q in a.spaces && q != p ==> b.spaces[q] == a.spaces[q])
      && b.spaces[p].regions == a.spaces[p].regions && b.spaces[p].mmapBase == a.spaces[p].mmapBase
      && (forall v :: v in b.spaces[p].pages <==> v in a.spaces[p].pages || lo <= v < lo + |contents|)
      && (forall v :: v in a.spaces[p].pages && !(lo <= v < lo + |contents|) ==>
            b.spaces[p].pages[v] == a.spaces[p].pages[v])
      && (forall id :: id in a.objects && id !in ids ==> id in b.objects && b.objects[id] == a.objects[id])
    decreases |contents|
  {
    var n := |contents|;
    if n == 0 {
    } else {
      PopulateEffects(a, p, lo, shared, ids[..n - 1], contents[..n - 1]);
      assert ids == ids[..n - 1] + [ids[n - 1]];
    }
  }

  /** A populated page shows what it was given. */
  lemma {:induction false} PopulateShows(
      a: Plain, p: nat, lo: nat, shared: bool, ids: seq<nat>, contents: seq<Content>, i: nat)
    requires p in a.spaces && |ids| == |contents| && i < |contents|
    requires forall j, k :: 0 <= j < k < |ids| ==> ids[j] != ids[k]
    ensures var b := Populate(a, p, lo, shared, ids, contents);
      && Present(b, p, lo + i) && Look(b, p, lo + i) == Some(contents[i])
      && b.spaces[p].pages[lo + i] == if shared then Common(ids[i]) else Private(contents[i])
    decreases |contents|
  {
    var n := |contents| - 1;
    if i == n {
    } else {
      PopulateShows(a, p, lo, shared, ids[..n], contents[..n], i);
      assert ids[..n][i] != ids[n];
    }
  }

  /** Dropping what was populated leaves the address spaces as they were. */
  lemma PopulateUndone(
      a: Plain, p: nat, lo: nat, shared: bool, ids: seq<nat>, contents: seq<Content>, gone: set<nat>, rs: seq<Region>,
      base: nat)
    requires p in a.spaces && |ids| == |contents|
    requires forall v :: v in a.spaces[p].pages ==> !(lo <= v < lo + |contents|)
    requires forall v :: v in gone <==> lo <= v < lo + |contents|
    ensures WithRegions(DropCells(Populate(a, p, lo, shared, ids, contents), p, gone), p, rs, base).spaces ==
      WithRegions(a, p, rs, base).spaces
  {
    PopulateEffects(a, p, lo, shared, ids, contents);
    var b := Populate(a, p, lo, shared, ids, contents);
    var x, y := WithRegions(DropCells(b, p, gone), p, rs, base), WithRegions(a, p, rs, base);
    assert x.spaces[p].pages == y.spaces[p].pages;
    assert x.spaces == y.spaces;
  }

  /** Names that no page uses do not matter. */
  lemma UnusedNamesIgnored(s: State, b: Plain, a: Plain)
    requires Refines(s, b) && a.spaces == b.spaces
    requires forall q, w :: Present(a, q, w) && a.spaces[q].pages[w].Common? ==>
      var id := a.spaces[q].pages[w].id; id in a.objects && (id in b.objects ==> a.objects[id] == b.objects[id])
    ensures Refines(s, a)
  {
    hide Strip;
    forall q | q in s.spaces ensures q in a.spaces && SpaceOk(s.spaces[q], a.spaces[q]) {
      assert SpaceOk(s.spaces[q], b.spaces[q]);
    }
    forall q, w | IsMapped(s, q, w) ensures Present(a, q, w) && CellOk(s, a, q, w) { assert CellOk(s, b, q, w); }
  }

  lemma CommonHasObject(s: State, a: Plain, q: nat, w: nat)
    requires Refines(s, a) && Present(a, q, w) && a.spaces[q].pages[w].Common?
    ensures a.spaces[q].pages[w].id in a.objects
  {
    RefinesLook(s, a, q, w);
    assert CellOk(s, a, q, w);
  }

  /** Undoing a failed mapping: the state still refines the machine before it, with the new bump pointer. */
  lemma FailedMapRefines(
      s0: State, a: Plain, s: State, p: nat, lo: nat, shared: bool, ids: seq<nat>, contents: seq<Content>,
      gone: set<nat>, rs: seq<Region>, base: nat)
    requires Refines(s0, a) && p in a.spaces && |ids| == |contents|
    requires forall i :: 0 <= i < |ids| ==> Unused(a, ids[i])
    requires forall v :: v in a.spaces[p].pages ==> !(lo <= v < lo + |contents|)
    requires forall v :: v in gone <==> lo <= v < lo + |contents|
    requires Refines(s, WithRegions(DropCells(Populate(a, p, lo, shared, ids, contents), p, gone), p, rs, base))
    ensures Refines(s, WithRegions(a, p, rs, base))
  {
    hide Strip, Refines, Populate;
    var b := WithRegions(DropCells(Populate(a, p, lo, shared, ids, contents), p, gone), p, rs, base);
    var c := WithRegions(a, p, rs, base);
    PopulateUndone(a, p, lo, shared, ids, contents, gone, rs, base);
    PopulateEffects(a, p, lo, shared, ids, contents);
    forall q, w | Present(c, q, w) && c.spaces[q].pages[w].Common?
      ensures var id := c.spaces[q].pages[w].id; id in c.objects && (id in b.objects ==> c.objects[id] == b.objects[id])
    {
      assert Present(a, q, w);
      CommonHasObject(s0, a, q, w);
    }
    UnusedNamesIgnored(s, b, c);
  }

  lemma DropWithRegions(a: Plain, p: nat, gone: set<nat>, rs: seq<Region>, base: nat, rs': seq<Region>)
    requires p in a.spaces
    ensures WithRegions(DropCells(WithRegions(a, p, rs, base), p, gone), p, rs', base) ==
      WithRegions(DropCells(a, p, gone), p, rs', base)
  {
    var x := WithRegions(DropCells(WithRegions(a, p, rs, base), p, gone), p, rs', base);
    var y := WithRegions(DropCells(a, p, gone), p, rs', base);
    assert x.spaces == y.spaces;
  }
}
