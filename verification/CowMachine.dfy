/**
 The memory manager's operations on address spaces: fork, write faults, mapping,
 unmapping and release, with their loops over regions and pages. A ghost machine that
 copies memory at fork runs alongside; the two never come apart.
 */
module CowMachine {
  import opened Wrappers
  import opened VmRegions
  import opened CowFrames
  import opened CowState
  import DeepCopy

  datatype WriteOutcome = Written | Refused | NoFrame

  lemma OverlapNotDisjoint(rs: seq<Region>, r: Region)
    requires SharesPage(rs, r.start, r.end)
    ensures !Disjoint(rs + [r])
  {
    var i :| 0 <= i < |rs| && Max(rs[i].start, r.start) < Min(rs[i].end, r.end);
    var page: nat := Max(rs[i].start, r.start);
    var all := rs + [r];
    assert all[i].Contains(page) && all[|rs|].Contains(page);
  }

  lemma CollidesShares(hint: Option<nat>, size: nat, rs: seq<Region>, base: nat)
    requires Collides(hint, size, rs, base)
    ensures var lo := PickAddr(hint, size, rs, base).0; SharesPage(rs, lo, lo + size)
  {
  }

  lemma NotDisjointInvalid(s: State, p: nat)
    requires p in s.spaces && !Disjoint(s.spaces[p].regions)
    ensures !Inv(s)
  {
    hide Users, PageOk, FrameOk, RootsOk;
    assert !RegionsOk(s.spaces[p].regions);
  }

  /** Pages for `len` bytes. */
  function PagesFor(len: nat): nat {
    (len + PAGE_SIZE - 1) / PAGE_SIZE
  }

  function PageOf(hint: Option<nat>): Option<nat> {
    if hint.Some? then Some(hint.value / PAGE_SIZE) else None
  }

  predicate FixedOk(hint: Option<nat>, pages: nat) {
    hint.Some? && hint.value / PAGE_SIZE > 0 && hint.value / PAGE_SIZE + pages <= STACK_TOP_PAGE
  }

  function NewRegion(lo: nat, len: nat, prot: Prot, shared: bool, data: Option<seq<byte>>): Region {
    Region(lo, lo + PagesFor(len), prot, if data.Some? && shared then Shared else Anonymous, shared, false)
  }

  /** The plain machine once the range of a fixed mapping has been unmapped. */
  ghost function Cleared(a: DeepCopy.Plain, p: nat, lo: nat, pages: nat): (b: DeepCopy.Plain)
    requires p in a.spaces
    ensures p in b.spaces
  {
    if pages == 0 then a else DeepCopy.Unmap(a, p, lo, lo + pages)
  }

  /** The outcome of a mapping at `lo`, seen by the plain machine. */
  ghost predicate MappedAt(
      a: DeepCopy.Plain, b: DeepCopy.Plain, p: nat, lo: nat, r: Region, base: nat, addr: Option<nat>, ids: seq<nat>,
      data: Option<seq<byte>>)
    requires p in a.spaces
  {
    if addr.None? then b == DeepCopy.WithRegions(a, p, a.spaces[p].regions, base)
    else
      && addr.value == lo * PAGE_SIZE && r.start <= r.end && |ids| == r.end - r.start && FreshNames(a, ids)
      && b == DeepCopy.Mmap(a, p, r, base, ids, Contents(data, r.end - r.start))
  }

  lemma RangeAligned(lo: nat, pages: nat)
    ensures lo * PAGE_SIZE / PAGE_SIZE == lo
    ensures (lo * PAGE_SIZE + pages * PAGE_SIZE + PAGE_SIZE - 1) / PAGE_SIZE == lo + pages
  {
  }

  /** The regions once the range of a fixed mapping has been unmapped. */
  function CutRange(rs: seq<Region>, lo: nat, pages: nat): seq<Region> {
    if pages == 0 then rs else Cut(rs, lo, lo + pages)
  }

  lemma CutFreesRange(rs: seq<Region>, lo: nat, pages: nat)
    requires RegionsOk(rs)
    ensures RangeFree(CutRange(rs, lo, pages), lo, lo + pages)
  {
    var cut, hi := CutRange(rs, lo, pages), lo + pages;
    forall page: nat | lo <= page < hi ensures !Mapped(cut, page) { CutMapped(rs, lo, hi, page); }
  }

  /** A mapping of which `i` pages are done, since state `s0` and plain machine `a`. */
  ghost predicate Mapping(
      s0: State, a: DeepCopy.Plain, s: State, now: DeepCopy.Plain, p: nat, like: Region, base: nat, i: nat,
      ids: seq<nat>, data: Option<seq<byte>>) {
    && p in s0.spaces && p in s.spaces && p in a.spaces && |ids| == i
    && a.spaces[p].regions == DeepCopy.Strip(s0.spaces[p].regions)
    && s.spaces[p].regions == s0.spaces[p].regions + [like.(end := like.start + i)] && s.spaces[p].mmapBase == base
    && (forall v :: v in s.spaces[p].ptes <==> v in s0.spaces[p].ptes || like.start <= v < like.start + i)
    && (forall j, k :: 0 <= j < k < i ==> ids[j] != ids[k])
    && (forall j :: 0 <= j < i ==> ids[j] in s0.free && ids[j] !in s.free)
    && s.free <= s0.free && |s.free| == |s0.free| - i
    && var built := DeepCopy.Populate(a, p, like.start, like.shared, ids, Contents(data, i));
       now == DeepCopy.WithRegions(built, p, DeepCopy.Strip(s.spaces[p].regions), base)
  }

  lemma RangeFreePart(rs: seq<Region>, lo: nat, mid: nat, hi: nat)
    requires RangeFree(rs, lo, hi) && mid <= hi
    ensures RangeFree(rs, lo, mid)
  {
  }

  lemma MappingFacts(
      s0: State, a: DeepCopy.Plain, s: State, now: DeepCopy.Plain, p: nat, like: Region, base: nat, i: nat,
      ids: seq<nat>, data: Option<seq<byte>>)
    requires Mapping(s0, a, s, now, p, like, base, i, ids, data)
    ensures p in s0.spaces && p in s.spaces && p in a.spaces && |ids| == i && |s.free| == |s0.free| - i
    ensures s.spaces[p].regions == s0.spaces[p].regions + [like.(end := like.start + i)] && s.spaces[p].mmapBase == base
  {
  }

  lemma UndoMapping(
      s0: State, a: DeepCopy.Plain, s: State, now: DeepCopy.Plain, t: State, left: DeepCopy.Plain, p: nat, like: Region,
      base: nat, i: nat, ids: seq<nat>, data: Option<seq<byte>>)
    requires Mapping(s0, a, s, now, p, like, base, i, ids, data) && Inv(s0) && DeepCopy.Refines(s0, a) && !like.cow
    requires RangeFree(s0.spaces[p].regions, like.start, like.start + i)
    requires p in now.spaces && DeepCopy.Refines(t, left)
    requires var gone := set v | v in s.spaces[p].ptes && like.start <= v < like.start + i;
      var dropped := DeepCopy.DropCells(now, p, gone);
      && dropped.spaces[p].regions != []
      && left == DeepCopy.WithRegions(dropped, p, dropped.spaces[p].regions[..|dropped.spaces[p].regions| - 1], base)
    ensures DeepCopy.Refines(t, DeepCopy.WithRegions(a, p, a.spaces[p].regions, base))
  {
    hide DeepCopy.Refines, DeepCopy.Populate, DeepCopy.Strip, DeepCopy.Unused, Users, FrameOk, PageOk, RegionsOk;
    var gone := set v | v in s.spaces[p].ptes && like.start <= v < like.start + i;
    var built := DeepCopy.Populate(a, p, like.start, like.shared, ids, Contents(data, i));
    var rs, last := s0.spaces[p].regions, like.(end := like.start + i);
    DeepCopy.StripPush(rs, last);
    assert DeepCopy.DropCells(now, p, gone).spaces[p].regions == a.spaces[p].regions + [last];
    assert (a.spaces[p].regions + [last])[..|a.spaces[p].regions|] == a.spaces[p].regions;
    DeepCopy.DropWithRegions(built, p, gone, DeepCopy.Strip(s.spaces[p].regions), base, a.spaces[p].regions);
    DeepCopy.SameSpace(s0, a, p);
    AllInRegions(s0, p);
    forall j | 0 <= j < |ids| ensures DeepCopy.Unused(a, ids[j]) { DeepCopy.FreeFrameUnused(s0, a, ids[j]); }
    var contents, regions := Contents(data, i), a.spaces[p].regions;
    DeepCopy.FailedMapRefines(s0, a, t, p, like.start, like.shared, ids, contents, gone, regions, base);
  }

  lemma MappingStarts(
      s0: State, a: DeepCopy.Plain, s: State, now: DeepCopy.Plain, p: nat, like: Region, base: nat,
      data: Option<seq<byte>>)
    requires p in s0.spaces && p in a.spaces && a.spaces[p].regions == DeepCopy.Strip(s0.spaces[p].regions)
    requires like.start == like.end && !like.cow && s.free == s0.free
    requires s.spaces == s0.spaces[p := s0.spaces[p].(regions := s0.spaces[p].regions + [like], mmapBase := base)]
    requires now == DeepCopy.WithRegions(a, p, a.spaces[p].regions + [like], base)
    ensures Mapping(s0, a, s, now, p, like, base, 0, [], data)
  {
    hide DeepCopy.WithRegions, DeepCopy.Strip;
    DeepCopy.StripPush(s0.spaces[p].regions, like);
    assert like.(end := like.start + 0) == like;
    assert DeepCopy.Populate(a, p, like.start, like.shared, [], Contents(data, 0)) == a;
  }

  lemma MappingNext(
      s0: State, a: DeepCopy.Plain, s: State, now: DeepCopy.Plain, s': State, now': DeepCopy.Plain, p: nat,
      like: Region, base: nat, i: nat, ids: seq<nat>, id: nat, data: Option<seq<byte>>)
    requires Mapping(s0, a, s, now, p, like, base, i, ids, data) && GrownBy(s, s', p) && id in s.free
    requires s'.free == s.free - {id}
    requires p in now.spaces
    requires var placed := DeepCopy.Place(now, p, like.start + i, like.shared, id, PageContent(data, i));
      now' == DeepCopy.WithRegions(placed, p, DeepCopy.Strip(s'.spaces[p].regions), s'.spaces[p].mmapBase)
    ensures Mapping(s0, a, s', now', p, like, base, i + 1, ids + [id], data)
  {
    hide DeepCopy.WithRegions, DeepCopy.Strip, DeepCopy.Populate, DeepCopy.Place, PageContent;
    var cs := Contents(data, i);
    assert Contents(data, i + 1) == cs + [PageContent(data, i)];
    var built := DeepCopy.Populate(a, p, like.start, like.shared, ids, cs);
    var rs, rs' := DeepCopy.Strip(s.spaces[p].regions), DeepCopy.Strip(s'.spaces[p].regions);
    DeepCopy.PopulateNext(a, p, like.start, like.shared, ids, cs, id, PageContent(data, i));
    DeepCopy.PlaceWithRegions(built, p, rs, base, like.start + i, like.shared, id, PageContent(data, i));
    var placed := DeepCopy.Place(built, p, like.start + i, like.shared, id, PageContent(data, i));
    DeepCopy.WithRegionsTwice(placed, p, rs, base, rs', base);
    assert s'.spaces[p].regions == s0.spaces[p].regions + [like.(end := like.start + (i + 1))];
  }

  lemma NextPageFree(
      s0: State, a: DeepCopy.Plain, s: State, now: DeepCopy.Plain, p: nat, like: Region, base: nat, i: nat,
      ids: seq<nat>, data: Option<seq<byte>>, pages: nat)
    requires Mapping(s0, a, s, now, p, like, base, i, ids, data) && Inv(s) && i < pages && !like.cow
    requires RangeFree(s0.spaces[p].regions, like.start, like.start + pages)
    ensures p in s.spaces && s.spaces[p].regions != []
    ensures var r := s.spaces[p].regions[|s.spaces[p].regions| - 1];
      && r == like.(end := like.start + i)
      && !Mapped(s.spaces[p].regions, r.end) && r.end !in s.spaces[p].ptes
  {
    hide Users, FrameOk, PageOk, RegionsOk, DeepCopy.WithRegions, DeepCopy.Strip, DeepCopy.Populate;
    var rs := s.spaces[p].regions;
    var r := rs[|rs| - 1];
    assert rs[..|rs| - 1] == s0.spaces[p].regions && rs[..|rs| - 1 + 1] == rs;
    MappedNext(rs, |rs| - 1, r.end);
    AllInRegions(s, p);
  }

  lemma MappingDone(
      s0: State, a: DeepCopy.Plain, s: State, now: DeepCopy.Plain, p: nat, like: Region, base: nat, i: nat,
      ids: seq<nat>, data: Option<seq<byte>>)
    requires Mapping(s0, a, s, now, p, like, base, i, ids, data) && Inv(s0) && DeepCopy.Refines(s0, a) && !like.cow
    ensures now == DeepCopy.Mmap(a, p, like.(end := like.start + i), base, ids, Contents(data, i))
    ensures FreshNames(a, ids) && |s0.free| >= i
  {
    hide Inv, DeepCopy.Refines, DeepCopy.WithRegions, DeepCopy.Strip, DeepCopy.Populate, DeepCopy.Unused;
    DeepCopy.StripPush(s0.spaces[p].regions, like.(end := like.start + i));
    forall j | 0 <= j < |ids| ensures DeepCopy.Unused(a, ids[j]) { DeepCopy.FreeFrameUnused(s0, a, ids[j]); }
  }

  /** What a fresh page holds: zeros, overlaid with the file's bytes if there is a file. */
  function PageContent(data: Option<seq<byte>>, i: nat): (c: Content)
    ensures |c| == PAGE_SIZE
  {
    if data.None? || i * PAGE_SIZE >= |data.value| then Zeros(PAGE_SIZE)
    else
      var n := Min(PAGE_SIZE, |data.value| - i * PAGE_SIZE);
      data.value[i * PAGE_SIZE..i * PAGE_SIZE + n] + Zeros(PAGE_SIZE - n)
  }

  function Contents(data: Option<seq<byte>>, n: nat): (cs: seq<Content>)
    ensures |cs| == n && forall i :: 0 <= i < n ==> cs[i] == PageContent(data, i)
  {
    seq(n, i requires 0 <= i < n => PageContent(data, i))
  }

  /** Byte `k` of a mapping: the file's, and zero where there is no file or past its end. */
  function DataByte(data: Option<seq<byte>>, k: nat): byte {
    if data.Some? && k < |data.value| then data.value[k] else 0
  }

  lemma PageByte(data: Option<seq<byte>>, i: nat, off: nat)
    requires off < PAGE_SIZE
    ensures PageContent(data, i)[off] == DataByte(data, i * PAGE_SIZE + off)
  {
  }

  /** After a mapping every byte of it is the file's or zero. */
  lemma MappedByte(
      a: DeepCopy.Plain, p: nat, r: Region, base: nat, ids: seq<nat>, data: Option<seq<byte>>, vaddr: nat)
    requires p in a.spaces && r.start <= r.end && |ids| == r.end - r.start
    requires forall i, j :: 0 <= i < j < |ids| ==> ids[i] != ids[j]
    requires r.start * PAGE_SIZE <= vaddr < r.end * PAGE_SIZE
    ensures DeepCopy.ByteAt(DeepCopy.Mmap(a, p, r, base, ids, Contents(data, |ids|)), p, vaddr) ==
      Some(DataByte(data, vaddr - r.start * PAGE_SIZE))
  {
    hide DeepCopy.Populate, PageContent, DataByte;
    var i, off := vaddr / PAGE_SIZE - r.start, vaddr % PAGE_SIZE;
    DeepCopy.PopulateShows(a, p, r.start, r.shared, ids, Contents(data, |ids|), i);
    PageByte(data, i, off);
    assert i * PAGE_SIZE + off == vaddr - r.start * PAGE_SIZE;
  }

  /** The byte that memory holds at a virtual address, through the page table. */
  function ByteIn(s: State, p: nat, vaddr: nat): Option<byte> {
    if !IsMapped(s, p, vaddr / PAGE_SIZE) then None
    else
      var frame := PteAt(s, p, vaddr / PAGE_SIZE).frame;
      if frame in s.mem && vaddr % PAGE_SIZE < |s.mem[frame]| then Some(s.mem[frame][vaddr % PAGE_SIZE]) else None
  }

  lemma SeenByte(s: State, a: DeepCopy.Plain, p: nat, vaddr: nat)
    requires DeepCopy.Refines(s, a)
    ensures ByteIn(s, p, vaddr) == DeepCopy.ByteAt(a, p, vaddr)
  {
    hide DeepCopy.Refines;
    DeepCopy.RefinesLook(s, a, p, vaddr / PAGE_SIZE);
  }

  /** Page `lo + i` of `p` holds page `i` of the mapping, for `i` below `n`. */
  ghost predicate Filled(s: State, p: nat, lo: nat, n: nat, data: Option<seq<byte>>) {
    forall i: nat :: i < n ==> PageIs(s, p, lo + i, PageContent(data, i))
  }

  predicate PageIs(s: State, p: nat, v: nat, content: Content) {
    IsMapped(s, p, v) && PteAt(s, p, v).frame in s.mem && s.mem[PteAt(s, p, v).frame] == content
  }

  lemma FilledByte(s: State, p: nat, lo: nat, n: nat, data: Option<seq<byte>>, k: nat)
    requires Filled(s, p, lo, n, data) && k < n * PAGE_SIZE
    ensures ByteIn(s, p, lo * PAGE_SIZE + k) == Some(DataByte(data, k))
  {
    hide PageContent, DataByte;
    var i, off := k / PAGE_SIZE, k % PAGE_SIZE;
    assert PageIs(s, p, lo + i, PageContent(data, i));
    assert (lo * PAGE_SIZE + k) / PAGE_SIZE == lo + i && (lo * PAGE_SIZE + k) % PAGE_SIZE == off;
    PageByte(data, i, off);
  }

  /** Distinct names that no page used. */
  ghost predicate FreshNames(a: DeepCopy.Plain, ids: seq<nat>) {
    && (forall i, j :: 0 <= i < j < |ids| ==> ids[i] != ids[j])
    && forall i :: 0 <= i < |ids| ==> DeepCopy.Unused(a, ids[i])
  }

  lemma MappedBytes(
      s: State, a: DeepCopy.Plain, b: DeepCopy.Plain, p: nat, lo: nat, r: Region, base: nat, ids: seq<nat>,
      data: Option<seq<byte>>)
    requires DeepCopy.Refines(s, b) && p in a.spaces && r.start == lo
    requires MappedAt(a, b, p, lo, r, base, Some(lo * PAGE_SIZE), ids, data)
    ensures forall k: nat :: k < (r.end - r.start) * PAGE_SIZE ==>
      ByteIn(s, p, lo * PAGE_SIZE + k) == Some(DataByte(data, k))
  {
    hide DeepCopy.Refines, DeepCopy.Mmap, DataByte, ByteIn;
    forall k: nat | k < (r.end - r.start) * PAGE_SIZE
      ensures ByteIn(s, p, lo * PAGE_SIZE + k) == Some(DataByte(data, k))
    {
      SeenByte(s, b, p, lo * PAGE_SIZE + k);
      MappedByte(a, p, r, base, ids, data, lo * PAGE_SIZE + k);
    }
  }

  /** The last region has gained one page, which is mapped now; nothing else is. */
  ghost predicate GrownBy(s: State, t: State, p: nat)
    requires p in s.spaces && s.spaces[p].regions != []
  {
    var n := |s.spaces[p].regions| - 1;
    var r := s.spaces[p].regions[n];
    && p in t.spaces && t.spaces[p].regions == s.spaces[p].regions[..n] + [r.(end := r.end + 1)]
    && t.spaces[p].mmapBase == s.spaces[p].mmapBase
    && t.spaces[p].ptes.Keys == s.spaces[p].ptes.Keys + {r.end}
  }

  lemma GrowIsOnePage(s: State, t: State, p: nat, e: Pte)
    requires p in s.spaces && s.spaces[p].regions != []
    requires var n := |s.spaces[p].regions| - 1; var r := s.spaces[p].regions[n];
      && p in t.spaces && t.spaces[p] ==
        Space(s.spaces[p].ptes[r.end := e], s.spaces[p].regions[..n] + [r.(end := r.end + 1)], s.spaces[p].mmapBase)
    ensures GrownBy(s, t, p)
  {
  }

  lemma EnterKeepsUse(s: State, p: nat, r: Region)
    requires Inv(s) && p in s.spaces && r.start == r.end && r.kind != Device && !r.cow
    ensures RegionsOk(s.spaces[p].regions + [r])
    ensures forall v :: v in s.spaces[p].ptes ==>
      SameUse(Find(s.spaces[p].regions, v), Find(s.spaces[p].regions + [r], v))
  {
    hide Users, FrameOk;
    var rs := s.spaces[p].regions;
    assert RegionsOk(rs);
    AppendDisjoint(rs, r);
    forall v | v in s.spaces[p].ptes ensures SameUse(Find(rs, v), Find(rs + [r], v)) {
      assert IsMapped(s, p, v) && PageOk(s, p, v);
    }
  }

  lemma LeaveKeepsUse(s: State, p: nat)
    requires Inv(s) && p in s.spaces && s.spaces[p].regions != []
    requires forall v :: v in s.spaces[p].ptes ==> !s.spaces[p].regions[|s.spaces[p].regions| - 1].Contains(v)
    ensures var rs := s.spaces[p].regions;
      && RegionsOk(rs[..|rs| - 1])
      && forall v :: v in s.spaces[p].ptes ==> SameUse(Find(rs, v), Find(rs[..|rs| - 1], v))
  {
    hide Users, FrameOk;
    var rs := s.spaces[p].regions;
    var front, last := rs[..|rs| - 1], rs[|rs| - 1];
    assert RegionsOk(rs) && rs == front + [last];
    forall v | v in s.spaces[p].ptes ensures SameUse(Find(rs, v), Find(front, v)) {
      assert IsMapped(s, p, v) && PageOk(s, p, v);
      FindPrefix(front, last, v);
    }
  }

  lemma GrowKeepsUse(s: State, p: nat)
    requires Inv(s) && p in s.spaces && s.spaces[p].regions != []
    requires var r := s.spaces[p].regions[|s.spaces[p].regions| - 1]; !Mapped(s.spaces[p].regions, r.end) && !r.cow
    ensures var rs := s.spaces[p].regions; var r := rs[|rs| - 1]; var grown := r.(end := r.end + 1);
      && RegionsOk(rs[..|rs| - 1] + [grown])
      && Find(rs[..|rs| - 1] + [grown], r.end) == Some(grown)
      && forall v :: v in s.spaces[p].ptes ==> SameUse(Find(rs, v), Find(rs[..|rs| - 1] + [grown], v))
  {
    hide Users, FrameOk;
    var rs := s.spaces[p].regions;
    assert RegionsOk(rs);
    forall v | v in s.spaces[p].ptes ensures Find(rs, v).Some? { assert IsMapped(s, p, v) && PageOk(s, p, v); }
    var front, r := rs[..|rs| - 1], rs[|rs| - 1];
    assert rs == front + [r];
    GrowApart(rs, r.(end := r.end + 1));
    GrowLast(front, r, r.(end := r.end + 1));
  }

  /** A last region may grow by a page that no other region has. */
  lemma GrowLast(front: seq<Region>, r: Region, grown: Region)
    requires RegionsOk(front) && RegionShape(r) && !r.cow && grown == r.(end := r.end + 1)
    requires forall page: nat :: grown.Contains(page) ==> !Mapped(front, page)
    ensures RegionsOk(front + [grown])
    ensures Find(front + [grown], r.end) == Some(grown)
    ensures forall v: nat :: Find(front + [r], v).Some? ==> SameUse(Find(front + [r], v), Find(front + [grown], v))
  {
    hide Mapped, Disjoint, Find;
    forall page: nat | r.Contains(page) ensures !Mapped(front, page) { assert grown.Contains(page); }
    AppendDisjoint(front, r);
    AppendDisjoint(front, grown);
    forall v: nat | Find(front + [r], v).Some? ensures SameUse(Find(front + [r], v), Find(front + [grown], v)) {
      assert r.Contains(v) ==> grown.Contains(v);
      assert grown.Contains(v) ==> !Mapped(front, v);
      if !r.Contains(v) { InRegionsOnly(front, v); }
    }
  }

  lemma InRegionsOnly(rs: seq<Region>, v: nat)
    requires Disjoint(rs)
    ensures Find(rs, v).Some? <==> Mapped(rs, v)
  {
    FindCovers(rs, v);
  }

  lemma GrowApart(rs: seq<Region>, grown: Region)
    requires RegionsOk(rs) && rs != [] && !Mapped(rs, rs[|rs| - 1].end)
    requires grown == rs[|rs| - 1].(end := rs[|rs| - 1].end + 1)
    ensures RegionsOk(rs[..|rs| - 1]) && RegionShape(rs[|rs| - 1])
    ensures forall page: nat :: grown.Contains(page) ==> !Mapped(rs[..|rs| - 1], page)
  {
    var front, r := rs[..|rs| - 1], rs[|rs| - 1];
    forall page: nat | grown.Contains(page) ensures !Mapped(front, page) {
      if page == r.end {
        MappedNext(rs, |rs| - 1, page);
        assert rs[..|rs| - 1 + 1] == rs;
      }
    }
  }

  lemma WritableOnly(s: State, p: nat, v: nat)
    requires Inv(s) && IsMapped(s, p, v)
    ensures Find(s.spaces[p].regions, v).Some?
    ensures PteAt(s, p, v).writable || CowPage(s, p, v) <==> Find(s.spaces[p].regions, v).value.prot.write
  {
    hide Users, FrameOk;
    assert PageOk(s, p, v);
    NotDevice(s, p, v);
  }

  /** A present page of a private writable region. */
  predicate CowPage(s: State, p: nat, v: nat) {
    && IsMapped(s, p, v)
    && var r := Find(s.spaces[p].regions, v); r.Some? && CanCow(r.value)
  }

  /** Resolving a write fault on the page needs a copy, and no frame is free for it. */
  predicate OutOfFrames(s: State, p: nat, v: nat)
    requires |s.refs| == MAX_FRAMES
  {
    && CowPage(s, p, v) && s.free == {}
    && PteAt(s, p, v).frame < MAX_FRAMES && Dec(s.refs[PteAt(s, p, v).frame]) != 0
  }

  /** The kernel's test for a copy-on-write fault. */
  predicate CowMarked(s: State, p: nat, v: nat) {
    IsMapped(s, p, v) && (PteAt(s, p, v).cow || var r := Find(s.spaces[p].regions, v); r.Some? && r.value.cow)
  }

  /** The test picks out private writable pages, all of those the hardware does not let the process write. */
  lemma CowFaultIff(s: State, p: nat, v: nat)
    requires Inv(s) && IsMapped(s, p, v)
    ensures var r := Find(s.spaces[p].regions, v);
      && r.Some? && (CowMarked(s, p, v) ==> CanCow(r.value))
      && (!PteAt(s, p, v).writable ==> (CowMarked(s, p, v) <==> CanCow(r.value)))
      && PteAt(s, p, v).frame < MAX_FRAMES && PteAt(s, p, v).frame in s.mem
      && (CanCow(r.value) ==> Faulting(s, p, v, r.value))
      && (PteAt(s, p, v).writable && CanCow(r.value) ==> Dec(s.refs[PteAt(s, p, v).frame]) == 0)
  {
    hide Users;
    FrameInBounds(s, p, v);
    FrameHasContent(s, p, v);
    assert PageOk(s, p, v);
    NotDevice(s, p, v);
    SoleUser(s, p, v);
  }

  /** Taking the frame over keeps everything when nobody else holds it. */
  lemma FaultChoices(s: State, a: DeepCopy.Plain, p: nat, v: nat)
    requires DeepCopy.Refines(s, a) && CowPage(s, p, v) && Faulting(s, p, v, Find(s.spaces[p].regions, v).value)
    ensures var r := Find(s.spaces[p].regions, v).value;
      Dec(s.refs[PteAt(s, p, v).frame]) == 0 ==> Inv(OwnStep(s, p, v, r)) && DeepCopy.Refines(OwnStep(s, p, v, r), a)
  {
    hide Users, PageOk, FrameOk, RegionsOk, DeepCopy.Refines;
    var r := Find(s.spaces[p].regions, v).value;
    if Dec(s.refs[PteAt(s, p, v).frame]) == 0 {
      OwnKeeps(s, p, v, r);
      DeepCopy.OwnRefines(s, a, p, v, r);
    }
  }

  /** Cutting the regions of a range without mapped pages keeps the use of every mapped page. */
  lemma CutKeepsUse(s: State, p: nat, lo: nat, hi: nat)
    requires Inv(s) && p in s.spaces && lo <= hi
    requires forall v :: v in s.spaces[p].ptes ==> !(lo <= v < hi)
    ensures RegionsOk(Cut(s.spaces[p].regions, lo, hi))
    ensures forall v :: v in s.spaces[p].ptes ==>
      SameUse(Find(s.spaces[p].regions, v), Find(Cut(s.spaces[p].regions, lo, hi), v))
  {
    hide Users, FrameOk;
    var rs := s.spaces[p].regions;
    assert RegionsOk(rs);
    CutKeepsDisjoint(rs, lo, hi);
    assert forall i :: 0 <= i < |rs| ==> RegionShape(rs[i]);
    CutKeepsShape(rs, lo, hi);
    assert forall i :: 0 <= i < |Cut(rs, lo, hi)| ==> RegionShape(Cut(rs, lo, hi)[i]);
    forall v | v in s.spaces[p].ptes ensures SameUse(Find(rs, v), Find(Cut(rs, lo, hi), v)) {
      assert IsMapped(s, p, v) && PageOk(s, p, v);
      FindCut(rs, lo, hi, v);
    }
  }

  predicate RegionShape(r: Region) {
    r.start <= r.end && r.kind != Device && (r.cow ==> CanCow(r))
  }

  lemma {:induction false} CutKeepsShape(rs: seq<Region>, lo: nat, hi: nat)
    requires forall i :: 0 <= i < |rs| ==> RegionShape(rs[i])
    ensures forall i :: 0 <= i < |Cut(rs, lo, hi)| ==> RegionShape(Cut(rs, lo, hi)[i])
  {
    if rs == [] {
    } else {
      CutKeepsShape(rs[..|rs| - 1], lo, hi);
      var parts := CutOne(rs[|rs| - 1], lo, hi);
      assert RegionShape(rs[|rs| - 1]);
      assert forall i :: 0 <= i < |parts| ==> RegionShape(parts[i]);
    }
  }

  /** After a fork of `p` no frame has more than 65535 users. */
  ghost predicate RoomToFork(s: State, p: nat)
    requires p in s.spaces
  {
    forall f :: f in s.frames ==> |Users(s, f)| + |PagesOn(s, p, f)| <= MAX_REFS
  }

  ghost function PagesOn(s: State, p: nat, f: nat): set<nat>
    requires p in s.spaces
  {
    set v | v in s.spaces[p].ptes && s.spaces[p].ptes[v].frame == f
  }

  /** Counts do not saturate while there are fewer processes than their largest value. */
  lemma FewProcesses(s: State, p: nat)
    requires Inv(s) && p in s.spaces && |s.spaces| < MAX_REFS
    ensures RoomToFork(s, p)
  {
    hide PageOk, RegionsOk, Users, PagesOn;
    forall f | f in s.frames ensures |Users(s, f)| + |PagesOn(s, p, f)| <= MAX_REFS {
      SharersAreProcesses(s, f);
      OneOwnPage(s, p, f);
    }
  }

  /** Every page of `s` still maps its frame in `t`, and `c` maps those of `p`. */
  ghost predicate SharesAll(s: State, t: State, p: nat, c: nat) {
    && p in s.spaces && c in t.spaces
    && (forall q, v :: IsMapped(s, q, v) ==> IsMapped(t, q, v) && PteAt(t, q, v).frame == PteAt(s, q, v).frame)
    && (forall v :: IsMapped(s, p, v) ==> IsMapped(t, c, v) && PteAt(t, c, v).frame == PteAt(s, p, v).frame)
  }

  /** Without that room no 16-bit counts fit what a fork maps. */
  lemma ForkNeedsRoom(s: State, t: State, p: nat, c: nat)
    requires p in s.spaces && c !in s.spaces && SharesAll(s, t, p, c)
    requires Inv(t) && t.frames == s.frames && forall f :: 0 <= f < |t.refs| ==> t.refs[f] <= MAX_REFS
    ensures RoomToFork(s, p)
  {
    hide PageOk, RegionsOk, RootsOk, Users, PagesOn, SharesAll;
    forall f | f in s.frames ensures |Users(s, f)| + |PagesOn(s, p, f)| <= MAX_REFS {
      assert FrameOk(t, f);
      SharersAdd(s, t, p, c, f);
    }
  }

  lemma SharersAdd(s: State, t: State, p: nat, c: nat, f: nat)
    requires p in s.spaces && c !in s.spaces && SharesAll(s, t, p, c)
    ensures |Users(s, f)| + |PagesOn(s, p, f)| <= |Users(t, f)|
  {
    hide SharesAll, Users;
    forall x | x in Users(s, f) ensures x in Users(t, f) { SharedUser(s, t, p, c, f, x); }
    forall v | v in PagesOn(s, p, f) ensures (c, v) in Users(t, f) - Users(s, f) { CopyUser(s, t, p, c, f, v); }
    OneEach(PagesOn(s, p, f), c, Users(t, f) - Users(s, f));
    assert Users(t, f) == Users(s, f) + (Users(t, f) - Users(s, f));
  }

  lemma SharedUser(s: State, t: State, p: nat, c: nat, f: nat, x: (nat, nat))
    requires SharesAll(s, t, p, c) && x in Users(s, f)
    ensures x in Users(t, f)
  {
    assert IsMapped(s, x.0, x.1);
    InUsers(t, f, x.0, x.1);
  }

  lemma CopyUser(s: State, t: State, p: nat, c: nat, f: nat, v: nat)
    requires p in s.spaces && c !in s.spaces && SharesAll(s, t, p, c) && v in PagesOn(s, p, f)
    ensures (c, v) in Users(t, f) - Users(s, f)
  {
    assert IsMapped(s, p, v);
    InUsers(t, f, c, v);
  }

  lemma {:induction false} OneEach(pages: set<nat>, c: nat, users: set<(nat, nat)>)
    requires forall v :: v in pages ==> (c, v) in users
    ensures |pages| <= |users|
  {
    if pages == {} {
    } else {
      var w :| w in pages;
      OneEach(pages - {w}, c, users - {(c, w)});
    }
  }

  lemma OneOwnPage(s: State, p: nat, f: nat)
    requires Inv(s) && p in s.spaces && f in s.frames
    ensures |PagesOn(s, p, f)| <= 1
  {
    hide PageOk, RegionsOk;
    assert FrameOk(s, f);
    var mine := PagesOn(s, p, f);
    if mine != {} {
      var v :| v in mine;
      forall w | w in mine ensures w == v {
        InUsers(s, f, p, v);
        InUsers(s, f, p, w);
        assert (p, v).1 == (p, w).1;
      }
      assert mine == {v};
    }
  }

  lemma FreeIsNotKernel(s: State, f: nat)
    requires Inv(s) && f in s.free
    ensures f !in s.kernel
  {
    hide Users, PageOk, RegionsOk, RootsOk;
    FrameShape(s, f);
  }

  lemma RootInKernel(s: State, p: nat)
    requires Inv(s) && p in s.spaces
    ensures p in s.roots && s.roots[p] in s.kernel
  {
    hide Users, PageOk, RegionsOk, FrameOk;
  }

  /** Processes have one top-level table each. */
  lemma RootsCount(s: State)
    requires Inv(s)
    ensures |s.kernel - s.roots.Values| == |s.kernel| - |s.spaces|
  {
    hide Users, PageOk, RegionsOk, FrameOk;
    assert |s.roots.Keys| == |s.spaces.Keys| == |s.spaces|;
    DistinctValues(s.roots);
    forall f | f in s.roots.Values ensures f in s.kernel {}
    assert s.kernel == (s.kernel - s.roots.Values) + s.roots.Values;
  }

  lemma {:induction false} DistinctValues(m: map<nat, nat>)
    requires forall p, q :: p in m && q in m && p != q ==> m[p] != m[q]
    ensures |m.Values| == |m.Keys|
    decreases |m|
  {
    if m == map[] {
      assert m.Values == {};
    } else {
      var p :| p in m;
      var rest := m - {p};
      assert m.Keys == rest.Keys + {p} && m.Values == rest.Values + {m[p]};
      DistinctValues(rest);
    }
  }

  lemma ChildWaits(s: State, p: nat, c: nat, root: nat)
    requires Inv(s) && p in s.spaces && c !in s.spaces && RoomToFork(s, p) && root in s.free
    ensures Forkable(AddSpace(s, c, s.spaces[p].regions, s.spaces[p].mmapBase, root), p, c)
  {
    hide Users, FrameOk, PageOk, RegionsOk;
    var t := AddSpace(s, c, s.spaces[p].regions, s.spaces[p].mmapBase, root);
    assert RegionsOk(s.spaces[p].regions);
    AddSpaceKeeps(s, c, s.spaces[p].regions, s.spaces[p].mmapBase, root);
    forall f | f in t.frames ensures |Users(t, f)| + |Waiting(t, p, c, f)| <= MAX_REFS {
      assert Waiting(t, p, c, f) == PagesOn(s, p, f);
    }
  }

  function Marked(rs: seq<Region>): (m: seq<Region>)
    ensures |m| == |rs|
    ensures forall i :: 0 <= i < |rs| ==> m[i] == if CanCow(rs[i]) then rs[i].(cow := true) else rs[i]
  {
    if rs == [] then []
    else Marked(rs[..|rs| - 1]) + [if CanCow(rs[|rs| - 1]) then rs[|rs| - 1].(cow := true) else rs[|rs| - 1]]
  }

  lemma RegionsAreOk(s: State, p: nat)
    requires Inv(s) && p in s.spaces
    ensures RegionsOk(s.spaces[p].regions)
  {
  }

  lemma MarkedOk(rs: seq<Region>)
    requires RegionsOk(rs)
    ensures RegionsOk(Marked(rs))
  {
    var m := Marked(rs);
    forall i, j, page: nat | 0 <= i < j < |m| && m[i].Contains(page) ensures !m[j].Contains(page) {
      assert rs[i].Contains(page);
    }
  }

  lemma {:induction false} FindMarked(rs: seq<Region>, m: seq<Region>, v: nat)
    requires |m| == |rs|
    requires forall i :: 0 <= i < |rs| ==> m[i] == if CanCow(rs[i]) then rs[i].(cow := true) else rs[i]
    ensures Find(m, v).Some? <==> Find(rs, v).Some?
    ensures Find(rs, v).Some? ==> SameUse(Find(rs, v), Find(m, v))
    decreases |rs|
  {
    if rs != [] && !rs[0].Contains(v) { FindMarked(rs[1..], m[1..], v); }
  }

  lemma MarkedSameUse(s: State, p: nat)
    requires Inv(s) && p in s.spaces
    ensures forall v :: v in s.spaces[p].ptes ==>
      SameUse(Find(s.spaces[p].regions, v), Find(Marked(s.spaces[p].regions), v))
  {
    hide Users, FrameOk, RegionsOk, RootsOk;
    forall v | v in s.spaces[p].ptes
      ensures SameUse(Find(s.spaces[p].regions, v), Find(Marked(s.spaces[p].regions), v))
    {
      assert IsMapped(s, p, v) && PageOk(s, p, v);
      FindMarked(s.spaces[p].regions, Marked(s.spaces[p].regions), v);
    }
  }

  /** Pages of earlier regions are not in the next one. */
  lemma NextRegionApart(s: State, p: nat, k: nat)
    requires Inv(s) && p in s.spaces && k < |s.spaces[p].regions|
    ensures forall v: nat :: Mapped(s.spaces[p].regions[..k], v) ==> !s.spaces[p].regions[k].Contains(v)
  {
    hide Users, FrameOk, PageOk;
    assert RegionsOk(s.spaces[p].regions);
  }

  lemma MappedNext(rs: seq<Region>, k: nat, v: nat)
    requires k < |rs|
    ensures Mapped(rs[..k + 1], v) <==> Mapped(rs[..k], v) || rs[k].Contains(v)
  {
    var a, b := rs[..k + 1], rs[..k];
    if i :| 0 <= i < |b| && b[i].Contains(v) { assert a[i] == b[i]; }
    if rs[k].Contains(v) { assert a[k].Contains(v); }
    if i :| 0 <= i < |a| && a[i].Contains(v) && i != k { assert b[i] == a[i]; }
  }

  /** Every mapped page lies in a region. */
  lemma AllInRegions(s: State, p: nat)
    requires Inv(s) && p in s.spaces
    ensures forall v :: v in s.spaces[p].ptes ==> Mapped(s.spaces[p].regions, v)
  {
    hide Users, FrameOk;
    forall v | v in s.spaces[p].ptes ensures Mapped(s.spaces[p].regions, v) {
      assert IsMapped(s, p, v) && PageOk(s, p, v);
      assert RegionsOk(s.spaces[p].regions);
      FindCovers(s.spaces[p].regions, v);
    }
  }

  /** Nothing but entries changed, and `p` still maps the same pages. */
  ghost predicate SameOutside(s: State, t: State, p: nat, c: nat)
    requires p in s.spaces && c in s.spaces
  {
    && p in t.spaces && c in t.spaces && t.frames == s.frames
    && t.spaces[p].regions == s.spaces[p].regions && t.spaces[p].mmapBase == s.spaces[p].mmapBase
    && t.spaces[c].regions == s.spaces[c].regions && t.spaces[c].mmapBase == s.spaces[c].mmapBase
    && t.spaces[p].ptes.Keys == s.spaces[p].ptes.Keys
  }

  /** A page that fork reaches may be shared, and the fork stays in order. */
  lemma ForkSharable(s: State, p: nat, c: nat, v: nat, r: Region)
    requires Inv(s) && Forkable(s, p, c) && v in s.spaces[p].ptes && v !in s.spaces[c].ptes
    requires r in s.spaces[p].regions && r.Contains(v)
    ensures Sharable(s, p, c, v, r)
    ensures Forkable(ShareStep(s, p, c, v, r), p, c) && SameOutside(s, ShareStep(s, p, c, v, r), p, c)
    ensures ShareStep(s, p, c, v, r).spaces[c].ptes.Keys == s.spaces[c].ptes.Keys + {v}
  {
    hide Users, PageOk, ShareStep;
    var rs := s.spaces[p].regions;
    assert RegionsOk(rs);
    var i :| 0 <= i < |rs| && rs[i] == r;
    FindIs(rs, i, v);
    FrameInBounds(s, p, v);
    var f := PteAt(s, p, v).frame;
    assert v in Waiting(s, p, c, f) && FrameOk(s, f);
    assert |Waiting(s, p, c, f)| >= 1;
    SoleUser(s, p, v);
    ShareKeepsFork(s, p, c, v, r);
  }

  lemma ShareKeepsFork(s: State, p: nat, c: nat, v: nat, r: Region)
    requires Sharable(s, p, c, v, r) && Forkable(s, p, c)
    ensures Forkable(ShareStep(s, p, c, v, r), p, c) && SameOutside(s, ShareStep(s, p, c, v, r), p, c)
    ensures ShareStep(s, p, c, v, r).spaces[c].ptes.Keys == s.spaces[c].ptes.Keys + {v}
  {
    hide Users, PageOk, FrameOk, RegionsOk, RootsOk, ShareStep;
    var t := ShareStep(s, p, c, v, r);
    ShareView(s, p, c, v, r, p, v);
    ShareView(s, p, c, v, r, c, v);
    DeepCopy.ShareMem(s, p, c, v, r);
    forall f | f in t.frames ensures |Users(t, f)| + |Waiting(t, p, c, f)| <= MAX_REFS {
      ShareUsers(s, p, c, v, r, f);
      WaitingShrinks(s, p, c, v, r, f);
    }
  }

  lemma WaitingShrinks(s: State, p: nat, c: nat, v: nat, r: Region, f: nat)
    requires Sharable(s, p, c, v, r)
    ensures var t := ShareStep(s, p, c, v, r);
      && p in t.spaces && c in t.spaces
      && |Waiting(t, p, c, f)| == |Waiting(s, p, c, f)| - if f == PteAt(s, p, v).frame then 1 else 0
  {
    hide Users, PageOk, FrameOk, RegionsOk, RootsOk, ShareStep;
    var t := ShareStep(s, p, c, v, r);
    ShareView(s, p, c, v, r, p, v);
    forall w: nat
      ensures w in Waiting(t, p, c, f) <==> w != v && w in Waiting(s, p, c, f)
    {
      ShareView(s, p, c, v, r, p, w);
      ShareView(s, p, c, v, r, c, w);
    }
    assert Waiting(t, p, c, f) == Waiting(s, p, c, f) - {v};
  }

  lemma ForkCell(s: State, now: DeepCopy.Plain, p: nat, c: nat, v: nat, a: DeepCopy.Plain)
    requires DeepCopy.Refines(s, now) && Forkable(s, p, c) && ForkState(s, now, p, c, a) && v in s.spaces[p].ptes
    ensures DeepCopy.Present(now, p, v) && c in now.spaces
    ensures DeepCopy.SetCell(now, c, v, now.spaces[p].pages[v]) ==
      DeepCopy.Forking(a, p, c, s.spaces[c].ptes.Keys + {v})
  {
    DeepCopy.RefinesLook(s, now, p, v);
    DeepCopy.ForkGoesOn(a, p, c, s.spaces[c].ptes.Keys, v);
  }

  /** The parent and the child of a fork in progress. */
  ghost predicate Forkable(s: State, p: nat, c: nat) {
    && p in s.spaces && c in s.spaces && p != c
    && s.spaces[c].regions == s.spaces[p].regions
    && forall f :: f in s.frames ==> |Users(s, f)| + |Waiting(s, p, c, f)| <= MAX_REFS
  }

  /** Pages of `p` on frame `f` that `c` does not have yet. */
  ghost function Waiting(s: State, p: nat, c: nat, f: nat): set<nat>
    requires p in s.spaces && c in s.spaces
  {
    set v | v in s.spaces[p].ptes && v !in s.spaces[c].ptes && s.spaces[p].ptes[v].frame == f
  }

  /** The ghost machine is in the middle of the same fork, which started at `a`. */
  ghost predicate ForkState(s: State, now: DeepCopy.Plain, p: nat, c: nat, a: DeepCopy.Plain)
    requires p in s.spaces && c in s.spaces
  {
    p in a.spaces && now == DeepCopy.Forking(a, p, c, s.spaces[c].ptes.Keys)
  }

  class Machine {
    var spaces: map<nat, Space>
    const refs: array<nat>
    var mem: map<nat, Content>
    var free: set<nat>
    var kernel: set<nat>
    var roots: map<nat, nat>
    ghost const frames: set<nat>
    ghost var plain: DeepCopy.Plain  // the machine that copies all memory at fork

    ghost function St(): State
      reads this, refs
    {
      State(spaces, refs[..], mem, free, frames, kernel, roots)
    }

    ghost predicate Valid()
      reads this, refs
    {
      refs.Length == MAX_FRAMES && Inv(St()) && DeepCopy.Refines(St(), plain)
    }

    /** A machine whose frames `usable` are all free and that runs no process. */
    constructor (usable: set<nat>)
      requires forall f :: f in usable ==> f < MAX_FRAMES
      ensures Valid() && fresh(refs) && plain == DeepCopy.Plain(map[], map[])
      ensures frames == usable == free && kernel == {} && roots == map[] && spaces == map[]
    {
      refs := new nat[MAX_FRAMES](_ => 0);
      spaces, free, frames, kernel, roots := map[], usable, usable, {}, map[];
      mem := map f | f in usable :: Zeros(PAGE_SIZE);
      plain := DeepCopy.Plain(map[], map[]);
    }

    method CowShare(frame: nat)
      requires refs.Length == MAX_FRAMES
      modifies refs
      ensures frame < MAX_FRAMES ==> refs[..] == old(refs[..])[frame := Share(old(refs[frame]))]
      ensures frame >= MAX_FRAMES ==> refs[..] == old(refs[..])
    {
      if frame < MAX_FRAMES {
        refs[frame] := match refs[frame] case 0 => 2 case n => if n < MAX_REFS then n + 1 else n;
      }
    }

    method CowDec(frame: nat) returns (n: nat)
      requires refs.Length == MAX_FRAMES
      modifies refs
      ensures frame < MAX_FRAMES ==> n == Dec(old(refs[frame])) && refs[..] == old(refs[..])[frame := n]
      ensures frame >= MAX_FRAMES ==> n == 0 && refs[..] == old(refs[..])
    {
      if frame >= MAX_FRAMES { return 0; }
      if refs[frame] > 0 { refs[frame] := refs[frame] - 1; }
      n := refs[frame];
    }

    /** Fork's work on one page of region `r`. */
    method SharePage(p: nat, c: nat, v: nat, r: Region)
      requires Valid() && Sharable(St(), p, c, v, r)
      modifies this`spaces, this`mem, this`free, this`plain, refs
      ensures Valid() && St() == ShareStep(old(St()), p, c, v, r)
      ensures DeepCopy.Present(old(plain), p, v)
      ensures plain == DeepCopy.SetCell(old(plain), c, v, old(plain.spaces[p].pages[v]))
    {
      hide Inv, DeepCopy.Refines;
      ghost var s := St();
      ShareKeeps(s, p, c, v, r);
      DeepCopy.RefinesLook(s, plain, p, v);
      DeepCopy.ShareRefines(s, plain, p, c, v, r);
      var frame := spaces[p].ptes[v].frame;
      if CanCow(r) {
        var e := PteFor(frame, r.prot.(write := false)).(cow := true);
        spaces := spaces[p := spaces[p].(ptes := spaces[p].ptes[v := e])];
        spaces := spaces[c := spaces[c].(ptes := spaces[c].ptes[v := e])];
      } else {
        spaces := spaces[c := spaces[c].(ptes := spaces[c].ptes[v := PteFor(frame, r.prot)])];
      }
      CowShare(frame);
      plain := DeepCopy.SetCell(plain, c, v, plain.spaces[p].pages[v]);
    }

    /** Unmap a mapped page, whatever state the counts are in. */
    method UnmapPage(p: nat, v: nat)
      requires refs.Length == MAX_FRAMES && p in spaces && v in spaces[p].ptes && spaces[p].ptes[v].frame < MAX_FRAMES
      modifies this`spaces, this`free, refs
      ensures St() == DropStep(old(St()), p, v)
    {
      var frame := spaces[p].ptes[v].frame;
      spaces := spaces[p := spaces[p].(ptes := spaces[p].ptes - {v})];
      var n := CowDec(frame);
      if n == 0 { free := free + {frame}; }
    }

    /** Unmap a page if it is mapped; free its frame when its count reaches zero. */
    method DropPage(p: nat, v: nat)
      requires Valid() && p in spaces
      modifies this`spaces, this`mem, this`free, this`plain, refs
      ensures Valid() && p in spaces
      ensures St() ==
        if v in old(spaces[p].ptes) && old(spaces[p].ptes[v].frame) < MAX_FRAMES then DropStep(old(St()), p, v)
        else old(St())
      ensures p in old(plain.spaces)
      ensures plain == DeepCopy.DropCell(old(plain), p, v)
    {
      hide Inv, DeepCopy.Refines;
      ghost var s := St();
      DeepCopy.RefinesLook(s, plain, p, v);
      if v in spaces[p].ptes {
        DropKeeps(s, p, v);
        DeepCopy.DropRefines(s, plain, p, v);
        UnmapPage(p, v);
        plain := DeepCopy.DropCell(plain, p, v);
      } else {
        DeepCopy.DropNothing(s, plain, p, v);
      }
    }

    /** Fork's loop body: share page `v` of region `r` if it is mapped. */
    method ShareIfMapped(p: nat, c: nat, v: nat, r: Region, ghost a: DeepCopy.Plain)
      requires Valid() && Forkable(St(), p, c) && ForkState(St(), plain, p, c, a)
      requires r in spaces[p].regions && r.Contains(v) && v !in spaces[c].ptes
      modifies this`spaces, this`mem, this`free, this`plain, refs
      ensures Valid() && Forkable(St(), p, c) && ForkState(St(), plain, p, c, a)
      ensures SameOutside(old(St()), St(), p, c)
      ensures spaces[c].ptes.Keys == old(spaces[c].ptes.Keys) + if v in spaces[p].ptes then {v} else {}
    {
      hide Inv, DeepCopy.Refines, Sharable, ShareStep, DeepCopy.Forking;
      if v in spaces[p].ptes {
        ghost var s := St();
        ForkSharable(s, p, c, v, r);
        ForkCell(s, plain, p, c, v, a);
        SharePage(p, c, v, r);
      }
    }

    /** Every mapped page of region `r` of `p` gets shared with `c`. */
    method ShareRegion(p: nat, c: nat, r: Region, ghost a: DeepCopy.Plain)
      requires Valid() && Forkable(St(), p, c) && ForkState(St(), plain, p, c, a)
      requires r in spaces[p].regions
      requires forall v :: v in spaces[c].ptes ==> !r.Contains(v)
      modifies this`spaces, this`mem, this`free, this`plain, refs
      ensures Valid() && Forkable(St(), p, c) && ForkState(St(), plain, p, c, a)
      ensures SameOutside(old(St()), St(), p, c)
      ensures forall v :: v in spaces[c].ptes <==> v in old(spaces[c].ptes) || (v in spaces[p].ptes && r.Contains(v))
    {
      hide Inv, DeepCopy.Refines, Users, Waiting, DeepCopy.Forking;
      var v := r.start;
      while v < r.end
        invariant Valid() && Forkable(St(), p, c) && ForkState(St(), plain, p, c, a)
        invariant SameOutside(old(St()), St(), p, c)
        invariant r.start <= v
        invariant forall w :: w in spaces[c].ptes <==>
          w in old(spaces[c].ptes) || (w in spaces[p].ptes && r.Contains(w) && w < v)
      {
        ShareIfMapped(p, c, v, r, a);
        v := v + 1;
      }
    }

    /** The kernel takes a frame: for a lower page table, or into the magazine of another CPU. */
    method KernelTakes() returns (ok: bool)
      requires Valid()
      modifies this`free, this`kernel
      ensures Valid() && (ok <==> old(free) != {})
      ensures |kernel| == |old(kernel)| + if ok then 1 else 0
      ensures !ok ==> St() == old(St())
    {
      hide Inv, DeepCopy.Refines;
      if free == {} { return false; }
      var f :| f in free;
      TakeKeeps(St(), f);
      DeepCopy.SameTablesRefine(St(), TakeStep(St(), f), plain);
      FreeIsNotKernel(St(), f);
      free, kernel := free - {f}, kernel + {f};
      ok := true;
    }

    /** The kernel gives back a frame that is no top-level page table. */
    method KernelGives() returns (ok: bool)
      requires Valid()
      modifies this`free, this`kernel
      ensures Valid() && (ok <==> |old(kernel)| > |spaces|)
      ensures |kernel| == |old(kernel)| - if ok then 1 else 0
      ensures !ok ==> St() == old(St())
    {
      hide Inv, DeepCopy.Refines;
      RootsCount(St());
      var spare := kernel - roots.Values;
      if spare == {} { return false; }
      var f :| f in spare;
      GiveKeeps(St(), f);
      DeepCopy.SameTablesRefine(St(), GiveStep(St(), f), plain);
      free, kernel := free + {f}, kernel - {f};
      ok := true;
    }

    /** A first address space, without regions. Fails when there is no frame for its top-level table. */
    method Spawn(p: nat) returns (ok: bool)
      requires Valid() && p !in spaces
      modifies this`spaces, this`free, this`kernel, this`roots, this`plain
      ensures Valid() && (ok <==> old(free) != {})
      ensures !ok ==> St() == old(St()) && plain == old(plain)
      ensures ok ==> plain == DeepCopy.Spawned(old(plain), p) && |kernel| == |old(kernel)| + 1
    {
      hide Inv, DeepCopy.Refines;
      if free == {} { return false; }
      AddRoot(p, [], MMAP_BASE_PAGE);
      assert DeepCopy.Strip([]) == [];
      ok := true;
    }

    /** Take a frame as the top-level table of a new address space that maps nothing. */
    method AddRoot(p: nat, rs: seq<Region>, base: nat)
      requires Valid() && p !in spaces && RegionsOk(rs) && free != {}
      modifies this`spaces, this`free, this`kernel, this`roots, this`plain
      ensures Valid() && |kernel| == |old(kernel)| + 1
      ensures exists root :: root in old(free) && St() == AddSpace(old(St()), p, rs, base, root)
      ensures plain ==
        old(plain).(spaces := old(plain).spaces[p := DeepCopy.PlainSpace(map[], DeepCopy.Strip(rs), base)])
    {
      hide Inv, DeepCopy.Refines, DeepCopy.Strip;
      var root :| root in free;
      ghost var s := St();
      AddSpaceKeeps(s, p, rs, base, root);
      DeepCopy.AddSpaceRefines(s, plain, p, rs, base, root);
      FreeIsNotKernel(s, root);
      spaces, roots := spaces[p := Space(map[], rs, base)], roots[p := root];
      free, kernel := free - {root}, kernel + {root};
      plain := plain.(spaces := plain.spaces[p := DeepCopy.PlainSpace(map[], DeepCopy.Strip(rs), base)]);
      assert St() == AddSpace(s, p, rs, base, root);
    }

    /** Give the child a top-level table, the parent's regions and, so far, no page. */
    method StartChild(p: nat, c: nat)
      requires Valid() && p in spaces && c !in spaces && RoomToFork(St(), p) && free != {}
      modifies this`spaces, this`free, this`kernel, this`roots, this`plain
      ensures Valid() && Forkable(St(), p, c) && ForkState(St(), plain, p, c, old(plain))
      ensures |kernel| == |old(kernel)| + 1
      ensures spaces == old(spaces)[c := Space(map[], old(spaces[p].regions), old(spaces[p].mmapBase))]
    {
      hide Inv, DeepCopy.Refines, Users, RoomToFork, DeepCopy.Strip;
      ghost var s := St();
      RegionsAreOk(s, p);
      DeepCopy.SameSpace(s, plain, p);
      DeepCopy.ForkStarts(plain, p, c);
      var rs, base := spaces[p].regions, spaces[p].mmapBase;
      AddRoot(c, rs, base);
      ghost var root :| root in s.free && St() == AddSpace(s, c, rs, base, root);
      ChildWaits(s, p, c, root);
    }

    /** Mark the private writable regions of a process copy-on-write. */
    method MarkCow(p: nat)
      requires Valid() && p in spaces
      modifies this`spaces, this`mem, this`free, this`plain
      ensures Valid() && plain == old(plain)
      ensures spaces == old(spaces)[p := old(spaces[p]).(regions := Marked(old(spaces[p].regions)))]
    {
      hide Inv, DeepCopy.Refines, DeepCopy.Strip;
      ghost var s := St();
      var rs := spaces[p].regions;
      var marked: seq<Region> := [];
      for i := 0 to |rs|
        invariant marked == Marked(rs[..i])
      {
        assert rs[..i + 1] == rs[..i] + [rs[i]];
        marked := marked + [if CanCow(rs[i]) then rs[i].(cow := true) else rs[i]];
      }
      assert rs[..|rs|] == rs;
      RegionsAreOk(s, p);
      MarkedOk(rs);
      MarkedSameUse(s, p);
      SetRegionsKeeps(s, p, marked, spaces[p].mmapBase);
      DeepCopy.SetRegionsRefines(s, plain, p, marked, spaces[p].mmapBase);
      DeepCopy.SameSpace(s, plain, p);
      DeepCopy.StripMarked(rs, marked);
      assert plain.spaces[p := plain.spaces[p]] == plain.spaces;
      spaces := spaces[p := spaces[p].(regions := marked)];
    }

    /**
     Fork `p` into `c`, sharing every mapped page. Seen through the plain machine this
     copies the whole address space. It fails exactly when there is no frame for the
     child's top-level table. No frame may end up with more sharers than its counter can hold.
     */
    method Fork(p: nat, c: nat) returns (ok: bool)
      requires Valid() && p in spaces && c !in spaces && RoomToFork(St(), p)
      modifies this`spaces, this`mem, this`free, this`kernel, this`roots, this`plain, refs
      ensures Valid() && p in old(plain.spaces) && (ok <==> old(free) != {})
      ensures !ok ==> St() == old(St()) && plain == old(plain)
      ensures ok ==> plain == DeepCopy.Fork(old(plain), p, c) && |kernel| == |old(kernel)| + 1
    {
      hide Inv, DeepCopy.Refines, Users, Waiting, RoomToFork, DeepCopy.Forking;
      DeepCopy.SameSpace(St(), plain, p);
      if free == {} { return false; }
      ghost var a := plain;
      StartChild(p, c);
      var regions := spaces[p].regions;
      for k := 0 to |regions|
        invariant Valid() && Forkable(St(), p, c) && ForkState(St(), plain, p, c, a)
        invariant spaces[p].regions == regions && |kernel| == |old(kernel)| + 1
        invariant forall v :: v in spaces[c].ptes <==> v in spaces[p].ptes && Mapped(regions[..k], v)
      {
        NextRegionApart(St(), p, k);
        ShareRegion(p, c, regions[k], a);
        forall v: nat ensures Mapped(regions[..k + 1], v) <==> Mapped(regions[..k], v) || regions[k].Contains(v) {
          MappedNext(regions, k, v);
        }
      }
      AllInRegions(St(), p);
      assert regions[..|regions|] == regions;
      DeepCopy.PagesOfFork(St(), plain, p, c, a);
      MarkCow(p);
      MarkCow(c);
      ok := true;
    }

    /** Unmap the pages `lo..hi` of a process that are mapped. */
    method DropRange(p: nat, lo: nat, hi: nat)
      requires Valid() && p in spaces && lo <= hi
      modifies this`spaces, this`mem, this`free, this`plain, refs
      ensures Valid() && p in spaces && p in old(plain.spaces)
      ensures spaces[p].regions == old(spaces[p].regions) && spaces[p].mmapBase == old(spaces[p].mmapBase)
      ensures forall v :: v in spaces[p].ptes <==> v in old(spaces[p].ptes) && !(lo <= v < hi)
      ensures plain == DeepCopy.DropCells(old(plain), p, set v | v in old(spaces[p].ptes) && lo <= v < hi)
    {
      hide Inv, DeepCopy.Refines, DeepCopy.DropCells;
      ghost var gone: set<nat> := {};
      DeepCopy.SameSpace(St(), plain, p);
      DeepCopy.DropNone(plain, p);
      var v := lo;
      while v < hi
        invariant lo <= v <= hi && Valid() && p in spaces
        invariant spaces[p].regions == old(spaces[p].regions) && spaces[p].mmapBase == old(spaces[p].mmapBase)
        invariant forall w :: w in gone <==> w in old(spaces[p].ptes) && lo <= w < v
        invariant forall w :: w in spaces[p].ptes <==> w in old(spaces[p].ptes) && !(lo <= w < v)
        invariant plain == DeepCopy.DropCells(old(plain), p, gone)
      {
        DeepCopy.DropOneMore(old(plain), p, gone, v);
        if v in spaces[p].ptes {
          FrameInBounds(St(), p, v);
          DropPage(p, v);
          gone := gone + {v};
        }
        v := v + 1;
      }
      assert gone == set w | w in old(spaces[p].ptes) && lo <= w < hi;
    }

    /** Unmap the page-rounded range: pages first, then the region list. */
    method Munmap(p: nat, addr: nat, len: nat)
      requires Valid() && p in spaces
      modifies this`spaces, this`mem, this`free, this`plain, refs
      ensures Valid() && p in spaces && p in old(plain.spaces)
      ensures spaces[p].mmapBase == old(spaces[p].mmapBase)
      ensures plain ==
        if len == 0 then old(plain)
        else DeepCopy.Unmap(old(plain), p, addr / PAGE_SIZE, (addr + len + PAGE_SIZE - 1) / PAGE_SIZE)
      ensures len > 0 ==>
        spaces[p].regions == Cut(old(spaces[p].regions), addr / PAGE_SIZE, (addr + len + PAGE_SIZE - 1) / PAGE_SIZE)
      ensures len == 0 ==> St() == old(St())
    {
      hide Inv, DeepCopy.Refines, DeepCopy.DropCells, DeepCopy.Unmap, DeepCopy.Strip;
      DeepCopy.SameSpace(St(), plain, p);
      if len == 0 { return; }
      var lo, hi := addr / PAGE_SIZE, (addr + len + PAGE_SIZE - 1) / PAGE_SIZE;
      ghost var rs := spaces[p].regions;
      ghost var gone := set v | v in spaces[p].ptes && lo <= v < hi;
      DropRange(p, lo, hi);
      ghost var s := St();
      var kept := CutRegions(spaces[p].regions, lo, hi);
      CutKeepsUse(s, p, lo, hi);
      SetRegionsKeeps(s, p, kept, spaces[p].mmapBase);
      DeepCopy.SetRegionsRefines(s, plain, p, kept, spaces[p].mmapBase);
      DeepCopy.StripCut(rs, lo, hi);
      DeepCopy.UnmapIsDropAndCut(old(plain), p, gone, lo, hi);
      DeepCopy.SameSpace(s, plain, p);
      spaces := spaces[p := spaces[p].(regions := kept)];
      plain := DeepCopy.Unmap(old(plain), p, lo, hi);
    }

    /** Unmap everything in the regions of a process, give its top-level table back and forget its address space. */
    method Release(p: nat)
      requires Valid() && p in spaces
      modifies this`spaces, this`mem, this`free, this`kernel, this`roots, this`plain, refs
      ensures Valid() && plain == old(plain).(spaces := old(plain.spaces) - {p}) && |kernel| == |old(kernel)| - 1
      ensures p in old(roots) && kernel == old(kernel) - {old(roots)[p]} && roots == old(roots) - {p}
    {
      hide Inv, DeepCopy.Refines;
      var regions := spaces[p].regions;
      for k := 0 to |regions|
        invariant Valid() && p in spaces && spaces[p].regions == regions && kernel == old(kernel) && roots == old(roots)
        invariant forall v :: v in spaces[p].ptes ==> !Mapped(regions[..k], v)
        invariant plain.(spaces := plain.spaces - {p}) == old(plain).(spaces := old(plain.spaces) - {p})
      {
        RegionsAreOk(St(), p);
        DropRange(p, regions[k].start, regions[k].end);
        forall v: nat ensures Mapped(regions[..k + 1], v) <==> Mapped(regions[..k], v) || regions[k].Contains(v) {
          MappedNext(regions, k, v);
        }
      }
      AllInRegions(St(), p);
      assert regions[..|regions|] == regions;
      assert spaces[p].ptes == map[];
      RemoveSpaceKeeps(St(), p);
      DeepCopy.RemoveSpaceRefines(St(), plain, p);
      RootInKernel(St(), p);
      var root := roots[p];
      spaces, roots := spaces - {p}, roots - {p};
      free, kernel := free + {root}, kernel - {root};
      plain := plain.(spaces := plain.spaces - {p});
    }

    /**
     Resolve a write fault. Succeeds for exactly the pages marked copy-on-write, themselves
     or by their region; nobody can see the difference. When a copy is needed and no frame
     is free, the reference has already been dropped, and that is the one way the invariant
     can break.
     */
    method HandleCowFault(p: nat, vaddr: nat) returns (ok: bool)
      requires Valid() && p in spaces
      modifies this`spaces, this`mem, this`free, this`plain, refs
      ensures plain == old(plain)
      ensures Valid() <==> !old(OutOfFrames(St(), p, vaddr / PAGE_SIZE))
      ensures ok <==> old(CowMarked(St(), p, vaddr / PAGE_SIZE)) && !old(OutOfFrames(St(), p, vaddr / PAGE_SIZE))
      ensures ok ==> IsMapped(St(), p, vaddr / PAGE_SIZE) && PteAt(St(), p, vaddr / PAGE_SIZE).writable
      ensures !ok && Valid() ==> St() == old(St())
      ensures !Valid() ==> St() == FailedFault(old(St()), p, vaddr / PAGE_SIZE)
    {
      hide Inv, DeepCopy.Refines, Users, Faulting;
      var v := vaddr / PAGE_SIZE;
      ghost var s := St();
      if v !in spaces[p].ptes { return false; }
      var e := spaces[p].ptes[v];
      var region := Find(spaces[p].regions, v);
      CowFaultIff(s, p, v);
      var isRegionCow := region.Some? && region.value.cow;
      if !e.cow && !isRegionCow { return false; }
      FaultChoices(s, plain, p, v);
      var rc := CowDec(e.frame);
      var frame := e.frame;
      if rc != 0 {
        if free == {} {
          FailedCopyBreaksCount(s, p, v, region.value);
          return false;
        }
        var nf :| nf in free;
        CopyKeeps(s, p, v, region.value, nf);
        DeepCopy.CopyRefines(s, plain, p, v, region.value, nf);
        free := free - {nf};
        mem := mem[nf := mem[e.frame]];
        frame := nf;
      }
      var prot := if region.Some? then region.value.prot else Prot(true, true, false);
      spaces := spaces[p := spaces[p].(ptes := spaces[p].ptes[v := PteFor(frame, prot.(write := true))])];
      ok := true;
    }

    /** What a process reads. */
    method Read(p: nat, vaddr: nat) returns (r: Option<byte>)
      requires Valid() && p in spaces
      ensures r == DeepCopy.ByteAt(plain, p, vaddr)
      ensures r.Some? <==> DeepCopy.Present(plain, p, vaddr / PAGE_SIZE)
    {
      hide Inv, DeepCopy.Refines;
      var v := vaddr / PAGE_SIZE;
      DeepCopy.RefinesLook(St(), plain, p, v);
      if v !in spaces[p].ptes { return None; }
      FrameHasContent(St(), p, v);
      r := Some(mem[spaces[p].ptes[v].frame][vaddr % PAGE_SIZE]);
    }

    /**
     A process stores a byte: through a writable entry at once, else after a fault that the
     kernel resolves. It succeeds for exactly the pages the plain machine lets it write,
     unless a copy is needed and no frame is free.
     */
    method Write(p: nat, vaddr: nat, b: byte) returns (r: WriteOutcome)
      requires Valid() && p in spaces
      modifies this`spaces, this`mem, this`free, this`plain, refs
      ensures Valid() <==> !r.NoFrame?
      ensures r.NoFrame? <==> old(OutOfFrames(St(), p, vaddr / PAGE_SIZE))
      ensures r.NoFrame? ==> DeepCopy.MayWrite(old(plain), p, vaddr / PAGE_SIZE)
      ensures r.NoFrame? ==> St() == FailedFault(old(St()), p, vaddr / PAGE_SIZE)
      ensures !r.NoFrame? ==> (r.Written? <==> DeepCopy.MayWrite(old(plain), p, vaddr / PAGE_SIZE))
      ensures !r.Written? ==> plain == old(plain)
      ensures r.Written? ==> DeepCopy.ByteAt(old(plain), p, vaddr).Some?
      ensures r.Written? ==> plain == DeepCopy.Store(old(plain), p, vaddr / PAGE_SIZE, vaddr % PAGE_SIZE, b)
      ensures r.Written? ==>
        forall q: nat, other: nat :: DeepCopy.ByteAt(plain, q, other) ==
          if DeepCopy.SameByte(old(plain), p, vaddr, q, other) then Some(b) else DeepCopy.ByteAt(old(plain), q, other)
    {
      hide Inv, DeepCopy.Refines, DeepCopy.Store, Poke, DeepCopy.SameByte;
      var v := vaddr / PAGE_SIZE;
      DeepCopy.MayWriteIff(St(), plain, p, v);
      if v !in spaces[p].ptes { return Refused; }
      WritableOnly(St(), p, v);
      CowFaultIff(St(), p, v);
      var e, region := spaces[p].ptes[v], Find(spaces[p].regions, v);
      if !e.writable {
        var handled := HandleCowFault(p, vaddr);
        if !handled {
          return if e.cow || region.value.cow then NoFrame else Refused;
        }
      }
      ghost var s := St();
      DeepCopy.WriteRefines(s, plain, p, v, vaddr % PAGE_SIZE, b);
      WriteKeeps(s, p, v, vaddr % PAGE_SIZE, b);
      var frame := spaces[p].ptes[v].frame;
      mem := mem[frame := Poke(mem[frame], vaddr % PAGE_SIZE, b)];
      forall q: nat, other: nat { DeepCopy.StoredByte(plain, p, vaddr, b, q, other); }
      plain := DeepCopy.Store(plain, p, v, vaddr % PAGE_SIZE, b);
      r := Written;
    }

    /** Enter an empty region that starts at an unmapped page, and move the bump pointer. */
    method EnterRegion(p: nat, r: Region, base: nat)
      requires Valid() && p in spaces && r.start == r.end && r.kind != Device && !r.cow
      modifies this`spaces, this`mem, this`free, this`plain
      ensures Valid() && p in spaces && p in old(plain.spaces) && free == old(free)
      ensures spaces == old(spaces)[p := old(spaces[p]).(regions := old(spaces[p].regions) + [r], mmapBase := base)]
      ensures plain == DeepCopy.WithRegions(old(plain), p, old(plain.spaces[p].regions) + [r], base)
    {
      hide Inv, DeepCopy.Refines, DeepCopy.Strip;
      ghost var s := St();
      var rs := spaces[p].regions + [r];
      EnterKeepsUse(s, p, r);
      SetRegionsKeeps(s, p, rs, base);
      DeepCopy.SetRegionsRefines(s, plain, p, rs, base);
      DeepCopy.SameSpace(s, plain, p);
      DeepCopy.StripPush(spaces[p].regions, r);
      spaces := spaces[p := spaces[p].(regions := rs, mmapBase := base)];
      plain := DeepCopy.WithRegions(plain, p, plain.spaces[p].regions + [r], base);
    }

    /** Take the last region, which has no mapped page, off the list again. */
    method LeaveRegion(p: nat)
      requires Valid() && p in spaces && spaces[p].regions != []
      requires forall v :: v in spaces[p].ptes ==> !spaces[p].regions[|spaces[p].regions| - 1].Contains(v)
      modifies this`spaces, this`mem, this`free, this`plain
      ensures Valid() && p in spaces && p in old(plain.spaces) && free == old(free)
      ensures old(plain.spaces[p].regions) != []
      ensures var rs := old(plain.spaces[p].regions);
        plain == DeepCopy.WithRegions(old(plain), p, rs[..|rs| - 1], old(spaces[p].mmapBase))
    {
      hide Inv, DeepCopy.Refines, DeepCopy.Strip;
      ghost var s := St();
      var base, rs := spaces[p].mmapBase, spaces[p].regions[..|spaces[p].regions| - 1];
      LeaveKeepsUse(s, p);
      SetRegionsKeeps(s, p, rs, base);
      DeepCopy.SetRegionsRefines(s, plain, p, rs, base);
      DeepCopy.SameSpace(s, plain, p);
      assert spaces[p].regions == rs + [spaces[p].regions[|rs|]];
      DeepCopy.StripPush(rs, spaces[p].regions[|rs|]);
      spaces := spaces[p := spaces[p].(regions := rs)];
      plain := DeepCopy.WithRegions(plain, p, plain.spaces[p].regions[..|plain.spaces[p].regions| - 1], base);
    }

    /** Extend the last region by one page, which is not mapped yet. */
    method GrowRegion(p: nat)
      requires Valid() && p in spaces && spaces[p].regions != []
      requires var r := spaces[p].regions[|spaces[p].regions| - 1]; !Mapped(spaces[p].regions, r.end) && !r.cow
      modifies this`spaces, this`mem, this`free, this`plain
      ensures Valid() && p in spaces && p in old(plain.spaces) && free == old(free)
      ensures var n := |old(spaces[p].regions)| - 1; var r := old(spaces[p].regions)[n];
        && spaces == old(spaces)[p := old(spaces[p]).(regions := old(spaces[p].regions)[..n] + [r.(end := r.end + 1)])]
        && Find(spaces[p].regions, r.end) == Some(r.(end := r.end + 1))
      ensures plain == DeepCopy.WithRegions(old(plain), p, DeepCopy.Strip(spaces[p].regions), spaces[p].mmapBase)
    {
      hide Inv, DeepCopy.Refines, DeepCopy.Strip;
      ghost var s := St();
      var n, base := |spaces[p].regions| - 1, spaces[p].mmapBase;
      var r := spaces[p].regions[n];
      var rs := spaces[p].regions[..n] + [r.(end := r.end + 1)];
      GrowKeepsUse(s, p);
      SetRegionsKeeps(s, p, rs, base);
      DeepCopy.SetRegionsRefines(s, plain, p, rs, base);
      spaces := spaces[p := spaces[p].(regions := rs)];
      plain := DeepCopy.WithRegions(plain, p, DeepCopy.Strip(rs), base);
    }

    /** Map an unmapped page of region `r` to the free frame `nf`, filled with `content`. */
    method MapPage(p: nat, v: nat, r: Region, nf: nat, content: Content)
      requires Valid() && Mappable(St(), p, v, r, nf, content)
      modifies this`spaces, this`mem, this`free, this`plain
      ensures Valid() && p in spaces && p in old(plain.spaces) && free == old(free) - {nf}
      ensures spaces == old(spaces)[p := old(spaces[p]).(ptes := old(spaces[p].ptes)[v := PteFor(nf, r.prot)])]
      ensures plain == DeepCopy.Place(old(plain), p, v, r.shared, nf, content)
    {
      hide Inv, DeepCopy.Refines, DeepCopy.Strip, DeepCopy.Place;
      ghost var s := St();
      MapKeeps(s, p, v, r, nf, content);
      DeepCopy.MapRefines(s, plain, p, v, r, nf, content);
      mem := mem[nf := content];
      spaces := spaces[p := spaces[p].(ptes := spaces[p].ptes[v := PteFor(nf, r.prot)])];
      free := free - {nf};
      plain := DeepCopy.Place(plain, p, v, r.shared, nf, content);
    }

    /** Extend the last region by one page that holds `content`, or report that no frame is left. */
    method FreshPage(p: nat, content: Content) returns (ok: bool, ghost id: nat)
      requires Valid() && p in spaces && spaces[p].regions != [] && |content| == PAGE_SIZE
      requires var r := spaces[p].regions[|spaces[p].regions| - 1];
        !Mapped(spaces[p].regions, r.end) && !r.cow && r.end !in spaces[p].ptes
      modifies this`spaces, this`mem, this`free, this`plain
      ensures Valid() && p in spaces && p in old(plain.spaces)
      ensures !ok ==> free == {} && St() == old(St()) && plain == old(plain)
      ensures ok ==> id in old(free) && free == old(free) - {id}
      ensures ok ==> GrownBy(old(St()), St(), p)
      ensures ok ==>
        var r := old(spaces[p].regions[|spaces[p].regions| - 1]);
        var placed := DeepCopy.Place(old(plain), p, r.end, r.shared, id, content);
        plain == DeepCopy.WithRegions(placed, p, DeepCopy.Strip(spaces[p].regions), spaces[p].mmapBase)
    {
      hide Inv, DeepCopy.Refines, DeepCopy.Strip, DeepCopy.Place, DeepCopy.WithRegions, GrownBy;
      ghost var s := St();
      id := 0;
      DeepCopy.SameSpace(St(), plain, p);
      if free == {} { return false, id; }
      var nf :| nf in free;
      var r := spaces[p].regions[|spaces[p].regions| - 1];
      GrowRegion(p);
      MapPage(p, r.end, r.(end := r.end + 1), nf, content);
      GrowIsOnePage(s, St(), p, PteFor(nf, r.prot));
      ghost var rs := DeepCopy.Strip(spaces[p].regions);
      DeepCopy.PlaceWithRegions(old(plain), p, rs, spaces[p].mmapBase, r.end, r.shared, nf, content);
      id := nf;
      ok := true;
    }

    /**
     Map `pages` fresh pages from `lo` on and enter their region. The kernel enters the
     region after its pages; here it is entered first and grows with them, which is the
     same once the call returns. When frames run out everything is taken back.
     */
    method MapFresh(p: nat, lo: nat, pages: nat, like: Region, base: nat, data: Option<seq<byte>>)
      returns (ok: bool, ghost ids: seq<nat>)
      requires Valid() && p in spaces && RangeFree(spaces[p].regions, lo, lo + pages)
      requires like.start == lo && like.end == lo && like.kind != Device && !like.cow
      modifies this`spaces, this`mem, this`free, this`plain, refs
      ensures Valid() && p in spaces && p in old(plain.spaces)
      ensures ok ==> |ids| == pages && FreshNames(old(plain), ids)
      ensures ok ==> plain == DeepCopy.Mmap(old(plain), p, like.(end := lo + pages), base, ids, Contents(data, pages))
      ensures ok ==> spaces[p].regions == old(spaces[p].regions) + [like.(end := lo + pages)]
      ensures !ok ==> plain == DeepCopy.WithRegions(old(plain), p, old(plain.spaces[p].regions), base)
      ensures ok <==> |old(free)| >= pages
    {
      hide Inv, DeepCopy.Refines, DeepCopy.Strip, DeepCopy.WithRegions, DeepCopy.Populate, Mapping, GrownBy, RangeFree;
      hide Mapped, Find;
      ghost var s0, a := St(), plain;
      ids := [];
      DeepCopy.SameSpace(s0, a, p);
      EnterRegion(p, like, base);
      MappingStarts(s0, a, St(), plain, p, like, base, data);
      for i := 0 to pages
        invariant Valid() && Mapping(s0, a, St(), plain, p, like, base, i, ids, data)
      {
        NextPageFree(s0, a, St(), plain, p, like, base, i, ids, data, pages);
        ghost var s, now := St(), plain;
        ghost var id;
        MappingFacts(s0, a, s, now, p, like, base, i, ids, data);
        RangeFreePart(s0.spaces[p].regions, lo, lo + i, lo + pages);
        ok, id := FreshPage(p, PageContent(data, i));
        if !ok {
          TakeBack(p, like, base, i, ids, data, s0, a);
          return false, ids;
        }
        MappingNext(s0, a, s, now, St(), plain, p, like, base, i, ids, id, data);
        ids := ids + [id];
      }
      MappingFacts(s0, a, St(), plain, p, like, base, pages, ids, data);
      MappingDone(s0, a, St(), plain, p, like, base, pages, ids, data);
      ok := true;
    }

    /** Take back the `i` pages of a mapping that cannot be completed, and its region. */
    method TakeBack(
        p: nat, like: Region, base: nat, i: nat, ghost ids: seq<nat>, ghost data: Option<seq<byte>>, ghost s0: State,
        ghost a: DeepCopy.Plain)
      requires Valid() && Mapping(s0, a, St(), plain, p, like, base, i, ids, data)
      requires Inv(s0) && DeepCopy.Refines(s0, a)
      requires RangeFree(s0.spaces[p].regions, like.start, like.start + i) && like.start == like.end && !like.cow
      modifies this`spaces, this`mem, this`free, this`plain, refs
      ensures Valid() && p in spaces && p in a.spaces && plain == DeepCopy.WithRegions(a, p, a.spaces[p].regions, base)
    {
      hide Inv, DeepCopy.Refines, DeepCopy.Strip, DeepCopy.WithRegions, DeepCopy.Populate, DeepCopy.DropCells, Mapping;
      hide RangeFree, Mapped, Find;
      ghost var s, now := St(), plain;
      MappingFacts(s0, a, s, now, p, like, base, i, ids, data);
      DropRange(p, like.start, like.start + i);
      LeaveRegion(p);
      UndoMapping(s0, a, s, now, St(), plain, p, like, base, i, ids, data);
      plain := DeepCopy.WithRegions(a, p, a.spaces[p].regions, base);
    }

    /** Unmap `pages` pages from `lo` on, to make room for a fixed mapping. */
    method ClearRange(p: nat, lo: nat, pages: nat)
      requires Valid() && p in spaces
      modifies this`spaces, this`mem, this`free, this`plain, refs
      ensures Valid() && p in spaces && p in old(plain.spaces) && plain == Cleared(old(plain), p, lo, pages)
      ensures spaces[p].regions == CutRange(old(spaces[p].regions), lo, pages)
      ensures spaces[p].mmapBase == old(spaces[p].mmapBase)
      ensures RangeFree(spaces[p].regions, lo, lo + pages)
    {
      hide Inv, DeepCopy.Refines, DeepCopy.Strip, DeepCopy.Unmap, RangeFree, Cut;
      RangeAligned(lo, pages);
      RegionsAreOk(St(), p);
      CutFreesRange(spaces[p].regions, lo, pages);
      Munmap(p, lo * PAGE_SIZE, pages * PAGE_SIZE);
    }

    /** Map frame after frame over whatever is there, as a mapping does that collides. */
    method MapOver(p: nat, r: Region, base: nat, data: Option<seq<byte>>) returns (ok: bool)
      requires Valid() && p in spaces && r.start <= r.end && SharesPage(spaces[p].regions, r.start, r.end)
      modifies this`spaces, this`mem, this`free, refs
      ensures p in spaces && (ok <==> |old(free)| >= r.end - r.start) && spaces[p].mmapBase == base
      ensures ok ==> spaces[p].regions == old(spaces[p].regions) + [r] && !Disjoint(spaces[p].regions)
      ensures ok ==> Filled(St(), p, r.start, r.end - r.start, data)
      ensures ok ==> forall v: nat :: v < r.start || r.end <= v ==>
        (v in spaces[p].ptes <==> v in old(spaces[p].ptes))
        && (v in spaces[p].ptes ==> spaces[p].ptes[v] == old(spaces[p].ptes[v]))
      ensures !ok ==> spaces[p].regions == old(spaces[p].regions)
      ensures !ok ==> forall v: nat ::
        v in spaces[p].ptes <==> v in old(spaces[p].ptes) && !(r.start <= v < r.start + |old(free)|)
    {
      hide Inv, DeepCopy.Refines, PageContent, Disjoint;
      var regions := spaces[p].regions;
      var ptes;
      ok, ptes := LayPages(spaces[p].ptes, r, data);
      if !ok {
        spaces := spaces[p := Space(ptes, regions, base)];
        return;
      }
      spaces := spaces[p := Space(ptes, regions + [r], base)];
      OverlapNotDisjoint(regions, r);
    }

    /** Fill a new frame for every page of `r` and enter it; take all of them back when frames run out. */
    method LayPages(was: map<nat, Pte>, r: Region, data: Option<seq<byte>>) returns (ok: bool, ptes: map<nat, Pte>)
      requires refs.Length == MAX_FRAMES && r.start <= r.end
      modifies this`mem, this`free, refs
      ensures ok <==> |old(free)| >= r.end - r.start
      ensures ok ==> forall v: nat :: v < r.start || r.end <= v ==>
        (v in ptes <==> v in was) && (v in ptes ==> ptes[v] == was[v])
      ensures ok ==> forall v: nat :: r.start <= v < r.end ==>
        v in ptes && ptes[v].frame in mem && mem[ptes[v].frame] == PageContent(data, v - r.start)
      ensures !ok ==> forall v: nat :: v in ptes <==> v in was && !(r.start <= v < r.start + |old(free)|)
    {
      hide PageContent;
      ptes := was;
      for i := 0 to r.end - r.start
        invariant |free| == |old(free)| - i
        invariant forall v: nat :: v < r.start || r.start + i <= v ==>
          (v in ptes <==> v in was) && (v in ptes ==> ptes[v] == was[v])
        invariant forall v: nat :: r.start <= v < r.start + i ==> v in ptes && ptes[v].frame !in free
        invariant forall v: nat :: r.start <= v < r.start + i ==>
          ptes[v].frame in mem && mem[ptes[v].frame] == PageContent(data, v - r.start)
      {
        if free == {} {
          ptes := UnmapFirst(ptes, r.start, i);
          return false, ptes;
        }
        var nf :| nf in free;
        free, mem := free - {nf}, mem[nf := PageContent(data, i)];
        var v: nat := r.start + i;
        ptes := ptes[v := PteFor(nf, r.prot)];
      }
      ok := true;
    }

    /** Unmap the first `n` pages from `lo` on. */
    method UnmapFirst(ptes: map<nat, Pte>, lo: nat, n: nat) returns (left: map<nat, Pte>)
      requires refs.Length == MAX_FRAMES
      modifies this`free, refs
      ensures forall v :: v in left <==> v in ptes && !(lo <= v < lo + n)
    {
      left := ptes;
      for j := 0 to n
        invariant forall v :: v in left <==> v in ptes && !(lo <= v < lo + j)
      {
        var v := lo + j;
        if v in left {
          var frame := left[v].frame;
          var rc := CowDec(frame);
          if rc == 0 { free := free + {frame}; }
        }
        left := left - {v};
      }
    }

    /**
     mmap: at a fixed address, after unmapping what is there, or where `PickAddr` says.
     The plain machine maps the same pages with the same contents at the same place; the
     call fails for a bad fixed address or when the frames do not suffice. A mapping that
     collides with another one leaves overlapping regions.
     */
    method Mmap(p: nat, hint: Option<nat>, len: nat, prot: Prot, fixed: bool, shared: bool, data: Option<seq<byte>>)
      returns (addr: Option<nat>, ghost ids: seq<nat>)
      requires Valid() && p in spaces
      modifies this`spaces, this`mem, this`free, this`plain, refs
      ensures p in spaces && p in old(plain.spaces)
      ensures fixed && !FixedOk(hint, PagesFor(len)) ==> addr.None? && St() == old(St()) && plain == old(plain)
      ensures fixed ==> Valid()
      ensures fixed && FixedOk(hint, PagesFor(len)) ==>
        var lo := hint.value / PAGE_SIZE;
        var cleared := Cleared(old(plain), p, lo, PagesFor(len));
        var r := NewRegion(lo, len, prot, shared, data);
        && MappedAt(cleared, plain, p, lo, r, old(spaces[p].mmapBase), addr, ids, data)
        && (|Pages(cleared)| + |kernel| + PagesFor(len) <= |frames| ==> addr.Some?)
      ensures fixed && addr.Some? ==>
        spaces[p].regions == CutRange(old(spaces[p].regions), addr.value / PAGE_SIZE, PagesFor(len))
          + [NewRegion(addr.value / PAGE_SIZE, len, prot, shared, data)]
      ensures addr.Some? ==>
        forall k: nat :: k < PagesFor(len) * PAGE_SIZE ==> ByteIn(St(), p, addr.value + k) == Some(DataByte(data, k))
      ensures !fixed ==>
        var (lo, base) := PickAddr(PageOf(hint), PagesFor(len), old(spaces[p].regions), old(spaces[p].mmapBase));
        var r := NewRegion(lo, len, prot, shared, data);
        && (addr.Some? <==> |old(free)| >= PagesFor(len))
        && (addr.Some? ==> addr.value == lo * PAGE_SIZE && spaces[p].regions == old(spaces[p].regions) + [r])
        && if Collides(PageOf(hint), PagesFor(len), old(spaces[p].regions), old(spaces[p].mmapBase))
           then addr.Some? ==> !Disjoint(spaces[p].regions) && !Valid()
           else Valid() && MappedAt(old(plain), plain, p, lo, r, base, addr, ids, data)
    {
      hide Inv, DeepCopy.Refines, DeepCopy.Strip, DeepCopy.WithRegions, DeepCopy.Mmap, Cleared, CutRange;
      hide RangeFree, Find, FreshNames, PickAddr, Pages, Collides, HintTaken, SharesPage, Disjoint, ByteIn, DataByte;
      ids := [];
      var pages := PagesFor(len);
      var lo, base := 0, spaces[p].mmapBase;
      DeepCopy.SameSpace(St(), plain, p);
      if fixed {
        if hint.None? { return None, ids; }
        lo := hint.value / PAGE_SIZE;
        if lo == 0 || lo + pages > STACK_TOP_PAGE { return None, ids; }
        ClearRange(p, lo, pages);
        FreeFrames(St(), plain);
      } else {
        var picked := PickAddr(PageOf(hint), pages, spaces[p].regions, spaces[p].mmapBase);
        lo, base := picked.0, picked.1;
        PickAddrFree(PageOf(hint), pages, spaces[p].regions, spaces[p].mmapBase);
        if Collides(PageOf(hint), pages, spaces[p].regions, spaces[p].mmapBase) {
          CollidesShares(PageOf(hint), pages, spaces[p].regions, spaces[p].mmapBase);
          var mapped := MapOver(p, NewRegion(lo, len, prot, shared, data), base, data);
          if !mapped { return None, ids; }
          NotDisjointInvalid(St(), p);
          forall k: nat | k < pages * PAGE_SIZE { FilledByte(St(), p, lo, pages, data, k); }
          return Some(lo * PAGE_SIZE), ids;
        }
      }
      var like := NewRegion(lo, 0, prot, shared, data);
      var ok;
      ok, ids := MapFresh(p, lo, pages, like, base, data);
      if !ok { return None, ids; }
      addr := Some(lo * PAGE_SIZE);
      ghost var a := if fixed then Cleared(old(plain), p, lo, pages) else old(plain);
      MappedBytes(St(), a, plain, p, lo, NewRegion(lo, len, prot, shared, data), base, ids, data);
    }
  }
}
