/**
 The region list of an address space, in units of pages (regions are page aligned), and
 what unmapping a range does to it: interval difference, region by region.
 */
module VmRegions {
  import opened Wrappers

  const STACK_TOP_PAGE := 0x7_FFFF_FFF0
  const MMAP_BASE_PAGE := 0x4_0000_0000

  datatype Prot = Prot(read: bool, write: bool, exec: bool)

  datatype Kind = Anonymous | Stack | Heap | File(dev: nat, ino: nat, offset: nat) | Shared | Device | Vdso

  /** Pages `start..end`; `shared` is the MAP_SHARED flag, `cow` the copy-on-write mark. */
  datatype Region = Region(start: nat, end: nat, prot: Prot, kind: Kind, shared: bool, cow: bool)
  {
    predicate Contains(page: nat) {
      start <= page < end
    }

    /** What a page of the region keeps when the region is cut. */
    function Attributes(): (Prot, Kind, bool, bool) {
      (prot, kind, shared, cow)
    }
  }

  /** No page lies in two regions. */
  ghost predicate Disjoint(rs: seq<Region>) {
    forall i, j, page: nat :: 0 <= i < j < |rs| && rs[i].Contains(page) ==> !rs[j].Contains(page)
  }

  /** Some region of `rs` covers `page` with these attributes. */
  ghost predicate Covers(rs: seq<Region>, page: nat, a: (Prot, Kind, bool, bool)) {
    exists i :: 0 <= i < |rs| && rs[i].Contains(page) && rs[i].Attributes() == a
  }

  ghost predicate Mapped(rs: seq<Region>, page: nat) {
    exists i :: 0 <= i < |rs| && rs[i].Contains(page)
  }

  /** The parts of one region outside `lo..hi`. */
  function CutOne(r: Region, lo: nat, hi: nat): (parts: seq<Region>)
  {
    if r.end <= lo || r.start >= hi then [r]
    else
      (if r.start < lo then [r.(end := lo)] else [])
      + (if r.end > hi then [r.(start := hi)] else [])
  }

  /** The parts of all regions outside `lo..hi`. */
  function Cut(rs: seq<Region>, lo: nat, hi: nat): seq<Region> {
    if rs == [] then [] else Cut(rs[..|rs| - 1], lo, hi) + CutOne(rs[|rs| - 1], lo, hi)
  }

  lemma CutOneCovers(r: Region, lo: nat, hi: nat, page: nat)
    requires lo <= hi
    ensures forall i :: 0 <= i < |CutOne(r, lo, hi)| ==> CutOne(r, lo, hi)[i].Attributes() == r.Attributes()
    ensures Mapped(CutOne(r, lo, hi), page) <==> r.Contains(page) && !(lo <= page < hi)
    ensures Disjoint(CutOne(r, lo, hi))
  {
    var parts := CutOne(r, lo, hi);
    if r.Contains(page) && !(lo <= page < hi) {
      if r.end <= lo || r.start >= hi || page < lo {
        assert parts[0].Contains(page);
      } else {
        assert parts[|parts| - 1].Contains(page);
      }
    }
  }

  lemma CoversConcat(a: seq<Region>, b: seq<Region>, page: nat, x: (Prot, Kind, bool, bool))
    ensures Covers(a + b, page, x) <==> Covers(a, page, x) || Covers(b, page, x)
    ensures Mapped(a + b, page) <==> Mapped(a, page) || Mapped(b, page)
  {
    if i :| 0 <= i < |a| && a[i].Contains(page) && a[i].Attributes() == x { assert (a + b)[i] == a[i]; }
    if i :| 0 <= i < |b| && b[i].Contains(page) && b[i].Attributes() == x { assert (a + b)[|a| + i] == b[i]; }
    if i :| 0 <= i < |a| && a[i].Contains(page) { assert (a + b)[i] == a[i]; }
    if i :| 0 <= i < |b| && b[i].Contains(page) { assert (a + b)[|a| + i] == b[i]; }
    if i :| 0 <= i < |a + b| && (a + b)[i].Contains(page) { assert (a + b)[i] == if i < |a| then a[i] else b[i - |a|]; }
  }

  lemma CutOneAttributes(r: Region, lo: nat, hi: nat, page: nat, x: (Prot, Kind, bool, bool))
    requires lo <= hi
    ensures Covers(CutOne(r, lo, hi), page, x) <==> r.Contains(page) && r.Attributes() == x && !(lo <= page < hi)
  {
    CutOneCovers(r, lo, hi, page);
    if Mapped(CutOne(r, lo, hi), page) {
      var i :| 0 <= i < |CutOne(r, lo, hi)| && CutOne(r, lo, hi)[i].Contains(page);
      assert CutOne(r, lo, hi)[i].Attributes() == r.Attributes();
    }
  }

  /**
   Unmapping is interval difference: a page is covered afterwards exactly when it was
   covered before and lies outside the range, and then with the attributes it had.
   */
  lemma {:induction false} CutIsDifference(rs: seq<Region>, lo: nat, hi: nat, page: nat, x: (Prot, Kind, bool, bool))
    requires lo <= hi
    ensures Covers(Cut(rs, lo, hi), page, x) <==> Covers(rs, page, x) && !(lo <= page < hi)
  {
    if rs == [] {
    } else {
      var front, last := rs[..|rs| - 1], rs[|rs| - 1];
      assert rs == front + [last];
      CutIsDifference(front, lo, hi, page, x);
      CutOneAttributes(last, lo, hi, page, x);
      CoversConcat(front, [last], page, x);
      CoversConcat(Cut(front, lo, hi), CutOne(last, lo, hi), page, x);
      assert Covers([last], page, x) <==> last.Contains(page) && last.Attributes() == x by {
        assert [last][0] == last;
      }
    }
  }

  lemma MappedCovers(rs: seq<Region>, page: nat)
    ensures Mapped(rs, page) <==> exists x :: Covers(rs, page, x)
  {
    if i :| 0 <= i < |rs| && rs[i].Contains(page) { assert Covers(rs, page, rs[i].Attributes()); }
  }

  lemma CutMapped(rs: seq<Region>, lo: nat, hi: nat, page: nat)
    requires lo <= hi
    ensures Mapped(Cut(rs, lo, hi), page) <==> Mapped(rs, page) && !(lo <= page < hi)
  {
    MappedCovers(rs, page);
    MappedCovers(Cut(rs, lo, hi), page);
    forall x ensures Covers(Cut(rs, lo, hi), page, x) <==> Covers(rs, page, x) && !(lo <= page < hi) {
      CutIsDifference(rs, lo, hi, page, x);
    }
  }

  lemma DisjointConcat(a: seq<Region>, b: seq<Region>)
    requires Disjoint(a) && Disjoint(b)
    requires forall page: nat :: Mapped(a, page) ==> !Mapped(b, page)
    ensures Disjoint(a + b)
  {
    forall i, j, page: nat | 0 <= i < j < |a + b| && (a + b)[i].Contains(page) ensures !(a + b)[j].Contains(page) {
      if i < |a| <= j {
        assert Mapped(a, page);
        assert !Mapped(b, page);
      }
    }
  }

  /** Unmapping keeps the regions disjoint. */
  lemma {:induction false} CutKeepsDisjoint(rs: seq<Region>, lo: nat, hi: nat)
    requires lo <= hi && Disjoint(rs)
    ensures Disjoint(Cut(rs, lo, hi))
  {
    if rs == [] {
    } else {
      var front, last := rs[..|rs| - 1], rs[|rs| - 1];
      CutKeepsDisjoint(front, lo, hi);
      forall page: nat ensures Mapped(Cut(front, lo, hi), page) ==> !Mapped(CutOne(last, lo, hi), page) {
        CutMapped(front, lo, hi, page);
        CutOneCovers(last, lo, hi, page);
      }
      CutOneCovers(last, lo, hi, 0);
      DisjointConcat(Cut(front, lo, hi), CutOne(last, lo, hi));
    }
  }

  /** Keep the parts of one region outside the range. */
  method KeepParts(kept: seq<Region>, r: Region, lo: nat, hi: nat) returns (more: seq<Region>)
    ensures more == kept + CutOne(r, lo, hi)
  {
    more := kept;
    if r.end <= lo || r.start >= hi {
      more := more + [r];
    } else {
      if r.start < lo { more := more + [r.(end := lo)]; }
      if r.end > hi { more := more + [r.(start := hi)]; }
    }
  }

  /** The region-list half of unmapping, as the kernel rebuilds the list. */
  method CutRegions(regions: seq<Region>, lo: nat, hi: nat) returns (kept: seq<Region>)
    ensures kept == Cut(regions, lo, hi)
  {
    hide CutOne;
    kept := [];
    for i := 0 to |regions|
      invariant kept == Cut(regions[..i], lo, hi)
    {
      assert regions[..i + 1][..i] == regions[..i];
      kept := KeepParts(kept, regions[i], lo, hi);
    }
    assert regions[..|regions|] == regions;
  }

  /** The first region that contains a page. */
  function Find(rs: seq<Region>, page: nat): (r: Option<Region>)
    ensures r.Some? ==> r.value in rs && r.value.Contains(page)
  {
    if rs == [] then None
    else if rs[0].Contains(page) then Some(rs[0])
    else Find(rs[1..], page)
  }

  /** The kernel's lookup agrees with coverage: it finds the attributes a page is covered with. */
  lemma {:induction false} FindCovers(rs: seq<Region>, page: nat)
    requires Disjoint(rs)
    ensures forall x :: Covers(rs, page, x) <==> Find(rs, page).Some? && Find(rs, page).value.Attributes() == x
    ensures Mapped(rs, page) <==> Find(rs, page).Some?
  {
    if rs == [] {
    } else {
      var rest := rs[1..];
      assert rs == [rs[0]] + rest;
      FindCovers(rest, page);
      forall x
        ensures Covers(rs, page, x) <==> (rs[0].Contains(page) && rs[0].Attributes() == x) || Covers(rest, page, x)
        ensures Mapped(rs, page) <==> rs[0].Contains(page) || Mapped(rest, page)
      {
        CoversConcat([rs[0]], rest, page, x);
        assert [rs[0]][0] == rs[0];
      }
      if rs[0].Contains(page) {
        assert forall j :: 0 <= j < |rest| ==> rest[j] == rs[j + 1];
        assert !Mapped(rest, page);
      }
      MappedCovers(rest, page);
    }
  }

  /** The region a page of a disjoint list is found in, wherever in the list it stands. */
  lemma {:induction false} FindIs(rs: seq<Region>, i: nat, page: nat)
    requires Disjoint(rs) && i < |rs| && rs[i].Contains(page)
    ensures Find(rs, page) == Some(rs[i])
  {
    if i == 0 {
    } else {
      assert !rs[0].Contains(page);
      FindIs(rs[1..], i - 1, page);
    }
  }

  /** Unmapping leaves the attributes of every page outside the range alone and forgets the others. */
  lemma FindCut(rs: seq<Region>, lo: nat, hi: nat, page: nat)
    requires lo <= hi && Disjoint(rs)
    ensures Disjoint(Cut(rs, lo, hi))
    ensures Find(Cut(rs, lo, hi), page).Some? <==> Find(rs, page).Some? && !(lo <= page < hi)
    ensures Find(Cut(rs, lo, hi), page).Some? ==>
      Find(Cut(rs, lo, hi), page).value.Attributes() == Find(rs, page).value.Attributes()
  {
    CutKeepsDisjoint(rs, lo, hi);
    FindCovers(rs, page);
    FindCovers(Cut(rs, lo, hi), page);
    CutMapped(rs, lo, hi, page);
    if Find(Cut(rs, lo, hi), page).Some? {
      CutIsDifference(rs, lo, hi, page, Find(rs, page).value.Attributes());
    }
  }

  /** A region that overlaps no other can be appended. */
  lemma AppendDisjoint(rs: seq<Region>, r: Region)
    requires Disjoint(rs) && forall page: nat :: r.Contains(page) ==> !Mapped(rs, page)
    ensures Disjoint(rs + [r])
    ensures forall page: nat :: Find(rs + [r], page) == if r.Contains(page) then Some(r) else Find(rs, page)
  {
    assert Disjoint([r]);
    forall page: nat | Mapped(rs, page) ensures !Mapped([r], page) { assert !r.Contains(page); }
    DisjointConcat(rs, [r]);
    forall page: nat ensures Find(rs + [r], page) == if r.Contains(page) then Some(r) else Find(rs, page) {
      if r.Contains(page) {
        assert (rs + [r])[|rs|] == r;
        FindIs(rs + [r], |rs|, page);
      } else {
        FindPrefix(rs, r, page);
      }
    }
  }

  lemma {:induction false} FindPrefix(rs: seq<Region>, r: Region, page: nat)
    requires !r.Contains(page)
    ensures Find(rs + [r], page) == Find(rs, page)
  {
    if rs == [] {
      assert [r][1..] == [] && rs + [r] == [r];
    } else {
      assert (rs + [r])[1..] == rs[1..] + [r];
      FindPrefix(rs[1..], r, page);
    }
  }

  /** The kernel's overlap test. */
  predicate Overlaps(rs: seq<Region>, lo: nat, hi: nat) {
    exists i :: 0 <= i < |rs| && rs[i].start < hi && rs[i].end > lo
  }

  /** No region has a page in the range. */
  ghost predicate RangeFree(rs: seq<Region>, lo: nat, hi: nat) {
    forall page: nat :: lo <= page < hi ==> !Mapped(rs, page)
  }

  /** Some page is both in the range and in a region. */
  predicate SharesPage(rs: seq<Region>, lo: nat, hi: nat) {
    exists i :: 0 <= i < |rs| && Max(rs[i].start, lo) < Min(rs[i].end, hi)
  }

  lemma RangeFreeIff(rs: seq<Region>, lo: nat, hi: nat)
    ensures RangeFree(rs, lo, hi) <==> !SharesPage(rs, lo, hi)
  {
    if SharesPage(rs, lo, hi) {
      var i :| 0 <= i < |rs| && Max(rs[i].start, lo) < Min(rs[i].end, hi);
      var page: nat := Max(rs[i].start, lo);
      assert rs[i].Contains(page);
      assert lo <= page < hi && Mapped(rs, page);
    }
    forall page: nat | lo <= page < hi && Mapped(rs, page) ensures SharesPage(rs, lo, hi) {
      var i :| 0 <= i < |rs| && rs[i].Contains(page);
      assert Max(rs[i].start, lo) < Min(rs[i].end, hi);
    }
  }

  /** The hint is used: it is usable, and the overlap test finds nothing there. */
  predicate HintTaken(hint: Option<nat>, size: nat, rs: seq<Region>) {
    && hint.Some? && hint.value > 0 && hint.value + size < STACK_TOP_PAGE
    && !Overlaps(rs, hint.value, hint.value + size)
  }

  /**
   Where a mapping that is not fixed goes, and the bump pointer afterwards: at the hint
   if that is taken, otherwise at the bump pointer, without a further test.
   */
  function PickAddr(hint: Option<nat>, size: nat, rs: seq<Region>, base: nat): (nat, nat) {
    if HintTaken(hint, size, rs) then (hint.value, base) else (base, base + size + 1)
  }

  /**
   Where that is. A hint other than page zero, below the stack and with no region in its way
   is taken, and the bump pointer stays; else the mapping is at the bump pointer, which then
   moves past it and one page more.
   */
  lemma PlaceIs(hint: Option<nat>, size: nat, rs: seq<Region>, base: nat)
    requires size > 0 && forall i :: 0 <= i < |rs| ==> rs[i].start < rs[i].end
    ensures var (lo, next) := PickAddr(hint, size, rs, base);
      if && hint.Some? && 0 < hint.value && hint.value + size < STACK_TOP_PAGE
         && RangeFree(rs, hint.value, hint.value + size)
      then lo == hint.value && next == base else lo == base && next == lo + size + 1
  {
    if hint.Some? {
      RangeFreeIff(rs, hint.value, hint.value + size);
      var hi := hint.value + size;
      assert forall i :: 0 <= i < |rs| ==>
        (rs[i].start < hi && rs[i].end > hint.value <==> Max(rs[i].start, hint.value) < Min(rs[i].end, hi));
    }
  }

  /** A mapping without MAP_FIXED goes to the bump pointer while a region has a page there. */
  predicate Collides(hint: Option<nat>, size: nat, rs: seq<Region>, base: nat) {
    !HintTaken(hint, size, rs) && SharesPage(rs, base, base + size)
  }

  /**
   The chosen range is free exactly unless the mapping collides. That is not for the kernel
   to guarantee: mappings placed by hint or by MAP_FIXED may lie at the bump pointer.
   */
  lemma PickAddrFree(hint: Option<nat>, size: nat, rs: seq<Region>, base: nat)
    ensures var lo := PickAddr(hint, size, rs, base).0;
      RangeFree(rs, lo, lo + size) <==> !Collides(hint, size, rs, base)
  {
    var lo := PickAddr(hint, size, rs, base).0;
    RangeFreeIff(rs, lo, lo + size);
  }

  /** All regions end at or below the bump pointer. */
  predicate BelowBase(rs: seq<Region>, base: nat) {
    forall i :: 0 <= i < |rs| ==> rs[i].end <= base
  }

  /** Then nothing collides. */
  lemma BelowBaseNeverCollides(hint: Option<nat>, size: nat, rs: seq<Region>, base: nat)
    requires BelowBase(rs, base)
    ensures !Collides(hint, size, rs, base)
  {
  }

  lemma CutBelowBase(rs: seq<Region>, lo: nat, hi: nat, base: nat)
    requires BelowBase(rs, base)
    ensures BelowBase(Cut(rs, lo, hi), base)
  {
    if rs == [] {
    } else {
      CutBelowBase(rs[1..], lo, hi, base);
    }
  }
}
