/**
 What a process reads is told by the calls and their answers alone: the last byte stored
 there, by whoever sees the page, since the page was mapped, or else what the mapping put
 there; a forked process starts from its parent's bytes. Likewise a store succeeds exactly
 where the page was mapped for writing.
 */
module MemoryHistory {
  import opened Wrappers
  import opened VmRegions
  import opened CowState
  import opened CowMachine
  import opened CowRuns
  import DeepCopy

  /** Where a page comes from: memory of the process's own, or page `page` of the shared mapping made by call `call`. */
  datatype Origin = Own | Joint(call: nat, page: nat)

  datatype Mapping = Mapping(origin: Origin, prot: Prot)

  /** What a call does to one page of a process. */
  datatype Effect = Inherit(parent: nat) | Fresh(page: nat) | Gone | Same

  /** The page lies in the `len` bytes at `addr`, in whole pages. */
  predicate InRange(addr: nat, len: nat, page: nat) {
    addr / PAGE_SIZE <= page && page * PAGE_SIZE < addr + len
  }

  function EffectOn(op: Op, answer: Answer, p: nat, page: nat): Effect {
    match op
    case Fork(q, c) => if answer == Made(true) && c == p then Inherit(q) else Same
    case Map(q, hint, len, _, fixed, _, _) =>
      if q != p || !answer.At? then Same
      else if answer.addr.Some? then
        (if InRange(answer.addr.value, len, page) then Fresh(page - answer.addr.value / PAGE_SIZE) else Same)
      else if fixed && hint.Some? then
        // the range of a fixed mapping is cleared before frames run out
        var addr := hint.value / PAGE_SIZE * PAGE_SIZE;
        if 0 < addr && addr + len <= STACK_TOP_PAGE * PAGE_SIZE && InRange(addr, len, page) then Gone else Same
      else Same
    case Unmap(q, addr, len) => if answer.Done? && q == p && len > 0 && InRange(addr, len, page) then Gone else Same
    case Exit(q) => if answer.Done? && q == p then Gone else Same
    case _ => Same
  }

  /** How a page of a process is mapped. */
  function Where(ops: seq<Op>, answers: seq<Answer>, p: nat, page: nat): Option<Mapping>
    requires |answers| == |ops|
    decreases |ops|
  {
    if ops == [] then None
    else
      var n := |ops| - 1;
      match EffectOn(ops[n], answers[n], p, page)
      case Inherit(q) => Where(ops[..n], answers[..n], q, page)
      case Fresh(i) =>
        if ops[n].Map? then Some(Mapping(if ops[n].shared then Joint(n, i) else Own, ops[n].prot)) else None
      case Gone => None
      case Same => Where(ops[..n], answers[..n], p, page)
  }

  /** Two addresses stand for one byte: the same address, or the same place of one page of a shared mapping. */
  predicate OneByte(ops: seq<Op>, answers: seq<Answer>, p: nat, vaddr: nat, q: nat, other: nat)
    requires |answers| == |ops|
  {
    || (p == q && vaddr == other)
    || (var here, there := Where(ops, answers, p, vaddr / PAGE_SIZE), Where(ops, answers, q, other / PAGE_SIZE);
        && vaddr % PAGE_SIZE == other % PAGE_SIZE && here.Some? && there.Some?
        && here.value.origin.Joint? && here.value.origin == there.value.origin)
  }

  /** The byte at an address. */
  function ByteThen(ops: seq<Op>, answers: seq<Answer>, p: nat, vaddr: nat): Option<byte>
    requires |answers| == |ops|
    decreases |ops|
  {
    if ops == [] then None
    else
      var n := |ops| - 1;
      var op, answer := ops[n], answers[n];
      match EffectOn(op, answer, p, vaddr / PAGE_SIZE)
      case Inherit(q) => ByteThen(ops[..n], answers[..n], q, vaddr)
      case Fresh(_) =>
        if op.Map? && answer.At? && answer.addr.Some? && answer.addr.value <= vaddr
        then Some(DataByte(op.data, vaddr - answer.addr.value)) else None
      case Gone => None
      case Same =>
        if op.Store? && answer == Stored(true) && OneByte(ops[..n], answers[..n], op.p, op.vaddr, p, vaddr)
        then Some(op.b) else ByteThen(ops[..n], answers[..n], p, vaddr)
  }

  /** The process exists. */
  function Lives(ops: seq<Op>, answers: seq<Answer>, p: nat): bool
    requires |answers| == |ops|
    decreases |ops|
  {
    if ops == [] then false
    else
      var n := |ops| - 1;
      var op, answer := ops[n], answers[n];
      if (op == Spawn(p) || (op.Fork? && op.c == p)) && answer == Made(true) then true
      else if op == Exit(p) && answer.Done? then false
      else Lives(ops[..n], answers[..n], p)
  }

  // ---- One call, seen by the copying machine ----

  /** How a page is kept: as its own data, or under a name. */
  datatype Shape = Alone | Named(id: nat)

  function ShapeAt(a: DeepCopy.Plain, p: nat, page: nat): Option<Shape> {
    if !DeepCopy.Present(a, p, page) then None
    else match a.spaces[p].pages[page]
      case Private(_) => Some(Alone)
      case Common(id) => Some(Named(id))
  }

  /** The protection of the region that holds a page. */
  function ProtAt(a: DeepCopy.Plain, p: nat, page: nat): Option<Prot> {
    if p !in a.spaces then None
    else match Find(a.spaces[p].regions, page)
      case None => None
      case Some(r) => Some(r.prot)
  }

  /** Pages are whole and lie in regions that do not overlap. */
  ghost predicate WholePages(a: DeepCopy.Plain) {
    && (forall p, vaddr: nat :: DeepCopy.Present(a, p, vaddr / PAGE_SIZE) ==> DeepCopy.ByteAt(a, p, vaddr).Some?)
    && (forall p, v :: ShapeAt(a, p, v).Some? ==> ProtAt(a, p, v).Some?)
    && (forall p :: p in a.spaces ==> Disjoint(a.spaces[p].regions))
  }

  lemma RangeIs(lo: nat, len: nat, page: nat)
    ensures InRange(lo * PAGE_SIZE, len, page) <==> lo <= page < lo + PagesFor(len)
  {
  }

  lemma UnmapRangeIs(addr: nat, len: nat, page: nat)
    requires len > 0
    ensures InRange(addr, len, page) <==> addr / PAGE_SIZE <= page < (addr + len + PAGE_SIZE - 1) / PAGE_SIZE
  {
  }

  /** A fixed mapping's address is good exactly when it is not zero and the mapping ends below the stack. */
  lemma FixedOkIs(hint: nat, len: nat)
    ensures var addr := hint / PAGE_SIZE * PAGE_SIZE;
      FixedOk(Some(hint), PagesFor(len)) <==> 0 < addr && addr + len <= STACK_TOP_PAGE * PAGE_SIZE
  {
  }

  /** What a mapping does to a page, by where the copying machine puts it. */
  lemma MapEffect(a: Abs, op: Op, ch: Choice, p: nat, page: nat)
    requires op.Map? && op.p in a.plain.spaces
    ensures EffectOn(op, Reply(a, op, ch), p, page) ==
      if p != op.p || BadAddress(op) then Same
      else
        var lo := Target(a.plain, op).0;
        if !(lo <= page < lo + PagesFor(op.len)) then Same
        else if !ch.failed then Fresh(page - lo)
        else if op.fixed then Gone
        else Same
  {
    hide PickAddr;
    if op.hint.Some? { FixedOkIs(op.hint.value, op.len); }
    if !BadAddress(op) { RangeIs(Target(a.plain, op).0, op.len, page); }
  }

  /** The machine a mapping starts from: as before, but for the range of a fixed one. */
  lemma ReadyPage(a: DeepCopy.Plain, op: Op, p: nat, page: nat)
    requires op.Map? && op.p in a.spaces && !BadAddress(op)
    ensures var b, lo := Ready(a, op), Target(a, op).0;
      && b.spaces.Keys == a.spaces.Keys && b.objects == a.objects
      && (DeepCopy.Present(b, p, page) <==>
          DeepCopy.Present(a, p, page) && !(op.fixed && p == op.p && lo <= page < lo + PagesFor(op.len)))
      && (DeepCopy.Present(b, p, page) ==> b.spaces[p].pages[page] == a.spaces[p].pages[page])
  {
    hide PickAddr, Cut;
  }

  /** What a mapping does to the pages: its own are new, and a fixed one has cleared its range even if it fails. */
  lemma MapShape(a: Abs, op: Op, ch: Choice, frames: nat, p: nat, page: nat)
    requires Fair(a, op, ch, frames) && op.Map? && op.p in a.plain.spaces
    ensures var b, answer := NextMap(a.plain, op, ch), Reply(a, op, ch);
      match EffectOn(op, answer, p, page)
      case Inherit(_) => false
      case Fresh(i) => i < |ch.ids| && ShapeAt(b, p, page) == Some(if op.shared then Named(ch.ids[i]) else Alone)
      case Gone => ShapeAt(b, p, page) == None
      case Same => ShapeAt(b, p, page) == ShapeAt(a.plain, p, page)
  {
    hide DeepCopy.Populate, Target, Ready, Contents, Fits, DeepCopy.Unused, Overlap, EffectOn, Reply;
    MapEffect(a, op, ch, p, page);
    if !BadAddress(op) {
      var lo, pages, r := Target(a.plain, op).0, PagesFor(op.len), Ready(a.plain, op);
      ReadyPage(a.plain, op, p, page);
      if !ch.failed {
        DeepCopy.PopulateEffects(r, op.p, lo, op.shared, ch.ids, Contents(op.data, pages));
        if p == op.p && lo <= page < lo + pages {
          DeepCopy.PopulateShows(r, op.p, lo, op.shared, ch.ids, Contents(op.data, pages), page - lo);
        }
      }
    }
  }

  lemma StepShape(a: Abs, op: Op, ch: Choice, frames: nat, p: nat, page: nat)
    requires Fair(a, op, ch, frames)
    ensures var b, answer := Next(a, op, ch).plain, Reply(a, op, ch);
      match EffectOn(op, answer, p, page)
      case Inherit(q) => ShapeAt(b, p, page) == ShapeAt(a.plain, q, page)
      case Fresh(i) =>
        op.Map? && i < |ch.ids| && ShapeAt(b, p, page) == Some(if op.shared then Named(ch.ids[i]) else Alone)
      case Gone => ShapeAt(b, p, page) == None
      case Same => ShapeAt(b, p, page) == ShapeAt(a.plain, p, page)
  {
    hide NextMap, Fits, Overlap, Cut, FreshNames, Target, Ready, BadAddress;
    if Applies(a.plain.spaces.Keys, op) {
      match op {
        case Map(_, _, _, _, _, _, _) => MapShape(a, op, ch, frames, p, page);
        case Unmap(_, addr, len) => if len > 0 { UnmapRangeIs(addr, len, page); }
        case _ =>
      }
    }
  }

  /** Its regions: none in the range, and elsewhere as before. */
  lemma ReadyRegions(a: DeepCopy.Plain, op: Op, page: nat)
    requires op.Map? && op.p in a.spaces && !BadAddress(op) && !Overlap(a, op) && Disjoint(a.spaces[op.p].regions)
    ensures var b, lo := Ready(a, op), Target(a, op).0;
      && b.spaces.Keys == a.spaces.Keys && (forall q :: q in a.spaces && q != op.p ==> b.spaces[q] == a.spaces[q])
      && Disjoint(b.spaces[op.p].regions) && RangeFree(b.spaces[op.p].regions, lo, lo + PagesFor(op.len))
      && (!(op.fixed && lo <= page < lo + PagesFor(op.len)) ==> ProtAt(b, op.p, page) == ProtAt(a, op.p, page))
  {
    hide Cut, PickAddr, Collides, Disjoint, Find;
    var rs, lo := a.spaces[op.p].regions, Target(a, op).0;
    var hi := lo + PagesFor(op.len);
    if !op.fixed {
      PickAddrFree(PageOf(op.hint), PagesFor(op.len), rs, a.spaces[op.p].mmapBase);
    } else {
      FindCut(rs, lo, hi, page);
      if !(lo <= page < hi) { CutProt(rs, lo, hi, page); }
      forall v: nat | lo <= v < hi ensures !Mapped(Cut(rs, lo, hi), v) { CutMapped(rs, lo, hi, v); }
      if lo == hi { NoneMapped(rs, lo); }
    }
  }

  lemma NoneMapped(rs: seq<Region>, lo: nat)
    ensures RangeFree(rs, lo, lo)
  {
  }

  /** Outside the range, cutting keeps the protection. */
  lemma CutProt(rs: seq<Region>, lo: nat, hi: nat, page: nat)
    requires lo <= hi && Disjoint(rs) && !(lo <= page < hi)
    ensures var before, after := Find(rs, page), Find(Cut(rs, lo, hi), page);
      (before.Some? <==> after.Some?) && (after.Some? ==> after.value.prot == before.value.prot)
  {
    FindCut(rs, lo, hi, page);
  }

  /** The protection of the pages of a process after a mapping. */
  lemma MapProt(a: Abs, op: Op, ch: Choice, frames: nat, p: nat, page: nat)
    requires Fair(a, op, ch, frames) && op.Map? && op.p in a.plain.spaces && Disjoint(a.plain.spaces[op.p].regions)
    ensures var b, answer := NextMap(a.plain, op, ch), Reply(a, op, ch);
      && b.spaces.Keys == a.plain.spaces.Keys
      && (forall q :: q in a.plain.spaces && q != op.p ==> b.spaces[q].regions == a.plain.spaces[q].regions)
      && Disjoint(b.spaces[op.p].regions)
      && match EffectOn(op, answer, p, page)
         case Fresh(_) => ProtAt(b, p, page) == Some(op.prot)
         case Same => ProtAt(b, p, page) == ProtAt(a.plain, p, page)
         case _ => true
  {
    hide DeepCopy.Populate, Target, Ready, Contents, Fits, FreshNames, Overlap, EffectOn, Reply;
    hide Disjoint, Find, RangeFree;
    MapEffect(a, op, ch, p, page);
    if !BadAddress(op) {
      var lo, pages, r := Target(a.plain, op).0, PagesFor(op.len), Ready(a.plain, op);
      ReadyRegions(a.plain, op, page);
      if !ch.failed {
        DeepCopy.PopulateEffects(r, op.p, lo, op.shared, ch.ids, Contents(op.data, pages));
        NewRegionFinds(r.spaces[op.p].regions, NewRegion(lo, op.len, op.prot, op.shared, op.data), page);
      }
    }
  }

  lemma NewRegionFinds(rs: seq<Region>, r: Region, page: nat)
    requires Disjoint(rs) && RangeFree(rs, r.start, r.end)
    ensures Disjoint(rs + [r]) && Find(rs + [r], page) == if r.Contains(page) then Some(r) else Find(rs, page)
  {
    AppendDisjoint(rs, r);
  }

  lemma StepProt(a: Abs, op: Op, ch: Choice, frames: nat, p: nat, page: nat)
    requires Fair(a, op, ch, frames) && WholePages(a.plain)
    ensures var b, answer := Next(a, op, ch).plain, Reply(a, op, ch);
      match EffectOn(op, answer, p, page)
      case Inherit(q) => ProtAt(b, p, page) == ProtAt(a.plain, q, page)
      case Fresh(_) => op.Map? && ProtAt(b, p, page) == Some(op.prot)
      case Gone => true
      case Same => ShapeAt(b, p, page).Some? ==> ProtAt(b, p, page) == ProtAt(a.plain, p, page)
  {
    hide NextMap, Fits, Overlap, FreshNames, Target, Ready, BadAddress, DeepCopy.Look, Find, Disjoint, Cut;
    if Applies(a.plain.spaces.Keys, op) {
      match op {
        case Map(q, _, _, _, _, _, _) =>
          assert Disjoint(a.plain.spaces[q].regions);
          MapEffectKinds(a, op, ch, p, page);
          MapProt(a, op, ch, frames, p, page);
        case Unmap(q, addr, len) =>
          if len > 0 {
            UnmapRangeIs(addr, len, page);
            var lo, hi := addr / PAGE_SIZE, (addr + len + PAGE_SIZE - 1) / PAGE_SIZE;
            if !(lo <= page < hi) { CutProt(a.plain.spaces[q].regions, lo, hi, page); }
          }
        case _ =>
      }
    }
  }

  lemma MapEffectKinds(a: Abs, op: Op, ch: Choice, p: nat, page: nat)
    requires op.Map? && op.p in a.plain.spaces
    ensures !EffectOn(op, Reply(a, op, ch), p, page).Inherit?
  {
  }

  /** What a mapping shows: the file's bytes or zeros on its own pages, and elsewhere what was there. */
  lemma MapByte(a: Abs, op: Op, ch: Choice, frames: nat, p: nat, vaddr: nat)
    requires Fair(a, op, ch, frames) && op.Map? && op.p in a.plain.spaces && WholePages(a.plain)
    ensures var b, answer := NextMap(a.plain, op, ch), Reply(a, op, ch);
      match EffectOn(op, answer, p, vaddr / PAGE_SIZE)
      case Inherit(_) => false
      case Fresh(_) =>
        && answer.At? && answer.addr.Some? && answer.addr.value <= vaddr
        && DeepCopy.ByteAt(b, p, vaddr) == Some(DataByte(op.data, vaddr - answer.addr.value))
      case Gone => DeepCopy.ByteAt(b, p, vaddr) == None
      case Same => DeepCopy.ByteAt(b, p, vaddr) == DeepCopy.ByteAt(a.plain, p, vaddr)
  {
    hide DeepCopy.Populate, Target, Ready, Contents, Fits, Overlap, EffectOn, DataByte, ProtAt, DeepCopy.Mmap;
    var page := vaddr / PAGE_SIZE;
    MapEffect(a, op, ch, p, page);
    MapShape(a, op, ch, frames, p, page);
    if !BadAddress(op) && !ch.failed && p == op.p
       && Target(a.plain, op).0 <= page < Target(a.plain, op).0 + PagesFor(op.len) {
      var (lo, base) := Target(a.plain, op);
      var r := NewRegion(lo, op.len, op.prot, op.shared, op.data);
      MappedByte(Ready(a.plain, op), p, r, base, ch.ids, op.data, vaddr);
    } else if EffectOn(op, Reply(a, op, ch), p, page).Same? {
      MapLook(a, op, ch, frames, p, page);
    }
  }

  /** Pages that a mapping leaves alone keep their contents, shared ones because new names were not in use. */
  lemma MapLook(a: Abs, op: Op, ch: Choice, frames: nat, p: nat, page: nat)
    requires Fair(a, op, ch, frames) && op.Map? && op.p in a.plain.spaces && WholePages(a.plain)
    requires EffectOn(op, Reply(a, op, ch), p, page).Same?
    ensures DeepCopy.Look(NextMap(a.plain, op, ch), p, page) == DeepCopy.Look(a.plain, p, page)
  {
    hide DeepCopy.Populate, Target, Ready, Contents, Fits, Overlap, EffectOn, Reply, ProtAt;
    MapEffect(a, op, ch, p, page);
    if !BadAddress(op) {
      var lo, pages, r := Target(a.plain, op).0, PagesFor(op.len), Ready(a.plain, op);
      ReadyPage(a.plain, op, p, page);
      if !ch.failed {
        DeepCopy.PopulateEffects(r, op.p, lo, op.shared, ch.ids, Contents(op.data, pages));
        if DeepCopy.Present(a.plain, p, page) && a.plain.spaces[p].pages[page].Common? {
          var id := a.plain.spaces[p].pages[page].id;
          assert DeepCopy.ByteAt(a.plain, p, page * PAGE_SIZE).Some?;
          assert DeepCopy.Present(r, p, page) && r.spaces[p].pages[page] == DeepCopy.Common(id);
          assert id !in ch.ids;
        }
      }
    }
  }

  lemma StepByte(a: Abs, op: Op, ch: Choice, frames: nat, p: nat, vaddr: nat)
    requires Fair(a, op, ch, frames) && WholePages(a.plain)
    ensures var b, answer := Next(a, op, ch).plain, Reply(a, op, ch);
      match EffectOn(op, answer, p, vaddr / PAGE_SIZE)
      case Inherit(q) => DeepCopy.ByteAt(b, p, vaddr) == DeepCopy.ByteAt(a.plain, q, vaddr)
      case Fresh(_) =>
        && op.Map? && answer.At? && answer.addr.Some? && answer.addr.value <= vaddr
        && DeepCopy.ByteAt(b, p, vaddr) == Some(DataByte(op.data, vaddr - answer.addr.value))
      case Gone => DeepCopy.ByteAt(b, p, vaddr) == None
      case Same =>
        DeepCopy.ByteAt(b, p, vaddr) ==
          if op.Store? && answer == Stored(true) && DeepCopy.SameByte(a.plain, op.p, op.vaddr, p, vaddr)
          then Some(op.b) else DeepCopy.ByteAt(a.plain, p, vaddr)
  {
    hide NextMap, Fits, Overlap, FreshNames, Target, Ready, BadAddress, ProtAt, Cut, DeepCopy.Store, DataByte;
    hide DeepCopy.SameByte;
    if Applies(a.plain.spaces.Keys, op) {
      match op {
        case Map(_, _, _, _, _, _, _) => MapByte(a, op, ch, frames, p, vaddr);
        case Unmap(_, addr, len) => if len > 0 { UnmapRangeIs(addr, len, vaddr / PAGE_SIZE); }
        case Store(q, target, b) =>
          if DeepCopy.MayWrite(a.plain, q, target / PAGE_SIZE) {
            DeepCopy.StoredByte(a.plain, q, target, b, p, vaddr);
          }
        case _ =>
      }
    }
  }

  lemma StepDisjoint(a: Abs, op: Op, ch: Choice, frames: nat, p: nat)
    requires Fair(a, op, ch, frames) && WholePages(a.plain) && p in Next(a, op, ch).plain.spaces
    ensures Disjoint(Next(a, op, ch).plain.spaces[p].regions)
  {
    hide NextMap, Fits, Overlap, FreshNames, Target, Ready, BadAddress, DeepCopy.ByteAt, ProtAt, Disjoint, Cut;
    if Applies(a.plain.spaces.Keys, op) {
      match op {
        case Spawn(_) => assert Disjoint([]) by { NoRegions(); }
        case Map(q, _, _, _, _, _, _) =>
          assert Disjoint(a.plain.spaces[q].regions);
          MapProt(a, op, ch, frames, p, 0);
        case Unmap(q, addr, len) =>
          if len > 0 {
            CutKeepsDisjoint(
              a.plain.spaces[q].regions, addr / PAGE_SIZE, (addr + len + PAGE_SIZE - 1) / PAGE_SIZE);
          }
        case _ =>
      }
    }
  }

  lemma NoRegions()
    ensures Disjoint([])
  {
  }

  lemma StepWhole(a: Abs, op: Op, ch: Choice, frames: nat)
    requires Fair(a, op, ch, frames) && WholePages(a.plain)
    ensures WholePages(Next(a, op, ch).plain)
  {
    hide Next, Reply, Fair, DeepCopy.ByteAt, DeepCopy.SameByte, ProtAt, Disjoint, EffectOn, DataByte;
    var b := Next(a, op, ch).plain;
    forall p, vaddr: nat | DeepCopy.Present(b, p, vaddr / PAGE_SIZE) ensures DeepCopy.ByteAt(b, p, vaddr).Some? {
      StepShape(a, op, ch, frames, p, vaddr / PAGE_SIZE);
      StepByte(a, op, ch, frames, p, vaddr);
    }
    forall p, v | ShapeAt(b, p, v).Some? ensures ProtAt(b, p, v).Some? {
      StepShape(a, op, ch, frames, p, v);
      StepProt(a, op, ch, frames, p, v);
    }
    forall p | p in b.spaces ensures Disjoint(b.spaces[p].regions) { StepDisjoint(a, op, ch, frames, p); }
  }

  // ---- The history follows the copying machine ----

  ghost predicate PageFollows(a: DeepCopy.Plain, ops: seq<Op>, answers: seq<Answer>, p: nat, page: nat)
    requires |answers| == |ops|
  {
    var here := Where(ops, answers, p, page);
    && (ShapeAt(a, p, page).Some? <==> here.Some?)
    && (here.Some? ==>
          && ProtAt(a, p, page) == Some(here.value.prot)
          && (ShapeAt(a, p, page).value.Alone? <==> here.value.origin.Own?)
          && (here.value.origin.Joint? ==> here.value.origin.call < |ops|))
  }

  /** Two pages have one name exactly when they have one origin. */
  ghost predicate PairFollows(
    a: DeepCopy.Plain, ops: seq<Op>, answers: seq<Answer>, p: nat, page: nat, q: nat, other: nat)
    requires |answers| == |ops|
  {
    var here, there := Where(ops, answers, p, page), Where(ops, answers, q, other);
    here.Some? && there.Some? && here.value.origin.Joint? && there.value.origin.Joint? ==>
      (ShapeAt(a, p, page) == ShapeAt(a, q, other) <==> here.value.origin == there.value.origin)
  }

  ghost predicate Follows(a: DeepCopy.Plain, ops: seq<Op>, answers: seq<Answer>)
    requires |answers| == |ops|
  {
    && WholePages(a)
    && (forall p, page :: PageFollows(a, ops, answers, p, page))
    && (forall p, page, q, other :: PairFollows(a, ops, answers, p, page, q, other))
    && (forall p, vaddr :: DeepCopy.ByteAt(a, p, vaddr) == ByteThen(ops, answers, p, vaddr))
    && (forall p :: p in a.spaces <==> Lives(ops, answers, p))
  }

  lemma Fronts(ops: seq<Op>, answers: seq<Answer>, op: Op, answer: Answer)
    requires |answers| == |ops|
    ensures (ops + [op])[..|ops|] == ops && (answers + [answer])[..|ops|] == answers
  {
  }

  lemma NextPage(a: Abs, op: Op, ch: Choice, frames: nat, ops: seq<Op>, answers: seq<Answer>, p: nat, page: nat)
    requires |answers| == |ops| && Follows(a.plain, ops, answers) && Fair(a, op, ch, frames)
    ensures PageFollows(Next(a, op, ch).plain, ops + [op], answers + [Reply(a, op, ch)], p, page)
  {
    hide Next, Reply, Fair, DeepCopy.ByteAt, ByteThen, ProtAt, WholePages, PairFollows, EffectOn, ShapeAt, Lives;
    var answer := Reply(a, op, ch);
    Fronts(ops, answers, op, answer);
    StepShape(a, op, ch, frames, p, page);
    StepProt(a, op, ch, frames, p, page);
    match EffectOn(op, answer, p, page) {
      case Inherit(q) => assert PageFollows(a.plain, ops, answers, q, page);
      case Same => assert PageFollows(a.plain, ops, answers, p, page);
      case _ =>
    }
  }

  /** A name given to a new shared page is none that a page it leaves alone has. */
  lemma NewName(a: Abs, op: Op, ch: Choice, frames: nat, p: nat, page: nat, i: nat)
    requires Fair(a, op, ch, frames) && op.Map? && op.p in a.plain.spaces && !BadAddress(op) && !ch.failed
    requires EffectOn(op, Reply(a, op, ch), p, page).Same? && i < |ch.ids|
    ensures ShapeAt(a.plain, p, page) != Some(Named(ch.ids[i]))
  {
    hide Fits, Overlap, EffectOn, Reply, Target, Ready;
    MapEffect(a, op, ch, p, page);
    ReadyPage(a.plain, op, p, page);
    assert DeepCopy.Unused(Ready(a.plain, op), ch.ids[i]);
  }

  /** Where a page was before the call. */
  function Before(effect: Effect, p: nat): nat {
    if effect.Inherit? then effect.parent else p
  }

  lemma OldPair(
      a: Abs, op: Op, ch: Choice, frames: nat, ops: seq<Op>, answers: seq<Answer>, p: nat, page: nat, q: nat,
      other: nat)
    requires |answers| == |ops| && Follows(a.plain, ops, answers) && Fair(a, op, ch, frames)
    requires var answer := Reply(a, op, ch);
      var here, there := EffectOn(op, answer, p, page), EffectOn(op, answer, q, other);
      !here.Fresh? && !there.Fresh?
    ensures PairFollows(Next(a, op, ch).plain, ops + [op], answers + [Reply(a, op, ch)], p, page, q, other)
  {
    hide Next, Reply, Fair, DeepCopy.ByteAt, ByteThen, ProtAt, WholePages, EffectOn, ShapeAt, Lives, PageFollows;
    var answer := Reply(a, op, ch);
    Fronts(ops, answers, op, answer);
    StepShape(a, op, ch, frames, p, page);
    StepShape(a, op, ch, frames, q, other);
    var here, there := EffectOn(op, answer, p, page), EffectOn(op, answer, q, other);
    assert PairFollows(a.plain, ops, answers, Before(here, p), page, Before(there, q), other);
  }

  lemma FreshIsMap(a: Abs, op: Op, ch: Choice, p: nat, page: nat)
    requires EffectOn(op, Reply(a, op, ch), p, page).Fresh?
    ensures op.Map? && op.p == p && p in a.plain.spaces && !BadAddress(op) && !ch.failed
  {
  }

  /** A new page and one that was there before. */
  lemma NewPair(
      a: Abs, op: Op, ch: Choice, frames: nat, ops: seq<Op>, answers: seq<Answer>, p: nat, page: nat, q: nat,
      other: nat)
    requires |answers| == |ops| && Follows(a.plain, ops, answers) && Fair(a, op, ch, frames)
    requires EffectOn(op, Reply(a, op, ch), p, page).Fresh? && EffectOn(op, Reply(a, op, ch), q, other).Same?
    ensures PairFollows(Next(a, op, ch).plain, ops + [op], answers + [Reply(a, op, ch)], p, page, q, other)
    ensures PairFollows(Next(a, op, ch).plain, ops + [op], answers + [Reply(a, op, ch)], q, other, p, page)
  {
    hide Next, Reply, Fair, DeepCopy.ByteAt, ByteThen, ProtAt, WholePages, EffectOn, ShapeAt, Lives;
    var answer := Reply(a, op, ch);
    Fronts(ops, answers, op, answer);
    StepShape(a, op, ch, frames, p, page);
    StepShape(a, op, ch, frames, q, other);
    FreshIsMap(a, op, ch, p, page);
    NewName(a, op, ch, frames, q, other, EffectOn(op, answer, p, page).page);
    assert PageFollows(a.plain, ops, answers, q, other);
  }

  /** Two new pages. */
  lemma FreshPair(
      a: Abs, op: Op, ch: Choice, frames: nat, ops: seq<Op>, answers: seq<Answer>, p: nat, page: nat, q: nat,
      other: nat)
    requires |answers| == |ops| && Fair(a, op, ch, frames)
    requires EffectOn(op, Reply(a, op, ch), p, page).Fresh? && EffectOn(op, Reply(a, op, ch), q, other).Fresh?
    ensures PairFollows(Next(a, op, ch).plain, ops + [op], answers + [Reply(a, op, ch)], p, page, q, other)
  {
    hide Next, Reply, Fits, Overlap, DeepCopy.Unused, Ready, BadAddress, EffectOn, ShapeAt;
    var answer := Reply(a, op, ch);
    Fronts(ops, answers, op, answer);
    StepShape(a, op, ch, frames, p, page);
    StepShape(a, op, ch, frames, q, other);
    FreshIsMap(a, op, ch, p, page);
  }

  lemma NextPair(
      a: Abs, op: Op, ch: Choice, frames: nat, ops: seq<Op>, answers: seq<Answer>, p: nat, page: nat, q: nat,
      other: nat)
    requires |answers| == |ops| && Follows(a.plain, ops, answers) && Fair(a, op, ch, frames)
    ensures PairFollows(Next(a, op, ch).plain, ops + [op], answers + [Reply(a, op, ch)], p, page, q, other)
  {
    hide Next, Reply, Fair, Follows, EffectOn, ShapeAt, BadAddress;
    var answer := Reply(a, op, ch);
    var here, there := EffectOn(op, answer, p, page), EffectOn(op, answer, q, other);
    if here.Fresh? { FreshIsMap(a, op, ch, p, page); MapEffectKinds(a, op, ch, q, other); }
    if there.Fresh? { FreshIsMap(a, op, ch, q, other); MapEffectKinds(a, op, ch, p, page); }
    if here.Fresh? && there.Fresh? {
      FreshPair(a, op, ch, frames, ops, answers, p, page, q, other);
    } else if !here.Fresh? && !there.Fresh? {
      OldPair(a, op, ch, frames, ops, answers, p, page, q, other);
    } else if here.Gone? || there.Gone? {
      Fronts(ops, answers, op, answer);
    } else if here.Fresh? {
      NewPair(a, op, ch, frames, ops, answers, p, page, q, other);
    } else {
      NewPair(a, op, ch, frames, ops, answers, q, other, p, page);
    }
  }

  /** What one byte is for the machine it is for the history. */
  lemma SameBytes(
      a: DeepCopy.Plain, ops: seq<Op>, answers: seq<Answer>, p: nat, vaddr: nat, q: nat, other: nat)
    requires |answers| == |ops| && Follows(a, ops, answers)
    ensures DeepCopy.SameByte(a, p, vaddr, q, other) <==> OneByte(ops, answers, p, vaddr, q, other)
  {
    hide DeepCopy.ByteAt, ByteThen, ProtAt, WholePages, Lives, Where;
    var v, w := vaddr / PAGE_SIZE, other / PAGE_SIZE;
    assert PageFollows(a, ops, answers, p, v) && PageFollows(a, ops, answers, q, w);
    assert PairFollows(a, ops, answers, p, v, q, w);
  }

  lemma NextByte(a: Abs, op: Op, ch: Choice, frames: nat, ops: seq<Op>, answers: seq<Answer>, p: nat, vaddr: nat)
    requires |answers| == |ops| && Follows(a.plain, ops, answers) && Fair(a, op, ch, frames)
    ensures DeepCopy.ByteAt(Next(a, op, ch).plain, p, vaddr) ==
      ByteThen(ops + [op], answers + [Reply(a, op, ch)], p, vaddr)
  {
    hide Next, Reply, Fair, DeepCopy.ByteAt, WholePages, EffectOn, PageFollows, PairFollows, Lives, OneByte;
    hide DeepCopy.SameByte, DataByte;
    var answer := Reply(a, op, ch);
    Fronts(ops, answers, op, answer);
    StepByte(a, op, ch, frames, p, vaddr);
    if op.Store? { SameBytes(a.plain, ops, answers, op.p, op.vaddr, p, vaddr); }
  }

  lemma MapKeepsProcesses(a: DeepCopy.Plain, op: Op, ch: Choice)
    requires op.Map? && op.p in a.spaces
    ensures NextMap(a, op, ch).spaces.Keys == a.spaces.Keys
  {
    hide DeepCopy.Populate, PickAddr, Contents, Cut;
  }

  lemma StoreKeepsProcesses(a: DeepCopy.Plain, p: nat, vaddr: nat, b: byte)
    requires DeepCopy.ByteAt(a, p, vaddr).Some?
    ensures DeepCopy.Store(a, p, vaddr / PAGE_SIZE, vaddr % PAGE_SIZE, b).spaces.Keys == a.spaces.Keys
  {
  }

  lemma UnmapKeepsProcesses(a: DeepCopy.Plain, p: nat, addr: nat, len: nat)
    requires p in a.spaces
    ensures var b := DeepCopy.Unmap(a, p, addr / PAGE_SIZE, (addr + len + PAGE_SIZE - 1) / PAGE_SIZE);
      b.spaces.Keys == a.spaces.Keys
  {
    hide Cut;
  }

  lemma NextProcesses(a: Abs, op: Op, ch: Choice, p: nat)
    ensures var answer := Reply(a, op, ch);
      p in Next(a, op, ch).plain.spaces <==>
        if (op == Spawn(p) || (op.Fork? && op.c == p)) && answer == Made(true) then true
        else if op == Exit(p) && answer.Done? then false
        else p in a.plain.spaces
  {
    hide NextMap, DeepCopy.Unmap, DeepCopy.Store, DeepCopy.MayWrite, DeepCopy.ByteAt, BadAddress, Target;
    if Applies(a.plain.spaces.Keys, op) {
      match op {
        case Map(_, _, _, _, _, _, _) => MapKeepsProcesses(a.plain, op, ch);
        case Store(q, vaddr, b) =>
          if DeepCopy.ByteAt(a.plain, q, vaddr).Some? { StoreKeepsProcesses(a.plain, q, vaddr, b); }
        case Unmap(q, addr, len) => UnmapKeepsProcesses(a.plain, q, addr, len);
        case _ =>
      }
    }
  }

  lemma NextLife(a: Abs, op: Op, ch: Choice, ops: seq<Op>, answers: seq<Answer>, p: nat)
    requires |answers| == |ops| && (p in a.plain.spaces <==> Lives(ops, answers, p))
    ensures p in Next(a, op, ch).plain.spaces <==> Lives(ops + [op], answers + [Reply(a, op, ch)], p)
  {
    hide Next, Reply;
    Fronts(ops, answers, op, Reply(a, op, ch));
    NextProcesses(a, op, ch, p);
  }

  lemma NextFollows(a: Abs, op: Op, ch: Choice, frames: nat, ops: seq<Op>, answers: seq<Answer>)
    requires |answers| == |ops| && Follows(a.plain, ops, answers) && Fair(a, op, ch, frames)
    ensures Follows(Next(a, op, ch).plain, ops + [op], answers + [Reply(a, op, ch)])
  {
    hide Next, Reply, Fair, WholePages, PageFollows, PairFollows, DeepCopy.ByteAt, ByteThen, Lives;
    var b, more, all := Next(a, op, ch).plain, ops + [op], answers + [Reply(a, op, ch)];
    StepWhole(a, op, ch, frames);
    forall p, page ensures PageFollows(b, more, all, p, page) { NextPage(a, op, ch, frames, ops, answers, p, page); }
    forall p, page, q, other ensures PairFollows(b, more, all, p, page, q, other) {
      NextPair(a, op, ch, frames, ops, answers, p, page, q, other);
    }
    forall p, vaddr ensures DeepCopy.ByteAt(b, p, vaddr) == ByteThen(more, all, p, vaddr) {
      NextByte(a, op, ch, frames, ops, answers, p, vaddr);
    }
    forall p ensures p in b.spaces <==> Lives(more, all, p) { NextLife(a, op, ch, ops, answers, p); }
  }

  // ---- Runs from boot ----

  const BOOT := Abs(DeepCopy.Plain(map[], map[]), 0)

  lemma {:induction false} RunFollows(ops: seq<Op>, answers: seq<Answer>, choices: seq<Choice>, frames: nat)
    requires Ran(BOOT, ops, answers, choices, frames)
    ensures |answers| == |ops| && Follows(After(BOOT, ops, choices).plain, ops, answers)
    decreases |ops|
  {
    hide Follows, Next, Reply, Fair;
    if ops == [] {
      assert Follows(BOOT.plain, [], []) by { BootFollows(); }
    } else {
      var n := |ops| - 1;
      RanFront(ops, answers, choices, frames);
      RunFollows(ops[..n], answers[..n], choices[..n], frames);
      var a := After(BOOT, ops[..n], choices[..n]);
      NextFollows(a, ops[n], choices[n], frames, ops[..n], answers[..n]);
      assert ops == ops[..n] + [ops[n]] && answers == answers[..n] + [Reply(a, ops[n], choices[n])];
    }
  }

  lemma BootFollows()
    ensures Follows(BOOT.plain, [], [])
  {
  }

  lemma RanFront(ops: seq<Op>, answers: seq<Answer>, choices: seq<Choice>, frames: nat)
    requires Ran(BOOT, ops, answers, choices, frames) && ops != []
    ensures var n := |ops| - 1;
      && |answers| == |ops| && Ran(BOOT, ops[..n], answers[..n], choices[..n], frames)
      && var a := After(BOOT, ops[..n], choices[..n]);
        Fair(a, ops[n], choices[n], frames) && answers[n] == Reply(a, ops[n], choices[n])
  {
    hide Next, Reply, Fair;
    var n := |ops| - 1;
    RepliesLength(BOOT, ops[..n], choices[..n]);
    assert answers[..n] == Replies(BOOT, ops[..n], choices[..n]);
    forall i | 0 <= i < n
      ensures Fair(After(BOOT, ops[..n][..i], choices[..n][..i]), ops[..n][i], choices[..n][i], frames)
    {
      assert ops[..n][..i] == ops[..i] && choices[..n][..i] == choices[..i];
    }
  }

  lemma {:induction false} RepliesLength(a: Abs, ops: seq<Op>, choices: seq<Choice>)
    requires |choices| == |ops|
    ensures |Replies(a, ops, choices)| == |ops|
  {
    if ops == [] {
    } else {
      RepliesLength(a, ops[..|ops| - 1], choices[..|ops| - 1]);
    }
  }

  /** The answer the calls and answers before it ask for. */
  ghost predicate Remembered(ops: seq<Op>, answers: seq<Answer>, op: Op, answer: Answer)
    requires |answers| == |ops|
  {
    match op
    case Spawn(p) => answer.Missing? <==> Lives(ops, answers, p)
    case Fork(p, c) => answer.Missing? <==> !Lives(ops, answers, p) || Lives(ops, answers, c)
    case Load(p, vaddr) =>
      answer == if Lives(ops, answers, p) then Byte(ByteThen(ops, answers, p, vaddr)) else Missing
    case Store(p, vaddr, _) =>
      var here := Where(ops, answers, p, vaddr / PAGE_SIZE);
      answer == if Lives(ops, answers, p) then Stored(here.Some? && here.value.prot.write) else Missing
    case Map(p, hint, len, _, fixed, _, _) =>
      if !Lives(ops, answers, p) then answer.Missing?
      else answer.At? && (answer.addr.Some? ==> GoodPlace(ops, answers, p, hint, len, fixed, answer.addr.value))
    case Unmap(p, _, _) => answer == if Lives(ops, answers, p) then Done else Missing
    case Exit(p) => answer == if Lives(ops, answers, p) then Done else Missing
    case _ => true
  }

  /** A fixed mapping is where it was asked for, below the stack; any other one is where no page is mapped. */
  ghost predicate GoodPlace(
    ops: seq<Op>, answers: seq<Answer>, p: nat, hint: Option<nat>, len: nat, fixed: bool, addr: nat)
    requires |answers| == |ops|
  {
    && addr % PAGE_SIZE == 0
    && if fixed
       then
         && hint.Some? && addr == hint.value / PAGE_SIZE * PAGE_SIZE
         && 0 < addr && addr + len <= STACK_TOP_PAGE * PAGE_SIZE
       else forall page :: InRange(addr, len, page) ==> Where(ops, answers, p, page) == None
  }

  ghost predicate Remembers(ops: seq<Op>, answers: seq<Answer>) {
    |answers| == |ops| && forall i :: 0 <= i < |ops| ==> Remembered(ops[..i], answers[..i], ops[i], answers[i])
  }

  lemma MapRemembered(a: Abs, op: Op, ch: Choice, frames: nat, ops: seq<Op>, answers: seq<Answer>)
    requires |answers| == |ops| && Follows(a.plain, ops, answers) && Fair(a, op, ch, frames) && op.Map?
    ensures Remembered(ops, answers, op, Reply(a, op, ch))
  {
    hide PickAddr, Collides, DeepCopy.ByteAt, ByteThen, Where, Lives, Disjoint, PairFollows, Fits, Find, FreshNames;
    if op.p in a.plain.spaces && !BadAddress(op) && !ch.failed {
      var lo := Target(a.plain, op).0;
      if op.fixed {
        FixedOkIs(op.hint.value, op.len);
      } else {
        var rs := a.plain.spaces[op.p].regions;
        PickAddrFree(PageOf(op.hint), PagesFor(op.len), rs, a.plain.spaces[op.p].mmapBase);
        forall page | InRange(lo * PAGE_SIZE, op.len, page) ensures Where(ops, answers, op.p, page) == None {
          RangeIs(lo, op.len, page);
          assert PageFollows(a.plain, ops, answers, op.p, page);
          assert Disjoint(rs);
          FindCovers(rs, page);
        }
      }
    }
  }

  lemma ReplyRemembered(a: Abs, op: Op, ch: Choice, frames: nat, ops: seq<Op>, answers: seq<Answer>)
    requires |answers| == |ops| && Follows(a.plain, ops, answers) && Fair(a, op, ch, frames)
    ensures Remembered(ops, answers, op, Reply(a, op, ch))
  {
    hide DeepCopy.ByteAt, ByteThen, Where, Lives, WholePages, PairFollows, Fair, Target, BadAddress, GoodPlace;
    match op {
      case Map(_, _, _, _, _, _, _) => MapRemembered(a, op, ch, frames, ops, answers);
      case Store(p, vaddr, _) => assert PageFollows(a.plain, ops, answers, p, vaddr / PAGE_SIZE);
      case _ =>
    }
  }

  /** Whatever the choices, the answers of a run from boot are those its history asks for. */
  lemma {:induction false} RunRemembers(ops: seq<Op>, answers: seq<Answer>, choices: seq<Choice>, frames: nat)
    requires Ran(BOOT, ops, answers, choices, frames)
    ensures Remembers(ops, answers)
    decreases |ops|
  {
    hide Follows, Next, Reply, Fair, Remembered;
    RepliesLength(BOOT, ops, choices);
    if ops == [] {
    } else {
      var n := |ops| - 1;
      RanFront(ops, answers, choices, frames);
      RunRemembers(ops[..n], answers[..n], choices[..n], frames);
      RunFollows(ops[..n], answers[..n], choices[..n], frames);
      ReplyRemembered(After(BOOT, ops[..n], choices[..n]), ops[n], choices[n], frames, ops[..n], answers[..n]);
      forall i | 0 <= i < |ops| ensures Remembered(ops[..i], answers[..i], ops[i], answers[i]) {
        if i < n { assert ops[..n][..i] == ops[..i] && answers[..n][..i] == answers[..i]; }
      }
    }
  }

  /** The copy-on-write machine, from boot on, answers as the history of its calls asks. */
  method BootAndRemember(usable: set<nat>, ops: seq<Op>) returns (answers: seq<Answer>)
    requires forall f :: f in usable ==> f < MAX_FRAMES
    ensures |answers| <= |ops| && Remembers(ops[..|answers|], answers)
  {
    hide Ran, Remembers, After, Stops;
    answers := BootAndReplay(usable, ops);
    ghost var choices :| Explains(BOOT, ops, answers, choices, |usable|);
    RunRemembers(ops[..|answers|], answers, choices, |usable|);
  }
}
