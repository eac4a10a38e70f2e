/**
 The compressed page pool: pages are stored under handles that are never reused, and
 come back byte for byte, once.
 */
module Zswap {
  import opened Wrappers
  import opened Lz4Format
  import opened Totals
  import Lz4Codec

  /** One bit of the reflected CRC-32 division. */
  function CrcBit(crc: bv32): bv32 {
    if crc & 1 != 0 then (crc >> 1) ^ 0xEDB8_8320 else crc >> 1
  }

  function CrcBits(crc: bv32, n: nat): bv32
    decreases n
  {
    if n == 0 then crc else CrcBits(CrcBit(crc), n - 1)
  }

  function CrcByte(crc: bv32, b: byte): bv32 {
    CrcBits(crc ^ (b as bv32), 8)
  }

  function CrcOver(crc: bv32, data: seq<byte>): bv32
    decreases |data|
  {
    if data == [] then crc else CrcOver(CrcByte(crc, data[0]), data[1..])
  }

  /** CRC-32 with the IEEE polynomial. */
  function Checksum(data: seq<byte>): bv32 {
    !CrcOver(0xFFFF_FFFF, data)
  }

  lemma OneByte(crc: bv32, b: byte, rest: seq<byte>)
    ensures CrcOver(crc, [b] + rest) == CrcOver(CrcByte(crc, b), rest)
  {
    hide CrcByte;
    assert ([b] + rest)[1..] == rest;
  }

  /** The CRC state after each byte of the ASCII digits 1 to 9. */
  lemma DigitSteps()
    ensures CrcByte(0xFFFF_FFFF, 0x31) == 0x7C23_1048
    ensures CrcByte(0x7C23_1048, 0x32) == 0xB0AC_BB32
    ensures CrcByte(0xB0AC_BB32, 0x33) == 0x77B7_9C2D
    ensures CrcByte(0x77B7_9C2D, 0x34) == 0x641C_1F5C
    ensures CrcByte(0x641C_1F5C, 0x35) == 0x340A_C5E3
    ensures CrcByte(0x340A_C5E3, 0x36) == 0xF68D_2C9E
    ensures CrcByte(0xF68D_2C9E, 0x37) == 0xAFFC_9660
    ensures CrcByte(0xAFFC_9660, 0x38) == 0x651F_2550
    ensures CrcByte(0x651F_2550, 0x39) == 0x340B_C6D9
  {
  }

  /** The catalogued check value of CRC-32: the checksum of the ASCII digits 1 to 9. */
  lemma ChecksumOfDigits()
    ensures Checksum([0x31, 0x32, 0x33, 0x34, 0x35, 0x36, 0x37, 0x38, 0x39]) == 0xCBF4_3926
  {
    hide CrcByte;
    DigitSteps();
    OneByte(0xFFFF_FFFF, 0x31, [0x32, 0x33, 0x34, 0x35, 0x36, 0x37, 0x38, 0x39]);
    OneByte(0x7C23_1048, 0x32, [0x33, 0x34, 0x35, 0x36, 0x37, 0x38, 0x39]);
    OneByte(0xB0AC_BB32, 0x33, [0x34, 0x35, 0x36, 0x37, 0x38, 0x39]);
    OneByte(0x77B7_9C2D, 0x34, [0x35, 0x36, 0x37, 0x38, 0x39]);
    OneByte(0x641C_1F5C, 0x35, [0x36, 0x37, 0x38, 0x39]);
    OneByte(0x340A_C5E3, 0x36, [0x37, 0x38, 0x39]);
    OneByte(0xF68D_2C9E, 0x37, [0x38, 0x39]);
    OneByte(0xAFFC_9660, 0x38, [0x39]);
    OneByte(0x651F_2550, 0x39, []);
  }

  method UpdateCrc(crc: bv32, b: byte) returns (r: bv32)
    ensures r == CrcByte(crc, b)
  {
    hide CrcBit;
    r := crc ^ (b as bv32);
    for j := 0 to 8
      invariant CrcBits(r, 8 - j) == CrcByte(crc, b)
    {
      r := CrcBit(r);
    }
  }

  method Crc32(data: seq<byte>) returns (sum: bv32)
    ensures sum == Checksum(data)
  {
    hide CrcByte;
    var crc: bv32 := 0xFFFF_FFFF;
    assert data[0..] == data;
    for i := 0 to |data|
      invariant CrcOver(crc, data[i..]) == CrcOver(0xFFFF_FFFF, data)
    {
      assert data[i..][1..] == data[i + 1..];
      crc := UpdateCrc(crc, data[i]);
    }
    sum := !crc;
  }

  datatype Entry = Entry(pid: nat, vaddr: nat, compressed: seq<byte>, checksum: bv32)

  function Lengths(entries: map<nat, Entry>): map<nat, nat> {
    map h | h in entries :: |entries[h].compressed|
  }

  lemma StoreTotal(entries: map<nat, Entry>, h: nat, e: Entry)
    requires h !in entries
    ensures Total(Lengths(entries[h := e])) == Total(Lengths(entries)) + |e.compressed|
  {
    TotalUpdate(Lengths(entries), h, |e.compressed|);
    assert Lengths(entries)[h := |e.compressed|] == Lengths(entries[h := e]);
  }

  lemma RemoveTotal(entries: map<nat, Entry>, h: nat)
    requires h in entries
    ensures Total(Lengths(entries)) == |entries[h].compressed| + Total(Lengths(entries - {h}))
  {
    TotalSplit(Lengths(entries), h);
    assert Lengths(entries) - {h} == Lengths(entries - {h});
  }

  /** An entry from which the page can be recovered. */
  ghost predicate Sound(e: Entry) {
    var page := Decode(e.compressed, [], PAGE_SIZE);
    page.Some? && e.checksum == Checksum(page.value)
  }

  ghost function PageOf(e: Entry): (p: seq<byte>)
    requires Sound(e)
    ensures |p| == PAGE_SIZE
  {
    Decode(e.compressed, [], PAGE_SIZE).value
  }

  ghost function PagesOf(entries: map<nat, Entry>): (pages: map<nat, seq<byte>>)
    requires forall h :: h in entries ==> Sound(entries[h])
    ensures pages.Keys == entries.Keys && |pages| == |entries|
  {
    var pages := map h | h in entries :: PageOf(entries[h]);
    assert pages.Keys == entries.Keys;
    pages
  }

  lemma PagesOfUpdate(entries: map<nat, Entry>, h: nat, e: Entry)
    requires forall k :: k in entries ==> Sound(entries[k])
    requires Sound(e)
    ensures var after := entries[h := e];
      && (forall k :: k in after ==> Sound(after[k]))
      && PagesOf(after) == PagesOf(entries)[h := PageOf(e)]
  {
    hide Sound, PageOf;
  }

  /** Compress a page with room to spare and note its checksum; compression never gives up. */
  method MakeEntry(pid: nat, vaddr: nat, data: seq<byte>) returns (r: Option<Entry>)
    requires |data| == PAGE_SIZE
    ensures r.Some? && Sound(r.value) && PageOf(r.value) == data
    ensures r.value.pid == pid && r.value.vaddr == vaddr
  {
    hide Decode, Checksum;
    var crc := Crc32(data);
    var compressed := new byte[|data| + 64](_ => 0);
    var compLen := Lz4Codec.Compress(data, compressed);
    if compLen.None? { return None; }
    r := Some(Entry(pid, vaddr, compressed[..compLen.value], crc));
  }

  lemma {:induction false} LeastExists(s: set<nat>)
    requires s != {}
    ensures exists h :: h in s && forall k :: k in s ==> h <= k
    decreases |s|
  {
    var x :| x in s;
    var rest := s - {x};
    assert s == rest + {x};
    if rest == {} {
      assert forall k :: k in s ==> x <= k;
    } else {
      LeastExists(rest);
      var m :| m in rest && forall k :: k in rest ==> m <= k;
      var least := Min(x, m);
      assert least in s && forall k :: k in s ==> least <= k;
    }
  }

  class CompressedPool {
    var entries: map<nat, Entry>
    var nextHandle: nat
    const maxEntries: nat
    var totalOrig: nat
    var totalComp: nat

    ghost predicate Valid()
      reads this
    {
      && (forall h :: h in entries ==> 1 <= h < nextHandle && Sound(entries[h]))
      && |entries| <= maxEntries
      && totalComp == Total(Lengths(entries))
      && totalOrig == PAGE_SIZE * |entries|
      && nextHandle >= 1
    }

    /** The pages that can be loaded, by handle. */
    ghost function Pages(): map<nat, seq<byte>>
      reads this
      requires Valid()
    {
      PagesOf(entries)
    }

    constructor (max: nat)
      ensures Valid() && Pages() == map[] && nextHandle == 1 && maxEntries == max
    {
      entries, nextHandle, maxEntries, totalOrig, totalComp := map[], 1, max, 0, 0;
    }

    method Store(pid: nat, vaddr: nat, data: seq<byte>) returns (r: Option<nat>)
      requires Valid() && |data| == PAGE_SIZE
      modifies this
      ensures Valid()
      ensures r.None? <==> |old(Pages())| >= maxEntries
      ensures r.None? ==> Pages() == old(Pages()) && nextHandle == old(nextHandle)
      ensures r.Some? ==> r.value == old(nextHandle) && nextHandle == r.value + 1
      ensures r.Some? ==> r.value !in old(Pages()) && Pages() == old(Pages())[r.value := data]
    {
      hide Sound, PageOf, PagesOf;
      if |entries| >= maxEntries { return None; }
      var made := MakeEntry(pid, vaddr, data);
      if made.None? { assert false; }
      var e := made.value;
      StoreTotal(entries, nextHandle, e);
      PagesOfUpdate(entries, nextHandle, e);
      assert |entries[nextHandle := e]| == |entries| + 1;
      r := Some(nextHandle);
      entries := entries[nextHandle := e];
      nextHandle := nextHandle + 1;
      totalOrig := totalOrig + |data|;
      totalComp := totalComp + |e.compressed|;
    }

    /** Decompress the page of a live handle and compare its checksum. */
    method Load(handle: nat, out: array<byte>) returns (ok: bool)
      requires Valid() && out.Length == PAGE_SIZE
      modifies out
      ensures ok <==> handle in Pages()
      ensures ok ==> out[..] == Pages()[handle]
      ensures !ok ==> out[..] == old(out[..])
    {
      hide Decode, Checksum;
      if handle !in entries { return false; }
      var entry := entries[handle];
      ok := Lz4Codec.Decompress(entry.compressed, out);
      if ok {
        var crc := Crc32(out[..]);
        ok := crc == entry.checksum;
      }
    }

    method Remove(handle: nat) returns (ok: bool)
      requires Valid()
      modifies this
      ensures Valid() && nextHandle == old(nextHandle)
      ensures ok <==> handle in old(entries)
      ensures entries == old(entries) - {handle}
    {
      hide Decode, Checksum;
      if handle !in entries {
        assert entries == entries - {handle};
        return false;
      }
      RemoveTotal(entries, handle);
      assert |entries - {handle}| == |entries| - 1;
      totalComp := totalComp - |entries[handle].compressed|;
      totalOrig := totalOrig - PAGE_SIZE;
      entries := entries - {handle};
      ok := true;
    }

    /** Load a page and, when that worked, forget it. */
    method LoadPage(handle: nat, out: array<byte>) returns (ok: bool)
      requires Valid() && out.Length == PAGE_SIZE
      modifies this, out
      ensures Valid() && nextHandle == old(nextHandle)
      ensures ok <==> handle in old(Pages())
      ensures ok ==> out[..] == old(Pages())[handle]
      ensures !ok ==> out[..] == old(out[..])
      ensures Pages() == old(Pages()) - {handle}
    {
      hide Sound, PageOf;
      ok := Load(handle, out);
      if ok {
        var removed := Remove(handle);
      } else {
        assert Pages() == Pages() - {handle};
      }
    }

    /** Drop the page stored longest ago, which is the one with the least handle. */
    method EvictOldest() returns (r: Option<nat>)
      requires Valid()
      modifies this
      ensures Valid() && nextHandle == old(nextHandle)
      ensures r.None? <==> old(Pages()) == map[]
      ensures r.None? ==> Pages() == old(Pages())
      ensures r.Some? ==> r.value in old(Pages()) && forall h :: h in old(Pages()) ==> r.value <= h
      ensures r.Some? ==> Pages() == old(Pages()) - {r.value}
    {
      hide Sound, PageOf;
      if entries == map[] { return None; }
      assert exists k :: k in entries;
      LeastExists(entries.Keys);
      var handle :| handle in entries.Keys && forall k :: k in entries.Keys ==> handle <= k;
      var removed := Remove(handle);
      r := Some(handle);
    }
  }

  /**
   The calls that hold the pool's lock all the way, and the two sections of a load that takes
   it twice: `Peek` delivers the page and `Forget` takes it out of the pool.
   */
  datatype Call =
    | StorePage(pid: nat, vaddr: nat, data: seq<byte>)
    | LoadPage(handle: nat)
    | Peek(handle: nat)
    | Forget(handle: nat)
    | EvictOne

  datatype Reply =
    | Refused
    | Forgotten
    | Handle(handle: nat)
    | Page(data: seq<byte>)

  /** A pool that keeps whole pages under increasing handles. */
  datatype PlainPool = PlainPool(pages: map<nat, seq<byte>>, next: nat)

  /** One call on the plain pool. */
  ghost predicate Step(max: nat, p: PlainPool, call: Call, reply: Reply, q: PlainPool) {
    match call
    case StorePage(_, _, data) =>
      if |p.pages| >= max then reply == Refused && q == p
      else reply == Handle(p.next) && q == PlainPool(p.pages[p.next := data], p.next + 1)
    case LoadPage(h) =>
      && q == p.(pages := p.pages - {h})
      && reply == if h in p.pages then Page(p.pages[h]) else Refused
    case Peek(h) => q == p && reply == if h in p.pages then Page(p.pages[h]) else Refused
    case Forget(h) => q == p.(pages := p.pages - {h}) && reply == if h in p.pages then Forgotten else Refused
    case EvictOne =>
      if p.pages == map[] then reply == Refused && q == p
      else
        && reply.Handle? && reply.handle in p.pages && (forall k :: k in p.pages ==> reply.handle <= k)
        && q == p.(pages := p.pages - {reply.handle})
  }

  /** `states` are what a plain pool goes through while it gives `replies` to `calls`. */
  ghost predicate Run(max: nat, calls: seq<Call>, replies: seq<Reply>, states: seq<PlainPool>) {
    && |replies| == |calls| && |states| == |calls| + 1
    && states[0] == PlainPool(map[], 1)
    && forall j :: 0 <= j < |calls| ==> StepAt(max, calls, replies, states, j)
  }

  ghost predicate StepAt(max: nat, calls: seq<Call>, replies: seq<Reply>, states: seq<PlainPool>, j: nat)
    requires j < |calls| == |replies| && |states| == |calls| + 1
  {
    Step(max, states[j], calls[j], replies[j], states[j + 1])
  }

  ghost predicate WholePages(calls: seq<Call>) {
    forall j :: 0 <= j < |calls| && calls[j].StorePage? ==> |calls[j].data| == PAGE_SIZE
  }

  method ForgetPage(pool: CompressedPool, h: nat) returns (ok: bool)
    requires pool.Valid()
    modifies pool
    ensures pool.Valid() && pool.nextHandle == old(pool.nextHandle)
    ensures (ok <==> h in old(pool.Pages())) && pool.Pages() == old(pool.Pages()) - {h}
  {
    hide Sound, PageOf;
    ok := pool.Remove(h);
  }

  method Serve(pool: CompressedPool, call: Call) returns (reply: Reply)
    requires pool.Valid() && (call.StorePage? ==> |call.data| == PAGE_SIZE)
    modifies pool
    ensures pool.Valid()
    ensures Step(pool.maxEntries, old(PlainPool(pool.Pages(), pool.nextHandle)), call, reply,
        PlainPool(pool.Pages(), pool.nextHandle))
  {
    hide Sound, PageOf, PagesOf, CompressedPool.Valid, CompressedPool.Pages;
    match call {
      case StorePage(pid, vaddr, data) =>
        var r := pool.Store(pid, vaddr, data);
        reply := if r.Some? then Handle(r.value) else Refused;
      case LoadPage(h) =>
        var out := new byte[PAGE_SIZE](_ => 0);
        var ok := pool.LoadPage(h, out);
        reply := if ok then Page(out[..]) else Refused;
      case Peek(h) =>
        var out := new byte[PAGE_SIZE](_ => 0);
        var ok := pool.Load(h, out);
        reply := if ok then Page(out[..]) else Refused;
      case Forget(h) =>
        var ok := ForgetPage(pool, h);
        reply := if ok then Forgotten else Refused;
      case EvictOne =>
        var r := pool.EvictOldest();
        reply := if r.Some? then Handle(r.value) else Refused;
    }
  }

  lemma RunExtends(
      max: nat, calls: seq<Call>, replies: seq<Reply>, states: seq<PlainPool>, call: Call, reply: Reply, q: PlainPool)
    requires Run(max, calls, replies, states) && Step(max, states[|calls|], call, reply, q)
    ensures Run(max, calls + [call], replies + [reply], states + [q])
  {
    hide Step;
    forall j | 0 <= j < |calls| + 1
      ensures StepAt(max, calls + [call], replies + [reply], states + [q], j)
    {
      if j < |calls| { assert StepAt(max, calls, replies, states, j); }
    }
  }

  /** Any run of calls on a fresh pool is a run of the plain pool. */
  method Replay(max: nat, calls: seq<Call>) returns (replies: seq<Reply>)
    requires WholePages(calls)
    ensures exists states: seq<PlainPool> :: Run(max, calls, replies, states)
  {
    hide Step, Sound, PageOf, PagesOf;
    var pool := new CompressedPool(max);
    replies := [];
    ghost var states := [PlainPool(pool.Pages(), pool.nextHandle)];
    for k := 0 to |calls|
      invariant pool.Valid() && fresh(pool) && pool.maxEntries == max
      invariant Run(max, calls[..k], replies, states)
      invariant states[k] == PlainPool(pool.Pages(), pool.nextHandle)
    {
      var reply := Serve(pool, calls[k]);
      RunExtends(max, calls[..k], replies, states, calls[k], reply, PlainPool(pool.Pages(), pool.nextHandle));
      assert calls[..k] + [calls[k]] == calls[..k + 1];
      replies := replies + [reply];
      states := states + [PlainPool(pool.Pages(), pool.nextHandle)];
    }
    assert calls[..|calls|] == calls;
  }

  ghost predicate PoolOk(max: nat, p: PlainPool) {
    |p.pages| <= max && p.next >= 1 && forall h :: h in p.pages ==> 1 <= h < p.next
  }

  lemma StepKeepsPool(max: nat, p: PlainPool, call: Call, reply: Reply, q: PlainPool)
    requires Step(max, p, call, reply, q) && PoolOk(max, p)
    ensures PoolOk(max, q)
  {
    match call {
      case StorePage(_, _, data) => OneMorePage(p.pages, p.next, data);
      case LoadPage(h) => OnePageLess(p.pages, h);
      case Peek(_) =>
      case Forget(h) => OnePageLess(p.pages, h);
      case EvictOne => if p.pages != map[] { OnePageLess(p.pages, reply.handle); }
    }
  }

  lemma OneMorePage(pages: map<nat, seq<byte>>, h: nat, data: seq<byte>)
    ensures |pages[h := data]| <= |pages| + 1
  {
    assert pages[h := data].Keys == pages.Keys + {h};
  }

  lemma OnePageLess(pages: map<nat, seq<byte>>, h: nat)
    ensures |pages - {h}| <= |pages|
  {
    assert (pages - {h}).Keys == pages.Keys - {h};
  }

  /** What every state of a run keeps. */
  lemma {:induction false} RunKeeps(max: nat, calls: seq<Call>, replies: seq<Reply>, states: seq<PlainPool>, j: nat)
    requires Run(max, calls, replies, states) && j < |states|
    ensures PoolOk(max, states[j])
  {
    hide Step;
    if j == 0 {
    } else {
      RunKeeps(max, calls, replies, states, j - 1);
      assert StepAt(max, calls, replies, states, j - 1);
      StepKeepsPool(max, states[j - 1], calls[j - 1], replies[j - 1], states[j]);
    }
  }

  lemma StepHandles(max: nat, p: PlainPool, call: Call, reply: Reply, q: PlainPool)
    requires Step(max, p, call, reply, q)
    ensures p.next <= q.next
    ensures call.StorePage? && reply.Handle? ==> reply.handle == p.next < q.next
    ensures call.StorePage? && reply.Handle? ==> reply.handle in q.pages && q.pages[reply.handle] == call.data
  {
  }

  /** Handles handed out by stores strictly increase along a run, so none is ever reused. */
  lemma {:induction false} HandlesIncrease(
      max: nat, calls: seq<Call>, replies: seq<Reply>, states: seq<PlainPool>, i: nat, j: nat)
    requires Run(max, calls, replies, states) && i < j <= |calls|
    requires calls[i].StorePage? && replies[i].Handle?
    ensures replies[i].handle < states[j].next
    ensures j < |calls| && calls[j].StorePage? && replies[j].Handle? ==> replies[i].handle < replies[j].handle
    decreases j
  {
    hide Step;
    assert StepAt(max, calls, replies, states, i);
    StepHandles(max, states[i], calls[i], replies[i], states[i + 1]);
    if j == i + 1 {
    } else {
      HandlesIncrease(max, calls, replies, states, i, j - 1);
      assert StepAt(max, calls, replies, states, j - 1);
      StepHandles(max, states[j - 1], calls[j - 1], replies[j - 1], states[j]);
    }
    if j < |calls| {
      assert StepAt(max, calls, replies, states, j);
      StepHandles(max, states[j], calls[j], replies[j], states[j + 1]);
    }
  }

  /** A call that takes page `h` out of the pool. */
  predicate Takes(call: Call, reply: Reply, h: nat) {
    || (call.LoadPage? && call.handle == h && reply.Page?)
    || (call.Forget? && call.handle == h && reply.Forgotten?)
    || (call.EvictOne? && reply == Handle(h))
  }

  /** One step leaves alone every page that it does not take, and brings back none that is gone. */
  lemma StepKeepsPages(max: nat, p: PlainPool, call: Call, reply: Reply, q: PlainPool, h: nat)
    requires Step(max, p, call, reply, q) && h < p.next
    ensures h < q.next
    ensures h in p.pages && !Takes(call, reply, h) ==> h in q.pages && q.pages[h] == p.pages[h]
    ensures h !in p.pages || Takes(call, reply, h) ==> h !in q.pages
    ensures call == LoadPage(h) || call == Peek(h) ==> reply == if h in p.pages then Page(p.pages[h]) else Refused
  {
  }

  /** A page that nothing takes stays as it is. */
  lemma {:induction false} PageStays(
      max: nat, calls: seq<Call>, replies: seq<Reply>, states: seq<PlainPool>, i: nat, j: nat, h: nat)
    requires Run(max, calls, replies, states) && i <= j <= |calls| && h in states[i].pages
    requires forall k :: i <= k < j ==> !Takes(calls[k], replies[k], h)
    ensures h in states[j].pages && states[j].pages[h] == states[i].pages[h]
    decreases j
  {
    hide Takes, Step;
    if j == i {
    } else {
      PageStays(max, calls, replies, states, i, j - 1, h);
      RunKeeps(max, calls, replies, states, j - 1);
      assert StepAt(max, calls, replies, states, j - 1);
      StepKeepsPages(max, states[j - 1], calls[j - 1], replies[j - 1], states[j], h);
    }
  }

  /**
   A stored page stays under its handle until it is loaded or evicted: a load answers
   with exactly the stored page when nothing took it in between.
   */
  lemma StaysUntilTaken(max: nat, calls: seq<Call>, replies: seq<Reply>, states: seq<PlainPool>, i: nat, j: nat)
    requires Run(max, calls, replies, states) && i < j <= |calls|
    requires calls[i].StorePage? && replies[i].Handle?
    requires forall k :: i < k < j ==> !Takes(calls[k], replies[k], replies[i].handle)
    ensures replies[i].handle in states[j].pages && states[j].pages[replies[i].handle] == calls[i].data
    ensures j < |calls| && calls[j] == LoadPage(replies[i].handle) ==> replies[j] == Page(calls[i].data)
  {
    hide Takes, Step;
    var h := replies[i].handle;
    assert StepAt(max, calls, replies, states, i);
    StepHandles(max, states[i], calls[i], replies[i], states[i + 1]);
    PageStays(max, calls, replies, states, i + 1, j, h);
    if j < |calls| {
      RunKeeps(max, calls, replies, states, j);
      assert StepAt(max, calls, replies, states, j);
      StepKeepsPages(max, states[j], calls[j], replies[j], states[j + 1], h);
    }
  }

  /** Once a page has been taken out of the pool, no later load of its handle succeeds. */
  lemma {:induction false} DeadOnceTaken(
      max: nat, calls: seq<Call>, replies: seq<Reply>, states: seq<PlainPool>, i: nat, j: nat, h: nat)
    requires Run(max, calls, replies, states) && i < j <= |calls|
    requires Takes(calls[i], replies[i], h)
    ensures h < states[j].next && h !in states[j].pages
    ensures j < |calls| && (calls[j] == LoadPage(h) || calls[j] == Peek(h)) ==> replies[j] == Refused
    decreases j
  {
    if j == i + 1 {
      RunKeeps(max, calls, replies, states, i);
      assert StepAt(max, calls, replies, states, i);
      StepKeepsPages(max, states[i], calls[i], replies[i], states[j], h);
    } else {
      hide Step;
      DeadOnceTaken(max, calls, replies, states, i, j - 1, h);
      assert StepAt(max, calls, replies, states, j - 1);
      StepKeepsPages(max, states[j - 1], calls[j - 1], replies[j - 1], states[j], h);
    }
    if j < |calls| {
      assert StepAt(max, calls, replies, states, j);
      StepKeepsPages(max, states[j], calls[j], replies[j], states[j + 1], h);
    }
  }

  /**
   A page that the first section of a load has delivered is delivered again exactly when the
   next load of it comes before anything takes the page: before the second section, as long
   as no other load or eviction is quicker.
   */
  lemma DeliveredTwiceIff(
      max: nat, calls: seq<Call>, replies: seq<Reply>, states: seq<PlainPool>, i: nat, j: nat, h: nat)
    requires Run(max, calls, replies, states) && i < j < |calls|
    requires calls[i] == Peek(h) && replies[i].Page? && (calls[j] == Peek(h) || calls[j] == LoadPage(h))
    ensures replies[j].Page? <==> forall k :: i < k < j ==> !Takes(calls[k], replies[k], h)
    ensures replies[j].Page? ==> replies[j] == replies[i]
  {
    hide Step;
    RunKeeps(max, calls, replies, states, i);
    RunKeeps(max, calls, replies, states, j);
    assert StepAt(max, calls, replies, states, i) && StepAt(max, calls, replies, states, j);
    PeekStep(max, states[i], h, replies[i], states[i + 1]);
    if k :| i < k < j && Takes(calls[k], replies[k], h) {
      DeadOnceTaken(max, calls, replies, states, k, j, h);
    } else {
      PageStays(max, calls, replies, states, i + 1, j, h);
      StepKeepsPages(max, states[j], calls[j], replies[j], states[j + 1], h);
    }
  }

  lemma PeekStep(max: nat, p: PlainPool, h: nat, reply: Reply, q: PlainPool)
    requires Step(max, p, Peek(h), reply, q)
    ensures q == p && reply == if h in p.pages then Page(p.pages[h]) else Refused
  {
  }

  /** Two loads whose first sections both come before a second section get the same page. */
  method TwoReaders(max: nat, data: seq<byte>) returns (first: Reply, second: Reply)
    requires max > 0 && |data| == PAGE_SIZE
    ensures first == second == Page(data)
  {
    hide Sound, PageOf, PagesOf, CompressedPool.Valid, CompressedPool.Pages;
    var pool := new CompressedPool(max);
    var stored := Serve(pool, StorePage(0, 0, data));
    first := Serve(pool, Peek(1));
    second := Serve(pool, Peek(1));
    var gone := Serve(pool, Forget(1));
    gone := Serve(pool, Forget(1));
  }
}
