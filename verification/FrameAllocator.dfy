/**
 The two-level physical frame allocator: a stack of single frames per CPU in front of
 the buddy allocator. Frames that are free in the buddy, cached in a magazine, or handed
 out always make up the frames added at boot, each exactly once.
 */
module FrameAllocator {
  import opened Wrappers
  import opened Totals
  import opened Words
  import opened BuddyBlocks
  import opened BuddyAllocator

  const MAGAZINE_SIZE := 64
  const MAX_CPUS := 64

  /** The frames at the physical addresses on one stack. */
  ghost function Bag(stack: seq<nat>): multiset<nat> {
    multiset(seq(|stack|, k requires 0 <= k < |stack| => stack[k] / PAGE_SIZE))
  }

  /** The frames cached in all magazines. */
  ghost function Cached(stacks: seq<seq<nat>>): multiset<nat> {
    if stacks == [] then multiset{} else Bag(stacks[0]) + Cached(stacks[1..])
  }

  lemma {:induction false} CachedCounts(stacks: seq<seq<nat>>)
    ensures |Cached(stacks)| == TotalLength(stacks)
  {
    if stacks == [] {
    } else {
      CachedCounts(stacks[1..]);
    }
  }

  lemma AddToBoth(a: multiset<nat>, x: multiset<nat>, u: multiset<nat>, y: multiset<nat>, v: multiset<nat>)
    requires x + u == y + v
    ensures (a + x) + u == (a + y) + v
  {
    assert (a + x) + u == a + (x + u);
    assert (a + y) + v == a + (y + v);
  }

  lemma {:induction false} CachedUpdate(stacks: seq<seq<nat>>, c: nat, t: seq<nat>)
    requires c < |stacks|
    ensures Cached(stacks[c := t]) + Bag(stacks[c]) == Cached(stacks) + Bag(t)
  {
    hide Bag;
    if c == 0 {
      assert stacks[c := t][1..] == stacks[1..];
    } else {
      var rest := stacks[1..];
      assert stacks[c := t][1..] == rest[c - 1 := t];
      CachedUpdate(rest, c - 1, t);
      AddToBoth(Bag(stacks[0]), Cached(rest[c - 1 := t]), Bag(stacks[c]), Cached(rest), Bag(t));
    }
  }

  lemma CachedPush(stacks: seq<seq<nat>>, c: nat, phys: nat)
    requires c < |stacks|
    ensures Cached(stacks[c := stacks[c] + [phys]]) == Cached(stacks) + multiset{phys / PAGE_SIZE}
  {
    hide Bag, Cached;
    CachedUpdate(stacks, c, stacks[c] + [phys]);
    BagPush(stacks[c], phys);
    var one := multiset{phys / PAGE_SIZE};
    assert Cached(stacks) + (Bag(stacks[c]) + one) == (Cached(stacks) + one) + Bag(stacks[c]);
    Cancel(Cached(stacks[c := stacks[c] + [phys]]), Cached(stacks) + one, Bag(stacks[c]));
  }

  lemma Cancel(x: multiset<nat>, y: multiset<nat>, b: multiset<nat>)
    requires x + b == y + b
    ensures x == y
  {
    assert (x + b) - b == x && (y + b) - b == y;
  }

  lemma CachedPop(stacks: seq<seq<nat>>, c: nat)
    requires c < |stacks| && stacks[c] != []
    ensures var s := stacks[c];
      Cached(stacks) == Cached(stacks[c := s[..|s| - 1]]) + multiset{s[|s| - 1] / PAGE_SIZE}
  {
    hide Bag, Cached;
    var s := stacks[c];
    var popped := stacks[c := s[..|s| - 1]];
    CachedPush(popped, c, s[|s| - 1]);
    assert s[..|s| - 1] + [s[|s| - 1]] == s;
    assert popped[c := s] == stacks;
  }

  lemma BagPush(stack: seq<nat>, phys: nat)
    ensures Bag(stack + [phys]) == Bag(stack) + multiset{phys / PAGE_SIZE}
  {
    var a := seq(|stack|, k requires 0 <= k < |stack| => stack[k] / PAGE_SIZE);
    var t := stack + [phys];
    var b := seq(|t|, k requires 0 <= k < |t| => t[k] / PAGE_SIZE);
    assert b == a + [phys / PAGE_SIZE];
  }

  /** Free, cached and outstanding frames are the managed ones, each once. */
  ghost predicate Partition(free: set<nat>, cached: multiset<nat>, out: set<nat>, managed: set<nat>) {
    multiset(free) + cached + multiset(out) == multiset(managed)
  }

  /** Magazines: fixed arrays of addresses, the first `tops[cpu]` of which are in use. */
  class Magazines {
    const frames: array2<nat>
    const tops: array<nat>
    ghost var stacks: seq<seq<nat>>  // the addresses in use, oldest first

    ghost predicate Valid()
      reads this, frames, tops
    {
      && frames.Length0 == MAX_CPUS && frames.Length1 == MAGAZINE_SIZE && tops.Length == MAX_CPUS == |stacks|
      && (forall c :: 0 <= c < MAX_CPUS ==> |stacks[c]| == tops[c] <= MAGAZINE_SIZE)
      && forall c, k :: 0 <= c < MAX_CPUS && 0 <= k < tops[c] ==> stacks[c][k] == frames[c, k]
    }

    constructor ()
      ensures Valid() && fresh(frames) && fresh(tops)
      ensures forall c :: 0 <= c < MAX_CPUS ==> stacks[c] == []
    {
      frames := new nat[MAX_CPUS, MAGAZINE_SIZE]((_, _) => 0);
      tops := new nat[MAX_CPUS](_ => 0);
      stacks := seq(MAX_CPUS, _ => []);
    }

    /** Take the newest address off a stack, or answer 0 when it is empty. */
    method Pop(cpu: nat) returns (phys: nat)
      requires Valid() && cpu < MAX_CPUS
      modifies this, tops
      ensures Valid()
      ensures old(stacks[cpu]) == [] ==> phys == 0 && stacks == old(stacks)
      ensures old(stacks[cpu]) != [] ==>
        var s := old(stacks[cpu]); phys == s[|s| - 1] && stacks == old(stacks)[cpu := s[..|s| - 1]]
    {
      var t := tops[cpu];
      if t == 0 { return 0; }
      tops[cpu] := t - 1;
      stacks := stacks[cpu := stacks[cpu][..t - 1]];
      phys := frames[cpu, t - 1];
    }

    /** Put an address on a stack unless it is full. */
    method Push(cpu: nat, phys: nat) returns (ok: bool)
      requires Valid() && cpu < MAX_CPUS
      modifies this, tops, frames
      ensures Valid()
      ensures ok <==> |old(stacks[cpu])| < MAGAZINE_SIZE
      ensures stacks == if ok then old(stacks)[cpu := old(stacks[cpu]) + [phys]] else old(stacks)
    {
      var t := tops[cpu];
      if t >= MAGAZINE_SIZE { return false; }
      tops[cpu] := t + 1;
      frames[cpu, t] := phys;
      stacks := stacks[cpu := stacks[cpu] + [phys]];
      ok := true;
    }
  }

  lemma {:induction false} NothingCached(stacks: seq<seq<nat>>)
    requires forall c :: 0 <= c < |stacks| ==> stacks[c] == []
    ensures Cached(stacks) == multiset{} && TotalLength(stacks) == 0
  {
    if stacks == [] {
    } else {
      NothingCached(stacks[1..]);
    }
  }

  lemma AlignedPush(stacks: seq<seq<nat>>, c: nat, phys: nat)
    requires Aligned(stacks) && c < |stacks| && phys % PAGE_SIZE == 0
    ensures Aligned(stacks[c := stacks[c] + [phys]])
  {
  }

  lemma AlignedPop(stacks: seq<seq<nat>>, c: nat)
    requires Aligned(stacks) && c < |stacks| && stacks[c] != []
    ensures Aligned(stacks[c := stacks[c][..|stacks[c]| - 1]])
  {
  }

  /** Every cached address is page aligned. */
  ghost predicate Aligned(stacks: seq<seq<nat>>) {
    forall c, k :: 0 <= c < |stacks| && 0 <= k < |stacks[c]| ==> stacks[c][k] % PAGE_SIZE == 0
  }

  lemma AllFreeAtBoot(managed: set<nat>)
    ensures Partition(managed, multiset{}, {}, managed)
  {
  }

  lemma BagUnion(a: set<nat>, b: set<nat>)
    requires a !! b
    ensures multiset(a + b) == multiset(a) + multiset(b)
  {
  }

  /** A cached frame is managed, and neither free in the buddy nor outstanding. */
  lemma CachedOnce(free: set<nat>, cached: multiset<nat>, out: set<nat>, managed: set<nat>, f: nat)
    requires Partition(free, cached, out, managed) && f in cached
    ensures f in managed && f !in free && f !in out && cached[f] == 1
  {
    assert multiset(managed)[f] == multiset(free)[f] + cached[f] + multiset(out)[f];
  }

  lemma OutOnce(free: set<nat>, cached: multiset<nat>, out: set<nat>, managed: set<nat>, f: nat)
    requires Partition(free, cached, out, managed) && f in out
    ensures f in managed && f !in free && f !in cached
  {
    assert multiset(managed)[f] == multiset(free)[f] + cached[f] + multiset(out)[f];
  }

  lemma FreeOnce(free: set<nat>, cached: multiset<nat>, out: set<nat>, managed: set<nat>, f: nat)
    requires Partition(free, cached, out, managed) && f in free
    ensures f in managed && f !in out && f !in cached
  {
    assert multiset(managed)[f] == multiset(free)[f] + cached[f] + multiset(out)[f];
  }

  /** Handing a cached frame out. */
  lemma CachedToOut(free: set<nat>, cached: multiset<nat>, out: set<nat>, managed: set<nat>, f: nat)
    requires Partition(free, cached + multiset{f}, out, managed)
    ensures Partition(free, cached, out + {f}, managed)
  {
    CachedOnce(free, cached + multiset{f}, out, managed, f);
    BagUnion(out, {f});
  }

  lemma OutToCached(free: set<nat>, cached: multiset<nat>, out: set<nat>, managed: set<nat>, f: nat)
    requires Partition(free, cached, out, managed) && f in out
    ensures Partition(free, cached + multiset{f}, out - {f}, managed)
  {
    BagUnion(out - {f}, {f});
    assert out - {f} + {f} == out;
  }

  lemma FreeToCached(free: set<nat>, rest: set<nat>, cached: multiset<nat>, out: set<nat>, managed: set<nat>, f: nat)
    requires Partition(free, cached, out, managed) && free == rest + {f} && f !in rest
    ensures Partition(rest, cached + multiset{f}, out, managed)
  {
    BagUnion(rest, {f});
  }

  lemma CachedToFree(free: set<nat>, cached: multiset<nat>, out: set<nat>, managed: set<nat>, f: nat)
    requires Partition(free, cached + multiset{f}, out, managed)
    ensures Partition(free + {f}, cached, out, managed)
  {
    CachedOnce(free, cached + multiset{f}, out, managed, f);
    BagUnion(free, {f});
  }

  lemma FreeToOut(
      free: set<nat>, rest: set<nat>, cached: multiset<nat>, out: set<nat>, managed: set<nat>, block: set<nat>)
    requires Partition(free, cached, out, managed) && free == rest + block && rest !! block
    ensures Partition(rest, cached, out + block, managed) && out !! block
  {
    forall f | f in block ensures f !in out { FreeOnce(free, cached, out, managed, f); }
    BagUnion(rest, block);
    BagUnion(out, block);
  }

  lemma OutToFree(free: set<nat>, cached: multiset<nat>, out: set<nat>, managed: set<nat>, block: set<nat>)
    requires Partition(free, cached, out, managed) && block <= out
    ensures Partition(free + block, cached, out - block, managed) && free !! block
  {
    forall f | f in block ensures f !in free { OutOnce(free, cached, out, managed, f); }
    BagUnion(free, block);
    BagUnion(out - block, block);
    assert out - block + block == out;
  }

  /** Give a fresh buddy allocator the usable frames, one by one. */
  method AddUsable(buddy: BuddyAlloc, usable: seq<nat>)
    requires buddy.Valid() && buddy.Blocks() == {}
    requires forall i :: 0 <= i < |usable| ==> 256 <= usable[i] < MAX_FRAMES
    requires forall i, j :: 0 <= i < j < |usable| ==> usable[i] != usable[j]
    modifies buddy, buddy.bits
    ensures buddy.Valid() && FreeFrames(buddy.Blocks()) == set f | f in usable
  {
    hide BuddyAlloc.Blocks, Canonical, Covered;
    assert FreeFrames({}) == {} by { EmptyFree(); }
    for k := 0 to |usable|
      invariant buddy.Valid() && FreeFrames(buddy.Blocks()) == set f | f in usable[..k]
    {
      NotCovered(buddy.Blocks(), usable[k]);
      buddy.AddRange(usable[k], 1);
      assert usable[..k + 1] == usable[..k] + [usable[k]];
    }
    assert usable[..|usable|] == usable;
  }

  /** A single-frame allocation takes one frame out of the free ones. */
  lemma OneFrameTaken(s: set<Block>, t: set<Block>, phys: nat)
    requires Canonical(s) && Allocated(s, BlockAt(phys, 0), t) && exists b :: Taken(s, b, 0, t, phys)
    ensures FreeFrames(s) == FreeFrames(t) + {phys / PAGE_SIZE} && phys / PAGE_SIZE !in FreeFrames(t)
    ensures phys % PAGE_SIZE == 0 && |FreeFrames(s)| == |FreeFrames(t)| + 1
  {
    hide Carve, Canonical, FreeFrames;
    var b :| Taken(s, b, 0, t, phys);
    var a := BlockAt(phys, 0);
    FramesOfFrame(a);
    NotFree(t, a.index);
    assert Pow2(0) == 1;
  }

  lemma NotFree(t: set<Block>, f: nat)
    requires NoneFree(t, Block(0, f))
    ensures f !in FreeFrames(t)
  {
    assert Holds(Block(0, f), f);
  }

  /** Nothing can be allocated at order 0 exactly when no frame is free. */
  lemma NoFrameFree(s: set<Block>)
    requires Canonical(s)
    ensures (forall a: Block :: a.order == 0 && InMemory(a) ==> !AllFree(s, a)) <==> FreeFrames(s) == {}
  {
    hide Pow2;
    MemorySize();
    forall a: Block | a.order == 0 && InMemory(a) ensures AllFree(s, a) <==> a.index in FreeFrames(s) {
      SingleFrame(a.index);
    }
    if f :| f in FreeFrames(s) { SingleFrame(f); assert AllFree(s, Block(0, f)); }
  }

  lemma FrameFreeable(s: set<Block>, phys: nat)
    requires phys / PAGE_SIZE < MAX_FRAMES && phys / PAGE_SIZE !in FreeFrames(s)
    ensures InMemory(BlockAt(phys, 0)) && NoneFree(s, BlockAt(phys, 0))
    ensures FramesOf(BlockAt(phys, 0)) == {phys / PAGE_SIZE}
  {
    assert BlockAt(phys, 0) == Block(0, phys / PAGE_SIZE);
    SingleFrame(phys / PAGE_SIZE);
    NotCovered(s, phys / PAGE_SIZE);
  }

  lemma FrameOfBlock(phys: nat)
    requires InMemory(BlockAt(phys, 0))
    ensures FramesOf(BlockAt(phys, 0)) == {phys / PAGE_SIZE} && Pow2(0) == 1
  {
    FramesOfFrame(BlockAt(phys, 0));
  }

  lemma BlockTaken(s: set<Block>, a: Block, t: set<Block>)
    requires Canonical(s) && Canonical(t) && Allocated(s, a, t)
    ensures FreeFrames(s) == FreeFrames(t) + FramesOf(a) && FreeFrames(t) !! FramesOf(a)
    ensures |FreeFrames(s)| == |FreeFrames(t)| + Pow2(a.order)
  {
    BlockSize(a);
    assert FreeFrames(t) !! FramesOf(a);
  }

  lemma NoneFreeApart(s: set<Block>, b: Block)
    requires InMemory(b) && FreeFrames(s) !! FramesOf(b)
    ensures NoneFree(s, b)
  {
    BlockSize(b);
    forall f: nat | Holds(b, f) ensures !Covered(s, f) { assert f in FramesOf(b); }
  }

  lemma OutManaged(free: set<nat>, cached: multiset<nat>, out: set<nat>, managed: set<nat>, block: set<nat>)
    requires Partition(free, cached, out, managed) && block <= out
    ensures block <= managed
  {
    forall f | f in block ensures f in managed { OutOnce(free, cached, out, managed, f); }
  }

  /** Number of bits of `n`. */
  function BitLength(n: nat): nat {
    if n == 0 then 0 else 1 + BitLength(n / 2)
  }

  predicate IsPowerOfTwo(n: nat) {
    n > 0 && n == Pow2(BitLength(n) - 1)
  }

  /** The order of the block that serves a request for `n` frames: rounded up, but capped. */
  function AllocOrder(n: nat): nat
    requires n > 0
  {
    Min(BitLength(n) - if IsPowerOfTwo(n) then 1 else 0, MAX_ORDER)
  }

  /** The order at which `n` frames are freed: rounded down and capped. */
  function FreeOrder(n: nat): nat {
    Min(if BitLength(n) == 0 then 0 else BitLength(n) - 1, MAX_ORDER)
  }

  lemma {:induction false} BitLengthBounds(n: nat)
    requires n > 0
    ensures BitLength(n) >= 1 && Pow2(BitLength(n) - 1) <= n < Pow2(BitLength(n))
  {
    if n > 1 { BitLengthBounds(n / 2); }
  }

  lemma {:induction false} BitLengthMonotone(n: nat, k: nat)
    requires n > 0
    ensures BitLength(n) > k <==> n >= Pow2(k)
    decreases k
  {
    if k > 0 && n > 1 { BitLengthMonotone(n / 2, k - 1); }
  }

  /**
   Requests and releases of `n` frames round to the same order exactly when `n` is a power
   of two or reaches the largest block; the block is large enough exactly up to that size.
   */
  lemma OrdersAgree(n: nat)
    requires n > 0
    ensures AllocOrder(n) == FreeOrder(n) <==> IsPowerOfTwo(n) || n >= Pow2(MAX_ORDER)
    ensures Pow2(AllocOrder(n)) >= n <==> n <= Pow2(MAX_ORDER)
  {
    BitLengthBounds(n);
    BitLengthMonotone(n, MAX_ORDER);
    if n > Pow2(MAX_ORDER) {
      assert AllocOrder(n) == MAX_ORDER;
    } else if n < Pow2(MAX_ORDER) && IsPowerOfTwo(n) {
      assert AllocOrder(n) == BitLength(n) - 1;
    }
  }

  /** The block for a request is the smallest that will do; what is taken back is the largest that fits. */
  lemma OrdersFit(n: nat)
    requires n > 0
    ensures n <= Pow2(MAX_ORDER) ==> n <= Pow2(AllocOrder(n)) < 2 * n
    ensures n <= Pow2(MAX_ORDER) ==> Pow2(FreeOrder(n)) <= n < 2 * Pow2(FreeOrder(n))
    ensures n > Pow2(MAX_ORDER) ==> AllocOrder(n) == FreeOrder(n) == MAX_ORDER
  {
    hide Pow2, BitLength;
    var k := BitLength(n) - 1;
    BitLengthBounds(n);
    Pow2Doubles(k);
    if n <= Pow2(MAX_ORDER) {
      if k > MAX_ORDER { Pow2Increases(MAX_ORDER, k); }
      if k == MAX_ORDER { assert n == Pow2(k); }
    } else {
      BitLengthMonotone(n, MAX_ORDER);
    }
  }

  lemma EmptyFree()
    ensures FreeFrames({}) == {}
  {
  }

  lemma NotCovered(s: set<Block>, f: nat)
    requires f < MAX_FRAMES && f !in FreeFrames(s)
    ensures !Covered(s, f)
  {
    hide Pow2;
    MemorySize();
  }

  class FrameAllocator {
    const buddy: BuddyAlloc
    const mags: Magazines
    var totalFree: nat
    ghost var managed: set<nat>      // frames added at boot
    ghost var outstanding: set<nat>  // frames handed out

    ghost predicate Parts()
      reads this, buddy, buddy.bits, mags, mags.frames, mags.tops
    {
      && buddy.Valid() && mags.Valid()
      && mags.frames != buddy.bits
    }

    ghost function Free(): set<nat>
      reads this, buddy, buddy.bits, mags, mags.frames, mags.tops
      requires Parts()
    {
      FreeFrames(buddy.Blocks())
    }

    ghost predicate Valid()
      reads this, buddy, buddy.bits, mags, mags.frames, mags.tops
    {
      && Parts()
      && Partition(Free(), Cached(mags.stacks), outstanding, managed)
      && Aligned(mags.stacks)
      && totalFree == buddy.freeFrames + TotalLength(mags.stacks)
      && forall f :: f in managed ==> 256 <= f < MAX_FRAMES
    }

    /** Boot with the usable frames that the firmware's memory map lists, one by one. */
    constructor (usable: seq<nat>)
      requires forall i :: 0 <= i < |usable| ==> 256 <= usable[i] < MAX_FRAMES
      requires forall i, j :: 0 <= i < j < |usable| ==> usable[i] != usable[j]
      ensures Valid() && outstanding == {} && managed == set f | f in usable
      ensures totalFree == |managed| && Free() == managed
      ensures fresh(buddy) && fresh(buddy.bits) && fresh(mags) && fresh(mags.frames) && fresh(mags.tops)
    {
      hide Cached, TotalLength, Partition, FreeFrames, Canonical, BuddyAlloc.Blocks, BuddyAlloc.Shape;
      var b := new BuddyAlloc();
      AddUsable(b, usable);
      var m := new Magazines();
      NothingCached(m.stacks);
      AllFreeAtBoot(set f | f in usable);
      buddy, mags, totalFree := b, m, b.freeFrames;
      outstanding, managed := {}, set f | f in usable;
      new;
      assert Parts() && Free() == managed;
    }

    lemma TopOfStack(cpu: nat)
      requires Valid() && cpu < MAX_CPUS && mags.stacks[cpu] != []
      ensures var s := mags.stacks[cpu]; var phys := s[|s| - 1];
        && phys > 0 && phys % PAGE_SIZE == 0 && phys / PAGE_SIZE in managed
        && phys / PAGE_SIZE !in outstanding && phys / PAGE_SIZE !in Free()
    {
      hide Cached, Partition;
      var s := mags.stacks[cpu];
      CachedPop(mags.stacks, cpu);
      CachedOnce(Free(), Cached(mags.stacks), outstanding, managed, s[|s| - 1] / PAGE_SIZE);
    }

    /** Pop a cached frame for the caller. */
    method PopFrame(cpu: nat) returns (r: Option<nat>)
      requires Valid() && cpu < MAX_CPUS
      modifies this, mags, mags.tops
      ensures Valid() && managed == old(managed)
      ensures r.None? <==> old(mags.stacks[cpu]) == []
      ensures r.None? ==> outstanding == old(outstanding) && mags.stacks == old(mags.stacks)
      ensures r.Some? ==> HandedOut(old(outstanding), r.value, outstanding, managed)
      ensures r.Some? ==> totalFree == old(totalFree) - 1
    {
      hide Cached, TotalLength, Partition, FreeFrames;
      ghost var was := mags.stacks;
      if mags.stacks[cpu] != [] { TopOfStack(cpu); }
      var phys := mags.Pop(cpu);
      if phys == 0 { return None; }
      CachedPop(was, cpu);
      CachedCounts(was);
      CachedCounts(mags.stacks);
      CachedToOut(Free(), Cached(mags.stacks), outstanding, managed, phys / PAGE_SIZE);
      totalFree := totalFree - 1;
      outstanding := outstanding + {phys / PAGE_SIZE};
      r := Some(phys);
    }

    /** Fill an empty magazine from the buddy until it is full or the buddy has no frame left. */
    method Refill(cpu: nat)
      requires Valid() && cpu < MAX_CPUS
      modifies this, buddy, buddy.bits, mags, mags.frames, mags.tops
      ensures Valid() && managed == old(managed) && outstanding == old(outstanding) && totalFree == old(totalFree)
      ensures |mags.stacks[cpu]| == MAGAZINE_SIZE || Free() == {}
      ensures old(mags.stacks[cpu]) == [] ==> (mags.stacks[cpu] == [] <==> old(Free()) == {})
    {
      hide Cached, TotalLength, Partition, FreeFrames, Canonical, BuddyAlloc.Blocks, BuddyAlloc.Shape;
      while mags.tops[cpu] < MAGAZINE_SIZE
        invariant Valid() && managed == old(managed) && outstanding == old(outstanding) && totalFree == old(totalFree)
        invariant mags.stacks[cpu] == [] ==> Free() == old(Free())
        invariant old(Free()) == {} ==> mags.stacks[cpu] == old(mags.stacks[cpu]) && Free() == {}
        decreases MAGAZINE_SIZE - |mags.stacks[cpu]|
      {
        var more := RefillOne(cpu);
        if !more { break; }
      }
    }

    method RefillOne(cpu: nat) returns (more: bool)
      requires Valid() && cpu < MAX_CPUS && |mags.stacks[cpu]| < MAGAZINE_SIZE
      modifies this, buddy, buddy.bits, mags, mags.frames, mags.tops
      ensures Valid() && managed == old(managed) && outstanding == old(outstanding) && totalFree == old(totalFree)
      ensures more <==> old(Free()) != {}
      ensures more ==> |mags.stacks[cpu]| == |old(mags.stacks[cpu])| + 1
      ensures !more ==> mags.stacks == old(mags.stacks) && Free() == {}
    {
      hide Cached, TotalLength, Partition, Aligned, FreeFrames, Canonical, BuddyAlloc.Blocks, BuddyAlloc.Shape;
      hide AllFree, InMemory, Taken, Pow2;
      ghost var before, was := mags.stacks, Free();
      ghost var blocks := buddy.Blocks();
      NoFrameFree(blocks);
      var r := buddy.Alloc(0);
      if r.None? { return false; }
      var p := r.value;
      OneFrameTaken(blocks, buddy.Blocks(), p);
      FreeToCached(was, Free(), Cached(before), outstanding, managed, p / PAGE_SIZE);
      CachedPush(before, cpu, p);
      AlignedPush(before, cpu, p);
      var pushed := mags.Push(cpu, p);
      CachedCounts(before);
      CachedCounts(mags.stacks);
      more := true;
    }

    /** Allocate one frame on a CPU. Fails only when its magazine and the buddy are both empty. */
    method AllocFrame(cpu: nat) returns (r: Option<nat>)
      requires Valid() && cpu < MAX_CPUS
      modifies this, buddy, buddy.bits, mags, mags.frames, mags.tops
      ensures Valid() && managed == old(managed)
      ensures r.None? <==> old(mags.stacks[cpu]) == [] && old(Free()) == {}
      ensures r.None? ==>
        outstanding == old(outstanding) && totalFree == old(totalFree) <= (MAX_CPUS - 1) * MAGAZINE_SIZE
      ensures r.Some? ==> HandedOut(old(outstanding), r.value, outstanding, managed)
      ensures r.Some? ==> totalFree == old(totalFree) - 1
    {
      hide Cached, TotalLength, Partition, Aligned, FreeFrames, Canonical, BuddyAlloc.Blocks, BuddyAlloc.Shape;
      r := PopFrame(cpu);
      if r.Some? { return; }
      if mags.stacks[cpu] == [] && Free() == {} { Stranded(cpu); }
      Refill(cpu);
      r := PopFrame(cpu);
    }

    /** With this CPU's magazine and the buddy empty, what is free lies in the other magazines. */
    lemma Stranded(cpu: nat)
      requires Valid() && cpu < MAX_CPUS && mags.stacks[cpu] == [] && Free() == {}
      ensures totalFree <= (MAX_CPUS - 1) * MAGAZINE_SIZE
    {
      hide Cached, TotalLength, Partition, Aligned, FreeFrames, Canonical, BuddyAlloc.Blocks, BuddyAlloc.Shape;
      var full: seq<nat> := seq(MAGAZINE_SIZE, _ => 0);
      var others := mags.stacks[cpu := full];
      TotalLengthUpdate(mags.stacks, cpu, full);
      TotalLengthBound(others, MAGAZINE_SIZE);
    }

    /** The frames counted as free and those handed out are the frames added at boot. */
    lemma AddUp()
      requires Valid()
      ensures totalFree + |outstanding| == |managed|
    {
      hide Cached, TotalLength, Aligned, FreeFrames, Canonical, BuddyAlloc.Blocks, BuddyAlloc.Shape;
      CachedCounts(mags.stacks);
      assert |multiset(managed)| == |multiset(Free()) + Cached(mags.stacks) + multiset(outstanding)|;
    }

    /** Give a magazine's newest frame back to the buddy. */
    method DrainOne(cpu: nat)
      requires Valid() && cpu < MAX_CPUS && mags.stacks[cpu] != []
      modifies this, buddy, buddy.bits, mags, mags.tops
      ensures Valid() && managed == old(managed) && outstanding == old(outstanding) && totalFree == old(totalFree)
      ensures |mags.stacks[cpu]| == |old(mags.stacks[cpu])| - 1
    {
      hide Cached, TotalLength, Partition, Aligned, FreeFrames, Canonical, BuddyAlloc.Blocks, BuddyAlloc.Shape;
      ghost var before, was := mags.stacks, Free();
      TopOfStack(cpu);
      CachedPop(before, cpu);
      AlignedPop(before, cpu);
      var p := mags.Pop(cpu);
      CachedCounts(before);
      CachedCounts(mags.stacks);
      if p != 0 {
        FrameFreeable(buddy.Blocks(), p);
        CachedToFree(was, Cached(mags.stacks), outstanding, managed, p / PAGE_SIZE);
        buddy.Free(p, 0);
      }
    }

    /**
     Free one frame on a CPU: push it on the magazine, after giving half of a full
     magazine back to the buddy; that push never fails.
     */
    method FreeFrame(cpu: nat, phys: nat)
      requires Valid() && cpu < MAX_CPUS && phys % PAGE_SIZE == 0 && phys / PAGE_SIZE in outstanding
      modifies this, buddy, buddy.bits, mags, mags.frames, mags.tops
      ensures Valid() && managed == old(managed)
      ensures outstanding == old(outstanding) - {phys / PAGE_SIZE} && totalFree == old(totalFree) + 1
    {
      hide Cached, TotalLength, Partition, Aligned, FreeFrames, Canonical, BuddyAlloc.Blocks, BuddyAlloc.Shape;
      var pushed := PushFrame(cpu, phys);
      if pushed { return; }
      var drain := mags.tops[cpu] / 2;
      for i := 0 to drain
        invariant Valid() && managed == old(managed) && outstanding == old(outstanding) && totalFree == old(totalFree)
        invariant |mags.stacks[cpu]| == MAGAZINE_SIZE - i
      {
        DrainOne(cpu);
      }
      pushed := PushFrame(cpu, phys);
    }

    /** Push the caller's frame unless the magazine is full. */
    method PushFrame(cpu: nat, phys: nat) returns (ok: bool)
      requires Valid() && cpu < MAX_CPUS && phys % PAGE_SIZE == 0 && phys / PAGE_SIZE in outstanding
      modifies this, mags, mags.frames, mags.tops
      ensures Valid() && managed == old(managed)
      ensures ok <==> |old(mags.stacks[cpu])| < MAGAZINE_SIZE
      ensures ok ==> outstanding == old(outstanding) - {phys / PAGE_SIZE} && totalFree == old(totalFree) + 1
      ensures !ok ==> outstanding == old(outstanding) && totalFree == old(totalFree) && mags.stacks == old(mags.stacks)
    {
      hide Cached, TotalLength, Partition, Aligned, FreeFrames, Canonical, BuddyAlloc.Blocks, BuddyAlloc.Shape;
      ghost var before := mags.stacks;
      ok := mags.Push(cpu, phys);
      if ok {
        CachedPush(before, cpu, phys);
        AlignedPush(before, cpu, phys);
        CachedCounts(before);
        CachedCounts(mags.stacks);
        OutToCached(Free(), Cached(before), outstanding, managed, phys / PAGE_SIZE);
        outstanding := outstanding - {phys / PAGE_SIZE};
        totalFree := totalFree + 1;
      }
    }

    /** Allocate at least `n` contiguous frames, for `n` up to the largest block. */
    method AllocFrames(cpu: nat, n: nat) returns (r: Option<nat>)
      requires Valid() && cpu < MAX_CPUS
      modifies this, buddy, buddy.bits, mags, mags.frames, mags.tops
      ensures Valid() && managed == old(managed)
      ensures n == 0 ==> r.None?
      ensures n == 1 ==> (r.None? <==> old(mags.stacks[cpu]) == [] && old(Free()) == {})
      ensures n > 1 ==>
        (r.None? <==> forall a: Block :: a.order == AllocOrder(n) && InMemory(a) ==> !AllFree(old(buddy.Blocks()), a))
      ensures r.None? ==> outstanding == old(outstanding) && totalFree == old(totalFree)
      ensures n == 1 && r.Some? ==>
        HandedOut(old(outstanding), r.value, outstanding, managed) && totalFree == old(totalFree) - 1
      ensures r.Some? ==> r.value % PAGE_SIZE == 0
      ensures n > 1 && r.Some? ==>
        var block := FramesOf(BlockAt(r.value, AllocOrder(n)));
        && InMemory(BlockAt(r.value, AllocOrder(n)))
        && block <= managed && block !! old(outstanding) && outstanding == old(outstanding) + block
        && totalFree == old(totalFree) - Pow2(AllocOrder(n))
      ensures r.Some? ==>
        var size := old(totalFree) - totalFree;
        if n <= Pow2(MAX_ORDER) then n <= size < 2 * n else size == Pow2(MAX_ORDER)
    {
      hide Cached, TotalLength, Partition, Aligned, FreeFrames, Canonical, BuddyAlloc.Blocks, BuddyAlloc.Shape;
      hide FramesOf, Pow2, AllocOrder;
      if n == 0 { return None; }
      OrdersFit(n);
      Pow2Increases(0, MAX_ORDER);
      if n == 1 {
        r := AllocFrame(cpu);
        return;
      }
      var order := AllocOrder(n);
      ghost var blocks, was := buddy.Blocks(), Free();
      r := buddy.Alloc(order);
      if r.Some? {
        ghost var block := FramesOf(BlockAt(r.value, order));
        TakenAligned(blocks, order, buddy.Blocks(), r.value);
        BlockTaken(blocks, BlockAt(r.value, order), buddy.Blocks());
        FreeToOut(was, Free(), Cached(mags.stacks), outstanding, managed, block);
        OutManaged(Free(), Cached(mags.stacks), outstanding + block, managed, block);
        outstanding := outstanding + block;
        totalFree := totalFree - Pow2(order);
      }
    }

    /** Free the frames of a block: `2^FreeOrder(n)` of them from `phys` on. */
    method FreeFramesN(cpu: nat, phys: nat, n: nat)
      requires Valid() && cpu < MAX_CPUS && phys % PAGE_SIZE == 0
      requires InMemory(BlockAt(phys, FreeOrder(n))) && FramesOf(BlockAt(phys, FreeOrder(n))) <= outstanding
      modifies this, buddy, buddy.bits, mags, mags.frames, mags.tops
      ensures Valid() && managed == old(managed)
      ensures outstanding == old(outstanding) - FramesOf(BlockAt(phys, FreeOrder(n)))
      ensures totalFree == old(totalFree) + Pow2(FreeOrder(n))
      ensures n > 0 ==>
        var size := totalFree - old(totalFree);
        if n <= Pow2(MAX_ORDER) then size <= n < 2 * size else size == Pow2(MAX_ORDER)
    {
      hide Cached, TotalLength, Partition, Aligned, FreeFrames, Canonical, BuddyAlloc.Blocks, BuddyAlloc.Shape;
      hide FramesOf;
      if n > 0 { OrdersFit(n); }
      var order := FreeOrder(n);
      ghost var b := BlockAt(phys, order);
      if n == 1 {
        FrameOfBlock(phys);
        FreeFrame(cpu, phys);
        return;
      }
      OutToFree(Free(), Cached(mags.stacks), outstanding, managed, FramesOf(b));
      NoneFreeApart(buddy.Blocks(), b);
      ReleaseCounts(buddy.Blocks(), b);
      buddy.Free(phys, order);
      outstanding := outstanding - FramesOf(b);
      totalFree := totalFree + Pow2(order);
    }
  }

  lemma TakenAligned(s: set<Block>, order: nat, t: set<Block>, phys: nat)
    requires exists b :: Taken(s, b, order, t, phys)
    ensures phys % PAGE_SIZE == 0
  {
    hide Carve, Pow2;
    var b :| Taken(s, b, order, t, phys);
    var a := Carve(s - {b}, b, order).1;
    assert phys == a.index * Pow2(a.order) * PAGE_SIZE;
  }

  lemma FreeOrderAtMost(n: nat)
    requires n > 0
    ensures FreeOrder(n) <= AllocOrder(n)
  {
    BitLengthBounds(n);
  }

  /** A block at the same address but of a lower order is a part. */
  lemma PartOfBlock(phys: nat, small: nat, big: nat)
    requires small <= big && InMemory(BlockAt(phys, big))
    ensures InMemory(BlockAt(phys, small)) && FramesOf(BlockAt(phys, small)) <= FramesOf(BlockAt(phys, big))
  {
    hide Pow2;
    var f, a, b := phys / PAGE_SIZE, BlockAt(phys, big), BlockAt(phys, small);
    UpIsQuotient(f, big);
    UpIsQuotient(f, small);
    NestedOrApart(a, b, f);
    forall g | g in FramesOf(b) ensures g in FramesOf(a) { ContainsHolds(a, b, g); }
    PartInMemory(a, b, f);
  }

  lemma {:induction false} UpIsQuotient(f: nat, k: nat)
    ensures Up(f, k) == f / Pow2(k)
  {
    if k == 0 {
    } else {
      UpIsQuotient(f, k - 1);
      UpLast(f, k - 1);
      HalfOfQuotient(f, Pow2(k - 1));
    }
  }

  lemma PartInMemory(a: Block, b: Block, f: nat)
    requires InMemory(a) && Holds(a, f) && Holds(b, f) && b.order <= a.order
    ensures InMemory(b)
  {
    UpBound(f, a.order, FRAME_BITS);
    UpBound(f, b.order, FRAME_BITS);
  }

  /**
   Allocate `n` frames and free `n` again. The block is rounded up, what is freed is rounded
   down, and the difference stays outstanding.
   */
  method AllocThenFree(fa: FrameAllocator, cpu: nat, n: nat) returns (r: Option<nat>)
    requires fa.Valid() && cpu < MAX_CPUS && n > 0
    modifies fa, fa.buddy, fa.buddy.bits, fa.mags, fa.mags.frames, fa.mags.tops
    ensures fa.Valid() && old(fa.outstanding) <= fa.outstanding
    ensures r.None? ==> fa.outstanding == old(fa.outstanding)
    ensures n > 1 ==>
      (r.None? <==> forall a: Block :: a.order == AllocOrder(n) && InMemory(a) ==> !AllFree(old(fa.buddy.Blocks()), a))
    ensures r.Some? ==> |fa.outstanding| == |old(fa.outstanding)| + Pow2(AllocOrder(n)) - Pow2(FreeOrder(n))
    ensures r.Some? ==> (fa.outstanding == old(fa.outstanding) <==> IsPowerOfTwo(n) || n >= Pow2(MAX_ORDER))
  {
    hide FramesOf, Pow2, AllocOrder, FreeOrder, FreeFrames, Canonical, Partition, Cached, Aligned;
    r := fa.AllocFrames(cpu, n);
    if r.None? { return; }
    FreeOrderAtMost(n);
    OrdersAgree(n);
    ghost var big, small := BlockAt(r.value, AllocOrder(n)), BlockAt(r.value, FreeOrder(n));
    ghost var before := old(fa.outstanding);
    if n == 1 { OneIsOneFrame(r.value); }
    assert InMemory(big) && FramesOf(big) !! before && fa.outstanding == before + FramesOf(big);
    PartOfBlock(r.value, FreeOrder(n), AllocOrder(n));
    BlockSize(big);
    BlockSize(small);
    fa.FreeFramesN(cpu, r.value, n);
    Leftover(before, FramesOf(big), FramesOf(small));
    Pow2Injective(FreeOrder(n), AllocOrder(n));
  }

  lemma OneIsOneFrame(phys: nat)
    requires phys / PAGE_SIZE < MAX_FRAMES
    ensures AllocOrder(1) == FreeOrder(1) == 0 && InMemory(BlockAt(phys, 0))
    ensures FramesOf(BlockAt(phys, 0)) == {phys / PAGE_SIZE}
  {
    SingleFrame(phys / PAGE_SIZE);
  }

  lemma Leftover(before: set<nat>, big: set<nat>, small: set<nat>)
    requires before !! big && small <= big
    ensures before <= before + big - small && |before + big - small| == |before| + |big| - |small|
    ensures before + big - small == before <==> |big| == |small|
  {
    var rest := big - small;
    assert before + big - small == before + rest && big == small + rest;
  }

  lemma Pow2Injective(j: nat, k: nat)
    requires j <= k
    ensures Pow2(j) == Pow2(k) <==> j == k
  {
    if j < k { Pow2Increases(j, k); }
  }

  /** Asking for three frames and giving three back leaves two outstanding. */
  lemma ThreeLeavesTwo()
    ensures Pow2(AllocOrder(3)) - Pow2(FreeOrder(3)) == 2
  {
    assert BitLength(3) == 2;
    assert Pow2(2) == 4 && Pow2(1) == 2;
  }

  /** A machine with four frames: ask for three and give three back. */
  method ThreeFrames() returns (fa: FrameAllocator, r: Option<nat>)
    ensures fa.Valid() && r.Some? && |fa.outstanding| == 2
  {
    hide FramesOf, Pow2, AllocOrder, FreeOrder, Canonical, Partition, Cached, Aligned, FreeFrames;
    fa := new FrameAllocator([256, 257, 258, 259]);
    ThreeLeavesTwo();
    FourInARow(fa.buddy.Blocks());
    r := AllocThenFree(fa, 0, 3);
  }

  lemma FourInARow(s: set<Block>)
    requires FreeFrames(s) == {256, 257, 258, 259}
    ensures AllocOrder(3) == 2 && InMemory(Block(2, 64)) && AllFree(s, Block(2, 64))
  {
    var b := Block(2, 64);
    assert BitLength(3) == 2 && Pow2(2) == 4;
    UpBound(256, 2, FRAME_BITS);
    forall f: nat | Holds(b, f) ensures Covered(s, f) {
      assert f / 2 / 2 == 64;
      assert f in FreeFrames(s);
    }
  }

  /** A frame that was not outstanding has become so. */
  ghost predicate HandedOut(before: set<nat>, phys: nat, after: set<nat>, managed: set<nat>) {
    && phys % PAGE_SIZE == 0 && phys / PAGE_SIZE in managed
    && phys / PAGE_SIZE !in before && after == before + {phys / PAGE_SIZE}
  }
}
