/**
 Whole runs of the frame allocator: any number of requests and returns, on any CPUs. Blocks
 that are held at the same time never overlap, and what stays outstanding is what is held and
 what rounding leaves over of the blocks that were given back.
 */
module FrameRuns {
  import opened Wrappers
  import opened Words
  import opened BuddyBlocks
  import opened BuddyAllocator
  import opened FrameAllocator

  /** Ask for `n` frames, or give back what call `i` got, on some CPU. */
  datatype Call = Ask(cpu: nat, n: nat) | GiveBack(cpu: nat, i: nat)

  predicate Got(calls: seq<Call>, results: seq<Option<nat>>, i: nat) {
    i < |calls| && i < |results| && calls[i].Ask? && calls[i].n > 0 && results[i].Some?
  }

  /** The frames call `i` got. */
  ghost function BlockOf(calls: seq<Call>, results: seq<Option<nat>>, i: nat): set<nat> {
    if Got(calls, results, i) then FramesOf(BlockAt(results[i].value, AllocOrder(calls[i].n))) else {}
  }

  /** The frames that giving them back returns. */
  ghost function PartOf(calls: seq<Call>, results: seq<Option<nat>>, i: nat): set<nat> {
    if Got(calls, results, i) then FramesOf(BlockAt(results[i].value, FreeOrder(calls[i].n))) else {}
  }

  /** Some call before number `n` gives back what call `i` got. */
  ghost predicate Returned(calls: seq<Call>, i: nat, n: nat) {
    exists k :: i < k < n && k < |calls| && calls[k].GiveBack? && calls[k].i == i
  }

  /** What is left of the block of call `i` after `n` calls. */
  ghost function Remains(calls: seq<Call>, results: seq<Option<nat>>, i: nat, n: nat): set<nat> {
    if Returned(calls, i, n) then BlockOf(calls, results, i) - PartOf(calls, results, i) else BlockOf(calls, results, i)
  }

  ghost function Rests(calls: seq<Call>, results: seq<Option<nat>>): seq<set<nat>> {
    seq(|results|, i requires 0 <= i < |results| => Remains(calls, results, i, |results|))
  }

  /** Frames that are out: those out at the start, and what remains of every block, all apart. */
  ghost predicate Accounted(start: set<nat>, out: set<nat>, rests: seq<set<nat>>) {
    && start <= out
    && (forall i :: 0 <= i < |rests| ==> rests[i] <= out && rests[i] !! start)
    && (forall i, j :: 0 <= i < j < |rests| ==> rests[i] !! rests[j])
    && (forall f :: f in out ==> f in start || exists i :: 0 <= i < |rests| && f in rests[i])
  }

  lemma OneMore(start: set<nat>, out: set<nat>, rests: seq<set<nat>>, block: set<nat>)
    requires Accounted(start, out, rests) && block !! out
    ensures Accounted(start, out + block, rests + [block])
  {
    var more := rests + [block];
    forall f | f in out + block ensures f in start || exists i :: 0 <= i < |more| && f in more[i] {
      if f in block {
        assert f in more[|rests|];
      } else if f !in start {
        var i :| 0 <= i < |rests| && f in rests[i];
        assert f in more[i];
      }
    }
  }

  lemma OneLess(start: set<nat>, out: set<nat>, rests: seq<set<nat>>, b: nat, part: set<nat>)
    requires Accounted(start, out, rests) && b < |rests| && part <= rests[b]
    ensures Accounted(start, out - part, rests[b := rests[b] - part])
  {
    var less := rests[b := rests[b] - part];
    forall f | f in out - part ensures f in start || exists i :: 0 <= i < |less| && f in less[i] {
      if f !in start {
        var i :| 0 <= i < |rests| && f in rests[i];
        assert f in less[i];
      }
    }
  }

  /** A block handed out shares no frame with one that is still held. */
  ghost predicate Apart(calls: seq<Call>, results: seq<Option<nat>>) {
    forall i: nat, j: nat :: i < j < |results| && !Returned(calls, i, j) ==>
      BlockOf(calls, results, i) !! BlockOf(calls, results, j)
  }

  /** One request. */
  method Request(fa: FrameAllocator, cpu: nat, n: nat) returns (r: Option<nat>)
    requires fa.Valid() && cpu < MAX_CPUS
    modifies fa, fa.buddy, fa.buddy.bits, fa.mags, fa.mags.frames, fa.mags.tops
    ensures fa.Valid() && fa.managed == old(fa.managed)
    ensures r.None? ==> fa.outstanding == old(fa.outstanding)
    ensures r.Some? ==> n > 0 && r.value % PAGE_SIZE == 0 && InMemory(BlockAt(r.value, AllocOrder(n)))
    ensures r.Some? ==>
      var block := FramesOf(BlockAt(r.value, AllocOrder(n)));
      block <= fa.managed && block !! old(fa.outstanding) && fa.outstanding == old(fa.outstanding) + block
  {
    hide FramesOf, Pow2, AllocOrder, FreeFrames, Canonical, Partition, Cached, Aligned;
    r := fa.AllocFrames(cpu, n);
    if r.Some? && n == 1 { OneIsOneFrame(r.value); }
  }

  /** One return of a block that is outstanding. */
  method Return(fa: FrameAllocator, cpu: nat, phys: nat, n: nat)
    requires fa.Valid() && cpu < MAX_CPUS && n > 0 && phys % PAGE_SIZE == 0
    requires InMemory(BlockAt(phys, AllocOrder(n))) && FramesOf(BlockAt(phys, AllocOrder(n))) <= fa.outstanding
    modifies fa, fa.buddy, fa.buddy.bits, fa.mags, fa.mags.frames, fa.mags.tops
    ensures fa.Valid() && fa.managed == old(fa.managed)
    ensures fa.outstanding == old(fa.outstanding) - FramesOf(BlockAt(phys, FreeOrder(n)))
  {
    hide FramesOf, Pow2, AllocOrder, FreeOrder, FreeFrames, Canonical, Partition, Cached, Aligned;
    FreeOrderAtMost(n);
    PartOfBlock(phys, FreeOrder(n), AllocOrder(n));
    fa.FreeFramesN(cpu, phys, n);
  }

  // ---- What one call does to the account ----

  lemma Prefixes(calls: seq<Call>, results: seq<Option<nat>>, r: Option<nat>)
    requires |results| < |calls|
    ensures forall i: nat :: i < |results| ==>
      && BlockOf(calls, results + [r], i) == BlockOf(calls, results, i)
      && PartOf(calls, results + [r], i) == PartOf(calls, results, i)
  {
    hide FramesOf, BlockAt, AllocOrder, FreeOrder;
  }

  lemma ReturnedNext(calls: seq<Call>, i: nat, n: nat)
    requires n < |calls|
    ensures Returned(calls, i, n + 1) <==> Returned(calls, i, n) || (i < n && calls[n].GiveBack? && calls[n].i == i)
  {
    if i < n && calls[n].GiveBack? && calls[n].i == i { assert Returned(calls, i, n + 1); }
  }

  /** A return that finds nothing to give back. */
  lemma NothingHappens(start: set<nat>, out: set<nat>, calls: seq<Call>, results: seq<Option<nat>>)
    requires |results| < |calls| && Accounted(start, out, Rests(calls, results)) && Apart(calls, results)
    requires calls[|results|].GiveBack?
    requires !Got(calls, results, calls[|results|].i) || Returned(calls, calls[|results|].i, |results|)
    ensures Accounted(start, out, Rests(calls, results + [None])) && Apart(calls, results + [None])
  {
    hide Returned, BlockOf, PartOf, Accounted;
    var n, more := |results|, results + [None];
    Prefixes(calls, results, None);
    NoBlock(calls, more, n);
    NotYet(calls, n);
    assert Remains(calls, more, n, n + 1) == {};
    forall i: nat | i < n ensures Remains(calls, more, i, n + 1) == Remains(calls, results, i, n) {
      ReturnedNext(calls, i, n);
      if !Got(calls, results, i) { NoBlock(calls, results, i); }
    }
    OneMore(start, out, Rests(calls, results), {});
    assert out + {} == out;
    assert Rests(calls, more) == Rests(calls, results) + [{}];
  }

  lemma NoBlock(calls: seq<Call>, results: seq<Option<nat>>, i: nat)
    requires !Got(calls, results, i)
    ensures BlockOf(calls, results, i) == {}
  {
  }

  lemma Requested(start: set<nat>, out: set<nat>, calls: seq<Call>, results: seq<Option<nat>>, r: Option<nat>)
    requires |results| < |calls| && Accounted(start, out, Rests(calls, results)) && Apart(calls, results)
    requires calls[|results|].Ask? && BlockOf(calls, results + [r], |results|) !! out
    ensures var block := BlockOf(calls, results + [r], |results|);
      Accounted(start, out + block, Rests(calls, results + [r])) && Apart(calls, results + [r])
  {
    hide Returned, BlockOf, PartOf;
    var n, more := |results|, results + [r];
    var block := BlockOf(calls, more, n);
    Prefixes(calls, results, r);
    forall i: nat | i < n ensures Remains(calls, more, i, n + 1) == Remains(calls, results, i, n) {
      ReturnedNext(calls, i, n);
    }
    NotYet(calls, n);
    OneMore(start, out, Rests(calls, results), block);
    assert Rests(calls, more) == Rests(calls, results) + [block];
    forall i: nat | i < n && !Returned(calls, i, n) ensures BlockOf(calls, more, i) !! block {
      assert Rests(calls, results)[i] == BlockOf(calls, results, i);
    }
  }

  lemma NotYet(calls: seq<Call>, n: nat)
    ensures !Returned(calls, n, n + 1)
  {
  }

  lemma GivenBack(start: set<nat>, out: set<nat>, calls: seq<Call>, results: seq<Option<nat>>, b: nat)
    requires |results| < |calls| && Accounted(start, out, Rests(calls, results)) && Apart(calls, results)
    requires calls[|results|] == GiveBack(calls[|results|].cpu, b) && Got(calls, results, b)
    requires !Returned(calls, b, |results|) && PartOf(calls, results, b) <= BlockOf(calls, results, b)
    ensures Accounted(start, out - PartOf(calls, results, b), Rests(calls, results + [None]))
    ensures Apart(calls, results + [None])
  {
    hide Returned, BlockOf, PartOf, Accounted;
    var n, more, part := |results|, results + [None], PartOf(calls, results, b);
    var rests := Rests(calls, results);
    Prefixes(calls, results, None);
    NoBlock(calls, more, n);
    NotYet(calls, n);
    assert Remains(calls, more, n, n + 1) == {};
    assert rests[b] == BlockOf(calls, results, b);
    forall i: nat | i < n ensures Remains(calls, more, i, n + 1) == if i == b then rests[i] - part else rests[i] {
      ReturnedNext(calls, i, n);
    }
    OneLess(start, out, rests, b, part);
    OneMore(start, out - part, rests[b := rests[b] - part], {});
    assert out - part + {} == out - part;
    assert Rests(calls, more) == rests[b := rests[b] - part] + [{}];
  }

  lemma StillOut(start: set<nat>, out: set<nat>, calls: seq<Call>, results: seq<Option<nat>>, b: nat)
    requires Accounted(start, out, Rests(calls, results)) && b < |results| && !Returned(calls, b, |results|)
    ensures BlockOf(calls, results, b) <= out
  {
    assert Rests(calls, results)[b] == BlockOf(calls, results, b);
  }

  lemma PartInBlock(calls: seq<Call>, results: seq<Option<nat>>, b: nat)
    requires Got(calls, results, b) && InMemory(BlockAt(results[b].value, AllocOrder(calls[b].n)))
    ensures PartOf(calls, results, b) <= BlockOf(calls, results, b)
    ensures PartOf(calls, results, b) == BlockOf(calls, results, b) <==>
      IsPowerOfTwo(calls[b].n) || calls[b].n >= Pow2(MAX_ORDER)
  {
    hide FramesOf, Pow2, AllocOrder, FreeOrder, BlockAt, IsPowerOfTwo;
    var phys, n := results[b].value, calls[b].n;
    var big, small := AllocOrder(n), FreeOrder(n);
    FreeOrderAtMost(n);
    PartOfBlock(phys, small, big);
    OrdersAgree(n);
    BlockSize(BlockAt(phys, big));
    BlockSize(BlockAt(phys, small));
    OfOrder(phys, big);
    OfOrder(phys, small);
    Pow2Injective(small, big);
  }

  lemma OfOrder(phys: nat, order: nat)
    ensures BlockAt(phys, order).order == order
  {
  }

  // ---- Runs ----

  /** Every block lies in memory and consists of managed frames. */
  ghost predicate Sound(calls: seq<Call>, results: seq<Option<nat>>, managed: set<nat>) {
    forall i: nat :: Got(calls, results, i) ==>
      && results[i].value % PAGE_SIZE == 0 && InMemory(BlockAt(results[i].value, AllocOrder(calls[i].n)))
      && BlockOf(calls, results, i) <= managed
  }

  /** Any run, on any CPUs. A call that gives back what is not held, or not any more, does nothing. */
  method Replay(fa: FrameAllocator, calls: seq<Call>) returns (results: seq<Option<nat>>)
    requires fa.Valid() && forall i :: 0 <= i < |calls| ==> calls[i].cpu < MAX_CPUS
    modifies fa, fa.buddy, fa.buddy.bits, fa.mags, fa.mags.frames, fa.mags.tops
    ensures fa.Valid() && fa.managed == old(fa.managed) && |results| == |calls|
    ensures Apart(calls, results) && Sound(calls, results, fa.managed)
    ensures Accounted(old(fa.outstanding), fa.outstanding, Rests(calls, results))
    ensures fa.totalFree + |fa.outstanding| == |fa.managed|
  {
    hide Apart, Accounted, Rests, BlockOf, PartOf, Returned, FramesOf, Pow2, AllocOrder, FreeOrder, BlockAt;
    hide FreeFrames, Canonical, Partition, Cached, Aligned;
    results := [];
    var held: set<nat> := {};
    ghost var start := fa.outstanding;
    NothingYet(start, calls);
    for n := 0 to |calls|
      invariant fa.Valid() && fa.managed == old(fa.managed) && |results| == n
      invariant Apart(calls, results) && Sound(calls, results, fa.managed)
      invariant Accounted(start, fa.outstanding, Rests(calls, results))
      invariant forall i :: i in held <==> Got(calls, results, i) && !Returned(calls, i, n)
    {
      ghost var out := fa.outstanding;
      forall i: nat { ReturnedNext(calls, i, n); }
      NotYet(calls, n);
      match calls[n] {
        case Ask(cpu, count) =>
          var r := Request(fa, cpu, count);
          IsBlock(calls, results + [r], n);
          Prefixes(calls, results, r);
          Requested(start, out, calls, results, r);
          assert fa.outstanding == out + BlockOf(calls, results + [r], n);
          results := results + [r];
          if r.Some? { held := held + {n}; }
        case GiveBack(cpu, i) =>
          Prefixes(calls, results, None);
          if i in held {
            StillOut(start, out, calls, results, i);
            IsBlock(calls, results, i);
            PartInBlock(calls, results, i);
            Return(fa, cpu, results[i].value, calls[i].n);
            GivenBack(start, out, calls, results, i);
            held := held - {i};
          } else {
            NothingHappens(start, out, calls, results);
          }
          results := results + [None];
      }
    }
    fa.AddUp();
  }

  lemma NothingYet(start: set<nat>, calls: seq<Call>)
    ensures Apart(calls, []) && Accounted(start, start, Rests(calls, []))
  {
  }

  lemma IsBlock(calls: seq<Call>, results: seq<Option<nat>>, i: nat)
    ensures Got(calls, results, i) ==>
      && BlockOf(calls, results, i) == FramesOf(BlockAt(results[i].value, AllocOrder(calls[i].n)))
      && PartOf(calls, results, i) == FramesOf(BlockAt(results[i].value, FreeOrder(calls[i].n)))
    ensures !Got(calls, results, i) ==> BlockOf(calls, results, i) == {}
  {
  }

  /**
   When everything that was got has been given back, the allocator is as it was exactly when
   every request was for a power of two, or for the largest block or more.
   */
  lemma NoLeakIff(start: set<nat>, out: set<nat>, calls: seq<Call>, results: seq<Option<nat>>, managed: set<nat>)
    requires Accounted(start, out, Rests(calls, results)) && Sound(calls, results, managed)
    requires |results| == |calls| && forall i: nat :: Got(calls, results, i) ==> Returned(calls, i, |calls|)
    ensures out == start <==>
      forall i: nat :: Got(calls, results, i) ==> IsPowerOfTwo(calls[i].n) || calls[i].n >= Pow2(MAX_ORDER)
  {
    hide Returned, BlockOf, PartOf, Pow2, IsPowerOfTwo, AllocOrder, BlockAt;
    var rests := Rests(calls, results);
    forall i: nat | i < |results|
      ensures if Got(calls, results, i)
              then rests[i] == {} <==> IsPowerOfTwo(calls[i].n) || calls[i].n >= Pow2(MAX_ORDER)
              else rests[i] == {}
    {
      if Got(calls, results, i) {
        PartInBlock(calls, results, i);
        var block, part := BlockOf(calls, results, i), PartOf(calls, results, i);
        assert rests[i] == block - part;
        assert block == part + rests[i];
      } else {
        NoBlock(calls, results, i);
        assert rests[i] == {};
      }
    }
    EmptyRests(start, out, rests);
  }

  lemma EmptyRests(start: set<nat>, out: set<nat>, rests: seq<set<nat>>)
    requires Accounted(start, out, rests)
    ensures out == start <==> forall i :: 0 <= i < |rests| ==> rests[i] == {}
  {
    if out == start {
      forall i | 0 <= i < |rests| ensures rests[i] == {} { assert rests[i] <= start && rests[i] !! start; }
    }
  }
}
