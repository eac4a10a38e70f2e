/**
 The physical frame allocator's global layer: one bitmap per order, a set bit for each
 free block. The class works on the words; its contracts speak of the set of free blocks.
 */
module BuddyAllocator {
  import opened Wrappers
  import opened Words
  import opened BuddyBlocks

  const BITMAP_WORDS := MAX_FRAMES / WORD

  lemma MemorySize()
    ensures Pow2(FRAME_BITS) == MAX_FRAMES
  {
    assert Pow2(10) == 1024;
    assert Pow2(15) == 0x8000;
  }

  /** The block of `2^order` frames at a physical address. */
  function BlockAt(phys: nat, order: nat): Block {
    Block(order, phys / PAGE_SIZE / Pow2(order))
  }

  function Address(b: Block): nat {
    b.index * Pow2(b.order) * PAGE_SIZE
  }

  lemma AddressRoundTrip(b: Block)
    ensures BlockAt(Address(b), b.order) == b
  {
    var p := Pow2(b.order);
    assert Address(b) / PAGE_SIZE == b.index * p;
    MultipleOverFactor(b.index, p);
  }

  lemma QuotientUnique(i: int, p: int, q: int, r: int)
    requires p > 0 && i * p == q * p + r && 0 <= r < p
    ensures i == q
  {
    assert (i - q) * p == r;
    if i > q { AtLeastOnce(i - q, p); }
    if i < q { AtLeastOnce(q - i, p); }
  }

  lemma MultipleOverFactor(i: nat, p: nat)
    requires p > 0
    ensures i * p / p == i
  {
    var x := i * p;
    assert x == x / p * p + x % p;
    QuotientUnique(i, p, x / p, x % p);
  }

  lemma SingleFrame(f: nat)
    requires f < MAX_FRAMES
    ensures BlockAt(f * PAGE_SIZE, 0) == Block(0, f) && InMemory(Block(0, f))
    ensures FramesOf(Block(0, f)) == {f} && forall g: nat :: Holds(Block(0, f), g) <==> g == f
  {
    MemorySize();
    FramesOfFrame(Block(0, f));
  }

  lemma IndexInMemory(b: Block)
    requires InMemory(b)
    ensures b.order <= MAX_ORDER && b.index < MAX_FRAMES
  {
    MemorySize();
    if b.order > 0 { Pow2Increases(FRAME_BITS - b.order, FRAME_BITS); }
  }

  /** `t` is what is free, and `phys` what was allocated, after cutting `b` out of `s`. */
  ghost predicate Taken(s: set<Block>, b: Block, order: nat, t: set<Block>, phys: nat) {
    BestFit(s, order, b) && t == Carve(s - {b}, b, order).0 && phys == Address(Carve(s - {b}, b, order).1)
  }

  /** Block `a` moved from the free set `s` into use, leaving `t`, and can be put back. */
  ghost predicate Allocated(s: set<Block>, a: Block, t: set<Block>) {
    && InMemory(a) && AllFree(s, a) && NoneFree(t, a)
    && FreeFrames(s) == FreeFrames(t) + FramesOf(a)
    && Release(t, a) == s
  }

  lemma TakenAllocated(s: set<Block>, b: Block, order: nat, t: set<Block>, phys: nat)
    requires Canonical(s) && Taken(s, b, order, t, phys)
    ensures Canonical(t) && Allocated(s, BlockAt(phys, order), t)
    ensures |FreeFrames(s)| == |FreeFrames(t)| + Pow2(order)
    ensures exists a: Block :: a.order == order && InMemory(a) && AllFree(s, a)
  {
    hide Canonical, FreeFrames, AllFree, NoneFree, Pow2, Carve;
    var a := Carve(s - {b}, b, order).1;
    TakeKeeps(s, b, order);
    CarveThenRelease(s, b, order);
    AddressRoundTrip(a);
  }

  lemma NoneFits(s: set<Block>, order: nat)
    requires Canonical(s) && forall b :: b in s && order <= b.order ==> b.order > MAX_ORDER
    ensures forall a: Block :: a.order == order && InMemory(a) ==> !AllFree(s, a)
  {
    if order <= MAX_ORDER { RunFreeIffBlock(s, order); }
  }

  lemma BestFitInMemory(s: set<Block>, order: nat, b: Block)
    requires Canonical(s) && BestFit(s, order, b)
    ensures InMemory(b) && b.index < MAX_FRAMES
  {
    IndexInMemory(b);
  }

  class BuddyAlloc {
    const bits: array2<nat>
    var totalFrames: nat
    var freeFrames: nat

    ghost predicate Shape()
      reads bits
    {
      && bits.Length0 == MAX_ORDER + 1 && bits.Length1 == BITMAP_WORDS
      && forall o, w :: 0 <= o <= MAX_ORDER && 0 <= w < BITMAP_WORDS ==> bits[o, w] < Pow2(WORD)
    }

    predicate IsFree(o: nat, i: nat)
      reads bits
      requires bits.Length0 == MAX_ORDER + 1 && bits.Length1 == BITMAP_WORDS
      requires o <= MAX_ORDER && i < MAX_FRAMES
    {
      Bit(bits[o, i / WORD], i % WORD)
    }

    /** The free blocks. */
    ghost function Blocks(): set<Block>
      reads bits
      requires Shape()
    {
      set o: nat, i: nat | o <= MAX_ORDER && i < MAX_FRAMES && IsFree(o, i) :: Block(o, i)
    }

    ghost predicate Valid()
      reads this, bits
    {
      && Shape()
      && Canonical(Blocks())
      && freeFrames == |FreeFrames(Blocks())|
    }

    constructor ()
      ensures Valid() && fresh(bits) && Blocks() == {} && totalFrames == 0
    {
      bits := new nat[MAX_ORDER + 1, BITMAP_WORDS]((_, _) => 0);
      totalFrames, freeFrames := 0, 0;
      new;
      forall o: nat, i: nat | o <= MAX_ORDER && i < MAX_FRAMES ensures !IsFree(o, i) { ZeroHasNoBits(i % WORD); }
      assert Blocks() == {};
      assert FreeFrames({}) == {};
    }

    lemma InBlocks(b: Block)
      requires Shape()
      ensures b in Blocks() <==> b.order <= MAX_ORDER && b.index < MAX_FRAMES && IsFree(b.order, b.index)
    {
    }

    method SetFree(o: nat, i: nat)
      requires Shape() && o <= MAX_ORDER && i < MAX_FRAMES
      modifies bits
      ensures Shape() && Blocks() == old(Blocks()) + {Block(o, i)}
    {
      hide Or, Pow2, Bit;
      ghost var word := bits[o, i / WORD];
      Pow2Increases(i % WORD, WORD);
      OrFits(bits[o, i / WORD], Pow2(i % WORD), WORD);
      bits[o, i / WORD] := Or(bits[o, i / WORD], Pow2(i % WORD));
      forall p: nat, j: nat | p <= MAX_ORDER && j < MAX_FRAMES
        ensures IsFree(p, j) <==> (p == o && j == i) || old(IsFree(p, j))
      {
        if p == o && j / WORD == i / WORD { SetBit(word, i % WORD, j % WORD); }
      }
    }

    method ClrFree(o: nat, i: nat)
      requires Shape() && o <= MAX_ORDER && i < MAX_FRAMES
      modifies bits
      ensures Shape() && Blocks() == old(Blocks()) - {Block(o, i)}
    {
      hide AndNot, Pow2, Bit;
      ghost var word := bits[o, i / WORD];
      AndNotFits(bits[o, i / WORD], Pow2(i % WORD));
      bits[o, i / WORD] := AndNot(bits[o, i / WORD], Pow2(i % WORD));
      forall p: nat, j: nat | p <= MAX_ORDER && j < MAX_FRAMES
        ensures IsFree(p, j) <==> !(p == o && j == i) && old(IsFree(p, j))
      {
        if p == o && j / WORD == i / WORD { ClearBit(word, i % WORD, j % WORD); }
      }
    }

    /** The lowest set bit of a row: the first word that is not zero, and its lowest bit. */
    method FindFree(o: nat) returns (r: Option<nat>)
      requires Shape() && o <= MAX_ORDER
      ensures r.None? ==> forall i: nat :: i < Pow2(FRAME_BITS - o) && i < MAX_FRAMES ==> !IsFree(o, i)
      ensures r.Some? ==> r.value < MAX_FRAMES && IsFree(o, r.value)
      ensures r.Some? ==> forall i: nat :: i < r.value ==> !IsFree(o, i)
    {
      hide Bit, TrailingZeros, Pow2;
      var max := Pow2(FRAME_BITS - o) / WORD + 1;
      for w := 0 to Min(max, BITMAP_WORDS)
        invariant forall i: nat :: i < w * WORD ==> !IsFree(o, i)
      {
        if bits[o, w] != 0 {
          var k := TrailingZeros(bits[o, w]);
          TrailingZerosFits(bits[o, w], WORD);
          assert (w * WORD + k) / WORD == w && (w * WORD + k) % WORD == k;
          forall i: nat | w * WORD <= i < w * WORD + k ensures !IsFree(o, i) {
            assert i / WORD == w && i % WORD == i - w * WORD;
          }
          return Some(w * WORD + k);
        }
        forall i: nat | w * WORD <= i < (w + 1) * WORD ensures !IsFree(o, i) {
          assert i / WORD == w;
          ZeroHasNoBits(i % WORD);
        }
      }
      r := None;
    }

    /** Cut a block that has just been taken down to `order`, freeing right halves. */
    method SplitDown(o: nat, idx: nat, order: nat) returns (cur: nat)
      requires Shape() && order <= o && InMemory(Block(o, idx))
      modifies bits
      ensures Shape()
      ensures (Blocks(), Block(order, cur)) == Carve(old(Blocks()), Block(o, idx), order)
    {
      hide Pow2, Blocks, Bit, Carve, InMemory;
      var so := o;
      cur := idx;
      while so > order
        invariant order <= so <= o && 0 <= cur && Shape() && InMemory(Block(so, cur))
        invariant Carve(Blocks(), Block(so, cur), order) == Carve(old(Blocks()), Block(o, idx), order)
      {
        HalvesInMemory(Block(so, cur));
        IndexInMemory(RightHalf(Block(so, cur)));
        CarveStep(Blocks(), Block(so, cur), order);
        so := so - 1;
        SetFree(so, cur * 2 + 1);
        cur := cur * 2;
      }
      CarveDone(Blocks(), Block(order, cur));
    }

    /** Take block `o`, `idx` out of the bitmaps and cut it down to `order`. */
    method TakeBlock(o: nat, idx: nat, order: nat) returns (phys: nat)
      requires Valid() && order <= o && BestFit(Blocks(), order, Block(o, idx))
      modifies this, bits
      ensures Valid() && totalFrames == old(totalFrames)
      ensures Taken(old(Blocks()), Block(o, idx), order, Blocks(), phys)
    {
      hide Pow2, Blocks, Bit, Canonical, FreeFrames, Address, Allocated, Carve, InMemory;
      ghost var was := Blocks();
      BestFitInMemory(was, order, Block(o, idx));
      ClrFree(o, idx);
      var cur := SplitDown(o, idx, order);
      var frames := Pow2(order);
      phys := Address(Block(order, cur));
      TakenAllocated(was, Block(o, idx), order, Blocks(), phys);
      if freeFrames >= frames { freeFrames := freeFrames - frames; }
    }

    /**
     Allocate `2^order` frames: cut the best fitting free block. Fails exactly when no
     aligned run of that many frames is free; giving the block back restores the free set.
     */
    method Alloc(order: nat) returns (r: Option<nat>)
      requires Valid()
      modifies this, bits
      ensures Valid() && totalFrames == old(totalFrames)
      ensures r.None? <==> forall a: Block :: a.order == order && InMemory(a) ==> !AllFree(old(Blocks()), a)
      ensures r.None? ==> Blocks() == old(Blocks()) && freeFrames == old(freeFrames)
      ensures r.Some? ==> exists b :: Taken(old(Blocks()), b, order, Blocks(), r.value)
      ensures r.Some? ==> Allocated(old(Blocks()), BlockAt(r.value, order), Blocks())
    {
      hide Pow2, Blocks, Bit, Canonical, FreeFrames, Allocated, Carve, AllFree;
      ghost var was := Blocks();
      var o := order;
      while o <= MAX_ORDER
        invariant Valid() && Blocks() == was && totalFrames == old(totalFrames) && freeFrames == old(freeFrames)
        invariant order <= o && forall b :: b in was && order <= b.order ==> o <= b.order
      {
        var found := FindFree(o);
        if found.Some? {
          FoundIsBest(o, found.value, order);
          var phys := TakeBlock(o, found.value, order);
          TakenAllocated(was, Block(o, found.value), order, Blocks(), phys);
          return Some(phys);
        }
        NothingFound(o);
        o := o + 1;
      }
      NoneFits(was, order);
      r := None;
    }

    lemma FoundIsBest(o: nat, idx: nat, order: nat)
      requires Valid() && order <= o <= MAX_ORDER && idx < MAX_FRAMES && IsFree(o, idx)
      requires forall i: nat :: i < idx ==> !IsFree(o, i)
      requires forall b :: b in Blocks() && order <= b.order ==> o <= b.order
      ensures BestFit(Blocks(), order, Block(o, idx))
    {
      hide Canonical, IsFree;
      InBlocks(Block(o, idx));
      forall c | c in Blocks() && c.order == o ensures idx <= c.index { InBlocks(c); }
    }

    lemma NothingFound(o: nat)
      requires Valid() && o <= MAX_ORDER
      requires forall i: nat :: i < Pow2(FRAME_BITS - o) && i < MAX_FRAMES ==> !IsFree(o, i)
      ensures forall b :: b in Blocks() ==> b.order != o
    {
      hide Pow2, IsFree;
      forall b | b in Blocks() ensures b.order != o { InBlocks(b); }
    }

    /** Give back the block of `2^order` frames at `phys`, merging as far as possible. */
    method Free(phys: nat, order: nat)
      requires Valid() && InMemory(BlockAt(phys, order)) && NoneFree(Blocks(), BlockAt(phys, order))
      modifies this, bits
      ensures Valid() && totalFrames == old(totalFrames)
      ensures Blocks() == Release(old(Blocks()), BlockAt(phys, order))
      ensures FreeFrames(Blocks()) == FreeFrames(old(Blocks())) + FramesOf(BlockAt(phys, order))
    {
      hide Pow2, Blocks, Bit, Canonical, FreeFrames, NoneFree;
      ghost var was, b := Blocks(), BlockAt(phys, order);
      var frames := Pow2(order);
      freeFrames := freeFrames + frames;
      ReleaseKeeps(was, b);
      ReleaseCounts(was, b);
      var idx: nat, o: nat := phys / PAGE_SIZE / frames, order;
      while true
        invariant Shape() && order <= o && InMemory(Block(o, idx))
        invariant Release(Blocks(), Block(o, idx)) == Release(was, b)
        invariant freeFrames == old(freeFrames) + frames && totalFrames == old(totalFrames)
        decreases MAX_ORDER - o
      {
        IndexInMemory(Block(o, idx));
        var buddy := Sibling(idx);
        if o < MAX_ORDER {
          BuddyInMemory(Block(o, idx));
          IndexInMemory(Block(o, buddy));
          InBlocks(Block(o, buddy));
        }
        if o >= MAX_ORDER || !IsFree(o, buddy) {
          SetFree(o, idx);
          break;
        }
        ParentInMemory(Block(o, idx));
        ClrFree(o, buddy);
        idx, o := idx / 2, o + 1;
      }
    }

    /** Put the frames `first..first + count` under management, one by one. */
    method AddRange(first: nat, count: nat)
      requires Valid() && first + count <= MAX_FRAMES
      requires forall f :: first <= f < first + count ==> !Covered(Blocks(), f)
      modifies this, bits
      ensures Valid() && totalFrames == old(totalFrames) + count
      ensures forall f: nat :: f in FreeFrames(Blocks()) <==>
        f in FreeFrames(old(Blocks())) || first <= f < first + count
    {
      hide Pow2, Blocks, Bit, Canonical, FreeFrames;
      for f := first to first + count
        invariant Valid() && totalFrames == old(totalFrames)
        invariant forall g: nat :: Covered(Blocks(), g) <==> Covered(old(Blocks()), g) || first <= g < f
        invariant forall g: nat :: g in FreeFrames(Blocks()) <==> g in FreeFrames(old(Blocks())) || first <= g < f
      {
        SingleFrame(f);
        ReleaseKeeps(Blocks(), Block(0, f));
        Free(f * PAGE_SIZE, 0);
      }
      totalFrames := totalFrames + count;
    }
  }
}
