/**
 The theory of a buddy allocator's free blocks. A block of order `o` and index `i` holds
 the frames whose number, halved `o` times, is `i`. A set of free blocks is canonical
 when its blocks are disjoint and no two of them could be merged.
 */
module BuddyBlocks {
  import opened Words

  const MAX_ORDER := 11
  const FRAME_BITS := 20

  datatype Block = Block(order: nat, index: nat)

  /** `i` halved `k` times: the index, `k` orders up, of the block that contains block `i`. */
  function Up(i: nat, k: nat): nat
    decreases k
  {
    if k == 0 then i else Up(i / 2, k - 1)
  }

  /** The first block, `k` orders down, of block `i`. */
  function Down(i: nat, k: nat): nat
    decreases k
  {
    if k == 0 then i else Down(2 * i, k - 1)
  }

  predicate Holds(b: Block, f: nat) {
    Up(f, b.order) == b.index
  }

  /** `a` is `b` or a block that `b` is a part of. */
  predicate Contains(a: Block, b: Block) {
    a.order >= b.order && Up(b.index, a.order - b.order) == a.index
  }

  function Sibling(i: nat): nat {
    if i % 2 == 0 then i + 1 else i - 1
  }

  function Buddy(b: Block): Block {
    Block(b.order, Sibling(b.index))
  }

  predicate InMemory(b: Block) {
    b.order <= MAX_ORDER && b.index < Pow2(FRAME_BITS - b.order)
  }

  ghost predicate Covered(s: set<Block>, f: nat) {
    exists b :: b in s && Holds(b, f)
  }

  ghost predicate Disjoint(s: set<Block>) {
    forall a, b, f: nat :: a in s && b in s && Holds(a, f) && Holds(b, f) ==> a == b
  }

  /** No two buddies are free side by side below the top order. */
  ghost predicate Coalesced(s: set<Block>) {
    forall b :: b in s && b.order < MAX_ORDER ==> Buddy(b) !in s
  }

  ghost predicate Canonical(s: set<Block>) {
    && (forall b :: b in s ==> InMemory(b))
    && Disjoint(s)
    && Coalesced(s)
  }

  /** Every frame of `b` is free. */
  ghost predicate AllFree(s: set<Block>, b: Block) {
    forall f: nat :: Holds(b, f) ==> Covered(s, f)
  }

  /** No frame of `b` is free. */
  ghost predicate NoneFree(s: set<Block>, b: Block) {
    forall f: nat :: Holds(b, f) ==> !Covered(s, f)
  }

  lemma {:induction false} UpAdd(i: nat, a: nat, b: nat)
    ensures Up(i, a + b) == Up(Up(i, a), b)
    decreases a
  {
    if a == 0 {
    } else {
      UpAdd(i / 2, a - 1, b);
    }
  }

  lemma UpLast(i: nat, k: nat)
    ensures Up(i, k + 1) == Up(i, k) / 2
  {
    UpAdd(i, k, 1);
    assert Up(Up(i, k), 1) == Up(Up(i, k) / 2, 0);
  }

  lemma {:induction false} UpDown(i: nat, k: nat)
    ensures Up(Down(i, k), k) == i
    decreases k
  {
    if k == 0 {
    } else {
      UpDown(2 * i, k - 1);
      UpLast(Down(i, k), k - 1);
    }
  }

  /** Every block holds a frame. */
  lemma HoldsFirst(b: Block)
    ensures Holds(b, Down(b.index, b.order))
  {
    UpDown(b.index, b.order);
  }

  lemma ContainsHolds(a: Block, b: Block, f: nat)
    requires Contains(a, b) && Holds(b, f)
    ensures Holds(a, f)
  {
    UpAdd(f, b.order, a.order - b.order);
  }

  /** Of two blocks that share a frame the larger contains the smaller. */
  lemma NestedOrApart(a: Block, b: Block, f: nat)
    requires Holds(a, f) && Holds(b, f) && a.order >= b.order
    ensures Contains(a, b)
  {
    UpAdd(f, b.order, a.order - b.order);
  }

  function LeftHalf(b: Block): Block
    requires b.order > 0
  {
    Block(b.order - 1, 2 * b.index)
  }

  function RightHalf(b: Block): Block
    requires b.order > 0
  {
    Block(b.order - 1, 2 * b.index + 1)
  }

  /** A block is made of its two halves, which are buddies of each other. */
  lemma Halves(b: Block, f: nat)
    requires b.order > 0
    ensures Holds(b, f) <==> Holds(LeftHalf(b), f) || Holds(RightHalf(b), f)
    ensures !(Holds(LeftHalf(b), f) && Holds(RightHalf(b), f))
    ensures Buddy(LeftHalf(b)) == RightHalf(b) && Buddy(RightHalf(b)) == LeftHalf(b)
  {
    UpLast(f, b.order - 1);
  }

  /** The block two buddies merge into. */
  function Parent(b: Block): Block {
    Block(b.order + 1, b.index / 2)
  }

  lemma ParentHolds(b: Block, f: nat)
    ensures Holds(Parent(b), f) <==> Holds(b, f) || Holds(Buddy(b), f)
  {
    UpLast(f, b.order);
  }

  lemma ParentInMemory(b: Block)
    requires InMemory(b) && b.order < MAX_ORDER
    ensures InMemory(Parent(b))
  {
    hide Pow2;
    Pow2Doubles(FRAME_BITS - b.order - 1);
  }

  lemma BuddyInMemory(b: Block)
    requires InMemory(b) && b.order < MAX_ORDER
    ensures InMemory(Buddy(b)) && Buddy(Buddy(b)) == b && Buddy(b) != b
  {
    hide Pow2;
    Pow2Doubles(FRAME_BITS - b.order - 1);
  }

  lemma HalvesInMemory(b: Block)
    requires InMemory(b) && b.order > 0
    ensures InMemory(LeftHalf(b)) && InMemory(RightHalf(b))
  {
    hide Pow2;
    Pow2Doubles(FRAME_BITS - b.order);
  }

  /**
   In a canonical set an aligned run of free frames always lies inside one free block:
   this is what maximal merging is for.
   */
  lemma {:induction false} FreeRunInOneBlock(s: set<Block>, b: Block)
    requires Canonical(s) && b.order <= MAX_ORDER && AllFree(s, b)
    ensures exists c :: c in s && Contains(c, b)
    decreases b.order
  {
    if b.order == 0 {
      assert Holds(b, b.index);
      var c :| c in s && Holds(c, b.index);
      NestedOrApart(c, b, b.index);
    } else {
      var l, r := LeftHalf(b), RightHalf(b);
      forall f: nat | Holds(l, f) || Holds(r, f) ensures Covered(s, f) { Halves(b, f); }
      FreeRunInOneBlock(s, l);
      FreeRunInOneBlock(s, r);
      var x :| x in s && Contains(x, l);
      var y :| y in s && Contains(y, r);
      OneHoldsBothHalves(s, b, x, y);
    }
  }

  /** Two free blocks that contain the halves of `b` cannot both be just those halves. */
  lemma OneHoldsBothHalves(s: set<Block>, b: Block, x: Block, y: Block)
    requires Coalesced(s) && x in s && y in s && 0 < b.order <= MAX_ORDER
    requires Contains(x, LeftHalf(b)) && Contains(y, RightHalf(b))
    ensures Contains(x, b) || Contains(y, b)
  {
    if x.order >= b.order {
      UpOfHalf(b.index, x.order - b.order);
    } else if y.order >= b.order {
      UpOfHalf(b.index, y.order - b.order);
    } else {
      Halves(b, 0);
    }
  }

  lemma UpOfHalf(i: nat, k: nat)
    ensures Up(2 * i, k + 1) == Up(i, k) && Up(2 * i + 1, k + 1) == Up(i, k)
  {
  }

  /** Free frames determine the blocks: two canonical sets that cover the same frames are equal. */
  lemma CanonicalUnique(s: set<Block>, t: set<Block>)
    requires Canonical(s) && Canonical(t)
    requires forall f: nat :: Covered(s, f) <==> Covered(t, f)
    ensures s == t
  {
    forall b | b in s ensures b in t { BlockShared(s, t, b); }
    forall b | b in t ensures b in s { BlockShared(t, s, b); }
  }

  lemma BlockShared(s: set<Block>, t: set<Block>, b: Block)
    requires Canonical(s) && Canonical(t)
    requires forall f: nat :: Covered(s, f) <==> Covered(t, f)
    requires b in s
    ensures b in t
  {
    forall f: nat | Holds(b, f) ensures Covered(t, f) { assert Covered(s, f); }
    FreeRunInOneBlock(t, b);
    var c :| c in t && Contains(c, b);
    forall f: nat | Holds(c, f) ensures Covered(s, f) { assert Covered(t, f); }
    FreeRunInOneBlock(s, c);
    var d :| d in s && Contains(d, c);
    HoldsFirst(b);
    var f := Down(b.index, b.order);
    ContainsHolds(c, b, f);
    ContainsHolds(d, c, f);
    assert b == d;
  }

  /** Give block `b` back: merge with its buddy as long as that is free and the top order is not reached. */
  ghost function Release(s: set<Block>, b: Block): set<Block>
    requires b.order <= MAX_ORDER
    decreases MAX_ORDER - b.order
  {
    if b.order >= MAX_ORDER || Buddy(b) !in s then s + {b}
    else Release(s - {Buddy(b)}, Parent(b))
  }

  /** Cut block `b`, which is not in `s`, down to `order`: right halves become free. */
  ghost function Carve(s: set<Block>, b: Block, order: nat): (r: (set<Block>, Block))
    requires order <= b.order
    ensures r.1.order == order
    decreases b.order
  {
    if b.order == order then (s, b)
    else Carve(s + {RightHalf(b)}, LeftHalf(b), order)
  }

  lemma CarveStep(s: set<Block>, b: Block, order: nat)
    requires order < b.order
    ensures Carve(s, b, order) == Carve(s + {RightHalf(b)}, LeftHalf(b), order)
  {
  }

  lemma CarveDone(s: set<Block>, b: Block)
    ensures Carve(s, b, b.order) == (s, b)
  {
  }

  lemma AddBlock(s: set<Block>, b: Block)
    requires Canonical(s) && InMemory(b) && NoneFree(s, b)
    requires b.order < MAX_ORDER ==> Buddy(b) !in s
    ensures Canonical(s + {b}) && b !in s
    ensures forall f: nat :: Covered(s + {b}, f) <==> Covered(s, f) || Holds(b, f)
  {
    HoldsFirst(b);
    forall c | c in s + {b} && c.order < MAX_ORDER ensures Buddy(c) !in s + {b} {
      if c.order == b.order { BuddyInMemory(b); BuddyInMemory(c); }
    }
    forall f: nat ensures Covered(s + {b}, f) <==> Covered(s, f) || Holds(b, f) {
      if Holds(b, f) { assert b in s + {b}; }
    }
  }

  /** What giving back a block does: the set stays canonical and gains exactly the frames of the block. */
  lemma {:induction false} ReleaseKeeps(s: set<Block>, b: Block)
    requires Canonical(s) && InMemory(b) && NoneFree(s, b)
    ensures Canonical(Release(s, b))
    ensures forall f: nat :: Covered(Release(s, b), f) <==> Covered(s, f) || Holds(b, f)
    decreases MAX_ORDER - b.order
  {
    if b.order >= MAX_ORDER || Buddy(b) !in s {
      AddBlock(s, b);
    } else {
      var t := s - {Buddy(b)};
      ParentInMemory(b);
      TakeBuddy(s, b);
      ReleaseKeeps(t, Parent(b));
      forall f: nat ensures Covered(Release(s, b), f) <==> Covered(s, f) || Holds(b, f) {
        ParentHolds(b, f);
        RemoveBlock(s, Buddy(b), f);
      }
    }
  }

  lemma RemoveBlock(s: set<Block>, b: Block, f: nat)
    requires Disjoint(s) && b in s
    ensures Covered(s - {b}, f) <==> Covered(s, f) && !Holds(b, f)
  {
    if Covered(s, f) && !Holds(b, f) {
      var c :| c in s && Holds(c, f);
      assert c in s - {b};
    }
  }

  lemma SubsetCanonical(s: set<Block>, t: set<Block>)
    requires Canonical(s) && t <= s
    ensures Canonical(t)
  {
  }

  /** Without its buddy no frame of the merged block is free any more. */
  lemma TakeBuddy(s: set<Block>, b: Block)
    requires Canonical(s) && NoneFree(s, b) && Buddy(b) in s
    ensures Canonical(s - {Buddy(b)}) && NoneFree(s - {Buddy(b)}, Parent(b))
  {
    SubsetCanonical(s, s - {Buddy(b)});
    forall f: nat | Holds(Parent(b), f) ensures !Covered(s - {Buddy(b)}, f) {
      ParentHolds(b, f);
      RemoveBlock(s, Buddy(b), f);
    }
  }

  /** What cutting does: the free frames and the block cut out make up the block that was cut. */
  lemma {:induction false} CarveKeeps(s: set<Block>, b: Block, order: nat)
    requires Canonical(s) && InMemory(b) && NoneFree(s, b) && order <= b.order
    ensures var (t, a) := Carve(s, b, order);
      && Canonical(t) && InMemory(a) && NoneFree(t, a)
      && forall f: nat :: Covered(t, f) || Holds(a, f) <==> Covered(s, f) || Holds(b, f)
    decreases b.order
  {
    if b.order <= order {
    } else {
      var l, r := LeftHalf(b), RightHalf(b);
      HalvesInMemory(b);
      CutOnce(s, b);
      CarveKeeps(s + {r}, l, order);
      var (t, a) := Carve(s, b, order);
      forall f: nat ensures Covered(t, f) || Holds(a, f) <==> Covered(s, f) || Holds(b, f) { Halves(b, f); }
    }
  }

  lemma CutOnce(s: set<Block>, b: Block)
    requires Canonical(s) && InMemory(b) && NoneFree(s, b) && b.order > 0
    ensures Canonical(s + {RightHalf(b)}) && NoneFree(s + {RightHalf(b)}, LeftHalf(b))
    ensures forall f: nat :: Covered(s + {RightHalf(b)}, f) <==> Covered(s, f) || Holds(RightHalf(b), f)
  {
    var l, r := LeftHalf(b), RightHalf(b);
    HalvesInMemory(b);
    forall f: nat | Holds(l, f) || Holds(r, f) ensures !Covered(s, f) { Halves(b, f); }
    Halves(b, 0);
    HoldsFirst(l);
    AddBlock(s, r);
    forall f: nat | Holds(l, f) ensures !Covered(s + {r}, f) { Halves(b, f); }
  }

  /** Freeing the block that was just cut out of a canonical set restores that set, block for block. */
  lemma CarveThenRelease(s: set<Block>, b: Block, order: nat)
    requires Canonical(s) && b in s && order <= b.order
    ensures var (t, a) := Carve(s - {b}, b, order); Release(t, a) == s
  {
    var rest := s - {b};
    SubsetCanonical(s, rest);
    forall f: nat ensures Covered(rest, f) <==> Covered(s, f) && !Holds(b, f) { RemoveBlock(s, b, f); }
    CarveKeeps(rest, b, order);
    var (t, a) := Carve(rest, b, order);
    ReleaseKeeps(t, a);
    forall f: nat ensures Covered(Release(t, a), f) <==> Covered(s, f) {
      if Holds(b, f) { assert Covered(s, f); }
    }
    CanonicalUnique(Release(t, a), s);
  }

  /** The frames a block holds. */
  ghost function FramesOf(b: Block): set<nat> {
    set f: nat | 0 <= f < Pow2(FRAME_BITS) && Holds(b, f)
  }

  /** The frames the blocks of `s` hold. */
  ghost function FreeFrames(s: set<Block>): set<nat> {
    set f: nat | 0 <= f < Pow2(FRAME_BITS) && Covered(s, f)
  }

  lemma {:induction false} UpBound(f: nat, k: nat, n: nat)
    requires k <= n
    ensures f < Pow2(n) <==> Up(f, k) < Pow2(n - k)
    decreases k
  {
    if k == 0 {
    } else {
      UpBound(f / 2, k - 1, n - 1);
    }
  }

  lemma BlockInMemory(b: Block)
    requires InMemory(b)
    ensures forall f: nat :: Holds(b, f) ==> f in FramesOf(b)
  {
    hide Pow2;
    forall f: nat | Holds(b, f) ensures f in FramesOf(b) { UpBound(f, b.order, FRAME_BITS); }
  }

  lemma FramesOfFrame(b: Block)
    requires InMemory(b) && b.order == 0
    ensures FramesOf(b) == {b.index}
  {
    hide Pow2;
  }

  /** A block in memory holds `2^order` frames, all of them in memory. */
  lemma {:induction false} BlockSize(b: Block)
    requires InMemory(b)
    ensures |FramesOf(b)| == Pow2(b.order)
    ensures forall f: nat :: Holds(b, f) ==> f in FramesOf(b)
    decreases b.order
  {
    hide Holds, FramesOf, InMemory;
    BlockInMemory(b);
    if b.order == 0 {
      FramesOfFrame(b);
    } else {
      HalvesInMemory(b);
      BlockSize(LeftHalf(b));
      BlockSize(RightHalf(b));
      FramesOfHalves(b);
    }
  }

  lemma FramesOfHalves(b: Block)
    requires b.order > 0
    ensures FramesOf(b) == FramesOf(LeftHalf(b)) + FramesOf(RightHalf(b))
    ensures FramesOf(LeftHalf(b)) !! FramesOf(RightHalf(b))
  {
    hide Holds;
    forall f: nat
      ensures Holds(b, f) <==> Holds(LeftHalf(b), f) || Holds(RightHalf(b), f)
      ensures !(Holds(LeftHalf(b), f) && Holds(RightHalf(b), f))
    {
      Halves(b, f);
    }
  }

  /** Giving back a block adds its `2^order` frames to the free ones. */
  lemma ReleaseCounts(s: set<Block>, b: Block)
    requires Canonical(s) && InMemory(b) && NoneFree(s, b)
    ensures FreeFrames(Release(s, b)) == FreeFrames(s) + FramesOf(b)
    ensures |FreeFrames(Release(s, b))| == |FreeFrames(s)| + Pow2(b.order)
  {
    ReleaseKeeps(s, b);
    BlockSize(b);
    assert FreeFrames(Release(s, b)) == FreeFrames(s) + FramesOf(b);
    assert FreeFrames(s) !! FramesOf(b);
  }

  /** The block that allocation cuts: least order that will do, then least index. */
  ghost predicate BestFit(s: set<Block>, order: nat, b: Block) {
    && b in s && order <= b.order
    && forall c :: c in s && order <= c.order ==> b.order < c.order || (b.order == c.order && b.index <= c.index)
  }

  /** What allocation does to the free set. */
  lemma TakeKeeps(s: set<Block>, b: Block, order: nat)
    requires Canonical(s) && b in s && order <= b.order
    ensures var (t, a) := Carve(s - {b}, b, order);
      && Canonical(t) && InMemory(a) && NoneFree(t, a) && AllFree(s, a)
      && FreeFrames(s) == FreeFrames(t) + FramesOf(a)
      && |FreeFrames(s)| == |FreeFrames(t)| + Pow2(order)
  {
    var (t, a) := Carve(s - {b}, b, order);
    CarveThenRelease(s, b, order);
    SubsetCanonical(s, s - {b});
    forall f: nat | Holds(b, f) ensures !Covered(s - {b}, f) { RemoveBlock(s, b, f); }
    CarveKeeps(s - {b}, b, order);
    ReleaseKeeps(t, a);
    ReleaseCounts(t, a);
  }

  /** An aligned run of `2^order` frames is free exactly when some free block is large enough. */
  lemma RunFreeIffBlock(s: set<Block>, order: nat)
    requires Canonical(s) && order <= MAX_ORDER
    ensures (exists b :: b in s && order <= b.order) <==>
      (exists a: Block :: a.order == order && InMemory(a) && AllFree(s, a))
  {
    if b :| b in s && order <= b.order {
      TakeKeeps(s, b, order);
      var a := Carve(s - {b}, b, order).1;
      assert a.order == order && InMemory(a) && AllFree(s, a);
    }
    if a: Block :| a.order == order && InMemory(a) && AllFree(s, a) {
      FreeRunInOneBlock(s, a);
    }
  }
}
