/**
 The compressed block device: 512-byte sectors kept in compressed groups of eight.
 It behaves as a sparse array of sectors that reads as zeros where nothing was written.
 */
module Zram {
  import opened Wrappers
  import opened Lz4Format
  import opened Totals
  import Lz4Codec

  const SECTOR := 512
  const PER_BLOCK := 8

  /** The `k`-th sector of a buffer. */
  function SectorOf(buf: seq<byte>, k: nat): (r: seq<byte>)
    requires (k + 1) * SECTOR <= |buf|
    ensures |r| == SECTOR
  {
    buf[k * SECTOR..(k + 1) * SECTOR]
  }

  function Lengths(blocks: map<nat, seq<byte>>): map<nat, nat> {
    map b | b in blocks :: |blocks[b]|
  }

  lemma StoreTotal(blocks: map<nat, seq<byte>>, b: nat, data: seq<byte>)
    ensures Total(Lengths(blocks[b := data])) ==
      Total(Lengths(blocks)) + |data| - if b in blocks then |blocks[b]| else 0
  {
    TotalUpdate(Lengths(blocks), b, |data|);
    assert Lengths(blocks)[b := |data|] == Lengths(blocks[b := data]);
  }

  /** Replacing one sector of a buffer leaves the others alone. */
  lemma SpliceSector(buf: seq<byte>, k: nat, data: seq<byte>, j: nat)
    requires (k + 1) * SECTOR <= |buf| && (j + 1) * SECTOR <= |buf| && |data| == SECTOR
    ensures SectorOf(buf[..k * SECTOR] + data + buf[(k + 1) * SECTOR..], j) == if j == k then data else SectorOf(buf, j)
  {
    var spliced := buf[..k * SECTOR] + data + buf[(k + 1) * SECTOR..];
    assert |spliced| == |buf|;
    if j < k {
      assert (j + 1) * SECTOR <= k * SECTOR;
      assert spliced[..k * SECTOR] == buf[..k * SECTOR];
    } else if j > k {
      assert (k + 1) * SECTOR <= j * SECTOR;
      assert spliced[(k + 1) * SECTOR..] == buf[(k + 1) * SECTOR..];
      assert forall i :: j * SECTOR <= i < (j + 1) * SECTOR ==> spliced[i] == buf[i];
    }
  }

  method CopySector(src: seq<byte>, from: nat, dst: array<byte>, to: nat)
    requires (from + 1) * SECTOR <= |src| && (to + 1) * SECTOR <= dst.Length
    modifies dst
    ensures forall j: nat :: (j + 1) * SECTOR <= dst.Length ==>
      SectorOf(dst[..], j) == if j == to then SectorOf(src, from) else SectorOf(old(dst[..]), j)
    ensures forall i :: 0 <= i < dst.Length && !(to * SECTOR <= i < (to + 1) * SECTOR) ==> dst[i] == old(dst[i])
  {
    ghost var was := dst[..];
    Lz4Codec.CopyInto(src, from * SECTOR, SECTOR, dst, to * SECTOR);
    forall j: nat | (j + 1) * SECTOR <= dst.Length
      ensures SectorOf(dst[..], j) == if j == to then SectorOf(src, from) else SectorOf(was, j)
    {
      SpliceSector(was, to, SectorOf(src, from), j);
    }
    forall i | 0 <= i < dst.Length && !(to * SECTOR <= i < (to + 1) * SECTOR)
      ensures dst[i] == old(dst[i])
    {
      assert dst[..][i] == was[i];
    }
  }

  class ZramDevice {
    var blocks: map<nat, seq<byte>>
    const totalSectors: nat
    var origBytes: nat
    var compBytes: nat

    /** Every stored block decompresses to a page, and `compBytes` is the sum of their lengths. */
    ghost predicate Valid()
      reads this
    {
      && (forall b :: b in blocks ==> Decode(blocks[b], [], PAGE_SIZE).Some?)
      && compBytes == Total(Lengths(blocks))
    }

    ghost function Page(b: nat): (p: seq<byte>)
      reads this
      requires Valid()
      ensures |p| == PAGE_SIZE
    {
      if b in blocks then Decode(blocks[b], [], PAGE_SIZE).value else Zeros(PAGE_SIZE)
    }

    /** What sector `i` of the device holds. */
    ghost function Sector(i: nat): (s: seq<byte>)
      reads this
      requires Valid()
      ensures |s| == SECTOR
    {
      SectorOf(Page(i / PER_BLOCK), i % PER_BLOCK)
    }

    constructor (sizeMb: nat)
      ensures Valid()
      ensures totalSectors == sizeMb * 1024 * 1024 / SECTOR
      ensures forall i: nat :: Sector(i) == Zeros(SECTOR)
    {
      blocks := map[];
      totalSectors := sizeMb * 1024 * 1024 / SECTOR;
      origBytes, compBytes := 0, 0;
    }

    /** A zeroed page overwritten with block `b` if there is one. */
    method LoadBlock(b: nat) returns (ok: bool, page: array<byte>)
      requires Valid()
      ensures ok && fresh(page) && page.Length == PAGE_SIZE && page[..] == Page(b)
    {
      hide Decode;
      page := new byte[PAGE_SIZE](_ => 0);
      assert page[..] == Zeros(PAGE_SIZE);
      ok := true;
      if b in blocks {
        ok := Lz4Codec.Decompress(blocks[b], page);
      }
    }

    /** Fill the whole sectors of `buf` from the device; an incomplete last sector is left alone. */
    method ReadSectors(lba: nat, buf: array<byte>) returns (ok: bool)
      requires Valid()
      modifies buf
      ensures ok
      ensures forall s: nat :: s < buf.Length / SECTOR ==> SectorOf(buf[..], s) == Sector(lba + s)
      ensures buf[buf.Length / SECTOR * SECTOR..] == old(buf[buf.Length / SECTOR * SECTOR..])
    {
      hide Decode, Page, SectorOf;
      var n := buf.Length / SECTOR;
      for s := 0 to n
        invariant forall t: nat :: t < s ==> SectorOf(buf[..], t) == Sector(lba + t)
        invariant buf[n * SECTOR..] == old(buf[n * SECTOR..])
      {
        var sector := lba + s;
        var good, page := LoadBlock(sector / PER_BLOCK);
        if !good { return false; }
        CopySector(page[..], sector % PER_BLOCK, buf, s);
      }
      ok := true;
    }

    /** Overwrite `count` sectors of a page, from its sector `first` on, with sectors of `buf`. */
    static method FillPage(page: array<byte>, first: nat, buf: seq<byte>, from: nat, count: nat)
      requires page.Length == PAGE_SIZE && first + count <= PER_BLOCK && (from + count) * SECTOR <= |buf|
      modifies page
      ensures forall k: nat :: k < PER_BLOCK ==>
        SectorOf(page[..], k) ==
          (if first <= k < first + count then SectorOf(buf, from + k - first) else SectorOf(old(page[..]), k))
    {
      hide SectorOf;
      for i := 0 to count
        invariant forall k: nat :: k < PER_BLOCK ==>
          SectorOf(page[..], k) ==
            (if first <= k < first + i then SectorOf(buf, from + k - first) else SectorOf(old(page[..]), k))
      {
        CopySector(buf, from + i, page, first + i);
      }
    }

    /** Compress `page` and make it block `b`; the branch that would store it raw is never taken. */
    method StoreBlock(b: nat, page: seq<byte>)
      requires Valid() && |page| == PAGE_SIZE
      modifies this
      ensures Valid()
      ensures blocks.Keys == old(blocks.Keys) + {b}
      ensures forall c :: c in old(blocks) && c != b ==> blocks[c] == old(blocks[c])
      ensures Decode(blocks[b], [], PAGE_SIZE) == Some(page)
      ensures origBytes == old(origBytes) + PAGE_SIZE
    {
      hide Decode;
      var comp := new byte[PAGE_SIZE + 64](_ => 0);
      var r := Lz4Codec.Compress(page, comp);
      match r {
        case Some(compLen) =>
          var oldSize := if b in blocks then |blocks[b]| else 0;
          StoreTotal(blocks, b, comp[..compLen]);
          origBytes := origBytes + PAGE_SIZE;
          compBytes := compBytes + compLen - oldSize;
          blocks := blocks[b := comp[..compLen]];
        case None =>
          assert false;
      }
    }

    /** Overwrite the sectors from `lba` on with the whole sectors of `buf`. */
    method WriteSectors(lba: nat, buf: seq<byte>) returns (ok: bool)
      requires Valid()
      modifies this
      ensures Valid()
      ensures ok
      ensures forall i: nat ::
        Sector(i) == (if lba <= i < lba + |buf| / SECTOR then SectorOf(buf, i - lba) else old(Sector(i)))
    {
      hide Decode, SectorOf;
      var n := |buf| / SECTOR;
      var s := 0;
      while s < n
        invariant 0 <= s <= n && Valid()
        invariant forall i: nat ::
          Sector(i) == (if lba <= i < lba + s then SectorOf(buf, i - lba) else old(Sector(i)))
      {
        var sector := lba + s;
        var block := sector / PER_BLOCK;
        var good, page := LoadBlock(block);
        if !good { return false; }
        var first := sector - block * PER_BLOCK;
        var canFill := Min(PER_BLOCK - first, n - s);
        FillPage(page, first, buf, s, canFill);
        label before:
        StoreBlock(block, page[..]);
        assert Page(block) == page[..];
        forall i: nat
          ensures Sector(i) ==
            (if sector <= i < sector + canFill then SectorOf(buf, i - lba) else old@before(Sector(i)))
        {
          if i / PER_BLOCK == block {
            assert i % PER_BLOCK == i - block * PER_BLOCK;
          } else {
            assert Page(i / PER_BLOCK) == old@before(Page(i / PER_BLOCK));
          }
        }
        s := s + canFill;
      }
      ok := true;
    }
  }

  datatype Request =
    | Read(lba: nat, sectors: nat)
    | Write(lba: nat, data: seq<byte>)

  /** What sector `i` must hold after `history`: the newest data written to it, else zeros. */
  function LastWritten(history: seq<Request>, i: nat): (s: seq<byte>)
    ensures |s| == SECTOR
  {
    if history == [] then Zeros(SECTOR)
    else
      var last := history[|history| - 1];
      if last.Write? && last.lba <= i < last.lba + |last.data| / SECTOR then SectorOf(last.data, i - last.lba)
      else LastWritten(history[..|history| - 1], i)
  }

  /** The reply a request must get after `history`. */
  ghost predicate Answers(history: seq<Request>, request: Request, reply: Option<seq<byte>>) {
    && reply.Some?
    && (request.Read? ==>
          && |reply.value| == request.sectors * SECTOR
          && forall s: nat :: s < request.sectors ==>
            SectorOf(reply.value, s) == LastWritten(history, request.lba + s))
  }

  /** The byte at a device address after `history`: that of the newest write to reach it, else zero. */
  function ByteWritten(history: seq<Request>, at: nat): byte {
    if history == [] then 0
    else
      var last := history[|history| - 1];
      if last.Write? && last.lba * SECTOR <= at < (last.lba + |last.data| / SECTOR) * SECTOR
      then last.data[at - last.lba * SECTOR]
      else ByteWritten(history[..|history| - 1], at)
  }

  lemma {:induction false} SectorBytes(history: seq<Request>, i: nat, off: nat)
    requires off < SECTOR
    ensures LastWritten(history, i)[off] == ByteWritten(history, i * SECTOR + off)
  {
    if history == [] {
    } else {
      SectorBytes(history[..|history| - 1], i, off);
      var last := history[|history| - 1];
      if last.Write? { InSectors(last.lba, |last.data| / SECTOR, i, off); }
    }
  }

  lemma InSectors(lba: nat, n: nat, i: nat, off: nat)
    requires off < SECTOR
    ensures lba <= i < lba + n <==> lba * SECTOR <= i * SECTOR + off < (lba + n) * SECTOR
  {
  }

  /** A read returns, byte by byte, what was written last. */
  ghost predicate ByteAnswers(history: seq<Request>, request: Request, reply: Option<seq<byte>>) {
    && reply.Some?
    && (request.Read? ==>
          && |reply.value| == request.sectors * SECTOR
          && forall k: nat :: k < |reply.value| ==> reply.value[k] == ByteWritten(history, request.lba * SECTOR + k))
  }

  lemma AnswersInBytes(history: seq<Request>, request: Request, reply: Option<seq<byte>>)
    requires Answers(history, request, reply)
    ensures ByteAnswers(history, request, reply)
  {
    if request.Read? {
      forall k: nat | k < |reply.value| ensures reply.value[k] == ByteWritten(history, request.lba * SECTOR + k) {
        var s, off := k / SECTOR, k % SECTOR;
        assert SectorOf(reply.value, s)[off] == reply.value[k];
        SectorBytes(history, request.lba + s, off);
      }
    }
  }

  method Serve(dev: ZramDevice, request: Request, ghost history: seq<Request>) returns (reply: Option<seq<byte>>)
    requires dev.Valid()
    requires forall i: nat :: dev.Sector(i) == LastWritten(history, i)
    modifies dev
    ensures dev.Valid()
    ensures forall i: nat :: dev.Sector(i) == LastWritten(history + [request], i)
    ensures Answers(history, request, reply)
  {
    hide SectorOf, Decode, ZramDevice.Sector;
    assert (history + [request])[..|history|] == history;
    match request {
      case Read(lba, sectors) =>
        var buf := new byte[sectors * SECTOR](_ => 0);
        var ok := dev.ReadSectors(lba, buf);
        reply := if ok then Some(buf[..]) else None;
      case Write(lba, data) =>
        var ok := dev.WriteSectors(lba, data);
        reply := if ok then Some([]) else None;
    }
  }

  lemma NothingWritten(i: nat)
    ensures LastWritten([], i) == Zeros(SECTOR)
  {
  }

  /**
   Any run of requests against a fresh device: no call fails, and every sector read is
   the last data written to it before, or zeros, byte for byte.
   */
  method Replay(sizeMb: nat, requests: seq<Request>) returns (replies: seq<Option<seq<byte>>>)
    ensures |replies| == |requests|
    ensures forall j :: 0 <= j < |requests| ==> ByteAnswers(requests[..j], requests[j], replies[j])
  {
    hide Answers, ByteAnswers, LastWritten, ZramDevice.Valid, ZramDevice.Sector;
    var dev := new ZramDevice(sizeMb);
    forall i: nat ensures LastWritten([], i) == Zeros(SECTOR) { NothingWritten(i); }
    assert requests[..0] == [];
    replies := [];
    for k := 0 to |requests|
      invariant dev.Valid() && fresh(dev)
      invariant forall i: nat :: dev.Sector(i) == LastWritten(requests[..k], i)
      invariant |replies| == k
      invariant forall j :: 0 <= j < k ==> ByteAnswers(requests[..j], requests[j], replies[j])
    {
      var reply := Serve(dev, requests[k], requests[..k]);
      AnswersInBytes(requests[..k], requests[k], reply);
      assert requests[..k + 1] == requests[..k] + [requests[k]];
      replies := replies + [reply];
    }
  }
}
