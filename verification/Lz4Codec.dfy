/**
 The compressor and decompressor of the compressed page cache, loop for loop, proved
 against the block format: what `Compress` writes, `Decompress` turns back into the input.
 */
module Lz4Codec {
  import opened Wrappers
  import opened Lz4Format

  type u16 = x: int | 0 <= x < 65536

  const HASH_SIZE := 65536
  const MAX_DISTANCE := 65535
  const SKIP_TRIGGER := 6

  /** Multiplicative hash of four bytes, in wrapping 64-bit arithmetic. */
  function Hash(val: nat): (h: nat)
    ensures h < HASH_SIZE
  {
    val * 0x9E37_79B9_7F4A_7C15 % 0x1_0000_0000_0000_0000 / 0x1_0000_0000_0000
  }

  /** Four bytes read as a little-endian word, or 0 past the end. */
  function Read4(src: seq<byte>, p: nat): nat {
    if p + 4 <= |src|
    then src[p] as int + 256 * (src[p + 1] as int + 256 * (src[p + 2] as int + 256 * src[p + 3] as int))
    else 0
  }

  /** The most a compressed block may take for `n` input bytes. */
  function Bound(n: nat): nat {
    n + n / 255 + 2
  }

  lemma DigitsEqual(a: byte, x: nat, b: byte, y: nat)
    requires a as int + 256 * x == b as int + 256 * y
    ensures a == b && x == y
  {
  }

  lemma Read4Injective(src: seq<byte>, p: nat, q: nat)
    requires p + 4 <= |src| && q + 4 <= |src| && Read4(src, p) == Read4(src, q)
    ensures src[p..p + 4] == src[q..q + 4]
  {
    var p1, q1 := src[p + 2] as int + 256 * src[p + 3] as int, src[q + 2] as int + 256 * src[q + 3] as int;
    DigitsEqual(src[p], src[p + 1] as int + 256 * p1, src[q], src[q + 1] as int + 256 * q1);
    DigitsEqual(src[p + 1], p1, src[q + 1], q1);
    DigitsEqual(src[p + 2], src[p + 3], src[q + 2], src[q + 3]);
  }

  /** One sequence costs at most 256/255 of the input it stands for. */
  lemma SequenceCost(lits: seq<byte>, offset: nat, matLen: nat)
    requires offset < 65536 && MIN_MATCH <= matLen
    ensures 255 * |EncodeSequence(lits, offset, matLen)| <= 256 * (|lits| + matLen)
  {
    var enc := matLen - MIN_MATCH;
    assert |EncodeSequence(lits, offset, matLen)| == 3 + |Extension(|lits|)| + |lits| + |Extension(enc)|;
  }

  method WriteVarint(out: seq<byte>, n: nat) returns (r: seq<byte>)
    ensures r == out + Varint(n)
  {
    r := out;
    var m := n;
    while m >= 255
      invariant r + Varint(m) == out + Varint(n)
    {
      assert r + Varint(m) == (r + [255]) + Varint(m - 255);
      r := r + [255];
      m := m - 255;
    }
    r := r + [m];
  }

  /** Length of the match of `at` with `ref`, at least four and never running into `at` itself. */
  method MatchLength(src: seq<byte>, ref: nat, at: nat) returns (matLen: nat)
    requires ref < at && at + MIN_MATCH <= |src|
    requires src[ref..ref + MIN_MATCH] == src[at..at + MIN_MATCH]
    ensures MIN_MATCH <= matLen && at + matLen <= |src|
    ensures src[at..at + matLen] == src[ref..ref + matLen]
    ensures matLen > MIN_MATCH ==> ref + matLen <= at
    ensures at + matLen < |src| && ref + matLen < at ==> src[at + matLen] != src[ref + matLen]
  {
    matLen := MIN_MATCH;
    while at + matLen < |src| && ref + matLen < at && src[at + matLen] == src[ref + matLen]
      invariant MIN_MATCH <= matLen && at + matLen <= |src|
      invariant src[at..at + matLen] == src[ref..ref + matLen]
      invariant matLen > MIN_MATCH ==> ref + matLen <= at
    {
      assert src[at..at + matLen + 1] == src[at..at + matLen] + [src[at + matLen]];
      assert src[ref..ref + matLen + 1] == src[ref..ref + matLen] + [src[ref + matLen]];
      matLen := matLen + 1;
    }
  }

  method EmitRun(out: seq<byte>, nibble: nat, lits: seq<byte>) returns (r: seq<byte>)
    requires nibble < 16
    ensures r == out + EncodeRun(nibble, lits)
  {
    var token: byte := Min(|lits|, 15) * 16 + nibble;
    r := out + [token];
    if |lits| >= 15 { r := WriteVarint(r, |lits| - 15); }
    r := r + lits;
  }

  method EmitMatch(out: seq<byte>, offset: nat, enc: nat) returns (r: seq<byte>)
    requires offset < 65536
    ensures r == out + EncodeMatch(offset, enc)
  {
    r := out + [offset % 256, offset / 256];
    if enc >= 15 { r := WriteVarint(r, enc - 15); }
  }

  /** Append the sequence for a match of `at` with `at - dist`. */
  method EmitSequence(out: seq<byte>, src: seq<byte>, anchor: nat, at: nat, dist: nat, matLen: nat)
    returns (r: seq<byte>)
    requires anchor <= at && at + matLen <= |src| && MIN_MATCH <= matLen
    requires 0 < dist < 65536 && dist <= at
    requires src[at..at + matLen] == src[at - dist..at - dist + matLen]
    requires Produces(out, src[..anchor], |src|) && 255 * |out| <= 256 * anchor
    ensures Produces(r, src[..at + matLen], |src|) && 255 * |r| <= 256 * (at + matLen)
  {
    hide EncodeRun, EncodeMatch, Produces, Decode;
    var enc := matLen - MIN_MATCH;
    ghost var run, mat := EncodeRun(Nibble(enc), src[anchor..at]), EncodeMatch(dist, enc);
    SequenceCost(src[anchor..at], dist, matLen);
    r := EmitRun(out, Min(enc, 15), src[anchor..at]);
    r := EmitMatch(r, dist, enc);
    Regroup(out, run, mat);
    ProducesSequence(out, src, anchor, at, dist, matLen, r);
  }

  /**
   The block that `CompressWith` builds before it looks at the room it has. The hash
   decides only where matches are looked for, so any function into the table will do.
   */
  method BuildBlock(src: seq<byte>, hash: nat -> nat) returns (out: seq<byte>)
    requires |src| >= MIN_MATCH
    requires forall v: nat :: hash(v) < HASH_SIZE
    ensures Decode(out, [], |src|) == Some(src)
    ensures |out| <= Bound(|src|)
  {
    hide Produces, Decode;
    var n := |src|;
    var table := new u16[HASH_SIZE](_ => 0);
    var ip, anchor, step, skip := 0, 0, 1, SKIP_TRIGGER;
    out := [];
    ProducesNothing(n);
    assert src[..0] == [];
    while ip + MIN_MATCH + 1 < n
      invariant 0 <= anchor <= ip && anchor <= n
      invariant step >= 1 && skip >= 1
      invariant Produces(out, src[..anchor], n) && 255 * |out| <= 256 * anchor
      decreases n - ip
    {
      var word := Read4(src, ip);
      var h := hash(word);
      var ref: nat := table[h];
      table[h] := ip % 65536;
      var dist := if ip >= ref then ip - ref else ip - ref + 0x1_0000_0000_0000_0000;
      if 0 < dist < MAX_DISTANCE && ref + MIN_MATCH <= n && Read4(src, ref) == word {
        Read4Injective(src, ref, ip);
        var matLen := MatchLength(src, ref, ip);
        out := EmitSequence(out, src, anchor, ip, dist, matLen);
        ip := ip + matLen;
        anchor := ip;
        step, skip := 1, SKIP_TRIGGER;
      } else {
        ip := ip + step;
        skip := skip - 1;
        if skip == 0 { step, skip := step + 1, SKIP_TRIGGER; }
      }
    }
    out := EmitLast(out, src, anchor);
  }

  /** Close the block with the literals from `anchor` on. */
  method EmitLast(out: seq<byte>, src: seq<byte>, anchor: nat) returns (r: seq<byte>)
    requires anchor <= |src|
    requires Produces(out, src[..anchor], |src|) && 255 * |out| <= 256 * anchor
    ensures Decode(r, [], |src|) == Some(src)
    ensures |r| <= Bound(|src|)
  {
    DecodeLast(src[anchor..], src[..anchor], |src|);
    assert src[..anchor] + src[anchor..] == src;
    r := EmitRun(out, 0, src[anchor..]);
  }

  /**
   Compress into `dst`, or None when the block does not leave room to spare. Inputs
   shorter than a match are copied as they are (the copy needs room for them).
   */
  method CompressWith(src: seq<byte>, dst: array<byte>, hash: nat -> nat) returns (r: Option<nat>)
    requires forall v: nat :: hash(v) < HASH_SIZE
    requires |src| < MIN_MATCH ==> |src| <= dst.Length
    modifies dst
    ensures r.Some? ==> r.value <= dst.Length && dst[r.value..] == old(dst[..])[r.value..]
    ensures |src| < MIN_MATCH ==> r == Some(|src|) && dst[..|src|] == src
    ensures |src| >= MIN_MATCH && r.Some? ==>
      r.value < dst.Length && r.value <= Bound(|src|) && Decode(dst[..r.value], [], |src|) == Some(src)
    ensures |src| >= MIN_MATCH && r.None? ==> dst.Length <= Bound(|src|) && dst[..] == old(dst[..])
  {
    if |src| < MIN_MATCH {
      CopyInto(src, 0, |src|, dst, 0);
      return Some(|src|);
    }
    var out := BuildBlock(src, hash);
    if |out| >= dst.Length { return None; }
    CopyInto(out, 0, |out|, dst, 0);
    assert dst[..|out|] == out;
    r := Some(|out|);
  }

  /** `CompressWith` at the kernel's own hash. */
  method Compress(src: seq<byte>, dst: array<byte>) returns (r: Option<nat>)
    requires |src| < MIN_MATCH ==> |src| <= dst.Length
    modifies dst
    ensures r.Some? ==> r.value <= dst.Length && dst[r.value..] == old(dst[..])[r.value..]
    ensures |src| < MIN_MATCH ==> r == Some(|src|) && dst[..|src|] == src
    ensures |src| >= MIN_MATCH && r.Some? ==>
      r.value < dst.Length && r.value <= Bound(|src|) && Decode(dst[..r.value], [], |src|) == Some(src)
    ensures |src| >= MIN_MATCH && r.None? ==> dst.Length <= Bound(|src|) && dst[..] == old(dst[..])
  {
    r := CompressWith(src, dst, v => Hash(v));
  }

  /** Copy `n` bytes of `src` from `from` to position `to` of `dst`. */
  method CopyInto(src: seq<byte>, from: nat, n: nat, dst: array<byte>, to: nat)
    requires from + n <= |src| && to + n <= dst.Length
    modifies dst
    ensures dst[..] == old(dst[..])[..to] + src[from..from + n] + old(dst[..])[to + n..]
  {
    for i := 0 to n
      invariant forall k :: 0 <= k < dst.Length ==>
        dst[k] == if to <= k < to + i then src[from + k - to] else old(dst[k])
    {
      dst[to + i] := src[from + i];
    }
  }

  /** Read the extension of `nibble` at `ip`; `ok` is false when the input ends inside it. */
  method ReadLengthAt(src: seq<byte>, nibble: nat, at: nat) returns (ok: bool, len: nat, ip: nat)
    requires at <= |src|
    ensures ok <==> ReadLength(nibble, src[at..]).Some?
    ensures ok ==> at <= ip <= |src| && ReadLength(nibble, src[at..]) == Some((len, src[ip..]))
  {
    len, ip := nibble, at;
    if nibble == 15 {
      while true
        invariant at <= ip <= |src| && len >= 15
        invariant match ReadVarint(src[ip..])
                  case None => ReadVarint(src[at..]).None?
                  case Some((n, rest)) => ReadVarint(src[at..]) == Some((len - 15 + n, rest))
        decreases |src| - ip
      {
        if ip >= |src| { return false, len, ip; }
        var b := src[ip];
        assert src[ip..][1..] == src[ip + 1..];
        ip := ip + 1;
        len := len + b;
        if b != 255 { break; }
      }
    }
    ok := true;
  }

  /** Token and literal length at `at`: where the literals start and how many they are. */
  method ReadRun(src: seq<byte>, at: nat) returns (ok: bool, nibble: nat, from: nat, litLen: nat)
    requires at <= |src|
    ensures !ok ==> Parse(src[at..]).Malformed?
    ensures ok ==> at < from && from + litLen <= |src|
    ensures ok && from + litLen == |src| ==> Parse(src[at..]) == Last(src[from..from + litLen])
    ensures ok && from + litLen < |src| ==>
      Parse(src[at..]) == ParseMatch(src[from..from + litLen], nibble, src[from + litLen..])
  {
    if at >= |src| { return false, 0, 0, 0; }
    var token := src[at];
    nibble := token % 16;
    assert src[at..][1..] == src[at + 1..];
    ok, litLen, from := ReadLengthAt(src, token / 16, at + 1);
    if ok && from + litLen <= |src| {
      assert src[from..][..litLen] == src[from..from + litLen];
      assert src[from..][litLen..] == src[from + litLen..];
    } else {
      ok := false;
    }
  }

  /** Offset and match length at `at`. */
  method ReadMatch(src: seq<byte>, at: nat, nibble: nat, ghost lits: seq<byte>)
    returns (ok: bool, offset: nat, matLen: nat, next: nat)
    requires at < |src|
    ensures !ok ==> ParseMatch(lits, nibble, src[at..]).Malformed?
    ensures ok ==> at < next <= |src| && ParseMatch(lits, nibble, src[at..]) == Match(lits, offset, matLen, src[next..])
  {
    if at + 2 > |src| { return false, 0, 0, 0; }
    offset := src[at] as int + 256 * src[at + 1] as int;
    assert src[at..][2..] == src[at + 2..];
    ok, matLen, next := ReadLengthAt(src, nibble, at + 2);
    matLen := matLen + MIN_MATCH;
  }

  /** Copy a match inside `dst`, byte by byte, so that it may read what it has just written. */
  method CopyMatchInPlace(dst: array<byte>, op: nat, offset: nat, n: nat)
    requires 0 < offset <= op && op + n <= dst.Length
    modifies dst
    ensures dst[..op + n] == CopyMatch(old(dst[..op]), offset, n)
  {
    ghost var was := dst[..op];
    for i := 0 to n
      invariant CopyMatch(dst[..op + i], offset, n - i) == CopyMatch(was, offset, n)
    {
      ghost var sofar := dst[..op + i];
      dst[op + i] := dst[op - offset + i];
      assert dst[..op + i + 1] == sofar + [sofar[|sofar| - offset]];
    }
  }

  /** Decompress into the whole of `dst`; true exactly when the block is well formed for that size. */
  method Decompress(src: seq<byte>, dst: array<byte>) returns (ok: bool)
    modifies dst
    ensures ok <==> Decode(src, [], dst.Length).Some?
    ensures ok ==> dst[..] == Decode(src, [], dst.Length).value
  {
    hide Parse, ParseMatch;
    ghost var meaning := Decode(src, [], dst.Length);
    var ip, op := 0, 0;
    assert src[0..] == src && dst[..0] == [];
    while true
      invariant 0 <= ip <= |src| && 0 <= op <= dst.Length
      invariant Decode(src[ip..], dst[..op], dst.Length) == meaning
      decreases |src| - ip
    {
      var okRun, nibble, from, litLen := ReadRun(src, ip);
      if !okRun || op + litLen > dst.Length { return false; }
      ghost var lits, out := src[from..from + litLen], dst[..op];
      CopyInto(src, from, litLen, dst, op);
      ip, op := from + litLen, op + litLen;
      assert dst[..op] == out + lits;
      if ip >= |src| {
        assert dst[..dst.Length] == dst[..];
        return op == dst.Length;
      }
      var okMatch, offset, matLen, next := ReadMatch(src, ip, nibble, lits);
      if !okMatch || offset == 0 || offset > op || op + matLen > dst.Length { return false; }
      ghost var produced := CopyMatch(dst[..op], offset, matLen);
      assert meaning == Decode(src[next..], produced, dst.Length);
      CopyMatchInPlace(dst, op, offset, matLen);
      assert dst[..op + matLen] == produced;
      ip, op := next, op + matLen;
    }
  }

  /**
   Round trip through both programs, in a caller's buffers: it succeeds exactly for
   inputs of at least four bytes. (Shorter ones are stored raw, and raw bytes are not a block.)
   */
  method RoundTrip(
      src: seq<byte>, hash: nat -> nat, room: nat) returns (packed: Option<seq<byte>>, back: Option<seq<byte>>)
    requires forall v: nat :: hash(v) < HASH_SIZE
    requires |src| < MIN_MATCH ==> |src| <= room
    ensures room > Bound(|src|) ==> packed.Some?
    ensures packed.Some? ==> |packed.value| <= Bound(|src|)
    ensures packed.Some? ==> back == (if |src| >= MIN_MATCH then Some(src) else None)
  {
    var dst := new byte[room](_ => 0);
    var r := CompressWith(src, dst, hash);
    if r.None? { return None, None; }
    packed := Some(dst[..r.value]);
    var out := new byte[|src|](_ => 0);
    if |src| < MIN_MATCH { ShortBlocksNeverDecode(src); }
    var ok := Decompress(packed.value, out);
    back := if ok then Some(out[..]) else None;
  }
}
