/**
 The LZ4 block format as the decompressor reads it: a functional reader for one
 block, the encoding of one sequence, and the laws that join the two.

 A block is a list of sequences. Each starts with a token whose high nibble is the
 literal length and whose low nibble is the match length minus four; a nibble of 15
 is extended by bytes that are summed up to and including the first one below 255.
 The last sequence ends after its literals.
 */
module Lz4Format {
  import opened Wrappers

  const MIN_MATCH := 4

  /** The extension bytes of a length: as many 255s as fit, then the remainder. */
  function Varint(n: nat): (r: seq<byte>)
    ensures 255 * |r| <= n + 255
  {
    if n >= 255 then [255] + Varint(n - 255) else [n]
  }

  /** The bytes that follow a token nibble for a length `len`. */
  function Extension(len: nat): (r: seq<byte>)
    ensures len < 15 ==> r == []
    ensures len >= 15 ==> 255 * |r| <= len + 240
  {
    if len >= 15 then Varint(len - 15) else []
  }

  function Nibble(len: nat): (r: nat)
    ensures r <= 15
  {
    Min(len, 15)
  }

  /** Sum of a run of extension bytes and what is left after it. */
  function ReadVarint(s: seq<byte>): (r: Option<(nat, seq<byte>)>)
    ensures r.Some? ==> |r.value.1| < |s|
  {
    if s == [] then None
    else if s[0] != 255 then Some((s[0], s[1..]))
    else
      match ReadVarint(s[1..])
      case None => None
      case Some((n, rest)) => Some((255 + n, rest))
  }

  /** The length announced by a nibble and the bytes after it. */
  function ReadLength(nibble: nat, s: seq<byte>): (r: Option<(nat, seq<byte>)>)
    ensures r.Some? ==> |r.value.1| <= |s|
  {
    if nibble != 15 then Some((nibble, s))
    else
      match ReadVarint(s)
      case None => None
      case Some((n, rest)) => Some((15 + n, rest))
  }

  /** Append `n` bytes copied one by one from `offset` back; source and target may overlap. */
  function CopyMatch(out: seq<byte>, offset: nat, n: nat): (r: seq<byte>)
    requires 0 < offset <= |out|
    ensures |r| == |out| + n
    decreases n
  {
    if n == 0 then out else CopyMatch(out + [out[|out| - offset]], offset, n - 1)
  }

  /** One sequence at the front of a block. */
  datatype Sequence =
    | Malformed
    | Last(lits: seq<byte>)
    | Match(lits: seq<byte>, offset: nat, matLen: nat, rest: seq<byte>)

  function Parse(src: seq<byte>): (r: Sequence)
    ensures r.Match? ==> |r.rest| < |src|
  {
    if src == [] then Malformed
    else
      match ReadLength(src[0] / 16, src[1..])
      case None => Malformed
      case Some((litLen, s)) =>
        if litLen > |s| then Malformed
        else if litLen == |s| then Last(s)
        else ParseMatch(s[..litLen], src[0] % 16, s[litLen..])
  }

  /** The match part of a sequence whose literals have been read. */
  function ParseMatch(lits: seq<byte>, nibble: nat, s: seq<byte>): (r: Sequence)
    ensures r.Malformed? || (r.Match? && r.lits == lits && |r.rest| < |s|)
  {
    if |s| < 2 then Malformed
    else
      match ReadLength(nibble, s[2..])
      case None => Malformed
      case Some((enc, rest)) => Match(lits, s[0] as int + 256 * s[1] as int, enc + MIN_MATCH, rest)
  }

  /**
   The meaning of the block `src` when `out` has already been produced and `limit`
   bytes are wanted in all. None stands for every way the block can be malformed.
   */
  function Decode(src: seq<byte>, out: seq<byte>, limit: nat): (r: Option<seq<byte>>)
    ensures r.Some? ==> |r.value| == limit
    decreases |src|
  {
    match Parse(src)
    case Malformed => None
    case Last(lits) => if |out| + |lits| == limit then Some(out + lits) else None
    case Match(lits, offset, matLen, rest) =>
      if 0 < offset <= |out| + |lits| && |out| + |lits| + matLen <= limit
      then Decode(rest, CopyMatch(out + lits, offset, matLen), limit)
      else None
  }

  /** Token, literal length and literals; `nibble` announces the match that follows, if any. */
  function EncodeRun(nibble: nat, lits: seq<byte>): seq<byte>
    requires nibble < 16
  {
    [Nibble(|lits|) * 16 + nibble] + Extension(|lits|) + lits
  }

  /** Offset, low byte first, and match length. */
  function EncodeMatch(offset: nat, enc: nat): seq<byte>
    requires offset < 65536
  {
    [offset % 256, offset / 256] + Extension(enc)
  }

  /** The bytes of a sequence that ends in a match. */
  function EncodeSequence(lits: seq<byte>, offset: nat, matLen: nat): seq<byte>
    requires offset < 65536 && MIN_MATCH <= matLen
  {
    EncodeRun(Nibble(matLen - MIN_MATCH), lits) + EncodeMatch(offset, matLen - MIN_MATCH)
  }

  /** The bytes of the closing sequence. */
  function EncodeLast(lits: seq<byte>): seq<byte> {
    EncodeRun(0, lits)
  }

  /** On the wire: high nibble literals, low nibble match length less four, and the offset's low byte first. */
  lemma WireSequence(lits: seq<byte>, m: nat, lo: byte, hi: byte, rest: seq<byte>)
    requires |lits| < 15 && m < 15
    ensures Parse([16 * |lits| + m] + lits + [lo, hi] + rest) == Match(lits, lo + 256 * hi, m + 4, rest)
  {
    var tail := lits + [lo, hi] + rest;
    var src := [16 * |lits| + m] + tail;
    assert src == [16 * |lits| + m] + lits + [lo, hi] + rest;
    assert src[0] / 16 == |lits| && src[0] % 16 == m && src[1..] == tail;
    assert tail[..|lits|] == lits && tail[|lits|..] == [lo, hi] + rest;
    assert ([lo, hi] + rest)[2..] == rest;
  }

  function Full(k: nat): seq<byte> {
    if k == 0 then [] else [255] + Full(k - 1)
  }

  /** A full nibble is followed by bytes of 255 and a last smaller one, all added up. */
  lemma {:induction false} WireLength(k: nat, last: byte, rest: seq<byte>)
    requires last < 255
    ensures ReadLength(15, Full(k) + [last] + rest) == Some((15 + 255 * k + last, rest))
  {
    if k == 0 {
      assert Full(k) + [last] + rest == [last] + rest;
    } else {
      WireLength(k - 1, last, rest);
      assert (Full(k) + [last] + rest)[1..] == Full(k - 1) + [last] + rest;
    }
  }

  /** A match repeats the output from `offset` back on: each byte is the one `offset` before it. */
  lemma {:induction false} CopyMatchBytes(out: seq<byte>, offset: nat, n: nat, i: nat)
    requires 0 < offset <= |out| && i < |out| + n
    ensures var r := CopyMatch(out, offset, n); r[i] == if i < |out| then out[i] else r[i - offset]
    decreases n
  {
    if n == 0 {
    } else {
      var more := out + [out[|out| - offset]];
      CopyMatchBytes(more, offset, n - 1, i);
      CopyMatchBytes(more, offset, n - 1, |out| - offset);
    }
  }

  /** Reading an extension gives back the number that was written. */
  lemma {:induction false} VarintRoundTrip(n: nat, tail: seq<byte>)
    ensures ReadVarint(Varint(n) + tail) == Some((n, tail))
  {
    if n >= 255 {
      VarintRoundTrip(n - 255, tail);
      assert (Varint(n) + tail)[1..] == Varint(n - 255) + tail;
    } else {
      assert ([n] + tail)[1..] == tail;
    }
  }

  lemma LengthRoundTrip(len: nat, tail: seq<byte>)
    ensures ReadLength(Nibble(len), Extension(len) + tail) == Some((len, tail))
  {
    if len >= 15 { VarintRoundTrip(len - 15, tail); }
    else { assert [] + tail == tail; }
  }

  /** A byte-wise copy of a stretch that repeats itself reproduces that stretch. */
  lemma {:induction false} CopyReproduces(src: seq<byte>, at: nat, offset: nat, n: nat)
    requires 0 < offset <= at && at + n <= |src|
    requires src[at..at + n] == src[at - offset..at - offset + n]
    ensures CopyMatch(src[..at], offset, n) == src[..at + n]
    decreases n
  {
    if n == 0 {
    } else {
      var a, b := src[at..at + n], src[at - offset..at - offset + n];
      assert src[at] == a[0] && src[at - offset] == b[0];
      assert src[..at] + [src[at - offset]] == src[..at + 1];
      assert src[at + 1..at + n] == a[1..] && src[at + 1 - offset..at - offset + n] == b[1..];
      CopyReproduces(src, at + 1, offset, n - 1);
    }
  }

  lemma ParseEncodedMatch(lits: seq<byte>, offset: nat, enc: nat, tail: seq<byte>)
    requires offset < 65536
    ensures ParseMatch(lits, Nibble(enc), EncodeMatch(offset, enc) + tail) == Match(lits, offset, enc + MIN_MATCH, tail)
  {
    var s := EncodeMatch(offset, enc) + tail;
    assert s[0] == offset % 256 && s[1] == offset / 256;
    assert s[2..] == Extension(enc) + tail;
    LengthRoundTrip(enc, tail);
  }

  lemma ParseEncodedRun(nibble: nat, lits: seq<byte>, rest: seq<byte>)
    requires nibble < 16
    ensures Parse(EncodeRun(nibble, lits) + rest) == if rest == [] then Last(lits) else ParseMatch(lits, nibble, rest)
  {
    var token: byte := Nibble(|lits|) * 16 + nibble;
    var s := EncodeRun(nibble, lits) + rest;
    assert s[0] == token && token / 16 == Nibble(|lits|) && token % 16 == nibble;
    assert s[1..] == Extension(|lits|) + (lits + rest);
    LengthRoundTrip(|lits|, lits + rest);
    assert (lits + rest)[..|lits|] == lits && (lits + rest)[|lits|..] == rest;
    if rest == [] { assert lits + rest == lits; }
  }

  lemma Regroup(a: seq<byte>, b: seq<byte>, c: seq<byte>)
    ensures (a + b) + c == a + (b + c)
  {
  }

  /** Parsing gives back the sequence that was encoded, and what follows it. */
  lemma ParseEncoded(lits: seq<byte>, offset: nat, matLen: nat, tail: seq<byte>)
    requires offset < 65536 && MIN_MATCH <= matLen
    ensures Parse(EncodeSequence(lits, offset, matLen) + tail) == Match(lits, offset, matLen, tail)
  {
    hide EncodeRun, EncodeMatch, Parse, ParseMatch;
    var enc := matLen - MIN_MATCH;
    Regroup(EncodeRun(Nibble(enc), lits), EncodeMatch(offset, enc), tail);
    ParseEncodedRun(Nibble(enc), lits, EncodeMatch(offset, enc) + tail);
    ParseEncodedMatch(lits, offset, enc, tail);
  }

  /** Decoding the closing sequence ends the block, and needs exactly `limit` bytes. */
  lemma DecodeLast(lits: seq<byte>, out: seq<byte>, limit: nat)
    requires |out| + |lits| == limit
    ensures Decode(EncodeLast(lits), out, limit) == Some(out + lits)
  {
    ParseEncodedRun(0, lits, []);
    assert EncodeLast(lits) + [] == EncodeLast(lits);
  }

  /** `enc` is a run of whole sequences that produce `done` from nothing, whatever follows them. */
  ghost predicate Produces(enc: seq<byte>, done: seq<byte>, limit: nat) {
    forall tail: seq<byte> :: Decode(enc + tail, [], limit) == Decode(tail, done, limit)
  }

  lemma ProducesNothing(limit: nat)
    ensures Produces([], [], limit)
  {
    forall tail: seq<byte> ensures Decode([] + tail, [], limit) == Decode(tail, [], limit) {
      assert [] + tail == tail;
    }
  }

  /** Appending one sequence to a run of sequences appends what that sequence produces. */
  lemma ProducesSequence(enc: seq<byte>, src: seq<byte>, anchor: nat, at: nat, offset: nat, matLen: nat, r: seq<byte>)
    requires anchor <= at && at + matLen <= |src| && MIN_MATCH <= matLen
    requires 0 < offset < 65536 && offset <= at
    requires src[at..at + matLen] == src[at - offset..at - offset + matLen]
    requires Produces(enc, src[..anchor], |src|)
    requires r == enc + EncodeSequence(src[anchor..at], offset, matLen)
    ensures Produces(r, src[..at + matLen], |src|)
  {
    var one := EncodeSequence(src[anchor..at], offset, matLen);
    forall tail: seq<byte>
      ensures Decode(r + tail, [], |src|) == Decode(tail, src[..at + matLen], |src|)
    {
      Regroup(enc, one, tail);
      DecodeSequence(src, anchor, at, offset, matLen, tail);
    }
  }

  /** Decoding an encoded stretch of `src` behind what precedes it carries on after that stretch. */
  lemma DecodeSequence(src: seq<byte>, anchor: nat, at: nat, offset: nat, matLen: nat, tail: seq<byte>)
    requires anchor <= at && at + matLen <= |src| && MIN_MATCH <= matLen
    requires 0 < offset < 65536 && offset <= at
    requires src[at..at + matLen] == src[at - offset..at - offset + matLen]
    ensures Decode(EncodeSequence(src[anchor..at], offset, matLen) + tail, src[..anchor], |src|)
         == Decode(tail, src[..at + matLen], |src|)
  {
    hide EncodeSequence, Parse;
    ParseEncoded(src[anchor..at], offset, matLen, tail);
    assert src[..anchor] + src[anchor..at] == src[..at];
    CopyReproduces(src, at, offset, matLen);
  }

  /** A block of fewer than four bytes never decodes to as many bytes as it has. */
  lemma ShortBlocksNeverDecode(s: seq<byte>)
    requires |s| < MIN_MATCH
    ensures Decode(s, [], |s|) == None
  {
    match Parse(s)
    case Malformed =>
    case Last(lits) => assert |lits| < |s|;
    case Match(lits, offset, matLen, rest) => assert lits == [];
  }
}
