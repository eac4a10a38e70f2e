/**
 Directory listing: the kernel writes `linux_dirent64` records into a caller's buffer and
 remembers how many entries it has delivered; `cp` calls it until nothing comes back and
 picks the names out of the records.
 */
module Dirents {
  import opened Wrappers

  const EBADF := -9
  const ENOTDIR := -20

  /** The buffer of `cp`. */
  const BUF: nat := 32768

  datatype Entry = Entry(ino: nat, fileType: byte, name: seq<byte>)

  /** Bytes of a record: a 19-byte header, the name and its NUL, rounded up to eight. */
  function Reclen(nlen: nat): (r: nat)
    ensures r % 8 == 0 && 24 <= r && 19 + nlen + 1 <= r < 19 + nlen + 1 + 8
  {
    var r := (19 + nlen + 1 + 7) / 8 * 8;
    if r < 24 then 24 else r
  }

  /** The `n` low bytes of `v`, least significant first. */
  function LittleEndian(v: nat, n: nat): (s: seq<byte>)
    ensures |s| == n
    decreases n
  {
    if n == 0 then [] else [v % 256] + LittleEndian(v / 256, n - 1)
  }

  // ---- Records ----

  /** Inode number, position of the next entry, record length, file type, and the name with its NUL. */
  function Record(e: Entry, next: nat): (r: seq<byte>)
    ensures |r| == 20 + |e.name|
  {
    LittleEndian(e.ino, 8) + LittleEndian(next, 8) + LittleEndian(Reclen(|e.name|), 2) + [e.fileType] + e.name + [0]
  }

  /** `b` holds the record of `e` at `at`. */
  ghost predicate RecordAt(b: seq<byte>, at: nat, e: Entry, next: nat) {
    at + Reclen(|e.name|) <= |b| && b[at..at + 20 + |e.name|] == Record(e, next)
  }

  lemma RecordFrame(b: seq<byte>, c: seq<byte>, at: nat, e: Entry, next: nat, hi: nat)
    requires RecordAt(b, at, e, next) && at + Reclen(|e.name|) <= hi <= |b| && hi <= |c| && b[..hi] == c[..hi]
    ensures RecordAt(c, at, e, next)
  {
    hide Record;
    SameSlice(b, c, hi, at, at + 20 + |e.name|);
  }

  lemma SameSlice(b: seq<byte>, c: seq<byte>, hi: nat, i: nat, j: nat)
    requires i <= j <= hi <= |b| && hi <= |c| && b[..hi] == c[..hi]
    ensures b[i..j] == c[i..j]
  {
    assert b[i..j] == b[..hi][i..j] && c[i..j] == c[..hi][i..j];
  }

  /** Bytes of the records of `es`. */
  function Size(es: seq<Entry>): nat {
    if es == [] then 0 else Size(es[..|es| - 1]) + Reclen(|es[|es| - 1].name|)
  }

  /** Records start at multiples of eight, and each takes at least 24 bytes. */
  lemma {:induction false} SizeAligned(es: seq<Entry>)
    ensures Size(es) % 8 == 0 && Size(es) >= 24 * |es|
  {
    if es == [] {
    } else {
      SizeAligned(es[..|es| - 1]);
    }
  }

  lemma SizeNext(es: seq<Entry>, i: nat)
    requires i < |es|
    ensures Size(es[..i + 1]) == Size(es[..i]) + Reclen(|es[i].name|)
  {
    assert es[..i + 1][..i] == es[..i];
  }

  lemma {:induction false} SizeGrows(es: seq<Entry>, i: nat, j: nat)
    requires i <= j <= |es|
    ensures Size(es[..i]) <= Size(es[..j])
    decreases j
  {
    if i >= j {
    } else {
      SizeNext(es, j - 1);
      SizeGrows(es, i, j - 1);
    }
  }

  /** `b` starts with the records of `es`, which begin at position `first` of the directory. */
  ghost predicate Encoded(b: seq<byte>, es: seq<Entry>, first: nat) {
    Size(es) <= |b| && forall i: nat :: i < |es| ==> RecordAt(b, Size(es[..i]), es[i], first + i + 1)
  }

  lemma EncodedNext(b: seq<byte>, c: seq<byte>, es: seq<Entry>, first: nat, e: Entry)
    requires Encoded(b, es, first) && |b| == |c| && b[..Size(es)] == c[..Size(es)]
    requires RecordAt(c, Size(es), e, first + |es| + 1)
    ensures Encoded(c, es + [e], first)
  {
    hide RecordAt, Size, Reclen;
    var more := es + [e];
    assert more[..|es|] == es;
    forall i: nat | i < |more| ensures RecordAt(c, Size(more[..i]), more[i], first + i + 1) {
      if i < |es| {
        assert more[..i] == es[..i];
        EarlierRecord(b, c, es, first, i);
      }
    }
    RecordFits(c, Size(es), e, first + |es| + 1);
    SizeNext(more, |es|);
    assert more[..|es| + 1] == more;
  }

  lemma EarlierRecord(b: seq<byte>, c: seq<byte>, es: seq<Entry>, first: nat, i: nat)
    requires Encoded(b, es, first) && |b| == |c| && b[..Size(es)] == c[..Size(es)] && i < |es|
    ensures RecordAt(c, Size(es[..i]), es[i], first + i + 1)
  {
    hide RecordAt, Size, Reclen;
    SizeNext(es, i);
    SizeGrows(es, i + 1, |es|);
    assert es[..|es|] == es;
    RecordFrame(b, c, Size(es[..i]), es[i], first + i + 1, Size(es));
  }

  lemma NothingEncoded(b: seq<byte>, first: nat)
    ensures Size([]) == 0 && Encoded(b, [], first)
  {
  }

  lemma RecordFits(b: seq<byte>, at: nat, e: Entry, next: nat)
    requires RecordAt(b, at, e, next)
    ensures at + Reclen(|e.name|) <= |b|
  {
  }

  // ---- Encoder ----

  /** `c` is `b` with `s` written over it at `at`. */
  ghost predicate Written(b: seq<byte>, c: seq<byte>, at: nat, s: seq<byte>) {
    at + |s| <= |b| && c == b[..at] + s + b[at + |s|..]
  }

  lemma WrittenTwice(b: seq<byte>, c: seq<byte>, d: seq<byte>, at: nat, s: seq<byte>, t: seq<byte>)
    requires Written(b, c, at, s) && Written(c, d, at + |s|, t)
    ensures Written(b, d, at, s + t)
  {
    assert c[..at + |s|] == b[..at] + s;
    assert c[at + |s| + |t|..] == b[at + |s| + |t|..];
  }

  lemma NothingWritten(b: seq<byte>, at: nat)
    requires at <= |b|
    ensures Written(b, b, at, [])
  {
  }

  lemma OneWritten(b: seq<byte>, c: seq<byte>, at: nat, x: byte)
    requires at < |b| == |c| && c[at] == x && forall i :: 0 <= i < |b| && i != at ==> c[i] == b[i]
    ensures Written(b, c, at, [x])
  {
  }

  method PutLittleEndian(buf: array<byte>, at: nat, v: nat, n: nat)
    requires at + n <= buf.Length
    modifies buf
    ensures Written(old(buf[..]), buf[..], at, LittleEndian(v, n))
    decreases n
  {
    hide Written;
    NothingWritten(buf[..], at);
    if n > 0 {
      ghost var b := buf[..];
      buf[at] := v % 256;
      OneWritten(b, buf[..], at, v % 256);
      ghost var c := buf[..];
      PutLittleEndian(buf, at + 1, v / 256, n - 1);
      WrittenTwice(b, c, buf[..], at, [v % 256], LittleEndian(v / 256, n - 1));
    }
  }

  method PutBytes(buf: array<byte>, at: nat, s: seq<byte>)
    requires at + |s| <= buf.Length
    modifies buf
    ensures Written(old(buf[..]), buf[..], at, s)
  {
    hide Written;
    NothingWritten(buf[..], at);
    for i := 0 to |s|
      invariant Written(old(buf[..]), buf[..], at, s[..i])
    {
      ghost var c := buf[..];
      buf[at + i] := s[i];
      OneWritten(c, buf[..], at + i, s[i]);
      WrittenTwice(old(buf[..]), c, buf[..], at, s[..i], [s[i]]);
      assert s[..i + 1] == s[..i] + [s[i]];
    }
    assert s[..|s|] == s;
  }

  method PutRecord(buf: array<byte>, at: nat, e: Entry, next: nat)
    requires at + Reclen(|e.name|) <= buf.Length
    modifies buf
    ensures Written(old(buf[..]), buf[..], at, Record(e, next))
  {
    hide LittleEndian, Written, Reclen;
    var n := |e.name|;
    ghost var b := buf[..];
    PutLittleEndian(buf, at, e.ino, 8);
    ghost var rec, was := LittleEndian(e.ino, 8), buf[..];
    PutLittleEndian(buf, at + 8, next, 8);
    WrittenTwice(b, was, buf[..], at, rec, LittleEndian(next, 8));
    rec, was := rec + LittleEndian(next, 8), buf[..];
    PutLittleEndian(buf, at + 16, Reclen(n), 2);
    WrittenTwice(b, was, buf[..], at, rec, LittleEndian(Reclen(n), 2));
    rec, was := rec + LittleEndian(Reclen(n), 2), buf[..];
    PutBytes(buf, at + 18, [e.fileType]);
    WrittenTwice(b, was, buf[..], at, rec, [e.fileType]);
    rec, was := rec + [e.fileType], buf[..];
    PutBytes(buf, at + 19, e.name);
    WrittenTwice(b, was, buf[..], at, rec, e.name);
    rec, was := rec + e.name, buf[..];
    PutBytes(buf, at + 19 + n, [0]);
    WrittenTwice(b, was, buf[..], at, rec, [0]);
  }

  lemma WrittenRecord(b: seq<byte>, c: seq<byte>, at: nat, e: Entry, next: nat)
    requires at + Reclen(|e.name|) <= |b| && Written(b, c, at, Record(e, next))
    ensures |c| == |b| && RecordAt(c, at, e, next) && c[..at] == b[..at]
  {
    hide Record;
  }

  /** The entries from position `skip` on. */
  function From(entries: seq<Entry>, skip: nat): seq<Entry> {
    if skip <= |entries| then entries[skip..] else []
  }

  /** `n` is how many of `es` are delivered into `count` bytes: as many as fit, in order. */
  ghost predicate Fitting(es: seq<Entry>, count: nat, n: nat) {
    n <= |es| && Size(es[..n]) <= count && (n < |es| ==> Size(es[..n]) + Reclen(|es[n].name|) > count)
  }

  /** Write the records of the entries after the first `skip`, as many as fit the buffer. */
  method FillRecords(entries: seq<Entry>, skip: nat, buf: array<byte>) returns (written: nat, consumed: nat)
    modifies buf
    ensures Fitting(From(entries, skip), buf.Length, consumed)
    ensures written == Size(From(entries, skip)[..consumed]) <= buf.Length
    ensures Encoded(buf[..], From(entries, skip)[..consumed], skip)
  {
    hide Encoded, Written, Record, Reclen, Size;
    var es := From(entries, skip);
    written, consumed := 0, 0;
    NothingEncoded(buf[..], skip);
    assert es[..0] == [];
    while consumed < |es|
      invariant consumed <= |es| && written == Size(es[..consumed]) <= buf.Length
      invariant Encoded(buf[..], es[..consumed], skip)
    {
      var entry := es[consumed];
      var reclen := Reclen(|entry.name|);
      SizeNext(es, consumed);
      if written + reclen > buf.Length { break; }
      ghost var b := buf[..];
      PutRecord(buf, written, entry, skip + consumed + 1);
      WrittenRecord(b, buf[..], written, entry, skip + consumed + 1);
      EncodedNext(b, buf[..], es[..consumed], skip, entry);
      assert es[..consumed] + [entry] == es[..consumed + 1];
      written := written + reclen;
      consumed := consumed + 1;
    }
  }

  /** An open file; a directory has entries, and `offset` counts those delivered. */
  class OpenFile {
    const isDir: bool
    const entries: seq<Entry>
    var offset: nat

    constructor (isDir: bool, entries: seq<Entry>)
      ensures this.isDir == isDir && this.entries == entries && offset == 0
    {
      this.isDir, this.entries, offset := isDir, entries, 0;
    }
  }

  /** Deliver records and move the cursor past them: the bytes written, or an error. */
  method Getdents64(f: OpenFile?, buf: array<byte>) returns (r: int)
    modifies f, buf
    ensures f == null ==> r == EBADF && buf[..] == old(buf[..])
    ensures f != null && !f.isDir ==> r == ENOTDIR && f.offset == old(f.offset) && buf[..] == old(buf[..])
    ensures f != null && f.isDir ==>
              && old(f.offset) <= f.offset
              && Fitting(From(f.entries, old(f.offset)), buf.Length, f.offset - old(f.offset))
              && r == Size(From(f.entries, old(f.offset))[..f.offset - old(f.offset)])
              && Encoded(buf[..], From(f.entries, old(f.offset))[..f.offset - old(f.offset)], old(f.offset))
  {
    hide Encoded, Fitting, From, Size;
    if f == null { return EBADF; }
    if !f.isDir { return ENOTDIR; }
    var bytes, entries := FillRecords(f.entries, f.offset, buf);
    if entries > 0 { f.offset := f.offset + entries; }
    r := bytes;
  }

  // ---- Decoder ----

  /** The bytes before the first NUL. */
  function UpToNul(s: seq<byte>): (r: seq<byte>)
    ensures r <= s && 0 !in r && (|r| < |s| ==> s[|r|] == 0)
  {
    if s == [] || s[0] == 0 then [] else [s[0]] + UpToNul(s[1..])
  }

  const DOT: seq<byte> := [46]
  const DOTDOT: seq<byte> := [46, 46]

  /** What the decoder keeps of an entry. */
  function Kept(e: Entry): seq<seq<byte>> {
    var name := UpToNul(e.name);
    if name != DOT && name != DOTDOT then [name] else []
  }

  function Listed(es: seq<Entry>): seq<seq<byte>> {
    if es == [] then [] else Listed(es[..|es| - 1]) + Kept(es[|es| - 1])
  }

  /** The position of the first NUL, or 0 if there is none. */
  method NameLength(buf: array<byte>, from: nat) returns (n: nat)
    requires from <= buf.Length
    ensures from + n <= buf.Length
    ensures 0 in buf[from..] ==> buf[from..from + n] == UpToNul(buf[from..])
    ensures 0 !in buf[from..] ==> n == 0
  {
    n := 0;
    while from + n < buf.Length
      invariant from + n <= buf.Length && 0 !in buf[from..from + n]
    {
      if buf[from + n] == 0 {
        NulAt(buf[from..], n);
        return;
      }
      n := n + 1;
    }
    assert buf[from..from + n] == buf[from..];
    n := 0;
  }

  lemma {:induction false} NulAt(s: seq<byte>, n: nat)
    requires n < |s| && s[n] == 0 && 0 !in s[..n]
    ensures UpToNul(s) == s[..n]
    decreases n
  {
    if n == 0 {
    } else {
      assert s[..n][0] == s[0];
      forall x | x in s[1..][..n - 1] ensures x in s[..n] {
        var i :| 0 <= i < n - 1 && s[1..][i] == x;
        assert s[..n][i + 1] == x;
      }
      NulAt(s[1..], n - 1);
    }
  }

  /** Reading a name in place stops where it would in the name alone. */
  lemma {:induction false} UpToNulWithin(name: seq<byte>, rest: seq<byte>)
    requires rest != [] && rest[0] == 0
    ensures UpToNul(name + rest) == UpToNul(name)
  {
    if name == [] {
      assert name + rest == rest;
    } else if name[0] != 0 {
      assert (name + rest)[1..] == name[1..] + rest;
      UpToNulWithin(name[1..], rest);
    }
  }

  /** Two bytes, least significant first. */
  function U16(lo: byte, hi: byte): nat {
    lo + 256 * hi
  }

  lemma U16RoundTrip(v: nat)
    requires v < 65536
    ensures U16(LittleEndian(v, 2)[0], LittleEndian(v, 2)[1]) == v
  {
  }

  /** The length field and the name read back from a record. */
  lemma RecordFields(b: seq<byte>, at: nat, e: Entry, next: nat)
    requires RecordAt(b, at, e, next) && Reclen(|e.name|) < 65536
    ensures U16(b[at + 16], b[at + 17]) == Reclen(|e.name|)
    ensures 0 in b[at + 19..] && UpToNul(b[at + 19..]) == UpToNul(e.name)
  {
    hide LittleEndian, UpToNul;
    var n := |e.name|;
    var rec := Record(e, next);
    var w := b[at..at + 20 + n];
    U16RoundTrip(Reclen(n));
    assert w[16] == LittleEndian(Reclen(n), 2)[0] && w[17] == LittleEndian(Reclen(n), 2)[1];
    assert w[19..] == e.name + [0];
    assert b[at + 19..] == w[19..] + b[at + 20 + n..];
    var rest := [0] + b[at + 20 + n..];
    assert b[at + 19..] == e.name + rest;
    assert rest[0] == 0 && (e.name + rest)[n] == 0;
    UpToNulWithin(e.name, rest);
  }

  /** The number whose bytes are `s`, least significant first. */
  function Number(s: seq<byte>): nat {
    if s == [] then 0 else s[0] + 256 * Number(s[1..])
  }

  function Pow256(n: nat): nat {
    if n == 0 then 1 else 256 * Pow256(n - 1)
  }

  lemma {:induction false} NumberRoundTrip(v: nat, n: nat)
    requires v < Pow256(n)
    ensures Number(LittleEndian(v, n)) == v
  {
    if n == 0 {
    } else {
      NumberRoundTrip(v / 256, n - 1);
      assert LittleEndian(v, n)[1..] == LittleEndian(v / 256, n - 1);
    }
  }

  lemma SliceOfSlice(b: seq<byte>, lo: nat, hi: nat, i: nat, j: nat)
    requires i <= j && lo + j <= hi <= |b|
    ensures b[lo + i..lo + j] == b[lo..hi][i..j]
  {
    var s := b[lo..hi];
    forall k | 0 <= k < j - i ensures b[lo + i..lo + j][k] == s[i..j][k] { assert s[i + k] == b[lo + i + k]; }
  }

  lemma RecordParts(e: Entry, next: nat)
    ensures var r := Record(e, next);
      r[0..8] == LittleEndian(e.ino, 8) && r[8..16] == LittleEndian(next, 8) && r[18] == e.fileType
  {
    hide LittleEndian, Reclen;
    var r, ino, pos := Record(e, next), LittleEndian(e.ino, 8), LittleEndian(next, 8);
    var tail := LittleEndian(Reclen(|e.name|), 2) + [e.fileType] + e.name + [0];
    assert r == ino + pos + tail;
    assert r[..8] == ino && r[8..16] == pos && tail[2] == e.fileType;
  }

  /** The fixed fields of a record: inode number in bytes 0 to 7, next position in 8 to 15, type in 18. */
  lemma RecordHeader(b: seq<byte>, at: nat, e: Entry, next: nat)
    requires RecordAt(b, at, e, next) && e.ino < Pow256(8) && next < Pow256(8)
    ensures Number(b[at..at + 8]) == e.ino && Number(b[at + 8..at + 16]) == next && b[at + 18] == e.fileType
  {
    hide Record, Number, Pow256, Reclen, LittleEndian;
    var hi := at + 20 + |e.name|;
    RecordParts(e, next);
    NumberRoundTrip(e.ino, 8);
    NumberRoundTrip(next, 8);
    SliceOfSlice(b, at, hi, 0, 8);
    SliceOfSlice(b, at, hi, 8, 16);
    assert b[at + 18] == b[at..hi][18];
  }

  /** Pick the names out of the first `n` bytes. */
  method DecodeNames(buf: array<byte>, n: nat, ghost es: seq<Entry>, ghost first: nat) returns (names: seq<seq<byte>>)
    requires buf.Length < 65536 && Encoded(buf[..], es, first) && n == Size(es)
    ensures names == Listed(es)
  {
    hide UpToNul, Encoded, Reclen, Size, Listed;
    names := [];
    var off := 0;
    ghost var i := 0;
    assert es[..0] == [] && es[..|es|] == es;
    EmptySize();
    EmptyListed();
    while off < n
      invariant 0 <= i <= |es| && off == Size(es[..i]) && names == Listed(es[..i])
      decreases n - off
    {
      assert i < |es|;
      var reclen, name := DecodeRecord(buf, off, es, first, i);
      if name != DOT && name != DOTDOT { names := names + [name]; }
      if reclen == 0 { break; }
      off := off + reclen;
      i := i + 1;
    }
    SizeReached(es, i);
  }

  /** Length and name of the record at `off`, which is that of entry `i`. */
  method DecodeRecord(buf: array<byte>, off: nat, ghost es: seq<Entry>, ghost first: nat, ghost i: nat)
    returns (reclen: nat, name: seq<byte>)
    requires buf.Length < 65536 && Encoded(buf[..], es, first) && i < |es| && off == Size(es[..i])
    ensures name == UpToNul(es[i].name) && reclen > 0 && Size(es[..i + 1]) == off + reclen
    ensures Listed(es[..i + 1]) == Listed(es[..i]) + Kept(es[i])
  {
    hide UpToNul, Encoded, Reclen, Size, Kept;
    DecodeStep(buf[..], es, first, i);
    reclen := U16(buf[off + 16], buf[off + 17]);
    var nlen := NameLength(buf, off + 19);
    name := buf[off + 19..off + 19 + nlen];
    assert buf[..][off + 19..] == buf[off + 19..];
  }

  lemma SizeReached(es: seq<Entry>, i: nat)
    requires i <= |es| && Size(es[..i]) >= Size(es)
    ensures i == |es|
  {
    assert es[..|es|] == es;
    if i < |es| {
      SizeNext(es, i);
      SizeGrows(es, i + 1, |es|);
    }
  }

  lemma EmptyListed()
    ensures Listed([]) == []
  {
  }

  lemma EmptySize()
    ensures Size([]) == 0
  {
  }

  lemma DecodeStep(b: seq<byte>, es: seq<Entry>, first: nat, i: nat)
    requires |b| < 65536 && Encoded(b, es, first) && i < |es|
    ensures var off := Size(es[..i]);
            && off + 19 <= |b| && 0 in b[off + 19..] && UpToNul(b[off + 19..]) == UpToNul(es[i].name)
            && U16(b[off + 16], b[off + 17]) == Reclen(|es[i].name|) > 0
    ensures Size(es[..i + 1]) == Size(es[..i]) + Reclen(|es[i].name|)
    ensures Listed(es[..i + 1]) == Listed(es[..i]) + Kept(es[i])
  {
    hide UpToNul, Size, Record, Kept;
    SizeNext(es, i);
    assert es[..i + 1][..i] == es[..i];
    RecordFields(b, Size(es[..i]), es[i], first + i + 1);
  }

  // ---- The whole listing ----

  /** Where the listing stops: the first entry whose record is longer than the buffer, or the end. */
  function Stop(es: seq<Entry>): (n: nat)
    ensures n <= |es| && forall i :: 0 <= i < n ==> Reclen(|es[i].name|) <= BUF
    ensures n < |es| ==> Reclen(|es[n].name|) > BUF
  {
    if es == [] || Reclen(|es[0].name|) > BUF then 0 else 1 + Stop(es[1..])
  }

  lemma {:induction false} ListedConcat(a: seq<Entry>, b: seq<Entry>)
    ensures Listed(a + b) == Listed(a) + Listed(b)
  {
    hide Kept;
    if b == [] {
      assert a + b == a;
    } else {
      var n := |b| - 1;
      assert (a + b)[..|a + b| - 1] == a + b[..n];
      ListedConcat(a, b[..n]);
    }
  }

  /** `n` comes no later than where the listing stops. */
  ghost predicate AllFit(es: seq<Entry>, n: nat) {
    n <= |es| && forall i :: 0 <= i < n ==> Reclen(|es[i].name|) <= BUF
  }

  /** One call after `k` entries have been delivered. */
  lemma Round(all: seq<Entry>, k: nat, m: nat)
    requires AllFit(all, k) && Fitting(all[k..], BUF, m)
    ensures AllFit(all, k + m)
    ensures Listed(all[..k]) + Listed(all[k..][..m]) == Listed(all[..k + m])
    ensures Size(all[k..][..m]) <= 0 ==> m == 0 && k == Stop(all)
  {
    hide Size, Reclen, Listed;
    var es := all[k..];
    forall i | k <= i < k + m ensures Reclen(|all[i].name|) <= BUF {
      SizeNext(es, i - k);
      SizeGrows(es, i - k + 1, m);
    }
    assert all[..k] + es[..m] == all[..k + m];
    ListedConcat(all[..k], es[..m]);
    SizeAligned(es[..m]);
    if m == 0 {
      EmptySize();
      assert es[..0] == [];
      StopIs(all, k);
    }
  }

  lemma StopIs(es: seq<Entry>, n: nat)
    requires AllFit(es, n) && (n < |es| ==> Reclen(|es[n].name|) > BUF)
    ensures Stop(es) == n
  {
    hide Reclen;
    var s := Stop(es);
    assert s < |es| ==> s >= n;
  }

  /** Open the listing of a directory and collect its names. */
  method ListNames(f: OpenFile?) returns (names: seq<seq<byte>>)
    modifies f
    ensures f == null || !f.isDir ==> names == []
    ensures f != null && f.isDir ==>
              && names == Listed(From(f.entries, old(f.offset))[..Stop(From(f.entries, old(f.offset)))])
              && f.offset == old(f.offset) + Stop(From(f.entries, old(f.offset)))
  {
    hide Fitting, Encoded, Size, Stop, AllFit, Listed;
    var buf := new byte[BUF](_ => 0);
    names := [];
    ghost var start := if f == null then 0 else f.offset;
    ghost var all := if f == null then [] else From(f.entries, f.offset);
    ghost var k := 0;
    NothingYet(all);
    while true
      invariant fresh(buf) && buf.Length == BUF && 0 <= k <= |all|
      invariant f == null || !f.isDir ==> names == []
      invariant f != null && f.isDir ==> f.offset == start + k && AllFit(all, k) && names == Listed(all[..k])
      decreases |all| - k
    {
      var n := Getdents64(f, buf);
      if f != null && f.isDir {
        ghost var m := f.offset - (start + k);
        FromFrom(f.entries, start, k);
        FittingBound(all[k..], m);
        Round(all, k, m);
        if n > 0 { MoreThanNothing(all[k..], m); }
      }
      if n <= 0 { break; }
      ghost var m := f.offset - (start + k);
      var more := DecodeNames(buf, n, all[k..][..m], start + k);
      names := names + more;
      k := k + m;
    }
  }

  lemma NothingYet(all: seq<Entry>)
    ensures AllFit(all, 0) && Listed(all[..0]) == []
  {
  }

  lemma FromFrom(entries: seq<Entry>, start: nat, k: nat)
    requires k <= |From(entries, start)|
    ensures From(entries, start + k) == From(entries, start)[k..]
  {
  }

  lemma FittingBound(es: seq<Entry>, m: nat)
    requires Fitting(es, BUF, m)
    ensures m <= |es|
  {
  }

  lemma MoreThanNothing(es: seq<Entry>, m: nat)
    requires m <= |es| && Size(es[..m]) > 0
    ensures m > 0
  {
    assert es[..0] == [];
  }

  ghost predicate NoNuls(es: seq<Entry>) {
    forall i :: 0 <= i < |es| ==> 0 !in es[i].name
  }

  /** The names of the entries, without those of the directory itself and its parent. */
  function Names(es: seq<Entry>): seq<seq<byte>> {
    if es == [] then []
    else
      var name := es[|es| - 1].name;
      Names(es[..|es| - 1]) + if name == DOT || name == DOTDOT then [] else [name]
  }

  lemma {:induction false} WholeName(s: seq<byte>)
    requires 0 !in s
    ensures UpToNul(s) == s
  {
    if s == [] {
    } else {
      WholeName(s[1..]);
    }
  }

  lemma {:induction false} ListedNames(es: seq<Entry>)
    requires NoNuls(es)
    ensures Listed(es) == Names(es)
  {
    if es == [] {
    } else {
      ListedNames(es[..|es| - 1]);
      WholeName(es[|es| - 1].name);
    }
  }

  /** A listing is complete, every name once and in order, exactly when every record fits the buffer. */
  lemma CompleteIff(es: seq<Entry>)
    requires NoNuls(es)
    ensures Listed(es[..Stop(es)]) == Names(es) <==> forall i :: 0 <= i < |es| ==> Reclen(|es[i].name|) <= BUF
  {
    hide Listed, Names, Reclen;
    var s := Stop(es);
    ListedNames(es);
    if s == |es| {
      assert es[..s] == es;
    } else {
      assert es == es[..s + 1] + es[s + 1..] && es[..s + 1] == es[..s] + [es[s]];
      ListedConcat(es[..s + 1], es[s + 1..]);
      ListedConcat(es[..s], [es[s]]);
      LongNameKept(es[s]);
    }
  }

  lemma LongNameKept(e: Entry)
    requires 0 !in e.name && Reclen(|e.name|) > BUF
    ensures |Listed([e])| == 1
  {
    WholeName(e.name);
    assert [e][..0] == [];
  }
}
