/**
Where every byte of an encoded manifest is (the layout of vcs/archive/encode.go):
each field of each record at its own offset, least significant byte first.
Nothing here is stated through the printers and parsers of the codec.
 */
module ByteLayout {
  import opened Basics
  import opened Extents
  import opened Manifest
  import opened Valid
  import opened Wire
  import opened Records
  import opened Codec
  import Frames

  // ----- integers -----

  function U32At(d: Bytes, k: nat): nat
    requires k + 4 <= |d|
  {
    var b0: nat, b1: nat, b2: nat, b3: nat := d[k], d[k + 1], d[k + 2], d[k + 3];
    b0 + 0x100 * b1 + 0x1_0000 * b2 + 0x100_0000 * b3
  }

  function U64At(d: Bytes, k: nat): nat
    requires k + 8 <= |d|
  {
    U32At(d, k) + 0x1_0000_0000 * U32At(d, k + 4)
  }

  /** Byte i of the w-byte form of n has weight 256 to the i. */
  lemma {:induction false} ByteWeight(n: nat, w: nat, i: nat)
    requires i < w
    ensures LittleEndian(n, w)[i] == n / Pow256(i) % 256
    decreases w
  {
    if i > 0 {
      ByteWeight(n / 256, w - 1, i - 1);
      DivideTwice(n, 256, Pow256(i - 1));
    }
  }

  lemma DivideTwice(n: nat, a: nat, b: nat)
    requires a > 0 && b > 0
    ensures a * b > 0 && n / a / b == n / (a * b)
  {
    var q := n / a;
    var p := q / b;
    assert n == a * q + n % a && q == b * p + q % b;
    MulMonotone(q % b, b - 1, a);
    assert a * q == (a * b) * p + a * (q % b);
    assert a * (b - 1) == a * b - a;
    ExactQuotient(a * b, p, a * (q % b) + n % a, n);
  }

  /** The first four bytes are the low 32 bits; what follows is the rest of n. */
  lemma FourBytes(n: nat, w: nat)
    requires 4 <= w
    ensures var b := LittleEndian(n, w);
            var q := n / 256 / 256 / 256 / 256;
            U32At(b, 0) + TWO_32 * q == n && b[4..] == LittleEndian(q, w - 4)
  {
    var q1 := n / 256;
    var q2 := q1 / 256;
    var q3 := q2 / 256;
    var q4 := q3 / 256;
    var b3 := LittleEndian(q3, w - 3);
    var b2 := LittleEndian(q2, w - 2);
    var b1 := LittleEndian(q1, w - 1);
    assert b3 == [q3 % 256] + LittleEndian(q4, w - 4);
    assert b2 == [q2 % 256] + b3;
    assert b1 == [q1 % 256] + b2;
    assert LittleEndian(n, w) == [n % 256] + b1;
  }

  lemma U32Bytes(v: nat)
    requires v < TWO_32
    ensures U32At(LittleEndian(v, 4), 0) == v
  {
    hide LittleEndian, U32At;
    FourBytes(v, 4);
  }

  lemma U64Bytes(v: u64)
    ensures U64At(Le64(v), 0) == v
  {
    hide LittleEndian, U32At;
    var b := Le64(v);
    FourBytes(v, 8);
    FourBytes(v / 256 / 256 / 256 / 256, 4);
    assert b[4..8] == b[4..];
    U32Shift(b, 4, b[4..]);
  }

  // ----- fields -----

  /** What follows position k. */
  predicate Rest(d: Bytes, k: nat, rest: Bytes) {
    k <= |d| && d[k..] == rest
  }

  lemma RestAfter(d: Bytes, k: nat, piece: Bytes, rest: Bytes)
    requires Rest(d, k, piece + rest)
    ensures k + |piece| <= |d| && d[k..k + |piece|] == piece && Rest(d, k + |piece|, rest)
  {
    assert d[k..][..|piece|] == piece && d[k..][|piece|..] == rest;
  }

  lemma U32Shift(d: Bytes, k: nat, b: Bytes)
    requires k + 4 <= |d| && d[k..k + 4] == b
    ensures U32At(d, k) == U32At(b, 0)
  {
    assert d[k] == b[0] && d[k + 1] == b[1] && d[k + 2] == b[2] && d[k + 3] == b[3];
  }

  lemma U64Shift(d: Bytes, k: nat, b: Bytes)
    requires k + 8 <= |d| && d[k..k + 8] == b
    ensures U64At(d, k) == U64At(b, 0)
  {
    hide U32At;
    var low, high := b[..4], b[4..];
    assert d[k..k + 4] == low && d[k + 4..k + 8] == high && b[0..4] == low && b[4..8] == high;
    U32Shift(d, k, low);
    U32Shift(d, k + 4, high);
    U32Shift(b, 0, low);
    U32Shift(b, 4, high);
  }

  lemma ReadU32(d: Bytes, k: nat, v: u32, rest: Bytes)
    requires Rest(d, k, PutU32(v, rest))
    ensures k + 4 <= |d| && U32At(d, k) == v && Rest(d, k + 4, rest)
  {
    hide Rest, U32At, LittleEndian;
    RestAfter(d, k, Le32(v), rest);
    U32Bytes(v);
    U32Shift(d, k, Le32(v));
  }

  lemma ReadLength(d: Bytes, k: nat, n: nat, rest: Bytes)
    requires Rest(d, k, PutLength(n, rest)) && n < TWO_32
    ensures k + 4 <= |d| && U32At(d, k) == n && Rest(d, k + 4, rest)
  {
    hide Rest, U32At, LittleEndian;
    RestAfter(d, k, LittleEndian(n, 4), rest);
    U32Bytes(n);
    U32Shift(d, k, LittleEndian(n, 4));
  }

  lemma ReadU64(d: Bytes, k: nat, v: u64, rest: Bytes)
    requires Rest(d, k, PutU64(v, rest))
    ensures k + 8 <= |d| && U64At(d, k) == v && Rest(d, k + 8, rest)
  {
    hide Rest, U64At, LittleEndian;
    RestAfter(d, k, Le64(v), rest);
    U64Bytes(v);
    U64Shift(d, k, Le64(v));
  }

  lemma ReadByte(d: Bytes, k: nat, v: byte, rest: Bytes)
    requires Rest(d, k, PutByte(v, rest))
    ensures k + 1 <= |d| && d[k] == v && Rest(d, k + 1, rest)
  {
    RestAfter(d, k, [v], rest);
    assert d[k..k + 1][0] == v;
  }

  lemma ReadRaw(d: Bytes, k: nat, s: Bytes, rest: Bytes)
    requires Rest(d, k, PutRaw(s, rest))
    ensures k + |s| <= |d| && d[k..k + |s|] == s && Rest(d, k + |s|, rest)
  {
    RestAfter(d, k, s, rest);
  }

  /** A length and that many bytes. */
  predicate StringAt(d: Bytes, k: nat, s: Bytes) {
    k + 4 + |s| <= |d| && U32At(d, k) == |s| && d[k + 4..k + 4 + |s|] == s
  }

  lemma ReadString(d: Bytes, k: nat, s: Bytes, rest: Bytes)
    requires Rest(d, k, PutString(s, rest)) && |s| < TWO_32
    ensures StringAt(d, k, s) && Rest(d, k + 4 + |s|, rest)
  {
    hide Rest, U32At, PutLength, PutRaw;
    ReadLength(d, k, |s|, PutRaw(s, rest));
    ReadRaw(d, k + 4, s, rest);
  }

  // ----- repeated records -----

  /** A printed record is length(t) bytes and then the tail. */
  ghost predicate Prefixes<T(!new)>(put: Printer<T>, length: T -> nat, ok: T -> bool) {
    forall t, tail :: ok(t) ==> Rest(put(t, tail), length(t), tail)
  }

  /** Record i of a table starts where those before it end. */
  lemma {:induction false} RecordStart<T(!new)>(put: Printer<T>, length: T -> nat, ok: T -> bool, items: seq<T>, tail: Bytes,
                                                d: Bytes, k: nat, i: nat)
    requires Prefixes(put, length, ok) && (forall t :: t in items ==> ok(t)) && i <= |items|
    requires Rest(d, k, PutAll(put, items, tail))
    ensures Rest(d, k + Total(length, items[..i]), PutAll(put, items[i..], tail))
    decreases i
  {
    hide Total;
    if i > 0 {
      RecordStart(put, length, ok, items, tail, d, k, i - 1);
      TotalStep(length, items, i - 1);
      var at := k + Total(length, items[..i - 1]);
      var others := PutAll(put, items[i..], tail);
      assert items[i - 1..][1..] == items[i..] && items[i - 1] in items;
      assert PutAll(put, items[i - 1..], tail) == put(items[i - 1], others);
      RestOfRest(d, at, put(items[i - 1], others), length(items[i - 1]), others);
    } else {
      NoneBefore(length, items);
      assert items[0..] == items;
    }
  }

  lemma NoneBefore<T>(length: T -> nat, items: seq<T>)
    ensures Total(length, items[..0]) == 0
  {
  }

  lemma RestOfRest(d: Bytes, k: nat, middle: Bytes, n: nat, rest: Bytes)
    requires Rest(d, k, middle) && Rest(middle, n, rest)
    ensures Rest(d, k + n, rest)
  {
    assert d[k..][n..] == d[k + n..];
  }

  /** Record i of a table, and the tail after the last. */
  lemma RecordAt<T(!new)>(put: Printer<T>, length: T -> nat, ok: T -> bool, items: seq<T>, tail: Bytes, d: Bytes, k: nat, i: nat)
    returns (rest: Bytes)
    requires Prefixes(put, length, ok) && (forall t :: t in items ==> ok(t)) && i < |items|
    requires Rest(d, k, PutAll(put, items, tail))
    ensures Rest(d, k + Total(length, items[..i]), put(items[i], rest))
  {
    hide Prefixes, Rest, Total;
    RecordStart(put, length, ok, items, tail, d, k, i);
    rest := PutAll(put, items[i..][1..], tail);
  }

  lemma TableEnd<T(!new)>(put: Printer<T>, length: T -> nat, ok: T -> bool, items: seq<T>, tail: Bytes, d: Bytes, k: nat)
    requires Prefixes(put, length, ok) && (forall t :: t in items ==> ok(t))
    requires Rest(d, k, PutAll(put, items, tail))
    ensures Rest(d, k + Total(length, items), tail)
  {
    hide Prefixes, Rest, Total;
    RecordStart(put, length, ok, items, tail, d, k, |items|);
    PrefixWhole(items);
    assert items[|items|..] == [];
  }

  // ----- records of the manifest -----

  predicate ExtentAt(d: Bytes, k: nat, e: Extent) {
    k + 16 <= |d| && U64At(d, k) == e.offset && U64At(d, k + 8) == e.length
  }

  predicate XattrAt(d: Bytes, k: nat, x: Xattr) {
    StringAt(d, k, x.name) && StringAt(d, k + 4 + |x.name|, x.value)
  }

  predicate PackAt(d: Bytes, k: nat, p: PackRef) {
    k + 48 <= |d| && U64At(d, k) == p.crc64 && d[k + 8..k + 40] == p.sha256 && U64At(d, k + 40) == p.sizeBytes
  }

  predicate FrameAt(d: Bytes, k: nat, f: Frame) {
    && k + 33 <= |d|
    && U32At(d, k) == f.packIndex && U64At(d, k + 4) == f.packOffset && U64At(d, k + 12) == f.compressedLength
    && U64At(d, k + 20) == f.uncompressedLength && d[k + 28] == (if f.rawBlocks then 1 else 0)
    && U32At(d, k + 29) == f.xxh64Lo32
  }

  predicate ChunkAt(d: Bytes, k: nat, c: ChunkRef) {
    && k + 56 <= |d|
    && U32At(d, k) == c.frameIndex && U64At(d, k + 4) == c.innerOffset && U64At(d, k + 12) == c.length
    && d[k + 20..k + 52] == c.sliceDigest && U32At(d, k + 52) == |c.extents|
    && forall j :: 0 <= j < |c.extents| ==> ExtentAt(d, k + 56 + 16 * j, c.extents[j])
  }

  function XattrLength(x: Xattr): nat {
    8 + |x.name| + |x.value|
  }

  function RowLength(row: Row): nat {
    89 + |row.entry.name| + |row.entry.linkName| + Total(XattrLength, row.entry.xattrs)
  }

  function ChunkLength(c: ChunkRef): nat {
    56 + 16 * |c.extents|
  }

  /** The fixed part of an entry. */
  predicate EntryHeadAt(d: Bytes, k: nat, e: Entry) {
    && k + 41 <= |d|
    && U32At(d, k) == e.parentIndex && d[k + 4] == e.kind && U32At(d, k + 5) == e.mode && U64At(d, k + 9) == e.size
    && U64At(d, k + 17) == (if e.mtimeNanos < 0 then e.mtimeNanos + TWO_64 else e.mtimeNanos)
    && U64At(d, k + 25) == (if e.ctimeNanos < 0 then e.ctimeNanos + TWO_64 else e.ctimeNanos)
    && U32At(d, k + 33) == e.nlink && U32At(d, k + 37) == e.hardlinkGroup
  }

  /** Names, digest, attributes, and how many chunks the entry has. */
  predicate EntryTailAt(d: Bytes, k: nat, e: Entry, chunks: nat) {
    && StringAt(d, k, e.name) && StringAt(d, k + 4 + |e.name|, e.linkName)
    && var at := k + 8 + |e.name| + |e.linkName|;
       && at + 36 <= |d| && d[at..at + 32] == e.contentDigest && U32At(d, at + 32) == |e.xattrs|
       && (forall j :: 0 <= j < |e.xattrs| ==> XattrAt(d, at + 36 + Total(XattrLength, e.xattrs[..j]), e.xattrs[j]))
       && at + 40 + Total(XattrLength, e.xattrs) <= |d|
       && U32At(d, at + 36 + Total(XattrLength, e.xattrs)) == chunks
  }

  predicate EntryAt(d: Bytes, k: nat, e: Entry, chunks: nat) {
    EntryHeadAt(d, k, e) && EntryTailAt(d, k + 41, e, chunks)
  }

  lemma ReadExtent(d: Bytes, k: nat, e: Extent, rest: Bytes)
    requires Rest(d, k, PutExtent(e, rest))
    ensures ExtentAt(d, k, e) && Rest(d, k + 16, rest)
  {
    hide Rest, PutU64, U64At;
    ReadU64(d, k, e.offset, PutU64(e.length, rest));
    ReadU64(d, k + 8, e.length, rest);
  }

  lemma ReadXattr(d: Bytes, k: nat, x: Xattr, rest: Bytes)
    requires Rest(d, k, PutXattr(x, rest)) && XattrFits(x)
    ensures XattrAt(d, k, x) && Rest(d, k + XattrLength(x), rest)
  {
    hide Rest, PutString, StringAt;
    ReadString(d, k, x.name, PutString(x.value, rest));
    ReadString(d, k + 4 + |x.name|, x.value, rest);
  }

  lemma ReadPack(d: Bytes, k: nat, p: PackRef, rest: Bytes)
    requires Rest(d, k, PutPack(p, rest))
    ensures PackAt(d, k, p) && Rest(d, k + 48, rest)
  {
    hide Rest, PutU64, PutRaw, U64At;
    var b2 := PutU64(p.sizeBytes, rest);
    var b1 := PutRaw(p.sha256, b2);
    ReadU64(d, k, p.crc64, b1);
    ReadRaw(d, k + 8, p.sha256, b2);
    ReadU64(d, k + 40, p.sizeBytes, rest);
  }

  lemma ReadFrame(d: Bytes, k: nat, f: Frame, rest: Bytes)
    requires Rest(d, k, PutFrame(f, rest))
    ensures FrameAt(d, k, f) && Rest(d, k + 33, rest)
  {
    hide Rest, PutU32, PutU64, PutByte, U32At, U64At;
    var b5 := PutU32(f.xxh64Lo32, rest);
    var b4 := PutByte(RawFlag(f.rawBlocks), b5);
    var b3 := PutU64(f.uncompressedLength, b4);
    var b2 := PutU64(f.compressedLength, b3);
    var b1 := PutU64(f.packOffset, b2);
    ReadU32(d, k, f.packIndex, b1);
    ReadU64(d, k + 4, f.packOffset, b2);
    ReadU64(d, k + 12, f.compressedLength, b3);
    ReadU64(d, k + 20, f.uncompressedLength, b4);
    ReadByte(d, k + 28, RawFlag(f.rawBlocks), b5);
    ReadU32(d, k + 29, f.xxh64Lo32, rest);
  }

  lemma {:induction false} ReadExtents(d: Bytes, k: nat, extents: seq<Extent>, rest: Bytes)
    requires Rest(d, k, PutAll(PutExtent, extents, rest))
    ensures forall j :: 0 <= j < |extents| ==> ExtentAt(d, k + 16 * j, extents[j])
    ensures Rest(d, k + 16 * |extents|, rest)
    decreases |extents|
  {
    hide Rest, PutExtent, ExtentAt;
    if extents != [] {
      ReadExtent(d, k, extents[0], PutAll(PutExtent, extents[1..], rest));
      ReadExtents(d, k + 16, extents[1..], rest);
      forall j | 0 <= j < |extents|
        ensures ExtentAt(d, k + 16 * j, extents[j])
      {
        if j > 0 {
          assert ExtentAt(d, k + 16 + 16 * (j - 1), extents[1..][j - 1]);
        }
      }
    }
  }

  lemma ReadChunk(d: Bytes, k: nat, c: ChunkRef, rest: Bytes)
    requires Rest(d, k, PutChunk(c, rest)) && ChunkFits(c)
    ensures ChunkAt(d, k, c) && Rest(d, k + ChunkLength(c), rest)
  {
    hide Rest, PutU32, PutU64, PutRaw, PutLength, PutAll, U32At, U64At, ExtentAt;
    var b5 := PutAll(PutExtent, c.extents, rest);
    var b4 := PutLength(|c.extents|, b5);
    var b3 := PutRaw(c.sliceDigest, b4);
    var b2 := PutU64(c.length, b3);
    var b1 := PutU64(c.innerOffset, b2);
    ReadU32(d, k, c.frameIndex, b1);
    ReadU64(d, k + 4, c.innerOffset, b2);
    ReadU64(d, k + 12, c.length, b3);
    ReadRaw(d, k + 20, c.sliceDigest, b4);
    ReadLength(d, k + 52, |c.extents|, b5);
    ReadExtents(d, k + 56, c.extents, rest);
  }

  lemma ReadEntryHead(d: Bytes, k: nat, e: Entry, rest: Bytes)
    requires Rest(d, k, PutEntryHead(e, rest))
    ensures EntryHeadAt(d, k, e) && Rest(d, k + 41, rest)
  {
    hide Rest, PutU32, PutU64, PutByte, U32At, U64At;
    var b7 := PutU32(e.hardlinkGroup, rest);
    var b6 := PutU32(e.nlink, b7);
    var b5 := PutU64(I64ToU64(e.ctimeNanos), b6);
    var b4 := PutU64(I64ToU64(e.mtimeNanos), b5);
    var b3 := PutU64(e.size, b4);
    var b2 := PutU32(e.mode, b3);
    var b1 := PutByte(e.kind, b2);
    ReadU32(d, k, e.parentIndex, b1);
    ReadByte(d, k + 4, e.kind, b2);
    ReadU32(d, k + 5, e.mode, b3);
    ReadU64(d, k + 9, e.size, b4);
    ReadU64(d, k + 17, I64ToU64(e.mtimeNanos), b5);
    ReadU64(d, k + 25, I64ToU64(e.ctimeNanos), b6);
    ReadU32(d, k + 33, e.nlink, b7);
    ReadU32(d, k + 37, e.hardlinkGroup, rest);
  }

  lemma XattrPrefixes()
    ensures Prefixes(PutXattr, XattrLength, XattrFits)
  {
    hide PutXattr, XattrAt, XattrFits, XattrLength;
    forall x, tail: Bytes | XattrFits(x)
      ensures Rest(PutXattr(x, tail), XattrLength(x), tail)
    {
      assert PutXattr(x, tail)[0..] == PutXattr(x, tail);
      ReadXattr(PutXattr(x, tail), 0, x, tail);
    }
  }

  lemma ReadXattrs(d: Bytes, k: nat, xattrs: seq<Xattr>, rest: Bytes)
    requires Rest(d, k, PutAll(PutXattr, xattrs, rest)) && forall x :: x in xattrs ==> XattrFits(x)
    ensures forall j :: 0 <= j < |xattrs| ==> XattrAt(d, k + Total(XattrLength, xattrs[..j]), xattrs[j])
    ensures Rest(d, k + Total(XattrLength, xattrs), rest)
  {
    hide Rest, PutXattr, XattrAt, XattrFits, Prefixes, Total, PutAll;
    XattrPrefixes();
    TableEnd(PutXattr, XattrLength, XattrFits, xattrs, rest, d, k);
    forall j | 0 <= j < |xattrs|
      ensures XattrAt(d, k + Total(XattrLength, xattrs[..j]), xattrs[j])
    {
      var after := RecordAt(PutXattr, XattrLength, XattrFits, xattrs, rest, d, k, j);
      ReadXattr(d, k + Total(XattrLength, xattrs[..j]), xattrs[j], after);
    }
  }

  lemma ReadEntryTail(d: Bytes, k: nat, e: Entry, chunks: nat, rest: Bytes)
    requires Rest(d, k, PutEntryTail(e, chunks, rest))
    requires |e.name| < TWO_32 && |e.linkName| < TWO_32 && |e.xattrs| < TWO_32 && chunks < TWO_32
    requires forall x :: x in e.xattrs ==> XattrFits(x)
    ensures EntryTailAt(d, k, e, chunks)
    ensures Rest(d, k + 48 + |e.name| + |e.linkName| + Total(XattrLength, e.xattrs), rest)
  {
    hide Rest, PutString, PutRaw, PutLength, PutAll, U32At, XattrAt, XattrFits, StringAt, Total;
    var b5 := PutLength(chunks, rest);
    var b4 := PutAll(PutXattr, e.xattrs, b5);
    var b3 := PutLength(|e.xattrs|, b4);
    var b2 := PutRaw(e.contentDigest, b3);
    var b1 := PutString(e.linkName, b2);
    ReadString(d, k, e.name, b1);
    ReadString(d, k + 4 + |e.name|, e.linkName, b2);
    var at := k + 8 + |e.name| + |e.linkName|;
    ReadRaw(d, at, e.contentDigest, b3);
    ReadLength(d, at + 32, |e.xattrs|, b4);
    ReadXattrs(d, at + 36, e.xattrs, b5);
    ReadLength(d, at + 36 + Total(XattrLength, e.xattrs), chunks, rest);
  }

  lemma ReadRow(d: Bytes, k: nat, row: Row, rest: Bytes)
    requires Rest(d, k, PutRow(row, rest)) && RowFits(row)
    ensures EntryAt(d, k, row.entry, row.chunkCount) && Rest(d, k + RowLength(row), rest)
  {
    hide Rest, PutEntryHead, PutEntryTail, EntryHeadAt, EntryTailAt, Total;
    ReadEntryHead(d, k, row.entry, PutEntryTail(row.entry, row.chunkCount, rest));
    ReadEntryTail(d, k + 41, row.entry, row.chunkCount, rest);
  }

  // ----- the header -----

  /** The 116 fixed bytes every manifest starts with. */
  predicate HeaderAt(d: Bytes, m: Manifest) {
    var h := m.header;
    && 116 <= |d|
    && U32At(d, 0) == h.formatVersion && U32At(d, 4) == h.chunkSizeBytes
    && U32At(d, 8) == (if h.compressionLevel < 0 then h.compressionLevel + TWO_32 else h.compressionLevel)
    && U32At(d, 12) == h.windowLog
    && d[16..32] == h.volumeId && U64At(d, 32) == h.sealedEpoch && d[40..56] == h.attempt
    && U32At(d, 56) == |m.entries| && U32At(d, 60) == |m.frames| && U32At(d, 64) == ChunkCount(m.entries)
    && U64At(d, 68) == h.logicalBytes && U64At(d, 76) == h.logicalInodes
    && U64At(d, 84) == h.sealedAllocatedBytes && U64At(d, 92) == h.sealedInodes
    && U32At(d, 100) == h.priority.packIndex && U64At(d, 104) == h.priority.packOffset
    && U32At(d, 112) == |h.packs|
  }

  lemma ReadIdentity(d: Bytes, h: Header, rest: Bytes)
    requires Rest(d, 0, PutIdentity(h, rest))
    ensures 56 <= |d| && U32At(d, 0) == h.formatVersion && U32At(d, 4) == h.chunkSizeBytes
    ensures U32At(d, 8) == (if h.compressionLevel < 0 then h.compressionLevel + TWO_32 else h.compressionLevel)
    ensures U32At(d, 12) == h.windowLog && d[16..32] == h.volumeId && U64At(d, 32) == h.sealedEpoch
    ensures d[40..56] == h.attempt && Rest(d, 56, rest)
  {
    hide Rest, PutU32, PutU64, PutRaw, U32At, U64At;
    var b6 := PutRaw(h.attempt, rest);
    var b5 := PutU64(h.sealedEpoch, b6);
    var b4 := PutRaw(h.volumeId, b5);
    var b3 := PutU32(h.windowLog, b4);
    var b2 := PutU32(I32ToU32(h.compressionLevel), b3);
    var b1 := PutU32(h.chunkSizeBytes, b2);
    ReadU32(d, 0, h.formatVersion, b1);
    ReadU32(d, 4, h.chunkSizeBytes, b2);
    ReadU32(d, 8, I32ToU32(h.compressionLevel), b3);
    ReadU32(d, 12, h.windowLog, b4);
    ReadRaw(d, 16, h.volumeId, b5);
    ReadU64(d, 32, h.sealedEpoch, b6);
    ReadRaw(d, 40, h.attempt, rest);
  }

  lemma ReadTotals(d: Bytes, c: Counted, rest: Bytes)
    requires Rest(d, 56, PutTotals(c, rest)) && HeaderFits(c)
    ensures 100 <= |d| && U32At(d, 56) == c.entries && U32At(d, 60) == c.frames && U32At(d, 64) == c.chunks
    ensures U64At(d, 68) == c.header.logicalBytes && U64At(d, 76) == c.header.logicalInodes
    ensures U64At(d, 84) == c.header.sealedAllocatedBytes && U64At(d, 92) == c.header.sealedInodes
    ensures Rest(d, 100, rest)
  {
    hide Rest, PutLength, PutU64, U32At, U64At;
    var b6 := PutU64(c.header.sealedInodes, rest);
    var b5 := PutU64(c.header.sealedAllocatedBytes, b6);
    var b4 := PutU64(c.header.logicalInodes, b5);
    var b3 := PutU64(c.header.logicalBytes, b4);
    var b2 := PutLength(c.chunks, b3);
    var b1 := PutLength(c.frames, b2);
    ReadLength(d, 56, c.entries, b1);
    ReadLength(d, 60, c.frames, b2);
    ReadLength(d, 64, c.chunks, b3);
    ReadU64(d, 68, c.header.logicalBytes, b4);
    ReadU64(d, 76, c.header.logicalInodes, b5);
    ReadU64(d, 84, c.header.sealedAllocatedBytes, b6);
    ReadU64(d, 92, c.header.sealedInodes, rest);
  }

  lemma {:induction false} ReadPacks(d: Bytes, k: nat, packs: seq<PackRef>, rest: Bytes)
    requires Rest(d, k, PutAll(PutPack, packs, rest))
    ensures forall p :: 0 <= p < |packs| ==> PackAt(d, k + 48 * p, packs[p])
    ensures Rest(d, k + 48 * |packs|, rest)
    decreases |packs|
  {
    hide Rest, PutPack, PackAt;
    if packs != [] {
      ReadPack(d, k, packs[0], PutAll(PutPack, packs[1..], rest));
      ReadPacks(d, k + 48, packs[1..], rest);
      forall p | 0 <= p < |packs|
        ensures PackAt(d, k + 48 * p, packs[p])
      {
        if p > 0 {
          assert PackAt(d, k + 48 + 48 * (p - 1), packs[1..][p - 1]);
        }
      }
    }
  }

  lemma {:induction false} ReadFrames(d: Bytes, k: nat, frames: seq<Frame>, rest: Bytes)
    requires Rest(d, k, PutAll(PutFrame, frames, rest))
    ensures forall f :: 0 <= f < |frames| ==> FrameAt(d, k + 33 * f, frames[f])
    ensures Rest(d, k + 33 * |frames|, rest)
    decreases |frames|
  {
    hide Rest, PutFrame, FrameAt;
    if frames != [] {
      ReadFrame(d, k, frames[0], PutAll(PutFrame, frames[1..], rest));
      ReadFrames(d, k + 33, frames[1..], rest);
      forall f | 0 <= f < |frames|
        ensures FrameAt(d, k + 33 * f, frames[f])
      {
        if f > 0 {
          assert FrameAt(d, k + 33 + 33 * (f - 1), frames[1..][f - 1]);
        }
      }
    }
  }

  lemma ReadLayout(d: Bytes, h: Header, rest: Bytes)
    requires Rest(d, 100, PutLayout(h, rest)) && |h.packs| < TWO_32
    ensures 116 <= |d| && U32At(d, 100) == h.priority.packIndex && U64At(d, 104) == h.priority.packOffset
    ensures U32At(d, 112) == |h.packs| && forall p :: 0 <= p < |h.packs| ==> PackAt(d, 116 + 48 * p, h.packs[p])
    ensures Rest(d, 116 + 48 * |h.packs|, rest)
  {
    hide Rest, PutU32, PutU64, PutLength, PutAll, U32At, U64At, PackAt;
    var b3 := PutAll(PutPack, h.packs, rest);
    var b2 := PutLength(|h.packs|, b3);
    var b1 := PutU64(h.priority.packOffset, b2);
    ReadU32(d, 100, h.priority.packIndex, b1);
    ReadU64(d, 104, h.priority.packOffset, b2);
    ReadLength(d, 112, |h.packs|, b3);
    ReadPacks(d, 116, h.packs, rest);
  }

  lemma ReadHeader(d: Bytes, m: Manifest, rest: Bytes)
    requires Rest(d, 0, PutHeader(CountedOf(m), rest)) && HeaderFits(CountedOf(m))
    ensures HeaderAt(d, m) && forall p :: 0 <= p < |m.header.packs| ==> PackAt(d, 116 + 48 * p, m.header.packs[p])
    ensures Rest(d, 116 + 48 * |m.header.packs|, rest)
  {
    hide Rest, PutIdentity, PutTotals, PutLayout, U32At, U64At, PackAt, ChunkCount;
    var c := CountedOf(m);
    ReadIdentity(d, m.header, PutTotals(c, PutLayout(m.header, rest)));
    ReadTotals(d, c, PutLayout(m.header, rest));
    ReadLayout(d, m.header, rest);
  }

  // ----- the tables -----

  function EntryLength(e: Entry): nat {
    89 + |e.name| + |e.linkName| + Total(XattrLength, e.xattrs)
  }

  function ArrayLength(e: Entry): nat {
    Total(ChunkLength, e.chunks)
  }

  lemma RowPrefixes()
    ensures Prefixes(PutRow, RowLength, RowFits)
  {
    hide PutRow, EntryAt, RowFits, RowLength;
    forall row, tail: Bytes | RowFits(row)
      ensures Rest(PutRow(row, tail), RowLength(row), tail)
    {
      assert PutRow(row, tail)[0..] == PutRow(row, tail);
      ReadRow(PutRow(row, tail), 0, row, tail);
    }
  }

  lemma {:induction false} RowsLength(entries: seq<Entry>, i: nat)
    requires i <= |entries|
    ensures Total(RowLength, RowsOf(entries)[..i]) == Total(EntryLength, entries[..i])
    decreases i
  {
    if i > 0 {
      RowsLength(entries, i - 1);
      TotalStep(RowLength, RowsOf(entries), i - 1);
      TotalStep(EntryLength, entries, i - 1);
      hide Total;
    } else {
      NoneBefore(RowLength, RowsOf(entries));
      NoneBefore(EntryLength, entries);
    }
  }

  lemma ReadEntries(d: Bytes, k: nat, entries: seq<Entry>, rest: Bytes)
    requires Rest(d, k, PutAll(PutRow, RowsOf(entries), rest)) && forall e :: e in entries ==> RowFits(RowOf(e))
    ensures forall i :: 0 <= i < |entries| ==>
              EntryAt(d, k + Total(EntryLength, entries[..i]), entries[i], |entries[i].chunks|)
    ensures Rest(d, k + Total(EntryLength, entries), rest)
  {
    hide Rest, PutRow, EntryAt, RowFits, RowOf, Prefixes, Total, PutAll;
    var rows := RowsOf(entries);
    RowsFit(entries);
    RowPrefixes();
    TableEnd(PutRow, RowLength, RowFits, rows, rest, d, k);
    RowsLength(entries, |entries|);
    PrefixWhole(entries);
    PrefixWhole(rows);
    forall i | 0 <= i < |entries|
      ensures EntryAt(d, k + Total(EntryLength, entries[..i]), entries[i], |entries[i].chunks|)
    {
      ReadEntry(d, k, entries, rest, i);
    }
  }

  lemma RowsFit(entries: seq<Entry>)
    requires forall e :: e in entries ==> RowFits(RowOf(e))
    ensures forall row :: row in RowsOf(entries) ==> RowFits(row)
  {
    hide RowFits, RowOf;
    forall row | row in RowsOf(entries)
      ensures RowFits(row)
    {
      var i :| 0 <= i < |entries| && RowsOf(entries)[i] == row;
      assert entries[i] in entries;
    }
  }

  lemma ReadEntry(d: Bytes, k: nat, entries: seq<Entry>, rest: Bytes, i: nat)
    requires Rest(d, k, PutAll(PutRow, RowsOf(entries), rest)) && forall e :: e in entries ==> RowFits(RowOf(e))
    requires i < |entries|
    ensures EntryAt(d, k + Total(EntryLength, entries[..i]), entries[i], |entries[i].chunks|)
  {
    hide Rest, PutRow, EntryAt, RowFits, RowOf, Prefixes, Total, PutAll;
    RowsFit(entries);
    RowPrefixes();
    var after := RecordAt(PutRow, RowLength, RowFits, RowsOf(entries), rest, d, k, i);
    RowsLength(entries, i);
    assert RowsOf(entries)[i] in RowsOf(entries);
    ReadRow(d, k + Total(EntryLength, entries[..i]), RowOf(entries[i]), after);
    SameEntry(d, k + Total(EntryLength, entries[..i]), entries[i]);
  }

  /** An entry's row does not hold its chunks. */
  lemma SameEntry(d: Bytes, k: nat, e: Entry)
    requires EntryAt(d, k, RowOf(e).entry, RowOf(e).chunkCount)
    ensures EntryAt(d, k, e, |e.chunks|)
  {
    hide U32At, U64At, StringAt, XattrAt, Total;
  }

  lemma ChunkPrefixes()
    ensures Prefixes(PutChunk, ChunkLength, ChunkFits)
  {
    hide PutChunk, ChunkAt, ChunkFits, ChunkLength;
    forall c, tail: Bytes | ChunkFits(c)
      ensures Rest(PutChunk(c, tail), ChunkLength(c), tail)
    {
      assert PutChunk(c, tail)[0..] == PutChunk(c, tail);
      ReadChunk(PutChunk(c, tail), 0, c, tail);
    }
  }

  lemma ReadArray(d: Bytes, k: nat, chunks: seq<ChunkRef>, rest: Bytes)
    requires Rest(d, k, PutAll(PutChunk, chunks, rest)) && forall c :: c in chunks ==> ChunkFits(c)
    ensures forall j :: 0 <= j < |chunks| ==> ChunkAt(d, k + Total(ChunkLength, chunks[..j]), chunks[j])
    ensures Rest(d, k + Total(ChunkLength, chunks), rest)
  {
    hide Rest, PutChunk, ChunkAt, ChunkFits, Prefixes, Total, PutAll;
    ChunkPrefixes();
    TableEnd(PutChunk, ChunkLength, ChunkFits, chunks, rest, d, k);
    forall j | 0 <= j < |chunks|
      ensures ChunkAt(d, k + Total(ChunkLength, chunks[..j]), chunks[j])
    {
      var after := RecordAt(PutChunk, ChunkLength, ChunkFits, chunks, rest, d, k, j);
      ReadChunk(d, k + Total(ChunkLength, chunks[..j]), chunks[j], after);
    }
  }

  /** Every chunk of an entry, one after the other. */
  predicate ArrayAt(d: Bytes, k: nat, e: Entry) {
    forall j :: 0 <= j < |e.chunks| ==> ChunkAt(d, k + Total(ChunkLength, e.chunks[..j]), e.chunks[j])
  }

  lemma {:induction false} ReadArrays(d: Bytes, k: nat, entries: seq<Entry>, rest: Bytes)
    requires Rest(d, k, PutChunkArrays(entries, rest)) && forall e :: e in entries ==> ChunksFit(e)
    ensures forall i :: 0 <= i < |entries| ==> ArrayAt(d, k + Total(ArrayLength, entries[..i]), entries[i])
    ensures Rest(d, k + Total(ArrayLength, entries), rest)
    decreases |entries|
  {
    hide Rest, ChunkAt, Total, PutAll, ArrayAt;
    if entries != [] {
      var first, others := entries[0], entries[1..];
      assert ChunksFit(first);
      ReadArray(d, k, first.chunks, PutChunkArrays(others, rest));
      ArrayRead(d, k, first);
      ReadArrays(d, k + ArrayLength(first), others, rest);
      TotalFront(ArrayLength, entries);
      forall i | 0 <= i < |entries|
        ensures ArrayAt(d, k + Total(ArrayLength, entries[..i]), entries[i])
      {
        if i > 0 {
          TotalFront(ArrayLength, entries[..i]);
          assert entries[..i][1..] == others[..i - 1];
          assert ArrayAt(d, k + ArrayLength(first) + Total(ArrayLength, others[..i - 1]), others[i - 1]);
        } else {
          NoneBefore(ArrayLength, entries);
        }
      }
    } else {
      NoneBefore(ArrayLength, entries);
      assert entries[..0] == entries;
    }
  }

  lemma ArrayRead(d: Bytes, k: nat, e: Entry)
    requires forall j :: 0 <= j < |e.chunks| ==> ChunkAt(d, k + Total(ChunkLength, e.chunks[..j]), e.chunks[j])
    ensures ArrayAt(d, k, e)
  {
  }

  // ----- the manifest -----

  function EntriesStart(m: Manifest): nat {
    116 + 48 * |m.header.packs|
  }

  function FramesStart(m: Manifest): nat {
    EntriesStart(m) + Total(EntryLength, m.entries)
  }

  function ChunksStart(m: Manifest): nat {
    FramesStart(m) + 33 * |m.frames|
  }

  function BodyLength(m: Manifest): nat {
    ChunksStart(m) + Total(ArrayLength, m.entries)
  }

  /** Header, pack table, entry table, frame table and chunk arrays, back to back and
      nothing after them. */
  ghost predicate BodyAt(body: Bytes, m: Manifest) {
    && |body| == BodyLength(m)
    && HeaderAt(body, m)
    && (forall p :: 0 <= p < |m.header.packs| ==> PackAt(body, 116 + 48 * p, m.header.packs[p]))
    && (forall i :: 0 <= i < |m.entries| ==>
          EntryAt(body, EntriesStart(m) + Total(EntryLength, m.entries[..i]), m.entries[i], |m.entries[i].chunks|))
    && (forall f :: 0 <= f < |m.frames| ==> FrameAt(body, FramesStart(m) + 33 * f, m.frames[f]))
    && (forall i :: 0 <= i < |m.entries| ==>
          ArrayAt(body, ChunksStart(m) + Total(ArrayLength, m.entries[..i]), m.entries[i]))
  }

  /** The body, its SHA-256 digest, and "PFSMAN1" with a line feed. */
  ghost predicate LaidOut(d: Bytes, m: Manifest) {
    && 40 <= |d|
    && BodyAt(d[..|d| - 40], m)
    && d[|d| - 40..|d| - 8] == Sha256(d[..|d| - 40])
    && d[|d| - 8..] == ['P' as int, 'F' as int, 'S' as int, 'M' as int, 'A' as int, 'N' as int, '1' as int, 10]
  }

  lemma ReadBody(m: Manifest)
    requires Fits(m)
    ensures BodyAt(PutManifest(m), m)
  {
    hide Rest, PutHeader, PutAll, PutChunkArrays, Total, HeaderAt, PackAt, EntryAt, FrameAt, ArrayAt, HeaderFits, ChunksFit;
    hide RowFits, ChunkCount;
    var d := PutManifest(m);
    WholeRest(d);
    ReadHeader(d, m, PutTables(m));
    ReadEntries(d, EntriesStart(m), m.entries, PutAll(PutFrame, m.frames, PutChunkArrays(m.entries, [])));
    ReadFrames(d, FramesStart(m), m.frames, PutChunkArrays(m.entries, []));
    ReadArrays(d, ChunksStart(m), m.entries, []);
    NothingAfter(d, BodyLength(m));
  }

  lemma WholeRest(d: Bytes)
    ensures Rest(d, 0, d)
  {
    assert d[0..] == d;
  }

  lemma NothingAfter(d: Bytes, k: nat)
    requires Rest(d, k, [])
    ensures |d| == k
  {
  }

  /** Every manifest that encodes has every byte where the format says. */
  lemma EncodedLayout(m: Manifest, d: Bytes)
    requires EncodeSpec(m) == Some(d)
    ensures LaidOut(d, m)
    ensures d[0..4] == [1, 0, 0, 0]
  {
    hide ValidManifest, PutManifest, BodyAt, Fits;
    ValidFits(m);
    ReadBody(m);
    SealParts(PutManifest(m));
    var body := PutManifest(m);
    assert d[|d| - 40..][..32] == d[|d| - 40..|d| - 8] && d[|d| - 40..][32..] == d[|d| - 8..];
    FirstBytes(d, m);
  }

  lemma FirstBytes(d: Bytes, m: Manifest)
    requires 40 <= |d| && ValidManifest(m) && BodyAt(d[..|d| - 40], m)
    ensures 4 <= |d| && d[0..4] == [1, 0, 0, 0]
  {
    hide Frames.Tiling, EntriesValid, HardlinksValid, TotalsValid, PackAt, EntryAt, FrameAt, ArrayAt, Total, ChunkCount, U64At;
    var body := d[..|d| - 40];
    assert U32At(body, 0) == 1;
    assert d[0] == body[0] && d[1] == body[1] && d[2] == body[2] && d[3] == body[3];
  }
}
