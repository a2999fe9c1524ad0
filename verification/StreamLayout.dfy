/**
Where every byte of two other streams is: the one the whole-tree digest hashes
(vcs/archive/rootdigest.go), and a zstd frame of raw blocks (vcs/archive/zstdframe.go).
 */
module StreamLayout {
  import opened Basics
  import opened Extents
  import opened Manifest
  import opened Valid
  import opened Wire
  import opened Records
  import opened ByteLayout
  import Codec
  import R = RootDigest
  import Z = ZstdFrame
  import Xxh64

  // ----- the whole-tree digest -----

  function MapLength(extents: seq<Extent>): nat {
    4 + 16 * |extents|
  }

  function ChunkMapLength(c: ChunkRef): nat {
    MapLength(c.extents)
  }

  function EntryStreamLength(e: Entry): nat {
    77 + |e.name| + |e.linkName| + Total(XattrLength, e.xattrs) + Total(ChunkMapLength, e.chunks)
  }

  predicate MapAt(d: Bytes, k: nat, extents: seq<Extent>) {
    && k + 4 <= |d| && U32At(d, k) == |extents|
    && forall j :: 0 <= j < |extents| ==> ExtentAt(d, k + 4 + 16 * j, extents[j])
  }

  /** Parent, name, type, size, mode, modification time, link target, group, digest. */
  predicate FieldsAt(d: Bytes, k: nat, e: Entry) {
    && k + 4 <= |d| && U32At(d, k) == e.parentIndex && StringAt(d, k + 4, e.name)
    && var at := k + 8 + |e.name|;
       && at + 21 <= |d| && d[at] == e.kind && U64At(d, at + 1) == e.size && U32At(d, at + 9) == e.mode
       && U64At(d, at + 13) == (if e.mtimeNanos < 0 then e.mtimeNanos + TWO_64 else e.mtimeNanos)
       && StringAt(d, at + 21, e.linkName)
       && var end := at + 25 + |e.linkName|;
          end + 36 <= |d| && U32At(d, end) == e.hardlinkGroup && d[end + 4..end + 36] == e.contentDigest
  }

  /** Attributes, and one extent map per chunk. */
  predicate ListsAt(d: Bytes, k: nat, e: Entry) {
    && k + 4 <= |d| && U32At(d, k) == |e.xattrs|
    && (forall j :: 0 <= j < |e.xattrs| ==> XattrAt(d, k + 4 + Total(XattrLength, e.xattrs[..j]), e.xattrs[j]))
    && var at := k + 4 + Total(XattrLength, e.xattrs);
       && at + 4 <= |d| && U32At(d, at) == |e.chunks|
       && forall j :: 0 <= j < |e.chunks| ==>
                        MapAt(d, at + 4 + Total(ChunkMapLength, e.chunks[..j]), e.chunks[j].extents)
  }

  lemma ReadFields(d: Bytes, k: nat, e: Entry, rest: Bytes)
    requires Rest(d, k, R.PutSemanticHead(R.SemanticsOf(e), rest)) && |e.name| < TWO_32 && |e.linkName| < TWO_32
    ensures FieldsAt(d, k, e) && Rest(d, k + 69 + |e.name| + |e.linkName|, rest)
  {
    hide Rest, PutU32, PutU64, PutByte, PutString, PutRaw, U32At, U64At, StringAt;
    var b8 := PutRaw(e.contentDigest, rest);
    var b7 := PutU32(e.hardlinkGroup, b8);
    var b6 := PutString(e.linkName, b7);
    var b5 := PutU64(I64ToU64(e.mtimeNanos), b6);
    var b4 := PutU32(e.mode, b5);
    var b3 := PutU64(e.size, b4);
    var b2 := PutByte(e.kind, b3);
    var b1 := PutString(e.name, b2);
    ReadU32(d, k, e.parentIndex, b1);
    ReadString(d, k + 4, e.name, b2);
    var at := k + 8 + |e.name|;
    ReadByte(d, at, e.kind, b3);
    ReadU64(d, at + 1, e.size, b4);
    ReadU32(d, at + 9, e.mode, b5);
    ReadU64(d, at + 13, I64ToU64(e.mtimeNanos), b6);
    ReadString(d, at + 21, e.linkName, b7);
    var end := at + 25 + |e.linkName|;
    ReadU32(d, end, e.hardlinkGroup, b8);
    ReadRaw(d, end + 4, e.contentDigest, rest);
  }

  lemma ReadMap(d: Bytes, k: nat, extents: seq<Extent>, rest: Bytes)
    requires Rest(d, k, R.PutExtentMap(extents, rest)) && R.ExtentMapFits(extents)
    ensures MapAt(d, k, extents) && Rest(d, k + MapLength(extents), rest)
  {
    hide Rest, PutLength, PutAll, U32At, ExtentAt;
    ReadLength(d, k, |extents|, PutAll(PutExtent, extents, rest));
    ReadExtents(d, k + 4, extents, rest);
  }

  lemma MapPrefixes()
    ensures Prefixes(R.PutExtentMap, MapLength, R.ExtentMapFits)
  {
    hide R.PutExtentMap, MapAt, R.ExtentMapFits, MapLength;
    forall extents, tail: Bytes | R.ExtentMapFits(extents)
      ensures Rest(R.PutExtentMap(extents, tail), MapLength(extents), tail)
    {
      WholeRest(R.PutExtentMap(extents, tail));
      ReadMap(R.PutExtentMap(extents, tail), 0, extents, tail);
    }
  }

  lemma {:induction false} MapsLength(chunks: seq<ChunkRef>, j: nat)
    requires j <= |chunks|
    ensures Total(MapLength, R.ExtentMaps(chunks)[..j]) == Total(ChunkMapLength, chunks[..j])
    decreases j
  {
    if j > 0 {
      MapsLength(chunks, j - 1);
      TotalStep(MapLength, R.ExtentMaps(chunks), j - 1);
      TotalStep(ChunkMapLength, chunks, j - 1);
      hide Total;
    } else {
      NoneBefore(MapLength, R.ExtentMaps(chunks));
      NoneBefore(ChunkMapLength, chunks);
    }
  }

  lemma ReadMaps(d: Bytes, k: nat, chunks: seq<ChunkRef>, rest: Bytes)
    requires Rest(d, k, PutAll(R.PutExtentMap, R.ExtentMaps(chunks), rest))
    requires forall c :: c in chunks ==> ChunkFits(c)
    ensures forall j :: 0 <= j < |chunks| ==> MapAt(d, k + Total(ChunkMapLength, chunks[..j]), chunks[j].extents)
    ensures Rest(d, k + Total(ChunkMapLength, chunks), rest)
  {
    hide Rest, R.PutExtentMap, MapAt, Prefixes, Total, PutAll;
    var maps := R.ExtentMaps(chunks);
    forall extents | extents in maps
      ensures R.ExtentMapFits(extents)
    {
      var j :| 0 <= j < |maps| && maps[j] == extents;
      assert ChunkFits(chunks[j]);
    }
    MapPrefixes();
    TableEnd(R.PutExtentMap, MapLength, R.ExtentMapFits, maps, rest, d, k);
    MapsLength(chunks, |chunks|);
    PrefixWhole(chunks);
    PrefixWhole(maps);
    forall j | 0 <= j < |chunks|
      ensures MapAt(d, k + Total(ChunkMapLength, chunks[..j]), chunks[j].extents)
    {
      var after := RecordAt(R.PutExtentMap, MapLength, R.ExtentMapFits, maps, rest, d, k, j);
      MapsLength(chunks, j);
      ReadMap(d, k + Total(ChunkMapLength, chunks[..j]), maps[j], after);
    }
  }

  lemma ReadLists(d: Bytes, k: nat, e: Entry, rest: Bytes)
    requires |e.xattrs| < TWO_32 && |e.chunks| < TWO_32
    requires (forall x :: x in e.xattrs ==> XattrFits(x)) && forall c :: c in e.chunks ==> ChunkFits(c)
    requires Rest(d, k, PutLength(|e.xattrs|, PutAll(PutXattr, e.xattrs, PutLength(|e.chunks|,
                        PutAll(R.PutExtentMap, R.ExtentMaps(e.chunks), rest)))))
    ensures ListsAt(d, k, e)
    ensures Rest(d, k + 8 + Total(XattrLength, e.xattrs) + Total(ChunkMapLength, e.chunks), rest)
  {
    hide Rest, PutLength, PutAll, U32At, XattrAt, MapAt, Total, XattrFits, ChunkFits, R.ExtentMaps;
    var b3 := PutAll(R.PutExtentMap, R.ExtentMaps(e.chunks), rest);
    var b2 := PutLength(|e.chunks|, b3);
    var b1 := PutAll(PutXattr, e.xattrs, b2);
    ReadLength(d, k, |e.xattrs|, b1);
    ReadXattrs(d, k + 4, e.xattrs, b2);
    var at := k + 4 + Total(XattrLength, e.xattrs);
    ReadLength(d, at, |e.chunks|, b3);
    ReadMaps(d, at + 4, e.chunks, rest);
  }

  predicate StreamFits(e: Entry) {
    Codec.ChunksFit(e) && RowFits(Codec.RowOf(e))
  }

  lemma ReadStreamEntry(d: Bytes, k: nat, e: Entry, rest: Bytes)
    requires Rest(d, k, R.PutSemantics(R.SemanticsOf(e), rest)) && StreamFits(e)
    ensures StreamEntryAt(d, k, e) && Rest(d, k + EntryStreamLength(e), rest)
  {
    hide Rest, R.PutSemanticHead, PutLength, PutAll, FieldsAt, ListsAt, Total;
    var lists := PutLength(|e.xattrs|, PutAll(PutXattr, e.xattrs, PutLength(|e.chunks|,
                   PutAll(R.PutExtentMap, R.ExtentMaps(e.chunks), rest))));
    ReadFields(d, k, e, lists);
    ReadLists(d, k + 69 + |e.name| + |e.linkName|, e, rest);
  }

  /** Entry i's fields, each at its place. */
  predicate StreamEntryAt(d: Bytes, k: nat, e: Entry) {
    FieldsAt(d, k, e) && ListsAt(d, k + 69 + |e.name| + |e.linkName|, e)
  }

  lemma LaterEntry(d: Bytes, k: nat, entries: seq<Entry>, i: nat)
    requires 0 < i < |entries|
    requires forall j :: 0 <= j < |entries| - 1 ==>
               StreamEntryAt(d, k + EntryStreamLength(entries[0]) + Total(EntryStreamLength, entries[1..][..j]), entries[1..][j])
    ensures StreamEntryAt(d, k + Total(EntryStreamLength, entries[..i]), entries[i])
  {
    hide Total, StreamEntryAt, EntryStreamLength;
    TotalFront(EntryStreamLength, entries[..i]);
    assert entries[..i][1..] == entries[1..][..i - 1];
    assert entries[1..][i - 1] == entries[i];
  }

  lemma {:induction false} ReadStream(d: Bytes, k: nat, entries: seq<Entry>)
    requires Rest(d, k, PutAll(R.PutSemantics, R.SemanticsOfAll(entries), [])) && forall e :: e in entries ==> StreamFits(e)
    ensures forall i :: 0 <= i < |entries| ==> StreamEntryAt(d, k + Total(EntryStreamLength, entries[..i]), entries[i])
    ensures Rest(d, k + Total(EntryStreamLength, entries), [])
    decreases |entries|
  {
    hide Rest, R.PutSemantics, R.SemanticsOf, Total, StreamFits, StreamEntryAt, EntryStreamLength;
    if entries != [] {
      var first, others := entries[0], entries[1..];
      assert R.SemanticsOfAll(entries)[1..] == R.SemanticsOfAll(others);
      ReadStreamEntry(d, k, first, PutAll(R.PutSemantics, R.SemanticsOfAll(others), []));
      ReadStream(d, k + EntryStreamLength(first), others);
      TotalFront(EntryStreamLength, entries);
      forall i | 0 <= i < |entries|
        ensures StreamEntryAt(d, k + Total(EntryStreamLength, entries[..i]), entries[i])
      {
        if i > 0 {
          LaterEntry(d, k, entries, i);
        } else {
          NoneBefore(EntryStreamLength, entries);
        }
      }
    } else {
      NoneBefore(EntryStreamLength, entries);
      assert entries[..0] == entries;
    }
  }

  /** The stream a valid manifest's root digest hashes: entry after entry, every
      restored field at its place, and nothing else. */
  lemma RootStream(m: Manifest)
    requires ValidManifest(m)
    ensures |R.Preimage(m.entries)| == Total(EntryStreamLength, m.entries)
    ensures forall i :: 0 <= i < |m.entries| ==>
              StreamEntryAt(R.Preimage(m.entries), Total(EntryStreamLength, m.entries[..i]), m.entries[i])
  {
    hide ValidManifest, PutAll, Total, FieldsAt, ListsAt, StreamEntryAt, Rest;
    Codec.ValidFits(m);
    hide Codec.ChunksFit, RowFits;
    var d := R.Preimage(m.entries);
    WholeRest(d);
    ReadStream(d, 0, m.entries);
    NothingAfter(d, Total(EntryStreamLength, m.entries));
  }

  // ----- raw zstd frames -----

  function U24At(d: Bytes, k: nat): nat
    requires k + 3 <= |d|
  {
    var b0: nat, b1: nat, b2: nat := d[k], d[k + 1], d[k + 2];
    b0 + 0x100 * b1 + 0x1_0000 * b2
  }

  lemma U24Bytes(n: nat)
    requires n < 0x100_0000
    ensures U24At(LittleEndian(n, 3), 0) == n
  {
    var q1 := n / 256;
    var q2 := q1 / 256;
    assert LittleEndian(q2, 1) == [q2 % 256];
    assert LittleEndian(q1, 2) == [q1 % 256] + LittleEndian(q2, 1);
    assert LittleEndian(n, 3) == [n % 256] + LittleEndian(q1, 2);
  }

  /** A raw block: size in the high 21 bits, type zero, and whether it is the last. */
  predicate RawBlockAt(d: Bytes, k: nat, last: bool, content: Bytes) {
    && k + 3 + |content| <= |d| && U24At(d, k) == 8 * |content| + (if last then 1 else 0)
    && d[k + 3..k + 3 + |content|] == content
  }

  lemma ReadBlock(d: Bytes, k: nat, last: bool, content: Bytes, rest: Bytes)
    requires Rest(d, k, Z.PutBlock(last, content, rest)) && |content| <= 0x2_0000
    ensures RawBlockAt(d, k, last, content) && Rest(d, k + 3 + |content|, rest)
  {
    hide Rest, PutRaw, LittleEndian, U24At;
    var header := 8 * |content| + if last then 1 else 0;
    var b := LittleEndian(header, 3);
    ReadRaw(d, k, b, PutRaw(content, rest));
    ReadRaw(d, k + 3, content, rest);
    U24Bytes(header);
    U24Shift(d, k, b);
  }

  lemma U24Shift(d: Bytes, k: nat, b: Bytes)
    requires k + 3 <= |d| && d[k..k + 3] == b
    ensures U24At(d, k) == U24At(b, 0)
  {
    assert d[k] == b[0] && d[k + 1] == b[1] && d[k + 2] == b[2];
  }

  /** Content in blocks of at most limit bytes, only the final one marked last. */
  predicate BlocksAt(d: Bytes, k: nat, limit: nat, content: Bytes)
    requires limit > 0
    decreases |content|
  {
    if |content| <= limit then RawBlockAt(d, k, true, content)
    else RawBlockAt(d, k, false, content[..limit]) && BlocksAt(d, k + 3 + limit, limit, content[limit..])
  }

  /** Three bytes a block, and the content. */
  function BlocksLength(limit: nat, n: nat): nat
    requires limit > 0
    decreases n
  {
    if n <= limit then 3 + n else 3 + limit + BlocksLength(limit, n - limit)
  }

  lemma {:induction false} ReadBlocks(d: Bytes, k: nat, limit: nat, content: Bytes, rest: Bytes)
    requires 0 < limit <= 0x2_0000 && Rest(d, k, Z.PutBlocks(limit, content, rest))
    ensures BlocksAt(d, k, limit, content) && Rest(d, k + BlocksLength(limit, |content|), rest)
    decreases |content|
  {
    hide Rest, Z.PutBlock, RawBlockAt;
    if |content| <= limit {
      ReadBlock(d, k, true, content, rest);
    } else {
      ReadBlock(d, k, false, content[..limit], Z.PutBlocks(limit, content[limit..], rest));
      ReadBlocks(d, k + 3 + limit, limit, content[limit..], rest);
    }
  }

  /** The bytes of a raw frame: magic, descriptor, window, content size, blocks of at
      most the window and 128 KiB, and the low half of the content's XXH64. */
  lemma RawFrameBytes(windowLog: u32, content: Bytes)
    requires MIN_WINDOW_LOG <= windowLog <= MAX_WINDOW_LOG && |content| < TWO_64
    ensures var d := Z.PutRawFrame(windowLog, content, []);
            var limit := Z.RawBlockSize(windowLog);
            && |d| == 18 + BlocksLength(limit, |content|)
            && d[0] == 0x28 && d[1] == 0xB5 && d[2] == 0x2F && d[3] == 0xFD
            && d[4] == 0xC4 && d[5] == (windowLog - 10) * 8 && U64At(d, 6) == |content|
            && BlocksAt(d, 14, limit, content)
            && U32At(d, |d| - 4) == Xxh64.Lo32(content)
  {
    hide Rest, PutU32, PutU64, PutByte, U32At, U64At, Z.PutBlocks, Z.RawBlockSize, Xxh64.Lo32, BlocksAt, BlocksLength;
    var d := Z.PutRawFrame(windowLog, content, []);
    var limit := Z.RawBlockSize(windowLog);
    RawLimit(windowLog);
    var b5 := PutU32(Xxh64.Lo32(content), []);
    var b4 := Z.PutBlocks(limit, content, b5);
    var b3 := PutU64(|content|, b4);
    var b2 := PutByte((windowLog - 10) * 8, b3);
    WholeRest(d);
    ReadU32(d, 0, 0xFD2F_B528, PutByte(0xC4, b2));
    MagicBytes(d);
    ReadByte(d, 4, 0xC4, b2);
    ReadByte(d, 5, (windowLog - 10) * 8, b3);
    ReadU64(d, 6, |content|, b4);
    ReadBlocks(d, 14, limit, content, b5);
    var end := 14 + BlocksLength(limit, |content|);
    ReadU32(d, end, Xxh64.Lo32(content), []);
    NothingAfter(d, end + 4);
  }

  lemma MagicBytes(d: Bytes)
    requires 4 <= |d| && U32At(d, 0) == 0xFD2F_B528
    ensures d[0] == 0x28 && d[1] == 0xB5 && d[2] == 0x2F && d[3] == 0xFD
  {
  }

  /** Blocks are as long as the window allows, and no longer than 128 KiB. */
  lemma RawLimit(windowLog: nat)
    ensures 0 < Z.RawBlockSize(windowLog) <= 0x2_0000
    ensures Z.RawBlockSize(windowLog) <= Z.Pow2(windowLog)
    ensures Z.RawBlockSize(windowLog) == 0x2_0000 || Z.RawBlockSize(windowLog) == Z.Pow2(windowLog)
  {
  }
}
