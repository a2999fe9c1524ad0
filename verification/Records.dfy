/**
The manifest's records on the wire (vcs/archive/encode.go and
vcs/archive/decode.go): a printer and a parser for each, and their inverse laws.
 */
module Records {
  import opened Basics
  import opened Extents
  import opened Manifest
  import opened Wire

  const HEADER_FIXED_BYTES: nat := 116
  const PACK_RECORD_BYTES: nat := 48
  const ENTRY_FIXED_BYTES: nat := 89
  const XATTR_FIXED_BYTES: nat := 8
  const FRAME_RECORD_BYTES: nat := 33
  const CHUNK_FIXED_BYTES: nat := 56
  const EXTENT_BYTES: nat := 16
  const FOOTER_BYTES: nat := 40

  // ----- extents and attributes -----

  function PutExtent(e: Extent, tail: Bytes): (b: Bytes)
    ensures |b| == EXTENT_BYTES + |tail|
  {
    PutU64(e.offset, PutU64(e.length, tail))
  }

  function TakeExtent(b: Bytes): (r: Option<(Extent, Bytes)>)
    ensures r.Some? ==> b == PutExtent(r.value.0, r.value.1)
  {
    var (offset, b1) :- TakeU64(b);
    var (length, b2) :- TakeU64(b1);
    Some((Extent(offset, length), b2))
  }

  function PutXattr(x: Xattr, tail: Bytes): (b: Bytes)
    ensures |b| == XATTR_FIXED_BYTES + |x.name| + |x.value| + |tail|
  {
    PutString(x.name, PutString(x.value, tail))
  }

  predicate XattrFits(x: Xattr) {
    |x.name| <= MAX_XATTR_NAME_BYTES && |x.value| <= MAX_XATTR_VALUE_SIZE
  }

  function TakeXattr(b: Bytes): (r: Option<(Xattr, Bytes)>)
    ensures r.Some? ==> XattrFits(r.value.0) && b == PutXattr(r.value.0, r.value.1)
  {
    var (name, b1) :- TakeString(MAX_XATTR_NAME_BYTES, b);
    var (value, b2) :- TakeString(MAX_XATTR_VALUE_SIZE, b1);
    Some((Xattr(name, value), b2))
  }

  // ----- packs and frames -----

  function PutPack(p: PackRef, tail: Bytes): (b: Bytes)
    ensures |b| == PACK_RECORD_BYTES + |tail|
  {
    PutU64(p.crc64, PutRaw(p.sha256, PutU64(p.sizeBytes, tail)))
  }

  function TakePack(b: Bytes): (r: Option<(PackRef, Bytes)>)
    ensures r.Some? ==> b == PutPack(r.value.0, r.value.1)
  {
    var (crc64, b1) :- TakeU64(b);
    var (sha256, b2) :- TakeBytes(32, b1);
    var (sizeBytes, b3) :- TakeU64(b2);
    Some((PackRef(crc64, sha256, sizeBytes), b3))
  }

  function RawFlag(raw: bool): byte {
    if raw then 1 else 0
  }

  function PutFrame(f: Frame, tail: Bytes): (b: Bytes)
    ensures |b| == FRAME_RECORD_BYTES + |tail|
  {
    PutU32(f.packIndex, PutU64(f.packOffset, PutU64(f.compressedLength, PutU64(f.uncompressedLength,
    PutByte(RawFlag(f.rawBlocks), PutU32(f.xxh64Lo32, tail))))))
  }

  function TakeFrame(b: Bytes): Option<(Frame, Bytes)> {
    var (packIndex, b1) :- TakeU32(b);
    var (packOffset, b2) :- TakeU64(b1);
    var (compressedLength, b3) :- TakeU64(b2);
    var (uncompressedLength, b4) :- TakeU64(b3);
    var (raw, b5) :- TakeByte(b4);
    if raw > 1 then None
    else
      var (xxh64Lo32, b6) :- TakeU32(b5);
      Some((Frame(packIndex, packOffset, compressedLength, uncompressedLength, raw == 1, xxh64Lo32), b6))
  }

  // ----- chunk references -----

  function PutChunk(c: ChunkRef, tail: Bytes): Bytes {
    PutU32(c.frameIndex, PutU64(c.innerOffset, PutU64(c.length, PutRaw(c.sliceDigest,
    PutLength(|c.extents|, PutAll(PutExtent, c.extents, tail))))))
  }

  predicate ChunkFits(c: ChunkRef) {
    |c.extents| <= MAX_EXTENTS_PER_CHUNK
  }

  function TakeChunk(b: Bytes): Option<(ChunkRef, Bytes)> {
    var (frameIndex, b1) :- TakeU32(b);
    var (innerOffset, b2) :- TakeU64(b1);
    var (length, b3) :- TakeU64(b2);
    var (sliceDigest, b4) :- TakeBytes(32, b3);
    var (extentCount, b5) :- TakeU32(b4);
    if !Budget(extentCount, EXTENT_BYTES, MAX_EXTENTS_PER_CHUNK, b5) then None
    else
      var (extents, b6) :- TakeAll(TakeExtent, extentCount, b5);
      Some((ChunkRef(frameIndex, innerOffset, length, sliceDigest, extents), b6))
  }

  // ----- entries -----

  /** An entry's row in the entry table: everything but its chunk references,
      which follow later, and their count. */
  datatype Row = Row(entry: Entry, chunkCount: nat)

  function PutRow(row: Row, tail: Bytes): Bytes {
    PutEntryHead(row.entry, PutEntryTail(row.entry, row.chunkCount, tail))
  }

  function PutEntryHead(e: Entry, tail: Bytes): (b: Bytes)
    ensures |b| == 41 + |tail|
  {
    PutU32(e.parentIndex, PutByte(e.kind, PutU32(e.mode, PutU64(e.size, PutU64(I64ToU64(e.mtimeNanos),
    PutU64(I64ToU64(e.ctimeNanos), PutU32(e.nlink, PutU32(e.hardlinkGroup, tail))))))))
  }

  function PutEntryTail(e: Entry, chunkCount: nat, tail: Bytes): Bytes {
    PutString(e.name, PutString(e.linkName, PutRaw(e.contentDigest,
    PutLength(|e.xattrs|, PutAll(PutXattr, e.xattrs, PutLength(chunkCount, tail))))))
  }

  predicate RowFits(row: Row) {
    && |row.entry.name| <= MAX_NAME_BYTES
    && |row.entry.linkName| <= MAX_LINK_NAME_BYTES
    && |row.entry.xattrs| <= MAX_XATTRS_PER_ENTRY
    && (forall x :: x in row.entry.xattrs ==> XattrFits(x))
    && row.entry.chunks == []
    && row.chunkCount < TWO_32
  }

  datatype EntryHead = EntryHead(
    parentIndex: u32, kind: byte, mode: u32, size: u64, mtime: u64, ctime: u64, nlink: u32, hardlinkGroup: u32)

  function TakeEntryHead(b: Bytes): Option<(EntryHead, Bytes)> {
    var (parentIndex, b1) :- TakeU32(b);
    var (kind, b2) :- TakeByte(b1);
    var (mode, b3) :- TakeU32(b2);
    var (size, b4) :- TakeU64(b3);
    var (mtime, b5) :- TakeU64(b4);
    var (ctime, b6) :- TakeU64(b5);
    var (nlink, b7) :- TakeU32(b6);
    var (hardlinkGroup, b8) :- TakeU32(b7);
    Some((EntryHead(parentIndex, kind, mode, size, mtime, ctime, nlink, hardlinkGroup), b8))
  }

  function TakeRow(b: Bytes): Option<(Row, Bytes)> {
    var (head, b1) :- TakeEntryHead(b);
    var (name, b2) :- TakeString(MAX_NAME_BYTES, b1);
    var (linkName, b3) :- TakeString(MAX_LINK_NAME_BYTES, b2);
    var (contentDigest, b4) :- TakeBytes(32, b3);
    var (xattrCount, b5) :- TakeU32(b4);
    if !Budget(xattrCount, XATTR_FIXED_BYTES, MAX_XATTRS_PER_ENTRY, b5) then None
    else
      var (xattrs, b6) :- TakeAll(TakeXattr, xattrCount, b5);
      var (chunkCount, b7) :- TakeU32(b6);
      Some((Row(Entry(head.parentIndex, name, head.kind, head.size, head.mode, U64ToI64(head.mtime),
                      U64ToI64(head.ctime), linkName, head.nlink, head.hardlinkGroup, contentDigest, xattrs, []),
                chunkCount), b7))
  }

  // ----- inverse laws, record by record -----

  lemma ExtentCodec()
    ensures Sound(PutExtent, TakeExtent, (e: Extent) => true)
    ensures Complete(PutExtent, TakeExtent, (e: Extent) => true)
    ensures AtLeast(PutExtent, EXTENT_BYTES)
  {
    hide PutU32, PutU64, PutByte, PutRaw, PutString, PutLength, TakeU32, TakeU64, TakeByte, TakeBytes, TakeString;
    FieldsInverse();
  }

  lemma XattrCodec()
    ensures Sound(PutXattr, TakeXattr, XattrFits)
    ensures Complete(PutXattr, TakeXattr, XattrFits)
    ensures AtLeast(PutXattr, XATTR_FIXED_BYTES)
  {
    hide PutU32, PutU64, PutByte, PutRaw, PutString, PutLength, TakeU32, TakeU64, TakeByte, TakeBytes, TakeString;
    FieldsInverse();
  }

  lemma PackCodec()
    ensures Sound(PutPack, TakePack, (p: PackRef) => true)
    ensures Complete(PutPack, TakePack, (p: PackRef) => true)
    ensures AtLeast(PutPack, PACK_RECORD_BYTES)
  {
    hide PutU32, PutU64, PutByte, PutRaw, PutString, PutLength, TakeU32, TakeU64, TakeByte, TakeBytes, TakeString;
    FieldsInverse();
  }

  lemma FrameSound(b: Bytes)
    requires TakeFrame(b).Some?
    ensures b == PutFrame(TakeFrame(b).value.0, TakeFrame(b).value.1)
  {
    hide PutU32, PutU64, PutByte, TakeU32, TakeU64, TakeByte;
  }

  lemma FrameCodec()
    ensures Sound(PutFrame, TakeFrame, (f: Frame) => true)
    ensures Complete(PutFrame, TakeFrame, (f: Frame) => true)
    ensures AtLeast(PutFrame, FRAME_RECORD_BYTES)
  {
    hide PutU32, PutU64, PutByte, PutRaw, PutString, PutLength, TakeU32, TakeU64, TakeByte, TakeBytes, TakeString;
    FieldsInverse();
    forall b: Bytes | TakeFrame(b).Some?
      ensures b == PutFrame(TakeFrame(b).value.0, TakeFrame(b).value.1)
    {
      FrameSound(b);
    }
  }

  lemma ChunkSound(b: Bytes)
    requires TakeChunk(b).Some?
    ensures ChunkFits(TakeChunk(b).value.0)
    ensures b == PutChunk(TakeChunk(b).value.0, TakeChunk(b).value.1)
  {
    hide PutU32, PutU64, PutByte, PutRaw, PutString, PutLength, TakeU32, TakeU64, TakeByte, TakeBytes, TakeString;
    var (frameIndex, b1) := TakeU32(b).value;
    var (innerOffset, b2) := TakeU64(b1).value;
    var (length, b3) := TakeU64(b2).value;
    var (sliceDigest, b4) := TakeBytes(32, b3).value;
    var (extentCount, b5) := TakeU32(b4).value;
    ExtentCodec();
    TakeAllSound(PutExtent, TakeExtent, (e: Extent) => true, extentCount, b5);
  }

  lemma ChunkComplete(c: ChunkRef, tail: Bytes)
    requires ChunkFits(c)
    ensures TakeChunk(PutChunk(c, tail)) == Some((c, tail))
  {
    hide PutU32, PutU64, PutByte, PutRaw, PutString, PutLength, TakeU32, TakeU64, TakeByte, TakeBytes, TakeString;
    FieldsInverse();
    ExtentCodec();
    var b5 := PutAll(PutExtent, c.extents, tail);
    PutAllLength(PutExtent, EXTENT_BYTES, c.extents, tail);
    BudgetByBytes(|c.extents|, EXTENT_BYTES, b5);
    TakeAllComplete(PutExtent, TakeExtent, (e: Extent) => true, c.extents, tail);
  }

  lemma ChunkCodec()
    ensures Sound(PutChunk, TakeChunk, ChunkFits)
    ensures Complete(PutChunk, TakeChunk, ChunkFits)
    ensures AtLeast(PutChunk, CHUNK_FIXED_BYTES)
  {
    forall b | TakeChunk(b).Some?
      ensures ChunkFits(TakeChunk(b).value.0) && b == PutChunk(TakeChunk(b).value.0, TakeChunk(b).value.1)
    {
      ChunkSound(b);
    }
    forall c, tail
      ensures ChunkFits(c) ==> TakeChunk(PutChunk(c, tail)) == Some((c, tail))
      ensures |PutChunk(c, tail)| >= |tail| + CHUNK_FIXED_BYTES
    {
      if ChunkFits(c) {
        ChunkComplete(c, tail);
      }
      ExtentCodec();
      PutAllLength(PutExtent, EXTENT_BYTES, c.extents, tail);
    }
  }

  function HeadOf(e: Entry): EntryHead {
    EntryHead(e.parentIndex, e.kind, e.mode, e.size, I64ToU64(e.mtimeNanos), I64ToU64(e.ctimeNanos),
              e.nlink, e.hardlinkGroup)
  }

  lemma EntryHeadComplete(e: Entry, tail: Bytes)
    ensures TakeEntryHead(PutEntryHead(e, tail)) == Some((HeadOf(e), tail))
  {
    hide PutU32, PutU64, PutByte, PutRaw, PutString, PutLength, TakeU32, TakeU64, TakeByte, TakeBytes, TakeString;
    FieldsInverse();
  }

  lemma EntryHeadSound(b: Bytes, e: Entry)
    requires TakeEntryHead(b).Some? && HeadOf(e) == TakeEntryHead(b).value.0
    ensures b == PutEntryHead(e, TakeEntryHead(b).value.1)
  {
    hide PutU32, PutU64, PutByte, PutRaw, PutString, PutLength, TakeU32, TakeU64, TakeByte, TakeBytes, TakeString;
  }

  lemma RowSound(b: Bytes)
    requires TakeRow(b).Some?
    ensures RowFits(TakeRow(b).value.0)
    ensures b == PutRow(TakeRow(b).value.0, TakeRow(b).value.1)
  {
    hide PutU32, PutU64, PutByte, PutRaw, PutString, PutLength, TakeU32, TakeU64, TakeByte, TakeBytes, TakeString;
    var row := TakeRow(b).value.0;
    var (head, b1) := TakeEntryHead(b).value;
    assert HeadOf(row.entry) == head;
    EntryHeadSound(b, row.entry);
    var (name, b2) := TakeString(MAX_NAME_BYTES, b1).value;
    var (linkName, b3) := TakeString(MAX_LINK_NAME_BYTES, b2).value;
    var (contentDigest, b4) := TakeBytes(32, b3).value;
    var (xattrCount, b5) := TakeU32(b4).value;
    XattrCodec();
    TakeAllSound(PutXattr, TakeXattr, XattrFits, xattrCount, b5);
  }

  lemma RowComplete(row: Row, tail: Bytes)
    requires RowFits(row)
    ensures TakeRow(PutRow(row, tail)) == Some((row, tail))
  {
    hide PutU32, PutU64, PutByte, PutRaw, PutString, PutLength, TakeU32, TakeU64, TakeByte, TakeBytes, TakeString;
    var e := row.entry;
    EntryHeadComplete(e, PutEntryTail(e, row.chunkCount, tail));
    FieldsInverse();
    XattrCodec();
    var last := PutLength(row.chunkCount, tail);
    var b5 := PutAll(PutXattr, e.xattrs, last);
    PutAllLength(PutXattr, XATTR_FIXED_BYTES, e.xattrs, last);
    BudgetByBytes(|e.xattrs|, XATTR_FIXED_BYTES, b5);
    TakeAllComplete(PutXattr, TakeXattr, XattrFits, e.xattrs, last);
  }

  lemma RowCodec()
    ensures Sound(PutRow, TakeRow, RowFits)
    ensures Complete(PutRow, TakeRow, RowFits)
    ensures AtLeast(PutRow, ENTRY_FIXED_BYTES)
  {
    forall b | TakeRow(b).Some?
      ensures RowFits(TakeRow(b).value.0) && b == PutRow(TakeRow(b).value.0, TakeRow(b).value.1)
    {
      RowSound(b);
    }
    forall row, tail
      ensures RowFits(row) ==> TakeRow(PutRow(row, tail)) == Some((row, tail))
      ensures |PutRow(row, tail)| >= |tail| + ENTRY_FIXED_BYTES
    {
      if RowFits(row) {
        RowComplete(row, tail);
      }
      XattrCodec();
      PutAllLength(PutXattr, XATTR_FIXED_BYTES, row.entry.xattrs, PutLength(row.chunkCount, tail));
    }
  }
}
