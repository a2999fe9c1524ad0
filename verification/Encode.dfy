/**
The encoder of vcs/archive/encode.go: it predicts the size, appends header,
entry table, frame table and chunk arrays to one buffer, and seals it.
 */
module Encode {
  import opened Basics
  import opened Extents
  import opened Manifest
  import opened Valid
  import opened Wire
  import opened Records
  import opened Codec
  import opened ByteLayout
  import Validate

  // ----- predicted size -----

  function XattrSize(x: Xattr): nat {
    XATTR_FIXED_BYTES + |x.name| + |x.value|
  }

  function ChunkSize(c: ChunkRef): nat {
    CHUNK_FIXED_BYTES + EXTENT_BYTES * |c.extents|
  }

  function EntrySize(e: Entry): nat {
    ENTRY_FIXED_BYTES + |e.name| + |e.linkName| + Total(XattrSize, e.xattrs) + Total(ChunkSize, e.chunks)
  }

  /** The size the encoder predicts before it writes a byte. */
  function PredictedSize(m: Manifest): nat {
    HEADER_FIXED_BYTES + PACK_RECORD_BYTES * |m.header.packs| + Total(EntrySize, m.entries) +
    FRAME_RECORD_BYTES * |m.frames| + FOOTER_BYTES
  }

  /** A printed value occupies exactly size(t) bytes. */
  ghost predicate Exactly<T(!new)>(put: Printer<T>, size: T -> nat) {
    forall t, tail :: |put(t, tail)| == size(t) + |tail|
  }

  lemma {:induction false} PutAllSize<T(!new)>(put: Printer<T>, size: T -> nat, items: seq<T>, tail: Bytes)
    requires Exactly(put, size)
    ensures |PutAll(put, items, tail)| == Total(size, items) + |tail|
    decreases |items|
  {
    if items != [] {
      PutAllSize(put, size, items[1..], tail);
      TotalFront(size, items);
    }
  }

  lemma {:induction false} PutAllFixed<T(!new)>(put: Printer<T>, k: nat, items: seq<T>, tail: Bytes)
    requires Exactly(put, (t: T) => k)
    ensures |PutAll(put, items, tail)| == k * |items| + |tail|
    decreases |items|
  {
    if items != [] {
      PutAllFixed(put, k, items[1..], tail);
      assert k * |items| == k * (|items| - 1) + k;
    }
  }

  lemma ChunkSizeExact()
    ensures Exactly(PutChunk, ChunkSize)
  {
    forall c, tail
      ensures |PutChunk(c, tail)| == ChunkSize(c) + |tail|
    {
      PutAllFixed(PutExtent, EXTENT_BYTES, c.extents, tail);
    }
  }

  function RowSize(row: Row): nat {
    ENTRY_FIXED_BYTES + |row.entry.name| + |row.entry.linkName| + Total(XattrSize, row.entry.xattrs)
  }

  lemma RowSizeExact()
    ensures Exactly(PutRow, RowSize)
  {
    forall row, tail
      ensures |PutRow(row, tail)| == RowSize(row) + |tail|
    {
      PutAllSize(PutXattr, XattrSize, row.entry.xattrs, PutLength(row.chunkCount, tail));
    }
  }

  /** Rows and chunk arrays are apart on the wire and together in the prediction. */
  lemma {:induction false} TablesSize(entries: seq<Entry>, frames: Bytes)
    ensures |PutAll(PutRow, RowsOf(entries), frames)| + |PutChunkArrays(entries, [])| ==
            Total(EntrySize, entries) + |frames|
    decreases |entries|
  {
    hide PutRow, PutChunk;
    RowSizeExact();
    ChunkSizeExact();
    if entries != [] {
      TablesSize(entries[1..], frames);
      assert RowsOf(entries)[1..] == RowsOf(entries[1..]);
      PutAllSize(PutChunk, ChunkSize, entries[0].chunks, PutChunkArrays(entries[1..], []));
      TotalFront(EntrySize, entries);
    }
  }

  /** The prediction is exact, so the encoder's size check cannot fail. */
  lemma SizeExact(m: Manifest)
    ensures |Seal(PutManifest(m))| == PredictedSize(m)
  {
    var arrays := PutChunkArrays(m.entries, []);
    var frames := PutAll(PutFrame, m.frames, arrays);
    var tables := PutAll(PutRow, RowsOf(m.entries), frames);
    assert |frames| == FRAME_RECORD_BYTES * |m.frames| + |arrays| by {
      PutAllFixed(PutFrame, FRAME_RECORD_BYTES, m.frames, arrays);
    }
    assert |tables| == Total(EntrySize, m.entries) + FRAME_RECORD_BYTES * |m.frames| by {
      TablesSize(m.entries, frames);
    }
    assert |PutAll(PutPack, m.header.packs, tables)| == PACK_RECORD_BYTES * |m.header.packs| + |tables| by {
      PutAllFixed(PutPack, PACK_RECORD_BYTES, m.header.packs, tables);
    }
    hide PutAll, PutChunkArrays, Total, PutIdentity, PutTotals;
  }

  /** The running prediction; None once it passes the format bound. */
  method EncodedSize(m: Manifest) returns (r: Option<nat>)
    requires |m.header.packs| <= MAX_PACKS
    ensures r == if PredictedSize(m) <= MAX_MANIFEST_BYTES then Some(PredictedSize(m)) else None
  {
    var size := HEADER_FIXED_BYTES + PACK_RECORD_BYTES * |m.header.packs|;
    for i := 0 to |m.entries|
      invariant size == HEADER_FIXED_BYTES + PACK_RECORD_BYTES * |m.header.packs| + Total(EntrySize, m.entries[..i])
      invariant size < TWO_64
    {
      var entry := m.entries[i];
      TotalStep(EntrySize, m.entries, i);
      var grown := AddEntrySize(size, entry);
      if grown.None? {
        return None;
      }
      size := grown.value;
    }
    PrefixWhole(m.entries);
    size := size + FRAME_RECORD_BYTES * |m.frames| + FOOTER_BYTES;
    if size >= TWO_64 || size > MAX_MANIFEST_BYTES {
      return None;
    }
    return Some(size);
  }

  /** Adds one entry, its attributes and its chunks, refusing 64-bit overflow. */
  method AddEntrySize(size: nat, entry: Entry) returns (r: Option<nat>)
    requires size < TWO_64
    ensures r == if size + EntrySize(entry) < TWO_64 then Some(size + EntrySize(entry)) else None
  {
    var sum := size + ENTRY_FIXED_BYTES + |entry.name| + |entry.linkName|;
    if sum >= TWO_64 {
      return None;
    }
    ghost var base := sum;
    for k := 0 to |entry.xattrs|
      invariant sum == base + Total(XattrSize, entry.xattrs[..k]) < TWO_64
    {
      TotalStep(XattrSize, entry.xattrs, k);
      sum := sum + XATTR_FIXED_BYTES + |entry.xattrs[k].name| + |entry.xattrs[k].value|;
      if sum >= TWO_64 {
        return None;
      }
    }
    PrefixWhole(entry.xattrs);
    base := sum;
    for k := 0 to |entry.chunks|
      invariant sum == base + Total(ChunkSize, entry.chunks[..k]) < TWO_64
    {
      TotalStep(ChunkSize, entry.chunks, k);
      sum := sum + CHUNK_FIXED_BYTES + EXTENT_BYTES * |entry.chunks[k].extents|;
      if sum >= TWO_64 {
        return None;
      }
    }
    PrefixWhole(entry.chunks);
    return Some(sum);
  }

  // ----- appending -----

  /** Appends a piece; what was still owed after it is owed after the result. */
  method Append(out: Bytes, piece: Bytes, ghost rest: Bytes) returns (r: Bytes)
    ensures r == out + piece
    ensures r + rest == out + PutRaw(piece, rest)
  {
    r := out + piece;
  }

  method AppendU32(out: Bytes, v: u32, ghost rest: Bytes) returns (r: Bytes)
    ensures r + rest == out + PutU32(v, rest)
  {
    r := Append(out, Le32(v), rest);
  }

  method AppendLength(out: Bytes, n: nat, ghost rest: Bytes) returns (r: Bytes)
    ensures r + rest == out + PutLength(n, rest)
  {
    r := Append(out, LittleEndian(n, 4), rest);
  }

  method AppendU64(out: Bytes, v: u64, ghost rest: Bytes) returns (r: Bytes)
    ensures r + rest == out + PutU64(v, rest)
  {
    r := Append(out, Le64(v), rest);
  }

  method AppendByte(out: Bytes, v: byte, ghost rest: Bytes) returns (r: Bytes)
    ensures r + rest == out + PutByte(v, rest)
  {
    r := Append(out, [v], rest);
  }

  method AppendString(out: Bytes, s: Bytes, ghost rest: Bytes) returns (r: Bytes)
    ensures r + rest == out + PutString(s, rest)
  {
    r := AppendLength(out, |s|, PutRaw(s, rest));
    r := Append(r, s, rest);
  }

  method AppendFrame(out: Bytes, f: Frame, ghost rest: Bytes) returns (r: Bytes)
    ensures r + rest == out + PutFrame(f, rest)
  {
    hide PutU32, PutU64, PutByte;
    ghost var r5 := PutU32(f.xxh64Lo32, rest);
    ghost var r4 := PutByte(RawFlag(f.rawBlocks), r5);
    ghost var r3 := PutU64(f.uncompressedLength, r4);
    ghost var r2 := PutU64(f.compressedLength, r3);
    ghost var r1 := PutU64(f.packOffset, r2);
    r := AppendU32(out, f.packIndex, r1);
    r := AppendU64(r, f.packOffset, r2);
    r := AppendU64(r, f.compressedLength, r3);
    r := AppendU64(r, f.uncompressedLength, r4);
    var raw: byte := if f.rawBlocks then 1 else 0;
    r := AppendByte(r, raw, r5);
    r := AppendU32(r, f.xxh64Lo32, rest);
  }

  method AppendExtents(out: Bytes, extents: seq<Extent>, ghost rest: Bytes) returns (r: Bytes)
    ensures r + rest == out + PutAll(PutExtent, extents, rest)
  {
    hide PutU64;
    r := out;
    for i := 0 to |extents|
      invariant r + PutAll(PutExtent, extents[i..], rest) == out + PutAll(PutExtent, extents, rest)
    {
      ghost var more := PutAll(PutExtent, extents[i + 1..], rest);
      assert extents[i..][1..] == extents[i + 1..];
      r := AppendU64(r, extents[i].offset, PutU64(extents[i].length, more));
      r := AppendU64(r, extents[i].length, more);
    }
  }

  method AppendChunk(out: Bytes, c: ChunkRef, ghost rest: Bytes) returns (r: Bytes)
    ensures r + rest == out + PutChunk(c, rest)
  {
    hide PutU32, PutU64, PutRaw, PutLength, PutExtent, PutAll;
    ghost var r4 := PutAll(PutExtent, c.extents, rest);
    ghost var r3 := PutLength(|c.extents|, r4);
    ghost var r2 := PutRaw(c.sliceDigest, r3);
    ghost var r1 := PutU64(c.length, r2);
    r := AppendU32(out, c.frameIndex, PutU64(c.innerOffset, r1));
    r := AppendU64(r, c.innerOffset, r1);
    r := AppendU64(r, c.length, r2);
    r := Append(r, c.sliceDigest, r3);
    r := AppendLength(r, |c.extents|, r4);
    r := AppendExtents(r, c.extents, rest);
  }

  method AppendXattrs(out: Bytes, xattrs: seq<Xattr>, ghost rest: Bytes) returns (r: Bytes)
    ensures r + rest == out + PutAll(PutXattr, xattrs, rest)
  {
    hide PutString;
    r := out;
    for i := 0 to |xattrs|
      invariant r + PutAll(PutXattr, xattrs[i..], rest) == out + PutAll(PutXattr, xattrs, rest)
    {
      ghost var more := PutAll(PutXattr, xattrs[i + 1..], rest);
      assert xattrs[i..][1..] == xattrs[i + 1..];
      r := AppendString(r, xattrs[i].name, PutString(xattrs[i].value, more));
      r := AppendString(r, xattrs[i].value, more);
    }
  }

  method AppendEntryHead(out: Bytes, e: Entry, ghost rest: Bytes) returns (r: Bytes)
    ensures r + rest == out + PutEntryHead(e, rest)
  {
    hide PutU32, PutU64, PutByte;
    ghost var r7 := PutU32(e.hardlinkGroup, rest);
    ghost var r6 := PutU32(e.nlink, r7);
    ghost var r5 := PutU64(I64ToU64(e.ctimeNanos), r6);
    ghost var r4 := PutU64(I64ToU64(e.mtimeNanos), r5);
    ghost var r3 := PutU64(e.size, r4);
    ghost var r2 := PutU32(e.mode, r3);
    ghost var r1 := PutByte(e.kind, r2);
    r := AppendU32(out, e.parentIndex, r1);
    r := AppendByte(r, e.kind, r2);
    r := AppendU32(r, e.mode, r3);
    r := AppendU64(r, e.size, r4);
    r := AppendU64(r, I64ToU64(e.mtimeNanos), r5);
    r := AppendU64(r, I64ToU64(e.ctimeNanos), r6);
    r := AppendU32(r, e.nlink, r7);
    r := AppendU32(r, e.hardlinkGroup, rest);
  }

  method AppendEntry(out: Bytes, e: Entry, ghost rest: Bytes) returns (r: Bytes)
    ensures r + rest == out + PutRow(RowOf(e), rest)
  {
    hide PutLength, PutString, PutRaw, PutEntryHead, PutXattr, PutAll;
    ghost var r5 := PutLength(|e.chunks|, rest);
    ghost var r4 := PutAll(PutXattr, e.xattrs, r5);
    ghost var r3 := PutLength(|e.xattrs|, r4);
    ghost var r2 := PutRaw(e.contentDigest, r3);
    ghost var r1 := PutString(e.linkName, r2);
    ghost var row := RowOf(e);
    assert PutRow(row, rest) == PutEntryHead(row.entry, PutString(e.name, r1));
    r := AppendEntryHead(out, e.(chunks := []), PutString(e.name, r1));
    r := AppendString(r, e.name, r1);
    r := AppendString(r, e.linkName, r2);
    r := Append(r, e.contentDigest, r3);
    r := AppendLength(r, |e.xattrs|, r4);
    r := AppendXattrs(r, e.xattrs, r5);
    r := AppendLength(r, |e.chunks|, rest);
  }

  method AppendPacks(out: Bytes, packs: seq<PackRef>, ghost rest: Bytes) returns (r: Bytes)
    ensures r + rest == out + PutAll(PutPack, packs, rest)
  {
    hide PutU64, PutRaw;
    r := out;
    for i := 0 to |packs|
      invariant r + PutAll(PutPack, packs[i..], rest) == out + PutAll(PutPack, packs, rest)
    {
      ghost var more := PutAll(PutPack, packs[i + 1..], rest);
      ghost var size := PutU64(packs[i].sizeBytes, more);
      assert packs[i..][1..] == packs[i + 1..];
      r := AppendU64(r, packs[i].crc64, PutRaw(packs[i].sha256, size));
      r := Append(r, packs[i].sha256, size);
      r := AppendU64(r, packs[i].sizeBytes, more);
    }
  }

  method AppendIdentity(out: Bytes, h: Header, ghost rest: Bytes) returns (r: Bytes)
    ensures r + rest == out + PutIdentity(h, rest)
  {
    hide PutU32, PutU64, PutRaw;
    ghost var r6 := PutRaw(h.attempt, rest);
    ghost var r5 := PutU64(h.sealedEpoch, r6);
    ghost var r4 := PutRaw(h.volumeId, r5);
    ghost var r3 := PutU32(h.windowLog, r4);
    ghost var r2 := PutU32(I32ToU32(h.compressionLevel), r3);
    ghost var r1 := PutU32(h.chunkSizeBytes, r2);
    r := AppendU32(out, h.formatVersion, r1);
    r := AppendU32(r, h.chunkSizeBytes, r2);
    r := AppendU32(r, I32ToU32(h.compressionLevel), r3);
    r := AppendU32(r, h.windowLog, r4);
    r := Append(r, h.volumeId, r5);
    r := AppendU64(r, h.sealedEpoch, r6);
    r := Append(r, h.attempt, rest);
  }

  method AppendTotals(out: Bytes, c: Counted, ghost rest: Bytes) returns (r: Bytes)
    ensures r + rest == out + PutTotals(c, rest)
  {
    hide PutLength, PutU64;
    ghost var r6 := PutU64(c.header.sealedInodes, rest);
    ghost var r5 := PutU64(c.header.sealedAllocatedBytes, r6);
    ghost var r4 := PutU64(c.header.logicalInodes, r5);
    ghost var r3 := PutU64(c.header.logicalBytes, r4);
    ghost var r2 := PutLength(c.chunks, r3);
    ghost var r1 := PutLength(c.frames, r2);
    r := AppendLength(out, c.entries, r1);
    r := AppendLength(r, c.frames, r2);
    r := AppendLength(r, c.chunks, r3);
    r := AppendU64(r, c.header.logicalBytes, r4);
    r := AppendU64(r, c.header.logicalInodes, r5);
    r := AppendU64(r, c.header.sealedAllocatedBytes, r6);
    r := AppendU64(r, c.header.sealedInodes, rest);
  }

  method AppendHeader(out: Bytes, m: Manifest, ghost rest: Bytes) returns (r: Bytes)
    ensures r + rest == out + PutHeader(CountedOf(m), rest)
  {
    hide PutU32, PutU64, PutLength, PutPack, PutAll, PutIdentity, PutTotals;
    var h := m.header;
    ghost var packs := PutAll(PutPack, h.packs, rest);
    ghost var count := PutLength(|h.packs|, packs);
    ghost var offset := PutU64(h.priority.packOffset, count);
    ghost var layout := PutLayout(h, rest);
    r := AppendIdentity(out, h, PutTotals(CountedOf(m), layout));
    r := AppendTotals(r, CountedOf(m), layout);
    r := AppendU32(r, h.priority.packIndex, offset);
    r := AppendU64(r, h.priority.packOffset, count);
    r := AppendLength(r, |h.packs|, packs);
    r := AppendPacks(r, h.packs, rest);
  }

  method AppendChunkArrays(out: Bytes, entries: seq<Entry>) returns (r: Bytes)
    ensures r == out + PutChunkArrays(entries, [])
  {
    hide PutChunk;
    r := out;
    for i := 0 to |entries|
      invariant r + PutChunkArrays(entries[i..], []) == out + PutChunkArrays(entries, [])
    {
      ghost var more := PutChunkArrays(entries[i + 1..], []);
      var chunks := entries[i].chunks;
      assert entries[i..][1..] == entries[i + 1..];
      for k := 0 to |chunks|
        invariant r + PutAll(PutChunk, chunks[k..], more) == out + PutChunkArrays(entries, [])
      {
        assert chunks[k..][1..] == chunks[k + 1..];
        r := AppendChunk(r, chunks[k], PutAll(PutChunk, chunks[k + 1..], more));
      }
    }
    assert r + [] == r;
  }

  /** Serializes a valid manifest canonically, every field at its place, or refuses
      it. */
  method Encode(m: Manifest) returns (r: Result<Bytes>)
    ensures EncodeSpec(m) == if r.Ok? then Some(r.value) else None
    ensures r.Ok? ==> LaidOut(r.value, m)
    ensures r.Err? ==> r.error == Invalid
  {
    r := EncodeValid(m);
    hide EncodeSpec, LaidOut;
    if r.Ok? {
      EncodedLayout(m, r.value);
    }
  }

  method EncodeValid(m: Manifest) returns (r: Result<Bytes>)
    ensures EncodeSpec(m) == if r.Ok? then Some(r.value) else None
    ensures r.Err? ==> r.error == Invalid
  {
    hide PutHeader, PutRow, PutFrame, PutChunkArrays, ValidManifest, PredictedSize, Seal;
    var ok := Validate.Validate(m);
    if !ok {
      return Err(Invalid);
    }
    SizeExact(m);
    ValidFits(m);
    var size := EncodedSize(m);
    if size.None? {
      return Err(Invalid);
    }
    ghost var body := PutManifest(m);
    var rows := RowsOf(m.entries);
    ghost var arrays := PutChunkArrays(m.entries, []);
    ghost var frames := PutAll(PutFrame, m.frames, arrays);
    var out := AppendHeader([], m, PutTables(m));
    for i := 0 to |m.entries|
      invariant out + PutAll(PutRow, rows[i..], frames) == body
    {
      assert rows[i..][1..] == rows[i + 1..];
      out := AppendEntry(out, m.entries[i], PutAll(PutRow, rows[i + 1..], frames));
    }
    for i := 0 to |m.frames|
      invariant out + PutAll(PutFrame, m.frames[i..], arrays) == body
    {
      assert m.frames[i..][1..] == m.frames[i + 1..];
      out := AppendFrame(out, m.frames[i], PutAll(PutFrame, m.frames[i + 1..], arrays));
    }
    out := AppendChunkArrays(out, m.entries);
    var sealed := SealBody(out);
    if |sealed| != size.value {
      assert false;
      return Err(Invalid);
    }
    return Ok(sealed);
  }

  method SealBody(body: Bytes) returns (d: Bytes)
    ensures d == Seal(body)
  {
    d := body + Sha256(body);
    d := d + MAGIC;
  }
}
