/**
The layout of an encoded manifest leaves nothing open: an object with every field
where the format puts it is the encoding, byte for byte.
 */
module ByteExact {
  import opened Basics
  import opened Extents
  import opened Manifest
  import opened Valid
  import opened Wire
  import opened Records
  import opened Codec
  import opened ByteLayout

  // ----- fields -----

  lemma RestBefore(d: Bytes, k: nat, piece: Bytes, rest: Bytes)
    requires k + |piece| <= |d| && d[k..k + |piece|] == piece && Rest(d, k + |piece|, rest)
    ensures Rest(d, k, piece + rest)
  {
    assert d[k..] == d[k..k + |piece|] + d[k + |piece|..];
  }

  lemma WriteU32(d: Bytes, k: nat, v: u32, rest: Bytes)
    requires k + 4 <= |d| && U32At(d, k) == v && Rest(d, k + 4, rest)
    ensures Rest(d, k, PutU32(v, rest))
  {
    hide Rest, U32At, LittleEndian;
    var b := d[k..k + 4];
    var n := FromLe32(b);
    U32Bytes(n);
    U32Shift(d, k, b);
    RestBefore(d, k, b, rest);
  }

  lemma WriteLength(d: Bytes, k: nat, n: nat, rest: Bytes)
    requires k + 4 <= |d| && U32At(d, k) == n < TWO_32 && Rest(d, k + 4, rest)
    ensures Rest(d, k, PutLength(n, rest))
  {
    hide Rest, U32At, LittleEndian;
    WriteU32(d, k, n, rest);
  }

  lemma WriteU64(d: Bytes, k: nat, v: u64, rest: Bytes)
    requires k + 8 <= |d| && U64At(d, k) == v && Rest(d, k + 8, rest)
    ensures Rest(d, k, PutU64(v, rest))
  {
    hide Rest, U64At, LittleEndian;
    var b := d[k..k + 8];
    var n := FromLe64(b);
    U64Bytes(n);
    U64Shift(d, k, b);
    RestBefore(d, k, b, rest);
  }

  lemma WriteByte(d: Bytes, k: nat, v: byte, rest: Bytes)
    requires k + 1 <= |d| && d[k] == v && Rest(d, k + 1, rest)
    ensures Rest(d, k, PutByte(v, rest))
  {
    hide Rest;
    RestBefore(d, k, [v], rest);
  }

  lemma WriteRaw(d: Bytes, k: nat, s: Bytes, rest: Bytes)
    requires k + |s| <= |d| && d[k..k + |s|] == s && Rest(d, k + |s|, rest)
    ensures Rest(d, k, PutRaw(s, rest))
  {
    hide Rest;
    RestBefore(d, k, s, rest);
  }

  lemma WriteString(d: Bytes, k: nat, s: Bytes, rest: Bytes)
    requires StringAt(d, k, s) && Rest(d, k + 4 + |s|, rest) && |s| < TWO_32
    ensures Rest(d, k, PutString(s, rest))
  {
    hide Rest, U32At, PutLength, PutRaw;
    WriteRaw(d, k + 4, s, rest);
    WriteLength(d, k, |s|, PutRaw(s, rest));
  }

  // ----- records -----

  lemma WriteExtent(d: Bytes, k: nat, e: Extent, rest: Bytes)
    requires ExtentAt(d, k, e) && Rest(d, k + 16, rest)
    ensures Rest(d, k, PutExtent(e, rest))
  {
    hide Rest, PutU64, U64At;
    WriteU64(d, k + 8, e.length, rest);
    WriteU64(d, k, e.offset, PutU64(e.length, rest));
  }

  lemma WriteXattr(d: Bytes, k: nat, x: Xattr, rest: Bytes)
    requires XattrAt(d, k, x) && Rest(d, k + XattrLength(x), rest) && XattrFits(x)
    ensures Rest(d, k, PutXattr(x, rest))
  {
    hide Rest, PutString, StringAt;
    WriteString(d, k + 4 + |x.name|, x.value, rest);
    WriteString(d, k, x.name, PutString(x.value, rest));
  }

  lemma WritePack(d: Bytes, k: nat, p: PackRef, rest: Bytes)
    requires PackAt(d, k, p) && Rest(d, k + 48, rest)
    ensures Rest(d, k, PutPack(p, rest))
  {
    hide Rest, PutU64, PutRaw, U64At;
    var b2 := PutU64(p.sizeBytes, rest);
    WriteU64(d, k + 40, p.sizeBytes, rest);
    WriteRaw(d, k + 8, p.sha256, b2);
    WriteU64(d, k, p.crc64, PutRaw(p.sha256, b2));
  }

  lemma WriteFrame(d: Bytes, k: nat, f: Frame, rest: Bytes)
    requires FrameAt(d, k, f) && Rest(d, k + 33, rest)
    ensures Rest(d, k, PutFrame(f, rest))
  {
    hide Rest, PutU32, PutU64, PutByte, U32At, U64At;
    var b5 := PutU32(f.xxh64Lo32, rest);
    var b4 := PutByte(RawFlag(f.rawBlocks), b5);
    var b3 := PutU64(f.uncompressedLength, b4);
    var b2 := PutU64(f.compressedLength, b3);
    WriteU32(d, k + 29, f.xxh64Lo32, rest);
    WriteByte(d, k + 28, RawFlag(f.rawBlocks), b5);
    WriteU64(d, k + 20, f.uncompressedLength, b4);
    WriteU64(d, k + 12, f.compressedLength, b3);
    WriteU64(d, k + 4, f.packOffset, b2);
    WriteU32(d, k, f.packIndex, PutU64(f.packOffset, b2));
  }

  lemma {:induction false} WriteExtents(d: Bytes, k: nat, extents: seq<Extent>, rest: Bytes)
    requires forall j :: 0 <= j < |extents| ==> ExtentAt(d, k + 16 * j, extents[j])
    requires Rest(d, k + 16 * |extents|, rest)
    ensures Rest(d, k, PutAll(PutExtent, extents, rest))
    decreases |extents|
  {
    hide Rest, PutExtent, ExtentAt;
    if extents != [] {
      forall j | 0 <= j < |extents| - 1
        ensures ExtentAt(d, k + 16 + 16 * j, extents[1..][j])
      {
        assert ExtentAt(d, k + 16 * (j + 1), extents[j + 1]);
      }
      WriteExtents(d, k + 16, extents[1..], rest);
      assert ExtentAt(d, k + 16 * 0, extents[0]);
      WriteExtent(d, k, extents[0], PutAll(PutExtent, extents[1..], rest));
    }
  }

  lemma WriteChunk(d: Bytes, k: nat, c: ChunkRef, rest: Bytes)
    requires ChunkAt(d, k, c) && Rest(d, k + ChunkLength(c), rest) && ChunkFits(c)
    ensures Rest(d, k, PutChunk(c, rest))
  {
    hide Rest, PutU32, PutU64, PutRaw, PutLength, PutAll, U32At, U64At, ExtentAt;
    var b5 := PutAll(PutExtent, c.extents, rest);
    var b4 := PutLength(|c.extents|, b5);
    var b3 := PutRaw(c.sliceDigest, b4);
    var b2 := PutU64(c.length, b3);
    WriteExtents(d, k + 56, c.extents, rest);
    WriteLength(d, k + 52, |c.extents|, b5);
    WriteRaw(d, k + 20, c.sliceDigest, b4);
    WriteU64(d, k + 12, c.length, b3);
    WriteU64(d, k + 4, c.innerOffset, b2);
    WriteU32(d, k, c.frameIndex, PutU64(c.innerOffset, b2));
  }

  lemma WriteEntryHead(d: Bytes, k: nat, e: Entry, rest: Bytes)
    requires EntryHeadAt(d, k, e) && Rest(d, k + 41, rest)
    ensures Rest(d, k, PutEntryHead(e, rest))
  {
    hide Rest, PutU32, PutU64, PutByte, U32At, U64At;
    var b7 := PutU32(e.hardlinkGroup, rest);
    var b6 := PutU32(e.nlink, b7);
    var b5 := PutU64(I64ToU64(e.ctimeNanos), b6);
    var b4 := PutU64(I64ToU64(e.mtimeNanos), b5);
    var b3 := PutU64(e.size, b4);
    var b2 := PutU32(e.mode, b3);
    WriteU32(d, k + 37, e.hardlinkGroup, rest);
    WriteU32(d, k + 33, e.nlink, b7);
    WriteU64(d, k + 25, I64ToU64(e.ctimeNanos), b6);
    WriteU64(d, k + 17, I64ToU64(e.mtimeNanos), b5);
    WriteU64(d, k + 9, e.size, b4);
    WriteU32(d, k + 5, e.mode, b3);
    WriteByte(d, k + 4, e.kind, b2);
    WriteU32(d, k, e.parentIndex, PutByte(e.kind, b2));
  }

  lemma {:induction false} WriteXattrs(d: Bytes, k: nat, xattrs: seq<Xattr>, rest: Bytes)
    requires forall j :: 0 <= j < |xattrs| ==> XattrAt(d, k + Total(XattrLength, xattrs[..j]), xattrs[j])
    requires Rest(d, k + Total(XattrLength, xattrs), rest) && forall x :: x in xattrs ==> XattrFits(x)
    ensures Rest(d, k, PutAll(PutXattr, xattrs, rest))
    decreases |xattrs|
  {
    hide Rest, PutXattr, XattrAt, XattrFits, Total;
    if xattrs != [] {
      var first, others := xattrs[0], xattrs[1..];
      TotalFront(XattrLength, xattrs);
      forall j | 0 <= j < |others|
        ensures XattrAt(d, k + XattrLength(first) + Total(XattrLength, others[..j]), others[j])
      {
        assert XattrAt(d, k + Total(XattrLength, xattrs[..j + 1]), xattrs[j + 1]);
        TotalFront(XattrLength, xattrs[..j + 1]);
        assert xattrs[..j + 1][1..] == others[..j];
      }
      WriteXattrs(d, k + XattrLength(first), others, rest);
      NoneBefore(XattrLength, xattrs);
      assert XattrAt(d, k + Total(XattrLength, xattrs[..0]), xattrs[0]);
      WriteXattr(d, k, first, PutAll(PutXattr, others, rest));
    } else {
      NoneBefore(XattrLength, xattrs);
      assert xattrs[..0] == xattrs;
    }
  }

  lemma WriteEntryTail(d: Bytes, k: nat, e: Entry, chunks: nat, rest: Bytes)
    requires EntryTailAt(d, k, e, chunks)
    requires Rest(d, k + 48 + |e.name| + |e.linkName| + Total(XattrLength, e.xattrs), rest)
    requires |e.name| < TWO_32 && |e.linkName| < TWO_32 && |e.xattrs| < TWO_32 && chunks < TWO_32
    requires forall x :: x in e.xattrs ==> XattrFits(x)
    ensures Rest(d, k, PutEntryTail(e, chunks, rest))
  {
    hide Rest, PutString, PutRaw, PutLength, PutAll, U32At, XattrAt, XattrFits, StringAt, Total;
    var b5 := PutLength(chunks, rest);
    var b4 := PutAll(PutXattr, e.xattrs, b5);
    var b3 := PutLength(|e.xattrs|, b4);
    var b2 := PutRaw(e.contentDigest, b3);
    var at := k + 8 + |e.name| + |e.linkName|;
    WriteLength(d, at + 36 + Total(XattrLength, e.xattrs), chunks, rest);
    WriteXattrs(d, at + 36, e.xattrs, b5);
    WriteLength(d, at + 32, |e.xattrs|, b4);
    WriteRaw(d, at, e.contentDigest, b3);
    WriteString(d, k + 4 + |e.name|, e.linkName, b2);
    WriteString(d, k, e.name, PutString(e.linkName, b2));
  }

  lemma WriteRow(d: Bytes, k: nat, e: Entry, rest: Bytes)
    requires EntryAt(d, k, e, |e.chunks|) && Rest(d, k + EntryLength(e), rest) && RowFits(RowOf(e))
    ensures Rest(d, k, PutRow(RowOf(e), rest))
  {
    hide Rest, EntryHeadAt, EntryTailAt, Total, PutU32, PutU64, PutByte, PutString, PutRaw, PutLength, PutAll;
    WriteEntryTail(d, k + 41, e, |e.chunks|, rest);
    WriteEntryHead(d, k, e, PutEntryTail(e, |e.chunks|, rest));
  }

  // ----- tables -----

  lemma {:induction false} WriteEntries(d: Bytes, k: nat, entries: seq<Entry>, rest: Bytes)
    requires forall i :: 0 <= i < |entries| ==>
               EntryAt(d, k + Total(EntryLength, entries[..i]), entries[i], |entries[i].chunks|)
    requires Rest(d, k + Total(EntryLength, entries), rest) && forall e :: e in entries ==> RowFits(RowOf(e))
    ensures Rest(d, k, PutAll(PutRow, RowsOf(entries), rest))
    decreases |entries|
  {
    hide Rest, PutRow, EntryAt, RowFits, RowOf, Total;
    if entries != [] {
      var first, others := entries[0], entries[1..];
      TotalFront(EntryLength, entries);
      forall i | 0 <= i < |others|
        ensures EntryAt(d, k + EntryLength(first) + Total(EntryLength, others[..i]), others[i], |others[i].chunks|)
      {
        assert EntryAt(d, k + Total(EntryLength, entries[..i + 1]), entries[i + 1], |entries[i + 1].chunks|);
        TotalFront(EntryLength, entries[..i + 1]);
        assert entries[..i + 1][1..] == others[..i];
      }
      WriteEntries(d, k + EntryLength(first), others, rest);
      NoneBefore(EntryLength, entries);
      assert EntryAt(d, k + Total(EntryLength, entries[..0]), entries[0], |entries[0].chunks|);
      assert first in entries && RowsOf(entries)[1..] == RowsOf(others);
      WriteRow(d, k, first, PutAll(PutRow, RowsOf(others), rest));
    } else {
      NoneBefore(EntryLength, entries);
      assert entries[..0] == entries;
    }
  }

  lemma {:induction false} WritePacks(d: Bytes, k: nat, packs: seq<PackRef>, rest: Bytes)
    requires forall p :: 0 <= p < |packs| ==> PackAt(d, k + 48 * p, packs[p])
    requires Rest(d, k + 48 * |packs|, rest)
    ensures Rest(d, k, PutAll(PutPack, packs, rest))
    decreases |packs|
  {
    hide Rest, PutPack, PackAt;
    if packs != [] {
      forall p | 0 <= p < |packs| - 1
        ensures PackAt(d, k + 48 + 48 * p, packs[1..][p])
      {
        assert PackAt(d, k + 48 * (p + 1), packs[p + 1]);
      }
      WritePacks(d, k + 48, packs[1..], rest);
      assert PackAt(d, k + 48 * 0, packs[0]);
      WritePack(d, k, packs[0], PutAll(PutPack, packs[1..], rest));
    }
  }

  lemma {:induction false} WriteFrames(d: Bytes, k: nat, frames: seq<Frame>, rest: Bytes)
    requires forall f :: 0 <= f < |frames| ==> FrameAt(d, k + 33 * f, frames[f])
    requires Rest(d, k + 33 * |frames|, rest)
    ensures Rest(d, k, PutAll(PutFrame, frames, rest))
    decreases |frames|
  {
    hide Rest, PutFrame, FrameAt;
    if frames != [] {
      forall f | 0 <= f < |frames| - 1
        ensures FrameAt(d, k + 33 + 33 * f, frames[1..][f])
      {
        assert FrameAt(d, k + 33 * (f + 1), frames[f + 1]);
      }
      WriteFrames(d, k + 33, frames[1..], rest);
      assert FrameAt(d, k + 33 * 0, frames[0]);
      WriteFrame(d, k, frames[0], PutAll(PutFrame, frames[1..], rest));
    }
  }

  lemma {:induction false} WriteArray(d: Bytes, k: nat, chunks: seq<ChunkRef>, rest: Bytes)
    requires forall j :: 0 <= j < |chunks| ==> ChunkAt(d, k + Total(ChunkLength, chunks[..j]), chunks[j])
    requires Rest(d, k + Total(ChunkLength, chunks), rest) && forall c :: c in chunks ==> ChunkFits(c)
    ensures Rest(d, k, PutAll(PutChunk, chunks, rest))
    decreases |chunks|
  {
    hide Rest, PutChunk, ChunkAt, ChunkFits, Total;
    if chunks != [] {
      var first, others := chunks[0], chunks[1..];
      TotalFront(ChunkLength, chunks);
      forall j | 0 <= j < |others|
        ensures ChunkAt(d, k + ChunkLength(first) + Total(ChunkLength, others[..j]), others[j])
      {
        assert ChunkAt(d, k + Total(ChunkLength, chunks[..j + 1]), chunks[j + 1]);
        TotalFront(ChunkLength, chunks[..j + 1]);
        assert chunks[..j + 1][1..] == others[..j];
      }
      WriteArray(d, k + ChunkLength(first), others, rest);
      NoneBefore(ChunkLength, chunks);
      assert ChunkAt(d, k + Total(ChunkLength, chunks[..0]), chunks[0]);
      WriteChunk(d, k, first, PutAll(PutChunk, others, rest));
    } else {
      NoneBefore(ChunkLength, chunks);
      assert chunks[..0] == chunks;
    }
  }

  lemma {:induction false} WriteArrays(d: Bytes, k: nat, entries: seq<Entry>, rest: Bytes)
    requires forall i :: 0 <= i < |entries| ==> ArrayAt(d, k + Total(ArrayLength, entries[..i]), entries[i])
    requires Rest(d, k + Total(ArrayLength, entries), rest) && forall e :: e in entries ==> ChunksFit(e)
    ensures Rest(d, k, PutChunkArrays(entries, rest))
    decreases |entries|
  {
    hide Rest, ChunkAt, Total, PutAll, ArrayAt;
    if entries != [] {
      var first, others := entries[0], entries[1..];
      TotalFront(ArrayLength, entries);
      forall i | 0 <= i < |others|
        ensures ArrayAt(d, k + ArrayLength(first) + Total(ArrayLength, others[..i]), others[i])
      {
        assert ArrayAt(d, k + Total(ArrayLength, entries[..i + 1]), entries[i + 1]);
        TotalFront(ArrayLength, entries[..i + 1]);
        assert entries[..i + 1][1..] == others[..i];
      }
      WriteArrays(d, k + ArrayLength(first), others, rest);
      NoneBefore(ArrayLength, entries);
      assert ArrayAt(d, k + Total(ArrayLength, entries[..0]), entries[0]);
      assert ChunksFit(first);
      WriteOwn(d, k, first, PutChunkArrays(others, rest));
    } else {
      NoneBefore(ArrayLength, entries);
      assert entries[..0] == entries;
    }
  }

  lemma WriteOwn(d: Bytes, k: nat, e: Entry, rest: Bytes)
    requires ArrayAt(d, k, e) && ChunksFit(e) && Rest(d, k + ArrayLength(e), rest)
    ensures Rest(d, k, PutAll(PutChunk, e.chunks, rest))
  {
    hide Rest, ChunkAt, ChunkFits, Total, PutAll;
    WriteArray(d, k, e.chunks, rest);
  }

  // ----- the header -----

  lemma WriteLayout(d: Bytes, m: Manifest, rest: Bytes)
    requires HeaderAt(d, m) && HeaderFits(CountedOf(m)) && Rest(d, 116 + 48 * |m.header.packs|, rest)
    requires forall p :: 0 <= p < |m.header.packs| ==> PackAt(d, 116 + 48 * p, m.header.packs[p])
    ensures Rest(d, 100, PutLayout(m.header, rest))
  {
    hide Rest, PutU32, PutU64, PutLength, PutAll, U32At, U64At, PackAt;
    var h := m.header;
    var b3 := PutAll(PutPack, h.packs, rest);
    var b2 := PutLength(|h.packs|, b3);
    WritePacks(d, 116, h.packs, rest);
    WriteLength(d, 112, |h.packs|, b3);
    WriteU64(d, 104, h.priority.packOffset, b2);
    WriteU32(d, 100, h.priority.packIndex, PutU64(h.priority.packOffset, b2));
  }

  lemma WriteTotals(d: Bytes, m: Manifest, rest: Bytes)
    requires HeaderAt(d, m) && HeaderFits(CountedOf(m)) && Rest(d, 100, rest)
    ensures Rest(d, 56, PutTotals(CountedOf(m), rest))
  {
    hide Rest, PutLength, PutU64, U32At, U64At, ChunkCount;
    var c := CountedOf(m);
    var b6 := PutU64(c.header.sealedInodes, rest);
    var b5 := PutU64(c.header.sealedAllocatedBytes, b6);
    var b4 := PutU64(c.header.logicalInodes, b5);
    var b3 := PutU64(c.header.logicalBytes, b4);
    var b2 := PutLength(c.chunks, b3);
    WriteU64(d, 92, c.header.sealedInodes, rest);
    WriteU64(d, 84, c.header.sealedAllocatedBytes, b6);
    WriteU64(d, 76, c.header.logicalInodes, b5);
    WriteU64(d, 68, c.header.logicalBytes, b4);
    WriteLength(d, 64, c.chunks, b3);
    WriteLength(d, 60, c.frames, b2);
    WriteLength(d, 56, c.entries, PutLength(c.frames, b2));
  }

  lemma WriteIdentity(d: Bytes, m: Manifest, rest: Bytes)
    requires HeaderAt(d, m) && Rest(d, 56, rest)
    ensures Rest(d, 0, PutIdentity(m.header, rest))
  {
    hide Rest, PutU32, PutU64, PutRaw, U32At, U64At, ChunkCount;
    var h := m.header;
    var b6 := PutRaw(h.attempt, rest);
    var b5 := PutU64(h.sealedEpoch, b6);
    var b4 := PutRaw(h.volumeId, b5);
    var b3 := PutU32(h.windowLog, b4);
    var b2 := PutU32(I32ToU32(h.compressionLevel), b3);
    WriteRaw(d, 40, h.attempt, rest);
    WriteU64(d, 32, h.sealedEpoch, b6);
    WriteRaw(d, 16, h.volumeId, b5);
    WriteU32(d, 12, h.windowLog, b4);
    WriteU32(d, 8, I32ToU32(h.compressionLevel), b3);
    WriteU32(d, 4, h.chunkSizeBytes, b2);
    WriteU32(d, 0, h.formatVersion, PutU32(h.chunkSizeBytes, b2));
  }

  // ----- the manifest -----

  lemma WriteBody(body: Bytes, m: Manifest)
    requires BodyAt(body, m) && Fits(m)
    ensures body == PutManifest(m)
  {
    hide Rest, PutIdentity, PutTotals, PutLayout, PutAll, PutChunkArrays, Total, HeaderAt, PackAt, EntryAt, FrameAt, ArrayAt;
    hide HeaderFits, ChunksFit, RowFits, ChunkCount;
    EndRest(body);
    WriteArrays(body, ChunksStart(m), m.entries, []);
    var arrays := PutChunkArrays(m.entries, []);
    WriteFrames(body, FramesStart(m), m.frames, arrays);
    var frames := PutAll(PutFrame, m.frames, arrays);
    WriteEntries(body, EntriesStart(m), m.entries, frames);
    var tables := PutTables(m);
    WriteLayout(body, m, tables);
    WriteTotals(body, m, PutLayout(m.header, tables));
    WriteIdentity(body, m, PutTotals(CountedOf(m), PutLayout(m.header, tables)));
    AllRest(body, PutManifest(m));
  }

  lemma EndRest(d: Bytes)
    ensures Rest(d, |d|, [])
  {
  }

  lemma AllRest(d: Bytes, e: Bytes)
    requires Rest(d, 0, e)
    ensures d == e
  {
    assert d[0..] == d;
  }

  /** For every valid manifest the laid-out objects within the size bound are exactly
      its encoding. */
  lemma LayoutExact(m: Manifest, d: Bytes)
    requires ValidManifest(m)
    ensures EncodeSpec(m) == Some(d) <==> LaidOut(d, m) && |d| <= MAX_MANIFEST_BYTES
  {
    hide ValidManifest, PutManifest, BodyAt, Fits;
    ValidFits(m);
    if EncodeSpec(m) == Some(d) {
      EncodedLayout(m, d);
    }
    if LaidOut(d, m) {
      WriteBody(d[..|d| - 40], m);
      SealOf(d);
    }
  }

  lemma SealOf(d: Bytes)
    requires 40 <= |d| && d[|d| - 40..|d| - 8] == Sha256(d[..|d| - 40]) && d[|d| - 8..] == MAGIC
    ensures d == Seal(d[..|d| - 40])
  {
    assert d == d[..|d| - 40] + d[|d| - 40..|d| - 8] + d[|d| - 8..];
  }
}
