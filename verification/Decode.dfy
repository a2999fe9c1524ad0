/**
The decoder of vcs/archive/decode.go: a fail-closed cursor over the sealed body,
the record decoders that fill it out, and the validation at the end.
 */
module Decode {
  import opened Basics
  import opened Extents
  import opened Manifest
  import opened Valid
  import opened Wire
  import opened Records
  import opened Codec
  import opened ByteLayout
  import ByteExact
  import Validate

  /** A bounds-checked cursor. */
  class Reader {
    const buf: Bytes
    var at: nat

    ghost predicate Valid()
      reads this
    {
      at <= |buf|
    }

    /** The bytes not read yet. */
    ghost function Rest(): Bytes
      requires Valid()
      reads this
    {
      buf[at..]
    }

    constructor (body: Bytes)
      ensures Valid() && Rest() == body && buf == body
    {
      buf := body;
      at := 0;
    }

    method Take(n: nat) returns (r: Option<Bytes>)
      requires Valid()
      modifies this
      ensures Valid()
      ensures TakeBytes(n, old(Rest())) == if r.Some? then Some((r.value, Rest())) else None
    {
      if n > |buf| - at {
        return None;
      }
      var out := buf[at..at + n];
      assert buf[at..][..n] == out && buf[at..][n..] == buf[at + n..];
      at := at + n;
      return Some(out);
    }

    method ByteValue() returns (r: Option<byte>)
      requires Valid()
      modifies this
      ensures Valid()
      ensures TakeByte(old(Rest())) == if r.Some? then Some((r.value, Rest())) else None
    {
      var raw := Take(1);
      if raw.None? {
        return None;
      }
      return Some(raw.value[0]);
    }

    method Uint32() returns (r: Option<u32>)
      requires Valid()
      modifies this
      ensures Valid()
      ensures TakeU32(old(Rest())) == if r.Some? then Some((r.value, Rest())) else None
    {
      var raw := Take(4);
      if raw.None? {
        return None;
      }
      return Some(FromLe32(raw.value));
    }

    method Uint64() returns (r: Option<u64>)
      requires Valid()
      modifies this
      ensures Valid()
      ensures TakeU64(old(Rest())) == if r.Some? then Some((r.value, Rest())) else None
    {
      var raw := Take(8);
      if raw.None? {
        return None;
      }
      return Some(FromLe64(raw.value));
    }

    method LengthPrefixed(bound: nat) returns (r: Option<Bytes>)
      requires Valid()
      modifies this
      ensures Valid()
      ensures TakeString(bound, old(Rest())) == if r.Some? then Some((r.value, Rest())) else None
    {
      var declared := Uint32();
      if declared.None? || declared.value > bound {
        return None;
      }
      r := Take(declared.value);
    }

    method WithinBudget(count: nat, recordBytes: nat, hardLimit: nat) returns (ok: bool)
      requires Valid() && recordBytes > 0
      ensures ok <==> Budget(count, recordBytes, hardLimit, Rest())
      ensures ok <==> count <= hardLimit && count * recordBytes <= |Rest()|
    {
      BudgetByBytes(count, recordBytes, Rest());
      return count <= hardLimit && count <= (|buf| - at) / recordBytes;
    }
  }

  method DecodeFrame(cursor: Reader) returns (r: Option<Frame>)
    requires cursor.Valid()
    modifies cursor
    ensures cursor.Valid()
    ensures TakeFrame(old(cursor.Rest())) == if r.Some? then Some((r.value, cursor.Rest())) else None
  {
    hide TakeU32, TakeU64, TakeByte, PutFrame;
    var packIndex := cursor.Uint32();
    if packIndex.None? { return None; }
    var packOffset := cursor.Uint64();
    if packOffset.None? { return None; }
    var compressedLength := cursor.Uint64();
    if compressedLength.None? { return None; }
    var uncompressedLength := cursor.Uint64();
    if uncompressedLength.None? { return None; }
    var raw := cursor.ByteValue();
    if raw.None? || raw.value > 1 { return None; }
    var xxh64Lo32 := cursor.Uint32();
    if xxh64Lo32.None? { return None; }
    return Some(Frame(packIndex.value, packOffset.value, compressedLength.value, uncompressedLength.value,
                      raw.value == 1, xxh64Lo32.value));
  }

  method DecodeExtent(cursor: Reader) returns (r: Option<Extent>)
    requires cursor.Valid()
    modifies cursor
    ensures cursor.Valid()
    ensures TakeExtent(old(cursor.Rest())) == if r.Some? then Some((r.value, cursor.Rest())) else None
  {
    hide TakeU64;
    var offset := cursor.Uint64();
    if offset.None? { return None; }
    var length := cursor.Uint64();
    if length.None? { return None; }
    return Some(Extent(offset.value, length.value));
  }

  /** One step of reading repeated records: n remain of count, items are done. */
  lemma TakeAllStep<T>(take: Parser<T>, n: nat, b: Bytes, items: seq<T>, whole: Option<(seq<T>, Bytes)>)
    requires n > 0
    requires whole == Prepend(items, TakeAll(take, n, b))
    ensures take(b).None? ==> whole.None?
    ensures take(b).Some? ==>
              whole == Prepend(items + [take(b).value.0], TakeAll(take, n - 1, take(b).value.1))
  {
    if take(b).Some? {
      var (first, more) := take(b).value;
      var others := TakeAll(take, n - 1, more);
      if others.Some? {
        assert items + ([first] + others.value.0) == items + [first] + others.value.0;
      }
    }
  }

  function Prepend<T>(items: seq<T>, r: Option<(seq<T>, Bytes)>): Option<(seq<T>, Bytes)> {
    if r.None? then None else Some((items + r.value.0, r.value.1))
  }

  lemma TakeNone<T>(take: Parser<T>, b: Bytes)
    ensures TakeAll(take, 0, b) == Some(([], b))
  {
  }

  lemma PrependNothing<T>(r: Option<(seq<T>, Bytes)>, items: seq<T>, rest: Bytes)
    ensures Prepend([], r) == r
    ensures Prepend(items, Some(([], rest))) == Some((items, rest))
  {
    assert items + [] == items;
    if r.Some? {
      assert [] + r.value.0 == r.value.0;
    }
  }

  method DecodeExtents(cursor: Reader, count: nat) returns (r: Option<seq<Extent>>)
    requires cursor.Valid()
    modifies cursor
    ensures cursor.Valid()
    ensures TakeAll(TakeExtent, count, old(cursor.Rest())) == if r.Some? then Some((r.value, cursor.Rest())) else None
  {
    hide TakeExtent;
    ghost var whole := TakeAll(TakeExtent, count, cursor.Rest());
    PrependNothing(whole, [], cursor.Rest());
    var items: seq<Extent> := [];
    for i := 0 to count
      invariant cursor.Valid()
      invariant whole == Prepend(items, TakeAll(TakeExtent, count - i, cursor.Rest()))
    {
      TakeAllStep(TakeExtent, count - i, cursor.Rest(), items, whole);
      var item := DecodeExtent(cursor);
      if item.None? { return None; }
      items := items + [item.value];
    }
    PrependNothing(whole, items, cursor.Rest());
    return Some(items);
  }

  method DecodeChunk(cursor: Reader) returns (r: Option<ChunkRef>)
    requires cursor.Valid()
    modifies cursor
    ensures cursor.Valid()
    ensures TakeChunk(old(cursor.Rest())) == if r.Some? then Some((r.value, cursor.Rest())) else None
  {
    hide TakeU32, TakeU64, TakeBytes, TakeAll, Budget;
    var frameIndex := cursor.Uint32();
    if frameIndex.None? { return None; }
    var innerOffset := cursor.Uint64();
    if innerOffset.None? { return None; }
    var length := cursor.Uint64();
    if length.None? { return None; }
    var sliceDigest := cursor.Take(32);
    if sliceDigest.None? { return None; }
    var extentCount := cursor.Uint32();
    if extentCount.None? { return None; }
    var ok := cursor.WithinBudget(extentCount.value, EXTENT_BYTES, MAX_EXTENTS_PER_CHUNK);
    if !ok { return None; }
    var extents := DecodeExtents(cursor, extentCount.value);
    if extents.None? { return None; }
    return Some(ChunkRef(frameIndex.value, innerOffset.value, length.value, sliceDigest.value, extents.value));
  }

  method DecodeXattr(cursor: Reader) returns (r: Option<Xattr>)
    requires cursor.Valid()
    modifies cursor
    ensures cursor.Valid()
    ensures TakeXattr(old(cursor.Rest())) == if r.Some? then Some((r.value, cursor.Rest())) else None
  {
    hide TakeString;
    var name := cursor.LengthPrefixed(MAX_XATTR_NAME_BYTES);
    if name.None? { return None; }
    var value := cursor.LengthPrefixed(MAX_XATTR_VALUE_SIZE);
    if value.None? { return None; }
    return Some(Xattr(name.value, value.value));
  }

  method DecodeXattrs(cursor: Reader, count: nat) returns (r: Option<seq<Xattr>>)
    requires cursor.Valid()
    modifies cursor
    ensures cursor.Valid()
    ensures TakeAll(TakeXattr, count, old(cursor.Rest())) == if r.Some? then Some((r.value, cursor.Rest())) else None
  {
    hide TakeXattr;
    ghost var whole := TakeAll(TakeXattr, count, cursor.Rest());
    PrependNothing(whole, [], cursor.Rest());
    var items: seq<Xattr> := [];
    for i := 0 to count
      invariant cursor.Valid()
      invariant whole == Prepend(items, TakeAll(TakeXattr, count - i, cursor.Rest()))
    {
      TakeAllStep(TakeXattr, count - i, cursor.Rest(), items, whole);
      var item := DecodeXattr(cursor);
      if item.None? { return None; }
      items := items + [item.value];
    }
    PrependNothing(whole, items, cursor.Rest());
    return Some(items);
  }

  method DecodeEntryHead(cursor: Reader) returns (r: Option<EntryHead>)
    requires cursor.Valid()
    modifies cursor
    ensures cursor.Valid()
    ensures TakeEntryHead(old(cursor.Rest())) == if r.Some? then Some((r.value, cursor.Rest())) else None
  {
    hide TakeU32, TakeU64, TakeByte;
    var parentIndex := cursor.Uint32();
    if parentIndex.None? { return None; }
    var kind := cursor.ByteValue();
    if kind.None? { return None; }
    var mode := cursor.Uint32();
    if mode.None? { return None; }
    var size := cursor.Uint64();
    if size.None? { return None; }
    var mtime := cursor.Uint64();
    if mtime.None? { return None; }
    var ctime := cursor.Uint64();
    if ctime.None? { return None; }
    var nlink := cursor.Uint32();
    if nlink.None? { return None; }
    var hardlinkGroup := cursor.Uint32();
    if hardlinkGroup.None? { return None; }
    return Some(EntryHead(parentIndex.value, kind.value, mode.value, size.value, mtime.value, ctime.value,
                          nlink.value, hardlinkGroup.value));
  }

  /** One entry without its chunks, and how many chunks will follow. */
  method DecodeEntry(cursor: Reader) returns (r: Option<Row>)
    requires cursor.Valid()
    modifies cursor
    ensures cursor.Valid()
    ensures TakeRow(old(cursor.Rest())) == if r.Some? then Some((r.value, cursor.Rest())) else None
  {
    hide TakeEntryHead, TakeString, TakeBytes, TakeU32, TakeAll, Budget;
    var head := DecodeEntryHead(cursor);
    if head.None? { return None; }
    var name := cursor.LengthPrefixed(MAX_NAME_BYTES);
    if name.None? { return None; }
    var linkName := cursor.LengthPrefixed(MAX_LINK_NAME_BYTES);
    if linkName.None? { return None; }
    var contentDigest := cursor.Take(32);
    if contentDigest.None? { return None; }
    var xattrCount := cursor.Uint32();
    if xattrCount.None? { return None; }
    var ok := cursor.WithinBudget(xattrCount.value, XATTR_FIXED_BYTES, MAX_XATTRS_PER_ENTRY);
    if !ok { return None; }
    var xattrs := DecodeXattrs(cursor, xattrCount.value);
    if xattrs.None? { return None; }
    var chunkCount := cursor.Uint32();
    if chunkCount.None? { return None; }
    var h := head.value;
    return Some(Row(Entry(h.parentIndex, name.value, h.kind, h.size, h.mode, U64ToI64(h.mtime), U64ToI64(h.ctime),
                          linkName.value, h.nlink, h.hardlinkGroup, contentDigest.value, xattrs.value, []),
                    chunkCount.value));
  }

  method DecodeFrames(cursor: Reader, count: nat) returns (r: Option<seq<Frame>>)
    requires cursor.Valid()
    modifies cursor
    ensures cursor.Valid()
    ensures TakeAll(TakeFrame, count, old(cursor.Rest())) == if r.Some? then Some((r.value, cursor.Rest())) else None
  {
    hide TakeFrame, TakeAll, Prepend;
    ghost var whole := TakeAll(TakeFrame, count, cursor.Rest());
    PrependNothing(whole, [], cursor.Rest());
    var items: seq<Frame> := [];
    for i := 0 to count
      invariant cursor.Valid()
      invariant whole == Prepend(items, TakeAll(TakeFrame, count - i, cursor.Rest()))
    {
      TakeAllStep(TakeFrame, count - i, cursor.Rest(), items, whole);
      var item := DecodeFrame(cursor);
      if item.None? { return None; }
      items := items + [item.value];
    }
    TakeNone(TakeFrame, cursor.Rest());
    PrependNothing(whole, items, cursor.Rest());
    return Some(items);
  }

  method DecodeChunks(cursor: Reader, count: nat) returns (r: Option<seq<ChunkRef>>)
    requires cursor.Valid()
    modifies cursor
    ensures cursor.Valid()
    ensures TakeAll(TakeChunk, count, old(cursor.Rest())) == if r.Some? then Some((r.value, cursor.Rest())) else None
  {
    hide TakeChunk;
    ghost var whole := TakeAll(TakeChunk, count, cursor.Rest());
    PrependNothing(whole, [], cursor.Rest());
    var items: seq<ChunkRef> := [];
    for i := 0 to count
      invariant cursor.Valid()
      invariant whole == Prepend(items, TakeAll(TakeChunk, count - i, cursor.Rest()))
    {
      TakeAllStep(TakeChunk, count - i, cursor.Rest(), items, whole);
      var item := DecodeChunk(cursor);
      if item.None? { return None; }
      items := items + [item.value];
    }
    PrependNothing(whole, items, cursor.Rest());
    return Some(items);
  }

  // ----- header -----

  method DecodePack(cursor: Reader) returns (r: Option<PackRef>)
    requires cursor.Valid()
    modifies cursor
    ensures cursor.Valid()
    ensures TakePack(old(cursor.Rest())) == if r.Some? then Some((r.value, cursor.Rest())) else None
  {
    hide TakeU64, TakeBytes;
    var crc64 := cursor.Uint64();
    if crc64.None? { return None; }
    var sha256 := cursor.Take(32);
    if sha256.None? { return None; }
    var sizeBytes := cursor.Uint64();
    if sizeBytes.None? { return None; }
    return Some(PackRef(crc64.value, sha256.value, sizeBytes.value));
  }

  method DecodePacks(cursor: Reader, count: nat) returns (r: Option<seq<PackRef>>)
    requires cursor.Valid()
    modifies cursor
    ensures cursor.Valid()
    ensures TakeAll(TakePack, count, old(cursor.Rest())) == if r.Some? then Some((r.value, cursor.Rest())) else None
  {
    hide TakePack, TakeAll, Prepend;
    ghost var whole := TakeAll(TakePack, count, cursor.Rest());
    PrependNothing(whole, [], cursor.Rest());
    var items: seq<PackRef> := [];
    for i := 0 to count
      invariant cursor.Valid()
      invariant whole == Prepend(items, TakeAll(TakePack, count - i, cursor.Rest()))
    {
      TakeAllStep(TakePack, count - i, cursor.Rest(), items, whole);
      var item := DecodePack(cursor);
      if item.None? { return None; }
      items := items + [item.value];
    }
    TakeNone(TakePack, cursor.Rest());
    PrependNothing(whole, items, cursor.Rest());
    return Some(items);
  }

  method DecodeIdentity(cursor: Reader) returns (r: Option<Identity>)
    requires cursor.Valid()
    modifies cursor
    ensures cursor.Valid()
    ensures TakeIdentity(old(cursor.Rest())) == if r.Some? then Some((r.value, cursor.Rest())) else None
  {
    hide TakeU32, TakeU64, TakeBytes;
    var version := cursor.Uint32();
    if version.None? || version.value != FORMAT_VERSION { return None; }
    var chunkSize := cursor.Uint32();
    if chunkSize.None? { return None; }
    var level := cursor.Uint32();
    if level.None? { return None; }
    var windowLog := cursor.Uint32();
    if windowLog.None? { return None; }
    var volumeId := cursor.Take(16);
    if volumeId.None? { return None; }
    var epoch := cursor.Uint64();
    if epoch.None? { return None; }
    var attempt := cursor.Take(16);
    if attempt.None? { return None; }
    return Some(Identity(version.value, chunkSize.value, level.value, windowLog.value, volumeId.value, epoch.value,
                         attempt.value));
  }

  method DecodeTotals(cursor: Reader) returns (r: Option<Totals>)
    requires cursor.Valid()
    modifies cursor
    ensures cursor.Valid()
    ensures TakeTotals(old(cursor.Rest())) == if r.Some? then Some((r.value, cursor.Rest())) else None
  {
    hide TakeU32, TakeU64;
    var entries := cursor.Uint32();
    if entries.None? { return None; }
    var frames := cursor.Uint32();
    if frames.None? { return None; }
    var chunks := cursor.Uint32();
    if chunks.None? { return None; }
    var logicalBytes := cursor.Uint64();
    if logicalBytes.None? { return None; }
    var logicalInodes := cursor.Uint64();
    if logicalInodes.None? { return None; }
    var allocatedBytes := cursor.Uint64();
    if allocatedBytes.None? { return None; }
    var inodes := cursor.Uint64();
    if inodes.None? { return None; }
    return Some(Totals(entries.value, frames.value, chunks.value, logicalBytes.value, logicalInodes.value,
                       allocatedBytes.value, inodes.value));
  }

  method DecodeHeader(cursor: Reader) returns (r: Option<Counted>)
    requires cursor.Valid()
    modifies cursor
    ensures cursor.Valid()
    ensures TakeHeader(old(cursor.Rest())) == if r.Some? then Some((r.value, cursor.Rest())) else None
  {
    hide TakeIdentity, TakeTotals, TakeU32, TakeU64, TakeAll, Budget, HeaderOf;
    var identity := DecodeIdentity(cursor);
    if identity.None? { return None; }
    var totals := DecodeTotals(cursor);
    if totals.None? { return None; }
    var packIndex := cursor.Uint32();
    if packIndex.None? { return None; }
    var packOffset := cursor.Uint64();
    if packOffset.None? { return None; }
    var packCount := cursor.Uint32();
    if packCount.None? { return None; }
    var ok := cursor.WithinBudget(packCount.value, PACK_RECORD_BYTES, MAX_PACKS);
    if !ok { return None; }
    var packs := DecodePacks(cursor, packCount.value);
    if packs.None? { return None; }
    var t := totals.value;
    var header := HeaderOf(identity.value, t, PriorityBoundary(packIndex.value, packOffset.value), packs.value);
    return Some(Counted(header, t.entries, t.frames, t.chunks));
  }

  // ----- tables -----

  /** Reads the entry table, refusing chunk counts that pass the declared total. */
  method DecodeRows(cursor: Reader, count: nat, chunkCount: nat) returns (r: Option<seq<Row>>)
    requires cursor.Valid()
    modifies cursor
    ensures cursor.Valid()
    ensures r.Some? ==> TakeAll(TakeRow, count, old(cursor.Rest())) == Some((r.value, cursor.Rest())) &&
                        Total(CountOf, r.value) == chunkCount
    ensures r.None? ==> TakeAll(TakeRow, count, old(cursor.Rest())).None? ||
                        Total(CountOf, TakeAll(TakeRow, count, old(cursor.Rest())).value.0) != chunkCount
  {
    hide TakeRow, TakeAll;
    ghost var whole := TakeAll(TakeRow, count, cursor.Rest());
    PrependNothing(whole, [], cursor.Rest());
    var items: seq<Row> := [];
    var declared := 0;
    for i := 0 to count
      invariant cursor.Valid()
      invariant whole == Prepend(items, TakeAll(TakeRow, count - i, cursor.Rest()))
      invariant declared == Total(CountOf, items) <= chunkCount
    {
      TakeAllStep(TakeRow, count - i, cursor.Rest(), items, whole);
      var item := DecodeEntry(cursor);
      if item.None? { return None; }
      TotalSnoc(CountOf, items, item.value);
      items := items + [item.value];
      declared := declared + item.value.chunkCount;
      if declared > chunkCount {
        PrependTotal(items, TakeAll(TakeRow, count - i - 1, cursor.Rest()));
        return None;
      }
    }
    TakeNone(TakeRow, cursor.Rest());
    PrependNothing(whole, items, cursor.Rest());
    if declared != chunkCount { return None; }
    return Some(items);
  }

  lemma PrependTotal(items: seq<Row>, r: Option<(seq<Row>, Bytes)>)
    ensures r.Some? ==> Total(CountOf, Prepend(items, r).value.0) >= Total(CountOf, items)
  {
    if r.Some? {
      var joined := items + r.value.0;
      TotalPrefix(CountOf, joined, |items|);
      assert joined[..|items|] == items;
    }
  }

  /** Reads the chunk arrays, each delimited by its row's count. */
  method DecodeChunkArrays(cursor: Reader, rows: seq<Row>) returns (r: Option<seq<Entry>>)
    requires cursor.Valid()
    modifies cursor
    ensures cursor.Valid()
    ensures TakeChunkArrays(rows, old(cursor.Rest())) == if r.Some? then Some((r.value, cursor.Rest())) else None
  {
    hide TakeAll;
    ghost var whole := TakeChunkArrays(rows, cursor.Rest());
    PrependNothing(whole, [], cursor.Rest());
    var entries: seq<Entry> := [];
    assert rows[0..] == rows;
    for i := 0 to |rows|
      invariant cursor.Valid()
      invariant whole == Prepend(entries, TakeChunkArrays(rows[i..], cursor.Rest()))
    {
      ChunkArraysStep(rows, i, cursor.Rest(), entries, whole);
      var chunks := DecodeChunks(cursor, rows[i].chunkCount);
      if chunks.None? { return None; }
      entries := entries + [rows[i].entry.(chunks := chunks.value)];
    }
    PrependNothing(whole, entries, cursor.Rest());
    return Some(entries);
  }

  lemma ChunkArraysStep(rows: seq<Row>, i: nat, b: Bytes, entries: seq<Entry>, whole: Option<(seq<Entry>, Bytes)>)
    requires i < |rows|
    requires whole == Prepend(entries, TakeChunkArrays(rows[i..], b))
    ensures var chunks := TakeAll(TakeChunk, rows[i].chunkCount, b);
            && (chunks.None? ==> whole.None?)
            && (chunks.Some? ==>
                  whole == Prepend(entries + [rows[i].entry.(chunks := chunks.value.0)],
                                   TakeChunkArrays(rows[i + 1..], chunks.value.1)))
  {
    hide TakeAll;
    assert rows[i..][1..] == rows[i + 1..];
    var chunks := TakeAll(TakeChunk, rows[i].chunkCount, b);
    if chunks.Some? {
      var first := rows[i].entry.(chunks := chunks.value.0);
      var others := TakeChunkArrays(rows[i + 1..], chunks.value.1);
      if others.Some? {
        assert entries + ([first] + others.value.0) == entries + [first] + others.value.0;
      }
    }
  }

  method DecodeTables(cursor: Reader, c: Counted) returns (r: Option<Manifest>)
    requires cursor.Valid()
    modifies cursor
    ensures cursor.Valid()
    ensures TakeTables(c, old(cursor.Rest())) == r
  {
    hide TakeAll, TakeChunkArrays, Budget, Total;
    var ok := cursor.WithinBudget(c.entries, ENTRY_FIXED_BYTES, MAX_ENTRIES);
    if !ok { return None; }
    var rows := DecodeRows(cursor, c.entries, c.chunks);
    if rows.None? { return None; }
    ok := cursor.WithinBudget(c.frames, FRAME_RECORD_BYTES, MAX_FRAMES);
    if !ok { return None; }
    var frames := DecodeFrames(cursor, c.frames);
    if frames.None? { return None; }
    ok := cursor.WithinBudget(c.chunks, CHUNK_FIXED_BYTES, MAX_CHUNKS);
    if !ok { return None; }
    var entries := DecodeChunkArrays(cursor, rows.value);
    if entries.None? { return None; }
    if cursor.at != |cursor.buf| { return None; }
    return Some(Manifest(c.header, entries.value, frames.value));
  }

  /** Parses and fully validates one manifest object: what it returns is the valid
      manifest laid out in the object, and it refuses an object only when there is
      none. */
  method Decode(d: Bytes) returns (r: Result<Manifest>)
    ensures DecodeSpec(d) == if r.Ok? then Some(r.value) else None
    ensures r.Ok? ==> |d| <= MAX_MANIFEST_BYTES && ValidManifest(r.value) && LaidOut(d, r.value)
    ensures r.Err? && |d| <= MAX_MANIFEST_BYTES ==> forall m: Manifest :: ValidManifest(m) ==> !LaidOut(d, m)
    ensures r.Err? ==> r.error == Invalid
  {
    r := DecodeValid(d);
    DecodedLayout(d);
  }

  lemma DecodedLayout(d: Bytes)
    ensures DecodeSpec(d).Some? ==>
              && |d| <= MAX_MANIFEST_BYTES && ValidManifest(DecodeSpec(d).value)
              && LaidOut(d, DecodeSpec(d).value)
    ensures DecodeSpec(d).None? && |d| <= MAX_MANIFEST_BYTES ==> forall m: Manifest :: ValidManifest(m) ==> !LaidOut(d, m)
  {
    hide ValidManifest, LaidOut, EncodeSpec, TakeManifest;
    if DecodeSpec(d).Some? {
      var m := DecodeSpec(d).value;
      CodecBijection(m, d);
      ByteExact.LayoutExact(m, d);
    } else if |d| <= MAX_MANIFEST_BYTES {
      forall m: Manifest | ValidManifest(m)
        ensures !LaidOut(d, m)
      {
        CodecBijection(m, d);
        ByteExact.LayoutExact(m, d);
      }
    }
  }

  method DecodeValid(d: Bytes) returns (r: Result<Manifest>)
    ensures DecodeSpec(d) == if r.Ok? then Some(r.value) else None
    ensures r.Err? ==> r.error == Invalid
  {
    hide TakeHeader, TakeTables, ValidManifest;
    if |d| > MAX_MANIFEST_BYTES || |d| < HEADER_FIXED_BYTES + FOOTER_BYTES {
      return Err(Invalid);
    }
    var body, footer := d[..|d| - FOOTER_BYTES], d[|d| - FOOTER_BYTES..];
    if footer[32..] != MAGIC || footer[..32] != Sha256(body) {
      return Err(Invalid);
    }
    var cursor := new Reader(body);
    var counted := DecodeHeader(cursor);
    if counted.None? {
      return Err(Invalid);
    }
    var m := DecodeTables(cursor, counted.value);
    if m.None? {
      return Err(Invalid);
    }
    var ok := Validate.Validate(m.value);
    if !ok {
      return Err(Invalid);
    }
    return Ok(m.value);
  }
}
