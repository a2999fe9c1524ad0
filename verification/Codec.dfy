/**
The manifest as one sealed byte string (vcs/archive/encode.go,
vcs/archive/decode.go): decoding and encoding are inverse in both directions.
 */
module Codec {
  import opened Basics
  import opened Manifest
  import opened Frames
  import opened Valid
  import opened Wire
  import opened Records

  // ----- header -----

  /** A header with the counts of the tables that follow it. */
  datatype Counted = Counted(header: Header, entries: nat, frames: nat, chunks: nat)

  function PutIdentity(h: Header, tail: Bytes): (b: Bytes)
    ensures |b| == 56 + |tail|
  {
    PutU32(h.formatVersion, PutU32(h.chunkSizeBytes, PutU32(I32ToU32(h.compressionLevel), PutU32(h.windowLog,
    PutRaw(h.volumeId, PutU64(h.sealedEpoch, PutRaw(h.attempt, tail)))))))
  }

  function PutTotals(c: Counted, tail: Bytes): (b: Bytes)
    ensures |b| == 44 + |tail|
  {
    PutLength(c.entries, PutLength(c.frames, PutLength(c.chunks, PutU64(c.header.logicalBytes,
    PutU64(c.header.logicalInodes, PutU64(c.header.sealedAllocatedBytes, PutU64(c.header.sealedInodes, tail)))))))
  }

  function PutLayout(h: Header, tail: Bytes): Bytes {
    PutU32(h.priority.packIndex, PutU64(h.priority.packOffset, PutLength(|h.packs|, PutAll(PutPack, h.packs, tail))))
  }

  function PutHeader(c: Counted, tail: Bytes): Bytes {
    PutIdentity(c.header, PutTotals(c, PutLayout(c.header, tail)))
  }

  datatype Identity = Identity(
    version: u32, chunkSize: u32, level: u32, windowLog: u32, volumeId: Id16, epoch: u64, attempt: Id16)

  function TakeIdentity(b: Bytes): Option<(Identity, Bytes)> {
    var (version, b1) :- TakeU32(b);
    if version != FORMAT_VERSION then None
    else
      var (chunkSize, b2) :- TakeU32(b1);
      var (level, b3) :- TakeU32(b2);
      var (windowLog, b4) :- TakeU32(b3);
      var (volumeId, b5) :- TakeBytes(16, b4);
      var (epoch, b6) :- TakeU64(b5);
      var (attempt, b7) :- TakeBytes(16, b6);
      Some((Identity(version, chunkSize, level, windowLog, volumeId, epoch, attempt), b7))
  }

  datatype Totals = Totals(
    entries: u32, frames: u32, chunks: u32, logicalBytes: u64, logicalInodes: u64, allocatedBytes: u64, inodes: u64)

  function TakeTotals(b: Bytes): Option<(Totals, Bytes)> {
    var (entries, b1) :- TakeU32(b);
    var (frames, b2) :- TakeU32(b1);
    var (chunks, b3) :- TakeU32(b2);
    var (logicalBytes, b4) :- TakeU64(b3);
    var (logicalInodes, b5) :- TakeU64(b4);
    var (allocatedBytes, b6) :- TakeU64(b5);
    var (inodes, b7) :- TakeU64(b6);
    Some((Totals(entries, frames, chunks, logicalBytes, logicalInodes, allocatedBytes, inodes), b7))
  }

  function TakeLayout(b: Bytes): Option<((PriorityBoundary, seq<PackRef>), Bytes)> {
    var (packIndex, b1) :- TakeU32(b);
    var (packOffset, b2) :- TakeU64(b1);
    var (packCount, b3) :- TakeU32(b2);
    if !Budget(packCount, PACK_RECORD_BYTES, MAX_PACKS, b3) then None
    else
      var (packs, b4) :- TakeAll(TakePack, packCount, b3);
      Some(((PriorityBoundary(packIndex, packOffset), packs), b4))
  }

  function HeaderOf(i: Identity, t: Totals, priority: PriorityBoundary, packs: seq<PackRef>): Header {
    Header(i.version, i.chunkSize, U32ToI32(i.level), i.windowLog, i.volumeId, i.epoch, i.attempt,
           t.logicalBytes, t.logicalInodes, t.allocatedBytes, t.inodes, priority, packs)
  }

  function TakeHeader(b: Bytes): Option<(Counted, Bytes)> {
    var (identity, b1) :- TakeIdentity(b);
    var (totals, b2) :- TakeTotals(b1);
    var (layout, b3) :- TakeLayout(b2);
    Some((Counted(HeaderOf(identity, totals, layout.0, layout.1), totals.entries, totals.frames, totals.chunks), b3))
  }

  predicate HeaderFits(c: Counted) {
    && c.header.formatVersion == FORMAT_VERSION
    && |c.header.packs| <= MAX_PACKS
    && c.entries < TWO_32 && c.frames < TWO_32 && c.chunks < TWO_32
  }

  lemma IdentityInverse(h: Header, tail: Bytes)
    requires h.formatVersion == FORMAT_VERSION
    ensures TakeIdentity(PutIdentity(h, tail)) ==
            Some((Identity(h.formatVersion, h.chunkSizeBytes, I32ToU32(h.compressionLevel), h.windowLog,
                           h.volumeId, h.sealedEpoch, h.attempt), tail))
  {
    hide PutU32, PutU64, PutRaw, TakeU32, TakeU64, TakeBytes;
    FieldsInverse();
  }

  lemma IdentitySound(b: Bytes, h: Header)
    requires TakeIdentity(b).Some?
    requires TakeIdentity(b).value.0 == Identity(h.formatVersion, h.chunkSizeBytes, I32ToU32(h.compressionLevel),
                                                 h.windowLog, h.volumeId, h.sealedEpoch, h.attempt)
    ensures h.formatVersion == FORMAT_VERSION && b == PutIdentity(h, TakeIdentity(b).value.1)
  {
    hide PutU32, PutU64, PutRaw, TakeU32, TakeU64, TakeBytes;
  }

  lemma TotalsInverse(c: Counted, tail: Bytes)
    requires HeaderFits(c)
    ensures TakeTotals(PutTotals(c, tail)) ==
            Some((Totals(c.entries, c.frames, c.chunks, c.header.logicalBytes, c.header.logicalInodes,
                         c.header.sealedAllocatedBytes, c.header.sealedInodes), tail))
  {
    hide PutLength, PutU64, TakeU32, TakeU64;
    FieldsInverse();
  }

  lemma TotalsSound(b: Bytes, c: Counted)
    requires TakeTotals(b).Some? && HeaderFits(c)
    requires TakeTotals(b).value.0 == Totals(c.entries, c.frames, c.chunks, c.header.logicalBytes,
                                             c.header.logicalInodes, c.header.sealedAllocatedBytes,
                                             c.header.sealedInodes)
    ensures b == PutTotals(c, TakeTotals(b).value.1)
  {
    hide PutLength, PutU64, TakeU32, TakeU64;
  }

  lemma LayoutInverse(h: Header, tail: Bytes)
    requires |h.packs| <= MAX_PACKS
    ensures TakeLayout(PutLayout(h, tail)) == Some(((h.priority, h.packs), tail))
  {
    hide PutU32, PutLength, PutU64, TakeU32, TakeU64;
    FieldsInverse();
    PackCodec();
    PutAllLength(PutPack, PACK_RECORD_BYTES, h.packs, tail);
    BudgetByBytes(|h.packs|, PACK_RECORD_BYTES, PutAll(PutPack, h.packs, tail));
    TakeAllComplete(PutPack, TakePack, (p: PackRef) => true, h.packs, tail);
  }

  lemma LayoutSound(b: Bytes, h: Header)
    requires TakeLayout(b).Some? && TakeLayout(b).value.0 == (h.priority, h.packs)
    ensures |h.packs| <= MAX_PACKS && b == PutLayout(h, TakeLayout(b).value.1)
  {
    hide PutU32, PutLength, PutU64, TakeU32, TakeU64;
    var (packIndex, b1) := TakeU32(b).value;
    var (packOffset, b2) := TakeU64(b1).value;
    var (packCount, b3) := TakeU32(b2).value;
    PackCodec();
    TakeAllSound(PutPack, TakePack, (p: PackRef) => true, packCount, b3);
  }

  lemma HeaderComplete(c: Counted, tail: Bytes)
    requires HeaderFits(c)
    ensures TakeHeader(PutHeader(c, tail)) == Some((c, tail))
  {
    hide PutIdentity, PutTotals, PutLayout, TakeIdentity, TakeTotals, TakeLayout;
    var layout := PutLayout(c.header, tail);
    IdentityInverse(c.header, PutTotals(c, layout));
    TotalsInverse(c, layout);
    LayoutInverse(c.header, tail);
  }

  lemma HeaderSound(b: Bytes)
    requires TakeHeader(b).Some?
    ensures HeaderFits(TakeHeader(b).value.0)
    ensures b == PutHeader(TakeHeader(b).value.0, TakeHeader(b).value.1)
  {
    hide PutIdentity, PutTotals, PutLayout, TakeIdentity, TakeTotals, TakeLayout;
    var (c, rest) := TakeHeader(b).value;
    var (identity, b1) := TakeIdentity(b).value;
    var (totals, b2) := TakeTotals(b1).value;
    IdentitySound(b, c.header);
    LayoutSound(b2, c.header);
    TotalsSound(b1, c);
    assert b2 == PutLayout(c.header, rest);
    assert b1 == PutTotals(c, b2);
  }

  // ----- chunk arrays -----

  function RowOf(e: Entry): Row {
    Row(e.(chunks := []), |e.chunks|)
  }

  function RowsOf(entries: seq<Entry>): (rows: seq<Row>)
    ensures |rows| == |entries|
    ensures forall i :: 0 <= i < |rows| ==> rows[i] == RowOf(entries[i])
  {
    seq<Row>(|entries|, i requires 0 <= i < |entries| => RowOf(entries[i]))
  }

  function CountOf(row: Row): nat {
    row.chunkCount
  }

  /** The chunk references of all entries, back to back in entry order. */
  function PutChunkArrays(entries: seq<Entry>, tail: Bytes): Bytes {
    if entries == [] then tail
    else PutAll(PutChunk, entries[0].chunks, PutChunkArrays(entries[1..], tail))
  }

  /** Each row's chunk count delimits its array. */
  function TakeChunkArrays(rows: seq<Row>, b: Bytes): (r: Option<(seq<Entry>, Bytes)>)
    ensures r.Some? ==> |r.value.0| == |rows|
  {
    if rows == [] then Some(([], b))
    else
      var (chunks, more) :- TakeAll(TakeChunk, rows[0].chunkCount, b);
      var (others, rest) :- TakeChunkArrays(rows[1..], more);
      Some(([rows[0].entry.(chunks := chunks)] + others, rest))
  }

  predicate ChunksFit(e: Entry) {
    forall c :: c in e.chunks ==> ChunkFits(c)
  }

  lemma {:induction false} ChunkArraysComplete(entries: seq<Entry>, tail: Bytes)
    requires forall e :: e in entries ==> ChunksFit(e)
    ensures TakeChunkArrays(RowsOf(entries), PutChunkArrays(entries, tail)) == Some((entries, tail))
    decreases |entries|
  {
    hide PutChunk, TakeChunk;
    if entries != [] {
      ChunkCodec();
      assert ChunksFit(entries[0]);
      var more := PutChunkArrays(entries[1..], tail);
      TakeAllComplete(PutChunk, TakeChunk, ChunkFits, entries[0].chunks, more);
      ChunkArraysComplete(entries[1..], tail);
      assert RowsOf(entries)[1..] == RowsOf(entries[1..]);
      assert entries == [entries[0]] + entries[1..];
    }
  }

  lemma {:induction false} ChunkArraysSound(rows: seq<Row>, b: Bytes)
    requires forall row :: row in rows ==> row.entry.chunks == []
    requires TakeChunkArrays(rows, b).Some?
    ensures var (entries, rest) := TakeChunkArrays(rows, b).value;
            && RowsOf(entries) == rows
            && b == PutChunkArrays(entries, rest)
            && forall e :: e in entries ==> ChunksFit(e)
    decreases |rows|
  {
    hide PutChunk, TakeChunk;
    if rows != [] {
      ChunkCodec();
      TakeAllSound(PutChunk, TakeChunk, ChunkFits, rows[0].chunkCount, b);
      var (chunks, more) := TakeAll(TakeChunk, rows[0].chunkCount, b).value;
      ChunkArraysSound(rows[1..], more);
      var (others, rest) := TakeChunkArrays(rows[1..], more).value;
      var entries := TakeChunkArrays(rows, b).value.0;
      assert entries[0] == rows[0].entry.(chunks := chunks) && entries[1..] == others;
      assert RowOf(entries[0]) == rows[0];
      assert rows == [rows[0]] + rows[1..];
      assert RowsOf(entries) == [RowOf(entries[0])] + RowsOf(others);
    }
  }

  lemma {:induction false} ChunkArraysLength(entries: seq<Entry>, tail: Bytes)
    ensures |PutChunkArrays(entries, tail)| >= |tail| + ChunkCount(entries) * CHUNK_FIXED_BYTES
    decreases |entries|
  {
    hide PutChunk;
    if entries != [] {
      ChunkCodec();
      var more := PutChunkArrays(entries[1..], tail);
      PutAllLength(PutChunk, CHUNK_FIXED_BYTES, entries[0].chunks, more);
      ChunkArraysLength(entries[1..], tail);
      TotalFront(ChunksOf, entries);
    }
  }

  lemma {:induction false} RowTotal(entries: seq<Entry>)
    ensures Total(CountOf, RowsOf(entries)) == ChunkCount(entries)
    decreases |entries|
  {
    if entries != [] {
      var front := entries[..|entries| - 1];
      RowTotal(front);
      assert RowsOf(entries)[..|entries| - 1] == RowsOf(front);
    }
  }

  // ----- the body -----

  function PutTables(m: Manifest): Bytes {
    PutAll(PutRow, RowsOf(m.entries), PutAll(PutFrame, m.frames, PutChunkArrays(m.entries, [])))
  }

  function CountedOf(m: Manifest): Counted {
    Counted(m.header, |m.entries|, |m.frames|, ChunkCount(m.entries))
  }

  /** The manifest body: header, entry table, frame table, chunk arrays. */
  function PutManifest(m: Manifest): Bytes {
    PutHeader(CountedOf(m), PutTables(m))
  }

  /** The tables after the header, each count checked against what is left
      before it is used. */
  function TakeTables(c: Counted, b: Bytes): Option<Manifest> {
    if !Budget(c.entries, ENTRY_FIXED_BYTES, MAX_ENTRIES, b) then None
    else
      var (rows, b1) :- TakeAll(TakeRow, c.entries, b);
      if Total(CountOf, rows) != c.chunks then None
      else if !Budget(c.frames, FRAME_RECORD_BYTES, MAX_FRAMES, b1) then None
      else
        var (frames, b2) :- TakeAll(TakeFrame, c.frames, b1);
        if !Budget(c.chunks, CHUNK_FIXED_BYTES, MAX_CHUNKS, b2) then None
        else
          var (entries, b3) :- TakeChunkArrays(rows, b2);
          if b3 != [] then None else Some(Manifest(c.header, entries, frames))
  }

  function TakeManifest(b: Bytes): Option<Manifest> {
    var (c, rest) :- TakeHeader(b);
    TakeTables(c, rest)
  }

  predicate TablesFit(m: Manifest) {
    && |m.entries| <= MAX_ENTRIES && |m.frames| <= MAX_FRAMES && ChunkCount(m.entries) <= MAX_CHUNKS
    && (forall e :: e in m.entries ==> ChunksFit(e) && RowFits(RowOf(e)))
  }

  lemma TablesComplete(m: Manifest)
    requires TablesFit(m)
    ensures TakeTables(CountedOf(m), PutTables(m)) == Some(m)
  {
    hide PutRow, TakeRow, PutFrame, TakeFrame, PutChunkArrays, TakeChunkArrays, Total;
    var arrays := PutChunkArrays(m.entries, []);
    var frames := PutAll(PutFrame, m.frames, arrays);
    var rows := RowsOf(m.entries);
    RowCodec();
    FrameCodec();
    PutAllLength(PutRow, ENTRY_FIXED_BYTES, rows, frames);
    PutAllLength(PutFrame, FRAME_RECORD_BYTES, m.frames, arrays);
    ChunkArraysLength(m.entries, []);
    BudgetByBytes(|rows|, ENTRY_FIXED_BYTES, PutAll(PutRow, rows, frames));
    BudgetByBytes(|m.frames|, FRAME_RECORD_BYTES, frames);
    BudgetByBytes(ChunkCount(m.entries), CHUNK_FIXED_BYTES, arrays);
    TakeAllComplete(PutRow, TakeRow, RowFits, rows, frames);
    TakeAllComplete(PutFrame, TakeFrame, (f: Frame) => true, m.frames, arrays);
    RowTotal(m.entries);
    ChunkArraysComplete(m.entries, []);
  }

  lemma TablesSound(c: Counted, b: Bytes)
    requires TakeTables(c, b).Some?
    ensures var m := TakeTables(c, b).value; c == CountedOf(m) && b == PutTables(m) && TablesFit(m)
  {
    hide PutRow, TakeRow, PutFrame, TakeFrame, PutChunkArrays, TakeChunkArrays, Total;
    RowCodec();
    FrameCodec();
    var (rows, b1) := TakeAll(TakeRow, c.entries, b).value;
    TakeAllSound(PutRow, TakeRow, RowFits, c.entries, b);
    var (frames, b2) := TakeAll(TakeFrame, c.frames, b1).value;
    TakeAllSound(PutFrame, TakeFrame, (f: Frame) => true, c.frames, b1);
    ChunkArraysSound(rows, b2);
    var entries := TakeChunkArrays(rows, b2).value.0;
    RowTotal(entries);
    forall e | e in entries
      ensures RowFits(RowOf(e))
    {
      var i :| 0 <= i < |entries| && entries[i] == e;
      assert rows[i] == RowOf(e);
    }
  }

  ghost predicate Fits(m: Manifest) {
    HeaderFits(CountedOf(m)) && TablesFit(m)
  }

  lemma ManifestComplete(m: Manifest)
    requires Fits(m)
    ensures TakeManifest(PutManifest(m)) == Some(m)
  {
    hide PutHeader, TakeHeader, PutTables, TakeTables;
    HeaderComplete(CountedOf(m), PutTables(m));
    TablesComplete(m);
  }

  lemma ManifestSound(b: Bytes)
    requires TakeManifest(b).Some?
    ensures b == PutManifest(TakeManifest(b).value) && Fits(TakeManifest(b).value)
  {
    hide PutHeader, TakeHeader, PutTables, TakeTables;
    HeaderSound(b);
    var (c, rest) := TakeHeader(b).value;
    TablesSound(c, rest);
  }

  // ----- the sealed object -----

  const MAGIC: Bytes := [80, 70, 83, 77, 65, 78, 49, 10]

  /** The body followed by its digest and the format magic. */
  function Seal(body: Bytes): (d: Bytes)
    ensures |d| == |body| + FOOTER_BYTES
  {
    body + Sha256(body) + MAGIC
  }

  /** The body of a sealed object, once its magic and digest are verified. */
  function Unseal(d: Bytes): Option<Bytes> {
    if |d| > MAX_MANIFEST_BYTES || |d| < HEADER_FIXED_BYTES + FOOTER_BYTES then None
    else
      var body, footer := d[..|d| - FOOTER_BYTES], d[|d| - FOOTER_BYTES..];
      if footer[32..] != MAGIC then None
      else if footer[..32] != Sha256(body) then None
      else Some(body)
  }

  /** An object unseals to a body exactly when it is that body sealed, in bounds. */
  lemma UnsealInverse(d: Bytes, body: Bytes)
    ensures Unseal(d) == Some(body) <==>
            d == Seal(body) && |d| <= MAX_MANIFEST_BYTES && |body| >= HEADER_FIXED_BYTES
  {
    if |d| >= HEADER_FIXED_BYTES + FOOTER_BYTES {
      var cut := |d| - FOOTER_BYTES;
      assert d == d[..cut] + d[cut..][..32] + d[cut..][32..];
    }
    SealParts(body);
  }

  lemma SealParts(body: Bytes)
    ensures var d := Seal(body); d[..|body|] == body && d[|body|..][..32] == Sha256(body) && d[|body|..][32..] == MAGIC
  {
  }

  lemma PutManifestLength(m: Manifest)
    ensures |PutManifest(m)| >= HEADER_FIXED_BYTES
  {
    hide PutTables;
    PackCodec();
    PutAllLength(PutPack, PACK_RECORD_BYTES, m.header.packs, PutTables(m));
    hide PutIdentity, PutTotals, PutPack, PutAll;
  }

  /** What Encode returns: the sealed body of a valid manifest within the size bound. */
  ghost function EncodeSpec(m: Manifest): Option<Bytes> {
    if ValidManifest(m) && |Seal(PutManifest(m))| <= MAX_MANIFEST_BYTES then Some(Seal(PutManifest(m))) else None
  }

  /** What Decode returns: the valid manifest a sealed body parses to. */
  ghost function DecodeSpec(d: Bytes): Option<Manifest> {
    var body :- Unseal(d);
    var m :- TakeManifest(body);
    if ValidManifest(m) then Some(m) else None
  }

  /** Validity bounds every field the wire format bounds. */
  lemma ValidFits(m: Manifest)
    requires ValidManifest(m)
    ensures Fits(m)
  {
    forall e | e in m.entries
      ensures ChunksFit(e) && RowFits(RowOf(e))
    {
      hide ChunksFit, RowFits, EntryValid, Tiling, Total;
      var i :| 0 <= i < |m.entries| && m.entries[i] == e;
      assert EntryValid(m.entries, i, m.frames, m.header.chunkSizeBytes);
      TotalStep(ChunksOf, m.entries, i);
      EntryFits(m, i);
    }
  }

  lemma EntryFits(m: Manifest, i: nat)
    requires m.header.chunkSizeBytes > 0 && i < |m.entries|
    requires EntryValid(m.entries, i, m.frames, m.header.chunkSizeBytes)
    requires |m.entries[i].chunks| < TWO_32
    ensures ChunksFit(m.entries[i]) && RowFits(RowOf(m.entries[i]))
  {
    var e := m.entries[i];
    forall c | c in e.chunks
      ensures ChunkFits(c)
    {
      var k :| 0 <= k < |e.chunks| && e.chunks[k] == c;
      assert ChunkAtValid(e, k, m.frames, m.header.chunkSizeBytes);
    }
    forall x | x in e.xattrs
      ensures XattrFits(x)
    {
      var k :| 0 <= k < |e.xattrs| && e.xattrs[k] == x;
      assert XattrValid(e.xattrs[k]);
    }
  }

  /** Decoding accepts an object as a manifest exactly when encoding that manifest
      gives the object: every accepted byte string is canonical, and every
      encoding is accepted. */
  lemma CodecBijection(m: Manifest, d: Bytes)
    ensures DecodeSpec(d) == Some(m) <==> EncodeSpec(m) == Some(d)
  {
    hide PutManifest, TakeManifest, ValidManifest, Seal, Unseal, Fits;
    if DecodeSpec(d) == Some(m) {
      var body := Unseal(d).value;
      UnsealInverse(d, body);
      ManifestSound(body);
    }
    if EncodeSpec(m) == Some(d) {
      ValidFits(m);
      ManifestComplete(m);
      PutManifestLength(m);
      UnsealInverse(d, PutManifest(m));
    }
  }
}
