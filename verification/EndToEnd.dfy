/**
What a successful build promises a reader: its files come back byte for byte
from the packs it wrote, and from any other bytes only an error, the same bytes
or a digest collision can come back.
 */
module EndToEnd {
  import opened Basics
  import opened Extents
  import opened Content
  import opened Manifest
  import opened Valid
  import opened Source
  import opened Packing
  import opened Table
  import opened Landmark
  import opened Config
  import opened Sealing
  import opened PackReader
  import Xxh64

  /** The bytes a reader of entry i must see: those of its inode. */
  function ContentOf(sources: seq<SourceEntry>, i: nat): Bytes
    requires i < |sources|
    requires sources[Owner(sources, i)].HasContent() ==> sources[Owner(sources, i)].file.Some?
  {
    var owner := sources[Owner(sources, i)];
    if owner.HasContent() then LogicalContent(owner) else []
  }

  /** A source that serves the packs as they were written. */
  ghost predicate Serves(source: PackSource, packs: seq<Bytes>) {
    forall when: nat, p: nat, offset: nat, length: nat ::
      p < |packs| && offset + length <= |packs[p]| ==>
        source(when, p, offset, length) == Some(packs[p][offset..offset + length])
  }

  /** The bytes read and accepted for chunk k of entry i are not the source's own,
      yet have their digest. */
  ghost predicate Collides(run: Run, m: Manifest, source: PackSource, i: nat, owner: nat, k: nat)
    requires i < |m.entries|
  {
    && k < |m.entries[i].chunks| && PieceOk(run, Piece(owner, k))
    && ReadChunk(source, k, m.frames, m.entries[i].chunks[k]).Ok?
    && ReadChunk(source, k, m.frames, m.entries[i].chunks[k]).value != SliceOf(run, Piece(owner, k))
    && Sha256(ReadChunk(source, k, m.frames, m.entries[i].chunks[k]).value) == Sha256(SliceOf(run, Piece(owner, k)))
  }

  // ----- frames -----

  lemma HonestFrame(run: Run, v: Packing, source: PackSource, when: nat, f: nat)
    requires Inv(run, v) && !v.packOpen && ZstdRoundTrips() && Serves(source, v.written) && f < |v.frames|
    ensures f < |v.contents| && ReadFrame(source, when, v.frames, f) == Ok(v.contents[f])
  {
    hide Recorded, Filled, Tiled, Indexed, Assembled, Deduplicated, Xxh64.Lo32, ZstdRoundTrips, EncodedAs;
    assert v.Packs() == v.written;
    assert Holds(v.frames[f], v.contents[f], v.Packs(), run);
    var frame := v.frames[f];
    assert source(when, frame.packIndex, frame.packOffset, frame.compressedLength) ==
           Some(v.written[frame.packIndex][frame.packOffset..frame.End()]);
  }

  /** Reading a reference from honest packs yields a slice of the run with the
      digest of the chunk's own bytes. */
  lemma HonestChunk(run: Run, v: Packing, source: PackSource, when: nat, p: Piece, ref: ChunkRef)
    requires Inv(run, v) && !v.packOpen && v.pending == [] && ZstdRoundTrips() && Serves(source, v.written)
    requires PieceOk(run, p) && RefersTo(run, v, p, ref)
    ensures ReadChunk(source, when, v.frames, ref).Ok?
    ensures CollisionFree(run) ==> ReadChunk(source, when, v.frames, ref) == Ok(SliceOf(run, p))
  {
    hide Inv, PieceOk, SliceOf, ChunkExtents, ZstdRoundTrips, Serves, ReadFrame;
    if ref.length != 0 {
      RefBehind(run, v, p, ref);
      var q :| Located(run, v.Full(), ref.sliceDigest, Location(ref.frameIndex, ref.innerOffset, ref.length), q);
      SealedCounts(run, v);
      HonestFrame(run, v, source, when, ref.frameIndex);
      var content := v.contents[ref.frameIndex];
      assert v.Full()[ref.frameIndex] == content;
      assert SliceFrame(content, ref) == Ok(SliceOf(run, q));
    }
  }

  lemma SealedCounts(run: Run, v: Packing)
    requires Inv(run, v)
    ensures |v.contents| == |v.frames| && forall f :: 0 <= f < |v.contents| ==> |v.contents[f]| < TWO_32
  {
    hide Recorded, Filled, Tiled, Indexed, Assembled, Deduplicated;
    forall f | 0 <= f < |v.contents|
      ensures |v.contents[f]| < TWO_32
    {
      assert Holds(v.frames[f], v.contents[f], v.Packs(), run);
    }
  }

  // ----- files -----

  /** Every chunk of entry i read back as the source's own bytes. */
  ghost predicate ChunksMatch(run: Run, m: Manifest, source: PackSource, i: nat, owner: nat)
    requires i < |m.entries|
  {
    forall k :: 0 <= k < |m.entries[i].chunks| ==>
      PieceOk(run, Piece(owner, k)) &&
      ReadChunk(source, k, m.frames, m.entries[i].chunks[k]) == Ok(SliceOf(run, Piece(owner, k)))
  }

  /** A file whose chunks all match is the source's logical content. */
  lemma MatchedFile(run: Run, v: Packing, m: Manifest, source: PackSource, i: nat, owner: nat, file: Bytes)
    requires 0 < run.chunkSize == m.header.chunkSizeBytes && i < |m.entries| && owner < |run.sources|
    requires m.entries[i].size == run.sources[owner].size
    requires Refs(run, v, owner, m.entries[i].chunks) && run.sources[owner].file.Some?
    requires FileRead(m, source, i, file) && ChunksMatch(run, m, source, i, owner)
    ensures file == LogicalContent(run.sources[owner])
  {
    hide SpanRead, Refs, ReadChunk, LogicalContent, ChunksNeeded, PieceOk, SliceOf, ChunkAgrees;
    var s := run.sources[owner];
    forall k | 0 <= k < ChunksNeeded(s.size, run.chunkSize)
      ensures ChunkAgrees(s, run.chunkSize, k, file)
    {
      MatchedSpan(run, v, m, source, i, owner, file, k);
    }
    ChunksMakeFile(s, run.chunkSize, file);
  }

  lemma MatchedSpan(run: Run, v: Packing, m: Manifest, source: PackSource, i: nat, owner: nat, file: Bytes, k: nat)
    requires 0 < run.chunkSize == m.header.chunkSizeBytes && i < |m.entries| && owner < |run.sources|
    requires m.entries[i].size == run.sources[owner].size == |file|
    requires k < |m.entries[i].chunks| == ChunksNeeded(m.entries[i].size, run.chunkSize)
    requires Refs(run, v, owner, m.entries[i].chunks) && run.sources[owner].file.Some?
    requires SpanRead(m, source, i, k, file) && PieceOk(run, Piece(owner, k))
    requires ReadChunk(source, k, m.frames, m.entries[i].chunks[k]) == Ok(SliceOf(run, Piece(owner, k)))
    ensures ChunkAgrees(run.sources[owner], run.chunkSize, k, file)
  {
    hide ReadChunk, ChunksNeeded, ChunkExtents, ChunkBytes, LogicalContent, Expanded, Refs, ChunkLegible;
    hide ChunkStart, ChunkStop, SpanStart, SpanOf, ChunkSpan, SliceOf, PieceOk;
    var s := run.sources[owner];
    RefExtents(run, v, owner, m.entries[i].chunks, k);
    SpanPlace(run, m, i, owner, k);
    var lo, hi := ChunkStart(s, run.chunkSize, k), ChunkStop(s, run.chunkSize, k);
    ChunkExpands(s, run.chunkSize, k, file[lo..hi]);
  }

  lemma RefExtents(run: Run, v: Packing, owner: nat, refs: seq<ChunkRef>, k: nat)
    requires Refs(run, v, owner, refs) && k < |refs|
    ensures PieceOk(run, Piece(owner, k)) && ChunkLegible(run.sources[owner], run.chunkSize, k)
    ensures SliceOf(run, Piece(owner, k)) == ChunkBytes(run.sources[owner], run.chunkSize, k)
    ensures refs[k].extents == ChunkExtents(run.sources[owner], run.chunkSize, k)
  {
    assert PieceOk(run, Piece(owner, k)) && RefersTo(run, v, Piece(owner, k), refs[k]);
    hide Refs, ChunkLegible, ChunkBytes, ChunkExtents, ChunksNeeded;
  }

  lemma SpanPlace(run: Run, m: Manifest, i: nat, owner: nat, k: nat)
    requires 0 < run.chunkSize == m.header.chunkSizeBytes && i < |m.entries| && owner < |run.sources|
    requires m.entries[i].size == run.sources[owner].size
    requires k < ChunksNeeded(m.entries[i].size, run.chunkSize)
    ensures SpanStart(m, k) == ChunkStart(run.sources[owner], run.chunkSize, k)
    ensures SpanOf(m, i, k) == ChunkStop(run.sources[owner], run.chunkSize, k) - ChunkStart(run.sources[owner], run.chunkSize, k)
    ensures SpanOf(m, i, k) == ChunkSpan(run.sources[owner].size, run.chunkSize, k)
  {
  }

  // ----- the whole build -----

  lemma BuiltEntry(config: Config, sources: seq<SourceEntry>, m: Manifest, packs: seq<Bytes>, o: Outcome, i: nat)
    requires Built(config, sources, m, packs, o) && i < |sources|
    ensures |m.entries| == |sources| <= MAX_ENTRIES && m.frames == o.v.frames && packs == o.v.written
    ensures 0 < config.chunkSizeBytes == m.header.chunkSizeBytes
    ensures EntrySealed(RunOf(config, sources), o.v, m.entries[i], i)
    ensures sources[Owner(sources, i)].HasContent() ==> sources[Owner(sources, i)].file.Some?
    ensures m.entries[i].kind == TYPE_REGULAR ==> m.entries[i].size == sources[Owner(sources, i)].size &&
                                                  sources[Owner(sources, i)].kind == TYPE_REGULAR
  {
    hide Finished, EntrySealed, ConfigValid, Owner;
    FinishedEntry(config, sources, o, i);
    FinishedTable(config, sources, o);
    RegularOwner(sources, o.entries, i);
    OwnerHasFile(sources, i);
  }

  lemma OwnerHasFile(sources: seq<SourceEntry>, i: nat)
    requires Collectable(sources) && i < |sources|
    ensures sources[Owner(sources, i)].HasContent() ==> sources[Owner(sources, i)].file.Some?
  {
    hide XattrsValid, CanonicalXattrs;
    assert Arrives(sources[Owner(sources, i)], Owner(sources, i));
  }

  lemma RegularOwner(sources: seq<SourceEntry>, entries: seq<Entry>, i: nat)
    requires Linked(sources, entries) && SameNames(sources, entries) && LinksClosed(sources) && i < |sources|
    ensures entries[i].kind == TYPE_REGULAR ==> entries[i].size == sources[Owner(sources, i)].size &&
                                                sources[Owner(sources, i)].kind == TYPE_REGULAR
  {
    if sources[i].kind == TYPE_REGULAR {
      assert LinkClosed(sources, i);
      GroupShape(sources, i);
    }
  }

  lemma BuiltStorage(config: Config, sources: seq<SourceEntry>, m: Manifest, packs: seq<Bytes>, o: Outcome)
    requires Built(config, sources, m, packs, o)
    ensures Inv(RunOf(config, sources), o.v) && !o.v.packOpen && o.v.pending == []
  {
    hide Inv, ConfigValid;
  }

  lemma HonestEntry(run: Run, v: Packing, m: Manifest, source: PackSource, i: nat, owner: nat)
    requires Inv(run, v) && !v.packOpen && v.pending == [] && ZstdRoundTrips() && Serves(source, v.written)
    requires i < |m.entries| && m.frames == v.frames && Refs(run, v, owner, m.entries[i].chunks)
    ensures AllChunksRead(m, source, i)
    ensures CollisionFree(run) ==> ChunksMatch(run, m, source, i, owner)
  {
    hide Inv, ZstdRoundTrips, Serves, PieceOk, RefersTo, SliceOf, ReadChunk, CollisionFree, ChunksNeeded;
    forall k | 0 <= k < |m.entries[i].chunks|
      ensures ReadChunk(source, k, m.frames, m.entries[i].chunks[k]).Ok?
      ensures PieceOk(run, Piece(owner, k))
      ensures CollisionFree(run) ==>
                ReadChunk(source, k, m.frames, m.entries[i].chunks[k]) == Ok(SliceOf(run, Piece(owner, k)))
    {
      HonestChunk(run, v, source, k, Piece(owner, k), m.entries[i].chunks[k]);
    }
  }

  /** Served the packs it wrote, every regular file of a build reads back, whatever
      its links, duplicates and holes: ReadFile cannot fail on it. */
  lemma ReadsBack(config: Config, sources: seq<SourceEntry>, m: Manifest, packs: seq<Bytes>, o: Outcome,
                  source: PackSource, i: nat)
    requires Built(config, sources, m, packs, o) && ZstdRoundTrips() && Serves(source, packs)
    requires i < |sources| && i < |m.entries| && m.entries[i].kind == TYPE_REGULAR
    ensures AllChunksRead(m, source, i)
  {
    hide Built, ZstdRoundTrips, Serves, Owner, Inv, Refs, Legible, LogicalContent, AllChunksRead;
    BuiltEntry(config, sources, m, packs, o, i);
    BuiltStorage(config, sources, m, packs, o);
    if sources[Owner(sources, i)].HasContent() {
      HonestEntry(RunOf(config, sources), o.v, m, source, i, Owner(sources, i));
    } else {
      NothingToRead(m, source, i);
    }
  }

  lemma NothingToRead(m: Manifest, source: PackSource, i: nat)
    requires i < |m.entries| && m.entries[i].chunks == []
    ensures AllChunksRead(m, source, i)
  {
  }

  /** What ReadFile returns over the written packs is the source's logical content,
      holes as zeros, unless two chunks of the walk collide. */
  lemma ReadsExactly(config: Config, sources: seq<SourceEntry>, m: Manifest, packs: seq<Bytes>, o: Outcome,
                     source: PackSource, i: nat, file: Bytes)
    requires Built(config, sources, m, packs, o) && ZstdRoundTrips() && Serves(source, packs)
    requires CollisionFree(RunOf(config, sources))
    requires i < |sources| && i < |m.entries| && m.entries[i].kind == TYPE_REGULAR && FileRead(m, source, i, file)
    ensures sources[Owner(sources, i)].HasContent() ==> sources[Owner(sources, i)].file.Some?
    ensures file == ContentOf(sources, i)
  {
    hide Built, ZstdRoundTrips, Serves, Owner, Inv, Refs, Legible, LogicalContent, CollisionFree, ChunksMatch;
    var run, owner := RunOf(config, sources), Owner(sources, i);
    BuiltEntry(config, sources, m, packs, o, i);
    BuiltStorage(config, sources, m, packs, o);
    if sources[owner].HasContent() {
      HonestEntry(run, o.v, m, source, i, owner);
      MatchedFile(run, o.v, m, source, i, owner, file);
    }
  }

  /** Over any pack bytes at all, whatever ReadFile returns without an error is the
      source's content, or some chunk it was read from collides with the file's. */
  lemma FailsClosed(config: Config, sources: seq<SourceEntry>, m: Manifest, packs: seq<Bytes>, o: Outcome,
                    source: PackSource, i: nat, file: Bytes)
    requires Built(config, sources, m, packs, o)
    requires i < |sources| && i < |m.entries| && m.entries[i].kind == TYPE_REGULAR && FileRead(m, source, i, file)
    ensures sources[Owner(sources, i)].HasContent() ==> sources[Owner(sources, i)].file.Some?
    ensures file == ContentOf(sources, i) ||
            exists k: nat :: Collides(RunOf(config, sources), m, source, i, Owner(sources, i), k)
  {
    hide Built, Owner, Inv, Refs, Legible, LogicalContent, ChunksMatch, Collides;
    var run, owner := RunOf(config, sources), Owner(sources, i);
    BuiltEntry(config, sources, m, packs, o, i);
    if sources[owner].HasContent() {
      if ChunksMatch(run, m, source, i, owner) {
        MatchedFile(run, o.v, m, source, i, owner, file);
      } else {
        var k := Mismatch(run, o.v, m, source, i, owner, file);
      }
    }
  }

  lemma Mismatch(run: Run, v: Packing, m: Manifest, source: PackSource, i: nat, owner: nat, file: Bytes) returns (k: nat)
    requires i < |m.entries| && Refs(run, v, owner, m.entries[i].chunks) && FileRead(m, source, i, file)
    requires !ChunksMatch(run, m, source, i, owner)
    ensures Collides(run, m, source, i, owner, k)
  {
    hide PieceOk, SliceOf, ChunksNeeded, ChunkExtents;
    k :| 0 <= k < |m.entries[i].chunks| &&
      !(PieceOk(run, Piece(owner, k)) &&
        ReadChunk(source, k, m.frames, m.entries[i].chunks[k]) == Ok(SliceOf(run, Piece(owner, k))));
    var ref := m.entries[i].chunks[k];
    assert RefersTo(run, v, Piece(owner, k), ref);
    assert SpanRead(m, source, i, k, file);
    hide Refs, FileRead, ChunksMatch;
    var stored := ReadChunk(source, k, m.frames, ref).value;
    DigestChecked(source, k, m.frames, ref);
    assert stored != SliceOf(run, Piece(owner, k)) && Sha256(stored) == Sha256(SliceOf(run, Piece(owner, k)));
  }

  lemma DigestChecked(source: PackSource, when: nat, frames: seq<Frame>, ref: ChunkRef)
    requires ReadChunk(source, when, frames, ref).Ok?
    ensures ref.Stored() ==> Sha256(ReadChunk(source, when, frames, ref).value) == ref.sliceDigest
    ensures !ref.Stored() ==> ReadChunk(source, when, frames, ref).value == []
  {
  }
}
