/**
Why a build refuses a walk it could read: a condition on the walk and the
deployment alone, or a format bound on frames or packs that the content fills.
 */
module Refusal {
  import opened Basics
  import opened Extents
  import opened Content
  import opened Manifest
  import opened Valid
  import opened Source
  import opened Order
  import opened Packing
  import opened Table
  import opened Landmark
  import opened Config
  import opened Sealing
  import Sorting

  // ----- the walk -----

  /** Every inode with bytes reports a canonical extent map. */
  predicate MapsCanonical(sources: seq<SourceEntry>) {
    forall i :: 0 <= i < |sources| && Owns(sources, i) && sources[i].file.Some? ==>
                  Canonical(sources[i].file.value.data, sources[i].size)
  }

  predicate ExtentsFit(run: Run, p: Piece)
    requires PieceOk(run, p)
  {
    |ChunkExtents(run.sources[p.owner], run.chunkSize, p.chunk)| <= MAX_EXTENTS_PER_CHUNK
  }

  /** No readable chunk has more extents than the format records. */
  ghost predicate MapsBounded(run: Run) {
    forall p: Piece :: PieceOk(run, p) ==> ExtentsFit(run, p)
  }

  /** The chunk array entry i will have, as far as the walk alone decides it. */
  function OutlineChunks(sources: seq<SourceEntry>, chunkSize: nat, i: nat): (chunks: seq<ChunkRef>)
    requires chunkSize > 0 && i < |sources|
  {
    var s := sources[Owner(sources, i)];
    if !s.HasContent() || s.file.None? then []
    else
      seq<ChunkRef>(ChunksNeeded(s.size, chunkSize),
                    k requires 0 <= k < ChunksNeeded(s.size, chunkSize) =>
                      ChunkRef(NO_FRAME, 0, 0, EmptySliceDigest(), ChunkExtents(s, chunkSize, k)))
  }

  /** The entry table a build of the walk ends with, up to digests and where its
      chunks are stored. */
  function Outline(sources: seq<SourceEntry>, chunkSize: nat): (entries: seq<Entry>)
    requires chunkSize > 0 && |sources| <= MAX_ENTRIES
    ensures |entries| == |sources|
  {
    seq<Entry>(|sources|, i requires 0 <= i < |sources| =>
                 GroupedEntry(sources, i).(chunks := OutlineChunks(sources, chunkSize, i)))
  }

  /** The totals of the tree and its number of chunks are within the format. */
  predicate InBounds(sources: seq<SourceEntry>, chunkSize: nat) {
    && chunkSize > 0 && |sources| <= MAX_ENTRIES
    && TotalsFit(Outline(sources, chunkSize))
    && ChunkCount(Outline(sources, chunkSize)) <= MAX_CHUNKS
  }

  /** A deployment and a walk that fit the format. */
  ghost predicate Acceptable(config: Config, sources: seq<SourceEntry>) {
    && ConfigValid(config)
    && Collectable(sources) && LinksClosed(sources) && WellFormed(sources)
    && MapsCanonical(sources) && MapsBounded(RunOf(config, sources))
    && InBounds(sources, config.chunkSizeBytes)
  }

  // ----- the packs -----

  /** Another frame is due after the last one the format allows. */
  ghost predicate FramesFull(run: Run) {
    exists v: Packing :: Inv(run, v) && v.pending != [] && |v.frames| == MAX_FRAMES
  }

  /** Another pack is due after the last one the format allows. */
  ghost predicate PacksFull(run: Run) {
    exists v: Packing :: Inv(run, v) && v.pending != [] && !v.packOpen && |v.packs| == MAX_PACKS
  }

  /** A file needs more chunks than a whole archive may have. */
  predicate TooLong(run: Run) {
    run.chunkSize > 0 &&
    exists i :: 0 <= i < |run.sources| && Owns(run.sources, i) && ChunksNeeded(run.sources[i].size, run.chunkSize) > MAX_CHUNKS
  }

  /** What may stop the writing of content. */
  ghost predicate Refused(config: Config, sources: seq<SourceEntry>) {
    var run := RunOf(config, sources);
    || !ConfigValid(config) || !MapsCanonical(sources) || !MapsBounded(run)
    || TooLong(run) || FramesFull(run) || PacksFull(run)
  }

  lemma RefusedMap(config: Config, sources: seq<SourceEntry>, owner: nat)
    requires owner < |sources| && Owns(sources, owner) && sources[owner].file.Some?
    requires !Canonical(sources[owner].file.value.data, sources[owner].size)
    ensures Refused(config, sources)
  {
    hide ConfigValid, MapsBounded, TooLong, FramesFull, PacksFull, Owns, Canonical;
  }

  lemma RefusedPiece(config: Config, sources: seq<SourceEntry>, p: Piece)
    requires PieceOk(RunOf(config, sources), p)
    requires |ChunkExtents(sources[p.owner], config.chunkSizeBytes, p.chunk)| > MAX_EXTENTS_PER_CHUNK
    ensures Refused(config, sources)
  {
    hide ConfigValid, MapsCanonical, TooLong, FramesFull, PacksFull, PieceOk, ChunkExtents;
    assert !ExtentsFit(RunOf(config, sources), p);
  }

  lemma RefusedFrames(config: Config, sources: seq<SourceEntry>, v: Packing)
    requires Inv(RunOf(config, sources), v) && v.pending != [] && |v.frames| >= MAX_FRAMES
    ensures Refused(config, sources)
  {
    hide ConfigValid, MapsCanonical, MapsBounded, TooLong, PacksFull;
    hide Recorded, Framed, Filled, Tiled, Indexed, Assembled, Deduplicated;
    assert FramesFull(RunOf(config, sources));
  }

  lemma RefusedPacks(config: Config, sources: seq<SourceEntry>, v: Packing)
    requires Inv(RunOf(config, sources), v) && v.pending != [] && !v.packOpen && |v.packs| >= MAX_PACKS
    ensures Refused(config, sources)
  {
    hide ConfigValid, MapsCanonical, MapsBounded, TooLong, FramesFull;
    hide Recorded, Framed, Filled, Tiled, Indexed, Assembled, Deduplicated;
    assert PacksFull(RunOf(config, sources));
  }

  lemma RefusedLong(config: Config, sources: seq<SourceEntry>, owner: nat)
    requires owner < |sources| && Owns(sources, owner) && config.chunkSizeBytes > 0
    requires ChunksNeeded(sources[owner].size, config.chunkSizeBytes) > MAX_CHUNKS
    ensures Refused(config, sources)
  {
    hide ConfigValid, MapsCanonical, MapsBounded, FramesFull, PacksFull, Owns, ChunksNeeded;
    assert TooLong(RunOf(config, sources));
  }

  // ----- the quota -----

  lemma {:induction false} SmallTotal(units: seq<ContentUnit>, limit: nat)
    requires forall i :: 0 <= i < |units| ==> units[i].size <= limit
    ensures Total(UnitSize, units) <= |units| * limit
    decreases |units|
  {
    if units != [] {
      SmallTotal(units[..|units| - 1], limit);
      assert |units| * limit == (|units| - 1) * limit + limit;
    }
  }

  lemma {:induction false} UnitsFew(sources: seq<SourceEntry>, n: nat)
    requires n <= |sources|
    ensures |UnitsBefore(sources, n)| <= n
    decreases n
  {
    hide Owns;
    if n > 0 {
      UnitsFew(sources, n - 1);
    }
  }

  lemma SmallFew(sources: seq<SourceEntry>, chunkSize: nat)
    ensures |SmallOrder(sources, chunkSize)| <= |sources|
  {
    var units := Units(sources);
    UnitsFew(sources, |sources|);
    Sorting.SortPermutes(MoreRecent, UnitsBefore(sources, |sources|));
    assert |multiset(units)| == |multiset(UnitsBefore(sources, |sources|))|;
    hide Units, SmallOf, LargeOf, ByLocality;
    ClassesSplit(units, chunkSize);
    var small := SmallOf(units, chunkSize);
    assert |multiset(small)| <= |multiset(small) + multiset(LargeOf(units, chunkSize))|;
    SmallOwned(sources, chunkSize);
    LocalityPermutes(sources, small);
    assert |multiset(ByLocality(sources, small))| == |multiset(small)|;
  }

  /** The bytes of the small files never overflow the quota's counter. */
  lemma QuotaNeverWraps(sources: seq<SourceEntry>, chunkSize: nat)
    requires |sources| <= MAX_ENTRIES && chunkSize <= MAX_CHUNK_SIZE
    ensures Total(UnitSize, SmallOrder(sources, chunkSize)) < TWO_64
  {
    var small := SmallOrder(sources, chunkSize);
    OrderOnce(sources, chunkSize);
    SmallFew(sources, chunkSize);
    hide SmallOrder, OnceEach, Total;
    SmallTotal(small, chunkSize);
    MulMonotone(|small|, MAX_ENTRIES, chunkSize);
  }

  // ----- totals do not depend on where chunks are stored -----

  lemma {:induction false} TotalSame<T, U>(f: T -> nat, s: seq<T>, g: U -> nat, t: seq<U>)
    requires |s| == |t| && forall i :: 0 <= i < |s| ==> f(s[i]) == g(t[i])
    ensures Total(f, s) == Total(g, t)
    decreases |s|
  {
    if s != [] {
      TotalSame(f, s[..|s| - 1], g, t[..|t| - 1]);
    }
  }

  lemma {:induction false} TotalAtLeast<T>(f: T -> nat, s: seq<T>, i: nat)
    requires i < |s|
    ensures f(s[i]) <= Total(f, s)
  {
    TotalStep(f, s, i);
  }

  predicate SameExtents(a: seq<ChunkRef>, b: seq<ChunkRef>) {
    |a| == |b| && forall k :: 0 <= k < |a| ==> a[k].extents == b[k].extents
  }

  predicate SameTotal(a: Entry, b: Entry) {
    && a.hardlinkGroup == b.hardlinkGroup && a.kind == b.kind && a.size == b.size
    && SameExtents(a.chunks, b.chunks)
  }

  /** Two tables that agree on everything the totals are made of. */
  predicate SameTotals(a: seq<Entry>, b: seq<Entry>) {
    && |a| == |b|
    && forall i :: 0 <= i < |a| ==> SameTotal(a[i], b[i])
  }

  lemma {:induction false} LogicalSame(a: seq<Entry>, b: seq<Entry>)
    requires SameTotals(a, b)
    ensures LogicalBytes(a) == LogicalBytes(b)
    decreases |a|
  {
    hide SameExtents;
    if a != [] {
      LogicalSame(a[..|a| - 1], b[..|b| - 1]);
      assert FirstLink(a, |a| - 1) <==> FirstLink(b, |b| - 1);
    }
  }

  lemma BlocksSame(a: Entry, b: Entry)
    requires SameExtents(a.chunks, b.chunks)
    ensures EntryBlocks(a) == EntryBlocks(b)
  {
    hide Total;
    TotalSame(ChunkBlocks, a.chunks, ChunkBlocks, b.chunks);
  }

  lemma TotalsSame(a: seq<Entry>, b: seq<Entry>)
    requires SameTotals(a, b)
    ensures TotalsFit(a) <==> TotalsFit(b)
    ensures ChunkCount(a) == ChunkCount(b)
  {
    hide Total, EntryBlocks, LogicalBytes;
    LogicalSame(a, b);
    forall i | 0 <= i < |a|
      ensures EntryBlocks(a[i]) == EntryBlocks(b[i])
    {
      BlocksSame(a[i], b[i]);
    }
    TotalSame(EntryBlocks, a, EntryBlocks, b);
    TotalSame(ChunksOf, a, ChunksOf, b);
  }

  lemma OutlineEntry(run: Run, v: Packing, e: Entry, i: nat)
    requires 0 < run.chunkSize && i < |run.sources| <= MAX_ENTRIES && EntrySealed(run, v, e, i)
    ensures SameTotal(e, Outline(run.sources, run.chunkSize)[i])
  {
    hide Owner, GroupNumber, LogicalContent, ChunkExtents, ChunksNeeded, CanonicalXattrs, SliceOf, Located;
    var owner := Owner(run.sources, i);
    if run.sources[owner].HasContent() {
      assert Refs(run, v, owner, e.chunks);
    }
  }

  lemma TableSize(config: Config, sources: seq<SourceEntry>, o: Outcome)
    requires Finished(config, sources, o)
    ensures |o.entries| == |sources| <= MAX_ENTRIES && 0 < config.chunkSizeBytes
  {
    hide Finished, LinksClosed, Arrives, CanonicalXattrs, Linked, SameNames;
    FinishedTable(config, sources, o);
  }

  /** What a finished build totals up is what the walk says. */
  lemma OutlineAgrees(config: Config, sources: seq<SourceEntry>, o: Outcome)
    requires Finished(config, sources, o)
    ensures |sources| <= MAX_ENTRIES && 0 < config.chunkSizeBytes
    ensures InBounds(sources, config.chunkSizeBytes) <==> TotalsFit(o.entries) && ChunkCount(o.entries) <= MAX_CHUNKS
  {
    hide Finished, EntrySealed, Outline, TotalsFit, ChunkCount, SameTotal;
    TableSize(config, sources, o);
    forall i | 0 <= i < |sources|
      ensures SameTotal(o.entries[i], Outline(sources, config.chunkSizeBytes)[i])
    {
      FinishedEntry(config, sources, o, i);
      OutlineEntry(RunOf(config, sources), o.v, o.entries[i], i);
    }
    TotalsSame(o.entries, Outline(sources, config.chunkSizeBytes));
  }

  /** A file of too many chunks is a walk of too many chunks. */
  lemma LongOutOfBounds(config: Config, sources: seq<SourceEntry>)
    requires TooLong(RunOf(config, sources)) && Collectable(sources)
    ensures !InBounds(sources, config.chunkSizeBytes)
  {
    var run := RunOf(config, sources);
    var i :| 0 <= i < |sources| && Owns(sources, i) && ChunksNeeded(sources[i].size, run.chunkSize) > MAX_CHUNKS;
    assert Arrives(sources[i], i);
    hide Collectable, Arrives, TotalsFit, ChunksNeeded, GroupNumber, Total;
    var outline := Outline(sources, run.chunkSize);
    assert |outline[i].chunks| > MAX_CHUNKS;
    TotalAtLeast(ChunksOf, outline, i);
  }

  // ----- what a finished build shows -----

  /** A build that finished met only canonical and bounded maps. */
  lemma FinishedMaps(config: Config, sources: seq<SourceEntry>, o: Outcome)
    requires Finished(config, sources, o)
    ensures MapsCanonical(sources) && MapsBounded(RunOf(config, sources))
  {
    var run := RunOf(config, sources);
    hide Finished, Owns, ExtentsFit, Canonical, Sealed, PieceOk;
    forall i | 0 <= i < |sources| && Owns(sources, i) && sources[i].file.Some?
      ensures Canonical(sources[i].file.value.data, sources[i].size)
    {
      OwnerFinished(config, sources, o, i);
    }
    forall p: Piece | PieceOk(run, p)
      ensures ExtentsFit(run, p)
    {
      PieceOwned(run, p);
      OwnerFinished(config, sources, o, p.owner);
      PieceBounded(run, o.v, p, o.entries[p.owner].contentDigest, o.entries[p.owner].chunks);
    }
  }

  lemma PieceOwned(run: Run, p: Piece)
    requires PieceOk(run, p)
    ensures p.owner < |run.sources| && Owns(run.sources, p.owner)
    ensures run.sources[p.owner].file.Some? && p.chunk < ChunksNeeded(run.sources[p.owner].size, run.chunkSize)
  {
  }

  lemma OwnerFinished(config: Config, sources: seq<SourceEntry>, o: Outcome, i: nat)
    requires Finished(config, sources, o) && i < |sources| && Owns(sources, i) && sources[i].file.Some?
    ensures |o.entries| == |sources|
    ensures Sealed(RunOf(config, sources), o.v, i, o.entries[i].contentDigest, o.entries[i].chunks)
    ensures Canonical(sources[i].file.value.data, sources[i].size)
  {
    hide Finished, GroupedEntry, LogicalContent, Refs, Canonical, SameHead;
    FinishedEntry(config, sources, o, i);
  }

  lemma PieceBounded(run: Run, v: Packing, p: Piece, digest: Digest, refs: seq<ChunkRef>)
    requires PieceOk(run, p) && Sealed(run, v, p.owner, digest, refs)
    ensures ExtentsFit(run, p)
  {
    PieceOwned(run, p);
    hide PieceOk, Legible, LogicalContent, ChunkExtents, SliceOf, Located, CollisionFree, ChunksNeeded;
    assert RefersTo(run, v, Piece(p.owner, p.chunk), refs[p.chunk]);
  }

  // ----- accepted or refused -----

  lemma AcceptableParts(config: Config, sources: seq<SourceEntry>)
    ensures Acceptable(config, sources) ==> ConfigValid(config) && Collectable(sources) && LinksClosed(sources)
  {
    hide ConfigValid, Collectable, LinksClosed, WellFormed, MapsCanonical, MapsBounded, InBounds;
  }

  lemma RefusedMeans(config: Config, sources: seq<SourceEntry>)
    requires Refused(config, sources) && Collectable(sources)
    ensures !Acceptable(config, sources) || FramesFull(RunOf(config, sources)) || PacksFull(RunOf(config, sources))
  {
    hide ConfigValid, Collectable, LinksClosed, WellFormed, MapsCanonical, MapsBounded, InBounds, TooLong, FramesFull, PacksFull;
    if TooLong(RunOf(config, sources)) {
      LongOutOfBounds(config, sources);
    }
  }

  /** Once all content is written, what is left to refuse is the shape of the tree
      and the totals. */
  lemma FinishedMeans(config: Config, sources: seq<SourceEntry>, o: Outcome)
    requires ConfigValid(config) && Finished(config, sources, o)
    ensures Acceptable(config, sources) <==>
            WellFormed(sources) && TotalsFit(o.entries) && ChunkCount(o.entries) <= MAX_CHUNKS
  {
    hide ConfigValid, Finished, Collectable, LinksClosed, WellFormed, MapsCanonical, MapsBounded, InBounds, TotalsFit, ChunkCount;
    FinishedTable(config, sources, o);
    FinishedMaps(config, sources, o);
    OutlineAgrees(config, sources, o);
  }

  lemma QuotaBounded(run: Run, v: Packing)
    requires Inv(run, v) && Collectable(run.sources)
    ensures Total(UnitSize, SmallOrder(run.sources, run.chunkSize)) < TWO_64
  {
    hide Recorded, Framed, Filled, Tiled, Indexed, Assembled, Deduplicated, Arrives, CanonicalXattrs, Total, SmallOrder;
    QuotaNeverWraps(run.sources, run.chunkSize);
  }
}
