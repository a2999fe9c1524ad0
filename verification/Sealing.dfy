/**
What a finished build is (finish of vcs/archive/build.go), and exactly when the
manifest it assembles is valid.
 */
module Sealing {
  import opened Basics
  import opened Extents
  import opened Content
  import opened Manifest
  import opened Frames
  import opened Tree
  import opened Valid
  import opened Source
  import opened Order
  import opened Packing
  import opened Table
  import opened Landmark
  import opened Config
  import opened PackReader

  /** Everything a build leaves behind. */
  datatype Outcome = Outcome(
    v: Packing,
    entries: seq<Entry>,
    pos: PriorityBoundary,
    mark: Mark,
    largeFrom: nat,
    visited: seq<nat>)

  function RunOf(config: Config, sources: seq<SourceEntry>): Run {
    Run(sources, config.chunkSizeBytes, config.packTargetBytes, config.compressionLevel, config.windowLog)
  }

  /** All content is written, every pack is closed, and every file with bytes was
      opened once, in schedule order. */
  ghost predicate Finished(config: Config, sources: seq<SourceEntry>, o: Outcome) {
    && Collectable(sources) && LinksClosed(sources)
    && Inv(RunOf(config, sources), o.v) && !o.v.packOpen && o.v.pending == []
    && TableOk(RunOf(config, sources), o.v, o.entries, set x | x in o.visited)
    && Visits(o.visited, SmallOrder(sources, config.chunkSizeBytes) + LargeOrder(sources, config.chunkSizeBytes))
    && Marked(SmallOrder(sources, config.chunkSizeBytes), o.entries, o.v, o.pos, config.priorityLogicalBytes, o.mark)
    && o.mark.frame <= o.largeFrom && Classed(RunOf(config, sources), o.v, o.largeFrom)
  }

  // ----- the manifest -----

  /** The end of a pack is written as the origin of the next. */
  function FinalPriority(packs: seq<PackRef>, pos: PriorityBoundary): PriorityBoundary
    requires |packs| <= MAX_PACKS
  {
    if pos.packIndex < |packs| && pos.packOffset == packs[pos.packIndex].sizeBytes
    then PriorityBoundary(pos.packIndex + 1, 0) else pos
  }

  lemma {:induction false} InodesBounded(entries: seq<Entry>)
    ensures LogicalInodes(entries) <= |entries|
    decreases |entries|
  {
    if entries != [] {
      InodesBounded(entries[..|entries| - 1]);
    }
  }

  predicate TotalsFit(entries: seq<Entry>) {
    |entries| < TWO_64 && LogicalBytes(entries) < TWO_64 && AllocatedBytes(entries) < TWO_64
  }

  function ManifestOf(config: Config, v: Packing, entries: seq<Entry>, pos: PriorityBoundary): Manifest
    requires TotalsFit(entries) && |v.packs| <= MAX_PACKS
  {
    InodesBounded(entries);
    Manifest(
      Header(FORMAT_VERSION, config.chunkSizeBytes, config.compressionLevel, config.windowLog, config.volumeId,
             config.sealedEpoch, config.attempt, LogicalBytes(entries), LogicalInodes(entries),
             AllocatedBytes(entries), |entries|, FinalPriority(v.packs, pos), v.packs),
      entries, v.frames)
  }

  // ----- which sources make valid manifests -----

  function SourceParents(sources: seq<SourceEntry>): (par: seq<nat>)
    ensures |par| == |sources|
    ensures forall i :: 0 <= i < |sources| ==> par[i] == sources[i].parentIndex
  {
    seq<nat>(|sources|, i requires 0 <= i < |sources| => sources[i].parentIndex)
  }

  /** Entry i is a uniquely named child of a directory still open in depth-first order. */
  predicate WellPlaced(sources: seq<SourceEntry>, i: nat)
    requires i < |sources|
  {
    i > 0 ==>
      && sources[i].parentIndex < i
      && sources[sources[i].parentIndex].kind == TYPE_DIRECTORY
      && Descends(SourceParents(sources), sources[i].parentIndex, i - 1)
      && NameValid(sources[i].name)
      && forall j :: 0 < j < i ==> !(sources[j].parentIndex == sources[i].parentIndex && sources[j].name == sources[i].name)
  }

  /** Entry i has the fields its type may have, and no directory or symlink claims
      the inode of a hardlinked file with bytes. */
  predicate WellShaped(sources: seq<SourceEntry>, i: nat)
    requires i < |sources|
  {
    var s := sources[i];
    if s.kind == TYPE_DIRECTORY then s.linkName == [] && !sources[Owner(sources, i)].HasContent()
    else if s.kind == TYPE_SYMLINK then
      && 0 < |s.linkName| <= MAX_LINK_NAME_BYTES && 0 !in s.linkName
      && s.size == |s.linkName| && s.Links() == 1
      && !sources[Owner(sources, i)].HasContent()
    else s.kind == TYPE_REGULAR && s.linkName == []
  }

  predicate WellFormed(sources: seq<SourceEntry>) {
    forall i :: 0 <= i < |sources| ==> WellPlaced(sources, i) && WellShaped(sources, i)
  }

  // ----- entries of a finished build -----

  lemma OwnerOwnsItself(sources: seq<SourceEntry>, i: nat)
    requires i < |sources|
    ensures Owner(sources, Owner(sources, i)) == Owner(sources, i)
  {
  }

  /** Exactly the inodes with bytes were opened. */
  lemma VisitedOwners(config: Config, sources: seq<SourceEntry>, o: Outcome, w: nat)
    requires Finished(config, sources, o) && w < |sources|
    ensures w in o.visited <==> Owns(sources, w)
  {
    hide Inv, TableOk, Marked, Classed, Collectable, LinksClosed, SmallOrder, LargeOrder, OnceEach;
    var order := SmallOrder(sources, config.chunkSizeBytes) + LargeOrder(sources, config.chunkSizeBytes);
    OrderOnce(sources, config.chunkSizeBytes);
    if w in o.visited {
      var j :| 0 <= j < |o.visited| && o.visited[j] == w;
      InOrder(sources, order, j);
    }
    if Owns(sources, w) {
      Scheduled(sources, order, w);
      var j :| 0 <= j < |order| && order[j] == UnitOf(sources, w);
      assert o.visited[j] == w;
    }
  }

  /** Entry i of a finished build: the head of its source, and its owner's content
      where that has bytes. */
  ghost predicate EntrySealed(run: Run, v: Packing, e: Entry, i: nat)
    requires i < |run.sources| <= MAX_ENTRIES
  {
    && SameHead(e, GroupedEntry(run.sources, i))
    && if run.sources[Owner(run.sources, i)].HasContent() then
         Sealed(run, v, Owner(run.sources, i), e.contentDigest, e.chunks)
       else
         e.contentDigest == FirstDigest(run.sources[i]) && e.chunks == []
  }

  lemma FinishedEntry(config: Config, sources: seq<SourceEntry>, o: Outcome, i: nat)
    requires Finished(config, sources, o) && i < |sources|
    ensures |o.entries| == |sources| <= MAX_ENTRIES
    ensures EntrySealed(RunOf(config, sources), o.v, o.entries[i], i)
  {
    VisitedOwners(config, sources, o, Owner(sources, i));
    OwnerOwnsItself(sources, i);
    hide Inv, Marked, Classed, Collectable, LinksClosed, SmallOrder, LargeOrder, Sealed, GroupedEntry, Owner, Visits;
    assert EntryOk(RunOf(config, sources), o.v, o.entries[i], i, set x | x in o.visited);
  }

  // ----- placement -----

  lemma SameParents(sources: seq<SourceEntry>, entries: seq<Entry>)
    requires |entries| == |sources|
    requires forall i :: 0 <= i < |entries| ==> entries[i].parentIndex == sources[i].parentIndex
    ensures Parents(entries) == SourceParents(sources)
  {
  }

  predicate SameNames(sources: seq<SourceEntry>, entries: seq<Entry>) {
    && |entries| == |sources|
    && forall i :: 0 <= i < |entries| ==>
         && entries[i].parentIndex == sources[i].parentIndex
         && entries[i].name == sources[i].name
         && entries[i].kind == sources[i].kind
  }

  lemma PlacementAgrees(sources: seq<SourceEntry>, entries: seq<Entry>, i: nat)
    requires SameNames(sources, entries) && i < |entries| && Arrives(sources[i], i)
    ensures PlacementValid(entries, i) <==> WellPlaced(sources, i)
  {
    hide Descends, NameValid;
    SameParents(sources, entries);
    if i > 0 {
      forall j | 0 < j < i
        ensures SameName(entries[j], entries[i]) <==>
                sources[j].parentIndex == sources[i].parentIndex && sources[j].name == sources[i].name
      {
      }
    }
  }

  // ----- shape -----

  lemma RefValid(run: Run, v: Packing, p: Piece, ref: ChunkRef)
    requires Inv(run, v) && v.pending == [] && PieceOk(run, p) && RefersTo(run, v, p, ref)
    ensures ChunkValid(ref, ChunkSpan(run.sources[p.owner].size, run.chunkSize, p.chunk), v.frames)
  {
    hide PieceOk, SliceOf, ChunkExtents, Canonical, Inv, Located;
    PieceExtents(run, p);
    if ref.length != 0 {
      RefInFrame(run, v, p, ref);
    }
  }

  lemma RefInFrame(run: Run, v: Packing, p: Piece, ref: ChunkRef)
    requires Inv(run, v) && v.pending == [] && PieceOk(run, p) && RefersTo(run, v, p, ref) && ref.length != 0
    ensures ref.frameIndex < |v.frames| && ref.innerOffset + ref.length <= v.frames[ref.frameIndex].uncompressedLength
  {
    hide PieceOk, SliceOf, ChunkExtents, Inv;
    RefBehind(run, v, p, ref);
    FrameLength(run, v, ref.frameIndex);
    var q :| Located(run, v.Full(), ref.sliceDigest, Location(ref.frameIndex, ref.innerOffset, ref.length), q);
  }

  lemma FrameLength(run: Run, v: Packing, f: nat)
    requires Inv(run, v) && f < |v.contents|
    ensures |v.frames| == |v.contents| && v.frames[f].uncompressedLength == |v.contents[f]|
  {
    hide Recorded, Filled, Tiled, Indexed, Assembled, Deduplicated;
    assert Holds(v.frames[f], v.contents[f], v.Packs(), run);
  }

  lemma PieceExtents(run: Run, p: Piece)
    requires PieceOk(run, p)
    ensures p.chunk * run.chunkSize <= run.sources[p.owner].size
    ensures Canonical(ChunkExtents(run.sources[p.owner], run.chunkSize, p.chunk),
                      ChunkSpan(run.sources[p.owner].size, run.chunkSize, p.chunk))
    ensures |SliceOf(run, p)| == TotalLength(ChunkExtents(run.sources[p.owner], run.chunkSize, p.chunk))
  {
    hide Canonical, ChunkLegible, ChunkExtents, ChunkBytes, ChunkSpan, ChunksNeeded, TotalLength, Owns;
    ChunkBounds(run.sources[p.owner].size, run.chunkSize, p.chunk);
    assert SliceOf(run, p) == ChunkBytes(run.sources[p.owner], run.chunkSize, p.chunk);
  }

  lemma ContentValid(run: Run, v: Packing, e: Entry, owner: nat)
    requires Inv(run, v) && v.pending == [] && Sealed(run, v, owner, e.contentDigest, e.chunks)
    requires e.size == run.sources[owner].size
    ensures ChunksValid(e, v.frames, run.chunkSize)
  {
    hide Inv, PieceOk, RefersTo, ChunkValid, ChunksNeeded, Legible, ChunkSpan;
    forall k | 0 <= k < |e.chunks|
      ensures ChunkAtValid(e, k, v.frames, run.chunkSize)
    {
      RefValid(run, v, Piece(owner, k), e.chunks[k]);
    }
  }

  /** Whether an entry's own fields are valid depends on its source alone. */
  lemma ShapeAgrees(run: Run, v: Packing, e: Entry, i: nat)
    requires i < |run.sources| <= MAX_ENTRIES && Inv(run, v) && v.pending == []
    requires EntrySealed(run, v, e, i)
    requires XattrsValid(CanonicalXattrs(run.sources[i].xattrs))
    requires run.sources[i].kind == TYPE_REGULAR ==> LinkClosed(run.sources, i)
    ensures 0 < run.chunkSize
    ensures FieldsValid(e, v.frames, run.chunkSize) <==> WellShaped(run.sources, i)
  {
    ChunkSizePositive(run, v);
    GroupShape(run.sources, i);
    hide Inv, XattrsValid, CanonicalXattrs, Owner, GroupNumber, ChunksValid, Sealed, LinkClosed;
    var s, owner := run.sources[i], Owner(run.sources, i);
    if run.sources[owner].HasContent() {
      HasChunks(run, v, owner, e.contentDigest, e.chunks);
      if s.kind == TYPE_REGULAR {
        ContentValid(run, v, e, owner);
      }
    } else if s.kind == TYPE_REGULAR {
      NoContentValid(e, v.frames, run.chunkSize);
    }
  }

  lemma ChunkSizePositive(run: Run, v: Packing)
    requires Inv(run, v)
    ensures 0 < run.chunkSize
  {
    hide Recorded, Framed, Filled, Tiled, Indexed, Assembled, Deduplicated;
  }

  /** A regular file that is closed has a valid group and an owner of its size. */
  lemma GroupShape(sources: seq<SourceEntry>, i: nat)
    requires i < |sources|
    ensures sources[i].kind != TYPE_REGULAR ==> GroupNumber(sources, i) == 0
    ensures sources[i].kind == TYPE_REGULAR && LinkClosed(sources, i) ==>
              && (if GroupNumber(sources, i) == 0 then sources[i].Links() == 1 else sources[i].Links() >= 2)
              && sources[i].size == sources[Owner(sources, i)].size && sources[Owner(sources, i)].kind == TYPE_REGULAR
  {
  }

  lemma HasChunks(run: Run, v: Packing, owner: nat, digest: Digest, refs: seq<ChunkRef>)
    requires Sealed(run, v, owner, digest, refs) && run.sources[owner].HasContent()
    ensures refs != []
  {
    hide PieceOk, RefersTo, Legible, LogicalContent;
    ByteInChunk(run.sources[owner], run.chunkSize, 0);
  }

  lemma NoContentValid(e: Entry, frames: seq<Frame>, chunkSize: nat)
    requires chunkSize > 0 && e.size == 0 && e.chunks == []
    ensures ChunksValid(e, frames, chunkSize)
  {
  }

  // ----- packs -----

  /** Every pack holds a frame. */
  lemma {:induction false} PackReached(frames: seq<Frame>, sizes: seq<u64>, chunkSize: nat, n: nat, p: nat)
    requires Chain(frames, sizes, chunkSize) && n < |frames| && p <= frames[n].packIndex
    ensures exists i :: 0 <= i <= n && frames[i].packIndex == p
    decreases n
  {
    if frames[n].packIndex != p {
      assert n > 0 && Follows(frames[n - 1], frames[n - 1 + 1], sizes);
      PackReached(frames, sizes, chunkSize, n - 1, p);
    }
  }

  lemma PackNonEmpty(frames: seq<Frame>, sizes: seq<u64>, chunkSize: nat, p: nat)
    requires Chain(frames, sizes, chunkSize) && Complete(frames, sizes) && p < |sizes|
    ensures 0 < sizes[p]
  {
    PackReached(frames, sizes, chunkSize, |frames| - 1, p);
    var i :| 0 <= i < |frames| && frames[i].packIndex == p;
    assert FrameBounds(frames[i], sizes, chunkSize);
  }

  lemma {:induction false} PackTotal(packs: seq<PackRef>)
    requires forall p :: 0 <= p < |packs| ==> packs[p].sizeBytes <= PACK_LIMIT
    ensures Total(SizeOf, packs) <= PACK_LIMIT * |packs|
    decreases |packs|
  {
    if packs != [] {
      PackTotal(packs[..|packs| - 1]);
    }
  }

  /** The closed packs of a finished build, as the header lists them. */
  lemma PacksValid(run: Run, v: Packing)
    requires Inv(run, v) && !v.packOpen && ZstdRoundTrips()
    ensures |v.packs| <= MAX_PACKS && |v.frames| <= MAX_FRAMES
    ensures Chain(v.frames, PackSizes(v.packs), run.chunkSize) && Complete(v.frames, PackSizes(v.packs))
    ensures forall p :: 0 <= p < |v.packs| ==> 0 < v.packs[p].sizeBytes <= PACK_LIMIT
    ensures Total(SizeOf, v.packs) < TWO_64
  {
    hide Framed, Indexed, Assembled, Deduplicated, Chain, Complete;
    assert v.Packs() == v.written;
    assert Lengths(v.Packs()) == PackSizes(v.packs);
    forall p | 0 <= p < |v.packs|
      ensures 0 < v.packs[p].sizeBytes <= PACK_LIMIT
    {
      PackNonEmpty(v.frames, PackSizes(v.packs), run.chunkSize, p);
      assert Fits(v.frames, v.Packs(), run.target, p);
    }
    PackTotal(v.packs);
  }

  // ----- the boundary -----

  /** Where frame n starts, or the canonical end of the packs. */
  function FrameStart(frames: seq<Frame>, packs: seq<PackRef>, n: nat): PriorityBoundary
    requires |packs| <= MAX_PACKS
  {
    if n < |frames| then PriorityBoundary(frames[n].packIndex, frames[n].packOffset)
    else PriorityBoundary(|packs|, 0)
  }

  /** Once every pack is closed the boundary has one representation. */
  lemma PriorityIsFrameStart(run: Run, v: Packing, pos: PriorityBoundary, n: nat)
    requires Inv(run, v) && !v.packOpen && ZstdRoundTrips() && At(v, pos, n)
    ensures |v.packs| <= MAX_PACKS
    ensures FinalPriority(v.packs, pos) == FrameStart(v.frames, v.packs, n)
    ensures PriorityValid(FinalPriority(v.packs, pos), v.packs)
  {
    hide Inv, Chain, Complete, Total;
    PacksValid(run, v);
    WriterEmpty(run, v);
    if n < |v.frames| {
      FrameInside(v.frames, PackSizes(v.packs), run.chunkSize, n);
    }
  }

  lemma FrameInside(frames: seq<Frame>, sizes: seq<u64>, chunkSize: nat, n: nat)
    requires Chain(frames, sizes, chunkSize) && n < |frames|
    ensures frames[n].packIndex < |sizes| && frames[n].packOffset < sizes[frames[n].packIndex]
  {
    assert FrameBounds(frames[n], sizes, chunkSize);
  }

  lemma WriterEmpty(run: Run, v: Packing)
    requires Inv(run, v) && !v.packOpen
    ensures v.packWriter == []
  {
    hide Recorded, Framed, Filled, Tiled, Indexed, Assembled, Deduplicated;
  }

  // ----- the whole manifest -----

  lemma HeaderSealed(config: Config, sources: seq<SourceEntry>, o: Outcome)
    requires ConfigValid(config) && Finished(config, sources, o) && ZstdRoundTrips() && TotalsFit(o.entries)
    ensures |o.v.packs| <= MAX_PACKS && |o.v.frames| <= MAX_FRAMES
    ensures HeaderValid(ManifestOf(config, o.v, o.entries, o.pos).header)
    ensures Tiling(o.v.frames, PackSizes(o.v.packs), config.chunkSizeBytes)
  {
    hide Inv, TableOk, Collectable, LinksClosed, SmallOrder, LargeOrder, Visits, Classed, At, Chain, Complete, Tiling;
    hide Total, Behind, IsPowerOfTwo, LogicalBytes, LogicalInodes, AllocatedBytes, FinalPriority, PriorityValid;
    var run := RunOf(config, sources);
    PacksValid(run, o.v);
    PriorityIsFrameStart(run, o.v, o.pos, o.mark.frame);
    ChainTiles(o.v.frames, PackSizes(o.v.packs), config.chunkSizeBytes);
  }

  lemma LinksSealed(config: Config, sources: seq<SourceEntry>, o: Outcome)
    requires Finished(config, sources, o)
    ensures HardlinksValid(o.entries)
  {
    FinishedTable(config, sources, o);
    hide Finished, Owner, GroupNumber, HardlinksValid;
    forall i | 0 <= i < |sources| && Grouped(sources, i)
      ensures o.entries[i].contentDigest == o.entries[Owner(sources, i)].contentDigest
    {
      LinkDigests(config, sources, o, i);
    }
    ClosedLinksValid(sources, o.entries);
  }

  lemma FinishedTable(config: Config, sources: seq<SourceEntry>, o: Outcome)
    requires Finished(config, sources, o)
    ensures |o.entries| == |sources| && LinksClosed(sources) && Collectable(sources)
    ensures Linked(sources, o.entries) && SameNames(sources, o.entries) && 0 < config.chunkSizeBytes
  {
    hide Inv, Collectable, LinksClosed, SmallOrder, LargeOrder, Visits, Classed, Marked, Sealed, Owner, GroupNumber;
    ChunkSizePositive(RunOf(config, sources), o.v);
    forall i | 0 <= i < |sources|
      ensures SameHead(o.entries[i], GroupedEntry(sources, i))
    {
      assert EntryOk(RunOf(config, sources), o.v, o.entries[i], i, set x | x in o.visited);
    }
  }

  lemma LinkDigests(config: Config, sources: seq<SourceEntry>, o: Outcome, i: nat)
    requires Finished(config, sources, o) && i < |sources| && Grouped(sources, i)
    ensures |o.entries| == |sources| && o.entries[i].contentDigest == o.entries[Owner(sources, i)].contentDigest
  {
    var owner := Owner(sources, i);
    assert sources[owner].kind == TYPE_REGULAR && sources[i].kind == TYPE_REGULAR;
    FinishedEntry(config, sources, o, i);
    FinishedEntry(config, sources, o, owner);
    OwnerOwnsItself(sources, i);
    hide Finished, Owner, GroupedEntry, Refs, Legible;
  }

  lemma EntriesSealed(config: Config, sources: seq<SourceEntry>, o: Outcome)
    requires Finished(config, sources, o)
    ensures config.chunkSizeBytes > 0 && |o.entries| == |sources|
    ensures EachValid(o.entries, |o.entries|, o.v.frames, config.chunkSizeBytes) <==> WellFormed(sources)
  {
    hide Finished, PlacementValid, FieldsValid, WellPlaced, WellShaped, LinksClosed, Linked, SameNames, Collectable;
    FinishedTable(config, sources, o);
    forall i | 0 <= i < |sources|
      ensures EntryValid(o.entries, i, o.v.frames, config.chunkSizeBytes) <==> WellPlaced(sources, i) && WellShaped(sources, i)
    {
      EntryAgrees(config, sources, o, i);
    }
  }

  lemma EntryAgrees(config: Config, sources: seq<SourceEntry>, o: Outcome, i: nat)
    requires Finished(config, sources, o) && i < |sources|
    ensures config.chunkSizeBytes > 0 && |o.entries| == |sources|
    ensures EntryValid(o.entries, i, o.v.frames, config.chunkSizeBytes) <==> WellPlaced(sources, i) && WellShaped(sources, i)
  {
    FinishedTable(config, sources, o);
    FinishedEntry(config, sources, o, i);
    hide TableOk, SmallOrder, LargeOrder, Visits, Classed, Marked, Inv, EntrySealed, Linked, SameNames;
    hide XattrsValid, CanonicalXattrs, PlacementValid, FieldsValid, WellPlaced, WellShaped, LinkClosed;
    assert Arrives(sources[i], i);
    assert sources[i].kind == TYPE_REGULAR ==> LinkClosed(sources, i);
    PlacementAgrees(sources, o.entries, i);
    ShapeAgrees(RunOf(config, sources), o.v, o.entries[i], i);
  }

  /** The manifest a finished build assembles is valid exactly when the walk was a
      well-formed tree within the chunk bound: no step before can have spoiled it. */
  lemma ManifestValid(config: Config, sources: seq<SourceEntry>, o: Outcome)
    requires ConfigValid(config) && Finished(config, sources, o) && ZstdRoundTrips() && TotalsFit(o.entries)
    ensures |o.v.packs| <= MAX_PACKS
    ensures ValidManifest(ManifestOf(config, o.v, o.entries, o.pos)) <==>
            WellFormed(sources) && ChunkCount(o.entries) <= MAX_CHUNKS
  {
    HeaderSealed(config, sources, o);
    LinksSealed(config, sources, o);
    EntriesSealed(config, sources, o);
    FinishedTable(config, sources, o);
    assert 0 < |sources| <= MAX_ENTRIES;
    hide Finished, HeaderValid, Tiling, EachValid, WellFormed, HardlinksValid, ChunkCount, LogicalBytes, LogicalInodes,
      AllocatedBytes, Linked, SameNames, ConfigValid;
  }

  /** What a successful build returns. */
  ghost predicate Built(config: Config, sources: seq<SourceEntry>, m: Manifest, packs: seq<Bytes>, o: Outcome) {
    && ConfigValid(config) && Finished(config, sources, o)
    && TotalsFit(o.entries) && |o.v.packs| <= MAX_PACKS
    && m == ManifestOf(config, o.v, o.entries, o.pos)
    && packs == o.v.written
  }

  /** Each distinct inode with bytes is opened once, and nothing else is. */
  ghost predicate OpenedOnce(sources: seq<SourceEntry>, visited: seq<nat>) {
    && (forall j, k :: 0 <= j < k < |visited| ==> visited[j] != visited[k])
    && (forall i :: 0 <= i < |sources| ==> (i in visited <==> Owns(sources, i)))
  }

  lemma VisitedOnce(config: Config, sources: seq<SourceEntry>, o: Outcome)
    requires Finished(config, sources, o)
    ensures OpenedOnce(sources, o.visited)
  {
    hide Inv, TableOk, Marked, Classed, Collectable, LinksClosed, SmallOrder, LargeOrder, OnceEach, Owns;
    var order := SmallOrder(sources, config.chunkSizeBytes) + LargeOrder(sources, config.chunkSizeBytes);
    OrderOnce(sources, config.chunkSizeBytes);
    forall j, k | 0 <= j < k < |o.visited|
      ensures o.visited[j] != o.visited[k]
    {
      NoRepeat(sources, order, j, k);
    }
    forall i | 0 <= i < |sources|
      ensures i in o.visited <==> Owns(sources, i)
    {
      VisitedOwners(config, sources, o, i);
    }
  }
}
