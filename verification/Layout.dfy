/**
What the layout decisions of a build do not change (the whole-tree identity) and
what they do promise (the prefetch region).
 */
module Layout {
  import opened Basics
  import opened Extents
  import opened Content
  import opened Manifest
  import opened Frames
  import opened Valid
  import opened Source
  import opened Order
  import opened Packing
  import opened Table
  import opened Landmark
  import opened Config
  import opened Sealing
  import opened EndToEnd
  import opened PackReader
  import Locality
  import R = RootDigest
  import Ranges

  // ----- the identity of a tree -----

  /** The chunk-relative extent maps of entry i's inode. */
  function ExtentMapsOf(sources: seq<SourceEntry>, chunkSize: nat, i: nat): seq<seq<Extent>>
    requires chunkSize > 0 && i < |sources|
    requires sources[Owner(sources, i)].HasContent() ==> sources[Owner(sources, i)].file.Some?
  {
    var s := sources[Owner(sources, i)];
    if !s.HasContent() then []
    else
      seq<seq<Extent>>(ChunksNeeded(s.size, chunkSize),
                       k requires 0 <= k < ChunksNeeded(s.size, chunkSize) => ChunkExtents(s, chunkSize, k))
  }

  /** What a restore of entry i must reproduce, from the walk and the chunk size
      alone. */
  function SourceSemantics(sources: seq<SourceEntry>, chunkSize: nat, i: nat): R.Semantics
    requires chunkSize > 0 && i < |sources| <= MAX_ENTRIES
    requires sources[Owner(sources, i)].HasContent() ==> sources[Owner(sources, i)].file.Some?
  {
    var s := sources[i];
    R.Semantics(s.parentIndex, s.name, s.kind, s.size, s.mode % MODE_LIMIT, s.mtimeNanos, s.linkName,
                GroupNumber(sources, i), DigestOf(sources, i), CanonicalXattrs(s.xattrs),
                ExtentMapsOf(sources, chunkSize, i))
  }

  /** Every restored field of a build's output is fixed by the walk and the chunk
      size: not by compression, window, packs, parts, priority or identity. */
  lemma SemanticsDetermined(config: Config, sources: seq<SourceEntry>, m: Manifest, packs: seq<Bytes>, o: Outcome, i: nat)
    requires Built(config, sources, m, packs, o) && i < |sources|
    ensures |m.entries| == |sources| <= MAX_ENTRIES && config.chunkSizeBytes > 0
    ensures sources[Owner(sources, i)].HasContent() ==> sources[Owner(sources, i)].file.Some?
    ensures R.SemanticsOf(m.entries[i]) == SourceSemantics(sources, config.chunkSizeBytes, i)
  {
    hide Built, Owner, GroupNumber, LogicalContent, CanonicalXattrs, ExtentMapsOf, Sealed;
    BuiltEntry(config, sources, m, packs, o, i);
    MapsDetermined(RunOf(config, sources), o.v, m.entries[i], i);
  }

  lemma MapsDetermined(run: Run, v: Packing, e: Entry, i: nat)
    requires i < |run.sources| <= MAX_ENTRIES && EntrySealed(run, v, e, i) && 0 < run.chunkSize
    requires run.sources[Owner(run.sources, i)].HasContent() ==> run.sources[Owner(run.sources, i)].file.Some?
    ensures R.ExtentMaps(e.chunks) == ExtentMapsOf(run.sources, run.chunkSize, i)
    ensures e.contentDigest == DigestOf(run.sources, i)
  {
    hide Owner, GroupedEntry, LogicalContent, Refs, Legible, ChunkExtents;
    var owner := Owner(run.sources, i);
    if run.sources[owner].HasContent() {
      forall k | 0 <= k < |e.chunks|
        ensures e.chunks[k].extents == ChunkExtents(run.sources[owner], run.chunkSize, k)
      {
        RefExtents(run, v, owner, e.chunks, k);
      }
    }
  }

  // ----- walks that differ in change times only -----

  predicate SameButChangeTimes(a: seq<SourceEntry>, b: seq<SourceEntry>) {
    |a| == |b| && forall i :: 0 <= i < |a| ==> a[i].(ctimeNanos := b[i].ctimeNanos) == b[i]
  }

  lemma {:induction false} SameLinks(a: seq<SourceEntry>, b: seq<SourceEntry>, key: u64)
    requires SameButChangeTimes(a, b)
    ensures LinkCount(a, key) == LinkCount(b, key)
    ensures LinkCount(a, key) > 0 ==> FirstWith(a, key) == FirstWith(b, key)
    decreases |a|
  {
    if a != [] {
      assert a[|a| - 1].(ctimeNanos := b[|a| - 1].ctimeNanos) == b[|a| - 1];
      SameLinks(a[..|a| - 1], b[..|b| - 1], key);
    }
  }

  lemma SameOwner(a: seq<SourceEntry>, b: seq<SourceEntry>, i: nat)
    requires SameButChangeTimes(a, b) && i < |a|
    ensures Owner(a, i) == Owner(b, i) && Grouped(a, i) == Grouped(b, i) && Leads(a, i) == Leads(b, i)
  {
    hide LinkCount, FirstWith;
    assert a[i].(ctimeNanos := b[i].ctimeNanos) == b[i];
    SameLinks(a, b, a[i].inodeKey);
  }

  lemma {:induction false} SameLeaders(a: seq<SourceEntry>, b: seq<SourceEntry>, n: nat)
    requires SameButChangeTimes(a, b) && n <= |a|
    ensures Leaders(a, n) == Leaders(b, n)
    decreases n
  {
    hide Leads;
    if n > 0 {
      SameLeaders(a, b, n - 1);
      SameOwner(a, b, n - 1);
    }
  }

  lemma SameSemantics(a: seq<SourceEntry>, b: seq<SourceEntry>, chunkSize: nat, i: nat)
    requires SameButChangeTimes(a, b) && chunkSize > 0 && i < |a| <= MAX_ENTRIES
    requires a[Owner(a, i)].HasContent() ==> a[Owner(a, i)].file.Some?
    requires b[Owner(b, i)].HasContent() ==> b[Owner(b, i)].file.Some?
    ensures SourceSemantics(a, chunkSize, i) == SourceSemantics(b, chunkSize, i)
  {
    hide Grouped, Owner, CanonicalXattrs, SameButChangeTimes, Leads;
    SameLength(a, b);
    SameOwner(a, b, i);
    SameLeaders(a, b, Owner(a, i));
    SameFields(a, b, i);
    SameFields(a, b, Owner(a, i));
    SameChunks(a[Owner(a, i)], b[Owner(b, i)], chunkSize);
    hide Leaders, ChunkExtents;
    assert ExtentMapsOf(a, chunkSize, i) == ExtentMapsOf(b, chunkSize, i);
  }

  lemma SameFields(a: seq<SourceEntry>, b: seq<SourceEntry>, i: nat)
    requires SameButChangeTimes(a, b) && i < |a|
    ensures a[i].(ctimeNanos := b[i].ctimeNanos) == b[i]
  {
  }

  lemma SameChunks(s: SourceEntry, t: SourceEntry, chunkSize: nat)
    requires s.(ctimeNanos := t.ctimeNanos) == t && chunkSize > 0
    ensures s.file.Some? ==> LogicalContent(s) == LogicalContent(t)
    ensures s.file.Some? ==> forall k :: 0 <= k < ChunksNeeded(s.size, chunkSize) ==>
                                           ChunkExtents(s, chunkSize, k) == ChunkExtents(t, chunkSize, k)
  {
    hide Clip, Logical;
  }

  /** Two builds of one walk with one chunk size have the same root digest, whatever
      else about the two deployments, and the walk's change times, differs. */
  lemma LayoutIndependent(c: Config, a: seq<SourceEntry>, m: Manifest, mPacks: seq<Bytes>, mo: Outcome,
                          d: Config, b: seq<SourceEntry>, n: Manifest, nPacks: seq<Bytes>, no: Outcome)
    requires Built(c, a, m, mPacks, mo) && Built(d, b, n, nPacks, no)
    requires SameButChangeTimes(a, b) && c.chunkSizeBytes == d.chunkSizeBytes
    ensures R.Preimage(m.entries) == R.Preimage(n.entries)
  {
    hide Built, SameButChangeTimes, R.SemanticsOf, SourceSemantics, R.PutSemantics, Owner;
    assert |a| == |b| by { SameLength(a, b); }
    TableLength(c, a, m, mPacks, mo);
    TableLength(d, b, n, nPacks, no);
    forall i | 0 <= i < |a|
      ensures R.SemanticsOf(m.entries[i]) == R.SemanticsOf(n.entries[i])
    {
      SemanticsDetermined(c, a, m, mPacks, mo, i);
      SemanticsDetermined(d, b, n, nPacks, no, i);
      SameSemantics(a, b, c.chunkSizeBytes, i);
    }
    assert R.SemanticsOfAll(m.entries) == R.SemanticsOfAll(n.entries);
  }

  lemma SameLength(a: seq<SourceEntry>, b: seq<SourceEntry>)
    requires SameButChangeTimes(a, b)
    ensures |a| == |b|
  {
  }

  lemma TableLength(config: Config, sources: seq<SourceEntry>, m: Manifest, packs: seq<Bytes>, o: Outcome)
    requires Built(config, sources, m, packs, o)
    ensures |m.entries| == |sources|
  {
    hide Finished, ConfigValid;
    FinishedTable(config, sources, o);
  }

  // ----- the prefetch region -----

  /** A boundary at the start of frame n has exactly the frames before n before it. */
  lemma BoundarySplits(frames: seq<Frame>, packs: seq<PackRef>, chunkSize: nat, n: nat, f: nat, b: nat)
    requires Chain(frames, PackSizes(packs), chunkSize) && |packs| <= MAX_PACKS
    requires n <= |frames| && f < |frames| && CoversByte(frames[f], frames[f].packIndex, b)
    ensures Ranges.BeforeBoundary(packs, FrameStart(frames, packs, n), frames[f].packIndex, b) <==> f < n
  {
    var sizes := PackSizes(packs);
    assert FrameBounds(frames[f], sizes, chunkSize);
    if n < |frames| {
      if f < n {
        ChainOrder(frames, sizes, chunkSize, f, n);
      } else if n < f {
        ChainOrder(frames, sizes, chunkSize, n, f);
        assert FrameBounds(frames[n], sizes, chunkSize);
      }
    }
  }

  /** What the boundary of a build means: a position between two frames, with
      exactly the frames before it in the prefetch region. */
  lemma BoundaryIsLandmark(config: Config, sources: seq<SourceEntry>, m: Manifest, packs: seq<Bytes>, o: Outcome)
    requires Built(config, sources, m, packs, o) && ZstdRoundTrips()
    ensures o.mark.frame <= |m.frames| && |m.header.packs| <= MAX_PACKS
    ensures m.header.priority == FrameStart(m.frames, m.header.packs, o.mark.frame)
    ensures forall f: nat, b: nat :: f < |m.frames| && CoversByte(m.frames[f], m.frames[f].packIndex, b) ==>
              (Ranges.BeforeBoundary(m.header.packs, m.header.priority, m.frames[f].packIndex, b) <==> f < o.mark.frame)
  {
    hide ConfigValid, Inv, TableOk, Collectable, LinksClosed, SmallOrder, LargeOrder, Visits, Classed, Behind, Total;
    hide Chain, FinalPriority, FrameStart, Ranges.BeforeBoundary, Frames.Complete, LogicalBytes, LogicalInodes, AllocatedBytes;
    var run := RunOf(config, sources);
    PriorityIsFrameStart(run, o.v, o.pos, o.mark.frame);
    PacksValid(run, o.v);
    hide At;
    forall f: nat, b: nat | f < |m.frames| && CoversByte(m.frames[f], m.frames[f].packIndex, b)
      ensures Ranges.BeforeBoundary(m.header.packs, m.header.priority, m.frames[f].packIndex, b) <==> f < o.mark.frame
    {
      BoundarySplits(m.frames, m.header.packs, config.chunkSizeBytes, o.mark.frame, f, b);
    }
  }

  /** What lies on either side of it. Frames before the boundary are made of whole
      small files only, and every frame of the large-file region is one chunk of a
      large file and lies at or after it. The first small files in write order lie
      wholly before it and are all it holds; together they reach the quota, or are
      all there are, and without the last of them they would not. */
  lemma RegionHoldsSmallFiles(config: Config, sources: seq<SourceEntry>, m: Manifest, packs: seq<Bytes>, o: Outcome)
    requires Built(config, sources, m, packs, o)
    ensures |o.v.pieces| == |o.v.contents| == |m.frames| && o.mark.frame <= o.largeFrom <= |m.frames|
    ensures forall f :: 0 <= f < |m.frames| ==>
              && PiecesOk(RunOf(config, sources), o.v.pieces[f])
              && o.v.contents[f] == Together(RunOf(config, sources), o.v.pieces[f])
    ensures forall f :: 0 <= f < o.mark.frame ==> SmallPieces(RunOf(config, sources), o.v.pieces[f])
    ensures forall f :: o.largeFrom <= f < |m.frames| ==>
              && |o.v.pieces[f]| == 1
              && !IsSmall(RunOf(config, sources), o.v.pieces[f][0])
    ensures var small := SmallOrder(sources, config.chunkSizeBytes);
            && o.mark.files <= |small|
            && (config.priorityLogicalBytes <= Total(UnitSize, small[..o.mark.files]) || o.mark.files == |small|)
            && (o.mark.files > 0 ==> Total(UnitSize, small[..o.mark.files - 1]) < config.priorityLogicalBytes)
            && (forall j :: 0 <= j < o.mark.files ==> Behind(m.entries, small[j].owner, o.mark.frame))
            && (forall f, k :: 0 <= f < o.mark.frame && 0 <= k < |o.v.pieces[f]| ==>
                  Among(small, o.mark.files, o.v.pieces[f][k].owner))
  {
    hide ConfigValid, TableOk, Collectable, LinksClosed, SmallOrder, LargeOrder, Visits, At, Behind, Total, SmallPieces, Among;
    hide Recorded, Framed, Filled, Tiled, Indexed, PiecesOk, Together, LogicalBytes, LogicalInodes, AllocatedBytes;
  }

  /** The prefetch region starts with the newest content: the first file a build opens
      is dated no earlier than any other small file, and with any quota at all it lies
      wholly before the boundary. */
  lemma NewestPrefetched(config: Config, sources: seq<SourceEntry>, m: Manifest, packs: seq<Bytes>, o: Outcome, i: nat)
    requires Built(config, sources, m, packs, o)
    requires i < |sources| && Owns(sources, i) && sources[i].size <= config.chunkSizeBytes
    ensures o.visited != [] && o.visited[0] < |sources| && Owns(sources, o.visited[0])
    ensures sources[o.visited[0]].size <= config.chunkSizeBytes
    ensures sources[o.visited[0]].mtimeNanos >= sources[i].mtimeNanos
    ensures config.priorityLogicalBytes > 0 ==> o.mark.files > 0 && Behind(m.entries, o.visited[0], o.mark.frame)
  {
    hide ConfigValid, Inv, TableOk, Collectable, LinksClosed, Classed, At, Behind, HoldsOnly, Owns, FinalPriority, TotalsFit;
    hide SmallOrder, LargeOrder;
    var small, large := SmallOrder(sources, config.chunkSizeBytes), LargeOrder(sources, config.chunkSizeBytes);
    Locality.NewestWrittenFirst(sources, config.chunkSizeBytes, i);
    assert (small + large)[0] == small[0];
    assert small[..0] == [];
  }

  /** On every build output the sweep splits under any cap. */
  lemma SweepAlwaysSplits(config: Config, sources: seq<SourceEntry>, m: Manifest, packs: seq<Bytes>, o: Outcome,
                          index: nat, cap: u64)
    requires Built(config, sources, m, packs, o) && ZstdRoundTrips() && index < |m.header.packs|
    ensures Ranges.SplitFits(Ranges.SweepLength(m.header.packs, m.header.priority, index), cap)
  {
    hide ConfigValid, Inv, TableOk, Collectable, LinksClosed, SmallOrder, LargeOrder, Visits, Classed, Marked, Total;
    hide Chain, FinalPriority, Frames.Complete, LogicalBytes, LogicalInodes, AllocatedBytes, Ranges.SplitFits;
    var run := RunOf(config, sources);
    PacksValid(run, o.v);
    BoundaryBounded(config, sources, o);
    Ranges.SmallPacksFit(Ranges.SweepLength(m.header.packs, m.header.priority, index), cap);
  }

  lemma BoundaryBounded(config: Config, sources: seq<SourceEntry>, o: Outcome)
    requires Finished(config, sources, o) && ZstdRoundTrips() && |o.v.packs| <= MAX_PACKS
    ensures PriorityValid(FinalPriority(o.v.packs, o.pos), o.v.packs)
  {
    hide Inv, TableOk, Collectable, LinksClosed, SmallOrder, LargeOrder, Visits, Classed, At, Behind, Total;
    PriorityIsFrameStart(RunOf(config, sources), o.v, o.pos, o.mark.frame);
  }

  // ----- deduplication -----

  /** Without digest collisions a build stores no bytes twice. */
  lemma StoredOnce(config: Config, sources: seq<SourceEntry>, m: Manifest, packs: seq<Bytes>, o: Outcome)
    requires Built(config, sources, m, packs, o) && CollisionFree(RunOf(config, sources))
    ensures forall i :: 0 <= i < |Inventory(o.v)| ==> PieceOk(RunOf(config, sources), Inventory(o.v)[i])
    ensures Different(RunOf(config, sources), Inventory(o.v))
  {
    hide ConfigValid, TableOk, Collectable, LinksClosed, SmallOrder, LargeOrder, Visits, Classed, Marked, Different;
    hide Shape, Recorded, Framed, Filled, Tiled, Indexed, Assembled, CollisionFree, PieceOk, SliceOf, Inventory;
    hide LogicalBytes, LogicalInodes, AllocatedBytes;
  }

  /** Two chunks with one digest, of whichever files, are fetched from one place. */
  lemma FetchedFromOnePlace(config: Config, sources: seq<SourceEntry>, m: Manifest, packs: seq<Bytes>, o: Outcome,
                            i: nat, k: nat, j: nat, l: nat)
    requires Built(config, sources, m, packs, o) && CollisionFree(RunOf(config, sources))
    requires i < |m.entries| && k < |m.entries[i].chunks| && j < |m.entries| && l < |m.entries[j].chunks|
    requires m.entries[i].chunks[k].length > 0 && m.entries[j].chunks[l].length > 0
    requires m.entries[i].chunks[k].sliceDigest == m.entries[j].chunks[l].sliceDigest
    ensures m.entries[i].chunks[k].frameIndex == m.entries[j].chunks[l].frameIndex
    ensures m.entries[i].chunks[k].innerOffset == m.entries[j].chunks[l].innerOffset
    ensures m.entries[i].chunks[k].length == m.entries[j].chunks[l].length
  {
    hide Built, CollisionFree;
    TableLength(config, sources, m, packs, o);
    OnePlace(config, sources, m, packs, o, i, k);
    OnePlace(config, sources, m, packs, o, j, l);
  }

  lemma OnePlace(config: Config, sources: seq<SourceEntry>, m: Manifest, packs: seq<Bytes>, o: Outcome, i: nat, k: nat)
    requires Built(config, sources, m, packs, o) && CollisionFree(RunOf(config, sources)) && |m.entries| == |sources|
    requires i < |m.entries| && k < |m.entries[i].chunks| && m.entries[i].chunks[k].length > 0
    ensures var ref := m.entries[i].chunks[k];
            ref.sliceDigest in o.v.sliceIndex &&
            o.v.sliceIndex[ref.sliceDigest] == Location(ref.frameIndex, ref.innerOffset, ref.length)
  {
    hide Built, CollisionFree, Owner, GroupedEntry, Legible, LogicalContent, PieceOk, Located;
    BuiltEntry(config, sources, m, packs, o, i);
    assert RefersTo(RunOf(config, sources), o.v, Piece(Owner(sources, i), k), m.entries[i].chunks[k]);
  }
}
