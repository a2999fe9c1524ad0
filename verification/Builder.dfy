/**
The builder (vcs/archive/build.go): one object whose fields hold the entry
table, the frame and pack tables, the frame under assembly and the dedup index.
Packing.dfy and Table.dfy state what its fields mean at every step.
 */
module Builder {
  import opened Basics
  import opened Extents
  import opened Content
  import opened Manifest
  import opened Valid
  import opened Source
  import opened Order
  import opened Packing
  import opened Table
  import opened Config
  import opened Landmark
  import opened Sealing
  import Validate
  import PackReader
  import Xxh64
  import Reading
  import Collect
  import Schedule
  import opened Refusal
  import opened Described

  class Builder {
    const config: Config
    var sources: seq<SourceEntry>
    var entries: seq<Entry>
    var frames: seq<Frame>
    var packs: seq<PackRef>
    var inodeOwner: map<u64, nat>
    var sliceIndex: map<Digest, Location>
    var pendingFrame: Bytes
    var packOpen: bool
    var packWriter: Bytes  // what the sink has accepted for the open pack
    var packHashed: Bytes  // what the two running pack digests have absorbed
    var packBytes: u64
    var sink: seq<Bytes>   // the pack objects closed so far
    var priority: PriorityBoundary
    var prioritySet: bool
    var priorityBytes: u64
    ghost var contents: seq<Bytes>
    ghost var pieces: seq<seq<Piece>>
    ghost var pendingPieces: seq<Piece>
    ghost var origins: map<Digest, Piece>
    ghost var visited: seq<nat>  // the entries whose files were opened, in order
    ghost var mark: Mark
    ghost var largeFrom: nat  // the first frame of the large-file region

    constructor (c: Config)
      ensures config == c && View() == EMPTY && Tracks() && visited == []
      ensures !prioritySet && priorityBytes == 0 && priority == PriorityBoundary(0, 0)
    {
      config := c;
      sources, entries, frames, packs := [], [], [], [];
      inodeOwner, sliceIndex := map[], map[];
      pendingFrame, packOpen, packWriter, packHashed, packBytes, sink := [], false, [], [], 0, [];
      priority, prioritySet, priorityBytes := PriorityBoundary(0, 0), false, 0;
      contents, pieces, pendingPieces, origins, visited := [], [], [], map[], [];
      mark, largeFrom := Mark(0, 0), 0;
    }

    /** The storage state of the builder as a value. */
    ghost function View(): Packing
      reads `frames, `packs, `sink, `packOpen, `packWriter, `pendingFrame, `sliceIndex, `contents, `pieces, `pendingPieces, `origins
    {
      Packing(frames, packs, sink, packOpen, packWriter, pendingFrame, sliceIndex, contents, pieces, pendingPieces, origins)
    }

    ghost function TheRun(): Run
      reads `sources
    {
      Run(sources, config.chunkSizeBytes, config.packTargetBytes, config.compressionLevel, config.windowLog)
    }

    /** The running pack digests and size follow what was written. */
    predicate Tracks()
      reads `packOpen, `packHashed, `packWriter, `packBytes
    {
      packOpen ==> packHashed == packWriter && packBytes == |packWriter|
    }

    ghost predicate Packed()
      reads `sources, `packHashed, `packBytes
      reads `frames, `packs, `sink, `packOpen, `packWriter, `pendingFrame, `sliceIndex, `contents, `pieces, `pendingPieces, `origins
    {
      Inv(TheRun(), View()) && Tracks()
    }

    // ----- packs -----

    method ClosePack() returns (r: Result<()>)
      requires Packed()
      modifies `packs, `sink, `packOpen, `packWriter
      ensures r.Ok? ==> View() == Closed(old(View())) && Packed()
      ensures r.Ok? && old(packOpen) ==>
                && |packs| == |old(packs)| + 1 && sink == old(sink) + [old(packWriter)]
                && packs[|old(packs)|].sha256 == Sha256(old(packWriter)) && packs[|old(packs)|].crc64 == Crc64(old(packWriter))
                && packs[|old(packs)|].sizeBytes == |old(packWriter)|
      ensures !old(packOpen) ==> r.Ok?
      ensures r.Err? ==> r.error == Io
    {
      hide Inv;
      ghost var v := View();
      ClosedInv(TheRun(), v);
      if !packOpen {
        return Ok(());
      }
      var fails: bool := *;
      if fails {
        return Err(Io);
      }
      packs := packs + [PackRef(Crc64(packHashed), Sha256(packHashed), packBytes)];
      sink := sink + [packWriter];
      packOpen, packWriter := false, [];
      return Ok(());
    }

    method OpenPack() returns (r: Result<()>)
      requires !packOpen
      modifies `packOpen, `packWriter, `packHashed, `packBytes
      ensures r.Ok? ==> |packs| < MAX_PACKS && View() == Opened(old(View())) && Tracks()
      ensures r == Err(Invalid) ==> |packs| >= MAX_PACKS && View() == old(View())
    {
      if |packs| >= MAX_PACKS {
        return Err(Invalid);
      }
      var fails: bool := *;
      if fails {
        return Err(Io);
      }
      packWriter, packHashed, packBytes, packOpen := [], [], 0, true;
      return Ok(());
    }

    /** Closes the open pack if a frame of this length would overfill it, and opens
        one if none is open. */
    method MakeRoom(length: nat) returns (r: Result<()>)
      requires Packed() && pendingFrame != []
      modifies `packs, `sink, `packOpen, `packWriter, `packHashed, `packBytes
      ensures r.Ok? ==> var u := Settled(config.packTargetBytes, old(View()), length);
                        && (!u.packOpen ==> |u.packs| < MAX_PACKS)
                        && View() == Reopened(u) && Tracks() && packOpen
      ensures r == Err(Invalid) ==> Refused(config, sources)
    {
      hide Inv, Refused;
      if packOpen && packBytes + length > config.packTargetBytes {
        r := ClosePack();
        if r.Err? {
          return;
        }
      }
      if !packOpen {
        ghost var v := View();
        assert Inv(TheRun(), v) && v.pending != [];
        r := OpenPack();
        if r.Err? {
          if r.error == Invalid {
            RefusedPacks(config, sources, v);
          }
          return;
        }
      }
      return Ok(());
    }

    /** Appends the encoded frame to the open pack and records it. */
    method WriteFrame(encoded: PackReader.Encoded) returns (r: Result<()>)
      requires packOpen && Tracks() && |packs| < TWO_32 && |packWriter| + |encoded.bytes| < TWO_64
      requires |pendingFrame| < TWO_64
      modifies `packWriter, `packHashed, `packBytes, `frames, `pendingFrame, `contents, `pieces, `pendingPieces
      ensures r.Ok? ==> View() == Emitted(old(View()), encoded) && Tracks()
      ensures r.Err? ==> r.error == Io
    {
      hide Xxh64.Lo32;
      var fails: bool := *;
      if fails {
        return Err(Io);
      }
      packWriter := packWriter + encoded.bytes;
      packHashed := packHashed + encoded.bytes;
      frames := frames + [Frame(|packs|, packBytes, |encoded.bytes|, |pendingFrame|, encoded.rawBlocks,
        Xxh64.Lo32(pendingFrame))];
      packBytes := packBytes + |encoded.bytes|;
      contents, pieces := contents + [pendingFrame], pieces + [pendingPieces];
      pendingFrame, pendingPieces := [], [];
      return Ok(());
    }

    /** Compresses the frame under assembly, if there is one, and writes it. */
    method FlushFrame() returns (r: Result<()>, ghost encoded: PackReader.Encoded)
      requires Packed()
      modifies `packs, `sink, `packOpen, `packWriter, `packHashed, `packBytes
      modifies `frames, `pendingFrame, `contents, `pieces, `pendingPieces
      ensures r.Ok? ==> Packed() && FlushedFrom(TheRun(), old(View()), View(), encoded)
      ensures r.Ok? && old(pendingFrame) != [] ==>
                if old(packOpen) && |old(packWriter)| + |encoded.bytes| <= config.packTargetBytes
                then packs == old(packs) && packWriter == old(packWriter) + encoded.bytes
                else |packs| == |old(packs)| + (if old(packOpen) then 1 else 0) && packWriter == encoded.bytes
      ensures old(pendingFrame) == [] ==> r.Ok?
      ensures r == Err(Invalid) ==> Refused(config, sources)
    {
      hide Inv, Grows, Encodes, Flushed, ConfigValid, MapsCanonical, MapsBounded, TooLong, FramesFull, PacksFull;
      encoded := PackReader.Encoded([], false);
      if |pendingFrame| == 0 {
        Unmoved(View().Full());
        return Ok(()), encoded;
      }
      ghost var v := View();
      PendingBounded(TheRun(), v);
      var result := EncodePending(pendingFrame);
      if result.Err? {
        return Err(result.error), encoded;
      }
      encoded := result.value;
      r := WritePending(result.value);
      if r.Ok? {
        RollsOver(TheRun(), v, View(), encoded);
      }
    }

    method WritePending(encoded: PackReader.Encoded) returns (r: Result<()>)
      requires Packed() && pendingFrame != [] && Encodes(TheRun(), encoded, pendingFrame)
      modifies `packs, `sink, `packOpen, `packWriter, `packHashed, `packBytes
      modifies `frames, `pendingFrame, `contents, `pieces, `pendingPieces
      ensures r.Ok? ==> Packed() && FlushedFrom(TheRun(), old(View()), View(), encoded)
      ensures r == Err(Invalid) ==> Refused(config, sources)
    {
      hide Inv, Grows, Encodes, Emitted, Settled, Reopened, Refused;
      ghost var v := View();
      PendingBounded(TheRun(), v);
      FlushBounds(TheRun(), v, encoded);
      r := MakeRoom(|encoded.bytes|);
      if r.Err? {
        return;
      }
      r := WriteFrame(encoded);
      if r.Err? {
        return;
      }
      CountedFrames(TheRun(), v, encoded);
      if |frames| > MAX_FRAMES {
        RefusedFrames(config, sources, v);
        return Err(Invalid);
      }
      FlushedInv(TheRun(), v, encoded);
      return Ok(());
    }

    method EncodePending(content: Bytes) returns (r: Result<PackReader.Encoded>)
      requires 0 < |content| <= MAX_CHUNK_SIZE
      ensures r.Ok? ==> Encodes(TheRun(), r.value, content)
      ensures r == Err(Invalid) ==> !ConfigValid(config)
    {
      r := PackReader.EncodeFrame(config.compressionLevel, config.windowLog, content);
      PackReader.RawSizePositive(|content|, config.windowLog);
    }

    // ----- chunks -----

    /** Deduplicates one chunk's stored bytes, or puts them into the frame under
        assembly; a large file's chunk is a frame of its own. */
    method PlaceChunk(ghost p: Piece, stored: Bytes, extents: seq<Extent>, inShared: bool) returns (r: Result<ChunkRef>)
      requires Packed() && PieceOk(TheRun(), p) && (!inShared ==> pendingFrame == [])
      requires stored == SliceOf(TheRun(), p)
      requires extents == ChunkExtents(sources[p.owner], config.chunkSizeBytes, p.chunk)
      modifies `packs, `sink, `packOpen, `packWriter, `packHashed, `packBytes
      modifies `frames, `pendingFrame, `contents, `pieces, `pendingPieces, `sliceIndex, `origins
      ensures r.Ok? ==> Packed() && Placed(TheRun(), old(View()), View(), p, r.value, inShared)
      ensures r == Err(Invalid) ==> Refused(config, sources)
    {
      hide Inv, Extends, PieceOk, SliceOf, ChunkExtents, Placed, Refused;
      if |extents| > MAX_EXTENTS_PER_CHUNK {
        RefusedPiece(config, sources, p);
        return Err(Invalid);
      }
      if |stored| == 0 {
        PlacedNowhere(TheRun(), View(), p, inShared);
        return Ok(ChunkRef(NO_FRAME, 0, 0, EmptySliceDigest(), extents));
      }
      var digest := Sha256(stored);
      if digest in sliceIndex && sliceIndex[digest].length == |stored| {
        var existing := sliceIndex[digest];
        PlacedBefore(TheRun(), View(), p, inShared);
        return Ok(ChunkRef(existing.frameIndex, existing.innerOffset, existing.length, digest, extents));
      }
      if inShared {
        r := PlaceShared(p, stored, extents);
      } else {
        r := PlaceAlone(p, stored, extents);
      }
    }

    /** The small-file path: frames fill to the chunk size across files. */
    method PlaceShared(ghost p: Piece, stored: Bytes, extents: seq<Extent>) returns (r: Result<ChunkRef>)
      requires Packed() && PieceOk(TheRun(), p) && stored == SliceOf(TheRun(), p) != [] && Unseen(View(), stored)
      requires extents == ChunkExtents(sources[p.owner], config.chunkSizeBytes, p.chunk) && |extents| <= MAX_EXTENTS_PER_CHUNK
      modifies `packs, `sink, `packOpen, `packWriter, `packHashed, `packBytes
      modifies `frames, `pendingFrame, `contents, `pieces, `pendingPieces, `sliceIndex, `origins
      ensures r.Ok? ==> Packed() && Placed(TheRun(), old(View()), View(), p, r.value, true)
      ensures r == Err(Invalid) ==> Refused(config, sources)
    {
      hide Inv, Extends, PieceOk, ChunkExtents, Placed, FlushedFrom, Added, Refused;
      hide KeepsPositions, AllSmall, Inventory;
      SliceBounds(TheRun(), p);
      hide SliceOf;
      ghost var v := View();
      Stays(TheRun(), v);
      if |pendingFrame| + |stored| > config.chunkSizeBytes {
        var flushed;
        ghost var encoded;
        flushed, encoded := FlushFrame();
        if flushed.Err? {
          return Err(flushed.error);
        }
        FlushAdvances(TheRun(), v, View(), encoded);
      }
      PlacedShared(TheRun(), v, View(), p);
      var ref := AddSlice(p, stored, extents);
      return Ok(ref);
    }

    /** The large-file path: the chunk is the frame. */
    method PlaceAlone(ghost p: Piece, stored: Bytes, extents: seq<Extent>) returns (r: Result<ChunkRef>)
      requires Packed() && PieceOk(TheRun(), p) && stored == SliceOf(TheRun(), p) != [] && pendingFrame == []
      requires Unseen(View(), stored)
      requires extents == ChunkExtents(sources[p.owner], config.chunkSizeBytes, p.chunk) && |extents| <= MAX_EXTENTS_PER_CHUNK
      modifies `packs, `sink, `packOpen, `packWriter, `packHashed, `packBytes
      modifies `frames, `pendingFrame, `contents, `pieces, `pendingPieces, `sliceIndex, `origins
      ensures r.Ok? ==> Packed() && Placed(TheRun(), old(View()), View(), p, r.value, false)
      ensures r == Err(Invalid) ==> Refused(config, sources)
    {
      hide Inv, Extends, PieceOk, SliceOf, ChunkExtents, Placed, FlushedFrom, Added, Refused;
      ghost var v := View();
      var ref := AddSlice(p, stored, extents);
      var flushed;
      ghost var encoded;
      flushed, encoded := FlushFrame();
      if flushed.Err? {
        return Err(flushed.error);
      }
      PlacedAlone(TheRun(), v, View(), encoded, p);
      return Ok(ref);
    }

    method AddSlice(ghost p: Piece, stored: Bytes, extents: seq<Extent>) returns (ref: ChunkRef)
      requires Packed() && PieceOk(TheRun(), p) && stored == SliceOf(TheRun(), p) != [] && Unseen(View(), stored)
      requires |pendingFrame| + |stored| <= config.chunkSizeBytes
      modifies `pendingFrame, `pendingPieces, `sliceIndex, `origins
      ensures Packed() && |old(frames)| < NO_FRAME && |old(pendingFrame)| < TWO_64 && |stored| < TWO_64
      ensures View() == Added(old(View()), p, stored)
      ensures ref == RefAt(old(View()), stored, extents)
    {
      hide Inv, Extends, PieceOk, SliceOf;
      ghost var v := View();
      AddBounds(TheRun(), v);
      AddedInv(TheRun(), v, p);
      var digest := Sha256(stored);
      ref := ChunkRef(|frames|, |pendingFrame|, |stored|, digest, extents);
      sliceIndex := sliceIndex[digest := Location(|frames|, |pendingFrame|, |stored|)];
      pendingFrame := pendingFrame + stored;
      pendingPieces, origins := pendingPieces + [p], origins[digest := p];
    }

    // ----- files -----

    /** The inodes whose content has been stored. */
    ghost function Done(): set<nat>
      reads `visited
    {
      set o | o in visited
    }

    ghost predicate Good()
      reads `sources, `entries, `visited, `packHashed, `packBytes
      reads `frames, `packs, `sink, `packOpen, `packWriter, `pendingFrame, `sliceIndex, `contents, `pieces, `pendingPieces, `origins
    {
      Packed() && Collectable(sources) && TableOk(TheRun(), View(), entries, Done())
    }

    /** Copies an inode's content to every other link to it. */
    method PropagateToLinks(owner: nat)
      requires |entries| == |sources| && owner < |sources| && Owns(sources, owner)
      requires entries[owner].hardlinkGroup == GroupNumber(sources, owner)
      modifies `entries
      ensures Propagated(sources, old(entries), entries, owner, old(entries)[owner].contentDigest, old(entries)[owner].chunks)
    {
      hide Owner, GroupNumber;
      var before := entries;
      var key := sources[owner].inodeKey;
      if key == 0 || entries[owner].hardlinkGroup == 0 {
        forall i | 0 <= i < |sources|
          ensures Owner(sources, i) == owner ==> i == owner
        {
          OnlyLink(sources, owner, i);
        }
        return;
      }
      var table := entries;
      for index := 0 to |sources|
        invariant |table| == |sources| && table[owner] == before[owner]
        invariant forall i :: 0 <= i < |sources| ==>
                    table[i] == if i < index && Owner(sources, i) == owner
                                then before[i].(contentDigest := before[owner].contentDigest, chunks := before[owner].chunks)
                                else before[i]
      {
        OnlyLink(sources, owner, index);
        if index == owner || sources[index].inodeKey != key {
          continue;
        }
        table := table[index := table[index].(contentDigest := table[owner].contentDigest, chunks := table[owner].chunks)];
      }
      entries := table;
    }

    /** Records an inode's content under all its names. */
    method SetContent(owner: nat, digest: Digest, chunks: seq<ChunkRef>)
      requires |entries| == |sources| && owner < |sources| && Owns(sources, owner)
      requires entries[owner].hardlinkGroup == GroupNumber(sources, owner)
      modifies `entries
      ensures Propagated(sources, old(entries), entries, owner, digest, chunks)
    {
      hide Owner, GroupNumber;
      entries := entries[owner := entries[owner].(contentDigest := digest, chunks := chunks)];
      PropagateToLinks(owner);
    }

    /** Opens one file, reads its only chunk, and closes it. */
    method ReadChunk(owner: nat) returns (r: Result<Reading.ChunkRead>)
      requires Collectable(sources) && owner < |sources| && Owns(sources, owner)
      requires sources[owner].size <= config.chunkSizeBytes
      modifies `visited
      ensures r.Ok? ==> visited == old(visited) + [owner] && SoleChunk(TheRun(), owner, r.value)
      ensures r == Err(Invalid) ==> Refused(config, sources)
    {
      var s := sources[owner];
      HasFile(sources, owner);
      OneChunk(TheRun(), owner);
      hide Collectable, Owns, ChunkLegible, ChunkBytes, ChunkExtents, ChunkStart, ChunkStop, ChunksNeeded, Logical, Refused;
      hide Canonical;
      var fails: bool := *;
      if fails {
        return Err(Io);
      }
      visited := visited + [owner];
      var extents := Reading.FileExtents(s.file.value, s.size);
      if extents.Err? {
        if extents.error == Invalid {
          RefusedMap(config, sources, owner);
        }
        return Err(extents.error);
      }
      r := Reading.ReadChunkFrom(s, config.chunkSizeBytes, 0, []);
    }

    /** Stores one file of at most one chunk. */
    method StoreSmall(unit: ContentUnit) returns (r: Result<()>)
      requires Good() && IsUnit(sources, unit) && unit.size <= config.chunkSizeBytes
      modifies `packs, `sink, `packOpen, `packWriter, `packHashed, `packBytes
      modifies `frames, `pendingFrame, `contents, `pieces, `pendingPieces, `sliceIndex, `origins
      modifies `entries, `visited
      ensures r.Ok? ==> Good() && visited == old(visited) + [unit.owner]
      ensures r.Ok? ==> Stored(TheRun(), old(View()), View(), old(entries), entries, unit.owner)
      ensures r.Ok? && AllSmall(TheRun(), old(View())) ==> AllSmall(TheRun(), View())
      ensures r.Ok? && Stocked(old(View()), old(Done())) ==> Stocked(View(), Done())
      ensures r == Err(Invalid) ==> Refused(config, sources)
    {
      hide Refused, Inv, PieceOk, SliceOf, Placed, Stocked, TableOk, Propagated, AllSmall, Extends, KeepsPositions, Collectable, Stored;
      hide SoleChunk, GroupNumber, Owns, ChunkExtents, Sealed;
      var owner := unit.owner;
      ghost var run, v, before, done := TheRun(), View(), entries, Done();
      InTable(run, v, entries, done, owner);
      var read := ReadChunk(owner);
      if read.Err? {
        return Err(read.error);
      }
      SolePiece(run, owner, read.value);
      var chunk := PlaceChunk(Piece(owner, 0), read.value.stored, read.value.extents, true);
      if chunk.Err? {
        return Err(chunk.error);
      }
      SmallSealed(run, v, View(), owner, chunk.value, read.value);
      SmallStocked(run, v, View(), owner, chunk.value, done);
      SetContent(owner, Sha256(read.value.digest), [chunk.value]);
      ContentRecorded(run, v, View(), before, entries, done, owner, Sha256(read.value.digest), [chunk.value]);
      assert Done() == done + {owner};
      return Ok(());
    }

    // ----- the prefetch boundary -----

    /** The boundary after n small files: set with its meaning, or still short of
        the quota. */
    ghost predicate Prioritized(small: seq<ContentUnit>, n: nat)
      requires n <= |small|
      reads this
    {
      if prioritySet then
        mark.files <= n && Marked(small, entries, View(), priority, config.priorityLogicalBytes, mark)
      else
        priorityBytes == Total(UnitSize, small[..n]) < config.priorityLogicalBytes
    }

    /** The builder after the first n small files. */
    ghost predicate Midway(small: seq<ContentUnit>, n: nat)
      reads this
    {
      && Good() && AllSmall(TheRun(), View()) && Stocked(View(), Done())
      && n <= |small| && AllUnits(sources, small) && Apart(small)
      && (forall j :: 0 <= j < |small| ==> small[j].size <= config.chunkSizeBytes)
      && Visits(visited, small[..n])
      && Prioritized(small, n)
    }

    /** Records the boundary at the current write position. */
    method SetPriorityHere(ghost files: nat)
      requires Packed()
      modifies `priority, `prioritySet, `mark
      ensures prioritySet && mark == Mark(|frames|, files)
      ensures priority.packIndex == |packs| && priority.packOffset == |packWriter|
    {
      hide Inv;
      WriterBounds(TheRun(), View());
      var offset := 0;
      if packOpen {
        offset := packBytes;
      }
      priority := PriorityBoundary(|packs|, offset);
      prioritySet := true;
      mark := Mark(|frames|, files);
    }

    /** Stores small file n and moves the boundary bookkeeping past it. */
    method WriteSmallFile(unit: ContentUnit, ghost small: seq<ContentUnit>, ghost n: nat) returns (r: Result<()>)
      requires Midway(small, n) && n < |small| && unit == small[n]
      modifies this
      ensures r.Ok? ==> sources == old(sources) && Midway(small, n + 1)
      ensures r == Err(Invalid) ==> Refused(config, old(sources)) || Total(UnitSize, small) >= TWO_64
    {
      hide Refused, Good, Apart, AllUnits, Marked, Visits, AllSmall, Stocked, Stored, Total;
      ghost var before, v := entries, View();
      UnitAt(sources, small, n);
      ApartAt(small, n);
      r := StoreSmall(unit);
      if r.Err? {
        return;
      }
      Visited(old(visited), small, n);
      if prioritySet {
        LaterFile(TheRun(), small, n, unit.owner, before, entries, v, View(), priority, config.priorityLogicalBytes, mark);
        return;
      }
      r := CountTowardQuota(unit, small, n);
    }

    /** Counts a small file toward the quota, and lands the boundary on reaching it. */
    method CountTowardQuota(unit: ContentUnit, ghost small: seq<ContentUnit>, ghost n: nat) returns (r: Result<()>)
      requires Good() && AllSmall(TheRun(), View()) && Stocked(View(), Done()) && !prioritySet
      requires n < |small| && unit == small[n] && AllUnits(sources, small) && Visits(visited, small[..n + 1])
      requires priorityBytes == Total(UnitSize, small[..n]) < config.priorityLogicalBytes
      modifies `packs, `sink, `packOpen, `packWriter, `packHashed, `packBytes
      modifies `frames, `pendingFrame, `contents, `pieces, `pendingPieces
      modifies `priority, `prioritySet, `mark, `priorityBytes
      ensures r.Ok? ==> Good() && AllSmall(TheRun(), View()) && Stocked(View(), Done()) && Prioritized(small, n + 1)
      ensures r == Err(Invalid) ==> Refused(config, sources) || Total(UnitSize, small) >= TWO_64
    {
      hide Refused, Good, AllUnits, Marked, Visits, AllSmall, Stocked, Total;
      TotalStep(UnitSize, small, n);
      var sum := CheckedAdd(priorityBytes, unit.size);
      if sum.None? {
        return Err(Invalid);
      }
      priorityBytes := sum.value;
      if priorityBytes < config.priorityLogicalBytes {
        return Ok(());
      }
      r := FlushSmall();
      if r.Err? {
        return;
      }
      LandHere(small, n + 1);
    }

    /** Writes out the frame under assembly between small files. */
    method FlushSmall() returns (r: Result<()>)
      requires Good() && AllSmall(TheRun(), View())
      modifies `packs, `sink, `packOpen, `packWriter, `packHashed, `packBytes
      modifies `frames, `pendingFrame, `contents, `pieces, `pendingPieces
      ensures r.Ok? ==> Good() && AllSmall(TheRun(), View()) && pendingFrame == []
      ensures r.Ok? ==> KeepsPositions(old(View()), View())
      ensures r.Ok? && Stocked(old(View()), Done()) ==> Stocked(View(), Done())
      ensures r == Err(Invalid) ==> Refused(config, sources)
    {
      hide Refused, Inv, AllSmall, Stocked, TableOk, FlushedFrom, Collectable, Advances, KeepsPositions;
      ghost var run, v := TheRun(), View();
      ghost var encoded;
      r, encoded := FlushFrame();
      if r.Err? {
        return;
      }
      FlushAdvances(run, v, View(), encoded);
      AdvancedTable(run, v, View(), entries, Done());
    }

    /** Lands the boundary here, after n files. */
    method LandHere(ghost small: seq<ContentUnit>, ghost n: nat)
      requires Good() && pendingFrame == [] && Stocked(View(), Done())
      requires n <= |small| && AllUnits(sources, small) && Visits(visited, small[..n])
      requires config.priorityLogicalBytes <= Total(UnitSize, small[..n]) || n == |small|
      requires n > 0 ==> Total(UnitSize, small[..n - 1]) < config.priorityLogicalBytes
      modifies `priority, `prioritySet, `mark
      ensures prioritySet && mark.files == n
      ensures Marked(small, entries, View(), priority, config.priorityLogicalBytes, mark)
    {
      hide Inv, Marked, AllUnits, Visits, TableOk, Total, Collectable, Stocked, Among;
      SetPriorityHere(n);
      CountsAgree(TheRun(), View());
      VisitedDone(visited, small, n);
      MarkedHere(TheRun(), small, n, entries, View(), Done(), priority, config.priorityLogicalBytes);
    }

    // ----- large files -----

    /** Reads and stores chunk k of an open file as a frame of its own. */
    method StoreChunk(owner: nat, k: u64, digest: Bytes) returns (r: Result<(ChunkRef, Bytes)>)
      requires Packed() && pendingFrame == [] && ChunkReady(TheRun(), owner, k)
      modifies `packs, `sink, `packOpen, `packWriter, `packHashed, `packBytes
      modifies `frames, `pendingFrame, `contents, `pieces, `pendingPieces, `sliceIndex, `origins
      ensures r.Ok? ==> Packed() && PieceOk(TheRun(), Piece(owner, k))
      ensures r.Ok? ==> Placed(TheRun(), old(View()), View(), Piece(owner, k), r.value.0, false)
      ensures r.Ok? ==> r.value.1 == digest + SpanContent(TheRun(), owner, k)
      ensures r == Err(Invalid) ==> Refused(config, sources)
    {
      hide Refused, Inv, PieceOk, SliceOf, Placed, Canonical, ChunkLegible, ChunkBytes, ChunkExtents, ChunksNeeded, Logical, Owns;
      hide ChunkStart, ChunkStop;
      ReadyPiece(TheRun(), owner, k);
      var read := Reading.ReadChunkFrom(sources[owner], config.chunkSizeBytes, k, digest);
      if read.Err? {
        return Err(read.error);
      }
      var chunk := PlaceChunk(Piece(owner, k), read.value.stored, read.value.extents, false);
      if chunk.Err? {
        return Err(chunk.error);
      }
      return Ok((chunk.value, read.value.digest));
    }

    /** Opens, reads and stores one file of more than one chunk. */
    method WriteLargeFile(unit: ContentUnit, ghost n: nat) returns (r: Result<()>)
      requires Good() && pendingFrame == [] && Classed(TheRun(), View(), n)
      requires IsUnit(sources, unit) && unit.size > config.chunkSizeBytes > 0
      modifies `packs, `sink, `packOpen, `packWriter, `packHashed, `packBytes
      modifies `frames, `pendingFrame, `contents, `pieces, `pendingPieces, `sliceIndex, `origins
      modifies `entries, `visited
      ensures r.Ok? ==> Good() && pendingFrame == [] && Classed(TheRun(), View(), n)
      ensures r.Ok? ==> visited == old(visited) + [unit.owner]
      ensures r.Ok? ==> Stored(TheRun(), old(View()), View(), old(entries), entries, unit.owner)
      ensures r == Err(Invalid) ==> Refused(config, sources)
    {
      hide Refused, Inv, PieceOk, TableOk, Propagated, Classed, KeepsPositions, Extends, Collectable, Stored, GroupNumber, Owns;
      hide LargeSoFar, Sealed, ChunksNeeded;
      var owner := unit.owner;
      ghost var run, v, before, done := TheRun(), View(), entries, Done();
      InTable(run, v, entries, done, owner);
      var stored := StoreChunks(unit, n);
      if stored.Err? {
        return Err(stored.error);
      }
      LargeSealed(run, v, View(), n, owner, stored.value.0, stored.value.1);
      SetContent(owner, Sha256(stored.value.1), stored.value.0);
      ContentRecorded(run, v, View(), before, entries, done, owner, Sha256(stored.value.1), stored.value.0);
      assert Done() == done + {owner};
      return Ok(());
    }

    method StoreChunks(unit: ContentUnit, ghost n: nat) returns (r: Result<(seq<ChunkRef>, Bytes)>)
      requires Packed() && Collectable(sources) && pendingFrame == [] && Classed(TheRun(), View(), n)
      requires IsUnit(sources, unit) && unit.size > config.chunkSizeBytes > 0
      modifies `packs, `sink, `packOpen, `packWriter, `packHashed, `packBytes
      modifies `frames, `pendingFrame, `contents, `pieces, `pendingPieces, `sliceIndex, `origins
      modifies `visited
      ensures r.Ok? ==> Packed() && pendingFrame == [] && visited == old(visited) + [unit.owner]
      ensures r.Ok? ==> |r.value.0| == ChunksNeeded(unit.size, config.chunkSizeBytes)
      ensures r.Ok? ==> LargeSoFar(TheRun(), old(View()), View(), n, unit.owner, r.value.0, r.value.1)
      ensures r == Err(Invalid) ==> Refused(config, sources)
    {
      hide Refused, Inv, Collectable, Owner, Canonical, ChunksNeeded, LargeSoFar, Placed, Classed, PieceOk, ChunkReady, SpanContent;
      var owner := unit.owner;
      var s := sources[owner];
      HasFile(sources, owner);
      var chunkCount := CountChunks(unit.size, config.chunkSizeBytes);
      if chunkCount > MAX_CHUNKS {
        RefusedLong(config, sources, owner);
        return Err(Invalid);
      }
      var fails: bool := *;
      if fails {
        return Err(Io);
      }
      visited := visited + [owner];
      var extents := Reading.FileExtents(s.file.value, s.size);
      if extents.Err? {
        if extents.error == Invalid {
          RefusedMap(config, sources, owner);
        }
        return Err(extents.error);
      }
      ghost var run, v := TheRun(), View();
      var chunks: seq<ChunkRef> := [];
      var digest: Bytes := [];
      LargeBegins(run, v, n, owner);
      for k := 0 to chunkCount
        invariant |chunks| == k && Packed() && pendingFrame == []
        invariant visited == old(visited) + [owner]
        invariant LargeSoFar(run, v, View(), n, owner, chunks, digest)
      {
        ghost var w := View();
        ReadyAt(run, unit, k);
        var stored := StoreChunk(owner, k, digest);
        if stored.Err? {
          return Err(stored.error);
        }
        LargeStep(run, v, w, View(), n, owner, chunks, digest, stored.value.0);
        chunks := chunks + [stored.value.0];
        digest := stored.value.1;
      }
      return Ok((chunks, digest));
    }

    // ----- all content -----

    /** The schedule covers every inode with bytes once, small files first. */
    ghost predicate Planned(small: seq<ContentUnit>, large: seq<ContentUnit>)
      reads `sources
    {
      && OnceEach(sources, multiset(small + large))
      && (forall j :: 0 <= j < |small| ==> small[j].size <= config.chunkSizeBytes)
      && (forall j :: 0 <= j < |large| ==> large[j].size > config.chunkSizeBytes)
    }

    /** The builder among the large files, k of them written. */
    ghost predicate Later(small: seq<ContentUnit>, large: seq<ContentUnit>, k: nat)
      reads this
    {
      && Good() && pendingFrame == []
      && prioritySet && mark.frame <= largeFrom
      && Marked(small, entries, View(), priority, config.priorityLogicalBytes, mark)
      && Classed(TheRun(), View(), largeFrom)
      && k <= |large| && Visits(visited, small + large[..k])
    }

    method WriteSmallFiles(small: seq<ContentUnit>) returns (r: Result<()>)
      requires Midway(small, 0)
      modifies this
      ensures r.Ok? ==> sources == old(sources) && Midway(small, |small|)
      ensures r == Err(Invalid) ==> Refused(config, old(sources)) || Total(UnitSize, small) >= TWO_64
    {
      hide Refused, Midway, Total;
      for n := 0 to |small|
        invariant sources == old(sources) && Midway(small, n)
      {
        r := WriteSmallFile(small[n], small, n);
        if r.Err? {
          return;
        }
      }
      return Ok(());
    }

    /** Lands the boundary at the end of the small files if it is not set yet. */
    method SettleBoundary(ghost small: seq<ContentUnit>, ghost v: Packing)
      requires Good() && pendingFrame == [] && AllUnits(sources, small) && Visits(visited, small)
      requires Stocked(View(), Done()) && KeepsPositions(v, View())
      requires prioritySet ==> Marked(small, entries, v, priority, config.priorityLogicalBytes, mark)
      requires !prioritySet ==> Total(UnitSize, small) < config.priorityLogicalBytes
      modifies `priority, `prioritySet, `mark
      ensures prioritySet && Marked(small, entries, View(), priority, config.priorityLogicalBytes, mark)
    {
      hide Good, AllUnits, Marked, Visits, Total, KeepsPositions, Stocked;
      PrefixWhole(small);
      if !prioritySet {
        TotalStepBack(small);
        LandHere(small, |small|);
      } else {
        MarkedKept(small, entries, entries, v, View(), priority, config.priorityLogicalBytes, mark);
      }
    }

    /** Ends the small-file region on a frame boundary, so that no prefetched frame
        holds a large file's bytes. */
    method EndSmallRegion(ghost small: seq<ContentUnit>) returns (r: Result<()>)
      requires Midway(small, |small|)
      modifies this
      ensures r.Ok? ==> sources == old(sources) && Later(small, [], 0)
      ensures r == Err(Invalid) ==> Refused(config, old(sources))
    {
      hide Refused, Inv, TableOk, Collectable, Apart, AllUnits, Marked, Visits, AllSmall, Stocked, Total, KeepsPositions, Classed;
      PrefixWhole(small);
      ghost var v := View();
      r := FlushSmall();
      if r.Err? {
        return;
      }
      SettleBoundary(small, v);
      largeFrom := |frames|;
      MarkBounded(small, entries, View(), priority, config.priorityLogicalBytes, mark);
      SmallRegion(TheRun(), View());
      assert small + [][..0] == small;
      return Ok(());
    }

    method WriteLargeFiles(ghost small: seq<ContentUnit>, large: seq<ContentUnit>) returns (r: Result<()>)
      requires Planned(small, large) && Later(small, [], 0) && config.chunkSizeBytes > 0
      modifies this
      ensures r.Ok? ==> sources == old(sources) && Later(small, large, |large|)
      ensures r == Err(Invalid) ==> Refused(config, old(sources))
    {
      hide Refused, Good, OnceEach, Marked, Visits, Classed, Stored, IsUnit;
      assert [][..0] == large[..0];
      for k := 0 to |large|
        invariant sources == old(sources) && Later(small, large, k)
      {
        ghost var before, v, entered := entries, View(), visited;
        LargeUnit(TheRun(), small, large, k);
        MarkBounded(small, entries, View(), priority, config.priorityLogicalBytes, mark);
        r := WriteLargeFile(large[k], largeFrom);
        if r.Err? {
          return;
        }
        LaterFile(TheRun(), small, |small|, large[k].owner, before, entries, v, View(), priority,
          config.priorityLogicalBytes, mark);
        VisitedLarge(entered, small, large, k);
      }
      return Ok(());
    }

    /** The builder once groups are groups and nothing is written yet. */
    ghost predicate Prepared()
      reads this
    {
      && Packed() && View() == EMPTY && 0 < config.chunkSizeBytes
      && Collectable(sources) && LinksClosed(sources)
      && Collect.GroupedUpTo(sources, |sources|, entries) && Collect.Owners(sources, |sources|, inodeOwner)
      && visited == [] && !prioritySet && priorityBytes == 0 && priority == PriorityBoundary(0, 0)
    }

    ghost function Result(): Outcome
      reads this
    {
      Outcome(View(), entries, priority, mark, largeFrom, visited)
    }

    /** Decides the schedule. */
    method PlanContent() returns (small: seq<ContentUnit>, large: seq<ContentUnit>)
      requires Collect.Owners(sources, |sources|, inodeOwner)
      ensures small == SmallOrder(sources, config.chunkSizeBytes) && large == LargeOrder(sources, config.chunkSizeBytes)
      ensures Planned(small, large) && AllUnits(sources, small) && Apart(small)
    {
      hide Collect.Owners, Units, SmallOf, LargeOf, ByLocality, OnceEach, AllUnits, Apart;
      var units := Schedule.ContentUnits(sources, inodeOwner);
      var shorter;
      shorter, large := Schedule.SplitClasses(units, config.chunkSizeBytes);
      SmallOwned(sources, config.chunkSizeBytes);
      small := Schedule.GroupByLocality(sources, shorter);
      OrderOnce(sources, config.chunkSizeBytes);
      PlanUnits(sources, small, large);
    }

    /** Without a quota there is no prefetch region: the boundary stays at the start. */
    method BeginContent(ghost small: seq<ContentUnit>)
      requires Prepared() && AllUnits(sources, small) && Apart(small)
      requires forall j :: 0 <= j < |small| ==> small[j].size <= config.chunkSizeBytes
      modifies `prioritySet, `mark
      ensures Midway(small, 0)
    {
      hide Inv, LinksClosed, Collectable, Collect.Owners, Collect.GroupedUpTo, AllUnits, Apart, TableOk, AllSmall, Marked;
      if config.priorityLogicalBytes == 0 {
        prioritySet := true;
        mark := Mark(0, 0);
      }
      NothingWritten(TheRun(), entries);
      NothingMarked(small, entries);
      assert small[..0] == [] && Done() == {};
    }

    /** Closes the last pack. */
    method CloseLast(ghost small: seq<ContentUnit>, ghost large: seq<ContentUnit>) returns (r: Result<()>)
      requires Later(small, large, |large|)
      modifies `packs, `sink, `packOpen, `packWriter
      ensures r.Ok? ==> Later(small, large, |large|) && !packOpen
      ensures r.Err? ==> r.error == Io
    {
      hide Inv, Collectable, TableOk, Visits, Marked, Classed;
      ghost var v := View();
      WriterBounds(TheRun(), v);
      r := ClosePack();
      if r.Err? {
        return;
      }
      MarkedClosed(TheRun(), v, small, entries, priority, config.priorityLogicalBytes, mark, largeFrom);
      TableGrow(TheRun(), v, View(), entries, Done());
    }

    /** Stores every distinct inode's bytes: small files first, then large ones. */
    method WriteContent() returns (r: Result<()>)
      requires Prepared()
      modifies this
      ensures r.Ok? ==> sources == old(sources) && Finished(config, sources, Result()) && Tracks() && prioritySet
      ensures r == Err(Invalid) ==> Refused(config, old(sources))
    {
      hide Refused, Total, Inv, Collectable, LinksClosed, SmallOrder, LargeOrder, TableOk, Visits, Marked, Classed, Midway, OnceEach;
      hide AllUnits, Apart, Collect.Owners, Collect.GroupedUpTo;
      var small, large := PlanContent();
      QuotaBounded(TheRun(), View());
      BeginContent(small);
      r := WriteSmallFiles(small);
      if r.Err? {
        return;
      }
      r := EndSmallRegion(small);
      if r.Err? {
        return;
      }
      r := WriteLargeFiles(small, large);
      if r.Err? {
        return;
      }
      r := CloseLast(small, large);
      PrefixWhole(large);
    }

    // ----- from walk to manifest -----

    /** Drains the walk into the source and entry tables. */
    method CollectWalk(walk: Collect.Walk) returns (r: Result<()>)
      requires walk.at == 0
      modifies walk, `sources, `entries
      ensures r.Ok? ==> Collectable(sources) && sources == walk.entries && entries == Collect.BareEntries(sources)
      ensures r == Err(Invalid) ==> !Collectable(walk.entries)
    {
      var collected := Collect.Collected(walk);
      if collected.Err? {
        return Err(collected.error);
      }
      sources, entries := collected.value.0, collected.value.1;
      return Ok(());
    }

    /** Turns inode keys into dense group numbers, or refuses an open group. */
    method AssignHardlinkGroups() returns (r: Result<()>)
      requires |sources| <= MAX_ENTRIES && entries == Collect.BareEntries(sources)
      modifies `entries, `inodeOwner
      ensures r.Ok? <==> LinksClosed(sources)
      ensures r.Ok? ==> Collect.GroupedUpTo(sources, |sources|, entries) && Collect.Owners(sources, |sources|, inodeOwner)
    {
      var groups := Collect.AssignGroups(sources, entries);
      if groups.None? {
        return Err(Invalid);
      }
      entries, inodeOwner := groups.value.0, groups.value.1;
      return Ok(());
    }

    /** Assembles the manifest and validates it. Under a library that round-trips,
        validation accepts it exactly when the walk was well formed and the totals
        are within the format's bounds. */
    method Finish() returns (r: Result<Manifest>)
      requires ConfigValid(config) && Finished(config, sources, Result()) && Tracks() && prioritySet
      modifies `packs, `sink, `packOpen, `packWriter, `packHashed, `packBytes
      modifies `frames, `pendingFrame, `contents, `pieces, `pendingPieces
      ensures Result() == old(Result())
      ensures r.Ok? ==> Built(config, sources, r.value, sink, Result()) && ValidManifest(r.value)
      ensures PackReader.ZstdRoundTrips() ==>
                (r.Ok? <==> WellFormed(sources) && TotalsFit(entries) && ChunkCount(entries) <= MAX_CHUNKS)
    {
      hide Inv, TableOk, Visits, Marked, Classed, Collectable, LinksClosed, SmallOrder, LargeOrder, ConfigValid, Grows;
      var flushed;
      ghost var encoded;
      flushed, encoded := FlushFrame();
      var closed := ClosePack();
      WriterBounds(TheRun(), View());
      assert Result() == old(Result());
      hide Finished;
      r := Assemble();
    }

    method Assemble() returns (r: Result<Manifest>)
      requires ConfigValid(config) && Finished(config, sources, Result()) && |packs| <= MAX_PACKS
      ensures r.Ok? ==> Built(config, sources, r.value, sink, Result()) && ValidManifest(r.value)
      ensures PackReader.ZstdRoundTrips() ==>
                (r.Ok? <==> WellFormed(sources) && TotalsFit(entries) && ChunkCount(entries) <= MAX_CHUNKS)
    {
      hide Finished, ConfigValid, ValidManifest, WellFormed, ChunkCount, LogicalBytes, LogicalInodes, AllocatedBytes;
      hide PackReader.ZstdRoundTrips;
      FinishedTable(config, sources, Result());
      CollectedSize(sources);
      InodesBounded(entries);
      var logical := Validate.LogicalTotals(entries);
      if logical.None? {
        return Err(Invalid);
      }
      var allocation := Validate.SealedAllocation(entries);
      if allocation.None? {
        return Err(Invalid);
      }
      var boundary := priority;
      if boundary.packIndex < |packs| && boundary.packOffset == packs[boundary.packIndex].sizeBytes {
        boundary := PriorityBoundary(boundary.packIndex + 1, 0);
      }
      var manifest := Manifest(
        Header(FORMAT_VERSION, config.chunkSizeBytes, config.compressionLevel, config.windowLog, config.volumeId,
               config.sealedEpoch, config.attempt, logical.value.0, logical.value.1, allocation.value, |entries|,
               boundary, packs),
        entries, frames);
      if PackReader.ZstdRoundTrips() {
        ManifestValid(config, sources, Result());
      }
      var ok := Validate.Validate(manifest);
      if !ok {
        return Err(Invalid);
      }
      return Ok(manifest);
    }
  }

  lemma Unmoved(full: seq<Bytes>)
    ensures Grows(full, full)
  {
  }

  /** What flushing did to the storage state. */
  ghost predicate FlushedFrom(run: Run, v: Packing, w: Packing, encoded: PackReader.Encoded) {
    && Grows(v.Full(), w.Full())
    && if v.pending == [] then w == v
       else
         && Encodes(run, encoded, v.pending)
         && |v.packs| < TWO_32 - 1 && |v.packWriter| < TWO_64 && |v.pending| < TWO_64
         && w == Flushed(run.target, v, encoded)
  }

  /** A frame goes to the open pack exactly when the pack stays within its target. */
  lemma RollsOver(run: Run, v: Packing, w: Packing, encoded: PackReader.Encoded)
    requires v.pending != [] && FlushedFrom(run, v, w, encoded)
    ensures if v.packOpen && |v.packWriter| + |encoded.bytes| <= run.target
            then w.packs == v.packs && w.packWriter == v.packWriter + encoded.bytes
            else |w.packs| == |v.packs| + (if v.packOpen then 1 else 0) && w.packWriter == encoded.bytes
  {
    hide Grows, Encodes, Xxh64.Lo32;
  }

  lemma PendingBounded(run: Run, v: Packing)
    requires Inv(run, v)
    ensures |v.pending| <= run.chunkSize <= MAX_CHUNK_SIZE
  {
    hide Recorded, Framed, Filled, Tiled, Indexed, Assembled, Deduplicated;
  }

  lemma CountedFrames(run: Run, v: Packing, encoded: PackReader.Encoded)
    requires Inv(run, v) && Encodes(run, encoded, v.pending)
    requires |v.packs| < TWO_32 - 1 && |v.packWriter| < TWO_64
    ensures |Flushed(run.target, v, encoded).frames| == |v.frames| + 1
  {
    hide Recorded, Framed, Filled, Tiled, Indexed, Assembled, Deduplicated;
  }

  lemma FlushBounds(run: Run, v: Packing, encoded: PackReader.Encoded)
    requires Inv(run, v) && Encodes(run, encoded, v.pending)
    ensures |v.packs| < TWO_32 - 1 && |v.packWriter| < TWO_64 && |encoded.bytes| <= ENCODED_LIMIT
    ensures |Reopened(Settled(run.target, v, |encoded.bytes|)).packs| < TWO_32 - 1
    ensures |Reopened(Settled(run.target, v, |encoded.bytes|)).packWriter| + |encoded.bytes| < TWO_64
    ensures Reopened(Settled(run.target, v, |encoded.bytes|)).pending == v.pending
  {
    hide Recorded, Framed, Filled, Tiled, Indexed, Assembled, Deduplicated;
    SettledInv(run, v, |encoded.bytes|);
  }

  // ----- what placing a chunk did -----

  function RefAt(v: Packing, stored: Bytes, extents: seq<Extent>): ChunkRef
    requires |v.frames| < TWO_32 && |v.pending| < TWO_64 && |stored| < TWO_64
  {
    ChunkRef(|v.frames|, |v.pending|, |stored|, Sha256(stored), extents)
  }

  /** The frame under assembly was written out because p no longer fitted it. */
  predicate FrameFull(run: Run, v: Packing, w: Packing, p: Piece)
    requires PieceOk(run, p)
  {
    |v.pending| + |SliceOf(run, p)| > run.chunkSize && w.pieces == v.pieces + [v.pendingPieces]
  }

  /** ref stands for piece p, frame contents and positions only grew, bytes were
      stored exactly when they had not been before, small files met small files in
      frames filled as far as they go, and a large file's new chunk is alone in its
      frame. */
  ghost predicate Placed(run: Run, v: Packing, w: Packing, p: Piece, ref: ChunkRef, inShared: bool)
    requires PieceOk(run, p)
  {
    && Extends(run, v, w)
    && RefersTo(run, w, p, ref)
    && KeepsPositions(v, w)
    && Inventory(w) == Inventory(v) + (if SliceOf(run, p) == [] || !Unseen(v, SliceOf(run, p)) then [] else [p])
    && (inShared && AllSmall(run, v) && IsSmall(run, p) ==> AllSmall(run, w))
    && (inShared ==> w.pieces == v.pieces || FrameFull(run, v, w, p))
    && (!inShared ==> w.pending == [] && (w.pieces == v.pieces || w.pieces == v.pieces + [[p]]))
  }

  lemma AddBounds(run: Run, v: Packing)
    requires Inv(run, v)
    ensures |v.frames| < NO_FRAME && |v.pending| <= run.chunkSize <= MAX_CHUNK_SIZE
  {
    hide Recorded, Framed, Filled, Tiled, Indexed, Assembled, Deduplicated;
  }

  lemma PlacedNowhere(run: Run, v: Packing, p: Piece, inShared: bool)
    requires PieceOk(run, p) && SliceOf(run, p) == [] && (!inShared ==> v.pending == [])
    requires |ChunkExtents(run.sources[p.owner], run.chunkSize, p.chunk)| <= MAX_EXTENTS_PER_CHUNK
    ensures Placed(run, v, v, p, ChunkRef(NO_FRAME, 0, 0, EmptySliceDigest(),
                                          ChunkExtents(run.sources[p.owner], run.chunkSize, p.chunk)), inShared)
  {
    ExtendsItself(run, v);
    hide PieceOk, SliceOf, ChunkExtents, Extends, CollisionFree, Flat;
  }

  lemma PlacedBefore(run: Run, v: Packing, p: Piece, inShared: bool)
    requires Inv(run, v) && PieceOk(run, p) && SliceOf(run, p) != [] && (!inShared ==> v.pending == [])
    requires |ChunkExtents(run.sources[p.owner], run.chunkSize, p.chunk)| <= MAX_EXTENTS_PER_CHUNK
    requires Sha256(SliceOf(run, p)) in v.sliceIndex
    requires v.sliceIndex[Sha256(SliceOf(run, p))].length == |SliceOf(run, p)|
    ensures var loc := v.sliceIndex[Sha256(SliceOf(run, p))];
            Placed(run, v, v, p, ChunkRef(loc.frameIndex, loc.innerOffset, loc.length, Sha256(SliceOf(run, p)),
                                          ChunkExtents(run.sources[p.owner], run.chunkSize, p.chunk)), inShared)
  {
    ExtendsItself(run, v);
    hide PieceOk, SliceOf, ChunkExtents, Recorded, Framed, Filled, Tiled, Assembled, Deduplicated, Extends, CollisionFree, Flat;
    var d := Sha256(SliceOf(run, p));
    assert Located(run, v.Full(), d, v.sliceIndex[d], v.origins[d]);
    var loc := v.sliceIndex[d];
    assert loc == Location(loc.frameIndex, loc.innerOffset, loc.length);
  }

  /** A new slice is where its reference says. */
  lemma AddedRefers(run: Run, v: Packing, p: Piece)
    requires Inv(run, v) && PieceOk(run, p) && SliceOf(run, p) != []
    requires |v.pending| + |SliceOf(run, p)| <= run.chunkSize && |v.frames| < NO_FRAME
    requires |ChunkExtents(run.sources[p.owner], run.chunkSize, p.chunk)| <= MAX_EXTENTS_PER_CHUNK
    ensures RefersTo(run, Added(v, p, SliceOf(run, p)), p,
                     RefAt(v, SliceOf(run, p), ChunkExtents(run.sources[p.owner], run.chunkSize, p.chunk)))
  {
    hide PieceOk, SliceOf, ChunkExtents, Recorded, Framed, Filled, Tiled, Assembled, Deduplicated, Indexed, Located, CollisionFree;
    AddedLocated(run, v, p);
  }

  lemma AddedPieces(v: Packing, p: Piece, stored: Bytes)
    requires |v.frames| < TWO_32 && |v.pending| < TWO_64 && |stored| < TWO_64
    ensures Added(v, p, stored).pieces == v.pieces
  {
  }

  lemma KeepsAdded(v: Packing, p: Piece, stored: Bytes)
    requires |v.frames| < TWO_32 && |v.pending| < TWO_64 && |stored| < TWO_64
    ensures KeepsPositions(v, Added(v, p, stored))
  {
  }

  lemma KeepsTransitive(u: Packing, v: Packing, w: Packing)
    requires KeepsPositions(u, v) && KeepsPositions(v, w)
    ensures KeepsPositions(u, w)
  {
    hide At;
  }

  /** Frame contents, positions and small-file frames survive from v to w. */
  ghost predicate Advances(run: Run, v: Packing, w: Packing) {
    && Extends(run, v, w) && KeepsPositions(v, w) && (AllSmall(run, v) ==> AllSmall(run, w))
    && w.sliceIndex == v.sliceIndex && Inventory(w) == Inventory(v)
  }

  lemma Stays(run: Run, v: Packing)
    ensures Advances(run, v, v)
  {
    ExtendsItself(run, v);
    hide Extends, CollisionFree, Flat;
  }

  lemma FlushAdvances(run: Run, v: Packing, w: Packing, encoded: PackReader.Encoded)
    requires Inv(run, v) && FlushedFrom(run, v, w, encoded)
    ensures Advances(run, v, w) && w.pending == [] && w.pendingPieces == []
    ensures w.pieces == if v.pending == [] then v.pieces else v.pieces + [v.pendingPieces]
  {
    hide Inv, Grows, AllSmall, KeepsPositions, Xxh64.Lo32, CollisionFree, Inventory;
    EmptyPending(run, v);
    if v.pending == [] {
      Stays(run, v);
    } else {
      KeepsFlushed(run, v, encoded);
      FlushedInventory(run.target, v, encoded);
      if AllSmall(run, v) {
        SmallFlushed(run, v, encoded);
      }
    }
  }

  lemma FlushedInventory(target: nat, v: Packing, encoded: PackReader.Encoded)
    requires |v.packs| < TWO_32 - 1 && |v.packWriter| < TWO_64 && |encoded.bytes| < TWO_64 && |v.pending| < TWO_64
    ensures Inventory(Flushed(target, v, encoded)) == Inventory(v)
    ensures Flushed(target, v, encoded).sliceIndex == v.sliceIndex
  {
    hide Flat, Xxh64.Lo32;
    EmittedInventory(Reopened(Settled(target, v, |encoded.bytes|)), encoded);
  }

  lemma EmptyPending(run: Run, v: Packing)
    requires Inv(run, v)
    ensures v.pending == [] ==> v.pendingPieces == []
  {
    hide Recorded, Framed, Filled, Tiled, Indexed, Assembled, Deduplicated;
  }

  lemma Same(v: Packing)
    ensures KeepsPositions(v, v)
  {
  }

  lemma SliceBounds(run: Run, p: Piece)
    requires PieceOk(run, p)
    ensures |SliceOf(run, p)| <= run.chunkSize
  {
  }

  lemma PlacedShared(run: Run, v: Packing, u: Packing, p: Piece)
    requires Inv(run, u) && Advances(run, v, u) && PieceOk(run, p) && SliceOf(run, p) != [] && Unseen(v, SliceOf(run, p))
    requires |u.pending| + |SliceOf(run, p)| <= run.chunkSize
    requires u.pieces == v.pieces || FrameFull(run, v, u, p)
    requires |ChunkExtents(run.sources[p.owner], run.chunkSize, p.chunk)| <= MAX_EXTENTS_PER_CHUNK
    ensures |u.frames| < NO_FRAME && |u.pending| < TWO_64
    ensures Placed(run, v, Added(u, p, SliceOf(run, p)), p,
                   RefAt(u, SliceOf(run, p), ChunkExtents(run.sources[p.owner], run.chunkSize, p.chunk)), true)
  {
    hide Inv, PieceOk, SliceOf, ChunkExtents, Extends, KeepsPositions, AllSmall, Added, RefersTo, Inventory;
    AddBounds(run, u);
    AddedRefers(run, u, p);
    AddedInv(run, u, p);
    AddedInventory(u, p, SliceOf(run, p));
    var w := Added(u, p, SliceOf(run, p));
    AddedPieces(u, p, SliceOf(run, p));
    ExtendsTransitive(run, v, u, w);
    KeepsAdded(u, p, SliceOf(run, p));
    KeepsTransitive(v, u, w);
    if AllSmall(run, v) && IsSmall(run, p) {
      SmallAdded(run, u, p, SliceOf(run, p));
    }
  }

  lemma PlacedAlone(run: Run, v: Packing, w: Packing, encoded: PackReader.Encoded, p: Piece)
    requires Inv(run, v) && v.pending == [] && PieceOk(run, p) && SliceOf(run, p) != [] && Unseen(v, SliceOf(run, p))
    requires |v.frames| < NO_FRAME
    requires |ChunkExtents(run.sources[p.owner], run.chunkSize, p.chunk)| <= MAX_EXTENTS_PER_CHUNK
    requires FlushedFrom(run, Added(v, p, SliceOf(run, p)), w, encoded)
    ensures Placed(run, v, w, p, RefAt(v, SliceOf(run, p), ChunkExtents(run.sources[p.owner], run.chunkSize, p.chunk)), false)
  {
    hide Inv, PieceOk, SliceOf, ChunkExtents, Extends, KeepsPositions, AllSmall, RefersTo, FlushedFrom, Inventory;
    PieceOwned(run, p);
    SliceBounds(run, p);
    EmptyPending(run, v);
    var u := Added(v, p, SliceOf(run, p));
    assert v.pendingPieces + [p] == [p] && u.pending != [];
    AddedRefers(run, v, p);
    AddedInv(run, v, p);
    AddedInventory(v, p, SliceOf(run, p));
    FlushAdvances(run, u, w, encoded);
    ExtendsTransitive(run, v, u, w);
    KeepsAdded(v, p, SliceOf(run, p));
    KeepsTransitive(v, u, w);
    RefersGrow(run, u, w, p, RefAt(v, SliceOf(run, p), ChunkExtents(run.sources[p.owner], run.chunkSize, p.chunk)));
  }

  lemma OnlyLink(sources: seq<SourceEntry>, owner: nat, i: nat)
    requires owner < |sources| && i < |sources| && Owns(sources, owner)
    ensures Owner(sources, owner) == owner
    ensures Owner(sources, i) == owner <==>
            i == owner || (GroupNumber(sources, owner) != 0 && sources[i].inodeKey == sources[owner].inodeKey)
    ensures sources[owner].inodeKey == 0 ==> GroupNumber(sources, owner) == 0
  {
    if i != owner {
      LinksOf(sources, owner, i);
    }
  }

  // ----- what storing a file did -----

  /** Positions kept their meaning, and only the owner's own names changed. */
  ghost predicate Stored(run: Run, v: Packing, w: Packing, before: seq<Entry>, after: seq<Entry>, owner: nat) {
    && KeepsPositions(v, w)
    && |before| == |after| == |run.sources|
    && forall i :: 0 <= i < |before| && Owner(run.sources, i) != owner ==> after[i] == before[i]
  }

  lemma HasFile(sources: seq<SourceEntry>, i: nat)
    requires Collectable(sources) && i < |sources|
    ensures sources[i].HasContent() ==> sources[i].file.Some?
  {
    hide XattrsValid, CanonicalXattrs;
    assert Arrives(sources[i], i);
  }

  lemma InTable(run: Run, v: Packing, entries: seq<Entry>, done: set<nat>, i: nat)
    requires TableOk(run, v, entries, done) && i < |run.sources|
    ensures |entries| == |run.sources| && entries[i].hardlinkGroup == GroupNumber(run.sources, i)
  {
    hide Sealed, Owner;
    assert EntryOk(run, v, entries[i], i, done);
  }

  /** A file no larger than a chunk is exactly one chunk. */
  lemma OneChunk(run: Run, owner: nat)
    requires owner < |run.sources| && run.sources[owner].HasContent() && run.sources[owner].size <= run.chunkSize
    ensures ChunksNeeded(run.sources[owner].size, run.chunkSize) == 1
    ensures ChunkStart(run.sources[owner], run.chunkSize, 0) == 0
    ensures ChunkStop(run.sources[owner], run.chunkSize, 0) == run.sources[owner].size
  {
    var s := run.sources[owner];
    if s.size == run.chunkSize {
      ExactQuotient(run.chunkSize, 1, 0, s.size);
    } else {
      ExactQuotient(run.chunkSize, 0, s.size, s.size);
    }
  }

  /** What reading a one-chunk file yields. */
  ghost predicate SoleChunk(run: Run, owner: nat, read: Reading.ChunkRead) {
    && 0 < run.chunkSize && owner < |run.sources| && run.sources[owner].HasContent()
    && ChunksNeeded(run.sources[owner].size, run.chunkSize) == 1
    && ChunkLegible(run.sources[owner], run.chunkSize, 0)
    && read.stored == ChunkBytes(run.sources[owner], run.chunkSize, 0)
    && read.extents == ChunkExtents(run.sources[owner], run.chunkSize, 0)
    && read.digest == [] + Logical(run.sources[owner].file.value.image, run.sources[owner].file.value.data,
                                   ChunkStart(run.sources[owner], run.chunkSize, 0),
                                   ChunkStop(run.sources[owner], run.chunkSize, 0))
  }

  lemma SolePiece(run: Run, owner: nat, read: Reading.ChunkRead)
    requires SoleChunk(run, owner, read) && Owns(run.sources, owner)
    ensures PieceOk(run, Piece(owner, 0)) && read.stored == SliceOf(run, Piece(owner, 0))
    ensures read.extents == ChunkExtents(run.sources[owner], run.chunkSize, 0)
  {
  }

  lemma SmallSealed(run: Run, v: Packing, w: Packing, owner: nat, ref: ChunkRef, read: Reading.ChunkRead)
    requires SoleChunk(run, owner, read) && Owns(run.sources, owner) && run.sources[owner].size <= run.chunkSize
    requires PieceOk(run, Piece(owner, 0)) && Placed(run, v, w, Piece(owner, 0), ref, true)
    ensures Sealed(run, w, owner, Sha256(read.digest), [ref])
    ensures Extends(run, v, w) && KeepsPositions(v, w)
    ensures AllSmall(run, v) ==> AllSmall(run, w)
  {
    hide KeepsPositions, AllSmall, Extends, RefersTo, Inventory, Unseen;
    OneChunk(run, owner);
    LegibleByChunk(run.sources[owner], run.chunkSize);
    assert read.digest == LogicalContent(run.sources[owner]);
  }

  lemma SmallStocked(run: Run, v: Packing, w: Packing, owner: nat, ref: ChunkRef, done: set<nat>)
    requires PieceOk(run, Piece(owner, 0)) && Placed(run, v, w, Piece(owner, 0), ref, true)
    ensures Stocked(v, done) ==> Stocked(w, done + {owner})
  {
    hide PieceOk, SliceOf, KeepsPositions, AllSmall, Extends, RefersTo, Inventory, Unseen;
  }

  /** Recording an owner's finished content keeps the table. */
  lemma ContentRecorded(run: Run, v: Packing, w: Packing, before: seq<Entry>, after: seq<Entry>, done: set<nat>, owner: nat,
                  digest: Digest, refs: seq<ChunkRef>)
    requires TableOk(run, v, before, done) && Extends(run, v, w) && KeepsPositions(v, w)
    requires Sealed(run, w, owner, digest, refs) && Propagated(run.sources, before, after, owner, digest, refs)
    ensures TableOk(run, w, after, done + {owner})
    ensures Stored(run, v, w, before, after, owner)
  {
    hide TableOk, Extends, KeepsPositions, Sealed, Owner;
    TableGrow(run, v, w, before, done);
    TableWritten(run, w, before, after, done, owner, digest, refs);
  }

  // ----- the boundary as files are written -----

  lemma WriterBounds(run: Run, v: Packing)
    requires Inv(run, v)
    ensures |v.packs| <= MAX_PACKS && |v.packWriter| < TWO_64 && (!v.packOpen ==> v.packWriter == [])
  {
    hide Recorded, Framed, Filled, Tiled, Indexed, Assembled, Deduplicated;
  }

  lemma CountsAgree(run: Run, v: Packing)
    requires Inv(run, v)
    ensures |v.contents| == |v.frames| == |v.pieces|
  {
    hide Recorded, Framed, Filled, Tiled, Indexed, Assembled, Deduplicated;
  }

  lemma AdvancedTable(run: Run, v: Packing, w: Packing, entries: seq<Entry>, done: set<nat>)
    requires Advances(run, v, w) && TableOk(run, v, entries, done)
    ensures TableOk(run, w, entries, done) && KeepsPositions(v, w)
    ensures AllSmall(run, v) ==> AllSmall(run, w)
    ensures Stocked(v, done) ==> Stocked(w, done)
  {
    hide TableOk, Extends, KeepsPositions, Inventory;
    TableGrow(run, v, w, entries, done);
  }

  lemma UnitAt(sources: seq<SourceEntry>, units: seq<ContentUnit>, n: nat)
    requires AllUnits(sources, units) && n < |units|
    ensures IsUnit(sources, units[n])
  {
  }

  lemma Visited(visited: seq<nat>, units: seq<ContentUnit>, n: nat)
    requires n < |units| && Visits(visited, units[..n])
    ensures Visits(visited + [units[n].owner], units[..n + 1])
  {
  }

  lemma VisitedDone(visited: seq<nat>, units: seq<ContentUnit>, n: nat)
    requires n <= |units| && Visits(visited, units[..n])
    ensures forall j :: 0 <= j < n ==> units[j].owner in (set o | o in visited)
    ensures forall o :: o in visited ==> Among(units, n, o)
  {
    forall o | o in visited
      ensures Among(units, n, o)
    {
      var j :| 0 <= j < |visited| && visited[j] == o;
      assert units[..n][j] == units[j];
    }
    forall j | 0 <= j < n
      ensures units[j].owner in visited
    {
      assert units[..n][j] == units[j];
      assert visited[j] == units[j].owner;
    }
  }

  /** A file written after the boundary was set changes none of the files behind it. */
  lemma LaterFile(run: Run, small: seq<ContentUnit>, n: nat, owner: nat, before: seq<Entry>, after: seq<Entry>,
                  v: Packing, w: Packing, pos: PriorityBoundary, quota: nat, mark: Mark)
    requires n <= |small| && AllUnits(run.sources, small)
    requires forall j :: 0 <= j < n ==> small[j].owner != owner
    requires Stored(run, v, w, before, after, owner)
    requires Marked(small, before, v, pos, quota, mark) && mark.files <= n
    ensures Marked(small, after, w, pos, quota, mark)
  {
    hide KeepsPositions, Marked;
    forall j | 0 <= j < mark.files && small[j].owner < |before|
      ensures after[small[j].owner] == before[small[j].owner]
    {
      assert IsUnit(run.sources, small[j]);
    }
    MarkedKept(small, before, after, v, w, pos, quota, mark);
  }

  lemma ApartAt(units: seq<ContentUnit>, n: nat)
    requires Apart(units) && n < |units|
    ensures forall j :: 0 <= j < n ==> units[j].owner != units[n].owner
  {
  }

  // ----- large files chunk by chunk -----

  method CountChunks(size: u64, chunkSize: u32) returns (count: u64)
    requires chunkSize > 0
    ensures count == ChunksNeeded(size, chunkSize)
  {
    count := size / chunkSize;
    if size % chunkSize != 0 {
      assert size == count * chunkSize + size % chunkSize;
      count := count + 1;
    }
  }

  predicate ChunkReady(run: Run, owner: nat, k: nat) {
    && 0 < run.chunkSize && owner < |run.sources| && Owns(run.sources, owner)
    && run.sources[owner].file.Some? && Canonical(run.sources[owner].file.value.data, run.sources[owner].size)
    && k < ChunksNeeded(run.sources[owner].size, run.chunkSize)
  }

  /** The logical bytes chunk k covers. */
  function SpanContent(run: Run, owner: nat, k: nat): Bytes
    requires ChunkReady(run, owner, k)
  {
    Logical(run.sources[owner].file.value.image, run.sources[owner].file.value.data,
            ChunkStart(run.sources[owner], run.chunkSize, k), ChunkStop(run.sources[owner], run.chunkSize, k))
  }

  lemma ReadyPiece(run: Run, owner: nat, k: nat)
    requires ChunkReady(run, owner, k)
    ensures ChunkLegible(run.sources[owner], run.chunkSize, k) ==>
              PieceOk(run, Piece(owner, k)) &&
              SliceOf(run, Piece(owner, k)) == ChunkBytes(run.sources[owner], run.chunkSize, k)
  {
  }

  lemma ReadyAt(run: Run, unit: ContentUnit, k: nat)
    requires IsUnit(run.sources, unit) && 0 < run.chunkSize && run.sources[unit.owner].file.Some?
    requires Canonical(run.sources[unit.owner].file.value.data, run.sources[unit.owner].size)
    requires k < ChunksNeeded(run.sources[unit.owner].size, run.chunkSize)
    ensures ChunkReady(run, unit.owner, k)
  {
  }

  /** How much of a file the first k chunks cover. */
  function CoveredBy(run: Run, owner: nat, k: nat): nat
    requires owner < |run.sources|
  {
    if k * run.chunkSize < run.sources[owner].size then k * run.chunkSize else run.sources[owner].size
  }

  /** The first chunks of a large file are stored, each alone in a frame or
      deduplicated, and the digest has absorbed what they cover. */
  ghost predicate LargeSoFar(run: Run, v: Packing, w: Packing, n: nat, owner: nat, refs: seq<ChunkRef>, digest: Bytes) {
    && Refs(run, w, owner, refs)
    && !IsSmall(run, Piece(owner, 0))
    && run.sources[owner].file.Some?
    && Canonical(run.sources[owner].file.value.data, run.sources[owner].size)
    && digest == Logical(run.sources[owner].file.value.image, run.sources[owner].file.value.data, 0,
                         CoveredBy(run, owner, |refs|))
    && Extends(run, v, w) && KeepsPositions(v, w) && Classed(run, w, n)
  }

  lemma LargeBegins(run: Run, v: Packing, n: nat, owner: nat)
    requires 0 < run.chunkSize && owner < |run.sources| && run.sources[owner].size > run.chunkSize
    requires run.sources[owner].file.Some? && Canonical(run.sources[owner].file.value.data, run.sources[owner].size)
    requires Classed(run, v, n)
    ensures LargeSoFar(run, v, v, n, owner, [], [])
  {
    ExtendsItself(run, v);
    Same(v);
    hide Classed, KeepsPositions, Extends;
  }

  lemma CoverStep(run: Run, owner: nat, k: nat)
    requires ChunkReady(run, owner, k)
    ensures CoveredBy(run, owner, k) == ChunkStart(run.sources[owner], run.chunkSize, k)
    ensures CoveredBy(run, owner, k + 1) == ChunkStop(run.sources[owner], run.chunkSize, k)
  {
    ChunkBounds(run.sources[owner].size, run.chunkSize, k);
    if k + 1 < ChunksNeeded(run.sources[owner].size, run.chunkSize) {
      ChunkBounds(run.sources[owner].size, run.chunkSize, k + 1);
    }
  }

  lemma RefsSnoc(run: Run, v: Packing, wider: Packing, owner: nat, refs: seq<ChunkRef>, ref: ChunkRef)
    requires Refs(run, v, owner, refs) && Extends(run, v, wider)
    requires PieceOk(run, Piece(owner, |refs|)) && RefersTo(run, wider, Piece(owner, |refs|), ref)
    ensures Refs(run, wider, owner, refs + [ref])
  {
    hide RefersTo, Extends, ChunksNeeded, ChunkLegible, Owns;
    RefsGrow(run, v, wider, owner, refs);
    assert |refs| < ChunksNeeded(run.sources[owner].size, run.chunkSize);
    hide PieceOk;
  }

  lemma ClassedMore(run: Run, v: Packing, w: Packing, n: nat, p: Piece)
    requires Classed(run, v, n) && !IsSmall(run, p)
    requires w.pieces == v.pieces || w.pieces == v.pieces + [[p]]
    ensures Classed(run, w, n)
  {
    hide SmallPieces;
  }

  lemma LargeStep(run: Run, v: Packing, w: Packing, x: Packing, n: nat, owner: nat, refs: seq<ChunkRef>, digest: Bytes,
                  ref: ChunkRef)
    requires LargeSoFar(run, v, w, n, owner, refs, digest) && ChunkReady(run, owner, |refs|)
    requires PieceOk(run, Piece(owner, |refs|)) && Placed(run, w, x, Piece(owner, |refs|), ref, false)
    ensures LargeSoFar(run, v, x, n, owner, refs + [ref], digest + SpanContent(run, owner, |refs|))
    ensures x.pending == []
  {
    hide Refs, PieceOk, Extends, KeepsPositions, Classed, Logical, Canonical, RefersTo, AllSmall, CoveredBy, ChunkStart, ChunkStop, Owns,
      Inventory, Unseen, SliceOf;
    RefsSnoc(run, w, x, owner, refs, ref);
    ExtendsTransitive(run, v, w, x);
    KeepsTransitive(v, w, x);
    ClassedMore(run, w, x, n, Piece(owner, |refs|));
    CoverStep(run, owner, |refs|);
    LogicalConcat(run.sources[owner].file.value.image, run.sources[owner].file.value.data, 0,
      CoveredBy(run, owner, |refs|), CoveredBy(run, owner, |refs| + 1));
  }

  lemma LargeSealed(run: Run, v: Packing, w: Packing, n: nat, owner: nat, refs: seq<ChunkRef>, digest: Bytes)
    requires LargeSoFar(run, v, w, n, owner, refs, digest) && owner < |run.sources|
    requires 0 < run.chunkSize && |refs| == ChunksNeeded(run.sources[owner].size, run.chunkSize)
    ensures Sealed(run, w, owner, Sha256(digest), refs)
    ensures Extends(run, v, w) && KeepsPositions(v, w) && Classed(run, w, n)
  {
    hide Extends, KeepsPositions, Classed, RefersTo;
    CoveredAll(run, owner);
    forall k | 0 <= k < |refs|
      ensures ChunkLegible(run.sources[owner], run.chunkSize, k)
    {
      assert PieceOk(run, Piece(owner, k));
    }
    LegibleByChunk(run.sources[owner], run.chunkSize);
    hide Refs;
  }

  lemma CoveredAll(run: Run, owner: nat)
    requires 0 < run.chunkSize && owner < |run.sources|
    ensures CoveredBy(run, owner, ChunksNeeded(run.sources[owner].size, run.chunkSize)) == run.sources[owner].size
  {
    var count := ChunksNeeded(run.sources[owner].size, run.chunkSize);
    if count > 0 {
      ChunkBounds(run.sources[owner].size, run.chunkSize, count - 1);
    }
  }

  // ----- the regions -----

  lemma TotalStepBack(small: seq<ContentUnit>)
    ensures |small| > 0 ==> Total(UnitSize, small[..|small| - 1]) <= Total(UnitSize, small[..|small|])
  {
    if |small| > 0 {
      TotalStep(UnitSize, small, |small| - 1);
    }
  }

  lemma MarkBounded(small: seq<ContentUnit>, entries: seq<Entry>, v: Packing, pos: PriorityBoundary, quota: nat, mark: Mark)
    requires Marked(small, entries, v, pos, quota, mark)
    ensures mark.frame <= |v.frames| && mark.files <= |small|
  {
  }

  lemma SmallRegion(run: Run, v: Packing)
    requires Inv(run, v) && AllSmall(run, v)
    ensures Classed(run, v, |v.frames|)
  {
    hide Recorded, Framed, Filled, Tiled, Indexed, Assembled, Deduplicated, SmallPieces;
  }

  lemma LargeUnit(run: Run, small: seq<ContentUnit>, large: seq<ContentUnit>, k: nat)
    requires OnceEach(run.sources, multiset(small + large)) && k < |large|
    ensures IsUnit(run.sources, large[k]) && AllUnits(run.sources, small)
    ensures large[k].owner < |run.sources| && large[k].size == run.sources[large[k].owner].size
    ensures forall j :: 0 <= j < |small| ==> small[j].owner != large[k].owner
  {
    var order := small + large;
    InOrder(run.sources, order, |small| + k);
    hide IsUnit;
    forall j | 0 <= j < |small|
      ensures IsUnit(run.sources, small[j]) && small[j].owner != large[k].owner
    {
      InOrder(run.sources, order, j);
      NoRepeat(run.sources, order, j, |small| + k);
    }
  }

  lemma VisitedLarge(visited: seq<nat>, small: seq<ContentUnit>, large: seq<ContentUnit>, k: nat)
    requires k < |large| && Visits(visited, small + large[..k])
    ensures Visits(visited + [large[k].owner], small + large[..k + 1])
  {
    assert small + large[..k + 1] == small + large[..k] + [large[k]];
  }

  lemma PlanUnits(sources: seq<SourceEntry>, small: seq<ContentUnit>, large: seq<ContentUnit>)
    requires OnceEach(sources, multiset(small + large))
    ensures AllUnits(sources, small) && Apart(small)
  {
    hide IsUnit, OnceEach;
    var order := small + large;
    forall i | 0 <= i < |small|
      ensures IsUnit(sources, small[i])
    {
      InOrder(sources, order, i);
    }
    forall i, j | 0 <= i < j < |small|
      ensures small[i].owner != small[j].owner
    {
      NoRepeat(sources, order, i, j);
    }
  }

  lemma NothingWritten(run: Run, entries: seq<Entry>)
    requires Collectable(run.sources) && Collect.GroupedUpTo(run.sources, |run.sources|, entries)
    ensures TableOk(run, EMPTY, entries, {}) && AllSmall(run, EMPTY) && Stocked(EMPTY, {})
  {
    hide GroupNumber, Owner;
  }

  lemma NothingMarked(small: seq<ContentUnit>, entries: seq<Entry>)
    ensures Marked(small, entries, EMPTY, PriorityBoundary(0, 0), 0, Mark(0, 0))
    ensures Total(UnitSize, small[..0]) == 0
  {
  }

  lemma MarkedClosed(run: Run, v: Packing, small: seq<ContentUnit>, entries: seq<Entry>, pos: PriorityBoundary, quota: nat,
                  mark: Mark, largeFrom: nat)
    requires |v.packWriter| < TWO_64
    requires Marked(small, entries, v, pos, quota, mark) && Classed(run, v, largeFrom)
    ensures Marked(small, entries, Closed(v), pos, quota, mark) && Classed(run, Closed(v), largeFrom)
    ensures Extends(run, v, Closed(v))
  {
    hide At, Behind, Total, SmallPieces, CollisionFree, Among;
    AtClosed(v, pos, mark.frame);
  }

  lemma CollectedSize(sources: seq<SourceEntry>)
    requires Collectable(sources)
    ensures 0 < |sources| <= MAX_ENTRIES
  {
    hide XattrsValid, CanonicalXattrs;
  }

  lemma PreparedWalk(b: Builder)
    requires b.Prepared()
    ensures Collectable(b.sources)
  {
    hide Collectable;
  }

  /** Collects the walk and forms its hardlink groups. */
  method Prepare(config: Config, walk: Collect.Walk) returns (r: Result<Builder>)
    requires ConfigValid(config) && walk.at == 0
    modifies walk
    ensures r.Ok? ==> fresh(r.value) && r.value.Prepared() && r.value.config == config && r.value.sources == walk.entries
    ensures r == Err(Invalid) ==> !Collectable(walk.entries) || !LinksClosed(walk.entries)
  {
    hide ConfigValid, Collectable, LinksClosed, Collect.GroupedUpTo, Collect.Owners, Inv, Collect.BareEntries;
    var b := new Builder(config);
    var collected := b.CollectWalk(walk);
    if collected.Err? {
      return Err(collected.error);
    }
    CollectedSize(b.sources);
    var grouped := b.AssignHardlinkGroups();
    if grouped.Err? {
      return Err(grouped.error);
    }
    ConfigBounds(config);
    EmptyInv(b.TheRun());
    return Ok(b);
  }

  /** Turns one walk into pack objects and a manifest. */
  method Build(config: Config, walk: Collect.Walk) returns (r: Result<Manifest>, packs: seq<Bytes>, ghost o: Outcome)
    requires walk.at == 0
    modifies walk
    ensures r.Ok? ==> Built(config, walk.entries, r.value, packs, o) && ValidManifest(r.value)
    ensures r.Ok? ==> OpenedOnce(walk.entries, o.visited) && PacksDescribed(r.value, packs)
    ensures r.Ok? && PackReader.ZstdRoundTrips() ==> Acceptable(config, walk.entries)
    ensures r == Err(Invalid) && PackReader.ZstdRoundTrips() ==>
              || !Acceptable(config, walk.entries)
              || FramesFull(RunOf(config, walk.entries)) || PacksFull(RunOf(config, walk.entries))
  {
    hide Acceptable, Refused, FramesFull, PacksFull, WellFormed, PackReader.ZstdRoundTrips, Built, OpenedOnce, TotalsFit;
    hide ChunkCount, ConfigValid, Finished, ValidManifest, Collectable, LinksClosed, Builder.Prepared;
    packs := [];
    o := Outcome(EMPTY, [], PriorityBoundary(0, 0), Mark(0, 0), 0, []);
    AcceptableParts(config, walk.entries);
    var ok := ValidateConfig(config);
    if !ok {
      return Err(Invalid), packs, o;
    }
    var prepared := Prepare(config, walk);
    if prepared.Err? {
      return Err(prepared.error), packs, o;
    }
    var b := prepared.value;
    PreparedWalk(b);
    var written := b.WriteContent();
    if written.Err? {
      if written.error == Invalid {
        RefusedMeans(config, walk.entries);
      }
      return Err(written.error), packs, o;
    }
    r := b.Finish();
    packs := b.sink;
    o := b.Result();
    FinishedMeans(config, walk.entries, o);
    if r.Ok? {
      VisitedOnce(config, walk.entries, o);
      BuiltPacks(config, walk.entries, r.value, packs, o);
    }
  }

  lemma ConfigBounds(config: Config)
    requires ConfigValid(config)
    ensures 0 < config.chunkSizeBytes <= MAX_CHUNK_SIZE && config.packTargetBytes <= MAX_PACK_TARGET
  {
  }
}
