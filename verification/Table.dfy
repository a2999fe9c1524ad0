/**
The entry table while content is written: which chunk references an entry holds,
and what every reference means in the frames written so far (writeSmallFile,
writeLargeFile and propagateToLinks of vcs/archive/build.go).
 */
module Table {
  import opened Basics
  import opened Content
  import opened Manifest
  import opened Source
  import opened Order
  import opened Packing

  /** A chunk reference that stands for one piece: its own extent map, and a slice
      of the run with the digest of the piece's bytes; without collisions, the one
      place filed under that digest. */
  ghost predicate RefersTo(run: Run, v: Packing, p: Piece, ref: ChunkRef)
    requires PieceOk(run, p)
  {
    && ref.extents == ChunkExtents(run.sources[p.owner], run.chunkSize, p.chunk)
    && |ref.extents| <= MAX_EXTENTS_PER_CHUNK
    && ref.length == |SliceOf(run, p)|
    && ref.sliceDigest == Sha256(SliceOf(run, p))
    && if ref.length == 0 then ref.frameIndex == NO_FRAME && ref.innerOffset == 0
       else
         && ref.frameIndex < NO_FRAME
         && (exists q :: Located(run, v.Full(), ref.sliceDigest, Location(ref.frameIndex, ref.innerOffset, ref.length), q))
         && (CollisionFree(run) ==>
               ref.sliceDigest in v.sliceIndex &&
               v.sliceIndex[ref.sliceDigest] == Location(ref.frameIndex, ref.innerOffset, ref.length))
  }

  lemma RefersGrow(run: Run, a: Packing, b: Packing, p: Piece, ref: ChunkRef)
    requires PieceOk(run, p) && RefersTo(run, a, p, ref) && Extends(run, a, b)
    ensures RefersTo(run, b, p, ref)
  {
    hide PieceOk, SliceOf, ChunkExtents, Grows, CollisionFree;
    if ref.length != 0 {
      var loc := Location(ref.frameIndex, ref.innerOffset, ref.length);
      var q :| Located(run, a.Full(), ref.sliceDigest, loc, q);
      LocatedGrow(run, a.Full(), b.Full(), ref.sliceDigest, loc, q);
    }
  }

  /** The first references of an owner's content, in chunk order. */
  ghost predicate Refs(run: Run, v: Packing, owner: nat, refs: seq<ChunkRef>) {
    && 0 < run.chunkSize
    && owner < |run.sources|
    && |refs| <= ChunksNeeded(run.sources[owner].size, run.chunkSize)
    && forall k :: 0 <= k < |refs| ==> PieceOk(run, Piece(owner, k)) && RefersTo(run, v, Piece(owner, k), refs[k])
  }

  lemma RefsGrow(run: Run, a: Packing, b: Packing, owner: nat, refs: seq<ChunkRef>)
    requires Refs(run, a, owner, refs) && Extends(run, a, b)
    ensures Refs(run, b, owner, refs)
  {
    hide RefersTo, Extends, PieceOk, ChunksNeeded;
    forall k | 0 <= k < |refs|
      ensures PieceOk(run, Piece(owner, k)) && RefersTo(run, b, Piece(owner, k), refs[k])
    {
      RefersGrow(run, a, b, Piece(owner, k), refs[k]);
    }
  }

  /** An owner's content is complete: legible throughout, one reference per chunk. */
  ghost predicate Sealed(run: Run, v: Packing, owner: nat, digest: Digest, refs: seq<ChunkRef>) {
    && Refs(run, v, owner, refs)
    && Legible(run.sources[owner])
    && digest == Sha256(LogicalContent(run.sources[owner]))
    && |refs| == ChunksNeeded(run.sources[owner].size, run.chunkSize)
  }

  /** An entry with its group, before content. */
  function GroupedEntry(sources: seq<SourceEntry>, i: nat): Entry
    requires i < |sources| <= MAX_ENTRIES
  {
    BareEntry(sources[i]).(hardlinkGroup := GroupNumber(sources, i))
  }

  /** Two entries that differ in content at most. */
  predicate SameHead(a: Entry, b: Entry) {
    a.(contentDigest := b.contentDigest, chunks := b.chunks) == b
  }

  /** Entry i carries its owner's content once that is written, none before. */
  ghost predicate EntryOk(run: Run, v: Packing, entry: Entry, i: nat, done: set<nat>)
    requires i < |run.sources| <= MAX_ENTRIES
  {
    && SameHead(entry, GroupedEntry(run.sources, i))
    && if Owner(run.sources, i) in done then
         Sealed(run, v, Owner(run.sources, i), entry.contentDigest, entry.chunks)
       else
         entry.contentDigest == FirstDigest(run.sources[i]) && entry.chunks == []
  }

  ghost predicate TableOk(run: Run, v: Packing, entries: seq<Entry>, done: set<nat>) {
    && |entries| == |run.sources| <= MAX_ENTRIES
    && forall i :: 0 <= i < |entries| ==> EntryOk(run, v, entries[i], i, done)
  }

  lemma TableGrow(run: Run, a: Packing, b: Packing, entries: seq<Entry>, done: set<nat>)
    requires TableOk(run, a, entries, done) && Extends(run, a, b)
    ensures TableOk(run, b, entries, done)
  {
    hide Refs, Extends, GroupedEntry, Owner, LogicalContent, Legible;
    forall i | 0 <= i < |entries|
      ensures EntryOk(run, b, entries[i], i, done)
    {
      assert EntryOk(run, a, entries[i], i, done);
      if Owner(run.sources, i) in done {
        RefsGrow(run, a, b, Owner(run.sources, i), entries[i].chunks);
      }
    }
  }

  /** after is before with an owner's content copied to the owner and its links. */
  predicate Propagated(sources: seq<SourceEntry>, before: seq<Entry>, after: seq<Entry>, owner: nat,
                       digest: Digest, refs: seq<ChunkRef>) {
    && |before| == |after| == |sources|
    && forall i :: 0 <= i < |sources| ==>
         after[i] == if Owner(sources, i) == owner then before[i].(contentDigest := digest, chunks := refs) else before[i]
  }

  lemma TableWritten(run: Run, v: Packing, before: seq<Entry>, after: seq<Entry>, done: set<nat>, owner: nat,
                     digest: Digest, refs: seq<ChunkRef>)
    requires TableOk(run, v, before, done)
    requires Sealed(run, v, owner, digest, refs)
    requires Propagated(run.sources, before, after, owner, digest, refs)
    ensures TableOk(run, v, after, done + {owner})
  {
    hide Sealed, GroupedEntry, Owner;
    forall i | 0 <= i < |after|
      ensures EntryOk(run, v, after[i], i, done + {owner})
    {
      assert EntryOk(run, v, before[i], i, done);
    }
  }

  /** The other names of an owner's inode are the entries that carry its key. */
  lemma LinksOf(sources: seq<SourceEntry>, owner: nat, i: nat)
    requires owner < |sources| && i < |sources| && i != owner && Owns(sources, owner)
    ensures Owner(sources, i) == owner <==> GroupNumber(sources, owner) != 0 && sources[i].inodeKey == sources[owner].inodeKey
  {
  }
}
