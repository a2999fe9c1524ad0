/**
The prefetch landmark (setPriorityHere and the priority bookkeeping of
vcs/archive/build.go): which frames lie before the boundary, and which files
they hold.
 */
module Landmark {
  import opened Basics
  import opened Manifest
  import opened Source
  import opened Order
  import opened Packing
  import opened Table

  function UnitSize(u: ContentUnit): nat {
    u.size
  }

  /** The boundary precedes frame `frame`, and was set once `files` small files
      had been written. */
  datatype Mark = Mark(frame: nat, files: nat)

  /** Every stored chunk of an entry is in a frame before frame n. */
  predicate Behind(entries: seq<Entry>, owner: nat, n: nat) {
    && owner < |entries|
    && forall k :: 0 <= k < |entries[owner].chunks| && entries[owner].chunks[k].Stored() ==>
                     entries[owner].chunks[k].frameIndex < n
  }

  /** An inode is one of the first n files. */
  predicate Among(small: seq<ContentUnit>, n: nat, owner: nat)
    requires n <= |small|
  {
    exists j :: 0 <= j < n && small[j].owner == owner
  }

  /** The frames before the boundary hold nothing but the files written up to it. */
  ghost predicate HoldsOnly(small: seq<ContentUnit>, v: Packing, mark: Mark)
    requires mark.files <= |small|
  {
    && mark.frame <= |v.pieces|
    && forall f, k :: 0 <= f < mark.frame && 0 <= k < |v.pieces[f]| ==> Among(small, mark.files, v.pieces[f][k].owner)
  }

  /** The boundary is a frame boundary; the small files written up to it lie wholly
      before it and have the region to themselves, reach the quota or are all there
      are, and none of them is more than the quota needs. */
  ghost predicate Marked(small: seq<ContentUnit>, entries: seq<Entry>, v: Packing, pos: PriorityBoundary, quota: nat,
                         mark: Mark) {
    && mark.files <= |small|
    && At(v, pos, mark.frame)
    && (quota <= Total(UnitSize, small[..mark.files]) || mark.files == |small|)
    && (mark.files > 0 ==> Total(UnitSize, small[..mark.files - 1]) < quota)
    && HoldsOnly(small, v, mark)
    && forall j :: 0 <= j < mark.files ==> Behind(entries, small[j].owner, mark.frame)
  }

  /** Frames before n hold small files only; each later one holds one chunk of a
      large file. */
  predicate Classed(run: Run, v: Packing, n: nat) {
    && n <= |v.pieces|
    && (forall f :: 0 <= f < n ==> SmallPieces(run, v.pieces[f]))
    && (forall f :: n <= f < |v.pieces| ==> |v.pieces[f]| == 1 && !IsSmall(run, v.pieces[f][0]))
  }

  /** With no frame under assembly, everything written is in a written frame. */
  lemma AllBehind(run: Run, v: Packing, entries: seq<Entry>, done: set<nat>, owner: nat)
    requires TableOk(run, v, entries, done) && v.pending == [] && |v.contents| == |v.frames|
    requires owner in done && owner < |run.sources| && Owner(run.sources, owner) == owner
    ensures Behind(entries, owner, |v.frames|)
  {
    hide Owner, GroupedEntry, PieceOk, LogicalContent, Legible;
    var entry := entries[owner];
    assert EntryOk(run, v, entry, owner, done);
    forall k | 0 <= k < |entry.chunks| && entry.chunks[k].Stored()
      ensures entry.chunks[k].frameIndex < |v.frames|
    {
      RefBehind(run, v, Piece(owner, k), entry.chunks[k]);
    }
  }

  lemma RefBehind(run: Run, v: Packing, p: Piece, ref: ChunkRef)
    requires PieceOk(run, p) && RefersTo(run, v, p, ref) && v.pending == [] && ref.Stored()
    ensures ref.frameIndex < |v.contents|
  {
    hide PieceOk, SliceOf, ChunkExtents;
    var q :| Located(run, v.Full(), ref.sliceDigest, Location(ref.frameIndex, ref.innerOffset, ref.length), q);
    assert v.Full()[|v.contents|] == [];
  }

  lemma MarkedKept(small: seq<ContentUnit>, before: seq<Entry>, after: seq<Entry>, v: Packing, w: Packing,
                   pos: PriorityBoundary, quota: nat, mark: Mark)
    requires Marked(small, before, v, pos, quota, mark) && KeepsPositions(v, w)
    requires |before| == |after|
    requires forall j :: 0 <= j < mark.files ==> small[j].owner < |before| ==> after[small[j].owner] == before[small[j].owner]
    ensures Marked(small, after, w, pos, quota, mark)
  {
    hide At, Total, Among;
    forall j | 0 <= j < mark.files
      ensures Behind(after, small[j].owner, mark.frame)
    {
      assert Behind(before, small[j].owner, mark.frame);
    }
  }

  /** The units written so far, each opened once in order. */
  predicate Visits(visited: seq<nat>, units: seq<ContentUnit>) {
    |visited| == |units| && forall j :: 0 <= j < |units| ==> visited[j] == units[j].owner
  }

  /** No inode is scheduled twice. */
  predicate Apart(units: seq<ContentUnit>) {
    forall i, j :: 0 <= i < j < |units| ==> units[i].owner != units[j].owner
  }

  predicate AllUnits(sources: seq<SourceEntry>, units: seq<ContentUnit>) {
    forall j :: 0 <= j < |units| ==> IsUnit(sources, units[j])
  }

  /** A boundary set with no frame under assembly, after n files. */
  lemma MarkedHere(run: Run, small: seq<ContentUnit>, n: nat, entries: seq<Entry>, v: Packing, done: set<nat>,
                   pos: PriorityBoundary, quota: nat)
    requires n <= |small| && AllUnits(run.sources, small)
    requires TableOk(run, v, entries, done) && v.pending == [] && |v.contents| == |v.frames|
    requires |v.pieces| == |v.frames| && Stocked(v, done)
    requires forall j :: 0 <= j < n ==> small[j].owner in done
    requires forall o :: o in done ==> Among(small, n, o)
    requires pos.packIndex == |v.packs| && pos.packOffset == |v.packWriter|
    requires quota <= Total(UnitSize, small[..n]) || n == |small|
    requires n > 0 ==> Total(UnitSize, small[..n - 1]) < quota
    ensures Marked(small, entries, v, pos, quota, Mark(|v.frames|, n))
  {
    hide TableOk, Total, Behind, Among, Stocked;
    forall j | 0 <= j < n
      ensures Behind(entries, small[j].owner, |v.frames|)
    {
      assert IsUnit(run.sources, small[j]);
      AllBehind(run, v, entries, done, small[j].owner);
    }
    forall f, k | 0 <= f < |v.frames| && 0 <= k < |v.pieces[f]|
      ensures Among(small, n, v.pieces[f][k].owner)
    {
      StockedFrame(v, done, f, k);
    }
  }
}
