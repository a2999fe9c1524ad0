/**
Frame and pack assembly (placeChunk, flushFrame, openPack and closePack of
vcs/archive/build.go) as transitions of a value, with the invariant every one of
them keeps. Builder.dfy runs these transitions on the builder's own fields.
 */
module Packing {
  import opened Basics
  import opened Extents
  import opened Content
  import opened Manifest
  import opened Frames
  import opened Source
  import opened Order
  import opened PackReader
  import Xxh64

  /** CRC-64/NVME: one fixed function about which nothing is assumed. */
  const Crc64: Bytes -> u64

  const MAX_PACK_TARGET: u64 := 0x10_0000_0000  // 64 GiB
  const PACK_LIMIT: nat := 0x20_0000_0000
  const ENCODED_LIMIT: nat := 0x2_0000_0000

  /** What one build works on. */
  datatype Run = Run(sources: seq<SourceEntry>, chunkSize: u32, target: u64, level: i32, windowLog: u32)

  /** One chunk of one file with content. */
  datatype Piece = Piece(owner: nat, chunk: nat)

  predicate PieceOk(run: Run, p: Piece) {
    && 0 < run.chunkSize
    && p.owner < |run.sources|
    && Owns(run.sources, p.owner)
    && p.chunk < ChunksNeeded(run.sources[p.owner].size, run.chunkSize)
    && ChunkLegible(run.sources[p.owner], run.chunkSize, p.chunk)
  }

  /** The bytes a piece stores. */
  function SliceOf(run: Run, p: Piece): (slice: Bytes)
    requires PieceOk(run, p)
    ensures |slice| <= run.chunkSize
  {
    ChunkBytes(run.sources[p.owner], run.chunkSize, p.chunk)
  }

  datatype Location = Location(frameIndex: u32, innerOffset: u64, length: u64)

  /** The builder's storage state. pending is the frame under assembly, whose index
      will be |frames|; contents and pieces say what each written frame holds. */
  datatype Packing = Packing(
    frames: seq<Frame>,
    packs: seq<PackRef>,
    written: seq<Bytes>,
    packOpen: bool,
    packWriter: Bytes,
    pending: Bytes,
    sliceIndex: map<Digest, Location>,
    contents: seq<Bytes>,
    pieces: seq<seq<Piece>>,
    pendingPieces: seq<Piece>,
    origins: map<Digest, Piece>)
  {
    /** Every pack's bytes, the open one last. */
    function Packs(): seq<Bytes> {
      written + if packOpen then [packWriter] else []
    }

    /** Every frame's content, the one under assembly last. */
    function Full(): seq<Bytes> {
      contents + [pending]
    }
  }

  const EMPTY: Packing := Packing([], [], [], false, [], [], map[], [], [], [], map[])

  // ----- transitions -----

  function RefOf(pack: Bytes): PackRef
    requires |pack| < TWO_64
  {
    PackRef(Crc64(pack), Sha256(pack), |pack|)
  }

  function Closed(v: Packing): Packing
    requires |v.packWriter| < TWO_64
  {
    if !v.packOpen then v
    else v.(packs := v.packs + [RefOf(v.packWriter)], written := v.written + [v.packWriter],
            packOpen := false, packWriter := [])
  }

  function Opened(v: Packing): Packing {
    v.(packOpen := true, packWriter := [])
  }

  function FrameFor(v: Packing, encoded: Encoded): Frame
    requires |v.packs| < TWO_32 && |v.packWriter| < TWO_64 && |encoded.bytes| < TWO_64 && |v.pending| < TWO_64
  {
    Frame(|v.packs|, |v.packWriter|, |encoded.bytes|, |v.pending|, encoded.rawBlocks, Xxh64.Lo32(v.pending))
  }

  /** Writes the frame under assembly at the end of the open pack. */
  function Emitted(v: Packing, encoded: Encoded): Packing
    requires |v.packs| < TWO_32 && |v.packWriter| < TWO_64 && |encoded.bytes| < TWO_64 && |v.pending| < TWO_64
  {
    v.(packWriter := v.packWriter + encoded.bytes, frames := v.frames + [FrameFor(v, encoded)],
       contents := v.contents + [v.pending], pieces := v.pieces + [v.pendingPieces],
       pending := [], pendingPieces := [])
  }

  /** Appends one new slice to the frame under assembly. */
  function Added(v: Packing, p: Piece, stored: Bytes): Packing
    requires |v.frames| < TWO_32 && |v.pending| < TWO_64 && |stored| < TWO_64
  {
    v.(pending := v.pending + stored, pendingPieces := v.pendingPieces + [p],
       sliceIndex := v.sliceIndex[Sha256(stored) := Location(|v.frames|, |v.pending|, |stored|)],
       origins := v.origins[Sha256(stored) := p])
  }

  // ----- the invariant -----

  predicate Shape(run: Run, v: Packing) {
    && 0 < run.chunkSize <= MAX_CHUNK_SIZE && run.target <= MAX_PACK_TARGET
    && |v.packs| == |v.written|
    && |v.contents| == |v.pieces| == |v.frames| <= MAX_FRAMES
    && |v.Packs()| <= MAX_PACKS
    && |v.pending| <= run.chunkSize
    && |v.packWriter| <= PACK_LIMIT
    && (!v.packOpen ==> v.packWriter == [])
    && (v.pending == [] ==> v.pendingPieces == [])
  }

  /** Pack p's recorded size and digests are those of the bytes written to it. */
  predicate Recorded(v: Packing) {
    && |v.packs| == |v.written|
    && forall p :: 0 <= p < |v.packs| ==> |v.written[p]| < TWO_64 && v.packs[p] == RefOf(v.written[p])
  }

  /** A frame's entry describes content, and its bytes sit where it says. */
  ghost predicate Holds(f: Frame, content: Bytes, packs: seq<Bytes>, run: Run) {
    && f.packIndex < |packs|
    && f.End() <= |packs[f.packIndex]|
    && f.uncompressedLength == |content|
    && 0 < |content| <= run.chunkSize
    && f.xxh64Lo32 == Xxh64.Lo32(content)
    && EncodedAs(run.level, run.windowLog, f.rawBlocks, packs[f.packIndex][f.packOffset..f.End()], content)
    && (ZstdRoundTrips() ==>
          0 < f.compressedLength && Decompress(packs[f.packIndex][f.packOffset..f.End()]) == Some(content))
  }

  ghost predicate Framed(run: Run, v: Packing) {
    && |v.contents| == |v.frames|
    && forall i :: 0 <= i < |v.frames| ==> Holds(v.frames[i], v.contents[i], v.Packs(), run)
  }

  /** A pack stays within the target unless one frame fills it. */
  predicate Fits(frames: seq<Frame>, packs: seq<Bytes>, target: nat, p: nat)
    requires p < |packs|
  {
    && |packs[p]| <= PACK_LIMIT
    && (|packs[p]| <= target ||
        forall i, j :: 0 <= i < j < |frames| ==> !(frames[i].packIndex == p && frames[j].packIndex == p))
  }

  predicate Filled(run: Run, v: Packing) {
    forall p :: 0 <= p < |v.Packs()| ==> Fits(v.frames, v.Packs(), run.target, p)
  }

  function Lengths(packs: seq<Bytes>): (sizes: seq<u64>)
    requires forall p :: 0 <= p < |packs| ==> |packs[p]| < TWO_64
    ensures |sizes| == |packs| && forall p :: 0 <= p < |packs| ==> sizes[p] == |packs[p]|
  {
    seq<u64>(|packs|, p requires 0 <= p < |packs| => |packs[p]|)
  }

  /** The frames so far tile the packs so far. */
  ghost predicate Tiled(run: Run, v: Packing) {
    && (forall p :: 0 <= p < |v.Packs()| ==> |v.Packs()[p]| < TWO_64)
    && (ZstdRoundTrips() ==>
          Chain(v.frames, Lengths(v.Packs()), run.chunkSize) && Complete(v.frames, Lengths(v.Packs())))
  }

  /** A location names a slice of the run with the digest it is filed under. */
  predicate Located(run: Run, full: seq<Bytes>, d: Digest, loc: Location, origin: Piece) {
    && loc.frameIndex < |full|
    && 0 < loc.length
    && loc.innerOffset + loc.length <= |full[loc.frameIndex]|
    && PieceOk(run, origin)
    && full[loc.frameIndex][loc.innerOffset..loc.innerOffset + loc.length] == SliceOf(run, origin)
    && Sha256(SliceOf(run, origin)) == d
  }

  predicate Indexed(run: Run, v: Packing) {
    && v.sliceIndex.Keys == v.origins.Keys
    && forall d :: d in v.sliceIndex ==> d in v.origins && Located(run, v.Full(), d, v.sliceIndex[d], v.origins[d])
  }

  predicate PiecesOk(run: Run, pieces: seq<Piece>) {
    forall i :: 0 <= i < |pieces| ==> PieceOk(run, pieces[i])
  }

  /** The slices of some pieces, one after the other. */
  function Together(run: Run, pieces: seq<Piece>): Bytes
    requires PiecesOk(run, pieces)
  {
    if pieces == [] then []
    else Together(run, pieces[..|pieces| - 1]) + SliceOf(run, pieces[|pieces| - 1])
  }

  /** Every frame is made of whole slices of the run. */
  predicate Assembled(run: Run, v: Packing) {
    && |v.pieces| == |v.contents|
    && (forall i :: 0 <= i < |v.pieces| ==> PiecesOk(run, v.pieces[i]) && v.contents[i] == Together(run, v.pieces[i]))
    && PiecesOk(run, v.pendingPieces) && v.pending == Together(run, v.pendingPieces)
  }

  /** No two chunks of the walk store different bytes under one digest. */
  ghost predicate CollisionFree(run: Run) {
    forall p: Piece, q: Piece ::
      PieceOk(run, p) && PieceOk(run, q) && Sha256(SliceOf(run, p)) == Sha256(SliceOf(run, q)) ==>
        SliceOf(run, p) == SliceOf(run, q)
  }

  function Flat(pieces: seq<seq<Piece>>): seq<Piece> {
    if pieces == [] then [] else Flat(pieces[..|pieces| - 1]) + pieces[|pieces| - 1]
  }

  /** Every piece stored so far, in the order it was placed. */
  function Inventory(v: Packing): seq<Piece> {
    Flat(v.pieces) + v.pendingPieces
  }

  /** Everything stored is indexed by its digest, and no bytes are stored twice. */
  ghost predicate Deduplicated(run: Run, v: Packing) {
    && (forall i :: 0 <= i < |Inventory(v)| ==>
          PieceOk(run, Inventory(v)[i]) && Sha256(SliceOf(run, Inventory(v)[i])) in v.sliceIndex)
    && (CollisionFree(run) ==> Different(run, Inventory(v)))
  }

  ghost predicate Different(run: Run, pieces: seq<Piece>)
    requires forall i :: 0 <= i < |pieces| ==> PieceOk(run, pieces[i])
  {
    forall i, j :: 0 <= i < j < |pieces| ==> SliceOf(run, pieces[i]) != SliceOf(run, pieces[j])
  }

  ghost predicate Inv(run: Run, v: Packing) {
    && Shape(run, v) && Recorded(v) && Framed(run, v) && Filled(run, v)
    && Tiled(run, v) && Indexed(run, v) && Assembled(run, v) && Deduplicated(run, v)
  }

  lemma EmptyInv(run: Run)
    requires 0 < run.chunkSize <= MAX_CHUNK_SIZE && run.target <= MAX_PACK_TARGET
    ensures Inv(run, EMPTY)
  {
  }

  // ----- growth -----

  /** Each sequence of bytes only ever gets longer, and more are added after. */
  predicate Grows(a: seq<Bytes>, b: seq<Bytes>) {
    |a| <= |b| && forall i :: 0 <= i < |a| ==> a[i] <= b[i]
  }

  lemma GrowsTransitive(a: seq<Bytes>, b: seq<Bytes>, c: seq<Bytes>)
    requires Grows(a, b) && Grows(b, c)
    ensures Grows(a, c)
  {
  }

  /** From v to w frame contents only grew, and without collisions no digest moved
      to another place. */
  ghost predicate Extends(run: Run, v: Packing, w: Packing) {
    Grows(v.Full(), w.Full()) && (CollisionFree(run) ==> IndexKept(v.sliceIndex, w.sliceIndex))
  }

  predicate IndexKept(a: map<Digest, Location>, b: map<Digest, Location>) {
    forall d :: d in a ==> d in b && b[d] == a[d]
  }

  lemma ExtendsTransitive(run: Run, u: Packing, v: Packing, w: Packing)
    requires Extends(run, u, v) && Extends(run, v, w)
    ensures Extends(run, u, w)
  {
    hide CollisionFree;
    GrowsTransitive(u.Full(), v.Full(), w.Full());
  }

  lemma ExtendsItself(run: Run, v: Packing)
    ensures Extends(run, v, v)
  {
    hide CollisionFree;
  }

  lemma SliceKept(a: Bytes, b: Bytes, lo: nat, hi: nat)
    requires a <= b && lo <= hi <= |a|
    ensures hi <= |b| && b[lo..hi] == a[lo..hi]
  {
    assert a == b[..|a|];
  }

  lemma HoldsGrow(f: Frame, content: Bytes, a: seq<Bytes>, b: seq<Bytes>, run: Run)
    requires Holds(f, content, a, run) && Grows(a, b)
    ensures Holds(f, content, b, run)
  {
    hide EncodedAs, Xxh64.Lo32;
    SliceKept(a[f.packIndex], b[f.packIndex], f.packOffset, f.End());
  }

  lemma LocatedGrow(run: Run, a: seq<Bytes>, b: seq<Bytes>, d: Digest, loc: Location, origin: Piece)
    requires Located(run, a, d, loc, origin) && Grows(a, b)
    ensures Located(run, b, d, loc, origin)
  {
    SliceKept(a[loc.frameIndex], b[loc.frameIndex], loc.innerOffset, loc.innerOffset + loc.length);
  }

  // ----- adding to the frame under assembly -----

  lemma AddedLocated(run: Run, v: Packing, p: Piece)
    requires Shape(run, v) && PieceOk(run, p) && SliceOf(run, p) != []
    ensures Grows(v.Full(), Added(v, p, SliceOf(run, p)).Full())
    ensures Located(run, Added(v, p, SliceOf(run, p)).Full(), Sha256(SliceOf(run, p)),
                    Location(|v.frames|, |v.pending|, |SliceOf(run, p)|), p)
  {
    hide PieceOk, SliceOf;
    var slice := SliceOf(run, p);
    var full := Added(v, p, slice).Full();
    assert full[|v.frames|] == v.pending + slice;
    assert (v.pending + slice)[|v.pending|..|v.pending| + |slice|] == slice;
  }

  lemma AddedIndexed(run: Run, v: Packing, p: Piece)
    requires Shape(run, v) && Indexed(run, v) && PieceOk(run, p) && SliceOf(run, p) != []
    ensures Indexed(run, Added(v, p, SliceOf(run, p)))
  {
    hide PieceOk, SliceOf, Grows;
    var w := Added(v, p, SliceOf(run, p));
    AddedLocated(run, v, p);
    hide Located;
    forall d | d in w.sliceIndex
      ensures d in w.origins && Located(run, w.Full(), d, w.sliceIndex[d], w.origins[d])
    {
      if d != Sha256(SliceOf(run, p)) {
        LocatedGrow(run, v.Full(), w.Full(), d, v.sliceIndex[d], v.origins[d]);
      }
    }
  }

  lemma TogetherSnoc(run: Run, pieces: seq<Piece>, p: Piece)
    requires PiecesOk(run, pieces) && PieceOk(run, p)
    ensures PiecesOk(run, pieces + [p])
    ensures Together(run, pieces + [p]) == Together(run, pieces) + SliceOf(run, p)
  {
    assert (pieces + [p])[..|pieces|] == pieces;
  }

  lemma SameStorage(run: Run, v: Packing, w: Packing)
    requires Framed(run, v) && Filled(run, v) && Tiled(run, v)
    requires w.Packs() == v.Packs() && w.frames == v.frames && w.contents == v.contents
    ensures Framed(run, w) && Filled(run, w) && Tiled(run, w)
  {
    hide Holds, Fits, Chain, Complete;
  }

  lemma AddedRest(run: Run, v: Packing, p: Piece)
    requires Shape(run, v) && Recorded(v) && Assembled(run, v)
    requires PieceOk(run, p) && SliceOf(run, p) != [] && |v.pending| + |SliceOf(run, p)| <= run.chunkSize
    ensures Shape(run, Added(v, p, SliceOf(run, p))) && Recorded(Added(v, p, SliceOf(run, p)))
    ensures Assembled(run, Added(v, p, SliceOf(run, p)))
  {
    hide PieceOk, SliceOf, PiecesOk, Together, RefOf;
    TogetherSnoc(run, v.pendingPieces, p);
  }

  /** Nothing of this length is filed under these bytes' digest. */
  predicate Unseen(v: Packing, stored: Bytes) {
    !(Sha256(stored) in v.sliceIndex && v.sliceIndex[Sha256(stored)].length == |stored|)
  }

  /** Without collisions, bytes not seen have a digest not seen. */
  lemma UnseenDigest(run: Run, v: Packing, p: Piece)
    requires Indexed(run, v) && PieceOk(run, p) && Unseen(v, SliceOf(run, p)) && CollisionFree(run)
    ensures Sha256(SliceOf(run, p)) !in v.sliceIndex
  {
    hide PieceOk, SliceOf;
    var d := Sha256(SliceOf(run, p));
    if d in v.sliceIndex {
      assert Located(run, v.Full(), d, v.sliceIndex[d], v.origins[d]);
      SameDigest(run, p, v.origins[d]);
    }
  }

  lemma SameDigest(run: Run, p: Piece, q: Piece)
    requires CollisionFree(run) && PieceOk(run, p) && PieceOk(run, q)
    requires Sha256(SliceOf(run, p)) == Sha256(SliceOf(run, q))
    ensures SliceOf(run, p) == SliceOf(run, q)
  {
    hide PieceOk, SliceOf;
  }

  lemma SameInventory(run: Run, v: Packing, w: Packing)
    requires Deduplicated(run, v) && Inventory(w) == Inventory(v) && w.sliceIndex == v.sliceIndex
    ensures Deduplicated(run, w)
  {
    hide PieceOk, SliceOf, CollisionFree, Different, Inventory;
  }

  lemma AddedInventory(v: Packing, p: Piece, stored: Bytes)
    requires |v.frames| < TWO_32 && |v.pending| < TWO_64 && |stored| < TWO_64
    ensures Inventory(Added(v, p, stored)) == Inventory(v) + [p]
  {
    hide Flat;
  }

  lemma AddedDeduplicated(run: Run, v: Packing, p: Piece)
    requires Shape(run, v) && Indexed(run, v) && Deduplicated(run, v) && PieceOk(run, p) && Unseen(v, SliceOf(run, p))
    ensures Deduplicated(run, Added(v, p, SliceOf(run, p)))
  {
    AddedInventory(v, p, SliceOf(run, p));
    hide PieceOk, SliceOf, Inventory, Indexed, CollisionFree;
    var w, before := Added(v, p, SliceOf(run, p)), Inventory(v);
    forall i | 0 <= i < |Inventory(w)|
      ensures PieceOk(run, Inventory(w)[i]) && Sha256(SliceOf(run, Inventory(w)[i])) in w.sliceIndex
    {
      assert i < |before| ==> Inventory(w)[i] == before[i];
    }
    if CollisionFree(run) {
      UnseenDigest(run, v, p);
      DifferentSnoc(run, before, p);
    }
  }

  lemma DifferentSnoc(run: Run, pieces: seq<Piece>, p: Piece)
    requires PieceOk(run, p) && forall i :: 0 <= i < |pieces| ==> PieceOk(run, pieces[i])
    requires Different(run, pieces)
    requires forall i :: 0 <= i < |pieces| ==> SliceOf(run, pieces[i]) != SliceOf(run, p)
    ensures Different(run, pieces + [p])
  {
    hide PieceOk, SliceOf;
  }

  lemma AddedExtends(run: Run, v: Packing, p: Piece)
    requires Shape(run, v) && Indexed(run, v) && PieceOk(run, p) && SliceOf(run, p) != [] && Unseen(v, SliceOf(run, p))
    ensures Extends(run, v, Added(v, p, SliceOf(run, p)))
  {
    hide PieceOk, SliceOf, Indexed, CollisionFree, Grows, Located;
    AddedLocated(run, v, p);
    if CollisionFree(run) {
      UnseenDigest(run, v, p);
    }
  }

  /** A slice that fits under the chunk size may join the frame under assembly. */
  lemma AddedInv(run: Run, v: Packing, p: Piece)
    requires Inv(run, v) && PieceOk(run, p) && SliceOf(run, p) != [] && Unseen(v, SliceOf(run, p))
    requires |v.pending| + |SliceOf(run, p)| <= run.chunkSize
    ensures Inv(run, Added(v, p, SliceOf(run, p)))
    ensures Extends(run, v, Added(v, p, SliceOf(run, p)))
  {
    hide PieceOk, SliceOf, Recorded, Framed, Filled, Tiled, Indexed, Assembled, Deduplicated, Grows, Located, Extends, Unseen;
    AddedRest(run, v, p);
    SameStorage(run, v, Added(v, p, SliceOf(run, p)));
    AddedIndexed(run, v, p);
    AddedDeduplicated(run, v, p);
    AddedExtends(run, v, p);
  }

  // ----- closing a pack -----

  lemma ClosedRest(run: Run, v: Packing)
    requires Shape(run, v) && Recorded(v) && Indexed(run, v) && Assembled(run, v) && Deduplicated(run, v)
    ensures Closed(v).Packs() == v.Packs()
    ensures Shape(run, Closed(v)) && Recorded(Closed(v)) && Indexed(run, Closed(v)) && Assembled(run, Closed(v))
    ensures Deduplicated(run, Closed(v))
  {
    hide Located, PiecesOk, Together, RefOf, Deduplicated, Flat;
    assert Inventory(Closed(v)) == Inventory(v);
    SameInventory(run, v, Closed(v));
  }

  /** Closing the open pack moves its bytes, and changes no pack's content. */
  lemma ClosedInv(run: Run, v: Packing)
    requires Inv(run, v)
    ensures Closed(v).Packs() == v.Packs() && Inv(run, Closed(v))
  {
    hide Recorded, Framed, Filled, Tiled, Indexed, Assembled, Deduplicated, RefOf;
    ClosedRest(run, v);
    SameStorage(run, v, Closed(v));
  }

  // ----- writing a frame -----

  /** An open pack the next frame continues, which may hold nothing yet. */
  ghost predicate Ready(run: Run, v: Packing) {
    && v.packOpen
    && Shape(run, v) && Recorded(v) && Framed(run, v) && Filled(run, v) && Indexed(run, v) && Assembled(run, v)
    && Deduplicated(run, v) && Continues(run, v)
  }

  ghost predicate Continues(run: Run, v: Packing) {
    && (forall p :: 0 <= p < |v.Packs()| ==> |v.Packs()[p]| < TWO_64)
    && (ZstdRoundTrips() ==>
          && Chain(v.frames, Lengths(v.Packs()), run.chunkSize)
          && Expects(v.frames, Lengths(v.Packs()), |v.packs|, |v.packWriter|))
  }

  /** A frame fits the open pack, or is its first. */
  predicate Room(run: Run, v: Packing, length: nat) {
    || |v.packWriter| + length <= run.target
    || (v.packWriter == [] && forall i :: 0 <= i < |v.frames| ==> v.frames[i].packIndex < |v.packs|)
  }

  /** What the encoder returned stands for the frame under assembly. */
  ghost predicate Encodes(run: Run, encoded: Encoded, content: Bytes) {
    && |encoded.bytes| <= ENCODED_LIMIT
    && EncodedAs(run.level, run.windowLog, encoded.rawBlocks, encoded.bytes, content)
    && (ZstdRoundTrips() ==> encoded.bytes != [] && Decompress(encoded.bytes) == Some(content))
  }

  // The frame table as the open pack fills and as the next one opens.

  lemma EndsInLast(frames: seq<Frame>, sizes: seq<u64>)
    requires Complete(frames, sizes) && sizes != []
    ensures Expects(frames, sizes, |sizes| - 1, sizes[|sizes| - 1])
  {
  }

  lemma ChainWidens(frames: seq<Frame>, sizes: seq<u64>, wider: seq<u64>, chunkSize: nat)
    requires Chain(frames, sizes, chunkSize)
    requires |sizes| <= |wider|
    requires forall p :: 0 <= p < |sizes| ==> sizes[p] <= wider[p]
    requires forall p :: 0 <= p < |sizes| - 1 ==> sizes[p] == wider[p]
    ensures Chain(frames, wider, chunkSize)
  {
    forall i | 0 <= i < |frames|
      ensures FrameBounds(frames[i], wider, chunkSize)
    {
      assert FrameBounds(frames[i], sizes, chunkSize);
    }
    forall i | 0 <= i < |frames| - 1
      ensures Follows(frames[i], frames[i + 1], wider)
    {
      assert Follows(frames[i], frames[i + 1], sizes);
      assert FrameBounds(frames[i + 1], sizes, chunkSize);
    }
  }

  lemma NextPack(frames: seq<Frame>, sizes: seq<u64>, chunkSize: nat)
    requires Chain(frames, sizes, chunkSize) && Complete(frames, sizes)
    ensures Chain(frames, sizes + [0], chunkSize)
    ensures Expects(frames, sizes + [0], |sizes|, 0)
  {
    ChainWidens(frames, sizes, sizes + [0], chunkSize);
  }

  lemma FrameAppended(frames: seq<Frame>, sizes: seq<u64>, f: Frame, chunkSize: nat)
    requires Chain(frames, sizes, chunkSize) && sizes != []
    requires f.packIndex == |sizes| - 1 && f.packOffset == sizes[|sizes| - 1]
    requires Expects(frames, sizes, f.packIndex, f.packOffset)
    requires 0 < f.compressedLength && 0 < f.uncompressedLength <= chunkSize && f.End() < TWO_64
    ensures Chain(frames + [f], sizes[|sizes| - 1 := f.End()], chunkSize)
    ensures Complete(frames + [f], sizes[|sizes| - 1 := f.End()])
  {
    var wider := sizes[|sizes| - 1 := f.End()];
    ChainWidens(frames, sizes, wider, chunkSize);
    ChainSnoc(frames, f, wider, chunkSize);
  }

  lemma InvReady(run: Run, v: Packing)
    requires Inv(run, v) && v.packOpen
    ensures Ready(run, v)
  {
    assert |v.packs| == |v.written|;
    hide Holds, Located, PieceOk, Fits, Chain, Complete, Expects, Shape, Recorded, Framed, Filled, Indexed, Assembled, Deduplicated;
    if ZstdRoundTrips() {
      EndsInLast(v.frames, Lengths(v.Packs()));
    }
  }

  lemma FramedGrow(run: Run, v: Packing, w: Packing)
    requires Framed(run, v) && Grows(v.Packs(), w.Packs())
    requires w.frames == v.frames && w.contents == v.contents
    ensures Framed(run, w)
  {
    forall i | 0 <= i < |v.frames|
      ensures Holds(w.frames[i], w.contents[i], w.Packs(), run)
    {
      HoldsGrow(v.frames[i], v.contents[i], v.Packs(), w.Packs(), run);
    }
  }

  lemma OpenedFilled(run: Run, v: Packing)
    requires Filled(run, v) && !v.packOpen
    ensures Filled(run, Opened(v))
  {
    var w := Opened(v);
    assert w.Packs() == v.Packs() + [[]];
    forall p | 0 <= p < |w.Packs()|
      ensures Fits(w.frames, w.Packs(), run.target, p)
    {
      if p < |v.Packs()| {
        assert Fits(v.frames, v.Packs(), run.target, p);
      }
    }
  }

  lemma OpenedContinues(run: Run, v: Packing)
    requires Tiled(run, v) && !v.packOpen && |v.packs| == |v.written|
    ensures Continues(run, Opened(v))
  {
    hide Chain, Complete, Expects;
    var w := Opened(v);
    assert w.Packs() == v.Packs() + [[]];
    if ZstdRoundTrips() {
      NextPack(v.frames, Lengths(v.Packs()), run.chunkSize);
      assert Lengths(w.Packs()) == Lengths(v.Packs()) + [0];
    }
  }

  lemma OpenedRest(run: Run, v: Packing)
    requires Shape(run, v) && Recorded(v) && Indexed(run, v) && Assembled(run, v) && Deduplicated(run, v)
    requires !v.packOpen && |v.packs| < MAX_PACKS
    ensures Shape(run, Opened(v)) && Recorded(Opened(v)) && Indexed(run, Opened(v)) && Assembled(run, Opened(v))
    ensures Deduplicated(run, Opened(v))
    ensures Grows(v.Packs(), Opened(v).Packs())
  {
    hide Located, PiecesOk, Together, RefOf, Deduplicated, Flat;
    assert Inventory(Opened(v)) == Inventory(v);
    SameInventory(run, v, Opened(v));
  }

  lemma AllClosed(run: Run, v: Packing)
    requires Framed(run, v) && !v.packOpen && |v.packs| == |v.written|
    ensures forall i :: 0 <= i < |v.frames| ==> v.frames[i].packIndex < |v.packs|
  {
    forall i | 0 <= i < |v.frames|
      ensures v.frames[i].packIndex < |v.packs|
    {
      assert Holds(v.frames[i], v.contents[i], v.Packs(), run);
    }
  }

  lemma OpenedReady(run: Run, v: Packing)
    requires Inv(run, v) && !v.packOpen && |v.packs| < MAX_PACKS
    ensures Ready(run, Opened(v))
    ensures forall i :: 0 <= i < |v.frames| ==> v.frames[i].packIndex < |v.packs|
  {
    hide Framed, Filled, Continues, Tiled, Indexed, Assembled, Deduplicated, Grows, Recorded;
    OpenedRest(run, v);
    FramedGrow(run, v, Opened(v));
    OpenedFilled(run, v);
    OpenedContinues(run, v);
    AllClosed(run, v);
  }

  // ----- emitting the frame under assembly -----

  lemma EmittedPacks(v: Packing, encoded: Encoded)
    requires v.packOpen && |v.packs| < TWO_32 && |v.packWriter| < TWO_64
    requires |encoded.bytes| < TWO_64 && |v.pending| < TWO_64
    ensures |v.Packs()| == |v.written| + 1 && v.Packs()[|v.written|] == v.packWriter
    ensures Emitted(v, encoded).Packs() == v.Packs()[|v.written| := v.packWriter + encoded.bytes]
  {
  }

  lemma EmittedGrows(v: Packing, encoded: Encoded)
    requires v.packOpen && |v.packs| < TWO_32 && |v.packWriter| < TWO_64
    requires |encoded.bytes| < TWO_64 && |v.pending| < TWO_64
    ensures Grows(v.Packs(), Emitted(v, encoded).Packs())
    ensures Grows(v.Full(), Emitted(v, encoded).Full())
    ensures |Emitted(v, encoded).Packs()| == |v.Packs()|
  {
    hide Xxh64.Lo32;
    EmittedPacks(v, encoded);
    assert Emitted(v, encoded).Full() == v.Full() + [[]];
  }

  lemma HoldsAtEnd(f: Frame, content: Bytes, packs: seq<Bytes>, before: Bytes, encoded: Bytes, run: Run)
    requires f.packIndex < |packs| && packs[f.packIndex] == before + encoded
    requires f.packOffset == |before| && f.compressedLength == |encoded|
    requires f.uncompressedLength == |content| && 0 < |content| <= run.chunkSize && f.xxh64Lo32 == Xxh64.Lo32(content)
    requires EncodedAs(run.level, run.windowLog, f.rawBlocks, encoded, content)
    requires ZstdRoundTrips() ==> encoded != [] && Decompress(encoded) == Some(content)
    ensures Holds(f, content, packs, run)
  {
    hide Xxh64.Lo32, EncodedAs, ZstdRoundTrips;
    assert (before + encoded)[|before|..|before| + |encoded|] == encoded;
  }

  lemma EmittedHolds(run: Run, v: Packing, encoded: Encoded)
    requires v.packOpen && Shape(run, v) && v.pending != [] && Encodes(run, encoded, v.pending)
    ensures Holds(FrameFor(v, encoded), v.pending, Emitted(v, encoded).Packs(), run)
  {
    EmittedPacks(v, encoded);
    hide Holds, Emitted, EncodedAs;
    HoldsAtEnd(FrameFor(v, encoded), v.pending, Emitted(v, encoded).Packs(), v.packWriter, encoded.bytes, run);
  }

  lemma EmittedFramed(run: Run, v: Packing, encoded: Encoded)
    requires v.packOpen && Shape(run, v) && Framed(run, v) && v.pending != [] && Encodes(run, encoded, v.pending)
    ensures Framed(run, Emitted(v, encoded))
  {
    hide EncodedAs, ZstdRoundTrips, Grows, Holds, Xxh64.Lo32;
    var w := Emitted(v, encoded);
    EmittedGrows(v, encoded);
    EmittedHolds(run, v, encoded);
    forall i | 0 <= i < |w.frames|
      ensures Holds(w.frames[i], w.contents[i], w.Packs(), run)
    {
      if i < |v.frames| {
        HoldsGrow(v.frames[i], v.contents[i], v.Packs(), w.Packs(), run);
      }
    }
  }

  lemma EmittedFilled(run: Run, v: Packing, encoded: Encoded)
    requires v.packOpen && Shape(run, v) && Filled(run, v) && Encodes(run, encoded, v.pending)
    requires Room(run, v, |encoded.bytes|)
    ensures Filled(run, Emitted(v, encoded))
  {
    RoomBounds(run, v, |encoded.bytes|);
    EmittedPacks(v, encoded);
    var packs, after := v.Packs(), Emitted(v, encoded).Packs();
    hide Encodes, Xxh64.Lo32;
    forall p | 0 <= p < |after|
      ensures Fits(v.frames + [FrameFor(v, encoded)], after, run.target, p)
    {
      assert Fits(v.frames, packs, run.target, p);
      FitsMore(run, v, encoded, packs, after, p);
    }
  }

  lemma FitsMore(run: Run, v: Packing, encoded: Encoded, packs: seq<Bytes>, after: seq<Bytes>, p: nat)
    requires Shape(run, v) && |v.packs| < TWO_32 && |encoded.bytes| < TWO_64
    requires |packs| == |v.packs| + 1 && after == packs[|v.packs| := v.packWriter + encoded.bytes]
    requires |v.packWriter| + |encoded.bytes| <= PACK_LIMIT && Room(run, v, |encoded.bytes|)
    requires p < |packs| && Fits(v.frames, packs, run.target, p)
    ensures Fits(v.frames + [FrameFor(v, encoded)], after, run.target, p)
  {
    hide Xxh64.Lo32;
    var frames := v.frames + [FrameFor(v, encoded)];
    if |after[p]| > run.target {
      forall i, j | 0 <= i < j < |frames|
        ensures !(frames[i].packIndex == p && frames[j].packIndex == p)
      {
      }
    }
  }

  lemma EmittedTiled(run: Run, v: Packing, encoded: Encoded)
    requires v.packOpen && Shape(run, v) && Continues(run, v) && v.pending != [] && Encodes(run, encoded, v.pending)
    ensures Tiled(run, Emitted(v, encoded))
  {
    hide Chain, Complete, Expects, Lengths, Xxh64.Lo32, EncodedAs, ZstdRoundTrips;
    EmittedPacks(v, encoded);
    var f, packs, after := FrameFor(v, encoded), v.Packs(), Emitted(v, encoded).Packs();
    if ZstdRoundTrips() {
      var sizes := Lengths(packs);
      FrameAppended(v.frames, sizes, f, run.chunkSize);
      LengthsUpdate(packs, |v.written|, v.packWriter + encoded.bytes);
    }
  }

  lemma LengthsUpdate(packs: seq<Bytes>, p: nat, pack: Bytes)
    requires (forall q :: 0 <= q < |packs| ==> |packs[q]| < TWO_64) && p < |packs| && |pack| < TWO_64
    ensures Lengths(packs[p := pack]) == Lengths(packs)[p := |pack|]
  {
  }

  lemma IndexedGrow(run: Run, v: Packing, w: Packing)
    requires Indexed(run, v) && Grows(v.Full(), w.Full())
    requires w.sliceIndex == v.sliceIndex && w.origins == v.origins
    ensures Indexed(run, w)
  {
    forall d | d in w.sliceIndex
      ensures Located(run, w.Full(), d, w.sliceIndex[d], w.origins[d])
    {
      LocatedGrow(run, v.Full(), w.Full(), d, v.sliceIndex[d], v.origins[d]);
    }
  }

  lemma EmittedShape(run: Run, v: Packing, encoded: Encoded)
    requires v.packOpen && Shape(run, v) && Recorded(v) && |v.frames| < MAX_FRAMES
    requires |v.packWriter| + |encoded.bytes| <= PACK_LIMIT
    ensures Shape(run, Emitted(v, encoded)) && Recorded(Emitted(v, encoded))
  {
    hide RefOf, Xxh64.Lo32;
    EmittedPacks(v, encoded);
  }

  lemma EmittedAssembled(run: Run, v: Packing, encoded: Encoded)
    requires Shape(run, v) && Assembled(run, v) && |v.packs| < TWO_32 && |encoded.bytes| < TWO_64
    ensures Assembled(run, Emitted(v, encoded))
  {
    NoPieces(run);
    hide PiecesOk, Together, Xxh64.Lo32;
  }

  lemma EmittedInventory(v: Packing, encoded: Encoded)
    requires |v.packs| < TWO_32 && |v.packWriter| < TWO_64 && |encoded.bytes| < TWO_64 && |v.pending| < TWO_64
    ensures Inventory(Emitted(v, encoded)) == Inventory(v)
  {
    assert (v.pieces + [v.pendingPieces])[..|v.pieces|] == v.pieces;
  }

  lemma EmittedDeduplicated(run: Run, v: Packing, encoded: Encoded)
    requires Deduplicated(run, v)
    requires |v.packs| < TWO_32 && |v.packWriter| < TWO_64 && |encoded.bytes| < TWO_64 && |v.pending| < TWO_64
    ensures Deduplicated(run, Emitted(v, encoded))
  {
    hide Deduplicated, Inventory, Xxh64.Lo32;
    EmittedInventory(v, encoded);
    SameInventory(run, v, Emitted(v, encoded));
  }

  lemma NoPieces(run: Run)
    ensures PiecesOk(run, []) && Together(run, []) == []
  {
  }

  lemma RoomBounds(run: Run, v: Packing, length: nat)
    requires Shape(run, v) && Room(run, v, length) && length <= ENCODED_LIMIT
    ensures |v.packWriter| + length <= PACK_LIMIT
  {
  }

  /** Writing the frame under assembly into an open pack keeps the invariant. */
  lemma EmittedInv(run: Run, v: Packing, encoded: Encoded)
    requires Ready(run, v) && v.pending != [] && |v.frames| < MAX_FRAMES
    requires Encodes(run, encoded, v.pending) && Room(run, v, |encoded.bytes|)
    ensures Inv(run, Emitted(v, encoded))
    ensures Grows(v.Full(), Emitted(v, encoded).Full())
  {
    hide Framed, Filled, Continues, Tiled, Indexed, Assembled, Deduplicated, Grows, Recorded, Room;
    RoomBounds(run, v, |encoded.bytes|);
    EmittedShape(run, v, encoded);
    EmittedAssembled(run, v, encoded);
    EmittedDeduplicated(run, v, encoded);
    EmittedGrows(v, encoded);
    EmittedFramed(run, v, encoded);
    EmittedFilled(run, v, encoded);
    EmittedTiled(run, v, encoded);
    IndexedGrow(run, v, Emitted(v, encoded));
  }

  // ----- flushing -----

  /** A frame that would push the open pack past its target closes it first. */
  function Settled(target: nat, v: Packing, length: nat): Packing
    requires |v.packWriter| < TWO_64
  {
    if v.packOpen && |v.packWriter| + length > target then Closed(v) else v
  }

  function Reopened(v: Packing): Packing {
    if v.packOpen then v else Opened(v)
  }

  /** Writes the frame under assembly, never splitting it across packs. */
  function Flushed(target: nat, v: Packing, encoded: Encoded): Packing
    requires |v.packs| < TWO_32 - 1 && |v.packWriter| < TWO_64 && |encoded.bytes| < TWO_64 && |v.pending| < TWO_64
  {
    Emitted(Reopened(Settled(target, v, |encoded.bytes|)), encoded)
  }

  lemma SettledInv(run: Run, v: Packing, length: nat)
    requires Inv(run, v)
    ensures Inv(run, Settled(run.target, v, length))
    ensures Settled(run.target, v, length).packOpen ==> |v.packWriter| + length <= run.target
  {
    hide Recorded, Framed, Filled, Tiled, Indexed, Assembled, Deduplicated;
    ClosedInv(run, v);
  }

  lemma ReopenedReady(run: Run, v: Packing, length: nat)
    requires Inv(run, v)
    requires !v.packOpen ==> |v.packs| < MAX_PACKS
    requires v.packOpen ==> |v.packWriter| + length <= run.target
    ensures Ready(run, Reopened(v)) && Room(run, Reopened(v), length)
  {
    hide Recorded, Framed, Filled, Tiled, Indexed, Assembled, Deduplicated, Continues;
    if v.packOpen {
      InvReady(run, v);
    } else {
      OpenedReady(run, v);
    }
  }

  /** Flushing keeps the invariant, and no frame content already placed moves. */
  lemma FlushedInv(run: Run, v: Packing, encoded: Encoded)
    requires Inv(run, v) && v.pending != [] && |v.frames| < MAX_FRAMES && Encodes(run, encoded, v.pending)
    requires !Settled(run.target, v, |encoded.bytes|).packOpen ==>
               |Settled(run.target, v, |encoded.bytes|).packs| < MAX_PACKS
    ensures Inv(run, Flushed(run.target, v, encoded))
    ensures Grows(v.Full(), Flushed(run.target, v, encoded).Full())
  {
    hide Recorded, Framed, Filled, Tiled, Indexed, Assembled, Deduplicated, Continues, Room, Grows, Encodes;
    var u := Settled(run.target, v, |encoded.bytes|);
    SettledInv(run, v, |encoded.bytes|);
    ReopenedReady(run, u, |encoded.bytes|);
    EmittedInv(run, Reopened(u), encoded);
  }

  // ----- the write position -----

  /** pos is where frame n starts, or the end of the pack just before it. */
  predicate StartsAt(packs: seq<PackRef>, pos: PriorityBoundary, f: Frame) {
    || (pos.packIndex == f.packIndex && pos.packOffset == f.packOffset)
    || (pos.packIndex + 1 == f.packIndex && f.packOffset == 0 && pos.packIndex < |packs| &&
        pos.packOffset == packs[pos.packIndex].sizeBytes)
  }

  /** pos is where the next frame would be written, or the end of a pack closed since. */
  predicate EndsAt(v: Packing, pos: PriorityBoundary) {
    || (pos.packIndex == |v.packs| && pos.packOffset == |v.packWriter|)
    || (!v.packOpen && pos.packIndex + 1 == |v.packs| && pos.packOffset == v.packs[pos.packIndex].sizeBytes)
  }

  /** pos is the position between frame n - 1 and frame n. */
  predicate At(v: Packing, pos: PriorityBoundary, n: nat) {
    && n <= |v.frames|
    && if n < |v.frames| then StartsAt(v.packs, pos, v.frames[n]) else EndsAt(v, pos)
  }

  lemma AtClosed(v: Packing, pos: PriorityBoundary, n: nat)
    requires At(v, pos, n) && |v.packWriter| < TWO_64
    ensures At(Closed(v), pos, n)
  {
  }

  lemma AtEmitted(v: Packing, pos: PriorityBoundary, n: nat, encoded: Encoded)
    requires At(v, pos, n) && |v.packs| < TWO_32 - 1 && |v.packWriter| < TWO_64
    requires |encoded.bytes| < TWO_64 && |v.pending| < TWO_64 && (!v.packOpen ==> v.packWriter == [])
    ensures At(Emitted(Reopened(v), encoded), pos, n)
  {
    hide Xxh64.Lo32;
  }

  /** A recorded position keeps its meaning as later frames are written. */
  lemma AtFlushed(target: nat, v: Packing, pos: PriorityBoundary, n: nat, encoded: Encoded)
    requires At(v, pos, n) && |v.packs| < TWO_32 - 2 && |v.packWriter| < TWO_64
    requires |encoded.bytes| < TWO_64 && |v.pending| < TWO_64 && (!v.packOpen ==> v.packWriter == [])
    ensures At(Flushed(target, v, encoded), pos, n)
  {
    hide At, Emitted;
    AtClosed(v, pos, n);
    AtEmitted(Settled(target, v, |encoded.bytes|), pos, n, encoded);
  }

  /** Every position recorded in v means the same in w, and frames written in v hold
      the same pieces in w. */
  ghost predicate KeepsPositions(v: Packing, w: Packing) {
    && |v.pieces| <= |w.pieces| && (forall f :: 0 <= f < |v.pieces| ==> w.pieces[f] == v.pieces[f])
    && forall pos: PriorityBoundary, n: nat :: At(v, pos, n) ==> At(w, pos, n)
  }

  lemma FlushedPieces(target: nat, v: Packing, encoded: Encoded)
    requires |v.packs| < TWO_32 - 1 && |v.packWriter| < TWO_64 && |encoded.bytes| < TWO_64 && |v.pending| < TWO_64
    ensures Flushed(target, v, encoded).pieces == v.pieces + [v.pendingPieces]
  {
    hide Xxh64.Lo32;
  }

  lemma KeepsFlushed(run: Run, v: Packing, encoded: Encoded)
    requires Inv(run, v) && |encoded.bytes| < TWO_64
    ensures KeepsPositions(v, Flushed(run.target, v, encoded))
  {
    hide Recorded, Framed, Filled, Tiled, Indexed, Assembled, Deduplicated, Flushed, At;
    FlushedPieces(run.target, v, encoded);
    forall pos: PriorityBoundary, n: nat | At(v, pos, n)
      ensures At(Flushed(run.target, v, encoded), pos, n)
    {
      AtFlushed(run.target, v, pos, n, encoded);
    }
  }

  // ----- small and large frames -----

  predicate IsSmall(run: Run, p: Piece) {
    p.owner < |run.sources| && run.sources[p.owner].size <= run.chunkSize
  }

  predicate SmallPieces(run: Run, pieces: seq<Piece>) {
    forall i :: 0 <= i < |pieces| ==> IsSmall(run, pieces[i])
  }

  /** Nothing but content of these inodes has been stored. */
  ghost predicate Stocked(v: Packing, done: set<nat>) {
    forall i :: 0 <= i < |Inventory(v)| ==> Inventory(v)[i].owner in done
  }

  lemma {:induction false} FlatAt(pieces: seq<seq<Piece>>, f: nat, k: nat) returns (i: nat)
    requires f < |pieces| && k < |pieces[f]|
    ensures i < |Flat(pieces)| && Flat(pieces)[i] == pieces[f][k]
    decreases |pieces|
  {
    var front := pieces[..|pieces| - 1];
    if f < |front| {
      i := FlatAt(front, f, k);
    } else {
      i := |Flat(front)| + k;
    }
  }

  /** So it is with every written frame. */
  lemma StockedFrame(v: Packing, done: set<nat>, f: nat, k: nat)
    requires Stocked(v, done) && f < |v.pieces| && k < |v.pieces[f]|
    ensures v.pieces[f][k].owner in done
  {
    var i := FlatAt(v.pieces, f, k);
    assert Inventory(v)[i] == v.pieces[f][k];
  }

  /** Only small files have been stored. */
  predicate AllSmall(run: Run, v: Packing) {
    (forall f :: 0 <= f < |v.pieces| ==> SmallPieces(run, v.pieces[f])) && SmallPieces(run, v.pendingPieces)
  }

  lemma SmallAdded(run: Run, v: Packing, p: Piece, stored: Bytes)
    requires |v.frames| < TWO_32 && |v.pending| < TWO_64 && |stored| < TWO_64
    requires AllSmall(run, v) && IsSmall(run, p)
    ensures AllSmall(run, Added(v, p, stored))
  {
  }

  lemma SmallFlushed(run: Run, v: Packing, encoded: Encoded)
    requires |v.packs| < TWO_32 - 1 && |v.packWriter| < TWO_64 && |encoded.bytes| < TWO_64 && |v.pending| < TWO_64
    requires AllSmall(run, v)
    ensures AllSmall(run, Flushed(run.target, v, encoded))
  {
    hide SmallPieces, Xxh64.Lo32;
    assert SmallPieces(run, []) by { NoneSmall(run); }
  }

  lemma NoneSmall(run: Run)
    ensures SmallPieces(run, [])
  {
  }
}
