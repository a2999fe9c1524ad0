/**
What a manifest must satisfy, stated declaratively: one rooted tree, closed
hardlink groups, exact chunk coverage, frames that tile their packs, and totals
that match the tree. Validate.dfy decides this by the scans of
vcs/archive/validate.go.
 */
module Valid {
  import opened Basics
  import opened Extents
  import opened Content
  import opened Manifest
  import opened Frames
  import opened Tree

  // ----- header -----

  predicate IsPowerOfTwo(n: nat) {
    n == 1 || (n > 0 && n % 2 == 0 && IsPowerOfTwo(n / 2))
  }

  function PackSizes(packs: seq<PackRef>): (sizes: seq<u64>)
    ensures |sizes| == |packs|
    ensures forall i :: 0 <= i < |packs| ==> sizes[i] == packs[i].sizeBytes
  {
    seq<u64>(|packs|, i requires 0 <= i < |packs| => packs[i].sizeBytes)
  }

  function SizeOf(p: PackRef): nat {
    p.sizeBytes
  }

  /** The boundary is a position inside a pack, or the canonical end. */
  predicate PriorityValid(priority: PriorityBoundary, packs: seq<PackRef>) {
    || (priority.packIndex == |packs| && priority.packOffset == 0)
    || (priority.packIndex < |packs| && priority.packOffset <= packs[priority.packIndex].sizeBytes)
  }

  ghost predicate HeaderValid(h: Header) {
    && h.formatVersion == FORMAT_VERSION
    && MIN_CHUNK_SIZE <= h.chunkSizeBytes <= MAX_CHUNK_SIZE
    && IsPowerOfTwo(h.chunkSizeBytes)
    && MIN_COMPRESSION_LEVEL <= h.compressionLevel <= MAX_COMPRESSION_LEVEL
    && MIN_WINDOW_LOG <= h.windowLog <= MAX_WINDOW_LOG
    && h.sealedEpoch != 0
    && h.volumeId != ZERO_ID
    && h.attempt != ZERO_ID
    && |h.packs| <= MAX_PACKS
    && (forall i :: 0 <= i < |h.packs| ==> 0 < h.packs[i].sizeBytes)
    && Total(SizeOf, h.packs) < TWO_64
    && PriorityValid(h.priority, h.packs)
  }

  // ----- names and attributes -----

  predicate NameValid(name: Bytes) {
    && 0 < |name| <= MAX_NAME_BYTES
    && 0 !in name
    && ('/' as int) !in name
    && name != ['.' as int]
    && name != ['.' as int, '.' as int]
  }

  /** Byte-wise lexicographic order. */
  predicate Less(a: Bytes, b: Bytes) {
    if b == [] then false
    else if a == [] then true
    else a[0] < b[0] || (a[0] == b[0] && Less(a[1..], b[1..]))
  }

  /** The two agree up to some position, where a ends or has the smaller byte. */
  predicate FirstDifference(a: Bytes, b: Bytes, k: nat) {
    && k <= |a| && k < |b| && (forall i :: 0 <= i < k ==> a[i] == b[i])
    && (k == |a| || a[k] < b[k])
  }

  lemma {:induction false} LessMeaning(a: Bytes, b: Bytes)
    ensures Less(a, b) <==> exists k: nat :: FirstDifference(a, b, k)
    decreases |a|
  {
    if a == [] || b == [] || a[0] != b[0] {
      assert Less(a, b) ==> FirstDifference(a, b, 0);
      assert forall k: nat :: FirstDifference(a, b, k) ==> a == [] || k == 0 || a[0] == b[0];
    } else {
      LessMeaning(a[1..], b[1..]);
      forall k: nat | FirstDifference(a[1..], b[1..], k)
        ensures FirstDifference(a, b, k + 1)
      {
        assert forall i :: 0 < i < k + 1 ==> a[i] == a[1..][i - 1] && b[i] == b[1..][i - 1];
      }
      forall k: nat | FirstDifference(a, b, k)
        ensures k > 0 && FirstDifference(a[1..], b[1..], k - 1)
      {
      }
    }
  }

  const XATTR_PREFIX: Bytes := ['u' as int, 's' as int, 'e' as int, 'r' as int, '.' as int]

  predicate XattrValid(x: Xattr) {
    && 0 < |x.name| <= MAX_XATTR_NAME_BYTES
    && 0 !in x.name
    && XATTR_PREFIX <= x.name
    && |x.value| <= MAX_XATTR_VALUE_SIZE
  }

  /** Bounded user attributes in strictly increasing name order. */
  predicate XattrsValid(xattrs: seq<Xattr>) {
    && |xattrs| <= MAX_XATTRS_PER_ENTRY
    && (forall i :: 0 <= i < |xattrs| ==> XattrValid(xattrs[i]))
    && (forall i, j :: 0 <= i < j < |xattrs| ==> Less(xattrs[i].name, xattrs[j].name))
  }

  // ----- chunks -----

  /** One chunk's extents describe real stored bytes inside a frame, and a chunk
      without extents is stored nowhere. */
  predicate ChunkValid(c: ChunkRef, span: nat, frames: seq<Frame>) {
    && |c.extents| <= MAX_EXTENTS_PER_CHUNK
    && Canonical(c.extents, span)
    && c.length == TotalLength(c.extents)
    && (if c.length == 0 then
          c.frameIndex == NO_FRAME && c.innerOffset == 0 && c.sliceDigest == EmptySliceDigest()
        else
          c.frameIndex < |frames| && c.innerOffset + c.length <= frames[c.frameIndex].uncompressedLength)
  }

  predicate ChunkAtValid(entry: Entry, k: nat, frames: seq<Frame>, chunkSize: nat)
    requires chunkSize > 0 && k < |entry.chunks| == ChunksNeeded(entry.size, chunkSize)
  {
    ChunkBounds(entry.size, chunkSize, k);
    ChunkValid(entry.chunks[k], ChunkSpan(entry.size, chunkSize, k), frames)
  }

  /** The chunk array covers the logical size exactly. */
  predicate ChunksValid(entry: Entry, frames: seq<Frame>, chunkSize: nat)
    requires chunkSize > 0
  {
    && |entry.chunks| == ChunksNeeded(entry.size, chunkSize)
    && forall k :: 0 <= k < |entry.chunks| ==> ChunkAtValid(entry, k, frames, chunkSize)
  }

  predicate ShapeValid(entry: Entry, frames: seq<Frame>, chunkSize: nat)
    requires chunkSize > 0
  {
    if entry.kind == TYPE_DIRECTORY then
      entry.linkName == [] && entry.chunks == [] && entry.hardlinkGroup == 0 && entry.contentDigest == ZERO_DIGEST
    else if entry.kind == TYPE_SYMLINK then
      && 0 < |entry.linkName| <= MAX_LINK_NAME_BYTES
      && 0 !in entry.linkName
      && entry.chunks == [] && entry.hardlinkGroup == 0
      && entry.size == |entry.linkName|
      && entry.contentDigest == Sha256(entry.linkName)
      && entry.nlink == 1
    else
      && entry.kind == TYPE_REGULAR
      && entry.linkName == []
      && (if entry.hardlinkGroup == 0 then entry.nlink == 1 else entry.nlink >= 2)
      && ChunksValid(entry, frames, chunkSize)
  }

  // ----- the tree -----

  function Parents(entries: seq<Entry>): (par: seq<nat>)
    ensures |par| == |entries|
    ensures forall i :: 0 <= i < |entries| ==> par[i] == entries[i].parentIndex
  {
    seq<nat>(|entries|, i requires 0 <= i < |entries| => entries[i].parentIndex)
  }

  predicate SameName(a: Entry, b: Entry) {
    a.parentIndex == b.parentIndex && a.name == b.name
  }

  /** Entry i is the root, or a uniquely named child of an open directory. */
  predicate PlacementValid(entries: seq<Entry>, i: nat)
    requires i < |entries|
  {
    if i == 0 then
      entries[i].parentIndex == 0 && entries[i].kind == TYPE_DIRECTORY && entries[i].name == []
    else
      && entries[i].parentIndex < i
      && entries[entries[i].parentIndex].kind == TYPE_DIRECTORY
      && Descends(Parents(entries), entries[i].parentIndex, i - 1)
      && NameValid(entries[i].name)
      && forall j :: 0 < j < i ==> !SameName(entries[j], entries[i])
  }

  predicate FieldsValid(e: Entry, frames: seq<Frame>, chunkSize: nat)
    requires chunkSize > 0
  {
    e.mode < MODE_LIMIT && e.nlink != 0 && XattrsValid(e.xattrs) && ShapeValid(e, frames, chunkSize)
  }

  predicate EntryValid(entries: seq<Entry>, i: nat, frames: seq<Frame>, chunkSize: nat)
    requires chunkSize > 0 && i < |entries|
  {
    PlacementValid(entries, i) && FieldsValid(entries[i], frames, chunkSize)
  }

  predicate EachValid(entries: seq<Entry>, n: nat, frames: seq<Frame>, chunkSize: nat)
    requires chunkSize > 0 && n <= |entries|
  {
    forall i :: 0 <= i < n ==> EntryValid(entries, i, frames, chunkSize)
  }

  predicate EntriesValid(entries: seq<Entry>, frames: seq<Frame>, chunkSize: nat)
    requires chunkSize > 0
  {
    EachValid(entries, |entries|, frames, chunkSize) && ChunkCount(entries) <= MAX_CHUNKS
  }

  // ----- hardlink groups -----

  /** The largest group number in use. */
  function MaxGroup(entries: seq<Entry>): nat {
    if entries == [] then 0
    else
      var g := MaxGroup(entries[..|entries| - 1]);
      if entries[|entries| - 1].hardlinkGroup > g then entries[|entries| - 1].hardlinkGroup else g
  }

  lemma {:induction false} MaxGroupIsMax(entries: seq<Entry>)
    ensures forall i :: 0 <= i < |entries| ==> entries[i].hardlinkGroup <= MaxGroup(entries)
    ensures MaxGroup(entries) == 0 || exists i :: 0 <= i < |entries| && entries[i].hardlinkGroup == MaxGroup(entries)
    decreases |entries|
  {
    if entries != [] {
      var front := entries[..|entries| - 1];
      MaxGroupIsMax(front);
      assert forall i :: 0 <= i < |front| ==> front[i] == entries[i];
      if entries[|entries| - 1].hardlinkGroup <= MaxGroup(front) && MaxGroup(front) != 0 {
        var i :| 0 <= i < |front| && front[i].hardlinkGroup == MaxGroup(front);
        assert entries[i].hardlinkGroup == MaxGroup(entries);
      }
    }
  }

  function MemberCount(entries: seq<Entry>, g: nat): nat {
    if entries == [] then 0
    else
      MemberCount(entries[..|entries| - 1], g) + if entries[|entries| - 1].hardlinkGroup == g then 1 else 0
  }

  /** Entries in one group describe one inode. */
  predicate SameInode(a: Entry, b: Entry) {
    a.nlink == b.nlink && a.size == b.size && a.contentDigest == b.contentDigest
  }

  /** Group numbers are dense from 1 in order of first appearance, members agree,
      and every group holds as many members as its link count says. */
  predicate HardlinksValid(entries: seq<Entry>) {
    && (forall i :: 0 <= i < |entries| ==> entries[i].hardlinkGroup <= MaxGroup(entries[..i]) + 1)
    && (forall i, j :: 0 <= i < j < |entries| && entries[i].hardlinkGroup == entries[j].hardlinkGroup != 0 ==>
                         SameInode(entries[i], entries[j]))
    && (forall i :: 0 <= i < |entries| && entries[i].hardlinkGroup != 0 ==>
                      MemberCount(entries, entries[i].hardlinkGroup) == entries[i].nlink)
  }

  /** In a table whose group numbers are dense, the numbers in use are exactly
      those from 1 to the largest. */
  lemma {:induction false} GroupsDense(entries: seq<Entry>, g: nat)
    requires HardlinksValid(entries) && g > 0
    ensures g <= MaxGroup(entries) <==> exists i :: 0 <= i < |entries| && entries[i].hardlinkGroup == g
  {
    MaxGroupIsMax(entries);
    if g <= MaxGroup(entries) {
      PrefixWhole(entries);
      var i := GroupReached(entries, g, |entries|);
    }
  }

  lemma {:induction false} GroupReached(entries: seq<Entry>, g: nat, n: nat) returns (i: nat)
    requires HardlinksValid(entries) && n <= |entries| && 0 < g <= MaxGroup(entries[..n])
    ensures i < n && entries[i].hardlinkGroup == g
    decreases n
  {
    var front := entries[..n - 1];
    assert entries[..n][..n - 1] == front;
    if g <= MaxGroup(front) {
      i := GroupReached(entries, g, n - 1);
    } else {
      i := n - 1;
    }
  }

  // ----- totals -----

  /** Entry i is the first name of its inode. */
  predicate FirstLink(entries: seq<Entry>, i: nat)
    requires i < |entries|
  {
    entries[i].hardlinkGroup == 0 ||
    forall j :: 0 <= j < i ==> entries[j].hardlinkGroup != entries[i].hardlinkGroup
  }

  function LogicalInodes(entries: seq<Entry>): nat {
    if entries == [] then 0
    else LogicalInodes(entries[..|entries| - 1]) + if FirstLink(entries, |entries| - 1) then 1 else 0
  }

  /** The sizes of the distinct regular inodes. */
  function LogicalBytes(entries: seq<Entry>): nat {
    if entries == [] then 0
    else
      var last := entries[|entries| - 1];
      LogicalBytes(entries[..|entries| - 1]) +
      if FirstLink(entries, |entries| - 1) && last.kind == TYPE_REGULAR then last.size else 0
  }

  /** n rounded up to whole allocation blocks, with the 64-bit addition wrapping. */
  function RoundToBlocks(n: u64): (r: nat)
    ensures n <= TWO_64 - 4096 ==> n <= r < n + 4096 && r % 4096 == 0
  {
    (n + 4095) % TWO_64 / 4096 * 4096
  }

  function BlocksOf(e: Extent): nat {
    RoundToBlocks(e.length)
  }

  function ChunkBlocks(c: ChunkRef): nat {
    Total(BlocksOf, c.extents)
  }

  function EntryBlocks(e: Entry): nat {
    Total(ChunkBlocks, e.chunks)
  }

  /** Every stored extent in whole blocks, and one block of metadata per entry. */
  function AllocatedBytes(entries: seq<Entry>): nat {
    Total(EntryBlocks, entries) + 4096 * |entries|
  }

  predicate TotalsValid(h: Header, entries: seq<Entry>) {
    && h.logicalBytes == LogicalBytes(entries)
    && h.logicalInodes == LogicalInodes(entries)
    && h.sealedAllocatedBytes == AllocatedBytes(entries)
    && h.sealedInodes == |entries|
  }

  // ----- the whole manifest -----

  ghost predicate ValidManifest(m: Manifest) {
    && HeaderValid(m.header)
    && 0 < |m.entries| <= MAX_ENTRIES
    && |m.frames| <= MAX_FRAMES
    && Tiling(m.frames, PackSizes(m.header.packs), m.header.chunkSizeBytes)
    && EntriesValid(m.entries, m.frames, m.header.chunkSizeBytes)
    && HardlinksValid(m.entries)
    && TotalsValid(m.header, m.entries)
  }

  /** A valid entry table means exactly one rooted tree. */
  lemma ValidMeansOneTree(m: Manifest)
    requires ValidManifest(m)
    ensures exists t :: ListsTree(Parents(m.entries), t)
    ensures forall t, u :: ListsTree(Parents(m.entries), t) && ListsTree(Parents(m.entries), u) ==> t == u
    ensures Preorder(Parents(m.entries))
  {
    var par := Parents(m.entries);
    forall i | 0 <= i < |par|
      ensures i == 0 ==> par[i] == 0
      ensures i > 0 ==> par[i] < i && Descends(par, par[i], i - 1)
    {
      assert EntryValid(m.entries, i, m.frames, m.header.chunkSizeBytes);
    }
    ScanIsPreorder(par);
    ScanAcceptsTrees(par);
    forall t, u | ListsTree(par, t) && ListsTree(par, u)
      ensures t == u
    {
      TreeUnique(par, t, u);
    }
  }

  /** Sibling names never repeat. */
  lemma SiblingsDistinct(m: Manifest, i: nat, j: nat)
    requires ValidManifest(m) && 0 < i < |m.entries| && 0 < j < |m.entries|
    requires SameName(m.entries[i], m.entries[j])
    ensures i == j
  {
    var k := if i < j then j else i;
    assert EntryValid(m.entries, k, m.frames, m.header.chunkSizeBytes);
  }
}
