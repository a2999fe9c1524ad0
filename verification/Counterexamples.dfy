/**
Concrete inputs on which a promise of the source does not hold. Each belongs to a
theorem that says exactly when the promise does hold: Sealing.ManifestValid,
ChunkSize.ChunkSizeShows and Ranges.SplitExact.
 */
module Counterexamples {
  import opened Basics
  import opened Manifest
  import opened Frames
  import opened Valid
  import opened Tree
  import opened Source
  import opened Config
  import opened Sealing
  import opened Layout
  import opened ChunkSize
  import Ranges
  import R = RootDigest

  const ROOT := SourceEntry(0, [], TYPE_DIRECTORY, 0, 0, 0, 0, [], 1, 0, [], None)

  function FileNamed(name: byte, size: u64, links: u32, key: u64): SourceEntry {
    SourceEntry(0, [name], TYPE_REGULAR, size, 0, 0, 0, [], links, key, [], Some(SourceFile([], [])))
  }

  lemma NoXattrs()
    ensures XattrsValid(CanonicalXattrs([]))
  {
  }

  // ----- a symlink that claims a hardlinked file's inode -----

  /** Two links to one file of one byte, and a symlink with their inode key. */
  const CLAIMING_WALK: seq<SourceEntry> := [
    ROOT,
    FileNamed(97, 1, 2, 7),
    FileNamed(98, 1, 2, 7),
    SourceEntry(0, [99], TYPE_SYMLINK, 1, 0, 0, 0, [97], 1, 7, [], None)
  ]

  lemma ClaimingLinks()
    ensures forall n :: 0 <= n <= 4 ==>
              LinkCount(CLAIMING_WALK[..n], 7) == if n <= 1 then 0 else if n == 2 then 1 else 2
  {
    var w := CLAIMING_WALK;
    assert w[..0] == [] && LinkCount(w[..0], 7) == 0;
    assert w[..1][..0] == w[..0] && LinkCount(w[..1], 7) == 0;
    assert w[..2][..1] == w[..1] && LinkCount(w[..2], 7) == 1;
    assert w[..3][..2] == w[..2] && LinkCount(w[..3], 7) == 2;
    assert w[..4][..3] == w[..3] && LinkCount(w[..4], 7) == 2;
  }

  lemma ClaimingOwners()
    ensures LinkCount(CLAIMING_WALK, 7) == 2
    ensures Owner(CLAIMING_WALK, 1) == Owner(CLAIMING_WALK, 2) == Owner(CLAIMING_WALK, 3) == 1
  {
    ClaimingLinks();
    assert CLAIMING_WALK[..4] == CLAIMING_WALK;
    var first := FirstWith(CLAIMING_WALK, 7);
    assert CLAIMING_WALK[1].Linkable() && CLAIMING_WALK[1].inodeKey == 7;
    assert !CLAIMING_WALK[0].Linkable();
  }

  lemma FlatWalk(sources: seq<SourceEntry>, i: nat)
    requires 0 < i < |sources| && forall j :: 0 <= j < |sources| ==> sources[j].parentIndex == 0
    ensures Descends(SourceParents(sources), 0, i - 1)
  {
    var par := SourceParents(sources);
    assert Descends(par, 0, 0);
  }

  lemma ClaimingPlaced(i: nat)
    requires i < 4
    ensures WellPlaced(CLAIMING_WALK, i)
  {
    if i > 0 {
      FlatWalk(CLAIMING_WALK, i);
    }
  }

  /** The walk passes collection and every hardlink check, and each of its entries
      has its place in the tree; yet the symlink inherits the file's chunks, so no
      table built from it is a valid manifest. */
  lemma SymlinkClaimsInode()
    ensures Collectable(CLAIMING_WALK) && LinksClosed(CLAIMING_WALK)
    ensures forall i :: 0 <= i < |CLAIMING_WALK| ==> WellPlaced(CLAIMING_WALK, i)
    ensures !WellFormed(CLAIMING_WALK)
  {
    hide CanonicalXattrs, XattrsValid, Owner, LinkCount, WellPlaced;
    NoXattrs();
    ClaimingOwners();
    assert LinkClosed(CLAIMING_WALK, 1) && LinkClosed(CLAIMING_WALK, 2);
    forall i | 0 <= i < |CLAIMING_WALK|
      ensures WellPlaced(CLAIMING_WALK, i)
    {
      ClaimingPlaced(i);
    }
    assert !WellShaped(CLAIMING_WALK, 3);
  }

  // ----- a file of two chunks -----

  /** One file of 8192 bytes: two chunks of 4096, or one of 8192. */
  const TWO_CHUNK_WALK: seq<SourceEntry> := [ROOT, FileNamed(97, 8192, 1, 0)]

  lemma TwoChunkWalkBuilds()
    ensures Collectable(TWO_CHUNK_WALK) && LinksClosed(TWO_CHUNK_WALK) && WellFormed(TWO_CHUNK_WALK)
    ensures Owner(TWO_CHUNK_WALK, 1) == 1 && Legible(TWO_CHUNK_WALK[1])
  {
    hide CanonicalXattrs, XattrsValid;
    NoXattrs();
    FlatWalk(TWO_CHUNK_WALK, 1);
    assert WellPlaced(TWO_CHUNK_WALK, 1);
  }

  /** Whatever else about two deployments is equal, sealing this tree with chunks of
      4096 and of 8192 bytes gives two different identities. */
  lemma ChunkSizeChangesIdentity(c: Config, m: Manifest, mPacks: seq<Bytes>, mo: Outcome,
                                 d: Config, n: Manifest, nPacks: seq<Bytes>, no: Outcome)
    requires Built(c, TWO_CHUNK_WALK, m, mPacks, mo) && Built(d, TWO_CHUNK_WALK, n, nPacks, no)
    requires ValidManifest(m) && ValidManifest(n) && c.chunkSizeBytes == 4096 && d.chunkSizeBytes == 8192
    ensures R.Preimage(m.entries) != R.Preimage(n.entries)
  {
    hide Built, ValidManifest, R.Preimage;
    TwoChunkWalkBuilds();
    assert SameButChangeTimes(TWO_CHUNK_WALK, TWO_CHUNK_WALK);
    assert !OneChunkEach(TWO_CHUNK_WALK, 4096);
    ChunkSizeShows(c, TWO_CHUNK_WALK, m, mPacks, mo, d, TWO_CHUNK_WALK, n, nPacks, no);
  }

  // ----- a pack whose sweep wraps -----

  const ID: Id16 := [1, 0, 0, 0, 0, 0, 0, 0, 0, 0, 0, 0, 0, 0, 0, 0]
  const HUGE: u64 := 0xFFFF_FFFF_FFFF_FFFF
  const HUGE_PACK := PackRef(0, ZERO_DIGEST, HUGE)
  const HUGE_FRAME := Frame(0, 0, HUGE, 1, false, 0)

  /** An empty tree beside one pack of 2^64 - 1 bytes, all of it to be prefetched. */
  const HUGE_MANIFEST := Manifest(
    Header(FORMAT_VERSION, 4096, MIN_COMPRESSION_LEVEL, MIN_WINDOW_LOG, ID, 1, ID, 0, 1, 4096, 1,
           PriorityBoundary(1, 0), [HUGE_PACK]),
    [Entry(0, [], TYPE_DIRECTORY, 0, 0, 0, 0, [], 1, 0, ZERO_DIGEST, [], [])],
    [HUGE_FRAME])

  lemma PowerOfTwo4096()
    ensures IsPowerOfTwo(4096)
  {
    assert IsPowerOfTwo(16);
    assert IsPowerOfTwo(256);
  }

  lemma HugeHeader()
    ensures HeaderValid(HUGE_MANIFEST.header)
  {
    PowerOfTwo4096();
    hide IsPowerOfTwo;
    var packs := [HUGE_PACK];
    assert packs[1..] == [];
    assert Total(SizeOf, packs) == HUGE;
    assert ID[0] != ZERO_ID[0];
  }

  lemma HugeTiling()
    ensures Tiling([HUGE_FRAME], PackSizes([HUGE_PACK]), 4096)
  {
    var frames, sizes := [HUGE_FRAME], PackSizes([HUGE_PACK]);
    forall p, b | PackByte(sizes, p, b)
      ensures Covered(frames, p, b)
    {
      assert CoversByte(frames[0], p, b);
    }
  }

  lemma OneTotal(f: Entry -> nat, e: Entry)
    ensures Total(f, [e]) == f(e)
  {
    TotalSnoc(f, [], e);
    assert [] + [e] == [e];
  }

  lemma HugeTable()
    ensures EntriesValid(HUGE_MANIFEST.entries, HUGE_MANIFEST.frames, 4096)
    ensures HardlinksValid(HUGE_MANIFEST.entries) && TotalsValid(HUGE_MANIFEST.header, HUGE_MANIFEST.entries)
  {
    var entries := HUGE_MANIFEST.entries;
    assert entries[..0] == [] && entries[1..] == [];
    assert EntryValid(entries, 0, HUGE_MANIFEST.frames, 4096);
    OneTotal(ChunksOf, entries[0]);
    OneTotal(EntryBlocks, entries[0]);
    assert LogicalInodes([]) == 0 && LogicalBytes([]) == 0;
    assert entries[..|entries| - 1] == [];
  }

  /** A valid manifest whose prefetch sweep, capped at 2^63 bytes a range, never
      ends: its only stretch steps past 64 bits. */
  lemma SweepWraps()
    ensures ValidManifest(HUGE_MANIFEST)
    ensures var length := Ranges.SweepLength(HUGE_MANIFEST.header.packs, HUGE_MANIFEST.header.priority, 0);
            && !Ranges.SplitFits(length, 0x8000_0000_0000_0000)
            && forall n: nat :: !Ranges.Stops(length, 0x8000_0000_0000_0000, n)
  {
    hide HeaderValid, Tiling, EntriesValid, HardlinksValid, TotalsValid, Ranges.StepOffset;
    HugeHeader();
    HugeTiling();
    HugeTable();
    forall n: nat
      ensures !Ranges.Stops(HUGE, 0x8000_0000_0000_0000, n)
    {
      Ranges.NeverStops(n);
    }
  }
}
