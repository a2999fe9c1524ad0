/**
Exactly when the whole-tree identity depends on the chunk size a build used.
The digest stream holds one extent map per chunk, so two chunk sizes agree on a
tree if and only if they agree on how many chunks every file has.
 */
module ChunkSize {
  import opened Basics
  import opened Content
  import opened Manifest
  import opened Valid
  import opened Source
  import opened Config
  import opened Sealing
  import opened Layout
  import opened Packing
  import opened Table
  import R = RootDigest

  /** No inode of the walk has more bytes than one chunk of this size holds. */
  predicate OneChunkEach(sources: seq<SourceEntry>, chunkSize: nat) {
    forall i :: 0 <= i < |sources| && sources[Owner(sources, i)].HasContent() ==>
                  sources[Owner(sources, i)].size <= chunkSize
  }

  // ----- chunk counts -----

  lemma NeededBounds(size: nat, chunkSize: nat)
    requires size > 0 && chunkSize > 0
    ensures var n := ChunksNeeded(size, chunkSize); n > 0 && (n - 1) * chunkSize < size <= n * chunkSize
  {
    var q, r := size / chunkSize, size % chunkSize;
    assert size == q * chunkSize + r;
    assert (q + 1) * chunkSize == q * chunkSize + chunkSize;
    assert (q - 1) * chunkSize == q * chunkSize - chunkSize;
    if q <= 0 {
      MulMonotone(q, 0, chunkSize);
    }
  }

  lemma {:induction false} PowersApart(c: nat, d: nat)
    requires IsPowerOfTwo(c) && IsPowerOfTwo(d) && c < d
    ensures 2 * c <= d
    decreases c
  {
    if c > 1 {
      PowersApart(c / 2, d / 2);
    }
  }

  /** A file longer than the smaller chunk has more small chunks than large ones. */
  lemma MoreChunks(size: nat, c: nat, d: nat)
    requires 0 < c < size && 2 * c <= d
    ensures ChunksNeeded(size, d) < ChunksNeeded(size, c)
  {
    var k, n := ChunksNeeded(size, c), ChunksNeeded(size, d);
    NeededBounds(size, c);
    NeededBounds(size, d);
    hide ChunksNeeded;
    if k <= n {
      MulMonotone(k, n, c);
      Doubled(n, c);
      MulMonotone(2 * c, d, n - 1);
      if n >= 2 {
        MulMonotone(2, n, c);
      }
    }
  }

  lemma Doubled(n: nat, c: nat)
    ensures (n - 1) * (2 * c) == 2 * (n * c) - 2 * c
  {
  }

  lemma WholeChunk(s: SourceEntry, chunkSize: nat)
    requires s.file.Some? && 0 < s.size <= chunkSize
    ensures ChunksNeeded(s.size, chunkSize) == 1
    ensures ChunkStart(s, chunkSize, 0) == 0 && ChunkStop(s, chunkSize, 0) == s.size
  {
    if s.size == chunkSize {
      assert s.size / chunkSize == 1;
    }
  }

  // ----- extent maps -----

  lemma SameMaps(sources: seq<SourceEntry>, c: nat, d: nat, i: nat)
    requires 0 < c <= d && i < |sources| <= MAX_ENTRIES && OneChunkEach(sources, c)
    requires sources[Owner(sources, i)].HasContent() ==> sources[Owner(sources, i)].file.Some?
    ensures SourceSemantics(sources, c, i) == SourceSemantics(sources, d, i)
  {
    hide Owner, ChunksNeeded, GroupNumber, DigestOf, CanonicalXattrs;
    var s := sources[Owner(sources, i)];
    if s.HasContent() {
      WholeChunk(s, c);
      WholeChunk(s, d);
      assert ExtentMapsOf(sources, c, i) == ExtentMapsOf(sources, d, i);
    }
  }

  lemma DifferentMaps(sources: seq<SourceEntry>, c: nat, d: nat, i: nat)
    requires 0 < c && 2 * c <= d && i < |sources| <= MAX_ENTRIES
    requires sources[Owner(sources, i)].HasContent() && sources[Owner(sources, i)].file.Some?
    requires sources[Owner(sources, i)].size > c
    ensures |ExtentMapsOf(sources, d, i)| < |ExtentMapsOf(sources, c, i)|
    ensures SourceSemantics(sources, c, i) != SourceSemantics(sources, d, i)
  {
    hide Owner, ChunksNeeded, GroupNumber, DigestOf, CanonicalXattrs, ChunkExtents;
    MoreChunks(sources[Owner(sources, i)].size, c, d);
  }

  // ----- builds -----

  lemma PowerOfTwoChunks(config: Config, sources: seq<SourceEntry>, m: Manifest, packs: seq<Bytes>, o: Outcome)
    requires Built(config, sources, m, packs, o)
    ensures IsPowerOfTwo(config.chunkSizeBytes) && 0 < config.chunkSizeBytes
    ensures |m.entries| == |sources| <= MAX_ENTRIES
  {
    hide IsPowerOfTwo, Inv, TableOk, LinksClosed;
    TableLength(config, sources, m, packs, o);
  }

  /** Two builds of one walk, the second with larger chunks. */
  lemma LargerChunks(c: Config, a: seq<SourceEntry>, m: Manifest, mPacks: seq<Bytes>, mo: Outcome,
                     d: Config, b: seq<SourceEntry>, n: Manifest, nPacks: seq<Bytes>, no: Outcome)
    requires Built(c, a, m, mPacks, mo) && Built(d, b, n, nPacks, no)
    requires SameButChangeTimes(a, b) && c.chunkSizeBytes < d.chunkSizeBytes
    ensures R.SemanticsOfAll(m.entries) == R.SemanticsOfAll(n.entries) <==> OneChunkEach(a, c.chunkSizeBytes)
  {
    hide Built, SameButChangeTimes, R.SemanticsOf, SourceSemantics, Owner, IsPowerOfTwo;
    SameLength(a, b);
    PowerOfTwoChunks(c, a, m, mPacks, mo);
    PowerOfTwoChunks(d, b, n, nPacks, no);
    PowersApart(c.chunkSizeBytes, d.chunkSizeBytes);
    forall i | 0 <= i < |a|
      ensures && (a[Owner(a, i)].HasContent() ==> a[Owner(a, i)].file.Some?)
              && R.SemanticsOf(m.entries[i]) == SourceSemantics(a, c.chunkSizeBytes, i)
              && R.SemanticsOf(n.entries[i]) == SourceSemantics(a, d.chunkSizeBytes, i)
    {
      SemanticsDetermined(c, a, m, mPacks, mo, i);
      SemanticsDetermined(d, b, n, nPacks, no, i);
      SameSemantics(a, b, d.chunkSizeBytes, i);
    }
    if OneChunkEach(a, c.chunkSizeBytes) {
      forall i | 0 <= i < |a|
        ensures R.SemanticsOf(m.entries[i]) == R.SemanticsOf(n.entries[i])
      {
        SameMaps(a, c.chunkSizeBytes, d.chunkSizeBytes, i);
      }
    } else {
      var i :| 0 <= i < |a| && a[Owner(a, i)].HasContent() && a[Owner(a, i)].size > c.chunkSizeBytes;
      DifferentMaps(a, c.chunkSizeBytes, d.chunkSizeBytes, i);
      assert R.SemanticsOfAll(m.entries)[i] != R.SemanticsOfAll(n.entries)[i];
    }
  }

  lemma Reversed(a: seq<SourceEntry>, b: seq<SourceEntry>, chunkSize: nat)
    requires SameButChangeTimes(a, b)
    ensures SameButChangeTimes(b, a) && (OneChunkEach(a, chunkSize) <==> OneChunkEach(b, chunkSize))
  {
    hide Owner;
    assert SameButChangeTimes(b, a) by {
      forall i | 0 <= i < |b|
        ensures b[i].(ctimeNanos := a[i].ctimeNanos) == a[i]
      {
        SameFields(a, b, i);
      }
    }
    hide SameButChangeTimes;
    SameLength(a, b);
    forall i | 0 <= i < |a|
      ensures Owner(a, i) == Owner(b, i) && a[Owner(a, i)].size == b[Owner(b, i)].size
      ensures a[Owner(a, i)].HasContent() == b[Owner(b, i)].HasContent()
    {
      SameOwner(a, b, i);
      SameFields(a, b, Owner(a, i));
    }
  }

  /** Two builds of one walk have the same whole-tree identity if and only if they
      use one chunk size, or every file fits in one chunk of the smaller size. */
  lemma ChunkSizeShows(c: Config, a: seq<SourceEntry>, m: Manifest, mPacks: seq<Bytes>, mo: Outcome,
                       d: Config, b: seq<SourceEntry>, n: Manifest, nPacks: seq<Bytes>, no: Outcome)
    requires Built(c, a, m, mPacks, mo) && Built(d, b, n, nPacks, no)
    requires ValidManifest(m) && ValidManifest(n) && SameButChangeTimes(a, b)
    ensures R.Preimage(m.entries) == R.Preimage(n.entries) <==>
            c.chunkSizeBytes == d.chunkSizeBytes ||
            OneChunkEach(a, if c.chunkSizeBytes < d.chunkSizeBytes then c.chunkSizeBytes else d.chunkSizeBytes)
  {
    hide Built, ValidManifest, SameButChangeTimes, R.Preimage, R.SemanticsOfAll, OneChunkEach;
    if c.chunkSizeBytes == d.chunkSizeBytes {
      LayoutIndependent(c, a, m, mPacks, mo, d, b, n, nPacks, no);
    } else {
      R.ValidPreimageInjective(m, n);
      if c.chunkSizeBytes < d.chunkSizeBytes {
        LargerChunks(c, a, m, mPacks, mo, d, b, n, nPacks, no);
      } else {
        Reversed(a, b, d.chunkSizeBytes);
        LargerChunks(d, b, n, nPacks, no, c, a, m, mPacks, mo);
      }
    }
  }
}
