/**
Reading one source file (fileExtents, readChunkFrom and digestZeros of
vcs/archive/build.go): the map is checked, each chunk's data is read once, and
the running content digest absorbs the whole logical span, holes as zeros.
 */
module Reading {
  import opened Basics
  import opened Extents
  import opened Content
  import opened Source
  import Validate

  const ZERO_PAD: nat := 0x1_0000

  function Zeros(n: nat): (z: Bytes)
    ensures |z| == n
  {
    seq<byte>(n, _ => 0)
  }

  lemma ZerosJoin(m: nat, n: nat)
    ensures Zeros(m) + Zeros(n) == Zeros(m + n)
  {
  }

  /** Feeds count zeros to a running digest, one pad at a time. */
  method DigestZeros(digest: Bytes, count: nat) returns (after: Bytes)
    ensures after == digest + Zeros(count)
  {
    hide Zeros;
    var left: nat := count;
    after := digest;
    ghost var fed: nat := 0;
    assert digest + Zeros(0) == digest;
    while left > 0
      invariant fed + left == count
      invariant after == digest + Zeros(fed)
    {
      var step := if left < ZERO_PAD then left else ZERO_PAD;
      ZerosJoin(fed, step);
      assert digest + Zeros(fed) + Zeros(step) == digest + (Zeros(fed) + Zeros(step));
      after := after + Zeros(step);
      left := left - step;
      fed := fed + step;
    }
  }

  /** Accepts exactly the canonical maps of the file's size. Reporting the map at
      all may fail. */
  method FileExtents(file: SourceFile, size: u64) returns (r: Result<seq<Extent>>)
    ensures r.Ok? ==> r.value == file.data && Canonical(file.data, size)
    ensures r == Err(Invalid) ==> !Canonical(file.data, size)
    ensures r.Err? ==> r.error != FrameCorrupt
  {
    var fails: bool := *;
    if fails {
      return Err(Io);
    }
    var previousEnd := 0;
    for i := 0 to |file.data|
      invariant Canonical(file.data[..i], size)
      invariant i > 0 ==> previousEnd == file.data[i - 1].End()
    {
      var extent := file.data[i];
      ghost var front := file.data[..i];
      assert i > 0 ==> front[|front| - 1] == file.data[i - 1];
      if extent.length == 0 {
        return Err(Invalid);
      }
      if i > 0 && extent.offset <= previousEnd {
        return Err(Invalid);
      }
      var end := CheckedRange(extent.offset, extent.length, size);
      if end.None? {
        return Err(Invalid);
      }
      previousEnd := end.value;
      Validate.CanonicalSnoc(front, extent, size);
      PrefixSnoc(file.data, i);
    }
    PrefixWhole(file.data);
    return Ok(file.data);
  }

  // ----- one chunk -----

  /** No extent of the map touches [from, to). */
  predicate Gap(data: seq<Extent>, from: nat, to: nat) {
    forall j :: 0 <= j < |data| ==> data[j].End() <= from || to <= data[j].offset
  }

  lemma GapIsZero(image: Bytes, data: seq<Extent>, from: nat, to: nat)
    requires from <= to && Gap(data, from, to)
    ensures Logical(image, data, from, to) == Zeros(to - from)
  {
    var logical, zeros := Logical(image, data, from, to), Zeros(to - from);
    forall x | 0 <= x < |logical|
      ensures logical[x] == zeros[x]
    {
      assert logical[x] == LogicalByte(image, data, from + x);
    }
  }

  lemma DataIsImage(image: Bytes, data: seq<Extent>, i: nat, from: nat, to: nat)
    requires i < |data| && data[i].offset <= from <= to <= data[i].End() && to <= |image|
    ensures Logical(image, data, from, to) == image[from..to]
  {
    var logical := Logical(image, data, from, to);
    forall x | 0 <= x < |logical|
      ensures logical[x] == image[from..to][x]
    {
      assert logical[x] == LogicalByte(image, data, from + x);
      assert data[i].Has(from + x);
    }
  }

  /** Once the chunk is read up to at, no extent before i has bytes left in it. */
  predicate Passed(data: seq<Extent>, i: nat, at: nat, hi: nat)
    requires i <= |data|
  {
    hi <= at || forall j :: 0 <= j < i ==> data[j].End() <= at || hi <= data[j].offset
  }

  /** at is the start of the chunk, or no later than an extent already read. */
  predicate Reached(data: seq<Extent>, i: nat, lo: nat, at: nat)
    requires i <= |data|
  {
    at == lo || exists j :: 0 <= j < i && at <= data[j].End()
  }

  /** One extent's part of the chunk, and the gap before it. */
  lemma StretchRead(image: Bytes, data: seq<Extent>, limit: nat, i: nat, lo: nat, at: nat, start: nat, end: nat, hi: nat)
    requires Canonical(data, limit) && i < |data| && lo <= at && Passed(data, i, at, hi) && Reached(data, i, lo, at)
    requires start == if data[i].offset < lo then lo else data[i].offset
    requires end == if data[i].End() < hi then data[i].End() else hi
    requires start < end <= |image|
    ensures at <= start
    ensures Logical(image, data, lo, at) + (Zeros(start - at) + image[start..end]) == Logical(image, data, lo, end)
    ensures Passed(data, i + 1, end, hi) && Reached(data, i + 1, lo, end)
  {
    hide Logical, Zeros;
    assert at <= start;
    if at < start {
      assert Gap(data, at, start);
      GapIsZero(image, data, at, start);
    } else {
      assert Logical(image, data, at, start) == [] == Zeros(start - at);
    }
    DataIsImage(image, data, i, start, end);
    LogicalConcat(image, data, at, start, end);
    LogicalConcat(image, data, lo, at, end);
    assert end <= data[i].End();
  }

  /** The gap after the last extent of a chunk. */
  lemma ChunkFinished(image: Bytes, data: seq<Extent>, lo: nat, at: nat, hi: nat)
    requires lo <= at <= hi && Passed(data, |data|, at, hi)
    ensures Logical(image, data, lo, at) + Zeros(hi - at) == Logical(image, data, lo, hi)
  {
    hide Logical, Zeros;
    if at < hi {
      GapIsZero(image, data, at, hi);
    } else {
      assert Logical(image, data, at, hi) == [] == Zeros(hi - at);
    }
    LogicalConcat(image, data, lo, at, hi);
  }

  /** What reading one chunk yields: its stored bytes, its own extent map, and the
      running digest advanced across its span. */
  datatype ChunkRead = ChunkRead(stored: Bytes, extents: seq<Extent>, digest: Bytes)

  /** The chunk as far as the first i extents reach. */
  ghost predicate ReadSoFar(s: SourceEntry, lo: u64, hi: u64, i: nat, at: nat, digest: Bytes, r: ChunkRead)
    requires s.file.Some? && i <= |s.file.value.data|
  {
    var image, data := s.file.value.image, s.file.value.data;
    && lo <= at <= hi
    && Passed(data, i, at, hi) && Reached(data, i, lo, at)
    && r.extents == Clip(data[..i], lo, hi)
    && Inside(image, lo, r.extents)
    && r.stored == Gather(image, lo, r.extents)
    && r.digest == digest + Logical(image, data, lo, at)
  }

  lemma ClipStep(data: seq<Extent>, i: nat, lo: u64, hi: u64)
    requires i < |data|
    ensures var start := if data[i].offset < lo then lo else data[i].offset;
            var end := if data[i].End() < hi then data[i].End() else hi;
            Clip(data[..i + 1], lo, hi) ==
            if start >= end then Clip(data[..i], lo, hi) else Clip(data[..i], lo, hi) + [Extent(start - lo, end - start)]
  {
    PrefixOfPrefix(data, i, i + 1);
    assert data[..i + 1][i] == data[i];
  }

  lemma SkipPassed(data: seq<Extent>, i: nat, lo: nat, at: nat, hi: nat)
    requires i < |data| && 0 < data[i].length && lo <= at <= hi && Passed(data, i, at, hi) && Reached(data, i, lo, at)
    requires (if data[i].offset < lo then lo else data[i].offset) >= (if data[i].End() < hi then data[i].End() else hi)
    ensures Passed(data, i + 1, at, hi) && Reached(data, i + 1, lo, at)
  {
  }

  lemma SkipExtent(s: SourceEntry, lo: u64, hi: u64, i: nat, at: nat, digest: Bytes, r: ChunkRead)
    requires s.file.Some? && i < |s.file.value.data| && ReadSoFar(s, lo, hi, i, at, digest, r)
    requires Canonical(s.file.value.data, s.size)
    requires var e := s.file.value.data[i];
             (if e.offset < lo then lo else e.offset) >= (if e.End() < hi then e.End() else hi)
    ensures ReadSoFar(s, lo, hi, i + 1, at, digest, r)
  {
    hide Gather, Logical, Clip, Passed, Reached, Inside;
    ClipStep(s.file.value.data, i, lo, hi);
    SkipPassed(s.file.value.data, i, lo, at, hi);
  }

  /** The chunk with one more stretch of data read, after a gap. */
  function Taken(r: ChunkRead, image: Bytes, lo: u64, at: nat, start: u64, end: u64): ChunkRead
    requires lo <= start <= end <= |image| && at <= start
  {
    ChunkRead(r.stored + image[start..end], r.extents + [Extent(start - lo, end - start)],
              r.digest + Zeros(start - at) + image[start..end])
  }

  lemma TakenMap(image: Bytes, data: seq<Extent>, i: nat, lo: u64, hi: u64, r: ChunkRead, start: u64, end: u64)
    requires i < |data| && r.extents == Clip(data[..i], lo, hi) && Inside(image, lo, r.extents)
    requires r.stored == Gather(image, lo, r.extents) && lo <= start < end <= |image|
    requires start == if data[i].offset < lo then lo else data[i].offset
    requires end == if data[i].End() < hi then data[i].End() else hi
    ensures r.extents + [Extent(start - lo, end - start)] == Clip(data[..i + 1], lo, hi)
    ensures Inside(image, lo, r.extents + [Extent(start - lo, end - start)])
    ensures r.stored + image[start..end] == Gather(image, lo, r.extents + [Extent(start - lo, end - start)])
  {
    hide Gather, Inside, Clip;
    ClipStep(data, i, lo, hi);
    GatherSnoc(image, lo, r.extents, Extent(start - lo, end - start));
  }

  lemma TakeExtent(s: SourceEntry, lo: u64, hi: u64, i: nat, at: nat, digest: Bytes, r: ChunkRead, start: u64, end: u64)
    requires s.file.Some? && i < |s.file.value.data| && ReadSoFar(s, lo, hi, i, at, digest, r)
    requires Canonical(s.file.value.data, s.size) && end <= |s.file.value.image|
    requires var e := s.file.value.data[i];
             start == (if e.offset < lo then lo else e.offset) && end == (if e.End() < hi then e.End() else hi) && start < end
    ensures at <= start && end <= hi
    ensures ReadSoFar(s, lo, hi, i + 1, end, digest, Taken(r, s.file.value.image, lo, at, start, end))
  {
    hide Gather, Logical, Inside, Canonical, Passed, Reached, Zeros, Clip;
    var image, data := s.file.value.image, s.file.value.data;
    StretchRead(image, data, s.size, i, lo, at, start, end, hi);
    TakenMap(image, data, i, lo, hi, r, start, end);
    Regroup(digest, Logical(image, data, lo, at), Zeros(start - at), image[start..end]);
  }

  lemma Regroup(a: Bytes, b: Bytes, c: Bytes, d: Bytes)
    ensures a + b + c + d == a + (b + (c + d))
  {
  }

  lemma ReadBegins(s: SourceEntry, lo: u64, hi: u64, digest: Bytes)
    requires s.file.Some? && lo <= hi
    ensures ReadSoFar(s, lo, hi, 0, lo, digest, ChunkRead([], [], digest))
  {
    assert Logical(s.file.value.image, s.file.value.data, lo, lo) == [];
  }

  lemma ReadEnds(s: SourceEntry, chunkSize: nat, k: nat, at: nat, digest: Bytes, r: ChunkRead)
    requires s.file.Some? && Canonical(s.file.value.data, s.size) && chunkSize > 0 && k < ChunksNeeded(s.size, chunkSize)
    requires ReadSoFar(s, ChunkStart(s, chunkSize, k), ChunkStop(s, chunkSize, k), |s.file.value.data|, at, digest, r)
    ensures ChunkLegible(s, chunkSize, k) && at <= ChunkStop(s, chunkSize, k)
    ensures r.stored == ChunkBytes(s, chunkSize, k) && r.extents == ChunkExtents(s, chunkSize, k)
    ensures r.digest + Zeros(ChunkStop(s, chunkSize, k) - at) ==
            digest + Logical(s.file.value.image, s.file.value.data, ChunkStart(s, chunkSize, k), ChunkStop(s, chunkSize, k))
  {
    hide Gather, Logical, Inside, Canonical, Passed, Reached, Zeros, Clip, ChunkStart, ChunkStop;
    var image, data := s.file.value.image, s.file.value.data;
    var lo, hi := ChunkStart(s, chunkSize, k), ChunkStop(s, chunkSize, k);
    PrefixWhole(data);
    ChunkFinished(image, data, lo, at, hi);
    assert digest + Logical(image, data, lo, at) + Zeros(hi - at) == digest + (Logical(image, data, lo, at) + Zeros(hi - at));
  }

  /** Reads one chunk of a file whose map has been checked. A read fails where the
      image has no data, and may fail anywhere. */
  method ReadChunkFrom(s: SourceEntry, chunkSize: u64, k: u64, digest: Bytes) returns (r: Result<ChunkRead>)
    requires s.file.Some? && Canonical(s.file.value.data, s.size)
    requires chunkSize > 0 && k < ChunksNeeded(s.size, chunkSize)
    ensures r.Ok? ==> ChunkLegible(s, chunkSize, k)
    ensures r.Ok? ==> r.value.stored == ChunkBytes(s, chunkSize, k) && r.value.extents == ChunkExtents(s, chunkSize, k)
    ensures r.Ok? ==> r.value.digest == digest +
                        Logical(s.file.value.image, s.file.value.data, ChunkStart(s, chunkSize, k), ChunkStop(s, chunkSize, k))
    ensures r.Err? ==> r.error == Io
  {
    hide ReadSoFar, ChunkLegible, ChunkBytes, ChunkExtents, Logical, Canonical, Zeros;
    var image, data := s.file.value.image, s.file.value.data;
    var lo, hi := ChunkStart(s, chunkSize, k), ChunkStop(s, chunkSize, k);
    hide ChunkStart, ChunkStop, ChunksNeeded;
    var read := ChunkRead([], [], digest);
    var cursor: u64 := 0;
    ReadBegins(s, lo, hi, digest);
    for i := 0 to |data|
      invariant lo + cursor <= hi
      invariant ReadSoFar(s, lo, hi, i, lo + cursor, digest, read)
    {
      var extent := data[i];
      var start := if extent.offset < lo then lo else extent.offset;
      var end := if extent.offset + extent.length < hi then extent.offset + extent.length else hi;
      if start >= end {
        SkipExtent(s, lo, hi, i, lo + cursor, digest, read);
      } else {
        var fails: bool := *;
        if fails || end > |image| {
          return Err(Io);
        }
        TakeExtent(s, lo, hi, i, lo + cursor, digest, read, start, end);
        var relative, length := start - lo, end - start;
        var padded := DigestZeros(read.digest, relative - cursor);
        read := ChunkRead(read.stored + image[start..end], read.extents + [Extent(relative, length)],
          padded + image[start..end]);
        cursor := relative + length;
      }
    }
    ReadEnds(s, chunkSize, k, lo + cursor, digest, read);
    var padded := DigestZeros(read.digest, hi - lo - cursor);
    return Ok(read.(digest := padded));
  }
}
