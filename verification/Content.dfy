/**
How file content is cut into chunks, stored without its holes and expanded
again (vcs/archive/pack.go and the reading half of vcs/archive/build.go).
 */
module Content {
  import opened Basics
  import opened Extents

  // ----- chunk spans -----

  function ChunksNeeded(size: nat, chunkSize: nat): nat
    requires chunkSize > 0
  {
    size / chunkSize + if size % chunkSize != 0 then 1 else 0
  }

  /** The logical length chunk k of a file covers. */
  function ChunkSpan(size: nat, chunkSize: nat, k: nat): (span: nat)
    requires k * chunkSize <= size
  {
    var remainder := size - k * chunkSize;
    if remainder < chunkSize then remainder else chunkSize
  }

  lemma ChunkBounds(size: nat, chunkSize: nat, k: nat)
    requires chunkSize > 0 && k < ChunksNeeded(size, chunkSize)
    ensures 0 <= k * chunkSize < size
    ensures k * chunkSize + ChunkSpan(size, chunkSize, k) <= size
    ensures 0 < ChunkSpan(size, chunkSize, k) <= chunkSize
    ensures k + 1 < ChunksNeeded(size, chunkSize) ==> ChunkSpan(size, chunkSize, k) == chunkSize
    ensures k + 1 == ChunksNeeded(size, chunkSize) ==> k * chunkSize + ChunkSpan(size, chunkSize, k) == size
    ensures (k + 1) * chunkSize == k * chunkSize + chunkSize
  {
    var q, r := size / chunkSize, size % chunkSize;
    var whole, at := q * chunkSize, k * chunkSize;
    assert size == whole + r && 0 <= r < chunkSize;
    assert (k + 1) * chunkSize == at + chunkSize;
    MulMonotone(k, q, chunkSize);
    if k < q {
      MulMonotone(k + 1, q, chunkSize);
    }
  }

  // ----- clipping a file map to a chunk -----

  /** The part of a whole-file extent map inside [lo, hi), relative to lo. */
  function Clip(file: seq<Extent>, lo: u64, hi: u64): seq<Extent>
  {
    if file == [] then []
    else
      var last := file[|file| - 1];
      var start := if last.offset < lo then lo else last.offset;
      var end := if last.End() < hi then last.End() else hi;
      var front := Clip(file[..|file| - 1], lo, hi);
      if start >= end then front else front + [Extent(start - lo, end - start)]
  }

  /** Clipping keeps exactly the covered bytes of the span. */
  lemma {:induction false} ClipCovers(file: seq<Extent>, lo: u64, hi: u64, x: int)
    requires lo <= hi
    ensures Covers(Clip(file, lo, hi), x) <==> 0 <= x < hi - lo && Covers(file, lo + x)
    decreases |file|
  {
    if file != [] {
      var n := |file| - 1;
      var last := file[n];
      var start := if last.offset < lo then lo else last.offset;
      var end := if last.End() < hi then last.End() else hi;
      ClipCovers(file[..n], lo, hi, x);
      assert file == file[..n] + [last];
      CoversSnocAt(file[..n], last, lo + x);
      if start < end {
        CoversSnocAt(Clip(file[..n], lo, hi), Extent(start - lo, end - start), x);
      }
    }
  }

  /** Clipping a canonical map gives a canonical map of the span. */
  lemma {:induction false} ClipCanonical(file: seq<Extent>, limit: int, lo: u64, hi: u64)
    requires Canonical(file, limit) && lo <= hi
    ensures Canonical(Clip(file, lo, hi), hi - lo)
    decreases |file|
  {
    if file != [] {
      var n := |file| - 1;
      ClipCanonical(file[..n], limit, lo, hi);
      var front := Clip(file[..n], lo, hi);
      forall i | 0 <= i < |front|
        ensures lo + front[i].End() < file[n].offset
      {
        assert front[i].Has(front[i].End() - 1);
        ClipCovers(file[..n], lo, hi, front[i].End() - 1);
      }
    }
  }

  // ----- stored bytes -----

  function LengthOf(e: Extent): nat {
    e.length
  }

  function TotalLength(extents: seq<Extent>): nat {
    Total(LengthOf, extents)
  }

  /** Every extent, moved by base, lies inside the image. */
  predicate Inside(image: Bytes, base: nat, extents: seq<Extent>) {
    forall i :: 0 <= i < |extents| ==> base + extents[i].End() <= |image|
  }

  function Piece(image: Bytes, base: nat, e: Extent): (piece: Bytes)
    requires base + e.End() <= |image|
    ensures |piece| == e.length
  {
    image[base + e.offset..base + e.End()]
  }

  /** The extents of a span starting at base, concatenated: what a chunk stores. */
  function Gather(image: Bytes, base: nat, extents: seq<Extent>): (stored: Bytes)
    requires Inside(image, base, extents)
    ensures |stored| == TotalLength(extents)
  {
    if extents == [] then []
    else Gather(image, base, extents[..|extents| - 1]) + Piece(image, base, extents[|extents| - 1])
  }

  lemma GatherSnoc(image: Bytes, base: nat, front: seq<Extent>, e: Extent)
    requires Inside(image, base, front) && base + e.End() <= |image|
    ensures TotalLength(front + [e]) == TotalLength(front) + e.length
    ensures Inside(image, base, front + [e])
    ensures Gather(image, base, front + [e]) == Gather(image, base, front) + Piece(image, base, e)
  {
    TotalSnoc(LengthOf, front, e);
    assert (front + [e])[..|front|] == front;
  }

  /** Images that agree on the covered bytes store the same bytes. */
  lemma {:induction false} GatherAgree(a: Bytes, baseA: nat, b: Bytes, baseB: nat, extents: seq<Extent>)
    requires Inside(a, baseA, extents) && Inside(b, baseB, extents)
    requires forall x: nat :: Covers(extents, x) ==> a[baseA + x] == b[baseB + x]
    ensures Gather(a, baseA, extents) == Gather(b, baseB, extents)
    decreases |extents|
  {
    if extents != [] {
      var n := |extents| - 1;
      var front, last := extents[..n], extents[n];
      assert extents == front + [last];
      CoversSnoc(front, last);
      GatherAgree(a, baseA, b, baseB, front);
      PieceAgree(a, baseA, b, baseB, last);
    }
  }

  lemma PieceAgree(a: Bytes, baseA: nat, b: Bytes, baseB: nat, e: Extent)
    requires baseA + e.End() <= |a| && baseB + e.End() <= |b|
    ensures (forall x: nat :: e.Has(x) ==> a[baseA + x] == b[baseB + x]) <==>
            Piece(a, baseA, e) == Piece(b, baseB, e)
  {
    var p, q := Piece(a, baseA, e), Piece(b, baseB, e);
    if forall x: nat :: e.Has(x) ==> a[baseA + x] == b[baseB + x] {
      forall i | 0 <= i < |p|
        ensures p[i] == q[i]
      {
        assert e.Has(e.offset + i);
        assert a[baseA + (e.offset + i)] == b[baseB + (e.offset + i)];
      }
    }
    if p == q {
      forall x: nat | e.Has(x)
        ensures a[baseA + x] == b[baseB + x]
      {
        assert p[x - e.offset] == q[x - e.offset];
      }
    }
  }

  /** Images that store the same bytes agree on the covered bytes. */
  lemma {:induction false} GatherDetermines(a: Bytes, baseA: nat, b: Bytes, baseB: nat, extents: seq<Extent>, x: nat)
    requires Inside(a, baseA, extents) && Inside(b, baseB, extents)
    requires Gather(a, baseA, extents) == Gather(b, baseB, extents)
    requires Covers(extents, x)
    ensures baseA + x < |a| && baseB + x < |b| && a[baseA + x] == b[baseB + x]
    decreases |extents|
  {
    var n := |extents| - 1;
    var front, last := extents[..n], extents[n];
    assert extents == front + [last];
    CoversSnocAt(front, last, x);
    SplitEqual(Gather(a, baseA, front), Piece(a, baseA, last), Gather(b, baseB, front), Piece(b, baseB, last));
    if Covers(front, x) {
      GatherDetermines(a, baseA, b, baseB, front, x);
    } else {
      PieceAgree(a, baseA, b, baseB, last);
    }
  }

  // ----- logical content -----

  /** One logical byte of a file: its data inside an extent, zero in a hole. */
  function LogicalByte(image: Bytes, file: seq<Extent>, b: nat): byte {
    if Covers(file, b) && b < |image| then image[b] else 0
  }

  /** The logical bytes [lo, hi) of a file, holes read as zeros. */
  function Logical(image: Bytes, file: seq<Extent>, lo: nat, hi: nat): (s: Bytes)
    requires lo <= hi
    ensures |s| == hi - lo
  {
    seq<byte>(hi - lo, i requires 0 <= i < hi - lo => LogicalByte(image, file, lo + i))
  }

  lemma LogicalConcat(image: Bytes, file: seq<Extent>, lo: nat, mid: nat, hi: nat)
    requires lo <= mid <= hi
    ensures Logical(image, file, lo, mid) + Logical(image, file, mid, hi) == Logical(image, file, lo, hi)
  {
  }

  // ----- expansion -----

  /** out is the span that stores exactly these bytes and is zero in its holes. */
  ghost predicate Expanded(stored: Bytes, extents: seq<Extent>, span: nat, out: Bytes) {
    && |out| == span
    && Inside(out, 0, extents)
    && Gather(out, 0, extents) == stored
    && forall x: nat :: x < span && !Covers(extents, x) ==> out[x] == 0
  }

  /** Expanding what was gathered gives back the logical span. */
  lemma ExpandGathered(image: Bytes, file: seq<Extent>, size: nat, lo: u64, hi: u64, out: Bytes)
    requires Canonical(file, size) && lo <= hi
    requires Inside(image, lo, Clip(file, lo, hi))
    requires Expanded(Gather(image, lo, Clip(file, lo, hi)), Clip(file, lo, hi), hi - lo, out)
    ensures out == Logical(image, file, lo, hi)
  {
    hide Gather, Clip;
    var clip := Clip(file, lo, hi);
    var logical := Logical(image, file, lo, hi);
    forall x: nat | x < hi - lo
      ensures out[x] == logical[x]
    {
      ClipCovers(file, lo, hi, x);
      assert logical[x] == LogicalByte(image, file, lo + x);
      if Covers(clip, x) {
        GatherDetermines(out, 0, image, lo, clip, x);
      } else {
        assert out[x] == 0;
      }
    }
  }

  predicate FitSpan(extents: seq<Extent>, span: nat) {
    forall i :: 0 <= i < |extents| ==> extents[i].End() <= span
  }

  /** Places stored bytes at their logical offsets inside one chunk span. Whatever
      the map, it is refused unless it fits the span and uses every stored byte. */
  method ExpandExtents(stored: Bytes, extents: seq<Extent>, span: u64) returns (r: Result<Bytes>)
    requires forall i :: 0 <= i < |extents| ==> extents[i].End() < TWO_64
    ensures r.Ok? <==> FitSpan(extents, span) && |stored| == TotalLength(extents)
    ensures r.Ok? ==> |r.value| == span
    ensures r.Ok? && Canonical(extents, span) ==> Expanded(stored, extents, span, r.value)
    ensures r.Err? ==> r.error == FrameCorrupt
  {
    hide Expanding;
    var out := new byte[span](_ => 0);
    var at: nat := 0;
    NothingExpanded(stored, extents, out[..]);
    for i := 0 to |extents|
      invariant Expanding(stored, extents, i, span, at, out[..])
    {
      var extent := extents[i];
      var end := extent.offset + extent.length;
      ExpandingNext(stored, extents, i, span, at, out[..]);
      if end > span || at + extent.length > |stored| {
        return Err(FrameCorrupt);
      }
      CopyInto(out, extent.offset, stored[at..at + extent.length]);
      at := at + extent.length;
    }
    ExpandingDone(stored, extents, span, at, out[..]);
    if at != |stored| {
      return Err(FrameCorrupt);
    }
    return Ok(out[..]);
  }

  /** The first i extents are placed, and use the first at stored bytes. */
  ghost predicate Expanding(stored: Bytes, extents: seq<Extent>, i: nat, span: nat, at: nat, out: Bytes) {
    && i <= |extents| && |out| == span
    && FitSpan(extents[..i], span)
    && at == TotalLength(extents[..i]) <= |stored|
    && (Canonical(extents, span) ==> Expanded(stored[..at], extents[..i], span, out))
  }

  lemma NothingExpanded(stored: Bytes, extents: seq<Extent>, zeros: Bytes)
    requires forall x :: 0 <= x < |zeros| ==> zeros[x] == 0
    ensures Expanding(stored, extents, 0, |zeros|, 0, zeros)
  {
    hide Canonical;
    assert extents[..0] == [] && stored[..0] == [];
  }

  /** Extent i is placed, or shows that the map cannot be. */
  lemma ExpandingNext(stored: Bytes, extents: seq<Extent>, i: nat, span: nat, at: nat, out: Bytes)
    requires Expanding(stored, extents, i, span, at, out) && i < |extents|
    ensures |out| == span && at <= |stored|
    ensures if extents[i].End() > span || at + extents[i].length > |stored|
            then !(FitSpan(extents, span) && |stored| == TotalLength(extents))
            else Expanding(stored, extents, i + 1, span, at + extents[i].length,
                           Overwrite(out, extents[i].offset, stored[at..at + extents[i].length]))
  {
    hide Expanded, Overwrite, Canonical, Total;
    TotalStep(LengthOf, extents, i);
    PrefixSnoc(extents, i);
    if Canonical(extents, span) && at + extents[i].length <= |stored| {
      ExpandNext(stored, extents, i, span, at, out);
    }
  }

  lemma ExpandingDone(stored: Bytes, extents: seq<Extent>, span: nat, at: nat, out: Bytes)
    requires Expanding(stored, extents, |extents|, span, at, out)
    ensures |out| == span && FitSpan(extents, span) && at == TotalLength(extents)
    ensures at == |stored| && Canonical(extents, span) ==> Expanded(stored, extents, span, out)
  {
    hide Expanded, Canonical;
    PrefixWhole(extents);
    PrefixWhole(stored);
  }

  lemma ExpandNext(stored: Bytes, extents: seq<Extent>, i: nat, span: nat, at: nat, before: Bytes)
    requires Canonical(extents, span) && i < |extents| && |before| == span && at + extents[i].length <= |stored|
    requires Expanded(stored[..at], extents[..i], span, before)
    ensures extents[i].End() <= span
    ensures Expanded(stored[..at + extents[i].length], extents[..i] + [extents[i]], span,
                     Overwrite(before, extents[i].offset, stored[at..at + extents[i].length]))
  {
    hide Expanded, Overwrite;
    ExpandStep(stored, extents[..i], extents[i], at, before);
  }

  lemma ExpandStep(stored: Bytes, front: seq<Extent>, e: Extent, at: nat, before: Bytes)
    requires forall i :: 0 <= i < |front| ==> front[i].End() <= e.offset
    requires e.End() <= |before| && at + e.length <= |stored|
    requires Expanded(stored[..at], front, |before|, before)
    ensures TotalLength(front + [e]) == TotalLength(front) + e.length
    ensures Expanded(stored[..at + e.length], front + [e], |before|,
                     Overwrite(before, e.offset, stored[at..at + e.length]))
  {
    var data := stored[at..at + e.length];
    OverwriteKeepsFront(before, front, e, data);
    GatherSnoc(Overwrite(before, e.offset, data), 0, front, e);
    OverwriteHoles(before, front, e, data);
    assert stored[..at] + data == stored[..at + e.length];
  }

  lemma OverwriteKeepsFront(before: Bytes, front: seq<Extent>, e: Extent, data: Bytes)
    requires forall i :: 0 <= i < |front| ==> front[i].End() <= e.offset
    requires e.End() <= |before| && |data| == e.length && Inside(before, 0, front)
    ensures Inside(Overwrite(before, e.offset, data), 0, front)
    ensures Gather(Overwrite(before, e.offset, data), 0, front) == Gather(before, 0, front)
    ensures Piece(Overwrite(before, e.offset, data), 0, e) == data
  {
    hide Gather, Overwrite;
    var after := Overwrite(before, e.offset, data);
    forall x: nat | Covers(front, x)
      ensures after[0 + x] == before[0 + x]
    {
      var i :| 0 <= i < |front| && front[i].Has(x);
      OverwriteAt(before, e.offset, data, x);
    }
    GatherAgree(after, 0, before, 0, front);
    OverwriteSlice(before, e.offset, data);
  }

  lemma OverwriteHoles(before: Bytes, front: seq<Extent>, e: Extent, data: Bytes)
    requires e.End() <= |before| && |data| == e.length
    requires forall x: nat :: x < |before| && !Covers(front, x) ==> before[x] == 0
    ensures forall x: nat :: x < |before| && !Covers(front + [e], x) ==> Overwrite(before, e.offset, data)[x] == 0
  {
    forall x: nat | x < |before| && !Covers(front + [e], x)
      ensures Overwrite(before, e.offset, data)[x] == 0
    {
      CoversSnocAt(front, e, x);
    }
  }
}
