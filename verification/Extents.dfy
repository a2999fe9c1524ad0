/**
Extent maps (vcs/archive/extents.go, and the clipping of vcs/archive/build.go):
one byte range has exactly one canonical representation.
 */
module Extents {
  import opened Basics

  /** One contiguous run of data bytes. */
  datatype Extent = Extent(offset: u64, length: u64) {
    function End(): (end: int)
      ensures 0 <= offset <= end
    {
      offset + length
    }

    predicate Has(b: int) {
      offset <= b < offset + length
    }
  }

  /** Byte b is inside some extent of the list. */
  predicate Covers(extents: seq<Extent>, b: int) {
    exists i :: 0 <= i < |extents| && extents[i].Has(b)
  }

  /** Two lists describe the same set of bytes. */
  ghost predicate SameBytes(a: seq<Extent>, b: seq<Extent>) {
    forall x: int :: Covers(a, x) <==> Covers(b, x)
  }

  /** Non-empty, strictly increasing, non-adjacent, and inside [0, limit). */
  predicate Canonical(extents: seq<Extent>, limit: int) {
    && (forall i :: 0 <= i < |extents| ==> 0 < extents[i].length && extents[i].End() <= limit)
    && (forall i, j :: 0 <= i < j < |extents| ==> extents[i].End() < extents[j].offset)
  }

  lemma CanonicalPrefix(extents: seq<Extent>, limit: int, k: nat)
    requires Canonical(extents, limit) && k <= |extents|
    ensures Canonical(extents[..k], limit)
  {
  }

  lemma CanonicalTail(extents: seq<Extent>, limit: int)
    requires Canonical(extents, limit) && extents != []
    ensures Canonical(extents[1..], limit)
    ensures forall x: int :: Covers(extents[1..], x) <==> Covers(extents, x) && !extents[0].Has(x)
    ensures forall x: int :: Covers(extents[1..], x) ==> extents[0].End() < x
  {
    var tail := extents[1..];
    forall x: int
      ensures Covers(tail, x) <==> Covers(extents, x) && !extents[0].Has(x)
      ensures Covers(tail, x) ==> extents[0].End() < x
    {
      if Covers(tail, x) {
        var i :| 0 <= i < |tail| && tail[i].Has(x);
        assert extents[i + 1].Has(x);
      }
      if Covers(extents, x) && !extents[0].Has(x) {
        var i :| 0 <= i < |extents| && extents[i].Has(x);
        assert tail[i - 1].Has(x);
      }
    }
  }

  lemma CoversFirst(extents: seq<Extent>, limit: int, x: int)
    requires Canonical(extents, limit) && extents != []
    ensures extents[0].Has(x) ==> Covers(extents, x)
    ensures Covers(extents, x) ==> extents[0].offset <= x
    ensures !Covers(extents, extents[0].End())
  {
    CanonicalTail(extents, limit);
    assert extents[0].Has(x) ==> Covers(extents, x);
  }

  lemma FirstByteCovered(extents: seq<Extent>, limit: int)
    requires Canonical(extents, limit)
    ensures extents != [] ==> Covers(extents, extents[0].offset)
  {
    if extents != [] {
      assert extents[0].Has(extents[0].offset);
    }
  }

  /** A set of bytes has at most one canonical extent list. */
  lemma {:induction false} CanonicalUnique(a: seq<Extent>, b: seq<Extent>, limit: int)
    requires Canonical(a, limit) && Canonical(b, limit)
    requires SameBytes(a, b)
    ensures a == b
    decreases |a|
  {
    if a == [] {
      FirstByteCovered(b, limit);
    } else {
      assert a[0].Has(a[0].offset);
      assert Covers(b, a[0].offset);
      CoversFirst(a, limit, b[0].offset);
      CoversFirst(b, limit, a[0].offset);
      assert b[0].Has(b[0].offset);
      assert a[0].offset == b[0].offset;
      CoversFirst(a, limit, b[0].End());
      CoversFirst(b, limit, a[0].End());
      assert a[0].length == b[0].length;
      CanonicalTail(a, limit);
      CanonicalTail(b, limit);
      CanonicalUnique(a[1..], b[1..], limit);
      assert a == [a[0]] + a[1..] && b == [b[0]] + b[1..];
    }
  }

  // ----- normalization of a scan -----

  /** What a scan must look like for normalization to accept it: the non-empty
      extents lie inside the file, in order and without overlap. */
  predicate Scannable(scan: seq<Extent>, size: int) {
    && (forall i :: 0 <= i < |scan| && scan[i].length > 0 ==> scan[i].End() <= size)
    && (forall i, j :: 0 <= i < j < |scan| && scan[i].length > 0 && scan[j].length > 0 ==>
                         scan[i].End() <= scan[j].offset)
  }

  /** out is the canonical form of the scanned prefix. */
  ghost predicate NormalizedSoFar(prefix: seq<Extent>, out: seq<Extent>, size: int) {
    Scannable(prefix, size) && Canonical(out, size) && SameBytes(out, prefix)
  }

  /** Merges touching runs and drops empty ones, refusing overlap, disorder and
      anything past the file size. */
  method NormalizeExtents(scan: seq<Extent>, size: u64) returns (r: Result<seq<Extent>>)
    ensures r.Ok? <==> Scannable(scan, size)
    ensures r.Ok? ==> Canonical(r.value, size) && SameBytes(r.value, scan)
    ensures r.Err? ==> r.error == Invalid
  {
    var out: seq<Extent> := [];
    var index := 0;
    assert NormalizedSoFar(scan[..0], [], size);
    hide Canonical, SameBytes;
    while index < |scan|
      invariant 0 <= index <= |scan|
      invariant NormalizedSoFar(scan[..index], out, size)
    {
      var extent := scan[index];
      ghost var prefix := scan[..index];
      assert scan[..index + 1] == prefix + [extent];
      index := index + 1;
      if extent.length == 0 {
        SkipEmpty(prefix, out, extent, size);
        continue;
      }
      var end := CheckedRange(extent.offset, extent.length, size);
      if end.None? {
        assert scan[index - 1].End() > size;
        return Err(Invalid);
      }
      if |out| > 0 {
        var previous := out[|out| - 1];
        var previousEnd := previous.offset + previous.length;
        if extent.offset < previousEnd {
          var i := OverlapWitness(prefix, out, extent, size);
          assert scan[i] == prefix[i] && scan[index - 1] == extent;
          return Err(Invalid);
        }
        if extent.offset == previousEnd {
          MergeLast(prefix, out, extent, size);
          out := out[..|out| - 1] + [Extent(previous.offset, end.value - previous.offset)];
          continue;
        }
      }
      AppendExtent(prefix, out, extent, size);
      out := out + [extent];
    }
    assert scan[..index] == scan;
    return Ok(out);
  }

  lemma SkipEmpty(prefix: seq<Extent>, out: seq<Extent>, e: Extent, size: int)
    requires NormalizedSoFar(prefix, out, size) && e.length == 0
    ensures NormalizedSoFar(prefix + [e], out, size)
  {
    CoversSnoc(prefix, e);
  }

  lemma OverlapWitness(prefix: seq<Extent>, out: seq<Extent>, e: Extent, size: int) returns (i: nat)
    requires NormalizedSoFar(prefix, out, size)
    requires out != [] && e.offset < out[|out| - 1].End()
    ensures i < |prefix| && prefix[i].length > 0 && prefix[i].End() > e.offset
  {
    var x := out[|out| - 1].End() - 1;
    assert out[|out| - 1].Has(x);
    assert Covers(prefix, x);
    i :| 0 <= i < |prefix| && prefix[i].Has(x);
  }

  lemma PrefixBehind(prefix: seq<Extent>, out: seq<Extent>, size: int, i: nat)
    requires NormalizedSoFar(prefix, out, size)
    requires i < |prefix| && prefix[i].length > 0
    ensures out != [] && prefix[i].End() <= out[|out| - 1].End()
  {
    assert prefix[i].Has(prefix[i].End() - 1);
    assert Covers(out, prefix[i].End() - 1);
  }

  lemma ExtendScan(prefix: seq<Extent>, out: seq<Extent>, e: Extent, size: int)
    requires NormalizedSoFar(prefix, out, size)
    requires e.length > 0 && e.End() <= size
    requires out != [] ==> out[|out| - 1].End() <= e.offset
    ensures Scannable(prefix + [e], size)
  {
    forall i | 0 <= i < |prefix| && prefix[i].length > 0
      ensures prefix[i].End() <= e.offset
    {
      PrefixBehind(prefix, out, size, i);
    }
  }

  lemma AppendExtent(prefix: seq<Extent>, out: seq<Extent>, e: Extent, size: int)
    requires NormalizedSoFar(prefix, out, size)
    requires e.length > 0 && e.End() <= size
    requires out != [] ==> out[|out| - 1].End() < e.offset
    ensures NormalizedSoFar(prefix + [e], out + [e], size)
  {
    ExtendScan(prefix, out, e, size);
    CoversSnoc(prefix, e);
    CoversSnoc(out, e);
  }

  lemma MergeLast(prefix: seq<Extent>, out: seq<Extent>, e: Extent, size: int)
    requires NormalizedSoFar(prefix, out, size)
    requires e.length > 0 && e.End() <= size < TWO_64
    requires out != [] && out[|out| - 1].End() == e.offset
    ensures var last := out[|out| - 1];
            NormalizedSoFar(prefix + [e], out[..|out| - 1] + [Extent(last.offset, e.End() - last.offset)], size)
  {
    var last := out[|out| - 1];
    var merged := Extent(last.offset, e.End() - last.offset);
    ExtendScan(prefix, out, e, size);
    CoversSnoc(prefix, e);
    CoversSnoc(out[..|out| - 1], last);
    CoversSnoc(out[..|out| - 1], merged);
    assert out == out[..|out| - 1] + [last];
  }

  lemma CoversSnocAt(extents: seq<Extent>, e: Extent, x: int)
    ensures Covers(extents + [e], x) <==> Covers(extents, x) || e.Has(x)
  {
    assert e.Has(x) ==> (extents + [e])[|extents|].Has(x);
    if Covers(extents, x) {
      var i :| 0 <= i < |extents| && extents[i].Has(x);
      assert (extents + [e])[i].Has(x);
    }
  }

  lemma CoversSnoc(extents: seq<Extent>, e: Extent)
    ensures forall x: int :: Covers(extents + [e], x) <==> Covers(extents, x) || e.Has(x)
  {
    forall x: int
      ensures Covers(extents + [e], x) <==> Covers(extents, x) || e.Has(x)
    {
      CoversSnocAt(extents, e, x);
    }
  }
}
