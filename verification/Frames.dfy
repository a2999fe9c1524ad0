/**
The frame table (vcs/archive/validate.go, validateFrames): frames are accepted
exactly when they tile the packs.
 */
module Frames {
  import opened Basics
  import opened Manifest

  /** Frame f covers byte b of pack p. */
  predicate CoversByte(f: Frame, p: int, b: int) {
    f.packIndex == p && f.packOffset <= b < f.packOffset + f.compressedLength
  }

  /** Frame order by (pack, offset). */
  predicate Before(f: Frame, g: Frame) {
    f.packIndex < g.packIndex || (f.packIndex == g.packIndex && f.packOffset < g.packOffset)
  }

  /** Each frame is non-empty, bounded by the chunk size and inside its pack. */
  predicate FrameBounds(f: Frame, sizes: seq<u64>, chunkSize: nat) {
    && f.packIndex < |sizes|
    && 0 < f.compressedLength
    && 0 < f.uncompressedLength <= chunkSize
    && f.End() <= sizes[f.packIndex]
  }

  predicate PackByte(sizes: seq<u64>, p: int, b: int) {
    0 <= p < |sizes| && 0 <= b < sizes[p]
  }

  predicate Covered(frames: seq<Frame>, p: int, b: int) {
    exists i :: 0 <= i < |frames| && CoversByte(frames[i], p, b)
  }

  /** Every byte of every pack belongs to one and only one frame, and frames are
      listed in (pack, offset) order. */
  ghost predicate Tiling(frames: seq<Frame>, sizes: seq<u64>, chunkSize: nat) {
    && (forall i :: 0 <= i < |frames| ==> FrameBounds(frames[i], sizes, chunkSize))
    && (forall i, j :: 0 <= i < j < |frames| ==> Before(frames[i], frames[j]))
    && (forall p, b :: PackByte(sizes, p, b) ==> Covered(frames, p, b))
    && (forall p, b, i, j :: 0 <= i < j < |frames| ==>
          !(CoversByte(frames[i], p, b) && CoversByte(frames[j], p, b)))
  }

  /** g starts exactly where f stops, in the same pack or at the next one's origin. */
  predicate Follows(f: Frame, g: Frame, sizes: seq<u64>)
    requires f.packIndex < |sizes|
  {
    || (g.packIndex == f.packIndex && g.packOffset == f.End())
    || (g.packIndex == f.packIndex + 1 && g.packOffset == 0 && f.End() == sizes[f.packIndex])
  }

  /** The same condition read frame by frame. */
  predicate Chain(frames: seq<Frame>, sizes: seq<u64>, chunkSize: nat) {
    && (forall i :: 0 <= i < |frames| ==> FrameBounds(frames[i], sizes, chunkSize))
    && (|frames| > 0 ==> frames[0].packIndex == 0 && frames[0].packOffset == 0)
    && (forall i :: 0 <= i < |frames| - 1 ==> Follows(frames[i], frames[i + 1], sizes))
  }

  /** Position (pack, offset) just after the last frame of a chain. */
  function ChainEnd(frames: seq<Frame>): (int, int) {
    if frames == [] then (0, 0) else (frames[|frames| - 1].packIndex, frames[|frames| - 1].End())
  }

  /** The chain reaches the end of the last pack. */
  predicate Complete(frames: seq<Frame>, sizes: seq<u64>) {
    if frames == [] then sizes == []
    else |sizes| == frames[|frames| - 1].packIndex + 1 && frames[|frames| - 1].End() == sizes[|sizes| - 1]
  }

  // ----- chain implies tiling -----

  lemma {:induction false} ChainOrder(frames: seq<Frame>, sizes: seq<u64>, chunkSize: nat, i: nat, j: nat)
    requires Chain(frames, sizes, chunkSize) && i < j < |frames|
    ensures frames[i].packIndex < frames[j].packIndex ||
            (frames[i].packIndex == frames[j].packIndex && frames[i].End() <= frames[j].packOffset)
    decreases j - i
  {
    assert Follows(frames[j - 1], frames[j], sizes);
    if i < j - 1 {
      ChainOrder(frames, sizes, chunkSize, i, j - 1);
      assert FrameBounds(frames[j - 1], sizes, chunkSize);
    }
  }

  /** The frames before position n cover every byte before where frame n - 1 stops. */
  lemma {:induction false} ChainCovers(frames: seq<Frame>, sizes: seq<u64>, chunkSize: nat, n: nat, p: nat, b: nat)
    requires Chain(frames, sizes, chunkSize) && 0 < n <= |frames|
    requires p < |sizes| && b < sizes[p]
    requires p < frames[n - 1].packIndex || (p == frames[n - 1].packIndex && b < frames[n - 1].End())
    ensures exists i :: 0 <= i < n && CoversByte(frames[i], p, b)
    decreases n
  {
    var f := frames[n - 1];
    if CoversByte(f, p, b) {
    } else {
      if n > 1 {
        assert Follows(frames[n - 2], frames[n - 1], sizes);
        ChainCovers(frames, sizes, chunkSize, n - 1, p, b);
      }
    }
  }

  lemma ChainTiles(frames: seq<Frame>, sizes: seq<u64>, chunkSize: nat)
    requires Chain(frames, sizes, chunkSize) && Complete(frames, sizes)
    ensures Tiling(frames, sizes, chunkSize)
  {
    forall i, j | 0 <= i < j < |frames|
      ensures Before(frames[i], frames[j])
      ensures forall p, b :: !(CoversByte(frames[i], p, b) && CoversByte(frames[j], p, b))
    {
      ChainOrder(frames, sizes, chunkSize, i, j);
      assert FrameBounds(frames[i], sizes, chunkSize);
    }
    forall p, b | PackByte(sizes, p, b)
      ensures Covered(frames, p, b)
    {
      ChainCovers(frames, sizes, chunkSize, |frames|, p, b);
    }
  }

  // ----- tiling implies chain -----

  /** The frame that covers the first byte after frame i stops is frame i + 1. */
  lemma NextFrame(frames: seq<Frame>, sizes: seq<u64>, chunkSize: nat, i: nat, p: nat, b: nat)
    requires Tiling(frames, sizes, chunkSize) && i < |frames|
    requires p < |sizes| && b < sizes[p]
    requires (p == frames[i].packIndex && b == frames[i].End()) ||
             (p == frames[i].packIndex + 1 && b == 0 && frames[i].End() == sizes[frames[i].packIndex])
    ensures i + 1 < |frames| && frames[i + 1].packIndex == p && frames[i + 1].packOffset == b
  {
    var f := frames[i];
    assert FrameBounds(f, sizes, chunkSize);
    assert PackByte(sizes, p, b) && Covered(frames, p, b);
    var j :| 0 <= j < |frames| && CoversByte(frames[j], p, b);
    if frames[j].packOffset < b {
      assert CoversByte(frames[j], p, b - 1) && CoversByte(f, p, b - 1);
    }
    assert frames[j].packOffset == b;
    if i + 1 < j {
      var g := frames[i + 1];
      assert FrameBounds(g, sizes, chunkSize);
      assert Before(f, g) && Before(g, frames[j]);
      assert CoversByte(g, g.packIndex, g.packOffset);
      assert false;
    }
  }

  lemma FirstFrame(frames: seq<Frame>, sizes: seq<u64>, chunkSize: nat)
    requires Tiling(frames, sizes, chunkSize)
    requires forall p :: 0 <= p < |sizes| ==> 0 < sizes[p]
    ensures sizes == [] <==> frames == []
    ensures frames != [] ==> frames[0].packIndex == 0 && frames[0].packOffset == 0
  {
    if frames != [] {
      assert FrameBounds(frames[0], sizes, chunkSize);
    }
    if sizes != [] {
      assert PackByte(sizes, 0, 0) && Covered(frames, 0, 0);
      var i :| 0 <= i < |frames| && CoversByte(frames[i], 0, 0);
    }
  }

  lemma TilingLinks(frames: seq<Frame>, sizes: seq<u64>, chunkSize: nat, i: nat)
    requires Tiling(frames, sizes, chunkSize) && i < |frames|
    requires forall p :: 0 <= p < |sizes| ==> 0 < sizes[p]
    ensures frames[i].packIndex < |sizes|
    ensures i < |frames| - 1 ==> Follows(frames[i], frames[i + 1], sizes)
    ensures i == |frames| - 1 ==> Complete(frames, sizes)
  {
    var f := frames[i];
    assert FrameBounds(f, sizes, chunkSize);
    if f.End() < sizes[f.packIndex] {
      NextFrame(frames, sizes, chunkSize, i, f.packIndex, f.End());
    } else if f.packIndex + 1 < |sizes| {
      NextFrame(frames, sizes, chunkSize, i, f.packIndex + 1, 0);
    } else {
      LastFrame(frames, sizes, chunkSize, i);
    }
  }

  lemma TilingChains(frames: seq<Frame>, sizes: seq<u64>, chunkSize: nat)
    requires Tiling(frames, sizes, chunkSize)
    requires forall p :: 0 <= p < |sizes| ==> 0 < sizes[p]
    ensures Chain(frames, sizes, chunkSize) && Complete(frames, sizes)
  {
    FirstFrame(frames, sizes, chunkSize);
    forall i | 0 <= i < |frames| - 1
      ensures frames[i].packIndex < |sizes| && Follows(frames[i], frames[i + 1], sizes)
    {
      TilingLinks(frames, sizes, chunkSize, i);
    }
    if frames != [] {
      TilingLinks(frames, sizes, chunkSize, |frames| - 1);
    }
  }

  lemma LastFrame(frames: seq<Frame>, sizes: seq<u64>, chunkSize: nat, i: nat)
    requires Tiling(frames, sizes, chunkSize) && i < |frames|
    requires frames[i].packIndex + 1 == |sizes| && frames[i].End() >= sizes[frames[i].packIndex]
    ensures i == |frames| - 1
  {
    if i < |frames| - 1 {
      var f, g := frames[i], frames[i + 1];
      assert FrameBounds(f, sizes, chunkSize) && FrameBounds(g, sizes, chunkSize);
      assert Before(f, g);
      assert CoversByte(f, g.packIndex, g.packOffset) && CoversByte(g, g.packIndex, g.packOffset);
    }
  }

  // ----- the scan -----

  /** The scan's next expected position after a chain: where the chain stops, or
      the origin of the next pack once the current one is used up. */
  predicate Expects(done: seq<Frame>, sizes: seq<u64>, pack: int, offset: int) {
    || (pack, offset) == ChainEnd(done)
    || (done != [] && 0 < pack <= |sizes| && pack == ChainEnd(done).0 + 1 && offset == 0 &&
        ChainEnd(done).1 == sizes[pack - 1])
  }

  lemma ChainSnoc(done: seq<Frame>, f: Frame, sizes: seq<u64>, chunkSize: nat)
    requires Chain(done, sizes, chunkSize)
    ensures Chain(done + [f], sizes, chunkSize) <==>
            FrameBounds(f, sizes, chunkSize) && Expects(done, sizes, f.packIndex, f.packOffset)
  {
    var wider := done + [f];
    if done != [] {
      assert FrameBounds(done[|done| - 1], sizes, chunkSize);
      assert wider[|done| - 1] == done[|done| - 1] && wider[|done|] == f;
      if FrameBounds(f, sizes, chunkSize) && Expects(done, sizes, f.packIndex, f.packOffset) {
        assert Follows(done[|done| - 1], f, sizes);
      }
    }
    if Chain(wider, sizes, chunkSize) {
      assert wider[|done|] == f;
      assert done != [] ==> Follows(wider[|done| - 1], wider[|done| - 1 + 1], sizes);
    }
  }

  lemma ChainPrefix(frames: seq<Frame>, sizes: seq<u64>, chunkSize: nat, k: nat)
    requires Chain(frames, sizes, chunkSize) && k <= |frames|
    ensures Chain(frames[..k], sizes, chunkSize)
  {
    var front := frames[..k];
    forall i | 0 <= i < |front| - 1
      ensures Follows(front[i], front[i + 1], sizes)
    {
      assert Follows(frames[i], frames[i + 1], sizes);
    }
  }

  /** Steps over used-up packs until the one a frame names is reached. */
  method AdvancePack(ghost done: seq<Frame>, sizes: seq<u64>, pack: nat, offset: nat, target: nat)
    returns (ok: bool, nextPack: nat, nextOffset: nat)
    requires forall p :: 0 <= p < |sizes| ==> 0 < sizes[p]
    requires pack <= target <= |sizes| && (pack, offset) == ChainEnd(done)
    ensures ok ==> nextPack == target && Expects(done, sizes, nextPack, nextOffset)
    ensures !ok ==> forall o :: !Expects(done, sizes, target, o)
  {
    nextPack, nextOffset := pack, offset;
    while nextPack < target
      invariant pack <= nextPack <= target
      invariant Expects(done, sizes, nextPack, nextOffset)
    {
      if nextOffset != sizes[nextPack] {
        return false, nextPack, nextOffset;
      }
      nextPack := nextPack + 1;
      nextOffset := 0;
    }
    return true, nextPack, nextOffset;
  }

  lemma TilingIsChain(frames: seq<Frame>, sizes: seq<u64>, chunkSize: nat)
    requires forall p :: 0 <= p < |sizes| ==> 0 < sizes[p]
    ensures Tiling(frames, sizes, chunkSize) <==> Chain(frames, sizes, chunkSize) && Complete(frames, sizes)
  {
    if Tiling(frames, sizes, chunkSize) {
      TilingChains(frames, sizes, chunkSize);
    } else if Chain(frames, sizes, chunkSize) && Complete(frames, sizes) {
      ChainTiles(frames, sizes, chunkSize);
    }
  }

  /** Walks the frame table once, keeping only the next expected position. */
  method ValidateFrames(frames: seq<Frame>, sizes: seq<u64>, chunkSize: u32) returns (ok: bool)
    requires forall p :: 0 <= p < |sizes| ==> 0 < sizes[p]
    ensures ok <==> Tiling(frames, sizes, chunkSize)
  {
    hide Tiling, Follows;
    TilingIsChain(frames, sizes, chunkSize);
    var nextPack := 0;
    var nextOffset := 0;
    for index := 0 to |frames|
      invariant Chain(frames[..index], sizes, chunkSize)
      invariant (nextPack, nextOffset) == ChainEnd(frames[..index])
    {
      var frame := frames[index];
      ghost var done := frames[..index];
      PrefixSnoc(frames, index);
      ChainSnoc(done, frame, sizes, chunkSize);
      if Chain(frames, sizes, chunkSize) {
        ChainPrefix(frames, sizes, chunkSize, index + 1);
      }
      if frame.packIndex >= |sizes| || frame.packIndex < nextPack {
        return false;
      }
      ok, nextPack, nextOffset := AdvancePack(done, sizes, nextPack, nextOffset, frame.packIndex);
      if !ok || frame.packOffset != nextOffset {
        return false;
      }
      if frame.compressedLength == 0 || frame.uncompressedLength == 0 {
        return false;
      }
      if frame.uncompressedLength > chunkSize {
        return false;
      }
      var end := CheckedRange(frame.packOffset, frame.compressedLength, sizes[frame.packIndex]);
      if end.None? {
        return false;
      }
      nextOffset := end.value;
    }
    PrefixWhole(frames);
    assert frames != [] ==> FrameBounds(frames[|frames| - 1], sizes, chunkSize);
    assert Complete(frames, sizes) <==> exists o :: Expects(frames, sizes, |sizes|, o) by {
      assert Complete(frames, sizes) ==> Expects(frames, sizes, |sizes|, 0);
    }
    ok, nextPack, nextOffset := AdvancePack(frames, sizes, nextPack, nextOffset, |sizes|);
  }
}
