/**
Fetch planning (vcs/archive/ranges.go): turning wanted frames into the fewest
single-range requests the policy allows, and the prefetch sweep.
 */
module Ranges {
  import opened Basics
  import opened Manifest
  import opened Frames

  /** One single-range request against one pack object. */
  datatype ByteRange = ByteRange(packIndex: u32, offset: u64, length: u64) {
    function End(): (end: int)
      ensures 0 <= offset <= end
    {
      offset + length
    }

    predicate Holds(p: int, b: int) {
      p == packIndex && offset <= b < offset + length
    }
  }

  datatype RangePolicy = RangePolicy(maxGapBytes: u64, maxRangeBytes: u64)

  // ----- what a plan must satisfy -----

  /** The whole frame lies inside the range. */
  predicate Contains(r: ByteRange, f: Frame) {
    r.packIndex == f.packIndex && r.offset <= f.packOffset && f.End() <= r.End()
  }

  /** b is the next wanted frame after a. */
  predicate NextWanted(wanted: set<nat>, a: nat, b: nat) {
    a in wanted && b in wanted && a < b && forall c :: c in wanted ==> !(a < c < b)
  }

  /** What the policy asks of a range that serves both wanted frames a < b: it is
      within the cap, and between neighbours it swallows no gap that is too wide. */
  predicate PairAllowed(frames: seq<Frame>, wanted: set<nat>, policy: RangePolicy, r: ByteRange, a: nat, b: nat)
    requires forall w :: w in wanted ==> w < |frames|
  {
    a in wanted && b in wanted && a < b && Contains(r, frames[a]) && Contains(r, frames[b]) ==>
      && (policy.maxRangeBytes == 0 || r.length <= policy.maxRangeBytes)
      && (NextWanted(wanted, a, b) ==> frames[b].packOffset - frames[a].End() <= policy.maxGapBytes)
  }

  /** A range the policy allows; one that serves a single frame always is. */
  ghost predicate Permitted(frames: seq<Frame>, wanted: set<nat>, policy: RangePolicy, r: ByteRange)
    requires forall w :: w in wanted ==> w < |frames|
  {
    forall a: nat, b: nat :: PairAllowed(frames, wanted, policy, r, a, b)
  }

  /** Every wanted frame is inside some range, and every range is permitted. */
  ghost predicate Plan(frames: seq<Frame>, wanted: set<nat>, policy: RangePolicy, ranges: seq<ByteRange>)
    requires forall w :: w in wanted ==> w < |frames|
  {
    && (forall w :: w in wanted ==> exists i :: 0 <= i < |ranges| && Contains(ranges[i], frames[w]))
    && (forall i :: 0 <= i < |ranges| ==> Permitted(frames, wanted, policy, ranges[i]))
  }

  /** A range runs from the start of one wanted frame to the end of another: no
      byte at either end is fetched for nothing. */
  predicate Tight(frames: seq<Frame>, wanted: set<nat>, r: ByteRange) {
    exists a, b :: a in wanted && b in wanted && a < |frames| && b < |frames| && SpansFrom(frames[a], frames[b], r)
  }

  predicate SpansFrom(a: Frame, b: Frame, r: ByteRange) {
    a.packIndex == b.packIndex == r.packIndex && r.offset == a.packOffset && r.End() == b.End()
  }

  predicate RangeBefore(r: ByteRange, q: ByteRange) {
    r.packIndex < q.packIndex || (r.packIndex == q.packIndex && r.End() <= q.offset)
  }

  predicate Ordered(ranges: seq<ByteRange>) {
    forall i, j :: 0 <= i < j < |ranges| ==> RangeBefore(ranges[i], ranges[j])
  }

  // ----- sorting the wanted frames -----

  predicate Ascending(s: seq<nat>) {
    forall i, j :: 0 <= i < j < |s| ==> s[i] < s[j]
  }

  function Elements(s: seq<nat>): set<nat> {
    set x | x in s
  }

  /** In a tiled frame table, frame order is index order. */
  lemma BeforeIsIndexOrder(frames: seq<Frame>, sizes: seq<u64>, chunkSize: nat, a: nat, b: nat)
    requires Tiling(frames, sizes, chunkSize) && a < |frames| && b < |frames|
    ensures Before(frames[a], frames[b]) <==> a < b
  {
    if b < a {
      assert Before(frames[b], frames[a]);
    }
  }

  /** Inserts an index into a list kept in (pack, offset) order. */
  method InsertFrame(frames: seq<Frame>, ghost sizes: seq<u64>, ghost chunkSize: nat, sorted: seq<nat>, x: nat)
    returns (r: seq<nat>)
    requires Tiling(frames, sizes, chunkSize)
    requires Ascending(sorted) && (forall i :: 0 <= i < |sorted| ==> sorted[i] < |frames|)
    requires x < |frames| && x !in sorted
    ensures Ascending(r) && Elements(r) == Elements(sorted) + {x}
  {
    hide Tiling;
    var k := 0;
    while k < |sorted| && Before(frames[sorted[k]], frames[x])
      invariant 0 <= k <= |sorted|
      invariant forall i :: 0 <= i < k ==> sorted[i] < x
    {
      BeforeIsIndexOrder(frames, sizes, chunkSize, sorted[k], x);
      k := k + 1;
    }
    if k < |sorted| {
      assert sorted[k] in sorted;
      BeforeIsIndexOrder(frames, sizes, chunkSize, sorted[k], x);
    }
    Inserted(sorted, k, x);
    return sorted[..k] + [x] + sorted[k..];
  }

  lemma InsertedAscending(sorted: seq<nat>, k: nat, x: nat)
    requires Ascending(sorted) && k <= |sorted|
    requires (forall i :: 0 <= i < k ==> sorted[i] < x) && (k < |sorted| ==> x < sorted[k])
    ensures Ascending(sorted[..k] + [x] + sorted[k..])
  {
  }

  lemma Inserted(sorted: seq<nat>, k: nat, x: nat)
    requires Ascending(sorted) && k <= |sorted|
    requires (forall i :: 0 <= i < k ==> sorted[i] < x) && (k < |sorted| ==> x < sorted[k])
    ensures Ascending(sorted[..k] + [x] + sorted[k..])
    ensures Elements(sorted[..k] + [x] + sorted[k..]) == Elements(sorted) + {x}
  {
    hide Ascending;
    InsertedAscending(sorted, k, x);
    var r := sorted[..k] + [x] + sorted[k..];
    forall y | y in sorted
      ensures y in r
    {
      var i :| 0 <= i < |sorted| && sorted[i] == y;
      assert r[if i < k then i else i + 1] == y;
    }
    assert r[k] == x;
  }

  /** The distinct wanted frames in (pack, offset) order, or None when one does
      not exist. */
  method SortWanted(frames: seq<Frame>, ghost sizes: seq<u64>, ghost chunkSize: nat, requested: seq<nat>)
    returns (r: Option<seq<nat>>)
    requires Tiling(frames, sizes, chunkSize)
    ensures r.Some? <==> forall x :: x in requested ==> x < |frames|
    ensures r.Some? ==> Ascending(r.value) && Elements(r.value) == Elements(requested)
  {
    var sorted: seq<nat> := [];
    for i := 0 to |requested|
      invariant Ascending(sorted)
      invariant forall j :: 0 <= j < i ==> requested[j] < |frames|
      invariant Elements(sorted) == Elements(requested[..i])
    {
      PrefixSnoc(requested, i);
      assert Elements(requested[..i + 1]) == Elements(requested[..i]) + {requested[i]};
      if requested[i] >= |frames| {
        assert requested[i] in requested;
        return None;
      }
      if requested[i] in sorted {
        assert requested[i] in Elements(sorted);
        continue;
      }
      forall k | 0 <= k < |sorted|
        ensures sorted[k] < |frames|
      {
        assert sorted[k] in Elements(requested[..i]);
      }
      sorted := InsertFrame(frames, sizes, chunkSize, sorted, requested[i]);
    }
    PrefixWhole(requested);
    return Some(sorted);
  }

  // ----- greedy merging -----

  /** Frames listed in order: a later one in the same pack starts after the
      earlier one stops, and none wraps. */
  ghost predicate InOrder(fs: seq<Frame>) {
    && (forall i, j :: 0 <= i < j < |fs| ==>
          fs[i].packIndex < fs[j].packIndex || (fs[i].packIndex == fs[j].packIndex && fs[i].End() <= fs[j].packOffset))
    && (forall i :: 0 <= i < |fs| ==> 0 < fs[i].compressedLength && fs[i].End() < TWO_64)
  }

  /** Positions [lo, hi) of the sorted frames. */
  datatype Group = Group(lo: nat, hi: nat)

  /** The frames of a group form one range the policy allows. */
  ghost predicate Merged(fs: seq<Frame>, g: Group, policy: RangePolicy, r: ByteRange) {
    && g.lo < g.hi <= |fs|
    && r.offset == fs[g.lo].packOffset
    && r.End() == fs[g.hi - 1].End()
    && (forall k :: g.lo <= k < g.hi ==> fs[k].packIndex == r.packIndex)
    && (forall k :: g.lo < k < g.hi ==> fs[k].packOffset - fs[k - 1].End() <= policy.maxGapBytes)
    && (g.hi - g.lo > 1 ==> policy.maxRangeBytes == 0 || r.length <= policy.maxRangeBytes)
  }

  /** Why position k could not join the range that starts at position lo. */
  predicate Broken(fs: seq<Frame>, lo: nat, k: nat, policy: RangePolicy)
    requires lo < k < |fs|
  {
    || fs[k].packIndex != fs[k - 1].packIndex
    || fs[k].packOffset - fs[k - 1].End() > policy.maxGapBytes
    || (policy.maxRangeBytes != 0 && fs[k].End() - fs[lo].packOffset > policy.maxRangeBytes)
  }

  /** The groups are consecutive and together cover positions [0, n). */
  predicate Consecutive(groups: seq<Group>, n: nat) {
    && (groups == [] <==> n == 0)
    && (groups != [] ==> groups[0].lo == 0 && groups[|groups| - 1].hi == n)
    && (forall i :: 0 <= i < |groups| ==> groups[i].lo < groups[i].hi <= n)
    && (forall i :: 0 < i < |groups| ==> groups[i].lo == groups[i - 1].hi)
  }

  /** out is the greedy grouping of the first n frames. */
  ghost predicate Greedy(fs: seq<Frame>, n: nat, groups: seq<Group>, policy: RangePolicy, out: seq<ByteRange>) {
    && n <= |fs|
    && |groups| == |out|
    && Consecutive(groups, n)
    && (forall i :: 0 <= i < |out| ==> Merged(fs, groups[i], policy, out[i]))
    && (forall i :: 0 < i < |out| ==> Broken(fs, groups[i - 1].lo, groups[i].lo, policy))
  }

  lemma GreedyEmpty(fs: seq<Frame>, n: nat, groups: seq<Group>, policy: RangePolicy, out: seq<ByteRange>)
    requires Greedy(fs, n, groups, policy, out)
    ensures out == [] <==> n == 0
  {
  }

  /** Position n starts a new range. */
  lemma GreedyOpen(fs: seq<Frame>, n: nat, groups: seq<Group>, policy: RangePolicy, out: seq<ByteRange>, r: ByteRange)
    requires Greedy(fs, n, groups, policy, out) && n < |fs|
    requires Merged(fs, Group(n, n + 1), policy, r)
    requires n > 0 ==> Broken(fs, groups[|groups| - 1].lo, n, policy)
    ensures Greedy(fs, n + 1, groups + [Group(n, n + 1)], policy, out + [r])
  {
    hide Merged, Broken;
  }

  /** Position n joins the last range. */
  lemma GreedyExtend(fs: seq<Frame>, n: nat, groups: seq<Group>, policy: RangePolicy, out: seq<ByteRange>, r: ByteRange)
    requires Greedy(fs, n, groups, policy, out) && 0 < n < |fs|
    requires Merged(fs, Group(groups[|groups| - 1].lo, n + 1), policy, r)
    ensures Greedy(fs, n + 1, groups[..|groups| - 1] + [Group(groups[|groups| - 1].lo, n + 1)], policy,
                   out[..|out| - 1] + [r])
  {
    hide Merged, Broken;
  }

  lemma SingleFrame(fs: seq<Frame>, n: nat, policy: RangePolicy)
    requires n < |fs|
    ensures Merged(fs, Group(n, n + 1), policy, ByteRange(fs[n].packIndex, fs[n].packOffset, fs[n].compressedLength))
  {
  }

  /** The last range ends where frame n - 1 does and can only be followed. */
  lemma LastRange(fs: seq<Frame>, n: nat, groups: seq<Group>, policy: RangePolicy, out: seq<ByteRange>)
    requires InOrder(fs) && Greedy(fs, n, groups, policy, out) && 0 < n < |fs|
    ensures groups != [] && out != [] && groups[|groups| - 1].lo < n
    ensures Merged(fs, Group(groups[|groups| - 1].lo, n), policy, out[|out| - 1])
  {
    hide Broken;
    var g := groups[|groups| - 1];
    assert Merged(fs, g, policy, out[|out| - 1]);
    assert g == Group(g.lo, n);
  }

  /** Position n joins the range of the group before it, or breaks from it, by
      exactly the tests the merge makes. */
  lemma JoinOrBreak(fs: seq<Frame>, lo: nat, n: nat, policy: RangePolicy, current: ByteRange)
    requires InOrder(fs) && lo < n < |fs| && Merged(fs, Group(lo, n), policy, current)
    ensures current.packIndex == fs[n].packIndex ==> current.End() <= fs[n].packOffset && current.offset <= fs[n].End()
    ensures fs[n].End() < TWO_64
    ensures if && current.packIndex == fs[n].packIndex
               && fs[n].packOffset - current.End() <= policy.maxGapBytes
               && (policy.maxRangeBytes == 0 || fs[n].End() - current.offset <= policy.maxRangeBytes)
            then Merged(fs, Group(lo, n + 1), policy,
                        ByteRange(current.packIndex, current.offset, fs[n].End() - current.offset))
            else Broken(fs, lo, n, policy)
  {
    assert fs[n - 1].packIndex == current.packIndex;
    assert fs[n - 1].packIndex == fs[n].packIndex ==> fs[n - 1].End() <= fs[n].packOffset;
  }

  /** Extends the last range with frame n if the policy allows it, else opens a
      new one. */
  method MergeFrame(fs: seq<Frame>, n: nat, policy: RangePolicy, out: seq<ByteRange>, ghost groups: seq<Group>)
    returns (r: seq<ByteRange>, ghost after: seq<Group>)
    requires InOrder(fs) && Greedy(fs, n, groups, policy, out) && n < |fs|
    ensures Greedy(fs, n + 1, after, policy, r)
  {
    hide Greedy, Merged, Broken, InOrder;
    GreedyEmpty(fs, n, groups, policy, out);
    var frame := fs[n];
    var next := ByteRange(frame.packIndex, frame.packOffset, frame.compressedLength);
    SingleFrame(fs, n, policy);
    if |out| == 0 {
      GreedyOpen(fs, n, groups, policy, out, next);
      return out + [next], groups + [Group(n, n + 1)];
    }
    LastRange(fs, n, groups, policy, out);
    var current := out[|out| - 1];
    ghost var lo := groups[|groups| - 1].lo;
    JoinOrBreak(fs, lo, n, policy, current);
    if || current.packIndex != next.packIndex || next.offset < current.End()
       || next.offset - current.End() > policy.maxGapBytes
       || (policy.maxRangeBytes != 0 && next.End() - current.offset > policy.maxRangeBytes) {
      GreedyOpen(fs, n, groups, policy, out, next);
      return out + [next], groups + [Group(n, n + 1)];
    }
    var joined := ByteRange(current.packIndex, current.offset, next.End() - current.offset);
    GreedyExtend(fs, n, groups, policy, out, joined);
    return out[..|out| - 1] + [joined], groups[..|groups| - 1] + [Group(lo, n + 1)];
  }

  method MergeFrames(fs: seq<Frame>, policy: RangePolicy) returns (out: seq<ByteRange>, ghost groups: seq<Group>)
    requires InOrder(fs)
    ensures Greedy(fs, |fs|, groups, policy, out)
  {
    out, groups := [], [];
    assert Greedy(fs, 0, groups, policy, out);
    hide Greedy;
    for n := 0 to |fs|
      invariant Greedy(fs, n, groups, policy, out)
    {
      out, groups := MergeFrame(fs, n, policy, out, groups);
    }
  }

  // ----- the greedy plan is a plan -----

  lemma {:induction false} GroupsApart(groups: seq<Group>, n: nat, i: nat, j: nat)
    requires Consecutive(groups, n) && i < j < |groups|
    ensures groups[i].hi <= groups[j].lo
    decreases j - i
  {
    if i < j - 1 {
      GroupsApart(groups, n, i, j - 1);
    }
  }

  lemma {:induction false} GroupHolding(groups: seq<Group>, n: nat, k: nat) returns (i: nat)
    requires Consecutive(groups, n) && k < n
    ensures i < |groups| && groups[i].lo <= k < groups[i].hi
  {
    i := |groups| - 1;
    while k < groups[i].lo
      invariant i < |groups| && k < groups[i].hi
    {
      i := i - 1;
    }
  }

  lemma GroupContains(fs: seq<Frame>, g: Group, policy: RangePolicy, r: ByteRange, k: nat)
    requires InOrder(fs) && Merged(fs, g, policy, r) && g.lo <= k < g.hi
    ensures Contains(r, fs[k])
  {
    assert fs[k].packIndex == r.packIndex && fs[g.lo].packIndex == r.packIndex && fs[g.hi - 1].packIndex == r.packIndex;
    assert g.lo < k ==> fs[g.lo].End() <= fs[k].packOffset;
    assert k < g.hi - 1 ==> fs[k].End() <= fs[g.hi - 1].packOffset;
  }

  lemma GreedyOrdered(fs: seq<Frame>, groups: seq<Group>, policy: RangePolicy, out: seq<ByteRange>)
    requires InOrder(fs) && Greedy(fs, |fs|, groups, policy, out)
    ensures Ordered(out)
  {
    hide Broken;
    forall i, j | 0 <= i < j < |out|
      ensures RangeBefore(out[i], out[j])
    {
      GroupsApart(groups, |fs|, i, j);
      RangesApart(fs, groups[i], groups[j], policy, out[i], out[j]);
    }
  }

  lemma RangesApart(fs: seq<Frame>, g: Group, h: Group, policy: RangePolicy, r: ByteRange, q: ByteRange)
    requires InOrder(fs) && Merged(fs, g, policy, r) && Merged(fs, h, policy, q) && g.hi <= h.lo
    ensures RangeBefore(r, q)
  {
    assert fs[g.hi - 1].packIndex == r.packIndex && fs[h.lo].packIndex == q.packIndex;
  }

  /** A frame lies inside the range of its own group and no other. */
  lemma GreedyContains(fs: seq<Frame>, groups: seq<Group>, policy: RangePolicy, out: seq<ByteRange>, i: nat, k: nat)
    requires InOrder(fs) && Greedy(fs, |fs|, groups, policy, out) && i < |out| && k < |fs|
    ensures Contains(out[i], fs[k]) <==> groups[i].lo <= k < groups[i].hi
  {
    hide Broken;
    var j := GroupHolding(groups, |fs|, k);
    assert Merged(fs, groups[j], policy, out[j]);
    GroupContains(fs, groups[j], policy, out[j], k);
    GreedyOrdered(fs, groups, policy, out);
    assert 0 < fs[k].compressedLength;
    if i < j {
      GroupsApart(groups, |fs|, i, j);
      assert RangeBefore(out[i], out[j]);
    } else if j < i {
      GroupsApart(groups, |fs|, j, i);
      assert RangeBefore(out[j], out[i]);
    }
  }

  /** The frames at a list of indices. */
  function FramesAt(frames: seq<Frame>, order: seq<nat>): (fs: seq<Frame>)
    requires forall k :: 0 <= k < |order| ==> order[k] < |frames|
    ensures |fs| == |order| && forall k :: 0 <= k < |order| ==> fs[k] == frames[order[k]]
  {
    seq(|order|, k requires 0 <= k < |order| => frames[order[k]])
  }

  predicate Indexes(order: seq<nat>, frames: seq<Frame>) {
    Ascending(order) && forall k :: 0 <= k < |order| ==> order[k] < |frames|
  }

  lemma IndexOrder(order: seq<nat>, k: nat, l: nat)
    requires Ascending(order) && k < |order| && l < |order|
    ensures order[k] < order[l] <==> k < l
    ensures order[k] in Elements(order)
  {
  }

  lemma NextIsNext(order: seq<nat>, k: nat, l: nat)
    requires Ascending(order) && k < |order| && l < |order|
    ensures NextWanted(Elements(order), order[k], order[l]) <==> l == k + 1
  {
    IndexOrder(order, k, l);
    IndexOrder(order, l, k);
    if k + 1 < |order| {
      IndexOrder(order, k + 1, l);
    }
    if l == k + 1 {
      forall c | c in Elements(order)
        ensures !(order[k] < c < order[l])
      {
        var j :| 0 <= j < |order| && order[j] == c;
        assert j <= k || l <= j;
      }
    }
  }

  /** Two frames of one greedy group are as close as the policy asks. */
  lemma GroupPermitted(fs: seq<Frame>, g: Group, policy: RangePolicy, r: ByteRange, k: nat, l: nat)
    requires Merged(fs, g, policy, r) && g.lo <= k < l < g.hi
    ensures policy.maxRangeBytes == 0 || r.length <= policy.maxRangeBytes
    ensures l == k + 1 ==> fs[l].packOffset - fs[k].End() <= policy.maxGapBytes
  {
  }

  lemma GreedyPair(frames: seq<Frame>, order: seq<nat>, groups: seq<Group>, policy: RangePolicy,
                   out: seq<ByteRange>, i: nat, a: nat, b: nat)
    requires Indexes(order, frames) && InOrder(FramesAt(frames, order))
    requires Greedy(FramesAt(frames, order), |order|, groups, policy, out) && i < |out|
    requires forall w :: w in Elements(order) ==> w < |frames|
    ensures PairAllowed(frames, Elements(order), policy, out[i], a, b)
  {
    var fs, wanted, r := FramesAt(frames, order), Elements(order), out[i];
    assert Merged(fs, groups[i], policy, r);
    hide InOrder, Greedy, Merged, NextWanted, Contains;
    if a in wanted && b in wanted && a < b && Contains(r, frames[a]) && Contains(r, frames[b]) {
      var k :| 0 <= k < |order| && order[k] == a;
      var l :| 0 <= l < |order| && order[l] == b;
      GreedyContains(fs, groups, policy, out, i, k);
      GreedyContains(fs, groups, policy, out, i, l);
      IndexOrder(order, k, l);
      NextIsNext(order, k, l);
      GroupPermitted(fs, groups[i], policy, r, k, l);
    }
  }

  /** Every range of the greedy plan is permitted. */
  lemma GreedyPermitted(frames: seq<Frame>, order: seq<nat>, groups: seq<Group>, policy: RangePolicy,
                        out: seq<ByteRange>, i: nat)
    requires Indexes(order, frames) && InOrder(FramesAt(frames, order))
    requires Greedy(FramesAt(frames, order), |order|, groups, policy, out) && i < |out|
    requires forall w :: w in Elements(order) ==> w < |frames|
    ensures Permitted(frames, Elements(order), policy, out[i])
  {
    hide InOrder, Greedy, PairAllowed;
    forall a: nat, b: nat
      ensures PairAllowed(frames, Elements(order), policy, out[i], a, b)
    {
      GreedyPair(frames, order, groups, policy, out, i, a, b);
    }
  }

  /** Every wanted frame is inside exactly one range of the greedy plan. */
  lemma GreedyCoversOnce(frames: seq<Frame>, order: seq<nat>, groups: seq<Group>, policy: RangePolicy,
                         out: seq<ByteRange>, w: nat)
    requires Indexes(order, frames) && InOrder(FramesAt(frames, order))
    requires Greedy(FramesAt(frames, order), |order|, groups, policy, out)
    requires w in Elements(order)
    ensures w < |frames| && exists i :: 0 <= i < |out| && Contains(out[i], frames[w])
    ensures forall i, j :: 0 <= i < j < |out| ==> !(Contains(out[i], frames[w]) && Contains(out[j], frames[w]))
  {
    var fs := FramesAt(frames, order);
    var k :| 0 <= k < |order| && order[k] == w;
    assert Consecutive(groups, |fs|) && |groups| == |out|;
    hide InOrder, Greedy, Contains;
    var own := GroupHolding(groups, |fs|, k);
    GreedyContains(fs, groups, policy, out, own, k);
    forall i, j | 0 <= i < j < |out|
      ensures !(Contains(out[i], fs[k]) && Contains(out[j], fs[k]))
    {
      GreedyContains(fs, groups, policy, out, i, k);
      GreedyContains(fs, groups, policy, out, j, k);
      GroupsApart(groups, |fs|, i, j);
    }
  }

  lemma GreedyPlan(frames: seq<Frame>, order: seq<nat>, groups: seq<Group>, policy: RangePolicy, out: seq<ByteRange>)
    requires Indexes(order, frames) && InOrder(FramesAt(frames, order))
    requires Greedy(FramesAt(frames, order), |order|, groups, policy, out)
    requires forall w :: w in Elements(order) ==> w < |frames|
    ensures Plan(frames, Elements(order), policy, out)
  {
    hide Permitted, InOrder, Greedy, Contains;
    forall i | 0 <= i < |out|
      ensures Permitted(frames, Elements(order), policy, out[i])
    {
      GreedyPermitted(frames, order, groups, policy, out, i);
    }
    forall w | w in Elements(order)
      ensures exists i :: 0 <= i < |out| && Contains(out[i], frames[w])
    {
      GreedyCoversOnce(frames, order, groups, policy, out, w);
    }
  }

  // ----- no plan is shorter -----

  /** Distinct numbers below n are at most n many. */
  lemma {:induction false} Pigeonhole(c: seq<nat>, n: nat)
    requires forall i :: 0 <= i < |c| ==> c[i] < n
    requires forall i, j :: 0 <= i < j < |c| ==> c[i] != c[j]
    ensures |c| <= n
    decreases n
  {
    if c != [] {
      assert c[0] < n;
      if n - 1 in c {
        var k :| 0 <= k < |c| && c[k] == n - 1;
        Pigeonhole(c[..k] + c[k + 1..], n - 1);
      } else {
        Pigeonhole(c, n - 1);
      }
    }
  }

  /** A range that holds two frames holds every frame listed between them. */
  lemma ContainsBetween(fs: seq<Frame>, r: ByteRange, i: nat, k: nat, j: nat)
    requires InOrder(fs) && i <= k <= j < |fs|
    requires Contains(r, fs[i]) && Contains(r, fs[j])
    ensures Contains(r, fs[k])
  {
    assert i < k ==> fs[i].packIndex <= fs[k].packIndex;
    assert k < j ==> fs[k].packIndex <= fs[j].packIndex;
  }

  /** A permitted range that holds two positions gave no reason to break there. */
  lemma PermittedJoins(frames: seq<Frame>, order: seq<nat>, policy: RangePolicy, r: ByteRange, lo: nat, k: nat)
    requires Indexes(order, frames) && InOrder(FramesAt(frames, order)) && lo < k < |order|
    requires forall w :: w in Elements(order) ==> w < |frames|
    requires Permitted(frames, Elements(order), policy, r)
    requires Contains(r, frames[order[lo]]) && Contains(r, frames[order[k]])
    ensures !Broken(FramesAt(frames, order), lo, k, policy)
  {
    var fs := FramesAt(frames, order);
    ContainsBetween(fs, r, lo, k - 1, k);
    NextIsNext(order, k - 1, k);
    IndexOrder(order, lo, k);
    IndexOrder(order, k, lo);
    hide InOrder;
    assert PairAllowed(frames, Elements(order), policy, r, order[k - 1], order[k]);
  }

  /** No permitted range holds the first frames of two greedy groups. */
  lemma LeadersApart(frames: seq<Frame>, order: seq<nat>, groups: seq<Group>, policy: RangePolicy,
                     out: seq<ByteRange>, r: ByteRange, i: nat, j: nat)
    requires Indexes(order, frames) && InOrder(FramesAt(frames, order))
    requires Greedy(FramesAt(frames, order), |order|, groups, policy, out) && i < j < |out|
    requires forall w :: w in Elements(order) ==> w < |frames|
    requires Permitted(frames, Elements(order), policy, r)
    ensures !(Contains(r, frames[order[groups[i].lo]]) && Contains(r, frames[order[groups[j].lo]]))
  {
    hide Merged, InOrder, Permitted, Contains;
    var fs := FramesAt(frames, order);
    var lo, k, last := groups[i].lo, groups[i + 1].lo, groups[j].lo;
    assert Broken(fs, groups[i + 1 - 1].lo, k, policy);
    if i + 1 < j {
      GroupsApart(groups, |fs|, i + 1, j);
    }
    hide Broken, Greedy;
    if Contains(r, fs[lo]) && Contains(r, fs[last]) {
      ContainsBetween(fs, r, lo, k, last);
      PermittedJoins(frames, order, policy, r, lo, k);
    }
  }

  /** Any permitted plan for the same frames has at least as many ranges. */
  lemma GreedyOptimal(frames: seq<Frame>, order: seq<nat>, groups: seq<Group>, policy: RangePolicy,
                      out: seq<ByteRange>, other: seq<ByteRange>)
    requires Indexes(order, frames) && InOrder(FramesAt(frames, order))
    requires Greedy(FramesAt(frames, order), |order|, groups, policy, out)
    requires forall w :: w in Elements(order) ==> w < |frames|
    requires Plan(frames, Elements(order), policy, other)
    ensures |out| <= |other|
  {
    hide Permitted, Merged, Broken, InOrder;
    var c: seq<nat> := [];
    while |c| < |out|
      invariant |c| <= |out|
      invariant forall i :: 0 <= i < |c| ==> c[i] < |other| && Contains(other[c[i]], frames[order[groups[i].lo]])
    {
      var w := order[groups[|c|].lo];
      assert w in Elements(order);
      var next :| 0 <= next < |other| && Contains(other[next], frames[w]);
      c := c + [next];
    }
    forall i, j | 0 <= i < j < |c|
      ensures c[i] != c[j]
    {
      LeadersApart(frames, order, groups, policy, out, other[c[i]], i, j);
    }
    Pigeonhole(c, |other|);
  }

  // ----- CoalesceFrames -----

  lemma TiledInOrder(frames: seq<Frame>, sizes: seq<u64>, chunkSize: nat, order: seq<nat>)
    requires Chain(frames, sizes, chunkSize) && Indexes(order, frames)
    ensures InOrder(FramesAt(frames, order))
  {
    forall i, j | 0 <= i < j < |order|
      ensures var f, g := frames[order[i]], frames[order[j]];
              f.packIndex < g.packIndex || (f.packIndex == g.packIndex && f.End() <= g.packOffset)
    {
      ChainOrder(frames, sizes, chunkSize, order[i], order[j]);
    }
    forall i | 0 <= i < |order|
      ensures 0 < frames[order[i]].compressedLength && frames[order[i]].End() < TWO_64
    {
      assert FrameBounds(frames[order[i]], sizes, chunkSize);
    }
  }

  /** No wanted frame lies in two ranges. */
  predicate ServedOnce(frames: seq<Frame>, requested: seq<nat>, ranges: seq<ByteRange>) {
    forall w :: w in requested && w < |frames| ==> HeldOnce(frames[w], ranges)
  }

  predicate HeldOnce(f: Frame, ranges: seq<ByteRange>) {
    forall i, j :: 0 <= i < j < |ranges| ==> !(Contains(ranges[i], f) && Contains(ranges[j], f))
  }

  /** Turns wanted frames, in any order and with repeats, into the shortest list
      of ranges that serves them under the policy. */
  method CoalesceFrames(frames: seq<Frame>, ghost sizes: seq<u64>, ghost chunkSize: nat, requested: seq<nat>,
                        policy: RangePolicy)
    returns (r: Result<seq<ByteRange>>)
    requires Tiling(frames, sizes, chunkSize) && forall p :: 0 <= p < |sizes| ==> 0 < sizes[p]
    ensures r.Ok? <==> forall x :: x in requested ==> x < |frames|
    ensures r.Ok? ==> Ordered(r.value)
    ensures r.Ok? ==> Plan(frames, Elements(requested), policy, r.value)
    ensures r.Ok? ==> forall i :: 0 <= i < |r.value| ==> Tight(frames, Elements(requested), r.value[i])
    ensures r.Ok? ==> ServedOnce(frames, requested, r.value)
    ensures r.Ok? ==> forall other :: Plan(frames, Elements(requested), policy, other) ==> |r.value| <= |other|
    ensures r.Err? ==> r.error == Invalid
  {
    hide Tiling, Ordered, Plan, Contains, Greedy, InOrder, Tight;
    var sorted := SortWanted(frames, sizes, chunkSize, requested);
    if sorted.None? {
      return Err(Invalid);
    }
    var order := sorted.value;
    WantedIndexes(frames, requested, order);
    TilingChains(frames, sizes, chunkSize);
    TiledInOrder(frames, sizes, chunkSize, order);
    var out, groups := MergeFrames(FramesAt(frames, order), policy);
    GreedyOrdered(FramesAt(frames, order), groups, policy, out);
    GreedyPlan(frames, order, groups, policy, out);
    forall w | w in requested && w < |frames|
      ensures HeldOnce(frames[w], out)
    {
      assert w in Elements(requested);
      GreedyCoversOnce(frames, order, groups, policy, out, w);
    }
    forall i | 0 <= i < |out|
      ensures Tight(frames, Elements(requested), out[i])
    {
      GreedyTight(frames, order, groups, policy, out, i);
    }
    forall other | Plan(frames, Elements(requested), policy, other)
      ensures |out| <= |other|
    {
      GreedyOptimal(frames, order, groups, policy, out, other);
    }
    return Ok(out);
  }

  lemma GreedyTight(frames: seq<Frame>, order: seq<nat>, groups: seq<Group>, policy: RangePolicy, out: seq<ByteRange>, i: nat)
    requires Indexes(order, frames) && Greedy(FramesAt(frames, order), |order|, groups, policy, out) && i < |out|
    requires forall w :: w in Elements(order) ==> w < |frames|
    ensures Tight(frames, Elements(order), out[i])
  {
    hide Broken;
    var g := groups[i];
    assert Merged(FramesAt(frames, order), g, policy, out[i]);
    assert order[g.lo] in Elements(order) && order[g.hi - 1] in Elements(order);
    assert SpansFrom(frames[order[g.lo]], frames[order[g.hi - 1]], out[i]);
  }

  lemma WantedIndexes(frames: seq<Frame>, requested: seq<nat>, order: seq<nat>)
    requires forall x :: x in requested ==> x < |frames|
    requires Ascending(order) && Elements(order) == Elements(requested)
    ensures Indexes(order, frames)
    ensures forall w :: w in Elements(requested) ==> w < |frames|
  {
    forall k | 0 <= k < |order|
      ensures order[k] < |frames|
    {
      assert order[k] in Elements(requested);
    }
  }

  // ----- the prefetch sweep -----

  /** Ranges that tile [from, to) of one pack in order, none empty. */
  predicate Sweep(ranges: seq<ByteRange>, p: int, from: int, to: int) {
    if ranges == [] then from == to
    else
      && ranges[0].packIndex == p && ranges[0].offset == from && ranges[0].length > 0
      && Sweep(ranges[1..], p, from + ranges[0].length, to)
  }

  predicate WithinCap(ranges: seq<ByteRange>, cap: nat) {
    cap == 0 || forall i :: 0 <= i < |ranges| ==> ranges[i].length <= cap
  }

  /** The number of ranges that hold byte b of pack p. */
  function Holders(ranges: seq<ByteRange>, p: int, b: int): nat {
    if ranges == [] then 0 else Holders(ranges[..|ranges| - 1], p, b) + if ranges[|ranges| - 1].Holds(p, b) then 1 else 0
  }

  lemma {:induction false} HoldersConcat(a: seq<ByteRange>, b: seq<ByteRange>, p: int, x: int)
    ensures Holders(a + b, p, x) == Holders(a, p, x) + Holders(b, p, x)
    decreases |b|
  {
    if b == [] {
      assert a + b == a;
    } else {
      var front := b[..|b| - 1];
      HoldersConcat(a, front, p, x);
      assert (a + b)[..|a + b| - 1] == a + front;
    }
  }

  /** A sweep holds each byte of its stretch once and nothing else. */
  lemma {:induction false} SweepHolds(ranges: seq<ByteRange>, p: int, from: int, to: int, q: int, x: int)
    requires Sweep(ranges, p, from, to)
    ensures from <= to
    ensures Holders(ranges, q, x) == if q == p && from <= x < to then 1 else 0
    decreases |ranges|
  {
    if ranges != [] {
      SweepHolds(ranges[1..], p, from + ranges[0].length, to, q, x);
      HoldersConcat(ranges[..1], ranges[1..], q, x);
      assert ranges == ranges[..1] + ranges[1..];
      assert ranges[..1][..0] == [] && Holders(ranges[..1], q, x) == if ranges[0].Holds(q, x) then 1 else 0;
    }
  }

  lemma {:induction false} SweepSnoc(ranges: seq<ByteRange>, p: int, from: int, to: int, r: ByteRange)
    requires Sweep(ranges, p, from, to)
    requires r.packIndex == p && r.offset == to && r.length > 0
    ensures Sweep(ranges + [r], p, from, r.End())
    decreases |ranges|
  {
    if ranges != [] {
      SweepSnoc(ranges[1..], p, from + ranges[0].length, to, r);
      assert (ranges + [r])[1..] == ranges[1..] + [r];
    } else {
      assert (ranges + [r])[1..] == [];
    }
  }

  /** Splitting [0, length) under a cap never steps past 64 bits. */
  predicate SplitFits(length: nat, cap: nat) {
    cap == 0 || length <= cap || (length + cap - 1) / cap * cap < TWO_64
  }

  lemma LastStep(length: nat, cap: nat)
    requires 0 < cap
    ensures var q := (length + cap - 1) / cap; length <= q * cap < length + cap
  {
    var q := (length + cap - 1) / cap;
    assert length + cap - 1 == q * cap + (length + cap - 1) % cap;
  }

  // ----- exactly when splitting is exact -----

  /** The loop's offset before iteration i, advanced in wrapping 64-bit steps. */
  function StepOffset(cap: u64, i: nat): u64 {
    if i == 0 then 0 else (StepOffset(cap, i - 1) + cap) % TWO_64
  }

  /** The loop leaves after exactly n iterations. */
  ghost predicate Stops(length: u64, cap: u64, n: nat) {
    (forall i :: 0 <= i < n ==> StepOffset(cap, i) < length) && StepOffset(cap, n) >= length
  }

  function Piece(p: u32, length: u64, cap: u64, i: nat): ByteRange {
    var offset := StepOffset(cap, i);
    ByteRange(p, offset, if length - offset < cap then (if length < offset then 0 else length - offset) else cap)
  }

  /** What n iterations emit. */
  function Pieces(p: u32, length: u64, cap: u64, n: nat): (pieces: seq<ByteRange>)
    ensures |pieces| == n && forall i :: 0 <= i < n ==> pieces[i] == Piece(p, length, cap, i)
  {
    seq(n, i requires 0 <= i < n => Piece(p, length, cap, i))
  }

  lemma {:induction false} StepOffsetUnwrapped(cap: u64, i: nat)
    requires i * cap < TWO_64
    ensures StepOffset(cap, i) == i * cap
    decreases i
  {
    if i > 0 {
      NextMultiple(i - 1, cap);
      StepOffsetUnwrapped(cap, i - 1);
    }
  }

  lemma NextMultiple(i: nat, cap: nat)
    ensures (i + 1) * cap == i * cap + cap && 0 <= i * cap
  {
    MulNonNegative(i, cap);
  }

  lemma {:induction false} PiecesSweep(p: u32, length: u64, cap: u64, n: nat)
    requires 0 < cap && 0 < n && n * cap < TWO_64 && (n - 1) * cap < length
    ensures Sweep(Pieces(p, length, cap, n), p, 0, if n * cap < length then n * cap else length)
    ensures forall i :: 0 <= i < n ==> StepOffset(cap, i) < length
    decreases n
  {
    assert n * cap == (n - 1) * cap + cap;
    StepOffsetUnwrapped(cap, n - 1);
    var front := Pieces(p, length, cap, n - 1);
    if n > 1 {
      assert (n - 1) * cap == (n - 2) * cap + cap;
      PiecesSweep(p, length, cap, n - 1);
    }
    assert Sweep(front, p, 0, (n - 1) * cap);
    SweepSnoc(front, p, 0, (n - 1) * cap, Piece(p, length, cap, n - 1));
    assert Pieces(p, length, cap, n) == front + [Piece(p, length, cap, n - 1)];
  }

  lemma {:induction false} SweepStep(ranges: seq<ByteRange>, p: int, from: int, to: int, i: nat)
    requires Sweep(ranges, p, from, to) && i + 1 < |ranges|
    ensures ranges[i + 1].offset == ranges[i].End() > ranges[i].offset
    decreases i
  {
    if i > 0 {
      SweepStep(ranges[1..], p, from + ranges[0].length, to, i - 1);
    } else {
      assert ranges[1..][0] == ranges[1];
    }
  }

  /** The step whose end is the first to pass 64 bits. */
  lemma WrapPoint(length: u64, cap: u64) returns (w: nat)
    requires 0 < cap < length && !SplitFits(length, cap)
    ensures 0 <= w * cap < length && TWO_64 <= w * cap + cap
    ensures (w + 1) * cap == w * cap + cap
  {
    w := (TWO_64 - 1) / cap;
    var q := (length + cap - 1) / cap;
    LastStep(length, cap);
    assert TWO_64 - 1 == w * cap + (TWO_64 - 1) % cap;
    MulMonotone(q, w, cap);
    MulMonotone(w + 1, q, cap);
    assert (w + 1) * cap == w * cap + cap;
  }

  lemma WrapsBack(length: u64, cap: u64, w: nat)
    requires 0 < cap < length && 0 <= w * cap < length && TWO_64 <= w * cap + cap
    ensures forall i :: 0 <= i <= w ==> StepOffset(cap, i) < length
    ensures StepOffset(cap, w + 1) < StepOffset(cap, w)
  {
    StepOffsetUnwrapped(cap, w);
    assert StepOffset(cap, w + 1) == (w * cap + cap) % TWO_64;
    hide StepOffset;
    forall i | 0 <= i <= w
      ensures StepOffset(cap, i) < length
    {
      MulMonotone(i, w, cap);
      StepOffsetUnwrapped(cap, i);
    }
  }

  /** When the last step would pass 64 bits, the loop revisits bytes it already
      emitted, whenever and if ever it stops. */
  lemma WrapRevisits(p: u32, length: u64, cap: u64, n: nat)
    requires 0 < cap < length && !SplitFits(length, cap) && Stops(length, cap, n)
    ensures !Sweep(Pieces(p, length, cap, n), p, 0, length)
  {
    hide SplitFits, StepOffset, Sweep;
    var w := WrapPoint(length, cap);
    WrapsBack(length, cap, w);
    var pieces := Pieces(p, length, cap, n);
    assert n > w + 1;
    if Sweep(pieces, p, 0, length) {
      SweepStep(pieces, p, 0, length, w);
    }
  }

  /** When its last step stays within 64 bits, the loop stops after the least
      number of pieces, and they tile the stretch. */
  lemma SplitTiles(p: u32, length: u64, cap: u64, q: nat)
    requires 0 < cap < length && SplitFits(length, cap) && q == (length + cap - 1) / cap
    ensures Stops(length, cap, q) && Sweep(Pieces(p, length, cap, q), p, 0, length)
  {
    LastStep(length, cap);
    assert (q - 1) * cap == q * cap - cap;
    PiecesSweep(p, length, cap, q);
    StepOffsetUnwrapped(cap, q);
  }

  lemma SplitStops(p: u32, length: u64, cap: u64, n: nat)
    requires 0 < cap < length && Stops(length, cap, n)
    ensures SplitFits(length, cap) ==> Sweep(Pieces(p, length, cap, n), p, 0, length)
  {
    hide Sweep, StepOffset;
    if SplitFits(length, cap) {
      SplitTiles(p, length, cap, (length + cap - 1) / cap);
    }
  }

  /** The split loop stops with an exact tiling of the stretch if and only if its
      last step stays within 64 bits. */
  lemma SplitExact(p: u32, length: u64, cap: u64)
    requires 0 < cap < length
    ensures (exists n :: Stops(length, cap, n) && Sweep(Pieces(p, length, cap, n), p, 0, length)) <==>
            SplitFits(length, cap)
  {
    if SplitFits(length, cap) {
      SplitTiles(p, length, cap, (length + cap - 1) / cap);
    } else {
      forall n | Stops(length, cap, n)
        ensures !Sweep(Pieces(p, length, cap, n), p, 0, length)
      {
        WrapRevisits(p, length, cap, n);
      }
    }
  }

  /** One pack's stretch as one range, or as several under a cap: whatever the
      loop emits in the n iterations after which it stops. */
  method AppendSplit(out: seq<ByteRange>, p: u32, length: u64, cap: u64, ghost n: nat) returns (r: seq<ByteRange>)
    requires length > 0 && (0 < cap < length ==> Stops(length, cap, n))
    ensures |out| <= |r| && r[..|out|] == out
    ensures 0 < cap < length ==> r[|out|..] == Pieces(p, length, cap, n)
    ensures WithinCap(r[|out|..], cap)
    ensures SplitFits(length, cap) ==> Sweep(r[|out|..], p, 0, length)
    ensures cap == 0 ==> |r| == |out| + 1
  {
    if cap == 0 || length <= cap {
      r := out + [ByteRange(p, 0, length)];
      SweepSnoc([], p, 0, 0, ByteRange(p, 0, length));
      assert r[|out|..] == [] + [ByteRange(p, 0, length)];
      return;
    }
    hide Sweep, SplitFits;
    var pieces: seq<ByteRange> := [];
    var offset: u64 := 0;
    ghost var steps := 0;
    while offset < length
      invariant steps <= n && offset == StepOffset(cap, steps)
      invariant pieces == Pieces(p, length, cap, steps)
      invariant WithinCap(pieces, cap)
      decreases n - steps
    {
      var step := if length - offset < cap then length - offset else cap;
      pieces := pieces + [ByteRange(p, offset, step)];
      offset := (offset + cap) % TWO_64;
      steps := steps + 1;
    }
    r := out + pieces;
    assert r[|out|..] == pieces;
    SplitStops(p, length, cap, n);
  }

  /** A stretch one byte short of 2^64 under a cap of 2^63 is never finished. */
  lemma {:induction false} NeverStops(n: nat)
    ensures StepOffset(0x8000_0000_0000_0000, n) < 0xFFFF_FFFF_FFFF_FFFF
    ensures StepOffset(0x8000_0000_0000_0000, n) == if n % 2 == 0 then 0 else 0x8000_0000_0000_0000
    decreases n
  {
    if n > 0 {
      NeverStops(n - 1);
    }
  }

  /** Packs of at most 2^63 bytes always split exactly. */
  lemma SmallPacksFit(length: u64, cap: u64)
    requires length <= 0x8000_0000_0000_0000
    ensures SplitFits(length, cap)
  {
    if 0 < cap < length {
      LastStep(length, cap);
    }
  }

  // ----- PrefetchRanges -----

  /** Byte b of pack p lies before the priority boundary. */
  predicate BeforeBoundary(packs: seq<PackRef>, boundary: PriorityBoundary, p: int, b: int) {
    && 0 <= p < |packs| && 0 <= b
    && ((p < boundary.packIndex && b < packs[p].sizeBytes) || (p == boundary.packIndex && b < boundary.packOffset))
  }

  predicate PacksBelow(ranges: seq<ByteRange>, n: nat) {
    forall i :: 0 <= i < |ranges| ==> ranges[i].packIndex < n
  }

  /** How much of pack index the sweep reads. */
  function SweepLength(packs: seq<PackRef>, boundary: PriorityBoundary, index: nat): u64
    requires index < |packs|
  {
    if index == boundary.packIndex then boundary.packOffset else packs[index].sizeBytes
  }

  /** Every byte before the boundary, each once, and no other. */
  method PrefetchRanges(packs: seq<PackRef>, boundary: PriorityBoundary, policy: RangePolicy)
    returns (out: seq<ByteRange>)
    requires |packs| <= MAX_PACKS
    requires forall i :: 0 <= i < |packs| && i <= boundary.packIndex ==>
                           SplitFits(SweepLength(packs, boundary, i), policy.maxRangeBytes)
    ensures forall p, b :: Holders(out, p, b) == if BeforeBoundary(packs, boundary, p, b) then 1 else 0
    ensures WithinCap(out, policy.maxRangeBytes)
    ensures policy.maxRangeBytes == 0 ==> forall i, j :: 0 <= i < j < |out| ==> out[i].packIndex < out[j].packIndex
  {
    hide SplitFits, Holders, Stops, Pieces, Sweep, StepOffset;
    out := [];
    NothingHeld();
    var index := 0;
    while index < |packs| && index <= boundary.packIndex
      invariant 0 <= index <= |packs| && index <= boundary.packIndex + 1
      invariant PacksBelow(out, index)
      invariant forall p, b :: Holders(out, p, b) == if p < index && BeforeBoundary(packs, boundary, p, b) then 1 else 0
      invariant WithinCap(out, policy.maxRangeBytes)
      invariant policy.maxRangeBytes == 0 ==> forall i, j :: 0 <= i < j < |out| ==> out[i].packIndex < out[j].packIndex
    {
      var length := packs[index].sizeBytes;
      if index == boundary.packIndex {
        length := boundary.packOffset;
      }
      assert length == SweepLength(packs, boundary, index);
      if length != 0 {
        ghost var n := 0;
        if 0 < policy.maxRangeBytes < length {
          n := (length + policy.maxRangeBytes - 1) / policy.maxRangeBytes;
          SplitTiles(index, length, policy.maxRangeBytes, n);
        }
        var r := AppendSplit(out, index, length, policy.maxRangeBytes, n);
        SweepAdded(packs, boundary, index, out, r, policy.maxRangeBytes);
        out := r;
      }
      index := index + 1;
    }
  }

  lemma NothingHeld()
    ensures forall p, b :: Holders([], p, b) == 0
  {
  }

  lemma SweepAdded(packs: seq<PackRef>, boundary: PriorityBoundary, index: nat, out: seq<ByteRange>,
                   r: seq<ByteRange>, cap: nat)
    requires index < |packs| && index <= boundary.packIndex
    requires |out| <= |r| && r[..|out|] == out
    requires Sweep(r[|out|..], index, 0, SweepLength(packs, boundary, index)) && WithinCap(r[|out|..], cap)
    requires PacksBelow(out, index) && WithinCap(out, cap)
    requires forall p, b :: Holders(out, p, b) == if p < index && BeforeBoundary(packs, boundary, p, b) then 1 else 0
    ensures PacksBelow(r, index + 1) && WithinCap(r, cap)
    ensures forall i :: |out| <= i < |r| ==> r[i].packIndex == index
    ensures forall p, b :: Holders(r, p, b) == if p < index + 1 && BeforeBoundary(packs, boundary, p, b) then 1 else 0
  {
    var added := r[|out|..];
    assert r == out + added;
    SweepPack(added, index, 0, SweepLength(packs, boundary, index));
    assert forall i :: |out| <= i < |r| ==> r[i] == added[i - |out|];
    forall p, b
      ensures Holders(r, p, b) == if p < index + 1 && BeforeBoundary(packs, boundary, p, b) then 1 else 0
    {
      HoldersConcat(out, added, p, b);
      SweepHolds(added, index, 0, SweepLength(packs, boundary, index), p, b);
    }
  }

  lemma {:induction false} SweepPack(ranges: seq<ByteRange>, p: int, from: int, to: int)
    requires Sweep(ranges, p, from, to)
    ensures forall i :: 0 <= i < |ranges| ==> ranges[i].packIndex == p
    decreases |ranges|
  {
    if ranges != [] {
      SweepPack(ranges[1..], p, from + ranges[0].length, to);
      assert forall i :: 0 < i < |ranges| ==> ranges[i] == ranges[1..][i - 1];
    }
  }
}
