/**
The restore side (vcs/archive/restore.go): the namespace plan, entry paths, and
the lookups a hydrator makes.
 */
module Restore {
  import opened Basics
  import opened Content
  import opened Manifest
  import opened Tree
  import opened Valid
  import Sorting
  import Validate

  /** One node of the namespace in the order a restorer creates it. linkFrom is the
      entry that already materialized the inode, or -1. */
  datatype PlanStep = PlanStep(
    index: nat,
    parentIndex: u32,
    name: Bytes,
    kind: byte,
    size: u64,
    mode: u32,
    mtimeNanos: i64,
    linkName: Bytes,
    xattrs: seq<Xattr>,
    group: u32,
    linkFrom: int)
  {
    predicate Creates() {
      linkFrom < 0
    }

    /** The entry whose creation made this name's inode. */
    function Inode(): int {
      if Creates() then index else linkFrom
    }
  }

  /** The first entry of group g among the first n. */
  function FirstOf(entries: seq<Entry>, n: nat, g: u32): (first: Option<nat>)
    requires n <= |entries|
    ensures first.Some? ==> first.value < n && entries[first.value].hardlinkGroup == g
    ensures first.Some? ==> forall j :: 0 <= j < first.value ==> entries[j].hardlinkGroup != g
    ensures first.None? ==> forall j :: 0 <= j < n ==> entries[j].hardlinkGroup != g
  {
    if n == 0 then None
    else
      var earlier := FirstOf(entries, n - 1, g);
      if earlier.Some? then earlier
      else if entries[n - 1].hardlinkGroup == g then Some(n - 1)
      else None
  }

  function StepAt(entries: seq<Entry>, i: nat): PlanStep
    requires i < |entries|
  {
    var e := entries[i];
    var from := if e.hardlinkGroup == 0 then None else FirstOf(entries, i, e.hardlinkGroup);
    PlanStep(i, e.parentIndex, e.name, e.kind, e.size, e.mode, e.mtimeNanos, e.linkName, e.xattrs, e.hardlinkGroup,
             if from.Some? then from.value else -1)
  }

  /** A step carries entry i's own fields, each in its place. */
  predicate Carries(step: PlanStep, i: nat, e: Entry) {
    && step.index == i && step.parentIndex == e.parentIndex && step.name == e.name
    && step.kind == e.kind && step.size == e.size && step.mode == e.mode && step.mtimeNanos == e.mtimeNanos
    && step.linkName == e.linkName && step.xattrs == e.xattrs && step.group == e.hardlinkGroup
  }

  class PlanIterator {
    const entries: seq<Entry>
    var at: nat
    var created: map<u32, nat>

    ghost predicate Valid()
      reads this
    {
      && at <= |entries|
      && forall g: u32 :: g != 0 ==> Remembers(g)
    }

    /** created names the entry that materialized group g, if one has. */
    ghost predicate Remembers(g: u32)
      requires at <= |entries|
      reads this
    {
      && (g in created <==> FirstOf(entries, at, g).Some?)
      && (g in created ==> FirstOf(entries, at, g) == Some(created[g]))
    }

    constructor (m: Manifest)
      ensures Valid() && entries == m.entries && at == 0
    {
      entries, at, created := m.entries, 0, map[];
    }

    /** The next step, or None when the plan is complete. */
    method Next() returns (step: Option<PlanStep>)
      requires Valid()
      modifies this
      ensures Valid()
      ensures old(at) < |entries| ==> at == old(at) + 1 && step == Some(StepAt(entries, old(at)))
      ensures old(at) < |entries| ==> Carries(step.value, old(at), entries[old(at)])
      ensures old(at) == |entries| ==> at == old(at) && step == None
    {
      if at >= |entries| {
        return None;
      }
      var index := at;
      var entry := entries[index];
      var linkFrom: int := -1;
      assert entry.hardlinkGroup != 0 ==> Remembers(entry.hardlinkGroup);
      ghost var before := created;
      assert forall g: u32 :: g != 0 ==> Remembers(g);
      at := at + 1;
      if entry.hardlinkGroup != 0 {
        if entry.hardlinkGroup in created {
          linkFrom := created[entry.hardlinkGroup];
        } else {
          created := created[entry.hardlinkGroup := index];
        }
      }
      forall g: u32 | g != 0
        ensures Remembers(g)
      {
        assert old(Remembers(g));
      }
      return Some(PlanStep(index, entry.parentIndex, entry.name, entry.kind, entry.size, entry.mode, entry.mtimeNanos,
        entry.linkName, entry.xattrs, entry.hardlinkGroup, linkFrom));
    }
  }

  /** The whole plan, drained from the iterator. */
  method NamespacePlan(m: Manifest) returns (steps: seq<PlanStep>)
    ensures |steps| == |m.entries| && forall i :: 0 <= i < |steps| ==> steps[i] == StepAt(m.entries, i)
    ensures forall i :: 0 <= i < |steps| ==>
              && steps[i].index == i && steps[i].parentIndex == m.entries[i].parentIndex
              && steps[i].name == m.entries[i].name && steps[i].linkName == m.entries[i].linkName
              && steps[i].kind == m.entries[i].kind && steps[i].size == m.entries[i].size
              && steps[i].mode == m.entries[i].mode && steps[i].mtimeNanos == m.entries[i].mtimeNanos
              && steps[i].xattrs == m.entries[i].xattrs && steps[i].group == m.entries[i].hardlinkGroup
  {
    var plan := new PlanIterator(m);
    steps := [];
    while true
      invariant plan.Valid() && plan.entries == m.entries && plan.at == |steps| && fresh(plan)
      invariant forall i :: 0 <= i < |steps| ==> steps[i] == StepAt(m.entries, i)
      decreases |m.entries| - plan.at
    {
      var step := plan.Next();
      if step.None? {
        break;
      }
      steps := steps + [step.value];
    }
  }

  // ----- what the plan promises -----

  /** A group is created once, at its first member. */
  lemma CreatesFirst(entries: seq<Entry>, i: nat)
    requires i < |entries|
    ensures StepAt(entries, i).Creates() <==> FirstLink(entries, i)
  {
  }

  /** A link step names an earlier step that creates the same inode: same group,
      size, link count and content. */
  lemma LinksBackward(m: Manifest, i: nat)
    requires ValidManifest(m) && i < |m.entries| && !StepAt(m.entries, i).Creates()
    ensures 0 <= StepAt(m.entries, i).linkFrom < i
    ensures StepAt(m.entries, StepAt(m.entries, i).linkFrom).Creates()
    ensures m.entries[StepAt(m.entries, i).linkFrom].hardlinkGroup == m.entries[i].hardlinkGroup != 0
    ensures SameInode(m.entries[StepAt(m.entries, i).linkFrom], m.entries[i])
  {
    hide HeaderValid, EntriesValid, TotalsValid, Frames.Tiling;
    var j := StepAt(m.entries, i).linkFrom;
    assert FirstLink(m.entries, j);
  }

  /** Two names share a restored inode exactly when they share a group. */
  lemma OneInodePerGroup(entries: seq<Entry>, i: nat, j: nat)
    requires i < |entries| && j < |entries| && i != j
    ensures StepAt(entries, i).Inode() == StepAt(entries, j).Inode() <==>
            entries[i].hardlinkGroup == entries[j].hardlinkGroup != 0
  {
    InodeIsFirst(entries, i);
    InodeIsFirst(entries, j);
  }

  lemma InodeIsFirst(entries: seq<Entry>, i: nat)
    requires i < |entries|
    ensures 0 <= StepAt(entries, i).Inode() <= i
    ensures entries[i].hardlinkGroup == 0 ==> StepAt(entries, i).Inode() == i
    ensures entries[StepAt(entries, i).Inode()].hardlinkGroup == entries[i].hardlinkGroup
    ensures entries[i].hardlinkGroup != 0 ==>
              forall j :: 0 <= j < StepAt(entries, i).Inode() ==> entries[j].hardlinkGroup != entries[i].hardlinkGroup
  {
  }

  /** A parent is created, as a directory, before anything inside it. */
  lemma ParentsFirst(m: Manifest, i: nat)
    requires ValidManifest(m) && 0 < i < |m.entries|
    ensures m.entries[i].parentIndex < i
    ensures m.entries[m.entries[i].parentIndex].kind == TYPE_DIRECTORY
    ensures StepAt(m.entries, m.entries[i].parentIndex).Creates()
  {
    hide HardlinksValid, TotalsValid, Frames.Tiling, ChunkCount, NameValid, Descends, XattrsValid;
    assert EntryValid(m.entries, i, m.frames, m.header.chunkSizeBytes);
    assert EntryValid(m.entries, m.entries[i].parentIndex, m.frames, m.header.chunkSizeBytes);
  }

  /** Steps that create an inode, and the bytes of the regular ones among them. */
  function Created(steps: seq<PlanStep>): nat {
    if steps == [] then 0
    else Created(steps[..|steps| - 1]) + if steps[|steps| - 1].Creates() then 1 else 0
  }

  function CreatedBytes(steps: seq<PlanStep>): nat {
    if steps == [] then 0
    else
      var last := steps[|steps| - 1];
      CreatedBytes(steps[..|steps| - 1]) + if last.Creates() && last.kind == TYPE_REGULAR then last.size else 0
  }

  lemma {:induction false} CreatedUpTo(entries: seq<Entry>, steps: seq<PlanStep>, n: nat)
    requires n <= |entries| == |steps|
    requires forall i :: 0 <= i < |steps| ==> steps[i] == StepAt(entries, i)
    ensures Created(steps[..n]) == LogicalInodes(entries[..n])
    ensures CreatedBytes(steps[..n]) == LogicalBytes(entries[..n])
    decreases n
  {
    hide LogicalInodes, LogicalBytes, FirstLink, FirstOf;
    if n > 0 {
      CreatedUpTo(entries, steps, n - 1);
      Validate.LogicalStep(entries, n - 1);
      CreatesFirst(entries, n - 1);
      PrefixOfPrefix(steps, n - 1, n);
      assert steps[..n][n - 1] == StepAt(entries, n - 1);
    } else {
      NothingCreated();
      assert steps[..0] == [] && entries[..0] == [];
    }
  }

  /** The plan creates exactly the inodes and the bytes the header accounts for. */
  lemma {:induction false} PlanConserves(m: Manifest, steps: seq<PlanStep>)
    requires ValidManifest(m) && |steps| == |m.entries|
    requires forall i :: 0 <= i < |steps| ==> steps[i] == StepAt(m.entries, i)
    ensures Created(steps) == m.header.logicalInodes && CreatedBytes(steps) == m.header.logicalBytes
  {
    hide HeaderValid, EntriesValid, HardlinksValid, Frames.Tiling, StepAt, LogicalBytes, LogicalInodes, Created, CreatedBytes;
    CreatedUpTo(m.entries, steps, |steps|);
    PrefixWhole(steps);
    PrefixWhole(m.entries);
  }

  lemma NothingCreated()
    ensures Created([]) == LogicalInodes([]) == 0 && CreatedBytes([]) == LogicalBytes([]) == 0
  {
  }

  // ----- paths -----

  /** Every entry's parent comes before it. */
  predicate ParentsEarlier(entries: seq<Entry>) {
    forall i :: 0 < i < |entries| ==> entries[i].parentIndex < i
  }

  /** The name components from the root to an entry. */
  function PathOf(entries: seq<Entry>, i: nat): seq<Bytes>
    requires i < |entries| && ParentsEarlier(entries)
  {
    if i == 0 then [] else PathOf(entries, entries[i].parentIndex) + [entries[i].name]
  }

  lemma ValidParents(m: Manifest)
    requires ValidManifest(m)
    ensures ParentsEarlier(m.entries)
  {
    hide ValidManifest;
    forall i | 0 < i < |m.entries|
      ensures m.entries[i].parentIndex < i
    {
      ParentsFirst(m, i);
    }
  }

  lemma {:induction false} PathDepth(entries: seq<Entry>, i: nat)
    requires i < |entries| && ParentsEarlier(entries)
    ensures |PathOf(entries, i)| <= i
    decreases i
  {
    if i > 0 {
      PathDepth(entries, entries[i].parentIndex);
    }
  }

  /** Counts the steps to the root. The guard never trips: every entry of a valid
      manifest has a path there. */
  method Depth(entries: seq<Entry>, index: nat) returns (depth: nat)
    requires index < |entries| && ParentsEarlier(entries)
    ensures depth == |PathOf(entries, index)| <= |entries|
  {
    PathDepth(entries, index);
    depth := 0;
    var at: nat := index;
    while at != 0
      invariant at < |entries|
      invariant depth + |PathOf(entries, at)| == |PathOf(entries, index)| <= index
    {
      depth := depth + 1;
      at := entries[at].parentIndex;
      assert depth <= |entries|;
    }
  }

  /** Walks up to count the depth, then again to fill the components in. */
  method Path(m: Manifest, index: nat) returns (r: Result<seq<Bytes>>)
    requires ValidManifest(m)
    ensures r.Ok? <==> index < |m.entries|
    ensures r.Ok? ==> ParentsEarlier(m.entries) && r.value == PathOf(m.entries, index)
  {
    hide ValidManifest, ParentsEarlier, PathOf;
    ValidParents(m);
    if index >= |m.entries| {
      return Err(Invalid);
    }
    var depth := Depth(m.entries, index);
    var components := new Bytes[depth](_ => []);
    var at: nat := index;
    var position := depth;
    ghost var whole := PathOf(m.entries, index);
    PrefixWhole(whole);
    while position > 0
      invariant 0 <= position <= depth == |whole| && at < |m.entries|
      invariant PathOf(m.entries, at) == whole[..position]
      invariant components[position..] == whole[position..]
    {
      position := position - 1;
      ghost var before := components[position + 1..];
      components[position] := m.entries[at].name;
      PathStep(m.entries, at, whole, position);
      assert components[position..] == [m.entries[at].name] + before;
      at := m.entries[at].parentIndex;
    }
    assert components[..] == components[0..] == whole[0..] == whole;
    return Ok(components[..]);
  }

  lemma PathStep(entries: seq<Entry>, at: nat, whole: seq<Bytes>, position: nat)
    requires at < |entries| && ParentsEarlier(entries) && position < |whole|
    requires PathOf(entries, at) == whole[..position + 1]
    ensures at != 0 && entries[at].parentIndex < |entries|
    ensures PathOf(entries, entries[at].parentIndex) == whole[..position]
    ensures entries[at].name == whole[position]
    ensures whole[position..] == [whole[position]] + whole[position + 1..]
  {
    var front := PathOf(entries, entries[at].parentIndex);
    assert front + [entries[at].name] == whole[..position] + [whole[position]];
    assert |front| == position;
    SplitEqual(front, [entries[at].name], whole[..position], [whole[position]]);
  }

  /** No two entries of a valid manifest have the same path. */
  lemma {:induction false} PathInjective(m: Manifest, i: nat, j: nat)
    requires ValidManifest(m) && ParentsEarlier(m.entries) && i < |m.entries| && j < |m.entries|
    requires PathOf(m.entries, i) == PathOf(m.entries, j)
    ensures i == j
    decreases i
  {
    hide ValidManifest, ParentsEarlier;
    if i != 0 && j != 0 {
      ParentsFirst(m, i);
      ParentsFirst(m, j);
      var a, b := PathOf(m.entries, m.entries[i].parentIndex), PathOf(m.entries, m.entries[j].parentIndex);
      assert |a| == |b|;
      SplitEqual(a, [m.entries[i].name], b, [m.entries[j].name]);
      assert [m.entries[i].name][0] == [m.entries[j].name][0];
      PathInjective(m, m.entries[i].parentIndex, m.entries[j].parentIndex);
      SiblingsDistinct(m, i, j);
    }
  }

  // ----- lookups -----

  /** The chunk that covers a logical offset of a regular file. */
  method ChunkAt(m: Manifest, index: nat, offset: u64) returns (r: Result<(nat, ChunkRef)>)
    requires ValidManifest(m)
    ensures r.Ok? <==> index < |m.entries| && m.entries[index].kind == TYPE_REGULAR && offset < m.entries[index].size
    ensures r.Ok? ==> r.value.0 < |m.entries[index].chunks| && r.value.1 == m.entries[index].chunks[r.value.0]
    ensures r.Ok? ==> r.value.0 * m.header.chunkSizeBytes <= offset < (r.value.0 + 1) * m.header.chunkSizeBytes
  {
    hide ValidManifest, ChunksNeeded;
    if index >= |m.entries| || m.entries[index].kind != TYPE_REGULAR || offset >= m.entries[index].size {
      return Err(Invalid);
    }
    ChunksCover(m, index);
    var position := ChunkPosition(m.entries[index].size, m.header.chunkSizeBytes, offset);
    return Ok((position, m.entries[index].chunks[position]));
  }

  method ChunkPosition(size: u64, chunkSize: u32, offset: u64) returns (k: nat)
    requires chunkSize > 0 && offset < size
    ensures k < ChunksNeeded(size, chunkSize) && k * chunkSize <= offset < (k + 1) * chunkSize
  {
    OffsetInChunk(size, chunkSize, offset);
    k := offset / chunkSize;
  }

  lemma ChunksCover(m: Manifest, i: nat)
    requires ValidManifest(m) && i < |m.entries| && m.entries[i].kind == TYPE_REGULAR
    ensures m.header.chunkSizeBytes > 0
    ensures |m.entries[i].chunks| == ChunksNeeded(m.entries[i].size, m.header.chunkSizeBytes)
  {
    hide HardlinksValid, TotalsValid, Frames.Tiling, ChunkCount, NameValid, Descends, XattrsValid;
    assert EntryValid(m.entries, i, m.frames, m.header.chunkSizeBytes);
  }

  lemma OffsetInChunk(size: nat, chunkSize: nat, offset: nat)
    requires chunkSize > 0 && offset < size
    ensures offset / chunkSize < ChunksNeeded(size, chunkSize)
    ensures offset / chunkSize * chunkSize <= offset < (offset / chunkSize + 1) * chunkSize
  {
    var k, q := offset / chunkSize, size / chunkSize;
    assert offset == k * chunkSize + offset % chunkSize && size == q * chunkSize + size % chunkSize;
    assert (k + 1) * chunkSize == k * chunkSize + chunkSize;
    if k >= q + 1 {
      MulMonotone(q + 1, k, chunkSize);
    }
    MulMonotone(q, k, chunkSize);
  }

  predicate Ascending(a: u32, b: u32) {
    a < b
  }

  /** Every frame one entry's content lives in, ascending, each once. */
  method FramesForEntry(m: Manifest, index: nat) returns (r: Result<seq<u32>>)
    requires ValidManifest(m)
    ensures r.Ok? <==> index < |m.entries|
    ensures r.Ok? ==> forall i, j :: 0 <= i < j < |r.value| ==> r.value[i] < r.value[j]
    ensures r.Ok? ==> forall f: u32 :: f in r.value <==>
              exists k :: 0 <= k < |m.entries[index].chunks| && m.entries[index].chunks[k].Stored() &&
                          m.entries[index].chunks[k].frameIndex == f
  {
    hide ValidManifest;
    if index >= |m.entries| {
      return Err(Invalid);
    }
    var chunks := m.entries[index].chunks;
    var seen: set<u32> := {};
    var frames: seq<u32> := [];
    for k := 0 to |chunks|
      invariant seen == set f | f in frames
      invariant Once(frames)
      invariant forall f: u32 :: f in frames <==> Uses(chunks[..k], f)
    {
      UsesStep(chunks, k);
      if !chunks[k].Stored() || chunks[k].frameIndex in seen {
        continue;
      }
      seen := seen + {chunks[k].frameIndex};
      frames := frames + [chunks[k].frameIndex];
    }
    PrefixWhole(chunks);
    SortedOnce(frames);
    return Ok(Sorting.Sort(Ascending, frames));
  }

  predicate Once(s: seq<u32>) {
    forall i, j :: 0 <= i < j < |s| ==> s[i] != s[j]
  }

  predicate Uses(chunks: seq<ChunkRef>, f: u32) {
    exists k :: 0 <= k < |chunks| && chunks[k].Stored() && chunks[k].frameIndex == f
  }

  lemma UsesStep(chunks: seq<ChunkRef>, k: nat)
    requires k < |chunks|
    ensures forall f: u32 :: Uses(chunks[..k + 1], f) <==>
                             Uses(chunks[..k], f) || (chunks[k].Stored() && chunks[k].frameIndex == f)
  {
    forall f: u32
      ensures Uses(chunks[..k + 1], f) <==> Uses(chunks[..k], f) || (chunks[k].Stored() && chunks[k].frameIndex == f)
    {
      if Uses(chunks[..k], f) {
        var j :| 0 <= j < k && chunks[..k][j].Stored() && chunks[..k][j].frameIndex == f;
        assert chunks[..k + 1][j] == chunks[j];
      }
      if chunks[k].Stored() && chunks[k].frameIndex == f {
        assert chunks[..k + 1][k] == chunks[k];
      }
      if Uses(chunks[..k + 1], f) {
        var j :| 0 <= j < k + 1 && chunks[..k + 1][j].Stored() && chunks[..k + 1][j].frameIndex == f;
        if j < k {
          assert chunks[..k][j] == chunks[j];
        }
      }
    }
  }

  lemma SortedOnce(frames: seq<u32>)
    requires Once(frames)
    ensures forall i, j :: 0 <= i < j < |frames| ==>
              Sorting.Sort(Ascending, frames)[i] < Sorting.Sort(Ascending, frames)[j]
    ensures forall f: u32 :: f in Sorting.Sort(Ascending, frames) <==> f in frames
  {
    hide Sorting.Sort, Once;
    var sorted := Sorting.Sort(Ascending, frames);
    Sorting.SortPermutes(Ascending, frames);
    Sorting.SortSorted(Ascending, frames);
    SameMembers(sorted, frames);
    forall i, j | 0 <= i < j < |sorted|
      ensures sorted[i] < sorted[j]
    {
      if sorted[i] == sorted[j] {
        Twice(sorted, i, j);
        OnceCount(frames, sorted[i]);
      }
    }
  }

  lemma SameMembers(a: seq<u32>, b: seq<u32>)
    requires multiset(a) == multiset(b)
    ensures forall f: u32 :: f in a <==> f in b
  {
    forall f: u32
      ensures f in a <==> f in b
    {
      assert f in a <==> f in multiset(a);
      assert f in b <==> f in multiset(b);
    }
  }

  lemma Twice(s: seq<u32>, i: nat, j: nat)
    requires i < j < |s| && s[i] == s[j]
    ensures multiset(s)[s[i]] >= 2
  {
    assert s == s[..j] + s[j..];
    assert s[i] in s[..j] && s[j] in s[j..];
  }

  lemma {:induction false} OnceCount(s: seq<u32>, x: u32)
    requires Once(s)
    ensures multiset(s)[x] <= 1
    decreases |s|
  {
    if s != [] {
      var front, last := s[..|s| - 1], s[|s| - 1];
      OnceCount(front, x);
      assert s == front + [last];
      if last == x {
        assert x !in front;
      }
    }
  }
}
