/**
The scans of vcs/archive/validate.go, each proved to decide its declarative
condition in Valid.dfy.
 */
module Validate {
  import opened Basics
  import opened Extents
  import opened Content
  import opened Manifest
  import opened Frames
  import opened Tree
  import opened Valid

  // ----- header -----

  /** The number of one bits. */
  function OnesCount(n: nat): nat {
    if n == 0 then 0 else n % 2 + OnesCount(n / 2)
  }

  lemma {:induction false} OneBitIsPowerOfTwo(n: nat)
    ensures OnesCount(n) == 1 <==> IsPowerOfTwo(n)
    ensures OnesCount(n) == 0 <==> n == 0
    decreases n
  {
    if n > 0 {
      OneBitIsPowerOfTwo(n / 2);
    }
  }

  method ValidateHeader(h: Header) returns (ok: bool)
    ensures ok <==> HeaderValid(h)
  {
    hide PriorityValid, IsPowerOfTwo, OnesCount;
    OneBitIsPowerOfTwo(h.chunkSizeBytes);
    if h.formatVersion != FORMAT_VERSION {
      return false;
    }
    if h.chunkSizeBytes < MIN_CHUNK_SIZE || h.chunkSizeBytes > MAX_CHUNK_SIZE || OnesCount(h.chunkSizeBytes) != 1 {
      return false;
    }
    if h.compressionLevel < MIN_COMPRESSION_LEVEL || h.compressionLevel > MAX_COMPRESSION_LEVEL {
      return false;
    }
    if h.windowLog < MIN_WINDOW_LOG || h.windowLog > MAX_WINDOW_LOG {
      return false;
    }
    if h.sealedEpoch == 0 || h.volumeId == ZERO_ID || h.attempt == ZERO_ID {
      return false;
    }
    if |h.packs| > MAX_PACKS {
      return false;
    }
    var total: u64 := 0;
    for i := 0 to |h.packs|
      invariant forall j :: 0 <= j < i ==> 0 < h.packs[j].sizeBytes
      invariant total == Total(SizeOf, h.packs[..i])
    {
      if h.packs[i].sizeBytes == 0 {
        return false;
      }
      TotalStep(SizeOf, h.packs, i);
      var sum := CheckedAdd(total, h.packs[i].sizeBytes);
      if sum.None? {
        return false;
      }
      total := sum.value;
    }
    PrefixWhole(h.packs);
    ok := ValidatePriority(h.priority, h.packs);
  }

  method ValidatePriority(priority: PriorityBoundary, packs: seq<PackRef>) returns (ok: bool)
    ensures ok <==> PriorityValid(priority, packs)
  {
    if priority.packIndex == |packs| {
      return priority.packOffset == 0;
    }
    if priority.packIndex > |packs| {
      return false;
    }
    return priority.packOffset <= packs[priority.packIndex].sizeBytes;
  }

  // ----- attributes -----

  lemma {:induction false} LessTransitive(a: Bytes, b: Bytes, c: Bytes)
    requires Less(a, b) && Less(b, c)
    ensures Less(a, c)
    decreases |a|
  {
    if a != [] && a[0] == b[0] == c[0] {
      LessTransitive(a[1..], b[1..], c[1..]);
    }
  }

  lemma {:induction false} LessIrreflexive(a: Bytes)
    ensures !Less(a, a)
    decreases |a|
  {
    if a != [] {
      LessIrreflexive(a[1..]);
    }
  }

  method ValidateXattrs(xattrs: seq<Xattr>) returns (ok: bool)
    ensures ok <==> XattrsValid(xattrs)
  {
    if |xattrs| > MAX_XATTRS_PER_ENTRY {
      return false;
    }
    for i := 0 to |xattrs|
      invariant XattrsValid(xattrs[..i])
    {
      ghost var front := xattrs[..i];
      if !XattrValid(xattrs[i]) {
        return false;
      }
      if i > 0 && !Less(xattrs[i - 1].name, xattrs[i].name) {
        return false;
      }
      forall j | 0 <= j < i
        ensures Less(xattrs[j].name, xattrs[i].name)
      {
        if j < i - 1 {
          assert Less(front[j].name, front[i - 1].name);
          LessTransitive(xattrs[j].name, xattrs[i - 1].name, xattrs[i].name);
        }
      }
      PrefixSnoc(xattrs, i);
    }
    PrefixWhole(xattrs);
    return true;
  }

  // ----- chunks -----

  /** Checks one chunk's extent list and sums it. */
  method ValidateExtents(extents: seq<Extent>, span: u64) returns (r: Option<u64>)
    ensures r.Some? <==> Canonical(extents, span) && TotalLength(extents) < TWO_64
    ensures r.Some? ==> r.value == TotalLength(extents)
  {
    var stored: u64 := 0;
    var previousEnd := 0;
    ghost var done: seq<Extent> := [];
    for i := 0 to |extents|
      invariant done == extents[..i] && Canonical(done, span)
      invariant stored == TotalLength(done)
      invariant i > 0 ==> previousEnd == done[i - 1].End()
    {
      var extent := extents[i];
      if extent.length == 0 || (i > 0 && extent.offset <= previousEnd) {
        return None;
      }
      var end := CheckedRange(extent.offset, extent.length, span);
      if end.None? {
        return None;
      }
      TotalStep(LengthOf, extents, i);
      CanonicalSnoc(done, extent, span);
      TotalSnoc(LengthOf, done, extent);
      PrefixSnoc(extents, i);
      done := done + [extent];
      previousEnd := end.value;
      var sum := CheckedAdd(stored, extent.length);
      if sum.None? {
        return None;
      }
      stored := sum.value;
    }
    PrefixWhole(extents);
    return Some(stored);
  }

  lemma CanonicalSnoc(done: seq<Extent>, e: Extent, span: int)
    requires Canonical(done, span)
    requires 0 < e.length && e.End() <= span
    requires done != [] ==> done[|done| - 1].End() < e.offset
    ensures Canonical(done + [e], span)
  {
    forall i | 0 <= i < |done|
      ensures done[i].End() < e.offset
    {
      if i < |done| - 1 {
        assert done[i].End() < done[|done| - 1].offset <= done[|done| - 1].End();
      }
    }
  }

  /** Canonical extents inside a span never sum past it. */
  lemma {:induction false} TotalLengthBounded(extents: seq<Extent>, span: int)
    requires Canonical(extents, span)
    ensures TotalLength(extents) <= if extents == [] then 0 else extents[|extents| - 1].End()
    decreases |extents|
  {
    if |extents| > 1 {
      var front := extents[..|extents| - 1];
      CanonicalPrefix(extents, span, |extents| - 1);
      TotalLengthBounded(front, span);
      assert extents[|extents| - 2].End() < extents[|extents| - 1].offset;
    } else if |extents| == 1 {
      assert TotalLength(extents) == Total(LengthOf, extents[..0]) + LengthOf(extents[0]);
      assert extents[0].offset <= extents[0].End();
    }
  }

  method ValidateChunk(c: ChunkRef, span: u64, frames: seq<Frame>) returns (ok: bool)
    ensures ok <==> ChunkValid(c, span, frames)
  {
    if |c.extents| > MAX_EXTENTS_PER_CHUNK {
      return false;
    }
    if Canonical(c.extents, span) {
      TotalLengthBounded(c.extents, span);
    }
    var stored := ValidateExtents(c.extents, span);
    if stored.None? || stored.value != c.length {
      return false;
    }
    if c.length == 0 {
      return c.frameIndex == NO_FRAME && c.innerOffset == 0 && c.sliceDigest == EmptySliceDigest();
    }
    if c.frameIndex >= |frames| {
      return false;
    }
    var end := CheckedRange(c.innerOffset, c.length, frames[c.frameIndex].uncompressedLength);
    return end.Some?;
  }

  method ValidateChunks(entry: Entry, frames: seq<Frame>, chunkSize: u64) returns (ok: bool)
    requires chunkSize > 0
    ensures ok <==> ChunksValid(entry, frames, chunkSize)
  {
    if |entry.chunks| != ChunksNeeded(entry.size, chunkSize) {
      return false;
    }
    for k := 0 to |entry.chunks|
      invariant forall j :: 0 <= j < k ==> ChunkAtValid(entry, j, frames, chunkSize)
    {
      ChunkBounds(entry.size, chunkSize, k);
      ok := ValidateChunk(entry.chunks[k], ChunkSpan(entry.size, chunkSize, k), frames);
      if !ok {
        assert !ChunkAtValid(entry, k, frames, chunkSize);
        return false;
      }
    }
    return true;
  }

  method ValidateEntryShape(entry: Entry, frames: seq<Frame>, chunkSize: u64) returns (ok: bool)
    requires chunkSize > 0
    ensures ok <==> ShapeValid(entry, frames, chunkSize)
  {
    if entry.kind == TYPE_DIRECTORY {
      if |entry.linkName| != 0 || |entry.chunks| != 0 || entry.hardlinkGroup != 0 {
        return false;
      }
      return entry.contentDigest == ZERO_DIGEST;
    }
    if entry.kind == TYPE_SYMLINK {
      if |entry.linkName| == 0 || |entry.linkName| > MAX_LINK_NAME_BYTES || 0 in entry.linkName {
        return false;
      }
      if |entry.chunks| != 0 || entry.hardlinkGroup != 0 || entry.size != |entry.linkName| {
        return false;
      }
      return entry.contentDigest == Sha256(entry.linkName) && entry.nlink == 1;
    }
    if entry.kind == TYPE_REGULAR {
      if |entry.linkName| != 0 {
        return false;
      }
      if (entry.hardlinkGroup == 0 && entry.nlink != 1) || (entry.hardlinkGroup != 0 && entry.nlink < 2) {
        return false;
      }
      ok := ValidateChunks(entry, frames, chunkSize);
      return;
    }
    return false;
  }

  method ValidateFields(e: Entry, frames: seq<Frame>, chunkSize: u64) returns (ok: bool)
    requires chunkSize > 0
    ensures ok <==> FieldsValid(e, frames, chunkSize)
  {
    if e.mode >= MODE_LIMIT || e.nlink == 0 {
      return false;
    }
    ok := ValidateXattrs(e.xattrs);
    if ok {
      ok := ValidateEntryShape(e, frames, chunkSize);
    }
  }

  // ----- the entry table -----

  type ChildKey = (nat, Bytes)

  ghost predicate ChildrenBefore(entries: seq<Entry>, n: nat, children: set<ChildKey>)
    requires n <= |entries|
  {
    && (forall j :: 0 < j < n ==> (entries[j].parentIndex, entries[j].name) in children)
    && (forall key :: key in children ==>
          exists j :: 0 < j < n && entries[j].parentIndex == key.0 && entries[j].name == key.1)
  }

  /** Checks where entry i hangs, keeping the stack of open ancestors and the set
      of names already taken. */
  method ValidatePlacement(entries: seq<Entry>, i: nat, stack: seq<nat>, names: set<ChildKey>)
    returns (ok: bool, path: seq<nat>, children: set<ChildKey>)
    requires i < |entries|
    requires stack == Ancestry(Parents(entries), if i == 0 then 0 else i - 1)
    requires ChildrenBefore(entries, i, names)
    ensures ok <==> PlacementValid(entries, i)
    ensures ok ==> path == Ancestry(Parents(entries), i) && ChildrenBefore(entries, i + 1, children)
  {
    var entry := entries[i];
    path, children := stack, names;
    if i == 0 {
      ok := entry.parentIndex == 0 && entry.kind == TYPE_DIRECTORY && |entry.name| == 0;
      return;
    }
    if entry.parentIndex >= i || entries[entry.parentIndex].kind != TYPE_DIRECTORY {
      return false, path, children;
    }
    path := PopTo(Parents(entries), i - 1, stack, entry.parentIndex);
    if |path| == 0 {
      return false, path, children;
    }
    path := path + [i];
    if !NameValid(entry.name) {
      return false, path, children;
    }
    if (entry.parentIndex, entry.name) in names {
      return false, path, children;
    }
    children := names + {(entry.parentIndex, entry.name)};
    forall j | 0 < j < i
      ensures !SameName(entries[j], entries[i])
    {
      assert (entries[j].parentIndex, entries[j].name) in names;
    }
    return true, path, children;
  }

  /** Checks one entry where it hangs and in itself. */
  method ValidateEntry(entries: seq<Entry>, i: nat, stack: seq<nat>, names: set<ChildKey>,
                       frames: seq<Frame>, chunkSize: u64)
    returns (ok: bool, path: seq<nat>, children: set<ChildKey>)
    requires chunkSize > 0 && i < |entries|
    requires stack == Ancestry(Parents(entries), if i == 0 then 0 else i - 1)
    requires ChildrenBefore(entries, i, names)
    ensures ok <==> EntryValid(entries, i, frames, chunkSize)
    ensures ok ==> path == Ancestry(Parents(entries), i) && ChildrenBefore(entries, i + 1, children)
  {
    ok, path, children := ValidatePlacement(entries, i, stack, names);
    if ok {
      ok := ValidateFields(entries[i], frames, chunkSize);
    }
  }

  lemma EachValidStep(entries: seq<Entry>, i: nat, frames: seq<Frame>, chunkSize: nat)
    requires chunkSize > 0 && i < |entries| && EachValid(entries, i, frames, chunkSize)
    ensures EntryValid(entries, i, frames, chunkSize) ==> EachValid(entries, i + 1, frames, chunkSize)
    ensures EachValid(entries, |entries|, frames, chunkSize) ==> EntryValid(entries, i, frames, chunkSize)
  {
  }

  method ValidateEntries(entries: seq<Entry>, frames: seq<Frame>, chunkSize: u64) returns (ok: bool)
    requires chunkSize > 0
    ensures ok <==> EntriesValid(entries, frames, chunkSize)
  {
    var path: seq<nat> := [0];
    var children: set<ChildKey> := {};
    var chunkTotal := 0;
    for i := 0 to |entries|
      invariant path == Ancestry(Parents(entries), if i == 0 then 0 else i - 1)
      invariant ChildrenBefore(entries, i, children)
      invariant EachValid(entries, i, frames, chunkSize)
      invariant chunkTotal == ChunkCount(entries[..i]) <= MAX_CHUNKS
    {
      ok, path, children := ValidateEntry(entries, i, path, children, frames, chunkSize);
      EachValidStep(entries, i, frames, chunkSize);
      if !ok {
        return false;
      }
      TotalStep(ChunksOf, entries, i);
      chunkTotal := chunkTotal + |entries[i].chunks|;
      if chunkTotal > MAX_CHUNKS {
        return false;
      }
    }
    PrefixWhole(entries);
    return true;
  }

  // ----- hardlink groups -----

  datatype Group = Group(first: nat, members: nat)

  ghost predicate GroupState(entries: seq<Entry>, n: nat, g: nat, state: Group)
    requires n <= |entries|
  {
    state.first < n && entries[state.first].hardlinkGroup == g && state.members == MemberCount(entries[..n], g)
  }

  /** Entry i belongs to a known group and agrees with its first member. */
  ghost predicate Agrees(entries: seq<Entry>, i: nat, groups: map<nat, Group>)
    requires i < |entries|
  {
    entries[i].hardlinkGroup != 0 ==>
      && entries[i].hardlinkGroup in groups
      && groups[entries[i].hardlinkGroup].first < |entries|
      && SameInode(entries[groups[entries[i].hardlinkGroup].first], entries[i])
  }

  /** The scan's map describes exactly the groups of the first n entries. */
  ghost predicate GroupsOf(entries: seq<Entry>, n: nat, groups: map<nat, Group>, next: nat)
    requires n <= |entries|
  {
    && next == MaxGroup(entries[..n]) + 1
    && (forall g :: g in groups <==> 0 < g < next)
    && (forall g :: g in groups ==> GroupState(entries, n, g, groups[g]))
    && (forall i :: 0 <= i < n ==> Agrees(entries, i, groups))
  }

  lemma {:induction false} NoMembers(entries: seq<Entry>, g: nat)
    requires g > MaxGroup(entries)
    ensures MemberCount(entries, g) == 0
    decreases |entries|
  {
    if entries != [] {
      NoMembers(entries[..|entries| - 1], g);
    }
  }

  lemma GroupStep(entries: seq<Entry>, n: nat, g: nat)
    requires n < |entries|
    ensures MemberCount(entries[..n + 1], g) ==
            MemberCount(entries[..n], g) + if entries[n].hardlinkGroup == g then 1 else 0
    ensures MaxGroup(entries[..n + 1]) ==
            if entries[n].hardlinkGroup > MaxGroup(entries[..n]) then entries[n].hardlinkGroup else MaxGroup(entries[..n])
  {
    PrefixOfPrefix(entries, n, n + 1);
  }

  /** Entry n leaves the groups as they were, but for the count of its own. */
  lemma GroupsKept(entries: seq<Entry>, n: nat, groups: map<nat, Group>, next: nat, after: map<nat, Group>)
    requires n < |entries| && GroupsOf(entries, n, groups, next)
    requires entries[n].hardlinkGroup == 0 || entries[n].hardlinkGroup in groups
    requires Agrees(entries, n, groups)
    requires after.Keys == groups.Keys
    requires forall g :: g in groups ==>
               after[g] == Group(groups[g].first,
                                 groups[g].members + if entries[n].hardlinkGroup == g then 1 else 0)
    ensures GroupsOf(entries, n + 1, after, next)
  {
    GroupStep(entries, n, 0);
    forall g | g in after
      ensures GroupState(entries, n + 1, g, after[g])
    {
      GroupStep(entries, n, g);
      assert GroupState(entries, n, g, groups[g]);
    }
    forall i | 0 <= i < n + 1
      ensures Agrees(entries, i, after)
    {
      assert Agrees(entries, i, groups);
    }
  }

  lemma GroupsSame(entries: seq<Entry>, n: nat, groups: map<nat, Group>, next: nat)
    requires n < |entries| && GroupsOf(entries, n, groups, next)
    requires entries[n].hardlinkGroup == 0
    ensures GroupsOf(entries, n + 1, groups, next)
  {
    GroupsKept(entries, n, groups, next, groups);
  }

  lemma GroupCounted(entries: seq<Entry>, n: nat, groups: map<nat, Group>, next: nat, g: nat)
    requires n < |entries| && GroupsOf(entries, n, groups, next)
    requires g == entries[n].hardlinkGroup && g in groups && Agrees(entries, n, groups)
    ensures GroupsOf(entries, n + 1, groups[g := Group(groups[g].first, groups[g].members + 1)], next)
  {
    GroupsKept(entries, n, groups, next, groups[g := Group(groups[g].first, groups[g].members + 1)]);
  }

  lemma GroupOpened(entries: seq<Entry>, n: nat, groups: map<nat, Group>, next: nat)
    requires n < |entries| && GroupsOf(entries, n, groups, next)
    requires entries[n].hardlinkGroup == next
    ensures GroupsOf(entries, n + 1, groups[next := Group(n, 1)], next + 1)
  {
    var after := groups[next := Group(n, 1)];
    NoMembers(entries[..n], next);
    forall g | g in after
      ensures GroupState(entries, n + 1, g, after[g])
    {
      GroupStep(entries, n, g);
      assert g in groups ==> GroupState(entries, n, g, groups[g]);
    }
    forall i | 0 <= i < n + 1
      ensures Agrees(entries, i, after)
    {
      assert i < n ==> Agrees(entries, i, groups);
    }
    GroupStep(entries, n, next);
  }

  /** Numbering and agreement over the first n entries. */
  predicate LinksConsistent(entries: seq<Entry>, n: nat)
    requires n <= |entries|
  {
    && (forall i :: 0 <= i < n ==> entries[i].hardlinkGroup <= MaxGroup(entries[..i]) + 1)
    && (forall i, j :: 0 <= i < j < n && entries[i].hardlinkGroup == entries[j].hardlinkGroup != 0 ==>
                         SameInode(entries[i], entries[j]))
  }

  lemma LinksConsistentStep(entries: seq<Entry>, n: nat, groups: map<nat, Group>, next: nat)
    requires n < |entries| && GroupsOf(entries, n, groups, next) && LinksConsistent(entries, n)
    ensures LinksConsistent(entries, n + 1) <==>
            entries[n].hardlinkGroup <= next && (entries[n].hardlinkGroup in groups ==> Agrees(entries, n, groups))
    ensures entries[n].hardlinkGroup < next ==> entries[n].hardlinkGroup == 0 || entries[n].hardlinkGroup in groups
  {
    hide MaxGroup, MemberCount;
    var g := entries[n].hardlinkGroup;
    if g in groups {
      assert GroupState(entries, n, g, groups[g]);
      var first := groups[g].first;
      if LinksConsistent(entries, n + 1) {
        assert SameInode(entries[first], entries[n]);
      }
      forall i | 0 <= i < n && entries[i].hardlinkGroup == g
        ensures SameInode(entries[first], entries[i])
      {
        assert Agrees(entries, i, groups);
      }
    } else if g <= next {
      forall i | 0 <= i < n && entries[i].hardlinkGroup == g
        ensures g == 0
      {
        assert Agrees(entries, i, groups);
      }
    }
  }

  lemma ValidIsConsistent(entries: seq<Entry>, n: nat)
    requires HardlinksValid(entries) && n <= |entries|
    ensures LinksConsistent(entries, n)
  {
  }

  lemma FirstInRange(entries: seq<Entry>, n: nat, groups: map<nat, Group>, next: nat, g: nat)
    requires n <= |entries| && GroupsOf(entries, n, groups, next)
    ensures g in groups ==> groups[g].first < |entries| && g < next
  {
    assert g in groups ==> GroupState(entries, n, g, groups[g]);
  }

  method ValidateHardlinkGroups(entries: seq<Entry>) returns (ok: bool)
    ensures ok <==> HardlinksValid(entries)
  {
    hide GroupsOf, LinksConsistent, HardlinksValid;
    var groups: map<nat, Group> := map[];
    var next: nat := 1;
    NoGroups(entries);
    for n := 0 to |entries|
      invariant GroupsOf(entries, n, groups, next)
      invariant LinksConsistent(entries, n)
    {
      var entry := entries[n];
      var g := entry.hardlinkGroup;
      FirstInRange(entries, n, groups, next, g);
      LinksConsistentStep(entries, n, groups, next);
      if HardlinksValid(entries) {
        ValidIsConsistent(entries, n + 1);
      }
      if g == 0 {
        GroupsSame(entries, n, groups, next);
      } else if g !in groups {
        if g != next {
          return false;
        }
        GroupOpened(entries, n, groups, next);
        groups := groups[g := Group(n, 1)];
        next := next + 1;
      } else {
        if !SameInode(entries[groups[g].first], entry) {
          return false;
        }
        GroupCounted(entries, n, groups, next, g);
        groups := groups[g := Group(groups[g].first, groups[g].members + 1)];
      }
    }
    ok := CheckMembership(entries, groups, next);
  }

  lemma NoGroups(entries: seq<Entry>)
    ensures GroupsOf(entries, 0, map[], 1) && LinksConsistent(entries, 0)
  {
  }

  /** Compares every group's membership with its link count. */
  method CheckMembership(entries: seq<Entry>, groups: map<nat, Group>, ghost next: nat) returns (ok: bool)
    requires GroupsOf(entries, |entries|, groups, next) && LinksConsistent(entries, |entries|)
    ensures ok <==> HardlinksValid(entries)
  {
    hide MemberCount, MaxGroup;
    PrefixWhole(entries);
    var left := groups.Keys;
    while left != {}
      invariant left <= groups.Keys
      invariant forall g :: g in groups && g !in left ==> groups[g].members == entries[groups[g].first].nlink
      decreases |left|
    {
      var g :| g in left;
      assert GroupState(entries, |entries|, g, groups[g]);
      if groups[g].members != entries[groups[g].first].nlink {
        return false;
      }
      left := left - {g};
    }
    forall i | 0 <= i < |entries| && entries[i].hardlinkGroup != 0
      ensures MemberCount(entries, entries[i].hardlinkGroup) == entries[i].nlink
    {
      assert Agrees(entries, i, groups);
      assert GroupState(entries, |entries|, entries[i].hardlinkGroup, groups[entries[i].hardlinkGroup]);
    }
    return true;
  }

  // ----- totals -----

  lemma LogicalStep(entries: seq<Entry>, n: nat)
    requires n < |entries|
    ensures FirstLink(entries[..n + 1], n) <==> FirstLink(entries, n)
    ensures LogicalInodes(entries[..n + 1]) == LogicalInodes(entries[..n]) + if FirstLink(entries, n) then 1 else 0
    ensures LogicalBytes(entries[..n + 1]) == LogicalBytes(entries[..n]) +
              if FirstLink(entries, n) && entries[n].kind == TYPE_REGULAR then entries[n].size else 0
  {
    PrefixOfPrefix(entries, n, n + 1);
  }

  lemma {:induction false} LogicalBytesPrefix(entries: seq<Entry>, k: nat)
    requires k <= |entries|
    ensures LogicalBytes(entries[..k]) <= LogicalBytes(entries)
    decreases |entries|
  {
    if k < |entries| {
      PrefixOfPrefix(entries, k, |entries| - 1);
      LogicalBytesPrefix(entries[..|entries| - 1], k);
    } else {
      PrefixWhole(entries);
    }
  }

  /** The logical totals, counting each hardlink group once; None on overflow. */
  method LogicalTotals(entries: seq<Entry>) returns (r: Option<(u64, nat)>)
    ensures r == if LogicalBytes(entries) < TWO_64 then Some((LogicalBytes(entries), LogicalInodes(entries))) else None
  {
    var bytes: u64, inodes := 0, 0;
    var seen: set<nat> := {};
    for n := 0 to |entries|
      invariant bytes == LogicalBytes(entries[..n]) && inodes == LogicalInodes(entries[..n])
      invariant forall g :: g in seen <==> g != 0 && exists i :: 0 <= i < n && entries[i].hardlinkGroup == g
    {
      var entry := entries[n];
      LogicalStep(entries, n);
      LogicalBytesPrefix(entries, n + 1);
      if entry.hardlinkGroup != 0 {
        if entry.hardlinkGroup in seen {
          continue;
        }
        seen := seen + {entry.hardlinkGroup};
      }
      inodes := inodes + 1;
      if entry.kind == TYPE_REGULAR {
        var sum := CheckedAdd(bytes, entry.size);
        if sum.None? {
          return None;
        }
        bytes := sum.value;
      }
    }
    PrefixWhole(entries);
    return Some((bytes, inodes));
  }

  /** Adds one chunk's extents, in whole blocks, to a running total. */
  method AddExtentBlocks(total: u64, extents: seq<Extent>) returns (r: Option<u64>)
    ensures r == if total + Total(BlocksOf, extents) < TWO_64 then Some(total + Total(BlocksOf, extents)) else None
  {
    var sum := total;
    for i := 0 to |extents|
      invariant sum == total + Total(BlocksOf, extents[..i])
    {
      TotalStep(BlocksOf, extents, i);
      var blocks := (extents[i].length + 4095) % TWO_64 / 4096;
      var rounded := CheckedMul(blocks, ALLOCATION_BLOCK);
      if rounded.None? {
        return None;
      }
      var next := CheckedAdd(sum, rounded.value);
      if next.None? {
        return None;
      }
      sum := next.value;
    }
    PrefixWhole(extents);
    return Some(sum);
  }

  /** The pinned admission-sizing total; None on overflow. */
  method SealedAllocation(entries: seq<Entry>) returns (r: Option<u64>)
    requires |entries| < TWO_64
    ensures r == if AllocatedBytes(entries) < TWO_64 then Some(AllocatedBytes(entries)) else None
  {
    var sum: u64 := 0;
    for n := 0 to |entries|
      invariant sum == Total(EntryBlocks, entries[..n])
    {
      var chunks := entries[n].chunks;
      TotalStep(EntryBlocks, entries, n);
      for k := 0 to |chunks|
        invariant sum == Total(EntryBlocks, entries[..n]) + Total(ChunkBlocks, chunks[..k])
      {
        TotalStep(ChunkBlocks, chunks, k);
        var next := AddExtentBlocks(sum, chunks[k].extents);
        if next.None? {
          return None;
        }
        sum := next.value;
      }
      PrefixWhole(chunks);
    }
    PrefixWhole(entries);
    var metadata := CheckedMul(|entries|, METADATA_PER_ENTRY);
    if metadata.None? {
      return None;
    }
    r := CheckedAdd(sum, metadata.value);
  }

  method ValidateTotals(h: Header, entries: seq<Entry>) returns (ok: bool)
    requires |entries| <= MAX_ENTRIES
    ensures ok <==> TotalsValid(h, entries)
  {
    var logical := LogicalTotals(entries);
    if logical.None? || h.logicalBytes != logical.value.0 || h.logicalInodes != logical.value.1 {
      return false;
    }
    var blocks := SealedAllocation(entries);
    return blocks.Some? && h.sealedAllocatedBytes == blocks.value && h.sealedInodes == |entries|;
  }

  // ----- the whole manifest -----

  /** Accepts a manifest exactly when it is valid. */
  method Validate(m: Manifest) returns (ok: bool)
    ensures ok <==> ValidManifest(m)
  {
    ok := ValidateHeader(m.header);
    if !ok || |m.entries| == 0 || |m.entries| > MAX_ENTRIES || |m.frames| > MAX_FRAMES {
      return false;
    }
    ok := ValidateFrames(m.frames, PackSizes(m.header.packs), m.header.chunkSizeBytes);
    if !ok {
      return false;
    }
    ok := ValidateEntries(m.entries, m.frames, m.header.chunkSizeBytes);
    if !ok {
      return false;
    }
    ok := ValidateHardlinkGroups(m.entries);
    if !ok {
      return false;
    }
    ok := ValidateTotals(m.header, m.entries);
  }
}
