/**
What a walk of a volume hands to the builder (vcs/archive/source.go), and what
the builder derives from it before any content is read: inode groups, the entry
table, and the order content is written in (the first half of
vcs/archive/build.go). Everything here is a function of the walk alone.
 */
module Source {
  import opened Basics
  import opened Extents
  import opened Content
  import opened Manifest
  import opened Valid
  import opened Sorting
  import Validate

  /** A file's logical bytes and the map of which of them are data. */
  datatype SourceFile = SourceFile(image: Bytes, data: seq<Extent>)

  /** One node the walk produced. */
  datatype SourceEntry = SourceEntry(
    parentIndex: u32,
    name: Bytes,
    kind: byte,
    size: u64,
    mode: u32,
    mtimeNanos: i64,
    ctimeNanos: i64,
    linkName: Bytes,
    nlink: u32,
    inodeKey: u64,
    xattrs: seq<Xattr>,
    file: Option<SourceFile>)
  {
    /** A regular file with an inode identity. */
    predicate Linkable() {
      kind == TYPE_REGULAR && inodeKey != 0
    }

    predicate HasContent() {
      kind == TYPE_REGULAR && size > 0
    }

    /** A zero link count means one link. */
    function Links(): u32 {
      if nlink == 0 then 1 else nlink
    }
  }

  // ----- attributes -----

  predicate XattrBefore(a: Xattr, b: Xattr) {
    Less(a.name, b.name)
  }

  function CanonicalXattrs(xattrs: seq<Xattr>): seq<Xattr> {
    Sort(XattrBefore, xattrs)
  }

  lemma {:induction false} LessTotal(a: Bytes, b: Bytes)
    ensures a == b || Less(a, b) || Less(b, a)
    decreases |a|
  {
    if a != [] && b != [] && a[0] == b[0] {
      LessTotal(a[1..], b[1..]);
      assert a == [a[0]] + a[1..] && b == [b[0]] + b[1..];
    }
  }

  lemma XattrOrder()
    ensures StrictWeak(XattrBefore)
  {
    forall a: Xattr, b: Xattr | XattrBefore(a, b)
      ensures !XattrBefore(b, a)
    {
      if Less(b.name, a.name) {
        Validate.LessTransitive(a.name, b.name, a.name);
        Validate.LessIrreflexive(a.name);
      }
    }
    forall a: Xattr, b: Xattr, c: Xattr | !XattrBefore(a, b) && !XattrBefore(b, c)
      ensures !XattrBefore(a, c)
    {
      LessTotal(a.name, b.name);
      LessTotal(b.name, c.name);
      if Less(a.name, c.name) {
        if Less(b.name, a.name) {
          Validate.LessTransitive(b.name, a.name, c.name);
        }
      }
    }
  }

  /** Attributes may arrive in any order: they are stored sorted, none lost. */
  lemma XattrsSorted(xattrs: seq<Xattr>)
    ensures multiset(CanonicalXattrs(xattrs)) == multiset(xattrs)
    ensures Sorted(XattrBefore, CanonicalXattrs(xattrs))
  {
    XattrOrder();
    SortPermutes(XattrBefore, xattrs);
    SortSorted(XattrBefore, xattrs);
  }

  // ----- collection -----

  /** An entry the walk may produce at position i. */
  predicate Arrives(s: SourceEntry, i: nat) {
    && (if i == 0 then s.kind == TYPE_DIRECTORY && s.name == [] && s.parentIndex == 0 else s.parentIndex < i)
    && (s.HasContent() ==> s.file.Some?)
  }

  /** Every walk that collection accepts. */
  predicate Collectable(sources: seq<SourceEntry>) {
    && 0 < |sources| <= MAX_ENTRIES
    && (forall i :: 0 <= i < |sources| ==> Arrives(sources[i], i))
    && (forall i :: 0 <= i < |sources| ==> XattrsValid(CanonicalXattrs(sources[i].xattrs)))
  }

  /** The digest an entry starts with; files with bytes replace it once read. */
  function FirstDigest(s: SourceEntry): Digest {
    if s.kind == TYPE_SYMLINK then Sha256(s.linkName)
    else if s.kind == TYPE_REGULAR then EmptySliceDigest()
    else ZERO_DIGEST
  }

  /** The entry before hardlink groups and content are known. */
  function BareEntry(s: SourceEntry): Entry {
    Entry(s.parentIndex, s.name, s.kind, s.size, s.mode % MODE_LIMIT, s.mtimeNanos, s.ctimeNanos, s.linkName,
          s.Links(), 0, FirstDigest(s), CanonicalXattrs(s.xattrs), [])
  }

  // ----- hardlink groups -----

  /** How many regular files carry an inode key. */
  function LinkCount(sources: seq<SourceEntry>, key: u64): (n: nat)
    ensures n <= |sources|
  {
    if sources == [] then 0
    else
      var last := sources[|sources| - 1];
      LinkCount(sources[..|sources| - 1], key) + if last.Linkable() && last.inodeKey == key then 1 else 0
  }

  /** The first regular file that carries an inode key. */
  function FirstWith(sources: seq<SourceEntry>, key: u64): (i: nat)
    requires LinkCount(sources, key) > 0
    ensures i < |sources| && sources[i].Linkable() && sources[i].inodeKey == key
    ensures forall j :: 0 <= j < i ==> !(sources[j].Linkable() && sources[j].inodeKey == key)
  {
    var front := sources[..|sources| - 1];
    if LinkCount(front, key) > 0 then FirstWith(front, key)
    else
      NoLinks(front, key);
      |front|
  }

  lemma {:induction false} NoLinks(sources: seq<SourceEntry>, key: u64)
    requires LinkCount(sources, key) == 0
    ensures forall j :: 0 <= j < |sources| ==> !(sources[j].Linkable() && sources[j].inodeKey == key)
    decreases |sources|
  {
    if sources != [] {
      var front := sources[..|sources| - 1];
      NoLinks(front, key);
      assert forall j :: 0 <= j < |front| ==> front[j] == sources[j];
    }
  }

  /** Entry i's inode key names a hardlink group of at least two files. */
  predicate Shares(sources: seq<SourceEntry>, i: nat)
    requires i < |sources|
  {
    sources[i].inodeKey != 0 && LinkCount(sources, sources[i].inodeKey) >= 2
  }

  /** The entry whose content entry i carries. */
  function Owner(sources: seq<SourceEntry>, i: nat): (owner: nat)
    requires i < |sources|
    ensures owner < |sources|
  {
    if Shares(sources, i) then FirstWith(sources, sources[i].inodeKey) else i
  }

  predicate Grouped(sources: seq<SourceEntry>, i: nat)
    requires i < |sources|
  {
    sources[i].Linkable() && Shares(sources, i)
  }

  /** Entry i is the first member of a group. */
  predicate Leads(sources: seq<SourceEntry>, i: nat)
    requires i < |sources|
  {
    Grouped(sources, i) && Owner(sources, i) == i
  }

  /** Groups that first appear among the first n entries. */
  function Leaders(sources: seq<SourceEntry>, n: nat): (count: nat)
    requires n <= |sources|
    ensures count <= n
  {
    if n == 0 then 0 else Leaders(sources, n - 1) + if Leads(sources, n - 1) then 1 else 0
  }

  /** Dense group numbers in order of first appearance; zero for no group. */
  function GroupNumber(sources: seq<SourceEntry>, i: nat): (g: nat)
    requires i < |sources|
    ensures g <= |sources|
  {
    if Grouped(sources, i) then Leaders(sources, Owner(sources, i)) + 1 else 0
  }

  /** Every link count is the number of names the walk saw, and links to one inode
      agree on its size. */
  predicate LinksClosed(sources: seq<SourceEntry>) {
    forall i :: 0 <= i < |sources| && sources[i].kind == TYPE_REGULAR ==> LinkClosed(sources, i)
  }

  predicate LinkClosed(sources: seq<SourceEntry>, i: nat)
    requires i < |sources|
  {
    && sources[i].Links() == (if Grouped(sources, i) then LinkCount(sources, sources[i].inodeKey) else 1)
    && sources[i].size == sources[Owner(sources, i)].size
  }

  // ----- what group numbers mean -----

  lemma {:induction false} LeadersMonotone(sources: seq<SourceEntry>, i: nat, j: nat)
    requires i <= j <= |sources|
    ensures Leaders(sources, i) <= Leaders(sources, j)
    ensures i < j && Leads(sources, i) ==> Leaders(sources, i) < Leaders(sources, j)
    decreases j - i
  {
    if i < j {
      LeadersMonotone(sources, i, j - 1);
    }
  }

  lemma OwnerLeads(sources: seq<SourceEntry>, i: nat)
    requires i < |sources| && Grouped(sources, i)
    ensures Owner(sources, i) <= i && Leads(sources, Owner(sources, i))
    ensures sources[Owner(sources, i)].inodeKey == sources[i].inodeKey
    ensures Leads(sources, i) <==> Owner(sources, i) == i
  {
  }

  /** Two grouped entries have the same number exactly when they are one inode. */
  lemma GroupIsInode(sources: seq<SourceEntry>, i: nat, j: nat)
    requires i < |sources| && j < |sources| && Grouped(sources, i) && Grouped(sources, j)
    ensures GroupNumber(sources, i) == GroupNumber(sources, j) <==> sources[i].inodeKey == sources[j].inodeKey
  {
    var a, b := Owner(sources, i), Owner(sources, j);
    assert Leads(sources, a) && Leads(sources, b);
    if a < b {
      LeadersMonotone(sources, a, b);
    } else if b < a {
      LeadersMonotone(sources, b, a);
    }
  }

  /** Table entries that carry the groups, link counts and sizes of their sources. */
  predicate Linked(sources: seq<SourceEntry>, entries: seq<Entry>) {
    && |entries| == |sources|
    && forall i :: 0 <= i < |sources| ==>
         && entries[i].hardlinkGroup == GroupNumber(sources, i)
         && entries[i].nlink == sources[i].Links()
         && entries[i].size == sources[i].size
  }

  /** A leader takes the next number; any other member a number already in use. */
  lemma NextGroup(sources: seq<SourceEntry>, n: nat)
    requires n < |sources|
    ensures Leaders(sources, n + 1) ==
            if GroupNumber(sources, n) > Leaders(sources, n) then GroupNumber(sources, n) else Leaders(sources, n)
  {
    hide Owner, Shares;
    if Grouped(sources, n) {
      OwnerLeads(sources, n);
      LeadersMonotone(sources, Owner(sources, n), n);
    }
  }

  lemma {:induction false} MaxGroupIsLeaders(sources: seq<SourceEntry>, entries: seq<Entry>, n: nat)
    requires Linked(sources, entries) && n <= |sources|
    ensures MaxGroup(entries[..n]) == Leaders(sources, n)
    decreases n
  {
    hide GroupNumber;
    if n > 0 {
      MaxGroupIsLeaders(sources, entries, n - 1);
      Validate.GroupStep(entries, n - 1, 0);
      NextGroup(sources, n - 1);
      hide Leaders, MaxGroup;
    }
  }

  lemma MemberIsLink(sources: seq<SourceEntry>, i: nat, j: nat)
    requires i < |sources| && j < |sources| && Grouped(sources, i)
    ensures GroupNumber(sources, j) == GroupNumber(sources, i) <==>
            sources[j].Linkable() && sources[j].inodeKey == sources[i].inodeKey
  {
    if Grouped(sources, j) {
      GroupIsInode(sources, i, j);
    }
  }

  /** A group has as many members as its key has links. */
  lemma {:induction false} MembersAreLinks(sources: seq<SourceEntry>, entries: seq<Entry>, i: nat, n: nat)
    requires Linked(sources, entries) && i < |sources| && n <= |sources| && Grouped(sources, i)
    ensures MemberCount(entries[..n], GroupNumber(sources, i)) == LinkCount(sources[..n], sources[i].inodeKey)
    decreases n
  {
    if n > 0 {
      hide Grouped, GroupNumber, MemberCount, LinkCount;
      MembersAreLinks(sources, entries, i, n - 1);
      Validate.GroupStep(entries, n - 1, GroupNumber(sources, i));
      LinkStep(sources, n - 1, sources[i].inodeKey);
      MemberIsLink(sources, i, n - 1);
    }
  }

  lemma LinkStep(sources: seq<SourceEntry>, n: nat, key: u64)
    requires n < |sources|
    ensures LinkCount(sources[..n + 1], key) ==
            LinkCount(sources[..n], key) + if sources[n].Linkable() && sources[n].inodeKey == key then 1 else 0
  {
    PrefixOfPrefix(sources, n, n + 1);
    assert sources[..n + 1][n] == sources[n];
  }

  /** Links the walk closed make a hardlink table the format accepts. */
  lemma ClosedLinksValid(sources: seq<SourceEntry>, entries: seq<Entry>)
    requires Linked(sources, entries) && LinksClosed(sources)
    requires forall i :: 0 <= i < |sources| && Grouped(sources, i) ==>
               entries[i].contentDigest == entries[Owner(sources, i)].contentDigest
    ensures HardlinksValid(entries)
  {
    forall i | 0 <= i < |entries|
      ensures entries[i].hardlinkGroup <= MaxGroup(entries[..i]) + 1
      ensures entries[i].hardlinkGroup != 0 ==> MemberCount(entries, entries[i].hardlinkGroup) == entries[i].nlink
    {
      GroupFits(sources, entries, i);
    }
    forall i, j | 0 <= i < j < |entries| && entries[i].hardlinkGroup == entries[j].hardlinkGroup != 0
      ensures SameInode(entries[i], entries[j])
    {
      GroupIsInode(sources, i, j);
      assert LinkClosed(sources, i) && LinkClosed(sources, j);
    }
  }

  lemma GroupFits(sources: seq<SourceEntry>, entries: seq<Entry>, i: nat)
    requires Linked(sources, entries) && LinksClosed(sources) && i < |entries|
    ensures entries[i].hardlinkGroup <= MaxGroup(entries[..i]) + 1
    ensures entries[i].hardlinkGroup != 0 ==> MemberCount(entries, entries[i].hardlinkGroup) == entries[i].nlink
  {
    MaxGroupIsLeaders(sources, entries, i);
    if Grouped(sources, i) {
      LeadersMonotone(sources, Owner(sources, i), i);
      MembersAreLinks(sources, entries, i, |sources|);
      PrefixWhole(entries);
      PrefixWhole(sources);
      assert LinkClosed(sources, i);
    }
  }

  // ----- content -----

  /** Everything the builder must be able to read of a file with content: a
      canonical extent map inside its size, and data under every extent. */
  predicate Legible(s: SourceEntry) {
    && s.file.Some?
    && Canonical(s.file.value.data, s.size)
    && Inside(s.file.value.image, 0, s.file.value.data)
  }

  /** The bytes a reader of the file sees, holes as zeros. */
  function LogicalContent(s: SourceEntry): (content: Bytes)
    requires s.file.Some?
    ensures |content| == s.size
  {
    Logical(s.file.value.image, s.file.value.data, 0, s.size)
  }

  /** Where chunk k of a file begins, and where it ends. */
  function ChunkStart(s: SourceEntry, chunkSize: nat, k: nat): (lo: u64)
    requires chunkSize > 0 && k < ChunksNeeded(s.size, chunkSize)
    ensures lo == k * chunkSize < s.size
  {
    ChunkBounds(s.size, chunkSize, k);
    k * chunkSize
  }

  function ChunkStop(s: SourceEntry, chunkSize: nat, k: nat): (hi: u64)
    requires chunkSize > 0 && k < ChunksNeeded(s.size, chunkSize)
    ensures ChunkStart(s, chunkSize, k) < hi <= s.size
    ensures hi - ChunkStart(s, chunkSize, k) == ChunkSpan(s.size, chunkSize, k) <= chunkSize
  {
    ChunkBounds(s.size, chunkSize, k);
    k * chunkSize + ChunkSpan(s.size, chunkSize, k)
  }

  /** Chunk k's own extent map. */
  function ChunkExtents(s: SourceEntry, chunkSize: nat, k: nat): seq<Extent>
    requires s.file.Some? && chunkSize > 0 && k < ChunksNeeded(s.size, chunkSize)
  {
    Clip(s.file.value.data, ChunkStart(s, chunkSize, k), ChunkStop(s, chunkSize, k))
  }

  /** Chunk k can be read: its part of a canonical map has data under it. */
  predicate ChunkLegible(s: SourceEntry, chunkSize: nat, k: nat)
    requires chunkSize > 0 && k < ChunksNeeded(s.size, chunkSize)
  {
    && s.file.Some?
    && Canonical(s.file.value.data, s.size)
    && Inside(s.file.value.image, ChunkStart(s, chunkSize, k), ChunkExtents(s, chunkSize, k))
  }

  /** A file is legible when every chunk of it is. */
  lemma LegibleByChunk(s: SourceEntry, chunkSize: nat)
    requires chunkSize > 0 && s.file.Some? && Canonical(s.file.value.data, s.size)
    requires forall k :: 0 <= k < ChunksNeeded(s.size, chunkSize) ==> ChunkLegible(s, chunkSize, k)
    ensures Legible(s)
  {
    hide ChunkLegible, ChunkStart, ChunkStop, ChunksNeeded, Canonical;
    var image, data := s.file.value.image, s.file.value.data;
    forall i | 0 <= i < |data|
      ensures 0 + data[i].End() <= |image|
    {
      var x := LastByte(data, s.size, i);
      ByteInChunk(s, chunkSize, x);
      LastByteLegible(s, chunkSize, x / chunkSize, i, x);
    }
  }

  lemma LastByte(data: seq<Extent>, size: nat, i: nat) returns (x: nat)
    requires Canonical(data, size) && i < |data|
    ensures x + 1 == data[i].End() <= size && data[i].Has(x)
  {
    x := data[i].End() - 1;
  }

  lemma LastByteLegible(s: SourceEntry, chunkSize: nat, k: nat, i: nat, x: nat)
    requires chunkSize > 0 && k < ChunksNeeded(s.size, chunkSize) && ChunkLegible(s, chunkSize, k)
    requires ChunkStart(s, chunkSize, k) <= x < ChunkStop(s, chunkSize, k)
    requires i < |s.file.value.data| && s.file.value.data[i].Has(x)
    ensures x < |s.file.value.image|
  {
    hide Clip, Canonical;
    var lo, hi := ChunkStart(s, chunkSize, k), ChunkStop(s, chunkSize, k);
    ClipCovers(s.file.value.data, lo, hi, x - lo);
    var clip := ChunkExtents(s, chunkSize, k);
    var j :| 0 <= j < |clip| && clip[j].Has(x - lo);
  }

  /** The bytes chunk k stores. */
  function ChunkBytes(s: SourceEntry, chunkSize: nat, k: nat): (stored: Bytes)
    requires chunkSize > 0 && k < ChunksNeeded(s.size, chunkSize) && ChunkLegible(s, chunkSize, k)
    ensures |stored| == TotalLength(ChunkExtents(s, chunkSize, k)) <= chunkSize
    ensures Canonical(ChunkExtents(s, chunkSize, k), ChunkSpan(s.size, chunkSize, k))
  {
    var lo, hi := ChunkStart(s, chunkSize, k), ChunkStop(s, chunkSize, k);
    ClipCanonical(s.file.value.data, s.size, lo, hi);
    Validate.TotalLengthBounded(ChunkExtents(s, chunkSize, k), hi - lo);
    Gather(s.file.value.image, lo, ChunkExtents(s, chunkSize, k))
  }

  /** Whatever expands chunk k's stored bytes is chunk k's logical span. */
  lemma ChunkExpands(s: SourceEntry, chunkSize: nat, k: nat, out: Bytes)
    requires chunkSize > 0 && k < ChunksNeeded(s.size, chunkSize) && ChunkLegible(s, chunkSize, k)
    requires Expanded(ChunkBytes(s, chunkSize, k), ChunkExtents(s, chunkSize, k),
                      ChunkSpan(s.size, chunkSize, k), out)
    ensures out == LogicalContent(s)[ChunkStart(s, chunkSize, k)..ChunkStop(s, chunkSize, k)]
  {
    hide Expanded, Gather, Clip, Canonical;
    var image, data := s.file.value.image, s.file.value.data;
    var lo, hi := ChunkStart(s, chunkSize, k), ChunkStop(s, chunkSize, k);
    ExpandGathered(image, data, s.size, lo, hi, out);
    LogicalSlice(image, data, s.size, lo, hi);
  }

  lemma LogicalSlice(image: Bytes, data: seq<Extent>, size: nat, lo: nat, hi: nat)
    requires lo <= hi <= size
    ensures Logical(image, data, 0, size)[lo..hi] == Logical(image, data, lo, hi)
  {
  }

  /** A file that stores bytes in every chunk it has reads back whole. */
  lemma ChunksMakeFile(s: SourceEntry, chunkSize: nat, file: Bytes)
    requires s.file.Some? && chunkSize > 0 && |file| == s.size
    requires forall k :: 0 <= k < ChunksNeeded(s.size, chunkSize) ==> ChunkAgrees(s, chunkSize, k, file)
    ensures file == LogicalContent(s)
  {
    var whole := LogicalContent(s);
    forall x | 0 <= x < |file|
      ensures file[x] == whole[x]
    {
      var k := x / chunkSize;
      ByteInChunk(s, chunkSize, x);
      assert ChunkAgrees(s, chunkSize, k, file);
      var lo, hi := ChunkStart(s, chunkSize, k), ChunkStop(s, chunkSize, k);
      assert file[lo..hi][x - lo] == whole[lo..hi][x - lo];
    }
  }

  predicate ChunkAgrees(s: SourceEntry, chunkSize: nat, k: nat, file: Bytes)
    requires s.file.Some? && chunkSize > 0 && k < ChunksNeeded(s.size, chunkSize) && |file| == s.size
  {
    file[ChunkStart(s, chunkSize, k)..ChunkStop(s, chunkSize, k)] ==
    LogicalContent(s)[ChunkStart(s, chunkSize, k)..ChunkStop(s, chunkSize, k)]
  }

  /** Every byte of a file lies in one of its chunks. */
  lemma ByteInChunk(s: SourceEntry, chunkSize: nat, x: nat)
    requires chunkSize > 0 && x < s.size
    ensures x / chunkSize < ChunksNeeded(s.size, chunkSize)
    ensures ChunkStart(s, chunkSize, x / chunkSize) <= x < ChunkStop(s, chunkSize, x / chunkSize)
  {
    var k, r := x / chunkSize, x % chunkSize;
    assert x == k * chunkSize + r;
    var q, rest := s.size / chunkSize, s.size % chunkSize;
    assert s.size == q * chunkSize + rest;
    if q < k {
      MulMonotone(q + 1, k, chunkSize);
    }
    if k == q {
      assert rest > r;
    }
    ChunkBounds(s.size, chunkSize, k);
  }

  /** Byte x of the file, as chunk k's own map describes it. */
  predicate ChunkCovers(s: SourceEntry, chunkSize: nat, k: nat, x: nat)
    requires s.file.Some? && chunkSize > 0 && k < ChunksNeeded(s.size, chunkSize)
  {
    ChunkStart(s, chunkSize, k) <= x && Covers(ChunkExtents(s, chunkSize, k), x - ChunkStart(s, chunkSize, k))
  }

  /** The chunks' maps partition the file's: a byte is data exactly when one chunk's
      map says so, and no second chunk's does. */
  lemma ClipsPartition(s: SourceEntry, chunkSize: nat, x: nat)
    requires s.file.Some? && chunkSize > 0 && Canonical(s.file.value.data, s.size)
    ensures Covers(s.file.value.data, x) <==>
            exists k :: 0 <= k < ChunksNeeded(s.size, chunkSize) && ChunkCovers(s, chunkSize, k, x)
    ensures forall j, k :: 0 <= j < k < ChunksNeeded(s.size, chunkSize) ==>
              !(ChunkCovers(s, chunkSize, j, x) && ChunkCovers(s, chunkSize, k, x))
  {
    hide ChunkCovers, Covers, Canonical, ChunkStart, ChunkStop, ChunksNeeded;
    var data := s.file.value.data;
    forall k | 0 <= k < ChunksNeeded(s.size, chunkSize)
      ensures ChunkCovers(s, chunkSize, k, x) <==>
              ChunkStart(s, chunkSize, k) <= x < ChunkStop(s, chunkSize, k) && Covers(data, x)
    {
      CoversOwnSpan(s, chunkSize, k, x);
    }
    if Covers(data, x) {
      CoversInside(data, s.size, x);
      ByteInChunk(s, chunkSize, x);
      assert ChunkCovers(s, chunkSize, x / chunkSize, x);
    }
    forall j, k | 0 <= j < k < ChunksNeeded(s.size, chunkSize)
      ensures ChunkStop(s, chunkSize, j) <= ChunkStart(s, chunkSize, k)
    {
      ChunksApart(s, chunkSize, j, k);
    }
  }

  lemma CoversInside(data: seq<Extent>, size: nat, x: nat)
    requires Canonical(data, size) && Covers(data, x)
    ensures x < size
  {
  }

  lemma CoversOwnSpan(s: SourceEntry, chunkSize: nat, k: nat, x: nat)
    requires s.file.Some? && chunkSize > 0 && k < ChunksNeeded(s.size, chunkSize)
    ensures ChunkCovers(s, chunkSize, k, x) <==>
            ChunkStart(s, chunkSize, k) <= x < ChunkStop(s, chunkSize, k) && Covers(s.file.value.data, x)
  {
    hide Covers, ChunkStart, ChunkStop, ChunksNeeded, Clip;
    if ChunkStart(s, chunkSize, k) <= x {
      ClipCovers(s.file.value.data, ChunkStart(s, chunkSize, k), ChunkStop(s, chunkSize, k), x - ChunkStart(s, chunkSize, k));
    }
  }

  lemma ChunksApart(s: SourceEntry, chunkSize: nat, j: nat, k: nat)
    requires chunkSize > 0 && j < k < ChunksNeeded(s.size, chunkSize)
    ensures ChunkStop(s, chunkSize, j) <= ChunkStart(s, chunkSize, k)
  {
    ChunkBounds(s.size, chunkSize, j);
    MulMonotone(j + 1, k, chunkSize);
  }

  /** The digest entry i carries: of its owner's content, where that has any. */
  function DigestOf(sources: seq<SourceEntry>, i: nat): Digest
    requires i < |sources|
    requires sources[Owner(sources, i)].HasContent() ==> sources[Owner(sources, i)].file.Some?
  {
    var owner := sources[Owner(sources, i)];
    if owner.HasContent() then Sha256(LogicalContent(owner)) else FirstDigest(sources[i])
  }
}
