/**
Carrying out a restore plan on an empty tree: every step finds its parent and its
link target already there, and what comes out is the sealed tree, name by name.
 */
module Namespace {
  import opened Basics
  import opened Manifest
  import opened Valid
  import opened Source
  import opened Config
  import opened Sealing
  import opened Table
  import opened EndToEnd
  import opened Described
  import opened Restore
  import Layout

  /** An inode as a restore makes it. Names with one number are links to it. */
  datatype Inode = Inode(
    number: nat,
    kind: byte,
    size: u64,
    mode: u32,
    mtimeNanos: i64,
    linkName: Bytes,
    xattrs: seq<Xattr>)

  /** Names in a tree, by their path from the root. */
  type Names = map<seq<Bytes>, Inode>

  /** The path a step names: its parent's, and its own name. */
  function StepPath(steps: seq<PlanStep>, k: nat): seq<Bytes>
    requires k < |steps|
    decreases k
  {
    if k == 0 || steps[k].parentIndex >= k then []
    else StepPath(steps, steps[k].parentIndex) + [steps[k].name]
  }

  /** One step on a tree, as mkdir, open, symlink and link do it: None when the name
      exists, its directory does not, or there is nothing to link to. */
  function Perform(names: Names, steps: seq<PlanStep>, k: nat): Option<Names>
    requires k < |steps|
  {
    var step, path := steps[k], StepPath(steps, k);
    if path in names then None
    else if k > 0 && !(step.parentIndex < k && IsDirectory(names, StepPath(steps, step.parentIndex))) then None
    else if step.Creates() then
      Some(names[path := Inode(k, step.kind, step.size, step.mode, step.mtimeNanos, step.linkName, step.xattrs)])
    else if step.linkFrom < k && StepPath(steps, step.linkFrom) in names then
      Some(names[path := names[StepPath(steps, step.linkFrom)]])
    else None
  }

  predicate IsDirectory(names: Names, path: seq<Bytes>) {
    path in names && names[path].kind == TYPE_DIRECTORY
  }

  /** The first n steps, in order, on an empty tree. */
  function Performed(steps: seq<PlanStep>, n: nat): Option<Names>
    requires n <= |steps|
  {
    if n == 0 then Some(map[])
    else
      var names :- Performed(steps, n - 1);
      Perform(names, steps, n - 1)
  }

  // ----- what performing a plan yields -----

  ghost predicate PlanOf(entries: seq<Entry>, steps: seq<PlanStep>) {
    |steps| == |entries| && forall i :: 0 <= i < |steps| ==> steps[i] == StepAt(entries, i)
  }

  /** The inode entry i names. */
  function InodeOf(entries: seq<Entry>, i: nat): Inode
    requires i < |entries|
  {
    InodeIsFirst(entries, i);
    var first := StepAt(entries, i).Inode();
    var e := entries[first];
    Inode(first, e.kind, e.size, e.mode, e.mtimeNanos, e.linkName, e.xattrs)
  }

  /** These are exactly the names of the first n entries. */
  ghost predicate NamesOf(entries: seq<Entry>, n: nat, names: Names)
    requires n <= |entries| && ParentsEarlier(entries)
  {
    && (forall i :: 0 <= i < n ==> PathOf(entries, i) in names && names[PathOf(entries, i)] == InodeOf(entries, i))
    && (forall path :: path in names ==> exists i :: 0 <= i < n && path == PathOf(entries, i))
  }

  lemma {:induction false} StepPathOf(entries: seq<Entry>, steps: seq<PlanStep>, k: nat)
    requires PlanOf(entries, steps) && ParentsEarlier(entries) && k < |entries|
    ensures StepPath(steps, k) == PathOf(entries, k)
    decreases k
  {
    assert steps[k] == StepAt(entries, k);
    if k > 0 {
      StepPathOf(entries, steps, entries[k].parentIndex);
    }
  }

  lemma NewPath(m: Manifest, k: nat, names: Names)
    requires ValidManifest(m) && ParentsEarlier(m.entries) && k < |m.entries| && NamesOf(m.entries, k, names)
    ensures PathOf(m.entries, k) !in names
  {
    hide ValidManifest, ParentsEarlier, PathOf, InodeOf;
    if PathOf(m.entries, k) in names {
      var i :| 0 <= i < k && PathOf(m.entries, k) == PathOf(m.entries, i);
      PathInjective(m, k, i);
    }
  }

  lemma ParentThere(m: Manifest, k: nat, names: Names)
    requires ValidManifest(m) && ParentsEarlier(m.entries) && 0 < k < |m.entries| && NamesOf(m.entries, k, names)
    ensures IsDirectory(names, PathOf(m.entries, m.entries[k].parentIndex))
  {
    hide ValidManifest, PathOf, StepAt, FirstOf;
    ParentsFirst(m, k);
    var parent: nat := m.entries[k].parentIndex;
    CreatesItself(m.entries, parent);
    assert names[PathOf(m.entries, parent)] == InodeOf(m.entries, parent);
  }

  lemma CreatesItself(entries: seq<Entry>, i: nat)
    requires i < |entries|
    ensures StepAt(entries, i).Creates() ==> StepAt(entries, i).Inode() == i
    ensures !StepAt(entries, i).Creates() ==> StepAt(entries, i).Inode() == StepAt(entries, i).linkFrom
  {
  }

  /** A link names its inode's first name, which names the same inode. */
  lemma LinkThere(m: Manifest, k: nat)
    requires ValidManifest(m) && k < |m.entries| && !StepAt(m.entries, k).Creates()
    ensures 0 <= StepAt(m.entries, k).linkFrom < k
    ensures InodeOf(m.entries, StepAt(m.entries, k).linkFrom) == InodeOf(m.entries, k)
  {
    hide ValidManifest, StepAt, FirstOf;
    LinksBackward(m, k);
    CreatesItself(m.entries, k);
    CreatesItself(m.entries, StepAt(m.entries, k).linkFrom);
  }

  lemma PerformStep(m: Manifest, steps: seq<PlanStep>, k: nat, names: Names)
    requires ValidManifest(m) && ParentsEarlier(m.entries) && PlanOf(m.entries, steps)
    requires k < |m.entries| && NamesOf(m.entries, k, names)
    ensures Perform(names, steps, k) == Some(names[PathOf(m.entries, k) := InodeOf(m.entries, k)])
  {
    hide ValidManifest, PathOf, StepPath, FirstOf;
    assert steps[k] == StepAt(m.entries, k);
    StepPathOf(m.entries, steps, k);
    NewPath(m, k, names);
    if k > 0 {
      ParentThere(m, k, names);
      StepPathOf(m.entries, steps, m.entries[k].parentIndex);
    }
    if !steps[k].Creates() {
      LinkThere(m, k);
      var first: nat := steps[k].linkFrom;
      StepPathOf(m.entries, steps, first);
      assert names[PathOf(m.entries, first)] == InodeOf(m.entries, first);
    }
  }

  lemma NamesGrow(m: Manifest, k: nat, names: Names)
    requires ValidManifest(m) && ParentsEarlier(m.entries) && k < |m.entries| && NamesOf(m.entries, k, names)
    ensures NamesOf(m.entries, k + 1, names[PathOf(m.entries, k) := InodeOf(m.entries, k)])
  {
    hide ValidManifest, ParentsEarlier, PathOf, InodeOf;
    var after := names[PathOf(m.entries, k) := InodeOf(m.entries, k)];
    NewPath(m, k, names);
    forall i | 0 <= i < k + 1
      ensures PathOf(m.entries, i) in after && after[PathOf(m.entries, i)] == InodeOf(m.entries, i)
    {
      if i < k {
        assert PathOf(m.entries, i) in names;
      }
    }
    forall path | path in after
      ensures exists i :: 0 <= i < k + 1 && path == PathOf(m.entries, i)
    {
      if path != PathOf(m.entries, k) {
        var i :| 0 <= i < k && path == PathOf(m.entries, i);
      }
    }
  }

  lemma {:induction false} PerformUpTo(m: Manifest, steps: seq<PlanStep>, n: nat)
    requires ValidManifest(m) && ParentsEarlier(m.entries) && PlanOf(m.entries, steps) && n <= |m.entries|
    ensures Performed(steps, n).Some? && NamesOf(m.entries, n, Performed(steps, n).value)
    decreases n
  {
    hide ValidManifest, ParentsEarlier, PathOf, InodeOf, Perform, PlanOf;
    if n > 0 {
      assert |steps| == |m.entries| by { PlanLength(m.entries, steps); }
      PerformUpTo(m, steps, n - 1);
      PerformStep(m, steps, n - 1, Performed(steps, n - 1).value);
      NamesGrow(m, n - 1, Performed(steps, n - 1).value);
    }
  }

  lemma PlanLength(entries: seq<Entry>, steps: seq<PlanStep>)
    requires PlanOf(entries, steps)
    ensures |steps| == |entries|
  {
  }

  /** The plan of a valid manifest runs to the end, every name and every directory
      in its place, and leaves exactly the manifest's names: each entry's path, on the
      inode of its hardlink group's first member. */
  lemma PlanRestores(m: Manifest, steps: seq<PlanStep>)
    requires ValidManifest(m) && PlanOf(m.entries, steps)
    ensures ParentsEarlier(m.entries) && |steps| == |m.entries| && Performed(steps, |steps|).Some?
    ensures NamesOf(m.entries, |m.entries|, Performed(steps, |steps|).value)
  {
    hide ValidManifest, ParentsEarlier, NamesOf, Performed;
    ValidParents(m);
    PerformUpTo(m, steps, |steps|);
  }

  // ----- from the walk and back -----

  /** The path of entry i in the walk. */
  function WalkPath(sources: seq<SourceEntry>, i: nat): seq<Bytes>
    requires i < |sources|
    decreases i
  {
    if i == 0 || sources[i].parentIndex >= i then []
    else WalkPath(sources, sources[i].parentIndex) + [sources[i].name]
  }

  /** The first entry of the walk on entry i's inode. */
  function FirstName(sources: seq<SourceEntry>, i: nat): (first: nat)
    requires i < |sources|
    ensures first < |sources|
  {
    if Grouped(sources, i) then Owner(sources, i) else i
  }

  /** What the walk found at entry i's inode, as a restore must make it again. */
  ghost predicate Remade(sources: seq<SourceEntry>, i: nat, inode: Inode)
    requires i < |sources|
  {
    var first := FirstName(sources, i);
    var s := sources[first];
    && inode.number == first && inode.kind == s.kind && inode.size == s.size && inode.mode == s.mode % 0x1000
    && inode.mtimeNanos == s.mtimeNanos && inode.linkName == s.linkName && multiset(inode.xattrs) == multiset(s.xattrs)
  }

  lemma {:induction false} WalkPathOf(sources: seq<SourceEntry>, entries: seq<Entry>, i: nat)
    requires |entries| == |sources| && ParentsEarlier(entries) && i < |sources|
    requires forall j :: 0 <= j < |sources| ==>
               entries[j].parentIndex == sources[j].parentIndex && entries[j].name == sources[j].name
    ensures PathOf(entries, i) == WalkPath(sources, i)
    decreases i
  {
    if i > 0 {
      WalkPathOf(sources, entries, entries[i].parentIndex);
    }
  }

  /** The first member of an entry's group in the table is the first of its inode in
      the walk. */
  lemma FirstIsFirst(sources: seq<SourceEntry>, entries: seq<Entry>, i: nat)
    requires |entries| == |sources| <= MAX_ENTRIES && i < |sources|
    requires forall j :: 0 <= j < |sources| ==> entries[j].hardlinkGroup == GroupNumber(sources, j)
    ensures StepAt(entries, i).Inode() == FirstName(sources, i)
  {
    hide StepAt, GroupNumber, Owner, Grouped;
    InodeIsFirst(entries, i);
    var first: nat := StepAt(entries, i).Inode();
    GroupFirst(sources, i);
    if Grouped(sources, i) {
      var owner := Owner(sources, i);
      assert entries[owner].hardlinkGroup == entries[i].hardlinkGroup != 0;
      if first < owner {
        GroupEarlier(sources, i, first);
      }
    }
  }

  lemma GroupFirst(sources: seq<SourceEntry>, i: nat)
    requires i < |sources|
    ensures Grouped(sources, i) <==> GroupNumber(sources, i) != 0
    ensures Grouped(sources, i) ==> GroupNumber(sources, Owner(sources, i)) == GroupNumber(sources, i)
  {
    hide Leaders, LinkCount, FirstWith;
  }

  lemma GroupEarlier(sources: seq<SourceEntry>, i: nat, j: nat)
    requires i < |sources| && j < Owner(sources, i) && Grouped(sources, i)
    ensures GroupNumber(sources, j) != GroupNumber(sources, i)
  {
    if Grouped(sources, j) && GroupNumber(sources, j) == GroupNumber(sources, i) {
      hide GroupNumber;
      GroupIsInode(sources, i, j);
    }
  }

  lemma BuiltGroup(config: Config, sources: seq<SourceEntry>, m: Manifest, packs: seq<Bytes>, o: Outcome, i: nat)
    requires Built(config, sources, m, packs, o) && i < |sources|
    ensures |m.entries| == |sources| <= MAX_ENTRIES && m.entries[i].hardlinkGroup == GroupNumber(sources, i)
  {
    hide Built, Sealed, Owner, GroupNumber;
    BuiltEntry(config, sources, m, packs, o, i);
  }

  /** These are the walk's own names and no others, each on the inode the walk found
      there. */
  ghost predicate WalkNames(sources: seq<SourceEntry>, names: Names) {
    && (forall i :: 0 <= i < |sources| ==>
          WalkPath(sources, i) in names && Remade(sources, i, names[WalkPath(sources, i)]))
    && (forall path :: path in names ==> exists i :: 0 <= i < |sources| && path == WalkPath(sources, i))
  }

  lemma Renamed(sources: seq<SourceEntry>, entries: seq<Entry>, names: Names)
    requires |entries| == |sources| && ParentsEarlier(entries) && NamesOf(entries, |entries|, names)
    requires forall i :: 0 <= i < |sources| ==>
               PathOf(entries, i) == WalkPath(sources, i) && Remade(sources, i, InodeOf(entries, i))
    ensures WalkNames(sources, names)
  {
    hide ParentsEarlier, PathOf, WalkPath, InodeOf, Remade;
    forall i | 0 <= i < |sources|
      ensures WalkPath(sources, i) in names && Remade(sources, i, names[WalkPath(sources, i)])
    {
      assert names[PathOf(entries, i)] == InodeOf(entries, i);
    }
    forall path | path in names
      ensures exists i :: 0 <= i < |sources| && path == WalkPath(sources, i)
    {
      var i :| 0 <= i < |entries| && path == PathOf(entries, i);
      assert path == WalkPath(sources, i);
    }
  }

  /** Seal, then restore: the plan of a build's manifest runs to the end and leaves the
      walk's own names and no others, each on the inode the walk found there. */
  lemma RestoresWalk(config: Config, sources: seq<SourceEntry>, m: Manifest, packs: seq<Bytes>, o: Outcome,
                     steps: seq<PlanStep>)
    requires Built(config, sources, m, packs, o) && ValidManifest(m) && PlanOf(m.entries, steps)
    ensures Performed(steps, |steps|).Some? && WalkNames(sources, Performed(steps, |steps|).value)
  {
    hide Built, ValidManifest, ParentsEarlier, Performed, PathOf, WalkPath, InodeOf, Remade, PlanOf, NamesOf, WalkNames;
    PlanRestores(m, steps);
    Layout.TableLength(config, sources, m, packs, o);
    forall i | 0 <= i < |sources|
      ensures PathOf(m.entries, i) == WalkPath(sources, i) && Remade(sources, i, InodeOf(m.entries, i))
    {
      EntryRemade(config, sources, m, packs, o, i);
    }
    Renamed(sources, m.entries, Performed(steps, |steps|).value);
  }

  lemma EntryRemade(config: Config, sources: seq<SourceEntry>, m: Manifest, packs: seq<Bytes>, o: Outcome, i: nat)
    requires Built(config, sources, m, packs, o) && |m.entries| == |sources| && ParentsEarlier(m.entries) && i < |sources|
    ensures PathOf(m.entries, i) == WalkPath(sources, i) && Remade(sources, i, InodeOf(m.entries, i))
  {
    hide Built, ParentsEarlier, PathOf, WalkPath, StepAt, FirstName, GroupNumber, Owner;
    forall j | 0 <= j < |sources|
      ensures m.entries[j].hardlinkGroup == GroupNumber(sources, j) && |sources| <= MAX_ENTRIES
      ensures m.entries[j].parentIndex == sources[j].parentIndex && m.entries[j].name == sources[j].name
    {
      BuiltGroup(config, sources, m, packs, o, j);
      BuiltFields(config, sources, m, packs, o, j);
    }
    BuiltGroup(config, sources, m, packs, o, i);
    WalkPathOf(sources, m.entries, i);
    FirstIsFirst(sources, m.entries, i);
    BuiltFields(config, sources, m, packs, o, FirstName(sources, i));
  }
}
