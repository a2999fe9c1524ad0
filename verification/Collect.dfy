/**
Collecting a walk and closing its hardlink groups (collect, canonicalXattrs and
assignHardlinkGroups of vcs/archive/build.go).
 */
module Collect {
  import opened Basics
  import opened Manifest
  import opened Valid
  import opened Source
  import opened Table
  import Validate

  /** A walk in progress. It may break off with an error at any entry. */
  class Walk {
    const entries: seq<SourceEntry>
    var at: nat

    constructor (all: seq<SourceEntry>)
      ensures entries == all && at == 0
    {
      entries, at := all, 0;
    }

    /** The next entry, or None when the walk is complete. */
    method Next() returns (r: Result<Option<SourceEntry>>)
      modifies `at
      ensures r.Err? ==> r.error == Io
      ensures r.Ok? ==> r.value == if old(at) < |entries| then Some(entries[old(at)]) else None
      ensures r.Ok? && r.value.Some? ==> at == old(at) + 1 <= |entries|
    {
      var fails: bool := *;
      if fails {
        return Err(Io);
      }
      if at >= |entries| {
        return Ok(None);
      }
      at := at + 1;
      return Ok(Some(entries[at - 1]));
    }
  }

  /** Drains a walk, refusing it at its first bad entry. */
  method Drain(walk: Walk) returns (r: Result<seq<SourceEntry>>)
    requires walk.at == 0
    modifies walk
    ensures r.Ok? ==> r.value == walk.entries && 0 < |r.value| <= MAX_ENTRIES
    ensures r.Ok? ==> forall i :: 0 <= i < |r.value| ==> Arrives(r.value[i], i)
    ensures r == Err(Invalid) ==> !Collectable(walk.entries)
    ensures r.Err? ==> r.error != FrameCorrupt
  {
    hide XattrsValid, CanonicalXattrs;
    var sources: seq<SourceEntry> := [];
    while true
      invariant walk.at == |sources| <= |walk.entries| && |sources| <= MAX_ENTRIES
      invariant sources == walk.entries[..|sources|]
      invariant forall i :: 0 <= i < |sources| ==> Arrives(sources[i], i)
      decreases |walk.entries| - walk.at
    {
      var next := walk.Next();
      if next.Err? {
        return Err(next.error);
      }
      if next.value.None? {
        break;
      }
      var entry := next.value.value;
      var index := |sources|;
      if index >= MAX_ENTRIES {
        return Err(Invalid);
      }
      if !Arrives(entry, index) {
        assert walk.entries[index] == entry;
        return Err(Invalid);
      }
      PrefixSnoc(walk.entries, index);
      sources := sources + [entry];
    }
    PrefixWhole(walk.entries);
    if |sources| == 0 {
      return Err(Invalid);
    }
    return Ok(sources);
  }

  /** The entry table of a walk, before groups and content. */
  function BareEntries(sources: seq<SourceEntry>): (entries: seq<Entry>)
    ensures |entries| == |sources| && forall i :: 0 <= i < |sources| ==> entries[i] == BareEntry(sources[i])
  {
    seq(|sources|, i requires 0 <= i < |sources| => BareEntry(sources[i]))
  }

  /** Fills the table, checking every entry's attributes. */
  method FillTable(sources: seq<SourceEntry>) returns (r: Option<seq<Entry>>)
    ensures r.Some? <==> forall i :: 0 <= i < |sources| ==> XattrsValid(CanonicalXattrs(sources[i].xattrs))
    ensures r.Some? ==> r.value == BareEntries(sources)
  {
    hide XattrsValid, CanonicalXattrs, BareEntry;
    var entries: seq<Entry> := [];
    for index := 0 to |sources|
      invariant |entries| == index
      invariant forall i :: 0 <= i < index ==> entries[i] == BareEntry(sources[i])
      invariant forall i :: 0 <= i < index ==> XattrsValid(CanonicalXattrs(sources[i].xattrs))
    {
      entries := entries + [BareEntry(sources[index])];
      var ok := Validate.ValidateXattrs(CanonicalXattrs(sources[index].xattrs));
      if !ok {
        return None;
      }
    }
    assert entries == BareEntries(sources);
    return Some(entries);
  }

  /** Accepts exactly the collectable walks, unless the walk itself fails. */
  method Collected(walk: Walk) returns (r: Result<(seq<SourceEntry>, seq<Entry>)>)
    requires walk.at == 0
    modifies walk
    ensures r.Ok? ==> Collectable(walk.entries) && r.value == (walk.entries, BareEntries(walk.entries))
    ensures r == Err(Invalid) ==> !Collectable(walk.entries)
    ensures r.Err? ==> r.error != FrameCorrupt
  {
    hide XattrsValid, CanonicalXattrs, BareEntries;
    var sources := Drain(walk);
    if sources.Err? {
      return Err(sources.error);
    }
    var entries := FillTable(sources.value);
    if entries.None? {
      return Err(Invalid);
    }
    return Ok((sources.value, entries.value));
  }

  // ----- hardlink groups -----

  /** members lists, for every inode key among the first n entries, the entries
      that carry it. */
  ghost predicate Members(sources: seq<SourceEntry>, n: nat, members: map<u64, seq<nat>>)
    requires n <= |sources|
  {
    forall key: u64 :: MembersOf(sources, n, members, key)
  }

  predicate MembersOf(sources: seq<SourceEntry>, n: nat, members: map<u64, seq<nat>>, key: u64)
    requires n <= |sources|
  {
    && (key in members <==> LinkCount(sources[..n], key) > 0)
    && (key in members ==> |members[key]| == LinkCount(sources[..n], key) && members[key][0] == FirstWith(sources[..n], key))
  }

  lemma LinkStep(sources: seq<SourceEntry>, n: nat, key: u64)
    requires n < |sources|
    ensures LinkCount(sources[..n + 1], key) ==
            LinkCount(sources[..n], key) + if sources[n].Linkable() && sources[n].inodeKey == key then 1 else 0
    ensures LinkCount(sources[..n + 1], key) > 0 ==>
              FirstWith(sources[..n + 1], key) == if LinkCount(sources[..n], key) > 0 then FirstWith(sources[..n], key) else n
  {
    PrefixOfPrefix(sources, n, n + 1);
    assert sources[..n + 1][n] == sources[n];
  }

  method GroupMembers(sources: seq<SourceEntry>) returns (members: map<u64, seq<nat>>)
    ensures Members(sources, |sources|, members)
  {
    hide LinkCount, FirstWith;
    members := map[];
    NoneYet(sources);
    for index := 0 to |sources|
      invariant Members(sources, index, members)
    {
      var s := sources[index];
      MembersStep(sources, index, index + 1, members);
      if s.Linkable() {
        members := members[s.inodeKey := (if s.inodeKey in members then members[s.inodeKey] else []) + [index]];
      }
    }
  }

  lemma MembersStep(sources: seq<SourceEntry>, n: nat, m: nat, members: map<u64, seq<nat>>)
    requires n < |sources| && m == n + 1 && Members(sources, n, members)
    ensures var s := sources[n];
            Members(sources, m, if !s.Linkable() then members else
              members[s.inodeKey := (if s.inodeKey in members then members[s.inodeKey] else []) + [n]])
  {
    hide LinkCount, FirstWith;
    var s := sources[n];
    var after := if !s.Linkable() then members else
      members[s.inodeKey := (if s.inodeKey in members then members[s.inodeKey] else []) + [n]];
    forall key: u64
      ensures MembersOf(sources, m, after, key)
    {
      assert MembersOf(sources, n, members, key);
      LinkStep(sources, n, key);
    }
  }

  lemma NoneYet(sources: seq<SourceEntry>)
    ensures Members(sources, 0, map[])
  {
    assert sources[..0] == [];
  }

  /** owners maps each group's key to its first member, for groups that first
      appear among the first n entries. */
  ghost predicate Owners(sources: seq<SourceEntry>, n: nat, owners: map<u64, nat>)
    requires n <= |sources|
  {
    && (forall key :: key in owners ==> LinkCount(sources, key) >= 2 && owners[key] == FirstWith(sources, key))
    && (forall i :: 0 <= i < n && Leads(sources, i) ==> sources[i].inodeKey in owners)
  }

  /** The table with groups assigned to the first n entries. */
  ghost predicate GroupedUpTo(sources: seq<SourceEntry>, n: nat, entries: seq<Entry>)
    requires n <= |sources| <= MAX_ENTRIES
  {
    && |entries| == |sources|
    && forall i :: 0 <= i < |sources| ==>
         entries[i] == if i < n then GroupedEntry(sources, i) else BareEntry(sources[i])
  }

  /** One entry's group: its number and, for a first member, a new owner. */
  method AssignGroup(sources: seq<SourceEntry>, entries: seq<Entry>, index: nat, members: map<u64, seq<nat>>, next: u32)
    returns (r: Option<u32>)
    requires index < |sources| <= MAX_ENTRIES && Members(sources, |sources|, members)
    requires GroupedUpTo(sources, index, entries) && next == Leaders(sources, index) + 1
    ensures r.Some? <==> (sources[index].kind == TYPE_REGULAR ==> LinkClosed(sources, index))
    ensures r.Some? ==> r.value == GroupNumber(sources, index)
  {
    hide LinkCount, FirstWith, Leaders;
    var s := sources[index];
    assert MembersOf(sources, |sources|, members, s.inodeKey);
    assert sources[..|sources|] == sources;
    if !s.Linkable() {
      if s.kind == TYPE_REGULAR && entries[index].nlink != 1 {
        return None;
      }
      return Some(0);
    }
    Counted(sources, index);
    var group := members[s.inodeKey];
    if |group| == 1 {
      if entries[index].nlink != 1 {
        return None;
      }
      return Some(0);
    }
    if |group| != entries[index].nlink {
      return None;
    }
    if group[0] == index {
      return Some(next);
    }
    var owner := group[0];
    if s.size != sources[owner].size {
      return None;
    }
    OwnerLeads(sources, index);
    assert entries[owner] == GroupedEntry(sources, owner);
    return Some(entries[owner].hardlinkGroup);
  }

  lemma Counted(sources: seq<SourceEntry>, i: nat)
    requires i < |sources| && sources[i].Linkable()
    ensures LinkCount(sources, sources[i].inodeKey) > 0
  {
    if LinkCount(sources, sources[i].inodeKey) == 0 {
      NoLinks(sources, sources[i].inodeKey);
    }
  }

  /** Closes the hardlink groups of a collected walk, or refuses it. */
  method AssignGroups(sources: seq<SourceEntry>, bare: seq<Entry>) returns (r: Option<(seq<Entry>, map<u64, nat>)>)
    requires |sources| <= MAX_ENTRIES && bare == BareEntries(sources)
    ensures r.Some? <==> LinksClosed(sources)
    ensures r.Some? ==> GroupedUpTo(sources, |sources|, r.value.0) && Owners(sources, |sources|, r.value.1)
  {
    var members := GroupMembers(sources);
    hide LinkCount, FirstWith, LinkClosed, GroupNumber, BareEntry, Members;
    var entries := bare;
    var inodeOwner: map<u64, nat> := map[];
    var next: u32 := 1;
    for index := 0 to |sources|
      invariant GroupedUpTo(sources, index, entries)
      invariant Owners(sources, index, inodeOwner)
      invariant next == Leaders(sources, index) + 1
      invariant forall i :: 0 <= i < index && sources[i].kind == TYPE_REGULAR ==> LinkClosed(sources, i)
    {
      var group := AssignGroup(sources, entries, index, members, next);
      if group.None? {
        return None;
      }
      entries := entries[index := entries[index].(hardlinkGroup := group.value)];
      NewGroup(sources, index);
      if group.value == next {
        inodeOwner := inodeOwner[sources[index].inodeKey := index];
        next := next + 1;
      }
    }
    return Some((entries, inodeOwner));
  }

  /** Only a first member takes the next number. */
  lemma NewGroup(sources: seq<SourceEntry>, i: nat)
    requires i < |sources|
    ensures GroupNumber(sources, i) == Leaders(sources, i) + 1 <==> Leads(sources, i)
    ensures Leads(sources, i) ==> LinkCount(sources, sources[i].inodeKey) >= 2 && FirstWith(sources, sources[i].inodeKey) == i
    ensures Leaders(sources, i + 1) == Leaders(sources, i) + if Leads(sources, i) then 1 else 0
  {
    if Grouped(sources, i) {
      OwnerLeads(sources, i);
      LeadersMonotone(sources, Owner(sources, i), i);
    }
  }
}
