/**
Deciding the write order (contentUnits, groupByLocality and the class split of
writeContent in vcs/archive/build.go), step by step.
 */
module Schedule {
  import opened Basics
  import opened Sorting
  import opened Source
  import opened Order
  import Collect

  /** The owner map decides which entries own bytes. */
  lemma OwnsByMap(sources: seq<SourceEntry>, inodeOwner: map<u64, nat>, i: nat)
    requires i < |sources| && Collect.Owners(sources, |sources|, inodeOwner)
    ensures Owns(sources, i) <==>
            && sources[i].HasContent()
            && !(sources[i].inodeKey != 0 && sources[i].inodeKey in inodeOwner && inodeOwner[sources[i].inodeKey] != i)
  {
    hide LinkCount, FirstWith;
    if sources[i].HasContent() && Grouped(sources, i) {
      OwnerLeads(sources, i);
    }
  }

  /** Every distinct inode with bytes, most recently modified first. */
  method ContentUnits(sources: seq<SourceEntry>, inodeOwner: map<u64, nat>) returns (units: seq<ContentUnit>)
    requires Collect.Owners(sources, |sources|, inodeOwner)
    ensures units == Units(sources) && Owned(sources, units)
    ensures forall i, j :: 0 <= i < j < |units| ==>
              && sources[units[i].owner].mtimeNanos >= sources[units[j].owner].mtimeNanos
              && (sources[units[i].owner].mtimeNanos == sources[units[j].owner].mtimeNanos ==> units[i].owner < units[j].owner)
  {
    hide Owns, Collect.Owners, Sort;
    UnitsOnce(sources);
    units := [];
    for index := 0 to |sources|
      invariant units == UnitsBefore(sources, index)
    {
      OwnsByMap(sources, inodeOwner, index);
      var s := sources[index];
      if !s.HasContent() {
        continue;
      }
      if s.inodeKey != 0 && s.inodeKey in inodeOwner && inodeOwner[s.inodeKey] != index {
        continue;
      }
      units := units + [ContentUnit(index, s.mtimeNanos, s.size)];
    }
    units := Sort(MoreRecent, units);
  }

  /** Separates small files from large ones, keeping the order. */
  method SplitClasses(units: seq<ContentUnit>, chunkSize: nat) returns (small: seq<ContentUnit>, large: seq<ContentUnit>)
    ensures small == SmallOf(units, chunkSize) && large == LargeOf(units, chunkSize)
  {
    small, large := [], [];
    for i := 0 to |units|
      invariant small == SmallOf(units[..i], chunkSize) && large == LargeOf(units[..i], chunkSize)
    {
      PrefixOfPrefix(units, i, i + 1);
      assert units[..i + 1][i] == units[i];
      if units[i].size <= chunkSize {
        small := small + [units[i]];
      } else {
        large := large + [units[i]];
      }
    }
    PrefixWhole(units);
  }

  /** The groups after some units: one per key seen, keys in order of appearance. */
  ghost predicate Gathered(sources: seq<SourceEntry>, units: seq<ContentUnit>, order: seq<LocalityKey>,
                           groups: map<LocalityKey, seq<ContentUnit>>)
    requires Owned(sources, units)
  {
    && order == KeyOrder(sources, units)
    && (forall key :: key in groups <==> key in order)
    && (forall key :: key in groups ==> groups[key] == Members(sources, units, key))
  }

  lemma {:induction false} NoMembers(sources: seq<SourceEntry>, units: seq<ContentUnit>, key: LocalityKey)
    requires Owned(sources, units) && key !in KeyOrder(sources, units)
    ensures Members(sources, units, key) == []
    decreases |units|
  {
    hide KeyOf;
    if units != [] {
      NoMembers(sources, units[..|units| - 1], key);
    }
  }

  lemma KeyOrderSnoc(sources: seq<SourceEntry>, units: seq<ContentUnit>, unit: ContentUnit)
    requires Owned(sources, units) && unit.owner < |sources|
    ensures KeyOrder(sources, units + [unit]) ==
            if KeyOf(sources, unit) in KeyOrder(sources, units) then KeyOrder(sources, units)
            else KeyOrder(sources, units) + [KeyOf(sources, unit)]
  {
    hide KeyOf;
    assert (units + [unit])[..|units|] == units;
  }

  lemma MembersSnoc(sources: seq<SourceEntry>, units: seq<ContentUnit>, unit: ContentUnit, key: LocalityKey)
    requires Owned(sources, units) && unit.owner < |sources|
    ensures Members(sources, units + [unit], key) ==
            Members(sources, units, key) + if KeyOf(sources, unit) == key then [unit] else []
  {
    hide KeyOf;
    assert (units + [unit])[..|units|] == units;
  }

  lemma GatherStep(sources: seq<SourceEntry>, units: seq<ContentUnit>, unit: ContentUnit, order: seq<LocalityKey>,
                   groups: map<LocalityKey, seq<ContentUnit>>)
    requires Owned(sources, units) && unit.owner < |sources| && Gathered(sources, units, order, groups)
    ensures var key := KeyOf(sources, unit);
            Gathered(sources, units + [unit], if key in groups then order else order + [key],
                     groups[key := (if key in groups then groups[key] else []) + [unit]])
  {
    hide KeyOf, KeyOrder, Members;
    var key := KeyOf(sources, unit);
    KeyOrderSnoc(sources, units, unit);
    if key !in groups {
      NoMembers(sources, units, key);
    }
    var after := groups[key := (if key in groups then groups[key] else []) + [unit]];
    forall other | other in after
      ensures after[other] == Members(sources, units + [unit], other)
    {
      MembersSnoc(sources, units, unit, other);
    }
  }

  method GroupByLocality(sources: seq<SourceEntry>, units: seq<ContentUnit>) returns (out: seq<ContentUnit>)
    requires Owned(sources, units)
    ensures out == ByLocality(sources, units)
  {
    hide KeyOf, KeyOrder, Members;
    var order: seq<LocalityKey> := [];
    var groups: map<LocalityKey, seq<ContentUnit>> := map[];
    NothingGathered(sources);
    assert units[..0] == [];
    for i := 0 to |units|
      invariant Gathered(sources, units[..i], order, groups)
    {
      var key := KeyOf(sources, units[i]);
      GatherStep(sources, units[..i], units[i], order, groups);
      PrefixSnoc(units, i);
      if key !in groups {
        order := order + [key];
      }
      groups := groups[key := (if key in groups then groups[key] else []) + [units[i]]];
    }
    PrefixWhole(units);
    out := [];
    for k := 0 to |order|
      invariant out == Joined(sources, units, order[..k])
    {
      assert order[k] in groups;
      PrefixOfPrefix(order, k, k + 1);
      assert order[..k + 1][k] == order[k];
      out := out + groups[order[k]];
    }
    PrefixWhole(order);
  }

  lemma NothingGathered(sources: seq<SourceEntry>)
    ensures Gathered(sources, [], [], map[])
  {
  }
}
