/**
What grouping small files by locality means (groupByLocality of
vcs/archive/build.go): files that share a directory and an extension are written
next to each other, most recent first, and the groups follow each other by their
most recent members.
 */
module Locality {
  import opened Basics
  import opened Source
  import opened Order

  // ----- one group -----

  lemma {:induction false} MemberFrom(sources: seq<SourceEntry>, units: seq<ContentUnit>, key: LocalityKey, i: nat)
    returns (x: nat)
    requires Owned(sources, units) && i < |Members(sources, units, key)|
    ensures x < |units| && units[x] == Members(sources, units, key)[i]
    decreases |units|
  {
    hide KeyOf;
    var front := units[..|units| - 1];
    if i < |Members(sources, front, key)| {
      x := MemberFrom(sources, front, key, i);
    } else {
      x := |units| - 1;
    }
  }

  lemma {:induction false} MembersByRecency(sources: seq<SourceEntry>, units: seq<ContentUnit>, key: LocalityKey)
    requires Owned(sources, units) && NewestFirst(sources, units)
    ensures Owned(sources, Members(sources, units, key)) && NewestFirst(sources, Members(sources, units, key))
    decreases |units|
  {
    hide KeyOf, Newer;
    if units != [] {
      var front, last := units[..|units| - 1], units[|units| - 1];
      MembersByRecency(sources, front, key);
      forall i | 0 <= i < |Members(sources, front, key)|
        ensures Newer(sources, Members(sources, front, key)[i], last)
      {
        var x := MemberFrom(sources, front, key, i);
        assert units[x] == front[x];
      }
    }
  }

  // ----- groups one after the other -----

  lemma {:induction false} JoinedAt(sources: seq<SourceEntry>, units: seq<ContentUnit>, keys: seq<LocalityKey>, i: nat)
    returns (s: nat)
    requires Owned(sources, units) && i < |Joined(sources, units, keys)|
    ensures Owned(sources, Joined(sources, units, keys))
    ensures s < |keys| && KeyOf(sources, Joined(sources, units, keys)[i]) == keys[s]
    decreases |keys|
  {
    JoinedOwned(sources, units, keys);
    hide KeyOf, Members;
    var front, last := keys[..|keys| - 1], keys[|keys| - 1];
    if i < |Joined(sources, units, front)| {
      s := JoinedAt(sources, units, front, i);
    } else {
      s := |keys| - 1;
      MembersOwned(sources, units, last);
    }
  }

  /** An earlier position belongs to an earlier group, or to the same group and a
      more recent file. */
  lemma {:induction false} JoinedPair(sources: seq<SourceEntry>, units: seq<ContentUnit>, keys: seq<LocalityKey>,
                                      i: nat, j: nat) returns (s: nat, t: nat)
    requires Owned(sources, units) && NewestFirst(sources, units) && i < j < |Joined(sources, units, keys)|
    ensures Owned(sources, Joined(sources, units, keys))
    ensures s <= t < |keys|
    ensures KeyOf(sources, Joined(sources, units, keys)[i]) == keys[s]
    ensures KeyOf(sources, Joined(sources, units, keys)[j]) == keys[t]
    ensures s == t ==> Newer(sources, Joined(sources, units, keys)[i], Joined(sources, units, keys)[j])
    decreases |keys|
  {
    JoinedOwned(sources, units, keys);
    hide KeyOf, Members, Newer;
    var front, last := keys[..|keys| - 1], keys[|keys| - 1];
    if j < |Joined(sources, units, front)| {
      s, t := JoinedPair(sources, units, front, i, j);
    } else {
      t := |keys| - 1;
      MembersOwned(sources, units, last);
      if i < |Joined(sources, units, front)| {
        s := JoinedAt(sources, units, front, i);
      } else {
        s := t;
        MembersByRecency(sources, units, last);
      }
    }
  }

  // ----- the order of the groups -----

  lemma {:induction false} KeyFrom(sources: seq<SourceEntry>, units: seq<ContentUnit>, key: LocalityKey) returns (x: nat)
    requires Owned(sources, units) && key in KeyOrder(sources, units)
    ensures x < |units| && KeyOf(sources, units[x]) == key
    decreases |units|
  {
    hide KeyOf;
    var front := units[..|units| - 1];
    if key in KeyOrder(sources, front) {
      x := KeyFrom(sources, front, key);
    } else {
      x := |units| - 1;
    }
  }

  /** The first file of an earlier group precedes every file of a later one. */
  lemma {:induction false} FirstFile(sources: seq<SourceEntry>, units: seq<ContentUnit>, s: nat, t: nat) returns (x: nat)
    requires Owned(sources, units) && s < t < |KeyOrder(sources, units)|
    ensures x < |units| && KeyOf(sources, units[x]) == KeyOrder(sources, units)[s]
    ensures forall y :: 0 <= y < |units| && KeyOf(sources, units[y]) == KeyOrder(sources, units)[t] ==> x < y
    decreases |units|
  {
    hide KeyOf;
    var front, last := units[..|units| - 1], units[|units| - 1];
    var before := KeyOrder(sources, front);
    assert forall y :: 0 <= y < |front| ==> front[y] == units[y];
    if t < |before| {
      x := FirstFile(sources, front, s, t);
    } else {
      assert before[s] in before;
      x := KeyFrom(sources, front, before[s]);
      KeyOrderComplete(sources, front);
    }
  }

  // ----- the whole order -----

  lemma SameUnits(sources: seq<SourceEntry>, units: seq<ContentUnit>, i: nat) returns (x: nat)
    requires Owned(sources, units) && i < |ByLocality(sources, units)|
    ensures x < |units| && units[x] == ByLocality(sources, units)[i]
  {
    LocalityPermutes(sources, units);
    hide ByLocality;
    assert ByLocality(sources, units)[i] in multiset(units);
    x :| 0 <= x < |units| && units[x] == ByLocality(sources, units)[i];
  }

  lemma WrittenAt(sources: seq<SourceEntry>, units: seq<ContentUnit>, x: nat) returns (i: nat)
    requires Owned(sources, units) && x < |units|
    ensures i < |ByLocality(sources, units)| && ByLocality(sources, units)[i] == units[x]
  {
    LocalityPermutes(sources, units);
    hide ByLocality;
    assert units[x] in multiset(ByLocality(sources, units));
    i :| 0 <= i < |ByLocality(sources, units)| && ByLocality(sources, units)[i] == units[x];
  }

  /** Files with one key are adjacent. */
  predicate Adjacent(sources: seq<SourceEntry>, out: seq<ContentUnit>)
    requires Owned(sources, out)
  {
    forall i, j, k :: 0 <= i < j < k < |out| && KeyOf(sources, out[i]) == KeyOf(sources, out[k]) ==>
                        KeyOf(sources, out[j]) == KeyOf(sources, out[i])
  }

  /** Within a group, recent first. */
  predicate GroupsByRecency(sources: seq<SourceEntry>, out: seq<ContentUnit>)
    requires Owned(sources, out)
  {
    forall i, j :: 0 <= i < j < |out| && KeyOf(sources, out[i]) == KeyOf(sources, out[j]) ==> Newer(sources, out[i], out[j])
  }

  /** Position p holds a file of i's group more recent than all of j's group. */
  predicate Ahead(sources: seq<SourceEntry>, out: seq<ContentUnit>, i: nat, j: nat, p: nat)
    requires Owned(sources, out) && i < |out| && j < |out|
  {
    && p < |out| && KeyOf(sources, out[p]) == KeyOf(sources, out[i])
    && forall q :: 0 <= q < |out| && KeyOf(sources, out[q]) == KeyOf(sources, out[j]) ==> Newer(sources, out[p], out[q])
  }

  /** Between groups, the one with the most recent member first. */
  ghost predicate GroupsOrdered(sources: seq<SourceEntry>, out: seq<ContentUnit>)
    requires Owned(sources, out)
  {
    forall i, j :: 0 <= i < j < |out| && KeyOf(sources, out[i]) != KeyOf(sources, out[j]) ==>
                     exists p :: Ahead(sources, out, i, j, p)
  }

  lemma GroupsAdjacent(sources: seq<SourceEntry>, units: seq<ContentUnit>)
    requires Owned(sources, units) && NewestFirst(sources, units)
    ensures Owned(sources, ByLocality(sources, units))
    ensures Adjacent(sources, ByLocality(sources, units)) && GroupsByRecency(sources, ByLocality(sources, units))
  {
    var keys := KeyOrder(sources, units);
    var out := ByLocality(sources, units);
    KeyOrderComplete(sources, units);
    JoinedOwned(sources, units, keys);
    hide KeyOf, KeyOrder, Joined, Newer;
    forall i, j | 0 <= i < j < |out| && KeyOf(sources, out[i]) == KeyOf(sources, out[j])
      ensures Newer(sources, out[i], out[j])
    {
      var s, t := JoinedPair(sources, units, keys, i, j);
    }
    forall i, j, k | 0 <= i < j < k < |out| && KeyOf(sources, out[i]) == KeyOf(sources, out[k])
      ensures KeyOf(sources, out[j]) == KeyOf(sources, out[i])
    {
      var s, t := JoinedPair(sources, units, keys, i, j);
      var u, v := JoinedPair(sources, units, keys, j, k);
    }
  }

  lemma AheadOf(sources: seq<SourceEntry>, units: seq<ContentUnit>, i: nat, j: nat) returns (p: nat)
    requires Owned(sources, units) && NewestFirst(sources, units) && i < j < |ByLocality(sources, units)|
    requires Owned(sources, ByLocality(sources, units))
    requires KeyOf(sources, ByLocality(sources, units)[i]) != KeyOf(sources, ByLocality(sources, units)[j])
    ensures Ahead(sources, ByLocality(sources, units), i, j, p)
  {
    var keys := KeyOrder(sources, units);
    var out := ByLocality(sources, units);
    hide KeyOf, KeyOrder, Joined, Newer;
    var s, t := JoinedPair(sources, units, keys, i, j);
    var x := FirstFile(sources, units, s, t);
    p := WrittenAt(sources, units, x);
    forall q | 0 <= q < |out| && KeyOf(sources, out[q]) == KeyOf(sources, out[j])
      ensures Newer(sources, out[p], out[q])
    {
      var y := SameUnits(sources, units, q);
    }
  }

  lemma GroupsInOrder(sources: seq<SourceEntry>, units: seq<ContentUnit>)
    requires Owned(sources, units) && NewestFirst(sources, units) && Owned(sources, ByLocality(sources, units))
    ensures GroupsOrdered(sources, ByLocality(sources, units))
  {
    hide ByLocality, KeyOf, NewestFirst, Ahead;
    var out := ByLocality(sources, units);
    forall i, j | 0 <= i < j < |out| && KeyOf(sources, out[i]) != KeyOf(sources, out[j])
      ensures exists p :: Ahead(sources, out, i, j, p)
    {
      var p := AheadOf(sources, units, i, j);
    }
  }

  // ----- small files -----

  lemma {:induction false} SmallFrom(units: seq<ContentUnit>, chunkSize: nat, i: nat) returns (x: nat)
    requires i < |SmallOf(units, chunkSize)|
    ensures x < |units| && units[x] == SmallOf(units, chunkSize)[i]
    decreases |units|
  {
    var front := units[..|units| - 1];
    if i < |SmallOf(front, chunkSize)| {
      x := SmallFrom(front, chunkSize, i);
    } else {
      x := |units| - 1;
    }
  }

  lemma {:induction false} LargeFrom(units: seq<ContentUnit>, chunkSize: nat, i: nat) returns (x: nat)
    requires i < |LargeOf(units, chunkSize)|
    ensures x < |units| && units[x] == LargeOf(units, chunkSize)[i]
    decreases |units|
  {
    var front := units[..|units| - 1];
    if i < |LargeOf(front, chunkSize)| {
      x := LargeFrom(front, chunkSize, i);
    } else {
      x := |units| - 1;
    }
  }

  lemma {:induction false} ClassesByRecency(sources: seq<SourceEntry>, units: seq<ContentUnit>, chunkSize: nat)
    requires Owned(sources, units) && NewestFirst(sources, units)
    ensures Owned(sources, SmallOf(units, chunkSize)) && NewestFirst(sources, SmallOf(units, chunkSize))
    ensures Owned(sources, LargeOf(units, chunkSize)) && NewestFirst(sources, LargeOf(units, chunkSize))
    decreases |units|
  {
    hide Newer;
    if units != [] {
      var front, last := units[..|units| - 1], units[|units| - 1];
      ClassesByRecency(sources, front, chunkSize);
      forall i | 0 <= i < |SmallOf(front, chunkSize)|
        ensures Newer(sources, SmallOf(front, chunkSize)[i], last)
      {
        var x := SmallFrom(front, chunkSize, i);
        assert units[x] == front[x];
      }
      forall i | 0 <= i < |LargeOf(front, chunkSize)|
        ensures Newer(sources, LargeOf(front, chunkSize)[i], last)
      {
        var x := LargeFrom(front, chunkSize, i);
        assert units[x] == front[x];
      }
    }
  }

  /** Large files are written newest first. */
  lemma LargeOrderMeaning(sources: seq<SourceEntry>, chunkSize: nat)
    ensures Owned(sources, LargeOrder(sources, chunkSize))
    ensures forall i, j :: 0 <= i < j < |LargeOrder(sources, chunkSize)| ==>
              var a, b := LargeOrder(sources, chunkSize)[i].owner, LargeOrder(sources, chunkSize)[j].owner;
              && sources[a].mtimeNanos >= sources[b].mtimeNanos
              && (sources[a].mtimeNanos == sources[b].mtimeNanos ==> a < b)
  {
    hide Units, LargeOf;
    UnitsOnce(sources);
    ClassesByRecency(sources, Units(sources), chunkSize);
    var large := LargeOf(Units(sources), chunkSize);
    assert forall i, j :: 0 <= i < j < |large| ==> Newer(sources, large[i], large[j]);
  }

  lemma SmallOrderGroups(sources: seq<SourceEntry>, chunkSize: nat)
    ensures Owned(sources, SmallOrder(sources, chunkSize))
    ensures multiset(SmallOrder(sources, chunkSize)) == multiset(SmallOf(Units(sources), chunkSize))
    ensures Adjacent(sources, SmallOrder(sources, chunkSize))
    ensures GroupsByRecency(sources, SmallOrder(sources, chunkSize))
    ensures GroupsOrdered(sources, SmallOrder(sources, chunkSize))
  {
    hide Units, SmallOf, ByLocality, KeyOf, NewestFirst, Adjacent, GroupsByRecency, GroupsOrdered, Owned;
    UnitsOnce(sources);
    ClassesByRecency(sources, Units(sources), chunkSize);
    SmallOwned(sources, chunkSize);
    var small := SmallOf(Units(sources), chunkSize);
    LocalityPermutes(sources, small);
    GroupsAdjacent(sources, small);
    GroupsInOrder(sources, small);
  }

  /** Two files share a directory and an extension. */
  predicate Alike(sources: seq<SourceEntry>, a: ContentUnit, b: ContentUnit)
    requires a.owner < |sources| && b.owner < |sources|
  {
    && sources[a.owner].parentIndex == sources[b.owner].parentIndex
    && Extension(sources[a.owner].name) == Extension(sources[b.owner].name)
  }

  /** The order small files are written in: each once, and those of one directory and
      extension adjacent. Within such a group the files the walk dates latest come
      first, and so do, between groups, those with the latest member. */
  lemma SmallOrderMeaning(sources: seq<SourceEntry>, chunkSize: nat)
    ensures Owned(sources, SmallOrder(sources, chunkSize))
    ensures multiset(SmallOrder(sources, chunkSize)) == multiset(SmallOf(Units(sources), chunkSize))
    ensures var out := SmallOrder(sources, chunkSize);
            forall i, j, k :: 0 <= i < j < k < |out| && Alike(sources, out[i], out[k]) ==> Alike(sources, out[i], out[j])
    ensures var out := SmallOrder(sources, chunkSize);
            forall i, j :: 0 <= i < j < |out| && Alike(sources, out[i], out[j]) ==>
              && sources[out[i].owner].mtimeNanos >= sources[out[j].owner].mtimeNanos
              && (sources[out[i].owner].mtimeNanos == sources[out[j].owner].mtimeNanos ==> out[i].owner < out[j].owner)
    ensures var out := SmallOrder(sources, chunkSize);
            forall i, j :: 0 <= i < j < |out| && !Alike(sources, out[i], out[j]) ==> exists p :: Foremost(sources, out, i, j, p)
  {
    SmallOrderGroups(sources, chunkSize);
    hide SmallOrder, Units, SmallOf, ExtensionAt;
    var out := SmallOrder(sources, chunkSize);
    forall i, j | 0 <= i < j < |out| && !Alike(sources, out[i], out[j])
      ensures exists p :: Foremost(sources, out, i, j, p)
    {
      var p :| Ahead(sources, out, i, j, p);
      assert Foremost(sources, out, i, j, p);
    }
  }

  /** Position p holds a file of i's group that the walk dates no earlier than any of
      j's group. */
  predicate Foremost(sources: seq<SourceEntry>, out: seq<ContentUnit>, i: nat, j: nat, p: nat)
    requires Owned(sources, out) && i < |out| && j < |out|
  {
    && p < |out| && Alike(sources, out[p], out[i])
    && forall q :: 0 <= q < |out| && Alike(sources, out[q], out[j]) ==>
                     sources[out[p].owner].mtimeNanos >= sources[out[q].owner].mtimeNanos
  }

  /** The first small file written is one the walk dates latest among all of them. */
  lemma NewestWrittenFirst(sources: seq<SourceEntry>, chunkSize: nat, i: nat)
    requires i < |sources| && Owns(sources, i) && sources[i].size <= chunkSize
    ensures SmallOrder(sources, chunkSize) != []
    ensures var first := SmallOrder(sources, chunkSize)[0].owner;
            && first < |sources| && Owns(sources, first) && sources[first].size <= chunkSize
            && sources[first].mtimeNanos >= sources[i].mtimeNanos
  {
    hide SmallOrder, LargeOrder, OnceEach, Owns, ExtensionAt;
    var out := SmallOrder(sources, chunkSize);
    var x := SmallAt(sources, chunkSize, i);
    FirstSmall(sources, chunkSize);
    SmallOrderMeaning(sources, chunkSize);
    if x > 0 && !Alike(sources, out[0], out[x]) {
      var p :| Foremost(sources, out, 0, x, p);
    }
  }

  lemma SmallAt(sources: seq<SourceEntry>, chunkSize: nat, i: nat) returns (x: nat)
    requires i < |sources| && Owns(sources, i) && sources[i].size <= chunkSize
    ensures x < |SmallOrder(sources, chunkSize)| && SmallOrder(sources, chunkSize)[x].owner == i
  {
    hide SmallOrder, LargeOrder, OnceEach, Owns;
    var small, large := SmallOrder(sources, chunkSize), LargeOrder(sources, chunkSize);
    OrderOnce(sources, chunkSize);
    Scheduled(sources, small + large, i);
    var k :| 0 <= k < |small + large| && (small + large)[k] == UnitOf(sources, i);
    x := k;
  }

  lemma FirstSmall(sources: seq<SourceEntry>, chunkSize: nat)
    requires SmallOrder(sources, chunkSize) != []
    ensures IsUnit(sources, SmallOrder(sources, chunkSize)[0]) && SmallOrder(sources, chunkSize)[0].size <= chunkSize
  {
    hide SmallOrder, LargeOrder, OnceEach;
    OrderOnce(sources, chunkSize);
    InOrder(sources, SmallOrder(sources, chunkSize) + LargeOrder(sources, chunkSize), 0);
  }

  // ----- extensions -----

  function Extension(name: Bytes): Bytes {
    ExtensionAt(name, |name|)
  }

  /** A name's extension is its longest suffix that starts with its last dot, or
      empty when there is none after the last slash. */
  lemma {:induction false} ExtensionMeaning(name: Bytes)
    ensures var e := Extension(name);
            && |e| <= |name| && name[|name| - |e|..] == e
            && (e == [] ==> forall i :: 0 <= i < |name| && name[i] == 46 ==> exists j :: i < j < |name| && name[j] == 47)
            && (e != [] ==> e[0] == 46 && forall i :: 0 < i < |e| ==> e[i] != 46 && e[i] != 47)
  {
    ExtensionUpTo(name, |name|);
  }

  lemma {:induction false} ExtensionUpTo(name: Bytes, n: nat)
    requires n <= |name| && forall i :: n <= i < |name| ==> name[i] != 46 && name[i] != 47
    ensures var e := ExtensionAt(name, n);
            && |e| <= |name| && name[|name| - |e|..] == e
            && (e == [] ==> forall i :: 0 <= i < |name| && name[i] == 46 ==> exists j :: i < j < |name| && name[j] == 47)
            && (e != [] ==> e[0] == 46 && forall i :: 0 < i < |e| ==> e[i] != 46 && e[i] != 47)
    decreases n
  {
    if n > 0 && name[n - 1] != 47 && name[n - 1] != 46 {
      ExtensionUpTo(name, n - 1);
    }
  }
}
