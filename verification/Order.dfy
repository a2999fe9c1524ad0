/**
The order content is written in (contentUnits, writeContent and groupByLocality
of vcs/archive/build.go): every distinct inode with bytes exactly once, recent
first, small files before large ones and grouped by directory and extension.
 */
module Order {
  import opened Basics
  import opened Manifest
  import opened Sorting
  import opened Source

  /** One distinct inode with bytes to store. */
  datatype ContentUnit = ContentUnit(owner: nat, mtime: i64, size: u64)

  /** Recently modified first, table order between equals. */
  predicate MoreRecent(a: ContentUnit, b: ContentUnit) {
    if a.mtime != b.mtime then a.mtime > b.mtime else a.owner < b.owner
  }

  /** Entry i owns bytes: it has content and is no later link to another entry. */
  predicate Owns(sources: seq<SourceEntry>, i: nat)
    requires i < |sources|
  {
    sources[i].HasContent() && Owner(sources, i) == i
  }

  function UnitOf(sources: seq<SourceEntry>, i: nat): ContentUnit
    requires i < |sources|
  {
    ContentUnit(i, sources[i].mtimeNanos, sources[i].size)
  }

  predicate IsUnit(sources: seq<SourceEntry>, u: ContentUnit) {
    u.owner < |sources| && Owns(sources, u.owner) && u == UnitOf(sources, u.owner)
  }

  /** The units among the first n entries, in table order. */
  function UnitsBefore(sources: seq<SourceEntry>, n: nat): seq<ContentUnit>
    requires n <= |sources|
  {
    if n == 0 then []
    else UnitsBefore(sources, n - 1) + if Owns(sources, n - 1) then [UnitOf(sources, n - 1)] else []
  }

  function Units(sources: seq<SourceEntry>): seq<ContentUnit> {
    Sort(MoreRecent, UnitsBefore(sources, |sources|))
  }

  /** A bag that holds every unit of the walk once and nothing else. */
  ghost predicate OnceEach(sources: seq<SourceEntry>, bag: multiset<ContentUnit>) {
    forall u: ContentUnit :: bag[u] == if IsUnit(sources, u) then 1 else 0
  }

  lemma LastUnit(sources: seq<SourceEntry>, i: nat, u: ContentUnit)
    requires i < |sources|
    ensures u == UnitOf(sources, i) ==> u.owner == i && (IsUnit(sources, u) <==> Owns(sources, i))
    ensures u != UnitOf(sources, i) && u.owner == i ==> !IsUnit(sources, u)
  {
  }

  lemma {:induction false} UnitsBeforeOnce(sources: seq<SourceEntry>, n: nat, u: ContentUnit)
    requires n <= |sources|
    ensures multiset(UnitsBefore(sources, n))[u] == if u.owner < n && IsUnit(sources, u) then 1 else 0
    decreases n
  {
    if n > 0 {
      LastUnit(sources, n - 1, u);
      hide Owns, IsUnit, UnitOf;
      UnitsBeforeOnce(sources, n - 1, u);
      SnocCount(UnitsBefore(sources, n - 1), UnitOf(sources, n - 1), u);
    }
  }

  /** The walk dates a's file later than b's, or alike and lists it earlier. */
  predicate Newer(sources: seq<SourceEntry>, a: ContentUnit, b: ContentUnit)
    requires a.owner < |sources| && b.owner < |sources|
  {
    || sources[a.owner].mtimeNanos > sources[b.owner].mtimeNanos
    || (sources[a.owner].mtimeNanos == sources[b.owner].mtimeNanos && a.owner < b.owner)
  }

  predicate NewestFirst(sources: seq<SourceEntry>, units: seq<ContentUnit>)
    requires Owned(sources, units)
  {
    forall i, j :: 0 <= i < j < |units| ==> Newer(sources, units[i], units[j])
  }

  /** The units are the distinct inodes with bytes. Those the walk dates latest come
      first; of two dated alike, the one listed first. */
  lemma UnitsOnce(sources: seq<SourceEntry>)
    ensures OnceEach(sources, multiset(Units(sources)))
    ensures Owned(sources, Units(sources)) && NewestFirst(sources, Units(sources))
    ensures forall i, j :: 0 <= i < j < |Units(sources)| ==>
              var a, b := Units(sources)[i].owner, Units(sources)[j].owner;
              && sources[a].mtimeNanos >= sources[b].mtimeNanos
              && (sources[a].mtimeNanos == sources[b].mtimeNanos ==> a < b)
  {
    UnitsSorted(sources);
    var units := Units(sources);
    hide Units;
    forall i | 0 <= i < |units|
      ensures IsUnit(sources, units[i])
    {
      InOrder(sources, units, i);
    }
    forall i, j | 0 <= i < j < |units|
      ensures Newer(sources, units[i], units[j])
    {
      NoRepeat(sources, units, i, j);
      assert !MoreRecent(units[j], units[i]);
    }
  }

  lemma UnitsSorted(sources: seq<SourceEntry>)
    ensures OnceEach(sources, multiset(Units(sources)))
    ensures Sorted(MoreRecent, Units(sources))
  {
    SortPermutes(MoreRecent, UnitsBefore(sources, |sources|));
    SortSorted(MoreRecent, UnitsBefore(sources, |sources|));
    forall u: ContentUnit
      ensures multiset(Units(sources))[u] == if IsUnit(sources, u) then 1 else 0
    {
      UnitsBeforeOnce(sources, |sources|, u);
    }
  }

  // ----- small and large -----

  function SmallOf(units: seq<ContentUnit>, chunkSize: nat): seq<ContentUnit> {
    if units == [] then []
    else
      var last := units[|units| - 1];
      SmallOf(units[..|units| - 1], chunkSize) + if last.size <= chunkSize then [last] else []
  }

  function LargeOf(units: seq<ContentUnit>, chunkSize: nat): seq<ContentUnit> {
    if units == [] then []
    else
      var last := units[|units| - 1];
      LargeOf(units[..|units| - 1], chunkSize) + if last.size <= chunkSize then [] else [last]
  }

  lemma {:induction false} ClassesSplit(units: seq<ContentUnit>, chunkSize: nat)
    ensures multiset(SmallOf(units, chunkSize)) + multiset(LargeOf(units, chunkSize)) == multiset(units)
    decreases |units|
  {
    if units != [] {
      var front, last := units[..|units| - 1], units[|units| - 1];
      ClassesSplit(front, chunkSize);
      SnocBag(front, last);
      assert units == front + [last];
      SnocBag(SmallOf(front, chunkSize), last);
      SnocBag(LargeOf(front, chunkSize), last);
    }
  }

  lemma {:induction false} ClassSizes(units: seq<ContentUnit>, chunkSize: nat)
    ensures forall i :: 0 <= i < |SmallOf(units, chunkSize)| ==> SmallOf(units, chunkSize)[i].size <= chunkSize
    ensures forall i :: 0 <= i < |LargeOf(units, chunkSize)| ==> LargeOf(units, chunkSize)[i].size > chunkSize
    decreases |units|
  {
    if units != [] {
      ClassSizes(units[..|units| - 1], chunkSize);
    }
  }

  // ----- locality -----

  datatype LocalityKey = LocalityKey(parent: u32, extension: Bytes)

  /** The suffix from the last dot of a name's last path element. */
  function ExtensionAt(name: Bytes, n: nat): Bytes
    requires n <= |name|
  {
    if n == 0 || name[n - 1] == '/' as int then []
    else if name[n - 1] == '.' as int then name[n - 1..]
    else ExtensionAt(name, n - 1)
  }

  function KeyOf(sources: seq<SourceEntry>, u: ContentUnit): LocalityKey
    requires u.owner < |sources|
  {
    LocalityKey(sources[u.owner].parentIndex, ExtensionAt(sources[u.owner].name, |sources[u.owner].name|))
  }

  predicate Owned(sources: seq<SourceEntry>, units: seq<ContentUnit>) {
    forall i :: 0 <= i < |units| ==> units[i].owner < |sources|
  }

  /** The keys in the order their first unit appears. */
  function KeyOrder(sources: seq<SourceEntry>, units: seq<ContentUnit>): seq<LocalityKey>
    requires Owned(sources, units)
  {
    if units == [] then []
    else
      var keys := KeyOrder(sources, units[..|units| - 1]);
      var key := KeyOf(sources, units[|units| - 1]);
      if key in keys then keys else keys + [key]
  }

  /** The units with one key, in order. */
  function Members(sources: seq<SourceEntry>, units: seq<ContentUnit>, key: LocalityKey): seq<ContentUnit>
    requires Owned(sources, units)
  {
    if units == [] then []
    else
      var last := units[|units| - 1];
      Members(sources, units[..|units| - 1], key) + if KeyOf(sources, last) == key then [last] else []
  }

  /** The groups of the given keys, one after the other. */
  function Joined(sources: seq<SourceEntry>, units: seq<ContentUnit>, keys: seq<LocalityKey>): seq<ContentUnit>
    requires Owned(sources, units)
  {
    if keys == [] then []
    else Joined(sources, units, keys[..|keys| - 1]) + Members(sources, units, keys[|keys| - 1])
  }

  function ByLocality(sources: seq<SourceEntry>, units: seq<ContentUnit>): seq<ContentUnit>
    requires Owned(sources, units)
  {
    Joined(sources, units, KeyOrder(sources, units))
  }

  predicate Distinct(keys: seq<LocalityKey>) {
    forall i, j :: 0 <= i < j < |keys| ==> keys[i] != keys[j]
  }

  lemma {:induction false} KeyOrderComplete(sources: seq<SourceEntry>, units: seq<ContentUnit>)
    requires Owned(sources, units)
    ensures Distinct(KeyOrder(sources, units))
    ensures forall i :: 0 <= i < |units| ==> KeyOf(sources, units[i]) in KeyOrder(sources, units)
    decreases |units|
  {
    hide KeyOf;
    if units != [] {
      var front := units[..|units| - 1];
      KeyOrderComplete(sources, front);
      assert forall i :: 0 <= i < |front| ==> front[i] == units[i];
    }
  }

  lemma {:induction false} MembersCount(sources: seq<SourceEntry>, units: seq<ContentUnit>, key: LocalityKey, u: ContentUnit)
    requires Owned(sources, units) && u.owner < |sources|
    ensures multiset(Members(sources, units, key))[u] == if KeyOf(sources, u) == key then multiset(units)[u] else 0
    decreases |units|
  {
    hide KeyOf;
    if units != [] {
      MembersCount(sources, units[..|units| - 1], key, u);
      assert units == units[..|units| - 1] + [units[|units| - 1]];
    }
  }

  lemma {:induction false} JoinedCount(sources: seq<SourceEntry>, units: seq<ContentUnit>, keys: seq<LocalityKey>, u: ContentUnit)
    requires Owned(sources, units) && Distinct(keys) && u.owner < |sources|
    ensures multiset(Joined(sources, units, keys))[u] == if KeyOf(sources, u) in keys then multiset(units)[u] else 0
    decreases |keys|
  {
    hide KeyOf, Members;
    if keys != [] {
      var front, last := keys[..|keys| - 1], keys[|keys| - 1];
      JoinedCount(sources, units, front, u);
      MembersCount(sources, units, last, u);
      assert keys == front + [last];
      assert last !in front;
    }
  }

  lemma {:induction false} JoinedOwned(sources: seq<SourceEntry>, units: seq<ContentUnit>, keys: seq<LocalityKey>)
    requires Owned(sources, units)
    ensures Owned(sources, Joined(sources, units, keys))
    decreases |keys|
  {
    if keys != [] {
      JoinedOwned(sources, units, keys[..|keys| - 1]);
      MembersOwned(sources, units, keys[|keys| - 1]);
    }
  }

  lemma {:induction false} MembersOwned(sources: seq<SourceEntry>, units: seq<ContentUnit>, key: LocalityKey)
    requires Owned(sources, units)
    ensures Owned(sources, Members(sources, units, key))
    ensures forall i :: 0 <= i < |Members(sources, units, key)| ==>
              Members(sources, units, key)[i].owner < |sources| && KeyOf(sources, Members(sources, units, key)[i]) == key
    decreases |units|
  {
    hide KeyOf;
    if units != [] {
      MembersOwned(sources, units[..|units| - 1], key);
    }
  }

  /** Grouping by locality reorders the units: none is lost, none repeated. */
  lemma LocalityPermutes(sources: seq<SourceEntry>, units: seq<ContentUnit>)
    requires Owned(sources, units)
    ensures multiset(ByLocality(sources, units)) == multiset(units)
  {
    hide KeyOrder, Joined, KeyOf;
    KeyOrderComplete(sources, units);
    var keys := KeyOrder(sources, units);
    JoinedOwned(sources, units, keys);
    forall u: ContentUnit
      ensures multiset(Joined(sources, units, keys))[u] == multiset(units)[u]
    {
      if u.owner < |sources| {
        JoinedCount(sources, units, keys, u);
        if u in units {
          var i :| 0 <= i < |units| && units[i] == u;
          assert KeyOf(sources, units[i]) in keys;
        }
      } else {
        NotOwned(sources, units, u);
        NotOwned(sources, Joined(sources, units, keys), u);
      }
    }
    assert multiset(Joined(sources, units, keys)) == multiset(units);
  }

  lemma NotOwned(sources: seq<SourceEntry>, units: seq<ContentUnit>, u: ContentUnit)
    requires Owned(sources, units) && u.owner >= |sources|
    ensures multiset(units)[u] == 0
  {
    assert u !in units;
  }

  // ----- the whole order -----

  lemma SmallOwned(sources: seq<SourceEntry>, chunkSize: nat)
    ensures Owned(sources, SmallOf(Units(sources), chunkSize))
  {
    hide Units, SmallOf, LargeOf;
    var units, small := Units(sources), SmallOf(Units(sources), chunkSize);
    UnitsOnce(sources);
    ClassesSplit(units, chunkSize);
    forall i | 0 <= i < |small|
      ensures small[i].owner < |sources|
    {
      assert small[i] in multiset(small);
      assert small[i] in multiset(units);
    }
  }

  /** Small files in the order they are written. */
  function SmallOrder(sources: seq<SourceEntry>, chunkSize: nat): seq<ContentUnit> {
    SmallOwned(sources, chunkSize);
    ByLocality(sources, SmallOf(Units(sources), chunkSize))
  }

  function LargeOrder(sources: seq<SourceEntry>, chunkSize: nat): seq<ContentUnit> {
    LargeOf(Units(sources), chunkSize)
  }

  /** Small and large files together are every unit once, each in its class. */
  lemma OrderOnce(sources: seq<SourceEntry>, chunkSize: nat)
    ensures OnceEach(sources, multiset(SmallOrder(sources, chunkSize) + LargeOrder(sources, chunkSize)))
    ensures forall i :: 0 <= i < |SmallOrder(sources, chunkSize)| ==> SmallOrder(sources, chunkSize)[i].size <= chunkSize
    ensures forall i :: 0 <= i < |LargeOrder(sources, chunkSize)| ==> LargeOrder(sources, chunkSize)[i].size > chunkSize
  {
    hide Units, SmallOf, LargeOf, ByLocality;
    var units, small := Units(sources), SmallOf(Units(sources), chunkSize);
    UnitsOnce(sources);
    ClassesSplit(units, chunkSize);
    ClassSizes(units, chunkSize);
    SmallOwned(sources, chunkSize);
    LocalityPermutes(sources, small);
    var order := ByLocality(sources, small);
    forall i | 0 <= i < |order|
      ensures order[i].size <= chunkSize
    {
      assert order[i] in multiset(order);
      assert order[i] in multiset(small);
      var j :| 0 <= j < |small| && small[j] == order[i];
    }
    assert multiset(order + LargeOf(units, chunkSize)) == multiset(units);
  }

  /** A unit written earlier is not written again. */
  lemma NoRepeat(sources: seq<SourceEntry>, order: seq<ContentUnit>, i: nat, j: nat)
    requires OnceEach(sources, multiset(order)) && i < j < |order|
    ensures order[i].owner != order[j].owner
  {
    assert order == order[..j] + order[j..];
    assert order[i] in multiset(order[..j]) && order[j] in multiset(order[j..]);
    assert order[i] in multiset(order) && order[j] in multiset(order);
    assert multiset(order)[order[i]] == multiset(order[..j])[order[i]] + multiset(order[j..])[order[i]];
  }

  lemma InOrder(sources: seq<SourceEntry>, order: seq<ContentUnit>, i: nat)
    requires OnceEach(sources, multiset(order)) && i < |order|
    ensures IsUnit(sources, order[i])
  {
    assert order[i] in multiset(order);
  }

  lemma Scheduled(sources: seq<SourceEntry>, order: seq<ContentUnit>, i: nat)
    requires OnceEach(sources, multiset(order)) && i < |sources| && Owns(sources, i)
    ensures UnitOf(sources, i) in order
  {
    assert UnitOf(sources, i) in multiset(order);
  }
}
