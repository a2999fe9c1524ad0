/**
Stable insertion sort, standing for the library sort the archive builder calls.
 */
module Sorting {

  /** Puts x after every element it does not come before. */
  function Insert<T>(before: (T, T) -> bool, s: seq<T>, x: T): (r: seq<T>)
    ensures |r| == |s| + 1
  {
    if s == [] || !before(x, s[|s| - 1]) then s + [x]
    else Insert(before, s[..|s| - 1], x) + [s[|s| - 1]]
  }

  function Sort<T>(before: (T, T) -> bool, s: seq<T>): (r: seq<T>)
    ensures |r| == |s|
  {
    if s == [] then [] else Insert(before, Sort(before, s[..|s| - 1]), s[|s| - 1])
  }

  /** No element comes before an earlier one. */
  predicate Sorted<T>(before: (T, T) -> bool, s: seq<T>) {
    forall i, j :: 0 <= i < j < |s| ==> !before(s[j], s[i])
  }

  /** before orders T up to ties. */
  ghost predicate StrictWeak<T(!new)>(before: (T, T) -> bool) {
    && (forall a: T, b: T :: before(a, b) ==> !before(b, a))
    && (forall a: T, b: T, c: T :: !before(a, b) && !before(b, c) ==> !before(a, c))
  }

  lemma SnocBag<T>(s: seq<T>, x: T)
    ensures multiset(s + [x]) == multiset(s) + multiset{x}
  {
  }

  lemma SnocCount<T>(s: seq<T>, x: T, y: T)
    ensures multiset(s + [x])[y] == multiset(s)[y] + if x == y then 1 else 0
  {
  }

  lemma {:induction false} InsertPermutes<T>(before: (T, T) -> bool, s: seq<T>, x: T)
    ensures multiset(Insert(before, s, x)) == multiset(s) + multiset{x}
    decreases |s|
  {
    if s != [] && before(x, s[|s| - 1]) {
      InsertPermutes(before, s[..|s| - 1], x);
      assert s == s[..|s| - 1] + [s[|s| - 1]];
    }
  }

  lemma {:induction false} SortPermutes<T>(before: (T, T) -> bool, s: seq<T>)
    ensures multiset(Sort(before, s)) == multiset(s)
    decreases |s|
  {
    if s != [] {
      SortPermutes(before, s[..|s| - 1]);
      InsertPermutes(before, Sort(before, s[..|s| - 1]), s[|s| - 1]);
      assert s == s[..|s| - 1] + [s[|s| - 1]];
    }
  }

  lemma {:induction false} InsertSorted<T(!new)>(before: (T, T) -> bool, s: seq<T>, x: T)
    requires StrictWeak(before) && Sorted(before, s)
    ensures Sorted(before, Insert(before, s, x))
    decreases |s|
  {
    if s != [] && before(x, s[|s| - 1]) {
      var front, last := s[..|s| - 1], s[|s| - 1];
      InsertSorted(before, front, x);
      InsertPermutes(before, front, x);
      var inner := Insert(before, front, x);
      forall i | 0 <= i < |inner|
        ensures !before(last, inner[i])
      {
        assert inner[i] in multiset(inner);
        assert inner[i] in multiset(front) || inner[i] == x;
      }
    }
  }

  lemma {:induction false} SortSorted<T(!new)>(before: (T, T) -> bool, s: seq<T>)
    requires StrictWeak(before)
    ensures Sorted(before, Sort(before, s))
    decreases |s|
  {
    if s != [] {
      SortSorted(before, s[..|s| - 1]);
      InsertSorted(before, Sort(before, s[..|s| - 1]), s[|s| - 1]);
    }
  }
}
