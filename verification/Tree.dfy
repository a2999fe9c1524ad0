/**
Depth-first entry tables (vcs/archive/validate.go, the ancestor-stack scan): a
parent column passes the scan exactly when it is the preorder listing of one
rooted tree, and that tree is unique.
 */
module Tree {
  import opened Basics

  /** The root is its own parent and every other entry names an earlier one. */
  predicate Parented(par: seq<nat>) {
    |par| > 0 && par[0] == 0 && forall i :: 0 < i < |par| ==> par[i] < i
  }

  /** Entry i is entry a or lies below it. */
  predicate Descends(par: seq<nat>, a: nat, i: nat)
    decreases i
  {
    a == i || (0 < i < |par| && par[i] < i && Descends(par, a, par[i]))
  }

  /** The entries from the root down to entry i. */
  function Ancestry(par: seq<nat>, i: nat): (path: seq<nat>)
    ensures |path| > 0 && path[|path| - 1] == i
    decreases i
  {
    if 0 < i < |par| && par[i] < i then Ancestry(par, par[i]) + [i] else [i]
  }

  /** Every subtree occupies a contiguous index interval. */
  ghost predicate Preorder(par: seq<nat>) {
    forall a, i, j :: 0 <= a <= i <= j < |par| && Descends(par, a, j) ==> Descends(par, a, i)
  }

  /** What the stack scan checks: an entry's parent is an open ancestor of the
      entry before it. */
  predicate ParentOpen(par: seq<nat>) {
    forall i :: 0 < i < |par| ==> Descends(par, par[i], i - 1)
  }

  lemma {:induction false} DescendsOrder(par: seq<nat>, a: nat, i: nat)
    requires Descends(par, a, i)
    ensures a <= i
    decreases i
  {
    if a != i {
      DescendsOrder(par, a, par[i]);
    }
  }

  lemma {:induction false} DescendsTransitive(par: seq<nat>, a: nat, b: nat, c: nat)
    requires Descends(par, a, b) && Descends(par, b, c)
    ensures Descends(par, a, c)
    decreases c
  {
    if b != c {
      DescendsTransitive(par, a, b, par[c]);
    }
  }

  // ----- the stack -----

  /** The stack holds exactly the ancestors of the latest entry. */
  lemma {:induction false} AncestryMembers(par: seq<nat>, i: nat, a: nat)
    ensures a in Ancestry(par, i) <==> Descends(par, a, i)
    decreases i
  {
    if 0 < i < |par| && par[i] < i {
      AncestryMembers(par, par[i], a);
    }
  }

  lemma {:induction false} AncestryPrefix(par: seq<nat>, i: nat, k: nat)
    requires k < |Ancestry(par, i)|
    ensures Ancestry(par, i)[..k + 1] == Ancestry(par, Ancestry(par, i)[k])
    decreases i
  {
    var path := Ancestry(par, i);
    if k == |path| - 1 {
      assert path[..k + 1] == path;
    } else {
      var up := Ancestry(par, par[i]);
      AncestryPrefix(par, par[i], k);
      assert path == up + [i];
      assert path[..k + 1] == up[..k + 1] && path[k] == up[k];
    }
  }

  /** Pops the stack down to a parent, emptying it when the parent is not on it. */
  method PopTo(ghost par: seq<nat>, ghost last: nat, stack: seq<nat>, parent: nat) returns (path: seq<nat>)
    requires stack == Ancestry(par, last)
    ensures path == [] <==> !Descends(par, parent, last)
    ensures path != [] ==> path == Ancestry(par, parent)
  {
    AncestryMembers(par, last, parent);
    path := stack;
    while |path| > 0 && path[|path| - 1] != parent
      invariant |path| <= |stack| && path == stack[..|path|]
      invariant parent !in stack[|path|..]
    {
      ghost var n := |path|;
      assert stack[n - 1..] == [stack[n - 1]] + stack[n..];
      path := path[..|path| - 1];
    }
    assert stack == stack[..|path|] + stack[|path|..];
    if path != [] {
      AncestryPrefix(par, last, |path| - 1);
      assert parent == stack[|path| - 1];
    }
  }

  // ----- the scan accepts exactly the preorder tables -----

  lemma {:induction false} OpenIsContiguous(par: seq<nat>, a: nat, i: nat, j: nat)
    requires Parented(par) && ParentOpen(par)
    requires a <= i <= j < |par| && Descends(par, a, j)
    ensures Descends(par, a, i)
    decreases j
  {
    if i < j {
      DescendsTransitive(par, a, par[j], j - 1);
      OpenIsContiguous(par, a, i, j - 1);
    }
  }

  lemma ScanIsPreorder(par: seq<nat>)
    requires Parented(par)
    ensures ParentOpen(par) <==> Preorder(par)
  {
    if ParentOpen(par) {
      forall a, i, j | 0 <= a <= i <= j < |par| && Descends(par, a, j)
        ensures Descends(par, a, i)
      {
        OpenIsContiguous(par, a, i, j);
      }
    }
    if Preorder(par) {
      forall i | 0 < i < |par|
        ensures Descends(par, par[i], i - 1)
      {
        assert Descends(par, par[i], i);
      }
    }
  }

  // ----- one rooted tree -----

  /** A forest in first-child, next-sibling form. */
  datatype Forest = Nil | Cons(children: Forest, siblings: Forest) {
    function Size(): nat {
      if Nil? then 0 else 1 + children.Size() + siblings.Size()
    }
  }

  /** The parent column of the forest listed in preorder from index at, with its
      roots under p. */
  function Listing(f: Forest, at: nat, p: nat): (par: seq<nat>)
    ensures |par| == f.Size()
  {
    if f.Nil? then []
    else [p] + Listing(f.children, at + 1, at) + Listing(f.siblings, at + 1 + f.children.Size(), p)
  }

  /** par is the listing of a tree with one root. */
  ghost predicate ListsTree(par: seq<nat>, t: Forest) {
    t.Cons? && t.siblings.Nil? && par == Listing(t, 0, 0)
  }

  /** Every entry of the segment [lo, hi) hangs under p or inside the segment. */
  predicate Segment(par: seq<nat>, lo: nat, hi: nat, p: nat) {
    && p < lo <= hi <= |par|
    && forall k :: lo <= k < hi ==> par[k] == p || lo <= par[k] < k
  }

  /** Where the first tree of the segment ends: the next entry under p. */
  function FirstEnd(par: seq<nat>, lo: nat, hi: nat, p: nat): (mid: nat)
    requires lo <= hi <= |par|
    ensures lo <= mid <= hi
    ensures forall k :: lo <= k < mid ==> par[k] != p
    ensures mid < hi ==> par[mid] == p
    decreases hi - lo
  {
    if lo == hi || par[lo] == p then lo else FirstEnd(par, lo + 1, hi, p)
  }

  lemma RestOfSegment(par: seq<nat>, lo: nat, mid: nat, hi: nat, p: nat)
    requires Parented(par) && Preorder(par)
    requires Segment(par, lo, hi, p) && lo < mid <= hi
    requires mid < hi ==> par[mid] == p
    ensures Segment(par, mid, hi, p)
  {
    forall k | mid <= k < hi
      ensures par[k] == p || mid <= par[k] < k
    {
      var a := par[k];
      if a != p && a < mid {
        assert Descends(par, a, k);
        assert Descends(par, a, mid);
        DescendsOrder(par, a, p);
      }
    }
  }

  lemma ListingCons(children: Forest, siblings: Forest, at: nat, p: nat)
    ensures Listing(Cons(children, siblings), at, p) ==
            [p] + Listing(children, at + 1, at) + Listing(siblings, at + 1 + children.Size(), p)
  {
    var f := Cons(children, siblings);
    assert f.children == children && f.siblings == siblings;
  }

  lemma {:induction false} ForestOf(par: seq<nat>, lo: nat, hi: nat, p: nat) returns (f: Forest)
    requires Parented(par) && Preorder(par) && Segment(par, lo, hi, p)
    ensures par[lo..hi] == Listing(f, lo, p)
    decreases hi - lo
  {
    hide Preorder, Descends, Parented, Listing;
    if lo == hi {
      f := Nil;
      ListingNil(lo, p);
    } else {
      var mid := FirstEnd(par, lo + 1, hi, p);
      FirstTree(par, lo, mid, hi, p);
      RestOfSegment(par, lo, mid, hi, p);
      hide Segment, FirstEnd;
      var children := ForestOf(par, lo + 1, mid, lo);
      var siblings := ForestOf(par, mid, hi, p);
      f := Cons(children, siblings);
      assert |par[lo + 1..mid]| == children.Size();
      ListingCons(children, siblings, lo, p);
      JoinSlices(par, lo, mid, hi);
    }
  }

  lemma ListingNil(at: nat, p: nat)
    ensures Listing(Nil, at, p) == []
  {
  }

  /** The first entry of a segment is under p, and what follows it up to the next
      entry under p is inside it. */
  lemma FirstTree(par: seq<nat>, lo: nat, mid: nat, hi: nat, p: nat)
    requires Segment(par, lo, hi, p) && lo < hi && mid == FirstEnd(par, lo + 1, hi, p)
    ensures par[lo] == p && lo < mid <= hi <= |par| && Segment(par, lo + 1, mid, lo)
    ensures mid < hi ==> par[mid] == p
  {
  }

  lemma ListingPlaced(par: seq<nat>, f: Forest, lo: nat, p: nat)
    requires f.Cons? && lo + f.Size() <= |par| && par[lo..lo + f.Size()] == Listing(f, lo, p)
    ensures var mid := lo + 1 + f.children.Size();
            && par[lo] == p
            && par[lo + 1..mid] == Listing(f.children, lo + 1, lo)
            && par[mid..lo + f.Size()] == Listing(f.siblings, mid, p)
  {
    assert Listing(f, lo, p) ==
           [p] + Listing(f.children, lo + 1, lo) + Listing(f.siblings, lo + 1 + f.children.Size(), p);
    hide Listing;
    var hi, c := lo + f.Size(), f.children.Size();
    ThreeParts([p], Listing(f.children, lo + 1, lo), Listing(f.siblings, lo + 1 + c, p));
    assert par[lo..hi][0] == p;
    SliceOfSlice(par, lo, hi, 1, 1 + c);
    SliceOfSlice(par, lo, hi, 1 + c, f.Size());
  }

  /** Everything listed under p descends from it. */
  lemma {:induction false} ListingUnder(par: seq<nat>, f: Forest, lo: nat, p: nat, k: nat)
    requires p < lo && lo + f.Size() <= |par| && par[lo..lo + f.Size()] == Listing(f, lo, p)
    requires lo <= k < lo + f.Size()
    ensures Descends(par, p, k)
    decreases f
  {
    var mid := lo + 1 + f.children.Size();
    ListingPlaced(par, f, lo, p);
    if lo < k < mid {
      ListingUnder(par, f.children, lo + 1, lo, k);
      assert Descends(par, p, lo);
      DescendsTransitive(par, p, lo, k);
    } else if mid <= k {
      ListingUnder(par, f.siblings, mid, p, k);
    } else {
      assert Descends(par, p, p);
    }
  }

  /** Listed entries are open when they are reached. */
  lemma {:induction false} ListingOpen(par: seq<nat>, f: Forest, lo: nat, p: nat, k: nat)
    requires p < lo && lo + f.Size() <= |par| && par[lo..lo + f.Size()] == Listing(f, lo, p)
    requires Descends(par, p, lo - 1)
    requires lo <= k < lo + f.Size()
    ensures par[k] < k && Descends(par, par[k], k - 1)
    decreases f
  {
    hide Listing;
    var mid := lo + 1 + f.children.Size();
    ListingPlaced(par, f, lo, p);
    if lo < k < mid {
      ListingOpen(par, f.children, lo + 1, lo, k);
    } else if mid <= k {
      ListingUnder(par, f, lo, p, mid - 1);
      ListingOpen(par, f.siblings, mid, p, k);
    }
  }

  lemma ListingAccepted(par: seq<nat>, t: Forest)
    requires ListsTree(par, t)
    ensures Parented(par) && ParentOpen(par)
  {
    var c := t.children;
    assert par[0] == 0;
    assert par[1..1 + c.Size()] == Listing(c, 1, 0);
    forall k | 0 < k < |par|
      ensures par[k] < k && Descends(par, par[k], k - 1)
    {
      ListingOpen(par, c, 1, 0, k);
    }
  }

  /** Every listed parent other than p lies inside the listing. */
  lemma {:induction false} ListingRange(f: Forest, at: nat, p: nat, k: nat)
    requires p < at && k < f.Size()
    ensures Listing(f, at, p)[k] == p || Listing(f, at, p)[k] >= at
    decreases f
  {
    var c := f.children.Size();
    if 0 < k < 1 + c {
      ListingRange(f.children, at + 1, at, k - 1);
    } else if 1 + c <= k {
      ListingRange(f.siblings, at + 1 + c, p, k - 1 - c);
    }
  }

  lemma ChildrenSizeBounded(f: Forest, g: Forest, at: nat, p: nat)
    requires p < at && f.Cons? && g.Cons?
    requires Listing(f, at, p) == Listing(g, at, p)
    ensures f.children.Size() >= g.children.Size()
  {
    hide Listing;
    if f.children.Size() < g.children.Size() {
      FirstSibling(f, at, p);
      ChildRange(g, at, p, f.children.Size());
    }
  }

  lemma ChildRange(f: Forest, at: nat, p: nat, k: nat)
    requires f.Cons? && k < f.children.Size()
    ensures Listing(f, at, p)[1 + k] >= at
  {
    var children := Listing(f.children, at + 1, at);
    ListingRange(f.children, at + 1, at, k);
    ThreeParts([p], children, Listing(f.siblings, at + 1 + f.children.Size(), p));
    assert Listing(f, at, p)[1..1 + f.children.Size()][k] == children[k];
  }

  lemma FirstSibling(f: Forest, at: nat, p: nat)
    requires f.Cons? && 1 + f.children.Size() < f.Size()
    ensures Listing(f, at, p)[1 + f.children.Size()] == p
  {
    var c := f.children.Size();
    ThreeParts([p], Listing(f.children, at + 1, at), Listing(f.siblings, at + 1 + c, p));
    assert Listing(f, at, p)[1 + c..][0] == p;
  }

  /** A listing determines its forest. */
  lemma {:induction false} ListingUnique(f: Forest, g: Forest, at: nat, p: nat)
    requires p < at && Listing(f, at, p) == Listing(g, at, p)
    ensures f == g
    decreases f
  {
    if f.Cons? {
      assert |Listing(g, at, p)| > 0;
      ChildrenSizeBounded(f, g, at, p);
      ChildrenSizeBounded(g, f, at, p);
      var c := f.children.Size();
      SplitEqual([p] + Listing(f.children, at + 1, at), Listing(f.siblings, at + 1 + c, p),
                 [p] + Listing(g.children, at + 1, at), Listing(g.siblings, at + 1 + c, p));
      SplitEqual([p], Listing(f.children, at + 1, at), [p], Listing(g.children, at + 1, at));
      ListingUnique(f.children, g.children, at + 1, at);
      ListingUnique(f.siblings, g.siblings, at + 1 + c, p);
    } else {
      assert |Listing(g, at, p)| == 0;
    }
  }

  /** The scan accepts a parent column exactly when it lists a rooted tree. */
  lemma ScanAcceptsTrees(par: seq<nat>)
    ensures Parented(par) && ParentOpen(par) <==> exists t :: ListsTree(par, t)
  {
    if Parented(par) && ParentOpen(par) {
      ScanIsPreorder(par);
      var children := ForestOf(par, 1, |par|, 0);
      assert par == [0] + par[1..|par|] + [];
      assert ListsTree(par, Cons(children, Nil));
    }
    if exists t :: ListsTree(par, t) {
      var t :| ListsTree(par, t);
      ListingAccepted(par, t);
    }
  }

  /** A table lists at most one tree. */
  lemma TreeUnique(par: seq<nat>, t: Forest, u: Forest)
    requires ListsTree(par, t) && ListsTree(par, u)
    ensures t == u
  {
    var a, b := Listing(t.children, 1, 0), Listing(u.children, 1, 0);
    assert par == [0] + a && par == [0] + b;
    SplitEqual([0], a, [0], b);
    ListingUnique(t.children, u.children, 1, 0);
  }
}
