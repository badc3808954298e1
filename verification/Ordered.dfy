/** Ascending lists of naturals, as produced by sorting a set. */
module Ordered {

  ghost predicate Ascending(s: seq<nat>)
  {
    forall i, j | 0 <= i < j < |s| :: s[i] < s[j]
  }

  ghost predicate Distinct(s: seq<nat>)
  {
    forall i, j | 0 <= i < j < |s| :: s[i] != s[j]
  }

  lemma {:induction false} LeastExists(s: set<nat>, m: nat)
    requires m in s
    ensures exists l :: l in s && forall x | x in s :: l <= x
    decreases m
  {
    if x :| x in s && x < m {
      LeastExists(s, x);
    }
  }

  function Least(s: set<nat>): (m: nat)
    requires s != {}
    ensures m in s && forall x | x in s :: m <= x
  {
    assert exists l :: l in s && forall x | x in s :: l <= x by {
      var x :| x in s;
      LeastExists(s, x);
    }
    var m :| m in s && forall x | x in s :: m <= x;
    m
  }

  /** The elements of s in ascending order. */
  function Sorted(s: set<nat>): (r: seq<nat>)
    ensures Ascending(r)
    ensures |r| == |s|
    ensures forall x :: x in r <==> x in s
    decreases s
  {
    if s == {} then [] else
      var m := Least(s);
      [m] + Sorted(s - {m})
  }

  function Elements(s: seq<nat>): set<nat> { set x | x in s }

  lemma MemberOrEmpty(s: seq<nat>)
    ensures s == [] || s[0] in s
  {
  }

  ghost predicate Lists(r: seq<nat>, s: set<nat>)
  {
    Ascending(r) && forall x :: x in r <==> x in s
  }

  lemma FirstIsLeast(r: seq<nat>, s: set<nat>)
    requires Lists(r, s) && r != []
    ensures s != {} && Least(s) == r[0]
  {
    assert r[0] in r;
    var m := Least(s);
    assert m in r;
    var i :| 0 <= i < |r| && r[i] == m;
  }

  lemma TailLists(r: seq<nat>, s: set<nat>)
    requires Lists(r, s) && r != []
    ensures Lists(r[1..], s - {r[0]})
  {
    forall x ensures x in r[1..] <==> x in s - {r[0]} {
      if x in s - {r[0]} {
        assert x in r;
        var i :| 0 <= i < |r| && r[i] == x;
        assert r[1..][i - 1] == x;
      }
    }
  }

  lemma SortedStep(s: set<nat>)
    requires s != {}
    ensures Sorted(s) == [Least(s)] + Sorted(s - {Least(s)})
  {
  }

  lemma ListsEmpty(s: set<nat>)
    requires Lists([], s)
    ensures Sorted(s) == []
  {
    forall x ensures x !in s {
      assert x in s <==> x in [];
    }
  }

  /** An ascending list is determined by its elements. */
  lemma {:induction false} ListsIsSorted(r: seq<nat>, s: set<nat>)
    requires Lists(r, s)
    ensures r == Sorted(s)
    decreases |r|
  {
    if r == [] {
      ListsEmpty(s);
    } else {
      FirstIsLeast(r, s);
      TailLists(r, s);
      ListsIsSorted(r[1..], s - {r[0]});
      SortedStep(s);
    }
  }

  lemma SortedUnique(r: seq<nat>)
    requires Ascending(r)
    ensures r == Sorted(Elements(r))
  {
    ListsIsSorted(r, Elements(r));
  }

  /** An ascending list is determined by its elements. */
  lemma SameElements(a: seq<nat>, b: seq<nat>)
    requires Ascending(a) && Ascending(b) && forall x: nat :: x in a <==> x in b
    ensures a == b
  {
    SortedUnique(a);
    SortedUnique(b);
    assert Elements(a) == Elements(b);
  }

  lemma AscendingDistinct(r: seq<nat>)
    requires Ascending(r)
    ensures |Elements(r)| == |r|
  {
    SortedUnique(r);
  }

  lemma AscendingAppend(r: seq<nat>, x: nat)
    requires Ascending(r) && forall y | y in r :: y < x
    ensures Ascending(r + [x]) && Elements(r + [x]) == Elements(r) + {x}
  {
    forall i | 0 <= i < |r| ensures r[i] < x {
      assert r[i] in r;
    }
  }

  lemma SortedAppend(s: set<nat>, x: nat)
    requires forall y | y in s :: y < x
    ensures Sorted(s + {x}) == Sorted(s) + [x]
  {
    AscendingAppend(Sorted(s), x);
    assert Elements(Sorted(s)) == s;
    SortedUnique(Sorted(s) + [x]);
  }
}
