/** How many vectors the odometer runs through when all wheels have the same slack. */
module Combinations {
  import opened Odometer

  /** The number of k-element subsets of an m-element set. */
  function Choose(m: nat, k: nat): nat
  {
    if k == 0 then 1 else if m == 0 then 0 else Choose(m - 1, k - 1) + Choose(m - 1, k)
  }

  lemma {:induction false} ChooseAll(m: nat, k: nat)
    requires m <= k
    ensures Choose(m, k) == if m == k then 1 else 0
    decreases m
  {
    if m > 0 {
      ChooseAll(m - 1, k - 1);
      ChooseAll(m - 1, k);
    }
  }

  /** The non-decreasing vectors of length n with entries up to top. */
  function Rises(n: nat, top: nat): set<seq<nat>>
    decreases n, top
  {
    if n == 0 then {[]}
    else Ending(n, top) + if top == 0 then {} else Rises(n, top - 1)
  }

  /** Those that end in top. */
  function Ending(n: nat, top: nat): set<seq<nat>>
    requires 0 < n
    decreases n, top, 0
  {
    Extended(Rises(n - 1, top), top)
  }

  function Extended(a: set<seq<nat>>, top: nat): set<seq<nat>>
  {
    set s | s in a :: s + [top]
  }

  ghost predicate IsRise(s: seq<nat>, n: nat, top: nat)
  {
    |s| == n && NonDecreasing(s) && forall i | 0 <= i < n :: s[i] <= top
  }

  lemma {:induction false} RisesExact(n: nat, top: nat, s: seq<nat>)
    ensures s in Rises(n, top) <==> IsRise(s, n, top)
    decreases n, top
  {
    if n > 0 {
      EndingExact(n, top, s);
      if top > 0 {
        RisesExact(n, top - 1, s);
      }
      if IsRise(s, n, top) && s[n - 1] < top {
        forall i | 0 <= i < n ensures s[i] <= top - 1 {
          RiseSorted(s, i, n - 1);
        }
      }
    }
  }

  lemma {:induction false} RiseSorted(s: seq<nat>, i: nat, j: nat)
    requires NonDecreasing(s) && i <= j < |s|
    ensures s[i] <= s[j]
    decreases j
  {
    if i < j {
      RiseSorted(s, i, j - 1);
    }
  }

  lemma {:induction false} EndingExact(n: nat, top: nat, s: seq<nat>)
    requires 0 < n
    ensures s in Ending(n, top) <==> IsRise(s, n, top) && s[n - 1] == top
    decreases n, top, 0
  {
    if s in Ending(n, top) {
      var front :| front in Rises(n - 1, top) && s == front + [top];
      RisesExact(n - 1, top, front);
    }
    if IsRise(s, n, top) && s[n - 1] == top {
      var front := s[..n - 1];
      forall i | 0 < i < |front| ensures front[i - 1] <= front[i] {
        assert s[i - 1] <= s[i];
      }
      RisesExact(n - 1, top, front);
      assert s == front + [top];
    }
  }

  lemma {:induction false} ImageCount(a: set<seq<nat>>, top: nat)
    ensures |Extended(a, top)| == |a|
    decreases a
  {
    var image := Extended(a, top);
    if a == {} {
      assert image == {};
    } else {
      var x :| x in a;
      var rest := a - {x};
      ImageCount(rest, top);
      var image' := Extended(rest, top);
      assert x + [top] !in image' by {
        forall s | s in rest ensures s + [top] != x + [top] {
          assert (s + [top])[..|s|] == s && (x + [top])[..|x|] == x;
        }
      }
      assert image == image' + {x + [top]};
    }
  }

  lemma RisesSplit(n: nat, top: nat)
    requires 0 < n
    ensures |Rises(n, top)| == |Rises(n - 1, top)| + if top == 0 then 0 else |Rises(n, top - 1)|
  {
    ImageCount(Rises(n - 1, top), top);
    if top == 0 {
      assert Rises(n, top) == Ending(n, top);
    } else {
      forall s | s in Ending(n, top) ensures s !in Rises(n, top - 1) {
        EndingExact(n, top, s);
        RisesExact(n, top - 1, s);
      }
      assert Ending(n, top) !! Rises(n, top - 1);
    }
  }

  lemma RisesNone(top: nat)
    ensures |Rises(0, top)| == 1 == Choose(top, 0)
  {
  }

  lemma Pascal(m: nat, k: nat)
    ensures Choose(m + 1, k + 1) == Choose(m, k) + Choose(m, k + 1)
  {
  }

  /** There are as many as there are n-element subsets of a set of top + n elements. */
  lemma {:induction false} RisesCount(n: nat, top: nat)
    ensures |Rises(n, top)| == Choose(top + n, n)
    decreases n, top
  {
    hide Rises, Choose;
    if n == 0 {
      RisesNone(top);
    } else {
      var m, k := top + n - 1, n - 1;
      RisesSplit(n, top);
      Pascal(m, k);
      RisesCount(k, top);
      if top == 0 {
        ChooseAll(m, n);
      } else {
        var t := top - 1;
        assert t + n == m;
        RisesCount(n, t);
      }
    }
  }

  lemma {:induction false} DistinctCount(list: seq<seq<nat>>, n: nat)
    requires InOrder(list) && n <= |list|
    ensures |set k | 0 <= k < n :: list[k]| == n
    decreases n
  {
    var elements := set k | 0 <= k < n :: list[k];
    if n == 0 {
      assert elements == {};
    } else {
      DistinctCount(list, n - 1);
      var before := set k | 0 <= k < n - 1 :: list[k];
      assert list[n - 1] !in before by {
        forall k | 0 <= k < n - 1 ensures list[k] != list[n - 1] {
          assert InOrderAt(list, k, n - 1);
        }
      }
      assert elements == before + {list[n - 1]};
    }
  }

  /** With the same slack on all n wheels, the odometer runs through C(slack + n, n) vectors. */
  lemma UniformCount(list: seq<seq<nat>>, slack: seq<int>, n: nat, top: nat)
    requires |slack| == n && forall i | 0 <= i < n :: slack[i] == top
    requires Complete(list, slack)
    ensures |list| == Choose(top + n, n)
  {
    var elements := set k | 0 <= k < |list| :: list[k];
    forall s ensures s in elements <==> s in Rises(n, top) {
      RisesExact(n, top, s);
      RisingReachable(s, slack);
    }
    assert elements == Rises(n, top);
    DistinctCount(list, |list|);
    RisesCount(n, top);
  }

  /** With no room at all nothing moves. */
  lemma StuckCount(list: seq<seq<nat>>, slack: seq<int>)
    requires |slack| > 0 && forall i | 0 <= i < |slack| :: slack[i] < 0
    requires Complete(list, slack)
    ensures |list| == 1
  {
    var elements := set k | 0 <= k < |list| :: list[k];
    forall t ensures t in elements <==> t == Zeros(|slack|) {
      assert t in elements <==> t in list;
      if Reachable(t, slack) {
        AllZero(t, slack, |t|);
      }
      assert Reachable(Zeros(|slack|), slack);
    }
    assert elements == {Zeros(|slack|)};
    DistinctCount(list, |list|);
  }

  lemma {:induction false} AllZero(t: seq<nat>, slack: seq<int>, k: nat)
    requires Reachable(t, slack) && k <= |t| && forall i | 0 <= i < |slack| :: slack[i] < 0
    ensures forall i | 0 <= i < k :: t[i] == 0
  {
    if k > 0 {
      AllZero(t, slack, k - 1);
      assert WheelOk(t, slack, k - 1);
    }
  }
}
