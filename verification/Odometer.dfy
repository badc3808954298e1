/** The vectors of shifts an odometer runs through when every wheel has its own highest position and a
    turning wheel resets the ones to its right to its own position. */
module Odometer {

  ghost function Before(s: seq<nat>, i: nat): nat
    requires i <= |s|
  {
    if i == 0 then 0 else s[i - 1]
  }

  ghost predicate WheelOk(s: seq<nat>, slack: seq<int>, i: nat)
    requires i < |s| == |slack|
  {
    Before(s, i) <= s[i] && (s[i] == Before(s, i) || s[i] <= slack[i])
  }

  /** The vectors the odometer reaches: shifts never decrease, and a shift above its left neighbour's stays
      within its slack. */
  ghost predicate Reachable(s: seq<nat>, slack: seq<int>)
  {
    |s| == |slack| && forall i | 0 <= i < |s| :: WheelOk(s, slack, i)
  }

  function Zeros(n: nat): (z: seq<nat>)
  {
    seq(n, i => 0)
  }

  /** Strict lexicographic order, decided at position p. */
  ghost predicate LessAt(s: seq<nat>, t: seq<nat>, p: nat)
  {
    p < |s| == |t| && s[..p] == t[..p] && s[p] < t[p]
  }

  ghost predicate Less(s: seq<nat>, t: seq<nat>)
  {
    exists p: nat :: LessAt(s, t, p)
  }

  predicate CanTurn(s: seq<nat>, slack: seq<int>, i: int)
    requires |s| == |slack|
  {
    0 <= i < |s| && s[i] + 1 <= slack[i]
  }

  /** Wheel pos is the rightmost that can turn. */
  ghost predicate Rightmost(s: seq<nat>, slack: seq<int>, pos: int)
    requires |s| == |slack|
  {
    -1 <= pos < |s| && (pos >= 0 ==> CanTurn(s, slack, pos))
    && forall i | pos < i < |s| :: !CanTurn(s, slack, i)
  }

  /** The vector after wheel pos turned. */
  function Turned(s: seq<nat>, pos: nat): (t: seq<nat>)
    requires pos < |s|
  {
    s[..pos] + seq(|s| - pos, i => s[pos] + 1)
  }

  // ---- order ----------------------------------------------------------------------------

  lemma TurnedReachable(s: seq<nat>, slack: seq<int>, pos: nat)
    requires Reachable(s, slack) && pos < |s| && CanTurn(s, slack, pos)
    ensures Reachable(Turned(s, pos), slack) && LessAt(s, Turned(s, pos), pos)
  {
    var t := Turned(s, pos);
    forall i | 0 <= i < |t| ensures WheelOk(t, slack, i) {
      assert WheelOk(s, slack, i);
    }
  }

  lemma {:induction false} LevelOrLess(s: seq<nat>, t: seq<nat>, p: nat)
    requires p <= |s| == |t| && s[..p] == t[..p]
    requires forall i | p <= i < |s| :: s[i] <= t[i]
    ensures s == t || Less(s, t)
    decreases |s| - p
  {
    if p < |s| {
      if s[p] < t[p] {
        assert LessAt(s, t, p);
      } else {
        assert s[..p + 1] == t[..p + 1];
        LevelOrLess(s, t, p + 1);
      }
    }
  }

  /** A reachable vector above s differs from it first on a wheel that can turn. */
  lemma AboveCanTurn(s: seq<nat>, t: seq<nat>, slack: seq<int>, p: nat)
    requires Reachable(s, slack) && Reachable(t, slack) && LessAt(s, t, p)
    ensures CanTurn(s, slack, p)
  {
    assert WheelOk(t, slack, p) && WheelOk(s, slack, p);
    if p > 0 {
      assert s[p - 1] == s[..p][p - 1] == t[..p][p - 1] == t[p - 1];
    }
  }

  lemma {:induction false} RisesFrom(t: seq<nat>, slack: seq<int>, p: nat, i: nat)
    requires Reachable(t, slack) && p <= i < |t|
    ensures t[p] <= t[i]
    decreases i
  {
    if p < i {
      RisesFrom(t, slack, p, i - 1);
      assert WheelOk(t, slack, i);
    }
  }

  /** No reachable vector lies between s and the next one. */
  lemma TurnedIsNext(s: seq<nat>, t: seq<nat>, slack: seq<int>, pos: nat)
    requires Reachable(s, slack) && Reachable(t, slack) && Less(s, t)
    requires pos < |s| && Rightmost(s, slack, pos)
    ensures t == Turned(s, pos) || Less(Turned(s, pos), t)
  {
    var p: nat :| LessAt(s, t, p);
    AboveCanTurn(s, t, slack, p);
    var u := Turned(s, pos);
    if p < pos {
      assert u[..p] == s[..p];
      assert LessAt(u, t, p);
    } else {
      assert u[..pos] == s[..pos] == t[..pos];
      forall i | pos <= i < |t| ensures u[i] <= t[i] {
        RisesFrom(t, slack, pos, i);
      }
      LevelOrLess(u, t, pos);
    }
  }

  /** When no wheel can turn, the vector is the last one. */
  lemma StuckIsLast(s: seq<nat>, t: seq<nat>, slack: seq<int>)
    requires Reachable(s, slack) && Reachable(t, slack) && Less(s, t)
    requires |s| == |slack|
    ensures exists i :: CanTurn(s, slack, i)
  {
    var p: nat :| LessAt(s, t, p);
    AboveCanTurn(s, t, slack, p);
  }

  lemma ZerosFirst(t: seq<nat>, slack: seq<int>)
    requires Reachable(t, slack)
    ensures Reachable(Zeros(|t|), slack)
    ensures t == Zeros(|t|) || Less(Zeros(|t|), t)
  {
    var z := Zeros(|t|);
    forall i | 0 <= i < |t| ensures WheelOk(z, slack, i) {}
    LevelOrLess(z, t, 0);
  }

  lemma LessTrans(s: seq<nat>, t: seq<nat>, u: seq<nat>)
    requires Less(s, t) && Less(t, u)
    ensures Less(s, u)
  {
    var p: nat :| LessAt(s, t, p);
    var q: nat :| LessAt(t, u, q);
    var m := if p < q then p else q;
    assert s[..m] == u[..m] by {
      forall i | 0 <= i < m ensures s[i] == u[i] {
        assert s[i] == s[..p][i] == t[..p][i] == t[i];
        assert t[i] == t[..q][i] == u[..q][i] == u[i];
      }
    }
    assert p < q ==> t[p] == t[..q][p] == u[..q][p] == u[p];
    assert q < p ==> s[q] == s[..p][q] == t[..p][q] == t[q];
    assert LessAt(s, u, m);
  }

  // ---- listings -------------------------------------------------------------------------

  ghost predicate InOrderAt(list: seq<seq<nat>>, i: nat, j: nat)
    requires i < j < |list|
  {
    Less(list[i], list[j])
  }

  /** The list is in strict lexicographic order; in particular it has no duplicates. */
  ghost predicate InOrder(list: seq<seq<nat>>)
  {
    forall i, j | 0 <= i < j < |list| :: InOrderAt(list, i, j)
  }

  /** The list holds exactly the reachable vectors up to its last one. */
  ghost predicate Listing(list: seq<seq<nat>>, slack: seq<int>)
  {
    && list != [] && InOrder(list)
    && (forall k | 0 <= k < |list| :: Reachable(list[k], slack))
    && forall t | Reachable(t, slack) :: t in list || Less(list[|list| - 1], t)
  }

  lemma ListingStarts(slack: seq<int>)
    ensures Listing([Zeros(|slack|)], slack)
  {
    var z := Zeros(|slack|);
    assert forall i | 0 <= i < |z| :: WheelOk(z, slack, i);
    forall t | Reachable(t, slack) ensures t in [z] || Less(z, t) {
      ZerosFirst(t, slack);
    }
  }

  lemma ListingNext(list: seq<seq<nat>>, slack: seq<int>, pos: nat)
    requires Listing(list, slack) && pos < |slack| && Rightmost(list[|list| - 1], slack, pos)
    ensures Listing(list + [Turned(list[|list| - 1], pos)], slack)
  {
    var s := list[|list| - 1];
    var u := Turned(s, pos);
    var list' := list + [u];
    TurnedReachable(s, slack, pos);
    assert Less(s, u);
    forall i, j | 0 <= i < j < |list'| ensures InOrderAt(list', i, j) {
      if j < |list| {
        assert InOrderAt(list, i, j);
      } else if i < |list| - 1 {
        assert InOrderAt(list, i, |list| - 1);
        LessTrans(list[i], s, u);
      }
    }
    forall t | Reachable(t, slack) ensures t in list' || Less(u, t) {
      if t !in list {
        TurnedIsNext(s, t, slack, pos);
        assert list'[|list|] == u;
      } else {
        var k :| 0 <= k < |list| && list[k] == t;
        assert list'[k] == t;
      }
    }
  }

  /** All reachable vectors, in order, each once. */
  ghost predicate Complete(list: seq<seq<nat>>, slack: seq<int>)
  {
    InOrder(list) && forall t :: t in list <==> Reachable(t, slack)
  }

  lemma ListingEnds(list: seq<seq<nat>>, slack: seq<int>)
    requires Listing(list, slack) && Rightmost(list[|list| - 1], slack, -1)
    ensures Complete(list, slack)
  {
    forall t ensures t in list <==> Reachable(t, slack) {
      if Reachable(t, slack) && t !in list {
        StuckIsLast(list[|list| - 1], t, slack);
        assert false;
      }
    }
  }

  // ---- termination ----------------------------------------------------------------------

  /** The highest position of any wheel. */
  function Top(slack: seq<int>): nat
  {
    if slack == [] then 0 else
      var rest := Top(slack[1..]);
      if slack[0] > rest then slack[0] else rest
  }

  lemma {:induction false} TopBounds(slack: seq<int>, i: nat)
    requires i < |slack|
    ensures slack[i] <= Top(slack)
  {
    if i > 0 {
      assert slack[i] == slack[1..][i - 1];
      TopBounds(slack[1..], i - 1);
    }
  }

  lemma {:induction false} ReachableBounded(s: seq<nat>, slack: seq<int>, i: nat)
    requires Reachable(s, slack) && i < |s|
    ensures s[i] <= Top(slack)
    decreases i
  {
    assert WheelOk(s, slack, i);
    TopBounds(slack, i);
    if i > 0 {
      ReachableBounded(s, slack, i - 1);
    }
  }

  function Power(b: nat, e: nat): nat
  {
    if e == 0 then 1 else b * Power(b, e - 1)
  }

  /** The vector read as a number in base b. */
  function Value(s: seq<nat>, b: nat): nat
  {
    if s == [] then 0 else s[0] * Power(b, |s| - 1) + Value(s[1..], b)
  }

  lemma {:induction false} ValueBound(s: seq<nat>, b: nat)
    requires forall i | 0 <= i < |s| :: s[i] < b
    ensures Value(s, b) < Power(b, |s|)
  {
    if s != [] {
      ValueBound(s[1..], b);
      var p := Power(b, |s| - 1);
      assert s[0] * p <= (b - 1) * p;
      assert (b - 1) * p + p == b * p;
    }
  }

  lemma Scaled(a: nat, b: nat, w: nat)
    requires a < b
    ensures a * w + w <= b * w
  {
    var d := b - a - 1;
    assert b * w == (a + 1 + d) * w == a * w + w + d * w;
  }

  lemma {:induction false} LessValue(s: seq<nat>, t: seq<nat>, b: nat, p: nat)
    requires LessAt(s, t, p)
    requires forall i | 0 <= i < |s| :: s[i] < b
    ensures Value(s, b) < Value(t, b)
    decreases p
  {
    if p == 0 {
      ValueBound(s[1..], b);
      Scaled(s[0], t[0], Power(b, |s| - 1));
    } else {
      LessTail(s, t, p);
      LessValue(s[1..], t[1..], b, p - 1);
    }
  }

  lemma LessTail(s: seq<nat>, t: seq<nat>, p: nat)
    requires LessAt(s, t, p) && 0 < p
    ensures s[0] == t[0] && LessAt(s[1..], t[1..], p - 1)
  {
    assert s[0] == s[..p][0] == t[..p][0] == t[0];
    assert s[1..][..p - 1] == s[..p][1..] == t[..p][1..] == t[1..][..p - 1];
  }

  // ---- bounds ---------------------------------------------------------------------------

  ghost predicate Rising(slack: seq<int>)
  {
    forall i | 0 < i < |slack| :: slack[i - 1] <= slack[i]
  }

  ghost predicate Within(s: seq<nat>, slack: seq<int>)
  {
    |s| == |slack| && forall i | 0 <= i < |s| :: s[i] <= slack[i]
  }

  ghost predicate NonDecreasing(s: seq<nat>)
  {
    forall i | 0 < i < |s| :: s[i - 1] <= s[i]
  }

  lemma {:induction false} RisingWithin(s: seq<nat>, slack: seq<int>, i: nat)
    requires Reachable(s, slack) && Rising(slack) && i < |s| && slack[0] >= 0
    ensures s[i] <= slack[i]
    decreases i
  {
    assert WheelOk(s, slack, i);
    if i > 0 {
      RisingWithin(s, slack, i - 1);
      assert slack[i - 1] <= slack[i];
    }
  }

  /** With non-negative slack that never decreases, the reachable vectors are exactly the non-decreasing
      ones within the slack. */
  lemma RisingReachable(s: seq<nat>, slack: seq<int>)
    requires Rising(slack) && (slack == [] || slack[0] >= 0)
    ensures Reachable(s, slack) <==> NonDecreasing(s) && Within(s, slack)
  {
    if Reachable(s, slack) {
      forall i | 0 <= i < |s| ensures s[i] <= slack[i] {
        RisingWithin(s, slack, i);
      }
      forall i | 0 < i < |s| ensures s[i - 1] <= s[i] {
        assert WheelOk(s, slack, i);
      }
    }
    if NonDecreasing(s) && Within(s, slack) {
      forall i | 0 <= i < |s| ensures WheelOk(s, slack, i) {}
    }
  }

  /** A vector that turns wheel i to its highest position drags the wheels to its right along. */
  lemma DraggedReachable(slack: seq<int>, i: nat)
    requires i < |slack| && slack[i] >= 0
    ensures Reachable(Zeros(i) + seq(|slack| - i, k => slack[i]), slack)
  {
    var s: seq<nat> := Zeros(i) + seq(|slack| - i, k => slack[i]);
    forall k | 0 <= k < |s| ensures WheelOk(s, slack, k) {}
  }

  /** All reachable vectors stay within the slack exactly when the slack never decreases. */
  lemma BoundsHoldIffRising(slack: seq<int>)
    requires forall i | 0 <= i < |slack| :: slack[i] >= 0
    ensures (forall s | Reachable(s, slack) :: Within(s, slack)) <==> Rising(slack)
  {
    if Rising(slack) {
      forall s | Reachable(s, slack) ensures Within(s, slack) {
        RisingReachable(s, slack);
      }
    } else {
      var i :| 0 < i < |slack| && slack[i - 1] > slack[i];
      DraggedReachable(slack, i - 1);
      var s: seq<nat> := Zeros(i - 1) + seq(|slack| - (i - 1), k => slack[i - 1]);
      assert s[i] == slack[i - 1];
      assert Reachable(s, slack) && !Within(s, slack);
    }
  }
}
