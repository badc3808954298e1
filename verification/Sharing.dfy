/** Progressive filling: how a stage's elastic region is divided among its elastic tenants,
    and how many of them one more tenant disturbs. */
module Sharing {

  /** Blocks the k-th of n elastic tenants receives out of r: the round-robin fill hands every
      tenant r/n blocks and the first r%n tenants one more. */
  function Share(r: nat, n: nat, k: nat): nat
    requires k < n
  {
    r / n + (if k < r % n then 1 else 0)
  }

  /** Offset, inside the region, of the k-th tenant's first block. */
  function ShareStart(r: nat, n: nat, k: nat): nat
    requires k <= n
    decreases k
  {
    if k == 0 then 0 else ShareStart(r, n, k - 1) + Share(r, n, k - 1)
  }

  function Min(a: int, b: int): int { if a <= b then a else b }

  lemma {:induction false} ShareStartClosed(r: nat, n: nat, k: nat)
    requires 0 < n && k <= n
    ensures ShareStart(r, n, k) == k * (r / n) + Min(k, r % n)
  {
    if k == 0 {
    } else {
      ShareStartClosed(r, n, k - 1);
      var q := r / n;
      assert k * q == (k - 1) * q + q;
    }
  }

  lemma DivMod(r: nat, n: nat)
    requires 0 < n
    ensures r == n * (r / n) + r % n && 0 <= r % n < n && 0 <= r / n
  {
  }

  lemma MulGe(n: nat, k: nat)
    requires 1 <= k
    ensures n <= n * k
  {
  }

  lemma MulGap(n: nat, a: int, b: int)
    ensures a < b ==> n * a + n <= n * b
    ensures b < a ==> n * b + n <= n * a
  {
    if a < b {
      MulGe(n, b - a);
      assert n * b == n * a + n * (b - a);
    } else if b < a {
      MulGe(n, a - b);
      assert n * a == n * b + n * (a - b);
    }
  }

  lemma DivModUnique(r: nat, n: nat, q: nat, m: nat)
    requires 0 < n && r == n * q + m && m < n
    ensures r / n == q && r % n == m
  {
    DivMod(r, n);
    MulGap(n, q, r / n);
  }

  /** The shares use up the region exactly: the last tenant ends where the region ends. */
  lemma ShareStartEnd(r: nat, n: nat)
    requires 0 < n
    ensures ShareStart(r, n, n) == r
  {
    ShareStartClosed(r, n, n);
    DivMod(r, n);
  }

  lemma {:induction false} ShareStartMonotone(r: nat, n: nat, i: nat, k: nat)
    requires i <= k <= n
    ensures ShareStart(r, n, i) <= ShareStart(r, n, k)
    decreases k
  {
    if i < k {
      ShareStartMonotone(r, n, i, k - 1);
    }
  }

  /** Every block of the region has an owner. */
  lemma {:induction false} ShareOwner(r: nat, n: nat, m: nat, p: nat) returns (k: nat)
    requires m <= n && p < ShareStart(r, n, m)
    ensures k < m && ShareStart(r, n, k) <= p < ShareStart(r, n, k + 1)
    decreases m
  {
    if ShareStart(r, n, m - 1) <= p {
      k := m - 1;
    } else {
      k := ShareOwner(r, n, m - 1, p);
    }
  }

  lemma SharePositive(r: nat, n: nat, k: nat)
    requires k < n <= r
    ensures 1 <= Share(r, n, k)
  {
    DivMod(r, n);
  }

  // ---- fairness -------------------------------------------------------------------------

  ghost function Sum(a: seq<nat>): nat
  {
    if a == [] then 0 else Sum(a[..|a| - 1]) + a[|a| - 1]
  }

  /** The division progressive filling computes. */
  ghost function Shares(r: nat, n: nat): (s: seq<nat>)
    ensures |s| == n && forall k | 0 <= k < n :: s[k] == Share(r, n, k)
  {
    seq(n, k requires 0 <= k < n => Share(r, n, k))
  }

  lemma {:induction false} SharesPrefixSum(r: nat, n: nat, k: nat)
    requires k <= n
    ensures Sum(Shares(r, n)[..k]) == ShareStart(r, n, k)
    decreases k
  {
    if k > 0 {
      SharesPrefixSum(r, n, k - 1);
      assert Shares(r, n)[..k][..k - 1] == Shares(r, n)[..k - 1];
    }
  }

  lemma {:induction false} SumDominates(a: seq<nat>, b: seq<nat>)
    requires |a| == |b| && forall i | 0 <= i < |a| :: a[i] >= b[i]
    ensures Sum(a) >= Sum(b)
    ensures (exists i :: 0 <= i < |a| && a[i] > b[i]) ==> Sum(a) > Sum(b)
    decreases |a|
  {
    if a != [] {
      var n := |a| - 1;
      SumDominates(a[..n], b[..n]);
      if i :| 0 <= i < |a| && a[i] > b[i] {
        if i < n {
          assert a[..n][i] > b[..n][i];
        }
      }
    }
  }

  /** Integer max-min fairness. The shares are a division of the region; and in any other division
      of it, whoever gets more than the filling gave them does so at the expense of a tenant that
      drops below its filled share and ends up strictly poorer than the one that gained. */
  lemma FillingIsMaxMinFair(r: nat, n: nat, other: seq<nat>, k: nat)
    requires 0 < n && |other| == n && Sum(other) == r
    requires k < n && other[k] > Share(r, n, k)
    ensures Sum(Shares(r, n)) == r
    ensures exists j :: 0 <= j < n && other[j] < Share(r, n, j) && other[j] < other[k]
  {
    SharesPrefixSum(r, n, n);
    assert Shares(r, n)[..n] == Shares(r, n);
    ShareStartEnd(r, n);
    if forall j | 0 <= j < n :: other[j] >= Share(r, n, j) {
      SumDominates(other, Shares(r, n));
      assert false;
    }
    var j :| 0 <= j < n && other[j] < Share(r, n, j);
    assert Share(r, n, j) <= r / n + 1;
  }

  /** No division of the region gives its worst-off tenant more than the filling gives its own. */
  lemma WorstOffIsBest(r: nat, n: nat, other: seq<nat>)
    requires 0 < n && |other| == n && Sum(other) == r
    ensures forall k | 0 <= k < n :: Share(r, n, k) >= r / n
    ensures exists j :: 0 <= j < n && other[j] <= r / n
  {
    SharesPrefixSum(r, n, n);
    assert Shares(r, n)[..n] == Shares(r, n);
    ShareStartEnd(r, n);
    DivMod(r, n);
    if forall j | 0 <= j < n :: other[j] > r / n {
      SumDominates(other, Shares(r, n));
      assert false;
    }
  }

  // ---- the cost of one more tenant ------------------------------------------------------

  /** The move-cost estimate of getCostMoving for an elastic arrival: `region` elastic blocks,
      x tenants counting the arrival. */
  function MoveCost(region: nat, x: nat): int
    requires 2 <= x
  {
    if region / x < region / (x - 1) then x - 1 else x - region % x - 1
  }

  /** Tenant k keeps its block interval when the (x-1)-way division becomes an x-way one. */
  ghost predicate KeepsInterval(region: nat, x: nat, k: nat)
    requires 2 <= x && k < x - 1
  {
    && ShareStart(region, x, k) == ShareStart(region, x - 1, k)
    && ShareStart(region, x, k + 1) == ShareStart(region, x - 1, k + 1)
  }

  ghost function Moved(region: nat, x: nat): set<nat>
    requires 2 <= x
  {
    set k: nat | k < x - 1 && !KeepsInterval(region, x, k)
  }

  /** The one case in which the estimate is pessimistic: the old division was even and one block
      deeper, so that the first region%x tenants stay exactly where they are. */
  predicate Pessimistic(region: nat, x: nat)
    requires 2 <= x
  {
    region % (x - 1) == 0 && region / (x - 1) == region / x + 1 && region % x > 0
  }

  ghost function Upto(lo: nat, hi: nat): (s: set<nat>)
    requires lo <= hi
    ensures |s| == hi - lo && forall k: nat :: k in s <==> lo <= k < hi
    decreases hi
  {
    if lo == hi then {} else Upto(lo, hi - 1) + {hi - 1}
  }

  lemma {:induction false} DeeperSharesAhead(region: nat, x: nat, k: nat)
    requires 2 <= x && k <= x - 1
    requires region / x < region / (x - 1)
    ensures ShareStart(region, x, k) <= ShareStart(region, x - 1, k)
    ensures ShareStart(region, x, k) == ShareStart(region, x - 1, k) ==>
              forall i: nat :: i < k ==> Share(region, x, i) == Share(region, x - 1, i)
    decreases k
  {
    if k > 0 {
      DeeperSharesAhead(region, x, k - 1);
      assert Share(region, x, k - 1) <= Share(region, x - 1, k - 1);
    }
  }

  lemma EvenOrDeeper(region: nat, x: nat)
    requires 2 <= x <= region
    ensures region / x <= region / (x - 1)
    ensures region / x == region / (x - 1) ==>
              1 <= region / x && region % (x - 1) == region / x + region % x
  {
    var q, m := region / x, region % x;
    DivMod(region, x);
    DivMod(region, x - 1);
    var q', m' := region / (x - 1), region % (x - 1);
    assert region == (x - 1) * q + (q + m) by { assert x * q == (x - 1) * q + q; }
    MulGap(x - 1, q, q');
    MulGap(x, q, 0);
  }

  /** Who moves when the floors agree: exactly the tenants from region%x on. */
  lemma MovedSameFloor(region: nat, x: nat, k: nat)
    requires 2 <= x <= region && k < x - 1
    requires region / x == region / (x - 1)
    ensures KeepsInterval(region, x, k) <==> k < region % x
  {
    EvenOrDeeper(region, x);
    ShareStartClosed(region, x, k);
    ShareStartClosed(region, x, k + 1);
    ShareStartClosed(region, x - 1, k);
    ShareStartClosed(region, x - 1, k + 1);
  }

  /** Who stays when the floor drops: nobody, except in the pessimistic case. */
  lemma MovedLowerFloor(region: nat, x: nat, k: nat)
    requires 2 <= x <= region && k < x - 1
    requires region / x < region / (x - 1)
    ensures KeepsInterval(region, x, k) <==> Pessimistic(region, x) && k < region % x
  {
    if KeepsInterval(region, x, k) {
      DeeperSharesAhead(region, x, k + 1);
      assert Share(region, x, 0) == Share(region, x - 1, 0);
      assert Share(region, x, k) == Share(region, x - 1, k);
    }
    if Pessimistic(region, x) && k < region % x {
      ShareStartClosed(region, x, k);
      ShareStartClosed(region, x, k + 1);
      ShareStartClosed(region, x - 1, k);
      ShareStartClosed(region, x - 1, k + 1);
      var q := region / x;
      assert k * (q + 1) == k * q + k;
      assert (k + 1) * (q + 1) == (k + 1) * q + (k + 1);
    }
  }

  /** The tenants that keep their interval when one more joins: the first region%x if the floors agree
      or in the pessimistic case, and none otherwise. */
  function Still(region: nat, x: nat): (s: nat)
    requires 2 <= x
  {
    if region / x == region / (x - 1) || Pessimistic(region, x) then region % x else 0
  }

  /** The tenants the formula takes to stay, read off a region of n blocks. */
  function Spared(n: nat, x: nat): nat
    requires 2 <= x
  {
    if n / x < n / (x - 1) then 0 else n % x
  }

  /** Exactly the tenants from Still on change their interval. */
  lemma MovedFrom(region: nat, x: nat)
    requires 2 <= x <= region
    ensures Still(region, x) <= x - 1
    ensures forall k: nat :: k in Moved(region, x) <==> Still(region, x) <= k < x - 1
    ensures |Moved(region, x)| == x - 1 - Still(region, x)
  {
    EvenOrDeeper(region, x);
    DivMod(region, x);
    var moved := Moved(region, x);
    if region / x == region / (x - 1) {
      DivMod(region, x - 1);
      forall k: nat | k < x - 1 ensures k in moved <==> Still(region, x) <= k {
        MovedSameFloor(region, x, k);
      }
    } else {
      forall k: nat | k < x - 1 ensures k in moved <==> Still(region, x) <= k {
        MovedLowerFloor(region, x, k);
      }
    }
    assert moved == Upto(Still(region, x), x - 1);
  }

  /** The formula reads n, the blocks no inelastic tenant holds, where the tenants divide `region`,
      the blocks above the offset. It covers the tenants that move exactly if a floor drops in n or n
      leaves no more blocks over than tenants stay; and it counts them exactly if both agree on the
      tenants that stay. */
  lemma MoveCostCovers(n: nat, region: nat, x: nat)
    requires 2 <= x <= region <= n
    ensures |Moved(region, x)| <= MoveCost(n, x) <==> n / x < n / (x - 1) || n % x <= Still(region, x)
    ensures |Moved(region, x)| <= MoveCost(n, x) <==> Spared(n, x) <= Still(region, x)
    ensures |Moved(region, x)| == MoveCost(n, x) <==> Spared(n, x) == Still(region, x)
  {
    MovedFrom(region, x);
    EvenOrDeeper(n, x);
  }

  /** Where the two regions are the same the formula never underestimates the number of tenants whose
      block interval changes, and it is exact if and only if the division is not the pessimistic one;
      in particular whenever the two floors agree. */
  lemma MoveCostBounds(region: nat, x: nat)
    requires 2 <= x <= region
    ensures |Moved(region, x)| <= MoveCost(region, x)
    ensures |Moved(region, x)| == MoveCost(region, x) <==> !Pessimistic(region, x)
    ensures region / x == region / (x - 1) ==> |Moved(region, x)| == MoveCost(region, x)
  {
    MovedFrom(region, x);
    EvenOrDeeper(region, x);
  }
}
