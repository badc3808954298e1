/** How the costs rank stages and placements: which of two stages is cheaper, and what a placement costs
    beyond its stages. */
module CostOrder {
  import opened Dimensions
  import opened Columns
  import opened Holes
  import opened Layout
  import opened Ordered
  import opened Sharing
  import opened AllocatorModel
  import opened Costs
  import opened Ranking

  /** The elastic tenants of stage i. */
  function ElasticAt(s: State, i: nat): set<Fid>
    requires Staged(s) && i < STAGES
  {
    Elastic(DemandsAt(s.table, s.funcs, i))
  }

  // ---- fit ------------------------------------------------------------------------------

  /** The fit cost of an elastic demand is to the elastic tenancy as the column is to its elastic region. */
  lemma FitRatio(s: State, i: nat)
    requires Staged(s) && i < STAGES && FeasibleAt(s, i, 1)
    ensures s.offset[i] < s.n
    ensures StageCost(s, Fit, i, 1) * (s.n - s.offset[i]) as real == |ElasticAt(s, i)| as real * s.n as real
  {
    var e, n, r := |ElasticAt(s, i)| as real, s.n as real, (s.n - s.offset[i]) as real;
    Ratio(e, n, r);
  }

  lemma Ratio(e: real, n: real, r: real)
    requires r > 0.0
    ensures e * (n / r) * r == e * n
  {
    assert n / r * r == n;
    assert e * (n / r) * r == e * (n / r * r);
  }

  lemma SignOf(c: real, t: real)
    requires t > 0.0
    ensures c * t > 0.0 ==> c > 0.0
    ensures c * t >= 0.0 ==> c >= 0.0
    ensures c >= 0.0 ==> c * t >= 0.0
    ensures c > 0.0 ==> c * t > 0.0
  {
  }

  lemma Cheaper(a: real, b: real, x: real, y: real, r: real, t: real)
    requires r > 0.0 && t > 0.0 && a * r == x && b * t == y
    requires x >= 0.0 && ((x < y && t <= r) || (x == y && x > 0.0 && t < r))
    ensures a < b
  {
    SignOf(a, r);
    if t < r {
      SignOf(a, r - t);
    }
    assert a * r == a * t + a * (r - t);
    SignOf(b - a, t);
    assert (b - a) * t == b * t - a * t;
  }

  /** With as many elastic tenants to disturb, the stage with the smaller elastic region costs more. */
  lemma FitPrefersRoom(s: State, i: nat, j: nat)
    requires Staged(s) && i < STAGES && j < STAGES && FeasibleAt(s, i, 1) && FeasibleAt(s, j, 1)
    requires |ElasticAt(s, i)| == |ElasticAt(s, j)| > 0 && s.offset[i] < s.offset[j]
    ensures StageCost(s, Fit, i, 1) < StageCost(s, Fit, j, 1)
  {
    hide StageCost, FeasibleAt;
    FitRatio(s, i);
    FitRatio(s, j);
    var x := |ElasticAt(s, i)| as real * s.n as real;
    assert x > 0.0;
    Cheaper(StageCost(s, Fit, i, 1), StageCost(s, Fit, j, 1), x, x, (s.n - s.offset[i]) as real, (s.n - s.offset[j]) as real);
  }

  /** With the same region, the stage with more elastic tenants costs more. */
  lemma FitPrefersFew(s: State, i: nat, j: nat)
    requires Staged(s) && i < STAGES && j < STAGES && FeasibleAt(s, i, 1) && FeasibleAt(s, j, 1)
    requires |ElasticAt(s, i)| < |ElasticAt(s, j)| && s.offset[i] == s.offset[j]
    ensures StageCost(s, Fit, i, 1) < StageCost(s, Fit, j, 1)
  {
    hide StageCost, FeasibleAt;
    FitRatio(s, i);
    FitRatio(s, j);
    var e, e', n := |ElasticAt(s, i)| as real, |ElasticAt(s, j)| as real, s.n as real;
    assert n > 0.0 && e * n < e' * n && e * n >= 0.0 by {
      assert (e' - e) * n > 0.0;
    }
    Cheaper(StageCost(s, Fit, i, 1), StageCost(s, Fit, j, 1), e * n, e' * n, (s.n - s.offset[i]) as real, (s.n - s.offset[j]) as real);
  }

  /** The fit cost is the elastic tenancy itself exactly in a stage without inelastic region, or without
      elastic tenants. */
  lemma FitIsTenancy(s: State, i: nat)
    requires Staged(s) && i < STAGES && FeasibleAt(s, i, 1)
    ensures StageCost(s, Fit, i, 1) == |ElasticAt(s, i)| as real <==> s.offset[i] == 0 || ElasticAt(s, i) == {}
  {
    hide StageCost, FeasibleAt;
    FitRatio(s, i);
    var e, c, r, n := |ElasticAt(s, i)| as real, StageCost(s, Fit, i, 1), (s.n - s.offset[i]) as real, s.n as real;
    if s.offset[i] == 0 {
      assert (c - e) * n == 0.0;
    }
    if c == e && e > 0.0 {
      assert e * (n - r) == 0.0;
    }
    if e == 0.0 {
      assert c * r == 0.0;
    }
  }

  /** For an inelastic demand the fit cost and the blocks no minimum demand claims make up the column. */
  lemma FitInelastic(s: State, i: nat, demand: nat)
    requires Staged(s) && i < STAGES && FeasibleAt(s, i, demand) && demand > 1
    ensures var dem := DemandsAt(s.table, s.funcs, i);
            && Occupied(dem) + demand <= s.n
            && StageCost(s, Fit, i, demand) + (s.n - Occupied(dem) - demand) as real == s.n as real
  {
  }

  // ---- moves ----------------------------------------------------------------------------

  /** Ranked by moves, an elastic arrival on a stage with elastic tenants costs at least the tenants whose
      blocks change there if and only if the formula spares no more than are in place already. */
  lemma MovesRanked(s: State, i: nat, arr: Arrival, col': seq<Fid>, off': nat, holes': seq<Hole>)
    requires Staged(s) && i < STAGES && |s.table.cols[i]| == s.n && FeasibleAt(s, i, 1)
    requires StageOk(s.table.cols[i], s.offset[i], DemandsAt(s.table, s.funcs, i)) && ElasticAt(s, i) != {}
    requires arr.Arrives? && arr.demand == 1 && ArrivalOk(DemandsAt(s.table, s.funcs, i), arr)
    requires StageStep(s.table.cols[i], s.offset[i], DemandsAt(s.table, s.funcs, i), arr, col', off', holes')
    requires Placeable(s.table.cols[i], s.offset[i], DemandsAt(s.table, s.funcs, i), arr)
    ensures var dem := DemandsAt(s.table, s.funcs, i);
            && |col'| == s.n && InelasticRegion(dem) <= s.n
            && (|MovedTenants(s.table.cols[i], col', dem)| as real <= StageCost(s, Moving, i, 1) <==>
                  Spared(s.n - InelasticRegion(dem), |Elastic(dem)| + 1) <= |InPlace(s.table.cols[i], s.offset[i], dem, arr.fid)|)
  {
    hide StageOk, Placeable, StageStep, MovingCost, Spared, InPlace, MovedTenants, InelasticRegion, Elastic;
    var col, off, dem := s.table.cols[i], s.offset[i], DemandsAt(s.table, s.funcs, i);
    MovingCostCounts(col, off, dem, arr, col', off', holes');
    MovesSized(col, off, dem, arr, col', off', holes');
  }

  lemma MovesSized(col: seq<Fid>, off: nat, dem: map<Fid, nat>, arr: Arrival, col': seq<Fid>, off': nat, holes': seq<Hole>)
    requires StageStep(col, off, dem, arr, col', off', holes') && StageOk(col, off, dem)
    ensures |col'| == |col| && off <= |col|
  {
  }

  /** An inelastic arrival is charged every elastic tenant of the stage: never less than move. */
  lemma InelasticMoves(s: State, i: nat, demand: nat, col: seq<Fid>, col': seq<Fid>)
    requires Staged(s) && i < STAGES && FeasibleAt(s, i, demand) && demand > 1 && |col| == |col'|
    ensures StageCost(s, Moving, i, demand) == |ElasticAt(s, i)| as real
    ensures |MovedTenants(col, col', DemandsAt(s.table, s.funcs, i))| as real <= StageCost(s, Moving, i, demand)
  {
    var dem := DemandsAt(s.table, s.funcs, i);
    SumOverSubset(dem, InelasticTenants(dem), dem.Keys);
    var moved := MovedTenants(col, col', dem);
    assert moved <= Elastic(dem);
    assert Elastic(dem) == moved + (Elastic(dem) - moved);
  }

  // ---- placements -----------------------------------------------------------------------

  lemma {:induction false} CostPrefix(s: State, metric: Metric, v: seq<nat>, m: seq<nat>, w: seq<nat>, l: seq<nat>, k: nat)
    requires Candidate(s, v, m) && Candidate(s, v + w, m + l) && |v| == |m| && k <= |v|
    ensures CostUpTo(s, metric, v + w, m + l, k) == CostUpTo(s, metric, v, m, k)
    decreases k
  {
    hide StageCost;
    if k > 0 {
      CostPrefix(s, metric, v, m, w, l, k - 1);
    }
  }

  /** Costs add up: a feasible placement on two lists of stages costs what it costs on each. */
  lemma {:induction false} CostsAdd(s: State, metric: Metric, v: seq<nat>, m: seq<nat>, w: seq<nat>, l: seq<nat>)
    requires Candidate(s, v, m) && Candidate(s, w, l) && |v| == |m| && |w| == |l|
    ensures Candidate(s, v + w, m + l)
    ensures CandidateCost(s, metric, v, m) >= 0.0 && CandidateCost(s, metric, w, l) >= 0.0 ==>
              CandidateCost(s, metric, v + w, m + l) == CandidateCost(s, metric, v, m) + CandidateCost(s, metric, w, l)
    ensures CandidateCost(s, metric, v, m) < 0.0 || CandidateCost(s, metric, w, l) < 0.0 ==>
              CandidateCost(s, metric, v + w, m + l) == -1.0
    decreases |w|
  {
    hide StageCost;
    assert forall k | 0 <= k < |v + w| :: (v + w)[k] == if k < |v| then v[k] else w[k - |v|];
    if w == [] {
      assert v + w == v && m + l == m;
      CostSettledOrNot(s, metric, v, m, |v|);
    } else {
      var n := |w| - 1;
      CostsAdd(s, metric, v, m, w[..n], l[..n]);
      CostPrefix(s, metric, w[..n], l[..n], w[n..], l[n..], n);
      assert w[..n] + w[n..] == w && l[..n] + l[n..] == l;
      CostPrefix(s, metric, v + w[..n], m + l[..n], w[n..], l[n..], |v| + n);
      assert v + w[..n] + w[n..] == v + w && m + l[..n] + l[n..] == m + l;
    }
  }

  lemma CostSettledOrNot(s: State, metric: Metric, v: seq<nat>, m: seq<nat>, k: nat)
    requires Candidate(s, v, m) && k <= |v|
    ensures CostUpTo(s, metric, v, m, k) >= 0.0 || CostUpTo(s, metric, v, m, k) == -1.0
  {
  }

  /** A placement's cost does not depend on the order of its stages. */
  lemma OrderIndifferent(s: State, metric: Metric, v: seq<nat>, m: seq<nat>, w: seq<nat>, l: seq<nat>)
    requires Candidate(s, v, m) && Candidate(s, w, l) && |v| == |m| && |w| == |l|
    ensures Candidate(s, v + w, m + l) && Candidate(s, w + v, l + m)
    ensures CandidateCost(s, metric, v + w, m + l) == CandidateCost(s, metric, w + v, l + m)
  {
    hide CandidateCost;
    CostsAdd(s, metric, v, m, w, l);
    CostsAdd(s, metric, w, l, v, m);
  }

  /** On a single stage it is the stage's cost. */
  lemma SingleCost(s: State, metric: Metric, i: nat, demand: nat)
    requires Staged(s) && i < STAGES && FeasibleAt(s, i, demand)
    ensures Candidate(s, [i], [demand]) && CandidateCost(s, metric, [i], [demand]) == StageCost(s, metric, i, demand)
  {
    hide StageCost, FeasibleAt;
    StageCostSign(s, metric, i, demand);
    assert CostUpTo(s, metric, [i], [demand], 0) == 0.0;
  }
}
