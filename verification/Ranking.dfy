/** How the allocator ranks candidate placements of a new program, and which one it settles on. */
module Ranking {
  import opened Dimensions
  import opened Columns
  import opened Holes
  import opened Layout
  import opened AllocatorModel
  import opened Costs

  /** How candidate placements are ranked. */
  datatype Metric = Fit | Moving

  /** Stage i passes the guards for a demand. */
  ghost predicate FeasibleAt(s: State, i: nat, demand: nat)
    requires Staged(s) && i < STAGES
  {
    Feasible(s.n, s.offset[i], s.frags[i], DemandsAt(s.table, s.funcs, i), demand)
  }

  ghost function StageCost(s: State, metric: Metric, i: nat, demand: nat): real
    requires Staged(s) && i < STAGES
  {
    var dem := DemandsAt(s.table, s.funcs, i);
    if !FeasibleAt(s, i, demand) then -1.0
    else if metric == Fit then FitCost(s.n, s.offset[i], dem, demand)
    else if InelasticRegion(dem) <= s.n then MovingCost(s.n, dem, demand) as real
    else -1.0
  }

  ghost predicate Candidate(s: State, v: seq<nat>, minDemand: seq<nat>)
  {
    Staged(s) && |v| <= |minDemand| && forall k | 0 <= k < |v| :: v[k] < STAGES
  }

  lemma WellFormedCandidate(s: State, fid: nat, minDemand: seq<nat>, v: seq<nat>)
    requires Staged(s) && WellFormed(Request(fid, minDemand, v))
    ensures Candidate(s, v, minDemand)
  {
  }

  ghost predicate AllFeasible(s: State, v: seq<nat>, minDemand: seq<nat>)
    requires Candidate(s, v, minDemand)
  {
    forall k | 0 <= k < |v| :: FeasibleAt(s, v[k], minDemand[k])
  }

  /** Entry k of the costs is the one the search settles on: the first feasible one, or the first with
      the least or greatest cost among the feasible ones. */
  ghost predicate IsChoice(costs: seq<real>, optimize: bool, minimize: bool, k: nat)
  {
    && k < |costs| && costs[k] >= 0.0
    && (!optimize ==> forall j | 0 <= j < k :: costs[j] < 0.0)
    && (optimize && minimize ==>
          forall j | 0 <= j < |costs| && costs[j] >= 0.0 :: costs[k] <= costs[j] && (j < k ==> costs[k] < costs[j]))
    && (optimize && !minimize ==>
          forall j | 0 <= j < |costs| && costs[j] >= 0.0 :: costs[k] >= costs[j] && (j < k ==> costs[k] > costs[j]))
  }

  /** The elastic region of stage i has a block for every elastic tenant. */
  ghost predicate RoomAt(s: State, i: nat)
    requires Staged(s) && i < STAGES
  {
    s.offset[i] + |Elastic(DemandsAt(s.table, s.funcs, i))| <= s.n
  }

  ghost predicate Roomy(s: State)
  {
    Staged(s) && forall i | 0 <= i < STAGES :: RoomAt(s, i)
  }

  lemma IdleRoomy(s: State)
    requires Inv(s) && s.pending.None?
    ensures Roomy(s)
  {
    forall i | 0 <= i < STAGES ensures RoomAt(s, i) {
      assert LayoutAt(s.table, s.offset, s.frags, s.funcs, i) && ColumnAt(s.n, s.table, s.funcs, i);
    }
  }

  /** A stage's cost is non-negative exactly if the stage passes the guards. */
  lemma StageCostSign(s: State, metric: Metric, i: nat, demand: nat)
    requires Staged(s) && i < STAGES
    ensures StageCost(s, metric, i, demand) >= 0.0 <==> FeasibleAt(s, i, demand)
  {
    var dem := DemandsAt(s.table, s.funcs, i);
    FitCostNonNegative(s.n, s.offset[i], dem, demand);
    SumOverSubset(dem, InelasticTenants(dem), dem.Keys);
    if InelasticRegion(dem) <= s.n {
      MovingCostNonNegative(s.n, dem, demand);
    }
  }

  /** The cost of a candidate's first k stages: their sum, or -1 as soon as one cannot take its demand. */
  ghost function CostUpTo(s: State, metric: Metric, v: seq<nat>, minDemand: seq<nat>, k: nat): real
    requires Candidate(s, v, minDemand) && k <= |v|
  {
    if k == 0 then 0.0
    else
      var before, part := CostUpTo(s, metric, v, minDemand, k - 1), StageCost(s, metric, v[k - 1], minDemand[k - 1]);
      if before < 0.0 || part < 0.0 then -1.0 else before + part
  }

  ghost function CandidateCost(s: State, metric: Metric, v: seq<nat>, minDemand: seq<nat>): real
    requires Candidate(s, v, minDemand)
  {
    CostUpTo(s, metric, v, minDemand, |v|)
  }

  lemma {:induction false} CostSign(s: State, metric: Metric, v: seq<nat>, minDemand: seq<nat>, k: nat)
    requires Candidate(s, v, minDemand) && k <= |v|
    ensures CostUpTo(s, metric, v, minDemand, k) >= 0.0 <==> forall j | 0 <= j < k :: FeasibleAt(s, v[j], minDemand[j])
    decreases k
  {
    hide StageCost, FeasibleAt;
    if k > 0 {
      CostSign(s, metric, v, minDemand, k - 1);
      StageCostSign(s, metric, v[k - 1], minDemand[k - 1]);
    }
  }

  /** A candidate's cost is non-negative exactly if every one of its stages is feasible. */
  lemma CandidateFeasible(s: State, metric: Metric, v: seq<nat>, minDemand: seq<nat>)
    requires Candidate(s, v, minDemand)
    ensures CandidateCost(s, metric, v, minDemand) >= 0.0 <==> AllFeasible(s, v, minDemand)
  {
    CostSign(s, metric, v, minDemand, |v|);
  }

  /** An infeasible stage settles the cost. */
  lemma {:induction false} CostSettled(s: State, metric: Metric, v: seq<nat>, minDemand: seq<nat>, k: nat, n: nat)
    requires Candidate(s, v, minDemand) && k <= n <= |v| && CostUpTo(s, metric, v, minDemand, k) < 0.0
    ensures CostUpTo(s, metric, v, minDemand, n) == -1.0
    decreases n
  {
    hide StageCost;
    if k < n {
      CostSettled(s, metric, v, minDemand, k, n - 1);
    }
  }

  /** The costs of all candidates. */
  ghost function CandidateCosts(s: State, metric: Metric, enumeration: seq<seq<nat>>, minDemand: seq<nat>): (costs: seq<real>)
    requires forall j | 0 <= j < |enumeration| :: Candidate(s, enumeration[j], minDemand)
    ensures |costs| == |enumeration|
    ensures forall j | 0 <= j < |costs| :: costs[j] == CandidateCost(s, metric, enumeration[j], minDemand)
  {
    seq(|enumeration|, j requires 0 <= j < |enumeration| => CandidateCost(s, metric, enumeration[j], minDemand))
  }

  predicate Better(cost: real, bestCost: real, minimize: bool)
  {
    (minimize && cost < bestCost) || (!minimize && cost > bestCost)
  }

  /** The best of the first i costs, or -1 when none is feasible. */
  ghost predicate BestOf(costs: seq<real>, i: nat, minimize: bool, best: int)
    requires i <= |costs|
  {
    if best < 0 then best == -1 && forall j | 0 <= j < i :: costs[j] < 0.0
    else best < i && IsChoice(costs[..i], true, minimize, best)
  }

  lemma BestOfNext(costs: seq<real>, i: nat, minimize: bool, best: int)
    requires i < |costs| && BestOf(costs, i, minimize, best)
    ensures BestOf(costs, i + 1, minimize,
                   if costs[i] >= 0.0 && (best < 0 || Better(costs[i], costs[best], minimize)) then i else best)
  {
  }
}
