/** Is a placement that the cost functions accept always one that can be laid out? */
module Admission {
  import opened Dimensions
  import opened Columns
  import opened Holes
  import opened Layout
  import opened AllocatorModel
  import opened Costs
  import opened Sharing
  import opened Ranking

  /** No stage has a free block just below its elastic offset. */
  ghost predicate NoTrailingHoles(s: State)
  {
    Staged(s) && forall i | 0 <= i < STAGES :: SolidAt(s, i)
  }

  ghost predicate SolidAt(s: State, i: nat)
    requires Staged(s) && i < STAGES
  {
    s.offset[i] <= |s.table.cols[i]| && NoTrailingHole(s.table.cols[i], s.offset[i])
  }

  /** Stage i gives the request room: it asks for nothing or for an elastic share there, or the region
      above the offset holds its demand and a block for every elastic tenant, or some free run that
      ends strictly below the offset holds its demand. */
  ghost predicate RoomFor(s: State, r: Request, i: nat)
    requires Staged(s) && i < STAGES
  {
    var arr := ArrivalOn(r, i);
    || !Inelastic(arr)
    || arr.demand + |Elastic(DemandsAt(s.table, s.funcs, i))| <= s.n - s.offset[i]
    || exists a: int, l: int :: ClosedRun(s.table.cols[i], s.offset[i], a, l) && arr.demand <= l
  }

  /** The candidate's cost is non-negative: every stage passes the guards. */
  ghost predicate Accepted(s: State, r: Request)
  {
    Candidate(s, r.stages, r.minDemand) && AllFeasible(s, r.stages, r.minDemand)
  }

  /** Some candidate placement is accepted. */
  ghost predicate Admissible(s: State, fid: Fid, minDemand: seq<nat>, enumeration: seq<seq<nat>>)
  {
    exists j :: 0 <= j < |enumeration| && Accepted(s, Request(fid, minDemand, enumeration[j]))
  }

  /** A candidate's cost is non-negative exactly if it is accepted: a program is refused exactly when no
      candidate is, and the one the search settles on is. */
  lemma SearchAdmits(s: State, metric: Metric, fid: Fid, minDemand: seq<nat>, enumeration: seq<seq<nat>>)
    requires forall j | 0 <= j < |enumeration| :: Candidate(s, enumeration[j], minDemand)
    ensures var costs := CandidateCosts(s, metric, enumeration, minDemand);
            && ((forall j | 0 <= j < |costs| :: costs[j] < 0.0) <==> !Admissible(s, fid, minDemand, enumeration))
            && forall j | 0 <= j < |costs| && costs[j] >= 0.0 :: Accepted(s, Request(fid, minDemand, enumeration[j]))
  {
    var costs := CandidateCosts(s, metric, enumeration, minDemand);
    forall j | 0 <= j < |costs|
      ensures costs[j] >= 0.0 <==> Accepted(s, Request(fid, minDemand, enumeration[j]))
    {
      CandidateFeasible(s, metric, enumeration[j], minDemand);
    }
  }

  /** How the allocator ranks placements. */
  datatype Policy = Policy(metric: Metric, optimize: bool, minimize: bool)

  /** The search settles on request r among the candidate placements: it is accepted, and the first such
      one or the first of the best ones. */
  ghost predicate SettlesOn(s: State, policy: Policy, fid: Fid, minDemand: seq<nat>, enumeration: seq<seq<nat>>, r: Request)
  {
    && Accepted(s, r) && (forall j | 0 <= j < |enumeration| :: Candidate(s, enumeration[j], minDemand))
    && exists j: nat :: j < |enumeration| && r == Request(fid, minDemand, enumeration[j])
         && IsChoice(CandidateCosts(s, policy.metric, enumeration, minDemand), policy.optimize, policy.minimize, j)
  }

  lemma ChoiceSettles(s: State, policy: Policy, fid: Fid, minDemand: seq<nat>, enumeration: seq<seq<nat>>, stages: seq<nat>)
    requires forall j | 0 <= j < |enumeration| :: Candidate(s, enumeration[j], minDemand)
    requires var costs := CandidateCosts(s, policy.metric, enumeration, minDemand);
             && (exists k: nat :: IsChoice(costs, policy.optimize, policy.minimize, k) && enumeration[k] == stages)
             && forall j | 0 <= j < |costs| && costs[j] >= 0.0 :: Accepted(s, Request(fid, minDemand, enumeration[j]))
    ensures SettlesOn(s, policy, fid, minDemand, enumeration, Request(fid, minDemand, stages))
  {
    hide Accepted;
    var costs := CandidateCosts(s, policy.metric, enumeration, minDemand);
    var k: nat :| IsChoice(costs, policy.optimize, policy.minimize, k) && enumeration[k] == stages;
    assert costs[k] >= 0.0;
  }

  // ---- what is refused ------------------------------------------------------------------

  /** An elastic arrival is accepted on a stage exactly if it can be laid out there. */
  lemma ElasticAdmitted(col: seq<Fid>, off: nat, holes: seq<Hole>, dem: map<Fid, nat>, arr: Arrival)
    requires StageOk(col, off, dem) && ArrivalOk(dem, arr) && arr.Arrives? && arr.demand == 1
    ensures Feasible(|col|, off, holes, dem, 1) <==> Placeable(col, off, dem, arr)
  {
    ElasticAdmit(dem, arr);
    OccupiedIs(dem);
    InelasticRegionIs(col, off, dem);
  }

  /** Blocks a closed free run leaves to the inelastic tenants. */
  lemma RunLeaves(col: seq<Fid>, off: nat, dem: map<Fid, nat>, a: int, l: int)
    requires StageOk(col, off, dem) && ClosedRun(col, off, a, l)
    ensures InelasticRegion(dem) + l <= off
  {
    InelasticRegionIs(col, off, dem);
    var held := set j: nat | j < off && col[j] != 0;
    var start: nat, len: nat := a, l;
    var free := Upto(start, start + len);
    assert held !! free && held + free <= Upto(0, off);
    SubsetSize(held + free, Upto(0, off));
  }

  /** An inelastic arrival that can be laid out is refused exactly if the region above the offset has no room
      for it beside the elastic tenants and the list is not headed by a hole that holds it and is longer
      than that region. */
  lemma RefusedExactly(col: seq<Fid>, off: nat, holes: seq<Hole>, dem: map<Fid, nat>, arr: Arrival)
    requires StageOk(col, off, dem) && ArrivalOk(dem, arr) && arr.Arrives? && arr.demand > 1
    requires Placeable(col, off, dem, arr)
    ensures !Feasible(|col|, off, holes, dem, arr.demand) <==>
              && arr.demand + |Elastic(dem)| > |col| - off
              && (holes == [] || holes[0].len <= |col| - off || holes[0].len < arr.demand)
  {
    OccupiedIs(dem);
    InelasticRegionIs(col, off, dem);
    RescanFits(col, off, arr.demand);
    if arr.demand + |Elastic(dem)| > |col| - off {
      var a: int, l: int :| ClosedRun(col, off, a, l) && arr.demand <= l;
      RunLeaves(col, off, dem, a, l);
    }
  }

  /** Such a stage: a hole of two blocks below the offset and four elastic programs on the four blocks above
      it. An arrival asking for two blocks would fit the hole, and is refused. */
  lemma FittingRefused(col: seq<Fid>, dem: map<Fid, nat>, arr: Arrival)
    requires col == [0, 0, 1, 1, 2, 3, 4, 5] && dem.Keys == {1, 2, 3, 4, 5} && arr == Arrives(6, 2)
    requires forall f | f in dem :: dem[f] == if f == 1 then 2 else 1
    ensures StageOk(col, 4, dem) && HolesOk(col, 4, [Hole(0, 2)])
    ensures Placeable(col, 4, dem, arr) && !Feasible(8, 4, [Hole(0, 2)], dem, 2)
  {
    assert Elastic(dem) == {2, 3, 4, 5};
    FittingStage(col, dem);
    assert ClosedRun(col, 4, 0, 2);
    RescanFits(col, 4, 2);
    RefusedExactly(col, 4, [Hole(0, 2)], dem, arr);
  }

  lemma FittingStage(col: seq<Fid>, dem: map<Fid, nat>)
    requires col == [0, 0, 1, 1, 2, 3, 4, 5] && dem.Keys == {1, 2, 3, 4, 5} && Elastic(dem) == {2, 3, 4, 5}
    requires forall f | f in dem :: dem[f] == if f == 1 then 2 else 1
    ensures StageOk(col, 4, dem)
  {
    forall f | f in dem ensures Hosted(col, f, dem[f]) {
      assert IsRun(col, f, if f == 1 then 2 else f + 2, dem[f]);
    }
  }

  lemma AcceptedAt(s: State, r: Request, i: nat)
    requires Inv(s) && s.pending.None? && RequestOk(s, r) && Accepted(s, r) && i < STAGES
    ensures s.offset[i] <= s.n == |s.table.cols[i]|
    ensures StageOk(s.table.cols[i], s.offset[i], DemandsAt(s.table, s.funcs, i))
    ensures HolesOk(s.table.cols[i], s.offset[i], s.frags[i])
    ensures ArrivalOk(DemandsAt(s.table, s.funcs, i), ArrivalOn(r, i))
    ensures ArrivalOn(r, i).Arrives? ==>
              Admits(s.n, s.offset[i], s.frags[i], DemandsAt(s.table, s.funcs, i), ArrivalOn(r, i).demand)
  {
    assert ColumnAt(s.n, s.table, s.funcs, i) && LayoutAt(s.table, s.offset, s.frags, s.funcs, i);
    NewDemands(s.table, s.funcs, r, i);
    ArrivalOnStage(r, i);
    if i in r.stages {
      var k :| 0 <= k < |r.stages| && r.stages[k] == i;
      assert FeasibleAt(s, r.stages[k], r.minDemand[k]);
      assert Positions(r.stages)[i] == k;
    }
  }

  lemma NoArrivalPlaceable(s: State, r: Request, i: nat)
    requires Inv(s) && s.pending.None? && i < STAGES && ArrivalOn(r, i).NoArrival?
    ensures PlaceableAt(s, r, i)
  {
    assert ColumnAt(s.n, s.table, s.funcs, i) && LayoutAt(s.table, s.offset, s.frags, s.funcs, i);
  }

  /** Admission is exact: an accepted placement can be laid out if and only if every stage gives it
      room. Without a trailing hole every stage does. */
  lemma AdmissionIsExact(s: State, r: Request)
    requires Inv(s) && s.pending.None? && RequestOk(s, r) && Accepted(s, r)
    ensures AllPlaceable(s, r) <==> forall i | 0 <= i < STAGES :: RoomFor(s, r, i)
    ensures NoTrailingHoles(s) ==> AllPlaceable(s, r)
  {
    forall i | 0 <= i < STAGES
      ensures PlaceableAt(s, r, i) <==> RoomFor(s, r, i)
      ensures NoTrailingHoles(s) ==> PlaceableAt(s, r, i)
    {
      PlaceableIffRoom(s, r, i);
    }
  }

  lemma PlaceableIffRoom(s: State, r: Request, i: nat)
    requires Inv(s) && s.pending.None? && RequestOk(s, r) && Accepted(s, r) && i < STAGES
    ensures PlaceableAt(s, r, i) <==> RoomFor(s, r, i)
    ensures NoTrailingHoles(s) ==> PlaceableAt(s, r, i)
  {
    AcceptedAt(s, r, i);
    if ArrivalOn(r, i).NoArrival? {
      NoArrivalPlaceable(s, r, i);
    } else {
      var dem, arr := DemandsAt(s.table, s.funcs, i), ArrivalOn(r, i);
      AdmissionExact(s.table.cols[i], s.offset[i], s.frags[i], dem, arr);
      if NoTrailingHoles(s) {
        assert SolidAt(s, i);
        AdmissionSound(s.table.cols[i], s.offset[i], s.frags[i], dem, arr);
      }
    }
  }

  /** Laying out an accepted placement in a state without trailing holes re-establishes the invariant, loses
      no tenant of any stage, and hosts the arrival on every chosen stage. */
  lemma AcceptedIsHosted(s: State, r: Request, s': State, i: nat)
    requires Inv(s) && s.pending.None? && RequestOk(s, r) && Accepted(s, r) && NoTrailingHoles(s)
    requires Enqueues(s, r, s') && i < STAGES
    ensures Inv(s')
    ensures var t' := s'.pending.value.table;
            && |t'.cols[i]| == s.n && s.table.tenants[i] <= t'.tenants[i]
            && (i in r.stages ==> r.fid in t'.tenants[i])
            && forall f | f in t'.tenants[i] :: exists j :: 0 <= j < s.n && t'.cols[i][j] == f
  {
    EnqueuesOk(s, r, s');
    var t' := s'.pending.value.table;
    assert ColumnAt(s'.n, t', s'.funcs, i);
    assert t'.tenants[i] == if i in r.stages then s.table.tenants[i] + {r.fid} else s.table.tenants[i];
    forall f | f in t'.tenants[i] ensures exists j :: 0 <= j < s.n && t'.cols[i][j] == f {
      var dem := DemandsAt(t', s'.funcs, i);
      assert f in dem;
      var start: nat, len: nat :| IsRun(t'.cols[i], f, start, len) && (dem[f] > 1 ==> len == dem[f]);
      assert t'.cols[i][start] == f;
    }
  }
}
