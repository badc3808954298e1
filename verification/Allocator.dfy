/** The stage allocator: the tables the controller keeps, updated in place. Every method is proved to
    take the step of module AllocatorModel it stands for. */
module Allocators {
  import opened Dimensions
  import opened Columns
  import opened Holes
  import opened Ordered
  import opened Wrappers
  import opened AllocatorModel
  import opened StageLayout
  import opened Costs
  import opened Ranking
  import opened AllocatorSteps
  import opened ChangeReport

  /** The allocation being computed: its program, and its tables once they are queued. */
  datatype Queue = Queue(fid: Option<Fid>, table: Option<Table>)

  class Allocator {
    const maxOccupancy: nat
    const metric: Metric
    const optimize: bool
    const minimize: bool
    var allocationMatrix: array2<Fid>
    var elasticOffset: seq<nat>
    var fragmentation: seq<seq<Hole>>
    var allocation: set<nat>
    var allocationMap: seq<set<Fid>>
    var revAllocationMap: map<Fid, seq<nat>>
    var activeFuncs: map<Fid, App>
    var queue: Queue

    /** The current allocation. */
    ghost function Current(): Table
      reads this, allocationMatrix
    {
      Table(MatrixColumns(allocationMatrix), allocationMap, revAllocationMap, allocation)
    }

    /** The allocator as a state of the model. */
    ghost function Abs(): State
      reads this, allocationMatrix
    {
      State(maxOccupancy, Current(), elasticOffset, fragmentation, activeFuncs,
            if queue.table.Some? && queue.fid.Some? then Some(Queued(queue.fid.value, queue.table.value)) else None)
    }

    ghost predicate Dims()
      reads this
    {
      allocationMatrix.Length0 == maxOccupancy && allocationMatrix.Length1 == STAGES
    }

    ghost predicate Valid()
      reads this, allocationMatrix
    {
      Dims() && (queue.table.Some? ==> queue.fid.Some?) && Inv(Abs())
    }

    constructor (granularity: nat, metric: Metric, optimize: bool, minimize: bool)
      ensures Valid() && fresh(allocationMatrix) && Initial(Abs()) && maxOccupancy == granularity
    {
      maxOccupancy := granularity;
      this.metric, this.optimize, this.minimize := metric, optimize, minimize;
      elasticOffset := seq(STAGES, i => 0);
      fragmentation := seq(STAGES, i => []);
      allocation, revAllocationMap := {}, map[];
      allocationMap := seq(STAGES, i => {});
      activeFuncs := map[];
      allocationMatrix := new Fid[granularity, STAGES]((i, j) => 0);
      queue := Queue(None, None);
      new;
      forall i | 0 <= i < STAGES ensures Column(allocationMatrix, i) == seq(granularity, j => 0) {}
      assert MatrixColumns(allocationMatrix) == seq(STAGES, i => seq(granularity, j => 0));
      InitialOk(Abs());
    }

    // ---- choosing a placement -----------------------------------------------------------

    /** The demands of the tenants of stage i. */
    function StageDemands(i: nat): map<Fid, nat>
      requires i < |allocationMap|
      reads this
    {
      Demands(activeFuncs, allocationMap[i], i)
    }

    /** The cost of a candidate placement under the allocator's metric, or -1 if it does not fit. */
    method GetCost(memIdx: seq<nat>, minDemand: seq<nat>) returns (cost: real)
      requires Dims() && Roomy(Abs())
      requires |memIdx| <= |minDemand|
      requires forall k | 0 <= k < |memIdx| :: memIdx[k] < STAGES
      requires forall k | 0 <= k < |minDemand| :: 1 <= minDemand[k]
      ensures Candidate(Abs(), memIdx, minDemand) && cost == CandidateCost(Abs(), metric, memIdx, minDemand)
    {
      hide StageCost;
      ghost var s := Abs();
      cost := 0.0;
      var i := 0;
      while i < |memIdx|
        invariant 0 <= i <= |memIdx| && cost >= 0.0
        invariant Candidate(s, memIdx, minDemand) && cost == CostUpTo(s, metric, memIdx, minDemand, i)
      {
        var stageCost := GetStageCost(memIdx[i], minDemand[i]);
        if stageCost < 0.0 {
          CostSettled(s, metric, memIdx, minDemand, i + 1, |memIdx|);
          return -1.0;
        }
        cost := cost + stageCost;
        i := i + 1;
      }
    }

    /** The cost of one stage under the allocator's metric. */
    method GetStageCost(idx: nat, demand: nat) returns (cost: real)
      requires Dims() && Roomy(Abs()) && idx < STAGES && 1 <= demand
      ensures Staged(Abs()) && cost == StageCost(Abs(), metric, idx, demand)
    {
      hide Feasible, FitCost, MovingCost;
      ghost var s := Abs();
      assert RoomAt(s, idx);
      var dem := StageDemands(idx);
      assert dem == DemandsAt(s.table, s.funcs, idx);
      if metric == Fit {
        cost := StageCostFit(maxOccupancy, elasticOffset[idx], fragmentation[idx], dem, demand);
      } else {
        var c := StageCostMoving(maxOccupancy, elasticOffset[idx], fragmentation[idx], dem, demand);
        cost := c as real;
      }
    }

    /** Ranks the candidate placements and settles on one; -1 when nothing fits. */
    method Search(minDemand: seq<nat>, enumeration: seq<seq<nat>>) returns (best: int)
      requires Dims() && Roomy(Abs())
      requires forall j | 0 <= j < |minDemand| :: 1 <= minDemand[j]
      requires forall j | 0 <= j < |enumeration| :: Candidate(Abs(), enumeration[j], minDemand)
      ensures var costs := CandidateCosts(Abs(), metric, enumeration, minDemand);
              if best < 0 then best == -1 && forall j | 0 <= j < |costs| :: costs[j] < 0.0
              else IsChoice(costs, optimize, minimize, best)
    {
      hide CandidateCost;
      ghost var costs := CandidateCosts(Abs(), metric, enumeration, minDemand);
      best := -1;
      var bestCost := 0.0;
      var i := 0;
      while i < |enumeration|
        invariant 0 <= i <= |enumeration| == |costs|
        invariant BestOf(costs, i, minimize, best)
        invariant best >= 0 ==> optimize && bestCost == costs[best]
      {
        assert Candidate(Abs(), enumeration[i], minDemand);
        var cost := GetCost(enumeration[i], minDemand);
        assert cost == costs[i];
        BestOfNext(costs, i, minimize, best);
        if cost >= 0.0 {
          if !optimize {
            best := i;
            return;
          }
          if best < 0 || Better(cost, bestCost, minimize) {
            best, bestCost := i, cost;
          }
        }
        i := i + 1;
      }
      assert costs[..i] == costs;
    }

    /** Chooses a placement for a new program. The program becomes known with the chosen stages, or
        stays unknown when nothing fits. Also returns the stages in use and the tenants with the
        program added. */
    method ComputeAllocation(fid: Fid, minDemand: seq<nat>, enumeration: seq<seq<nat>>)
      returns (optimal: Option<seq<nat>>, newUsed: set<nat>, newMap: seq<set<Fid>>)
      requires Valid() && queue.table.None? && fid !in activeFuncs
      requires forall j | 0 <= j < |enumeration| :: WellFormed(Request(fid, minDemand, enumeration[j]))
      requires forall j | 0 <= j < |minDemand| :: 1 <= minDemand[j]
      modifies this`queue, this`activeFuncs
      ensures queue == Queue(Some(fid), None)
      ensures forall j | 0 <= j < |enumeration| :: Candidate(old(Abs()), enumeration[j], minDemand)
      ensures var costs := CandidateCosts(old(Abs()), metric, enumeration, minDemand);
              if optimal.None? then forall j | 0 <= j < |costs| :: costs[j] < 0.0
              else exists k: nat :: IsChoice(costs, optimize, minimize, k) && enumeration[k] == optimal.value
      ensures optimal.None? ==> activeFuncs == old(activeFuncs)
      ensures optimal.Some? ==> activeFuncs == NewFuncs(old(activeFuncs), Request(fid, minDemand, optimal.value))
      ensures optimal.Some? ==> newUsed == allocation + Elements(optimal.value)
      ensures optimal.Some? ==> newMap == NewTenants(allocationMap, Request(fid, minDemand, optimal.value))
    {
      hide CandidateCosts, WellFormed, NewFuncs, NewTenants;
      queue := Queue(Some(fid), None);
      IdleRoomy(Abs());
      forall j | 0 <= j < |enumeration| ensures Candidate(Abs(), enumeration[j], minDemand) {
        WellFormedCandidate(Abs(), fid, minDemand, enumeration[j]);
      }
      var best := Search(minDemand, enumeration);
      if best < 0 {
        return None, allocation, allocationMap;
      }
      var r := Request(fid, minDemand, enumeration[best]);
      optimal := Some(enumeration[best]);
      newUsed := allocation + Elements(enumeration[best]);
      newMap := NewTenants(allocationMap, r);
      activeFuncs := NewFuncs(activeFuncs, r);
    }

    // ---- laying out all stages ----------------------------------------------------------

    /** The program r has been chosen a placement in state base, and nothing else has changed since. */
    ghost predicate Chosen(base: State, r: Request)
      reads this, allocationMatrix
    {
      && Dims() && queue == Queue(Some(r.fid), None)
      && Inv(base) && base.pending.None? && RequestOk(base, r)
      && Abs() == base.(funcs := NewFuncs(base.funcs, r))
    }

    /** One stage of computeAllocationMatrix: column i of the new matrix, the stage's offset and its hole
        list. A stage without tenants is skipped. */
    method LayoutStage(m: array2<Fid>, i: nat, newMap: seq<set<Fid>>, ghost base: State, ghost r: Request) returns (ok: bool)
      requires Dims() && i < STAGES == |elasticOffset| == |fragmentation|
      requires Staged(base) && Ready(base, r, i) && base.n == maxOccupancy
      requires newMap == NewTenants(base.table.tenants, r) && activeFuncs == NewFuncs(base.funcs, r)
      requires Column(allocationMatrix, i) == base.table.cols[i]
      requires elasticOffset[i] == base.offset[i] && fragmentation[i] == base.frags[i]
      requires m != allocationMatrix && m.Length0 == maxOccupancy && m.Length1 == STAGES
      requires forall j | 0 <= j < m.Length0 :: m[j, i] == 0
      modifies m, this`elasticOffset, this`fragmentation
      ensures OnlyColumn(m, i)
      ensures |elasticOffset| == |fragmentation| == STAGES
      ensures elasticOffset == old(elasticOffset)[i := elasticOffset[i]]
      ensures fragmentation == old(fragmentation)[i := fragmentation[i]]
      ensures ok <==> PlaceableAt(base, r, i)
      ensures ok ==> LaidOut(base, r, i, Column(m, i), elasticOffset[i], fragmentation[i])
    {
      ok := true;
      if newMap[i] != {} {
        var dem' := Demands(activeFuncs, newMap[i], i);
        var off', holes';
        ok, off', holes' := LayoutColumn(allocationMatrix, m, i, elasticOffset[i], dem',
                                         DemandsAt(base.table, base.funcs, i), ArrivalOn(r, i));
        if ok {
          elasticOffset := elasticOffset[i := off'];
          fragmentation := fragmentation[i := holes'];
        }
      }
    }

    /** The new matrix, offsets and hole lists after the first i stages were laid out: cols, offs and
        frags, and for the other stages a free column and the old entries. */
    ghost predicate Halfway(m: array2<Fid>, base: State, r: Request,
                            cols: seq<seq<Fid>>, offs: seq<nat>, frags: seq<seq<Hole>>, i: nat)
      requires Staged(base)
      reads this, allocationMatrix, m
    {
      && Dims() && m.Length0 == maxOccupancy && m.Length1 == STAGES && i <= STAGES
      && |cols| == |offs| == |frags| == i
      && (forall k | 0 <= k < i :: |cols[k]| == maxOccupancy)
      && (forall j, k | 0 <= j < maxOccupancy && 0 <= k < STAGES :: m[j, k] == if k < i then cols[k][j] else 0)
      && Updated(elasticOffset, offs, base.offset) && Updated(fragmentation, frags, base.frags)
      && AllLaidOut(base, r, cols, offs, frags)
      && MatrixColumns(allocationMatrix) == base.table.cols
    }

    method LayoutNext(m: array2<Fid>, i: nat, newMap: seq<set<Fid>>, ghost base: State, ghost r: Request,
                      ghost cols: seq<seq<Fid>>, ghost offs: seq<nat>, ghost frags: seq<seq<Hole>>) returns (ok: bool)
      requires Staged(base) && AllReady(base, r) && base.n == maxOccupancy && i < STAGES
      requires Halfway(m, base, r, cols, offs, frags, i) && m != allocationMatrix && PlaceablePrefix(base, r, i)
      requires newMap == NewTenants(base.table.tenants, r) && activeFuncs == NewFuncs(base.funcs, r)
      modifies m, this`elasticOffset, this`fragmentation
      ensures |elasticOffset| == |fragmentation| == STAGES
      ensures ok ==> Halfway(m, base, r, cols + [Column(m, i)], offs + [elasticOffset[i]], frags + [fragmentation[i]], i + 1)
      ensures if ok then PlaceablePrefix(base, r, i + 1) else !AllPlaceable(base, r)
    {
      assert Ready(base, r, i);
      ghost var offset0, frags0 := elasticOffset, fragmentation;
      ok := LayoutStage(m, i, newMap, base, r);
      PlaceableNext(base, r, i);
      if ok {
        LaidOutNext(base, r, cols, offs, frags, Column(m, i), elasticOffset[i], fragmentation[i]);
        UpdatedNext(offset0, offs, base.offset, elasticOffset[i]);
        UpdatedNext(frags0, frags, base.frags, fragmentation[i]);
      }
    }

    /** Lays out every stage that has tenants under newMap. Fails, as a raised error does, at the first
        stage that cannot be laid out. */
    method ComputeAllocationMatrix(newMap: seq<set<Fid>>, ghost base: State, ghost r: Request)
      returns (ok: bool, m: array2<Fid>)
      requires Dims() && Staged(base) && base.n == maxOccupancy && AllReady(base, r)
      requires MatrixColumns(allocationMatrix) == base.table.cols
      requires elasticOffset == base.offset && fragmentation == base.frags
      requires newMap == NewTenants(base.table.tenants, r) && activeFuncs == NewFuncs(base.funcs, r)
      modifies this`elasticOffset, this`fragmentation
      ensures fresh(m) && m.Length0 == maxOccupancy && m.Length1 == STAGES
      ensures |elasticOffset| == |fragmentation| == STAGES
      ensures if ok then PlaceablePrefix(base, r, STAGES) else !AllPlaceable(base, r)
      ensures ok ==> AllLaidOut(base, r, MatrixColumns(m), elasticOffset, fragmentation)
    {
      m := new Fid[maxOccupancy, STAGES]((i, j) => 0);
      ghost var cols, offs, frags := [], [], [];
      var i := 0;
      while i < STAGES
        invariant 0 <= i <= STAGES
        invariant Halfway(m, base, r, cols, offs, frags, i) && PlaceablePrefix(base, r, i)
      {
        ok := LayoutNext(m, i, newMap, base, r, cols, offs, frags);
        if !ok {
          return;
        }
        cols, offs, frags := cols + [Column(m, i)], offs + [elasticOffset[i]], frags + [fragmentation[i]];
        i := i + 1;
      }
      ok := true;
      ColumnsAre(m, cols);
      assert elasticOffset == offs && fragmentation == frags;
    }

    /** Computes the new layout for the chosen placement and queues it, reporting the elastic programs
        that lose blocks. Fails, as a raised error does, when some stage cannot be laid out; the
        current allocation is then untouched. */
    method EnqueueAllocation(newUsed: set<nat>, newMap: seq<set<Fid>>, ghost base: State, ghost r: Request)
      returns (ok: bool, remaps: Remaps)
      requires Chosen(base, r) && newMap == NewTenants(base.table.tenants, r)
      requires newUsed == base.table.used + Elements(r.stages)
      modifies this`elasticOffset, this`fragmentation, this`queue
      ensures ok <==> AllPlaceable(base, r)
      ensures ok ==> Valid() && Enqueues(base, r, Abs())
      ensures ok ==> queue.table.Some? && Reports(maxOccupancy, base.table, queue.table.value, activeFuncs, remaps)
      ensures !ok ==> queue == old(queue)
    {
      remaps := map[];
      forall i | 0 <= i < STAGES ensures Ready(base, r, i) {
        StageReady(base, r, i);
      }
      var m;
      ok, m := ComputeAllocationMatrix(newMap, base, r);
      if ok {
        remaps := Compare(allocationMatrix, m, activeFuncs);
        var newRev := InvertMap(newMap);
        NewTableIndexed(base.table, r, MatrixColumns(m), newRev);
        queue := Queue(queue.fid, Some(Table(MatrixColumns(m), newMap, newRev, newUsed)));
        EnqueuedState(base, r, Abs());
        CompareIsExact(maxOccupancy, base.table, queue.table.value, activeFuncs, r.fid, remaps);
      }
    }

    /** Makes the queued allocation the current one. */
    method ApplyQueuedAllocation() returns (applied: bool)
      requires Valid() && (queue.fid.Some? ==> queue.table.Some?)
      modifies this
      ensures applied <==> old(queue).fid.Some?
      ensures Valid() && queue == Queue(None, None)
      ensures applied ==> Applies(old(Abs()), Abs()) && fresh(allocationMatrix)
      ensures !applied ==> Abs() == old(Abs()) && allocationMatrix == old(allocationMatrix)
    {
      if queue.fid.None? {
        return false;
      }
      var t := queue.table.value;
      ghost var s := Abs();
      forall i | 0 <= i < STAGES ensures |t.cols[i]| == maxOccupancy {
        assert ColumnAt(s.n, t, s.funcs, i);
      }
      allocation, allocationMap, revAllocationMap := t.used, t.tenants, t.rev;
      var m := new Fid[maxOccupancy, STAGES]((j, i) requires 0 <= j < maxOccupancy && 0 <= i < STAGES => t.cols[i][j]);
      ColumnsAre(m, t.cols);
      allocationMatrix := m;
      queue := Queue(None, None);
      assert Current() == t;
      AppliesOk(s, Abs());
      applied := true;
    }

    /** Program fid leaves stage i. */
    method LeaveStage(fid: Fid, i: nat, ghost base: State, ghost done: set<nat>)
      requires Dims() && Inv(base) && base.pending.None? && base.n == maxOccupancy && base.funcs == activeFuncs
      requires i < STAGES && i !in done && fid in base.table.tenants[i]
      requires Left(base, fid, done, MatrixColumns(allocationMatrix), allocationMap, allocation, elasticOffset, fragmentation)
      modifies this`allocationMap, this`allocation, this`elasticOffset, this`fragmentation, allocationMatrix
      ensures Left(base, fid, done + {i}, MatrixColumns(allocationMatrix), allocationMap, allocation, elasticOffset, fragmentation)
    {
      ghost var cols := MatrixColumns(allocationMatrix);
      assert LeftAt(base, fid, done, cols, allocationMap, elasticOffset, fragmentation, i);
      ghost var start, len := StageOfTenant(base, fid, i);
      var isElastic := Demand(activeFuncs, fid, i) == 1;
      allocationMap := allocationMap[i := allocationMap[i] - {fid}];
      var empty, removed, last := ClearBlocks(allocationMatrix, i, fid, start, len);
      StageEmptied(base, fid, i, Column(allocationMatrix, i));
      if empty {
        allocation := allocation - {i};
      }
      if !isElastic {
        if last + 1 == elasticOffset[i] {
          elasticOffset := elasticOffset[i := elasticOffset[i] - removed];
        } else {
          var first := last - removed + 1;
          fragmentation := fragmentation[i := fragmentation[i] + [Hole(first, removed)]];
        }
      }
      ColumnReplaced(allocationMatrix, cols, i);
      assert elasticOffset == old(elasticOffset)[i := elasticOffset[i]];
      assert fragmentation == old(fragmentation)[i := fragmentation[i]];
      LeftNext(base, fid, done, cols, old(allocationMap), old(allocation), old(elasticOffset), old(fragmentation), i,
               Column(allocationMatrix, i), allocation, elasticOffset[i], fragmentation[i]);
    }

    /** Program fid leaves the listed stages, which are all of its own. */
    method LeaveStages(fid: Fid, stages: seq<nat>, ghost base: State)
      requires Dims() && Inv(base) && base.pending.None? && base == Abs()
      requires Ascending(stages) && Elements(stages) == StagesOf(base.table.tenants, fid)
      modifies this`allocationMap, this`allocation, this`elasticOffset, this`fragmentation, allocationMatrix
      ensures Left(base, fid, StagesOf(base.table.tenants, fid), MatrixColumns(allocationMatrix), allocationMap, allocation,
                   elasticOffset, fragmentation)
    {
      LeftNone(base, fid);
      var k := 0;
      while k < |stages|
        invariant 0 <= k <= |stages|
        invariant Left(base, fid, Elements(stages[..k]), MatrixColumns(allocationMatrix), allocationMap, allocation,
                       elasticOffset, fragmentation)
      {
        NextStage(base.table.tenants, fid, stages, k);
        LeaveStage(fid, stages[k], base, Elements(stages[..k]));
        k := k + 1;
      }
      assert stages[..k] == stages;
    }

    /** Program fid leaves all its stages; false when it is not known. */
    method Deallocate(fid: Fid) returns (known: bool)
      requires Valid() && queue.table.None?
      modifies this`allocationMap, this`allocation, this`elasticOffset, this`fragmentation, allocationMatrix
      modifies this`revAllocationMap, this`activeFuncs
      ensures known <==> fid in old(activeFuncs)
      ensures Valid()
      ensures known ==> Departs(old(Abs()), fid, Abs())
      ensures !known ==> Abs() == old(Abs())
    {
      if fid !in activeFuncs {
        return false;
      }
      ghost var base := Abs();
      StagesListed(base, fid);
      LeaveStages(fid, revAllocationMap[fid], base);
      revAllocationMap := revAllocationMap - {fid};
      activeFuncs := activeFuncs - {fid};
      LeftDeparts(base, fid, Abs());
      DepartsOk(base, fid, Abs());
      known := true;
    }

    /** The blocks of program fid on every stage where it has some, in ascending order. */
    method GetAllocationBlocks(fid: Fid) returns (blocks: map<nat, seq<nat>>)
      requires Dims()
      ensures forall i: nat :: i in blocks <==> i < STAGES && BlockList(Column(allocationMatrix, i), fid) != []
      ensures forall i: nat | i in blocks :: i < STAGES && blocks[i] == BlockList(Column(allocationMatrix, i), fid)
    {
      blocks := map[];
      var i := 0;
      while i < STAGES
        invariant 0 <= i <= STAGES
        invariant forall k: nat :: k in blocks <==> k < i && BlockList(Column(allocationMatrix, k), fid) != []
        invariant forall k: nat | k in blocks :: k < i && blocks[k] == BlockList(Column(allocationMatrix, k), fid)
      {
        var list := BlocksOn(allocationMatrix, i, fid);
        if |list| > 0 {
          blocks := blocks[i := list];
        }
        i := i + 1;
      }
    }

    /** The first and last block of program fid on each of its stages; since its blocks are contiguous,
        it holds exactly the blocks between them. */
    method GetAllocationBlocksRange(fid: Fid) returns (ranges: map<nat, (nat, nat)>)
      requires Valid() && fid in revAllocationMap
      ensures forall i: nat :: i in ranges <==> i < STAGES && fid in allocationMap[i]
      ensures forall i: nat | i in ranges ::
                && i < STAGES && ranges[i].0 <= ranges[i].1 < maxOccupancy
                && forall j: nat | j < maxOccupancy ::
                     Column(allocationMatrix, i)[j] == fid <==> ranges[i].0 <= j <= ranges[i].1
    {
      var blocks := GetAllocationBlocks(fid);
      ghost var s := Abs();
      forall i: nat | i < STAGES
        ensures i in blocks <==> fid in allocationMap[i]
        ensures i in blocks ==> IsBlockRange(Column(allocationMatrix, i), fid, blocks[i])
      {
        assert Column(allocationMatrix, i) == s.table.cols[i];
        BlocksOfTenant(s, fid, i);
      }
      ranges := map i | i in blocks && |blocks[i]| > 0 :: (blocks[i][0], blocks[i][|blocks[i]| - 1]);
    }
  }
}
