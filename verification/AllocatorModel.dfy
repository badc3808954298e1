/** The allocator as a state machine: the tables it keeps, the steps that change them, and what every
    run of those steps preserves. The class Allocator is proved to take exactly these steps. */
module AllocatorModel {
  import opened Dimensions
  import opened Columns
  import opened Holes
  import opened Layout
  import opened Ordered
  import opened Wrappers

  /** An admitted program: its demands, one per stage it uses, and the demand index of each stage. */
  datatype App = App(minDemand: seq<nat>, allocation: map<nat, nat>)

  /** What an allocation decides: the matrix column by column, the tenants of every stage, the stages
      of every tenant, and the stages in use. */
  datatype Table = Table(cols: seq<seq<Fid>>, tenants: seq<set<Fid>>, rev: map<Fid, seq<nat>>, used: set<nat>)

  /** A computed allocation that waits to be applied, and the program it admits. */
  datatype Queued = Queued(fid: Fid, table: Table)

  datatype State = State(n: nat, table: Table, offset: seq<nat>, frags: seq<seq<Hole>>,
                         funcs: map<Fid, App>, pending: Option<Queued>)

  /** The demand of program f on stage i, or 0 when it does not use the stage. */
  function Demand(funcs: map<Fid, App>, f: Fid, i: nat): nat
  {
    if f in funcs && i in funcs[f].allocation && funcs[f].allocation[i] < |funcs[f].minDemand|
    then funcs[f].minDemand[funcs[f].allocation[i]] else 0
  }

  function Demands(funcs: map<Fid, App>, tenants: set<Fid>, i: nat): map<Fid, nat>
  {
    map f | f in tenants :: Demand(funcs, f, i)
  }

  function StagesOf(tenants: seq<set<Fid>>, f: Fid): set<nat>
  {
    set i: nat | i < |tenants| && f in tenants[i]
  }

  function UsedStages(tenants: seq<set<Fid>>): set<nat>
  {
    set i: nat | i < |tenants| && tenants[i] != {}
  }

  /** Program f is in the tenant-to-stages map exactly if some stage hosts it, with its stages in
      ascending order. */
  ghost predicate IndexedAt(t: Table, f: Fid)
  {
    && (f in t.rev <==> StagesOf(t.tenants, f) != {})
    && (f in t.rev ==> t.rev[f] == Sorted(StagesOf(t.tenants, f)))
  }

  /** The tenant-to-stages map is the inverse of the stage-to-tenants map, and the stages in use are
      those with a tenant. */
  ghost predicate Indexed(t: Table)
  {
    (forall f: Fid :: IndexedAt(t, f)) && t.used == UsedStages(t.tenants)
  }

  ghost predicate HasAppAt(t: Table, funcs: map<Fid, App>, f: Fid)
  {
    f in t.rev ==> f in funcs && funcs[f].allocation.Keys == StagesOf(t.tenants, f)
  }

  /** Every tenant is a known program that uses exactly the stages that host it. */
  ghost predicate HasApps(t: Table, funcs: map<Fid, App>)
  {
    forall f: Fid :: HasAppAt(t, funcs, f)
  }

  /** The tenants and demands of stage i. */
  function DemandsAt(t: Table, funcs: map<Fid, App>, i: nat): map<Fid, nat>
    requires i < |t.tenants|
  {
    Demands(funcs, t.tenants[i], i)
  }

  ghost predicate ColumnAt(n: nat, t: Table, funcs: map<Fid, App>, i: nat)
    requires i < |t.tenants| == |t.cols|
  {
    |t.cols[i]| == n && ColumnOk(t.cols[i], DemandsAt(t, funcs, i))
  }

  /** Every column agrees with the maps: what memory isolation rests on. */
  ghost predicate TableOk(n: nat, t: Table, funcs: map<Fid, App>)
  {
    && |t.cols| == |t.tenants| == STAGES && Indexed(t) && HasApps(t, funcs)
    && forall i | 0 <= i < STAGES :: ColumnAt(n, t, funcs, i)
  }

  ghost predicate LayoutAt(t: Table, offset: seq<nat>, frags: seq<seq<Hole>>, funcs: map<Fid, App>, i: nat)
    requires i < |t.tenants| == |t.cols| == |offset| == |frags|
  {
    OffsetOk(t.cols[i], offset[i], DemandsAt(t, funcs, i)) && HolesOk(t.cols[i], offset[i], frags[i])
  }

  /** The offsets and hole lists describe the table. */
  ghost predicate LayoutOk(n: nat, t: Table, offset: seq<nat>, frags: seq<seq<Hole>>, funcs: map<Fid, App>)
  {
    && TableOk(n, t, funcs)
    && |offset| == |frags| == STAGES
    && forall i | 0 <= i < STAGES :: LayoutAt(t, offset, frags, funcs, i)
  }

  ghost predicate ExtendsAt(t: Table, t': Table, funcs: map<Fid, App>, fid: Fid, i: nat)
    requires i < |t.tenants| == |t.cols| == |t'.tenants| == |t'.cols|
  {
    && (t'.tenants[i] == t.tenants[i] || t'.tenants[i] == t.tenants[i] + {fid})
    && Pins(t.cols[i], t'.cols[i], DemandsAt(t, funcs, i))
  }

  /** Table t' differs from t by the admission of fid: no stage loses a tenant, and no inelastic block
      moves. */
  ghost predicate Extends(t: Table, t': Table, funcs: map<Fid, App>, fid: Fid)
  {
    && |t.cols| == |t'.cols| == |t.tenants| == |t'.tenants| == STAGES
    && forall i | 0 <= i < STAGES :: ExtendsAt(t, t', funcs, fid, i)
  }

  /** The invariant of every reachable state. The offsets and hole lists are updated when an allocation
      is computed, so while one is pending they describe the queued table. */
  ghost predicate Inv(s: State)
  {
    && TableOk(s.n, s.table, s.funcs)
    && match s.pending
       case None => IdleInv(s)
       case Some(q) => PendingInv(s, q)
  }

  ghost predicate IdleInv(s: State)
  {
    LayoutOk(s.n, s.table, s.offset, s.frags, s.funcs) && s.funcs.Keys == s.table.rev.Keys
  }

  ghost predicate PendingInv(s: State, q: Queued)
  {
    && LayoutOk(s.n, q.table, s.offset, s.frags, s.funcs)
    && s.funcs.Keys == q.table.rev.Keys
    && q.fid !in s.table.rev && q.fid in q.table.rev
    && Extends(s.table, q.table, s.funcs, q.fid)
  }

  // ---- the steps ------------------------------------------------------------------------

  /** A request: a new program, and the stages chosen for its accesses in ascending order. */
  datatype Request = Request(fid: Fid, minDemand: seq<nat>, stages: seq<nat>)

  ghost predicate RequestOk(s: State, r: Request)
  {
    WellFormed(r) && r.fid !in s.funcs
  }

  function Positions(stages: seq<nat>): (m: map<nat, nat>)
    ensures m.Keys == Elements(stages)
    ensures Ascending(stages) ==> forall k | 0 <= k < |stages| :: m[stages[k]] == k
  {
    if stages == [] then map[] else
      var last := |stages| - 1;
      assert stages == stages[..last] + [stages[last]];
      assert forall i | 0 <= i < last :: stages[i] == stages[..last][i];
      Positions(stages[..last])[stages[last] := last]
  }

  function NewFuncs(funcs: map<Fid, App>, r: Request): map<Fid, App>
  {
    funcs[r.fid := App(r.minDemand, Positions(r.stages))]
  }

  /** The arrival request r puts on stage i. */
  function ArrivalOn(r: Request, i: nat): Arrival
  {
    if i in Positions(r.stages) && Positions(r.stages)[i] < |r.minDemand|
    then Arrives(r.fid, r.minDemand[Positions(r.stages)[i]]) else NoArrival
  }

  function NewTenants(tenants: seq<set<Fid>>, r: Request): seq<set<Fid>>
  {
    seq(|tenants|, i requires 0 <= i < |tenants| => if i in r.stages then tenants[i] + {r.fid} else tenants[i])
  }

  /** Stage i after an arrival. A stage without tenants is skipped and keeps its lists. */
  ghost predicate StageNext(n: nat, col: seq<Fid>, off: nat, holes: seq<Hole>, dem: map<Fid, nat>, arr: Arrival,
                            col': seq<Fid>, off': nat, holes': seq<Hole>)
  {
    if dem == map[] && arr.NoArrival? then
      |col'| == n && Segment(col', 0, |col'|, 0) && off' == off && holes' == holes
    else
      StageStep(col, off, dem, arr, col', off', holes')
  }

  /** The state has one entry for every stage. */
  ghost predicate Staged(s: State)
  {
    |s.table.cols| == |s.table.tenants| == |s.offset| == |s.frags| == STAGES
  }

  ghost predicate PlaceableAt(s: State, r: Request, i: nat)
    requires Staged(s) && i < STAGES
  {
    s.offset[i] <= |s.table.cols[i]| && Placeable(s.table.cols[i], s.offset[i], DemandsAt(s.table, s.funcs, i), ArrivalOn(r, i))
  }

  /** Every stage can be laid out for the request. */
  ghost predicate AllPlaceable(s: State, r: Request)
  {
    Staged(s) && forall i | 0 <= i < STAGES :: PlaceableAt(s, r, i)
  }

  ghost predicate NextAt(s: State, r: Request, t': Table, offset': seq<nat>, frags': seq<seq<Hole>>, i: nat)
    requires Staged(s) && i < STAGES == |t'.cols| == |offset'| == |frags'|
  {
    StageNext(s.n, s.table.cols[i], s.offset[i], s.frags[i], DemandsAt(s.table, s.funcs, i), ArrivalOn(r, i),
              t'.cols[i], offset'[i], frags'[i])
  }

  /** The allocation for request r is computed and queued. */
  ghost predicate Enqueues(s: State, r: Request, s': State)
  {
    && AllPlaceable(s, r)
    && s'.n == s.n && s'.table == s.table
    && s'.funcs == NewFuncs(s.funcs, r)
    && s'.pending.Some? && s'.pending.value.fid == r.fid
    && var t' := s'.pending.value.table;
    && Indexed(t')
    && t'.tenants == NewTenants(s.table.tenants, r)
    && |t'.cols| == |s'.offset| == |s'.frags| == STAGES
    && forall i | 0 <= i < STAGES :: NextAt(s, r, t', s'.offset, s'.frags, i)
  }

  /** The queued allocation becomes the current one. */
  ghost predicate Applies(s: State, s': State)
  {
    s.pending.Some? && s' == s.(table := s.pending.value.table, pending := None)
  }

  function Removed(tenants: seq<set<Fid>>, f: Fid): seq<set<Fid>>
  {
    seq(|tenants|, i requires 0 <= i < |tenants| => tenants[i] - {f})
  }

  ghost predicate DepartsAt(s: State, f: Fid, s': State, i: nat)
    requires Staged(s) && Staged(s') && i < STAGES
  {
    if f in s.table.tenants[i] then
      StageDepart(s.table.cols[i], s.offset[i], s.frags[i], DemandsAt(s.table, s.funcs, i), f,
                  s'.table.cols[i], s'.offset[i], s'.frags[i])
    else
      s'.table.cols[i] == s.table.cols[i] && s'.offset[i] == s.offset[i] && s'.frags[i] == s.frags[i]
  }

  /** Program f leaves. */
  ghost predicate Departs(s: State, f: Fid, s': State)
  {
    && s.pending.None? && s'.pending.None? && f in s.funcs
    && s'.n == s.n && Staged(s) && Staged(s')
    && s'.funcs == s.funcs - {f}
    && s'.table.tenants == Removed(s.table.tenants, f)
    && s'.table.rev == s.table.rev - {f}
    && s'.table.used == UsedStages(s'.table.tenants)
    && forall i | 0 <= i < STAGES :: DepartsAt(s, f, s', i)
  }

  /** An allocator nobody uses. */
  ghost predicate Initial(s: State)
  {
    && s.table.cols == seq(STAGES, i => seq(s.n, j => 0))
    && s.table.tenants == seq(STAGES, i => {})
    && s.table.rev == map[] && s.table.used == {}
    && s.offset == seq(STAGES, i => 0) && s.frags == seq(STAGES, i => [])
    && s.funcs == map[] && s.pending == None
  }

  // ---- every step keeps the invariant ---------------------------------------------------

  lemma InitialOk(s: State)
    requires Initial(s)
    ensures Inv(s)
  {
    forall i | 0 <= i < STAGES
      ensures ColumnAt(s.n, s.table, s.funcs, i) && LayoutAt(s.table, s.offset, s.frags, s.funcs, i)
    {
      assert Elastic(DemandsAt(s.table, s.funcs, i)) == {};
    }
    forall f: Fid ensures IndexedAt(s.table, f) {
      assert StagesOf(s.table.tenants, f) == {};
    }
  }

  lemma Absent(t: Table, f: Fid, i: nat)
    requires Indexed(t) && f !in t.rev && i < |t.tenants|
    ensures f !in t.tenants[i]
  {
    assert IndexedAt(t, f);
    assert i !in StagesOf(t.tenants, f);
  }

  ghost predicate WellFormed(r: Request)
  {
    && r.fid != 0 && Ascending(r.stages) && 0 < |r.stages| <= |r.minDemand|
    && (forall k | 0 <= k < |r.stages| :: r.stages[k] < STAGES)
    && (forall k | 0 <= k < |r.minDemand| :: 1 <= r.minDemand[k])
  }

  lemma ArrivalOnStage(r: Request, i: nat)
    requires WellFormed(r)
    ensures i in r.stages <==> ArrivalOn(r, i).Arrives?
    ensures ArrivalOn(r, i).Arrives? ==> ArrivalOn(r, i).fid == r.fid && ArrivalOn(r, i).demand >= 1
    ensures i in r.stages ==> Demand(NewFuncs(map[], r), r.fid, i) == ArrivalOn(r, i).demand
  {
    var pos := Positions(r.stages);
    assert i in r.stages <==> i in Elements(r.stages);
    if i in r.stages {
      var k :| 0 <= k < |r.stages| && r.stages[k] == i;
      assert pos[i] == k;
    }
  }

  lemma OldDemand(funcs: map<Fid, App>, r: Request, f: Fid, i: nat)
    requires f != r.fid
    ensures Demand(NewFuncs(funcs, r), f, i) == Demand(funcs, f, i)
  {
  }

  lemma OldDemands(funcs: map<Fid, App>, r: Request, tenants: set<Fid>, i: nat)
    requires r.fid !in tenants
    ensures Demands(NewFuncs(funcs, r), tenants, i) == Demands(funcs, tenants, i)
  {
    forall f | f in tenants ensures Demand(NewFuncs(funcs, r), f, i) == Demand(funcs, f, i) {
      OldDemand(funcs, r, f, i);
    }
  }

  lemma ArrivalDemand(funcs: map<Fid, App>, r: Request, i: nat)
    requires WellFormed(r) && i in r.stages
    ensures Demand(NewFuncs(funcs, r), r.fid, i) == ArrivalOn(r, i).demand
  {
    ArrivalOnStage(r, i);
  }

  lemma AdmittedDemands(funcs: map<Fid, App>, r: Request, tenants: set<Fid>, i: nat)
    requires WellFormed(r) && r.fid !in tenants && i in r.stages
    ensures Demands(NewFuncs(funcs, r), tenants + {r.fid}, i) == Admit(Demands(funcs, tenants, i), ArrivalOn(r, i))
  {
    ArrivalOnStage(r, i);
    ArrivalDemand(funcs, r, i);
    var dem, dem' := Demands(funcs, tenants, i), Demands(NewFuncs(funcs, r), tenants + {r.fid}, i);
    forall f | f in tenants ensures dem'[f] == dem[f] {
      OldDemand(funcs, r, f, i);
    }
    assert dem'.Keys == Admit(dem, ArrivalOn(r, i)).Keys;
  }

  lemma NewDemands(t: Table, funcs: map<Fid, App>, r: Request, i: nat)
    requires Indexed(t) && i < |t.tenants| && r.fid !in t.rev && WellFormed(r)
    ensures Demands(NewFuncs(funcs, r), NewTenants(t.tenants, r)[i], i) == Admit(DemandsAt(t, funcs, i), ArrivalOn(r, i))
    ensures DemandsAt(t, NewFuncs(funcs, r), i) == DemandsAt(t, funcs, i)
    ensures ArrivalOk(DemandsAt(t, funcs, i), ArrivalOn(r, i))
  {
    Absent(t, r.fid, i);
    OldDemands(funcs, r, t.tenants[i], i);
    ArrivalOnStage(r, i);
    if i in r.stages {
      AdmittedDemands(funcs, r, t.tenants[i], i);
    }
  }

  lemma StageNextOk(n: nat, col: seq<Fid>, off: nat, holes: seq<Hole>, dem: map<Fid, nat>, arr: Arrival,
                    col': seq<Fid>, off': nat, holes': seq<Hole>)
    requires StageOk(col, off, dem) && HolesOk(col, off, holes) && |col| == n
    requires ArrivalOk(dem, arr) && Placeable(col, off, dem, arr)
    requires StageNext(n, col, off, holes, dem, arr, col', off', holes')
    ensures |col'| == n && StageOk(col', off', Admit(dem, arr)) && HolesOk(col', off', holes')
    ensures Pins(col, col', dem)
  {
    if dem == map[] && arr.NoArrival? {
      assert col' == col;
    } else {
      StageStepOk(col, off, dem, arr, col', off', holes');
    }
  }

  lemma NewStages(t: Table, r: Request, f: Fid)
    requires Indexed(t) && |t.tenants| == STAGES && r.fid !in t.rev && WellFormed(r)
    ensures StagesOf(NewTenants(t.tenants, r), f) == if f == r.fid then Elements(r.stages) else StagesOf(t.tenants, f)
  {
    forall i: nat
      ensures i in StagesOf(NewTenants(t.tenants, r), f) <==>
              i in if f == r.fid then Elements(r.stages) else StagesOf(t.tenants, f)
    {
      if i < STAGES {
        Absent(t, r.fid, i);
        assert NewTenants(t.tenants, r)[i] == if i in r.stages then t.tenants[i] + {r.fid} else t.tenants[i];
      }
    }
  }

  lemma EnqueuesAt(s: State, r: Request, s': State, i: nat)
    requires Inv(s) && s.pending.None? && RequestOk(s, r) && Enqueues(s, r, s') && i < STAGES
    ensures var t' := s'.pending.value.table;
            && ColumnAt(s'.n, t', s'.funcs, i) && LayoutAt(t', s'.offset, s'.frags, s'.funcs, i)
            && ExtendsAt(s.table, t', s'.funcs, r.fid, i)
            && ColumnAt(s'.n, s.table, s'.funcs, i)
  {
    var t' := s'.pending.value.table;
    NewDemands(s.table, s.funcs, r, i);
    assert ColumnAt(s.n, s.table, s.funcs, i) && LayoutAt(s.table, s.offset, s.frags, s.funcs, i);
    assert PlaceableAt(s, r, i) && NextAt(s, r, t', s'.offset, s'.frags, i);
    StageNextOk(s.n, s.table.cols[i], s.offset[i], s.frags[i], DemandsAt(s.table, s.funcs, i), ArrivalOn(r, i),
                t'.cols[i], s'.offset[i], s'.frags[i]);
  }

  lemma NewApps(t: Table, funcs: map<Fid, App>, r: Request, t': Table)
    requires Indexed(t) && HasApps(t, funcs) && funcs.Keys == t.rev.Keys && |t.tenants| == STAGES
    requires WellFormed(r) && r.fid !in t.rev
    requires Indexed(t') && t'.tenants == NewTenants(t.tenants, r)
    ensures HasApps(t, NewFuncs(funcs, r)) && HasApps(t', NewFuncs(funcs, r))
    ensures NewFuncs(funcs, r).Keys == t'.rev.Keys && r.fid in t'.rev
  {
    assert r.stages[0] in Elements(r.stages);
    forall f: Fid
      ensures f in t'.rev <==> f == r.fid || f in t.rev
      ensures HasAppAt(t, NewFuncs(funcs, r), f) && HasAppAt(t', NewFuncs(funcs, r), f)
    {
      NewStages(t, r, f);
      assert IndexedAt(t', f) && IndexedAt(t, f) && HasAppAt(t, funcs, f);
    }
  }

  /** Queuing an allocation keeps the invariant. */
  lemma EnqueuesOk(s: State, r: Request, s': State)
    requires Inv(s) && s.pending.None? && RequestOk(s, r)
    requires Enqueues(s, r, s')
    ensures Inv(s')
  {
    var t' := s'.pending.value.table;
    NewApps(s.table, s.funcs, r, t');
    forall i | 0 <= i < STAGES
      ensures ColumnAt(s'.n, t', s'.funcs, i) && LayoutAt(t', s'.offset, s'.frags, s'.funcs, i)
           && ExtendsAt(s.table, t', s'.funcs, r.fid, i)
           && ColumnAt(s'.n, s.table, s'.funcs, i)
    {
      EnqueuesAt(s, r, s', i);
    }
  }

  /** Applying the queued allocation keeps the invariant. */
  lemma AppliesOk(s: State, s': State)
    requires Inv(s) && Applies(s, s')
    ensures Inv(s')
  {
  }

  lemma DepartsStage(s: State, f: Fid, s': State, i: nat)
    requires Inv(s) && Departs(s, f, s') && i < STAGES
    ensures ColumnAt(s'.n, s'.table, s'.funcs, i) && LayoutAt(s'.table, s'.offset, s'.frags, s'.funcs, i)
    ensures |s.table.cols[i]| == |s'.table.cols[i]|
    ensures forall g | g != f && g in s.table.tenants[i] :: SameBlocks(s.table.cols[i], s'.table.cols[i], g)
    ensures forall g | g != f && g in s.table.tenants[i] :: g in s'.table.tenants[i] && Demand(s'.funcs, g, i) == Demand(s.funcs, g, i)
  {
    var dem := DemandsAt(s.table, s.funcs, i);
    assert DemandsAt(s'.table, s'.funcs, i) == Without(dem, f);
    assert ColumnAt(s.n, s.table, s.funcs, i) && LayoutAt(s.table, s.offset, s.frags, s.funcs, i);
    assert DepartsAt(s, f, s', i);
    if f in s.table.tenants[i] {
      StageDepartOk(s.table.cols[i], s.offset[i], s.frags[i], dem, f,
                    s'.table.cols[i], s'.offset[i], s'.frags[i]);
    } else {
      assert Without(dem, f) == dem;
    }
  }

  lemma RemovedIndexed(t: Table, f: Fid, t': Table, funcs: map<Fid, App>)
    requires Indexed(t) && HasApps(t, funcs)
    requires t'.tenants == Removed(t.tenants, f) && t'.rev == t.rev - {f} && t'.used == UsedStages(t'.tenants)
    ensures Indexed(t') && HasApps(t', funcs - {f})
  {
    forall g: Fid ensures IndexedAt(t', g) && HasAppAt(t', funcs - {f}, g) {
      assert IndexedAt(t, g) && HasAppAt(t, funcs, g);
      assert StagesOf(t'.tenants, g) == if g == f then {} else StagesOf(t.tenants, g);
    }
  }

  /** A departure keeps the invariant. */
  lemma DepartsOk(s: State, f: Fid, s': State)
    requires Inv(s) && Departs(s, f, s')
    ensures Inv(s')
  {
    forall i | 0 <= i < STAGES
      ensures ColumnAt(s'.n, s'.table, s'.funcs, i) && LayoutAt(s'.table, s'.offset, s'.frags, s'.funcs, i)
    {
      DepartsStage(s, f, s', i);
    }
    RemovedIndexed(s.table, f, s'.table, s.funcs);
  }

  // ---- runs -----------------------------------------------------------------------------

  datatype Event = Arrival(r: Request) | Commit | Departure(f: Fid)

  /** One step of a run. */
  ghost predicate Next(s: State, e: Event, s': State)
  {
    match e
    case Arrival(r) => s.pending.None? && RequestOk(s, r) && Enqueues(s, r, s')
    case Commit => Applies(s, s')
    case Departure(f) => Departs(s, f, s')
  }

  lemma NextOk(s: State, e: Event, s': State)
    requires Inv(s) && Next(s, e, s')
    ensures Inv(s')
  {
    match e
    case Arrival(r) => EnqueuesOk(s, r, s');
    case Commit => AppliesOk(s, s');
    case Departure(f) => DepartsOk(s, f, s');
  }

  /** The states a run passes through, one event between each and the next. */
  ghost predicate Run(states: seq<State>, events: seq<Event>)
  {
    && |states| == |events| + 1
    && Initial(states[0])
    && forall k | 0 <= k < |events| :: StepAt(states, events, k)
  }

  ghost predicate StepAt(states: seq<State>, events: seq<Event>, k: nat)
    requires k < |events| && |states| == |events| + 1
  {
    Next(states[k], events[k], states[k + 1])
  }

  /** Every state of every run is well formed. */
  lemma {:induction false} RunOk(states: seq<State>, events: seq<Event>, k: nat)
    requires Run(states, events) && k < |states|
    ensures Inv(states[k])
    decreases k
  {
    if k == 0 {
      InitialOk(states[0]);
    } else {
      RunOk(states, events, k - 1);
      assert StepAt(states, events, k - 1);
      NextOk(states[k - 1], events[k - 1], states[k]);
    }
  }

  /** Program f is an inelastic tenant of stage i. */
  ghost predicate Pinned(s: State, f: Fid, i: nat)
  {
    i < STAGES == |s.table.tenants| == |s.table.cols| && f in s.table.tenants[i] && Demand(s.funcs, f, i) > 1
  }

  ghost predicate KeepsBlocks(s: State, s': State, f: Fid, i: nat)
    requires Pinned(s, f, i) && Pinned(s', f, i)
  {
    |s.table.cols[i]| == |s'.table.cols[i]| && SameBlocks(s.table.cols[i], s'.table.cols[i], f)
  }

  lemma PinnedStep(s: State, e: Event, s': State, f: Fid, i: nat)
    requires Inv(s) && Next(s, e, s') && Pinned(s, f, i) && e != Departure(f)
    ensures Pinned(s', f, i) && KeepsBlocks(s, s', f, i)
  {
    match e
    case Arrival(r) =>
      NewDemands(s.table, s.funcs, r, i);
      assert DemandsAt(s.table, s.funcs, i)[f] == Demand(s.funcs, f, i);
      assert DemandsAt(s.table, s'.funcs, i)[f] == Demand(s'.funcs, f, i);
    case Commit =>
      var q := s.pending.value;
      assert ExtendsAt(s.table, q.table, s.funcs, q.fid, i);
      assert f in DemandsAt(s.table, s.funcs, i) && DemandsAt(s.table, s.funcs, i)[f] > 1;
    case Departure(g) =>
      DepartsStage(s, g, s', i);
  }

  /** Pinning: until an inelastic tenant's own departure, its blocks in each stage are the same in every
      state of every run, whatever else arrives or leaves. */
  lemma {:induction false} PinnedForTenancy(states: seq<State>, events: seq<Event>, f: Fid, i: nat, lo: nat, hi: nat)
    requires Run(states, events) && lo <= hi < |states|
    requires Pinned(states[lo], f, i)
    requires forall k | lo <= k < hi :: events[k] != Departure(f)
    ensures Pinned(states[hi], f, i) && KeepsBlocks(states[lo], states[hi], f, i)
    decreases hi
  {
    if lo < hi {
      PinnedForTenancy(states, events, f, i, lo, hi - 1);
      RunOk(states, events, hi - 1);
      assert StepAt(states, events, hi - 1);
      PinnedStep(states[hi - 1], events[hi - 1], states[hi], f, i);
    }
  }

  // ---- the change report ----------------------------------------------------------------

  /** The blocks of a remapped program on one stage, before and after. */
  datatype Remap = Remap(prev: seq<nat>, next: seq<nat>)

  /** Remapped programs, and the stages on which they are remapped. */
  type Remaps = map<Fid, map<nat, Remap>>

  predicate Listed(remaps: Remaps, f: Fid, i: nat)
  {
    f in remaps && i in remaps[f]
  }

  /** Program f loses a block. */
  ghost predicate Loses(col: seq<Fid>, col': seq<Fid>, f: Fid)
    requires |col| == |col'|
  {
    exists j :: 0 <= j < |col| && col[j] == f && col'[j] != f
  }

  /** Program f on stage i is listed exactly if it is elastic there and loses a block, with its old and
      new block lists. */
  ghost predicate ReportedAt(n: nat, t: Table, t': Table, funcs: map<Fid, App>, remaps: Remaps, f: Fid, i: nat)
  {
    && (Listed(remaps, f, i) <==>
          && i < STAGES && i < |t.tenants| && i < |t.cols| && i < |t'.cols| && |t.cols[i]| == |t'.cols[i]|
          && f in t.tenants[i] && Demand(funcs, f, i) == 1 && Loses(t.cols[i], t'.cols[i], f))
    && (Listed(remaps, f, i) ==>
          i < |t.cols| && i < |t'.cols| && remaps[f][i] == Remap(BlockList(t.cols[i], f), BlockList(t'.cols[i], f)))
  }

  /** The report of the changes from table t to table t' is exact. */
  ghost predicate Reports(n: nat, t: Table, t': Table, funcs: map<Fid, App>, remaps: Remaps)
  {
    && (forall f: Fid, i: nat :: ReportedAt(n, t, t', funcs, remaps, f, i))
    && (forall f | f in remaps :: remaps[f] != map[])
  }

  /** Whoever is not listed on a stage keeps all its blocks there, and nobody inelastic is listed. */
  lemma UnlistedKeep(s: State, q: Queued, remaps: Remaps, f: Fid, i: nat)
    requires Inv(s) && s.pending == Some(q) && Reports(s.n, s.table, q.table, s.funcs, remaps)
    requires i < STAGES && f in s.table.tenants[i]
    ensures !Listed(remaps, f, i) ==> BlocksOf(s.table.cols[i], f) <= BlocksOf(q.table.cols[i], f)
    ensures Demand(s.funcs, f, i) > 1 ==> !Listed(remaps, f, i)
    ensures Demand(s.funcs, f, i) > 1 ==> BlocksOf(s.table.cols[i], f) == BlocksOf(q.table.cols[i], f)
  {
    assert ReportedAt(s.n, s.table, q.table, s.funcs, remaps, f, i);
    assert ExtendsAt(s.table, q.table, s.funcs, q.fid, i);
    assert ColumnAt(s.n, s.table, s.funcs, i) && ColumnAt(s.n, q.table, s.funcs, i);
    var dem := DemandsAt(s.table, s.funcs, i);
    assert f in dem && dem[f] == Demand(s.funcs, f, i) && 1 <= dem[f];
  }
}
