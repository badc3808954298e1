/** Intermediate states of the allocator's methods, between the stages they go through one by one. */
module AllocatorSteps {
  import opened Dimensions
  import opened Columns
  import opened Holes
  import opened Layout
  import opened Ordered
  import opened AllocatorModel
  import opened StageLayout

  /** A list whose first entries have been replaced by those of `done`. */
  ghost predicate Updated<T>(cur: seq<T>, done: seq<T>, orig: seq<T>)
  {
    && |done| <= |cur| == |orig|
    && (forall k | 0 <= k < |done| :: cur[k] == done[k])
    && (forall k | |done| <= k < |cur| :: cur[k] == orig[k])
  }

  lemma UpdatedNext<T>(cur: seq<T>, done: seq<T>, orig: seq<T>, x: T)
    requires Updated(cur, done, orig) && |done| < |cur|
    ensures Updated(cur[|done| := x], done + [x], orig)
  {
  }

  /** A column, offset and hole list that lay out stage i for r. */
  ghost predicate LaidOut(base: State, r: Request, i: nat, col: seq<Fid>, off: nat, holes: seq<Hole>)
    requires Staged(base) && i < STAGES
  {
    StageNext(base.n, base.table.cols[i], base.offset[i], base.frags[i], DemandsAt(base.table, base.funcs, i),
              ArrivalOn(r, i), col, off, holes)
  }

  ghost predicate LaidOutAt(base: State, r: Request, cols: seq<seq<Fid>>, offset: seq<nat>, frags: seq<seq<Hole>>, i: nat)
    requires Staged(base) && i < STAGES && i < |cols| && i < |offset| && i < |frags|
  {
    LaidOut(base, r, i, cols[i], offset[i], frags[i])
  }

  /** The first stages are laid out. */
  ghost predicate AllLaidOut(base: State, r: Request, cols: seq<seq<Fid>>, offset: seq<nat>, frags: seq<seq<Hole>>)
    requires Staged(base)
  {
    |cols| == |offset| == |frags| <= STAGES && forall k | 0 <= k < |cols| :: LaidOutAt(base, r, cols, offset, frags, k)
  }

  lemma LaidOutNext(base: State, r: Request, cols: seq<seq<Fid>>, offset: seq<nat>, frags: seq<seq<Hole>>,
                    col: seq<Fid>, off: nat, holes: seq<Hole>)
    requires Staged(base) && AllLaidOut(base, r, cols, offset, frags) && |cols| < STAGES
    requires LaidOut(base, r, |cols|, col, off, holes)
    ensures AllLaidOut(base, r, cols + [col], offset + [off], frags + [holes])
  {
    var cols', offset', frags' := cols + [col], offset + [off], frags + [holes];
    forall k | 0 <= k < |cols'| ensures LaidOutAt(base, r, cols', offset', frags', k) {
      if k < |cols| {
        assert LaidOutAt(base, r, cols, offset, frags, k);
      }
    }
  }

  /** Stage i is well formed, and its new tenants are its old ones with the arrival, if there is one. */
  ghost predicate Ready(base: State, r: Request, i: nat)
    requires Staged(base) && i < STAGES
  {
    var dem, arr := DemandsAt(base.table, base.funcs, i), ArrivalOn(r, i);
    var tenants' := NewTenants(base.table.tenants, r)[i];
    && |base.table.cols[i]| == base.n
    && StageOk(base.table.cols[i], base.offset[i], dem) && ArrivalOk(dem, arr)
    && Demands(NewFuncs(base.funcs, r), tenants', i) == Admit(dem, arr)
    && (tenants' == {} <==> dem == map[] && arr.NoArrival?)
    && (tenants' == {} ==> PlaceableAt(base, r, i))
  }

  ghost predicate PlaceablePrefix(base: State, r: Request, k: nat)
    requires Staged(base) && k <= STAGES
  {
    forall i | 0 <= i < k :: PlaceableAt(base, r, i)
  }

  lemma PlaceableNext(base: State, r: Request, k: nat)
    requires Staged(base) && k < STAGES && PlaceablePrefix(base, r, k)
    ensures PlaceableAt(base, r, k) ==> PlaceablePrefix(base, r, k + 1)
    ensures !PlaceableAt(base, r, k) ==> !AllPlaceable(base, r)
  {
  }

  ghost predicate AllReady(base: State, r: Request)
    requires Staged(base)
  {
    forall i | 0 <= i < STAGES :: Ready(base, r, i)
  }

  lemma StageReady(base: State, r: Request, i: nat)
    requires Inv(base) && base.pending.None? && RequestOk(base, r) && i < STAGES
    ensures Ready(base, r, i)
  {
    assert ColumnAt(base.n, base.table, base.funcs, i);
    assert LayoutAt(base.table, base.offset, base.frags, base.funcs, i);
    NewDemands(base.table, base.funcs, r, i);
    ArrivalOnStage(r, i);
    var dem := DemandsAt(base.table, base.funcs, i);
    if NewTenants(base.table.tenants, r)[i] == {} {
      assert dem.Keys == {};
      assert Elastic(dem) == {};
    } else {
      var f :| f in NewTenants(base.table.tenants, r)[i];
      assert f in dem || i in r.stages;
    }
  }

  // ---- the inverse map ------------------------------------------------------------------

  /** The stages of program f among the first k. */
  ghost predicate RevAt(tenants: seq<set<Fid>>, rev: map<Fid, seq<nat>>, f: Fid, k: nat)
    requires k <= |tenants|
  {
    && (f in rev <==> StagesOf(tenants[..k], f) != {})
    && (f in rev ==> rev[f] == Sorted(StagesOf(tenants[..k], f)))
  }

  lemma StagesOfNext(tenants: seq<set<Fid>>, f: Fid, k: nat)
    requires k < |tenants|
    ensures StagesOf(tenants[..k + 1], f) == if f in tenants[k] then StagesOf(tenants[..k], f) + {k} else StagesOf(tenants[..k], f)
    ensures f in tenants[k] ==> Sorted(StagesOf(tenants[..k + 1], f)) == Sorted(StagesOf(tenants[..k], f)) + [k]
  {
    if f in tenants[k] {
      assert StagesOf(tenants[..k + 1], f) == StagesOf(tenants[..k], f) + {k};
      SortedAppend(StagesOf(tenants[..k], f), k);
    }
  }

  function AddStage(rev: map<Fid, seq<nat>>, f: Fid, k: nat): map<Fid, seq<nat>>
  {
    rev[f := (if f in rev then rev[f] else []) + [k]]
  }

  lemma AddStageOk(tenants: seq<set<Fid>>, rev: map<Fid, seq<nat>>, f: Fid, k: nat)
    requires k < |tenants| && f in tenants[k] && RevAt(tenants, rev, f, k)
    ensures RevAt(tenants, AddStage(rev, f, k), f, k + 1)
  {
    StagesOfNext(tenants, f, k);
    assert k in StagesOf(tenants[..k + 1], f);
    if f !in rev {
      assert Sorted(StagesOf(tenants[..k], f)) == [];
    }
  }

  /** The programs of stage i that are not in `rest` have the stage in their lists already. */
  ghost predicate RevHalfwayAt(tenants: seq<set<Fid>>, rev: map<Fid, seq<nat>>, i: nat, rest: set<Fid>, f: Fid)
    requires i < |tenants|
  {
    RevAt(tenants, rev, f, if f in tenants[i] && f !in rest then i + 1 else i)
  }

  ghost predicate RevHalfway(tenants: seq<set<Fid>>, rev: map<Fid, seq<nat>>, i: nat, rest: set<Fid>)
    requires i < |tenants|
  {
    rest <= tenants[i] && forall f: Fid :: RevHalfwayAt(tenants, rev, i, rest, f)
  }

  ghost predicate RevUpTo(tenants: seq<set<Fid>>, rev: map<Fid, seq<nat>>, k: nat)
    requires k <= |tenants|
  {
    forall f: Fid :: RevAt(tenants, rev, f, k)
  }

  lemma RevStart(tenants: seq<set<Fid>>, rev: map<Fid, seq<nat>>, i: nat)
    requires i < |tenants| && RevUpTo(tenants, rev, i)
    ensures RevHalfway(tenants, rev, i, tenants[i])
  {
    forall f: Fid ensures RevHalfwayAt(tenants, rev, i, tenants[i], f) {
      assert RevAt(tenants, rev, f, i);
    }
  }

  lemma RevNext(tenants: seq<set<Fid>>, rev: map<Fid, seq<nat>>, i: nat, rest: set<Fid>, fid: Fid)
    requires i < |tenants| && RevHalfway(tenants, rev, i, rest) && fid in rest
    ensures RevHalfway(tenants, AddStage(rev, fid, i), i, rest - {fid})
  {
    forall f: Fid ensures RevHalfwayAt(tenants, AddStage(rev, fid, i), i, rest - {fid}, f) {
      assert RevHalfwayAt(tenants, rev, i, rest, f);
      if f == fid {
        AddStageOk(tenants, rev, fid, i);
      }
    }
  }

  lemma RevDone(tenants: seq<set<Fid>>, rev: map<Fid, seq<nat>>, i: nat)
    requires i < |tenants| && RevHalfway(tenants, rev, i, {})
    ensures RevUpTo(tenants, rev, i + 1)
  {
    var next := i + 1;
    forall f: Fid ensures RevAt(tenants, rev, f, next) {
      assert RevHalfwayAt(tenants, rev, i, {}, f);
      StagesOfNext(tenants, f, i);
    }
  }

  /** The stages of every tenant, in ascending order. */
  method InvertMap(tenants: seq<set<Fid>>) returns (rev: map<Fid, seq<nat>>)
    ensures RevUpTo(tenants, rev, |tenants|)
  {
    rev := map[];
    var i := 0;
    while i < |tenants|
      invariant 0 <= i <= |tenants|
      invariant RevUpTo(tenants, rev, i)
    {
      RevStart(tenants, rev, i);
      var rest := tenants[i];
      while rest != {}
        invariant RevHalfway(tenants, rev, i, rest)
        decreases rest
      {
        var fid :| fid in rest;
        RevNext(tenants, rev, i, rest, fid);
        rev := AddStage(rev, fid, i);
        rest := rest - {fid};
      }
      RevDone(tenants, rev, i);
      i := i + 1;
    }
  }

  lemma NewTableIndexed(t: Table, r: Request, cols: seq<seq<Fid>>, rev: map<Fid, seq<nat>>)
    requires Indexed(t) && |t.tenants| == STAGES && WellFormed(r)
    requires RevUpTo(NewTenants(t.tenants, r), rev, STAGES)
    ensures Indexed(Table(cols, NewTenants(t.tenants, r), rev, t.used + Elements(r.stages)))
  {
    var tenants' := NewTenants(t.tenants, r);
    var t' := Table(cols, tenants', rev, t.used + Elements(r.stages));
    assert tenants'[..STAGES] == tenants';
    forall f: Fid ensures IndexedAt(t', f) {
      assert RevAt(tenants', rev, f, STAGES);
    }
    forall i: nat ensures i in t'.used <==> i in UsedStages(tenants') {
      if i < STAGES {
        assert tenants'[i] == if i in r.stages then t.tenants[i] + {r.fid} else t.tenants[i];
        assert i in r.stages ==> r.fid in tenants'[i];
      }
    }
  }

  lemma EnqueuedState(base: State, r: Request, s': State)
    requires Inv(base) && base.pending.None? && RequestOk(base, r) && PlaceablePrefix(base, r, STAGES)
    requires s'.n == base.n && s'.table == base.table && s'.funcs == NewFuncs(base.funcs, r)
    requires s'.pending.Some? && s'.pending.value.fid == r.fid
    requires s'.pending.value.table.tenants == NewTenants(base.table.tenants, r) && Indexed(s'.pending.value.table)
    requires |s'.offset| == STAGES && AllLaidOut(base, r, s'.pending.value.table.cols, s'.offset, s'.frags)
    ensures Enqueues(base, r, s') && Inv(s')
    ensures var t' := s'.pending.value.table;
            TableOk(s'.n, s'.table, s'.funcs) && TableOk(s'.n, t', s'.funcs) && Extends(s'.table, t', s'.funcs, r.fid)
  {
    var t' := s'.pending.value.table;
    forall i | 0 <= i < STAGES ensures NextAt(base, r, t', s'.offset, s'.frags, i) {
      assert LaidOutAt(base, r, t'.cols, s'.offset, s'.frags, i);
    }
    EnqueuesOk(base, r, s');
  }

  // ---- departures -----------------------------------------------------------------------

  /** Stage i after program f has left the stages in `done`. */
  ghost predicate LeftAt(base: State, f: Fid, done: set<nat>, cols: seq<seq<Fid>>, tenants: seq<set<Fid>>,
                         offset: seq<nat>, frags: seq<seq<Hole>>, i: nat)
    requires Staged(base) && i < STAGES == |cols| == |tenants| == |offset| == |frags|
  {
    if i in done && f in base.table.tenants[i] then
      && StageDepart(base.table.cols[i], base.offset[i], base.frags[i], DemandsAt(base.table, base.funcs, i), f,
                     cols[i], offset[i], frags[i])
      && tenants[i] == base.table.tenants[i] - {f}
    else
      && cols[i] == base.table.cols[i] && tenants[i] == base.table.tenants[i]
      && offset[i] == base.offset[i] && frags[i] == base.frags[i]
  }

  /** The stages in use after program f has left the stages in `done`. */
  ghost function UsedAfter(base: State, f: Fid, done: set<nat>): set<nat>
  {
    base.table.used - set i | i in done && i < |base.table.tenants| && base.table.tenants[i] == {f}
  }

  ghost predicate Left(base: State, f: Fid, done: set<nat>, cols: seq<seq<Fid>>, tenants: seq<set<Fid>>,
                       used: set<nat>, offset: seq<nat>, frags: seq<seq<Hole>>)
  {
    && Staged(base) && |cols| == |tenants| == |offset| == |frags| == STAGES
    && used == UsedAfter(base, f, done)
    && forall i | 0 <= i < STAGES :: LeftAt(base, f, done, cols, tenants, offset, frags, i)
  }

  lemma LeftNext(base: State, f: Fid, done: set<nat>, cols: seq<seq<Fid>>, tenants: seq<set<Fid>>,
                 used: set<nat>, offset: seq<nat>, frags: seq<seq<Hole>>, i: nat,
                 col: seq<Fid>, used': set<nat>, off: nat, holes: seq<Hole>)
    requires Left(base, f, done, cols, tenants, used, offset, frags)
    requires i < STAGES && i !in done && f in base.table.tenants[i]
    requires StageDepart(base.table.cols[i], base.offset[i], base.frags[i], DemandsAt(base.table, base.funcs, i), f, col, off, holes)
    requires used' == if base.table.tenants[i] == {f} then used - {i} else used
    ensures Left(base, f, done + {i}, cols[i := col], tenants[i := tenants[i] - {f}], used', offset[i := off], frags[i := holes])
  {
    assert LeftAt(base, f, done, cols, tenants, offset, frags, i);
    var done', cols', tenants', offset', frags' :=
      done + {i}, cols[i := col], tenants[i := tenants[i] - {f}], offset[i := off], frags[i := holes];
    forall k | 0 <= k < STAGES ensures LeftAt(base, f, done', cols', tenants', offset', frags', k) {
      assert LeftAt(base, f, done, cols, tenants, offset, frags, k);
    }
    var gone := set k | k in done && k < STAGES && base.table.tenants[k] == {f};
    var gone' := set k | k in done + {i} && k < STAGES && base.table.tenants[k] == {f};
    if base.table.tenants[i] == {f} {
      assert gone' == gone + {i};
    } else {
      assert gone' == gone;
    }
  }

  /** What the departing program finds on one of its stages. */
  lemma StageOfTenant(base: State, f: Fid, i: nat) returns (start: nat, len: nat)
    requires Inv(base) && base.pending.None? && i < STAGES && f in base.table.tenants[i]
    ensures f != 0 && IsRun(base.table.cols[i], f, start, len)
    ensures 1 <= Demand(base.funcs, f, i) && (Demand(base.funcs, f, i) > 1 ==> start + len <= base.offset[i])
    ensures DemandsAt(base.table, base.funcs, i)[f] == Demand(base.funcs, f, i)
  {
    assert ColumnAt(base.n, base.table, base.funcs, i) && LayoutAt(base.table, base.offset, base.frags, base.funcs, i);
    var dem := DemandsAt(base.table, base.funcs, i);
    assert f in dem;
    start, len :| IsRun(base.table.cols[i], f, start, len) && (dem[f] > 1 ==> len == dem[f]);
    assert base.table.cols[i][start + len - 1] == f;
  }

  lemma StageEmptied(base: State, f: Fid, i: nat, col: seq<Fid>)
    requires Inv(base) && base.pending.None? && i < STAGES && f in base.table.tenants[i]
    requires Cleared(base.table.cols[i], col, f)
    ensures (forall j | 0 <= j < |col| :: col[j] == 0) <==> base.table.tenants[i] == {f}
  {
    assert ColumnAt(base.n, base.table, base.funcs, i);
    var dem := DemandsAt(base.table, base.funcs, i);
    assert dem.Keys == base.table.tenants[i];
    if g :| g in base.table.tenants[i] && g != f {
      var start: nat, len: nat :| IsRun(base.table.cols[i], g, start, len) && (dem[g] > 1 ==> len == dem[g]);
      assert col[start] == g;
    }
  }

  lemma LeftNone(base: State, f: Fid)
    requires Inv(base) && base.pending.None?
    ensures Left(base, f, {}, base.table.cols, base.table.tenants, base.table.used, base.offset, base.frags)
  {
  }

  lemma NextStage(tenants: seq<set<Fid>>, f: Fid, stages: seq<nat>, k: nat)
    requires Ascending(stages) && Elements(stages) == StagesOf(tenants, f) && k < |stages|
    ensures stages[k] < |tenants| && f in tenants[stages[k]]
    ensures stages[k] !in Elements(stages[..k]) && Elements(stages[..k + 1]) == Elements(stages[..k]) + {stages[k]}
  {
    assert stages[k] in Elements(stages);
    assert stages[..k + 1] == stages[..k] + [stages[k]];
  }

  lemma StagesListed(base: State, f: Fid)
    requires Inv(base) && base.pending.None? && f in base.funcs
    ensures f in base.table.rev && Ascending(base.table.rev[f])
    ensures Elements(base.table.rev[f]) == StagesOf(base.table.tenants, f)
  {
    assert IndexedAt(base.table, f);
  }

  lemma LeftDeparts(base: State, f: Fid, s': State)
    requires Inv(base) && base.pending.None? && f in base.funcs
    requires Left(base, f, StagesOf(base.table.tenants, f), s'.table.cols, s'.table.tenants, s'.table.used, s'.offset, s'.frags)
    requires s'.n == base.n && s'.funcs == base.funcs - {f} && s'.table.rev == base.table.rev - {f} && s'.pending.None?
    ensures Departs(base, f, s')
  {
    var done := StagesOf(base.table.tenants, f);
    forall i | 0 <= i < STAGES
      ensures DepartsAt(base, f, s', i)
      ensures s'.table.tenants[i] == base.table.tenants[i] - {f}
    {
      assert LeftAt(base, f, done, s'.table.cols, s'.table.tenants, s'.offset, s'.frags, i);
    }
    assert s'.table.tenants == Removed(base.table.tenants, f);
    forall i: nat ensures i in s'.table.used <==> i in UsedStages(s'.table.tenants) {
      if i < STAGES {
        assert s'.table.tenants[i] == base.table.tenants[i] - {f};
        assert s'.table.tenants[i] == {} <==> base.table.tenants[i] == {} || base.table.tenants[i] == {f};
      }
    }
  }

  /** A non-empty block list, all of the blocks from its first to its last. */
  ghost predicate IsBlockRange(col: seq<Fid>, f: Fid, blocks: seq<nat>)
  {
    && 0 < |blocks| && blocks[0] <= blocks[|blocks| - 1] < |col|
    && forall j | 0 <= j < |col| :: col[j] == f <==> blocks[0] <= j <= blocks[|blocks| - 1]
  }

  /** A program holds blocks exactly on the stages it is a tenant of, and they are contiguous. */
  lemma BlocksOfTenant(s: State, f: Fid, i: nat)
    requires TableOk(s.n, s.table, s.funcs) && i < STAGES && f in s.table.rev
    ensures BlockList(s.table.cols[i], f) != [] <==> f in s.table.tenants[i]
    ensures f in s.table.tenants[i] ==> IsBlockRange(s.table.cols[i], f, BlockList(s.table.cols[i], f))
  {
    var col, dem := s.table.cols[i], DemandsAt(s.table, s.funcs, i);
    assert ColumnAt(s.n, s.table, s.funcs, i);
    TenantsPresent(col, dem, f);
    BlockListMembers(col, f);
    assert f in dem <==> f in s.table.tenants[i];
    if f in dem {
      var start: nat, len: nat :| IsRun(col, f, start, len) && (dem[f] > 1 ==> len == dem[f]);
      BlockListOfRun(col, f, start, len);
    } else {
      TenantNonZero(s, f);
      MemberOrEmpty(BlockList(col, f));
    }
  }

  lemma TenantNonZero(s: State, f: Fid)
    requires TableOk(s.n, s.table, s.funcs) && f in s.table.rev
    ensures f != 0
  {
    assert IndexedAt(s.table, f);
    var k :| k in StagesOf(s.table.tenants, f);
    assert ColumnAt(s.n, s.table, s.funcs, k);
    assert f in DemandsAt(s.table, s.funcs, k);
  }
}
