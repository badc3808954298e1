/** A run of the allocator that ends with an accepted arrival that cannot be laid out. */
module TrailingHoles {
  import opened Dimensions
  import opened Wrappers
  import opened Columns
  import opened Holes
  import opened Layout
  import opened Ordered
  import opened AllocatorModel
  import opened Costs
  import opened Ranking
  import opened Admission

  const BLOCKS: nat := 8

  /** Programs with one access each, on stage 0. */
  ghost function Apps(dem: map<Fid, nat>): map<Fid, App>
  {
    map f | f in dem :: App([dem[f]], map[0 := 0])
  }

  ghost function Tables(col: seq<Fid>, dem: map<Fid, nat>): Table
  {
    Table(seq(STAGES, i => if i == 0 then col else seq(BLOCKS, j => 0)), seq(STAGES, i => if i == 0 then dem.Keys else {}),
          map f | f in dem :: [0], if dem == map[] then {} else {0})
  }

  /** A state in which programs use stage 0 only. */
  ghost function Solo(col: seq<Fid>, off: nat, holes: seq<Hole>, dem: map<Fid, nat>): State
  {
    State(BLOCKS, Tables(col, dem), seq(STAGES, i => if i == 0 then off else 0),
          seq(STAGES, i => if i == 0 then holes else []), Apps(dem), None)
  }

  function Asks(f: Fid, demand: nat): Request { Request(f, [demand], [0]) }

  lemma SoloDemands(col: seq<Fid>, dem: map<Fid, nat>, i: nat)
    requires i < STAGES
    ensures DemandsAt(Tables(col, dem), Apps(dem), i) == if i == 0 then dem else map[]
  {
  }

  lemma AsksOn(f: Fid, demand: nat, i: nat)
    ensures Positions([0]) == map[0 := 0]
    ensures ArrivalOn(Asks(f, demand), i) == if i == 0 then Arrives(f, demand) else NoArrival
  {
    assert [0][..0] == [];
    assert Positions([0]) == map[0 := 0];
  }

  lemma SoloIndexed(col: seq<Fid>, dem: map<Fid, nat>)
    ensures Indexed(Tables(col, dem))
  {
    var t := Tables(col, dem);
    forall f: Fid ensures IndexedAt(t, f) {
      if f in dem {
        assert StagesOf(t.tenants, f) == {0} == Elements([0]);
        ListsIsSorted([0], {0});
      } else {
        assert StagesOf(t.tenants, f) == {};
      }
    }
    if dem != map[] {
      var f :| f in dem;
      assert dem.Keys != {};
      assert UsedStages(t.tenants) == {0};
    } else {
      assert dem.Keys == {};
      assert UsedStages(t.tenants) == {};
    }
  }

  /** A program arrives on stage 0 and its allocation is committed. */
  lemma SoloArrives(col: seq<Fid>, off: nat, holes: seq<Hole>, dem: map<Fid, nat>, f: Fid, demand: nat,
                    col': seq<Fid>, off': nat, holes': seq<Hole>, mid: State)
    requires |col| == |col'| == BLOCKS && f != 0 && f !in dem && 1 <= demand
    requires off <= |col| && Placeable(col, off, dem, Arrives(f, demand))
    requires StageStep(col, off, dem, Arrives(f, demand), col', off', holes')
    requires mid == Solo(col', off', holes', dem[f := demand])
                      .(table := Tables(col, dem), pending := Some(Queued(f, Tables(col', dem[f := demand]))))
    ensures Next(Solo(col, off, holes, dem), Event.Arrival(Asks(f, demand)), mid)
    ensures Next(mid, Event.Commit, Solo(col', off', holes', dem[f := demand]))
  {
    hide StageStep, Placeable;
    var s, r, dem' := Solo(col, off, holes, dem), Asks(f, demand), dem[f := demand];
    SoloIndexed(col', dem');
    SoloAdmits(col, dem, f, demand, col');
    forall i | 0 <= i < STAGES
      ensures PlaceableAt(s, r, i) && NextAt(s, r, Tables(col', dem'), mid.offset, mid.frags, i)
    {
      SoloNext(col, off, holes, dem, f, demand, col', off', holes', i);
    }
  }

  lemma SoloAdmits(col: seq<Fid>, dem: map<Fid, nat>, f: Fid, demand: nat, col': seq<Fid>)
    requires f !in dem
    ensures NewFuncs(Apps(dem), Asks(f, demand)) == Apps(dem[f := demand])
    ensures Tables(col', dem[f := demand]).tenants == NewTenants(Tables(col, dem).tenants, Asks(f, demand))
  {
    AsksOn(f, demand, 0);
    var ts, ts' := NewTenants(Tables(col, dem).tenants, Asks(f, demand)), Tables(col', dem[f := demand]).tenants;
    forall i | 0 <= i < STAGES ensures ts'[i] == ts[i] {
      assert dem[f := demand].Keys == dem.Keys + {f};
    }
  }

  lemma SoloNext(col: seq<Fid>, off: nat, holes: seq<Hole>, dem: map<Fid, nat>, f: Fid, demand: nat,
                 col': seq<Fid>, off': nat, holes': seq<Hole>, i: nat)
    requires |col| == |col'| == BLOCKS && i < STAGES
    requires off <= |col| && Placeable(col, off, dem, Arrives(f, demand))
    requires StageStep(col, off, dem, Arrives(f, demand), col', off', holes')
    ensures var s, s' := Solo(col, off, holes, dem), Solo(col', off', holes', dem[f := demand]);
            PlaceableAt(s, Asks(f, demand), i) && NextAt(s, Asks(f, demand), s'.table, s'.offset, s'.frags, i)
  {
    SoloDemands(col, dem, i);
    AsksOn(f, demand, i);
    if i > 0 {
      assert Elastic(map[]) == {};
    }
  }

  /** A program leaves stage 0. */
  lemma SoloDeparts(col: seq<Fid>, off: nat, holes: seq<Hole>, dem: map<Fid, nat>, f: Fid,
                    col': seq<Fid>, off': nat, holes': seq<Hole>)
    requires |col| == |col'| == BLOCKS && f in dem
    requires StageDepart(col, off, holes, dem, f, col', off', holes')
    ensures Next(Solo(col, off, holes, dem), Event.Departure(f), Solo(col', off', holes', dem - {f}))
  {
    hide StageDepart;
    var s, s' := Solo(col, off, holes, dem), Solo(col', off', holes', dem - {f});
    SoloTables(col, dem, f, col');
    SoloIndexed(col', dem - {f});
    forall i | 0 <= i < STAGES ensures DepartsAt(s, f, s', i) {
      SoloDemands(col, dem, i);
    }
  }

  lemma SoloTables(col: seq<Fid>, dem: map<Fid, nat>, f: Fid, col': seq<Fid>)
    requires f in dem
    ensures Apps(dem - {f}) == Apps(dem) - {f}
    ensures Tables(col', dem - {f}).tenants == Removed(Tables(col, dem).tenants, f)
    ensures Tables(col', dem - {f}).rev == Tables(col, dem).rev - {f}
  {
    var ts, ts' := Removed(Tables(col, dem).tenants, f), Tables(col', dem - {f}).tenants;
    forall i | 0 <= i < STAGES ensures ts'[i] == ts[i] {
      assert (dem - {f}).Keys == dem.Keys - {f};
      assert {} - {f} == {};
    }
  }

  // ---- the run --------------------------------------------------------------------------

  lemma {:induction false} ScanSolid(col: seq<Fid>, off: nat, j: nat)
    requires off <= |col| && forall i | j <= i < off :: col[i] != 0
    ensures Scan(col, off, j, -1, -1) == []
    decreases off - j
  {
    if j < off {
      ScanSolid(col, off, j + 1);
    }
  }

  /** An inelastic program takes the blocks at the offset when no hole is listed. */
  lemma TakesTop(col: seq<Fid>, off: nat, dem: map<Fid, nat>, f: Fid, demand: nat, col': seq<Fid>)
    requires |col| == |col'| == BLOCKS && off + demand <= BLOCKS && 1 < demand && Elastic(dem) == {}
    requires forall j | 0 <= j < off :: col[j] != 0
    requires forall j | 0 <= j < BLOCKS :: col'[j] == if j < off then col[j] else if j < off + demand then f else 0
    ensures Placeable(col, off, dem, Arrives(f, demand))
    ensures StageStep(col, off, dem, Arrives(f, demand), col', off + demand, [])
  {
    var arr, p := Arrives(f, demand), Placement(off, demand, off + demand, []);
    var top: int := -1;
    ScanSolid(col, off, 0);
    assert Rescan(col, off) == [];
    assert IsPlacement([], off, arr, p);
    assert Elastic(Admit(dem, arr)) == {};
    assert Sorted({}) == [];
    assert Tiled(col', off + demand, []);
    assert Placed(col, off, dem, arr, col', off + demand, [], p);
  }

  /** Column 0 with six blocks of f, or free, below two of g. */
  ghost function Column(f: Fid, g: Fid): (col: seq<Fid>)
    ensures |col| == BLOCKS && forall j | 0 <= j < BLOCKS :: col[j] == if j < 6 then f else g
  {
    seq(BLOCKS, j => if j < 6 then f else g)
  }

  /** Only inelastic programs 1 and 2, as far as they are there. */
  ghost predicate Pair(dem: map<Fid, nat>, one: bool, two: bool)
  {
    && (forall f | f in dem :: f == 1 || f == 2) && (1 in dem <==> one) && (2 in dem <==> two)
    && (one ==> dem[1] == 6) && (two ==> dem[2] == 2)
  }

  lemma EmptyIsInitial(s: State)
    requires s == Solo(Column(0, 0), 0, [], map[])
    ensures Initial(s)
  {
    assert Column(0, 0) == seq(BLOCKS, j => 0);
    forall i | 0 <= i < STAGES ensures s.table.cols[i] == seq(BLOCKS, j => 0) && s.table.tenants[i] == {} {}
  }

  /** Program 1 takes six blocks, then program 2 the other two. */
  lemma BothArrive(dem: map<Fid, nat>)
    requires Pair(dem, true, false)
    ensures Placeable(Column(0, 0), 0, map[], Arrives(1, 6)) && Placeable(Column(1, 0), 6, dem, Arrives(2, 2))
    ensures StageStep(Column(0, 0), 0, map[], Arrives(1, 6), Column(1, 0), 6, [])
    ensures StageStep(Column(1, 0), 6, dem, Arrives(2, 2), Column(1, 2), 8, [])
  {
    assert Elastic(map[]) == {} && Elastic(dem) == {};
    TakesTop(Column(0, 0), 0, map[], 1, 6, Column(1, 0));
    TakesTop(Column(1, 0), 6, dem, 2, 2, Column(1, 2));
  }

  /** Program 1 leaves a hole; program 2 sat right below the offset, which drops onto the hole. */
  lemma BothLeave(dem: map<Fid, nat>, dem': map<Fid, nat>)
    requires Pair(dem, true, true) && Pair(dem', false, true)
    ensures StageDepart(Column(1, 2), 8, [], dem, 1, Column(0, 2), 8, [Hole(0, 6)])
    ensures StageDepart(Column(0, 2), 8, [Hole(0, 6)], dem', 2, Column(0, 0), 6, [Hole(0, 6)])
  {
    assert IsRun(Column(1, 2), 1, 0, 6) && IsRun(Column(0, 2), 2, 6, 2);
    assert [] + [Hole(0, 6)] == [Hole(0, 6)];
  }

  /** The list still offers the hole to an arrival asking for three blocks, but the rescan finds no hole
      that ends below the offset, and the two blocks above it are too few. */
  lemma HoleMisleads()
    ensures Feasible(BLOCKS, 6, [Hole(0, 6)], map[], 3)
    ensures !Placeable(Column(0, 0), 6, map[], Arrives(3, 3))
  {
    var dem: map<Fid, nat> := map[];
    assert Elastic(dem) == {} && Occupied(dem) == 0;
    forall a: int, l: int ensures !ClosedRun(Column(0, 0), 6, a, l) {}
    RescanFits(Column(0, 0), 6, 3);
  }

  lemma MisledOverall(r: Request)
    requires r == Asks(3, 3)
    ensures var s := Solo(Column(0, 0), 6, [Hole(0, 6)], map[]); RequestOk(s, r) && Accepted(s, r) && !AllPlaceable(s, r)
  {
    hide Feasible, Placeable;
    var s := Solo(Column(0, 0), 6, [Hole(0, 6)], map[]);
    HoleMisleads();
    SoloDemands(Column(0, 0), map[], 0);
    AsksOn(3, 3, 0);
    assert FeasibleAt(s, 0, 3);
    assert !PlaceableAt(s, r, 0);
  }

  ghost function Trace(): seq<Event>
  {
    [Event.Arrival(Asks(1, 6)), Event.Commit, Event.Arrival(Asks(2, 2)), Event.Commit, Event.Departure(1), Event.Departure(2)]
  }

  /** Admission is not sound in general, and the allocator gets there: two inelastic programs of 6 and 2
      blocks arrive in a stage of 8 and leave in that order; then an arrival asking for 3 blocks is
      accepted, and its layout fails. */
  lemma ReachesTrailingHole(r: Request) returns (states: seq<State>)
    requires r == Asks(3, 3)
    ensures Run(states, Trace())
    ensures var s := states[|states| - 1]; s.pending.None? && RequestOk(s, r) && Accepted(s, r) && !AllPlaceable(s, r)
  {
    hide Solo, Next, StageStep, StageDepart, Placeable, Accepted, AllPlaceable, RequestOk, Initial;
    var none: map<Fid, nat> := map[];
    var one, both := none[1 := 6], none[1 := 6][2 := 2];
    var two, empty := both - {1}, both - {1} - {2};
    var s0, s2 := Solo(Column(0, 0), 0, [], none), Solo(Column(1, 0), 6, [], one);
    var s4, s5 := Solo(Column(1, 2), 8, [], both), Solo(Column(0, 2), 8, [Hole(0, 6)], two);
    var s6 := Solo(Column(0, 0), 6, [Hole(0, 6)], empty);
    var s1 := s2.(table := Tables(Column(0, 0), none), pending := Some(Queued(1, Tables(Column(1, 0), one))));
    var s3 := s4.(table := Tables(Column(1, 0), one), pending := Some(Queued(2, Tables(Column(1, 2), both))));
    BothArrive(one);
    BothLeave(both, two);
    EmptyIsInitial(s0);
    SoloArrives(Column(0, 0), 0, [], none, 1, 6, Column(1, 0), 6, [], s1);
    SoloArrives(Column(1, 0), 6, [], one, 2, 2, Column(1, 2), 8, [], s3);
    SoloDeparts(Column(1, 2), 8, [], both, 1, Column(0, 2), 8, [Hole(0, 6)]);
    SoloDeparts(Column(0, 2), 8, [Hole(0, 6)], two, 2, Column(0, 0), 6, [Hole(0, 6)]);
    states := [s0, s1, s2, s3, s4, s5, s6];
    assert empty == map[];
    MisledOverall(r);
    forall k | 0 <= k < 6 ensures StepAt(states, Trace(), k) {}
    SoloIdle(Column(0, 0), 6, [Hole(0, 6)], empty);
  }

  lemma SoloIdle(col: seq<Fid>, off: nat, holes: seq<Hole>, dem: map<Fid, nat>)
    ensures Solo(col, off, holes, dem).pending.None?
  {
  }
}
