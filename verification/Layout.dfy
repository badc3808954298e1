/** What laying out one stage for an allocation computes: inelastic tenants stay, an inelastic arrival
    takes the largest listed hole that fits or the blocks at the elastic offset, and the elastic
    tenants share the rest by progressive filling in ascending FID order. */
module Layout {
  import opened Columns
  import opened Holes
  import opened Ordered
  import opened Sharing

  /** At most one program arrives on a stage at a time. */
  datatype Arrival = NoArrival | Arrives(fid: Fid, demand: nat)

  ghost predicate ArrivalOk(dem: map<Fid, nat>, arr: Arrival)
  {
    arr.Arrives? ==> arr.fid != 0 && arr.fid !in dem && 1 <= arr.demand
  }

  function Admit(dem: map<Fid, nat>, arr: Arrival): map<Fid, nat>
  {
    if arr.Arrives? then dem[arr.fid := arr.demand] else dem
  }

  predicate Inelastic(arr: Arrival) { arr.Arrives? && arr.demand > 1 }

  /** The blocks start .. start+len-1 an inelastic arrival is given, the elastic offset after that,
      and the fragmentation list after that. */
  datatype Placement = Placement(start: nat, len: nat, off: nat, holes: seq<Hole>)

  ghost predicate IsPlacement(holes: seq<Hole>, off: nat, arr: Arrival, p: Placement)
  {
    if !Inelastic(arr) then
      p == Placement(0, 0, off, holes)
    else if Fits(holes, arr.demand) then
      exists k: nat :: IsLargestFit(holes, arr.demand, k)
                && 0 <= holes[k].start
                && p == Placement(holes[k].start, arr.demand, off, TakeFrom(holes, k, arr.demand))
    else
      p == Placement(off, arr.demand, off + arr.demand, holes)
  }

  ghost predicate Segment(col: seq<Fid>, a: nat, b: nat, f: Fid)
    requires b <= |col|
  {
    forall j | a <= j < b :: col[j] == f
  }

  /** The blocks from the offset up are divided among the listed tenants, in order, by progressive
      filling; with no elastic tenant they are free. */
  ghost predicate Tiled(col: seq<Fid>, off: nat, fids: seq<Fid>)
  {
    && off <= |col|
    && (fids == [] ==> Segment(col, off, |col|, 0))
    && (forall k | 0 <= k < |fids| :: TileOf(col, off, fids, k))
  }

  ghost predicate TileOf(col: seq<Fid>, off: nat, fids: seq<Fid>, k: nat)
    requires off <= |col| && k < |fids|
  {
    var r, n := |col| - off, |fids|;
    && off + ShareStart(r, n, k + 1) <= |col|
    && Segment(col, off + ShareStart(r, n, k), off + ShareStart(r, n, k + 1), fids[k])
  }

  /** The layout of a stage after an allocation: col', off' and holes' from the column, offset and
      tenants before it and the arrival on this stage. */
  ghost predicate StageStep(col: seq<Fid>, off: nat, dem: map<Fid, nat>, arr: Arrival,
                            col': seq<Fid>, off': nat, holes': seq<Hole>)
  {
    && off <= |col| == |col'|
    && exists p: Placement :: IsPlacement(Rescan(col, off), off, arr, p) && Placed(col, off, dem, arr, col', off', holes', p)
  }

  ghost predicate Placed(col: seq<Fid>, off: nat, dem: map<Fid, nat>, arr: Arrival,
                         col': seq<Fid>, off': nat, holes': seq<Hole>, p: Placement)
    requires off <= |col| == |col'|
  {
    && off' == p.off <= |col|
    && holes' == ByLength(p.holes)
    && (forall j | 0 <= j < off' ::
          col'[j] == if p.start <= j < p.start + p.len && Inelastic(arr) then arr.fid else if j < off then col[j] else 0)
    && Tiled(col', off', Sorted(Elastic(Admit(dem, arr))))
  }

  /** The layout exists: the arrival finds a listed hole, or the region above the offset holds it and
      leaves every elastic tenant a block. */
  predicate Placeable(col: seq<Fid>, off: nat, dem: map<Fid, nat>, arr: Arrival)
    requires off <= |col|
  {
    if Inelastic(arr) then
      (exists h :: h in Rescan(col, off) && arr.demand <= h.len) || arr.demand + |Elastic(dem)| <= |col| - off
    else
      |Elastic(Admit(dem, arr))| <= |col| - off
  }

  // ---- elastic tiles are runs -----------------------------------------------------------

  lemma TileIsRun(col: seq<Fid>, off: nat, fids: seq<Fid>, k: nat)
    requires Tiled(col, off, fids) && Ascending(fids) && k < |fids| <= |col| - off
    requires forall j | 0 <= j < off :: col[j] != fids[k]
    ensures IsRun(col, fids[k], off + ShareStart(|col| - off, |fids|, k), Share(|col| - off, |fids|, k))
  {
    var r, n := |col| - off, |fids|;
    SharePositive(r, n, k);
    ShareStartEnd(r, n);
    assert TileOf(col, off, fids, k);
    var a, b := off + ShareStart(r, n, k), off + ShareStart(r, n, k + 1);
    assert b == a + Share(r, n, k);
    forall j | off <= j < |col| && !(a <= j < b) ensures col[j] != fids[k] {
      var i := ShareOwner(r, n, n, j - off);
      assert TileOf(col, off, fids, i);
      assert col[j] == fids[i];
      if i == k { assert false; }
    }
  }

  /** A tiled region holds only tenants of the list, or nothing when the list is empty. */
  lemma TiledMembers(col: seq<Fid>, off: nat, fids: seq<Fid>, j: nat) returns (k: nat)
    requires Tiled(col, off, fids) && off <= j < |col| && fids != []
    ensures k < |fids| && col[j] == fids[k]
  {
    ShareStartEnd(|col| - off, |fids|);
    k := ShareOwner(|col| - off, |fids|, |fids|, j - off);
    assert TileOf(col, off, fids, k);
  }

  // ---- one stage keeps its invariant ----------------------------------------------------

  lemma ElasticAdmit(dem: map<Fid, nat>, arr: Arrival)
    requires ArrivalOk(dem, arr)
    ensures Inelastic(arr) || arr.NoArrival? ==> Elastic(Admit(dem, arr)) == Elastic(dem)
    ensures !Inelastic(arr) && arr.Arrives? ==>
              Elastic(Admit(dem, arr)) == Elastic(dem) + {arr.fid} && |Elastic(Admit(dem, arr))| == |Elastic(dem)| + 1
  {
  }

  /** The placement takes free blocks below the new offset only. */
  lemma PlacementFree(col: seq<Fid>, off: nat, dem: map<Fid, nat>, arr: Arrival, p: Placement)
    requires StageOk(col, off, dem) && ArrivalOk(dem, arr)
    requires IsPlacement(Rescan(col, off), off, arr, p)
    ensures p.start + p.len <= p.off && off <= p.off
    ensures p.off == off || (p.off == off + p.len && p.start == off)
    ensures p.len == (if Inelastic(arr) then arr.demand else 0)
    ensures forall j | p.start <= j < p.start + p.len && j < off :: col[j] == 0
  {
    RescanOk(col, off);
    var holes := Rescan(col, off);
    if Inelastic(arr) && Fits(holes, arr.demand) {
      var k: nat :| IsLargestFit(holes, arr.demand, k)
                && 0 <= holes[k].start
                && p == Placement(holes[k].start, arr.demand, off, TakeFrom(holes, k, arr.demand));
      assert holes[k] in holes;
      assert HoleOk(col, off, holes[k]);
    }
  }

  /** Inelastic tenants keep exactly their blocks. */
  ghost predicate Pins(col: seq<Fid>, col': seq<Fid>, dem: map<Fid, nat>)
  {
    |col| == |col'| && forall f | f in dem && dem[f] > 1 :: SameBlocks(col, col', f)
  }

  ghost predicate SameBlocks(col: seq<Fid>, col': seq<Fid>, f: Fid)
    requires |col| == |col'|
  {
    forall j | 0 <= j < |col| :: col[j] == f <==> col'[j] == f
  }

  /** Who holds a block below the new offset. */
  lemma BelowOffset(col: seq<Fid>, off: nat, dem: map<Fid, nat>, arr: Arrival,
                    col': seq<Fid>, off': nat, holes': seq<Hole>, p: Placement)
    requires StageOk(col, off, dem) && ArrivalOk(dem, arr) && |col'| == |col|
    requires IsPlacement(Rescan(col, off), off, arr, p) && Placed(col, off, dem, arr, col', off', holes', p)
    ensures forall j | 0 <= j < off' :: col'[j] == 0 || (col'[j] in Admit(dem, arr) && Admit(dem, arr)[col'[j]] > 1)
    ensures forall j | 0 <= j < off' && col'[j] != 0 && !(Inelastic(arr) && col'[j] == arr.fid) :: j < off && col'[j] == col[j]
    ensures forall j | 0 <= j < off && col[j] != 0 :: col'[j] == col[j]
    ensures Inelastic(arr) ==> forall j | 0 <= j < off' :: col'[j] == arr.fid <==> p.start <= j < p.start + p.len
  {
    PlacementFree(col, off, dem, arr, p);
  }

  lemma AboveOffset(col: seq<Fid>, off: nat, dem: map<Fid, nat>, arr: Arrival, j: nat)
    requires ArrivalOk(dem, arr) && 0 !in dem
    requires Tiled(col, off, Sorted(Elastic(Admit(dem, arr)))) && off <= j < |col|
    ensures col[j] == 0 || (col[j] in Admit(dem, arr) && Admit(dem, arr)[col[j]] == 1)
  {
    var fids := Sorted(Elastic(Admit(dem, arr)));
    if fids != [] {
      var k := TiledMembers(col, off, fids, j);
      assert fids[k] in Elastic(Admit(dem, arr));
    }
  }

  lemma PinsStep(col: seq<Fid>, off: nat, dem: map<Fid, nat>, arr: Arrival,
                 col': seq<Fid>, off': nat, holes': seq<Hole>, p: Placement)
    requires StageOk(col, off, dem) && ArrivalOk(dem, arr) && |col'| == |col|
    requires IsPlacement(Rescan(col, off), off, arr, p) && Placed(col, off, dem, arr, col', off', holes', p)
    ensures Pins(col, col', dem)
  {
    PlacementFree(col, off, dem, arr, p);
    BelowOffset(col, off, dem, arr, col', off', holes', p);
    forall f | f in dem && dem[f] > 1 ensures SameBlocks(col, col', f) {
      forall j | 0 <= j < |col| ensures col[j] == f <==> col'[j] == f {
        if j >= off' {
          AboveOffset(col', off', dem, arr, j);
        }
      }
    }
  }

  lemma OffsetStep(col: seq<Fid>, off: nat, dem: map<Fid, nat>, arr: Arrival,
                   col': seq<Fid>, off': nat, holes': seq<Hole>, p: Placement)
    requires StageOk(col, off, dem) && ArrivalOk(dem, arr) && |col'| == |col|
    requires IsPlacement(Rescan(col, off), off, arr, p) && Placed(col, off, dem, arr, col', off', holes', p)
    requires Placeable(col, off, dem, arr)
    ensures OffsetOk(col', off', Admit(dem, arr))
    ensures forall j | 0 <= j < |col'| :: col'[j] == 0 || col'[j] in Admit(dem, arr)
  {
    var dem' := Admit(dem, arr);
    PlacementFree(col, off, dem, arr, p);
    BelowOffset(col, off, dem, arr, col', off', holes', p);
    ElasticAdmit(dem, arr);
    forall j | 0 <= j < |col'|
      ensures col'[j] == 0 || col'[j] in dem'
      ensures col'[j] in dem' ==> (dem'[col'[j]] > 1 <==> j < off')
    {
      if j >= off' {
        AboveOffset(col', off', dem, arr, j);
      }
    }
  }

  /** Laying out a stage re-establishes its invariant, keeps every inelastic tenant in place, and hosts
      the arrival. */
  lemma StageStepOk(col: seq<Fid>, off: nat, dem: map<Fid, nat>, arr: Arrival,
                    col': seq<Fid>, off': nat, holes': seq<Hole>)
    requires StageOk(col, off, dem) && ArrivalOk(dem, arr)
    requires StageStep(col, off, dem, arr, col', off', holes')
    requires Placeable(col, off, dem, arr)
    ensures StageOk(col', off', Admit(dem, arr))
    ensures Pins(col, col', dem)
    ensures HolesOk(col', off', holes')
  {
    var dem' := Admit(dem, arr);
    var p: Placement :| IsPlacement(Rescan(col, off), off, arr, p) && Placed(col, off, dem, arr, col', off', holes', p);
    OffsetStep(col, off, dem, arr, col', off', holes', p);
    PinsStep(col, off, dem, arr, col', off', holes', p);
    forall f | f in dem' ensures Hosted(col', f, dem'[f]) {
      HostedStep(col, off, dem, arr, col', off', holes', p, f);
    }
    HolesStep(col, off, dem, arr, col', off', holes', p);
  }

  lemma HostedStep(col: seq<Fid>, off: nat, dem: map<Fid, nat>, arr: Arrival,
                   col': seq<Fid>, off': nat, holes': seq<Hole>, p: Placement, f: Fid)
    requires StageOk(col, off, dem) && ArrivalOk(dem, arr) && |col'| == |col|
    requires IsPlacement(Rescan(col, off), off, arr, p) && Placed(col, off, dem, arr, col', off', holes', p)
    requires Placeable(col, off, dem, arr)
    requires f in Admit(dem, arr)
    ensures Hosted(col', f, Admit(dem, arr)[f])
  {
    var dem' := Admit(dem, arr);
    PlacementFree(col, off, dem, arr, p);
    BelowOffset(col, off, dem, arr, col', off', holes', p);
    ElasticAdmit(dem, arr);
    if dem'[f] == 1 {
      var fids := Sorted(Elastic(dem'));
      assert f in Elastic(dem');
      var k :| 0 <= k < |fids| && fids[k] == f;
      TileIsRun(col', off', fids, k);
    } else if Inelastic(arr) && f == arr.fid {
      forall j | off' <= j < |col'| ensures col'[j] != f {
        AboveOffset(col', off', dem, arr, j);
      }
      assert IsRun(col', f, p.start, p.len);
    } else {
      PinsStep(col, off, dem, arr, col', off', holes', p);
      assert SameBlocks(col, col', f);
      var start: nat, len: nat :| IsRun(col, f, start, len) && (dem[f] > 1 ==> len == dem[f]);
      assert IsRun(col', f, start, len);
    }
  }

  lemma HolesCarry(col: seq<Fid>, off: nat, col': seq<Fid>, off': nat, holes: seq<Hole>)
    requires off <= off' <= |col'| == |col| && HolesOk(col, off, holes)
    requires forall j | 0 <= j < off :: col'[j] == col[j]
    ensures HolesOk(col', off', holes)
  {
    forall h | h in holes ensures HoleOk(col', off', h) {
      assert HoleOk(col, off, h);
    }
  }

  lemma HolesStep(col: seq<Fid>, off: nat, dem: map<Fid, nat>, arr: Arrival,
                  col': seq<Fid>, off': nat, holes': seq<Hole>, p: Placement)
    requires StageOk(col, off, dem) && ArrivalOk(dem, arr) && |col'| == |col|
    requires IsPlacement(Rescan(col, off), off, arr, p) && Placed(col, off, dem, arr, col', off', holes', p)
    ensures HolesOk(col', off', holes')
  {
    RescanOk(col, off);
    var holes := Rescan(col, off);
    if Inelastic(arr) && Fits(holes, arr.demand) {
      var k: nat :| IsLargestFit(holes, arr.demand, k)
                && 0 <= holes[k].start
                && p == Placement(holes[k].start, arr.demand, off, TakeFrom(holes, k, arr.demand));
      assert HoleOk(col, off, holes[k]);
      TakeFromOk(col, off, holes, k, arr.demand, col');
    } else {
      assert forall j | 0 <= j < off :: col'[j] == col[j];
      HolesCarry(col, off, col', off', holes);
    }
    ByLengthOk(col', off', p.holes);
  }

  /** Block j below the new offset is the arrival's. */
  ghost predicate Taken(arr: Arrival, col': seq<Fid>, j: int)
  {
    arr.Arrives? && 0 <= j < |col'| && col'[j] == arr.fid
  }

  /** What becomes of the listed holes: a layout lists exactly the blocks the rescan has found free, but for
      those it gives to the arrival. */
  lemma HolesKept(col: seq<Fid>, off: nat, dem: map<Fid, nat>, arr: Arrival,
                  col': seq<Fid>, off': nat, holes': seq<Hole>, j: int)
    requires StageOk(col, off, dem) && ArrivalOk(dem, arr)
    requires StageStep(col, off, dem, arr, col', off', holes')
    ensures InHole(holes', j) <==> InHole(Rescan(col, off), j) && !(j < off && Taken(arr, col', j))
  {
    var holes := Rescan(col, off);
    var p: Placement :| IsPlacement(holes, off, arr, p) && Placed(col, off, dem, arr, col', off', holes', p);
    RescanOk(col, off);
    ByLengthMembers(p.holes);
    InHoleMembers(p.holes, holes', j);
    PlacementFree(col, off, dem, arr, p);
    BelowOffset(col, off, dem, arr, col', off', holes', p);
    if i :| 0 <= i < |holes| && Contains(holes[i], j) {
      assert holes[i] in holes && HoleOk(col, off, holes[i]);
    }
    if Inelastic(arr) && Fits(holes, arr.demand) {
      var k: nat :| IsLargestFit(holes, arr.demand, k)
                && 0 <= holes[k].start
                && p == Placement(holes[k].start, arr.demand, off, TakeFrom(holes, k, arr.demand));
      TakeFromExactly(holes, k, arr.demand, j);
    }
  }

  /** In particular no hole the rescan records right gets lost: each block of it is the arrival's or listed
      afterwards. */
  lemma RecordedKept(col: seq<Fid>, off: nat, dem: map<Fid, nat>, arr: Arrival,
                     col': seq<Fid>, off': nat, holes': seq<Hole>, a: int, l: int, j: int)
    requires StageOk(col, off, dem) && ArrivalOk(dem, arr)
    requires StageStep(col, off, dem, arr, col', off', holes')
    requires ClosedRun(col, off, a, l) && (l > 1 || NoHoleBefore(col, a)) && a <= j < a + l
    ensures Taken(arr, col', j) || InHole(holes', j)
  {
    RescanRecords(col, off, a, l);
    var k :| 0 <= k < |Rescan(col, off)| && Rescan(col, off)[k] == Hole(a, l);
    assert Contains(Rescan(col, off)[k], j);
    HolesKept(col, off, dem, arr, col', off', holes', j);
  }

  // ---- admission ------------------------------------------------------------------------

  /** The guards both cost functions put on a stage. */
  predicate Admits(n: nat, off: nat, holes: seq<Hole>, dem: map<Fid, nat>, demand: nat)
  {
    if demand == 1 then
      |Elastic(dem)| + 1 <= n - off
    else if |holes| > 0 && holes[0].len > n - off then
      demand <= holes[0].len
    else
      demand + |Elastic(dem)| <= n - off
  }

  /** Admission is sound wherever no stage has a trailing hole. */
  lemma AdmissionSound(col: seq<Fid>, off: nat, holes: seq<Hole>, dem: map<Fid, nat>, arr: Arrival)
    requires StageOk(col, off, dem) && HolesOk(col, off, holes) && ArrivalOk(dem, arr) && arr.Arrives?
    requires Admits(|col|, off, holes, dem, arr.demand)
    requires NoTrailingHole(col, off)
    ensures Placeable(col, off, dem, arr)
  {
    ElasticAdmit(dem, arr);
    if Inelastic(arr) && |holes| > 0 && holes[0].len > |col| - off {
      var h := holes[0];
      assert h in holes && HoleOk(col, off, h);
      var a, l := FreeRangeInClosedRun(col, off, h.start, h.len);
      RescanFits(col, off, arr.demand);
    }
  }

  /** What admission decides in any well-formed stage: an admitted arrival can be placed exactly if
      it is elastic, or some free run that ends below the offset holds it, or the region above the
      offset does. */
  lemma AdmissionExact(col: seq<Fid>, off: nat, holes: seq<Hole>, dem: map<Fid, nat>, arr: Arrival)
    requires StageOk(col, off, dem) && HolesOk(col, off, holes) && ArrivalOk(dem, arr) && arr.Arrives?
    requires Admits(|col|, off, holes, dem, arr.demand)
    ensures Placeable(col, off, dem, arr) <==>
              || arr.demand == 1
              || arr.demand + |Elastic(dem)| <= |col| - off
              || exists a: int, l: int :: ClosedRun(col, off, a, l) && arr.demand <= l
  {
    ElasticAdmit(dem, arr);
    if Inelastic(arr) {
      RescanFits(col, off, arr.demand);
    }
  }

  // ---- departures -----------------------------------------------------------------------

  function Without(dem: map<Fid, nat>, f: Fid): map<Fid, nat> { dem - {f} }

  ghost predicate Cleared(col: seq<Fid>, col': seq<Fid>, f: Fid)
  {
    |col'| == |col| && forall j | 0 <= j < |col| :: col'[j] == if col[j] == f then 0 else col[j]
  }

  /** Tenant f leaves the stage: its blocks are freed; if it was inelastic, the offset drops to its
      first block when it sat right below the offset, and otherwise its run is appended to the
      fragmentation list. */
  ghost predicate StageDepart(col: seq<Fid>, off: nat, holes: seq<Hole>, dem: map<Fid, nat>, f: Fid,
                              col': seq<Fid>, off': nat, holes': seq<Hole>)
    requires f in dem
  {
    && Cleared(col, col', f)
    && if dem[f] == 1 then off' == off && holes' == holes else
         exists start: nat, len: nat :: IsRun(col, f, start, len)
           && if start + len == off then off' == off - len && holes' == holes
              else off' == off && holes' == holes + [Hole(start, len)]
  }

  lemma DepartColumn(col: seq<Fid>, dem: map<Fid, nat>, f: Fid, col': seq<Fid>)
    requires ColumnOk(col, dem) && f in dem && Cleared(col, col', f)
    ensures ColumnOk(col', Without(dem, f))
    ensures forall g | g != f && g in dem :: SameBlocks(col, col', g)
  {
    var dem' := Without(dem, f);
    forall g | g in dem' ensures Hosted(col', g, dem'[g]) {
      var start: nat, len: nat :| IsRun(col, g, start, len) && (dem[g] > 1 ==> len == dem[g]);
      assert IsRun(col', g, start, len);
    }
  }

  lemma DepartHoles(col: seq<Fid>, off: nat, holes: seq<Hole>, dem: map<Fid, nat>, f: Fid,
                    col': seq<Fid>, off': nat, holes': seq<Hole>, start: nat, len: nat)
    requires StageOk(col, off, dem) && HolesOk(col, off, holes) && f in dem && dem[f] > 1
    requires Cleared(col, col', f) && IsRun(col, f, start, len)
    requires if start + len == off then off' == off - len && holes' == holes
             else off' == off && holes' == holes + [Hole(start, len)]
    ensures start + len <= off && off' <= off && HolesOk(col', off', holes')
    ensures forall j | off' <= j < off :: col[j] == f
  {
    assert col[start + len - 1] == f;
    DepartedHoles(col, off, holes, f, col', off');
    if start + len != off {
      forall h | h in holes ensures Apart(h, Hole(start, len)) {
        assert HoleOk(col, off, h);
        var j := if h.start <= start then start else h.start;
        assert 0 <= j < |col| && start <= j < start + len ==> col[j] == f;
      }
    }
  }

  lemma StageDepartOk(col: seq<Fid>, off: nat, holes: seq<Hole>, dem: map<Fid, nat>, f: Fid,
                      col': seq<Fid>, off': nat, holes': seq<Hole>)
    requires StageOk(col, off, dem) && HolesOk(col, off, holes) && f in dem
    requires StageDepart(col, off, holes, dem, f, col', off', holes')
    ensures StageOk(col', off', Without(dem, f)) && HolesOk(col', off', holes')
    ensures forall g | g != f && g in dem :: SameBlocks(col, col', g)
  {
    DepartColumn(col, dem, f, col');
    assert Elastic(Without(dem, f)) == Elastic(dem) - {f};
    if dem[f] == 1 {
      DepartedHoles(col, off, holes, f, col', off);
    } else {
      var start: nat, len: nat :| IsRun(col, f, start, len)
           && if start + len == off then off' == off - len && holes' == holes
              else off' == off && holes' == holes + [Hole(start, len)];
      DepartHoles(col, off, holes, dem, f, col', off', holes', start, len);
    }
  }

  /** A departure keeps the listed holes, in their order, and adds exactly the run of an inelastic program
      that leaves a gap below the offset. */
  lemma DepartHolesKept(col: seq<Fid>, off: nat, holes: seq<Hole>, dem: map<Fid, nat>, f: Fid,
                        col': seq<Fid>, off': nat, holes': seq<Hole>, j: int)
    requires StageOk(col, off, dem) && f in dem
    requires StageDepart(col, off, holes, dem, f, col', off', holes')
    ensures holes <= holes'
    ensures InHole(holes', j) <==> InHole(holes, j) || (dem[f] > 1 && off' == off && 0 <= j < |col| && col[j] == f)
    ensures off' < off <==> dem[f] > 1 && off > 0 && col[off - 1] == f
  {
    if dem[f] > 1 {
      var start: nat, len: nat :| IsRun(col, f, start, len)
           && if start + len == off then off' == off - len && holes' == holes
              else off' == off && holes' == holes + [Hole(start, len)];
      assert col[start + len - 1] == f && start + len <= off;
      if off' == off {
        InHoleAppend(holes, Hole(start, len), j);
      }
    } else {
      assert off > 0 ==> col[off - 1] != f;
    }
  }

  lemma InHoleAppend(holes: seq<Hole>, h: Hole, j: int)
    ensures InHole(holes + [h], j) <==> InHole(holes, j) || Contains(h, j)
  {
    var r := holes + [h];
    if k :| 0 <= k < |holes| && Contains(holes[k], j) {
      assert r[k] == holes[k];
    }
    assert r[|holes|] == h;
  }

  lemma DepartedHoles(col: seq<Fid>, off: nat, holes: seq<Hole>, f: Fid, col': seq<Fid>, off': nat)
    requires off' <= off <= |col| && HolesOk(col, off, holes) && f != 0 && Cleared(col, col', f)
    requires forall j | off' <= j < off :: col[j] == f
    ensures HolesOk(col', off', holes)
  {
    forall h | h in holes ensures HoleOk(col', off', h) {
      assert HoleOk(col, off, h);
      assert h.len > 0 ==> col[h.start + h.len - 1] == 0;
    }
  }
}
