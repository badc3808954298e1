/** The two cost functions that rank candidate placements, and the guards they put on a stage. */
module Costs {
  import opened Columns
  import opened Holes
  import opened Layout
  import opened Ordered
  import opened Sharing

  ghost function SumOver(dem: map<Fid, nat>, s: set<Fid>): nat
    requires s <= dem.Keys
  {
    if s == {} then 0 else
      var f :| f in s;
      dem[f] + SumOver(dem, s - {f})
  }

  lemma {:induction false} SumOverAny(dem: map<Fid, nat>, s: set<Fid>, f: Fid)
    requires s <= dem.Keys && f in s
    ensures SumOver(dem, s) == dem[f] + SumOver(dem, s - {f})
    decreases s
  {
    var g :| g in s && SumOver(dem, s) == dem[g] + SumOver(dem, s - {g});
    if g != f {
      SumOverAny(dem, s - {g}, f);
      SumOverAny(dem, s - {f}, g);
      assert s - {g} - {f} == s - {f} - {g};
    }
  }

  ghost function Occupied(dem: map<Fid, nat>): nat { SumOver(dem, dem.Keys) }

  ghost function InelasticTenants(dem: map<Fid, nat>): set<Fid>
  {
    set f | f in dem && dem[f] > 1
  }

  /** Blocks held by the stage's inelastic tenants. */
  ghost function InelasticRegion(dem: map<Fid, nat>): nat { SumOver(dem, InelasticTenants(dem)) }

  lemma {:induction false} SumOverSubset(dem: map<Fid, nat>, s: set<Fid>, t: set<Fid>)
    requires s <= t <= dem.Keys
    ensures SumOver(dem, s) <= SumOver(dem, t)
    decreases s
  {
    if s != {} {
      var f :| f in s;
      SumOverAny(dem, s, f);
      SumOverAny(dem, t, f);
      SumOverSubset(dem, s - {f}, t - {f});
    }
  }

  /** The stage passes the guards of both cost functions for a demand. */
  ghost predicate Feasible(n: nat, off: nat, holes: seq<Hole>, dem: map<Fid, nat>, demand: nat)
  {
    Occupied(dem) + demand <= n && Admits(n, off, holes, dem, demand)
  }

  /** Fit cost of a feasible stage: the elastic tenancy weighted by how much of the column is elastic,
      or the blocks taken up by minimum demands. */
  ghost function FitCost(n: nat, off: nat, dem: map<Fid, nat>, demand: nat): real
  {
    if demand == 1 && off < n then |Elastic(dem)| as real * (n as real / (n - off) as real)
    else (Occupied(dem) + demand) as real
  }

  /** Move cost of a feasible stage: the elastic tenants whose blocks are expected to change. */
  ghost function MovingCost(n: nat, dem: map<Fid, nat>, demand: nat): int
    requires InelasticRegion(dem) <= n
  {
    if demand == 1 && |Elastic(dem)| > 0 then MoveCost(n - InelasticRegion(dem), |Elastic(dem)| + 1)
    else |Elastic(dem)|
  }

  lemma FitCostNonNegative(n: nat, off: nat, dem: map<Fid, nat>, demand: nat)
    ensures FitCost(n, off, dem, demand) >= 0.0
  {
    if demand == 1 && off < n {
      var e, q := |Elastic(dem)| as real, n as real / (n - off) as real;
      assert e >= 0.0 && q >= 0.0;
      assert e * q >= 0.0;
    }
  }

  lemma MovingCostNonNegative(n: nat, dem: map<Fid, nat>, demand: nat)
    requires InelasticRegion(dem) <= n
    ensures MovingCost(n, dem, demand) >= 0
  {
  }

  lemma TallyElastic(dem: map<Fid, nat>, seen: set<Fid>, f: Fid)
    requires f in dem && f !in seen && seen <= dem.Keys
    ensures |Elastic(dem) * (seen + {f})| == |Elastic(dem) * seen| + if dem[f] == 1 then 1 else 0
  {
    if dem[f] == 1 {
      assert Elastic(dem) * (seen + {f}) == Elastic(dem) * seen + {f};
    } else {
      assert Elastic(dem) * (seen + {f}) == Elastic(dem) * seen;
    }
  }

  lemma TallyInelastic(dem: map<Fid, nat>, seen: set<Fid>, f: Fid)
    requires f in dem && f !in seen && seen <= dem.Keys
    ensures SumOver(dem, InelasticTenants(dem) * (seen + {f}))
         == SumOver(dem, InelasticTenants(dem) * seen) + if dem[f] > 1 then dem[f] else 0
  {
    var s, s' := InelasticTenants(dem) * seen, InelasticTenants(dem) * (seen + {f});
    if dem[f] > 1 {
      assert s' - {f} == s;
      SumOverAny(dem, s', f);
    } else {
      assert s' == s;
    }
  }

  lemma TallyOccupied(dem: map<Fid, nat>, seen: set<Fid>, f: Fid)
    requires f in dem && f !in seen && seen <= dem.Keys
    ensures SumOver(dem, seen + {f}) == SumOver(dem, seen) + dem[f]
  {
    SumOverAny(dem, seen + {f}, f);
    assert seen + {f} - {f} == seen;
  }

  /** The three sums over the tenants seen so far. */
  ghost predicate Tally(dem: map<Fid, nat>, seen: set<Fid>, occupied: nat, elastic: nat, inelastic: nat)
  {
    && seen <= dem.Keys
    && occupied == SumOver(dem, seen)
    && elastic == |Elastic(dem) * seen|
    && inelastic == SumOver(dem, InelasticTenants(dem) * seen)
  }

  lemma TallyStep(dem: map<Fid, nat>, seen: set<Fid>, occupied: nat, elastic: nat, inelastic: nat, f: Fid)
    requires Tally(dem, seen, occupied, elastic, inelastic) && f in dem && f !in seen
    ensures Tally(dem, seen + {f}, occupied + dem[f], if dem[f] == 1 then elastic + 1 else elastic,
                  if dem[f] > 1 then inelastic + dem[f] else inelastic)
  {
    TallyElastic(dem, seen, f);
    TallyInelastic(dem, seen, f);
    TallyOccupied(dem, seen, f);
  }

  lemma TallyDone(dem: map<Fid, nat>, occupied: nat, elastic: nat, inelastic: nat)
    requires Tally(dem, dem.Keys, occupied, elastic, inelastic)
    ensures occupied == Occupied(dem) && elastic == |Elastic(dem)| && inelastic == InelasticRegion(dem)
  {
    assert Elastic(dem) * dem.Keys == Elastic(dem);
    assert InelasticTenants(dem) * dem.Keys == InelasticTenants(dem);
  }

  /** What the tenants of a stage add up to: their demands, the number of elastic ones, and the demands
      of the inelastic ones. */
  method TallyTenants(dem: map<Fid, nat>) returns (occupied: nat, elastic: nat, inelastic: nat)
    ensures occupied == Occupied(dem) && elastic == |Elastic(dem)| && inelastic == InelasticRegion(dem)
  {
    occupied, elastic, inelastic := 0, 0, 0;
    var rest := dem.Keys;
    ghost var seen := {};
    while rest != {}
      invariant rest + seen == dem.Keys && rest !! seen
      invariant Tally(dem, seen, occupied, elastic, inelastic)
      decreases rest
    {
      var f :| f in rest;
      TallyStep(dem, seen, occupied, elastic, inelastic, f);
      occupied := occupied + dem[f];
      elastic := if dem[f] == 1 then elastic + 1 else elastic;
      inelastic := if dem[f] > 1 then inelastic + dem[f] else inelastic;
      seen := seen + {f};
      rest := rest - {f};
    }
    assert seen == dem.Keys;
    TallyDone(dem, occupied, elastic, inelastic);
  }

  /** One stage of getCostFit: its cost, or -1 when the program does not fit. */
  method StageCostFit(n: nat, off: nat, holes: seq<Hole>, dem: map<Fid, nat>, demand: nat) returns (cost: real)
    requires off + |Elastic(dem)| <= n && 1 <= demand
    ensures cost == if Feasible(n, off, holes, dem, demand) then FitCost(n, off, dem, demand) else -1.0
  {
    var occupied, elastic, _ := TallyTenants(dem);
    var total := occupied + demand;
    if total > n {
      return -1.0;
    }
    if demand == 1 {
      var region := n - off;
      if elastic + 1 > region {
        return -1.0;
      }
      cost := elastic as real * (n as real * 1.0 / region as real);
    } else {
      var largest := n - off;
      if |holes| > 0 && holes[0].len > largest {
        largest := holes[0].len;
      } else if largest - demand < elastic {
        return -1.0;
      }
      if largest < demand {
        return -1.0;
      }
      cost := total as real;
    }
    assert n - off >= elastic;
  }

  /** One stage of getCostMoving: its cost, or -1 when the program does not fit. */
  method StageCostMoving(n: nat, off: nat, holes: seq<Hole>, dem: map<Fid, nat>, demand: nat) returns (cost: int)
    requires off + |Elastic(dem)| <= n && 1 <= demand
    ensures Feasible(n, off, holes, dem, demand) ==> InelasticRegion(dem) <= n && cost == MovingCost(n, dem, demand)
    ensures !Feasible(n, off, holes, dem, demand) ==> cost == -1
  {
    var occupied, elastic, inelastic := TallyTenants(dem);
    if occupied + demand > n {
      return -1;
    }
    if demand == 1 {
      if elastic + 1 > n - off {
        return -1;
      }
    } else {
      var largest := n - off;
      if |holes| > 0 && holes[0].len > largest {
        largest := holes[0].len;
      } else if largest - demand < elastic {
        return -1;
      }
      if largest < demand {
        return -1;
      }
    }
    SumOverSubset(dem, InelasticTenants(dem), dem.Keys);
    var region := n - inelastic;
    if demand == 1 && elastic > 0 {
      var x := elastic + 1;
      cost := if region / x < region / (x - 1) then x - 1 else x - region % x - 1;
    } else {
      cost := elastic;
    }
  }

  // ---- what the move cost counts --------------------------------------------------------

  /** The elastic tenants of a stage whose blocks differ between two layouts of it. */
  ghost function MovedTenants(col: seq<Fid>, col': seq<Fid>, dem: map<Fid, nat>): set<Fid>
    requires |col| == |col'|
  {
    set f | f in Elastic(dem) && !SameBlocks(col, col', f)
  }

  /** Distinct list entries at the indices in s make up t. */
  lemma {:induction false} ImageSize(fids: seq<nat>, s: set<nat>, t: set<nat>)
    requires Ascending(fids) && forall k | k in s :: k < |fids| && fids[k] in t
    requires forall f | f in t :: exists k :: k in s && fids[k] == f
    ensures |s| == |t|
    decreases s
  {
    if k :| k in s {
      forall f | f in t - {fids[k]} ensures exists l :: l in s - {k} && fids[l] == f {
        var l :| l in s && fids[l] == f;
        assert l in s - {k};
      }
      forall l | l in s - {k} ensures fids[l] in t - {fids[k]} {
        assert l < k || k < l;
      }
      ImageSize(fids, s - {k}, t - {fids[k]});
    } else {
      assert t == {};
    }
  }

  lemma SameRun(col: seq<Fid>, col': seq<Fid>, f: Fid, a: nat, l: nat, a': nat, l': nat)
    requires |col| == |col'| && IsRun(col, f, a, l) && IsRun(col', f, a', l')
    ensures SameBlocks(col, col', f) <==> a == a' && l == l'
  {
    if SameBlocks(col, col', f) {
      assert col[a] == f && col'[a'] == f && col[a + l - 1] == f && col'[a' + l' - 1] == f;
    }
  }

  /** Tenant k keeps its blocks exactly if the (x-1)-way and the x-way division give it the same
      interval. */
  lemma TileKept(col: seq<Fid>, col': seq<Fid>, off: nat, fids: seq<Fid>, fids': seq<Fid>, k: nat)
    requires |col| == |col'| && k < |fids| && |fids'| == |fids| + 1 <= |col| - off
    requires Tiled(col, off, fids) && Tiled(col', off, fids') && fids'[k] == fids[k]
    requires Ascending(fids) && Ascending(fids')
    requires forall j | 0 <= j < off :: col[j] != fids[k]
    requires forall j | 0 <= j < off :: col'[j] != fids[k]
    ensures SameBlocks(col, col', fids[k]) <==> KeepsInterval(|col| - off, |fids'|, k)
  {
    var r, x := |col| - off, |fids'|;
    TileIsRun(col, off, fids, k);
    TileIsRun(col', off, fids', k);
    SameRun(col, col', fids[k], off + ShareStart(r, x - 1, k), Share(r, x - 1, k), off + ShareStart(r, x, k), Share(r, x, k));
  }

  lemma MovedImage(col: seq<Fid>, col': seq<Fid>, dem: map<Fid, nat>, moved: set<nat>)
    requires |col| == |col'|
    requires forall k: nat :: k in moved <==> k < |Elastic(dem)| && !SameBlocks(col, col', Sorted(Elastic(dem))[k])
    ensures |MovedTenants(col, col', dem)| == |moved|
  {
    var fids, t := Sorted(Elastic(dem)), MovedTenants(col, col', dem);
    forall k | k in moved ensures fids[k] in t {
      assert fids[k] in Elastic(dem);
    }
    forall f | f in t ensures exists k :: k in moved && fids[k] == f {
      assert f in fids;
      var k :| 0 <= k < |fids| && fids[k] == f;
      assert k in moved;
    }
    ImageSize(fids, moved, t);
  }

  lemma ElasticAbove(col: seq<Fid>, off: nat, dem: map<Fid, nat>, f: Fid)
    requires StageOk(col, off, dem) && f in Elastic(dem)
    ensures forall j | 0 <= j < off :: col[j] != f
  {
  }

  /** An elastic arrival leaves the offset where it is. */
  lemma ElasticStep(col: seq<Fid>, off: nat, dem: map<Fid, nat>, arr: Arrival,
                    col': seq<Fid>, off': nat, holes': seq<Hole>)
    requires arr.Arrives? && arr.demand == 1
    requires StageStep(col, off, dem, arr, col', off', holes')
    ensures |col'| == |col| && off' == off && Tiled(col', off, Sorted(Elastic(Admit(dem, arr))))
  {
  }

  lemma TenantKept(col: seq<Fid>, col': seq<Fid>, off: nat, dem: map<Fid, nat>, dem': map<Fid, nat>, k: nat)
    requires StageOk(col, off, dem) && StageOk(col', off, dem') && |col| == |col'|
    requires Tiled(col, off, Sorted(Elastic(dem))) && Tiled(col', off, Sorted(Elastic(dem')))
    requires k < |Elastic(dem)| && |Elastic(dem')| == |Elastic(dem)| + 1
    requires Sorted(Elastic(dem'))[k] == Sorted(Elastic(dem))[k]
    ensures SameBlocks(col, col', Sorted(Elastic(dem))[k]) <==> KeepsInterval(|col| - off, |Elastic(dem')|, k)
  {
    var fids, fids' := Sorted(Elastic(dem)), Sorted(Elastic(dem'));
    assert fids[k] in Elastic(dem) && fids'[k] in Elastic(dem');
    ElasticAbove(col, off, dem, fids[k]);
    ElasticAbove(col', off, dem', fids[k]);
    TileKept(col, col', off, fids, fids', k);
  }

  lemma WithinColumn(col: seq<Fid>, off: nat, dem: map<Fid, nat>)
    requires StageOk(col, off, dem)
    ensures off <= |col|
  {
  }

  lemma MovedIndices(col: seq<Fid>, col': seq<Fid>, off: nat, dem: map<Fid, nat>, dem': map<Fid, nat>, r: nat, x: nat)
    requires StageOk(col, off, dem) && StageOk(col', off, dem') && |col| == |col'|
    requires Tiled(col, off, Sorted(Elastic(dem))) && Tiled(col', off, Sorted(Elastic(dem')))
    requires |Elastic(dem')| == |Elastic(dem)| + 1 >= 2 && Sorted(Elastic(dem)) <= Sorted(Elastic(dem'))
    requires r == |col| - off && x == |Elastic(dem')|
    ensures forall k: nat :: k in Moved(r, x) <==> k < |Elastic(dem)| && !SameBlocks(col, col', Sorted(Elastic(dem))[k])
  {
    hide StageOk, Tiled, Elastic, SameBlocks, KeepsInterval;
    WithinColumn(col, off, dem);
    forall k: nat | k < |Elastic(dem)|
      ensures SameBlocks(col, col', Sorted(Elastic(dem))[k]) <==> KeepsInterval(r, x, k)
    {
      TenantKept(col, col', off, dem, dem', k);
    }
  }

  /** When an elastic program with the largest FID arrives in a stage whose elastic tenants were laid
      out by the filling, the tenants whose blocks change are those whose interval differs between
      the two divisions. */
  lemma ArrivalMoves(col: seq<Fid>, off: nat, dem: map<Fid, nat>, arr: Arrival,
                     col': seq<Fid>, off': nat, holes': seq<Hole>, r: nat, x: nat)
    requires StageOk(col, off, dem) && ArrivalOk(dem, arr) && arr.Arrives? && arr.demand == 1
    requires Tiled(col, off, Sorted(Elastic(dem)))
    requires Elastic(dem) != {} && forall f | f in Elastic(dem) :: f < arr.fid
    requires Placeable(col, off, dem, arr) && StageStep(col, off, dem, arr, col', off', holes')
    requires r == |col| - off && x == |Elastic(dem)| + 1 >= 2
    ensures forall k | 0 <= k < |Elastic(dem)| :: Sorted(Elastic(dem))[k] in MovedTenants(col, col', dem) <==> k in Moved(r, x)
    ensures |MovedTenants(col, col', dem)| == |Moved(r, x)|
  {
    hide StageOk, StageStep, Tiled, MovedTenants, Moved, Elastic, Placeable, ArrivalOk;
    var dem' := Admit(dem, arr);
    ElasticStep(col, off, dem, arr, col', off', holes');
    assert |Elastic(dem')| == |Elastic(dem)| + 1 && Sorted(Elastic(dem)) <= Sorted(Elastic(dem')) by {
      ElasticAdmit(dem, arr);
      SortedAppend(Elastic(dem), arr.fid);
    }
    assert StageOk(col', off, dem') by {
      StageStepOk(col, off, dem, arr, col', off', holes');
    }
    MovedCount(col, col', off, dem, dem', r, x);
  }

  lemma MovedTenant(col: seq<Fid>, col': seq<Fid>, dem: map<Fid, nat>, k: nat)
    requires |col| == |col'| && k < |Elastic(dem)|
    ensures var f := Sorted(Elastic(dem))[k]; f in MovedTenants(col, col', dem) <==> !SameBlocks(col, col', f)
  {
    assert Sorted(Elastic(dem))[k] in Sorted(Elastic(dem));
  }

  lemma MovedCount(col: seq<Fid>, col': seq<Fid>, off: nat, dem: map<Fid, nat>, dem': map<Fid, nat>, r: nat, x: nat)
    requires StageOk(col, off, dem) && StageOk(col', off, dem') && |col| == |col'|
    requires Tiled(col, off, Sorted(Elastic(dem))) && Tiled(col', off, Sorted(Elastic(dem')))
    requires |Elastic(dem')| == |Elastic(dem)| + 1 >= 2 && Sorted(Elastic(dem)) <= Sorted(Elastic(dem'))
    requires r == |col| - off && x == |Elastic(dem')|
    ensures forall k | 0 <= k < |Elastic(dem)| :: Sorted(Elastic(dem))[k] in MovedTenants(col, col', dem) <==> k in Moved(r, x)
    ensures |MovedTenants(col, col', dem)| == |Moved(r, x)|
  {
    hide Tiled, ColumnOk, Elastic, SameBlocks, Moved, MovedTenants;
    MovedIndices(col, col', off, dem, dem', r, x);
    MovedImage(col, col', dem, Moved(r, x));
    forall k | 0 <= k < |Elastic(dem)|
      ensures Sorted(Elastic(dem))[k] in MovedTenants(col, col', dem) <==> k in Moved(r, x)
    {
      MovedTenant(col, col', dem, k);
    }
  }

  // ---- what the formula reads -----------------------------------------------------------

  ghost function HeldBy(col: seq<Fid>, s: set<Fid>): set<nat>
  {
    set j: nat | j < |col| && col[j] in s
  }

  lemma RunSize(col: seq<Fid>, f: Fid, start: nat, len: nat)
    requires IsRun(col, f, start, len)
    ensures |BlocksOf(col, f)| == len
  {
    assert BlocksOf(col, f) == Upto(start, start + len);
  }

  lemma {:induction false} HeldSize(col: seq<Fid>, dem: map<Fid, nat>, s: set<Fid>)
    requires ColumnOk(col, dem) && s <= InelasticTenants(dem)
    ensures |HeldBy(col, s)| == SumOver(dem, s)
    decreases s
  {
    if f :| f in s {
      HeldSize(col, dem, s - {f});
      SumOverAny(dem, s, f);
      assert Hosted(col, f, dem[f]);
      var start: nat, len: nat :| IsRun(col, f, start, len) && len == dem[f];
      RunSize(col, f, start, len);
      assert HeldBy(col, s) == HeldBy(col, s - {f}) + BlocksOf(col, f);
    } else {
      assert HeldBy(col, s) == {};
    }
  }

  /** The inelastic demands add up to the occupied blocks below the offset: to the offset itself exactly
      if no block below it is free. */
  lemma InelasticRegionIs(col: seq<Fid>, off: nat, dem: map<Fid, nat>)
    requires StageOk(col, off, dem)
    ensures InelasticRegion(dem) == |set j: nat | j < off && col[j] != 0| <= off
    ensures InelasticRegion(dem) == off <==> NoHoleBefore(col, off)
  {
    var held := set j: nat | j < off && col[j] != 0;
    var below := Upto(0, off);
    HeldSize(col, dem, InelasticTenants(dem));
    assert held == HeldBy(col, InelasticTenants(dem));
    assert held <= below;
    SubsetSize(held, below);
    assert held == below <==> NoHoleBefore(col, off) by {
      if NoHoleBefore(col, off) {
        assert held == below;
      } else {
        var j :| 0 <= j < off && col[j] == 0;
        assert j in below && j !in held;
      }
    }
  }

  lemma SubsetSize(s: set<nat>, t: set<nat>)
    requires s <= t
    ensures |s| <= |t| && (|s| == |t| <==> s == t)
  {
    assert t == s + (t - s);
  }

  /** The elastic tenants that already hold the blocks an elastic arrival of `fid` leaves them. */
  ghost function InPlace(col: seq<Fid>, off: nat, dem: map<Fid, nat>, fid: Fid): set<Fid>
    requires off <= |col|
  {
    set f | f in Elastic(dem) && OnTile(col, off, Sorted(Elastic(dem) + {fid}), f)
  }

  ghost predicate OnTile(col: seq<Fid>, off: nat, fids: seq<Fid>, f: Fid)
    requires off <= |col|
  {
    exists k :: 0 <= k < |fids| && fids[k] == f
      && IsRun(col, f, off + ShareStart(|col| - off, |fids|, k), Share(|col| - off, |fids|, k))
  }

  lemma IndexUnique(fids: seq<nat>, i: nat, k: nat)
    requires Ascending(fids) && i < |fids| && k < |fids| && fids[i] == fids[k]
    ensures i == k
  {
  }

  lemma SameAsRun(col: seq<Fid>, col': seq<Fid>, f: Fid, a: nat, l: nat)
    requires |col| == |col'| && IsRun(col', f, a, l)
    ensures SameBlocks(col, col', f) <==> IsRun(col, f, a, l)
  {
  }

  lemma OnTileAt(col: seq<Fid>, off: nat, fids: seq<Fid>, k: nat)
    requires off <= |col| && Ascending(fids) && k < |fids|
    ensures OnTile(col, off, fids, fids[k]) <==>
              IsRun(col, fids[k], off + ShareStart(|col| - off, |fids|, k), Share(|col| - off, |fids|, k))
  {
    hide IsRun, Share, ShareStart;
    if OnTile(col, off, fids, fids[k]) {
      var i :| 0 <= i < |fids| && fids[i] == fids[k]
        && IsRun(col, fids[k], off + ShareStart(|col| - off, |fids|, i), Share(|col| - off, |fids|, i));
      IndexUnique(fids, i, k);
    }
  }

  lemma KeptIsOnTile(col: seq<Fid>, off: nat, dem: map<Fid, nat>, dem': map<Fid, nat>, col': seq<Fid>, f: Fid)
    requires StageOk(col, off, dem) && StageOk(col', off, dem') && |col| == |col'|
    requires Tiled(col', off, Sorted(Elastic(dem'))) && f in Elastic(dem) && f in Elastic(dem')
    ensures SameBlocks(col, col', f) <==> OnTile(col, off, Sorted(Elastic(dem')), f)
  {
    hide OnTile, SameBlocks, IsRun, Tiled, Share, ShareStart, ColumnOk;
    var fids := Sorted(Elastic(dem'));
    assert f in fids;
    var k :| 0 <= k < |fids| && fids[k] == f;
    ElasticAbove(col', off, dem', f);
    TileIsRun(col', off, fids, k);
    SameAsRun(col, col', f, off + ShareStart(|col| - off, |fids|, k), Share(|col| - off, |fids|, k));
    OnTileAt(col, off, fids, k);
  }

  /** Whatever the elastic region looks like before an elastic arrival, the tenants whose blocks change
      are all but those that already hold what the new division gives them. */
  lemma ArrivalMovesRest(col: seq<Fid>, off: nat, dem: map<Fid, nat>, arr: Arrival,
                         col': seq<Fid>, off': nat, holes': seq<Hole>)
    requires StageOk(col, off, dem) && ArrivalOk(dem, arr) && arr.Arrives? && arr.demand == 1
    requires Placeable(col, off, dem, arr) && StageStep(col, off, dem, arr, col', off', holes')
    ensures MovedTenants(col, col', dem) == Elastic(dem) - InPlace(col, off, dem, arr.fid)
    ensures |MovedTenants(col, col', dem)| == |Elastic(dem)| - |InPlace(col, off, dem, arr.fid)|
  {
    hide StageOk, StageStep, OnTile, SameBlocks, Tiled, Placeable;
    var dem' := Admit(dem, arr);
    ElasticStep(col, off, dem, arr, col', off', holes');
    ElasticAdmit(dem, arr);
    StageStepOk(col, off, dem, arr, col', off', holes');
    forall f | f in Elastic(dem)
      ensures SameBlocks(col, col', f) <==> OnTile(col, off, Sorted(Elastic(dem')), f)
    {
      KeptIsOnTile(col, off, dem, dem', col', f);
    }
    Remainder(col, off, dem, arr.fid, col', Sorted(Elastic(dem')));
  }

  lemma Remainder(col: seq<Fid>, off: nat, dem: map<Fid, nat>, fid: Fid, col': seq<Fid>, fids: seq<Fid>)
    requires off <= |col| == |col'| && fids == Sorted(Elastic(dem) + {fid})
    requires forall f | f in Elastic(dem) :: SameBlocks(col, col', f) <==> OnTile(col, off, fids, f)
    ensures MovedTenants(col, col', dem) == Elastic(dem) - InPlace(col, off, dem, fid)
    ensures |MovedTenants(col, col', dem)| == |Elastic(dem)| - |InPlace(col, off, dem, fid)|
  {
    hide SameBlocks, OnTile, Elastic;
    var stay := InPlace(col, off, dem, fid);
    assert Elastic(dem) == MovedTenants(col, col', dem) + stay;
  }

  /** What the move cost of an elastic arrival says, in any stage that has an elastic tenant and takes
      the arrival. It covers the tenants whose blocks change exactly if the formula spares no more of
      them than already hold the blocks they will be given, and counts them exactly if it spares as
      many. */
  lemma MovingCostCounts(col: seq<Fid>, off: nat, dem: map<Fid, nat>, arr: Arrival,
                         col': seq<Fid>, off': nat, holes': seq<Hole>)
    requires StageOk(col, off, dem) && ArrivalOk(dem, arr) && arr.Arrives? && arr.demand == 1
    requires Elastic(dem) != {}
    requires Placeable(col, off, dem, arr) && StageStep(col, off, dem, arr, col', off', holes')
    ensures InelasticRegion(dem) <= off
    ensures |MovedTenants(col, col', dem)| <= MovingCost(|col|, dem, 1) <==>
              Spared(|col| - InelasticRegion(dem), |Elastic(dem)| + 1) <= |InPlace(col, off, dem, arr.fid)|
    ensures |MovedTenants(col, col', dem)| == MovingCost(|col|, dem, 1) <==>
              Spared(|col| - InelasticRegion(dem), |Elastic(dem)| + 1) == |InPlace(col, off, dem, arr.fid)|
  {
    hide StageStep, StageOk, Placeable, ArrivalOk, Elastic, MovingCost, Spared, MovedTenants, InPlace, InelasticRegion;
    ElasticStep(col, off, dem, arr, col', off', holes');
    ArrivalMovesRest(col, off, dem, arr, col', off', holes');
    InelasticRegionIs(col, off, dem);
    MovingCostSpares(|col|, dem);
  }

  lemma MovingCostSpares(n: nat, dem: map<Fid, nat>)
    requires InelasticRegion(dem) <= n && Elastic(dem) != {}
    ensures MovingCost(n, dem, 1) == |Elastic(dem)| - Spared(n - InelasticRegion(dem), |Elastic(dem)| + 1)
  {
  }

  /** The same in a stage the filling has laid out, for an arrival with the largest FID, in numbers:
      with n blocks outside the inelastic tenants, r above the offset and x tenants after the arrival,
      the cost covers the tenants that move exactly if n spares no more of them than stay. Without a
      hole below the offset it always does, and is exact unless the division is the pessimistic one. */
  lemma MovingCostTiled(col: seq<Fid>, off: nat, dem: map<Fid, nat>, arr: Arrival,
                        col': seq<Fid>, off': nat, holes': seq<Hole>, n: nat, r: nat, x: nat)
    requires StageOk(col, off, dem) && ArrivalOk(dem, arr) && arr.Arrives? && arr.demand == 1
    requires Tiled(col, off, Sorted(Elastic(dem)))
    requires Elastic(dem) != {} && forall f | f in Elastic(dem) :: f < arr.fid
    requires Placeable(col, off, dem, arr) && StageStep(col, off, dem, arr, col', off', holes')
    requires n == |col| - InelasticRegion(dem) && r == |col| - off && x == |Elastic(dem)| + 1
    ensures 2 <= x <= r <= n && (r == n <==> NoHoleBefore(col, off))
    ensures |InPlace(col, off, dem, arr.fid)| == Still(r, x)
    ensures |MovedTenants(col, col', dem)| <= MovingCost(|col|, dem, 1) <==> Spared(n, x) <= Still(r, x)
    ensures NoHoleBefore(col, off) ==> |MovedTenants(col, col', dem)| <= MovingCost(|col|, dem, 1)
    ensures NoHoleBefore(col, off) ==> (|MovedTenants(col, col', dem)| == MovingCost(|col|, dem, 1) <==> !Pessimistic(r, x))
  {
    hide StageOk, Tiled, StageStep, Placeable, ArrivalOk, Elastic, MovingCost, MoveCost, Moved, Still, Spared, MovedTenants, InPlace, Pessimistic, InelasticRegion;
    InelasticRegionIs(col, off, dem);
    PlaceableRegion(col, off, dem, arr);
    ElasticStep(col, off, dem, arr, col', off', holes');
    ArrivalMoves(col, off, dem, arr, col', off', holes', r, x);
    ArrivalMovesRest(col, off, dem, arr, col', off', holes');
    MovingCostIs(|col|, dem, n, x);
    assert r >= x;
    TiledNumbers(n, r, x, |MovedTenants(col, col', dem)|, MovingCost(|col|, dem, 1));
  }

  lemma PlaceableRegion(col: seq<Fid>, off: nat, dem: map<Fid, nat>, arr: Arrival)
    requires off <= |col| && ArrivalOk(dem, arr) && arr.Arrives? && arr.demand == 1 && Placeable(col, off, dem, arr)
    ensures |Elastic(dem)| + 1 <= |col| - off
  {
    ElasticAdmit(dem, arr);
  }

  lemma MovingCostIs(blocks: nat, dem: map<Fid, nat>, n: nat, x: nat)
    requires InelasticRegion(dem) <= blocks && n == blocks - InelasticRegion(dem) && 2 <= x == |Elastic(dem)| + 1
    ensures MovingCost(blocks, dem, 1) == MoveCost(n, x)
  {
  }

  lemma TiledNumbers(n: nat, r: nat, x: nat, moved: nat, cost: int)
    requires 2 <= x <= r <= n && moved == |Moved(r, x)| && cost == MoveCost(n, x)
    ensures moved == x - 1 - Still(r, x)
    ensures moved <= cost <==> Spared(n, x) <= Still(r, x)
    ensures r == n ==> moved <= cost && (moved == cost <==> !Pessimistic(r, x))
  {
    hide MoveCost, Moved, Still, Spared, Pessimistic;
    MovedFrom(r, x);
    MoveCostCovers(n, r, x);
    MoveCostBounds(r, x);
  }

  /** What the minimum demands claim: the inelastic demands, and a block for each elastic tenant. */
  lemma OccupiedIs(dem: map<Fid, nat>)
    requires forall f | f in dem :: 1 <= dem[f]
    ensures Occupied(dem) == InelasticRegion(dem) + |Elastic(dem)|
  {
    SumOverSplit(dem, InelasticTenants(dem), Elastic(dem));
    SumOverSingles(dem, Elastic(dem));
    assert dem.Keys == InelasticTenants(dem) + Elastic(dem);
  }

  lemma {:induction false} SumOverSplit(dem: map<Fid, nat>, s: set<Fid>, t: set<Fid>)
    requires s + t <= dem.Keys && s !! t
    ensures SumOver(dem, s + t) == SumOver(dem, s) + SumOver(dem, t)
    decreases s
  {
    if f :| f in s {
      SumOverAny(dem, s + t, f);
      SumOverAny(dem, s, f);
      assert s + t - {f} == (s - {f}) + t;
      SumOverSplit(dem, s - {f}, t);
    } else {
      assert s + t == t;
    }
  }

  // ---- two stages in which it does not --------------------------------------------------

  /** Tenants lo .. hi-1 and no other. */
  ghost predicate Consecutive(s: set<Fid>, lo: nat, hi: nat)
  {
    forall f: Fid :: f in s <==> lo <= f < hi
  }

  /** Blocks 0 and 1 are a hole below the inelastic program 2; five elastic ones share the rest. */
  ghost predicate HoledStage(col: seq<Fid>, dem: map<Fid, nat>)
  {
    && col == [0, 0, 2, 2, 3, 3, 4, 5, 6, 7]
    && Consecutive(dem.Keys, 2, 8)
    && forall f | f in dem :: dem[f] == if f == 2 then 2 else 1
  }

  /** Five elastic programs after a sixth, the first of them, has left. */
  ghost predicate DepartedStage(col: seq<Fid>, dem: map<Fid, nat>)
  {
    && col == [0, 0, 2, 3, 4, 5, 6]
    && Consecutive(dem.Keys, 2, 7)
    && forall f | f in dem :: dem[f] == 1
  }

  lemma {:induction false} SumOverSingles(dem: map<Fid, nat>, s: set<Fid>)
    requires s <= Elastic(dem)
    ensures SumOver(dem, s) == |s|
    decreases s
  {
    if f :| f in s {
      SumOverAny(dem, s, f);
      SumOverSingles(dem, s - {f});
    }
  }

  lemma {:induction false} SortedConsecutive(s: set<Fid>, lo: nat, hi: nat)
    requires lo <= hi && Consecutive(s, lo, hi)
    ensures |s| == hi - lo && forall k | 0 <= k < hi - lo :: Sorted(s)[k] == lo + k
  {
    assert s == Upto(lo, hi);
    var r := seq(hi - lo, k requires 0 <= k => lo + k);
    forall x ensures x in r <==> x in s {
      if x in s {
        assert r[x - lo] == x;
      }
    }
    ListsIsSorted(r, s);
  }

  lemma HoledHosted(col: seq<Fid>, dem: map<Fid, nat>, f: Fid)
    requires HoledStage(col, dem) && f in dem
    ensures Hosted(col, f, dem[f])
  {
    var start: nat, len: nat := if f <= 3 then 2 * f - 2 else f + 2, if f <= 3 then 2 else 1;
    assert IsRun(col, f, start, len);
  }

  lemma HoledStageOk(col: seq<Fid>, dem: map<Fid, nat>)
    requires HoledStage(col, dem)
    ensures StageOk(col, 4, dem) && NoTrailingHole(col, 4)
    ensures Consecutive(Elastic(dem), 3, 8)
  {
    hide Hosted;
    SortedConsecutive(Elastic(dem), 3, 8);
    forall f | f in dem ensures Hosted(col, f, dem[f]) {
      HoledHosted(col, dem, f);
    }
  }

  lemma HoledSums(col: seq<Fid>, dem: map<Fid, nat>)
    requires HoledStage(col, dem)
    ensures InelasticRegion(dem) == 2 && Occupied(dem) == 7
  {
    var elastic := dem.Keys - {2};
    assert InelasticTenants(dem) == {2};
    assert SumOver(dem, {2}) == 2 by {
      SumOverAny(dem, {2}, 2);
      assert {2} - {2} == {};
    }
    SumOverAny(dem, dem.Keys, 2);
    assert Consecutive(elastic, 3, 8);
    SortedConsecutive(elastic, 3, 8);
    SumOverSingles(dem, elastic);
  }

  lemma HoledTiled(col: seq<Fid>, fids: seq<Fid>)
    requires col == [0, 0, 2, 2, 3, 3, 4, 5, 6, 7] && |fids| == 5 && forall k | 0 <= k < 5 :: fids[k] == 3 + k
    ensures Tiled(col, 4, fids)
  {
    forall k | 0 <= k < 5 ensures TileOf(col, 4, fids, k) {
      ShareStartClosed(6, 5, k);
      ShareStartClosed(6, 5, k + 1);
    }
  }

  /** A hole below the offset makes the move cost too low: in this stage, which both cost functions
      accept for another elastic program, it is 3 and all five tenants move. */
  lemma HoleUndercounts(col: seq<Fid>, dem: map<Fid, nat>, arr: Arrival, col': seq<Fid>, off': nat, holes': seq<Hole>)
    requires HoledStage(col, dem) && arr == Arrives(8, 1) && StageStep(col, 4, dem, arr, col', off', holes')
    ensures StageOk(col, 4, dem) && NoTrailingHole(col, 4) && Feasible(10, 4, [Hole(0, 2)], dem, 1)
    ensures Placeable(col, 4, dem, arr)
    ensures InelasticRegion(dem) == 2 && MovingCost(10, dem, 1) == 3
    ensures |MovedTenants(col, col', dem)| == 5
  {
    hide StageOk, StageStep, MovedTenants, MovingCost, MoveCost, InelasticRegion, Occupied, Elastic;
    HoledStageOk(col, dem);
    HoledSums(col, dem);
    SortedConsecutive(Elastic(dem), 3, 8);
    ElasticStep(col, 4, dem, arr, col', off', holes');
    HoledArrival(col, dem, arr);
    HoledMoves(col, dem, arr, col', off', holes');
    MovingCostIs(10, dem, 8, 6);
    SmallCosts();
  }

  lemma HoledMoves(col: seq<Fid>, dem: map<Fid, nat>, arr: Arrival, col': seq<Fid>, off': nat, holes': seq<Hole>)
    requires HoledStage(col, dem) && arr == Arrives(8, 1) && StageStep(col, 4, dem, arr, col', off', holes')
    ensures |MovedTenants(col, col', dem)| == 5
  {
    hide StageOk, Tiled, StageStep, MovedTenants, Moved, Still, Elastic, ArrivalOk, Placeable;
    HoledStageOk(col, dem);
    SortedConsecutive(Elastic(dem), 3, 8);
    HoledTiled(col, Sorted(Elastic(dem)));
    HoledArrival(col, dem, arr);
    ElasticStep(col, 4, dem, arr, col', off', holes');
    ArrivalMoves(col, 4, dem, arr, col', off', holes', 6, 6);
    SmallCosts();
    MovedFrom(6, 6);
  }

  lemma HoledArrival(col: seq<Fid>, dem: map<Fid, nat>, arr: Arrival)
    requires HoledStage(col, dem) && arr == Arrives(8, 1) && |Elastic(dem)| == 5
    ensures ArrivalOk(dem, arr) && Placeable(col, 4, dem, arr) && forall f | f in Elastic(dem) :: f < 8
  {
    ElasticAdmit(dem, arr);
  }

  lemma SmallCosts()
    ensures MoveCost(8, 6) == 3 && MoveCost(7, 6) == 4 && Still(6, 6) == 0
  {
  }

  lemma DepartedTile(col: seq<Fid>, f: Fid)
    requires col == [0, 0, 2, 3, 4, 5, 6] && 2 <= f <= 6
    ensures !IsRun(col, f, ShareStart(7, 6, f - 2), Share(7, 6, f - 2))
  {
    hide IsRun;
    ShareStartClosed(7, 6, f - 2);
    RunStart(col, f, ShareStart(7, 6, f - 2), Share(7, 6, f - 2));
  }

  lemma RunStart(col: seq<Fid>, f: Fid, start: nat, len: nat)
    ensures IsRun(col, f, start, len) ==> start < |col| && col[start] == f
  {
  }

  lemma DepartedStageOk(col: seq<Fid>, dem: map<Fid, nat>)
    requires DepartedStage(col, dem)
    ensures StageOk(col, 0, dem)
    ensures Elastic(dem) == dem.Keys && InelasticTenants(dem) == {}
  {
    assert Elastic(dem) == dem.Keys;
    SortedConsecutive(dem.Keys, 2, 7);
    forall f | f in dem ensures Hosted(col, f, dem[f]) {
      assert IsRun(col, f, f, 1);
    }
  }

  /** The division puts each of the five on other blocks. */
  lemma DepartedInPlace(col: seq<Fid>, dem: map<Fid, nat>)
    requires DepartedStage(col, dem)
    ensures InPlace(col, 0, dem, 7) == {}
  {
    hide OnTile, Elastic;
    DepartedTenants(dem);
    forall f | f in Elastic(dem) ensures !OnTile(col, 0, Sorted(Elastic(dem) + {7}), f) {
      DepartedOff(col, Elastic(dem) + {7}, f);
    }
  }

  lemma DepartedTenants(dem: map<Fid, nat>)
    requires Consecutive(dem.Keys, 2, 7) && forall f | f in dem :: dem[f] == 1
    ensures Consecutive(Elastic(dem), 2, 7) && Consecutive(Elastic(dem) + {7}, 2, 8)
  {
  }

  lemma DepartedOff(col: seq<Fid>, s: set<Fid>, f: Fid)
    requires col == [0, 0, 2, 3, 4, 5, 6] && Consecutive(s, 2, 8) && 2 <= f <= 6
    ensures !OnTile(col, 0, Sorted(s), f)
  {
    hide OnTile, IsRun, Share, ShareStart, Consecutive;
    SortedConsecutive(s, 2, 8);
    OnTileAt(col, 0, Sorted(s), f - 2);
    DepartedTile(col, f);
  }

  lemma DepartedCost(dem: map<Fid, nat>)
    requires Elastic(dem) == dem.Keys && |dem.Keys| == 5 && InelasticTenants(dem) == {}
    ensures Feasible(7, 0, [], dem, 1) && InelasticRegion(dem) == 0 && MovingCost(7, dem, 1) == 4
  {
    hide MoveCost, MovingCost;
    SumOverSingles(dem, dem.Keys);
    MovingCostIs(7, dem, 7, 6);
    SmallCosts();
  }

  /** So does an elastic departure: in this stage the cost is 4 and all five tenants move. */
  lemma DepartureUndercounts(col: seq<Fid>, dem: map<Fid, nat>, arr: Arrival, col': seq<Fid>, off': nat, holes': seq<Hole>)
    requires DepartedStage(col, dem) && arr == Arrives(7, 1) && StageStep(col, 0, dem, arr, col', off', holes')
    ensures StageOk(col, 0, dem) && Feasible(7, 0, [], dem, 1) && Placeable(col, 0, dem, arr)
    ensures InelasticRegion(dem) == 0 && MovingCost(7, dem, 1) == 4
    ensures |MovedTenants(col, col', dem)| == 5
  {
    hide StageOk, StageStep, MovedTenants, MovingCost, MoveCost, InPlace, Elastic, InelasticTenants, Feasible, InelasticRegion;
    DepartedStageOk(col, dem);
    SortedConsecutive(dem.Keys, 2, 7);
    DepartedCost(dem);
    ElasticAdmit(dem, arr);
    ElasticStep(col, 0, dem, arr, col', off', holes');
    ArrivalMovesRest(col, 0, dem, arr, col', off', holes');
    DepartedInPlace(col, dem);
  }
}
