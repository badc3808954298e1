/** The loops of computeAllocationMatrix for one stage, on column i of the matrix being built. Each is
    proved against the relations of module Layout. */
module StageLayout {
  import opened Columns
  import opened Holes
  import opened Layout
  import opened Ordered
  import opened Sharing

  /** Column i of a block matrix. */
  function Column(m: array2<Fid>, i: nat): (c: seq<Fid>)
    requires i < m.Length1
    reads m
    ensures |c| == m.Length0 && forall j | 0 <= j < |c| :: c[j] == m[j, i]
  {
    seq(m.Length0, j requires 0 <= j < m.Length0 reads m => m[j, i])
  }

  /** Only column i of m changed. */
  twostate predicate OnlyColumn(m: array2<Fid>, i: nat)
    reads m
  {
    forall j, k | 0 <= j < m.Length0 && 0 <= k < m.Length1 && k != i :: m[j, k] == old(m[j, k])
  }

  /** The columns of a block matrix. */
  function MatrixColumns(m: array2<Fid>): (cols: seq<seq<Fid>>)
    reads m
    ensures |cols| == m.Length1 && forall i | 0 <= i < |cols| :: cols[i] == Column(m, i)
  {
    seq(m.Length1, i requires 0 <= i < m.Length1 reads m => Column(m, i))
  }

  lemma ColumnsAre(m: array2<Fid>, cols: seq<seq<Fid>>)
    requires |cols| == m.Length1 && forall k | 0 <= k < |cols| :: |cols[k]| == m.Length0
    requires forall j, k | 0 <= j < m.Length0 && 0 <= k < m.Length1 :: m[j, k] == cols[k][j]
    ensures MatrixColumns(m) == cols
  {
    forall k | 0 <= k < |cols| ensures Column(m, k) == cols[k] {}
  }

  /** A matrix that differs from the columns cols in column i only. */
  lemma ColumnReplaced(m: array2<Fid>, cols: seq<seq<Fid>>, i: nat)
    requires i < |cols| == m.Length1 && forall k | 0 <= k < |cols| :: |cols[k]| == m.Length0
    requires forall j, k | 0 <= j < m.Length0 && 0 <= k < m.Length1 && k != i :: m[j, k] == cols[k][j]
    ensures MatrixColumns(m) == cols[i := Column(m, i)]
  {
    ColumnsAre(m, cols[i := Column(m, i)]);
  }

  /** The tenants found in column i. */
  method CurrentTenants(m: array2<Fid>, i: nat) returns (tenants: set<Fid>)
    requires i < m.Length1
    ensures forall f :: f in tenants <==> f != 0 && f in Column(m, i)
  {
    tenants := {};
    var j := 0;
    while j < m.Length0
      invariant 0 <= j <= m.Length0
      invariant forall f :: f in tenants <==> f != 0 && f in Column(m, i)[..j]
    {
      assert Column(m, i)[..j + 1] == Column(m, i)[..j] + [m[j, i]];
      if m[j, i] != 0 {
        tenants := tenants + {m[j, i]};
      }
      j := j + 1;
    }
    assert Column(m, i)[..j] == Column(m, i);
  }

  /** Copies the blocks below the offset to the new matrix, listing the holes between them and
      collecting their tenants. */
  method CopyInelastic(src: array2<Fid>, dst: array2<Fid>, i: nat, off: nat) returns (holes: seq<Hole>, inelastic: set<Fid>)
    requires src != dst && src.Length0 == dst.Length0 && src.Length1 == dst.Length1
    requires i < src.Length1 && off <= src.Length0
    modifies dst
    ensures OnlyColumn(dst, i)
    ensures forall j | 0 <= j < dst.Length0 :: dst[j, i] == if j < off then src[j, i] else old(dst[j, i])
    ensures holes == Rescan(Column(src, i), off)
    ensures forall f :: f in inelastic <==> f != 0 && f in Column(src, i)[..off]
  {
    ghost var col := Column(src, i);
    holes, inelastic := [], {};
    var first, last := -1, -1;
    var j := 0;
    while j < off
      invariant 0 <= j <= off
      invariant Column(src, i) == col
      invariant OnlyColumn(dst, i)
      invariant forall k | 0 <= k < dst.Length0 :: dst[k, i] == if k < j then src[k, i] else old(dst[k, i])
      invariant holes + Scan(col, off, j, first, last) == Rescan(col, off)
      invariant forall f :: f in inelastic <==> f != 0 && f in col[..j]
    {
      dst[j, i] := src[j, i];
      assert col[..j + 1] == col[..j] + [src[j, i]];
      if src[j, i] != 0 {
        inelastic := inelastic + {src[j, i]};
      }
      if src[j, i] == 0 {
        if first < 0 {
          first := j;
        } else {
          last := j;
        }
      } else if first >= 0 {
        last := if last < 0 then first else last;
        var size := last - first + 1;
        ghost var rest := Scan(col, off, j + 1, -1, last);
        assert holes + ([Hole(first, size)] + rest) == (holes + [Hole(first, size)]) + rest;
        holes := holes + [Hole(first, size)];
        first := -1;
      }
      j := j + 1;
    }
    assert holes + [] == holes;
  }

  /** The first of the largest entries that can hold the demand, or -1. */
  method FindHole(holes: seq<Hole>, demand: nat) returns (k: int)
    ensures if Fits(holes, demand) then IsLargestFit(holes, demand, k) else k == -1
  {
    k := -1;
    var i := 0;
    while i < |holes|
      invariant 0 <= i <= |holes|
      invariant k == -1 || 0 <= k < i
      invariant k == -1 ==> forall h | h in holes[..i] :: h.len < demand
      invariant k >= 0 ==> IsLargestFit(holes[..i], demand, k)
    {
      assert holes[..i + 1] == holes[..i] + [holes[i]];
      if holes[i].len < demand {
      } else if k < 0 || holes[i].len > holes[k].len {
        k := i;
      }
      i := i + 1;
    }
    assert holes[..i] == holes;
    if k >= 0 {
      assert holes[k] in holes;
    }
  }

  /** Gives an inelastic arrival its blocks: the front of a listed hole, or the blocks at the offset.
      Fails, as an index error, when those reach past the end of the column. */
  method PlaceInelastic(m: array2<Fid>, i: nat, off: nat, holes: seq<Hole>, fid: Fid, demand: nat)
    returns (ok: bool, p: Placement)
    requires i < m.Length1 && off <= m.Length0 && 1 < demand
    requires forall h | h in holes && h.len > 0 :: 0 <= h.start && h.start + h.len <= m.Length0
    modifies m
    ensures ok <==> Fits(holes, demand) || off + demand <= m.Length0
    ensures OnlyColumn(m, i)
    ensures ok ==> IsPlacement(holes, off, Arrives(fid, demand), p) && p.start + p.len <= m.Length0 && p.off <= m.Length0
    ensures ok ==> forall j | 0 <= j < m.Length0 :: m[j, i] == if p.start <= j < p.start + p.len then fid else old(m[j, i])
  {
    var k := FindHole(holes, demand);
    var base: int := if k < 0 then off else holes[k].start;
    if k >= 0 {
      assert holes[k] in holes;
    }
    var j := 0;
    while j < demand
      invariant 0 <= j <= demand && base + j <= m.Length0
      invariant OnlyColumn(m, i)
      invariant forall l | 0 <= l < m.Length0 :: m[l, i] == if base <= l < base + j then fid else old(m[l, i])
    {
      if base + j >= m.Length0 {
        return false, Placement(0, 0, 0, []);
      }
      m[base + j, i] := fid;
      j := j + 1;
    }
    ok := true;
    if k < 0 {
      p := Placement(off, demand, off + demand, holes);
    } else {
      p := Placement(base, demand, off, TakeFrom(holes, k, demand));
    }
  }

  // ---- progressive filling --------------------------------------------------------------

  /** One tenant of the stage with its demand there. */
  datatype Tenant = Tenant(fid: Fid, demand: nat)

  function ElasticOf(apps: seq<Tenant>): seq<Fid>
  {
    if apps == [] then [] else
      var last := apps[|apps| - 1];
      ElasticOf(apps[..|apps| - 1]) + if last.demand > 1 then [] else [last.fid]
  }

  lemma {:induction false} ElasticPrefix(apps: seq<Tenant>, k: nat)
    requires k <= |apps|
    ensures ElasticOf(apps[..k]) <= ElasticOf(apps)
    decreases |apps|
  {
    if k < |apps| {
      ElasticPrefix(apps[..|apps| - 1], k);
      assert apps[..|apps| - 1][..k] == apps[..k];
    } else {
      assert apps[..k] == apps;
    }
  }

  /** The block counts after the first m tenants of a round have been served, when the round began
      with every tenant holding t blocks and `left` blocks to hand out. */
  ghost predicate Served(order: seq<Fid>, counts: map<Fid, nat>, t: nat, m: nat, left: nat)
  {
    forall k | 0 <= k < |order| ::
      if t == 0 && k >= m then order[k] !in counts
      else order[k] in counts && counts[order[k]] == t + (if k < m && k < left then 1 else 0)
  }

  /** The counts after tenant f is handed a block, or is only entered because none is left. */
  function Serve(counts: map<Fid, nat>, f: Fid, any: bool): map<Fid, nat>
  {
    var c := if f in counts then counts[f] else 0;
    counts[f := if any then c + 1 else c]
  }

  lemma ServeNext(order: seq<Fid>, counts: map<Fid, nat>, t: nat, m: nat, left: nat)
    requires Served(order, counts, t, m, left) && m < |order| && Distinct(order)
    ensures Served(order, Serve(counts, order[m], m < left), t, m + 1, left)
  {
  }

  /** The state of a round after the first a list entries. */
  ghost predicate RoundAt(apps: seq<Tenant>, a: nat, order: seq<Fid>, counts: map<Fid, nat>, remaining: nat, t: nat, left: nat)
  {
    && a <= |apps|
    && var all, m := ElasticOf(apps), |ElasticOf(apps[..a])|;
    && ElasticOf(apps[..a]) <= all
    && order == (if t == 0 then all[..m] else all)
    && remaining == (if m <= left then left - m else 0)
    && Served(all, counts, t, m, left)
  }

  lemma RoundSkip(apps: seq<Tenant>, a: nat, order: seq<Fid>, counts: map<Fid, nat>, remaining: nat, t: nat, left: nat)
    requires RoundAt(apps, a, order, counts, remaining, t, left) && a < |apps| && apps[a].demand > 1
    ensures RoundAt(apps, a + 1, order, counts, remaining, t, left)
  {
    assert apps[..a + 1][..a] == apps[..a];
    assert ElasticOf(apps[..a + 1]) == ElasticOf(apps[..a]);
  }

  lemma RoundServe(apps: seq<Tenant>, a: nat, order: seq<Fid>, counts: map<Fid, nat>, remaining: nat, t: nat, left: nat)
    requires RoundAt(apps, a, order, counts, remaining, t, left) && a < |apps| && apps[a].demand <= 1
    requires Distinct(ElasticOf(apps))
    ensures RoundAt(apps, a + 1, if apps[a].fid in counts then order else order + [apps[a].fid],
                    Serve(counts, apps[a].fid, remaining > 0), if remaining > 0 then remaining - 1 else 0, t, left)
  {
    ElasticNext(apps, a);
    ServeNext(ElasticOf(apps), counts, t, |ElasticOf(apps[..a])|, left);
  }

  lemma ElasticNext(apps: seq<Tenant>, a: nat)
    requires a < |apps| && apps[a].demand <= 1
    ensures var all, m := ElasticOf(apps), |ElasticOf(apps[..a])|;
            && ElasticOf(apps[..a + 1]) <= all && |ElasticOf(apps[..a + 1])| == m + 1 <= |all|
            && all[m] == apps[a].fid && all[..m + 1] == all[..m] + [apps[a].fid]
  {
    ElasticPrefix(apps, a + 1);
    assert apps[..a + 1][..a] == apps[..a];
    assert ElasticOf(apps[..a + 1]) == ElasticOf(apps[..a]) + [apps[a].fid];
  }

  /** One round of the filling: every elastic tenant in turn gets a block while there are any. */
  method FillRound(apps: seq<Tenant>, order0: seq<Fid>, counts0: map<Fid, nat>, left: nat, ghost t: nat)
    returns (order: seq<Fid>, counts: map<Fid, nat>, remaining: nat)
    requires Distinct(ElasticOf(apps)) && 0 < left
    requires order0 == if t == 0 then [] else ElasticOf(apps)
    requires Served(ElasticOf(apps), counts0, t, 0, 0)
    ensures order == ElasticOf(apps)
    ensures remaining == if |order| <= left then left - |order| else 0
    ensures Served(order, counts, t, |order|, left)
  {
    order, counts, remaining := order0, counts0, left;
    var a := 0;
    while a < |apps|
      invariant RoundAt(apps, a, order, counts, remaining, t, left)
    {
      if apps[a].demand > 1 {
        RoundSkip(apps, a, order, counts, remaining, t, left);
      } else {
        RoundServe(apps, a, order, counts, remaining, t, left);
        if apps[a].fid !in counts {
          order := order + [apps[a].fid];
        }
        counts := Serve(counts, apps[a].fid, remaining > 0);
        if remaining > 0 {
          remaining := remaining - 1;
        }
      }
      a := a + 1;
    }
    assert apps[..a] == apps;
  }

  /** Hands out the blocks round after round to the elastic tenants in order. Returns the tenants in
      the order they were first served, and their block counts. */
  method FillElastic(apps: seq<Tenant>, blocks: nat) returns (order: seq<Fid>, counts: map<Fid, nat>)
    requires Distinct(ElasticOf(apps))
    requires 0 < |ElasticOf(apps)| <= blocks
    ensures order == ElasticOf(apps)
    ensures forall k | 0 <= k < |order| :: order[k] in counts && counts[order[k]] == Share(blocks, |order|, k)
  {
    ghost var all := ElasticOf(apps);
    ghost var n := |all|;
    order, counts := [], map[];
    var remaining := blocks;
    ghost var t := 0;
    while remaining > 0
      invariant 0 <= remaining <= blocks
      invariant order == if t == 0 then [] else all
      invariant t == 0 ==> remaining == blocks
      invariant remaining > 0 ==> blocks == t * n + remaining && Served(all, counts, t, 0, 0)
      invariant remaining == 0 ==> forall k | 0 <= k < n :: all[k] in counts && counts[all[k]] == Share(blocks, n, k)
      decreases remaining
    {
      ghost var left := remaining;
      order, counts, remaining := FillRound(apps, order, counts, remaining, t);
      RoundDone(blocks, n, t, left);
      t := t + 1;
    }
  }

  /** What one round amounts to: either every tenant gained a block, or the blocks ran out. */
  lemma RoundDone(blocks: nat, n: nat, t: nat, left: nat)
    requires 0 < n && 0 < left && blocks == t * n + left
    ensures n < left ==> blocks == (t + 1) * n + (left - n)
    ensures left <= n ==> forall k | 0 <= k < n :: Share(blocks, n, k) == t + if k < left then 1 else 0
  {
    if left < n {
      DivModUnique(blocks, n, t, left);
    } else if left == n {
      DivModUnique(blocks, n, t + 1, 0);
    }
  }

  /** Cuts the region of r blocks into clusters, one per tenant in order, while they fit: all do. */
  method MakeClusters(r: nat, order: seq<Fid>, counts: map<Fid, nat>) returns (clusters: seq<(nat, nat)>)
    requires 0 < |order| <= r
    requires forall k | 0 <= k < |order| :: order[k] in counts && counts[order[k]] == Share(r, |order|, k)
    ensures |clusters| == |order| && forall k | 0 <= k < |order| :: clusters[k] == (Share(r, |order|, k), k)
  {
    ghost var n := |order|;
    var size, current := r, 0;
    ShareStartEnd(r, n);
    clusters := [];
    while size > 0 && current < |order|
      invariant 0 <= current <= n && size == r - ShareStart(r, n, current)
      invariant |clusters| == current && forall k | 0 <= k < current :: clusters[k] == (Share(r, n, k), k)
      decreases n - current
    {
      var blocks := counts[order[current]];
      ShareStartMonotone(r, n, current + 1, n);
      assert ShareStart(r, n, current + 1) == ShareStart(r, n, current) + blocks;
      if size >= blocks {
        clusters := clusters + [(blocks, current)];
        size := size - blocks;
        current := current + 1;
      } else {
        break;
      }
    }
    if current < n {
      ShareStartMonotone(r, n, current + 1, n);
      SharePositive(r, n, current);
      assert false;
    }
  }

  /** Writes one cluster. */
  method WriteCluster(m: array2<Fid>, i: nat, offset: nat, blocks: nat, fid: Fid)
    requires i < m.Length1 && offset + blocks <= m.Length0
    modifies m
    ensures OnlyColumn(m, i)
    ensures forall j | 0 <= j < m.Length0 :: m[j, i] == if offset <= j < offset + blocks then fid else old(m[j, i])
  {
    var k := 0;
    while k < blocks
      invariant 0 <= k <= blocks
      invariant OnlyColumn(m, i)
      invariant forall j | 0 <= j < m.Length0 :: m[j, i] == if offset <= j < offset + k then fid else old(m[j, i])
    {
      m[k + offset, i] := fid;
      k := k + 1;
    }
  }

  lemma TilesKept(before: seq<Fid>, after: seq<Fid>, off: nat, order: seq<Fid>, r: nat, c: nat)
    requires |before| == |after| && c <= |order|
    requires forall j | 0 <= j < |before| && j < off + ShareStart(r, |order|, c) :: after[j] == before[j]
    requires forall k | 0 <= k < c :: TileAt(before, off, order, k, r)
    ensures forall k | 0 <= k < c :: TileAt(after, off, order, k, r)
  {
    forall k | 0 <= k < c ensures TileAt(after, off, order, k, r) {
      ShareStartMonotone(r, |order|, k + 1, c);
      assert TileAt(before, off, order, k, r);
    }
  }

  /** The clusters packed one after the other from the offset. */
  method Pack(m: array2<Fid>, i: nat, off: nat, order: seq<Fid>, counts: map<Fid, nat>)
    requires i < m.Length1 && off < m.Length0 && 0 < |order| <= m.Length0 - off
    requires forall k | 0 <= k < |order| :: order[k] in counts && counts[order[k]] == Share(m.Length0 - off, |order|, k)
    modifies m
    ensures OnlyColumn(m, i)
    ensures forall j | 0 <= j < off :: m[j, i] == old(m[j, i])
    ensures Tiled(Column(m, i), off, order)
  {
    ghost var r, n := m.Length0 - off, |order|;
    var clusters := MakeClusters(m.Length0 - off, order, counts);
    ShareStartEnd(r, n);
    var offset, c := off, 0;
    while c < |clusters|
      invariant 0 <= c <= n && offset == off + ShareStart(r, n, c) <= m.Length0
      invariant OnlyColumn(m, i)
      invariant forall j | 0 <= j < off :: m[j, i] == old(m[j, i])
      invariant forall k | 0 <= k < c :: TileAt(Column(m, i), off, order, k, r)
    {
      var (blocks, owner) := clusters[c];
      ghost var before := Column(m, i);
      ShareStartMonotone(r, n, c + 1, n);
      assert ShareStart(r, n, c + 1) == ShareStart(r, n, c) + blocks;
      WriteCluster(m, i, offset, blocks, order[owner]);
      TilesKept(before, Column(m, i), off, order, r, c);
      assert TileAt(Column(m, i), off, order, c, r);
      offset := offset + blocks;
      c := c + 1;
    }
    forall k | 0 <= k < n ensures TileOf(Column(m, i), off, order, k) {
      assert TileAt(Column(m, i), off, order, k, r);
    }
  }

  ghost predicate TileAt(col: seq<Fid>, off: nat, order: seq<Fid>, k: nat, r: nat)
    requires k < |order|
  {
    var n := |order|;
    off + ShareStart(r, n, k + 1) <= |col| && Segment(col, off + ShareStart(r, n, k), off + ShareStart(r, n, k + 1), order[k])
  }

  // ---- one stage ------------------------------------------------------------------------

  ghost predicate IsElasticEntry(apps: seq<Tenant>, f: Fid)
  {
    exists k :: 0 <= k < |apps| && apps[k].fid == f && apps[k].demand <= 1
  }

  lemma ElasticEntryNext(apps: seq<Tenant>, f: Fid)
    requires apps != []
    ensures var last := apps[|apps| - 1];
            IsElasticEntry(apps, f) <==> IsElasticEntry(apps[..|apps| - 1], f) || (last.fid == f && last.demand <= 1)
  {
    var front := apps[..|apps| - 1];
    if k :| 0 <= k < |front| && front[k].fid == f && front[k].demand <= 1 {
      assert apps[k] == front[k];
    }
    if k :| 0 <= k < |apps| && apps[k].fid == f && apps[k].demand <= 1 {
      assert k < |front| ==> front[k] == apps[k];
    }
  }

  lemma {:induction false} ElasticOfOk(apps: seq<Tenant>)
    requires forall i, j | 0 <= i < j < |apps| :: apps[i].fid < apps[j].fid
    ensures Ascending(ElasticOf(apps))
    ensures forall f :: f in ElasticOf(apps) <==> IsElasticEntry(apps, f)
    decreases |apps|
  {
    if apps != [] {
      var last := apps[|apps| - 1];
      var front := apps[..|apps| - 1];
      ElasticOfOk(front);
      forall f ensures f in ElasticOf(apps) <==> IsElasticEntry(apps, f) {
        ElasticEntryNext(apps, f);
      }
      if last.demand <= 1 {
        forall f | f in ElasticOf(front) ensures f < last.fid {
          assert IsElasticEntry(front, f);
        }
        AscendingAppend(ElasticOf(front), last.fid);
      }
    }
  }

  /** The tenants in the list order, with their demands. */
  function TenantList(order: seq<Fid>, dem: map<Fid, nat>): (apps: seq<Tenant>)
    requires forall k | 0 <= k < |order| :: order[k] in dem
  {
    seq(|order|, k requires 0 <= k < |order| => Tenant(order[k], dem[order[k]]))
  }

  lemma ElasticOfTenants(order: seq<Fid>, dem: map<Fid, nat>)
    requires Ascending(order) && forall k | 0 <= k < |order| :: order[k] in dem
    requires forall f | f in dem :: 1 <= dem[f]
    requires Elastic(dem) <= Elements(order)
    ensures ElasticOf(TenantList(order, dem)) == Sorted(Elastic(dem))
    ensures Distinct(ElasticOf(TenantList(order, dem)))
  {
    var apps := TenantList(order, dem);
    ElasticOfOk(apps);
    forall f ensures f in ElasticOf(apps) <==> f in Elastic(dem) {
      if f in Elastic(dem) {
        assert f in Elements(order);
        var k :| 0 <= k < |order| && order[k] == f;
        assert apps[k].fid == f && apps[k].demand <= 1;
      }
    }
    assert Elements(ElasticOf(apps)) == Elastic(dem);
    SortedUnique(ElasticOf(apps));
  }

  /** The tenants below the offset are the inelastic ones. */
  lemma InelasticBelow(col: seq<Fid>, off: nat, dem: map<Fid, nat>, f: Fid)
    requires StageOk(col, off, dem)
    ensures f != 0 && f in col[..off] <==> f in dem && dem[f] > 1
  {
    if f in dem && dem[f] > 1 {
      var start: nat, len: nat :| IsRun(col, f, start, len) && (dem[f] > 1 ==> len == dem[f]);
      assert col[start] == f;
      assert col[..off][start] == f;
    }
    if f != 0 && f in col[..off] {
      var j :| 0 <= j < off && col[..off][j] == f;
      assert col[j] == f;
    }
  }

  lemma TenantsPresent(col: seq<Fid>, dem: map<Fid, nat>, f: Fid)
    requires ColumnOk(col, dem)
    ensures f != 0 && f in col <==> f in dem
  {
    if f in dem {
      var start: nat, len: nat :| IsRun(col, f, start, len) && (dem[f] > 1 ==> len == dem[f]);
      assert col[start] == f;
    }
  }

  /** Places the inelastic arrival, if there is one among the tenants to be laid out. */
  method PlaceArrivals(m: array2<Fid>, i: nat, off: nat, holes: seq<Hole>, apps: seq<Tenant>, ghost arr: Arrival)
    returns (ok: bool, p: Placement)
    requires i < m.Length1 && off <= m.Length0
    requires forall h | h in holes && h.len > 0 :: 0 <= h.start && h.start + h.len <= m.Length0
    requires forall a, b | 0 <= a < b < |apps| :: apps[a].fid < apps[b].fid
    requires forall a | 0 <= a < |apps| && apps[a].demand > 1 :: Inelastic(arr) && apps[a] == Tenant(arr.fid, arr.demand)
    requires Inelastic(arr) ==> Tenant(arr.fid, arr.demand) in apps
    modifies m
    ensures ok <==> !Inelastic(arr) || Fits(holes, arr.demand) || off + arr.demand <= m.Length0
    ensures OnlyColumn(m, i)
    ensures ok ==> IsPlacement(holes, off, arr, p) && p.start + p.len <= m.Length0 && p.off <= m.Length0
    ensures ok ==> forall j | 0 <= j < m.Length0 ::
              m[j, i] == if p.start <= j < p.start + p.len && Inelastic(arr) then arr.fid else old(m[j, i])
  {
    ok, p := true, Placement(0, 0, off, holes);
    var a := 0;
    ghost var done := false;
    while a < |apps|
      invariant 0 <= a <= |apps|
      invariant done <==> exists b :: 0 <= b < a && apps[b].demand > 1
      invariant OnlyColumn(m, i)
      invariant !done ==> p == Placement(0, 0, off, holes) && forall j | 0 <= j < m.Length0 :: m[j, i] == old(m[j, i])
      invariant done ==> Inelastic(arr) && (Fits(holes, arr.demand) || off + arr.demand <= m.Length0)
      invariant done ==> IsPlacement(holes, off, arr, p) && p.start + p.len <= m.Length0 && p.off <= m.Length0
      invariant done ==> forall j | 0 <= j < m.Length0 ::
                  m[j, i] == if p.start <= j < p.start + p.len then arr.fid else old(m[j, i])
    {
      if apps[a].demand > 1 {
        assert !done;
        ok, p := PlaceInelastic(m, i, off, holes, apps[a].fid, apps[a].demand);
        if !ok {
          return;
        }
        done := true;
      }
      a := a + 1;
    }
  }

  /** The list holds the tenants still to be laid out once the inelastic ones found in the column are
      pruned: the elastic tenants and the arrival, in ascending FID order. */
  ghost predicate IsPruned(apps: seq<Tenant>, dem: map<Fid, nat>, arr: Arrival)
  {
    && (forall a, b | 0 <= a < b < |apps| :: apps[a].fid < apps[b].fid)
    && (forall a | 0 <= a < |apps| && apps[a].demand > 1 :: Inelastic(arr) && apps[a] == Tenant(arr.fid, arr.demand))
    && (Inelastic(arr) ==> Tenant(arr.fid, arr.demand) in apps)
    && ElasticOf(apps) == Sorted(Elastic(Admit(dem, arr))) && Distinct(ElasticOf(apps))
  }

  /** Program f is still to be laid out. */
  ghost predicate ToLayOut(dem: map<Fid, nat>, arr: Arrival, f: Fid)
  {
    (arr.Arrives? && f == arr.fid) || (f in dem && dem[f] <= 1)
  }

  lemma PrunedDemand(dem: map<Fid, nat>, arr: Arrival, f: Fid)
    requires ArrivalOk(dem, arr) && ToLayOut(dem, arr, f)
    ensures f in Admit(dem, arr) && (Admit(dem, arr)[f] > 1 ==> Inelastic(arr) && f == arr.fid)
  {
  }

  lemma PrunedArrival(dem: map<Fid, nat>, arr: Arrival, order: seq<Fid>)
    requires Inelastic(arr) && arr.fid in order
    requires forall k | 0 <= k < |order| :: order[k] in Admit(dem, arr)
    ensures Tenant(arr.fid, arr.demand) in TenantList(order, Admit(dem, arr))
  {
    var k :| 0 <= k < |order| && order[k] == arr.fid;
    assert TenantList(order, Admit(dem, arr))[k] == Tenant(arr.fid, arr.demand);
  }

  lemma PrunedOk(dem: map<Fid, nat>, arr: Arrival, order: seq<Fid>)
    requires (forall f | f in dem :: 1 <= dem[f]) && ArrivalOk(dem, arr)
    requires Ascending(order)
    requires forall f: Fid :: f in order <==> ToLayOut(dem, arr, f)
    ensures forall k | 0 <= k < |order| :: order[k] in Admit(dem, arr)
    ensures IsPruned(TenantList(order, Admit(dem, arr)), dem, arr)
  {
    forall k | 0 <= k < |order|
      ensures order[k] in Admit(dem, arr) && (Admit(dem, arr)[order[k]] > 1 ==> Inelastic(arr) && order[k] == arr.fid)
    {
      PrunedDemand(dem, arr, order[k]);
    }
    PrunedElastic(dem, arr, order);
    if Inelastic(arr) {
      assert ToLayOut(dem, arr, arr.fid);
      PrunedArrival(dem, arr, order);
    }
  }

  lemma PrunedElastic(dem: map<Fid, nat>, arr: Arrival, order: seq<Fid>)
    requires (forall f | f in dem :: 1 <= dem[f]) && ArrivalOk(dem, arr) && Ascending(order)
    requires forall f: Fid :: f in order <==> ToLayOut(dem, arr, f)
    requires forall k | 0 <= k < |order| :: order[k] in Admit(dem, arr)
    ensures ElasticOf(TenantList(order, Admit(dem, arr))) == Sorted(Elastic(Admit(dem, arr)))
    ensures Distinct(ElasticOf(TenantList(order, Admit(dem, arr))))
  {
    forall f | f in Elastic(Admit(dem, arr)) ensures f in Elements(order) {
      assert ToLayOut(dem, arr, f);
    }
    ElasticOfTenants(order, Admit(dem, arr));
  }

  /** Shares the blocks from the offset up among the elastic tenants of the list. */
  method ShareOut(m: array2<Fid>, i: nat, off: nat, apps: seq<Tenant>)
    requires i < m.Length1 && off <= m.Length0 && |ElasticOf(apps)| <= m.Length0 - off
    requires Distinct(ElasticOf(apps))
    requires forall j | off <= j < m.Length0 :: m[j, i] == 0
    modifies m
    ensures OnlyColumn(m, i)
    ensures forall j | 0 <= j < off :: m[j, i] == old(m[j, i])
    ensures Tiled(Column(m, i), off, ElasticOf(apps))
  {
    if |ElasticOf(apps)| > 0 {
      var fids, counts := FillElastic(apps, m.Length0 - off);
      Pack(m, i, off, fids, counts);
    }
  }

  lemma PlacedColumn(col: seq<Fid>, off: nat, dem: map<Fid, nat>, arr: Arrival, mid: seq<Fid>, col': seq<Fid>, p: Placement)
    requires off <= |col| == |mid| == |col'| && off <= p.off <= |col|
    requires IsPlacement(Rescan(col, off), off, arr, p)
    requires PinnedColumn(col, off, arr, mid, p)
    requires forall j | 0 <= j < p.off :: col'[j] == mid[j]
    requires Tiled(col', p.off, Sorted(Elastic(Admit(dem, arr))))
    ensures StageStep(col, off, dem, arr, col', p.off, ByLength(p.holes))
  {
    assert Placed(col, off, dem, arr, col', p.off, ByLength(p.holes), p);
  }

  /** The first half of a stage's layout: the inelastic tenants are copied and the inelastic arrival is
      placed. Returns its placement and the tenants in list order. */
  method PinColumn(src: array2<Fid>, dst: array2<Fid>, i: nat, off: nat, dem': map<Fid, nat>,
                   ghost dem: map<Fid, nat>, ghost arr: Arrival)
    returns (ok: bool, p: Placement, apps: seq<Tenant>)
    requires src != dst && src.Length0 == dst.Length0 && src.Length1 == dst.Length1 && i < src.Length1
    requires StageOk(Column(src, i), off, dem) && ArrivalOk(dem, arr) && dem' == Admit(dem, arr)
    requires forall j | 0 <= j < dst.Length0 :: dst[j, i] == 0
    modifies dst
    ensures OnlyColumn(dst, i) && IsPruned(apps, dem, arr)
    ensures ok <==> !Inelastic(arr) || Fits(Rescan(Column(src, i), off), arr.demand) || off + arr.demand <= src.Length0
    ensures ok ==> IsPlacement(Rescan(Column(src, i), off), off, arr, p) && p.off <= src.Length0
    ensures ok ==> PinnedColumn(Column(src, i), off, arr, Column(dst, i), p)
  {
    ghost var col := Column(src, i);
    var current := CurrentTenants(src, i);
    assert dem'.Keys - current == if arr.Arrives? then {arr.fid} else {} by {
      forall f ensures f in current <==> f in dem {
        TenantsPresent(col, dem, f);
      }
    }
    var holes, inelastic := CopyInelastic(src, dst, i, off);
    var pruned := set f | f in dem' && f !in inelastic;
    var order := Sorted(pruned);
    forall f: Fid ensures f in order <==> ToLayOut(dem, arr, f) {
      InelasticBelow(col, off, dem, f);
      assert f in order <==> f in pruned;
    }
    PrunedOk(dem, arr, order);
    apps := TenantList(order, dem');
    RescanOk(col, off);
    ok, p := PlaceArrivals(dst, i, off, holes, apps, arr);
  }

  ghost predicate PinnedColumn(col: seq<Fid>, off: nat, arr: Arrival, mid: seq<Fid>, p: Placement)
  {
    && off <= |col| == |mid|
    && forall j | 0 <= j < |mid| ::
         mid[j] == if p.start <= j < p.start + p.len && Inelastic(arr) then arr.fid else if j < off then col[j] else 0
  }

  /** Lays out one stage: column i of dst from column i of src, the stage's offset, and the tenants and
      demands dem' of the new allocation. Fails exactly when the stage cannot be laid out. */
  method LayoutColumn(src: array2<Fid>, dst: array2<Fid>, i: nat, off: nat, dem': map<Fid, nat>,
                      ghost dem: map<Fid, nat>, ghost arr: Arrival)
    returns (ok: bool, off': nat, holes': seq<Hole>)
    requires src != dst && src.Length0 == dst.Length0 && src.Length1 == dst.Length1 && i < src.Length1
    requires StageOk(Column(src, i), off, dem) && ArrivalOk(dem, arr) && dem' == Admit(dem, arr)
    requires forall j | 0 <= j < dst.Length0 :: dst[j, i] == 0
    modifies dst
    ensures OnlyColumn(dst, i)
    ensures ok <==> Placeable(Column(src, i), off, dem, arr)
    ensures ok ==> StageStep(Column(src, i), off, dem, arr, Column(dst, i), off', holes')
  {
    ghost var col := Column(src, i);
    off', holes' := off, [];
    var numElastic := |Elastic(dem')|;
    ElasticAdmit(dem, arr);
    if src.Length0 - off < numElastic {
      return false, off, [];
    }
    var p, apps;
    ok, p, apps := PinColumn(src, dst, i, off, dem', dem, arr);
    if !ok {
      return;
    }
    off', holes' := p.off, ByLength(p.holes);
    PlacementOffset(col, off, dem, arr, p);
    ok := src.Length0 - off' >= numElastic;
    if ok {
      ghost var mid := Column(dst, i);
      ShareOut(dst, i, off', apps);
      PlacedColumn(col, off, dem, arr, mid, Column(dst, i), p);
    }
  }

  /** The offset an arrival leaves the stage with, and when that is enough. */
  lemma PlacementOffset(col: seq<Fid>, off: nat, dem: map<Fid, nat>, arr: Arrival, p: Placement)
    requires StageOk(col, off, dem) && ArrivalOk(dem, arr)
    requires IsPlacement(Rescan(col, off), off, arr, p) && p.off <= |col|
    ensures off <= p.off && p.start + p.len <= p.off
    ensures |Elastic(Admit(dem, arr))| <= |col| - p.off <==> Placeable(col, off, dem, arr)
  {
    PlacementFree(col, off, dem, arr, p);
    ElasticAdmit(dem, arr);
  }

  // ---- departures -----------------------------------------------------------------------

  /** Frees the blocks of program f in column i. Reports whether no other program holds a block there,
      the number of blocks freed and the last one. */
  method ClearBlocks(m: array2<Fid>, i: nat, f: Fid, ghost start: nat, ghost len: nat)
    returns (empty: bool, removed: nat, last: int)
    requires i < m.Length1 && f != 0 && IsRun(Column(m, i), f, start, len)
    modifies m
    ensures OnlyColumn(m, i) && Cleared(old(Column(m, i)), Column(m, i), f)
    ensures empty <==> forall j | 0 <= j < m.Length0 :: m[j, i] == 0
    ensures removed == len && last == start + len - 1
  {
    ghost var col := Column(m, i);
    empty, removed, last := true, 0, -1;
    var j := 0;
    while j < m.Length0
      invariant 0 <= j <= m.Length0
      invariant OnlyColumn(m, i)
      invariant forall k | 0 <= k < m.Length0 :: m[k, i] == if k < j && col[k] == f then 0 else col[k]
      invariant empty <==> forall k | 0 <= k < j :: m[k, i] == 0
      invariant removed == if j <= start then 0 else if j <= start + len then j - start else len
      invariant last == if removed == 0 then -1 else start + removed - 1
    {
      assert m[j, i] == col[j];
      if m[j, i] == f {
        m[j, i] := 0;
        removed := removed + 1;
        last := j;
      } else if m[j, i] > 0 {
        empty := false;
      }
      j := j + 1;
    }
  }
}
