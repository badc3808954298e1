/** The comparison of two block matrices that tells the controller which elastic programs must move. */
module ChangeReport {
  import opened Dimensions
  import opened Columns
  import opened AllocatorModel
  import opened StageLayout

  /** Block j of stage i is held by program f, elastic there. */
  ghost predicate HeldElastic(cols: seq<seq<Fid>>, funcs: map<Fid, App>, f: Fid, i: int, j: int)
  {
    && 0 <= i < |cols| && 0 <= j < |cols[i]|
    && f != 0 && cols[i][j] == f && Demand(funcs, f, i) == 1
  }

  ghost predicate CellsUpTo(cols: seq<seq<Fid>>, funcs: map<Fid, App>, cells: set<(Fid, nat, nat)>, i: nat, j: nat)
  {
    forall f: Fid, s: nat, b: nat :: (f, s, b) in cells <==> HeldElastic(cols, funcs, f, s, b) && (s < i || (s == i && b < j))
  }

  /** All blocks held by elastic programs, as (program, stage, block). */
  method ElasticCells(m: array2<Fid>, funcs: map<Fid, App>) returns (cells: set<(Fid, nat, nat)>)
    ensures forall f: Fid, s: nat, b: nat :: (f, s, b) in cells <==> HeldElastic(MatrixColumns(m), funcs, f, s, b)
  {
    cells := {};
    ghost var cols := MatrixColumns(m);
    var i := 0;
    while i < m.Length1
      invariant 0 <= i <= m.Length1
      invariant CellsUpTo(cols, funcs, cells, i, 0)
    {
      var j := 0;
      while j < m.Length0
        invariant 0 <= j <= m.Length0
        invariant CellsUpTo(cols, funcs, cells, i, j)
      {
        assert cols[i][j] == m[j, i];
        var fid := m[j, i];
        if fid != 0 && Demand(funcs, fid, i) == 1 {
          cells := cells + {(fid, i, j)};
        }
        j := j + 1;
      }
      i := i + 1;
    }
  }

  /** The blocks of program f on stage i, in ascending order. */
  method BlocksOn(m: array2<Fid>, i: nat, f: Fid) returns (blocks: seq<nat>)
    requires i < m.Length1
    ensures blocks == BlockList(Column(m, i), f)
  {
    blocks := [];
    ghost var col := Column(m, i);
    var j := 0;
    while j < m.Length0
      invariant 0 <= j <= m.Length0
      invariant blocks == BlockList(col[..j], f)
    {
      assert col[..j + 1][..j] == col[..j];
      if m[j, i] == f {
        blocks := blocks + [j];
      }
      j := j + 1;
    }
    assert col[..j] == col;
  }

  /** Program f on stage i is reported exactly if it is in `done`, with its block lists. */
  ghost predicate ListedAs(cols: seq<seq<Fid>>, cols': seq<seq<Fid>>, remaps: Remaps, done: set<(Fid, nat)>, f: Fid, i: nat)
  {
    && (Listed(remaps, f, i) <==> (f, i) in done)
    && (Listed(remaps, f, i) ==>
          i < |cols| && i < |cols'| && remaps[f][i] == Remap(BlockList(cols[i], f), BlockList(cols'[i], f)))
  }

  function AddRemap(remaps: Remaps, f: Fid, i: nat, remap: Remap): Remaps
  {
    remaps[f := (if f in remaps then remaps[f] else map[])[i := remap]]
  }

  lemma AddRemapNonEmpty(remaps: Remaps, f: Fid, i: nat, remap: Remap)
    requires forall g | g in remaps :: remaps[g] != map[]
    ensures forall g | g in AddRemap(remaps, f, i, remap) :: AddRemap(remaps, f, i, remap)[g] != map[]
  {
    assert i in AddRemap(remaps, f, i, remap)[f];
  }

  lemma AddRemapListed(cols: seq<seq<Fid>>, cols': seq<seq<Fid>>, remaps: Remaps, done: set<(Fid, nat)>, f: Fid, i: nat)
    requires forall g: Fid, k: nat :: ListedAs(cols, cols', remaps, done, g, k)
    requires i < |cols| && i < |cols'|
    ensures forall g: Fid, k: nat ::
              ListedAs(cols, cols', AddRemap(remaps, f, i, Remap(BlockList(cols[i], f), BlockList(cols'[i], f))), done + {(f, i)}, g, k)
  {
    var remaps' := AddRemap(remaps, f, i, Remap(BlockList(cols[i], f), BlockList(cols'[i], f)));
    forall g: Fid, k: nat ensures ListedAs(cols, cols', remaps', done + {(f, i)}, g, k) {
      assert ListedAs(cols, cols', remaps, done, g, k);
    }
  }

  /** Program f loses a block of stage i. */
  ghost predicate LosesCell(cols: seq<seq<Fid>>, cols': seq<seq<Fid>>, funcs: map<Fid, App>, f: Fid, i: nat)
  {
    exists j: nat :: HeldElastic(cols, funcs, f, i, j) && !HeldElastic(cols', funcs, f, i, j)
  }

  /** Compares the current matrix with the new one: every elastic program is reported on the stages where
      it loses a block. */
  method Compare(m: array2<Fid>, m': array2<Fid>, funcs: map<Fid, App>) returns (remaps: Remaps)
    requires m.Length0 == m'.Length0 && m.Length1 == m'.Length1
    ensures forall f: Fid, i: nat :: Listed(remaps, f, i) <==> LosesCell(MatrixColumns(m), MatrixColumns(m'), funcs, f, i)
    ensures forall f: Fid, i: nat | Listed(remaps, f, i) ::
              i < m.Length1 && remaps[f][i] == Remap(BlockList(Column(m, i), f), BlockList(Column(m', i), f))
    ensures forall f | f in remaps :: remaps[f] != map[]
  {
    ghost var cols, cols' := MatrixColumns(m), MatrixColumns(m');
    var current := ElasticCells(m, funcs);
    var next := ElasticCells(m', funcs);
    var removed := current - next;
    var affected := set c | c in removed :: (c.0, c.1);
    forall f: Fid, i: nat ensures (f, i) in affected <==> LosesCell(cols, cols', funcs, f, i) {
      if LosesCell(cols, cols', funcs, f, i) {
        var j: nat :| HeldElastic(cols, funcs, f, i, j) && !HeldElastic(cols', funcs, f, i, j);
        assert (f, i, j) in removed;
      }
      if (f, i) in affected {
        var c :| c in removed && (f, i) == (c.0, c.1);
        assert (f, i, c.2) in removed;
        assert HeldElastic(cols, funcs, f, i, c.2) && !HeldElastic(cols', funcs, f, i, c.2);
      }
    }
    remaps := map[];
    var rest := affected;
    while rest != {}
      invariant rest <= affected
      invariant forall f: Fid, i: nat :: ListedAs(cols, cols', remaps, affected - rest, f, i)
      invariant forall f | f in remaps :: remaps[f] != map[]
      decreases rest
    {
      var c :| c in rest;
      var (fid, stage) := c;
      assert LosesCell(cols, cols', funcs, fid, stage);
      var prev := BlocksOn(m, stage, fid);
      var next := BlocksOn(m', stage, fid);
      AddRemapListed(cols, cols', remaps, affected - rest, fid, stage);
      AddRemapNonEmpty(remaps, fid, stage, Remap(prev, next));
      remaps := AddRemap(remaps, fid, stage, Remap(prev, next));
      assert affected - rest + {c} == affected - (rest - {c});
      rest := rest - {c};
    }
    forall f: Fid, i: nat
      ensures Listed(remaps, f, i) <==> LosesCell(cols, cols', funcs, f, i)
      ensures Listed(remaps, f, i) ==>
                i < m.Length1 && remaps[f][i] == Remap(BlockList(Column(m, i), f), BlockList(Column(m', i), f))
    {
      assert ListedAs(cols, cols', remaps, affected - rest, f, i);
      assert affected - rest == affected;
    }
  }

  /** Between two tables that agree with their tenants, the comparison is the exact change report. */
  lemma CompareIsExact(n: nat, t: Table, t': Table, funcs: map<Fid, App>, fid: Fid, remaps: Remaps)
    requires TableOk(n, t, funcs) && TableOk(n, t', funcs) && Extends(t, t', funcs, fid)
    requires forall f: Fid, i: nat :: Listed(remaps, f, i) <==> LosesCell(t.cols, t'.cols, funcs, f, i)
    requires forall f: Fid, i: nat | Listed(remaps, f, i) ::
              i < STAGES && remaps[f][i] == Remap(BlockList(t.cols[i], f), BlockList(t'.cols[i], f))
    requires forall f | f in remaps :: remaps[f] != map[]
    ensures Reports(n, t, t', funcs, remaps)
  {
    forall f: Fid, i: nat ensures ReportedAt(n, t, t', funcs, remaps, f, i) {
      if i < STAGES {
        assert ColumnAt(n, t, funcs, i) && ColumnAt(n, t', funcs, i);
        LosesOnStage(n, t, t', funcs, f, i);
      }
    }
  }

  lemma LosesOnStage(n: nat, t: Table, t': Table, funcs: map<Fid, App>, f: Fid, i: nat)
    requires i < STAGES == |t.cols| == |t'.cols| == |t.tenants| == |t'.tenants|
    requires ColumnAt(n, t, funcs, i) && ColumnAt(n, t', funcs, i)
    ensures LosesCell(t.cols, t'.cols, funcs, f, i) <==>
              f in t.tenants[i] && Demand(funcs, f, i) == 1 && Loses(t.cols[i], t'.cols[i], f)
  {
    var dem := DemandsAt(t, funcs, i);
    assert f in t.tenants[i] <==> f in dem;
    if f in dem && dem[f] == 1 && Loses(t.cols[i], t'.cols[i], f) {
      var j :| 0 <= j < |t.cols[i]| && t.cols[i][j] == f && t'.cols[i][j] != f;
      assert HeldElastic(t.cols, funcs, f, i, j) && !HeldElastic(t'.cols, funcs, f, i, j);
    }
  }
}
