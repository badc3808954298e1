/** Memory isolation over whole runs: the block ranges installed on the switch for two programs never
    overlap, although an application's range is rewritten only when it is reported to lose blocks. */
module Isolation {
  import opened Dimensions
  import opened Columns
  import opened Layout
  import opened Wrappers
  import opened AllocatorModel

  /** First and last block installed for a program on a stage. */
  datatype Range = Range(first: nat, last: nat)

  /** The ranges installed on every stage. */
  type Ranges = seq<map<Fid, Range>>

  /** All blocks of the range belong to the program. */
  ghost predicate Owned(col: seq<Fid>, f: Fid, b: Range)
  {
    b.first <= b.last < |col| && forall j | b.first <= j <= b.last :: col[j] == f
  }

  /** The blocks of the range are exactly those of the program. */
  ghost predicate Covers(col: seq<Fid>, f: Fid, b: Range)
  {
    b.first <= b.last < |col| && forall j | 0 <= j < |col| :: col[j] == f <==> b.first <= j <= b.last
  }

  /** Stage i has a range installed for each of its tenants, within the tenant's blocks, and for nobody
      else. */
  ghost predicate ContainedAt(t: Table, ranges: Ranges, i: nat)
    requires i < |t.cols| == |t.tenants| == |ranges|
  {
    ranges[i].Keys == t.tenants[i] && forall f | f in ranges[i] :: Owned(t.cols[i], f, ranges[i][f])
  }

  ghost predicate Contained(t: Table, ranges: Ranges)
  {
    |t.cols| == |t.tenants| == |ranges| == STAGES && forall i | 0 <= i < STAGES :: ContainedAt(t, ranges, i)
  }

  /** The ranges of any two programs on the same stage are disjoint and inside the column. */
  ghost predicate Isolated(n: nat, ranges: Ranges)
  {
    && (forall i, f | 0 <= i < |ranges| && f in ranges[i] :: ranges[i][f].first <= ranges[i][f].last < n)
    && (forall i, f, g | 0 <= i < |ranges| && f in ranges[i] && g in ranges[i] && f != g ::
          ranges[i][f].last < ranges[i][g].first || ranges[i][g].last < ranges[i][f].first)
  }

  lemma ContainedIsIsolated(n: nat, t: Table, funcs: map<Fid, App>, ranges: Ranges)
    requires TableOk(n, t, funcs) && Contained(t, ranges)
    ensures Isolated(n, ranges)
  {
    forall i, f | 0 <= i < STAGES && f in ranges[i]
      ensures ranges[i][f].first <= ranges[i][f].last < n
    {
      assert ColumnAt(n, t, funcs, i) && ContainedAt(t, ranges, i);
      assert Owned(t.cols[i], f, ranges[i][f]);
    }
    forall i, f, g | 0 <= i < STAGES && f in ranges[i] && g in ranges[i] && f != g
      ensures ranges[i][f].last < ranges[i][g].first || ranges[i][g].last < ranges[i][f].first
    {
      assert ContainedAt(t, ranges, i);
      assert Owned(t.cols[i], f, ranges[i][f]) && Owned(t.cols[i], g, ranges[i][g]);
      assert t.cols[i][ranges[i][f].first] == f && t.cols[i][ranges[i][g].first] == g;
    }
  }

  /** First and last entry of a block list. */
  function RangeOf(blocks: seq<nat>): Range
    requires blocks != []
  {
    Range(blocks[0], blocks[|blocks| - 1])
  }

  // ---- installing a committed allocation ------------------------------------------------

  /** What the controller installs for program f on stage i at a commit: new ranges for the admitted
      program and for the reported ones, and the old range for everybody else. */
  ghost predicate InstalledFor(ranges: Ranges, t': Table, remaps: Remaps, fid: Fid, ranges': Ranges, i: nat, f: Fid)
    requires i < |ranges| && i < |ranges'| && i < |t'.cols| && i < |t'.tenants|
  {
    if f == fid && f in t'.tenants[i] then
      f in ranges'[i] && BlockList(t'.cols[i], f) != [] && ranges'[i][f] == RangeOf(BlockList(t'.cols[i], f))
    else if Listed(remaps, f, i) then
      f in ranges'[i] && remaps[f][i].next != [] && ranges'[i][f] == RangeOf(remaps[f][i].next)
    else
      (f in ranges'[i] <==> f in ranges[i]) && (f in ranges[i] ==> ranges'[i][f] == ranges[i][f])
  }

  ghost predicate Installs(ranges: Ranges, t': Table, remaps: Remaps, fid: Fid, ranges': Ranges)
  {
    && |ranges| == |ranges'| == |t'.cols| == |t'.tenants| == STAGES
    && forall i, f: Fid | 0 <= i < STAGES :: InstalledFor(ranges, t', remaps, fid, ranges', i, f)
  }

  /** A tenant's block list spans exactly its blocks. */
  lemma TenantRange(n: nat, t: Table, funcs: map<Fid, App>, f: Fid, i: nat)
    requires TableOk(n, t, funcs) && i < STAGES && f in t.tenants[i]
    ensures BlockList(t.cols[i], f) != [] && Covers(t.cols[i], f, RangeOf(BlockList(t.cols[i], f)))
    ensures Owned(t.cols[i], f, RangeOf(BlockList(t.cols[i], f)))
  {
    var dem := DemandsAt(t, funcs, i);
    assert ColumnAt(n, t, funcs, i) && f in dem;
    var start: nat, len: nat :| IsRun(t.cols[i], f, start, len) && (dem[f] > 1 ==> len == dem[f]);
    BlockListOfRun(t.cols[i], f, start, len);
  }

  /** The commit of program fid gives it a new range on stage i, or reports that program f loses blocks there. */
  ghost predicate Refreshed(t': Table, remaps: Remaps, fid: Fid, i: nat, f: Fid)
    requires i < |t'.tenants|
  {
    (f == fid && f in t'.tenants[i]) || Listed(remaps, f, i)
  }

  ghost predicate ReinstalledFor(ranges: Ranges, t': Table, remaps: Remaps, fid: Fid, ranges': Ranges, i: nat, f: Fid)
    requires i < |ranges| && i < |ranges'| && i < |t'.cols| && i < |t'.tenants|
  {
    if Refreshed(t', remaps, fid, i, f) then f in ranges'[i] && Covers(t'.cols[i], f, ranges'[i][f])
    else (f in ranges'[i] <==> f in ranges[i]) && (f in ranges[i] ==> ranges'[i][f] == ranges[i][f])
  }

  /** What a commit does to the installed ranges: the admitted program and the reported ones get ranges that
      cover exactly their blocks in the new table, and everybody else keeps theirs. */
  ghost predicate Reinstalled(ranges: Ranges, t': Table, remaps: Remaps, fid: Fid, ranges': Ranges)
  {
    && |ranges| == |ranges'| == |t'.cols| == |t'.tenants| == STAGES
    && forall i, f: Fid | 0 <= i < STAGES :: ReinstalledFor(ranges, t', remaps, fid, ranges', i, f)
  }

  /** Installing the spans of the block lists does this. */
  lemma InstallsCovers(s: State, q: Queued, remaps: Remaps, ranges: Ranges, ranges': Ranges)
    requires Inv(s) && s.pending == Some(q) && Reports(s.n, s.table, q.table, s.funcs, remaps)
    requires Installs(ranges, q.table, remaps, q.fid, ranges')
    ensures Reinstalled(ranges, q.table, remaps, q.fid, ranges')
  {
    forall i, f: Fid | 0 <= i < STAGES ensures ReinstalledFor(ranges, q.table, remaps, q.fid, ranges', i, f) {
      assert InstalledFor(ranges, q.table, remaps, q.fid, ranges', i, f);
      assert ReportedAt(s.n, s.table, q.table, s.funcs, remaps, f, i);
      assert ExtendsAt(s.table, q.table, s.funcs, q.fid, i);
      if Refreshed(q.table, remaps, q.fid, i, f) {
        TenantRange(s.n, q.table, s.funcs, f, i);
      }
    }
  }

  lemma CommitContainedFor(s: State, q: Queued, remaps: Remaps, ranges: Ranges, ranges': Ranges, i: nat, f: Fid)
    requires Inv(s) && s.pending == Some(q) && Reports(s.n, s.table, q.table, s.funcs, remaps)
    requires Contained(s.table, ranges) && Installs(ranges, q.table, remaps, q.fid, ranges') && i < STAGES
    ensures f in ranges'[i] <==> f in q.table.tenants[i]
    ensures f in ranges'[i] ==> Owned(q.table.cols[i], f, ranges'[i][f])
  {
    assert InstalledFor(ranges, q.table, remaps, q.fid, ranges', i, f);
    assert ContainedAt(s.table, ranges, i) && ExtendsAt(s.table, q.table, s.funcs, q.fid, i);
    assert ReportedAt(s.n, s.table, q.table, s.funcs, remaps, f, i);
    Absent(s.table, q.fid, i);
    if f in q.table.tenants[i] {
      TenantRange(s.n, q.table, s.funcs, f, i);
      if f != q.fid && !Listed(remaps, f, i) {
        UnlistedOwned(s, q, remaps, ranges[i][f], f, i);
      }
    }
  }

  /** A range within the blocks of an unreported program stays within them. */
  lemma UnlistedOwned(s: State, q: Queued, remaps: Remaps, b: Range, f: Fid, i: nat)
    requires Inv(s) && s.pending == Some(q) && Reports(s.n, s.table, q.table, s.funcs, remaps)
    requires i < STAGES && f in s.table.tenants[i] && !Listed(remaps, f, i) && Owned(s.table.cols[i], f, b)
    ensures Owned(q.table.cols[i], f, b)
  {
    UnlistedKeep(s, q, remaps, f, i);
    assert ColumnAt(s.n, s.table, s.funcs, i) && ColumnAt(s.n, q.table, s.funcs, i);
    forall j | b.first <= j <= b.last ensures q.table.cols[i][j] == f {
      assert j in BlocksOf(s.table.cols[i], f);
      assert j in BlocksOf(q.table.cols[i], f);
    }
  }

  /** Committing an allocation and installing its ranges keeps every range within its program's blocks, and
      makes those of the admitted and the reported programs cover them. */
  lemma CommitContained(s: State, q: Queued, remaps: Remaps, ranges: Ranges, ranges': Ranges)
    requires Inv(s) && s.pending == Some(q) && Reports(s.n, s.table, q.table, s.funcs, remaps)
    requires Contained(s.table, ranges) && Installs(ranges, q.table, remaps, q.fid, ranges')
    ensures Contained(q.table, ranges') && Reinstalled(ranges, q.table, remaps, q.fid, ranges')
  {
    InstallsCovers(s, q, remaps, ranges, ranges');
    forall i | 0 <= i < STAGES ensures ContainedAt(q.table, ranges', i) {
      forall f ensures f in ranges'[i] <==> f in q.table.tenants[i]
               ensures f in ranges'[i] ==> Owned(q.table.cols[i], f, ranges'[i][f])
      {
        CommitContainedFor(s, q, remaps, ranges, ranges', i, f);
      }
    }
  }

  function Uninstall(ranges: Ranges, f: Fid): Ranges
  {
    seq(|ranges|, i requires 0 <= i < |ranges| => ranges[i] - {f})
  }

  /** Removing a departing program's ranges keeps the others within their programs' blocks. */
  lemma DepartContained(s: State, f: Fid, s': State, ranges: Ranges)
    requires Inv(s) && Departs(s, f, s') && Contained(s.table, ranges)
    ensures Contained(s'.table, Uninstall(ranges, f))
  {
    var ranges' := Uninstall(ranges, f);
    forall i | 0 <= i < STAGES ensures ContainedAt(s'.table, ranges', i) {
      assert ContainedAt(s.table, ranges, i);
      DepartsStage(s, f, s', i);
      assert s'.table.tenants[i] == s.table.tenants[i] - {f};
      forall g | g in ranges'[i] ensures Owned(s'.table.cols[i], g, ranges'[i][g]) {
        assert Owned(s.table.cols[i], g, ranges[i][g]) && g in s.table.tenants[i];
        assert SameBlocks(s.table.cols[i], s'.table.cols[i], g);
      }
    }
  }

  // ---- runs -----------------------------------------------------------------------------

  /** A run of the allocator with the ranges installed along it: nothing is installed when an allocation
      is queued; a commit installs the queued allocation under an exact change report; a departure
      removes the program's ranges. */
  ghost predicate InstallStep(s: State, e: Event, s': State, ranges: Ranges, ranges': Ranges)
  {
    match e
    case Arrival(_) => ranges' == ranges
    case Commit => s.pending.Some?
      && exists remaps: Remaps ::
           Reports(s.n, s.table, s'.table, s.funcs, remaps) && Installs(ranges, s'.table, remaps, s.pending.value.fid, ranges')
    case Departure(f) => ranges' == Uninstall(ranges, f)
  }

  ghost predicate InstallStepAt(states: seq<State>, events: seq<Event>, installed: seq<Ranges>, k: nat)
    requires k < |events| && |states| == |installed| == |events| + 1
  {
    InstallStep(states[k], events[k], states[k + 1], installed[k], installed[k + 1])
  }

  ghost predicate InstalledRun(states: seq<State>, events: seq<Event>, installed: seq<Ranges>)
  {
    && Run(states, events) && |installed| == |states|
    && installed[0] == seq(STAGES, i => map[])
    && forall k | 0 <= k < |events| :: InstallStepAt(states, events, installed, k)
  }

  lemma StepContained(s: State, e: Event, s': State, ranges: Ranges, ranges': Ranges)
    requires Inv(s) && Next(s, e, s') && Contained(s.table, ranges) && InstallStep(s, e, s', ranges, ranges')
    ensures Contained(s'.table, ranges')
  {
    match e
    case Arrival(r) =>
    case Commit =>
      var q := s.pending.value;
      var remaps: Remaps :| Reports(s.n, s.table, s'.table, s.funcs, remaps) && Installs(ranges, s'.table, remaps, q.fid, ranges');
      CommitContained(s, q, remaps, ranges, ranges');
    case Departure(f) => DepartContained(s, f, s', ranges);
  }

  /** Isolation: in every state of every run the ranges installed for any two programs on the same stage
      are disjoint and inside the column. */
  lemma {:induction false} RunIsolated(states: seq<State>, events: seq<Event>, installed: seq<Ranges>, k: nat)
    requires InstalledRun(states, events, installed) && k < |states|
    ensures Contained(states[k].table, installed[k])
    ensures Isolated(states[k].n, installed[k])
    decreases k
  {
    RunOk(states, events, k);
    if k == 0 {
      InitialContained(states[0], installed[0]);
    } else {
      RunIsolated(states, events, installed, k - 1);
      RunOk(states, events, k - 1);
      assert StepAt(states, events, k - 1) && InstallStepAt(states, events, installed, k - 1);
      StepContained(states[k - 1], events[k - 1], states[k], installed[k - 1], installed[k]);
    }
    ContainedIsIsolated(states[k].n, states[k].table, states[k].funcs, installed[k]);
  }

  lemma InitialContained(s: State, ranges: Ranges)
    requires Initial(s) && ranges == seq(STAGES, i => map[])
    ensures Contained(s.table, ranges)
  {
    forall i | 0 <= i < STAGES ensures ContainedAt(s.table, ranges, i) {
      assert ranges[i] == map[] && s.table.tenants[i] == {};
    }
  }

  /** Every installed range covers exactly the blocks its program had at some commit, and has been among
      its blocks ever since: a range lags behind only by blocks gained in between. */
  lemma {:induction false} RunCovers(states: seq<State>, events: seq<Event>, installed: seq<Ranges>, k: nat, i: nat, f: Fid)
    requires InstalledRun(states, events, installed) && k < |states| && i < STAGES
    requires |installed[k]| == STAGES && f in installed[k][i]
    ensures exists j :: 0 < j <= k && events[j - 1].Commit? && CoversIn(states, j, i, f, installed[k][i][f])
                        && forall l | j <= l <= k :: OwnedIn(states, l, i, f, installed[k][i][f])
    decreases k
  {
    if k == 0 {
      assert false;
    } else {
      RunIsolated(states, events, installed, k);
      RunIsolated(states, events, installed, k - 1);
      RunOk(states, events, k - 1);
      assert StepAt(states, events, k - 1) && InstallStepAt(states, events, installed, k - 1);
      assert ContainedAt(states[k].table, installed[k], i);
      var b, s, s' := installed[k][i][f], states[k - 1], states[k];
      assert OwnedIn(states, k, i, f, b);
      if events[k - 1].Commit? && StepCovers(s, s', installed[k - 1], installed[k], i, f) {
        assert CoversIn(states, k, i, f, b);
      } else {
        StepKeeps(s, events[k - 1], s', installed[k - 1], installed[k], i, f);
        RunCovers(states, events, installed, k - 1, i, f);
        var j :| 0 < j <= k - 1 && events[j - 1].Commit? && CoversIn(states, j, i, f, b)
                 && forall l | j <= l <= k - 1 :: OwnedIn(states, l, i, f, b);
        assert forall l | j <= l <= k :: OwnedIn(states, l, i, f, b);
      }
    }
  }

  ghost predicate CoversIn(states: seq<State>, j: nat, i: nat, f: Fid, b: Range)
    requires j < |states|
  {
    i < |states[j].table.cols| && Covers(states[j].table.cols[i], f, b)
  }

  ghost predicate OwnedIn(states: seq<State>, j: nat, i: nat, f: Fid, b: Range)
    requires j < |states|
  {
    i < |states[j].table.cols| && Owned(states[j].table.cols[i], f, b)
  }

  ghost predicate StepCovers(s: State, s': State, ranges: Ranges, ranges': Ranges, i: nat, f: Fid)
  {
    && i < |s'.table.cols| && i < |ranges'| && f in ranges'[i] && Covers(s'.table.cols[i], f, ranges'[i][f])
  }

  /** A step that does not make a program's range cover its blocks leaves the range alone. */
  lemma StepKeeps(s: State, e: Event, s': State, ranges: Ranges, ranges': Ranges, i: nat, f: Fid)
    requires Inv(s) && Next(s, e, s') && Contained(s.table, ranges) && InstallStep(s, e, s', ranges, ranges')
    requires i < STAGES == |ranges'| && f in ranges'[i]
    requires !(e.Commit? && StepCovers(s, s', ranges, ranges', i, f))
    ensures f in ranges[i] && ranges'[i][f] == ranges[i][f]
  {
    match e
    case Arrival(_) =>
    case Commit =>
      var q := s.pending.value;
      var remaps: Remaps :| Reports(s.n, s.table, s'.table, s.funcs, remaps) && Installs(ranges, s'.table, remaps, q.fid, ranges');
      InstallsCovers(s, q, remaps, ranges, ranges');
      assert ReinstalledFor(ranges, q.table, remaps, q.fid, ranges', i, f);
    case Departure(_) =>
  }
}
