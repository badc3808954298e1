/** The controller: admits programs, waits for the peers it remaps, commits queued allocations and keeps
    the switch's match entries in step. Every handler runs to completion before the next one starts. */
module Controllers {
  import opened Dimensions
  import opened Columns
  import opened Ordered
  import opened Wrappers
  import opened AllocatorModel
  import opened StageLayout
  import opened Ranking
  import opened Admission
  import opened Allocators
  import opened Isolation
  import opened SwitchTables
  import opened TableActions
  import opened DrainLog
  import opened ControllerModel
  import opened Reactions

  class Controller {
    const allocator: Allocator
    const acts: seq<Act>
    const blockSize: nat
    var queue: seq<Fid>
    var active: seq<Fid>
    var remoteDrainQueue: map<Fid, Remaps>
    var remoteDrainInit: set<Fid>
    var remoteDrainInitiator: Option<Fid>
    var remaps: Remaps
    var allocVersion: map<Fid, nat>
    /** The installed instruction entries of every stage: ten ingress stages, then ten egress ones. */
    var instrTables: seq<seq<Entry>>
    /** The monitor thread died of an error raised while laying out a request. */
    var halted: bool
    ghost var installed: Ranges
    ghost var log: seq<Note>
    ghost var states: seq<State>
    ghost var events: seq<Event>

    ghost function Ledger(): Books
      reads this
    {
      Books(queue, active, remoteDrainQueue, remoteDrainInit, remoteDrainInitiator, remaps, allocVersion)
    }

    ghost function Now(): View
      reads this, allocator, allocator.allocationMatrix
    {
      View(allocator.Abs(), Ledger(), instrTables, installed, halted, log, states, events)
    }

    ghost function Ranked(): Policy
    {
      Policy(allocator.metric, allocator.optimize, allocator.minimize)
    }

    ghost predicate Sized()
    {
      0 < blockSize && blockSize * allocator.maxOccupancy == MEMSIZE && DistinctOpcodes(acts)
    }

    /** The switch holds exactly the entries of the installed ranges, and these lie within the blocks the
        current allocation gives their programs. */
    ghost predicate Installed()
      requires 0 < blockSize
      reads this`instrTables, this`installed, allocator, allocator.allocationMatrix
    {
      InPlace(acts, blockSize, instrTables, installed, allocator.Current())
    }

    /** The allocator's states so far form a run of the model, and the history tells of its allocations. */
    ghost predicate Recorded(s: State)
      reads this`states, this`events, this`log
    {
      Run(states, events) && states[|states| - 1] == s && Mirrors(log, events)
    }

    ghost predicate Working()
      reads this, allocator, allocator.allocationMatrix
    {
      && !halted && allocator.Valid()
      && BooksOk(Ledger(), allocator.Abs(), log) && Recorded(allocator.Abs())
    }

    /** After a failed layout nothing is pending and the current allocation is untouched. */
    ghost predicate Halted()
      reads this, allocator, allocator.allocationMatrix
    {
      && halted && allocator.Dims() && TableOk(allocator.maxOccupancy, allocator.Current(), allocator.activeFuncs)
      && queue != [] && remoteDrainInitiator.None? && remoteDrainQueue == map[] && remoteDrainInit == {}
      && Run(states, events) && states[|states| - 1].table == allocator.Current()
      && Replay(log) == Idle && Mirrors(log, events)
    }

    ghost predicate Valid()
      reads this, allocator, allocator.allocationMatrix
    {
      Sized() && Installed() && (Working() || Halted())
    }

    constructor (allocator: Allocator, acts: seq<Act>)
      requires allocator.Valid() && Initial(allocator.Abs())
      requires 0 < allocator.maxOccupancy && MEMSIZE % allocator.maxOccupancy == 0
      requires DistinctOpcodes(acts)
      ensures Valid() && !halted && this.allocator == allocator && this.acts == acts
      ensures states == [allocator.Abs()] && events == [] && log == []
    {
      this.allocator, this.acts := allocator, acts;
      blockSize := MEMSIZE / allocator.maxOccupancy;
      queue, active, remoteDrainQueue, remoteDrainInit, remoteDrainInitiator := [], [], map[], {}, None;
      remaps, allocVersion, halted := map[], map[], false;
      instrTables := seq(STAGES, i => SharedEntries(acts));
      installed := seq(STAGES, i => map[]);
      log, states, events := [], [allocator.Abs()], [];
      new;
      WholeBlocks(allocator.maxOccupancy);
      StartupOk(acts, blockSize);
      forall i | 0 <= i < STAGES ensures StageTableOk(acts, blockSize, instrTables[i], installed[i]) {}
      InitialContained(allocator.Abs(), installed);
      StartRun(allocator.Abs());
      assert forall f: Fid :: VersionAt(Ledger(), log, f);
    }

    // ---- the instruction tables ---------------------------------------------------------

    /** Removes program fid's memory entries from stage i. */
    method RemoveMemoryAccessEntries(i: nat, fid: Fid)
      requires i < |instrTables|
      modifies this`instrTables
      ensures instrTables == old(instrTables)[i := WithoutAccess(acts, old(instrTables)[i], fid)]
    {
      var entries := instrTables[i];
      var remaining := [];
      var k := 0;
      while k < |entries|
        invariant 0 <= k <= |entries|
        invariant remaining == WithoutAccess(acts, entries[..k], fid)
      {
        assert entries[..k + 1][..k] == entries[..k];
        if !IsAccess(acts, entries[k], fid) {
          remaining := remaining + [entries[k]];
        }
        k := k + 1;
      }
      assert entries[..k] == entries;
      instrTables := instrTables[i := remaining];
    }

    /** Installs the entries of one instruction on stage i. */
    method InstallInstructionTableEntry(fid: Fid, act: Act, i: nat, memStart: nat, memEnd: nat)
      requires i < |instrTables|
      modifies this`instrTables
      ensures instrTables == old(instrTables)[i := old(instrTables)[i] + EntriesFor(fid, act, memStart, memEnd)]
    {
      var fidStart, fidEnd := if act.memory then fid else 0, if act.memory then fid else 0xFF;
      var params := [];
      if act.condition.Some? {
        if act.condition.value {
          params := params + [Entry(fidStart, fidEnd, act.opcode, false, false, 0, 32, memStart, REG_MAX, Skip)];
          params := params + [Entry(fidStart, fidEnd, act.opcode, false, false, 0, 0, memStart, memEnd, Execute)];
        } else {
          params := params + [Entry(fidStart, fidEnd, act.opcode, false, false, 0, 32, memStart, memEnd, Execute)];
          params := params + [Entry(fidStart, fidEnd, act.opcode, false, false, 0, 0, memStart, REG_MAX, Skip)];
        }
      } else {
        if act.opcode == 0 {
          params := params + [Entry(fidStart, fidEnd, act.opcode, true, false, 0, 0, memStart, memEnd, Execute)];
        }
        params := params + [Entry(fidStart, fidEnd, act.opcode, false, false, 0, 0, memStart, memEnd, Execute)];
      }
      params := params + [Entry(fidStart, fidEnd, act.opcode, false, true, 0, 0, memStart, REG_MAX, Rejoin)];
      assert params == EntriesFor(fid, act, memStart, memEnd);
      instrTables := instrTables[i := instrTables[i] + params];
    }

    /** The address range of a list of blocks. */
    function GetMemoryRange(blocks: seq<nat>): (r: (nat, nat))
      requires 0 < blockSize
      ensures blocks == [] ==> r == (0, 0)
      ensures blocks != [] ==> r.0 == blockSize * blocks[0] && r.1 + 1 == blockSize * blocks[|blocks| - 1] + blockSize
      ensures blocks != [] ==> r == MemoryRange(blockSize, RangeOf(blocks))
      reads this
    {
      if |blocks| == 0 then (0, 0)
      else
        var (blockStart, blockEnd) := (blocks[0], blocks[|blocks| - 1]);
        (blockSize * blockStart, blockSize * (blockEnd + 1) - 1)
    }

    /** Installs program fid's memory entries for a list of blocks on stage i. */
    method InstallMemoryAccessEntries(i: nat, fid: Fid, blocks: seq<nat>)
      requires i < |instrTables| && 0 < blockSize
      modifies this`instrTables
      ensures var (memStart, memEnd) := GetMemoryRange(blocks);
              instrTables == old(instrTables)[i := old(instrTables)[i] + RangeEntries(acts, fid, memStart, memEnd)]
    {
      var (memStart, memEnd) := GetMemoryRange(blocks);
      var k := 0;
      assert instrTables[i] + RangeEntries(acts[..0], fid, memStart, memEnd) == instrTables[i];
      while k < |acts|
        invariant 0 <= k <= |acts| && |instrTables| == |old(instrTables)|
        invariant instrTables == old(instrTables)[i := old(instrTables)[i] + RangeEntries(acts[..k], fid, memStart, memEnd)]
      {
        assert acts[..k + 1][..k] == acts[..k];
        if acts[k].memory {
          InstallInstructionTableEntry(fid, acts[k], i, memStart, memEnd);
        }
        assert old(instrTables)[i] + RangeEntries(acts[..k + 1], fid, memStart, memEnd) == instrTables[i];
        k := k + 1;
      }
      assert acts[..k] == acts;
    }

    /** Gives the remapped programs of stage i the ranges of their new blocks. */
    method ReinstallOnStage(i: nat, remaps: Remaps)
      requires Sized() && RemapsFit(remaps) && i < STAGES == |installed| && TablesOk(acts, blockSize, instrTables, installed)
      modifies this`instrTables, this`installed
      ensures TablesOk(acts, blockSize, instrTables, installed)
      ensures installed == old(installed)[i := Rewritten(old(installed)[i], remaps, i, ListedOn(remaps, i))]
    {
      ghost var before := installed[i];
      ghost var done := {};
      var todo := ListedOn(remaps, i);
      assert Rewritten(before, remaps, i, {}) == before;
      while todo != {}
        invariant todo !! done && todo + done == ListedOn(remaps, i)
        invariant installed == old(installed)[i := Rewritten(before, remaps, i, done)]
        invariant TablesOk(acts, blockSize, instrTables, installed)
        decreases todo
      {
        var tid :| tid in todo;
        Reinstall(i, tid, remaps[tid][i].next);
        RewrittenNext(before, remaps, i, done, tid);
        done := done + {tid};
        todo := todo - {tid};
      }
    }

    /** Replaces program fid's memory entries on stage i by those for a list of blocks. */
    method Reinstall(i: nat, fid: Fid, blocks: seq<nat>)
      requires Sized() && i < STAGES && blocks != [] && TablesOk(acts, blockSize, instrTables, installed)
      modifies this`instrTables, this`installed
      ensures TablesOk(acts, blockSize, instrTables, installed)
      ensures installed == old(installed)[i := (old(installed)[i] - {fid})[fid := RangeOf(blocks)]]
    {
      assert StageTableOk(acts, blockSize, instrTables[i], installed[i]);
      RemovedRange(acts, blockSize, instrTables[i], installed[i], fid);
      RemoveMemoryAccessEntries(i, fid);
      installed := installed[i := installed[i] - {fid}];
      InstalledRange(acts, blockSize, instrTables[i], installed[i], fid, RangeOf(blocks));
      InstallMemoryAccessEntries(i, fid, blocks);
      ghost var added: map<Fid, Range> := installed[i][fid := RangeOf(blocks)];
      installed := installed[i := added];
      TablesReplaced(acts, blockSize, old(instrTables), old(installed), i, instrTables, installed);
    }

    /** Gives the remapped programs the ranges of their new blocks on every stage. */
    method ReinstallPeers(remaps: Remaps)
      requires Sized() && RemapsFit(remaps) && |installed| == STAGES && TablesOk(acts, blockSize, instrTables, installed)
      modifies this`instrTables, this`installed
      ensures TablesOk(acts, blockSize, instrTables, installed)
      ensures installed == PeerRanges(old(installed), remaps)
      ensures forall i | 0 <= i < STAGES :: PeersSpan(old(installed)[i], remaps, i, installed[i])
    {
      hide PeersSpan;
      PeerRangesSpan(installed, remaps);
      ghost var target := PeerRanges(installed, remaps);
      var i := 0;
      while i < STAGES
        invariant 0 <= i <= STAGES && |installed| == STAGES
        invariant forall k | 0 <= k < STAGES :: installed[k] == if k < i then target[k] else old(installed)[k]
        invariant TablesOk(acts, blockSize, instrTables, installed)
      {
        ReinstallOnStage(i, remaps);
        i := i + 1;
      }
    }

    /** Installs the admitted program's ranges. */
    method InstallAdmitted(fid: Fid, allocation: map<nat, seq<nat>>)
      requires Sized() && BlocksFit(allocation) && |installed| == STAGES && TablesOk(acts, blockSize, instrTables, installed)
      requires forall i | 0 <= i < STAGES :: fid !in installed[i]
      modifies this`instrTables, this`installed
      ensures TablesOk(acts, blockSize, instrTables, installed)
      ensures installed == OwnRanges(old(installed), allocation, fid)
    {
      ghost var target := OwnRanges(installed, allocation, fid);
      var i := 0;
      while i < STAGES
        invariant 0 <= i <= STAGES && |installed| == STAGES
        invariant forall k | 0 <= k < STAGES :: installed[k] == if k < i then target[k] else old(installed)[k]
        invariant TablesOk(acts, blockSize, instrTables, installed)
      {
        if i in allocation {
          ghost var tables0, installed0 := instrTables, installed;
          assert StageTableOk(acts, blockSize, instrTables[i], installed[i]);
          InstalledRange(acts, blockSize, instrTables[i], installed[i], fid, RangeOf(allocation[i]));
          InstallMemoryAccessEntries(i, fid, allocation[i]);
          ghost var added: map<Fid, Range> := installed[i][fid := RangeOf(allocation[i])];
          installed := installed[i := added];
          TablesReplaced(acts, blockSize, tables0, installed0, i, instrTables, installed);
        }
        i := i + 1;
      }
    }

    /** Raises the versions of the remapped programs. */
    method RaiseVersions(remaps: Remaps)
      requires remaps.Keys <= allocVersion.Keys
      modifies this`allocVersion
      ensures VersionsRaised(old(allocVersion), remaps, allocVersion)
    {
      ghost var done := {};
      var todo := remaps.Keys;
      while todo != {}
        invariant todo !! done && todo + done == remaps.Keys
        invariant allocVersion.Keys == old(allocVersion).Keys
        invariant forall f | f in allocVersion :: allocVersion[f] == old(allocVersion)[f] + if f in done then 1 else 0
        decreases todo
      {
        var tid :| tid in todo;
        allocVersion := allocVersion[tid := allocVersion[tid] + 1];
        done := done + {tid};
        todo := todo - {tid};
      }
    }

    // ---- committing ---------------------------------------------------------------------

    /** Rewrites the match entries and versions for a commit of program fid. */
    method UpdateAllocation(fid: Fid, allocation: map<nat, seq<nat>>, remaps: Remaps)
      requires Sized() && |installed| == STAGES && TablesOk(acts, blockSize, instrTables, installed)
      requires RemapsFit(remaps) && BlocksFit(allocation) && remaps.Keys <= allocVersion.Keys && fid !in remaps
      requires forall i | 0 <= i < STAGES :: fid !in installed[i]
      modifies this`instrTables, this`installed, this`allocVersion
      ensures TablesOk(acts, blockSize, instrTables, installed)
      ensures installed == OwnRanges(PeerRanges(old(installed), remaps), allocation, fid)
      ensures forall i | 0 <= i < STAGES :: AllSpan(old(installed)[i], remaps, allocation, fid, i, installed[i])
      ensures VersionsRaised(old(allocVersion), remaps, allocVersion)
    {
      hide PeersSpan, AllSpan;
      OwnRangesSpan(installed, remaps, allocation, fid);
      ReinstallPeers(remaps);
      RaiseVersions(remaps);
      InstallAdmitted(fid, allocation);
    }

    /** The allocator's queued allocation of program fid waits for nobody, and remaps reports its changes. */
    ghost predicate CommitReady(fid: Fid, remaps: Remaps, s: State)
      reads this, allocator, allocator.allocationMatrix
    {
      && allocator.Valid() && allocator.Abs() == s && Recorded(s)
      && s.pending.Some? && s.pending.value.fid == fid && Committable(Ledger(), s, s.pending.value, remaps, log)
    }

    /** Makes the queued allocation of program fid current, and rewrites match entries and versions. */
    method CommitLayout(fid: Fid, remaps: Remaps, ghost s: State) returns (ghost s': State)
      requires Sized() && Installed() && allocator.Valid() && allocator.Abs() == s && s.pending.Some?
      requires s.pending.value.fid == fid && Committable(Ledger(), s, s.pending.value, remaps, log)
      modifies this`instrTables, this`installed, this`allocVersion, allocator
      ensures allocator.allocationMatrix == old(allocator.allocationMatrix) || fresh(allocator.allocationMatrix)
      ensures Installed() && allocator.Valid() && allocator.Abs() == s' && Applies(s, s')
      ensures VersionsRaised(old(allocVersion), remaps, allocVersion)
      ensures Reinstalled(old(installed), s.pending.value.table, remaps, fid, installed)
    {
      ghost var q := s.pending.value;
      CommitFacts(Ledger(), s, q, remaps, log, installed);
      ghost var ranges := installed;
      var applied := allocator.ApplyQueuedAllocation();
      var blocks := CommittedBlocks(fid, q.table);
      UpdateAllocation(fid, blocks, remaps);
      CommitRanges(s, q, remaps, ranges, blocks);
      s' := allocator.Abs();
    }

    /** The blocks of program fid in the committed allocation. */
    method CommittedBlocks(fid: Fid, ghost t: Table) returns (blocks: map<nat, seq<nat>>)
      requires allocator.Dims() && allocator.Current() == t
      ensures |t.cols| == STAGES && BlocksAre(blocks, t.cols, fid) && BlocksFit(blocks)
    {
      blocks := allocator.GetAllocationBlocks(fid);
      assert forall i | 0 <= i < STAGES :: Column(allocator.allocationMatrix, i) == t.cols[i];
    }

    /** Enters the commit of program fid in the books. */
    method EnterCommit(fid: Fid)
      modifies this`allocVersion, this`active, this`queue, this`remoteDrainInitiator
      ensures allocVersion == RaisedVersion(old(allocVersion), fid)
      ensures active == old(active) + [fid] && queue == RemoveFirst(old(queue), fid) && remoteDrainInitiator == None
    {
      if fid !in allocVersion {
        allocVersion := allocVersion[fid := 0];
      }
      allocVersion := allocVersion[fid := allocVersion[fid] + 1];
      active := active + [fid];
      queue := RemoveFirst(queue, fid);
      remoteDrainInitiator := None;
    }

    /** Enters a step of the allocator and a note in the history. */
    ghost method Record(e: Event, s': State, notes: seq<Note>)
      modifies this`states, this`events, this`log
      ensures states == old(states) + [s'] && events == old(events) + [e] && log == old(log) + notes
    {
      states, events, log := states + [s'], events + [e], log + notes;
    }

    /** The commit that takes the allocator from s to s' has been booked. */
    ghost predicate Booked(b: Books, s: State, s': State, remaps: Remaps, log0: seq<Note>, events0: seq<Event>)
      reads this
    {
      && Applies(s, s') && BookedAs(b, s, s', remaps, Ledger(), log0, log)
      && events == events0 + [Commit] && Recorded(s')
    }

    /** Books the commit of program fid, whose layout is in place: s and b are the allocator's state and
        the books before, s' the allocator's state after. */
    method BookCommit(fid: Fid, remaps: Remaps, ghost s: State, ghost b: Books, ghost s': State)
      requires Inv(s) && s.pending.Some? && s.pending.value.fid == fid && Applies(s, s') && Recorded(s)
      requires Committable(b, s, s.pending.value, remaps, log) && Ledger() == b.(allocVersion := allocVersion)
      requires VersionsRaised(b.allocVersion, remaps, allocVersion)
      modifies this`allocVersion, this`active, this`queue, this`remoteDrainInitiator, this`log, this`states, this`events
      ensures Booked(b, s, s', remaps, old(log), old(events)) && states == old(states) + [s']
    {
      ghost var versions := allocVersion;
      EnterCommit(fid);
      BookedOk(b, s, s', remaps, log, versions, Ledger());
      ExtendRun(states, events, Commit, s');
      MirrorsCommit(log, events, fid, remaps.Keys);
      Record(Commit, s', [Committed(fid, remaps.Keys)]);
    }

    /** Commits the queued allocation: applies it, installs the ranges it changes and raises the versions. */
    method CommitQueued(fid: Fid, remaps: Remaps, ghost s: State) returns (ghost s': State)
      requires Sized() && Installed() && CommitReady(fid, remaps, s)
      modifies this, allocator
      ensures allocator.allocationMatrix == old(allocator.allocationMatrix) || fresh(allocator.allocationMatrix)
      ensures Installed() && halted == old(halted) && allocator.Valid()
      ensures allocator.Abs() == s' && Booked(old(Ledger()), s, s', remaps, old(log), old(events))
      ensures CommitStep(old(Now()), remaps, Now())
    {
      hide Inv, Committable, Run, Mirrors, InPlace, Reinstalled, CommittedBooks, Applies;
      ghost var b, v := Ledger(), Now();
      s' := CommitLayout(fid, remaps, s);
      BookCommit(fid, remaps, s, b, s');
    }

    /** Resumes the allocation being drained by committing it; does nothing when there is none. */
    method ResumeAllocation(fid: Fid, remaps: Remaps, ghost s: State) returns (ghost s': State)
      requires Sized() && Installed()
      requires remoteDrainInitiator.Some? ==> CommitReady(fid, remaps, s)
      modifies this, allocator
      ensures allocator.allocationMatrix == old(allocator.allocationMatrix) || fresh(allocator.allocationMatrix)
      ensures Installed() && halted == old(halted)
      ensures old(remoteDrainInitiator).None? ==> unchanged(this) && unchanged(allocator)
      ensures old(remoteDrainInitiator).Some? ==>
                allocator.Valid() && allocator.Abs() == s' && Booked(old(Ledger()), s, s', remaps, old(log), old(events))
      ensures old(remoteDrainInitiator).Some? ==> CommitStep(old(Now()), remaps, Now())
    {
      hide CommitStep, Booked;
      s' := s;
      if remoteDrainInitiator.Some? {
        s' := CommitQueued(fid, remaps, s);
      }
    }

    // ---- admitting ----------------------------------------------------------------------

    /** Registers the remapped programs as peers to wait for. */
    method RegisterPeers(remaps: Remaps)
      requires remoteDrainQueue == map[] && remoteDrainInit == {}
      modifies this`remoteDrainQueue, this`remoteDrainInit
      ensures remoteDrainQueue == (map f | f in remaps :: remaps) && remoteDrainInit == remaps.Keys
    {
      var todo := remaps.Keys;
      while todo != {}
        invariant todo <= remaps.Keys && remoteDrainInit == remaps.Keys - todo
        invariant remoteDrainQueue == map f | f in remaps && f !in todo :: remaps
        decreases todo
      {
        var tid :| tid in todo;
        remoteDrainInit := remoteDrainInit + {tid};
        remoteDrainQueue := remoteDrainQueue[tid := remaps];
        todo := todo - {tid};
      }
    }

    /** Nobody is remapped: the queued allocation is committed at once. */
    method CommitNow(fid: Fid, remaps: Remaps, ghost s: State)
      requires Sized() && Installed() && CommitReady(fid, remaps, s) && !halted
      requires remoteDrainQueue == map[] && remoteDrainInit == {}
      modifies this, allocator
      ensures allocator.allocationMatrix == old(allocator.allocationMatrix) || fresh(allocator.allocationMatrix)
      ensures Valid() && !halted && CommitStep(old(Now()), remaps, Now())
    {
      hide Inv, Run, Mirrors, InPlace, Reports, Committable, BooksOk, CommitStep;
      ghost var b, log0 := Ledger(), log;
      ghost var s' := CommitQueued(fid, remaps, s);
      BookedSettles(b, s, s', remaps, Ledger(), log0, log, Ledger());
    }

    /** With the allocation of program fid queued, starts draining the remapped peers, or commits at once
        when there are none. The allocator went from base to s, and the books were b before. */
    method DrainPeers(fid: Fid, remaps: Remaps, ghost r: Request, ghost s: State, ghost v: View)
      requires Sized() && Installed() && !halted && allocator.Valid() && allocator.Abs() == s && Recorded(s)
      requires Inv(v.state) && v.state.pending.None? && RequestOk(v.state, r) && r.fid == fid && Enqueues(v.state, r, s)
      requires Reports(s.n, s.table, s.pending.value.table, s.funcs, remaps)
      requires BooksOk(v.books, v.state, v.log) && v.books.queue == []
      requires Now() == Stepped(v, Arrival(r), s, [Enqueued(fid, remaps.Keys)]).(books := v.books.(queue := [fid]))
      modifies this, allocator
      ensures allocator.allocationMatrix == old(allocator.allocationMatrix) || fresh(allocator.allocationMatrix)
      ensures Valid() && !halted && Begins(v, r, Now())
    {
      hide Inv, Run, Mirrors, InPlace, Enqueues, Reports, Committable, BooksOk, Begins, CommitStep;
      IdleFacts(v.books, v.state, v.log);
      remoteDrainInitiator := Some(fid);
      if remaps == map[] {
        DrainStarts(v.books, v.state, v.log, r, s, remaps, Ledger());
        assert remaps.Keys == {};
        ghost var mid := Now();
        QueuesNow(v, r, mid);
        CommitNow(fid, remaps, s);
        BeginsAtOnce(v, r, mid, Now());
      } else {
        WaitForPeers(fid, remaps, r, s, v);
      }
    }

    /** Starts draining the remapped peers of the queued allocation. */
    method WaitForPeers(fid: Fid, remaps: Remaps, ghost r: Request, ghost s: State, ghost v: View)
      requires Sized() && Installed() && !halted && allocator.Valid() && allocator.Abs() == s && Recorded(s) && remaps != map[]
      requires Inv(v.state) && v.state.pending.None? && RequestOk(v.state, r) && r.fid == fid && Enqueues(v.state, r, s)
      requires Reports(s.n, s.table, s.pending.value.table, s.funcs, remaps)
      requires BooksOk(v.books, v.state, v.log) && v.books.queue == []
      requires Now() == Stepped(v, Arrival(r), s, [Enqueued(fid, remaps.Keys)])
                          .(books := v.books.(queue := [fid], initiator := Some(fid)))
      modifies this`remaps, this`remoteDrainQueue, this`remoteDrainInit
      ensures Valid() && !halted && Begins(v, r, Now())
    {
      hide Inv, Run, Mirrors, InPlace, Enqueues, Reports, Committable, BooksOk, Begins, CommitStep;
      IdleFacts(v.books, v.state, v.log);
      this.remaps := remaps;
      RegisterPeers(remaps);
      assert remoteDrainQueue.Keys == remaps.Keys;
      DrainStarts(v.books, v.state, v.log, r, s, remaps, Ledger());
      QueuesPeers(v, r, remaps, Now());
      BeginsDrain(v, r, remaps, Now());
    }

    /** The monitor dies of the error raised for request r; the current allocation stays as it was. */
    method Die(ghost r: Request, ghost base: State)
      requires Sized() && Installed() && Recorded(base) && allocator.Dims() && base.n == allocator.maxOccupancy
      requires Inv(base) && base.pending.None? && RequestOk(base, r) && allocator.activeFuncs == NewFuncs(base.funcs, r)
      requires allocator.Current() == base.table
      requires queue != [] && remoteDrainInitiator.None? && remoteDrainQueue == map[] && remoteDrainInit == {}
      requires Replay(log) == Idle
      modifies this`halted
      ensures Valid() && Now() == old(Now()).(halted := true)
    {
      KnownTableOk(base, r);
      halted := true;
    }

    /** Queues the allocation chosen for request r in view v and starts draining its peers. */
    method StartDrain(fid: Fid, newUsed: set<nat>, newMap: seq<set<Fid>>, ghost r: Request, ghost v: View)
      requires Sized() && Installed() && Recorded(v.state) && allocator.Chosen(v.state, r) && r.fid == fid && !halted
      requires newMap == NewTenants(v.state.table.tenants, r) && newUsed == v.state.table.used + Elements(r.stages)
      requires BooksOk(v.books, v.state, v.log) && v.books.queue == []
      requires Now() == v.(state := allocator.Abs(), books := v.books.(queue := [fid]))
      modifies this, allocator
      ensures allocator.allocationMatrix == old(allocator.allocationMatrix) || fresh(allocator.allocationMatrix)
      ensures Valid() && if AllPlaceable(v.state, r) then Begins(v, r, Now()) else Dies(v, r, Now())
    {
      hide Inv, Run, Mirrors, InPlace, AllPlaceable, Enqueues, Reports, BooksOk, Begins;
      IdleFacts(v.books, v.state, v.log);
      var ok, remaps := allocator.EnqueueAllocation(newUsed, newMap, v.state, r);
      if !ok {
        Die(r, v.state);
        return;
      }
      ghost var s := allocator.Abs();
      ExtendRun(states, events, Arrival(r), s);
      MirrorsArrival(log, events, r, remaps.Keys);
      Record(Arrival(r), s, [Enqueued(fid, remaps.Keys)]);
      DrainPeers(fid, remaps, r, s, v);
    }

    /** Looks for a placement of program fid, which is not active, and starts its allocation. */
    method Place(fid: Fid, minDemand: seq<nat>, enumeration: seq<seq<nat>>, ghost v: View)
      returns (ghost r: Option<Request>)
      requires Sized() && Installed() && Working() && Now() == v && queue == [] && fid !in active
      requires forall j | 0 <= j < |enumeration| :: WellFormed(Request(fid, minDemand, enumeration[j]))
      requires forall j | 0 <= j < |minDemand| :: 1 <= minDemand[j]
      modifies this, allocator
      ensures allocator.allocationMatrix == old(allocator.allocationMatrix) || fresh(allocator.allocationMatrix)
      ensures Valid() && (r.Some? <==> Admissible(v.state, fid, minDemand, enumeration))
      ensures r.None? ==> Now() == v
      ensures r.Some? ==> SettlesOn(v.state, Ranked(), fid, minDemand, enumeration, r.value)
      ensures r.Some? ==> if AllPlaceable(v.state, r.value) then Begins(v, r.value, Now()) else Dies(v, r.value, Now())
    {
      hide Inv, BooksOk, Run, Mirrors, InPlace, CandidateCosts, Accepted, AllPlaceable, Admissible, Begins, Dies, SettlesOn;
      IdleFacts(v.books, v.state, log);
      queue := queue + [fid];
      var optimal, newUsed, newMap := allocator.ComputeAllocation(fid, minDemand, enumeration);
      SearchAdmits(v.state, allocator.metric, fid, minDemand, enumeration);
      if optimal.None? {
        queue := RemoveFirst(queue, fid);
        assert Ledger() == v.books && allocator.Abs() == v.state;
        return None;
      }
      r := Some(Request(fid, minDemand, optimal.value));
      ChoiceSettles(v.state, Ranked(), fid, minDemand, enumeration, optimal.value);
      StartDrain(fid, newUsed, newMap, r.value, v);
    }

    /** Handles a request for memory while no allocation is under way. A program that is active already is
        ignored, and one that fits nowhere is refused; both change nothing. Otherwise the placement the search
        settles on is queued and committed at once if nobody is remapped, or else waits for the remapped peers.
        Should a stage turn out impossible to lay out, the handler dies and the monitor with it. */
    method Allocate(fid: Fid, minDemand: seq<nat>, enumeration: seq<seq<nat>>) returns (ghost r: Option<Request>)
      requires Valid() && !halted && queue == []
      requires forall j | 0 <= j < |enumeration| :: WellFormed(Request(fid, minDemand, enumeration[j]))
      requires forall j | 0 <= j < |minDemand| :: 1 <= minDemand[j]
      modifies this, allocator
      ensures allocator.allocationMatrix == old(allocator.allocationMatrix) || fresh(allocator.allocationMatrix)
      ensures Valid()
      ensures r.Some? <==> fid !in old(active) && Admissible(old(allocator.Abs()), fid, minDemand, enumeration)
      ensures r.None? ==> Now() == old(Now())
      ensures r.Some? ==> SettlesOn(old(allocator.Abs()), Ranked(), fid, minDemand, enumeration, r.value)
      ensures r.Some? ==> if AllPlaceable(old(allocator.Abs()), r.value) then Begins(old(Now()), r.value, Now())
                          else Dies(old(Now()), r.value, Now())
    {
      hide Inv, BooksOk, Run, Mirrors, InPlace, Admissible, AllPlaceable, WellFormed, Begins, Dies, SettlesOn;
      if fid in queue || fid in active {
        return None;
      }
      r := Place(fid, minDemand, enumeration, Now());
    }

    // ---- draining -----------------------------------------------------------------------

    /** Peer fid has stored its snapshot; the last peer to do so has the allocation committed. */
    method TakeAck(fid: Fid, ghost s: State)
      requires Sized() && Installed() && Working() && allocator.Abs() == s && fid in remoteDrainQueue
      modifies this, allocator
      ensures allocator.allocationMatrix == old(allocator.allocationMatrix) || fresh(allocator.allocationMatrix)
      ensures Valid() && !halted && Acks(old(Now()), fid, Now())
    {
      hide Inv, Run, Mirrors, InPlace, Reports, Committable, BooksOk, CommitStep;
      ghost var b, log0, v := Ledger(), log, Now();
      DrainFacts(b, s, log, fid);
      SingleKey(remoteDrainQueue, fid);
      remoteDrainInit := remoteDrainInit - {fid};
      MirrorsQuiet(log, events, Acked(fid));
      log := log + [Acked(fid)];
      if |remoteDrainQueue| == 1 && remoteDrainInitiator.Some? {
        AckNoted(b, s, s.pending.value, log0, fid, Ledger());
        assert remoteDrainQueue - {fid} == map[];
        LastAck(remoteDrainInitiator.value, remoteDrainQueue[fid], fid, s);
      } else {
        AwaitOthers(fid, s, b, log0);
      }
    }

    /** Takes peer fid off the drain queue while others are still owed. */
    method AwaitOthers(fid: Fid, ghost s: State, ghost b: Books, ghost log0: seq<Note>)
      requires Sized() && Installed() && !halted && allocator.Valid() && allocator.Abs() == s && Recorded(s)
      requires s.pending.Some? && BooksOk(b, s, log0) && fid in b.drainQueue && b.drainQueue.Keys != {fid}
      requires Ledger() == b.(drainInit := b.drainInit - {fid}) && log == log0 + [Acked(fid)]
      modifies this`remoteDrainQueue
      ensures Valid() && Now() == old(Now()).(books := b.(drainInit := b.drainInit - {fid}, drainQueue := b.drainQueue - {fid}))
    {
      hide Inv, Run, Mirrors, InPlace, Reports, Committable, BooksOk;
      remoteDrainQueue := remoteDrainQueue - {fid};
      AckNoted(b, s, s.pending.value, log0, fid, Ledger());
    }

    /** Commits the allocation being drained and empties the drain queue of its last peer. */
    method LastAck(initiator: Fid, remaps: Remaps, fid: Fid, ghost s: State)
      requires Sized() && Installed() && CommitReady(initiator, remaps, s) && !halted && remoteDrainInitiator.Some?
      requires remoteDrainQueue.Keys == {fid} && remoteDrainInit == {}
      modifies this, allocator
      ensures allocator.allocationMatrix == old(allocator.allocationMatrix) || fresh(allocator.allocationMatrix)
      ensures Valid() && !halted && CommitStep(old(Now()).(books := old(Ledger()).(drainQueue := map[])), remaps, Now())
    {
      hide Inv, Run, Mirrors, InPlace, Reports, Committable, BooksOk, CommitStep;
      ghost var b, log0, v := Ledger(), log, Now();
      ghost var s' := ResumeAllocation(initiator, remaps, s);
      ghost var b', v' := Ledger(), Now();
      CommitsDropped(v, remaps, v');
      remoteDrainQueue := remoteDrainQueue - {fid};
      BookedSettles(b, s, s', remaps, b', log0, log, Ledger());
    }

    /** Handles a remap digest of program fid. Only an acknowledgement of a peer still owed moves the drain
        on; every other digest leaves the history alone. */
    method OnRemapAck(fid: Fid, isRemap: bool, isAck: bool, isInitiated: bool)
      requires Valid()
      modifies this, allocator
      ensures allocator.allocationMatrix == old(allocator.allocationMatrix) || fresh(allocator.allocationMatrix)
      ensures Valid() && halted == old(halted)
      ensures if isRemap && isAck && fid in old(remoteDrainQueue) then Acks(old(Now()), fid, Now())
              else if isRemap && isInitiated then
                Now() == old(Now()).(books := old(Ledger()).(drainInit := old(remoteDrainInit) - {fid}))
              else Now() == old(Now())
    {
      if !isRemap || (fid !in remoteDrainQueue && fid !in remoteDrainInit) {
        return;
      }
      DigestExpected(fid);
      hide Inv, Run, Mirrors, InPlace, Reports, BooksOk, Acks;
      ghost var s, v := allocator.Abs(), Now();
      if isInitiated && fid in remoteDrainInit {
        NoteInitiated(fid);
      }
      if isAck && fid in remoteDrainQueue {
        ghost var v1 := Now();
        TakeAck(fid, s);
        AcksInitiated(v, fid, v1, Now());
      }
    }

    /** Peer fid has started its snapshot. */
    method NoteInitiated(fid: Fid)
      requires Sized() && Installed() && Working() && remoteDrainInitiator.Some? && fid in remoteDrainInit
      modifies this`remoteDrainInit
      ensures Sized() && Installed() && Working()
      ensures Now() == old(Now()).(books := old(Ledger()).(drainInit := old(remoteDrainInit) - {fid}))
    {
      hide Inv, Run, Mirrors, InPlace, Reports, BooksOk;
      ghost var b := Ledger();
      remoteDrainInit := remoteDrainInit - {fid};
      InitNoted(b, allocator.Abs(), log, fid, Ledger());
    }

    /** Somebody is being drained, so the monitor is alive. */
    lemma DigestExpected(fid: Fid)
      requires Valid() && (fid in remoteDrainQueue || fid in remoteDrainInit)
      ensures Working() && fid in remoteDrainQueue && remoteDrainInitiator.Some?
    {
      assert allocator.Abs().pending.Some?;
    }

    /** The monitor's wait for the peers has timed out: forgets those still owed and commits. */
    method GiveUp()
      requires Valid() && !halted && queue != []
      modifies this, allocator
      ensures allocator.allocationMatrix == old(allocator.allocationMatrix) || fresh(allocator.allocationMatrix)
      ensures Valid() && !halted && GivesUp(old(Now()), Now())
    {
      hide Inv, Run, Mirrors, InPlace, Reports, Committable, BooksOk, CommitStep;
      ghost var s, b, log0 := allocator.Abs(), Ledger(), log;
      WaitFacts(b, s, log);
      ForgetPeers();
      MirrorsQuiet(log, events, TimedOut);
      log := log + [TimedOut];
      TimeoutNoted(b, s, s.pending.value, log0, Ledger());
      ghost var b', log1 := Ledger(), log;
      ghost var s' := ResumeAllocation(remoteDrainInitiator.value, remaps, s);
      BookedSettles(b', s, s', remaps, Ledger(), log1, log, Ledger());
    }

    /** Drops the remapped programs from the drain queue. */
    method ForgetPeers()
      requires remoteDrainQueue.Keys <= remaps.Keys && remoteDrainInit <= remaps.Keys
      modifies this`remoteDrainQueue, this`remoteDrainInit
      ensures remoteDrainQueue == map[] && remoteDrainInit == {}
    {
      var todo := remaps.Keys;
      while todo != {}
        invariant todo <= remaps.Keys && remoteDrainQueue.Keys <= todo && remoteDrainInit <= todo
        decreases todo
      {
        var tid :| tid in todo;
        if tid in remoteDrainQueue {
          remoteDrainQueue := remoteDrainQueue - {tid};
        }
        if tid in remoteDrainInit {
          remoteDrainInit := remoteDrainInit - {tid};
        }
        todo := todo - {tid};
      }
    }

    // ---- releasing ----------------------------------------------------------------------

    /** Removes all memory entries of program fid. */
    method RemoveRanges(fid: Fid)
      requires Sized() && TablesOk(acts, blockSize, instrTables, installed)
      modifies this`instrTables, this`installed
      ensures TablesOk(acts, blockSize, instrTables, installed)
      ensures installed == Uninstall(old(installed), fid)
    {
      ghost var target := Uninstall(installed, fid);
      var i := 0;
      while i < STAGES
        invariant 0 <= i <= STAGES && |installed| == STAGES
        invariant forall k | 0 <= k < STAGES :: installed[k] == if k < i then target[k] else old(installed)[k]
        invariant TablesOk(acts, blockSize, instrTables, installed)
      {
        ghost var tables0, installed0 := instrTables, installed;
        assert StageTableOk(acts, blockSize, instrTables[i], installed[i]);
        RemovedRange(acts, blockSize, instrTables[i], installed[i], fid);
        RemoveMemoryAccessEntries(i, fid);
        installed := installed[i := installed[i] - {fid}];
        TablesReplaced(acts, blockSize, tables0, installed0, i, instrTables, installed);
        i := i + 1;
      }
    }

    /** Removes program fid from the switch and from the allocator. */
    method Leave(fid: Fid, ghost s: State) returns (ghost s': State)
      requires Sized() && Installed() && allocator.Valid() && allocator.Abs() == s && s.pending.None? && fid in s.funcs
      modifies this`instrTables, this`installed, allocator, allocator.allocationMatrix
      ensures allocator.allocationMatrix == old(allocator.allocationMatrix) || fresh(allocator.allocationMatrix)
      ensures Installed() && allocator.Valid() && allocator.Abs() == s' && Departs(s, fid, s')
      ensures installed == Uninstall(old(installed), fid)
    {
      hide Inv, TablesOk, Contained, Departs;
      ghost var ranges := installed;
      RemoveRanges(fid);
      var known := allocator.Deallocate(fid);
      s' := allocator.Abs();
      DepartContained(s, fid, s', ranges);
    }

    /** Handles the departure of active program fid. */
    method Release(fid: Fid, ghost s: State, ghost b: Books)
      requires Sized() && Installed() && allocator.Valid() && allocator.Abs() == s && Ledger() == b && Recorded(s)
      requires BooksOk(b, s, log) && queue == [] && fid in active && !halted
      modifies this`instrTables, this`installed, this`active, this`states, this`events, this`log
      modifies allocator, allocator.allocationMatrix
      ensures allocator.allocationMatrix == old(allocator.allocationMatrix) || fresh(allocator.allocationMatrix)
      ensures Valid() && !halted && Releases(old(Now()), fid, Now())
    {
      hide Inv, Run, Mirrors, BooksOk, InPlace, Departs;
      IdleFacts(b, s, log);
      ghost var s' := Leave(fid, s);
      active := RemoveFirst(active, fid);
      ReleasedBooks(b, s, log, fid, s', Ledger());
      ExtendRun(states, events, Departure(fid), s');
      MirrorsDeparture(log, events, fid);
      assert log + [] == log;
      Record(Departure(fid), s', []);
    }

    /** Handles a request to release program fid while no allocation is under way. */
    method Deallocate(fid: Fid)
      requires Valid() && !halted && queue == []
      modifies this, allocator, allocator.allocationMatrix
      ensures allocator.allocationMatrix == old(allocator.allocationMatrix) || fresh(allocator.allocationMatrix)
      ensures Valid() && if fid in old(active) then Releases(old(Now()), fid, Now()) else Now() == old(Now())
    {
      hide Inv, Run, Mirrors, BooksOk, Releases;
      if fid in active {
        Release(fid, allocator.Abs(), Ledger());
      }
    }

    // ---- the monitor --------------------------------------------------------------------

    /** One thing that happens to the controller. The monitor takes the next request only when no program
        is queued, waits for a drain otherwise, and does nothing once it has died; digests are handled at
        any time. */
    method Handle(signal: Signal)
      requires Valid() && SignalOk(signal)
      modifies this, allocator, allocator.allocationMatrix
      ensures allocator.allocationMatrix == old(allocator.allocationMatrix) || fresh(allocator.allocationMatrix)
      ensures Valid() && Answers(Ranked(), old(Now()), signal, Now())
    {
      hide Inv, BooksOk, Run, Mirrors, InPlace, Admissible, AllPlaceable, WellFormed, Begins, Dies, Acks, Releases, GivesUp, SettlesOn;
      match signal
      case Malloc(fid, minDemand, enumeration) =>
        if !halted && queue == [] && fid !in active {
          ghost var r := Allocate(fid, minDemand, enumeration);
        }
      case Free(fid) =>
        if !halted && queue == [] && fid in active {
          Deallocate(fid);
        }
      case Digest(fid, isRemap, isAck, isInitiated) =>
        OnRemapAck(fid, isRemap, isAck, isInitiated);
      case Timeout =>
        if !halted && queue != [] {
          GiveUp();
        }
    }

    /** Whatever happens to the controller, in whatever order: every signal is answered in turn, the books
        stay in order, and no address of any stage is ever shared by two programs or lies outside the memory. */
    method HandleAll(signals: seq<Signal>) returns (ghost views: seq<View>)
      requires Valid() && forall k | 0 <= k < |signals| :: SignalOk(signals[k])
      modifies this, allocator, allocator.allocationMatrix
      ensures Valid() && SwitchIsolated(acts, instrTables)
      ensures AnswersAll(Ranked(), views, signals) && views[0] == old(Now()) && views[|signals|] == Now()
    {
      hide Inv, BooksOk, InPlace, SignalOk, Answers, Run, Mirrors;
      views := [Now()];
      var k := 0;
      while k < |signals|
        invariant 0 <= k <= |signals| && Valid()
        invariant AnswersAll(Ranked(), views, signals[..k]) && views[0] == old(Now()) && views[k] == Now()
        invariant allocator.allocationMatrix == old(allocator.allocationMatrix) || fresh(allocator.allocationMatrix)
      {
        Handle(signals[k]);
        AnswersNext(Ranked(), views, signals[..k], signals[k], Now());
        assert signals[..k] + [signals[k]] == signals[..k + 1];
        views := views + [Now()];
        k := k + 1;
      }
      assert signals[..k] == signals;
      ProgramsIsolated();
    }

    /** What happened so far: the allocator went through a run of the model that led to the current
        allocation; the drain history keeps to the protocol and tells of the run's allocations, each queued
        and then committed before the next. */
    lemma History()
      requires Valid()
      ensures Run(states, events) && states[|states| - 1].table == allocator.Current()
      ensures Replay(log) != Broken && Mirrors(log, events) && Paired(RunMarks(events))
      ensures remoteDrainQueue != map[] ==> queue != [] && Replay(log).Waiting? && Replay(log).owed == remoteDrainQueue.Keys
      ensures !halted ==> forall f | f in queue :: f !in active
      ensures !halted ==> forall f: Fid :: VersionAt(Ledger(), log, f)
    {
      MarksPaired(log);
    }

    /** The programs' accesses never meet. */
    lemma ProgramsIsolated()
      requires Valid()
      ensures SwitchIsolated(acts, instrTables) && Isolated(allocator.maxOccupancy, installed)
    {
      var s := allocator.Abs();
      ContainedIsIsolated(allocator.maxOccupancy, s.table, s.funcs, installed);
      var n, tables, ranges := allocator.maxOccupancy, instrTables, installed;
      forall i: nat, f: Fid, g: Fid, opF: nat, opG: nat, mbrF: nat, mbrG: nat, mar: nat
        | Performs(acts, tables, i, f, opF, mbrF, mar) && Performs(acts, tables, i, g, opG, mbrG, mar)
        ensures f == g && mar < MEMSIZE
      {
        NoSharedAddress(acts, blockSize, n, tables, ranges, i, f, g, opF, opG, mbrF, mbrG, mar);
      }
    }
  }

  /** No address of a stage is used by two programs, and none outside the memory is used at all. */
  ghost predicate SwitchIsolated(acts: seq<Act>, tables: seq<seq<Entry>>)
  {
    forall i: nat, f: Fid, g: Fid, opF: nat, opG: nat, mbrF: nat, mbrG: nat, mar: nat
      | Performs(acts, tables, i, f, opF, mbrF, mar) && Performs(acts, tables, i, g, opG, mbrG, mar) ::
      f == g && mar < MEMSIZE
  }

  /** The tables hold exactly the entries of the ranges, and these lie within the tenants' blocks. */
  ghost predicate InPlace(acts: seq<Act>, blockSize: nat, tables: seq<seq<Entry>>, ranges: Ranges, t: Table)
    requires 0 < blockSize
  {
    TablesOk(acts, blockSize, tables, ranges) && Contained(t, ranges)
  }

  lemma WholeBlocks(n: nat)
    requires 0 < n && MEMSIZE % n == 0
    ensures 0 < MEMSIZE / n && MEMSIZE / n * n == MEMSIZE
  {
    var q := MEMSIZE / n;
    assert MEMSIZE == q * n + MEMSIZE % n;
    assert q != 0;
  }

  lemma RewrittenNext(ranges: map<Fid, Range>, remaps: Remaps, i: nat, done: set<Fid>, tid: Fid)
    requires RemapsFit(remaps) && done <= ListedOn(remaps, i) && tid in ListedOn(remaps, i) && tid !in done
    ensures (Rewritten(ranges, remaps, i, done) - {tid})[tid := RangeOf(remaps[tid][i].next)]
            == Rewritten(ranges, remaps, i, done + {tid})
  {
  }

  /** Changing one stage's table along with its ranges. */
  lemma TablesReplaced(acts: seq<Act>, blockSize: nat, tables: seq<seq<Entry>>, ranges: Ranges, i: nat,
                       tables': seq<seq<Entry>>, ranges': Ranges)
    requires 0 < blockSize && TablesOk(acts, blockSize, tables, ranges) && i < STAGES
    requires |tables'| == |ranges'| == STAGES
    requires tables' == tables[i := tables'[i]] && ranges' == ranges[i := ranges'[i]]
    requires StageTableOk(acts, blockSize, tables'[i], ranges'[i])
    ensures TablesOk(acts, blockSize, tables', ranges')
  {
    forall j | 0 <= j < STAGES ensures StageTableOk(acts, blockSize, tables'[j], ranges'[j]) {
      if j != i {
        assert StageTableOk(acts, blockSize, tables[j], ranges[j]);
      }
    }
  }
}
