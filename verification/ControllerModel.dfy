/** The controller's books as values: what every handler keeps, and why. */
module ControllerModel {
  import opened Dimensions
  import opened Columns
  import opened Ordered
  import opened Wrappers
  import opened AllocatorModel
  import opened AllocatorSteps
  import opened Isolation
  import opened DrainLog

  /** The lists and maps the controller keeps about allocations. */
  datatype Books = Books(queue: seq<Fid>, active: seq<Fid>, drainQueue: map<Fid, Remaps>, drainInit: set<Fid>,
                         initiator: Option<Fid>, remaps: Remaps, allocVersion: map<Fid, nat>)

  /** The list without the first occurrence of f. */
  function RemoveFirst(s: seq<Fid>, f: Fid): seq<Fid>
  {
    if s == [] then [] else if s[0] == f then s[1..] else [s[0]] + RemoveFirst(s[1..], f)
  }

  lemma {:induction false} RemoveFirstOk(s: seq<Fid>, f: Fid)
    requires Distinct(s)
    ensures Distinct(RemoveFirst(s, f))
    ensures forall x: Fid :: x in RemoveFirst(s, f) <==> x in s && x != f
  {
    if s != [] {
      var tail := s[1..];
      assert s == [s[0]] + tail;
      forall k | 0 <= k < |tail| ensures tail[k] != s[0] {
        assert tail[k] == s[k + 1];
      }
      RemoveFirstOk(tail, f);
      if s[0] != f {
        var rest := RemoveFirst(tail, f);
        forall k | 0 <= k < |rest| ensures rest[k] != s[0] {
          assert rest[k] in rest;
        }
        assert forall x: Fid :: x in [s[0]] + rest <==> x == s[0] || x in rest;
      }
    }
  }

  /** The active programs are the tenants of the current allocation. */
  ghost predicate ActiveOk(b: Books, t: Table)
  {
    Distinct(b.active) && Elements(b.active) == t.rev.Keys
  }

  /** The recorded version of a program. */
  function VersionOf(b: Books, f: Fid): nat
  {
    if f in b.allocVersion then b.allocVersion[f] else 0
  }

  /** A program's version counts the commits that wrote its ranges. */
  ghost predicate VersionAt(b: Books, log: seq<Note>, f: Fid)
  {
    VersionOf(b, f) == Version(log, f)
  }

  ghost predicate VersionsOk(b: Books, log: seq<Note>)
  {
    && (forall f: Fid :: VersionAt(b, log, f))
    && forall f | f in b.active :: f in b.allocVersion
  }

  /** The allocations a run queues and commits, in order: a commit is that of the program queued last. */
  function RunMarks(events: seq<Event>): seq<Mark>
  {
    if events == [] then [] else RunMarks(events[..|events| - 1]) + MarkOfEvent(RunMarks(events[..|events| - 1]), events[|events| - 1])
  }

  function MarkOfEvent(marks: seq<Mark>, e: Event): seq<Mark>
  {
    match e
    case Arrival(r) => [Queues(r.fid)]
    case Commit => [Commits(if marks == [] then 0 else marks[|marks| - 1].fid)]
    case Departure(_) => []
  }

  lemma RunMarksNext(events: seq<Event>, e: Event)
    ensures RunMarks(events + [e]) == RunMarks(events) + MarkOfEvent(RunMarks(events), e)
  {
    assert (events + [e])[..|events|] == events;
  }

  /** The history tells of the same allocations, in the same order and for the same programs, as the
      allocator's run. */
  ghost predicate Mirrors(log: seq<Note>, events: seq<Event>)
  {
    Marks(log) == RunMarks(events)
  }

  lemma MirrorsQuiet(log: seq<Note>, events: seq<Event>, e: Note)
    requires Mirrors(log, events) && (e.Acked? || e.TimedOut?)
    ensures Mirrors(log + [e], events)
  {
    MarksNext(log, e);
  }

  lemma MirrorsDeparture(log: seq<Note>, events: seq<Event>, f: Fid)
    requires Mirrors(log, events)
    ensures Mirrors(log, events + [Event.Departure(f)])
  {
    RunMarksNext(events, Event.Departure(f));
  }

  lemma MirrorsArrival(log: seq<Note>, events: seq<Event>, r: Request, peers: set<Fid>)
    requires Mirrors(log, events)
    ensures Mirrors(log + [Enqueued(r.fid, peers)], events + [Event.Arrival(r)])
  {
    MarksNext(log, Enqueued(r.fid, peers));
    RunMarksNext(events, Event.Arrival(r));
  }

  /** The allocation being waited for is the one the run committed. */
  lemma MirrorsCommit(log: seq<Note>, events: seq<Event>, f: Fid, remapped: set<Fid>)
    requires Mirrors(log, events) && Replay(log).Waiting? && Replay(log).fid == f
    ensures Mirrors(log + [Committed(f, remapped)], events + [Event.Commit])
  {
    MarksPaired(log);
    MarksNext(log, Committed(f, remapped));
    RunMarksNext(events, Event.Commit);
  }

  /** No allocation is under way. */
  ghost predicate Quiescent(b: Books, log: seq<Note>)
  {
    b.queue == [] && b.initiator.None? && b.drainQueue == map[] && b.drainInit == {} && Replay(log) == Idle
  }

  /** The queued allocation waits for the peers in the drain queue. */
  ghost predicate Draining(b: Books, s: State, q: Queued, log: seq<Note>)
  {
    && b.queue == [q.fid] && q.fid !in b.active && b.initiator == Some(q.fid)
    && b.drainQueue != map[] && b.drainQueue.Keys <= b.remaps.Keys && b.drainInit <= b.drainQueue.Keys
    && (forall f | f in b.drainQueue :: b.drainQueue[f] == b.remaps)
    && Reports(s.n, s.table, q.table, s.funcs, b.remaps)
    && Replay(log) == Waiting(q.fid, b.remaps.Keys, b.drainQueue.Keys)
  }

  /** What holds between any two handlers. */
  ghost predicate BooksOk(b: Books, s: State, log: seq<Note>)
  {
    && ActiveOk(b, s.table) && VersionsOk(b, log)
    && match s.pending
       case None => Quiescent(b, log)
       case Some(q) => Draining(b, s, q, log)
  }

  /** The queued allocation may be committed: nobody owes an acknowledgement. */
  ghost predicate Committable(b: Books, s: State, q: Queued, remaps: Remaps, log: seq<Note>)
  {
    && b.queue == [q.fid] && q.fid !in b.active && b.initiator == Some(q.fid)
    && ActiveOk(b, s.table) && VersionsOk(b, log)
    && Reports(s.n, s.table, q.table, s.funcs, remaps)
    && Replay(log) == Waiting(q.fid, remaps.Keys, {})
  }

  /** The books after the commit. */
  ghost predicate CommittedBooks(b: Books, q: Queued, remaps: Remaps, b': Books)
  {
    && b'.queue == RemoveFirst(b.queue, q.fid) && b'.active == b.active + [q.fid] && b'.initiator.None?
    && b'.drainQueue == b.drainQueue && b'.drainInit == b.drainInit && b'.remaps == b.remaps
    && b'.allocVersion.Keys == b.allocVersion.Keys + {q.fid} + remaps.Keys
    && forall f: Fid :: VersionOf(b', f) == VersionOf(b, f) + if f == q.fid || f in remaps then 1 else 0
  }

  /** A remapped program is a tenant. */
  lemma RemappedTenant(s: State, q: Queued, remaps: Remaps, f: Fid)
    requires Inv(s) && s.pending == Some(q) && Reports(s.n, s.table, q.table, s.funcs, remaps) && f in remaps
    ensures f in s.table.rev && f != q.fid
  {
    assert remaps[f] != map[];
    var i :| i in remaps[f];
    assert Listed(remaps, f, i);
    assert ReportedAt(s.n, s.table, q.table, s.funcs, remaps, f, i);
    assert IndexedAt(s.table, f);
    assert i in StagesOf(s.table.tenants, f);
  }

  /** A listed stage exists, and the program has blocks left there. */
  lemma RemappedBlocks(s: State, q: Queued, remaps: Remaps, f: Fid, i: nat)
    requires Inv(s) && s.pending == Some(q) && Reports(s.n, s.table, q.table, s.funcs, remaps) && Listed(remaps, f, i)
    ensures i < STAGES && remaps[f][i].next != []
  {
    assert ReportedAt(s.n, s.table, q.table, s.funcs, remaps, f, i);
    assert ExtendsAt(s.table, q.table, s.funcs, q.fid, i);
    TenantRange(s.n, q.table, s.funcs, f, i);
  }

  /** An admission only adds its own program to the tenants. */
  lemma CommittedTenants(s: State, q: Queued)
    requires Inv(s) && s.pending == Some(q)
    ensures q.table.rev.Keys == s.table.rev.Keys + {q.fid}
  {
    forall f: Fid ensures f in q.table.rev <==> f in s.table.rev || f == q.fid {
      assert IndexedAt(s.table, f) && IndexedAt(q.table, f);
      forall i: nat | i < STAGES
        ensures f != q.fid ==> (f in q.table.tenants[i] <==> f in s.table.tenants[i])
      {
        assert ExtendsAt(s.table, q.table, s.funcs, q.fid, i);
      }
      if f != q.fid {
        assert StagesOf(s.table.tenants, f) == StagesOf(q.table.tenants, f);
      }
    }
  }

  lemma CommitBooks(b: Books, s: State, q: Queued, remaps: Remaps, log: seq<Note>, b': Books, s': State)
    requires Inv(s) && s.pending == Some(q) && Committable(b, s, q, remaps, log)
    requires CommittedBooks(b, q, remaps, b') && Applies(s, s')
    ensures ActiveOk(b', s'.table) && VersionsOk(b', log + [Committed(q.fid, remaps.Keys)])
    ensures b'.queue == [] && Replay(log + [Committed(q.fid, remaps.Keys)]) == Idle
  {
    var e := Committed(q.fid, remaps.Keys);
    ReplayNext(log, e);
    CommittedTenants(s, q);
    assert forall x :: x in b'.active <==> x in b.active || x == q.fid;
    assert Elements(b'.active) == Elements(b.active) + {q.fid};
    forall f: Fid ensures VersionAt(b', log + [e], f) {
      VersionNext(log, e, f);
      assert VersionAt(b, log, f);
    }
  }

  /** Every remapped program's version has gone up by one. */
  ghost predicate VersionsRaised(versions: map<Fid, nat>, remaps: Remaps, versions': map<Fid, nat>)
  {
    && versions'.Keys == versions.Keys
    && forall f | f in versions :: versions'[f] == versions[f] + if f in remaps then 1 else 0
  }

  function RaisedVersion(versions: map<Fid, nat>, f: Fid): map<Fid, nat>
  {
    versions[f := (if f in versions then versions[f] else 0) + 1]
  }

  /** The books and the history after the commit that takes the allocator from s to s'. */
  ghost predicate BookedAs(b: Books, s: State, s': State, remaps: Remaps, b': Books, log: seq<Note>, log': seq<Note>)
  {
    && s.pending.Some? && CommittedBooks(b, s.pending.value, remaps, b')
    && ActiveOk(b', s'.table) && VersionsOk(b', log') && b'.queue == [] && Replay(log') == Idle
    && log' == log + [Committed(s.pending.value.fid, remaps.Keys)]
  }

  lemma BookedOk(b: Books, s: State, s': State, remaps: Remaps, log: seq<Note>, versions: map<Fid, nat>, b': Books)
    requires Inv(s) && s.pending.Some? && Committable(b, s, s.pending.value, remaps, log) && Applies(s, s')
    requires VersionsRaised(b.allocVersion, remaps, versions)
    requires var fid := s.pending.value.fid;
             b' == b.(queue := RemoveFirst(b.queue, fid), active := b.active + [fid], initiator := None,
                      allocVersion := RaisedVersion(versions, fid))
    ensures BookedAs(b, s, s', remaps, b', log, log + [Committed(s.pending.value.fid, remaps.Keys)])
  {
    var q := s.pending.value;
    forall f | f in remaps ensures f in b.allocVersion && f != q.fid {
      RemappedTenant(s, q, remaps, f);
      assert f in Elements(b.active);
    }
    CommitBooks(b, s, q, remaps, log, b', s');
  }

  /** Once nobody is left in the drain queue the books are in order after a commit. */
  lemma BookedSettles(b: Books, s: State, s': State, remaps: Remaps, b': Books, log: seq<Note>, log': seq<Note>, b'': Books)
    requires Applies(s, s') && BookedAs(b, s, s', remaps, b', log, log')
    requires b'' == b'.(drainQueue := map[], drainInit := {})
    ensures BooksOk(b'', s', log')
  {
    forall f: Fid ensures VersionAt(b'', log', f) {
      assert VersionAt(b', log', f);
    }
  }

  /** Notes other than commits leave the versions alone. */
  lemma VersionsKept(b: Books, log: seq<Note>, e: Note, b': Books)
    requires VersionsOk(b, log) && !e.Committed?
    requires b'.allocVersion == b.allocVersion && b'.active == b.active
    ensures VersionsOk(b', log + [e])
  {
    forall f: Fid ensures VersionAt(b', log + [e], f) {
      VersionNext(log, e, f);
      assert VersionAt(b, log, f);
    }
  }

  // ---- runs the controller drives -------------------------------------------------------

  lemma StartRun(s: State)
    requires Initial(s)
    ensures Run([s], [])
  {
  }

  lemma ExtendRun(states: seq<State>, events: seq<Event>, e: Event, s': State)
    requires Run(states, events) && Next(states[|states| - 1], e, s')
    ensures Run(states + [s'], events + [e])
  {
    hide Next, Initial;
    var states', events' := states + [s'], events + [e];
    forall k | 0 <= k < |events'| ensures StepAt(states', events', k) {
      if k < |events| {
        assert StepAt(states, events, k);
      }
    }
  }

  // ---- installed ranges -----------------------------------------------------------------

  /** The ranges of a stage once the programs in `done` have been given their new ones. */
  ghost function Rewritten(ranges: map<Fid, Range>, remaps: Remaps, i: nat, done: set<Fid>): map<Fid, Range>
    requires done <= ListedOn(remaps, i) && RemapsFit(remaps)
  {
    ranges + map f | f in done :: NextRange(remaps, f, i)
  }

  ghost function NextRange(remaps: Remaps, f: Fid, i: nat): Range
    requires Listed(remaps, f, i) && RemapsFit(remaps)
  {
    RangeOf(remaps[f][i].next)
  }

  function ListedOn(remaps: Remaps, i: nat): set<Fid>
  {
    set f | f in remaps && i in remaps[f]
  }

  /** Every listed stage exists and leaves its program some blocks. */
  ghost predicate RemapsFit(remaps: Remaps)
  {
    forall f, i: nat | Listed(remaps, f, i) :: i < STAGES && remaps[f][i].next != []
  }

  ghost predicate BlocksFit(blocks: map<nat, seq<nat>>)
  {
    forall i | i in blocks :: i < STAGES && blocks[i] != []
  }

  /** The ranges after the peers' were rewritten. */
  ghost function PeerRanges(ranges: Ranges, remaps: Remaps): Ranges
    requires RemapsFit(remaps)
  {
    seq(|ranges|, i requires 0 <= i < |ranges| => Rewritten(ranges[i], remaps, i, ListedOn(remaps, i)))
  }

  ghost function OwnRange(ranges: map<Fid, Range>, blocks: map<nat, seq<nat>>, fid: Fid, i: nat): map<Fid, Range>
    requires BlocksFit(blocks)
  {
    if i in blocks then ranges[fid := RangeOf(blocks[i])] else ranges
  }

  /** The ranges after the admitted program's were added. */
  ghost function OwnRanges(ranges: Ranges, blocks: map<nat, seq<nat>>, fid: Fid): Ranges
    requires BlocksFit(blocks)
  {
    seq(|ranges|, i requires 0 <= i < |ranges| => OwnRange(ranges[i], blocks, fid, i))
  }

  /** From the first to the last block of the list. */
  predicate Spans(b: Range, blocks: seq<nat>)
  {
    blocks != [] && b.first == blocks[0] && b.last == blocks[|blocks| - 1]
  }

  /** The listed programs get the spans of their new blocks, and the others keep their ranges. */
  ghost predicate PeersSpan(ranges: map<Fid, Range>, remaps: Remaps, i: nat, ranges': map<Fid, Range>)
  {
    forall f: Fid :: if Listed(remaps, f, i) then f in ranges' && Spans(ranges'[f], remaps[f][i].next)
                     else (f in ranges' <==> f in ranges) && (f in ranges ==> ranges'[f] == ranges[f])
  }

  lemma PeerRangesSpan(ranges: Ranges, remaps: Remaps)
    requires RemapsFit(remaps)
    ensures |PeerRanges(ranges, remaps)| == |ranges|
    ensures forall i | 0 <= i < |ranges| :: PeersSpan(ranges[i], remaps, i, PeerRanges(ranges, remaps)[i])
  {
  }

  /** So does the admitted program, where it has blocks. */
  ghost predicate AllSpan(ranges: map<Fid, Range>, remaps: Remaps, blocks: map<nat, seq<nat>>, fid: Fid, i: nat,
                          ranges': map<Fid, Range>)
  {
    && (forall f: Fid | f != fid :: if Listed(remaps, f, i) then f in ranges' && Spans(ranges'[f], remaps[f][i].next)
                                    else (f in ranges' <==> f in ranges) && (f in ranges ==> ranges'[f] == ranges[f]))
    && (fid in ranges' <==> i in blocks) && (i in blocks ==> Spans(ranges'[fid], blocks[i]))
  }

  lemma OwnRangesSpan(ranges: Ranges, remaps: Remaps, blocks: map<nat, seq<nat>>, fid: Fid)
    requires RemapsFit(remaps) && BlocksFit(blocks) && fid !in remaps && forall i | 0 <= i < |ranges| :: fid !in ranges[i]
    ensures |OwnRanges(PeerRanges(ranges, remaps), blocks, fid)| == |ranges|
    ensures forall i | 0 <= i < |ranges| ::
              AllSpan(ranges[i], remaps, blocks, fid, i, OwnRanges(PeerRanges(ranges, remaps), blocks, fid)[i])
  {
  }

  /** The blocks of program fid in every column where it has some. */
  ghost predicate BlocksAre(blocks: map<nat, seq<nat>>, cols: seq<seq<Fid>>, fid: Fid)
    requires |cols| == STAGES
  {
    && (forall i: nat :: i in blocks <==> i < STAGES && BlockList(cols[i], fid) != [])
    && (forall i: nat | i in blocks :: i < STAGES && blocks[i] == BlockList(cols[i], fid))
  }

  /** Rewriting the peers' ranges and adding the admitted program's is what a commit installs. */
  lemma CommitInstalls(s: State, q: Queued, remaps: Remaps, ranges: Ranges, blocks: map<nat, seq<nat>>)
    requires Inv(s) && s.pending == Some(q) && Reports(s.n, s.table, q.table, s.funcs, remaps) && q.fid != 0
    requires |ranges| == STAGES && RemapsFit(remaps) && BlocksAre(blocks, q.table.cols, q.fid) && BlocksFit(blocks)
    ensures Installs(ranges, q.table, remaps, q.fid, OwnRanges(PeerRanges(ranges, remaps), blocks, q.fid))
  {
    var ranges' := OwnRanges(PeerRanges(ranges, remaps), blocks, q.fid);
    forall i, f: Fid | 0 <= i < STAGES ensures InstalledFor(ranges, q.table, remaps, q.fid, ranges', i, f) {
      if q.fid in remaps {
        RemappedTenant(s, q, remaps, q.fid);
      }
      assert ColumnAt(s.n, q.table, s.funcs, i);
      if q.fid in q.table.tenants[i] {
        TenantRange(s.n, q.table, s.funcs, q.fid, i);
      } else {
        NoBlocks(s.n, q.table, s.funcs, q.fid, i);
      }
    }
  }

  /** A program that is no tenant of a stage has no blocks there. */
  lemma NoBlocks(n: nat, t: Table, funcs: map<Fid, App>, f: Fid, i: nat)
    requires TableOk(n, t, funcs) && i < STAGES && f !in t.tenants[i] && f != 0
    ensures BlockList(t.cols[i], f) == []
  {
    assert ColumnAt(n, t, funcs, i);
    BlockListMembers(t.cols[i], f);
    MemberOrEmpty(BlockList(t.cols[i], f));
    assert f !in DemandsAt(t, funcs, i);
  }

  // ---- facts the handlers need ----------------------------------------------------------

  lemma QueuedNonZero(s: State, q: Queued)
    requires Inv(s) && s.pending == Some(q)
    ensures q.fid != 0
  {
    TenantNonZero(State(s.n, q.table, s.offset, s.frags, s.funcs, None), q.fid);
  }

  lemma CommitFacts(b: Books, s: State, q: Queued, remaps: Remaps, log: seq<Note>, ranges: Ranges)
    requires Inv(s) && s.pending == Some(q) && Committable(b, s, q, remaps, log) && Contained(s.table, ranges)
    ensures RemapsFit(remaps) && remaps.Keys <= b.allocVersion.Keys && q.fid !in remaps && q.fid != 0
    ensures forall i | 0 <= i < STAGES :: q.fid !in ranges[i]
  {
    QueuedNonZero(s, q);
    forall f, i: nat | Listed(remaps, f, i) ensures i < STAGES && remaps[f][i].next != [] {
      RemappedBlocks(s, q, remaps, f, i);
    }
    forall f | f in remaps ensures f in b.allocVersion && f != q.fid {
      RemappedTenant(s, q, remaps, f);
      assert f in Elements(b.active);
    }
    forall i | 0 <= i < STAGES ensures q.fid !in ranges[i] {
      assert ContainedAt(s.table, ranges, i);
      Absent(s.table, q.fid, i);
    }
  }

  lemma CommitRanges(s: State, q: Queued, remaps: Remaps, ranges: Ranges, blocks: map<nat, seq<nat>>)
    requires Inv(s) && s.pending == Some(q) && Reports(s.n, s.table, q.table, s.funcs, remaps)
    requires Contained(s.table, ranges) && RemapsFit(remaps) && BlocksFit(blocks)
    requires |q.table.cols| == STAGES && BlocksAre(blocks, q.table.cols, q.fid)
    ensures Contained(q.table, OwnRanges(PeerRanges(ranges, remaps), blocks, q.fid))
    ensures Reinstalled(ranges, q.table, remaps, q.fid, OwnRanges(PeerRanges(ranges, remaps), blocks, q.fid))
  {
    QueuedNonZero(s, q);
    CommitInstalls(s, q, remaps, ranges, blocks);
    CommitContained(s, q, remaps, ranges, OwnRanges(PeerRanges(ranges, remaps), blocks, q.fid));
  }

  /** With an empty queue nothing is pending, and only active programs are known to the allocator. */
  lemma IdleFacts(b: Books, s: State, log: seq<Note>)
    requires Inv(s) && BooksOk(b, s, log) && b.queue == []
    ensures s.pending.None? && b.initiator.None? && b.drainQueue == map[] && b.drainInit == {}
    ensures Replay(log) == Idle && forall f: Fid :: f in s.funcs <==> f in b.active
  {
    forall f: Fid ensures f in s.funcs <==> f in b.active {
      assert f in Elements(b.active) <==> f in b.active;
    }
  }

  /** With a non-empty queue an allocation waits for peers. */
  lemma WaitFacts(b: Books, s: State, log: seq<Note>)
    requires BooksOk(b, s, log) && b.queue != []
    ensures s.pending.Some? && b.initiator == Some(s.pending.value.fid)
    ensures b.drainQueue.Keys <= b.remaps.Keys && b.drainInit <= b.remaps.Keys
  {
  }

  /** Naming a new program does not disturb the current table. */
  lemma KnownTableOk(s: State, r: Request)
    requires Inv(s) && s.pending.None? && RequestOk(s, r)
    ensures TableOk(s.n, s.table, NewFuncs(s.funcs, r))
  {
    forall i | 0 <= i < STAGES ensures ColumnAt(s.n, s.table, NewFuncs(s.funcs, r), i) {
      NewDemands(s.table, s.funcs, r, i);
      assert ColumnAt(s.n, s.table, s.funcs, i);
    }
    forall f: Fid ensures HasAppAt(s.table, NewFuncs(s.funcs, r), f) {
      assert HasAppAt(s.table, s.funcs, f);
    }
  }

  /** Queuing an allocation whose report lists some peers starts a drain. */
  lemma DrainStarts(b: Books, s: State, log: seq<Note>, r: Request, s': State, remaps: Remaps, b': Books)
    requires Inv(s) && s.pending.None? && RequestOk(s, r) && BooksOk(b, s, log) && Enqueues(s, r, s')
    requires Reports(s'.n, s'.table, s'.pending.value.table, s'.funcs, remaps)
    requires b'.queue == [r.fid] && b'.active == b.active && b'.allocVersion == b.allocVersion
    requires b'.initiator == Some(r.fid)
    ensures s'.pending.Some? && s'.pending.value.fid == r.fid
    ensures remaps == map[] ==> Committable(b', s', s'.pending.value, remaps, log + [Enqueued(r.fid, {})])
    ensures (remaps != map[] && b'.remaps == remaps && b'.drainQueue == (map f | f in remaps :: remaps)
             && b'.drainInit == remaps.Keys) ==> BooksOk(b', s', log + [Enqueued(r.fid, remaps.Keys)])
  {
    ReplayNext(log, Enqueued(r.fid, remaps.Keys));
    VersionsKept(b, log, Enqueued(r.fid, remaps.Keys), b');
    assert r.fid !in Elements(b.active);
    if remaps != map[] {
      var f :| f in remaps;
      assert f in (map f | f in remaps :: remaps);
    } else {
      assert remaps.Keys == {};
    }
  }

  lemma SingleKey<V>(m: map<Fid, V>, f: Fid)
    requires f in m
    ensures |m| == 1 <==> m.Keys == {f}
  {
    var rest := m.Keys - {f};
    assert m.Keys == rest + {f};
    assert |m.Keys| == |rest| + 1;
    assert |m| == |m.Keys|;
  }

  /** A peer in the drain queue waits for the allocation of the initiator. */
  lemma DrainFacts(b: Books, s: State, log: seq<Note>, f: Fid)
    requires BooksOk(b, s, log) && f in b.drainQueue
    ensures s.pending.Some? && b.initiator == Some(s.pending.value.fid) && b.drainQueue[f] == b.remaps
    ensures b.drainInit <= b.drainQueue.Keys && b.queue == [s.pending.value.fid]
  {
  }

  /** A peer acknowledges. */
  lemma AckNoted(b: Books, s: State, q: Queued, log: seq<Note>, f: Fid, b': Books)
    requires Inv(s) && s.pending == Some(q) && BooksOk(b, s, log) && f in b.drainQueue
    requires b'.queue == b.queue && b'.active == b.active && b'.allocVersion == b.allocVersion
    requires b'.initiator == b.initiator && b'.remaps == b.remaps
    ensures b.drainQueue.Keys == {f} ==> Committable(b', s, q, b.remaps, log + [Acked(f)])
    ensures (b.drainQueue.Keys != {f} && b'.drainQueue == b.drainQueue - {f} && b'.drainInit == b.drainInit - {f})
            ==> BooksOk(b', s, log + [Acked(f)])
  {
    ReplayNext(log, Acked(f));
    VersionsKept(b, log, Acked(f), b');
    assert b.drainQueue.Keys == {f} ==> b.drainQueue.Keys - {f} == {};
    if b.drainQueue.Keys != {f} {
      var g :| g in b.drainQueue.Keys && g != f;
      assert g in b.drainQueue - {f};
    }
  }

  /** Peer f starts its snapshot. */
  lemma InitNoted(b: Books, s: State, log: seq<Note>, f: Fid, b': Books)
    requires BooksOk(b, s, log) && b' == b.(drainInit := b.drainInit - {f})
    ensures BooksOk(b', s, log)
  {
    forall g: Fid ensures VersionAt(b', log, g) {
      assert VersionAt(b, log, g);
    }
  }

  /** The controller gives up waiting. */
  lemma TimeoutNoted(b: Books, s: State, q: Queued, log: seq<Note>, b': Books)
    requires Inv(s) && s.pending == Some(q) && BooksOk(b, s, log)
    requires b'.queue == b.queue && b'.active == b.active && b'.allocVersion == b.allocVersion
    requires b'.initiator == b.initiator && b'.remaps == b.remaps
    ensures Committable(b', s, q, b.remaps, log + [TimedOut])
  {
    ReplayNext(log, TimedOut);
    VersionsKept(b, log, TimedOut, b');
  }

  /** A program leaves. */
  lemma ReleasedBooks(b: Books, s: State, log: seq<Note>, f: Fid, s': State, b': Books)
    requires Inv(s) && s.pending.None? && BooksOk(b, s, log) && Departs(s, f, s')
    requires b' == b.(active := RemoveFirst(b.active, f))
    ensures BooksOk(b', s', log)
  {
    RemoveFirstOk(b.active, f);
    assert Elements(b'.active) == Elements(b.active) - {f};
    forall g: Fid ensures VersionAt(b', log, g) {
      assert VersionAt(b, log, g);
    }
  }
}
