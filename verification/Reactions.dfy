/** What the controller does about everything that happens to it: each signal with its one admissible effect
    on the allocator, the books, the match tables and the history. */
module Reactions {
  import opened Dimensions
  import opened Columns
  import opened Wrappers
  import opened AllocatorModel
  import opened Ranking
  import opened Admission
  import opened Isolation
  import opened SwitchTables
  import opened DrainLog
  import opened ControllerModel

  /** The controller between two handlers: the allocator's state, the books, the match tables with the
      ranges they stand for, and what has happened so far. */
  datatype View = View(state: State, books: Books, tables: seq<seq<Entry>>, installed: Ranges, halted: bool,
                       log: seq<Note>, states: seq<State>, events: seq<Event>)

  /** A malloc digest asking for memory, with the placements enumerated for it, or giving it back; a remap
      digest; or the end of the wait for the remapped peers. */
  datatype Signal =
    | Malloc(fid: Fid, minDemand: seq<nat>, enumeration: seq<seq<nat>>)
    | Free(fid: Fid)
    | Digest(fid: Fid, isRemap: bool, isAck: bool, isInitiated: bool)
    | Timeout

  ghost predicate SignalOk(signal: Signal)
  {
    match signal
    case Malloc(fid, minDemand, enumeration) =>
      && (forall j | 0 <= j < |enumeration| :: WellFormed(Request(fid, minDemand, enumeration[j])))
      && forall j | 0 <= j < |minDemand| :: 1 <= minDemand[j]
    case _ => true
  }

  /** The allocator takes a step, which is entered in its run and, unless it is a departure, in the history. */
  function Stepped(v: View, e: Event, s': State, notes: seq<Note>): View
  {
    v.(state := s', states := v.states + [s'], events := v.events + [e], log := v.log + notes)
  }

  // ---- what handlers do -----------------------------------------------------------------

  /** The queued allocation becomes current; the admitted and the remapped programs get ranges that cover
      exactly their blocks, and higher versions; everybody else keeps range and version. */
  ghost predicate CommitStep(v: View, remaps: Remaps, v': View)
  {
    && v.state.pending.Some? && Applies(v.state, v'.state)
    && var q := v.state.pending.value;
    && CommittedBooks(v.books, q, remaps, v'.books)
    && Reinstalled(v.installed, q.table, remaps, q.fid, v'.installed)
    && v' == Stepped(v, Commit, v'.state, [Committed(q.fid, remaps.Keys)])
               .(books := v'.books, tables := v'.tables, installed := v'.installed)
  }

  /** The allocation for request r is queued, and its remapped peers are entered as owing a snapshot. */
  ghost predicate QueueStep(v: View, r: Request, remaps: Remaps, v': View)
  {
    && Next(v.state, Arrival(r), v'.state) && v'.state.pending.Some?
    && Reports(v'.state.n, v'.state.table, v'.state.pending.value.table, v'.state.funcs, remaps)
    && v' == Stepped(v, Arrival(r), v'.state, [Enqueued(r.fid, remaps.Keys)])
               .(books := v.books.(queue := [r.fid], initiator := Some(r.fid),
                                   remaps := if remaps == map[] then v.books.remaps else remaps,
                                   drainQueue := map f | f in remaps :: remaps, drainInit := remaps.Keys))
  }

  /** An accepted request: queued, and committed at once if nobody has to be waited for. */
  ghost predicate Begins(v: View, r: Request, v': View)
  {
    exists remaps: Remaps, mid: View ::
      QueueStep(v, r, remaps, mid) && if remaps == map[] then CommitStep(mid, remaps, v') else v' == mid
  }

  /** A stage cannot be laid out: the monitor dies in the middle of the request, with tables and current
      allocation as they were. */
  ghost predicate Dies(v: View, r: Request, v': View)
  {
    && v'.state.n == v.state.n && v'.state.table == v.state.table
    && v' == v.(state := v'.state, books := v.books.(queue := [r.fid]), halted := true)
  }

  /** Peer f has stored its snapshot; the last one has the allocation committed. */
  ghost predicate Acks(v: View, f: Fid, v': View)
  {
    var mid := v.(log := v.log + [Acked(f)],
                  books := v.books.(drainQueue := v.books.drainQueue - {f}, drainInit := v.books.drainInit - {f}));
    if v.books.drainQueue.Keys == {f} then CommitStep(mid, v.books.remaps, v') else v' == mid
  }

  /** The peers still owed are forgotten and the allocation is committed. */
  ghost predicate GivesUp(v: View, v': View)
  {
    CommitStep(v.(log := v.log + [TimedOut], books := v.books.(drainQueue := map[], drainInit := {})), v.books.remaps, v')
  }

  /** An active program leaves. */
  ghost predicate Releases(v: View, f: Fid, v': View)
  {
    && Departs(v.state, f, v'.state)
    && v' == Stepped(v, Departure(f), v'.state, [])
               .(books := v.books.(active := RemoveFirst(v.books.active, f)), tables := v'.tables,
                 installed := Uninstall(v.installed, f))
  }

  // ---- which handler answers ------------------------------------------------------------

  /** The monitor takes the next request: it is alive and no allocation is under way. */
  predicate Takes(v: View)
  {
    !v.halted && v.books.queue == []
  }

  /** The answer to a signal. Whatever no case speaks of changes nothing. */
  ghost predicate Answers(policy: Policy, v: View, signal: Signal, v': View)
  {
    match signal
    case Malloc(fid, minDemand, enumeration) =>
      if Takes(v) && fid !in v.books.active && Admissible(v.state, fid, minDemand, enumeration) then
        exists r: Request :: SettlesOn(v.state, policy, fid, minDemand, enumeration, r)
          && if AllPlaceable(v.state, r) then Begins(v, r, v') else Dies(v, r, v')
      else v' == v
    case Free(fid) =>
      if Takes(v) && fid in v.books.active then Releases(v, fid, v') else v' == v
    case Digest(fid, isRemap, isAck, isInitiated) =>
      if isRemap && isAck && fid in v.books.drainQueue then Acks(v, fid, v')
      else if isRemap && isInitiated then v' == v.(books := v.books.(drainInit := v.books.drainInit - {fid}))
      else v' == v
    case Timeout =>
      if !v.halted && v.books.queue != [] then GivesUp(v, v') else v' == v
  }

  ghost predicate AnswersAt(policy: Policy, views: seq<View>, signals: seq<Signal>, k: nat)
    requires k < |signals| && |views| == |signals| + 1
  {
    Answers(policy, views[k], signals[k], views[k + 1])
  }

  /** Every signal is answered, in order. */
  ghost predicate AnswersAll(policy: Policy, views: seq<View>, signals: seq<Signal>)
  {
    |views| == |signals| + 1 && forall k | 0 <= k < |signals| :: AnswersAt(policy, views, signals, k)
  }

  // ---- putting steps together -----------------------------------------------------------

  /** What is left in the drain queue does not matter to a commit. */
  lemma CommitsDropped(v: View, remaps: Remaps, v': View)
    requires CommitStep(v, remaps, v')
    ensures CommitStep(v.(books := v.books.(drainQueue := map[])), remaps, v'.(books := v'.books.(drainQueue := map[])))
  {
    hide Applies, Reinstalled;
    var b, b' := v.books.(drainQueue := map[]), v'.books.(drainQueue := map[]);
    assert forall f: Fid :: VersionOf(b', f) == VersionOf(v'.books, f) && VersionOf(b, f) == VersionOf(v.books, f);
  }

  lemma BeginsAtOnce(v: View, r: Request, mid: View, v': View)
    requires QueueStep(v, r, map[], mid) && CommitStep(mid, map[], v')
    ensures Begins(v, r, v')
  {
    hide QueueStep, CommitStep;
    var remaps: Remaps := map[];
  }

  lemma BeginsDrain(v: View, r: Request, remaps: Remaps, v': View)
    requires QueueStep(v, r, remaps, v') && remaps != map[]
    ensures Begins(v, r, v')
  {
    hide QueueStep, CommitStep;
  }

  lemma AnswersNext(policy: Policy, views: seq<View>, signals: seq<Signal>, signal: Signal, v': View)
    requires AnswersAll(policy, views, signals) && Answers(policy, views[|signals|], signal, v')
    ensures AnswersAll(policy, views + [v'], signals + [signal])
  {
    hide Answers;
    var views', signals' := views + [v'], signals + [signal];
    forall k | 0 <= k < |signals'| ensures AnswersAt(policy, views', signals', k) {
      if k < |signals| {
        assert AnswersAt(policy, views, signals, k);
      }
    }
  }

  /** With nobody remapped, queuing only names the program. */
  lemma QueuesNow(v: View, r: Request, v': View)
    requires Next(v.state, Arrival(r), v'.state) && v'.state.pending.Some? && v.books.drainQueue == map[] && v.books.drainInit == {}
    requires Reports(v'.state.n, v'.state.table, v'.state.pending.value.table, v'.state.funcs, map[])
    requires v' == Stepped(v, Arrival(r), v'.state, [Enqueued(r.fid, {})])
                     .(books := v.books.(queue := [r.fid], initiator := Some(r.fid)))
    ensures QueueStep(v, r, map[], v')
  {
    hide Next, Reports;
    var remaps: Remaps := map[];
    assert (map f | f in remaps :: remaps) == map[] && remaps.Keys == {};
  }

  lemma QueuesPeers(v: View, r: Request, remaps: Remaps, v': View)
    requires Next(v.state, Arrival(r), v'.state) && v'.state.pending.Some? && remaps != map[]
    requires Reports(v'.state.n, v'.state.table, v'.state.pending.value.table, v'.state.funcs, remaps)
    requires v' == Stepped(v, Arrival(r), v'.state, [Enqueued(r.fid, remaps.Keys)])
                     .(books := v.books.(queue := [r.fid], initiator := Some(r.fid), remaps := remaps,
                                         drainQueue := map f | f in remaps :: remaps, drainInit := remaps.Keys))
    ensures QueueStep(v, r, remaps, v')
  {
    hide Next, Reports;
  }

  /** A snapshot counts the same whether or not its start was noted before. */
  lemma AcksInitiated(v: View, f: Fid, v1: View, v': View)
    requires v1 == v || v1 == v.(books := v.books.(drainInit := v.books.drainInit - {f}))
    requires Acks(v1, f, v')
    ensures Acks(v, f, v')
  {
    hide CommitStep;
    assert v.books.drainInit - {f} - {f} == v.books.drainInit - {f};
  }
}
