/** The event loop that drives the allocator through a workload of arrivals and departures. */
module Simulations {
  import opened Columns
  import Ordered
  import opened Wrappers
  import opened AllocatorModel
  import opened Admission
  import opened Ranking
  import opened Allocators

  /** An event of the workload: a program arrives with the placements enumerated for it, or leaves. */
  datatype Work =
    | Arrives(fid: Fid, minDemand: seq<nat>, enumeration: seq<seq<nat>>)
    | Leaves(fid: Fid)

  /** What became of an event: the stages allocated to an arrival, none for a failed one; and whether the
      loop died while laying the arrival out. */
  datatype Outcome = Allocated(stages: seq<nat>) | Failed | Left | Died

  /** The programs present after a workload, whether or not they got memory. */
  function Present(work: seq<Work>): set<Fid>
  {
    if work == [] then {} else
      var last := work[|work| - 1];
      if last.Arrives? then Present(work[..|work| - 1]) + {last.fid} else Present(work[..|work| - 1]) - {last.fid}
  }

  ghost predicate WorkAt(work: seq<Work>, k: nat)
    requires k < |work|
  {
    match work[k]
    case Arrives(fid, minDemand, enumeration) =>
      && fid !in Present(work[..k])
      && (forall j | 0 <= j < |enumeration| :: WellFormed(Request(fid, minDemand, enumeration[j])))
      && forall j | 0 <= j < |minDemand| :: 1 <= minDemand[j]
    case Leaves(fid) => fid in Present(work[..k])
  }

  /** Programs arrive once before they leave, and leave only when present. */
  ghost predicate WorkloadOk(work: seq<Work>)
  {
    forall k | 0 <= k < |work| :: WorkAt(work, k)
  }

  /** The search settles on the request, and some stage of it cannot be laid out. */
  ghost predicate Unplaceable(policy: Policy, s: State, w: Work, r: Request)
    requires w.Arrives?
  {
    SettlesOn(s, policy, w.fid, w.minDemand, w.enumeration, r) && !AllPlaceable(s, r)
  }

  lemma ServesNone(policy: Policy, s: State, w: Work, s': State)
    requires w.Arrives? && !Admissible(s, w.fid, w.minDemand, w.enumeration) && s' == s
    ensures Serves(policy, s, w, Failed, s')
  {
  }

  lemma ServesChoice(policy: Policy, s: State, w: Work, stages: seq<nat>, o: Outcome, s': State)
    requires w.Arrives? && stages in w.enumeration
    requires var r := Request(w.fid, w.minDemand, stages);
             && SettlesOn(s, policy, w.fid, w.minDemand, w.enumeration, r)
             && o == (if AllPlaceable(s, r) then Allocated(stages) else Died)
             && (o.Allocated? ==> exists mid :: Next(s, Event.Arrival(r), mid) && Next(mid, Event.Commit, s'))
    ensures Serves(policy, s, w, o, s')
  {
    hide SettlesOn, AllPlaceable, Next;
    assert o.Died? ==> Unplaceable(policy, s, w, Request(w.fid, w.minDemand, stages));
  }

  /** What one event does to the allocator. The loop dies only of a placement enumerated for the arrival. */
  ghost predicate Serves(policy: Policy, s: State, w: Work, o: Outcome, s': State)
  {
    match o
    case Allocated(stages) =>
      && w.Arrives? && stages in w.enumeration
      && var r := Request(w.fid, w.minDemand, stages);
      && SettlesOn(s, policy, w.fid, w.minDemand, w.enumeration, r)
      && exists mid :: Next(s, Event.Arrival(r), mid) && Next(mid, Event.Commit, s')
    case Failed => w.Arrives? && !Admissible(s, w.fid, w.minDemand, w.enumeration) && s' == s
    case Left => w.Leaves? && if w.fid in s.funcs then Departs(s, w.fid, s') else s' == s
    case Died => w.Arrives? && exists stages :: stages in w.enumeration && Unplaceable(policy, s, w, Request(w.fid, w.minDemand, stages))
  }

  ghost predicate ServesAt(policy: Policy, states: seq<State>, work: seq<Work>, outcomes: seq<Outcome>, k: nat)
    requires k < |outcomes| <= |work| && |outcomes| < |states|
  {
    Serves(policy, states[k], work[k], outcomes[k], states[k + 1])
  }

  ghost predicate ServesAll(policy: Policy, states: seq<State>, work: seq<Work>, outcomes: seq<Outcome>)
  {
    && |states| == |outcomes| + 1 && |outcomes| <= |work|
    && forall k | 0 <= k < |outcomes| :: ServesAt(policy, states, work, outcomes, k)
  }

  /** Between events nothing is pending and the state is well formed. */
  lemma ServesOk(policy: Policy, s: State, w: Work, o: Outcome, s': State)
    requires Inv(s) && s.pending.None? && Serves(policy, s, w, o, s') && o != Died
    ensures Inv(s') && s'.pending.None? && (o.Left? <==> w.Leaves?)
    ensures s'.funcs.Keys == if o.Allocated? then s.funcs.Keys + {w.fid} else if o.Left? then s.funcs.Keys - {w.fid} else s.funcs.Keys
  {
    match o
    case Allocated(stages) =>
      var r := Request(w.fid, w.minDemand, stages);
      var mid :| Next(s, Event.Arrival(r), mid) && Next(mid, Event.Commit, s');
      NextOk(s, Event.Arrival(r), mid);
      NextOk(mid, Event.Commit, s');
    case Failed =>
    case Left =>
      if w.fid in s.funcs {
        DepartsOk(s, w.fid, s');
      }
    case Died =>
  }

  lemma ServesNext(policy: Policy, states: seq<State>, work: seq<Work>, outcomes: seq<Outcome>, o: Outcome, s': State)
    requires ServesAll(policy, states, work, outcomes) && |outcomes| < |work|
    requires Serves(policy, states[|outcomes|], work[|outcomes|], o, s')
    ensures ServesAll(policy, states + [s'], work, outcomes + [o])
  {
    var states', outcomes' := states + [s'], outcomes + [o];
    forall k | 0 <= k < |outcomes'| ensures ServesAt(policy, states', work, outcomes', k) {
      if k < |outcomes| {
        assert ServesAt(policy, states, work, outcomes, k);
      }
    }
  }

  class Simulation {
    const allocator: Allocator

    constructor (allocator: Allocator)
      ensures this.allocator == allocator
    {
      this.allocator := allocator;
    }

    ghost function Ranked(): Policy
    {
      Policy(allocator.metric, allocator.optimize, allocator.minimize)
    }

    /** Processes an arrival. */
    method Arrive(fid: Fid, minDemand: seq<nat>, enumeration: seq<seq<nat>>) returns (o: Outcome)
      requires allocator.Valid() && allocator.Abs().pending.None? && fid !in allocator.activeFuncs
      requires forall j | 0 <= j < |enumeration| :: WellFormed(Request(fid, minDemand, enumeration[j]))
      requires forall j | 0 <= j < |minDemand| :: 1 <= minDemand[j]
      modifies allocator
      ensures Serves(Ranked(), old(allocator.Abs()), Arrives(fid, minDemand, enumeration), o, allocator.Abs()) && !o.Left?
      ensures !o.Died? ==> allocator.Valid()
      ensures allocator.allocationMatrix == old(allocator.allocationMatrix) || fresh(allocator.allocationMatrix)
    {
      hide Inv, CandidateCosts, Candidate, Accepted, Admissible, AllPlaceable, Reports, SettlesOn, Serves, WellFormed, Next, NewFuncs;
      ghost var s := allocator.Abs();
      var optimal, newUsed, newMap := allocator.ComputeAllocation(fid, minDemand, enumeration);
      SearchAdmits(s, allocator.metric, fid, minDemand, enumeration);
      if optimal.None? {
        ServesNone(Ranked(), s, Arrives(fid, minDemand, enumeration), allocator.Abs());
        return Failed;
      }
      ghost var r := Request(fid, minDemand, optimal.value);
      ChoiceSettles(s, Ranked(), fid, minDemand, enumeration, optimal.value);
      o := Settle(optimal.value, newUsed, newMap, s, r);
      ServesChoice(Ranked(), s, Arrives(fid, minDemand, enumeration), optimal.value, o, allocator.Abs());
    }

    /** Queues and applies the allocation chosen for request r in state s. */
    method Settle(stages: seq<nat>, newUsed: set<nat>, newMap: seq<set<Fid>>, ghost s: State, ghost r: Request)
      returns (o: Outcome)
      requires allocator.Chosen(s, r) && Accepted(s, r) && stages == r.stages
      requires newMap == NewTenants(s.table.tenants, r) && newUsed == s.table.used + Ordered.Elements(stages)
      modifies allocator
      ensures o == if AllPlaceable(s, r) then Allocated(stages) else Died
      ensures o.Allocated? ==> exists mid :: Next(s, Event.Arrival(r), mid) && Next(mid, Event.Commit, allocator.Abs())
      ensures o.Allocated? ==> allocator.Valid()
      ensures allocator.allocationMatrix == old(allocator.allocationMatrix) || fresh(allocator.allocationMatrix)
    {
      hide Inv, Accepted, AllPlaceable, Reports, Enqueues, RequestOk;
      var ok, remaps := allocator.EnqueueAllocation(newUsed, newMap, s, r);
      if !ok {
        return Died;
      }
      ghost var mid := allocator.Abs();
      var applied := allocator.ApplyQueuedAllocation();
      assert Next(s, Event.Arrival(r), mid) && Next(mid, Event.Commit, allocator.Abs());
      o := Allocated(stages);
    }

    /** Processes an event. */
    method Process(w: Work) returns (o: Outcome)
      requires allocator.Valid() && allocator.Abs().pending.None?
      requires w.Arrives? ==> w.fid !in allocator.activeFuncs
      requires w.Arrives? ==> forall j | 0 <= j < |w.enumeration| :: WellFormed(Request(w.fid, w.minDemand, w.enumeration[j]))
      requires w.Arrives? ==> forall j | 0 <= j < |w.minDemand| :: 1 <= w.minDemand[j]
      modifies allocator, allocator.allocationMatrix
      ensures Serves(Ranked(), old(allocator.Abs()), w, o, allocator.Abs())
      ensures !o.Died? ==> allocator.Valid()
      ensures allocator.allocationMatrix == old(allocator.allocationMatrix) || fresh(allocator.allocationMatrix)
    {
      hide Inv, Departs, Admissible;
      match w
      case Arrives(fid, minDemand, enumeration) => o := Arrive(fid, minDemand, enumeration);
      case Leaves(fid) =>
        var known := allocator.Deallocate(fid);
        o := Left;
    }

    /** Processes the events in order, and stops when an arrival that was accepted cannot be laid out. */
    method Run(work: seq<Work>) returns (outcomes: seq<Outcome>, ghost states: seq<State>)
      requires allocator.Valid() && Initial(allocator.Abs()) && WorkloadOk(work)
      modifies allocator, allocator.allocationMatrix
      ensures ServesAll(Ranked(), states, work, outcomes) && Initial(states[0])
      ensures if |outcomes| > 0 && outcomes[|outcomes| - 1].Died? then !SomeDied(outcomes[..|outcomes| - 1])
              else |outcomes| == |work| && !SomeDied(outcomes) && allocator.Valid()
    {
      hide Inv, Serves, WorkAt;
      ghost var s := allocator.Abs();
      outcomes, states := [], [s];
      var k := 0;
      while k < |work|
        invariant 0 <= k <= |work| && |outcomes| == k && ServesAll(Ranked(), states, work, outcomes) && Initial(states[0])
        invariant !SomeDied(outcomes) && allocator.Valid() && allocator.Abs() == s == states[k]
        invariant s.pending.None? && s.funcs.Keys <= Present(work[..k])
        invariant allocator.allocationMatrix == old(allocator.allocationMatrix) || fresh(allocator.allocationMatrix)
      {
        WorkFits(work, k, s.funcs);
        var o := Process(work[k]);
        ServesNext(Ranked(), states, work, outcomes, o, allocator.Abs());
        outcomes, states := outcomes + [o], states + [allocator.Abs()];
        if o.Died? {
          assert outcomes[..|outcomes| - 1] == outcomes[..k];
          return;
        }
        ServesOk(Ranked(), s, work[k], o, allocator.Abs());
        PresentNext(work, k);
        s := allocator.Abs();
        k := k + 1;
      }
    }
  }

  predicate SomeDied(outcomes: seq<Outcome>)
  {
    exists k :: 0 <= k < |outcomes| && outcomes[k].Died?
  }

  lemma PresentNext(work: seq<Work>, k: nat)
    requires k < |work|
    ensures Present(work[..k + 1])
            == if work[k].Arrives? then Present(work[..k]) + {work[k].fid} else Present(work[..k]) - {work[k].fid}
  {
    assert work[..k + 1][..k] == work[..k];
  }

  lemma WorkFits(work: seq<Work>, k: nat, funcs: map<Fid, App>)
    requires WorkloadOk(work) && k < |work| && funcs.Keys <= Present(work[..k])
    ensures work[k].Arrives? ==> work[k].fid !in funcs
    ensures work[k].Arrives? ==>
              forall j | 0 <= j < |work[k].enumeration| :: WellFormed(Request(work[k].fid, work[k].minDemand, work[k].enumeration[j]))
    ensures work[k].Arrives? ==> forall j | 0 <= j < |work[k].minDemand| :: 1 <= work[k].minDemand[j]
  {
    assert WorkAt(work, k);
  }

  /** Between any two events of a simulation the allocator is well formed and nothing is pending. */
  lemma {:induction false} SimulationOk(policy: Policy, states: seq<State>, work: seq<Work>, outcomes: seq<Outcome>, k: nat)
    requires ServesAll(policy, states, work, outcomes) && Initial(states[0]) && k < |states| && !SomeDied(outcomes[..k])
    ensures Inv(states[k]) && states[k].pending.None?
    decreases k
  {
    if k == 0 {
      InitialOk(states[0]);
    } else {
      assert forall j | 0 <= j < k - 1 :: outcomes[..k - 1][j] == outcomes[..k][j];
      SimulationOk(policy, states, work, outcomes, k - 1);
      assert ServesAt(policy, states, work, outcomes, k - 1);
      assert !outcomes[..k][k - 1].Died?;
      ServesOk(policy, states[k - 1], work[k - 1], outcomes[k - 1], states[k]);
    }
  }
}
