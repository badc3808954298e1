/** From the allocator's enumeration to the client's mutant: the set of allocated stages is all the client
    needs, and what it sends means what its program means. */
module RoundTrip {
  import opened Dimensions
  import opened Ordered
  import opened Wrappers
  import opened Aliases
  import opened Combinations
  import opened Odometer
  import opened Placements
  import opened ActiveFunctions
  import opened Machine
  import opened Mutants
  import opened Mutation

  /** Exactly the stages of the placement are valid. */
  ghost predicate TellsStages(valid: seq<bool>, v: seq<nat>)
  {
    |valid| == STAGES && forall t: nat | t < STAGES :: valid[t] <==> t in Variant(v)
  }

  /** No access goes past the last stage. */
  ghost predicate NonWrapping(v: seq<nat>)
  {
    forall k | 0 <= k < |v| :: v[k] < STAGES
  }

  lemma PlusAscending(accesses: seq<nat>, s: seq<nat>)
    requires Ascending(accesses) && ShiftsOk(accesses, s)
    ensures Ascending(Plus(accesses, s))
  {
    var v := Plus(accesses, s);
    forall i, j | 0 <= i < j < |v| ensures v[i] < v[j] {
      RiseSorted(s, i, j);
    }
  }

  /** The set of stages determines a placement that does not wrap around: read in ascending order, the
      allocated stages are the positions of the accesses. */
  lemma StagesTellPlacement(accesses: seq<nat>, s: seq<nat>, valid: seq<bool>)
    requires Ascending(accesses) && ShiftsOk(accesses, s)
    requires NonWrapping(Plus(accesses, s)) && TellsStages(valid, Plus(accesses, s))
    ensures var v := Plus(accesses, s);
            AllocatedStages(valid, STAGES) == v && Straight(v, accesses, |accesses|) && Shifts(v, accesses) == s
  {
    var v := Plus(accesses, s);
    PlusAscending(accesses, s);
    assert Stages(v) == v;
    var stages := AllocatedStages(valid, STAGES);
    forall x: nat ensures x in stages <==> x in v {
      assert x in Elements(v) <==> x in v;
    }
    SameElements(stages, v);
    forall k | 0 <= k < |accesses| ensures ShiftTo(v, accesses, k) == s[k] {}
  }

  /** The program fits its allocated stages as it is exactly if no access moves. */
  lemma FitsIffUnmoved(accesses: seq<nat>, s: seq<nat>, valid: seq<bool>)
    requires Ascending(accesses) && ShiftsOk(accesses, s)
    requires NonWrapping(Plus(accesses, s)) && TellsStages(valid, Plus(accesses, s))
    ensures (forall i | 0 <= i < |accesses| :: valid[StageAt(accesses[i])]) <==> s == Zeros(|s|)
  {
    if s == Zeros(|s|) {
      UnmovedFits(accesses, s, valid);
    }
    if forall i | 0 <= i < |accesses| :: valid[StageAt(accesses[i])] {
      FittingIsUnmoved(accesses, s, valid);
    }
  }

  lemma UnmovedFits(accesses: seq<nat>, s: seq<nat>, valid: seq<bool>)
    requires |s| == |accesses| && s == Zeros(|s|)
    requires NonWrapping(Plus(accesses, s)) && TellsStages(valid, Plus(accesses, s))
    ensures forall i | 0 <= i < |accesses| :: valid[StageAt(accesses[i])]
  {
    var v := Plus(accesses, s);
    assert Stages(v) == v;
    forall i | 0 <= i < |accesses| ensures valid[StageAt(accesses[i])] {
      assert accesses[i] == v[i] && v[i] in Elements(v);
    }
  }

  lemma FittingIsUnmoved(accesses: seq<nat>, s: seq<nat>, valid: seq<bool>)
    requires Ascending(accesses) && ShiftsOk(accesses, s)
    requires NonWrapping(Plus(accesses, s)) && TellsStages(valid, Plus(accesses, s))
    requires forall i | 0 <= i < |accesses| :: valid[StageAt(accesses[i])]
    ensures s == Zeros(|s|)
  {
    var v := Plus(accesses, s);
    PlusAscending(accesses, s);
    assert Stages(v) == v;
    forall x | x in accesses ensures x in v {
      var i :| 0 <= i < |accesses| && accesses[i] == x;
      assert accesses[i] <= v[i];
      assert x in Elements(v);
    }
    SubListEqual(accesses, v);
    forall i | 0 <= i < |s| ensures s[i] == 0 {
      assert v[i] == accesses[i];
    }
  }

  /** An ascending list contained in one of the same length is that list. */
  lemma SubListEqual(a: seq<nat>, b: seq<nat>)
    requires Ascending(a) && Ascending(b) && |a| == |b| && forall x | x in a :: x in b
    ensures a == b
  {
    AscendingDistinct(a);
    AscendingDistinct(b);
    SubsetEqual(Elements(a), Elements(b));
    forall x: nat ensures x in a <==> x in b {
      assert x in Elements(a) <==> x in Elements(b);
    }
    SameElements(a, b);
  }

  lemma SubsetEqual(a: set<nat>, b: set<nat>)
    requires a <= b && |a| == |b|
    ensures a == b
  {
    assert b == a + (b - a);
  }

  /** The program is its own mutant when no access moves. */
  lemma UnmovedIsMutant(code: seq<Instr>, accesses: seq<nat>, s: seq<nat>)
    requires AccessesOf(code, accesses) && |s| == |accesses| && s == Zeros(|s|)
    ensures IsMutant(code, accesses, s, code)
  {
    forall i | 0 <= i < |code| ensures IsMoved(code, accesses, s, code, i) && GapPadded(code, accesses, s, code, i) {}
  }

  /** Given the stages of a placement that does not wrap around, a client that starts from its program ends
      up with exactly the mutant of that placement, unless it is too long for its buffer. */
  method Rebuild(client: Client, valid: seq<bool>, ghost s: seq<nat>) returns (outcome: Outcome)
    requires client.Valid() && client.Mutant() == client.code
    requires ShiftsOk(client.accessIdx, s) && NonWrapping(Plus(client.accessIdx, s))
    requires TellsStages(valid, Plus(client.accessIdx, s))
    modifies client, client.mutantCode
    ensures client.Valid() && (outcome == Aborted <==> MutantLength(|client.code|, s) > MAX_PROGRAM)
    ensures outcome != Aborted ==> IsMutant(client.code, client.accessIdx, s, client.Mutant())
  {
    StagesTellPlacement(client.accessIdx, s, valid);
    FitsIffUnmoved(client.accessIdx, s, valid);
    if s == Zeros(|s|) {
      UnmovedIsMutant(client.code, client.accessIdx, s);
    }
    outcome := client.MutateActiveProgram(valid);
  }

  /** Any mutant of an enumerated placement means what the program means, on the stages the placement gives
      its accesses. */
  lemma EnumeratedMeansProgram(af: ActiveFunction, env: Env, code: seq<Instr>, v: seq<nat>, s: seq<nat>, m: seq<Instr>,
                               ranges: StageRanges, ranges': StageRanges, phv: Phv, heaps: Heaps, heaps': Heaps)
    requires af.Valid() && v in af.enumeration && AccessesOf(code, af.accessIdx)
    requires Reachable(s, af.Slack()) && v == Plus(af.accessIdx, s) && IsMutant(code, af.accessIdx, s, m)
    requires forall i | 0 <= i < |code| :: Movable(code, af.accessIdx, s, i)
    requires Renamed(ranges, ranges', Stages(af.accessIdx), Stages(v))
    requires Renamed(heaps, heaps', Stages(af.accessIdx), Stages(v))
    ensures var r, r' := Exec(env, ranges, code, |code|, phv, heaps), Exec(env, ranges', m, |m|, phv, heaps');
            && SamePacket(r.0, r'.0) && (Ends(code) && (phv.complete ==> !phv.disabled) ==> r.0 == r'.0)
            && Renamed(r.1, r'.1, Stages(af.accessIdx), Stages(v))
            && OthersKept(heaps', r'.1, Stages(v))
  {
    af.EnumeratedIs(v);
    forall i | 0 < i < |s| ensures s[i - 1] <= s[i] {
      assert WheelOk(s, af.Slack(), i);
    }
    MutantMeansProgram(env, code, af.accessIdx, s, m, ranges, ranges', phv, heaps, heaps');
  }
}
