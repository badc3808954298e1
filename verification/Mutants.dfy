/** A program and its mutant, in which NOPs move every memory access to its allocated position: what the
    mutant looks like, and that it does on the allocated stages what the program does on its own. */
module Mutants {
  import opened Dimensions
  import opened Ordered
  import opened Wrappers
  import opened Aliases
  import opened Odometer
  import opened Placements
  import opened Machine

  const NOP_INSTR: Instr := Instr(NOP, false)

  /** The accesses are the positions of the program's memory instructions, in order. */
  ghost predicate AccessesOf(code: seq<Instr>, accesses: seq<nat>)
  {
    && Ascending(accesses)
    && forall i: nat :: i in accesses <==> i < |code| && IsMemoryOp(code[i].op)
  }

  /** A vector of shifts for the accesses, none less than the one before it. */
  ghost predicate ShiftsOk(accesses: seq<nat>, s: seq<nat>)
  {
    |s| == |accesses| && NonDecreasing(s)
  }

  /** Where instruction i of the program is found in the mutant; the end for i beyond the program. */
  ghost function Position(code: seq<Instr>, accesses: seq<nat>, s: seq<nat>, i: nat): nat
    requires |s| == |accesses|
  {
    if i < |code| then Lands(accesses, s, i) else MutantLength(|code|, s)
  }

  ghost predicate IsMoved(code: seq<Instr>, accesses: seq<nat>, s: seq<nat>, m: seq<Instr>, i: nat)
    requires |s| == |accesses| && i < |code|
  {
    Lands(accesses, s, i) < |m| && m[Lands(accesses, s, i)] == code[i]
  }

  /** Positions lo to hi hold inserted NOPs. */
  ghost predicate Padded(m: seq<Instr>, lo: nat, hi: nat)
  {
    hi <= |m| && forall q | lo <= q < hi :: m[q] == NOP_INSTR
  }

  /** The mutant for a vector of shifts: the program's instructions in order, each where its last access
      takes it, NOPs in between, and nothing else. */
  ghost predicate IsMutant(code: seq<Instr>, accesses: seq<nat>, s: seq<nat>, m: seq<Instr>)
    requires |s| == |accesses|
  {
    && |m| == MutantLength(|code|, s)
    && (forall i | 0 <= i < |code| :: IsMoved(code, accesses, s, m, i))
    && Padded(m, 0, Position(code, accesses, s, 0))
    && forall i | 0 <= i < |code| :: GapPadded(code, accesses, s, m, i)
  }

  ghost predicate GapPadded(code: seq<Instr>, accesses: seq<nat>, s: seq<nat>, m: seq<Instr>, i: nat)
    requires |s| == |accesses| && i < |code|
  {
    Padded(m, Position(code, accesses, s, i) + 1, Position(code, accesses, s, i + 1))
  }

  lemma {:induction false} BeforeRises(s: seq<nat>, j: nat, k: nat)
    requires NonDecreasing(s) && j <= k <= |s|
    ensures Before(s, j) <= Before(s, k)
    decreases k
  {
    if j < k {
      BeforeRises(s, j, k - 1);
    }
  }

  /** Instructions keep their order. */
  lemma PositionsRise(code: seq<Instr>, accesses: seq<nat>, s: seq<nat>, i: nat)
    requires AccessesOf(code, accesses) && ShiftsOk(accesses, s) && i < |code|
    ensures Position(code, accesses, s, i) < Position(code, accesses, s, i + 1) <= MutantLength(|code|, s)
  {
    AccessesUpToOk(accesses, i);
    AccessesUpToOk(accesses, i + 1);
    var j, k := AccessesUpTo(accesses, i), AccessesUpTo(accesses, i + 1);
    assert k < |accesses| ==> i + 1 < accesses[k];
    BeforeRises(s, j, k);
    BeforeRises(s, k, |s|);
    BeforeRises(s, j, |s|);
  }

  // ---- erasing the NOPs -----------------------------------------------------------------

  /** The instructions other than plain NOPs, in order. */
  function Erased(code: seq<Instr>): seq<Instr>
  {
    if code == [] then [] else
      var last := code[|code| - 1];
      Erased(code[..|code| - 1]) + if last == NOP_INSTR then [] else [last]
  }

  lemma {:induction false} PaddingErased(m: seq<Instr>, lo: nat, hi: nat)
    requires lo <= hi && Padded(m, lo, hi)
    ensures Erased(m[..hi]) == Erased(m[..lo])
    decreases hi
  {
    if lo < hi {
      PaddingErased(m, lo, hi - 1);
      assert m[..hi][..hi - 1] == m[..hi - 1];
    }
  }

  lemma {:induction false} ErasedUpTo(code: seq<Instr>, accesses: seq<nat>, s: seq<nat>, m: seq<Instr>, i: nat)
    requires AccessesOf(code, accesses) && ShiftsOk(accesses, s) && IsMutant(code, accesses, s, m) && i <= |code|
    ensures Position(code, accesses, s, i) <= |m|
    ensures Erased(m[..Position(code, accesses, s, i)]) == Erased(code[..i])
    decreases i
  {
    var p := Position(code, accesses, s, i);
    if i == 0 {
      PaddingErased(m, 0, p);
      assert m[..0] == [] && code[..0] == [];
    } else {
      ErasedUpTo(code, accesses, s, m, i - 1);
      PositionsRise(code, accesses, s, i - 1);
      var q := Position(code, accesses, s, i - 1);
      assert IsMoved(code, accesses, s, m, i - 1) && GapPadded(code, accesses, s, m, i - 1);
      PaddingErased(m, q + 1, p);
      assert m[..q + 1][..q] == m[..q] && code[..i][..i - 1] == code[..i - 1];
    }
  }

  /** Erasing the NOPs of the mutant and of the program leaves the same instructions and goto bits in the
      same order. */
  lemma SameInstructions(code: seq<Instr>, accesses: seq<nat>, s: seq<nat>, m: seq<Instr>)
    requires AccessesOf(code, accesses) && ShiftsOk(accesses, s) && IsMutant(code, accesses, s, m)
    ensures Erased(m) == Erased(code)
  {
    ErasedUpTo(code, accesses, s, m, |code|);
    assert m[..|m|] == m && code[..|code|] == code;
  }

  // ---- running the mutant ---------------------------------------------------------------

  /** Instructions whose effect depends on the stage they run on. */
  predicate StageFree(op: Op)
  {
    !op.HASH? && !op.LOAD_TCP_5TUPLE? && !op.LOAD_QDELAY? && !op.LOAD_QUEUE?
  }

  /** Instruction i may be moved: its effect depends on no stage, or it stays on its own. */
  ghost predicate Movable(code: seq<Instr>, accesses: seq<nat>, s: seq<nat>, i: nat)
    requires |s| == |accesses| && i < |code|
  {
    StageFree(code[i].op) || StageAt(Position(code, accesses, s, i)) == StageAt(i)
  }

  /** The heap or range of each access's own stage is found on its allocated stage. */
  ghost predicate Renamed<T>(own: seq<T>, moved: seq<T>, a: seq<nat>, b: seq<nat>)
  {
    && |own| == |moved| == STAGES && |a| == |b|
    && forall k | 0 <= k < |a| :: RenamedAt(own, moved, a, b, k)
  }

  ghost predicate RenamedAt<T>(own: seq<T>, moved: seq<T>, a: seq<nat>, b: seq<nat>, k: nat)
    requires k < |a| == |b|
  {
    a[k] < |own| && b[k] < |moved| && moved[b[k]] == own[a[k]]
  }

  /** Stages without an access are left alone. */
  ghost predicate OthersKept<T>(before: seq<T>, after: seq<T>, a: seq<nat>)
  {
    |before| == |after| && forall t | 0 <= t < |before| && t !in a :: after[t] == before[t]
  }

  /** Writing an access's heap on both sides keeps the renaming, because aliases are kept. */
  lemma RenamedUpdate<T>(own: seq<T>, moved: seq<T>, a: seq<nat>, b: seq<nat>, k: nat, x: T)
    requires Renamed(own, moved, a, b) && SameAliases(a, b) && k < |a|
    ensures a[k] < |own| && b[k] < |moved|
    ensures Renamed(own[a[k] := x], moved[b[k] := x], a, b)
  {
    assert RenamedAt(own, moved, a, b, k);
    var own', moved' := own[a[k] := x], moved[b[k] := x];
    forall j | 0 <= j < |a| ensures RenamedAt(own', moved', a, b, j) {
      assert RenamedAt(own, moved, a, b, j);
    }
  }

  /** An instruction that needs no memory does the same on any stage if its effect depends on none. */
  lemma ApplyElsewhere(env: Env, x: nat, y: nat, rx: Option<(nat, nat)>, ry: Option<(nat, nat)>, instr: Instr, p: Phv, q: Phv,
                       hx: Heap, hy: Heap)
    requires !IsMemoryOp(instr.op) && (StageFree(instr.op) || x == y) && SamePacket(p, q)
    ensures SamePacket(Apply(env, x, rx, instr, p, hx).0, Apply(env, y, ry, instr, q, hy).0)
    ensures Apply(env, x, rx, instr, p, hx).1 == hx && Apply(env, y, ry, instr, q, hy).1 == hy
  {
    hide Perform;
    PerformElsewhere(env, x, y, instr.op, p, q);
  }

  /** The instructions that read or write the flags of a finished packet. */
  predicate EndsPacket(op: Op) { op.EOF? || op.RETURN? || op.CRET? || op.CRETI? }

  lemma PerformElsewhere(env: Env, x: nat, y: nat, op: Op, p: Phv, q: Phv)
    requires (StageFree(op) || x == y) && SamePacket(p, q)
    ensures SamePacket(Perform(env, x, op, p), Perform(env, y, op, q))
  {
    hide MoveWord, CopyWord, CompareWords, Calculate, DirectPacket, Supply;
    if !EndsPacket(op) {
      hide Perform;
      PerformAnywhere(env, x, y, op, p);
      PerformIgnoresDone(env, y, op, p, q.done);
    }
  }

  lemma PerformAnywhere(env: Env, x: nat, y: nat, op: Op, phv: Phv)
    requires (StageFree(op) || x == y) && !EndsPacket(op)
    ensures Perform(env, x, op, phv) == Perform(env, y, op, phv)
  {
  }

  /** The instruction leaves the done flag alone and does not look at it, nor does it complete the packet. */
  ghost predicate DoneAside(env: Env, stage: nat, op: Op, phv: Phv, done: bool)
  {
    && Perform(env, stage, op, phv.(done := done)) == Perform(env, stage, op, phv).(done := done)
    && Perform(env, stage, op, phv).done == phv.done && Perform(env, stage, op, phv).complete == phv.complete
  }

  lemma MovesIgnoreDone(env: Env, stage: nat, op: Op, phv: Phv, done: bool)
    requires IsWordMove(op)
    ensures DoneAside(env, stage, op, phv, done)
  {
    hide CopyWord, CompareWords, Calculate, Steer, Supply;
  }

  lemma CopiesIgnoreDone(env: Env, stage: nat, op: Op, phv: Phv, done: bool)
    requires IsCopy(op)
    ensures DoneAside(env, stage, op, phv, done)
  {
    hide MoveWord, CompareWords, Calculate, Steer, Supply;
  }

  lemma ComparisonsIgnoreDone(env: Env, stage: nat, op: Op, phv: Phv, done: bool)
    requires IsComparison(op)
    ensures DoneAside(env, stage, op, phv, done)
  {
    hide MoveWord, CopyWord, Calculate, Steer, Supply, Xor, Machine.Least, Greatest;
  }

  lemma ArithmeticIgnoresDone(env: Env, stage: nat, op: Op, phv: Phv, done: bool)
    requires IsArithmetic(op)
    ensures DoneAside(env, stage, op, phv, done)
  {
    hide MoveWord, CopyWord, CompareWords, Steer, Supply, Add, Subtract, And, Or, Not;
  }

  lemma ForwardingIgnoresDone(env: Env, stage: nat, op: Op, phv: Phv, done: bool)
    requires IsForwarding(op)
    ensures DoneAside(env, stage, op, phv, done)
  {
    hide MoveWord, CopyWord, CompareWords, Calculate, Steer, Supply;
  }

  lemma ControlIgnoresDone(env: Env, stage: nat, op: Op, phv: Phv, done: bool)
    requires IsControl(op) && !EndsPacket(op)
    ensures DoneAside(env, stage, op, phv, done)
  {
    hide MoveWord, CopyWord, CompareWords, Calculate, DirectPacket, Supply;
  }

  lemma RestIgnoresDone(env: Env, stage: nat, op: Op, phv: Phv, done: bool)
    requires !IsWordMove(op) && !IsCopy(op) && !IsComparison(op) && !IsArithmetic(op) && !IsForwarding(op) && !IsControl(op)
    ensures DoneAside(env, stage, op, phv, done)
  {
    hide MoveWord, CopyWord, CompareWords, Calculate, DirectPacket, Steer;
  }

  lemma PerformIgnoresDone(env: Env, stage: nat, op: Op, phv: Phv, done: bool)
    requires !EndsPacket(op)
    ensures DoneAside(env, stage, op, phv, done)
  {
    hide DoneAside, Perform;
    if IsWordMove(op) {
      MovesIgnoreDone(env, stage, op, phv, done);
    } else if IsCopy(op) {
      CopiesIgnoreDone(env, stage, op, phv, done);
    } else if IsComparison(op) {
      ComparisonsIgnoreDone(env, stage, op, phv, done);
    } else if IsArithmetic(op) {
      ArithmeticIgnoresDone(env, stage, op, phv, done);
    } else if IsForwarding(op) {
      ForwardingIgnoresDone(env, stage, op, phv, done);
    } else if IsControl(op) {
      ControlIgnoresDone(env, stage, op, phv, done);
    } else {
      RestIgnoresDone(env, stage, op, phv, done);
    }
  }

  lemma ApplyHere(env: Env, x: nat, y: nat, range: Option<(nat, nat)>, instr: Instr, p: Phv, q: Phv, heap: Heap)
    requires IsMemoryOp(instr.op) && SamePacket(p, q)
    ensures SamePacket(Apply(env, x, range, instr, p, heap).0, Apply(env, y, range, instr, q, heap).0)
    ensures Apply(env, x, range, instr, p, heap).1 == Apply(env, y, range, instr, q, heap).1
  {
  }

  /** The packets and the heaps on both sides agree. */
  ghost predicate Agree(r: (Phv, Heaps), r': (Phv, Heaps), heaps: Heaps, heaps': Heaps, a: seq<nat>, b: seq<nat>)
  {
    && SamePacket(r.0, r'.0) && Renamed(r.1, r'.1, a, b)
    && OthersKept(heaps, r.1, a) && OthersKept(heaps', r'.1, b)
  }

  lemma {:induction false} PaddingRuns(env: Env, ranges: StageRanges, m: seq<Instr>, phv: Phv, heaps: Heaps, lo: nat, hi: nat)
    requires lo <= hi && Padded(m, lo, hi) && |ranges| == |heaps| == STAGES
    ensures Exec(env, ranges, m, hi, phv, heaps) == Exec(env, ranges, m, lo, phv, heaps)
    decreases hi
  {
    hide Apply;
    if lo < hi {
      var r := Exec(env, ranges, m, hi - 1, phv, heaps);
      var stage := StageAt(hi - 1);
      PaddingRuns(env, ranges, m, phv, heaps, lo, hi - 1);
      NopNeutral(env, stage, ranges[stage], r.0, r.1[stage]);
      assert m[hi - 1] == Instr(NOP, false) && r.1[stage := r.1[stage]] == r.1;
    }
  }

  /** A mutant with everything its meaning depends on. */
  ghost predicate Setting(code: seq<Instr>, accesses: seq<nat>, s: seq<nat>, m: seq<Instr>, ranges: StageRanges, ranges': StageRanges)
  {
    && AccessesOf(code, accesses) && ShiftsOk(accesses, s) && IsMutant(code, accesses, s, m)
    && (forall i | 0 <= i < |code| :: Movable(code, accesses, s, i))
    && SameAliases(Stages(accesses), Stages(Plus(accesses, s)))
    && Renamed(ranges, ranges', Stages(accesses), Stages(Plus(accesses, s)))
  }

  /** Stage x of the one side and stage y of the other belong to the same access. */
  ghost predicate SameAccess(a: seq<nat>, b: seq<nat>, x: nat, y: nat)
  {
    |a| == |b| && exists k :: 0 <= k < |a| && a[k] == x && b[k] == y
  }

  /** One instruction, on stage x of the one side and stage y of the other. */
  lemma StepMoved(env: Env, instr: Instr, x: nat, y: nat, a: seq<nat>, b: seq<nat>, ranges: StageRanges, ranges': StageRanges,
                  heaps: Heaps, heaps': Heaps, r: (Phv, Heaps), r': (Phv, Heaps))
    requires x < STAGES && y < STAGES && SameAliases(a, b) && Renamed(ranges, ranges', a, b)
    requires if IsMemoryOp(instr.op) then SameAccess(a, b, x, y) else StageFree(instr.op) || x == y
    requires Agree(r, r', heaps, heaps', a, b)
    ensures var (phv, heap) := Apply(env, x, ranges[x], instr, r.0, r.1[x]);
            var (phv', heap') := Apply(env, y, ranges'[y], instr, r'.0, r'.1[y]);
            Agree((phv, r.1[x := heap]), (phv', r'.1[y := heap']), heaps, heaps', a, b)
  {
    hide Apply;
    if IsMemoryOp(instr.op) {
      var k :| 0 <= k < |a| && a[k] == x && b[k] == y;
      assert RenamedAt(ranges, ranges', a, b, k) && RenamedAt(r.1, r'.1, a, b, k);
      ApplyHere(env, x, y, ranges[x], instr, r.0, r'.0, r.1[x]);
      RenamedUpdate(r.1, r'.1, a, b, k, Apply(env, x, ranges[x], instr, r.0, r.1[x]).1);
      assert x in a && y in b;
    } else {
      ApplyElsewhere(env, x, y, ranges[x], ranges'[y], instr, r.0, r'.0, r.1[x], r'.1[y]);
      assert r.1[x := r.1[x]] == r.1 && r'.1[y := r'.1[y]] == r'.1;
    }
  }

  /** One instruction, on its own stage and where the mutant runs it. */
  lemma StepAgrees(env: Env, code: seq<Instr>, accesses: seq<nat>, s: seq<nat>, m: seq<Instr>, ranges: StageRanges,
                   ranges': StageRanges, heaps: Heaps, heaps': Heaps, r: (Phv, Heaps), r': (Phv, Heaps), i: nat)
    requires Setting(code, accesses, s, m, ranges, ranges') && i < |code|
    requires Agree(r, r', heaps, heaps', Stages(accesses), Stages(Plus(accesses, s)))
    ensures var x, y := StageAt(i), StageAt(Position(code, accesses, s, i));
            var (phv, heap) := Apply(env, x, ranges[x], code[i], r.0, r.1[x]);
            var (phv', heap') := Apply(env, y, ranges'[y], code[i], r'.0, r'.1[y]);
            Agree((phv, r.1[x := heap]), (phv', r'.1[y := heap']), heaps, heaps', Stages(accesses), Stages(Plus(accesses, s)))
  {
    hide Apply;
    var a, b := Stages(accesses), Stages(Plus(accesses, s));
    var x, y := StageAt(i), StageAt(Position(code, accesses, s, i));
    if IsMemoryOp(code[i].op) {
      assert i in accesses;
      var k :| 0 <= k < |accesses| && accesses[k] == i;
      AccessLands(accesses, s, k);
      assert a[k] == x && b[k] == y;
    } else {
      assert Movable(code, accesses, s, i);
    }
    StepMoved(env, code[i], x, y, a, b, ranges, ranges', heaps, heaps', r, r');
  }

  /** After every instruction of the program the mutant, stopped at that instruction, agrees with it. */
  lemma {:induction false} RunAgrees(env: Env, code: seq<Instr>, accesses: seq<nat>, s: seq<nat>, m: seq<Instr>,
                                     ranges: StageRanges, ranges': StageRanges, phv: Phv, heaps: Heaps, heaps': Heaps, i: nat)
    requires Setting(code, accesses, s, m, ranges, ranges') && i <= |code|
    requires Renamed(heaps, heaps', Stages(accesses), Stages(Plus(accesses, s)))
    ensures Position(code, accesses, s, i) <= |m|
    ensures Agree(Exec(env, ranges, code, i, phv, heaps), Exec(env, ranges', m, Position(code, accesses, s, i), phv, heaps'),
                  heaps, heaps', Stages(accesses), Stages(Plus(accesses, s)))
    decreases i
  {
    hide Setting, Exec, Apply, Renamed, SameAliases, OthersKept, SamePacket, Agree;
    if i == 0 {
      StartAgrees(env, code, accesses, s, m, ranges, ranges', phv, heaps, heaps');
    } else {
      SettingLengths(code, accesses, s, m, ranges, ranges', heaps, heaps');
      RunAgrees(env, code, accesses, s, m, ranges, ranges', phv, heaps, heaps', i - 1);
      NextAgrees(env, code, accesses, s, m, ranges, ranges', phv, heaps, heaps', i - 1);
    }
  }

  lemma SettingLengths(code: seq<Instr>, accesses: seq<nat>, s: seq<nat>, m: seq<Instr>,
                       ranges: StageRanges, ranges': StageRanges, heaps: Heaps, heaps': Heaps)
    requires Setting(code, accesses, s, m, ranges, ranges')
    requires Renamed(heaps, heaps', Stages(accesses), Stages(Plus(accesses, s)))
    ensures |ranges| == |heaps| == |ranges'| == |heaps'| == STAGES
  {
  }

  lemma StartAgrees(env: Env, code: seq<Instr>, accesses: seq<nat>, s: seq<nat>, m: seq<Instr>,
                    ranges: StageRanges, ranges': StageRanges, phv: Phv, heaps: Heaps, heaps': Heaps)
    requires Setting(code, accesses, s, m, ranges, ranges')
    requires Renamed(heaps, heaps', Stages(accesses), Stages(Plus(accesses, s)))
    ensures |ranges| == |heaps| == |ranges'| == |heaps'| == STAGES
    ensures Position(code, accesses, s, 0) <= |m|
    ensures Agree(Exec(env, ranges, code, 0, phv, heaps), Exec(env, ranges', m, Position(code, accesses, s, 0), phv, heaps'),
                  heaps, heaps', Stages(accesses), Stages(Plus(accesses, s)))
  {
    hide Apply, Renamed, SameAliases, OthersKept, SamePacket, Position;
    RenamedLengths(heaps, heaps', Stages(accesses), Stages(Plus(accesses, s)));
    RenamedLengths(ranges, ranges', Stages(accesses), Stages(Plus(accesses, s)));
    var p := Position(code, accesses, s, 0);
    SameItself(phv);
    PaddingRuns(env, ranges', m, phv, heaps', 0, p);
    KeptItself(heaps, Stages(accesses));
    KeptItself(heaps', Stages(Plus(accesses, s)));
  }

  /** The mutant around instruction i. */
  lemma MutantAt(code: seq<Instr>, accesses: seq<nat>, s: seq<nat>, m: seq<Instr>, i: nat)
    requires AccessesOf(code, accesses) && ShiftsOk(accesses, s) && IsMutant(code, accesses, s, m) && i < |code|
    ensures var p, q := Position(code, accesses, s, i + 1), Position(code, accesses, s, i);
            q < p <= |m| && m[q] == code[i] && Padded(m, q + 1, p) && (i == |code| - 1 ==> p == |m|)
  {
    PositionsRise(code, accesses, s, i);
    assert IsMoved(code, accesses, s, m, i) && GapPadded(code, accesses, s, m, i);
  }

  lemma NextAgrees(env: Env, code: seq<Instr>, accesses: seq<nat>, s: seq<nat>, m: seq<Instr>,
                   ranges: StageRanges, ranges': StageRanges, phv: Phv, heaps: Heaps, heaps': Heaps, j: nat)
    requires Setting(code, accesses, s, m, ranges, ranges') && j < |code|
    requires Renamed(heaps, heaps', Stages(accesses), Stages(Plus(accesses, s))) && Position(code, accesses, s, j) <= |m|
    requires |ranges| == |heaps| == |ranges'| == |heaps'| == STAGES
    requires Agree(Exec(env, ranges, code, j, phv, heaps), Exec(env, ranges', m, Position(code, accesses, s, j), phv, heaps'),
                   heaps, heaps', Stages(accesses), Stages(Plus(accesses, s)))
    ensures Position(code, accesses, s, j + 1) <= |m|
    ensures Agree(Exec(env, ranges, code, j + 1, phv, heaps), Exec(env, ranges', m, Position(code, accesses, s, j + 1), phv, heaps'),
                  heaps, heaps', Stages(accesses), Stages(Plus(accesses, s)))
  {
    hide Exec, Apply, Renamed, SameAliases, OthersKept, SamePacket, Position, AccessesOf, IsMutant, Padded, Agree;
    MutantAt(code, accesses, s, m, j);
    var p, q := Position(code, accesses, s, j + 1), Position(code, accesses, s, j);
    var r, r' := Exec(env, ranges, code, j, phv, heaps), Exec(env, ranges', m, q, phv, heaps');
    StepAgrees(env, code, accesses, s, m, ranges, ranges', heaps, heaps', r, r', j);
    ExecNext(env, ranges, code, j, phv, heaps, r);
    ExecNext(env, ranges', m, q, phv, heaps', r');
    PaddingRuns(env, ranges', m, phv, heaps', q + 1, p);
  }

  lemma RenamedLengths<T>(own: seq<T>, moved: seq<T>, a: seq<nat>, b: seq<nat>)
    requires Renamed(own, moved, a, b)
    ensures |own| == |moved| == STAGES
  {
  }

  lemma SameItself(phv: Phv)
    ensures SamePacket(phv, phv)
  {
  }

  lemma KeptItself<T>(heaps: seq<T>, a: seq<nat>)
    ensures OthersKept(heaps, heaps, a)
  {
  }

  /** If the program ends with EOF, the done flags agree in the end, too. */
  lemma EndsAgree(env: Env, code: seq<Instr>, accesses: seq<nat>, s: seq<nat>, m: seq<Instr>,
                  ranges: StageRanges, ranges': StageRanges, phv: Phv, heaps: Heaps, heaps': Heaps)
    requires Setting(code, accesses, s, m, ranges, ranges') && Ends(code) && (phv.complete ==> !phv.disabled)
    requires Renamed(heaps, heaps', Stages(accesses), Stages(Plus(accesses, s)))
    requires |ranges| == |heaps| == |ranges'| == |heaps'| == STAGES
    ensures Exec(env, ranges, code, |code|, phv, heaps).0 == Exec(env, ranges', m, |m|, phv, heaps').0
  {
    hide Exec, Renamed, SameAliases, OthersKept, SamePacket, Movable, IsMutant, AccessesOf, Padded, Position;
    var j := |code| - 1;
    MutantAt(code, accesses, s, m, j);
    RunAgrees(env, code, accesses, s, m, ranges, ranges', phv, heaps, heaps', j);
    BothEnd(env, code, m, ranges, ranges', phv, heaps, heaps', Position(code, accesses, s, j));
  }

  /** Both sides end with the same EOF, on whatever stages. */
  lemma BothEnd(env: Env, code: seq<Instr>, m: seq<Instr>, ranges: StageRanges, ranges': StageRanges,
                phv: Phv, heaps: Heaps, heaps': Heaps, q: nat)
    requires |ranges| == |heaps| == |ranges'| == |heaps'| == STAGES
    requires Ends(code) && q < |m| && m[q] == code[|code| - 1] && Padded(m, q + 1, |m|)
    requires phv.complete ==> !phv.disabled
    requires SamePacket(Exec(env, ranges, code, |code| - 1, phv, heaps).0, Exec(env, ranges', m, q, phv, heaps').0)
    ensures Exec(env, ranges, code, |code|, phv, heaps).0 == Exec(env, ranges', m, |m|, phv, heaps').0
  {
    hide Exec, Apply, SamePacket, Padded;
    var j := |code| - 1;
    CompleteIsEnabled(env, ranges, code, j, phv, heaps);
    var r, r' := Exec(env, ranges, code, j, phv, heaps), Exec(env, ranges', m, q, phv, heaps');
    var x, y := StageAt(j), StageAt(q);
    ExecNext(env, ranges, code, j, phv, heaps, r);
    ExecNext(env, ranges', m, q, phv, heaps', r');
    EndSettles(env, x, y, ranges[x], ranges'[y], code[j], r.0, r'.0, r.1[x], r'.1[y]);
    PaddingRuns(env, ranges', m, phv, heaps', q + 1, |m|);
  }

  /** A mutant means what the program means. Run on stages whose heaps and ranges are those of the
      program's own stages, renamed, it leaves the same registers, argument words, flags and forwarding
      decisions, the same heaps, renamed, and every other stage untouched. The done flag alone may differ
      if the program returns early and does not end with EOF. */
  lemma MutantMeansProgram(env: Env, code: seq<Instr>, accesses: seq<nat>, s: seq<nat>, m: seq<Instr>,
                           ranges: StageRanges, ranges': StageRanges, phv: Phv, heaps: Heaps, heaps': Heaps)
    requires Setting(code, accesses, s, m, ranges, ranges')
    requires Renamed(heaps, heaps', Stages(accesses), Stages(Plus(accesses, s)))
    ensures var r, r' := Exec(env, ranges, code, |code|, phv, heaps), Exec(env, ranges', m, |m|, phv, heaps');
            && SamePacket(r.0, r'.0) && (Ends(code) && (phv.complete ==> !phv.disabled) ==> r.0 == r'.0)
            && Renamed(r.1, r'.1, Stages(accesses), Stages(Plus(accesses, s)))
            && OthersKept(heaps', r'.1, Stages(Plus(accesses, s)))
  {
    hide Ends, SamePacket, Renamed, OthersKept;
    RenamedLengths(heaps, heaps', Stages(accesses), Stages(Plus(accesses, s)));
    RenamedLengths(ranges, ranges', Stages(accesses), Stages(Plus(accesses, s)));
    RunAgrees(env, code, accesses, s, m, ranges, ranges', phv, heaps, heaps', |code|);
    if Ends(code) && (phv.complete ==> !phv.disabled) {
      EndsAgree(env, code, accesses, s, m, ranges, ranges', phv, heaps, heaps');
    }
  }
}
