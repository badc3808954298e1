/** The done flag of a mutant: the one thing that may differ from its program, and exactly when it does. */
module DoneFlag {
  import opened Dimensions
  import opened Wrappers
  import opened Aliases
  import opened Placements
  import opened TableActions
  import opened Machine
  import opened Mutants

  predicate Returns(op: Op) { op.RETURN? || op.CRET? || op.CRETI? }

  /** Instruction j is run, neither missed nor skipped nor jumped over. */
  ghost predicate RunsAt(env: Env, ranges: StageRanges, code: seq<Instr>, phv: Phv, heaps: Heaps, j: nat)
    requires |ranges| == |heaps| == STAGES && j < |code|
  {
    Decide(code[j].op, ranges[StageAt(j)], Exec(env, ranges, code, j, phv, heaps).0) == Some(Execute)
  }

  ghost predicate EndsAt(env: Env, ranges: StageRanges, code: seq<Instr>, phv: Phv, heaps: Heaps, j: nat)
    requires |ranges| == |heaps| == STAGES && j < |code|
  {
    code[j].op == EOF && RunsAt(env, ranges, code, phv, heaps, j)
  }

  ghost predicate ReturnsAt(env: Env, ranges: StageRanges, code: seq<Instr>, phv: Phv, heaps: Heaps, j: nat)
    requires |ranges| == |heaps| == STAGES && j < |code|
  {
    Returns(code[j].op) && RunsAt(env, ranges, code, phv, heaps, j)
  }

  lemma OthersKeepMarks(env: Env, stage: nat, op: Op, phv: Phv)
    requires !EndsPacket(op)
    ensures Perform(env, stage, op, phv).done == phv.done && Perform(env, stage, op, phv).complete == phv.complete
  {
    hide Perform;
    PerformIgnoresDone(env, stage, op, phv, phv.done);
  }

  lemma AccessKeepsMarks(op: Op, phv: Phv, cell: nat)
    ensures Access(op, phv, cell).0.done == phv.done && Access(op, phv, cell).0.complete == phv.complete
  {
  }

  /** What one stage does to the two flags. */
  lemma MarksNext(env: Env, stage: nat, range: Option<(nat, nat)>, instr: Instr, phv: Phv, heap: Heap)
    ensures var phv', runs := Apply(env, stage, range, instr, phv, heap).0, Decide(instr.op, range, phv) == Some(Execute);
            && phv'.done == (phv.done || (runs && (instr.op == EOF || (Returns(instr.op) && stage < INGRESS))))
            && phv'.complete == (phv.complete || (runs && Returns(instr.op)))
  {
    hide Decide, Access, MoveWord, CopyWord, CompareWords, Calculate, DirectPacket, Supply;
    if IsMemoryOp(instr.op) {
      AccessKeepsMarks(instr.op, phv, Cell(heap, phv.mar));
    } else if !EndsPacket(instr.op) {
      OthersKeepMarks(env, stage, instr.op, phv);
    }
  }

  lemma {:induction false} CompleteAfter(env: Env, ranges: StageRanges, code: seq<Instr>, phv: Phv, heaps: Heaps, j: nat, n: nat)
    requires |ranges| == |heaps| == STAGES && j < n <= |code| && ReturnsAt(env, ranges, code, phv, heaps, j)
    ensures Exec(env, ranges, code, n, phv, heaps).0.complete
    decreases n
  {
    hide Exec, Apply, Decide;
    var r, stage := Exec(env, ranges, code, n - 1, phv, heaps), StageAt(n - 1);
    ExecNext(env, ranges, code, n - 1, phv, heaps, r);
    MarksNext(env, stage, ranges[stage], code[n - 1], r.0, r.1[stage]);
    if j < n - 1 {
      CompleteAfter(env, ranges, code, phv, heaps, j, n - 1);
    }
  }

  /** A packet returns at most once. */
  lemma ReturnsOnce(env: Env, ranges: StageRanges, code: seq<Instr>, phv: Phv, heaps: Heaps, i: nat, j: nat)
    requires |ranges| == |heaps| == STAGES && i < |code| && j < |code|
    requires ReturnsAt(env, ranges, code, phv, heaps, i) && ReturnsAt(env, ranges, code, phv, heaps, j)
    ensures i == j
  {
    hide Exec;
    if i < j {
      CompleteAfter(env, ranges, code, phv, heaps, i, j);
    } else if j < i {
      CompleteAfter(env, ranges, code, phv, heaps, j, i);
    }
  }

  /** The stages on which the program runs its instructions, and those on which the mutant runs them. */
  ghost function OwnStages(code: seq<Instr>): (on: seq<nat>)
    ensures |on| == |code| && forall j | 0 <= j < |code| :: on[j] == StageAt(j)
  {
    seq(|code|, j requires 0 <= j < |code| => StageAt(j))
  }

  ghost function MovedStages(code: seq<Instr>, accesses: seq<nat>, s: seq<nat>): (on: seq<nat>)
    requires |s| == |accesses|
    ensures |on| == |code| && forall j | 0 <= j < |code| :: on[j] == StageAt(Position(code, accesses, s, j))
  {
    seq(|code|, j requires 0 <= j < |code| => StageAt(Position(code, accesses, s, j)))
  }

  /** One of the first n instructions is run and marks the packet, were each of them on the stage given
      for its position. */
  ghost predicate MarkedBy(env: Env, ranges: StageRanges, code: seq<Instr>, phv: Phv, heaps: Heaps, on: seq<nat>, n: nat)
    requires |ranges| == |heaps| == STAGES && n <= |code| == |on|
  {
    exists j: nat :: j < n && MarksAt(env, ranges, code, phv, heaps, on, j)
  }

  ghost predicate MarksAt(env: Env, ranges: StageRanges, code: seq<Instr>, phv: Phv, heaps: Heaps, on: seq<nat>, j: nat)
    requires |ranges| == |heaps| == STAGES && j < |code| == |on|
  {
    EndsAt(env, ranges, code, phv, heaps, j) || (ReturnsAt(env, ranges, code, phv, heaps, j) && on[j] < INGRESS)
  }

  lemma MarkedNext(env: Env, ranges: StageRanges, code: seq<Instr>, phv: Phv, heaps: Heaps, on: seq<nat>, n: nat)
    requires |ranges| == |heaps| == STAGES && n < |code| == |on|
    ensures MarkedBy(env, ranges, code, phv, heaps, on, n + 1)
            <==> MarkedBy(env, ranges, code, phv, heaps, on, n) || MarksAt(env, ranges, code, phv, heaps, on, n)
  {
    hide MarksAt;
    if MarkedBy(env, ranges, code, phv, heaps, on, n) {
      var j: nat :| j < n && MarksAt(env, ranges, code, phv, heaps, on, j);
      assert j < n + 1 && MarksAt(env, ranges, code, phv, heaps, on, j);
    }
    if MarksAt(env, ranges, code, phv, heaps, on, n) {
      assert n < n + 1 && MarksAt(env, ranges, code, phv, heaps, on, n);
    }
  }

  /** The done flag of the program. */
  lemma {:induction false} DoneAfter(env: Env, ranges: StageRanges, code: seq<Instr>, phv: Phv, heaps: Heaps, n: nat)
    requires |ranges| == |heaps| == STAGES && n <= |code|
    ensures Exec(env, ranges, code, n, phv, heaps).0.done
            <==> phv.done || MarkedBy(env, ranges, code, phv, heaps, OwnStages(code), n)
    decreases n
  {
    hide Exec, Apply, Decide, MarkedBy;
    if n == 0 {
      ExecStart(env, ranges, code, phv, heaps);
      NothingMarked(env, ranges, code, phv, heaps, OwnStages(code));
    } else {
      var r, stage := Exec(env, ranges, code, n - 1, phv, heaps), StageAt(n - 1);
      DoneAfter(env, ranges, code, phv, heaps, n - 1);
      MarkedNext(env, ranges, code, phv, heaps, OwnStages(code), n - 1);
      ExecNext(env, ranges, code, n - 1, phv, heaps, r);
      MarksNext(env, stage, ranges[stage], code[n - 1], r.0, r.1[stage]);
    }
  }

  lemma NothingMarked(env: Env, ranges: StageRanges, code: seq<Instr>, phv: Phv, heaps: Heaps, on: seq<nat>)
    requires |ranges| == |heaps| == STAGES && |on| == |code|
    ensures !MarkedBy(env, ranges, code, phv, heaps, on, 0)
  {
  }

  /** Agreeing packets are decided alike: no instruction that needs no memory looks at the done flag. */
  lemma DecidedAlike(op: Op, x: Option<(nat, nat)>, y: Option<(nat, nat)>, p: Phv, q: Phv)
    requires !IsMemoryOp(op) && SamePacket(p, q)
    ensures Decide(op, x, p) == Decide(op, y, q)
  {
  }

  /** The done flag of the mutant. */
  lemma {:induction false} MutantDoneAfter(env: Env, code: seq<Instr>, accesses: seq<nat>, s: seq<nat>, m: seq<Instr>,
                                           ranges: StageRanges, ranges': StageRanges, phv: Phv, heaps: Heaps, heaps': Heaps, n: nat)
    requires Setting(code, accesses, s, m, ranges, ranges') && n <= |code|
    requires |ranges| == |heaps| == |ranges'| == |heaps'| == STAGES
    requires Renamed(heaps, heaps', Stages(accesses), Stages(Plus(accesses, s)))
    ensures Position(code, accesses, s, n) <= |m|
    ensures Exec(env, ranges', m, Position(code, accesses, s, n), phv, heaps').0.done
            <==> phv.done || MarkedBy(env, ranges, code, phv, heaps, MovedStages(code, accesses, s), n)
    decreases n
  {
    WholeMutant(code, accesses, s, m, ranges, ranges');
    hide Exec, Apply, Decide, MarkedBy, MarksAt, Setting, Renamed, Position, Agree;
    var on := MovedStages(code, accesses, s);
    RunAgrees(env, code, accesses, s, m, ranges, ranges', phv, heaps, heaps', n);
    if n == 0 {
      NothingMarked(env, ranges, code, phv, heaps, on);
      MutantStarts(env, code, accesses, s, m, ranges, ranges', phv, heaps');
    } else {
      MutantDoneAfter(env, code, accesses, s, m, ranges, ranges', phv, heaps, heaps', n - 1);
      MarkedNext(env, ranges, code, phv, heaps, on, n - 1);
      MutantDoneNext(env, code, accesses, s, m, ranges, ranges', phv, heaps, heaps', n - 1);
    }
  }

  lemma MutantDoneEnd(env: Env, code: seq<Instr>, accesses: seq<nat>, s: seq<nat>, m: seq<Instr>,
                      ranges: StageRanges, ranges': StageRanges, phv: Phv, heaps: Heaps, heaps': Heaps)
    requires Setting(code, accesses, s, m, ranges, ranges')
    requires |ranges| == |heaps| == |ranges'| == |heaps'| == STAGES
    requires Renamed(heaps, heaps', Stages(accesses), Stages(Plus(accesses, s)))
    ensures |s| == |accesses|
    ensures Exec(env, ranges', m, |m|, phv, heaps').0.done
            <==> phv.done || MarkedBy(env, ranges, code, phv, heaps, MovedStages(code, accesses, s), |code|)
  {
    hide Exec, MarkedBy, Setting, Renamed, Position;
    WholeMutant(code, accesses, s, m, ranges, ranges');
    MutantDoneAfter(env, code, accesses, s, m, ranges, ranges', phv, heaps, heaps', |code|);
  }

  lemma WholeMutant(code: seq<Instr>, accesses: seq<nat>, s: seq<nat>, m: seq<Instr>, ranges: StageRanges, ranges': StageRanges)
    requires Setting(code, accesses, s, m, ranges, ranges')
    ensures |s| == |accesses| && Position(code, accesses, s, |code|) == |m|
  {
  }

  lemma MutantStarts(env: Env, code: seq<Instr>, accesses: seq<nat>, s: seq<nat>, m: seq<Instr>,
                     ranges: StageRanges, ranges': StageRanges, phv: Phv, heaps': Heaps)
    requires Setting(code, accesses, s, m, ranges, ranges') && |ranges'| == |heaps'| == STAGES
    requires Position(code, accesses, s, 0) <= |m|
    ensures Exec(env, ranges', m, Position(code, accesses, s, 0), phv, heaps') == (phv, heaps')
  {
    hide Renamed, Position;
    PaddingRuns(env, ranges', m, phv, heaps', 0, Position(code, accesses, s, 0));
  }

  lemma MutantDoneNext(env: Env, code: seq<Instr>, accesses: seq<nat>, s: seq<nat>, m: seq<Instr>,
                       ranges: StageRanges, ranges': StageRanges, phv: Phv, heaps: Heaps, heaps': Heaps, j: nat)
    requires Setting(code, accesses, s, m, ranges, ranges') && j < |code|
    requires |ranges| == |heaps| == |ranges'| == |heaps'| == STAGES
    requires Renamed(heaps, heaps', Stages(accesses), Stages(Plus(accesses, s)))
    requires Position(code, accesses, s, j) <= |m| && Position(code, accesses, s, j + 1) <= |m|
    ensures Exec(env, ranges', m, Position(code, accesses, s, j + 1), phv, heaps').0.done
            <==> || Exec(env, ranges', m, Position(code, accesses, s, j), phv, heaps').0.done
                 || MarksAt(env, ranges, code, phv, heaps, MovedStages(code, accesses, s), j)
  {
    hide Exec, Apply, Decide, Renamed, SameAliases, OthersKept, SamePacket, Position, AccessesOf, IsMutant, Padded, Movable;
    RunAgrees(env, code, accesses, s, m, ranges, ranges', phv, heaps, heaps', j);
    MutantAt(code, accesses, s, m, j);
    var p, q := Position(code, accesses, s, j + 1), Position(code, accesses, s, j);
    var r, r', y := Exec(env, ranges, code, j, phv, heaps), Exec(env, ranges', m, q, phv, heaps'), StageAt(q);
    if !IsMemoryOp(code[j].op) {
      DecidedAlike(code[j].op, ranges[StageAt(j)], ranges'[y], r.0, r'.0);
    }
    ExecNext(env, ranges', m, q, phv, heaps', r');
    MarksNext(env, y, ranges'[y], m[q], r'.0, r'.1[y]);
    PaddingRuns(env, ranges', m, phv, heaps', q + 1, p);
  }

  /** An early return crosses from the ingress to the egress stages. */
  ghost predicate CrossesAt(env: Env, ranges: StageRanges, code: seq<Instr>, phv: Phv, heaps: Heaps,
                            accesses: seq<nat>, s: seq<nat>, j: nat)
    requires |ranges| == |heaps| == STAGES && j < |code| && |s| == |accesses|
  {
    ReturnsAt(env, ranges, code, phv, heaps, j) && StageAt(j) < INGRESS <= StageAt(Position(code, accesses, s, j))
  }

  /** Some early return crosses, and no EOF is run. */
  ghost predicate Crosses(env: Env, ranges: StageRanges, code: seq<Instr>, phv: Phv, heaps: Heaps, accesses: seq<nat>, s: seq<nat>)
    requires |ranges| == |heaps| == STAGES && |s| == |accesses|
  {
    && (forall j | 0 <= j < |code| :: !EndsAt(env, ranges, code, phv, heaps, j))
    && exists j :: 0 <= j < |code| && CrossesAt(env, ranges, code, phv, heaps, accesses, s, j)
  }

  /** Nothing moves back from the egress stages. */
  lemma MovesForward(code: seq<Instr>, accesses: seq<nat>, s: seq<nat>, j: nat)
    requires |s| == |accesses| && j < |code|
    ensures StageAt(Position(code, accesses, s, j)) < INGRESS ==> StageAt(j) < INGRESS
  {
  }

  lemma MarksDiffer(env: Env, ranges: StageRanges, code: seq<Instr>, phv: Phv, heaps: Heaps, accesses: seq<nat>, s: seq<nat>)
    requires |ranges| == |heaps| == STAGES && |s| == |accesses|
    ensures var own, moved := OwnStages(code), MovedStages(code, accesses, s);
            && (MarkedBy(env, ranges, code, phv, heaps, moved, |code|) ==> MarkedBy(env, ranges, code, phv, heaps, own, |code|))
            && (MarkedBy(env, ranges, code, phv, heaps, own, |code|) && !MarkedBy(env, ranges, code, phv, heaps, moved, |code|)
                <==> Crosses(env, ranges, code, phv, heaps, accesses, s))
  {
    hide EndsAt, ReturnsAt, Position;
    var n, own, moved := |code|, OwnStages(code), MovedStages(code, accesses, s);
    if MarkedBy(env, ranges, code, phv, heaps, moved, n) {
      var j: nat :| j < n && MarksAt(env, ranges, code, phv, heaps, moved, j);
      MovesForward(code, accesses, s, j);
      assert MarksAt(env, ranges, code, phv, heaps, own, j);
    } else if MarkedBy(env, ranges, code, phv, heaps, own, n) {
      var j: nat :| j < n && MarksAt(env, ranges, code, phv, heaps, own, j);
      assert !MarksAt(env, ranges, code, phv, heaps, moved, j);
      assert CrossesAt(env, ranges, code, phv, heaps, accesses, s, j);
      forall i | 0 <= i < n ensures !EndsAt(env, ranges, code, phv, heaps, i) {
        assert !MarksAt(env, ranges, code, phv, heaps, moved, i);
      }
    }
    if forall j | 0 <= j < n :: !EndsAt(env, ranges, code, phv, heaps, j) {
      if j :| 0 <= j < n && CrossesAt(env, ranges, code, phv, heaps, accesses, s, j) {
        assert MarksAt(env, ranges, code, phv, heaps, own, j);
        forall i: nat | i < n ensures !MarksAt(env, ranges, code, phv, heaps, moved, i) {
          if ReturnsAt(env, ranges, code, phv, heaps, i) {
            ReturnsOnce(env, ranges, code, phv, heaps, i, j);
          }
        }
      }
    }
  }

  /** Exactly when the done flags of a program and its mutant differ, the rest of the packet being the same:
      a packet not marked before returns on an ingress stage, on an egress stage in the mutant, and no EOF
      is run. */
  lemma DoneDiffers(env: Env, code: seq<Instr>, accesses: seq<nat>, s: seq<nat>, m: seq<Instr>,
                    ranges: StageRanges, ranges': StageRanges, phv: Phv, heaps: Heaps, heaps': Heaps)
    requires Setting(code, accesses, s, m, ranges, ranges')
    requires |ranges| == |heaps| == |ranges'| == |heaps'| == STAGES
    requires Renamed(heaps, heaps', Stages(accesses), Stages(Plus(accesses, s)))
    ensures Exec(env, ranges, code, |code|, phv, heaps).0.done != Exec(env, ranges', m, |m|, phv, heaps').0.done
            <==> !phv.done && Crosses(env, ranges, code, phv, heaps, accesses, s)
  {
    hide Exec, Setting, Renamed, Crosses, MarkedBy, OwnStages, MovedStages, Stages, Plus;
    DoneAfter(env, ranges, code, phv, heaps, |code|);
    MutantDoneEnd(env, code, accesses, s, m, ranges, ranges', phv, heaps, heaps');
    MarksDiffer(env, ranges, code, phv, heaps, accesses, s);
  }

  // ---- a program that differs -----------------------------------------------------------

  /** An access and an early return, without EOF, and its mutant with ten NOPs in front. */
  lemma ReturnCrosses(env: Env, code: seq<Instr>, m: seq<Instr>, ranges: StageRanges, ranges': StageRanges,
                      phv: Phv, heaps: Heaps, heaps': Heaps)
    requires code == [Instr(MEM_READ, false), Instr(RETURN, false)] && m == seq(10, i => NOP_INSTR) + code
    requires |ranges| == |heaps| == |ranges'| == |heaps'| == STAGES && ranges'[10] == ranges[0] && heaps'[10] == heaps[0]
    requires !phv.complete && !phv.disabled && !phv.done
    ensures Setting(code, [0], [10], m, ranges, ranges')
    ensures Exec(env, ranges, code, 2, phv, heaps).0.done && !Exec(env, ranges', m, 12, phv, heaps').0.done
  {
    hide Setting, Exec, ReturnsAt, EndsAt, Position;
    ReturnSetting(code, m, ranges, ranges');
    ReturnHeaps(heaps, heaps');
    ReturnRuns(env, code, ranges, phv, heaps);
    assert CrossesAt(env, ranges, code, phv, heaps, [0], [10], 1);
    DoneDiffers(env, code, [0], [10], m, ranges, ranges', phv, heaps, heaps');
  }

  lemma ReturnHeaps(heaps: Heaps, heaps': Heaps)
    requires |heaps| == |heaps'| == STAGES && heaps'[10] == heaps[0]
    ensures Renamed(heaps, heaps', Stages([0]), Stages(Plus([0], [10])))
  {
    assert RenamedAt(heaps, heaps', Stages([0]), Stages(Plus([0], [10])), 0);
  }

  lemma ReturnSetting(code: seq<Instr>, m: seq<Instr>, ranges: StageRanges, ranges': StageRanges)
    requires code == [Instr(MEM_READ, false), Instr(RETURN, false)] && m == seq(10, i => NOP_INSTR) + code
    requires |ranges| == |ranges'| == STAGES && ranges'[10] == ranges[0]
    ensures Setting(code, [0], [10], m, ranges, ranges')
    ensures Position(code, [0], [10], 1) == 11
  {
    assert AccessesUpTo([0], 0) == 1 && AccessesUpTo([0], 1) == 1;
    assert Position(code, [0], [10], 0) == 10 && Position(code, [0], [10], 1) == 11;
    assert RenamedAt(ranges, ranges', Stages([0]), Stages(Plus([0], [10])), 0);
  }

  lemma ReturnRuns(env: Env, code: seq<Instr>, ranges: StageRanges, phv: Phv, heaps: Heaps)
    requires code == [Instr(MEM_READ, false), Instr(RETURN, false)] && |ranges| == |heaps| == STAGES
    requires !phv.complete && !phv.disabled && !phv.done
    ensures ReturnsAt(env, ranges, code, phv, heaps, 1) && forall j | 0 <= j < 2 :: !EndsAt(env, ranges, code, phv, heaps, j)
    ensures Exec(env, ranges, code, 2, phv, heaps).0.done
  {
    hide Exec, Decide, MoveWord, CopyWord, CompareWords, Calculate, DirectPacket, Supply;
    var r := Exec(env, ranges, code, 1, phv, heaps);
    ExecStart(env, ranges, code, phv, heaps);
    ExecNext(env, ranges, code, 0, phv, heaps, (phv, heaps));
    ReadKeepsFlags(env, ranges[0], phv, heaps[0]);
    ExecNext(env, ranges, code, 1, phv, heaps, r);
    ReturnIsRun(ranges[1], r.0);
    MarksNext(env, 1, ranges[1], code[1], r.0, r.1[1]);
  }

  lemma ReadKeepsFlags(env: Env, range: Option<(nat, nat)>, phv: Phv, heap: Heap)
    ensures var phv' := Apply(env, 0, range, Instr(MEM_READ, false), phv, heap).0;
            !phv.disabled ==> phv'.complete == phv.complete && phv'.disabled == phv.disabled
  {
  }

  lemma ReturnIsRun(range: Option<(nat, nat)>, phv: Phv)
    requires !phv.complete && !phv.disabled
    ensures Decide(RETURN, range, phv) == Some(Execute)
  {
  }
}
