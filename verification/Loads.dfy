/** Why a load of an argument word may be dropped under preload: the register still holds the word. */
module Loads {
  import opened Dimensions
  import opened Wrappers
  import opened Aliases
  import opened Machine
  import opened Mutants

  /** The registers that preload fills. */
  datatype Reg = MAR | MBR | MBR2

  function LoadOf(reg: Reg): Op
  {
    match reg
    case MAR => MAR_LOAD
    case MBR => MBR_LOAD
    case MBR2 => MBR2_LOAD
  }

  /** What the load would put into the register is there already. */
  predicate Holds(reg: Reg, phv: Phv)
  {
    match reg
    case MAR => phv.mar == phv.data0 % MAR_MASK
    case MBR => phv.mbr == phv.data1
    case MBR2 => phv.mbr2 == phv.data2
  }

  /** The instruction may change the register without loading it, or change its argument word. */
  predicate Interferes(op: Op, reg: Reg)
  {
    match reg
    case MAR =>
      || op.MAR_ADD_MBR? || op.MAR_ADD_MBR2? || op.MAR_MBR_ADD_MBR2? || op.BIT_AND_MAR_MBR? || op.COPY_MAR_MBR? || op.HASH?
    case MBR =>
      || op.MBR_EQUALS_MBR2? || op.MBR_EQUALS_DATA_0? || op.MBR_EQUALS_DATA_1? || op.MBR_EQUALS_DATA_2?
      || op.MBR_EQUALS_DATA_3? || op.MAX? || op.MIN? || op.SWAP_MBR_MBR2? || op.MBR_NOT? || op.MBR_SUBTRACT_MBR2?
      || op.MBR_ADD_MBR2? || op.BIT_OR_MBR_MBR2? || op.COPY_MBR_MBR2? || op.COPY_MBR_MAR?
      || (IsMemoryOp(op) && !op.MEM_WRITE?)
      || op.LOAD_SALT? || op.LOAD_QDELAY? || op.LOAD_QUEUE? || op.LOAD_PKTCOUNT?
    case MBR2 =>
      || op.REVMIN? || op.SWAP_MBR_MBR2? || op.COPY_MBR2_MBR? || op.MEM_MINREAD? || op.MEM_MINREADINC?
      || op.MBR_STORE_ALT2?
  }

  lemma MovesKeep(op: Op, phv: Phv, reg: Reg)
    requires Holds(reg, phv) && !Interferes(op, reg)
    ensures Holds(reg, MoveWord(op, phv))
  {
  }

  lemma CopiesKeep(op: Op, phv: Phv, reg: Reg)
    requires Holds(reg, phv) && !Interferes(op, reg)
    ensures Holds(reg, CopyWord(op, phv))
  {
  }

  lemma ComparisonsKeep(op: Op, phv: Phv, reg: Reg)
    requires Holds(reg, phv) && !Interferes(op, reg)
    ensures Holds(reg, CompareWords(op, phv))
  {
    hide Xor, Machine.Least, Greatest;
  }

  lemma ArithmeticKeeps(op: Op, phv: Phv, reg: Reg)
    requires Holds(reg, phv) && !Interferes(op, reg)
    ensures Holds(reg, Calculate(op, phv))
  {
    hide Add, Subtract, And, Or, Not;
  }

  lemma ForwardingKeeps(op: Op, phv: Phv, reg: Reg)
    requires Holds(reg, phv) && !Interferes(op, reg)
    ensures Holds(reg, DirectPacket(op, phv))
  {
  }

  lemma ControlKeeps(stage: nat, op: Op, phv: Phv, reg: Reg)
    requires Holds(reg, phv) && !Interferes(op, reg)
    ensures Holds(reg, Steer(stage, op, phv))
  {
  }

  lemma SupplyKeeps(env: Env, stage: nat, op: Op, phv: Phv, reg: Reg)
    requires Holds(reg, phv) && !Interferes(op, reg)
    ensures Holds(reg, Supply(env, stage, op, phv))
  {
  }

  lemma PerformKeeps(env: Env, stage: nat, op: Op, phv: Phv, reg: Reg)
    requires Holds(reg, phv) && !Interferes(op, reg)
    ensures Holds(reg, Perform(env, stage, op, phv))
  {
    hide MoveWord, CopyWord, CompareWords, Calculate, DirectPacket, Steer, Supply, Interferes, Holds;
    hide IsWordMove, IsCopy, IsComparison, IsArithmetic, IsForwarding, IsControl;
    MovesKeep(op, phv, reg);
    CopiesKeep(op, phv, reg);
    ComparisonsKeep(op, phv, reg);
    ArithmeticKeeps(op, phv, reg);
    ForwardingKeeps(op, phv, reg);
    ControlKeeps(stage, op, phv, reg);
    SupplyKeeps(env, stage, op, phv, reg);
  }

  lemma AccessKeeps(op: Op, phv: Phv, cell: nat, reg: Reg)
    requires Holds(reg, phv) && !Interferes(op, reg) && IsMemoryOp(op)
    ensures Holds(reg, Access(op, phv, cell).0)
  {
  }

  /** An instruction that does not interfere keeps the register loaded. */
  lemma ApplyKeeps(env: Env, stage: nat, range: Option<(nat, nat)>, instr: Instr, phv: Phv, heap: Heap, reg: Reg)
    requires Holds(reg, phv) && !Interferes(instr.op, reg)
    ensures Holds(reg, Apply(env, stage, range, instr, phv, heap).0)
  {
    hide Perform, Access, Decide, Interferes;
    if IsMemoryOp(instr.op) {
      AccessKeeps(instr.op, phv, Cell(heap, phv.mar), reg);
    } else {
      PerformKeeps(env, stage, instr.op, phv, reg);
    }
  }

  /** The load has nothing to do: the packet is past the end of its program, jumps over it without being
      caught by its label, or holds the argument word in the register already. */
  predicate Idle(instr: Instr, reg: Reg, phv: Phv)
  {
    phv.complete || if phv.disabled then !instr.goto else Holds(reg, phv)
  }

  /** A load does nothing exactly if it is idle. */
  lemma LoadIsNeutral(env: Env, stage: nat, range: Option<(nat, nat)>, instr: Instr, reg: Reg, phv: Phv, heap: Heap)
    requires instr.op == LoadOf(reg)
    ensures Apply(env, stage, range, instr, phv, heap) == (phv, heap) <==> Idle(instr, reg, phv)
    ensures Apply(env, stage, range, instr, phv, heap).0.done == phv.done
  {
  }

  /** With preload a packet enters with its registers loaded, without it with empty ones; its argument words
      are those it was sent with, and nothing has happened to it. */
  lemma EntersLoaded(data: (nat, nat, nat, nat), preload: bool)
    ensures var phv := Entering(data, preload);
            && (if preload then IsPreloaded(phv) else phv.mar == phv.mbr == phv.mbr2 == 0)
            && (phv.data0, phv.data1, phv.data2, phv.data3) == data && phv.hashData == [0, 0, 0, 0, 0]
            && !phv.complete && !phv.disabled && !phv.done && phv.forwards == []
  {
  }

  /** Preload fills the registers; the address register only if its argument word fits. */
  lemma PreloadHolds(data: (nat, nat, nat, nat), reg: Reg, phv: Phv)
    requires phv.mar == data.0 && phv.mbr == data.1 && phv.mbr2 == data.2
    requires phv.data0 == data.0 && phv.data1 == data.1 && phv.data2 == data.2
    ensures Holds(reg, phv) <==> reg != MAR || data.0 < MAR_MASK
  {
  }

  // ---- dropping instructions ------------------------------------------------------------

  /** The program without the instructions at the dropped positions. */
  function Thinned(code: seq<Instr>, dropped: set<nat>): seq<Instr>
  {
    if code == [] then [] else
      var n := |code| - 1;
      Thinned(code[..n], dropped) + if n in dropped then [] else [code[n]]
  }

  /** Where instruction i ends up. */
  function NewIndex(code: seq<Instr>, dropped: set<nat>, i: nat): nat
    requires i <= |code|
  {
    |Thinned(code[..i], dropped)|
  }

  lemma ThinnedNext(code: seq<Instr>, dropped: set<nat>, i: nat)
    requires i < |code|
    ensures Thinned(code[..i + 1], dropped) == Thinned(code[..i], dropped) + if i in dropped then [] else [code[i]]
    ensures NewIndex(code, dropped, i + 1) == NewIndex(code, dropped, i) + if i in dropped then 0 else 1
  {
    assert code[..i + 1][..i] == code[..i];
  }

  lemma {:induction false} ThinnedPrefix(code: seq<Instr>, dropped: set<nat>, i: nat)
    requires i <= |code|
    ensures NewIndex(code, dropped, i) <= |Thinned(code, dropped)|
    ensures Thinned(code, dropped)[..NewIndex(code, dropped, i)] == Thinned(code[..i], dropped)
    decreases |code| - i
  {
    if i == |code| {
      assert code[..i] == code;
    } else {
      ThinnedNext(code, dropped, i);
      ThinnedPrefix(code, dropped, i + 1);
    }
  }

  /** A kept instruction is found at its new index. */
  lemma KeptInstruction(code: seq<Instr>, dropped: set<nat>, i: nat)
    requires i < |code| && i !in dropped
    ensures NewIndex(code, dropped, i) < |Thinned(code, dropped)|
    ensures Thinned(code, dropped)[NewIndex(code, dropped, i)] == code[i]
    ensures NewIndex(code, dropped, i + 1) == NewIndex(code, dropped, i) + 1
  {
    ThinnedNext(code, dropped, i);
    ThinnedPrefix(code, dropped, i + 1);
    var thinned, p := Thinned(code, dropped), NewIndex(code, dropped, i);
    assert thinned[..p + 1][p] == thinned[p];
  }

  function NewIndices(code: seq<Instr>, dropped: set<nat>, accesses: seq<nat>): (r: seq<nat>)
    requires forall k | 0 <= k < |accesses| :: accesses[k] < |code|
    ensures |r| == |accesses| && forall k | 0 <= k < |r| :: r[k] == NewIndex(code, dropped, accesses[k])
  {
    seq(|accesses|, k requires 0 <= k < |accesses| => NewIndex(code, dropped, accesses[k]))
  }

  /** Position p loads a register and may be dropped: it is unlabelled, and nothing before it interferes. */
  ghost predicate Droppable(code: seq<Instr>, p: nat, reg: Reg)
  {
    p < |code| && code[p] == Instr(LoadOf(reg), false) && forall q | 0 <= q < p :: !Interferes(code[q].op, reg)
  }

  ghost predicate DroppableAt(code: seq<Instr>, p: nat)
  {
    exists reg: Reg :: Droppable(code, p, reg)
  }

  /** Instruction i may move: it is dropped, or depends on no stage, or stays where it is. */
  ghost predicate MayShift(code: seq<Instr>, dropped: set<nat>, i: nat)
    requires i < |code|
  {
    i in dropped || StageFree(code[i].op) || StageAt(NewIndex(code, dropped, i)) == StageAt(i)
  }

  ghost predicate IsLoad(code: seq<Instr>, p: nat)
  {
    p < |code| && exists reg: Reg :: code[p].op == LoadOf(reg)
  }

  /** The dropped instructions are loads, and the others may move. */
  ghost predicate Thinning(code: seq<Instr>, dropped: set<nat>, accesses: seq<nat>, ranges: StageRanges, ranges': StageRanges)
  {
    && AccessesOf(code, accesses) && (forall k | 0 <= k < |accesses| :: accesses[k] < |code|)
    && (forall p | p in dropped :: IsLoad(code, p))
    && (forall i | 0 <= i < |code| :: MayShift(code, dropped, i))
    && SameAliases(Stages(accesses), Stages(NewIndices(code, dropped, accesses)))
    && Renamed(ranges, ranges', Stages(accesses), Stages(NewIndices(code, dropped, accesses)))
  }

  lemma ThinningInside(code: seq<Instr>, dropped: set<nat>, accesses: seq<nat>, ranges: StageRanges, ranges': StageRanges)
    requires Thinning(code, dropped, accesses, ranges, ranges')
    ensures forall k | 0 <= k < |accesses| :: accesses[k] < |code|
  {
  }

  /** Instruction j is kept, or a load that has nothing to do when the packet gets there. */
  ghost predicate IdleAt(env: Env, ranges: StageRanges, code: seq<Instr>, dropped: set<nat>, phv: Phv, heaps: Heaps, j: nat)
    requires |ranges| == |heaps| == STAGES && j < |code|
  {
    j in dropped ==> forall reg: Reg | code[j].op == LoadOf(reg) :: Idle(code[j], reg, Exec(env, ranges, code, j, phv, heaps).0)
  }

  /** The registers whose loads are dropped at i or later still hold their words. */
  ghost predicate StillHeld(code: seq<Instr>, dropped: set<nat>, phv: Phv, i: nat)
  {
    forall p, reg: Reg | p in dropped && i <= p && Droppable(code, p, reg) :: Holds(reg, phv)
  }

  /** One instruction, kept or dropped. */
  lemma ThinStep(env: Env, code: seq<Instr>, dropped: set<nat>, accesses: seq<nat>, ranges: StageRanges, ranges': StageRanges,
                 heaps: Heaps, heaps': Heaps, r: (Phv, Heaps), r': (Phv, Heaps), i: nat)
    requires Thinning(code, dropped, accesses, ranges, ranges') && i < |code| && i !in dropped
    requires Agree(r, r', heaps, heaps', Stages(accesses), Stages(NewIndices(code, dropped, accesses)))
    ensures var x, y := StageAt(i), StageAt(NewIndex(code, dropped, i));
            var (phv, heap) := Apply(env, x, ranges[x], code[i], r.0, r.1[x]);
            var (phv', heap') := Apply(env, y, ranges'[y], code[i], r'.0, r'.1[y]);
            Agree((phv, r.1[x := heap]), (phv', r'.1[y := heap']), heaps, heaps', Stages(accesses),
                  Stages(NewIndices(code, dropped, accesses)))
  {
    hide Apply, Renamed, SameAliases;
    var a, b := Stages(accesses), Stages(NewIndices(code, dropped, accesses));
    var x, y := StageAt(i), StageAt(NewIndex(code, dropped, i));
    if IsMemoryOp(code[i].op) {
      assert i in accesses;
      var k :| 0 <= k < |accesses| && accesses[k] == i;
      assert a[k] == x && b[k] == y;
    } else {
      assert MayShift(code, dropped, i);
    }
    StepMoved(env, code[i], x, y, a, b, ranges, ranges', heaps, heaps', r, r');
  }

  lemma HeldNext(env: Env, stage: nat, range: Option<(nat, nat)>, code: seq<Instr>, dropped: set<nat>, phv: Phv, heap: Heap, i: nat)
    requires i < |code| && StillHeld(code, dropped, phv, i)
    ensures StillHeld(code, dropped, Apply(env, stage, range, code[i], phv, heap).0, i + 1)
  {
    hide Apply, Interferes, Holds;
    forall p, reg: Reg | p in dropped && i + 1 <= p && Droppable(code, p, reg)
      ensures Holds(reg, Apply(env, stage, range, code[i], phv, heap).0)
    {
      ApplyKeeps(env, stage, range, code[i], phv, heap, reg);
    }
  }

  /** After i instructions the program and the thinned one agree. */
  ghost predicate AgreesAt(env: Env, code: seq<Instr>, dropped: set<nat>, accesses: seq<nat>, ranges: StageRanges,
                           ranges': StageRanges, phv: Phv, heaps: Heaps, heaps': Heaps, i: nat)
    requires |ranges| == |heaps| == |ranges'| == |heaps'| == STAGES && i <= |code|
    requires forall k | 0 <= k < |accesses| :: accesses[k] < |code|
  {
    && NewIndex(code, dropped, i) <= |Thinned(code, dropped)|
    && Agree(Exec(env, ranges, code, i, phv, heaps),
             Exec(env, ranges', Thinned(code, dropped), NewIndex(code, dropped, i), phv, heaps'),
             heaps, heaps', Stages(accesses), Stages(NewIndices(code, dropped, accesses)))
  }

  /** A kept instruction keeps the two runs in agreement. */
  lemma KeptAgrees(env: Env, code: seq<Instr>, dropped: set<nat>, accesses: seq<nat>, ranges: StageRanges, ranges': StageRanges,
                   phv: Phv, heaps: Heaps, heaps': Heaps, j: nat)
    requires Thinning(code, dropped, accesses, ranges, ranges') && j < |code| && j !in dropped
    requires |ranges| == |heaps| == |ranges'| == |heaps'| == STAGES
    requires AgreesAt(env, code, dropped, accesses, ranges, ranges', phv, heaps, heaps', j)
    ensures AgreesAt(env, code, dropped, accesses, ranges, ranges', phv, heaps, heaps', j + 1)
  {
    hide Apply, Renamed, SameAliases, OthersKept, SamePacket, Agree, Thinned, NewIndices, IsLoad, MayShift;
    KeptInstruction(code, dropped, j);
    ThinnedPrefix(code, dropped, j + 1);
    ThinStep(env, code, dropped, accesses, ranges, ranges', heaps, heaps', Exec(env, ranges, code, j, phv, heaps),
             Exec(env, ranges', Thinned(code, dropped), NewIndex(code, dropped, j), phv, heaps'), j);
  }

  /** A dropped load keeps them in agreement exactly if it is idle. */
  lemma DroppedAgrees(env: Env, code: seq<Instr>, dropped: set<nat>, accesses: seq<nat>, ranges: StageRanges, ranges': StageRanges,
                      phv: Phv, heaps: Heaps, heaps': Heaps, j: nat)
    requires Thinning(code, dropped, accesses, ranges, ranges') && j < |code| && j in dropped
    requires |ranges| == |heaps| == |ranges'| == |heaps'| == STAGES
    requires AgreesAt(env, code, dropped, accesses, ranges, ranges', phv, heaps, heaps', j)
    ensures AgreesAt(env, code, dropped, accesses, ranges, ranges', phv, heaps, heaps', j + 1)
            <==> IdleAt(env, ranges, code, dropped, phv, heaps, j)
  {
    hide Apply, Renamed, SameAliases, OthersKept, Thinned, NewIndices, MayShift, Idle;
    var r, x := Exec(env, ranges, code, j, phv, heaps), StageAt(j);
    assert IsLoad(code, j);
    var reg: Reg :| code[j].op == LoadOf(reg);
    LoadKeepsHeap(env, x, ranges[x], code[j], reg, r.0, r.1[x]);
    LoadIsNeutral(env, x, ranges[x], code[j], reg, r.0, r.1[x]);
    ExecNext(env, ranges, code, j, phv, heaps, r);
    assert r.1[x := r.1[x]] == r.1;
    ThinnedNext(code, dropped, j);
    ThinnedPrefix(code, dropped, j + 1);
  }

  lemma LoadKeepsHeap(env: Env, stage: nat, range: Option<(nat, nat)>, instr: Instr, reg: Reg, phv: Phv, heap: Heap)
    requires instr.op == LoadOf(reg)
    ensures Apply(env, stage, range, instr, phv, heap).1 == heap
  {
  }

  /** As long as the dropped loads are idle the thinned program agrees with the program. */
  lemma {:induction false} ThinnedAgrees(env: Env, code: seq<Instr>, dropped: set<nat>, accesses: seq<nat>,
                                         ranges: StageRanges, ranges': StageRanges, phv: Phv, heaps: Heaps, heaps': Heaps, i: nat)
    requires Thinning(code, dropped, accesses, ranges, ranges') && i <= |code|
    requires |ranges| == |heaps| == |ranges'| == |heaps'| == STAGES
    requires Renamed(heaps, heaps', Stages(accesses), Stages(NewIndices(code, dropped, accesses)))
    requires forall j | 0 <= j < i :: IdleAt(env, ranges, code, dropped, phv, heaps, j)
    ensures AgreesAt(env, code, dropped, accesses, ranges, ranges', phv, heaps, heaps', i)
    decreases i
  {
    ThinningInside(code, dropped, accesses, ranges, ranges');
    hide Thinning, IdleAt, Apply, Renamed, SameAliases, OthersKept, SamePacket, Thinned, NewIndices;
    if i == 0 {
      KeptItself(heaps, Stages(accesses));
      KeptItself(heaps', Stages(NewIndices(code, dropped, accesses)));
      SameItself(phv);
      NewIndexZero(code, dropped);
    } else {
      hide AgreesAt;
      ThinnedAgrees(env, code, dropped, accesses, ranges, ranges', phv, heaps, heaps', i - 1);
      if i - 1 in dropped {
        DroppedAgrees(env, code, dropped, accesses, ranges, ranges', phv, heaps, heaps', i - 1);
      } else {
        KeptAgrees(env, code, dropped, accesses, ranges, ranges', phv, heaps, heaps', i - 1);
      }
    }
  }

  /** When dropping loads is right, run by run: the thinned program agrees with the program after every
      instruction exactly if every dropped load is idle when the packet gets to it. */
  lemma ThinnedAgreesIff(env: Env, code: seq<Instr>, dropped: set<nat>, accesses: seq<nat>,
                         ranges: StageRanges, ranges': StageRanges, phv: Phv, heaps: Heaps, heaps': Heaps)
    requires Thinning(code, dropped, accesses, ranges, ranges')
    requires |ranges| == |heaps| == |ranges'| == |heaps'| == STAGES
    requires Renamed(heaps, heaps', Stages(accesses), Stages(NewIndices(code, dropped, accesses)))
    ensures (forall i | 0 <= i <= |code| :: AgreesAt(env, code, dropped, accesses, ranges, ranges', phv, heaps, heaps', i))
            <==> forall j | 0 <= j < |code| :: IdleAt(env, ranges, code, dropped, phv, heaps, j)
  {
    ThinningInside(code, dropped, accesses, ranges, ranges');
    hide Thinning, AgreesAt, Renamed, NewIndices, Idle;
    if forall i | 0 <= i <= |code| :: AgreesAt(env, code, dropped, accesses, ranges, ranges', phv, heaps, heaps', i) {
      forall j | 0 <= j < |code| ensures IdleAt(env, ranges, code, dropped, phv, heaps, j) {
        if j in dropped {
          DroppedAgrees(env, code, dropped, accesses, ranges, ranges', phv, heaps, heaps', j);
        }
      }
    }
    if forall j | 0 <= j < |code| :: IdleAt(env, ranges, code, dropped, phv, heaps, j) {
      forall i | 0 <= i <= |code| ensures AgreesAt(env, code, dropped, accesses, ranges, ranges', phv, heaps, heaps', i) {
        ThinnedAgrees(env, code, dropped, accesses, ranges, ranges', phv, heaps, heaps', i);
      }
    }
  }

  lemma NewIndexZero(code: seq<Instr>, dropped: set<nat>)
    ensures NewIndex(code, dropped, 0) == 0
  {
    assert code[..0] == [];
  }

  /** Registers whose loads are droppable stay loaded up to the load. */
  lemma {:induction false} HeldAlong(env: Env, ranges: StageRanges, code: seq<Instr>, dropped: set<nat>, phv: Phv, heaps: Heaps, i: nat)
    requires |ranges| == |heaps| == STAGES && i <= |code| && StillHeld(code, dropped, phv, 0)
    ensures StillHeld(code, dropped, Exec(env, ranges, code, i, phv, heaps).0, i)
    decreases i
  {
    hide Apply, StillHeld;
    if i > 0 {
      HeldAlong(env, ranges, code, dropped, phv, heaps, i - 1);
      var r, x := Exec(env, ranges, code, i - 1, phv, heaps), StageAt(i - 1);
      HeldNext(env, x, ranges[x], code, dropped, r.0, r.1[x], i - 1);
    }
  }

  /** Droppable loads are idle in every run of a preloaded packet. */
  lemma DroppableIsIdle(env: Env, ranges: StageRanges, code: seq<Instr>, dropped: set<nat>, phv: Phv, heaps: Heaps, j: nat)
    requires |ranges| == |heaps| == STAGES && j < |code| && StillHeld(code, dropped, phv, 0)
    requires j in dropped ==> DroppableAt(code, j)
    ensures IdleAt(env, ranges, code, dropped, phv, heaps, j)
  {
    if j in dropped {
      HeldAlong(env, ranges, code, dropped, phv, heaps, j);
      var reg: Reg :| Droppable(code, j, reg);
    }
  }

  /** The load of the address register is among the dropped ones. */
  ghost predicate DropsAddress(code: seq<Instr>, dropped: set<nat>)
  {
    exists p :: p in dropped && p < |code| && code[p].op == MAR_LOAD
  }

  /** If the program ends with EOF, so does the thinned one, and the done flags agree in the end. */
  lemma ThinnedEnds(env: Env, code: seq<Instr>, dropped: set<nat>, accesses: seq<nat>, ranges: StageRanges,
                    ranges': StageRanges, phv: Phv, heaps: Heaps, heaps': Heaps)
    requires Thinning(code, dropped, accesses, ranges, ranges') && Ends(code) && (phv.complete ==> !phv.disabled)
    requires |ranges| == |heaps| == |ranges'| == |heaps'| == STAGES
    requires AgreesAt(env, code, dropped, accesses, ranges, ranges', phv, heaps, heaps', |code| - 1)
    ensures var thinned := Thinned(code, dropped);
            Exec(env, ranges, code, |code|, phv, heaps).0 == Exec(env, ranges', thinned, |thinned|, phv, heaps').0
  {
    hide Exec, Renamed, OthersKept, SamePacket, MayShift, NewIndices, IsLoad, Thinned;
    var j := |code| - 1;
    LastIsKept(code, dropped);
    BothEnd(env, code, Thinned(code, dropped), ranges, ranges', phv, heaps, heaps', NewIndex(code, dropped, j));
  }

  lemma LastIsKept(code: seq<Instr>, dropped: set<nat>)
    requires Ends(code) && forall p | p in dropped :: IsLoad(code, p)
    ensures NewIndex(code, dropped, |code| - 1) == |Thinned(code, dropped)| - 1
    ensures Thinned(code, dropped)[|Thinned(code, dropped)| - 1] == code[|code| - 1]
  {
    forall p | p in dropped ensures p != |code| - 1 {
      assert IsLoad(code, p);
    }
    KeptInstruction(code, dropped, |code| - 1);
    assert code[..|code|] == code;
  }

  /** Dropping droppable loads changes nothing: for a preloaded packet whose address word fits if its load
      is dropped, the thinned program leaves the same registers, argument words, flags and forwarding
      decisions, and the same heaps on the stages its accesses have moved to. The done flag alone may
      differ if the program returns early and does not end with EOF. */
  lemma ThinnedMeansProgram(env: Env, code: seq<Instr>, dropped: set<nat>, accesses: seq<nat>, ranges: StageRanges,
                            ranges': StageRanges, phv: Phv, heaps: Heaps, heaps': Heaps)
    requires Thinning(code, dropped, accesses, ranges, ranges') && IsPreloaded(phv)
    requires forall p | p in dropped :: DroppableAt(code, p)
    requires DropsAddress(code, dropped) ==> phv.data0 < MAR_MASK
    requires Renamed(heaps, heaps', Stages(accesses), Stages(NewIndices(code, dropped, accesses)))
    ensures |ranges| == |heaps| == |ranges'| == |heaps'| == STAGES
    ensures var thinned := Thinned(code, dropped);
            var r, r' := Exec(env, ranges, code, |code|, phv, heaps), Exec(env, ranges', thinned, |thinned|, phv, heaps');
            && SamePacket(r.0, r'.0) && (Ends(code) && (phv.complete ==> !phv.disabled) ==> r.0 == r'.0)
            && Renamed(r.1, r'.1, Stages(accesses), Stages(NewIndices(code, dropped, accesses)))
            && OthersKept(heaps', r'.1, Stages(NewIndices(code, dropped, accesses)))
  {
    hide Exec, Renamed, OthersKept, SamePacket, NewIndices, Ends, IdleAt;
    RenamedLengths(heaps, heaps', Stages(accesses), Stages(NewIndices(code, dropped, accesses)));
    RenamedLengths(ranges, ranges', Stages(accesses), Stages(NewIndices(code, dropped, accesses)));
    PreloadIsHeld(code, dropped, phv);
    forall j | 0 <= j < |code| ensures IdleAt(env, ranges, code, dropped, phv, heaps, j) {
      DroppableIsIdle(env, ranges, code, dropped, phv, heaps, j);
    }
    ThinnedAgrees(env, code, dropped, accesses, ranges, ranges', phv, heaps, heaps', |code|);
    assert code[..|code|] == code;
    if Ends(code) && (phv.complete ==> !phv.disabled) {
      EndsNonempty(code);
      ThinnedAgrees(env, code, dropped, accesses, ranges, ranges', phv, heaps, heaps', |code| - 1);
      ThinnedEnds(env, code, dropped, accesses, ranges, ranges', phv, heaps, heaps');
    }
  }

  lemma EndsNonempty(code: seq<Instr>)
    requires Ends(code)
    ensures |code| > 0
  {
  }

  lemma PreloadIsHeld(code: seq<Instr>, dropped: set<nat>, phv: Phv)
    requires IsPreloaded(phv) && (DropsAddress(code, dropped) ==> phv.data0 < MAR_MASK)
    ensures StillHeld(code, dropped, phv, 0)
  {
    forall p, reg: Reg | p in dropped && 0 <= p && Droppable(code, p, reg) ensures Holds(reg, phv) {
      PreloadHolds((phv.data0, phv.data1, phv.data2, phv.data3), reg, phv);
    }
  }

  /** The registers hold the argument words. */
  predicate IsPreloaded(phv: Phv)
  {
    phv.mar == phv.data0 && phv.mbr == phv.data1 && phv.mbr2 == phv.data2
  }
}
