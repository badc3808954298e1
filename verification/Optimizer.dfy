/** The client compiler's load elimination: which loads its bookkeeping drops, and when that is right. */
module Optimizer {
  import opened Dimensions
  import opened Ordered
  import opened Wrappers
  import opened Aliases
  import opened Machine
  import opened Mutants
  import opened Loads

  // ---- the bookkeeping ------------------------------------------------------------------

  /** The register the compiler associates with an instruction: the one named first in its mnemonic, or
      for a few mnemonics that name none, one listed as written. Memory instructions have none. */
  function Tracked(op: Op): Option<Reg>
  {
    match op
    case MAR_LOAD => Some(MAR) case MAR_ADD_MBR => Some(MAR) case MAR_ADD_MBR2 => Some(MAR)
    case MAR_MBR_ADD_MBR2 => Some(MAR) case BIT_AND_MAR_MBR => Some(MAR) case COPY_MAR_MBR => Some(MAR)
    case HASH => Some(MAR)
    case MBR2_LOAD => Some(MBR2) case COPY_MBR2_MBR => Some(MBR2) case COPY_HASHDATA_MBR2 => Some(MBR2)
    case REVMIN => Some(MBR2)
    case MBR_LOAD => Some(MBR) case MBR_STORE => Some(MBR) case MBR_STORE_ALT => Some(MBR)
    case MBR_STORE_ALT2 => Some(MBR) case MBR_EQUALS_MBR2 => Some(MBR) case MBR_EQUALS_DATA_0 => Some(MBR)
    case MBR_EQUALS_DATA_1 => Some(MBR) case MBR_EQUALS_DATA_2 => Some(MBR) case MBR_EQUALS_DATA_3 => Some(MBR)
    case SWAP_MBR_MBR2 => Some(MBR) case MBR_NOT => Some(MBR) case MBR_SUBTRACT_MBR2 => Some(MBR)
    case MBR_ADD_MBR2 => Some(MBR) case BIT_OR_MBR_MBR2 => Some(MBR) case COPY_MBR_MBR2 => Some(MBR)
    case COPY_MBR_MAR => Some(MBR) case COPY_HASHDATA_MBR => Some(MBR)
    case MAX => Some(MBR) case MIN => Some(MBR) case LOAD_QDELAY => Some(MBR) case LOAD_QUEUE => Some(MBR)
    case _ => None
  }

  /** The mnemonic says LOAD. */
  predicate SaysLoad(op: Op)
  {
    || op.MAR_LOAD? || op.MBR_LOAD? || op.MBR2_LOAD? || op.LOAD_SALT? || op.LOAD_TCP_5TUPLE? || op.LOAD_QDELAY?
    || op.LOAD_QUEUE? || op.LOAD_PKTCOUNT?
  }

  /** The register loaded from an argument word, if the instruction is such a load. */
  function LoadedReg(op: Op): (reg: Option<Reg>)
    ensures reg.Some? <==> op.MAR_LOAD? || op.MBR_LOAD? || op.MBR2_LOAD?
    ensures reg.Some? ==> op == LoadOf(reg.value)
  {
    match op
    case MAR_LOAD => Some(MAR)
    case MBR_LOAD => Some(MBR)
    case MBR2_LOAD => Some(MBR2)
    case _ => None
  }

  predicate Mentions(code: seq<Instr>, i: nat, reg: Reg)
    requires i < |code|
  {
    Tracked(code[i].op) == Some(reg)
  }

  /** Some instruction before i mentions the register. */
  ghost predicate Referenced(code: seq<Instr>, i: nat, reg: Reg)
    requires i <= |code|
  {
    exists j: nat :: j < i && Mentions(code, j, reg)
  }

  /** Instruction i is the first one that mentions the register and says LOAD. */
  ghost predicate IsFirstLoad(code: seq<Instr>, i: nat, reg: Reg)
  {
    && i < |code| && Mentions(code, i, reg) && SaysLoad(code[i].op)
    && forall j: nat | j < i && Mentions(code, j, reg) :: !SaysLoad(code[j].op)
  }

  /** What is recorded for a register: its first load, and whether it was mentioned before. */
  ghost predicate RecordedAt(code: seq<Instr>, n: nat, regLoad: map<Reg, (nat, bool)>, reg: Reg)
    requires n <= |code|
  {
    && (reg in regLoad <==> exists i: nat :: i < n && IsFirstLoad(code, i, reg))
    && (reg in regLoad ==> regLoad[reg].0 < n && IsFirstLoad(code, regLoad[reg].0, reg)
                           && (regLoad[reg].1 <==> Referenced(code, regLoad[reg].0, reg)))
  }

  ghost predicate Recorded(code: seq<Instr>, n: nat, regLoad: map<Reg, (nat, bool)>, referenced: set<Reg>)
    requires n <= |code|
  {
    && (forall reg: Reg :: RecordedAt(code, n, regLoad, reg))
    && forall reg: Reg :: reg in referenced <==> Referenced(code, n, reg)
  }

  /** Notes the first load of every register. */
  method Track(code: seq<Instr>) returns (regLoad: map<Reg, (nat, bool)>)
    ensures forall reg: Reg :: RecordedAt(code, |code|, regLoad, reg)
  {
    regLoad := map[];
    var referenced: set<Reg> := {};
    var i := 0;
    while i < |code|
      invariant 0 <= i <= |code| && Recorded(code, i, regLoad, referenced)
    {
      var reg := Tracked(code[i].op);
      ghost var regLoad0, referenced0 := regLoad, referenced;
      if reg.Some? {
        if SaysLoad(code[i].op) && reg.value !in regLoad {
          regLoad := regLoad[reg.value := (i, reg.value in referenced)];
        }
        referenced := referenced + {reg.value};
      }
      RecordedNext(code, i, regLoad0, referenced0, regLoad, referenced);
      i := i + 1;
    }
  }

  lemma RecordedNext(code: seq<Instr>, i: nat, regLoad: map<Reg, (nat, bool)>, referenced: set<Reg>,
                     regLoad': map<Reg, (nat, bool)>, referenced': set<Reg>)
    requires i < |code| && Recorded(code, i, regLoad, referenced)
    requires var reg := Tracked(code[i].op);
             && referenced' == (if reg.Some? then referenced + {reg.value} else referenced)
             && regLoad' == if reg.Some? && SaysLoad(code[i].op) && reg.value !in regLoad
                            then regLoad[reg.value := (i, reg.value in referenced)] else regLoad
    ensures Recorded(code, i + 1, regLoad', referenced')
  {
    var n := i + 1;
    forall reg: Reg
      ensures RecordedAt(code, n, regLoad', reg)
      ensures reg in referenced' <==> Referenced(code, n, reg)
    {
      assert RecordedAt(code, i, regLoad, reg);
      ReferencedNext(code, i, reg);
      FirstLoadNext(code, i, regLoad, reg);
    }
  }

  lemma ReferencedNext(code: seq<Instr>, i: nat, reg: Reg)
    requires i < |code|
    ensures Referenced(code, i + 1, reg) <==> Referenced(code, i, reg) || Mentions(code, i, reg)
  {
    if Referenced(code, i, reg) {
      var j: nat :| j < i && Mentions(code, j, reg);
      assert j < i + 1 && Mentions(code, j, reg);
    }
    if Mentions(code, i, reg) {
      assert i < i + 1 && Mentions(code, i, reg);
    }
  }

  lemma FirstLoadNext(code: seq<Instr>, i: nat, regLoad: map<Reg, (nat, bool)>, reg: Reg)
    requires i < |code| && RecordedAt(code, i, regLoad, reg)
    ensures (exists j: nat :: j < i + 1 && IsFirstLoad(code, j, reg)) <==>
            reg in regLoad || (Mentions(code, i, reg) && SaysLoad(code[i].op))
    ensures reg !in regLoad && Mentions(code, i, reg) && SaysLoad(code[i].op) ==> IsFirstLoad(code, i, reg)
  {
    if reg in regLoad {
      assert regLoad[reg].0 < i + 1 && IsFirstLoad(code, regLoad[reg].0, reg);
    } else {
      forall j: nat | j < i && Mentions(code, j, reg) ensures !SaysLoad(code[j].op) {
        if SaysLoad(code[j].op) {
          FirstLoadExists(code, j, reg);
        }
      }
      if Mentions(code, i, reg) && SaysLoad(code[i].op) {
        assert i < i + 1 && IsFirstLoad(code, i, reg);
      }
    }
  }

  lemma {:induction false} FirstLoadExists(code: seq<Instr>, j: nat, reg: Reg)
    requires j < |code| && Mentions(code, j, reg) && SaysLoad(code[j].op)
    ensures exists i: nat :: i <= j && IsFirstLoad(code, i, reg)
    decreases j
  {
    if k: nat :| k < j && Mentions(code, k, reg) && SaysLoad(code[k].op) {
      FirstLoadExists(code, k, reg);
    } else {
      assert IsFirstLoad(code, j, reg);
    }
  }

  // ---- what is dropped ------------------------------------------------------------------

  /** Position p holds the first load of a register from its argument word. */
  ghost predicate IsFirstWordLoad(code: seq<Instr>, p: nat, reg: Reg)
  {
    && p < |code| && LoadedReg(code[p].op) == Some(reg)
    && forall q: nat | q < p :: LoadedReg(code[q].op) != Some(reg)
  }

  /** The compiler drops a register's first load from its argument word, unless the register was mentioned
      before the first instruction that mentions it and says LOAD. */
  ghost predicate Drops(code: seq<Instr>, p: nat)
  {
    exists reg: Reg, i: nat :: IsFirstWordLoad(code, p, reg) && IsFirstLoad(code, i, reg) && !Referenced(code, i, reg)
  }

  ghost function DropSet(code: seq<Instr>): set<nat>
  {
    set p: nat | p < |code| && Drops(code, p)
  }

  lemma FirstLoadUnique(code: seq<Instr>, i: nat, j: nat, reg: Reg)
    requires IsFirstLoad(code, i, reg) && IsFirstLoad(code, j, reg)
    ensures i == j
  {
  }

  /** Whether instruction i is dropped, from what has been recorded. */
  lemma DropsNow(code: seq<Instr>, i: nat, regLoad: map<Reg, (nat, bool)>, skipped: bool, reg: Reg)
    requires i < |code| && LoadedReg(code[i].op) == Some(reg) && RecordedAt(code, |code|, regLoad, reg)
    requires skipped <==> exists q: nat :: q < i && LoadedReg(code[q].op) == Some(reg) && Drops(code, q)
    ensures Drops(code, i) <==> reg in regLoad && !regLoad[reg].1 && !skipped
  {
    assert Mentions(code, i, reg) && SaysLoad(code[i].op);
    FirstLoadExists(code, i, reg);
    var f := regLoad[reg].0;
    assert IsFirstLoad(code, f, reg);
    if !skipped && !regLoad[reg].1 {
      FirstWordLoadExists(code, i, reg);
      var p: nat :| p <= i && IsFirstWordLoad(code, p, reg);
      assert Drops(code, p);
    }
    if Drops(code, i) {
      var reg': Reg, g: nat :| IsFirstWordLoad(code, i, reg') && IsFirstLoad(code, g, reg') && !Referenced(code, g, reg');
      FirstLoadUnique(code, f, g, reg);
    }
  }

  lemma {:induction false} FirstWordLoadExists(code: seq<Instr>, i: nat, reg: Reg)
    requires i < |code| && LoadedReg(code[i].op) == Some(reg)
    ensures exists p: nat :: p <= i && IsFirstWordLoad(code, p, reg)
    decreases i
  {
    if q: nat :| q < i && LoadedReg(code[q].op) == Some(reg) {
      FirstWordLoadExists(code, q, reg);
    } else {
      assert IsFirstWordLoad(code, i, reg);
    }
  }

  /** The registers whose load has been dropped among the first n instructions. */
  ghost predicate SkippedAre(code: seq<Instr>, n: nat, skipped: set<Reg>)
    requires n <= |code|
  {
    forall reg: Reg :: reg in skipped <==> SkippedIs(code, n, reg)
  }

  ghost predicate SkippedIs(code: seq<Instr>, n: nat, reg: Reg)
    requires n <= |code|
  {
    exists q: nat :: q < n && LoadedReg(code[q].op) == Some(reg) && Drops(code, q)
  }

  lemma SkippedNext(code: seq<Instr>, i: nat, skipped: set<Reg>, skipped': set<Reg>)
    requires i < |code| && SkippedAre(code, i, skipped)
    requires skipped' == if Drops(code, i) && LoadedReg(code[i].op).Some? then skipped + {LoadedReg(code[i].op).value} else skipped
    ensures SkippedAre(code, i + 1, skipped')
  {
    forall reg: Reg ensures reg in skipped' <==> SkippedIs(code, i + 1, reg) {
      assert reg in skipped <==> SkippedIs(code, i, reg);
      if SkippedIs(code, i, reg) {
        var q: nat :| q < i && LoadedReg(code[q].op) == Some(reg) && Drops(code, q);
        assert q < i + 1 && LoadedReg(code[q].op) == Some(reg) && Drops(code, q);
      }
    }
  }

  /** Only loads from argument words are dropped. */
  lemma DropsLoads(code: seq<Instr>, p: nat)
    requires Drops(code, p)
    ensures p < |code| && LoadedReg(code[p].op).Some?
  {
  }

  /** Drops the loads and finds the memory accesses of what is left. */
  method Optimize(code: seq<Instr>) returns (program: seq<Instr>, memidx: seq<nat>)
    ensures program == Thinned(code, DropSet(code)) && AccessesOf(program, memidx)
  {
    var regLoad := Track(code);
    program, memidx := [], [];
    var skipped: set<Reg> := {};
    var i := 0;
    while i < |code|
      invariant 0 <= i <= |code| && SkippedAre(code, i, skipped)
      invariant program == Thinned(code[..i], DropSet(code)) && AccessesOf(program, memidx)
    {
      var reg := LoadedReg(code[i].op);
      if reg.Some? {
        assert RecordedAt(code, |code|, regLoad, reg.value) && (reg.value in skipped <==> SkippedIs(code, i, reg.value));
        DropsNow(code, i, regLoad, reg.value in skipped, reg.value);
      }
      ThinnedNext(code, DropSet(code), i);
      if reg.Some? && reg.value in regLoad && !regLoad[reg.value].1 && reg.value !in skipped {
        SkippedNext(code, i, skipped, skipped + {reg.value});
        skipped := skipped + {reg.value};
      } else {
        NotDropped(code, i, regLoad, skipped);
        SkippedNext(code, i, skipped, skipped);
        ghost var program0, memidx0 := program, memidx;
        if IsMemoryOp(code[i].op) {
          memidx := memidx + [|program|];
        }
        program := program + [code[i]];
        AccessesNext(program0, memidx0, code[i]);
      }
      i := i + 1;
    }
    assert code[..i] == code;
  }

  lemma NotDropped(code: seq<Instr>, i: nat, regLoad: map<Reg, (nat, bool)>, skipped: set<Reg>)
    requires i < |code| && SkippedAre(code, i, skipped) && forall reg: Reg :: RecordedAt(code, |code|, regLoad, reg)
    requires var reg := LoadedReg(code[i].op);
             !(reg.Some? && reg.value in regLoad && !regLoad[reg.value].1 && reg.value !in skipped)
    ensures !Drops(code, i)
  {
    var reg := LoadedReg(code[i].op);
    if reg.Some? {
      assert RecordedAt(code, |code|, regLoad, reg.value) && (reg.value in skipped <==> SkippedIs(code, i, reg.value));
      DropsNow(code, i, regLoad, reg.value in skipped, reg.value);
    }
  }

  lemma AccessesNext(program: seq<Instr>, memidx: seq<nat>, instr: Instr)
    requires AccessesOf(program, memidx)
    ensures AccessesOf(program + [instr], if IsMemoryOp(instr.op) then memidx + [|program|] else memidx)
  {
    var program', memidx' := program + [instr], if IsMemoryOp(instr.op) then memidx + [|program|] else memidx;
    assert forall k | 0 <= k < |memidx| :: memidx[k] in memidx;
    forall i: nat ensures i in memidx' <==> i < |program'| && IsMemoryOp(program'[i].op) {
      assert i in memidx <==> i < |program| && IsMemoryOp(program[i].op);
    }
  }

  // ---- when it is right -----------------------------------------------------------------

  lemma {:induction false} NewIndexRises(code: seq<Instr>, dropped: set<nat>, i: nat, j: nat)
    requires i < j <= |code| && i !in dropped
    ensures NewIndex(code, dropped, i) < NewIndex(code, dropped, j)
    decreases j
  {
    ThinnedNext(code, dropped, j - 1);
    if i < j - 1 {
      NewIndexRises(code, dropped, i, j - 1);
    }
  }

  lemma {:induction false} OldIndexExists(code: seq<Instr>, dropped: set<nat>, n: nat, q: nat)
    requires n <= |code| && q < NewIndex(code, dropped, n)
    ensures exists i: nat :: i < n && i !in dropped && NewIndex(code, dropped, i) == q
    decreases n
  {
    if n == 0 {
      NewIndexZero(code, dropped);
    } else {
      var k := n - 1;
      ThinnedNext(code, dropped, k);
      if q < NewIndex(code, dropped, k) {
        OldIndexExists(code, dropped, k, q);
      } else {
        assert k < n && k !in dropped && NewIndex(code, dropped, k) == q;
      }
    }
  }

  /** The recomputed memory indices name the program's accesses, in order, at their new positions. */
  lemma MemidxNamesAccesses(code: seq<Instr>, accesses: seq<nat>, memidx: seq<nat>)
    requires AccessesOf(code, accesses) && AccessesOf(Thinned(code, DropSet(code)), memidx)
    ensures forall k | 0 <= k < |accesses| :: accesses[k] < |code|
    ensures memidx == NewIndices(code, DropSet(code), accesses)
  {
    var dropped := DropSet(code);
    var thinned := Thinned(code, dropped);
    forall k | 0 <= k < |accesses|
      ensures accesses[k] < |code| && accesses[k] !in dropped && IsMemoryOp(code[accesses[k]].op)
    {
      assert accesses[k] in accesses;
      if accesses[k] in dropped {
        DropsLoads(code, accesses[k]);
      }
    }
    var moved := NewIndices(code, dropped, accesses);
    forall i, j | 0 <= i < j < |moved| ensures moved[i] < moved[j] {
      NewIndexRises(code, dropped, accesses[i], accesses[j]);
    }
    assert code[..|code|] == code;
    forall x: nat ensures x in memidx <==> x in moved {
      if x in moved {
        var k :| 0 <= k < |moved| && moved[k] == x;
        KeptInstruction(code, dropped, accesses[k]);
      }
      if x in memidx {
        OldIndexExists(code, dropped, |code|, x);
        var i: nat :| i < |code| && i !in dropped && NewIndex(code, dropped, i) == x;
        KeptInstruction(code, dropped, i);
        assert i in accesses;
        var k :| 0 <= k < |accesses| && accesses[k] == i;
        assert moved[k] == x;
      }
    }
    SameElements(memidx, moved);
  }

  /** Every dropped load is unlabelled, and nothing before it interferes with its register. */
  ghost predicate Harmless(code: seq<Instr>)
  {
    forall p | p in DropSet(code) :: DroppableAt(code, p)
  }

  lemma IsThinning(code: seq<Instr>, accesses: seq<nat>, memidx: seq<nat>, ranges: StageRanges, ranges': StageRanges)
    requires AccessesOf(code, accesses) && forall k | 0 <= k < |accesses| :: accesses[k] < |code|
    requires memidx == NewIndices(code, DropSet(code), accesses)
    requires forall i | 0 <= i < |code| :: MayShift(code, DropSet(code), i)
    requires SameAliases(Stages(accesses), Stages(memidx)) && Renamed(ranges, ranges', Stages(accesses), Stages(memidx))
    ensures Thinning(code, DropSet(code), accesses, ranges, ranges')
  {
    hide DropSet, Renamed, SameAliases, MayShift, NewIndices;
    forall p | p in DropSet(code) ensures IsLoad(code, p) {
      DroppedIsLoad(code, p);
    }
  }

  lemma DroppedIsLoad(code: seq<Instr>, p: nat)
    requires p in DropSet(code)
    ensures IsLoad(code, p)
  {
    DropsLoads(code, p);
    var reg := LoadedReg(code[p].op).value;
    assert code[p].op == LoadOf(reg);
  }

  /** Load elimination preserves meaning when it is harmless: for every preloaded packet, whose address word
      fits if its load is dropped, the optimized program leaves the same registers, argument words, flags
      and forwarding decisions, and the same heaps on the stages of the recomputed memory indices. The done
      flag alone may differ if the program returns early and does not end with EOF. */
  lemma OptimizedMeansProgram(env: Env, code: seq<Instr>, accesses: seq<nat>, program: seq<Instr>, memidx: seq<nat>,
                              ranges: StageRanges, ranges': StageRanges, phv: Phv, heaps: Heaps, heaps': Heaps)
    requires AccessesOf(code, accesses) && program == Thinned(code, DropSet(code)) && AccessesOf(program, memidx)
    requires Harmless(code) && forall i | 0 <= i < |code| :: MayShift(code, DropSet(code), i)
    requires IsPreloaded(phv) && (DropsAddress(code, DropSet(code)) ==> phv.data0 < MAR_MASK)
    requires SameAliases(Stages(accesses), Stages(memidx))
    requires Renamed(ranges, ranges', Stages(accesses), Stages(memidx))
    requires Renamed(heaps, heaps', Stages(accesses), Stages(memidx))
    ensures |ranges| == |heaps| == |ranges'| == |heaps'| == STAGES
    ensures var r, r' := Exec(env, ranges, code, |code|, phv, heaps), Exec(env, ranges', program, |program|, phv, heaps');
            && SamePacket(r.0, r'.0) && (Ends(code) && (phv.complete ==> !phv.disabled) ==> r.0 == r'.0)
            && Renamed(r.1, r'.1, Stages(accesses), Stages(memidx)) && OthersKept(heaps', r'.1, Stages(memidx))
  {
    HarmlessDrops(code);
    hide *;
    MemidxNamesAccesses(code, accesses, memidx);
    IsThinning(code, accesses, memidx, ranges, ranges');
    ThinnedMeansProgram(env, code, DropSet(code), accesses, ranges, ranges', phv, heaps, heaps');
  }

  lemma HarmlessDrops(code: seq<Instr>)
    requires Harmless(code)
    ensures forall p | p in DropSet(code) :: DroppableAt(code, p)
  {
  }

  /** Exactly when it is right, for any program, harmless or not, and any packet: the optimized program
      agrees with the program after every instruction exactly if each load the compiler drops is idle
      when the packet gets to it. */
  lemma OptimizedAgreesIff(env: Env, code: seq<Instr>, accesses: seq<nat>, memidx: seq<nat>,
                           ranges: StageRanges, ranges': StageRanges, phv: Phv, heaps: Heaps, heaps': Heaps)
    requires AccessesOf(code, accesses) && AccessesOf(Thinned(code, DropSet(code)), memidx)
    requires forall i | 0 <= i < |code| :: MayShift(code, DropSet(code), i)
    requires |ranges| == |heaps| == |ranges'| == |heaps'| == STAGES
    requires SameAliases(Stages(accesses), Stages(memidx))
    requires Renamed(ranges, ranges', Stages(accesses), Stages(memidx))
    requires Renamed(heaps, heaps', Stages(accesses), Stages(memidx))
    ensures forall k | 0 <= k < |accesses| :: accesses[k] < |code|
    ensures (forall i | 0 <= i <= |code| :: AgreesAt(env, code, DropSet(code), accesses, ranges, ranges', phv, heaps, heaps', i))
            <==> forall j | 0 <= j < |code| :: IdleAt(env, ranges, code, DropSet(code), phv, heaps, j)
  {
    hide *;
    MemidxNamesAccesses(code, accesses, memidx);
    IsThinning(code, accesses, memidx, ranges, ranges');
    ThinnedAgreesIff(env, code, DropSet(code), accesses, ranges, ranges', phv, heaps, heaps');
  }

  // ---- when it is wrong -----------------------------------------------------------------

  /** An instruction that changes a register the bookkeeping does not associate with it. */
  predicate Overlooked(op: Op, reg: Reg)
  {
    Interferes(op, reg) && Tracked(op) != Some(reg)
  }

  lemma OverlookedDrops(code: seq<Instr>, reg: Reg)
    requires |code| == 2 && Overlooked(code[0].op, reg) && code[1] == Instr(LoadOf(reg), false)
    ensures DropSet(code) == {1} && !Harmless(code) && Thinned(code, {1}) == code[..1]
  {
    OverlookedIsNoLoad(code[0].op, reg);
    hide Interferes, Tracked, SaysLoad, DropSet, Thinned, Drops;
    FirstLoadIsSecond(code, reg);
    OnlySecond(code);
    assert !DroppableAt(code, 1);
    ThinnedToFirst(code);
  }

  lemma OverlookedIsNoLoad(op: Op, reg: Reg)
    requires Overlooked(op, reg)
    ensures LoadedReg(op).None? && Interferes(op, reg) && Tracked(op) != Some(reg)
  {
  }

  lemma FirstLoadIsSecond(code: seq<Instr>, reg: Reg)
    requires |code| == 2 && LoadedReg(code[0].op).None? && Tracked(code[0].op) != Some(reg)
    requires code[1].op == LoadOf(reg)
    ensures Drops(code, 1)
  {
    assert IsFirstWordLoad(code, 1, reg) && IsFirstLoad(code, 1, reg) && !Referenced(code, 1, reg);
  }

  lemma ThinnedToFirst(code: seq<Instr>)
    requires |code| == 2
    ensures Thinned(code, {1}) == code[..1]
  {
    assert code[..1] == [code[0]] && code[..1][..0] == [];
    assert Thinned(code[..1], {1}) == [code[0]];
  }

  lemma OnlySecond(code: seq<Instr>)
    requires |code| == 2 && LoadedReg(code[0].op).None? && Drops(code, 1)
    ensures DropSet(code) == {1}
  {
  }

  /** A load behind an overlooked instruction is dropped, and that is wrong whenever the packet gets there
      with another word in the register. */
  lemma OverlookedLoadDropped(env: Env, ranges: StageRanges, phv: Phv, heaps: Heaps, code: seq<Instr>, reg: Reg)
    requires |code| == 2 && Overlooked(code[0].op, reg) && code[1] == Instr(LoadOf(reg), false)
    requires |ranges| == |heaps| == STAGES
    ensures DropSet(code) == {1} && !Harmless(code) && Thinned(code, {1}) == code[..1]
    ensures Exec(env, ranges, code, 2, phv, heaps) == Exec(env, ranges, code[..1], 1, phv, heaps)
            <==> Idle(code[1], reg, Exec(env, ranges, code[..1], 1, phv, heaps).0)
  {
    OverlookedDrops(code, reg);
    hide DropSet, Harmless, Thinned, Exec, Apply, Idle;
    var r := Exec(env, ranges, code, 1, phv, heaps);
    FirstOnly(env, ranges, phv, heaps, code);
    ExecNext(env, ranges, code, 1, phv, heaps, r);
    LoadIsNeutral(env, 1, ranges[1], code[1], reg, r.0, r.1[1]);
    LoadKeepsHeap(env, 1, ranges[1], code[1], reg, r.0, r.1[1]);
    assert r.1[1 := r.1[1]] == r.1;
  }

  lemma FirstOnly(env: Env, ranges: StageRanges, phv: Phv, heaps: Heaps, code: seq<Instr>)
    requires |code| == 2 && |ranges| == |heaps| == STAGES
    ensures Exec(env, ranges, code, 1, phv, heaps) == Exec(env, ranges, code[..1], 1, phv, heaps)
  {
    hide Apply;
    ExecNext(env, ranges, code, 0, phv, heaps, (phv, heaps));
    ExecNext(env, ranges, code[..1], 0, phv, heaps, (phv, heaps));
  }

  /** What the bookkeeping overlooks: memory instructions, the salt and the packet count, second operands,
      and the argument word that MBR_STORE_ALT2 overwrites. */
  lemma OverlookedAre(op: Op, reg: Reg)
    ensures Overlooked(op, reg) <==> reg in OverlookedRegs(op)
  {
    hide Overlooked, OverlookedRegs;
    match reg
    case MAR => NoMarOverlooked(op);
    case MBR => MbrOverlooked(op);
    case MBR2 => Mbr2Overlooked(op);
  }

  lemma NoMarOverlooked(op: Op)
    ensures !Overlooked(op, MAR) && MAR !in OverlookedRegs(op)
  {
  }

  lemma MbrOverlooked(op: Op)
    ensures Overlooked(op, MBR) <==> MBR in OverlookedRegs(op)
  {
  }

  lemma Mbr2Overlooked(op: Op)
    ensures Overlooked(op, MBR2) <==> MBR2 in OverlookedRegs(op)
  {
  }

  function OverlookedRegs(op: Op): set<Reg>
  {
    match op
    case MEM_READ => {MBR} case MEM_INCREMENT => {MBR} case MEM_WRITE_CONDZERO => {MBR}
    case MEM_MINREAD => {MBR, MBR2} case MEM_MINREADINC => {MBR, MBR2}
    case LOAD_SALT => {MBR} case LOAD_PKTCOUNT => {MBR}
    case SWAP_MBR_MBR2 => {MBR2} case MBR_STORE_ALT2 => {MBR2}
    case _ => {}
  }

  /** In LOAD_SALT; MBR_LOAD the load is dropped, and a packet whose argument word is not the salt ends with
      another register value. */
  lemma SaltedLoadDropped(env: Env, ranges: StageRanges, phv: Phv, heaps: Heaps, code: seq<Instr>)
    requires code == [Instr(LOAD_SALT, false), Instr(MBR_LOAD, false)]
    requires |ranges| == |heaps| == STAGES && !phv.complete && !phv.disabled && phv.data1 != CONST_SALT
    ensures DropSet(code) == {1} && Thinned(code, {1}) == code[..1]
    ensures Exec(env, ranges, code, 2, phv, heaps).0.mbr == phv.data1
    ensures Exec(env, ranges, code[..1], 1, phv, heaps).0.mbr == CONST_SALT
  {
    OverlookedDrops(code, MBR);
    hide DropSet, Harmless, Thinned, Exec;
    SaltLoaded(env, ranges, phv, heaps, code);
    SaltLoaded(env, ranges, phv, heaps, code[..1]);
    LoadFills(env, ranges, phv, heaps, code, CONST_SALT);
  }

  lemma LoadFills(env: Env, ranges: StageRanges, phv: Phv, heaps: Heaps, code: seq<Instr>, mbr: nat)
    requires |code| == 2 && code[1] == Instr(MBR_LOAD, false) && !phv.complete && !phv.disabled
    requires |ranges| == |heaps| == STAGES && Exec(env, ranges, code, 1, phv, heaps).0 == phv.(mbr := mbr)
    ensures Exec(env, ranges, code, 2, phv, heaps).0.mbr == phv.data1
  {
    hide Exec;
    ExecNext(env, ranges, code, 1, phv, heaps, Exec(env, ranges, code, 1, phv, heaps));
  }

  lemma SaltLoaded(env: Env, ranges: StageRanges, phv: Phv, heaps: Heaps, code: seq<Instr>)
    requires |code| > 0 && code[0] == Instr(LOAD_SALT, false)
    requires |ranges| == |heaps| == STAGES && !phv.complete && !phv.disabled
    ensures Exec(env, ranges, code, 1, phv, heaps).0 == phv.(mbr := CONST_SALT)
  {
  }

  /** So it is in MEM_READ; MBR_LOAD, for a packet that reads a cell other than its argument word. */
  lemma ReadLoadDropped(env: Env, ranges: StageRanges, phv: Phv, heaps: Heaps, code: seq<Instr>)
    requires code == [Instr(MEM_READ, false), Instr(MBR_LOAD, false)]
    requires |ranges| == |heaps| == STAGES && !phv.complete && !phv.disabled
    requires ranges[0].Some? && ranges[0].value.0 <= phv.mar % MAR_MASK <= ranges[0].value.1
    ensures DropSet(code) == {1} && Thinned(code, {1}) == code[..1]
    ensures Exec(env, ranges, code, 2, phv, heaps).0.mbr == phv.data1
    ensures Exec(env, ranges, code[..1], 1, phv, heaps).0.mbr == Cell(heaps[0], phv.mar)
  {
    OverlookedDrops(code, MBR);
    hide DropSet, Harmless, Thinned, Exec;
    CellRead(env, ranges, phv, heaps, code);
    CellRead(env, ranges, phv, heaps, code[..1]);
    LoadFills(env, ranges, phv, heaps, code, Cell(heaps[0], phv.mar));
  }

  lemma CellRead(env: Env, ranges: StageRanges, phv: Phv, heaps: Heaps, code: seq<Instr>)
    requires |code| > 0 && code[0] == Instr(MEM_READ, false)
    requires |ranges| == |heaps| == STAGES && !phv.complete && !phv.disabled
    requires ranges[0].Some? && ranges[0].value.0 <= phv.mar % MAR_MASK <= ranges[0].value.1
    ensures Exec(env, ranges, code, 1, phv, heaps).0 == phv.(mbr := Cell(heaps[0], phv.mar))
  {
  }

  /** Dropping a load of the address register is right exactly for address words of at most 20 bits. */
  lemma AddressLoadDropped(env: Env, ranges: StageRanges, phv: Phv, heaps: Heaps, code: seq<Instr>)
    requires code == [Instr(MAR_LOAD, false)] && IsPreloaded(phv)
    requires |ranges| == |heaps| == STAGES && !phv.complete && !phv.disabled
    ensures DropSet(code) == {0} && Thinned(code, {0}) == []
    ensures Exec(env, ranges, code, 1, phv, heaps).0 == Exec(env, ranges, [], 0, phv, heaps).0 <==> phv.data0 < MAR_MASK
  {
    assert IsFirstWordLoad(code, 0, MAR) && IsFirstLoad(code, 0, MAR) && !Referenced(code, 0, MAR);
    assert DropSet(code) == {0};
    assert code[..0] == [];
  }
}
