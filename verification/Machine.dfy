/** The instruction machine of the switch: what one stage does to a packet, and what a program does on its
    way through the stages. */
module Machine {
  import opened Dimensions
  import opened Wrappers
  import opened Aliases
  import opened TableActions

  const WORD: nat := 0x1_0000_0000
  const MAR_MASK: nat := 0x10_0000
  const CONST_SALT: nat := 0x5093

  /** The instruction set. Instructions on virtual addresses are not supported and never match. */
  datatype Op =
    | EOF | NOP | RETURN | CRET | CRETI | DROP | FORK | SET_DST | CJUMP | CJUMPI | UJUMP | RTS | CRTS
    | MBR_LOAD | MBR2_LOAD | MAR_LOAD | MBR_STORE
    | MBR_EQUALS_MBR2 | MBR_EQUALS_DATA_0 | MBR_EQUALS_DATA_1 | MBR_EQUALS_DATA_2 | MBR_EQUALS_DATA_3
    | MAX | MIN | REVMIN | SWAP_MBR_MBR2 | MBR_NOT | MBR_SUBTRACT_MBR2 | MAR_ADD_MBR | MAR_ADD_MBR2
    | MBR_ADD_MBR2 | MAR_MBR_ADD_MBR2 | BIT_AND_MAR_MBR | BIT_OR_MBR_MBR2
    | COPY_MBR2_MBR | COPY_MBR_MBR2 | COPY_MAR_MBR | COPY_MBR_MAR | COPY_HASHDATA_MBR | COPY_HASHDATA_MBR2
    | MEM_WRITE | MEM_READ | MEM_INCREMENT | MEM_MINREAD | MEM_MINREADINC | MEM_WRITE_CONDZERO
    | HASH | LOAD_SALT | LOAD_TCP_5TUPLE | LOAD_QDELAY | LOAD_QUEUE | LOAD_PKTCOUNT
    | ADDR_MASK | ADDR_OFFSET | MBR_STORE_ALT | MBR_STORE_ALT2

  /** An instruction of a program: the goto bit marks jumps and their targets. */
  datatype Instr = Instr(op: Op, goto: bool)

  /** What the packet's path through the switch depends on besides the registers: the hash unit of each
      stage, and values the hardware supplies. */
  datatype Env = Env(hash: (nat, seq<nat>) -> nat, qdelay: nat, qdepth: nat, pktCount: nat, tuple: seq<nat>)

  /** A forwarding decision, with the port for SET_DST. */
  datatype Forward = Forward(op: Op, port: nat)

  /** The packet: registers, argument words, flags, and the forwarding decisions taken so far. */
  datatype Phv = Phv(mar: nat, mbr: nat, mbr2: nat, inc: nat, hashData: seq<nat>,
                     data0: nat, data1: nat, data2: nat, data3: nat,
                     complete: bool, disabled: bool, done: bool, forwards: seq<Forward>)

  /** The memory of a stage; cells never written hold zero. */
  type Heap = map<nat, nat>

  function Cell(heap: Heap, addr: nat): nat
  {
    if addr in heap then heap[addr] else 0
  }

  function Stored(heap: Heap, addr: nat, cell: nat): Heap
  {
    heap[addr := cell]
  }

  // ---- words ----------------------------------------------------------------------------

  function Add(a: nat, b: nat): nat { (a + b) % WORD }

  function Subtract(a: nat, b: nat): nat { (a + (WORD - b % WORD)) % WORD }

  function Least(a: nat, b: nat): nat { if a <= b then a else b }

  function Greatest(a: nat, b: nat): nat { if a >= b then a else b }

  /** Bitwise exclusive or. */
  function Xor(a: nat, b: nat): nat
  {
    if a == 0 && b == 0 then 0 else (a % 2 + b % 2) % 2 + 2 * Xor(a / 2, b / 2)
  }

  function And(a: nat, b: nat): nat
  {
    if a == 0 || b == 0 then 0 else a % 2 * (b % 2) + 2 * And(a / 2, b / 2)
  }

  function Or(a: nat, b: nat): nat
    decreases a + b
  {
    if a == 0 && b == 0 then 0
    else (if a % 2 == 1 || b % 2 == 1 then 1 else 0) + 2 * Or(a / 2, b / 2)
  }

  function Not(a: nat): nat { WORD - 1 - a % WORD }

  /** Exclusive or tells whether two words differ. */
  lemma {:induction false} XorZero(a: nat, b: nat)
    ensures Xor(a, b) == 0 <==> a == b
    decreases a, b
  {
    if a != 0 || b != 0 {
      XorZero(a / 2, b / 2);
      assert a == 2 * (a / 2) + a % 2 && b == 2 * (b / 2) + b % 2;
    }
  }

  // ---- one stage ------------------------------------------------------------------------

  predicate IsMemoryOp(op: Op)
  {
    op.MEM_WRITE? || op.MEM_READ? || op.MEM_INCREMENT? || op.MEM_MINREAD? || op.MEM_MINREADINC? || op.MEM_WRITE_CONDZERO?
  }

  /** Instructions on virtual addresses, for which nothing is installed. */
  predicate IsVirtualOp(op: Op)
  {
    op.ADDR_MASK? || op.ADDR_OFFSET?
  }

  // The instructions that need no memory, by what they do.

  predicate IsWordMove(op: Op)
  {
    op.MBR_LOAD? || op.MBR2_LOAD? || op.MAR_LOAD? || op.MBR_STORE? || op.MBR_STORE_ALT? || op.MBR_STORE_ALT2?
  }

  predicate IsCopy(op: Op)
  {
    || op.COPY_MBR2_MBR? || op.COPY_MBR_MBR2? || op.COPY_MAR_MBR? || op.COPY_MBR_MAR? || op.COPY_HASHDATA_MBR?
    || op.COPY_HASHDATA_MBR2? || op.SWAP_MBR_MBR2? || op.LOAD_SALT?
  }

  predicate IsComparison(op: Op)
  {
    || op.MBR_EQUALS_MBR2? || op.MBR_EQUALS_DATA_0? || op.MBR_EQUALS_DATA_1? || op.MBR_EQUALS_DATA_2?
    || op.MBR_EQUALS_DATA_3? || op.MAX? || op.MIN? || op.REVMIN?
  }

  predicate IsArithmetic(op: Op)
  {
    || op.MBR_NOT? || op.MBR_SUBTRACT_MBR2? || op.MAR_ADD_MBR? || op.MAR_ADD_MBR2? || op.MBR_ADD_MBR2?
    || op.MAR_MBR_ADD_MBR2? || op.BIT_AND_MAR_MBR? || op.BIT_OR_MBR_MBR2?
  }

  predicate IsForwarding(op: Op)
  {
    op.DROP? || op.FORK? || op.SET_DST? || op.RTS? || op.CRTS?
  }

  predicate IsControl(op: Op)
  {
    op.EOF? || op.RETURN? || op.CRET? || op.CRETI? || op.CJUMP? || op.CJUMPI? || op.UJUMP?
  }

  /** The mbr test of a conditional instruction. */
  function ConditionOf(op: Op): Option<bool>
  {
    if op.CRET? || op.CJUMP? || op.CRTS? || op.MEM_WRITE_CONDZERO? then Some(true)
    else if op.CRETI? || op.CJUMPI? then Some(false)
    else None
  }

  /** The addresses an instruction may be run for. */
  function RangeFor(op: Op, range: Option<(nat, nat)>): (nat, nat)
    requires IsMemoryOp(op) ==> range.Some?
  {
    if IsMemoryOp(op) then range.value else (0, REG_MAX)
  }

  /** What the instruction table of a stage decides for a packet, or None for a miss: lo and hi are the
      addresses the instruction may be run for, and only the end of the program matches a completed packet. */
  function Outcome(condition: Option<bool>, ends: bool, lo: nat, hi: nat, complete: bool, disabled: bool, mbr: nat, mar: nat)
    : Option<Action>
  {
    if mar < lo then None
    else if complete then (if ends && !disabled && mar <= hi then Some(Execute) else None)
    else if disabled then Some(Rejoin)
    else
      match condition
      case None => if mar <= hi then Some(Execute) else None
      case Some(true) => if mbr == 0 then Some(Skip) else if mar <= hi then Some(Execute) else None
      case Some(false) => if mbr == 0 && mar <= hi then Some(Execute) else Some(Skip)
  }

  /** The table's decision for an instruction. A memory instruction matches only on stages where the
      program has a range. */
  function Decide(op: Op, range: Option<(nat, nat)>, phv: Phv): Option<Action>
  {
    if (IsMemoryOp(op) && range.None?) || IsVirtualOp(op) then None
    else
      var (lo, hi) := RangeFor(op, range);
      Outcome(ConditionOf(op), op == EOF, lo, hi, phv.complete, phv.disabled, phv.mbr, phv.mar % MAR_MASK)
  }

  /** The end of a program that returns early; only the ingress stages mark it as done there. */
  function Returned(stage: nat, phv: Phv): Phv
  {
    phv.(complete := true, done := phv.done || stage < INGRESS, forwards := phv.forwards + [Forward(RETURN, 0)])
  }

  /** The same packet but for the done flag, which may differ once the packet is complete. */
  predicate SamePacket(p: Phv, q: Phv)
  {
    p.(done := q.done) == q && (p.done == q.done || p.complete)
  }

  /** The program ends with EOF. */
  predicate Ends(code: seq<Instr>)
  {
    code != [] && code[|code| - 1].op == EOF
  }

  /** Loads and stores of argument words. */
  function MoveWord(op: Op, phv: Phv): Phv
  {
    match op
    case MBR_LOAD => phv.(mbr := phv.data1)
    case MBR2_LOAD => phv.(mbr2 := phv.data2)
    case MAR_LOAD => phv.(mar := phv.data0 % MAR_MASK)
    case MBR_STORE => phv.(data3 := phv.mbr)
    case MBR_STORE_ALT => phv.(data1 := phv.mbr)
    case MBR_STORE_ALT2 => phv.(data2 := phv.mbr)
    case _ => phv
  }

  /** Copies between registers. */
  function CopyWord(op: Op, phv: Phv): Phv
  {
    match op
    case COPY_MBR2_MBR => phv.(mbr2 := phv.mbr)
    case COPY_MBR_MBR2 => phv.(mbr := phv.mbr2)
    case COPY_MAR_MBR => phv.(mar := phv.mbr)
    case COPY_MBR_MAR => phv.(mbr := phv.mar)
    case COPY_HASHDATA_MBR => if |phv.hashData| > 0 then phv.(hashData := phv.hashData[0 := phv.mbr]) else phv
    case COPY_HASHDATA_MBR2 => if |phv.hashData| > 1 then phv.(hashData := phv.hashData[1 := phv.mbr2]) else phv
    case SWAP_MBR_MBR2 => phv.(mbr := phv.mbr2, mbr2 := phv.mbr)
    case LOAD_SALT => phv.(mbr := CONST_SALT)
    case _ => phv
  }

  /** Comparisons. */
  function CompareWords(op: Op, phv: Phv): Phv
  {
    match op
    case MBR_EQUALS_MBR2 => phv.(mbr := Xor(phv.mbr, phv.mbr2))
    case MBR_EQUALS_DATA_0 => phv.(mbr := Xor(phv.mbr, phv.data0))
    case MBR_EQUALS_DATA_1 => phv.(mbr := Xor(phv.mbr, phv.data1))
    case MBR_EQUALS_DATA_2 => phv.(mbr := Xor(phv.mbr, phv.data2))
    case MBR_EQUALS_DATA_3 => phv.(mbr := Xor(phv.mbr, phv.data3))
    case MAX => phv.(mbr := Greatest(phv.mbr, phv.mbr2))
    case MIN => phv.(mbr := Least(phv.mbr, phv.mbr2))
    case REVMIN => phv.(mbr2 := Least(phv.mbr2, phv.mbr))
    case _ => phv
  }

  /** Arithmetic and bitwise operations. */
  function Calculate(op: Op, phv: Phv): Phv
  {
    match op
    case MBR_NOT => phv.(mbr := Not(phv.mbr))
    case MBR_SUBTRACT_MBR2 => phv.(mbr := Subtract(phv.mbr, phv.mbr2))
    case MAR_ADD_MBR => phv.(mar := Add(phv.mar, phv.mbr))
    case MAR_ADD_MBR2 => phv.(mar := Add(phv.mar, phv.mbr2))
    case MBR_ADD_MBR2 => phv.(mbr := Add(phv.mbr, phv.mbr2))
    case MAR_MBR_ADD_MBR2 => phv.(mar := Add(phv.mbr, phv.mbr2))
    case BIT_AND_MAR_MBR => phv.(mar := And(phv.mar, phv.mbr))
    case BIT_OR_MBR_MBR2 => phv.(mbr := Or(phv.mbr, phv.mbr2))
    case _ => phv
  }

  /** Forwarding decisions. */
  function DirectPacket(op: Op, phv: Phv): Phv
  {
    match op
    case DROP => phv.(forwards := phv.forwards + [Forward(DROP, 0)])
    case FORK => phv.(forwards := phv.forwards + [Forward(FORK, 0)])
    case SET_DST => phv.(forwards := phv.forwards + [Forward(SET_DST, phv.mbr % 512)])
    case RTS => phv.(forwards := phv.forwards + [Forward(RTS, 0)])
    case CRTS => phv.(forwards := phv.forwards + [Forward(RTS, 0)])
    case _ => phv
  }

  /** Jumps and the end of the program. */
  function Steer(stage: nat, op: Op, phv: Phv): Phv
  {
    match op
    case EOF => phv.(done := true)
    case RETURN => Returned(stage, phv)
    case CRET => Returned(stage, phv)
    case CRETI => Returned(stage, phv)
    case CJUMP => phv.(disabled := true)
    case CJUMPI => phv.(disabled := true)
    case UJUMP => phv.(disabled := true)
    case _ => phv
  }

  /** Values the hardware supplies, some of them only on one side of the switch. */
  function Supply(env: Env, stage: nat, op: Op, phv: Phv): Phv
  {
    match op
    case HASH => phv.(mar := env.hash(stage, phv.hashData) % 0x1_0000)
    case LOAD_TCP_5TUPLE => if stage < INGRESS then phv.(hashData := env.tuple) else phv
    case LOAD_QDELAY => if stage < INGRESS then phv else phv.(mbr := env.qdelay)
    case LOAD_QUEUE => if stage < INGRESS then phv else phv.(mbr := env.qdepth)
    case LOAD_PKTCOUNT => phv.(mbr := env.pktCount)
    case _ => phv
  }

  /** The register actions. */
  function Perform(env: Env, stage: nat, op: Op, phv: Phv): Phv
  {
    if IsWordMove(op) then MoveWord(op, phv)
    else if IsCopy(op) then CopyWord(op, phv)
    else if IsComparison(op) then CompareWords(op, phv)
    else if IsArithmetic(op) then Calculate(op, phv)
    else if IsForwarding(op) then DirectPacket(op, phv)
    else if IsControl(op) then Steer(stage, op, phv)
    else Supply(env, stage, op, phv)
  }

  /** The memory actions on the addressed cell: the packet and the cell afterwards. */
  function Access(op: Op, phv: Phv, cell: nat): (Phv, nat)
  {
    match op
    case MEM_WRITE => (phv, phv.mbr)
    case MEM_READ => (phv.(mbr := cell), cell)
    case MEM_INCREMENT => (phv.(mbr := Add(cell, 1)), Add(cell, 1))
    case MEM_MINREAD => (phv.(mbr := cell, mbr2 := if phv.mbr2 < cell then phv.mbr2 else cell), cell)
    case MEM_MINREADINC =>
      (phv.(mbr := Add(cell, 1), mbr2 := if phv.mbr2 < Add(cell, 1) then phv.mbr2 else Add(cell, 1)), Add(cell, 1))
    case MEM_WRITE_CONDZERO =>
      if cell == 0 then (phv.(mbr := 0), phv.mbr2) else (phv.(mbr := Subtract(phv.mbr2, cell)), cell)
    case _ => (phv, cell)
  }

  /** One stage applied to a packet: the packet and the stage's heap afterwards. */
  function Apply(env: Env, stage: nat, range: Option<(nat, nat)>, instr: Instr, phv: Phv, heap: Heap): (Phv, Heap)
  {
    match Decide(instr.op, range, phv)
    case Some(Execute) =>
      if IsMemoryOp(instr.op) then
        var (phv', cell') := Access(instr.op, phv, Cell(heap, phv.mar));
        (phv', Stored(heap, phv.mar, cell'))
      else (Perform(env, stage, instr.op, phv), heap)
    case Some(Rejoin) => (phv.(disabled := !instr.goto), heap)
    case _ => (phv, heap)
  }

  // ---- a program ------------------------------------------------------------------------

  type Heaps = seq<Heap>
  type StageRanges = seq<Option<(nat, nat)>>

  /** The packet at the entrance of the pipeline. */
  function Entering(data: (nat, nat, nat, nat), preload: bool): Phv
  {
    var (mar, mbr, mbr2) := if preload then (data.0, data.1, data.2) else (0, 0, 0);
    Phv(mar, mbr, mbr2, 0, [0, 0, 0, 0, 0], data.0, data.1, data.2, data.3, false, false, false, [])
  }

  /** The packet and all heaps after the first n instructions of a program. */
  function Exec(env: Env, ranges: StageRanges, code: seq<Instr>, n: nat, phv: Phv, heaps: Heaps): (r: (Phv, Heaps))
    requires n <= |code| && |ranges| == |heaps| == STAGES
    ensures |r.1| == |heaps|
  {
    if n == 0 then (phv, heaps) else
      var (phv', heaps') := Exec(env, ranges, code, n - 1, phv, heaps);
      var stage := StageAt(n - 1);
      var (phv'', heap) := Apply(env, stage, ranges[stage], code[n - 1], phv', heaps'[stage]);
      (phv'', heaps'[stage := heap])
  }

  lemma ExecStart(env: Env, ranges: StageRanges, code: seq<Instr>, phv: Phv, heaps: Heaps)
    requires |ranges| == |heaps| == STAGES
    ensures Exec(env, ranges, code, 0, phv, heaps) == (phv, heaps)
  {
  }

  /** The run up to instruction n, one instruction on. */
  lemma ExecNext(env: Env, ranges: StageRanges, code: seq<Instr>, n: nat, phv: Phv, heaps: Heaps, r: (Phv, Heaps))
    requires n < |code| && |ranges| == |heaps| == STAGES && Exec(env, ranges, code, n, phv, heaps) == r
    ensures |r.1| == STAGES
    ensures var (phv', heap) := Apply(env, StageAt(n), ranges[StageAt(n)], code[n], r.0, r.1[StageAt(n)]);
            Exec(env, ranges, code, n + 1, phv, heaps) == (phv', r.1[StageAt(n) := heap])
  {
  }

  /** A NOP does nothing, whatever the packet's flags. */
  lemma NopNeutral(env: Env, stage: nat, range: Option<(nat, nat)>, phv: Phv, heap: Heap)
    ensures Apply(env, stage, range, Instr(NOP, false), phv, heap) == (phv, heap)
  {
  }

  /** EOF marks every packet that is not jumping, so that the done flags agree again. */
  lemma EndSettles(env: Env, x: nat, y: nat, rx: Option<(nat, nat)>, ry: Option<(nat, nat)>, instr: Instr, p: Phv, q: Phv,
                   hx: Heap, hy: Heap)
    requires instr.op == EOF && SamePacket(p, q) && (p.complete ==> !p.disabled)
    ensures Apply(env, x, rx, instr, p, hx).0 == Apply(env, y, ry, instr, q, hy).0
  {
  }

  /** Only control instructions complete a packet or make it jump, and none does both. */
  lemma PerformKeepsApart(env: Env, stage: nat, op: Op, phv: Phv)
    requires !phv.disabled && (phv.complete ==> op == EOF)
    ensures var phv' := Perform(env, stage, op, phv); phv'.complete ==> !phv'.disabled
  {
    hide MoveWord, CopyWord, CompareWords, Calculate, DirectPacket, Supply;
    MovesKeepFlags(op, phv);
    ComputesKeepFlags(op, phv);
    RestKeepsFlags(env, stage, op, phv);
  }

  lemma MovesKeepFlags(op: Op, phv: Phv)
    ensures MoveWord(op, phv).disabled == CopyWord(op, phv).disabled == phv.disabled
  {
  }

  lemma ComputesKeepFlags(op: Op, phv: Phv)
    ensures CompareWords(op, phv).disabled == Calculate(op, phv).disabled == phv.disabled
  {
    hide Add, Subtract, Xor, And, Or, Not, Least, Greatest;
  }

  lemma RestKeepsFlags(env: Env, stage: nat, op: Op, phv: Phv)
    ensures DirectPacket(op, phv).disabled == Supply(env, stage, op, phv).disabled == phv.disabled
  {
  }

  lemma ApplyKeepsApart(env: Env, stage: nat, range: Option<(nat, nat)>, instr: Instr, phv: Phv, heap: Heap)
    requires phv.complete ==> !phv.disabled
    ensures var phv' := Apply(env, stage, range, instr, phv, heap).0; phv'.complete ==> !phv'.disabled
  {
    hide Perform;
    if Decide(instr.op, range, phv) == Some(Execute) && !IsMemoryOp(instr.op) {
      PerformKeepsApart(env, stage, instr.op, phv);
    }
  }

  /** A packet that enters a program fresh never jumps once it is complete. */
  lemma {:induction false} CompleteIsEnabled(env: Env, ranges: StageRanges, code: seq<Instr>, n: nat, phv: Phv, heaps: Heaps)
    requires n <= |code| && |ranges| == |heaps| == STAGES && (phv.complete ==> !phv.disabled)
    ensures var phv' := Exec(env, ranges, code, n, phv, heaps).0; phv'.complete ==> !phv'.disabled
    decreases n
  {
    hide Apply;
    if n > 0 {
      CompleteIsEnabled(env, ranges, code, n - 1, phv, heaps);
      var r, stage := Exec(env, ranges, code, n - 1, phv, heaps), StageAt(n - 1);
      ApplyKeepsApart(env, stage, ranges[stage], code[n - 1], r.0, r.1[stage]);
    }
  }

  /** Of the cells the tables can tell apart, a program's memory instructions touch only those of the range
      installed for it. */
  lemma OnlyOwnRange(env: Env, stage: nat, range: Option<(nat, nat)>, instr: Instr, phv: Phv, heap: Heap, addr: nat)
    requires addr < MAR_MASK && (range.None? || addr < range.value.0 || range.value.1 < addr)
    ensures Cell(Apply(env, stage, range, instr, phv, heap).1, addr) == Cell(heap, addr)
  {
  }
}
