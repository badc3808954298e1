/** The packet as the switch updates it in place: every action assigns registers, argument words, flags or a
    heap cell. Proved to be the machine of module Machine. */
module Pipelines {
  import opened Dimensions
  import opened Wrappers
  import opened Aliases
  import opened TableActions
  import opened Machine

  class Pipeline {
    const env: Env
    const ranges: StageRanges
    var mar: nat
    var mbr: nat
    var mbr2: nat
    var inc: nat
    var hashData: seq<nat>
    var data0: nat
    var data1: nat
    var data2: nat
    var data3: nat
    var complete: bool
    var disabled: bool
    var done: bool
    var forwards: seq<Forward>
    var heaps: Heaps

    function Packet(): Phv
      reads this
    {
      Phv(mar, mbr, mbr2, inc, hashData, data0, data1, data2, data3, complete, disabled, done, forwards)
    }

    ghost predicate Valid()
      reads this
    {
      |ranges| == |heaps| == STAGES
    }

    /** A packet enters. With the preload flag its argument words fill the registers. */
    constructor (env: Env, ranges: StageRanges, heaps: Heaps, data: (nat, nat, nat, nat), preload: bool)
      requires |ranges| == |heaps| == STAGES
      ensures Valid() && this.env == env && this.ranges == ranges && this.heaps == heaps
      ensures Packet() == Entering(data, preload)
    {
      this.env, this.ranges, this.heaps := env, ranges, heaps;
      data0, data1, data2, data3 := data.0, data.1, data.2, data.3;
      mar, mbr, mbr2, inc, hashData := 0, 0, 0, 0, [0, 0, 0, 0, 0];
      complete, disabled, done, forwards := false, false, false, [];
      if preload {
        mar, mbr, mbr2 := data.0, data.1, data.2;
      }
    }

    // ---- register actions ---------------------------------------------------------------

    /** Loads and stores of argument words. */
    method MoveWord(op: Op)
      modifies this`mar, this`mbr, this`mbr2, this`data1, this`data2, this`data3
      ensures Packet() == Machine.MoveWord(op, old(Packet()))
    {
      match op
      case MBR_LOAD => mbr := data1;
      case MBR2_LOAD => mbr2 := data2;
      case MAR_LOAD => mar := data0 % MAR_MASK;
      case MBR_STORE => data3 := mbr;
      case MBR_STORE_ALT => data1 := mbr;
      case MBR_STORE_ALT2 => data2 := mbr;
      case _ =>
    }

    /** Copies between registers. */
    method Copy(op: Op)
      modifies this`mar, this`mbr, this`mbr2, this`hashData
      ensures Packet() == CopyWord(op, old(Packet()))
    {
      match op
      case COPY_MBR2_MBR => mbr2 := mbr;
      case COPY_MBR_MBR2 => mbr := mbr2;
      case COPY_MAR_MBR => mar := mbr;
      case COPY_MBR_MAR => mbr := mar;
      case COPY_HASHDATA_MBR => if |hashData| > 0 { hashData := hashData[0 := mbr]; }
      case COPY_HASHDATA_MBR2 => if |hashData| > 1 { hashData := hashData[1 := mbr2]; }
      case SWAP_MBR_MBR2 =>
        var tmp := mbr;
        mbr := mbr2;
        mbr2 := tmp;
      case LOAD_SALT => mbr := CONST_SALT;
      case _ =>
    }

    /** Comparisons. */
    method Compare(op: Op)
      modifies this`mbr, this`mbr2
      ensures Packet() == CompareWords(op, old(Packet()))
    {
      match op
      case MBR_EQUALS_MBR2 => mbr := Xor(mbr, mbr2);
      case MBR_EQUALS_DATA_0 => mbr := Xor(mbr, data0);
      case MBR_EQUALS_DATA_1 => mbr := Xor(mbr, data1);
      case MBR_EQUALS_DATA_2 => mbr := Xor(mbr, data2);
      case MBR_EQUALS_DATA_3 => mbr := Xor(mbr, data3);
      case MAX => mbr := if mbr >= mbr2 then mbr else mbr2;
      case MIN => mbr := if mbr <= mbr2 then mbr else mbr2;
      case REVMIN => mbr2 := if mbr2 <= mbr then mbr2 else mbr;
      case _ =>
    }

    /** Arithmetic and bitwise operations. */
    method Compute(op: Op)
      modifies this`mar, this`mbr
      ensures Packet() == Calculate(op, old(Packet()))
    {
      match op
      case MBR_NOT => mbr := Not(mbr);
      case MBR_SUBTRACT_MBR2 => mbr := Subtract(mbr, mbr2);
      case MAR_ADD_MBR => mar := Add(mar, mbr);
      case MAR_ADD_MBR2 => mar := Add(mar, mbr2);
      case MBR_ADD_MBR2 => mbr := Add(mbr, mbr2);
      case MAR_MBR_ADD_MBR2 => mar := Add(mbr, mbr2);
      case BIT_AND_MAR_MBR => mar := And(mar, mbr);
      case BIT_OR_MBR_MBR2 => mbr := Or(mbr, mbr2);
      case _ =>
    }

    /** Forwarding decisions. */
    method Direct(op: Op)
      modifies this`forwards
      ensures Packet() == DirectPacket(op, old(Packet()))
    {
      match op
      case DROP => forwards := forwards + [Forward(DROP, 0)];
      case FORK => forwards := forwards + [Forward(FORK, 0)];
      case SET_DST => forwards := forwards + [Forward(SET_DST, mbr % 512)];
      case RTS => forwards := forwards + [Forward(RTS, 0)];
      case CRTS => forwards := forwards + [Forward(RTS, 0)];
      case _ =>
    }

    /** Jumps and the end of the program. */
    method Control(op: Op, stage: nat)
      modifies this`complete, this`disabled, this`done, this`forwards
      ensures Packet() == Steer(stage, op, old(Packet()))
    {
      match op
      case EOF => done := true;
      case RETURN => Complete(stage);
      case CRET => Complete(stage);
      case CRETI => Complete(stage);
      case CJUMP => disabled := true;
      case CJUMPI => disabled := true;
      case UJUMP => disabled := true;
      case _ =>
    }

    /** The program returns early. */
    method Complete(stage: nat)
      modifies this`complete, this`done, this`forwards
      ensures complete && done == (old(done) || stage < INGRESS) && forwards == old(forwards) + [Forward(RETURN, 0)]
    {
      complete := true;
      forwards := forwards + [Forward(RETURN, 0)];
      if stage < INGRESS {
        done := true;
      }
    }

    /** Hashes the packet's hash words into an address. */
    method Hash(stage: nat)
      modifies this`mar
      ensures Packet() == Machine.Supply(env, stage, HASH, old(Packet()))
    {
      mar := env.hash(stage, hashData) % 0x1_0000;
    }

    /** Values the hardware supplies before the traffic manager. */
    method SupplyIngress(op: Op, stage: nat)
      requires stage < INGRESS
      modifies this`mar, this`mbr, this`hashData
      ensures Packet() == Machine.Supply(env, stage, op, old(Packet()))
    {
      match op
      case HASH => Hash(stage);
      case LOAD_TCP_5TUPLE => hashData := env.tuple;
      case LOAD_PKTCOUNT => mbr := env.pktCount;
      case _ =>
    }

    /** Values the hardware supplies behind it. */
    method SupplyEgress(op: Op, stage: nat)
      requires INGRESS <= stage
      modifies this`mar, this`mbr
      ensures Packet() == Machine.Supply(env, stage, op, old(Packet()))
    {
      match op
      case HASH => Hash(stage);
      case LOAD_QDELAY => mbr := env.qdelay;
      case LOAD_QUEUE => mbr := env.qdepth;
      case LOAD_PKTCOUNT => mbr := env.pktCount;
      case _ =>
    }

    method Supply(op: Op, stage: nat)
      modifies this`mar, this`mbr, this`hashData
      ensures Packet() == Machine.Supply(env, stage, op, old(Packet()))
    {
      hide Machine.Supply;
      if stage < INGRESS {
        SupplyIngress(op, stage);
      } else {
        SupplyEgress(op, stage);
      }
    }

    /** Runs the action of an instruction that needs no memory. */
    method RunAction(op: Op, stage: nat)
      modifies this
      ensures Packet() == Perform(env, stage, op, old(Packet())) && heaps == old(heaps)
    {
      hide Machine.MoveWord, CopyWord, CompareWords, Calculate, DirectPacket, Steer, Machine.Supply;
      hide IsWordMove, IsCopy, IsComparison, IsArithmetic, IsForwarding, IsControl;
      if IsWordMove(op) {
        MoveWord(op);
      } else if IsCopy(op) {
        Copy(op);
      } else if IsComparison(op) {
        Compare(op);
      } else if IsArithmetic(op) {
        Compute(op);
      } else if IsForwarding(op) {
        Direct(op);
      } else if IsControl(op) {
        Control(op, stage);
      } else {
        Supply(op, stage);
      }
    }

    // ---- memory actions -----------------------------------------------------------------

    /** Overwrites the cell. */
    method MemoryWrite(obj: nat) returns (obj': nat)
      ensures (Packet(), obj') == Access(MEM_WRITE, Packet(), obj)
    {
      obj' := mbr;
    }

    /** Adds one to the cell and reads it. */
    method MemoryIncrement(obj: nat) returns (obj': nat)
      modifies this`mbr
      ensures (Packet(), obj') == Access(MEM_INCREMENT, old(Packet()), obj)
    {
      obj' := Add(obj, 1);
      mbr := obj';
    }

    /** Writes an empty cell, or compares a full one. */
    method MemoryWriteZero(obj: nat) returns (obj': nat)
      modifies this`mbr
      ensures (Packet(), obj') == Access(MEM_WRITE_CONDZERO, old(Packet()), obj)
    {
      if obj == 0 {
        obj', mbr := mbr2, 0;
      } else {
        obj', mbr := obj, Subtract(mbr2, obj);
      }
    }

    /** Reads the cell. */
    method MemoryRead(obj: nat)
      modifies this`mbr
      ensures (Packet(), obj) == Access(MEM_READ, old(Packet()), obj)
    {
      mbr := obj;
    }

    /** Reads the cell, or increments and reads it, and keeps the minimum. */
    method MemoryMinimum(obj: nat, increment: bool) returns (obj': nat)
      modifies this`mbr, this`mbr2
      ensures (Packet(), obj') == Access(if increment then MEM_MINREADINC else MEM_MINREAD, old(Packet()), obj)
    {
      obj' := if increment then Add(obj, 1) else obj;
      mbr := obj';
      mbr2 := if mbr2 < mbr then mbr2 else mbr;
    }

    /** Runs a memory instruction on a cell. */
    method RunCell(op: Op, obj: nat) returns (obj': nat)
      requires IsMemoryOp(op)
      modifies this`mbr, this`mbr2
      ensures (Packet(), obj') == Access(op, old(Packet()), obj)
    {
      hide Access;
      match op {
        case MEM_WRITE => obj' := MemoryWrite(obj);
        case MEM_READ =>
          MemoryRead(obj);
          obj' := obj;
        case MEM_INCREMENT => obj' := MemoryIncrement(obj);
        case MEM_MINREAD => obj' := MemoryMinimum(obj, false);
        case MEM_MINREADINC => obj' := MemoryMinimum(obj, true);
        case MEM_WRITE_CONDZERO => obj' := MemoryWriteZero(obj);
      }
    }

    /** Runs a memory instruction on the addressed cell of the stage's heap. */
    method RunMemory(op: Op, stage: nat)
      requires Valid() && stage < |heaps| && IsMemoryOp(op)
      modifies this`mbr, this`mbr2, this`heaps
      ensures Valid()
      ensures var (phv, cell) := Access(op, old(Packet()), Cell(old(heaps)[stage], old(mar)));
              Packet() == phv && heaps == old(heaps)[stage := Stored(old(heaps)[stage], old(mar), cell)]
    {
      hide Access;
      var obj := RunCell(op, Cell(heaps[stage], mar));
      heaps := heaps[stage := Stored(heaps[stage], mar, obj)];
    }

    // ---- the stages ---------------------------------------------------------------------

    /** Applies the instruction table of a stage. */
    method ApplyStage(instr: Instr, stage: nat)
      requires Valid() && stage < |heaps|
      modifies this
      ensures Valid()
      ensures var (phv, heap) := Apply(env, stage, ranges[stage], instr, old(Packet()), old(heaps)[stage]);
              Packet() == phv && heaps == old(heaps)[stage := heap]
    {
      hide Perform, Decide, Access;
      match Decide(instr.op, ranges[stage], Packet())
      case Some(Execute) =>
        if IsMemoryOp(instr.op) {
          RunMemory(instr.op, stage);
        } else {
          RunAction(instr.op, stage);
        }
      case Some(Rejoin) => disabled := !instr.goto;
      case _ =>
    }

    /** Runs a program: instruction after instruction, stage by stage. */
    method Run(code: seq<Instr>)
      requires Valid()
      modifies this
      ensures Valid()
      ensures (Packet(), heaps) == Exec(env, ranges, code, |code|, old(Packet()), old(heaps))
    {
      hide Apply;
      var i := 0;
      while i < |code|
        invariant 0 <= i <= |code| && Valid()
        invariant (Packet(), heaps) == Exec(env, ranges, code, i, old(Packet()), old(heaps))
      {
        ApplyStage(code[i], StageAt(i));
        i := i + 1;
      }
    }
  }
}
