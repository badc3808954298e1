/** What the instructions are for: laws that tie them to the words they compute, to one another, and to what
    a program reads back later. */
module Instructions {
  import opened Dimensions
  import opened Wrappers
  import opened Aliases
  import opened TableActions
  import opened Machine
  import opened Words

  // ---- when an instruction is run -------------------------------------------------------

  /** The packet is neither past the end of its program nor jumping. */
  predicate Running(phv: Phv)
  {
    !phv.complete && !phv.disabled
  }

  /** The address lies in the range installed for memory instructions; others need none. */
  predicate Reaches(op: Op, range: Option<(nat, nat)>, mar: nat)
  {
    IsMemoryOp(op) ==> range.Some? && range.value.0 <= mar % MAR_MASK <= range.value.1
  }

  /** A running packet has its instruction run exactly if its address is in range and its test holds: CRET,
      CJUMP, CRTS and MEM_WRITE_CONDZERO ask for a word in mbr, CRETI and CJUMPI for none. */
  lemma RunsWhen(op: Op, range: Option<(nat, nat)>, phv: Phv)
    requires Running(phv)
    ensures Decide(op, range, phv) == Some(Execute) <==>
              && Reaches(op, range, phv.mar) && op != ADDR_MASK && op != ADDR_OFFSET
              && (op in {CRET, CJUMP, CRTS, MEM_WRITE_CONDZERO} ==> phv.mbr != 0)
              && (op in {CRETI, CJUMPI} ==> phv.mbr == 0)
  {
  }

  // ---- what it leaves alone -------------------------------------------------------------

  /** The parts of a packet that instructions write; argument words 1 to 3 separately. */
  datatype Part = Mar | Mbr | Mbr2 | Data1 | Data2 | Data3 | HashWords | Flags | Decisions

  predicate SamePart(part: Part, p: Phv, q: Phv)
  {
    match part
    case Mar => q.mar == p.mar
    case Mbr => q.mbr == p.mbr
    case Mbr2 => q.mbr2 == p.mbr2
    case Data1 => q.data1 == p.data1
    case Data2 => q.data2 == p.data2
    case Data3 => q.data3 == p.data3
    case HashWords => q.hashData == p.hashData
    case Flags => q.complete == p.complete && q.disabled == p.disabled && q.done == p.done
    case Decisions => q.forwards == p.forwards
  }

  /** What the mnemonic says is written. */
  function Writes(op: Op): set<Part>
  {
    if op in {MBR_LOAD, COPY_MBR_MBR2, COPY_MBR_MAR, LOAD_SALT, MBR_NOT, MBR_SUBTRACT_MBR2, MBR_ADD_MBR2, BIT_OR_MBR_MBR2} then {Mbr}
    else if op in {MBR_EQUALS_MBR2, MBR_EQUALS_DATA_0, MBR_EQUALS_DATA_1, MBR_EQUALS_DATA_2, MBR_EQUALS_DATA_3, MAX, MIN} then {Mbr}
    else if op in {LOAD_QDELAY, LOAD_QUEUE, LOAD_PKTCOUNT} then {Mbr}
    else if op in {MBR2_LOAD, COPY_MBR2_MBR, REVMIN} then {Mbr2}
    else if op in {MAR_LOAD, COPY_MAR_MBR, MAR_ADD_MBR, MAR_ADD_MBR2, MAR_MBR_ADD_MBR2, BIT_AND_MAR_MBR, HASH} then {Mar}
    else if op == SWAP_MBR_MBR2 then {Mbr, Mbr2}
    else if op == MBR_STORE then {Data3}
    else if op == MBR_STORE_ALT then {Data1}
    else if op == MBR_STORE_ALT2 then {Data2}
    else if op in {COPY_HASHDATA_MBR, COPY_HASHDATA_MBR2, LOAD_TCP_5TUPLE} then {HashWords}
    else if op in {EOF, CJUMP, CJUMPI, UJUMP} then {Flags}
    else if op in {RETURN, CRET, CRETI} then {Flags, Decisions}
    else if op in {DROP, FORK, SET_DST, RTS, CRTS} then {Decisions}
    else {}
  }

  lemma MovesWrite(op: Op, p: Phv, part: Part)
    requires IsWordMove(op) && part !in Writes(op)
    ensures SamePart(part, p, MoveWord(op, p))
  {
  }

  lemma CopiesWrite(op: Op, p: Phv, part: Part)
    requires IsCopy(op) && part !in Writes(op)
    ensures SamePart(part, p, CopyWord(op, p))
  {
  }

  lemma ComparisonsWrite(op: Op, p: Phv, part: Part)
    requires IsComparison(op) && part !in Writes(op)
    ensures SamePart(part, p, CompareWords(op, p))
  {
    hide Xor, Machine.Least, Greatest;
  }

  lemma ArithmeticWrites(op: Op, p: Phv, part: Part)
    requires IsArithmetic(op) && part !in Writes(op)
    ensures SamePart(part, p, Calculate(op, p))
  {
    hide Add, Subtract, And, Or, Not;
  }

  lemma ForwardingWrites(op: Op, p: Phv, part: Part)
    requires IsForwarding(op) && part !in Writes(op)
    ensures SamePart(part, p, DirectPacket(op, p))
  {
  }

  lemma ControlWrites(stage: nat, op: Op, p: Phv, part: Part)
    requires IsControl(op) && part !in Writes(op)
    ensures SamePart(part, p, Steer(stage, op, p))
  {
  }

  lemma SupplyWrites(env: Env, stage: nat, op: Op, p: Phv, part: Part)
    requires part !in Writes(op)
    ensures SamePart(part, p, Supply(env, stage, op, p))
  {
  }

  /** An instruction writes nothing but what its mnemonic says; argument word 0 is never written. */
  lemma OnlyWrites(env: Env, stage: nat, op: Op, p: Phv, part: Part)
    requires part !in Writes(op)
    ensures SamePart(part, p, Perform(env, stage, op, p))
  {
    hide SamePart, Writes, MoveWord, CopyWord, CompareWords, Calculate, DirectPacket, Steer, Supply;
    if IsWordMove(op) {
      MovesWrite(op, p, part);
    } else if IsCopy(op) {
      CopiesWrite(op, p, part);
    } else if IsComparison(op) {
      ComparisonsWrite(op, p, part);
    } else if IsArithmetic(op) {
      ArithmeticWrites(op, p, part);
    } else if IsForwarding(op) {
      ForwardingWrites(op, p, part);
    } else if IsControl(op) {
      ControlWrites(stage, op, p, part);
    } else {
      SupplyWrites(env, stage, op, p, part);
    }
  }

  // ---- words ----------------------------------------------------------------------------

  /** The registers hold 32-bit words. */
  predicate Worded(p: Phv)
  {
    p.mar < WORD && p.mbr < WORD && p.mbr2 < WORD
  }

  /** A sum gives back one operand when the other is taken away, and a difference the minuend when the
      subtrahend is added. */
  lemma MbrSums(env: Env, stage: nat, p: Phv)
    requires Worded(p)
    ensures Subtract(Perform(env, stage, MBR_ADD_MBR2, p).mbr, p.mbr2) == p.mbr
    ensures Add(Perform(env, stage, MBR_SUBTRACT_MBR2, p).mbr, p.mbr2) == p.mbr
  {
    hide Add, Subtract;
    SubtractUndoes(p.mbr, p.mbr2);
  }

  lemma MarSums(env: Env, stage: nat, p: Phv)
    requires Worded(p)
    ensures Subtract(Perform(env, stage, MAR_ADD_MBR, p).mar, p.mbr) == p.mar
    ensures Subtract(Perform(env, stage, MAR_ADD_MBR2, p).mar, p.mbr2) == p.mar
    ensures Subtract(Perform(env, stage, MAR_MBR_ADD_MBR2, p).mar, p.mbr2) == p.mbr
  {
    hide Add, Subtract;
    SubtractUndoes(p.mbr, p.mbr2);
    SubtractUndoes(p.mar, p.mbr);
    SubtractUndoes(p.mar, p.mbr2);
  }

  /** Bitwise instructions, bit by bit. */
  lemma AndOr(env: Env, stage: nat, p: Phv, i: nat)
    ensures Bit(Perform(env, stage, BIT_AND_MAR_MBR, p).mar, i) <==> Bit(p.mar, i) && Bit(p.mbr, i)
    ensures Bit(Perform(env, stage, BIT_OR_MBR_MBR2, p).mbr, i) <==> Bit(p.mbr, i) || Bit(p.mbr2, i)
  {
    hide And, Or, Bit;
    AndBits(p.mar, p.mbr, i);
    OrBits(p.mbr, p.mbr2, i);
  }

  lemma Complements(env: Env, stage: nat, p: Phv, i: nat)
    requires Worded(p) && i < 32
    ensures Bit(Perform(env, stage, MBR_NOT, p).mbr, i) <==> !Bit(p.mbr, i)
    ensures Bit(Perform(env, stage, MBR_EQUALS_MBR2, p).mbr, i) <==> Bit(p.mbr, i) != Bit(p.mbr2, i)
  {
    hide Not, Xor, Bit;
    NotBits(p.mbr, i);
    XorBits(p.mbr, p.mbr2, i);
  }

  /** An equality test leaves zero exactly if the words are equal. */
  lemma Equalities(env: Env, stage: nat, p: Phv)
    ensures Perform(env, stage, MBR_EQUALS_MBR2, p).mbr == 0 <==> p.mbr == p.mbr2
    ensures Perform(env, stage, MBR_EQUALS_DATA_0, p).mbr == 0 <==> p.mbr == p.data0
    ensures Perform(env, stage, MBR_EQUALS_DATA_1, p).mbr == 0 <==> p.mbr == p.data1
  {
    hide Xor;
    XorZero(p.mbr, p.mbr2);
    XorZero(p.mbr, p.data0);
    XorZero(p.mbr, p.data1);
  }

  lemma MoreEqualities(env: Env, stage: nat, p: Phv)
    ensures Perform(env, stage, MBR_EQUALS_DATA_2, p).mbr == 0 <==> p.mbr == p.data2
    ensures Perform(env, stage, MBR_EQUALS_DATA_3, p).mbr == 0 <==> p.mbr == p.data3
  {
    hide Xor;
    XorZero(p.mbr, p.data2);
    XorZero(p.mbr, p.data3);
  }

  predicate IsLeast(w: nat, a: nat, b: nat) { w <= a && w <= b && (w == a || w == b) }

  predicate IsGreatest(w: nat, a: nat, b: nat) { w >= a && w >= b && (w == a || w == b) }

  /** The order instructions pick the lesser or the greater of the two registers. */
  lemma Orders(env: Env, stage: nat, p: Phv)
    ensures IsLeast(Perform(env, stage, MIN, p).mbr, p.mbr, p.mbr2)
    ensures IsGreatest(Perform(env, stage, MAX, p).mbr, p.mbr, p.mbr2)
    ensures IsLeast(Perform(env, stage, REVMIN, p).mbr2, p.mbr, p.mbr2)
  {
    LeastGreatest(p.mbr, p.mbr2);
  }

  /** Copying a register there and back changes nothing but the other register, which then holds the same
      word; exchanging twice changes nothing. */
  lemma CopiesMbr2(env: Env, stage: nat, p: Phv)
    ensures var q := Perform(env, stage, COPY_MBR2_MBR, p); q.mbr2 == p.mbr && Perform(env, stage, COPY_MBR_MBR2, q) == q
    ensures var q := Perform(env, stage, COPY_MBR_MBR2, p); q.mbr == p.mbr2 && Perform(env, stage, COPY_MBR2_MBR, q) == q
  {
    hide MoveWord, CompareWords, Calculate, DirectPacket, Steer, Supply;
  }

  lemma CopiesMar(env: Env, stage: nat, p: Phv)
    ensures var q := Perform(env, stage, COPY_MAR_MBR, p); q.mar == p.mbr && Perform(env, stage, COPY_MBR_MAR, q) == q
    ensures var q := Perform(env, stage, COPY_MBR_MAR, p); q.mbr == p.mar && Perform(env, stage, COPY_MAR_MBR, q) == q
  {
    hide MoveWord, CompareWords, Calculate, DirectPacket, Steer, Supply;
  }

  lemma Exchanges(env: Env, stage: nat, p: Phv)
    ensures var q := Perform(env, stage, SWAP_MBR_MBR2, p); q.mbr == p.mbr2 && Perform(env, stage, SWAP_MBR_MBR2, q) == p
    ensures Perform(env, stage, LOAD_SALT, p).mbr == CONST_SALT
  {
    hide MoveWord, CompareWords, Calculate, DirectPacket, Steer, Supply;
  }

  /** What is stored in an argument word a load brings back, and an equality test recognises. */
  lemma StoresLoad(env: Env, stage: nat, p: Phv, w: nat)
    ensures Perform(env, stage, MBR_LOAD, Perform(env, stage, MBR_STORE_ALT, p).(mbr := w)).mbr == p.mbr
    ensures Perform(env, stage, MBR2_LOAD, Perform(env, stage, MBR_STORE_ALT2, p)).mbr2 == p.mbr
  {
    hide CompareWords, CopyWord, Calculate, DirectPacket, Steer, Supply;
  }

  lemma StoresAnswer(env: Env, stage: nat, p: Phv)
    ensures Perform(env, stage, MBR_EQUALS_DATA_3, Perform(env, stage, MBR_STORE, p)).mbr == 0
    ensures Perform(env, stage, MAR_LOAD, p).mar < MAR_MASK
    ensures p.data0 < MAR_MASK ==> Perform(env, stage, MAR_LOAD, p).mar == p.data0
  {
    hide Xor, CopyWord, Calculate, DirectPacket, Steer, Supply;
    XorZero(p.mbr, p.mbr);
  }

  /** The words a hash is taken of. */
  lemma HashWordsCopied(env: Env, stage: nat, p: Phv)
    requires |p.hashData| >= 2
    ensures var q := Perform(env, stage, COPY_HASHDATA_MBR2, Perform(env, stage, COPY_HASHDATA_MBR, p));
            q.hashData == [p.mbr, p.mbr2] + p.hashData[2..]
  {
    hide MoveWord, CompareWords, Calculate, DirectPacket, Steer, Supply;
  }

  /** The hash is 16 bits wide and depends on the hash words and the stage; the flow's addresses, the queue
      and the delay are known on one side of the switch only. */
  lemma Supplies(env: Env, stage: nat, p: Phv)
    ensures Perform(env, stage, HASH, p).mar < 0x1_0000 && (env.hash(stage, p.hashData) - Perform(env, stage, HASH, p).mar) % 0x1_0000 == 0
    ensures Perform(env, stage, LOAD_TCP_5TUPLE, p).hashData == if stage < INGRESS then env.tuple else p.hashData
    ensures Perform(env, stage, LOAD_PKTCOUNT, p).mbr == env.pktCount
  {
    hide MoveWord, CopyWord, CompareWords, Calculate, DirectPacket, Steer;
  }

  lemma QueueSupplies(env: Env, stage: nat, p: Phv)
    ensures Perform(env, stage, LOAD_QDELAY, p).mbr == if stage < INGRESS then p.mbr else env.qdelay
    ensures Perform(env, stage, LOAD_QUEUE, p).mbr == if stage < INGRESS then p.mbr else env.qdepth
  {
    hide MoveWord, CopyWord, CompareWords, Calculate, DirectPacket, Steer;
  }

  /** The forwarding instructions take one decision each, of the kind they are named after; SET_DST goes to
      the port in the nine low bits of mbr, whatever the others are. */
  lemma Decides(env: Env, stage: nat, op: Op, p: Phv)
    requires op in {DROP, FORK, SET_DST, RTS, CRTS, RETURN, CRET, CRETI}
    ensures var q := Perform(env, stage, op, p);
            && |q.forwards| == |p.forwards| + 1 && q.forwards[..|p.forwards|] == p.forwards
            && var d := q.forwards[|p.forwards|];
            && d.op == (if op == CRTS then RTS else if op in {CRET, CRETI} then RETURN else op)
            && d.port < 512 && if op == SET_DST then (p.mbr - d.port) % 512 == 0 else d.port == 0
  {
    hide MoveWord, CopyWord, CompareWords, Calculate, Supply;
  }

  // ---- memory ---------------------------------------------------------------------------

  /** A memory instruction in range. */
  predicate Accesses(op: Op, range: Option<(nat, nat)>, p: Phv)
  {
    IsMemoryOp(op) && Running(p) && Reaches(op, range, p.mar) && (op == MEM_WRITE_CONDZERO ==> p.mbr != 0)
  }

  lemma AccessRuns(env: Env, stage: nat, range: Option<(nat, nat)>, instr: Instr, p: Phv, heap: Heap)
    requires Accesses(instr.op, range, p)
    ensures var (q, cell) := Access(instr.op, p, Cell(heap, p.mar));
            Apply(env, stage, range, instr, p, heap) == (q, Machine.Stored(heap, p.mar, cell))
  {
    hide Access, Decide;
    RunsWhen(instr.op, range, p);
  }

  /** No other cell changes. */
  lemma OtherCells(env: Env, stage: nat, range: Option<(nat, nat)>, instr: Instr, p: Phv, heap: Heap, addr: nat)
    requires addr != p.mar
    ensures Cell(Apply(env, stage, range, instr, p, heap).1, addr) == Cell(heap, addr)
  {
    hide Access, Perform, Decide;
  }

  /** Whoever reads an address gets what was written there last. */
  lemma WriteThenRead(env: Env, stage: nat, range: Option<(nat, nat)>, range': Option<(nat, nat)>, write: Instr, read: Instr,
                      p: Phv, q: Phv, heap: Heap)
    requires write.op == MEM_WRITE && read.op == MEM_READ && q.mar == p.mar
    requires Accesses(MEM_WRITE, range, p) && Accesses(MEM_READ, range', q)
    ensures var heap' := Apply(env, stage, range, write, p, heap).1;
            && Apply(env, stage, range, write, p, heap).0 == p
            && Apply(env, stage, range', read, q, heap').0 == q.(mbr := p.mbr)
            && forall addr: nat :: Cell(Apply(env, stage, range', read, q, heap').1, addr) == Cell(heap', addr)
  {
    hide Decide;
    AccessRuns(env, stage, range, write, p, heap);
    AccessRuns(env, stage, range', read, q, Apply(env, stage, range, write, p, heap).1);
  }

  /** The heap after each of the packets has run the same memory instruction. */
  function Repeated(env: Env, stage: nat, range: Option<(nat, nat)>, instr: Instr, ps: seq<Phv>, heap: Heap): Heap
  {
    if ps == [] then heap else
      Apply(env, stage, range, instr, ps[|ps| - 1], Repeated(env, stage, range, instr, ps[..|ps| - 1], heap)).1
  }

  /** Packets that increment a cell count up in it, modulo 2^32, and each gets its own number. */
  lemma {:induction false} IncrementsCount(env: Env, stage: nat, range: Option<(nat, nat)>, instr: Instr, ps: seq<Phv>, heap: Heap, addr: nat)
    requires instr.op == MEM_INCREMENT || instr.op == MEM_MINREADINC
    requires forall k | 0 <= k < |ps| :: ps[k].mar == addr && Accesses(instr.op, range, ps[k])
    requires Cell(heap, addr) < WORD
    ensures Cell(Repeated(env, stage, range, instr, ps, heap), addr) == (Cell(heap, addr) + |ps|) % WORD
    ensures ps != [] ==>
              var last := |ps| - 1;
              Apply(env, stage, range, instr, ps[last], Repeated(env, stage, range, instr, ps[..last], heap)).0.mbr
              == (Cell(heap, addr) + |ps|) % WORD
  {
    hide Apply, Access, Add, Accesses;
    if ps != [] {
      var last := |ps| - 1;
      var before := Repeated(env, stage, range, instr, ps[..last], heap);
      IncrementsCount(env, stage, range, instr, ps[..last], heap, addr);
      CountsOne(env, stage, range, instr, ps[last], before);
      CountsUp(Cell(heap, addr), last);
    }
  }

  lemma CountsOne(env: Env, stage: nat, range: Option<(nat, nat)>, instr: Instr, p: Phv, heap: Heap)
    requires (instr.op == MEM_INCREMENT || instr.op == MEM_MINREADINC) && Accesses(instr.op, range, p)
    ensures var (q, heap') := Apply(env, stage, range, instr, p, heap);
            q.mbr == Cell(heap', p.mar) == Add(Cell(heap, p.mar), 1)
  {
    hide Decide, Add;
    AccessRuns(env, stage, range, instr, p, heap);
  }

  lemma CountsUp(c: nat, k: nat)
    requires c < WORD
    ensures Add((c + k) % WORD, 1) == (c + k + 1) % WORD
  {
  }

  /** The minimum reads: mbr gets the word read, mbr2 the lesser of it and what it was. */
  lemma MinReads(env: Env, stage: nat, range: Option<(nat, nat)>, instr: Instr, p: Phv, heap: Heap)
    requires (instr.op == MEM_MINREAD || instr.op == MEM_MINREADINC) && Accesses(instr.op, range, p)
    ensures var (q, heap') := Apply(env, stage, range, instr, p, heap);
            && q.mbr == Cell(heap', p.mar) && IsLeast(q.mbr2, p.mbr2, q.mbr)
            && q == p.(mbr := q.mbr, mbr2 := q.mbr2)
            && (instr.op == MEM_MINREAD ==> Cell(heap', p.mar) == Cell(heap, p.mar))
  {
    hide Decide, Add;
    AccessRuns(env, stage, range, instr, p, heap);
  }

  /** The conditional write takes an empty cell and keeps a full one, and leaves zero exactly if the cell then
      holds mbr2. */
  lemma ConditionalWrite(env: Env, stage: nat, range: Option<(nat, nat)>, instr: Instr, p: Phv, heap: Heap)
    requires instr.op == MEM_WRITE_CONDZERO && Accesses(instr.op, range, p) && Worded(p) && Cell(heap, p.mar) < WORD
    ensures var (q, heap') := Apply(env, stage, range, instr, p, heap);
            && Cell(heap', p.mar) == (if Cell(heap, p.mar) != 0 then Cell(heap, p.mar) else p.mbr2)
            && (q.mbr == 0 <==> Cell(heap', p.mar) == p.mbr2) && q == p.(mbr := q.mbr)
  {
    hide Decide, Subtract;
    AccessRuns(env, stage, range, instr, p, heap);
    SubtractZero(p.mbr2, Cell(heap, p.mar));
  }

  // ---- jumps ----------------------------------------------------------------------------

  predicate IsJump(op: Op) { op.CJUMP? || op.CJUMPI? || op.UJUMP? }

  /** A taken jump disables the packet and does nothing else. */
  lemma JumpTaken(env: Env, stage: nat, range: Option<(nat, nat)>, instr: Instr, p: Phv, heap: Heap)
    requires IsJump(instr.op) && Running(p) && (instr.op == CJUMP ==> p.mbr != 0) && (instr.op == CJUMPI ==> p.mbr == 0)
    ensures Apply(env, stage, range, instr, p, heap) == (p.(disabled := true), heap)
  {
    hide Decide;
    RunsWhen(instr.op, range, p);
  }

  lemma SkippedOver(env: Env, stage: nat, range: Option<(nat, nat)>, instr: Instr, p: Phv, heap: Heap)
    requires p.disabled && !p.complete
    ensures !instr.goto ==> Apply(env, stage, range, instr, p, heap) == (p, heap)
    ensures instr.goto && !IsMemoryOp(instr.op) && !IsVirtualOp(instr.op)
            ==> Apply(env, stage, range, instr, p, heap) == (p.(disabled := false), heap)
  {
  }

  lemma {:induction false} Skipping(env: Env, ranges: StageRanges, code: seq<Instr>, p: Phv, heaps: Heaps, i: nat, j: nat)
    requires i <= j <= |code| && |ranges| == |heaps| == STAGES
    requires Exec(env, ranges, code, i, p, heaps).0.disabled && !Exec(env, ranges, code, i, p, heaps).0.complete
    requires forall k | i <= k < j :: !code[k].goto
    ensures Exec(env, ranges, code, j, p, heaps) == Exec(env, ranges, code, i, p, heaps)
    decreases j
  {
    hide Apply;
    if i < j {
      Skipping(env, ranges, code, p, heaps, i, j - 1);
      var r, stage := Exec(env, ranges, code, j - 1, p, heaps), StageAt(j - 1);
      SkippedOver(env, stage, ranges[stage], code[j - 1], r.0, r.1[stage]);
      assert r.1[stage := r.1[stage]] == r.1;
    }
  }

  /** A taken jump at position i goes on behind the next label at position l: between them the program does
      nothing, and the packet is as it was before the jump. */
  lemma JumpSkips(env: Env, ranges: StageRanges, code: seq<Instr>, p: Phv, heaps: Heaps, i: nat, l: nat)
    requires i < l < |code| && |ranges| == |heaps| == STAGES && IsJump(code[i].op)
    requires code[l].goto && !IsMemoryOp(code[l].op) && !IsVirtualOp(code[l].op) && forall k | i < k < l :: !code[k].goto
    requires var q := Exec(env, ranges, code, i, p, heaps).0;
             Running(q) && (code[i].op == CJUMP ==> q.mbr != 0) && (code[i].op == CJUMPI ==> q.mbr == 0)
    ensures Exec(env, ranges, code, l + 1, p, heaps) == Exec(env, ranges, code, i, p, heaps)
  {
    hide Apply, Exec;
    var r, x, y := Exec(env, ranges, code, i, p, heaps), StageAt(i), StageAt(l);
    ExecNext(env, ranges, code, i, p, heaps, r);
    JumpTaken(env, x, ranges[x], code[i], r.0, r.1[x]);
    assert r.1[x := r.1[x]] == r.1;
    var r' := (r.0.(disabled := true), r.1);
    assert Exec(env, ranges, code, i + 1, p, heaps) == r';
    Skipping(env, ranges, code, p, heaps, i + 1, l);
    ExecNext(env, ranges, code, l, p, heaps, r');
    SkippedOver(env, y, ranges[y], code[l], r'.0, r'.1[y]);
    assert r'.1[y := r'.1[y]] == r'.1;
  }

  /** A jump that is not taken goes on with the next instruction. */
  lemma JumpNotTaken(env: Env, stage: nat, range: Option<(nat, nat)>, instr: Instr, p: Phv, heap: Heap)
    requires Running(p) && ((instr.op == CJUMP && p.mbr == 0) || (instr.op == CJUMPI && p.mbr != 0))
    ensures Apply(env, stage, range, instr, p, heap) == (p, heap)
  {
  }

  // ---- completed packets ----------------------------------------------------------------

  /** A completed packet is left alone until the program's end. */
  lemma CompletedApply(env: Env, stage: nat, range: Option<(nat, nat)>, instr: Instr, phv: Phv, heap: Heap)
    requires phv.complete
    ensures var (phv', heap') := Apply(env, stage, range, instr, phv, heap);
            phv'.complete && phv'.data3 == phv.data3 && phv'.forwards == phv.forwards && heap' == heap
  {
  }

  lemma {:induction false} CompletedRun(env: Env, ranges: StageRanges, code: seq<Instr>, phv: Phv, heaps: Heaps, lo: nat, hi: nat)
    requires lo <= hi <= |code| && |ranges| == |heaps| == STAGES
    requires Exec(env, ranges, code, lo, phv, heaps).0.complete
    ensures var r, r' := Exec(env, ranges, code, lo, phv, heaps), Exec(env, ranges, code, hi, phv, heaps);
            r'.0.complete && r'.0.data3 == r.0.data3 && r'.0.forwards == r.0.forwards && r'.1 == r.1
    decreases hi
  {
    hide Apply;
    if lo < hi {
      CompletedRun(env, ranges, code, phv, heaps, lo, hi - 1);
      var r := Exec(env, ranges, code, hi - 1, phv, heaps);
      var stage := StageAt(hi - 1);
      CompletedApply(env, stage, ranges[stage], code[hi - 1], r.0, r.1[stage]);
      assert r.1[stage := r.1[stage]] == r.1;
    }
  }

  predicate InRange(ranges: StageRanges, stage: nat, addr: nat)
  {
    stage < |ranges| && ranges[stage].Some? && ranges[stage].value.0 <= addr <= ranges[stage].value.1
  }

  // ---- programs, step by step -----------------------------------------------------------

  /** The program has come to instruction n with this packet and these heaps. */
  ghost predicate At(env: Env, ranges: StageRanges, code: seq<Instr>, phv0: Phv, heaps0: Heaps, n: nat, phv: Phv, heaps: Heaps)
  {
    n <= |code| && |ranges| == |heaps0| == STAGES && Exec(env, ranges, code, n, phv0, heaps0) == (phv, heaps)
  }

  lemma Step(env: Env, ranges: StageRanges, code: seq<Instr>, phv0: Phv, heaps0: Heaps, n: nat, phv: Phv, heaps: Heaps)
    requires At(env, ranges, code, phv0, heaps0, n, phv, heaps) && n < |code| && Running(phv)
    requires var op := code[n].op;
             !IsMemoryOp(op) && !IsVirtualOp(op) && ConditionOf(op).None?
    ensures At(env, ranges, code, phv0, heaps0, n + 1, Perform(env, StageAt(n), code[n].op, phv), heaps)
  {
    hide Exec, Perform, Decide;
    var stage := StageAt(n);
    ExecNext(env, ranges, code, n, phv0, heaps0, (phv, heaps));
    RunsWhen(code[n].op, ranges[stage], phv);
    assert heaps[stage := heaps[stage]] == heaps;
  }

  lemma Miss(env: Env, ranges: StageRanges, code: seq<Instr>, phv0: Phv, heaps0: Heaps, n: nat, phv: Phv, heaps: Heaps)
    requires At(env, ranges, code, phv0, heaps0, n, phv, heaps) && n < |code| && IsVirtualOp(code[n].op)
    ensures At(env, ranges, code, phv0, heaps0, n + 1, phv, heaps)
  {
    hide Exec;
    var stage := StageAt(n);
    ExecNext(env, ranges, code, n, phv0, heaps0, (phv, heaps));
    assert heaps[stage := heaps[stage]] == heaps;
  }

  lemma Touch(env: Env, ranges: StageRanges, code: seq<Instr>, phv0: Phv, heaps0: Heaps, n: nat, phv: Phv, heaps: Heaps)
    requires At(env, ranges, code, phv0, heaps0, n, phv, heaps) && n < |code| && Running(phv) && phv.mar < MAR_MASK
    requires IsMemoryOp(code[n].op) && ConditionOf(code[n].op).None? && InRange(ranges, StageAt(n), phv.mar)
    ensures |heaps| == STAGES
    ensures var (q, cell) := Access(code[n].op, phv, Cell(heaps[StageAt(n)], phv.mar));
            At(env, ranges, code, phv0, heaps0, n + 1, q, heaps[StageAt(n) := Machine.Stored(heaps[StageAt(n)], phv.mar, cell)])
  {
    hide Exec, Access;
    ExecNext(env, ranges, code, n, phv0, heaps0, (phv, heaps));
    AccessRuns(env, StageAt(n), ranges[StageAt(n)], code[n], phv, heaps[StageAt(n)]);
  }

  lemma Starts(env: Env, ranges: StageRanges, code: seq<Instr>, phv: Phv, heaps: Heaps)
    requires |ranges| == |heaps| == STAGES
    ensures At(env, ranges, code, phv, heaps, 0, phv, heaps)
  {
    ExecStart(env, ranges, code, phv, heaps);
  }

  lemma AtLengths(env: Env, ranges: StageRanges, code: seq<Instr>, phv0: Phv, heaps0: Heaps, n: nat, phv: Phv, heaps: Heaps)
    requires At(env, ranges, code, phv0, heaps0, n, phv, heaps)
    ensures |ranges| == |heaps0| == |heaps| == STAGES
  {
  }

  lemma RestCompleted(env: Env, ranges: StageRanges, code: seq<Instr>, phv0: Phv, heaps0: Heaps, n: nat, phv: Phv, heaps: Heaps)
    requires At(env, ranges, code, phv0, heaps0, n, phv, heaps) && phv.complete
    ensures Exec(env, ranges, code, |code|, phv0, heaps0).1 == heaps
    ensures Exec(env, ranges, code, |code|, phv0, heaps0).0.forwards == phv.forwards
  {
    hide Exec;
    CompletedRun(env, ranges, code, phv0, heaps0, n, |code|);
  }

  // ---- effects, for following a program -------------------------------------------------

  lemma LoadEffects(env: Env, stage: nat, p: Phv)
    ensures Perform(env, stage, MBR_LOAD, p) == p.(mbr := p.data1)
    ensures Perform(env, stage, MBR2_LOAD, p) == p.(mbr2 := p.data2)
    ensures Perform(env, stage, MAR_LOAD, p) == p.(mar := p.data0 % MAR_MASK)
  {
  }

  lemma HashWordEffects(env: Env, stage: nat, p: Phv)
    requires |p.hashData| >= 2
    ensures Perform(env, stage, COPY_HASHDATA_MBR, p) == p.(hashData := p.hashData[0 := p.mbr])
    ensures Perform(env, stage, COPY_HASHDATA_MBR2, p) == p.(hashData := p.hashData[1 := p.mbr2])
  {
  }

  lemma HashEffects(env: Env, stage: nat, p: Phv)
    ensures Perform(env, stage, HASH, p) == p.(mar := env.hash(stage, p.hashData) % 0x1_0000)
    ensures Perform(env, stage, NOP, p) == p
  {
  }

  lemma CopyEffects(env: Env, stage: nat, p: Phv)
    ensures Perform(env, stage, COPY_MBR2_MBR, p) == p.(mbr2 := p.mbr)
    ensures Perform(env, stage, COPY_MBR_MBR2, p) == p.(mbr := p.mbr2)
  {
  }

  lemma AddressEffects(env: Env, stage: nat, p: Phv)
    ensures Perform(env, stage, COPY_MBR_MAR, p) == p.(mbr := p.mar)
    ensures Perform(env, stage, COPY_MAR_MBR, p) == p.(mar := p.mbr)
  {
  }

  lemma SumEffects(env: Env, stage: nat, p: Phv)
    ensures Perform(env, stage, BIT_AND_MAR_MBR, p) == p.(mar := And(p.mar, p.mbr))
    ensures Perform(env, stage, MAR_MBR_ADD_MBR2, p) == p.(mar := Add(p.mbr, p.mbr2))
  {
    hide And, Add;
  }

  lemma FlowEffects(env: Env, stage: nat, p: Phv)
    ensures Perform(env, stage, LOAD_TCP_5TUPLE, p) == if stage < INGRESS then p.(hashData := env.tuple) else p
    ensures Perform(env, stage, LOAD_SALT, p) == p.(mbr := CONST_SALT)
    ensures Perform(env, stage, SET_DST, p) == p.(forwards := p.forwards + [Forward(SET_DST, p.mbr % 512)])
  {
  }

  lemma CompareEffects(env: Env, stage: nat, p: Phv)
    ensures Perform(env, stage, MIN, p) == p.(mbr := Machine.Least(p.mbr, p.mbr2))
    ensures Perform(env, stage, MBR_EQUALS_MBR2, p) == p.(mbr := Xor(p.mbr, p.mbr2))
  {
  }

  lemma AccessEffects(p: Phv, c: nat)
    ensures Access(MEM_MINREADINC, p, c) == (p.(mbr := Add(c, 1), mbr2 := Machine.Least(p.mbr2, Add(c, 1))), Add(c, 1))
    ensures Access(MEM_READ, p, c) == (p.(mbr := c), c)
    ensures Access(MEM_INCREMENT, p, c) == (p.(mbr := Add(c, 1)), Add(c, 1))
    ensures Access(MEM_WRITE, p, c) == (p, p.mbr)
  {
  }

  lemma ReturnEffects(env: Env, stage: nat, p: Phv)
    ensures Perform(env, stage, CRETI, p) == Returned(stage, p) == Perform(env, stage, RETURN, p)
  {
  }
}
