/** The compiler's view of an instruction: what it reads off the mnemonic. */
module Mnemonics {
  import opened Wrappers
  import opened Machine
  import opened Loads
  import opened Optimizer

  /** The instruction as it is written in a program. */
  function Mnemonic(op: Op): string
  {
    match op
    case EOF => "EOF"
    case NOP => "NOP"
    case RETURN => "RETURN"
    case CRET => "CRET"
    case CRETI => "CRETI"
    case DROP => "DROP"
    case FORK => "FORK"
    case SET_DST => "SET_DST"
    case CJUMP => "CJUMP"
    case CJUMPI => "CJUMPI"
    case UJUMP => "UJUMP"
    case RTS => "RTS"
    case CRTS => "CRTS"
    case MBR_LOAD => "MBR_LOAD"
    case MBR2_LOAD => "MBR2_LOAD"
    case MAR_LOAD => "MAR_LOAD"
    case MBR_STORE => "MBR_STORE"
    case MBR_EQUALS_MBR2 => "MBR_EQUALS_MBR2"
    case MBR_EQUALS_DATA_0 => "MBR_EQUALS_DATA_0"
    case MBR_EQUALS_DATA_1 => "MBR_EQUALS_DATA_1"
    case MBR_EQUALS_DATA_2 => "MBR_EQUALS_DATA_2"
    case MBR_EQUALS_DATA_3 => "MBR_EQUALS_DATA_3"
    case MAX => "MAX"
    case MIN => "MIN"
    case REVMIN => "REVMIN"
    case SWAP_MBR_MBR2 => "SWAP_MBR_MBR2"
    case MBR_NOT => "MBR_NOT"
    case MBR_SUBTRACT_MBR2 => "MBR_SUBTRACT_MBR2"
    case MAR_ADD_MBR => "MAR_ADD_MBR"
    case MAR_ADD_MBR2 => "MAR_ADD_MBR2"
    case MBR_ADD_MBR2 => "MBR_ADD_MBR2"
    case MAR_MBR_ADD_MBR2 => "MAR_MBR_ADD_MBR2"
    case BIT_AND_MAR_MBR => "BIT_AND_MAR_MBR"
    case BIT_OR_MBR_MBR2 => "BIT_OR_MBR_MBR2"
    case COPY_MBR2_MBR => "COPY_MBR2_MBR"
    case COPY_MBR_MBR2 => "COPY_MBR_MBR2"
    case COPY_MAR_MBR => "COPY_MAR_MBR"
    case COPY_MBR_MAR => "COPY_MBR_MAR"
    case COPY_HASHDATA_MBR => "COPY_HASHDATA_MBR"
    case COPY_HASHDATA_MBR2 => "COPY_HASHDATA_MBR2"
    case MEM_WRITE => "MEM_WRITE"
    case MEM_READ => "MEM_READ"
    case MEM_INCREMENT => "MEM_INCREMENT"
    case MEM_MINREAD => "MEM_MINREAD"
    case MEM_MINREADINC => "MEM_MINREADINC"
    case MEM_WRITE_CONDZERO => "MEM_WRITE_CONDZERO"
    case HASH => "HASH"
    case LOAD_SALT => "LOAD_SALT"
    case LOAD_TCP_5TUPLE => "LOAD_TCP_5TUPLE"
    case LOAD_QDELAY => "LOAD_QDELAY"
    case LOAD_QUEUE => "LOAD_QUEUE"
    case LOAD_PKTCOUNT => "LOAD_PKTCOUNT"
    case ADDR_MASK => "ADDR_MASK"
    case ADDR_OFFSET => "ADDR_OFFSET"
    case MBR_STORE_ALT => "MBR_STORE_ALT"
    case MBR_STORE_ALT2 => "MBR_STORE_ALT2"
  }

  predicate SpellsMar(m: string, i: nat)
  {
    i + 3 <= |m| && m[i] == 'M' && m[i + 1] == 'A' && m[i + 2] == 'R'
  }

  predicate SpellsMbr(m: string, i: nat)
  {
    i + 3 <= |m| && m[i] == 'M' && m[i + 1] == 'B' && m[i + 2] == 'R'
  }

  /** The register named first from position i on: mar, mbr2, or mbr where no 2 follows. */
  function FirstNamed(m: string, i: nat): Option<Reg>
    decreases |m| - i
  {
    if i >= |m| then None
    else if SpellsMar(m, i) then Some(MAR)
    else if SpellsMbr(m, i) then Some(if i + 3 < |m| && m[i + 3] == '2' then MBR2 else MBR)
    else FirstNamed(m, i + 1)
  }

  lemma {:induction false} NamesNone(m: string, i: nat)
    requires forall k | i <= k < |m| :: m[k] != 'M'
    ensures FirstNamed(m, i) == None
    decreases |m| - i
  {
    if i < |m| {
      NamesNone(m, i + 1);
    }
  }

  lemma {:induction false} NamesLater(m: string, i: nat, k: nat)
    requires i <= k <= |m| && forall l | i <= l < k :: m[l] != 'M'
    ensures FirstNamed(m, i) == FirstNamed(m, k)
    decreases k - i
  {
    if i < k {
      NamesLater(m, i + 1, k);
    }
  }

  /** The mnemonic contains LO, as of its instructions only the loads do. */
  ghost predicate NamesLoad(m: string)
  {
    exists i: nat :: i + 2 <= |m| && m[i] == 'L' && m[i + 1] == 'O'
  }

  /** Instructions that name no register but write one. */
  function Unnamed(op: Op): Option<Reg>
  {
    if op == HASH then Some(MAR)
    else if op in {MIN, MAX, LOAD_QDELAY, LOAD_QUEUE} then Some(MBR)
    else if op == REVMIN then Some(MBR2)
    else None
  }

  /** The register an instruction mentions is the one its mnemonic names first. */
  ghost predicate ReadsAs(op: Op)
  {
    Tracked(op) == if IsMemoryOp(op) then None else
                     var named := FirstNamed(Mnemonic(op), 0); if named.Some? then named else Unnamed(op)
  }

  lemma ReadsMove0()
    ensures ReadsAs(MBR_LOAD)
    ensures ReadsAs(MBR2_LOAD)
  {
  }

  lemma ReadsMove1()
    ensures ReadsAs(MAR_LOAD)
    ensures ReadsAs(MBR_STORE)
  {
  }

  lemma ReadsMove2()
    ensures ReadsAs(MBR_STORE_ALT)
  {
  }

  lemma ReadsMove3()
    ensures ReadsAs(MBR_STORE_ALT2)
  {
  }

  lemma ReadsCopy0()
    ensures ReadsAs(COPY_MBR2_MBR)
    ensures ReadsAs(COPY_MBR_MBR2)
  {
    NamesLater(Mnemonic(COPY_MBR2_MBR), 0, 5);
    NamesLater(Mnemonic(COPY_MBR_MBR2), 0, 5);
  }

  lemma ReadsCopy1()
    ensures ReadsAs(COPY_MAR_MBR)
    ensures ReadsAs(COPY_MBR_MAR)
  {
    NamesLater(Mnemonic(COPY_MAR_MBR), 0, 5);
    NamesLater(Mnemonic(COPY_MBR_MAR), 0, 5);
  }

  lemma ReadsCopy2()
    ensures ReadsAs(COPY_HASHDATA_MBR)
    ensures ReadsAs(COPY_HASHDATA_MBR2)
  {
    NamesLater(Mnemonic(COPY_HASHDATA_MBR), 0, 14);
    NamesLater(Mnemonic(COPY_HASHDATA_MBR2), 0, 14);
  }

  lemma ReadsCopy3()
    ensures ReadsAs(SWAP_MBR_MBR2)
    ensures ReadsAs(LOAD_SALT)
  {
    NamesLater(Mnemonic(SWAP_MBR_MBR2), 0, 5);
    NamesNone(Mnemonic(LOAD_SALT), 0);
  }

  lemma ReadsComparison0()
    ensures ReadsAs(MBR_EQUALS_MBR2)
    ensures ReadsAs(MBR_EQUALS_DATA_0)
  {
  }

  lemma ReadsComparison1()
    ensures ReadsAs(MBR_EQUALS_DATA_1)
    ensures ReadsAs(MBR_EQUALS_DATA_2)
  {
  }

  lemma ReadsComparison2()
    ensures ReadsAs(MBR_EQUALS_DATA_3)
    ensures ReadsAs(MAX)
  {
  }

  lemma ReadsComparison3()
    ensures ReadsAs(MIN)
    ensures ReadsAs(REVMIN)
  {
    NamesLater(Mnemonic(REVMIN), 0, 3);
  }

  lemma ReadsArithmetic0()
    ensures ReadsAs(MBR_NOT)
    ensures ReadsAs(MBR_SUBTRACT_MBR2)
  {
  }

  lemma ReadsArithmetic1()
    ensures ReadsAs(MAR_ADD_MBR)
    ensures ReadsAs(MAR_ADD_MBR2)
  {
  }

  lemma ReadsArithmetic2()
    ensures ReadsAs(MBR_ADD_MBR2)
    ensures ReadsAs(MAR_MBR_ADD_MBR2)
  {
  }

  lemma ReadsArithmetic3()
    ensures ReadsAs(BIT_AND_MAR_MBR)
    ensures ReadsAs(BIT_OR_MBR_MBR2)
  {
    NamesLater(Mnemonic(BIT_AND_MAR_MBR), 0, 8);
    NamesLater(Mnemonic(BIT_OR_MBR_MBR2), 0, 7);
  }

  lemma ReadsForwarding0()
    ensures ReadsAs(DROP)
    ensures ReadsAs(FORK)
  {
    NamesNone(Mnemonic(DROP), 0);
    NamesNone(Mnemonic(FORK), 0);
  }

  lemma ReadsForwarding1()
    ensures ReadsAs(SET_DST)
    ensures ReadsAs(RTS)
  {
    NamesNone(Mnemonic(SET_DST), 0);
    NamesNone(Mnemonic(RTS), 0);
  }

  lemma ReadsForwarding2()
    ensures ReadsAs(CRTS)
  {
    NamesNone(Mnemonic(CRTS), 0);
  }

  lemma ReadsControl0()
    ensures ReadsAs(EOF)
    ensures ReadsAs(RETURN)
  {
    NamesNone(Mnemonic(EOF), 0);
    NamesNone(Mnemonic(RETURN), 0);
  }

  lemma ReadsControl1()
    ensures ReadsAs(CRET)
    ensures ReadsAs(CRETI)
  {
    NamesNone(Mnemonic(CRET), 0);
    NamesNone(Mnemonic(CRETI), 0);
  }

  lemma ReadsControl2()
    ensures ReadsAs(CJUMP)
    ensures ReadsAs(CJUMPI)
  {
    NamesLater(Mnemonic(CJUMP), 0, 3);
    NamesLater(Mnemonic(CJUMPI), 0, 3);
  }

  lemma ReadsControl3()
    ensures ReadsAs(UJUMP)
  {
    NamesLater(Mnemonic(UJUMP), 0, 3);
  }

  lemma ReadsMemory0()
    ensures ReadsAs(MEM_WRITE)
    ensures ReadsAs(MEM_READ)
  {
  }

  lemma ReadsMemory1()
    ensures ReadsAs(MEM_INCREMENT)
    ensures ReadsAs(MEM_MINREAD)
  {
  }

  lemma ReadsMemory2()
    ensures ReadsAs(MEM_MINREADINC)
    ensures ReadsAs(MEM_WRITE_CONDZERO)
  {
  }

  lemma ReadsSupply0()
    ensures ReadsAs(NOP)
    ensures ReadsAs(HASH)
  {
    NamesNone(Mnemonic(NOP), 0);
    NamesNone(Mnemonic(HASH), 0);
  }

  lemma ReadsSupply1()
    ensures ReadsAs(LOAD_TCP_5TUPLE)
    ensures ReadsAs(LOAD_QDELAY)
  {
    NamesNone(Mnemonic(LOAD_TCP_5TUPLE), 0);
    NamesNone(Mnemonic(LOAD_QDELAY), 0);
  }

  lemma ReadsSupply2()
    ensures ReadsAs(LOAD_QUEUE)
    ensures ReadsAs(LOAD_PKTCOUNT)
  {
    NamesNone(Mnemonic(LOAD_QUEUE), 0);
    NamesNone(Mnemonic(LOAD_PKTCOUNT), 0);
  }

  lemma ReadsSupply3()
    ensures ReadsAs(ADDR_MASK)
    ensures ReadsAs(ADDR_OFFSET)
  {
    NamesLater(Mnemonic(ADDR_MASK), 0, 5);
    NamesNone(Mnemonic(ADDR_OFFSET), 0);
  }

  /** A mention is what the mnemonic says: the register named first in it, or for six instructions that name
      none the one they write; memory instructions mention none. */
  lemma TrackedIsNamed(op: Op)
    ensures ReadsAs(op)
  {
    hide ReadsAs;
    ReadsMove0();
    ReadsMove1();
    ReadsMove2();
    ReadsMove3();
    ReadsCopy0();
    ReadsCopy1();
    ReadsCopy2();
    ReadsCopy3();
    ReadsComparison0();
    ReadsComparison1();
    ReadsComparison2();
    ReadsComparison3();
    ReadsArithmetic0();
    ReadsArithmetic1();
    ReadsArithmetic2();
    ReadsArithmetic3();
    ReadsForwarding0();
    ReadsForwarding1();
    ReadsForwarding2();
    ReadsControl0();
    ReadsControl1();
    ReadsControl2();
    ReadsControl3();
    ReadsMemory0();
    ReadsMemory1();
    ReadsMemory2();
    ReadsSupply0();
    ReadsSupply1();
    ReadsSupply2();
    ReadsSupply3();
    match op {
      case EOF =>
      case NOP =>
      case RETURN =>
      case CRET =>
      case CRETI =>
      case DROP =>
      case FORK =>
      case SET_DST =>
      case CJUMP =>
      case CJUMPI =>
      case UJUMP =>
      case RTS =>
      case CRTS =>
      case MBR_LOAD =>
      case MBR2_LOAD =>
      case MAR_LOAD =>
      case MBR_STORE =>
      case MBR_EQUALS_MBR2 =>
      case MBR_EQUALS_DATA_0 =>
      case MBR_EQUALS_DATA_1 =>
      case MBR_EQUALS_DATA_2 =>
      case MBR_EQUALS_DATA_3 =>
      case MAX =>
      case MIN =>
      case REVMIN =>
      case SWAP_MBR_MBR2 =>
      case MBR_NOT =>
      case MBR_SUBTRACT_MBR2 =>
      case MAR_ADD_MBR =>
      case MAR_ADD_MBR2 =>
      case MBR_ADD_MBR2 =>
      case MAR_MBR_ADD_MBR2 =>
      case BIT_AND_MAR_MBR =>
      case BIT_OR_MBR_MBR2 =>
      case COPY_MBR2_MBR =>
      case COPY_MBR_MBR2 =>
      case COPY_MAR_MBR =>
      case COPY_MBR_MAR =>
      case COPY_HASHDATA_MBR =>
      case COPY_HASHDATA_MBR2 =>
      case MEM_WRITE =>
      case MEM_READ =>
      case MEM_INCREMENT =>
      case MEM_MINREAD =>
      case MEM_MINREADINC =>
      case MEM_WRITE_CONDZERO =>
      case HASH =>
      case LOAD_SALT =>
      case LOAD_TCP_5TUPLE =>
      case LOAD_QDELAY =>
      case LOAD_QUEUE =>
      case LOAD_PKTCOUNT =>
      case ADDR_MASK =>
      case ADDR_OFFSET =>
      case MBR_STORE_ALT =>
      case MBR_STORE_ALT2 =>
    }
  }

  lemma LoadAt(m: string, i: nat)
    requires i + 2 <= |m| && m[i] == 'L' && m[i + 1] == 'O'
    ensures NamesLoad(m)
  {
  }

  lemma OtherMoves(op: Op)
    requires !SaysLoad(op) && IsWordMove(op)
    ensures !NamesLoad(Mnemonic(op))
  {
  }

  lemma OtherCopies(op: Op)
    requires !SaysLoad(op) && IsCopy(op)
    ensures !NamesLoad(Mnemonic(op))
  {
  }

  lemma OtherForwarding(op: Op)
    requires !SaysLoad(op) && IsForwarding(op)
    ensures !NamesLoad(Mnemonic(op))
  {
  }

  lemma OtherControl(op: Op)
    requires !SaysLoad(op) && IsControl(op)
    ensures !NamesLoad(Mnemonic(op))
  {
  }

  lemma OtherComparisons(op: Op)
    requires !SaysLoad(op) && IsComparison(op)
    ensures !NamesLoad(Mnemonic(op))
  {
  }

  lemma OtherArithmetic(op: Op)
    requires !SaysLoad(op) && IsArithmetic(op)
    ensures !NamesLoad(Mnemonic(op))
  {
  }

  lemma OtherRest(op: Op)
    requires !SaysLoad(op) && !IsWordMove(op) && !IsCopy(op) && !IsForwarding(op) && !IsControl(op) && !IsComparison(op) && !IsArithmetic(op)
    ensures !NamesLoad(Mnemonic(op))
  {
  }

  /** An instruction says LOAD exactly if its mnemonic does. */
  lemma SaysLoadIsNamed(op: Op)
    ensures SaysLoad(op) <==> NamesLoad(Mnemonic(op))
  {
    hide NamesLoad;
    if SaysLoad(op) {
      LoadAt(Mnemonic(op), match op case MBR_LOAD => 4 case MAR_LOAD => 4 case MBR2_LOAD => 5 case _ => 0);
    } else if IsWordMove(op) {
      OtherMoves(op);
    } else if IsCopy(op) {
      OtherCopies(op);
    } else if IsForwarding(op) {
      OtherForwarding(op);
    } else if IsControl(op) {
      OtherControl(op);
    } else if IsComparison(op) {
      OtherComparisons(op);
    } else if IsArithmetic(op) {
      OtherArithmetic(op);
    } else {
      OtherRest(op);
    }
  }
}
