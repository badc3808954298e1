/** The match entries the controller installs make the instruction machine: looking a packet up in them
    gives the machine's decision. */
module Lookups {
  import opened Wrappers
  import opened Columns
  import opened Isolation
  import opened SwitchTables
  import opened TableActions
  import opened Machine

  /** The number of an instruction in the opcode map. */
  function Opcode(op: Op): nat
  {
    match op
    case EOF => 0 case NOP => 1 case RETURN => 2 case CRET => 3 case CRETI => 4 case DROP => 5 case FORK => 6
    case SET_DST => 7 case CJUMP => 8 case CJUMPI => 9 case UJUMP => 10 case RTS => 11 case CRTS => 12
    case MBR_LOAD => 13 case MBR2_LOAD => 14 case MAR_LOAD => 15 case MBR_STORE => 16
    case MBR_EQUALS_MBR2 => 17 case MBR_EQUALS_DATA_0 => 18 case MBR_EQUALS_DATA_1 => 19
    case MBR_EQUALS_DATA_2 => 20 case MBR_EQUALS_DATA_3 => 21 case MAX => 22 case MIN => 23 case REVMIN => 24
    case SWAP_MBR_MBR2 => 25 case MBR_NOT => 26 case MBR_SUBTRACT_MBR2 => 27 case MAR_ADD_MBR => 28
    case MAR_ADD_MBR2 => 29 case MBR_ADD_MBR2 => 30 case MAR_MBR_ADD_MBR2 => 31 case BIT_AND_MAR_MBR => 32
    case BIT_OR_MBR_MBR2 => 33 case COPY_MBR2_MBR => 34 case COPY_MBR_MBR2 => 35 case COPY_MAR_MBR => 36
    case COPY_MBR_MAR => 37 case COPY_HASHDATA_MBR => 38 case COPY_HASHDATA_MBR2 => 39
    case MEM_WRITE => 40 case MEM_READ => 41 case MEM_INCREMENT => 42 case MEM_MINREAD => 43
    case MEM_MINREADINC => 44 case MEM_WRITE_CONDZERO => 45
    case HASH => 46 case LOAD_SALT => 47 case LOAD_TCP_5TUPLE => 48 case LOAD_QDELAY => 49 case LOAD_QUEUE => 50
    case LOAD_PKTCOUNT => 51 case ADDR_MASK => 92 case ADDR_OFFSET => 93
    case MBR_STORE_ALT => 94 case MBR_STORE_ALT2 => 95
  }

  function ActOf(op: Op): Act
  {
    Act(Opcode(op), ConditionOf(op), IsMemoryOp(op), !IsVirtualOp(op))
  }

  /** The fields of a packet that an instruction table matches on. */
  datatype Key = Key(fid: Fid, opcode: nat, complete: bool, disabled: bool, mbr: nat, mar: nat)

  predicate Hits(e: Entry, k: Key)
  {
    Matches(e, k.fid, k.opcode, k.complete, k.disabled, k.mbr, k.mar)
  }

  /** Entry e takes over from the best one so far. */
  function Better(best: Option<Entry>, e: Entry, k: Key): Option<Entry>
  {
    if Hits(e, k) && (best.None? || e.mbrPrefix > best.value.mbrPrefix) then Some(e) else best
  }

  /** The entry a packet matches: of those that match, one with the longest mbr prefix. */
  function Matched(table: seq<Entry>, k: Key): Option<Entry>
  {
    if table == [] then None else Better(Matched(table[..|table| - 1], k), table[|table| - 1], k)
  }

  /** The longest match does match, and nothing matching is longer. */
  lemma {:induction false} MatchedIsLongest(table: seq<Entry>, k: Key)
    ensures Matched(table, k).Some? ==> Matched(table, k).value in table && Hits(Matched(table, k).value, k)
    ensures forall e | e in table && Hits(e, k) :: Matched(table, k).Some? && e.mbrPrefix <= Matched(table, k).value.mbrPrefix
    decreases |table|
  {
    if table != [] {
      var n := |table| - 1;
      MatchedIsLongest(table[..n], k);
      assert table == table[..n] + [table[n]];
    }
  }

  lemma MatchedNext(table: seq<Entry>, e: Entry, k: Key)
    ensures Matched(table + [e], k) == Better(Matched(table, k), e, k)
  {
    assert (table + [e])[..|table|] == table;
  }

  lemma MatchedThree(a: Entry, b: Entry, c: Entry, k: Key)
    ensures Matched([a, b], k) == Better(Better(None, a, k), b, k)
    ensures Matched([a, b, c], k) == Better(Better(Better(None, a, k), b, k), c, k)
  {
    MatchedNext([], a, k);
    MatchedNext([a], b, k);
    MatchedNext([a, b], c, k);
    assert [] + [a] == [a] && [a] + [b] == [a, b] && [a, b] + [c] == [a, b, c];
  }

  function ActionOf(entry: Option<Entry>): Option<Action>
  {
    if entry.None? then None else Some(entry.value.action)
  }

  /** Looking a packet up in the entries of an instruction gives the outcome its condition asks for. */
  lemma EntriesDecide(owner: Fid, act: Act, lo: nat, hi: nat, k: Key)
    requires k.opcode == act.opcode && k.fid <= 0xFF && k.mar <= REG_MAX && (act.memory ==> k.fid == owner)
    requires act.opcode == 0 ==> act.condition.None?
    ensures ActionOf(Matched(EntriesFor(owner, act, lo, hi), k))
            == Outcome(act.condition, act.opcode == 0, lo, hi, k.complete, k.disabled, k.mbr, k.mar)
  {
    var entries := EntriesFor(owner, act, lo, hi);
    if |entries| == 2 {
      assert entries == [entries[0], entries[1]];
      MatchedThree(entries[0], entries[1], entries[1], k);
    } else {
      assert entries == [entries[0], entries[1], entries[2]];
      MatchedThree(entries[0], entries[1], entries[2], k);
    }
  }

  /** The entries installed for an instruction: for the program's own range, or for everybody. */
  function Installed(op: Op, fid: Fid, range: Option<(nat, nat)>): seq<Entry>
  {
    if IsMemoryOp(op) then
      if range.None? then [] else EntriesFor(fid, ActOf(op), range.value.0, range.value.1)
    else if ActOf(op).runnable then EntriesFor(0, ActOf(op), 0, REG_MAX)
    else []
  }

  lemma OpcodeZero(op: Op)
    ensures Opcode(op) == 0 <==> op == EOF
    ensures Opcode(op) == 0 ==> ConditionOf(op).None?
  {
  }

  function KeyOf(fid: Fid, op: Op, phv: Phv): Key
  {
    Key(fid, Opcode(op), phv.complete, phv.disabled, phv.mbr, phv.mar % MAR_MASK)
  }

  lemma MemoryDecides(op: Op, fid: Fid, range: Option<(nat, nat)>, phv: Phv)
    requires fid <= 0xFF && IsMemoryOp(op) && range.Some?
    ensures ActionOf(Matched(Installed(op, fid, range), KeyOf(fid, op, phv))) == Decide(op, range, phv)
  {
    hide EntriesFor, Outcome, Matched, Opcode, ConditionOf;
    OpcodeZero(op);
    EntriesDecide(fid, ActOf(op), range.value.0, range.value.1, KeyOf(fid, op, phv));
  }

  lemma SharedDecides(op: Op, fid: Fid, range: Option<(nat, nat)>, phv: Phv)
    requires fid <= 0xFF && !IsMemoryOp(op) && !IsVirtualOp(op)
    ensures ActionOf(Matched(Installed(op, fid, range), KeyOf(fid, op, phv))) == Decide(op, range, phv)
  {
    hide EntriesFor, Outcome, Matched, Opcode, ConditionOf;
    OpcodeZero(op);
    EntriesDecide(0, ActOf(op), 0, REG_MAX, KeyOf(fid, op, phv));
  }

  /** Looking a packet up in the entries installed for its instruction is what the machine decides. */
  lemma LookupDecides(op: Op, fid: Fid, range: Option<(nat, nat)>, phv: Phv)
    requires fid <= 0xFF
    ensures ActionOf(Matched(Installed(op, fid, range), KeyOf(fid, op, phv))) == Decide(op, range, phv)
  {
    if IsMemoryOp(op) && range.Some? {
      MemoryDecides(op, fid, range, phv);
    } else if !IsMemoryOp(op) && !IsVirtualOp(op) {
      SharedDecides(op, fid, range, phv);
    }
  }

  // ---- whole tables ---------------------------------------------------------------------

  ghost predicate NoHits(table: seq<Entry>, k: Key)
  {
    forall i | 0 <= i < |table| :: !Hits(table[i], k)
  }

  lemma {:induction false} NoHitsUnmatched(table: seq<Entry>, k: Key)
    requires NoHits(table, k)
    ensures Matched(table, k).None?
    decreases |table|
  {
    if table != [] {
      NoHitsUnmatched(table[..|table| - 1], k);
    }
  }

  lemma {:induction false} MatchedLeft(a: seq<Entry>, b: seq<Entry>, k: Key)
    requires NoHits(b, k)
    ensures Matched(a + b, k) == Matched(a, k)
    decreases |b|
  {
    if b == [] {
      assert a + b == a;
    } else {
      var n := |b| - 1;
      MatchedLeft(a, b[..n], k);
      MatchedNext(a + b[..n], b[n], k);
      assert a + b == (a + b[..n]) + [b[n]];
    }
  }

  lemma {:induction false} MatchedRight(a: seq<Entry>, b: seq<Entry>, k: Key)
    requires NoHits(a, k)
    ensures Matched(a + b, k) == Matched(b, k)
    decreases |b|
  {
    if b == [] {
      assert a + b == a;
      NoHitsUnmatched(a, k);
    } else {
      var n := |b| - 1;
      MatchedRight(a, b[..n], k);
      MatchedNext(a + b[..n], b[n], k);
      assert a + b == (a + b[..n]) + [b[n]];
    }
  }

  /** A packet with a memory instruction matches among its own program's memory entries. */
  lemma {:induction false} MemoryMatched(acts: seq<Act>, table: seq<Entry>, k: Key)
    requires IsMemory(acts, k.opcode)
    ensures Matched(AccessEntries(acts, table, k.fid), k) == Matched(table, k)
    decreases |table|
  {
    if table != [] {
      var n := |table| - 1;
      MemoryMatched(acts, table[..n], k);
      if IsAccess(acts, table[n], k.fid) {
        MatchedNext(AccessEntries(acts, table[..n], k.fid), table[n], k);
      } else {
        assert !Hits(table[n], k);
        assert AccessEntries(acts, table[..n], k.fid) + [] == AccessEntries(acts, table[..n], k.fid);
      }
    }
  }

  /** A packet with any other instruction matches among the entries that need no memory. */
  lemma {:induction false} SharedMatched(acts: seq<Act>, table: seq<Entry>, k: Key)
    requires !IsMemory(acts, k.opcode)
    ensures Matched(NonMemory(acts, table), k) == Matched(table, k)
    decreases |table|
  {
    if table != [] {
      var n := |table| - 1;
      SharedMatched(acts, table[..n], k);
      if IsMemory(acts, table[n].opcode) {
        assert !Hits(table[n], k);
        assert NonMemory(acts, table[..n]) + [] == NonMemory(acts, table[..n]);
      } else {
        MatchedNext(NonMemory(acts, table[..n]), table[n], k);
      }
    }
  }

  lemma OtherOpcode(owner: Fid, act: Act, lo: nat, hi: nat, k: Key)
    requires k.opcode != act.opcode
    ensures NoHits(EntriesFor(owner, act, lo, hi), k)
  {
    EntriesForShape(owner, act, lo, hi);
  }

  /** Among the entries of all memory instructions, a packet matches those of its own. */
  lemma {:induction false} OwnMemoryMatched(acts: seq<Act>, n: nat, j: nat, owner: Fid, lo: nat, hi: nat, k: Key)
    requires DistinctOpcodes(acts) && n <= |acts| && j < |acts| && k.opcode == acts[j].opcode && acts[j].memory
    ensures var entries := RangeEntries(acts[..n], owner, lo, hi);
            if j < n then Matched(entries, k) == Matched(EntriesFor(owner, acts[j], lo, hi), k) else NoHits(entries, k)
    decreases n
  {
    hide EntriesFor, Hits;
    if n == 0 {
      assert acts[..0] == [];
    } else {
      var i := n - 1;
      OwnMemoryMatched(acts, i, j, owner, lo, hi, k);
      assert acts[..n][..i] == acts[..i];
      var before, entries := RangeEntries(acts[..i], owner, lo, hi), EntriesFor(owner, acts[i], lo, hi);
      if i == j {
        MatchedRight(before, entries, k);
      } else {
        OtherOpcode(owner, acts[i], lo, hi, k);
        MatchedLeft(before, entries, k);
        MatchedLeft(before, [], k);
      }
    }
  }

  /** Among the shared entries, a packet matches those of its own instruction, if there are any. */
  lemma {:induction false} OwnSharedMatched(acts: seq<Act>, n: nat, j: nat, k: Key)
    requires DistinctOpcodes(acts) && n <= |acts| && j < |acts| && k.opcode == acts[j].opcode && !acts[j].memory
    ensures var entries := SharedEntries(acts[..n]);
            if j < n && acts[j].runnable then Matched(entries, k) == Matched(EntriesFor(0, acts[j], 0, REG_MAX), k)
            else NoHits(entries, k)
    decreases n
  {
    hide EntriesFor, Hits;
    if n == 0 {
      assert acts[..0] == [];
    } else {
      var i := n - 1;
      OwnSharedMatched(acts, i, j, k);
      assert acts[..n][..i] == acts[..i];
      var before, entries := SharedEntries(acts[..i]), EntriesFor(0, acts[i], 0, REG_MAX);
      if i == j {
        MatchedRight(before, entries, k);
      } else {
        OtherOpcode(0, acts[i], 0, REG_MAX, k);
        MatchedLeft(before, entries, k);
        MatchedLeft(before, [], k);
      }
    }
  }

  /** The opcode map lists every instruction of the machine. */
  ghost predicate OpcodeMap(acts: seq<Act>)
  {
    DistinctOpcodes(acts) && forall op: Op :: ListsOp(acts, op)
  }

  ghost predicate ListsOp(acts: seq<Act>, op: Op)
  {
    exists j :: 0 <= j < |acts| && acts[j] == ActOf(op)
  }

  /** The range of a program on a stage. */
  function RangeOn(blockSize: nat, ranges: map<Fid, Range>, f: Fid): Option<(nat, nat)>
    requires 0 < blockSize
  {
    if f in ranges then Some(MemoryRange(blockSize, ranges[f])) else None
  }

  lemma TableMatchedMemory(acts: seq<Act>, blockSize: nat, table: seq<Entry>, ranges: map<Fid, Range>, f: Fid, op: Op, k: Key)
    requires 0 < blockSize && StageTableOk(acts, blockSize, table, ranges) && OpcodeMap(acts)
    requires k.fid == f && k.opcode == Opcode(op) && IsMemoryOp(op)
    ensures Matched(table, k) == Matched(Installed(op, f, RangeOn(blockSize, ranges, f)), k)
  {
    hide EntriesFor, Hits, Opcode, RangeEntries, SharedEntries, AccessEntries, Better;
    assert ListsOp(acts, op);
    var j :| 0 <= j < |acts| && acts[j] == ActOf(op);
    assert acts[..|acts|] == acts;
    assert IsMemory(acts, k.opcode) && InstalledAs(acts, blockSize, table, ranges, f);
    MemoryMatched(acts, table, k);
    if f in ranges {
      var (lo, hi) := MemoryRange(blockSize, ranges[f]);
      OwnMemoryMatched(acts, |acts|, j, f, lo, hi, k);
    }
  }

  lemma TableMatchedShared(acts: seq<Act>, blockSize: nat, table: seq<Entry>, ranges: map<Fid, Range>, f: Fid, op: Op, k: Key)
    requires 0 < blockSize && StageTableOk(acts, blockSize, table, ranges) && OpcodeMap(acts)
    requires k.fid == f && k.opcode == Opcode(op) && !IsMemoryOp(op)
    ensures Matched(table, k) == Matched(Installed(op, f, RangeOn(blockSize, ranges, f)), k)
  {
    hide EntriesFor, Hits, Opcode, RangeEntries, SharedEntries, AccessEntries, Better;
    assert ListsOp(acts, op);
    var j :| 0 <= j < |acts| && acts[j] == ActOf(op);
    assert acts[..|acts|] == acts;
    NotMemory(acts, j);
    SharedMatched(acts, table, k);
    OwnSharedMatched(acts, |acts|, j, k);
    if !acts[j].runnable {
      NoHitsUnmatched(SharedEntries(acts), k);
    }
  }

  /** A stage's table matches a packet as the entries installed for its instruction alone do. */
  lemma TableMatched(acts: seq<Act>, blockSize: nat, table: seq<Entry>, ranges: map<Fid, Range>, f: Fid, op: Op, k: Key)
    requires 0 < blockSize && StageTableOk(acts, blockSize, table, ranges) && OpcodeMap(acts)
    requires k.fid == f && k.opcode == Opcode(op)
    ensures Matched(table, k) == Matched(Installed(op, f, RangeOn(blockSize, ranges, f)), k)
  {
    if IsMemoryOp(op) {
      TableMatchedMemory(acts, blockSize, table, ranges, f, op, k);
    } else {
      TableMatchedShared(acts, blockSize, table, ranges, f, op, k);
    }
  }

  lemma NotMemory(acts: seq<Act>, j: nat)
    requires DistinctOpcodes(acts) && j < |acts| && !acts[j].memory
    ensures !IsMemory(acts, acts[j].opcode)
  {
    forall i | 0 <= i < |acts| && acts[i].memory ensures acts[i].opcode != acts[j].opcode {
      assert i != j;
    }
  }

  /** The tables are the machine: in a stage whose table is in order, looking a packet up gives the decision
      the machine takes with the range installed for its program. */
  lemma TableDecides(acts: seq<Act>, blockSize: nat, table: seq<Entry>, ranges: map<Fid, Range>, f: Fid, op: Op, phv: Phv)
    requires 0 < blockSize && StageTableOk(acts, blockSize, table, ranges) && OpcodeMap(acts) && f <= 0xFF
    ensures ActionOf(Matched(table, KeyOf(f, op, phv))) == Decide(op, RangeOn(blockSize, ranges, f), phv)
  {
    TableMatched(acts, blockSize, table, ranges, f, op, KeyOf(f, op, phv));
    LookupDecides(op, f, RangeOn(blockSize, ranges, f), phv);
  }
}
