/** What instruction tables do with a packet. */
module TableActions {
  const REG_MAX: nat := 0xFFFFF

  /** What a hit does: run the instruction, skip it, or try to rejoin after a jump. */
  datatype Action = Execute | Skip | Rejoin
}

/** The match entries of the switch's instruction tables: what the controller installs for a program's
    memory range, and which accesses the switch then performs. */
module SwitchTables {
  import opened Dimensions
  import opened Wrappers
  import opened TableActions
  import opened Columns
  import opened Isolation
  import opened AllocatorModel

  const MEMSIZE: nat := 94208
  /** One match entry. Matching on mbr is by prefix: length 32 matches mbr only, length 0 anything. */
  datatype Entry = Entry(fidStart: nat, fidEnd: nat, opcode: nat, complete: bool, disabled: bool,
                         mbr: nat, mbrPrefix: nat, marStart: nat, marEnd: nat, action: Action)

  /** An instruction of the opcode map. `condition` is the mbr test of a conditional instruction: true
      runs it when mbr is not zero, false when it is. Only runnable instructions are installed at
      start-up for everybody: those with an action that are not virtual-address instructions. */
  datatype Act = Act(opcode: nat, condition: Option<bool>, memory: bool, runnable: bool)

  /** The entries installed for one instruction. */
  function EntriesFor(fid: Fid, act: Act, memStart: nat, memEnd: nat): seq<Entry>
  {
    var lo, hi := if act.memory then fid else 0, if act.memory then fid else 0xFF;
    var run := (prefix: nat, complete: bool) =>
      Entry(lo, hi, act.opcode, complete, false, 0, prefix, memStart, memEnd, Execute);
    var skip := (prefix: nat) => Entry(lo, hi, act.opcode, false, false, 0, prefix, memStart, REG_MAX, Skip);
    (match act.condition
     case Some(true) => [skip(32), run(0, false)]
     case Some(false) => [run(32, false), skip(0)]
     case None => (if act.opcode == 0 then [run(0, true)] else []) + [run(0, false)])
    + [Entry(lo, hi, act.opcode, false, true, 0, 0, memStart, REG_MAX, Rejoin)]
  }

  /** Does a packet's instruction match the entry? */
  predicate Matches(e: Entry, fid: Fid, opcode: nat, complete: bool, disabled: bool, mbr: nat, mar: nat)
  {
    && e.fidStart <= fid <= e.fidEnd && e.opcode == opcode && e.complete == complete && e.disabled == disabled
    && (e.mbrPrefix == 32 ==> mbr == e.mbr)
    && e.marStart <= mar <= e.marEnd
  }

  /** The address range of the blocks first .. last. */
  function MemoryRange(blockSize: nat, b: Range): (r: (nat, nat))
    requires 0 < blockSize
    ensures r.0 == blockSize * b.first && r.1 == blockSize * b.last + blockSize - 1
  {
    (blockSize * b.first, blockSize * (b.last + 1) - 1)
  }

  /** The entries of all memory instructions for a program's range. */
  function RangeEntries(acts: seq<Act>, fid: Fid, memStart: nat, memEnd: nat): seq<Entry>
  {
    if acts == [] then [] else
      var last := acts[|acts| - 1];
      RangeEntries(acts[..|acts| - 1], fid, memStart, memEnd)
      + if last.memory then EntriesFor(fid, last, memStart, memEnd) else []
  }

  predicate IsMemory(acts: seq<Act>, opcode: nat)
  {
    exists k :: 0 <= k < |acts| && acts[k].memory && acts[k].opcode == opcode
  }

  /** The entry lets program f use a memory instruction. */
  predicate IsAccess(acts: seq<Act>, e: Entry, f: Fid)
  {
    IsMemory(acts, e.opcode) && e.fidStart <= f <= e.fidEnd
  }

  /** The memory entries of program f in a table, in order. */
  function AccessEntries(acts: seq<Act>, table: seq<Entry>, f: Fid): seq<Entry>
  {
    if table == [] then [] else
      var last := table[|table| - 1];
      AccessEntries(acts, table[..|table| - 1], f) + if IsAccess(acts, last, f) then [last] else []
  }

  /** The table without the memory entries of program f. */
  function WithoutAccess(acts: seq<Act>, table: seq<Entry>, f: Fid): seq<Entry>
  {
    if table == [] then [] else
      var last := table[|table| - 1];
      WithoutAccess(acts, table[..|table| - 1], f) + if IsAccess(acts, last, f) then [] else [last]
  }

  /** The entries of a table that need no memory, in order. */
  function NonMemory(acts: seq<Act>, table: seq<Entry>): seq<Entry>
  {
    if table == [] then [] else
      var last := table[|table| - 1];
      NonMemory(acts, table[..|table| - 1]) + if IsMemory(acts, last.opcode) then [] else [last]
  }

  // ---- filters --------------------------------------------------------------------------

  lemma {:induction false} AccessAppend(acts: seq<Act>, a: seq<Entry>, b: seq<Entry>, f: Fid)
    ensures AccessEntries(acts, a + b, f) == AccessEntries(acts, a, f) + AccessEntries(acts, b, f)
    decreases |b|
  {
    if b == [] {
      assert a + b == a;
    } else {
      var n := |b| - 1;
      assert (a + b)[..|a + b| - 1] == a + b[..n];
      AccessAppend(acts, a, b[..n], f);
    }
  }

  /** Memory entries carry a single FID. */
  ghost predicate SingleFids(acts: seq<Act>, table: seq<Entry>)
  {
    forall k | 0 <= k < |table| && IsMemory(acts, table[k].opcode) :: table[k].fidStart == table[k].fidEnd
  }

  lemma {:induction false} WithoutAccessEntries(acts: seq<Act>, table: seq<Entry>, f: Fid, g: Fid)
    requires SingleFids(acts, table)
    ensures AccessEntries(acts, WithoutAccess(acts, table, f), g) == if g == f then [] else AccessEntries(acts, table, g)
    decreases |table|
  {
    if table != [] {
      var n := |table| - 1;
      var front, last := table[..n], table[n];
      WithoutAccessEntries(acts, front, f, g);
      AccessAppend(acts, WithoutAccess(acts, front, f), [last], g);
      AccessOfOne(acts, last, g);
      assert WithoutAccess(acts, front, f) + [] == WithoutAccess(acts, front, f);
      assert table[n] == last;
    }
  }

  lemma AccessOfOne(acts: seq<Act>, e: Entry, f: Fid)
    ensures AccessEntries(acts, [e], f) == if IsAccess(acts, e, f) then [e] else []
  {
    assert [e][..0] == [];
  }

  lemma {:induction false} WithoutAccessSingle(acts: seq<Act>, table: seq<Entry>, f: Fid)
    requires SingleFids(acts, table)
    ensures SingleFids(acts, WithoutAccess(acts, table, f))
    decreases |table|
  {
    if table != [] {
      WithoutAccessSingle(acts, table[..|table| - 1], f);
    }
  }

  lemma {:induction false} NonMemoryAppend(acts: seq<Act>, a: seq<Entry>, b: seq<Entry>)
    ensures NonMemory(acts, a + b) == NonMemory(acts, a) + NonMemory(acts, b)
    decreases |b|
  {
    if b == [] {
      assert a + b == a;
    } else {
      var n := |b| - 1;
      assert (a + b)[..|a + b| - 1] == a + b[..n];
      NonMemoryAppend(acts, a, b[..n]);
    }
  }

  lemma {:induction false} WithoutAccessNonMemory(acts: seq<Act>, table: seq<Entry>, f: Fid)
    ensures NonMemory(acts, WithoutAccess(acts, table, f)) == NonMemory(acts, table)
    decreases |table|
  {
    if table != [] {
      var n := |table| - 1;
      WithoutAccessNonMemory(acts, table[..n], f);
      NonMemoryAppend(acts, WithoutAccess(acts, table[..n], f), [table[n]]);
      assert [table[n]][..0] == [];
      assert WithoutAccess(acts, table[..n], f) + [] == WithoutAccess(acts, table[..n], f);
    }
  }

  lemma {:induction false} AllNonMemory(acts: seq<Act>, table: seq<Entry>, memory: bool)
    requires forall k | 0 <= k < |table| :: IsMemory(acts, table[k].opcode) == memory
    ensures NonMemory(acts, table) == if memory then [] else table
    decreases |table|
  {
    if table != [] {
      AllNonMemory(acts, table[..|table| - 1], memory);
    }
  }

  /** No two instructions share an opcode. */
  ghost predicate DistinctOpcodes(acts: seq<Act>)
  {
    forall i, j | 0 <= i < j < |acts| :: acts[i].opcode != acts[j].opcode
  }

  lemma EntriesForShape(fid: Fid, act: Act, memStart: nat, memEnd: nat)
    ensures forall k | 0 <= k < |EntriesFor(fid, act, memStart, memEnd)| ::
              var e := EntriesFor(fid, act, memStart, memEnd)[k];
              && e.opcode == act.opcode && e.marStart == memStart
              && (act.memory ==> e.fidStart == e.fidEnd == fid)
              && (e.action == Execute ==> e.marEnd == memEnd)
  {
  }

  /** The entries for a range all belong to the program, and those that run an instruction cover exactly
      the range. */
  ghost predicate ForRange(acts: seq<Act>, entries: seq<Entry>, fid: Fid, memStart: nat, memEnd: nat)
  {
    forall k | 0 <= k < |entries| :: RangeEntry(acts, entries[k], fid, memStart, memEnd)
  }

  ghost predicate RangeEntry(acts: seq<Act>, e: Entry, fid: Fid, memStart: nat, memEnd: nat)
  {
    && IsMemory(acts, e.opcode) && e.fidStart == e.fidEnd == fid
    && (e.action == Execute ==> e.marStart == memStart && e.marEnd == memEnd)
  }

  lemma {:induction false} RangeEntriesOk(acts: seq<Act>, n: nat, fid: Fid, memStart: nat, memEnd: nat)
    requires n <= |acts|
    ensures ForRange(acts, RangeEntries(acts[..n], fid, memStart, memEnd), fid, memStart, memEnd)
    decreases n
  {
    if n > 0 {
      var k := n - 1;
      RangeEntriesOk(acts, k, fid, memStart, memEnd);
      assert acts[..n][..k] == acts[..k];
      EntriesForShape(fid, acts[k], memStart, memEnd);
      if acts[k].memory {
        assert IsMemory(acts, acts[k].opcode);
      }
    }
  }

  lemma {:induction false} ForRangeAccess(acts: seq<Act>, entries: seq<Entry>, fid: Fid, memStart: nat, memEnd: nat, g: Fid)
    requires ForRange(acts, entries, fid, memStart, memEnd)
    ensures AccessEntries(acts, entries, g) == if g == fid then entries else []
    decreases |entries|
  {
    if entries != [] {
      var n := |entries| - 1;
      assert forall k | 0 <= k < n :: entries[..n][k] == entries[k];
      ForRangeAccess(acts, entries[..n], fid, memStart, memEnd, g);
      assert RangeEntry(acts, entries[n], fid, memStart, memEnd);
      assert entries == entries[..n] + [entries[n]];
    }
  }

  lemma {:induction false} InAccessEntries(acts: seq<Act>, table: seq<Entry>, f: Fid, e: Entry)
    requires e in table && IsAccess(acts, e, f)
    ensures e in AccessEntries(acts, table, f)
    decreases |table|
  {
    var n := |table| - 1;
    if table[n] != e {
      var k :| 0 <= k < |table| && table[k] == e;
      assert table[..n][k] == e;
      InAccessEntries(acts, table[..n], f, e);
    }
  }

  /** The entries everybody shares, for the instructions that need no memory. */
  function SharedEntries(acts: seq<Act>): seq<Entry>
  {
    if acts == [] then [] else
      var last := acts[|acts| - 1];
      SharedEntries(acts[..|acts| - 1])
      + if last.runnable && !last.memory then EntriesFor(0, last, 0, REG_MAX) else []
  }

  // ---- the tables and the installed ranges ----------------------------------------------

  /** The memory entries of program f on a stage are exactly those for its installed range, if it has
      one. */
  ghost predicate InstalledAs(acts: seq<Act>, blockSize: nat, table: seq<Entry>, ranges: map<Fid, Range>, f: Fid)
    requires 0 < blockSize
  {
    AccessEntries(acts, table, f) ==
      if f in ranges
      then RangeEntries(acts, f, MemoryRange(blockSize, ranges[f]).0, MemoryRange(blockSize, ranges[f]).1)
      else []
  }

  /** A stage's table holds the shared entries, and for every program the entries of its range. */
  ghost predicate StageTableOk(acts: seq<Act>, blockSize: nat, table: seq<Entry>, ranges: map<Fid, Range>)
    requires 0 < blockSize
  {
    && SingleFids(acts, table) && NonMemory(acts, table) == SharedEntries(acts)
    && forall f: Fid :: InstalledAs(acts, blockSize, table, ranges, f)
  }

  ghost predicate TablesOk(acts: seq<Act>, blockSize: nat, tables: seq<seq<Entry>>, ranges: Ranges)
    requires 0 < blockSize
  {
    |tables| == |ranges| == STAGES && forall i | 0 <= i < STAGES :: StageTableOk(acts, blockSize, tables[i], ranges[i])
  }

  // ---- changing the tables --------------------------------------------------------------

  /** Removing a program's memory entries from a stage removes its range. */
  lemma RemovedRange(acts: seq<Act>, blockSize: nat, table: seq<Entry>, ranges: map<Fid, Range>, f: Fid)
    requires 0 < blockSize && StageTableOk(acts, blockSize, table, ranges)
    ensures StageTableOk(acts, blockSize, WithoutAccess(acts, table, f), ranges - {f})
  {
    WithoutAccessSingle(acts, table, f);
    WithoutAccessNonMemory(acts, table, f);
    forall g: Fid ensures InstalledAs(acts, blockSize, WithoutAccess(acts, table, f), ranges - {f}, g) {
      WithoutAccessEntries(acts, table, f, g);
      assert InstalledAs(acts, blockSize, table, ranges, g);
    }
  }

  /** Installing a program's memory entries on a stage that has none of it installs its range. */
  lemma InstalledRange(acts: seq<Act>, blockSize: nat, table: seq<Entry>, ranges: map<Fid, Range>, f: Fid, b: Range)
    requires 0 < blockSize && StageTableOk(acts, blockSize, table, ranges) && f !in ranges
    ensures var (lo, hi) := MemoryRange(blockSize, b);
            StageTableOk(acts, blockSize, table + RangeEntries(acts, f, lo, hi), ranges[f := b])
  {
    var (lo, hi) := MemoryRange(blockSize, b);
    var entries := RangeEntries(acts, f, lo, hi);
    assert acts[..|acts|] == acts;
    RangeEntriesOk(acts, |acts|, f, lo, hi);
    InstalledSingle(acts, table, entries, f, lo, hi);
    NonMemoryAppend(acts, table, entries);
    forall k | 0 <= k < |entries| ensures IsMemory(acts, entries[k].opcode) {
      assert RangeEntry(acts, entries[k], f, lo, hi);
    }
    AllNonMemory(acts, entries, true);
    var table', ranges' := table + entries, ranges[f := b];
    forall g: Fid ensures InstalledAs(acts, blockSize, table', ranges', g) {
      AccessAppend(acts, table, entries, g);
      ForRangeAccess(acts, entries, f, lo, hi, g);
      assert InstalledAs(acts, blockSize, table, ranges, g);
    }
  }

  lemma InstalledSingle(acts: seq<Act>, table: seq<Entry>, entries: seq<Entry>, f: Fid, lo: nat, hi: nat)
    requires SingleFids(acts, table) && ForRange(acts, entries, f, lo, hi)
    ensures SingleFids(acts, table + entries)
  {
    forall k | 0 <= k < |table + entries| && IsMemory(acts, (table + entries)[k].opcode)
      ensures (table + entries)[k].fidStart == (table + entries)[k].fidEnd
    {
      if k >= |table| {
        var j := k - |table|;
        assert RangeEntry(acts, entries[j], f, lo, hi);
      }
    }
  }

  // ---- the tables at start-up -----------------------------------------------------------

  lemma {:induction false} SharedNoMemory(acts: seq<Act>, n: nat)
    requires DistinctOpcodes(acts) && n <= |acts|
    ensures forall k | 0 <= k < |SharedEntries(acts[..n])| :: !IsMemory(acts, SharedEntries(acts[..n])[k].opcode)
    decreases n
  {
    if n > 0 {
      var k := n - 1;
      SharedNoMemory(acts, k);
      assert acts[..n][..k] == acts[..k];
      EntriesForShape(0, acts[k], 0, REG_MAX);
    }
  }

  lemma {:induction false} NoAccess(acts: seq<Act>, table: seq<Entry>, f: Fid)
    requires forall k | 0 <= k < |table| :: !IsMemory(acts, table[k].opcode)
    ensures AccessEntries(acts, table, f) == []
    decreases |table|
  {
    if table != [] {
      NoAccess(acts, table[..|table| - 1], f);
    }
  }

  /** At start-up nobody can use memory. */
  lemma StartupOk(acts: seq<Act>, blockSize: nat)
    requires 0 < blockSize && DistinctOpcodes(acts)
    ensures StageTableOk(acts, blockSize, SharedEntries(acts), map[])
  {
    SharedNoMemory(acts, |acts|);
    assert acts[..|acts|] == acts;
    AllNonMemory(acts, SharedEntries(acts), false);
    forall f: Fid ensures InstalledAs(acts, blockSize, SharedEntries(acts), map[], f) {
      NoAccess(acts, SharedEntries(acts), f);
    }
  }

  // ---- who reaches which address --------------------------------------------------------

  /** The switch runs a memory instruction of program f at an address of stage i. */
  ghost predicate Performs(acts: seq<Act>, tables: seq<seq<Entry>>, i: nat, f: Fid, opcode: nat, mbr: nat, mar: nat)
  {
    && i < |tables| && IsMemory(acts, opcode)
    && exists e :: e in tables[i] && e.action == Execute && Matches(e, f, opcode, false, false, mbr, mar)
  }

  lemma PerformsInRange(acts: seq<Act>, blockSize: nat, tables: seq<seq<Entry>>, ranges: Ranges,
                        i: nat, f: Fid, opcode: nat, mbr: nat, mar: nat)
    requires 0 < blockSize && TablesOk(acts, blockSize, tables, ranges) && Performs(acts, tables, i, f, opcode, mbr, mar)
    ensures f in ranges[i]
    ensures MemoryRange(blockSize, ranges[i][f]).0 <= mar <= MemoryRange(blockSize, ranges[i][f]).1
  {
    var e :| e in tables[i] && e.action == Execute && Matches(e, f, opcode, false, false, mbr, mar);
    assert StageTableOk(acts, blockSize, tables[i], ranges[i]);
    assert InstalledAs(acts, blockSize, tables[i], ranges[i], f);
    InAccessEntries(acts, tables[i], f, e);
    var (lo, hi) := MemoryRange(blockSize, ranges[i][f]);
    RangeEntriesOk(acts, |acts|, f, lo, hi);
    assert acts[..|acts|] == acts;
    var entries := RangeEntries(acts, f, lo, hi);
    var k :| 0 <= k < |entries| && entries[k] == e;
    assert RangeEntry(acts, entries[k], f, lo, hi);
  }

  lemma BlockProducts(blockSize: nat, a: nat, b: nat)
    requires a < b
    ensures blockSize * a + blockSize <= blockSize * b
  {
    var c := b - a - 1;
    assert b == a + 1 + c;
    calc {
      blockSize * b;
      blockSize * (a + 1 + c);
      blockSize * a + blockSize + blockSize * c;
    }
    assert 0 <= blockSize * c;
  }

  /** Isolation on the switch: with isolated ranges installed and a block size that divides the memory,
      no address of a stage is ever accessed by two programs, and none outside the memory. */
  lemma NoSharedAddress(acts: seq<Act>, blockSize: nat, n: nat, tables: seq<seq<Entry>>, ranges: Ranges,
                        i: nat, f: Fid, g: Fid, opF: nat, opG: nat, mbrF: nat, mbrG: nat, mar: nat)
    requires 0 < blockSize && TablesOk(acts, blockSize, tables, ranges) && Isolated(n, ranges) && blockSize * n == MEMSIZE
    requires Performs(acts, tables, i, f, opF, mbrF, mar) && Performs(acts, tables, i, g, opG, mbrG, mar)
    ensures f == g && mar < MEMSIZE
  {
    PerformsInRange(acts, blockSize, tables, ranges, i, f, opF, mbrF, mar);
    PerformsInRange(acts, blockSize, tables, ranges, i, g, opG, mbrG, mar);
    var a, b := ranges[i][f], ranges[i][g];
    BlockProducts(blockSize, a.last, n);
    if f != g {
      if a.last < b.first {
        BlockProducts(blockSize, a.last, b.first);
      } else {
        BlockProducts(blockSize, b.last, a.first);
      }
      assert false;
    }
  }
}
