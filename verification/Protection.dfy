/** What isolation means for programs: no program, whatever it does, changes another program's memory. */
module Protection {
  import opened Dimensions
  import opened Columns
  import opened Wrappers
  import opened Aliases
  import opened AllocatorModel
  import opened Isolation
  import opened SwitchTables
  import opened Machine
  import opened Lookups
  import opened Controllers

  /** The addresses a program may use on each stage, under the installed ranges. */
  function RangesOf(blockSize: nat, installed: Ranges, f: Fid): (r: StageRanges)
    requires 0 < blockSize
    ensures |r| == |installed|
  {
    seq(|installed|, i requires 0 <= i < |installed| => RangeOn(blockSize, installed[i], f))
  }

  /** The address belongs to the program's range on the stage. */
  predicate Owns(blockSize: nat, installed: Ranges, f: Fid, i: nat, addr: nat)
    requires 0 < blockSize && i < |installed|
  {
    f in installed[i] && MemoryRange(blockSize, installed[i][f]).0 <= addr <= MemoryRange(blockSize, installed[i][f]).1
  }

  /** Isolated block ranges make disjoint address ranges. */
  lemma RangesDisjoint(blockSize: nat, n: nat, installed: Ranges, f: Fid, g: Fid, i: nat, addr: nat)
    requires 0 < blockSize && Isolated(n, installed) && i < |installed| && f != g
    requires Owns(blockSize, installed, f, i, addr)
    ensures !Owns(blockSize, installed, g, i, addr)
  {
    if g in installed[i] {
      var a, b := installed[i][f], installed[i][g];
      if a.last < b.first {
        BlockProducts(blockSize, a.last, b.first);
      } else {
        BlockProducts(blockSize, b.last, a.first);
      }
    }
  }

  /** Installed ranges lie within the memory, so that the tables tell their addresses apart. */
  lemma OwnedIsAddressed(blockSize: nat, n: nat, installed: Ranges, f: Fid, i: nat, addr: nat)
    requires 0 < blockSize && blockSize * n == MEMSIZE && Isolated(n, installed) && i < |installed|
    requires Owns(blockSize, installed, f, i, addr)
    ensures addr < MEMSIZE < MAR_MASK
  {
    BlockProducts(blockSize, installed[i][f].last, n);
  }

  lemma OutsideRange(blockSize: nat, installed: Ranges, f: Fid, i: nat, addr: nat)
    requires 0 < blockSize && i < |installed|
    ensures Owns(blockSize, installed, f, i, addr) <==>
              var range := RangesOf(blockSize, installed, f)[i]; range.Some? && range.value.0 <= addr <= range.value.1
  {
  }

  /** A run leaves every cell alone that lies outside the program's ranges. */
  lemma {:induction false} RunStaysInRange(env: Env, ranges: StageRanges, code: seq<Instr>, n: nat, phv: Phv, heaps: Heaps,
                                           i: nat, addr: nat)
    requires n <= |code| && |ranges| == |heaps| == STAGES && i < |heaps|
    requires addr < MAR_MASK && (ranges[i].None? || addr < ranges[i].value.0 || ranges[i].value.1 < addr)
    ensures Cell(Exec(env, ranges, code, n, phv, heaps).1[i], addr) == Cell(heaps[i], addr)
    decreases n
  {
    hide Apply;
    if n > 0 {
      RunStaysInRange(env, ranges, code, n - 1, phv, heaps, i, addr);
      var r, stage := Exec(env, ranges, code, n - 1, phv, heaps), StageAt(n - 1);
      if stage == i {
        OnlyOwnRange(env, stage, ranges[stage], code[n - 1], r.0, r.1[stage], addr);
      }
    }
  }

  /** The switch is the machine: in every state the controller can reach, looking a packet up in the table of
      any stage gives the decision the machine takes with the program's installed range. */
  lemma SwitchDecides(controller: Controller, i: nat, f: Fid, op: Op, phv: Phv)
    requires controller.Valid() && OpcodeMap(controller.acts) && i < STAGES && f <= 0xFF
    ensures i < |controller.instrTables| == |controller.installed|
    ensures ActionOf(Matched(controller.instrTables[i], KeyOf(f, op, phv)))
            == Decide(op, RangesOf(controller.blockSize, controller.installed, f)[i], phv)
  {
    hide Decide, Matched;
    assert StageTableOk(controller.acts, controller.blockSize, controller.instrTables[i], controller.installed[i]);
    TableDecides(controller.acts, controller.blockSize, controller.instrTables[i], controller.installed[i], f, op, phv);
  }

  /** Protection: in every state the controller can reach, running any program g with any packet changes
      no cell of another program f. */
  lemma ProgramsProtected(controller: Controller, env: Env, f: Fid, g: Fid, code: seq<Instr>, phv: Phv, heaps: Heaps, i: nat, addr: nat)
    requires controller.Valid() && f != g && |heaps| == STAGES && i < STAGES == |controller.installed|
    requires Owns(controller.blockSize, controller.installed, f, i, addr)
    ensures Cell(Exec(env, RangesOf(controller.blockSize, controller.installed, g), code, |code|, phv, heaps).1[i], addr)
            == Cell(heaps[i], addr)
  {
    hide Exec, RangesOf, Owns;
    controller.ProgramsIsolated();
    OwnedIsAddressed(controller.blockSize, controller.allocator.maxOccupancy, controller.installed, f, i, addr);
    OutsideRange(controller.blockSize, controller.installed, g, i, addr);
    RangesDisjoint(controller.blockSize, controller.allocator.maxOccupancy, controller.installed, f, g, i, addr);
    RunStaysInRange(env, RangesOf(controller.blockSize, controller.installed, g), code, |code|, phv, heaps, i, addr);
  }
}
