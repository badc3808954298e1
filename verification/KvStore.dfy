/** The key-value program on the switch: it answers exactly for the keys the client stored. */
module KvStore {
  import opened Dimensions
  import opened Wrappers
  import opened Aliases
  import opened Machine
  import opened Instructions
  import opened Mutants
  import opened Placements
  import opened Cache

  /** Looks up the upper word of the key, then the lower one, then the value; returns early when a word
      differs, and sends the packet back otherwise. */
  const KVSTORE: seq<Instr> :=
    [Instr(MAR_LOAD, false), Instr(MEM_READ, false), Instr(MBR_EQUALS_DATA_1, false), Instr(CRET, false),
     Instr(MEM_READ, false), Instr(MBR_EQUALS_DATA_2, false), Instr(CRET, false), Instr(RTS, false),
     Instr(MEM_READ, false), Instr(MBR_STORE, false), Instr(NOP, false), Instr(NOP, false), Instr(RETURN, false),
     Instr(EOF, false)]

  const KEY_0: nat := 1
  const KEY_1: nat := 4
  const VALUE: nat := 8

  /** A packet asking for a key: nothing has happened to it yet, and its result word is empty. */
  predicate Asks(phv: Phv, addr: nat, key0: nat, key1: nat)
  {
    && phv.data0 == addr && phv.data1 == key0 && phv.data2 == key1 && phv.data3 == 0
    && !phv.complete && !phv.disabled && phv.forwards == []
  }

  /** Where the packet may look. */
  predicate Setup(ranges: StageRanges, heaps: Heaps, addr: nat)
  {
    && |ranges| == |heaps| == STAGES && addr < MAR_MASK
    && InRange(ranges, KEY_0, addr) && InRange(ranges, KEY_1, addr) && InRange(ranges, VALUE, addr)
  }

  /** Cells read as before. */
  ghost predicate SameCells(heaps: Heaps, heaps': Heaps)
  {
    |heaps'| == |heaps| && forall i, addr: nat | 0 <= i < |heaps| :: Cell(heaps'[i], addr) == Cell(heaps[i], addr)
  }

  lemma SameCellsUpdate(heaps: Heaps, heaps': Heaps, i: nat, heap: Heap)
    requires SameCells(heaps, heaps') && i < |heaps|
    requires forall addr: nat :: Cell(heap, addr) == Cell(heaps'[i], addr)
    ensures SameCells(heaps, heaps'[i := heap])
  {
  }

  // ---- the instructions of the program --------------------------------------------------

  lemma Reads(env: Env, ranges: StageRanges, stage: nat, phv: Phv, heap: Heap)
    requires Running(phv) && InRange(ranges, stage, phv.mar) && phv.mar < MAR_MASK
    ensures Apply(env, stage, ranges[stage], Instr(MEM_READ, false), phv, heap)
            == (phv.(mbr := Cell(heap, phv.mar)), Machine.Stored(heap, phv.mar, Cell(heap, phv.mar)))
  {
  }

  lemma ComparesData(env: Env, stage: nat, range: Option<(nat, nat)>, op: Op, phv: Phv, heap: Heap)
    requires Running(phv) && (op.MBR_EQUALS_DATA_1? || op.MBR_EQUALS_DATA_2?)
    ensures Apply(env, stage, range, Instr(op, false), phv, heap)
            == (phv.(mbr := Xor(phv.mbr, if op.MBR_EQUALS_DATA_1? then phv.data1 else phv.data2)), heap)
  {
  }

  lemma ReturnsUnlessZero(env: Env, stage: nat, range: Option<(nat, nat)>, phv: Phv, heap: Heap)
    requires Running(phv)
    ensures Apply(env, stage, range, Instr(CRET, false), phv, heap) ==
            (if phv.mbr == 0 then phv
             else Returned(stage, phv), heap)
  {
  }

  lemma SendsBack(env: Env, stage: nat, range: Option<(nat, nat)>, phv: Phv, heap: Heap)
    requires Running(phv)
    ensures Apply(env, stage, range, Instr(RTS, false), phv, heap)
            == (phv.(forwards := phv.forwards + [Forward(RTS, 0)]), heap)
    ensures Apply(env, stage, range, Instr(MBR_STORE, false), phv, heap) == (phv.(data3 := phv.mbr), heap)
  {
  }

  lemma StaysOrReturns(env: Env, stage: nat, range: Option<(nat, nat)>, phv: Phv, heap: Heap)
    requires Running(phv)
    ensures Apply(env, stage, range, Instr(NOP, false), phv, heap) == (phv, heap)
    ensures Apply(env, stage, range, Instr(RETURN, false), phv, heap)
            == (Returned(stage, phv), heap)
  {
  }

  /** Reading a word of the key and comparing it: the packet goes on if it is the same, and returns if it is
      not. */
  ghost predicate Compared(phv: Phv, r: (Phv, Heaps), heaps: Heaps, word: nat, key: nat)
  {
    && SameCells(heaps, r.1) && r.0.mar == phv.mar && !r.0.disabled
    && r.0.data0 == phv.data0 && r.0.data1 == phv.data1 && r.0.data2 == phv.data2 && r.0.data3 == phv.data3
    && (r.0.complete <==> word != key)
    && r.0.forwards == phv.forwards + if word == key then [] else [Forward(RETURN, 0)]
  }

  /** Three instructions at positions n to n + 2 read the cell at mar on stage n, compare it with a word of
      the key, and return if they differ. */
  lemma ComparesWord(env: Env, ranges: StageRanges, n: nat, phv0: Phv, heaps0: Heaps, phv: Phv, heaps: Heaps, key: nat)
    requires (n == KEY_0 && key == phv.data1) || (n == KEY_1 && key == phv.data2)
    requires |ranges| == |heaps0| == |heaps| == STAGES && Exec(env, ranges, KVSTORE, n, phv0, heaps0) == (phv, heaps)
    requires InRange(ranges, n, phv.mar) && phv.mar < MAR_MASK && !phv.complete && !phv.disabled
    ensures Compared(phv, Exec(env, ranges, KVSTORE, n + 3, phv0, heaps0), heaps, Cell(heaps[n], phv.mar), key)
  {
    hide Exec, Xor, Apply;
    var word := Cell(heaps[n], phv.mar);
    ExecNext(env, ranges, KVSTORE, n, phv0, heaps0, (phv, heaps));
    Reads(env, ranges, n, phv, heaps[n]);
    var heap := Machine.Stored(heaps[n], phv.mar, word);
    var phv1, heaps1 := phv.(mbr := word), heaps[n := heap];
    SameCellsUpdate(heaps, heaps, n, heap);
    ExecNext(env, ranges, KVSTORE, n + 1, phv0, heaps0, (phv1, heaps1));
    ComparesData(env, n + 1, ranges[n + 1], KVSTORE[n + 1].op, phv1, heaps1[n + 1]);
    var phv2 := phv1.(mbr := Xor(word, key));
    assert heaps1[n + 1 := heaps1[n + 1]] == heaps1 && heaps1[n + 2 := heaps1[n + 2]] == heaps1;
    XorZero(word, key);
    ExecNext(env, ranges, KVSTORE, n + 2, phv0, heaps0, (phv2, heaps1));
    ReturnsUnlessZero(env, n + 2, ranges[n + 2], phv2, heaps1[n + 2]);
  }

  /** With both words equal the packet is sent back with the value. */
  lemma ReturnsValue(env: Env, ranges: StageRanges, phv0: Phv, heaps0: Heaps, phv: Phv, heaps: Heaps)
    requires |ranges| == |heaps0| == |heaps| == STAGES && Exec(env, ranges, KVSTORE, 7, phv0, heaps0) == (phv, heaps)
    requires InRange(ranges, VALUE, phv.mar) && phv.mar < MAR_MASK && !phv.complete && !phv.disabled
    ensures var r := Exec(env, ranges, KVSTORE, 10, phv0, heaps0);
            && r.0.data3 == Cell(heaps[VALUE], phv.mar) && r.0.forwards == phv.forwards + [Forward(RTS, 0)]
            && !r.0.complete && !r.0.disabled
  {
    hide Exec, Apply;
    ExecNext(env, ranges, KVSTORE, 7, phv0, heaps0, (phv, heaps));
    SendsBack(env, 7, ranges[7], phv, heaps[7]);
    var phv1 := phv.(forwards := phv.forwards + [Forward(RTS, 0)]);
    assert heaps[7 := heaps[7]] == heaps;
    ExecNext(env, ranges, KVSTORE, 8, phv0, heaps0, (phv1, heaps));
    Reads(env, ranges, 8, phv1, heaps[8]);
    var word := Cell(heaps[VALUE], phv.mar);
    var phv2, heaps2 := phv1.(mbr := word), heaps[8 := Machine.Stored(heaps[8], phv.mar, word)];
    ExecNext(env, ranges, KVSTORE, 9, phv0, heaps0, (phv2, heaps2));
    SendsBack(env, 9, ranges[9], phv2, heaps2[9]);
  }

  /** The last instructions change neither the result nor where the packet goes, except for the return. */
  lemma Finishes(env: Env, ranges: StageRanges, phv0: Phv, heaps0: Heaps, phv: Phv, heaps: Heaps)
    requires |ranges| == |heaps0| == |heaps| == STAGES && Exec(env, ranges, KVSTORE, 10, phv0, heaps0) == (phv, heaps)
    requires !phv.complete && !phv.disabled
    ensures var r := Exec(env, ranges, KVSTORE, 14, phv0, heaps0);
            r.0.data3 == phv.data3 && r.0.forwards == phv.forwards + [Forward(RETURN, 0)]
  {
    hide Exec, Apply;
    ExecNext(env, ranges, KVSTORE, 10, phv0, heaps0, (phv, heaps));
    assert heaps[10 := heaps[10]] == heaps && heaps[11 := heaps[11]] == heaps && heaps[12 := heaps[12]] == heaps;
    StaysOrReturns(env, 10, ranges[10], phv, heaps[10]);
    ExecNext(env, ranges, KVSTORE, 11, phv0, heaps0, (phv, heaps));
    StaysOrReturns(env, 11, ranges[11], phv, heaps[11]);
    ExecNext(env, ranges, KVSTORE, 12, phv0, heaps0, (phv, heaps));
    StaysOrReturns(env, 12, ranges[12], phv, heaps[12]);
    var phv1 := Returned(12, phv);
    ExecNext(env, ranges, KVSTORE, 13, phv0, heaps0, (phv1, heaps));
    CompletedApply(env, 13, ranges[13], KVSTORE[13], phv1, heaps[13]);
  }

  /** The result of the program for a key. */
  ghost predicate Answers(env: Env, ranges: StageRanges, phv: Phv, heaps: Heaps, value: nat, hit: bool)
    requires |ranges| == |heaps| == STAGES
  {
    var r := Exec(env, ranges, KVSTORE, |KVSTORE|, phv, heaps);
    && r.0.data3 == (if hit then value else 0)
    && r.0.forwards == (if hit then [Forward(RTS, 0)] else []) + [Forward(RETURN, 0)]
  }

  /** The program answers with the value, and sends the packet back, exactly if both words of the key are
      found at its address. */
  lemma KvStoreAnswers(env: Env, ranges: StageRanges, phv: Phv, heaps: Heaps, addr: nat, key0: nat, key1: nat)
    requires Setup(ranges, heaps, addr) && Asks(phv, addr, key0, key1)
    ensures Answers(env, ranges, phv, heaps, Cell(heaps[VALUE], addr),
                    Cell(heaps[KEY_0], addr) == key0 && Cell(heaps[KEY_1], addr) == key1)
  {
    hide Exec, Apply, Xor;
    var r0 := (phv, heaps);
    ExecStarts(env, ranges, phv, heaps, addr);
    var phv1 := phv.(mar := addr);
    ComparesWord(env, ranges, KEY_0, phv, heaps, phv1, heaps, key0);
    var r4 := Exec(env, ranges, KVSTORE, 4, phv, heaps);
    if Cell(heaps[KEY_0], addr) != key0 {
      CompletedRun(env, ranges, KVSTORE, phv, heaps, 4, 14);
    } else {
      ComparesWord(env, ranges, KEY_1, phv, heaps, r4.0, r4.1, key1);
      var r7 := Exec(env, ranges, KVSTORE, 7, phv, heaps);
      if Cell(heaps[KEY_1], addr) != key1 {
        CompletedRun(env, ranges, KVSTORE, phv, heaps, 7, 14);
      } else {
        ReturnsValue(env, ranges, phv, heaps, r7.0, r7.1);
        var r10 := Exec(env, ranges, KVSTORE, 10, phv, heaps);
        Finishes(env, ranges, phv, heaps, r10.0, r10.1);
      }
    }
  }

  lemma ExecStarts(env: Env, ranges: StageRanges, phv: Phv, heaps: Heaps, addr: nat)
    requires |ranges| == |heaps| == STAGES && addr < MAR_MASK && phv.data0 == addr && !phv.complete && !phv.disabled
    ensures Exec(env, ranges, KVSTORE, 1, phv, heaps) == (phv.(mar := addr), heaps)
  {
    ExecNext(env, ranges, KVSTORE, 0, phv, heaps, (phv, heaps));
    assert heaps[0 := heaps[0]] == heaps;
  }

  /** The image has been written to the program's three stages. */
  ghost predicate Loaded(heaps: Heaps, keys0: seq<nat>, keys1: seq<nat>, values: seq<nat>)
  {
    && |heaps| == STAGES && |keys0| == |keys1| == |values|
    && forall p: nat | p < |keys0| ::
         Cell(heaps[KEY_0], p) == keys0[p] && Cell(heaps[KEY_1], p) == keys1[p] && Cell(heaps[VALUE], p) == values[p]
  }

  /** The cache is right: asked for any key at the key's slot, the program answers with a value exactly if the
      client stored that key, that is, if it is the first of the requested items to map to the slot. */
  lemma CacheAnswersStored(env: Env, ranges: StageRanges, phv: Phv, heaps: Heaps, region: Region, items: seq<Item>,
                           keys0: seq<nat>, keys1: seq<nat>, values: seq<nat>, k: nat)
    requires 0 < region.size && Within(region) && |keys0| == Cache.MAX_DATA
    requires ImageOf(region, items, |items|, keys0, keys1, values) && Loaded(heaps, keys0, keys1, values)
    requires k < HALF * HALF && forall i | 0 <= i < |items| :: items[i].key < HALF * HALF
    requires Setup(ranges, heaps, Slot(region, k)) && Asks(phv, Slot(region, k), Upper(k), Lower(k))
    ensures Exec(env, ranges, KVSTORE, |KVSTORE|, phv, heaps).0.data3 != 0 <==> Cache.Stored(region, items, k)
  {
    hide Exec, Wins, ImageOf;
    SlotTellsStored(region, items, keys0, keys1, values, k);
    KvStoreAnswers(env, ranges, phv, heaps, Slot(region, k), Upper(k), Lower(k));
  }

  // ---- the mutant that is really sent ---------------------------------------------------

  const ACCESSES: seq<nat> := [KEY_0, KEY_1, VALUE]

  lemma KvStoreAccesses()
    ensures AccessesOf(KVSTORE, ACCESSES)
    ensures forall i | 0 <= i < |KVSTORE| :: StageFree(KVSTORE[i].op)
  {
    forall i: nat ensures i in ACCESSES <==> i < |KVSTORE| && IsMemoryOp(KVSTORE[i].op) {
      assert i in ACCESSES <==> i == 1 || i == 4 || i == 8;
    }
  }

  /** The image has been written to the stages the placement gives the program, and may be read there. */
  ghost predicate LoadedAt(ranges: StageRanges, heaps: Heaps, b: seq<nat>, keys0: seq<nat>, keys1: seq<nat>, values: seq<nat>, addr: nat)
  {
    && |ranges| == |heaps| == STAGES && |b| == 3 && addr < MAR_MASK && |keys0| == |keys1| == |values|
    && (forall k | 0 <= k < 3 :: b[k] < STAGES && InRange(ranges, b[k], addr))
    && forall p: nat | p < |keys0| ::
         Cell(heaps[b[0]], p) == keys0[p] && Cell(heaps[b[1]], p) == keys1[p] && Cell(heaps[b[2]], p) == values[p]
  }

  /** What the stages of the placement hold, moved to the stages of the program itself. */
  ghost function MovedBack<T>(xs: seq<T>, b: seq<nat>): (ys: seq<T>)
    requires |xs| == STAGES && |b| == 3 && forall k | 0 <= k < 3 :: b[k] < |xs|
    ensures Renamed(ys, xs, Stages(ACCESSES), b)
    ensures ys[KEY_0] == xs[b[0]] && ys[KEY_1] == xs[b[1]] && ys[VALUE] == xs[b[2]]
  {
    var ys := xs[KEY_0 := xs[b[0]]][KEY_1 := xs[b[1]]][VALUE := xs[b[2]]];
    assert forall k | 0 <= k < 3 :: RenamedAt(ys, xs, Stages(ACCESSES), b, k);
    ys
  }

  /** The cache is right wherever it was allocated: any mutant of the program that keeps its accesses apart,
      run on the stages that hold the image, answers with a value exactly for the stored keys. */
  lemma MutantAnswersStored(env: Env, s: seq<nat>, m: seq<Instr>, ranges: StageRanges, phv: Phv, heaps: Heaps, region: Region,
                            items: seq<Item>, keys0: seq<nat>, keys1: seq<nat>, values: seq<nat>, k: nat)
    requires ShiftsOk(ACCESSES, s) && IsMutant(KVSTORE, ACCESSES, s, m)
    requires SameAliases(Stages(ACCESSES), Stages(Plus(ACCESSES, s)))
    requires 0 < region.size && Within(region) && |keys0| == Cache.MAX_DATA
    requires ImageOf(region, items, |items|, keys0, keys1, values)
    requires k < HALF * HALF && forall i | 0 <= i < |items| :: items[i].key < HALF * HALF
    requires LoadedAt(ranges, heaps, Stages(Plus(ACCESSES, s)), keys0, keys1, values, Slot(region, k))
    requires Asks(phv, Slot(region, k), Upper(k), Lower(k))
    ensures Exec(env, ranges, m, |m|, phv, heaps).0.data3 != 0 <==> Cache.Stored(region, items, k)
  {
    hide Exec, IsMutant, ImageOf, Asks, Renamed, SameAliases, MovedBack, Wins, StageFree;
    var b := Stages(Plus(ACCESSES, s));
    var own, ownRanges := MovedBack(heaps, b), MovedBack(ranges, b);
    RenamedLengths(own, heaps, Stages(ACCESSES), b);
    RenamedLengths(ownRanges, ranges, Stages(ACCESSES), b);
    KvStoreAccesses();
    assert forall i | 0 <= i < |KVSTORE| :: Movable(KVSTORE, ACCESSES, s, i);
    MutantMeansProgram(env, KVSTORE, ACCESSES, s, m, ownRanges, ranges, phv, own, heaps);
    CacheAnswersStored(env, ownRanges, phv, own, region, items, keys0, keys1, values, k);
  }
}
