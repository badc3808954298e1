/** The heavy-hitter monitor on the switch: a count-min sketch of the requested keys, and per slot the key
    with the greatest count seen there. */
module HeavyHitter {
  import opened Dimensions
  import opened Wrappers
  import opened Aliases
  import opened TableActions
  import opened Machine
  import opened Words
  import opened Instructions

  function Plain(op: Op): Instr { Instr(op, false) }

  /** Counts the key in two rows, takes the lesser count, and stores key and count if the count exceeds the
      slot's threshold. Nothing is installed for instructions on virtual addresses. */
  const MONITOR: seq<Instr> :=
    [Plain(MBR_LOAD), Plain(MBR2_LOAD), Plain(COPY_HASHDATA_MBR), Plain(COPY_HASHDATA_MBR2), Plain(HASH),
     Plain(ADDR_MASK), Plain(ADDR_OFFSET), Plain(MEM_MINREADINC), Plain(COPY_MBR2_MBR), Plain(HASH),
     Plain(ADDR_MASK), Plain(ADDR_OFFSET), Plain(MEM_MINREADINC), Plain(COPY_MBR_MBR2), Plain(MAR_LOAD),
     Plain(MEM_READ), Plain(MIN), Plain(MBR_EQUALS_MBR2), Plain(CRETI), Plain(MBR_LOAD), Plain(MEM_WRITE),
     Plain(NOP), Plain(NOP), Plain(COPY_MBR_MBR2), Plain(MBR2_LOAD), Plain(MEM_WRITE), Plain(COPY_MBR_MBR2),
     Plain(MEM_WRITE), Plain(RETURN), Plain(EOF)]

  const ROW_0: nat := 7
  const ROW_1: nat := 12
  const THRESHOLD: nat := 15
  const KEY_0: nat := 10
  const KEY_1: nat := 17

  /** A request for a key, with the slot its count competes for. */
  datatype Query = Query(slot: nat, key0: nat, key1: nat)

  /** The addresses of a key in the two rows. */
  function HashOf(env: Env, stage: nat, q: Query): nat { env.hash(stage, [q.key0, q.key1, 0, 0, 0]) % 0x1_0000 }

  function Row0(env: Env, q: Query): nat { HashOf(env, 4, q) }

  function Row1(env: Env, q: Query): nat { HashOf(env, 9, q) }

  /** The program may use the cells of a request. */
  predicate Allowed(env: Env, ranges: StageRanges, q: Query)
  {
    && |ranges| == STAGES && q.slot < MAR_MASK && q.key0 < WORD && q.key1 < WORD
    && InRange(ranges, ROW_0, Row0(env, q)) && InRange(ranges, ROW_1, Row1(env, q))
    && InRange(ranges, THRESHOLD, q.slot) && InRange(ranges, KEY_0, q.slot) && InRange(ranges, KEY_1, q.slot)
  }

  /** A packet that carries the request and to which nothing has happened yet. */
  predicate Carries(phv: Phv, q: Query)
  {
    && phv.data0 == q.slot && phv.data1 == q.key0 && phv.data2 == q.key1 && phv.hashData == [0, 0, 0, 0, 0]
    && Running(phv)
  }

  // ---- what a request does --------------------------------------------------------------

  /** The estimate of the key's count: the lesser of its cells in the two rows, this request included. */
  function Estimate(env: Env, q: Query, heaps: Heaps): nat
    requires |heaps| == STAGES
  {
    Machine.Least(Add(Cell(heaps[ROW_0], Row0(env, q)), 1), Add(Cell(heaps[ROW_1], Row1(env, q)), 1))
  }

  /** The cell at an address of a stage after the request. */
  function CellAfter(env: Env, q: Query, heaps: Heaps, i: nat, addr: nat): nat
    requires |heaps| == STAGES && i < STAGES
  {
    var est, threshold := Estimate(env, q, heaps), Cell(heaps[THRESHOLD], q.slot);
    if i == ROW_0 && addr == Row0(env, q) then Add(Cell(heaps[ROW_0], addr), 1)
    else if i == ROW_1 && addr == Row1(env, q) then Add(Cell(heaps[ROW_1], addr), 1)
    else if addr == q.slot && est > threshold && i == THRESHOLD then est
    else if addr == q.slot && est > threshold && i == KEY_0 then q.key0
    else if addr == q.slot && est > threshold && i == KEY_1 then q.key1
    else Cell(heaps[i], addr)
  }

  ghost predicate Counted(env: Env, q: Query, heaps: Heaps, heaps': Heaps)
    requires |heaps| == STAGES
  {
    |heaps'| == STAGES && forall i, addr: nat | 0 <= i < STAGES :: Cell(heaps'[i], addr) == CellAfter(env, q, heaps, i, addr)
  }

  // ---- the program, piece by piece ------------------------------------------------------

  /** Instructions 0 to 3: the key's words become the words to hash. */
  lemma TakesKey(env: Env, ranges: StageRanges, phv: Phv, heaps: Heaps, q: Query)
    requires |ranges| == |heaps| == STAGES && Carries(phv, q)
    ensures At(env, ranges, MONITOR, phv, heaps, 4, phv.(mbr := q.key0, mbr2 := q.key1, hashData := [q.key0, q.key1, 0, 0, 0]), heaps)
  {
    hide At, Perform;
    var p1 := phv.(mbr := q.key0);
    var p2 := p1.(mbr2 := q.key1);
    var p3 := p2.(hashData := [q.key0, 0, 0, 0, 0]);
    Starts(env, ranges, MONITOR, phv, heaps);
    LoadEffects(env, 0, phv);
    Step(env, ranges, MONITOR, phv, heaps, 0, phv, heaps);
    LoadEffects(env, 1, p1);
    Step(env, ranges, MONITOR, phv, heaps, 1, p1, heaps);
    HashWordEffects(env, 2, p2);
    assert [0, 0, 0, 0, 0][0 := q.key0] == [q.key0, 0, 0, 0, 0];
    Step(env, ranges, MONITOR, phv, heaps, 2, p2, heaps);
    HashWordEffects(env, 3, p3);
    assert [q.key0, 0, 0, 0, 0][1 := q.key1] == [q.key0, q.key1, 0, 0, 0];
    Step(env, ranges, MONITOR, phv, heaps, 3, p3, heaps);
  }

  /** A hash at position n and the two instructions on virtual addresses behind it. */
  lemma HashesAt(env: Env, ranges: StageRanges, phv: Phv, heaps0: Heaps, n: nat, p: Phv, heaps: Heaps, q: Query)
    requires (n == 4 || n == 9) && At(env, ranges, MONITOR, phv, heaps0, n, p, heaps)
    requires Running(p) && p.hashData == [q.key0, q.key1, 0, 0, 0]
    ensures At(env, ranges, MONITOR, phv, heaps0, n + 3, p.(mar := HashOf(env, n, q)), heaps)
  {
    hide At, Perform;
    var p' := p.(mar := HashOf(env, n, q));
    HashEffects(env, n, p);
    Step(env, ranges, MONITOR, phv, heaps0, n, p, heaps);
    Miss(env, ranges, MONITOR, phv, heaps0, n + 1, p', heaps);
    Miss(env, ranges, MONITOR, phv, heaps0, n + 2, p', heaps);
  }

  /** The heaps with both rows counted up. */
  function Rows(env: Env, q: Query, heaps: Heaps): (heaps': Heaps)
    requires |heaps| == STAGES
    ensures |heaps'| == STAGES
  {
    var a, b := Row0(env, q), Row1(env, q);
    heaps[ROW_0 := Machine.Stored(heaps[ROW_0], a, Add(Cell(heaps[ROW_0], a), 1))]
         [ROW_1 := Machine.Stored(heaps[ROW_1], b, Add(Cell(heaps[ROW_1], b), 1))]
  }

  /** Instructions 4 to 8: the first row counts. */
  lemma CountsFirst(env: Env, ranges: StageRanges, phv: Phv, heaps: Heaps, q: Query, p: Phv) returns (p': Phv)
    requires At(env, ranges, MONITOR, phv, heaps, 4, p, heaps) && Allowed(env, ranges, q) && Running(p)
    requires p.hashData == [q.key0, q.key1, 0, 0, 0]
    ensures |heaps| == STAGES
    ensures var a := Row0(env, q);
            var c := Add(Cell(heaps[ROW_0], a), 1);
            && p' == p.(mar := a, mbr := c, mbr2 := c)
            && At(env, ranges, MONITOR, phv, heaps, 9, p', heaps[ROW_0 := Machine.Stored(heaps[ROW_0], a, c)])
  {
    hide At, Perform, Access, Add, Machine.Least;
    AtLengths(env, ranges, MONITOR, phv, heaps, 4, p, heaps);
    var a := Row0(env, q);
    HashesAt(env, ranges, phv, heaps, 4, p, heaps, q);
    var p7 := p.(mar := a);
    AccessEffects(p7, Cell(heaps[ROW_0], a));
    Touch(env, ranges, MONITOR, phv, heaps, 7, p7, heaps);
    var c := Add(Cell(heaps[ROW_0], a), 1);
    var p8, heaps8 := p7.(mbr := c, mbr2 := Machine.Least(p7.mbr2, c)), heaps[ROW_0 := Machine.Stored(heaps[ROW_0], a, c)];
    CopyEffects(env, 8, p8);
    Step(env, ranges, MONITOR, phv, heaps, 8, p8, heaps8);
    p' := p8.(mbr2 := c);
  }

  /** Instructions 9 to 13: the second row counts, and both registers get the lesser count. */
  lemma CountsSecond(env: Env, ranges: StageRanges, phv: Phv, heaps: Heaps, q: Query, p: Phv) returns (p': Phv)
    requires |heaps| == STAGES && Allowed(env, ranges, q) && Running(p) && p.hashData == [q.key0, q.key1, 0, 0, 0]
    requires var a := Row0(env, q);
             var c := Add(Cell(heaps[ROW_0], a), 1);
             p.mbr == c == p.mbr2 && At(env, ranges, MONITOR, phv, heaps, 9, p, heaps[ROW_0 := Machine.Stored(heaps[ROW_0], a, c)])
    ensures p' == p.(mar := Row1(env, q), mbr := Estimate(env, q, heaps), mbr2 := Estimate(env, q, heaps))
    ensures At(env, ranges, MONITOR, phv, heaps, 14, p', Rows(env, q, heaps))
  {
    hide At, Perform, Access, Add, Machine.Least;
    var b := Row1(env, q);
    var heaps9 := heaps[ROW_0 := Machine.Stored(heaps[ROW_0], Row0(env, q), p.mbr)];
    HashesAt(env, ranges, phv, heaps, 9, p, heaps9, q);
    var p12 := p.(mar := b);
    AccessEffects(p12, Cell(heaps[ROW_1], b));
    Touch(env, ranges, MONITOR, phv, heaps, 12, p12, heaps9);
    var c := Add(Cell(heaps[ROW_1], b), 1);
    var p13 := p12.(mbr := c, mbr2 := Machine.Least(p.mbr, c));
    CopyEffects(env, 13, p13);
    Step(env, ranges, MONITOR, phv, heaps, 13, p13, Rows(env, q, heaps));
    p' := p13.(mbr := p13.mbr2);
  }

  lemma SlotAllowed(env: Env, ranges: StageRanges, q: Query)
    requires Allowed(env, ranges, q)
    ensures q.slot < MAR_MASK && q.slot % MAR_MASK == q.slot
    ensures InRange(ranges, THRESHOLD, q.slot) && InRange(ranges, KEY_0, q.slot) && InRange(ranges, KEY_1, q.slot)
  {
  }

  /** Instructions 14 and 15 read the slot's threshold. */
  lemma ReadsThreshold(env: Env, ranges: StageRanges, phv: Phv, heaps0: Heaps, q: Query, p: Phv, heaps: Heaps)
    requires At(env, ranges, MONITOR, phv, heaps0, 14, p, heaps) && Allowed(env, ranges, q) && Running(p) && p.data0 == q.slot
    ensures |heaps| == STAGES
    ensures var t := Cell(heaps[THRESHOLD], q.slot);
            At(env, ranges, MONITOR, phv, heaps0, 16, p.(mar := q.slot, mbr := t),
               heaps[THRESHOLD := Machine.Stored(heaps[THRESHOLD], q.slot, t)])
  {
    hide At, Perform, Access, Allowed, InRange;
    SlotAllowed(env, ranges, q);
    AtLengths(env, ranges, MONITOR, phv, heaps0, 14, p, heaps);
    LoadEffects(env, 14, p);
    Step(env, ranges, MONITOR, phv, heaps0, 14, p, heaps);
    var p15 := p.(mar := q.slot);
    AccessEffects(p15, Cell(heaps[THRESHOLD], q.slot));
    Touch(env, ranges, MONITOR, phv, heaps0, 15, p15, heaps);
  }

  /** Instructions 16 and 17: mbr is zero exactly if the estimate does not exceed the threshold. */
  lemma ComparesThreshold(env: Env, ranges: StageRanges, phv: Phv, heaps0: Heaps, p: Phv, heaps: Heaps) returns (p': Phv)
    requires At(env, ranges, MONITOR, phv, heaps0, 16, p, heaps) && Running(p)
    ensures At(env, ranges, MONITOR, phv, heaps0, 18, p', heaps)
    ensures p' == p.(mbr := p'.mbr) && (p'.mbr == 0 <==> p.mbr2 <= p.mbr)
  {
    hide At, Perform, Xor;
    CompareEffects(env, 16, p);
    Step(env, ranges, MONITOR, phv, heaps0, 16, p, heaps);
    var p17 := p.(mbr := Machine.Least(p.mbr, p.mbr2));
    CompareEffects(env, 17, p17);
    Step(env, ranges, MONITOR, phv, heaps0, 17, p17, heaps);
    p' := p17.(mbr := Xor(p17.mbr, p.mbr2));
    XorZero(p17.mbr, p.mbr2);
    LeastGreatest(p.mbr, p.mbr2);
  }

  /** The estimate does not exceed the threshold: the packet returns. */
  lemma StaysBelow(env: Env, ranges: StageRanges, phv: Phv, heaps0: Heaps, p: Phv, heaps: Heaps)
    requires At(env, ranges, MONITOR, phv, heaps0, 18, p, heaps) && Running(p) && p.mbr == 0
    ensures Exec(env, ranges, MONITOR, |MONITOR|, phv, heaps0).1 == heaps
    ensures Exec(env, ranges, MONITOR, |MONITOR|, phv, heaps0).0.forwards == p.forwards + [Forward(RETURN, 0)]
  {
    hide Exec, Perform;
    ExecNext(env, ranges, MONITOR, 18, phv, heaps0, (p, heaps));
    RunsWhen(CRETI, ranges[18], p);
    ReturnEffects(env, 18, p);
    assert heaps[18 := heaps[18]] == heaps;
    RestCompleted(env, ranges, MONITOR, phv, heaps0, 19, Returned(18, p), heaps);
  }

  /** The estimate exceeds the threshold: instructions 18 to 22 store the key's first word. */
  lemma StoresFirst(env: Env, ranges: StageRanges, phv: Phv, heaps0: Heaps, q: Query, p: Phv, heaps: Heaps)
    requires At(env, ranges, MONITOR, phv, heaps0, 18, p, heaps) && Allowed(env, ranges, q) && Running(p) && p.mbr != 0
    requires p.mar == q.slot && p.data1 == q.key0
    ensures |heaps| == STAGES
    ensures At(env, ranges, MONITOR, phv, heaps0, 23, p.(mbr := q.key0), heaps[KEY_0 := Machine.Stored(heaps[KEY_0], q.slot, q.key0)])
  {
    hide At, Perform, Access, Allowed, InRange;
    SlotAllowed(env, ranges, q);
    AtLengths(env, ranges, MONITOR, phv, heaps0, 18, p, heaps);
    NotReturned(env, ranges, phv, heaps0, p, heaps);
    LoadEffects(env, 19, p);
    Step(env, ranges, MONITOR, phv, heaps0, 19, p, heaps);
    var p20 := p.(mbr := q.key0);
    AccessEffects(p20, Cell(heaps[KEY_0], q.slot));
    Touch(env, ranges, MONITOR, phv, heaps0, 20, p20, heaps);
    var heaps' := heaps[KEY_0 := Machine.Stored(heaps[KEY_0], q.slot, q.key0)];
    HashEffects(env, 11, p20);
    HashEffects(env, 12, p20);
    Step(env, ranges, MONITOR, phv, heaps0, 21, p20, heaps');
    Step(env, ranges, MONITOR, phv, heaps0, 22, p20, heaps');
  }

  lemma NotReturned(env: Env, ranges: StageRanges, phv: Phv, heaps0: Heaps, p: Phv, heaps: Heaps)
    requires At(env, ranges, MONITOR, phv, heaps0, 18, p, heaps) && Running(p) && p.mbr != 0
    ensures At(env, ranges, MONITOR, phv, heaps0, 19, p, heaps)
  {
    hide Exec, Perform;
    ExecNext(env, ranges, MONITOR, 18, phv, heaps0, (p, heaps));
    assert heaps[18 := heaps[18]] == heaps;
  }

  /** Instructions 23 to 25 store the estimate as the new threshold. */
  lemma StoresThreshold(env: Env, ranges: StageRanges, phv: Phv, heaps0: Heaps, q: Query, p: Phv, heaps: Heaps)
    requires At(env, ranges, MONITOR, phv, heaps0, 23, p, heaps) && Allowed(env, ranges, q) && Running(p)
    requires p.mar == q.slot && p.data2 == q.key1
    ensures |heaps| == STAGES
    ensures At(env, ranges, MONITOR, phv, heaps0, 26, p.(mbr := p.mbr2, mbr2 := q.key1),
               heaps[THRESHOLD := Machine.Stored(heaps[THRESHOLD], q.slot, p.mbr2)])
  {
    hide At, Perform, Access, Allowed, InRange;
    SlotAllowed(env, ranges, q);
    AtLengths(env, ranges, MONITOR, phv, heaps0, 23, p, heaps);
    CopyEffects(env, 13, p);
    Step(env, ranges, MONITOR, phv, heaps0, 23, p, heaps);
    var p24 := p.(mbr := p.mbr2);
    LoadEffects(env, 14, p24);
    Step(env, ranges, MONITOR, phv, heaps0, 24, p24, heaps);
    var p25 := p24.(mbr2 := q.key1);
    AccessEffects(p25, Cell(heaps[THRESHOLD], q.slot));
    Touch(env, ranges, MONITOR, phv, heaps0, 25, p25, heaps);
  }

  /** Instructions 26 to 28 store the key's second word and return. */
  lemma StoresSecond(env: Env, ranges: StageRanges, phv: Phv, heaps0: Heaps, q: Query, p: Phv, heaps: Heaps)
    requires At(env, ranges, MONITOR, phv, heaps0, 26, p, heaps) && Allowed(env, ranges, q) && Running(p)
    requires p.mar == q.slot && p.mbr2 == q.key1
    ensures |heaps| == STAGES
    ensures var r := Exec(env, ranges, MONITOR, |MONITOR|, phv, heaps0);
            && r.1 == heaps[KEY_1 := Machine.Stored(heaps[KEY_1], q.slot, q.key1)]
            && r.0.forwards == p.forwards + [Forward(RETURN, 0)]
  {
    hide At, Perform, Access, Exec, Allowed, InRange;
    SlotAllowed(env, ranges, q);
    AtLengths(env, ranges, MONITOR, phv, heaps0, 26, p, heaps);
    CopyEffects(env, 16, p);
    Step(env, ranges, MONITOR, phv, heaps0, 26, p, heaps);
    var p27 := p.(mbr := q.key1);
    AccessEffects(p27, Cell(heaps[KEY_1], q.slot));
    Touch(env, ranges, MONITOR, phv, heaps0, 27, p27, heaps);
    var heaps' := heaps[KEY_1 := Machine.Stored(heaps[KEY_1], q.slot, q.key1)];
    ReturnEffects(env, 18, p27);
    Step(env, ranges, MONITOR, phv, heaps0, 28, p27, heaps');
    RestCompleted(env, ranges, MONITOR, phv, heaps0, 29, Returned(18, p27), heaps');
  }

  // ---- one request ----------------------------------------------------------------------

  lemma RowsCounted(env: Env, q: Query, heaps: Heaps, heaps': Heaps)
    requires |heaps| == STAGES
    requires var rows, t, est := Rows(env, q, heaps), Cell(heaps[THRESHOLD], q.slot), Estimate(env, q, heaps);
             var kept := rows[THRESHOLD := Machine.Stored(rows[THRESHOLD], q.slot, t)];
             heaps' == if est <= t then kept else
               kept[KEY_0 := Machine.Stored(kept[KEY_0], q.slot, q.key0)]
                   [THRESHOLD := Machine.Stored(kept[THRESHOLD], q.slot, est)]
                   [KEY_1 := Machine.Stored(kept[KEY_1], q.slot, q.key1)]
    ensures Counted(env, q, heaps, heaps')
  {
    hide Add, Estimate, HashOf;
  }

  /** What the monitor does with a request: it counts the key in both rows; if the lesser count exceeds the
      slot's threshold it becomes the threshold, and the key takes the slot; no other cell of the switch
      changes, and the packet returns. */
  lemma MonitorCounts(env: Env, ranges: StageRanges, phv: Phv, heaps: Heaps, q: Query)
    requires |heaps| == STAGES && Allowed(env, ranges, q) && Carries(phv, q)
    ensures var r := Exec(env, ranges, MONITOR, |MONITOR|, phv, heaps);
            Counted(env, q, heaps, r.1) && r.0.forwards == phv.forwards + [Forward(RETURN, 0)]
  {
    hide At, Exec, Counted, Estimate, HashOf, Add;
    TakesKey(env, ranges, phv, heaps, q);
    var p4 := phv.(mbr := q.key0, mbr2 := q.key1, hashData := [q.key0, q.key1, 0, 0, 0]);
    var p9 := CountsFirst(env, ranges, phv, heaps, q, p4);
    var p14 := CountsSecond(env, ranges, phv, heaps, q, p9);
    var rows := Rows(env, q, heaps);
    RowsElsewhere(env, q, heaps);
    ReadsThreshold(env, ranges, phv, heaps, q, p14, rows);
    var t := Cell(rows[THRESHOLD], q.slot);
    var kept := rows[THRESHOLD := Machine.Stored(rows[THRESHOLD], q.slot, t)];
    var p18 := ComparesThreshold(env, ranges, phv, heaps, p14.(mar := q.slot, mbr := t), kept);
    if p18.mbr == 0 {
      StaysBelow(env, ranges, phv, heaps, p18, kept);
    } else {
      StoresFirst(env, ranges, phv, heaps, q, p18, kept);
      var p23, heaps23 := p18.(mbr := q.key0), kept[KEY_0 := Machine.Stored(kept[KEY_0], q.slot, q.key0)];
      StoresThreshold(env, ranges, phv, heaps, q, p23, heaps23);
      StoresSecond(env, ranges, phv, heaps, q, p23.(mbr := p23.mbr2, mbr2 := q.key1),
                   heaps23[THRESHOLD := Machine.Stored(heaps23[THRESHOLD], q.slot, p23.mbr2)]);
    }
    RowsCounted(env, q, heaps, Exec(env, ranges, MONITOR, |MONITOR|, phv, heaps).1);
  }

  lemma RowsElsewhere(env: Env, q: Query, heaps: Heaps)
    requires |heaps| == STAGES
    ensures Cell(Rows(env, q, heaps)[THRESHOLD], q.slot) == Cell(heaps[THRESHOLD], q.slot)
  {
  }

  // ---- all requests ---------------------------------------------------------------------

  function Fresh(q: Query): Phv
  {
    Entering((q.slot, q.key0, q.key1, 0), false)
  }

  /** The heaps after a sequence of requests. */
  function After(env: Env, ranges: StageRanges, qs: seq<Query>, heaps: Heaps): (r: Heaps)
    requires |ranges| == |heaps| == STAGES
    ensures |r| == STAGES
  {
    if qs == [] then heaps
    else Exec(env, ranges, MONITOR, |MONITOR|, Fresh(qs[|qs| - 1]), After(env, ranges, qs[..|qs| - 1], heaps)).1
  }

  ghost predicate AllAllowed(env: Env, ranges: StageRanges, qs: seq<Query>)
  {
    |ranges| == STAGES && forall k | 0 <= k < |qs| :: Allowed(env, ranges, qs[k])
  }

  ghost predicate Empty(heaps: Heaps)
  {
    |heaps| == STAGES && forall i, addr: nat | 0 <= i < STAGES :: Cell(heaps[i], addr) == 0
  }

  lemma AfterNext(env: Env, ranges: StageRanges, qs: seq<Query>, heaps: Heaps)
    requires |heaps| == STAGES && AllAllowed(env, ranges, qs) && qs != []
    ensures Counted(env, qs[|qs| - 1], After(env, ranges, qs[..|qs| - 1], heaps), After(env, ranges, qs, heaps))
  {
    hide Exec, Allowed, Counted;
    MonitorCounts(env, ranges, Fresh(qs[|qs| - 1]), After(env, ranges, qs[..|qs| - 1], heaps), qs[|qs| - 1]);
  }

  predicate SameKey(q: Query, r: Query) { q.key0 == r.key0 && q.key1 == r.key1 }

  /** How often the key was requested. */
  function Requests(qs: seq<Query>, q: Query): nat
  {
    if qs == [] then 0 else Requests(qs[..|qs| - 1], q) + if SameKey(qs[|qs| - 1], q) then 1 else 0
  }

  /** How many requests have gone to an address of row 0, or of row 1. */
  function Hits(env: Env, stage: nat, qs: seq<Query>, addr: nat): nat
  {
    if qs == [] then 0 else Hits(env, stage, qs[..|qs| - 1], addr) + if HashOf(env, stage, qs[|qs| - 1]) == addr then 1 else 0
  }

  lemma {:induction false} HitsAtMost(env: Env, stage: nat, qs: seq<Query>, addr: nat)
    ensures Hits(env, stage, qs, addr) <= |qs|
  {
    if qs != [] {
      HitsAtMost(env, stage, qs[..|qs| - 1], addr);
    }
  }

  /** No other key has gone to the key's address. */
  ghost predicate Undisturbed(env: Env, stage: nat, qs: seq<Query>, q: Query)
  {
    forall k | 0 <= k < |qs| && HashOf(env, stage, qs[k]) == HashOf(env, stage, q) :: SameKey(qs[k], q)
  }

  lemma {:induction false} HitsCover(env: Env, stage: nat, qs: seq<Query>, q: Query)
    ensures Requests(qs, q) <= Hits(env, stage, qs, HashOf(env, stage, q))
    ensures Requests(qs, q) == Hits(env, stage, qs, HashOf(env, stage, q)) <==> Undisturbed(env, stage, qs, q)
  {
    if qs != [] {
      var front, last := qs[..|qs| - 1], qs[|qs| - 1];
      HitsCover(env, stage, front, q);
      SameHash(env, stage, last, q);
      assert Undisturbed(env, stage, qs, q) <==>
               Undisturbed(env, stage, front, q) && (HashOf(env, stage, last) == HashOf(env, stage, q) ==> SameKey(last, q)) by {
        assert forall k | 0 <= k < |front| :: front[k] == qs[k];
        if Undisturbed(env, stage, front, q) && (HashOf(env, stage, last) == HashOf(env, stage, q) ==> SameKey(last, q)) {
          forall k | 0 <= k < |qs| && HashOf(env, stage, qs[k]) == HashOf(env, stage, q) ensures SameKey(qs[k], q) {
            if k < |front| { assert front[k] == qs[k]; }
          }
        }
      }
    }
  }

  lemma SameHash(env: Env, stage: nat, q: Query, r: Query)
    ensures SameKey(q, r) ==> HashOf(env, stage, q) == HashOf(env, stage, r)
  {
  }

  /** The rows count hits. */
  lemma {:induction false} RowsCountHits(env: Env, ranges: StageRanges, qs: seq<Query>, heaps: Heaps, addr: nat)
    requires Empty(heaps) && AllAllowed(env, ranges, qs) && |qs| < WORD
    ensures Cell(After(env, ranges, qs, heaps)[ROW_0], addr) == Hits(env, 4, qs, addr)
    ensures Cell(After(env, ranges, qs, heaps)[ROW_1], addr) == Hits(env, 9, qs, addr)
  {
    hide Exec, HashOf, Allowed;
    if qs != [] {
      var front := qs[..|qs| - 1];
      RowsCountHits(env, ranges, front, heaps, addr);
      AfterNext(env, ranges, qs, heaps);
      HitsAtMost(env, 4, front, addr);
      HitsAtMost(env, 9, front, addr);
    }
  }

  /** The sketch never underestimates: the estimate of a key is at least the number of its requests, this one
      included, and exact if and only if in one of the two rows no other key has gone to its address. */
  lemma NeverUnderestimates(env: Env, ranges: StageRanges, qs: seq<Query>, heaps: Heaps, q: Query)
    requires Empty(heaps) && AllAllowed(env, ranges, qs) && |qs| + 1 < WORD
    ensures Requests(qs, q) + 1 <= Estimate(env, q, After(env, ranges, qs, heaps))
    ensures Requests(qs, q) + 1 == Estimate(env, q, After(env, ranges, qs, heaps))
            <==> Undisturbed(env, 4, qs, q) || Undisturbed(env, 9, qs, q)
  {
    hide Exec, HashOf, Allowed, After, Undisturbed;
    RowsCountHits(env, ranges, qs, heaps, Row0(env, q));
    RowsCountHits(env, ranges, qs, heaps, Row1(env, q));
    HitsCover(env, 4, qs, q);
    HitsCover(env, 9, qs, q);
    HitsAtMost(env, 4, qs, Row0(env, q));
    HitsAtMost(env, 9, qs, Row1(env, q));
  }

  /** The estimate request k was given. */
  function EstimateAt(env: Env, ranges: StageRanges, qs: seq<Query>, heaps: Heaps, k: nat): nat
    requires |ranges| == |heaps| == STAGES && k < |qs|
  {
    Estimate(env, qs[k], After(env, ranges, qs[..k], heaps))
  }

  /** Slot s holds the key of request k, with the estimate it was given. */
  ghost predicate HeldBy(env: Env, ranges: StageRanges, qs: seq<Query>, heaps: Heaps, s: nat, k: nat)
    requires |ranges| == |heaps| == STAGES && k < |qs|
  {
    var heaps' := After(env, ranges, qs, heaps);
    && qs[k].slot == s && Cell(heaps'[THRESHOLD], s) == EstimateAt(env, ranges, qs, heaps, k)
    && Cell(heaps'[KEY_0], s) == qs[k].key0 && Cell(heaps'[KEY_1], s) == qs[k].key1
  }

  /** The monitor keeps the heavy hitters: each slot that was asked for holds the key of a request for it whose
      estimate no other request for the slot has exceeded. */
  lemma {:induction false} SlotHoldsHeaviest(env: Env, ranges: StageRanges, qs: seq<Query>, heaps: Heaps, s: nat)
    requires Empty(heaps) && AllAllowed(env, ranges, qs) && |qs| < WORD
    ensures forall k | 0 <= k < |qs| && qs[k].slot == s ::
              EstimateAt(env, ranges, qs, heaps, k) <= Cell(After(env, ranges, qs, heaps)[THRESHOLD], s)
    ensures if exists k :: 0 <= k < |qs| && qs[k].slot == s
            then exists k :: 0 <= k < |qs| && HeldBy(env, ranges, qs, heaps, s, k)
            else Cell(After(env, ranges, qs, heaps)[THRESHOLD], s) == 0
  {
    hide Exec, HashOf, Allowed, Add, Estimate, EstimateAt;
    if qs != [] {
      var last, front := |qs| - 1, qs[..|qs| - 1];
      SlotHoldsHeaviest(env, ranges, front, heaps, s);
      AfterNext(env, ranges, qs, heaps);
      forall k | 0 <= k < last
        ensures front[k] == qs[k] && EstimateAt(env, ranges, front, heaps, k) == EstimateAt(env, ranges, qs, heaps, k)
      {
        PrefixEstimate(env, ranges, qs, heaps, k);
      }
      PrefixEstimate(env, ranges, qs, heaps, last);
      var before := After(env, ranges, front, heaps);
      if qs[last].slot == s && Estimate(env, qs[last], before) > Cell(before[THRESHOLD], s) {
        assert HeldBy(env, ranges, qs, heaps, s, last);
      } else {
        if k :| 0 <= k < last && HeldBy(env, ranges, front, heaps, s, k) {
          assert HeldBy(env, ranges, qs, heaps, s, k);
        }
        if qs[last].slot == s {
          PositiveEstimate(env, ranges, front, heaps, qs[last]);
        }
      }
    }
  }

  lemma PrefixEstimate(env: Env, ranges: StageRanges, qs: seq<Query>, heaps: Heaps, k: nat)
    requires |ranges| == |heaps| == STAGES && k < |qs|
    ensures k < |qs| - 1 ==> EstimateAt(env, ranges, qs[..|qs| - 1], heaps, k) == EstimateAt(env, ranges, qs, heaps, k)
    ensures k == |qs| - 1 ==> EstimateAt(env, ranges, qs, heaps, k) == Estimate(env, qs[k], After(env, ranges, qs[..|qs| - 1], heaps))
  {
    if k < |qs| - 1 {
      assert qs[..|qs| - 1][..k] == qs[..k];
    }
  }

  lemma PositiveEstimate(env: Env, ranges: StageRanges, qs: seq<Query>, heaps: Heaps, q: Query)
    requires Empty(heaps) && AllAllowed(env, ranges, qs) && |qs| + 1 < WORD
    ensures Estimate(env, q, After(env, ranges, qs, heaps)) > 0
  {
    hide Exec, Allowed, Estimate, After;
    NeverUnderestimates(env, ranges, qs, heaps, q);
  }
}
