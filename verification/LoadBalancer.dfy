/** The load balancer on the switch: a new flow is sent to the next server in turn, and later packets find
    their server again from the cookie alone. */
module LoadBalancer {
  import opened Dimensions
  import opened Wrappers
  import opened Aliases
  import opened Machine
  import opened Words
  import opened Instructions

  function Plain(op: Op): Instr { Instr(op, false) }

  /** Takes the port from the cookie in argument word 1 and the hash of the flow. */
  const FOLLOW: seq<Instr> :=
    [Plain(LOAD_TCP_5TUPLE), Plain(LOAD_SALT), Plain(COPY_HASHDATA_MBR), Plain(HASH), Plain(MBR_LOAD), Plain(COPY_MBR2_MBR),
     Plain(COPY_MBR_MAR), Plain(MBR_EQUALS_MBR2), Plain(SET_DST), Plain(RETURN), Plain(EOF)]

  /** Counts a new flow and sends it to the server the count falls to. The instructions that hand out the
      cookie have mnemonics without an opcode and are not part of this model. */
  const ASSIGN: seq<Instr> :=
    [Plain(LOAD_TCP_5TUPLE), Plain(MAR_LOAD), Plain(ADDR_MASK), Plain(ADDR_OFFSET), Plain(MEM_READ), Plain(COPY_MBR2_MBR),
     Plain(MEM_INCREMENT), Plain(COPY_MAR_MBR), Plain(COPY_MBR_MBR2), Plain(BIT_AND_MAR_MBR), Plain(COPY_MBR_MAR),
     Plain(COPY_MBR2_MBR), Plain(MAR_LOAD), Plain(ADDR_MASK), Plain(ADDR_OFFSET), Plain(MEM_READ), Plain(MAR_MBR_ADD_MBR2),
     Plain(MEM_READ), Plain(SET_DST)]

  const SIZES: nat := 4
  const COUNTERS: nat := 6
  const OFFSETS: nat := 15
  const SERVERS: nat := 17

  // ---- following a flow -----------------------------------------------------------------

  /** The hash of the flow, with the salt in its first word. */
  function FlowHash(env: Env, stage: nat): nat
    requires |env.tuple| >= 2
  {
    env.hash(stage, env.tuple[0 := CONST_SALT]) % 0x1_0000
  }

  /** A packet of the flow, to which nothing has happened yet. */
  predicate Enters(env: Env, phv: Phv)
  {
    Running(phv) && |env.tuple| >= 2
  }

  lemma HashesFlow(env: Env, ranges: StageRanges, phv: Phv, heaps: Heaps)
    requires |ranges| == |heaps| == STAGES && Enters(env, phv)
    ensures At(env, ranges, FOLLOW, phv, heaps, 4,
               phv.(hashData := env.tuple[0 := CONST_SALT], mbr := CONST_SALT, mar := FlowHash(env, 3)), heaps)
  {
    hide At, Perform;
    Starts(env, ranges, FOLLOW, phv, heaps);
    FlowEffects(env, 0, phv);
    Step(env, ranges, FOLLOW, phv, heaps, 0, phv, heaps);
    var p1 := phv.(hashData := env.tuple);
    FlowEffects(env, 1, p1);
    Step(env, ranges, FOLLOW, phv, heaps, 1, p1, heaps);
    var p2 := p1.(mbr := CONST_SALT);
    HashWordEffects(env, 2, p2);
    Step(env, ranges, FOLLOW, phv, heaps, 2, p2, heaps);
    var p3 := p2.(hashData := env.tuple[0 := CONST_SALT]);
    HashEffects(env, 3, p3);
    Step(env, ranges, FOLLOW, phv, heaps, 3, p3, heaps);
  }

  lemma ReadsCookie(env: Env, ranges: StageRanges, phv: Phv, heaps0: Heaps, p: Phv, heaps: Heaps)
    requires At(env, ranges, FOLLOW, phv, heaps0, 4, p, heaps) && Running(p)
    ensures At(env, ranges, FOLLOW, phv, heaps0, 8, p.(mbr := Xor(p.mar, p.data1), mbr2 := p.data1), heaps)
  {
    hide At, Perform, Xor;
    LoadEffects(env, 4, p);
    Step(env, ranges, FOLLOW, phv, heaps0, 4, p, heaps);
    var p5 := p.(mbr := p.data1);
    CopyEffects(env, 5, p5);
    Step(env, ranges, FOLLOW, phv, heaps0, 5, p5, heaps);
    var p6 := p5.(mbr2 := p.data1);
    AddressEffects(env, 6, p6);
    Step(env, ranges, FOLLOW, phv, heaps0, 6, p6, heaps);
    var p7 := p6.(mbr := p.mar);
    CompareEffects(env, 7, p7);
    Step(env, ranges, FOLLOW, phv, heaps0, 7, p7, heaps);
  }

  /** A packet of a known flow goes to the port in its cookie, from which the hash of its flow is taken off:
      a cookie made for a server by the same hash leads back to that server. No memory is touched. */
  lemma FollowsCookie(env: Env, ranges: StageRanges, phv: Phv, heaps: Heaps, server: nat)
    requires |ranges| == |heaps| == STAGES && Enters(env, phv) && phv.data1 == Xor(server, FlowHash(env, 3))
    ensures var r := Exec(env, ranges, FOLLOW, |FOLLOW|, phv, heaps);
            r.1 == heaps && r.0.forwards == phv.forwards + [Forward(SET_DST, server % 512), Forward(RETURN, 0)]
  {
    hide At, Perform, Exec, Xor;
    HashesFlow(env, ranges, phv, heaps);
    var h := FlowHash(env, 3);
    var p4 := phv.(hashData := env.tuple[0 := CONST_SALT], mbr := CONST_SALT, mar := h);
    ReadsCookie(env, ranges, phv, heaps, p4, heaps);
    CookieUndone(server, h);
    var p8 := p4.(mbr := server, mbr2 := phv.data1);
    FlowEffects(env, 8, p8);
    Step(env, ranges, FOLLOW, phv, heaps, 8, p8, heaps);
    var p9 := p8.(forwards := phv.forwards + [Forward(SET_DST, server % 512)]);
    ReturnEffects(env, 9, p9);
    Step(env, ranges, FOLLOW, phv, heaps, 9, p9, heaps);
    RestCompleted(env, ranges, FOLLOW, phv, heaps, 10, Returned(9, p9), heaps);
  }

  lemma CookieUndone(server: nat, h: nat)
    ensures Xor(h, Xor(server, h)) == server
  {
    XorSymmetric(h, Xor(server, h));
    XorTwice(server, h);
  }

  // ---- assigning a flow -----------------------------------------------------------------

  /** The tables of a virtual server at address vip: 2^k servers, of which the ports start at `base`. */
  predicate Serves(ranges: StageRanges, heaps: Heaps, vip: nat, k: nat, base: nat)
  {
    && |ranges| == |heaps| == STAGES && vip < MAR_MASK
    && InRange(ranges, SIZES, vip) && InRange(ranges, COUNTERS, vip) && InRange(ranges, OFFSETS, vip)
    && Cell(heaps[SIZES], vip) == Pow2(k) - 1 && Cell(heaps[OFFSETS], vip) == base
    && base + Pow2(k) <= MAR_MASK && forall a | base <= a < base + Pow2(k) :: InRange(ranges, SERVERS, a)
  }

  /** The cells of a stage, after its reads and the counter's increment. */
  ghost predicate OnlyCounted(heaps: Heaps, heaps': Heaps, vip: nat)
    requires |heaps| == STAGES
  {
    && |heaps'| == STAGES
    && forall i, a: nat | 0 <= i < STAGES ::
         Cell(heaps'[i], a) == if i == COUNTERS && a == vip then Add(Cell(heaps[i], a), 1) else Cell(heaps[i], a)
  }

  /** Instructions 0 to 6: the number of servers is read and the flow counted. */
  lemma CountsFlow(env: Env, ranges: StageRanges, phv: Phv, heaps: Heaps, vip: nat, k: nat, base: nat) returns (p: Phv, heaps': Heaps)
    requires Serves(ranges, heaps, vip, k, base) && Running(phv) && phv.data0 == vip
    ensures At(env, ranges, ASSIGN, phv, heaps, 7, p, heaps') && OnlyCounted(heaps, heaps', vip)
    ensures Running(p) && p.data0 == vip && p.forwards == phv.forwards
    ensures p.mbr == Add(Cell(heaps[COUNTERS], vip), 1) && p.mbr2 == Pow2(k) - 1
  {
    hide At, Perform, Access, Add, Pow2;
    Starts(env, ranges, ASSIGN, phv, heaps);
    FlowEffects(env, 0, phv);
    Step(env, ranges, ASSIGN, phv, heaps, 0, phv, heaps);
    var p1 := phv.(hashData := env.tuple);
    LoadEffects(env, 1, p1);
    Step(env, ranges, ASSIGN, phv, heaps, 1, p1, heaps);
    var p2 := p1.(mar := vip);
    Miss(env, ranges, ASSIGN, phv, heaps, 2, p2, heaps);
    Miss(env, ranges, ASSIGN, phv, heaps, 3, p2, heaps);
    AccessEffects(p2, Cell(heaps[SIZES], vip));
    Touch(env, ranges, ASSIGN, phv, heaps, 4, p2, heaps);
    p, heaps' := CountsOn(env, ranges, phv, heaps, vip, k, p2.(mbr := Pow2(k) - 1),
                          heaps[SIZES := Machine.Stored(heaps[SIZES], vip, Pow2(k) - 1)]);
  }

  lemma CountsOn(env: Env, ranges: StageRanges, phv: Phv, heaps0: Heaps, vip: nat, k: nat, p5: Phv, heaps: Heaps)
    returns (p: Phv, heaps': Heaps)
    requires At(env, ranges, ASSIGN, phv, heaps0, 5, p5, heaps) && Running(p5) && |heaps0| == STAGES
    requires p5.mar == vip < MAR_MASK && InRange(ranges, COUNTERS, vip) && Cell(heaps0[SIZES], vip) == Pow2(k) - 1
    requires heaps == heaps0[SIZES := Machine.Stored(heaps0[SIZES], vip, Pow2(k) - 1)] && p5.mbr == Pow2(k) - 1
    ensures At(env, ranges, ASSIGN, phv, heaps0, 7, p, heaps') && OnlyCounted(heaps0, heaps', vip)
    ensures p == p5.(mbr := Add(Cell(heaps0[COUNTERS], vip), 1), mbr2 := Pow2(k) - 1)
  {
    hide At, Perform, Access, Add, Pow2;
    AtLengths(env, ranges, ASSIGN, phv, heaps0, 5, p5, heaps);
    CopyEffects(env, 5, p5);
    Step(env, ranges, ASSIGN, phv, heaps0, 5, p5, heaps);
    var p6 := p5.(mbr2 := p5.mbr);
    var c := Cell(heaps[COUNTERS], vip);
    AccessEffects(p6, c);
    Touch(env, ranges, ASSIGN, phv, heaps0, 6, p6, heaps);
    p, heaps' := p6.(mbr := Add(c, 1)), heaps[COUNTERS := Machine.Stored(heaps[COUNTERS], vip, Add(c, 1))];
  }

  /** Instructions 7 to 11: both registers get the count modulo the number of servers. */
  lemma TakesTurn(env: Env, ranges: StageRanges, phv: Phv, heaps0: Heaps, p: Phv, heaps: Heaps, k: nat) returns (p': Phv)
    requires At(env, ranges, ASSIGN, phv, heaps0, 7, p, heaps) && Running(p) && p.mbr2 == Pow2(k) - 1
    ensures At(env, ranges, ASSIGN, phv, heaps0, 12, p', heaps)
    ensures p' == p.(mar := p.mbr % Pow2(k), mbr := p.mbr % Pow2(k), mbr2 := p.mbr % Pow2(k))
  {
    hide At, Perform, And, Pow2;
    AddressEffects(env, 17, p);
    Step(env, ranges, ASSIGN, phv, heaps0, 7, p, heaps);
    AddressEffects(env, 7, p);
    var p8 := p.(mar := p.mbr);
    CopyEffects(env, 8, p8);
    Step(env, ranges, ASSIGN, phv, heaps0, 8, p8, heaps);
    var p9 := p8.(mbr := p.mbr2);
    SumEffects(env, 9, p9);
    Step(env, ranges, ASSIGN, phv, heaps0, 9, p9, heaps);
    AndMask(p.mbr, k);
    var p10 := p9.(mar := p.mbr % Pow2(k));
    p' := CopiesTurn(env, ranges, phv, heaps0, p10, heaps);
  }

  lemma CopiesTurn(env: Env, ranges: StageRanges, phv: Phv, heaps0: Heaps, p: Phv, heaps: Heaps) returns (p': Phv)
    requires At(env, ranges, ASSIGN, phv, heaps0, 10, p, heaps) && Running(p)
    ensures At(env, ranges, ASSIGN, phv, heaps0, 12, p', heaps) && p' == p.(mbr := p.mar, mbr2 := p.mar)
  {
    hide At, Perform;
    AddressEffects(env, 10, p);
    Step(env, ranges, ASSIGN, phv, heaps0, 10, p, heaps);
    var p11 := p.(mbr := p.mar);
    CopyEffects(env, 11, p11);
    Step(env, ranges, ASSIGN, phv, heaps0, 11, p11, heaps);
    p' := p11.(mbr2 := p.mar);
  }

  /** Instructions 12 to 18: the server's port is looked up and set. */
  lemma LooksUp(env: Env, ranges: StageRanges, phv: Phv, heaps0: Heaps, vip: nat, k: nat, base: nat, p: Phv, heaps: Heaps)
    requires Serves(ranges, heaps, vip, k, base) && At(env, ranges, ASSIGN, phv, heaps0, 12, p, heaps) && Running(p)
    requires p.data0 == vip && p.mbr2 < Pow2(k)
    ensures var r := Exec(env, ranges, ASSIGN, |ASSIGN|, phv, heaps0);
            && r.0.forwards == p.forwards + [Forward(SET_DST, Cell(heaps[SERVERS], base + p.mbr2) % 512)]
            && |r.1| == STAGES && forall i, a: nat | 0 <= i < STAGES :: Cell(r.1[i], a) == Cell(heaps[i], a)
  {
    hide At, Perform, Access, Add, Exec, Pow2;
    LoadEffects(env, 12, p);
    Step(env, ranges, ASSIGN, phv, heaps0, 12, p, heaps);
    var p13 := p.(mar := vip);
    Miss(env, ranges, ASSIGN, phv, heaps0, 13, p13, heaps);
    Miss(env, ranges, ASSIGN, phv, heaps0, 14, p13, heaps);
    AccessEffects(p13, base);
    Touch(env, ranges, ASSIGN, phv, heaps0, 15, p13, heaps);
    var heaps16 := heaps[OFFSETS := Machine.Stored(heaps[OFFSETS], vip, base)];
    SetsPort(env, ranges, phv, heaps0, p13.(mbr := base), heaps16, base + p.mbr2);
  }

  lemma SetsPort(env: Env, ranges: StageRanges, phv: Phv, heaps0: Heaps, p: Phv, heaps: Heaps, a: nat)
    requires At(env, ranges, ASSIGN, phv, heaps0, 16, p, heaps) && Running(p)
    requires p.mbr + p.mbr2 == a < MAR_MASK && InRange(ranges, SERVERS, a)
    ensures |heaps| == STAGES
    ensures var r := Exec(env, ranges, ASSIGN, |ASSIGN|, phv, heaps0);
            && r.0.forwards == p.forwards + [Forward(SET_DST, Cell(heaps[SERVERS], a) % 512)]
            && r.1 == heaps[SERVERS := Machine.Stored(heaps[SERVERS], a, Cell(heaps[SERVERS], a))]
  {
    hide At, Perform, Access;
    AtLengths(env, ranges, ASSIGN, phv, heaps0, 16, p, heaps);
    SumEffects(env, 16, p);
    assert Add(p.mbr, p.mbr2) == a;
    Step(env, ranges, ASSIGN, phv, heaps0, 16, p, heaps);
    var p17, port := p.(mar := a), Cell(heaps[SERVERS], a);
    AccessEffects(p17, port);
    Touch(env, ranges, ASSIGN, phv, heaps0, 17, p17, heaps);
    var heaps' := heaps[SERVERS := Machine.Stored(heaps[SERVERS], a, port)];
    FlowEffects(env, 18, p17.(mbr := port));
    Step(env, ranges, ASSIGN, phv, heaps0, 18, p17.(mbr := port), heaps');
    Finished(env, ranges, phv, heaps0, p17.(mbr := port, forwards := p.forwards + [Forward(SET_DST, port % 512)]), heaps');
  }

  lemma Finished(env: Env, ranges: StageRanges, phv: Phv, heaps0: Heaps, p: Phv, heaps: Heaps)
    requires At(env, ranges, ASSIGN, phv, heaps0, 19, p, heaps)
    ensures Exec(env, ranges, ASSIGN, |ASSIGN|, phv, heaps0) == (p, heaps)
  {
    hide Exec;
  }

  /** A new flow is counted and goes to the server its count falls to modulo their number; no other cell
      changes. */
  lemma AssignsInTurn(env: Env, ranges: StageRanges, phv: Phv, heaps: Heaps, vip: nat, k: nat, base: nat)
    requires Serves(ranges, heaps, vip, k, base) && Running(phv) && phv.data0 == vip
    ensures var r, turn := Exec(env, ranges, ASSIGN, |ASSIGN|, phv, heaps), Add(Cell(heaps[COUNTERS], vip), 1) % Pow2(k);
            && r.0.forwards == phv.forwards + [Forward(SET_DST, Cell(heaps[SERVERS], base + turn) % 512)]
            && OnlyCounted(heaps, r.1, vip)
  {
    hide At, Exec, Add, Pow2;
    var p, heaps' := CountsFlow(env, ranges, phv, heaps, vip, k, base);
    var p' := TakesTurn(env, ranges, phv, heaps, p, heaps', k);
    LooksUp(env, ranges, phv, heaps, vip, k, base, p', heaps');
  }

  // ---- many flows -----------------------------------------------------------------------

  /** The heaps after n more flows for the virtual server. */
  function AfterFlows(env: Env, ranges: StageRanges, flows: seq<Phv>, heaps: Heaps): (r: Heaps)
    requires |ranges| == |heaps| == STAGES
    ensures |r| == STAGES
  {
    if flows == [] then heaps
    else Exec(env, ranges, ASSIGN, |ASSIGN|, flows[|flows| - 1], AfterFlows(env, ranges, flows[..|flows| - 1], heaps)).1
  }

  ghost predicate AllFlows(flows: seq<Phv>, vip: nat)
  {
    forall j | 0 <= j < |flows| :: Running(flows[j]) && flows[j].data0 == vip
  }

  lemma {:induction false} FlowsCounted(env: Env, ranges: StageRanges, flows: seq<Phv>, heaps: Heaps, vip: nat, k: nat, base: nat)
    requires Serves(ranges, heaps, vip, k, base) && AllFlows(flows, vip) && Cell(heaps[COUNTERS], vip) < WORD
    ensures var heaps' := AfterFlows(env, ranges, flows, heaps);
            && Serves(ranges, heaps', vip, k, base) && Cell(heaps'[COUNTERS], vip) == (Cell(heaps[COUNTERS], vip) + |flows|) % WORD
            && forall a: nat :: Cell(heaps'[SERVERS], a) == Cell(heaps[SERVERS], a)
  {
    hide Exec, Pow2, Add;
    if flows != [] {
      var front := flows[..|flows| - 1];
      FlowsCounted(env, ranges, front, heaps, vip, k, base);
      AssignsInTurn(env, ranges, flows[|flows| - 1], AfterFlows(env, ranges, front, heaps), vip, k, base);
      CountsUp(Cell(heaps[COUNTERS], vip), |front|);
    }
  }

  /** The server flow j goes to. */
  function ServerOf(env: Env, ranges: StageRanges, flows: seq<Phv>, heaps: Heaps, j: nat, vip: nat, k: nat): nat
    requires |ranges| == |heaps| == STAGES && j < |flows|
  {
    Add(Cell(AfterFlows(env, ranges, flows[..j], heaps)[COUNTERS], vip), 1) % Pow2(k)
  }

  /** Round robin: two flows go to the same one of the 2^k servers if and only if 2^k divides their distance,
      so that any 2^k flows in a row go to all servers, also when the counter wraps round. */
  lemma RoundRobin(env: Env, ranges: StageRanges, flows: seq<Phv>, heaps: Heaps, vip: nat, k: nat, base: nat, i: nat, j: nat)
    requires Serves(ranges, heaps, vip, k, base) && AllFlows(flows, vip) && Cell(heaps[COUNTERS], vip) < WORD
    requires k <= 32 && i <= j < |flows|
    ensures ServerOf(env, ranges, flows, heaps, i, vip, k) == ServerOf(env, ranges, flows, heaps, j, vip, k)
            <==> (j - i) % Pow2(k) == 0
  {
    hide Exec, Pow2, Add, AfterFlows;
    var c, p := Cell(heaps[COUNTERS], vip), Pow2(k);
    FlowsCounted(env, ranges, flows[..i], heaps, vip, k, base);
    FlowsCounted(env, ranges, flows[..j], heaps, vip, k, base);
    CountsUp(c, i);
    CountsUp(c, j);
    WrapKeepsRemainder(c + i + 1, k);
    WrapKeepsRemainder(c + j + 1, k);
    SameRemainder(c + i + 1, c + j + 1, p);
  }
}
