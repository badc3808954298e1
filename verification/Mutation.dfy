/** The client's side: given only the set of stages it was allocated, the client rebuilds the mutant that
    the allocator had in mind. */
module Mutation {
  import opened Dimensions
  import opened Ordered
  import opened Wrappers
  import opened Aliases
  import opened Odometer
  import opened Placements
  import opened Machine
  import opened Mutants

  const MAX_PROGRAM: nat := 50

  // ---- what has been copied -------------------------------------------------------------

  predicate Outside(i: nat, lo: nat, hi: nat)
  {
    i < lo || hi <= i
  }

  /** Position q of the mutant is still a NOP, or holds a copied instruction. */
  ghost predicate FilledAt(m: seq<Instr>, code: seq<Instr>, accesses: seq<nat>, s: seq<nat>, lo: nat, hi: nat, q: nat)
    requires |s| == |accesses| && q < |m|
  {
    m[q] == NOP_INSTR || exists i: nat :: i < |code| && Outside(i, lo, hi) && q == Lands(accesses, s, i)
  }

  /** The instructions before lo and from hi on have been copied into place, and nothing else. */
  ghost predicate Copied(m: seq<Instr>, code: seq<Instr>, accesses: seq<nat>, s: seq<nat>, lo: nat, hi: nat)
    requires |s| == |accesses|
  {
    && |m| == MutantLength(|code|, s)
    && (forall i: nat | i < |code| && Outside(i, lo, hi) :: IsMoved(code, accesses, s, m, i))
    && forall q: nat | q < |m| :: FilledAt(m, code, accesses, s, lo, hi, q)
  }

  lemma {:induction false} PositionsOrdered(code: seq<Instr>, accesses: seq<nat>, s: seq<nat>, i: nat, j: nat)
    requires AccessesOf(code, accesses) && ShiftsOk(accesses, s) && i < j <= |code|
    ensures Position(code, accesses, s, i) < Position(code, accesses, s, j)
    decreases j
  {
    PositionsRise(code, accesses, s, j - 1);
    if i < j - 1 {
      PositionsOrdered(code, accesses, s, i, j - 1);
    }
  }

  lemma LandsApart(code: seq<Instr>, accesses: seq<nat>, s: seq<nat>, i: nat, j: nat)
    requires AccessesOf(code, accesses) && ShiftsOk(accesses, s) && i < |code| && j < |code| && i != j
    ensures Lands(accesses, s, i) != Lands(accesses, s, j)
  {
    if i < j {
      PositionsOrdered(code, accesses, s, i, j);
    } else {
      PositionsOrdered(code, accesses, s, j, i);
    }
  }

  lemma LandsWithin(code: seq<Instr>, accesses: seq<nat>, s: seq<nat>, i: nat)
    requires AccessesOf(code, accesses) && ShiftsOk(accesses, s) && i < |code|
    ensures Lands(accesses, s, i) < MutantLength(|code|, s)
  {
    PositionsOrdered(code, accesses, s, i, |code|);
  }

  /** Copying one more instruction, from either end of the part left to copy. */
  lemma CopiedNext(m: seq<Instr>, code: seq<Instr>, accesses: seq<nat>, s: seq<nat>, lo: nat, hi: nat, i: nat, lo': nat, hi': nat)
    requires AccessesOf(code, accesses) && ShiftsOk(accesses, s) && Copied(m, code, accesses, s, lo, hi)
    requires i < |code| && lo <= i < hi && forall j: nat :: Outside(j, lo', hi') <==> Outside(j, lo, hi) || j == i
    ensures Lands(accesses, s, i) < |m|
    ensures Copied(m[Lands(accesses, s, i) := code[i]], code, accesses, s, lo', hi')
  {
    LandsWithin(code, accesses, s, i);
    var p := Lands(accesses, s, i);
    var m' := m[p := code[i]];
    forall j: nat | j < |code| && Outside(j, lo', hi') ensures IsMoved(code, accesses, s, m', j) {
      if j != i {
        assert Outside(j, lo, hi) && IsMoved(code, accesses, s, m, j);
        LandsApart(code, accesses, s, i, j);
      }
    }
    forall q: nat | q < |m'| ensures FilledAt(m', code, accesses, s, lo', hi', q) {
      assert FilledAt(m, code, accesses, s, lo, hi, q);
      if q == p {
        assert Outside(i, lo', hi');
      } else if m[q] != NOP_INSTR {
        var j: nat :| j < |code| && Outside(j, lo, hi) && q == Lands(accesses, s, j);
        assert Outside(j, lo', hi');
      }
    }
  }

  lemma GapFree(m: seq<Instr>, code: seq<Instr>, accesses: seq<nat>, s: seq<nat>, n: nat, i: int, q: nat)
    requires AccessesOf(code, accesses) && ShiftsOk(accesses, s) && Copied(m, code, accesses, s, n, n)
    requires -1 <= i < |code| && q < |m|
    requires i >= 0 ==> Position(code, accesses, s, i) < q
    requires q < Position(code, accesses, s, i + 1)
    ensures m[q] == NOP_INSTR
  {
    assert FilledAt(m, code, accesses, s, n, n, q);
    forall j: nat | j < |code| ensures q != Lands(accesses, s, j) {
      if j < i {
        PositionsOrdered(code, accesses, s, j, i);
      } else if i + 1 < j {
        PositionsOrdered(code, accesses, s, i + 1, j);
      }
    }
  }

  /** Once everything is copied the result is the mutant. */
  lemma AllCopied(m: seq<Instr>, code: seq<Instr>, accesses: seq<nat>, s: seq<nat>, n: nat)
    requires AccessesOf(code, accesses) && ShiftsOk(accesses, s) && Copied(m, code, accesses, s, n, n)
    ensures IsMutant(code, accesses, s, m)
  {
    var p := Position(code, accesses, s, 0);
    forall i | 0 <= i < |code| ensures IsMoved(code, accesses, s, m, i) {
      assert Outside(i, n, n);
    }
    if |code| > 0 {
      LandsWithin(code, accesses, s, 0);
    }
    forall q | 0 <= q < p ensures m[q] == NOP_INSTR {
      var none := -1;
      GapFree(m, code, accesses, s, n, none, q);
    }
    forall i | 0 <= i < |code| ensures GapPadded(code, accesses, s, m, i) {
      PositionsRise(code, accesses, s, i);
      forall q | Position(code, accesses, s, i) + 1 <= q < Position(code, accesses, s, i + 1) ensures m[q] == NOP_INSTR {
        GapFree(m, code, accesses, s, n, i, q);
      }
    }
  }

  // ---- rebuilding the mutant ------------------------------------------------------------

  /** How the client's attempt ends: the program fits the stages as it is; the mutant has been built; an
      assertion has failed; or an access would have to go round the egress stages, which is not modelled. */
  datatype Outcome = Original | Mutated | Aborted | Wraps

  function GetMemoryStageId(idx: nat): (stage: nat)
    ensures stage == StageAt(idx)
  {
    if idx < STAGES then idx else (idx - INGRESS) % EGRESS + INGRESS
  }

  /** The allocated stages, in ascending order. */
  function AllocatedStages(valid: seq<bool>, n: nat): (stages: seq<nat>)
    requires n <= |valid|
    ensures Ascending(stages) && (forall i: nat :: i in stages <==> i < n && valid[i])
  {
    if n == 0 then [] else
      var front := AllocatedStages(valid, n - 1);
      assert forall k | 0 <= k < |front| :: front[k] in front;
      if valid[n - 1] then front + [n - 1] else front
  }

  /** How far access k moves to reach its allocated stage. */
  function ShiftTo(stages: seq<nat>, accesses: seq<nat>, k: nat): int
    requires k < |accesses| <= |stages|
  {
    stages[k] - StageAt(accesses[k])
  }

  /** No access has to move less than the one before it. */
  ghost predicate Straight(stages: seq<nat>, accesses: seq<nat>, n: nat)
    requires n <= |accesses| <= |stages|
  {
    && (0 < n ==> 0 <= ShiftTo(stages, accesses, 0))
    && forall k | 0 < k < n :: ShiftTo(stages, accesses, k - 1) <= ShiftTo(stages, accesses, k)
  }

  lemma {:induction false} StraightRises(stages: seq<nat>, accesses: seq<nat>, n: nat, k: nat)
    requires k < n <= |accesses| <= |stages| && Straight(stages, accesses, n)
    ensures 0 <= ShiftTo(stages, accesses, k)
    decreases k
  {
    if k > 0 {
      StraightRises(stages, accesses, n, k - 1);
    }
  }

  ghost function Shifts(stages: seq<nat>, accesses: seq<nat>): (s: seq<nat>)
    requires |stages| == |accesses| && Straight(stages, accesses, |accesses|)
    ensures ShiftsOk(accesses, s) && forall k | 0 <= k < |s| :: s[k] == ShiftTo(stages, accesses, k)
  {
    assert forall k | 0 <= k < |accesses| :: 0 <= ShiftTo(stages, accesses, k) by {
      forall k | 0 <= k < |accesses| ensures 0 <= ShiftTo(stages, accesses, k) {
        StraightRises(stages, accesses, |accesses|, k);
      }
    }
    seq(|accesses|, k requires 0 <= k < |accesses| => ShiftTo(stages, accesses, k))
  }

  class Client {
    const code: seq<Instr>
    const accessIdx: seq<nat>
    const mutantCode: array<Instr>
    var mutantLength: nat

    ghost predicate Valid()
      reads this
    {
      |code| <= MAX_PROGRAM == mutantCode.Length && AccessesOf(code, accessIdx) && mutantLength <= MAX_PROGRAM
    }

    /** The mutant the client sends. */
    ghost function Mutant(): seq<Instr>
      requires Valid()
      reads this, mutantCode
    {
      mutantCode[..mutantLength]
    }

    /** The client starts with the program itself. */
    constructor (code: seq<Instr>, accessIdx: seq<nat>)
      requires |code| <= MAX_PROGRAM && AccessesOf(code, accessIdx)
      ensures Valid() && this.code == code && this.accessIdx == accessIdx && fresh(mutantCode)
      ensures Mutant() == code
    {
      this.code, this.accessIdx := code, accessIdx;
      mutantCode := new Instr[MAX_PROGRAM](i => if 0 <= i < |code| then code[i] else Instr(EOF, false));
      mutantLength := |code|;
    }

    /** Do the allocated stages include those of all the program's accesses? */
    method FitsAsIs(valid: seq<bool>) returns (original: bool)
      requires Valid() && |valid| == STAGES
      ensures original <==> forall i | 0 <= i < |accessIdx| :: valid[StageAt(accessIdx[i])]
    {
      original := true;
      var i := 0;
      while i < |accessIdx|
        invariant 0 <= i <= |accessIdx|
        invariant original <==> forall k | 0 <= k < i :: valid[StageAt(accessIdx[k])]
      {
        if !valid[StageAt(accessIdx[i])] {
          original := false;
        }
        i := i + 1;
      }
    }

    method ListStages(valid: seq<bool>) returns (stages: seq<nat>)
      requires |valid| == STAGES
      ensures stages == AllocatedStages(valid, STAGES)
    {
      stages := [];
      var i := 0;
      while i < STAGES
        invariant 0 <= i <= STAGES && stages == AllocatedStages(valid, i)
      {
        if valid[i] {
          stages := stages + [i];
        }
        i := i + 1;
      }
    }

    /** How much longer the mutant is than the program, unless an access wraps around. */
    method Increase(stages: seq<nat>) returns (increase: nat, wraps: bool)
      requires Valid() && |stages| == |accessIdx|
      ensures !wraps <==> Straight(stages, accessIdx, |accessIdx|)
      ensures !wraps ==> increase == Before(Shifts(stages, accessIdx), |accessIdx|)
    {
      var allocIdx := 0;
      increase, wraps := 0, false;
      var i := 0;
      while i < |code| && allocIdx < |accessIdx|
        invariant 0 <= i <= |code| && 0 <= allocIdx <= |accessIdx|
        invariant forall k | 0 <= k < |accessIdx| :: accessIdx[k] < i <==> k < allocIdx
        invariant !wraps && Straight(stages, accessIdx, allocIdx)
        invariant increase == if allocIdx == 0 then 0 else ShiftTo(stages, accessIdx, allocIdx - 1)
      {
        assert IsMemoryOp(code[i].op) <==> i in accessIdx;
        if IsMemoryOp(code[i].op) {
          var k :| 0 <= k < |accessIdx| && accessIdx[k] == i;
          assert accessIdx[allocIdx] <= accessIdx[k];
          assert accessIdx[allocIdx] == i;
          var delta := stages[allocIdx] - GetMemoryStageId(i) - increase;
          assert delta == ShiftTo(stages, accessIdx, allocIdx) - increase;
          if delta < 0 {
            return increase, true;
          }
          increase := increase + delta;
          allocIdx := allocIdx + 1;
        }
        i := i + 1;
      }
      AllReached(i, allocIdx);
    }

    lemma AllReached(i: nat, allocIdx: nat)
      requires Valid() && i <= |code| && allocIdx <= |accessIdx| && (i == |code| || allocIdx == |accessIdx|)
      requires forall k | 0 <= k < |accessIdx| :: accessIdx[k] < i <==> k < allocIdx
      ensures allocIdx == |accessIdx|
    {
      assert |accessIdx| > 0 ==> accessIdx[|accessIdx| - 1] in accessIdx;
    }

    /** Lays out the mutant: NOPs everywhere, then the program block by block, last block first. */
    method Assemble(stages: seq<nat>)
      requires Valid() && |stages| == |accessIdx| > 0 && Straight(stages, accessIdx, |accessIdx|)
      requires mutantLength == MutantLength(|code|, Shifts(stages, accessIdx))
      modifies mutantCode
      ensures IsMutant(code, accessIdx, Shifts(stages, accessIdx), Mutant())
    {
      ghost var s := Shifts(stages, accessIdx);
      var n := |code|;
      Clear();
      assert Copied(Mutant(), code, accessIdx, s, 0, n) by {
        forall q: nat | q < mutantLength ensures FilledAt(Mutant(), code, accessIdx, s, 0, n, q) {
          assert Mutant()[q] == NOP_INSTR;
        }
      }
      var blockEnd: int := |code| - 1;
      var j := |accessIdx|;
      while j > 0
        invariant 0 <= j <= |accessIdx|
        invariant blockEnd == (if j == |accessIdx| then |code| else accessIdx[j]) - 1
        invariant 0 <= blockEnd + 1 <= |code| && Copied(Mutant(), code, accessIdx, s, 0, blockEnd + 1)
      {
        j := j - 1;
        assert accessIdx[j] in accessIdx;
        var blockStart: int := accessIdx[j];
        var offset := stages[j] - GetMemoryStageId(accessIdx[j]);
        CopyBlock(blockStart, blockEnd, offset, s, j);
        blockEnd := blockStart - 1;
      }
      CopyHead(s);
      AllCopied(Mutant(), code, accessIdx, s, n);
    }

    /** Fills the mutant with NOPs, and the rest of its buffer with zeros. */
    method Clear()
      requires Valid()
      modifies mutantCode
      ensures forall q | 0 <= q < MAX_PROGRAM :: mutantCode[q] == if q < mutantLength then NOP_INSTR else Instr(EOF, false)
    {
      var i := 0;
      while i < MAX_PROGRAM
        invariant 0 <= i <= MAX_PROGRAM
        invariant forall q | 0 <= q < i :: mutantCode[q] == Instr(EOF, false)
      {
        mutantCode[i] := Instr(EOF, false);
        i := i + 1;
      }
      i := 0;
      while i < mutantLength
        invariant 0 <= i <= mutantLength
        invariant forall q | 0 <= q < MAX_PROGRAM :: mutantCode[q] == if q < i then NOP_INSTR else Instr(EOF, false)
      {
        mutantCode[i] := NOP_INSTR;
        i := i + 1;
      }
    }

    /** Copies the instructions from access j up to the next one, last first. */
    method CopyBlock(blockStart: nat, blockEnd: int, offset: int, ghost s: seq<nat>, ghost j: nat)
      requires Valid() && ShiftsOk(accessIdx, s) && mutantLength == MutantLength(|code|, s)
      requires j < |accessIdx| && blockStart == accessIdx[j] < |code| && offset == s[j]
      requires blockEnd == (if j + 1 == |accessIdx| then |code| else accessIdx[j + 1]) - 1 && blockEnd < |code|
      requires Copied(Mutant(), code, accessIdx, s, 0, blockEnd + 1)
      modifies mutantCode
      ensures Copied(Mutant(), code, accessIdx, s, 0, blockStart)
    {
      var i := blockEnd;
      while i >= blockStart
        invariant blockStart - 1 <= i <= blockEnd
        invariant Copied(Mutant(), code, accessIdx, s, 0, i + 1)
      {
        ghost var m, hi := Mutant(), i + 1;
        BlockLands(s, j, i);
        CopiedNext(m, code, accessIdx, s, 0, hi, i, 0, i);
        mutantCode[i + offset] := code[i];
        assert Mutant() == m[i + offset := code[i]];
        i := i - 1;
      }
    }

    /** Instructions from access j up to the next one move along with it. */
    lemma BlockLands(s: seq<nat>, j: nat, i: nat)
      requires Valid() && |s| == |accessIdx| && j < |accessIdx| && accessIdx[j] <= i
      requires j + 1 < |accessIdx| ==> i < accessIdx[j + 1]
      ensures Lands(accessIdx, s, i) == i + s[j]
    {
      AccessesUpToOk(accessIdx, i);
      assert AccessesUpTo(accessIdx, i) == j + 1;
    }

    /** Copies the instructions before the first access. */
    method CopyHead(ghost s: seq<nat>)
      requires Valid() && ShiftsOk(accessIdx, s) && mutantLength == MutantLength(|code|, s) && |accessIdx| > 0
      requires accessIdx[0] <= |code| && Copied(Mutant(), code, accessIdx, s, 0, accessIdx[0])
      modifies mutantCode
      ensures Copied(Mutant(), code, accessIdx, s, |code|, |code|)
    {
      ghost var hi := accessIdx[0];
      var i := 0;
      while i < accessIdx[0]
        invariant 0 <= i <= accessIdx[0]
        invariant Copied(Mutant(), code, accessIdx, s, i, hi)
      {
        ghost var m, next := Mutant(), i + 1;
        AccessesUpToOk(accessIdx, i);
        assert AccessesUpTo(accessIdx, i) == 0;
        CopiedNext(m, code, accessIdx, s, i, hi, i, next, hi);
        mutantCode[i] := code[i];
        assert Mutant() == m[i := code[i]];
        i := i + 1;
      }
      CopiedAll(Mutant(), code, accessIdx, s, hi, |code|);
    }

    /** Rebuilds the mutant for a set of allocated stages. */
    method MutateActiveProgram(valid: seq<bool>) returns (outcome: Outcome)
      requires Valid() && |valid| == STAGES
      modifies this`mutantLength, mutantCode
      ensures Valid()
      ensures var stages := AllocatedStages(valid, STAGES);
              && (outcome == Original <==> forall i | 0 <= i < |accessIdx| :: valid[StageAt(accessIdx[i])])
              && (outcome == Original ==> Mutant() == old(Mutant()))
              && (outcome == Wraps ==> |stages| == |accessIdx| && !Straight(stages, accessIdx, |accessIdx|))
              && (outcome == Mutated ==> |stages| == |accessIdx| && Straight(stages, accessIdx, |accessIdx|)
                                         && IsMutant(code, accessIdx, Shifts(stages, accessIdx), Mutant()))
              && (outcome == Aborted ==>
                    (|stages| == |accessIdx| ==>
                       && Straight(stages, accessIdx, |accessIdx|)
                       && MutantLength(|code|, Shifts(stages, accessIdx)) > MAX_PROGRAM))
    {
      var original := FitsAsIs(valid);
      if original {
        return Original;
      }
      var stages := ListStages(valid);
      if |stages| != |accessIdx| {
        return Aborted;
      }
      var increase, wraps := Increase(stages);
      if wraps {
        return Wraps;
      }
      if |code| + increase > MAX_PROGRAM {
        return Aborted;
      }
      mutantLength := |code| + increase;
      Assemble(stages);
      outcome := Mutated;
    }
  }

  lemma CopiedAll(m: seq<Instr>, code: seq<Instr>, accesses: seq<nat>, s: seq<nat>, lo: nat, n: nat)
    requires |s| == |accesses| && Copied(m, code, accesses, s, lo, lo) && n == |code|
    ensures Copied(m, code, accesses, s, n, n)
  {
    forall q: nat | q < |m| ensures FilledAt(m, code, accesses, s, n, n, q) {
      assert FilledAt(m, code, accesses, s, lo, lo, q);
      if m[q] != NOP_INSTR {
        var i: nat :| i < |code| && Outside(i, lo, lo) && q == Lands(accesses, s, i);
        assert Outside(i, n, n);
      }
    }
    forall i: nat | i < |code| ensures IsMoved(code, accesses, s, m, i) {
      assert Outside(i, lo, lo);
    }
  }
}
