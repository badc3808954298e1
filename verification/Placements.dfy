/** The placements of a program's memory accesses: how far each access may move, and where that puts the
    program's instructions. */
module Placements {
  import opened Dimensions
  import opened Ordered
  import opened Aliases
  import opened Odometer

  /** The longest mutant that needs no recirculation beyond the program's own, or one more if filling is
      allowed. */
  function MaxLength(progLen: nat, filling: bool): nat
  {
    var own := if progLen <= STAGES then progLen else INGRESS + (progLen - INGRESS + EGRESS - 1) / EGRESS * EGRESS;
    (if own > STAGES then own else STAGES) + if filling then EGRESS else 0
  }

  /** How often a packet has been recirculated when it comes to a position. */
  function PassOf(y: nat): nat
  {
    if y < STAGES then 0 else 1 + PassOf(y - EGRESS)
  }

  lemma {:induction false} PassClosed(y: nat)
    requires y >= STAGES
    ensures PassOf(y) == (y - INGRESS) / EGRESS
  {
    if y >= STAGES + EGRESS {
      PassClosed(y - EGRESS);
    }
  }

  /** The maximum is the greatest length that takes no more passes than the program itself, or one more if
      filling is allowed. */
  lemma MaxLengthIsGreatest(progLen: nat, filling: bool, len: nat)
    requires 0 < progLen && 0 < len
    ensures len <= MaxLength(progLen, filling) <==> PassOf(len - 1) <= PassOf(progLen - 1) + if filling then 1 else 0
  {
    if progLen > STAGES {
      PassClosed(progLen - 1);
    }
    if len > STAGES {
      PassClosed(len - 1);
    }
  }

  /** Does the program have an instruction that only ingress stages run? */
  predicate IsLimited(igLim: int)
  {
    0 <= igLim < INGRESS
  }

  /** How far an access may move: those before the ingress-only instruction may push it no further than
      the last ingress stage, the others may use up the spare length. */
  function Slack(igLim: int, spare: int, access: nat): int
  {
    if IsLimited(igLim) && access < igLim then INGRESS - igLim - 1 else spare
  }

  function Slacks(igLim: int, spare: int, accesses: seq<nat>): (slack: seq<int>)
    ensures |slack| == |accesses|
    ensures forall i | 0 <= i < |accesses| :: slack[i] == Slack(igLim, spare, accesses[i])
  {
    seq(|accesses|, i requires 0 <= i < |accesses| => Slack(igLim, spare, accesses[i]))
  }

  /** The positions of the accesses once shifted. */
  function Plus(accesses: seq<nat>, s: seq<nat>): (v: seq<nat>)
    requires |accesses| == |s|
    ensures |v| == |s| && forall i | 0 <= i < |s| :: v[i] == accesses[i] + s[i]
  {
    seq(|s|, i requires 0 <= i < |s| => accesses[i] + s[i])
  }

  // ---- where instructions land ----------------------------------------------------------

  /** How many accesses come at or before position p. */
  function AccessesUpTo(accesses: seq<nat>, p: nat): (k: nat)
    ensures k <= |accesses|
  {
    if accesses == [] then 0
    else if accesses[|accesses| - 1] <= p then |accesses|
    else AccessesUpTo(accesses[..|accesses| - 1], p)
  }

  lemma {:induction false} AccessesUpToOk(accesses: seq<nat>, p: nat)
    requires Ascending(accesses)
    ensures var k := AccessesUpTo(accesses, p);
            && (forall i | 0 <= i < k :: accesses[i] <= p) && forall i | k <= i < |accesses| :: p < accesses[i]
  {
    if accesses != [] && accesses[|accesses| - 1] > p {
      var front := accesses[..|accesses| - 1];
      AccessesUpToOk(front, p);
      var k := AccessesUpTo(front, p);
      forall i | 0 <= i < k ensures accesses[i] <= p {
        assert accesses[i] == front[i];
      }
      forall i | k <= i < |accesses| ensures p < accesses[i] {
        if i < |accesses| - 1 {
          assert accesses[i] == front[i];
        }
      }
    }
  }

  /** Where the instruction at position p lands: NOPs are inserted before accesses, so it moves along with
      the last access at or before it. */
  ghost function Lands(accesses: seq<nat>, s: seq<nat>, p: nat): nat
    requires |accesses| == |s|
  {
    var k := AccessesUpTo(accesses, p);
    p + Before(s, k)
  }

  /** An access lands where the placement puts it. */
  lemma AccessLands(accesses: seq<nat>, s: seq<nat>, i: nat)
    requires Ascending(accesses) && |accesses| == |s| && i < |s|
    ensures Lands(accesses, s, accesses[i]) == Plus(accesses, s)[i]
  {
    AccessesUpToOk(accesses, accesses[i]);
    assert AccessesUpTo(accesses, accesses[i]) == i + 1;
  }

  lemma {:induction false} LimitedShift(accesses: seq<nat>, s: seq<nat>, igLim: int, spare: int, i: nat)
    requires Ascending(accesses) && IsLimited(igLim) && Reachable(s, Slacks(igLim, spare, accesses))
    requires i < |s| && accesses[i] < igLim
    ensures s[i] <= INGRESS - igLim - 1
    decreases i
  {
    assert WheelOk(s, Slacks(igLim, spare, accesses), i);
    if i > 0 {
      LimitedShift(accesses, s, igLim, spare, i - 1);
    }
  }

  /** In every placement the ingress-only instruction, if it is no access itself, stays on an ingress
      stage. */
  lemma LimitedStaysOnIngress(accesses: seq<nat>, s: seq<nat>, igLim: int, spare: int)
    requires Ascending(accesses) && IsLimited(igLim) && igLim !in accesses
    requires Reachable(s, Slacks(igLim, spare, accesses))
    ensures Lands(accesses, s, igLim) < INGRESS
  {
    AccessesUpToOk(accesses, igLim);
    var k := AccessesUpTo(accesses, igLim);
    if k > 0 {
      assert accesses[k - 1] in accesses;
      LimitedShift(accesses, s, igLim, spare, k - 1);
    }
  }

  // ---- the length of a mutant -----------------------------------------------------------

  /** The length of the mutant: the last instruction moves along with the last access. */
  ghost function MutantLength(progLen: nat, s: seq<nat>): nat
  {
    progLen + Before(s, |s|)
  }

  lemma {:induction false} ShiftBound(s: seq<nat>, slack: seq<int>, i: nat, bound: nat)
    requires Reachable(s, slack) && i < |s| && forall k | 0 <= k < |s| :: slack[k] <= bound
    ensures s[i] <= bound
    decreases i
  {
    assert WheelOk(s, slack, i);
    if i > 0 {
      ShiftBound(s, slack, i - 1, bound);
    }
  }

  /** Every mutant stays shorter than the maximum exactly if the room before the ingress limit does not
      exceed the spare length, or no access comes before the limit. */
  lemma LengthKept(accesses: seq<nat>, igLim: int, progLen: nat, maxLen: nat)
    requires Ascending(accesses) && accesses != [] && progLen < maxLen
    ensures (forall s | Reachable(s, Slacks(igLim, maxLen - progLen - 1, accesses)) :: MutantLength(progLen, s) < maxLen)
            <==> !IsLimited(igLim) || igLim <= accesses[0] || INGRESS - igLim - 1 <= maxLen - progLen - 1
  {
    var spare := maxLen - progLen - 1;
    var slack := Slacks(igLim, spare, accesses);
    if !IsLimited(igLim) || igLim <= accesses[0] || INGRESS - igLim - 1 <= spare {
      forall s | Reachable(s, slack) ensures MutantLength(progLen, s) < maxLen {
        ShiftBound(s, slack, |s| - 1, spare);
      }
    } else {
      DraggedReachable(slack, 0);
      var s: seq<nat> := Zeros(0) + seq(|slack| - 0, k => slack[0]);
      assert Reachable(s, slack) && MutantLength(progLen, s) >= maxLen;
    }
  }

  /** The odometer's resets keep every access within its own bounds exactly if there is no ingress limit, or
      it lies before or behind all accesses, or the room before it does not exceed the spare length. */
  lemma BoundsKept(accesses: seq<nat>, igLim: int, spare: nat)
    requires Ascending(accesses) && accesses != []
    ensures (forall s | Reachable(s, Slacks(igLim, spare, accesses)) :: Within(s, Slacks(igLim, spare, accesses)))
            <==> || !IsLimited(igLim) || igLim <= accesses[0] || accesses[|accesses| - 1] < igLim
                 || INGRESS - igLim - 1 <= spare
  {
    var slack := Slacks(igLim, spare, accesses);
    BoundsHoldIffRising(slack);
    if IsLimited(igLim) && accesses[0] < igLim <= accesses[|accesses| - 1] && spare < INGRESS - igLim - 1 {
      var i := AccessesUpTo(accesses, igLim - 1);
      AccessesUpToOk(accesses, igLim - 1);
      assert slack[i - 1] > slack[i];
    } else if IsLimited(igLim) && accesses[|accesses| - 1] < igLim {
      assert forall i | 0 <= i < |slack| :: accesses[i] < igLim;
    }
  }

  /** A program of 18 instructions with accesses at 0 and 5 and the limit at 1: resetting drags the second
      access eight positions along where it may move one. */
  lemma DraggedTooFar(accesses: seq<nat>, s: seq<nat>)
    requires accesses == [0, 5] && s == [8, 8]
    ensures var slack := Slacks(1, MaxLength(18, false) - 18 - 1, accesses);
            slack == [8, 1] && Reachable(s, slack) && !Within(s, slack)
    ensures MutantLength(18, s) > MaxLength(18, false)
  {
    var slack := Slacks(1, MaxLength(18, false) - 18 - 1, accesses);
    assert slack[0] == 8 && slack[1] == 1;
    assert WheelOk(s, slack, 0) && WheelOk(s, slack, 1);
    assert s[1] > slack[1];
  }

  // ---- candidate stages -----------------------------------------------------------------

  /** The stages of a placement, without duplicates and in ascending order. */
  function Variant(v: seq<nat>): seq<nat>
  {
    Sorted(Elements(Stages(v)))
  }
}
