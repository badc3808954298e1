/** A program that asks for memory: its constraints, and the placements enumerated under them. */
module ActiveFunctions {
  import opened Dimensions
  import opened Ordered
  import opened Wrappers
  import opened Aliases
  import opened Combinations
  import opened Odometer
  import opened Placements
  import opened AllocatorModel

  /** The positions of each vector of shifts. */
  ghost predicate Shifted(list: seq<seq<nat>>, accesses: seq<nat>, shifts: seq<seq<nat>>)
  {
    |list| == |shifts| && forall k | 0 <= k < |list| :: ShiftedAt(list, accesses, shifts, k)
  }

  ghost predicate ShiftedAt(list: seq<seq<nat>>, accesses: seq<nat>, shifts: seq<seq<nat>>, k: nat)
    requires k < |list| == |shifts|
  {
    |shifts[k]| == |accesses| && list[k] == Plus(accesses, shifts[k])
  }

  /** The placements that keep the program's aliases, in order. */
  ghost function Keeping(list: seq<seq<nat>>, accesses: seq<nat>): seq<seq<nat>>
  {
    if list == [] then [] else
      var last := list[|list| - 1];
      Keeping(list[..|list| - 1], accesses) + if SameAliases(Stages(accesses), Stages(last)) then [last] else []
  }

  lemma {:induction false} KeepingMembers(list: seq<seq<nat>>, accesses: seq<nat>, v: seq<nat>)
    ensures v in Keeping(list, accesses) <==> v in list && SameAliases(Stages(accesses), Stages(v))
  {
    if list != [] {
      var n := |list| - 1;
      KeepingMembers(list[..n], accesses, v);
      assert list == list[..n] + [list[n]];
    }
  }

  lemma {:induction false} KeepingInOrder(list: seq<seq<nat>>, accesses: seq<nat>)
    requires InOrder(list)
    ensures InOrder(Keeping(list, accesses))
  {
    if list != [] {
      var n := |list| - 1;
      var front, kept := list[..n], Keeping(list[..n], accesses);
      forall i, j | 0 <= i < j < n ensures InOrderAt(front, i, j) {
        assert InOrderAt(list, i, j);
      }
      KeepingInOrder(front, accesses);
      var all := Keeping(list, accesses);
      forall i, j | 0 <= i < j < |all| ensures InOrderAt(all, i, j) {
        if j < |kept| {
          assert InOrderAt(kept, i, j);
        } else {
          KeepingMembers(front, accesses, kept[i]);
          var k :| 0 <= k < n && front[k] == kept[i];
          assert InOrderAt(list, k, n);
        }
      }
    }
  }

  lemma ShiftedInOrder(list: seq<seq<nat>>, accesses: seq<nat>, shifts: seq<seq<nat>>)
    requires Shifted(list, accesses, shifts) && InOrder(shifts)
    ensures InOrder(list)
  {
    forall i, j | 0 <= i < j < |list| ensures InOrderAt(list, i, j) {
      assert InOrderAt(shifts, i, j) && ShiftedAt(list, accesses, shifts, i) && ShiftedAt(list, accesses, shifts, j);
      var p: nat :| LessAt(shifts[i], shifts[j], p);
      forall k | 0 <= k < p ensures list[i][k] == list[j][k] {
        assert shifts[i][k] == shifts[i][..p][k] == shifts[j][..p][k] == shifts[j][k];
      }
      assert LessAt(list[i], list[j], p);
    }
  }

  /** What is offered to the allocator is a well-formed request. */
  lemma VariantWellFormed(fid: nat, minDemand: seq<nat>, v: seq<nat>)
    requires fid != 0 && 0 < |v| <= |minDemand| && forall k | 0 <= k < |minDemand| :: 1 <= minDemand[k]
    ensures WellFormed(Request(fid, minDemand, Variant(v)))
  {
    var x := Stages(v);
    var r := Variant(v);
    ElementsBound(x);
    assert x[0] in Elements(x) && x[0] in r;
    forall k | 0 <= k < |r| ensures r[k] < STAGES {
      assert r[k] in r && r[k] in Elements(x);
      var i :| 0 <= i < |x| && x[i] == r[k];
    }
  }

  lemma {:induction false} ElementsBound(s: seq<nat>)
    ensures |Elements(s)| <= |s|
  {
    if s != [] {
      var front := s[..|s| - 1];
      ElementsBound(front);
      assert s == front + [s[|s| - 1]];
      assert Elements(s) == Elements(front) + {s[|s| - 1]};
    }
  }

  /** No access could fall below position 0: none is there, or the ingress-only instruction bounds it. */
  predicate Anchored(accesses: seq<nat>, igLim: int)
  {
    0 in accesses ==> IsLimited(igLim) && 0 < igLim
  }

  class ActiveFunction {
    const fid: nat
    const igLim: int
    const progLen: nat
    const minDemand: seq<nat>
    const accessIdx: seq<nat>
    const allowRecirculations: bool
    var maxProgLen: nat
    var constrLB: seq<nat>
    var constrUB: seq<int>
    var constrDelta: seq<int>
    var numUnique: nat
    var enumeration: seq<seq<nat>>
    /** The shifts of all placements before pruning. */
    ghost var shifts: seq<seq<nat>>

    /** How far each access may move. */
    ghost function Slack(): seq<int>
    {
      Slacks(igLim, MaxLength(progLen, allowRecirculations) - progLen - 1, accessIdx)
    }

    ghost predicate Constrained()
      reads this
    {
      && 0 < |accessIdx| == |minDemand| && progLen <= maxProgLen == MaxLength(progLen, allowRecirculations)
      && constrLB == accessIdx && |constrUB| == |constrDelta| == |accessIdx|
      && (forall i | 0 <= i < |accessIdx| :: constrUB[i] == accessIdx[i] + Slack()[i])
      && (forall i | 0 < i < |accessIdx| :: accessIdx[i - 1] + constrDelta[i] == accessIdx[i])
    }

    ghost predicate Valid()
      reads this
    {
      && Constrained() && Complete(shifts, Slack())
      && exists raw :: Shifted(raw, accessIdx, shifts) && enumeration == Keeping(raw, accessIdx)
    }

    constructor (fid: nat, accessIdx: seq<nat>, igLim: int, progLen: nat, minDemand: seq<nat>, allowFilling: bool)
      requires 0 < |accessIdx| == |minDemand|
      requires progLen < MaxLength(progLen, allowFilling) || Anchored(accessIdx, igLim)
      ensures Valid()
      ensures this.fid == fid && this.accessIdx == accessIdx && this.igLim == igLim && this.progLen == progLen
      ensures this.minDemand == minDemand && allowRecirculations == allowFilling
    {
      this.fid, this.accessIdx, this.igLim, this.progLen := fid, accessIdx, igLim, progLen;
      this.minDemand, allowRecirculations := minDemand, allowFilling;
      maxProgLen, constrLB, constrUB, constrDelta := 0, [], [], [];
      numUnique, enumeration, shifts := |accessIdx|, [], [];
      new;
      ComputeConstraints();
      Enumerate();
    }

    /** Computes the lowest and highest position of each access. */
    method ComputeConstraints()
      requires 0 < |accessIdx| == |minDemand| && (progLen < MaxLength(progLen, allowRecirculations) || Anchored(accessIdx, igLim))
      modifies this`maxProgLen, this`constrLB, this`constrUB, this`constrDelta
      ensures Constrained()
    {
      var own := progLen;
      if progLen > STAGES {
        own := INGRESS + (progLen - INGRESS + EGRESS - 1) / EGRESS * EGRESS;
      }
      maxProgLen := if own > STAGES then own else STAGES;
      if allowRecirculations {
        maxProgLen := maxProgLen + EGRESS;
      }
      var lb := accessIdx;
      var spare := maxProgLen - progLen - 1;
      var ub := seq(|lb|, i requires 0 <= i < |lb| => lb[i] + spare);
      if igLim >= 0 && igLim < INGRESS {
        var i := 0;
        while i < |lb|
          invariant 0 <= i <= |lb| == |ub|
          invariant forall k | 0 <= k < |lb| ::
                      ub[k] == lb[k] + if k < i then Placements.Slack(igLim, spare, lb[k]) else spare
        {
          if lb[i] < igLim {
            ub := ub[i := lb[i] + INGRESS - igLim - 1];
          }
          i := i + 1;
        }
      }
      constrLB, constrUB := lb, ub;
      constrDelta := Deltas(lb);
    }

    /** Lists all placements within the constraints, then prunes those that change the aliases. */
    method Enumerate()
      requires Constrained()
      modifies this`enumeration, this`shifts, this`numUnique
      ensures Valid()
    {
      var raw := Turn();
      var recircs := GroupAccesses();
      forall k | 0 <= k < |raw| ensures |raw[k]| == |accessIdx| {
        assert ShiftedAt(raw, accessIdx, shifts, k);
      }
      Prune(raw, recircs);
      assert Shifted(raw, accessIdx, shifts) && enumeration == Keeping(raw, accessIdx);
    }

    /** Runs the odometer through all placements within the constraints. */
    method Turn() returns (raw: seq<seq<nat>>)
      requires Constrained()
      modifies this`shifts
      ensures Complete(shifts, Slack()) && Shifted(raw, accessIdx, shifts)
    {
      hide Listing, Complete, Odometer.Rightmost;
      var lb := constrLB;
      var radix := |lb|;
      var current := new nat[radix](i requires 0 <= i < radix => lb[i]);
      ghost var s, slack := Zeros(radix), Slack();
      assert current[..] == Plus(accessIdx, s);
      raw := [current[..]];
      shifts := [s];
      ListingStarts(slack);
      while true
        invariant Constrained() && current.Length == radix == |s| && |slack| == radix
        invariant Listing(shifts, slack) && shifts != [] && s == shifts[|shifts| - 1]
        invariant Shifted(raw, accessIdx, shifts) && current[..] == Plus(accessIdx, s)
        decreases Measure(s, slack)
      {
        var pos := Rightmost(current, s);
        if pos < 0 {
          ListingEnds(shifts, slack);
          return;
        }
        SetWheel(current, s, pos);
        TurnStep(accessIdx, raw, shifts, slack, s, pos);
        s := Turned(s, pos);
        raw, shifts := raw + [current[..]], shifts + [s];
      }
    }

    /** The rightmost access that can still move, or -1. */
    method Rightmost(current: array<nat>, ghost s: seq<nat>) returns (pos: int)
      requires Constrained() && |s| == current.Length == |accessIdx| && current[..] == Plus(accessIdx, s)
      ensures -1 <= pos < |s| && Odometer.Rightmost(s, Slack(), pos)
    {
      pos := |constrUB| - 1;
      while pos >= 0 && current[pos] + 1 > constrUB[pos]
        invariant -1 <= pos < |constrUB|
        invariant forall i | pos < i < |s| :: !CanTurn(s, Slack(), i)
      {
        assert current[pos] == current[..][pos];
        pos := pos - 1;
      }
      if pos >= 0 {
        assert current[pos] == current[..][pos];
      }
    }

    /** Moves the access at pos by one and resets those after it to the same shift. */
    method SetWheel(current: array<nat>, ghost s: seq<nat>, pos: nat)
      requires Constrained() && |s| == current.Length == |accessIdx| && current[..] == Plus(accessIdx, s) && pos < |s|
      modifies current
      ensures current[..] == Plus(accessIdx, Turned(s, pos))
    {
      ghost var t := Turned(s, pos);
      forall i | 0 <= i < |s| ensures current[i] == accessIdx[i] + s[i] {
        assert current[i] == current[..][i];
      }
      current[pos] := current[pos] + 1;
      var i := pos + 1;
      while i < current.Length
        invariant pos < i <= current.Length
        invariant forall k | 0 <= k < i :: current[k] == accessIdx[k] + t[k]
      {
        current[i] := current[i - 1] + constrDelta[i];
        i := i + 1;
      }
    }

    /** The accesses on each stage. */
    method CollectGroups(orig: seq<nat>) returns (reuses: map<nat, seq<nat>>)
      ensures reuses.Keys == Elements(orig)
      ensures forall m | m in reuses :: reuses[m] == IndicesOf(orig, m)
    {
      reuses := map[];
      var idx := 0;
      while idx < |orig|
        invariant 0 <= idx <= |orig|
        invariant reuses.Keys == Elements(orig[..idx])
        invariant forall m | m in reuses :: reuses[m] == IndicesOf(orig[..idx], m)
      {
        var m := orig[idx];
        if m !in reuses {
          NoIndices(orig[..idx], m);
          reuses := reuses[m := []];
        }
        reuses := reuses[m := reuses[m] + [idx]];
        forall k | k in reuses ensures reuses[k] == IndicesOf(orig[..idx + 1], k) {
          IndicesOfNext(orig, k, idx);
        }
        assert orig[..idx + 1] == orig[..idx] + [m];
        idx := idx + 1;
      }
      assert orig[..idx] == orig;
    }

    /** The groups of more than one access. */
    method SharedGroups(reuses: map<nat, seq<nat>>) returns (recircs: seq<seq<nat>>)
      ensures forall g | g in recircs :: exists m :: m in reuses && g == reuses[m]
      ensures forall m | m in reuses && |reuses[m]| > 1 :: reuses[m] in recircs
    {
      recircs := [];
      var todo := reuses.Keys;
      while todo != {}
        invariant todo <= reuses.Keys
        invariant forall g | g in recircs :: exists m :: m in reuses && g == reuses[m]
        invariant forall m | m in reuses && m !in todo && |reuses[m]| > 1 :: reuses[m] in recircs
        decreases todo
      {
        var m :| m in todo;
        if |reuses[m]| > 1 {
          recircs := recircs + [reuses[m]];
        }
        todo := todo - {m};
      }
    }

    /** The groups of accesses that share a stage, and how many stages the program uses. */
    method GroupAccesses() returns (recircs: seq<seq<nat>>)
      requires Constrained()
      modifies this`numUnique
      ensures numUnique == |Elements(Stages(accessIdx))| && Groups(recircs, Stages(accessIdx))
    {
      var orig := Stages(constrLB);
      var reuses := CollectGroups(orig);
      recircs := SharedGroups(reuses);
      forall m: nat | |IndicesOf(orig, m)| > 1 ensures IndicesOf(orig, m) in recircs {
        if m !in reuses {
          NoIndices(orig, m);
        }
      }
      assert |reuses| == |reuses.Keys|;
      numUnique := |reuses|;
    }

    /** Does the placement keep every group on one stage? */
    method KeepsGroups(x: seq<nat>, recircs: seq<seq<nat>>, ghost orig: seq<nat>) returns (valid: bool)
      requires Groups(recircs, orig) && |x| == |orig|
      ensures valid <==> GroupsTogether(orig, x)
    {
      valid := true;
      var r := 0;
      while r < |recircs|
        invariant 0 <= r <= |recircs|
        invariant valid <==> forall q | 0 <= q < r :: GroupKept(x, recircs, orig, q)
      {
        var group := recircs[r];
        assert group in recircs;
        ghost var before := valid;
        var i := 1;
        while i < |group|
          invariant 1 <= i
          invariant valid <==> before && forall k | 0 < k < i && k < |group| :: x[group[k]] == x[group[k - 1]]
        {
          if x[group[i]] != x[group[i - 1]] {
            valid := false;
          }
          i := i + 1;
        }
        assert GroupKept(x, recircs, orig, r) <==> forall k | 0 < k < |group| :: x[group[k]] == x[group[k - 1]];
        r := r + 1;
      }
      GroupsCovered(x, recircs, orig);
    }

    /** Keeps the placements that change no alias. */
    method Prune(raw: seq<seq<nat>>, recircs: seq<seq<nat>>)
      requires Constrained() && Groups(recircs, Stages(accessIdx)) && numUnique == |Elements(Stages(accessIdx))|
      requires forall k | 0 <= k < |raw| :: |raw[k]| == |accessIdx|
      modifies this`enumeration
      ensures enumeration == Keeping(raw, accessIdx)
    {
      var pruned := [];
      var k := 0;
      while k < |raw|
        invariant 0 <= k <= |raw| && pruned == Keeping(raw[..k], accessIdx)
      {
        var x := Stages(raw[k]);
        var valid := KeepsGroups(x, recircs, Stages(accessIdx));
        GroupsKept(Stages(accessIdx), x);
        Pigeonhole(Stages(accessIdx), x);
        assert raw[..k + 1][..k] == raw[..k];
        if |Elements(x)| == numUnique && valid {
          pruned := pruned + [raw[k]];
        }
        k := k + 1;
      }
      assert raw[..k] == raw;
      enumeration := pruned;
    }

    /** The placement with the given number, as positions or as stages. */
    method GetVariant(idx: nat, transformed: bool) returns (v: Option<seq<nat>>)
      requires Valid()
      ensures idx >= |enumeration| ==> v == None
      ensures idx < |enumeration| ==> v == Some(if transformed then Variant(enumeration[idx]) else enumeration[idx])
    {
      if idx < |enumeration| {
        if !transformed {
          return Some(enumeration[idx]);
        }
        return Some(Sorted(Elements(Stages(enumeration[idx]))));
      }
      v := None;
    }

    /** The stages of every placement, as the allocator searches them. */
    method GetEnumeration() returns (candidates: seq<seq<nat>>)
      requires Valid() && fid != 0 && forall k | 0 <= k < |minDemand| :: 1 <= minDemand[k]
      ensures |candidates| == |enumeration|
      ensures forall k | 0 <= k < |candidates| :: candidates[k] == Variant(enumeration[k])
      ensures forall k | 0 <= k < |candidates| :: WellFormed(Request(fid, minDemand, candidates[k]))
    {
      candidates := [];
      while |candidates| < |enumeration|
        invariant |candidates| <= |enumeration|
        invariant forall k | 0 <= k < |candidates| :: candidates[k] == Variant(enumeration[k])
        invariant forall k | 0 <= k < |candidates| :: WellFormed(Request(fid, minDemand, candidates[k]))
        decreases |enumeration| - |candidates|
      {
        var v := enumeration[|candidates|];
        EnumeratedIs(v);
        VariantWellFormed(fid, minDemand, v);
        candidates := candidates + [Variant(v)];
      }
    }

    // ---- what has been enumerated -------------------------------------------------------

    /** The enumeration holds exactly the placements that shift the accesses within the constraints and
        keep the program's aliases. */
    lemma EnumeratedIs(v: seq<nat>)
      requires Valid()
      ensures v in enumeration <==>
              exists s :: Reachable(s, Slack()) && v == Plus(accessIdx, s) && SameAliases(Stages(accessIdx), Stages(v))
    {
      var raw :| Shifted(raw, accessIdx, shifts) && enumeration == Keeping(raw, accessIdx);
      KeepingMembers(raw, accessIdx, v);
      if v in raw {
        var k :| 0 <= k < |raw| && raw[k] == v;
        assert ShiftedAt(raw, accessIdx, shifts, k) && shifts[k] in shifts;
      }
      if s :| Reachable(s, Slack()) && v == Plus(accessIdx, s) {
        assert s in shifts;
        var k :| 0 <= k < |shifts| && shifts[k] == s;
        assert ShiftedAt(raw, accessIdx, shifts, k);
        assert raw[k] in raw;
      }
    }

    /** The placements come in strict lexicographic order, so each of them once. */
    lemma EnumeratedInOrder()
      requires Valid()
      ensures InOrder(enumeration)
    {
      var raw :| Shifted(raw, accessIdx, shifts) && enumeration == Keeping(raw, accessIdx);
      ShiftedInOrder(raw, accessIdx, shifts);
      KeepingInOrder(raw, accessIdx);
    }

    /** Without an ingress-only instruction, n accesses with spare length K have C(K + n, n) placements before
        pruning; a program as long as its longest mutant has just its own. */
    lemma UnlimitedCount()
      requires Valid() && !IsLimited(igLim)
      ensures progLen < maxProgLen ==> |shifts| == Choose(maxProgLen - progLen - 1 + |accessIdx|, |accessIdx|)
      ensures progLen == maxProgLen ==> |shifts| == 1
    {
      if progLen < maxProgLen {
        UniformCount(shifts, Slack(), |accessIdx|, maxProgLen - progLen - 1);
      } else {
        StuckCount(shifts, Slack());
      }
    }

    /** In every enumerated placement the ingress-only instruction, if it is no access itself, stays on an
        ingress stage. */
    lemma EnumeratedKeepsLimit(v: seq<nat>) returns (s: seq<nat>)
      requires Valid() && v in enumeration && Ascending(accessIdx) && IsLimited(igLim) && igLim !in accessIdx
      ensures Reachable(s, Slack()) && v == Plus(accessIdx, s) && Lands(accessIdx, s, igLim) < INGRESS
    {
      EnumeratedIs(v);
      s :| Reachable(s, Slack()) && v == Plus(accessIdx, s);
      LimitedStaysOnIngress(accessIdx, s, igLim, maxProgLen - progLen - 1);
    }

    /** The placement the program was written for always comes through. */
    lemma OriginalEnumerated()
      requires Valid()
      ensures accessIdx in enumeration
    {
      ListingStarts(Slack());
      var z := Zeros(|accessIdx|);
      assert [z][0] == z;
      assert Plus(accessIdx, z) == accessIdx;
      EnumeratedIs(accessIdx);
    }
  }

  /** The lists of more than one access on the same stage. */
  ghost predicate Groups(recircs: seq<seq<nat>>, orig: seq<nat>)
  {
    && (forall g | g in recircs :: exists m: nat :: g == IndicesOf(orig, m))
    && forall m: nat | |IndicesOf(orig, m)| > 1 :: IndicesOf(orig, m) in recircs
  }

  ghost predicate GroupKept(x: seq<nat>, recircs: seq<seq<nat>>, orig: seq<nat>, q: nat)
    requires Groups(recircs, orig) && |x| == |orig| && q < |recircs|
  {
    assert recircs[q] in recircs;
    Together(x, recircs[q])
  }

  lemma GroupsCovered(x: seq<nat>, recircs: seq<seq<nat>>, orig: seq<nat>)
    requires Groups(recircs, orig) && |x| == |orig|
    ensures GroupsTogether(orig, x) <==> forall q | 0 <= q < |recircs| :: GroupKept(x, recircs, orig, q)
  {
    if GroupsTogether(orig, x) {
      forall q | 0 <= q < |recircs| ensures GroupKept(x, recircs, orig, q) {
        assert recircs[q] in recircs;
        var m: nat :| recircs[q] == IndicesOf(orig, m);
        assert Together(x, IndicesOf(orig, m));
      }
    }
    if forall q | 0 <= q < |recircs| :: GroupKept(x, recircs, orig, q) {
      forall m: nat ensures Together(x, IndicesOf(orig, m)) {
        if |IndicesOf(orig, m)| > 1 {
          var q :| 0 <= q < |recircs| && recircs[q] == IndicesOf(orig, m);
          assert GroupKept(x, recircs, orig, q);
        }
      }
    }
  }

  lemma {:induction false} NoIndices(a: seq<nat>, m: nat)
    requires m !in a
    ensures IndicesOf(a, m) == []
    decreases |a|
  {
    if a != [] {
      NoIndices(a[..|a| - 1], m);
    }
  }

  lemma ShiftedNext(list: seq<seq<nat>>, accesses: seq<nat>, shifts: seq<seq<nat>>, v: seq<nat>, s: seq<nat>)
    requires Shifted(list, accesses, shifts) && |s| == |accesses| && v == Plus(accesses, s)
    ensures Shifted(list + [v], accesses, shifts + [s])
  {
    forall k | 0 <= k < |list| + 1 ensures ShiftedAt(list + [v], accesses, shifts + [s], k) {
      if k < |list| {
        assert ShiftedAt(list, accesses, shifts, k);
      }
    }
  }

  /** One turn of the odometer. */
  lemma TurnStep(accesses: seq<nat>, raw: seq<seq<nat>>, shifts: seq<seq<nat>>, slack: seq<int>, s: seq<nat>, pos: nat)
    requires Listing(shifts, slack) && s == shifts[|shifts| - 1] && |accesses| == |s| == |slack| && pos < |s|
    requires Odometer.Rightmost(s, slack, pos) && Shifted(raw, accesses, shifts)
    ensures var t := Turned(s, pos);
            && Listing(shifts + [t], slack) && Shifted(raw + [Plus(accesses, t)], accesses, shifts + [t])
            && 0 <= Measure(t, slack) < Measure(s, slack)
  {
    ListingNext(shifts, slack, pos);
    MeasureFalls(s, slack, pos);
    ShiftedNext(raw, accesses, shifts, Plus(accesses, Turned(s, pos)), Turned(s, pos));
  }

  function Delta(lb: seq<nat>, i: nat): int
    requires i < |lb|
  {
    var own: int := lb[i];
    if i == 0 then own else own - lb[i - 1]
  }

  /** The distance of each access from the one before it. */
  function Deltas(lb: seq<nat>): (delta: seq<int>)
    ensures |delta| == |lb| && forall i | 0 < i < |lb| :: lb[i - 1] + delta[i] == lb[i]
  {
    seq(|lb|, i requires 0 <= i < |lb| => Delta(lb, i))
  }

  /** How far the odometer is from its highest number. */
  ghost function Measure(s: seq<nat>, slack: seq<int>): int
  {
    Power(Top(slack) + 1, |s|) - Value(s, Top(slack) + 1)
  }

  lemma MeasureFalls(s: seq<nat>, slack: seq<int>, pos: nat)
    requires Reachable(s, slack) && pos < |s| && CanTurn(s, slack, pos)
    ensures 0 <= Measure(Turned(s, pos), slack) < Measure(s, slack)
  {
    var t, b := Turned(s, pos), Top(slack) + 1;
    TurnedReachable(s, slack, pos);
    forall i | 0 <= i < |s| ensures s[i] < b && t[i] < b {
      ReachableBounded(s, slack, i);
      ReachableBounded(t, slack, i);
    }
    LessValue(s, t, b, pos);
    ValueBound(t, b);
  }
}
