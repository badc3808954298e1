/** Which accesses of a program share a stage, and how pruning recognises that a mutant keeps it so. */
module Aliases {
  import opened Dimensions
  import opened Ordered

  /** The stage of an instruction position: the ingress stages come once, the egress stages then repeat
      with every recirculation. */
  function StageAt(y: nat): (stage: nat)
    ensures stage < STAGES
    ensures y < STAGES ==> stage == y
  {
    if y < INGRESS then y else y % EGRESS + INGRESS
  }

  /** The egress stages come round with every recirculation; the ingress stages come once. */
  lemma StageRepeats(y: nat)
    ensures StageAt(y) >= INGRESS <==> y >= INGRESS
    ensures y >= INGRESS ==> StageAt(y + EGRESS) == StageAt(y)
    ensures INGRESS <= y && (y + 1) % EGRESS != 0 ==> StageAt(y + 1) == StageAt(y) + 1
  {
  }

  function Stages(v: seq<nat>): (x: seq<nat>)
    ensures |x| == |v| && forall i | 0 <= i < |v| :: x[i] == StageAt(v[i])
  {
    seq(|v|, i requires 0 <= i < |v| => StageAt(v[i]))
  }

  /** The same accesses share a stage in both. */
  ghost predicate SameAliases(a: seq<nat>, b: seq<nat>)
  {
    |a| == |b| && forall i, j | 0 <= i < |a| && 0 <= j < |a| :: a[i] == a[j] <==> b[i] == b[j]
  }

  /** Accesses that share a stage in a still do in b. */
  ghost predicate ClassesKept(a: seq<nat>, b: seq<nat>)
  {
    |a| == |b| && forall i, j | 0 <= i < |a| && 0 <= j < |a| && a[i] == a[j] :: b[i] == b[j]
  }

  // ---- the pigeonhole argument ----------------------------------------------------------

  /** Where b puts the accesses that a puts on one of the stages s. */
  function Image(a: seq<nat>, b: seq<nat>, s: set<nat>): set<nat>
    requires |a| == |b|
  {
    set k | 0 <= k < |a| && a[k] in s :: b[k]
  }

  lemma {:induction false} ImageBound(a: seq<nat>, b: seq<nat>, s: set<nat>)
    requires ClassesKept(a, b)
    ensures |Image(a, b, s)| <= |s|
    decreases s
  {
    if s == {} {
      assert Image(a, b, s) == {};
    } else {
      var m :| m in s;
      var rest := s - {m};
      ImageBound(a, b, rest);
      if k :| 0 <= k < |a| && a[k] == m {
        assert Image(a, b, s) == Image(a, b, rest) + {b[k]};
      } else {
        assert Image(a, b, s) == Image(a, b, rest);
      }
    }
  }

  lemma {:induction false} ImageAll(a: seq<nat>, b: seq<nat>)
    requires |a| == |b|
    ensures Image(a, b, Elements(a)) == Elements(b)
  {
    forall x | x in Elements(b) ensures x in Image(a, b, Elements(a)) {
      var k :| 0 <= k < |b| && b[k] == x;
      assert a[k] in Elements(a);
    }
  }

  /** Merging two classes loses a stage. */
  lemma MergedLoses(a: seq<nat>, b: seq<nat>, i: nat, j: nat)
    requires ClassesKept(a, b) && i < |a| && j < |a| && a[i] != a[j] && b[i] == b[j]
    ensures |Elements(b)| < |Elements(a)|
  {
    var rest := Elements(a) - {a[j]};
    assert Elements(a) == rest + {a[j]};
    ImageBound(a, b, rest);
    forall x | x in Elements(b) ensures x in Image(a, b, rest) {
      var k :| 0 <= k < |b| && b[k] == x;
      if a[k] == a[j] {
        assert b[k] == b[i] && a[i] in rest;
      } else {
        assert a[k] in rest;
      }
    }
    SubsetSize(Elements(b), Image(a, b, rest));
  }

  /** If the classes are kept and their number is the same, no two of them are merged. */
  lemma Pigeonhole(a: seq<nat>, b: seq<nat>)
    requires |a| == |b|
    ensures ClassesKept(a, b) && |Elements(b)| == |Elements(a)| <==> SameAliases(a, b)
  {
    if ClassesKept(a, b) && |Elements(b)| == |Elements(a)| {
      forall i, j | 0 <= i < |a| && 0 <= j < |a| && b[i] == b[j] ensures a[i] == a[j] {
        if a[i] != a[j] {
          MergedLoses(a, b, i, j);
        }
      }
    }
    if SameAliases(a, b) {
      ImageAll(a, b);
      ImageBound(a, b, Elements(a));
      ImageAll(b, a);
      ImageBound(b, a, Elements(b));
    }
  }

  lemma {:induction false} SubsetSize(a: set<nat>, b: set<nat>)
    requires a <= b
    ensures |a| <= |b|
  {
    assert b == a + (b - a);
  }

  // ---- access groups --------------------------------------------------------------------

  ghost predicate Accesses(group: seq<nat>, n: nat)
  {
    forall k | 0 <= k < |group| :: group[k] < n
  }

  /** The accesses on stage m, in order. */
  function IndicesOf(a: seq<nat>, m: nat): (r: seq<nat>)
    ensures Accesses(r, |a|)
  {
    if a == [] then [] else
      var last := |a| - 1;
      IndicesOf(a[..last], m) + if a[last] == m then [last] else []
  }

  lemma {:induction false} IndicesOfMembers(a: seq<nat>, m: nat, i: nat)
    ensures i in IndicesOf(a, m) <==> i < |a| && a[i] == m
  {
    if a != [] {
      IndicesOfMembers(a[..|a| - 1], m, i);
    }
  }

  lemma IndicesOfNext(a: seq<nat>, m: nat, k: nat)
    requires k < |a|
    ensures IndicesOf(a[..k + 1], m) == IndicesOf(a[..k], m) + if a[k] == m then [k] else []
  {
    assert a[..k + 1][..k] == a[..k];
  }

  /** All accesses of the group share a stage in b. */
  ghost predicate Together(b: seq<nat>, group: seq<nat>)
    requires Accesses(group, |b|)
  {
    forall k | 0 < k < |group| :: b[group[k]] == b[group[k - 1]]
  }

  lemma {:induction false} TogetherAll(b: seq<nat>, group: seq<nat>, k: nat)
    requires Accesses(group, |b|)
    requires Together(b, group) && k < |group|
    ensures b[group[k]] == b[group[0]]
    decreases k
  {
    if k > 0 {
      TogetherAll(b, group, k - 1);
    }
  }

  ghost predicate GroupsTogether(a: seq<nat>, b: seq<nat>)
    requires |a| == |b|
  {
    forall m: nat :: Together(b, IndicesOf(a, m))
  }

  /** Comparing neighbours in each group is enough. */
  lemma GroupsKept(a: seq<nat>, b: seq<nat>)
    requires |a| == |b|
    ensures GroupsTogether(a, b) <==> ClassesKept(a, b)
  {
    if GroupsTogether(a, b) {
      forall i, j | 0 <= i < |a| && 0 <= j < |a| && a[i] == a[j] ensures b[i] == b[j] {
        var group := IndicesOf(a, a[i]);
        assert Together(b, group);
        IndicesOfMembers(a, a[i], i);
        IndicesOfMembers(a, a[i], j);
        var p :| 0 <= p < |group| && group[p] == i;
        var q :| 0 <= q < |group| && group[q] == j;
        TogetherAll(b, group, p);
        TogetherAll(b, group, q);
      }
    }
    if ClassesKept(a, b) {
      forall m: nat ensures Together(b, IndicesOf(a, m)) {
        var group := IndicesOf(a, m);
        forall k | 0 < k < |group| ensures b[group[k]] == b[group[k - 1]] {
          IndicesOfMembers(a, m, group[k]);
          IndicesOfMembers(a, m, group[k - 1]);
        }
      }
    }
  }
}
