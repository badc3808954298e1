/** What the machine's word operations mean: laws that say of sums, differences and bit patterns what a
    32-bit register makes of them. */
module Words {
  import opened Machine
  import Sharing

  /** Bit i of a word. */
  function Bit(a: nat, i: nat): bool
  {
    if i == 0 then a % 2 == 1 else Bit(a / 2, i - 1)
  }

  /** 2 to the k. */
  function Pow2(k: nat): (p: nat)
    ensures p > 0
  {
    if k == 0 then 1 else 2 * Pow2(k - 1)
  }

  // ---- sums and differences -------------------------------------------------------------

  /** Adding counts up one by one, and wraps round behind the greatest word. */
  lemma AddCounts(a: nat, b: nat)
    requires a < WORD
    ensures Add(a, 0) == a && Add(a, b + 1) == Add(Add(a, b), 1)
    ensures Add(a, 1) == if a == WORD - 1 then 0 else a + 1
  {
  }

  /** A sum of words is short of the true one by nothing or by 2^32. */
  lemma AddWraps(a: nat, b: nat)
    requires a < WORD && b < WORD
    ensures Add(a, b) == if a + b < WORD then a + b else a + b - WORD
  {
  }

  lemma SubtractWraps(a: nat, b: nat)
    requires a < WORD && b < WORD
    ensures Subtract(a, b) == if b <= a then a - b else a + WORD - b
  {
  }

  /** Subtracting undoes adding, and adding subtracting. */
  lemma SubtractUndoes(a: nat, b: nat)
    requires a < WORD && b < WORD
    ensures Add(a, b) < WORD && Subtract(a, b) < WORD
    ensures Subtract(Add(a, b), b) == a && Add(Subtract(a, b), b) == a
  {
    hide Add, Subtract;
    AddWraps(a, b);
    SubtractWraps(a, b);
    SubtractWraps(Add(a, b), b);
    AddWraps(Subtract(a, b), b);
  }

  /** A difference is zero exactly between equal words. */
  lemma SubtractZero(a: nat, b: nat)
    requires a < WORD && b < WORD
    ensures Subtract(a, b) == 0 <==> a == b
  {
    SubtractWraps(a, b);
  }

  lemma LeastGreatest(a: nat, b: nat)
    ensures Machine.Least(a, b) <= a && Machine.Least(a, b) <= b && (Machine.Least(a, b) == a || Machine.Least(a, b) == b)
    ensures Greatest(a, b) >= a && Greatest(a, b) >= b && (Greatest(a, b) == a || Greatest(a, b) == b)
  {
  }

  // ---- bits -----------------------------------------------------------------------------

  lemma {:induction false} ZeroBits(i: nat)
    ensures !Bit(0, i)
  {
    if i > 0 {
      ZeroBits(i - 1);
    }
  }

  lemma {:induction false} AndBits(a: nat, b: nat, i: nat)
    ensures Bit(And(a, b), i) <==> Bit(a, i) && Bit(b, i)
    decreases i
  {
    if a == 0 || b == 0 {
      ZeroBits(i);
    } else {
      Halves(And(a, b), a % 2 * (b % 2), And(a / 2, b / 2));
      if i > 0 {
        AndBits(a / 2, b / 2, i - 1);
      }
    }
  }

  lemma {:induction false} OrBits(a: nat, b: nat, i: nat)
    ensures Bit(Or(a, b), i) <==> Bit(a, i) || Bit(b, i)
    decreases i
  {
    if a == 0 && b == 0 {
      ZeroBits(i);
    } else {
      Halves(Or(a, b), if a % 2 == 1 || b % 2 == 1 then 1 else 0, Or(a / 2, b / 2));
      if i > 0 {
        OrBits(a / 2, b / 2, i - 1);
      }
    }
  }

  lemma {:induction false} XorBits(a: nat, b: nat, i: nat)
    ensures Bit(Xor(a, b), i) <==> Bit(a, i) != Bit(b, i)
    decreases i
  {
    if a == 0 && b == 0 {
      ZeroBits(i);
    } else {
      Halves(Xor(a, b), (a % 2 + b % 2) % 2, Xor(a / 2, b / 2));
      if i > 0 {
        XorBits(a / 2, b / 2, i - 1);
      }
    }
  }

  lemma Halves(w: nat, low: nat, high: nat)
    requires w == low + 2 * high && low < 2
    ensures w / 2 == high && w % 2 == low
  {
  }

  lemma {:induction false} ComplementBits(a: nat, k: nat, i: nat)
    requires a < Pow2(k) && i < k
    ensures Bit(Pow2(k) - 1 - a, i) <==> !Bit(a, i)
    decreases k
  {
    var w: nat := Pow2(k) - 1 - a;
    Halves(w, 1 - a % 2, Pow2(k - 1) - 1 - a / 2);
    if i > 0 {
      ComplementBits(a / 2, k - 1, i - 1);
    }
  }

  /** Not turns every bit of a word round. */
  lemma NotBits(a: nat, i: nat)
    requires a < WORD && i < 32
    ensures Not(a) < WORD && (Bit(Not(a), i) <==> !Bit(a, i)) && Not(Not(a)) == a
  {
    WordIsPow2();
    ComplementBits(a, 32, i);
  }

  lemma WordIsPow2()
    ensures Pow2(32) == WORD
  {
    assert Pow2(8) == 256;
    assert Pow2(16) == 65536;
    assert Pow2(24) == 16777216;
  }

  lemma {:induction false} XorSymmetric(a: nat, b: nat)
    ensures Xor(a, b) == Xor(b, a)
    decreases a + b
  {
    if a != 0 || b != 0 {
      XorSymmetric(a / 2, b / 2);
    }
  }

  lemma XorHalves(a: nat, b: nat)
    ensures Xor(a, b) / 2 == Xor(a / 2, b / 2) && Xor(a, b) % 2 == (a % 2 + b % 2) % 2
  {
  }

  /** Exclusive or with the same word twice gives back the word. */
  lemma {:induction false} XorTwice(a: nat, b: nat)
    ensures Xor(Xor(a, b), b) == a
    decreases a + b
  {
    hide Xor;
    XorHalves(a, b);
    XorHalves(Xor(a, b), b);
    if a != 0 || b != 0 {
      XorTwice(a / 2, b / 2);
      assert a == 2 * (a / 2) + a % 2;
    } else {
      XorZero(0, 0);
    }
  }

  /** And with a mask of k low bits is the remainder: what a round-robin counter over 2^k servers needs. */
  lemma {:induction false} AndMask(a: nat, k: nat)
    ensures And(a, Pow2(k) - 1) == a % Pow2(k)
    decreases k
  {
    if k == 0 {
      assert And(a, 0) == 0;
    } else {
      var p, mask: nat := Pow2(k - 1), Pow2(k) - 1;
      Halves(mask, 1, p - 1);
      AndMask(a / 2, k - 1);
      SplitRemainder(a, p);
    }
  }

  lemma SplitRemainder(a: nat, p: nat)
    requires p > 0
    ensures a % (2 * p) == a % 2 + 2 * (a / 2 % p)
  {
    var q, r := a / 2 / p, a / 2 % p;
    assert a == 2 * (a / 2) + a % 2 && a / 2 == q * p + r;
    assert a == (2 * p) * q + (2 * r + a % 2) by {
      assert 2 * (q * p) == (2 * p) * q;
    }
    Sharing.DivModUnique(a, 2 * p, q, 2 * r + a % 2);
  }

  // ---- remainders -----------------------------------------------------------------------

  lemma {:induction false} Pow2Sum(a: nat, b: nat)
    ensures Pow2(a + b) == Pow2(a) * Pow2(b)
    decreases a
  {
    if a > 0 {
      Pow2Sum(a - 1, b);
      assert 2 * (Pow2(a - 1) * Pow2(b)) == 2 * Pow2(a - 1) * Pow2(b);
    }
  }

  /** A power of two up to 2^32 divides the number of words, so that its remainders survive a wrap. */
  lemma WrapKeepsRemainder(a: nat, k: nat)
    requires k <= 32
    ensures a % WORD % Pow2(k) == a % Pow2(k)
  {
    var p, q := Pow2(k), Pow2(32 - k);
    WordIsPow2();
    Pow2Sum(k, 32 - k);
    Multiple(a, p, q, a / WORD, a % WORD);
  }

  lemma Multiple(a: nat, p: nat, q: nat, w: nat, m: nat)
    requires p > 0 && a == p * q * w + m
    ensures a % p == m % p
  {
    var n, r := m / p, m % p;
    assert m == p * n + r;
    assert a == p * (q * w + n) + r by {
      assert p * q * w == p * (q * w);
      assert p * (q * w) + p * n == p * (q * w + n);
    }
    Sharing.DivModUnique(a, p, q * w + n, r);
  }

  /** Two numbers leave the same remainder exactly if their distance leaves none. */
  lemma SameRemainder(a: nat, b: nat, p: nat)
    requires p > 0 && a <= b
    ensures a % p == b % p <==> (b - a) % p == 0
  {
    var d: nat := b - a;
    if d % p == 0 {
      assert b == p * 1 * (d / p) + a by {
        assert d == p * (d / p);
      }
      Multiple(b, p, 1, d / p, a);
    }
    if a % p == b % p {
      Sharing.DivMod(a, p);
      Sharing.DivMod(b, p);
      assert d == p * (b / p) - p * (a / p) == p * (b / p - a / p);
      Sharing.MulGap(p, b / p, a / p);
      var n: nat := b / p - a / p;
      Sharing.DivModUnique(d, p, n, 0);
    }
  }
}
