/** Naturals read as vectors over GF(2): bit i is the coefficient of x^i.
    `Xor` is the addition of that vector space; it has no width limit, so a
    width has to be imposed where the program imposes one. */
module Bits {

  function Pow2(n: nat): (p: nat)
    ensures p >= 1
  {
    if n == 0 then 1 else 2 * Pow2(n - 1)
  }

  lemma {:induction false} Pow2Add(m: nat, n: nat)
    ensures Pow2(m + n) == Pow2(m) * Pow2(n)
  {
    if m > 0 {
      Pow2Add(m - 1, n);
      assert Pow2(m + n) == 2 * Pow2(m - 1 + n);
    }
  }

  lemma {:induction false} Pow2Mono(m: nat, n: nat)
    requires m <= n
    ensures Pow2(m) <= Pow2(n)
  {
    if m < n {
      Pow2Mono(m, n - 1);
    }
  }

  function Xor(a: nat, b: nat): nat {
    if a == 0 && b == 0 then 0
    else 2 * Xor(a / 2, b / 2) + (a % 2 + b % 2) % 2
  }

  lemma {:induction false} XorComm(a: nat, b: nat)
    ensures Xor(a, b) == Xor(b, a)
  {
    if a != 0 || b != 0 {
      XorComm(a / 2, b / 2);
    }
  }

  lemma {:induction false} XorZero(a: nat)
    ensures Xor(a, 0) == a == Xor(0, a)
  {
    if a != 0 {
      XorZero(a / 2);
    }
  }

  lemma {:induction false} XorSelf(a: nat)
    ensures Xor(a, a) == 0
  {
    if a != 0 {
      XorSelf(a / 2);
    }
  }

  lemma XorStep(a: nat, b: nat)
    ensures Xor(a, b) / 2 == Xor(a / 2, b / 2)
    ensures Xor(a, b) % 2 == (a % 2 + b % 2) % 2
  {
  }

  lemma {:induction false} XorAssoc(a: nat, b: nat, c: nat)
    ensures Xor(Xor(a, b), c) == Xor(a, Xor(b, c))
  {
    hide Xor;
    if a == 0 {
      XorZero(b);
      XorZero(Xor(b, c));
    } else {
      XorAssoc(a / 2, b / 2, c / 2);
      XorStep(a, b);
      XorStep(b, c);
      XorStep(Xor(a, b), c);
      XorStep(a, Xor(b, c));
    }
  }

  // The group laws at once, for short calculations.
  lemma XorLaws()
    ensures forall a: nat :: Xor(a, 0) == a && Xor(0, a) == a && Xor(a, a) == 0
    ensures forall a: nat, b: nat :: Xor(a, b) == Xor(b, a)
    ensures forall a: nat, b: nat, c: nat :: Xor(Xor(a, b), c) == Xor(a, Xor(b, c))
  {
    forall a: nat ensures Xor(a, 0) == a && Xor(0, a) == a && Xor(a, a) == 0 {
      XorZero(a);
      XorSelf(a);
    }
    forall a: nat, b: nat ensures Xor(a, b) == Xor(b, a) {
      XorComm(a, b);
    }
    forall a: nat, b: nat, c: nat ensures Xor(Xor(a, b), c) == Xor(a, Xor(b, c)) {
      XorAssoc(a, b, c);
    }
  }

  lemma XorCancel(a: nat, b: nat)
    ensures Xor(Xor(a, b), b) == a
    ensures Xor(a, b) == 0 <==> a == b
  {
    hide Xor;
    XorAssoc(a, b, b);
    XorSelf(b);
    XorZero(a);
    XorZero(b);
  }

  lemma XorSwap(a: nat, b: nat, c: nat, d: nat)
    ensures Xor(Xor(a, b), Xor(c, d)) == Xor(Xor(a, c), Xor(b, d))
  {
    hide Xor;
    XorAssoc(Xor(a, b), c, d);
    XorAssoc(a, b, c);
    XorComm(b, c);
    XorAssoc(a, c, b);
    XorAssoc(Xor(a, c), b, d);
  }

  lemma {:induction false} XorBound(a: nat, b: nat, m: nat)
    requires a < Pow2(m) && b < Pow2(m)
    ensures Xor(a, b) < Pow2(m)
  {
    if m > 0 {
      XorBound(a / 2, b / 2, m - 1);
    }
  }

  lemma XorDouble(a: nat, b: nat)
    ensures Xor(2 * a, 2 * b) == 2 * Xor(a, b)
  {
  }

  // The m low bits of a number and the bits above them.
  function Low(a: nat, m: nat): nat {
    if m == 0 then 0 else 2 * Low(a / 2, m - 1) + a % 2
  }

  function High(a: nat, m: nat): nat {
    if m == 0 then a else High(a / 2, m - 1)
  }

  lemma {:induction false} LowHigh(a: nat, m: nat)
    ensures Low(a, m) < Pow2(m)
    ensures a == High(a, m) * Pow2(m) + Low(a, m)
  {
    if m > 0 {
      LowHigh(a / 2, m - 1);
      MulTwice(High(a, m), Pow2(m - 1));
    }
  }

  lemma MulTwice(a: int, p: int)
    ensures a * (2 * p) == 2 * (a * p)
  {
  }

  lemma MulAtLeast(k: int, d: int)
    requires k >= 1 && d >= 0
    ensures k * d >= d
  {
  }

  lemma DivModUnique(a: int, d: int, q: int, r: int)
    requires d > 0 && 0 <= r < d && a == q * d + r
    ensures a / d == q && a % d == r
  {
    var q', r' := a / d, a % d;
    assert a == q' * d + r' && 0 <= r' < d;
    assert q' * d - q * d == (q' - q) * d && q * d - q' * d == (q - q') * d;
    if q' > q {
      MulAtLeast(q' - q, d);
    } else if q' < q {
      MulAtLeast(q - q', d);
    }
  }

  lemma XorDigit(a: nat, i: nat, b: nat, j: nat)
    requires i < 2 && j < 2
    ensures Xor(2 * a + i, 2 * b + j) == 2 * Xor(a, b) + (i + j) % 2
  {
    hide Xor;
    XorStep(2 * a + i, 2 * b + j);
  }

  lemma {:induction false} XorLowHigh(a: nat, b: nat, m: nat)
    ensures Low(Xor(a, b), m) == Xor(Low(a, m), Low(b, m))
    ensures High(Xor(a, b), m) == Xor(High(a, m), High(b, m))
  {
    hide Xor;
    if m > 0 {
      XorLowHigh(a / 2, b / 2, m - 1);
      XorStep(a, b);
      XorDigit(Low(a / 2, m - 1), a % 2, Low(b / 2, m - 1), b % 2);
    } else {
      XorZero(0);
    }
  }

  lemma {:induction false} LowId(a: nat, m: nat)
    requires a < Pow2(m)
    ensures Low(a, m) == a && High(a, m) == 0
  {
    if m > 0 {
      LowId(a / 2, m - 1);
    }
  }

  // Adding vectors with disjoint supports is adding numbers.
  lemma {:induction false} XorDisjoint(a: nat, b: nat, m: nat)
    requires b < Pow2(m)
    ensures Xor(a * Pow2(m), b) == a * Pow2(m) + b
  {
    if m == 0 {
      XorZero(a);
    } else {
      XorDisjoint(a, b / 2, m - 1);
      XorDisjointStep(a * Pow2(m - 1), b);
      MulTwice(a, Pow2(m - 1));
    }
  }

  lemma XorDisjointStep(v: nat, b: nat)
    requires Xor(v, b / 2) == v + b / 2
    ensures Xor(2 * v, b) == 2 * v + b
  {
    hide Xor;
    XorStep(2 * v, b);
  }
}
