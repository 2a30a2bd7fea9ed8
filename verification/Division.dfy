/** Division of polynomials over GF(2). A polynomial is the natural number whose
    bits are its coefficients; the shift register of Galois divides one bit at a
    time. */
module Division {
  import opened Bits
  import opened Galois

  // The product of two polynomials.
  function CarryLess(a: nat, b: nat): nat {
    if a == 0 then 0
    else Xor(if a % 2 == 1 then b else 0, 2 * CarryLess(a / 2, b))
  }

  // The divisor x^mm + low bits that the shift register of g divides by.
  ghost function Divisor(g: Gf): nat {
    Size(g) + Low(g.poly, g.mm)
  }

  // Dividing m by the divisor leaves r.
  ghost predicate IsRemainder(g: Gf, m: nat, r: nat) {
    In(g, r) && exists q: nat :: m == Xor(CarryLess(q, Divisor(g)), r)
  }

  // ----- One bit at a time -----

  lemma CarryLessDouble(q: nat, d: nat)
    ensures CarryLess(2 * q, d) == 2 * CarryLess(q, d)
    ensures CarryLess(2 * q + 1, d) == Xor(d, 2 * CarryLess(q, d))
  {
    hide Xor, CarryLess;
    CarryLessUnfold(2 * q, d);
    CarryLessUnfold(2 * q + 1, d);
    XorZero(2 * CarryLess(q, d));
  }

  lemma DivisorReduces(g: Gf, r: nat)
    requires g.mm >= 1 && In(g, r) && 2 * r >= Size(g)
    ensures Times2(g, r) == Xor(2 * r, Divisor(g))
  {
    hide Xor, Low;
    var m := g.mm;
    var lo := 2 * r - Pow2(m);
    assert Pow2(m) == 2 * Pow2(m - 1);
    LowBound(g.poly, m);
    var p := Low(g.poly, m);
    XorDisjoint(1, lo, m);
    XorDisjoint(1, p, m);
    XorLowHigh(2 * r, g.poly, m);
    LowOfSum(lo, m);
    XorSwap(Pow2(m), lo, Pow2(m), p);
    XorSelf(Pow2(m));
    XorZero(Xor(lo, p));
  }

  lemma LowOfSum(lo: nat, m: nat)
    requires lo < Pow2(m)
    ensures Low(Pow2(m) + lo, m) == lo
  {
    hide Xor;
    XorDisjoint(1, lo, m);
    XorLowHigh(Pow2(m), lo, m);
    LowPow2(m);
    LowId(lo, m);
    XorZero(lo);
  }

  lemma {:induction false} LowPow2(m: nat)
    ensures Low(Pow2(m), m) == 0
  {
    if m > 0 {
      LowPow2(m - 1);
    }
  }

  // Shifting the register divides the doubled dividend.
  lemma RemainderDouble(g: Gf, m: nat, r: nat)
    requires g.mm >= 1 && IsRemainder(g, m, r)
    ensures IsRemainder(g, 2 * m, Times2(g, r))
  {
    hide Xor, Low, CarryLess;
    var d := Divisor(g);
    var q: nat :| m == Xor(CarryLess(q, d), r);
    var c := CarryLess(q, d);
    Times2In(g, r);
    XorDouble(c, r);
    CarryLessDouble(q, d);
    if 2 * r < Size(g) {
      LowId(2 * r, g.mm);
      TimesSmall(g, r);
      assert 2 * m == Xor(CarryLess(2 * q, d), Times2(g, r));
    } else {
      DivisorReduces(g, r);
      XorSwap(d, 2 * c, d, 2 * r);
      XorSelf(d);
      XorZero(Xor(2 * c, 2 * r));
      XorComm(2 * r, d);
      assert 2 * m == Xor(CarryLess(2 * q + 1, d), Times2(g, r));
    }
  }

  lemma TimesSmall(g: Gf, r: nat)
    requires 2 * r < Size(g)
    ensures Times2(g, r) == 2 * r
  {
    LowId(2 * r, g.mm);
  }

  lemma RemainderAdd(g: Gf, m: nat, r: nat, c: nat)
    requires IsRemainder(g, m, r) && In(g, c)
    ensures IsRemainder(g, Xor(m, c), Xor(r, c))
  {
    hide Xor, CarryLess;
    var q: nat :| m == Xor(CarryLess(q, Divisor(g)), r);
    XorBound(r, c, g.mm);
    XorAssoc(CarryLess(q, Divisor(g)), r, c);
  }

  lemma {:induction false} RemainderShift(g: Gf, m: nat, r: nat, k: nat)
    requires g.mm >= 1 && IsRemainder(g, m, r)
    ensures IsRemainder(g, m * Pow2(k), Iter(g, k, r))
  {
    hide IsRemainder, Times2;
    if k > 0 {
      RemainderShift(g, m, r, k - 1);
      RemainderDouble(g, m * Pow2(k - 1), Iter(g, k - 1, r));
      MulTwice(m, Pow2(k - 1));
    }
  }

  lemma RemainderZero(g: Gf)
    ensures IsRemainder(g, 0, 0)
  {
    XorZero(0);
    assert 0 == Xor(CarryLess(0, Divisor(g)), 0);
  }

  // ----- The remainder is unique -----

  lemma {:induction false} ProductIsLarge(q: nat, d: nat, m: nat)
    requires q > 0 && Pow2(m) <= d < 2 * Pow2(m)
    ensures CarryLess(q, d) >= Pow2(m)
    ensures q > 1 ==> CarryLess(q, d) >= 2 * Pow2(m)
  {
    hide Xor;
    if q == 1 {
      XorZero(d);
    } else {
      ProductIsLarge(q / 2, d, m);
      var c := 2 * CarryLess(q / 2, d);
      if q % 2 == 1 {
        XorKeepsHigh(d, c, m);
      } else {
        XorZero(c);
      }
    }
  }

  lemma XorKeepsHigh(d: nat, c: nat, m: nat)
    requires d < 2 * Pow2(m) && c >= 2 * Pow2(m)
    ensures Xor(d, c) >= 2 * Pow2(m)
  {
    hide Xor;
    if Xor(d, c) < 2 * Pow2(m) {
      assert Pow2(m + 1) == 2 * Pow2(m);
      XorBound(Xor(d, c), d, m + 1);
      XorComm(d, c);
      XorCancel(c, d);
    }
  }

  lemma {:induction false} CarryLessXor(a: nat, b: nat, d: nat)
    ensures CarryLess(Xor(a, b), d) == Xor(CarryLess(a, d), CarryLess(b, d))
    decreases a + b
  {
    hide Xor;
    XorZero(0);
    if a == 0 {
      XorZero(b);
      XorZero(CarryLess(b, d));
    } else if b == 0 {
      XorZero(a);
      XorZero(CarryLess(a, d));
    } else {
      CarryLessXor(a / 2, b / 2, d);
      XorStep(a, b);
      var ca, cb := CarryLess(a / 2, d), CarryLess(b / 2, d);
      var ha, hb := if a % 2 == 1 then d else 0, if b % 2 == 1 then d else 0;
      XorDouble(ca, cb);
      XorSwap(ha, 2 * ca, hb, 2 * cb);
      XorSelf(d);
      XorZero(d);
      CarryLessUnfold(Xor(a, b), d);
    }
  }

  lemma CarryLessUnfold(a: nat, d: nat)
    ensures CarryLess(a, d) == Xor(if a % 2 == 1 then d else 0, 2 * CarryLess(a / 2, d))
  {
    hide Xor;
    XorZero(0);
  }

  // Division by a polynomial of degree mm leaves only one remainder.
  lemma RemainderUnique(g: Gf, m: nat, r: nat, r': nat)
    requires IsRemainder(g, m, r) && IsRemainder(g, m, r')
    ensures r == r'
  {
    hide Xor, CarryLess;
    var d := Divisor(g);
    LowBound(g.poly, g.mm);
    var q: nat :| m == Xor(CarryLess(q, d), r);
    var q': nat :| m == Xor(CarryLess(q', d), r');
    var a, b := CarryLess(q, d), CarryLess(q', d);
    // the two products differ by the difference of the remainders
    XorSwap(a, r, b, r');
    XorSelf(m);
    XorCancel(Xor(a, b), Xor(r, r'));
    CarryLessXor(q, q', d);
    XorBound(r, r', g.mm);
    if Xor(q, q') > 0 {
      ProductIsLarge(Xor(q, q'), d, g.mm);
    }
    NoProduct(d);
    XorCancel(r, r');
  }

  lemma NoProduct(d: nat)
    ensures CarryLess(0, d) == 0
  {
  }

  // ----- Field multiplication -----

  // Multiplying while reducing is multiplying and then dividing by gfpoly.
  lemma {:induction false} ClmulIsRemainder(g: Gf, a: nat, b: nat)
    requires g.mm >= 1 && In(g, b)
    ensures IsRemainder(g, CarryLess(a, b), Clmul(g, a, b))
  {
    hide Xor, IsRemainder, Times2;
    RemainderZero(g);
    if a != 0 {
      ClmulIsRemainder(g, a / 2, b);
      ClmulTimes2(g, a / 2, b);
      var m, r := CarryLess(a / 2, b), Clmul(g, a / 2, b);
      RemainderDouble(g, m, r);
      var c := if a % 2 == 1 then b else 0;
      RemainderAdd(g, 2 * m, Times2(g, r), c);
      XorComm(2 * m, c);
      XorComm(Times2(g, r), c);
    }
  }
}
