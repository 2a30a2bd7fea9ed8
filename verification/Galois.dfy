/** The finite field GF(2^mm) that dump978/fec/init_rs.h tabulates.
    Multiplication is defined as carry-less multiplication reduced by gfpoly;
    the field laws are derived from the hypothesis that gfpoly is primitive. */
module Galois {
  import opened Bits
  import opened Collections

  // Symbol size in bits and field generator polynomial.
  datatype Gf = Gf(mm: nat, poly: nat)

  function Size(g: Gf): (n: nat)
    ensures n >= 1
  {
    Pow2(g.mm)
  }

  // Multiplication by x: one step of the shift register of init_rs.h.
  function Times2(g: Gf, x: nat): nat {
    Low(if 2 * x >= Size(g) then Xor(2 * x, g.poly) else 2 * x, g.mm)
  }

  function Iter(g: Gf, k: nat, x: nat): nat {
    if k == 0 then x else Times2(g, Iter(g, k - 1, x))
  }

  // The k-th power of the root alpha of gfpoly.
  function Exp(g: Gf, k: nat): nat {
    Iter(g, k, 1)
  }

  ghost predicate Returns(g: Gf, k: nat) {
    Exp(g, k) == 1
  }

  // The register returns to 1 after 2^mm - 1 steps and not earlier.
  ghost predicate Primitive(g: Gf) {
    g.mm >= 1 && Returns(g, Size(g) - 1) &&
    forall i :: 0 < i < Size(g) - 1 ==> !Returns(g, i)
  }

  lemma SmallestFieldIsPrimitive()
    ensures Primitive(Gf(1, 3))
  {
    var g := Gf(1, 3);
    assert Size(g) == 2;
    assert Xor(2, 3) == 1;
    assert Exp(g, 1) == Times2(g, Iter(g, 0, 1)) == Times2(g, 1) == 1;
  }

  type Field = g: Gf | Primitive(g) ghost witness (SmallestFieldIsPrimitive(); Gf(1, 3))

  predicate In(g: Gf, x: nat) {
    x < Size(g)
  }

  // Schoolbook carry-less multiplication, reducing as it shifts.
  function Clmul(g: Gf, a: nat, b: nat): nat {
    if a == 0 then 0
    else Xor(if a % 2 == 1 then b else 0, Clmul(g, a / 2, Times2(g, b)))
  }

  function Mul(g: Gf, a: nat, b: nat): nat {
    Clmul(g, Low(a, g.mm), Low(b, g.mm))
  }

  lemma {:induction false} LowBound(x: nat, m: nat)
    ensures Low(x, m) < Pow2(m)
  {
    LowHigh(x, m);
  }

  lemma Times2In(g: Gf, x: nat)
    ensures In(g, Times2(g, x))
  {
    LowBound(if 2 * x >= Size(g) then Xor(2 * x, g.poly) else 2 * x, g.mm);
  }

  // ----- The shift register is linear -----

  lemma {:induction false} TopBit(a: nat, b: nat, k: nat)
    requires a < 2 * Pow2(k) && b < 2 * Pow2(k)
    ensures Xor(a, b) >= Pow2(k) <==> ((a >= Pow2(k)) != (b >= Pow2(k)))
  {
    hide Xor;
    if k > 0 {
      TopBit(a / 2, b / 2, k - 1);
      XorStep(a, b);
    } else {
      XorLaws();
    }
  }

  lemma Times2Linear(g: Gf, a: nat, b: nat)
    requires g.mm >= 1 && In(g, a) && In(g, b)
    ensures Times2(g, Xor(a, b)) == Xor(Times2(g, a), Times2(g, b))
  {
    hide Xor;
    var m := g.mm;
    assert Pow2(m) == 2 * Pow2(m - 1);
    TopBit(a, b, m - 1);
    XorDouble(a, b);
    XorLowHigh(2 * a, 2 * b, m);
    XorLowHigh(2 * a, g.poly, m);
    XorLowHigh(2 * b, g.poly, m);
    XorLowHigh(2 * Xor(a, b), g.poly, m);
    var la, lb, p := Low(2 * a, m), Low(2 * b, m), Low(g.poly, m);
    assert Low(2 * Xor(a, b), m) == Xor(la, lb);
    PolyTwice(la, lb, p);
  }

  lemma PolyTwice(a: nat, b: nat, p: nat)
    ensures Xor(Xor(a, p), Xor(b, p)) == Xor(a, b)
    ensures Xor(Xor(a, p), b) == Xor(Xor(a, b), p)
    ensures Xor(a, Xor(b, p)) == Xor(Xor(a, b), p)
  {
    hide Xor;
    XorSwap(a, p, b, p);
    XorSelf(p);
    XorZero(Xor(a, b));
    XorAssoc(a, p, b);
    XorComm(p, b);
    XorAssoc(a, b, p);
  }

  lemma {:induction false} IterIn(g: Gf, k: nat, x: nat)
    requires In(g, x)
    ensures In(g, Iter(g, k, x))
  {
    if k > 0 {
      Times2In(g, Iter(g, k - 1, x));
    }
  }

  lemma {:induction false} IterLinear(g: Gf, k: nat, a: nat, b: nat)
    requires g.mm >= 1 && In(g, a) && In(g, b)
    ensures Iter(g, k, Xor(a, b)) == Xor(Iter(g, k, a), Iter(g, k, b))
  {
    if k > 0 {
      IterLinear(g, k - 1, a, b);
      IterIn(g, k - 1, a);
      IterIn(g, k - 1, b);
      Times2Linear(g, Iter(g, k - 1, a), Iter(g, k - 1, b));
    }
  }

  lemma {:induction false} IterAdd(g: Gf, i: nat, j: nat, x: nat)
    ensures Iter(g, i + j, x) == Iter(g, i, Iter(g, j, x))
  {
    if i > 0 {
      IterAdd(g, i - 1, j, x);
    }
  }

  lemma Times2Zero(g: Gf)
    ensures Times2(g, 0) == 0
  {
    LowId(0, g.mm);
  }

  lemma {:induction false} IterZero(g: Gf, k: nat)
    ensures Iter(g, k, 0) == 0
  {
    Times2Zero(g);
    if k > 0 {
      IterZero(g, k - 1);
    }
  }

  // ----- Carry-less multiplication -----

  lemma {:induction false} ClmulIn(g: Gf, a: nat, b: nat)
    requires In(g, b)
    ensures In(g, Clmul(g, a, b))
  {
    if a != 0 {
      Times2In(g, b);
      ClmulIn(g, a / 2, Times2(g, b));
      XorBound(if a % 2 == 1 then b else 0, Clmul(g, a / 2, Times2(g, b)), g.mm);
    }
  }

  lemma {:induction false} ClmulZero(g: Gf, a: nat)
    ensures Clmul(g, a, 0) == 0
  {
    Times2Zero(g);
    if a != 0 {
      ClmulZero(g, a / 2);
      XorZero(0);
    }
  }

  lemma {:induction false} ClmulLinear(g: Gf, a: nat, b: nat, c: nat)
    requires g.mm >= 1 && In(g, b) && In(g, c)
    ensures Clmul(g, a, Xor(b, c)) == Xor(Clmul(g, a, b), Clmul(g, a, c))
  {
    hide Xor, Times2;
    if a != 0 {
      Times2Linear(g, b, c);
      Times2In(g, b);
      Times2In(g, c);
      var b2, c2 := Times2(g, b), Times2(g, c);
      ClmulLinear(g, a / 2, b2, c2);
      XorSwap(b, Clmul(g, a / 2, b2), c, Clmul(g, a / 2, c2));
      XorZero(Clmul(g, a / 2, b2));
      XorZero(Clmul(g, a / 2, c2));
      XorZero(Clmul(g, a / 2, Xor(b2, c2)));
    } else {
      XorZero(0);
    }
  }

  lemma {:induction false} ClmulTimes2(g: Gf, a: nat, b: nat)
    requires g.mm >= 1 && In(g, b)
    ensures Clmul(g, a, Times2(g, b)) == Times2(g, Clmul(g, a, b))
  {
    hide Xor, Times2;
    if a == 0 {
      Times2Zero(g);
    } else {
      Times2Zero(g);
      var b2 := Times2(g, b);
      Times2In(g, b);
      ClmulTimes2(g, a / 2, b2);
      ClmulIn(g, a / 2, b2);
      var h := if a % 2 == 1 then b else 0;
      Times2Linear(g, h, Clmul(g, a / 2, b2));
    }
  }

  lemma ClmulOne(g: Gf, p: nat)
    ensures Clmul(g, 1, p) == p
  {
    hide Xor, Times2;
    XorZero(p);
  }

  lemma {:induction false} ClmulPow2(g: Gf, a: nat, k: nat)
    requires a * Pow2(k) < Size(g) && Pow2(k) < Size(g)
    ensures Clmul(g, a, Pow2(k)) == a * Pow2(k)
    decreases a
  {
    hide Xor;
    var p := Pow2(k);
    if a == 1 {
      ClmulOne(g, p);
    } else if a != 0 {
      HalfTimesTwice(a, p);
      LowId(2 * p, g.mm);
      assert Times2(g, p) == Pow2(k + 1);
      hide Times2;
      ClmulPow2(g, a / 2, k + 1);
      var low := if a % 2 == 1 then p else 0;
      XorDisjoint(a / 2, low, k + 1);
      XorComm(low, (a / 2) * (2 * p));
    }
  }

  lemma HalfTimesTwice(a: nat, p: nat)
    requires a >= 2
    ensures (a / 2) * (2 * p) + (if a % 2 == 1 then p else 0) == a * p
    ensures 2 * p <= (a / 2) * (2 * p) <= a * p
  {
    var h := a / 2;
    assert a == 2 * h + a % 2;
    assert a * p == (2 * h) * p + (a % 2) * p;
    assert h * (2 * p) == (2 * h) * p;
    MulAtLeast(h, 2 * p);
  }

  lemma {:induction false} ClmulExp(g: Gf, a: nat, j: nat)
    requires g.mm >= 1 && In(g, a)
    ensures Clmul(g, a, Exp(g, j)) == Iter(g, j, a)
  {
    assert Pow2(1) == 2 * Pow2(0);
    Pow2Mono(1, g.mm);
    if j == 0 {
      ClmulPow2(g, a, 0);
    } else {
      ClmulExp(g, a, j - 1);
      IterIn(g, j - 1, 1);
      ClmulTimes2(g, a, Exp(g, j - 1));
    }
  }

  // ----- Consequences of primitivity -----

  lemma OneIn(g: Gf)
    requires g.mm >= 1
    ensures In(g, 1)
  {
    assert Pow2(1) == 2 * Pow2(0);
    Pow2Mono(1, g.mm);
  }

  lemma ExpOne(g: Gf)
    ensures Exp(g, 0) == 1
  {
  }

  lemma ExpIn(g: Field, i: nat)
    ensures In(g, Exp(g, i))
  {
    OneIn(g);
    IterIn(g, i, 1);
  }

  lemma Times2Parity(g: Gf, x: nat)
    requires g.mm >= 1
    ensures Times2(g, x) % 2 == (if 2 * x >= Size(g) then g.poly % 2 else 0)
  {
    hide Xor;
    XorStep(2 * x, g.poly);
  }

  lemma Times2Kernel(g: Field, x: nat)
    requires In(g, x) && Times2(g, x) == 0
    ensures x == 0
  {
    var nn := Size(g) - 1;
    OneIn(g);
    assert Exp(g, nn) == Times2(g, Exp(g, nn - 1));
    Times2Parity(g, Exp(g, nn - 1));
    Times2Parity(g, x);
    if 2 * x < Size(g) {
      LowId(2 * x, g.mm);
    }
  }

  lemma {:induction false} IterKernel(g: Field, k: nat, x: nat)
    requires In(g, x) && Iter(g, k, x) == 0
    ensures x == 0
  {
    if k > 0 {
      IterIn(g, k - 1, x);
      Times2Kernel(g, Iter(g, k - 1, x));
      IterKernel(g, k - 1, x);
    }
  }

  lemma IterInjective(g: Field, k: nat, x: nat, y: nat)
    requires In(g, x) && In(g, y) && Iter(g, k, x) == Iter(g, k, y)
    ensures x == y
  {
    hide Xor, Times2, Iter;
    IterLinear(g, k, x, y);
    XorSelf(Iter(g, k, x));
    XorBound(x, y, g.mm);
    IterKernel(g, k, Xor(x, y));
    XorCancel(x, y);
  }

  lemma ExpNonzero(g: Field, i: nat)
    ensures Exp(g, i) != 0
  {
    hide Xor, Times2, Iter;
    OneIn(g);
    if Exp(g, i) == 0 {
      IterKernel(g, i, 1);
    }
  }

  lemma ExpInjective(g: Field, i: nat, j: nat)
    requires i < Size(g) - 1 && j < Size(g) - 1 && Exp(g, i) == Exp(g, j)
    ensures i == j
  {
    hide Xor, Times2, Iter;
    var lo, hi := if i <= j then i else j, if i <= j then j else i;
    IterAdd(g, lo, hi - lo, 1);
    OneIn(g);
    ExpIn(g, hi - lo);
    IterInjective(g, lo, Exp(g, hi - lo), 1);
    assert Returns(g, hi - lo);
  }

  lemma {:induction false} ExpPeriod(g: Field, i: nat, t: nat)
    ensures Exp(g, i + t * (Size(g) - 1)) == Exp(g, i)
  {
    hide Xor, Times2;
    var nn := Size(g) - 1;
    if t > 0 {
      ExpPeriod(g, i, t - 1);
      var k := i + (t - 1) * nn;
      assert i + t * nn == k + nn;
      IterAdd(g, k, nn, 1);
    }
  }

  lemma ExpMod(g: Field, i: nat)
    requires Size(g) > 1
    ensures Exp(g, i % (Size(g) - 1)) == Exp(g, i)
  {
    hide Xor, Times2, Iter;
    var nn := Size(g) - 1;
    ExpPeriod(g, i % nn, i / nn);
    assert i == i % nn + (i / nn) * nn;
  }

  // ----- Every nonzero symbol is a power of alpha -----

  ghost function Powers(g: Gf, n: nat): set<nat> {
    set i | 0 <= i < n :: Exp(g, i)
  }

  ghost function Symbols(n: nat): (s: set<nat>)
    ensures |s| == n
    ensures forall x: nat :: x in s <==> 1 <= x <= n
  {
    if n == 0 then {} else Symbols(n - 1) + {n}
  }

  lemma NewPower(g: Field, n: nat)
    requires n < Size(g) - 1
    ensures Powers(g, n + 1) == Powers(g, n) + {Exp(g, n)} && Exp(g, n) !in Powers(g, n)
    ensures Exp(g, n) in Symbols(Size(g) - 1)
  {
    hide Exp, Symbols;
    ExpIn(g, n);
    ExpNonzero(g, n);
    if Exp(g, n) in Powers(g, n) {
      var i :| 0 <= i < n && Exp(g, i) == Exp(g, n);
      ExpInjective(g, i, n);
    }
  }

  lemma {:induction false} PowersSize(g: Field, n: nat)
    requires n <= Size(g) - 1
    ensures |Powers(g, n)| == n && Powers(g, n) <= Symbols(Size(g) - 1)
  {
    hide Exp, Symbols;
    if n > 0 {
      hide Powers;
      PowersSize(g, n - 1);
      NewPower(g, n - 1);
    } else {
      assert Powers(g, 0) == {};
    }
  }

  lemma LogExists(g: Field, x: nat)
    requires In(g, x) && x != 0
    ensures exists i :: 0 <= i < Size(g) - 1 && Exp(g, i) == x
  {
    var nn := Size(g) - 1;
    PowersSize(g, nn);
    SubsetSize(Powers(g, nn), Symbols(nn));
    assert x in Symbols(nn);
  }

  ghost function Log(g: Field, x: nat): (i: nat)
    requires In(g, x) && x != 0
    ensures i < Size(g) - 1 && Exp(g, i) == x
  {
    LogExists(g, x);
    var i :| 0 <= i < Size(g) - 1 && Exp(g, i) == x;
    i
  }

  // ----- The field laws -----

  lemma MulIn(g: Gf, a: nat, b: nat)
    ensures In(g, Mul(g, a, b))
  {
    hide Xor, Clmul;
    LowBound(b, g.mm);
    ClmulIn(g, Low(a, g.mm), Low(b, g.mm));
  }

  lemma MulZero(g: Gf, a: nat)
    ensures Mul(g, a, 0) == 0 == Mul(g, 0, a)
  {
    LowId(0, g.mm);
    ClmulZero(g, Low(a, g.mm));
  }

  lemma MulExp(g: Field, i: nat, j: nat)
    ensures Mul(g, Exp(g, i), Exp(g, j)) == Exp(g, i + j)
  {
    hide Xor, Times2, Clmul;
    ExpIn(g, i);
    ExpIn(g, j);
    LowId(Exp(g, i), g.mm);
    LowId(Exp(g, j), g.mm);
    ClmulExp(g, Exp(g, i), j);
    IterAdd(g, j, i, 1);
  }

  lemma MulLow(g: Gf, a: nat, b: nat)
    ensures Mul(g, a, b) == Mul(g, Low(a, g.mm), Low(b, g.mm))
  {
    hide Xor, Times2, Clmul, Low;
    LowBound(a, g.mm);
    LowBound(b, g.mm);
    LowId(Low(a, g.mm), g.mm);
    LowId(Low(b, g.mm), g.mm);
  }

  lemma MulComm(g: Field, a: nat, b: nat)
    ensures Mul(g, a, b) == Mul(g, b, a)
  {
    hide Xor, Mul;
    var a', b' := Low(a, g.mm), Low(b, g.mm);
    MulLow(g, a, b);
    MulLow(g, b, a);
    LowBound(a, g.mm);
    LowBound(b, g.mm);
    MulZero(g, a');
    MulZero(g, b');
    if a' != 0 && b' != 0 {
      MulExp(g, Log(g, a'), Log(g, b'));
      MulExp(g, Log(g, b'), Log(g, a'));
    }
  }

  lemma MulDistrib(g: Field, a: nat, b: nat, c: nat)
    ensures Mul(g, a, Xor(b, c)) == Xor(Mul(g, a, b), Mul(g, a, c))
    ensures Mul(g, Xor(b, c), a) == Xor(Mul(g, b, a), Mul(g, c, a))
  {
    hide Xor, Clmul, Low;
    LowBound(b, g.mm);
    LowBound(c, g.mm);
    XorLowHigh(b, c, g.mm);
    ClmulLinear(g, Low(a, g.mm), Low(b, g.mm), Low(c, g.mm));
    MulComm(g, a, b);
    MulComm(g, a, c);
    MulComm(g, a, Xor(b, c));
  }

  lemma MulAssocIn(g: Field, a: nat, b: nat, c: nat)
    requires In(g, a) && In(g, b) && In(g, c)
    ensures Mul(g, Mul(g, a, b), c) == Mul(g, a, Mul(g, b, c))
  {
    hide Xor, Mul;
    MulZero(g, a);
    MulZero(g, b);
    MulZero(g, c);
    MulZero(g, Mul(g, a, b));
    MulZero(g, Mul(g, b, c));
    if a != 0 && b != 0 && c != 0 {
      var i, j, k := Log(g, a), Log(g, b), Log(g, c);
      MulExp(g, i, j);
      MulExp(g, j, k);
      MulExp(g, i + j, k);
      MulExp(g, i, j + k);
    }
  }

  lemma MulAssoc(g: Field, a: nat, b: nat, c: nat)
    ensures Mul(g, Mul(g, a, b), c) == Mul(g, a, Mul(g, b, c))
  {
    hide Xor, Mul;
    var m := g.mm;
    LowBound(a, m);
    LowBound(b, m);
    LowBound(c, m);
    MulIn(g, a, b);
    MulIn(g, b, c);
    LowId(Mul(g, a, b), m);
    LowId(Mul(g, b, c), m);
    MulLow(g, a, b);
    MulLow(g, b, c);
    MulLow(g, Mul(g, a, b), c);
    MulLow(g, a, Mul(g, b, c));
    MulAssocIn(g, Low(a, m), Low(b, m), Low(c, m));
  }

  lemma MulOne(g: Field, a: nat)
    requires In(g, a)
    ensures Mul(g, a, 1) == a == Mul(g, 1, a)
  {
    hide Xor, Clmul;
    OneIn(g);
    LowId(a, g.mm);
    LowId(1, g.mm);
    ClmulExp(g, a, 0);
    MulComm(g, a, 1);
  }

  ghost function Inv(g: Field, a: nat): (b: nat)
    requires In(g, a) && a != 0
    ensures In(g, b) && b != 0 && Mul(g, a, b) == 1 == Mul(g, b, a)
  {
    var i := Log(g, a);
    var b := Exp(g, Size(g) - 1 - i);
    MulExp(g, i, Size(g) - 1 - i);
    MulComm(g, a, b);
    ExpIn(g, Size(g) - 1 - i);
    ExpNonzero(g, Size(g) - 1 - i);
    b
  }

  lemma MulNonzero(g: Field, a: nat, b: nat)
    requires In(g, a) && In(g, b)
    ensures Mul(g, a, b) == 0 <==> a == 0 || b == 0
  {
    hide Xor, Mul;
    MulZero(g, a);
    MulZero(g, b);
    if a != 0 && b != 0 && Mul(g, a, b) == 0 {
      MulAssoc(g, Inv(g, a), a, b);
      MulOne(g, b);
      MulZero(g, Inv(g, a));
    }
  }
}
