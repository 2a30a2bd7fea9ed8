/** The generator polynomial built by dump978/fec/init_rs.h: it is the product
    of the linear factors of the code's roots, and a block of any length has
    only zero syndromes exactly when the generator divides it. */
module Generator {
  import opened Bits
  import opened Galois
  import opened Sums
  import opened Poly
  import opened Massey
  import opened Locator
  import opened ReedSolomon
  import opened Decoding

  ghost function MulCoefficient(g: Gf, p: seq<nat>, r: nat, k: int): nat {
    Xor(At(p, k - 1), Mul(g, r, At(p, k)))
  }

  // (x + r) p, coefficients lowest degree first.
  ghost function MulLinear(g: Gf, p: seq<nat>, r: nat): (t: seq<nat>)
    ensures |t| == |p| + 1
    ensures forall k :: 0 <= k < |t| ==> t[k] == MulCoefficient(g, p, r, k)
  {
    seq(|p| + 1, k => MulCoefficient(g, p, r, k))
  }

  // p times the product of x + r over rs.
  ghost function MulRoots(g: Gf, p: seq<nat>, rs: seq<nat>): (t: seq<nat>)
    ensures |t| == |p| + |rs|
  {
    if rs == [] then p else MulLinear(g, MulRoots(g, p, rs[..|rs| - 1]), rs[|rs| - 1])
  }

  ghost function GeneratorRoots(c: Code): (rs: seq<nat>)
    ensures |rs| == c.nroots && forall i :: 0 <= i < c.nroots ==> rs[i] == GeneratorRoot(c, i)
  {
    seq(c.nroots, i requires 0 <= i < c.nroots => GeneratorRoot(c, i))
  }

  ghost function GeneratorRoot(c: Code, i: nat): nat {
    Exp(c.g, (c.fcr + i) * c.prim)
  }

  ghost function GeneratorPoly(c: Code): (p: seq<nat>)
    ensures |p| == c.nroots + 1
  {
    MulRoots(c.g, [1], GeneratorRoots(c))
  }

  lemma MulLinearIn(g: Field, p: seq<nat>, r: nat)
    requires AllIn(g, p)
    ensures AllIn(g, MulLinear(g, p, r))
  {
    hide Mul, Xor, MulLinear;
    var t := MulLinear(g, p, r);
    forall k | 0 <= k < |t| ensures In(g, t[k]) {
      assert Size(g) >= 1;
      MulIn(g, r, At(p, k));
      XorBound(At(p, k - 1), Mul(g, r, At(p, k)), g.mm);
    }
  }

  lemma {:induction false} MulRootsIn(g: Field, p: seq<nat>, rs: seq<nat>)
    requires AllIn(g, p)
    ensures AllIn(g, MulRoots(g, p, rs))
  {
    hide MulLinear;
    if rs != [] {
      MulRootsIn(g, p, rs[..|rs| - 1]);
      MulLinearIn(g, MulRoots(g, p, rs[..|rs| - 1]), rs[|rs| - 1]);
    }
  }

  // ----- Evaluation -----

  lemma {:induction false} EvalFront(g: Field, p: seq<nat>, x: nat, n: nat)
    requires |p| > 0 && In(g, p[0])
    ensures Eval(g, p, x, n + 1) == Xor(p[0], Mul(g, x, Eval(g, p[1..], x, n)))
  {
    hide Mul, Xor, EvalTerm;
    EvalTermAt(g, p, x, n);
    assert Eval(g, p, x, n + 1) == Xor(Eval(g, p, x, n), EvalTerm(g, p, x)(n));
    if n == 0 {
      MulZero(g, x);
      MulOne(g, p[0]);
      XorZero(p[0]);
    } else {
      EvalFront(g, p, x, n - 1);
      EvalTermAt(g, p[1..], x, n - 1);
      assert Eval(g, p[1..], x, n) == Xor(Eval(g, p[1..], x, n - 1), EvalTerm(g, p[1..], x)(n - 1));
      assert At(p, n) == At(p[1..], n - 1);
      var c, u, e := At(p, n), Power(g, x, n - 1), Eval(g, p[1..], x, n - 1);
      MulAssoc(g, c, x, u);
      MulComm(g, c, x);
      MulAssoc(g, x, c, u);
      MulDistrib(g, x, e, Mul(g, c, u));
      XorAssoc(p[0], Mul(g, x, e), Mul(g, x, Mul(g, c, u)));
    }
  }

  ghost function Value(g: Gf, p: seq<nat>, x: nat): nat {
    Eval(g, p, x, |p|)
  }

  lemma MulLinearParts(g: Field, p: seq<nat>, r: nat)
    requires |p| > 0
    ensures MulLinear(g, p, r) == AddScaled(g, Shift(p + [0]), r, p + [0])
  {
    hide Mul, Xor, MulLinear, Shift;
    ShiftAt(p + [0]);
    var a, t := p + [0], MulLinear(g, p, r);
    forall k | 0 <= k < |t| ensures t[k] == Xor(Shift(a)[k], Mul(g, r, a[k])) {
      assert At(p, k - 1) == Shift(a)[k] && At(p, k) == a[k];
    }
  }

  // (x + r) p takes the value (x + r) p(x).
  lemma MulLinearValue(g: Field, p: seq<nat>, r: nat, x: nat)
    requires AllIn(g, p)
    ensures Value(g, MulLinear(g, p, r), x) == Mul(g, Xor(x, r), Value(g, p, x))
  {
    hide Mul, Xor, Eval, MulLinear, AddScaled;
    var n := |p|;
    if n == 0 {
      MulZero(g, Xor(x, r));
      EmptyMulLinear(g, r, x);
    } else {
      var a := p + [0];
      var v := Eval(g, p, x, n);
      MulLinearParts(g, p, r);
      EvalAddScaled(g, Shift(a), r, a, x, n + 1);
      EvalShift(g, a, x, n);
      EvalEq(g, a, p, x, n);
      EvalTail(g, a, n, x, n + 1);
      MulDistrib(g, v, x, r);
    }
  }

  lemma EmptyMulLinear(g: Field, r: nat, x: nat)
    ensures Value(g, MulLinear(g, [], r), x) == 0 && Value(g, [], x) == 0
  {
    hide Mul, Xor, Power;
    MulZero(g, r);
    XorZero(0);
    MulZero(g, Power(g, x, 0));
    var t := MulLinear(g, [], r);
    assert t == [0];
    EvalTail(g, t, 0, x, 1);
    assert Eval(g, t, x, 0) == 0;
  }

  lemma {:induction false} MulRootsVanishes(g: Field, p: seq<nat>, rs: seq<nat>, i: nat)
    requires AllIn(g, p) && i < |rs|
    ensures Value(g, MulRoots(g, p, rs), rs[i]) == 0
  {
    hide Mul, Xor, Value, MulLinear;
    var n := |rs| - 1;
    var q := MulRoots(g, p, rs[..n]);
    MulRootsIn(g, p, rs[..n]);
    MulLinearValue(g, q, rs[n], rs[i]);
    if i == n {
      XorSelf(rs[i]);
      MulZero(g, Value(g, q, rs[i]));
    } else {
      MulRootsVanishes(g, p, rs[..n], i);
      MulZero(g, Xor(rs[i], rs[n]));
    }
  }

  lemma {:induction false} MulRootsElsewhere(g: Field, p: seq<nat>, rs: seq<nat>, x: nat)
    requires AllIn(g, p) && AllIn(g, rs) && In(g, x) && x !in rs && Value(g, p, x) != 0
    ensures Value(g, MulRoots(g, p, rs), x) != 0
  {
    hide Mul, Xor, Value, MulLinear;
    if rs != [] {
      var n := |rs| - 1;
      var q := MulRoots(g, p, rs[..n]);
      MulRootsIn(g, p, rs[..n]);
      MulLinearValue(g, q, rs[n], x);
      MulRootsElsewhere(g, p, rs[..n], x);
      XorBound(x, rs[n], g.mm);
      XorCancel(x, rs[n]);
      ValueIn(g, q, x);
      MulNonzero(g, Xor(x, rs[n]), Value(g, q, x));
    }
  }

  lemma ValueIn(g: Field, p: seq<nat>, x: nat)
    ensures In(g, Value(g, p, x))
  {
    hide Eval;
    EvalIn(g, p, x, |p|);
  }

  // ----- Division -----

  // Synthetic division of p by x + r.
  ghost function DivLinear(g: Gf, p: seq<nat>, r: nat): (q: seq<nat>)
    requires |p| > 0
    ensures |q| == |p| - 1 && forall k :: 0 <= k < |q| ==> q[k] == Value(g, p[k + 1..], r)
  {
    seq(|p| - 1, k requires 0 <= k < |p| - 1 => Value(g, p[k + 1..], r))
  }

  lemma ValueFront(g: Field, p: seq<nat>, x: nat)
    requires |p| > 0 && In(g, p[0])
    ensures Value(g, p, x) == Xor(p[0], Mul(g, x, Value(g, p[1..], x)))
  {
    hide Mul, Xor, Eval;
    EvalFront(g, p, x, |p| - 1);
  }

  lemma DivLinearExact(g: Field, p: seq<nat>, r: nat)
    requires |p| > 0 && AllIn(g, p) && Value(g, p, r) == 0
    ensures MulLinear(g, DivLinear(g, p, r), r) == p && AllIn(g, DivLinear(g, p, r))
  {
    hide Mul, Xor, Value;
    var q := DivLinear(g, p, r);
    var t := MulLinear(g, q, r);
    forall k | 0 <= k < |q| ensures In(g, q[k]) {
      ValueIn(g, p[k + 1..], r);
    }
    forall k | 0 <= k < |p| ensures t[k] == p[k] {
      var s := p[k..];
      ValueFront(g, s, r);
      assert s[1..] == p[k + 1..];
      if k + 1 == |p| {
        EmptyValue(g, s[1..], r);
      }
      var m := Mul(g, r, At(q, k));
      assert Value(g, s, r) == Xor(p[k], m);
      if k == 0 {
        assert s == p;
        XorCancel(p[0], m);
        XorZero(m);
      } else {
        XorCancel(p[k], m);
      }
    }
  }

  lemma EmptyValue(g: Gf, p: seq<nat>, x: nat)
    requires p == []
    ensures Value(g, p, x) == 0
  {
  }

  // A polynomial with all the roots is a multiple of their product.
  lemma {:induction false} DivideByRoots(g: Field, p: seq<nat>, rs: seq<nat>) returns (q: seq<nat>)
    requires AllIn(g, p) && AllIn(g, rs) && Distinct(rs) && |rs| <= |p|
    requires forall i :: 0 <= i < |rs| ==> Value(g, p, rs[i]) == 0
    ensures AllIn(g, q) && |q| == |p| - |rs| && MulRoots(g, q, rs) == p
    decreases |rs|
  {
    hide Mul, Xor, Value, MulLinear;
    if rs == [] {
      q := p;
    } else {
      var n := |rs| - 1;
      var p' := DivLinear(g, p, rs[n]);
      DivLinearExact(g, p, rs[n]);
      forall i | 0 <= i < n ensures Value(g, p', rs[i]) == 0 {
        MulLinearValue(g, p', rs[n], rs[i]);
        XorBound(rs[i], rs[n], g.mm);
        XorCancel(rs[i], rs[n]);
        ValueIn(g, p', rs[i]);
        MulNonzero(g, Xor(rs[i], rs[n]), Value(g, p', rs[i]));
      }
      q := DivideByRoots(g, p', rs[..n]);
    }
  }

  // ----- Multiples of the generator -----

  // The coefficients of the product of a and q, as far as n of them.
  ghost predicate IsProduct(g: Gf, p: seq<nat>, a: seq<nat>, q: seq<nat>) {
    forall k :: 0 <= k < |p| ==> p[k] == Conv(g, a, q, k)
  }

  lemma ConvPad(g: Field, a: seq<nat>, q: seq<nat>, k: int)
    ensures Conv(g, a + [0], q, k) == Conv(g, a, q, k)
  {
    hide Mul, Xor, ConvTerm;
    var f, h := ConvTerm(g, a + [0], q, k), ConvTerm(g, a, q, k);
    forall i: nat | i < |a| ensures f(i) == h(i) {
      ConvTermAt(g, a + [0], q, k, i);
      ConvTermAt(g, a, q, k, i);
    }
    SumEq(f, h, |a|);
    ConvTermAt(g, a + [0], q, k, |a|);
    MulZero(g, At(q, k - |a|));
    XorZero(Sum(f, |a|));
  }

  lemma ConvMulLinear(g: Field, a: seq<nat>, r: nat, q: seq<nat>, k: int)
    requires |a| > 0
    ensures Conv(g, MulLinear(g, a, r), q, k) == Xor(Conv(g, a, q, k - 1), Mul(g, r, Conv(g, a, q, k)))
  {
    hide Mul, Xor, Conv, MulLinear, AddScaled;
    MulLinearParts(g, a, r);
    ConvAddScaled(g, Shift(a + [0]), r, a + [0], q, k);
    ConvShift(g, a + [0], q, k);
    ConvPad(g, a, q, k);
    ConvPad(g, a, q, k - 1);
  }

  lemma ConvOutside(g: Field, a: seq<nat>, q: seq<nat>, k: int)
    requires |a| > 0 && (k < 0 || k > |a| + |q| - 2)
    ensures Conv(g, a, q, k) == 0
  {
    hide Mul, Xor, ConvTerm;
    forall i: nat | i < |a| ensures ConvTerm(g, a, q, k)(i) == 0 {
      ConvTermAt(g, a, q, k, i);
      MulZero(g, a[i]);
    }
    SumZero(ConvTerm(g, a, q, k), |a|);
  }

  // Multiplying q by the roots one at a time is multiplying it by their product.
  lemma {:induction false} MulRootsIsProduct(g: Field, q: seq<nat>, rs: seq<nat>)
    requires AllIn(g, q)
    ensures IsProduct(g, MulRoots(g, q, rs), MulRoots(g, [1], rs), q)
  {
    hide Mul, Xor, Conv, MulLinear;
    if rs == [] {
      forall k | 0 <= k < |q| ensures q[k] == Conv(g, [1], q, k) {
        ConvOne(g, q, k);
      }
    } else {
      var n := |rs| - 1;
      var a, p := MulRoots(g, [1], rs[..n]), MulRoots(g, q, rs[..n]);
      MulRootsIsProduct(g, q, rs[..n]);
      var t := MulLinear(g, p, rs[n]);
      forall k | 0 <= k < |t| ensures t[k] == Conv(g, MulLinear(g, a, rs[n]), q, k) {
        ConvMulLinear(g, a, rs[n], q, k);
        assert k > 0 ==> p[k - 1] == Conv(g, a, q, k - 1);
        assert k < |p| ==> p[k] == Conv(g, a, q, k);
        if k == 0 {
          ConvOutside(g, a, q, k - 1);
        }
        if k == |p| {
          ConvOutside(g, a, q, k);
        }
      }
    }
  }

  lemma ConvOne(g: Field, q: seq<nat>, k: nat)
    requires AllIn(g, q) && k < |q|
    ensures Conv(g, [1], q, k) == q[k]
  {
    hide Mul, Xor, ConvTerm;
    SumSingle(ConvTerm(g, [1], q, k), 0, 1);
    ConvTermAt(g, [1], q, k, 0);
    MulOne(g, q[k]);
  }

  // ----- Blocks, highest degree first -----

  ghost function Reverse(p: seq<nat>): (r: seq<nat>)
    ensures |r| == |p| && forall i :: 0 <= i < |p| ==> r[i] == p[|p| - 1 - i]
  {
    seq(|p|, i requires 0 <= i < |p| => p[|p| - 1 - i])
  }

  lemma {:induction false} HornerIsValue(g: Field, blk: seq<nat>, x: nat)
    requires AllIn(g, blk)
    ensures Horner(g, blk, x) == Value(g, Reverse(blk), x)
  {
    hide Mul, Xor, Value;
    if blk == [] {
      EmptyValue(g, Reverse(blk), x);
    } else {
      var n := |blk| - 1;
      HornerIsValue(g, blk[..n], x);
      ValueFront(g, Reverse(blk), x);
      assert Reverse(blk)[1..] == Reverse(blk[..n]);
    }
  }

  lemma GeneratorRootsDistinct(c: Code)
    requires ValidCode(c)
    ensures Distinct(GeneratorRoots(c)) && AllIn(c.g, GeneratorRoots(c))
  {
    hide Exp;
    var g: Field := c.g;
    var rs := GeneratorRoots(c);
    forall i | 0 <= i < |rs| ensures In(g, rs[i]) {
      ExpIn(g, (c.fcr + i) * c.prim);
    }
    forall i, j | 0 <= i < j < |rs| ensures rs[i] != rs[j] {
      if rs[i] == rs[j] {
        GeneratorRootInjective(c, i, j);
        assert false;
      }
    }
  }

  lemma RootExponentSwaps(c: Code, i: nat)
    ensures GeneratorRoot(c, i) == Exp(c.g, c.prim * (c.fcr + i))
  {
    assert (c.fcr + i) * c.prim == c.prim * (c.fcr + i);
  }

  lemma GeneratorRootInjective(c: Code, i: nat, j: nat)
    requires ValidCode(c) && i <= j < Nn(c)
    requires GeneratorRoot(c, i) == GeneratorRoot(c, j)
    ensures i == j
  {
    hide Exp, Mul, Power;
    var g: Field := c.g;
    RootExponentSwaps(c, i);
    RootExponentSwaps(c, j);
    UndoPrim(c, c.fcr + i);
    UndoPrim(c, c.fcr + j);
    hide GeneratorRoot, ValidCode;
    var a, d := Exp(g, c.fcr + i), j - i;
    MulExp(g, c.fcr + i, d);
    ExpIn(g, c.fcr + i);
    ExpNonzero(g, c.fcr + i);
    ExpIn(g, d);
    OneIn(g);
    MulOne(g, a);
    CancelFactor(g, a, Exp(g, d), 1);
    assert Returns(g, d);
  }

  // A block, of any length, is a multiple of the generator polynomial.
  ghost predicate IsMultiple(c: Code, blk: seq<nat>) {
    exists q :: AllIn(c.g, q) && |q| == (if |blk| >= c.nroots then |blk| - c.nroots else 0)
      && IsProduct(c.g, Reverse(blk), GeneratorPoly(c), q)
  }

  lemma MultipleVanishes(c: Code, blk: seq<nat>, i: nat)
    requires ValidCode(c) && AllIn(c.g, blk) && IsMultiple(c, blk) && i < c.nroots
    ensures Syndrome(c, blk, i) == 0
  {
    hide Mul, Xor, Value, Conv, GeneratorRoot, MulRoots, Horner;
    var g: Field := c.g;
    var rs, p := GeneratorRoots(c), Reverse(blk);
    var q :| AllIn(g, q) && |q| == (if |blk| >= c.nroots then |blk| - c.nroots else 0)
      && IsProduct(g, p, GeneratorPoly(c), q);
    HornerIsValue(g, blk, GeneratorRoot(c, i));
    SyndromeAtRoot(c, blk, i);
    if |blk| >= c.nroots {
      MulRootsIsProduct(g, q, rs);
      assert p == MulRoots(g, q, rs);
      MulRootsVanishes(g, q, rs, i);
    } else {
      forall k | 0 <= k < |p| ensures At(p, k) == 0 {
        ConvEmpty(g, GeneratorPoly(c), k);
      }
      ZeroValue(g, p, GeneratorRoot(c, i));
    }
  }

  lemma SyndromeAtRoot(c: Code, blk: seq<nat>, i: nat)
    ensures Syndrome(c, blk, i) == Horner(c.g, blk, GeneratorRoot(c, i))
  {
  }

  lemma ConvEmpty(g: Field, a: seq<nat>, k: int)
    ensures Conv(g, a, [], k) == 0
  {
    hide Mul, Xor, ConvTerm;
    forall i: nat | i < |a| ensures ConvTerm(g, a, [], k)(i) == 0 {
      ConvTermAt(g, a, [], k, i);
      MulZero(g, a[i]);
    }
    SumZero(ConvTerm(g, a, [], k), |a|);
  }

  lemma ZeroValue(g: Field, p: seq<nat>, x: nat)
    requires forall k :: 0 <= k < |p| ==> At(p, k) == 0
    ensures Value(g, p, x) == 0
  {
    hide Eval, Mul;
    EvalTail(g, p, 0, x, |p|);
    ZeroTerms(g, p, x);
  }

  lemma ZeroTerms(g: Gf, p: seq<nat>, x: nat)
    ensures Eval(g, p, x, 0) == 0
  {
  }

  // All syndromes of a block vanish exactly when the generator divides it.
  lemma SyndromesZeroIffMultiple(c: Code, blk: seq<nat>)
    requires ValidCode(c) && AllIn(c.g, blk)
    ensures AllZero(Syndromes(c, blk)) <==> IsMultiple(c, blk)
  {
    hide Mul, Xor, Value, Conv, GeneratorRoot, MulRoots, Horner, Syndrome;
    var g: Field := c.g;
    var rs, p := GeneratorRoots(c), Reverse(blk);
    if IsMultiple(c, blk) {
      forall i | 0 <= i < c.nroots ensures Syndromes(c, blk)[i] == 0 {
        MultipleVanishes(c, blk, i);
      }
    }
    if AllZero(Syndromes(c, blk)) {
      GeneratorRootsDistinct(c);
      forall i | 0 <= i < |rs| ensures Value(g, p, rs[i]) == 0 {
        assert Syndromes(c, blk)[i] == 0;
        SyndromeAtRoot(c, blk, i);
        HornerIsValue(g, blk, GeneratorRoot(c, i));
      }
      if |blk| >= c.nroots {
        var q := DivideByRoots(g, p, rs);
        MulRootsIsProduct(g, q, rs);
        assert IsProduct(g, p, GeneratorPoly(c), q);
      } else {
        GeneratorRootsNonzero(c);
        ShortMultiple(g, p, rs);
        forall k | 0 <= k < |p| ensures p[k] == Conv(g, GeneratorPoly(c), [], k) {
          ConvEmpty(g, GeneratorPoly(c), k);
        }
        assert AllIn(g, []) && IsProduct(g, p, GeneratorPoly(c), []);
      }
    }
  }

  lemma GeneratorRootsNonzero(c: Code)
    requires ValidCode(c)
    ensures forall i :: 0 <= i < c.nroots ==> GeneratorRoots(c)[i] != 0
  {
    hide Exp;
    forall i | 0 <= i < c.nroots ensures GeneratorRoots(c)[i] != 0 {
      ExpNonzero(c.g, (c.fcr + i) * c.prim);
    }
  }

  lemma ShortMultiple(g: Field, p: seq<nat>, rs: seq<nat>)
    requires AllIn(g, p) && AllIn(g, rs) && Distinct(rs) && |p| < |rs|
    requires forall i :: 0 <= i < |rs| ==> rs[i] != 0 && Value(g, p, rs[i]) == 0
    ensures forall k :: 0 <= k < |p| ==> p[k] == 0
  {
    hide Eval;
    TooManyRoots(g, p, rs);
  }
}
