/** Polynomials over the symbol field, as sequences of coefficients. */
module Poly {
  import opened Bits
  import opened Galois
  import opened Sums

  function At(p: seq<nat>, i: int): nat {
    if 0 <= i < |p| then p[i] else 0
  }

  ghost predicate AllIn(g: Gf, p: seq<nat>) {
    forall i :: 0 <= i < |p| ==> In(g, p[i])
  }

  ghost predicate Distinct(xs: seq<nat>) {
    forall i, j :: 0 <= i < j < |xs| ==> xs[i] != xs[j]
  }

  function Power(g: Gf, x: nat, k: nat): nat {
    if k == 0 then 1 else Mul(g, x, Power(g, x, k - 1))
  }

  ghost function EvalTerm(g: Gf, p: seq<nat>, x: nat): nat -> nat {
    (i: nat) => Mul(g, At(p, i), Power(g, x, i))
  }

  // The first n terms of p(x), lowest degree first.
  ghost function Eval(g: Gf, p: seq<nat>, x: nat, n: nat): nat {
    Sum(EvalTerm(g, p, x), n)
  }

  // p(x) by Horner's rule, highest degree first.
  function Horner(g: Gf, p: seq<nat>, x: nat): nat {
    if p == [] then 0
    else Xor(p[|p| - 1], Mul(g, x, Horner(g, p[..|p| - 1], x)))
  }

  // ----- Powers -----

  lemma PowerIn(g: Field, x: nat, k: nat)
    ensures In(g, Power(g, x, k))
  {
    OneIn(g);
    if k > 0 {
      MulIn(g, x, Power(g, x, k - 1));
    }
  }

  lemma {:induction false} PowerNonzero(g: Field, x: nat, k: nat)
    requires In(g, x) && x != 0
    ensures Power(g, x, k) != 0
  {
    if k > 0 {
      PowerNonzero(g, x, k - 1);
      PowerIn(g, x, k - 1);
      MulNonzero(g, x, Power(g, x, k - 1));
    }
  }

  lemma {:induction false} PowerAdd(g: Field, x: nat, i: nat, j: nat)
    ensures Power(g, x, i + j) == Mul(g, Power(g, x, i), Power(g, x, j))
  {
    if i == 0 {
      PowerIn(g, x, j);
      MulOne(g, Power(g, x, j));
    } else {
      PowerAdd(g, x, i - 1, j);
      MulAssoc(g, x, Power(g, x, i - 1), Power(g, x, j));
    }
  }

  lemma {:induction false} PowerExp(g: Field, i: nat, k: nat)
    ensures Power(g, Exp(g, i), k) == Exp(g, i * k)
  {
    if k > 0 {
      hide Mul, Exp;
      PowerExp(g, i, k - 1);
      MulExp(g, i, i * (k - 1));
      OneTimesMore(i, k);
    }
  }

  lemma OneTimesMore(i: nat, k: nat)
    requires k > 0
    ensures i + i * (k - 1) == i * k
  {
  }

  // Powers of mutually inverse elements cancel.
  lemma {:induction false} PowerCancel(g: Field, x: nat, r: nat, k: nat)
    requires Mul(g, x, r) == 1
    ensures Mul(g, Power(g, x, k), Power(g, r, k)) == 1
  {
    OneIn(g);
    if k == 0 {
      MulOne(g, 1);
    } else {
      var a, b := Power(g, x, k - 1), Power(g, r, k - 1);
      PowerCancel(g, x, r, k - 1);
      MulSwap(g, x, a, r, b);
      MulOne(g, 1);
    }
  }

  lemma MulSwap(g: Field, a: nat, b: nat, c: nat, d: nat)
    ensures Mul(g, Mul(g, a, b), Mul(g, c, d)) == Mul(g, Mul(g, a, c), Mul(g, b, d))
  {
    MulAssoc(g, a, b, Mul(g, c, d));
    MulAssoc(g, b, c, d);
    MulComm(g, b, c);
    MulAssoc(g, c, b, d);
    MulAssoc(g, a, c, Mul(g, b, d));
  }

  // ----- Division by a linear factor -----

  // q is the quotient of p by 1 + x*X, computed from the constant term up.
  ghost predicate IsQuotient(g: Gf, p: seq<nat>, q: seq<nat>, x: nat) {
    |q| == |p| && forall i :: 0 <= i < |p| ==> q[i] == Xor(p[i], Mul(g, x, At(q, i - 1)))
  }

  ghost function Quotient(g: Gf, p: seq<nat>, x: nat): (q: seq<nat>)
    ensures IsQuotient(g, p, q, x)
  {
    if p == [] then []
    else
      var n := |p| - 1;
      var q := Quotient(g, p[..n], x);
      q + [Xor(p[n], Mul(g, x, At(q, n - 1)))]
  }

  lemma {:induction false} QuotientIn(g: Field, p: seq<nat>, q: seq<nat>, x: nat)
    requires AllIn(g, p) && IsQuotient(g, p, q, x)
    ensures AllIn(g, q)
  {
    forall i | 0 <= i < |q| ensures In(g, q[i]) {
      MulIn(g, x, At(q, i - 1));
      XorBound(p[i], Mul(g, x, At(q, i - 1)), g.mm);
    }
  }

  // Each quotient coefficient is a scaled partial evaluation at the inverse of x.
  lemma {:induction false} QuotientAt(g: Field, p: seq<nat>, q: seq<nat>, x: nat, r: nat, i: nat)
    requires AllIn(g, p) && IsQuotient(g, p, q, x) && Mul(g, x, r) == 1 && i < |p|
    ensures q[i] == Mul(g, Power(g, x, i), Eval(g, p, r, i + 1))
  {
    hide Mul, Xor;
    var e, u := Eval(g, p, r, i), Power(g, x, i);
    MulDistrib(g, u, e, Mul(g, p[i], Power(g, r, i)));
    MulComm(g, p[i], Power(g, r, i));
    MulAssoc(g, u, Power(g, r, i), p[i]);
    PowerCancel(g, x, r, i);
    MulOne(g, p[i]);
    if i == 0 {
      MulZero(g, x);
      MulZero(g, u);
      XorZero(p[i]);
    } else {
      QuotientAt(g, p, q, x, r, i - 1);
      MulAssoc(g, x, Power(g, x, i - 1), e);
      XorComm(p[i], Mul(g, u, e));
    }
  }

  // p(y) = (1 + x*y) q(y), up to the remainder left in the last coefficient.
  lemma {:induction false} QuotientIdentity(g: Field, p: seq<nat>, q: seq<nat>, x: nat, y: nat, n: nat)
    requires AllIn(g, p) && IsQuotient(g, p, q, x) && n <= |p|
    ensures Xor(Eval(g, p, y, n), Mul(g, Mul(g, x, Power(g, y, n)), At(q, n - 1)))
         == Mul(g, Xor(1, Mul(g, x, y)), Eval(g, q, y, n))
  {
    hide Mul, Xor;
    var f := Xor(1, Mul(g, x, y));
    if n == 0 {
      MulZero(g, f);
      MulZero(g, Mul(g, x, Power(g, y, 0)));
      XorZero(0);
    } else {
      var k := n - 1;
      var yk, qk, qp := Power(g, y, k), q[k], At(q, k - 1);
      QuotientIdentity(g, p, q, x, y, k);
      QuotientIn(g, p, q, x);
      var ek, xq := Eval(g, p, y, k), Mul(g, x, qp);
      // the right-hand side grows by f * (q_k y^k) = q_k y^k + x y^n q_k
      MulDistrib(g, f, Eval(g, q, y, k), Mul(g, qk, yk));
      MulDistrib(g, Mul(g, qk, yk), 1, Mul(g, x, y));
      MulIn(g, qk, yk);
      MulOne(g, Mul(g, qk, yk));
      MulSwap(g, x, y, qk, yk);
      MulSwap(g, x, qk, y, yk);
      MulSwap(g, x, Power(g, y, n), qk, 1);
      LastFactor(g, x, y, qk, yk);
      // and q_k y^k is p_k y^k plus the previous remainder
      MulDistrib(g, yk, p[k], xq);
      MulComm(g, yk, p[k]);
      MulComm(g, yk, xq);
      MulComm(g, yk, qk);
      MulAssoc(g, x, qp, yk);
      MulComm(g, qp, yk);
      MulAssoc(g, x, yk, qp);
      var rem, top, pk := Mul(g, Mul(g, x, yk), qp), Mul(g, Mul(g, x, Power(g, y, n)), qk), Mul(g, p[k], yk);
      assert Mul(g, qk, yk) == Xor(pk, rem);
      assert Mul(g, f, Mul(g, qk, yk)) == Xor(Xor(pk, rem), top);
      Regroup(ek, rem, pk, top);
    }
  }

  lemma LastFactor(g: Field, x: nat, y: nat, q: nat, u: nat)
    ensures Mul(g, Mul(g, x, y), Mul(g, q, u)) == Mul(g, Mul(g, x, Mul(g, y, u)), q)
  {
    MulComm(g, q, u);
    MulSwap(g, x, y, u, q);
    MulSwap(g, x, u, y, q);
    MulAssoc(g, Mul(g, x, y), u, q);
    MulAssoc(g, x, y, u);
  }

  lemma Regroup(e: nat, r: nat, p: nat, t: nat)
    ensures Xor(Xor(e, r), Xor(Xor(p, r), t)) == Xor(Xor(e, p), t)
  {
    XorAssoc(Xor(e, r), Xor(p, r), t);
    XorSwap(e, r, p, r);
    XorSelf(r);
    XorZero(Xor(e, p));
  }

  lemma EvalEq(g: Field, p: seq<nat>, q: seq<nat>, x: nat, n: nat)
    requires forall i :: 0 <= i < n ==> At(p, i) == At(q, i)
    ensures Eval(g, p, x, n) == Eval(g, q, x, n)
  {
    hide Mul, Power;
    SumEq(EvalTerm(g, p, x), EvalTerm(g, q, x), n);
  }

  lemma EvalIn(g: Field, p: seq<nat>, x: nat, n: nat)
    ensures In(g, Eval(g, p, x, n))
  {
    hide Mul, Power;
    forall i: nat | i < n ensures In(g, EvalTerm(g, p, x)(i)) {
      MulIn(g, At(p, i), Power(g, x, i));
    }
    SumIn(g, EvalTerm(g, p, x), n);
  }

  // A nonzero polynomial has fewer nonzero roots than coefficients.
  lemma {:induction false} TooManyRoots(g: Field, p: seq<nat>, rs: seq<nat>)
    requires AllIn(g, p) && AllIn(g, rs) && Distinct(rs) && |rs| >= |p|
    requires forall k :: 0 <= k < |rs| ==> rs[k] != 0 && Eval(g, p, rs[k], |p|) == 0
    ensures forall i :: 0 <= i < |p| ==> p[i] == 0
    decreases |p|
  {
    hide Mul, Xor, Eval, Power;
    if |p| > 0 {
      var n := |p|;
      var r := rs[0];
      var x := Inv(g, r);
      var q := Quotient(g, p, x);
      QuotientIn(g, p, q, x);
      QuotientAt(g, p, q, x, r, n - 1);
      MulZero(g, Power(g, x, n - 1));
      assert q[n - 1] == 0;
      forall k | 1 <= k < |rs| ensures Eval(g, q[..n - 1], rs[k], n - 1) == 0 {
        QuotientRoot(g, p, q, x, r, rs[k]);
      }
      TooManyRoots(g, q[..n - 1], rs[1..]);
      forall i | 0 <= i < n ensures p[i] == 0 {
        assert q[i] == 0 by {
          if i < n - 1 {
            assert q[i] == q[..n - 1][i];
          }
        }
        assert At(q, i - 1) == 0 by {
          if i > 0 && i - 1 < n - 1 {
            assert q[i - 1] == q[..n - 1][i - 1];
          }
        }
        MulZero(g, x);
        XorZero(p[i]);
      }
    }
  }

  // 1 + x*y vanishes only at the inverse of x.
  lemma FactorNonzero(g: Field, x: nat, r: nat, y: nat)
    requires In(g, x) && In(g, r) && Mul(g, x, r) == 1 && In(g, y) && y != r
    ensures Xor(1, Mul(g, x, y)) != 0 && In(g, Xor(1, Mul(g, x, y)))
  {
    hide Mul, Xor;
    OneIn(g);
    MulIn(g, x, y);
    XorBound(1, Mul(g, x, y), g.mm);
    XorCancel(1, Mul(g, x, y));
    MulZero(g, r);
    if Mul(g, x, y) == 1 {
      CancelFactor(g, x, r, y);
    }
  }

  // The other roots of p are roots of its quotient by the factor of one root.
  lemma QuotientRoot(g: Field, p: seq<nat>, q: seq<nat>, x: nat, r: nat, y: nat)
    requires AllIn(g, p) && IsQuotient(g, p, q, x) && |p| > 0 && q[|p| - 1] == 0
    requires In(g, x) && In(g, r) && Mul(g, x, r) == 1 && In(g, y) && y != r
    requires Eval(g, p, y, |p|) == 0
    ensures Eval(g, q[..|p| - 1], y, |p| - 1) == 0
  {
    hide Mul, Xor, Power;
    var n := |p|;
    QuotientIdentity(g, p, q, x, y, n);
    MulZero(g, Mul(g, x, Power(g, y, n)));
    XorZero(0);
    FactorNonzero(g, x, r, y);
    EvalIn(g, q, y, n);
    MulNonzero(g, Xor(1, Mul(g, x, y)), Eval(g, q, y, n));
    LastCoefficientZero(g, q, y, n - 1);
  }

  lemma LastCoefficientZero(g: Field, q: seq<nat>, y: nat, n: nat)
    requires n < |q| && q[n] == 0
    ensures Eval(g, q, y, n + 1) == Eval(g, q[..n], y, n)
  {
    hide Mul, Xor, Power;
    MulZero(g, Power(g, y, n));
    XorZero(Eval(g, q, y, n));
    EvalEq(g, q, q[..n], y, n);
  }

  lemma CancelFactor(g: Field, x: nat, a: nat, b: nat)
    requires In(g, x) && In(g, a) && In(g, b) && x != 0 && Mul(g, x, a) == Mul(g, x, b)
    ensures a == b
  {
    hide Mul, Xor;
    MulDistrib(g, x, a, b);
    XorSelf(Mul(g, x, a));
    XorBound(a, b, g.mm);
    MulNonzero(g, x, Xor(a, b));
    XorCancel(a, b);
  }

  // ----- The formal derivative at a root -----

  // p'(r) in characteristic 2: the odd coefficients, each one degree lower.
  ghost function Derivative(g: Gf, p: seq<nat>, r: nat, t: nat): nat {
    if t == 0 then 0
    else Xor(Derivative(g, p, r, t - 1), Mul(g, At(p, 2 * t - 1), Power(g, r, 2 * t - 2)))
  }

  // p'(r) = x q(r) when p = (1 + x*X) q and x*r = 1.
  lemma {:induction false} DerivativeAtRoot(g: Field, p: seq<nat>, q: seq<nat>, x: nat, r: nat, t: nat)
    requires AllIn(g, p) && IsQuotient(g, p, q, x) && Mul(g, x, r) == 1 && 2 * t <= |p|
    ensures Derivative(g, p, r, t) == Mul(g, x, Eval(g, q, r, 2 * t))
  {
    hide Mul, Xor;
    if t == 0 {
      MulZero(g, x);
    } else {
      DerivativeAtRoot(g, p, q, x, r, t - 1);
      QuotientIn(g, p, q, x);
      var i := 2 * t - 2;
      var u := Power(g, r, i);
      var e, q0, q1 := Eval(g, q, r, i), q[i], q[i + 1];
      assert p[i + 1] == Xor(q1, Mul(g, x, q0)) by {
        XorCancel(p[i + 1], Mul(g, x, q0));
      }
      MulDistrib(g, u, q1, Mul(g, x, q0));
      MulComm(g, u, p[i + 1]);
      // u q1 = x (q1 r u)
      var v := Power(g, r, i + 1);
      MulSwap(g, x, q1, r, u);
      MulComm(g, x, Mul(g, q1, v));
      TimesOne(g, x, r, u, q1);
      MulComm(g, u, Mul(g, x, q0));
      MulAssoc(g, x, q0, u);
      var a, b := Mul(g, q0, u), Mul(g, q1, v);
      MulDistrib(g, x, e, a);
      MulDistrib(g, x, Xor(e, a), b);
      XorAssoc(Mul(g, x, e), Mul(g, x, a), Mul(g, x, b));
      XorComm(Mul(g, x, a), Mul(g, x, b));
      assert Eval(g, q, r, i + 1) == Xor(e, a);
      assert Eval(g, q, r, i + 2) == Xor(Xor(e, a), b);
    }
  }

  lemma TimesOne(g: Field, x: nat, r: nat, u: nat, q: nat)
    requires Mul(g, x, r) == 1 && In(g, q)
    ensures Mul(g, x, Mul(g, q, Mul(g, r, u))) == Mul(g, u, q)
  {
    hide Mul, Xor;
    MulComm(g, q, Mul(g, r, u));
    MulAssoc(g, r, u, q);
    MulAssoc(g, x, r, Mul(g, u, q));
    MulIn(g, u, q);
    MulOne(g, Mul(g, u, q));
  }

  // ----- Power sums -----

  ghost function PowerTerm(g: Gf, w: seq<nat>, xs: seq<nat>, j: nat): nat -> nat {
    (l: nat) => Mul(g, At(w, l), Power(g, At(xs, l), j))
  }

  ghost function PowerSum(g: Gf, w: seq<nat>, xs: seq<nat>, j: nat): nat {
    Sum(PowerTerm(g, w, xs, j), |xs|)
  }

  // Weights on distinct points are zero when their first power sums are.
  lemma {:induction false} Vandermonde(g: Field, w: seq<nat>, xs: seq<nat>)
    requires |w| == |xs| && AllIn(g, w) && AllIn(g, xs) && Distinct(xs)
    requires forall j :: 0 <= j < |xs| ==> PowerSum(g, w, xs, j) == 0
    ensures forall l :: 0 <= l < |w| ==> w[l] == 0
    decreases |w|
  {
    hide Mul, Xor, PowerSum, Power;
    if |w| > 0 {
      var v := |w| - 1;
      var z := xs[v];
      var w' := seq(v, l requires 0 <= l < v => Mul(g, w[l], Xor(xs[l], z)));
      assert AllIn(g, w') by {
        forall l | 0 <= l < v ensures In(g, w'[l]) {
          MulIn(g, w[l], Xor(xs[l], z));
        }
      }
      forall j | 0 <= j < v ensures PowerSum(g, w', xs[..v], j) == 0 {
        assert PowerSum(g, w, xs, j) == 0 && PowerSum(g, w, xs, j + 1) == 0;
        EliminateLast(g, w, xs, w', j);
        MulZero(g, z);
        XorZero(0);
      }
      Vandermonde(g, w', xs[..v]);
      forall l | 0 <= l < v ensures w[l] == 0 {
        XorBound(xs[l], z, g.mm);
        XorCancel(xs[l], z);
        assert w'[l] == 0;
        MulNonzero(g, w[l], Xor(xs[l], z));
      }
      assert PowerSum(g, w, xs, 0) == 0;
      LastWeight(g, w, xs);
    }
  }

  lemma WeightStep(g: Field, w: nat, x: nat, z: nat, u: nat)
    ensures Xor(Mul(g, w, Mul(g, x, u)), Mul(g, z, Mul(g, w, u))) == Mul(g, Mul(g, w, Xor(x, z)), u)
    ensures Mul(g, w, Mul(g, z, u)) == Mul(g, z, Mul(g, w, u))
  {
    hide Mul, Xor;
    MulAssoc(g, w, x, u);
    MulAssoc(g, z, w, u);
    MulAssoc(g, w, z, u);
    MulComm(g, z, w);
    MulDistrib(g, w, x, z);
    MulDistrib(g, u, Mul(g, w, x), Mul(g, w, z));
  }

  lemma EliminateTerm(g: Field, w: seq<nat>, xs: seq<nat>, w': seq<nat>, j: nat, l: nat)
    requires |w| == |xs| == |w'| + 1 && l <= |w'|
    requires l < |w'| ==> w'[l] == Mul(g, w[l], Xor(xs[l], xs[|w'|]))
    ensures Xor(PowerTerm(g, w, xs, j + 1)(l), Mul(g, xs[|w'|], PowerTerm(g, w, xs, j)(l)))
         == (if l < |w'| then PowerTerm(g, w', xs[..|w'|], j)(l) else 0)
  {
    hide Mul, Xor;
    WeightStep(g, w[l], xs[l], xs[|w'|], Power(g, xs[l], j));
    if l == |w'| {
      XorSelf(PowerTerm(g, w, xs, j + 1)(l));
    }
  }

  lemma EliminateLast(g: Field, w: seq<nat>, xs: seq<nat>, w': seq<nat>, j: nat)
    requires |w| == |xs| == |w'| + 1
    requires forall l :: 0 <= l < |w'| ==> w'[l] == Mul(g, w[l], Xor(xs[l], xs[|w'|]))
    ensures PowerSum(g, w', xs[..|w'|], j)
         == Xor(PowerSum(g, w, xs, j + 1), Mul(g, xs[|w'|], PowerSum(g, w, xs, j)))
  {
    hide Mul, Xor, Power, PowerTerm, Plus, Times;
    var v := |w'|;
    var z := xs[v];
    var f, h := PowerTerm(g, w, xs, j + 1), PowerTerm(g, w, xs, j);
    var s := Plus(f, Times(g, z, h));
    SumScale(g, z, h, v + 1);
    SumAdd(f, Times(g, z, h), v + 1);
    var f' := PowerTerm(g, w', xs[..v], j);
    forall l: nat | l <= v ensures s(l) == (if l < v then f'(l) else 0) {
      EliminateTerm(g, w, xs, w', j, l);
      PlusAt(f, Times(g, z, h), l);
      TimesAt(g, z, h, l);
    }
    SumTail(s, v, v + 1);
    SumEq(s, f', v);
  }

  lemma LastWeight(g: Field, w: seq<nat>, xs: seq<nat>)
    requires |w| == |xs| > 0 && AllIn(g, w) && PowerSum(g, w, xs, 0) == 0
    requires forall l :: 0 <= l < |w| - 1 ==> w[l] == 0
    ensures w[|w| - 1] == 0
  {
    hide Mul, Xor;
    var v := |w| - 1;
    forall l: nat | l < v ensures PowerTerm(g, w, xs, 0)(l) == 0 {
      MulZero(g, Power(g, xs[l], 0));
    }
    SumZero(PowerTerm(g, w, xs, 0), v);
    MulOne(g, w[v]);
    XorZero(w[v]);
  }
}
