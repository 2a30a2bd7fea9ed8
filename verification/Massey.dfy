/** The Berlekamp-Massey iteration of dump978/fec/decode_rs.h without erasures,
    in polynomial form, with the key equation it maintains and the minimality
    of the recurrence length it computes. */
module Massey {
  import opened Bits
  import opened Collections
  import opened Galois
  import opened Sums
  import opened Poly

  ghost function ConvTerm(g: Gf, p: seq<nat>, s: seq<nat>, j: int): nat -> nat {
    (i: nat) => Mul(g, At(p, i), At(s, j - i))
  }

  // Coefficient j of the product of p and the power series s.
  ghost function Conv(g: Gf, p: seq<nat>, s: seq<nat>, j: int): nat {
    Sum(ConvTerm(g, p, s, j), |p|)
  }

  ghost predicate DegreeAtMost(p: seq<nat>, d: int) {
    forall i :: 0 <= i < |p| && d < i ==> p[i] == 0
  }

  // s satisfies the linear recurrence of length len with connection polynomial
  // p, as far as its first r terms go.
  ghost predicate Generates(g: Gf, p: seq<nat>, len: nat, s: seq<nat>, r: nat) {
    && |p| > 0 && p[0] == 1 && AllIn(g, p) && DegreeAtMost(p, len)
    && forall j :: len <= j < r ==> Conv(g, p, s, j) == 0
  }

  lemma ConvIn(g: Field, p: seq<nat>, s: seq<nat>, j: int)
    ensures In(g, Conv(g, p, s, j))
  {
    hide Mul;
    forall i: nat | i < |p| ensures In(g, ConvTerm(g, p, s, j)(i)) {
      MulIn(g, At(p, i), At(s, j - i));
    }
    SumIn(g, ConvTerm(g, p, s, j), |p|);
  }

  lemma ConvTermAt(g: Gf, p: seq<nat>, s: seq<nat>, j: int, i: nat)
    ensures ConvTerm(g, p, s, j)(i) == Mul(g, At(p, i), At(s, j - i))
  {
  }

  // ----- The bound that makes the length minimal -----

  ghost function ProductTerm(g: Gf, q: seq<nat>, p: seq<nat>, s: seq<nat>, r: int): (nat, nat) -> nat {
    (k: nat, i: nat) => Mul(g, At(q, k), Mul(g, At(p, i), At(s, r - k - i)))
  }

  lemma ProductTermAt(g: Gf, q: seq<nat>, p: seq<nat>, s: seq<nat>, r: int, k: nat, i: nat)
    ensures ProductTerm(g, q, p, s, r)(k, i) == Mul(g, At(q, k), Mul(g, At(p, i), At(s, r - k - i)))
  {
  }

  lemma ProductRow(g: Field, q: seq<nat>, p: seq<nat>, s: seq<nat>, r: int, k: nat)
    ensures Rows(ProductTerm(g, q, p, s, r), |p|)(k) == Mul(g, At(q, k), Conv(g, p, s, r - k))
  {
    hide Mul, Xor, Times;
    var f := ConvTerm(g, p, s, r - k);
    var h := (i: nat) => ProductTerm(g, q, p, s, r)(k, i);
    SumScale(g, At(q, k), f, |p|);
    forall i: nat | i < |p| ensures h(i) == Times(g, At(q, k), f)(i) {
      TimesAt(g, At(q, k), f, i);
      ConvTermAt(g, p, s, r - k, i);
      ProductTermAt(g, q, p, s, r, k, i);
    }
    SumEq(h, Times(g, At(q, k), f), |p|);
    RowAt(ProductTerm(g, q, p, s, r), |p|, k, h);
  }

  lemma RowAt(f: (nat, nat) -> nat, n: nat, k: nat, h: nat -> nat)
    requires forall i: nat :: i < n ==> h(i) == f(k, i)
    ensures Rows(f, n)(k) == Sum(h, n)
  {
    SumEq((j: nat) => f(k, j), h, n);
  }

  lemma ColumnAt(f: (nat, nat) -> nat, m: nat, i: nat, h: nat -> nat)
    requires forall k: nat :: k < m ==> h(k) == f(k, i)
    ensures Columns(f, m)(i) == Sum(h, m)
  {
    SumEq((k: nat) => f(k, i), h, m);
  }

  lemma ProductColumn(g: Field, q: seq<nat>, p: seq<nat>, s: seq<nat>, r: int, i: nat)
    ensures Columns(ProductTerm(g, q, p, s, r), |q|)(i) == Mul(g, At(p, i), Conv(g, q, s, r - i))
  {
    hide Mul, Xor, Times;
    var f := ConvTerm(g, q, s, r - i);
    var h := (k: nat) => ProductTerm(g, q, p, s, r)(k, i);
    SumScale(g, At(p, i), f, |q|);
    forall k: nat | k < |q| ensures h(k) == Times(g, At(p, i), f)(k) {
      TimesAt(g, At(p, i), f, k);
      ConvTermAt(g, q, s, r - i, k);
      assert r - i - k == r - k - i;
      ProductTermAt(g, q, p, s, r, k, i);
      MulAssoc(g, At(q, k), At(p, i), At(s, r - k - i));
      MulComm(g, At(q, k), At(p, i));
      MulAssoc(g, At(p, i), At(q, k), At(s, r - k - i));
    }
    SumEq(h, Times(g, At(p, i), f), |q|);
    ColumnAt(ProductTerm(g, q, p, s, r), |q|, i, h);
  }

  // Two recurrences that agree on r terms but not on the next one are together
  // longer than r.
  lemma RecurrenceBound(g: Field, p: seq<nat>, len: nat, q: seq<nat>, len': nat, s: seq<nat>, r: nat)
    requires Generates(g, p, len, s, r) && Conv(g, p, s, r) != 0
    requires Generates(g, q, len', s, r + 1)
    ensures len + len' > r
  {
    hide Mul, Xor, Conv, Rows, Columns;
    if len + len' <= r {
      var f := ProductTerm(g, q, p, s, r);
      SumSwap(f, |q|, |p|);
      forall k: nat | k < |q| && k != 0 ensures Rows(f, |p|)(k) == 0 {
        ProductRow(g, q, p, s, r, k);
        MulZero(g, At(q, k));
        MulZero(g, Conv(g, p, s, r - k));
      }
      SumSingle(Rows(f, |p|), 0, |q|);
      ProductRow(g, q, p, s, r, 0);
      ConvIn(g, p, s, r);
      MulOne(g, Conv(g, p, s, r));
      forall i: nat | i < |p| ensures Columns(f, |q|)(i) == 0 {
        ProductColumn(g, q, p, s, r, i);
        MulZero(g, At(p, i));
        MulZero(g, Conv(g, q, s, r - i));
      }
      SumZero(Columns(f, |q|), |p|);
    }
  }

  // ----- The iteration -----

  datatype State = State(lambda: seq<nat>, b: seq<nat>, el: nat)

  ghost function Start(roots: nat): State {
    State([1] + Zeros(roots), [1] + Zeros(roots), 0)
  }

  // Multiplication by x in an array of fixed size.
  function Shift(b: seq<nat>): seq<nat>
    requires |b| > 0
  {
    [0] + b[..|b| - 1]
  }

  lemma ShiftAt(b: seq<nat>)
    requires |b| > 0
    ensures |Shift(b)| == |b| && forall k :: 0 <= k < |b| ==> Shift(b)[k] == At(b, k - 1)
  {
  }

  ghost function AddScaled(g: Gf, p: seq<nat>, d: nat, b: seq<nat>): (t: seq<nat>)
    requires |p| == |b|
    ensures |t| == |p| && forall i :: 0 <= i < |p| ==> t[i] == Xor(p[i], Mul(g, d, b[i]))
  {
    seq(|p|, i requires 0 <= i < |p| => Xor(p[i], Mul(g, d, b[i])))
  }

  ghost function ScaleBy(g: Gf, d: nat, p: seq<nat>): (t: seq<nat>)
    ensures |t| == |p| && forall i :: 0 <= i < |p| ==> t[i] == Mul(g, d, p[i])
  {
    seq(|p|, i requires 0 <= i < |p| => Mul(g, d, p[i]))
  }

  // Processing syndrome r, counted from 0.
  ghost function Step(g: Field, s: seq<nat>, st: State, r: nat): State
    requires |st.lambda| == |st.b| > 0
  {
    var d := Conv(g, st.lambda, s, r);
    ConvIn(g, st.lambda, s, r);
    var xb := Shift(st.b);
    if d == 0 then st.(b := xb)
    else
      var t := AddScaled(g, st.lambda, d, xb);
      if 2 * st.el <= r then State(t, ScaleBy(g, Inv(g, d), st.lambda), r + 1 - st.el)
      else State(t, xb, st.el)
  }

  ghost function Run(g: Field, s: seq<nat>, r: nat): (st: State)
    ensures |st.lambda| == |st.b| == |s| + 1
  {
    if r == 0 then Start(|s|) else Step(g, s, Run(g, s, r - 1), r - 1)
  }

  // What every step keeps: lambda solves the key equation for the first r
  // syndromes with length el, and b, shifted once, is a solution for an earlier
  // prefix whose first failure is normalised to 1 at position r.
  ghost predicate KeyInvariant(g: Field, s: seq<nat>, st: State, r: nat) {
    && |st.lambda| == |st.b| == |s| + 1 && AllIn(g, st.b)
    && st.el <= r
    && Generates(g, st.lambda, st.el, s, r)
    && DegreeAtMost(st.b, r - st.el)
    && (forall j :: r - st.el <= j < r - 1 ==> Conv(g, st.b, s, j) == 0)
    && (st.el > 0 ==> Conv(g, st.b, s, r - 1) == 1)
  }

  lemma {:induction false} ShiftTermSum(g: Field, b: seq<nat>, s: seq<nat>, j: int, n: nat)
    requires |b| > 0 && n < |b|
    ensures Sum(ConvTerm(g, Shift(b), s, j), n + 1) == Sum(ConvTerm(g, b, s, j - 1), n)
  {
    hide Mul, Xor;
    if n > 0 {
      ShiftTermSum(g, b, s, j, n - 1);
      assert At(Shift(b), n) == At(b, n - 1);
      ConvTermAt(g, Shift(b), s, j, n);
      ConvTermAt(g, b, s, j - 1, n - 1);
    } else {
      MulZero(g, At(s, j));
      XorZero(0);
      assert Sum(ConvTerm(g, Shift(b), s, j), 1)
          == Xor(Sum(ConvTerm(g, Shift(b), s, j), 0), ConvTerm(g, Shift(b), s, j)(0));
    }
  }

  lemma ConvShift(g: Field, b: seq<nat>, s: seq<nat>, j: int)
    requires |b| > 0 && b[|b| - 1] == 0
    ensures Conv(g, Shift(b), s, j) == Conv(g, b, s, j - 1)
  {
    hide Mul, Xor, Shift;
    var n := |b| - 1;
    assert |Shift(b)| == |b| by {
      ShiftAt(b);
    }
    ShiftTermSum(g, b, s, j, n);
    MulZero(g, At(s, j - 1 - n));
    SumTail(ConvTerm(g, b, s, j - 1), n, n + 1);
  }

  lemma ConvAddScaled(g: Field, p: seq<nat>, d: nat, b: seq<nat>, s: seq<nat>, j: int)
    requires |p| == |b|
    ensures Conv(g, AddScaled(g, p, d, b), s, j) == Xor(Conv(g, p, s, j), Mul(g, d, Conv(g, b, s, j)))
  {
    hide Mul, Xor, Plus, Times, ConvTerm;
    var n := |p|;
    var t := AddScaled(g, p, d, b);
    var f, h := ConvTerm(g, p, s, j), ConvTerm(g, b, s, j);
    SumScale(g, d, h, n);
    SumAdd(f, Times(g, d, h), n);
    forall i: nat | i < n ensures ConvTerm(g, t, s, j)(i) == Plus(f, Times(g, d, h))(i) {
      PlusAt(f, Times(g, d, h), i);
      TimesAt(g, d, h, i);
      ConvTermAt(g, p, s, j, i);
      ConvTermAt(g, b, s, j, i);
      ConvTermAt(g, t, s, j, i);
      var u := At(s, j - i);
      MulDistrib(g, u, p[i], Mul(g, d, b[i]));
      MulAssoc(g, d, b[i], u);
    }
    SumEq(ConvTerm(g, t, s, j), Plus(f, Times(g, d, h)), n);
  }

  lemma ConvScaleBy(g: Field, d: nat, p: seq<nat>, s: seq<nat>, j: int)
    ensures Conv(g, ScaleBy(g, d, p), s, j) == Mul(g, d, Conv(g, p, s, j))
  {
    hide Mul, Xor, Times, ConvTerm;
    var n := |p|;
    var f := ConvTerm(g, p, s, j);
    var t := ScaleBy(g, d, p);
    SumScale(g, d, f, n);
    forall i: nat | i < n ensures ConvTerm(g, t, s, j)(i) == Times(g, d, f)(i) {
      TimesAt(g, d, f, i);
      ConvTermAt(g, p, s, j, i);
      ConvTermAt(g, t, s, j, i);
      MulAssoc(g, d, p[i], At(s, j - i));
    }
    SumEq(ConvTerm(g, t, s, j), Times(g, d, f), n);
  }

  lemma StartInvariant(g: Field, s: seq<nat>)
    ensures KeyInvariant(g, s, Run(g, s, 0), 0)
  {
    OneIn(g);
    assert Pow2(0) == 1;
  }

  // After a nonzero discrepancy the corrected polynomial also fits term r.
  lemma CorrectedFits(g: Field, s: seq<nat>, st: State, r: nat, t: seq<nat>, len: nat)
    requires KeyInvariant(g, s, st, r) && r < |s|
    requires t == AddScaled(g, st.lambda, Conv(g, st.lambda, s, r), Shift(st.b))
    requires len >= st.el && len >= r + 1 - st.el && (st.el == 0 ==> len > r)
    ensures Generates(g, t, len, s, r + 1)
  {
    hide Mul, Xor, Conv;
    var d := Conv(g, st.lambda, s, r);
    var xb := Shift(st.b);
    MulZero(g, d);
    XorZero(1);
    assert t[0] == 1;
    forall i | 0 <= i < |t| ensures In(g, t[i]) {
      MulIn(g, d, xb[i]);
      XorBound(st.lambda[i], Mul(g, d, xb[i]), g.mm);
    }
    forall i | 0 <= i < |t| && len < i ensures t[i] == 0 {
      assert xb[i] == st.b[i - 1] == 0;
      XorZero(0);
    }
    ConvIn(g, st.lambda, s, r);
    forall j | len <= j < r + 1 ensures Conv(g, t, s, j) == 0 {
      ConvAddScaled(g, st.lambda, d, xb, s, j);
      ConvShift(g, st.b, s, j);
      if j < r {
        XorZero(0);
      } else {
        MulOne(g, d);
        XorSelf(d);
      }
    }
  }

  lemma ShiftedKeeps(g: Field, s: seq<nat>, st: State, r: nat)
    requires KeyInvariant(g, s, st, r) && r < |s|
    ensures AllIn(g, Shift(st.b)) && DegreeAtMost(Shift(st.b), r + 1 - st.el)
    ensures forall j :: r + 1 - st.el <= j < r ==> Conv(g, Shift(st.b), s, j) == 0
    ensures st.el > 0 ==> Conv(g, Shift(st.b), s, r) == 1
  {
    hide Mul, Xor, Conv;
    OneIn(g);
    forall j | r + 1 - st.el <= j <= r
      ensures Conv(g, Shift(st.b), s, j) == Conv(g, st.b, s, j - 1)
    {
      ConvShift(g, st.b, s, j);
    }
  }

  // The polynomial kept when the length grows is lambda, scaled to fail with 1.
  lemma ReplacedKeeps(g: Field, s: seq<nat>, st: State, r: nat, b: seq<nat>)
    requires KeyInvariant(g, s, st, r) && r < |s| && Conv(g, st.lambda, s, r) != 0
    requires In(g, Conv(g, st.lambda, s, r)) && b == ScaleBy(g, Inv(g, Conv(g, st.lambda, s, r)), st.lambda)
    ensures AllIn(g, b) && DegreeAtMost(b, st.el)
    ensures forall j :: st.el <= j < r ==> Conv(g, b, s, j) == 0
    ensures Conv(g, b, s, r) == 1
  {
    hide Mul, Xor, Conv;
    var v := Inv(g, Conv(g, st.lambda, s, r));
    MulZero(g, v);
    forall i | 0 <= i < |b| ensures In(g, b[i]) {
      MulIn(g, v, st.lambda[i]);
    }
    forall j | st.el <= j <= r ensures Conv(g, b, s, j) == Mul(g, v, Conv(g, st.lambda, s, j)) {
      ConvScaleBy(g, v, st.lambda, s, j);
    }
  }

  lemma StepKeepsInvariant(g: Field, s: seq<nat>, st: State, r: nat)
    requires KeyInvariant(g, s, st, r) && r < |s|
    ensures KeyInvariant(g, s, Step(g, s, st, r), r + 1)
  {
    hide Mul, Xor, Conv, Shift;
    ShiftAt(st.b);
    ConvIn(g, st.lambda, s, r);
    ShiftedKeeps(g, s, st, r);
    var d := Conv(g, st.lambda, s, r);
    if d != 0 {
      var t := AddScaled(g, st.lambda, d, Shift(st.b));
      if 2 * st.el <= r {
        CorrectedFits(g, s, st, r, t, r + 1 - st.el);
        ReplacedKeeps(g, s, st, r, ScaleBy(g, Inv(g, d), st.lambda));
      } else {
        CorrectedFits(g, s, st, r, t, st.el);
      }
    }
  }

  lemma {:induction false} KeyEquation(g: Field, s: seq<nat>, r: nat)
    requires r <= |s|
    ensures KeyInvariant(g, s, Run(g, s, r), r)
  {
    hide KeyInvariant, Step, Conv;
    if r == 0 {
      StartInvariant(g, s);
    } else {
      KeyEquation(g, s, r - 1);
      StepKeepsInvariant(g, s, Run(g, s, r - 1), r - 1);
    }
  }

  // No recurrence shorter than el generates the first r syndromes.
  lemma {:induction false} ShortestRecurrence(g: Field, s: seq<nat>, r: nat, q: seq<nat>, len: nat)
    requires r <= |s| && Generates(g, q, len, s, r)
    ensures Run(g, s, r).el <= len
  {
    hide Conv, Mul, Xor;
    if r > 0 {
      var st := Run(g, s, r - 1);
      ShortestRecurrence(g, s, r - 1, q, len);
      KeyEquation(g, s, r - 1);
      if Conv(g, st.lambda, s, r - 1) != 0 && 2 * st.el <= r - 1 {
        RecurrenceBound(g, st.lambda, st.el, q, len, s, r - 1);
      }
    }
  }
}
