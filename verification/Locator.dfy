/** Error locators: how the roots of the connection polynomial found by
    Berlekamp-Massey relate to a representation of the syndromes as power sums. */
module Locator {
  import opened Bits
  import opened Collections
  import opened Galois
  import opened Sums
  import opened Poly
  import opened Massey

  ghost function PowerSeries(g: Gf, w: seq<nat>, xs: seq<nat>, n: nat): (s: seq<nat>)
    ensures |s| == n && forall i :: 0 <= i < n ==> s[i] == PowerSum(g, w, xs, i)
  {
    seq(n, i requires 0 <= i < n => PowerSum(g, w, xs, i))
  }

  // ----- Quotient coefficients are convolutions with a geometric series -----

  ghost function GeoTerm(g: Gf, p: seq<nat>, x: nat, j: nat): nat -> nat {
    (i: nat) => if i <= j then Mul(g, At(p, i), Power(g, x, j - i)) else 0
  }

  lemma GeoTermAt(g: Gf, p: seq<nat>, x: nat, j: nat, i: nat)
    ensures GeoTerm(g, p, x, j)(i) == if i <= j then Mul(g, At(p, i), Power(g, x, j - i)) else 0
  {
  }

  lemma GeoTermStep(g: Field, p: seq<nat>, x: nat, j: nat, i: nat)
    requires i < j
    ensures GeoTerm(g, p, x, j)(i) == Mul(g, x, GeoTerm(g, p, x, j - 1)(i))
  {
    hide Mul, Xor;
    var c, u := At(p, i), Power(g, x, j - 1 - i);
    assert Power(g, x, j - i) == Mul(g, x, u);
    MulAssoc(g, x, c, u);
    MulComm(g, x, c);
    MulAssoc(g, c, x, u);
  }

  lemma GeoTermLast(g: Field, p: seq<nat>, x: nat, j: nat)
    requires AllIn(g, p) && j < |p|
    ensures Sum(GeoTerm(g, p, x, j), j + 1) == Xor(Sum(GeoTerm(g, p, x, j), j), p[j])
  {
    hide Mul, Xor;
    MulOne(g, p[j]);
  }

  lemma GeoSumStep(g: Field, p: seq<nat>, x: nat, j: nat)
    requires 0 < j
    ensures Sum(GeoTerm(g, p, x, j), j) == Mul(g, x, Sum(GeoTerm(g, p, x, j - 1), j))
  {
    hide Mul, Xor, GeoTerm, Times;
    var f, h := GeoTerm(g, p, x, j), GeoTerm(g, p, x, j - 1);
    SumScale(g, x, h, j);
    forall i: nat | i < j ensures f(i) == Times(g, x, h)(i) {
      TimesAt(g, x, h, i);
      GeoTermStep(g, p, x, j, i);
    }
    SumEq(f, Times(g, x, h), j);
  }

  lemma {:induction false} QuotientPrefix(g: Field, p: seq<nat>, x: nat, j: nat)
    requires AllIn(g, p) && j < |p|
    ensures Sum(GeoTerm(g, p, x, j), j + 1) == Quotient(g, p, x)[j]
  {
    hide Mul, Xor, GeoTerm, Quotient;
    var q := Quotient(g, p, x);
    GeoTermLast(g, p, x, j);
    if j == 0 {
      MulZero(g, x);
      XorComm(0, p[0]);
    } else {
      QuotientPrefix(g, p, x, j - 1);
      GeoSumStep(g, p, x, j);
      XorComm(p[j], Mul(g, x, q[j - 1]));
    }
  }

  lemma QuotientConv(g: Field, p: seq<nat>, x: nat, j: nat)
    requires AllIn(g, p) && j < |p|
    ensures Sum(GeoTerm(g, p, x, j), |p|) == Quotient(g, p, x)[j]
  {
    hide Mul, Xor, GeoTerm, Quotient;
    QuotientPrefix(g, p, x, j);
    forall i: nat | j + 1 <= i < |p| ensures GeoTerm(g, p, x, j)(i) == 0 {
      GeoTermAt(g, p, x, j, i);
    }
    SumTail(GeoTerm(g, p, x, j), j + 1, |p|);
  }

  ghost function QuotientTerm(g: Gf, p: seq<nat>, w: seq<nat>, xs: seq<nat>, j: nat): nat -> nat {
    (l: nat) => Mul(g, At(w, l), At(Quotient(g, p, At(xs, l)), j))
  }

  lemma QuotientTermAt(g: Gf, p: seq<nat>, w: seq<nat>, xs: seq<nat>, j: nat, l: nat)
    ensures QuotientTerm(g, p, w, xs, j)(l) == Mul(g, At(w, l), At(Quotient(g, p, At(xs, l)), j))
  {
  }

  ghost function GeoGrid(g: Gf, p: seq<nat>, w: seq<nat>, xs: seq<nat>, j: nat): (nat, nat) -> nat {
    (l: nat, i: nat) => Mul(g, At(w, l), GeoTerm(g, p, At(xs, l), j)(i))
  }

  lemma GeoGridAt(g: Gf, p: seq<nat>, w: seq<nat>, xs: seq<nat>, j: nat, l: nat, i: nat)
    ensures GeoGrid(g, p, w, xs, j)(l, i) == Mul(g, At(w, l), GeoTerm(g, p, At(xs, l), j)(i))
  {
  }

  lemma GeoRow(g: Field, p: seq<nat>, w: seq<nat>, xs: seq<nat>, j: nat, l: nat)
    requires AllIn(g, p) && j < |p| && l < |xs|
    ensures Rows(GeoGrid(g, p, w, xs, j), |p|)(l) == QuotientTerm(g, p, w, xs, j)(l)
  {
    hide Mul, Xor, GeoTerm, Times, Quotient, GeoGrid, Rows, QuotientTerm;
    var f := GeoTerm(g, p, xs[l], j);
    QuotientConv(g, p, xs[l], j);
    SumScale(g, At(w, l), f, |p|);
    forall i: nat | i < |p| ensures Times(g, At(w, l), f)(i) == GeoGrid(g, p, w, xs, j)(l, i) {
      TimesAt(g, At(w, l), f, i);
      GeoGridAt(g, p, w, xs, j, l, i);
    }
    RowAt(GeoGrid(g, p, w, xs, j), |p|, l, Times(g, At(w, l), f));
    QuotientTermAt(g, p, w, xs, j, l);
  }

  lemma PowerTermAt(g: Gf, w: seq<nat>, xs: seq<nat>, j: nat, l: nat)
    ensures PowerTerm(g, w, xs, j)(l) == Mul(g, At(w, l), Power(g, At(xs, l), j))
  {
  }

  lemma GeoGridScale(g: Field, p: seq<nat>, w: seq<nat>, xs: seq<nat>, j: nat, l: nat, i: nat)
    requires i <= j
    ensures GeoGrid(g, p, w, xs, j)(l, i) == Mul(g, At(p, i), PowerTerm(g, w, xs, j - i)(l))
  {
    hide Mul, Xor, Power, GeoGrid, GeoTerm, PowerTerm;
    GeoGridAt(g, p, w, xs, j, l, i);
    GeoTermAt(g, p, At(xs, l), j, i);
    PowerTermAt(g, w, xs, j - i, l);
    var a, c, u := At(w, l), At(p, i), Power(g, At(xs, l), j - i);
    MulAssoc(g, c, a, u);
    MulComm(g, c, a);
    MulAssoc(g, a, c, u);
  }

  lemma GeoColumn(g: Field, p: seq<nat>, w: seq<nat>, xs: seq<nat>, n: nat, j: nat, i: nat)
    requires AllIn(g, p) && j < |p| && j < n && i < |p|
    ensures Columns(GeoGrid(g, p, w, xs, j), |xs|)(i)
         == ConvTerm(g, p, PowerSeries(g, w, xs, n), j)(i)
  {
    hide Mul, Xor, GeoTerm, Times, GeoGrid, Columns, PowerTerm, ConvTerm, PowerSeries;
    var m := |xs|;
    var s := PowerSeries(g, w, xs, n);
    ConvTermAt(g, p, s, j, i);
    var grid := GeoGrid(g, p, w, xs, j);
    if i <= j {
      var f := PowerTerm(g, w, xs, j - i);
      assert s[j - i] == Sum(f, m);
      SumScale(g, p[i], f, m);
      forall l: nat | l < m ensures Times(g, p[i], f)(l) == grid(l, i) {
        TimesAt(g, p[i], f, l);
        GeoGridScale(g, p, w, xs, j, l, i);
      }
      ColumnAt(grid, m, i, Times(g, p[i], f));
    } else {
      ZeroColumn(g, p, w, xs, j, i);
      MulZero(g, p[i]);
    }
  }

  lemma ZeroColumn(g: Field, p: seq<nat>, w: seq<nat>, xs: seq<nat>, j: nat, i: nat)
    requires j < i
    ensures Columns(GeoGrid(g, p, w, xs, j), |xs|)(i) == 0
  {
    hide Mul, Xor, GeoTerm, GeoGrid, Columns;
    var grid, m := GeoGrid(g, p, w, xs, j), |xs|;
    var z := (l: nat) => 0;
    forall l: nat | l < m ensures z(l) == grid(l, i) {
      GeoGridAt(g, p, w, xs, j, l, i);
      GeoTermAt(g, p, xs[l], j, i);
      MulZero(g, At(w, l));
    }
    ColumnAt(grid, m, i, z);
    SumZero(z, m);
  }

  // The key-equation coefficients of a power-sum series, point by point.
  lemma ConvPowerSeries(g: Field, p: seq<nat>, w: seq<nat>, xs: seq<nat>, n: nat, j: nat)
    requires AllIn(g, p) && j < |p| && j < n
    ensures Conv(g, p, PowerSeries(g, w, xs, n), j) == Sum(QuotientTerm(g, p, w, xs, j), |xs|)
  {
    hide Mul, Xor, GeoGrid, Rows, Columns, QuotientTerm, ConvTerm;
    var grid := GeoGrid(g, p, w, xs, j);
    var s := PowerSeries(g, w, xs, n);
    forall l: nat | l < |xs| ensures Rows(grid, |p|)(l) == QuotientTerm(g, p, w, xs, j)(l) {
      GeoRow(g, p, w, xs, j, l);
    }
    SumEq(Rows(grid, |p|), QuotientTerm(g, p, w, xs, j), |xs|);
    forall i: nat | i < |p| ensures Columns(grid, |xs|)(i) == ConvTerm(g, p, s, j)(i) {
      GeoColumn(g, p, w, xs, n, j, i);
    }
    SumEq(Columns(grid, |xs|), ConvTerm(g, p, s, j), |p|);
    SumSwap(grid, |xs|, |p|);
  }

  // ----- Connection polynomials and their roots -----

  // p has constant term 1, degree at most |xs|, and vanishes at the inverse of
  // every xs[l].
  ghost predicate Located(g: Gf, p: seq<nat>, xs: seq<nat>, rs: seq<nat>) {
    && |p| > |xs| == |rs| && p[0] == 1 && AllIn(g, p) && DegreeAtMost(p, |xs|)
    && AllIn(g, xs) && AllIn(g, rs) && Distinct(rs)
    && forall l :: 0 <= l < |xs| ==> Mul(g, xs[l], rs[l]) == 1 && Eval(g, p, rs[l], |p|) == 0
  }

  lemma EvalDegree(g: Field, p: seq<nat>, d: nat, x: nat, n: nat)
    requires DegreeAtMost(p, d) && d < n <= |p|
    ensures Eval(g, p, x, n) == Eval(g, p, x, |p|)
  {
    hide Mul, Xor;
    forall i: nat | n <= i < |p| ensures EvalTerm(g, p, x)(i) == 0 {
      MulZero(g, Power(g, x, i));
    }
    SumTail(EvalTerm(g, p, x), n, |p|);
  }

  // The quotient of p by the factor of one of its roots has lower degree.
  lemma QuotientDegree(g: Field, p: seq<nat>, d: nat, x: nat, r: nat, j: nat)
    requires AllIn(g, p) && DegreeAtMost(p, d) && Mul(g, x, r) == 1
    requires Eval(g, p, r, |p|) == 0 && d <= j < |p|
    ensures Quotient(g, p, x)[j] == 0
  {
    hide Mul, Xor, Quotient, Eval;
    QuotientAt(g, p, Quotient(g, p, x), x, r, j);
    EvalDegree(g, p, d, r, j + 1);
    MulZero(g, Power(g, x, j));
  }

  // A located polynomial is a recurrence for every power-sum series on its points.
  lemma LocatedGenerates(g: Field, p: seq<nat>, xs: seq<nat>, rs: seq<nat>, w: seq<nat>, s: seq<nat>)
    requires Located(g, p, xs, rs) && |w| == |xs| && |p| == |s| + 1
    requires s == PowerSeries(g, w, xs, |s|)
    ensures Generates(g, p, |xs|, s, |s|)
  {
    hide Mul, Xor, Conv, QuotientTerm, Eval, PowerSum, Quotient;
    forall j | |xs| <= j < |s| ensures Conv(g, p, s, j) == 0 {
      ConvPowerSeries(g, p, w, xs, |s|, j);
      forall l: nat | l < |xs| ensures QuotientTerm(g, p, w, xs, j)(l) == 0 {
        QuotientTermAt(g, p, w, xs, j, l);
        QuotientDegree(g, p, |xs|, xs[l], rs[l], j);
        MulZero(g, w[l]);
      }
      SumZero(QuotientTerm(g, p, w, xs, j), |xs|);
    }
  }

  // ----- Values of the quotients at the roots -----

  lemma QuotientAtOtherRoot(g: Field, p: seq<nat>, xs: seq<nat>, rs: seq<nat>, l: nat, m: nat)
    requires Located(g, p, xs, rs) && l < |xs| && m < |xs| && l != m
    ensures Eval(g, Quotient(g, p, xs[l]), rs[m], |xs|) == 0
    ensures Eval(g, Quotient(g, p, xs[l]), rs[m], |p|) == 0
  {
    hide Mul, Xor, Eval, Quotient;
    var v := |xs|;
    var q := Quotient(g, p, xs[l]);
    forall j | v <= j < |p| ensures q[j] == 0 {
      QuotientDegree(g, p, v, xs[l], rs[l], j);
    }
    QuotientRoot(g, p, q, xs[l], rs[l], rs[m]);
    EvalEq(g, q, q[..|p| - 1], rs[m], |p| - 1);
    EvalTail(g, q, v, rs[m], |p| - 1);
    EvalTail(g, q, v, rs[m], |p|);
  }

  lemma EvalTail(g: Field, p: seq<nat>, m: nat, x: nat, n: nat)
    requires m <= n && forall i :: m <= i < n ==> At(p, i) == 0
    ensures Eval(g, p, x, n) == Eval(g, p, x, m)
  {
    hide Mul, Xor;
    forall i: nat | m <= i < n ensures EvalTerm(g, p, x)(i) == 0 {
      MulZero(g, Power(g, x, i));
    }
    SumTail(EvalTerm(g, p, x), m, n);
  }

  lemma QuotientFirst(g: Field, p: seq<nat>, x: nat)
    requires |p| > 0
    ensures Quotient(g, p, x)[0] == p[0]
  {
    hide Mul, Xor, Quotient;
    MulZero(g, x);
    XorZero(p[0]);
  }

  // The roots are simple, so the derivative does not vanish at them.
  lemma QuotientAtOwnRoot(g: Field, p: seq<nat>, xs: seq<nat>, rs: seq<nat>, l: nat)
    requires Located(g, p, xs, rs) && l < |xs|
    ensures Eval(g, Quotient(g, p, xs[l]), rs[l], |xs|) != 0
  {
    hide Mul, Xor, Eval, Quotient;
    var v := |xs|;
    var q := Quotient(g, p, xs[l]);
    if Eval(g, q, rs[l], v) == 0 {
      QuotientIn(g, p, q, xs[l]);
      QuotientFirst(g, p, xs[l]);
      assert AllIn(g, q[..v]);
      forall k | 0 <= k < v ensures rs[k] != 0 && Eval(g, q[..v], rs[k], v) == 0 {
        EvalEq(g, q, q[..v], rs[k], v);
        MulZero(g, xs[k]);
        if k != l {
          QuotientAtOtherRoot(g, p, xs, rs, l, k);
        }
      }
      assert q[..v][0] == 1;
      TooManyRoots(g, q[..v], rs);
    }
  }

  // ----- Forney: the error values reproduce the syndromes -----

  // The evaluator polynomial: the first n key-equation coefficients.
  ghost function Omega(g: Gf, p: seq<nat>, s: seq<nat>, n: nat): (o: seq<nat>)
    ensures |o| == n && forall j :: 0 <= j < n ==> o[j] == Conv(g, p, s, j)
  {
    seq(n, j requires 0 <= j < n => Conv(g, p, s, j))
  }

  ghost function EvaluatorGrid(g: Gf, p: seq<nat>, w: seq<nat>, xs: seq<nat>, y: nat): (nat, nat) -> nat {
    (j: nat, l: nat) => Mul(g, QuotientTerm(g, p, w, xs, j)(l), Power(g, y, j))
  }

  lemma EvaluatorGridAt(g: Gf, p: seq<nat>, w: seq<nat>, xs: seq<nat>, y: nat, j: nat, l: nat)
    ensures EvaluatorGrid(g, p, w, xs, y)(j, l) == Mul(g, QuotientTerm(g, p, w, xs, j)(l), Power(g, y, j))
  {
  }

  lemma EvalTermAt(g: Gf, p: seq<nat>, x: nat, i: nat)
    ensures EvalTerm(g, p, x)(i) == Mul(g, At(p, i), Power(g, x, i))
  {
  }

  lemma EvaluatorRow(g: Field, p: seq<nat>, w: seq<nat>, xs: seq<nat>, y: nat, n: nat, v: nat, j: nat)
    requires AllIn(g, p) && j < v < |p| && v <= n
    ensures Rows(EvaluatorGrid(g, p, w, xs, y), |xs|)(j)
         == EvalTerm(g, Omega(g, p, PowerSeries(g, w, xs, n), v), y)(j)
  {
    hide Mul, Xor, QuotientTerm, Times, Rows, EvaluatorGrid, EvalTerm, Conv, PowerSeries, Power;
    var f, u := QuotientTerm(g, p, w, xs, j), Power(g, y, j);
    ConvPowerSeries(g, p, w, xs, n, j);
    SumScale(g, u, f, |xs|);
    forall l: nat | l < |xs| ensures Times(g, u, f)(l) == EvaluatorGrid(g, p, w, xs, y)(j, l) {
      TimesAt(g, u, f, l);
      EvaluatorGridAt(g, p, w, xs, y, j, l);
      MulComm(g, u, f(l));
    }
    RowAt(EvaluatorGrid(g, p, w, xs, y), |xs|, j, Times(g, u, f));
    var o := Omega(g, p, PowerSeries(g, w, xs, n), v);
    EvalTermAt(g, o, y, j);
    MulComm(g, u, o[j]);
  }

  ghost function ValueTerm(g: Gf, p: seq<nat>, w: seq<nat>, xs: seq<nat>, y: nat, v: nat): nat -> nat {
    (l: nat) => Mul(g, At(w, l), Eval(g, Quotient(g, p, At(xs, l)), y, v))
  }

  lemma ValueTermAt(g: Gf, p: seq<nat>, w: seq<nat>, xs: seq<nat>, y: nat, v: nat, l: nat)
    ensures ValueTerm(g, p, w, xs, y, v)(l) == Mul(g, At(w, l), Eval(g, Quotient(g, p, At(xs, l)), y, v))
  {
  }

  lemma EvaluatorColumn(g: Field, p: seq<nat>, w: seq<nat>, xs: seq<nat>, y: nat, v: nat, l: nat)
    requires l < |xs|
    ensures Columns(EvaluatorGrid(g, p, w, xs, y), v)(l) == ValueTerm(g, p, w, xs, y, v)(l)
  {
    hide Mul, Xor, QuotientTerm, Times, Columns, EvaluatorGrid, EvalTerm, ValueTerm, Quotient, Power;
    var q := Quotient(g, p, xs[l]);
    var f := EvalTerm(g, q, y);
    SumScale(g, At(w, l), f, v);
    forall j: nat | j < v ensures Times(g, At(w, l), f)(j) == EvaluatorGrid(g, p, w, xs, y)(j, l) {
      TimesAt(g, At(w, l), f, j);
      EvalTermAt(g, q, y, j);
      EvaluatorGridAt(g, p, w, xs, y, j, l);
      QuotientTermAt(g, p, w, xs, j, l);
      MulAssoc(g, At(w, l), At(q, j), Power(g, y, j));
    }
    ColumnAt(EvaluatorGrid(g, p, w, xs, y), v, l, Times(g, At(w, l), f));
    ValueTermAt(g, p, w, xs, y, v, l);
  }

  // The evaluator polynomial of a power-sum series, at any point.
  lemma EvaluatorValue(g: Field, p: seq<nat>, w: seq<nat>, xs: seq<nat>, y: nat, n: nat, v: nat)
    requires AllIn(g, p) && v < |p| && v <= n
    ensures Eval(g, Omega(g, p, PowerSeries(g, w, xs, n), v), y, v)
         == Sum(ValueTerm(g, p, w, xs, y, v), |xs|)
  {
    hide Mul, Xor, EvaluatorGrid, EvalTerm, ValueTerm, Rows, Columns, Conv, PowerSeries;
    var grid := EvaluatorGrid(g, p, w, xs, y);
    var o := Omega(g, p, PowerSeries(g, w, xs, n), v);
    forall j: nat | j < v ensures Rows(grid, |xs|)(j) == EvalTerm(g, o, y)(j) {
      EvaluatorRow(g, p, w, xs, y, n, v, j);
    }
    SumEq(Rows(grid, |xs|), EvalTerm(g, o, y), v);
    forall l: nat | l < |xs| ensures Columns(grid, v)(l) == ValueTerm(g, p, w, xs, y, v)(l) {
      EvaluatorColumn(g, p, w, xs, y, v, l);
    }
    SumEq(Columns(grid, v), ValueTerm(g, p, w, xs, y, v), |xs|);
    SumSwap(grid, v, |xs|);
  }

  lemma EvaluatorAtRoot(g: Field, p: seq<nat>, w: seq<nat>, xs: seq<nat>, rs: seq<nat>, n: nat, m: nat)
    requires Located(g, p, xs, rs) && |w| == |xs| <= n && m < |xs|
    ensures Eval(g, Omega(g, p, PowerSeries(g, w, xs, n), |xs|), rs[m], |xs|)
         == Mul(g, w[m], Eval(g, Quotient(g, p, xs[m]), rs[m], |xs|))
  {
    hide Mul, Xor, ValueTerm, Eval, Conv, PowerSeries, Quotient;
    var v := |xs|;
    EvaluatorValue(g, p, w, xs, rs[m], n, v);
    var f := ValueTerm(g, p, w, xs, rs[m], v);
    forall l: nat | l < v ensures f(l) == Mul(g, w[l], Eval(g, Quotient(g, p, xs[l]), rs[m], v)) {
      ValueTermAt(g, p, w, xs, rs[m], v, l);
    }
    forall l: nat | l < v && l != m ensures f(l) == 0 {
      QuotientAtOtherRoot(g, p, xs, rs, l, m);
      MulZero(g, w[l]);
    }
    SumSingle(f, m, v);
  }

  ghost function Difference(a: seq<nat>, b: seq<nat>): (d: seq<nat>)
    requires |a| == |b|
    ensures |d| == |a| && forall i :: 0 <= i < |a| ==> d[i] == Xor(a[i], b[i])
  {
    seq(|a|, i requires 0 <= i < |a| => Xor(a[i], b[i]))
  }

  lemma DifferenceIn(g: Field, a: seq<nat>, b: seq<nat>)
    requires |a| == |b| && AllIn(g, a) && AllIn(g, b)
    ensures AllIn(g, Difference(a, b))
  {
    forall i | 0 <= i < |a| ensures In(g, Difference(a, b)[i]) {
      XorBound(a[i], b[i], g.mm);
    }
  }

  lemma DifferenceZero(a: seq<nat>, b: seq<nat>)
    requires |a| == |b| && forall i :: 0 <= i < |a| ==> Difference(a, b)[i] == 0
    ensures a == b
  {
    forall i | 0 <= i < |a| ensures a[i] == b[i] {
      assert Difference(a, b)[i] == 0;
      XorCancel(a[i], b[i]);
    }
  }

  lemma ConvDifference(g: Field, p: seq<nat>, a: seq<nat>, b: seq<nat>, j: int)
    requires |a| == |b|
    ensures Conv(g, p, Difference(a, b), j) == Xor(Conv(g, p, a, j), Conv(g, p, b, j))
  {
    hide Mul, Xor, Plus, ConvTerm;
    var d := Difference(a, b);
    var f, h := ConvTerm(g, p, a, j), ConvTerm(g, p, b, j);
    SumAdd(f, h, |p|);
    forall i: nat | i < |p| ensures ConvTerm(g, p, d, j)(i) == Plus(f, h)(i) {
      PlusAt(f, h, i);
      ConvTermAt(g, p, a, j, i);
      ConvTermAt(g, p, b, j, i);
      ConvTermAt(g, p, d, j, i);
      MulDistrib(g, p[i], At(a, j - i), At(b, j - i));
      XorZero(0);
    }
    SumEq(ConvTerm(g, p, d, j), Plus(f, h), |p|);
  }

  lemma EvalDifference(g: Field, a: seq<nat>, b: seq<nat>, x: nat, n: nat)
    requires |a| == |b|
    ensures Eval(g, Difference(a, b), x, n) == Xor(Eval(g, a, x, n), Eval(g, b, x, n))
  {
    hide Mul, Xor, Plus, EvalTerm;
    var d := Difference(a, b);
    var f, h := EvalTerm(g, a, x), EvalTerm(g, b, x);
    SumAdd(f, h, n);
    forall i: nat | i < n ensures EvalTerm(g, d, x)(i) == Plus(f, h)(i) {
      PlusAt(f, h, i);
      EvalTermAt(g, a, x, i);
      EvalTermAt(g, b, x, i);
      EvalTermAt(g, d, x, i);
      MulDistrib(g, Power(g, x, i), At(a, i), At(b, i));
      XorZero(0);
    }
    SumEq(EvalTerm(g, d, x), Plus(f, h), n);
  }

  // A series annihilated by a polynomial with constant term 1 is zero.
  lemma {:induction false} AnnihilatedIsZero(g: Field, p: seq<nat>, d: seq<nat>, k: nat)
    requires |p| > 0 && p[0] == 1 && AllIn(g, d) && k <= |d|
    requires forall j :: 0 <= j < k ==> Conv(g, p, d, j) == 0
    ensures forall i :: 0 <= i < k ==> d[i] == 0
  {
    hide Mul, Xor, ConvTerm;
    if k > 0 {
      AnnihilatedIsZero(g, p, d, k - 1);
      assert Conv(g, p, d, k - 1) == 0;
      var f := ConvTerm(g, p, d, k - 1);
      forall i: nat | i < |p| && i != 0 ensures f(i) == 0 {
        ConvTermAt(g, p, d, k - 1, i);
        MulZero(g, p[i]);
      }
      SumSingle(f, 0, |p|);
      ConvTermAt(g, p, d, k - 1, 0);
      MulOne(g, d[k - 1]);
    }
  }

  // Forney's formula: weights that match the evaluator at every root reproduce
  // every syndrome, provided the located polynomial is a recurrence of length |xs|.
  lemma ForneySolves(g: Field, p: seq<nat>, xs: seq<nat>, rs: seq<nat>, w: seq<nat>, s: seq<nat>)
    requires Located(g, p, xs, rs) && |w| == |xs| <= |s| && |p| == |s| + 1
    requires AllIn(g, s) && Generates(g, p, |xs|, s, |s|)
    requires forall m :: 0 <= m < |xs| ==>
      Mul(g, w[m], Eval(g, Quotient(g, p, xs[m]), rs[m], |xs|)) == Eval(g, Omega(g, p, s, |xs|), rs[m], |xs|)
    ensures s == PowerSeries(g, w, xs, |s|)
  {
    hide Mul, Xor, Eval, Conv, PowerSum, Quotient;
    var n, v := |s|, |xs|;
    var e := PowerSeries(g, w, xs, n);
    var o, oe := Omega(g, p, s, v), Omega(g, p, e, v);
    var d := Difference(oe, o);
    forall j | 0 <= j < v ensures In(g, oe[j]) && In(g, o[j]) {
      ConvIn(g, p, s, j);
      ConvIn(g, p, e, j);
    }
    DifferenceIn(g, oe, o);
    forall m | 0 <= m < v ensures rs[m] != 0 && Eval(g, d, rs[m], v) == 0 {
      EvaluatorAtRoot(g, p, w, xs, rs, n, m);
      EvalDifference(g, oe, o, rs[m], v);
      XorSelf(Eval(g, o, rs[m], v));
      MulZero(g, xs[m]);
    }
    TooManyRoots(g, d, rs);
    LocatedGenerates(g, p, xs, rs, w, e);
    var z := Difference(s, e);
    forall j | 0 <= j < n ensures Conv(g, p, z, j) == 0 {
      ConvDifference(g, p, s, e, j);
      if j < v {
        assert d[j] == 0;
        XorComm(oe[j], o[j]);
      } else {
        XorZero(0);
      }
    }
    PowerSeriesIn(g, w, xs, n);
    DifferenceIn(g, s, e);
    AnnihilatedIsZero(g, p, z, n);
    DifferenceZero(s, e);
  }

  lemma PowerSeriesIn(g: Field, w: seq<nat>, xs: seq<nat>, n: nat)
    ensures AllIn(g, PowerSeries(g, w, xs, n))
  {
    hide Mul, PowerTerm, Power;
    forall j | 0 <= j < n ensures In(g, PowerSeries(g, w, xs, n)[j]) {
      forall l: nat | l < |xs| ensures In(g, PowerTerm(g, w, xs, j)(l)) {
        PowerTermAt(g, w, xs, j, l);
        MulIn(g, At(w, l), Power(g, At(xs, l), j));
      }
      SumIn(g, PowerTerm(g, w, xs, j), |xs|);
    }
  }

  // ----- Shortest recurrences and true error locators -----

  // When no shorter recurrence exists, every located point carries weight.
  lemma NoIdlePoint(g: Field, p: seq<nat>, xs: seq<nat>, rs: seq<nat>, w: seq<nat>, s: seq<nat>, l: nat)
    requires Located(g, p, xs, rs) && |w| == |xs| && |p| == |s| + 1 && l < |xs|
    requires s == PowerSeries(g, w, xs, |s|) && w[l] == 0
    ensures Run(g, s, |s|).el < |xs|
  {
    hide Mul, Xor, Eval, Conv, PowerSum, Quotient, QuotientTerm, PowerSeries;
    var v := |xs|;
    var q := Quotient(g, p, xs[l]);
    QuotientIn(g, p, q, xs[l]);
    QuotientFirst(g, p, xs[l]);
    QuotientDrop(g, p, v, xs[l], rs[l]);
    forall j | v - 1 <= j < |s| ensures Conv(g, q, s, j) == 0 {
      ConvPowerSeries(g, q, w, xs, |s|, j);
      forall m: nat | m < v ensures QuotientTerm(g, q, w, xs, j)(m) == 0 {
        QuotientTermAt(g, q, w, xs, j, m);
        MulZero(g, w[m]);
        if m != l {
          QuotientAtOtherRoot(g, p, xs, rs, l, m);
          QuotientDegree(g, q, v - 1, xs[m], rs[m], j);
        } else {
          MulZero(g, At(Quotient(g, q, xs[m]), j));
        }
      }
      SumZero(QuotientTerm(g, q, w, xs, j), v);
    }
    ShortestRecurrence(g, s, |s|, q, v - 1);
  }

  lemma QuotientDrop(g: Field, p: seq<nat>, v: nat, x: nat, r: nat)
    requires AllIn(g, p) && DegreeAtMost(p, v) && v > 0 && Mul(g, x, r) == 1 && Eval(g, p, r, |p|) == 0
    ensures DegreeAtMost(Quotient(g, p, x), v - 1)
  {
    hide Quotient, Eval, Mul;
    forall j | 0 <= j < |p| && v - 1 < j ensures Quotient(g, p, x)[j] == 0 {
      QuotientDegree(g, p, v, x, r, j);
    }
  }

  ghost predicate Inverses(g: Gf, xs: seq<nat>, rs: seq<nat>) {
    && |xs| == |rs| && AllIn(g, xs) && AllIn(g, rs)
    && forall l :: 0 <= l < |xs| ==> Mul(g, xs[l], rs[l]) == 1
  }

  lemma InversesDistinct(g: Field, xs: seq<nat>, rs: seq<nat>)
    requires Inverses(g, xs, rs) && Distinct(xs)
    ensures Distinct(rs)
  {
    hide Mul;
    forall i, j | 0 <= i < j < |rs| ensures rs[i] != rs[j] {
      if rs[i] == rs[j] {
        MulComm(g, xs[i], rs[i]);
        MulComm(g, xs[j], rs[j]);
        MulZero(g, xs[i]);
        CancelFactor(g, rs[i], xs[i], xs[j]);
      }
    }
  }

  lemma ForcedTerm(g: Field, p: seq<nat>, len: nat, x: nat, r: nat, w: nat, i: nat)
    requires AllIn(g, p) && DegreeAtMost(p, len) && Mul(g, x, r) == 1 && len + i < |p|
    ensures Mul(g, w, Quotient(g, p, x)[len + i])
         == Mul(g, Mul(g, w, Mul(g, Power(g, x, len), Eval(g, p, r, |p|))), Power(g, x, i))
  {
    hide Mul, Xor, Eval, Quotient, Power;
    var c, a, b := Eval(g, p, r, |p|), Power(g, x, len), Power(g, x, i);
    QuotientAt(g, p, Quotient(g, p, x), x, r, len + i);
    EvalDegree(g, p, len, r, len + i + 1);
    PowerAdd(g, x, len, i);
    MulAssoc(g, a, b, c);
    MulComm(g, b, c);
    MulAssoc(g, a, c, b);
    MulAssoc(g, w, Mul(g, a, c), b);
  }

  // Any recurrence for the syndromes of few errors vanishes at every error.
  lemma RootsForced(g: Field, p: seq<nat>, len: nat, xs: seq<nat>, rs: seq<nat>, w: seq<nat>, s: seq<nat>)
    requires Inverses(g, xs, rs) && Distinct(xs) && |w| == |xs| && AllIn(g, w)
    requires forall l :: 0 <= l < |w| ==> w[l] != 0
    requires |p| == |s| + 1 && s == PowerSeries(g, w, xs, |s|)
    requires Generates(g, p, len, s, |s|) && len + |xs| <= |s|
    ensures forall l :: 0 <= l < |xs| ==> Eval(g, p, rs[l], |p|) == 0
  {
    hide Mul, Xor, Eval, Conv, Quotient, QuotientTerm, PowerTerm, PowerSeries, Power;
    var v := |xs|;
    var u := seq(v, l requires 0 <= l < v => Mul(g, w[l], Mul(g, Power(g, xs[l], len), Eval(g, p, rs[l], |p|))));
    forall l | 0 <= l < v ensures In(g, u[l]) {
      MulIn(g, w[l], Mul(g, Power(g, xs[l], len), Eval(g, p, rs[l], |p|)));
    }
    forall i | 0 <= i < v ensures PowerSum(g, u, xs, i) == 0 {
      ConvPowerSeries(g, p, w, xs, |s|, len + i);
      forall l: nat | l < v ensures PowerTerm(g, u, xs, i)(l) == QuotientTerm(g, p, w, xs, len + i)(l) {
        PowerTermAt(g, u, xs, i, l);
        QuotientTermAt(g, p, w, xs, len + i, l);
        ForcedTerm(g, p, len, xs[l], rs[l], w[l], i);
      }
      SumEq(PowerTerm(g, u, xs, i), QuotientTerm(g, p, w, xs, len + i), v);
    }
    Vandermonde(g, u, xs);
    forall l | 0 <= l < v ensures Eval(g, p, rs[l], |p|) == 0 {
      MulZero(g, rs[l]);
      EvalIn(g, p, rs[l], |p|);
      FactorsNonzero(g, w[l], xs[l], len, Eval(g, p, rs[l], |p|), u[l]);
    }
  }

  lemma FactorsNonzero(g: Field, w: nat, x: nat, k: nat, c: nat, u: nat)
    requires In(g, w) && w != 0 && In(g, x) && x != 0 && In(g, c)
    requires u == Mul(g, w, Mul(g, Power(g, x, k), c)) && u == 0
    ensures c == 0
  {
    hide Mul, Power;
    PowerIn(g, x, k);
    PowerNonzero(g, x, k);
    MulIn(g, Power(g, x, k), c);
    MulNonzero(g, w, Mul(g, Power(g, x, k), c));
    MulNonzero(g, Power(g, x, k), c);
  }

  // ----- The error locator polynomial of given points -----

  // The product of the factors 1 + xs[l]*x, in an array of n+1 coefficients.
  ghost function ErrorLocator(g: Gf, xs: seq<nat>, n: nat): (p: seq<nat>)
    ensures |p| == n + 1
  {
    if xs == [] then [1] + Zeros(n)
    else
      var p := ErrorLocator(g, xs[..|xs| - 1], n);
      AddScaled(g, p, xs[|xs| - 1], Shift(p))
  }

  lemma EvalAddScaled(g: Field, p: seq<nat>, d: nat, b: seq<nat>, x: nat, n: nat)
    requires |p| == |b|
    ensures Eval(g, AddScaled(g, p, d, b), x, n) == Xor(Eval(g, p, x, n), Mul(g, d, Eval(g, b, x, n)))
  {
    hide Mul, Xor, Plus, Times, EvalTerm, Power;
    var t := AddScaled(g, p, d, b);
    var f, h := EvalTerm(g, p, x), EvalTerm(g, b, x);
    SumScale(g, d, h, n);
    SumAdd(f, Times(g, d, h), n);
    forall i: nat | i < n ensures EvalTerm(g, t, x)(i) == Plus(f, Times(g, d, h))(i) {
      PlusAt(f, Times(g, d, h), i);
      TimesAt(g, d, h, i);
      EvalTermAt(g, p, x, i);
      EvalTermAt(g, b, x, i);
      EvalTermAt(g, t, x, i);
      var u := Power(g, x, i);
      MulAssoc(g, d, At(b, i), u);
      MulDistrib(g, u, At(p, i), Mul(g, d, At(b, i)));
      MulZero(g, d);
      XorZero(0);
    }
    SumEq(EvalTerm(g, t, x), Plus(f, Times(g, d, h)), n);
  }

  lemma {:induction false} EvalShift(g: Field, b: seq<nat>, x: nat, n: nat)
    requires |b| > 0 && n < |b|
    ensures Eval(g, Shift(b), x, n + 1) == Mul(g, x, Eval(g, b, x, n))
  {
    hide Mul, Xor, EvalTerm;
    EvalTermAt(g, Shift(b), x, n);
    assert Eval(g, Shift(b), x, n + 1) == Xor(Eval(g, Shift(b), x, n), EvalTerm(g, Shift(b), x)(n));
    if n > 0 {
      EvalShift(g, b, x, n - 1);
      EvalTermAt(g, b, x, n - 1);
      assert Eval(g, b, x, n) == Xor(Eval(g, b, x, n - 1), EvalTerm(g, b, x)(n - 1));
      assert At(Shift(b), n) == At(b, n - 1);
      var c, u := At(b, n - 1), Power(g, x, n - 1);
      MulAssoc(g, c, x, u);
      MulComm(g, c, x);
      MulAssoc(g, x, c, u);
      MulDistrib(g, x, Eval(g, b, x, n - 1), Mul(g, c, u));
    } else {
      MulZero(g, x);
      MulZero(g, Power(g, x, 0));
      XorZero(0);
    }
  }

  lemma {:induction false} ErrorLocatorShape(g: Field, xs: seq<nat>, n: nat)
    requires |xs| <= n && AllIn(g, xs)
    ensures ErrorLocator(g, xs, n)[0] == 1 && AllIn(g, ErrorLocator(g, xs, n))
    ensures DegreeAtMost(ErrorLocator(g, xs, n), |xs|)
  {
    hide Mul, Xor;
    OneIn(g);
    if xs == [] {
      assert ErrorLocator(g, xs, n) == [1] + Zeros(n);
      LowId(0, g.mm);
    } else {
      var v := |xs| - 1;
      var p, x := ErrorLocator(g, xs[..v], n), xs[v];
      ErrorLocatorShape(g, xs[..v], n);
      var t := AddScaled(g, p, x, Shift(p));
      MulZero(g, x);
      XorZero(1);
      XorZero(0);
      forall i | 0 <= i < |t| ensures In(g, t[i]) {
        MulIn(g, x, Shift(p)[i]);
        XorBound(p[i], Mul(g, x, Shift(p)[i]), g.mm);
      }
    }
  }

  lemma {:induction false} ErrorLocatorRoot(g: Field, xs: seq<nat>, n: nat, l: nat, r: nat)
    requires |xs| <= n && AllIn(g, xs) && l < |xs| && Mul(g, xs[l], r) == 1
    ensures Eval(g, ErrorLocator(g, xs, n), r, n + 1) == 0
  {
    hide Mul, Xor, Eval;
    var v := |xs| - 1;
    var p, x := ErrorLocator(g, xs[..v], n), xs[v];
    ErrorLocatorShape(g, xs[..v], n);
    EvalAddScaled(g, p, x, Shift(p), r, n + 1);
    EvalShift(g, p, r, n);
    EvalDegree(g, p, v, r, n);
    var c := Eval(g, p, r, n + 1);
    MulAssoc(g, x, r, c);
    if l == v {
      EvalIn(g, p, r, n + 1);
      MulOne(g, c);
      XorSelf(c);
    } else {
      ErrorLocatorRoot(g, xs[..v], n, l, r);
      MulZero(g, Mul(g, x, r));
      XorZero(0);
    }
  }

  lemma ErrorLocatorLocates(g: Field, xs: seq<nat>, rs: seq<nat>, n: nat)
    requires Inverses(g, xs, rs) && Distinct(xs) && |xs| <= n
    ensures Located(g, ErrorLocator(g, xs, n), xs, rs)
  {
    hide Mul, Xor, Eval, ErrorLocator;
    var p := ErrorLocator(g, xs, n);
    ErrorLocatorShape(g, xs, n);
    InversesDistinct(g, xs, rs);
    forall l | 0 <= l < |xs| ensures Eval(g, p, rs[l], |p|) == 0 {
      ErrorLocatorRoot(g, xs, n, l, rs[l]);
    }
  }

  // So few errors never need a longer recurrence than their number.
  lemma FewErrorsShortRun(g: Field, xs: seq<nat>, rs: seq<nat>, w: seq<nat>, s: seq<nat>)
    requires Inverses(g, xs, rs) && Distinct(xs) && |w| == |xs| <= |s|
    requires s == PowerSeries(g, w, xs, |s|)
    ensures Run(g, s, |s|).el <= |xs|
  {
    hide Mul, Xor, Eval, Conv, PowerSeries, ErrorLocator, Located, Inverses, Distinct, Generates, Run;
    ErrorLocatorLocates(g, xs, rs, |s|);
    var p := ErrorLocator(g, xs, |s|);
    LocatedGenerates(g, p, xs, rs, w, s);
    ShortestRecurrence(g, s, |s|, p, |xs|);
  }
}
