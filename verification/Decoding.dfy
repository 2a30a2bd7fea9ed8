/** What the decoder guarantees: the syndromes of a block are power sums of its
    symbols, every correction is accounted for in them, and therefore the
    decoder's result is a codeword exactly under a stated condition. */
module Decoding {
  import opened Bits
  import opened Collections
  import opened Galois
  import opened Sums
  import opened Poly
  import opened Locator
  import opened ReedSolomon

  // ----- Locators of the symbol positions -----

  // Symbol j of a block of n symbols is the coefficient of x^(n-1-j).
  ghost function Point(c: Code, n: nat, j: nat): nat
    requires j < n
  {
    Exp(c.g, c.prim * (n - 1 - j))
  }

  ghost function Points(c: Code, n: nat): (xs: seq<nat>)
    ensures |xs| == n && forall j :: 0 <= j < n ==> xs[j] == Point(c, n, j)
  {
    seq(n, j requires 0 <= j < n => Point(c, n, j))
  }

  ghost function HornerTerm(g: Gf, blk: seq<nat>, e: nat): nat -> nat {
    (j: nat) => Mul(g, At(blk, j), if j < |blk| then Exp(g, e * (|blk| - 1 - j)) else 0)
  }

  lemma HornerTermAt(g: Gf, blk: seq<nat>, e: nat, j: nat)
    requires j < |blk|
    ensures HornerTerm(g, blk, e)(j) == Mul(g, blk[j], Exp(g, e * (|blk| - 1 - j)))
  {
  }

  lemma HornerTermStep(g: Field, blk: seq<nat>, e: nat, j: nat)
    requires j < |blk| - 1
    ensures HornerTerm(g, blk, e)(j) == Mul(g, Exp(g, e), HornerTerm(g, blk[..|blk| - 1], e)(j))
  {
    hide Mul, Xor, HornerTerm, Exp;
    var k := |blk| - 2 - j;
    HornerTermAt(g, blk, e, j);
    HornerTermAt(g, blk[..|blk| - 1], e, j);
    var a, b, u := Exp(g, e), blk[j], Exp(g, e * k);
    MulExp(g, e, e * k);
    assert e + e * k == e * (k + 1);
    MulAssoc(g, a, b, u);
    MulComm(g, a, b);
    MulAssoc(g, b, a, u);
  }

  lemma {:induction false} HornerSum(g: Field, blk: seq<nat>, e: nat)
    requires AllIn(g, blk)
    ensures Horner(g, blk, Exp(g, e)) == Sum(HornerTerm(g, blk, e), |blk|)
  {
    hide Mul, Xor, HornerTerm, Exp, Times;
    if |blk| > 0 {
      var n := |blk| - 1;
      var f, h := HornerTerm(g, blk, e), HornerTerm(g, blk[..n], e);
      HornerSum(g, blk[..n], e);
      SumScale(g, Exp(g, e), h, n);
      forall j: nat | j < n ensures f(j) == Times(g, Exp(g, e), h)(j) {
        TimesAt(g, Exp(g, e), h, j);
        HornerTermStep(g, blk, e, j);
      }
      SumEq(f, Times(g, Exp(g, e), h), n);
      HornerTermAt(g, blk, e, n);
      ExpZero(g, e);
      MulOne(g, blk[n]);
      XorComm(Sum(f, n), f(n));
    }
  }

  lemma ExpZero(g: Gf, e: nat)
    ensures Exp(g, e * 0) == 1
  {
  }

  lemma ExponentSwap(a: nat, b: nat, k: nat)
    ensures (a * b) * k == (k * a) * b
  {
  }

  lemma PointPower(c: Code, n: nat, j: nat, k: nat)
    requires Primitive(c.g) && j < n
    ensures var e: nat, m: nat := k * c.prim, n - 1 - j; Power(c.g, Point(c, n, j), k) == Exp(c.g, e * m)
  {
    hide Power, Exp;
    var m := n - 1 - j;
    var a := c.prim * m;
    PowerExp(c.g, a, k);
    ExponentSwap(c.prim, m, k);
  }

  // Every syndrome is a power sum of the symbols over their locators.
  lemma SyndromeIsPowerSum(c: Code, blk: seq<nat>, i: nat)
    requires Primitive(c.g) && AllIn(c.g, blk)
    ensures Syndrome(c, blk, i) == PowerSum(c.g, blk, Points(c, |blk|), c.fcr + i)
  {
    hide Mul, Xor, HornerTerm, Exp, PowerTerm, Power, Point;
    var g: Field := c.g;
    var k, n := c.fcr + i, |blk|;
    var e := k * c.prim;
    HornerSum(g, blk, e);
    var xs := Points(c, n);
    forall j: nat | j < n ensures HornerTerm(g, blk, e)(j) == PowerTerm(g, blk, xs, k)(j) {
      HornerTermAt(g, blk, e, j);
      PowerTermAt(g, blk, xs, k, j);
      PointPower(c, n, j, k);
    }
    SumEq(HornerTerm(g, blk, e), PowerTerm(g, blk, xs, k), n);
  }

  // ----- Distinct positions have distinct locators -----

  lemma {:induction false} CoprimeExponents(c: Code, a: nat, b: nat)
    requires ValidCode(c) && a < Nn(c) && b < Nn(c)
    requires Exp(c.g, c.prim * a) == Exp(c.g, c.prim * b)
    ensures a == b
  {
    hide Exp;
    var g: Field := c.g;
    UndoPrim(c, a);
    UndoPrim(c, b);
    ExpInjective(g, a, b);
  }

  lemma UndoPrim(c: Code, a: nat)
    requires ValidCode(c)
    ensures Power(c.g, Exp(c.g, c.prim * a), c.iprim) == Exp(c.g, a)
  {
    hide Exp, Power;
    var g: Field := c.g;
    var t: nat :| c.iprim * c.prim == 1 + t * Nn(c);
    PowerExp(g, c.prim * a, c.iprim);
    UndoPrimExponent(c.prim, c.iprim, t, Nn(c), a);
    ExpPeriod(g, a, t * a);
  }

  lemma UndoPrimExponent(p: nat, ip: nat, t: nat, nn: nat, a: nat)
    requires ip * p == 1 + t * nn
    ensures (p * a) * ip == a + (t * a) * nn
  {
    assert (p * a) * ip == (ip * p) * a;
    assert (1 + t * nn) * a == a + (t * nn) * a;
    assert (t * nn) * a == (t * a) * nn;
  }

  lemma PointsDistinct(c: Code, n: nat)
    requires ValidCode(c) && n <= Nn(c)
    ensures Distinct(Points(c, n)) && AllIn(c.g, Points(c, n))
    ensures forall j :: 0 <= j < n ==> Points(c, n)[j] != 0
  {
    hide Exp;
    var g: Field := c.g;
    var xs := Points(c, n);
    forall j | 0 <= j < n ensures In(g, xs[j]) && xs[j] != 0 {
      ExpIn(g, c.prim * (n - 1 - j));
      ExpNonzero(g, c.prim * (n - 1 - j));
    }
    forall i, j | 0 <= i < j < n ensures xs[i] != xs[j] {
      if xs[i] == xs[j] {
        CoprimeExponents(c, n - 1 - i, n - 1 - j);
      }
    }
  }

  // ----- Scaling away the first consecutive root -----

  ghost function Scaled(g: Gf, y: seq<nat>, xs: seq<nat>, k: nat): (w: seq<nat>)
    requires |y| == |xs|
    ensures |w| == |y| && forall l :: 0 <= l < |y| ==> w[l] == Mul(g, y[l], Power(g, xs[l], k))
  {
    seq(|y|, l requires 0 <= l < |y| => Mul(g, y[l], Power(g, xs[l], k)))
  }

  lemma PowerSumScaled(g: Field, y: seq<nat>, xs: seq<nat>, k: nat, i: nat)
    requires |y| == |xs|
    ensures PowerSum(g, y, xs, k + i) == PowerSum(g, Scaled(g, y, xs, k), xs, i)
  {
    hide Mul, Xor, PowerTerm, Power;
    var w := Scaled(g, y, xs, k);
    forall l: nat | l < |xs| ensures PowerTerm(g, y, xs, k + i)(l) == PowerTerm(g, w, xs, i)(l) {
      PowerTermAt(g, y, xs, k + i, l);
      PowerTermAt(g, w, xs, i, l);
      PowerAdd(g, xs[l], k, i);
      MulAssoc(g, y[l], Power(g, xs[l], k), Power(g, xs[l], i));
    }
    SumEq(PowerTerm(g, y, xs, k + i), PowerTerm(g, w, xs, i), |xs|);
  }

  lemma ScaledIn(g: Field, y: seq<nat>, xs: seq<nat>, k: nat)
    requires |y| == |xs|
    ensures AllIn(g, Scaled(g, y, xs, k))
  {
    hide Mul, Power;
    forall l | 0 <= l < |y| ensures In(g, Scaled(g, y, xs, k)[l]) {
      MulIn(g, y[l], Power(g, xs[l], k));
    }
  }

  lemma ScaledNonzero(g: Field, y: seq<nat>, xs: seq<nat>, k: nat, l: nat)
    requires |y| == |xs| && l < |y| && AllIn(g, y) && AllIn(g, xs) && xs[l] != 0
    ensures Scaled(g, y, xs, k)[l] == 0 <==> y[l] == 0
  {
    hide Mul, Power;
    PowerIn(g, xs[l], k);
    PowerNonzero(g, xs[l], k);
    MulNonzero(g, y[l], Power(g, xs[l], k));
  }

  // ----- Power sums over the symbols that matter -----

  ghost function Support(e: seq<nat>): (ps: seq<nat>)
    ensures forall k :: 0 <= k < |ps| ==> ps[k] < |e| && e[ps[k]] != 0
    ensures forall k, m :: 0 <= k < m < |ps| ==> ps[k] < ps[m]
    ensures forall j :: 0 <= j < |e| && e[j] != 0 ==> j in ps
    ensures |ps| <= |e|
  {
    if e == [] then []
    else
      var n := |e| - 1;
      if e[n] != 0 then Support(e[..n]) + [n] else Support(e[..n])
  }

  lemma PowerSumStep(g: Gf, w: seq<nat>, xs: seq<nat>, j: nat, v: nat)
    requires |w| == |xs| == v + 1
    ensures PowerSum(g, w, xs, j) == Xor(PowerSum(g, w[..v], xs[..v], j), Mul(g, w[v], Power(g, xs[v], j)))
  {
    hide Mul, Xor, PowerTerm, Power;
    var f, h := PowerTerm(g, w, xs, j), PowerTerm(g, w[..v], xs[..v], j);
    forall l: nat | l < v ensures f(l) == h(l) {
      PowerTermAt(g, w, xs, j, l);
      PowerTermAt(g, w[..v], xs[..v], j, l);
    }
    SumEq(f, h, v);
    PowerTermAt(g, w, xs, j, v);
  }

  lemma {:induction false} PowerSumSupport(g: Field, e: seq<nat>, xs: seq<nat>, j: nat)
    requires |e| == |xs|
    ensures PowerSum(g, e, xs, j) == PowerSum(g, Pick(e, Support(e)), Pick(xs, Support(e)), j)
  {
    hide Mul, Xor, PowerSum, Power;
    if |e| == 0 {
      assert Pick(e, Support(e)) == e && Pick(xs, Support(e)) == xs;
    } else {
      var n := |e| - 1;
      PowerSumSupport(g, e[..n], xs[..n], j);
      PowerSumStep(g, e, xs, j, n);
      var ps, qs := Support(e[..n]), Support(e);
      var a, b := Pick(e, qs), Pick(xs, qs);
      if e[n] != 0 {
        var v := |ps|;
        assert a[..v] == Pick(e[..n], ps) && b[..v] == Pick(xs[..n], ps);
        PowerSumStep(g, a, b, j, v);
      } else {
        assert a == Pick(e[..n], ps) && b == Pick(xs[..n], ps);
        MulZero(g, Power(g, xs[n], j));
        XorZero(PowerSum(g, e[..n], xs[..n], j));
      }
    }
  }

  lemma PowerSumDifference(g: Field, a: seq<nat>, b: seq<nat>, xs: seq<nat>, j: nat)
    requires |a| == |b| == |xs|
    ensures PowerSum(g, Difference(a, b), xs, j) == Xor(PowerSum(g, a, xs, j), PowerSum(g, b, xs, j))
  {
    hide Mul, Xor, Plus, PowerTerm, Power;
    var d := Difference(a, b);
    var f, h := PowerTerm(g, a, xs, j), PowerTerm(g, b, xs, j);
    SumAdd(f, h, |xs|);
    forall l: nat | l < |xs| ensures PowerTerm(g, d, xs, j)(l) == Plus(f, h)(l) {
      PlusAt(f, h, l);
      PowerTermAt(g, a, xs, j, l);
      PowerTermAt(g, b, xs, j, l);
      PowerTermAt(g, d, xs, j, l);
      MulDistrib(g, Power(g, xs[l], j), a[l], b[l]);
    }
    SumEq(PowerTerm(g, d, xs, j), Plus(f, h), |xs|);
  }

  lemma SyndromeDifference(c: Code, a: seq<nat>, b: seq<nat>, i: nat)
    requires Primitive(c.g) && |a| == |b| && AllIn(c.g, a) && AllIn(c.g, b)
    ensures Syndrome(c, Difference(a, b), i) == Xor(Syndrome(c, a, i), Syndrome(c, b, i))
  {
    hide Mul, Xor, Syndrome, PowerSum;
    var g: Field := c.g;
    DifferenceIn(g, a, b);
    SyndromeIsPowerSum(c, a, i);
    SyndromeIsPowerSum(c, b, i);
    SyndromeIsPowerSum(c, Difference(a, b), i);
    PowerSumDifference(g, a, b, Points(c, |a|), c.fcr + i);
  }

  // ----- Minimum distance -----

  ghost function ShiftedSum(g: Gf, y: seq<nat>, xs: seq<nat>, k: nat, i: nat): nat {
    PowerSum(g, y, xs, k + i)
  }

  // Distinct locators with as many vanishing power sums carry no weight.
  lemma ShiftedVandermonde(g: Field, y: seq<nat>, xs: seq<nat>, k: nat)
    requires |y| == |xs| && AllIn(g, y) && AllIn(g, xs) && Distinct(xs)
    requires forall l :: 0 <= l < |xs| ==> xs[l] != 0
    requires forall i :: 0 <= i < |xs| ==> ShiftedSum(g, y, xs, k, i) == 0
    ensures forall l :: 0 <= l < |y| ==> y[l] == 0
  {
    hide Mul, Xor, PowerSum, Power;
    var w := Scaled(g, y, xs, k);
    ScaledIn(g, y, xs, k);
    forall i | 0 <= i < |xs| ensures PowerSum(g, w, xs, i) == 0 {
      assert ShiftedSum(g, y, xs, k, i) == 0;
      PowerSumScaled(g, y, xs, k, i);
    }
    Vandermonde(g, w, xs);
    forall l | 0 <= l < |y| ensures y[l] == 0 {
      ScaledNonzero(g, y, xs, k, l);
    }
  }

  lemma SupportPoints(c: Code, e: seq<nat>)
    requires ValidCode(c) && |e| <= Nn(c) && AllIn(c.g, e)
    ensures var xs := Pick(Points(c, |e|), Support(e));
      Distinct(xs) && AllIn(c.g, xs) && forall l :: 0 <= l < |xs| ==> xs[l] != 0
    ensures var y := Pick(e, Support(e));
      AllIn(c.g, y) && forall l :: 0 <= l < |y| ==> y[l] != 0
  {
    PointsDistinct(c, |e|);
  }

  lemma CodewordDifference(c: Code, a: seq<nat>, b: seq<nat>, i: nat)
    requires ValidCode(c) && IsCodeword(c, a) && IsCodeword(c, b) && i < c.nroots
    ensures PowerSum(c.g, Difference(a, b), Points(c, |a|), c.fcr + i) == 0
  {
    hide Mul, Xor, PowerSum, Syndrome, Points;
    var g: Field := c.g;
    var d := Difference(a, b);
    DifferenceIn(g, a, b);
    SyndromeDifference(c, a, b, i);
    assert Syndromes(c, a)[i] == 0 && Syndromes(c, b)[i] == 0;
    XorZero(0);
    SyndromeIsPowerSum(c, d, i);
  }

  // Two codewords differ in more than nroots symbols or not at all.
  lemma MinimumDistance(c: Code, a: seq<nat>, b: seq<nat>)
    requires ValidCode(c) && IsCodeword(c, a) && IsCodeword(c, b)
    requires |Support(Difference(a, b))| <= c.nroots
    ensures a == b
  {
    hide Mul, Xor, PowerSum, Power, Syndrome, Exp, Points;
    var g: Field := c.g;
    var d := Difference(a, b);
    DifferenceIn(g, a, b);
    var ps := Support(d);
    var y, xs := Pick(d, ps), Pick(Points(c, |d|), ps);
    SupportPoints(c, d);
    forall i | 0 <= i < |xs| ensures ShiftedSum(g, y, xs, c.fcr, i) == 0 {
      CodewordDifference(c, a, b, i);
      PowerSumSupport(g, d, Points(c, |d|), c.fcr + i);
    }
    assert ps != [] ==> y[0] != 0;
    ShiftedVandermonde(g, y, xs, c.fcr);
    DifferenceZero(a, b);
  }

  // ----- Counting the symbols in which two blocks differ -----

  ghost function Hamming(a: seq<nat>, b: seq<nat>): nat
    requires |a| == |b|
  {
    |Support(Difference(a, b))|
  }

  lemma HammingStep(a: seq<nat>, b: seq<nat>, n: nat)
    requires |a| == |b| == n + 1
    ensures Hamming(a, b) == Hamming(a[..n], b[..n]) + (if a[n] != b[n] then 1 else 0)
  {
    hide Xor;
    assert Difference(a, b)[..n] == Difference(a[..n], b[..n]);
    XorCancel(a[n], b[n]);
  }

  lemma {:induction false} HammingSymmetric(a: seq<nat>, b: seq<nat>)
    requires |a| == |b|
    ensures Hamming(a, b) == Hamming(b, a)
  {
    hide Hamming;
    if |a| > 0 {
      HammingStep(a, b, |a| - 1);
      HammingStep(b, a, |a| - 1);
      HammingSymmetric(a[..|a| - 1], b[..|a| - 1]);
    } else {
      assert a == b;
    }
  }

  lemma {:induction false} HammingTriangle(a: seq<nat>, b: seq<nat>, c: seq<nat>)
    requires |a| == |b| == |c|
    ensures Hamming(a, c) <= Hamming(a, b) + Hamming(b, c)
  {
    if |a| > 0 {
      hide Hamming;
      var n := |a| - 1;
      HammingStep(a, b, n);
      HammingStep(b, c, n);
      HammingStep(a, c, n);
      HammingTriangle(a[..n], b[..n], c[..n]);
    }
  }

  lemma {:induction false} HammingSelf(a: seq<nat>)
    ensures Hamming(a, a) == 0
  {
    if |a| > 0 {
      hide Hamming;
      HammingStep(a, a, |a| - 1);
      HammingSelf(a[..|a| - 1]);
    }
  }

  lemma {:induction false} HammingUpdate(a: seq<nat>, k: nat, y: nat)
    requires k < |a|
    ensures Hamming(a, a[k := y]) <= 1
  {
    hide Hamming;
    var n := |a| - 1;
    HammingStep(a, a[k := y], n);
    if k < n {
      assert a[k := y][..n] == a[..n][k := y];
      HammingUpdate(a[..n], k, y);
    } else {
      assert a[k := y][..n] == a[..n];
      HammingSelf(a[..n]);
    }
  }

  // ----- What a list of corrections does to the syndromes -----

  ghost function Spike(n: nat, k: nat, y: nat): (e: seq<nat>)
    ensures |e| == n && forall j :: 0 <= j < n ==> e[j] == if j == k then y else 0
  {
    seq(n, j => if j == k then y else 0)
  }

  lemma SpikeSum(c: Code, n: nat, k: nat, y: nat, j: nat)
    requires Primitive(c.g) && k < n
    ensures PowerSum(c.g, Spike(n, k, y), Points(c, n), j) == Mul(c.g, y, Power(c.g, Point(c, n, k), j))
  {
    hide Mul, Xor, PowerTerm, Power, Point;
    var g: Field := c.g;
    var e, xs := Spike(n, k, y), Points(c, n);
    var f := PowerTerm(g, e, xs, j);
    forall l: nat | l < n && l != k ensures f(l) == 0 {
      PowerTermAt(g, e, xs, j, l);
      MulZero(g, Power(g, xs[l], j));
    }
    SumSingle(f, k, n);
    PowerTermAt(g, e, xs, j, k);
  }

  lemma SpikeDifference(blk: seq<nat>, k: nat, y: nat)
    requires k < |blk|
    ensures Difference(blk, Spike(|blk|, k, y)) == blk[k := Xor(blk[k], y)]
  {
    hide Xor;
    forall j | 0 <= j < |blk| ensures Difference(blk, Spike(|blk|, k, y))[j] == blk[k := Xor(blk[k], y)][j] {
      XorZero(blk[j]);
    }
  }

  lemma SyndromeUpdate(c: Code, blk: seq<nat>, k: nat, y: nat, i: nat)
    requires Primitive(c.g) && AllIn(c.g, blk) && In(c.g, y) && k < |blk|
    ensures Syndrome(c, blk[k := Xor(blk[k], y)], i)
         == Xor(Syndrome(c, blk, i), Mul(c.g, y, Power(c.g, Point(c, |blk|, k), c.fcr + i)))
  {
    hide Mul, Xor, Power, PowerSum, Syndrome, Point;
    var n := |blk|;
    var e := Spike(n, k, y);
    assert AllIn(c.g, e) by {
      assert Size(c.g) >= 1;
    }
    SpikeDifference(blk, k, y);
    SyndromeDifference(c, blk, e, i);
    SyndromeIsPowerSum(c, e, i);
    SpikeSum(c, n, k, y, c.fcr + i);
  }

  // The locator of a position counted in the unshortened block.
  ghost function LocationPoint(c: Code, loc: nat): nat
    requires loc < Nn(c)
  {
    Exp(c.g, c.prim * (Nn(c) - 1 - loc))
  }

  ghost function LocationPoints(c: Code, locs: seq<nat>): (xs: seq<nat>)
    requires Locations(c, locs)
    ensures |xs| == |locs| && forall l :: 0 <= l < |locs| ==> xs[l] == LocationPoint(c, locs[l])
  {
    seq(|locs|, l requires 0 <= l < |locs| => LocationPoint(c, locs[l]))
  }

  // Corrections that fall into the padding have no effect.
  ghost function Effective(c: Code, locs: seq<nat>, ys: seq<nat>): (w: seq<nat>)
    requires |locs| == |ys|
    ensures |w| == |ys| && forall l :: 0 <= l < |ys| ==> w[l] == if locs[l] >= c.pad then ys[l] else 0
  {
    seq(|ys|, l requires 0 <= l < |ys| => if locs[l] >= c.pad then ys[l] else 0)
  }

  ghost function TailSum(g: Gf, w: seq<nat>, xs: seq<nat>, k: nat, j: nat): nat
    requires |w| == |xs| && j <= |w|
    decreases |w| - j
  {
    if j == |w| then 0
    else Xor(TailSum(g, w, xs, k, j + 1), Mul(g, w[j], Power(g, xs[j], k)))
  }

  lemma {:induction false} TailSumSplit(g: Field, w: seq<nat>, xs: seq<nat>, k: nat, j: nat)
    requires |w| == |xs| && j <= |w|
    ensures PowerSum(g, w, xs, k) == Xor(PowerSum(g, w[..j], xs[..j], k), TailSum(g, w, xs, k, j))
    decreases |w| - j
  {
    hide Mul, Xor, PowerSum, Power;
    if j == |w| {
      assert w[..j] == w && xs[..j] == xs;
      XorZero(PowerSum(g, w, xs, k));
    } else {
      TailSumSplit(g, w, xs, k, j + 1);
      assert w[..j + 1][..j] == w[..j] && xs[..j + 1][..j] == xs[..j];
      PowerSumStep(g, w[..j + 1], xs[..j + 1], k, j);
      var a, b, t := PowerSum(g, w[..j], xs[..j], k), Mul(g, w[j], Power(g, xs[j], k)), TailSum(g, w, xs, k, j + 1);
      XorAssoc(a, b, t);
      XorComm(b, t);
    }
  }

  lemma FixIn(c: Code, blk: seq<nat>, loc: nat, y: nat)
    requires IsBlock(c, blk) && loc < Nn(c) && In(c.g, y)
    ensures IsBlock(c, Fix(c, blk, loc, y))
    ensures Hamming(blk, Fix(c, blk, loc, y)) <= 1
  {
    hide Xor, Hamming;
    if loc >= c.pad {
      XorBound(blk[loc - c.pad], y, c.g.mm);
      HammingUpdate(blk, loc - c.pad, Xor(blk[loc - c.pad], y));
    } else {
      HammingSelf(blk);
    }
  }

  lemma FixSyndrome(c: Code, blk: seq<nat>, loc: nat, y: nat, i: nat)
    requires Primitive(c.g) && IsBlock(c, blk) && loc < Nn(c) && In(c.g, y)
    ensures Syndrome(c, Fix(c, blk, loc, y), i)
         == Xor(Syndrome(c, blk, i),
                Mul(c.g, if loc >= c.pad then y else 0, Power(c.g, LocationPoint(c, loc), c.fcr + i)))
  {
    hide Xor, Mul, Power, Syndrome, Exp;
    if loc >= c.pad {
      SyndromeUpdate(c, blk, loc - c.pad, y, i);
      assert Len(c) - 1 - (loc - c.pad) == Nn(c) - 1 - loc;
    } else {
      MulZero(c.g, Power(c.g, LocationPoint(c, loc), c.fcr + i));
      XorZero(Syndrome(c, blk, i));
    }
  }

  lemma {:induction false} CorrectSyndrome(c: Code, blk: seq<nat>, locs: seq<nat>, ys: seq<nat>, j: nat, i: nat)
    requires Primitive(c.g) && IsBlock(c, blk) && |locs| == |ys| && j <= |locs|
    requires Locations(c, locs) && AllIn(c.g, ys)
    ensures IsBlock(c, Correct(c, blk, locs, ys, j))
    ensures Hamming(blk, Correct(c, blk, locs, ys, j)) <= |locs| - j
    ensures Syndrome(c, Correct(c, blk, locs, ys, j), i)
         == Xor(Syndrome(c, blk, i), TailSum(c.g, Effective(c, locs, ys), LocationPoints(c, locs), c.fcr + i, j))
    decreases |locs| - j
  {
    hide Xor, Mul, Power, Syndrome, LocationPoint, Fix, Hamming;
    if j == |locs| {
      XorZero(Syndrome(c, blk, i));
      HammingSelf(blk);
    } else {
      var b := Correct(c, blk, locs, ys, j + 1);
      CorrectSyndrome(c, blk, locs, ys, j + 1, i);
      FixIn(c, b, locs[j], ys[j]);
      FixSyndrome(c, b, locs[j], ys[j], i);
      HammingTriangle(blk, b, Fix(c, b, locs[j], ys[j]));
      XorAssoc(Syndrome(c, blk, i),
        TailSum(c.g, Effective(c, locs, ys), LocationPoints(c, locs), c.fcr + i, j + 1),
        Mul(c.g, Effective(c, locs, ys)[j], Power(c.g, LocationPoint(c, locs[j]), c.fcr + i)));
    }
  }

  // All corrections together add their power sum to every syndrome.
  lemma CorrectedSyndrome(c: Code, blk: seq<nat>, locs: seq<nat>, ys: seq<nat>, i: nat)
    requires Primitive(c.g) && IsBlock(c, blk) && |locs| == |ys| && Locations(c, locs) && AllIn(c.g, ys)
    ensures IsBlock(c, Correct(c, blk, locs, ys, 0))
    ensures Hamming(blk, Correct(c, blk, locs, ys, 0)) <= |locs|
    ensures Syndrome(c, Correct(c, blk, locs, ys, 0), i)
         == Xor(Syndrome(c, blk, i), PowerSum(c.g, Effective(c, locs, ys), LocationPoints(c, locs), c.fcr + i))
  {
    hide Xor, Mul, Power, Syndrome, LocationPoint, Fix, Hamming, Correct, TailSum;
    var w, xs := Effective(c, locs, ys), LocationPoints(c, locs);
    CorrectSyndrome(c, blk, locs, ys, 0, i);
    TailSumSplit(c.g, w, xs, c.fcr + i, 0);
    XorZero(TailSum(c.g, w, xs, c.fcr + i, 0));
    assert w[..0] == [] && xs[..0] == [];
  }
}
