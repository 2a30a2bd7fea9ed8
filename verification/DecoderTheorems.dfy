/** The main results about the Reed-Solomon decoder: when its output is a
    codeword, and that it corrects every pattern of at most nroots/2 errors. */
module DecoderTheorems {
  import opened Bits
  import opened Collections
  import opened Galois
  import opened Poly
  import opened Massey
  import opened Locator
  import opened ReedSolomon
  import opened Decoding

  // ----- Chien search and locations -----

  lemma LocationProduct(p: nat, ip: nat, t: nat, nn: nat, k: nat, u: int, loc: nat)
    requires ip * p == 1 + t * nn && k * ip - 1 == u * nn + loc
    ensures p * (nn - 1 - loc) + k == (p * (1 + u) - k * t) * nn
  {
    assert p * (k * ip - 1 - u * nn) == k * (ip * p) - p - (p * u) * nn;
    assert k * (1 + t * nn) == k + (k * t) * nn;
    assert p * (nn - 1 - loc) == p * nn - p - p * loc;
    assert p * loc == p * (k * ip - 1 - u * nn);
    assert (p * (1 + u) - k * t) * nn == p * nn + (p * u) * nn - (k * t) * nn;
  }

  lemma LocationExponent(p: nat, ip: nat, t: nat, nn: nat, k: nat, u: int, loc: nat) returns (z: nat)
    requires ip * p == 1 + t * nn && k * ip - 1 == u * nn + loc && loc < nn
    ensures p * (nn - 1 - loc) + k == z * nn
  {
    LocationProduct(p, ip, t, nn, k, u, loc);
    var y := p * (1 + u) - k * t;
    var m := nn - 1 - loc;
    assert p * m >= 0;
    NonnegativeFactor(y, nn, p * m + k);
    z := y;
  }

  lemma LocationDivision(c: Code, k: nat) returns (u: int)
    requires Nn(c) > 0 && k * c.iprim >= 1
    ensures k * c.iprim - 1 == u * Nn(c) + Location(c, k) && Location(c, k) < Nn(c)
  {
    u := (k * c.iprim - 1) / Nn(c);
  }

  lemma RootExponent(c: Code, k: nat) returns (z: nat)
    requires ValidCode(c) && k * c.iprim >= 1
    ensures c.prim * (Nn(c) - 1 - Location(c, k)) + k == z * Nn(c)
  {
    hide Location, Exp;
    var t: nat :| c.iprim * c.prim == 1 + t * Nn(c);
    var u := LocationDivision(c, k);
    z := LocationExponent(c.prim, c.iprim, t, Nn(c), k, u, Location(c, k));
  }

  // The locator a root's location stands for is the inverse of the root.
  lemma RootInverse(c: Code, k: nat)
    requires ValidCode(c) && k * c.iprim >= 1
    ensures Location(c, k) < Nn(c)
    ensures Mul(c.g, LocationPoint(c, Location(c, k)), Exp(c.g, k)) == 1
  {
    hide Mul, Exp, Location;
    var g: Field := c.g;
    var _ := LocationDivision(c, k);
    var z := RootExponent(c, k);
    hide ValidCode, Primitive, LocationPoint;
    var e := LocationPower(c, Location(c, k));
    InversePowers(g, e, k, z);
  }

  lemma LocationPower(c: Code, loc: nat) returns (e: nat)
    requires loc < Nn(c)
    ensures e == c.prim * (Nn(c) - 1 - loc) && LocationPoint(c, loc) == Exp(c.g, e)
  {
    e := NatProduct(c.prim, Nn(c) - 1 - loc);
    hide Exp, Size;
  }

  lemma NatProduct(a: nat, b: nat) returns (e: nat)
    ensures e == a * b
  {
    e := a * b;
  }

  lemma InversePowers(g: Field, e: nat, k: nat, z: nat)
    requires e + k == z * (Size(g) - 1)
    ensures Mul(g, Exp(g, e), Exp(g, k)) == 1
  {
    hide Mul, Exp;
    MulExp(g, e, k);
    ExpPeriod(g, 0, z);
    ExpOne(g);
  }

  lemma NonnegativeFactor(z: int, n: nat, m: nat)
    requires z * n == m && n > 0
    ensures z >= 0
  {
    if z < 0 {
      MulAtLeast(-z, n);
    }
  }

  lemma ExpInjectiveFromOne(g: Field, i: nat, j: nat)
    requires 1 <= i <= Size(g) - 1 && 1 <= j <= Size(g) - 1 && Exp(g, i) == Exp(g, j)
    ensures i == j
  {
    hide Exp;
    var nn := Size(g) - 1;
    ExpPeriod(g, 0, 1);
    var a, b := if i == nn then 0 else i, if j == nn then 0 else j;
    ExpInjective(g, a, b);
  }

  ghost function RootValues(g: Gf, ks: seq<nat>): (rs: seq<nat>)
    ensures |rs| == |ks| && forall l :: 0 <= l < |ks| ==> rs[l] == Exp(g, ks[l])
  {
    seq(|ks|, l requires 0 <= l < |ks| => Exp(g, ks[l]))
  }

  lemma {:induction false} FirstRootsComplete(g: Gf, p: seq<nat>, most: nat, n: nat, k: nat)
    requires 1 <= k <= n && Eval(g, p, Exp(g, k), most + 1) == 0
    requires |FirstRoots(g, p, most, n)| < most
    ensures k in FirstRoots(g, p, most, n)
  {
    hide Eval, Exp;
    if k < n {
      FirstRootsComplete(g, p, most, n - 1, k);
    }
  }

  // ----- The received block as the decoder sees it -----

  lemma SyndromesIn(c: Code, blk: seq<nat>)
    requires ValidCode(c) && AllIn(c.g, blk)
    ensures AllIn(c.g, Syndromes(c, blk))
  {
    hide Syndrome;
    forall i | 0 <= i < c.nroots ensures In(c.g, Syndromes(c, blk)[i]) {
      HornerIn(c.g, blk, Exp(c.g, (c.fcr + i) * c.prim));
      SyndromeIsHorner(c, blk, i);
    }
  }

  lemma SyndromeIsHorner(c: Code, blk: seq<nat>, i: nat)
    ensures Syndrome(c, blk, i) == Horner(c.g, blk, Exp(c.g, (c.fcr + i) * c.prim))
  {
  }

  lemma {:induction false} HornerIn(g: Field, p: seq<nat>, x: nat)
    requires AllIn(g, p)
    ensures In(g, Horner(g, p, x))
  {
    hide Mul, Xor;
    if p != [] {
      HornerIn(g, p[..|p| - 1], x);
      MulIn(g, x, Horner(g, p[..|p| - 1], x));
      XorBound(p[|p| - 1], Mul(g, x, Horner(g, p[..|p| - 1], x)), g.mm);
    }
  }

  ghost function FoundLocations(c: Code, blk: seq<nat>): (locs: seq<nat>)
    requires ValidCode(c)
    ensures Locations(c, locs) && |locs| == |RootsFound(c, blk)|
  {
    LocationsOf(c, RootsFound(c, blk))
  }

  ghost function FoundPoints(c: Code, blk: seq<nat>): (xs: seq<nat>)
    requires ValidCode(c)
    ensures |xs| == |RootsFound(c, blk)|
  {
    LocationPoints(c, FoundLocations(c, blk))
  }

  // The Chien search succeeded: as many roots as the degree of lambda.
  ghost predicate SearchComplete(c: Code, blk: seq<nat>)
    requires ValidCode(c)
  {
    |RootsFound(c, blk)| == Degree(Lambda(c, blk))
  }

  lemma FoundInverse(c: Code, blk: seq<nat>, l: nat)
    requires ValidCode(c) && l < |RootsFound(c, blk)|
    ensures Mul(c.g, FoundPoints(c, blk)[l], Exp(c.g, RootsFound(c, blk)[l])) == 1
    ensures In(c.g, FoundPoints(c, blk)[l]) && FoundPoints(c, blk)[l] != 0
  {
    hide Mul, Exp, RootsFound, Location, LocationPoint;
    var k := RootsFound(c, blk)[l];
    MulAtLeast(k, c.iprim);
    RootInverse(c, k);
    LocationPointIn(c, Location(c, k));
  }

  lemma LocationPointIn(c: Code, loc: nat)
    requires ValidCode(c) && loc < Nn(c)
    ensures In(c.g, LocationPoint(c, loc)) && LocationPoint(c, loc) != 0
  {
    hide Exp;
    var m := Nn(c) - 1 - loc;
    var e := c.prim * m;
    ExpIn(c.g, e);
    ExpNonzero(c.g, e);
  }

  lemma LambdaGenerates(c: Code, blk: seq<nat>)
    requires ValidCode(c)
    ensures Generates(c.g, Lambda(c, blk), RecurrenceLength(c, blk), Syndromes(c, blk), c.nroots)
    ensures RecurrenceLength(c, blk) <= c.nroots
    ensures Degree(Lambda(c, blk)) <= RecurrenceLength(c, blk)
  {
    hide Generates, Conv;
    KeyEquation(c.g, Syndromes(c, blk), c.nroots);
    assert Generates(c.g, Lambda(c, blk), RecurrenceLength(c, blk), Syndromes(c, blk), c.nroots);
    GeneratesDegree(c.g, Lambda(c, blk), RecurrenceLength(c, blk), Syndromes(c, blk), c.nroots);
  }

  lemma GeneratesDegree(g: Gf, p: seq<nat>, len: nat, s: seq<nat>, r: nat)
    requires Generates(g, p, len, s, r)
    ensures p[0] == 1 && AllIn(g, p) && Degree(p) <= len
  {
  }

  lemma FoundRootEval(c: Code, blk: seq<nat>, l: nat)
    requires ValidCode(c) && l < |RootsFound(c, blk)|
    ensures Eval(c.g, Lambda(c, blk), Exp(c.g, RootsFound(c, blk)[l]), c.nroots + 1) == 0
  {
    hide Eval, Exp, Lambda;
    var p := Lambda(c, blk);
    var d := Degree(p);
    FirstRootsRange(c.g, p, d, Nn(c));
    EvalDegree(c.g, p, d, Exp(c.g, RootsFound(c, blk)[l]), d + 1);
  }

  lemma RootValuesDistinct(c: Code, blk: seq<nat>)
    requires ValidCode(c)
    ensures Distinct(RootValues(c.g, RootsFound(c, blk)))
    ensures AllIn(c.g, RootValues(c.g, RootsFound(c, blk)))
    ensures forall l :: 0 <= l < |RootsFound(c, blk)| ==> RootValues(c.g, RootsFound(c, blk))[l] != 0
  {
    hide Exp, Eval, Lambda;
    var p := Lambda(c, blk);
    var ks := RootsFound(c, blk);
    FirstRootsRange(c.g, p, Degree(p), Nn(c));
    forall l, m | 0 <= l < m < |ks| ensures RootValues(c.g, ks)[l] != RootValues(c.g, ks)[m] {
      if Exp(c.g, ks[l]) == Exp(c.g, ks[m]) {
        ExpInjectiveFromOne(c.g, ks[l], ks[m]);
      }
    }
    forall l | 0 <= l < |ks| ensures In(c.g, RootValues(c.g, ks)[l]) && RootValues(c.g, ks)[l] != 0 {
      ExpIn(c.g, ks[l]);
      ExpNonzero(c.g, ks[l]);
    }
  }

  lemma FoundLocated(c: Code, blk: seq<nat>)
    requires ValidCode(c) && SearchComplete(c, blk)
    ensures Located(c.g, Lambda(c, blk), FoundPoints(c, blk), RootValues(c.g, RootsFound(c, blk)))
  {
    hide Mul, Exp, Eval, Lambda, RootsFound, FoundPoints, Generates;
    var p, ks := Lambda(c, blk), RootsFound(c, blk);
    var xs, rs := FoundPoints(c, blk), RootValues(c.g, ks);
    LambdaGenerates(c, blk);
    GeneratesDegree(c.g, p, RecurrenceLength(c, blk), Syndromes(c, blk), c.nroots);
    RootValuesDistinct(c, blk);
    forall l | 0 <= l < |xs|
      ensures In(c.g, xs[l]) && Mul(c.g, xs[l], rs[l]) == 1 && Eval(c.g, p, rs[l], |p|) == 0
    {
      FoundInverse(c, blk, l);
      FoundRootEval(c, blk, l);
    }
  }

  // ----- Forney's formula, as the decoder evaluates it -----

  lemma Num2Scaled(c: Code, k: nat, x: nat)
    requires ValidCode(c) && k <= Nn(c) && In(c.g, x) && Mul(c.g, x, Exp(c.g, k)) == 1
    ensures Mul(c.g, Exp(c.g, Num2Exponent(c, k)), Power(c.g, x, c.fcr)) == x
  {
    hide Mul, Exp;
    var g: Field := c.g;
    var r := Exp(g, k);
    ExpIn(g, k);
    ExpNonzero(g, k);
    if c.fcr == 0 {
      var a := Exp(g, Nn(c) - k);
      ExpIn(g, Nn(c) - k);
      MulExp(g, Nn(c) - k, k);
      ExpPeriod(g, 0, 1);
      ExpOne(g);
      MulComm(g, r, a);
      MulComm(g, r, x);
      CancelFactor(g, r, a, x);
      MulOne(g, a);
    } else {
      var f := c.fcr - 1;
      ExpPeriod(g, k * f, 1);
      PowerExp(g, k, f);
      var a, b := Power(g, r, f), Power(g, x, f);
      PowerCancel(g, x, r, f);
      MulComm(g, b, a);
      MulComm(g, x, b);
      MulAssoc(g, a, b, x);
      MulOne(g, x);
    }
  }

  lemma FoundQuotientTail(c: Code, blk: seq<nat>, l: nat, n: nat)
    requires ValidCode(c) && SearchComplete(c, blk) && l < |RootsFound(c, blk)|
    requires |RootsFound(c, blk)| <= n <= c.nroots + 1
    ensures var q := Quotient(c.g, Lambda(c, blk), FoundPoints(c, blk)[l]);
      var r := Exp(c.g, RootsFound(c, blk)[l]);
      Eval(c.g, q, r, n) == Eval(c.g, q, r, |RootsFound(c, blk)|)
  {
    hide Mul, Exp, Eval, Lambda, RootsFound, FoundPoints, Quotient;
    FoundLocated(c, blk);
    var p, ks := Lambda(c, blk), RootsFound(c, blk);
    var xs, rs := FoundPoints(c, blk), RootValues(c.g, ks);
    forall j | |ks| <= j < n ensures At(Quotient(c.g, p, xs[l]), j) == 0 {
      QuotientDegree(c.g, p, |ks|, xs[l], rs[l], j);
    }
    EvalTail(c.g, Quotient(c.g, p, xs[l]), |ks|, rs[l], n);
  }

  lemma DerivativeRange(c: Code, d: nat)
    requires 1 <= d <= c.nroots
    ensures 0 <= DerivativeTerms(c, d) && d <= 2 * DerivativeTerms(c, d) <= c.nroots + 1
  {
  }

  // The denominator is the derivative of lambda at the root, and it is not zero.
  lemma FoundDerivative(c: Code, blk: seq<nat>, l: nat)
    requires ValidCode(c) && SearchComplete(c, blk) && l < |RootsFound(c, blk)|
    ensures 0 <= DerivativeTerms(c, |RootsFound(c, blk)|)
    ensures var q := Quotient(c.g, Lambda(c, blk), FoundPoints(c, blk)[l]);
      var r := Exp(c.g, RootsFound(c, blk)[l]);
      var den := Derivative(c.g, Lambda(c, blk), r, DerivativeTerms(c, |RootsFound(c, blk)|));
      den == Mul(c.g, FoundPoints(c, blk)[l], Eval(c.g, q, r, |RootsFound(c, blk)|)) && den != 0
  {
    hide Mul, Exp, Eval, Lambda, RootsFound, FoundPoints, Quotient, Derivative, DerivativeTerms;
    FoundLocated(c, blk);
    LambdaGenerates(c, blk);
    var g: Field := c.g;
    var p, ks := Lambda(c, blk), RootsFound(c, blk);
    var xs, rs := FoundPoints(c, blk), RootValues(g, ks);
    DerivativeRange(c, |ks|);
    var t := DerivativeTerms(c, |ks|);
    DerivativeAtRoot(g, p, Quotient(g, p, xs[l]), xs[l], rs[l], t);
    FoundQuotientTail(c, blk, l, 2 * t);
    QuotientAtOwnRoot(g, p, xs, rs, l);
    FoundInverse(c, blk, l);
    EvalIn(g, Quotient(g, p, xs[l]), rs[l], |ks|);
    MulNonzero(g, xs[l], Eval(g, Quotient(g, p, xs[l]), rs[l], |ks|));
  }

  // (n1 n2 / d) f q = n1 when n2 f = x and d = x q.
  lemma ForneyAlgebra(g: Field, n1: nat, n2: nat, d: nat, f: nat, x: nat, q: nat)
    requires In(g, n1) && In(g, d) && d != 0 && Mul(g, n2, f) == x && d == Mul(g, x, q)
    ensures Mul(g, Mul(g, Mul(g, Mul(g, n1, n2), Inv(g, d)), f), q) == n1
  {
    hide Mul;
    var i := Inv(g, d);
    var a := Mul(g, n1, n2);
    MulAssoc(g, a, i, f);
    MulComm(g, i, f);
    MulAssoc(g, a, f, i);
    MulAssoc(g, n1, n2, f);
    var b := Mul(g, n1, x);
    MulAssoc(g, b, i, q);
    MulComm(g, i, q);
    MulAssoc(g, b, q, i);
    MulAssoc(g, n1, x, q);
    MulAssoc(g, n1, d, i);
    MulOne(g, n1);
  }

  lemma ErrorValueParts(c: Code, lambda: seq<nat>, omega: seq<nat>, deg: nat, k: nat)
    requires ValidCode(c) && c.nroots > 0 && k <= Nn(c)
    requires 0 <= DerivativeTerms(c, deg)
    requires Derivative(c.g, lambda, Exp(c.g, k), DerivativeTerms(c, deg)) != 0
    requires In(c.g, Derivative(c.g, lambda, Exp(c.g, k), DerivativeTerms(c, deg)))
    ensures ErrorValue(c, lambda, omega, deg, k)
         == Mul(c.g, Mul(c.g, Eval(c.g, omega, Exp(c.g, k), deg), Exp(c.g, Num2Exponent(c, k))),
                Inv(c.g, Derivative(c.g, lambda, Exp(c.g, k), DerivativeTerms(c, deg))))
  {
    hide Mul, Eval, Exp, Derivative, DerivativeTerms, Num2Exponent;
  }

  lemma ErrorValueIn(c: Code, lambda: seq<nat>, omega: seq<nat>, deg: nat, k: nat)
    requires ValidCode(c) && c.nroots > 0 && k <= Nn(c) && 0 <= DerivativeTerms(c, deg)
    ensures In(c.g, ErrorValue(c, lambda, omega, deg, k))
  {
    hide Mul, Eval, Exp, Derivative, DerivativeTerms, Num2Exponent;
    var g: Field := c.g;
    var den := Derivative(g, lambda, Exp(g, k), DerivativeTerms(c, deg));
    DerivativeIn(g, lambda, Exp(g, k), DerivativeTerms(c, deg));
    MulIn(g, Mul(g, Eval(g, omega, Exp(g, k), deg), Exp(g, Num2Exponent(c, k))), if den == 0 then 1 else Inv(g, den));
  }

  lemma ValuesFoundIn(c: Code, blk: seq<nat>)
    requires ValidCode(c) && c.nroots > 0
    ensures AllIn(c.g, ValuesFound(c, blk))
  {
    hide ErrorValue, Lambda, Omega, RootsFound;
    var p := Lambda(c, blk);
    var omega := Omega(c.g, p, Syndromes(c, blk), Degree(p));
    forall l | 0 <= l < |RootsFound(c, blk)| ensures In(c.g, ValuesFound(c, blk)[l]) {
      ErrorValueIn(c, p, omega, Degree(p), RootsFound(c, blk)[l]);
    }
  }

  // Each computed error value, scaled by its locator, matches the evaluator.
  lemma ForneyHolds(c: Code, blk: seq<nat>, l: nat)
    requires ValidCode(c) && c.nroots > 0 && SearchComplete(c, blk) && l < |RootsFound(c, blk)|
    ensures var g, xs := c.g, FoundPoints(c, blk);
      var v := |RootsFound(c, blk)|;
      var w := Scaled(g, ValuesFound(c, blk), xs, c.fcr);
      var r := Exp(g, RootsFound(c, blk)[l]);
      Mul(g, w[l], Eval(g, Quotient(g, Lambda(c, blk), xs[l]), r, v))
        == Eval(g, Omega(g, Lambda(c, blk), Syndromes(c, blk), v), r, v)
  {
    hide Mul, Exp, Eval, Lambda, RootsFound, FoundPoints, Quotient, Derivative, DerivativeTerms, Num2Exponent, Power,
      Omega, ErrorValue;
    var g: Field := c.g;
    var p, ks, xs := Lambda(c, blk), RootsFound(c, blk), FoundPoints(c, blk);
    var v := |ks|;
    var k, x := ks[l], xs[l];
    var r := Exp(g, k);
    var omega := Omega(g, p, Syndromes(c, blk), v);
    FoundDerivative(c, blk, l);
    DerivativeIn(g, p, r, DerivativeTerms(c, v));
    ErrorValueParts(c, p, omega, v, k);
    FoundInverse(c, blk, l);
    Num2Scaled(c, k, x);
    EvalIn(g, omega, r, v);
    ForneyAlgebra(g, Eval(g, omega, r, v), Exp(g, Num2Exponent(c, k)),
      Derivative(g, p, r, DerivativeTerms(c, v)), Power(g, x, c.fcr), x, Eval(g, Quotient(g, p, x), r, v));
  }

  // ----- When the corrected block is a codeword -----

  ghost predicate InBlock(c: Code, locs: seq<nat>) {
    forall l :: 0 <= l < |locs| ==> locs[l] >= c.pad
  }

  // With a connection polynomial of full length, the error values explain all syndromes.
  lemma ValuesExplainSyndromes(c: Code, blk: seq<nat>)
    requires ValidCode(c) && c.nroots > 0 && IsBlock(c, blk) && SearchComplete(c, blk)
    requires RecurrenceLength(c, blk) == |RootsFound(c, blk)|
    ensures Syndromes(c, blk)
         == PowerSeries(c.g, Scaled(c.g, ValuesFound(c, blk), FoundPoints(c, blk), c.fcr), FoundPoints(c, blk),
           c.nroots)
  {
    hide Mul, Exp, Eval, Lambda, RootsFound, FoundPoints, Quotient, Omega, Located, Generates, RecurrenceLength,
      ValuesFound, PowerSeries, Syndromes;
    var g: Field := c.g;
    var xs, rs := FoundPoints(c, blk), RootValues(g, RootsFound(c, blk));
    var w := Scaled(g, ValuesFound(c, blk), xs, c.fcr);
    FoundLocated(c, blk);
    LambdaGenerates(c, blk);
    SyndromesIn(c, blk);
    forall m | 0 <= m < |xs|
      ensures Mul(g, w[m], Eval(g, Quotient(g, Lambda(c, blk), xs[m]), rs[m], |xs|))
           == Eval(g, Omega(g, Lambda(c, blk), Syndromes(c, blk), |xs|), rs[m], |xs|)
    {
      ForneyHolds(c, blk, m);
    }
    ForneySolves(g, Lambda(c, blk), xs, rs, w, Syndromes(c, blk));
  }

  ghost function Corrected(c: Code, blk: seq<nat>): (out: seq<nat>)
    requires ValidCode(c) && c.nroots > 0 && |blk| == Len(c)
    ensures |out| == |blk|
  {
    Correct(c, blk, FoundLocations(c, blk), ValuesFound(c, blk), 0)
  }

  ghost function EffectiveFound(c: Code, blk: seq<nat>): (w: seq<nat>)
    requires ValidCode(c) && c.nroots > 0
    ensures |w| == |RootsFound(c, blk)|
  {
    Effective(c, FoundLocations(c, blk), ValuesFound(c, blk))
  }

  lemma CorrectedSyndromes(c: Code, blk: seq<nat>, i: nat)
    requires ValidCode(c) && c.nroots > 0 && IsBlock(c, blk)
    ensures IsBlock(c, Corrected(c, blk)) && Hamming(blk, Corrected(c, blk)) <= |RootsFound(c, blk)|
    ensures Syndrome(c, Corrected(c, blk), i)
         == Xor(Syndrome(c, blk, i), PowerSum(c.g, EffectiveFound(c, blk), FoundPoints(c, blk), c.fcr + i))
  {
    hide Mul, Xor, Syndrome, PowerSum, ValuesFound, FoundLocations, Correct, Hamming;
    ValuesFoundIn(c, blk);
    CorrectedSyndrome(c, blk, FoundLocations(c, blk), ValuesFound(c, blk), i);
  }

  lemma BalancedIsCodeword(c: Code, blk: seq<nat>)
    requires ValidCode(c) && c.nroots > 0 && IsBlock(c, blk) && SearchComplete(c, blk)
    requires RecurrenceLength(c, blk) == |RootsFound(c, blk)| && InBlock(c, FoundLocations(c, blk))
    ensures IsCodeword(c, Corrected(c, blk))
  {
    hide Mul, Xor, Syndrome, PowerSum, ValuesFound, FoundLocations, FoundPoints, Corrected, RootsFound,
      RecurrenceLength, Lambda;
    var ys, xs := ValuesFound(c, blk), FoundPoints(c, blk);
    assert EffectiveFound(c, blk) == ys;
    ValuesExplainSyndromes(c, blk);
    CorrectedSyndromes(c, blk, 0);
    forall i | 0 <= i < c.nroots ensures Syndromes(c, Corrected(c, blk))[i] == 0 {
      CorrectedSyndromes(c, blk, i);
      assert Syndromes(c, blk)[i] == PowerSum(c.g, Scaled(c.g, ys, xs, c.fcr), xs, i);
      PowerSumScaled(c.g, ys, xs, c.fcr, i);
      XorSelf(Syndrome(c, blk, i));
    }
  }

  lemma CodewordExplains(c: Code, blk: seq<nat>)
    requires ValidCode(c) && c.nroots > 0 && IsBlock(c, blk) && IsCodeword(c, Corrected(c, blk))
    ensures Syndromes(c, blk)
         == PowerSeries(c.g, Scaled(c.g, EffectiveFound(c, blk), FoundPoints(c, blk), c.fcr), FoundPoints(c, blk),
           c.nroots)
  {
    hide Mul, Xor, Syndrome, PowerSum, EffectiveFound, FoundPoints, Corrected, RootsFound, PowerSeries;
    var w, xs := EffectiveFound(c, blk), FoundPoints(c, blk);
    forall i | 0 <= i < c.nroots
      ensures Syndromes(c, blk)[i] == PowerSum(c.g, Scaled(c.g, w, xs, c.fcr), xs, i)
    {
      CorrectedSyndromes(c, blk, i);
      assert Syndromes(c, Corrected(c, blk))[i] == 0;
      XorCancel(Syndrome(c, blk, i), PowerSum(c.g, w, xs, c.fcr + i));
      PowerSumScaled(c.g, w, xs, c.fcr, i);
    }
  }

  lemma CodewordIsBalanced(c: Code, blk: seq<nat>)
    requires ValidCode(c) && c.nroots > 0 && IsBlock(c, blk) && SearchComplete(c, blk)
    requires IsCodeword(c, Corrected(c, blk))
    ensures RecurrenceLength(c, blk) == |RootsFound(c, blk)| && InBlock(c, FoundLocations(c, blk))
  {
    hide Mul, Xor, Syndrome, PowerSum, FoundLocations, FoundPoints, Corrected, RootsFound, Lambda, Located,
      Generates, Conv, ValuesFound, IsCodeword, PowerSeries, Syndromes, Run, Exp;
    var g: Field := c.g;
    var xs, rs := FoundPoints(c, blk), RootValues(g, RootsFound(c, blk));
    var e := EffectiveFound(c, blk);
    var w, s := Scaled(g, e, xs, c.fcr), Syndromes(c, blk);
    CodewordExplains(c, blk);
    FoundLocated(c, blk);
    LambdaGenerates(c, blk);
    FoundLengths(c, blk);
    LocatedGenerates(g, Lambda(c, blk), xs, rs, w, s);
    ShortestRecurrence(g, s, c.nroots, Lambda(c, blk), |xs|);
    forall l | 0 <= l < |xs| ensures FoundLocations(c, blk)[l] >= c.pad {
      if FoundLocations(c, blk)[l] < c.pad {
        assert e[l] == 0;
        MulZero(g, Power(g, xs[l], c.fcr));
        NoIdlePoint(g, Lambda(c, blk), xs, rs, w, s, l);
      }
    }
  }

  lemma FoundLengths(c: Code, blk: seq<nat>)
    requires ValidCode(c)
    ensures |Lambda(c, blk)| == c.nroots + 1 == |Syndromes(c, blk)| + 1
    ensures RecurrenceLength(c, blk) == Run(c.g, Syndromes(c, blk), c.nroots).el
  {
    hide Run;
  }

  // ----- Errors seen from a codeword -----

  ghost function ErrorPoints(c: Code, blk: seq<nat>, w: seq<nat>): (xs: seq<nat>)
    requires |blk| == |w| == Len(c)
    ensures |xs| == Hamming(blk, w)
  {
    Pick(Points(c, |blk|), Support(Difference(blk, w)))
  }

  ghost function ErrorAmounts(c: Code, blk: seq<nat>, w: seq<nat>): (y: seq<nat>)
    requires |blk| == |w| == Len(c)
    ensures |y| == Hamming(blk, w)
  {
    Pick(Difference(blk, w), Support(Difference(blk, w)))
  }

  lemma ErrorSeries(c: Code, blk: seq<nat>, w: seq<nat>)
    requires ValidCode(c) && IsBlock(c, blk) && IsCodeword(c, w)
    ensures Syndromes(c, blk)
         == PowerSeries(c.g, Scaled(c.g, ErrorAmounts(c, blk, w), ErrorPoints(c, blk, w), c.fcr), ErrorPoints(c, blk,
           w), c.nroots)
  {
    hide Mul, Xor, Syndrome, PowerSum, Points, Support, Pick;
    var g: Field := c.g;
    var d := Difference(blk, w);
    var y, xs := ErrorAmounts(c, blk, w), ErrorPoints(c, blk, w);
    DifferenceIn(g, blk, w);
    forall i | 0 <= i < c.nroots
      ensures Syndromes(c, blk)[i] == PowerSum(g, Scaled(g, y, xs, c.fcr), xs, i)
    {
      SyndromeDifference(c, blk, w, i);
      assert Syndromes(c, w)[i] == 0;
      XorZero(Syndrome(c, blk, i));
      SyndromeIsPowerSum(c, d, i);
      PowerSumSupport(g, d, Points(c, |blk|), c.fcr + i);
      PowerSumScaled(g, y, xs, c.fcr, i);
    }
  }

  ghost function InversesOf(g: Field, xs: seq<nat>): (rs: seq<nat>)
    requires AllIn(g, xs) && forall l :: 0 <= l < |xs| ==> xs[l] != 0
    ensures Inverses(g, xs, rs)
  {
    seq(|xs|, l requires 0 <= l < |xs| => Inv(g, xs[l]))
  }

  lemma ErrorPointsDistinct(c: Code, blk: seq<nat>, w: seq<nat>)
    requires ValidCode(c) && IsBlock(c, blk) && IsBlock(c, w)
    ensures var xs := ErrorPoints(c, blk, w);
      Distinct(xs) && AllIn(c.g, xs) && forall l :: 0 <= l < |xs| ==> xs[l] != 0
    ensures var y := ErrorAmounts(c, blk, w);
      AllIn(c.g, y) && forall l :: 0 <= l < |y| ==> y[l] != 0
  {
    DifferenceIn(c.g, blk, w);
    SupportPoints(c, Difference(blk, w));
  }

  lemma LengthAtMostErrors(c: Code, blk: seq<nat>, w: seq<nat>)
    requires ValidCode(c) && IsBlock(c, blk) && IsCodeword(c, w) && Hamming(blk, w) <= c.nroots
    ensures RecurrenceLength(c, blk) <= Hamming(blk, w)
  {
    hide Mul, Syndrome, PowerSum, ErrorPoints, ErrorAmounts, PowerSeries, Run, Hamming, Syndromes;
    var g: Field := c.g;
    var xs, y := ErrorPoints(c, blk, w), ErrorAmounts(c, blk, w);
    ErrorPointsDistinct(c, blk, w);
    ErrorSeries(c, blk, w);
    FewErrorsShortRun(g, xs, InversesOf(g, xs), Scaled(g, y, xs, c.fcr), Syndromes(c, blk));
  }

  lemma CleanBlock(c: Code, blk: seq<nat>)
    requires ValidCode(c) && IsCodeword(c, blk)
    ensures RecurrenceLength(c, blk) == 0 && RootsFound(c, blk) == []
  {
    hide RecurrenceLength, RootsFound, Lambda, Generates;
    HammingSelf(blk);
    LengthAtMostErrors(c, blk, blk);
    LambdaGenerates(c, blk);
  }

  // ----- Main results -----

  // -1 leaves the block alone. Otherwise the block left behind is a codeword
  // exactly when the recurrence length equals the number of roots found and no
  // root points into the padding; neither is checked by the decoder.
  lemma DecodeSoundness(c: Code, blk: seq<nat>)
    requires ValidCode(c) && IsBlock(c, blk)
    ensures var (out, count) := Decode(c, blk);
      && IsBlock(c, out) && -1 <= count <= c.nroots
      && (count == -1 ==> out == blk)
      && (count >= 0 ==>
           (IsCodeword(c, out) <==> RecurrenceLength(c, blk) == count && InBlock(c, FoundLocations(c, blk))))
      && (count >= 0 && IsCodeword(c, out) ==> Hamming(blk, out) == count)
  {
    hide Mul, Xor, Syndrome, RecurrenceLength, RootsFound, Lambda, ValuesFound, Correct, Hamming, Generates, Exp,
      Syndromes;
    LambdaGenerates(c, blk);
    if AllZero(Syndromes(c, blk)) {
      CleanBlock(c, blk);
      HammingSelf(blk);
    } else if SearchComplete(c, blk) {
      var out := Corrected(c, blk);
      assert Decode(c, blk) == (out, |RootsFound(c, blk)|);
      CorrectedSyndromes(c, blk, 0);
      if RecurrenceLength(c, blk) == |RootsFound(c, blk)| && InBlock(c, FoundLocations(c, blk)) {
        BalancedIsCodeword(c, blk);
      }
      if IsCodeword(c, out) {
        CodewordIsBalanced(c, blk);
        LengthAtMostErrors(c, blk, out);
      }
    }
  }

  // ----- Bounded-distance decoding -----

  // blk is a codeword w with at most nroots/2 symbols changed.
  ghost predicate Correctable(c: Code, blk: seq<nat>, w: seq<nat>) {
    ValidCode(c) && IsBlock(c, blk) && IsCodeword(c, w) && 2 * Hamming(blk, w) <= c.nroots
  }

  ghost function ErrorRoots(c: Code, blk: seq<nat>, w: seq<nat>): (rs: seq<nat>)
    requires Correctable(c, blk, w)
    ensures Inverses(c.g, ErrorPoints(c, blk, w), rs) && Distinct(rs)
    ensures forall l :: 0 <= l < |rs| ==> rs[l] != 0
  {
    hide ErrorPoints, Mul, Syndromes;
    ErrorPointsDistinct(c, blk, w);
    var rs := InversesOf(c.g, ErrorPoints(c, blk, w));
    InversesDistinct(c.g, ErrorPoints(c, blk, w), rs);
    MulZeroAll(c.g);
    rs
  }

  lemma MulZeroAll(g: Gf)
    ensures forall a: nat :: Mul(g, a, 0) == 0
  {
    hide Mul;
    forall a: nat ensures Mul(g, a, 0) == 0 {
      MulZero(g, a);
    }
  }

  lemma LambdaVanishes(c: Code, blk: seq<nat>, w: seq<nat>)
    requires Correctable(c, blk, w)
    ensures forall l :: 0 <= l < Hamming(blk, w) ==>
      Eval(c.g, Lambda(c, blk), ErrorRoots(c, blk, w)[l], c.nroots + 1) == 0
  {
    hide Mul, Syndrome, PowerSum, ErrorPoints, ErrorAmounts, PowerSeries, Run, Hamming, Syndromes, ErrorRoots,
      Lambda, Eval, Generates, RecurrenceLength;
    var g: Field := c.g;
    var xs, y, rs := ErrorPoints(c, blk, w), ErrorAmounts(c, blk, w), ErrorRoots(c, blk, w);
    var u := Scaled(g, y, xs, c.fcr);
    ErrorPointsDistinct(c, blk, w);
    ErrorSeries(c, blk, w);
    LambdaGenerates(c, blk);
    LengthAtMostErrors(c, blk, w);
    ScaledIn(g, y, xs, c.fcr);
    forall l | 0 <= l < |u| ensures u[l] != 0 {
      ScaledNonzero(g, y, xs, c.fcr, l);
    }
    FoundLengths(c, blk);
    RootsForced(g, Lambda(c, blk), RecurrenceLength(c, blk), xs, rs, u, Syndromes(c, blk));
  }

  lemma LambdaShape(c: Code, blk: seq<nat>)
    requires ValidCode(c)
    ensures Lambda(c, blk)[0] == 1 && AllIn(c.g, Lambda(c, blk))
  {
    hide Lambda, Generates, RecurrenceLength, Syndromes;
    LambdaGenerates(c, blk);
    GeneratesDegree(c.g, Lambda(c, blk), RecurrenceLength(c, blk), Syndromes(c, blk), c.nroots);
  }

  // lambda vanishes at fewer nonzero points than it has coefficients.
  lemma LambdaRootBound(c: Code, blk: seq<nat>, rs: seq<nat>)
    requires ValidCode(c) && AllIn(c.g, rs) && Distinct(rs)
    requires forall l :: 0 <= l < |rs| ==> rs[l] != 0 && Eval(c.g, Lambda(c, blk), rs[l], c.nroots + 1) == 0
    ensures |rs| <= Degree(Lambda(c, blk))
  {
    hide Lambda, Eval;
    var g: Field := c.g;
    var p := Lambda(c, blk);
    var d := Degree(p);
    LambdaShape(c, blk);
    if |rs| > d {
      forall l | 0 <= l < |rs| ensures Eval(g, p[..d + 1], rs[l], d + 1) == 0 {
        EvalDegree(g, p, d, rs[l], d + 1);
        EvalEq(g, p, p[..d + 1], rs[l], d + 1);
      }
      assert p[..d + 1][0] == 1;
      TooManyRoots(g, p[..d + 1], rs);
    }
  }

  lemma LengthsAgree(c: Code, blk: seq<nat>, w: seq<nat>)
    requires Correctable(c, blk, w)
    ensures Degree(Lambda(c, blk)) == RecurrenceLength(c, blk) == Hamming(blk, w)
  {
    hide Lambda, Eval, RecurrenceLength, Hamming, ErrorRoots, ErrorPoints, Generates, Syndromes;
    LambdaVanishes(c, blk, w);
    LambdaRootBound(c, blk, ErrorRoots(c, blk, w));
    LambdaGenerates(c, blk);
    LengthAtMostErrors(c, blk, w);
  }

  lemma ExponentOf(g: Field, x: nat) returns (k: nat)
    requires In(g, x) && x != 0
    ensures 1 <= k <= Size(g) - 1 && Exp(g, k) == x
  {
    hide Exp;
    OneIn(g);
    k := Log(g, x);
    if k == 0 {
      k := Size(g) - 1;
      ExpPeriod(g, 0, 1);
    }
  }

  ghost function Elements(s: seq<nat>): (e: set<nat>)
    ensures forall x :: x in e <==> x in s
    ensures |e| <= |s| && (Distinct(s) ==> |e| == |s|)
  {
    if s == [] then {}
    else
      var n := |s| - 1;
      assert s == s[..n] + [s[n]];
      Elements(s[..n]) + {s[n]}
  }

  lemma ImageBound(g: Gf, ks: seq<nat>, rs: seq<nat>)
    requires Distinct(rs) && forall l :: 0 <= l < |rs| ==> rs[l] in RootValues(g, ks)
    ensures |rs| <= |ks|
  {
    SubsetSize(Elements(rs), Elements(RootValues(g, ks)));
  }

  // Distinct nonzero roots of p.
  ghost predicate SimpleRoots(g: Gf, p: seq<nat>, rs: seq<nat>) {
    AllIn(g, rs) && Distinct(rs) && forall l :: 0 <= l < |rs| ==> rs[l] != 0 && Eval(g, p, rs[l], |p|) == 0
  }

  lemma RootsAreFound(c: Code, blk: seq<nat>, rs: seq<nat>)
    requires ValidCode(c) && SimpleRoots(c.g, Lambda(c, blk), rs) && |rs| == Degree(Lambda(c, blk))
    ensures SearchComplete(c, blk)
  {
    hide Lambda, Eval, Exp, FirstRoots;
    var g: Field := c.g;
    var p, ks := Lambda(c, blk), RootsFound(c, blk);
    var d := Degree(p);
    if |ks| < d {
      forall l | 0 <= l < |rs| ensures rs[l] in RootValues(g, ks) {
        var k := ExponentOf(g, rs[l]);
        EvalDegree(g, p, d, rs[l], d + 1);
        FirstRootsComplete(g, p, d, Nn(c), k);
        var m :| 0 <= m < |ks| && ks[m] == k;
        assert RootValues(g, ks)[m] == rs[l];
      }
      ImageBound(g, ks, rs);
    }
  }

  // The count of the Chien search equals deg_lambda exactly when lambda has as
  // many distinct nonzero roots.
  lemma SearchCompleteIff(c: Code, blk: seq<nat>)
    requires ValidCode(c)
    ensures SearchComplete(c, blk) <==>
      exists rs :: SimpleRoots(c.g, Lambda(c, blk), rs) && |rs| == Degree(Lambda(c, blk))
  {
    hide Lambda, Eval, Exp, Degree, RootsFound;
    if SearchComplete(c, blk) {
      var rs := RootValues(c.g, RootsFound(c, blk));
      RootValuesDistinct(c, blk);
      forall l | 0 <= l < |rs| ensures Eval(c.g, Lambda(c, blk), rs[l], |Lambda(c, blk)|) == 0 {
        FoundRootEval(c, blk, l);
      }
      assert SimpleRoots(c.g, Lambda(c, blk), rs);
    }
    if rs :| SimpleRoots(c.g, Lambda(c, blk), rs) && |rs| == Degree(Lambda(c, blk)) {
      RootsAreFound(c, blk, rs);
    }
  }

  // The Chien search finds every error of a correctable block.
  lemma ChienFindsErrors(c: Code, blk: seq<nat>, w: seq<nat>)
    requires Correctable(c, blk, w)
    ensures |RootsFound(c, blk)| == Hamming(blk, w)
  {
    hide Lambda, Eval, RecurrenceLength, Hamming, ErrorRoots, ErrorPoints, Exp, FirstRoots, Degree;
    LengthsAgree(c, blk, w);
    LambdaVanishes(c, blk, w);
    RootsAreFound(c, blk, ErrorRoots(c, blk, w));
  }

  lemma FoundIsError(c: Code, blk: seq<nat>, w: seq<nat>, l: nat) returns (m: nat)
    requires Correctable(c, blk, w) && l < |RootsFound(c, blk)|
    ensures m < Hamming(blk, w) && Exp(c.g, RootsFound(c, blk)[l]) == ErrorRoots(c, blk, w)[m]
  {
    hide Lambda, Eval, RecurrenceLength, Hamming, ErrorRoots, ErrorPoints, Exp, RootsFound;
    var g: Field := c.g;
    var rs := ErrorRoots(c, blk, w);
    var r := Exp(g, RootsFound(c, blk)[l]);
    LengthsAgree(c, blk, w);
    LambdaVanishes(c, blk, w);
    RootValuesDistinct(c, blk);
    FoundRootEval(c, blk, l);
    assert r == RootValues(g, RootsFound(c, blk))[l];
    if r !in rs {
      LambdaRootBound(c, blk, rs + [r]);
    }
    m :| 0 <= m < |rs| && rs[m] == r;
  }

  lemma InverseUnique(g: Field, a: nat, b: nat, r: nat)
    requires In(g, a) && In(g, b) && In(g, r) && Mul(g, a, r) == 1 == Mul(g, b, r)
    ensures a == b
  {
    hide Mul;
    MulZero(g, a);
    MulComm(g, a, r);
    MulComm(g, b, r);
    CancelFactor(g, r, a, b);
  }

  lemma PointLocation(c: Code, loc: nat, pos: nat)
    requires ValidCode(c) && loc < Nn(c) && pos < Len(c) && LocationPoint(c, loc) == Point(c, Len(c), pos)
    ensures loc == pos + c.pad
  {
    hide Exp;
    CoprimeExponents(c, Nn(c) - 1 - loc, Len(c) - 1 - pos);
  }

  lemma ErrorsInBlock(c: Code, blk: seq<nat>, w: seq<nat>)
    requires Correctable(c, blk, w)
    ensures InBlock(c, FoundLocations(c, blk))
  {
    hide Lambda, Eval, RecurrenceLength, ErrorRoots, Exp, RootsFound, Mul, LocationPoint, Point, FoundLocations,
      Syndrome, Syndromes;
    forall l | 0 <= l < |FoundLocations(c, blk)| ensures FoundLocations(c, blk)[l] >= c.pad {
      var m := FoundIsError(c, blk, w, l);
      FoundInverse(c, blk, l);
      ErrorPointsDistinct(c, blk, w);
      var ps := Support(Difference(blk, w));
      InverseUnique(c.g, FoundPoints(c, blk)[l], ErrorPoints(c, blk, w)[m], ErrorRoots(c, blk, w)[m]);
      PointLocation(c, FoundLocations(c, blk)[l], ps[m]);
    }
  }

  // A codeword with at most nroots/2 symbols changed is restored, and the
  // decoder returns how many were.
  lemma BoundedDistanceDecoding(c: Code, w: seq<nat>, blk: seq<nat>)
    requires ValidCode(c) && IsCodeword(c, w) && IsBlock(c, blk) && 2 * Hamming(blk, w) <= c.nroots
    ensures Decode(c, blk) == (w, Hamming(blk, w))
  {
    hide Mul, Xor, Syndrome, RecurrenceLength, RootsFound, Lambda, ValuesFound, Correct, Hamming, Exp,
      FoundLocations, Syndromes;
    var (out, count) := Decode(c, blk);
    LengthsAgree(c, blk, w);
    ChienFindsErrors(c, blk, w);
    ErrorsInBlock(c, blk, w);
    DecodeSoundness(c, blk);
    if AllZero(Syndromes(c, blk)) {
      CleanBlock(c, blk);
    }
    assert count == Hamming(blk, w) && IsCodeword(c, out) && Hamming(blk, out) == count;
    HammingTriangle(w, blk, out);
    HammingSymmetric(w, blk);
    HammingIsSupport(w, out);
    MinimumDistance(c, w, out);
  }

  lemma HammingIsSupport(a: seq<nat>, b: seq<nat>)
    requires |a| == |b|
    ensures Hamming(a, b) == |Support(Difference(a, b))|
  {
  }

  // So a codeword within half the minimum distance exists exactly when the
  // decoder's result passes three tests, and the decoder has then found it.
  lemma CorrectableIffAccepted(c: Code, blk: seq<nat>)
    requires ValidCode(c) && IsBlock(c, blk)
    ensures var (out, count) := Decode(c, blk);
      (exists w :: Correctable(c, blk, w))
        <==>
      (count >= 0 && 2 * count <= c.nroots
       && RecurrenceLength(c, blk) == count && InBlock(c, FoundLocations(c, blk)))
  {
    hide Mul, Xor, Syndrome, RecurrenceLength, RootsFound, Lambda, ValuesFound, Correct, Hamming, Exp,
      FoundLocations, Syndromes, Decode;
    var (out, count) := Decode(c, blk);
    DecodeSoundness(c, blk);
    if w :| Correctable(c, blk, w) {
      BoundedDistanceDecoding(c, w, blk);
    }
    if count >= 0 && 2 * count <= c.nroots && RecurrenceLength(c, blk) == count && InBlock(c, FoundLocations(c, blk)) {
      assert Correctable(c, blk, out);
    }
  }
}
