/** The shortened Reed-Solomon code of dump978/fec and what its decoder
    computes, stage by stage, as functions of the received block. */
module ReedSolomon {
  import opened Bits
  import opened Galois
  import opened Poly
  import opened Massey
  import opened Locator

  // The parameters of struct rs that a decoder reads.
  datatype Code = Code(g: Gf, fcr: nat, prim: nat, nroots: nat, iprim: nat, pad: nat)

  function Nn(c: Code): nat {
    Size(c.g) - 1
  }

  // Symbols per block, after shortening.
  function Len(c: Code): int {
    Nn(c) - c.pad
  }

  ghost predicate ValidCode(c: Code) {
    && Primitive(c.g)
    && c.nroots + c.pad < Nn(c)
    && 1 <= c.iprim <= Nn(c)
    && exists t: nat :: c.iprim * c.prim == 1 + t * Nn(c)
  }

  ghost predicate IsBlock(c: Code, blk: seq<nat>) {
    |blk| == Len(c) && AllIn(c.g, blk)
  }

  ghost function Syndrome(c: Code, blk: seq<nat>, i: nat): nat {
    Horner(c.g, blk, Exp(c.g, (c.fcr + i) * c.prim))
  }

  ghost function Syndromes(c: Code, blk: seq<nat>): (s: seq<nat>)
    ensures |s| == c.nroots && forall i :: 0 <= i < c.nroots ==> s[i] == Syndrome(c, blk, i)
  {
    seq(c.nroots, i requires 0 <= i < c.nroots => Syndrome(c, blk, i))
  }

  ghost predicate AllZero(s: seq<nat>) {
    forall i :: 0 <= i < |s| ==> s[i] == 0
  }

  ghost predicate IsCodeword(c: Code, blk: seq<nat>) {
    IsBlock(c, blk) && AllZero(Syndromes(c, blk))
  }

  // ----- Stages of the decoder -----

  ghost function Degree(p: seq<nat>): (d: nat)
    ensures DegreeAtMost(p, d)
    ensures p != [] ==> d < |p|
    ensures d > 0 ==> d < |p| && p[d] != 0
  {
    if p == [] then 0
    else if p[|p| - 1] != 0 then |p| - 1
    else Degree(p[..|p| - 1])
  }

  // The first `most` exponents k in 1..n at which p vanishes, in increasing order.
  ghost function FirstRoots(g: Gf, p: seq<nat>, most: nat, n: nat): (ks: seq<nat>)
    ensures |ks| <= most
  {
    if n == 0 then []
    else
      var ks := FirstRoots(g, p, most, n - 1);
      if |ks| < most && Eval(g, p, Exp(g, n), most + 1) == 0 then ks + [n] else ks
  }

  // The symbol number, counted in the unshortened block, that root k points to.
  function Location(c: Code, k: nat): nat
    requires Nn(c) > 0 && k * c.iprim >= 1
  {
    (k * c.iprim - 1) % Nn(c)
  }

  function Min(a: int, b: int): int {
    if a < b then a else b
  }

  // How many odd coefficients the derivative loop visits.
  function DerivativeTerms(c: Code, deg: nat): int {
    Min(deg, c.nroots - 1) / 2 + 1
  }

  function Num2Exponent(c: Code, k: nat): nat
    requires k <= Nn(c)
  {
    if c.fcr == 0 then Nn(c) - k else k * (c.fcr - 1) + Nn(c)
  }

  // Forney's error value at root k.
  ghost function ErrorValue(c: Code, lambda: seq<nat>, omega: seq<nat>, deg: nat, k: nat): nat
    requires ValidCode(c) && c.nroots > 0 && k <= Nn(c)
  {
    var g: Field := c.g;
    var x := Exp(g, k);
    var num1 := Eval(g, omega, x, deg);
    var num2 := Exp(g, Num2Exponent(c, k));
    var den := Derivative(g, lambda, x, DerivativeTerms(c, deg));
    DerivativeIn(g, lambda, x, DerivativeTerms(c, deg));
    Mul(g, Mul(g, num1, num2), if den == 0 then 1 else Inv(g, den))
  }

  lemma {:induction false} DerivativeIn(g: Field, p: seq<nat>, r: nat, t: nat)
    ensures In(g, Derivative(g, p, r, t))
  {
    hide Mul, Xor;
    if t > 0 {
      DerivativeIn(g, p, r, t - 1);
      MulIn(g, At(p, 2 * t - 1), Power(g, r, 2 * t - 2));
      XorBound(Derivative(g, p, r, t - 1), Mul(g, At(p, 2 * t - 1), Power(g, r, 2 * t - 2)), g.mm);
    }
  }

  // A symbol in the padding cannot be corrected.
  ghost function Fix(c: Code, blk: seq<nat>, loc: nat, y: nat): (b: seq<nat>)
    requires |blk| == Len(c) && loc < Nn(c)
    ensures |b| == |blk|
  {
    if loc >= c.pad then blk[loc - c.pad := Xor(blk[loc - c.pad], y)] else blk
  }

  ghost predicate Locations(c: Code, locs: seq<nat>) {
    forall l :: 0 <= l < |locs| ==> locs[l] < Nn(c)
  }

  // The corrections from number j on, applied last one first.
  ghost function Correct(c: Code, blk: seq<nat>, locs: seq<nat>, ys: seq<nat>, j: nat): (b: seq<nat>)
    requires |blk| == Len(c) && |locs| == |ys| && j <= |locs| && Locations(c, locs)
    ensures |b| == |blk|
    decreases |locs| - j
  {
    if j == |locs| then blk
    else Fix(c, Correct(c, blk, locs, ys, j + 1), locs[j], ys[j])
  }

  ghost predicate RootList(c: Code, ks: seq<nat>) {
    forall l :: 0 <= l < |ks| ==> 1 <= ks[l] <= Nn(c)
  }

  ghost function LocationsOf(c: Code, ks: seq<nat>): (locs: seq<nat>)
    requires ValidCode(c) && RootList(c, ks)
    ensures |locs| == |ks| && Locations(c, locs)
  {
    seq(|ks|, l requires 0 <= l < |ks| =>
      MulAtLeast(ks[l], c.iprim);
      Location(c, ks[l]))
  }

  ghost function ErrorValues(c: Code, lambda: seq<nat>, omega: seq<nat>, deg: nat, ks: seq<nat>): (ys: seq<nat>)
    requires ValidCode(c) && c.nroots > 0 && RootList(c, ks)
    ensures |ys| == |ks|
    ensures forall l :: 0 <= l < |ks| ==> ys[l] == ErrorValue(c, lambda, omega, deg, ks[l])
  {
    seq(|ks|, l requires 0 <= l < |ks| => ErrorValue(c, lambda, omega, deg, ks[l]))
  }

  lemma {:induction false} FirstRootsRange(g: Gf, p: seq<nat>, most: nat, n: nat)
    ensures forall l :: 0 <= l < |FirstRoots(g, p, most, n)| ==>
      1 <= FirstRoots(g, p, most, n)[l] <= n && Eval(g, p, Exp(g, FirstRoots(g, p, most, n)[l]), most + 1) == 0
    ensures forall l, m :: 0 <= l < m < |FirstRoots(g, p, most, n)| ==>
      FirstRoots(g, p, most, n)[l] < FirstRoots(g, p, most, n)[m]
  {
    hide Eval, Exp;
    if n > 0 {
      FirstRootsRange(g, p, most, n - 1);
    }
  }

  // What Berlekamp-Massey and the Chien search find out about a block.
  ghost function Lambda(c: Code, blk: seq<nat>): (p: seq<nat>)
    requires ValidCode(c)
    ensures |p| == c.nroots + 1
  {
    Run(c.g, Syndromes(c, blk), c.nroots).lambda
  }

  ghost function RecurrenceLength(c: Code, blk: seq<nat>): nat
    requires ValidCode(c)
  {
    Run(c.g, Syndromes(c, blk), c.nroots).el
  }

  ghost function RootsFound(c: Code, blk: seq<nat>): (ks: seq<nat>)
    requires ValidCode(c)
    ensures RootList(c, ks) && |ks| <= Degree(Lambda(c, blk))
  {
    var p := Lambda(c, blk);
    FirstRootsRange(c.g, p, Degree(p), Nn(c));
    FirstRoots(c.g, p, Degree(p), Nn(c))
  }

  ghost function ValuesFound(c: Code, blk: seq<nat>): (ys: seq<nat>)
    requires ValidCode(c) && c.nroots > 0
    ensures |ys| == |RootsFound(c, blk)|
  {
    var p := Lambda(c, blk);
    var omega := Omega(c.g, p, Syndromes(c, blk), Degree(p));
    ErrorValues(c, p, omega, Degree(p), RootsFound(c, blk))
  }

  // The block and the return value the decoder leaves.
  ghost function Decode(c: Code, blk: seq<nat>): (r: (seq<nat>, int))
    requires ValidCode(c) && |blk| == Len(c)
    ensures |r.0| == |blk|
  {
    if AllZero(Syndromes(c, blk)) then (blk, 0)
    else
      var ks := RootsFound(c, blk);
      if |ks| != Degree(Lambda(c, blk)) then (blk, -1)
      else (Correct(c, blk, LocationsOf(c, ks), ValuesFound(c, blk), 0), |ks|)
  }
}
