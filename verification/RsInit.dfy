/** dump978/fec/init_rs.h: parameter checks, field tables, the prim-th root of 1
    and the generator polynomial. */
module RsInit {
  import opened Bits
  import opened Galois
  import opened Poly
  import opened ReedSolomon
  import opened Generator
  import opened RsTables
  import opened RsCodec

  predicate ParametersOk(symsize: int, fcr: int, prim: int, nroots: int, pad: int) {
    && 0 <= symsize <= 8
    && 0 <= fcr < Pow2(symsize)
    && 0 < prim < Pow2(symsize)
    && 0 <= nroots < Pow2(symsize)
    && 0 <= pad < Pow2(symsize) - 1 - nroots
  }

  // ----- The prim-th root of 1 -----

  ghost predicate Divides(prim: nat, nn: nat, t: nat) {
    prim > 0 && (1 + t * nn) % prim == 0
  }

  ghost predicate Multiple(a: int, d: nat) {
    exists k: int :: a == k * d
  }

  ghost predicate Coprime(a: nat, b: nat) {
    forall d: nat :: d > 1 && Multiple(a, d) ==> !Multiple(b, d)
  }

  lemma MultipleSum(a: int, b: int, d: nat, k: int)
    requires Multiple(a, d) && Multiple(b, d)
    ensures Multiple(k * a + b, d)
  {
    var x: int :| a == x * d;
    var y: int :| b == y * d;
    assert k * a == (k * x) * d;
    assert k * a + b == (k * x + y) * d;
  }

  lemma MultipleOf(k: int, d: nat, a: int)
    requires a == k * d
    ensures Multiple(a, d)
  {
  }

  lemma CoprimeToZero(a: nat)
    requires Coprime(a, 0)
    ensures a == 1
  {
    var d := if a == 0 then 2 else a;
    MultipleOf(if a == 0 then 0 else 1, d, a);
    MultipleOf(0, d, 0);
  }

  lemma StillCoprime(a: nat, b: nat)
    requires b > 0 && Coprime(a, b)
    ensures Coprime(b, a % b)
  {
    var q, r := a / b, a % b;
    assert a == q * b + r;
    forall d: nat | d > 1 && Multiple(b, d) ensures !Multiple(r, d) {
      if Multiple(r, d) {
        MultipleSum(b, r, d, q);
      }
    }
  }

  // Euclid's algorithm.
  lemma {:induction false} Bezout(a: nat, b: nat) returns (x: int, y: int)
    requires Coprime(a, b)
    ensures x * a + y * b == 1
    decreases b
  {
    if b == 0 {
      CoprimeToZero(a);
      x, y := 1, 0;
    } else {
      var q, r := a / b, a % b;
      StillCoprime(a, b);
      hide Coprime, Multiple;
      var x', y' := Bezout(b, r);
      x, y := y', x' - y' * q;
      BackSubstitute(a, b, q, r, x', y');
    }
  }

  lemma BackSubstitute(a: int, b: int, q: int, r: int, x': int, y': int)
    requires a == q * b + r && x' * b + y' * r == 1
    ensures y' * a + (x' - y' * q) * b == 1
  {
    assert y' * (q * b + r) == (y' * q) * b + y' * r;
    assert (x' - y' * q) * b == x' * b - (y' * q) * b;
  }

  lemma FactorOfOne(m: int, d: int)
    requires m * d == 1 && d >= 1
    ensures d == 1
  {
    SignOfProduct(m, d);
  }

  lemma SignOfProduct(m: int, d: int)
    requires d >= 1
    ensures m <= 0 ==> m * d <= 0
    ensures m >= 1 ==> m * d >= d
  {
    if m >= 1 {
      MulAtLeast(m, d);
    }
  }

  // The search for the root ends exactly when prim and nn have no common factor.
  lemma SearchEndsIffCoprime(prim: nat, nn: nat)
    requires prim > 0
    ensures (exists t: nat :: Divides(prim, nn, t)) <==> Coprime(prim, nn)
  {
    if t: nat :| Divides(prim, nn, t) {
      var k := (1 + t * nn) / prim;
      forall d: nat | d > 1 && Multiple(prim, d) ensures !Multiple(nn, d) {
        if Multiple(nn, d) {
          var u: int :| prim == u * d;
          var v: int :| nn == v * d;
          CommonFactor(prim, nn, d, u, v, k, t);
        }
      }
    }
    if Coprime(prim, nn) {
      var x, y := Bezout(prim, nn);
      var m: nat := if y < 0 then -y else y;
      MulAtLeast(prim, m);
      var t: nat := m * prim - y;
      RootFound(prim, nn, x, y, m, t);
      assert Divides(prim, nn, t);
    }
  }

  // Parameters that pass every check and let the search run on for ever.
  lemma EndlessSearch(t: nat)
    ensures ParametersOk(8, 0, 3, 20, 0) && !Divides(3, Pow2(8) - 1, t)
  {
    assert Pow2(8) == 255 + 1;
    assert 3 == 1 * 3 && 255 == 85 * 3;
    assert Multiple(3, 3) && Multiple(255, 3);
    SearchEndsIffCoprime(3, 255);
  }

  lemma CommonFactor(prim: int, nn: int, d: nat, u: int, v: int, k: int, t: int)
    requires d >= 1 && prim == u * d && nn == v * d && k * prim == 1 + t * nn
    ensures d == 1
  {
    assert k * prim == (k * u) * d && t * nn == (t * v) * d;
    assert (k * u - t * v) * d == 1;
    FactorOfOne(k * u - t * v, d);
  }

  lemma RootFound(prim: nat, nn: nat, x: int, y: int, m: nat, t: nat)
    requires prim > 0 && x * prim + y * nn == 1 && t == m * prim - y
    ensures (1 + t * nn) % prim == 0
  {
    assert t * nn == (m * prim) * nn - y * nn;
    assert (m * prim) * nn == (m * nn) * prim;
    assert 1 + t * nn == (x + m * nn) * prim;
    var q := x + m * nn;
    DivModUnique(1 + t * nn, prim, q, 0);
  }

  // The prim-th root of 1: one more than a multiple of nn, divided by prim.
  ghost predicate RootOf(iprim: nat, prim: nat, nn: nat) {
    1 <= iprim <= nn && exists t: nat :: iprim * prim == 1 + t * nn
  }

  method FindPrimRoot(nn: nat, prim: nat) returns (iprim: nat)
    requires prim > 0 && nn > 0 && Coprime(prim, nn)
    ensures RootOf(iprim, prim, nn)
  {
    hide Coprime, Divides;
    var x := 1;
    ghost var t := 0;
    SearchEndsIffCoprime(prim, nn);
    ghost var t0: nat :| Divides(prim, nn, t0);
    while x % prim != 0
      invariant x == 1 + t * nn && t <= t0
      invariant forall u :: 0 <= u < t ==> !Divides(prim, nn, u)
      decreases t0 - t
    {
      Candidate(prim, nn, t, x);
      x := x + nn;
      t := t + 1;
    }
    Candidate(prim, nn, t, x);
    iprim := x / prim;
    FirstIsSmall(prim, nn, t);
    PrimRootBound(iprim, prim, nn, t);
  }

  lemma Candidate(prim: nat, nn: nat, t: nat, x: nat)
    requires prim > 0 && x == 1 + t * nn
    ensures Divides(prim, nn, t) <==> x % prim == 0
    ensures x % prim == 0 ==> (x / prim) * prim == 1 + t * nn
    ensures x + nn == 1 + (t + 1) * nn
  {
  }

  lemma FirstIsSmall(prim: nat, nn: nat, t: nat)
    requires prim > 0 && Divides(prim, nn, t) && forall u :: 0 <= u < t ==> !Divides(prim, nn, u)
    ensures t < prim
  {
    if t >= prim {
      var a := 1 + (t - prim) * nn;
      assert 1 + t * nn == a + nn * prim;
      ModShift(a, nn, prim);
      assert Divides(prim, nn, t - prim);
    }
  }

  lemma PrimRootBound(ip: nat, p: nat, nn: nat, t: nat)
    requires p > 0 && nn > 0 && ip * p == 1 + t * nn && t < p
    ensures 1 <= ip <= nn
  {
    MulAtLeast(p - t, nn);
    assert (p - t) * nn == p * nn - t * nn;
    assert (ip - nn) * p == ip * p - nn * p;
    if ip > nn {
      MulAtLeast(ip - nn, p);
    }
  }

  // What a product looked up in the tables is worth when they are good ones.
  lemma LookupProduct(g: Field, al: seq<nat>, ix: seq<nat>, a: nat, e: nat, y: nat)
    requires Tables(g, al, ix) && a != 0 && In(g, a)
    requires y == al[(ix[a] + e) % (Size(g) - 1)]
    ensures y == Mul(g, Exp(g, e), a) && In(g, y) && y != 0
  {
    hide Exp, Mul;
    ExpMod(g, ix[a] + e);
    MulExp(g, ix[a], e);
    MulComm(g, a, Exp(g, e));
    ExpIn(g, ix[a] + e);
    ExpNonzero(g, ix[a] + e);
  }

  lemma LookupIn(g: Gf, al: seq<nat>, ix: seq<nat>, k: nat)
    requires g.mm >= 1 && Filled(g, al, ix, Size(g) - 1) && k < Size(g) - 1
    ensures In(g, al[k])
  {
    OneIn(g);
    IterIn(g, k, 1);
  }

  // genpoly *= x + alpha^root, in place on its first i + 1 coefficients.
  method MultiplyByRoot(g: Gf, alphaTo: array<nat>, indexOf: array<nat>, genpoly: array<nat>, i: nat, root: nat)
    requires g.mm >= 1 && Filled(g, alphaTo[..], indexOf[..], Size(g) - 1)
    requires genpoly != alphaTo && genpoly != indexOf && i + 1 < genpoly.Length
    requires AllIn(g, genpoly[..i + 1])
    requires Primitive(g) ==> genpoly[i] == 1 && genpoly[0] != 0
    modifies genpoly
    ensures AllIn(g, genpoly[..i + 2])
    ensures Primitive(g) ==> genpoly[i + 1] == 1 && genpoly[0] != 0
    ensures Primitive(g) ==> genpoly[..i + 2] == MulLinear(g, old(genpoly[..i + 1]), Exp(g, root))
  {
    hide Exp, Mul, Xor, MulCoefficient, Filled, Tables;
    ghost var al, ix := alphaTo[..], indexOf[..];
    FilledSize(g, al, ix);
    ghost var p, r := genpoly[..i + 1], Exp(g, root);
    OneIn(g);
    genpoly[i + 1] := 1;
    assert forall k :: 0 <= k <= i ==> genpoly[k] == p[k];
    if Primitive(g) {
      PrimitiveTables(g, al, ix);
      TopCoefficient(g, p, r);
    }
    var j := i;
    while j > 0
      invariant 0 <= j <= i && alphaTo[..] == al && indexOf[..] == ix
      invariant forall k :: 0 <= k <= j ==> genpoly[k] == p[k]
      invariant forall k :: j < k <= i + 1 ==> In(g, genpoly[k])
      invariant Primitive(g) ==> forall k :: j < k <= i + 1 ==> genpoly[k] == MulCoefficient(g, p, r, k)
    {
      assert In(g, p[j]) && In(g, p[j - 1]);
      if genpoly[j] != 0 {
        var x := Modnn(g.mm, Size(g) - 1, indexOf[genpoly[j]] + root);
        assert alphaTo[x] == al[x];
        LookupIn(g, al, ix, x);
        XorBound(p[j - 1], al[x], g.mm);
        if Primitive(g) {
          LookupProduct(g, al, ix, p[j], root, al[x]);
        }
        genpoly[j] := Xor(genpoly[j - 1], alphaTo[x]);
      } else {
        genpoly[j] := genpoly[j - 1];
      }
      if Primitive(g) {
        InnerCoefficient(g, p, r, j, genpoly[j]);
      }
      j := j - 1;
    }
    assert In(g, p[0]);
    var x := Modnn(g.mm, Size(g) - 1, indexOf[genpoly[0]] + root);
    assert alphaTo[x] == al[x];
    LookupIn(g, al, ix, x);
    if Primitive(g) {
      LookupProduct(g, al, ix, p[0], root, al[x]);
      LastCoefficient(g, p, r);
    }
    genpoly[0] := alphaTo[x];
  }

  lemma FilledSize(g: Gf, al: seq<nat>, ix: seq<nat>)
    requires Filled(g, al, ix, Size(g) - 1)
    ensures |al| == |ix| == Size(g)
  {
  }

  lemma TopCoefficient(g: Field, p: seq<nat>, r: nat)
    requires |p| > 0 && p[|p| - 1] == 1
    ensures MulCoefficient(g, p, r, |p|) == 1
  {
    hide Mul, Xor;
    MulZero(g, r);
    XorZero(1);
  }

  lemma InnerCoefficient(g: Field, p: seq<nat>, r: nat, j: nat, y: nat)
    requires 1 <= j < |p|
    requires y == if p[j] != 0 then Xor(p[j - 1], Mul(g, r, p[j])) else p[j - 1]
    ensures y == MulCoefficient(g, p, r, j)
  {
    hide Mul, Xor;
    MulZero(g, r);
    XorZero(p[j - 1]);
  }

  lemma LastCoefficient(g: Field, p: seq<nat>, r: nat)
    requires |p| > 0
    ensures MulCoefficient(g, p, r, 0) == Mul(g, r, p[0])
  {
    hide Mul, Xor;
    XorZero(Mul(g, r, p[0]));
  }

  // The generator polynomial of the code, then converted to index form.
  method BuildGenerator(g: Gf, alphaTo: array<nat>, indexOf: array<nat>, fcr: nat, prim: nat, nroots: nat,
                        ghost c: Code) returns (genpoly: array<nat>)
    requires g.mm >= 1 && Filled(g, alphaTo[..], indexOf[..], Size(g) - 1)
    requires c.g == g && c.fcr == fcr && c.prim == prim && c.nroots == nroots
    ensures fresh(genpoly) && genpoly.Length == nroots + 1
    ensures Primitive(g) ==> IndexForm(g, genpoly[..], GeneratorPoly(c))
  {
    hide Exp, Mul, Xor, Filled, MulLinear, GeneratorRoot, IndexForm;
    genpoly := new nat[nroots + 1];
    ghost var al, ix := alphaTo[..], indexOf[..];
    FilledSize(g, al, ix);
    OneIn(g);
    genpoly[0] := 1;
    var root := fcr * prim;
    ghost var rs := GeneratorRoots(c);
    assert rs[..0] == [];
    for i := 0 to nroots
      invariant alphaTo[..] == al && indexOf[..] == ix
      invariant root == (fcr + i) * prim
      invariant AllIn(g, genpoly[..i + 1])
      invariant Primitive(g) ==> genpoly[i] == 1 && genpoly[0] != 0
      invariant Primitive(g) ==> genpoly[..i + 1] == MulRoots(g, [1], rs[..i])
    {
      NextRootExponent(fcr, prim, i);
      MultiplyByRoot(g, alphaTo, indexOf, genpoly, i, root);
      RootIsPower(c, i);
      assert rs[..i + 1][..i] == rs[..i] && rs[..i + 1][i] == rs[i];
      root := root + prim;
    }
    assert rs[..nroots] == rs && genpoly[..nroots + 1] == genpoly[..];
    ConvertToIndex(g, alphaTo, indexOf, genpoly);
  }

  // genpoly in index form, for quicker encoding.
  method ConvertToIndex(g: Gf, ghost alphaTo: array<nat>, indexOf: array<nat>, genpoly: array<nat>)
    requires g.mm >= 1 && Filled(g, alphaTo[..], indexOf[..], Size(g) - 1) && AllIn(g, genpoly[..])
    requires genpoly != alphaTo && genpoly != indexOf
    modifies genpoly
    ensures Primitive(g) ==> IndexForm(g, genpoly[..], old(genpoly[..]))
  {
    hide Exp, Filled, IndexForm, Primitive;
    ghost var al, ix, p := alphaTo[..], indexOf[..], genpoly[..];
    FilledSize(g, al, ix);
    for i := 0 to genpoly.Length
      invariant alphaTo[..] == al && indexOf[..] == ix
      invariant forall k :: i <= k < genpoly.Length ==> genpoly[k] == p[k]
      invariant Primitive(g) ==> forall k :: 0 <= k < i ==>
        genpoly[k] < Size(g) && FromIndex(g, genpoly[k]) == p[k]
    {
      assert In(g, p[i]);
      if Primitive(g) {
        PrimitiveTables(g, al, ix);
        IndexFacts(g, al, ix, p[i]);
        IndexMeans(g, ix[p[i]], p[i]);
      }
      assert indexOf[p[i]] == ix[p[i]];
      genpoly[i] := indexOf[genpoly[i]];
    }
    if Primitive(g) {
      IndexFormIntro(g, genpoly[..], p);
    }
  }

  lemma NextRootExponent(fcr: nat, prim: nat, i: nat)
    ensures (fcr + i) * prim + prim == (fcr + (i + 1)) * prim
  {
  }

  lemma RootIsPower(c: Code, i: nat)
    requires i < c.nroots
    ensures GeneratorRoots(c)[i] == Exp(c.g, (c.fcr + i) * c.prim)
  {
  }

  lemma IndexMeans(g: Field, i: nat, a: nat)
    requires i < Size(g) && (a == 0 ==> i == Size(g) - 1) && (a != 0 ==> i < Size(g) - 1 && Exp(g, i) == a)
    ensures FromIndex(g, i) == a
  {
  }

  // A codec, or null for parameters out of range or a gfpoly that fails the
  // test sr == 1. With a primitive gfpoly the codec is a valid one; with another
  // that passes the test its tables are still what the loop makes of it.
  method InitRsChar(symsize: int, gfpoly: nat, fcr: int, prim: int, nroots: int, pad: int) returns (rs: Rs?)
    requires ParametersOk(symsize, fcr, prim, nroots, pad) ==> Coprime(prim, Pow2(symsize) - 1)
    ensures rs == null <==>
      !ParametersOk(symsize, fcr, prim, nroots, pad) || Exp(Gf(symsize, gfpoly), Pow2(symsize) - 1) != 1
    ensures rs != null ==> fresh(rs) && fresh(rs.alphaTo) && fresh(rs.indexOf) && fresh(rs.genpoly)
    ensures rs != null ==>
      && rs.TheCode() == Code(Gf(symsize, gfpoly), fcr, prim, nroots, rs.iprim, pad)
      && rs.nn == Pow2(symsize) - 1 && RootOf(rs.iprim, prim, rs.nn) && rs.genpoly.Length == nroots + 1
      && Filled(Gf(symsize, gfpoly), rs.alphaTo[..], rs.indexOf[..], rs.nn)
    ensures rs != null && Primitive(Gf(symsize, gfpoly)) ==>
      rs.Valid() && IndexForm(rs.TheCode().g, rs.genpoly[..], GeneratorPoly(rs.TheCode()))
  {
    hide Exp, Filled, IndexForm, GeneratorPoly, Coprime;
    if !ParametersOk(symsize, fcr, prim, nroots, pad) {
      return null;
    }
    SymsizePositive(symsize, nroots, pad);
    var g := Gf(symsize, gfpoly);
    var nn := Size(g) - 1;
    var alphaTo := new nat[nn + 1];
    var indexOf := new nat[nn + 1];
    var sr := FillTables(g, alphaTo, indexOf);
    if sr != 1 {
      return null;
    }
    var iprim := FindPrimRoot(nn, prim);
    ghost var c := Code(g, fcr, prim, nroots, iprim, pad);
    var genpoly := BuildGenerator(g, alphaTo, indexOf, fcr, prim, nroots, c);
    rs := new Rs(symsize, nn, alphaTo, indexOf, genpoly, nroots, fcr, prim, iprim, pad, gfpoly);
    if Primitive(g) {
      PrimitiveTables(g, alphaTo[..], indexOf[..]);
    }
  }

  lemma SymsizePositive(symsize: nat, nroots: nat, pad: nat)
    requires pad < Pow2(symsize) - 1 - nroots
    ensures symsize >= 1
  {
  }
}
