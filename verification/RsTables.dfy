/** The log and antilog tables of dump978/fec/init_rs.h and the reduction modulo
    2^mm - 1 of dump978/fec/rs-common.h. */
module RsTables {
  import opened Bits
  import opened Division
  import opened Galois
  import opened Poly

  // x mod (2^mm - 1) by folding the high bits onto the low ones.
  method Modnn(mm: nat, nn: nat, x: nat) returns (r: nat)
    requires mm >= 1 && nn == Pow2(mm) - 1
    ensures r == x % nn
  {
    assert Pow2(mm) == 2 * Pow2(mm - 1);
    r := x;
    while r >= nn
      invariant r % nn == x % nn
      decreases r
    {
      r := r - nn;
      LowHigh(r, mm);
      FoldMod(r, High(r, mm), Low(r, mm), nn);
      r := High(r, mm) + Low(r, mm);
    }
    SmallMod(r, nn);
  }

  lemma SmallMod(r: nat, nn: nat)
    requires r < nn
    ensures r % nn == r
  {
  }

  lemma ModShift(a: nat, t: nat, nn: nat)
    requires nn > 0
    ensures (a + t * nn) % nn == a % nn
  {
    var q, m := a / nn, a % nn;
    assert a == q * nn + m;
    assert a + t * nn == (q + t) * nn + m;
    DivModUnique(a + t * nn, nn, q + t, m);
  }

  lemma FoldMod(r: nat, hi: nat, lo: nat, nn: nat)
    requires nn >= 1 && r == hi * (nn + 1) + lo
    ensures hi + lo <= r && (hi + lo) % nn == (r + nn) % nn
  {
    assert hi * (nn + 1) == hi + hi * nn;
    assert r == (hi + lo) + hi * nn;
    ModShift(hi + lo, hi, nn);
    ModShift(r, 1, nn);
  }

  // ----- What the table loop leaves -----

  // alpha_to holds the powers of alpha and, last, 0; index_of is its inverse.
  ghost predicate Tables(g: Gf, alphaTo: seq<nat>, indexOf: seq<nat>) {
    var nn := Size(g) - 1;
    && |alphaTo| == |indexOf| == nn + 1
    && alphaTo[nn] == 0 && indexOf[0] == nn
    && (forall i :: 0 <= i < nn ==> alphaTo[i] == Exp(g, i))
    && (forall x :: 1 <= x <= nn ==> indexOf[x] < nn && Exp(g, indexOf[x]) == x)
  }

  // The last of the first n powers that equals x, or none.
  ghost predicate LastLog(g: Gf, n: nat, x: nat, k: nat) {
    k < n && Exp(g, k) == x && forall i :: k < i < n ==> Exp(g, i) != x
  }

  // What the loop computes for any gfpoly, primitive or not, after n rounds.
  ghost predicate Filled(g: Gf, alphaTo: seq<nat>, indexOf: seq<nat>, n: nat) {
    && n < |alphaTo| == |indexOf| == Size(g)
    && alphaTo[Size(g) - 1] == 0
    && (forall i :: 0 <= i < n ==> alphaTo[i] == Exp(g, i))
    && (forall i :: 0 <= i < n ==> LastLog(g, n, Exp(g, i), At(indexOf, Exp(g, i))))
    && ((forall i :: 0 <= i < n ==> Exp(g, i) != 0) ==> indexOf[0] == Size(g) - 1)
  }

  method FillTables(g: Gf, alphaTo: array<nat>, indexOf: array<nat>) returns (sr: nat)
    requires g.mm >= 1 && alphaTo != indexOf && alphaTo.Length == indexOf.Length == Size(g)
    modifies alphaTo, indexOf
    ensures Filled(g, alphaTo[..], indexOf[..], Size(g) - 1) && sr == Exp(g, Size(g) - 1)
  {
    OneIn(g);
    var nn := Size(g) - 1;
    indexOf[0] := nn;
    alphaTo[nn] := 0;
    sr := 1;
    for i := 0 to nn
      invariant sr == Exp(g, i) && In(g, sr)
      invariant Filled(g, alphaTo[..], indexOf[..], i)
    {
      ghost var al, ix := alphaTo[..], indexOf[..];
      indexOf[sr] := i;
      alphaTo[i] := sr;
      FilledStep(g, al, ix, i);
      assert alphaTo[..] == al[i := Exp(g, i)] && indexOf[..] == ix[Exp(g, i) := i];
      Times2In(g, sr);
      sr := 2 * sr;
      if sr >= nn + 1 {
        sr := Xor(sr, g.poly);
      }
      sr := Low(sr, g.mm);
    }
  }

  lemma FilledStep(g: Gf, al: seq<nat>, ix: seq<nat>, i: nat)
    requires Filled(g, al, ix, i) && i < Size(g) - 1 && In(g, Exp(g, i))
    ensures Filled(g, al[i := Exp(g, i)], ix[Exp(g, i) := i], i + 1)
  {
    hide Exp;
    var x := Exp(g, i);
    var ix' := ix[x := i];
    forall j | 0 <= j < i + 1 ensures LastLog(g, i + 1, Exp(g, j), At(ix', Exp(g, j))) {
      if Exp(g, j) != x {
        assert LastLog(g, i, Exp(g, j), At(ix, Exp(g, j)));
      }
    }
  }

  ghost predicate MutuallyInverse(g: Gf, al: seq<nat>, ix: seq<nat>) {
    && |al| == |ix| == Size(g)
    && (forall i :: 0 <= i < Size(g) - 1 ==> At(ix, al[i]) == i)
    && (forall x :: 1 <= x < Size(g) ==> ix[x] < Size(g) - 1 && al[ix[x]] == x)
  }

  // The test sr == 1 that ends table construction does not make the tables
  // inverse to each other: that takes a primitive gfpoly, and is then assured.
  lemma InverseIffPrimitive(g: Gf, al: seq<nat>, ix: seq<nat>)
    requires g.mm >= 1 && Filled(g, al, ix, Size(g) - 1) && Exp(g, Size(g) - 1) == 1
    ensures MutuallyInverse(g, al, ix) <==> Primitive(g)
  {
    hide Exp;
    OneIn(g);
    var nn := Size(g) - 1;
    ExpOne(g);
    if MutuallyInverse(g, al, ix) {
      assert LastLog(g, nn, Exp(g, 0), At(ix, al[0])) && At(ix, al[0]) == 0;
    }
    if Primitive(g) {
      PrimitiveTables(g, al, ix);
      forall i | 0 <= i < nn ensures At(ix, al[i]) == i {
        ExpIn(g, i);
        ExpNonzero(g, i);
        ExpInjective(g, i, At(ix, al[i]));
      }
    }
  }

  lemma PrimitiveTables(g: Field, al: seq<nat>, ix: seq<nat>)
    requires Filled(g, al, ix, Size(g) - 1)
    ensures Tables(g, al, ix)
  {
    hide Exp;
    var nn := Size(g) - 1;
    OneIn(g);
    forall i | 0 <= i < nn ensures Exp(g, i) != 0 {
      ExpNonzero(g, i);
    }
    forall x | 1 <= x <= nn ensures ix[x] < nn && Exp(g, ix[x]) == x {
      LogExists(g, x);
      var i :| 0 <= i < nn && Exp(g, i) == x;
      assert LastLog(g, nn, Exp(g, i), At(ix, Exp(g, i)));
    }
  }

  // Adding logarithms modulo 2^mm - 1 multiplies: the product looked up is the
  // carry-less product divided by gfpoly.
  lemma TableProduct(g: Field, al: seq<nat>, ix: seq<nat>, a: nat, b: nat)
    requires Tables(g, al, ix) && 1 <= a < Size(g) && 1 <= b < Size(g)
    ensures var k := (ix[a] + ix[b]) % (Size(g) - 1);
            k < |al| && IsRemainder(g, CarryLess(a, b), al[k])
  {
    hide Exp, Clmul, IsRemainder;
    var nn := Size(g) - 1;
    var i, j := ix[a], ix[b];
    ExpMod(g, i + j);
    MulExp(g, i, j);
    LowId(a, g.mm);
    LowId(b, g.mm);
    ClmulIsRemainder(g, a, b);
    assert al[(i + j) % nn] == Exp(g, (i + j) % nn);
  }
}
