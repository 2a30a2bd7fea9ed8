/** A block on which the decoder reports success without correcting anything,
    although the block is not a codeword. The Chien search compares the number
    of roots with the degree of lambda, not with the recurrence length. */
module Undetected {
  import opened Bits
  import opened Collections
  import opened Galois
  import opened Sums
  import opened Poly
  import opened Massey
  import opened Locator
  import opened ReedSolomon
  import opened Generator
  import opened DecoderTheorems

  ghost predicate OnlyFirst(s: seq<nat>) {
    |s| >= 2 && s[0] != 0 && forall i :: 1 <= i < |s| ==> s[i] == 0
  }

  lemma ConvConstant(g: Field, p: seq<nat>, s: seq<nat>, j: nat)
    requires |p| > 0 && p[0] == 1 && DegreeAtMost(p, 0) && AllIn(g, s) && j < |s|
    ensures Conv(g, p, s, j) == s[j]
  {
    hide Mul, Xor, ConvTerm;
    var f := ConvTerm(g, p, s, j);
    forall i: nat | i < |p| && i != 0 ensures f(i) == 0 {
      ConvTermAt(g, p, s, j, i);
      MulZero(g, At(s, j - i));
    }
    SumSingle(f, 0, |p|);
    ConvTermAt(g, p, s, j, 0);
    MulOne(g, s[j]);
  }

  // A linear connection polynomial's coefficient 1 of the product with s.
  lemma ConvLinear(g: Field, p: seq<nat>, s: seq<nat>)
    requires |p| > 1 && p[0] == 1 && DegreeAtMost(p, 1) && AllIn(g, s) && |s| >= 2
    ensures Conv(g, p, s, 1) == Xor(s[1], Mul(g, p[1], s[0]))
  {
    hide Mul, Xor, ConvTerm;
    var f := ConvTerm(g, p, s, 1);
    forall i: nat | 2 <= i < |p| ensures f(i) == 0 {
      ConvTermAt(g, p, s, 1, i);
      MulZero(g, At(s, 1 - i));
    }
    SumTail(f, 2, |p|);
    ConvTermAt(g, p, s, 1, 0);
    ConvTermAt(g, p, s, 1, 1);
    MulOne(g, s[1]);
    XorZero(s[1]);
    assert Sum(f, 2) == Xor(Sum(f, 1), f(1));
    assert Sum(f, 1) == Xor(Sum(f, 0), f(0));
  }

  // With a single nonzero syndrome in front, lambda degenerates to 1 while the
  // recurrence it stands for has length 1.
  lemma DegenerateLambda(g: Field, s: seq<nat>)
    requires AllIn(g, s) && OnlyFirst(s)
    ensures Degree(Run(g, s, |s|).lambda) == 0 && Run(g, s, |s|).el == 1
  {
    hide Mul, Xor, Conv, Step, Run;
    var p, el := Run(g, s, |s|).lambda, Run(g, s, |s|).el;
    KeyEquation(g, s, |s|);
    assert Generates(g, p, el, s, |s|);
    var one := [1] + Zeros(|s|);
    forall j | 1 <= j < |s| ensures Conv(g, one, s, j) == 0 {
      ConvConstant(g, one, s, j);
    }
    OneIn(g);
    assert Generates(g, one, 1, s, |s|);
    ShortestRecurrence(g, s, |s|, one, 1);
    if el == 0 {
      ConvConstant(g, p, s, 0);
    }
    ConvLinear(g, p, s);
    XorZero(Mul(g, p[1], s[0]));
    MulNonzero(g, p[1], s[0]);
    GeneratesDegree(g, p, el, s, |s|);
  }

  // Such a block is returned unchanged, with return value 0.
  lemma DegenerateDecode(c: Code, blk: seq<nat>)
    requires ValidCode(c) && IsBlock(c, blk) && OnlyFirst(Syndromes(c, blk))
    ensures Decode(c, blk) == (blk, 0) && !IsCodeword(c, blk)
  {
    hide Mul, Xor, Syndrome, Run, Eval;
    SyndromesIn(c, blk);
    DegenerateLambda(c.g, Syndromes(c, blk));
    assert Syndromes(c, blk)[0] != 0;
    assert RootsFound(c, blk) == [];
  }

  lemma PadValue(g: Field, p: seq<nat>, n: nat, x: nat)
    ensures Value(g, p + Zeros(n), x) == Value(g, p, x)
  {
    hide Mul, Eval;
    var t := p + Zeros(n);
    EvalTail(g, t, |p|, x, |t|);
    EvalEq(g, t, p, x, |p|);
  }

  // The product of all generator factors but the first, as the last nroots
  // symbols of a block.
  ghost function LateFactors(c: Code): (blk: seq<nat>)
    requires ValidCode(c) && c.nroots >= 2
    ensures |blk| == Len(c)
  {
    Reverse(MulRoots(c.g, [1], GeneratorRoots(c)[1..]) + Zeros(Len(c) - c.nroots))
  }

  lemma LateFactorsIn(c: Code)
    requires ValidCode(c) && c.nroots >= 2
    ensures AllIn(c.g, LateFactors(c))
  {
    hide MulRoots;
    OneIn(c.g);
    MulRootsIn(c.g, [1], GeneratorRoots(c)[1..]);
    assert Size(c.g) >= 1;
  }

  lemma LateFactorsSyndrome(c: Code, i: nat)
    requires ValidCode(c) && c.nroots >= 2 && i < c.nroots
    ensures Syndrome(c, LateFactors(c), i) == 0 <==> i > 0
  {
    hide Mul, Xor, Value, MulRoots, GeneratorRoot, Syndrome, Horner;
    var g: Field := c.g;
    var rs, blk := GeneratorRoots(c), LateFactors(c);
    var p := MulRoots(g, [1], rs[1..]);
    assert Reverse(blk) == p + Zeros(Len(c) - c.nroots);
    LateFactorsIn(c);
    SyndromeAtRoot(c, blk, i);
    HornerIsValue(g, blk, rs[i]);
    PadValue(g, p, Len(c) - c.nroots, rs[i]);
    GeneratorRootsDistinct(c);
    OneIn(g);
    if i > 0 {
      assert rs[i] == rs[1..][i - 1];
      MulRootsVanishes(g, [1], rs[1..], i - 1);
    } else {
      ValueOfOne(g, rs[0]);
      MulRootsElsewhere(g, [1], rs[1..], rs[0]);
    }
  }

  // Every code with two or more parity symbols has a block that is not a
  // codeword and that the decoder accepts as it is.
  lemma UndetectedError(c: Code)
    requires ValidCode(c) && c.nroots >= 2
    ensures IsBlock(c, LateFactors(c)) && !IsCodeword(c, LateFactors(c))
    ensures Decode(c, LateFactors(c)) == (LateFactors(c), 0)
  {
    hide Mul, Xor, LateFactors, Syndrome, Decode;
    var blk := LateFactors(c);
    LateFactorsIn(c);
    forall i | 0 <= i < c.nroots ensures Syndromes(c, blk)[i] == 0 <==> i > 0 {
      LateFactorsSyndrome(c, i);
    }
    DegenerateDecode(c, blk);
  }

  lemma ValueOfOne(g: Field, x: nat)
    ensures Value(g, [1], x) == 1
  {
    hide Mul, Xor;
    OneIn(g);
    EvalFront(g, [1], x, 0);
    ZeroTerms(g, [1][1..], x);
    MulZero(g, x);
    XorZero(1);
  }
}
