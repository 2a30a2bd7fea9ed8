/** What the decoder returns and what it leaves, for every block and symbol by
    symbol, in terms of the roots of lambda alone. */
module Outcome {
  import opened Bits
  import opened Galois
  import opened Poly
  import opened Massey
  import opened Locator
  import opened ReedSolomon
  import opened Decoding
  import opened DecoderTheorems

  // lambda has as many distinct nonzero roots as its degree.
  ghost predicate Splits(c: Code, blk: seq<nat>)
    requires ValidCode(c)
  {
    exists rs :: SimpleRoots(c.g, Lambda(c, blk), rs) && |rs| == Degree(Lambda(c, blk))
  }

  // The count is the degree of lambda where lambda splits, and -1 for every other
  // block.
  lemma DecodeCount(c: Code, blk: seq<nat>)
    requires ValidCode(c) && IsBlock(c, blk)
    ensures Decode(c, blk).1 == if Splits(c, blk) then Degree(Lambda(c, blk)) else -1
  {
    hide Lambda, RootsFound, Degree, SimpleRoots, Correct, ValuesFound, LocationsOf;
    SearchCompleteIff(c, blk);
    if AllZero(Syndromes(c, blk)) {
      CleanBlock(c, blk);
      LambdaGenerates(c, blk);
    }
  }

  // ----- One symbol -----

  ghost predicate DistinctLocations(locs: seq<nat>) {
    forall l, m :: 0 <= l < m < |locs| ==> locs[l] != locs[m]
  }

  lemma {:induction false} UntouchedSymbol(c: Code, blk: seq<nat>, locs: seq<nat>, ys: seq<nat>, from: nat, j: nat)
    requires |blk| == Len(c) && |locs| == |ys| && from <= |locs| && Locations(c, locs) && j < |blk|
    requires forall l :: from <= l < |locs| ==> locs[l] != j + c.pad
    ensures Correct(c, blk, locs, ys, from)[j] == blk[j]
    decreases |locs| - from
  {
    hide Xor;
    if from < |locs| {
      UntouchedSymbol(c, blk, locs, ys, from + 1, j);
    }
  }

  lemma {:induction false} TouchedSymbol(c: Code, blk: seq<nat>, locs: seq<nat>, ys: seq<nat>, from: nat, j: nat,
                                         l: nat)
    requires |blk| == Len(c) && |locs| == |ys| && from <= l < |locs| && Locations(c, locs) && j < |blk|
    requires DistinctLocations(locs) && locs[l] == j + c.pad
    ensures Correct(c, blk, locs, ys, from)[j] == Xor(blk[j], ys[l])
    decreases |locs| - from
  {
    hide Xor;
    if from < l {
      TouchedSymbol(c, blk, locs, ys, from + 1, j, l);
    } else {
      UntouchedSymbol(c, blk, locs, ys, from + 1, j);
    }
  }

  lemma FoundLocationsDistinct(c: Code, blk: seq<nat>)
    requires ValidCode(c)
    ensures DistinctLocations(FoundLocations(c, blk))
  {
    hide Mul, Exp, RootsFound, LocationPoint, LocationsOf;
    var locs, xs, rs := FoundLocations(c, blk), FoundPoints(c, blk), RootValues(c.g, RootsFound(c, blk));
    RootValuesDistinct(c, blk);
    forall l, m | 0 <= l < m < |locs| ensures locs[l] != locs[m] {
      FoundInverse(c, blk, l);
      FoundInverse(c, blk, m);
      assert xs[l] == LocationPoint(c, locs[l]) && xs[m] == LocationPoint(c, locs[m]);
      assert rs[l] != rs[m];
      if xs[l] == xs[m] {
        MulComm(c.g, xs[l], rs[l]);
        MulComm(c.g, xs[l], rs[m]);
        InverseUnique(c.g, rs[l], rs[m], xs[l]);
      }
    }
  }

  lemma SamePoint(c: Code, j: nat)
    requires j < Len(c)
    ensures j + c.pad < Nn(c) && LocationPoint(c, j + c.pad) == Point(c, Len(c), j)
  {
    hide Exp;
    assert Nn(c) - 1 - (j + c.pad) == Len(c) - 1 - j;
  }

  // Every root of lambda is found, unless the search fails.
  lemma RootIsFound(c: Code, blk: seq<nat>, r: nat) returns (l: nat)
    requires ValidCode(c) && SearchComplete(c, blk) && In(c.g, r) && r != 0
    requires Eval(c.g, Lambda(c, blk), r, c.nroots + 1) == 0
    ensures l < |RootsFound(c, blk)| && Exp(c.g, RootsFound(c, blk)[l]) == r
  {
    hide Exp, Eval, Lambda, RootsFound, Degree;
    var rs := RootValues(c.g, RootsFound(c, blk));
    RootValuesDistinct(c, blk);
    if r !in rs {
      var all := rs + [r];
      forall m | 0 <= m < |all| ensures all[m] != 0 && Eval(c.g, Lambda(c, blk), all[m], c.nroots + 1) == 0 {
        if m < |rs| {
          FoundRootEval(c, blk, m);
        }
      }
      LambdaRootBound(c, blk, all);
    }
    l :| 0 <= l < |rs| && rs[l] == r;
  }

  // The location that a root of lambda points to, where it lies in the block.
  lemma RootPointsTo(c: Code, blk: seq<nat>, j: nat, r: nat, l: nat)
    requires ValidCode(c) && j < Len(c) && l < |RootsFound(c, blk)| && In(c.g, r)
    requires Mul(c.g, Point(c, Len(c), j), r) == 1
    ensures FoundLocations(c, blk)[l] == j + c.pad <==> Exp(c.g, RootsFound(c, blk)[l]) == r
    ensures FoundLocations(c, blk)[l] == j + c.pad ==> FoundPoints(c, blk)[l] == Point(c, Len(c), j)
  {
    hide Mul, Exp, RootsFound, LocationPoint, LocationsOf, Point;
    var x, loc, s := Point(c, Len(c), j), FoundLocations(c, blk)[l], Exp(c.g, RootsFound(c, blk)[l]);
    FoundInverse(c, blk, l);
    SamePoint(c, j);
    LocationPointIn(c, j + c.pad);
    ExpIn(c.g, RootsFound(c, blk)[l]);
    assert FoundPoints(c, blk)[l] == LocationPoint(c, loc);
    if loc == j + c.pad {
      MulComm(c.g, x, s);
      MulComm(c.g, x, r);
      InverseUnique(c.g, s, r, x);
    }
    if s == r {
      InverseUnique(c.g, FoundPoints(c, blk)[l], x, r);
      PointLocation(c, loc, j);
    }
  }

  // Forney's equation for one symbol: its change e, scaled by the locator x,
  // takes the cofactor of x at the root r to the evaluator.
  ghost predicate ForneyEquation(c: Code, blk: seq<nat>, v: nat, x: nat, r: nat, e: nat)
    requires ValidCode(c)
  {
    Mul(c.g, Mul(c.g, e, Power(c.g, x, c.fcr)), Eval(c.g, Quotient(c.g, Lambda(c, blk), x), r, v))
    == Eval(c.g, Omega(c.g, Lambda(c, blk), Syndromes(c, blk), v), r, v)
  }

  // A symbol changes only if the inverse r of its locator is a root of lambda, and
  // then by the value that Forney's equation asks for.
  lemma SymbolOutcome(c: Code, blk: seq<nat>, j: nat, r: nat)
    requires ValidCode(c) && IsBlock(c, blk) && j < |blk| && In(c.g, r)
    requires Mul(c.g, Point(c, Len(c), j), r) == 1 && Decode(c, blk).1 >= 0
    ensures var (out, count) := Decode(c, blk);
            var e, x := Xor(out[j], blk[j]), Point(c, Len(c), j);
            if Eval(c.g, Lambda(c, blk), r, c.nroots + 1) == 0 then In(c.g, e) && ForneyEquation(c, blk, count, x, r, e)
            else e == 0
  {
    hide Mul, Exp, Eval, Lambda, RootsFound, FoundLocations, FoundPoints, ValuesFound, Correct, Point, Power, Omega,
      Quotient, Degree, Syndromes;
    XorSelf(blk[j]);
    RootNonzero(c.g, Point(c, Len(c), j), r);
    var p := Lambda(c, blk);
    if AllZero(Syndromes(c, blk)) {
      CleanBlock(c, blk);
      LambdaGenerates(c, blk);
      if Eval(c.g, p, r, c.nroots + 1) == 0 {
        LambdaRootBound(c, blk, [r]);
      }
    } else if Eval(c.g, p, r, c.nroots + 1) == 0 {
      var l := RootIsFound(c, blk, r);
      RootPointsTo(c, blk, j, r, l);
      ChangedSymbol(c, blk, j, r, l);
    } else {
      forall l | 0 <= l < |FoundLocations(c, blk)| ensures FoundLocations(c, blk)[l] != j + c.pad {
        FoundRootEval(c, blk, l);
        RootPointsTo(c, blk, j, r, l);
      }
      DecodeIs(c, blk);
      UntouchedSymbol(c, blk, FoundLocations(c, blk), ValuesFound(c, blk), 0, j);
    }
  }

  lemma RootNonzero(g: Field, x: nat, r: nat)
    requires Mul(g, x, r) == 1
    ensures r != 0
  {
    hide Mul;
    MulZero(g, x);
  }

  lemma DecodeIs(c: Code, blk: seq<nat>)
    requires ValidCode(c) && IsBlock(c, blk) && !AllZero(Syndromes(c, blk)) && Decode(c, blk).1 >= 0
    ensures c.nroots > 0 && SearchComplete(c, blk)
    ensures Decode(c, blk)
         == (Correct(c, blk, FoundLocations(c, blk), ValuesFound(c, blk), 0), |RootsFound(c, blk)|)
  {
    hide Lambda, RootsFound, Degree, Correct, ValuesFound, LocationsOf;
  }

  lemma ChangedSymbol(c: Code, blk: seq<nat>, j: nat, r: nat, l: nat)
    requires ValidCode(c) && IsBlock(c, blk) && !AllZero(Syndromes(c, blk)) && Decode(c, blk).1 >= 0 && j < |blk|
    requires l < |RootsFound(c, blk)| && Exp(c.g, RootsFound(c, blk)[l]) == r
    requires FoundLocations(c, blk)[l] == j + c.pad && FoundPoints(c, blk)[l] == Point(c, Len(c), j)
    ensures var (out, count) := Decode(c, blk);
            var e := Xor(out[j], blk[j]);
            In(c.g, e) && ForneyEquation(c, blk, count, Point(c, Len(c), j), r, e)
  {
    hide Mul, Exp, Eval, Lambda, RootsFound, FoundLocations, FoundPoints, ValuesFound, Correct, Point, Power, Omega,
      Quotient, Degree, Syndromes, Decode, Xor;
    DecodeIs(c, blk);
    FoundLocationsDistinct(c, blk);
    var y := ValuesFound(c, blk)[l];
    TouchedSymbol(c, blk, FoundLocations(c, blk), ValuesFound(c, blk), 0, j, l);
    XorComm(blk[j], y);
    XorCancel(y, blk[j]);
    ValuesFoundIn(c, blk);
    ForneyHolds(c, blk, l);
  }

  // Only one value satisfies Forney's equation at a found root.
  lemma ForneyUnique(c: Code, blk: seq<nat>, l: nat, e: nat, e': nat)
    requires ValidCode(c) && SearchComplete(c, blk) && l < |RootsFound(c, blk)| && In(c.g, e) && In(c.g, e')
    requires var x, r, v := FoundPoints(c, blk)[l], Exp(c.g, RootsFound(c, blk)[l]), |RootsFound(c, blk)|;
             ForneyEquation(c, blk, v, x, r, e) && ForneyEquation(c, blk, v, x, r, e')
    ensures e == e'
  {
    hide Mul, Exp, Eval, Lambda, RootsFound, FoundPoints, Power, Omega, Quotient, Degree, Syndromes;
    var g: Field := c.g;
    var x, r, v := FoundPoints(c, blk)[l], Exp(g, RootsFound(c, blk)[l]), |RootsFound(c, blk)|;
    var q := Eval(g, Quotient(g, Lambda(c, blk), x), r, v);
    var f := Power(g, x, c.fcr);
    FoundInverse(c, blk, l);
    FoundDerivative(c, blk, l);
    PowerNonzero(g, x, c.fcr);
    PowerIn(g, x, c.fcr);
    EvalIn(g, Quotient(g, Lambda(c, blk), x), r, v);
    MulZero(g, x);
    MulIn(g, e, f);
    MulIn(g, e', f);
    MulComm(g, Mul(g, e, f), q);
    MulComm(g, Mul(g, e', f), q);
    CancelFactor(g, q, Mul(g, e, f), Mul(g, e', f));
    MulComm(g, e, f);
    MulComm(g, e', f);
    CancelFactor(g, f, e, e');
  }
}
