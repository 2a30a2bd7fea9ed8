/** struct rs of dump978/fec and the loops of its decoder, proved to compute the
    stages of ReedSolomon. */
module RsCodec {
  import opened Bits
  import opened Collections
  import opened Galois
  import opened Sums
  import opened Poly
  import opened Massey
  import opened Locator
  import opened ReedSolomon
  import opened DecoderTheorems
  import opened RsTables

  // The symbol an entry in index form stands for.
  ghost function FromIndex(g: Gf, i: nat): nat {
    if i < Size(g) - 1 then Exp(g, i) else 0
  }

  ghost predicate IndexForm(g: Gf, idx: seq<nat>, p: seq<nat>) {
    |idx| == |p| && forall i :: 0 <= i < |p| ==> idx[i] < Size(g) && FromIndex(g, idx[i]) == p[i]
  }

  class Rs {
    const mm: nat
    const nn: nat
    const alphaTo: array<nat>
    const indexOf: array<nat>
    const genpoly: array<nat>
    const nroots: nat
    const fcr: nat
    const prim: nat
    const iprim: nat
    const pad: nat
    // gfpoly is not kept in the C structure; the tables stand for it
    ghost const poly: nat

    constructor (mm: nat, nn: nat, alphaTo: array<nat>, indexOf: array<nat>, genpoly: array<nat>,
                 nroots: nat, fcr: nat, prim: nat, iprim: nat, pad: nat, ghost poly: nat)
      ensures this.mm == mm && this.nn == nn && this.alphaTo == alphaTo && this.indexOf == indexOf
      ensures this.genpoly == genpoly && this.nroots == nroots && this.fcr == fcr && this.prim == prim
      ensures this.iprim == iprim && this.pad == pad && this.poly == poly
    {
      this.mm := mm;
      this.nn := nn;
      this.alphaTo := alphaTo;
      this.indexOf := indexOf;
      this.genpoly := genpoly;
      this.nroots := nroots;
      this.fcr := fcr;
      this.prim := prim;
      this.iprim := iprim;
      this.pad := pad;
      this.poly := poly;
    }

    ghost function TheCode(): Code {
      Code(Gf(mm, poly), fcr, prim, nroots, iprim, pad)
    }

    ghost predicate Valid()
      reads alphaTo, indexOf
    {
      ValidCode(TheCode()) && nn == Nn(TheCode()) && Tables(Gf(mm, poly), alphaTo[..], indexOf[..])
    }

    ghost predicate Separate(a: array<nat>) {
      a != alphaTo && a != indexOf
    }

    // alpha_to[modnn(x)]
    method PowerOfAlpha(x: nat) returns (y: nat)
      requires Valid()
      ensures y == Exp(TheCode().g, x) && In(TheCode().g, y) && y != 0
    {
      hide Exp;
      var k := Modnn(mm, nn, x);
      y := alphaTo[k];
      ghost var g: Field := TheCode().g;
      assert alphaTo[..][k] == Exp(g, k);
      ExpMod(g, x);
      ExpIn(g, x);
      ExpNonzero(g, x);
    }

    // alpha_to[modnn(index_of[a] + e)] for a nonzero symbol a
    method TimesPower(a: nat, e: nat) returns (y: nat)
      requires Valid() && a != 0 && In(TheCode().g, a)
      ensures y == Mul(TheCode().g, a, Exp(TheCode().g, e)) && In(TheCode().g, y)
    {
      hide Exp, Mul;
      ghost var g: Field := TheCode().g;
      assert indexOf[..][a] == indexOf[a] < nn && Exp(g, indexOf[a]) == a;
      y := PowerOfAlpha(indexOf[a] + e);
      MulExp(g, indexOf[a], e);
    }

    method ToIndex(a: nat) returns (i: nat)
      requires Valid() && In(TheCode().g, a)
      ensures i < nn + 1 && FromIndex(TheCode().g, i) == a && (i == nn <==> a == 0)
    {
      hide Exp;
      i := indexOf[a];
      assert indexOf[..][a] == indexOf[a];
      if a != 0 {
        assert indexOf[a] < nn && Exp(TheCode().g, indexOf[a]) == a;
      }
    }

    // ----- Syndromes -----

    ghost predicate SyndromesSoFar(s: seq<nat>, blk: seq<nat>, j: nat, i: nat)
      requires j < |blk| && i <= nroots == |s|
    {
      forall k :: 0 <= k < nroots ==>
        s[k] == Horner(TheCode().g, blk[..if k < i then j + 1 else j], Exp(TheCode().g, (fcr + k) * prim))
    }

    method FormSyndromes(data: array<nat>, off: nat, s: array<nat>)
      requires Valid() && Separate(s) && Separate(data) && s != data && s.Length == nroots
      requires off + (nn - pad) <= data.Length && IsBlock(TheCode(), data[off..off + nn - pad])
      modifies s
      ensures s[..] == Syndromes(TheCode(), data[off..off + nn - pad])
    {
      hide Exp, Mul, Xor, Horner;
      ghost var c := TheCode();
      ghost var g: Field := c.g;
      ghost var blk := data[off..off + nn - pad];
      for i := 0 to nroots
        invariant forall k :: 0 <= k < i ==> s[k] == data[off]
      {
        s[i] := data[off];
      }
      FirstSyndromes(blk, s[..]);
      for j := 1 to nn - pad
        invariant SyndromesSoFar(s[..], blk, j - 1, nroots)
      {
        assert SyndromesSoFar(s[..], blk, j, 0);
        for i := 0 to nroots
          invariant SyndromesSoFar(s[..], blk, j, i)
        {
          ghost var was := s[..];
          var d := data[off + j];
          assert d == blk[j];
          HornerIn(g, blk[..j], Exp(g, (fcr + i) * prim));
          HornerNext(g, blk, j, Exp(g, (fcr + i) * prim));
          if s[i] == 0 {
            s[i] := d;
          } else {
            var y := TimesPower(s[i], (fcr + i) * prim);
            s[i] := Xor(d, y);
          }
          NextSyndrome(was, blk, j, i, s[i]);
          assert s[..] == was[i := s[i]];
        }
      }
      assert blk[..nn - pad] == blk;
      forall k | 0 <= k < nroots ensures s[..][k] == Syndromes(c, blk)[k] {
        SyndromeIsHorner(c, blk, k);
      }
    }

    lemma FirstSyndromes(blk: seq<nat>, s: seq<nat>)
      requires ValidCode(TheCode()) && |s| == nroots && IsBlock(TheCode(), blk)
      requires forall k :: 0 <= k < nroots ==> s[k] == blk[0]
      ensures SyndromesSoFar(s, blk, 0, nroots)
    {
      hide Exp, Mul, Xor;
      forall k | 0 <= k < nroots
        ensures s[k] == Horner(TheCode().g, blk[..1], Exp(TheCode().g, (fcr + k) * prim))
      {
        HornerOne(TheCode().g, blk[..1], Exp(TheCode().g, (fcr + k) * prim));
      }
    }

    lemma NextSyndrome(s: seq<nat>, blk: seq<nat>, j: nat, i: nat, y: nat)
      requires 1 <= j < |blk| && i < nroots == |s| && SyndromesSoFar(s, blk, j, i)
      requires y == Horner(TheCode().g, blk[..j + 1], Exp(TheCode().g, (fcr + i) * prim))
      ensures SyndromesSoFar(s[i := y], blk, j, i + 1)
    {
      hide Exp, Horner;
    }

    // Converts the syndromes in place and reports whether any is nonzero.
    method SyndromesToIndex(s: array<nat>) returns (synError: bool)
      requires Valid() && Separate(s) && AllIn(TheCode().g, s[..])
      modifies s
      ensures IndexForm(TheCode().g, s[..], old(s[..]))
      ensures synError <==> !AllZero(old(s[..]))
    {
      ghost var was := s[..];
      ghost var g := TheCode().g;
      synError := false;
      for i := 0 to s.Length
        invariant forall k :: i <= k < s.Length ==> s[k] == was[k]
        invariant forall k :: 0 <= k < i ==> s[k] < Size(g) && FromIndex(g, s[k]) == was[k]
        invariant synError <==> exists k :: 0 <= k < i && was[k] != 0
      {
        assert In(g, was[i]);
        synError := synError || s[i] != 0;
        var x := ToIndex(s[i]);
        s[i] := x;
      }
    }

    // ----- Berlekamp-Massey -----

    // One term of a sum of products, for factors given in index form.
    method IndexProduct(a: nat, i: nat) returns (y: nat)
      requires Valid() && In(TheCode().g, a) && i < nn + 1
      ensures y == Mul(TheCode().g, a, FromIndex(TheCode().g, i)) && In(TheCode().g, y)
    {
      hide Exp, Mul;
      MulZero(TheCode().g, a);
      MulZero(TheCode().g, FromIndex(TheCode().g, i));
      if a != 0 && i != nn {
        y := TimesPower(a, i);
      } else {
        y := 0;
      }
    }

    // The discrepancy at step r, counted from 1.
    method Discrepancy(lambda: array<nat>, s: array<nat>, r: nat, ghost p: seq<nat>) returns (d: nat)
      requires Valid() && lambda.Length == nroots + 1 && AllIn(TheCode().g, lambda[..])
      requires s.Length == nroots && 1 <= r <= nroots && IndexForm(TheCode().g, s[..], p)
      ensures d == Conv(TheCode().g, lambda[..], p, r - 1) && In(TheCode().g, d)
    {
      hide Exp, Mul, Xor, ConvTerm, FromIndex;
      ghost var g: Field := TheCode().g;
      ghost var f := ConvTerm(g, lambda[..], p, r - 1);
      d := 0;
      for i := 0 to r
        invariant d == Sum(f, i) && In(g, d)
      {
        ConvTermAt(g, lambda[..], p, r - 1, i);
        var y := IndexProduct(lambda[i], s[r - i - 1]);
        XorBound(d, y, g.mm);
        d := Xor(d, y);
      }
      DiscrepancyTail(g, lambda[..], p, r);
    }

    // t(x) = lambda(x) - d*x*b(x), with d and b in index form.
    method Adjust(lambda: array<nat>, b: array<nat>, t: array<nat>, discr: nat, ghost bp: seq<nat>)
      requires Valid() && lambda.Length == b.Length == t.Length == nroots + 1
      requires Separate(t) && t != lambda && t != b && discr < nn
      requires AllIn(TheCode().g, lambda[..]) && IndexForm(TheCode().g, b[..], bp)
      modifies t
      ensures t[..] == AddScaled(TheCode().g, lambda[..], FromIndex(TheCode().g, discr), Shift(bp))
    {
      hide Exp, Mul, Xor, FromIndex, Shift;
      ghost var g: Field := TheCode().g;
      ghost var p, d := lambda[..], FromIndex(g, discr);
      ShiftAt(bp);
      AlphaFromIndex(g, discr);
      t[0] := lambda[0];
      MulZero(g, d);
      XorZero(p[0]);
      for i := 0 to nroots
        invariant forall k :: 0 <= k <= i ==> t[k] == Xor(p[k], Mul(g, d, Shift(bp)[k]))
      {
        if b[i] != nn {
          AlphaFromIndex(g, b[i]);
          var y := PowerOfAlpha(discr + b[i]);
          MulExp(g, discr, b[i]);
          t[i + 1] := Xor(lambda[i + 1], y);
        } else {
          ZeroFromIndex(g, b[i]);
          XorZero(p[i + 1]);
          t[i + 1] := lambda[i + 1];
        }
      }
      assert t[..] == AddScaled(g, p, d, Shift(bp));
    }

    // b(x) <- inv(d)*lambda(x), with d and b in index form.
    method Normalise(lambda: array<nat>, b: array<nat>, discr: nat)
      requires Valid() && lambda.Length == b.Length == nroots + 1
      requires Separate(b) && b != lambda && discr < nn
      requires AllIn(TheCode().g, lambda[..])
      modifies b
      ensures FromIndex(TheCode().g, discr) != 0 && In(TheCode().g, FromIndex(TheCode().g, discr))
      ensures IndexForm(TheCode().g, b[..],
        ScaleBy(TheCode().g, Inv(TheCode().g, FromIndex(TheCode().g, discr)), lambda[..]))
    {
      hide Exp, Mul, Xor, FromIndex;
      ghost var g: Field := TheCode().g;
      ghost var p, d := lambda[..], FromIndex(g, discr);
      AlphaFromIndex(g, discr);
      ExpIn(g, discr);
      ExpNonzero(g, discr);
      ghost var v := Inv(g, d);
      for i := 0 to nroots + 1
        invariant forall k :: 0 <= k < i ==> b[k] < Size(g) && FromIndex(g, b[k]) == Mul(g, v, p[k])
      {
        assert In(g, p[i]);
        MulZero(g, v);
        if lambda[i] == 0 {
          b[i] := nn;
          ZeroFromIndex(g, nn);
        } else {
          var k := ToIndex(lambda[i]);
          var x := Modnn(mm, nn, k - discr + nn);
          b[i] := x;
          AlphaFromIndex(g, k);
          QuotientIndex(g, k, discr, x);
        }
      }
    }

    // b(x) <- x*b(x): a memmove by one place.
    method ShiftUp(b: array<nat>, ghost bp: seq<nat>)
      requires Valid() && b.Length > 0 && Separate(b) && IndexForm(TheCode().g, b[..], bp)
      modifies b
      ensures IndexForm(TheCode().g, b[..], Shift(bp))
    {
      hide Exp, FromIndex, Shift;
      ghost var was := b[..];
      ShiftAt(bp);
      ZeroFromIndex(TheCode().g, nn);
      forall i | 0 <= i < b.Length - 1 {
        b[i + 1] := b[i];
      }
      b[0] := nn;
      assert forall k :: 1 <= k < b.Length ==> b[k] == was[k - 1];
    }

    // b <- lambda in index form
    method CopyToIndex(lambda: array<nat>, b: array<nat>)
      requires Valid() && Separate(b) && b != lambda && b.Length == lambda.Length
      requires AllIn(TheCode().g, lambda[..])
      modifies b
      ensures IndexForm(TheCode().g, b[..], lambda[..])
    {
      hide Exp, FromIndex;
      ghost var g := TheCode().g;
      ghost var p := lambda[..];
      for i := 0 to b.Length
        invariant forall k :: 0 <= k < i ==> b[k] < Size(g) && FromIndex(g, b[k]) == p[k]
      {
        assert In(g, p[i]);
        var x := ToIndex(lambda[i]);
        b[i] := x;
      }
    }

    // The branch for a nonzero discrepancy.
    method CorrectLambda(lambda: array<nat>, b: array<nat>, t: array<nat>, el: nat, r: nat, discr: nat,
                         ghost st: State) returns (el': nat)
      requires Valid() && lambda.Length == b.Length == t.Length == nroots + 1
      requires Separate(lambda) && Separate(b) && Separate(t)
      requires lambda != b && lambda != t && b != t
      requires lambda[..] == st.lambda && AllIn(TheCode().g, st.lambda) && IndexForm(TheCode().g, b[..], st.b)
      requires st.el == el < r && discr < nn
      modifies lambda, b, t
      ensures var g, d := TheCode().g, FromIndex(TheCode().g, discr);
        && d != 0 && In(g, d)
        && lambda[..] == AddScaled(g, st.lambda, d, Shift(st.b))
        && (2 * el <= r - 1 ==> el' == r - el && IndexForm(g, b[..], ScaleBy(g, Inv(g, d), st.lambda)))
        && (2 * el > r - 1 ==> el' == el && IndexForm(g, b[..], Shift(st.b)))
    {
      hide Exp, Mul, Xor, FromIndex, Shift, Conv, IndexForm, Tables;
      NonzeroFromIndex(TheCode().g, discr);
      el' := el;
      Adjust(lambda, b, t, discr, st.b);
      ghost var next := t[..];
      if 2 * el <= r - 1 {
        el' := r - el;
        Normalise(lambda, b, discr);
      } else {
        ShiftUp(b, st.b);
      }
      ghost var newB := b[..];
      forall i | 0 <= i < lambda.Length {
        lambda[i] := t[i];
      }
      assert t[..] == next && b[..] == newB;
      assert lambda[..] == next;
    }

    // Step r, counted from 1: lambda, b and el as the next state has them.
    method MasseyStep(s: array<nat>, lambda: array<nat>, b: array<nat>, t: array<nat>, el: nat, r: nat,
                      ghost p: seq<nat>, ghost st: State) returns (el': nat)
      requires Valid() && s.Length == nroots && lambda.Length == b.Length == t.Length == nroots + 1
      requires Separate(lambda) && Separate(b) && Separate(t)
      requires lambda != b && lambda != t && b != t
      requires IndexForm(TheCode().g, s[..], p) && 1 <= r <= nroots
      requires lambda[..] == st.lambda && AllIn(TheCode().g, st.lambda) && IndexForm(TheCode().g, b[..], st.b)
      requires |st.b| == nroots + 1 && st.el == el <= r - 1
      modifies lambda, b, t
      ensures var st' := Step(TheCode().g, p, st, r - 1);
        lambda[..] == st'.lambda && IndexForm(TheCode().g, b[..], st'.b) && el' == st'.el
    {
      hide Exp, Mul, Xor, FromIndex, Shift, Conv, IndexForm, Tables, Separate;
      el' := el;
      var d := Discrepancy(lambda, s, r, p);
      var discr := ToIndex(d);
      if discr == nn {
        ShiftUp(b, st.b);
      } else {
        el' := CorrectLambda(lambda, b, t, el, r, discr, st);
      }
    }

    method BerlekampMassey(s: array<nat>, lambda: array<nat>, ghost p: seq<nat>) returns (el: nat)
      requires Valid() && s.Length == nroots && lambda.Length == nroots + 1 && Separate(lambda) && s != lambda
      requires IndexForm(TheCode().g, s[..], p) && AllIn(TheCode().g, p)
      modifies lambda
      ensures lambda[..] == Run(TheCode().g, p, nroots).lambda && el == Run(TheCode().g, p, nroots).el
    {
      hide Exp, Mul, Xor, FromIndex, Step, Conv, IndexForm, Tables, Start;
      ghost var g: Field := TheCode().g;
      ghost var idx := s[..];
      IndexFormLength(g, idx, p);
      forall i | 0 <= i < lambda.Length {
        lambda[i] := 0;
      }
      lambda[0] := 1;
      RunStart(g, p);
      StartShape(g, nroots);
      assert lambda[..] == Run(g, p, 0).lambda;
      var b := new nat[nroots + 1];
      var t := new nat[nroots + 1];
      CopyToIndex(lambda, b);
      el := 0;
      var r := 0;
      assert s[..] == idx;
      while r < nroots
        invariant 0 <= r <= nroots
        invariant lambda[..] == Run(g, p, r).lambda && el == Run(g, p, r).el
        invariant IndexForm(g, b[..], Run(g, p, r).b)
        invariant s[..] == idx
      {
        r := r + 1;
        RunShape(g, p, r - 1);
        el := MasseyStep(s, lambda, b, t, el, r, p, Run(g, p, r - 1));
      }
    }

    // ----- Chien search -----

    // Converts lambda to index form in place and finds its degree.
    method LambdaToIndex(lambda: array<nat>) returns (degLambda: nat)
      requires Valid() && Separate(lambda) && lambda.Length == nroots + 1 && AllIn(TheCode().g, lambda[..])
      modifies lambda
      ensures IndexForm(TheCode().g, lambda[..], old(lambda[..])) && degLambda == Degree(old(lambda[..]))
    {
      hide Exp, FromIndex;
      ghost var g := TheCode().g;
      ghost var p := lambda[..];
      degLambda := 0;
      for i := 0 to nroots + 1
        invariant forall k :: i <= k <= nroots ==> lambda[k] == p[k]
        invariant forall k :: 0 <= k < i ==> lambda[k] < Size(g) && FromIndex(g, lambda[k]) == p[k]
        invariant degLambda == Degree(p[..i])
      {
        assert In(g, p[i]) && p[..i + 1][..i] == p[..i];
        var x := ToIndex(lambda[i]);
        lambda[i] := x;
        if lambda[i] != nn {
          degLambda := i;
        }
      }
      assert p[..nroots + 1] == p;
    }

    // reg[j] advanced from exponent i-1 to exponent i, and its term of lambda(alpha^i).
    method Advance(x: nat, j: nat, ghost a: nat, ghost i: nat) returns (x': nat, term: nat)
      requires Valid() && x < nn + 1 && i >= 1 && In(TheCode().g, a)
      requires FromIndex(TheCode().g, x) == Mul(TheCode().g, a, Exp(TheCode().g, j * (i - 1)))
      ensures x' < nn + 1 && term == FromIndex(TheCode().g, x') == Mul(TheCode().g, a, Exp(TheCode().g, j * i))
    {
      hide Exp, Mul;
      ghost var g: Field := TheCode().g;
      RegisterStep(g, a, j, i);
      MulZero(g, Exp(g, j));
      if x != nn {
        x' := Modnn(mm, nn, x + j);
        term := alphaTo[x'];
        assert alphaTo[..][x'] == Exp(g, x');
        ExpMod(g, x + j);
        MulExp(g, x, j);
      } else {
        x' := x;
        term := 0;
      }
    }

    // lambda(alpha^i), from registers that hold its terms at alpha^(i-1).
    method TryExponent(reg: array<nat>, degLambda: nat, i: nat, ghost p: seq<nat>) returns (q: nat)
      requires Valid() && Separate(reg) && reg.Length == nroots + 1 == |p| && degLambda <= nroots
      requires AllIn(TheCode().g, p) && p[0] == 1 && i >= 1
      requires Registers(TheCode().g, reg[..], p, degLambda, i - 1)
      modifies reg
      ensures Registers(TheCode().g, reg[..], p, degLambda, i)
      ensures q == Eval(TheCode().g, p, Exp(TheCode().g, i), degLambda + 1)
    {
      hide Exp, FromIndex, Mul, Xor, EvalTerm, RegisterValue, Tables;
      ghost var g: Field := TheCode().g;
      ghost var f := EvalTerm(g, p, Exp(g, i));
      ghost var total := Sum(f, degLambda + 1);
      q := 1;
      var j := degLambda;
      while j > 0
        invariant 0 <= j <= degLambda
        invariant Xor(q, Sum(f, j + 1)) == Xor(1, total)
        invariant forall m :: 1 <= m <= j ==> RegisterAt(g, reg[m], p, m, i - 1)
        invariant forall m :: j < m <= degLambda ==> RegisterAt(g, reg[m], p, m, i)
      {
        RegisterAtFacts(g, reg[j], p, j, i - 1);
        var x, term := Advance(reg[j], j, p[j], i);
        reg[j] := x;
        RegisterAtIntro(g, x, p, j, i);
        RegisterTerm(g, p, j, i);
        TakeTerm(q, term, Sum(f, j));
        q := Xor(q, term);
        j := j - 1;
      }
      ConstantTerm(g, p, i);
      XorOneCancels(q, total);
    }

    // Finds the exponents at which lambda vanishes, and the locations they stand for.
    method ChienSearch(lambda: array<nat>, degLambda: nat, root: array<nat>, loc: array<nat>, ghost p: seq<nat>)
      returns (count: nat)
      requires Valid() && lambda.Length == nroots + 1 && root.Length == loc.Length == nroots
      requires Separate(root) && Separate(loc) && root != loc && root != lambda && loc != lambda
      requires IndexForm(TheCode().g, lambda[..], p) && AllIn(TheCode().g, p) && p[0] == 1
      requires degLambda == Degree(p) <= nroots
      modifies root, loc
      ensures var ks := FirstRoots(TheCode().g, p, degLambda, nn);
        count == |ks| && root[..count] == ks && LocatedAt(TheCode(), loc[..count], ks)
    {
      hide Exp, FromIndex, Mul, Xor, Eval, Tables, Registers, Location, Degree, FirstRoots, LocatedAt, IndexForm;
      ghost var c := TheCode();
      ghost var g: Field := c.g;
      ghost var ls := lambda[..];
      IndexFormLength(g, ls, p);
      var reg := new nat[nroots + 1];
      forall i | 1 <= i <= nroots {
        reg[i] := lambda[i];
      }
      assert lambda[..] == ls;
      InitialRegisters(g, reg[..], ls, p, degLambda);
      count := 0;
      var i, k := 1, iprim - 1;
      FirstLocation(c);
      NoRootsYet(c, p, degLambda);
      assert root[..0] == [] && loc[..0] == [];
      while i <= nn
        invariant 1 <= i <= nn + 1
        invariant Registers(g, reg[..], p, degLambda, i - 1)
        invariant count == |FirstRoots(g, p, degLambda, i - 1)| <= degLambda
        invariant i <= nn ==> i * c.iprim >= 1 && k == Location(c, i)
        invariant count < degLambda || degLambda == 0
        invariant root[..count] == FirstRoots(g, p, degLambda, i - 1)
        invariant LocatedAt(c, loc[..count], root[..count])
      {
        var q := TryExponent(reg, degLambda, i, p);
        FirstRootsStep(g, p, degLambda, i);
        if q == 0 {
          Record(root, loc, count, i, k);
          count := count + 1;
          if count == degLambda {
            FirstRootsFull(g, p, degLambda, i, nn);
            break;
          }
        }
        if i < nn {
          NextLocation(c, i);
        }
        i := i + 1;
        k := Modnn(mm, nn, k + iprim);
      }
    }

    method Record(root: array<nat>, loc: array<nat>, count: nat, i: nat, k: nat)
      requires ValidCode(TheCode()) && root != loc && count < root.Length == loc.Length
      requires i * iprim >= 1 && k == Location(TheCode(), i)
      requires LocatedAt(TheCode(), loc[..count], root[..count])
      modifies root, loc
      ensures root[..count + 1] == old(root[..count]) + [i]
      ensures LocatedAt(TheCode(), loc[..count + 1], root[..count + 1])
    {
      hide LocatedAt, Location;
      ghost var rs, ls := root[..count], loc[..count];
      root[count] := i;
      loc[count] := k;
      assert root[..count + 1] == rs + [i] && loc[..count + 1] == ls + [k];
      LocatedSnoc(TheCode(), ls, rs, k, i);
    }

    // ----- Error values and correction -----

    // Coefficient i of the error evaluator, summed from the top down.
    method OmegaCoefficient(s: array<nat>, lambda: array<nat>, i: nat, ghost sp: seq<nat>, ghost p: seq<nat>)
      returns (tmp: nat)
      requires Valid() && s.Length == nroots && lambda.Length == nroots + 1 && i < nroots
      requires IndexForm(TheCode().g, s[..], sp) && IndexForm(TheCode().g, lambda[..], p)
      ensures tmp == Conv(TheCode().g, p, sp, i) && In(TheCode().g, tmp)
    {
      hide Exp, FromIndex, Mul, Xor, ConvTerm, Tables;
      ghost var g: Field := TheCode().g;
      ghost var f := ConvTerm(g, p, sp, i);
      tmp := 0;
      var j: int := i;
      XorZero(Sum(f, i + 1));
      while j >= 0
        invariant -1 <= j <= i && In(g, tmp)
        invariant Xor(tmp, Sum(f, j + 1)) == Sum(f, i + 1)
      {
        ConvTermAt(g, p, sp, i, j);
        var y := 0;
        IndexMul(g, s[i - j], lambda[j]);
        if s[i - j] != nn && lambda[j] != nn {
          y := PowerOfAlpha(s[i - j] + lambda[j]);
        }
        TakeTerm(tmp, y, Sum(f, j));
        XorBound(tmp, y, g.mm);
        tmp := Xor(tmp, y);
        j := j - 1;
      }
      XorZero(tmp);
      DiscrepancyTail(g, p, sp, i + 1);
    }

    method FormOmega(s: array<nat>, lambda: array<nat>, degLambda: nat, omega: array<nat>,
                     ghost sp: seq<nat>, ghost p: seq<nat>)
      requires Valid() && s.Length == nroots && lambda.Length == nroots + 1 == omega.Length
      requires degLambda <= nroots && Separate(omega) && omega != s && omega != lambda
      requires IndexForm(TheCode().g, s[..], sp) && IndexForm(TheCode().g, lambda[..], p)
      modifies omega
      ensures IndexForm(TheCode().g, omega[..degLambda], Omega(TheCode().g, p, sp, degLambda))
    {
      hide Exp, FromIndex, Mul, Xor, Conv, Tables, IndexForm;
      ghost var g := TheCode().g;
      ghost var ss, ls := s[..], lambda[..];
      for i := 0 to degLambda
        invariant s[..] == ss && lambda[..] == ls
        invariant forall k :: 0 <= k < i ==> omega[k] < Size(g) && FromIndex(g, omega[k]) == Conv(g, p, sp, k)
      {
        var tmp := OmegaCoefficient(s, lambda, i, sp, p);
        var x := ToIndex(tmp);
        omega[i] := x;
      }
      IndexFormIntro(g, omega[..degLambda], Omega(g, p, sp, degLambda));
    }

    // omega(alpha^k), highest degree first.
    method EvaluateOmega(omega: array<nat>, degLambda: nat, k: nat, ghost o: seq<nat>) returns (num1: nat)
      requires Valid() && degLambda <= omega.Length && IndexForm(TheCode().g, omega[..degLambda], o)
      ensures num1 == Eval(TheCode().g, o, Exp(TheCode().g, k), degLambda) && In(TheCode().g, num1)
    {
      hide Exp, FromIndex, Mul, Xor, EvalTerm, Tables;
      ghost var g: Field := TheCode().g;
      ghost var f := EvalTerm(g, o, Exp(g, k));
      num1 := 0;
      var i: int := degLambda - 1;
      XorZero(Sum(f, degLambda));
      while i >= 0
        invariant -1 <= i < degLambda && In(g, num1)
        invariant Xor(num1, Sum(f, i + 1)) == Sum(f, degLambda)
      {
        assert omega[..degLambda][i] == omega[i];
        RegisterTerm(g, o, i, k);
        var y := TermAt(omega[i], i, k);
        TakeTerm(num1, y, Sum(f, i));
        XorBound(num1, y, g.mm);
        num1 := Xor(num1, y);
        i := i - 1;
      }
      XorZero(num1);
    }

    // lambda'(alpha^k), from the odd coefficients of lambda, highest first.
    method EvaluateDerivative(lambda: array<nat>, degLambda: nat, k: nat, ghost p: seq<nat>) returns (den: nat)
      requires Valid() && lambda.Length == nroots + 1 && 1 <= degLambda <= nroots
      requires IndexForm(TheCode().g, lambda[..], p)
      ensures 0 <= DerivativeTerms(TheCode(), degLambda) && In(TheCode().g, den)
      ensures den == Derivative(TheCode().g, p, Exp(TheCode().g, k), DerivativeTerms(TheCode(), degLambda))
    {
      hide Exp, FromIndex, Mul, Xor, Tables, Derivative, DerivativeTerms;
      ghost var g: Field := TheCode().g;
      ghost var x := Exp(g, k);
      NoDerivative(g, p, x);
      den := 0;
      var top := if degLambda < nroots - 1 then degLambda else nroots - 1;
      var i: int := top - top % 2;
      ghost var terms := DerivativeTerms(TheCode(), degLambda);
      TopTerm(TheCode(), degLambda, top);
      ghost var t := terms;
      XorZero(Derivative(g, p, x, terms));
      while i >= 0
        invariant 0 <= t <= terms && i == 2 * t - 2 && In(g, den)
        invariant Xor(den, Derivative(g, p, x, t)) == Derivative(g, p, x, terms)
      {
        t := t - 1;
        assert lambda[..][i + 1] == lambda[i + 1];
        var y := TermAt(lambda[i + 1], i, k);
        DerivativeTerm(g, p, k, t);
        TakeTerm(den, y, Derivative(g, p, x, t));
        XorBound(den, y, g.mm);
        den := Xor(den, y);
        i := i - 2;
      }
      XorZero(den);
    }

    // A coefficient in index form times alpha^(i*k), or 0.
    method TermAt(a: nat, i: nat, k: nat) returns (y: nat)
      requires Valid() && a < nn + 1
      ensures y == Mul(TheCode().g, FromIndex(TheCode().g, a), Exp(TheCode().g, i * k)) && In(TheCode().g, y)
    {
      hide Exp, FromIndex, Mul, Tables;
      AlphaMul(TheCode().g, a, i, k);
      y := 0;
      if a != nn {
        y := PowerOfAlpha(a + i * k);
      }
    }

    // num1*num2/den, or num1*num2 when den is zero.
    method ProductOverDenominator(num1: nat, num2: nat, den: nat) returns (y: nat)
      requires Valid() && In(TheCode().g, num1) && In(TheCode().g, num2) && In(TheCode().g, den)
      requires num1 != 0 && num2 != 0
      ensures y == Mul(TheCode().g, Mul(TheCode().g, num1, num2), if den == 0 then 1 else Inv(TheCode().g, den))
      ensures In(TheCode().g, y)
    {
      hide Exp, Mul, Tables, FromIndex;
      ghost var g: Field := TheCode().g;
      TablesSize(g, alphaTo[..], indexOf[..]);
      var a, b, d := indexOf[num1], indexOf[num2], indexOf[den];
      IndexFacts(g, alphaTo[..], indexOf[..], num1);
      IndexFacts(g, alphaTo[..], indexOf[..], num2);
      IndexFacts(g, alphaTo[..], indexOf[..], den);
      y := PowerOfAlpha(a + b + nn - d);
      ValueFromIndices(g, a, b, d, num1, num2, den);
    }

    // Forney's formula at one root.
    method ComputeValue(omega: array<nat>, lambda: array<nat>, degLambda: nat, k: nat,
                        ghost o: seq<nat>, ghost p: seq<nat>) returns (num1: nat, y: nat)
      requires Valid() && degLambda <= omega.Length && IndexForm(TheCode().g, omega[..degLambda], o)
      requires lambda.Length == nroots + 1 && 1 <= degLambda <= nroots && IndexForm(TheCode().g, lambda[..], p)
      requires 1 <= k <= nn
      ensures y == ErrorValue(TheCode(), p, o, degLambda, k) && In(TheCode().g, y)
      ensures num1 == 0 ==> y == 0
    {
      hide Exp, FromIndex, Mul, Xor, Tables, Eval, Derivative, IndexForm, DerivativeTerms, ErrorValue;
      ghost var c := TheCode();
      num1 := EvaluateOmega(omega, degLambda, k, o);
      Num2Cases(c, k);
      var num2 := PowerOfAlpha(if fcr == 0 then nn - k else k * (fcr - 1) + nn);
      var den := EvaluateDerivative(lambda, degLambda, k, p);
      ErrorValueFrom(c, p, o, degLambda, k, num1, num2, den);
      if num1 != 0 {
        y := ProductOverDenominator(num1, num2, den);
      } else {
        y := 0;
        ZeroNumerator(c.g, num2, den);
      }
    }

    // Corrects the window of data that starts at off, last root first.
    method ApplyCorrections(data: array<nat>, off: nat, omega: array<nat>, lambda: array<nat>, degLambda: nat,
                            root: array<nat>, loc: array<nat>, count: nat,
                            ghost o: seq<nat>, ghost p: seq<nat>, ghost ks: seq<nat>)
      requires Valid() && Separate(data) && data != omega && data != lambda && data != root && data != loc
      requires off + (nn - pad) <= data.Length
      requires degLambda <= omega.Length && IndexForm(TheCode().g, omega[..degLambda], o)
      requires lambda.Length == nroots + 1 && degLambda <= nroots && IndexForm(TheCode().g, lambda[..], p)
      requires count == degLambda == |ks| && root.Length == loc.Length == nroots > 0
      requires RootList(TheCode(), ks) && root[..count] == ks && loc[..count] == LocationsOf(TheCode(), ks)
      modifies data
      ensures data[off..off + nn - pad]
           == Correct(TheCode(), old(data[off..off + nn - pad]), LocationsOf(TheCode(), ks),
                ErrorValues(TheCode(), p, o, degLambda, ks), 0)
      ensures forall m :: 0 <= m < data.Length && (m < off || m >= off + nn - pad) ==> data[m] == old(data[m])
    {
      hide Exp, FromIndex, Mul, Xor, Tables, IndexForm, ErrorValue, Location;
      ghost var c := TheCode();
      ghost var locs, ys := LocationsOf(c, ks), ErrorValues(c, p, o, degLambda, ks);
      ghost var blk := data[off..off + nn - pad];
      ghost var om, ls := omega[..degLambda], lambda[..];
      var j := count;
      while j > 0
        invariant 0 <= j <= count
        invariant omega[..degLambda] == om && lambda[..] == ls && root[..count] == ks && loc[..count] == locs
        invariant data[off..off + nn - pad] == Correct(c, blk, locs, ys, j)
        invariant forall m :: 0 <= m < data.Length && (m < off || m >= off + nn - pad) ==> data[m] == old(data[m])
      {
        j := j - 1;
        assert root[..count][j] == root[j] && loc[..count][j] == loc[j];
        var num1, y := ComputeValue(omega, lambda, degLambda, root[j], o, p);
        ghost var b := data[off..off + nn - pad];
        if num1 != 0 && loc[j] >= pad {
          data[off + (loc[j] - pad)] := Xor(data[off + (loc[j] - pad)], y);
          assert data[off..off + nn - pad] == b[loc[j] - pad := Xor(b[loc[j] - pad], y)];
        } else {
          NothingToFix(c, b, loc[j], y);
        }
        assert data[off..off + nn - pad] == Fix(c, b, loc[j], y);
      }
    }

    // Decodes the block data[off..off + nn - pad] in place. Returns the number of
    // corrected symbols, or -1.
    method DecodeRsChar(data: array<nat>, off: nat) returns (retval: int)
      requires Valid() && Separate(data) && off + (nn - pad) <= data.Length
      requires AllIn(TheCode().g, data[off..off + nn - pad])
      modifies data
      ensures (data[off..off + nn - pad], retval) == Decode(TheCode(), old(data[off..off + nn - pad]))
      ensures forall m :: 0 <= m < data.Length && (m < off || m >= off + nn - pad) ==> data[m] == old(data[m])
    {
      hide Exp, FromIndex, Mul, Xor, Tables, IndexForm, ErrorValue, Location, Run, Correct, FirstRoots, Syndrome,
        LocatedAt, Degree;
      ghost var c := TheCode();
      ghost var g: Field := c.g;
      ghost var blk := data[off..off + nn - pad];
      var s := new nat[nroots];
      FormSyndromes(data, off, s);
      ghost var sp := s[..];
      SyndromesIn(c, blk);
      var synError := SyndromesToIndex(s);
      if !synError {
        return 0;
      }
      ghost var si := s[..];
      var lambda := new nat[nroots + 1];
      var el := BerlekampMassey(s, lambda, sp);
      ghost var p := lambda[..];
      LambdaShape(c, blk);
      assert s[..] == si;
      var degLambda := LambdaToIndex(lambda);
      var root, loc := new nat[nroots], new nat[nroots];
      var count := ChienSearch(lambda, degLambda, root, loc, p);
      if degLambda != count {
        return -1;
      }
      var omega := new nat[nroots + 1];
      FormOmega(s, lambda, degLambda, omega, sp, p);
      ghost var ks := RootsFound(c, blk);
      LocatedIsLocationsOf(c, loc[..count], ks);
      ApplyCorrections(data, off, omega, lambda, degLambda, root, loc, count,
        Omega(g, p, sp, degLambda), p, ks);
      retval := count;
    }
  }

  lemma HornerOne(g: Field, p: seq<nat>, x: nat)
    requires |p| == 1
    ensures Horner(g, p, x) == p[0]
  {
    hide Mul, Xor;
    assert p[..0] == [];
    MulZero(g, x);
    XorZero(p[0]);
  }

  // One step of Horner's rule as the decoder takes it.
  lemma HornerNext(g: Field, blk: seq<nat>, j: nat, x: nat)
    requires j < |blk|
    ensures Horner(g, blk[..j + 1], x)
         == (if Horner(g, blk[..j], x) == 0 then blk[j] else Xor(blk[j], Mul(g, Horner(g, blk[..j], x), x)))
  {
    hide Mul, Xor;
    assert blk[..j + 1][..j] == blk[..j];
    MulZero(g, x);
    XorZero(blk[j]);
    MulComm(g, x, Horner(g, blk[..j], x));
  }

  lemma AlphaFromIndex(g: Gf, i: nat)
    requires i < Size(g) - 1
    ensures FromIndex(g, i) == Exp(g, i)
  {
  }

  lemma NonzeroFromIndex(g: Field, i: nat)
    requires i < Size(g) - 1
    ensures FromIndex(g, i) != 0 && In(g, FromIndex(g, i))
  {
    hide Exp;
    ExpIn(g, i);
    ExpNonzero(g, i);
  }

  lemma ZeroFromIndex(g: Gf, i: nat)
    requires i >= Size(g) - 1
    ensures FromIndex(g, i) == 0
  {
  }

  lemma DiscrepancyTail(g: Field, lambda: seq<nat>, p: seq<nat>, r: nat)
    requires 1 <= r <= |lambda|
    ensures Sum(ConvTerm(g, lambda, p, r - 1), r) == Conv(g, lambda, p, r - 1)
  {
    hide Mul, Xor, ConvTerm;
    var f := ConvTerm(g, lambda, p, r - 1);
    forall i: nat | r <= i < |lambda| ensures f(i) == 0 {
      ConvTermAt(g, lambda, p, r - 1, i);
      MulZero(g, lambda[i]);
    }
    SumTail(f, r, |lambda|);
  }

  lemma QuotientIndex(g: Field, k: nat, d: nat, x: nat)
    requires k < Size(g) - 1 && d < Size(g) - 1 && x == (k - d + (Size(g) - 1)) % (Size(g) - 1)
    requires In(g, Exp(g, d)) && Exp(g, d) != 0
    ensures x < Size(g) - 1 && FromIndex(g, x) == Mul(g, Inv(g, Exp(g, d)), Exp(g, k))
  {
    hide Exp, Mul;
    var nn := Size(g) - 1;
    ExpMod(g, k - d + nn);
    var v := Inv(g, Exp(g, d));
    var u := Exp(g, nn - d);
    ExpIn(g, nn - d);
    MulExp(g, nn - d, d);
    ExpPeriod(g, 0, 1);
    ExpOne(g);
    InverseUnique(g, u, v, Exp(g, d));
    MulExp(g, nn - d, k);
  }

  lemma IndexFormLength(g: Gf, idx: seq<nat>, p: seq<nat>)
    requires IndexForm(g, idx, p)
    ensures |idx| == |p|
  {
  }

  lemma StartShape(g: Field, n: nat)
    ensures Start(n).el == 0 && Start(n).lambda == Start(n).b == [1] + Zeros(n)
    ensures AllIn(g, Start(n).lambda)
  {
    OneIn(g);
    assert Size(g) >= 1;
  }

  lemma RunStart(g: Field, s: seq<nat>)
    ensures Run(g, s, 0) == Start(|s|)
  {
  }

  lemma RunShape(g: Field, s: seq<nat>, r: nat)
    requires r <= |s|
    ensures AllIn(g, Run(g, s, r).lambda) && Run(g, s, r).el <= r
  {
    hide Conv, Run;
    KeyEquation(g, s, r);
  }

  // ----- Facts about the search -----

  ghost function RegisterValue(g: Gf, p: seq<nat>, j: nat, i: nat): nat
    requires j < |p|
  {
    Mul(g, p[j], Exp(g, j * i))
  }

  ghost predicate RegisterAt(g: Gf, x: nat, p: seq<nat>, j: nat, i: nat)
    requires j < |p|
  {
    x < Size(g) && FromIndex(g, x) == RegisterValue(g, p, j, i)
  }

  lemma RegisterAtFacts(g: Gf, x: nat, p: seq<nat>, j: nat, i: nat)
    requires j < |p| && RegisterAt(g, x, p, j, i)
    ensures x < Size(g) && FromIndex(g, x) == Mul(g, p[j], Exp(g, j * i))
  {
  }

  lemma RegisterAtIntro(g: Gf, x: nat, p: seq<nat>, j: nat, i: nat)
    requires j < |p| && x < Size(g) && FromIndex(g, x) == Mul(g, p[j], Exp(g, j * i))
    ensures RegisterAt(g, x, p, j, i)
  {
  }

  // What the registers hold after exponent i was tried.
  ghost predicate Registers(g: Gf, reg: seq<nat>, p: seq<nat>, deg: nat, i: nat) {
    deg < |reg| && deg < |p| && forall j :: 1 <= j <= deg ==> RegisterAt(g, reg[j], p, j, i)
  }

  lemma RegisterStep(g: Field, a: nat, j: nat, i: nat)
    requires i >= 1
    ensures Mul(g, a, Exp(g, j * i)) == Mul(g, Mul(g, a, Exp(g, j * (i - 1))), Exp(g, j))
  {
    hide Exp, Mul;
    assert j * (i - 1) + j == j * i;
    MulExp(g, j * (i - 1), j);
    MulAssoc(g, a, Exp(g, j * (i - 1)), Exp(g, j));
  }

  lemma RegisterTerm(g: Field, p: seq<nat>, j: nat, i: nat)
    requires j < |p|
    ensures EvalTerm(g, p, Exp(g, i))(j) == Mul(g, p[j], Exp(g, j * i))
  {
    hide Exp, Mul, EvalTerm;
    EvalTermAt(g, p, Exp(g, i), j);
    PowerExp(g, i, j);
    assert i * j == j * i;
  }

  lemma TakeTerm(q: nat, term: nat, rest: nat)
    ensures Xor(Xor(q, term), rest) == Xor(q, Xor(rest, term))
  {
    hide Xor;
    XorAssoc(q, term, rest);
    XorComm(term, rest);
  }

  lemma ConstantTerm(g: Field, p: seq<nat>, i: nat)
    requires |p| > 0 && p[0] == 1
    ensures Sum(EvalTerm(g, p, Exp(g, i)), 1) == 1
  {
    hide Exp, Mul, Xor, EvalTerm;
    OneIn(g);
    EvalTermAt(g, p, Exp(g, i), 0);
    MulOne(g, 1);
    XorZero(1);
    assert Sum(EvalTerm(g, p, Exp(g, i)), 1) == Xor(Sum(EvalTerm(g, p, Exp(g, i)), 0), EvalTerm(g, p, Exp(g, i))(0));
  }

  lemma XorOneCancels(q: nat, total: nat)
    requires Xor(q, 1) == Xor(1, total)
    ensures q == total
  {
    hide Xor;
    XorComm(1, total);
    XorCancel(q, 1);
    XorCancel(total, 1);
  }

  lemma InitialRegisters(g: Field, reg: seq<nat>, lambda: seq<nat>, p: seq<nat>, deg: nat)
    requires |reg| == |p| && deg < |p| && AllIn(g, p) && IndexForm(g, lambda, p)
    requires forall j :: 1 <= j < |p| ==> reg[j] == lambda[j]
    ensures Registers(g, reg, p, deg, 0)
  {
    hide Exp, Mul, FromIndex;
    forall j | 1 <= j <= deg ensures RegisterAt(g, reg[j], p, j, 0) {
      ExpOne(g);
      MulOne(g, p[j]);
    }
  }

  lemma NoRootsYet(c: Code, p: seq<nat>, most: nat)
    ensures FirstRoots(c.g, p, most, 0) == [] && LocatedAt(c, [], [])
  {
  }

  // One exponent more; a constant lambda never gets here with a root.
  lemma FirstRootsStep(g: Field, p: seq<nat>, most: nat, i: nat)
    requires i >= 1 && |p| > 0 && p[0] == 1
    requires |FirstRoots(g, p, most, i - 1)| < most || most == 0
    ensures Eval(g, p, Exp(g, i), most + 1) == 0 ==>
      most > 0 && FirstRoots(g, p, most, i) == FirstRoots(g, p, most, i - 1) + [i]
    ensures Eval(g, p, Exp(g, i), most + 1) != 0 ==> FirstRoots(g, p, most, i) == FirstRoots(g, p, most, i - 1)
  {
    hide Exp, Eval;
    if most == 0 {
      ConstantHasNoRoot(g, p, i);
    }
  }

  ghost predicate LocatedAt(c: Code, locs: seq<nat>, ks: seq<nat>) {
    |locs| == |ks| && forall l :: 0 <= l < |ks| ==>
      Nn(c) > 0 && ks[l] * c.iprim >= 1 && locs[l] == Location(c, ks[l])
  }

  lemma LocatedSnoc(c: Code, locs: seq<nat>, ks: seq<nat>, loc: nat, k: nat)
    requires LocatedAt(c, locs, ks) && Nn(c) > 0 && k * c.iprim >= 1 && loc == Location(c, k)
    ensures LocatedAt(c, locs + [loc], ks + [k])
  {
    hide Location;
  }

  lemma FirstLocation(c: Code)
    requires ValidCode(c)
    ensures 1 * c.iprim >= 1 && c.iprim - 1 == Location(c, 1)
  {
    SmallMod(c.iprim - 1, Nn(c));
  }

  lemma NextLocation(c: Code, i: nat)
    requires Nn(c) > 0 && i * c.iprim >= 1
    ensures (i + 1) * c.iprim >= 1
    ensures (Location(c, i) + c.iprim) % Nn(c) == Location(c, i + 1)
  {
    hide Location;
    NextMultiple(i, c.iprim);
    var a := LocationIs(c, i);
    var b := LocationIs(c, i + 1);
    ModAdvance(Location(c, i), Location(c, i + 1), a, b, c.iprim, Nn(c));
  }

  lemma LocationIs(c: Code, i: nat) returns (a: nat)
    requires Nn(c) > 0 && i * c.iprim >= 1
    ensures a == i * c.iprim - 1 && Location(c, i) == a % Nn(c)
  {
    a := i * c.iprim - 1;
  }

  lemma ModAdvance(x: nat, y: nat, a: nat, b: nat, p: nat, n: nat)
    requires n > 0 && x == a % n && y == b % n && b == a + p
    ensures (x + p) % n == y
  {
    ModAdd(a, p, n);
  }

  lemma NextMultiple(i: nat, p: nat)
    ensures (i + 1) * p == i * p + p
  {
  }

  lemma ModAdd(a: nat, b: nat, n: nat)
    requires n > 0
    ensures (a % n + b) % n == (a + b) % n
  {
    var q := a / n;
    assert a + b == (a % n + b) + q * n;
    ModShift(a % n + b, q, n);
  }

  lemma ConstantHasNoRoot(g: Field, p: seq<nat>, i: nat)
    requires |p| > 0 && p[0] == 1
    ensures Eval(g, p, Exp(g, i), 1) == 1
  {
    hide Exp, Mul, Xor, EvalTerm;
    ConstantTerm(g, p, i);
  }

  lemma {:induction false} FirstRootsFull(g: Gf, p: seq<nat>, most: nat, m: nat, n: nat)
    requires m <= n && |FirstRoots(g, p, most, m)| == most
    ensures FirstRoots(g, p, most, n) == FirstRoots(g, p, most, m)
  {
    hide Eval, Exp;
    if m < n {
      FirstRootsFull(g, p, most, m, n - 1);
    }
  }

  // ----- Facts about the correction loops -----

  lemma IndexMul(g: Field, a: nat, b: nat)
    requires a < Size(g) && b < Size(g)
    ensures a != Size(g) - 1 && b != Size(g) - 1 ==>
      Mul(g, FromIndex(g, b), FromIndex(g, a)) == Exp(g, a + b)
    ensures a == Size(g) - 1 || b == Size(g) - 1 ==> Mul(g, FromIndex(g, b), FromIndex(g, a)) == 0
  {
    hide Exp, Mul;
    MulZero(g, FromIndex(g, a));
    MulZero(g, FromIndex(g, b));
    if a < Size(g) - 1 && b < Size(g) - 1 {
      MulExp(g, b, a);
    }
  }

  lemma AlphaMul(g: Field, a: nat, i: nat, k: nat)
    requires a < Size(g)
    ensures Mul(g, FromIndex(g, a), Exp(g, i * k)) == if a != Size(g) - 1 then Exp(g, a + i * k) else 0
  {
    hide Exp, Mul;
    MulZero(g, Exp(g, i * k));
    if a < Size(g) - 1 {
      MulExp(g, a, i * k);
    }
  }

  lemma IndexFormIntro(g: Gf, idx: seq<nat>, p: seq<nat>)
    requires |idx| == |p| && forall k :: 0 <= k < |p| ==> idx[k] < Size(g) && FromIndex(g, idx[k]) == p[k]
    ensures IndexForm(g, idx, p)
  {
  }

  lemma DerivativeTerm(g: Field, p: seq<nat>, k: nat, t: nat)
    requires 2 * t + 1 < |p|
    ensures Derivative(g, p, Exp(g, k), t + 1)
         == Xor(Derivative(g, p, Exp(g, k), t), Mul(g, p[2 * t + 1], Exp(g, 2 * t * k)))
  {
    hide Exp, Mul, Xor, Power;
    PowerExp(g, k, 2 * t);
    assert k * (2 * t) == 2 * t * k;
  }

  lemma TopTerm(c: Code, deg: nat, top: nat)
    requires 1 <= deg <= c.nroots && top == Min(deg, c.nroots - 1)
    ensures 1 <= DerivativeTerms(c, deg) && top - top % 2 == 2 * DerivativeTerms(c, deg) - 2
    ensures 2 * DerivativeTerms(c, deg) <= c.nroots + 1
  {
  }

  lemma NoDerivative(g: Field, p: seq<nat>, x: nat)
    ensures Derivative(g, p, x, 0) == 0
  {
  }

  lemma Num2Cases(c: Code, k: nat)
    requires 1 <= k <= Nn(c)
    ensures c.fcr > 0 ==> k * (c.fcr - 1) + Nn(c) >= 0
    ensures Num2Exponent(c, k) == if c.fcr == 0 then Nn(c) - k else k * (c.fcr - 1) + Nn(c)
  {
  }

  lemma TablesSize(g: Gf, al: seq<nat>, ix: seq<nat>)
    requires Tables(g, al, ix)
    ensures |al| == |ix| == Size(g)
  {
  }

  lemma IndexFacts(g: Field, al: seq<nat>, ix: seq<nat>, a: nat)
    requires Tables(g, al, ix) && In(g, a)
    ensures ix[a] < Size(g) && (a == 0 ==> ix[a] == Size(g) - 1)
    ensures a != 0 ==> ix[a] < Size(g) - 1 && Exp(g, ix[a]) == a
  {
  }

  // The exponent arithmetic of the last step: num1*num2/den, den's index being
  // nn, and so dropping out, when den is zero.
  lemma ValueFromIndices(g: Field, a: nat, b: nat, d: nat, num1: nat, num2: nat, den: nat)
    requires a < Size(g) - 1 && b < Size(g) - 1 && d < Size(g) && In(g, den)
    requires Exp(g, a) == num1 && Exp(g, b) == num2
    requires (den == 0 ==> d == Size(g) - 1) && (den != 0 ==> d < Size(g) - 1 && Exp(g, d) == den)
    ensures Exp(g, a + b + (Size(g) - 1) - d) == Mul(g, Mul(g, num1, num2), if den == 0 then 1 else Inv(g, den))
  {
    hide Exp, Mul;
    MulExp(g, a, b);
    ExpIn(g, a + b);
    if den == 0 {
      MulOne(g, Exp(g, a + b));
    } else {
      var nn := Size(g) - 1;
      var u := Exp(g, nn - d);
      ExpIn(g, nn - d);
      MulExp(g, nn - d, d);
      ExpPeriod(g, 0, 1);
      ExpOne(g);
      InverseUnique(g, u, Inv(g, den), den);
      MulExp(g, a + b, nn - d);
    }
  }

  // Forney's formula from its three parts.
  lemma ErrorValueFrom(c: Code, p: seq<nat>, o: seq<nat>, deg: nat, k: nat, num1: nat, num2: nat, den: nat)
    requires ValidCode(c) && c.nroots > 0 && 1 <= k <= Nn(c) && 0 <= DerivativeTerms(c, deg)
    requires num1 == Eval(c.g, o, Exp(c.g, k), deg) && num2 == Exp(c.g, Num2Exponent(c, k))
    requires den == Derivative(c.g, p, Exp(c.g, k), DerivativeTerms(c, deg)) && In(c.g, den)
    ensures ErrorValue(c, p, o, deg, k)
         == Mul(c.g, Mul(c.g, num1, num2), if den == 0 then 1 else Inv(c.g, den))
  {
    hide Mul, Exp, Eval, Derivative, DerivativeTerms, Num2Exponent;
  }

  lemma ZeroNumerator(g: Field, num2: nat, den: nat)
    requires In(g, den)
    ensures Mul(g, Mul(g, 0, num2), if den == 0 then 1 else Inv(g, den)) == 0
  {
    hide Mul;
    MulZero(g, num2);
    MulZero(g, if den == 0 then 1 else Inv(g, den));
  }

  lemma NothingToFix(c: Code, b: seq<nat>, loc: nat, y: nat)
    requires |b| == Len(c) && loc < Nn(c) && (loc >= c.pad ==> y == 0)
    ensures Fix(c, b, loc, y) == b
  {
    hide Xor;
    if loc >= c.pad {
      XorZero(b[loc - c.pad]);
    }
  }

  lemma LocatedIsLocationsOf(c: Code, locs: seq<nat>, ks: seq<nat>)
    requires ValidCode(c) && RootList(c, ks) && LocatedAt(c, locs, ks)
    ensures locs == LocationsOf(c, ks)
  {
    hide Location;
  }
}
