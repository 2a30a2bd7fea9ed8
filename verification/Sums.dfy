/** Finite sums in characteristic 2, and their behaviour under the field operations. */
module Sums {
  import opened Bits
  import opened Galois

  ghost function Sum(f: nat -> nat, n: nat): nat {
    if n == 0 then 0 else Xor(Sum(f, n - 1), f(n - 1))
  }

  lemma {:induction false} SumEq(f: nat -> nat, h: nat -> nat, n: nat)
    requires forall i: nat :: i < n ==> f(i) == h(i)
    ensures Sum(f, n) == Sum(h, n)
  {
    if n > 0 {
      SumEq(f, h, n - 1);
    }
  }

  lemma {:induction false} SumZero(f: nat -> nat, n: nat)
    requires forall i: nat :: i < n ==> f(i) == 0
    ensures Sum(f, n) == 0
  {
    if n > 0 {
      SumZero(f, n - 1);
      XorZero(0);
    }
  }

  // Terms from m on that vanish do not matter.
  lemma {:induction false} SumTail(f: nat -> nat, m: nat, n: nat)
    requires m <= n
    requires forall i: nat :: m <= i < n ==> f(i) == 0
    ensures Sum(f, n) == Sum(f, m)
  {
    if m < n {
      SumTail(f, m, n - 1);
      XorZero(Sum(f, n - 1));
    }
  }

  // A sum with one term that does not vanish.
  lemma {:induction false} SumSingle(f: nat -> nat, k: nat, n: nat)
    requires k < n
    requires forall i: nat :: i < n && i != k ==> f(i) == 0
    ensures Sum(f, n) == f(k)
  {
    if k == n - 1 {
      SumZero(f, n - 1);
      XorZero(f(k));
    } else {
      SumSingle(f, k, n - 1);
      XorZero(f(k));
    }
  }

  ghost function Plus(f: nat -> nat, h: nat -> nat): nat -> nat {
    (i: nat) => Xor(f(i), h(i))
  }

  ghost function Times(g: Gf, a: nat, f: nat -> nat): nat -> nat {
    (i: nat) => Mul(g, a, f(i))
  }

  // The value of a term, for callers that hide how the terms are built.
  lemma PlusAt(f: nat -> nat, h: nat -> nat, i: nat)
    ensures Plus(f, h)(i) == Xor(f(i), h(i))
  {
  }

  lemma TimesAt(g: Gf, a: nat, f: nat -> nat, i: nat)
    ensures Times(g, a, f)(i) == Mul(g, a, f(i))
  {
  }

  lemma {:induction false} SumAdd(f: nat -> nat, h: nat -> nat, n: nat)
    ensures Sum(Plus(f, h), n) == Xor(Sum(f, n), Sum(h, n))
  {
    hide Xor, Plus;
    if n > 0 {
      SumAdd(f, h, n - 1);
      PlusAt(f, h, n - 1);
      XorSwap(Sum(f, n - 1), Sum(h, n - 1), f(n - 1), h(n - 1));
    } else {
      XorZero(0);
    }
  }

  lemma {:induction false} SumScale(g: Field, a: nat, f: nat -> nat, n: nat)
    ensures Sum(Times(g, a, f), n) == Mul(g, a, Sum(f, n))
  {
    hide Xor, Mul, Times;
    if n > 0 {
      SumScale(g, a, f, n - 1);
      TimesAt(g, a, f, n - 1);
      MulDistrib(g, a, Sum(f, n - 1), f(n - 1));
    } else {
      MulZero(g, a);
    }
  }

  lemma {:induction false} SumIn(g: Gf, f: nat -> nat, n: nat)
    requires forall i: nat :: i < n ==> In(g, f(i))
    ensures In(g, Sum(f, n))
  {
    if n > 0 {
      SumIn(g, f, n - 1);
      XorBound(Sum(f, n - 1), f(n - 1), g.mm);
    }
  }

  ghost function Rows(f: (nat, nat) -> nat, n: nat): nat -> nat {
    (i: nat) => Sum((j: nat) => f(i, j), n)
  }

  ghost function Columns(f: (nat, nat) -> nat, m: nat): nat -> nat {
    (j: nat) => Sum((i: nat) => f(i, j), m)
  }

  // Summing by rows is summing by columns.
  lemma {:induction false} SumSwap(f: (nat, nat) -> nat, m: nat, n: nat)
    ensures Sum(Rows(f, n), m) == Sum(Columns(f, m), n)
  {
    hide Xor, Plus;
    if m == 0 {
      SumZero(Columns(f, 0), n);
    } else {
      var last := (j: nat) => f(m - 1, j);
      SumSwap(f, m - 1, n);
      SumAdd(Columns(f, m - 1), last, n);
      forall j: nat | j < n ensures Plus(Columns(f, m - 1), last)(j) == Columns(f, m)(j) {
        PlusAt(Columns(f, m - 1), last, j);
      }
      SumEq(Plus(Columns(f, m - 1), last), Columns(f, m), n);
    }
  }
}
