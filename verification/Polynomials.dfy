/**
  Polynomials over GF(2), as natural numbers: bit k is the coefficient of x^k, addition is `Xor`.
 */
module Polynomials {
  import opened Bits

  lemma {:induction false} XorNonNegative(x: nat, y: nat)
    ensures Xor(x, y) >= 0
    decreases x + y
  {
    Unfold(XOR, x, y);
    if x != 0 || y != 0 {
      XorNonNegative(x / 2, y / 2);
    }
  }

  function Sum(x: nat, y: nat): nat {
    XorNonNegative(x, y);
    Xor(x, y)
  }

  /** Carry-less product. */
  function Times(q: nat, g: nat): nat {
    if q == 0 then 0 else Sum(2 * Times(q / 2, g), if Odd(q) then g else 0)
  }

  lemma SumOfZero(x: nat)
    ensures Sum(x, 0) == x == Sum(0, x) && Sum(x, x) == 0
  {
    ZeroOperand(x);
    XorSelf(x);
  }

  lemma SumLaws(x: nat, y: nat, z: nat)
    ensures Sum(x, y) == Sum(y, x)
    ensures Sum(Sum(x, y), z) == Sum(x, Sum(y, z))
  {
    XorCommutes(x, y);
    XorAssociates(x, y, z);
  }

  /** (a + b) + (c + d) == (a + c) + (b + d) */
  lemma Interchange(a: nat, b: nat, c: nat, d: nat)
    ensures Sum(Sum(a, b), Sum(c, d)) == Sum(Sum(a, c), Sum(b, d))
  {
    hide Sum;
    SumLaws(a, b, Sum(c, d));
    SumLaws(b, c, d);
    SumLaws(c, b, d);
    SumLaws(b, c, 0);
    SumLaws(a, c, Sum(b, d));
  }

  /** Multiplication by x distributes over addition. */
  lemma DoubleSum(x: nat, y: nat)
    ensures Sum(2 * x, 2 * y) == 2 * Sum(x, y)
  {
    Unfold(XOR, 2 * x, 2 * y);
  }

  /** Multiplication by x^n. */
  function Up(x: nat, n: nat): nat { x * Pow2(n) }

  lemma UpStep(x: nat, n: nat)
    ensures Up(x, 0) == x
    ensures n > 0 ==> Up(x, n) == 2 * Up(x, n - 1) == Up(2 * x, n - 1)
  {
    if n > 0 {
      DoubleProduct(x, Pow2(n - 1));
    }
  }

  lemma {:induction false} UpTwice(x: nat, m: nat, n: nat)
    ensures Up(Up(x, m), n) == Up(x, m + n)
    decreases m
  {
    hide Up;
    UpStep(x, m);
    UpStep(x, m + n);
    if m > 0 {
      UpTwice(2 * x, m - 1, n);
    }
  }

  lemma {:induction false} UpSum(x: nat, y: nat, n: nat)
    ensures Sum(Up(x, n), Up(y, n)) == Up(Sum(x, y), n)
    decreases n
  {
    hide Sum, Up;
    UpStep(x, n);
    UpStep(y, n);
    UpStep(Sum(x, y), n);
    if n > 0 {
      UpSum(x, y, n - 1);
      DoubleSum(Up(x, n - 1), Up(y, n - 1));
    }
  }

  /** Division by x^n, dropping the remainder. */
  function Down(x: nat, n: nat): nat {
    QuotientIsNatural(x, Pow2(n));
    x / Pow2(n)
  }

  lemma DownStep(x: nat, n: nat)
    ensures Down(x, 0) == x
    ensures n > 0 ==> Down(x, n) == Down(x / 2, n - 1)
  {
    if n > 0 {
      Halve(x, Pow2(n - 1));
    }
  }

  lemma {:induction false} DownSum(x: nat, y: nat, n: nat)
    ensures Down(Sum(x, y), n) == Sum(Down(x, n), Down(y, n))
    decreases n
  {
    hide Sum, Down;
    DownStep(x, n);
    DownStep(y, n);
    DownStep(Sum(x, y), n);
    if n > 0 {
      HalfSum(x, y);
      DownSum(x / 2, y / 2, n - 1);
    }
  }

  lemma HalfSum(x: nat, y: nat)
    ensures Sum(x, y) / 2 == Sum(x / 2, y / 2) && Odd(Sum(x, y)) == (Odd(x) != Odd(y))
  {
    XorParity(x, y);
  }

  lemma {:induction false} TimesDistributes(p: nat, q: nat, g: nat)
    ensures Times(Sum(p, q), g) == Sum(Times(p, g), Times(q, g))
    decreases p + q
  {
    hide Sum;
    SumOfZero(p);
    SumOfZero(q);
    SumOfZero(0);
    HalfSum(p, q);
    if p == 0 {
      SumOfZero(Times(q, g));
    } else if q == 0 {
      SumOfZero(Times(p, g));
    } else {
      TimesDistributes(p / 2, q / 2, g);
      var a, b := Times(p / 2, g), Times(q / 2, g);
      var u, v := if Odd(p) then g else 0, if Odd(q) then g else 0;
      Interchange(2 * a, u, 2 * b, v);
      DoubleSum(a, b);
      SumOfZero(g);
      TimesUnfolds(Sum(p, q), g);
    }
  }

  /** The recursion equation holds for zero too. */
  lemma TimesUnfolds(q: nat, g: nat)
    ensures Times(q, g) == Sum(2 * Times(q / 2, g), if Odd(q) then g else 0)
  {
    SumOfZero(0);
  }

  lemma TimesDouble(q: nat, g: nat)
    ensures Times(2 * q, g) == 2 * Times(q, g)
  {
    hide Sum;
    TimesUnfolds(2 * q, g);
    SumOfZero(2 * Times(q, g));
  }

  // ----- remainders

  ghost predicate Congruent(a: nat, b: nat, g: nat) {
    exists q: nat :: Sum(a, b) == Times(q, g)
  }

  lemma CongruentReflexive(a: nat, g: nat)
    ensures Congruent(a, a, g)
  {
    SumOfZero(a);
    assert Sum(a, a) == Times(0, g);
  }

  lemma CongruentTransitive(a: nat, b: nat, c: nat, g: nat)
    requires Congruent(a, b, g) && Congruent(b, c, g)
    ensures Congruent(a, c, g)
  {
    hide Sum;
    var p: nat :| Sum(a, b) == Times(p, g);
    var q: nat :| Sum(b, c) == Times(q, g);
    TimesDistributes(p, q, g);
    SumLaws(a, b, Sum(b, c));
    SumLaws(b, b, c);
    SumOfZero(b);
    SumOfZero(c);
    assert Sum(a, c) == Times(Sum(p, q), g);
  }

  lemma CongruentDouble(a: nat, b: nat, g: nat)
    requires Congruent(a, b, g)
    ensures Congruent(2 * a, 2 * b, g)
  {
    hide Sum;
    var q: nat :| Sum(a, b) == Times(q, g);
    DoubleSum(a, b);
    TimesDouble(q, g);
    assert Sum(2 * a, 2 * b) == Times(2 * q, g);
  }

  lemma {:induction false} CongruentUp(a: nat, b: nat, n: nat, g: nat)
    requires Congruent(a, b, g)
    ensures Congruent(Up(a, n), Up(b, n), g)
    decreases n
  {
    hide Congruent, Up;
    UpStep(a, n);
    UpStep(b, n);
    if n > 0 {
      CongruentUp(a, b, n - 1, g);
      CongruentDouble(Up(a, n - 1), Up(b, n - 1), g);
    }
  }

  lemma CongruentSum(a: nat, b: nat, c: nat, g: nat)
    requires Congruent(a, b, g)
    ensures Congruent(Sum(a, c), Sum(b, c), g)
  {
    hide Sum;
    var q: nat :| Sum(a, b) == Times(q, g);
    Interchange(a, c, b, c);
    SumOfZero(c);
    SumOfZero(Sum(a, b));
    assert Sum(Sum(a, c), Sum(b, c)) == Times(q, g);
  }

  /** `r` is the remainder of dividing `a` by `g`, a polynomial of degree `n`. */
  ghost predicate IsRemainder(a: nat, g: nat, n: nat, r: nat) {
    r < Pow2(n) && exists q: nat :: a == Sum(Times(q, g), r)
  }

  lemma CongruentIsRemainder(a: nat, r: nat, g: nat, n: nat)
    requires Congruent(a, r, g) && r < Pow2(n)
    ensures IsRemainder(a, g, n, r)
  {
    hide Sum;
    var q: nat :| Sum(a, r) == Times(q, g);
    SumLaws(a, r, r);
    SumOfZero(r);
    SumOfZero(a);
    assert a == Sum(Times(q, g), r);
  }

  /** Degree bookkeeping: a sum of numbers below a power of two stays below it. */
  lemma SumBound(x: nat, y: nat, n: nat)
    requires x < Pow2(n) && y < Pow2(n)
    ensures Sum(x, y) < Pow2(n)
  {
    Bounded(XOR, x, y, n);
  }

  lemma SumKeepsDegree(x: nat, y: nat, n: nat)
    requires Pow2(n) <= x && y < Pow2(n)
    ensures Sum(x, y) >= Pow2(n)
  {
    if Sum(x, y) < Pow2(n) {
      SumBound(Sum(x, y), y, n);
      SumLaws(x, y, y);
      SumOfZero(x);
      SumOfZero(y);
    }
  }

  lemma {:induction false} ProductHasDegree(q: nat, g: nat, n: nat)
    requires q > 0 && Pow2(n) <= g < 2 * Pow2(n)
    ensures Times(q, g) >= Pow2(n)
    decreases q
  {
    hide Sum;
    var h := q / 2;
    if h == 0 {
      SumOfZero(g);
      TimesUnfolds(q, g);
    } else {
      ProductHasDegree(h, g, n);
      SumKeepsDegree(2 * Times(h, g), if Odd(q) then g else 0, n + 1);
    }
  }

  /** A polynomial has only one remainder. */
  lemma RemainderIsUnique(a: nat, g: nat, n: nat, r: nat, s: nat)
    requires Pow2(n) <= g < 2 * Pow2(n)
    requires IsRemainder(a, g, n, r) && IsRemainder(a, g, n, s)
    ensures r == s
  {
    hide Sum, Times;
    var p: nat :| a == Sum(Times(p, g), r);
    var q: nat :| a == Sum(Times(q, g), s);
    TimesDistributes(p, q, g);
    Interchange(Times(p, g), r, Times(q, g), s);
    SumOfZero(a);
    assert Sum(Times(Sum(p, q), g), Sum(r, s)) == 0;
    EqualWhenSumIsZero(Times(Sum(p, q), g), Sum(r, s));
    SumBound(r, s, n);
    if Sum(p, q) > 0 {
      ProductHasDegree(Sum(p, q), g, n);
    }
    assert Times(0, g) == 0 by { TimesZero(g); }
    EqualWhenSumIsZero(r, s);
  }

  lemma TimesZero(g: nat)
    ensures Times(0, g) == 0
  {
  }

  lemma EqualWhenSumIsZero(x: nat, y: nat)
    requires Sum(x, y) == 0
    ensures x == y
  {
    SumLaws(x, y, y);
    SumOfZero(x);
    SumOfZero(y);
  }
}
