/**
  bench/rv32i_runtime.c: multiplication and division helpers for a core without the M extension.
  Operands are C `unsigned int`s; every shift and sum is reduced modulo 2^32 as the C code does.
 */
module Runtime {
  import opened Bits

  function ShiftLeft(x: word): word { Wrap(Shl(x, 1)) }

  /** `__mulsi3` */
  method Multiply(leftOperand: word, rightOperand: word) returns (result: word)
    ensures result == Wrap(leftOperand * rightOperand)
  {
    hide Bits.Bitwise, And, Shr, ShiftLeft, Wrap;
    var left: word, right: word := leftOperand, rightOperand;
    result := 0;
    while right != 0
      invariant Wrap(result + left * right) == Wrap(leftOperand * rightOperand)
    {
      LowestBit(right);
      MultiplyStep(result, left, right);
      ShiftInBit(left, 0);
      if And(right, 1) != 0 {
        result := Wrap(result + left);
      }
      left := ShiftLeft(left);
      right := Shr(right, 1);
    }
    assert Wrap(result) == result by {
      WordStays(result);
    }
  }

  lemma WordStays(x: word)
    ensures Wrap(x) == x
  {
    SmallResidue(x, WORD);
  }

  lemma LowestBit(x: word)
    ensures And(x, 1) == x % 2 && Shr(x, 1) == x / 2
  {
    hide Bits.Bitwise;
    Powers();
    Mask(x, 1);
  }

  /** The exact value of the next sum and product, the multiples of `m` lost to wrapping restored. */
  lemma ExactStep(result: int, left: int, half: int, bit: int, carried: int, lost: int, m: int)
    ensures result + left * (2 * half + bit)
         == (result + left * bit - lost * m) + (2 * left - carried * m) * half + (lost + carried * half) * m
  {
    var product := left * half;
    assert left * (2 * half + bit) == 2 * product + left * bit;
    var excess := carried * half;
    assert (2 * left - carried * m) * half == 2 * product - excess * m by {
      assert (carried * m) * half == excess * m;
      assert (2 * left) * half == 2 * product;
    }
    assert (lost + excess) * m == lost * m + excess * m;
  }

  lemma MultiplyStep(result: word, left: word, right: word)
    ensures var sum := if right % 2 != 0 then Wrap(result + left) else result;
      Wrap(sum + Wrap(2 * left) * (right / 2)) == Wrap(result + left * right)
  {
    var half, bit, carried := right / 2, right % 2, 2 * left / WORD;
    var sum := if bit != 0 then Wrap(result + left) else result;
    var lost := if bit != 0 then (result + left) / WORD else 0;
    assert sum == result + left * bit - lost * WORD;
    assert Wrap(2 * left) == 2 * left - carried * WORD;
    assert right == 2 * half + bit;
    ExactStep(result, left, half, bit, carried, lost, WORD);
    ModShift(sum + Wrap(2 * left) * half, lost + carried * half, WORD);
  }

  /** After `i` rounds: the top `i` bits of `n` are divided, `numerator` holds the rest, left-aligned. */
  ghost predicate Rounds(n: word, d: word, i: nat, numerator: word, quotient: word, value: word, rest: int)
    requires i <= 32
  {
    && value < d && quotient < Pow2(i)
    && 0 <= rest < Pow2(32 - i) && numerator == rest * Pow2(i)
    && n == (quotient * d + value) * Pow2(32 - i) + rest
  }

  lemma ProductBounds(p: int, q: int, m: int)
    requires p >= 1 && 0 <= q < p && m >= 1
    ensures 0 <= q * m <= p * m - m
  {
    assert (p - 1 - q) * m >= 0;
    assert (p - 1 - q) * m == p * m - m - q * m;
  }

  lemma DoubleOf(x: word, bit: int, low: int)
    requires 0 <= bit <= 1 && x == bit * 0x8000_0000 + low && 0 <= low < 0x8000_0000
    ensures bit == x / 0x8000_0000 && Wrap(2 * x) == 2 * low
  {
  }

  lemma SplitTop(p: int, m: int, rest: int) returns (bit: int, rest': int)
    requires p >= 1 && m >= 1 && p * m == 0x8000_0000 && 0 <= rest < 2 * p
    ensures 0 <= bit <= 1 && 0 <= rest' < p && rest == (if bit == 1 then p else 0) + rest'
    ensures rest * m == bit * 0x8000_0000 + rest' * m && 0 <= rest' * m < 0x8000_0000
  {
    if rest >= p {
      bit, rest' := 1, rest - p;
      assert rest * m == p * m + rest' * m;
    } else {
      bit, rest' := 0, rest;
    }
    ProductBounds(p, rest', m);
  }

  lemma PowerSplit(i: nat)
    requires i < 32
    ensures Pow2(31 - i) * Pow2(i) == 0x8000_0000
    ensures Pow2(32 - i) == 2 * Pow2(31 - i) && Pow2(i + 1) == 2 * Pow2(i)
  {
    Powers();
    Pow2Add(31 - i, i);
  }

  /** The next bit of the dividend comes off the top of `numerator`. */
  lemma NextBit(numerator: word, rest: int, i: nat) returns (bit: int, rest': int)
    requires i < 32 && 0 <= rest < Pow2(32 - i) && numerator == rest * Pow2(i)
    ensures 0 <= bit <= 1 && bit == numerator / 0x8000_0000
    ensures rest == bit * Pow2(31 - i) + rest' && 0 <= rest' < Pow2(31 - i)
    ensures Wrap(2 * numerator) == rest' * Pow2(i + 1)
  {
    hide Wrap, Pow2;
    PowerSplit(i);
    var p, m := Pow2(31 - i), Pow2(i);
    bit, rest' := SplitTop(p, m, rest);
    DoubleOf(numerator, bit, rest' * m);
    DoubleProduct(rest', m);
  }

  /** The 33-bit remainder 2 * value + bit fits the divisor exactly when the C test says so. */
  lemma CompareAndSubtract(value: word, d: word, bit: int)
    requires value < d && 0 <= bit <= 1
    ensures var exact := 2 * value + bit;
      var shifted := Wrap(2 * value) + bit;
      && 0 <= shifted < WORD
      && (exact >= d <==> value / 0x8000_0000 != 0 || shifted >= d)
      && (exact >= d ==> Wrap(shifted - d) == exact - d < d)
      && (exact < d ==> shifted == exact)
  {
  }

  lemma RoundStep(n: word, d: word, i: nat, numerator: word, quotient: word, value: word, rest: int,
                  bit: int, rest': int)
    requires i < 32 && Rounds(n, d, i, numerator, quotient, value, rest)
    requires 0 <= bit <= 1 && rest == bit * Pow2(31 - i) + rest' && 0 <= rest' < Pow2(31 - i)
    requires Wrap(2 * numerator) == rest' * Pow2(i + 1)
    ensures Wrap(2 * quotient) == 2 * quotient
    ensures var exact := 2 * value + bit;
      if exact >= d then Rounds(n, d, i + 1, Wrap(2 * numerator), 2 * quotient + 1, exact - d, rest')
      else Rounds(n, d, i + 1, Wrap(2 * numerator), 2 * quotient, exact, rest')
  {
    hide Wrap, Pow2;
    QuotientFits(quotient, i);
    PowerSplit(i);
    ShiftIn(quotient, d, value, bit, Pow2(31 - i));
  }

  lemma QuotientFits(quotient: word, i: nat)
    requires i < 32 && quotient < Pow2(i)
    ensures Wrap(2 * quotient) == 2 * quotient
  {
    hide Pow2;
    Powers();
    Pow2Monotone(i, 31);
    SmallResidue(2 * quotient, WORD);
  }

  lemma ShiftIn(quotient: int, d: int, value: int, bit: int, p: int)
    ensures var whole, exact := quotient * d + value, 2 * value + bit;
      whole * (2 * p) + bit * p == ((2 * quotient) * d + exact) * p == ((2 * quotient + 1) * d + (exact - d)) * p
  {
    var product, exact := quotient * d, 2 * value + bit;
    assert (2 * quotient) * d == 2 * product && (2 * quotient + 1) * d == 2 * product + d by {
      Doubled(quotient, d);
    }
    Distributes(product + value, bit, p);
  }

  lemma Doubled(q: int, d: int)
    ensures (2 * q) * d == 2 * (q * d) && (2 * q + 1) * d == 2 * (q * d) + d
  {
  }

  lemma Distributes(whole: int, bit: int, p: int)
    ensures whole * (2 * p) + bit * p == (2 * whole + bit) * p
  {
  }

  lemma ShiftInBit(x: word, bit: int)
    requires 0 <= bit <= 1
    ensures ShiftLeft(x) == Wrap(2 * x) <= WORD - 2
    ensures Or(ShiftLeft(x), bit) == Wrap(2 * x) + bit
  {
    hide Bits.Bitwise;
    Powers();
    Disjoint(Wrap(2 * x) / 2, bit, 1);
  }

  lemma ShiftOut(x: word)
    ensures Shr(x, 31) == x / 0x8000_0000
  {
    Powers();
  }

  /** `divide_unsigned`: restoring division; the C out-parameter is the second result. */
  method DivideUnsigned(n: word, denominator: word) returns (quotient: word, remainder: word)
    ensures denominator == 0 ==> quotient == WORD - 1 && remainder == n
    ensures denominator != 0 ==> n == quotient * denominator + remainder && remainder < denominator
  {
    hide Bits.Bitwise;
    if denominator == 0 {
      return WORD - 1, n;
    }
    Powers();
    quotient := 0;
    var numerator := n;
    var value: word := 0;
    ghost var rest: int := n;
    for index := 0 to 32
      invariant Rounds(n, denominator, index, numerator, quotient, value, rest)
    {
      hide Rounds, ShiftLeft, Or, Shr, Pow2, Wrap;
      ghost var bit, rest' := NextBit(numerator, rest, index);
      CompareAndSubtract(value, denominator, bit);
      RoundStep(n, denominator, index, numerator, quotient, value, rest, bit, rest');
      ShiftInBit(value, bit);
      ShiftInBit(quotient, 1);
      ShiftOut(value);
      ShiftOut(numerator);
      ShiftInBit(numerator, 0);

      var carry := Shr(value, 31);
      value := Or(ShiftLeft(value), Shr(numerator, 31));
      numerator := ShiftLeft(numerator);
      quotient := ShiftLeft(quotient);
      if carry != 0 || value >= denominator {
        value := Wrap(value - denominator);
        quotient := Or(quotient, 1);
      }
      rest := rest';
    }
    remainder := value;
  }

  /** `__udivsi3` */
  method UnsignedDivide(n: word, d: word) returns (q: word)
    ensures d != 0 ==> q == n / d
    ensures d == 0 ==> q == WORD - 1
  {
    var r;
    q, r := DivideUnsigned(n, d);
    if d != 0 {
      DivModUnique(n, d, q, r);
    }
  }

  /** `__umodsi3` */
  method UnsignedRemainder(n: word, d: word) returns (r: word)
    ensures d != 0 ==> r == n % d
    ensures d == 0 ==> r == n
  {
    var q;
    q, r := DivideUnsigned(n, d);
    if d != 0 {
      DivModUnique(n, d, q, r);
    }
  }

  // ----- signed operands

  const INT_MIN := -0x8000_0000

  type sword = x: int | -0x8000_0000 <= x < 0x8000_0000

  function Absolute(x: int): nat { if x < 0 then -x else x }

  /** Division rounding toward zero. */
  function TruncatedQuotient(n: int, d: int): int
    requires d != 0
  {
    var magnitude := Absolute(n) / Absolute(d);
    if (n < 0) != (d < 0) then -magnitude else magnitude
  }

  function TruncatedRemainder(n: int, d: int): int
    requires d != 0
  {
    var magnitude := Absolute(n) % Absolute(d);
    if n < 0 then -magnitude else magnitude
  }

  /** The division law of C99 and of RISC-V's DIV and REM, which determines both results. */
  ghost predicate TruncatingDivision(n: int, d: int, q: int, r: int) {
    n == q * d + r && Absolute(r) < Absolute(d) && (r == 0 || (r < 0 <==> n < 0))
  }

  lemma SignedProduct(m: int, d: int)
    ensures m * Absolute(d) == if d < 0 then -(m * d) else m * d
    ensures (-m) * d == -(m * d)
  {
  }

  lemma SignedIdentity(n: int, d: int, m: int, k: int)
    requires d != 0 && 0 <= k < Absolute(d) && Absolute(n) == m * Absolute(d) + k
    ensures TruncatingDivision(n, d, if (n < 0) != (d < 0) then -m else m, if n < 0 then -k else k)
  {
    SignedProduct(m, d);
  }

  lemma TruncationHolds(n: int, d: int)
    requires d != 0
    ensures TruncatingDivision(n, d, TruncatedQuotient(n, d), TruncatedRemainder(n, d))
  {
    hide TruncatingDivision;
    SignedIdentity(n, d, Absolute(n) / Absolute(d), Absolute(n) % Absolute(d));
  }

  lemma TruncationIsUnique(n: int, d: int, q: int, r: int)
    requires d != 0 && TruncatingDivision(n, d, q, r)
    ensures q == TruncatedQuotient(n, d) && r == TruncatedRemainder(n, d)
  {
    var a, b := Absolute(n), Absolute(d);
    var q' := if (n < 0) != (d < 0) then -q else q;
    var r' := if n < 0 then -r else r;
    SignedProduct(q, d);
    SignedProduct(-q, d);
    assert a == q' * b + r';
    DivModUnique(a, b, q', r');
  }

  lemma TruncationLaw(n: int, d: int, q: int, r: int)
    requires d != 0
    ensures TruncatingDivision(n, d, q, r) <==> q == TruncatedQuotient(n, d) && r == TruncatedRemainder(n, d)
  {
    hide TruncatingDivision, TruncatedQuotient, TruncatedRemainder;
    TruncationHolds(n, d);
    if TruncatingDivision(n, d, q, r) {
      TruncationIsUnique(n, d, q, r);
    }
  }

  function Cast(x: int): sword { Signed(Wrap(x)) }

  function MagnitudeOf(x: sword): word { if x < 0 then Wrap(0 - Wrap(x)) else Wrap(x) }

  /** DIV of the M extension: -1 for a zero divisor, INT_MIN for the one quotient that does not fit. */
  function IsaQuotient(n: sword, d: sword): sword {
    QuotientRange(n, d);
    if d == 0 then -1 else if n == INT_MIN && d == -1 then INT_MIN else TruncatedQuotient(n, d)
  }

  /** REM of the M extension: the dividend for a zero divisor, 0 on overflow. */
  function IsaRemainder(n: sword, d: sword): sword {
    if d == 0 then n
    else
      RemainderIsSmaller(n, d);
      if n == INT_MIN && d == -1 then 0 else TruncatedRemainder(n, d)
  }

  lemma OverflowLeavesNothing(n: sword, d: sword)
    requires n == INT_MIN && d == -1
    ensures TruncatedRemainder(n, d) == 0
  {
    DivModUnique(0x8000_0000, 1, 0x8000_0000, 0);
  }

  /** `__divsi3` */
  method SignedDivide(n: sword, d: sword) returns (q: sword)
    ensures d != 0 ==> q == Cast(TruncatedQuotient(n, d))
    ensures d == 0 ==> q == if n < 0 then 1 else -1
    ensures q == IsaQuotient(n, d) <==> !(d == 0 && n < 0)
  {
    if d != 0 {
      OnlyOneQuotientOverflows(n, d);
    }
    var left, right := MagnitudeOf(n), MagnitudeOf(d);
    MagnitudeIsAbsolute(n);
    MagnitudeIsAbsolute(d);
    hide MagnitudeOf, Wrap, Signed;
    var unsigned, remainder := DivideUnsigned(left, right);
    var quotient: int := unsigned;
    if d != 0 {
      DivModUnique(left, right, quotient, remainder);
    } else {
      CastOfAllOnes();
    }
    q := if (n < 0) != (d < 0) then Cast(0 - quotient) else Cast(quotient);
  }

  lemma MagnitudeIsAbsolute(x: sword)
    ensures MagnitudeOf(x) == Absolute(x)
  {
    var exact: int := x;
    if exact < 0 {
      DivModUnique(exact, WORD, -1, exact + WORD);
      DivModUnique(0 - (exact + WORD), WORD, -1, -exact);
    } else {
      SmallResidue(exact, WORD);
    }
  }

  lemma CastOfAllOnes()
    ensures Cast(WORD - 1) == -1 && Cast(0 - (WORD - 1)) == 1
  {
  }

  lemma CastMagnitude(x: int)
    requires 0 <= x <= 0x8000_0000
    ensures Cast(0 - x) == -x
    ensures x < 0x8000_0000 ==> Cast(x) == x
  {
  }

  /** `__modsi3` */
  method SignedRemainder(n: sword, d: sword) returns (r: sword)
    ensures d != 0 ==> r == TruncatedRemainder(n, d)
    ensures d == 0 ==> r == n
    ensures r == IsaRemainder(n, d)
  {
    if n == INT_MIN && d == -1 {
      OverflowLeavesNothing(n, d);
    }
    var left, right := MagnitudeOf(n), MagnitudeOf(d);
    MagnitudeIsAbsolute(n);
    MagnitudeIsAbsolute(d);
    hide MagnitudeOf, Wrap, Signed, Cast;
    var _, unsigned := DivideUnsigned(left, right);
    var remainder: int := unsigned;
    if d != 0 {
      RemainderIs(left, right, unsigned);
      RemainderIsSmaller(n, d);
    }
    CastMagnitude(remainder);
    r := if n < 0 then Cast(0 - remainder) else Cast(remainder);
  }

  lemma RemainderIs(n: word, d: word, r: word)
    requires d != 0 && r < d && exists q: word :: n == q * d + r
    ensures r == n % d
  {
    var q: word :| n == q * d + r;
    DivModUnique(n, d, q, r);
  }

  lemma RemainderIsSmaller(n: sword, d: sword)
    requires d != 0
    ensures 0 <= Absolute(n) % Absolute(d) <= Absolute(n) && Absolute(n) % Absolute(d) < Absolute(d) <= 0x8000_0000
  {
    var a, b := Absolute(n), Absolute(d);
    if a < b {
      DivModUnique(a, b, 0, a);
    }
  }

  lemma CastIsExact(x: int)
    requires -0x8000_0000 <= x <= 0x8000_0000
    ensures Cast(x) == x <==> x < 0x8000_0000
    ensures Cast(0x8000_0000) == INT_MIN
  {
  }

  lemma QuotientRange(n: sword, d: sword)
    ensures d != 0 ==> -0x8000_0000 <= TruncatedQuotient(n, d) <= 0x8000_0000
    ensures d != 0 ==> (TruncatedQuotient(n, d) == 0x8000_0000 <==> n == INT_MIN && d == -1)
  {
    if d == 0 {
      return;
    }
    var a, b := Absolute(n), Absolute(d);
    if b == 1 {
      DivModUnique(a, 1, a, 0);
    } else {
      QuotientHalves(a, b);
    }
  }

  /** The quotient is exact for every pair but one, where it wraps to INT_MIN. */
  lemma OnlyOneQuotientOverflows(n: sword, d: sword)
    requires d != 0
    ensures Cast(TruncatedQuotient(n, d)) == TruncatedQuotient(n, d) <==> !(n == INT_MIN && d == -1)
    ensures Cast(TruncatedQuotient(INT_MIN, -1)) == INT_MIN
  {
    hide TruncatedQuotient, Cast;
    QuotientRange(n, d);
    QuotientRange(INT_MIN, -1);
    CastIsExact(TruncatedQuotient(n, d));
  }

  lemma ProductDoubles(q: nat, b: nat)
    requires b >= 2
    ensures q * b >= 2 * q
  {
    assert q * b == q * 2 + q * (b - 2);
  }

  lemma QuotientHalves(a: nat, b: nat)
    requires b >= 2
    ensures a / b <= a / 2
  {
    ProductDoubles(a / b, b);
  }

  /**
    The two signed helpers fit together: n = q * d + r modulo 2^32, and exactly over the integers
    except for INT_MIN / -1.
   */
  method SignedDivisionIdentity(n: sword, d: sword) returns (q: sword, r: sword)
    requires d != 0
    ensures Wrap(q * d + r) == Wrap(n)
    ensures n == q * d + r <==> !(n == INT_MIN && d == -1)
  {
    q := SignedDivide(n, d);
    r := SignedRemainder(n, d);
    OnlyOneQuotientOverflows(n, d);
    TruncationLaw(n, d, TruncatedQuotient(n, d), TruncatedRemainder(n, d));
  }
}
