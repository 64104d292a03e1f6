/**
  Bit operators on unbounded integers.

  Python integers are infinitely wide two's complement numbers: `>>` floors, `&`, `|` and `^`
  act on every bit, and a negative operand has infinitely many leading ones.  C's `unsigned int`
  is the same arithmetic followed by a reduction modulo 2^32.  Both are modelled here on `int`;
  Dafny's `/` and `%` floor for a positive divisor, so `x / 2` and `x % 2` are the shifted
  number and its lowest bit for negative `x` too.
 */
module Bits {

  const WORD := 0x1_0000_0000

  type word = x: int | 0 <= x < WORD

  function Pow2(n: nat): (p: int)
    ensures p >= 1
  {
    if n == 0 then 1 else 2 * Pow2(n - 1)
  }

  function Shl(x: int, n: nat): int { x * Pow2(n) }

  function Shr(x: int, n: nat): int { x / Pow2(n) }

  /** Bit `k` of the two's complement expansion of `x`. */
  predicate Bit(x: int, k: nat) { Shr(x, k) % 2 == 1 }

  datatype Gate = AND | OR | XOR

  predicate Fire(g: Gate, p: bool, q: bool) {
    match g
    case AND => p && q
    case OR => p || q
    case XOR => p != q
  }

  function Magnitude(x: int): nat { if x < 0 then -x else x }

  function Unit(b: bool): int { if b then 1 else 0 }

  predicate Odd(x: int) { x % 2 == 1 }

  /** Python's `x & y`, `x | y` and `x ^ y`. */
  function Bitwise(g: Gate, x: int, y: int): int
    decreases Magnitude(x) + Magnitude(y)
  {
    if -1 <= x <= 0 && -1 <= y <= 0 then
      -Unit(Fire(g, x == -1, y == -1))
    else
      2 * Bitwise(g, x / 2, y / 2) + Unit(Fire(g, Odd(x), Odd(y)))
  }

  function And(x: int, y: int): int { Bitwise(AND, x, y) }

  function Or(x: int, y: int): int { Bitwise(OR, x, y) }

  function Xor(x: int, y: int): int { Bitwise(XOR, x, y) }

  /** The two's complement reading of a 32-bit word. */
  function Signed(x: word): int { if x >= 0x8000_0000 then x - WORD else x }

  function Wrap(x: int): word { x % WORD }

  // ----- division and powers of two

  lemma ScaleGrows(d: int, m: int)
    requires m > 0 && d != 0
    ensures d * m >= m || d * m <= -m
  {
  }

  lemma DivModUnique(x: int, m: int, q: int, r: int)
    requires m > 0 && x == q * m + r && 0 <= r < m
    ensures x / m == q && x % m == r
  {
    var d := x / m - q;
    assert x == (x / m) * m + x % m;
    assert d * m == r - x % m;
    if d != 0 {
      ScaleGrows(d, m);
    }
  }

  lemma NegativeProduct(q: int, m: int)
    requires m > 0
    ensures q < 0 ==> q * m <= -m
  {
    if q < 0 {
      ScaleGrows(q, m);
    }
  }

  lemma QuotientIsNatural(x: int, m: int)
    requires x >= 0 && m > 0
    ensures x / m >= 0
  {
    var q := x / m;
    assert x == q * m + x % m;
    NegativeProduct(q, m);
  }

  lemma Halve(x: int, m: int)
    requires m > 0
    ensures x / (2 * m) == (x / 2) / m
    ensures x % (2 * m) == 2 * ((x / 2) % m) + x % 2
  {
    var q, r := (x / 2) / m, (x / 2) % m;
    assert x / 2 == q * m + r;
    assert x == q * (2 * m) + (2 * r + x % 2) by {
      assert x == 2 * (q * m + r) + x % 2;
      assert 2 * (q * m) == q * (2 * m);
    }
    DivModUnique(x, 2 * m, q, 2 * r + x % 2);
  }

  lemma DoubleFactor(x: int, y: int)
    ensures (2 * x) * y == 2 * (x * y)
  {
  }

  lemma {:induction false} Pow2Add(m: nat, n: nat)
    ensures Pow2(m + n) == Pow2(m) * Pow2(n)
  {
    if m > 0 {
      Pow2Add(m - 1, n);
      assert Pow2(m) == 2 * Pow2(m - 1) && Pow2(m + n) == 2 * Pow2(m - 1 + n);
      hide Pow2;
      DoubleFactor(Pow2(m - 1), Pow2(n));
    }
  }

  lemma {:induction false} Pow2Monotone(i: nat, j: nat)
    requires i <= j
    ensures Pow2(i) <= Pow2(j)
    decreases j - i
  {
    if i < j {
      Pow2Monotone(i, j - 1);
    }
  }

  lemma Powers()
    ensures Pow2(0) == 1 && Pow2(1) == 2 && Pow2(4) == 0x10 && Pow2(5) == 0x20 && Pow2(6) == 0x40
    ensures Pow2(7) == 0x80 && Pow2(8) == 0x100 && Pow2(10) == 0x400 && Pow2(11) == 0x800 && Pow2(12) == 0x1000
    ensures Pow2(13) == 0x2000 && Pow2(15) == 0x8000 && Pow2(20) == 0x10_0000 && Pow2(21) == 0x20_0000
    ensures Pow2(25) == 0x200_0000 && Pow2(31) == 0x8000_0000 && Pow2(32) == WORD
  {
  }

  /** Adding a multiple of `m` does not change the residue. */
  lemma ModShift(x: int, k: int, m: int)
    requires m > 0
    ensures (x + k * m) % m == x % m
    ensures (x + k * m) / m == x / m + k
  {
    assert x + k * m == (x / m + k) * m + x % m by {
      assert (x / m + k) * m == (x / m) * m + k * m;
    }
    DivModUnique(x + k * m, m, x / m + k, x % m);
  }

  // ----- bitwise operators

  lemma Unfold(g: Gate, x: int, y: int)
    ensures Bitwise(g, x, y) == 2 * Bitwise(g, x / 2, y / 2) + Unit(Fire(g, Odd(x), Odd(y)))
  {
  }

  lemma BitStep(x: int, k: nat)
    ensures Bit(x, 0) == Odd(x)
    ensures k > 0 ==> Bit(x, k) == Bit(x / 2, k - 1)
  {
    if k > 0 {
      Halve(x, Pow2(k - 1));
    }
  }

  lemma HalfOfResult(g: Gate, x: int, y: int)
    ensures Bitwise(g, x, y) / 2 == Bitwise(g, x / 2, y / 2)
    ensures Odd(Bitwise(g, x, y)) == Fire(g, Odd(x), Odd(y))
  {
    Unfold(g, x, y);
  }

  /** Bitwise operators really act bit by bit. */
  lemma {:induction false} BitwiseBit(g: Gate, x: int, y: int, k: nat)
    ensures Bit(Bitwise(g, x, y), k) == Fire(g, Bit(x, k), Bit(y, k))
    decreases k
  {
    hide Bitwise, Bit, Fire;
    HalfOfResult(g, x, y);
    BitStep(x, k);
    BitStep(y, k);
    BitStep(Bitwise(g, x, y), k);
    if k > 0 {
      BitwiseBit(g, x / 2, y / 2, k - 1);
    }
  }

  /** The three operators, bit by bit. */
  lemma OperatorsActOnBits(x: int, y: int, k: nat)
    ensures Bit(And(x, y), k) <==> Bit(x, k) && Bit(y, k)
    ensures Bit(Or(x, y), k) <==> Bit(x, k) || Bit(y, k)
    ensures Bit(Xor(x, y), k) <==> Bit(x, k) != Bit(y, k)
  {
    hide Bitwise, Bit;
    BitwiseBit(AND, x, y, k);
    BitwiseBit(OR, x, y, k);
    BitwiseBit(XOR, x, y, k);
  }

  lemma {:induction false} ShiftedBit(x: int, n: nat, k: nat)
    ensures Bit(Shl(x, n), k) <==> k >= n && Bit(x, k - n)
    ensures Bit(Shr(x, n), k) <==> Bit(x, k + n)
    decreases n
  {
    hide Bit, Shl, Shr;
    if n == 0 {
      ShiftByZero(x);
    } else {
      ShlStep(x, n);
      BitStep(Shl(x, n), k);
      BitStep(x, k + n);
      ShiftedBit(x / 2, n - 1, k);
      if k > 0 {
        ShiftedBit(x, n - 1, k - 1);
      }
    }
  }

  /** Truncation keeps the low bits. */
  lemma {:induction false} ResidueBit(x: int, n: nat, k: nat)
    requires k < n
    ensures Bit(x % Pow2(n), k) <==> Bit(x, k)
    decreases n
  {
    hide Bit;
    BitStep(x % Pow2(n), k);
    BitStep(x, k);
    HalfResidue(x, Pow2(n - 1));
    if k > 0 {
      ResidueBit(x / 2, n - 1, k - 1);
    }
  }

  lemma DoubleProduct(x: int, m: int)
    ensures x * (2 * m) == 2 * (x * m)
  {
  }

  lemma HalfResidue(x: int, m: int)
    requires m > 0
    ensures (x % (2 * m)) / 2 == (x / 2) % m
    ensures Odd(x % (2 * m)) == Odd(x)
  {
    Halve(x, m);
  }

  lemma CombineHalves(w: int, w': int, u: int, m: int)
    requires m > 0 && 0 <= u < 2 && w % m == w' % m
    ensures (2 * w + u) % (2 * m) == (2 * w' + u) % (2 * m)
  {
    var x, x' := 2 * w + u, 2 * w' + u;
    assert x / 2 == w && x % 2 == u && x' / 2 == w' && x' % 2 == u;
    Halve(x, m);
    Halve(x', m);
  }

  /** The low `n` bits of a result depend on the low `n` bits of the operands only. */
  lemma {:induction false} LowBits(g: Gate, x: int, y: int, n: nat)
    ensures Bitwise(g, x, y) % Pow2(n) == Bitwise(g, x % Pow2(n), y % Pow2(n)) % Pow2(n)
    decreases n
  {
    if n > 0 {
      var m := Pow2(n - 1);
      var x', y' := x % Pow2(n), y % Pow2(n);
      Unfold(g, x, y);
      Unfold(g, x', y');
      HalfResidue(x, m);
      HalfResidue(y, m);
      LowBits(g, x / 2, y / 2, n - 1);
      CombineHalves(Bitwise(g, x / 2, y / 2), Bitwise(g, x' / 2, y' / 2), Unit(Fire(g, Odd(x), Odd(y))), m);
    }
  }

  /** A truncated result is the result on truncated operands. */
  lemma LowWord(g: Gate, x: int, y: int)
    ensures Wrap(Bitwise(g, x, y)) == Bitwise(g, Wrap(x), Wrap(y))
  {
    hide Bitwise;
    Powers();
    LowBits(g, x, y, 32);
    Bounded(g, Wrap(x), Wrap(y), 32);
    SmallResidue(Bitwise(g, Wrap(x), Wrap(y)), WORD);
  }

  lemma SmallResidue(x: int, m: int)
    requires 0 <= x < m
    ensures x % m == x && x / m == 0
  {
    DivModUnique(x, m, 0, x);
  }

  lemma {:induction false} Bounded(g: Gate, x: int, y: int, n: nat)
    requires 0 <= x < Pow2(n) && 0 <= y < Pow2(n)
    ensures 0 <= Bitwise(g, x, y) < Pow2(n)
  {
    if n > 0 {
      Bounded(g, x / 2, y / 2, n - 1);
    }
  }

  lemma MaskHalves(n: nat)
    requires n > 0
    ensures (Pow2(n) - 1) / 2 == Pow2(n - 1) - 1 && Odd(Pow2(n) - 1)
  {
  }

  /** `x & (2^n - 1)` is the residue of `x` modulo 2^n. */
  lemma {:induction false} Mask(x: int, n: nat)
    ensures And(x, Pow2(n) - 1) == x % Pow2(n)
    decreases n
  {
    if n == 0 {
      ZeroOperand(x);
    } else {
      HalfOfResult(AND, x, Pow2(n) - 1);
      Halve(x, Pow2(n - 1));
      MaskHalves(n);
      hide Bitwise;
      Mask(x / 2, n - 1);
    }
  }

  lemma {:induction false} ZeroOperand(x: int)
    ensures And(x, 0) == 0 == And(0, x)
    ensures Or(x, 0) == x == Or(0, x)
    ensures Xor(x, 0) == x == Xor(0, x)
    decreases Magnitude(x)
  {
    if !(-1 <= x <= 0) {
      ZeroOperand(x / 2);
    }
  }

  lemma ShlStep(x: int, n: nat)
    requires n > 0
    ensures Shl(x, n) == 2 * Shl(x, n - 1)
    ensures Shl(x, n) / 2 == Shl(x, n - 1) && !Odd(Shl(x, n))
    ensures Shr(x, n) == Shr(x / 2, n - 1)
  {
    assert x * (2 * Pow2(n - 1)) == 2 * (x * Pow2(n - 1));
    Halve(x, Pow2(n - 1));
  }

  /** Masking with a shifted mask. */
  lemma {:induction false} AndShifted(x: int, y: int, n: nat)
    ensures And(x, Shl(y, n)) == Shl(And(Shr(x, n), y), n)
    decreases n
  {
    hide Bitwise, Shl, Shr, Pow2;
    if n == 0 {
      ShiftByZero(x);
      ShiftByZero(y);
      ShiftByZero(And(x, y));
    } else {
      ShlStep(x, n);
      ShlStep(y, n);
      ShlStep(And(Shr(x, n), y), n);
      Unfold(AND, x, Shl(y, n));
      AndShifted(x / 2, y, n - 1);
    }
  }

  lemma ShiftByZero(x: int)
    ensures Shl(x, 0) == x == Shr(x, 0)
  {
  }

  /** `|` of operands that share no bit is their sum. */
  lemma {:induction false} Disjoint(hi: int, lo: int, n: nat)
    requires 0 <= lo < Pow2(n)
    ensures Or(Shl(hi, n), lo) == Shl(hi, n) + lo
    ensures Or(lo, Shl(hi, n)) == Shl(hi, n) + lo
    ensures Xor(Shl(hi, n), lo) == Shl(hi, n) + lo
  {
    if n == 0 {
      ZeroOperand(hi);
    } else {
      var x := Shl(hi, n);
      assert x == 2 * Shl(hi, n - 1) by {
        assert hi * (2 * Pow2(n - 1)) == 2 * (hi * Pow2(n - 1));
      }
      Unfold(OR, x, lo);
      Unfold(OR, lo, x);
      Unfold(XOR, x, lo);
      Disjoint(hi, lo / 2, n - 1);
    }
  }

  lemma {:induction false} XorCommutes(x: int, y: int)
    ensures Xor(x, y) == Xor(y, x)
    decreases Magnitude(x) + Magnitude(y)
  {
    if !(-1 <= x <= 0 && -1 <= y <= 0) {
      XorCommutes(x / 2, y / 2);
    }
  }

  lemma XorParity(x: int, y: int)
    ensures Xor(x, y) / 2 == Xor(x / 2, y / 2)
    ensures Odd(Xor(x, y)) == (Odd(x) != Odd(y))
  {
    Unfold(XOR, x, y);
  }

  lemma XorAssociatesOnSigns(x: int, y: int, z: int)
    requires -1 <= x <= 0 && -1 <= y <= 0 && -1 <= z <= 0
    ensures Xor(Xor(x, y), z) == Xor(x, Xor(y, z))
  {
    assert Xor(0, 0) == 0 && Xor(-1, -1) == 0 && Xor(0, -1) == -1 && Xor(-1, 0) == -1;
  }

  lemma HalfShrinks(x: int)
    ensures Magnitude(x / 2) <= Magnitude(x)
    ensures !(-1 <= x <= 0) ==> Magnitude(x / 2) < Magnitude(x)
  {
  }

  lemma {:induction false} XorAssociates(x: int, y: int, z: int)
    ensures Xor(Xor(x, y), z) == Xor(x, Xor(y, z))
    decreases Magnitude(x) + Magnitude(y) + Magnitude(z)
  {
    hide Bitwise, Xor, Magnitude;
    HalfShrinks(x);
    HalfShrinks(y);
    HalfShrinks(z);
    if -1 <= x <= 0 && -1 <= y <= 0 && -1 <= z <= 0 {
      XorAssociatesOnSigns(x, y, z);
    } else {
      XorParity(x, y);
      XorParity(y, z);
      XorParity(Xor(x, y), z);
      XorParity(x, Xor(y, z));
      XorAssociates(x / 2, y / 2, z / 2);
    }
  }

  lemma {:induction false} XorSelf(x: int)
    ensures Xor(x, x) == 0
    decreases Magnitude(x)
  {
    if !(-1 <= x <= 0) {
      XorSelf(x / 2);
    }
  }
}
