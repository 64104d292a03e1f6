/**
  bench/crc32.c: the table-free CRC-32, held to polynomial division over GF(2) and to the
  table-driven form of section 8 of RFC 1952.
 */
module Crc32 {
  import opened Bits
  import opened Polynomials

  const POLY: word := 0xEDB8_8320
  const ALL_ONES: word := 0xFFFF_FFFF
  /** x^32 + x^26 + x^23 + x^22 + x^16 + x^12 + x^11 + x^10 + x^8 + x^7 + x^5 + x^4 + x^2 + x + 1 */
  const GENERATOR: nat := 0x1_04C1_1DB7

  type byte = x: int | 0 <= x < 256

  // ----- the code

  function WordSum(x: word, y: word): word {
    Powers();
    SumBound(x, y, 32);
    Sum(x, y)
  }

  /** One round of the inner loop. */
  function Round(crc: word): word {
    if crc % 2 != 0 then WordSum(crc / 2, POLY) else crc / 2
  }

  function Rounds(crc: word, k: nat): word {
    if k == 0 then crc else Round(Rounds(crc, k - 1))
  }

  /** The register after the first `i` bytes. */
  function Register(buf: seq<byte>, i: nat): word
    requires i <= |buf|
  {
    if i == 0 then ALL_ONES else Rounds(WordSum(Register(buf, i - 1), buf[i - 1]), 8)
  }

  function Checksum(buf: seq<byte>): word { WordSum(Register(buf, |buf|), ALL_ONES) }

  /** The xorshift step that fills the benchmark's buffer. */
  function NextSeed(seed: word): word {
    var a := WordSum(seed, Wrap(Shl(seed, 13)));
    var b := WordSum(a, Shr(a, 17));
    WordSum(b, Wrap(Shl(b, 5)))
  }

  function SeedAt(i: nat): word { if i == 0 then 0xACE1 else NextSeed(SeedAt(i - 1)) }

  function PatternByte(i: nat): byte { Shr(SeedAt(i + 1), 16) % 256 }

  /** The nested loops over a buffer that holds anything. */
  method ChecksumLoop(buf: array<byte>) returns (result: word)
    ensures result == Checksum(buf[..])
  {
    hide WordSum, Round;
    var crc := ALL_ONES;
    for i := 0 to buf.Length
      invariant crc == Register(buf[..], i)
    {
      crc := WordSum(crc, buf[i]);
      ghost var mixed := crc;
      for k := 0 to 8
        invariant crc == Rounds(mixed, k)
      {
        crc := Round(crc);
      }
    }
    result := WordSum(crc, ALL_ONES);
  }

  method Bench(buf: array<byte>) returns (result: word)
    modifies buf
    ensures forall i :: 0 <= i < buf.Length ==> buf[i] == PatternByte(i)
    ensures result == Checksum(buf[..])
  {
    hide NextSeed;
    var seed: word := 0xACE1;
    for i := 0 to buf.Length
      invariant seed == SeedAt(i)
      invariant forall j :: 0 <= j < i ==> buf[j] == PatternByte(j)
    {
      seed := NextSeed(seed);
      buf[i] := Shr(seed, 16) % 256;
    }
    result := ChecksumLoop(buf);
  }

  // ----- reflection

  /** The low `n` bits of `x` in reverse order. */
  function Reflect(x: nat, n: nat): nat {
    if n == 0 then 0 else Up(Unit(Odd(x)), n - 1) + Reflect(x / 2, n - 1)
  }

  lemma UpUnit(p: bool, n: nat)
    ensures Up(Unit(p), n) == if p then Pow2(n) else 0
  {
  }

  lemma {:induction false} ReflectBound(x: nat, n: nat)
    ensures Reflect(x, n) < Pow2(n)
    decreases n
  {
    hide Up;
    if n > 0 {
      UpUnit(Odd(x), n - 1);
      ReflectBound(x / 2, n - 1);
    }
  }

  lemma ReflectStep(x: nat, n: nat)
    requires n > 0
    ensures Reflect(x, n) == Up(Unit(Odd(x)), n - 1) + Reflect(x / 2, n - 1)
  {
  }

  /** Adding lower coefficients to a leading one. */
  lemma LeadingSum(high: nat, low: nat, n: nat)
    requires low < Pow2(n)
    ensures Sum(Up(high, n), low) == Up(high, n) + low
  {
    Disjoint(high, low, n);
  }

  lemma TopSum(p: bool, x: nat, q: bool, y: nat, n: nat)
    requires x < Pow2(n) && y < Pow2(n)
    ensures Sum(Up(Unit(p), n) + x, Up(Unit(q), n) + y) == Up(Unit(p != q), n) + Sum(x, y)
  {
    hide Sum, Up, Pow2;
    var a, b: nat := Up(Unit(p), n), Up(Unit(q), n);
    LeadingSum(Unit(p), x, n);
    LeadingSum(Unit(q), y, n);
    Interchange(a, x, b, y);
    UpSum(Unit(p), Unit(q), n);
    UnitSum(p, q);
    SumBound(x, y, n);
    LeadingSum(Unit(p != q), Sum(x, y), n);
  }

  lemma UnitSum(p: bool, q: bool)
    ensures Sum(Unit(p), Unit(q)) == Unit(p != q)
  {
    SumOfZero(0);
    SumOfZero(1);
  }

  lemma {:induction false} ReflectSum(x: nat, y: nat, n: nat)
    ensures Reflect(Sum(x, y), n) == Sum(Reflect(x, n), Reflect(y, n))
    decreases n
  {
    hide Sum, Up, Pow2, Odd;
    if n == 0 {
      SumOfZero(0);
    } else {
      HalfSum(x, y);
      ReflectSum(x / 2, y / 2, n - 1);
      ReflectBound(x / 2, n - 1);
      ReflectBound(y / 2, n - 1);
      TopSum(Odd(x), Reflect(x / 2, n - 1), Odd(y), Reflect(y / 2, n - 1), n - 1);
    }
  }

  lemma UpAdds(x: nat, y: nat, n: nat)
    ensures Up(x + y, n) == Up(x, n) + Up(y, n)
  {
  }

  lemma HalfBound(x: nat, n: nat)
    requires n > 0 && x < Pow2(n)
    ensures x / 2 < Pow2(n - 1)
  {
  }

  lemma {:induction false} ReflectZero(k: nat)
    ensures Reflect(0, k) == 0
  {
    if k > 0 {
      UpUnit(false, k - 1);
      ReflectZero(k - 1);
    }
  }

  lemma ConcatStep(high: nat, low: nat, k: nat)
    requires k > 0
    ensures (Up(high, k) + low) / 2 == Up(high, k - 1) + low / 2
    ensures Odd(Up(high, k) + low) == Odd(low)
  {
    hide Up;
    UpStep(high, k);
  }

  /** Reflecting a number in two parts. */
  lemma {:induction false} ReflectConcat(high: nat, low: nat, n: nat, k: nat)
    requires low < Pow2(k)
    ensures Reflect(Up(high, k) + low, n + k) == Up(Reflect(low, k), n) + Reflect(high, n)
    decreases k
  {
    if k == 0 {
      UpStep(high, 0);
      UpUnit(false, n);
    } else {
      HalfBound(low, k);
      hide Reflect, Pow2, Odd, Up, Unit;
      ConcatStep(high, low, k);
      ReflectConcat(high, low / 2, n, k - 1);
      ReflectStep(Up(high, k) + low, n + k);
      ReflectStep(low, k);
      UpTwice(Unit(Odd(low)), k - 1, n);
      UpAdds(Up(Unit(Odd(low)), k - 1), Reflect(low / 2, k - 1), n);
    }
  }

  /** A zero above the top bit appears below the reflected number. */
  lemma ReflectWider(x: nat, n: nat, k: nat)
    requires x < Pow2(n)
    ensures Reflect(x, n + k) == Up(Reflect(x, n), k)
  {
    hide Pow2, Up, Reflect;
    ReflectConcat(0, x, k, n);
    ReflectZero(k);
    UpUnit(false, n);
  }

  // ----- one round is multiplication by x

  /** Multiply by x and reduce: the round on unreflected registers. */
  function Shifted(r: nat): nat {
    Sum(2 * r, if r >= 0x8000_0000 then GENERATOR else 0)
  }

  lemma ReflectedNibbles()
    ensures Reflect(0xE, 4) == 0x7 && Reflect(0xD, 4) == 0xB && Reflect(0xB, 4) == 0xD && Reflect(0x8, 4) == 0x1
    ensures Reflect(0x3, 4) == 0xC && Reflect(0x2, 4) == 0x4 && Reflect(0x0, 4) == 0x0
  {
    hide Reflect;
    ReflectPair(0);
    ReflectPair(1);
    ReflectPair(2);
    ReflectPair(3);
    ReflectDouble(3, 2);
    ReflectDouble(3, 1);
    ReflectDouble(2, 3);
    ReflectDouble(2, 0);
    ReflectDouble(0, 3);
    ReflectDouble(0, 2);
    ReflectDouble(0, 0);
  }

  lemma ReflectPair(x: nat)
    requires x < 4
    ensures Reflect(x, 2) == x / 2 + 2 * (x % 2)
  {
  }

  lemma ReflectDouble(high: nat, low: nat)
    requires low < 4
    ensures Reflect(high * 4 + low, 4) == Reflect(low, 2) * 4 + Reflect(high, 2)
  {
    assert Pow2(2) == 4;
    ReflectConcat(high, low, 2, 2);
  }

  /** Appends one hexadecimal digit. */
  lemma ReflectDigit(high: nat, low: nat, n: nat)
    requires low < 16
    ensures Reflect(high * 16 + low, n + 4) == Reflect(low, 4) * Pow2(n) + Reflect(high, n)
  {
    Powers();
    ReflectConcat(high, low, n, 4);
  }

  lemma ReflectedPoly()
    ensures Reflect(POLY, 32) == 0x04C1_1DB7
  {
    hide Reflect;
    Powers();
    ReflectedNibbles();
    assert Pow2(16) == 0x1_0000 && Pow2(24) == 0x100_0000 && Pow2(28) == 0x1000_0000;
    hide Pow2;
    ReflectDigit(0xE, 0xD, 4);
    ReflectDigit(0xED, 0xB, 8);
    ReflectDigit(0xEDB, 0x8, 12);
    ReflectDigit(0xEDB8, 0x8, 16);
    ReflectDigit(0xE_DB88, 0x3, 20);
    ReflectDigit(0xED_B883, 0x2, 24);
    ReflectDigit(0xEDB_8832, 0x0, 28);
  }

  /** The reflected register, as a polynomial of degree below 32. */
  function Poly(crc: word): (r: nat)
    ensures r < WORD
  {
    Powers();
    ReflectBound(crc, 32);
    Reflect(crc, 32)
  }

  lemma HalfReflects(crc: word)
    ensures Poly(crc) == Unit(Odd(crc)) * 0x8000_0000 + Reflect(crc / 2, 31)
    ensures Reflect(crc / 2, 31) < 0x8000_0000
    ensures Poly(crc / 2) == 2 * Reflect(crc / 2, 31)
  {
    hide Reflect, Up;
    Powers();
    ReflectStep(crc, 32);
    UpUnit(Odd(crc), 31);
    ReflectBound(crc / 2, 31);
    hide Pow2;
    ReflectWider(crc / 2, 31, 1);
    UpStep(Reflect(crc / 2, 31), 1);
    UpStep(Reflect(crc / 2, 31), 0);
  }

  lemma RoundIsShift(crc: word)
    ensures Poly(Round(crc)) == Shifted(Poly(crc))
  {
    hide Reflect, Sum, Pow2;
    HalfReflects(crc);
    var low := Reflect(crc / 2, 31);
    if Odd(crc) {
      ReflectSum(crc / 2, POLY, 32);
      ReflectedPoly();
      DropTop(2 * low);
    } else {
      SumOfZero(2 * low);
    }
  }

  /** Subtracting the generator cancels the x^32 term. */
  lemma DropTop(low: nat)
    requires low < WORD
    ensures Sum(WORD + low, GENERATOR) == Sum(low, 0x04C1_1DB7)
  {
    Powers();
    UpUnit(true, 32);
    UpUnit(false, 32);
    TopSum(true, low, true, 0x04C1_1DB7, 32);
  }

  lemma ShiftIsCongruent(r: nat)
    ensures Congruent(2 * r, Shifted(r), GENERATOR)
  {
    hide Sum;
    var g := if r >= 0x8000_0000 then GENERATOR else 0;
    SumLaws(2 * r, 2 * r, g);
    SumOfZero(2 * r);
    SumOfZero(g);
    assert Sum(2 * r, Shifted(r)) == g;
    TimesSmall();
    assert g == Times(if r >= 0x8000_0000 then 1 else 0, GENERATOR);
  }

  lemma TimesSmall()
    ensures Times(0, GENERATOR) == 0 && Times(1, GENERATOR) == GENERATOR
  {
    SumOfZero(GENERATOR);
  }

  lemma {:induction false} RoundsAreCongruent(crc: word, k: nat)
    ensures Congruent(Up(Poly(crc), k), Poly(Rounds(crc, k)), GENERATOR)
  {
    hide Poly, Round, Congruent, Shifted, Up;
    UpStep(Poly(crc), k);
    if k == 0 {
      CongruentReflexive(Poly(crc), GENERATOR);
    } else {
      RoundsAreCongruent(crc, k - 1);
      var r := Poly(Rounds(crc, k - 1));
      CongruentDouble(Up(Poly(crc), k - 1), r, GENERATOR);
      RoundIsShift(Rounds(crc, k - 1));
      ShiftIsCongruent(r);
      CongruentTransitive(Up(Poly(crc), k), 2 * r, Poly(Rounds(crc, k)), GENERATOR);
    }
  }

  // ----- the whole message

  /** The message as a polynomial: first byte first, each byte's low bit first. */
  function Message(buf: seq<byte>, i: nat): nat
    requires i <= |buf|
  {
    if i == 0 then 0 else Up(Message(buf, i - 1), 8) + Reflect(buf[i - 1], 8)
  }

  /** The message times x^32, with all ones added to its first 32 coefficients. */
  function Dividend(buf: seq<byte>, i: nat): nat
    requires i <= |buf|
  {
    Sum(Up(ALL_ONES, 8 * i), Up(Message(buf, i), 32))
  }

  lemma DividendStep(buf: seq<byte>, i: nat)
    requires i < |buf|
    ensures Dividend(buf, i + 1) == Sum(Up(Dividend(buf, i), 8), Up(Reflect(buf[i], 8), 32))
  {
    hide Sum, Up, Reflect, Pow2;
    var a, m, b: nat := Up(ALL_ONES, 8 * i), Message(buf, i), Reflect(buf[i], 8);
    ReflectBound(buf[i], 8);
    LeadingSum(m, b, 8);
    UpSum(Up(m, 8), b, 32);
    UpTwice(m, 8, 32);
    UpTwice(m, 32, 8);
    UpTwice(ALL_ONES, 8 * i, 8);
    UpSum(a, Up(m, 32), 8);
    SumLaws(Up(a, 8), Up(m, 40), Up(b, 32));
  }

  /** A message byte enters the register above its low end. */
  lemma ByteEnters(crc: word, b: byte)
    ensures Up(Poly(WordSum(crc, b)), 8) == Sum(Up(Poly(crc), 8), Up(Reflect(b, 8), 32))
  {
    hide Sum, Reflect, Up;
    Powers();
    hide Pow2;
    ReflectSum(crc, b, 32);
    ReflectWider(b, 8, 24);
    UpTwice(Reflect(b, 8), 24, 8);
    UpSum(Poly(crc), Up(Reflect(b, 8), 24), 8);
  }

  lemma {:induction false} RegisterIsCongruent(buf: seq<byte>, i: nat)
    requires i <= |buf|
    ensures Congruent(Dividend(buf, i), Poly(Register(buf, i)), GENERATOR)
  {
    hide Dividend, Poly, Congruent, Rounds, WordSum, Sum, Up, Reflect;
    if i == 0 {
      StartIsCongruent(buf);
    } else {
      var before := Register(buf, i - 1);
      var byteTerm := Up(Reflect(buf[i - 1], 8), 32);
      RegisterIsCongruent(buf, i - 1);
      CongruentUp(Dividend(buf, i - 1), Poly(before), 8, GENERATOR);
      CongruentSum(Up(Dividend(buf, i - 1), 8), Up(Poly(before), 8), byteTerm, GENERATOR);
      DividendStep(buf, i - 1);
      ByteEnters(before, buf[i - 1]);
      var mixed := WordSum(before, buf[i - 1]);
      RoundsAreCongruent(mixed, 8);
      CongruentTransitive(Dividend(buf, i), Up(Poly(mixed), 8), Poly(Rounds(mixed, 8)), GENERATOR);
    }
  }

  lemma StartIsCongruent(buf: seq<byte>)
    ensures Congruent(Dividend(buf, 0), Poly(Register(buf, 0)), GENERATOR)
  {
    hide Sum, Up, Congruent;
    SumOfZero(ALL_ONES);
    UpStep(ALL_ONES, 0);
    UpUnit(false, 32);
    ReflectOnes(32);
    Powers();
    CongruentReflexive(ALL_ONES, GENERATOR);
  }

  lemma {:induction false} ReflectOnes(n: nat)
    ensures Reflect(Pow2(n) - 1, n) == Pow2(n) - 1
  {
    if n > 0 {
      ReflectOnes(n - 1);
      UpUnit(true, n - 1);
      MaskHalves(n);
    }
  }

  /**
    The CRC of every byte buffer, complemented and reflected, is the remainder of the message
    polynomial (preset with 32 ones, times x^32) divided by the CRC-32 generator, and no other
    number below 2^32 is that remainder.
   */
  lemma ChecksumIsRemainder(buf: seq<byte>, r: nat)
    ensures IsRemainder(Dividend(buf, |buf|), GENERATOR, 32, r) <==> r == Poly(WordSum(Checksum(buf), ALL_ONES))
  {
    hide Sum, Dividend, Congruent, Poly, IsRemainder;
    Powers();
    hide Pow2;
    var crc := Register(buf, |buf|);
    SumLaws(crc, ALL_ONES, ALL_ONES);
    SumOfZero(ALL_ONES);
    SumOfZero(crc);
    assert WordSum(Checksum(buf), ALL_ONES) == crc;
    RegisterIsCongruent(buf, |buf|);
    CongruentIsRemainder(Dividend(buf, |buf|), Poly(crc), GENERATOR, 32);
    if IsRemainder(Dividend(buf, |buf|), GENERATOR, 32, r) {
      RemainderIsUnique(Dividend(buf, |buf|), GENERATOR, 32, r, Poly(crc));
    }
  }

  // ----- the table-driven form

  lemma RoundIsLinear(x: word, y: word)
    ensures Round(WordSum(x, y)) == WordSum(Round(x), Round(y))
  {
    hide Sum;
    HalfSum(x, y);
    var p, q: nat := if Odd(x) then POLY else 0, if Odd(y) then POLY else 0;
    SumOfZero(x / 2);
    SumOfZero(y / 2);
    SumOfZero(0);
    SumOfZero(POLY);
    SumOfZero(Sum(x, y) / 2);
    Interchange(x / 2, p, y / 2, q);
  }

  lemma {:induction false} RoundsAreLinear(x: word, y: word, k: nat)
    ensures Rounds(WordSum(x, y), k) == WordSum(Rounds(x, k), Rounds(y, k))
  {
    hide WordSum, Round;
    if k > 0 {
      RoundsAreLinear(x, y, k - 1);
      RoundIsLinear(Rounds(x, k - 1), Rounds(y, k - 1));
    }
  }

  /** Rounds on a multiple of x^k only shift. */
  lemma {:induction false} RoundsShift(h: nat, k: nat)
    requires Up(h, k) < WORD
    ensures h < WORD && Rounds(Up(h, k), k) == h
  {
    hide Up;
    UpStep(h, k);
    if k > 0 {
      var x := Up(h, k - 1);
      assert Round(2 * x) == x;
      RoundsShift(h, k - 1);
      RoundsInside(2 * x, k - 1);
    }
  }

  lemma {:induction false} RoundsInside(c: word, k: nat)
    ensures Rounds(c, k + 1) == Rounds(Round(c), k)
  {
    hide Round;
    if k > 0 {
      RoundsInside(c, k - 1);
    }
  }

  /** Entry `n` of the 256-entry table. */
  function TableEntry(n: byte): word { Rounds(n, 8) }

  /** RFC 1952, section 8: c = crc_table[(c ^ byte) & 0xff] ^ (c >> 8). */
  function TableRegister(buf: seq<byte>, i: nat): word
    requires i <= |buf|
  {
    if i == 0 then ALL_ONES
    else
      var c := TableRegister(buf, i - 1);
      WordSum(TableEntry(WordSum(c, buf[i - 1]) % 256), c / 256)
  }

  lemma EightRounds(c: word, b: byte)
    ensures Rounds(WordSum(c, b), 8) == WordSum(TableEntry(WordSum(c, b) % 256), c / 256)
  {
    var mixed := WordSum(c, b);
    var high, low := mixed / 256, mixed % 256;
    HighByte(c, b);
    hide Sum, Rounds;
    Powers();
    assert Up(high, 8) + low == mixed;
    LeadingSum(high, low, 8);
    hide Up, Pow2;
    SumLaws(Up(high, 8), low, 0);
    RoundsAreLinear(low, Up(high, 8), 8);
    RoundsShift(high, 8);
  }

  lemma HighByte(c: word, b: byte)
    ensures WordSum(c, b) / 256 == c / 256
  {
    hide Sum;
    Powers();
    DownSum(c, b, 8);
    SumOfZero(c / 256);
  }

  /** The bitwise loop computes the CRC of the table-driven algorithm, byte by byte. */
  lemma {:induction false} TableFormAgrees(buf: seq<byte>, i: nat)
    requires i <= |buf|
    ensures TableRegister(buf, i) == Register(buf, i)
  {
    hide WordSum, Rounds, TableEntry;
    if i > 0 {
      TableFormAgrees(buf, i - 1);
      EightRounds(Register(buf, i - 1), buf[i - 1]);
    }
  }

  // ----- the pattern in the buffer

  /** `s ^= s << 13` when `left` is 13, `s ^= s >> 17` when `right` is 17: each bit with one other. */
  ghost predicate MixedLeft(s: word, t: word, left: nat) {
    forall j: nat :: j < 32 ==> (Bit(t, j) <==> Bit(s, j) != (j >= left && Bit(s, j - left)))
  }

  ghost predicate MixedRight(s: word, t: word, right: nat) {
    forall j: nat :: j < 32 ==> (Bit(t, j) <==> Bit(s, j) != Bit(s, j + right))
  }

  lemma MixesLeft(s: word, left: nat)
    ensures MixedLeft(s, WordSum(s, Wrap(Shl(s, left))), left)
  {
    hide Bit, Xor, Shl;
    Powers();
    forall j: nat | j < 32
      ensures Bit(WordSum(s, Wrap(Shl(s, left))), j) <==> Bit(s, j) != (j >= left && Bit(s, j - left))
    {
      OperatorsActOnBits(s, Wrap(Shl(s, left)), j);
      ResidueBit(Shl(s, left), 32, j);
      ShiftedBit(s, left, j);
    }
  }

  lemma ShrIsWord(s: word, right: nat)
    ensures 0 <= Shr(s, right) < WORD
  {
    QuotientIsNatural(s, Pow2(right));
    assert Shr(s, right) * Pow2(right) <= s;
    assert Shr(s, right) <= Shr(s, right) * Pow2(right) by {
      ProductGrows(Shr(s, right), Pow2(right));
    }
  }

  lemma ProductGrows(a: nat, p: int)
    requires p >= 1
    ensures a <= a * p
  {
  }

  lemma MixesRight(s: word, right: nat)
    ensures 0 <= Shr(s, right) < WORD && MixedRight(s, WordSum(s, Shr(s, right)), right)
  {
    ShrIsWord(s, right);
    hide Bit, Xor, Shr;
    forall j: nat | j < 32
      ensures Bit(WordSum(s, Shr(s, right)), j) <==> Bit(s, j) != Bit(s, j + right)
    {
      OperatorsActOnBits(s, Shr(s, right), j);
      ShiftedBit(s, right, j);
    }
  }

  /**
    The buffer holds a xorshift sequence: from the seed 0xACE1 on, each number mixes its predecessor with
    itself shifted by 13 to the left, 17 to the right and 5 to the left; byte i is the third of number i + 1.
   */
  lemma PatternIsXorshift(i: nat) returns (a: word, b: word)
    ensures SeedAt(0) == 0xACE1
    ensures MixedLeft(SeedAt(i), a, 13) && MixedRight(a, b, 17) && MixedLeft(b, SeedAt(i + 1), 5)
    ensures PatternByte(i) == SeedAt(i + 1) / 0x1_0000 % 256
  {
    hide WordSum, MixedLeft, MixedRight;
    var s := SeedAt(i);
    MixesLeft(s, 13);
    a := WordSum(s, Wrap(Shl(s, 13)));
    MixesRight(a, 17);
    b := WordSum(a, Shr(a, 17));
    MixesLeft(b, 5);
    PatternByteIs(i);
  }

  lemma PatternByteIs(i: nat)
    ensures PatternByte(i) == SeedAt(i + 1) / 0x1_0000 % 256
  {
    hide SeedAt;
    Powers();
    Pow2Add(8, 8);
  }
}
