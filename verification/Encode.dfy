/**
  The instruction encoders shared by tools/asm.py and tools/rand_gen.py, written with the same
  shifts, masks and ors, and the proof that the ISA decodes each word back to its fields.
 */
module Encode {
  import opened Options
  import opened Bits
  import opened Rv32i

  function RType(rd: int, rs1: int, rs2: int, f3: int, f7: int): int {
    Or(Or(Or(Or(Or(Shl(f7, 25), Shl(rs2, 20)), Shl(rs1, 15)), Shl(f3, 12)), Shl(rd, 7)), 0x33)
  }

  function IType(rd: int, rs1: int, imm12: int, f3: int, op: int): int {
    Or(Or(Or(Or(Shl(And(imm12, 0xFFF), 20), Shl(rs1, 15)), Shl(f3, 12)), Shl(rd, 7)), op)
  }

  function SType(rs1: int, rs2: int, imm12: int, f3: int): int {
    var i := And(imm12, 0xFFF);
    Or(Or(Or(Or(Or(Shl(Shr(i, 5), 25), Shl(rs2, 20)), Shl(rs1, 15)), Shl(f3, 12)), Shl(And(i, 0x1F), 7)), 0x23)
  }

  function BType(rs1: int, rs2: int, off: int, f3: int): int {
    var o := And(off, 0x1FFF);
    Or(Or(Or(Or(Or(Or(Or(
      Shl(And(Shr(o, 12), 1), 31), Shl(And(Shr(o, 5), 0x3F), 25)), Shl(rs2, 20)), Shl(rs1, 15)), Shl(f3, 12)),
      Shl(And(Shr(o, 1), 0xF), 8)), Shl(And(Shr(o, 11), 1), 7)), 0x63)
  }

  function UType(rd: int, imm20: int, op: int): int {
    Or(Or(Shl(And(imm20, 0xF_FFFF), 12), Shl(rd, 7)), op)
  }

  function JType(rd: int, off: int): int {
    var o := And(off, 0x1F_FFFF);
    Or(Or(Or(Or(Or(
      Shl(And(Shr(o, 20), 1), 31), Shl(And(Shr(o, 1), 0x3FF), 21)), Shl(And(Shr(o, 11), 1), 20)),
      Shl(And(Shr(o, 12), 0xFF), 12)), Shl(rd, 7)), 0x6F)
  }

  // ----- fields side by side

  /** Or-ing in a field below all bits already set adds it. */
  lemma OrField(q: int, m: int, low: int, n: nat)
    requires Pow2(n) == m && 0 <= low < m
    ensures Or(q * m, low) == q * m + low
  {
    hide Bits.Bitwise, Pow2, Or;
    Disjoint(q, low, n);
  }

  /** A shift of a literal amount. */
  lemma Shifts(x: int)
    ensures Shl(x, 7) == x * 0x80 && Shl(x, 8) == x * 0x100 && Shl(x, 12) == x * 0x1000 && Shl(x, 15) == x * 0x8000
    ensures Shl(x, 20) == x * 0x10_0000 && Shl(x, 21) == x * 0x20_0000 && Shl(x, 25) == x * 0x200_0000
    ensures Shl(x, 31) == x * 0x8000_0000
  {
    hide Pow2;
    Powers();
  }

  /** The fields below the source registers. */
  lemma PackLow(high: int, rs1: int, f3: int, rd: int, op: int)
    requires 0 <= rs1 < 32 && 0 <= f3 < 8 && 0 <= rd < 32 && 0 <= op < 128
    ensures Or(Or(Or(Or(high * 0x10_0000, rs1 * 0x8000), f3 * 0x1000), rd * 0x80), op)
         == high * 0x10_0000 + rs1 * 0x8000 + f3 * 0x1000 + rd * 0x80 + op
  {
    hide Bits.Bitwise, Or, Pow2;
    Powers();
    OrField(high, 0x10_0000, rs1 * 0x8000, 20);
    OrField(high * 32 + rs1, 0x8000, f3 * 0x1000, 15);
    OrField((high * 32 + rs1) * 8 + f3, 0x1000, rd * 0x80, 12);
    OrField(((high * 32 + rs1) * 8 + f3) * 32 + rd, 0x80, op, 7);
  }

  lemma PackFields(f7: int, rs2: int, rs1: int, f3: int, rd: int, op: int)
    requires 0 <= rs2 < 32 && 0 <= rs1 < 32 && 0 <= f3 < 8 && 0 <= rd < 32 && 0 <= op < 128
    ensures Or(Or(Or(Or(Or(Shl(f7, 25), Shl(rs2, 20)), Shl(rs1, 15)), Shl(f3, 12)), Shl(rd, 7)), op)
         == f7 * 0x200_0000 + rs2 * 0x10_0000 + rs1 * 0x8000 + f3 * 0x1000 + rd * 0x80 + op
  {
    hide Bits.Bitwise, Or, Shl, Pow2;
    Powers();
    Shifts(f7);
    Shifts(rs2);
    Shifts(rs1);
    Shifts(f3);
    Shifts(rd);
    OrField(f7, 0x200_0000, rs2 * 0x10_0000, 25);
    PackLow(f7 * 32 + rs2, rs1, f3, rd, op);
  }

  lemma RTypeSum(rd: reg, rs1: reg, rs2: reg, f3: int, f7: int)
    requires 0 <= f3 < 8 && 0 <= f7 < 128
    ensures RType(rd, rs1, rs2, f3, f7)
         == f7 * 0x200_0000 + rs2 * 0x10_0000 + rs1 * 0x8000 + f3 * 0x1000 + rd * 0x80 + 0x33
  {
    hide Bits.Bitwise, Or, Shl;
    PackFields(f7, rs2, rs1, f3, rd, 0x33);
  }

  lemma Fields(w: int, op: int, rd: int, f3: int, rs1: int, rs2: int, f7: int)
    requires 0 <= op < 128 && 0 <= rd < 32 && 0 <= f3 < 8 && 0 <= rs1 < 32 && 0 <= rs2 < 32 && 0 <= f7 < 128
    requires w == f7 * 0x200_0000 + rs2 * 0x10_0000 + rs1 * 0x8000 + f3 * 0x1000 + rd * 0x80 + op
    ensures 0 <= w < WORD
    ensures Opcode(w) == op && Rd(w) == rd && Funct3(w) == f3 && Rs1(w) == rs1 && Rs2(w) == rs2 && Funct7(w) == f7
  {
    var e := f7;
    var d := e * 32 + rs2;
    var c := d * 32 + rs1;
    var b := c * 8 + f3;
    var a := b * 32 + rd;
    DivModUnique(w, 0x80, a, op);
    DivModUnique(w, 0x1000, b, rd * 0x80 + op);
    DivModUnique(w, 0x8000, c, f3 * 0x1000 + rd * 0x80 + op);
    DivModUnique(w, 0x10_0000, d, rs1 * 0x8000 + f3 * 0x1000 + rd * 0x80 + op);
    DivModUnique(w, 0x200_0000, e, rs2 * 0x10_0000 + rs1 * 0x8000 + f3 * 0x1000 + rd * 0x80 + op);
    DivModUnique(a, 32, b, rd);
    DivModUnique(b, 8, c, f3);
    DivModUnique(c, 32, d, rs1);
    DivModUnique(d, 32, e, rs2);
  }

  lemma ITypeSum(rd: reg, rs1: reg, imm12: int, f3: int, op: int)
    requires 0 <= f3 < 8 && 0 <= op < 128
    ensures IType(rd, rs1, imm12, f3, op)
         == imm12 % 0x1000 * 0x10_0000 + rs1 * 0x8000 + f3 * 0x1000 + rd * 0x80 + op
  {
    hide Bits.Bitwise, And, Or, Shl, Pow2;
    Powers();
    Mask(imm12, 12);
    Shifts(imm12 % 0x1000);
    Shifts(rs1);
    Shifts(f3);
    Shifts(rd);
    PackLow(imm12 % 0x1000, rs1, f3, rd, op);
  }

  lemma STypeSum(rs1: reg, rs2: reg, imm12: int, f3: int)
    requires 0 <= f3 < 8
    ensures SType(rs1, rs2, imm12, f3)
         == imm12 % 0x1000 / 0x20 * 0x200_0000 + rs2 * 0x10_0000 + rs1 * 0x8000 + f3 * 0x1000
            + imm12 % 0x1000 % 0x20 * 0x80 + 0x23
  {
    hide Bits.Bitwise, And, Or, Shl, Pow2;
    Powers();
    Mask(imm12, 12);
    var i := imm12 % 0x1000;
    Mask(i, 5);
    PackFields(i / 0x20, rs2, rs1, f3, i % 0x20, 0x23);
  }

  lemma PackB(sign: int, ten: int, rs2: reg, rs1: reg, f3: int, four: int, eleven: int)
    requires 0 <= sign < 2 && 0 <= ten < 64 && 0 <= f3 < 8 && 0 <= four < 16 && 0 <= eleven < 2
    ensures Or(Or(Or(Or(Or(Or(Or(Shl(sign, 31), Shl(ten, 25)), Shl(rs2, 20)), Shl(rs1, 15)), Shl(f3, 12)),
              Shl(four, 8)), Shl(eleven, 7)), 0x63)
         == sign * 0x8000_0000 + ten * 0x200_0000 + rs2 * 0x10_0000 + rs1 * 0x8000 + f3 * 0x1000 + four * 0x100
            + eleven * 0x80 + 0x63
  {
    hide Bits.Bitwise, Or, Shl, Pow2;
    Powers();
    Shifts(sign);
    Shifts(ten);
    Shifts(rs2);
    Shifts(rs1);
    Shifts(f3);
    Shifts(four);
    Shifts(eleven);
    var a := sign;
    OrField(a, 0x8000_0000, ten * 0x200_0000, 31);
    var b := a * 64 + ten;
    OrField(b, 0x200_0000, rs2 * 0x10_0000, 25);
    var c := b * 32 + rs2;
    OrField(c, 0x10_0000, rs1 * 0x8000, 20);
    var d := c * 32 + rs1;
    OrField(d, 0x8000, f3 * 0x1000, 15);
    var e := d * 8 + f3;
    OrField(e, 0x1000, four * 0x100, 12);
    var f := e * 16 + four;
    OrField(f, 0x100, eleven * 0x80, 8);
    OrField(f * 2 + eleven, 0x80, 0x63, 7);
  }

  lemma BTypeSum(rs1: reg, rs2: reg, off: int, f3: int)
    requires 0 <= f3 < 8
    ensures var o := off % 0x2000;
      BType(rs1, rs2, off, f3)
      == o / 0x1000 * 0x8000_0000 + o / 0x20 % 0x40 * 0x200_0000 + rs2 * 0x10_0000 + rs1 * 0x8000 + f3 * 0x1000
         + o / 2 % 0x10 * 0x100 + o / 0x800 % 2 * 0x80 + 0x63
  {
    hide Bits.Bitwise, Or, Shl;
    Powers();
    Mask(off, 13);
    var o := off % 0x2000;
    Mask(o / 0x1000, 1);
    Mask(o / 0x20, 6);
    Mask(o / 2, 4);
    Mask(o / 0x800, 1);
    PackB(o / 0x1000, o / 0x20 % 0x40, rs2, rs1, f3, o / 2 % 0x10, o / 0x800 % 2);
  }

  lemma UTypeSum(rd: reg, imm20: int, op: int)
    requires 0 <= op < 128
    ensures UType(rd, imm20, op) == imm20 % 0x10_0000 * 0x1000 + rd * 0x80 + op
  {
    hide Bits.Bitwise, And, Or, Shl, Pow2;
    Powers();
    Mask(imm20, 20);
    var i := imm20 % 0x10_0000;
    Shifts(i);
    Shifts(rd);
    OrField(i, 0x1000, rd * 0x80, 12);
    OrField(i * 32 + rd, 0x80, op, 7);
  }

  lemma PackJ(sign: int, ten: int, eleven: int, nineteen: int, rd: reg)
    requires 0 <= sign < 2 && 0 <= ten < 1024 && 0 <= eleven < 2 && 0 <= nineteen < 256
    ensures Or(Or(Or(Or(Or(Shl(sign, 31), Shl(ten, 21)), Shl(eleven, 20)), Shl(nineteen, 12)), Shl(rd, 7)), 0x6F)
         == sign * 0x8000_0000 + ten * 0x20_0000 + eleven * 0x10_0000 + nineteen * 0x1000 + rd * 0x80 + 0x6F
  {
    hide Bits.Bitwise, Or, Shl, Pow2;
    Powers();
    Shifts(sign);
    Shifts(ten);
    Shifts(eleven);
    Shifts(nineteen);
    Shifts(rd);
    var a := sign;
    OrField(a, 0x8000_0000, ten * 0x20_0000, 31);
    var b := a * 1024 + ten;
    OrField(b, 0x20_0000, eleven * 0x10_0000, 21);
    var c := b * 2 + eleven;
    OrField(c, 0x10_0000, nineteen * 0x1000, 20);
    var d := c * 256 + nineteen;
    OrField(d, 0x1000, rd * 0x80, 12);
    OrField(d * 32 + rd, 0x80, 0x6F, 7);
  }

  lemma JTypeSum(rd: reg, off: int)
    ensures var o := off % 0x20_0000;
      JType(rd, off)
      == o / 0x10_0000 * 0x8000_0000 + o / 2 % 0x400 * 0x20_0000 + o / 0x800 % 2 * 0x10_0000
         + o / 0x1000 % 0x100 * 0x1000 + rd * 0x80 + 0x6F
  {
    hide Bits.Bitwise, Or, Shl;
    Powers();
    Mask(off, 21);
    var o := off % 0x20_0000;
    Mask(o / 0x10_0000, 1);
    Mask(o / 2, 10);
    Mask(o / 0x800, 1);
    Mask(o / 0x1000, 8);
    PackJ(o / 0x10_0000, o / 2 % 0x400, o / 0x800 % 2, o / 0x1000 % 0x100, rd);
  }

  // ----- decoding what was encoded

  /** The signed value of a `2 * half`-wide field holding `imm`. */
  function Truncated(imm: int, half: int): int
    requires half > 0
  {
    Sign(imm % (2 * half), half)
  }

  lemma DecodeRType(rd: reg, rs1: reg, rs2: reg, f3: int, f7: int)
    requires 0 <= f3 < 8 && 0 <= f7 < 128 && RegisterOp(f3, f7).Some?
    ensures 0 <= RType(rd, rs1, rs2, f3, f7) < WORD
    ensures Decode(RType(rd, rs1, rs2, f3, f7)) == Alu(RegisterOp(f3, f7).value, rd, rs1, rs2)
  {
    RTypeSum(rd, rs1, rs2, f3, f7);
    Fields(RType(rd, rs1, rs2, f3, f7), 0x33, rd, f3, rs1, rs2, f7);
  }

  lemma DecodeIType(rd: reg, rs1: reg, imm12: int, f3: int, op: int)
    requires 0 <= f3 < 8 && 0 <= op < 128
    ensures var w := IType(rd, rs1, imm12, f3, op);
      && 0 <= w < WORD
      && Opcode(w) == op && Rd(w) == rd && Funct3(w) == f3 && Rs1(w) == rs1
      && w / 0x10_0000 == imm12 % 0x1000 && ImmI(w) == Truncated(imm12, 0x800)
  {
    hide Bits.Bitwise;
    ITypeSum(rd, rs1, imm12, f3, op);
    var i := imm12 % 0x1000;
    Fields(IType(rd, rs1, imm12, f3, op), op, rd, f3, rs1, i % 32, i / 32);
    DivModUnique(IType(rd, rs1, imm12, f3, op), 0x10_0000, i, rs1 * 0x8000 + f3 * 0x1000 + rd * 0x80 + op);
  }

  lemma DecodeArithmetic(rd: reg, rs1: reg, imm12: int, f3: int) returns (w: word)
    requires 0 <= f3 < 8 && f3 != 1 && f3 != 5
    ensures Decode(w) == AluImm(RegisterOp(f3, 0).value, rd, rs1, Truncated(imm12, 0x800))
    ensures w == IType(rd, rs1, imm12, f3, 0x13)
  {
    hide IType, Truncated;
    DecodeIType(rd, rs1, imm12, f3, 0x13);
    w := IType(rd, rs1, imm12, f3, 0x13);
  }

  lemma DecodeShift(rd: reg, rs1: reg, f3: int, f7: int, shamt: int) returns (w: word)
    requires f3 == 1 || f3 == 5
    requires 0 <= f7 < 128 && RegisterOp(f3, f7).Some? && 0 <= shamt < 32
    ensures w == IType(rd, rs1, f7 * 32 + shamt, f3, 0x13)
    ensures Decode(w) == AluImm(RegisterOp(f3, f7).value, rd, rs1, shamt)
  {
    hide IType, RegisterOp;
    var imm := f7 * 32 + shamt;
    DecodeIType(rd, rs1, imm, f3, 0x13);
    w := IType(rd, rs1, imm, f3, 0x13);
    assert w / 0x10_0000 == imm by { SmallResidue(imm, 0x1000); }
    assert w / 0x200_0000 == f7 && w / 0x10_0000 % 32 == shamt by {
      DivModUnique(imm, 32, f7, shamt);
      assert w / 0x200_0000 == w / 0x10_0000 / 32;
    }
  }

  lemma DecodeSType(rs1: reg, rs2: reg, imm12: int, f3: int)
    requires 0 <= f3 < 8 && StoreWidth(f3).Some?
    ensures 0 <= SType(rs1, rs2, imm12, f3) < WORD
    ensures Decode(SType(rs1, rs2, imm12, f3)) == Store(StoreWidth(f3).value, rs1, rs2, Truncated(imm12, 0x800))
  {
    hide Bits.Bitwise;
    STypeSum(rs1, rs2, imm12, f3);
    var i := imm12 % 0x1000;
    Fields(SType(rs1, rs2, imm12, f3), 0x23, i % 32, f3, rs1, rs2, i / 32);
  }

  lemma SplitBOffset(o: int)
    requires 0 <= o < 0x2000
    ensures o / 0x1000 * 0x1000 + o / 0x800 % 2 * 0x800 + o / 0x20 % 0x40 * 0x20 + o / 2 % 0x10 * 2 == o / 2 * 2
  {
    var a := o / 2;
    var b := a / 16;
    var c := b / 64;
    assert o / 0x20 == b && o / 0x800 == c && o / 0x1000 == c / 2;
  }

  lemma BFields(w: int, sign: int, ten: int, rs2: int, rs1: int, f3: int, four: int, eleven: int)
    requires 0 <= sign < 2 && 0 <= ten < 64 && 0 <= rs2 < 32 && 0 <= rs1 < 32 && 0 <= f3 < 8
    requires 0 <= four < 16 && 0 <= eleven < 2
    requires w == sign * 0x8000_0000 + ten * 0x200_0000 + rs2 * 0x10_0000 + rs1 * 0x8000 + f3 * 0x1000
               + four * 0x100 + eleven * 0x80 + 0x63
    ensures 0 <= w < WORD && Opcode(w) == 0x63 && Funct3(w) == f3 && Rs1(w) == rs1 && Rs2(w) == rs2
    ensures w / 0x8000_0000 == sign && w / 0x200_0000 % 64 == ten && w / 0x100 % 16 == four && w / 0x80 % 2 == eleven
  {
    Fields(w, 0x63, four * 2 + eleven, f3, rs1, rs2, sign * 64 + ten);
    assert w / 0x200_0000 % 64 == ten by { DivModUnique(sign * 64 + ten, 64, sign, ten); }
    assert w / 0x8000_0000 == sign by { DivModUnique(w, 0x8000_0000, sign, w - sign * 0x8000_0000); }
    var h := ((sign * 64 + ten) * 32 + rs2) * 32 + rs1;
    var g := (h * 8 + f3) * 16 + four;
    assert w / 0x100 % 16 == four by {
      DivModUnique(w, 0x100, g, eleven * 0x80 + 0x63);
      DivModUnique(g, 16, h * 8 + f3, four);
    }
    assert w / 0x80 % 2 == eleven by {
      DivModUnique(w, 0x80, 2 * g + eleven, 0x63);
      DivModUnique(2 * g + eleven, 2, g, eleven);
    }
  }

  lemma EvenOffset(off: int, m: int)
    requires m > 0
    ensures (off / 2 * 2) % (2 * m) == off % (2 * m) / 2 * 2
  {
    Halve(off, m);
    Halve(off / 2 * 2, m);
  }

  lemma DecodeBType(rs1: reg, rs2: reg, off: int, f3: int)
    requires 0 <= f3 < 8 && CondOf(f3).Some?
    ensures 0 <= BType(rs1, rs2, off, f3) < WORD
    ensures Decode(BType(rs1, rs2, off, f3)) == Branch(CondOf(f3).value, rs1, rs2, Truncated(off / 2 * 2, 0x1000))
  {
    hide Bits.Bitwise;
    BTypeSum(rs1, rs2, off, f3);
    var o := off % 0x2000;
    var w := BType(rs1, rs2, off, f3);
    BFields(w, o / 0x1000, o / 0x20 % 0x40, rs2, rs1, f3, o / 2 % 0x10, o / 0x800 % 2);
    SplitBOffset(o);
    EvenOffset(off, 0x1000);
  }

  lemma DecodeUType(rd: reg, imm20: int, op: int)
    requires op == 0x37 || op == 0x17
    ensures 0 <= UType(rd, imm20, op) < WORD
    ensures var upper := imm20 % 0x10_0000 * 0x1000;
      Decode(UType(rd, imm20, op)) == if op == 0x37 then Lui(rd, upper) else Auipc(rd, upper)
  {
    hide Bits.Bitwise;
    UTypeSum(rd, imm20, op);
    var i := imm20 % 0x10_0000;
    var w := UType(rd, imm20, op);
    DivModUnique(w, 0x1000, i, rd * 0x80 + op);
    DivModUnique(w, 0x80, i * 32 + rd, op);
  }

  lemma SplitJOffset(o: int)
    requires 0 <= o < 0x20_0000
    ensures o / 0x10_0000 * 0x10_0000 + o / 0x1000 % 0x100 * 0x1000 + o / 0x800 % 2 * 0x800 + o / 2 % 0x400 * 2
         == o / 2 * 2
  {
    var a := o / 2;
    var b := a / 1024;
    var c := b / 2;
    assert o / 0x800 == b && o / 0x1000 == c && o / 0x10_0000 == c / 256;
  }

  lemma JFields(w: int, sign: int, ten: int, eleven: int, nineteen: int, rd: int)
    requires 0 <= sign < 2 && 0 <= ten < 1024 && 0 <= eleven < 2 && 0 <= nineteen < 256 && 0 <= rd < 32
    requires w == sign * 0x8000_0000 + ten * 0x20_0000 + eleven * 0x10_0000 + nineteen * 0x1000 + rd * 0x80 + 0x6F
    ensures 0 <= w < WORD && Opcode(w) == 0x6F && Rd(w) == rd
    ensures w / 0x8000_0000 == sign && w / 0x20_0000 % 1024 == ten && w / 0x10_0000 % 2 == eleven
    ensures w / 0x1000 % 256 == nineteen
  {
    var upper := sign * 0x400 + ten;
    var middle := upper * 2 + eleven;
    var lower := middle * 256 + nineteen;
    assert w / 0x8000_0000 == sign by { DivModUnique(w, 0x8000_0000, sign, w - sign * 0x8000_0000); }
    assert w / 0x20_0000 % 1024 == ten by {
      DivModUnique(w, 0x20_0000, upper, w - upper * 0x20_0000);
      DivModUnique(upper, 1024, sign, ten);
    }
    assert w / 0x10_0000 % 2 == eleven by {
      DivModUnique(w, 0x10_0000, middle, w - middle * 0x10_0000);
      DivModUnique(middle, 2, upper, eleven);
    }
    assert w / 0x1000 % 256 == nineteen by {
      DivModUnique(w, 0x1000, lower, rd * 0x80 + 0x6F);
      DivModUnique(lower, 256, middle, nineteen);
    }
    DivModUnique(w, 0x80, lower * 32 + rd, 0x6F);
    DivModUnique(lower * 32 + rd, 32, lower, rd);
  }

  lemma DecodeJType(rd: reg, off: int)
    ensures 0 <= JType(rd, off) < WORD
    ensures Decode(JType(rd, off)) == Jal(rd, Truncated(off / 2 * 2, 0x10_0000))
  {
    hide Bits.Bitwise;
    JTypeSum(rd, off);
    var o := off % 0x20_0000;
    var w := JType(rd, off);
    JFields(w, o / 0x10_0000, o / 2 % 0x400, o / 0x800 % 2, o / 0x1000 % 0x100, rd);
    SplitJOffset(o);
    EvenOffset(off, 0x10_0000);
  }
}
