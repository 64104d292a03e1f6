/**
  tools/rv32i_model.py: the straight-line interpreter behind the random-test reference files.

  `Run` is its loop on unbounded integers.  It is specified on the instruction set itself: the
  interpreter executes exactly what the ISA prescribes for the instruction `Lenient` reads from a
  word, and `Lenient` is ISA decoding on every instruction the interpreter is meant for.
 */
module PythonModel {
  import opened Options
  import opened Bits
  import opened Rv32i
  import opened Encode

  function W(v: int): int { And(v, 0xFFFF_FFFF) }

  /** `sext`: the low bits of `v` as a signed number. */
  function Sext(v: int, bits: nat): int
    requires bits > 0
  {
    var low := And(v, Pow2(bits) - 1);
    if And(low, Pow2(bits - 1)) != 0 then low - Pow2(bits) else low
  }

  // ----- specification

  /** How the interpreter reads a word: it ignores funct7 and access widths where the ISA does not. */
  function Lenient(w: word): (i: Option<Instr>)
    ensures i.Some? ==> InScope(i.value)
  {
    var f3 := Funct3(w);
    var arithmetic := Funct7(w) == 0x20;
    var op := if f3 == 0 then Add else if f3 == 1 then Sll else if f3 == 2 then Slt else if f3 == 3 then Sltu
              else if f3 == 4 then BitXor else if f3 == 5 then (if arithmetic then Sra else Srl)
              else if f3 == 6 then BitOr else BitAnd;
    if Opcode(w) == 0x33 then
      Some(Alu(if f3 == 0 && arithmetic then Sub else op, Rd(w), Rs1(w), Rs2(w)))
    else if Opcode(w) == 0x13 then
      Some(AluImm(op, Rd(w), Rs1(w), if f3 == 1 || f3 == 5 then Rs2(w) else ImmI(w)))
    else if Opcode(w) == 0x03 then Some(Load(Word, Rd(w), Rs1(w), ImmI(w)))
    else if Opcode(w) == 0x23 then Some(Store(Word, Rs1(w), Rs2(w), ImmS(w)))
    else if Opcode(w) == 0x37 then Some(Lui(Rd(w), ImmU(w)))
    else None
  }

  /** Integer computation, LUI and word accesses: the instructions the interpreter claims to cover. */
  predicate InScope(i: Instr) {
    i.Alu? || i.AluImm? || i.Lui? || (i.Load? && i.width == Word) || (i.Store? && i.width == Word)
  }

  lemma LenientIsDecode(w: word)
    requires InScope(Decode(w))
    ensures Lenient(w) == Some(Decode(w))
  {
  }

  datatype Machine = Machine(x: Regs, mem: seq<word>)

  /** One instruction, by the ISA's own `Compute`; data addresses wrap around the scratch words. */
  function Perform(i: Instr, m: Machine): Machine
    requires InScope(i) && |m.mem| > 0
    ensures |Perform(i, m).mem| == |m.mem|
  {
    match i
    case Alu(op, rd, rs1, rs2) => m.(x := SetReg(m.x, rd, Compute(op, m.x[rs1], m.x[rs2])))
    case AluImm(op, rd, rs1, imm) => m.(x := SetReg(m.x, rd, Compute(op, m.x[rs1], Wrap(imm))))
    case Lui(rd, upper) => m.(x := SetReg(m.x, rd, Wrap(upper)))
    case Load(_, rd, rs1, imm) => m.(x := SetReg(m.x, rd, m.mem[Wrap(m.x[rs1] + imm) / 4 % |m.mem|]))
    case Store(_, rs1, rs2, imm) => m.(mem := m.mem[Wrap(m.x[rs1] + imm) / 4 % |m.mem| := m.x[rs2]])
  }

  /** Words up to the halt; `None` when the interpreter raises. */
  function Interpret(words: seq<word>, m: Machine): Option<Machine>
    requires |m.mem| > 0
  {
    if words == [] || words[0] == 0x0000_006F then Some(m)
    else match Lenient(words[0])
      case None => None
      case Some(i) => Interpret(words[1..], Perform(i, m))
  }

  /** Word `k` is reached and not covered. */
  ghost predicate RaisesAt(words: seq<word>, k: nat) {
    && k < |words| && words[k] % 128 !in {0x33, 0x13, 0x03, 0x23, 0x37}
    && forall j :: 0 <= j <= k ==> words[j] != 0x0000_006F
  }

  /** The interpreter raises exactly on an uncovered opcode before the first halt. */
  lemma {:induction false} RaisesExactly(words: seq<word>, m: Machine)
    requires |m.mem| > 0
    ensures Interpret(words, m).None? <==> exists k :: RaisesAt(words, k)
    decreases |words|
  {
    hide Perform;
    if words != [] && words[0] != 0x0000_006F && Lenient(words[0]).Some? {
      RaisesExactly(words[1..], Perform(Lenient(words[0]).value, m));
      forall k: nat | RaisesAt(words[1..], k) ensures RaisesAt(words, k + 1) {
        assert forall j :: 0 < j <= k + 1 ==> words[j] == words[1..][j - 1];
      }
      forall k: nat | RaisesAt(words, k) ensures k > 0 && RaisesAt(words[1..], k - 1) {
      }
    } else if words != [] && words[0] != 0x0000_006F {
      assert RaisesAt(words, 0);
    }
  }

  function ZeroRegs(): Regs { seq(32, _ => 0) }

  // ----- the interpreter's arithmetic on unbounded integers

  lemma WIsWrap(v: int)
    ensures W(v) == Wrap(v)
  {
    hide Bits.Bitwise;
    Powers();
    Mask(v, 32);
  }

  lemma {:induction false} TopBit(x: int, k: nat)
    requires 0 <= x < Pow2(k + 1)
    ensures And(x, Pow2(k)) == if x >= Pow2(k) then Pow2(k) else 0
    decreases k
  {
    Unfold(AND, x, Pow2(k));
    if k > 0 {
      TopBit(x / 2, k - 1);
    }
  }

  lemma SextIsSignExtend(v: int, bits: nat)
    requires bits > 0
    ensures Sext(v, bits) == Sign(v % Pow2(bits), Pow2(bits - 1))
  {
    hide Bits.Bitwise;
    Mask(v, bits);
    TopBit(v % Pow2(bits), bits - 1);
  }

  function Low5(b: int): nat {
    Powers();
    Mask(b, 5);
    And(b, 0x1F)
  }

  /** The interpreter's result for an R-type word. */
  function RegisterResult(f3: int, f7: int, a: int, b: int): int {
    if f3 == 0 then (if f7 == 0x20 then W(a - b) else W(a + b))
    else if f3 == 1 then W(Shl(a, Low5(b)))
    else if f3 == 2 then Unit(Sext(a, 32) < Sext(b, 32))
    else if f3 == 3 then Unit(W(a) < W(b))
    else if f3 == 4 then W(Xor(a, b))
    else if f3 == 5 then (if f7 == 0x20 then W(Shr(Sext(a, 32), Low5(b))) else W(Shr(a, Low5(b))))
    else if f3 == 6 then W(Or(a, b))
    else W(And(a, b))
  }

  /** The interpreter's result for an I-type word: `imm` stays a signed, unbounded integer. */
  function ImmediateResult(f3: int, f7: int, a: int, imm: int, shamt: nat): int {
    if f3 == 0 then W(a + imm)
    else if f3 == 2 then Unit(Sext(a, 32) < imm)
    else if f3 == 3 then Unit(W(a) < W(imm))
    else if f3 == 4 then W(Xor(a, imm))
    else if f3 == 6 then W(Or(a, imm))
    else if f3 == 7 then W(And(a, imm))
    else if f3 == 1 then W(Shl(a, shamt))
    else if f7 == 0x20 then W(Shr(Sext(a, 32), shamt)) else W(Shr(a, shamt))
  }

  lemma SextOfWord(a: word)
    ensures Sext(a, 32) == Signed(a)
  {
    hide Bits.Bitwise;
    Powers();
    SextIsSignExtend(a, 32);
  }

  /** A logical operation on an unbounded operand, truncated, is the operation on its low word. */
  lemma LogicOfWord(g: Gate, a: word, b: int)
    ensures W(Bitwise(g, a, b)) == Logic(g, a, Wrap(b))
  {
    hide Bits.Bitwise, W;
    WIsWrap(Bitwise(g, a, b));
    LowWord(g, a, b);
    WrapWord(a);
  }

  lemma ShiftsOfWord(a: word, k: nat)
    ensures W(Shl(a, k)) == Wrap(a * Pow2(k))
    ensures W(Shr(a, k)) == Wrap(a / Pow2(k))
    ensures W(Shr(Sext(a, 32), k)) == Wrap(Signed(a) / Pow2(k))
  {
    hide Bits.Bitwise, Sext, W;
    SextOfWord(a);
    WIsWrap(Shl(a, k));
    WIsWrap(Shr(a, k));
    WIsWrap(Shr(Signed(a), k));
  }

  lemma RegisterRefines(w: word, a: word, b: word)
    requires Opcode(w) == 0x33
    ensures Lenient(w).Some? && Lenient(w).value.Alu?
    ensures Lenient(w) == Some(Alu(Lenient(w).value.op, Rd(w), Rs1(w), Rs2(w)))
    ensures RegisterResult(Funct3(w), Funct7(w), a, b) == Compute(Lenient(w).value.op, a, b)
  {
    hide Bits.Bitwise, Sext, W, Logic, Pow2, Shl, Shr, Wrap;
    var f3 := Funct3(w);
    if f3 == 0 {
      WIsWrap(a - b);
      WIsWrap(a + b);
    } else if f3 == 1 || f3 == 5 {
      assert Low5(b) == b % 32 by { Low5IsResidue(b); }
      ShiftsOfWord(a, b % 32);
    } else if f3 == 2 {
      SextOfWord(a);
      SextOfWord(b);
    } else if f3 == 3 {
      WordIsItself(a);
      WordIsItself(b);
    } else {
      Powers();
      LogicOfWord(XOR, a, b);
      LogicOfWord(OR, a, b);
      LogicOfWord(AND, a, b);
      WrapWord(b);
    }
  }

  lemma WrapWord(b: word)
    ensures Wrap(b) == b
  {
    SmallResidue(b, WORD);
  }

  lemma WordIsItself(a: word)
    ensures W(a) == a
  {
    hide W, Wrap;
    WIsWrap(a);
    WrapWord(a);
  }

  lemma Low5IsResidue(b: word)
    ensures Low5(b) == b % 32
  {
    hide Bits.Bitwise;
    Powers();
    Mask(b, 5);
  }

  lemma WrapSum(a: int, b: int)
    ensures Wrap(a + b) == Wrap(a + Wrap(b))
  {
  }

  lemma ImmediateRange(w: word)
    ensures -0x800 <= ImmI(w) < 0x800 && Signed(Wrap(ImmI(w))) == ImmI(w)
  {
  }

  lemma ImmediateRefines(w: word, a: word)
    requires Opcode(w) == 0x13
    ensures Lenient(w).Some? && Lenient(w).value.AluImm?
    ensures Lenient(w) == Some(AluImm(Lenient(w).value.op, Rd(w), Rs1(w), Lenient(w).value.imm))
    ensures ImmediateResult(Funct3(w), Funct7(w), a, ImmI(w), Rs2(w))
         == Compute(Lenient(w).value.op, a, Wrap(Lenient(w).value.imm))
  {
    hide Bits.Bitwise, Sext, W, Logic, Pow2, Shl, Shr, Wrap, Compute, ImmediateResult;
    var f3 := Funct3(w);
    if f3 == 1 || f3 == 5 {
      ShiftImmediateRefines(w, a);
    } else if f3 == 4 || f3 == 6 || f3 == 7 {
      LogicImmediateRefines(w, a);
    } else {
      SumImmediateRefines(w, a);
    }
  }

  lemma SumImmediateRefines(w: word, a: word)
    requires Opcode(w) == 0x13 && Funct3(w) in {0, 2, 3}
    ensures Lenient(w) == Some(AluImm(Lenient(w).value.op, Rd(w), Rs1(w), ImmI(w)))
    ensures ImmediateResult(Funct3(w), Funct7(w), a, ImmI(w), Rs2(w)) == Compute(Lenient(w).value.op, a, Wrap(ImmI(w)))
  {
    hide Bits.Bitwise, Sext, W, Logic, Pow2, Shl, Shr, Wrap, ImmI, Rs2, Rs1, Rd;
    var imm := ImmI(w);
    ImmediateRange(w);
    WIsWrap(a + imm);
    WrapSum(a, imm);
    SextOfWord(a);
    WordIsItself(a);
    WIsWrap(imm);
  }

  lemma ShiftImmediateRefines(w: word, a: word)
    requires Opcode(w) == 0x13 && Funct3(w) in {1, 5}
    ensures Lenient(w) == Some(AluImm(Lenient(w).value.op, Rd(w), Rs1(w), Rs2(w)))
    ensures ImmediateResult(Funct3(w), Funct7(w), a, ImmI(w), Rs2(w)) == Compute(Lenient(w).value.op, a, Wrap(Rs2(w)))
  {
    hide Bits.Bitwise, Sext, W, Logic, Pow2, Shl, Shr, Wrap, ImmI, Rs2, Rs1, Rd;
    var shamt := Rs2(w);
    ShiftsOfWord(a, shamt);
    WrapWord(shamt);
    SmallResidue(shamt, 32);
  }

  lemma LogicImmediateRefines(w: word, a: word)
    requires Opcode(w) == 0x13 && Funct3(w) in {4, 6, 7}
    ensures Lenient(w) == Some(AluImm(Lenient(w).value.op, Rd(w), Rs1(w), ImmI(w)))
    ensures ImmediateResult(Funct3(w), Funct7(w), a, ImmI(w), Rs2(w)) == Compute(Lenient(w).value.op, a, Wrap(ImmI(w)))
  {
    hide Bits.Bitwise, Sext, W, Logic, Pow2, Shl, Shr, Wrap, ImmI, Rs2, Rs1, Rd;
    LogicOfWord(XOR, a, ImmI(w));
    LogicOfWord(OR, a, ImmI(w));
    LogicOfWord(AND, a, ImmI(w));
  }

  /** The shifts and masks of the interpreter's decoder read the ISA's fields. */
  lemma FieldsOf(w: word)
    ensures And(w, 0x7F) == Opcode(w)
    ensures And(Shr(w, 7), 0x1F) == Rd(w)
    ensures And(Shr(w, 12), 0x7) == Funct3(w)
    ensures And(Shr(w, 15), 0x1F) == Rs1(w)
    ensures And(Shr(w, 20), 0x1F) == Rs2(w)
    ensures And(Shr(w, 25), 0x7F) == Funct7(w)
    ensures Sext(Shr(w, 20), 12) == ImmI(w)
    ensures Sext(Or(Shl(Shr(w, 25), 5), And(Shr(w, 7), 0x1F)), 12) == ImmS(w)
    ensures W(And(w, 0xFFFF_F000)) == ImmU(w)
  {
    hide Bits.Bitwise, Sext, W;
    Powers();
    assert Pow2(3) == 8;
    Mask(w, 7);
    Mask(Shr(w, 7), 5);
    Mask(Shr(w, 12), 3);
    Mask(Shr(w, 15), 5);
    Mask(Shr(w, 20), 5);
    Mask(Shr(w, 25), 7);
    SextIsSignExtend(Shr(w, 20), 12);
    StoreImmediate(w);
    UpperImmediate(w);
  }

  lemma StoreImmediate(w: word)
    ensures Sext(Or(Shl(Shr(w, 25), 5), And(Shr(w, 7), 0x1F)), 12) == ImmS(w)
  {
    hide Bits.Bitwise, Sext;
    Powers();
    Mask(Shr(w, 7), 5);
    var high, low := w / 0x200_0000, w / 0x80 % 32;
    OrField(high, 32, low, 5);
    SextIsSignExtend(high * 32 + low, 12);
  }

  lemma UpperImmediate(w: word)
    ensures W(And(w, 0xFFFF_F000)) == ImmU(w)
  {
    hide Bits.Bitwise, W;
    Powers();
    AndShifted(w, 0xF_FFFF, 12);
    Mask(w / 0x1000, 20);
    WIsWrap(ImmU(w));
  }

  lemma UpperIsWord(w: word)
    ensures Wrap(ImmU(w)) == ImmU(w)
  {
  }

  lemma LenientOthers(w: word)
    ensures Opcode(w) == 0x03 ==> Lenient(w) == Some(Load(Word, Rd(w), Rs1(w), ImmI(w)))
    ensures Opcode(w) == 0x23 ==> Lenient(w) == Some(Store(Word, Rs1(w), Rs2(w), ImmS(w)))
    ensures Opcode(w) == 0x37 ==> Lenient(w) == Some(Lui(Rd(w), ImmU(w)))
    ensures Opcode(w) !in {0x33, 0x13, 0x03, 0x23, 0x37} ==> Lenient(w) == None
  {
  }

  /** The body of the interpreter's loop on one word; false when it raises. */
  method Step(instr: word, regs: array<int>, mem: array<int>, ghost m: Machine) returns (supported: bool)
    requires regs != mem && mem.Length > 0 && regs[..] == m.x && mem[..] == m.mem
    modifies regs, mem
    ensures supported <==> Lenient(instr).Some?
    ensures supported ==>
      regs[..] == Perform(Lenient(instr).value, m).x && mem[..] == Perform(Lenient(instr).value, m).mem
  {
    hide Bits.Bitwise, Sext, W, Shl, Shr, Wrap, Compute, RegisterResult, ImmediateResult, Lenient;
    hide Opcode, Rd, Funct3, Rs1, Rs2, Funct7, ImmI, ImmS, ImmU;
    FieldsOf(instr);
    LenientOthers(instr);
    var opcode := And(instr, 0x7F);
    var rd := And(Shr(instr, 7), 0x1F);
    var funct3 := And(Shr(instr, 12), 0x7);
    var rs1 := And(Shr(instr, 15), 0x1F);
    var rs2 := And(Shr(instr, 20), 0x1F);
    var funct7 := And(Shr(instr, 25), 0x7F);
    var immI := Sext(Shr(instr, 20), 12);
    var immS := Sext(Or(Shl(Shr(instr, 25), 5), And(Shr(instr, 7), 0x1F)), 12);
    var shamt := And(Shr(instr, 20), 0x1F);
    hide And, Or;
    assert regs[rs1] == m.x[rs1] && regs[rs2] == m.x[rs2];
    if opcode == 0x33 {
      RegisterRefines(instr, m.x[rs1], m.x[rs2]);
      var res := RegisterResult(funct3, funct7, regs[rs1], regs[rs2]);
      if rd != 0 { regs[rd] := res; }
    } else if opcode == 0x13 {
      ImmediateRefines(instr, m.x[rs1]);
      var res := ImmediateResult(funct3, funct7, regs[rs1], immI, shamt);
      if rd != 0 { regs[rd] := res; }
    } else if opcode == 0x03 {
      WIsWrap(regs[rs1] + immI);
      var addr := W(regs[rs1] + immI);
      var val := mem[addr / 4 % mem.Length];
      if rd != 0 { regs[rd] := val; }
    } else if opcode == 0x23 {
      WIsWrap(regs[rs1] + immS);
      WordIsItself(regs[rs2]);
      var addr := W(regs[rs1] + immS);
      mem[addr / 4 % mem.Length] := W(regs[rs2]);
    } else if opcode == 0x37 {
      UpperIsWord(instr);
      if rd != 0 { regs[rd] := W(And(instr, 0xFFFF_F000)); }
    } else {
      return false;
    }
    return true;
  }

  method Run(words: seq<word>, memWords: nat) returns (r: Option<seq<int>>)
    requires memWords > 0
    ensures var end := Interpret(words, Machine(ZeroRegs(), seq(memWords, _ => 0)));
      r == if end.Some? then Some(end.value.x) else None
  {
    hide Lenient, Perform;
    var regs := new int[32](_ => 0);
    var mem := new int[memWords](_ => 0);
    ghost var m := Machine(ZeroRegs(), seq(memWords, _ => 0));
    ghost var end := Interpret(words, m);
    for k := 0 to |words|
      invariant mem.Length == |m.mem| == memWords && regs[..] == m.x && mem[..] == m.mem
      invariant end == Interpret(words[k..], m)
    {
      if words[k] == 0x0000_006F {
        break;
      }
      assert words[k..][1..] == words[k + 1..];
      var supported := Step(words[k], regs, mem, m);
      if !supported {
        return None;
      }
      m := Perform(Lenient(words[k]).value, m);
    }
    r := Some(regs[..]);
  }
}
