/** One retired instruction, as both the RTL trace and the Spike log report it. */
module Retirement {

  datatype Record = Record(pc: int, insn: int, rd: int, wdata: int)

  /** `jal x0, 0`, the self-loop that ends every lockstep program. */
  const TERMINAL_INSN := 0x0000_006F

  const RESET_PC := 0x8000_0000
}

/**
  The RV32I base instruction set, as a reference to which encoders, the assembler, the program
  generator and the Python model are held: decoding after sections 2.2 and 2.3 of the RISC-V
  Unprivileged ISA, integer computation after section 2.4, control transfer after section 2.5 and
  aligned word loads and stores after section 2.6.
 */
module Rv32i {
  import opened Options
  import opened Bits
  import opened Retirement

  datatype AluOp = Add | Sub | Sll | Slt | Sltu | BitXor | Srl | Sra | BitOr | BitAnd

  datatype Cond = Eq | Ne | Lt | Ge | Ltu | Geu

  datatype Width = Byte | Half | Word | ByteU | HalfU

  type reg = r: int | 0 <= r < 32

  datatype Instr =
    | Alu(op: AluOp, rd: reg, rs1: reg, rs2: reg)
    | AluImm(op: AluOp, rd: reg, rs1: reg, imm: int)
    | Load(width: Width, rd: reg, rs1: reg, imm: int)
    | Store(width: Width, rs1: reg, rs2: reg, imm: int)
    | Branch(cond: Cond, rs1: reg, rs2: reg, imm: int)
    | Lui(rd: reg, upper: int)
    | Auipc(rd: reg, upper: int)
    | Jal(rd: reg, imm: int)
    | Jalr(rd: reg, rs1: reg, imm: int)
    | Other

  // ----- decoding

  function Opcode(w: int): int { w % 0x80 }

  function Rd(w: int): reg { w / 0x80 % 32 }

  function Funct3(w: int): int { w / 0x1000 % 8 }

  function Rs1(w: int): reg { w / 0x8000 % 32 }

  function Rs2(w: int): reg { w / 0x10_0000 % 32 }

  function Funct7(w: int): int { w / 0x200_0000 }

  /** `x`, a field whose sign bit has weight `half`, read as a signed number. */
  function Sign(x: int, half: int): int { if x >= half then x - 2 * half else x }

  function ImmI(w: int): int { Sign(w / 0x10_0000, 0x800) }

  function ImmS(w: int): int { Sign(w / 0x200_0000 * 32 + w / 0x80 % 32, 0x800) }

  function ImmB(w: int): int {
    Sign(w / 0x8000_0000 * 0x1000 + w / 0x80 % 2 * 0x800 + w / 0x200_0000 % 64 * 0x20 + w / 0x100 % 16 * 2, 0x1000)
  }

  function ImmU(w: int): int { w / 0x1000 * 0x1000 }

  function ImmJ(w: int): int {
    Sign(w / 0x8000_0000 * 0x10_0000 + w / 0x1000 % 256 * 0x1000 + w / 0x10_0000 % 2 * 0x800 + w / 0x20_0000 % 1024 * 2,
         0x10_0000)
  }

  function RegisterOp(f3: int, f7: int): Option<AluOp> {
    if f7 == 0x00 then
      if f3 == 0 then Some(Add) else if f3 == 1 then Some(Sll) else if f3 == 2 then Some(Slt)
      else if f3 == 3 then Some(Sltu) else if f3 == 4 then Some(BitXor) else if f3 == 5 then Some(Srl)
      else if f3 == 6 then Some(BitOr) else if f3 == 7 then Some(BitAnd) else None
    else if f7 == 0x20 then
      if f3 == 0 then Some(Sub) else if f3 == 5 then Some(Sra) else None
    else None
  }

  /** Shifts take their amount from the rs2 field and keep the R-type meaning of funct7. */
  function ImmediateOp(f3: int, f7: int): Option<AluOp> {
    if f3 == 1 || f3 == 5 then RegisterOp(f3, f7) else RegisterOp(f3, 0)
  }

  function CondOf(f3: int): Option<Cond> {
    if f3 == 0 then Some(Eq) else if f3 == 1 then Some(Ne) else if f3 == 4 then Some(Lt)
    else if f3 == 5 then Some(Ge) else if f3 == 6 then Some(Ltu) else if f3 == 7 then Some(Geu) else None
  }

  function LoadWidth(f3: int): Option<Width> {
    if f3 == 0 then Some(Byte) else if f3 == 1 then Some(Half) else if f3 == 2 then Some(Word)
    else if f3 == 4 then Some(ByteU) else if f3 == 5 then Some(HalfU) else None
  }

  function StoreWidth(f3: int): Option<Width> {
    if f3 == 0 then Some(Byte) else if f3 == 1 then Some(Half) else if f3 == 2 then Some(Word) else None
  }

  function Decode(w: word): Instr {
    var f3, f7 := Funct3(w), Funct7(w);
    var opcode := Opcode(w);
    if opcode == 0x33 then
      (match RegisterOp(f3, f7) case Some(op) => Alu(op, Rd(w), Rs1(w), Rs2(w)) case None => Other)
    else if opcode == 0x13 then
      (match ImmediateOp(f3, f7)
       case Some(op) => AluImm(op, Rd(w), Rs1(w), if f3 == 1 || f3 == 5 then Rs2(w) else ImmI(w))
       case None => Other)
    else if opcode == 0x03 then
      (match LoadWidth(f3) case Some(n) => Load(n, Rd(w), Rs1(w), ImmI(w)) case None => Other)
    else if opcode == 0x23 then
      (match StoreWidth(f3) case Some(n) => Store(n, Rs1(w), Rs2(w), ImmS(w)) case None => Other)
    else if opcode == 0x63 then
      (match CondOf(f3) case Some(c) => Branch(c, Rs1(w), Rs2(w), ImmB(w)) case None => Other)
    else if opcode == 0x37 then Lui(Rd(w), ImmU(w))
    else if opcode == 0x17 then Auipc(Rd(w), ImmU(w))
    else if opcode == 0x6F then Jal(Rd(w), ImmJ(w))
    else if opcode == 0x67 && f3 == 0 then Jalr(Rd(w), Rs1(w), ImmI(w))
    else Other
  }

  // ----- execution

  function Logic(g: Gate, a: word, b: word): word {
    Powers();
    Bounded(g, a, b, 32);
    Bitwise(g, a, b)
  }

  /** Section 2.4; shift amounts are the low five bits of the second operand. */
  function Compute(op: AluOp, a: word, b: word): word {
    match op
    case Add => Wrap(a + b)
    case Sub => Wrap(a - b)
    case Sll => Wrap(a * Pow2(b % 32))
    case Slt => Unit(Signed(a) < Signed(b))
    case Sltu => Unit(a < b)
    case BitXor => Logic(XOR, a, b)
    case Srl => Wrap(a / Pow2(b % 32))
    case Sra => Wrap(Signed(a) / Pow2(b % 32))
    case BitOr => Logic(OR, a, b)
    case BitAnd => Logic(AND, a, b)
  }

  predicate Taken(c: Cond, a: word, b: word) {
    match c
    case Eq => a == b
    case Ne => a != b
    case Lt => Signed(a) < Signed(b)
    case Ge => Signed(a) >= Signed(b)
    case Ltu => a < b
    case Geu => a >= b
  }

  /** Memory maps word indices (byte address / 4) to words; a missing index reads as zero. */
  type Memory = map<int, word>

  function Read(m: Memory, index: int): word { if index in m then m[index] else 0 }

  type Regs = x: seq<word> | |x| == 32 && x[0] == 0 witness seq(32, _ => 0)

  datatype State = State(pc: word, x: Regs, mem: Memory)

  function SetReg(x: Regs, rd: reg, v: word): Regs { if rd == 0 then x else x[rd := v] }

  /** What executing one instruction does: a next state and the retirement it reports. */
  datatype Step = Next(state: State, record: Record) | Stuck

  function WriteBack(s: State, insn: word, rd: reg, v: word, pc: word): Step {
    Next(State(pc, SetReg(s.x, rd, v), s.mem), Record(s.pc, insn, rd, if rd == 0 then 0 else v))
  }

  /**
    One instruction at `s.pc`.  Byte and halfword accesses, misaligned accesses and targets, and
    everything outside RV32I's integer, control transfer and word memory instructions are `Stuck`.
   */
  function Execute(i: Instr, insn: word, s: State): Step {
    var next := Wrap(s.pc + 4);
    match i
    case Alu(op, rd, rs1, rs2) => WriteBack(s, insn, rd, Compute(op, s.x[rs1], s.x[rs2]), next)
    case AluImm(op, rd, rs1, imm) => WriteBack(s, insn, rd, Compute(op, s.x[rs1], Wrap(imm)), next)
    case Lui(rd, upper) => WriteBack(s, insn, rd, Wrap(upper), next)
    case Auipc(rd, upper) => WriteBack(s, insn, rd, Wrap(s.pc + upper), next)
    case Jal(rd, imm) =>
      var target := Wrap(s.pc + imm);
      if target % 4 == 0 then WriteBack(s, insn, rd, next, target) else Stuck
    case Jalr(rd, rs1, imm) =>
      var target := Wrap(s.x[rs1] + imm) / 2 * 2;
      if target % 4 == 0 then WriteBack(s, insn, rd, next, target) else Stuck
    case Branch(c, rs1, rs2, imm) =>
      var target := if Taken(c, s.x[rs1], s.x[rs2]) then Wrap(s.pc + imm) else next;
      if target % 4 == 0 then Next(s.(pc := target), Record(s.pc, insn, 0, 0)) else Stuck
    case Load(Word, rd, rs1, imm) =>
      var address := Wrap(s.x[rs1] + imm);
      if address % 4 == 0 then WriteBack(s, insn, rd, Read(s.mem, address / 4), next) else Stuck
    case Store(Word, rs1, rs2, imm) =>
      var address := Wrap(s.x[rs1] + imm);
      if address % 4 == 0 then
        Next(State(next, s.x, s.mem[address / 4 := s.x[rs2]]), Record(s.pc, insn, 0, 0))
      else Stuck
    case _ => Stuck
  }

  /** Fetch, decode, execute: instructions and data share one memory. */
  function Cycle(s: State): Step {
    var insn := Read(s.mem, s.pc / 4);
    if s.pc % 4 == 0 then Execute(Decode(insn), insn, s) else Stuck
  }
}
