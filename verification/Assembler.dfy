/**
  tools/asm.py: the two-pass assembler, on lines that are already split into a label and an
  operation with resolved register names.
 */
module Assembler {
  import opened Options
  import opened Bits
  import opened Rv32i
  import opened Encode

  /** An operand as written, and its value when it also reads as a number. */
  datatype Token = Token(text: string, number: Option<int>)

  datatype Fixed = Nop | Halt | Ecall | Ebreak | Mret | Fence | FenceI

  datatype Op =
    | RegOp(op: AluOp, rd: reg, rs1: reg, rs2: reg)
    | ImmOp(op: AluOp, rd: reg, rs1: reg, imm: Token)
    | LoadOp(width: Width, rd: reg, imm: Token, rs1: reg)
    | StoreOp(swidth: Width, rs2: reg, imm: Token, rs1: reg)
    | BranchOp(cond: Cond, rs1: reg, rs2: reg, target: Token)
    | LuiOp(rd: reg, imm: Token)
    | AuipcOp(rd: reg, imm: Token)
    | JalOp(rd: reg, target: Token)
    | JalrOp(rd: reg, rs1: reg, imm: Token)
    | FixedOp(fixed: Fixed)
    | Ret
    | La(rd: reg, name: string)
    | Tohost(code: Option<Token>)
    | WordOp(value: Token)
    | Fill(count: Token)
    | CsrOp(f3: int, rd: reg, csr: Token, source: int)
    | Unknown

  datatype Line = Line(mark: Option<string>, op: Option<Op>)

  type Labels = map<string, int>

  // ----- encoding tables

  function Funct(op: AluOp): (int, int) {
    match op
    case Add => (0, 0x00)
    case Sub => (0, 0x20)
    case Sll => (1, 0x00)
    case Slt => (2, 0x00)
    case Sltu => (3, 0x00)
    case BitXor => (4, 0x00)
    case Srl => (5, 0x00)
    case Sra => (5, 0x20)
    case BitOr => (6, 0x00)
    case BitAnd => (7, 0x00)
  }

  function BranchFunct(c: Cond): int {
    match c case Eq => 0 case Ne => 1 case Lt => 4 case Ge => 5 case Ltu => 6 case Geu => 7
  }

  function WidthFunct(w: Width): int {
    match w case Byte => 0 case Half => 1 case Word => 2 case ByteU => 4 case HalfU => 5
  }

  function FixedWord(f: Fixed): int {
    match f
    case Nop => 0x0000_0013
    case Halt => 0x0000_006F
    case Ecall => 0x0000_0073
    case Ebreak => 0x0010_0073
    case Mret => 0x3020_0073
    case Fence => 0x0FF0_000F
    case FenceI => 0x0000_100F
  }

  // ----- label pass

  /** `op_words`: the number of words the label pass reserves, `None` for an unreadable count. */
  function Reserved(op: Op): Option<int> {
    match op
    case Fill(count) => count.number
    case La(_, _) => Some(2)
    case Tohost(_) => Some(4)
    case _ => Some(1)
  }

  predicate Sized(line: Line) { line.op.Some? ==> Reserved(line.op.value).Some? }

  function LineWords(line: Line): int
    requires Sized(line)
  {
    if line.op.Some? then Reserved(line.op.value).value else 0
  }

  predicate AllSized(lines: seq<Line>) { forall line <- lines :: Sized(line) }

  /** The address the label pass has reached before line `i`. */
  function Address(lines: seq<Line>, i: nat): int
    requires i <= |lines| && AllSized(lines)
  {
    if i == 0 then 0 else Address(lines, i - 1) + 4 * LineWords(lines[i - 1])
  }

  /** The label table after the first `i` lines; a later definition replaces an earlier one. */
  function LabelsOf(lines: seq<Line>, i: nat): Labels
    requires i <= |lines| && AllSized(lines)
  {
    if i == 0 then map[]
    else
      var before := LabelsOf(lines, i - 1);
      if lines[i - 1].mark.Some? then before[lines[i - 1].mark.value := Address(lines, i - 1)] else before
  }

  // ----- emission

  /** `iv`: a label is an offset from the instruction, anything else has to be a number. */
  function Value(t: Token, pc: int, labels: Labels): Option<int> {
    if t.text in labels then Some(labels[t.text] - pc) else t.number
  }

  /** `tohost N`: store N where the testbench watches. */
  function TohostWords(code: int): seq<int> {
    [IType(31, 0, code, 0, 0x13), UType(30, 0x10, 0x37), IType(30, 30, -16, 0, 0x13), SType(30, 31, 0, 2)]
  }

  function With(v: Option<int>, f: int -> int): Option<seq<int>> {
    if v.Some? then Some([f(v.value)]) else None
  }

  /** The words emitted for one operation at `pc`; `None` when the assembler raises. */
  function EmitOp(op: Op, pc: int, labels: Labels): Option<seq<int>> {
    match op
    case RegOp(alu, rd, rs1, rs2) => Some([RType(rd, rs1, rs2, Funct(alu).0, Funct(alu).1)])
    case ImmOp(alu, rd, rs1, imm) =>
      if alu == Sub then None
      else if alu == Sll || alu == Srl then
        With(Value(imm, pc, labels), v => IType(rd, rs1, And(v, 0x1F), Funct(alu).0, 0x13))
      else if alu == Sra then
        With(Value(imm, pc, labels), v => IType(rd, rs1, Or(0x400, And(v, 0x1F)), 5, 0x13))
      else
        With(Value(imm, pc, labels), v => IType(rd, rs1, And(v, 0xFFF), Funct(alu).0, 0x13))
    case LoadOp(width, rd, imm, rs1) =>
      With(Value(imm, pc, labels), v => IType(rd, rs1, And(v, 0xFFF), WidthFunct(width), 0x03))
    case StoreOp(width, rs2, imm, rs1) =>
      if width == ByteU || width == HalfU then None
      else With(Value(imm, pc, labels), v => SType(rs1, rs2, v, WidthFunct(width)))
    case BranchOp(c, rs1, rs2, target) =>
      With(Value(target, pc, labels), v => BType(rs1, rs2, v, BranchFunct(c)))
    case LuiOp(rd, imm) => With(Value(imm, pc, labels), v => UType(rd, v, 0x37))
    case AuipcOp(rd, imm) => With(Value(imm, pc, labels), v => UType(rd, v, 0x17))
    case JalOp(rd, target) => With(Value(target, pc, labels), v => JType(rd, v))
    case JalrOp(rd, rs1, imm) => With(Value(imm, pc, labels), v => IType(rd, rs1, And(v, 0xFFF), 0, 0x67))
    case FixedOp(fixed) => Some([FixedWord(fixed)])
    case Ret => Some([IType(0, 1, 0, 0, 0x67)])
    case La(rd, name) =>
      if name in labels then
        Some([UType(rd, 0, 0x17), IType(rd, rd, And(labels[name] - pc, 0xFFF), 0, 0x13)])
      else None
    case Tohost(code) =>
      if code.None? then Some(TohostWords(1))
      else if code.value.number.Some? then Some(TohostWords(code.value.number.value)) else None
    case WordOp(value) => With(value.number, v => And(v, 0xFFFF_FFFF))
    case Fill(count) =>
      if count.number.None? then None
      else Some(seq(if count.number.value < 0 then 0 else count.number.value, _ => 0x0000_0013))
    case CsrOp(f3, rd, csr, source) =>
      With(csr.number, v =>
        Or(Or(Or(Or(Shl(And(v, 0xFFF), 20), Shl(And(source, 0x1F), 15)), Shl(f3, 12)), Shl(rd, 7)), 0x73))
    case Unknown => None
  }

  /** The words emitted for the first `i` lines. */
  function Emitted(lines: seq<Line>, i: nat, labels: Labels): Option<seq<int>>
    requires i <= |lines| && AllSized(lines)
  {
    if i == 0 then Some([])
    else
      var before := Emitted(lines, i - 1, labels);
      if before.None? || lines[i - 1].op.None? then before
      else
        var words := EmitOp(lines[i - 1].op.value, Address(lines, i - 1), labels);
        if words.None? then None else Some(before.value + words.value)
  }

  function Assembled(lines: seq<Line>): Option<seq<int>> {
    if AllSized(lines) then Emitted(lines, |lines|, LabelsOf(lines, |lines|)) else None
  }

  /** The operations of the first `i` lines with the addresses the label pass gives them. */
  ghost function Placed(lines: seq<Line>, i: nat): seq<(int, Op)>
    requires i <= |lines| && AllSized(lines)
  {
    if i == 0 then []
    else Placed(lines, i - 1) + if lines[i - 1].op.Some? then [(Address(lines, i - 1), lines[i - 1].op.value)] else []
  }

  ghost function EmittedFrom(instrs: seq<(int, Op)>, i: nat, labels: Labels): Option<seq<int>>
    requires i <= |instrs|
  {
    if i == 0 then Some([])
    else
      var before := EmittedFrom(instrs, i - 1, labels);
      var words := EmitOp(instrs[i - 1].1, instrs[i - 1].0, labels);
      if before.None? || words.None? then None else Some(before.value + words.value)
  }

  lemma {:induction false} EmittedFromPrefix(instrs: seq<(int, Op)>, more: seq<(int, Op)>, i: nat, labels: Labels)
    requires i <= |instrs|
    ensures EmittedFrom(instrs + more, i, labels) == EmittedFrom(instrs, i, labels)
  {
    hide EmitOp;
    if i > 0 {
      EmittedFromPrefix(instrs, more, i - 1, labels);
    }
  }

  lemma {:induction false} EmittedFromPlaced(lines: seq<Line>, i: nat, labels: Labels)
    requires i <= |lines| && AllSized(lines)
    ensures EmittedFrom(Placed(lines, i), |Placed(lines, i)|, labels) == Emitted(lines, i, labels)
  {
    hide EmitOp;
    if i > 0 {
      EmittedFromPlaced(lines, i - 1, labels);
      if lines[i - 1].op.Some? {
        var before := Placed(lines, i - 1);
        EmittedFromPrefix(before, [(Address(lines, i - 1), lines[i - 1].op.value)], |before|, labels);
      } else {
        assert Placed(lines, i) == Placed(lines, i - 1);
      }
    }
  }

  lemma {:induction false} FailsOnce(instrs: seq<(int, Op)>, i: nat, j: nat, labels: Labels)
    requires i <= j <= |instrs| && EmittedFrom(instrs, i, labels).None?
    ensures EmittedFrom(instrs, j, labels).None?
    decreases j
  {
    hide EmitOp;
    if i < j {
      FailsOnce(instrs, i, j - 1, labels);
    }
  }

  method Assemble(lines: seq<Line>) returns (r: Option<seq<int>>)
    ensures r == Assembled(lines)
  {
    hide EmitOp;
    var labels: Labels := map[];
    var instrs: seq<(int, Op)> := [];
    var addr := 0;
    for i := 0 to |lines|
      invariant AllSized(lines[..i])
      invariant AllSized(lines) ==> addr == Address(lines, i)
      invariant AllSized(lines) ==> labels == LabelsOf(lines, i) && instrs == Placed(lines, i)
    {
      var line := lines[i];
      assert line in lines;
      if line.mark.Some? {
        labels := labels[line.mark.value := addr];
      }
      if line.op.Some? {
        var size := Reserved(line.op.value);
        if size.None? {
          return None;
        }
        instrs := instrs + [(addr, line.op.value)];
        addr := addr + 4 * size.value;
      }
    }
    assert lines[..|lines|] == lines;
    EmittedFromPlaced(lines, |lines|, labels);
    var words: seq<int> := [];
    for k := 0 to |instrs|
      invariant EmittedFrom(instrs, k, labels) == Some(words)
    {
      var (pc, op) := instrs[k];
      var emitted := EmitOp(op, pc, labels);
      if emitted.None? {
        FailsOnce(instrs, k + 1, |instrs|, labels);
        return None;
      }
      words := words + emitted.value;
    }
    r := Some(words);
  }

  // ----- the two passes agree

  predicate NegativeFill(line: Line) {
    line.op.Some? && line.op.value.Fill? && line.op.value.count.number.Some? && line.op.value.count.number.value < 0
  }

  /** An operation emits exactly the words reserved for it, except that a negative fill emits none. */
  lemma EmitsReserved(line: Line, pc: int, labels: Labels)
    requires Sized(line) && line.op.Some? && EmitOp(line.op.value, pc, labels).Some?
    ensures |EmitOp(line.op.value, pc, labels).value| == if NegativeFill(line) then 0 else LineWords(line)
    ensures NegativeFill(line) <==> LineWords(line) < 0
  {
    hide Bits.Bitwise, RType, IType, SType, BType, UType, JType;
  }

  lemma {:induction false} PrefixEmits(lines: seq<Line>, i: nat, j: nat, labels: Labels)
    requires i <= j <= |lines| && AllSized(lines) && Emitted(lines, j, labels).Some?
    ensures Emitted(lines, i, labels).Some?
    ensures Emitted(lines, i, labels).value <= Emitted(lines, j, labels).value
    decreases j
  {
    hide EmitOp;
    if i < j {
      PrefixEmits(lines, i, j - 1, labels);
    }
  }

  ghost predicate NoNegativeFill(lines: seq<Line>, i: nat)
    requires i <= |lines|
  {
    forall j :: 0 <= j < i ==> !NegativeFill(lines[j])
  }

  /** How far the addresses have fallen behind the emitted words after `i` lines. */
  lemma {:induction false} Drift(lines: seq<Line>, i: nat, labels: Labels)
    requires i <= |lines| && AllSized(lines) && Emitted(lines, i, labels).Some?
    ensures Address(lines, i) <= 4 * |Emitted(lines, i, labels).value|
    ensures Address(lines, i) == 4 * |Emitted(lines, i, labels).value| <==> NoNegativeFill(lines, i)
  {
    hide EmitOp;
    if i > 0 {
      PrefixEmits(lines, i - 1, i, labels);
      Drift(lines, i - 1, labels);
      if lines[i - 1].op.Some? {
        EmitsReserved(lines[i - 1], Address(lines, i - 1), labels);
      }
    }
  }

  /**
    The label pass and the emission pass lay out the same program if and only if no `.fill` count is
    negative: then the words emitted for the lines before line i end exactly at its address.
   */
  lemma PassesAgree(lines: seq<Line>)
    requires Assembled(lines).Some?
    ensures var labels := LabelsOf(lines, |lines|);
      (forall i :: 0 <= i <= |lines| ==>
         Emitted(lines, i, labels).Some? && Address(lines, i) == 4 * |Emitted(lines, i, labels).value|)
      <==> (forall line <- lines :: !NegativeFill(line))
  {
    hide EmitOp, NegativeFill;
    var labels := LabelsOf(lines, |lines|);
    forall i | 0 <= i <= |lines|
      ensures Emitted(lines, i, labels).Some?
      ensures Address(lines, i) == 4 * |Emitted(lines, i, labels).value|
         <==> NoNegativeFill(lines, i)
    {
      PrefixEmits(lines, i, |lines|, labels);
      Drift(lines, i, labels);
    }
    assert Address(lines, |lines|) == 4 * |Emitted(lines, |lines|, labels).value| <==> NoNegativeFill(lines, |lines|);
    assert NoNegativeFill(lines, |lines|) ==> forall i :: 0 <= i <= |lines| ==> NoNegativeFill(lines, i);
  }

  /** The source assembles and no fill count is negative. */
  ghost predicate Accepted(lines: seq<Line>) {
    Assembled(lines).Some? && NoNegativeFill(lines, |lines|)
  }

  predicate Has(lines: seq<Line>, i: nat, op: Op) { i < |lines| && lines[i].op == Some(op) }

  /** Line `i` of an accepted source: its words stand at index address / 4. */
  lemma LineIsAtItsAddress(lines: seq<Line>, i: nat, op: Op) returns (emitted: seq<int>)
    requires Accepted(lines) && Has(lines, i, op)
    ensures EmitOp(op, Address(lines, i), LabelsOf(lines, |lines|)) == Some(emitted)
    ensures StandsAt(Assembled(lines).value, Address(lines, i), emitted)
  {
    hide EmitOp;
    var words := Assembled(lines).value;
    var labels := LabelsOf(lines, |lines|);
    PrefixEmits(lines, i, |lines|, labels);
    PrefixEmits(lines, i + 1, |lines|, labels);
    Drift(lines, i, labels);
    emitted := EmitOp(op, Address(lines, i), labels).value;
    MiddlePart(Emitted(lines, i, labels).value, emitted, words);
  }

  lemma MiddlePart(before: seq<int>, part: seq<int>, words: seq<int>)
    requires before + part <= words
    ensures |before| + |part| <= |words| && words[|before|..|before| + |part|] == part
  {
    assert words[..|before + part|] == before + part;
  }

  /** `part` is the run of words at byte address `address`. */
  predicate StandsAt(words: seq<int>, address: int, part: seq<int>) {
    && address % 4 == 0
    && 0 <= address / 4 <= address / 4 + |part| <= |words|
    && words[address / 4..address / 4 + |part|] == part
  }

  /** A label is the address of the line of its last definition. */
  lemma {:induction false} LabelIsLastDefinition(lines: seq<Line>, i: nat, name: string) returns (j: nat)
    requires i <= |lines| && AllSized(lines) && name in LabelsOf(lines, i)
    ensures j < i && lines[j].mark == Some(name) && LabelsOf(lines, i)[name] == Address(lines, j)
    ensures forall k :: j < k < i ==> lines[k].mark != Some(name)
  {
    if lines[i - 1].mark == Some(name) {
      j := i - 1;
    } else {
      j := LabelIsLastDefinition(lines, i - 1, name);
    }
  }

  // ----- which sources are refused

  /** The label pass knows exactly the marks of the lines it has seen. */
  lemma {:induction false} LabelsAreMarks(lines: seq<Line>, i: nat, name: string)
    requires i <= |lines| && AllSized(lines)
    ensures name in LabelsOf(lines, i) <==> exists j :: 0 <= j < i && lines[j].mark == Some(name)
  {
    if i > 0 {
      LabelsAreMarks(lines, i - 1, name);
      assert lines[i - 1].mark == Some(name) ==> name in LabelsOf(lines, i);
    }
  }

  /** What the assembler cannot encode, given the names that are labels. */
  ghost predicate Refused(op: Op, isLabel: string -> bool) {
    match op
    case ImmOp(alu, _, _, t) => alu == Sub || (!isLabel(t.text) && t.number.None?)
    case StoreOp(width, _, t, _) => width in {ByteU, HalfU} || (!isLabel(t.text) && t.number.None?)
    case LoadOp(_, _, t, _) => !isLabel(t.text) && t.number.None?
    case BranchOp(_, _, _, t) => !isLabel(t.text) && t.number.None?
    case LuiOp(_, t) => !isLabel(t.text) && t.number.None?
    case AuipcOp(_, t) => !isLabel(t.text) && t.number.None?
    case JalOp(_, t) => !isLabel(t.text) && t.number.None?
    case JalrOp(_, _, t) => !isLabel(t.text) && t.number.None?
    case La(_, name) => !isLabel(name)
    case Tohost(code) => code.Some? && code.value.number.None?
    case WordOp(t) => t.number.None?
    case Fill(t) => t.number.None?
    case CsrOp(_, _, t, _) => t.number.None?
    case Unknown => true
    case _ => false
  }

  lemma RefusesOperation(op: Op, pc: int, labels: Labels)
    ensures EmitOp(op, pc, labels).None? <==> Refused(op, name => name in labels)
  {
    hide Bits.Bitwise, RType, IType, SType, BType, UType, JType;
  }

  ghost predicate SomeRefused(lines: seq<Line>, i: nat, isLabel: string -> bool)
    requires i <= |lines|
  {
    exists j :: 0 <= j < i && lines[j].op.Some? && Refused(lines[j].op.value, isLabel)
  }

  lemma {:induction false} EmitsUntilRefused(lines: seq<Line>, i: nat, labels: Labels)
    requires i <= |lines| && AllSized(lines)
    ensures Emitted(lines, i, labels).None? <==> SomeRefused(lines, i, name => name in labels)
  {
    hide EmitOp, Refused;
    if i > 0 {
      var isLabel := name => name in labels;
      EmitsUntilRefused(lines, i - 1, labels);
      if lines[i - 1].op.Some? {
        RefusesOperation(lines[i - 1].op.value, Address(lines, i - 1), labels);
      }
      assert SomeRefused(lines, i, isLabel)
        <==> SomeRefused(lines, i - 1, isLabel) || (lines[i - 1].op.Some? && Refused(lines[i - 1].op.value, isLabel));
    }
  }

  lemma RefusedByNames(op: Op, f: string -> bool, g: string -> bool)
    requires forall name :: f(name) == g(name)
    ensures Refused(op, f) == Refused(op, g)
  {
  }

  /** A source is refused exactly if some line holds an operation that cannot be encoded. */
  lemma RefusesExactly(lines: seq<Line>)
    ensures Assembled(lines).None? <==>
      SomeRefused(lines, |lines|, name => exists j :: 0 <= j < |lines| && lines[j].mark == Some(name))
  {
    hide Emitted, LabelsOf, Refused;
    var isMark := name => exists j :: 0 <= j < |lines| && lines[j].mark == Some(name);
    if AllSized(lines) {
      var labels := LabelsOf(lines, |lines|);
      forall name: string ensures isMark(name) == (name in labels) {
        LabelsAreMarks(lines, |lines|, name);
      }
      forall op: Op ensures Refused(op, isMark) == Refused(op, name => name in labels) {
        RefusedByNames(op, isMark, name => name in labels);
      }
      EmitsUntilRefused(lines, |lines|, labels);
    } else {
      UnsizedIsRefused(lines, isMark);
    }
  }

  lemma UnsizedIsRefused(lines: seq<Line>, isLabel: string -> bool)
    requires !AllSized(lines)
    ensures SomeRefused(lines, |lines|, isLabel)
  {
    var j :| 0 <= j < |lines| && !Sized(lines[j]);
    assert Refused(lines[j].op.value, isLabel);
  }

  // ----- every operation means what it says

  /** The instruction an operation names, its operand having the value `v`. */
  function Meaning(op: Op, v: int): Option<Instr> {
    match op
    case RegOp(alu, rd, rs1, rs2) => Some(Alu(alu, rd, rs1, rs2))
    case ImmOp(alu, rd, rs1, _) =>
      if alu == Sub then None
      else Some(AluImm(alu, rd, rs1, if alu == Sll || alu == Srl || alu == Sra then v % 32 else Truncated(v, 0x800)))
    case LoadOp(width, rd, _, rs1) => Some(Load(width, rd, rs1, Truncated(v, 0x800)))
    case StoreOp(width, rs2, _, rs1) =>
      if width == ByteU || width == HalfU then None else Some(Store(width, rs1, rs2, Truncated(v, 0x800)))
    case BranchOp(c, rs1, rs2, _) => Some(Branch(c, rs1, rs2, Truncated(v / 2 * 2, 0x1000)))
    case LuiOp(rd, _) => Some(Lui(rd, v % 0x10_0000 * 0x1000))
    case AuipcOp(rd, _) => Some(Auipc(rd, v % 0x10_0000 * 0x1000))
    case JalOp(rd, _) => Some(Jal(rd, Truncated(v / 2 * 2, 0x10_0000)))
    case JalrOp(rd, rs1, _) => Some(Jalr(rd, rs1, Truncated(v, 0x800)))
    case FixedOp(fixed) =>
      if fixed == Nop then Some(AluImm(Add, 0, 0, 0)) else if fixed == Halt then Some(Jal(0, 0)) else None
    case Ret => Some(Jalr(0, 1, 0))
    case _ => None
  }

  function OperandOf(op: Op): Option<Token> {
    match op
    case ImmOp(_, _, _, t) => Some(t)
    case LoadOp(_, _, t, _) => Some(t)
    case StoreOp(_, _, t, _) => Some(t)
    case BranchOp(_, _, _, t) => Some(t)
    case LuiOp(_, t) => Some(t)
    case AuipcOp(_, t) => Some(t)
    case JalOp(_, t) => Some(t)
    case JalrOp(_, _, t) => Some(t)
    case _ => None
  }

  lemma TruncationIsStable(v: int)
    ensures Truncated(v % 0x1000, 0x800) == Truncated(v, 0x800)
  {
  }

  lemma ImmOpDecodes(op: AluOp, rd: reg, rs1: reg, v: int) returns (w: word)
    requires op != Sub
    ensures w == IType(rd, rs1, if op == Sll || op == Srl then And(v, 0x1F)
                                else if op == Sra then Or(0x400, And(v, 0x1F)) else And(v, 0xFFF), Funct(op).0, 0x13)
    ensures Decode(w) == Meaning(ImmOp(op, rd, rs1, Token("", None)), v).value
  {
    hide Bits.Bitwise, IType, Decode, Truncated, And, Or, Pow2, Shl;
    Powers();
    Mask(v, 5);
    Mask(v, 12);
    if op == Sll || op == Srl {
      w := DecodeShift(rd, rs1, Funct(op).0, 0, v % 32);
    } else if op == Sra {
      OrField(1, 0x400, v % 32, 10);
      w := DecodeShift(rd, rs1, 5, 0x20, v % 32);
    } else {
      TruncationIsStable(v);
      w := DecodeArithmetic(rd, rs1, v % 0x1000, Funct(op).0);
    }
  }

  lemma OtherITypesDecode(rd: reg, rs1: reg, v: int, width: Width)
    ensures var w := IType(rd, rs1, And(v, 0xFFF), WidthFunct(width), 0x03);
      0 <= w < WORD && Decode(w) == Load(width, rd, rs1, Truncated(v, 0x800))
    ensures var w := IType(rd, rs1, And(v, 0xFFF), 0, 0x67);
      0 <= w < WORD && Decode(w) == Jalr(rd, rs1, Truncated(v, 0x800))
  {
    hide Bits.Bitwise, IType;
    Powers();
    Mask(v, 12);
    DecodeIType(rd, rs1, v % 0x1000, WidthFunct(width), 0x03);
    DecodeIType(rd, rs1, v % 0x1000, 0, 0x67);
    TruncationIsStable(v);
  }

  /**
    Every operation that names an instruction is emitted as one word that decodes to it.  An operand
    is worth the distance to its label where it is one, and the number it reads as otherwise.
   */
  lemma OperationsDecode(op: Op, v: int, pc: int, labels: Labels) returns (w: word)
    requires Meaning(op, v).Some?
    requires OperandOf(op).Some? ==>
      var t := OperandOf(op).value;
      if t.text in labels then v == labels[t.text] - pc else t.number == Some(v)
    ensures EmitOp(op, pc, labels) == Some([w])
    ensures Decode(w) == Meaning(op, v).value
  {
    hide Bits.Bitwise, RType, IType, SType, BType, UType, JType, Decode, Truncated;
    match op {
    case RegOp(alu, rd, rs1, rs2) => DecodeRType(rd, rs1, rs2, Funct(alu).0, Funct(alu).1);
    case ImmOp(alu, rd, rs1, _) => w := ImmOpDecodes(alu, rd, rs1, v);
    case LoadOp(width, rd, _, rs1) => OtherITypesDecode(rd, rs1, v, width);
    case StoreOp(width, rs2, _, rs1) => DecodeSType(rs1, rs2, v, WidthFunct(width));
    case BranchOp(c, rs1, rs2, _) => DecodeBType(rs1, rs2, v, BranchFunct(c));
    case LuiOp(rd, _) => DecodeUType(rd, v, 0x37);
    case AuipcOp(rd, _) => DecodeUType(rd, v, 0x17);
    case JalOp(rd, _) => DecodeJType(rd, v);
    case JalrOp(rd, rs1, _) => OtherITypesDecode(rd, rs1, v, Word);
    case FixedOp(fixed) => FixedWordsDecode();
    case Ret => var _ := RetDecodes();
    }
    w := EmitOp(op, pc, labels).value[0];
  }

  /**
    The word at the address of an instruction's line decodes to that instruction, its operand being
    the distance to the last line marked with its name, or its number if there is no such line.
   */
  lemma LinesDecode(lines: seq<Line>, i: nat, op: Op, v: int) returns (w: word)
    requires Accepted(lines) && Has(lines, i, op) && Meaning(op, v).Some?
    requires OperandOf(op).Some? ==>
      var t := OperandOf(op).value;
      if exists j :: LastMark(lines, j, t.text)
      then exists j :: LastMark(lines, j, t.text) && v == Address(lines, j) - Address(lines, i)
      else t.number == Some(v)
    ensures StandsAt(Assembled(lines).value, Address(lines, i), [w])
    ensures Decode(w) == Meaning(op, v).value
  {
    hide Emitted, EmitOp, LabelsOf, Decode, Meaning, StandsAt, NoNegativeFill, Address;
    var labels := LabelsOf(lines, |lines|);
    if OperandOf(op).Some? {
      OperandIsLabel(lines, OperandOf(op).value.text);
    }
    w := OperationsDecode(op, v, Address(lines, i), labels);
    var emitted := LineIsAtItsAddress(lines, i, op);
  }

  /** Line `j` is the last one marked `name`. */
  ghost predicate LastMark(lines: seq<Line>, j: nat, name: string) {
    j < |lines| && lines[j].mark == Some(name) && forall k :: j < k < |lines| ==> lines[k].mark != Some(name)
  }

  lemma OperandIsLabel(lines: seq<Line>, name: string)
    requires AllSized(lines)
    ensures name in LabelsOf(lines, |lines|) <==> exists j :: LastMark(lines, j, name)
    ensures forall j :: LastMark(lines, j, name) ==>
      name in LabelsOf(lines, |lines|) && LabelsOf(lines, |lines|)[name] == Address(lines, j)
  {
    hide LabelsOf, Address;
    LabelsAreMarks(lines, |lines|, name);
    if name in LabelsOf(lines, |lines|) {
      var j := LabelIsLastDefinition(lines, |lines|, name);
      assert LastMark(lines, j, name);
    }
  }

  lemma FixedWordsDecode()
    ensures Decode(0x0000_0013) == AluImm(Add, 0, 0, 0) && Decode(0x0000_006F) == Jal(0, 0)
  {
  }

  lemma RetDecodes() returns (w: word)
    ensures w == IType(0, 1, 0, 0, 0x67) && Decode(w) == Jalr(0, 1, 0)
  {
    hide Bits.Bitwise, IType;
    DecodeIType(0, 1, 0, 0, 0x67);
    w := IType(0, 1, 0, 0, 0x67);
  }

  /** A CSR instruction carries the CSR number, its source field and its destination in their places. */
  lemma CsrFields(op: Op, pc: int, labels: Labels) returns (w: word)
    requires op.CsrOp? && op.csr.number.Some? && 0 <= op.f3 < 8
    ensures EmitOp(op, pc, labels) == Some([w])
    ensures Opcode(w) == 0x73 && Rd(w) == op.rd && Funct3(w) == op.f3 && Rs1(w) == op.source % 32
    ensures w / 0x10_0000 == op.csr.number.value % 0x1000
  {
    hide Bits.Bitwise, Bits.Or, Shl;
    Powers();
    Mask(op.source, 5);
    DecodeIType(op.rd, op.source % 32, op.csr.number.value, op.f3, 0x73);
    w := IType(op.rd, op.source % 32, op.csr.number.value, op.f3, 0x73);
  }

  lemma WordEmits(op: Op, pc: int, labels: Labels)
    requires op.WordOp? && op.value.number.Some?
    ensures EmitOp(op, pc, labels) == Some([Wrap(op.value.number.value)])
  {
    hide Bits.Bitwise, And, Pow2;
    Powers();
    Mask(op.value.number.value, 32);
  }

  lemma FillEmits(op: Op, pc: int, labels: Labels)
    requires op.Fill? && op.count.number.Some?
    ensures var words := EmitOp(op, pc, labels);
      && words.Some? && |words.value| == (if op.count.number.value < 0 then 0 else op.count.number.value)
      && forall w <- words.value :: w == 0x13
  {
  }

  /** Data directives: a word modulo 2^32, and as many no-ops as counted. */
  lemma DataWords(op: Op, pc: int, labels: Labels)
    requires (op.WordOp? && op.value.number.Some?) || (op.Fill? && op.count.number.Some?)
    ensures op.WordOp? ==> EmitOp(op, pc, labels) == Some([Wrap(op.value.number.value)])
    ensures op.Fill? ==>
      var words := EmitOp(op, pc, labels);
      && words.Some? && |words.value| == (if op.count.number.value < 0 then 0 else op.count.number.value)
      && forall w <- words.value :: w == 0x13 && Decode(w) == AluImm(Add, 0, 0, 0)
  {
    hide EmitOp, Decode, Wrap;
    if op.WordOp? {
      WordEmits(op, pc, labels);
    } else {
      FillEmits(op, pc, labels);
      FixedWordsDecode();
    }
  }

  /** The system and fence words in the fields the ISA gives them. */
  lemma SystemWords(f: Fixed, pc: int, labels: Labels)
    ensures var w := FixedWord(f);
      && EmitOp(FixedOp(f), pc, labels) == Some([w]) && 0 <= w < WORD
      && (f in {Ecall, Ebreak, Mret} ==>
            Opcode(w) == 0x73 && Funct3(w) == 0 && Rd(w) == 0 && Rs1(w) == 0
            && w / 0x10_0000 == if f == Ecall then 0 else if f == Ebreak then 1 else 0x302)
      && (f in {Fence, FenceI} ==>
            Opcode(w) == 0x0F && Rd(w) == 0 && Rs1(w) == 0
            && Funct3(w) == (if f == Fence then 0 else 1) && w / 0x10_0000 == if f == Fence then 0xFF else 0)
  {
    hide Opcode, Rd, Rs1, Funct3;
    SystemFields(0x0000_0073, 0, 0, 0x73);
    SystemFields(0x0010_0073, 1, 0, 0x73);
    SystemFields(0x3020_0073, 0x302, 0, 0x73);
    SystemFields(0x0FF0_000F, 0xFF, 0, 0x0F);
    SystemFields(0x0000_100F, 0, 1, 0x0F);
  }

  lemma SystemFields(w: int, imm: int, f3: int, op: int)
    requires 0 <= imm < 0x1000 && 0 <= f3 < 8 && 0 <= op < 128 && w == imm * 0x10_0000 + f3 * 0x1000 + op
    ensures Opcode(w) == op && Funct3(w) == f3 && Rd(w) == 0 && Rs1(w) == 0 && w / 0x10_0000 == imm
  {
    Fields(w, op, 0, f3, 0, imm % 32, imm / 32);
    DivModUnique(w, 0x10_0000, imm, f3 * 0x1000 + op);
  }

  // ----- control flow reaches its label

  lemma TruncatedIsExact(v: int, half: int)
    requires half > 0
    ensures -half <= Truncated(v, half) < half
    ensures Truncated(v, half) == v <==> -half <= v < half
    ensures (Truncated(v, half) - v) % (2 * half) == 0
  {
    var m := 2 * half;
    assert v == v / m * m + v % m;
    if -half <= v < half {
      if v < 0 {
        DivModUnique(v, m, -1, v + m);
      } else {
        DivModUnique(v, m, 0, v);
      }
    }
    var q := if v % m >= half then -(v / m) - 1 else -(v / m);
    assert Truncated(v, half) - v == q * m + 0 by {
      assert q * m == -(v / m) * m - (if v % m >= half then m else 0);
    }
    DivModUnique(Truncated(v, half) - v, m, q, 0);
  }

  lemma {:induction false} AddressesAreAligned(lines: seq<Line>, i: nat)
    requires i <= |lines| && AllSized(lines)
    ensures Address(lines, i) % 4 == 0
  {
    if i > 0 {
      AddressesAreAligned(lines, i - 1);
    }
  }

  /** The signed 32-bit distance from the address of line `i` to a label. */
  function Distance(lines: seq<Line>, i: nat, name: string): int
    requires i <= |lines| && AllSized(lines) && name in LabelsOf(lines, |lines|)
  {
    LabelsOf(lines, |lines|)[name] - Address(lines, i)
  }

  lemma DistanceIsAligned(lines: seq<Line>, i: nat, name: string)
    requires i <= |lines| && AllSized(lines) && name in LabelsOf(lines, |lines|)
    ensures Distance(lines, i, name) % 4 == 0
  {
    var j := LabelIsLastDefinition(lines, |lines|, name);
    AddressesAreAligned(lines, i);
    AddressesAreAligned(lines, j);
  }

  /** `op` is line `i` and its operand names a label, `distance` bytes away. */
  ghost predicate Targets(lines: seq<Line>, i: nat, op: Op, name: string, distance: int) {
    && Accepted(lines) && Has(lines, i, op)
    && name in LabelsOf(lines, |lines|) && distance == Distance(lines, i, name)
  }

  lemma BranchEmits(op: Op, pc: int, labels: Labels)
    requires op.BranchOp? && op.target.text in labels
    ensures EmitOp(op, pc, labels) == Some([BType(op.rs1, op.rs2, labels[op.target.text] - pc, BranchFunct(op.cond))])
    ensures CondOf(BranchFunct(op.cond)) == Some(op.cond)
  {
    hide BType;
  }

  lemma JumpEmits(op: Op, pc: int, labels: Labels)
    requires op.JalOp? && op.target.text in labels
    ensures EmitOp(op, pc, labels) == Some([JType(op.rd, labels[op.target.text] - pc)])
  {
    hide JType;
  }

  lemma AlignedIsEven(v: int)
    requires v % 4 == 0
    ensures v / 2 * 2 == v
  {
    DivModUnique(v, 2, v / 4 * 2, 0);
  }

  lemma BranchOffset(rs1: reg, rs2: reg, c: Cond, distance: int) returns (w: word)
    requires distance % 4 == 0
    ensures w == BType(rs1, rs2, distance, BranchFunct(c))
    ensures Decode(w) == Branch(c, rs1, rs2, Truncated(distance, 0x1000))
  {
    hide BType, Decode, Truncated;
    AlignedIsEven(distance);
    DecodeBType(rs1, rs2, distance, BranchFunct(c));
    w := BType(rs1, rs2, distance, BranchFunct(c));
  }

  lemma JumpOffset(rd: reg, distance: int) returns (w: word)
    requires distance % 4 == 0
    ensures w == JType(rd, distance)
    ensures Decode(w) == Jal(rd, Truncated(distance, 0x10_0000))
  {
    hide JType, Decode, Truncated;
    AlignedIsEven(distance);
    DecodeJType(rd, distance);
    w := JType(rd, distance);
  }

  /**
    A branch to a label decodes to the branch written, and to the label's distance if and only if
    that distance fits the 13-bit offset; the assembler itself never checks the range.
   */
  lemma BranchReachesLabel(lines: seq<Line>, i: nat, op: Op, distance: int) returns (w: word)
    requires op.BranchOp? && Targets(lines, i, op, op.target.text, distance)
    ensures StandsAt(Assembled(lines).value, Address(lines, i), [w])
    ensures Decode(w).Branch? && Decode(w) == Branch(op.cond, op.rs1, op.rs2, Decode(w).imm)
    ensures Decode(w).imm == distance <==> -0x1000 <= distance < 0x1000
  {
    hide BType, Decode, Truncated, Emitted, EmitOp, Address, LabelsOf, StandsAt, NoNegativeFill, BranchFunct;
    BranchEmits(op, Address(lines, i), LabelsOf(lines, |lines|));
    var emitted := LineIsAtItsAddress(lines, i, op);
    DistanceIsAligned(lines, i, op.target.text);
    TruncatedIsExact(distance, 0x1000);
    w := BranchOffset(op.rs1, op.rs2, op.cond, distance);
    assert emitted == [w];
  }

  /** The same for `jal`, with a 21-bit offset. */
  lemma JumpReachesLabel(lines: seq<Line>, i: nat, op: Op, distance: int) returns (w: word)
    requires op.JalOp? && Targets(lines, i, op, op.target.text, distance)
    ensures StandsAt(Assembled(lines).value, Address(lines, i), [w])
    ensures Decode(w).Jal? && Decode(w).rd == op.rd
    ensures Decode(w).imm == distance <==> -0x10_0000 <= distance < 0x10_0000
  {
    hide JType, Decode, Truncated, Emitted, EmitOp, Address, LabelsOf, StandsAt, NoNegativeFill;
    JumpEmits(op, Address(lines, i), LabelsOf(lines, |lines|));
    var emitted := LineIsAtItsAddress(lines, i, op);
    DistanceIsAligned(lines, i, op.target.text);
    TruncatedIsExact(distance, 0x10_0000);
    w := JumpOffset(op.rd, distance);
    assert emitted == [w];
  }

  lemma ExecuteBranch(c: Cond, rs1: reg, rs2: reg, imm: int, w: word, a: int, s: State)
    requires Decode(w) == Branch(c, rs1, rs2, imm) && a % 4 == 0 && imm % 4 == 0 && s.pc == Wrap(a)
    ensures Execute(Decode(w), w, s).Next?
    ensures Execute(Decode(w), w, s).state.pc == Wrap(if Taken(c, s.x[rs1], s.x[rs2]) then a + imm else a + 4)
  {
    hide Decode, Taken, Wrap;
    WrapTwice(a, imm);
    WrapTwice(a, 4);
    WrapTwice(a + imm, 0);
    WrapTwice(a + 4, 0);
  }

  /** Executed at any load address, an in-range branch goes to its label or to the next word. */
  lemma BranchExecutes(lines: seq<Line>, i: nat, op: Op, distance: int, base: int, s: State) returns (w: word)
    requires op.BranchOp? && Targets(lines, i, op, op.target.text, distance) && -0x1000 <= distance < 0x1000
    requires base % 4 == 0 && s.pc == Wrap(base + Address(lines, i))
    ensures StandsAt(Assembled(lines).value, Address(lines, i), [w])
    ensures Execute(Decode(w), w, s).Next?
    ensures Execute(Decode(w), w, s).state.pc
         == Wrap(base + if Taken(op.cond, s.x[op.rs1], s.x[op.rs2]) then LabelsOf(lines, |lines|)[op.target.text]
                        else Address(lines, i) + 4)
  {
    hide Decode, Emitted, Execute, Address, LabelsOf, StandsAt, NoNegativeFill, Taken, Wrap;
    w := BranchReachesLabel(lines, i, op, distance);
    DistanceIsAligned(lines, i, op.target.text);
    AddressesAreAligned(lines, i);
    ExecuteBranch(op.cond, op.rs1, op.rs2, distance, w, base + Address(lines, i), s);
  }

  /** Executed at any load address, an in-range jump goes to its label and links the next address. */
  lemma JumpExecutes(lines: seq<Line>, i: nat, op: Op, distance: int, base: int, s: State) returns (w: word)
    requires op.JalOp? && Targets(lines, i, op, op.target.text, distance) && -0x10_0000 <= distance < 0x10_0000
    requires base % 4 == 0 && s.pc == Wrap(base + Address(lines, i))
    ensures StandsAt(Assembled(lines).value, Address(lines, i), [w])
    ensures Execute(Decode(w), w, s).Next?
    ensures Execute(Decode(w), w, s).state.pc == Wrap(base + LabelsOf(lines, |lines|)[op.target.text])
    ensures Execute(Decode(w), w, s).state.x == SetReg(s.x, op.rd, Wrap(base + Address(lines, i) + 4))
  {
    hide Decode, Emitted, Address, LabelsOf, StandsAt, NoNegativeFill, Wrap;
    w := JumpReachesLabel(lines, i, op, distance);
    DistanceIsAligned(lines, i, op.target.text);
    AddressesAreAligned(lines, i);
    var a := base + Address(lines, i);
    WrapTwice(a, distance);
    WrapTwice(a, 4);
    WrapTwice(a + distance, 0);
  }

  lemma WrapTwice(a: int, b: int)
    ensures Wrap(Wrap(a) + b) == Wrap(a + b)
    ensures Wrap(a + Wrap(b)) == Wrap(a + b)
    ensures a % 4 == 0 ==> Wrap(a) % 4 == 0
  {
    assert a == Wrap(a) + a / WORD * WORD && b == Wrap(b) + b / WORD * WORD;
    ModShift(Wrap(a) + b, a / WORD, WORD);
    ModShift(a + Wrap(b), b / WORD, WORD);
    if a % 4 == 0 {
      ModShift(Wrap(a), a / WORD * 0x4000_0000, 4);
    }
  }

  // ----- la

  lemma SignedWrap(d: int)
    requires -0x8000_0000 <= d < 0x8000_0000
    ensures Signed(Wrap(d)) == d
  {
    if d < 0 {
      DivModUnique(d, WORD, -1, d + WORD);
    } else {
      SmallResidue(d, WORD);
    }
  }

  lemma SignedIsCongruent(v: int) returns (k: int)
    ensures v == Signed(Wrap(v)) + k * WORD
  {
    k := if Wrap(v) >= 0x8000_0000 then v / WORD + 1 else v / WORD;
  }

  /** A 12-bit offset is right modulo 2^32 exactly when the signed distance fits. */
  lemma OffsetFits(distance: int)
    ensures Wrap(Truncated(distance, 0x800)) == Wrap(distance) <==> -0x800 <= Signed(Wrap(distance)) < 0x800
  {
    hide Signed, Wrap;
    var d := Signed(Wrap(distance));
    var k := SignedIsCongruent(distance);
    TruncatedIsExact(d, 0x800);
    ModShift(d, k * 0x10_0000, 0x1000);
    assert Truncated(distance, 0x800) == Truncated(d, 0x800);
    SignedWrap(Truncated(d, 0x800));
    WrapOfSum(d, k);
  }

  lemma WrapOfSum(d: int, k: int)
    ensures Wrap(d + k * WORD) == Wrap(d)
  {
    ModShift(d, k, WORD);
  }

  lemma LaEmits(op: Op, pc: int, labels: Labels)
    requires op.La? && op.name in labels
    ensures var upper, lower := UType(op.rd, 0, 0x17), IType(op.rd, op.rd, And(labels[op.name] - pc, 0xFFF), 0, 0x13);
      && EmitOp(op, pc, labels) == Some([upper, lower])
      && 0 <= upper < WORD && 0 <= lower < WORD
      && Decode(upper) == Auipc(op.rd, 0)
      && Decode(lower) == AluImm(Add, op.rd, op.rd, Truncated(labels[op.name] - pc, 0x800))
  {
    hide UType, IType, Decode, Bits.Bitwise;
    var distance := labels[op.name] - pc;
    Powers();
    Mask(distance, 12);
    DecodeUType(op.rd, 0, 0x17);
    var _ := DecodeArithmetic(op.rd, op.rd, distance % 0x1000, 0);
  }

  /** Executing `words` one after another. */
  function Straight(words: seq<word>, s: State): Option<State> {
    if words == [] then Some(s)
    else match Execute(Decode(words[0]), words[0], s)
      case Stuck => None
      case Next(t, _) => Straight(words[1..], t)
  }

  lemma StraightPair(upper: word, lower: word, s: State)
    requires Execute(Decode(upper), upper, s).Next?
    requires Execute(Decode(lower), lower, Execute(Decode(upper), upper, s).state).Next?
    ensures Straight([upper, lower], s)
         == Some(Execute(Decode(lower), lower, Execute(Decode(upper), upper, s).state).state)
  {
    hide Execute;
    var t := Execute(Decode(upper), upper, s).state;
    assert [upper, lower][1..] == [lower];
    assert Straight([lower], t) == Straight([], Execute(Decode(lower), lower, t).state);
  }

  lemma {:induction false} StraightInParts(a: seq<word>, b: seq<word>, s: State)
    requires Straight(a, s).Some?
    ensures Straight(a + b, s) == Straight(b, Straight(a, s).value)
  {
    hide Execute;
    if a == [] {
      assert a + b == b;
    } else {
      StraightInParts(a[1..], b, Execute(Decode(a[0]), a[0], s).state);
      assert (a + b)[1..] == a[1..] + b;
    }
  }

  /**
    `la rd, label`, executed at any load address, continues after its two words with every other
    register unchanged, and leaves base + label in rd if and only if the label is within 2 KiB.
   */
  lemma LaLoadsAddress(lines: seq<Line>, i: nat, op: Op, distance: int, base: int, s: State)
    returns (upper: word, lower: word)
    requires op.La? && op.rd != 0 && Targets(lines, i, op, op.name, distance)
    requires s.pc == Wrap(base + Address(lines, i))
    ensures StandsAt(Assembled(lines).value, Address(lines, i), [upper, lower])
    ensures var t := Straight([upper, lower], s);
      && t.Some? && t.value.pc == Wrap(s.pc + 8) && t.value.mem == s.mem
      && (forall r: reg :: r != op.rd ==> t.value.x[r] == s.x[r])
      && (t.value.x[op.rd] == Wrap(base + LabelsOf(lines, |lines|)[op.name])
          <==> -0x800 <= Signed(Wrap(distance)) < 0x800)
  {
    hide UType, IType, Decode, Emitted, EmitOp, Truncated, Address, LabelsOf, StandsAt, NoNegativeFill, Wrap, Signed;
    var emitted := LineIsAtItsAddress(lines, i, op);
    LaEmits(op, Address(lines, i), LabelsOf(lines, |lines|));
    upper, lower := emitted[0], emitted[1];
    var delta := Truncated(distance, 0x800);
    AddressArithmetic(base + Address(lines, i), delta, distance);
    OffsetFits(distance);
    StraightPair(upper, lower, s);
  }

  lemma AddressArithmetic(a: int, delta: int, distance: int)
    ensures Wrap(Wrap(a) + 0) == Wrap(a)
    ensures Wrap(Wrap(Wrap(a) + 4) + 4) == Wrap(Wrap(a) + 8)
    ensures Wrap(Wrap(a) + Wrap(delta)) == Wrap(a + distance) <==> Wrap(delta) == Wrap(distance)
  {
    hide Wrap;
    WrapTwice(a, 0);
    WrapTwice(Wrap(a) + 4, 4);
    WrapTwice(Wrap(a), delta);
    WrapTwice(a, delta);
    WrapTwice(a, distance);
    WrapTwice(a + delta, -a);
    WrapTwice(a + distance, -a);
  }

  // ----- tohost

  lemma TohostDecodes(code: int) returns (w: seq<word>)
    ensures TohostWords(code) == w && |w| == 4
    ensures Decode(w[0]) == AluImm(Add, 31, 0, Truncated(code, 0x800)) && Decode(w[1]) == Lui(30, 0x1_0000)
    ensures Decode(w[2]) == AluImm(Add, 30, 30, -16) && Decode(w[3]) == Store(Word, 30, 31, 0)
  {
    hide UType, IType, SType, Decode;
    var _ := DecodeArithmetic(31, 0, code, 0);
    DecodeUType(30, 0x10, 0x37);
    var _ := DecodeArithmetic(30, 30, -16, 0);
    DecodeSType(30, 31, 0, 2);
    w := [IType(31, 0, code, 0, 0x13), UType(30, 0x10, 0x37), IType(30, 30, -16, 0, 0x13), SType(30, 31, 0, 2)];
  }

  /**
    `tohost N` ends with exactly one store, to the address the testbench watches; the value stored is
    N modulo 2^32 if and only if N fits a signed 12-bit immediate.
   */
  lemma TohostSignals(lines: seq<Line>, i: nat, op: Op, s: State) returns (w: seq<word>)
    requires Accepted(lines) && Has(lines, i, op) && op.Tohost?
    ensures StandsAt(Assembled(lines).value, Address(lines, i), w)
    ensures var code := if op.code.None? then 1 else op.code.value.number.GetOr(0);
      && Straight(w, s).Some?
      && Straight(w, s).value.mem == s.mem[0xFFF0 / 4 := Wrap(Truncated(code, 0x800))]
      && (Wrap(Truncated(code, 0x800)) == Wrap(code) <==> -0x800 <= Signed(Wrap(code)) < 0x800)
  {
    hide Decode, Emitted, Address, LabelsOf, StandsAt, NoNegativeFill, TohostWords, Truncated;
    var emitted := LineIsAtItsAddress(lines, i, op);
    var code := if op.code.None? then 1 else op.code.value.number.GetOr(0);
    w := TohostDecodes(code);
    OffsetFits(code);
    TohostExecutes(w, Truncated(code, 0x800), s);
  }

  lemma TohostExecutes(w: seq<word>, value: int, s: State)
    requires |w| == 4 && Decode(w[0]) == AluImm(Add, 31, 0, value) && Decode(w[1]) == Lui(30, 0x1_0000)
    requires Decode(w[2]) == AluImm(Add, 30, 30, -16) && Decode(w[3]) == Store(Word, 30, 31, 0)
    ensures Straight(w, s).Some? && Straight(w, s).value.mem == s.mem[0xFFF0 / 4 := Wrap(value)]
  {
    hide Decode, Straight;
    var s1 := Execute(Decode(w[0]), w[0], s).state;
    var s2 := Execute(Decode(w[1]), w[1], s1).state;
    assert s2.x[31] == Wrap(value) && s2.x[30] == 0x1_0000 && s2.mem == s.mem;
    StraightPair(w[0], w[1], s);
    StoreThroughX30(w[2], w[3], s2);
    StraightInParts([w[0], w[1]], [w[2], w[3]], s);
    assert w == [w[0], w[1]] + [w[2], w[3]];
  }

  lemma StoreThroughX30(w: word, w': word, s: State)
    requires Decode(w) == AluImm(Add, 30, 30, -16) && Decode(w') == Store(Word, 30, 31, 0) && s.x[30] == 0x1_0000
    ensures Straight([w, w'], s).Some? && Straight([w, w'], s).value.mem == s.mem[0xFFF0 / 4 := s.x[31]]
  {
    hide Decode, Straight;
    var t := Execute(Decode(w), w, s).state;
    assert t.x[30] == 0xFFF0 && t.x[31] == s.x[31];
    StraightPair(w, w', s);
  }

  // ----- accepted sources on the failing side

  /** `op`, a gap of `gap` no-ops, and the label `end`. */
  function Apart(op: Op, gap: nat): seq<Line> {
    [Line(None, Some(op)), Line(None, Some(Fill(Token("", Some(gap))))), Line(Some("end"), Some(FixedOp(Nop)))]
  }

  /** The operand of `op` is the label `end`. */
  predicate NamesEnd(op: Op) {
    (op.BranchOp? && op.target.text == "end") || (op.JalOp? && op.target.text == "end") || (op.La? && op.name == "end")
  }

  lemma ApartLabels(op: Op, gap: nat)
    requires NamesEnd(op)
    ensures AllSized(Apart(op, gap)) && Address(Apart(op, gap), 0) == 0
    ensures LabelsOf(Apart(op, gap), 3) == map["end" := 4 * (if op.La? then 2 else 1) + 4 * gap]
  {
    var lines := Apart(op, gap);
    assert Address(lines, 1) == 4 * if op.La? then 2 else 1;
    assert Address(lines, 2) == Address(lines, 1) + 4 * gap;
    assert LabelsOf(lines, 2) == LabelsOf(lines, 1) == LabelsOf(lines, 0) == map[];
  }

  lemma ApartIsAccepted(op: Op, gap: nat)
    requires NamesEnd(op)
    ensures Accepted(Apart(op, gap))
  {
    hide RType, IType, BType, UType, JType, And, Or;
    var lines := Apart(op, gap);
    ApartLabels(op, gap);
    var labels := LabelsOf(lines, 3);
    assert Emitted(lines, 0, labels).Some?;
    assert Emitted(lines, 1, labels).Some?;
    assert Emitted(lines, 2, labels).Some?;
    assert Emitted(lines, 3, labels).Some?;
    forall j | 0 <= j < 3
      ensures !NegativeFill(lines[j])
    {
    }
  }

  /** The assembler accepts a branch over 1024 words, and encodes another distance. */
  lemma FarBranchMisses() returns (op: Op, w: word)
    ensures var lines := Apart(op, 1024);
      && op.BranchOp? && Targets(lines, 0, op, "end", 0x1004)
      && StandsAt(Assembled(lines).value, 0, [w]) && Decode(w).Branch? && Decode(w).imm != 0x1004
  {
    hide Decode, Emitted, EmitOp, StandsAt, Accepted, LabelsOf, Address;
    op := BranchOp(Eq, 0, 0, Token("end", None));
    ApartLabels(op, 1024);
    ApartIsAccepted(op, 1024);
    w := BranchReachesLabel(Apart(op, 1024), 0, op, 0x1004);
  }

  /** The same for a jump over 2^18 words. */
  lemma FarJumpMisses() returns (op: Op, w: word)
    ensures var lines := Apart(op, 0x4_0000);
      && op.JalOp? && Targets(lines, 0, op, "end", 0x10_0004)
      && StandsAt(Assembled(lines).value, 0, [w]) && Decode(w).Jal? && Decode(w).imm != 0x10_0004
  {
    hide Decode, Emitted, EmitOp, StandsAt, Accepted, LabelsOf, Address;
    op := JalOp(0, Token("end", None));
    ApartLabels(op, 0x4_0000);
    ApartIsAccepted(op, 0x4_0000);
    w := JumpReachesLabel(Apart(op, 0x4_0000), 0, op, 0x10_0004);
  }

  /** `la` over 512 words: wherever the program is loaded, the register misses the label. */
  lemma FarLaMisses(base: int, s: State) returns (op: Op, upper: word, lower: word)
    requires s.pc == Wrap(base)
    ensures var lines := Apart(op, 512);
      && op.La? && op.rd != 0 && Targets(lines, 0, op, "end", 0x808)
      && StandsAt(Assembled(lines).value, 0, [upper, lower])
      && Straight([upper, lower], s).Some?
      && Straight([upper, lower], s).value.x[op.rd] != Wrap(base + LabelsOf(lines, 3)["end"])
  {
    hide Decode, Emitted, EmitOp, StandsAt, Accepted, LabelsOf, Address, Straight;
    op := La(5, "end");
    ApartLabels(op, 512);
    ApartIsAccepted(op, 512);
    upper, lower := LaLoadsAddress(Apart(op, 512), 0, op, 0x808, base, s);
  }

  lemma EmitsNext(lines: seq<Line>, i: nat, labels: Labels, before: seq<int>, words: seq<int>)
    requires AllSized(lines) && i < |lines| && lines[i].op.Some? && Emitted(lines, i, labels) == Some(before)
    requires EmitOp(lines[i].op.value, Address(lines, i), labels) == Some(words)
    ensures Emitted(lines, i + 1, labels) == Some(before + words)
  {
    hide EmitOp;
  }

  lemma NegativeFillEmits(pc: int, labels: Labels)
    ensures EmitOp(Fill(Token("-1", Some(-1))), pc, labels) == Some([])
  {
    var count := Token("-1", Some(-1));
    assert EmitOp(Fill(count), pc, labels).Some?;
    assert EmitOp(Fill(count), pc, labels).value == [];
  }

  /** A fill of -1 before a label: the label is -4, the word it marks stands at index 0. */
  lemma NegativeFillMisplaces() returns (lines: seq<Line>)
    ensures Assembled(lines) == Some([FixedWord(Nop)])
    ensures "end" in LabelsOf(lines, |lines|) && LabelsOf(lines, |lines|)["end"] == -4
    ensures |lines| == 2 && lines[1] == Line(Some("end"), Some(FixedOp(Nop)))
  {
    hide EmitOp, Emitted;
    lines := [Line(None, Some(Fill(Token("-1", Some(-1))))), Line(Some("end"), Some(FixedOp(Nop)))];
    assert Address(lines, 1) == -4;
    var labels := LabelsOf(lines, 2);
    assert Emitted(lines, 0, labels) == Some([]) by {
      NothingEmitted(lines, labels);
    }
    NegativeFillEmits(0, labels);
    var none: seq<int> := [];
    EmitsNext(lines, 0, labels, none, none);
    assert none + none == none;
    assert EmitOp(FixedOp(Nop), -4, labels) == Some([FixedWord(Nop)]) by {
      NopEmits(-4, labels);
    }
    EmitsNext(lines, 1, labels, none, [FixedWord(Nop)]);
    assert none + [FixedWord(Nop)] == [FixedWord(Nop)];
  }

  lemma NothingEmitted(lines: seq<Line>, labels: Labels)
    requires AllSized(lines)
    ensures Emitted(lines, 0, labels) == Some([])
  {
  }

  lemma NopEmits(pc: int, labels: Labels)
    ensures EmitOp(FixedOp(Nop), pc, labels) == Some([FixedWord(Nop)])
  {
  }

  lemma TohostEmits(code: Token, pc: int, labels: Labels)
    requires code.number.Some?
    ensures EmitOp(Tohost(Some(code)), pc, labels) == Some(TohostWords(code.number.value))
  {
    hide TohostWords;
  }

  /** `tohost 4096` is accepted and reports 0. */
  lemma TohostTruncates(s: State) returns (lines: seq<Line>, w: seq<word>)
    ensures lines == [Line(None, Some(Tohost(Some(Token("4096", Some(4096))))))] && Assembled(lines) == Some(w)
    ensures Straight(w, s).Some? && Straight(w, s).value.mem == s.mem[0xFFF0 / 4 := 0]
  {
    hide EmitOp, Emitted, Straight, TohostWords, Decode;
    var code := Token("4096", Some(4096));
    lines := [Line(None, Some(Tohost(Some(code))))];
    w := TohostDecodes(4096);
    NothingEmitted(lines, LabelsOf(lines, 1));
    TohostEmits(code, 0, LabelsOf(lines, 1));
    EmitsNext(lines, 0, LabelsOf(lines, 1), [], TohostWords(4096));
    assert [] + TohostWords(4096) == w;
    assert Truncated(4096, 0x800) == 0;
    TohostExecutes(w, 0, s);
  }
}
