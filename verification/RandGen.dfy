/**
  tools/rand_gen.py: the random program generator.

  The pseudo-random source is an arbitrary function from the iteration number to the values drawn
  in that iteration, so every statement below holds for all seeds.  A draw is a raw number; the
  functions reduce it to the range the generator asks for, and every value of that range is reached.
 */
module RandGen {
  import opened Options
  import opened Bits
  import opened Rv32i
  import opened Encode

  const DATA_BASE: int := 0x8030_0000
  const BASE_REG: reg := 31
  const MEM_WORDS := 64
  const HALT := 0x0000_006F
  const TOHOST_ONE := [0x0010_0F93, 0x0001_0F37, 0xFF0F_0F13, 0x01FF_2023]

  /** x1..x10 */
  predicate IsScratch(r: reg) { 1 <= r <= 10 }

  function Scratch(k: nat): (r: reg)
    ensures IsScratch(r)
  {
    1 + k % 10
  }

  datatype Pick = Pick(reuse: bool, latest: bool, anew: nat)

  datatype Draw = Draw(kind: nat, rd: nat, op: nat, arithmetic: bool, number: int, first: Pick, second: Pick)

  type Draws = nat -> Draw

  datatype Kind = Register | Immediate | LoadWord | StoreWord | Conditional | Jump

  const KINDS := [Register, Immediate, LoadWord, StoreWord, Conditional, Jump]

  const R_OPS := [(0, 0x00), (0, 0x20), (1, 0x00), (2, 0x00), (3, 0x00),
                  (4, 0x00), (5, 0x00), (5, 0x20), (6, 0x00), (7, 0x00)]

  const I_OPS := [0, 2, 3, 4, 6, 7, 1, 5]

  const BR_OPS := [0, 1, 4, 5, 6, 7]

  /** Destinations of the last two writing instructions, most recent first. */
  type Recent = s: seq<reg> | |s| <= 2 && forall r <- s :: IsScratch(r)

  function PickSource(p: Pick, recent: Recent): (r: reg)
    ensures IsScratch(r)
  {
    if recent != [] && p.reuse then
      recent[if |recent| == 1 || p.latest then 0 else 1]
    else
      Scratch(p.anew)
  }

  /** `room` is the number of instructions left including this one; control flow needs two. */
  function KindOf(d: Draw, room: int): Kind {
    if room > 1 then KINDS[d.kind % 6] else KINDS[d.kind % 4]
  }

  function Remember(rd: reg, recent: Recent): Recent
    requires IsScratch(rd)
  {
    [rd] + recent[..if |recent| < 1 then |recent| else 1]
  }

  function RememberedAfter(k: Kind, rd: reg, recent: Recent): Recent
    requires IsScratch(rd)
  {
    if k == StoreWord || k == Conditional then recent else Remember(rd, recent)
  }

  /** The 12-bit operand of an immediate instruction: a shift amount under its funct7, or any signed value. */
  function ImmediateOperand(d: Draw, f3: int): int {
    if f3 == 1 || f3 == 5 then
      Or(Shl(if f3 == 5 && d.arithmetic then 0x20 else 0x00, 5), d.number % 32)
    else
      d.number % 4096 - 2048
  }

  function WordOffset(d: Draw): int { d.number % MEM_WORDS * 4 }

  /** A forward distance in bytes, at most four instructions and never past the final self-loop. */
  function ForwardOffset(d: Draw, room: int): int
    requires room > 0
  {
    (1 + d.number % (if room < 4 then room else 4)) * 4
  }

  /** The word emitted for a draw; memory operands are relative to register `data`. */
  function Emit(d: Draw, k: Kind, room: int, data: reg, recent: Recent): int
    requires room > 0
  {
    var rd := Scratch(d.rd);
    var first, second := PickSource(d.first, recent), PickSource(d.second, recent);
    match k
    case Register => var (f3, f7) := R_OPS[d.op % 10]; RType(rd, first, second, f3, f7)
    case Immediate => var f3 := I_OPS[d.op % 8]; IType(rd, first, ImmediateOperand(d, f3), f3, 0x13)
    case LoadWord => IType(rd, data, WordOffset(d), 2, 0x03)
    case StoreWord => SType(data, first, WordOffset(d), 2)
    case Conditional => BType(first, second, ForwardOffset(d, room), BR_OPS[d.op % 6])
    case Jump => JType(rd, ForwardOffset(d, room))
  }

  // ----- gen_spike

  /** What the generator remembers after `i` iterations. */
  function RecentAt(draws: Draws, n: nat, i: nat): Recent
    requires i <= n
  {
    if i == 0 then [] else
      var d := draws(i - 1);
      RememberedAfter(KindOf(d, n - (i - 1)), Scratch(d.rd), RecentAt(draws, n, i - 1))
  }

  function SpikeWord(draws: Draws, n: nat, i: nat): int
    requires i < n
  {
    Emit(draws(i), KindOf(draws(i), n - i), n - i, BASE_REG, RecentAt(draws, n, i))
  }

  /** `addi xr, x0, k` with an arbitrary signed 12-bit k */
  function Initialise(r: reg, k: int): int { IType(r, 0, k % 4096 - 2048, 0, 0x13) }

  /** The whole program: base register, scratch registers x1..x10, body, self-loop. */
  function SpikeProgram(n: nat, draws: Draws, initial: nat -> int): seq<int> {
    [UType(BASE_REG, Shr(DATA_BASE, 12), 0x37)]
    + seq(10, r requires 0 <= r < 10 => Initialise(r + 1, initial(r)))
    + seq(n, i requires 0 <= i < n => SpikeWord(draws, n, i))
    + [HALT]
  }

  lemma RemembersNothing(draws: Draws, n: nat)
    ensures RecentAt(draws, n, 0) == []
  {
  }

  lemma RemembersNext(draws: Draws, n: nat, i: nat)
    requires i < n
    ensures var kind, recent := KindOf(draws(i), n - i), RecentAt(draws, n, i);
      && SpikeWord(draws, n, i) == Emit(draws(i), kind, n - i, BASE_REG, recent)
      && RecentAt(draws, n, i + 1)
         == if kind != StoreWord && kind != Conditional then Remember(Scratch(draws(i).rd), recent) else recent
  {
    hide Emit, KindOf, Remember;
  }

  method GenSpike(n: int, draws: Draws, initial: nat -> int) returns (words: seq<int>)
    ensures words == SpikeProgram(if n < 0 then 0 else n, draws, initial)
  {
    hide Emit, KindOf, Remember, SpikeWord, RecentAt;
    var body: seq<int> := [];
    var recent: Recent := [];
    ghost var count := if n < 0 then 0 else n;
    var i := 0;
    RemembersNothing(draws, count);
    while i < n
      invariant 0 <= i <= count
      invariant |body| == i && forall j :: 0 <= j < i ==> body[j] == SpikeWord(draws, count, j)
      invariant recent == RecentAt(draws, count, i)
    {
      var room := n - i;
      var kind := KindOf(draws(i), room);
      var rd := Scratch(draws(i).rd);
      RemembersNext(draws, count, i);
      body := body + [Emit(draws(i), kind, room, BASE_REG, recent)];
      if kind != StoreWord && kind != Conditional {
        recent := Remember(rd, recent);
      }
      i := i + 1;
    }
    assert body == seq(count, i requires 0 <= i < count => SpikeWord(draws, count, i));
    words := SpikePrologue(initial);
    words := words + body + [HALT];
  }

  method SpikePrologue(initial: nat -> int) returns (prologue: seq<int>)
    ensures prologue == [UType(BASE_REG, Shr(DATA_BASE, 12), 0x37)]
                        + seq(10, r requires 0 <= r < 10 => Initialise(r + 1, initial(r)))
  {
    hide UType, Initialise;
    prologue := [UType(BASE_REG, Shr(DATA_BASE, 12), 0x37)];
    for r := 0 to 10
      invariant |prologue| == r + 1 && prologue[0] == UType(BASE_REG, Shr(DATA_BASE, 12), 0x37)
      invariant forall j :: 0 <= j < r ==> prologue[j + 1] == Initialise(j + 1, initial(j))
    {
      prologue := prologue + [Initialise(r + 1, initial(r))];
    }
  }

  // ----- gen

  /** The straight-line mode never offers control flow. */
  function RecentPlain(draws: Draws, i: nat): Recent {
    if i == 0 then [] else
      var d := draws(i - 1);
      RememberedAfter(KindOf(d, 1), Scratch(d.rd), RecentPlain(draws, i - 1))
  }

  function PlainWord(draws: Draws, i: nat): int {
    Emit(draws(i), KindOf(draws(i), 1), 1, 0, RecentPlain(draws, i))
  }

  function PlainProgram(n: nat, draws: Draws): seq<int> {
    seq(n, i requires 0 <= i < n => PlainWord(draws, i)) + TOHOST_ONE + [HALT]
  }

  lemma RemembersNextPlain(draws: Draws, i: nat)
    ensures RecentPlain(draws, 0) == []
    ensures var kind, recent := KindOf(draws(i), 1), RecentPlain(draws, i);
      && PlainWord(draws, i) == Emit(draws(i), kind, 1, 0, recent)
      && RecentPlain(draws, i + 1)
         == if kind != StoreWord && kind != Conditional then Remember(Scratch(draws(i).rd), recent) else recent
  {
    hide Emit, KindOf, Remember;
  }

  method Gen(n: int, draws: Draws) returns (words: seq<int>)
    ensures words == PlainProgram(if n < 0 then 0 else n, draws)
  {
    hide Emit, KindOf, Remember, PlainWord, RecentPlain;
    words := [];
    RemembersNextPlain(draws, 0);
    var recent: Recent := [];
    ghost var count := if n < 0 then 0 else n;
    var i := 0;
    while i < n
      invariant 0 <= i <= count
      invariant |words| == i && forall j :: 0 <= j < i ==> words[j] == PlainWord(draws, j)
      invariant recent == RecentPlain(draws, i)
    {
      var kind := KindOf(draws(i), 1);
      var rd := Scratch(draws(i).rd);
      RemembersNextPlain(draws, i);
      words := words + [Emit(draws(i), kind, 1, 0, recent)];
      if kind != StoreWord && kind != Conditional {
        recent := Remember(rd, recent);
      }
      i := i + 1;
    }
    assert words == seq(count, i requires 0 <= i < count => PlainWord(draws, i));
    words := words + TOHOST_ONE + [HALT];
  }

  // ----- what the words decode to

  /** The instructions a generated body consists of, at `room` words before the self-loop. */
  predicate Tame(i: Instr, room: int, data: reg) {
    match i
    case Alu(_, rd, rs1, rs2) => IsScratch(rd) && IsScratch(rs1) && IsScratch(rs2)
    case AluImm(_, rd, rs1, _) => IsScratch(rd) && IsScratch(rs1)
    case Load(Word, rd, rs1, imm) => IsScratch(rd) && rs1 == data && 0 <= imm < 4 * MEM_WORDS && imm % 4 == 0
    case Store(Word, rs1, rs2, imm) => IsScratch(rs2) && rs1 == data && 0 <= imm < 4 * MEM_WORDS && imm % 4 == 0
    case Branch(_, rs1, rs2, imm) => IsScratch(rs1) && IsScratch(rs2) && 4 <= imm <= 4 * room && imm % 4 == 0
    case Jal(rd, imm) => IsScratch(rd) && 4 <= imm <= 4 * room && imm % 4 == 0
    case _ => false
  }

  /** The ten operations on registers, in the order in which a draw numbers them. */
  ghost function RegisterName(k: int): AluOp {
    match k
    case 0 => Add case 1 => Sub case 2 => Sll case 3 => Slt case 4 => Sltu
    case 5 => BitXor case 6 => Srl case 7 => Sra case 8 => BitOr case _ => BitAnd
  }

  /** The eight operations on an immediate; right shifts come in two kinds. */
  ghost function ImmediateName(k: int, arithmetic: bool): AluOp {
    match k
    case 0 => Add case 1 => Slt case 2 => Sltu case 3 => BitXor case 4 => BitOr case 5 => BitAnd
    case 6 => Sll case _ => if arithmetic then Sra else Srl
  }

  ghost function ConditionName(k: int): Cond {
    match k case 0 => Eq case 1 => Ne case 2 => Lt case 3 => Ge case 4 => Ltu case _ => Geu
  }

  /** The instruction a draw asks for, with its two sources. */
  ghost function Drawn(d: Draw, room: int, data: reg, rs1: reg, rs2: reg): Instr
    requires room > 0
  {
    var rd := 1 + d.rd % 10;
    match if room > 1 then d.kind % 6 else d.kind % 4
    case 0 => Alu(RegisterName(d.op % 10), rd, rs1, rs2)
    case 1 => AluImm(ImmediateName(d.op % 8, d.arithmetic), rd, rs1,
                     if d.op % 8 >= 6 then d.number % 32 else d.number % 4096 - 2048)
    case 2 => Load(Word, rd, data, d.number % 64 * 4)
    case 3 => Store(Word, data, rs1, d.number % 64 * 4)
    case 4 => Branch(ConditionName(d.op % 6), rs1, rs2, 4 + d.number % (if room < 4 then room else 4) * 4)
    case _ => Jal(rd, 4 + d.number % (if room < 4 then room else 4) * 4)
  }

  /** A source that is reused is the last destination or the one before; otherwise it is chosen anew. */
  ghost predicate IsPicked(r: reg, p: Pick, destinations: seq<reg>) {
    var count := |destinations|;
    if count > 0 && p.reuse then
      r == destinations[if count == 1 || p.latest then count - 1 else count - 2]
    else
      r == 1 + p.anew % 10
  }

  lemma ImmediateDecodes(d: Draw, rd: reg, rs1: reg) returns (w: word)
    ensures w == IType(rd, rs1, ImmediateOperand(d, I_OPS[d.op % 8]), I_OPS[d.op % 8], 0x13)
    ensures Decode(w) == AluImm(ImmediateName(d.op % 8, d.arithmetic), rd, rs1,
                                if d.op % 8 >= 6 then d.number % 32 else d.number % 4096 - 2048)
  {
    hide Bits.Bitwise, IType, Rv32i.Decode, Or, Shl;
    var f3 := I_OPS[d.op % 8];
    if d.op % 8 >= 6 {
      var f7 := if f3 == 5 && d.arithmetic then 0x20 else 0x00;
      ShiftOperand(f7, d.number % 32);
      w := DecodeShift(rd, rs1, f3, f7, d.number % 32);
    } else {
      SignedOperand(d.number % 4096 - 2048);
      w := DecodeArithmetic(rd, rs1, ImmediateOperand(d, f3), f3);
    }
  }

  lemma ShiftOperand(f7: int, amount: int)
    requires (f7 == 0x20 || f7 == 0) && 0 <= amount < 32
    ensures Or(Shl(f7, 5), amount) == f7 * 32 + amount
  {
    hide Bits.Bitwise;
    Powers();
    OrField(f7, 0x20, amount, 5);
  }

  lemma SignedOperand(v: int)
    requires -2048 <= v < 2048
    ensures Truncated(v, 0x800) == v
  {
  }

  predicate TameWord(w: int, room: int, data: reg, jumps: bool) {
    0 <= w < WORD && w != HALT && Tame(Decode(w), room, data)
    && (jumps <==> Decode(w).Branch? || Decode(w).Jal?)
  }

  lemma RegisterDecodes(rd: reg, rs1: reg, rs2: reg, k: nat) returns (w: word)
    requires k < 10
    ensures w == RType(rd, rs1, rs2, R_OPS[k].0, R_OPS[k].1)
    ensures Decode(w) == Alu(RegisterName(k), rd, rs1, rs2)
  {
    hide RType, Decode;
    var (f3, f7) := R_OPS[k];
    DecodeRType(rd, rs1, rs2, f3, f7);
    w := RType(rd, rs1, rs2, f3, f7);
  }

  lemma HaltDecodes()
    ensures Decode(HALT) == Jal(0, 0)
  {
  }

  lemma SmallOffsets(off: int)
    requires 0 <= off < 0x800 && off % 2 == 0
    ensures Truncated(off, 0x800) == off
    ensures Truncated(off / 2 * 2, 0x1000) == off == Truncated(off / 2 * 2, 0x10_0000)
  {
  }

  lemma LoadDecodes(rd: reg, off: int, data: reg) returns (w: word)
    requires 0 <= off < 256 && off % 4 == 0
    ensures w == IType(rd, data, off, 2, 0x03) && Decode(w) == Load(Word, rd, data, off)
  {
    hide Encode.IType, Truncated;
    DecodeIType(rd, data, off, 2, 0x03);
    SmallOffsets(off);
    w := IType(rd, data, off, 2, 0x03);
  }

  lemma StoreDecodes(rs2: reg, off: int, data: reg) returns (w: word)
    requires 0 <= off < 256 && off % 4 == 0
    ensures w == SType(data, rs2, off, 2) && Decode(w) == Store(Word, data, rs2, off)
  {
    hide Encode.SType, Rv32i.Decode, Truncated;
    DecodeSType(data, rs2, off, 2);
    SmallOffsets(off);
    w := SType(data, rs2, off, 2);
  }

  lemma BranchDecodes(rs1: reg, rs2: reg, k: nat, off: int) returns (w: word)
    requires 4 <= off <= 16 && off % 4 == 0 && k < 6
    ensures w == BType(rs1, rs2, off, BR_OPS[k]) && Decode(w) == Branch(ConditionName(k), rs1, rs2, off)
  {
    hide Encode.BType, Rv32i.Decode, Truncated;
    assert CondOf(BR_OPS[k]) == Some(ConditionName(k));
    DecodeBType(rs1, rs2, off, BR_OPS[k]);
    SmallOffsets(off);
    w := BType(rs1, rs2, off, BR_OPS[k]);
  }

  lemma JumpDecodes(rd: reg, off: int) returns (w: word)
    requires 4 <= off <= 16 && off % 4 == 0
    ensures w == JType(rd, off) && Decode(w) == Jal(rd, off)
  {
    hide Encode.JType, Rv32i.Decode, Truncated;
    DecodeJType(rd, off);
    SmallOffsets(off);
    w := JType(rd, off);
  }

  lemma ForwardIs(d: Draw, room: int)
    requires room > 0
    ensures ForwardOffset(d, room) == 4 + d.number % (if room < 4 then room else 4) * 4
    ensures 4 <= ForwardOffset(d, room) <= 16 && ForwardOffset(d, room) % 4 == 0
  {
  }

  lemma KindIs(d: Draw, room: int)
    ensures KindOf(d, room) == KINDS[if room > 1 then d.kind % 6 else d.kind % 4]
    ensures (if room > 1 then d.kind % 6 else d.kind % 4) < 6
  {
  }

  lemma PickIs(p: Pick, recent: Recent)
    ensures IsPicked(PickSource(p, recent), p, Reversed(recent))
  {
  }

  /** The emitted word is the instruction asked for, its sources chosen by the first and the second pick. */
  lemma EmitDecodes(d: Draw, room: int, data: reg, recent: Recent) returns (w: word, rs1: reg, rs2: reg)
    requires room > 0
    ensures w == Emit(d, KindOf(d, room), room, data, recent)
    ensures Decode(w) == Drawn(d, room, data, rs1, rs2)
    ensures IsPicked(rs1, d.first, Reversed(recent)) && IsPicked(rs2, d.second, Reversed(recent))
  {
    hide Rv32i.Decode, RType, IType, SType, BType, JType, PickSource, IsPicked, KindOf, ForwardOffset, ImmediateOperand;
    hide RegisterName, ImmediateName, ConditionName;
    var rd := Scratch(d.rd);
    rs1, rs2 := PickSource(d.first, recent), PickSource(d.second, recent);
    PickIs(d.first, recent);
    PickIs(d.second, recent);
    KindIs(d, room);
    ForwardIs(d, room);
    match KindOf(d, room)
    case Register => w := RegisterDecodes(rd, rs1, rs2, d.op % 10);
    case Immediate => w := ImmediateDecodes(d, rd, rs1);
    case LoadWord => w := LoadDecodes(rd, WordOffset(d), data);
    case StoreWord => w := StoreDecodes(rs1, WordOffset(d), data);
    case Conditional => w := BranchDecodes(rs1, rs2, d.op % 6, ForwardOffset(d, room));
    case Jump => w := JumpDecodes(rd, ForwardOffset(d, room));
  }

  ghost function Reversed(recent: Recent): seq<reg> {
    if |recent| == 2 then [recent[1], recent[0]] else recent
  }

  lemma DrawnIsTame(d: Draw, room: int, data: reg, rs1: reg, rs2: reg)
    requires room > 0 && IsScratch(rs1) && IsScratch(rs2)
    ensures Tame(Drawn(d, room, data, rs1, rs2), room, data) && Drawn(d, room, data, rs1, rs2) != Jal(0, 0)
    ensures (KindOf(d, room) == Conditional || KindOf(d, room) == Jump) <==>
      (Drawn(d, room, data, rs1, rs2).Branch? || Drawn(d, room, data, rs1, rs2).Jal?)
  {
    hide RegisterName, ImmediateName, ConditionName;
  }

  lemma PickedIsScratch(r: reg, p: Pick, recent: Recent)
    requires IsPicked(r, p, Reversed(recent))
    ensures IsScratch(r)
  {
  }

  lemma EmitIsTame(d: Draw, room: int, data: reg, recent: Recent)
    requires room > 0
    ensures TameWord(Emit(d, KindOf(d, room), room, data, recent), room, data,
                     KindOf(d, room) == Conditional || KindOf(d, room) == Jump)
  {
    hide Rv32i.Decode, Emit, Drawn, KindOf, IsPicked, Tame;
    var w, rs1, rs2 := EmitDecodes(d, room, data, recent);
    PickedIsScratch(rs1, d.first, recent);
    PickedIsScratch(rs2, d.second, recent);
    DrawnIsTame(d, room, data, rs1, rs2);
    HaltDecodes();
  }
}
