/**
  Which programs the two generators can emit: exactly those of the shapes their documentation offers,
  each instruction with every register, operand and distance of its range.
 */
module OfferedPrograms {
  import opened Options
  import opened Bits
  import opened Rv32i
  import opened Encode
  import opened RandGen
  import SpikeRuns
  import ReferenceRuns

  /** The instructions a generator may choose with `room` words left, memory being addressed by `data`. */
  ghost predicate Offered(i: Instr, room: int, data: reg) {
    match i
    case Alu(_, rd, rs1, rs2) => 1 <= rd <= 10 && 1 <= rs1 <= 10 && 1 <= rs2 <= 10
    case AluImm(op, rd, rs1, imm) =>
      && 1 <= rd <= 10 && 1 <= rs1 <= 10 && op != Sub
      && if op in {Sll, Srl, Sra} then 0 <= imm < 32 else -2048 <= imm < 2048
    case Load(Word, rd, rs1, imm) => 1 <= rd <= 10 && rs1 == data && 0 <= imm <= 252 && imm % 4 == 0
    case Store(Word, rs1, rs2, imm) => rs1 == data && 1 <= rs2 <= 10 && 0 <= imm <= 252 && imm % 4 == 0
    case Branch(_, rs1, rs2, imm) =>
      room > 1 && 1 <= rs1 <= 10 && 1 <= rs2 <= 10 && 4 <= imm <= 16 && imm <= 4 * room && imm % 4 == 0
    case Jal(rd, imm) => room > 1 && 1 <= rd <= 10 && 4 <= imm <= 16 && imm <= 4 * room && imm % 4 == 0
    case _ => false
  }

  // ----- one instruction

  /** The word `w` is the instruction `i`. */
  ghost predicate SpellsOne(w: int, i: Instr) { 0 <= w < WORD && Decode(w) == i }

  lemma ImmediateNames(k: nat, arithmetic: bool)
    requires k < 8
    ensures ImmediateName(k, arithmetic) != Sub
    ensures k >= 6 <==> ImmediateName(k, arithmetic) in {Sll, Srl, Sra}
  {
  }

  lemma DrawnIsOffered(d: Draw, room: int, data: reg, rs1: reg, rs2: reg)
    requires room > 0 && 1 <= rs1 <= 10 && 1 <= rs2 <= 10
    ensures Offered(Drawn(d, room, data, rs1, rs2), room, data)
  {
    hide RegisterName, ImmediateName, ConditionName;
    ImmediateNames(d.op % 8, d.arithmetic);
  }

  /** Numbers under which a draw asks for an operation. */
  ghost function RegisterIndex(op: AluOp): (k: nat)
    ensures k < 10 && RegisterName(k) == op
  {
    match op
    case Add => 0 case Sub => 1 case Sll => 2 case Slt => 3 case Sltu => 4
    case BitXor => 5 case Srl => 6 case Sra => 7 case BitOr => 8 case BitAnd => 9
  }

  ghost function ImmediateIndex(op: AluOp): (k: nat)
    requires op != Sub
    ensures k < 8 && ImmediateName(k, op == Sra) == op && (k >= 6 <==> op in {Sll, Srl, Sra})
  {
    match op
    case Add => 0 case Slt => 1 case Sltu => 2 case BitXor => 3 case BitOr => 4 case BitAnd => 5
    case Sll => 6 case Srl => 7 case Sra => 7
  }

  ghost function ConditionIndex(c: Cond): (k: nat)
    ensures k < 6 && ConditionName(k) == c
  {
    match c case Eq => 0 case Ne => 1 case Lt => 2 case Ge => 3 case Ltu => 4 case Geu => 5
  }

  ghost function Anew(r: reg): Pick { Pick(false, false, if r > 0 then r - 1 else 0) }

  ghost function Ask(kind: nat, rd: reg, op: nat, arithmetic: bool, number: int, rs1: reg, rs2: reg): Draw {
    Draw(kind, if rd > 0 then rd - 1 else 0, op, arithmetic, number, Anew(rs1), Anew(rs2))
  }

  /** A draw that asks for `i`. */
  ghost function DrawFor(i: Instr): Draw {
    match i
    case Alu(op, rd, rs1, rs2) => Ask(0, rd, RegisterIndex(op), false, 0, rs1, rs2)
    case AluImm(op, rd, rs1, imm) =>
      if op == Sub then Ask(0, 0, 0, false, 0, 0, 0)
      else Ask(1, rd, ImmediateIndex(op), op == Sra, if op in {Sll, Srl, Sra} then imm else imm + 2048, rs1, 0)
    case Load(_, rd, _, imm) => Ask(2, rd, 0, false, imm / 4, 0, 0)
    case Store(_, _, rs2, imm) => Ask(3, 0, 0, false, imm / 4, rs2, 0)
    case Branch(c, rs1, rs2, imm) => Ask(4, 0, ConditionIndex(c), false, imm / 4 - 1, rs1, rs2)
    case Jal(rd, imm) => Ask(5, rd, 0, false, imm / 4 - 1, 0, 0)
    case _ => Ask(0, 0, 0, false, 0, 0, 0)
  }

  lemma ForwardIsDrawn(imm: int, room: int)
    requires 4 <= imm <= 16 && imm <= 4 * room && imm % 4 == 0
    ensures 4 + (imm / 4 - 1) % (if room < 4 then room else 4) * 4 == imm
  {
    var k := imm / 4 - 1;
    assert k % (if room < 4 then room else 4) == k by {
      SmallResidue(k, if room < 4 then room else 4);
    }
  }

  lemma SmallIsDrawn(r: int)
    requires 1 <= r <= 10
    ensures 1 + (r - 1) % 10 == r
  {
  }

  lemma OffsetIsDrawn(imm: int)
    requires 0 <= imm <= 252 && imm % 4 == 0
    ensures imm / 4 % 64 * 4 == imm
  {
  }

  lemma ComputationIsDrawn(i: Instr, room: int, data: reg, rs1: reg, rs2: reg)
    requires room > 0 && Offered(i, room, data) && (i.Alu? || i.AluImm?)
    requires rs1 == 1 + DrawFor(i).first.anew % 10 && rs2 == 1 + DrawFor(i).second.anew % 10
    ensures Drawn(DrawFor(i), room, data, rs1, rs2) == i
  {
    hide RegisterName, ImmediateName, ConditionName, RegisterIndex, ImmediateIndex, ConditionIndex;
    SmallIsDrawn(i.rd);
    SmallIsDrawn(i.rs1);
    if i.Alu? {
      SmallIsDrawn(i.rs2);
      SmallResidue(RegisterIndex(i.op), 10);
    } else {
      SmallResidue(ImmediateIndex(i.op), 8);
    }
  }

  lemma AccessIsDrawn(i: Instr, room: int, data: reg, rs1: reg, rs2: reg)
    requires room > 0 && Offered(i, room, data) && (i.Load? || i.Store?)
    requires rs1 == 1 + DrawFor(i).first.anew % 10 && rs2 == 1 + DrawFor(i).second.anew % 10
    ensures Drawn(DrawFor(i), room, data, rs1, rs2) == i
  {
    hide RegisterName, ImmediateName, ConditionName;
    OffsetIsDrawn(i.imm);
    SmallIsDrawn(if i.Load? then i.rd else i.rs2);
  }

  lemma TransferIsDrawn(i: Instr, room: int, data: reg, rs1: reg, rs2: reg)
    requires room > 0 && Offered(i, room, data) && (i.Branch? || i.Jal?)
    requires rs1 == 1 + DrawFor(i).first.anew % 10 && rs2 == 1 + DrawFor(i).second.anew % 10
    ensures Drawn(DrawFor(i), room, data, rs1, rs2) == i
  {
    hide RegisterName, ImmediateName, ConditionName, ConditionIndex;
    ForwardIsDrawn(i.imm, room);
    if i.Jal? {
      SmallIsDrawn(i.rd);
    } else {
      SmallIsDrawn(i.rs1);
      SmallIsDrawn(i.rs2);
      SmallResidue(ConditionIndex(i.cond), 6);
    }
  }

  lemma OfferedIsDrawn(i: Instr, room: int, data: reg, rs1: reg, rs2: reg)
    requires room > 0 && Offered(i, room, data)
    requires rs1 == 1 + DrawFor(i).first.anew % 10 && rs2 == 1 + DrawFor(i).second.anew % 10
    ensures Drawn(DrawFor(i), room, data, rs1, rs2) == i
  {
    hide Drawn, DrawFor;
    if i.Alu? || i.AluImm? {
      ComputationIsDrawn(i, room, data, rs1, rs2);
    } else if i.Load? || i.Store? {
      AccessIsDrawn(i, room, data, rs1, rs2);
    } else {
      TransferIsDrawn(i, room, data, rs1, rs2);
    }
  }

  /** Whatever was written before, a draw can produce exactly the instructions that are offered. */
  lemma OffersExactly(i: Instr, room: int, data: reg, recent: Recent)
    requires room > 0
    ensures Offered(i, room, data) <==> exists d :: SpellsOne(Emit(d, KindOf(d, room), room, data, recent), i)
  {
    hide Emit, KindOf, Decode, Drawn, Offered, DrawFor;
    forall d | SpellsOne(Emit(d, KindOf(d, room), room, data, recent), i) ensures Offered(i, room, data) {
      var _ := EmitOffers(d, room, data, recent);
    }
    if Offered(i, room, data) {
      var _ := AskedIsEmitted(i, room, data, recent);
    }
  }

  lemma EmitOffers(d: Draw, room: int, data: reg, recent: Recent) returns (w: word)
    requires room > 0
    ensures w == Emit(d, KindOf(d, room), room, data, recent) && Offered(Decode(w), room, data)
  {
    hide Emit, KindOf, Decode, Drawn, Offered;
    var rs1, rs2;
    w, rs1, rs2 := EmitDecodes(d, room, data, recent);
    DrawnIsOffered(d, room, data, rs1, rs2);
  }

  lemma AskedIsEmitted(i: Instr, room: int, data: reg, recent: Recent) returns (w: word)
    requires room > 0 && Offered(i, room, data)
    ensures w == Emit(DrawFor(i), KindOf(DrawFor(i), room), room, data, recent) && Decode(w) == i
  {
    hide Emit, KindOf, Decode, Drawn, Offered;
    var d := DrawFor(i);
    assert !d.first.reuse && !d.second.reuse;
    var rs1, rs2;
    w, rs1, rs2 := EmitDecodes(d, room, data, recent);
    OfferedIsDrawn(i, room, data, rs1, rs2);
  }

  // ----- which registers are reused

  /** The register an instruction writes, if any. */
  ghost function Destination(i: Instr): seq<reg> {
    if i.Alu? || i.AluImm? || i.Load? || i.Jal? then [i.rd] else []
  }

  ghost function Destinations(code: seq<Instr>): seq<reg> {
    if code == [] then [] else Destinations(code[..|code| - 1]) + Destination(code[|code| - 1])
  }

  ghost function LastTwo(s: seq<reg>): seq<reg> { if |s| <= 2 then s else s[|s| - 2..] }

  lemma DestinationOfDrawn(d: Draw, room: int, data: reg, rs1: reg, rs2: reg)
    requires room > 0
    ensures Destination(Drawn(d, room, data, rs1, rs2))
         == if KindOf(d, room) == StoreWord || KindOf(d, room) == Conditional then [] else [Scratch(d.rd)]
  {
    hide RegisterName, ImmediateName, ConditionName;
  }

  lemma RemembersOne(rd: reg, recent: Recent, written: seq<reg>)
    requires IsScratch(rd) && Reversed(recent) == LastTwo(written)
    ensures Reversed(Remember(rd, recent)) == LastTwo(written + [rd])
  {
  }

  lemma RemembersDestination(d: Draw, room: int, data: reg, recent: Recent, written: seq<reg>, rs1: reg, rs2: reg)
    requires room > 0 && Reversed(recent) == LastTwo(written)
    ensures Reversed(RememberedAfter(KindOf(d, room), Scratch(d.rd), recent))
         == LastTwo(written + Destination(Drawn(d, room, data, rs1, rs2)))
  {
    hide Drawn, Destination, KindOf, Reversed, LastTwo, Remember;
    DestinationOfDrawn(d, room, data, rs1, rs2);
    RemembersOne(Scratch(d.rd), recent, written);
    assert written + [] == written;
  }

  lemma PicksLastTwo(r: reg, p: Pick, written: seq<reg>)
    requires IsPicked(r, p, LastTwo(written))
    ensures IsPicked(r, p, written)
  {
  }

  /** `words` is a list of instruction words that decode to `code`. */
  ghost predicate Spells(words: seq<int>, code: seq<Instr>) {
    |words| == |code| && forall i :: 0 <= i < |words| ==> SpellsOne(words[i], code[i])
  }

  /** The first `i` body words remember the last two destinations written, and draw word `i` from them. */
  lemma {:induction false} SpikeBodyMeans(draws: Draws, n: nat, body: seq<Instr>, i: nat) returns (rs1: reg, rs2: reg)
    requires |body| == n && i < n
    requires forall j :: 0 <= j < n ==> SpellsOne(SpikeWord(draws, n, j), body[j])
    ensures Reversed(RecentAt(draws, n, i)) == LastTwo(Destinations(body[..i]))
    ensures body[i] == Drawn(draws(i), n - i, 31, rs1, rs2)
    ensures IsPicked(rs1, draws(i).first, Destinations(body[..i]))
    ensures IsPicked(rs2, draws(i).second, Destinations(body[..i]))
  {
    hide Emit, KindOf, Decode, Drawn, IsPicked, RememberedAfter, Reversed, LastTwo, Destination;
    var recent := RecentAt(draws, n, i);
    if i == 0 {
      NothingRemembered();
      assert body[..0] == [];
    } else {
      var r1, r2 := SpikeBodyMeans(draws, n, body, i - 1);
      RemembersDestination(draws(i - 1), n - (i - 1), 31, RecentAt(draws, n, i - 1), Destinations(body[..i - 1]), r1, r2);
      assert body[..i][..i - 1] == body[..i - 1];
    }
    var w;
    w, rs1, rs2 := EmitDecodes(draws(i), n - i, BASE_REG, recent);
    assert SpellsOne(SpikeWord(draws, n, i), body[i]);
    PicksLastTwo(rs1, draws(i).first, Destinations(body[..i]));
    PicksLastTwo(rs2, draws(i).second, Destinations(body[..i]));
  }

  lemma NothingRemembered()
    ensures Reversed([]) == [] == LastTwo([])
  {
  }

  lemma {:induction false} PlainBodyMeans(draws: Draws, n: nat, body: seq<Instr>, i: nat) returns (rs1: reg, rs2: reg)
    requires |body| == n && i < n
    requires forall j :: 0 <= j < n ==> SpellsOne(PlainWord(draws, j), body[j])
    ensures Reversed(RecentPlain(draws, i)) == LastTwo(Destinations(body[..i]))
    ensures body[i] == Drawn(draws(i), 1, 0, rs1, rs2)
    ensures IsPicked(rs1, draws(i).first, Destinations(body[..i]))
    ensures IsPicked(rs2, draws(i).second, Destinations(body[..i]))
  {
    hide Emit, KindOf, Decode, Drawn, IsPicked, RememberedAfter, Reversed, LastTwo, Destination;
    var recent := RecentPlain(draws, i);
    if i == 0 {
      NothingRemembered();
      assert body[..0] == [];
    } else {
      var r1, r2 := PlainBodyMeans(draws, n, body, i - 1);
      RemembersDestination(draws(i - 1), 1, 0, RecentPlain(draws, i - 1), Destinations(body[..i - 1]), r1, r2);
      assert body[..i][..i - 1] == body[..i - 1];
    }
    var w;
    w, rs1, rs2 := EmitDecodes(draws(i), 1, 0, recent);
    assert SpellsOne(PlainWord(draws, i), body[i]);
    PicksLastTwo(rs1, draws(i).first, Destinations(body[..i]));
    PicksLastTwo(rs2, draws(i).second, Destinations(body[..i]));
  }

  // ----- gen_spike

  lemma SpikeBodySpellsOne(n: nat, draws: Draws, initial: nat -> int, code: seq<Instr>, j: nat)
    requires Spells(SpikeProgram(n, draws, initial), code) && j < n
    ensures |code| == n + 12 && SpellsOne(SpikeWord(draws, n, j), code[11 + j])
  {
    hide SpikeProgram, SpikeWord, SpellsOne, Initialise, UType, Shr;
    var at := 11 + j;
    SpikeRuns.ProgramLayout(n, draws, initial, at);
    assert SpellsOne(SpikeProgram(n, draws, initial)[at], code[at]);
  }

  lemma SpikeBodySpells(n: nat, draws: Draws, initial: nat -> int, code: seq<Instr>) returns (body: seq<Instr>)
    requires Spells(SpikeProgram(n, draws, initial), code) && n > 0
    ensures |code| == n + 12 && body == code[11..11 + n]
    ensures forall j :: 0 <= j < n ==> SpellsOne(SpikeWord(draws, n, j), body[j])
  {
    hide SpikeProgram, SpikeWord, SpellsOne, Spells;
    SpikeBodySpellsOne(n, draws, initial, code, 0);
    body := code[11..11 + n];
    forall j | 0 <= j < n ensures SpellsOne(SpikeWord(draws, n, j), body[j]) {
      SpikeBodySpellsOne(n, draws, initial, code, j);
    }
  }

  /** What body instruction `i` of an emitted program is, in terms of its draw and the words before it. */
  lemma SpikeWordMeans(n: nat, draws: Draws, initial: nat -> int, code: seq<Instr>, i: nat) returns (rs1: reg, rs2: reg)
    requires Spells(SpikeProgram(n, draws, initial), code) && i < n
    ensures |code| == n + 12 && code[11 + i] == Drawn(draws(i), n - i, 31, rs1, rs2)
    ensures IsPicked(rs1, draws(i).first, Destinations(code[11..11 + i]))
    ensures IsPicked(rs2, draws(i).second, Destinations(code[11..11 + i]))
  {
    hide SpikeProgram, SpikeWord, SpellsOne, Spells, Drawn, IsPicked, Destinations, RecentAt, Reversed, LastTwo;
    var body := SpikeBodySpells(n, draws, initial, code);
    rs1, rs2 := SpikeBodyMeans(draws, n, body, i);
    assert body[..i] == code[11..11 + i];
  }

  /** `lui x31, 0x80300`, `addi x1..x10, x0, k`, n instructions on offer, `jal x0, 0`. */
  ghost predicate IsSpikeProgram(n: nat, code: seq<Instr>) {
    |code| == n + 12 && forall i :: 0 <= i < n + 12 ==> SpikeOffers(n, i, code[i])
  }

  ghost predicate SpikeOffers(n: nat, at: nat, i: Instr)
    requires at < n + 12
  {
    if at == 0 then i == Lui(31, 0x8030_0000)
    else if at <= 10 then i.AluImm? && i == AluImm(Add, at, 0, i.imm) && -2048 <= i.imm < 2048
    else if at <= n + 10 then Offered(i, n - (at - 11), 31)
    else i == Jal(0, 0)
  }

  lemma InitialDecodes(r: reg, k: int) returns (w: word)
    ensures w == Initialise(r, k) && Decode(w) == AluImm(Add, r, 0, k % 4096 - 2048)
  {
    hide IType, Decode;
    SignedOperand(k % 4096 - 2048);
    w := DecodeArithmetic(r, 0, k % 4096 - 2048, 0);
  }

  lemma SpikeWordIsOffered(n: nat, draws: Draws, initial: nat -> int, i: nat) returns (instr: Instr)
    requires i < n + 12
    ensures |SpikeProgram(n, draws, initial)| == n + 12 && SpellsOne(SpikeProgram(n, draws, initial)[i], instr)
    ensures SpikeOffers(n, i, instr)
  {
    hide SpikeProgram, Offered, Decode, Initialise, Emit, KindOf, RecentAt, UType, Shr;
    SpikeRuns.ProgramLayout(n, draws, initial, i);
    var w: word;
    if i == 0 {
      w := SpikeRuns.BaseWord();
    } else if i <= 10 {
      w := InitialDecodes(i, initial(i - 1));
    } else if i <= n + 10 {
      w := EmitOffers(draws(i - 11), n - (i - 11), BASE_REG, RecentAt(draws, n, i - 11));
    } else {
      HaltDecodes();
      w := HALT;
    }
    instr := Decode(w);
  }

  lemma SpelledIsOffered(n: nat, draws: Draws, initial: nat -> int, code: seq<Instr>)
    requires Spells(SpikeProgram(n, draws, initial), code)
    ensures IsSpikeProgram(n, code)
  {
    hide SpikeProgram, SpikeOffers, Decode;
    forall i | 0 <= i < n + 12 ensures |code| == n + 12 && SpikeOffers(n, i, code[i]) {
      var _ := SpikeWordIsOffered(n, draws, initial, i);
    }
    var _ := SpikeWordIsOffered(n, draws, initial, 0);
  }

  ghost function DrawsFor(code: seq<Instr>, first: nat): Draws {
    (i: nat) => if first + i < |code| then DrawFor(code[first + i]) else DrawFor(Other)
  }

  ghost function InitialFor(code: seq<Instr>): nat -> int {
    (r: nat) => if r + 1 < |code| && code[r + 1].AluImm? then code[r + 1].imm + 2048 else 0
  }

  lemma OfferedIsSpelled(n: nat, code: seq<Instr>, i: nat)
    requires IsSpikeProgram(n, code) && i < n + 12
    ensures var words := SpikeProgram(n, DrawsFor(code, 11), InitialFor(code));
      |words| == n + 12 && SpellsOne(words[i], code[i])
  {
    hide SpikeProgram, Offered, Decode, Initialise, Emit, KindOf, RecentAt, UType, Shr, DrawFor;
    var draws, initial := DrawsFor(code, 11), InitialFor(code);
    SpikeRuns.ProgramLayout(n, draws, initial, i);
    assert SpikeOffers(n, i, code[i]);
    if i == 0 {
      var _ := SpikeRuns.BaseWord();
    } else if i <= 10 {
      var _ := InitialDecodes(i, initial(i - 1));
    } else if i <= n + 10 {
      var _ := AskedIsEmitted(code[i], n - (i - 11), BASE_REG, RecentAt(draws, n, i - 11));
    } else {
      HaltDecodes();
    }
  }

  /**
    The programs `gen_spike` can emit are exactly the offered ones: any operation, any x1..x10, any
    operand, any of the 64 data words and any forward distance of up to four words inside the program.
   */
  lemma SpikeProgramsExactly(n: nat, code: seq<Instr>)
    ensures IsSpikeProgram(n, code)
       <==> exists draws: Draws, initial: nat -> int :: Spells(SpikeProgram(n, draws, initial), code)
  {
    hide SpikeProgram, SpellsOne, SpikeOffers, DrawsFor, InitialFor;
    forall draws: Draws, initial: nat -> int | Spells(SpikeProgram(n, draws, initial), code)
      ensures IsSpikeProgram(n, code)
    {
      SpelledIsOffered(n, draws, initial, code);
    }
    if IsSpikeProgram(n, code) {
      var words := SpikeProgram(n, DrawsFor(code, 11), InitialFor(code));
      forall i | 0 <= i < n + 12 ensures |words| == n + 12 && SpellsOne(words[i], code[i]) {
        OfferedIsSpelled(n, code, i);
      }
      OfferedIsSpelled(n, code, 0);
      assert Spells(words, code);
    }
  }

  // ----- gen

  lemma PlainLayout(n: nat, draws: Draws, i: nat)
    requires i < n + 5
    ensures |PlainProgram(n, draws)| == n + 5
    ensures PlainProgram(n, draws)[i]
         == if i < n then PlainWord(draws, i) else if i < n + 4 then TOHOST_ONE[i - n] else HALT
  {
    hide PlainWord;
  }

  lemma PlainBodySpellsOne(n: nat, draws: Draws, code: seq<Instr>, j: nat)
    requires Spells(PlainProgram(n, draws), code) && j < n
    ensures |code| == n + 5 && SpellsOne(PlainWord(draws, j), code[j])
  {
    hide PlainProgram, PlainWord, SpellsOne;
    PlainLayout(n, draws, j);
    assert SpellsOne(PlainProgram(n, draws)[j], code[j]);
  }

  lemma PlainBodySpells(n: nat, draws: Draws, code: seq<Instr>) returns (body: seq<Instr>)
    requires Spells(PlainProgram(n, draws), code) && n > 0
    ensures |code| == n + 5 && body == code[..n]
    ensures forall j :: 0 <= j < n ==> SpellsOne(PlainWord(draws, j), body[j])
  {
    hide PlainProgram, PlainWord, SpellsOne, Spells;
    PlainBodySpellsOne(n, draws, code, 0);
    body := code[..n];
    forall j | 0 <= j < n ensures SpellsOne(PlainWord(draws, j), body[j]) {
      PlainBodySpellsOne(n, draws, code, j);
    }
  }

  lemma PlainWordMeans(n: nat, draws: Draws, code: seq<Instr>, i: nat) returns (rs1: reg, rs2: reg)
    requires Spells(PlainProgram(n, draws), code) && i < n
    ensures |code| == n + 5 && code[i] == Drawn(draws(i), 1, 0, rs1, rs2)
    ensures IsPicked(rs1, draws(i).first, Destinations(code[..i]))
    ensures IsPicked(rs2, draws(i).second, Destinations(code[..i]))
  {
    hide PlainProgram, PlainWord, SpellsOne, Spells, Drawn, IsPicked, Destinations, RecentPlain, Reversed, LastTwo;
    var body := PlainBodySpells(n, draws, code);
    rs1, rs2 := PlainBodyMeans(draws, n, body, i);
    assert body[..i] == code[..i];
  }

  /** n straight-line instructions on offer, data relative to x0; then a 1 stored at 0xFFF0 and `jal x0, 0`. */
  ghost predicate IsPlainProgram(n: nat, code: seq<Instr>) {
    && |code| == n + 5
    && (forall i :: 0 <= i < n ==> Offered(code[i], 1, 0))
    && code[n..] == [AluImm(Add, 31, 0, 1), Lui(30, 0x1_0000), AluImm(Add, 30, 30, -16), Store(Word, 30, 31, 0), Jal(0, 0)]
  }

  lemma PlainTail(n: nat, draws: Draws)
    ensures var words := PlainProgram(n, draws);
      |words| == n + 5
      && SpellsOne(words[n], AluImm(Add, 31, 0, 1)) && SpellsOne(words[n + 1], Lui(30, 0x1_0000))
      && SpellsOne(words[n + 2], AluImm(Add, 30, 30, -16)) && SpellsOne(words[n + 3], Store(Word, 30, 31, 0))
      && SpellsOne(words[n + 4], Jal(0, 0))
  {
    hide PlainProgram, Decode;
    PlainLayout(n, draws, n);
    PlainLayout(n, draws, n + 1);
    PlainLayout(n, draws, n + 2);
    PlainLayout(n, draws, n + 3);
    PlainLayout(n, draws, n + 4);
    ReferenceRuns.TohostDecodes();
    HaltDecodes();
  }

  lemma PlainSpelledIsOffered(n: nat, draws: Draws, code: seq<Instr>)
    requires Spells(PlainProgram(n, draws), code)
    ensures IsPlainProgram(n, code)
  {
    hide PlainProgram, Offered, Decode, Emit, KindOf, RecentPlain;
    PlainTail(n, draws);
    forall i | 0 <= i < n ensures Offered(code[i], 1, 0) {
      PlainLayout(n, draws, i);
      var _ := EmitOffers(draws(i), 1, 0, RecentPlain(draws, i));
    }
    TailIs(code, n);
  }

  lemma TailIs(code: seq<Instr>, n: nat)
    requires |code| == n + 5
    ensures code[n..] == [code[n], code[n + 1], code[n + 2], code[n + 3], code[n + 4]]
  {
  }

  lemma PlainOfferedIsSpelled(n: nat, code: seq<Instr>)
    requires IsPlainProgram(n, code)
    ensures Spells(PlainProgram(n, DrawsFor(code, 0)), code)
  {
    hide PlainProgram, Offered, Decode, Emit, KindOf, RecentPlain, DrawFor;
    var draws := DrawsFor(code, 0);
    PlainTail(n, draws);
    TailIs(code, n);
    forall i | 0 <= i < n ensures SpellsOne(PlainProgram(n, draws)[i], code[i]) {
      PlainLayout(n, draws, i);
      var _ := AskedIsEmitted(code[i], 1, 0, RecentPlain(draws, i));
    }
  }

  /** The programs `gen` can emit are exactly the offered ones without control flow. */
  lemma PlainProgramsExactly(n: nat, code: seq<Instr>)
    ensures IsPlainProgram(n, code) <==> exists draws: Draws :: Spells(PlainProgram(n, draws), code)
  {
    hide PlainProgram, IsPlainProgram, DrawsFor, Spells;
    forall draws: Draws | Spells(PlainProgram(n, draws), code) ensures IsPlainProgram(n, code) {
      PlainSpelledIsOffered(n, draws, code);
    }
    if IsPlainProgram(n, code) {
      PlainOfferedIsSpelled(n, code);
    }
  }
}
