/**
  The .ref files: what the Python interpreter computes for a `gen` program, and that the instruction
  set computes the same registers.
 */
module ReferenceRuns {
  import opened Options
  import opened Bits
  import opened Rv32i
  import opened Encode
  import opened RandGen
  import opened PythonModel

  /** The body instructions of a straight-line program: no control flow, data relative to x0. */
  predicate Plain(w: word) {
    w != HALT && Tame(Decode(w), 1, 0) && !Decode(w).Branch? && !Decode(w).Jal?
  }

  const TOHOST_ADDR := 0x0000_FFF0

  lemma TohostDecodes()
    ensures Decode(TOHOST_ONE[0]) == AluImm(Add, 31, 0, 1)
    ensures Decode(TOHOST_ONE[1]) == Lui(30, 0x1_0000)
    ensures Decode(TOHOST_ONE[2]) == AluImm(Add, 30, 30, -16)
    ensures Decode(TOHOST_ONE[3]) == Store(Word, 30, 31, 0)
  {
    hide Decode;
    FirstTohost();
    SecondTohost();
    ThirdTohost();
    LastTohost();
  }

  lemma FirstTohost()
    ensures Decode(0x0010_0F93) == AluImm(Add, 31, 0, 1)
  {
    Fields(0x0010_0F93, 0x13, 31, 0, 0, 1, 0);
    DivModUnique(0x0010_0F93, 0x10_0000, 1, 0xF93);
    hide Opcode, Rd, Rs1, Rs2, Funct3, Funct7;
  }

  lemma SecondTohost()
    ensures Decode(0x0001_0F37) == Lui(30, 0x1_0000)
  {
  }

  lemma ThirdTohost()
    ensures Decode(0xFF0F_0F13) == AluImm(Add, 30, 30, -16)
  {
    Fields(0xFF0F_0F13, 0x13, 30, 0, 30, 0x10, 0x7F);
    DivModUnique(0xFF0F_0F13, 0x10_0000, 0xFF0, 0xF_0F13);
    hide Opcode, Rd, Rs1, Rs2, Funct3, Funct7;
  }

  lemma LastTohost()
    ensures Decode(0x01FF_2023) == Store(Word, 30, 31, 0)
  {
    Fields(0x01FF_2023, 0x23, 0, 2, 30, 31, 0);
    assert ImmS(0x01FF_2023) == Sign(0, 0x800);
    hide Opcode, Rd, Rs1, Rs2, Funct3, Funct7;
  }

  lemma PlainProgramWords(n: nat, draws: Draws, i: nat)
    requires i < n + 5
    ensures |PlainProgram(n, draws)| == n + 5
    ensures var w := PlainProgram(n, draws)[i];
      0 <= w < WORD && (i < n ==> Plain(w)) && (n <= i < n + 4 ==> w == TOHOST_ONE[i - n]) && (i == n + 4 ==> w == HALT)
  {
    hide Emit, RecentPlain, Decode, Tame;
    if i < n {
      EmitIsTame(draws(i), 1, 0, RecentPlain(draws, i));
      assert PlainProgram(n, draws)[i] == PlainWord(draws, i);
    }
  }

  ghost predicate IsPlainProgram(words: seq<int>) {
    && |words| >= 5
    && (forall i :: 0 <= i < |words| ==> 0 <= words[i] < WORD)
    && (forall i :: 0 <= i < |words| - 5 ==> Plain(words[i]))
    && (forall i :: |words| - 5 <= i < |words| - 1 ==> words[i] == TOHOST_ONE[i - (|words| - 5)])
    && words[|words| - 1] == HALT
  }

  lemma ProgramsArePlain(n: nat, draws: Draws)
    ensures |PlainProgram(n, draws)| == n + 5 && IsPlainProgram(PlainProgram(n, draws))
  {
    hide PlainProgram, Plain;
    forall i | 0 <= i < n + 5
      ensures |PlainProgram(n, draws)| == n + 5
      ensures var w := PlainProgram(n, draws)[i];
        0 <= w < WORD && (i < n ==> Plain(w)) && (n <= i < n + 4 ==> w == TOHOST_ONE[i - n]) && (i == n + 4 ==> w == HALT)
    {
      PlainProgramWords(n, draws, i);
    }
    PlainProgramWords(n, draws, 0);
  }

  /** The instruction set on split memories: instructions from `words` at address 0, data in `s.mem`. */
  function HarvardCycle(words: seq<word>, s: State): Step {
    if s.pc % 4 == 0 && s.pc / 4 < |words| then Execute(Decode(words[s.pc / 4]), words[s.pc / 4], s) else Stuck
  }

  function HarvardAfter(words: seq<word>, s: State, k: nat): Option<State> {
    if k == 0 then Some(s)
    else match HarvardAfter(words, s, k - 1)
      case None => None
      case Some(t) => match HarvardCycle(words, t) case Stuck => None case Next(u, _) => Some(u)
  }

  /** Interpreter and instruction set are at word `k` with the same registers and scratch words. */
  ghost predicate InStep(s: State, m: Machine, k: int) {
    && s.pc == 4 * k && s.x == m.x && |m.mem| == MEM_WORDS
    && (forall i :: 0 <= i < MEM_WORDS ==> Read(s.mem, i) == m.mem[i])
    && forall r: reg :: 11 <= r ==> m.x[r] == 0
  }

  lemma PlainStep(words: seq<word>, s: State, m: Machine, k: nat)
    requires k + 1 < |words| && 4 * |words| <= WORD && Plain(words[k]) && InStep(s, m, k)
    ensures InScope(Decode(words[k])) && Lenient(words[k]) == Some(Decode(words[k]))
    ensures HarvardCycle(words, s).Next?
    ensures InStep(HarvardCycle(words, s).state, Perform(Decode(words[k]), m), k + 1)
  {
    hide Decode, Lenient, Compute, Wrap;
    LenientIsDecode(words[k]);
    assert s.pc / 4 == k;
    assert Wrap(s.pc + 4) == 4 * (k + 1) by { SmallWrap(s.pc + 4); }
    match Decode(words[k])
    case Load(_, _, _, imm) => SmallWrap(imm);
    case Store(_, _, _, imm) => SmallWrap(imm);
    case _ =>
  }

  lemma SmallWrap(v: int)
    requires 0 <= v < WORD
    ensures Wrap(v) == v
  {
  }

  /** Interpreter state after the first `k` words of a program. */
  ghost function MachineAt(words: seq<word>, k: nat): Machine
    requires k <= |words|
  {
    if k == 0 then Machine(ZeroRegs(), seq(MEM_WORDS, _ => 0))
    else
      var m := MachineAt(words, k - 1);
      var i := Decode(words[k - 1]);
      if InScope(i) && |m.mem| > 0 then Perform(i, m) else m
  }

  /** A machine out of reset: every register and every scratch word is zero. */
  ghost predicate Reset(s: State) {
    s.pc == 0 && s.x == ZeroRegs() && forall i :: 0 <= i < MEM_WORDS ==> Read(s.mem, i) == 0
  }

  lemma {:induction false} BodyInStep(words: seq<word>, s: State, k: nat)
    requires IsPlainProgram(words) && 4 * |words| <= WORD && Reset(s) && k <= |words| - 5
    ensures HarvardAfter(words, s, k).Some?
    ensures InStep(HarvardAfter(words, s, k).value, MachineAt(words, k), k)
    ensures Interpret(words, MachineAt(words, 0)) == Interpret(words[k..], MachineAt(words, k))
  {
    hide Plain, Decode, Lenient, HarvardCycle, Perform;
    if k == 0 {
      assert words[0..] == words;
    } else {
      BodyInStep(words, s, k - 1);
      PlainStep(words, HarvardAfter(words, s, k - 1).value, MachineAt(words, k - 1), k - 1);
      PlainIsNotHalt(words[k - 1]);
      assert words[k - 1..][1..] == words[k..];
    }
  }

  lemma PlainIsNotHalt(w: word)
    requires Plain(w)
    ensures w != HALT
  {
  }

  /** Progress of the completion sequence: `j` of its four instructions are done. */
  ghost predicate Completing(s: State, m: Machine, k: int, j: int) {
    && s.pc == 4 * k && s.x == m.x && |m.mem| == MEM_WORDS
    && (forall r: reg :: 11 <= r <= 29 ==> m.x[r] == 0)
    && (j >= 1 ==> m.x[31] == 1)
    && (j == 2 ==> m.x[30] == 0x1_0000)
    && (j >= 3 ==> m.x[30] == TOHOST_ADDR)
    && (j == 4 ==> Read(s.mem, TOHOST_ADDR / 4) == 1)
  }

  lemma CompletingStep(words: seq<word>, s: State, m: Machine, k: nat, j: nat)
    requires k + 1 < |words| && 4 * |words| <= WORD && j < 4 && words[k] == TOHOST_ONE[j] && Completing(s, m, k, j)
    ensures InScope(Decode(words[k])) && Lenient(words[k]) == Some(Decode(words[k])) && words[k] != HALT
    ensures HarvardCycle(words, s).Next?
    ensures Completing(HarvardCycle(words, s).state, Perform(Decode(words[k]), m), k + 1, j + 1)
  {
    hide Decode, Lenient;
    TohostDecodes();
    LenientIsDecode(words[k]);
    assert s.pc / 4 == k;
  }

  lemma {:induction false} TailInStep(words: seq<word>, s: State, n: nat, j: nat)
    requires IsPlainProgram(words) && |words| == n + 5 && 4 * |words| <= WORD && Reset(s) && j <= 4
    ensures HarvardAfter(words, s, n + j).Some?
    ensures Completing(HarvardAfter(words, s, n + j).value, MachineAt(words, n + j), n + j, j)
    ensures Interpret(words, MachineAt(words, 0)) == Interpret(words[n + j..], MachineAt(words, n + j))
  {
    hide Plain, Decode, Lenient, HarvardCycle, Perform, Reset;
    if j == 0 {
      BodyInStep(words, s, n);
    } else {
      hide Completing;
      TailInStep(words, s, n, j - 1);
      var k := n + j - 1;
      assert words[k] == TOHOST_ONE[j - 1];
      CompletingStep(words, HarvardAfter(words, s, k).value, MachineAt(words, k), k, j - 1);
      assert words[k..][1..] == words[k + 1..];
    }
  }

  /**
    The random-test references: for every seed the interpreter never raises on a `gen` program and
    ends with x11..x29 = 0, x30 = tohost address and x31 = 1, and a machine that follows the
    instruction set from reset reaches the halt word with exactly these registers and a 1 in tohost.
   */
  lemma ReferencesAreIsaResults(n: nat, draws: Draws, words: seq<word>, s: State)
    requires words == PlainProgram(n, draws) && 4 * |words| <= WORD && Reset(s)
    ensures var end := Interpret(words, Machine(ZeroRegs(), seq(MEM_WORDS, _ => 0)));
      && end.Some?
      && (forall r: reg :: 11 <= r <= 29 ==> end.value.x[r] == 0)
      && end.value.x[30] == TOHOST_ADDR && end.value.x[31] == 1
      && HarvardAfter(words, s, n + 4).Some?
      && HarvardAfter(words, s, n + 4).value.x == end.value.x
      && HarvardAfter(words, s, n + 4).value.pc == 4 * (n + 4) && words[n + 4] == HALT
      && Read(HarvardAfter(words, s, n + 4).value.mem, TOHOST_ADDR / 4) == 1
  {
    hide PlainProgram, Plain, HarvardCycle, Perform, HarvardAfter;
    ProgramsArePlain(n, draws);
    TailInStep(words, s, n, 4);
    assert MachineAt(words, 0) == Machine(ZeroRegs(), seq(MEM_WORDS, _ => 0));
    assert words[n + 4..] == [HALT];
  }
}
