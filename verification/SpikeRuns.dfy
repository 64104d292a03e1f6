/**
  What a `gen_spike` program does when a machine runs it: it terminates, stays inside its own words,
  touches only its data window, and retires the same records from any initial register file.
 */
module SpikeRuns {
  import opened Options
  import opened Bits
  import opened Retirement
  import opened Rv32i
  import opened Encode
  import opened RandGen

  /** The last word, where the program spins. */
  function Last(words: seq<word>): int { |words| - 1 }

  predicate InitialisesOnly(i: Instr, r: reg) { i.AluImm? && i.op == Add && i.rd == r && i.rs1 == 0 }

  /** What word `i` of a generated program is, at `last - i` words before the self-loop. */
  predicate WordFits(w: int, i: nat, last: int) {
    && 0 <= w < WORD
    && (w == 0x0000_006F <==> i == last)
    && (i == 0 ==> Decode(w) == Lui(BASE_REG, DATA_BASE))
    && (1 <= i <= 10 ==> InitialisesOnly(Decode(w), i))
    && (11 <= i < last ==> Tame(Decode(w), last - i, BASE_REG))
  }

  /** A prologue that sets x31 and x1..x10, a tame body that only jumps forward, one self-loop. */
  ghost predicate Generated(words: seq<int>) {
    |words| >= 12 && forall i :: 0 <= i < |words| ==> WordFits(words[i], i, |words| - 1)
  }

  lemma BaseWord() returns (w: word)
    ensures w == UType(BASE_REG, Shr(DATA_BASE, 12), 0x37) && Decode(w) == Lui(BASE_REG, DATA_BASE) && w != HALT
  {
    hide Bits.Bitwise, UType, Rv32i.Decode;
    Powers();
    HaltDecodes();
    assert Shr(DATA_BASE, 12) == 0x8_0300;
    DecodeUType(BASE_REG, 0x8_0300, 0x37);
    w := UType(BASE_REG, 0x8_0300, 0x37);
  }

  lemma InitialWord(r: reg, k: int) returns (w: word)
    ensures w == Initialise(r, k) && InitialisesOnly(Decode(w), r) && w != HALT
  {
    hide Bits.Bitwise, IType, Rv32i.Decode;
    HaltDecodes();
    w := DecodeArithmetic(r, 0, k % 4096 - 2048, 0);
  }

  lemma ProgramLayout(n: nat, draws: Draws, initial: nat -> int, i: nat)
    requires i < n + 12
    ensures |SpikeProgram(n, draws, initial)| == n + 12
    ensures SpikeProgram(n, draws, initial)[i]
         == if i == 0 then UType(BASE_REG, Shr(DATA_BASE, 12), 0x37)
            else if i <= 10 then Initialise(i, initial(i - 1))
            else if i <= n + 10 then SpikeWord(draws, n, i - 11)
            else HALT
  {
    hide UType, Initialise, SpikeWord, Bits.Shr;
  }

  lemma ProgramWordFits(n: nat, draws: Draws, initial: nat -> int, i: nat)
    requires i < n + 12
    ensures |SpikeProgram(n, draws, initial)| == n + 12
    ensures WordFits(SpikeProgram(n, draws, initial)[i], i, n + 11)
  {
    hide Bits.Bitwise, IType, UType, Rv32i.Decode, Initialise, Tame, SpikeProgram, Emit, KindOf, RecentAt;
    ProgramLayout(n, draws, initial, i);
    HaltDecodes();
    if i == 0 {
      var _ := BaseWord();
    } else if i <= 10 {
      var _ := InitialWord(i, initial(i - 1));
    } else if i <= n + 10 {
      var d := draws(i - 11);
      EmitIsTame(d, n + 11 - i, BASE_REG, RecentAt(draws, n, i - 11));
    }
  }

  /** Every program the generator can emit has that shape. */
  lemma ProgramsAreGenerated(n: nat, draws: Draws, initial: nat -> int)
    ensures |SpikeProgram(n, draws, initial)| == n + 12 && Generated(SpikeProgram(n, draws, initial))
  {
    hide SpikeProgram, WordFits;
    var words := SpikeProgram(n, draws, initial);
    ProgramWordFits(n, draws, initial, 0);
    forall i | 0 <= i < n + 12
      ensures WordFits(words[i], i, n + 11)
    {
      ProgramWordFits(n, draws, initial, i);
    }
  }

  // ----- one step

  ghost predicate Loaded(words: seq<word>, base: int, m: Memory)
    requires base % 4 == 0
  {
    forall i :: 0 <= i < |words| ==> Read(m, base / 4 + i) == words[i]
  }

  /** The program is word-aligned, fits the address space and does not overlap its data window. */
  predicate Placed(words: seq<word>, base: int) {
    && base % 4 == 0 && 0 <= base && base + 4 * |words| <= WORD
    && (base + 4 * |words| <= DATA_BASE || DATA_BASE + 4 * MEM_WORDS <= base)
  }

  predicate InWindow(index: int) { DATA_BASE / 4 <= index < DATA_BASE / 4 + MEM_WORDS }

  /** About to execute word `at` of the loaded program, with the base register set up. */
  ghost predicate At(words: seq<word>, base: int, s: State, at: int) {
    && base % 4 == 0 && 0 <= at < |words| && s.pc == base + 4 * at
    && Loaded(words, base, s.mem)
    && (at >= 1 ==> s.x[BASE_REG] == DATA_BASE)
  }

  ghost predicate SameOutsideWindow(m: Memory, m': Memory) {
    forall index :: !InWindow(index) ==> Read(m, index) == Read(m', index)
  }

  /** The byte address an instruction accesses, if it is a load or a store. */
  function AccessOf(s: State): Option<int> {
    match Decode(Read(s.mem, s.pc / 4))
    case Load(_, _, rs1, imm) => Some(Wrap(s.x[rs1] + imm))
    case Store(_, rs1, _, imm) => Some(Wrap(s.x[rs1] + imm))
    case _ => None
  }

  lemma FetchAt(words: seq<word>, base: int, s: State, at: int)
    requires At(words, base, s, at)
    ensures s.pc % 4 == 0 && Read(s.mem, s.pc / 4) == words[at]
  {
    assert s.pc / 4 == base / 4 + at;
  }

  lemma StillLoaded(words: seq<word>, base: int, m: Memory, m': Memory)
    requires Placed(words, base) && Loaded(words, base, m) && SameOutsideWindow(m, m')
    ensures Loaded(words, base, m')
  {
    forall i | 0 <= i < |words|
      ensures Read(m', base / 4 + i) == words[i]
    {
      assert !InWindow(base / 4 + i);
    }
  }

  /** One cycle at word `at` leads to word `at'`. */
  ghost predicate Advances(words: seq<word>, base: int, s: State, at: int, at': int) {
    && At(words, base, s, at) && Cycle(s).Next?
    && Cycle(s).record.pc == base + 4 * at && Cycle(s).record.insn == words[at]
    && At(words, base, Cycle(s).state, at') && (at < at' || at == at' == Last(words))
    && SameOutsideWindow(s.mem, Cycle(s).state.mem)
    && (AccessOf(s).Some? ==> DATA_BASE <= AccessOf(s).value < DATA_BASE + 4 * MEM_WORDS)
  }

  /** The next word executed: always a later one, until the self-loop. */
  function Following(words: seq<word>, s: State, at: int): int
    requires 0 <= at < |words|
  {
    match Decode(words[at])
    case Branch(c, rs1, rs2, imm) => if Taken(c, s.x[rs1], s.x[rs2]) then at + imm / 4 else at + 1
    case Jal(_, imm) => at + imm / 4
    case _ => at + 1
  }

  lemma Fits(words: seq<word>, at: nat)
    requires Generated(words) && at < |words|
    ensures WordFits(words[at], at, Last(words)) && |words| >= 12
  {
  }

  lemma PrologueStep(words: seq<word>, base: int, s: State, at: int)
    requires Generated(words) && Placed(words, base) && At(words, base, s, at) && at <= 10
    ensures Advances(words, base, s, at, at + 1)
  {
    hide Rv32i.Decode, Compute, Generated, Tame;
    Fits(words, at);
    FetchAt(words, base, s, at);
  }

  /** A forward offset leads to a later word. */
  lemma ForwardTarget(words: seq<word>, base: int, at: int, imm: int)
    requires Placed(words, base) && 0 <= at < |words| && 4 <= imm <= 4 * (Last(words) - at) && imm % 4 == 0
    ensures Wrap(base + 4 * at + imm) == base + 4 * (at + imm / 4)
    ensures Wrap(base + 4 * at + imm) % 4 == 0
  {
  }

  lemma WindowAddress(imm: int)
    requires 0 <= imm < 4 * MEM_WORDS && imm % 4 == 0
    ensures Wrap(DATA_BASE + imm) == DATA_BASE + imm && (DATA_BASE + imm) % 4 == 0
    ensures InWindow((DATA_BASE + imm) / 4)
  {
  }

  lemma BodyStep(words: seq<word>, base: int, s: State, at: int)
    requires Generated(words) && Placed(words, base) && At(words, base, s, at) && 11 <= at < Last(words)
    ensures Advances(words, base, s, at, Following(words, s, at))
  {
    hide Rv32i.Decode, Compute, Generated, Taken, Wrap, Placed, InWindow, Loaded;
    Fits(words, at);
    FetchAt(words, base, s, at);
    ForwardTarget(words, base, at, 4);
    match Decode(words[at])
    case Branch(_, _, _, imm) => ForwardTarget(words, base, at, imm);
    case Jal(_, imm) => ForwardTarget(words, base, at, imm);
    case Load(_, _, _, imm) => WindowAddress(imm);
    case Store(_, _, rs2, imm) =>
      WindowAddress(imm);
      StillLoaded(words, base, s.mem, s.mem[(DATA_BASE + imm) / 4 := s.x[rs2]]);
    case _ =>
  }

  lemma StepForward(words: seq<word>, base: int, s: State, at: int) returns (at': int)
    requires Generated(words) && Placed(words, base) && At(words, base, s, at)
    ensures Advances(words, base, s, at, at')
    ensures at' == if at == Last(words) then at else Following(words, s, at)
  {
    hide Rv32i.Decode, Compute, Generated, Tame;
    Fits(words, at);
    if at <= 10 {
      PrologueStep(words, base, s, at);
      at' := at + 1;
    } else if at < Last(words) {
      BodyStep(words, base, s, at);
      at' := Following(words, s, at);
    } else {
      FetchAt(words, base, s, at);
      HaltDecodes();
      at' := at;
    }
  }

  // ----- whole runs

  function After(s: State, k: nat): Option<State>
    decreases k
  {
    if k == 0 then Some(s) else if Cycle(s).Stuck? then None else After(Cycle(s).state, k - 1)
  }

  /** The records of the first `k` cycles. */
  function Trace(s: State, k: nat): seq<Record>
    decreases k
  {
    if k == 0 || Cycle(s).Stuck? then [] else [Cycle(s).record] + Trace(Cycle(s).state, k - 1)
  }

  /** What a lockstep run collects: the records up to and including the first self-loop. */
  function Collected(s: State, fuel: nat): seq<Record>
    decreases fuel
  {
    if fuel == 0 || Cycle(s).Stuck? then []
    else if Cycle(s).record.insn == 0x0000_006F then [Cycle(s).record]
    else [Cycle(s).record] + Collected(Cycle(s).state, fuel - 1)
  }

  /** Ready to run from the first word; registers are whatever the machine's reset left in them. */
  ghost predicate Start(words: seq<word>, base: int, s: State) {
    Placed(words, base) && s.pc == base && Loaded(words, base, s.mem)
  }

  function WordAt(words: seq<word>, first: int, k: int): word {
    if first <= k < first + |words| then words[k - first] else 0
  }

  /** Programs that end below the data window can be started at the reset address, with any registers. */
  lemma ProgramsCanStart(n: nat, draws: Draws, initial: nat -> int, x: Regs) returns (words: seq<word>, s: State)
    requires n + 12 <= (DATA_BASE - 0x8000_0000) / 4
    ensures words == SpikeProgram(n, draws, initial) && Start(words, 0x8000_0000, s) && s.x == x
  {
    hide SpikeProgram, Tame, Decode;
    ProgramsAreGenerated(n, draws, initial);
    words := SpikeProgram(n, draws, initial);
    var first := 0x8000_0000 / 4;
    s := State(0x8000_0000, x, map k: int | first <= k < first + |words| :: WordAt(words, first, k));
  }

  /** After `k` cycles the run is at word `at`. */
  ghost predicate Within(words: seq<word>, base: int, s: State, k: nat, at: int) {
    && After(s, k).Some? && At(words, base, After(s, k).value, at)
    && SameOutsideWindow(s.mem, After(s, k).value.mem)
    && Advances(words, base, After(s, k).value, at,
                if at == Last(words) then at else Following(words, After(s, k).value, at))
  }

  lemma {:induction false} RunFrom(words: seq<word>, base: int, s: State, at: int, k: nat) returns (end: int)
    requires Generated(words) && Placed(words, base) && At(words, base, s, at)
    ensures Within(words, base, s, k, end) && at <= end
    ensures at + k <= end || end == Last(words)
    decreases k
  {
    hide Generated, Placed, Loaded, Cycle, SameOutsideWindow, AccessOf, Following;
    var next := StepForward(words, base, s, at);
    if k == 0 {
      end := at;
      SameIsReflexive(s.mem);
    } else {
      end := RunFrom(words, base, Cycle(s).state, next, k - 1);
      SameIsTransitive(s.mem, Cycle(s).state.mem, After(s, k).value.mem);
    }
  }

  lemma SameIsReflexive(a: Memory)
    ensures SameOutsideWindow(a, a)
  {
  }

  lemma SameIsTransitive(a: Memory, b: Memory, c: Memory)
    requires SameOutsideWindow(a, b) && SameOutsideWindow(b, c)
    ensures SameOutsideWindow(a, c)
  {
  }

  /**
    For every seed and every outcome of every branch: after any number of cycles the machine is still
    inside its own, unmodified words; nothing outside the data window has changed; a load or store
    addresses the window; and after n + 11 cycles it spins at the final self-loop.
   */
  lemma RunsStayInside(n: nat, draws: Draws, initial: nat -> int, words: seq<word>, base: int, s: State, k: nat)
    requires words == SpikeProgram(n, draws, initial) && Start(words, base, s)
    ensures After(s, k).Some?
    ensures var t := After(s, k).value;
      && base <= t.pc <= base + 4 * (n + 11) && t.pc % 4 == 0
      && Loaded(words, base, t.mem) && SameOutsideWindow(s.mem, t.mem)
      && (AccessOf(t).Some? ==> DATA_BASE <= AccessOf(t).value < DATA_BASE + 4 * MEM_WORDS)
      && Cycle(t).Next? && (t.pc < Cycle(t).state.pc || t.pc == Cycle(t).state.pc == base + 4 * (n + 11))
      && (k >= n + 11 ==> t.pc == base + 4 * (n + 11))
  {
    hide Generated, SpikeProgram, Cycle, AccessOf, SameOutsideWindow, Following;
    ProgramsAreGenerated(n, draws, initial);
    var at := RunFrom(words, base, s, 0, k);
  }

  // ----- independence of the initial registers

  /** Registers that the prologue has set by the time word `at` is reached. */
  predicate Ready(r: reg, at: int) { r == 0 || (r == BASE_REG && at >= 1) || (1 <= r <= 10 && r < at) }

  ghost predicate Agree(s: State, t: State, at: int) {
    s.pc == t.pc && s.mem == t.mem && forall r: reg :: Ready(r, at) ==> s.x[r] == t.x[r]
  }

  /** An instruction whose source registers agree does the same in both states. */
  lemma SameExecution(i: Instr, insn: word, s: State, t: State, at: int, at': int)
    requires Agree(s, t, at) && at < at'
    requires i.Lui? || (i.AluImm? && Ready(i.rs1, at))
          || (i.Alu? && Ready(i.rs1, at) && Ready(i.rs2, at)) || (i.Load? && Ready(i.rs1, at))
          || (i.Store? && Ready(i.rs1, at) && Ready(i.rs2, at)) || (i.Branch? && Ready(i.rs1, at) && Ready(i.rs2, at))
          || i.Jal?
    requires forall r: reg :: Ready(r, at') ==> Ready(r, at) || ((i.Lui? || i.AluImm?) && r == i.rd)
    requires Execute(i, insn, s).Next?
    ensures Execute(i, insn, t).Next? && Execute(i, insn, s).record == Execute(i, insn, t).record
    ensures Agree(Execute(i, insn, s).state, Execute(i, insn, t).state, at')
    ensures Execute(i, insn, s).state.pc == Execute(i, insn, t).state.pc
  {
    hide Compute, Taken, Wrap, Ready;
  }

  lemma StepTogether(words: seq<word>, base: int, s: State, t: State, at: int) returns (at': int)
    requires Generated(words) && Placed(words, base) && At(words, base, s, at) && At(words, base, t, at)
    requires Agree(s, t, at)
    ensures Advances(words, base, s, at, at') && Advances(words, base, t, at, at')
    ensures Cycle(s).record == Cycle(t).record
    ensures Agree(Cycle(s).state, Cycle(t).state, at')
  {
    hide Rv32i.Decode, Execute, Generated, Placed, Loaded, SameOutsideWindow, Agree;
    Fits(words, at);
    FetchAt(words, base, s, at);
    FetchAt(words, base, t, at);
    at' := StepForward(words, base, s, at);
    if at == Last(words) {
      HaltDecodes();
      SpinTogether(s, t, at);
    } else {
      SameExecution(Decode(words[at]), words[at], s, t, at, at');
    }
    var again := StepForward(words, base, t, at);
    assert again == at';
  }

  lemma SpinTogether(s: State, t: State, at: int)
    requires Agree(s, t, at) && Execute(Jal(0, 0), HALT, s).Next?
    ensures Execute(Jal(0, 0), HALT, t).Next? && Execute(Jal(0, 0), HALT, s).record == Execute(Jal(0, 0), HALT, t).record
    ensures Agree(Execute(Jal(0, 0), HALT, s).state, Execute(Jal(0, 0), HALT, t).state, at)
    ensures Execute(Jal(0, 0), HALT, s).state.pc == Execute(Jal(0, 0), HALT, t).state.pc
  {
  }

  /** Two runs of a generated program from different registers retire the same records. */
  lemma {:induction false} RunTogether(words: seq<word>, base: int, s: State, t: State, at: int, k: nat)
    requires Generated(words) && Placed(words, base) && At(words, base, s, at) && At(words, base, t, at)
    requires Agree(s, t, at)
    ensures Trace(s, k) == Trace(t, k) && |Trace(s, k)| == k
    ensures Collected(s, k) == Collected(t, k)
    decreases k
  {
    hide Generated, Placed, Loaded, Cycle, SameOutsideWindow, AccessOf, Agree, Following;
    var next := StepTogether(words, base, s, t, at);
    if k > 0 {
      RunTogether(words, base, Cycle(s).state, Cycle(t).state, next, k - 1);
    }
  }

  /**
    For every seed, two machines that start a generated program with the same memory but arbitrary
    registers (x0 being zero on both) retire the same records, for any number of cycles.
   */
  lemma TracesIgnoreInitialRegisters(n: nat, draws: Draws, initial: nat -> int, words: seq<word>, base: int,
                                     s: State, t: State, k: nat)
    requires words == SpikeProgram(n, draws, initial) && Start(words, base, s) && Start(words, base, t)
    requires s.mem == t.mem
    ensures Trace(s, k) == Trace(t, k) && |Trace(s, k)| == k
    ensures Collected(s, k) == Collected(t, k)
  {
    hide Generated, SpikeProgram;
    ProgramsAreGenerated(n, draws, initial);
    RunTogether(words, base, s, t, 0, k);
  }

  lemma {:induction false} CollectedFrom(words: seq<word>, base: int, s: State, at: int, fuel: nat)
    requires Generated(words) && Placed(words, base) && At(words, base, s, at) && fuel > Last(words) - at
    ensures var log := Collected(s, fuel);
      && 1 <= |log| <= Last(words) - at + 1
      && log[|log| - 1].insn == 0x0000_006F && log[|log| - 1].pc == base + 4 * Last(words)
      && log[0].pc == base + 4 * at
      && (forall i :: 0 <= i < |log| - 1 ==> log[i].insn != 0x0000_006F && log[i].pc < log[i + 1].pc)
    decreases fuel
  {
    hide Generated, Placed, Loaded, Cycle, SameOutsideWindow, AccessOf, Following, WordFits;
    var next := StepForward(words, base, s, at);
    OnlyLastIsTerminal(words, at);
    if at < Last(words) {
      CollectedFrom(words, base, Cycle(s).state, next, fuel - 1);
      var rest := Collected(Cycle(s).state, fuel - 1);
      assert Collected(s, fuel) == [Cycle(s).record] + rest;
    }
  }

  lemma OnlyLastIsTerminal(words: seq<word>, at: nat)
    requires Generated(words) && at < |words|
    ensures words[at] == 0x0000_006F <==> at == Last(words)
  {
  }

  /**
    Every generated program terminates: a run collects at most n + 12 records with strictly
    increasing program counters, the first at the load address, and the self-loop appears exactly
    once, as the last record.
   */
  lemma ProgramsTerminate(n: nat, draws: Draws, initial: nat -> int, words: seq<word>, base: int, s: State, fuel: nat)
    requires words == SpikeProgram(n, draws, initial) && Start(words, base, s) && fuel >= n + 12
    ensures var log := Collected(s, fuel);
      && 1 <= |log| <= n + 12
      && log[0].pc == base && log[|log| - 1].pc == base + 4 * (n + 11)
      && (forall i :: 0 <= i < |log| ==> (log[i].insn == 0x0000_006F <==> i == |log| - 1))
      && (forall i :: 0 <= i < |log| - 1 ==> log[i].pc < log[i + 1].pc)
  {
    hide Generated, SpikeProgram, Collected;
    ProgramsAreGenerated(n, draws, initial);
    CollectedFrom(words, base, s, 0, fuel);
  }
}
