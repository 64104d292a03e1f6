/**
  The random lockstep flow as a whole: generator, RTL trace file, Spike log, comparison.
 */
module EndToEnd {
  import opened Options
  import opened Bits
  import opened Retirement
  import opened Rv32i
  import opened RandGen
  import opened SpikeRuns
  import Lines
  import SpikeLog
  import RtlTrace
  import Lockstep

  /** Records as the trace file and the log report them. */
  predicate Reported(r: Record) { RtlTrace.Words(r) && r.rd <= 31 && (r.rd == 0 ==> r.wdata == 0) }

  lemma CycleReports(s: State)
    requires Cycle(s).Next?
    ensures Reported(Cycle(s).record)
  {
    hide Decode, Compute, Taken, Wrap;
  }

  lemma {:induction false} CollectedAreReported(s: State, fuel: nat)
    ensures forall r <- Collected(s, fuel) :: Reported(r)
    decreases fuel
  {
    hide Cycle, Reported;
    if fuel > 0 && Cycle(s).Next? {
      CycleReports(s);
      CollectedAreReported(Cycle(s).state, fuel - 1);
    }
  }

  /** The RTL side: a machine's records survive the trace file. */
  lemma TraceFileKeepsRecords(log: seq<Record>)
    requires (forall r <- log :: Reported(r)) && RtlTrace.EndsOnce(log)
    ensures forall r <- log :: RtlTrace.Words(r)
    ensures RtlTrace.ParsedTrace(Some(RtlTrace.PrintTrace(log))) == Some(log)
  {
    hide RtlTrace.PrintTrace, RtlTrace.ParsedTrace, RtlTrace.Words;
    RtlTrace.TraceRoundTrip(log);
    forall i | 0 <= i < |log|
      ensures RtlTrace.Normalised(log[i]) == log[i]
    {
      assert log[i] in log;
    }
    assert RtlTrace.AllNormalised(log) == log;
  }

  lemma {:induction false} BootIsSkipped(boot: seq<SpikeLog.Commit>, rest: seq<SpikeLog.Commit>)
    requires (forall c <- boot :: c.pc != 0x8000_0000) && rest != [] && rest[0].pc == 0x8000_0000
    ensures SpikeLog.FromReset(boot + rest) == rest
    decreases |boot|
  {
    if boot == [] {
      assert boot + rest == rest;
    } else {
      assert (boot + rest)[0] == boot[0] && (boot + rest)[1..] == boot[1..] + rest;
      BootIsSkipped(boot[1..], rest);
    }
  }

  lemma {:induction false} RestIsDropped(body: seq<SpikeLog.Commit>, more: seq<SpikeLog.Commit>)
    requires body != [] && forall i :: 0 <= i < |body| ==> (body[i].insn == 0x0000_006F <==> i == |body| - 1)
    ensures SpikeLog.ThroughTerminal(body + more) == body
    decreases |body|
  {
    assert body + more == [body[0]] + (body[1..] + more);
    SpikeLog.ThroughTerminalStep(body[0], body[1..] + more);
    if |body| > 1 {
      RestIsDropped(body[1..], more);
    }
  }

  /** Spike's log lists a run: boot ROM first, then the run's records, then anything. */
  ghost predicate Logs(recognise: SpikeLog.Recogniser, log: string, run: seq<Record>) {
    exists boot: seq<SpikeLog.Commit>, body: seq<SpikeLog.Commit>, more: seq<SpikeLog.Commit> ::
      && SpikeLog.Commits(recognise, Lines.Split(log).lines) == boot + (body + more)
      && (forall c <- boot :: c.pc != 0x8000_0000)
      && SpikeLog.AllWellFormed(body) && SpikeLog.RecordsOf(body) == run
  }

  lemma LogKeepsRecords(recognise: SpikeLog.Recogniser, log: string, run: seq<Record>)
    requires Logs(recognise, log, run) && RtlTrace.EndsOnce(run) && run[0].pc == 0x8000_0000
    ensures SpikeLog.Parse(recognise, log) == Some(SpikeLog.Parser(true, true, run))
  {
    var boot: seq<SpikeLog.Commit>, body: seq<SpikeLog.Commit>, more: seq<SpikeLog.Commit> :|
      && SpikeLog.Commits(recognise, Lines.Split(log).lines) == boot + (body + more)
      && (forall c <- boot :: c.pc != 0x8000_0000)
      && SpikeLog.AllWellFormed(body) && SpikeLog.RecordsOf(body) == run;
    forall i | 0 <= i < |body|
      ensures body[i].pc == run[i].pc && body[i].insn == run[i].insn
    {
      assert SpikeLog.RecordsOf(body)[i] == SpikeLog.RecordOf(body[i]);
    }
    BootIsSkipped(boot, body + more);
    RestIsDropped(body, more);
    SpikeLog.ParseSelects(recognise, log);
  }

  /**
    No false alarms: on every generated program, a core and a simulator that both follow the
    instruction set from the reset address, whatever their registers held before, produce a trace
    file and a log that the lockstep comparison accepts and finds equal.
   */
  lemma CorrectCoresPass(n: nat, draws: Draws, initial: nat -> int, words: seq<word>, core: State, simulator: State,
                         fuel: nat, recognise: SpikeLog.Recogniser, log: string)
    requires words == SpikeProgram(n, draws, initial) && fuel >= n + 12
    requires Start(words, 0x8000_0000, core) && Start(words, 0x8000_0000, simulator) && core.mem == simulator.mem
    requires Logs(recognise, log, Collected(simulator, fuel))
    ensures forall r <- Collected(core, fuel) :: RtlTrace.Words(r)
    ensures var rtl := RtlTrace.ParsedTrace(Some(RtlTrace.PrintTrace(Collected(core, fuel))));
      var spike := SpikeLog.Parse(recognise, log);
      rtl.Some? && spike.Some? && spike.value.complete && Lockstep.Agreeing(rtl.value, spike.value.records)
  {
    hide SpikeProgram, RtlTrace.PrintTrace, RtlTrace.ParsedTrace, SpikeLog.Parse, Logs, RtlTrace.Words;
    var run := Collected(core, fuel);
    ProgramsTerminate(n, draws, initial, words, 0x8000_0000, core, fuel);
    TracesIgnoreInitialRegisters(n, draws, initial, words, 0x8000_0000, core, simulator, fuel);
    CollectedAreReported(core, fuel);
    hide Collected, Start;
    TraceFileKeepsRecords(run);
    LogKeepsRecords(recognise, log, run);
  }

  /**
    No missed difference: when the tool passes a generated program, then the retirements the simulator
    wrote, whatever the core does, are the records the instruction set prescribes for it.
   */
  lemma PassMeansIsa(n: nat, draws: Draws, initial: nat -> int, words: seq<word>, simulator: State, fuel: nat,
                     recognise: SpikeLog.Recogniser, log: string, retired: seq<Record>,
                     turns: nat -> Lockstep.Turn, i: nat, k: nat)
    requires words == SpikeProgram(n, draws, initial) && fuel >= n + 12 && Start(words, 0x8000_0000, simulator)
    requires Logs(recognise, log, Collected(simulator, fuel)) && turns(k).log <= log
    requires (forall r <- retired :: RtlTrace.Words(r)) && turns(i).trace == Some(RtlTrace.PrintTrace(retired))
    requires Lockstep.Confirmed(recognise, turns, i, k)
    ensures RtlTrace.AllNormalised(retired) == Collected(simulator, fuel)
  {
    hide SpikeProgram, RtlTrace.PrintTrace, RtlTrace.ParsedTrace, SpikeLog.Parse, Logs, RtlTrace.Words;
    ProgramsTerminate(n, draws, initial, words, 0x8000_0000, simulator, fuel);
    hide Collected, Start, RtlTrace.AllNormalised, RtlTrace.RegistersFit;
    LogKeepsRecords(recognise, log, Collected(simulator, fuel));
    SpikeLog.ParseOfPrefix(recognise, turns(k).log, log);
    RtlTrace.TraceRoundTrip(retired);
  }

  // ----- the whole flow, supervision included

  /** The environment of a run in which both children do their work by the deadline. */
  ghost predicate Undisturbed(turns: nat -> Lockstep.Turn, deadlineTurn: nat, trace: string, log: string) {
    && Lockstep.Grows(turns)
    && (forall i: nat :: i <= deadlineTurn ==> Ordinary(turns(i), trace, log))
    && turns(deadlineTurn).simPoll == Some(0) && turns(deadlineTurn).log == log
  }

  /** Spike has written part of its log; the simulator, once it has exited, its whole trace. */
  ghost predicate Ordinary(turn: Lockstep.Turn, trace: string, log: string) {
    && turn.log <= log && Lockstep.Polite(turn) && turn.simPoll in {None, Some(0)}
    && (turn.simPoll == Some(0) ==> turn.trace == Some(trace))
  }

  /** Such an environment: Spike runs on until it is stopped, everything is there in the first turn. */
  lemma UndisturbedRun(trace: string, log: string, deadlineTurn: nat) returns (turns: nat -> Lockstep.Turn)
    ensures Undisturbed(turns, deadlineTurn, trace, log)
  {
    var turn := Lockstep.Turn(log, None, Some(0), None, Lockstep.Ending(None, Some(-15), 0), Some(trace));
    turns := (k: nat) => turn;
  }

  lemma OrdinaryIsHarmless(recognise: SpikeLog.Recogniser, turn: Lockstep.Turn, trace: string, log: string)
    requires Ordinary(turn, trace, log)
    requires RtlTrace.ParsedTrace(Some(trace)).Some? && SpikeLog.Parse(recognise, log).Some?
    ensures Lockstep.Harmless(recognise, turn)
    ensures Lockstep.Sealed(recognise, turn.log) ==>
              SpikeLog.Parse(recognise, turn.log) == SpikeLog.Parse(recognise, log)
  {
    hide SpikeLog.Parse, RtlTrace.ParsedTrace;
    SpikeLog.ParseOfPrefix(recognise, turn.log, log);
  }

  lemma UndisturbedIsEnough(recognise: SpikeLog.Recogniser, turns: nat -> Lockstep.Turn, deadlineTurn: nat,
                            trace: string, log: string)
    requires Undisturbed(turns, deadlineTurn, trace, log)
    requires RtlTrace.ParsedTrace(Some(trace)).Some? && Lockstep.Sealed(recognise, log)
    requires Lockstep.Agreeing(RtlTrace.ParsedTrace(Some(trace)).value, SpikeLog.Parse(recognise, log).value.records)
    ensures Lockstep.Cooperative(recognise, turns, deadlineTurn) && Lockstep.Consistent(recognise, turns, deadlineTurn)
  {
    hide SpikeLog.Parse, RtlTrace.ParsedTrace, Lockstep.Agreeing, Lockstep.Harmless, Lockstep.Grows;
    forall i: nat | i <= deadlineTurn
      ensures Lockstep.Harmless(recognise, turns(i))
    {
      OrdinaryIsHarmless(recognise, turns(i), trace, log);
    }
    forall i: nat, k: nat | i <= deadlineTurn && k <= deadlineTurn && Lockstep.Available(recognise, turns, i, k)
      ensures Lockstep.Confirmed(recognise, turns, i, k)
    {
      OrdinaryIsHarmless(recognise, turns(k), trace, log);
    }
  }

  /** On an undisturbed run over a generated program, correct machines make the lockstep tool exit 0. */
  method CorrectCoresExitZero(n: nat, draws: Draws, initial: nat -> int, words: seq<word>, core: State,
                              simulator: State, fuel: nat, recognise: SpikeLog.Recogniser, log: string,
                              turns: nat -> Lockstep.Turn, deadlineTurn: nat, last: Lockstep.Ending,
                              last': Lockstep.Ending)
    returns (status: int)
    requires words == SpikeProgram(n, draws, initial) && fuel >= n + 12
    requires Start(words, 0x8000_0000, core) && Start(words, 0x8000_0000, simulator) && core.mem == simulator.mem
    requires Logs(recognise, log, Collected(simulator, fuel))
    requires (forall r <- Collected(core, fuel) :: RtlTrace.Words(r))
             && Undisturbed(turns, deadlineTurn, RtlTrace.PrintTrace(Collected(core, fuel)), log)
    ensures status == 0
  {
    hide SpikeProgram, Start, Logs, Collected, RtlTrace.PrintTrace, RtlTrace.ParsedTrace, SpikeLog.Parse;
    hide Lockstep.Cooperative, Lockstep.Consistent, Lockstep.Agreeing, RtlTrace.Words;
    CorrectCoresPass(n, draws, initial, words, core, simulator, fuel, recognise, log);
    UndisturbedIsEnough(recognise, turns, deadlineTurn, RtlTrace.PrintTrace(Collected(core, fuel)), log);
    status := Lockstep.CheckProgram(recognise, true, true, turns, deadlineTurn, last, last');
  }

  // ----- a design behind the testbench

  /**
    The design retires, at whatever pace, the records of a machine that follows the instruction set; what
    its port shows of a write to x0 does not matter.
   */
  ghost predicate Follows(dut: RtlTrace.Dut, core: State) {
    forall k: nat :: RetiresSoFar(dut, core, k)
  }

  ghost predicate RetiresSoFar(dut: RtlTrace.Dut, core: State, k: nat) {
    && RtlTrace.Words(dut(k).record) && dut(k).record.rd <= 31
    && RtlTrace.AllNormalised(RtlTrace.Retired(dut, k)) == Trace(core, |RtlTrace.Retired(dut, k)|)
  }

  /** Cycle `k` is the first to retire a self-loop. */
  ghost predicate FirstSelfLoop(dut: RtlTrace.Dut, k: nat) {
    && dut(k).valid && dut(k).record.insn == 0x0000_006F
    && forall j: nat :: j < k ==> !(dut(j).valid && dut(j).record.insn == 0x0000_006F)
  }

  lemma {:induction false} TraceGrows(s: State, k: nat)
    requires |Trace(s, k + 1)| == k + 1
    ensures |Trace(s, k)| == k && Trace(s, k + 1)[..k] == Trace(s, k)
    decreases k
  {
    hide Cycle;
    if k > 0 {
      var rest := Cycle(s).state;
      assert Trace(s, k + 1) == [Cycle(s).record] + Trace(rest, k);
      TraceGrows(rest, k - 1);
      assert Trace(s, k) == [Cycle(s).record] + Trace(rest, k - 1);
    }
  }

  function Shown(core: State, k: nat): Record {
    if |Trace(core, k + 1)| == k + 1 then Trace(core, k + 1)[k] else Record(0, 0, 0, 0)
  }

  lemma LastShown(core: State, k: nat)
    requires |Trace(core, k + 1)| == k + 1
    ensures |Trace(core, k)| == k && Trace(core, k + 1) == Trace(core, k) + [Shown(core, k)]
  {
    TraceGrows(core, k);
    hide Trace;
    assert Trace(core, k + 1) == Trace(core, k + 1)[..k] + [Trace(core, k + 1)[k]];
  }

  /** The design retires what the machine does, one record a cycle. */
  ghost predicate Shows(dut: RtlTrace.Dut, core: State) {
    forall j: nat :: dut(j).valid && dut(j).record == Shown(core, j)
  }

  lemma {:induction false} ShownIsTrace(core: State, dut: RtlTrace.Dut, k: nat)
    requires Shows(dut, core) && |Trace(core, k)| == k
    ensures RtlTrace.Retired(dut, k) == Trace(core, k)
  {
    hide Trace, Shown, Cycle;
    if k > 0 {
      LastShown(core, k - 1);
      ShownIsTrace(core, dut, k - 1);
      assert dut(k - 1).valid && dut(k - 1).record == Shown(core, k - 1);
    } else {
      assert Trace(core, 0) == [];
    }
  }

  lemma {:induction false} TraceIsReported(s: State, k: nat)
    ensures forall r <- Trace(s, k) :: Reported(r)
    decreases k
  {
    hide Cycle, Reported;
    if k > 0 && Cycle(s).Next? {
      CycleReports(s);
      TraceIsReported(Cycle(s).state, k - 1);
    }
  }

  lemma ReportedIsNormal(records: seq<Record>)
    requires forall r <- records :: Reported(r)
    ensures RtlTrace.AllNormalised(records) == records
  {
    forall i | 0 <= i < |records|
      ensures RtlTrace.Normalised(records[i]) == records[i]
    {
      assert records[i] in records;
    }
  }

  /** On every generated program there is such a design: one that retires an instruction in every cycle. */
  lemma DesignFollows(n: nat, draws: Draws, initial: nat -> int, words: seq<word>, core: State)
    returns (dut: RtlTrace.Dut)
    requires words == SpikeProgram(n, draws, initial) && Start(words, 0x8000_0000, core)
    ensures Follows(dut, core)
  {
    hide SpikeProgram, Start, Reported, Shown, Trace;
    forall j: nat
      ensures |Trace(core, j)| == j
    {
      TracesIgnoreInitialRegisters(n, draws, initial, words, 0x8000_0000, core, core, j);
    }
    dut := (j: nat) => RtlTrace.Tick(true, Shown(core, j), false, 0);
    forall k: nat
      ensures RetiresSoFar(dut, core, k)
    {
      ShownIsTrace(core, dut, k);
      TraceIsReported(core, k);
      ReportedIsNormal(Trace(core, k));
      ShownIsReported(core, k);
    }
  }

  lemma ShownIsReported(core: State, k: nat)
    requires |Trace(core, k + 1)| == k + 1
    ensures RtlTrace.Words(Shown(core, k)) && Shown(core, k).rd <= 31
  {
    hide Trace;
    TraceIsReported(core, k + 1);
    assert Trace(core, k + 1)[k] in Trace(core, k + 1);
  }

  /** A trace that ends in its only self-loop is what a lockstep run collects. */
  lemma {:induction false} TraceIsCollected(s: State, m: nat, fuel: nat)
    requires |Trace(s, m)| == m && 1 <= m <= fuel && RtlTrace.EndsOnce(Trace(s, m))
    ensures Collected(s, fuel) == Trace(s, m)
    decreases m
  {
    hide Cycle;
    var t := Trace(s, m);
    assert t == [Cycle(s).record] + Trace(Cycle(s).state, m - 1);
    if m > 1 {
      assert t[1..] == Trace(Cycle(s).state, m - 1);
      assert t[0].insn != 0x0000_006F;
      EndsOnceLater(t);
      TraceIsCollected(Cycle(s).state, m - 1, fuel - 1);
    } else {
      assert Trace(Cycle(s).state, 0) == [];
    }
  }

  lemma EndsOnceLater(t: seq<Record>)
    requires RtlTrace.EndsOnce(t) && |t| > 1
    ensures RtlTrace.EndsOnce(t[1..]) && t[0].insn != 0x0000_006F
  {
    assert t[1..][|t| - 2] == t[|t| - 1];
  }

  lemma WrittenEndsOnce(dut: RtlTrace.Dut, last: nat)
    requires FirstSelfLoop(dut, last)
    ensures RtlTrace.EndsOnce(RtlTrace.Retired(dut, last + 1))
  {
    RtlTrace.RetiredLast(dut, last);
    assert RtlTrace.Retired(dut, last + 1) == RtlTrace.Retired(dut, last) + [dut(last).record];
  }

  lemma NormalisedEndsOnce(log: seq<Record>)
    requires RtlTrace.EndsOnce(log)
    ensures RtlTrace.EndsOnce(RtlTrace.AllNormalised(log)) && |RtlTrace.AllNormalised(log)| == |log|
  {
  }

  /** What such a design has retired when it comes to the self-loop reads back as the machine's records. */
  lemma WrittenIsCollected(n: nat, draws: Draws, initial: nat -> int, words: seq<word>, core: State, fuel: nat,
                           dut: RtlTrace.Dut, last: nat, log: seq<Record>)
    requires words == SpikeProgram(n, draws, initial) && Start(words, 0x8000_0000, core) && fuel >= n + 12
    requires Follows(dut, core) && FirstSelfLoop(dut, last) && log == RtlTrace.Retired(dut, last + 1)
    ensures forall r <- log :: RtlTrace.Words(r)
    ensures RtlTrace.ParsedTrace(Some(RtlTrace.PrintTrace(log))) == Some(Collected(core, fuel))
  {
    hide SpikeProgram, Start, RtlTrace.Words, RtlTrace.PrintTrace, RtlTrace.ParsedTrace;
    hide RtlTrace.EndsOnce, RtlTrace.AllNormalised, RtlTrace.Retired, FirstSelfLoop, Trace, Collected;
    FollowedAreWords(dut, core, last + 1);
    assert RetiresSoFar(dut, core, last + 1);
    WrittenEndsOnce(dut, last);
    NormalisedEndsOnce(log);
    var m := |log|;
    var more := m + fuel;
    NotEmpty(log);
    TraceIsCollected(core, m, more);
    ProgramsTerminate(n, draws, initial, words, 0x8000_0000, core, more);
    TraceIsCollected(core, m, fuel);
    RtlTrace.TraceRoundTrip(log);
    assert RtlTrace.RegistersFit(log);
  }

  lemma NotEmpty(log: seq<Record>)
    requires RtlTrace.EndsOnce(log)
    ensures |log| >= 1
  {
  }

  lemma FollowedAreWords(dut: RtlTrace.Dut, core: State, k: nat)
    requires Follows(dut, core)
    ensures forall r <- RtlTrace.Retired(dut, k) :: RtlTrace.Words(r) && r.rd <= 31
  {
    hide RtlTrace.Words;
    forall j: nat
      ensures RtlTrace.Words(dut(j).record) && dut(j).record.rd <= 31
    {
      assert RetiresSoFar(dut, core, j);
    }
    RtlTrace.RetiredAreWords(dut, k);
  }

  /**
    The whole tool: a design that follows the instruction set and comes to the self-loop within
    50 * cycles + 1000 clock cycles, a correct Spike and an undisturbed run give exit status 0, for
    every generated program.
   */
  method CorrectDesignExitsZero(n: nat, draws: Draws, initial: nat -> int, words: seq<word>, core: State,
                                simulator: State, fuel: nat, recognise: SpikeLog.Recogniser, log: string,
                                dut: RtlTrace.Dut, cycles: nat, ghost last: nat, turns: nat -> Lockstep.Turn,
                                deadlineTurn: nat, ending: Lockstep.Ending, ending': Lockstep.Ending)
    returns (status: int)
    requires words == SpikeProgram(n, draws, initial) && fuel >= n + 12
    requires Start(words, 0x8000_0000, core) && Start(words, 0x8000_0000, simulator) && core.mem == simulator.mem
    requires Logs(recognise, log, Collected(simulator, fuel))
    requires Follows(dut, core) && FirstSelfLoop(dut, last) && last < 50 * cycles + 1000
    requires (forall r <- RtlTrace.Retired(dut, last + 1) :: RtlTrace.Words(r))
             && Undisturbed(turns, deadlineTurn, RtlTrace.PrintTrace(RtlTrace.Retired(dut, last + 1)), log)
    ensures status == 0
  {
    hide SpikeProgram, Start, Logs, Collected, RtlTrace.PrintTrace, RtlTrace.ParsedTrace, SpikeLog.Parse;
    hide Lockstep.Cooperative, Lockstep.Consistent, Lockstep.Agreeing, RtlTrace.Words, Follows, RtlTrace.Retired;
    CorrectCoresPass(n, draws, initial, words, core, simulator, fuel, recognise, log);
    CollectedIsParsed(core, n, draws, initial, words, fuel);
    var written, terminal, ran, code := RtlTrace.RetirementLoop(dut, RtlTrace.SelfLoop, cycles);
    assert ran == last + 1;
    WrittenIsCollected(n, draws, initial, words, core, fuel, dut, last, written);
    UndisturbedIsEnough(recognise, turns, deadlineTurn, RtlTrace.PrintTrace(written), log);
    status := Lockstep.CheckProgram(recognise, true, true, turns, deadlineTurn, ending, ending');
  }

  lemma CollectedIsParsed(core: State, n: nat, draws: Draws, initial: nat -> int, words: seq<word>, fuel: nat)
    requires words == SpikeProgram(n, draws, initial) && Start(words, 0x8000_0000, core) && fuel >= n + 12
    ensures forall r <- Collected(core, fuel) :: RtlTrace.Words(r)
    ensures RtlTrace.ParsedTrace(Some(RtlTrace.PrintTrace(Collected(core, fuel)))) == Some(Collected(core, fuel))
  {
    hide SpikeProgram, RtlTrace.PrintTrace, RtlTrace.ParsedTrace, RtlTrace.Words;
    ProgramsTerminate(n, draws, initial, words, 0x8000_0000, core, fuel);
    CollectedAreReported(core, fuel);
    hide Collected, Start;
    TraceFileKeepsRecords(Collected(core, fuel));
  }
}
