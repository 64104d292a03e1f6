/**
  tools/lockstep.py: supervision of the simulator and Spike, and the comparison of their traces.

  The operating system is an arbitrary environment: what each poll and wait answers, how the log
  file grows, what the trace file holds and when the deadline passes are functions of the turn.
 */
module Lockstep {
  import opened Options
  import opened Rv32i
  import opened Retirement
  import Lines
  import SpikeLog
  import RtlTrace

  // ----- comparison

  datatype Verdict =
    | Pass
    | LengthMismatch(matching: nat)
    | Diverged(index: nat)
    | NotTerminal

  /** Complete lockstep equality: the same retirements through the terminal self-loop. */
  predicate Agreeing(rtl: seq<Record>, spike: seq<Record>) {
    rtl == spike && rtl != [] && rtl[|rtl| - 1].insn == 0x0000_006F
  }

  /** `n` is the length of the longest common prefix. */
  ghost predicate FirstDifference(a: seq<Record>, b: seq<Record>, n: nat) {
    n <= |a| && n <= |b| && a[..n] == b[..n] && (n < |a| && n < |b| ==> a[n] != b[n])
  }

  method CompareTraces(rtl: seq<Record>, spike: seq<Record>) returns (status: int, verdict: Verdict)
    ensures status == if verdict.Pass? then 0 else 1
    ensures verdict.Pass? <==> Agreeing(rtl, spike)
    ensures verdict.LengthMismatch? <==> |rtl| != |spike|
    ensures verdict.LengthMismatch? ==> FirstDifference(rtl, spike, verdict.matching)
    ensures verdict.Diverged? <==> |rtl| == |spike| && rtl != spike
    ensures verdict.Diverged? ==> verdict.index < |rtl| && FirstDifference(rtl, spike, verdict.index)
  {
    var overlap := if |rtl| < |spike| then |rtl| else |spike|;
    if |rtl| != |spike| {
      var matching := 0;
      while matching < overlap && rtl[matching] == spike[matching]
        invariant 0 <= matching <= overlap
        invariant rtl[..matching] == spike[..matching]
      {
        matching := matching + 1;
      }
      return 1, LengthMismatch(matching);
    }
    for index := 0 to overlap
      invariant rtl[..index] == spike[..index]
    {
      if rtl[index] != spike[index] {
        return 1, Diverged(index);
      }
    }
    assert rtl[..overlap] == rtl && spike[..overlap] == spike;
    if rtl == [] || rtl[|rtl| - 1].insn != TERMINAL_INSN || spike[|spike| - 1].insn != TERMINAL_INSN {
      return 1, NotTerminal;
    }
    return 0, Pass;
  }

  // ----- child processes

  const SIGTERM_STATUS := -15
  const SIGKILL_STATUS := -9

  /** What the system answers while a child is terminated: to the poll, to the wait, after the kill. */
  datatype Ending = Ending(polled: Option<int>, waited: Option<int>, killed: int)

  class Child {
    /** The exit status once the parent has collected it; the child is reaped from then on. */
    var returncode: Option<int>
    /** The turn in which the parent sent it a signal. */
    var signalled: Option<nat>

    constructor ()
      ensures returncode == None == signalled
    {
      returncode, signalled := None, None;
    }

    method Poll(answer: Option<int>) returns (status: Option<int>)
      modifies this`returncode
      ensures returncode == if old(returncode).Some? then old(returncode) else answer
      ensures status == returncode
    {
      if returncode.None? {
        returncode := answer;
      }
      status := returncode;
    }
  }

  /** `terminate_and_reap`: after it the child, if there is one, has been waited for. */
  method TerminateAndReap(child: Child?, os: Ending, now: nat) returns (requested: bool)
    modifies if child == null then {} else {child}
    ensures child != null ==> child.returncode.Some?
    ensures child != null ==> (requested <==> old(child.returncode).None? && os.polled.None?)
    ensures child != null ==> child.signalled == if requested then Some(now) else old(child.signalled)
    ensures child != null && old(child.returncode).Some? ==> child.returncode == old(child.returncode)
    ensures child != null && old(child.returncode).None? && os.polled.Some? ==> child.returncode == os.polled
    ensures child != null && requested ==> child.returncode == if os.waited.Some? then os.waited else Some(os.killed)
    ensures child == null ==> !requested
  {
    if child == null {
      return false;
    }
    requested := false;
    var status := child.Poll(os.polled);
    if status.None? {
      child.signalled := Some(now);
      requested := true;
      if os.waited.Some? {
        child.returncode := os.waited;
      } else {
        child.returncode := Some(os.killed);
      }
    }
  }

  // ----- supervision

  /** One pass of the polling loop, as the environment decides it. */
  datatype Turn = Turn(
    log: string,
    spikePoll: Option<int>,
    simPoll: Option<int>,
    grace: Option<int>,
    ending: Ending,
    trace: Option<string>)

  /** A log file only grows. */
  ghost predicate Grows(turns: nat -> Turn) {
    forall k: nat :: turns(k).log <= turns(k + 1).log
  }

  datatype Failure =
    | CannotStart
    | SpikeExited(status: int)
    | SimulatorExited(status: int)
    | BadTrace
    | MalformedLog
    | DeadlineForSpike
    | DeadlineForSimulator
    | DeadlineForBoth

  datatype Result = Traces(rtl: seq<Record>, spike: seq<Record>) | Raised(failure: Failure)

  predicate Intentional(signalledByUs: bool, status: int) {
    signalledByUs && (status == SIGTERM_STATUS || status == SIGKILL_STATUS)
  }

  /** Spike's stream was complete in this log. */
  ghost predicate Sealed(recognise: SpikeLog.Recogniser, log: string) {
    SpikeLog.Parse(recognise, log).Some? && SpikeLog.Parse(recognise, log).value.complete
  }

  /** The parent signalled the child, if at all, in a turn up to `k` whose log was complete. */
  ghost predicate SignalledAfterSeal(recognise: SpikeLog.Recogniser, turns: nat -> Turn, k: nat,
                                     signalled: Option<nat>) {
    signalled.Some? ==> signalled.value <= k && Sealed(recognise, turns(signalled.value).log)
  }

  /** Everything that was true of the run when it returned traces. */
  ghost predicate Established(recognise: SpikeLog.Recogniser, turns: nat -> Turn, k: nat, result: Result,
                              sim: Child, spike: Child)
    requires result.Traces?
    reads sim, spike
  {
    && sim.returncode == Some(0)
    && (exists i: nat :: i <= k && turns(i).simPoll == Some(0)
                         && RtlTrace.ParsedTrace(turns(i).trace) == Some(result.rtl))
    && Sealed(recognise, turns(k).log)
    && SpikeLog.Parse(recognise, turns(k).log).value.records == result.spike
    && spike.returncode.Some?
    && (spike.returncode == Some(0) || (spike.signalled.Some? && spike.returncode in {Some(-15), Some(-9)}))
    && SignalledAfterSeal(recognise, turns, k, spike.signalled)
  }

  /** Why the run raised, in terms of the last turn and the children's statuses. */
  ghost predicate Explained(recognise: SpikeLog.Recogniser, turns: nat -> Turn, k: nat, deadlineTurn: nat,
                            failure: Failure, sim: Child, spike: Child)
    reads sim, spike
  {
    match failure
    case CannotStart => false
    case SpikeExited(status) =>
      spike.returncode == Some(status) && status != 0 && !(spike.signalled.Some? && status in {-15, -9})
    case SimulatorExited(status) => sim.returncode == Some(status) && status != 0
    case BadTrace => sim.returncode == Some(0) && RtlTrace.ParsedTrace(turns(k).trace).None?
    case MalformedLog => SpikeLog.Parse(recognise, turns(k).log).None?
    case DeadlineForSpike => k >= deadlineTurn && sim.returncode == Some(0) && !Sealed(recognise, turns(k).log)
    case DeadlineForSimulator => k >= deadlineTurn && Sealed(recognise, turns(k).log)
    case DeadlineForBoth => k >= deadlineTurn && !Sealed(recognise, turns(k).log)
  }

  /** A status that is no reason to give up on Spike. */
  predicate Acceptable(status: Option<int>, terminatedByUs: bool) {
    status.Some? ==> status == Some(0) || Intentional(terminatedByUs, status.value)
  }

  /** Spike is running, has exited 0, or dies of the parent's signal. */
  predicate Polite(turn: Turn) {
    && turn.spikePoll in {None, Some(0)} && turn.grace in {None, Some(0)} && turn.ending.polled in {None, Some(0)}
    && turn.ending.waited in {None, Some(0), Some(-15), Some(-9)} && turn.ending.killed in {0, -15, -9}
  }

  /** Nothing goes wrong in any turn up to the deadline, by which both children have done their work. */
  ghost predicate Cooperative(recognise: SpikeLog.Recogniser, turns: nat -> Turn, deadlineTurn: nat) {
    && (forall i: nat :: i <= deadlineTurn ==> Harmless(recognise, turns(i)))
    && turns(deadlineTurn).simPoll == Some(0) && Sealed(recognise, turns(deadlineTurn).log)
  }

  ghost predicate Harmless(recognise: SpikeLog.Recogniser, turn: Turn) {
    && SpikeLog.Parse(recognise, turn.log).Some? && Polite(turn) && turn.simPoll in {None, Some(0)}
    && (turn.simPoll == Some(0) ==> RtlTrace.ParsedTrace(turn.trace).Some?)
  }

  /** Once its stream is sealed Spike gets a short grace period, then it is stopped. */
  method StopSpike(spike: Child, turn: Turn, now: nat) returns (terminatedByUs: bool)
    requires spike.returncode == None == spike.signalled
    modifies spike
    ensures spike.returncode.Some?
    ensures spike.signalled == if terminatedByUs then Some(now) else None
    ensures terminatedByUs <==> turn.grace.None? && turn.ending.polled.None?
    ensures Polite(turn) ==> Acceptable(spike.returncode, terminatedByUs)
  {
    terminatedByUs := false;
    var status := spike.Poll(turn.grace);
    if status.None? {
      terminatedByUs := TerminateAndReap(spike, turn.ending, now);
    }
  }

  /** What the collected statuses mean; the trace file is read once, when the simulator has exited 0. */
  method Judge(turn: Turn, spikeStatus: Option<int>, terminatedByUs: bool, simStatus: Option<int>,
               rtl: Option<seq<Record>>)
    returns (failure: Option<Failure>, trace: Option<seq<Record>>)
    ensures failure
         == if spikeStatus.Some? && spikeStatus.value != 0 && !(terminatedByUs && spikeStatus.value in {-15, -9}) then
              Some(SpikeExited(spikeStatus.value))
            else if simStatus.Some? && simStatus.value != 0 then Some(SimulatorExited(simStatus.value))
            else if simStatus == Some(0) && rtl.None? && RtlTrace.ParsedTrace(turn.trace).None? then Some(BadTrace)
            else None
    ensures failure.None? ==> Acceptable(spikeStatus, terminatedByUs)
    ensures failure.None? && simStatus.Some? ==> simStatus == Some(0) && trace.Some?
    ensures failure.None? ==>
      trace == if simStatus == Some(0) && rtl.None? then RtlTrace.ParsedTrace(turn.trace) else rtl
  {
    hide RtlTrace.ParsedTrace;
    failure, trace := None, rtl;
    if spikeStatus.Some? && spikeStatus.value != 0 && !Intentional(terminatedByUs, spikeStatus.value) {
      failure := Some(SpikeExited(spikeStatus.value));
    } else if simStatus.Some? && simStatus.value != 0 {
      failure := Some(SimulatorExited(simStatus.value));
    } else if simStatus == Some(0) && rtl.None? {
      trace := RtlTrace.ParseRtlTrace(turn.trace);
      if trace.None? {
        failure := Some(BadTrace);
      }
    }
  }

  /** Spike has not exited when polled, nor within the grace period, nor when it is about to be signalled. */
  predicate StillRunning(turn: Turn) { turn.spikePoll.None? && turn.grace.None? && turn.ending.polled.None? }

  /** Polls both children, Spike first, and stops Spike when its stream is sealed. */
  method PollChildren(turn: Turn, now: nat, complete: bool, sim: Child, spike: Child, terminatedByUs: bool)
    returns (spikeStatus: Option<int>, simStatus: Option<int>, byUs: bool)
    requires sim != spike
    requires terminatedByUs <==> spike.signalled.Some?
    requires terminatedByUs ==> spike.returncode.Some?
    modifies sim`returncode, spike
    ensures sim.returncode == if old(sim.returncode).Some? then old(sim.returncode) else turn.simPoll
    ensures old(spike.returncode).Some? ==> spike.returncode == old(spike.returncode)
    ensures simStatus == sim.returncode && spikeStatus == spike.returncode
    ensures byUs <==> spike.signalled.Some?
    ensures complete || byUs ==> spikeStatus.Some?
    ensures Polite(turn) && Acceptable(old(spike.returncode), terminatedByUs) ==> Acceptable(spikeStatus, byUs)
    ensures spike.signalled
         == if old(spike.returncode).None? && complete && StillRunning(turn) then Some(now) else old(spike.signalled)
  {
    byUs := terminatedByUs;
    spikeStatus := spike.Poll(turn.spikePoll);
    simStatus := sim.Poll(turn.simPoll);
    if complete && spikeStatus.None? {
      byUs := StopSpike(spike, turn, now);
      spikeStatus := spike.returncode;
    }
  }

  lemma CompleteIsSealed(parser: SpikeLog.SpikeTrace, log: string)
    requires parser.HasRead(log)
    ensures Sealed(parser.recognise, log) <==> parser.complete
  {
  }

  /** What holds at the start of turn `k`: the log was read up to `seen`, the trace in turn `traceTurn`. */
  ghost predicate Watching(recognise: SpikeLog.Recogniser, turns: nat -> Turn, k: nat, parser: SpikeLog.SpikeTrace,
                           seen: string, sim: Child, spike: Child, rtl: Option<seq<Record>>, terminatedByUs: bool,
                           traceTurn: nat)
    reads parser, sim, spike
  {
    && parser.recognise == recognise && parser.HasRead(seen) && seen <= turns(k).log
    && (rtl.Some? ==> sim.returncode == Some(0) && traceTurn <= k && turns(traceTurn).simPoll == Some(0)
                      && RtlTrace.ParsedTrace(turns(traceTurn).trace) == rtl)
    && (sim.returncode.Some? ==> rtl.Some?)
    && (terminatedByUs <==> spike.signalled.Some?) && (terminatedByUs ==> spike.returncode.Some?)
    && (parser.complete ==> spike.returncode.Some?) && Acceptable(spike.returncode, terminatedByUs)
    && SignalledAfterSeal(recognise, turns, k, spike.signalled)
  }

  /** How a turn leaves the loop, or that it goes on. */
  datatype Step = Onward | Finished | Failed(failure: Failure)

  /** The body of the polling loop in turn `k`. */
  method WatchTurn(recognise: SpikeLog.Recogniser, turns: nat -> Turn, k: nat, deadlineTurn: nat,
                   parser: SpikeLog.SpikeTrace, ghost seen: string, sim: Child, spike: Child,
                   rtl: Option<seq<Record>>, terminatedByUs: bool, ghost traceTurn: nat)
    returns (step: Step, trace: Option<seq<Record>>, byUs: bool, ghost traceTurn': nat)
    requires sim != spike && k <= deadlineTurn && Grows(turns)
    requires Watching(recognise, turns, k, parser, seen, sim, spike, rtl, terminatedByUs, traceTurn)
    modifies parser, sim, spike
    ensures step.Onward? ==> k < deadlineTurn
    ensures step.Onward? ==>
      Watching(recognise, turns, k + 1, parser, turns(k).log, sim, spike, trace, byUs, traceTurn')
    ensures step.Finished? ==>
      trace.Some? && Established(recognise, turns, k, Traces(trace.value, parser.records), sim, spike)
    ensures step.Failed? ==> Explained(recognise, turns, k, deadlineTurn, step.failure, sim, spike)
    ensures step in {Failed(DeadlineForSimulator), Failed(DeadlineForBoth)} ==> sim.returncode.None?
    ensures step.Failed? ==> !Cooperative(recognise, turns, deadlineTurn)
  {
    hide SpikeLog.Parse, Lines.Split, RtlTrace.ParsedTrace, Sealed, Polite;
    trace, byUs, traceTurn' := rtl, terminatedByUs, traceTurn;
    var turn := turns(k);
    var ok := parser.Update(turn.log, seen);
    if !ok {
      return Failed(MalformedLog), trace, byUs, traceTurn';
    }
    CompleteIsSealed(parser, turn.log);
    hide SpikeLog.SpikeTrace.HasRead;
    var spikeStatus, simStatus;
    spikeStatus, simStatus, byUs := PollChildren(turn, k, parser.complete, sim, spike, terminatedByUs);
    var failure;
    failure, trace := Judge(turn, spikeStatus, byUs, simStatus, rtl);
    if failure.Some? {
      return Failed(failure.value), trace, byUs, traceTurn';
    }
    if simStatus == Some(0) && rtl.None? {
      traceTurn' := k;
    }
    if trace.Some? && parser.complete {
      assert SpikeLog.Parse(recognise, turn.log).value.records == parser.records by {
        ReadRecords(parser, turn.log);
      }
      return Finished, trace, byUs, traceTurn';
    }
    if k >= deadlineTurn {
      return Failed(if simStatus == Some(0) && !parser.complete then DeadlineForSpike
                    else if parser.complete && simStatus.None? then DeadlineForSimulator
                    else DeadlineForBoth), trace, byUs, traceTurn';
    }
    assert turns(k).log <= turns(k + 1).log;
    step := Onward;
  }

  lemma ReadRecords(parser: SpikeLog.SpikeTrace, log: string)
    requires parser.HasRead(log)
    ensures SpikeLog.Parse(parser.recognise, log).Some?
    ensures SpikeLog.Parse(parser.recognise, log).value.records == parser.records
  {
    hide SpikeLog.Parse, Lines.Split;
  }

  /** The polling loop; `k` is the last turn. */
  method Watch(recognise: SpikeLog.Recogniser, turns: nat -> Turn, deadlineTurn: nat, sim: Child, spike: Child)
    returns (result: Result, k: nat)
    requires Grows(turns) && sim != spike
    requires sim.returncode == None == sim.signalled && spike.returncode == None == spike.signalled
    modifies sim, spike
    ensures k <= deadlineTurn
    ensures result.Traces? ==> Established(recognise, turns, k, result, sim, spike)
    ensures result.Raised? ==> Explained(recognise, turns, k, deadlineTurn, result.failure, sim, spike)
    ensures Cooperative(recognise, turns, deadlineTurn) ==> result.Traces?
  {
    hide SpikeLog.Parse, Lines.Split, RtlTrace.ParsedTrace, Sealed, Cooperative, Established, Explained;
    var parser := new SpikeLog.SpikeTrace(recognise);
    ghost var seen := "";
    var rtl: Option<seq<Record>> := None;
    var spikeTerminatedByUs := false;
    ghost var traceTurn: nat := 0;
    k := 0;
    assert Watching(recognise, turns, k, parser, seen, sim, spike, rtl, spikeTerminatedByUs, traceTurn);
    hide Watching;
    while true
      invariant k <= deadlineTurn && fresh(parser)
      invariant Watching(recognise, turns, k, parser, seen, sim, spike, rtl, spikeTerminatedByUs, traceTurn)
      decreases deadlineTurn - k
    {
      var step;
      step, rtl, spikeTerminatedByUs, traceTurn :=
        WatchTurn(recognise, turns, k, deadlineTurn, parser, seen, sim, spike, rtl, spikeTerminatedByUs, traceTurn);
      match step {
        case Failed(failure) => return Raised(failure), k;
        case Finished => return Traces(rtl.value, parser.records), k;
        case Onward =>
          seen := turns(k).log;
          k := k + 1;
      }
    }
  }

  /** The loop with its `finally` clause: both children are waited for, however the loop ends. */
  method Supervise(recognise: SpikeLog.Recogniser, turns: nat -> Turn, deadlineTurn: nat, last: Ending, last': Ending,
                   sim: Child, spike: Child)
    returns (result: Result, k: nat)
    requires Grows(turns) && sim != spike
    requires sim.returncode == None == sim.signalled && spike.returncode == None == spike.signalled
    modifies sim, spike
    ensures sim.returncode.Some? && spike.returncode.Some?
    ensures k <= deadlineTurn
    ensures result.Traces? ==> Established(recognise, turns, k, result, sim, spike)
    ensures result.Raised? ==> Explained(recognise, turns, k, deadlineTurn, result.failure, sim, spike)
    ensures Cooperative(recognise, turns, deadlineTurn) ==> result.Traces?
  {
    hide SpikeLog.Parse, RtlTrace.ParsedTrace, Sealed, Cooperative;
    result, k := Watch(recognise, turns, deadlineTurn, sim, spike);
    var _ := TerminateAndReap(sim, last, k);
    var _ := TerminateAndReap(spike, last', k);
  }

  /** `run_children`: starts Spike, then the simulator, and supervises them. */
  method RunChildren(recognise: SpikeLog.Recogniser, spikeStarts: bool, simStarts: bool, turns: nat -> Turn,
                     deadlineTurn: nat, last: Ending, last': Ending)
    returns (result: Result, sim: Child?, spike: Child?, k: nat)
    requires Grows(turns)
    ensures spike != null <==> spikeStarts
    ensures sim != null <==> spikeStarts && simStarts
    ensures sim != null ==> fresh(sim) && sim.returncode.Some?
    ensures spike != null ==> fresh(spike) && spike.returncode.Some?
    ensures k <= deadlineTurn
    ensures result == Raised(CannotStart) <==> !(spikeStarts && simStarts)
    ensures result.Traces? ==> sim != null && spike != null && Established(recognise, turns, k, result, sim, spike)
    ensures result.Raised? && spikeStarts && simStarts ==>
      Explained(recognise, turns, k, deadlineTurn, result.failure, sim, spike)
    ensures spikeStarts && simStarts && Cooperative(recognise, turns, deadlineTurn) ==> result.Traces?
  {
    hide Cooperative;
    sim, spike, k := null, null, 0;
    if spikeStarts {
      spike := new Child();
    }
    if spikeStarts && simStarts {
      sim := new Child();
      result, k := Supervise(recognise, turns, deadlineTurn, last, last', sim, spike);
    } else {
      var _ := TerminateAndReap(sim, last, k);
      var _ := TerminateAndReap(spike, last', k);
      result := Raised(CannotStart);
    }
  }

  /** In turn `i` there is an accepted trace of the exited simulator, in turn `k` a sealed log. */
  ghost predicate Available(recognise: SpikeLog.Recogniser, turns: nat -> Turn, i: nat, k: nat) {
    turns(i).simPoll == Some(0) && RtlTrace.ParsedTrace(turns(i).trace).Some? && Sealed(recognise, turns(k).log)
  }

  /** And they agree. */
  ghost predicate Confirmed(recognise: SpikeLog.Recogniser, turns: nat -> Turn, i: nat, k: nat) {
    && Available(recognise, turns, i, k)
    && Agreeing(RtlTrace.ParsedTrace(turns(i).trace).value, SpikeLog.Parse(recognise, turns(k).log).value.records)
  }

  /** Whatever trace and sealed log the run picks up, they agree. */
  ghost predicate Consistent(recognise: SpikeLog.Recogniser, turns: nat -> Turn, deadlineTurn: nat) {
    forall i: nat, k: nat ::
      i <= deadlineTurn && k <= deadlineTurn && Available(recognise, turns, i, k) ==> Confirmed(recognise, turns, i, k)
  }

  /** `main`, from starting the children to the exit status. */
  method CheckProgram(recognise: SpikeLog.Recogniser, spikeStarts: bool, simStarts: bool, turns: nat -> Turn,
                      deadlineTurn: nat, last: Ending, last': Ending)
    returns (status: int)
    requires Grows(turns)
    ensures status == 0 || status == 1
    ensures status == 0 ==> spikeStarts && simStarts
    ensures status == 0 ==> exists i: nat, k: nat :: i <= k <= deadlineTurn && Confirmed(recognise, turns, i, k)
    ensures (spikeStarts && simStarts && Cooperative(recognise, turns, deadlineTurn)
             && Consistent(recognise, turns, deadlineTurn)) ==> status == 0
  {
    hide SpikeLog.Parse, RtlTrace.ParsedTrace, Cooperative, Agreeing;
    var result, sim, spike, k := RunChildren(recognise, spikeStarts, simStarts, turns, deadlineTurn, last, last');
    if result.Raised? {
      return 1;
    }
    ghost var i: nat :| i <= k && turns(i).simPoll == Some(0)
                        && RtlTrace.ParsedTrace(turns(i).trace) == Some(result.rtl);
    var verdict;
    status, verdict := CompareTraces(result.rtl, result.spike);
    assert Confirmed(recognise, turns, i, k) <==> verdict.Pass?;
  }
}
