/**
  sim/soc_tb.cpp, `main`: the scenario the SoC testbench plays against the design under test.

  The design is an arbitrary function from the cycle number to what its outputs show after that
  cycle; since the harness drives the button deterministically this covers every reactive design.
 */
module SocHarness {
  import opened Bits
  import opened Options
  import opened Uart

  const CYCLE_DEADLINE := 100000
  const UART_DIVISOR := 8

  datatype Cycle = Cycle(finished: bool, busFault: bool, uartTx: bool, led: int, progress: word)

  type Dut = nat -> Cycle

  datatype State = WaitBoot | BouncePress | StablePress1 | WaitIrq1 | StableRelease | StablePress2 | WaitIrq2 | Complete

  datatype Harness = Harness(
    state: State,
    line: seq<int>,
    lineCount: nat,
    stateCycles: nat,
    resumeMark: word,
    sawIrqLine: bool,
    trackLed: bool,
    lastLed: int,
    ledTransitions: nat)

  const START := Harness(WaitBoot, [], 0, 0, 0, false, false, 0, 0)

  function Codes(s: string): seq<int> { seq(|s|, i requires 0 <= i < |s| => s[i] as int) }

  function ExpectedLine(k: nat): seq<int>
    requires k < 3
  {
    Codes(if k == 0 then "rv32i soc ready\n" else "external irq\n")
  }

  /** The first `k` expected lines. */
  function ExpectedText(k: nat): seq<int>
    requires k <= 3
  {
    if k == 0 then [] else ExpectedText(k - 1) + ExpectedLine(k - 1)
  }

  /** Three short pulses, then quiet. */
  predicate Bounce(n: nat) { n < 12 && n % 4 < 2 }

  /** The level the harness drives on the button in a cycle. */
  function Button(h: Harness, before: bool): bool {
    match h.state
    case BouncePress => Bounce(h.stateCycles)
    case StablePress1 => true
    case StablePress2 => true
    case StableRelease => false
    case _ => before
  }

  /** Collects a byte into the current line; `None` when the harness fails. */
  function TakeByte(h: Harness, byte: Option<int>): Option<Harness> {
    if byte.None? then Some(h)
    else
      var line := h.line + [byte.value];
      if |line| > 64 then None
      else if byte.value != '\n' as int then Some(h.(line := line))
      else if h.lineCount >= 3 || line != ExpectedLine(h.lineCount) then None
      else Some(h.(line := [], lineCount := h.lineCount + 1))
  }

  /** Follows the LED: 1, then 2, then 4 and nothing else. */
  function TakeLed(h: Harness, led: int): Option<Harness> {
    if !h.trackLed || led == h.lastLed then Some(h)
    else
      var transitions := h.ledTransitions + 1;
      if transitions > 2 || led != (if transitions == 1 then 2 else 4) then None
      else Some(h.(ledTransitions := transitions, lastLed := led))
  }

  datatype Move = Fail | Pass | Go(harness: Harness)

  function ExitCode(m: Move): Option<int> {
    match m case Fail => Some(1) case Pass => Some(0) case Go(_) => None
  }

  /** Remembers where progress stood when the interrupt line was complete. */
  function Marked(h: Harness, c: Cycle, lines: nat): Harness {
    if !h.sawIrqLine && h.lineCount == lines then h.(sawIrqLine := true, resumeMark := c.progress) else h
  }

  /** The 32-bit comparison with the remembered mark. */
  predicate MovedOn(mark: word, now: word) { now > Wrap(mark + 8) }

  predicate Resumed(h: Harness, c: Cycle) { h.sawIrqLine && MovedOn(h.resumeMark, c.progress) }

  /** The switch over the scenario state. */
  function Advance(h: Harness, c: Cycle): Move {
    var next := h.stateCycles + 1;
    match h.state
    case WaitBoot =>
      if h.lineCount != 1 then Go(h)
      else if c.led != 1 then Fail
      else Go(h.(trackLed := true, lastLed := c.led, state := BouncePress, stateCycles := 0))
    case BouncePress =>
      if h.lineCount != 1 || h.ledTransitions != 0 then Fail
      else if next == 20 then Go(h.(state := StablePress1, stateCycles := 0))
      else Go(h.(stateCycles := next))
    case StablePress1 =>
      if next == 8 then Go(h.(state := WaitIrq1, stateCycles := 0, sawIrqLine := false))
      else Go(h.(stateCycles := next))
    case WaitIrq1 =>
      if !h.sawIrqLine && h.lineCount == 2 && (h.ledTransitions != 1 || c.led != 2) then Fail
      else
        var m := Marked(h, c, 2);
        if Resumed(m, c) then Go(m.(state := StableRelease, stateCycles := 0)) else Go(m)
    case StableRelease =>
      if h.lineCount != 2 || h.ledTransitions != 1 then Fail
      else if next == 8 then Go(h.(state := StablePress2, stateCycles := 0))
      else Go(h.(stateCycles := next))
    case StablePress2 =>
      if next == 8 then Go(h.(state := WaitIrq2, stateCycles := 0, sawIrqLine := false))
      else Go(h.(stateCycles := next))
    case WaitIrq2 =>
      if !h.sawIrqLine && h.lineCount == 3 && (h.ledTransitions != 2 || c.led != 4) then Fail
      else
        var m := Marked(h, c, 3);
        if Resumed(m, c) then Go(m.(state := Complete)) else Go(m)
    case Complete =>
      if h.lineCount != 3 || h.line != [] || h.ledTransitions != 2 || c.led != 4 then Fail else Pass
  }

  /** One cycle of the loop, the decoder's answer included. */
  function OneCycle(h: Harness, c: Cycle, error: Error, byte: Option<int>): Move {
    if c.finished || c.busFault || error != NoError then Fail
    else match TakeByte(h, byte)
      case None => Fail
      case Some(h1) => match TakeLed(h1, c.led)
        case None => Fail
        case Some(h2) => Advance(h2, c)
  }

  function Levels(dut: Dut, i: nat): seq<bool> { seq(i, j requires 0 <= j < i => dut(j).uartTx) }

  /** The harness after `i` cycles. */
  function RunTo(dut: Dut, i: nat): Move {
    if i == 0 then Go(START)
    else match RunTo(dut, i - 1)
      case Fail => Fail
      case Pass => Pass
      case Go(h) =>
        var (d, byte) := Observed(After(READY, Levels(dut, i - 1), 8), dut(i - 1).uartTx, 8);
        OneCycle(h, dut(i - 1), d.error, byte)
  }

  lemma LevelsStep(dut: Dut, i: nat)
    ensures Levels(dut, i + 1) == Levels(dut, i) + [dut(i).uartTx]
    ensures Levels(dut, i + 1)[..i] == Levels(dut, i)
  {
  }

  /** Cycle `k` is the one in which the harness reports success. */
  predicate PassesAt(dut: Dut, k: nat) { RunTo(dut, k).Go? && RunTo(dut, k + 1).Pass? }

  function Last(levels: seq<bool>): bool { levels != [] && levels[|levels| - 1] }

  /** The button levels driven in the first `i` cycles. */
  function Driven(dut: Dut, i: nat): (levels: seq<bool>)
    ensures RunTo(dut, i).Go? ==> |levels| == i
  {
    if i == 0 then []
    else match RunTo(dut, i - 1)
      case Go(h) => Driven(dut, i - 1) + [Button(h, Last(Driven(dut, i - 1)))]
      case _ => Driven(dut, i - 1)
  }

  /** The local variables of `main`. */
  class Testbench {
    var state: State
    var line: seq<int>
    var lineCount: nat
    var stateCycles: nat
    var resumeMark: word
    var sawIrqLine: bool
    var trackLed: bool
    var lastLed: int
    var ledTransitions: nat
    var button: bool

    function Snapshot(): Harness
      reads this
    {
      Harness(state, line, lineCount, stateCycles, resumeMark, sawIrqLine, trackLed, lastLed, ledTransitions)
    }

    constructor ()
      ensures Snapshot() == START && !button
    {
      state, line, lineCount, stateCycles, resumeMark := WaitBoot, [], 0, 0, 0;
      sawIrqLine, trackLed, lastLed, ledTransitions, button := false, false, 0, 0, false;
    }

    method Drive()
      modifies this`button
      ensures button == Button(Snapshot(), old(button))
    {
      match state {
        case BouncePress => button := stateCycles < 12 && stateCycles % 4 < 2;
        case StablePress1 => button := true;
        case StablePress2 => button := true;
        case StableRelease => button := false;
        case _ =>
      }
    }

    method Receive(byte: Option<int>) returns (ok: bool)
      modifies this`line, this`lineCount
      ensures ok <==> TakeByte(old(Snapshot()), byte).Some?
      ensures ok ==> TakeByte(old(Snapshot()), byte) == Some(Snapshot())
    {
      if byte.Some? {
        line := line + [byte.value];
        if |line| > 64 {
          return false;
        }
        if byte.value == '\n' as int {
          if lineCount >= 3 {
            return false;
          }
          if line != ExpectedLine(lineCount) {
            return false;
          }
          lineCount := lineCount + 1;
          line := [];
        }
      }
      return true;
    }

    method FollowLed(led: int) returns (ok: bool)
      modifies this`ledTransitions, this`lastLed
      ensures ok <==> TakeLed(old(Snapshot()), led).Some?
      ensures ok ==> TakeLed(old(Snapshot()), led) == Some(Snapshot())
    {
      if trackLed && led != lastLed {
        ledTransitions := ledTransitions + 1;
        lastLed := led;
        var expected := if ledTransitions == 1 then 2 else 4;
        if ledTransitions > 2 || lastLed != expected {
          return false;
        }
      }
      return true;
    }

    method Switch(c: Cycle) returns (outcome: Option<int>)
      modifies this`state, this`stateCycles, this`resumeMark, this`sawIrqLine, this`trackLed, this`lastLed
      ensures outcome == ExitCode(Advance(old(Snapshot()), c))
      ensures outcome.None? ==> Advance(old(Snapshot()), c) == Go(Snapshot())
    {
      hide Wrap;
      outcome := None;
      match state {
        case WaitBoot =>
          if lineCount == 1 {
            if c.led != 1 { return Some(1); }
            trackLed, lastLed := true, c.led;
            state, stateCycles := BouncePress, 0;
          }
        case BouncePress =>
          if lineCount != 1 || ledTransitions != 0 { return Some(1); }
          stateCycles := stateCycles + 1;
          if stateCycles == 20 { state, stateCycles := StablePress1, 0; }
        case StablePress1 =>
          stateCycles := stateCycles + 1;
          if stateCycles == 8 { state, stateCycles, sawIrqLine := WaitIrq1, 0, false; }
        case WaitIrq1 =>
          if !sawIrqLine && lineCount == 2 {
            if ledTransitions != 1 || c.led != 2 { return Some(1); }
            sawIrqLine, resumeMark := true, c.progress;
          }
          if sawIrqLine && c.progress > Wrap(resumeMark + 8) { state, stateCycles := StableRelease, 0; }
        case StableRelease =>
          if lineCount != 2 || ledTransitions != 1 { return Some(1); }
          stateCycles := stateCycles + 1;
          if stateCycles == 8 { state, stateCycles := StablePress2, 0; }
        case StablePress2 =>
          stateCycles := stateCycles + 1;
          if stateCycles == 8 { state, stateCycles, sawIrqLine := WaitIrq2, 0, false; }
        case WaitIrq2 =>
          if !sawIrqLine && lineCount == 3 {
            if ledTransitions != 2 || c.led != 4 { return Some(1); }
            sawIrqLine, resumeMark := true, c.progress;
          }
          if sawIrqLine && c.progress > Wrap(resumeMark + 8) { state := Complete; }
        case Complete =>
          if lineCount != 3 || line != [] || ledTransitions != 2 || c.led != 4 { return Some(1); }
          return Some(0);
      }
    }

    /** The body of the loop after the clock tick; an exit code when the harness stops. */
    method Check(c: Cycle, decoder: UartDecoder) returns (outcome: Option<int>)
      modifies this, decoder
      ensures var (d, byte) := Observed(old(decoder.State()), c.uartTx, decoder.divisor);
        && outcome == ExitCode(OneCycle(old(Snapshot()), c, d.error, byte))
        && (outcome.None? ==> decoder.State() == d && OneCycle(old(Snapshot()), c, d.error, byte) == Go(Snapshot()))
      ensures button == old(button)
    {
      hide Observed, TakeByte, TakeLed, Advance;
      if c.finished {
        return Some(1);
      }
      if c.busFault {
        return Some(1);
      }
      var byte := decoder.Observe(c.uartTx);
      if decoder.error != NoError {
        return Some(1);
      }
      var ok := Receive(byte);
      if !ok {
        return Some(1);
      }
      ok := FollowLed(c.led);
      if !ok {
        return Some(1);
      }
      outcome := Switch(c);
    }
  }

  /** Returns the exit code and the button levels the design was driven with. */
  method PlayScenario(dut: Dut) returns (code: int, driven: seq<bool>)
    ensures code == 0 || code == 1
    ensures code == 0 <==> exists k: nat :: k < 100000 && PassesAt(dut, k)
    ensures driven == Driven(dut, |driven|)
    ensures code == 0 ==> |driven| > 0 && PassesAt(dut, |driven| - 1)
  {
    hide OneCycle, Observed, RunTo, Button, After, Levels, PassesAt, Last, Driven;
    RunStarts(dut);
    var decoder := new UartDecoder(UART_DIVISOR);
    var bench := new Testbench();
    driven := [];
    for cycle := 0 to CYCLE_DEADLINE
      invariant fresh(decoder) && fresh(bench) && decoder.divisor == 8
      invariant decoder.State() == After(READY, Levels(dut, cycle), 8)
      invariant RunTo(dut, cycle) == Go(bench.Snapshot())
      invariant driven == Driven(dut, cycle) && |driven| == cycle && bench.button == Last(driven)
    {
      RunSteps(dut, cycle, bench.Snapshot());
      bench.Drive();
      DrivenStep(driven, bench.button);
      driven := driven + [bench.button];
      var outcome := bench.Check(dut(cycle), decoder);
      if outcome == Some(1) {
        NotYetPassed(dut, cycle + 1);
        return 1, driven;
      }
      if outcome.Some? {
        PassedNow(dut, cycle);
        return 0, driven;
      }
    }
    NotYetPassed(dut, CYCLE_DEADLINE);
    return 1, driven;
  }

  lemma DrivenStep(driven: seq<bool>, button: bool)
    ensures Last(driven + [button]) == button
  {
  }

  lemma PassedNow(dut: Dut, k: nat)
    requires RunTo(dut, k).Go? && RunTo(dut, k + 1).Pass?
    ensures PassesAt(dut, k)
  {
  }

  lemma RunStarts(dut: Dut)
    ensures RunTo(dut, 0) == Go(START) && After(READY, Levels(dut, 0), 8) == READY
    ensures Driven(dut, 0) == [] && !Last([])
  {
  }

  lemma RunSteps(dut: Dut, i: nat, h: Harness)
    requires RunTo(dut, i) == Go(h)
    ensures var (d, byte) := Observed(After(READY, Levels(dut, i), 8), dut(i).uartTx, 8);
      RunTo(dut, i + 1) == OneCycle(h, dut(i), d.error, byte) && After(READY, Levels(dut, i + 1), 8) == d
    ensures Driven(dut, i + 1) == Driven(dut, i) + [Button(h, Last(Driven(dut, i)))]
  {
    hide OneCycle, Observed, Button;
    LevelsStep(dut, i);
  }

  lemma {:induction false} StaysStopped(dut: Dut, i: nat, k: nat)
    requires !RunTo(dut, i).Go? && i <= k
    ensures RunTo(dut, k) == RunTo(dut, i)
    decreases k
  {
    hide OneCycle, Observed;
    if i < k {
      StaysStopped(dut, i, k - 1);
    }
  }

  /** A run that has not passed after `i` cycles has not passed before. */
  lemma NotYetPassed(dut: Dut, i: nat)
    requires !RunTo(dut, i).Pass?
    ensures forall k: nat :: k < i ==> !PassesAt(dut, k)
    ensures RunTo(dut, i).Fail? ==> forall k: nat :: !PassesAt(dut, k)
  {
    hide RunTo;
    forall k: nat | k < i || RunTo(dut, i).Fail?
      ensures !PassesAt(dut, k)
    {
      if k >= i {
        StaysStopped(dut, i, k);
      } else if RunTo(dut, k + 1).Pass? {
        StaysStopped(dut, k + 1, i);
      }
    }
  }

  // ----- what a reported success establishes

  /** Everything the decoder has produced in the first `i` cycles. */
  function Text(dut: Dut, i: nat): seq<int> { Output(READY, Levels(dut, i), 8) }

  ghost predicate Clean(dut: Dut, i: nat) {
    && After(READY, Levels(dut, i), 8).error == NoError
    && forall j :: 0 <= j < i ==> !dut(j).busFault && !dut(j).finished
  }

  /** The received text is the first expected lines and the line being received. */
  ghost predicate TextMatches(text: seq<int>, lineCount: nat, line: seq<int>) {
    lineCount <= 3 && text == ExpectedText(lineCount) + line
  }

  /** The cycles at which the scenario moved on. */
  datatype Marks = Marks(boot: nat, two: nat, four: nat, mark1: nat, go1: nat, mark2: nat, go2: nat)

  ghost predicate LedIs(dut: Dut, from: nat, to: nat, led: int) {
    forall j :: from <= j < to ==> dut(j).led == led
  }

  /** From cycle `boot` on the LED has shown 1, then 2, then 4, so far `transitions` changes. */
  ghost predicate LedHistory(dut: Dut, i: nat, m: Marks, transitions: nat) {
    && m.boot < i && transitions <= 2
    && (transitions == 0 ==> LedIs(dut, m.boot, i, 1))
    && (transitions >= 1 ==> m.boot < m.two < i && LedIs(dut, m.boot, m.two, 1))
    && (transitions == 1 ==> LedIs(dut, m.two, i, 2))
    && (transitions == 2 ==> m.two < m.four < i && LedIs(dut, m.two, m.four, 2) && LedIs(dut, m.four, i, 4))
  }

  function LedAfter(transitions: nat): int { if transitions == 0 then 1 else if transitions == 1 then 2 else 4 }

  /** When `lines` lines had arrived progress stood at a mark, which it passed at cycle `go`. */
  ghost predicate Passed(dut: Dut, mark: nat, go: nat, lines: nat) {
    && lines <= 3 && mark <= go
    && ExpectedText(lines) <= Text(dut, mark + 1)
    && MovedOn(dut(mark).progress, dut(go).progress)
  }

  ghost predicate MarkSet(dut: Dut, i: nat, h: Harness, mark: nat, lines: nat) {
    && lines <= 3
    && (h.sawIrqLine ==> mark < i && h.resumeMark == dut(mark).progress && ExpectedText(lines) <= Text(dut, mark + 1))
  }

  /** How far the scenario is. */
  function Stage(s: State): nat {
    match s
    case WaitBoot => 0
    case BouncePress => 1
    case StablePress1 => 2
    case WaitIrq1 => 3
    case StableRelease => 4
    case StablePress2 => 5
    case WaitIrq2 => 6
    case Complete => 7
  }

  ghost predicate Scenario(dut: Dut, i: nat, h: Harness, m: Marks) {
    && (h.trackLed <==> Stage(h.state) >= 1)
    && (h.trackLed ==> LedHistory(dut, i, m, h.ledTransitions) && h.lastLed == LedAfter(h.ledTransitions))
    && (!h.trackLed ==> h.ledTransitions == 0)
    && (Stage(h.state) == 1 ==> i == m.boot + 1 + h.stateCycles && h.ledTransitions == 0)
    && (h.ledTransitions >= 1 ==> m.two > m.boot + 20)
    && (Stage(h.state) >= 2 ==> i > m.boot + 20)
    && (Stage(h.state) == 3 ==> MarkSet(dut, i, h, m.mark1, 2))
    && (Stage(h.state) >= 4 ==> Passed(dut, m.mark1, m.go1, 2) && m.go1 < i)
    && (Stage(h.state) == 4 ==> i == m.go1 + 1 + h.stateCycles && (h.stateCycles > 0 ==> h.ledTransitions == 1))
    && (Stage(h.state) >= 5 ==> h.ledTransitions >= 1 && i > m.go1 + 8)
    && (Stage(h.state) >= 5 && h.ledTransitions == 2 ==> m.four > m.go1 + 8)
    && (Stage(h.state) == 6 ==> MarkSet(dut, i, h, m.mark2, 3) && (h.sawIrqLine ==> m.go1 < m.mark2))
    && (Stage(h.state) >= 7 ==> Passed(dut, m.mark2, m.go2, 3) && m.go1 < m.mark2 && m.go2 < i)
  }

  lemma TextStep(dut: Dut, i: nat)
    ensures Text(dut, i + 1)
         == Text(dut, i) + match Observed(After(READY, Levels(dut, i), 8), dut(i).uartTx, 8).1
                           case None => [] case Some(v) => [v]
    ensures After(READY, Levels(dut, i + 1), 8)
         == Observed(After(READY, Levels(dut, i), 8), dut(i).uartTx, 8).0
  {
    hide Observed;
    LevelsStep(dut, i);
  }

  lemma ByteMatches(text: seq<int>, h: Harness, byte: Option<int>)
    requires TextMatches(text, h.lineCount, h.line) && TakeByte(h, byte).Some?
    ensures var h' := TakeByte(h, byte).value;
      && h' == h.(line := h'.line, lineCount := h'.lineCount)
      && TextMatches(text + match byte case None => [] case Some(v) => [v], h'.lineCount, h'.line)
  {
    hide ExpectedLine;
    if byte.None? {
      assert text + [] == text;
    } else {
      assert text + [byte.value] == ExpectedText(h.lineCount) + (h.line + [byte.value]);
      var h' := TakeByte(h, byte).value;
      assert ExpectedText(h'.lineCount) + [] == ExpectedText(h'.lineCount);
    }
  }

  /** Following the LED keeps its history. */
  lemma LedStep(dut: Dut, i: nat, h: Harness, m: Marks) returns (m': Marks)
    requires h.trackLed && LedHistory(dut, i, m, h.ledTransitions) && h.lastLed == LedAfter(h.ledTransitions)
    requires TakeLed(h, dut(i).led).Some?
    ensures var h' := TakeLed(h, dut(i).led).value;
      && h' == h.(ledTransitions := h'.ledTransitions, lastLed := h'.lastLed)
      && LedHistory(dut, i + 1, m', h'.ledTransitions) && h'.lastLed == LedAfter(h'.ledTransitions)
      && (h'.ledTransitions == h.ledTransitions ==> m' == m)
      && (h'.ledTransitions != h.ledTransitions ==>
            h'.ledTransitions == h.ledTransitions + 1
            && m' == if h'.ledTransitions == 1 then m.(two := i) else m.(four := i))
  {
    var h' := TakeLed(h, dut(i).led).value;
    m' := if h'.ledTransitions == h.ledTransitions then m
          else if h'.ledTransitions == 1 then m.(two := i) else m.(four := i);
  }

  /** The scenario after byte and LED of cycle `i`, before the switch over the state. */
  ghost predicate Between(dut: Dut, i: nat, h: Harness, m: Marks) {
    && (h.trackLed <==> Stage(h.state) >= 1)
    && (h.trackLed ==> LedHistory(dut, i + 1, m, h.ledTransitions) && h.lastLed == LedAfter(h.ledTransitions))
    && (!h.trackLed ==> h.ledTransitions == 0)
    && (Stage(h.state) == 1 ==> i == m.boot + 1 + h.stateCycles)
    && (Stage(h.state) >= 2 ==> i > m.boot + 20 && (h.ledTransitions >= 1 ==> m.two > m.boot + 20))
    && (Stage(h.state) == 3 ==> MarkSet(dut, i, h, m.mark1, 2))
    && (Stage(h.state) >= 4 ==> Passed(dut, m.mark1, m.go1, 2) && m.go1 < i)
    && (Stage(h.state) == 4 ==> i == m.go1 + 1 + h.stateCycles)
    && (Stage(h.state) >= 5 ==> h.ledTransitions >= 1 && i > m.go1 + 8)
    && (Stage(h.state) >= 5 && h.ledTransitions == 2 ==> m.four > m.go1 + 8)
    && (Stage(h.state) == 6 ==> MarkSet(dut, i, h, m.mark2, 3) && (h.sawIrqLine ==> m.go1 < m.mark2))
    && (Stage(h.state) >= 7 ==> Passed(dut, m.mark2, m.go2, 3) && m.go1 < m.mark2 && m.go2 < i)
  }

  lemma ReachBetween(dut: Dut, i: nat, h: Harness, m: Marks, byte: Option<int>) returns (m': Marks)
    requires Scenario(dut, i, h, m)
    requires TakeByte(h, byte).Some? && TakeLed(TakeByte(h, byte).value, dut(i).led).Some?
    ensures Between(dut, i, TakeLed(TakeByte(h, byte).value, dut(i).led).value, m')
    ensures m'.boot == m.boot && m'.go1 == m.go1
  {
    hide LedHistory, MarkSet, Passed, TakeLed, ExpectedLine;
    var h1 := TakeByte(h, byte).value;
    if h.trackLed {
      m' := LedStep(dut, i, h1, m);
    } else {
      Untracked(h1, dut(i).led);
      m' := m;
    }
    KeepMark(dut, i, h, TakeLed(h1, dut(i).led).value, m.mark1, 2);
    KeepMark(dut, i, h, TakeLed(h1, dut(i).led).value, m.mark2, 3);
  }

  lemma Untracked(h: Harness, led: int)
    requires !h.trackLed
    ensures TakeLed(h, led) == Some(h)
  {
  }

  lemma KeepMark(dut: Dut, i: nat, h: Harness, h': Harness, mark: nat, lines: nat)
    requires h.sawIrqLine == h'.sawIrqLine && h.resumeMark == h'.resumeMark
    ensures MarkSet(dut, i, h, mark, lines) ==> MarkSet(dut, i, h', mark, lines)
  {
  }

  lemma MarkStep(dut: Dut, i: nat, h: Harness, mark: nat, lines: nat) returns (mark': nat)
    requires MarkSet(dut, i, h, mark, lines) && lines <= 3
    requires TextMatches(Text(dut, i + 1), h.lineCount, h.line)
    ensures MarkSet(dut, i + 1, Marked(h, dut(i), lines), mark', lines)
    ensures h.sawIrqLine ==> mark' == mark
    ensures !h.sawIrqLine ==> mark' == i
    ensures Resumed(Marked(h, dut(i), lines), dut(i)) ==> Passed(dut, mark', i, lines)
  {
    hide ExpectedText, Text;
    mark' := if h.sawIrqLine then mark else i;
  }

  /** The switch over the state keeps the scenario going. */
  lemma AdvanceStep(dut: Dut, i: nat, h: Harness, m: Marks) returns (m': Marks)
    requires Between(dut, i, h, m) && TextMatches(Text(dut, i + 1), h.lineCount, h.line)
    requires Advance(h, dut(i)).Go?
    ensures Scenario(dut, i + 1, Advance(h, dut(i)).harness, m')
    ensures var h' := Advance(h, dut(i)).harness;
      && h'.line == h.line && h'.lineCount == h.lineCount
      && m'.boot == (if h.state == WaitBoot && h.lineCount == 1 then i else m.boot)
      && m'.go1 == if h.state == WaitIrq1 then i else m.go1
  {
    hide LedHistory, MarkSet, Passed, TextMatches, Text;
    m' := m;
    match h.state {
      case WaitBoot =>
        if h.lineCount == 1 {
          m' := m.(boot := i);
          FirstLed(dut, i, m');
        }
      case WaitIrq1 =>
        var mark := MarkStep(dut, i, h, m.mark1, 2);
        m' := m.(mark1 := mark, go1 := i);
        SameLeds(dut, i + 1, m, m', h.ledTransitions);
        KeepMark(dut, i + 1, Marked(h, dut(i), 2), Advance(h, dut(i)).harness, mark, 2);
      case WaitIrq2 =>
        var mark := MarkStep(dut, i, h, m.mark2, 3);
        m' := m.(mark2 := mark, go2 := i);
        SameLeds(dut, i + 1, m, m', h.ledTransitions);
        KeepMark(dut, i + 1, Marked(h, dut(i), 3), Advance(h, dut(i)).harness, mark, 3);
      case StablePress1 =>
        NoMark(dut, i + 1, h.(sawIrqLine := false), m.mark1, 2);
        var reset := h.(sawIrqLine := false);
        KeepMark(dut, i + 1, reset, reset.(state := WaitIrq1, stateCycles := 0), m.mark1, 2);
      case StablePress2 =>
        NoMark(dut, i + 1, h.(sawIrqLine := false), m.mark2, 3);
        var reset := h.(sawIrqLine := false);
        KeepMark(dut, i + 1, reset, reset.(state := WaitIrq2, stateCycles := 0), m.mark2, 3);
      case _ =>
    }
  }

  lemma FirstLed(dut: Dut, i: nat, m: Marks)
    requires m.boot == i && dut(i).led == 1
    ensures LedHistory(dut, i + 1, m, 0)
  {
  }

  lemma SameLeds(dut: Dut, i: nat, m: Marks, m': Marks, transitions: nat)
    requires m.boot == m'.boot && m.two == m'.two && m.four == m'.four
    ensures LedHistory(dut, i, m, transitions) ==> LedHistory(dut, i, m', transitions)
  {
  }

  lemma NoMark(dut: Dut, i: nat, h: Harness, mark: nat, lines: nat)
    requires !h.sawIrqLine && lines <= 3
    ensures MarkSet(dut, i, h, mark, lines)
  {
  }

  // ----- the stimulus

  predicate AllAre(b: seq<bool>, from: nat, to: nat, level: bool) {
    forall j :: from <= j < to && j < |b| ==> b[j] == level
  }

  /** What the button did so far: bounced, held, released for eight cycles, pressed again. */
  ghost predicate Stimulus(b: seq<bool>, h: Harness, m: Marks) {
    var stage := Stage(h.state);
    && AllAre(b, 0, if stage == 0 then |b| else m.boot + 1, false)
    && (stage >= 1 ==> m.boot < |b|)
    && (stage >= 1 ==> forall j :: m.boot < j < |b| && j <= m.boot + 20 ==> (b[j] <==> j - m.boot - 1 in {0, 1, 4, 5, 8, 9}))
    && (stage == 1 ==> |b| == m.boot + 1 + h.stateCycles && h.stateCycles < 20)
    && (stage == 2 ==> |b| == m.boot + 21 + h.stateCycles && h.stateCycles < 8)
    && (stage >= 3 ==> |b| > m.boot + 28)
    && (stage >= 2 ==> AllAre(b, m.boot + 21, if stage <= 3 then |b| else m.go1 + 1, true))
    && (stage >= 4 ==> m.boot + 28 < m.go1 < |b| && AllAre(b, m.go1 + 1, m.go1 + 9, false))
    && (stage == 4 ==> |b| == m.go1 + 1 + h.stateCycles && h.stateCycles < 8)
    && (stage >= 5 ==> |b| > m.go1 + 8 && AllAre(b, m.go1 + 9, |b|, true))
    && (stage >= 6 ==> |b| > m.go1 + 9)
    && (stage == 5 ==> |b| == m.go1 + 9 + h.stateCycles)
  }

  /** What carries the stimulus of one cycle over to the next. */
  ghost predicate Carries(b: seq<bool>, h: Harness, h2: Harness, c: Cycle, m: Marks, m': Marks) {
    && Stimulus(b, h, m) && h2.state == h.state && h2.stateCycles == h.stateCycles && Advance(h2, c).Go?
    && m'.boot == (if h.state == WaitBoot && h2.lineCount == 1 then |b| else m.boot)
    && m'.go1 == if h.state == WaitIrq1 then |b| else m.go1
  }

  lemma EarlyStimulus(b: seq<bool>, h: Harness, h2: Harness, c: Cycle, m: Marks, m': Marks)
    requires Carries(b, h, h2, c, m, m') && Stage(h.state) <= 1
    ensures Stimulus(b + [Button(h, Last(b))], Advance(h2, c).harness, m')
  {
  }

  lemma HeldStimulus(b: seq<bool>, h: Harness, h2: Harness, c: Cycle, m: Marks, m': Marks)
    requires Carries(b, h, h2, c, m, m') && 2 <= Stage(h.state) <= 3
    ensures Stimulus(b + [Button(h, Last(b))], Advance(h2, c).harness, m')
  {
    assert b[|b| - 1] || Stage(h.state) == 2;
  }

  lemma LateStimulus(b: seq<bool>, h: Harness, h2: Harness, c: Cycle, m: Marks, m': Marks)
    requires Carries(b, h, h2, c, m, m') && Stage(h.state) >= 4
    ensures Stimulus(b + [Button(h, Last(b))], Advance(h2, c).harness, m')
  {
    hide Bounce;
  }

  lemma StimulusStep(b: seq<bool>, h: Harness, h2: Harness, c: Cycle, m: Marks, m': Marks)
    requires Carries(b, h, h2, c, m, m')
    ensures Stimulus(b + [Button(h, Last(b))], Advance(h2, c).harness, m')
  {
    hide Stimulus, Advance;
    if Stage(h.state) <= 1 {
      EarlyStimulus(b, h, h2, c, m, m');
    } else if Stage(h.state) <= 3 {
      HeldStimulus(b, h, h2, c, m, m');
    } else {
      LateStimulus(b, h, h2, c, m, m');
    }
  }

  lemma {:induction false} Invariant(dut: Dut, i: nat) returns (m: Marks)
    requires RunTo(dut, i).Go?
    ensures Clean(dut, i)
    ensures var h := RunTo(dut, i).harness;
      TextMatches(Text(dut, i), h.lineCount, h.line) && Scenario(dut, i, h, m) && Stimulus(Driven(dut, i), h, m)
  {
    hide TextMatches, Scenario, Between, Advance, TakeByte, TakeLed, Observed, After, Text, Driven, Button, Stimulus;
    if i == 0 {
      m := Marks(0, 0, 0, 0, 0, 0, 0);
      AtStart(dut, m);
    } else {
      var before := Invariant(dut, i - 1);
      var h := RunTo(dut, i - 1).harness;
      var (d, byte) := Observed(After(READY, Levels(dut, i - 1), 8), dut(i - 1).uartTx, 8);
      TextStep(dut, i - 1);
      ByteMatches(Text(dut, i - 1), h, byte);
      var between := ReachBetween(dut, i - 1, h, before, byte);
      LedKeepsText(TakeByte(h, byte).value, dut(i - 1).led);
      var h2 := TakeLed(TakeByte(h, byte).value, dut(i - 1).led).value;
      m := AdvanceStep(dut, i - 1, h2, between);
      RunSteps(dut, i - 1, h);
      StimulusStep(Driven(dut, i - 1), h, h2, dut(i - 1), before, m);
    }
  }

  lemma LedKeepsText(h: Harness, led: int)
    requires TakeLed(h, led).Some?
    ensures TakeLed(h, led).value.line == h.line && TakeLed(h, led).value.lineCount == h.lineCount
    ensures TakeLed(h, led).value.state == h.state && TakeLed(h, led).value.stateCycles == h.stateCycles
  {
  }

  lemma AtStart(dut: Dut, m: Marks)
    ensures Clean(dut, 0) && TextMatches(Text(dut, 0), 0, []) && Scenario(dut, 0, START, m)
    ensures Stimulus(Driven(dut, 0), START, m)
  {
    assert ExpectedText(0) + [] == [];
  }

  ghost predicate Stimulated(b: seq<bool>, k: nat, m: Marks) {
    && |b| == k + 1 && m.boot + 28 < m.go1 && m.go1 + 9 < k
    && AllAre(b, 0, m.boot + 1, false)
    && (forall j :: m.boot < j <= m.boot + 20 ==> (b[j] <==> j - m.boot - 1 in {0, 1, 4, 5, 8, 9}))
    && AllAre(b, m.boot + 21, m.go1 + 1, true)
    && AllAre(b, m.go1 + 1, m.go1 + 9, false)
    && AllAre(b, m.go1 + 9, k + 1, true)
  }

  lemma LastButton(b: seq<bool>, h: Harness, m: Marks)
    requires Stimulus(b, h, m) && h.state == Complete
    ensures Stimulated(b + [Button(h, Last(b))], |b|, m)
  {
    assert b[|b| - 1];
  }

  /** Everything a reported success at cycle `k` means, with the cycles at which the scenario moved on. */
  ghost predicate Demonstrated(dut: Dut, k: nat, m: Marks) {
    // the button bounced for 20 cycles after the boot line, was held, released for 8 and pressed again
    && Stimulated(Driven(dut, k + 1), k, m)
    // no bus fault, no framing error, no early stop up to and including cycle k
    && Clean(dut, k + 1)
    // the whole of what was received is the three expected lines
    && Text(dut, k + 1) == Codes("rv32i soc ready\nexternal irq\nexternal irq\n")
    // the LED showed 1 from the boot line on, then 2, then 4
    && m.boot < m.two < m.four <= k
    && LedIs(dut, m.boot, m.two, 1) && LedIs(dut, m.two, m.four, 2) && LedIs(dut, m.four, k + 1, 4)
    // neither the bouncing press nor the release changed it
    && m.two > m.boot + 20 && m.four > m.go1 + 8
    // progress passed its mark after the second line and again after the third
    && Passed(dut, m.mark1, m.go1, 2) && Passed(dut, m.mark2, m.go2, 3) && m.go1 < m.mark2 && m.go2 <= k
  }

  lemma CodesOfParts(a: string, b: string)
    ensures Codes(a + b) == Codes(a) + Codes(b)
  {
  }

  lemma LinesJoined()
    ensures "rv32i soc ready\n" + "external irq\n" + "external irq\n" == "rv32i soc ready\nexternal irq\nexternal irq\n"
  {
  }

  lemma ExpectedInOrder()
    ensures ExpectedText(3) == ExpectedLine(0) + ExpectedLine(1) + ExpectedLine(2)
  {
    hide ExpectedLine;
    assert ExpectedText(1) == ExpectedLine(0);
    assert ExpectedText(2) == ExpectedLine(0) + ExpectedLine(1);
  }

  lemma ExpectedLines()
    ensures ExpectedText(3) == Codes("rv32i soc ready\nexternal irq\nexternal irq\n")
  {
    hide Codes, ExpectedText;
    ExpectedInOrder();
    CodesOfParts("rv32i soc ready\n", "external irq\n");
    CodesOfParts("rv32i soc ready\n" + "external irq\n", "external irq\n");
    LinesJoined();
  }

  lemma LastCycle(dut: Dut, k: nat, h: Harness, m: Marks)
    requires Between(dut, k, h, m) && Advance(h, dut(k)).Pass?
    requires TextMatches(Text(dut, k + 1), h.lineCount, h.line) && Clean(dut, k + 1)
    requires Stimulated(Driven(dut, k + 1), k, m)
    ensures Demonstrated(dut, k, m)
  {
    hide Passed, MarkSet, ExpectedText, Clean, Text, Stimulated, Driven, Codes;
    ExpectedLines();
    assert ExpectedText(3) + [] == ExpectedText(3);
  }

  lemma SameStimulus(b: seq<bool>, k: nat, m: Marks, m': Marks)
    requires Stimulated(b, k, m) && m.boot == m'.boot && m.go1 == m'.go1
    ensures Stimulated(b, k, m')
  {
  }

  lemma OnlyCompletePasses(h: Harness, c: Cycle)
    requires Advance(h, c).Pass?
    ensures h.state == Complete
  {
  }

  lemma CleanStep(dut: Dut, i: nat)
    requires Clean(dut, i) && !dut(i).busFault && !dut(i).finished
    requires After(READY, Levels(dut, i + 1), 8).error == NoError
    ensures Clean(dut, i + 1)
  {
    hide After;
  }

  /** For every design: if the harness reports success at cycle `k`, the demonstration took place. */
  lemma SuccessIsDemonstrated(dut: Dut, k: nat) returns (m: Marks)
    requires PassesAt(dut, k)
    ensures Demonstrated(dut, k, m)
  {
    hide Observed, TakeByte, TakeLed, TextMatches, Scenario, Between, Advance, Demonstrated;
    hide Clean, After, Text, Levels, RunTo, Driven, Button, Stimulus, Stimulated;
    var before := Invariant(dut, k);
    var h := RunTo(dut, k).harness;
    var (d, byte) := Observed(After(READY, Levels(dut, k), 8), dut(k).uartTx, 8);
    RunSteps(dut, k, h);
    TextStep(dut, k);
    CleanStep(dut, k);
    ByteMatches(Text(dut, k), h, byte);
    m := ReachBetween(dut, k, h, before, byte);
    LedKeepsText(TakeByte(h, byte).value, dut(k).led);
    OnlyCompletePasses(TakeLed(TakeByte(h, byte).value, dut(k).led).value, dut(k));
    LastButton(Driven(dut, k), h, before);
    SameStimulus(Driven(dut, k + 1), k, before, m);
    LastCycle(dut, k, TakeLed(TakeByte(h, byte).value, dut(k).led).value, m);
  }

  /**
    `MovedOn`, the comparison behind `Passed`, means that progress moved on by more than 8 if and only if
    the mark lies below 2^32 - 8: above that the sum wraps and an unchanged counter passes.
   */
  lemma ProgressTestIsExact(mark: word)
    ensures (forall now: word :: MovedOn(mark, now) ==> now > mark + 8) <==> mark < WORD - 8
  {
    if mark < WORD - 8 {
      SmallResidue(mark + 8, WORD);
    } else {
      DivModUnique(mark + 8, WORD, 1, mark + 8 - WORD);
      assert MovedOn(mark, mark);
    }
  }

  /** In a run that passed, progress really moved on by more than 8 exactly where the mark lay below 2^32 - 8. */
  lemma ProgressOfRun(dut: Dut, k: nat, m: Marks)
    requires Demonstrated(dut, k, m)
    ensures dut(m.go1).progress > dut(m.mark1).progress + 8 <==> dut(m.mark1).progress < WORD - 8
    ensures dut(m.go2).progress > dut(m.mark2).progress + 8 <==> dut(m.mark2).progress < WORD - 8
  {
    hide ExpectedText, Text, Clean, LedIs, Stimulated;
    if dut(m.mark1).progress < WORD - 8 {
      SmallResidue(dut(m.mark1).progress + 8, WORD);
    }
    if dut(m.mark2).progress < WORD - 8 {
      SmallResidue(dut(m.mark2).progress + 8, WORD);
    }
  }
}
