/**
  sim/soc_tb.cpp: the schedule is not only enough to be passed, a design that is passed keeps it.
 */
module SocExactly {
  import opened Bits
  import opened Options
  import opened Uart
  import opened SocHarness
  import opened SocSchedule

  ghost predicate Booted(dut: Dut, m: Marks) { Count(dut, m.boot) == 0 && Count(dut, m.boot + 1) == 1 }

  /** The second line was seen at `mark1`, with the LED changed. */
  ghost predicate FirstMark(dut: Dut, m: Marks) {
    && m.boot + 29 <= m.mark1 && m.two <= m.mark1
    && Count(dut, m.mark1 + 1) == 2 && (m.mark1 == m.boot + 29 || Count(dut, m.mark1) == 1)
  }

  ghost predicate SecondMark(dut: Dut, m: Marks) {
    && m.go1 + 17 <= m.mark2 && m.four <= m.mark2
    && Count(dut, m.mark2 + 1) == 3 && (m.mark2 == m.go1 + 17 || Count(dut, m.mark2) == 2)
  }

  ghost predicate Unmoved(dut: Dut, mark: nat, i: nat) {
    forall j :: mark <= j < i ==> !MovedOn(dut(mark).progress, dut(j).progress)
  }

  /** The LED as followed up to cycle `e`. */
  ghost predicate Leds(dut: Dut, e: nat, h: Harness, m: Marks) {
    && (h.trackLed <==> Stage(h.state) >= 1)
    && (h.trackLed ==> LedHistory(dut, e, m, h.ledTransitions) && h.lastLed == LedAfter(h.ledTransitions))
    && (!h.trackLed ==> h.ledTransitions == 0)
  }

  /** What the schedule asks for, as far as the scenario has come before cycle `i`. */
  ghost predicate SoFar(dut: Dut, i: nat, h: Harness, m: Marks) {
    var stage, changes := Stage(h.state), h.ledTransitions;
    && (stage == 0 ==> Count(dut, i) == 0)
    && (stage >= 1 ==> Booted(dut, m))
    && (stage == 1 ==> i == m.boot + 1 + h.stateCycles && h.stateCycles < 20)
    && (stage >= 2 ==> Count(dut, m.boot + 21) == 1 && (changes >= 1 ==> m.two > m.boot + 20))
    && (stage == 2 ==> i == m.boot + 21 + h.stateCycles && h.stateCycles < 8)
    && (stage >= 3 ==> i >= m.boot + 29)
    && (stage == 3 && !h.sawIrqLine && i > m.boot + 29 ==> Count(dut, i) != 2)
    && (stage == 3 && h.sawIrqLine ==> FirstMark(dut, m) && Remembers(dut, i, h, m.mark1) && changes >= 1)
    && (stage >= 4 ==> FirstMark(dut, m) && FirstMove(dut, m.mark1, m.go1) && changes >= 1)
    && (stage == 4 ==> i == m.go1 + 1 + h.stateCycles && h.stateCycles < 8)
    && (stage >= 5 ==> Count(dut, m.go1 + 9) == 2 && i >= m.go1 + 9 && (changes == 2 ==> m.four > m.go1 + 8))
    && (stage == 5 ==> i == m.go1 + 9 + h.stateCycles && h.stateCycles < 8)
    && (stage >= 6 ==> i >= m.go1 + 17)
    && (stage == 6 && !h.sawIrqLine && i > m.go1 + 17 ==> Count(dut, i) != 3)
    && (stage == 6 && h.sawIrqLine ==> SecondMark(dut, m) && Remembers(dut, i, h, m.mark2) && changes == 2)
    && (stage == 7 ==> SecondMark(dut, m) && FirstMove(dut, m.mark2, m.go2) && i == m.go2 + 1 && changes == 2)
  }

  ghost predicate Remembers(dut: Dut, i: nat, h: Harness, mark: nat) {
    mark < i && h.resumeMark == dut(mark).progress && Unmoved(dut, mark, i)
  }

  // ----- the byte and the LED of a cycle

  lemma ByteKeepsLines(h: Harness, text: seq<int>, byte: Option<int>)
    requires LinesOf(text) == Lines(h.lineCount, h.line) && TakeByte(h, byte).Some?
    ensures var h', all := TakeByte(h, byte).value, text + match byte case None => [] case Some(v) => [v];
      h' == h.(line := h'.line, lineCount := h'.lineCount) && LinesOf(all) == Lines(h'.lineCount, h'.line)
  {
    hide ExpectedLine, LinesOf;
    if byte.None? {
      assert text + [] == text;
    } else {
      LinesStep(text, byte.value);
    }
  }

  lemma LedKeepsSoFar(dut: Dut, i: nat, h: Harness, m: Marks) returns (m': Marks)
    requires Leds(dut, i, h, m) && SoFar(dut, i, h, m) && TakeLed(h, dut(i).led).Some?
    ensures var h' := TakeLed(h, dut(i).led).value;
      && h' == h.(ledTransitions := h'.ledTransitions, lastLed := h'.lastLed)
      && Leds(dut, i + 1, h', m') && SoFar(dut, i, h', m')
  {
    hide LedHistory, Count, FirstMove, Unmoved;
    m' := m;
    if h.trackLed {
      m' := LedStep(dut, i, h, m);
    } else {
      Untracked(h, dut(i).led);
    }
  }

  // ----- the switch

  lemma BootKeeps(dut: Dut, i: nat, h: Harness, m: Marks) returns (m': Marks)
    requires h.state == WaitBoot && Leds(dut, i + 1, h, m) && SoFar(dut, i, h, m)
    requires h.lineCount == Count(dut, i + 1) <= Count(dut, i) + 1 && Advance(h, dut(i)).Go?
    ensures Leds(dut, i + 1, Advance(h, dut(i)).harness, m') && SoFar(dut, i + 1, Advance(h, dut(i)).harness, m')
  {
    hide Count;
    m' := if h.lineCount == 1 then m.(boot := i) else m;
  }

  lemma PressKeeps(dut: Dut, i: nat, h: Harness, m: Marks)
    requires h.state in {BouncePress, StablePress1} && Leds(dut, i + 1, h, m) && SoFar(dut, i, h, m)
    requires h.lineCount == Count(dut, i + 1) && Advance(h, dut(i)).Go?
    ensures Leds(dut, i + 1, Advance(h, dut(i)).harness, m) && SoFar(dut, i + 1, Advance(h, dut(i)).harness, m)
  {
    hide Count, LedHistory;
  }

  lemma ReleaseKeeps(dut: Dut, i: nat, h: Harness, m: Marks)
    requires h.state in {StableRelease, StablePress2} && Leds(dut, i + 1, h, m) && SoFar(dut, i, h, m)
    requires h.lineCount == Count(dut, i + 1) && Advance(h, dut(i)).Go?
    ensures Leds(dut, i + 1, Advance(h, dut(i)).harness, m) && SoFar(dut, i + 1, Advance(h, dut(i)).harness, m)
  {
    hide Count, LedHistory, FirstMove;
  }

  lemma LedsOnly(dut: Dut, e: nat, h: Harness, h': Harness, m: Marks, m': Marks)
    requires Leds(dut, e, h, m) && m.boot == m'.boot && m.two == m'.two && m.four == m'.four
    requires h.trackLed == h'.trackLed && h.ledTransitions == h'.ledTransitions && h.lastLed == h'.lastLed
    requires Stage(h.state) >= 1 && Stage(h'.state) >= 1
    ensures Leds(dut, e, h', m')
  {
  }

  /** While the line is awaited or progress watched, the mark is remembered and progress has not moved on. */
  lemma MarkKeeps(dut: Dut, i: nat, h: Harness, lines: nat, mark: nat) returns (mark': nat)
    requires h.sawIrqLine ==> Remembers(dut, i, h, mark)
    ensures mark' == if h.sawIrqLine then mark else i
    ensures var h' := Marked(h, dut(i), lines);
      h'.sawIrqLine && !Resumed(h', dut(i)) ==> Remembers(dut, i + 1, h', mark')
    ensures Resumed(Marked(h, dut(i), lines), dut(i)) ==> FirstMove(dut, mark', i)
  {
    hide MovedOn;
    mark' := if h.sawIrqLine then mark else i;
  }

  lemma TwoBeforeNow(dut: Dut, e: nat, h: Harness, m: Marks)
    requires Leds(dut, e, h, m) && Stage(h.state) >= 1
    ensures h.ledTransitions >= 1 ==> m.two < e
    ensures h.ledTransitions == 2 ==> m.four < e
    ensures h.ledTransitions <= 2
  {
  }

  lemma FirstWaitKeeps(dut: Dut, i: nat, h: Harness, m: Marks) returns (m': Marks)
    requires h.state == WaitIrq1 && Leds(dut, i + 1, h, m) && SoFar(dut, i, h, m)
    requires h.lineCount == Count(dut, i + 1) && Count(dut, i) <= Count(dut, i + 1) <= Count(dut, i) + 1
    requires Advance(h, dut(i)).Go?
    ensures Leds(dut, i + 1, Advance(h, dut(i)).harness, m') && SoFar(dut, i + 1, Advance(h, dut(i)).harness, m')
  {
    hide Count, LedHistory, FirstMove, Remembers, MovedOn, Leds;
    var mark := MarkKeeps(dut, i, h, 2, m.mark1);
    m' := m.(mark1 := mark, go1 := i);
    TwoBeforeNow(dut, i + 1, h, m);
    LedsOnly(dut, i + 1, h, Advance(h, dut(i)).harness, m, m');
  }

  lemma SecondWaitKeeps(dut: Dut, i: nat, h: Harness, m: Marks) returns (m': Marks)
    requires h.state == WaitIrq2 && Leds(dut, i + 1, h, m) && SoFar(dut, i, h, m)
    requires h.lineCount == Count(dut, i + 1) && Count(dut, i) <= Count(dut, i + 1) <= Count(dut, i) + 1
    requires Advance(h, dut(i)).Go?
    ensures Leds(dut, i + 1, Advance(h, dut(i)).harness, m') && SoFar(dut, i + 1, Advance(h, dut(i)).harness, m')
  {
    hide Count, LedHistory, FirstMove, Remembers, MovedOn, Leds;
    var mark := MarkKeeps(dut, i, h, 3, m.mark2);
    m' := m.(mark2 := mark, go2 := i);
    TwoBeforeNow(dut, i + 1, h, m);
    LedsOnly(dut, i + 1, h, Advance(h, dut(i)).harness, m, m');
  }

  lemma SwitchKeeps(dut: Dut, i: nat, h: Harness, m: Marks) returns (m': Marks)
    requires Leds(dut, i + 1, h, m) && SoFar(dut, i, h, m)
    requires h.lineCount == Count(dut, i + 1) && Count(dut, i) <= Count(dut, i + 1) <= Count(dut, i) + 1
    requires Advance(h, dut(i)).Go?
    ensures Leds(dut, i + 1, Advance(h, dut(i)).harness, m') && SoFar(dut, i + 1, Advance(h, dut(i)).harness, m')
  {
    hide Leds, SoFar, Count;
    m' := m;
    match h.state {
      case WaitBoot => m' := BootKeeps(dut, i, h, m);
      case BouncePress => PressKeeps(dut, i, h, m);
      case StablePress1 => PressKeeps(dut, i, h, m);
      case WaitIrq1 => m' := FirstWaitKeeps(dut, i, h, m);
      case StableRelease => ReleaseKeeps(dut, i, h, m);
      case StablePress2 => ReleaseKeeps(dut, i, h, m);
      case WaitIrq2 => m' := SecondWaitKeeps(dut, i, h, m);
    }
  }

  // ----- the whole run

  lemma KeepsTheRest(h: Harness, h': Harness, dut: Dut, i: nat, m: Marks)
    requires h' == h.(line := h'.line, lineCount := h'.lineCount) && Leds(dut, i, h, m) && SoFar(dut, i, h, m)
    ensures Leds(dut, i, h', m) && SoFar(dut, i, h', m)
  {
    hide Count, LedHistory, FirstMove;
  }

  /** Byte, LED and switch of cycle `i`. */
  lemma CycleKeeps(dut: Dut, i: nat, h: Harness, m: Marks, byte: Option<int>)
    returns (h2: Harness, m2: Marks)
    requires LinesOf(Text(dut, i)) == Lines(h.lineCount, h.line) && Leds(dut, i, h, m) && SoFar(dut, i, h, m)
    requires Text(dut, i + 1) == Text(dut, i) + match byte case None => [] case Some(v) => [v]
    requires TakeByte(h, byte).Some? && TakeLed(TakeByte(h, byte).value, dut(i).led).Some?
    ensures h2 == TakeLed(TakeByte(h, byte).value, dut(i).led).value
    ensures LinesOf(Text(dut, i + 1)) == Lines(h2.lineCount, h2.line)
    ensures Leds(dut, i + 1, h2, m2) && SoFar(dut, i, h2, m2)
  {
    hide TakeByte, TakeLed, Text, LinesOf, Leds, SoFar;
    ByteKeepsLines(h, Text(dut, i), byte);
    var h1 := TakeByte(h, byte).value;
    KeepsTheRest(h, h1, dut, i, m);
    m2 := LedKeepsSoFar(dut, i, h1, m);
    h2 := TakeLed(h1, dut(i).led).value;
  }

  lemma {:induction false} RunKeeps(dut: Dut, i: nat) returns (m: Marks)
    requires RunTo(dut, i).Go?
    ensures var h := RunTo(dut, i).harness;
      LinesOf(Text(dut, i)) == Lines(h.lineCount, h.line) && Leds(dut, i, h, m) && SoFar(dut, i, h, m)
  {
    hide Leds, SoFar, Advance, TakeByte, TakeLed, Observed, After, Text, LinesOf, Levels;
    if i == 0 {
      m := Marks(0, 0, 0, 0, 0, 0, 0);
      KeepsAtStart(dut, m);
    } else {
      var before := RunKeeps(dut, i - 1);
      var h := RunTo(dut, i - 1).harness;
      var byte := Observed(After(READY, Levels(dut, i - 1), 8), dut(i - 1).uartTx, 8).1;
      TextStep(dut, i - 1);
      var h2, m2 := CycleKeeps(dut, i - 1, h, before, byte);
      CountStep(dut, i - 1);
      m := SwitchKeeps(dut, i - 1, h2, m2);
      SwitchKeepsLines(h2, dut(i - 1));
    }
  }

  lemma SwitchKeepsLines(h: Harness, c: Cycle)
    requires Advance(h, c).Go?
    ensures Advance(h, c).harness.line == h.line && Advance(h, c).harness.lineCount == h.lineCount
  {
  }

  lemma KeepsAtStart(dut: Dut, m: Marks)
    ensures LinesOf(Text(dut, 0)) == Lines(0, []) && Leds(dut, 0, START, m) && SoFar(dut, 0, START, m)
  {
  }

  lemma KeptIsSchedule(dut: Dut, k: nat, h: Harness, m: Marks)
    requires h.state == Complete && Leds(dut, k + 1, h, m) && SoFar(dut, k, h, m)
    requires Clean(dut, k + 1) && Text(dut, k + 1) == Codes("rv32i soc ready\nexternal irq\nexternal irq\n")
    ensures Schedule(dut, k, m)
  {
    hide Clean, Text, ExpectedText, Count, LedIs, MovedOn;
  }

  lemma PassedKeptSchedule(dut: Dut, k: nat) returns (m: Marks)
    requires PassesAt(dut, k)
    ensures Schedule(dut, k, m)
  {
    hide Leds, SoFar, Advance, TakeByte, TakeLed, Observed, After, Text, LinesOf, Levels, RunTo, Schedule, Clean;
    hide ExpectedText;
    var before := RunKeeps(dut, k);
    var h := RunTo(dut, k).harness;
    var (d, byte) := Observed(After(READY, Levels(dut, k), 8), dut(k).uartTx, 8);
    RunSteps(dut, k, h);
    TextStep(dut, k);
    var h2, m2 := CycleKeeps(dut, k, h, before, byte);
    OnlyCompletePasses(h2, dut(k));
    var shown := SuccessIsDemonstrated(dut, k);
    ShownText(dut, k, shown);
    m := m2;
    KeptIsSchedule(dut, k, h2, m);
  }

  lemma ShownText(dut: Dut, k: nat, m: Marks)
    requires Demonstrated(dut, k, m)
    ensures Clean(dut, k + 1) && Text(dut, k + 1) == Codes("rv32i soc ready\nexternal irq\nexternal irq\n")
  {
    hide Clean, Text, ExpectedText, Driven, Stimulated, Passed, LedIs;
  }

  /** The harness reports success in cycle `k` to exactly the designs that keep the schedule up to it. */
  lemma PassesExactlyOnSchedule(dut: Dut, k: nat)
    ensures PassesAt(dut, k) <==> exists m :: Schedule(dut, k, m)
  {
    hide PassesAt, Schedule;
    if PassesAt(dut, k) {
      var m := PassedKeptSchedule(dut, k);
    }
    if m :| Schedule(dut, k, m) {
      ScheduleSuffices(dut, k, m);
    }
  }
}
