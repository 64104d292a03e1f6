/**
  sim/soc_tb.cpp, from the other side: a design that keeps the schedule of the scenario passes.

  The schedule is stated on what the design shows; the harness is then in a known state before every
  cycle.  Two designs are exhibited, one whose progress counter moves and one whose counter stands still
  where the comparison with the mark wraps.
 */
module SocSchedule {
  import opened Bits
  import opened Options
  import opened Uart
  import opened SocHarness

  // ----- the lines of a received text

  const NEWLINE: int := '\n' as int

  datatype Lines = Lines(count: nat, rest: seq<int>)

  function LinesOf(text: seq<int>): Lines {
    if text == [] then Lines(0, [])
    else
      var n := |text| - 1;
      var before := LinesOf(text[..n]);
      if text[n] == NEWLINE then Lines(before.count + 1, []) else Lines(before.count, before.rest + [text[n]])
  }

  lemma LinesStep(text: seq<int>, b: int)
    ensures LinesOf(text + [b])
         == if b == NEWLINE then Lines(LinesOf(text).count + 1, [])
            else Lines(LinesOf(text).count, LinesOf(text).rest + [b])
  {
    assert (text + [b])[..|text|] == text;
  }

  lemma NewlineIsLast(k: nat, j: nat)
    requires k < 3 && j < |ExpectedLine(k)|
    ensures ExpectedLine(k)[j] == NEWLINE <==> j == |ExpectedLine(k)| - 1
    ensures |ExpectedLine(k)| <= 16
  {
    if k == 0 {
      assert ExpectedLine(k)[j] == "rv32i soc ready\n"[j] as int;
    } else {
      assert ExpectedLine(k)[j] == "external irq\n"[j] as int;
    }
  }

  lemma ExpectedPart(k: nat)
    requires k < 3
    ensures ExpectedText(k) + ExpectedLine(k) <= ExpectedText(3)
    ensures |ExpectedText(3)| == 42 && |ExpectedText(2)| == 29 && |ExpectedText(1)| == 16
    ensures |ExpectedLine(0)| == 16 && |ExpectedLine(1)| == 13 == |ExpectedLine(2)|
  {
    var a, b, c := ExpectedLine(0), ExpectedLine(1), ExpectedLine(2);
    assert ExpectedText(1) == a;
    assert ExpectedText(2) == a + b;
    assert ExpectedText(3) == a + b + c;
  }

  /** A text that is part of the expected one: whole lines, then the front of the next. */
  ghost predicate OnTrack(text: seq<int>) {
    var l := LinesOf(text);
    && l.count <= 3 && text == ExpectedText(l.count) + l.rest
    && (l.count == 3 ==> l.rest == [])
    && (l.count < 3 ==> |l.rest| < |ExpectedLine(l.count)| && l.rest == ExpectedLine(l.count)[..|l.rest|])
  }

  lemma {:induction false} PrefixIsOnTrack(text: seq<int>)
    requires text <= ExpectedText(3)
    ensures OnTrack(text)
    decreases |text|
  {
    hide ExpectedLine;
    if text == [] {
      ExpectedPart(0);
      assert ExpectedText(0) + [] == [];
    } else {
      var n := |text| - 1;
      var front := text[..n];
      PrefixIsOnTrack(front);
      var l := LinesOf(front);
      assert text == front + [text[n]];
      LinesStep(front, text[n]);
      NextByte(front, text[n]);
    }
  }

  lemma NextByte(text: seq<int>, b: int)
    requires OnTrack(text) && text + [b] <= ExpectedText(3)
    ensures LinesOf(text).count < 3 && OnTrack(text + [b])
    ensures b == NEWLINE ==> LinesOf(text).rest + [b] == ExpectedLine(LinesOf(text).count)
  {
    hide ExpectedLine, ExpectedText, LinesOf;
    var l := LinesOf(text);
    assert |text| < |ExpectedText(3)|;
    ExpectedPart(l.count);
    LinesStep(text, b);
    var j, line := |l.rest|, ExpectedLine(l.count);
    assert (text + [b])[|text|] == ExpectedText(3)[|ExpectedText(l.count)| + j] == line[j];
    NewlineIsLast(l.count, j);
    assert line[..j + 1] == l.rest + [b];
    if b == NEWLINE {
      NextExpected(l.count);
      assert line[..j + 1] == line;
      assert text + [b] == ExpectedText(l.count) + line;
    } else {
      assert text + [b] == ExpectedText(l.count) + (l.rest + [b]);
    }
  }

  lemma NextExpected(k: nat)
    requires k < 3
    ensures ExpectedText(k + 1) == ExpectedText(k) + ExpectedLine(k) && ExpectedText(k + 1) + [] == ExpectedText(k + 1)
    ensures k + 1 < 3 ==> |ExpectedLine(k + 1)| > 0
  {
  }

  // ----- the schedule

  /** The lines complete after `i` cycles. */
  function Count(dut: Dut, i: nat): nat { LinesOf(Text(dut, i)).count }

  /** `go` is the first cycle from `mark` on in which progress has moved on from where it was at `mark`. */
  ghost predicate FirstMove(dut: Dut, mark: nat, go: nat) {
    && mark <= go && MovedOn(dut(mark).progress, dut(go).progress)
    && forall j :: mark <= j < go ==> !MovedOn(dut(mark).progress, dut(j).progress)
  }

  /** The order of the events. */
  predicate Order(k: nat, m: Marks) {
    && m.boot + 20 < m.two <= m.mark1 <= m.go1 && m.boot + 29 <= m.mark1
    && m.go1 + 8 < m.four <= m.mark2 <= m.go2 && m.go1 + 17 <= m.mark2 && k == m.go2 + 1
  }

  /** The LED shows 1 from the boot line on, then 2, then 4. */
  ghost predicate Lit(dut: Dut, k: nat, m: Marks) {
    LedIs(dut, m.boot, m.two, 1) && LedIs(dut, m.two, m.four, 2) && LedIs(dut, m.four, k + 1, 4)
  }

  /**
    The boot line and no other while the button bounces; the second line once the button is held and no
    other until it has been released; the third once it is pressed again.
   */
  ghost predicate Received(dut: Dut, m: Marks) {
    && Count(dut, m.boot) == 0 && Count(dut, m.boot + 1) == 1 == Count(dut, m.boot + 21)
    && Count(dut, m.mark1 + 1) == 2 && (m.mark1 == m.boot + 29 || Count(dut, m.mark1) == 1)
    && Count(dut, m.go1 + 9) == 2
    && Count(dut, m.mark2 + 1) == 3 && (m.mark2 == m.go1 + 17 || Count(dut, m.mark2) == 2)
  }

  /** What a design has to show, and when, for the harness to pass at cycle `k`. */
  ghost predicate Schedule(dut: Dut, k: nat, m: Marks) {
    && Clean(dut, k + 1) && Text(dut, k + 1) == Codes("rv32i soc ready\nexternal irq\nexternal irq\n")
    && Order(k, m) && Received(dut, m) && Lit(dut, k, m)
    && FirstMove(dut, m.mark1, m.go1) && FirstMove(dut, m.mark2, m.go2)
  }

  // ----- the state of the harness on schedule

  /** State, cycles spent in it, interrupt line seen, and remembered mark, before cycle `i`. */
  datatype Place = Place(state: State, cycles: nat, seen: bool, mark: word)

  function PlaceAt(dut: Dut, m: Marks, i: nat): Place {
    var first, second := dut(m.mark1).progress, dut(m.mark2).progress;
    if i <= m.boot then Place(WaitBoot, 0, false, 0)
    else if i <= m.boot + 20 then Place(BouncePress, i - m.boot - 1, false, 0)
    else if i <= m.boot + 28 then Place(StablePress1, i - m.boot - 21, false, 0)
    else if i <= m.mark1 then Place(WaitIrq1, 0, false, 0)
    else if i <= m.go1 then Place(WaitIrq1, 0, true, first)
    else if i <= m.go1 + 8 then Place(StableRelease, i - m.go1 - 1, true, first)
    else if i <= m.go1 + 16 then Place(StablePress2, i - m.go1 - 9, true, first)
    else if i <= m.mark2 then Place(WaitIrq2, 0, false, first)
    else if i <= m.go2 then Place(WaitIrq2, 0, true, second)
    else Place(Complete, 0, true, second)
  }

  /** LED changes seen before cycle `i`. */
  function ChangesAt(m: Marks, i: nat): nat { if i > m.four then 2 else if i > m.two then 1 else 0 }

  function OnSchedule(dut: Dut, m: Marks, i: nat): Harness {
    var place, lines := PlaceAt(dut, m, i), LinesOf(Text(dut, i));
    var track := i > m.boot;
    var changes := if track then ChangesAt(m, i) else 0;
    Harness(place.state, lines.rest, lines.count, place.cycles, place.mark, place.seen, track,
            if track then LedAfter(changes) else 0, changes)
  }

  /** With the byte and the LED of cycle `i` taken, before the switch. */
  function Taken(dut: Dut, m: Marks, i: nat): Harness {
    var place, lines := PlaceAt(dut, m, i), LinesOf(Text(dut, i + 1));
    var track := i > m.boot;
    var changes := if track then ChangesAt(m, i + 1) else 0;
    Harness(place.state, lines.rest, lines.count, place.cycles, place.mark, place.seen, track,
            if track then LedAfter(changes) else 0, changes)
  }

  // ----- one cycle on schedule

  lemma ByteTaken(h: Harness, text: seq<int>, byte: Option<int>)
    requires var all := text + match byte case None => [] case Some(v) => [v]; all <= ExpectedText(3)
    requires text <= ExpectedText(3) && h.line == LinesOf(text).rest && h.lineCount == LinesOf(text).count
    ensures var all := text + match byte case None => [] case Some(v) => [v];
      TakeByte(h, byte) == Some(h.(line := LinesOf(all).rest, lineCount := LinesOf(all).count))
  {
    hide ExpectedLine, ExpectedText, LinesOf, OnTrack;
    if byte.None? {
      assert text + [] == text;
    } else {
      PrefixIsOnTrack(text);
      LinesStep(text, byte.value);
      NextByte(text, byte.value);
      RestIsShort(text);
    }
  }

  lemma RestIsShort(text: seq<int>)
    requires OnTrack(text)
    ensures |LinesOf(text).rest| < 16
  {
    hide ExpectedLine, ExpectedText, LinesOf;
    var k := LinesOf(text).count;
    if k < 3 {
      NewlineIsLast(k, |LinesOf(text).rest|);
    }
  }

  lemma LedTaken(dut: Dut, m: Marks, k: nat, i: nat, h: Harness)
    requires Order(k, m) && Lit(dut, k, m) && i <= k
    requires h.trackLed == (i > m.boot)
    requires h.trackLed ==> h.ledTransitions == ChangesAt(m, i) && h.lastLed == LedAfter(ChangesAt(m, i))
    ensures TakeLed(h, dut(i).led)
         == Some(if h.trackLed then
                   h.(ledTransitions := ChangesAt(m, i + 1), lastLed := LedAfter(ChangesAt(m, i + 1)))
                 else h)
  {
  }

  lemma {:induction false} TextGrows(dut: Dut, i: nat, j: nat)
    requires i <= j
    ensures Text(dut, i) <= Text(dut, j) && Count(dut, i) <= Count(dut, j)
    decreases j
  {
    hide Text, Observed, After, Levels;
    if i < j {
      TextGrows(dut, i, j - 1);
      TextStep(dut, j - 1);
      CountStep(dut, j - 1);
    }
  }

  lemma CountStep(dut: Dut, i: nat)
    ensures Count(dut, i) <= Count(dut, i + 1) <= Count(dut, i) + 1
  {
    hide Text, Observed, After, Levels, LinesOf;
    TextStep(dut, i);
    var byte := Observed(After(READY, Levels(dut, i), 8), dut(i).uartTx, 8).1;
    if byte.Some? {
      LinesStep(Text(dut, i), byte.value);
    } else {
      assert Text(dut, i) + [] == Text(dut, i);
    }
  }

  /** The lines complete after cycle `i`, as far as the switch looks at them. */
  lemma CountsOnSchedule(dut: Dut, k: nat, m: Marks, i: nat)
    requires Order(k, m) && Received(dut, m) && i < k
    ensures i < m.boot ==> Count(dut, i + 1) == 0
    ensures m.boot <= i <= m.boot + 20 ==> Count(dut, i + 1) == 1
    ensures m.boot + 28 < i < m.mark1 ==> Count(dut, i + 1) <= 1
    ensures i == m.mark1 ==> Count(dut, i + 1) == 2
    ensures m.go1 < i <= m.go1 + 8 ==> Count(dut, i + 1) == 2
    ensures m.go1 + 16 < i < m.mark2 ==> Count(dut, i + 1) <= 2
    ensures i == m.mark2 ==> Count(dut, i + 1) == 3
  {
    hide Text, Count;
    if i < m.boot {
      TextGrows(dut, i + 1, m.boot);
    } else if i <= m.boot + 20 {
      TextGrows(dut, m.boot + 1, i + 1);
      TextGrows(dut, i + 1, m.boot + 21);
    } else if m.boot + 28 < i < m.mark1 {
      TextGrows(dut, i + 1, m.mark1);
    } else if m.go1 < i <= m.go1 + 8 {
      TextGrows(dut, m.mark1 + 1, i + 1);
      TextGrows(dut, i + 1, m.go1 + 9);
    } else if m.go1 + 16 < i < m.mark2 {
      TextGrows(dut, i + 1, m.mark2);
    }
  }

  lemma CountAtMost(text: seq<int>)
    requires text <= ExpectedText(3)
    ensures LinesOf(text).count <= 3 && (LinesOf(text).count == 3 ==> LinesOf(text).rest == [] && text == ExpectedText(3))
  {
    hide LinesOf, ExpectedLine, ExpectedText;
    PrefixIsOnTrack(text);
    assert ExpectedText(3) + [] == ExpectedText(3);
  }

  lemma LedFacts(dut: Dut, k: nat, m: Marks)
    requires Order(k, m) && Lit(dut, k, m)
    ensures dut(m.boot).led == 1 && dut(m.mark1).led == 2 && dut(m.mark2).led == 4 == dut(k).led
  {
  }

  lemma EndOfText(dut: Dut, k: nat, m: Marks)
    requires Text(dut, k + 1) == ExpectedText(3) && Order(k, m) && Received(dut, m)
    ensures LinesOf(Text(dut, k + 1)) == Lines(3, [])
  {
    hide Text, LinesOf, ExpectedText;
    TextGrows(dut, m.mark2 + 1, k + 1);
    CountAtMost(Text(dut, k + 1));
  }

  /** The switch in cycle `i` moves the harness on as planned. */
  ghost predicate Switches(dut: Dut, m: Marks, i: nat) {
    Advance(Taken(dut, m, i), dut(i)) == Go(OnSchedule(dut, m, i + 1))
  }

  lemma BootSwitch(dut: Dut, k: nat, m: Marks, i: nat)
    requires Order(k, m) && i <= m.boot && dut(m.boot).led == 1
    requires Count(dut, i + 1) == if i == m.boot then 1 else 0
    ensures Switches(dut, m, i)
  {
    hide Text, LinesOf;
  }

  lemma PressSwitch(dut: Dut, k: nat, m: Marks, i: nat)
    requires Order(k, m) && m.boot < i <= m.boot + 28
    requires i <= m.boot + 20 ==> Count(dut, i + 1) == 1
    ensures Switches(dut, m, i)
  {
    hide Text, LinesOf;
  }

  lemma WaitSwitch(dut: Dut, k: nat, m: Marks, i: nat)
    requires Order(k, m) && m.boot + 28 < i < m.mark1 && Count(dut, i + 1) <= 1
    ensures Switches(dut, m, i)
  {
    hide Text, LinesOf, MovedOn;
  }

  lemma MarkSwitch(dut: Dut, k: nat, m: Marks, i: nat)
    requires Order(k, m) && m.mark1 <= i <= m.go1 && FirstMove(dut, m.mark1, m.go1)
    requires i == m.mark1 ==> Count(dut, i + 1) == 2 && dut(i).led == 2
    ensures Switches(dut, m, i)
  {
    hide Text, LinesOf, MovedOn;
  }

  lemma ReleaseSwitch(dut: Dut, k: nat, m: Marks, i: nat)
    requires Order(k, m) && m.go1 < i <= m.go1 + 16
    requires i <= m.go1 + 8 ==> Count(dut, i + 1) == 2
    ensures Switches(dut, m, i)
  {
    hide Text, LinesOf;
  }

  lemma SecondWaitSwitch(dut: Dut, k: nat, m: Marks, i: nat)
    requires Order(k, m) && m.go1 + 16 < i < m.mark2 && Count(dut, i + 1) <= 2
    ensures Switches(dut, m, i)
  {
    hide Text, LinesOf, MovedOn;
  }

  lemma SecondMarkSwitch(dut: Dut, k: nat, m: Marks, i: nat)
    requires Order(k, m) && m.mark2 <= i <= m.go2 && FirstMove(dut, m.mark2, m.go2)
    requires i == m.mark2 ==> Count(dut, i + 1) == 3 && dut(i).led == 4
    ensures Switches(dut, m, i)
  {
    hide Text, LinesOf, MovedOn;
  }

  lemma LastSwitch(dut: Dut, k: nat, m: Marks)
    requires Order(k, m) && dut(k).led == 4 && LinesOf(Text(dut, k + 1)) == Lines(3, [])
    ensures Advance(Taken(dut, m, k), dut(k)) == Pass
  {
    hide Text, LinesOf, MovedOn;
  }

  lemma SwitchOnSchedule(dut: Dut, k: nat, m: Marks, i: nat)
    requires Order(k, m) && Received(dut, m) && Lit(dut, k, m) && i < k
    requires FirstMove(dut, m.mark1, m.go1) && FirstMove(dut, m.mark2, m.go2)
    ensures Switches(dut, m, i)
  {
    hide Switches, FirstMove, Count, Received, Lit;
    LedFacts(dut, k, m);
    CountsOnSchedule(dut, k, m, i);
    if i <= m.boot {
      BootSwitch(dut, k, m, i);
    } else if i <= m.boot + 28 {
      PressSwitch(dut, k, m, i);
    } else if i < m.mark1 {
      WaitSwitch(dut, k, m, i);
    } else if i <= m.go1 {
      MarkSwitch(dut, k, m, i);
    } else if i <= m.go1 + 16 {
      ReleaseSwitch(dut, k, m, i);
    } else if i < m.mark2 {
      SecondWaitSwitch(dut, k, m, i);
    } else {
      SecondMarkSwitch(dut, k, m, i);
    }
  }

  // ----- the whole run

  lemma ErrorIsKept(d: Decoder, level: bool, divisor: nat)
    requires d.error != NoError
    ensures Observed(d, level, divisor).0.error != NoError
  {
    hide Or, Shl;
  }

  lemma {:induction false} NoEarlierError(dut: Dut, i: nat, j: nat)
    requires i <= j && After(READY, Levels(dut, j), 8).error == NoError
    ensures After(READY, Levels(dut, i), 8).error == NoError
    decreases j
  {
    hide Observed, After, Levels;
    if i < j {
      TextStep(dut, j - 1);
      var before := After(READY, Levels(dut, j - 1), 8);
      if before.error != NoError {
        ErrorIsKept(before, dut(j - 1).uartTx, 8);
      }
      NoEarlierError(dut, i, j - 1);
    }
  }

  lemma CleanCycle(dut: Dut, k: nat, i: nat)
    requires Clean(dut, k + 1) && i <= k
    ensures !dut(i).busFault && !dut(i).finished
    ensures After(READY, Levels(dut, i + 1), 8).error == NoError
  {
    hide After, Levels;
    NoEarlierError(dut, i + 1, k + 1);
  }

  /** Byte and LED of cycle `i`, taken on schedule. */
  lemma TakenOnSchedule(dut: Dut, k: nat, m: Marks, i: nat, byte: Option<int>)
    requires Order(k, m) && Lit(dut, k, m) && i <= k
    requires Text(dut, i + 1) == Text(dut, i) + match byte case None => [] case Some(v) => [v]
    requires Text(dut, i) <= ExpectedText(3) && Text(dut, i + 1) <= ExpectedText(3)
    ensures TakeByte(OnSchedule(dut, m, i), byte).Some?
    ensures TakeLed(TakeByte(OnSchedule(dut, m, i), byte).value, dut(i).led) == Some(Taken(dut, m, i))
  {
    hide TakeByte, TakeLed, Text, LinesOf, ExpectedText, PlaceAt, ChangesAt, Order, Lit;
    ByteTaken(OnSchedule(dut, m, i), Text(dut, i), byte);
    LedTaken(dut, m, k, i, TakeByte(OnSchedule(dut, m, i), byte).value);
  }

  lemma CycleOnSchedule(dut: Dut, k: nat, m: Marks, i: nat)
    requires Schedule(dut, k, m) && i <= k && RunTo(dut, i) == Go(OnSchedule(dut, m, i))
    ensures RunTo(dut, i + 1) == Advance(Taken(dut, m, i), dut(i))
  {
    hide Observed, After, Levels, Text, OnSchedule, Taken, RunTo, Advance, TakeByte, TakeLed, ExpectedText;
    hide Order, Received, Lit, FirstMove, Clean, Codes;
    ExpectedLines();
    var byte := Observed(After(READY, Levels(dut, i), 8), dut(i).uartTx, 8).1;
    RunSteps(dut, i, OnSchedule(dut, m, i));
    TextStep(dut, i);
    CleanCycle(dut, k, i);
    TextGrows(dut, i, k + 1);
    TextGrows(dut, i + 1, k + 1);
    TakenOnSchedule(dut, k, m, i, byte);
  }

  lemma NextOnSchedule(dut: Dut, k: nat, m: Marks, i: nat)
    requires Schedule(dut, k, m) && i < k
    ensures Advance(Taken(dut, m, i), dut(i)) == Go(OnSchedule(dut, m, i + 1))
  {
    hide OnSchedule, Taken, Advance, Order, Received, Lit, FirstMove, Clean, Text, ExpectedText;
    SwitchOnSchedule(dut, k, m, i);
  }

  lemma {:induction false} RunOnSchedule(dut: Dut, k: nat, m: Marks, i: nat)
    requires Schedule(dut, k, m) && i <= k
    ensures RunTo(dut, i) == Go(OnSchedule(dut, m, i))
  {
    hide OnSchedule, Taken, RunTo, Advance, Schedule;
    if i == 0 {
      StartsOnSchedule(dut, m);
    } else {
      RunOnSchedule(dut, k, m, i - 1);
      CycleOnSchedule(dut, k, m, i - 1);
      NextOnSchedule(dut, k, m, i - 1);
    }
  }

  lemma StartsOnSchedule(dut: Dut, m: Marks)
    ensures RunTo(dut, 0) == Go(OnSchedule(dut, m, 0))
  {
    RunStarts(dut);
    assert Text(dut, 0) == [];
  }

  /** Every design that keeps the schedule is passed, in the cycle the schedule names. */
  lemma ScheduleSuffices(dut: Dut, k: nat, m: Marks)
    requires Schedule(dut, k, m)
    ensures PassesAt(dut, k)
  {
    hide OnSchedule, Taken, RunTo, Advance, Order, Received, Lit, FirstMove, Clean, Text, ExpectedText, Codes;
    ExpectedLines();
    RunOnSchedule(dut, k, m, k);
    CycleOnSchedule(dut, k, m, k);
    LedFacts(dut, k, m);
    EndOfText(dut, k, m);
    LastSwitch(dut, k, m);
  }

  // ----- designs that transmit the three lines

  /** The cycle at which byte `j` has been sent. */
  function Bound(sent: seq<Sent>, j: nat): nat
    requires j <= |sent|
  {
    |Wave(sent[..j], 8)|
  }

  /** The design sends these bytes as 8-N-1 frames and leaves the line idle up to cycle `end`. */
  ghost predicate Transmits(dut: Dut, sent: seq<Sent>, end: nat) {
    && Bound(sent, |sent|) <= end
    && Levels(dut, Bound(sent, |sent|)) == Wave(sent, 8)
    && forall j :: Bound(sent, |sent|) <= j < end ==> dut(j).uartTx
  }

  lemma FrameLength(b: byte)
    ensures |Frame(b, 8)| == 80
  {
    BitsLength(b, 8);
  }

  lemma {:induction false} BitsLength(b: byte, k: nat)
    requires k <= 8
    ensures |DataBits(b, k, 8)| == 8 * k
  {
    hide Bit;
    if k > 0 {
      BitsLength(b, k - 1);
    }
  }

  lemma BoundStep(sent: seq<Sent>, j: nat)
    requires j < |sent|
    ensures Bound(sent, j + 1) == Bound(sent, j) + sent[j].gap + 80
    ensures Wave(sent[..j], 8) <= Wave(sent[..j + 1], 8)
  {
    hide Frame, Hold;
    assert sent[..j + 1][..j] == sent[..j];
    FrameLength(sent[j].value);
    HoldLength(true, sent[j].gap);
  }

  lemma HoldLength(level: bool, n: nat)
    ensures |Hold(level, n)| == n
  {
  }

  lemma {:induction false} BoundsGrow(sent: seq<Sent>, i: nat, j: nat)
    requires i <= j <= |sent|
    ensures Bound(sent, j) >= Bound(sent, i) + 80 * (j - i)
    ensures Wave(sent[..i], 8) <= Wave(sent[..j], 8)
    decreases j
  {
    hide Wave;
    if i < j {
      BoundsGrow(sent, i, j - 1);
      BoundStep(sent, j - 1);
    }
  }

  /** When byte `j` has been sent, exactly the first `j` bytes have been received. */
  lemma TextAtBound(dut: Dut, sent: seq<Sent>, end: nat, j: nat)
    requires Transmits(dut, sent, end) && j <= |sent|
    ensures Text(dut, Bound(sent, j)) == Values(sent)[..j]
  {
    hide Wave, Values, Output, After;
    BoundsGrow(sent, j, |sent|);
    assert sent[..|sent|] == sent;
    WaveDecodes(sent[..j], 8);
    var i := Bound(sent, j);
    LevelsOfPart(dut, i, Bound(sent, |sent|));
    assert Levels(dut, i) == Wave(sent, 8)[..i] == Wave(sent[..j], 8);
    ValuesOfPart(sent, j);
  }

  lemma LevelsOfPart(dut: Dut, i: nat, n: nat)
    requires i <= n
    ensures Levels(dut, i) == Levels(dut, n)[..i]
  {
  }

  lemma ValuesOfPart(sent: seq<Sent>, j: nat)
    requires j <= |sent|
    ensures Values(sent[..j]) == Values(sent)[..j]
  {
  }

  /** On the idle line after the last byte nothing more is received. */
  lemma TextAtEnd(dut: Dut, sent: seq<Sent>, end: nat, i: nat)
    requires Transmits(dut, sent, end) && Bound(sent, |sent|) <= i <= end
    ensures Text(dut, i) == Values(sent) && After(READY, Levels(dut, i), 8).error == NoError
  {
    hide Wave, Values;
    var n := Bound(sent, |sent|);
    assert sent[..|sent|] == sent;
    WaveDecodes(sent, 8);
    Idles(READY, i - n, 8);
    TurnsThen(READY, Wave(sent, 8), Hold(true, i - n), 8, READY, READY, Values(sent), []);
    assert Levels(dut, i) == Wave(sent, 8) + Hold(true, i - n) by {
      LevelsOfPart(dut, n, i);
    }
    assert Values(sent) + [] == Values(sent);
  }

  lemma CountOfPart(j: nat)
    requires j <= 42
    ensures |ExpectedText(3)| == 42
    ensures LinesOf(ExpectedText(3)[..j]).count == if j < 16 then 0 else if j < 29 then 1 else if j < 42 then 2 else 3
  {
    hide LinesOf, ExpectedLine, ExpectedText;
    ExpectedPart(0);
    var text := ExpectedText(3)[..j];
    PrefixIsOnTrack(text);
    NothingExpected();
    assert |text| == |ExpectedText(LinesOf(text).count)| + |LinesOf(text).rest|;
  }

  lemma NothingExpected()
    ensures ExpectedText(0) == []
  {
  }

  /** The lines received when byte `j` has been sent. */
  lemma CountAtBound(dut: Dut, sent: seq<Sent>, end: nat, j: nat)
    requires Transmits(dut, sent, end) && Values(sent) == ExpectedText(3) && |sent| == 42 && j <= 42
    ensures Count(dut, Bound(sent, j)) == if j < 16 then 0 else if j < 29 then 1 else if j < 42 then 2 else 3
  {
    hide Text, Values, LinesOf, ExpectedText, Transmits;
    TextAtBound(dut, sent, end, j);
    CountOfPart(j);
  }

  /** The cycle in which line `v` is completed. */
  lemma {:induction false} Crossing(dut: Dut, a: nat, b: nat, v: nat) returns (c: nat)
    requires a <= b && Count(dut, a) < v <= Count(dut, b)
    ensures a <= c < b && Count(dut, c) == v - 1 && Count(dut, c + 1) == v
    decreases b
  {
    hide Count;
    CountStep(dut, b - 1);
    if Count(dut, b - 1) < v {
      c := b - 1;
    } else {
      c := Crossing(dut, a, b - 1, v);
    }
  }

  lemma {:induction false} FirstMoveWithin(dut: Dut, mark: nat, last: nat) returns (go: nat)
    requires mark <= last && MovedOn(dut(mark).progress, dut(last).progress)
    ensures FirstMove(dut, mark, go) && go <= last
  {
    hide MovedOn;
    go := mark;
    while !MovedOn(dut(mark).progress, dut(go).progress)
      invariant mark <= go <= last
      invariant forall j :: mark <= j < go ==> !MovedOn(dut(mark).progress, dut(j).progress)
      decreases last - go
    {
      go := go + 1;
    }
  }

  /**
    A design that works: it sends the three lines, its LED changes once the button has been held and once
    it has been pressed again, before the line that reports it is complete, and its progress counter passes
    any mark within `window` cycles.  The last byte has been sent at Bound(sent, 42).
   */
  ghost predicate Works(dut: Dut, sent: seq<Sent>, two: nat, four: nat, window: nat) {
    && |sent| == 42 && Values(sent) == ExpectedText(3)
    && var end := Bound(sent, 42) + window + 1;
    && Transmits(dut, sent, end)
    && (forall j :: 0 <= j < end ==> !dut(j).busFault && !dut(j).finished)
    && Bound(sent, 16) + 20 <= two <= Bound(sent, 28)
    && Bound(sent, 29) + window + 8 <= four <= Bound(sent, 41) && Bound(sent, 29) + window + 16 <= Bound(sent, 41)
    && LedIs(dut, Bound(sent, 15), two, 1) && LedIs(dut, two, four, 2) && LedIs(dut, four, end, 4)
    && Moves(dut, sent, window)
  }

  ghost predicate Moves(dut: Dut, sent: seq<Sent>, window: nat)
    requires |sent| == 42
  {
    forall c :: Bound(sent, 28) <= c < Bound(sent, 42) ==> MovedOn(dut(c).progress, dut(c + window).progress)
  }

  /** When the three lines are completed, between which bytes. */
  ghost predicate Completes(dut: Dut, sent: seq<Sent>, m: Marks)
    requires |sent| == 42
  {
    && Bound(sent, 15) <= m.boot < Bound(sent, 16) && Count(dut, m.boot) == 0 && Count(dut, m.boot + 1) == 1
    && Bound(sent, 28) <= m.mark1 < Bound(sent, 29) && Count(dut, m.mark1) == 1 && Count(dut, m.mark1 + 1) == 2
    && Bound(sent, 41) <= m.mark2 < Bound(sent, 42) && Count(dut, m.mark2) == 2 && Count(dut, m.mark2 + 1) == 3
  }

  lemma BoundsApart(sent: seq<Sent>)
    requires |sent| == 42
    ensures Bound(sent, 15) < Bound(sent, 16) && Bound(sent, 16) + 960 <= Bound(sent, 28) < Bound(sent, 29)
    ensures Bound(sent, 29) + 960 <= Bound(sent, 41) < Bound(sent, 42)
  {
    hide Bound, Wave;
    BoundsGrow(sent, 15, 16);
    BoundsGrow(sent, 16, 28);
    BoundsGrow(sent, 28, 29);
    BoundsGrow(sent, 29, 41);
    BoundsGrow(sent, 41, 42);
  }

  lemma MovesLater(dut: Dut, m: Marks)
    requires FirstMove(dut, m.mark1, m.go1) && FirstMove(dut, m.mark2, m.go2)
    ensures m.mark1 <= m.go1 && m.mark2 <= m.go2
  {
  }

  /** The marks of a working design. */
  lemma MarksOf(dut: Dut, sent: seq<Sent>, two: nat, four: nat, window: nat) returns (m: Marks)
    requires Works(dut, sent, two, four, window)
    ensures Completes(dut, sent, m) && m.two == two && m.four == four
    ensures FirstMove(dut, m.mark1, m.go1) && m.go1 <= m.mark1 + window
    ensures FirstMove(dut, m.mark2, m.go2) && m.go2 <= m.mark2 + window
  {
    hide Count, FirstMove, Bound, LedIs, Values, ExpectedText, Transmits, MovedOn;
    var end := Bound(sent, 42) + window + 1;
    BoundsApart(sent);
    forall j: nat | j <= 42
      ensures Count(dut, Bound(sent, j)) == if j < 16 then 0 else if j < 29 then 1 else if j < 42 then 2 else 3
    {
      CountAtBound(dut, sent, end, j);
    }
    var boot := Crossing(dut, Bound(sent, 15), Bound(sent, 16), 1);
    var mark1 := Crossing(dut, Bound(sent, 28), Bound(sent, 29), 2);
    var mark2 := Crossing(dut, Bound(sent, 41), Bound(sent, 42), 3);
    var go1 := FirstMoveWithin(dut, mark1, mark1 + window);
    var go2 := FirstMoveWithin(dut, mark2, mark2 + window);
    m := Marks(boot, two, four, mark1, go1, mark2, go2);
  }

  lemma OrderOf(dut: Dut, sent: seq<Sent>, two: nat, four: nat, window: nat, m: Marks)
    requires Works(dut, sent, two, four, window) && Completes(dut, sent, m) && m.two == two && m.four == four
    requires FirstMove(dut, m.mark1, m.go1) && m.go1 <= m.mark1 + window
    requires FirstMove(dut, m.mark2, m.go2) && m.go2 <= m.mark2 + window
    ensures Order(m.go2 + 1, m) && Lit(dut, m.go2 + 1, m) && Received(dut, m)
    ensures m.go2 + 2 <= Bound(sent, 42) + window + 1
  {
    hide Count, Bound, Values, ExpectedText, Transmits, Moves;
    BoundsApart(sent);
    MovesLater(dut, m);
    hide FirstMove;
    ReceivedAsSent(dut, sent, window, m);
  }

  lemma ReceivedAsSent(dut: Dut, sent: seq<Sent>, window: nat, m: Marks)
    requires |sent| == 42 && Values(sent) == ExpectedText(3) && Completes(dut, sent, m)
    requires Transmits(dut, sent, Bound(sent, 42) + window + 1)
    requires m.mark1 <= m.go1 <= m.mark1 + window && Bound(sent, 29) + window + 16 <= Bound(sent, 41)
    ensures Received(dut, m)
  {
    hide Count, Bound, Values, ExpectedText, Transmits, Text;
    var end := Bound(sent, 42) + window + 1;
    BoundsApart(sent);
    CountAtBound(dut, sent, end, 28);
    CountAtBound(dut, sent, end, 41);
    Steady(dut, m.boot + 1, m.boot + 21, Bound(sent, 28));
    Steady(dut, m.mark1 + 1, m.go1 + 9, Bound(sent, 41));
  }

  lemma Steady(dut: Dut, i: nat, j: nat, n: nat)
    requires i <= j <= n && Count(dut, i) == Count(dut, n)
    ensures Count(dut, j) == Count(dut, i)
  {
    hide Count, Text;
    TextGrows(dut, i, j);
    TextGrows(dut, j, n);
  }

  lemma CleanOf(dut: Dut, sent: seq<Sent>, two: nat, four: nat, window: nat, k: nat, m: Marks)
    requires Works(dut, sent, two, four, window) && Completes(dut, sent, m) && m.mark2 < k
    requires k + 1 <= Bound(sent, 42) + window + 1
    ensures Clean(dut, k + 1) && Text(dut, k + 1) == ExpectedText(3)
  {
    hide Count, Bound, Values, ExpectedText, Transmits, Moves, LedIs, After, Text, LinesOf;
    var end := Bound(sent, 42) + window + 1;
    TextAtEnd(dut, sent, end, end);
    NoEarlierError(dut, k + 1, end);
    TextGrows(dut, k + 1, end);
    TextGrows(dut, m.mark2 + 1, k + 1);
    CountAtMost(Text(dut, k + 1));
    ThreeLines(dut, k + 1, m.mark2 + 1);
  }

  lemma ThreeLines(dut: Dut, i: nat, j: nat)
    requires Count(dut, j) == 3 && Count(dut, j) <= Count(dut, i)
    ensures LinesOf(Text(dut, i)).count >= 3
  {
    hide LinesOf, Text;
  }

  /** Every working design keeps the schedule and is passed, soon after its last byte. */
  lemma WorkingDesignPasses(dut: Dut, sent: seq<Sent>, two: nat, four: nat, window: nat) returns (k: nat)
    requires Works(dut, sent, two, four, window)
    ensures PassesAt(dut, k) && k <= Bound(sent, 42) + window
  {
    hide Count, Bound, FirstMove, Completes, Order, Lit, Received, Clean, Text, ExpectedText, Works, PassesAt, Codes;
    ExpectedLines();
    var m := MarksOf(dut, sent, two, four, window);
    k := m.go2 + 1;
    OrderOf(dut, sent, two, four, window, m);
    MovesLater(dut, m);
    CleanOf(dut, sent, two, four, window, k, m);
    ScheduleSuffices(dut, k, m);
  }

  /** The testbench accepts every working design that is done before its deadline. */
  method WorkingDesignIsAccepted(dut: Dut, sent: seq<Sent>, two: nat, four: nat, window: nat) returns (code: int)
    requires Works(dut, sent, two, four, window) && Bound(sent, 42) + window < 100000
    ensures code == 0
  {
    hide Works, Bound, PassesAt;
    var k := WorkingDesignPasses(dut, sent, two, four, window);
    var driven;
    code, driven := PlayScenario(dut);
  }

  // ----- two designs

  /** The three lines, one byte right after the other. */
  function ThreeLinesSent(): seq<Sent> {
    seq(42, i requires 0 <= i < 42 => Sent(0, if 0 <= ExpectedCode(i) < 256 then ExpectedCode(i) as byte else 0))
  }

  function ExpectedCode(i: nat): int { if i < |ExpectedText(3)| then ExpectedText(3)[i] else 0 }

  lemma CodesAreBytes(s: string)
    requires forall c <- s :: c as int < 256
    ensures forall i :: 0 <= i < |s| ==> 0 <= Codes(s)[i] < 256
  {
    forall i | 0 <= i < |s|
      ensures 0 <= Codes(s)[i] < 256
    {
      assert s[i] in s;
    }
  }

  lemma ExpectedAreBytes(i: nat)
    requires i < 42
    ensures |ExpectedText(3)| == 42 && 0 <= ExpectedText(3)[i] < 256
  {
    hide ExpectedText;
    ExpectedPart(0);
    CodesAreBytes("rv32i soc ready\n");
    CodesAreBytes("external irq\n");
    ExpectedInParts(i);
  }

  lemma ExpectedInParts(i: nat)
    requires i < 42
    ensures |ExpectedText(3)| == 42
    ensures ExpectedText(3)[i]
         == if i < 16 then Codes("rv32i soc ready\n")[i]
            else if i < 29 then Codes("external irq\n")[i - 16] else Codes("external irq\n")[i - 29]
  {
    hide Codes;
    ExpectedPart(0);
    var a, b := Codes("rv32i soc ready\n"), Codes("external irq\n");
    assert ExpectedText(1) == a;
    assert ExpectedText(2) == a + b;
    assert ExpectedText(3) == a + b + b;
  }

  lemma ThreeLinesValues()
    ensures Values(ThreeLinesSent()) == ExpectedText(3)
  {
    hide ExpectedText;
    ExpectedPart(0);
    forall i | 0 <= i < 42
      ensures ThreeLinesSent()[i].value == ExpectedText(3)[i]
    {
      ExpectedAreBytes(i);
    }
    assert Values(ThreeLinesSent()) == ExpectedText(3);
  }

  lemma {:induction false} ThreeLinesBound(j: nat)
    requires j <= 42
    ensures Bound(ThreeLinesSent(), j) == 80 * j
    decreases j
  {
    hide ExpectedCode, Wave;
    if j > 0 {
      ThreeLinesBound(j - 1);
      BoundStep(ThreeLinesSent(), j - 1);
    } else {
      assert ThreeLinesSent()[..0] == [];
      NoWave();
    }
  }

  lemma NoWave()
    ensures Wave([], 8) == []
  {
  }

  /** Sends the three lines from reset on, lights its LED in time, and shows this progress. */
  function Design(progress: nat -> word): Dut {
    var wave := Wave(ThreeLinesSent(), 8);
    (j: nat) =>
      Cycle(false, false, if j < |wave| then wave[j] else true,
            if j < 1400 then 1 else if j < 2500 then 2 else 4, progress(j))
  }

  lemma DesignTransmits(progress: nat -> word, end: nat)
    requires end >= 3360
    ensures Transmits(Design(progress), ThreeLinesSent(), end)
  {
    hide ThreeLinesSent, Wave;
    SentLength();
    ThreeLinesBound(42);
    var sent := ThreeLinesSent();
    assert sent[..42] == sent;
    assert Levels(Design(progress), 3360) == Wave(sent, 8);
  }

  lemma SentLength()
    ensures |ThreeLinesSent()| == 42
  {
  }

  lemma DesignWorks(progress: nat -> word, window: nat)
    requires window <= 155
    requires forall c: nat :: 2240 <= c < 3360 ==> MovedOn(progress(c), progress(c + window))
    ensures Works(Design(progress), ThreeLinesSent(), 1400, 2500, window)
    ensures Bound(ThreeLinesSent(), 42) == 3360
  {
    hide ThreeLinesSent, Wave, Bound, Transmits, MovedOn, Values, ExpectedText;
    SentLength();
    ThreeLinesValues();
    ThreeLinesBound(15);
    ThreeLinesBound(16);
    ThreeLinesBound(28);
    ThreeLinesBound(29);
    ThreeLinesBound(41);
    ThreeLinesBound(42);
    DesignTransmits(progress, 3361 + window);
  }

  /** A counter that counts cycles: the testbench accepts the design, and progress did move on. */
  lemma MovingDesignPasses() returns (dut: Dut, k: nat, m: Marks)
    ensures PassesAt(dut, k) && k < 100000 && Demonstrated(dut, k, m)
    ensures dut(m.go1).progress > dut(m.mark1).progress + 8 && dut(m.go2).progress > dut(m.mark2).progress + 8
  {
    hide Works, Design, PassesAt, Demonstrated, Bound;
    var progress := (c: nat) => c % 0x1_0000 as word;
    forall c: nat | 2240 <= c < 3360
      ensures MovedOn(progress(c), progress(c + 9))
    {
      SmallResidue(c, 0x1_0000);
      SmallResidue(c + 9, 0x1_0000);
      SmallResidue(c + 8, WORD);
    }
    DesignWorks(progress, 9);
    dut := Design(progress);
    k := WorkingDesignPasses(dut, ThreeLinesSent(), 1400, 2500, 9);
    m := SuccessIsDemonstrated(dut, k);
    ProgressOfRun(dut, k, m);
    assert forall j: nat :: dut(j).progress < WORD - 8 by {
      ProgressShown(progress);
    }
  }

  lemma ProgressShown(progress: nat -> word)
    ensures forall j: nat :: Design(progress)(j).progress == progress(j)
  {
    hide Wave, ThreeLinesSent;
  }

  /** A counter that stands still at 2^32 - 1: the testbench accepts this design, too. */
  lemma StandingDesignPasses() returns (dut: Dut, k: nat)
    ensures PassesAt(dut, k) && k < 100000
    ensures forall i: nat, j: nat :: dut(i).progress == dut(j).progress
  {
    hide Works, Design, PassesAt, Bound;
    var progress := (c: nat) => 0xFFFF_FFFF as word;
    assert MovedOn(0xFFFF_FFFF, 0xFFFF_FFFF) by {
      DivModUnique(0xFFFF_FFFF + 8, WORD, 1, 7);
    }
    DesignWorks(progress, 0);
    dut := Design(progress);
    k := WorkingDesignPasses(dut, ThreeLinesSent(), 1400, 2500, 0);
    ProgressShown(progress);
  }
}
