/**
  sim/soc_tb.cpp, `UartDecoder`: recovers bytes from the level of a serial line sampled once a cycle.
  The clock cycles per bit, 8 in the testbench, are the parameter `divisor`.
 */
module Uart {
  import opened Bits
  import opened Options

  type byte = x: int | 0 <= x < 256

  datatype Phase = Idle | Start | Data | Stop

  datatype Error = NoError | StartWasHigh | StopWasLow

  datatype Decoder = Decoder(phase: Phase, previous: bool, countdown: int, bit: nat, value: int, error: Error)

  const READY := Decoder(Idle, true, 0, 0, 0, NoError)

  /** A sampling instant: the middle of a bit. */
  function Sample(d: Decoder, level: bool, divisor: nat): (Decoder, Option<int>) {
    match d.phase
    case Start =>
      (d.(phase := Data, countdown := divisor, error := if level then StartWasHigh else d.error), None)
    case Data =>
      (d.(value := if level then Or(d.value, Shl(1, d.bit)) % 256 else d.value,
          bit := d.bit + 1, countdown := divisor, phase := if d.bit + 1 == 8 then Stop else Data), None)
    case _ =>
      (d.(phase := Idle, bit := 0, value := 0, error := if level then d.error else StopWasLow), Some(d.value))
  }

  /** One observed level. */
  function Observed(d: Decoder, level: bool, divisor: nat): (Decoder, Option<int>) {
    var (next, out) :=
      if d.phase == Idle then
        (if d.previous && !level then d.(phase := Start, countdown := divisor / 2) else d, None)
      else
        var ticked := d.(countdown := d.countdown - 1);
        if ticked.countdown == 0 then Sample(ticked, level, divisor) else (ticked, None);
    (next.(previous := level), out)
  }

  class UartDecoder {
    const divisor: nat
    var phase: Phase
    var previous: bool
    var countdown: int
    var bit: nat
    var value: int
    var error: Error

    function State(): Decoder
      reads this
    {
      Decoder(phase, previous, countdown, bit, value, error)
    }

    constructor (divisor: nat)
      ensures State() == READY && this.divisor == divisor
    {
      this.divisor := divisor;
      phase, previous, countdown, bit, value, error := Idle, true, 0, 0, 0, NoError;
    }

    method Observe(level: bool) returns (result: Option<int>)
      modifies this
      ensures (State(), result) == Observed(old(State()), level, divisor)
    {
      result := None;
      if phase == Idle {
        if previous && !level {
          phase := Start;
          countdown := divisor / 2;
        }
      } else {
        countdown := countdown - 1;
        if countdown == 0 {
          if phase == Start {
            if level { error := StartWasHigh; }
            phase := Data;
            countdown := divisor;
          } else if phase == Data {
            if level { value := Or(value, Shl(1, bit)) % 256; }
            bit := bit + 1;
            countdown := divisor;
            if bit == 8 { phase := Stop; }
          } else {
            if !level { error := StopWasLow; }
            result := Some(value);
            phase := Idle;
            bit := 0;
            value := 0;
          }
        }
      }
      previous := level;
    }
  }

  // ----- the sender

  function Hold(level: bool, n: nat): seq<bool> { seq(n, _ => level) }

  function DataBits(b: byte, k: nat, divisor: nat): seq<bool>
    requires k <= 8
  {
    if k == 0 then [] else DataBits(b, k - 1, divisor) + Hold(Bit(b, k - 1), divisor)
  }

  /** 8-N-1: a low start bit, eight data bits from the lowest, a high stop bit. */
  function Frame(b: byte, divisor: nat): seq<bool> {
    Hold(false, divisor) + DataBits(b, 8, divisor) + Hold(true, divisor)
  }

  datatype Sent = Sent(gap: nat, value: byte)

  /** Every byte after its own idle time, none at all included. */
  function Wave(sent: seq<Sent>, divisor: nat): seq<bool> {
    if sent == [] then []
    else Wave(sent[..|sent| - 1], divisor) + Hold(true, sent[|sent| - 1].gap) + Frame(sent[|sent| - 1].value, divisor)
  }

  function Values(sent: seq<Sent>): seq<int> { seq(|sent|, i requires 0 <= i < |sent| => sent[i].value) }

  // ----- runs

  function After(d: Decoder, levels: seq<bool>, divisor: nat): Decoder {
    if levels == [] then d else Observed(After(d, levels[..|levels| - 1], divisor), levels[|levels| - 1], divisor).0
  }

  function Output(d: Decoder, levels: seq<bool>, divisor: nat): seq<int> {
    if levels == [] then []
    else
      var n := |levels| - 1;
      Output(d, levels[..n], divisor)
      + match Observed(After(d, levels[..n], divisor), levels[n], divisor).1 case None => [] case Some(v) => [v]
  }

  method Decode(levels: seq<bool>, divisor: nat) returns (bytes: seq<int>, error: Error)
    ensures bytes == Output(READY, levels, divisor)
    ensures error == After(READY, levels, divisor).error
  {
    var decoder := new UartDecoder(divisor);
    bytes := [];
    for i := 0 to |levels|
      invariant fresh(decoder) && decoder.divisor == divisor
      invariant decoder.State() == After(READY, levels[..i], divisor)
      invariant bytes == Output(READY, levels[..i], divisor)
    {
      assert levels[..i + 1][..i] == levels[..i];
      var result := decoder.Observe(levels[i]);
      if result.Some? {
        bytes := bytes + [result.value];
      }
    }
    assert levels[..|levels|] == levels;
    error := decoder.error;
  }

  /** `d` turns into `e` over `levels`, emitting `out`. */
  ghost predicate Turns(d: Decoder, levels: seq<bool>, divisor: nat, e: Decoder, out: seq<int>) {
    After(d, levels, divisor) == e && Output(d, levels, divisor) == out
  }

  lemma TurnsOnce(d: Decoder, levels: seq<bool>, level: bool, divisor: nat, e: Decoder, out: seq<int>)
    requires Turns(d, levels, divisor, e, out)
    ensures var (f, o) := Observed(e, level, divisor);
      Turns(d, levels + [level], divisor, f, out + match o case None => [] case Some(v) => [v])
  {
    assert (levels + [level])[..|levels|] == levels;
  }

  lemma {:induction false} TurnsThen(d: Decoder, a: seq<bool>, b: seq<bool>, divisor: nat, e: Decoder, f: Decoder,
                                     out: seq<int>, out': seq<int>)
    requires Turns(d, a, divisor, e, out) && Turns(e, b, divisor, f, out')
    ensures Turns(d, a + b, divisor, f, out + out')
    decreases |b|
  {
    hide Observed;
    if b == [] {
      assert a + b == a && out + out' == out;
    } else {
      var n := |b| - 1;
      TurnsThen(d, a, b[..n], divisor, e, After(e, b[..n], divisor), out, Output(e, b[..n], divisor));
      assert (a + b)[..|a + b| - 1] == a + b[..n];
    }
  }

  lemma HoldStep(level: bool, n: nat)
    ensures Hold(level, n + 1) == Hold(level, n) + [level] && Hold(level, 0) == []
  {
  }

  /** Between samples only the countdown moves. */
  lemma {:induction false} Waits(d: Decoder, level: bool, n: nat, divisor: nat)
    requires d.phase != Idle && d.countdown > n
    ensures Turns(d, Hold(level, n), divisor,
                  d.(countdown := d.countdown - n, previous := if n == 0 then d.previous else level), [])
  {
    if n > 0 {
      Waits(d, level, n - 1, divisor);
      HoldStep(level, n - 1);
      TurnsOnce(d, Hold(level, n - 1), level, divisor, After(d, Hold(level, n - 1), divisor), []);
    } else {
      assert Hold(level, 0) == [];
    }
  }

  lemma {:induction false} Idles(d: Decoder, n: nat, divisor: nat)
    requires d.phase == Idle && d.previous
    ensures Turns(d, Hold(true, n), divisor, d, [])
  {
    if n > 0 {
      Idles(d, n - 1, divisor);
      HoldStep(true, n - 1);
      TurnsOnce(d, Hold(true, n - 1), true, divisor, d, []);
    } else {
      assert Hold(true, 0) == [];
    }
  }

  /** Waiting for a sample, the sample, and waiting again. */
  lemma SampleBetween(d: Decoder, level: bool, before: nat, divisor: nat) returns (e: Decoder, out: seq<int>)
    requires d.phase != Idle && d.countdown == before + 1
    ensures var (f, o) := Sample(d.(countdown := 0, previous := if before == 0 then d.previous else level), level, divisor);
      e == f.(previous := level) && out == match o case None => [] case Some(v) => [v]
    ensures Turns(d, Hold(level, before + 1), divisor, e, out)
  {
    hide Turns, Hold, Sample;
    Waits(d, level, before, divisor);
    var middle := d.(countdown := 1, previous := if before == 0 then d.previous else level);
    TurnsOnce(d, Hold(level, before), level, divisor, middle, []);
    HoldStep(level, before);
    var (f, o) := Observed(middle, level, divisor);
    e := f;
    out := match o case None => [] case Some(v) => [v];
    assert [] + out == out;
  }

  lemma NothingTwice()
    ensures var none: seq<int> := []; none + none == none
  {
  }

  lemma HoldSplits(level: bool, m: nat, n: nat)
    ensures Hold(level, m + n) == Hold(level, m) + Hold(level, n)
  {
  }

  /** A decoder about to receive data bit `k` (or the stop bit), `half` cycles into the bit before. */
  function Receiving(k: nat, previous: bool, half: nat, value: int): Decoder {
    Decoder(if k == 8 then Stop else Data, previous, half + 1, k, value, NoError)
  }

  lemma DataBit(k: nat, previous: bool, half: nat, value: int, level: bool, divisor: nat)
    requires k < 8 && half < divisor
    ensures Turns(Receiving(k, previous, half, value), Hold(level, divisor), divisor,
                  Receiving(k + 1, level, half, if level then Or(value, Shl(1, k)) % 256 else value), [])
  {
    hide Or, Shl, Turns, Hold;
    var d := Receiving(k, previous, half, value);
    var e, out := SampleBetween(d, level, half, divisor);
    Waits(e, level, divisor - 1 - half, divisor);
    var f := Receiving(k + 1, level, half, if level then Or(value, Shl(1, k)) % 256 else value);
    assert e.(countdown := e.countdown - (divisor - 1 - half), previous := level) == f;
    TurnsThen(d, Hold(level, half + 1), Hold(level, divisor - 1 - half), divisor, e, f, [], []);
    HoldSplits(level, half + 1, divisor - 1 - half);
    NothingTwice();
  }

  lemma StartEdge(divisor: nat)
    ensures Turns(READY, Hold(false, 1), divisor, Decoder(Start, false, divisor / 2, 0, 0, NoError), [])
  {
    assert Turns(READY, [], divisor, READY, []);
    TurnsOnce(READY, [], false, divisor, READY, []);
    assert [] + [false] == Hold(false, 1);
  }

  lemma StartSample(divisor: nat)
    requires divisor >= 2
    ensures Turns(READY, Hold(false, divisor / 2 + 1), divisor, Decoder(Data, false, divisor, 0, 0, NoError), [])
  {
    var half := divisor / 2;
    StartEdge(divisor);
    hide Turns, Hold, Observed;
    var d := Decoder(Start, false, half, 0, 0, NoError);
    var e, out := SampleBetween(d, false, half - 1, divisor);
    HoldSplits(false, 1, half);
    TurnsThen(READY, Hold(false, 1), Hold(false, half), divisor, d, e, [], out);
    NothingTwice();
  }

  lemma StartBit(divisor: nat)
    requires divisor >= 2
    ensures Turns(READY, Hold(false, divisor), divisor, Receiving(0, false, divisor / 2, 0), [])
  {
    hide Turns, Hold, Observed;
    var half := divisor / 2;
    var e := Decoder(Data, false, divisor, 0, 0, NoError);
    var rest: nat := divisor - 1 - half;
    StartSample(divisor);
    Waits(e, false, rest, divisor);
    HoldSplits(false, half + 1, rest);
    assert e.(countdown := e.countdown - rest, previous := false) == Receiving(0, false, half, 0);
    TurnsThen(READY, Hold(false, half + 1), Hold(false, rest), divisor, e, Receiving(0, false, half, 0), [], []);
    NothingTwice();
  }

  lemma StopBit(previous: bool, half: nat, value: int, divisor: nat)
    requires half < divisor
    ensures Turns(Receiving(8, previous, half, value), Hold(true, divisor), divisor, READY, [value])
  {
    hide Turns, Hold;
    var d := Receiving(8, previous, half, value);
    var e, out := SampleBetween(d, true, half, divisor);
    Idles(READY, divisor - 1 - half, divisor);
    TurnsThen(d, Hold(true, half + 1), Hold(true, divisor - 1 - half), divisor, READY, READY, [value], []);
    HoldSplits(true, half + 1, divisor - 1 - half);
    assert [value] + [] == [value];
  }

  /** Residues grow by one bit. */
  lemma {:induction false} NextResidue(b: nat, k: nat)
    ensures b % Pow2(k + 1) == b % Pow2(k) + if Bit(b, k) then Pow2(k) else 0
    decreases k
  {
    hide Bit;
    BitStep(b, k);
    if k == 0 {
      assert Pow2(1) == 2 && Pow2(0) == 1;
    } else {
      NextResidue(b / 2, k - 1);
      Halve(b, Pow2(k));
      Halve(b, Pow2(k - 1));
    }
  }

  lemma NextBitOfValue(b: byte, k: nat)
    requires k < 8
    ensures b % Pow2(k + 1) == if Bit(b, k) then Or(b % Pow2(k), Shl(1, k)) % 256 else b % Pow2(k)
  {
    hide Bitwise, Bit;
    NextResidue(b, k);
    if Bit(b, k) {
      Disjoint(1, b % Pow2(k), k);
      PowBound(k + 1);
      SmallResidue(b % Pow2(k + 1), 256);
    }
  }

  lemma PowBound(k: nat)
    requires k <= 8
    ensures Pow2(k) <= 256
  {
    Powers();
    Pow2Monotone(k, 8);
  }

  lemma NoBitsYet(b: nat)
    ensures b % Pow2(0) == 0
  {
  }

  lemma {:induction false} DataBitsDecode(b: byte, k: nat, divisor: nat) returns (previous: bool)
    requires k <= 8 && divisor >= 2
    ensures Turns(Receiving(0, false, divisor / 2, 0), DataBits(b, k, divisor), divisor,
                  Receiving(k, previous, divisor / 2, b % Pow2(k)), [])
  {
    hide Bit, Pow2, Or, Shl, Receiving;
    var d := Receiving(0, false, divisor / 2, 0);
    if k == 0 {
      previous := false;
      NoBitsYet(b);
      assert Turns(d, [], divisor, d, []);
    } else {
      hide Turns, Hold;
      var before := DataBitsDecode(b, k - 1, divisor);
      previous := Bit(b, k - 1);
      DataBit(k - 1, before, divisor / 2, b % Pow2(k - 1), previous, divisor);
      NextBitOfValue(b, k - 1);
      TurnsThen(d, DataBits(b, k - 1, divisor), Hold(previous, divisor), divisor,
                Receiving(k - 1, before, divisor / 2, b % Pow2(k - 1)),
                Receiving(k, previous, divisor / 2, b % Pow2(k)), [], []);
      NothingTwice();
    }
  }

  lemma FrameDecodes(b: byte, divisor: nat)
    requires divisor >= 2
    ensures Turns(READY, Frame(b, divisor), divisor, READY, [b])
  {
    hide Turns, Hold, DataBits, Pow2;
    var half := divisor / 2;
    StartBit(divisor);
    var previous := DataBitsDecode(b, 8, divisor);
    Powers();
    SmallResidue(b, 256);
    StopBit(previous, half, b, divisor);
    TurnsThen(READY, Hold(false, divisor), DataBits(b, 8, divisor), divisor, Receiving(0, false, half, 0),
              Receiving(8, previous, half, b), [], []);
    TurnsThen(READY, Hold(false, divisor) + DataBits(b, 8, divisor), Hold(true, divisor), divisor,
              Receiving(8, previous, half, b), READY, [] + [], [b]);
    assert [] + [] + [b] == [b];
  }

  lemma ValuesStep(sent: seq<Sent>)
    requires sent != []
    ensures var n := |sent| - 1; Values(sent) == Values(sent[..n]) + [] + [sent[n].value]
  {
  }

  lemma {:induction false} WaveDecodes(sent: seq<Sent>, divisor: nat)
    requires divisor >= 2
    ensures Turns(READY, Wave(sent, divisor), divisor, READY, Values(sent))
  {
    if sent == [] {
      assert Values(sent) == [];
    } else {
      var n := |sent| - 1;
      ValuesStep(sent);
      hide Turns, Hold, Frame, Values, Bits.Bitwise;
      WaveDecodes(sent[..n], divisor);
      Idles(READY, sent[n].gap, divisor);
      FrameDecodes(sent[n].value, divisor);
      var so := Wave(sent[..n], divisor);
      TurnsThen(READY, so, Hold(true, sent[n].gap), divisor, READY, READY, Values(sent[..n]), []);
      TurnsThen(READY, so + Hold(true, sent[n].gap), Frame(sent[n].value, divisor), divisor, READY, READY,
                Values(sent[..n]) + [], [sent[n].value]);
    }
  }

  // ----- exactly which divisors work

  /** Every sequence of bytes, with any idle times, is decoded without error. */
  ghost predicate DecodesEverything(divisor: nat) {
    forall sent: seq<Sent> ::
      Output(READY, Wave(sent, divisor), divisor) == Values(sent)
      && After(READY, Wave(sent, divisor), divisor).error == NoError
  }

  /** A countdown that starts at zero never comes back to it. */
  lemma {:induction false} NeverSamples(d: Decoder, levels: seq<bool>, divisor: nat)
    requires d.phase == Start && d.countdown <= 0
    ensures Output(d, levels, divisor) == []
    ensures After(d, levels, divisor).phase == Start && After(d, levels, divisor).countdown <= 0
  {
    if levels != [] {
      NeverSamples(d, levels[..|levels| - 1], divisor);
    }
  }

  lemma OneCycleBitsAreLost(b: byte)
    ensures Output(READY, Wave([Sent(0, b)], 1), 1) == []
  {
    var tail := DataBits(b, 8, 1) + Hold(true, 1);
    var wave := Wave([Sent(0, b)], 1);
    assert wave == [false] + tail by {
      var sent := [Sent(0, b)];
      assert sent[..0] == [] && Wave(sent[..0], 1) == [];
      assert Hold(true, 0) == [] && Hold(false, 1) == [false];
      assert wave == [] + [] + ([false] + DataBits(b, 8, 1) + Hold(true, 1));
    }
    assert Turns(READY, [], 1, READY, []);
    TurnsOnce(READY, [], false, 1, READY, []);
    assert [] + [false] == [false];
    NothingTwice();
    var d := Decoder(Start, false, 0, 0, 0, NoError);
    NeverSamples(d, tail, 1);
    TurnsThen(READY, [false], tail, 1, d, After(d, tail, 1), [], []);
  }

  lemma OneByteLost()
    ensures Output(READY, Wave([Sent(0, 0)], 1), 1) != Values([Sent(0, 0)])
  {
    hide Wave, Output;
    OneCycleBitsAreLost(0);
  }

  /** The decoder recovers every transmission if and only if a bit lasts at least two cycles. */
  lemma DecodesIffDivisorIsTwoOrMore(divisor: nat)
    requires divisor >= 1
    ensures DecodesEverything(divisor) <==> divisor >= 2
  {
    hide Wave, Output, After, Values;
    if divisor >= 2 {
      forall sent: seq<Sent>
        ensures Output(READY, Wave(sent, divisor), divisor) == Values(sent)
        ensures After(READY, Wave(sent, divisor), divisor).error == NoError
      {
        WaveDecodes(sent, divisor);
        assert Turns(READY, Wave(sent, divisor), divisor, READY, Values(sent));
      }
    } else {
      OneByteLost();
    }
  }
}
