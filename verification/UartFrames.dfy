/**
  What the decoder of sim/soc_tb.cpp makes of any frame, well-formed or not: only the levels in the
  middle of the ten bits count.
 */
module UartFrames {
  import opened Bits
  import opened Options
  import opened Uart

  /** The number whose bits, from the lowest, are the levels `first`, `first + divisor`, ... of a line. */
  ghost function Sampled(levels: seq<bool>, first: nat, divisor: nat, count: nat): nat {
    if count == 0 then 0
    else
      var at := first + (count - 1) * divisor;
      Sampled(levels, first, divisor, count - 1) + if at < |levels| && levels[at] then Pow2(count - 1) else 0
  }

  /** Between samples only the countdown moves, whatever the line does. */
  lemma {:induction false} WaitsAnyhow(d: Decoder, levels: seq<bool>, divisor: nat)
    requires d.phase != Idle && d.countdown > |levels|
    ensures Turns(d, levels, divisor,
                  d.(countdown := d.countdown - |levels|,
                     previous := if levels == [] then d.previous else levels[|levels| - 1]), [])
    decreases |levels|
  {
    if levels != [] {
      var n := |levels| - 1;
      WaitsAnyhow(d, levels[..n], divisor);
      assert levels == levels[..n] + [levels[n]];
      TurnsOnce(d, levels[..n], levels[n], divisor, After(d, levels[..n], divisor), []);
    }
  }

  lemma SampleOf(d: Decoder, last: bool, divisor: nat) returns (e: Decoder, out: seq<int>)
    requires d.phase != Idle && d.countdown == 1
    ensures (e, out) == (Observed(d, last, divisor).0,
                         match Observed(d, last, divisor).1 case None => [] case Some(v) => [v])
    ensures d.phase != Stop ==> out == []
    ensures d.phase == Start ==> e == Decoder(Data, last, divisor, d.bit, d.value, if last then StartWasHigh else d.error)
    ensures d.phase == Data ==>
      e == Decoder(if d.bit + 1 == 8 then Stop else Data, last, divisor, d.bit + 1,
                   if last then Or(d.value, Shl(1, d.bit)) % 256 else d.value, d.error)
    ensures d.phase == Stop ==> out == [d.value] && e == Decoder(Idle, last, 0, 0, 0, if last then d.error else StopWasLow)
  {
    hide Or, Shl;
    e := Observed(d, last, divisor).0;
    out := match Observed(d, last, divisor).1 case None => [] case Some(v) => [v];
  }

  lemma WaitsForLast(d: Decoder, levels: seq<bool>, divisor: nat) returns (middle: Decoder)
    requires d.phase != Idle && levels != [] && d.countdown == |levels|
    ensures Turns(d, levels[..|levels| - 1], divisor, middle, [])
    ensures middle == d.(countdown := 1, previous := middle.previous)
  {
    hide Turns;
    var front := levels[..|levels| - 1];
    WaitsAnyhow(d, front, divisor);
    middle := d.(countdown := 1, previous := if front == [] then d.previous else front[|front| - 1]);
  }

  lemma FrontAndLast(levels: seq<bool>)
    requires levels != []
    ensures levels == levels[..|levels| - 1] + [levels[|levels| - 1]]
  {
  }

  lemma NothingBefore(out: seq<int>)
    ensures [] + out == out
  {
  }

  /** The last of the levels is sampled. */
  lemma SamplesLast(d: Decoder, levels: seq<bool>, divisor: nat, last: bool) returns (e: Decoder, out: seq<int>)
    requires d.phase != Idle && levels != [] && d.countdown == |levels| && last == levels[|levels| - 1]
    ensures Turns(d, levels, divisor, e, out)
    ensures d.phase != Stop ==> out == []
    ensures d.phase == Start ==> e == Decoder(Data, last, divisor, d.bit, d.value, if last then StartWasHigh else d.error)
    ensures d.phase == Data ==>
      e == Decoder(if d.bit + 1 == 8 then Stop else Data, last, divisor, d.bit + 1,
                   if last then Or(d.value, Shl(1, d.bit)) % 256 else d.value, d.error)
    ensures d.phase == Stop ==> out == [d.value] && e == Decoder(Idle, last, 0, 0, 0, if last then d.error else StopWasLow)
  {
    hide Turns, Or, Shl, Observed;
    var middle := WaitsForLast(d, levels, divisor);
    FrontAndLast(levels);
    TurnsOnce(d, levels[..|levels| - 1], last, divisor, middle, []);
    e, out := SampleOf(middle, last, divisor);
    NothingBefore(out);
  }

  /** The decoder right after the sample of bit `k`, the start bit being number 0. */
  ghost function AfterSample(d: Decoder, levels: seq<bool>, divisor: nat, k: nat): Decoder
    requires k <= 8 && divisor / 2 + k * divisor < |levels|
  {
    Decoder(if k == 8 then Stop else Data, levels[divisor / 2 + k * divisor], divisor, k,
            Sampled(levels, divisor / 2 + divisor, divisor, k), if levels[divisor / 2] then StartWasHigh else d.error)
  }

  lemma StartIsSampled(d: Decoder, levels: seq<bool>, divisor: nat)
    requires divisor >= 2 && divisor / 2 < |levels| && !levels[0]
    requires d.phase == Idle && d.previous && d.bit == 0 == d.value
    ensures Turns(d, levels[..divisor / 2 + 1], divisor, AfterSample(d, levels, divisor, 0), [])
  {
    var half := divisor / 2;
    var e := Decoder(Start, false, half, 0, 0, d.error);
    assert Turns(d, [], divisor, d, []);
    TurnsOnce(d, [], false, divisor, d, []);
    assert [] + [false] == levels[..1];
    hide Turns, Observed;
    var f, out := SamplesLast(e, levels[1..half + 1], divisor, levels[half]);
    TurnsThen(d, levels[..1], levels[1..half + 1], divisor, e, f, [], out);
    assert levels[..1] + levels[1..half + 1] == levels[..half + 1];
    assert Sampled(levels, half + divisor, divisor, 0) == 0;
  }

  lemma NextSampleIs(value: nat, k: nat)
    requires value < Pow2(k) && k < 8
    ensures Or(value, Shl(1, k)) % 256 == value + Pow2(k) < Pow2(k + 1)
  {
    hide Bitwise;
    Bits.Disjoint(1, value, k);
    PowBound(k + 1);
    SmallResidue(value + Pow2(k), 256);
  }

  lemma {:induction false} SampledFits(levels: seq<bool>, first: nat, divisor: nat, count: nat)
    ensures Sampled(levels, first, divisor, count) < Pow2(count)
    decreases count
  {
    if count > 0 {
      SampledFits(levels, first, divisor, count - 1);
    }
  }

  lemma NextInstant(half: nat, divisor: nat, k: nat)
    requires k > 0
    ensures half + k * divisor == half + (k - 1) * divisor + divisor == half + divisor + (k - 1) * divisor
  {
  }

  lemma SamplesAdd(levels: seq<bool>, first: nat, divisor: nat, k: nat)
    requires k > 0 && first + (k - 1) * divisor < |levels|
    ensures Sampled(levels, first, divisor, k)
         == Sampled(levels, first, divisor, k - 1) + if levels[first + (k - 1) * divisor] then Pow2(k - 1) else 0
  {
  }

  lemma InstantsGrow(half: nat, divisor: nat, j: nat, k: nat)
    requires j <= k
    ensures half <= half + j * divisor <= half + k * divisor
  {
  }

  lemma {:induction false} BitsAreSampled(d: Decoder, levels: seq<bool>, divisor: nat, k: nat)
    requires divisor >= 2 && k <= 8 && divisor / 2 + k * divisor < |levels| && !levels[0]
    requires d.phase == Idle && d.previous && d.bit == 0 == d.value
    ensures Turns(d, levels[..divisor / 2 + k * divisor + 1], divisor, AfterSample(d, levels, divisor, k), [])
    decreases k
  {
    hide Turns, Sampled, Or, Shl, Pow2;
    var half := divisor / 2;
    if k == 0 {
      StartIsSampled(d, levels, divisor);
    } else {
      NextInstant(half, divisor, k);
      InstantsGrow(half, divisor, 0, k - 1);
      BitsAreSampled(d, levels, divisor, k - 1);
      var at, next := half + (k - 1) * divisor, half + k * divisor;
      var before := AfterSample(d, levels, divisor, k - 1);
      SampledFits(levels, half + divisor, divisor, k - 1);
      NextSampleIs(before.value, k - 1);
      var e, out := SamplesLast(before, levels[at + 1..next + 1], divisor, levels[next]);
      TurnsThen(d, levels[..at + 1], levels[at + 1..next + 1], divisor, before, e, [], out);
      assert levels[..at + 1] + levels[at + 1..next + 1] == levels[..next + 1];
      SamplesAdd(levels, half + divisor, divisor, k);
      NothingTwice();
    }
  }

  lemma LastBit(levels: seq<bool>, at: nat, divisor: nat) returns (front: seq<bool>, rest: seq<bool>)
    requires |levels| == at + divisor + 1 && divisor > 0
    ensures front == levels[..at + 1] && front + rest == levels
    ensures |rest| == divisor && rest[divisor - 1] == levels[at + divisor]
  {
    front, rest := levels[..at + 1], levels[at + 1..];
  }

  /**
    Ten bits after a falling edge, of any levels: the byte is read off the middles of the eight data
    bits, and the frame is reported as bad exactly if the start bit is high or the stop bit low there.
   */
  lemma FrameIsSampled(d: Decoder, levels: seq<bool>, divisor: nat)
    requires divisor >= 2 && |levels| == divisor / 2 + 9 * divisor + 1 && !levels[0]
    requires d.phase == Idle && d.previous && d.bit == 0 == d.value
    ensures var middle := divisor / 2;
      Turns(d, levels, divisor,
            Decoder(Idle, levels[middle + 9 * divisor], 0, 0, 0,
                    if !levels[middle + 9 * divisor] then StopWasLow
                    else if levels[middle] then StartWasHigh else d.error),
            [Sampled(levels, middle + divisor, divisor, 8)])
  {
    hide Turns, Sampled;
    var half := divisor / 2;
    var at, next := half + 8 * divisor, half + 9 * divisor;
    BitsAreSampled(d, levels, divisor, 8);
    var before := AfterSample(d, levels, divisor, 8);
    var front, rest := LastBit(levels, at, divisor);
    var e, out := SamplesLast(before, rest, divisor, levels[next]);
    TurnsThen(d, front, rest, divisor, before, e, [], out);
    NothingBefore(out);
  }

  /** An error, once reported, is never forgotten. */
  lemma {:induction false} ErrorsStay(d: Decoder, levels: seq<bool>, divisor: nat)
    ensures d.error != NoError ==> After(d, levels, divisor).error != NoError
    decreases |levels|
  {
    if levels != [] {
      ErrorsStay(d, levels[..|levels| - 1], divisor);
    }
  }
}
