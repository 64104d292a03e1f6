/**
  The RTL side of a lockstep run: the retirement loop and trace writer of sim/cpu_tb.cpp, and
  `parse_rtl_trace` and `compare_traces` of tools/lockstep.py.
 */
module RtlTrace {
  import opened Options
  import opened Bits
  import opened Rv32i
  import opened Retirement
  import Hex
  import Lines

  // ----- the retirement loop

  datatype Mode = Tohost | SelfLoop | Snapshot

  /** What the simulated core shows after one clock cycle. */
  datatype Tick = Tick(valid: bool, record: Record, tohostValid: bool, tohostData: word)

  type Dut = nat -> Tick

  /** The records retired in the first `k` cycles. */
  function Retired(dut: Dut, k: nat): seq<Record> {
    if k == 0 then [] else Retired(dut, k - 1) + if dut(k - 1).valid then [dut(k - 1).record] else []
  }

  /**
    The loop over the clock cycles.  It stops after the first cycle that retires the self-loop, or signals
    completion, and at the limit otherwise; a snapshot runs exactly as many cycles as requested.
   */
  method RetirementLoop(dut: Dut, mode: Mode, cycles: nat)
    returns (log: seq<Record>, terminal: bool, ran: nat, code: word)
    ensures log == Retired(dut, ran)
    ensures mode == Snapshot ==> !terminal && ran == cycles
    ensures mode == SelfLoop ==>
      (terminal <==> exists k: nat :: k < 50 * cycles + 1000 && dut(k).valid && dut(k).record.insn == 0x0000_006F)
    ensures mode == SelfLoop && terminal ==>
      ran > 0 && dut(ran - 1).valid && dut(ran - 1).record.insn == 0x0000_006F
      && forall k: nat :: k < ran - 1 ==> !(dut(k).valid && dut(k).record.insn == 0x0000_006F)
    ensures mode == Tohost ==> (terminal <==> exists k: nat :: k < 50 * cycles + 1000 && dut(k).tohostValid)
    ensures mode == Tohost && terminal ==>
      ran > 0 && dut(ran - 1).tohostValid && code == dut(ran - 1).tohostData
      && forall k: nat :: k < ran - 1 ==> !dut(k).tohostValid
    ensures mode != Snapshot && !terminal ==> ran == 50 * cycles + 1000
  {
    log, terminal, ran, code := [], false, 0, 0;
    var limit := if mode == Snapshot then cycles else cycles * 50 + 1000;
    while ran < limit
      invariant ran <= limit && log == Retired(dut, ran) && !terminal
      invariant mode == SelfLoop ==>
        forall k: nat :: k < ran ==> !(dut(k).valid && dut(k).record.insn == 0x0000_006F)
      invariant mode == Tohost ==> forall k: nat :: k < ran ==> !dut(k).tohostValid
    {
      var t := dut(ran);
      if t.valid {
        log := log + [t.record];
        if mode == SelfLoop && t.record.insn == TERMINAL_INSN {
          terminal, ran := true, ran + 1;
          break;
        }
      }
      if mode == Tohost && t.tohostValid {
        terminal, code, ran := true, t.tohostData, ran + 1;
        break;
      }
      ran := ran + 1;
    }
  }

  /** How many of the first `k` cycles retire an instruction. */
  ghost function Retirements(dut: Dut, k: nat): nat { |set j: nat | j < k && dut(j).valid| }

  /** Each retirement is logged, in the place of its cycle among those that retire. */
  lemma {:induction false} RetiredInOrder(dut: Dut, i: nat, k: nat)
    requires i < k && dut(i).valid
    ensures |Retired(dut, k)| == Retirements(dut, k)
    ensures Retirements(dut, i) < |Retired(dut, k)| && Retired(dut, k)[Retirements(dut, i)] == dut(i).record
    decreases k
  {
    RetiredCount(dut, i);
    RetiredCount(dut, k);
    if i < k - 1 {
      RetiredInOrder(dut, i, k - 1);
    }
  }

  lemma {:induction false} RetiredCount(dut: Dut, k: nat)
    ensures |Retired(dut, k)| == Retirements(dut, k)
  {
    if k > 0 {
      RetiredCount(dut, k - 1);
      var before, now := set j: nat | j < k - 1 && dut(j).valid, set j: nat | j < k && dut(j).valid;
      assert now == if dut(k - 1).valid then before + {k - 1} else before;
    } else {
      assert (set j: nat | j < k && dut(j).valid) == {};
    }
  }

  // ----- the writer

  /** Decimal, without leading zeros. */
  function Decimal(n: nat): string {
    if n < 10 then [Hex.DIGITS[n]] else Decimal(n / 10) + [Hex.DIGITS[n % 10]]
  }

  predicate Words(r: Record) { 0 <= r.pc < WORD && 0 <= r.insn < WORD && 0 <= r.rd < WORD && 0 <= r.wdata < WORD }

  function PrintRecord(r: Record): string
    requires Words(r)
  {
    Hex.Print(r.pc, 8) + " " + Hex.Print(r.insn, 8) + " " + Decimal(r.rd) + " " + Hex.Print(r.wdata, 8)
  }

  function PrintedLines(log: seq<Record>): seq<string>
    requires forall r <- log :: Words(r)
  {
    seq(|log|, i requires 0 <= i < |log| => PrintRecord(log[i]))
  }

  function PrintTrace(log: seq<Record>): string
    requires forall r <- log :: Words(r)
  {
    Lines.Joined(PrintedLines(log))
  }

  // ----- the reader

  /** `0|[1-9]|[12][0-9]|3[01]` */
  function RegisterNumber(s: string): Option<int> {
    if |s| == 1 && '0' <= s[0] <= '9' then Some(s[0] as int - '0' as int)
    else if |s| == 2 && '1' <= s[0] <= '2' && '0' <= s[1] <= '9' then
      Some(10 * (s[0] as int - '0' as int) + (s[1] as int - '0' as int))
    else if |s| == 2 && s[0] == '3' && '0' <= s[1] <= '1' then Some(30 + (s[1] as int - '0' as int))
    else None
  }

  /** RTL_RECORD: eight digits, eight digits, register number, eight digits, one space between. */
  function MatchRecord(line: string): Option<Record> {
    if |line| != 28 && |line| != 29 then None
    else
      var k := |line| - 9;
      var pc, insn := Hex.Parse(line[..8]), Hex.Parse(line[9..17]);
      var rd, wdata := RegisterNumber(line[18..k]), Hex.Parse(line[k + 1..]);
      if line[8] == ' ' && line[17] == ' ' && line[k] == ' ' && pc.Some? && insn.Some? && rd.Some? && wdata.Some? then
        Some(Record(pc.value, insn.value, rd.value, if rd.value != 0 then wdata.value else 0))
      else None
  }

  function TextLines(text: string): seq<string> {
    var t := Lines.Split(text);
    t.lines + if t.rest == "" then [] else [t.rest]
  }

  function MatchAll(lines: seq<string>): Option<seq<Record>> {
    if lines == [] then Some([])
    else
      var before, r := MatchAll(lines[..|lines| - 1]), MatchRecord(lines[|lines| - 1]);
      if before.Some? && r.Some? then Some(before.value + [r.value]) else None
  }

  /** The self-loop appears exactly once, at the end. */
  predicate EndsOnce(trace: seq<Record>) {
    && trace != []
    && trace[|trace| - 1].insn == 0x0000_006F
    && forall i :: 0 <= i < |trace| - 1 ==> trace[i].insn != 0x0000_006F
  }

  /** What `parse_rtl_trace` returns; `None` when it raises. */
  function ParsedTrace(file: Option<string>): Option<seq<Record>> {
    if file.None? then None
    else
      var trace := MatchAll(TextLines(file.value));
      if trace.Some? && EndsOnce(trace.value) then trace else None
  }

  lemma {:induction false} MatchAllFails(lines: seq<string>, i: nat)
    requires i < |lines| && MatchRecord(lines[i]).None?
    ensures MatchAll(lines).None?
    decreases |lines|
  {
    hide MatchRecord;
    if i < |lines| - 1 {
      MatchAllFails(lines[..|lines| - 1], i);
    }
  }

  lemma {:induction false} MatchAllLength(lines: seq<string>)
    requires MatchAll(lines).Some?
    ensures |MatchAll(lines).value| == |lines|
  {
    hide MatchRecord;
    if lines != [] {
      MatchAllLength(lines[..|lines| - 1]);
    }
  }

  method ParseRtlTrace(file: Option<string>) returns (r: Option<seq<Record>>)
    ensures r == ParsedTrace(file)
  {
    hide MatchRecord, TextLines;
    if file.None? {
      return None;
    }
    var lines := TextLines(file.value);
    if lines == [] {
      return None;
    }
    var trace: seq<Record> := [];
    for k := 0 to |lines|
      invariant MatchAll(lines[..k]) == Some(trace)
    {
      var matched := MatchRecord(lines[k]);
      assert lines[..k + 1][..k] == lines[..k];
      if matched.None? {
        MatchAllFails(lines, k);
        return None;
      }
      trace := trace + [matched.value];
    }
    assert lines[..|lines|] == lines;
    MatchAllLength(lines);
    if trace[|trace| - 1].insn != TERMINAL_INSN {
      return None;
    }
    if exists i :: 0 <= i < |trace| - 1 && trace[i].insn == TERMINAL_INSN {
      return None;
    }
    r := Some(trace);
  }

  // ----- writer and reader agree

  /** A write to x0 is reported without its value. */
  function Normalised(r: Record): Record { if r.rd == 0 then r.(wdata := 0) else r }

  lemma {:induction false} DecimalShape(n: nat)
    ensures |Decimal(n)| >= 1
    ensures n >= 100 ==> |Decimal(n)| >= 3
    ensures 10 <= n < 100 ==> |Decimal(n)| == 2
    ensures n < 10 ==> |Decimal(n)| == 1
    ensures forall i :: 0 <= i < |Decimal(n)| ==> Decimal(n)[i] in Hex.DIGITS
  {
    if n >= 10 {
      DecimalShape(n / 10);
    }
  }

  lemma DigitIs(d: nat)
    requires d < 10
    ensures '0' <= Hex.DIGITS[d] <= '9' && Hex.DIGITS[d] as int - '0' as int == d
  {
  }

  lemma TwoDigits(tens: char, ones: char, t: nat, d: nat)
    requires 1 <= t < 10 && d < 10 && '0' <= tens <= '9' && '0' <= ones <= '9'
    requires tens as int - '0' as int == t && ones as int - '0' as int == d
    ensures RegisterNumber([tens, ones]) == if 10 * t + d <= 31 then Some(10 * t + d) else None
  {
  }

  lemma OneDigit(c: char, d: nat)
    requires d < 10 && '0' <= c <= '9' && c as int - '0' as int == d
    ensures RegisterNumber([c]) == Some(d)
  {
  }

  lemma RegisterNumberOf(n: nat)
    requires n < 100
    ensures RegisterNumber(Decimal(n)) == if n <= 31 then Some(n) else None
  {
    hide RegisterNumber;
    DigitIs(n % 10);
    if n >= 10 {
      DigitIs(n / 10);
      assert Decimal(n) == [Hex.DIGITS[n / 10]] + [Hex.DIGITS[n % 10]] == [Hex.DIGITS[n / 10], Hex.DIGITS[n % 10]];
      TwoDigits(Hex.DIGITS[n / 10], Hex.DIGITS[n % 10], n / 10, n % 10);
    } else {
      OneDigit(Hex.DIGITS[n], n);
    }
  }

  /** The fields of a printed line. */
  lemma FieldsOf(pc: string, insn: string, rd: string, wdata: string)
    requires |pc| == 8 && |insn| == 8 && |wdata| == 8
    ensures var line := pc + " " + insn + " " + rd + " " + wdata;
      var k := 18 + |rd|;
      && |line| == 27 + |rd| && line[..8] == pc && line[9..17] == insn && line[18..k] == rd && line[k + 1..] == wdata
      && line[8] == ' ' && line[17] == ' ' && line[k] == ' '
  {
  }

  /** A printed record is accepted if and only if its register number is below 32. */
  lemma RecordRoundTrip(r: Record)
    requires Words(r)
    ensures MatchRecord(PrintRecord(r)) == if r.rd <= 31 then Some(Normalised(r)) else None
  {
    hide Hex.Print, Hex.Parse, Decimal, RegisterNumber;
    Hex.WordRoundTrip(r.pc);
    Hex.WordRoundTrip(r.insn);
    Hex.WordRoundTrip(r.wdata);
    FieldsOf(Hex.Print(r.pc, 8), Hex.Print(r.insn, 8), Decimal(r.rd), Hex.Print(r.wdata, 8));
    DecimalShape(r.rd);
    if r.rd < 100 {
      RegisterNumberOf(r.rd);
    }
  }

  lemma RegisterNumberIsDecimal(s: string)
    requires RegisterNumber(s).Some?
    ensures 0 <= RegisterNumber(s).value <= 31 && Decimal(RegisterNumber(s).value) == s
  {
    var v := RegisterNumber(s).value;
    if |s| == 1 {
      assert Hex.DIGITS[v] == s[0];
    } else {
      assert v / 10 == s[0] as int - '0' as int && v % 10 == s[1] as int - '0' as int;
      assert Hex.DIGITS[v / 10] == s[0] && Hex.DIGITS[v % 10] == s[1];
      assert Decimal(v) == [Hex.DIGITS[v / 10]] + [Hex.DIGITS[v % 10]] == s;
    }
  }

  lemma LineOfFields(line: string, k: nat)
    requires |line| == k + 9 && 18 <= k && line[8] == ' ' && line[17] == ' ' && line[k] == ' '
    ensures line == line[..8] + " " + line[9..17] + " " + line[18..k] + " " + line[k + 1..]
  {
  }

  /** Every accepted line is the print of a record, so nothing but printed records is accepted. */
  lemma AcceptedIsPrinted(line: string) returns (r: Record)
    requires MatchRecord(line).Some?
    ensures Words(r) && r.rd <= 31 && PrintRecord(r) == line && MatchRecord(line) == Some(Normalised(r))
  {
    hide Hex.Print, Hex.Parse, Decimal, RegisterNumber;
    var k := |line| - 9;
    LineOfFields(line, k);
    Hex.ParsedWord(line[..8]);
    Hex.ParsedWord(line[9..17]);
    Hex.ParsedWord(line[k + 1..]);
    RegisterNumberIsDecimal(line[18..k]);
    r := Record(Hex.Parse(line[..8]).value, Hex.Parse(line[9..17]).value, RegisterNumber(line[18..k]).value,
                Hex.Parse(line[k + 1..]).value);
  }

  lemma NoNewline(r: Record)
    requires Words(r)
    ensures Lines.IsLine(PrintRecord(r))
  {
    hide Hex.Print, Decimal;
    var parts := [Hex.Print(r.pc, 8), " ", Hex.Print(r.insn, 8), " ", Decimal(r.rd), " ", Hex.Print(r.wdata, 8)];
    Hex.PrintedIsLine(r.pc);
    Hex.PrintedIsLine(r.insn);
    Hex.PrintedIsLine(r.wdata);
    DecimalShape(r.rd);
  }

  lemma TraceLines(log: seq<Record>)
    requires forall r <- log :: Words(r)
    ensures Lines.Split(PrintTrace(log)) == Lines.Text(PrintedLines(log), "")
  {
    hide Lines.Split, PrintRecord, Words;
    forall k | 0 <= k < |log|
      ensures Lines.IsLine(PrintedLines(log)[k])
    {
      NoNewline(log[k]);
    }
    Lines.SplitJoined(PrintedLines(log));
  }

  function AllNormalised(log: seq<Record>): seq<Record> {
    seq(|log|, i requires 0 <= i < |log| => Normalised(log[i]))
  }

  predicate RegistersFit(log: seq<Record>) { forall r <- log :: r.rd <= 31 }

  lemma {:induction false} MatchPrinted(log: seq<Record>)
    requires forall r <- log :: Words(r)
    ensures MatchAll(PrintedLines(log)) == if RegistersFit(log) then Some(AllNormalised(log)) else None
  {
    hide MatchRecord, PrintRecord, Words, Normalised;
    if log != [] {
      var n := |log| - 1;
      MatchPrinted(log[..n]);
      RecordRoundTrip(log[n]);
      assert PrintedLines(log)[..n] == PrintedLines(log[..n]);
      assert AllNormalised(log) == AllNormalised(log[..n]) + [Normalised(log[n])];
      assert RegistersFit(log) <==> RegistersFit(log[..n]) && log[n].rd <= 31 by {
        assert log == log[..n] + [log[n]];
      }
    }
  }

  /**
    A written trace reads back as the logged records, writes to x0 normalised, if and only if every
    register number is below 32 and the self-loop occurs exactly once, at the end; otherwise the
    reader raises.
   */
  lemma TraceRoundTrip(log: seq<Record>)
    requires forall r <- log :: Words(r)
    ensures ParsedTrace(Some(PrintTrace(log)))
         == if RegistersFit(log) && EndsOnce(log) then Some(AllNormalised(log)) else None
  {
    hide MatchRecord, PrintRecord, Words, Lines.Split, PrintTrace;
    TraceLines(log);
    MatchPrinted(log);
    assert PrintedLines(log) + [] == PrintedLines(log);
    forall i | 0 <= i < |log|
      ensures AllNormalised(log)[i].insn == log[i].insn
    {
    }
  }

  lemma {:induction false} MatchedArePrinted(lines: seq<string>) returns (log: seq<Record>)
    requires MatchAll(lines).Some?
    ensures (forall r <- log :: Words(r)) && RegistersFit(log)
    ensures PrintedLines(log) == lines && MatchAll(lines) == Some(AllNormalised(log))
    decreases |lines|
  {
    hide MatchRecord, PrintRecord, Words, Normalised;
    if lines == [] {
      log := [];
      assert AllNormalised(log) == [];
    } else {
      var n := |lines| - 1;
      var before := MatchedArePrinted(lines[..n]);
      var r := AcceptedIsPrinted(lines[n]);
      log := before + [r];
      assert log[..|before|] == before;
      assert PrintedLines(log) == PrintedLines(before) + [PrintRecord(r)];
      assert AllNormalised(log) == AllNormalised(before) + [Normalised(r)];
    }
  }

  /** Every accepted file is a written trace, line by line, that ends in its only self-loop. */
  lemma AcceptedIsWritten(text: string) returns (log: seq<Record>)
    requires ParsedTrace(Some(text)).Some?
    ensures (forall r <- log :: Words(r)) && RegistersFit(log) && EndsOnce(log)
    ensures TextLines(text) == PrintedLines(log) && ParsedTrace(Some(text)) == Some(AllNormalised(log))
  {
    hide MatchAll, Words, RegistersFit, TextLines, PrintedLines;
    log := MatchedArePrinted(TextLines(text));
    forall i | 0 <= i < |log|
      ensures AllNormalised(log)[i].insn == log[i].insn
    {
    }
  }

  // ----- the writer's log

  lemma {:induction false} RetiredLast(dut: Dut, k: nat)
    requires forall j: nat :: j < k ==> !(dut(j).valid && dut(j).record.insn == 0x0000_006F)
    ensures forall i :: 0 <= i < |Retired(dut, k)| ==> Retired(dut, k)[i].insn != 0x0000_006F
  {
    if k > 0 {
      RetiredLast(dut, k - 1);
    }
  }

  /**
    A self-loop run ends terminally if and only if its trace is one the reader accepts, for a core
    whose records have the widths of the RVFI port.
   */
  method SelfLoopRunRoundTrip(dut: Dut, cycles: nat) returns (log: seq<Record>, terminal: bool)
    requires forall k: nat :: Words(dut(k).record) && dut(k).record.rd <= 31
    ensures forall r <- log :: Words(r)
    ensures terminal <==> ParsedTrace(Some(PrintTrace(log))).Some?
    ensures terminal ==> ParsedTrace(Some(PrintTrace(log))) == Some(AllNormalised(log)) && EndsOnce(log)
  {
    hide PrintTrace, ParsedTrace, AllNormalised;
    var ran, code;
    log, terminal, ran, code := RetirementLoop(dut, SelfLoop, cycles);
    RetiredAreWords(dut, ran);
    TraceRoundTrip(log);
    if terminal {
      RetiredLast(dut, ran - 1);
    } else {
      RetiredLast(dut, ran);
    }
  }

  lemma {:induction false} RetiredAreWords(dut: Dut, k: nat)
    requires forall k: nat :: Words(dut(k).record) && dut(k).record.rd <= 31
    ensures forall r <- Retired(dut, k) :: Words(r) && r.rd <= 31
  {
    if k > 0 {
      RetiredAreWords(dut, k - 1);
    }
  }
}
