/**
  tools/lockstep.py, `SpikeTrace`: an incremental parser of Spike's commit log.

  What a line says is left to an arbitrary recogniser, in the source two regular expressions, so the
  statements hold for every log format in which a line stands for at most one commit.
 */
module SpikeLog {
  import opened Options
  import opened Retirement
  import Lines

  datatype Commit = Commit(pc: int, insn: int, write: Option<(int, int)>)

  type Recogniser = string -> Option<Commit>

  // ----- records

  datatype Parser = Parser(started: bool, complete: bool, records: seq<Record>)

  const INITIAL := Parser(false, false, [])

  predicate WellFormed(c: Commit) {
    c.write.Some? ==> 0 <= c.write.value.0 <= 31 && c.write.value.1 <= 0xFFFF_FFFF
  }

  /** The record of a commit: no register write, or a write to x0, is reported as x0 = 0. */
  function RecordOf(c: Commit): Record {
    if c.write.None? || c.write.value.0 == 0 then Record(c.pc, c.insn, 0, 0)
    else Record(c.pc, c.insn, c.write.value.0, c.write.value.1)
  }

  /** One line of the log; `None` when the parser raises. */
  function OnLine(recognise: Recogniser, p: Parser, line: string): Option<Parser> {
    if p.complete then Some(p)
    else
      match recognise(line)
      case None => Some(p)
      case Some(c) =>
        if !p.started && c.pc != RESET_PC then Some(p)
        else if !WellFormed(c) then None
        else Some(Parser(true, c.insn == TERMINAL_INSN, p.records + [RecordOf(c)]))
  }

  function OnLines(recognise: Recogniser, p: Parser, lines: seq<string>): Option<Parser>
    decreases |lines|
  {
    if lines == [] then Some(p)
    else match OnLine(recognise, p, lines[0])
      case None => None
      case Some(q) => OnLines(recognise, q, lines[1..])
  }

  /** One parse of a whole log. */
  function Parse(recognise: Recogniser, log: string): Option<Parser> {
    OnLines(recognise, INITIAL, Lines.Split(log).lines)
  }

  lemma {:induction false} OnMoreLines(recognise: Recogniser, p: Parser, a: seq<string>, b: seq<string>)
    ensures OnLines(recognise, p, a + b)
         == match OnLines(recognise, p, a) case None => None case Some(q) => OnLines(recognise, q, b)
    decreases |a|
  {
    hide OnLine;
    if a == [] {
      assert a + b == b;
    } else {
      assert (a + b)[0] == a[0] && (a + b)[1..] == a[1..] + b;
      match OnLine(recognise, p, a[0])
      case None =>
      case Some(q) => OnMoreLines(recognise, q, a[1..], b);
    }
  }

  lemma {:induction false} CompleteIsFinal(recognise: Recogniser, p: Parser, lines: seq<string>)
    requires p.complete
    ensures OnLines(recognise, p, lines) == Some(p)
  {
    if lines != [] {
      CompleteIsFinal(recognise, p, lines[1..]);
    }
  }

  class SpikeTrace {
    const recognise: Recogniser
    var offset: nat
    var partial: string
    var started: bool
    var complete: bool
    var records: seq<Record>

    /** The parser has read `log` and nothing it read was malformed. */
    ghost predicate HasRead(log: string)
      reads this
    {
      && offset <= |log|
      && Parse(recognise, log) == Some(Parser(started, complete, records))
      && (!complete ==> offset == |log| && partial == Lines.Split(log).rest)
    }

    constructor (recognise: Recogniser)
      ensures HasRead("") && this.recognise == recognise
      ensures !started && !complete && records == []
    {
      this.recognise := recognise;
      offset, partial, started, complete, records := 0, "", false, false, [];
    }

    /**
      Reads what the log has grown by since the last call.  `log` is the whole file, of which `seen`
      had been read before; whatever the sizes of the reads, the parser ends where one parse of the
      whole file ends.
     */
    method Update(log: string, ghost seen: string) returns (ok: bool)
      requires HasRead(seen) && seen <= log
      modifies this
      ensures ok <==> Parse(recognise, log).Some?
      ensures ok ==> HasRead(log)
      ensures old(complete) ==> ok && complete && records == old(records)
    {
      Lines.SplitInTwoReads(seen, log[|seen|..]);
      assert log == seen + log[|seen|..];
      ghost var before := Lines.Split(seen).lines;
      if complete {
        var now := Parser(started, complete, records);
        var more := Lines.Split(Lines.Split(seen).rest + log[|seen|..]).lines;
        CompleteIsFinal(recognise, now, more);
        OnMoreLines(recognise, INITIAL, before, more);
        return true;
      }
      var chunk := log[offset..];
      offset := |log|;
      var text := Lines.Split(partial + chunk);
      partial := text.rest;
      var lines := text.lines;
      OnMoreLines(recognise, INITIAL, before, lines);
      for k := 0 to |lines|
        invariant offset == |log| && partial == text.rest && !complete
        invariant Parse(recognise, log) == OnLines(recognise, Parser(started, complete, records), lines[k..])
      {
        assert lines[k..][0] == lines[k] && lines[k..][1..] == lines[k + 1..];
        match recognise(lines[k]) {
          case None =>
          case Some(commit) =>
            if !started && commit.pc != RESET_PC {
              continue;
            }
            started := true;
            if !WellFormed(commit) {
              return false;
            }
            records := records + [RecordOf(commit)];
            if commit.insn == TERMINAL_INSN {
              complete := true;
              CompleteIsFinal(recognise, Parser(started, complete, records), lines[k + 1..]);
              return true;
            }
        }
      }
      return true;
    }
  }

  // ----- what a parse selects

  function Commits(recognise: Recogniser, lines: seq<string>): seq<Commit> {
    if lines == [] then []
    else (match recognise(lines[0]) case None => [] case Some(c) => [c]) + Commits(recognise, lines[1..])
  }

  /** Everything from the first commit at the reset address on: the boot ROM is skipped. */
  function FromReset(commits: seq<Commit>): seq<Commit> {
    if commits == [] || commits[0].pc == 0x8000_0000 then commits else FromReset(commits[1..])
  }

  /** Everything up to and including the first self-loop. */
  function ThroughTerminal(commits: seq<Commit>): seq<Commit> {
    if commits == [] || commits[0].insn == 0x0000_006F then commits[..if commits == [] then 0 else 1]
    else [commits[0]] + ThroughTerminal(commits[1..])
  }

  function Selected(recognise: Recogniser, log: string): seq<Commit> {
    ThroughTerminal(FromReset(Commits(recognise, Lines.Split(log).lines)))
  }

  function RecordsOf(commits: seq<Commit>): seq<Record> {
    seq(|commits|, i requires 0 <= i < |commits| => RecordOf(commits[i]))
  }

  predicate Sealed(commits: seq<Commit>) {
    commits != [] && commits[|commits| - 1].insn == 0x0000_006F
  }

  predicate AllWellFormed(commits: seq<Commit>) { forall c <- commits :: WellFormed(c) }

  /** What a running parser has after the selected commits. */
  function Outcome(records: seq<Record>, started: bool, commits: seq<Commit>): Option<Parser> {
    if AllWellFormed(commits) then
      Some(Parser(started || commits != [], Sealed(commits), records + RecordsOf(commits)))
    else None
  }

  lemma CommitsStep(recognise: Recogniser, lines: seq<string>)
    requires lines != []
    ensures var rest := Commits(recognise, lines[1..]);
      Commits(recognise, lines) == match recognise(lines[0]) case None => rest case Some(c) => [c] + rest
  {
    var rest := Commits(recognise, lines[1..]);
    assert [] + rest == rest;
  }

  lemma OnLinesStep(recognise: Recogniser, p: Parser, lines: seq<string>)
    requires lines != []
    ensures OnLines(recognise, p, lines)
         == match OnLine(recognise, p, lines[0]) case None => None case Some(q) => OnLines(recognise, q, lines[1..])
  {
    hide OnLine;
  }

  lemma ThroughTerminalStep(c: Commit, rest: seq<Commit>)
    ensures ThroughTerminal([c] + rest) == if c.insn == 0x0000_006F then [c] else [c] + ThroughTerminal(rest)
  {
    var commits := [c] + rest;
    assert commits[1..] == rest && commits[..1] == [c];
  }

  lemma {:induction false} RunningParse(recognise: Recogniser, records: seq<Record>, lines: seq<string>)
    ensures OnLines(recognise, Parser(true, false, records), lines)
         == Outcome(records, true, ThroughTerminal(Commits(recognise, lines)))
    decreases |lines|
  {
    if lines == [] {
      assert Commits(recognise, lines) == [] && ThroughTerminal([]) == [];
      NothingSelected(records);
    } else {
      CommitsStep(recognise, lines);
      OnLinesStep(recognise, Parser(true, false, records), lines);
      hide OnLines, Commits, ThroughTerminal, Outcome;
      match recognise(lines[0])
      case None =>
        RunningParse(recognise, records, lines[1..]);
      case Some(c) =>
        ThroughTerminalStep(c, Commits(recognise, lines[1..]));
        if WellFormed(c) {
          if c.insn == 0x0000_006F {
            CompleteIsFinal(recognise, Parser(true, true, records + [RecordOf(c)]), lines[1..]);
            TerminalOutcome(records, c);
          } else {
            RunningParse(recognise, records + [RecordOf(c)], lines[1..]);
            ConsOutcome(records, c, ThroughTerminal(Commits(recognise, lines[1..])));
          }
        } else {
          MalformedOutcome(records, c, ThroughTerminal(Commits(recognise, lines[1..])));
        }
    }
  }

  lemma NothingSelected(records: seq<Record>)
    ensures Outcome(records, true, []) == Some(Parser(true, false, records))
    ensures Outcome(records, false, []) == Some(Parser(false, false, records))
  {
    assert records + RecordsOf([]) == records;
  }

  lemma TerminalOutcome(records: seq<Record>, c: Commit)
    requires WellFormed(c) && c.insn == 0x0000_006F
    ensures Outcome(records, true, [c]) == Some(Parser(true, true, records + [RecordOf(c)]))
  {
    assert RecordsOf([c]) == [RecordOf(c)];
  }

  lemma MalformedOutcome(records: seq<Record>, c: Commit, tail: seq<Commit>)
    requires !WellFormed(c)
    ensures Outcome(records, true, [c]) == None == Outcome(records, true, [c] + tail)
  {
    assert ([c] + tail)[0] == c && [c][0] == c;
  }

  lemma ConsOutcome(records: seq<Record>, c: Commit, tail: seq<Commit>)
    requires WellFormed(c) && c.insn != 0x0000_006F
    ensures Outcome(records, true, [c] + tail) == Outcome(records + [RecordOf(c)], true, tail)
  {
    var commits := [c] + tail;
    assert RecordsOf(commits) == [RecordOf(c)] + RecordsOf(tail);
    assert records + RecordsOf(commits) == records + [RecordOf(c)] + RecordsOf(tail);
    assert AllWellFormed(commits) <==> AllWellFormed(tail) by {
      assert commits[0] == c && commits[1..] == tail;
      assert forall x :: x in commits <==> x == c || x in tail;
    }
  }

  lemma FromResetStep(c: Commit, rest: seq<Commit>)
    ensures FromReset([c] + rest) == if c.pc == 0x8000_0000 then [c] + rest else FromReset(rest)
  {
    assert ([c] + rest)[1..] == rest;
  }

  /** Once a commit is selected it does not matter whether the parser had started before. */
  lemma StartedOutcome(records: seq<Record>, commits: seq<Commit>)
    requires commits != []
    ensures Outcome(records, false, commits) == Outcome(records, true, commits)
  {
  }

  lemma {:induction false} WaitingParse(recognise: Recogniser, lines: seq<string>)
    ensures OnLines(recognise, INITIAL, lines)
         == Outcome([], false, ThroughTerminal(FromReset(Commits(recognise, lines))))
    decreases |lines|
  {
    if lines == [] {
      assert Commits(recognise, lines) == [] && FromReset([]) == [] && ThroughTerminal([]) == [];
      NothingSelected([]);
    } else {
      CommitsStep(recognise, lines);
      OnLinesStep(recognise, INITIAL, lines);
      OnLinesStep(recognise, Parser(true, false, []), lines);
      hide OnLines, Commits, ThroughTerminal, Outcome, FromReset;
      match recognise(lines[0])
      case None =>
        WaitingParse(recognise, lines[1..]);
      case Some(c) =>
        var rest := Commits(recognise, lines[1..]);
        FromResetStep(c, rest);
        if c.pc == 0x8000_0000 {
          RunningParse(recognise, [], lines);
          ThroughTerminalStep(c, rest);
          StartedOutcome([], ThroughTerminal([c] + rest));
        } else {
          WaitingParse(recognise, lines[1..]);
        }
    }
  }

  /**
    A parse yields exactly the records of the commits from the first one at the reset address through
    the first self-loop after it; it is complete if and only if that self-loop was seen, and it raises
    if and only if one of those commits is malformed.
   */
  lemma ParseSelects(recognise: Recogniser, log: string)
    ensures var selected := Selected(recognise, log);
      && (Parse(recognise, log).None? <==>
            exists c <- selected :: c.write.Some? && !(0 <= c.write.value.0 < 32 && c.write.value.1 < 0x1_0000_0000))
      && (Parse(recognise, log).Some? ==>
            Parse(recognise, log).value == Parser(selected != [], Sealed(selected), RecordsOf(selected)))
      && forall i :: 0 <= i < |selected| ==> RecordsOf(selected)[i] == Reported(selected[i])
  {
    WaitingParse(recognise, Lines.Split(log).lines);
    assert [] + RecordsOf(Selected(recognise, log)) == RecordsOf(Selected(recognise, log));
  }

  /** A commit as it is compared: a missing write is a write of 0 to x0, and so is any write to x0. */
  ghost function Reported(c: Commit): Record {
    var rd, value := if c.write.Some? then c.write.value.0 else 0, if c.write.Some? then c.write.value.1 else 0;
    Record(c.pc, c.insn, rd, if rd == 0 then 0 else value)
  }

  /** A sealed stream: non-empty, from the reset address, its only self-loop last, x0 always zero. */
  ghost predicate SealedStream(records: seq<Record>) {
    && records != []
    && records[0].pc == 0x8000_0000
    && (forall i :: 0 <= i < |records| ==> (records[i].insn == 0x0000_006F <==> i == |records| - 1))
    && (forall i :: 0 <= i < |records| ==> 0 <= records[i].rd <= 31 && (records[i].rd == 0 ==> records[i].wdata == 0))
  }

  lemma {:induction false} OnlyLastIsTerminal(commits: seq<Commit>, i: nat)
    requires i < |ThroughTerminal(commits)|
    ensures ThroughTerminal(commits)[i].insn == 0x0000_006F ==> i == |ThroughTerminal(commits)| - 1
    ensures commits != [] && ThroughTerminal(commits)[0] == commits[0]
    decreases |commits|
  {
    if commits[0].insn != 0x0000_006F && i > 0 {
      OnlyLastIsTerminal(commits[1..], i - 1);
    }
  }

  lemma {:induction false} FromResetStarts(commits: seq<Commit>)
    ensures FromReset(commits) == [] || FromReset(commits)[0].pc == 0x8000_0000
  {
    if commits != [] && commits[0].pc != 0x8000_0000 {
      FromResetStarts(commits[1..]);
    }
  }

  /** A completed parse holds a sealed stream. */
  lemma CompleteParseIsSealed(recognise: Recogniser, log: string)
    requires Parse(recognise, log).Some? && Parse(recognise, log).value.complete
    ensures SealedStream(Parse(recognise, log).value.records)
  {
    ParseSelects(recognise, log);
    var commits := FromReset(Commits(recognise, Lines.Split(log).lines));
    var selected := ThroughTerminal(commits);
    FromResetStarts(Commits(recognise, Lines.Split(log).lines));
    forall i | 0 <= i < |selected|
      ensures selected[i].insn == 0x0000_006F <==> i == |selected| - 1
      ensures selected[0] == commits[0]
    {
      OnlyLastIsTerminal(commits, i);
    }
    forall i | 0 <= i < |selected|
      ensures WellFormed(selected[i])
    {
      assert selected[i] in selected;
    }
  }

  /** Reading on never repairs a malformed log and never changes a completed parse. */
  lemma ParseOfPrefix(recognise: Recogniser, seen: string, log: string)
    requires seen <= log && Parse(recognise, log).Some?
    ensures Parse(recognise, seen).Some?
    ensures Parse(recognise, seen).value.complete ==> Parse(recognise, log) == Parse(recognise, seen)
  {
    hide OnLines, Lines.Split;
    var more := log[|seen|..];
    assert log == seen + more;
    Lines.SplitInTwoReads(seen, more);
    var before, after := Lines.Split(seen).lines, Lines.Split(Lines.Split(seen).rest + more).lines;
    OnMoreLines(recognise, INITIAL, before, after);
    if Parse(recognise, seen).Some? && Parse(recognise, seen).value.complete {
      CompleteIsFinal(recognise, Parse(recognise, seen).value, after);
    }
  }
}
