/** Newline-separated text files, read in one piece or in several. */
module Lines {

  /** Complete lines, without their newline, and the unterminated rest. */
  datatype Text = Text(lines: seq<string>, rest: string)

  function Feed(t: Text, c: char): Text {
    if c == '\n' then Text(t.lines + [t.rest], "") else t.(rest := t.rest + [c])
  }

  function Split(text: string): Text {
    if text == "" then Text([], "") else Feed(Split(text[..|text| - 1]), text[|text| - 1])
  }

  lemma SplitStep(text: string, n: nat)
    requires |text| == n + 1
    ensures Split(text) == Feed(Split(text[..n]), text[n])
  {
  }

  predicate IsLine(line: string) { forall i :: 0 <= i < |line| ==> line[i] != '\n' }

  lemma {:induction false} RestIsLine(text: string)
    ensures IsLine(Split(text).rest)
    decreases |text|
  {
    if text != "" {
      RestIsLine(text[..|text| - 1]);
    }
  }

  lemma ShorterLine(text: string, n: nat)
    requires IsLine(text) && |text| == n + 1
    ensures IsLine(text[..n]) && text[n] != '\n' && text == text[..n] + [text[n]]
  {
  }

  lemma {:induction false} SplitWithoutNewline(text: string)
    requires IsLine(text)
    ensures Split(text) == Text([], text)
    decreases |text|
  {
    if text != "" {
      var n := |text| - 1;
      ShorterLine(text, n);
      SplitStep(text, n);
      hide Split, IsLine;
      SplitWithoutNewline(text[..n]);
    }
  }

  /** Splitting in two reads gives the lines of one read. */
  lemma {:induction false} SplitInTwoReads(a: string, b: string)
    ensures Split(a + b).lines == Split(a).lines + Split(Split(a).rest + b).lines
    ensures Split(a + b).rest == Split(Split(a).rest + b).rest
    decreases |b|
  {
    var rest := Split(a).rest;
    if b == "" {
      RestIsLine(a);
      SplitWithoutNewline(rest);
      assert a + b == a && rest + b == rest;
    } else {
      var n := |b| - 1;
      SplitStep(a + b, |a| + n);
      SplitStep(rest + b, |rest| + n);
      assert (a + b)[..|a| + n] == a + b[..n] && (rest + b)[..|rest| + n] == rest + b[..n];
      hide Split;
      SplitInTwoReads(a, b[..n]);
      FeedAppends(Split(a + b[..n]), Split(a).lines, Split(rest + b[..n]), b[n]);
    }
  }

  lemma FeedAppends(t: Text, before: seq<string>, u: Text, c: char)
    requires t.lines == before + u.lines && t.rest == u.rest
    ensures Feed(t, c).lines == before + Feed(u, c).lines && Feed(t, c).rest == Feed(u, c).rest
  {
  }

  lemma LineAppends(text: string, line: string)
    requires Split(text).rest == "" && IsLine(line)
    ensures Split(text + line + "\n") == Text(Split(text).lines + [line], "")
  {
    hide Split;
    SplitInTwoReads(text, line);
    SplitWithoutNewline(line);
    assert "" + line == line;
    SplitStep(text + line + "\n", |text + line|);
    assert (text + line + "\n")[..|text + line|] == text + line;
  }

  /** Each line followed by a newline. */
  function Joined(lines: seq<string>): string {
    if lines == [] then "" else Joined(lines[..|lines| - 1]) + lines[|lines| - 1] + "\n"
  }

  lemma {:induction false} SplitJoined(lines: seq<string>)
    requires forall k :: 0 <= k < |lines| ==> IsLine(lines[k])
    ensures Split(Joined(lines)) == Text(lines, "")
  {
    if lines != [] {
      hide Split, IsLine;
      var n := |lines| - 1;
      SplitJoined(lines[..n]);
      LineAppends(Joined(lines[..n]), lines[n]);
    }
  }
}
