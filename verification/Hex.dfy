/** Fixed-width lower-case hexadecimal, as `{w:08x}` and `std::setw(8) << std::hex` print it. */
module Hex {
  import opened Bits
  import opened Options
  import Lines

  const DIGITS := "0123456789abcdef"

  function DigitValue(c: char): Option<int> {
    if '0' <= c <= '9' then Some(c as int - '0' as int)
    else if 'a' <= c <= 'f' then Some(c as int - 'a' as int + 10)
    else None
  }

  function Print(v: nat, n: nat): string {
    if n == 0 then "" else Print(v / 16, n - 1) + [DIGITS[v % 16]]
  }

  /** The value of a string of hexadecimal digits, `None` if it holds any other character. */
  function Parse(s: string): Option<int> {
    if s == "" then Some(0)
    else
      var high, low := Parse(s[..|s| - 1]), DigitValue(s[|s| - 1]);
      if high.Some? && low.Some? then Some(16 * high.value + low.value) else None
  }

  lemma DigitRoundTrip(d: nat)
    requires d < 16
    ensures DigitValue(DIGITS[d]) == Some(d)
  {
  }

  lemma ParseStep(s: string, c: char)
    ensures Parse(s + [c])
         == if Parse(s).Some? && DigitValue(c).Some? then Some(16 * Parse(s).value + DigitValue(c).value) else None
  {
    assert (s + [c])[..|s|] == s;
  }

  function Pow16(n: nat): (p: int)
    ensures p >= 1
  {
    if n == 0 then 1 else 16 * Pow16(n - 1)
  }

  lemma Sixteens(high: nat, low: nat, p: int)
    requires low < 16 && high < p
    ensures (16 * high + low) / 16 == high && (16 * high + low) % 16 == low && 16 * high + low < 16 * p
  {
  }

  lemma PrintStep(v: nat, n: nat)
    ensures Print(v, n + 1) == Print(v / 16, n) + [DIGITS[v % 16]]
  {
  }

  lemma NothingPrinted()
    ensures Print(0, 0) == ""
  {
  }

  lemma NothingParsed()
    ensures Parse("") == Some(0)
  {
  }

  lemma {:induction false} RoundTrip(v: nat, n: nat)
    requires v < Pow16(n)
    ensures |Print(v, n)| == n && Parse(Print(v, n)) == Some(v)
    decreases n
  {
    hide Parse, Print, DigitValue;
    if n > 0 {
      RoundTrip(v / 16, n - 1);
      DigitRoundTrip(v % 16);
      ParseStep(Print(v / 16, n - 1), DIGITS[v % 16]);
      PrintStep(v, n - 1);
    } else {
      NothingPrinted();
      NothingParsed();
    }
  }

  lemma WordRoundTrip(v: word)
    ensures |Print(v, 8)| == 8 && Parse(Print(v, 8)) == Some(v)
  {
    assert Pow16(8) == WORD;
    RoundTrip(v, 8);
  }

  lemma {:induction false} PrintedDigits(v: nat, n: nat, i: nat)
    requires i < n
    ensures |Print(v, n)| == n && Print(v, n)[i] in DIGITS
  {
    if n > 1 && i < n - 1 {
      PrintedDigits(v / 16, n - 1, i);
    } else if n > 1 {
      PrintedDigits(v / 16, n - 1, 0);
    }
  }

  lemma PrintedIsLine(v: nat)
    ensures |Print(v, 8)| == 8 && Lines.IsLine(Print(v, 8))
  {
    hide Print;
    PrintedDigits(v, 8, 0);
    forall i | 0 <= i < 8
      ensures Print(v, 8)[i] != '\n'
    {
      PrintedDigits(v, 8, i);
    }
  }

  lemma DigitIsPrinted(c: char)
    requires DigitValue(c).Some?
    ensures 0 <= DigitValue(c).value < 16 && DIGITS[DigitValue(c).value] == c
  {
  }

  /** Whatever parses is the print of its value. */
  lemma {:induction false} ParsedIsPrinted(s: string)
    requires Parse(s).Some?
    ensures 0 <= Parse(s).value < Pow16(|s|) && Print(Parse(s).value, |s|) == s
  {
    hide DigitValue, Print, DIGITS;
    if s != "" {
      var n := |s| - 1;
      ParsedIsPrinted(s[..n]);
      DigitIsPrinted(s[n]);
      Sixteens(Parse(s[..n]).value, DigitValue(s[n]).value, Pow16(n));
      hide Parse;
      PrintStep(16 * Parse(s[..n]).value + DigitValue(s[n]).value, n);
      assert s == s[..n] + [s[n]];
    } else {
      NothingPrinted();
    }
  }

  lemma ParsedWord(s: string)
    requires |s| == 8 && Parse(s).Some?
    ensures 0 <= Parse(s).value < WORD && Print(Parse(s).value, 8) == s
  {
    assert Pow16(8) == WORD;
    ParsedIsPrinted(s);
  }
}
