/**
  tools/render_portfolio.py: `replace_block` and the per-document fold of `render_documents`,
  which keep generated text between named pairs of HTML comments.
 */
module Markers {
  import opened Options

  datatype Side = Start | End
  datatype Marker = Marker(name: string, side: Side)

  datatype Refusal = Missing | Repeated | Misordered | Nested | UnknownBlock | MissingBlock
  datatype Result = Ok(text: string) | Refused(why: Refusal)

  const OPEN := "<!-- portfolio:"

  function Close(side: Side): string { if side.Start? then ":start -->" else ":end -->" }

  function Text(m: Marker): (t: string)
    ensures |t| > 0
  {
    OPEN + m.name + Close(m.side)
  }

  predicate Lower(c: char) { 'a' <= c <= 'z' }

  predicate NameChar(c: char) { Lower(c) || '0' <= c <= '9' || c == '-' }

  predicate ProperName(name: string) {
    name != "" && Lower(name[0]) && forall i :: 0 <= i < |name| ==> NameChar(name[i])
  }

  // ----- the marker pattern

  function NameLength(s: string): (n: nat)
    ensures n <= |s|
    ensures forall i :: 0 <= i < n ==> NameChar(s[i])
    ensures n < |s| ==> !NameChar(s[n])
  {
    if s == "" || !NameChar(s[0]) then 0 else 1 + NameLength(s[1..])
  }

  /** The marker pattern from the name on. */
  function MatchName(s: string): Option<Marker> {
    var n := NameLength(s);
    if n == 0 || !Lower(s[0]) then None
    else if Close(Start) <= s[n..] then Some(Marker(s[..n], Start))
    else if Close(End) <= s[n..] then Some(Marker(s[..n], End))
    else None
  }

  /** The marker pattern anchored at the front of `s`. */
  function Match(s: string): Option<Marker> {
    if OPEN <= s then MatchName(s[|OPEN|..]) else None
  }

  lemma PrefixOfSum(p: string, q: string, s: string)
    ensures p + q <= s <==> p <= s && q <= s[|p|..]
  {
    if p + q <= s {
      assert s[..|p|] == (p + q)[..|p|];
      assert s[|p|..][..|q|] == s[..|p| + |q|][|p|..];
    }
    if p <= s && q <= s[|p|..] {
      assert s == p + s[|p|..];
    }
  }

  lemma {:induction false} NameLengthIs(s: string, n: nat)
    requires n < |s| && !NameChar(s[n]) && forall i :: 0 <= i < n ==> NameChar(s[i])
    ensures NameLength(s) == n
    decreases n
  {
    if n > 0 {
      NameLengthIs(s[1..], n - 1);
    }
  }

  lemma CloseStarts(side: Side)
    ensures |Close(side)| >= 2 && Close(side)[0] == ':' && Close(side)[1] == if side.Start? then 's' else 'e'
  {
  }

  lemma MatchNameIsText(s: string, m: Marker)
    ensures MatchName(s) == Some(m) <==> ProperName(m.name) && m.name + Close(m.side) <= s
  {
    hide NameLength, Close;
    PrefixOfSum(m.name, Close(m.side), s);
    if ProperName(m.name) && m.name <= s && Close(m.side) <= s[|m.name|..] {
      var n := |m.name|;
      CloseStarts(Start);
      CloseStarts(End);
      CloseStarts(m.side);
      assert s[n] == s[n..][0] == Close(m.side)[0];
      assert Close(m.side)[1] == s[n..][1];
      assert Close(Start) <= s[n..] ==> Close(Start)[1] == s[n..][1];
      assert s[..n] == m.name;
      NameLengthIs(s, n);
    }
  }

  /** The pattern matches exactly the texts of markers with proper names. */
  lemma MatchIsText(s: string, m: Marker)
    ensures Match(s) == Some(m) <==> ProperName(m.name) && Text(m) <= s
  {
    hide MatchName, ProperName, Close;
    PrefixOfSum(OPEN, m.name + Close(m.side), s);
    assert Text(m) == OPEN + (m.name + Close(m.side));
    if OPEN <= s {
      MatchNameIsText(s[|OPEN|..], m);
    }
  }

  /** After its first character a marker holds neither of the characters a break starts with. */
  lemma TextInside(m: Marker, k: nat)
    requires ProperName(m.name) && 0 < k < |Text(m)|
    ensures Text(m)[k] != '<' && Text(m)[k] != '\n'
  {
    var t, n := Text(m), |m.name|;
    if k < |OPEN| {
      assert t[k] == OPEN[k];
    } else if k < |OPEN| + n {
      assert t[k] == m.name[k - |OPEN|];
    } else {
      assert t[k] == Close(m.side)[k - |OPEN| - n];
    }
  }

  // ----- the markers of a text, in order

  function Marks(s: string): seq<Marker>
    decreases |s|
  {
    if s == "" then []
    else match Match(s)
      case Some(m) =>
        MatchIsText(s, m);
        [m] + Marks(s[|Text(m)|..])
      case None => Marks(s[1..])
  }

  predicate Breaks(s: string) { s == "" || s[0] == '<' || s[0] == '\n' }

  lemma LongerPrefix(t: string, a: string, b: string)
    requires t <= a + b
    ensures t <= a || (|a| < |t| && b != "" && t[|a|] == b[0])
  {
    if |t| <= |a| {
      assert (a + b)[..|t|] == a[..|t|];
    }
  }

  lemma MatchIsLocal(a: string, b: string)
    requires a != "" && Breaks(b)
    ensures Match(a + b) == Match(a)
  {
    hide Match, Text, ProperName;
    if Match(a).Some? {
      var m := Match(a).value;
      MatchIsText(a, m);
      assert Text(m) <= a + b;
      MatchIsText(a + b, m);
    } else if Match(a + b).Some? {
      var m := Match(a + b).value;
      MatchIsText(a + b, m);
      MatchIsText(a, m);
      LongerPrefix(Text(m), a, b);
      TextInside(m, |a|);
    }
  }

  /** No marker straddles the front of a text that starts with a break. */
  lemma {:induction false} MarksOfParts(a: string, b: string)
    requires Breaks(b)
    ensures Marks(a + b) == Marks(a) + Marks(b)
    decreases |a|
  {
    hide Match, Text, Breaks;
    if a == "" {
      assert a + b == b;
    } else {
      MatchIsLocal(a, b);
      if Match(a).Some? {
        var m := Match(a).value;
        MatchIsText(a, m);
        var n := |Text(m)|;
        assert (a + b)[n..] == a[n..] + b;
        MarksOfParts(a[n..], b);
      } else {
        assert (a + b)[1..] == a[1..] + b;
        MarksOfParts(a[1..], b);
      }
    }
  }

  lemma MarksAfter(m: Marker, s: string)
    requires ProperName(m.name)
    ensures Marks(Text(m) + s) == [m] + Marks(s) && Breaks(Text(m) + s)
  {
    hide Match;
    MatchIsText(Text(m) + s, m);
    assert (Text(m) + s)[|Text(m)|..] == s;
  }

  lemma {:induction false} MarksAreProper(s: string)
    ensures forall m :: m in Marks(s) ==> ProperName(m.name)
    decreases |s|
  {
    hide Match, Text, ProperName;
    if s != "" {
      if Match(s).Some? {
        MatchIsText(s, Match(s).value);
        MarksAreProper(s[|Text(Match(s).value)|..]);
      } else {
        MarksAreProper(s[1..]);
      }
    }
  }

  // ----- `str.index` and `str.count`

  function Find(s: string, p: string): (at: Option<nat>)
    requires p != ""
    ensures at.Some? ==> at.value + |p| <= |s|
    decreases |s|
  {
    if s == "" then None
    else if p <= s then Some(0)
    else match Find(s[1..], p)
      case Some(i) => Some(i + 1)
      case None => None
  }

  predicate OccursAt(s: string, p: string, j: nat) { j <= |s| && p <= s[j..] }

  lemma OccursLater(s: string, p: string, j: nat)
    requires s != "" && j > 0
    ensures OccursAt(s, p, j) <==> OccursAt(s[1..], p, j - 1)
  {
    if j <= |s| {
      assert s[j..] == s[1..][j - 1..];
    }
  }

  lemma {:induction false} FindIsLeftmost(s: string, p: string)
    requires p != ""
    ensures Find(s, p).Some? ==> OccursAt(s, p, Find(s, p).value)
    ensures Find(s, p).Some? ==> forall j: nat :: j < Find(s, p).value ==> !OccursAt(s, p, j)
    ensures Find(s, p).None? ==> forall j: nat :: !OccursAt(s, p, j)
    decreases |s|
  {
    if s != "" {
      FindIsLeftmost(s[1..], p);
      hide OccursAt;
      forall j: nat | j > 0
        ensures OccursAt(s, p, j) <==> OccursAt(s[1..], p, j - 1)
      {
        OccursLater(s, p, j);
      }
      OccursAtFront(s, p);
    }
  }

  lemma OccursAtFront(s: string, p: string)
    ensures OccursAt(s, p, 0) <==> p <= s
  {
    assert s[0..] == s;
  }

  function Count(s: string, p: string): nat
    requires p != ""
    decreases |s|
  {
    match Find(s, p)
    case Some(i) => 1 + Count(s[i + |p|..], p)
    case None => 0
  }

  lemma {:induction false} MarkIsPresent(s: string, m: Marker) returns (j: nat)
    requires m in Marks(s)
    ensures OccursAt(s, Text(m), j)
    decreases |s|
  {
    hide Match, Text, ProperName;
    if Match(s) == Some(m) {
      MatchIsText(s, m);
      j := 0;
    } else {
      var n := if Match(s).Some? then |Text(Match(s).value)| else 1;
      if Match(s).Some? {
        MatchIsText(s, Match(s).value);
      }
      var k := MarkIsPresent(s[n..], m);
      j := n + k;
      assert s[n..][k..] == s[j..];
    }
  }

  /** A leftmost occurrence splits the marks of a text. */
  lemma FoundMark(s: string, m: Marker)
    requires ProperName(m.name)
    ensures Find(s, Text(m)).None? ==> m !in Marks(s)
    ensures Find(s, Text(m)).Some? ==>
              var i := Find(s, Text(m)).value;
              && s == s[..i] + Text(m) + s[i + |Text(m)|..]
              && Marks(s) == Marks(s[..i]) + [m] + Marks(s[i + |Text(m)|..])
              && m !in Marks(s[..i])
  {
    hide Match, Text, ProperName, Marks, Find, Breaks;
    FindIsLeftmost(s, Text(m));
    if Find(s, Text(m)).None? {
      if m in Marks(s) {
        var j := MarkIsPresent(s, m);
      }
    } else {
      var i := Find(s, Text(m)).value;
      var rest := s[i + |Text(m)|..];
      assert s[i..] == Text(m) + rest;
      assert s == s[..i] + s[i..];
      MarksAfter(m, rest);
      MarksOfParts(s[..i], s[i..]);
      if m in Marks(s[..i]) {
        var j := MarkIsPresent(s[..i], m);
        WithinPrefix(s, i, j, Text(m));
      }
    }
  }

  lemma WithinPrefix(s: string, i: nat, j: nat, p: string)
    requires p != "" && i <= |s| && OccursAt(s[..i], p, j)
    ensures j < i && OccursAt(s, p, j)
  {
    assert s[..i][j..] == s[j..][..i - j];
  }

  lemma {:induction false} CountIsMarks(s: string, m: Marker)
    requires ProperName(m.name)
    ensures Count(s, Text(m)) == multiset(Marks(s))[m]
    decreases |s|
  {
    hide Match, Text, ProperName, Marks, Find;
    FoundMark(s, m);
    if Find(s, Text(m)).Some? {
      CountIsMarks(s[Find(s, Text(m)).value + |Text(m)|..], m);
    }
  }

  /** `str.index` finds a marker that has no earlier occurrence. */
  lemma FindsTheFirst(a: string, m: Marker, b: string)
    requires ProperName(m.name) && m !in Marks(a)
    ensures Find(a + Text(m) + b, Text(m)) == Some(|a|)
  {
    hide Match, Text, ProperName, Marks, Find, Breaks;
    var s, t := a + Text(m) + b, Text(m);
    assert s[|a|..] == t + b;
    assert OccursAt(s, t, |a|);
    FindIsLeftmost(s, t);
    var i := Find(s, t).value;
    if i + |t| <= |a| {
      var rest := a[i + |t|..];
      assert a == s[..|a|];
      assert a == s[..i] + (t + rest);
      MarksAfter(m, rest);
      MarksOfParts(s[..i], t + rest);
    } else if i < |a| {
      assert s[i..][|a| - i] == s[|a|] == t[0];
      TextInside(m, |a| - i);
      TextOpens(m);
    }
  }

  lemma TextOpens(m: Marker)
    ensures Text(m)[0] == '<'
  {
  }

  // ----- `str.strip`

  /** `str.isspace` on one character. */
  predicate Space(c: char) {
    var n := c as int;
    || 9 <= n <= 13 || 28 <= n <= 32 || n == 0x85 || n == 0xA0 || n == 0x1680 || 0x2000 <= n <= 0x200A
    || n == 0x2028 || n == 0x2029 || n == 0x202F || n == 0x205F || n == 0x3000
  }

  function Strip(s: string): string
    decreases |s|
  {
    if s == "" then ""
    else if Space(s[0]) then Strip(s[1..])
    else if Space(s[|s| - 1]) then Strip(s[..|s| - 1])
    else s
  }

  lemma TextCloses(m: Marker)
    ensures Text(m)[|Text(m)| - 1] == '>'
  {
  }

  lemma {:induction false} MarksBeforeSpace(s: string, c: char)
    requires c != '>' && c != '<'
    ensures Marks(s + [c]) == Marks(s)
    decreases |s|
  {
    hide Text, ProperName;
    if s == "" {
      assert s + [c] == [c];
      assert Marks([c]) == Marks([c][1..]);
    } else {
      MatchBeforeSpace(s, c);
      if Match(s).Some? {
        var n := |Text(Match(s).value)|;
        MatchIsText(s, Match(s).value);
        assert (s + [c])[n..] == s[n..] + [c];
        MarksBeforeSpace(s[n..], c);
      } else {
        assert (s + [c])[1..] == s[1..] + [c];
        MarksBeforeSpace(s[1..], c);
      }
    }
  }

  lemma MatchBeforeSpace(s: string, c: char)
    requires c != '>'
    ensures Match(s + [c]) == Match(s)
  {
    hide Match, Text, ProperName;
    if Match(s).Some? {
      var m := Match(s).value;
      MatchIsText(s, m);
      assert Text(m) <= s + [c];
      MatchIsText(s + [c], m);
    } else if Match(s + [c]).Some? {
      var m := Match(s + [c]).value;
      MatchIsText(s + [c], m);
      MatchIsText(s, m);
      LongerPrefix(Text(m), s, [c]);
      TextCloses(m);
    }
  }

  /** Stripping removes no marker. */
  lemma {:induction false} MarksOfStrip(s: string)
    ensures Marks(Strip(s)) == Marks(s)
    decreases |s|
  {
    hide NameLength;
    if s == "" {
    } else if Space(s[0]) {
      MarksOfStrip(s[1..]);
    } else if Space(s[|s| - 1]) {
      var n := |s| - 1;
      assert s == s[..n] + [s[n]];
      MarksBeforeSpace(s[..n], s[n]);
      MarksOfStrip(s[..n]);
    }
  }

  // ----- `replace_block`

  /** A slice of Python's: empty when the bounds cross. */
  function Slice(s: string, from: nat, to: nat): string {
    if from <= to <= |s| then s[from..to] else ""
  }

  function Body(contents: string): string { "\n" + Strip(contents) + "\n" }

  function Replace(source: string, name: string, contents: string): Result {
    var start, end := Text(Marker(name, Start)), Text(Marker(name, End));
    if Count(source, start) == 0 || Count(source, end) == 0 then Refused(Missing)
    else if Count(source, start) != 1 || Count(source, end) != 1 then Refused(Repeated)
    else
      var i, j := Find(source, start).value, Find(source, end).value;
      if i > j then Refused(Misordered)
      else if Marks(Slice(source, i + |start|, j)) != [] then Refused(Nested)
      else Ok(source[..i + |start|] + Body(contents) + source[j..])
  }

  /** A text up to the inside of the block `name`, and from there on. */
  function Lead(name: string, before: string): string { before + Text(Marker(name, Start)) }

  function Tail(name: string, after: string): string { Text(Marker(name, End)) + after }

  function Join(name: string, before: string, inner: string, after: string): string {
    Lead(name, before) + inner + Tail(name, after)
  }

  /** In a list of marks: one start and one end, the end right behind the start. */
  predicate PairAt(l: seq<Marker>, name: string, i: nat) {
    i + 1 < |l| && l[i] == Marker(name, Start) && l[i + 1] == Marker(name, End)
  }

  predicate OnePair(l: seq<Marker>, name: string) {
    && multiset(l)[Marker(name, Start)] == 1 == multiset(l)[Marker(name, End)]
    && exists i :: 0 <= i < |l| && PairAt(l, name, i)
  }

  predicate Avoids(l: seq<Marker>, name: string) { forall m :: m in l ==> m.name != name }

  function Pair(name: string): seq<Marker> { [Marker(name, Start), Marker(name, End)] }

  lemma MarksOfBlock(name: string, before: string, inner: string, after: string)
    requires ProperName(name)
    ensures Marks(Join(name, before, inner, after))
         == Marks(before) + ([Marker(name, Start)] + (Marks(inner) + ([Marker(name, End)] + Marks(after))))
    ensures Marks(Lead(name, before) + inner) == Marks(before) + ([Marker(name, Start)] + Marks(inner))
  {
    hide Text, ProperName, Marks, Breaks;
    var start, end := Marker(name, Start), Marker(name, End);
    var tail := Tail(name, after);
    MarksAfter(end, after);
    MarksOfParts(inner, tail);
    MarksAfter(start, inner + tail);
    MarksOfParts(before, Text(start) + (inner + tail));
    assert Join(name, before, inner, after) == before + (Text(start) + (inner + tail));
    MarksAfter(start, inner);
    MarksOfParts(before, Text(start) + inner);
    assert Lead(name, before) + inner == before + (Text(start) + inner);
  }

  lemma MarksAfterNewline(s: string)
    ensures Marks("\n" + s) == Marks(s)
  {
    hide Match, Text, ProperName;
    var t := "\n" + s;
    assert t[0] == '\n' && t[1..] == s;
    if Match(t).Some? {
      var m := Match(t).value;
      MatchIsText(t, m);
      TextOpens(m);
    }
  }

  lemma MarksOfBody(contents: string)
    ensures Marks(Body(contents)) == Marks(contents)
  {
    hide Strip, Marks;
    var s, none := Strip(contents), "";
    MarksOfStrip(contents);
    MarksAfterNewline(none);
    assert "\n" + none == "\n";
    assert Marks(none) == [] by {
      NoMarks();
    }
    MarksOfParts(s, "\n");
    MarksAfterNewline(s + "\n");
    assert Body(contents) == "\n" + (s + "\n");
  }

  lemma NoMarks()
    ensures Marks("") == []
  {
  }

  // ----- lists of marks with one pair of a name

  lemma PairIsOne(a: seq<Marker>, name: string, b: seq<Marker>)
    requires Avoids(a, name) && Avoids(b, name)
    ensures OnePair(a + (Pair(name) + b), name)
  {
    var l := a + (Pair(name) + b);
    assert PairAt(l, name, |a|);
    assert multiset(l) == multiset(a) + multiset(Pair(name)) + multiset(b);
  }

  lemma Repeats(a: seq<Marker>, m: Marker, b: seq<Marker>)
    ensures multiset(a + ([m] + b))[m] == multiset(a)[m] + 1 + multiset(b)[m]
  {
    assert multiset(a + ([m] + b)) == multiset(a) + multiset([m]) + multiset(b);
  }

  lemma Standing(a: seq<Marker>, m: Marker, b: seq<Marker>, i: nat)
    requires i < |a + ([m] + b)| && (a + ([m] + b))[i] == m
    ensures i == |a| || m in a || m in b
  {
    if i < |a| {
      assert a[i] == m;
    } else if i > |a| {
      assert b[i - |a| - 1] == m;
    }
  }

  lemma AvoidsBoth(l: seq<Marker>, name: string)
    requires Marker(name, Start) !in l && Marker(name, End) !in l
    ensures Avoids(l, name)
  {
    forall m | m in l
      ensures m.name != name
    {
      assert m == Marker(m.name, m.side);
      assert m.side == Start || m.side == End;
    }
  }

  /** What stands around the start of a name's only pair. */
  lemma AroundStart(a: seq<Marker>, name: string, b: seq<Marker>)
    requires OnePair(a + ([Marker(name, Start)] + b), name)
    ensures b != [] && b[0] == Marker(name, End) && Avoids(a, name) && Avoids(b[1..], name)
  {
    var start, end := Marker(name, Start), Marker(name, End);
    var l := a + ([start] + b);
    var i :| 0 <= i < |l| && PairAt(l, name, i);
    Standing(a, start, b, i);
    Repeats(a, start, b);
    assert b == [end] + b[1..];
    assert l == (a + [start]) + ([end] + b[1..]);
    Repeats(a + [start], end, b[1..]);
    AvoidsBoth(a, name);
    AvoidsBoth(b[1..], name);
  }

  // ----- when a block is replaced

  lemma JoinParts(name: string, before: string, inner: string, after: string)
    ensures var s, i := Join(name, before, inner, after), |Lead(name, before)|;
            && i + |inner| <= |s| && s[..i] == Lead(name, before) && s[i..i + |inner|] == inner
            && s[i + |inner|..] == Tail(name, after)
            && s == before + Text(Marker(name, Start)) + (inner + Tail(name, after))
            && s == (Lead(name, before) + inner) + Text(Marker(name, End)) + after
  {
    hide Text;
  }

  lemma JoinFinds(name: string, before: string, inner: string, after: string)
    requires ProperName(name) && Marks(inner) == [] && Avoids(Marks(before), name)
    ensures var s := Join(name, before, inner, after);
            && Find(s, Text(Marker(name, Start))) == Some(|before|)
            && Find(s, Text(Marker(name, End))) == Some(|Lead(name, before) + inner|)
  {
    hide Text, ProperName, Marks, Find, Join, Lead, Tail;
    MarksOfBlock(name, before, inner, after);
    JoinParts(name, before, inner, after);
    FindsTheFirst(before, Marker(name, Start), inner + Tail(name, after));
    FindsTheFirst(Lead(name, before) + inner, Marker(name, End), after);
  }

  lemma JoinIsOnePair(name: string, before: string, inner: string, after: string)
    requires ProperName(name) && Marks(inner) == [] && Avoids(Marks(before), name) && Avoids(Marks(after), name)
    ensures OnePair(Marks(Join(name, before, inner, after)), name)
    ensures Marks(Join(name, before, inner, after)) == Marks(before) + (Pair(name) + Marks(after))
  {
    hide Text, ProperName, Marks, Join, OnePair;
    MarksOfBlock(name, before, inner, after);
    PairIsOne(Marks(before), name, Marks(after));
    assert [Marker(name, Start)] + ([] + ([Marker(name, End)] + Marks(after))) == Pair(name) + Marks(after);
  }

  lemma ReplaceValue(s: string, name: string, contents: string, i: nat, j: nat)
    requires var start, end := Text(Marker(name, Start)), Text(Marker(name, End));
             && Count(s, start) == 1 == Count(s, end) && Find(s, start) == Some(i) && Find(s, end) == Some(j)
             && i + |start| <= j <= |s| && Marks(s[i + |start|..j]) == []
    ensures Replace(s, name, contents)
         == Ok(s[..i + |Text(Marker(name, Start))|] + Body(contents) + s[j..])
  {
    hide Text, Marks, Find, Count, Body;
  }

  /** A well-formed block is replaced, whatever stands around it. */
  lemma BlockIsReplaced(name: string, before: string, inner: string, after: string, contents: string)
    requires ProperName(name) && Marks(inner) == [] && Avoids(Marks(before), name) && Avoids(Marks(after), name)
    ensures Replace(Join(name, before, inner, after), name, contents)
         == Ok(Join(name, before, Body(contents), after))
  {
    hide Text, ProperName, Marks, Find, Count, Body, Join, Tail, Avoids, Replace;
    var s := Join(name, before, inner, after);
    JoinFinds(name, before, inner, after);
    JoinIsOnePair(name, before, inner, after);
    CountIsMarks(s, Marker(name, Start));
    CountIsMarks(s, Marker(name, End));
    JoinParts(name, before, inner, after);
    ReplaceValue(s, name, contents, |before|, |Lead(name, before) + inner|);
    BodyInserted(name, before, Body(contents), after);
  }

  lemma BodyInserted(name: string, before: string, body: string, after: string)
    ensures Lead(name, before) + body + Tail(name, after) == Join(name, before, body, after)
  {
  }

  lemma FirstIsIt(a: seq<Marker>, m: Marker, b: seq<Marker>)
    requires m !in a && (a + [m] + b)[0] == m
    ensures a == [] && (a + [m] + b)[1..] == b
  {
  }

  lemma Assembled(s: string, name: string, before: string, rest: string, inner: string, after: string)
    requires s == before + Text(Marker(name, Start)) + rest && rest == inner + Text(Marker(name, End)) + after
    ensures s == Join(name, before, inner, after)
  {
    hide Text;
    assert Join(name, before, inner, after) == Lead(name, before) + rest;
  }

  lemma CutAtStart(s: string, name: string) returns (before: string, rest: string)
    requires ProperName(name) && OnePair(Marks(s), name)
    ensures s == before + Text(Marker(name, Start)) + rest && Avoids(Marks(before), name)
    ensures Marks(rest) != [] && Marks(rest)[0] == Marker(name, End) && Avoids(Marks(rest)[1..], name)
  {
    hide Text, ProperName, Marks, Find, OnePair, Avoids;
    var start := Marker(name, Start);
    PairIsPresent(Marks(s), name);
    FoundMark(s, start);
    var i := Find(s, Text(start)).value;
    before, rest := s[..i], s[i + |Text(start)|..];
    assert Marks(before) + [start] + Marks(rest) == Marks(before) + ([start] + Marks(rest));
    AroundStart(Marks(before), name, Marks(rest));
  }

  lemma CutAtFirst(s: string, m: Marker) returns (before: string, after: string)
    requires ProperName(m.name) && Marks(s) != [] && Marks(s)[0] == m
    ensures s == before + Text(m) + after && Marks(before) == [] && Marks(after) == Marks(s)[1..]
  {
    hide Text, ProperName, Marks, Find;
    FoundMark(s, m);
    var i := Find(s, Text(m)).value;
    before, after := s[..i], s[i + |Text(m)|..];
    FirstIsIt(Marks(before), m, Marks(after));
  }

  /** A name's only pair, found in the text. */
  lemma CutAt(s: string, name: string) returns (before: string, inner: string, after: string)
    requires ProperName(name) && OnePair(Marks(s), name)
    ensures s == Join(name, before, inner, after)
    ensures Marks(inner) == [] && Avoids(Marks(before), name) && Avoids(Marks(after), name)
  {
    hide Text, ProperName, Marks, OnePair, Join, Avoids;
    var rest;
    before, rest := CutAtStart(s, name);
    inner, after := CutAtFirst(rest, Marker(name, End));
    Assembled(s, name, before, rest, inner, after);
  }

  lemma PairIsPresent(l: seq<Marker>, name: string)
    requires OnePair(l, name)
    ensures Marker(name, Start) in l && Marker(name, End) in l
  {
  }

  lemma NoOverlap(s: string, m: Marker, i: nat, n: Marker, j: nat)
    requires ProperName(m.name) && ProperName(n.name) && m != n
    requires i <= j <= |s| && Text(m) <= s[i..] && Text(n) <= s[j..]
    ensures i + |Text(m)| <= j
  {
    hide Text, ProperName;
    if i == j {
      MatchIsText(s[i..], m);
      MatchIsText(s[i..], n);
    } else if j < i + |Text(m)| {
      assert s[j..][0] == s[i..][j - i];
      TextOpens(n);
      TextInside(m, j - i);
    }
  }

  /** What the checks of `replace_block` have established when it succeeds. */
  lemma ReplaceChecks(s: string, name: string, contents: string) returns (i: nat, j: nat)
    requires Replace(s, name, contents).Ok?
    ensures var start, end := Text(Marker(name, Start)), Text(Marker(name, End));
            && Count(s, start) == 1 == Count(s, end) && Find(s, start) == Some(i) && Find(s, end) == Some(j)
            && i <= j && Marks(Slice(s, i + |start|, j)) == [] && start <= s[i..] && end <= s[j..]
  {
    hide Text, Marks, Find, Body, Slice;
    FindIsLeftmost(s, Text(Marker(name, Start)));
    FindIsLeftmost(s, Text(Marker(name, End)));
    i, j := Find(s, Text(Marker(name, Start))).value, Find(s, Text(Marker(name, End))).value;
  }

  /** The marks around an empty block, when each of its markers occurs once. */
  lemma PairOfBlock(a: seq<Marker>, name: string, b: seq<Marker>, l: seq<Marker>)
    requires l == a + ([Marker(name, Start)] + ([] + ([Marker(name, End)] + b)))
    requires multiset(l)[Marker(name, Start)] == 1 == multiset(l)[Marker(name, End)]
    ensures OnePair(l, name)
  {
    assert PairAt(l, name, |a|);
  }

  lemma ReplacedIsPair(s: string, name: string, contents: string)
    requires ProperName(name) && Replace(s, name, contents).Ok?
    ensures OnePair(Marks(s), name)
  {
    hide Text, ProperName, Marks, Find, Count, Body, Join, Lead, Tail, Replace, OnePair;
    var start, end := Marker(name, Start), Marker(name, End);
    var i, j := ReplaceChecks(s, name, contents);
    CountIsMarks(s, start);
    CountIsMarks(s, end);
    NoOverlap(s, start, i, end, j);
    var k := i + |Text(start)|;
    CutIsJoin(s, name, i, j);
    MarksOfBlock(name, s[..i], s[k..j], s[j + |Text(end)|..]);
    PairOfBlock(Marks(s[..i]), name, Marks(s[j + |Text(end)|..]), Marks(s));
  }

  lemma CutIsJoin(s: string, name: string, i: nat, j: nat)
    requires i + |Text(Marker(name, Start))| <= j <= |s|
    requires Text(Marker(name, Start)) <= s[i..] && Text(Marker(name, End)) <= s[j..]
    ensures var k, n := i + |Text(Marker(name, Start))|, j + |Text(Marker(name, End))|;
            n <= |s| && s == Join(name, s[..i], s[k..j], s[n..])
  {
    hide Text;
    var k := i + |Text(Marker(name, Start))|;
    assert s[..k] == Lead(name, s[..i]) by {
      assert s[i..k] == s[i..][..k - i];
    }
    assert s[j..] == Tail(name, s[j + |Text(Marker(name, End))|..]);
    assert s == s[..k] + s[k..j] + s[j..];
  }

  /** `replace_block` succeeds exactly on one start marker followed, among the markers, by one end marker. */
  lemma ReplacesExactlyPairs(s: string, name: string, contents: string)
    requires ProperName(name)
    ensures Replace(s, name, contents).Ok? <==> OnePair(Marks(s), name)
  {
    hide Text, ProperName, Marks, Find, OnePair, Body;
    if OnePair(Marks(s), name) {
      var before, inner, after := CutAt(s, name);
      BlockIsReplaced(name, before, inner, after, contents);
    }
    if Replace(s, name, contents).Ok? {
      ReplacedIsPair(s, name, contents);
    }
  }

  // ----- the fold over a document's blocks

  function Fold(source: string, names: seq<string>, contents: map<string, string>): Result
    requires forall name :: name in names ==> name in contents
    decreases |names|
  {
    if names == [] then Ok(source)
    else match Replace(source, names[0], contents[names[0]])
      case Ok(text) => Fold(text, names[1..], contents)
      case Refused(why) => Refused(why)
  }

  function NamesIn(l: seq<Marker>): set<string> { set m | m in l :: m.name }

  function Render(source: string, names: seq<string>, contents: map<string, string>): Result
    requires forall name :: name in names ==> name in contents
  {
    var found, wanted := NamesIn(Marks(source)), set name | name in names;
    if found != wanted then Refused(if found - wanted != {} then UnknownBlock else MissingBlock)
    else Fold(source, names, contents)
  }

  method RenderDocument(document: string, names: seq<string>, contents: map<string, string>) returns (r: Result)
    requires forall name :: name in names ==> name in contents
    ensures r == Render(document, names, contents)
  {
    hide Replace, Marks;
    var source := document;
    var found, wanted := NamesIn(Marks(source)), set name | name in names;
    if found != wanted {
      return Refused(if found - wanted != {} then UnknownBlock else MissingBlock);
    }
    for i := 0 to |names|
      invariant Fold(document, names, contents) == Fold(source, names[i..], contents)
    {
      assert names[i..][0] == names[i] && names[i..][1..] == names[i + 1..];
      var replaced := Replace(source, names[i], contents[names[i]]);
      if replaced.Refused? {
        return replaced;
      }
      source := replaced.text;
    }
    return Ok(source);
  }

  /** No content brings markers of its own into the document. */
  predicate Clean(names: seq<string>, contents: map<string, string>)
    requires forall name :: name in names ==> name in contents
  {
    forall name :: name in names ==> Marks(contents[name]) == []
  }

  predicate AllProper(names: seq<string>) { forall name :: name in names ==> ProperName(name) }

  lemma InsertedInPair(a: seq<Marker>, name: string, x: seq<Marker>, b: seq<Marker>, l: seq<Marker>)
    requires l == a + ([Marker(name, Start)] + ([] + ([Marker(name, End)] + b)))
    ensures PairAt(l, name, |a|)
    ensures a + ([Marker(name, Start)] + (x + ([Marker(name, End)] + b))) == l[..|a| + 1] + x + l[|a| + 1..]
  {
    assert l[..|a| + 1] == a + [Marker(name, Start)];
    assert l[|a| + 1..] == [Marker(name, End)] + b;
  }

  /** Replacing a block puts the content's markers between the block's own. */
  lemma ReplacedMarks(s: string, name: string, contents: string) returns (p: nat)
    requires ProperName(name) && Replace(s, name, contents).Ok?
    ensures PairAt(Marks(s), name, p)
    ensures Marks(Replace(s, name, contents).text) == Marks(s)[..p + 1] + Marks(contents) + Marks(s)[p + 1..]
  {
    hide Text, ProperName, Marks, Body, Join, Replace, OnePair, Avoids, PairAt;
    ReplacesExactlyPairs(s, name, contents);
    var before, inner, after := CutAt(s, name);
    BlockIsReplaced(name, before, inner, after, contents);
    MarksOfBlock(name, before, inner, after);
    MarksOfBlock(name, before, Body(contents), after);
    MarksOfBody(contents);
    p := |Marks(before)|;
    InsertedInPair(Marks(before), name, Marks(contents), Marks(after), Marks(s));
  }

  lemma CleanReplaceKeepsMarks(s: string, name: string, contents: string)
    requires ProperName(name) && Replace(s, name, contents).Ok? && Marks(contents) == []
    ensures Marks(Replace(s, name, contents).text) == Marks(s)
  {
    hide Text, ProperName, Marks, Replace;
    var p := ReplacedMarks(s, name, contents);
  }

  lemma {:induction false} CleanFold(s: string, names: seq<string>, contents: map<string, string>)
    requires forall name :: name in names ==> name in contents
    requires AllProper(names) && Clean(names, contents)
    ensures Fold(s, names, contents).Ok? <==> forall name :: name in names ==> OnePair(Marks(s), name)
    ensures Fold(s, names, contents).Ok? ==> Marks(Fold(s, names, contents).text) == Marks(s)
    decreases |names|
  {
    hide ProperName, Marks, Replace, OnePair;
    if names != [] {
      var name, rest := names[0], names[1..];
      assert names == [name] + rest;
      ReplacesExactlyPairs(s, name, contents[name]);
      if Replace(s, name, contents[name]).Ok? {
        CleanReplaceKeepsMarks(s, name, contents[name]);
        CleanFold(Replace(s, name, contents[name]).text, rest, contents);
      }
    }
  }

  lemma FoundAreProper(s: string, names: seq<string>)
    requires NamesIn(Marks(s)) == set name | name in names
    ensures AllProper(names)
  {
    hide ProperName, Marks;
    MarksAreProper(s);
    forall name | name in names
      ensures ProperName(name)
    {
      assert name in NamesIn(Marks(s));
    }
  }

  predicate WellMarked(s: string, names: seq<string>) {
    && NamesIn(Marks(s)) == (set name | name in names)
    && forall name :: name in names ==> OnePair(Marks(s), name)
  }

  /** Contents free of markers are rendered into exactly the well-marked documents, and keep the markers. */
  lemma RendersExactlyWellMarked(s: string, names: seq<string>, contents: map<string, string>)
    requires forall name :: name in names ==> name in contents
    requires Clean(names, contents)
    ensures Render(s, names, contents).Ok? <==> WellMarked(s, names)
    ensures Render(s, names, contents).Ok? ==> Marks(Render(s, names, contents).text) == Marks(s)
  {
    hide Marks, Fold, OnePair, ProperName;
    if NamesIn(Marks(s)) == set name | name in names {
      FoundAreProper(s, names);
      CleanFold(s, names, contents);
    }
  }

  // ----- rendering twice

  /** The block already holds its content. */
  predicate Settled(s: string, name: string, contents: string) { Replace(s, name, contents) == Ok(s) }

  lemma ReplacedIsSettled(s: string, name: string, contents: string)
    requires ProperName(name) && Replace(s, name, contents).Ok? && Marks(contents) == []
    ensures Settled(Replace(s, name, contents).text, name, contents)
  {
    hide Text, ProperName, Marks, Body, Join, Replace, OnePair, Avoids;
    ReplacesExactlyPairs(s, name, contents);
    var before, inner, after := CutAt(s, name);
    BlockIsReplaced(name, before, inner, after, contents);
    MarksOfBody(contents);
    BlockIsReplaced(name, before, Body(contents), after, contents);
  }

  lemma JoinNests(a: string, b: string, u: string, i: string, v: string, w: string, y: string)
    ensures Join(a, Join(b, u, i, v), w, y) == Join(b, u, i, Join(a, v, w, y))
  {
    hide Text;
    var bs, be := Text(Marker(b, Start)), Text(Marker(b, End));
    var starts, ends := Text(Marker(a, Start)), Text(Marker(a, End));
    assert Join(a, Join(b, u, i, v), w, y) == u + bs + i + be + v + starts + w + ends + y;
    assert Join(b, u, i, Join(a, v, w, y)) == u + bs + i + be + v + starts + w + ends + y;
  }

  lemma SameJoin(name: string, before: string, inner: string, body: string, after: string)
    requires Join(name, before, inner, after) == Join(name, before, body, after)
    ensures inner == body
  {
    hide Lead, Tail;
    JoinParts(name, before, inner, after);
    JoinParts(name, before, body, after);
    assert |inner| == |body|;
  }

  lemma PairsApart(a: seq<Marker>, name: string, b: seq<Marker>, other: string)
    requires name != other && OnePair(a + (Pair(name) + b), other)
    ensures (OnePair(a, other) && Avoids(b, other)) || (Avoids(a, other) && OnePair(b, other))
  {
    var l := a + (Pair(name) + b);
    var i :| 0 <= i < |l| && PairAt(l, other, i);
    var start, end := Marker(other, Start), Marker(other, End);
    assert multiset(l) == multiset(a) + multiset(Pair(name)) + multiset(b);
    assert start !in Pair(name) && end !in Pair(name);
    if i < |a| {
      assert i + 1 != |a|;
      assert PairAt(a, other, i);
      assert a[i] in a && a[i + 1] in a;
      AvoidsBoth(b, other);
    } else {
      assert i != |a| && i != |a| + 1;
      var k := i - |a| - 2;
      assert b[k] == l[i] && b[k + 1] == l[i + 1];
      assert PairAt(b, other, k);
      assert b[k] in b && b[k + 1] in b;
      AvoidsBoth(a, other);
    }
  }

  lemma AvoidsJoin(name: string, other: string, u: string, i: string, v: string)
    requires ProperName(other) && Marks(i) == [] && name != other
    ensures Avoids(Marks(Join(other, u, i, v)), name) <==> Avoids(Marks(u), name) && Avoids(Marks(v), name)
  {
    hide Text, ProperName, Marks, Join;
    MarksOfBlock(other, u, i, v);
    var l := Marks(u) + ([Marker(other, Start)] + ([] + ([Marker(other, End)] + Marks(v))));
    assert forall m :: m in l <==> m in Marks(u) || m in Pair(other) || m in Marks(v);
  }

  /** Replacing an earlier block leaves a settled one settled. */
  lemma EarlierBlock(name: string, c: string, x: string, y: string, other: string, d: string)
    requires ProperName(name) && ProperName(other) && name != other && Marks(c) == [] && Marks(d) == []
    requires Avoids(Marks(x), name) && Avoids(Marks(y), name) && OnePair(Marks(x), other) && Avoids(Marks(y), other)
    ensures var r := Replace(Join(name, x, Body(c), y), other, d); r.Ok? && Settled(r.text, name, c)
  {
    hide Text, ProperName, Marks, Body, Join, Replace, OnePair, Avoids;
    MarksOfBody(c);
    MarksOfBody(d);
    var u, i, v := CutAt(x, other);
    JoinNests(name, other, u, i, v, Body(c), y);
    JoinNests(name, other, u, Body(d), v, Body(c), y);
    AvoidsJoin(other, name, v, Body(c), y);
    BlockIsReplaced(other, u, i, Join(name, v, Body(c), y), d);
    AvoidsJoin(name, other, u, i, v);
    AvoidsJoin(name, other, u, Body(d), v);
    BlockIsReplaced(name, Join(other, u, Body(d), v), Body(c), y, c);
  }

  /** Replacing a later block leaves a settled one settled. */
  lemma LaterBlock(name: string, c: string, x: string, y: string, other: string, d: string)
    requires ProperName(name) && ProperName(other) && name != other && Marks(c) == [] && Marks(d) == []
    requires Avoids(Marks(x), name) && Avoids(Marks(y), name) && OnePair(Marks(y), other) && Avoids(Marks(x), other)
    ensures var r := Replace(Join(name, x, Body(c), y), other, d); r.Ok? && Settled(r.text, name, c)
  {
    hide Text, ProperName, Marks, Body, Join, Replace, OnePair, Avoids;
    MarksOfBody(c);
    MarksOfBody(d);
    var u, i, v := CutAt(y, other);
    JoinNests(other, name, x, Body(c), u, i, v);
    JoinNests(other, name, x, Body(c), u, Body(d), v);
    AvoidsJoin(other, name, x, Body(c), u);
    BlockIsReplaced(other, Join(name, x, Body(c), u), i, v, d);
    AvoidsJoin(name, other, u, i, v);
    AvoidsJoin(name, other, u, Body(d), v);
    BlockIsReplaced(name, x, Body(c), Join(other, u, Body(d), v), c);
  }

  lemma SettledStays(s: string, name: string, c: string, other: string, d: string)
    requires ProperName(name) && ProperName(other) && name != other && Marks(c) == [] && Marks(d) == []
    requires Settled(s, name, c) && Replace(s, other, d).Ok?
    ensures Settled(Replace(s, other, d).text, name, c)
  {
    hide Text, ProperName, Marks, Body, Join, Replace, OnePair, Avoids;
    ReplacesExactlyPairs(s, name, c);
    ReplacesExactlyPairs(s, other, d);
    var x, i, y := CutAt(s, name);
    BlockIsReplaced(name, x, i, y, c);
    SameJoin(name, x, i, Body(c), y);
    JoinIsOnePair(name, x, i, y);
    PairsApart(Marks(x), name, Marks(y), other);
    if OnePair(Marks(x), other) && Avoids(Marks(y), other) {
      EarlierBlock(name, c, x, y, other, d);
    } else {
      LaterBlock(name, c, x, y, other, d);
    }
  }

  lemma {:induction false} SettledThroughFold(s: string, name: string, names: seq<string>,
                                              contents: map<string, string>)
    requires forall n :: n in names ==> n in contents
    requires ProperName(name) && name in contents && Marks(contents[name]) == []
    requires AllProper(names) && Clean(names, contents)
    requires Settled(s, name, contents[name]) && Fold(s, names, contents).Ok?
    ensures Settled(Fold(s, names, contents).text, name, contents[name])
    decreases |names|
  {
    hide ProperName, Marks, Replace, OnePair;
    if names != [] {
      var other, rest := names[0], names[1..];
      assert names == [other] + rest;
      if other != name {
        SettledStays(s, name, contents[name], other, contents[other]);
      }
      SettledThroughFold(Replace(s, other, contents[other]).text, name, rest, contents);
    }
  }

  lemma {:induction false} FoldSettles(s: string, names: seq<string>, contents: map<string, string>)
    requires forall name :: name in names ==> name in contents
    requires AllProper(names) && Clean(names, contents) && Fold(s, names, contents).Ok?
    ensures forall name :: name in names ==> Settled(Fold(s, names, contents).text, name, contents[name])
    decreases |names|
  {
    hide ProperName, Marks, Replace, OnePair, Settled;
    if names != [] {
      var name, rest := names[0], names[1..];
      assert names == [name] + rest;
      ReplacedIsSettled(s, name, contents[name]);
      var t := Replace(s, name, contents[name]).text;
      SettledThroughFold(t, name, rest, contents);
      FoldSettles(t, rest, contents);
    }
  }

  lemma {:induction false} SettledFold(s: string, names: seq<string>, contents: map<string, string>)
    requires forall name :: name in names ==> name in contents && Settled(s, name, contents[name])
    ensures Fold(s, names, contents) == Ok(s)
    decreases |names|
  {
    hide Replace;
    if names != [] {
      assert names == [names[0]] + names[1..];
      SettledFold(s, names[1..], contents);
    }
  }

  /** A marker came between a name's pair, or a second end. */
  predicate Spoiled(l: seq<Marker>, name: string) {
    || multiset(l)[Marker(name, End)] >= 2
    || exists i :: 0 <= i < |l| && BrokenAt(l, name, i)
  }

  predicate BrokenAt(l: seq<Marker>, name: string, i: nat) {
    i + 1 < |l| && l[i] == Marker(name, Start) && l[i + 1] != Marker(name, End)
  }

  lemma OnlyOnce(l: seq<Marker>, m: Marker, i: nat, j: nat)
    requires i < |l| && j < |l| && l[i] == m == l[j] && multiset(l)[m] == 1
    ensures i == j
  {
    var a, b := l[..i], l[i + 1..];
    assert l == a + ([m] + b);
    Standing(a, m, b, j);
    Repeats(a, m, b);
  }

  lemma SpoiledIsNoPair(l: seq<Marker>, name: string)
    requires Spoiled(l, name)
    ensures !OnePair(l, name)
  {
    if OnePair(l, name) {
      var i :| 0 <= i < |l| && BrokenAt(l, name, i);
      var j :| 0 <= j < |l| && PairAt(l, name, j);
      OnlyOnce(l, Marker(name, Start), i, j);
    }
  }

  lemma InsertionSpoils(l: seq<Marker>, name: string, p: nat, x: seq<Marker>)
    requires PairAt(l, name, p) && x != []
    ensures Spoiled(l[..p + 1] + x + l[p + 1..], name)
  {
    var r := l[..p + 1] + x + l[p + 1..];
    if x[0] == Marker(name, End) {
      assert l[p + 1..][0] == x[0];
      assert multiset(r) == multiset(l[..p + 1]) + multiset(x) + multiset(l[p + 1..]);
    } else {
      assert BrokenAt(r, name, p);
    }
  }

  lemma InsertionKeepsSpoiled(l: seq<Marker>, name: string, other: string, p: nat, x: seq<Marker>)
    requires Spoiled(l, name) && name != other && PairAt(l, other, p)
    ensures Spoiled(l[..p + 1] + x + l[p + 1..], name)
  {
    var r := l[..p + 1] + x + l[p + 1..];
    assert l == l[..p + 1] + l[p + 1..];
    assert multiset(r) == multiset(l[..p + 1]) + multiset(x) + multiset(l[p + 1..]);
    if multiset(l)[Marker(name, End)] < 2 {
      var i :| 0 <= i < |l| && BrokenAt(l, name, i);
      assert BrokenAt(r, name, if i <= p then i else i + |x|);
    }
  }

  lemma {:induction false} SpoiledFold(s: string, name: string, names: seq<string>, contents: map<string, string>)
    requires forall n :: n in names ==> n in contents
    requires AllProper(names) && Spoiled(Marks(s), name)
    ensures name in names ==> Fold(s, names, contents).Refused?
    ensures Fold(s, names, contents).Ok? ==> Spoiled(Marks(Fold(s, names, contents).text), name)
    decreases |names|
  {
    hide ProperName, Marks, Replace, OnePair, Spoiled;
    if names != [] {
      var other, rest := names[0], names[1..];
      assert names == [other] + rest;
      if Replace(s, other, contents[other]).Ok? {
        ReplacesExactlyPairs(s, other, contents[other]);
        SpoiledIsNoPair(Marks(s), name);
        var p := ReplacedMarks(s, other, contents[other]);
        InsertionKeepsSpoiled(Marks(s), name, other, p, Marks(contents[other]));
        SpoiledFold(Replace(s, other, contents[other]).text, name, rest, contents);
      }
    }
  }

  lemma {:induction false} FoldSpoils(s: string, name: string, names: seq<string>, contents: map<string, string>)
    requires forall n :: n in names ==> n in contents
    requires AllProper(names) && name in names && Marks(contents[name]) != []
    requires Fold(s, names, contents).Ok?
    ensures Spoiled(Marks(Fold(s, names, contents).text), name)
    decreases |names|
  {
    hide ProperName, Marks, Replace, OnePair, Spoiled;
    var other, rest := names[0], names[1..];
    assert names == [other] + rest;
    var t := Replace(s, other, contents[other]).text;
    if other == name {
      var p := ReplacedMarks(s, name, contents[name]);
      InsertionSpoils(Marks(s), name, p, Marks(contents[name]));
      SpoiledFold(t, name, rest, contents);
    } else {
      FoldSpoils(t, name, rest, contents);
    }
  }

  /** Rendering a rendered document again changes nothing exactly when no content holds a marker;
      otherwise the second run refuses the document. */
  lemma RenderedTwice(s: string, names: seq<string>, contents: map<string, string>)
    requires forall name :: name in names ==> name in contents
    requires Render(s, names, contents).Ok?
    ensures var t := Render(s, names, contents).text;
            && (Clean(names, contents) <==> Render(t, names, contents) == Ok(t))
            && (!Clean(names, contents) <==> Render(t, names, contents).Refused?)
  {
    hide ProperName, Marks, Fold, OnePair, Spoiled;
    var t := Render(s, names, contents).text;
    FoundAreProper(s, names);
    if Clean(names, contents) {
      RendersExactlyWellMarked(s, names, contents);
      FoldSettles(s, names, contents);
      SettledFold(t, names, contents);
    } else {
      var name :| name in names && Marks(contents[name]) != [];
      FoldSpoils(s, name, names, contents);
      SpoiledFold(t, name, names, contents);
    }
  }

  /** A well-marked document and a content with a marker: the first run succeeds, the second refuses. */
  lemma MarkedContentIsRefused() returns (s: string, names: seq<string>, contents: map<string, string>)
    ensures (forall name :: name in names ==> name in contents) && WellMarked(s, names)
    ensures Render(s, names, contents).Ok?
    ensures Render(Render(s, names, contents).text, names, contents).Refused?
  {
    hide Text, Marks, Join, Replace, OnePair, ProperName;
    var name := "a";
    assert ProperName(name) by {
      OneLetter();
    }
    var start := Marker(name, Start);
    names := [name];
    contents := map[name := Text(start)];
    s := Join(name, "", "", "");
    NoMarks();
    JoinIsOnePair(name, "", "", "");
    assert Marks(s) == Pair(name);
    BlockIsReplaced(name, "", "", "", contents[name]);
    var t := Replace(s, name, contents[name]).text;
    assert Fold(s, names, contents) == Ok(t) by {
      OneBlock(s, name, contents);
    }
    assert NamesIn(Marks(s)) == {name} by {
      assert start in Marks(s);
    }
    MarksAfter(start, "");
    assert Text(start) + "" == Text(start);
    RenderedTwice(s, names, contents);
  }

  lemma OneLetter()
    ensures ProperName("a")
  {
  }

  lemma OneBlock(s: string, name: string, contents: map<string, string>)
    requires name in contents && Replace(s, name, contents[name]).Ok?
    ensures Fold(s, [name], contents) == Replace(s, name, contents[name])
  {
    hide Replace;
    assert [name][1..] == [];
  }

  // ----- what rendering leaves alone

  /** The text outside the blocks, with the markers; `keep` says whether reading starts outside. */
  function Outside(s: string, keep: bool): string
    decreases |s|
  {
    if s == "" then ""
    else match Match(s)
      case Some(m) =>
        MatchIsText(s, m);
        Text(m) + Outside(s[|Text(m)|..], m.side.End?)
      case None => (if keep then [s[0]] else "") + Outside(s[1..], keep)
  }

  function KeepAfter(l: seq<Marker>, keep: bool): bool { if l == [] then keep else l[|l| - 1].side.End? }

  lemma {:induction false} OutsideOfParts(a: string, b: string, keep: bool)
    requires Breaks(b)
    ensures Outside(a + b, keep) == Outside(a, keep) + Outside(b, KeepAfter(Marks(a), keep))
    decreases |a|
  {
    hide Match, Text, Breaks, ProperName;
    if a == "" {
      assert a + b == b;
    } else {
      MatchIsLocal(a, b);
      if Match(a).Some? {
        var m := Match(a).value;
        MatchIsText(a, m);
        var n := |Text(m)|;
        assert (a + b)[n..] == a[n..] + b;
        OutsideOfParts(a[n..], b, m.side.End?);
      } else {
        assert (a + b)[1..] == a[1..] + b;
        OutsideOfParts(a[1..], b, keep);
      }
    }
  }

  lemma OutsideAfter(m: Marker, s: string, keep: bool)
    requires ProperName(m.name)
    ensures Outside(Text(m) + s, keep) == Text(m) + Outside(s, m.side.End?)
  {
    hide Match;
    MatchIsText(Text(m) + s, m);
    assert (Text(m) + s)[|Text(m)|..] == s;
  }

  lemma {:induction false} NothingOutside(s: string)
    requires Marks(s) == []
    ensures Outside(s, false) == ""
    decreases |s|
  {
    hide Match, Text;
    if s != "" {
      NothingOutside(s[1..]);
    }
  }

  lemma OutsideOfBlock(name: string, before: string, inner: string, after: string)
    requires ProperName(name) && Marks(inner) == []
    ensures Outside(Join(name, before, inner, after), true)
         == Outside(before, true) + (Text(Marker(name, Start)) + (Text(Marker(name, End)) + Outside(after, true)))
  {
    hide Text, ProperName, Marks, Breaks, Outside;
    var start, end, tail := Marker(name, Start), Marker(name, End), Tail(name, after);
    assert Join(name, before, inner, after) == before + (Text(start) + (inner + tail));
    MarksAfter(start, inner + tail);
    MarksAfter(end, after);
    OutsideOfParts(before, Text(start) + (inner + tail), true);
    OutsideAfter(start, inner + tail, KeepAfter(Marks(before), true));
    OutsideOfParts(inner, tail, false);
    NothingOutside(inner);
    OutsideAfter(end, after, false);
  }

  lemma ReplaceKeepsOutside(s: string, name: string, contents: string)
    requires ProperName(name) && Replace(s, name, contents).Ok? && Marks(contents) == []
    ensures Outside(Replace(s, name, contents).text, true) == Outside(s, true)
  {
    hide Text, ProperName, Marks, Body, Join, Replace, OnePair, Avoids, Outside;
    ReplacesExactlyPairs(s, name, contents);
    var before, inner, after := CutAt(s, name);
    BlockIsReplaced(name, before, inner, after, contents);
    MarksOfBody(contents);
    OutsideOfBlock(name, before, inner, after);
    OutsideOfBlock(name, before, Body(contents), after);
  }

  lemma {:induction false} FoldKeepsOutside(s: string, names: seq<string>, contents: map<string, string>)
    requires forall name :: name in names ==> name in contents
    requires AllProper(names) && Clean(names, contents) && Fold(s, names, contents).Ok?
    ensures Outside(Fold(s, names, contents).text, true) == Outside(s, true)
    decreases |names|
  {
    hide ProperName, Marks, Replace, Outside;
    if names != [] {
      var name, rest := names[0], names[1..];
      assert names == [name] + rest;
      ReplaceKeepsOutside(s, name, contents[name]);
      FoldKeepsOutside(Replace(s, name, contents[name]).text, rest, contents);
    }
  }

  /** Rendering changes nothing outside the blocks, and leaves each block holding its body. */
  lemma RenderHoldsBodies(s: string, names: seq<string>, contents: map<string, string>)
    requires forall name :: name in names ==> name in contents
    requires Clean(names, contents) && Render(s, names, contents).Ok?
    ensures var t := Render(s, names, contents).text;
            && Outside(t, true) == Outside(s, true)
            && forall name :: name in names ==> Holds(t, name, Body(contents[name]))
  {
    hide ProperName, Marks, Fold, OnePair, Outside, Body, Replace, Holds, Settled;
    var t := Render(s, names, contents).text;
    FoundAreProper(s, names);
    FoldKeepsOutside(s, names, contents);
    FoldSettles(s, names, contents);
    forall name | name in names
      ensures Holds(t, name, Body(contents[name]))
    {
      SettledHolds(t, name, contents[name]);
    }
  }

  /** The text between the markers of `name` is `body`. */
  ghost predicate Holds(s: string, name: string, body: string) {
    exists before, after ::
      s == Join(name, before, body, after) && Avoids(Marks(before), name) && Avoids(Marks(after), name)
  }

  lemma SettledHolds(s: string, name: string, contents: string)
    requires ProperName(name) && Settled(s, name, contents)
    ensures Holds(s, name, Body(contents))
  {
    hide Text, ProperName, Marks, Body, Join, Replace, OnePair, Avoids;
    ReplacesExactlyPairs(s, name, contents);
    var before, inner, after := CutAt(s, name);
    BlockIsReplaced(name, before, inner, after, contents);
  }
}
