/**
  What tools/render_portfolio.py writes and refuses, in terms of the characters of a document.
 */
module RenderedText {
  import opened Options
  import opened Markers

  // ----- markers as text

  ghost const NAME_CHARACTERS := "abcdefghijklmnopqrstuvwxyz0123456789-"

  lemma NameCharacters(c: char)
    ensures NameChar(c) <==> c in NAME_CHARACTERS
    ensures Lower(c) <==> c in NAME_CHARACTERS[..26]
  {
    assert forall k :: 0 <= k < 26 ==> NAME_CHARACTERS[k] == ('a' as int + k) as char;
    assert forall k :: 26 <= k < 36 ==> NAME_CHARACTERS[k] == ('0' as int + k - 26) as char;
    if Lower(c) {
      assert NAME_CHARACTERS[..26][c as int - 'a' as int] == c;
    } else if '0' <= c <= '9' {
      assert NAME_CHARACTERS[26 + c as int - '0' as int] == c;
    } else {
      assert NAME_CHARACTERS[36] == '-';
    }
  }

  /** The text of a marker, as it stands in a document. */
  ghost predicate IsMarkerText(t: string, name: string, start: bool) {
    && t == "<!-- portfolio:" + name + (if start then ":start -->" else ":end -->")
    && name != "" && name[0] in NAME_CHARACTERS[..26] && forall c <- name :: c in NAME_CHARACTERS
  }

  /** The pattern matches where a marker text stands, and nowhere else. */
  lemma MatchesMarkerText(s: string, name: string, side: Side)
    ensures Match(s) == Some(Marker(name, side)) <==>
      exists t :: IsMarkerText(t, name, side.Start?) && t <= s
  {
    var m := Marker(name, side);
    MatchIsText(s, m);
    hide Match, NameChar, Lower;
    forall c: char ensures NameChar(c) <==> c in NAME_CHARACTERS {
      NameCharacters(c);
    }
    if name != "" {
      NameCharacters(name[0]);
    }
    assert ProperName(name) <==> IsMarkerText(Text(m), name, side.Start?);
  }

  // ----- `str.strip`

  /** The code points at which Python strips. */
  ghost const WHITE := {0x09, 0x0A, 0x0B, 0x0C, 0x0D, 0x1C, 0x1D, 0x1E, 0x1F, 0x20, 0x85, 0xA0, 0x1680,
                        0x2000, 0x2001, 0x2002, 0x2003, 0x2004, 0x2005, 0x2006, 0x2007, 0x2008, 0x2009, 0x200A,
                        0x2028, 0x2029, 0x202F, 0x205F, 0x3000}

  ghost predicate White(c: char) { c as int in WHITE }

  ghost predicate AllWhite(s: string) { forall i :: 0 <= i < |s| ==> White(s[i]) }

  /** `c` is `s` without the white space at its ends. */
  ghost predicate Trims(s: string, c: string) {
    exists before, after :: TrimsBetween(s, before, c, after)
  }

  ghost predicate TrimsBetween(s: string, before: string, c: string, after: string) {
    && s == before + c + after && AllWhite(before) && AllWhite(after)
    && (c == "" || (!White(c[0]) && !White(c[|c| - 1])))
  }

  lemma SpaceIsWhite(c: char)
    ensures Space(c) <==> White(c)
  {
    assert Space(c) ==> c as int in WHITE;
  }

  lemma TrimsInFront(x: char, s: string, before: string, c: string, after: string)
    requires White(x) && TrimsBetween(s, before, c, after)
    ensures TrimsBetween([x] + s, [x] + before, c, after)
  {
    hide White;
    assert [x] + s == [x] + before + c + after;
  }

  lemma TrimsBehind(x: char, s: string, before: string, c: string, after: string)
    requires White(x) && TrimsBetween(s, before, c, after)
    ensures TrimsBetween(s + [x], before, c, after + [x])
  {
    hide White;
    assert s + [x] == before + c + (after + [x]);
  }

  lemma TrimsNothing(c: string)
    requires c == "" || (!White(c[0]) && !White(c[|c| - 1]))
    ensures TrimsBetween(c, "", c, "")
  {
    hide White;
    assert c == "" + c + "";
  }

  lemma {:induction false} StripTrims(s: string) returns (before: string, after: string)
    ensures TrimsBetween(s, before, Strip(s), after)
    decreases |s|
  {
    hide Space, White, TrimsBetween;
    before, after := "", "";
    if s != "" {
      var n := |s| - 1;
      SpaceIsWhite(s[0]);
      SpaceIsWhite(s[n]);
      if Space(s[0]) {
        before, after := StripTrims(s[1..]);
        TrimsInFront(s[0], s[1..], before, Strip(s), after);
        before := [s[0]] + before;
        assert s == [s[0]] + s[1..];
      } else if Space(s[n]) {
        before, after := StripTrims(s[..n]);
        TrimsBehind(s[n], s[..n], before, Strip(s), after);
        after := after + [s[n]];
        assert s == s[..n] + [s[n]];
      } else {
        TrimsNothing(s);
      }
    } else {
      TrimsNothing(s);
    }
  }

  lemma {:induction false} TrimmedIsStrip(s: string, before: string, c: string, after: string)
    requires TrimsBetween(s, before, c, after)
    ensures Strip(s) == c
    decreases |s|
  {
    hide Space, White;
    if s != "" {
      var n := |s| - 1;
      SpaceIsWhite(s[0]);
      SpaceIsWhite(s[n]);
      if before != "" {
        assert s[0] == before[0];
        assert s[1..] == before[1..] + c + after;
        TrimmedIsStrip(s[1..], before[1..], c, after);
      } else if c == "" {
        assert s == after && s[1..] == after[1..] + c + "";
        TrimmedIsStrip(s[1..], after[1..], c, "");
      } else if after != "" {
        assert s[0] == c[0] && s[n] == after[|after| - 1];
        assert s[..n] == before + c + after[..|after| - 1];
        TrimmedIsStrip(s[..n], before, c, after[..|after| - 1]);
      } else {
        assert s == c;
      }
    }
  }

  /** Stripping drops exactly the white space at both ends. */
  lemma StripsExactly(s: string, c: string)
    ensures Strip(s) == c <==> Trims(s, c)
  {
    hide Strip, TrimsBetween;
    var before, after := StripTrims(s);
    if Trims(s, c) {
      var pre, post :| TrimsBetween(s, pre, c, post);
      TrimmedIsStrip(s, pre, c, post);
    }
  }

  /**
    Rendering changes nothing outside the blocks; each block then holds its content, without the white
    space at its ends, on lines of its own.
   */
  lemma RenderKeepsTheRest(s: string, names: seq<string>, contents: map<string, string>)
    requires forall name :: name in names ==> name in contents
    requires Clean(names, contents) && Render(s, names, contents).Ok?
    ensures var t := Render(s, names, contents).text;
      && Outside(t, true) == Outside(s, true)
      && forall name, c :: name in names && Trims(contents[name], c) ==> Holds(t, name, "\n" + c + "\n")
  {
    hide Render, Outside, Holds, Strip, Trims;
    RenderHoldsBodies(s, names, contents);
    forall name, c | name in names && Trims(contents[name], c)
      ensures Body(contents[name]) == "\n" + c + "\n"
    {
      StripsExactly(contents[name], c);
    }
  }

  // ----- refusals

  /** Where the markers of a block stand among the markers of a document: `m` somewhere before `n`. */
  ghost predicate Precedes(l: seq<Marker>, m: Marker, n: Marker) {
    exists i, j :: 0 <= i < j < |l| && l[i] == m && l[j] == n
  }

  lemma {:induction false} OccurrenceIsMark(s: string, m: Marker, j: nat)
    requires ProperName(m.name) && OccursAt(s, Text(m), j)
    ensures m in Marks(s)
  {
    hide Text, ProperName, Marks, Match;
    assert s == s[..j] + (Text(m) + s[j + |Text(m)|..]);
    MarksAfter(m, s[j + |Text(m)|..]);
    MarksOfParts(s[..j], Text(m) + s[j + |Text(m)|..]);
  }

  /** The end marker is found before the start marker exactly if it is listed before it. */
  lemma FoundInOrder(s: string, start: Marker, end: Marker, i: nat, j: nat)
    requires ProperName(start.name) && ProperName(end.name) && start != end
    requires Find(s, Text(start)) == Some(i) && Find(s, Text(end)) == Some(j)
    ensures j < i <==> end in Marks(s[..i])
  {
    hide Text, ProperName, Marks, Match, Find;
    FindIsLeftmost(s, Text(start));
    FindIsLeftmost(s, Text(end));
    if j < i {
      NoOverlap(s, end, j, start, i);
      assert s[..i][j..] == s[j..][..i - j];
      OccurrenceIsMark(s[..i], end, j);
    }
    if end in Marks(s[..i]) {
      var k := MarkIsPresent(s[..i], end);
      WithinPrefix(s, i, k, Text(end));
    }
  }

  lemma OnlyThere(a: seq<Marker>, m: Marker, b: seq<Marker>, k: nat)
    requires multiset(a + ([m] + b))[m] == 1 && k < |a + ([m] + b)| && (a + ([m] + b))[k] == m
    ensures k == |a|
  {
    Repeats(a, m, b);
    Standing(a, m, b, k);
  }

  lemma ListedBefore(a: seq<Marker>, m: Marker, b: seq<Marker>, n: Marker)
    requires multiset(a + ([m] + b))[m] == 1 && m != n
    ensures n in a <==> Precedes(a + ([m] + b), n, m)
  {
    var l := a + ([m] + b);
    if n in a {
      var k :| 0 <= k < |a| && a[k] == n;
      assert l[k] == n && l[|a|] == m;
    }
    if Precedes(l, n, m) {
      var i, j :| 0 <= i < j < |l| && l[i] == n && l[j] == m;
      OnlyThere(a, m, b, j);
      assert a[i] == n;
    }
  }

  lemma ListedAfter(a: seq<Marker>, m: Marker, b: seq<Marker>, n: Marker)
    requires multiset(a + ([m] + b))[m] == 1 && m != n
    ensures n in b <==> Precedes(a + ([m] + b), m, n)
  {
    var l := a + ([m] + b);
    if n in b {
      var k :| 0 <= k < |b| && b[k] == n;
      assert l[|a| + 1 + k] == n && l[|a|] == m;
    }
    if Precedes(l, m, n) {
      var i, j :| 0 <= i < j < |l| && l[i] == m && l[j] == n;
      OnlyThere(a, m, b, i);
      assert b[j - |a| - 1] == n;
    }
  }

  lemma OnceSplits(a: seq<Marker>, m: Marker, b: seq<Marker>, n: Marker)
    requires multiset(a + [m] + b)[m] == 1 && m != n
    ensures n in a <==> Precedes(a + [m] + b, n, m)
    ensures n in b <==> Precedes(a + [m] + b, m, n)
  {
    hide Precedes;
    assert a + [m] + b == a + ([m] + b);
    ListedBefore(a, m, b, n);
    ListedAfter(a, m, b, n);
  }

  /** With one marker of each kind, the order of the texts is the order in the list. */
  lemma OnceInOrder(s: string, name: string, i: nat, j: nat)
    requires ProperName(name)
    requires multiset(Marks(s))[Marker(name, Start)] == 1 == multiset(Marks(s))[Marker(name, End)]
    requires Find(s, Text(Marker(name, Start))) == Some(i) && Find(s, Text(Marker(name, End))) == Some(j)
    ensures j < i <==> Precedes(Marks(s), Marker(name, End), Marker(name, Start))
    ensures j >= i <==> Precedes(Marks(s), Marker(name, Start), Marker(name, End))
  {
    hide Text, ProperName, Marks, Match, Find, Precedes;
    var start, end := Marker(name, Start), Marker(name, End);
    FoundMark(s, start);
    FoundInOrder(s, start, end, i, j);
    var before, after := Marks(s[..i]), Marks(s[i + |Text(start)|..]);
    OnceSplits(before, start, after, end);
    assert end in Marks(s) ==> end in before || end in after;
    OnlyOnceIn(before, start, after, end);
  }

  lemma OnlyOnceIn(a: seq<Marker>, m: Marker, b: seq<Marker>, n: Marker)
    requires multiset(a + [m] + b)[n] == 1 && m != n
    ensures n in a <==> n !in b
  {
    assert multiset(a + [m] + b) == multiset(a) + multiset([m]) + multiset(b);
  }

  lemma BothFound(s: string, name: string)
    requires ProperName(name)
    requires Marker(name, Start) in Marks(s) && Marker(name, End) in Marks(s)
    ensures Find(s, Text(Marker(name, Start))).Some? && Find(s, Text(Marker(name, End))).Some?
  {
    hide Text, ProperName, Marks, Match, Find;
    FoundMark(s, Marker(name, Start));
    FoundMark(s, Marker(name, End));
  }

  /** Why `replace_block` refuses a document, in terms of its markers. */
  lemma RefusesExactly(s: string, name: string, contents: string)
    requires ProperName(name)
    ensures var l, start, end := Marks(s), Marker(name, Start), Marker(name, End);
      var r := Replace(s, name, contents);
      && (r == Refused(Missing) <==> start !in l || end !in l)
      && (r == Refused(Repeated) <==> start in l && end in l && (multiset(l)[start] > 1 || multiset(l)[end] > 1))
      && (r == Refused(Misordered) <==> multiset(l)[start] == 1 == multiset(l)[end] && Precedes(l, end, start))
      && (r == Refused(Nested) <==>
            multiset(l)[start] == 1 == multiset(l)[end] && Precedes(l, start, end) && !OnePair(l, name))
      && (r.Ok? <==> OnePair(l, name))
  {
    hide Text, ProperName, Marks, Match, Find, Count, OnePair, Body, Slice, Precedes;
    var l, start, end := Marks(s), Marker(name, Start), Marker(name, End);
    CountIsMarks(s, start);
    CountIsMarks(s, end);
    ReplacesExactlyPairs(s, name, contents);
    if multiset(l)[start] == 1 == multiset(l)[end] {
      BothFound(s, name);
      OnceInOrder(s, name, Find(s, Text(start)).value, Find(s, Text(end)).value);
      OnePairPrecedes(l, name);
    }
  }

  lemma OnePairPrecedes(l: seq<Marker>, name: string)
    ensures OnePair(l, name) ==> Precedes(l, Marker(name, Start), Marker(name, End))
  {
  }

  /** A document is refused for its names exactly if some marker's name is not a block, or some block has no marker. */
  lemma RefusesNames(s: string, names: seq<string>, contents: map<string, string>)
    requires forall name :: name in names ==> name in contents
    ensures (exists m <- Marks(s) :: m.name !in names) ==> Render(s, names, contents) == Refused(UnknownBlock)
    ensures (forall m <- Marks(s) :: m.name in names) && (exists name <- names :: Avoids(Marks(s), name)) ==>
      Render(s, names, contents) == Refused(MissingBlock)
    ensures (forall m <- Marks(s) :: m.name in names) && (forall name <- names :: !Avoids(Marks(s), name)) ==>
      Render(s, names, contents) == Fold(s, names, contents)
  {
    hide Marks, Fold;
    var l := Marks(s);
    var found, wanted := NamesIn(l), set name | name in names;
    forall m | m in l ensures m.name in found {
    }
    if m :| m in l && m.name !in names {
      assert m.name in found - wanted;
    } else if name :| name in names && Avoids(l, name) {
      assert name in wanted && name !in found;
      assert found - wanted == {};
    } else {
      assert found == wanted;
    }
  }
}
