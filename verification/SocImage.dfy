/**
  tools/soc_image.py: an ELF file becomes two hexadecimal memory images.
 */
module SocImage {
  import opened Options
  import opened Bits
  import Hex
  import Lines

  type byte = x: int | 0 <= x < 256

  const SHT_NOBITS := 8
  const SHF_ALLOC := 2
  const EM_RISCV := 243
  const IMEM_BASE := 0x0000_0000
  const IMEM_LIMIT := 0x0000_8000
  const DMEM_BASE := 0x2000_0000
  const DMEM_LIMIT := 0x2000_8000
  const IMAGE_WORDS := 8192

  const ELF_HEADER_SIZE := 52
  const SECTION_HEADER_SIZE := 40

  datatype Section = Section(name: seq<byte>, kind: int, flags: int, address: int, offset: int, size: int,
                             data: seq<byte>)

  datatype Image = Image(entry: int, sections: seq<Section>)

  // ----- reading the file

  function Le16(data: seq<byte>, at: nat): nat
    requires at + 2 <= |data|
  {
    var low: int, high: int := data[at], data[at + 1];
    low + 0x100 * high
  }

  function Le32(data: seq<byte>, at: nat): nat
    requires at + 4 <= |data|
  {
    Le16(data, at) + 0x1_0000 * Le16(data, at + 2)
  }

  function BoundedSlice(data: seq<byte>, offset: int, size: int): Option<seq<byte>> {
    if offset < 0 || size < 0 || offset > |data| || size > |data| - offset then None
    else Some(data[offset..offset + size])
  }

  /** Index of the first zero byte at or after `from`. */
  function FindZero(table: seq<byte>, from: nat): Option<nat>
    decreases |table| - from
  {
    if from >= |table| then None else if table[from] == 0 then Some(from) else FindZero(table, from + 1)
  }

  function SectionName(utf8: seq<byte> -> bool, table: seq<byte>, offset: nat): Option<seq<byte>> {
    match FindZero(table, offset)
    case None => None
    case Some(end) =>
      if offset <= end <= |table| && utf8(table[offset..end]) then Some(table[offset..end]) else None
  }

  datatype Header = Header(entry: nat, sectionOffset: nat, sectionCount: nat, stringIndex: nat)

  function ReadHeader(data: seq<byte>): Option<Header> {
    if |data| < ELF_HEADER_SIZE then None
    else if data[..4] != [0x7F, 'E' as int, 'L' as int, 'F' as int] then None
    else if data[4] != 1 || data[5] != 1 || data[6] != 1 || Le32(data, 20) != 1 then None
    else
      var h := Header(Le32(data, 24), Le32(data, 32), Le16(data, 48), Le16(data, 50));
      var bytes := h.sectionCount * SECTION_HEADER_SIZE;
      if Le16(data, 18) != EM_RISCV then None
      else if Le16(data, 40) != ELF_HEADER_SIZE || Le16(data, 46) != SECTION_HEADER_SIZE then None
      else if h.sectionCount == 0 || h.stringIndex >= h.sectionCount then None
      else if h.sectionOffset > |data| || bytes > |data| - h.sectionOffset then None
      else if h.entry >= IMEM_LIMIT then None
      else Some(h)
  }

  datatype RawSection = RawSection(nameOffset: nat, kind: nat, flags: nat, address: nat, offset: nat, size: nat)

  function ReadSection(data: seq<byte>, at: nat): RawSection
    requires at + SECTION_HEADER_SIZE <= |data|
  {
    RawSection(Le32(data, at), Le32(data, at + 4), Le32(data, at + 8), Le32(data, at + 12), Le32(data, at + 16),
               Le32(data, at + 20))
  }

  predicate InInstructionMemory(address: int, end: int) { IMEM_BASE <= address && end <= IMEM_LIMIT }

  predicate InDataMemory(address: int, end: int) { DMEM_BASE <= address && end <= DMEM_LIMIT }

  datatype Outcome = Rejected | Skipped | Kept(section: Section)

  /** One turn of the section loop. */
  function Classify(utf8: seq<byte> -> bool, data: seq<byte>, names: seq<byte>, raw: RawSection): Outcome {
    var name := SectionName(utf8, names, raw.nameOffset);
    var content := if raw.kind == SHT_NOBITS then Some([]) else BoundedSlice(data, raw.offset, raw.size);
    if name.None? || content.None? then Rejected
    else if And(raw.flags, SHF_ALLOC) == 0 then Skipped
    else
      var end := raw.address + raw.size;
      if end > 0x1_0000_0000 then Rejected
      else if !InInstructionMemory(raw.address, end) && !InDataMemory(raw.address, end) then Rejected
      else Kept(Section(name.value, raw.kind, raw.flags, raw.address, raw.offset, raw.size, content.value))
  }

  /** The allocated sections among headers 1 to `i`; header 0 is never looked at. */
  function Collect(utf8: seq<byte> -> bool, data: seq<byte>, names: seq<byte>, base: nat, i: nat): Option<seq<Section>>
    requires base + (i + 1) * SECTION_HEADER_SIZE <= |data|
  {
    if i == 0 then Some([])
    else
      match Collect(utf8, data, names, base, i - 1)
      case None => None
      case Some(before) =>
        match Classify(utf8, data, names, ReadSection(data, base + i * SECTION_HEADER_SIZE))
        case Rejected => None
        case Skipped => Some(before)
        case Kept(section) => Some(before + [section])
  }

  // ----- the overlap check

  /** Address range `[from, end)` of a non-empty section. */
  datatype Range = Range(from: int, end: int)

  function RangesOf(sections: seq<Section>): seq<Range> {
    if sections == [] then []
    else
      var s := sections[|sections| - 1];
      RangesOf(sections[..|sections| - 1]) + if s.size != 0 then [Range(s.address, s.address + s.size)] else []
  }

  predicate Before(a: Range, b: Range) { a.from < b.from || (a.from == b.from && a.end <= b.end) }

  function Insert(r: Range, sorted: seq<Range>): seq<Range> {
    if sorted == [] || Before(r, sorted[0]) then [r] + sorted else [sorted[0]] + Insert(r, sorted[1..])
  }

  /** `ranges.sort()` */
  function Sort(ranges: seq<Range>): seq<Range> {
    if ranges == [] then [] else Insert(ranges[|ranges| - 1], Sort(ranges[..|ranges| - 1]))
  }

  /** The check over adjacent pairs. */
  predicate NoAdjacentOverlap(sorted: seq<Range>) {
    forall k :: 0 < k < |sorted| ==> sorted[k - 1].end <= sorted[k].from
  }

  /** The section-name string table. */
  function NameTable(data: seq<byte>, h: Header): Option<seq<byte>>
    requires h.stringIndex < h.sectionCount && h.sectionOffset + h.sectionCount * SECTION_HEADER_SIZE <= |data|
  {
    var strings := ReadSection(data, h.sectionOffset + h.stringIndex * SECTION_HEADER_SIZE);
    if strings.kind == SHT_NOBITS then None else BoundedSlice(data, strings.offset, strings.size)
  }

  /** What `parse_elf` returns; `None` when it raises. */
  function Parsed(utf8: seq<byte> -> bool, data: seq<byte>): Option<Image> {
    match ReadHeader(data)
    case None => None
    case Some(h) =>
      match NameTable(data, h)
      case None => None
      case Some(names) =>
        match Collect(utf8, data, names, h.sectionOffset, h.sectionCount - 1)
        case None => None
        case Some(sections) =>
          if NoAdjacentOverlap(Sort(RangesOf(sections))) then Some(Image(h.entry, sections)) else None
  }

  lemma {:induction false} RejectedOnce(utf8: seq<byte> -> bool, data: seq<byte>, names: seq<byte>,
                                        base: nat, i: nat, j: nat)
    requires i <= j && base + (j + 1) * SECTION_HEADER_SIZE <= |data|
    requires Collect(utf8, data, names, base, i).None?
    ensures Collect(utf8, data, names, base, j).None?
    decreases j
  {
    hide Classify, ReadSection;
    if i < j {
      RejectedOnce(utf8, data, names, base, i, j - 1);
    }
  }

  lemma RangesAppend(sections: seq<Section>, s: Section)
    ensures RangesOf(sections + [s])
         == RangesOf(sections) + if s.size != 0 then [Range(s.address, s.address + s.size)] else []
  {
    assert (sections + [s])[..|sections|] == sections;
  }

  lemma NextSection(utf8: seq<byte> -> bool, data: seq<byte>, names: seq<byte>, base: nat, i: nat)
    requires i > 0 && base + (i + 1) * SECTION_HEADER_SIZE <= |data|
    ensures Collect(utf8, data, names, base, i)
         == match Collect(utf8, data, names, base, i - 1)
            case None => None
            case Some(before) =>
              match Classify(utf8, data, names, ReadSection(data, base + i * SECTION_HEADER_SIZE))
              case Rejected => None
              case Skipped => Some(before)
              case Kept(section) => Some(before + [section])
  {
    hide Classify, ReadSection;
  }

  /** The section loop, with the address ranges it gathers for the overlap check. */
  method CollectSections(utf8: seq<byte> -> bool, data: seq<byte>, names: seq<byte>, base: nat, count: nat)
    returns (r: Option<(seq<Section>, seq<Range>)>)
    requires count > 0 && base + count * SECTION_HEADER_SIZE <= |data|
    ensures var sections := Collect(utf8, data, names, base, count - 1);
      r == if sections.Some? then Some((sections.value, RangesOf(sections.value))) else None
  {
    hide Classify, ReadSection, Collect, RangesOf;
    var sections: seq<Section> := [];
    var ranges: seq<Range> := [];
    CollectNone(utf8, data, names, base);
    for i := 1 to count
      invariant Collect(utf8, data, names, base, i - 1) == Some(sections)
      invariant ranges == RangesOf(sections)
    {
      NextSection(utf8, data, names, base, i);
      var outcome := Classify(utf8, data, names, ReadSection(data, base + i * SECTION_HEADER_SIZE));
      if outcome.Rejected? {
        RejectedOnce(utf8, data, names, base, i, count - 1);
        return None;
      }
      if outcome.Kept? {
        var section := outcome.section;
        RangesAppend(sections, section);
        if section.size != 0 {
          ranges := ranges + [Range(section.address, section.address + section.size)];
        }
        sections := sections + [section];
      }
    }
    r := Some((sections, ranges));
  }

  lemma HeaderFits(data: seq<byte>)
    requires ReadHeader(data).Some?
    ensures var h := ReadHeader(data).value;
      h.stringIndex < h.sectionCount && h.sectionOffset + h.sectionCount * SECTION_HEADER_SIZE <= |data|
  {
  }

  method ParseElf(utf8: seq<byte> -> bool, data: seq<byte>) returns (r: Option<Image>)
    ensures r == Parsed(utf8, data)
  {
    hide ReadHeader, NameTable, Collect, RangesOf, NoAdjacentOverlap, Sort;
    var header := ReadHeader(data);
    if header.None? {
      return None;
    }
    HeaderFits(data);
    var h := header.value;
    var names := NameTable(data, h);
    if names.None? {
      return None;
    }
    var collected := CollectSections(utf8, data, names.value, h.sectionOffset, h.sectionCount);
    if collected.None? {
      return None;
    }
    var (sections, ranges) := collected.value;
    if !NoAdjacentOverlap(Sort(ranges)) {
      return None;
    }
    r := Some(Image(h.entry, sections));
  }

  lemma CollectNone(utf8: seq<byte> -> bool, data: seq<byte>, names: seq<byte>, base: nat)
    requires base + SECTION_HEADER_SIZE <= |data|
    ensures Collect(utf8, data, names, base, 0) == Some([]) && RangesOf([]) == []
  {
  }

  // ----- the adjacent check means pairwise disjoint

  predicate Disjoint(a: Range, b: Range) { a.end <= b.from || b.end <= a.from }

  ghost predicate PairwiseDisjoint(ranges: seq<Range>) {
    forall i, j :: 0 <= i < j < |ranges| ==> Disjoint(ranges[i], ranges[j])
  }

  predicate NonEmpty(ranges: seq<Range>) { forall r <- ranges :: r.from < r.end }

  predicate Sorted(ranges: seq<Range>) { forall i, j :: 0 <= i < j < |ranges| ==> Before(ranges[i], ranges[j]) }

  /** One range against a list. */
  ghost predicate Clear(r: Range, ranges: seq<Range>) { forall x <- ranges :: Disjoint(r, x) }

  lemma ConsDisjoint(r: Range, ranges: seq<Range>)
    ensures PairwiseDisjoint([r] + ranges) <==> Clear(r, ranges) && PairwiseDisjoint(ranges)
  {
    var all := [r] + ranges;
    if PairwiseDisjoint(all) {
      forall x | x in ranges
        ensures Disjoint(r, x)
      {
        var k :| 0 <= k < |ranges| && ranges[k] == x;
        assert all[k + 1] == x && Disjoint(all[0], all[k + 1]);
      }
      forall i, j | 0 <= i < j < |ranges|
        ensures Disjoint(ranges[i], ranges[j])
      {
        assert Disjoint(all[i + 1], all[j + 1]);
      }
    }
    if Clear(r, ranges) && PairwiseDisjoint(ranges) {
      forall i, j | 0 <= i < j < |all|
        ensures Disjoint(all[i], all[j])
      {
        assert all[j] == ranges[j - 1];
      }
    }
  }

  lemma {:induction false} InsertKeepsAll(r: Range, sorted: seq<Range>)
    ensures multiset(Insert(r, sorted)) == multiset([r] + sorted)
    ensures forall x :: x in Insert(r, sorted) <==> x == r || x in sorted
    decreases |sorted|
  {
    if !(sorted == [] || Before(r, sorted[0])) {
      var head, tail := sorted[0], sorted[1..];
      assert sorted == [head] + tail;
      InsertKeepsAll(r, tail);
    }
  }

  ghost predicate Least(r: Range, ranges: seq<Range>) { forall x <- ranges :: Before(r, x) }

  lemma ConsSorted(r: Range, ranges: seq<Range>)
    ensures Sorted([r] + ranges) <==> Least(r, ranges) && Sorted(ranges)
  {
    var all := [r] + ranges;
    if Sorted(all) {
      forall x | x in ranges
        ensures Before(r, x)
      {
        var k :| 0 <= k < |ranges| && ranges[k] == x;
        assert all[k + 1] == x && Before(all[0], all[k + 1]);
      }
      forall i, j | 0 <= i < j < |ranges|
        ensures Before(ranges[i], ranges[j])
      {
        assert Before(all[i + 1], all[j + 1]);
      }
    }
    if Least(r, ranges) && Sorted(ranges) {
      forall i, j | 0 <= i < j < |all|
        ensures Before(all[i], all[j])
      {
        assert all[j] == ranges[j - 1];
      }
    }
  }

  lemma {:induction false} InsertKeepsSorted(r: Range, sorted: seq<Range>)
    requires Sorted(sorted)
    ensures Sorted(Insert(r, sorted))
    decreases |sorted|
  {
    hide Sorted;
    if sorted == [] {
      ConsSorted(r, []);
      NothingSorted();
    } else {
      var head, tail := sorted[0], sorted[1..];
      assert sorted == [head] + tail;
      ConsSorted(head, tail);
      if Before(r, head) {
        ConsSorted(r, sorted);
      } else {
        InsertKeepsSorted(r, tail);
        InsertKeepsAll(r, tail);
        ConsSorted(head, Insert(r, tail));
      }
    }
  }

  lemma NothingSorted()
    ensures Sorted([])
  {
  }

  lemma {:induction false} InsertKeepsDisjoint(r: Range, sorted: seq<Range>)
    ensures PairwiseDisjoint(Insert(r, sorted)) <==> PairwiseDisjoint([r] + sorted)
    decreases |sorted|
  {
    hide PairwiseDisjoint;
    if !(sorted == [] || Before(r, sorted[0])) {
      var head, tail := sorted[0], sorted[1..];
      assert sorted == [head] + tail;
      InsertKeepsDisjoint(r, tail);
      InsertKeepsAll(r, tail);
      ConsDisjoint(head, Insert(r, tail));
      ConsDisjoint(r, sorted);
      ConsDisjoint(head, tail);
      ConsDisjoint(r, tail);
      ClearOfMore(head, tail, r, Insert(r, tail));
      ClearOfMore(r, tail, head, sorted);
    }
  }

  lemma ClearOfMore(x: Range, ranges: seq<Range>, r: Range, more: seq<Range>)
    requires forall y :: y in more <==> y == r || y in ranges
    ensures Clear(x, more) <==> Disjoint(x, r) && Clear(x, ranges)
  {
    assert r in more;
  }

  lemma SnocDisjoint(ranges: seq<Range>, r: Range)
    ensures PairwiseDisjoint(ranges + [r]) <==> PairwiseDisjoint([r] + ranges)
  {
    hide PairwiseDisjoint;
    ConsDisjoint(r, ranges);
    ClearLast(ranges, r);
  }

  lemma ClearLast(ranges: seq<Range>, r: Range)
    ensures PairwiseDisjoint(ranges + [r]) <==> Clear(r, ranges) && PairwiseDisjoint(ranges)
  {
    var all := ranges + [r];
    if PairwiseDisjoint(all) {
      forall x | x in ranges
        ensures Disjoint(r, x)
      {
        var k :| 0 <= k < |ranges| && ranges[k] == x;
        assert Disjoint(all[k], all[|ranges|]);
      }
      forall i, j | 0 <= i < j < |ranges|
        ensures Disjoint(ranges[i], ranges[j])
      {
        assert Disjoint(all[i], all[j]);
      }
    }
    if Clear(r, ranges) && PairwiseDisjoint(ranges) {
      forall i, j | 0 <= i < j < |all|
        ensures Disjoint(all[i], all[j])
      {
        assert all[i] == ranges[i] && ranges[i] in ranges;
        if j < |ranges| {
          assert all[j] == ranges[j];
        }
      }
    }
  }

  /** Sorting reorders and nothing else. */
  lemma {:induction false} SortKeeps(ranges: seq<Range>)
    ensures Sorted(Sort(ranges))
    ensures multiset(Sort(ranges)) == multiset(ranges)
    ensures PairwiseDisjoint(Sort(ranges)) <==> PairwiseDisjoint(ranges)
    ensures forall x :: x in Sort(ranges) <==> x in ranges
    decreases |ranges|
  {
    hide PairwiseDisjoint, Sorted, Insert;
    if ranges == [] {
      NothingSorted();
    } else {
      var init, r := ranges[..|ranges| - 1], ranges[|ranges| - 1];
      assert ranges == init + [r];
      SortKeeps(init);
      var before := Sort(init);
      InsertKeepsSorted(r, before);
      InsertKeepsAll(r, before);
      InsertKeepsDisjoint(r, before);
      SnocDisjoint(init, r);
      ConsDisjoint(r, init);
      ConsDisjoint(r, before);
    }
  }

  /** In a sorted list of non-empty ranges it is enough to look at neighbours. */
  lemma {:induction false} NeighboursDecide(sorted: seq<Range>)
    requires Sorted(sorted) && NonEmpty(sorted)
    ensures NoAdjacentOverlap(sorted) <==> PairwiseDisjoint(sorted)
  {
    if NoAdjacentOverlap(sorted) {
      forall i, j | 0 <= i < j < |sorted|
        ensures Disjoint(sorted[i], sorted[j])
      {
        EndsBefore(sorted, i, j);
      }
    }
    if PairwiseDisjoint(sorted) {
      forall k | 0 < k < |sorted|
        ensures sorted[k - 1].end <= sorted[k].from
      {
        assert Disjoint(sorted[k - 1], sorted[k]) && Before(sorted[k - 1], sorted[k]);
        assert sorted[k - 1] in sorted && sorted[k] in sorted;
      }
    }
  }

  lemma {:induction false} EndsBefore(sorted: seq<Range>, i: nat, j: nat)
    requires NoAdjacentOverlap(sorted) && NonEmpty(sorted) && i < j < |sorted|
    ensures sorted[i].end <= sorted[j].from
    decreases j
  {
    if i < j - 1 {
      EndsBefore(sorted, i, j - 1);
      assert sorted[j - 1] in sorted;
    }
  }

  // ----- accepted images

  /** Two sections never share an address. */
  predicate Apart(a: Section, b: Section) {
    a.size == 0 || b.size == 0 || a.address + a.size <= b.address || b.address + b.size <= a.address
  }

  ghost predicate AllApart(sections: seq<Section>) {
    forall i, j :: 0 <= i < j < |sections| ==> Apart(sections[i], sections[j])
  }

  function RangeOf(s: Section): Range { Range(s.address, s.address + s.size) }

  lemma {:induction false} RangeIsMember(sections: seq<Section>, k: nat)
    requires k < |sections| && sections[k].size != 0
    ensures RangeOf(sections[k]) in RangesOf(sections)
    decreases |sections|
  {
    var n := |sections| - 1;
    if k < n {
      RangeIsMember(sections[..n], k);
    }
  }

  lemma {:induction false} MemberIsRange(sections: seq<Section>, r: Range) returns (k: nat)
    requires r in RangesOf(sections)
    ensures k < |sections| && SameRange(sections[k], r)
    decreases |sections|
  {
    var n := |sections| - 1;
    if r in RangesOf(sections[..n]) {
      k := MemberIsRange(sections[..n], r);
    } else {
      k := n;
    }
  }

  /** A section's range is clear of the others' exactly when the sections are apart. */
  lemma ClearIsApart(sections: seq<Section>, s: Section)
    requires s.size != 0
    ensures Clear(RangeOf(s), RangesOf(sections)) <==> forall k :: 0 <= k < |sections| ==> Apart(sections[k], s)
  {
    hide RangesOf;
    forall k | 0 <= k < |sections| && sections[k].size != 0
      ensures RangeOf(sections[k]) in RangesOf(sections)
    {
      RangeIsMember(sections, k);
    }
    forall r | r in RangesOf(sections)
      ensures exists k :: 0 <= k < |sections| && SameRange(sections[k], r)
    {
      var k := MemberIsRange(sections, r);
    }
    if Clear(RangeOf(s), RangesOf(sections)) {
      forall k | 0 <= k < |sections|
        ensures Apart(sections[k], s)
      {
        if sections[k].size != 0 {
          assert Disjoint(RangeOf(s), RangeOf(sections[k]));
        }
      }
    }
  }

  /** The check on the ranges is the property of the sections. */
  lemma {:induction false} RangesDescribe(sections: seq<Section>)
    ensures PairwiseDisjoint(RangesOf(sections)) <==> AllApart(sections)
    decreases |sections|
  {
    hide PairwiseDisjoint, AllApart, Clear, Apart;
    if sections == [] {
      NothingApart();
    } else {
      var n := |sections| - 1;
      var init, s := sections[..n], sections[n];
      assert sections == init + [s];
      RangesDescribe(init);
      AppendApart(init, s);
      if s.size != 0 {
        ClearLast(RangesOf(init), RangeOf(s));
        ClearIsApart(init, s);
      } else {
        assert RangesOf(sections) == RangesOf(init);
        EmptyIsApart(init, s);
      }
    }
  }

  lemma EmptyIsApart(sections: seq<Section>, s: Section)
    requires s.size == 0
    ensures forall k :: 0 <= k < |sections| ==> Apart(sections[k], s)
  {
  }

  lemma RangesAreNonEmpty(sections: seq<Section>)
    requires forall s <- sections :: s.size >= 0
    ensures NonEmpty(RangesOf(sections))
  {
    forall r | r in RangesOf(sections)
      ensures r.from < r.end
    {
      var k := MemberIsRange(sections, r);
      assert sections[k] in sections;
    }
  }

  predicate SameRange(s: Section, r: Range) { s.size != 0 && r == Range(s.address, s.address + s.size) }

  lemma NothingApart()
    ensures AllApart([]) && PairwiseDisjoint([])
  {
  }

  lemma AppendApart(init: seq<Section>, s: Section)
    ensures AllApart(init + [s]) <==> AllApart(init) && forall k :: 0 <= k < |init| ==> Apart(init[k], s)
  {
    var all := init + [s];
    if AllApart(all) {
      forall i, j | 0 <= i < j < |init|
        ensures Apart(init[i], init[j])
      {
        assert Apart(all[i], all[j]);
      }
      forall k | 0 <= k < |init|
        ensures Apart(init[k], s)
      {
        assert Apart(all[k], all[|init|]);
      }
    }
  }

  /** What the section loop guarantees of every section it keeps. */
  predicate Located(s: Section) {
    && s.size >= 0
    && (InInstructionMemory(s.address, s.address + s.size) || InDataMemory(s.address, s.address + s.size))
    && (s.kind == SHT_NOBITS ==> s.data == [])
    && (s.kind != SHT_NOBITS ==> |s.data| == s.size)
  }

  lemma ClassifyLocates(utf8: seq<byte> -> bool, data: seq<byte>, names: seq<byte>, raw: RawSection)
    requires Classify(utf8, data, names, raw).Kept?
    ensures Located(Classify(utf8, data, names, raw).section)
  {
  }

  lemma {:induction false} CollectLocates(utf8: seq<byte> -> bool, data: seq<byte>, names: seq<byte>, base: nat, i: nat)
    requires base + (i + 1) * SECTION_HEADER_SIZE <= |data| && Collect(utf8, data, names, base, i).Some?
    ensures forall s <- Collect(utf8, data, names, base, i).value :: Located(s)
    decreases i
  {
    hide Classify, ReadSection, Located;
    if i > 0 {
      CollectLocates(utf8, data, names, base, i - 1);
      var raw := ReadSection(data, base + i * SECTION_HEADER_SIZE);
      if Classify(utf8, data, names, raw).Kept? {
        ClassifyLocates(utf8, data, names, raw);
      }
    }
  }

  /** The sections of an image the parser accepts. */
  ghost predicate Accepted(image: Image) {
    && 0 <= image.entry < IMEM_LIMIT
    && (forall s <- image.sections :: Located(s))
    && AllApart(image.sections)
  }

  /** Every accepted file yields sections inside the memories, pairwise disjoint when not empty. */
  lemma ParsedIsAccepted(utf8: seq<byte> -> bool, data: seq<byte>)
    requires Parsed(utf8, data).Some?
    ensures Accepted(Parsed(utf8, data).value)
  {
    hide Collect, NoAdjacentOverlap, PairwiseDisjoint, AllApart, Sort, RangesOf, NameTable;
    var h := ReadHeader(data).value;
    var names := NameTable(data, h).value;
    CollectLocates(utf8, data, names, h.sectionOffset, h.sectionCount - 1);
    var sections := Collect(utf8, data, names, h.sectionOffset, h.sectionCount - 1).value;
    OverlapCheckIsExact(sections);
  }

  /** The check over sorted neighbours accepts exactly the lists of pairwise disjoint sections. */
  lemma OverlapCheckIsExact(sections: seq<Section>)
    requires forall s <- sections :: s.size >= 0
    ensures NoAdjacentOverlap(Sort(RangesOf(sections))) <==> AllApart(sections)
  {
    hide Sort, RangesOf, NoAdjacentOverlap, PairwiseDisjoint, AllApart;
    SortKeeps(RangesOf(sections));
    RangesAreNonEmpty(sections);
    RangesDescribe(sections);
    NeighboursDecide(Sort(RangesOf(sections)));
  }

  // ----- memory images

  predicate Covers(s: Section, a: int) {
    s.kind != SHT_NOBITS && s.address <= a < s.address + s.size <= s.address + |s.data|
  }

  /** The byte the sections put at address `a`; the last section written wins. */
  function Content(sections: seq<Section>, a: int): byte {
    if sections == [] then 0
    else
      var s := sections[|sections| - 1];
      if Covers(s, a) then s.data[a - s.address] else Content(sections[..|sections| - 1], a)
  }

  predicate InInstructions(s: Section) { s.address < IMEM_LIMIT }

  predicate TooBig(s: Section, imemBytes: int, dmemBytes: int) {
    var start := s.address - (if InInstructions(s) then IMEM_BASE else DMEM_BASE);
    var length := if InInstructions(s) then imemBytes else dmemBytes;
    start > length || s.size > length - start
  }

  function WordsOf(bytes: seq<byte>): seq<int>
    requires |bytes| % 4 == 0
  {
    seq(|bytes| / 4, k requires 0 <= k < |bytes| / 4 => Le32(bytes, 4 * k))
  }

  function ContentBytes(sections: seq<Section>, base: int, length: nat): seq<byte> {
    seq<byte>(length, o requires 0 <= o < length => Content(sections, base + o))
  }

  predicate GoodCapacity(words: int) { 0 < words <= IMAGE_WORDS }

  method BuildImages(image: Image, imemWords: int, dmemWords: int) returns (r: Option<(seq<int>, seq<int>)>)
    requires forall s <- image.sections :: Located(s)
    ensures r.Some? <==>
      && 0 < imemWords <= 8192 && 0 < dmemWords <= 8192
      && forall s <- image.sections ::
           if s.address < 0x8000 then s.address + s.size <= 4 * imemWords
           else s.address - 0x2000_0000 + s.size <= 4 * dmemWords
    ensures r.Some? ==>
      r.value == (WordsOf(ContentBytes(image.sections, IMEM_BASE, 4 * imemWords)),
                  WordsOf(ContentBytes(image.sections, DMEM_BASE, 4 * dmemWords)))
  {
    hide Content, WordsOf;
    if !GoodCapacity(imemWords) || !GoodCapacity(dmemWords) {
      return None;
    }
    var imem := new byte[imemWords * 4](_ => 0);
    var dmem := new byte[dmemWords * 4](_ => 0);
    NothingWritten(IMEM_BASE, imem[..]);
    NothingWritten(DMEM_BASE, dmem[..]);
    for i := 0 to |image.sections|
      invariant imem[..] == ContentBytes(image.sections[..i], IMEM_BASE, imem.Length)
      invariant dmem[..] == ContentBytes(image.sections[..i], DMEM_BASE, dmem.Length)
      invariant forall s <- image.sections[..i] :: !TooBig(s, imem.Length, dmem.Length)
    {
      var section := image.sections[i];
      assert image.sections[..i + 1] == image.sections[..i] + [section];
      if TooBig(section, imem.Length, dmem.Length) {
        assert section in image.sections;
        return None;
      }
      NextContent(image.sections[..i], section, imem.Length, dmem.Length);
      if InInstructions(section) {
        Place(imem, section, IMEM_BASE);
      } else {
        Place(dmem, section, DMEM_BASE);
      }
    }
    assert image.sections[..|image.sections|] == image.sections;
    r := Some((WordsOf(imem[..]), WordsOf(dmem[..])));
  }

  /** The bytes of `target` with the section's content laid over them. */
  function Overlaid(bytes: seq<byte>, s: Section, base: int): seq<byte> {
    seq<byte>(|bytes|, o requires 0 <= o < |bytes| =>
      if Covers(s, base + o) then s.data[base + o - s.address] else bytes[o])
  }

  /** Slice assignment of a section's content into a memory image. */
  method Place(target: array<byte>, s: Section, base: int)
    requires Located(s)
    requires s.size > 0 ==> base <= s.address && s.address - base + s.size <= target.Length
    modifies target
    ensures target[..] == Overlaid(old(target[..]), s, base)
  {
    ghost var before := target[..];
    if s.kind != SHT_NOBITS {
      for j := 0 to s.size
        invariant forall o :: 0 <= o < target.Length ==>
          target[o] == if s.address <= base + o < s.address + j then s.data[base + o - s.address] else before[o]
      {
        target[s.address - base + j] := s.data[j];
      }
    }
    assert |target[..]| == |before|;
    forall o | 0 <= o < target.Length
      ensures target[..][o] == Overlaid(before, s, base)[o]
    {
      assert Covers(s, base + o) <==> s.kind != SHT_NOBITS && s.address <= base + o < s.address + s.size;
    }
  }

  lemma NothingWritten(base: int, bytes: seq<byte>)
    requires forall o :: 0 <= o < |bytes| ==> bytes[o] == 0
    ensures bytes == ContentBytes([], base, |bytes|)
  {
    forall o | 0 <= o < |bytes|
      ensures bytes[o] == ContentBytes([], base, |bytes|)[o]
    {
      assert Content([], base + o) == 0;
    }
  }

  /** Writing a section into its own image is the next content of both images. */
  lemma NextContent(before: seq<Section>, s: Section, imemBytes: nat, dmemBytes: nat)
    requires Located(s) && imemBytes <= 0x8000 && dmemBytes <= 0x8000
    ensures ContentBytes(before + [s], IMEM_BASE, imemBytes)
         == if InInstructions(s) then Overlaid(ContentBytes(before, IMEM_BASE, imemBytes), s, IMEM_BASE)
            else ContentBytes(before, IMEM_BASE, imemBytes)
    ensures ContentBytes(before + [s], DMEM_BASE, dmemBytes)
         == if InInstructions(s) then ContentBytes(before, DMEM_BASE, dmemBytes)
            else Overlaid(ContentBytes(before, DMEM_BASE, dmemBytes), s, DMEM_BASE)
  {
    forall a: int
      ensures Content(before + [s], a) == if Covers(s, a) then s.data[a - s.address] else Content(before, a)
    {
      assert (before + [s])[..|before|] == before;
    }
  }

  /** At the capacity the tool uses every accepted section fits. */
  lemma FullCapacityFits(s: Section)
    requires Located(s)
    ensures if s.address < 0x8000 then s.address + s.size <= 4 * 8192 else s.address - 0x2000_0000 + s.size <= 4 * 8192
  {
  }

  // ----- independence of order

  /** In an accepted image the covering section is unique, so the order of sections is irrelevant. */
  lemma {:induction false} ContentIsTheSection(sections: seq<Section>, k: nat, a: int)
    requires AllApart(sections) && k < |sections| && Covers(sections[k], a)
    ensures Content(sections, a) == sections[k].data[a - sections[k].address]
    decreases |sections|
  {
    var n := |sections| - 1;
    if k < n {
      assert Apart(sections[k], sections[n]);
      assert sections[..n][k] == sections[k];
      ContentIsTheSection(sections[..n], k, a);
    }
  }

  lemma {:induction false} ContentElsewhere(sections: seq<Section>, a: int)
    requires forall k :: 0 <= k < |sections| ==> !Covers(sections[k], a)
    ensures Content(sections, a) == 0
    decreases |sections|
  {
    if sections != [] {
      var n := |sections| - 1;
      assert forall k :: 0 <= k < n ==> sections[..n][k] == sections[k];
      ContentElsewhere(sections[..n], a);
    }
  }

  lemma OrderIsIrrelevant(a: seq<Section>, b: seq<Section>, at: int)
    requires AllApart(a) && AllApart(b) && multiset(a) == multiset(b)
    ensures Content(a, at) == Content(b, at)
  {
    hide Content, AllApart;
    if exists k :: 0 <= k < |a| && Covers(a[k], at) {
      var k :| 0 <= k < |a| && Covers(a[k], at);
      assert a[k] in multiset(b);
      var j :| 0 <= j < |b| && b[j] == a[k];
      ContentIsTheSection(a, k, at);
      ContentIsTheSection(b, j, at);
    } else {
      forall j | 0 <= j < |b|
        ensures !Covers(b[j], at)
      {
        assert b[j] in multiset(a);
      }
      ContentElsewhere(a, at);
      ContentElsewhere(b, at);
    }
  }

  // ----- the hexadecimal files

  predicate AllWords(words: seq<int>) { forall k :: 0 <= k < |words| ==> 0 <= words[k] < WORD }

  /** `write_hex`: one word a line. */
  function HexFile(words: seq<int>): string
    requires AllWords(words)
  {
    Lines.Joined(HexLines(words))
  }

  function HexLines(words: seq<int>): seq<string>
    requires AllWords(words)
  {
    seq(|words|, k requires 0 <= k < |words| => Hex.Print(words[k], 8))
  }

  lemma HexFileReadsBack(words: seq<int>, k: nat)
    requires AllWords(words) && k < |words|
    ensures var file := Lines.Split(HexFile(words));
      file.rest == "" && |file.lines| == |words| && |file.lines[k]| == 8 && Hex.Parse(file.lines[k]) == Some(words[k])
  {
    hide Hex.Print, Hex.Parse, Lines.Split, Lines.Joined;
    forall j | 0 <= j < |words|
      ensures Lines.IsLine(HexLines(words)[j])
    {
      Hex.PrintedIsLine(words[j]);
    }
    Lines.SplitJoined(HexLines(words));
    Hex.WordRoundTrip(words[k]);
  }

  // ----- from file to file

  /** Byte `o` of a hexadecimal image file: byte o mod 4, low byte first, of line o / 4. */
  function FileByte(file: string, o: nat): Option<int> {
    var lines := Lines.Split(file).lines;
    if o / 4 >= |lines| then None
    else match Hex.Parse(lines[o / 4])
      case None => None
      case Some(w) => Some(ByteOf(w, o % 4))
  }

  function ByteOf(w: int, i: int): int
    requires 0 <= i < 4
  {
    (if i == 0 then w else if i == 1 then w / 0x100 else if i == 2 then w / 0x1_0000 else w / 0x100_0000) % 0x100
  }

  lemma WordBytes(b0: int, b1: int, b2: int, b3: int)
    requires 0 <= b0 < 256 && 0 <= b1 < 256 && 0 <= b2 < 256 && 0 <= b3 < 256
    ensures var w := b0 + 0x100 * b1 + 0x1_0000 * (b2 + 0x100 * b3);
      && 0 <= w < WORD
      && ByteOf(w, 0) == b0 && ByteOf(w, 1) == b1 && ByteOf(w, 2) == b2 && ByteOf(w, 3) == b3
  {
    var w := b0 + 0x100 * b1 + 0x1_0000 * (b2 + 0x100 * b3);
    var high := b2 + 0x100 * b3;
    DivModUnique(w, 0x100, b1 + 0x100 * high, b0);
    DivModUnique(w, 0x1_0000, high, b0 + 0x100 * b1);
    DivModUnique(w, 0x100_0000, b3, b0 + 0x100 * b1 + 0x1_0000 * b2);
    DivModUnique(b1 + 0x100 * high, 0x100, high, b1);
    DivModUnique(high, 0x100, b3, b2);
  }

  lemma WordHoldsBytes(bytes: seq<byte>, o: nat)
    requires |bytes| % 4 == 0 && o < |bytes|
    ensures 0 <= WordsOf(bytes)[o / 4] < WORD && ByteOf(WordsOf(bytes)[o / 4], o % 4) == bytes[o]
  {
    hide ByteOf;
    var k := 4 * (o / 4);
    assert o == k + o % 4;
    WordBytes(bytes[k], bytes[k + 1], bytes[k + 2], bytes[k + 3]);
  }

  lemma FileHoldsBytes(bytes: seq<byte>, o: nat)
    requires |bytes| % 4 == 0 && o < |bytes|
    ensures AllWords(WordsOf(bytes)) && FileByte(HexFile(WordsOf(bytes)), o) == Some(bytes[o] as int)
  {
    hide ByteOf, HexFile, Lines.Split, Hex.Parse;
    forall k | 0 <= k < |WordsOf(bytes)|
      ensures 0 <= WordsOf(bytes)[k] < WORD
    {
      WordHoldsBytes(bytes, 4 * k);
    }
    hide WordsOf;
    WordHoldsBytes(bytes, o);
    WordsLength(bytes);
    HexFileReadsBack(WordsOf(bytes), o / 4);
  }

  lemma WordsLength(bytes: seq<byte>)
    requires |bytes| % 4 == 0
    ensures |WordsOf(bytes)| == |bytes| / 4
  {
  }

  lemma WordsAreWords(bytes: seq<byte>)
    requires |bytes| % 4 == 0
    ensures AllWords(WordsOf(bytes))
  {
    if |bytes| > 0 {
      FileHoldsBytes(bytes, 0);
    }
  }

  lemma ContentLength(sections: seq<Section>, base: int, length: nat)
    ensures |ContentBytes(sections, base, length)| == length
  {
  }

  const IMAGE_BYTES := 4 * IMAGE_WORDS

  function ImageFile(sections: seq<Section>, base: int): string {
    var bytes := ContentBytes(sections, base, IMAGE_BYTES);
    WordsAreWords(bytes);
    HexFile(WordsOf(bytes))
  }

  /** The two files written for the bytes of an ELF file; `None` when the conversion raises. */
  function Converted(utf8: seq<byte> -> bool, data: seq<byte>): Option<(string, string)> {
    match Parsed(utf8, data)
    case None => None
    case Some(image) => Some((ImageFile(image.sections, IMEM_BASE), ImageFile(image.sections, DMEM_BASE)))
  }

  /** `main`: both images of an ELF file, at the capacity of the memories. */
  method Convert(utf8: seq<byte> -> bool, data: seq<byte>) returns (files: Option<(string, string)>)
    ensures files == Converted(utf8, data)
  {
    hide Parsed, ContentBytes, WordsOf, HexFile, AllApart, Located;
    var image := ParseElf(utf8, data);
    if image.None? {
      return None;
    }
    ParsedIsAccepted(utf8, data);
    forall s | s in image.value.sections
      ensures if s.address < 0x8000 then s.address + s.size <= 4 * 8192
              else s.address - 0x2000_0000 + s.size <= 4 * 8192
    {
      FullCapacityFits(s);
    }
    var images := BuildImages(image.value, IMAGE_WORDS, IMAGE_WORDS);
    ContentLength(image.value.sections, IMEM_BASE, IMAGE_BYTES);
    ContentLength(image.value.sections, DMEM_BASE, IMAGE_BYTES);
    WordsAreWords(ContentBytes(image.value.sections, IMEM_BASE, IMAGE_BYTES));
    WordsAreWords(ContentBytes(image.value.sections, DMEM_BASE, IMAGE_BYTES));
    files := Some((HexFile(images.value.0), HexFile(images.value.1)));
  }

  function BaseOf(s: Section): int { if InInstructions(s) then IMEM_BASE else DMEM_BASE }

  lemma FileByteIsContent(sections: seq<Section>, base: int, o: nat)
    requires o < IMAGE_BYTES
    ensures FileByte(ImageFile(sections, base), o) == Some(Content(sections, base + o) as int)
  {
    hide Content, FileByte, HexFile, WordsOf;
    FileHoldsBytes(ContentBytes(sections, base, IMAGE_BYTES), o);
  }

  /**
    Every byte of every section with file content is found at its own address in the hexadecimal file
    of its own memory, and every address no such section covers holds zero.
   */
  lemma ImagesHoldSections(utf8: seq<byte> -> bool, data: seq<byte>)
    requires Parsed(utf8, data).Some?
    ensures var sections := Parsed(utf8, data).value.sections;
      && (forall k, j :: 0 <= k < |sections| && sections[k].kind != SHT_NOBITS && 0 <= j < sections[k].size ==>
            HoldsByte(sections, sections[k], j))
      && (forall o: nat :: o < IMAGE_BYTES && Uncovered(sections, IMEM_BASE + o) ==>
            FileByte(ImageFile(sections, IMEM_BASE), o) == Some(0))
      && (forall o: nat :: o < IMAGE_BYTES && Uncovered(sections, DMEM_BASE + o) ==>
            FileByte(ImageFile(sections, DMEM_BASE), o) == Some(0))
  {
    hide Parsed, Content, FileByte, ImageFile, AllApart;
    ParsedIsAccepted(utf8, data);
    var sections := Parsed(utf8, data).value.sections;
    forall k, j | 0 <= k < |sections| && sections[k].kind != SHT_NOBITS && 0 <= j < sections[k].size
      ensures HoldsByte(sections, sections[k], j)
    {
      var s := sections[k];
      assert s in sections && Located(s);
      ContentIsTheSection(sections, k, s.address + j);
      FileByteIsContent(sections, BaseOf(s), s.address + j - BaseOf(s));
    }
    forall o: nat | o < IMAGE_BYTES && Uncovered(sections, IMEM_BASE + o)
      ensures FileByte(ImageFile(sections, IMEM_BASE), o) == Some(0)
    {
      ContentElsewhere(sections, IMEM_BASE + o);
      FileByteIsContent(sections, IMEM_BASE, o);
    }
    forall o: nat | o < IMAGE_BYTES && Uncovered(sections, DMEM_BASE + o)
      ensures FileByte(ImageFile(sections, DMEM_BASE), o) == Some(0)
    {
      ContentElsewhere(sections, DMEM_BASE + o);
      FileByteIsContent(sections, DMEM_BASE, o);
    }
  }

  ghost predicate Uncovered(sections: seq<Section>, a: int) {
    forall k :: 0 <= k < |sections| ==> !Covers(sections[k], a)
  }

  /** Byte `j` of section `s` stands at its address in the file of its memory. */
  ghost predicate HoldsByte(sections: seq<Section>, s: Section, j: int) {
    && 0 <= j < |s.data|
    && 0 <= s.address + j - BaseOf(s) < IMAGE_BYTES
    && FileByte(ImageFile(sections, BaseOf(s)), s.address + j - BaseOf(s)) == Some(s.data[j] as int)
  }

  // ----- the images in terms of the file

  /** Section header `i` of an accepted file. */
  function HeaderAt(data: seq<byte>, h: Header, i: nat): RawSection
    requires i < h.sectionCount && h.sectionOffset + h.sectionCount * SECTION_HEADER_SIZE <= |data|
  {
    ReadSection(data, h.sectionOffset + i * SECTION_HEADER_SIZE)
  }

  predicate Allocated(raw: RawSection) { And(raw.flags, SHF_ALLOC) != 0 }

  /** A section is what its header says, and its content is that stretch of the file. */
  predicate OfHeader(data: seq<byte>, s: Section, raw: RawSection) {
    && Allocated(raw) && s.kind == raw.kind && s.address == raw.address && s.size == raw.size
    && (s.kind != SHT_NOBITS ==>
          0 <= raw.offset && raw.offset + raw.size <= |data| && s.data == data[raw.offset..raw.offset + raw.size])
  }

  lemma ClassifyReadsHeader(utf8: seq<byte> -> bool, data: seq<byte>, names: seq<byte>, raw: RawSection)
    ensures Classify(utf8, data, names, raw).Kept? ==> OfHeader(data, Classify(utf8, data, names, raw).section, raw)
    ensures Allocated(raw) ==> !Classify(utf8, data, names, raw).Skipped?
  {
    hide SectionName, And;
  }

  lemma {:induction false} SectionOfHeader(utf8: seq<byte> -> bool, data: seq<byte>, names: seq<byte>, base: nat,
                                           i: nat, k: nat) returns (n: nat)
    requires base + (i + 1) * SECTION_HEADER_SIZE <= |data| && Collect(utf8, data, names, base, i).Some?
    requires 0 < k <= i && Allocated(ReadSection(data, base + k * SECTION_HEADER_SIZE))
    ensures n < |Collect(utf8, data, names, base, i).value|
    ensures OfHeader(data, Collect(utf8, data, names, base, i).value[n],
                     ReadSection(data, base + k * SECTION_HEADER_SIZE))
    decreases i
  {
    hide Classify, ReadSection, OfHeader, Allocated;
    NextSection(utf8, data, names, base, i);
    ClassifyReadsHeader(utf8, data, names, ReadSection(data, base + i * SECTION_HEADER_SIZE));
    if k < i {
      n := SectionOfHeader(utf8, data, names, base, i - 1, k);
    } else {
      n := |Collect(utf8, data, names, base, i - 1).value|;
    }
  }

  lemma {:induction false} HeaderOfSection(utf8: seq<byte> -> bool, data: seq<byte>, names: seq<byte>, base: nat,
                                           i: nat, n: nat) returns (k: nat)
    requires base + (i + 1) * SECTION_HEADER_SIZE <= |data| && Collect(utf8, data, names, base, i).Some?
    requires n < |Collect(utf8, data, names, base, i).value|
    ensures 0 < k <= i
    ensures OfHeader(data, Collect(utf8, data, names, base, i).value[n],
                     ReadSection(data, base + k * SECTION_HEADER_SIZE))
    decreases i
  {
    hide Classify, ReadSection, OfHeader, Allocated;
    if i > 0 {
      NextSection(utf8, data, names, base, i);
      ClassifyReadsHeader(utf8, data, names, ReadSection(data, base + i * SECTION_HEADER_SIZE));
      if n < |Collect(utf8, data, names, base, i - 1).value| {
        k := HeaderOfSection(utf8, data, names, base, i - 1, n);
      } else {
        k := i;
      }
    }
  }

  /** Header `raw` puts file content at address `a`. */
  predicate Loads(raw: RawSection, a: int) {
    Allocated(raw) && raw.kind != SHT_NOBITS && raw.address <= a < raw.address + raw.size
  }

  /** The byte of the image file of the memory that holds address `a`. */
  function ImageByte(sections: seq<Section>, a: int): Option<int> {
    if IMEM_BASE <= a < IMEM_LIMIT then FileByte(ImageFile(sections, IMEM_BASE), a - IMEM_BASE)
    else if DMEM_BASE <= a < DMEM_LIMIT then FileByte(ImageFile(sections, DMEM_BASE), a - DMEM_BASE)
    else None
  }

  predicate InMemory(a: int) { IMEM_BASE <= a < IMEM_LIMIT || DMEM_BASE <= a < DMEM_LIMIT }

  lemma ImageByteIsContent(sections: seq<Section>, a: int)
    requires InMemory(a)
    ensures ImageByte(sections, a) == Some(Content(sections, a) as int)
  {
    hide Content, FileByte, ImageFile;
    if a < IMEM_LIMIT {
      FileByteIsContent(sections, IMEM_BASE, a - IMEM_BASE);
    } else {
      FileByteIsContent(sections, DMEM_BASE, a - DMEM_BASE);
    }
  }

  /** The image byte at `a` is the byte of the file that the header puts there. */
  predicate HoldsFileByte(data: seq<byte>, sections: seq<Section>, raw: RawSection, a: int) {
    var at := raw.offset + (a - raw.address);
    0 <= at < |data| && ImageByte(sections, a) == Some(data[at] as int)
  }

  ghost predicate NothingLoads(data: seq<byte>, h: Header, a: int)
    requires h.sectionOffset + h.sectionCount * SECTION_HEADER_SIZE <= |data|
  {
    forall i: nat :: 0 < i < h.sectionCount ==> !Loads(HeaderAt(data, h, i), a)
  }

  lemma CoveredIsLoaded(data: seq<byte>, s: Section, raw: RawSection, a: int)
    requires OfHeader(data, s, raw) && Located(s)
    ensures Covers(s, a) <==> Loads(raw, a)
    ensures Covers(s, a) ==>
      var at := raw.offset + (a - raw.address);
      InMemory(a) && 0 <= at < |data| && s.data[a - s.address] == data[at]
  {
    hide Allocated;
  }

  /** The sections gathered from the headers of a file. */
  ghost predicate Gathered(utf8: seq<byte> -> bool, data: seq<byte>, h: Header, names: seq<byte>,
                           sections: seq<Section>) {
    && h.sectionCount > 0 && h.sectionOffset + h.sectionCount * SECTION_HEADER_SIZE <= |data|
    && Collect(utf8, data, names, h.sectionOffset, h.sectionCount - 1) == Some(sections)
    && AllApart(sections) && forall s <- sections :: Located(s)
  }

  lemma ParsedIsGathered(utf8: seq<byte> -> bool, data: seq<byte>) returns (names: seq<byte>)
    requires Parsed(utf8, data).Some?
    ensures ReadHeader(data).Some?
    ensures Gathered(utf8, data, ReadHeader(data).value, names, Parsed(utf8, data).value.sections)
  {
    hide NameTable, Collect, AllApart, Located, Sort, NoAdjacentOverlap, RangesOf;
    ParsedIsAccepted(utf8, data);
    names := NameTable(data, ReadHeader(data).value).value;
  }

  lemma LoadedIsHeld(utf8: seq<byte> -> bool, data: seq<byte>, h: Header, names: seq<byte>, sections: seq<Section>,
                     i: nat, a: int)
    requires Gathered(utf8, data, h, names, sections) && 0 < i < h.sectionCount && Loads(HeaderAt(data, h, i), a)
    ensures HoldsFileByte(data, sections, HeaderAt(data, h, i), a)
  {
    hide Collect, Content, ImageByte, AllApart, Covers, Loads, Located, OfHeader, Allocated, InMemory, ReadSection;
    var raw := HeaderAt(data, h, i);
    LoadsOnlyAllocated(raw, a);
    var n := SectionOfHeader(utf8, data, names, h.sectionOffset, h.sectionCount - 1, i);
    assert sections[n] in sections;
    CoveredIsLoaded(data, sections[n], raw, a);
    SameAddress(data, sections[n], raw);
    ContentIsTheSection(sections, n, a);
    ImageByteIsContent(sections, a);
  }

  lemma SameAddress(data: seq<byte>, s: Section, raw: RawSection)
    requires OfHeader(data, s, raw)
    ensures s.address == raw.address
  {
    hide Allocated;
  }

  lemma UnloadedIsZero(utf8: seq<byte> -> bool, data: seq<byte>, h: Header, names: seq<byte>, sections: seq<Section>,
                       a: int)
    requires Gathered(utf8, data, h, names, sections) && InMemory(a) && NothingLoads(data, h, a)
    ensures ImageByte(sections, a) == Some(0)
  {
    hide Collect, Content, ImageByte, AllApart, Covers, Loads, Located, OfHeader, Allocated, InMemory, ReadSection;
    forall n: nat | n < |sections|
      ensures !Covers(sections[n], a)
    {
      var k := HeaderOfSection(utf8, data, names, h.sectionOffset, h.sectionCount - 1, n);
      assert sections[n] in sections;
      CoveredIsLoaded(data, sections[n], HeaderAt(data, h, k), a);
    }
    ContentElsewhere(sections, a);
    ImageByteIsContent(sections, a);
  }

  /**
    Every byte an allocated section header with file content points to is found, at its address, in the
    image file of its memory, and every address of a memory no such header covers holds zero.
   */
  lemma ImagesHoldFile(utf8: seq<byte> -> bool, data: seq<byte>)
    requires Parsed(utf8, data).Some?
    ensures ReadHeader(data).Some?
    ensures var h, sections := ReadHeader(data).value, Parsed(utf8, data).value.sections;
      && h.sectionOffset + h.sectionCount * SECTION_HEADER_SIZE <= |data|
      && (forall i: nat, a: int :: 0 < i < h.sectionCount && Loads(HeaderAt(data, h, i), a) ==>
            HoldsFileByte(data, sections, HeaderAt(data, h, i), a))
      && (forall a: int :: InMemory(a) && NothingLoads(data, h, a) ==> ImageByte(sections, a) == Some(0))
  {
    var names := ParsedIsGathered(utf8, data);
    var h, sections := ReadHeader(data).value, Parsed(utf8, data).value.sections;
    assert h.sectionOffset + h.sectionCount * SECTION_HEADER_SIZE <= |data|;
    hide Gathered, ReadHeader, Parsed, Loads, HeaderAt, HoldsFileByte, InMemory, NothingLoads, ImageByte;
    forall i: nat, a: int | 0 < i < h.sectionCount && Loads(HeaderAt(data, h, i), a)
      ensures HoldsFileByte(data, sections, HeaderAt(data, h, i), a)
    {
      LoadedIsHeld(utf8, data, h, names, sections, i, a);
    }
    forall a: int | InMemory(a) && NothingLoads(data, h, a)
      ensures ImageByte(sections, a) == Some(0)
    {
      UnloadedIsZero(utf8, data, h, names, sections, a);
    }
  }

  lemma LoadsOnlyAllocated(raw: RawSection, a: int)
    requires Loads(raw, a)
    ensures Allocated(raw)
  {
    hide Allocated;
  }
}
