/**
  Which files tools/soc_image.py converts, and into what, in terms of their bytes: field offsets and
  values are those of a 32-bit little-endian RISC-V ELF file.
 */
module ElfFiles {
  import opened Options
  import opened Bits
  import opened SocImage
  import Lines

  type Utf8 = seq<byte> -> bool

  /** The little-endian number of `n` bytes at `at`. */
  ghost function Number(data: seq<byte>, at: int, n: nat): (v: int)
    ensures v >= 0
    decreases n
  {
    if n == 0 || !(0 <= at < |data|) then 0
    else
      var low: int := data[at];
      low + 256 * Number(data, at + 1, n - 1)
  }

  ghost function Count(data: seq<byte>): int { Number(data, 48, 2) }

  /** The `k`-th word of section header `i`. */
  ghost function Field(data: seq<byte>, i: int, k: int): (v: int)
    ensures v >= 0
  {
    Number(data, Number(data, 32, 4) + 40 * i + 4 * k, 4)
  }

  ghost predicate GoodHeader(data: seq<byte>) {
    && |data| >= 52
    && data[0] == 0x7F && data[1] == 0x45 && data[2] == 0x4C && data[3] == 0x46
    && data[4] == 1 && data[5] == 1 && data[6] == 1
    && Number(data, 18, 2) == 243 && Number(data, 20, 4) == 1
    && Number(data, 40, 2) == 52 && Number(data, 46, 2) == 40
    && 0 < Count(data) && Number(data, 50, 2) < Count(data)
    && Number(data, 32, 4) + 40 * Count(data) <= |data|
    && Number(data, 24, 4) < 0x8000
  }

  /** The `size` bytes at `offset`, where the file has them. */
  ghost function Slice(data: seq<byte>, offset: int, size: int): seq<byte> {
    if 0 <= offset && 0 <= size && offset + size <= |data| then data[offset..offset + size] else []
  }

  ghost function Names(data: seq<byte>): seq<byte> {
    var i := Number(data, 50, 2);
    Slice(data, Field(data, i, 4), Field(data, i, 5))
  }

  ghost predicate GoodNames(data: seq<byte>) {
    var i := Number(data, 50, 2);
    Field(data, i, 1) != 8 && Field(data, i, 4) + Field(data, i, 5) <= |data|
  }

  /** `name` stands at `from`, followed by its first zero byte. */
  ghost predicate IsName(utf8: Utf8, names: seq<byte>, from: int, name: seq<byte>) {
    && 0 <= from && from + |name| < |names|
    && names[from..from + |name|] == name && 0 !in name && names[from + |name|] == 0
    && utf8(name)
  }

  ghost predicate Named(utf8: Utf8, names: seq<byte>, from: int) {
    exists name :: IsName(utf8, names, from, name)
  }

  ghost predicate IsAllocated(data: seq<byte>, i: int) { Field(data, i, 2) / 2 % 2 == 1 }

  ghost predicate InsideMemory(address: int, size: int) {
    address + size <= 0x8000 || (0x2000_0000 <= address && address + size <= 0x2000_8000)
  }

  /** Section `i` has a name, its content is in the file, and it fits a memory if it is allocated. */
  ghost predicate GoodSection(utf8: Utf8, data: seq<byte>, names: seq<byte>, i: int) {
    && Named(utf8, names, Field(data, i, 0))
    && (Field(data, i, 1) == 8 || Field(data, i, 4) + Field(data, i, 5) <= |data|)
    && (IsAllocated(data, i) ==> InsideMemory(Field(data, i, 3), Field(data, i, 5)))
  }

  /** Two allocated sections share no address. */
  ghost predicate SectionsApart(data: seq<byte>, i: int, j: int) {
    var a, b := Field(data, i, 3), Field(data, j, 3);
    var m, n := Field(data, i, 5), Field(data, j, 5);
    IsAllocated(data, i) && IsAllocated(data, j) ==> m == 0 || n == 0 || a + m <= b || b + n <= a
  }

  ghost predicate IsFirmware(utf8: Utf8, data: seq<byte>) {
    && GoodHeader(data) && GoodNames(data)
    && (forall i :: 1 <= i < Count(data) ==> GoodSection(utf8, data, Names(data), i))
    && forall i, j :: 1 <= i < j < Count(data) ==> SectionsApart(data, i, j)
  }

  /** The numbers of the allocated sections up to section `i`. */
  ghost function AllocatedUpTo(data: seq<byte>, i: nat): seq<nat> {
    if i == 0 then [] else AllocatedUpTo(data, i - 1) + if IsAllocated(data, i) then [i] else []
  }

  /** `s` is section `i` of the file. */
  ghost predicate IsSection(utf8: Utf8, data: seq<byte>, names: seq<byte>, i: int, s: Section) {
    && IsName(utf8, names, Field(data, i, 0), s.name)
    && s.kind == Field(data, i, 1) && s.flags == Field(data, i, 2) && s.address == Field(data, i, 3)
    && s.offset == Field(data, i, 4) && s.size == Field(data, i, 5)
    && s.data == if s.kind == 8 then [] else Slice(data, s.offset, s.size)
  }

  // ----- fields

  lemma NumberIsLe16(data: seq<byte>, at: nat)
    requires at + 2 <= |data|
    ensures Number(data, at, 2) == Le16(data, at)
  {
    assert Number(data, at + 1, 1) == data[at + 1] + 256 * Number(data, at + 2, 0);
  }

  lemma NumberIsLe32(data: seq<byte>, at: nat)
    requires at + 4 <= |data|
    ensures Number(data, at, 4) == Le32(data, at)
  {
    NumberIsLe16(data, at + 2);
    assert Number(data, at + 1, 3) == data[at + 1] + 256 * Number(data, at + 2, 2);
  }

  lemma HeaderExactly(data: seq<byte>)
    ensures ReadHeader(data).Some? <==> GoodHeader(data)
    ensures GoodHeader(data) ==>
      ReadHeader(data).value == Header(Number(data, 24, 4), Number(data, 32, 4), Count(data), Number(data, 50, 2))
  {
    hide Number, Le16, Le32;
    if |data| >= 52 {
      NumberIsLe16(data, 18);
      NumberIsLe32(data, 20);
      NumberIsLe32(data, 24);
      NumberIsLe32(data, 32);
      NumberIsLe16(data, 40);
      NumberIsLe16(data, 46);
      NumberIsLe16(data, 48);
      NumberIsLe16(data, 50);
      assert data[..4] == [data[0], data[1], data[2], data[3]];
    }
  }

  lemma SectionFields(data: seq<byte>, base: nat, i: nat) returns (raw: RawSection)
    requires base == Number(data, 32, 4) && base + (i + 1) * 40 <= |data|
    ensures base + i * 40 + 40 <= |data| && raw == ReadSection(data, base + i * 40)
    ensures raw.nameOffset == Field(data, i, 0) && raw.kind == Field(data, i, 1) && raw.flags == Field(data, i, 2)
    ensures raw.address == Field(data, i, 3) && raw.offset == Field(data, i, 4) && raw.size == Field(data, i, 5)
  {
    hide Number, Le32;
    var at := base + i * 40;
    assert at == base + 40 * i;
    NumberIsLe32(data, at);
    NumberIsLe32(data, at + 4);
    NumberIsLe32(data, at + 8);
    NumberIsLe32(data, at + 12);
    NumberIsLe32(data, at + 16);
    NumberIsLe32(data, at + 20);
    raw := ReadSection(data, at);
  }

  lemma FlagTwo(flags: nat)
    ensures And(flags, 2) == 0 <==> flags / 2 % 2 != 1
  {
    Unfold(AND, flags, 2);
    Unfold(AND, flags / 2, 1);
    ZeroOperand(flags / 2 / 2);
  }

  // ----- names

  lemma {:induction false} ZeroIsFound(table: seq<byte>, from: nat)
    ensures FindZero(table, from).Some? ==>
      var end := FindZero(table, from).value;
      from <= end < |table| && table[end] == 0 && 0 !in table[from..end]
    ensures FindZero(table, from).None? ==> forall k :: from <= k < |table| ==> table[k] != 0
    decreases |table| - from
  {
    if from < |table| && table[from] != 0 {
      ZeroIsFound(table, from + 1);
    }
  }

  lemma NameExactly(utf8: Utf8, names: seq<byte>, from: nat, name: seq<byte>)
    ensures SectionName(utf8, names, from) == Some(name) <==> IsName(utf8, names, from, name)
  {
    ZeroIsFound(names, from);
    hide FindZero;
    if IsName(utf8, names, from, name) {
      var end := FindZero(names, from).value;
      assert forall k :: from <= k < from + |name| ==> names[k] == name[k - from] && name[k - from] != 0;
      assert forall k :: from <= k < end ==> names[k] == names[from..end][k - from];
    }
  }

  lemma NamedExactly(utf8: Utf8, names: seq<byte>, from: nat)
    ensures SectionName(utf8, names, from).Some? <==> Named(utf8, names, from)
  {
    hide SectionName, IsName;
    if SectionName(utf8, names, from).Some? {
      NameExactly(utf8, names, from, SectionName(utf8, names, from).value);
    }
    if Named(utf8, names, from) {
      var name :| IsName(utf8, names, from, name);
      NameExactly(utf8, names, from, name);
    }
  }

  // ----- sections

  lemma ClassifyExactly(utf8: Utf8, data: seq<byte>, names: seq<byte>, base: nat, i: nat) returns (outcome: Outcome)
    requires base == Number(data, 32, 4) && base + (i + 1) * 40 <= |data|
    ensures base + i * 40 + 40 <= |data|
    ensures outcome == Classify(utf8, data, names, ReadSection(data, base + i * 40))
    ensures outcome.Rejected? <==> !GoodSection(utf8, data, names, i)
    ensures outcome.Kept? ==> IsAllocated(data, i) && IsSection(utf8, data, names, i, outcome.section)
    ensures outcome.Skipped? ==> !IsAllocated(data, i)
  {
    hide ReadSection, SectionName, Number, And, IsName, Named, Field;
    var raw := SectionFields(data, base, i);
    NamedExactly(utf8, names, raw.nameOffset);
    FlagTwo(raw.flags);
    outcome := Classify(utf8, data, names, raw);
    if outcome.Kept? {
      NameExactly(utf8, names, raw.nameOffset, outcome.section.name);
    }
  }

  ghost predicate AllGood(utf8: Utf8, data: seq<byte>, names: seq<byte>, i: nat) {
    forall k :: 1 <= k <= i ==> GoodSection(utf8, data, names, k)
  }

  /** `sections` are the allocated sections up to section `i`, in order. */
  ghost predicate AreSections(utf8: Utf8, data: seq<byte>, names: seq<byte>, i: nat, sections: seq<Section>) {
    var numbers := AllocatedUpTo(data, i);
    |sections| == |numbers| && forall n :: 0 <= n < |sections| ==> IsSection(utf8, data, names, numbers[n], sections[n])
  }

  lemma {:induction false} CollectExactly(utf8: Utf8, data: seq<byte>, names: seq<byte>, base: nat, i: nat)
    requires base == Number(data, 32, 4) && base + (i + 1) * 40 <= |data|
    ensures Collect(utf8, data, names, base, i).Some? <==> AllGood(utf8, data, names, i)
    ensures Collect(utf8, data, names, base, i).Some? ==>
      AreSections(utf8, data, names, i, Collect(utf8, data, names, base, i).value)
    decreases i
  {
    hide Classify, ReadSection, GoodSection, IsSection, IsAllocated, Number;
    if i > 0 {
      CollectExactly(utf8, data, names, base, i - 1);
      NextSection(utf8, data, names, base, i);
      var outcome := ClassifyExactly(utf8, data, names, base, i);
      assert AllGood(utf8, data, names, i) <==>
        AllGood(utf8, data, names, i - 1) && GoodSection(utf8, data, names, i);
    }
  }

  lemma {:induction false} AllocatedIndices(data: seq<byte>, i: nat)
    ensures var numbers := AllocatedUpTo(data, i);
      && (forall n :: 0 <= n < |numbers| ==> 1 <= numbers[n] <= i && IsAllocated(data, numbers[n]))
      && (forall m, n :: 0 <= m < n < |numbers| ==> numbers[m] < numbers[n])
      && (forall k :: 1 <= k <= i && IsAllocated(data, k) ==> k in numbers)
  {
    hide IsAllocated;
    if i > 0 {
      AllocatedIndices(data, i - 1);
    }
  }

  ghost predicate AllSectionsApart(data: seq<byte>, i: nat) {
    forall j, k :: 1 <= j < k <= i ==> SectionsApart(data, j, k)
  }

  lemma ApartAsWritten(utf8: Utf8, data: seq<byte>, names: seq<byte>, i: int, j: int, a: Section, b: Section)
    requires IsAllocated(data, i) && IsSection(utf8, data, names, i, a)
    requires IsAllocated(data, j) && IsSection(utf8, data, names, j, b)
    ensures SectionsApart(data, i, j) <==> Apart(a, b)
  {
    hide IsAllocated, Field, IsName, Slice;
  }

  lemma ApartExactly(utf8: Utf8, data: seq<byte>, names: seq<byte>, i: nat, sections: seq<Section>)
    requires AreSections(utf8, data, names, i, sections)
    ensures AllApart(sections) <==> AllSectionsApart(data, i)
  {
    hide IsAllocated, AllocatedUpTo, IsSection, Apart, SectionsApart;
    AllocatedIndices(data, i);
    var numbers := AllocatedUpTo(data, i);
    forall m, n | 0 <= m < n < |numbers|
      ensures SectionsApart(data, numbers[m], numbers[n]) <==> Apart(sections[m], sections[n])
    {
      ApartAsWritten(utf8, data, names, numbers[m], numbers[n], sections[m], sections[n]);
    }
    forall j, k | 1 <= j < k <= i && IsAllocated(data, j) && IsAllocated(data, k)
      ensures exists m, n :: 0 <= m < n < |numbers| && numbers[m] == j && numbers[n] == k
    {
      var m :| 0 <= m < |numbers| && numbers[m] == j;
      var n :| 0 <= n < |numbers| && numbers[n] == k;
    }
    forall j, k | !IsAllocated(data, j) || !IsAllocated(data, k) ensures SectionsApart(data, j, k) {
      UnallocatedIsApart(data, j, k);
    }
  }

  lemma UnallocatedIsApart(data: seq<byte>, i: int, j: int)
    requires !IsAllocated(data, i) || !IsAllocated(data, j)
    ensures SectionsApart(data, i, j)
  {
  }

  // ----- the whole file

  lemma NamesExactly(data: seq<byte>, h: Header)
    requires GoodHeader(data)
    requires h == Header(Number(data, 24, 4), Number(data, 32, 4), Count(data), Number(data, 50, 2))
    ensures NameTable(data, h).Some? <==> GoodNames(data)
    ensures GoodNames(data) ==> NameTable(data, h) == Some(Names(data))
  {
    hide Number, Field, ReadSection;
    var _ := SectionFields(data, h.sectionOffset, h.stringIndex);
  }

  /** The files the parser accepts are exactly the firmware files. */
  lemma AcceptsExactly(utf8: Utf8, data: seq<byte>)
    ensures Parsed(utf8, data).Some? <==> IsFirmware(utf8, data)
    ensures IsFirmware(utf8, data) ==>
      && Parsed(utf8, data).value.entry == Number(data, 24, 4)
      && AreSections(utf8, data, Names(data), Count(data) - 1, Parsed(utf8, data).value.sections)
  {
    hide Number, GoodHeader, GoodNames, Names, NameTable, Collect, GoodSection, AreSections, AllApart, SectionsApart;
    hide ReadHeader, NoAdjacentOverlap, Sort, RangesOf;
    HeaderExactly(data);
    if ReadHeader(data).Some? {
      var h := ReadHeader(data).value;
      HeaderFits(data);
      NamesExactly(data, h);
      if GoodNames(data) {
        var names := Names(data);
        var sections := Collect(utf8, data, names, h.sectionOffset, h.sectionCount - 1);
        CollectExactly(utf8, data, names, h.sectionOffset, h.sectionCount - 1);
        if sections.Some? {
          CollectLocates(utf8, data, names, h.sectionOffset, h.sectionCount - 1);
          OverlapCheckIsExact(sections.value);
          ApartExactly(utf8, data, names, h.sectionCount - 1, sections.value);
        }
      }
    }
  }

  // ----- the two files

  /** Section `i` puts file content at address `a`. */
  ghost predicate LoadsAt(data: seq<byte>, i: int, a: int) {
    IsAllocated(data, i) && Field(data, i, 1) != 8 && Field(data, i, 3) <= a < Field(data, i, 3) + Field(data, i, 5)
  }

  /** The byte an image file holds for address `a` of its memory. */
  ghost predicate Holds(files: (string, string), a: int, value: int) {
    (0 <= a < 0x8000 ==> FileByte(files.0, a) == Some(value))
    && (0x2000_0000 <= a < 0x2000_8000 ==> FileByte(files.1, a - 0x2000_0000) == Some(value))
  }

  lemma LoadedByHeader(data: seq<byte>, h: Header, i: nat, a: int)
    requires GoodHeader(data) && 0 < i < h.sectionCount
    requires h == Header(Number(data, 24, 4), Number(data, 32, 4), Count(data), Number(data, 50, 2))
    ensures LoadsAt(data, i, a) <==> Loads(HeaderAt(data, h, i), a)
    ensures HeaderAt(data, h, i).offset == Field(data, i, 4) && HeaderAt(data, h, i).address == Field(data, i, 3)
  {
    hide Number, Field, ReadSection, And;
    var raw := SectionFields(data, h.sectionOffset, i);
    FlagTwo(raw.flags);
  }

  lemma LoadedIsInMemory(utf8: Utf8, data: seq<byte>, i: int, a: int)
    requires IsFirmware(utf8, data) && 1 <= i < Count(data) && LoadsAt(data, i, a)
    ensures 0 <= a < 0x8000 || 0x2000_0000 <= a < 0x2000_8000
    ensures 0 <= Field(data, i, 4) + (a - Field(data, i, 3)) < |data|
  {
    hide Field, IsAllocated, Named, Count, SectionsApart, GoodHeader, GoodNames, Names;
    assert exists names :: GoodSection(utf8, data, names, i) by {
      assert GoodSection(utf8, data, Names(data), i);
    }
  }

  lemma HeldInFile(sections: seq<Section>, a: int, value: int)
    requires 0 <= a < 0x8000 || 0x2000_0000 <= a < 0x2000_8000
    requires ImageByte(sections, a) == Some(value)
    ensures Holds((ImageFile(sections, 0), ImageFile(sections, 0x2000_0000)), a, value)
  {
    hide ImageFile, FileByte;
  }

  lemma LoadedIsConverted(utf8: Utf8, data: seq<byte>, sections: seq<Section>, i: nat, a: int)
    requires IsFirmware(utf8, data) && 1 <= i < Count(data) && LoadsAt(data, i, a)
    requires Parsed(utf8, data).Some? && sections == Parsed(utf8, data).value.sections
    ensures 0 <= Field(data, i, 4) + (a - Field(data, i, 3)) < |data|
    ensures Holds((ImageFile(sections, 0), ImageFile(sections, 0x2000_0000)), a,
                  data[Field(data, i, 4) + (a - Field(data, i, 3))])
  {
    hide Parsed, ReadHeader, Loads, HeaderAt, ImageByte, Number, Field, LoadsAt, Holds, GoodHeader, GoodNames;
    hide GoodSection, SectionsApart, FileByte, ImageFile;
    HeaderExactly(data);
    ImagesHoldFile(utf8, data);
    var h := ReadHeader(data).value;
    LoadedByHeader(data, h, i, a);
    LoadedIsInMemory(utf8, data, i, a);
    assert HoldsFileByte(data, sections, HeaderAt(data, h, i), a);
    HeldInFile(sections, a, data[Field(data, i, 4) + (a - Field(data, i, 3))]);
  }

  lemma OthersAreZero(utf8: Utf8, data: seq<byte>, sections: seq<Section>, a: int)
    requires IsFirmware(utf8, data) && (0 <= a < 0x8000 || 0x2000_0000 <= a < 0x2000_8000)
    requires forall i :: 1 <= i < Count(data) ==> !LoadsAt(data, i, a)
    requires Parsed(utf8, data).Some? && sections == Parsed(utf8, data).value.sections
    ensures Holds((ImageFile(sections, 0), ImageFile(sections, 0x2000_0000)), a, 0)
  {
    hide Parsed, ReadHeader, Loads, HeaderAt, ImageByte, Number, Field, LoadsAt, Holds, GoodHeader, GoodNames;
    hide GoodSection, SectionsApart, FileByte, ImageFile;
    HeaderExactly(data);
    ImagesHoldFile(utf8, data);
    var h := ReadHeader(data).value;
    forall i: nat | 0 < i < h.sectionCount ensures !Loads(HeaderAt(data, h, i), a) {
      LoadedByHeader(data, h, i, a);
    }
    assert InMemory(a) && NothingLoads(data, h, a);
    HeldInFile(sections, a, 0);
  }

  /** 8192 lines of eight characters, each ended. */
  ghost predicate IsImageFile(file: string) {
    var text := Lines.Split(file);
    text.rest == "" && |text.lines| == 8192 && forall line <- text.lines :: |line| == 8
  }

  lemma ImageFileShape(sections: seq<Section>, base: int)
    ensures IsImageFile(ImageFile(sections, base))
  {
    hide Content, HexFile, Lines.Split, WordsOf;
    var bytes := ContentBytes(sections, base, IMAGE_BYTES);
    WordsAreWords(bytes);
    WordsLength(bytes);
    var text := Lines.Split(ImageFile(sections, base));
    forall k | 0 <= k < 8192 ensures |text.lines| == 8192 && |text.lines[k]| == 8 && text.rest == "" {
      HexFileReadsBack(WordsOf(bytes), k);
    }
    HexFileReadsBack(WordsOf(bytes), 0);
  }

  /**
    The conversion succeeds exactly on firmware files.  Each image then has 8192 words; every byte of
    an allocated section with content stands at its address, and everything else is zero.
   */
  lemma ConvertsExactly(utf8: Utf8, data: seq<byte>)
    ensures Converted(utf8, data).Some? <==> IsFirmware(utf8, data)
    ensures IsFirmware(utf8, data) ==>
      var files := Converted(utf8, data).value;
      IsImageFile(files.0) && IsImageFile(files.1)
    ensures IsFirmware(utf8, data) ==>
      forall i, a :: 1 <= i < Count(data) && LoadsAt(data, i, a) ==>
        var at := Field(data, i, 4) + (a - Field(data, i, 3));
        0 <= at < |data| && Holds(Converted(utf8, data).value, a, data[at])
    ensures IsFirmware(utf8, data) ==>
      forall a :: (forall i :: 1 <= i < Count(data) ==> !LoadsAt(data, i, a)) ==>
        Holds(Converted(utf8, data).value, a, 0)
  {
    hide Parsed, IsFirmware, Field, LoadsAt, Holds, Count, ImageFile, IsImageFile;
    AcceptsExactly(utf8, data);
    if IsFirmware(utf8, data) {
      var sections := Parsed(utf8, data).value.sections;
      ImageFileShape(sections, 0);
      ImageFileShape(sections, 0x2000_0000);
      forall i, a | 1 <= i < Count(data) && LoadsAt(data, i, a)
        ensures 0 <= Field(data, i, 4) + (a - Field(data, i, 3)) < |data|
        ensures Holds(Converted(utf8, data).value, a, data[Field(data, i, 4) + (a - Field(data, i, 3))])
      {
        LoadedIsConverted(utf8, data, sections, i, a);
      }
      forall a | forall i :: 1 <= i < Count(data) ==> !LoadsAt(data, i, a)
        ensures Holds(Converted(utf8, data).value, a, 0)
      {
        if 0 <= a < 0x8000 || 0x2000_0000 <= a < 0x2000_8000 {
          OthersAreZero(utf8, data, sections, a);
        } else {
          OutsideHolds(Converted(utf8, data).value, a);
        }
      }
    }
  }

  lemma OutsideHolds(files: (string, string), a: int)
    requires !(0 <= a < 0x8000 || 0x2000_0000 <= a < 0x2000_8000)
    ensures Holds(files, a, 0)
  {
  }
}
