/**
  tools/portfolio_demo.py: `skip_subblocks` and `gif_metadata`, a structural reader of GIF streams,
  held to a writer after sections 15, 18, 20, 23 and 27 of the GIF89a specification.
  Delays are counted in hundredths of a second, the unit of the format.
 */
module Gif {
  import opened Options
  import opened Bits

  type byte = x: int | 0 <= x < 256

  const EXTENSION := 0x21
  const IMAGE := 0x2C
  const TRAILER := 0x3B
  const CONTROL := 0xF9

  datatype Metadata = Metadata(width: nat, height: nat, frames: nat, duration: nat)

  // ----- the reader

  function Le16(data: seq<byte>, at: nat): nat
    requires at + 2 <= |data|
  {
    var low: int, high: int := data[at], data[at + 1];
    low + 0x100 * high
  }

  lemma PackedField(packed: byte)
    ensures And(packed, 0x80) != 0 <==> packed >= 128
    ensures And(packed, 0x07) == packed % 8
    ensures var entries := [2, 4, 8, 16, 32, 64, 128, 256]; Pow2(packed % 8 + 1) == entries[packed % 8]
  {
    hide Bitwise;
    Powers();
    assert Pow2(3) == 8 && Pow2(2) == 4;
    Mask(packed, 3);
    Mask(packed / 128, 1);
    AndShifted(packed, 1, 7);
    assert Shl(1, 7) == 0x80;
  }

  /** Bytes of the colour table a packed field announces. */
  function TableBytes(packed: byte): (n: nat)
    ensures n == ColourBytes(packed)
  {
    PackedField(packed);
    if And(packed, 0x80) != 0 then 3 * Pow2(And(packed, 0x07) + 1) else 0
  }

  /** The offset after a chain of sub-blocks; `None` when the chain leaves the data. */
  function Skipped(data: seq<byte>, offset: nat): (end: Option<nat>)
    ensures end.Some? ==> offset < end.value <= |data|
    decreases |data| - offset
  {
    if offset >= |data| then None
    else if data[offset] == 0 then Some(offset + 1)
    else
      var next := offset + 1 + data[offset];
      if next > |data| then None else Skipped(data, next)
  }

  method SkipSubblocks(data: seq<byte>, start: nat) returns (end: Option<nat>)
    ensures end == Skipped(data, start)
  {
    var offset := start;
    while true
      invariant Skipped(data, start) == Skipped(data, offset)
      decreases |data| - offset
    {
      if offset >= |data| {
        return None;
      }
      var size: int := data[offset];
      offset := offset + 1;
      if size == 0 {
        return Some(offset);
      }
      offset := offset + size;
      if offset > |data| {
        return None;
      }
    }
  }

  /** The loop state: where reading goes on, images so far, their delays, the delay of the next one. */
  datatype Cursor = Cursor(offset: nat, frames: nat, duration: nat, delay: nat)

  datatype Turn = Malformed | Finished | Continue(next: Cursor)

  /** One block; it always moves the offset forward. */
  function Block(data: seq<byte>, c: Cursor): (t: Turn)
    requires c.offset < |data|
    ensures t.Continue? ==> c.offset < t.next.offset
  {
    var marker, at := data[c.offset], c.offset + 1;
    if marker == TRAILER then Finished
    else if marker == EXTENSION then
      if at >= |data| then Malformed
      else if data[at] == CONTROL then
        if at + 7 > |data| || data[at + 1] != 4 || data[at + 6] != 0 then Malformed
        else Continue(c.(offset := at + 7, delay := Le16(data, at + 3)))
      else match Skipped(data, at + 1)
        case None => Malformed
        case Some(end) => Continue(c.(offset := end))
    else if marker != IMAGE || at + 9 > |data| then Malformed
    else
      var body := at + 9 + TableBytes(data[at + 8]);
      if body >= |data| then Malformed
      else match Skipped(data, body + 1)
        case None => Malformed
        case Some(end) => Continue(Cursor(end, c.frames + 1, c.duration + c.delay, 0))
  }

  /** Blocks up to the trailer; `None` when the stream is malformed or has no trailer. */
  function Scan(data: seq<byte>, c: Cursor): Option<(nat, nat)>
    decreases |data| - c.offset
  {
    if c.offset >= |data| then None
    else match Block(data, c)
      case Malformed => None
      case Finished => Some((c.frames, c.duration))
      case Continue(next) => Scan(data, next)
  }

  const GIF87A: seq<byte> := [0x47, 0x49, 0x46, 0x38, 0x37, 0x61]
  const GIF89A: seq<byte> := [0x47, 0x49, 0x46, 0x38, 0x39, 0x61]

  function Read(data: seq<byte>): Option<Metadata> {
    if |data| < 13 || (data[..6] != GIF87A && data[..6] != GIF89A) then None
    else match Scan(data, Cursor(13 + TableBytes(data[10]), 0, 0, 0))
      case None => None
      case Some((frames, duration)) => Some(Metadata(Le16(data, 6), Le16(data, 8), frames, duration))
  }

  method GifMetadata(data: seq<byte>) returns (r: Option<Metadata>)
    ensures r == Read(data)
  {
    hide TableBytes, Le16, Scan, Skipped;
    if |data| < 13 || (data[..6] != GIF87A && data[..6] != GIF89A) {
      return None;
    }
    var width, height := Le16(data, 6), Le16(data, 8);
    var offset := 13 + TableBytes(data[10]);
    var frames, duration, delay := 0, 0, 0;
    ghost var start := Cursor(offset, 0, 0, 0);
    while offset < |data|
      invariant Scan(data, start) == Scan(data, Cursor(offset, frames, duration, delay))
      decreases |data| - offset
    {
      ghost var before := Cursor(offset, frames, duration, delay);
      ScanUnfolds(data, before);
      var marker := data[offset];
      offset := offset + 1;
      if marker == TRAILER {
        return Some(Metadata(width, height, frames, duration));
      }
      if marker == EXTENSION {
        if offset >= |data| {
          return None;
        }
        var kind := data[offset];
        offset := offset + 1;
        if kind == CONTROL {
          if offset + 6 > |data| || data[offset] != 4 || data[offset + 5] != 0 {
            return None;
          }
          delay := Le16(data, offset + 2);
          offset := offset + 6;
        } else {
          var end := SkipSubblocks(data, offset);
          if end.None? {
            return None;
          }
          offset := end.value;
        }
        assert Block(data, before) == Continue(Cursor(offset, frames, duration, delay));
        continue;
      }
      if marker != IMAGE || offset + 9 > |data| {
        return None;
      }
      var packed := data[offset + 8];
      offset := offset + 9 + TableBytes(packed);
      if offset >= |data| {
        return None;
      }
      offset := offset + 1;
      var end := SkipSubblocks(data, offset);
      if end.None? {
        return None;
      }
      offset := end.value;
      frames := frames + 1;
      duration := duration + delay;
      delay := 0;
      assert Block(data, before) == Continue(Cursor(offset, frames, duration, delay));
    }
    ScanUnfolds(data, Cursor(offset, frames, duration, delay));
    return None;
  }

  lemma ScanUnfolds(data: seq<byte>, c: Cursor)
    ensures c.offset >= |data| ==> Scan(data, c).None?
    ensures c.offset < |data| ==>
      Scan(data, c) == match Block(data, c)
                       case Malformed => None
                       case Finished => Some((c.frames, c.duration))
                       case Continue(next) => Scan(data, next)
  {
    hide Block;
  }

  // ----- the writer

  type Half = x: int | 0 <= x < 0x1_0000

  datatype Segment =
    | Extension(kind: byte, blocks: seq<seq<byte>>)
    | Control(flags: byte, delay: Half, transparent: byte)
    | Image(frame: seq<byte>, packed: byte, table: seq<byte>, codeSize: byte, blocks: seq<seq<byte>>)

  datatype Animation = Animation(version: seq<byte>, width: Half, height: Half, packed: byte, background: byte,
                                 aspect: byte, table: seq<byte>, segments: seq<Segment>)

  predicate ProperBlocks(blocks: seq<seq<byte>>) { forall i :: 0 <= i < |blocks| ==> 1 <= |blocks[i]| <= 255 }

  /** A packed field with its high bit set announces a table of 2 to 256 colours of three bytes. */
  function ColourBytes(packed: byte): nat {
    var entries := [2, 4, 8, 16, 32, 64, 128, 256];
    if packed >= 128 then 3 * entries[packed % 8] else 0
  }

  predicate ProperSegment(s: Segment) {
    match s
    case Extension(kind, blocks) => kind != 0xF9 && ProperBlocks(blocks)
    case Control(_, _, _) => true
    case Image(frame, packed, table, _, blocks) =>
      |frame| == 8 && |table| == ColourBytes(packed) && ProperBlocks(blocks)
  }

  predicate ProperSegments(segments: seq<Segment>) { forall i :: 0 <= i < |segments| ==> ProperSegment(segments[i]) }

  predicate Proper(a: Animation) {
    && a.version in [[0x47, 0x49, 0x46, 0x38, 0x37, 0x61], [0x47, 0x49, 0x46, 0x38, 0x39, 0x61]]
    && |a.table| == ColourBytes(a.packed)
    && ProperSegments(a.segments)
  }

  function Halfword(x: Half): (s: seq<byte>)
    ensures |s| == 2
  {
    [x % 0x100, x / 0x100]
  }

  function PrintBlocks(blocks: seq<seq<byte>>): (s: seq<byte>)
    requires ProperBlocks(blocks)
    ensures |s| > 0
  {
    if blocks == [] then [0] else [|blocks[0]|] + blocks[0] + PrintBlocks(blocks[1..])
  }

  function PrintImageHead(s: Segment): (p: seq<byte>)
    requires s.Image? && ProperSegment(s)
    ensures |p| == 11 + TableBytes(s.packed) && p[0] == 0x2C && p[9] == s.packed
  {
    [0x2C] + s.frame + [s.packed] + s.table + [s.codeSize]
  }

  function PrintSegment(s: Segment): (p: seq<byte>)
    requires ProperSegment(s)
    ensures |p| > 0
  {
    match s
    case Extension(kind, blocks) => [0x21, kind] + PrintBlocks(blocks)
    case Control(flags, delay, transparent) =>
      [0x21, 0xF9, 4, flags] + Halfword(delay) + [transparent, 0]
    case Image(frame, packed, table, codeSize, blocks) => PrintImageHead(s) + PrintBlocks(blocks)
  }

  function PrintSegments(segments: seq<Segment>): seq<byte>
    requires ProperSegments(segments)
  {
    if segments == [] then []
    else
      var n := |segments| - 1;
      PrintSegments(segments[..n]) + PrintSegment(segments[n])
  }

  function PrintHead(a: Animation): (s: seq<byte>)
    requires Proper(a)
    ensures |s| == 13 + |a.table|
  {
    a.version + Halfword(a.width) + Halfword(a.height) + [a.packed, a.background, a.aspect] + a.table
  }

  function Print(a: Animation): seq<byte>
    requires Proper(a)
  {
    PrintHead(a) + PrintSegments(a.segments) + [0x3B]
  }

  // ----- what an animation says

  function Images(segments: seq<Segment>): nat {
    |set i | 0 <= i < |segments| && segments[i].Image?|
  }

  /** The delay a frame written after these segments would get. */
  function Pending(segments: seq<Segment>): nat {
    if segments == [] then 0
    else
      var n := |segments| - 1;
      match segments[n]
      case Control(_, delay, _) => delay
      case Image(_, _, _, _, _) => 0
      case Extension(_, _) => Pending(segments[..n])
  }

  function Duration(segments: seq<Segment>): nat {
    if segments == [] then 0
    else
      var n := |segments| - 1;
      Duration(segments[..n]) + if segments[n].Image? then Pending(segments[..n]) else 0
  }

  function Describe(a: Animation): Metadata {
    Metadata(a.width, a.height, Images(a.segments), Duration(a.segments))
  }

  // ----- reading what was written

  /** `s` stands in `data` at offset `at`. */
  predicate Stands(data: seq<byte>, at: nat, s: seq<byte>) {
    at + |s| <= |data| && data[at..at + |s|] == s
  }

  lemma StandsSplit(data: seq<byte>, at: nat, s: seq<byte>, t: seq<byte>)
    ensures Stands(data, at, s + t) <==> Stands(data, at, s) && Stands(data, at + |s|, t)
  {
    if Stands(data, at, s + t) {
      assert data[at..at + |s|] == (s + t)[..|s|];
      assert data[at + |s|..at + |s| + |t|] == (s + t)[|s|..];
    }
    if Stands(data, at, s) && Stands(data, at + |s|, t) {
      assert data[at..at + |s| + |t|] == data[at..at + |s|] + data[at + |s|..at + |s| + |t|];
    }
  }

  lemma StandsAt(data: seq<byte>, at: nat, s: seq<byte>, k: nat)
    requires Stands(data, at, s) && k < |s|
    ensures data[at + k] == s[k]
  {
    assert data[at..at + |s|][k] == s[k];
  }

  lemma StandsFits(data: seq<byte>, at: nat, s: seq<byte>)
    requires Stands(data, at, s)
    ensures at + |s| <= |data|
  {
  }

  lemma {:induction false} BlocksAreSkipped(data: seq<byte>, at: nat, blocks: seq<seq<byte>>)
    requires ProperBlocks(blocks) && Stands(data, at, PrintBlocks(blocks))
    ensures Skipped(data, at) == Some(at + |PrintBlocks(blocks)|)
    decreases |blocks|
  {
    StandsAt(data, at, PrintBlocks(blocks), 0);
    if blocks != [] {
      var head, rest := [|blocks[0]|] + blocks[0], PrintBlocks(blocks[1..]);
      StandsSplit(data, at, head, rest);
      BlocksAreSkipped(data, at + |head|, blocks[1..]);
    }
  }

  lemma {:induction false} SkippedAreBlocks(data: seq<byte>, at: nat) returns (blocks: seq<seq<byte>>)
    requires Skipped(data, at).Some?
    ensures ProperBlocks(blocks) && Stands(data, at, PrintBlocks(blocks))
    ensures Skipped(data, at) == Some(at + |PrintBlocks(blocks)|)
    decreases |data| - at
  {
    if data[at] == 0 {
      blocks := [];
      assert data[at..at + 1] == [0];
    } else {
      var next := at + 1 + data[at];
      var rest := SkippedAreBlocks(data, next);
      var first := data[at + 1..next];
      blocks := [first] + rest;
      assert blocks[1..] == rest;
      assert data[at..next] == [|first|] + first;
      StandsSplit(data, at, [|first|] + first, PrintBlocks(rest));
    }
  }

  lemma HalfwordIsRead(data: seq<byte>, at: nat, x: Half)
    requires Stands(data, at, Halfword(x))
    ensures Le16(data, at) == x
  {
    StandsAt(data, at, Halfword(x), 0);
    StandsAt(data, at, Halfword(x), 1);
  }

  lemma ReadIsHalfword(data: seq<byte>, at: nat) returns (x: Half)
    requires at + 2 <= |data|
    ensures x == Le16(data, at) && Stands(data, at, Halfword(x))
  {
    x := Le16(data, at);
    var low: int, high: int := data[at], data[at + 1];
    DivModUnique(x, 0x100, high, low);
    assert data[at..at + 2] == Halfword(x);
  }

  function After(c: Cursor, s: Segment): Cursor
    requires ProperSegment(s)
  {
    var offset := c.offset + |PrintSegment(s)|;
    match s
    case Extension(_, _) => c.(offset := offset)
    case Control(_, delay, _) => c.(offset := offset, delay := delay)
    case Image(_, _, _, _, _) => Cursor(offset, c.frames + 1, c.duration + c.delay, 0)
  }

  lemma ExtensionIsRead(data: seq<byte>, c: Cursor, s: Segment)
    requires s.Extension? && ProperSegment(s) && Stands(data, c.offset, PrintSegment(s))
    ensures c.offset < |data| && Block(data, c) == Continue(After(c, s))
  {
    hide TableBytes, Skipped, PrintBlocks, Le16;
    var intro := [0x21, s.kind];
    StandsSplit(data, c.offset, intro, PrintBlocks(s.blocks));
    StandsAt(data, c.offset, intro, 0);
    StandsAt(data, c.offset, intro, 1);
    BlocksAreSkipped(data, c.offset + 2, s.blocks);
  }

  lemma ControlIsRead(data: seq<byte>, c: Cursor, s: Segment)
    requires s.Control? && Stands(data, c.offset, PrintSegment(s))
    ensures c.offset < |data| && Block(data, c) == Continue(After(c, s))
  {
    hide TableBytes, Skipped, Le16, Halfword;
    var intro, ending := [0x21, 0xF9, 4, s.flags], [s.transparent, 0];
    StandsSplit(data, c.offset, intro + Halfword(s.delay), ending);
    StandsSplit(data, c.offset, intro, Halfword(s.delay));
    StandsAt(data, c.offset, intro, 0);
    StandsAt(data, c.offset, intro, 1);
    StandsAt(data, c.offset, intro, 2);
    StandsAt(data, c.offset + 6, ending, 1);
    HalfwordIsRead(data, c.offset + 4, s.delay);
  }

  /** The image branch of the reader, once its descriptor and its table are known to be there. */
  lemma ImageBlock(data: seq<byte>, c: Cursor, blocks: nat)
    requires c.offset + 11 <= blocks <= |data| && data[c.offset] == 0x2C
    requires blocks == c.offset + 11 + TableBytes(data[c.offset + 9])
    ensures Block(data, c)
         == match Skipped(data, blocks)
            case None => Malformed
            case Some(end) => Continue(Cursor(end, c.frames + 1, c.duration + c.delay, 0))
  {
    hide TableBytes, Skipped, Le16;
  }

  lemma ImageIsRead(data: seq<byte>, c: Cursor, s: Segment)
    requires s.Image? && ProperSegment(s) && Stands(data, c.offset, PrintSegment(s))
    ensures c.offset < |data| && Block(data, c) == Continue(After(c, s))
  {
    hide TableBytes, Skipped, PrintBlocks, PrintImageHead, Block, Stands;
    var head := PrintImageHead(s);
    StandsSplit(data, c.offset, head, PrintBlocks(s.blocks));
    StandsFits(data, c.offset, head);
    StandsAt(data, c.offset, head, 0);
    StandsAt(data, c.offset, head, 9);
    ImageBlock(data, c, c.offset + |head|);
    BlocksAreSkipped(data, c.offset + |head|, s.blocks);
  }

  lemma SegmentIsRead(data: seq<byte>, c: Cursor, s: Segment)
    requires ProperSegment(s) && Stands(data, c.offset, PrintSegment(s))
    ensures c.offset < |data| && Block(data, c) == Continue(After(c, s))
  {
    hide Block, PrintSegment, After, Stands, ProperSegment;
    if s.Extension? {
      ExtensionIsRead(data, c, s);
    } else if s.Control? {
      assert s.Control?;
      ControlIsRead(data, c, s);
    } else {
      ImageIsRead(data, c, s);
    }
  }

  lemma ReadIsControl(data: seq<byte>, c: Cursor) returns (s: Segment)
    requires c.offset + 1 < |data| && data[c.offset] == 0x21 && data[c.offset + 1] == 0xF9
    requires Block(data, c).Continue?
    ensures ProperSegment(s) && Stands(data, c.offset, PrintSegment(s)) && Block(data, c) == Continue(After(c, s))
  {
    hide TableBytes, Skipped, PrintBlocks, Le16, Halfword;
    var at := c.offset;
    var delay := ReadIsHalfword(data, at + 4);
    s := Control(data[at + 3], delay, data[at + 6]);
    var intro, ending := [0x21, 0xF9, 4, s.flags], [s.transparent, 0];
    assert data[at..at + 4] == intro;
    assert data[at + 6..at + 8] == ending;
    StandsSplit(data, at, intro, Halfword(delay));
    StandsSplit(data, at, intro + Halfword(delay), ending);
  }

  lemma ReadIsExtension(data: seq<byte>, c: Cursor) returns (s: Segment)
    requires c.offset + 1 < |data| && data[c.offset] == 0x21 && data[c.offset + 1] != 0xF9
    requires Block(data, c).Continue?
    ensures ProperSegment(s) && Stands(data, c.offset, PrintSegment(s)) && Block(data, c) == Continue(After(c, s))
  {
    hide TableBytes, Skipped, PrintBlocks, Le16, Halfword;
    var at := c.offset;
    var blocks := SkippedAreBlocks(data, at + 2);
    s := Extension(data[at + 1], blocks);
    assert data[at..at + 2] == [0x21, s.kind];
    StandsSplit(data, at, [0x21, s.kind], PrintBlocks(blocks));
  }

  /** A stretch of the data in the parts an image head has. */
  lemma ImageHeadStands(data: seq<byte>, at: nat, s: Segment)
    requires s.Image? && ProperSegment(s) && at + 11 + |s.table| <= |data| && data[at] == 0x2C
    requires s.frame == data[at + 1..at + 9] && s.packed == data[at + 9]
    requires s.table == data[at + 10..at + 10 + |s.table|] && s.codeSize == data[at + 10 + |s.table|]
    ensures Stands(data, at, PrintImageHead(s))
  {
    hide TableBytes, ProperSegment;
    var n := |s.table|;
    assert data[at..at + 1] == [0x2C] && data[at + 9..at + 10] == [s.packed];
    assert data[at + 10 + n..at + 11 + n] == [s.codeSize];
    assert data[at..at + 9] == [0x2C] + s.frame;
    assert data[at..at + 10] == [0x2C] + s.frame + [s.packed];
    assert data[at..at + 10 + n] == [0x2C] + s.frame + [s.packed] + s.table;
    assert data[at..at + 11 + n] == PrintImageHead(s);
  }

  lemma ReadIsImage(data: seq<byte>, c: Cursor) returns (s: Segment)
    requires c.offset < |data| && data[c.offset] != 0x21
    requires Block(data, c).Continue?
    ensures ProperSegment(s) && Stands(data, c.offset, PrintSegment(s)) && Block(data, c) == Continue(After(c, s))
  {
    hide TableBytes, Skipped, PrintBlocks, PrintImageHead, Stands;
    var at := c.offset;
    var packed := data[at + 9];
    var body := at + 10 + TableBytes(packed);
    ImageBlock(data, c, body + 1);
    var blocks := SkippedAreBlocks(data, body + 1);
    s := Image(data[at + 1..at + 9], packed, data[at + 10..body], data[body], blocks);
    ImageHeadStands(data, at, s);
    StandsSplit(data, at, PrintImageHead(s), PrintBlocks(blocks));
  }

  /** Every block the reader accepts is the print of some segment. */
  lemma ReadIsSegment(data: seq<byte>, c: Cursor) returns (s: Segment)
    requires c.offset < |data| && Block(data, c).Continue?
    ensures ProperSegment(s) && Stands(data, c.offset, PrintSegment(s))
    ensures Block(data, c) == Continue(After(c, s))
  {
    hide PrintSegment, After, Stands, ProperSegment, Skipped, Le16, TableBytes;
    if data[c.offset] != 0x21 {
      s := ReadIsImage(data, c);
    } else if data[c.offset + 1] == 0xF9 {
      s := ReadIsControl(data, c);
    } else {
      s := ReadIsExtension(data, c);
    }
  }

  /** Where the reader stands once these segments, printed from `start` on, are behind it. */
  function Reached(start: nat, segments: seq<Segment>): Cursor
    requires ProperSegments(segments)
  {
    Cursor(start + |PrintSegments(segments)|, Images(segments), Duration(segments), Pending(segments))
  }

  lemma ImagesStep(segments: seq<Segment>, s: Segment)
    ensures Images(segments + [s]) == Images(segments) + if s.Image? then 1 else 0
  {
    var n := |segments|;
    var more := segments + [s];
    var before := set i | 0 <= i < n && segments[i].Image?;
    var after := set i | 0 <= i < n + 1 && more[i].Image?;
    assert after == before + if s.Image? then {n} else {};
  }

  lemma ReachedStep(start: nat, segments: seq<Segment>, s: Segment)
    requires ProperSegments(segments) && ProperSegment(s)
    ensures ProperSegments(segments + [s])
    ensures PrintSegments(segments + [s]) == PrintSegments(segments) + PrintSegment(s)
    ensures Reached(start, segments + [s]) == After(Reached(start, segments), s)
  {
    hide PrintSegment, ProperSegment, Images;
    assert (segments + [s])[..|segments|] == segments;
    ImagesStep(segments, s);
  }

  lemma {:induction false} PrefixStands(data: seq<byte>, start: nat, segments: seq<Segment>, n: nat)
    requires ProperSegments(segments) && n <= |segments| && Stands(data, start, PrintSegments(segments))
    ensures Stands(data, start, PrintSegments(segments[..n]))
    decreases |segments|
  {
    hide PrintSegment, ProperSegment, Stands;
    if n == |segments| {
      assert segments[..n] == segments;
    } else {
      var front := segments[..|segments| - 1];
      StandsSplit(data, start, PrintSegments(front), PrintSegment(segments[|front|]));
      PrefixStands(data, start, front, n);
      assert front[..n] == segments[..n];
    }
  }

  lemma {:induction false} WrittenIsScanned(data: seq<byte>, start: nat, segments: seq<Segment>, n: nat)
    requires ProperSegments(segments) && n <= |segments|
    requires Stands(data, start, PrintSegments(segments)) && Stands(data, Reached(start, segments).offset, [0x3B])
    ensures Scan(data, Reached(start, segments[..n])) == Some((Images(segments), Duration(segments)))
    decreases |segments| - n
  {
    hide PrintSegment, ProperSegment, PrintSegments, Images, Duration, Pending, Stands;
    if n == |segments| {
      assert segments[..n] == segments;
      StandsAt(data, Reached(start, segments).offset, [0x3B], 0);
      assert Stands(data, Reached(start, segments).offset, [0x3B]);
      TrailerEnds(data, Reached(start, segments));
    } else {
      var c, s := Reached(start, segments[..n]), segments[n];
      assert segments[..n] + [s] == segments[..n + 1];
      ReachedStep(start, segments[..n], s);
      PrefixStands(data, start, segments, n + 1);
      StandsSplit(data, start, PrintSegments(segments[..n]), PrintSegment(s));
      SegmentIsRead(data, c, s);
      ScanStep(data, c);
      WrittenIsScanned(data, start, segments, n + 1);
    }
  }

  lemma TrailerEnds(data: seq<byte>, c: Cursor)
    requires Stands(data, c.offset, [0x3B])
    ensures Scan(data, c) == Some((c.frames, c.duration))
  {
    StandsAt(data, c.offset, [0x3B], 0);
  }

  lemma ScanStep(data: seq<byte>, c: Cursor)
    requires c.offset < |data| && Block(data, c).Continue?
    ensures Scan(data, c) == Scan(data, Block(data, c).next)
  {
    hide Block;
  }

  lemma {:induction false} ScannedIsWritten(data: seq<byte>, start: nat, segments: seq<Segment>)
    returns (all: seq<Segment>)
    requires ProperSegments(segments) && Stands(data, start, PrintSegments(segments))
    requires Scan(data, Reached(start, segments)).Some?
    ensures ProperSegments(all)
    ensures Stands(data, start, PrintSegments(all)) && Stands(data, Reached(start, all).offset, [0x3B])
    ensures Scan(data, Reached(start, segments)) == Some((Images(all), Duration(all)))
    decreases |data| - |PrintSegments(segments)|
  {
    hide PrintSegment, ProperSegment, PrintSegments, Images, Duration, Pending, Stands;
    var c := Reached(start, segments);
    if data[c.offset] == 0x3B {
      all := segments;
      TrailerStands(data, c.offset);
      TrailerEnds(data, c);
    } else {
      ContinueOrNone(data, c);
      var s := ReadIsSegment(data, c);
      ReachedStep(start, segments, s);
      StandsSplit(data, start, PrintSegments(segments), PrintSegment(s));
      StandsFits(data, start, PrintSegments(segments + [s]));
      all := ScannedIsWritten(data, start, segments + [s]);
    }
  }

  lemma TrailerStands(data: seq<byte>, at: nat)
    requires at < |data| && data[at] == 0x3B
    ensures Stands(data, at, [0x3B])
  {
    assert data[at..at + 1] == [0x3B];
  }

  lemma ContinueOrNone(data: seq<byte>, c: Cursor)
    requires c.offset < |data| && data[c.offset] != 0x3B && Scan(data, c).Some?
    ensures Block(data, c).Continue? && Scan(data, c) == Scan(data, Block(data, c).next)
  {
    hide Skipped, TableBytes, Le16;
  }

  // ----- the whole stream

  lemma HeadStands(data: seq<byte>, a: Animation)
    requires Proper(a) && Stands(data, 0, PrintHead(a))
    ensures |data| >= 13 && data[..6] == a.version && data[10] == a.packed
    ensures Le16(data, 6) == a.width && Le16(data, 8) == a.height
  {
    hide Le16, Halfword, TableBytes;
    var w, h := Halfword(a.width), Halfword(a.height);
    var tail := [a.packed, a.background, a.aspect];
    StandsSplit(data, 0, a.version + w + h + tail, a.table);
    StandsSplit(data, 0, a.version + w + h, tail);
    StandsSplit(data, 0, a.version + w, h);
    StandsSplit(data, 0, a.version, w);
    StandsAt(data, 10, tail, 0);
    HalfwordIsRead(data, 6, a.width);
    HalfwordIsRead(data, 8, a.height);
  }

  lemma StartIsReached(start: nat)
    ensures Reached(start, []) == Cursor(start, 0, 0, 0)
  {
    var none: seq<Segment> := [];
    assert (set i | 0 <= i < |none| && none[i].Image?) == {};
  }

  /** Whatever follows the trailer, a written animation is described. */
  lemma PrintedIsRead(data: seq<byte>, a: Animation)
    requires Proper(a) && Print(a) <= data
    ensures Read(data) == Some(Describe(a))
  {
    hide PrintSegment, PrintSegments, ProperSegment, TableBytes, Le16, PrintHead, Scan, Images, Duration, Pending;
    var head, segments := PrintHead(a), PrintSegments(a.segments);
    assert Stands(data, 0, Print(a));
    StandsSplit(data, 0, head + segments, [0x3B]);
    StandsSplit(data, 0, head, segments);
    HeadStands(data, a);
    assert a.segments[..0] == [];
    StartIsReached(|head|);
    WrittenIsScanned(data, |head|, a.segments, 0);
  }

  lemma ReadIsHead(data: seq<byte>) returns (a: Animation)
    requires Read(data).Some? && 13 + TableBytes(data[10]) <= |data|
    ensures Proper(a) && a.segments == [] && Stands(data, 0, PrintHead(a)) && a.packed == data[10]
    ensures a.width == Le16(data, 6) && a.height == Le16(data, 8)
  {
    hide Le16, Halfword, TableBytes, Scan;
    var width := ReadIsHalfword(data, 6);
    var height := ReadIsHalfword(data, 8);
    var table := data[13..13 + TableBytes(data[10])];
    a := Animation(data[..6], width, height, data[10], data[11], data[12], table, []);
    var w, h := Halfword(width), Halfword(height);
    var tail := [a.packed, a.background, a.aspect];
    assert data[10..13] == tail;
    StandsSplit(data, 0, a.version, w);
    StandsSplit(data, 0, a.version + w, h);
    StandsSplit(data, 0, a.version + w + h, tail);
    StandsSplit(data, 0, a.version + w + h + tail, table);
  }

  lemma ScanStartsInside(data: seq<byte>, c: Cursor)
    requires Scan(data, c).Some?
    ensures c.offset < |data|
  {
    hide Block;
  }

  /** Whatever is read is the description of an animation written at the front of the data. */
  lemma ReadIsPrinted(data: seq<byte>) returns (a: Animation)
    requires Read(data).Some?
    ensures Proper(a) && Print(a) <= data && Read(data) == Some(Describe(a))
  {
    hide PrintSegment, PrintSegments, ProperSegment, TableBytes, Le16, PrintHead, Scan, Images, Duration, Pending;
    var start := 13 + TableBytes(data[10]);
    ScanStartsInside(data, Cursor(start, 0, 0, 0));
    var front := ReadIsHead(data);
    var head := PrintHead(front);
    StartIsReached(start);
    NothingStands(data, start);
    var segments := ScannedIsWritten(data, start, []);
    a := front.(segments := segments);
    HeadIgnoresSegments(front, a);
    StandsSplit(data, 0, head, PrintSegments(segments));
    StandsSplit(data, 0, head + PrintSegments(segments), [0x3B]);
    assert data[..|Print(a)|] == Print(a);
  }

  lemma NothingStands(data: seq<byte>, at: nat)
    requires at <= |data|
    ensures PrintSegments([]) == [] && Stands(data, at, [])
  {
  }

  lemma HeadIgnoresSegments(a: Animation, b: Animation)
    requires Proper(a) && Proper(b) && b == a.(segments := b.segments)
    ensures PrintHead(a) == PrintHead(b)
  {
    hide Halfword;
  }

  /** The reader accepts exactly the written animations, with exactly their descriptions. */
  lemma ReadsExactlyWhatIsWritten(data: seq<byte>, m: Metadata)
    ensures Read(data) == Some(m) <==> exists a :: Proper(a) && Print(a) <= data && Describe(a) == m
  {
    hide Proper, Print, Describe, Read;
    forall a | Proper(a) && Print(a) <= data
      ensures Read(data) == Some(Describe(a))
    {
      PrintedIsRead(data, a);
    }
    if Read(data).Some? {
      var a := ReadIsPrinted(data);
      assert Proper(a) && Print(a) <= data;
    }
  }

  // ----- plain text

  /** Section 23: the next graphic uses a control block up, and a plain-text block is a graphic. */
  function SpecPending(segments: seq<Segment>): nat {
    if segments == [] then 0
    else
      var n := |segments| - 1;
      match segments[n]
      case Control(_, delay, _) => delay
      case Image(_, _, _, _, _) => 0
      case Extension(kind, _) => if kind == 0x01 then 0 else SpecPending(segments[..n])
  }

  /** The delays of the images, read that way. */
  function SpecDuration(segments: seq<Segment>): nat {
    if segments == [] then 0
    else
      var n := |segments| - 1;
      SpecDuration(segments[..n]) + if segments[n].Image? then SpecPending(segments[..n]) else 0
  }

  /** Block `i` sets a delay and no control block or image follows it. */
  predicate SetsDelay(segments: seq<Segment>, i: nat) {
    && i < |segments| && segments[i].Control? && segments[i].delay != 0
    && forall m :: i < m < |segments| ==> segments[m].Extension?
  }

  predicate IsText(s: Segment) { s.Extension? && s.kind == 0x01 }

  /** A plain-text block `j` stands behind that delay. */
  predicate TextTakesDelay(segments: seq<Segment>, i: nat, j: nat) {
    SetsDelay(segments, i) && i < j < |segments| && IsText(segments[j])
  }

  /** Image `k` follows a delay set at `i` and a plain-text block at `j`, with only extensions between. */
  predicate Misattributed(segments: seq<Segment>, i: nat, j: nat, k: nat) {
    k < |segments| && segments[k].Image? && TextTakesDelay(segments[..k], i, j)
  }

  lemma {:induction false} PendingIsSet(segments: seq<Segment>)
    ensures Pending(segments) != 0 <==> exists i: nat :: SetsDelay(segments, i)
    decreases |segments|
  {
    if segments != [] {
      var n := |segments| - 1;
      var front := segments[..n];
      PendingIsSet(front);
      forall i: nat | i < n && segments[n].Extension?
        ensures SetsDelay(segments, i) <==> SetsDelay(front, i)
      {
        assert forall m :: i < m < n ==> front[m] == segments[m];
      }
      if segments[n].Control? && segments[n].delay != 0 {
        assert SetsDelay(segments, n);
      }
    }
  }

  lemma {:induction false} PendingIsTaken(segments: seq<Segment>)
    ensures SpecPending(segments) <= Pending(segments)
    ensures SpecPending(segments) != Pending(segments) <==> exists i: nat, j: nat :: TextTakesDelay(segments, i, j)
    decreases |segments|
  {
    if segments != [] {
      var n := |segments| - 1;
      var front := segments[..n];
      PendingIsTaken(front);
      PendingIsSet(front);
      forall i: nat | i < n && segments[n].Extension?
        ensures SetsDelay(segments, i) <==> SetsDelay(front, i)
      {
        assert forall m :: i < m < n ==> front[m] == segments[m];
      }
      if IsText(segments[n]) && Pending(front) != 0 {
        var i: nat :| SetsDelay(front, i);
        assert TextTakesDelay(segments, i, n);
      } else if segments[n].Extension? && SpecPending(front) != Pending(front) {
        var i: nat, j: nat :| TextTakesDelay(front, i, j);
        assert TextTakesDelay(segments, i, j);
      }
      forall i: nat, j: nat | TextTakesDelay(segments, i, j)
        ensures SpecPending(segments) != Pending(segments)
      {
        if j < n {
          assert TextTakesDelay(front, i, j);
        }
      }
    }
  }

  /**
    The durations agree exactly when no image follows a control block with a delay and a plain-text block,
    with nothing but extensions between; otherwise the code's is longer.
   */
  lemma {:induction false} DurationIsOfImages(segments: seq<Segment>)
    ensures SpecDuration(segments) <= Duration(segments)
    ensures Duration(segments) == SpecDuration(segments)
       <==> !exists i: nat, j: nat, k: nat :: Misattributed(segments, i, j, k)
    decreases |segments|
  {
    hide Pending, SpecPending, TextTakesDelay;
    if segments != [] {
      var n := |segments| - 1;
      var front := segments[..n];
      DurationIsOfImages(front);
      PendingIsTaken(front);
      forall i: nat, j: nat, k: nat | k < n
        ensures Misattributed(segments, i, j, k) <==> Misattributed(front, i, j, k)
      {
        assert front[..k] == segments[..k];
      }
      if Duration(front) != SpecDuration(front) {
        var i: nat, j: nat, k: nat :| Misattributed(front, i, j, k);
        assert Misattributed(segments, i, j, k);
      }
      if segments[n].Image? && SpecPending(front) != Pending(front) {
        var i: nat, j: nat :| TextTakesDelay(front, i, j);
        assert Misattributed(segments, i, j, n);
      }
    }
  }

  lemma TextExample(control: Segment, text: Segment, image: Segment)
    requires control.Control? && IsText(text) && image.Image?
    ensures var all := [control, text, image];
      Images(all) == 1 && Duration(all) == control.delay && SpecDuration(all) == 0
  {
    hide Images;
    var none: seq<Segment> := [];
    StartIsReached(0);
    DurationStep(none, control);
    DurationStep([control], text);
    DurationStep([control, text], image);
    assert none + [control] == [control] && [control] + [text] == [control, text];
    assert [control, text] + [image] == [control, text, image];
  }

  lemma DurationStep(segments: seq<Segment>, s: Segment)
    ensures Images(segments + [s]) == Images(segments) + if s.Image? then 1 else 0
    ensures Duration(segments + [s]) == Duration(segments) + if s.Image? then Pending(segments) else 0
    ensures SpecDuration(segments + [s]) == SpecDuration(segments) + if s.Image? then SpecPending(segments) else 0
    ensures s.Extension? ==> Pending(segments + [s]) == Pending(segments)
    ensures s.Control? ==> Pending(segments + [s]) == s.delay == SpecPending(segments + [s])
    ensures IsText(s) ==> SpecPending(segments + [s]) == 0
  {
    ImagesStep(segments, s);
    assert (segments + [s])[..|segments|] == segments;
  }

  /** A delay of 10, a plain-text block and an image without any delay: the reader reports 10. */
  lemma PlainTextIsCounted() returns (a: Animation)
    ensures Proper(a) && Read(Print(a)) == Some(Metadata(1, 1, 1, 10)) && SpecDuration(a.segments) == 0
  {
    hide Read, Print, Images, Duration, SpecDuration;
    var control, text := Control(0, 10, 0), Extension(0x01, []);
    var image := Image(seq(8, _ => 0), 0, [], 2, []);
    NoTable();
    a := Animation(GIF89A, 1, 1, 0, 0, 0, [], [control, text, image]);
    TextExample(control, text, image);
    PrintedIsRead(Print(a), a);
  }

  lemma NoTable()
    ensures TableBytes(0) == 0
  {
    ZeroOperand(0x80);
  }
}
