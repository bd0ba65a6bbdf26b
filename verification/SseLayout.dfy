/** How an event stream may be written without changing what it says (section 9.2.6 of the WHATWG HTML Living
    Standard, as crates/voleeo-http/src/sse.rs reads it): comments, unknown fields, spacing, line ends, and the byte
    order mark. */
module SseLayout {
  import opened Text
  import opened Sequences
  import opened SseDecoding
  import opened SsePrinting
  import opened Utf8

  lemma FieldNamesSpelled()
    ensures EVENT == Ascii("event") && DATA == Ascii("data") && ID == Ascii("id") && RETRY == Ascii("retry")
  {
  }

  predicate IsFieldName(name: Bytes) { name == EVENT || name == DATA || name == ID || name == RETRY }

  // ---- lines that say nothing, lines that say the same ----

  predicate NotFieldLine(line: Bytes, name: Bytes) {
    line != name && line != name + [CR] && !StartsWith(line, name + [COLON])
  }

  /** A comment or a line of an unknown field: not blank, and no line of one of the four fields. */
  predicate Noise(line: Bytes) {
    && line != [] && line != [CR]
    && NotFieldLine(line, EVENT) && NotFieldLine(line, DATA) && NotFieldLine(line, ID) && NotFieldLine(line, RETRY)
  }

  /** One space more after the colon. */
  ghost predicate Respaced(line: Bytes, spaced: Bytes) {
    exists name: Bytes, v: Bytes ::
      && COLON !in name && (v == [] || v[0] != SPACE)
      && line == name + [COLON] + v && spaced == name + [COLON] + ([SPACE] + v)
  }

  predicate NoFinalReturn(line: Bytes) { line == [] || line[|line| - 1] != CR }

  /** A bare name is a field with an empty value. */
  predicate Bared(name: Bytes, line: Bytes) {
    name != [] && COLON !in name && NoFinalReturn(name) && line == name + [COLON]
  }

  /** A line ended by CRLF instead of LF. */
  predicate Returned(line: Bytes, longer: Bytes) { NoFinalReturn(line) && longer == line + [CR] }

  ghost predicate SameLine(line: Bytes, other: Bytes) {
    || line == other
    || Respaced(line, other) || Respaced(other, line)
    || Bared(line, other) || Bared(other, line)
    || Returned(line, other) || Returned(other, line)
  }

  /** The same lines, noise apart. */
  ghost predicate SameLines(a: seq<Bytes>, b: seq<Bytes>)
    decreases |a| + |b|
  {
    || (a == [] && b == [])
    || (a != [] && Noise(a[0]) && SameLines(a[1..], b))
    || (b != [] && Noise(b[0]) && SameLines(a, b[1..]))
    || (a != [] && b != [] && SameLine(a[0], b[0]) && SameLines(a[1..], b[1..]))
  }

  predicate OneLineEach(lines: seq<Bytes>) { forall i :: 0 <= i < |lines| ==> LF !in lines[i] }

  // ---- what one line does ----

  lemma NoReplacementInName(name: Bytes)
    requires IsFieldName(name)
    ensures !HasReplacement(name)
  {
    assert forall i :: 0 <= i < |name| ==> name[i] < 0x80;
  }

  lemma RepairedName(x: Bytes)
    requires IsFieldName(Repair(x))
    ensures Repair(x) == x
  {
    NoReplacementInName(Repair(x));
    RepairFixes(x);
    if !ValidUtf8(x) { RepairMarks(x); }
  }

  /** The part of a line before its first colon. */
  function NameOf(line: Bytes): Bytes { match SplitOnce(line, COLON) case None => line case Some(p) => p.0 }

  /** The field name of a line, before and after the repair. */
  lemma NameRepaired(line: Bytes)
    ensures FieldValue(Repair(line)).0 == Repair(NameOf(line))
  {
    match SplitOnce(line, COLON)
    case None => RepairKeepsAscii(line, COLON);
    case Some((x, y)) =>
      AsciiSeparates(x, COLON, y);
      RepairKeepsAscii(x, COLON);
      SplitOnceAt(Repair(x), Repair(y), COLON);
  }

  lemma NotNamed(line: Bytes, name: Bytes)
    requires line != [] && NotFieldLine(line, name)
    ensures NameOf(StripCr(line)) != name
  {
    var l := StripCr(line);
    assert line == l || line == l + [CR];
    assert COLON in l ==> line[..|NameOf(l)| + 1] == NameOf(l) + [COLON];
  }

  lemma NoiseIgnored(f: Fields, line: Bytes)
    requires Noise(line)
    ensures Feed(f, StripCr(line)) == (f, [])
  {
    var l := StripCr(line);
    NotNamed(line, EVENT);
    NotNamed(line, DATA);
    NotNamed(line, ID);
    NotNamed(line, RETRY);
    NameRepaired(l);
    if IsFieldName(Repair(NameOf(l))) { RepairedName(NameOf(l)); }
    assert l == [] ==> line == [] || line == [CR];
    FeedUnknown(f, l);
  }

  lemma FeedUnknown(f: Fields, line: Bytes)
    requires line != [] && !IsFieldName(FieldValue(Repair(line)).0)
    ensures Feed(f, line) == (f, [])
  {
  }

  lemma FirstByteKept(s: Bytes)
    requires s == [] || s[0] != SPACE
    ensures Repair(s) == [] || Repair(s)[0] != SPACE
  {
  }

  lemma StripAfterColon(name: Bytes, v: Bytes)
    ensures StripCr(name + [COLON] + v) == name + [COLON] + StripCr(v)
  {
    if v != [] { assert (name + [COLON] + v)[|name + [COLON] + v| - 1] == v[|v| - 1]; }
  }

  /** The field and the value of a line with a colon. */
  lemma FieldOf(name: Bytes, v: Bytes)
    requires COLON !in name
    ensures FieldValue(Repair(name + [COLON] + v)) == (Repair(name), StripSpace(Repair(v)))
  {
    AsciiSeparates(name, COLON, v);
    RepairKeepsAscii(name, COLON);
    SplitOnceAt(Repair(name), Repair(v), COLON);
  }

  lemma SpaceStripped(v: Bytes)
    requires v == [] || v[0] != SPACE
    ensures StripSpace(Repair(v)) == Repair(v) == StripSpace(Repair([SPACE] + v))
  {
    FirstByteKept(v);
    ValidCons([SPACE], v);
    assert ([SPACE] + Repair(v))[1..] == Repair(v);
  }

  lemma FeedSame(f: Fields, line: Bytes, other: Bytes)
    requires SameLine(line, other)
    ensures Feed(f, StripCr(line)) == Feed(f, StripCr(other))
  {
    if Respaced(line, other) { RespacedFeeds(f, line, other); }
    if Respaced(other, line) { RespacedFeeds(f, other, line); }
    if Bared(line, other) { BaredFeeds(f, line, other); }
    if Bared(other, line) { BaredFeeds(f, other, line); }
  }

  lemma RespacedFeeds(f: Fields, line: Bytes, spaced: Bytes)
    requires Respaced(line, spaced)
    ensures Feed(f, StripCr(line)) == Feed(f, StripCr(spaced))
  {
    var name: Bytes, v: Bytes :| && COLON !in name && (v == [] || v[0] != SPACE)
                                 && line == name + [COLON] + v && spaced == name + [COLON] + ([SPACE] + v);
    StripAfterColon(name, v);
    StripAfterColon(name, [SPACE] + v);
    assert StripCr([SPACE] + v) == [SPACE] + StripCr(v);
    FieldOf(name, StripCr(v));
    FieldOf(name, [SPACE] + StripCr(v));
    SpaceStripped(StripCr(v));
    FeedsByField(f, StripCr(line), StripCr(spaced));
  }

  lemma FeedsByField(f: Fields, line: Bytes, other: Bytes)
    requires line != [] && other != [] && line[0] == other[0] && FieldValue(Repair(line)) == FieldValue(Repair(other))
    ensures Feed(f, line) == Feed(f, other)
  {
  }

  lemma BaredFeeds(f: Fields, name: Bytes, line: Bytes)
    requires Bared(name, line)
    ensures Feed(f, StripCr(name)) == Feed(f, StripCr(line))
  {
    assert line == name + [COLON] + [];
    FieldOf(name, []);
    RepairKeepsAscii(name, COLON);
    FeedsByField(f, name, line);
  }

  // ---- whole streams ----

  lemma TerminatedHead(lines: seq<Bytes>, tail: Bytes)
    requires lines != []
    ensures Terminated(lines) + tail == lines[0] + [LF] + (Terminated(lines[1..]) + tail)
  {
  }

  lemma {:induction false} DrainSame(f: Fields, a: seq<Bytes>, b: seq<Bytes>, tail: Bytes)
    requires SameLines(a, b) && OneLineEach(a) && OneLineEach(b)
    ensures Drain(f, Terminated(a) + tail) == Drain(f, Terminated(b) + tail)
    decreases |a| + |b|
  {
    if a != [] && Noise(a[0]) && SameLines(a[1..], b) {
      SkipNoise(f, a, tail);
      DrainSame(f, a[1..], b, tail);
    } else if b != [] && Noise(b[0]) && SameLines(a, b[1..]) {
      SkipNoise(f, b, tail);
      DrainSame(f, a, b[1..], tail);
    } else if a != [] {
      FeedSame(f, a[0], b[0]);
      TerminatedHead(a, tail);
      TerminatedHead(b, tail);
      DrainLine(f, a[0], Terminated(a[1..]) + tail);
      DrainLine(f, b[0], Terminated(b[1..]) + tail);
      DrainSame(Feed(f, StripCr(a[0])).0, a[1..], b[1..], tail);
    }
  }

  lemma SkipNoise(f: Fields, lines: seq<Bytes>, tail: Bytes)
    requires lines != [] && LF !in lines[0] && Noise(lines[0])
    ensures Drain(f, Terminated(lines) + tail) == Drain(f, Terminated(lines[1..]) + tail)
  {
    NoiseIgnored(f, lines[0]);
    TerminatedHead(lines, tail);
    DrainLine(f, lines[0], Terminated(lines[1..]) + tail);
    AfterAfter(Drain(f, Terminated(lines[1..]) + tail), [], []);
  }

  /** The chunks carry these bytes, with a byte order mark in front, or without one where that cannot be mistaken. */
  ghost predicate Carries(chunks: seq<Bytes>, bytes: Bytes) {
    || Flatten(chunks) == BOM + bytes
    || (Flatten(chunks) == bytes && SafeHead(START, bytes) && !StartsWith(bytes, BOM))
  }

  /** The frames of a stream in one piece. */
  function Whole(bytes: Bytes): seq<RawFrame> {
    var d := Drain(NO_FIELDS, bytes);
    d.frames + Finish(State(d.rest, d.fields, true)).frames
  }

  lemma DecodesWhole(chunks: seq<Bytes>, bytes: Bytes)
    requires Carries(chunks, bytes)
    ensures Decode(chunks) == Whole(bytes)
  {
    var sent := Flatten(chunks);
    assert START.buf + sent == sent;
    if sent == BOM + bytes {
      MarkedHead(bytes);
    }
    ChunkingIrrelevant(START, chunks);
  }

  lemma MarkedHead(bytes: Bytes)
    ensures SafeHead(START, BOM + bytes) && StripBom(BOM + bytes) == bytes && |BOM + bytes| >= 3
  {
    var sent := BOM + bytes;
    assert START.buf + sent == sent;
    assert sent[..2] == [0xEF, 0xBB] && sent[..3] == BOM && sent[3..] == bytes;
  }

  /** Noise anywhere, a space after the colon or none, a colon after a bare name or none, CRLF or LF, a byte order mark
      or none, and the cutting into chunks change nothing that is decoded. */
  lemma LayoutIrrelevant(a: seq<Bytes>, b: seq<Bytes>, tail: Bytes, chunks: seq<Bytes>, others: seq<Bytes>)
    requires SameLines(a, b) && OneLineEach(a) && OneLineEach(b)
    requires Carries(chunks, Terminated(a) + tail) && Carries(others, Terminated(b) + tail)
    ensures Decode(chunks) == Decode(others)
  {
    DecodesWhole(chunks, Terminated(a) + tail);
    DecodesWhole(others, Terminated(b) + tail);
    DrainSame(NO_FIELDS, a, b, tail);
  }

  /** What a stream leaves unfinished is decoded as if its last line and a blank line had come. */
  lemma UnfinishedCounts(bytes: Bytes, chunks: seq<Bytes>, finished: seq<Bytes>)
    requires NoFinalReturn(bytes) && Carries(chunks, bytes) && Carries(finished, bytes + [LF, LF])
    ensures Decode(chunks) == Decode(finished)
  {
    DecodesWhole(chunks, bytes);
    DecodesWhole(finished, bytes + [LF, LF]);
    FinishedWhole(bytes);
  }

  lemma FinishedWhole(bytes: Bytes)
    requires NoFinalReturn(bytes)
    ensures Whole(bytes + [LF, LF]) == Whole(bytes)
  {
    var d := Drain(NO_FIELDS, bytes);
    DrainAppend(NO_FIELDS, bytes, [LF, LF]);
    RestIsSuffix(NO_FIELDS, bytes);
    LastLines(d.fields, d.rest);
    var e := Drain(d.fields, d.rest + [LF, LF]);
    Regroup(d.frames, e.frames, Finish(State(e.rest, e.fields, true)).frames);
  }

  lemma {:induction false} RestIsSuffix(f: Fields, b: Bytes)
    ensures var rest := Drain(f, b).rest; |rest| <= |b| && rest == b[|b| - |rest|..]
    decreases |b|
  {
    match SplitOnce(b, LF)
    case None =>
    case Some((line, later)) => RestIsSuffix(Feed(f, StripCr(line)).0, later);
  }

  lemma LastLines(f: Fields, line: Bytes)
    requires LF !in line && NoFinalReturn(line)
    ensures var d := Drain(f, line + [LF, LF]);
            d.frames + Finish(State(d.rest, d.fields, true)).frames == Finish(State(line, f, true)).frames
  {
    var (g, out) := Feed(f, line);
    DrainTwo(f, line);
    FinishClean(if g.dirty then NO_FIELDS else g);
    if line == [] { BlankThenBlank(f); } else { LineThenBlank(f, line); }
    assert out + (if g.dirty then [Dispatch(g)] else []) + [] == out + (if g.dirty then [Dispatch(g)] else []);
    assert out == [] || !g.dirty;
  }

  lemma DrainTwo(f: Fields, line: Bytes)
    requires LF !in line && NoFinalReturn(line)
    ensures var (g, out) := Feed(f, line);
            Drain(f, line + [LF, LF])
            == Drained(if g.dirty then NO_FIELDS else g, out + if g.dirty then [Dispatch(g)] else [], [])
  {
    assert line + [LF, LF] == line + [LF] + [LF];
    DrainLine(f, line, [LF]);
    DrainBlank(Feed(f, line).0);
  }

  lemma FinishClean(f: Fields)
    requires !f.dirty
    ensures Finish(State([], f, true)).frames == []
  {
  }

  lemma BlankThenBlank(f: Fields)
    ensures var (g, out) := Feed(f, []); !g.dirty && out == Finish(State([], f, true)).frames
  {
    assert [] + [Dispatch(f)] == [Dispatch(f)];
  }

  lemma LineThenBlank(f: Fields, line: Bytes)
    requires line != []
    ensures var (g, out) := Feed(f, line);
            out == [] && Finish(State(line, f, true)).frames == if g.dirty then [Dispatch(g)] else []
  {
  }

  lemma DrainBlank(f: Fields)
    ensures Drain(f, [LF]) == Drained(if f.dirty then NO_FIELDS else f, if f.dirty then [Dispatch(f)] else [], [])
  {
    assert [LF] == [] + [LF] + [];
    DrainLine(f, [], []);
  }

  // ---- what a stream says ----

  /** A field line by name and value. */
  datatype Entry = Entry(name: Bytes, value: Bytes)

  predicate IsEntry(e: Entry) { IsFieldName(e.name) && LF !in e.value }

  function EntryLine(e: Entry): Bytes { e.name + [COLON] + ([SPACE] + e.value) }

  /** The values given for a field, in order, as they are read. */
  function ValuesFor(es: seq<Entry>, name: Bytes): seq<Bytes> {
    Map(Filter(es, (e: Entry) => e.name == name), (e: Entry) => ReadText(e.value))
  }

  function Latest(values: seq<Bytes>): Option<Bytes> {
    if values == [] then None else Some(values[|values| - 1])
  }

  /** The frame of a block of field lines: the last event name, id and retry time, and all data lines. */
  function FrameOf(es: seq<Entry>): RawFrame {
    RawFrame(Latest(ValuesFor(es, EVENT)), Join(ValuesFor(es, DATA), LF), Latest(ValuesFor(es, ID)),
             RetryTime(ValuesFor(es, RETRY)))
  }

  function RetryTime(values: seq<Bytes>): Option<U32> {
    match Latest(values) case None => None case Some(v) => ParseU32(v)
  }

  /** The fields gathered after these lines. */
  function Gathered(es: seq<Entry>): Fields {
    Fields(Latest(ValuesFor(es, EVENT)), ValuesFor(es, DATA), Latest(ValuesFor(es, ID)),
           RetryTime(ValuesFor(es, RETRY)), es != [])
  }

  lemma ValuesForSnoc(es: seq<Entry>, e: Entry, name: Bytes)
    ensures ValuesFor(es + [e], name) == ValuesFor(es, name) + if e.name == name then [ReadText(e.value)] else []
  {
    FilterSnoc(es, e, (x: Entry) => x.name == name);
  }

  lemma NamesDiffer()
    ensures EVENT != DATA && EVENT != ID && EVENT != RETRY && DATA != ID && DATA != RETRY && ID != RETRY
  {
    assert |EVENT| == 5 && |DATA| == 4 && |ID| == 2 && |RETRY| == 5 && EVENT[0] != RETRY[0];
  }

  lemma GatheredSnoc(es: seq<Entry>, e: Entry)
    requires IsEntry(e)
    ensures var f, v := Gathered(es), ReadText(e.value);
            Gathered(es + [e])
            == if e.name == EVENT then f.(event := Some(v), dirty := true)
               else if e.name == DATA then f.(data := f.data + [v], dirty := true)
               else if e.name == ID then f.(id := Some(v), dirty := true)
               else f.(retry := ParseU32(v), dirty := true)
  {
    NamesDiffer();
    ValuesAfter(es, e, EVENT);
    ValuesAfter(es, e, DATA);
    ValuesAfter(es, e, ID);
    ValuesAfter(es, e, RETRY);
  }

  lemma ValuesAfter(es: seq<Entry>, e: Entry, name: Bytes)
    ensures e.name != name ==> ValuesFor(es + [e], name) == ValuesFor(es, name)
    ensures e.name == name ==>
              && ValuesFor(es + [e], name) == ValuesFor(es, name) + [ReadText(e.value)]
              && Latest(ValuesFor(es + [e], name)) == Some(ReadText(e.value))
  {
    ValuesForSnoc(es, e, name);
    assert ValuesFor(es, name) + [] == ValuesFor(es, name);
  }

  lemma FeedEntry(es: seq<Entry>, e: Entry)
    requires IsEntry(e)
    ensures Feed(Gathered(es), StripCr(EntryLine(e))) == (Gathered(es + [e]), []) && LF !in EntryLine(e)
  {
    EntryField(e);
    GatheredSnoc(es, e);
    FeedNamed(Gathered(es), StripCr(EntryLine(e)), e.name, ReadText(e.value));
  }

  lemma FeedNamed(f: Fields, line: Bytes, name: Bytes, v: Bytes)
    requires line != [] && line[0] != COLON && FieldValue(Repair(line)) == (name, v) && IsFieldName(name)
    ensures Feed(f, line)
         == (if name == EVENT then f.(event := Some(v), dirty := true)
             else if name == DATA then f.(data := f.data + [v], dirty := true)
             else if name == ID then f.(id := Some(v), dirty := true)
             else f.(retry := ParseU32(v), dirty := true), [])
  {
  }

  lemma EntryField(e: Entry)
    requires IsEntry(e)
    ensures LF !in EntryLine(e)
    ensures var line := StripCr(EntryLine(e));
            line != [] && line[0] != COLON && FieldValue(Repair(line)) == (e.name, ReadText(e.value))
  {
    assert EntryLine(e) == e.name + [COLON, SPACE] + e.value;
    PrefixedLine(e.name, e.value);
  }

  function EntryLines(es: seq<Entry>): seq<Bytes> { Map(es, EntryLine) }

  predicate AreEntries(es: seq<Entry>) { forall i :: 0 <= i < |es| ==> IsEntry(es[i]) }

  lemma {:induction false} DrainEntries(es: seq<Entry>, rest: Bytes)
    requires AreEntries(es)
    ensures Drain(NO_FIELDS, Terminated(EntryLines(es)) + rest) == Drain(Gathered(es), rest)
  {
    if es == [] {
      assert [] + rest == rest;
    } else {
      var before, e := es[..|es| - 1], es[|es| - 1];
      assert es == before + [e];
      assert EntryLines(es) == EntryLines(before) + [EntryLine(e)];
      TerminatedThen(EntryLines(before), [EntryLine(e)], rest);
      DrainEntries(before, Terminated([EntryLine(e)]) + rest);
      FeedEntry(before, e);
      DrainOne(Gathered(before), EntryLine(e), rest, Gathered(es));
    }
  }

  /** The lines of blocks of fields, a blank line after each. */
  function BlockLines(blocks: seq<seq<Entry>>): seq<Bytes> {
    if blocks == [] then [] else EntryLines(blocks[0]) + [[]] + BlockLines(blocks[1..])
  }

  /** The frames that the blocks say; an empty block says none. */
  function FramesOf(blocks: seq<seq<Entry>>): seq<RawFrame> {
    if blocks == [] then [] else (if blocks[0] == [] then [] else [FrameOf(blocks[0])]) + FramesOf(blocks[1..])
  }

  predicate AreBlocks(blocks: seq<seq<Entry>>) { forall i :: 0 <= i < |blocks| ==> AreEntries(blocks[i]) }

  lemma {:induction false} DrainBlocks(blocks: seq<seq<Entry>>)
    requires AreBlocks(blocks)
    ensures Drain(NO_FIELDS, Terminated(BlockLines(blocks))) == Drained(NO_FIELDS, FramesOf(blocks), [])
  {
    if blocks != [] {
      var later := Terminated(BlockLines(blocks[1..]));
      BlockBytes(blocks);
      DrainEntries(blocks[0], [LF] + later);
      DrainBlocks(blocks[1..]);
      BlankLineDispatches(blocks[0], later);
      AfterAfter(Drain(NO_FIELDS, later), [], []);
    }
  }

  lemma BlockBytes(blocks: seq<seq<Entry>>)
    requires blocks != []
    ensures Terminated(BlockLines(blocks))
         == Terminated(EntryLines(blocks[0])) + ([LF] + Terminated(BlockLines(blocks[1..])))
  {
    TerminatedAppend(EntryLines(blocks[0]) + [[]], BlockLines(blocks[1..]));
    TerminatedAppend(EntryLines(blocks[0]), [[]]);
    BlankLine();
    Regroup(Terminated(EntryLines(blocks[0])), [LF], Terminated(BlockLines(blocks[1..])));
  }

  lemma BlankLineDispatches(es: seq<Entry>, later: Bytes)
    ensures Drain(Gathered(es), [LF] + later)
         == Drain(NO_FIELDS, later).After(if es == [] then [] else [FrameOf(es)])
  {
    assert [] + [LF] + later == [LF] + later;
    DrainLine(Gathered(es), [], later);
  }

  /** Any blocks of field lines, in any order and number, in any layout and over any chunking, decode to their
      frames. */
  lemma DecodesBlocks(blocks: seq<seq<Entry>>, lines: seq<Bytes>, chunks: seq<Bytes>)
    requires AreBlocks(blocks) && OneLineEach(lines) && SameLines(lines, BlockLines(blocks))
    requires Carries(chunks, Terminated(lines))
    ensures Decode(chunks) == FramesOf(blocks)
  {
    DecodesWhole(chunks, Terminated(lines));
    BlocksAreLines(blocks);
    DrainSame(NO_FIELDS, lines, BlockLines(blocks), []);
    assert Terminated(lines) + [] == Terminated(lines);
    assert Terminated(BlockLines(blocks)) + [] == Terminated(BlockLines(blocks));
    DrainBlocks(blocks);
  }

  lemma {:induction false} BlocksAreLines(blocks: seq<seq<Entry>>)
    requires AreBlocks(blocks)
    ensures OneLineEach(BlockLines(blocks))
  {
    if blocks != [] {
      BlocksAreLines(blocks[1..]);
      forall i | 0 <= i < |blocks[0]| ensures LF !in EntryLines(blocks[0])[i] { EntryField(blocks[0][i]); }
    }
  }

  // ---- retry times ----

  function Zeros(k: nat): Bytes { seq(k, _ => 48) }

  /** The text is a number as it may be written: a plus sign or none, leading zeros, and the decimal digits. */
  ghost predicate Spells(s: Bytes, n: nat) {
    exists k: nat :: s == Zeros(k) + Decimal(n) || s == [43] + Zeros(k) + Decimal(n)
  }

  /** A retry time is a number below 2^32, and nothing else is. */
  lemma RetryTimeMeaning(s: Bytes, n: U32)
    ensures ParseU32(s) == Some(n) <==> Spells(s, n)
  {
    if ParseU32(s) == Some(n) {
      var digits := Unsigned(s);
      ParsedDigits(s);
      var k := DigitsSpell(digits);
      assert s == digits || s == [43] + digits;
      if s != digits { assert s == [43] + Zeros(k) + Decimal(n); }
    }
    if k: nat :| s == Zeros(k) + Decimal(n) || s == [43] + Zeros(k) + Decimal(n) { SpelledParses(s, k, n); }
  }

  function Unsigned(s: Bytes): Bytes { if s != [] && s[0] == 43 then s[1..] else s }

  lemma ParsedDigits(s: Bytes)
    ensures ParseU32(s) == if Unsigned(s) != [] && AllDigits(Unsigned(s)) && DecimalValue(Unsigned(s)) < 0x1_0000_0000
                           then Some(DecimalValue(Unsigned(s))) else None
  {
  }

  lemma SpelledParses(s: Bytes, k: nat, n: U32)
    requires s == Zeros(k) + Decimal(n) || s == [43] + Zeros(k) + Decimal(n)
    ensures ParseU32(s) == Some(n)
  {
    var digits := Zeros(k) + Decimal(n);
    ZerosBefore(k, n);
    assert digits != [] && IsDigit(digits[0]);
    if s == digits {
      ParsedDigits(s);
    } else {
      assert [43] + Zeros(k) + Decimal(n) == [43] + digits;
      Signed(digits);
      ParsedDigits(s);
    }
  }

  lemma Signed(digits: Bytes)
    ensures Unsigned([43] + digits) == digits
  {
  }

  lemma {:induction false} DigitsSpell(digits: Bytes) returns (k: nat)
    requires digits != [] && AllDigits(digits)
    ensures digits == Zeros(k) + Decimal(DecimalValue(digits))
  {
    var before, last := digits[..|digits| - 1], digits[|digits| - 1];
    assert digits == before + [last] && IsDigit(last);
    if before == [] {
      k := 0;
      assert Zeros(0) + Decimal(DecimalValue(digits)) == [last];
    } else {
      k := DigitsSpell(before);
      if DecimalValue(before) == 0 {
        k := k + 1;
        assert Zeros(k) == Zeros(k - 1) + [48];
      } else {
        Regroup(Zeros(k), Decimal(DecimalValue(before)), [last]);
      }
    }
  }

  lemma {:induction false} ZerosBefore(k: nat, n: nat)
    ensures var digits := Zeros(k) + Decimal(n);
            && (forall i :: 0 <= i < |digits| ==> IsDigit(digits[i]))
            && DecimalValue(digits) == n
  {
    DecimalRoundTrip(n);
    LeadingZeros(k, Decimal(n));
  }

  lemma {:induction false} LeadingZeros(k: nat, s: Bytes)
    requires forall i :: 0 <= i < |s| ==> IsDigit(s[i])
    ensures (forall i :: 0 <= i < |Zeros(k) + s| ==> IsDigit((Zeros(k) + s)[i]))
    ensures DecimalValue(Zeros(k) + s) == DecimalValue(s)
    decreases k + |s|
  {
    var all := Zeros(k) + s;
    if s != [] {
      LeadingZeros(k, s[..|s| - 1]);
      assert all[..|all| - 1] == Zeros(k) + s[..|s| - 1];
    } else if k > 0 {
      LeadingZeros(k - 1, []);
      assert all[..|all| - 1] == Zeros(k - 1) + [];
    }
  }
}
