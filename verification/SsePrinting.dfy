/** Printing frames back as an event stream, and what the decoder makes of the print-out. */
module SsePrinting {
  import opened Text
  import opened Sequences
  import opened SseDecoding
  import opened Utf8

  const EVENT_PREFIX: Bytes := EVENT + [COLON, SPACE]
  const DATA_PREFIX: Bytes := DATA + [COLON, SPACE]
  const ID_PREFIX: Bytes := ID + [COLON, SPACE]
  const RETRY_PREFIX: Bytes := RETRY + [COLON, SPACE]

  // ---- printing ----

  function Optional(prefix: Bytes, v: Option<Bytes>): seq<Bytes> {
    match v case None => [] case Some(text) => [prefix + text]
  }

  function RetryText(f: RawFrame): Option<Bytes> {
    match f.retry case None => None case Some(n) => Some(Decimal(n))
  }

  function DataLines(parts: seq<Bytes>): seq<Bytes> {
    Map(parts, p => DATA_PREFIX + p)
  }

  /** The lines of one frame, the dispatching blank line last. */
  function FrameLines(f: RawFrame): seq<Bytes> {
    Optional(EVENT_PREFIX, f.event)
    + (Optional(ID_PREFIX, f.id) + (Optional(RETRY_PREFIX, RetryText(f)) + (DataLines(Split(f.data, LF)) + [[]])))
  }

  /** Each line followed by LF. */
  function Terminated(lines: seq<Bytes>): Bytes {
    if lines == [] then [] else lines[0] + [LF] + Terminated(lines[1..])
  }

  function Print(frames: seq<RawFrame>): Bytes {
    if frames == [] then [] else Terminated(FrameLines(frames[0])) + Print(frames[1..])
  }

  // ---- what survives the print-out ----

  /** What is read of a printed value: a carriage return at its end is taken for half of a CRLF, and ill-formed
      UTF-8 is repaired. */
  function ReadText(text: Bytes): Bytes { Repair(StripCr(text)) }

  function ReadOption(v: Option<Bytes>): Option<Bytes> {
    match v case None => None case Some(text) => Some(ReadText(text))
  }

  function AsRead(f: RawFrame): RawFrame {
    f.(event := ReadOption(f.event), id := ReadOption(f.id), data := Join(Map(Split(f.data, LF), ReadText), LF))
  }

  predicate OneLine(v: Option<Bytes>) {
    v.Some? ==> LF !in v.value
  }

  predicate OneLineFields(f: RawFrame) { OneLine(f.event) && OneLine(f.id) }

  predicate NoFinalCr(v: Bytes) { v == [] || v[|v| - 1] != CR }

  predicate CleanLine(v: Bytes) { NoFinalCr(v) && ValidUtf8(v) }

  /** Field text fits on one line, no printed line ends in a carriage return, and all is UTF-8. */
  predicate Printable(f: RawFrame) {
    && OneLineFields(f)
    && (f.event.Some? ==> CleanLine(f.event.value))
    && (f.id.Some? ==> CleanLine(f.id.value))
    && (forall part :: part in Split(f.data, LF) ==> CleanLine(part))
  }

  // ---- one printed line ----

  lemma ParsePrintedU32(n: U32)
    ensures ParseU32(Decimal(n)) == Some(n)
  {
    var s := Decimal(n);
    assert IsDigit(s[0]);
    DecimalRoundTrip(n);
  }

  lemma StripAfterPrefix(prefix: Bytes, text: Bytes)
    requires prefix != [] && prefix[|prefix| - 1] != CR
    ensures StripCr(prefix + text) == prefix + StripCr(text)
  {
    if text != [] { assert (prefix + text)[|prefix + text| - 1] == text[|text| - 1]; }
  }

  lemma PrefixedValue(name: Bytes, v: Bytes)
    requires COLON !in name
    ensures FieldValue(name + [COLON, SPACE] + v) == (name, v)
  {
    var tail := [SPACE] + v;
    assert name + [COLON, SPACE] + v == name + [COLON] + tail;
    SplitOnceAt(name, tail, COLON);
    assert tail[1..] == v;
  }

  lemma PrefixedLine(name: Bytes, text: Bytes)
    requires name != [] && COLON !in name && LF !in name && AllAscii(name)
    ensures var line := name + [COLON, SPACE] + text;
            && StripCr(line) != [] && StripCr(line)[0] == name[0]
            && FieldValue(Repair(StripCr(line))) == (name, ReadText(text))
            && (LF !in text ==> LF !in line)
  {
    StripAfterPrefix(name + [COLON, SPACE], text);
    AsciiPrefix(name + [COLON, SPACE], StripCr(text));
    PrefixedValue(name, ReadText(text));
  }

  lemma FeedEvent(f: Fields, text: Bytes)
    ensures Feed(f, StripCr(EVENT_PREFIX + text)) == (f.(event := Some(ReadText(text)), dirty := true), [])
    ensures LF !in text ==> LF !in EVENT_PREFIX + text
  {
    PrefixedLine(EVENT, text);
  }

  lemma FeedId(f: Fields, text: Bytes)
    ensures Feed(f, StripCr(ID_PREFIX + text)) == (f.(id := Some(ReadText(text)), dirty := true), [])
    ensures LF !in text ==> LF !in ID_PREFIX + text
  {
    PrefixedLine(ID, text);
  }

  lemma FeedRetry(f: Fields, n: U32)
    ensures Feed(f, StripCr(RETRY_PREFIX + Decimal(n))) == (f.(retry := Some(n), dirty := true), [])
    ensures LF !in RETRY_PREFIX + Decimal(n)
  {
    var text := Decimal(n);
    assert IsDigit(text[|text| - 1]);
    assert StripCr(text) == text;
    AsciiIsValid(text);
    assert LF !in text by { assert forall i :: 0 <= i < |text| ==> IsDigit(text[i]); }
    PrefixedLine(RETRY, text);
    ParsePrintedU32(n);
  }

  lemma FeedDataLine(f: Fields, text: Bytes)
    ensures Feed(f, StripCr(DATA_PREFIX + text)) == (f.(data := f.data + [ReadText(text)], dirty := true), [])
    ensures LF !in text ==> LF !in DATA_PREFIX + text
  {
    PrefixedLine(DATA, text);
  }

  // ---- one printed frame ----

  lemma {:induction false} TerminatedAppend(a: seq<Bytes>, b: seq<Bytes>)
    ensures Terminated(a + b) == Terminated(a) + Terminated(b)
  {
    if a == [] {
      assert a + b == b;
    } else {
      TerminatedAppend(a[1..], b);
      HeadTail(a, b);
      Regroup(a[0] + [LF], Terminated(a[1..]), Terminated(b));
    }
  }

  lemma BlankLine()
    ensures Terminated([[]]) == [LF]
  {
    var blank: seq<Bytes> := [[]];
    assert blank[1..] == [];
  }

  lemma DrainOne(f: Fields, line: Bytes, rest: Bytes, f': Fields)
    requires LF !in line && Feed(f, StripCr(line)) == (f', [])
    ensures Drain(f, Terminated([line]) + rest) == Drain(f', rest)
  {
    DrainLine(f, line, rest);
    AfterAfter(Drain(f', rest), [], []);
    TerminatedOne(line);
  }

  lemma TerminatedOne(line: Bytes)
    ensures Terminated([line]) == line + [LF]
  {
    assert [line][1..] == [];
  }

  lemma DrainEvent(f: Fields, v: Option<Bytes>, rest: Bytes)
    requires OneLine(v)
    ensures Drain(f, Terminated(Optional(EVENT_PREFIX, v)) + rest)
         == Drain(if v.None? then f else f.(event := ReadOption(v), dirty := true), rest)
  {
    if v.Some? {
      FeedEvent(f, v.value);
      DrainOne(f, EVENT_PREFIX + v.value, rest, f.(event := ReadOption(v), dirty := true));
    } else {
      assert [] + rest == rest;
    }
  }

  lemma DrainId(f: Fields, v: Option<Bytes>, rest: Bytes)
    requires OneLine(v)
    ensures Drain(f, Terminated(Optional(ID_PREFIX, v)) + rest)
         == Drain(if v.None? then f else f.(id := ReadOption(v), dirty := true), rest)
  {
    if v.Some? {
      FeedId(f, v.value);
      DrainOne(f, ID_PREFIX + v.value, rest, f.(id := ReadOption(v), dirty := true));
    } else {
      assert [] + rest == rest;
    }
  }

  lemma DrainRetry(f: Fields, frame: RawFrame, rest: Bytes)
    ensures Drain(f, Terminated(Optional(RETRY_PREFIX, RetryText(frame))) + rest)
         == Drain(if frame.retry.None? then f else f.(retry := frame.retry, dirty := true), rest)
  {
    if frame.retry.Some? {
      FeedRetry(f, frame.retry.value);
      DrainOne(f, RETRY_PREFIX + Decimal(frame.retry.value), rest, f.(retry := frame.retry, dirty := true));
    } else {
      assert [] + rest == rest;
    }
  }

  /** The fields after the data lines `parts`. */
  function WithData(f: Fields, parts: seq<Bytes>): Fields {
    if parts == [] then f else f.(data := f.data + Map(parts, ReadText), dirty := true)
  }

  lemma WithDataStep(f: Fields, parts: seq<Bytes>)
    requires parts != []
    ensures WithData(f.(data := f.data + [ReadText(parts[0])], dirty := true), parts[1..]) == WithData(f, parts)
  {
    assert Map(parts, ReadText) == [ReadText(parts[0])] + Map(parts[1..], ReadText);
  }

  lemma {:induction false} DrainData(f: Fields, parts: seq<Bytes>, rest: Bytes)
    requires forall part :: part in parts ==> LF !in part
    ensures Drain(f, Terminated(DataLines(parts)) + rest) == Drain(WithData(f, parts), rest)
    decreases |parts|
  {
    if parts == [] {
      assert [] + rest == rest;
    } else {
      var line, tail := DATA_PREFIX + parts[0], parts[1..];
      var f' := f.(data := f.data + [ReadText(parts[0])], dirty := true);
      assert parts[0] in parts;
      DataLinesSplit(parts, rest);
      FeedDataLine(f, parts[0]);
      DrainOne(f, line, Terminated(DataLines(tail)) + rest, f');
      DrainData(f', tail, rest);
      WithDataStep(f, parts);
    }
  }

  lemma DataLinesSplit(parts: seq<Bytes>, rest: Bytes)
    requires parts != []
    ensures Terminated(DataLines(parts)) + rest
         == Terminated([DATA_PREFIX + parts[0]]) + (Terminated(DataLines(parts[1..])) + rest)
  {
    assert DataLines(parts) == [DATA_PREFIX + parts[0]] + DataLines(parts[1..]);
    TerminatedAppend([DATA_PREFIX + parts[0]], DataLines(parts[1..]));
  }

  /** A printed frame decodes to that frame as it is read, and leaves nothing behind. */
  lemma DrainFrame(frame: RawFrame, rest: Bytes)
    requires OneLineFields(frame)
    ensures Drain(NO_FIELDS, Terminated(FrameLines(frame)) + rest) == Drain(NO_FIELDS, rest).After([AsRead(frame)])
  {
    var e, i := Optional(EVENT_PREFIX, frame.event), Optional(ID_PREFIX, frame.id);
    var r, parts := Optional(RETRY_PREFIX, RetryText(frame)), Split(frame.data, LF);
    var blank := [LF] + rest;
    var afterRetry := Terminated(DataLines(parts)) + blank;
    var afterId := Terminated(r) + afterRetry;
    var afterEvent := Terminated(i) + afterId;
    FrameBytes(e, i, r, DataLines(parts), rest);
    var f1 := if frame.event.None? then NO_FIELDS else NO_FIELDS.(event := ReadOption(frame.event), dirty := true);
    var f2 := if frame.id.None? then f1 else f1.(id := ReadOption(frame.id), dirty := true);
    var f3 := if frame.retry.None? then f2 else f2.(retry := frame.retry, dirty := true);
    DrainEvent(NO_FIELDS, frame.event, afterEvent);
    DrainId(f1, frame.id, afterId);
    DrainRetry(f2, frame, afterRetry);
    DrainData(f3, parts, blank);
    DispatchBlank(f3, Map(parts, ReadText), rest);
  }

  lemma FrameBytes(e: seq<Bytes>, i: seq<Bytes>, r: seq<Bytes>, d: seq<Bytes>, rest: Bytes)
    ensures Terminated(e + (i + (r + (d + [[]])))) + rest
         == Terminated(e) + (Terminated(i) + (Terminated(r) + (Terminated(d) + ([LF] + rest))))
  {
    BlankLine();
    TerminatedThen(d, [[]], rest);
    TerminatedThen(r, d + [[]], rest);
    TerminatedThen(i, r + (d + [[]]), rest);
    TerminatedThen(e, i + (r + (d + [[]])), rest);
  }

  lemma TerminatedThen(a: seq<Bytes>, b: seq<Bytes>, rest: Bytes)
    ensures Terminated(a + b) + rest == Terminated(a) + (Terminated(b) + rest)
  {
    TerminatedAppend(a, b);
  }

  lemma DispatchBlank(f: Fields, data: seq<Bytes>, rest: Bytes)
    requires f.data == []
    ensures Drain(f.(data := f.data + data, dirty := true), [LF] + rest)
         == Drain(NO_FIELDS, rest).After([RawFrame(f.event, Join(data, LF), f.id, f.retry)])
  {
    assert f.data + data == data;
    DrainLine(f.(data := data, dirty := true), [], rest);
    assert [] + [LF] + rest == [LF] + rest;
  }

  lemma {:induction false} DrainPrint(frames: seq<RawFrame>)
    requires forall f :: f in frames ==> OneLineFields(f)
    ensures Drain(NO_FIELDS, Print(frames)) == Drained(NO_FIELDS, Map(frames, AsRead), [])
  {
    if frames != [] {
      DrainFrame(frames[0], Print(frames[1..]));
      DrainPrint(frames[1..]);
      assert frames == [frames[0]] + frames[1..];
      MapCons(frames[0], frames[1..], AsRead);
    }
  }

  /** A print-out starts with a field name, so its head is safe to cut anywhere. */
  lemma PrintHead(frames: seq<RawFrame>)
    ensures SafeHead(START, Print(frames)) && StripBom(Print(frames)) == Print(frames)
  {
    if frames != [] {
      FirstLine(frames[0]);
      FirstBytes(FrameLines(frames[0]), Print(frames[1..]));
      SafeStart(Print(frames));
    }
  }

  lemma FirstBytes(lines: seq<Bytes>, rest: Bytes)
    requires lines != [] && |lines[0]| >= 2
    ensures var text := Terminated(lines) + rest; |text| >= 2 && text[0] == lines[0][0] && text[1] == lines[0][1]
  {
  }

  lemma SafeStart(text: Bytes)
    requires |text| >= 2 && text[0] != LF && text[1] != LF && text[0] != 0xEF
    ensures SafeHead(START, text) && StripBom(text) == text
  {
    assert START.buf + text == text;
    assert text[..2] == [text[0], text[1]];
  }

  lemma FirstLine(f: RawFrame)
    ensures var line := FrameLines(f)[0];
            |line| >= 2 && line[0] != LF && line[1] != LF && line[0] != 0xEF
  {
    if f.event.None? && f.id.None? && f.retry.None? {
      assert FrameLines(f)[0] == DATA_PREFIX + Split(f.data, LF)[0];
    }
  }

  /** What the decoder returns for a print-out, whatever the chunks: every frame, in order, each without the
      carriage returns that ended its printed lines and with ill-formed UTF-8 repaired. */
  lemma DecodePrint(frames: seq<RawFrame>, chunks: seq<Bytes>)
    requires forall f :: f in frames ==> OneLineFields(f)
    requires Flatten(chunks) == Print(frames)
    ensures Decode(chunks) == Map(frames, AsRead)
  {
    PrintHead(frames);
    ChunkingIrrelevant(START, chunks);
    DrainPrint(frames);
    assert START.buf + Print(frames) == Print(frames);
  }

  // ---- decoded frames always have one-line fields ----

  predicate OneLineState(f: Fields) { OneLine(f.event) && OneLine(f.id) }

  lemma FeedOneLine(f: Fields, line: Bytes)
    requires OneLineState(f) && LF !in line
    ensures OneLineState(Feed(f, line).0)
    ensures forall out :: out in Feed(f, line).1 ==> OneLineFields(out)
  {
    if line != [] && line[0] != COLON {
      RepairKeepsAscii(line, LF);
      assert LF !in FieldValue(Repair(line)).1;
    }
  }

  lemma {:induction false} DrainOneLine(f: Fields, b: Bytes)
    requires OneLineState(f)
    ensures OneLineState(Drain(f, b).fields)
    ensures forall out :: out in Drain(f, b).frames ==> OneLineFields(out)
    decreases |b|
  {
    match SplitOnce(b, LF)
    case None =>
    case Some((line, rest)) =>
      FeedOneLine(f, StripCr(line));
      DrainOneLine(Feed(f, StripCr(line)).0, rest);
  }

  lemma PushOneLine(s: State, chunk: Bytes)
    requires OneLineState(s.fields)
    ensures OneLineState(Push(s, chunk).state.fields) && LF !in Push(s, chunk).state.buf
    ensures forall out :: out in Push(s, chunk).frames ==> OneLineFields(out)
  {
    var b := s.buf + chunk;
    DrainOneLine(s.fields, b);
    DrainOneLine(s.fields, StripBom(b));
  }

  lemma {:induction false} PushAllOneLine(s: State, chunks: seq<Bytes>)
    requires OneLineState(s.fields) && LF !in s.buf
    ensures OneLineState(PushAll(s, chunks).state.fields) && LF !in PushAll(s, chunks).state.buf
    ensures forall out :: out in PushAll(s, chunks).frames ==> OneLineFields(out)
    decreases |chunks|
  {
    if chunks != [] {
      PushOneLine(s, chunks[0]);
      PushAllOneLine(Push(s, chunks[0]).state, chunks[1..]);
    }
  }

  /** Every frame decoded from any chunks has an event name and an id without line feeds. */
  lemma DecodedOneLine(chunks: seq<Bytes>)
    ensures forall out :: out in Decode(chunks) ==> OneLineFields(out)
  {
    PushAllOneLine(START, chunks);
    var s := PushAll(START, chunks).state;
    FeedOneLine(s.fields, s.buf);
  }

  // ---- the round trip, exactly ----

  /** Only a clean line is read as it was. */
  lemma ReadTextFixes(v: Bytes)
    ensures ReadText(v) == v <==> CleanLine(v)
  {
    RepairFixes(v);
    if !NoFinalCr(v) && ReadText(v) == v {
      var w := StripCr(v);
      assert v == w + [CR] + [];
      RepairFixes(w);
      AsciiSeparates(w, CR, []);
    }
  }

  lemma AsReadFixes(f: RawFrame)
    requires OneLineFields(f)
    ensures AsRead(f) == f <==> Printable(f)
  {
    if f.event.Some? { ReadTextFixes(f.event.value); }
    if f.id.Some? { ReadTextFixes(f.id.value); }
    DataFixes(Split(f.data, LF), f.data);
  }

  lemma DataFixes(parts: seq<Bytes>, data: Bytes)
    requires parts == Split(data, LF)
    ensures Join(Map(parts, ReadText), LF) == data <==> forall part :: part in parts ==> CleanLine(part)
  {
    var texts := Map(parts, ReadText);
    forall i | 0 <= i < |parts|
      ensures LF !in texts[i] && (texts[i] == parts[i] <==> CleanLine(parts[i])) && parts[i] in parts
    {
      RepairKeepsAscii(StripCr(parts[i]), LF);
      ReadTextFixes(parts[i]);
    }
    SplitJoin(texts, LF);
    if forall part :: part in parts ==> CleanLine(part) {
      assert texts == parts;
    } else {
      var k :| 0 <= k < |parts| && !CleanLine(parts[k]);
      assert texts[k] != parts[k];
    }
  }

  ghost predicate RoundTrips(frames: seq<RawFrame>) {
    forall chunks: seq<Bytes> :: Flatten(chunks) == Print(frames) ==> Decode(chunks) == frames
  }

  /** Printing and decoding gives the frames back, however the stream is cut, exactly when every
      frame is printable. */
  lemma PrintDecodeRoundTrip(frames: seq<RawFrame>)
    ensures RoundTrips(frames) <==> forall f :: f in frames ==> Printable(f)
  {
    if forall f :: f in frames ==> Printable(f) {
      forall chunks: seq<Bytes> | Flatten(chunks) == Print(frames) ensures Decode(chunks) == frames {
        DecodePrint(frames, chunks);
        forall i | 0 <= i < |frames| ensures AsRead(frames[i]) == frames[i] { AsReadFixes(frames[i]); }
      }
    }
    if RoundTrips(frames) {
      var whole := [Print(frames)];
      assert Flatten(whole) == Print(frames) by { assert whole[1..] == []; }
      assert Decode(whole) == frames;
      DecodedOneLine(whole);
      DecodePrint(frames, whole);
      forall f | f in frames ensures Printable(f) {
        var i :| 0 <= i < |frames| && frames[i] == f;
        assert AsRead(frames[i]) == frames[i];
        AsReadFixes(f);
      }
    }
  }
}
