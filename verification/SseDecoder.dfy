/** The incremental Server-Sent-Events decoder (crates/voleeo-http/src/sse.rs). */
module SseDecoding {
  import opened Text
  import opened Sequences
  import opened Utf8

  type U32 = x: nat | x < 0x1_0000_0000

  datatype RawFrame = RawFrame(event: Option<Bytes>, data: Bytes, id: Option<Bytes>, retry: Option<U32>)

  /** The fields gathered since the last dispatch. */
  datatype Fields = Fields(event: Option<Bytes>, data: seq<Bytes>, id: Option<Bytes>, retry: Option<U32>, dirty: bool)

  /** The abstract value of a decoder. */
  datatype State = State(buf: Bytes, fields: Fields, bomChecked: bool)

  const NO_FIELDS := Fields(None, [], None, None, false)
  const START := State([], NO_FIELDS, false)

  const BOM: Bytes := [0xEF, 0xBB, 0xBF]
  const EVENT: Bytes := [101, 118, 101, 110, 116]
  const DATA: Bytes := [100, 97, 116, 97]
  const ID: Bytes := [105, 100]
  const RETRY: Bytes := [114, 101, 116, 114, 121]

  // ---- specification functions ----

  function StripCr(line: Bytes): Bytes {
    if line != [] && line[|line| - 1] == CR then line[..|line| - 1] else line
  }

  function StripSpace(v: Bytes): Bytes {
    if v != [] && v[0] == SPACE then v[1..] else v
  }

  /** `str::parse::<u32>`: an optional `+`, at least one digit, nothing else, no overflow. */
  function ParseU32(s: Bytes): Option<U32> {
    var digits := if s != [] && s[0] == 43 then s[1..] else s;
    if digits != [] && AllDigits(digits) then
      if DecimalValue(digits) < 0x1_0000_0000 then Some(DecimalValue(digits)) else None
    else None
  }

  function FieldValue(line: Bytes): (Bytes, Bytes) {
    match SplitOnce(line, COLON)
    case Some((f, v)) => (f, StripSpace(v))
    case None => (line, [])
  }

  function Dispatch(f: Fields): RawFrame {
    RawFrame(f.event, Join(f.data, LF), f.id, f.retry)
  }

  /** The effect of one complete line: the new fields and the frames dispatched (none or one). */
  function Feed(f: Fields, line: Bytes): (r: (Fields, seq<RawFrame>))
    ensures |r.1| <= 1
    ensures line != [] ==> r.1 == []
  {
    if line == [] then
      if f.dirty then (NO_FIELDS, [Dispatch(f)]) else (f, [])
    else if line[0] == COLON then (f, [])
    else
      var (field, value) := FieldValue(Repair(line));
      if field == EVENT then (f.(event := Some(value), dirty := true), [])
      else if field == DATA then (f.(data := f.data + [value], dirty := true), [])
      else if field == ID then (f.(id := Some(value), dirty := true), [])
      else if field == RETRY then (f.(retry := ParseU32(value), dirty := true), [])
      else (f, [])
  }

  /** What is left after every complete line of `b` has been fed. */
  datatype Drained = Drained(fields: Fields, frames: seq<RawFrame>, rest: Bytes) {
    /** The same result, preceded by frames dispatched earlier. */
    function After(earlier: seq<RawFrame>): Drained { this.(frames := earlier + frames) }
  }

  lemma AfterAfter(d: Drained, a: seq<RawFrame>, b: seq<RawFrame>)
    ensures d.After(b).After(a) == d.After(a + b)
    ensures d.After([]) == d
  {
    assert a + (b + d.frames) == a + b + d.frames;
  }

  function Drain(f: Fields, b: Bytes): (d: Drained)
    ensures LF !in d.rest
    decreases |b|
  {
    match SplitOnce(b, LF)
    case None => Drained(f, [], b)
    case Some((line, rest)) =>
      var (f', out) := Feed(f, StripCr(line));
      Drain(f', rest).After(out)
  }

  function StripBom(b: Bytes): Bytes {
    if StartsWith(b, BOM) then b[3..] else b
  }

  datatype Pushed = Pushed(state: State, frames: seq<RawFrame>)

  /** `SseDecoder::push` */
  function Push(s: State, chunk: Bytes): Pushed {
    var b := s.buf + chunk;
    var check := !s.bomChecked && |b| >= 3;
    var d := Drain(s.fields, if check then StripBom(b) else b);
    Pushed(State(d.rest, d.fields, s.bomChecked || check), d.frames)
  }

  function PushAll(s: State, chunks: seq<Bytes>): Pushed
    decreases |chunks|
  {
    if chunks == [] then Pushed(s, [])
    else
      var first := Push(s, chunks[0]);
      var later := PushAll(first.state, chunks[1..]);
      later.(frames := first.frames + later.frames)
  }

  /** `SseDecoder::finish` */
  function Finish(s: State): Pushed {
    var (f, out) := if s.buf != [] then Feed(s.fields, s.buf) else (s.fields, []);
    if f.dirty then Pushed(State([], NO_FIELDS, s.bomChecked), out + [Dispatch(f)])
    else Pushed(State([], f, s.bomChecked), out)
  }

  /** Everything a stream delivered as `chunks` decodes to. */
  function Decode(chunks: seq<Bytes>): seq<RawFrame> {
    var p := PushAll(START, chunks);
    p.frames + Finish(p.state).frames
  }

  /** Holds in the start state and is kept by every push. */
  predicate Reachable(s: State) {
    && LF !in s.buf
    && (!s.bomChecked ==> |s.buf| < 3 && s.fields == NO_FIELDS)
    && (!s.fields.dirty ==> s.fields == NO_FIELDS)
  }

  // ---- the decoder ----

  class SseDecoder {
    var buf: Bytes
    var event: Option<Bytes>
    var data: seq<Bytes>
    var id: Option<Bytes>
    var retry: Option<U32>
    var dirty: bool
    var bomChecked: bool

    function Collected(): Fields reads this {
      Fields(event, data, id, retry, dirty)
    }

    function Abs(): State reads this {
      State(buf, Collected(), bomChecked)
    }

    constructor ()
      ensures Abs() == START
    {
      buf, event, data, id, retry, dirty, bomChecked := [], None, [], None, None, false, false;
    }

    method PushChunk(chunk: Bytes) returns (frames: seq<RawFrame>)
      modifies this
      ensures Pushed(Abs(), frames) == Push(old(Abs()), chunk)
    {
      buf := buf + chunk;
      if !bomChecked && |buf| >= 3 {
        bomChecked := true;
        if StartsWith(buf, BOM) {
          buf := buf[3..];
        }
      }
      frames := [];
      ghost var target := Drain(Collected(), buf);
      AfterAfter(target, [], []);
      label checked:
      while LF in buf
        invariant bomChecked == old@checked(bomChecked)
        invariant target == Drain(Collected(), buf).After(frames)
        decreases |buf|
      {
        var split := SplitOnce(buf, LF).value;
        var line := StripCr(split.0);
        ghost var (f', out) := Feed(Collected(), line);
        AfterAfter(Drain(f', split.1), frames, out);
        buf := split.1;
        var frame := FeedLine(line);
        frames := frames + AsSeq(frame);
      }
    }

    method FinishStream() returns (frames: seq<RawFrame>)
      modifies this
      ensures Pushed(Abs(), frames) == Finish(old(Abs()))
    {
      frames := [];
      if buf != [] {
        var line := buf;
        buf := [];
        var frame := FeedLine(line);
        frames := frames + AsSeq(frame);
      }
      if dirty {
        var frame := TakeFrame();
        frames := frames + [frame];
      }
    }

    method FeedLine(line: Bytes) returns (frame: Option<RawFrame>)
      modifies this
      ensures buf == old(buf) && bomChecked == old(bomChecked)
      ensures (Collected(), AsSeq(frame)) == Feed(old(Collected()), line)
    {
      if line == [] {
        if dirty {
          var f := TakeFrame();
          return Some(f);
        }
        return None;
      }
      if line[0] == COLON {
        return None;
      }
      var text := Repair(line);
      var (field, value) := FieldValue(text);
      if field == EVENT {
        event := Some(value);
      } else if field == DATA {
        data := data + [value];
      } else if field == ID {
        id := Some(value);
      } else if field == RETRY {
        retry := ParseU32(value);
      } else {
        return None;
      }
      dirty := true;
      return None;
    }

    method TakeFrame() returns (frame: RawFrame)
      modifies this
      ensures frame == Dispatch(old(Collected()))
      ensures Abs() == old(Abs()).(fields := NO_FIELDS)
    {
      frame := RawFrame(event, Join(data, LF), id, retry);
      event, id, retry := None, None, None;
      data := [];
      dirty := false;
    }
  }

  // ---- chunking ----

  lemma {:induction false} DrainLine(f: Fields, line: Bytes, rest: Bytes)
    requires LF !in line
    ensures var (f', out) := Feed(f, StripCr(line));
            Drain(f, line + [LF] + rest) == Drain(f', rest).After(out)
  {
    SplitOnceAt(line, rest, LF);
  }

  /** Draining in two goes: the unfinished line of the first go starts the second. */
  lemma {:induction false} DrainAppend(f: Fields, a: Bytes, b: Bytes)
    ensures var d := Drain(f, a);
            Drain(f, a + b) == Drain(d.fields, d.rest + b).After(d.frames)
    decreases |a|
  {
    match SplitOnce(a, LF)
    case None =>
      AfterAfter(Drain(f, a + b), [], []);
    case Some((line, rest)) =>
      var (f', out) := Feed(f, StripCr(line));
      DrainAppend(f', rest, b);
      DrainLine(f, line, rest);
      DrainLine(f, line, rest + b);
      SplitApart(a, line, rest, b);
      AfterAfter(Drain(Drain(f', rest).fields, Drain(f', rest).rest + b), out, Drain(f', rest).frames);
  }

  lemma SplitApart(a: Bytes, line: Bytes, rest: Bytes, b: Bytes)
    requires a == line + [LF] + rest
    ensures a + b == line + [LF] + (rest + b)
  {
  }

  lemma {:induction false} DrainReachable(f: Fields, b: Bytes)
    requires !f.dirty ==> f == NO_FIELDS
    ensures var d := Drain(f, b); !d.fields.dirty ==> d.fields == NO_FIELDS
    decreases |b|
  {
    match SplitOnce(b, LF)
    case None =>
    case Some((line, rest)) => DrainReachable(Feed(f, StripCr(line)).0, rest);
  }

  lemma ShortLineIgnored(line: Bytes)
    requires |line| < 2
    ensures Feed(NO_FIELDS, StripCr(line)) == (NO_FIELDS, [])
  {
    if StripCr(line) != [] && line[0] != COLON {
      assert StripCr(line) == line;
      OneByteRepair(line);
      FieldIsHead(Repair(line));
    }
  }

  lemma OneByteRepair(line: Bytes)
    requires |line| == 1
    ensures Repair(line) == line || Repair(line) == REPLACEMENT
  {
    assert line[Scan(line).0..] == [];
    assert REPLACEMENT + [] == REPLACEMENT && line + [] == line;
  }

  lemma FieldIsHead(text: Bytes)
    requires text != [] && text[0] != COLON
    ensures FieldValue(text).0 != [] && FieldValue(text).0[0] == text[0] && |FieldValue(text).0| <= |text|
  {
  }

  /** Two bytes are too few for a field line, so nothing has been gathered before the BOM check. */
  lemma {:induction false} ShortDrainGathersNothing(b: Bytes)
    requires |b| < 3
    ensures var d := Drain(NO_FIELDS, b); d.fields == NO_FIELDS && d.frames == [] && |d.rest| <= |b|
    ensures LF in b ==> |Drain(NO_FIELDS, b).rest| < 2
    decreases |b|
  {
    match SplitOnce(b, LF)
    case None =>
    case Some((line, rest)) =>
      assert |b| == |line| + 1 + |rest|;
      ShortLineIgnored(line);
      ShortDrainGathersNothing(rest);
  }

  /** Every push keeps the decoder in a reachable state. */
  lemma PushReachable(s: State, chunk: Bytes)
    requires Reachable(s)
    ensures Reachable(Push(s, chunk).state)
  {
    var b := s.buf + chunk;
    DrainReachable(s.fields, b);
    DrainReachable(s.fields, StripBom(b));
    if !s.bomChecked && |b| < 3 { ShortDrainGathersNothing(b); }
  }

  /** Pushing two chunks is pushing their concatenation, unless a line ends before the BOM check. */
  lemma PushTwo(s: State, a: Bytes, b: Bytes)
    requires Reachable(s)
    requires s.bomChecked || |s.buf + a| >= 3 || |s.buf + a + b| < 3 || LF !in s.buf + a
    ensures var first := Push(s, a);
            var second := Push(first.state, b);
            Push(s, a + b) == Pushed(second.state, first.frames + second.frames)
  {
    var t := s.buf + a;
    assert s.buf + (a + b) == t + b;
    if s.bomChecked {
      DrainAppend(s.fields, t, b);
    } else if |t| >= 3 {
      StripBomAppend(t, b);
      DrainAppend(s.fields, StripBom(t), b);
    } else if LF in t {
      ShortDrainGathersNothing(t);
      DrainAppend(s.fields, t, b);
    } else {
      assert Push(s, a) == Pushed(State(t, s.fields, false), []);
    }
  }

  lemma StripBomAppend(t: Bytes, b: Bytes)
    requires |t| >= 3
    ensures StripBom(t + b) == StripBom(t) + b
  {
    assert t[..3] == (t + b)[..3];
  }

  /** The stream's first two bytes hold no line end, or the BOM question is already settled or moot. */
  predicate SafeHead(s: State, bytes: Bytes) {
    s.bomChecked || |s.buf + bytes| < 3 || LF !in (s.buf + bytes)[..2]
  }

  lemma HeadKeepsLf(t: Bytes, rest: Bytes)
    ensures LF in t && |t| < 3 && |t + rest| >= 3 ==> LF in (t + rest)[..2]
  {
    if LF in t && |t| < 3 && |t + rest| >= 3 {
      var i :| 0 <= i < |t| && t[i] == LF;
      assert (t + rest)[..2][i] == LF;
    }
  }

  /** Chunk boundaries do not matter: frames and final state are those of one push of the whole. */
  lemma {:induction false} ChunkingIrrelevant(s: State, chunks: seq<Bytes>)
    requires Reachable(s)
    requires SafeHead(s, Flatten(chunks))
    ensures PushAll(s, chunks) == Push(s, Flatten(chunks))
    decreases |chunks|
  {
    if chunks == [] {
      assert s.buf + [] == s.buf;
    } else {
      var c, rest := chunks[0], Flatten(chunks[1..]);
      var t := s.buf + c;
      assert s.buf + (c + rest) == t + rest;
      HeadKeepsLf(t, rest);
      PushTwo(s, c, rest);
      PushReachable(s, c);
      var s' := Push(s, c).state;
      if !s.bomChecked && |t| < 3 { ShortDrainGathersNothing(t); }
      ChunkingIrrelevant(s', chunks[1..]);
    }
  }

  /** The frames of a stream do not depend on how it is cut up. */
  ghost predicate FramesAreChunkingFree(s: State, bytes: Bytes) {
    forall chunks: seq<Bytes> :: Flatten(chunks) == bytes ==> PushAll(s, chunks).frames == Push(s, bytes).frames
  }

  /** The condition is exact: once a line ended within the first two bytes, some continuation decodes
      differently depending on where the chunks were cut. */
  lemma ChunkingExact(s: State, head: Bytes)
    requires Reachable(s) && !s.bomChecked && |s.buf + head| == 2
    ensures (forall tail: Bytes :: FramesAreChunkingFree(s, head + tail)) <==> LF !in s.buf + head
  {
    if LF in s.buf + head {
      LateBom(s, head);
      assert !FramesAreChunkingFree(s, head + ([LF] + Late(DATA)));
    } else {
      forall tail: Bytes ensures FramesAreChunkingFree(s, head + tail) {
        SafeHeadIsFree(s, head, tail);
      }
    }
  }

  lemma SafeHeadIsFree(s: State, head: Bytes, tail: Bytes)
    requires Reachable(s) && !s.bomChecked && |s.buf + head| == 2 && LF !in s.buf + head
    ensures FramesAreChunkingFree(s, head + tail)
  {
    assert (s.buf + (head + tail))[..2] == s.buf + head;
    forall chunks: seq<Bytes> | Flatten(chunks) == head + tail
      ensures PushAll(s, chunks).frames == Push(s, head + tail).frames
    {
      ChunkingIrrelevant(s, chunks);
    }
  }

  /** A BOM in front of a complete frame of one field line. */
  function Late(line: Bytes): Bytes { BOM + (line + [LF] + [LF]) }

  /** A line-starting BOM after the head: one cut strips it, the uncut push keeps it. */
  lemma LateBom(s: State, head: Bytes)
    requires Reachable(s) && !s.bomChecked && |s.buf + head| == 2 && LF in s.buf + head
    ensures !FramesAreChunkingFree(s, head + ([LF] + Late(DATA)))
  {
    BareDataLine();
    LateBomLine(s, head, DATA, NO_FIELDS.(data := [[]], dirty := true));
  }

  lemma LateBomLine(s: State, head: Bytes, line: Bytes, fed: Fields)
    requires Reachable(s) && !s.bomChecked && |s.buf + head| == 2 && LF in s.buf + head
    requires LF !in line && COLON !in line && Feed(NO_FIELDS, StripCr(line)) == (fed, []) && fed.dirty
    ensures !FramesAreChunkingFree(s, head + ([LF] + Late(line)))
  {
    FlattenThree(head, [LF], Late(line));
    LateBomStripped(s, head, line, fed);
    LateBomKept(s, head, line);
    Distinguished(s, [head, [LF], Late(line)], head + ([LF] + Late(line)));
  }

  lemma Distinguished(s: State, cut: seq<Bytes>, bytes: Bytes)
    requires Flatten(cut) == bytes && PushAll(s, cut).frames != Push(s, bytes).frames
    ensures !FramesAreChunkingFree(s, bytes)
  {
  }

  lemma FlattenThree(a: Bytes, b: Bytes, c: Bytes)
    ensures Flatten([a, b, c]) == a + (b + c)
  {
    assert [a, b, c][1..] == [b, c] && [b, c][1..] == [c] && [c][1..] == [];
    assert Flatten([c]) == c;
    assert Flatten([b, c]) == b + Flatten([c]);
  }

  lemma ThreePieces(s: State, a: Bytes, b: Bytes, c: Bytes)
    ensures PushAll(s, [a, b, c]).frames ==
              Push(s, a).frames + (Push(Push(s, a).state, b).frames + Push(Push(Push(s, a).state, b).state, c).frames)
  {
    assert [a, b, c][1..] == [b, c] && [b, c][1..] == [c] && [c][1..] == [];
    var s2 := Push(Push(s, a).state, b).state;
    assert PushAll(s2, [c]).frames == Push(s2, c).frames;
  }

  lemma BareDataLine()
    ensures LF !in DATA && COLON !in DATA
    ensures Feed(NO_FIELDS, StripCr(DATA)) == (NO_FIELDS.(data := [[]], dirty := true), [])
  {
    DataStands();
    FeedData(NO_FIELDS, DATA, []);
    assert NO_FIELDS.data + [[]] == [[]];
  }

  lemma DataStands()
    ensures LF !in DATA && COLON !in DATA && StripCr(DATA) == DATA && FieldValue(Repair(DATA)) == (DATA, [])
  {
    PlainField(DATA);
  }

  lemma PlainField(s: Bytes)
    requires s != [] && AllAscii(s) && COLON !in s && s[|s| - 1] != CR
    ensures StripCr(s) == s && FieldValue(Repair(s)) == (s, [])
  {
    AsciiIsValid(s);
  }

  lemma FeedData(f: Fields, line: Bytes, value: Bytes)
    requires line != [] && line[0] != COLON && FieldValue(Repair(line)) == (DATA, value)
    ensures Feed(f, line) == (f.(data := f.data + [value], dirty := true), [])
  {
  }

  /** Cut before the BOM, the later line's BOM is stripped and its field counts. */
  lemma LateBomStripped(s: State, head: Bytes, line: Bytes, fed: Fields)
    requires Reachable(s) && !s.bomChecked && |s.buf + head| == 2 && LF in s.buf + head
    requires LF !in line && Feed(NO_FIELDS, StripCr(line)) == (fed, []) && fed.dirty
    ensures PushAll(s, [head, [LF], Late(line)]).frames == [Dispatch(fed)]
  {
    ThreePieces(s, head, [LF], Late(line));
    ShortDrainGathersNothing(s.buf + head);
    var s1 := Push(s, head).state;
    ShortDrainGathersNothing(s1.buf + [LF]);
    DrainEndsWithLf(s1.buf);
    var s2 := Push(s1, [LF]).state;
    assert s2 == START;
    LateAtStart(line, fed);
  }

  lemma LateAtStart(line: Bytes, fed: Fields)
    requires LF !in line && Feed(NO_FIELDS, StripCr(line)) == (fed, []) && fed.dirty
    ensures Push(START, Late(line)).frames == [Dispatch(fed)]
  {
    var late := Late(line);
    assert START.buf + late == late && late[..3] == BOM && late[3..] == line + [LF] + [LF];
    DrainLine(NO_FIELDS, line, [LF]);
    DrainLine(fed, [], []);
    assert [] + [LF] + [] == [LF];
  }

  /** Pushed whole, the BOM is part of an unknown field name. */
  lemma LateBomKept(s: State, head: Bytes, line: Bytes)
    requires Reachable(s) && !s.bomChecked && |s.buf + head| == 2 && LF in s.buf + head
    requires LF !in line && COLON !in line
    ensures Push(s, head + ([LF] + Late(line))).frames == []
  {
    var late := Late(line);
    var t := s.buf + head;
    var whole := t + ([LF] + late);
    assert s.buf + (head + ([LF] + late)) == whole;
    NotBom(t, [LF] + late);
    PushUnmarked(s, head + ([LF] + late));
    LateBomIgnored(t, line);
  }

  lemma PushUnmarked(s: State, chunk: Bytes)
    requires s.fields == NO_FIELDS && !StartsWith(s.buf + chunk, BOM)
    ensures Push(s, chunk).frames == Drain(NO_FIELDS, s.buf + chunk).frames
  {
  }

  lemma NotBom(t: Bytes, rest: Bytes)
    requires |t| == 2 && LF in t
    ensures !StartsWith(t + rest, BOM)
  {
    assert (t + rest)[0] == t[0] && (t + rest)[1] == t[1];
  }

  lemma LateBomIgnored(t: Bytes, line: Bytes)
    requires |t| == 2 && LF in t
    requires LF !in line && COLON !in line
    ensures Drain(NO_FIELDS, t + ([LF] + Late(line))).frames == []
  {
    var late := Late(line);
    ShortDrainGathersNothing(t);
    DrainAppend(NO_FIELDS, t, [LF] + late);
    var rest := Drain(NO_FIELDS, t).rest;
    assert rest + ([LF] + late) == rest + [LF] + late;
    DrainLine(NO_FIELDS, rest, late);
    ShortLineIgnored(rest);
    UnknownLine(line);
  }

  lemma UnknownLine(line: Bytes)
    requires LF !in line && COLON !in line
    ensures Drain(NO_FIELDS, Late(line)).frames == []
  {
    var l := BOM + line;
    assert COLON !in l && LF !in l;
    MarkedLineIgnored(line);
    assert Late(line) == l + [LF] + [LF];
    DrainLine(NO_FIELDS, l, [LF]);
    DrainLine(NO_FIELDS, [], []);
    assert [] + [LF] + [] == [LF];
  }

  lemma MarkedLineIgnored(line: Bytes)
    ensures Feed(NO_FIELDS, StripCr(BOM + line)) == (NO_FIELDS, [])
  {
    var l := StripCr(BOM + line);
    assert l == BOM + l[3..];
    ValidCons(BOM, l[3..]);
    FieldIsHead(Repair(l));
  }

  lemma DrainEndsWithLf(b: Bytes)
    requires LF !in b && |b| < 2
    ensures Drain(NO_FIELDS, b + [LF]).rest == []
  {
    DrainLine(NO_FIELDS, b, []);
    assert b + [LF] + [] == b + [LF];
  }
}
