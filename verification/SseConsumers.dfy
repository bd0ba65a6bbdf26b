/** The two consumers of decoded frames: the live sink feeding a capped accumulator, and the
    sink-less read that stops at the cap (send_body.rs and sse_accum.rs in crates/voleeo-http/src). */
module SseConsumers {
  import opened Text
  import opened Sequences
  import opened SseDecoding
  import opened Utf8

  const FRAME_CAP := 2000
  const U32_MAX: nat := 0xFFFF_FFFF

  /** A frame with its arrival number; arrival times are not modelled. */
  datatype SseFrame = SseFrame(
    number: U32, event: Option<Bytes>, data: Bytes, lastEventId: Option<Bytes>, retry: Option<U32>)

  datatype EventText = Plain(text: Bytes) | FrameRow(event: Bytes, size: nat)

  datatype TimelineEvent = TimelineEvent(kind: string, text: EventText)

  datatype HttpResponse = HttpResponse(
    status: nat, events: seq<TimelineEvent>, bodySize: U32, captured: seq<Bytes>, attached: seq<Bytes>,
    sseFrames: seq<SseFrame>)

  /** One item of the response byte stream. */
  datatype Item = Chunk(bytes: Bytes) | Failure(message: Bytes)

  // ---- tagging, sizing and capping ----

  function Wrap(n: nat): U32 { n % 0x1_0000_0000 }

  function SaturatingAdd(a: U32, b: U32): U32 { if a + b > U32_MAX then U32_MAX else a + b }

  function Tag(raw: RawFrame, number: nat): SseFrame {
    SseFrame(Wrap(number), raw.event, raw.data, raw.id, raw.retry)
  }

  function Row(raw: RawFrame): TimelineEvent {
    var message: Bytes := [109, 101, 115, 115, 97, 103, 101];
    TimelineEvent("recv", FrameRow(match raw.event case Some(e) => e case None => message, |raw.data|))
  }

  /** Frames numbered by arrival, from 0. */
  function TagAll(raws: seq<RawFrame>): seq<SseFrame> {
    seq(|raws|, i requires 0 <= i < |raws| => Tag(raws[i], i))
  }

  function Rows(raws: seq<RawFrame>): seq<TimelineEvent> {
    seq(|raws|, i requires 0 <= i < |raws| => Row(raws[i]))
  }

  /** Total data bytes, each length cut to 32 bits as `len() as u32` does. */
  function DataBytes(raws: seq<RawFrame>): nat {
    if raws == [] then 0 else DataBytes(raws[..|raws| - 1]) + Wrap(|raws[|raws| - 1].data|)
  }

  /** The saturating total the code accumulates. */
  function Size(raws: seq<RawFrame>): U32 {
    if DataBytes(raws) > U32_MAX then U32_MAX else DataBytes(raws)
  }

  function KeepLast<T>(s: seq<T>): seq<T> {
    if |s| > FRAME_CAP then s[|s| - FRAME_CAP..] else s
  }

  function KeepFirst<T>(s: seq<T>): seq<T> {
    if |s| > FRAME_CAP then s[..FRAME_CAP] else s
  }

  /** Appending to what is kept and dropping the oldest beyond the cap. */
  lemma KeepLastStep<T>(s: seq<T>, x: T)
    ensures var t := KeepLast(s) + [x]; (if |t| > FRAME_CAP then t[1..] else t) == KeepLast(s + [x])
  {
  }

  lemma SnocAll(raws: seq<RawFrame>, raw: RawFrame)
    ensures TagAll(raws + [raw]) == TagAll(raws) + [Tag(raw, |raws|)]
    ensures Rows(raws + [raw]) == Rows(raws) + [Row(raw)]
    ensures Size(raws + [raw]) == SaturatingAdd(Size(raws), Wrap(|raw.data|))
  {
    assert (raws + [raw])[..|raws|] == raws;
  }

  /** The size is that of all data together, cut off at 2^32 - 1. */
  lemma SizeMeaning(raws: seq<RawFrame>)
    requires forall r :: r in raws ==> |r.data| < 0x1_0000_0000
    ensures var all := |Flatten(Map(raws, (r: RawFrame) => r.data))|;
            Size(raws) == if all < 0x1_0000_0000 then all else 0xFFFF_FFFF
  {
    DataBytesMeaning(raws);
  }

  lemma {:induction false} DataBytesMeaning(raws: seq<RawFrame>)
    requires forall r :: r in raws ==> |r.data| < 0x1_0000_0000
    ensures DataBytes(raws) == |Flatten(Map(raws, (r: RawFrame) => r.data))|
  {
    if raws != [] {
      var before, last := raws[..|raws| - 1], raws[|raws| - 1];
      DataBytesMeaning(before);
      assert Map(raws, (r: RawFrame) => r.data) == Map(before, (r: RawFrame) => r.data) + [last.data];
      FlattenAppend(Map(before, (r: RawFrame) => r.data), [last.data]);
      assert [last.data][1..] == [] && Flatten([last.data]) == last.data;
      assert last in raws;
    }
  }

  /** The frames carry what was received, numbered from `first` on modulo 2^32. */
  predicate Carry(frames: seq<SseFrame>, raws: seq<RawFrame>, first: nat) {
    && |frames| == |raws|
    && forall i :: 0 <= i < |frames| ==>
         && frames[i].number == (first + i) % 0x1_0000_0000
         && frames[i].event == raws[i].event && frames[i].data == raws[i].data
         && frames[i].lastEventId == raws[i].id && frames[i].retry == raws[i].retry
  }

  /** The rows tell of each frame by its event name, `message` if it has none, and its size. */
  predicate Tell(rows: seq<TimelineEvent>, raws: seq<RawFrame>) {
    && |rows| == |raws|
    && forall i :: 0 <= i < |rows| ==>
         && rows[i].kind == "recv"
         && rows[i].text == FrameRow(if raws[i].event.Some? then raws[i].event.value else Ascii("message"),
                                     |raws[i].data|)
  }

  lemma TagsCarry(raws: seq<RawFrame>)
    ensures Carry(TagAll(raws), raws, 0)
  {
  }

  lemma KeptTagsCarry(raws: seq<RawFrame>)
    ensures Carry(KeepLast(TagAll(raws)), KeepLast(raws), |raws| - |KeepLast(raws)|)
  {
    var first := |raws| - |KeepLast(raws)|;
    forall i | 0 <= i < |KeepLast(raws)|
      ensures KeepLast(TagAll(raws))[i] == Tag(raws[first + i], first + i) && KeepLast(raws)[i] == raws[first + i]
    {
    }
  }

  lemma RowsTell(raws: seq<RawFrame>)
    ensures Tell(KeepLast(Rows(raws)), KeepLast(raws))
  {
    MessageSpelled();
    forall i | 0 <= i < |raws| ensures Rows(raws)[i] == Row(raws[i]) {}
  }

  lemma MessageSpelled()
    ensures Ascii("message") == [109, 101, 115, 115, 97, 103, 101]
  {
  }

  // ---- the stream, up to its first failure ----

  function Received(stream: seq<Item>): seq<Bytes> {
    if stream == [] || stream[0].Failure? then [] else [stream[0].bytes] + Received(stream[1..])
  }

  function Failed(stream: seq<Item>): Option<Bytes> {
    if stream == [] then None
    else if stream[0].Failure? then Some(stream[0].message)
    else Failed(stream[1..])
  }

  /** Frames dispatched while reading, and the frame flushed at the end. */
  function Arrived(stream: seq<Item>): seq<RawFrame> { PushAll(START, Received(stream)).frames }

  function Flushed(stream: seq<Item>): seq<RawFrame> { Finish(PushAll(START, Received(stream)).state).frames }

  lemma {:induction false} PushAllSnoc(s: State, chunks: seq<Bytes>, c: Bytes)
    ensures PushAll(s, chunks + [c]) == Then(PushAll(s, chunks), c)
    decreases |chunks|
  {
    if chunks == [] {
      assert [c][1..] == [] && [] + [c] == [c];
      assert PushAll(Push(s, c).state, []).frames == [];
    } else {
      var first := Push(s, chunks[0]);
      PushAllSnoc(first.state, chunks[1..], c);
      HeadTail(chunks, [c]);
      PushAllCons(s, chunks);
      PushAllCons(s, chunks + [c]);
      ThenAfter(PushAll(first.state, chunks[1..]), first.frames, c);
    }
  }

  lemma PushAllCons(s: State, chunks: seq<Bytes>)
    requires chunks != []
    ensures var first := Push(s, chunks[0]); var later := PushAll(first.state, chunks[1..]);
            PushAll(s, chunks) == later.(frames := first.frames + later.frames)
  {
  }

  /** One more chunk after `p`. */
  function Then(p: Pushed, c: Bytes): Pushed {
    Pushed(Push(p.state, c).state, p.frames + Push(p.state, c).frames)
  }

  lemma ThenAfter(p: Pushed, earlier: seq<RawFrame>, c: Bytes)
    ensures Then(p, c).(frames := earlier + Then(p, c).frames) == Then(p.(frames := earlier + p.frames), c)
  {
    assert earlier + (p.frames + Push(p.state, c).frames) == earlier + p.frames + Push(p.state, c).frames;
  }

  lemma FinishFlushesAtMostOne(s: State)
    ensures |Finish(s).frames| <= 1
  {
  }

  /** The line sets one of the four fields. */
  predicate SetsField(line: Bytes) { line != [] && line[0] != COLON && IsField(FieldValue(Repair(line)).0) }

  predicate IsField(name: Bytes) { name == EVENT || name == DATA || name == ID || name == RETRY }

  /** A frame is left open: fields are gathered, or the unterminated line sets one. */
  predicate LeftOpen(s: State) { s.fields.dirty || SetsField(s.buf) }

  lemma FlushesWhatIsOpen(s: State)
    ensures Finish(s).frames != [] <==> LeftOpen(s)
  {
    if s.buf != [] { FeedDirties(s.fields, s.buf); }
  }

  lemma FeedDirties(f: Fields, line: Bytes)
    requires line != []
    ensures Feed(f, line).0.dirty <==> f.dirty || SetsField(line)
  {
  }

  // ---- the accumulator ----

  class SseAccum {
    var status: nat
    var openEvents: seq<TimelineEvent>
    var frameEvents: seq<TimelineEvent>
    var frames: seq<SseFrame>
    var bytes: U32
    var captured: seq<Bytes>
    var attached: seq<Bytes>

    constructor ()
      ensures openEvents == [] && captured == [] && attached == [] && status == 0 && Holds([])
    {
      status, openEvents, frameEvents, frames, bytes := 0, [], [], [], 0;
      captured, attached := [], [];
    }

    /** What is kept of the frames `raws` received so far. */
    ghost predicate Holds(raws: seq<RawFrame>)
      reads this
    {
      && frames == KeepLast(TagAll(raws))
      && frameEvents == KeepLast(Rows(raws))
      && bytes == Size(raws)
    }

    method Open(status: nat, events: seq<TimelineEvent>)
      modifies this`status, this`openEvents
      ensures this.status == status && openEvents == events
    {
      this.status := status;
      openEvents := events;
    }

    method SetCookies(captured: seq<Bytes>, attached: seq<Bytes>)
      modifies this`captured, this`attached
      ensures this.captured == captured && this.attached == attached
    {
      this.captured := captured;
      this.attached := attached;
    }

    /** Recording the next frame: the oldest goes when the cap is passed. */
    method Frame(frame: SseFrame, timeline: TimelineEvent, ghost raws: seq<RawFrame>, ghost raw: RawFrame)
      requires Holds(raws) && frame == Tag(raw, |raws|) && timeline == Row(raw)
      modifies this`bytes, this`frameEvents, this`frames
      ensures Holds(raws + [raw])
    {
      SnocAll(raws, raw);
      KeepLastStep(TagAll(raws), frame);
      KeepLastStep(Rows(raws), timeline);
      bytes := SaturatingAdd(bytes, Wrap(|frame.data|));
      frameEvents := frameEvents + [timeline];
      if |frameEvents| > FRAME_CAP {
        frameEvents := frameEvents[1..];
      }
      frames := frames + [frame];
      if |frames| > FRAME_CAP {
        frames := frames[1..];
      }
    }

    predicate IsSse()
      reads this
    {
      openEvents != [] || frames != []
    }

    method Timeline() returns (events: seq<TimelineEvent>)
      modifies this`openEvents, this`frameEvents
      ensures events == old(openEvents) + old(frameEvents)
    {
      events := openEvents;
      openEvents := [];
      events := events + frameEvents;
      frameEvents := [];
    }

    /** Natural end: bounded timeline plus the response's last `done` row; a plain response keeps its own. */
    method Finalize(response: HttpResponse) returns (r: HttpResponse)
      modifies this
      ensures r == response.(
                events := if old(IsSse()) then old(openEvents) + old(frameEvents) + LastDone(response.events)
                          else response.events,
                bodySize := if old(IsSse()) then old(bytes) else response.bodySize,
                sseFrames := old(frames))
    {
      r := response;
      if IsSse() {
        var done: seq<TimelineEvent> := [];
        var i := |response.events|;
        assert response.events[..i] == response.events;
        while i > 0 && done == []
          invariant 0 <= i <= |response.events|
          invariant LastDone(response.events) == (if done == [] then LastDone(response.events[..i]) else done)
        {
          i := i - 1;
          assert response.events[..i + 1][..i] == response.events[..i];
          if response.events[i].kind == "done" {
            done := [response.events[i]];
          }
        }
        var events := Timeline();
        r := r.(events := events + done, bodySize := bytes);
      }
      r := r.(sseFrames := frames);
    }

    /** Early end: everything captured so far, then one closing row. */
    method Rebuild(closingKind: string, closingText: Bytes) returns (r: HttpResponse)
      modifies this
      ensures r == HttpResponse(
                old(status),
                old(openEvents) + old(frameEvents) + [TimelineEvent(closingKind, Plain(closingText))],
                old(bytes), old(captured), old(attached), old(frames))
    {
      var events := Timeline();
      events := events + [TimelineEvent(closingKind, Plain(closingText))];
      r := HttpResponse(status, events, bytes, captured, attached, frames);
    }
  }

  /** The last `done` row, if there is one. */
  function LastDone(events: seq<TimelineEvent>): seq<TimelineEvent> {
    if events == [] then []
    else if events[|events| - 1].kind == "done" then [events[|events| - 1]]
    else LastDone(events[..|events| - 1])
  }

  lemma {:induction false} LastDoneMeaning(events: seq<TimelineEvent>)
    ensures LastDone(events) == [] <==> forall i :: 0 <= i < |events| ==> events[i].kind != "done"
    ensures LastDone(events) != [] ==> exists k :: 0 <= k < |events| && IsLastDone(events, k)
  {
    if events != [] && events[|events| - 1].kind == "done" {
      assert IsLastDone(events, |events| - 1);
    } else if events != [] {
      var before := events[..|events| - 1];
      LastDoneMeaning(before);
      if LastDone(before) != [] {
        var k :| 0 <= k < |before| && IsLastDone(before, k);
        assert events[k] == before[k] && IsLastDone(events, k);
      }
    }
  }

  predicate IsLastDone(events: seq<TimelineEvent>, k: nat)
    requires k < |events|
  {
    && events[k].kind == "done" && LastDone(events) == [events[k]]
    && forall i :: k < i < |events| ==> events[i].kind != "done"
  }

  // ---- reading with a live sink ----

  method PushSseFrame(accum: SseAccum, number: U32, raw: RawFrame, ghost raws: seq<RawFrame>) returns (next: U32)
    requires accum.Holds(raws) && number == Wrap(|raws|)
    modifies accum`bytes, accum`frameEvents, accum`frames
    ensures accum.Holds(raws + [raw]) && next == Wrap(|raws + [raw]|)
  {
    accum.Frame(SseFrame(number, raw.event, raw.data, raw.id, raw.retry), Row(raw), raws, raw);
    next := Wrap(number + 1);
  }

  method PushSseFrames(accum: SseAccum, number: U32, batch: seq<RawFrame>, ghost raws: seq<RawFrame>)
    returns (next: U32)
    requires accum.Holds(raws) && number == Wrap(|raws|)
    modifies accum`bytes, accum`frameEvents, accum`frames
    ensures accum.Holds(raws + batch) && next == Wrap(|raws + batch|)
  {
    next := number;
    assert raws + batch[..0] == raws;
    for i := 0 to |batch|
      invariant accum.Holds(raws + batch[..i]) && next == Wrap(|raws + batch[..i]|)
    {
      next := PushSseFrame(accum, next, batch[i], raws + batch[..i]);
      assert raws + batch[..i] + [batch[i]] == raws + batch[..i + 1];
    }
    assert batch[..|batch|] == batch;
  }

  /** One chunk of the live read. */
  method LiveChunk(decoder: SseDecoder, accum: SseAccum, number: U32, chunk: Bytes,
                   ghost chunks: seq<Bytes>, ghost raws: seq<RawFrame>)
    returns (next: U32, ghost raws': seq<RawFrame>)
    requires Pushed(decoder.Abs(), raws) == PushAll(START, chunks)
    requires accum.Holds(raws) && number == Wrap(|raws|)
    modifies decoder, accum`bytes, accum`frameEvents, accum`frames
    ensures Pushed(decoder.Abs(), raws') == PushAll(START, chunks + [chunk])
    ensures accum.Holds(raws') && next == Wrap(|raws'|)
  {
    PushAllSnoc(START, chunks, chunk);
    var batch := decoder.PushChunk(chunk);
    next := PushSseFrames(accum, number, batch, raws);
    raws' := raws + batch;
  }

  /** The live-sink branch: the accumulator ends up holding every frame received (capped); the flush
      happens only when the stream ends without a failure. */
  method ReadLive(stream: seq<Item>, accum: SseAccum, status: nat, setup: seq<TimelineEvent>,
                  captured: seq<Bytes>, attached: seq<Bytes>) returns (r: Result<(), Bytes>)
    requires accum.Holds([])
    modifies accum
    ensures accum.Holds(Arrived(stream) + if Failed(stream).None? then Flushed(stream) else [])
    ensures accum.status == status && accum.openEvents == setup && accum.captured == captured
        && accum.attached == attached
    ensures r == match Failed(stream) case None => Ok(()) case Some(m) => Err(m)
  {
    accum.Open(status, setup);
    accum.SetCookies(captured, attached);
    var decoder := new SseDecoder();
    var number: U32 := 0;
    ghost var raws: seq<RawFrame> := [];
    ReceivedPrefix(stream, 0);
    for i := 0 to |stream|
      invariant accum.status == status && accum.openEvents == setup
      invariant accum.captured == captured && accum.attached == attached
      invariant NoFailure(stream, i)
      invariant Pushed(decoder.Abs(), raws) == PushAll(START, Received(stream[..i]))
      invariant accum.Holds(raws) && number == Wrap(|raws|)
    {
      ReceivedPrefix(stream, i);
      if stream[i].Failure? {
        assert raws + [] == raws;
        return Err(stream[i].message);
      }
      number, raws := LiveChunk(decoder, accum, number, stream[i].bytes, Received(stream[..i]), raws);
    }
    assert stream[..|stream|] == stream;
    ReceivedPrefix(stream, |stream|);
    var tail := decoder.FinishStream();
    number := PushSseFrames(accum, number, tail, raws);
    return Ok(());
  }

  ghost predicate NoFailure(stream: seq<Item>, n: nat)
    requires n <= |stream|
  {
    forall k :: 0 <= k < n ==> stream[k].Chunk?
  }

  /** What the first `i` items say about `Received` and `Failed`. */
  lemma {:induction false} ReceivedPrefix(stream: seq<Item>, i: nat)
    requires i <= |stream| && NoFailure(stream, i)
    ensures i < |stream| && stream[i].Chunk? ==>
              Received(stream[..i + 1]) == Received(stream[..i]) + [stream[i].bytes] && NoFailure(stream, i + 1)
    ensures i < |stream| && stream[i].Failure? ==>
              Received(stream) == Received(stream[..i]) && Failed(stream) == Some(stream[i].message)
    ensures i == |stream| ==> Failed(stream) == None
  {
    if i > 0 {
      ReceivedPrefix(stream[1..], i - 1);
      assert stream[1..][..i - 1] == stream[..i][1..];
      if i < |stream| { assert stream[1..][..i] == stream[..i + 1][1..]; }
    }
  }

  // ---- reading without a sink ----

  datatype Notice = ReadFailed(message: Bytes) | CapReached

  /** The sink-less branch: at most `FRAME_CAP` frames, then it stops reading. */
  method ReadLocal(stream: seq<Item>) returns (frames: seq<SseFrame>, bytes: U32, notices: seq<Notice>)
    ensures frames == TagAll(KeepFirst(Arrived(stream) + Flushed(stream)))
    ensures bytes == Size(KeepFirst(Arrived(stream) + Flushed(stream)))
    ensures Carry(frames, KeepFirst(Arrived(stream) + Flushed(stream)), 0)
    ensures notices == if |Arrived(stream)| >= FRAME_CAP then [CapReached]
                       else match Failed(stream) case None => [] case Some(m) => [ReadFailed(m)]
  {
    TagsCarry(KeepFirst(Arrived(stream) + Flushed(stream)));
    var decoder := new SseDecoder();
    frames, bytes, notices := [], 0, [];
    var capped := false;
    ghost var raws: seq<RawFrame> := [];
    ReceivedPrefix(stream, 0);
    label read:
    for i := 0 to |stream|
      invariant !capped && notices == [] && NoFailure(stream, i)
      invariant Pushed(decoder.Abs(), raws) == PushAll(START, Received(stream[..i]))
      invariant frames == TagAll(raws) && bytes == Size(raws) && |raws| < FRAME_CAP
    {
      ReceivedPrefix(stream, i);
      if stream[i].Failure? {
        notices := [ReadFailed(stream[i].message)];
        break read;
      }
      ArrivedExtends(stream, i + 1);
      frames, bytes, capped, raws := LocalChunk(decoder, frames, bytes, stream[i].bytes, Received(stream[..i]), raws);
      if capped {
        break read;
      }
    }
    if !capped {
      assert stream[..|stream|] == stream;
      if notices == [] { ReceivedPrefix(stream, |stream|); }
      var tail := decoder.FinishStream();
      FinishFlushesAtMostOne(PushAll(START, Received(stream)).state);
      frames, bytes := Collect(frames, bytes, tail, raws);
    } else {
      notices := [CapReached];
      FirstOfPrefix(raws, Arrived(stream), Flushed(stream));
    }
  }

  lemma FirstOfPrefix<T>(a: seq<T>, b: seq<T>, c: seq<T>)
    requires a <= b && |a| >= FRAME_CAP
    ensures KeepFirst(b + c) == a[..FRAME_CAP] && |b| >= FRAME_CAP
  {
  }

  /** One chunk of the sink-less read. */
  method LocalChunk(decoder: SseDecoder, frames: seq<SseFrame>, bytes: U32, chunk: Bytes,
                    ghost chunks: seq<Bytes>, ghost raws: seq<RawFrame>)
    returns (frames': seq<SseFrame>, bytes': U32, capped: bool, ghost raws': seq<RawFrame>)
    requires Pushed(decoder.Abs(), raws) == PushAll(START, chunks)
    requires frames == TagAll(raws) && bytes == Size(raws) && |raws| < FRAME_CAP
    modifies decoder
    ensures Pushed(decoder.Abs(), raws') == PushAll(START, chunks + [chunk])
    ensures capped <==> |raws'| >= FRAME_CAP
    ensures var kept := if capped then raws'[..FRAME_CAP] else raws';
            frames' == TagAll(kept) && bytes' == Size(kept)
  {
    PushAllSnoc(START, chunks, chunk);
    var batch := decoder.PushChunk(chunk);
    frames', bytes', capped := CollectUpToCap(frames, bytes, batch, raws);
    raws' := raws + batch;
  }

  method PushLocal(frames: seq<SseFrame>, bytes: U32, raw: RawFrame, ghost raws: seq<RawFrame>)
    returns (frames': seq<SseFrame>, bytes': U32)
    requires frames == TagAll(raws) && bytes == Size(raws)
    ensures frames' == TagAll(raws + [raw]) && bytes' == Size(raws + [raw])
  {
    SnocAll(raws, raw);
    bytes' := SaturatingAdd(bytes, Wrap(|raw.data|));
    frames' := frames + [SseFrame(Wrap(|frames|), raw.event, raw.data, raw.id, raw.retry)];
  }

  method Collect(frames: seq<SseFrame>, bytes: U32, batch: seq<RawFrame>, ghost raws: seq<RawFrame>)
    returns (frames': seq<SseFrame>, bytes': U32)
    requires frames == TagAll(raws) && bytes == Size(raws)
    ensures frames' == TagAll(raws + batch) && bytes' == Size(raws + batch)
  {
    frames', bytes' := frames, bytes;
    assert raws + batch[..0] == raws;
    for k := 0 to |batch|
      invariant frames' == TagAll(raws + batch[..k]) && bytes' == Size(raws + batch[..k])
    {
      frames', bytes' := PushLocal(frames', bytes', batch[k], raws + batch[..k]);
      assert raws + batch[..k] + [batch[k]] == raws + batch[..k + 1];
    }
    assert batch[..|batch|] == batch;
  }

  /** One batch of the sink-less read; `capped` tells it to stop. */
  method CollectUpToCap(frames: seq<SseFrame>, bytes: U32, batch: seq<RawFrame>, ghost raws: seq<RawFrame>)
    returns (frames': seq<SseFrame>, bytes': U32, capped: bool)
    requires frames == TagAll(raws) && bytes == Size(raws) && |raws| < FRAME_CAP
    ensures capped <==> |raws + batch| >= FRAME_CAP
    ensures var kept := if capped then (raws + batch)[..FRAME_CAP] else raws + batch;
            frames' == TagAll(kept) && bytes' == Size(kept)
  {
    frames', bytes' := frames, bytes;
    assert raws + batch[..0] == raws;
    for k := 0 to |batch|
      invariant |raws| + k < FRAME_CAP
      invariant frames' == TagAll(raws + batch[..k]) && bytes' == Size(raws + batch[..k])
    {
      frames', bytes' := PushLocal(frames', bytes', batch[k], raws + batch[..k]);
      assert raws + batch[..k] + [batch[k]] == raws + batch[..k + 1];
      if |frames'| >= FRAME_CAP {
        assert raws + batch[..k + 1] == (raws + batch)[..FRAME_CAP];
        return frames', bytes', true;
      }
    }
    assert batch[..|batch|] == batch;
    return frames', bytes', false;
  }

  lemma ArrivedExtends(stream: seq<Item>, n: nat)
    requires n <= |stream| && NoFailure(stream, n)
    ensures PushAll(START, Received(stream[..n])).frames <= Arrived(stream)
  {
    ReceivedSplit(stream, n);
    PushAllExtends(START, Received(stream[..n]), Received(stream[n..]));
  }

  lemma {:induction false} ReceivedSplit(stream: seq<Item>, n: nat)
    requires n <= |stream| && NoFailure(stream, n)
    ensures Received(stream) == Received(stream[..n]) + Received(stream[n..])
  {
    if n == 0 {
      assert stream[0..] == stream;
    } else {
      ReceivedSplit(stream[1..], n - 1);
      assert stream[1..][..n - 1] == stream[..n][1..];
    }
  }

  lemma {:induction false} PushAllExtends(s: State, a: seq<Bytes>, b: seq<Bytes>)
    ensures PushAll(s, a).frames <= PushAll(s, a + b).frames
    decreases |a|
  {
    if a != [] {
      var first := Push(s, a[0]);
      PushAllExtends(first.state, a[1..], b);
      HeadTail(a, b);
      PushAllCons(s, a);
      PushAllCons(s, a + b);
    }
  }

  // ---- the two consumers agree ----

  /** The frames the live read records: after a failure the unfinished one is not flushed. */
  function Recorded(stream: seq<Item>): seq<RawFrame> {
    Arrived(stream) + if Failed(stream).None? then Flushed(stream) else []
  }

  /** The response of a live read: finalised, or rebuilt after a failure. `rows`: the executor's own timeline. */
  method LiveResponse(stream: seq<Item>, status: nat, setup: seq<TimelineEvent>, rows: seq<TimelineEvent>,
                      captured: seq<Bytes>, attached: seq<Bytes>) returns (live: HttpResponse)
    ensures live.sseFrames == KeepLast(TagAll(Recorded(stream))) && live.bodySize == Size(Recorded(stream))
    ensures Carry(live.sseFrames, KeepLast(Recorded(stream)), |Recorded(stream)| - |KeepLast(Recorded(stream))|)
    ensures Tell(KeepLast(Rows(Recorded(stream))), KeepLast(Recorded(stream)))
    ensures live.status == status && live.captured == captured && live.attached == attached
    ensures live.events == match Failed(stream)
                           case None => if setup == [] && Recorded(stream) == [] then rows
                                        else setup + KeepLast(Rows(Recorded(stream))) + LastDone(rows)
                           case Some(m) => setup + KeepLast(Rows(Recorded(stream))) + [TimelineEvent("error", Plain(m))]
  {
    KeptTagsCarry(Recorded(stream));
    RowsTell(Recorded(stream));
    var accum := new SseAccum();
    var outcome := ReadLive(stream, accum, status, setup, captured, attached);
    match outcome
    case Ok(_) => live := accum.Finalize(HttpResponse(status, rows, 0, captured, attached, []));
    case Err(message) => live := accum.Rebuild("error", message);
  }

  /** Both consumers hold these frames: the same up to the cap, the last and the first `FRAME_CAP` beyond it. */
  ghost predicate Agree(all: seq<RawFrame>, live: HttpResponse, frames: seq<SseFrame>, bytes: U32) {
    if |all| <= FRAME_CAP then
      live.sseFrames == frames == TagAll(all) && live.bodySize == bytes == Size(all)
    else
      && live.sseFrames == TagAll(all)[|all| - FRAME_CAP..] && live.bodySize == Size(all)
      && frames == TagAll(all)[..FRAME_CAP] && bytes == Size(all[..FRAME_CAP])
  }

  /** After a failure the sink-less read has one frame more: the one the stream left open. */
  ghost predicate OneMore(all: seq<RawFrame>, live: HttpResponse, frames: seq<SseFrame>, bytes: U32) {
    exists raw :: frames == live.sseFrames + [Tag(raw, |all|)] && live.sseFrames == TagAll(all)
                  && bytes == SaturatingAdd(live.bodySize, Wrap(|raw.data|))
  }

  /** The decoder when the stream stops. */
  function Stopped(stream: seq<Item>): State { PushAll(START, Received(stream)).state }

  /** One stream through both consumers. Ending normally, it gives them the decoded frames. After a failure they
      agree if and only if no frame is left open or the cap is reached, where the sink-less read stops before the
      failure; else it has one frame more. */
  method ReadBothWays(stream: seq<Item>, status: nat, setup: seq<TimelineEvent>, rows: seq<TimelineEvent>,
                      captured: seq<Bytes>, attached: seq<Bytes>)
    returns (live: HttpResponse, frames: seq<SseFrame>, bytes: U32)
    ensures Failed(stream).None? ==> Agree(Decode(Received(stream)), live, frames, bytes)
    ensures Failed(stream).Some? ==>
              (Agree(Arrived(stream), live, frames, bytes)
               <==> !LeftOpen(Stopped(stream)) || |Arrived(stream)| >= FRAME_CAP)
    ensures Failed(stream).Some? ==>
              Agree(Arrived(stream), live, frames, bytes) || OneMore(Arrived(stream), live, frames, bytes)
  {
    live := LiveResponse(stream, status, setup, rows, captured, attached);
    var notices;
    frames, bytes, notices := ReadLocal(stream);
    BothAgree(stream, live, frames, bytes);
    FlushesWhatIsOpen(Stopped(stream));
  }

  lemma BothAgree(stream: seq<Item>, live: HttpResponse, frames: seq<SseFrame>, bytes: U32)
    requires live.sseFrames == KeepLast(TagAll(Recorded(stream))) && live.bodySize == Size(Recorded(stream))
    requires frames == TagAll(KeepFirst(Arrived(stream) + Flushed(stream)))
    requires bytes == Size(KeepFirst(Arrived(stream) + Flushed(stream)))
    ensures Failed(stream).None? ==> Agree(Decode(Received(stream)), live, frames, bytes)
    ensures Failed(stream).Some? ==>
              (Agree(Arrived(stream), live, frames, bytes)
               <==> Flushed(stream) == [] || |Arrived(stream)| >= FRAME_CAP)
    ensures Failed(stream).Some? ==>
              Agree(Arrived(stream), live, frames, bytes) || OneMore(Arrived(stream), live, frames, bytes)
  {
    var all := Arrived(stream);
    if Failed(stream).None? {
      DecodedAtOnce(stream);
      CapsAgree(all + Flushed(stream), live, frames, bytes);
    } else {
      assert all + [] == all;
      if Flushed(stream) == [] || |all| >= FRAME_CAP {
        if |all| >= FRAME_CAP { FirstOfLonger(all, Flushed(stream)); }
        CapsAgree(all, live, frames, bytes);
      } else {
        FinishFlushesAtMostOne(Stopped(stream));
        OpenFrameDiffers(all, Flushed(stream)[0], live, frames, bytes);
      }
    }
  }

  lemma FirstOfLonger<T>(a: seq<T>, b: seq<T>)
    requires |a| >= FRAME_CAP
    ensures KeepFirst(a + b) == KeepFirst(a)
  {
    FirstOfPrefix(a, a, b);
    assert |a| == FRAME_CAP ==> a[..FRAME_CAP] == a;
  }

  lemma OpenFrameDiffers(all: seq<RawFrame>, raw: RawFrame, live: HttpResponse, frames: seq<SseFrame>, bytes: U32)
    requires |all| < FRAME_CAP && frames == TagAll(all + [raw]) && bytes == Size(all + [raw])
    requires live.sseFrames == TagAll(all) && live.bodySize == Size(all)
    ensures OneMore(all, live, frames, bytes) && !Agree(all, live, frames, bytes)
  {
    SnocAll(all, raw);
  }

  lemma OneDataLine()
    ensures Push(START, DATA + [LF]) == Pushed(State([], NO_FIELDS.(data := [[]], dirty := true), true), [])
  {
    var line := DATA + [LF];
    assert [] + line == line && line[..3][0] != BOM[0];
    DrainData();
  }

  lemma DrainData()
    ensures Drain(NO_FIELDS, DATA + [LF]) == Drained(NO_FIELDS.(data := [[]], dirty := true), [], [])
  {
    DataStands();
    FeedData(NO_FIELDS, DATA, []);
    assert DATA + [LF] == DATA + [LF] + [];
    DrainLine(NO_FIELDS, DATA, []);
    AfterAfter(Drain(NO_FIELDS.(data := [[]], dirty := true), []), [], []);
  }

  lemma OneChunkThenFailure(c: Bytes, m: Bytes)
    ensures var stream := [Chunk(c), Failure(m)];
            Received(stream) == [c] && Failed(stream) == Some(m) && PushAll(START, Received(stream)) == Push(START, c)
  {
    var stream := [Chunk(c), Failure(m)];
    assert stream[1..] == [Failure(m)] && Received(stream) == [c] && [c][1..] == [];
    var first := Push(START, c);
    assert first.frames + [] == first.frames;
  }

  /** A stream that fails after one unfinished frame: the live read has nothing, the sink-less read has the frame. */
  lemma FailureSplitsConsumers(m: Bytes)
    ensures var stream := [Chunk(DATA + [LF]), Failure(m)];
            && Failed(stream) == Some(m) && Arrived(stream) == [] && LeftOpen(Stopped(stream))
            && Flushed(stream) == [RawFrame(None, [], None, None)]
  {
    OneDataLine();
    OneChunkThenFailure(DATA + [LF], m);
  }

  lemma DecodedAtOnce(stream: seq<Item>)
    ensures Arrived(stream) + Flushed(stream) == Decode(Received(stream))
  {
  }

  lemma CapsAgree(all: seq<RawFrame>, live: HttpResponse, frames: seq<SseFrame>, bytes: U32)
    requires frames == TagAll(KeepFirst(all)) && bytes == Size(KeepFirst(all))
    ensures live.sseFrames == KeepLast(TagAll(all)) && live.bodySize == Size(all) ==> Agree(all, live, frames, bytes)
  {
    if |all| > FRAME_CAP { assert TagAll(KeepFirst(all)) == TagAll(all)[..FRAME_CAP]; }
  }

  lemma WrapNext(n: nat)
    ensures Wrap(Wrap(n) + 1) == Wrap(n + 1)
  {
  }

  /** Kept frames are numbered consecutively (modulo 2^32) and the last one is the newest. */
  lemma KeptNumbersConsecutive(raws: seq<RawFrame>)
    ensures var kept := KeepLast(TagAll(raws));
            && |kept| == (if |raws| > FRAME_CAP then FRAME_CAP else |raws|)
            && (forall i :: 0 <= i < |kept| - 1 ==> kept[i + 1].number == Wrap(kept[i].number + 1))
            && (raws != [] ==> kept[|kept| - 1] == Tag(raws[|raws| - 1], |raws| - 1))
  {
    var kept := KeepLast(TagAll(raws));
    var first := |raws| - |kept|;
    forall i | 0 <= i < |kept| - 1 ensures kept[i + 1].number == Wrap(kept[i].number + 1) {
      assert kept[i] == TagAll(raws)[first + i] && kept[i + 1] == TagAll(raws)[first + i + 1];
      WrapNext(first + i);
    }
  }
}
