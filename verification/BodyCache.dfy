/** The bounded cache of indexed bodies and the line window read through it
    (`BodyCache`, `window` in crates/voleeo-storage/src/body_window.rs). */
module BodyCaching {
  import opened Text
  import opened Sequences
  import opened BodyWindow

  const CACHE_CAP := 4

  type Key = Bytes
  type Failure = Bytes

  datatype CacheState = CacheState(entries: map<Key, Parsed>, order: seq<Key>)

  const EMPTY := CacheState(map[], [])

  // ---- steps ----

  /** Dropping the oldest keys until the cap holds. */
  function Evict(c: CacheState): CacheState
    decreases |c.order|
  {
    if |c.order| <= CACHE_CAP then c
    else Evict(CacheState(c.entries - {c.order[0]}, c.order[1..]))
  }

  ghost function LoadStep(c: CacheState, key: Key, load: Result<Bytes, Failure>)
    : (CacheState, Result<Parsed, Failure>)
  {
    if key in c.entries then (c, Ok(c.entries[key]))
    else
      match load
      case Err(e) => (c, Err(e))
      case Ok(text) => (Evict(CacheState(c.entries[key := ParseOf(text)], c.order + [key])), Ok(ParseOf(text)))
  }

  function InvalidateStep(c: CacheState, key: Key): CacheState {
    CacheState(c.entries - {key}, Filter(c.order, k => k != key))
  }

  // ---- the cache ----

  class BodyCache {
    var entries: map<Key, Parsed>
    var order: seq<Key>

    function Abs(): CacheState reads this { CacheState(entries, order) }

    constructor ()
      ensures Abs() == EMPTY
    {
      entries, order := map[], [];
    }

    /** `load` is the outcome the loader would have; it is not run when the key is cached. */
    method GetOrLoad(key: Key, load: Result<Bytes, Failure>) returns (r: Result<Parsed, Failure>)
      modifies this
      ensures (Abs(), r) == LoadStep(old(Abs()), key, load)
    {
      if key in entries {
        return Ok(entries[key]);
      }
      match load {
        case Err(e) => return Err(e);
        case Ok(text) =>
          var parsed := Parse(text);
          entries := entries[key := parsed];
          order := order + [key];
          ghost var target := Evict(Abs());
          while |order| > CACHE_CAP
            invariant Evict(Abs()) == target
            decreases |order|
          {
            var evict := order[0];
            order := order[1..];
            entries := entries - {evict};
          }
          return Ok(parsed);
      }
    }

    method Invalidate(key: Key)
      modifies this
      ensures Abs() == InvalidateStep(old(Abs()), key)
      ensures key !in entries && forall k :: k != key ==>
                (k in entries <==> k in old(entries)) && (k in entries ==> entries[k] == old(entries)[k])
      ensures forall k :: multiset(order)[k] == if k == key then 0 else multiset(old(order))[k]
    {
      entries := entries - {key};
      forall k ensures multiset(Filter(order, j => j != key))[k] == if k == key then 0 else multiset(order)[k] {
        FilterCount(order, j => j != key, k);
      }
      order := Filter(order, k => k != key);
    }

    /** `count` lines from `startLine`, cut to the body, with the fold ends of the same lines. */
    method Window(key: Key, load: Result<Bytes, Failure>, startLine: nat, count: nat)
      returns (r: Result<BodyView, Failure>)
      requires forall k :: k in entries ==> entries[k] == ParseOf(entries[k].text)
      modifies this
      ensures Abs() == LoadStep(old(Abs()), key, load).0
      ensures match LoadStep(old(Abs()), key, load).1
              case Err(e) => r == Err(e)
              case Ok(p) => r == Ok(ViewOf(p.text, startLine, count)) && ShowsWindow(r.value, p.text, startLine, count)
    {
      var loaded := GetOrLoad(key, load);
      match loaded {
        case Err(e) => return Err(e);
        case Ok(parsed) =>
          var view := SliceLines(parsed, startLine, count);
          ViewShows(parsed.text, startLine, count);
          return Ok(view);
      }
    }
  }

  method SliceLines(parsed: Parsed, startLine: nat, count: nat) returns (view: BodyView)
    requires parsed == ParseOf(parsed.text)
    ensures view == ViewOf(parsed.text, startLine, count)
  {
    FoldCount(parsed.text);
    LineCount(parsed.text);
    var total := |parsed.lines|;
    var start := if startLine <= total then startLine else total;
    var end := if start + count <= total then start + count else total;
    ghost var all := LinePieces(parsed.text);
    var lines: seq<Bytes> := [];
    for i := start to end
      invariant lines == all[start..i]
    {
      SliceSnoc(all, start, i);
      LineText(parsed.text, i);
      lines := lines + [parsed.text[parsed.lines[i].start..parsed.lines[i].end]];
    }
    view := BodyView(lines, U32OrMax(total), parsed.folds[start..end]);
  }

  lemma LineCount(text: Bytes)
    ensures |LineIndex(text)| == |LinePieces(text)|
  {
    LineTexts(text);
  }

  /** One line of the text. */
  lemma LineText(text: Bytes, i: nat)
    requires i < |LineIndex(text)|
    ensures LineIndex(text)[i].start <= LineIndex(text)[i].end <= |text| && i < |LinePieces(text)|
    ensures text[LineIndex(text)[i].start..LineIndex(text)[i].end] == LinePieces(text)[i]
  {
    LineTexts(text);
  }

  /** What a window onto `text` shows. */
  ghost function ViewOf(text: Bytes, startLine: nat, count: nat): BodyView {
    LineTexts(text);
    var all, folds := LinePieces(text), ParseOf(text).folds;
    var start := if startLine <= |all| then startLine else |all|;
    var end := if start + count <= |all| then start + count else |all|;
    BodyView(all[start..end], U32OrMax(|all|), folds[start..end])
  }

  /** The lines from `startLine` on, as many as asked for and as there are, each with the end of the fold it opens, and
      the number of all lines as far as 32 bits can say it. */
  ghost predicate ShowsWindow(view: BodyView, text: Bytes, startLine: nat, count: nat) {
    ShowsLines(view, LinePieces(text), ParseOf(text).folds, startLine, count)
  }

  predicate ShowsLines(view: BodyView, all: seq<Bytes>, folds: seq<nat>, startLine: nat, count: nat) {
    && |view.lines| == |view.foldEnds| && |folds| == |all|
    && |view.lines| == (if startLine >= |all| then 0
                        else if count < |all| - startLine then count
                        else |all| - startLine)
    && (forall i :: 0 <= i < |view.lines| ==>
         view.lines[i] == all[startLine + i] && view.foldEnds[i] == folds[startLine + i])
    && view.totalLines == if |all| <= 0xFFFF_FFFF then |all| else 0xFFFF_FFFF
  }

  lemma ViewShows(text: Bytes, startLine: nat, count: nat)
    ensures ShowsWindow(ViewOf(text, startLine, count), text, startLine, count)
  {
    FoldCount(text);
    SlicesShow(LinePieces(text), ParseOf(text).folds, startLine, count);
  }

  lemma FoldCount(text: Bytes)
    ensures |ParseOf(text).folds| == |LinePieces(text)|
  {
    LineTexts(text);
  }

  lemma SlicesShow(all: seq<Bytes>, folds: seq<nat>, startLine: nat, count: nat)
    requires |folds| == |all|
    ensures var start := if startLine <= |all| then startLine else |all|;
            var end := if start + count <= |all| then start + count else |all|;
            ShowsLines(BodyView(all[start..end], U32OrMax(|all|), folds[start..end]), all, folds, startLine, count)
  {
  }

  datatype BodyView = BodyView(lines: seq<Bytes>, totalLines: nat, foldEnds: seq<nat>)

  /** Slicing the text by its line index gives its lines. */
  lemma LineTexts(text: Bytes)
    ensures InText(text, LineIndex(text)) && |LineIndex(text)| == |LinePieces(text)|
    ensures forall i :: 0 <= i < |LineIndex(text)| ==>
              text[LineIndex(text)[i].start..LineIndex(text)[i].end] == LinePieces(text)[i]
  {
    LineIndexCovers(text);
    var pieces := LinePieces(text);
    var whole := Split(text, LF);
    OffsetsSlice(text, pieces, whole, 0);
  }

  lemma {:induction false} OffsetsSlice(text: Bytes, pieces: seq<Bytes>, whole: seq<Bytes>, at: nat)
    requires at <= |text| && text[at..] == Join(whole, LF) && pieces <= whole
    ensures var r := Offsets(pieces, at);
            |r| == |pieces| && forall i :: 0 <= i < |r| ==>
              r[i].start <= r[i].end <= |text| && text[r[i].start..r[i].end] == pieces[i]
  {
    if pieces != [] {
      var first := pieces[0];
      assert text[at..][..|first|] == first;
      assert text[at..at + |first|] == first;
      if |whole| > 1 {
        var next := at + |first| + 1;
        assert text[next..] == text[at..][|first| + 1..] == Join(whole[1..], LF);
        OffsetsSlice(text, pieces[1..], whole[1..], next);
      }
    }
  }

  // ---- every run of the cache ----

  /** Keys and queue are the same duplicate-free set of at most `CACHE_CAP` keys. */
  ghost predicate WellFormed(c: CacheState) {
    && NoDuplicates(c.order) && |c.order| <= CACHE_CAP
    && (forall k :: k in c.order <==> k in c.entries)
  }

  /** The stored bodies beside the cache; a missing body fails to load. */
  datatype World = World(cache: CacheState, bodies: map<Key, Bytes>)

  datatype Event = Load(key: Key) | Invalidated(key: Key) | Stored(key: Key, body: Bytes) | Deleted(key: Key)

  function Fetch(bodies: map<Key, Bytes>, key: Key): Result<Bytes, Failure> {
    if key in bodies then Ok(bodies[key]) else Err(key)
  }

  /** A body changes only together with an invalidation of its key. */
  ghost function Happen(w: World, e: Event): World {
    match e
    case Load(key) => w.(cache := LoadStep(w.cache, key, Fetch(w.bodies, key)).0)
    case Invalidated(key) => w.(cache := InvalidateStep(w.cache, key))
    case Stored(key, body) => World(InvalidateStep(w.cache, key), w.bodies[key := body])
    case Deleted(key) => World(InvalidateStep(w.cache, key), w.bodies - {key})
  }

  ghost function Run(w: World, events: seq<Event>): World {
    if events == [] then w else Happen(Run(w, events[..|events| - 1]), events[|events| - 1])
  }

  ghost predicate Coherent(w: World) {
    forall k :: k in w.cache.entries ==> k in w.bodies && w.cache.entries[k] == ParseOf(w.bodies[k])
  }

  lemma InvalidateKeeps(c: CacheState, key: Key)
    requires WellFormed(c)
    ensures WellFormed(InvalidateStep(c, key))
  {
    FilterKeepsPairwise(c.order, k => k != key, (a: Key, b: Key) => a != b);
  }

  lemma LoadKeeps(c: CacheState, key: Key, load: Result<Bytes, Failure>)
    requires WellFormed(c)
    ensures var (c', r) := LoadStep(c, key, load);
            && WellFormed(c')
            && (r.Err? ==> c' == c)
            && (forall k :: k in c'.entries ==>
              (k in c.entries && c'.entries[k] == c.entries[k]) || (k == key && r == Ok(c'.entries[k])))
            && (r.Ok? ==> key in c'.entries)
  {
    if key !in c.entries && load.Ok? {
      var added := CacheState(c.entries[key := ParseOf(load.value)], c.order + [key]);
      assert key !in c.order;
      if |added.order| > CACHE_CAP {
        var popped := CacheState(added.entries - {added.order[0]}, added.order[1..]);
        assert added.order == c.order + [key];
        assert WellFormed(popped) by {
          forall k ensures k in popped.order <==> k in popped.entries {
            assert k in added.order <==> k in added.entries;
          }
        }
        assert Evict(added) == popped;
        assert added.order[0] != key;
      }
    }
  }

  /** A body that is cached is returned as it is, and a load that fails returns its error; neither changes the cache. */
  lemma LoadChangesNothing(c: CacheState, key: Key, load: Result<Bytes, Failure>)
    ensures key in c.entries ==> LoadStep(c, key, load) == (c, Ok(c.entries[key]))
    ensures key !in c.entries && load.Err? ==> LoadStep(c, key, load) == (c, Err(load.error))
  {
  }

  /** A body newly loaded is the newest; when the cache was full, the one loaded longest ago has gone, and no other. */
  lemma LoadDropsOldest(c: CacheState, key: Key, text: Bytes)
    requires WellFormed(c) && key !in c.entries
    ensures var after := LoadStep(c, key, Ok(text)).0;
            && after.order == (if |c.order| < CACHE_CAP then c.order else c.order[1..]) + [key]
            && (forall k :: k in after.entries <==> k in after.order)
            && after.entries[key] == ParseOf(text)
            && (forall k :: k in after.entries && k != key ==> k in c.entries && after.entries[k] == c.entries[k])
  {
    LoadKeeps(c, key, Ok(text));
    var added := CacheState(c.entries[key := ParseOf(text)], c.order + [key]);
    if |c.order| == CACHE_CAP {
      assert added.order[1..] == c.order[1..] + [key];
      assert Evict(added) == CacheState(added.entries - {added.order[0]}, added.order[1..]);
    }
  }

  /** Over every run from the empty cache: bounded, duplicate-free, and transparent. */
  lemma {:induction false} RunsAreCoherent(bodies: map<Key, Bytes>, events: seq<Event>)
    ensures var w := Run(World(EMPTY, bodies), events); WellFormed(w.cache) && Coherent(w)
  {
    if events != [] {
      var before, last := events[..|events| - 1], events[|events| - 1];
      RunsAreCoherent(bodies, before);
      EventKeeps(Run(World(EMPTY, bodies), before), last);
    }
  }

  lemma EventKeeps(w: World, event: Event)
    requires WellFormed(w.cache) && Coherent(w)
    ensures WellFormed(Happen(w, event).cache) && Coherent(Happen(w, event))
  {
    match event
    case Load(key) => LoadKeeps(w.cache, key, Fetch(w.bodies, key));
    case Invalidated(key) => InvalidateKeeps(w.cache, key);
    case Stored(key, _) => InvalidateKeeps(w.cache, key);
    case Deleted(key) => InvalidateKeeps(w.cache, key);
  }

  /** After any run, a load returns the index of the body as it is stored now, or the load's own error
      and then leaves the cache as it was. */
  lemma LoadsAreTransparent(bodies: map<Key, Bytes>, events: seq<Event>, key: Key)
    ensures var w := Run(World(EMPTY, bodies), events);
            var (c, r) := LoadStep(w.cache, key, Fetch(w.bodies, key));
            if key in w.bodies then
              r == Ok(ParseOf(w.bodies[key])) && key in c.entries && c.entries[key] == ParseOf(w.bodies[key])
            else r == Err(key) && c == w.cache
  {
    RunsAreCoherent(bodies, events);
    var w := Run(World(EMPTY, bodies), events);
    LoadKeeps(w.cache, key, Fetch(w.bodies, key));
  }
}
