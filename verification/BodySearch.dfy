/** Searching an indexed body (`search`, `is_word_bounded` in crates/voleeo-storage/src/body_window.rs). */
module BodySearching {
  import opened Text
  import opened Sequences
  import opened BodyWindow
  import opened Utf8

  const MATCH_CAP := 5000

  datatype BodyMatch = BodyMatch(line: nat, col: nat, len: nat)

  datatype SearchOpts = SearchOpts(caseSensitive: bool, wholeWord: bool)

  datatype SearchResult = SearchResult(matches: seq<BodyMatch>, total: nat, truncated: bool)

  // ---- occurrences ----

  predicate OccursAt(hay: Bytes, needle: Bytes, p: nat) {
    p + |needle| <= |hay| && hay[p..p + |needle|] == needle
  }

  /** `hay.match_indices(needle)`, scanning from `from`. */
  function MatchesFrom(hay: Bytes, needle: Bytes, from: nat): seq<nat>
    requires needle != []
    decreases |hay| - from
  {
    if from + |needle| > |hay| then []
    else if OccursAt(hay, needle, from) then [from] + MatchesFrom(hay, needle, from + |needle|)
    else MatchesFrom(hay, needle, from + 1)
  }

  /** Positions `ps` at or after `from` where `occurs` holds, `len` apart, such that every position there
      where it holds lies inside one of them: the leftmost non-overlapping ones. */
  ghost predicate LeftmostCover(occurs: nat -> bool, len: nat, from: nat, ps: seq<nat>) {
    Apart(occurs, len, from, ps) && CoversAll(occurs, len, from, ps)
  }

  ghost predicate Apart(occurs: nat -> bool, len: nat, from: nat, ps: seq<nat>) {
    && (forall k :: 0 <= k < |ps| ==> from <= ps[k] && occurs(ps[k]))
    && (forall k, l :: 0 <= k < l < |ps| ==> ps[k] + len <= ps[l])
  }

  ghost predicate CoversAll(occurs: nat -> bool, len: nat, from: nat, ps: seq<nat>) {
    forall q: nat {:trigger Covered(len, ps, q)} :: from <= q && occurs(q) ==> Covered(len, ps, q)
  }

  ghost predicate Covered(len: nat, ps: seq<nat>, q: nat) {
    exists k :: 0 <= k < |ps| && ps[k] <= q < ps[k] + len
  }

  lemma CoverCons(occurs: nat -> bool, len: nat, from: nat, rest: seq<nat>)
    requires len > 0 && occurs(from) && LeftmostCover(occurs, len, from + len, rest)
    ensures LeftmostCover(occurs, len, from, [from] + rest)
  {
    var ps := [from] + rest;
    assert Apart(occurs, len, from, ps);
    forall q: nat | from <= q && occurs(q) ensures Covered(len, ps, q) {
      if q < from + len {
        assert ps[0] <= q < ps[0] + len;
      } else {
        assert Covered(len, rest, q);
        CoveredCons(len, from, rest, q);
      }
    }
  }

  lemma CoveredCons(len: nat, first: nat, rest: seq<nat>, q: nat)
    requires Covered(len, rest, q)
    ensures Covered(len, [first] + rest, q)
  {
    var k :| 0 <= k < |rest| && rest[k] <= q < rest[k] + len;
    assert ([first] + rest)[k + 1] == rest[k];
  }

  lemma CoverSkip(occurs: nat -> bool, len: nat, from: nat, rest: seq<nat>)
    requires !occurs(from) && LeftmostCover(occurs, len, from + 1, rest)
    ensures LeftmostCover(occurs, len, from, rest)
  {
    forall q: nat | from <= q && occurs(q) ensures Covered(len, rest, q) {
      assert from + 1 <= q;
    }
  }

  function Occurs(hay: Bytes, needle: Bytes): nat -> bool { (p: nat) => OccursAt(hay, needle, p) }

  /** What the scan finds are the leftmost non-overlapping occurrences. */
  lemma {:induction false} MatchesCover(hay: Bytes, needle: Bytes, from: nat)
    requires needle != []
    ensures LeftmostCover(Occurs(hay, needle), |needle|, from, MatchesFrom(hay, needle, from))
    decreases |hay| - from
  {
    if from + |needle| <= |hay| {
      if OccursAt(hay, needle, from) {
        MatchesCover(hay, needle, from + |needle|);
        CoverCons(Occurs(hay, needle), |needle|, from, MatchesFrom(hay, needle, from + |needle|));
      } else {
        MatchesCover(hay, needle, from + 1);
        CoverSkip(Occurs(hay, needle), |needle|, from, MatchesFrom(hay, needle, from + 1));
      }
    }
  }

  lemma CoverTail(occurs: nat -> bool, len: nat, from: nat, ps: seq<nat>)
    requires len > 0 && LeftmostCover(occurs, len, from, ps) && ps != []
    ensures LeftmostCover(occurs, len, ps[0] + len, ps[1..])
  {
    var next := ps[0] + len;
    assert Apart(occurs, len, next, ps[1..]);
    forall q: nat | next <= q && occurs(q) ensures Covered(len, ps[1..], q) {
      assert Covered(len, ps, q);
      CoveredTail(len, ps, q);
    }
  }

  lemma CoveredTail(len: nat, ps: seq<nat>, q: nat)
    requires ps != [] && Covered(len, ps, q) && q >= ps[0] + len
    ensures Covered(len, ps[1..], q)
  {
    var k :| 0 <= k < |ps| && ps[k] <= q < ps[k] + len;
    assert ps[1..][k - 1] == ps[k];
  }

  lemma CoverFirst(occurs: nat -> bool, len: nat, from: nat, ps: seq<nat>, qs: seq<nat>)
    requires len > 0 && LeftmostCover(occurs, len, from, ps) && LeftmostCover(occurs, len, from, qs)
    ensures ps != [] ==> qs != [] && qs[0] <= ps[0]
  {
    if ps != [] {
      assert Covered(len, qs, ps[0]);
      var k :| 0 <= k < |qs| && qs[k] <= ps[0] < qs[k] + len;
    }
  }

  /** There is only one such list. */
  lemma {:induction false} CoverIsUnique(occurs: nat -> bool, len: nat, from: nat, ps: seq<nat>, qs: seq<nat>)
    requires len > 0 && LeftmostCover(occurs, len, from, ps) && LeftmostCover(occurs, len, from, qs)
    ensures ps == qs
    decreases |ps|
  {
    CoverFirst(occurs, len, from, ps, qs);
    CoverFirst(occurs, len, from, qs, ps);
    if ps != [] {
      CoverTail(occurs, len, from, ps);
      CoverTail(occurs, len, from, qs);
      CoverIsUnique(occurs, len, ps[0] + len, ps[1..], qs[1..]);
      assert ps == [ps[0]] + ps[1..] && qs == [qs[0]] + qs[1..];
    }
  }

  // ---- words ----

  predicate IsWord(b: Byte) { 48 <= b <= 57 || 65 <= b <= 90 || 97 <= b <= 122 || b == 95 }

  /** No word byte directly before or after. */
  predicate IsWordBounded(bytes: Bytes, start: nat, len: nat) {
    && !(1 <= start <= |bytes| && IsWord(bytes[start - 1]))
    && !(start + len < |bytes| && IsWord(bytes[start + len]))
  }

  // ---- positions ----

  /** UTF-8: a continuation byte never starts a character. */
  predicate IsContinuation(b: Byte) { 0x80 <= b <= 0xBF }

  predicate IsBoundary(text: Bytes, p: nat) { p >= |text| || !IsContinuation(text[p]) }

  /** `chars().count()` of valid UTF-8. */
  function CharCount(s: Bytes): nat {
    if s == [] then 0 else CharCount(s[..|s| - 1]) + (if IsContinuation(s[|s| - 1]) then 0 else 1)
  }

  /** How many lines start at or before `pos`, as `partition_point` finds on the ascending starts. */
  function PartitionPoint(lines: seq<Range>, pos: nat): (k: nat)
    ensures k <= |lines|
    ensures forall i :: 0 <= i < k ==> lines[i].start <= pos
    ensures k < |lines| ==> lines[k].start > pos
  {
    if lines == [] || lines[0].start > pos then 0
    else
      var k := PartitionPoint(lines[1..], pos);
      assert forall i :: 0 <= i < k ==> lines[1..][i] == lines[i + 1];
      k + 1
  }

  function LineOf(lines: seq<Range>, pos: nat): nat {
    var k := PartitionPoint(lines, pos);
    if k == 0 then 0 else k - 1
  }

  function LineStart(lines: seq<Range>, li: nat): nat { if li < |lines| then lines[li].start else 0 }

  function ColumnOf(text: Bytes, lines: seq<Range>, pos: nat): nat
    requires pos <= |text|
  {
    var ls := LineStart(lines, LineOf(lines, pos));
    CharCount(text[if ls <= pos then ls else pos..pos])
  }

  function Locate(text: Bytes, lines: seq<Range>, pos: nat, len: nat): BodyMatch
    requires pos <= |text|
  {
    BodyMatch(U32OrZero(LineOf(lines, pos)), U32OrZero(ColumnOf(text, lines, pos)), U32OrZero(len))
  }

  lemma {:induction false} CharCountAppend(a: Bytes, b: Bytes)
    ensures CharCount(a + b) == CharCount(a) + CharCount(b)
  {
    if b == [] {
      assert a + b == a;
    } else {
      CharCountAppend(a, b[..|b| - 1]);
      assert (a + b)[..|a + b| - 1] == a + b[..|b| - 1];
    }
  }

  /** Columns and lengths count characters. */
  lemma {:induction false} CharCountMeaning(cps: seq<nat>)
    requires AllScalars(cps)
    ensures CharCount(EncodeText(cps)) == |cps|
  {
    if cps != [] {
      CharCountMeaning(cps[1..]);
      OneCharacter(cps[0]);
      CharCountAppend(EncodeScalar(cps[0]), EncodeText(cps[1..]));
    }
  }

  lemma OneCharacter(cp: nat)
    requires IsScalar(cp)
    ensures CharCount(EncodeScalar(cp)) == 1
  {
    var c := EncodeScalar(cp);
    assert IsCharacter(c);
    CharacterMeaning(c);
    assert c == [c[0]] + c[1..];
    CharCountAppend([c[0]], c[1..]);
    assert [c[0]][..0] == [];
    NoStarts(c[1..]);
  }

  lemma {:induction false} NoStarts(s: Bytes)
    requires forall i :: 0 <= i < |s| ==> IsContinuation(s[i])
    ensures CharCount(s) == 0
  {
    if s != [] { NoStarts(s[..|s| - 1]); }
  }

  lemma CharCountGrows(text: Bytes, ls: nat, p: nat, q: nat)
    requires ls <= p < q <= |text| && IsBoundary(text, p)
    ensures CharCount(text[ls..p]) < CharCount(text[ls..q])
  {
    assert text[ls..q] == text[ls..p] + ([text[p]] + text[p + 1..q]);
    CharCountAppend(text[ls..p], [text[p]] + text[p + 1..q]);
    CharCountAppend([text[p]], text[p + 1..q]);
    assert [text[p]][..0] == [];
  }

  lemma {:induction false} StartsAscend(text: Bytes, lines: seq<Range>, i: nat, j: nat)
    requires Covers(text, lines, 0) && i < j < |lines|
    ensures lines[i].end < lines[j].start
  {
    if i + 1 < j {
      StartsAscend(text, lines, i, j - 1);
      assert lines[j - 1 + 1].start == lines[j - 1].end + 1;
    }
  }

  /** `(line, col)` maps back: the line holds the position, no other line does, and it is the only
      character boundary of that line with that many characters before it. */
  ghost predicate MapsBack(text: Bytes, lines: seq<Range>, m: BodyMatch, pos: nat) {
    && m.line < |lines| && lines[m.line].start <= pos <= lines[m.line].end <= |text|
    && m.col == CharCount(text[lines[m.line].start..pos])
    && OnlyLine(lines, m.line, pos)
    && (forall p | lines[m.line].start <= p <= lines[m.line].end && IsBoundary(text, p) ::
          CharCount(text[lines[m.line].start..p]) == m.col ==> p == pos)
  }

  ghost predicate OnlyLine(lines: seq<Range>, li: nat, pos: nat) {
    forall i :: 0 <= i < |lines| && lines[i].start <= pos <= lines[i].end ==> i == li
  }

  /** A located position maps back if and only if its line index and its column fit 32 bits; in a text of fewer
      than 2^32 bytes they always do. */
  lemma LocateMapsBack(text: Bytes, pos: nat, len: nat)
    requires pos < |text| && IsBoundary(text, pos)
    ensures var lines := LineIndex(text);
            MapsBack(text, lines, Locate(text, lines, pos, len), pos)
            <==> LineOf(lines, pos) < U32_LIMIT && ColumnOf(text, lines, pos) < U32_LIMIT
    ensures var lines := LineIndex(text);
            var m := Locate(text, lines, pos, len);
            && (LineOf(lines, pos) >= 0x1_0000_0000 ==> m.line == 0)
            && (ColumnOf(text, lines, pos) >= 0x1_0000_0000 ==> m.col == 0)
            && m.len == if len < 0x1_0000_0000 then len else 0
    ensures |text| < U32_LIMIT ==> MapsBack(text, LineIndex(text), Locate(text, LineIndex(text), pos, len), pos)
  {
    var lines := LineIndex(text);
    LineIndexCovers(text);
    var li := LineOf(lines, pos);
    LineHolds(text, lines, pos, li);
    LinesFewerThanBytes(text, lines, li);
    CharCountBound(text[lines[li].start..pos]);
    OneLineHolds(text, lines, li, pos);
    ColumnIsExact(text, lines[li].start, pos);
  }

  lemma OneLineHolds(text: Bytes, lines: seq<Range>, li: nat, pos: nat)
    requires Covers(text, lines, 0) && li < |lines| && lines[li].start <= pos <= lines[li].end
    ensures OnlyLine(lines, li, pos)
  {
    forall i | 0 <= i < |lines| && lines[i].start <= pos <= lines[i].end ensures i == li {
      if i < li { StartsAscend(text, lines, i, li); }
      if li < i { StartsAscend(text, lines, li, i); }
    }
  }

  lemma ColumnIsExact(text: Bytes, ls: nat, pos: nat)
    requires ls <= pos < |text| && IsBoundary(text, pos)
    ensures forall p | ls <= p <= |text| && IsBoundary(text, p) ::
              CharCount(text[ls..p]) == CharCount(text[ls..pos]) ==> p == pos
  {
    forall p | ls <= p <= |text| && IsBoundary(text, p) && CharCount(text[ls..p]) == CharCount(text[ls..pos])
      ensures p == pos
    {
      if p < pos { CharCountGrows(text, ls, p, pos); }
      if pos < p { CharCountGrows(text, ls, pos, p); }
    }
  }

  lemma LineHolds(text: Bytes, lines: seq<Range>, pos: nat, li: nat)
    requires Covers(text, lines, 0) && pos < |text| && li + 1 == PartitionPoint(lines, pos)
    ensures lines[li].start <= pos <= lines[li].end
  {
    if li + 1 < |lines| {
      assert lines[li + 1].start == lines[li].end + 1;
    }
  }

  lemma {:induction false} LinesFewerThanBytes(text: Bytes, lines: seq<Range>, i: nat)
    requires Covers(text, lines, 0) && i < |lines|
    ensures i <= lines[i].start
  {
    if i > 0 {
      LinesFewerThanBytes(text, lines, i - 1);
      assert lines[i - 1 + 1].start == lines[i - 1].end + 1;
    }
  }

  lemma {:induction false} CharCountBound(s: Bytes)
    ensures CharCount(s) <= |s|
  {
    if s != [] { CharCountBound(s[..|s| - 1]); }
  }

  // ---- search ----

  function Fold(s: Bytes, opts: SearchOpts): Bytes { if opts.caseSensitive then s else Lower(s) }

  /** Whether a position passes the whole-word filter. */
  function Counting(text: Bytes, len: nat, wholeWord: bool): nat -> bool {
    (pos: nat) => !(wholeWord && !IsWordBounded(text, pos, len))
  }

  /** The positions that count as matches. */
  function Hits(text: Bytes, query: Bytes, opts: SearchOpts): seq<nat>
    requires query != []
  {
    var needle := Fold(query, opts);
    Filter<nat>(MatchesFrom(Fold(text, opts), needle, 0), Counting(text, |needle|, opts.wholeWord))
  }

  lemma MatchesInside(hay: Bytes, needle: Bytes, p: nat)
    requires needle != [] && p in MatchesFrom(hay, needle, 0)
    ensures OccursAt(hay, needle, p)
  {
    MatchesCover(hay, needle, 0);
  }

  // ---- what a hit is ----

  predicate SameLetter(a: Byte, b: Byte) { a == b || (65 <= a <= 90 && b == a + 32) || (65 <= b <= 90 && a == b + 32) }

  /** The query stands at `p`, letter case aside unless it counts. */
  predicate StandsAt(text: Bytes, query: Bytes, caseSensitive: bool, p: nat) {
    && p + |query| <= |text|
    && forall i :: 0 <= i < |query| ==>
         text[p + i] == query[i] || (!caseSensitive && SameLetter(text[p + i], query[i]))
  }

  predicate IsWordByte(b: Byte) {
    var c := b as char; 'A' <= c <= 'Z' || 'a' <= c <= 'z' || '0' <= c <= '9' || c == '_'
  }

  /** No word goes on beyond either end. */
  predicate StandsAlone(text: Bytes, p: nat, len: nat) {
    && (0 < p <= |text| ==> !IsWordByte(text[p - 1]))
    && (p + len < |text| ==> !IsWordByte(text[p + len]))
  }

  lemma FoldedMatch(text: Bytes, query: Bytes, opts: SearchOpts, p: nat)
    ensures OccursAt(Fold(text, opts), Fold(query, opts), p) <==> StandsAt(text, query, opts.caseSensitive, p)
  {
    var hay, needle := Fold(text, opts), Fold(query, opts);
    if p + |query| <= |text| {
      assert |hay| == |text| && |needle| == |query|;
      forall i | 0 <= i < |query|
        ensures hay[p..p + |needle|][i] == needle[i]
           <==> text[p + i] == query[i] || (!opts.caseSensitive && SameLetter(text[p + i], query[i]))
      {
        LowerMeaning(text[p + i], query[i]);
      }
    }
  }

  lemma LowerMeaning(a: Byte, b: Byte)
    ensures LowerByte(a) == LowerByte(b) <==> SameLetter(a, b)
  {
  }

  lemma StandsAloneMeaning(text: Bytes, p: nat, len: nat)
    ensures IsWordBounded(text, p, len) <==> StandsAlone(text, p, len)
  {
  }

  /** The hits are, of the leftmost non-overlapping places where the query stands, those that stand alone if whole words
      are asked for. */
  lemma HitsMeaning(text: Bytes, query: Bytes, opts: SearchOpts) returns (places: seq<nat>)
    requires query != []
    ensures LeftmostCover((p: nat) => StandsAt(text, query, opts.caseSensitive, p), |query|, 0, places)
    ensures Hits(text, query, opts)
         == Filter<nat>(places, (p: nat) => opts.wholeWord ==> StandsAlone(text, p, |query|))
  {
    var hay, needle := Fold(text, opts), Fold(query, opts);
    places := MatchesFrom(hay, needle, 0);
    MatchesCover(hay, needle, 0);
    forall p: nat ensures OccursAt(hay, needle, p) <==> StandsAt(text, query, opts.caseSensitive, p) {
      FoldedMatch(text, query, opts, p);
    }
    SameCover(Occurs(hay, needle), (p: nat) => StandsAt(text, query, opts.caseSensitive, p), |query|, 0, places);
    forall p: nat ensures IsWordBounded(text, p, |query|) <==> StandsAlone(text, p, |query|) {
      StandsAloneMeaning(text, p, |query|);
    }
    SameFilter(places, Counting(text, |needle|, opts.wholeWord),
               (p: nat) => opts.wholeWord ==> StandsAlone(text, p, |query|));
  }

  lemma SameCover(occurs: nat -> bool, stands: nat -> bool, len: nat, from: nat, ps: seq<nat>)
    requires LeftmostCover(occurs, len, from, ps) && forall p: nat :: occurs(p) <==> stands(p)
    ensures LeftmostCover(stands, len, from, ps)
  {
  }

  lemma {:induction false} SameFilter(s: seq<nat>, p: nat -> bool, q: nat -> bool)
    requires forall x: nat :: p(x) <==> q(x)
    ensures Filter<nat>(s, p) == Filter<nat>(s, q)
  {
    if s != [] { SameFilter(s[1..], p, q); }
  }

  function LocateAll(text: Bytes, lines: seq<Range>, hits: seq<nat>, len: nat): seq<BodyMatch>
    requires forall i :: 0 <= i < |hits| ==> hits[i] <= |text|
  {
    seq(|hits|, i requires 0 <= i < |hits| => Locate(text, lines, hits[i], len))
  }

  function FirstHits(hits: seq<nat>): seq<nat> { if |hits| > MATCH_CAP then hits[..MATCH_CAP] else hits }

  lemma HitsInside(text: Bytes, query: Bytes, opts: SearchOpts)
    requires query != []
    ensures forall p :: p in Hits(text, query, opts) ==> OccursAt(Fold(text, opts), Fold(query, opts), p) && p < |text|
  {
    var hay, needle := Fold(text, opts), Fold(query, opts);
    forall p | p in Hits(text, query, opts) ensures OccursAt(hay, needle, p) && p < |text| {
      MatchesInside(hay, needle, p);
    }
  }

  /** Counts all hits, returns the first `MATCH_CAP` of them located. */
  method Search(parsed: Parsed, query: Bytes, opts: SearchOpts) returns (r: SearchResult)
    requires parsed == ParseOf(parsed.text)
    ensures query == [] ==> r == SearchResult([], 0, false)
    ensures query != [] ==>
              var hits := Hits(parsed.text, query, opts);
              && (forall i :: 0 <= i < |hits| ==> hits[i] < |parsed.text|)
              && |r.matches| == (if |hits| < 5000 then |hits| else 5000) && r.total == |hits|
              && (r.truncated <==> |r.matches| < r.total)
              && (forall k :: 0 <= k < |r.matches| ==>
                r.matches[k] == Locate(parsed.text, LineIndex(parsed.text), hits[k], CharCount(query)))
              && r == SearchResult(LocateAll(parsed.text, LineIndex(parsed.text), FirstHits(hits), CharCount(query)),
                                   |hits|, |hits| > MATCH_CAP)
  {
    if query == [] {
      return SearchResult([], 0, false);
    }
    var hay, needle := Fold(parsed.text, opts), Fold(query, opts);
    HitsInside(parsed.text, query, opts);
    forall i | 0 <= i < |MatchesFrom(hay, needle, 0)| ensures MatchesFrom(hay, needle, 0)[i] < |parsed.text| {
      MatchesInside(hay, needle, MatchesFrom(hay, needle, 0)[i]);
    }
    ghost var hits := Hits(parsed.text, query, opts);
    assert forall i :: 0 <= i < |hits| ==> hits[i] in hits;
    var matches, total := Scan(parsed, MatchesFrom(hay, needle, 0), |needle|, opts.wholeWord, CharCount(query));
    r := SearchResult(matches, total, total > |matches|);
  }

  predicate Inside(hits: seq<nat>, text: Bytes) { forall i :: 0 <= i < |hits| ==> hits[i] < |text| }

  /** The loop of `search` over the positions found. */
  method Scan(parsed: Parsed, positions: seq<nat>, needleLen: nat, wholeWord: bool, chars: nat)
    returns (matches: seq<BodyMatch>, total: nat)
    requires Inside(positions, parsed.text)
    ensures var hits := Filter<nat>(positions, Counting(parsed.text, needleLen, wholeWord));
            Collected(parsed, hits, chars, matches, total)
  {
    matches, total := [], 0;
    ghost var hits: seq<nat> := [];
    assert positions[..0] == [];
    for k := 0 to |positions|
      invariant hits == Filter<nat>(positions[..k], Counting(parsed.text, needleLen, wholeWord))
      invariant Collected(parsed, hits, chars, matches, total)
    {
      FilterTake<nat>(positions, k, Counting(parsed.text, needleLen, wholeWord));
      matches, total, hits := Consider(parsed, positions[k], needleLen, wholeWord, chars, matches, total, hits);
    }
    assert positions[..|positions|] == positions;
  }

  ghost predicate Collected(parsed: Parsed, hits: seq<nat>, chars: nat, matches: seq<BodyMatch>, total: nat) {
    && Inside(hits, parsed.text) && total == |hits|
    && matches == LocateAll(parsed.text, parsed.lines, FirstHits(hits), chars)
  }

  method Consider(parsed: Parsed, pos: nat, needleLen: nat, wholeWord: bool, chars: nat,
                  matches: seq<BodyMatch>, total: nat, ghost hits: seq<nat>)
    returns (matches': seq<BodyMatch>, total': nat, ghost hits': seq<nat>)
    requires pos < |parsed.text| && Collected(parsed, hits, chars, matches, total)
    ensures hits' == if Counting(parsed.text, needleLen, wholeWord)(pos) then hits + [pos] else hits
    ensures Collected(parsed, hits', chars, matches', total')
  {
    matches', total', hits' := matches, total, hits;
    if wholeWord && !IsWordBounded(parsed.text, pos, needleLen) {
      return;
    }
    FirstHitsSnoc(parsed.text, parsed.lines, hits, pos, chars);
    total' := total + 1;
    if |matches| < MATCH_CAP {
      matches' := matches + [Locate(parsed.text, parsed.lines, pos, chars)];
    }
    hits' := hits + [pos];
  }

  lemma FirstHitsSnoc(text: Bytes, lines: seq<Range>, hits: seq<nat>, pos: nat, len: nat)
    requires pos < |text| && Inside(hits, text)
    ensures LocateAll(text, lines, FirstHits(hits + [pos]), len)
         == LocateAll(text, lines, FirstHits(hits), len)
            + if |hits| < MATCH_CAP then [Locate(text, lines, pos, len)] else []
  {
  }

  /** Case folding keeps lengths and character boundaries, so hits are positions of the text itself. */
  lemma HitsAreBoundaries(text: Bytes, query: Bytes, opts: SearchOpts, p: nat)
    requires query != [] && !IsContinuation(query[0]) && p in Hits(text, query, opts)
    ensures p + |query| <= |text| && IsBoundary(text, p)
    ensures Fold(text[p..p + |query|], opts) == Fold(query, opts)
  {
    HitsInside(text, query, opts);
    FoldedOccurrence(text, query, opts, p);
  }

  lemma FoldedOccurrence(text: Bytes, query: Bytes, opts: SearchOpts, p: nat)
    requires query != [] && !IsContinuation(query[0]) && OccursAt(Fold(text, opts), Fold(query, opts), p)
    ensures IsBoundary(text, p) && Fold(text[p..p + |query|], opts) == Fold(query, opts)
  {
    var hay, needle := Fold(text, opts), Fold(query, opts);
    assert hay[p] == hay[p..p + |needle|][0] == needle[0];
    assert Fold(text[p..p + |query|], opts) == hay[p..p + |query|];
  }
}
