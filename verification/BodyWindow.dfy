/** Indexing a stored response body by lines and foldable blocks
    (`line_ranges`, `fold_ends`, `parse` in crates/voleeo-storage/src/body_window.rs). */
module BodyWindow {
  import opened Text
  import opened Sequences

  const U32_LIMIT: nat := 0x1_0000_0000

  /** `u32::try_from(n).unwrap_or(0)` */
  function U32OrZero(n: nat): nat { if n < U32_LIMIT then n else 0 }

  /** `u32::try_from(n).unwrap_or(u32::MAX)` */
  function U32OrMax(n: nat): nat { if n < U32_LIMIT then n else U32_LIMIT - 1 }

  // ---- lines ----

  /** Byte range of a line, its line end excluded. */
  datatype Range = Range(start: nat, end: nat)

  /** The lines of a text as `str::lines` cuts them at LF: a final LF yields no empty last line. */
  function LinePieces(text: Bytes): seq<Bytes> {
    DropEmptyLast(Split(text, LF))
  }

  function Offsets(pieces: seq<Bytes>, at: nat): seq<Range> {
    if pieces == [] then []
    else [Range(at, at + |pieces[0]|)] + Offsets(pieces[1..], at + |pieces[0]| + 1)
  }

  function LinesFrom(text: Bytes, start: nat): seq<Range>
    requires start <= |text|
  {
    Offsets(LinePieces(text[start..]), start)
  }

  /** The line index of a text. */
  function LineIndex(text: Bytes): seq<Range> { LinesFrom(text, 0) }

  /** `pieces` without an empty last piece. */
  function DropEmptyLast(pieces: seq<Bytes>): seq<Bytes>
    requires pieces != []
  {
    if pieces[|pieces| - 1] == [] then pieces[..|pieces| - 1] else pieces
  }

  lemma DropEmptyLastOfTail(first: Bytes, rest: seq<Bytes>)
    requires rest != []
    ensures DropEmptyLast([first] + rest) == [first] + DropEmptyLast(rest)
  {
    var all := [first] + rest;
    assert all[|all| - 1] == rest[|rest| - 1];
    assert all[..|all| - 1] == [first] + rest[..|rest| - 1];
  }

  lemma NextLine(line: Bytes, rest: Bytes)
    requires LF !in line
    ensures LinePieces(line + [LF] + rest) == [line] + LinePieces(rest)
  {
    var tail := [LF] + rest;
    assert line + [LF] + rest == line + tail && tail[1..] == rest;
    SplitHead(line, tail, LF);
    DropEmptyLastOfTail(line, Split(rest, LF));
  }

  lemma LastLine(piece: Bytes)
    requires LF !in piece
    ensures LinePieces(piece) == if piece == [] then [] else [piece]
  {
    SplitHead(piece, [], LF);
    assert piece + [] == piece;
  }

  /** The lines from `start` on, when the first LF from there is at `i`. */
  lemma OffsetsStep(text: Bytes, start: nat, i: nat)
    requires start <= i < |text| && text[i] == LF && LF !in text[start..i]
    ensures LinesFrom(text, start) == [Range(start, i)] + LinesFrom(text, i + 1)
  {
    assert text[start..] == text[start..i] + [LF] + text[i + 1..];
    NextLine(text[start..i], text[i + 1..]);
  }

  lemma LineDone(text: Bytes, start: nat, i: nat, ranges: seq<Range>)
    requires start <= i < |text| && text[i] == LF && LF !in text[start..i]
    ensures ranges + LinesFrom(text, start) == ranges + [Range(start, i)] + LinesFrom(text, i + 1)
  {
    OffsetsStep(text, start, i);
  }

  lemma OffsetsEnd(text: Bytes, start: nat)
    requires start <= |text| && LF !in text[start..]
    ensures LinesFrom(text, start) == if start < |text| then [Range(start, |text|)] else []
  {
    var piece := text[start..];
    LastLine(piece);
    var one := [piece];
    assert one[1..] == [] && |piece| == |text| - start;
    assert Offsets(one, start) == [Range(start, |text|)];
  }

  lemma NoLfSoFar(text: Bytes, start: nat, i: nat)
    requires start <= i < |text| && LF !in text[start..i] && text[i] != LF
    ensures LF !in text[start..i + 1]
  {
    assert text[start..i + 1] == text[start..i] + [text[i]];
  }

  method LineRanges(text: Bytes) returns (ranges: seq<Range>)
    ensures ranges == LineIndex(text)
  {
    ranges := [];
    var start := 0;
    ghost var index := LineIndex(text);
    assert [] + LinesFrom(text, 0) == index;
    for i := 0 to |text|
      invariant 0 <= start <= i && LF !in text[start..i]
      invariant ranges + LinesFrom(text, start) == index
    {
      if text[i] == LF {
        LineDone(text, start, i, ranges);
        ranges := ranges + [Range(start, i)];
        start := i + 1;
      } else {
        NoLfSoFar(text, start, i);
      }
    }
    assert text[start..|text|] == text[start..];
    OffsetsEnd(text, start);
    if start < |text| {
      ranges := ranges + [Range(start, |text|)];
    } else {
      assert ranges + [] == ranges;
    }
  }

  /** The index covers the text: lines are LF-free, in order, one line end apart, up to the end. */
  ghost predicate Covers(text: Bytes, ranges: seq<Range>, from: nat) {
    && (forall i :: 0 <= i < |ranges| ==>
      ranges[i].start <= ranges[i].end <= |text| && LF !in text[ranges[i].start..ranges[i].end])
    && (forall i :: 0 <= i < |ranges| - 1 ==> ranges[i].end < |text|)
    && (ranges != [] ==> ranges[0].start == from)
    && (forall i :: 0 <= i < |ranges| - 1 ==> text[ranges[i].end] == LF && ranges[i + 1].start == ranges[i].end + 1)
    && (if ranges == [] then from == |text|
        else var last := ranges[|ranges| - 1];
          (last.end == |text| && last.start < last.end) || (last.end + 1 == |text| && text[last.end] == LF))
  }

  lemma {:induction false} OffsetsCover(text: Bytes, start: nat)
    requires start <= |text|
    ensures Covers(text, LinesFrom(text, start), start)
    decreases |text| - start
  {
    if LF in text[start..] {
      var line := SplitOnce(text[start..], LF).value.0;
      var i := start + |line|;
      assert text[start..i] == line && text[i] == text[start..][|line|] == LF;
      OffsetsStep(text, start, i);
      OffsetsCover(text, i + 1);
      CoversCons(text, start, i, LinesFrom(text, i + 1));
    } else {
      OffsetsEnd(text, start);
    }
  }

  lemma CoversCons(text: Bytes, start: nat, i: nat, tail: seq<Range>)
    requires start <= i < |text| && text[i] == LF && LF !in text[start..i]
    requires Covers(text, tail, i + 1)
    ensures Covers(text, [Range(start, i)] + tail, start)
  {
  }

  /** The line index covers the text. */
  lemma LineIndexCovers(text: Bytes)
    ensures Covers(text, LineIndex(text), 0)
  {
    OffsetsCover(text, 0);
  }

  // ---- folds ----

  /** What bracket matching looks at in a line. */
  datatype Shape = Shape(closes: bool, opens: bool)

  /** Length of the white-space character at the start of `b`, 0 if there is none (UTF-8). */
  function SpacePrefix(b: Bytes): (n: nat)
    ensures n <= |b|
  {
    if |b| >= 1 && (9 <= b[0] <= 13 || b[0] == 32) then 1
    else if |b| >= 2 && IsSpace2(b[0], b[1]) then 2
    else if |b| >= 3 && IsSpace3(b[0], b[1], b[2]) then 3
    else 0
  }

  function SpaceSuffix(b: Bytes): (n: nat)
    ensures n <= |b|
  {
    var k := |b|;
    if k >= 1 && (9 <= b[k - 1] <= 13 || b[k - 1] == 32) then 1
    else if k >= 2 && IsSpace2(b[k - 2], b[k - 1]) then 2
    else if k >= 3 && IsSpace3(b[k - 3], b[k - 2], b[k - 1]) then 3
    else 0
  }

  predicate IsSpace2(x: Byte, y: Byte) { x == 0xC2 && (y == 0x85 || y == 0xA0) }

  predicate IsSpace3(x: Byte, y: Byte, z: Byte) {
    || (x == 0xE1 && y == 0x9A && z == 0x80)
    || (x == 0xE2 && y == 0x80 && (0x80 <= z <= 0x8A || z == 0xA8 || z == 0xA9 || z == 0xAF))
    || (x == 0xE2 && y == 0x81 && z == 0x9F)
    || (x == 0xE3 && y == 0x80 && z == 0x80)
  }

  function TrimStart(b: Bytes): Bytes
    decreases |b|
  {
    var n := SpacePrefix(b);
    if n == 0 then b else TrimStart(b[n..])
  }

  function TrimEnd(b: Bytes): Bytes
    decreases |b|
  {
    var n := SpaceSuffix(b);
    if n == 0 then b else TrimEnd(b[..|b| - n])
  }

  /** `str::trim` */
  function Trim(b: Bytes): Bytes { TrimEnd(TrimStart(b)) }

  function ShapeOf(line: Bytes): Shape {
    var t := Trim(line);
    Shape(t != [] && t[0] in {125, 93}, t != [] && t[|t| - 1] in {123, 91})
  }

  // ---- what the shape of a line means ----

  /** The white-space characters of Unicode: U+0009 to U+000D, the space, U+0085, U+00A0, U+1680, U+2000 to U+200A,
      U+2028, U+2029, U+202F, U+205F and U+3000. */
  predicate IsSpaceChar(c: Bytes) {
    || (|c| == 1 && (9 <= c[0] <= 13 || c[0] == 32))
    || c == [0xC2, 0x85] || c == [0xC2, 0xA0] || c == [0xE1, 0x9A, 0x80] || c == [0xE2, 0x81, 0x9F]
    || c == [0xE3, 0x80, 0x80]
    || (|c| == 3 && c[0] == 0xE2 && c[1] == 0x80 && (0x80 <= c[2] <= 0x8A || c[2] in [0xA8, 0xA9, 0xAF]))
  }

  predicate AllSpace(chars: seq<Bytes>) { forall i :: 0 <= i < |chars| ==> IsSpaceChar(chars[i]) }

  /** It neither starts nor ends with white space. */
  ghost predicate IsTrimmed(core: Bytes) { forall c :: IsSpaceChar(c) ==> !StartsWith(core, c) && !EndsWith(core, c) }

  lemma SpaceAtStart(c: Bytes, rest: Bytes)
    requires IsSpaceChar(c)
    ensures SpacePrefix(c + rest) == |c|
  {
  }

  lemma SpaceAtEnd(c: Bytes, before: Bytes)
    requires IsSpaceChar(c)
    ensures SpaceSuffix(before + c) == |c|
  {
    var b := before + c;
    assert forall i :: 0 <= i < |c| ==> b[|before| + i] == c[i];
  }

  lemma PrefixIsSpace(b: Bytes)
    ensures SpacePrefix(b) > 0 ==> IsSpaceChar(b[..SpacePrefix(b)])
  {
  }

  lemma SuffixIsSpace(b: Bytes)
    ensures SpaceSuffix(b) > 0 ==> IsSpaceChar(b[|b| - SpaceSuffix(b)..])
  {
  }

  /** White space after a trimmed text does not complete a white-space character at its start. */
  lemma NoneAtStart(core: Bytes, chars: seq<Bytes>)
    requires core != [] && IsTrimmed(core) && AllSpace(chars)
    ensures SpacePrefix(core + Flatten(chars)) == 0
  {
    var b := core + Flatten(chars);
    var n := SpacePrefix(b);
    if chars != [] { FirstOfSpace(chars); }
    PrefixIsSpace(b);
    assert n <= |core| ==> StartsWith(core, b[..n]);
    assert chars != [] ==> b[|core|] == Flatten(chars)[0];
  }

  lemma FirstOfSpace(chars: seq<Bytes>)
    requires chars != [] && AllSpace(chars)
    ensures Flatten(chars) != [] && !(0x80 <= Flatten(chars)[0] <= 0xBF)
  {
    assert IsSpaceChar(chars[0]);
  }

  lemma {:induction false} TrimStartSpaces(lead: seq<Bytes>, rest: Bytes)
    requires AllSpace(lead)
    ensures TrimStart(Flatten(lead) + rest) == TrimStart(rest)
    decreases |lead|
  {
    if lead == [] {
      assert [] + rest == rest;
    } else {
      var later := Flatten(lead[1..]) + rest;
      assert Flatten(lead) + rest == lead[0] + later;
      SpaceAtStart(lead[0], later);
      assert (lead[0] + later)[|lead[0]|..] == later;
      TrimStartSpaces(lead[1..], rest);
    }
  }

  lemma {:induction false} TrimEndSpaces(before: Bytes, trail: seq<Bytes>)
    requires AllSpace(trail)
    ensures TrimEnd(before + Flatten(trail)) == TrimEnd(before)
    decreases |trail|
  {
    if trail == [] {
      assert before + [] == before;
    } else {
      var init, last := trail[..|trail| - 1], trail[|trail| - 1];
      assert trail == init + [last];
      FlattenAppend(init, [last]);
      FlattenOne(last);
      var b := before + Flatten(init);
      assert before + Flatten(trail) == b + last;
      SpaceAtEnd(last, b);
      assert (b + last)[..|b|] == b;
      TrimEndSpaces(before, init);
    }
  }

  lemma FlattenOne(c: Bytes)
    ensures Flatten([c]) == c
  {
    assert [c][1..] == [];
  }

  lemma TrimMeaning(lead: seq<Bytes>, core: Bytes, trail: seq<Bytes>)
    requires AllSpace(lead) && AllSpace(trail) && IsTrimmed(core)
    ensures Trim(Flatten(lead) + core + Flatten(trail)) == core
  {
    assert Flatten(lead) + core + Flatten(trail) == Flatten(lead) + (core + Flatten(trail));
    TrimStartSpaces(lead, core + Flatten(trail));
    if core == [] { BlankTrims(trail); } else { CoreTrims(core, trail); }
  }

  lemma BlankTrims(chars: seq<Bytes>)
    requires AllSpace(chars)
    ensures Trim([] + Flatten(chars)) == []
  {
    assert [] + Flatten(chars) == Flatten(chars) + [];
    TrimStartSpaces(chars, []);
  }

  lemma CoreTrims(core: Bytes, trail: seq<Bytes>)
    requires core != [] && AllSpace(trail) && IsTrimmed(core)
    ensures Trim(core + Flatten(trail)) == core
  {
    NoneAtStart(core, trail);
    TrimEndSpaces(core, trail);
    SuffixIsSpace(core);
    assert EndsWith(core, core[|core| - SpaceSuffix(core)..]);
  }

  /** A line closes a block if its first character, white space apart, is a closing brace or bracket, and opens one
      if its last is an opening one. */
  lemma LineShapeMeaning(lead: seq<Bytes>, core: Bytes, trail: seq<Bytes>)
    requires AllSpace(lead) && AllSpace(trail) && IsTrimmed(core)
    ensures ShapeOf(Flatten(lead) + core + Flatten(trail))
         == Shape(core != [] && core[0] as char in "}]", core != [] && core[|core| - 1] as char in "{[")
  {
    TrimMeaning(lead, core, trail);
    assert "}]" == ['}', ']'] && "{[" == ['{', '['];
  }

  predicate InText(text: Bytes, lines: seq<Range>) {
    forall i :: 0 <= i < |lines| ==> lines[i].start <= lines[i].end <= |text|
  }

  function Shapes(text: Bytes, lines: seq<Range>): seq<Shape>
    requires InText(text, lines)
  {
    seq(|lines|, i requires 0 <= i < |lines| => ShapeOf(text[lines[i].start..lines[i].end]))
  }

  /** Bracket depth counted from opener `i` just before line `k`: 1 right after `i` opened. */
  function Level(shapes: seq<Shape>, i: nat, k: nat): int
    requires i < k <= |shapes|
    decreases k
  {
    if k == i + 1 then 1
    else Level(shapes, i, k - 1) - (if shapes[k - 1].closes then 1 else 0) + (if shapes[k - 1].opens then 1 else 0)
  }

  /** Line `k` leaves the block opened at `i` open. */
  predicate StaysOpen(shapes: seq<Shape>, i: nat, k: nat)
    requires i < k < |shapes|
  {
    Level(shapes, i, k) - (if shapes[k].closes then 1 else 0) >= 1
  }

  /** Line `j` closes the block opened at `i`: depth returns to zero there for the first time. */
  ghost predicate Closes(shapes: seq<Shape>, i: nat, j: nat) {
    && i < j < |shapes| && shapes[i].opens && shapes[j].closes
    && Level(shapes, i, j) == 1
    && forall k :: i < k < j ==> StaysOpen(shapes, i, k)
  }

  /** `i` is an opener that no line before `p` closes. */
  ghost predicate OpenAt(shapes: seq<Shape>, i: nat, p: nat) {
    && i < p <= |shapes| && shapes[i].opens
    && forall k :: i < k < p ==> StaysOpen(shapes, i, k)
  }

  /** What `ends[i]` says once the lines before `p` have been read: the closing line (0 when it does not
      fit 32 bits), or 0 while there is none. */
  ghost predicate FoldEnd(shapes: seq<Shape>, i: nat, p: nat, end: nat) {
    && (forall j: nat :: j < p && Closes(shapes, i, j) ==> end == U32OrZero(j))
    && ((forall j: nat :: j < p ==> !Closes(shapes, i, j)) ==> end == 0)
  }

  /** Stack of the openers still open before line `p`, outermost first. */
  ghost predicate IsStack(shapes: seq<Shape>, open: seq<nat>, p: nat) {
    && p <= |shapes|
    && (forall t :: 0 <= t < |open| ==> OpenAt(shapes, open[t], p) && Level(shapes, open[t], p) == |open| - t)
    && (forall i :: 0 <= i < p && i !in open ==> !OpenAt(shapes, i, p))
    && (forall t, u :: 0 <= t < u < |open| ==> open[t] < open[u])
  }

  ghost predicate FoldsBefore(shapes: seq<Shape>, ends: seq<nat>, p: nat) {
    |ends| == |shapes| && forall i :: 0 <= i < |ends| ==> FoldEnd(shapes, i, p, ends[i])
  }

  lemma CloseIsUnique(shapes: seq<Shape>, i: nat, j: nat, k: nat)
    requires Closes(shapes, i, j) && Closes(shapes, i, k)
    ensures j == k
  {
    assert j < k ==> StaysOpen(shapes, i, j);
    assert k < j ==> StaysOpen(shapes, i, k);
  }

  lemma OpenBefore(shapes: seq<Shape>, i: nat, p: nat)
    requires i < p < |shapes|
    ensures OpenAt(shapes, i, p + 1) ==> OpenAt(shapes, i, p) && StaysOpen(shapes, i, p)
  {
  }

  /** The stack before a line, and whether the line closes its top, give the stack after the line. */
  function NextStack(open: seq<nat>, p: nat, shape: Shape): seq<nat> {
    var popped := if shape.closes && open != [] then open[..|open| - 1] else open;
    if shape.opens then popped + [p] else popped
  }

  /** What the line closes: the top of the stack, and nothing else. */
  lemma CloseIsTop(shapes: seq<Shape>, open: seq<nat>, p: nat)
    requires p < |shapes| && IsStack(shapes, open, p)
    ensures shapes[p].closes && open != [] ==> Closes(shapes, open[|open| - 1], p)
    ensures forall i :: Closes(shapes, i, p) ==> shapes[p].closes && open != [] && i == open[|open| - 1]
  {
    forall i | Closes(shapes, i, p) ensures shapes[p].closes && open != [] && i == open[|open| - 1] {
      assert OpenAt(shapes, i, p);
      var t :| 0 <= t < |open| && open[t] == i;
    }
  }

  /** A block deep enough to survive the line is open after it. */
  lemma DeepStaysOpen(shapes: seq<Shape>, i: nat, p: nat)
    requires p < |shapes| && OpenAt(shapes, i, p) && Level(shapes, i, p) > if shapes[p].closes then 1 else 0
    ensures OpenAt(shapes, i, p + 1)
    ensures Level(shapes, i, p + 1)
         == Level(shapes, i, p) - (if shapes[p].closes then 1 else 0) + (if shapes[p].opens then 1 else 0)
  {
    assert StaysOpen(shapes, i, p);
  }

  /** An opener on the stack that the line does not close stays, at the depth of its place. */
  lemma KeptStaysOpen(shapes: seq<Shape>, open: seq<nat>, p: nat, t: nat)
    requires p < |shapes| && IsStack(shapes, open, p)
    requires t < if shapes[p].closes then |open| - 1 else |open|
    ensures OpenAt(shapes, open[t], p + 1)
    ensures Level(shapes, open[t], p + 1) == |NextStack(open, p, shapes[p])| - t
  {
    DeepStaysOpen(shapes, open[t], p);
  }

  /** Nothing else is open after the line. */
  lemma OthersStayClosed(shapes: seq<Shape>, open: seq<nat>, p: nat, i: nat)
    requires p < |shapes| && IsStack(shapes, open, p) && i <= p && i !in NextStack(open, p, shapes[p])
    ensures !OpenAt(shapes, i, p + 1)
  {
    if i in open {
      var t :| 0 <= t < |open| && open[t] == i;
      NotKept(open, p, shapes[p], t);
      assert Level(shapes, i, p) == 1 && !StaysOpen(shapes, i, p);
    }
    if i < p { OpenBefore(shapes, i, p); }
  }

  lemma NotKept(open: seq<nat>, p: nat, shape: Shape, t: nat)
    requires t < |open| && open[t] !in NextStack(open, p, shape)
    ensures shape.closes && t == |open| - 1
  {
    var next := NextStack(open, p, shape);
    assert forall k :: 0 <= k < (if shape.closes then |open| - 1 else |open|) ==> next[k] == open[k];
  }

  lemma StackStep(shapes: seq<Shape>, open: seq<nat>, p: nat)
    requires p < |shapes| && IsStack(shapes, open, p)
    ensures IsStack(shapes, NextStack(open, p, shapes[p]), p + 1)
  {
    var next := NextStack(open, p, shapes[p]);
    var kept := if shapes[p].closes && open != [] then |open| - 1 else |open|;
    forall t | 0 <= t < |next| ensures OpenAt(shapes, next[t], p + 1) && Level(shapes, next[t], p + 1) == |next| - t {
      if t < kept { KeptStaysOpen(shapes, open, p, t); }
    }
    forall i | 0 <= i < p + 1 && i !in next ensures !OpenAt(shapes, i, p + 1) { OthersStayClosed(shapes, open, p, i); }
  }

  function NextEnds(open: seq<nat>, ends: seq<nat>, p: nat, shape: Shape): seq<nat> {
    if shape.closes && open != [] && open[|open| - 1] < |ends| then ends[open[|open| - 1] := U32OrZero(p)] else ends
  }

  /** The state of the scan before line `p`. */
  ghost predicate ScanState(shapes: seq<Shape>, open: seq<nat>, ends: seq<nat>, p: nat) {
    IsStack(shapes, open, p) && FoldsBefore(shapes, ends, p) && forall t :: 0 <= t < |open| ==> open[t] < |ends|
  }

  lemma ScanStep(shapes: seq<Shape>, open: seq<nat>, ends: seq<nat>, p: nat)
    requires p < |shapes| && ScanState(shapes, open, ends, p)
    ensures ScanState(shapes, NextStack(open, p, shapes[p]), NextEnds(open, ends, p, shapes[p]), p + 1)
  {
    StackStep(shapes, open, p);
    EndsStep(shapes, open, ends, p);
  }

  lemma EndsStep(shapes: seq<Shape>, open: seq<nat>, ends: seq<nat>, p: nat)
    requires p < |shapes| && IsStack(shapes, open, p) && FoldsBefore(shapes, ends, p)
    ensures FoldsBefore(shapes, NextEnds(open, ends, p, shapes[p]), p + 1)
  {
    CloseIsTop(shapes, open, p);
    var closed := shapes[p].closes && open != [];
    var top := if closed then open[|open| - 1] else 0;
    var ends' := NextEnds(open, ends, p, shapes[p]);
    forall i | 0 <= i < |ends| ensures FoldEnd(shapes, i, p + 1, ends'[i]) {
      assert FoldEnd(shapes, i, p, ends[i]);
      if closed && i == top {
        forall j: nat | j < p + 1 && Closes(shapes, i, j) ensures j == p { CloseIsUnique(shapes, i, j, p); }
      } else {
        assert !Closes(shapes, i, p);
      }
    }
  }

  method LineShape(line: Bytes) returns (closes: bool, opens: bool)
    ensures Shape(closes, opens) == ShapeOf(line)
  {
    var t := Trim(line);
    closes := t != [] && t[0] in {125, 93};
    opens := t != [] && t[|t| - 1] in {123, 91};
  }

  /** One round of the loop: a closing line pops the innermost opener, an opening line is pushed. */
  method FoldLine(ends: array<nat>, open: seq<nat>, i: nat, closes: bool, opens: bool) returns (open': seq<nat>)
    requires open != [] ==> open[|open| - 1] < ends.Length
    modifies ends
    ensures ends[..] == NextEnds(open, old(ends[..]), i, Shape(closes, opens))
    ensures open' == NextStack(open, i, Shape(closes, opens))
  {
    open' := open;
    if closes {
      if open' != [] {
        var start := open'[|open'| - 1];
        open' := open'[..|open'| - 1];
        ends[start] := U32OrZero(i);
      }
    }
    if opens {
      open' := open' + [i];
    }
  }

  /** The one-pass bracket stack computes every fold end, on any text, balanced or not. */
  method FoldEnds(text: Bytes, lines: seq<Range>) returns (result: seq<nat>)
    requires InText(text, lines)
    ensures FoldsBefore(Shapes(text, lines), result, |lines|)
  {
    var ends := new nat[|lines|](_ => 0);
    var open: seq<nat> := [];
    ghost var shapes := Shapes(text, lines);
    for i := 0 to |lines|
      invariant ends.Length == |lines|
      invariant ScanState(shapes, open, ends[..], i)
    {
      var closes, opens := LineShape(text[lines[i].start..lines[i].end]);
      ScanStep(shapes, open, ends[..], i);
      open := FoldLine(ends, open, i, closes, opens);
    }
    result := ends[..];
  }

  /** Fold ends are determined by the text. */
  lemma FoldEndsUnique(shapes: seq<Shape>, a: seq<nat>, b: seq<nat>)
    requires FoldsBefore(shapes, a, |shapes|) && FoldsBefore(shapes, b, |shapes|)
    ensures a == b
  {
    forall i | 0 <= i < |a| ensures a[i] == b[i] {
      assert FoldEnd(shapes, i, |shapes|, a[i]) && FoldEnd(shapes, i, |shapes|, b[i]);
    }
  }

  /** A recorded fold end is the line that depth counting pairs with the opener, and the converse; one that does not fit
      32 bits is recorded as none. */
  lemma FoldEndMeaning(shapes: seq<Shape>, ends: seq<nat>, i: nat, j: nat)
    requires FoldsBefore(shapes, ends, |shapes|) && i < |shapes| && 0 < j
    ensures j < 0x1_0000_0000 ==> (ends[i] == j <==> Closes(shapes, i, j))
    ensures j >= 0x1_0000_0000 && Closes(shapes, i, j) ==> ends[i] == 0
  {
    assert FoldEnd(shapes, i, |shapes|, ends[i]);
    if ends[i] == j {
      var k: nat :| k < |shapes| && Closes(shapes, i, k);
    }
  }

  lemma {:induction false} LevelAdds(shapes: seq<Shape>, i: nat, m: nat, k: nat)
    requires i < m < k <= |shapes| && shapes[m].opens
    ensures Level(shapes, i, k) == Level(shapes, i, m) - (if shapes[m].closes then 1 else 0) + Level(shapes, m, k)
    decreases k
  {
    if k > m + 1 { LevelAdds(shapes, i, m, k - 1); }
  }

  lemma {:induction false} OpenLevelPositive(shapes: seq<Shape>, i: nat, j: nat, k: nat)
    requires Closes(shapes, i, j) && i < k <= j
    ensures Level(shapes, i, k) >= 1
  {
    if k < j { assert StaysOpen(shapes, i, k); }
  }

  /** Two folds are nested or disjoint; they may touch on a line that closes one and opens the other. */
  lemma FoldsNestOrFollow(shapes: seq<Shape>, i: nat, j: nat, m: nat, n: nat)
    requires Closes(shapes, i, j) && Closes(shapes, m, n) && i < m
    ensures n < j || j <= m
  {
    if m < j <= n {
      LevelAdds(shapes, i, m, j);
      assert StaysOpen(shapes, i, m);
      OpenLevelPositive(shapes, m, n, j);
    }
  }

  /** No line closes two folds. */
  lemma NoSharedClose(shapes: seq<Shape>, i: nat, m: nat, j: nat)
    requires Closes(shapes, i, j) && Closes(shapes, m, j)
    ensures i == m
  {
    if i < m { FoldsNestOrFollow(shapes, i, j, m, j); }
    if m < i { FoldsNestOrFollow(shapes, m, j, i, j); }
  }

  // ---- the indexed body ----

  datatype Parsed = Parsed(text: Bytes, lines: seq<Range>, folds: seq<nat>)

  ghost function FoldEndOf(shapes: seq<Shape>, i: nat): nat {
    if j: nat :| Closes(shapes, i, j) then U32OrZero(j) else 0
  }

  ghost function FoldsOf(shapes: seq<Shape>): seq<nat> {
    seq(|shapes|, i requires 0 <= i < |shapes| => FoldEndOf(shapes, i))
  }

  lemma FoldsOfIsFolds(shapes: seq<Shape>)
    ensures FoldsBefore(shapes, FoldsOf(shapes), |shapes|)
  {
    forall i | 0 <= i < |shapes| ensures FoldEnd(shapes, i, |shapes|, FoldEndOf(shapes, i)) {
      forall j: nat, k: nat | Closes(shapes, i, j) && Closes(shapes, i, k) ensures j == k {
        CloseIsUnique(shapes, i, j, k);
      }
    }
  }

  /** The index of `text`: its lines, and for each line the end of the fold it opens. */
  ghost function ParseOf(text: Bytes): Parsed {
    LineIndexCovers(text);
    Parsed(text, LineIndex(text), FoldsOf(Shapes(text, LineIndex(text))))
  }

  method Parse(text: Bytes) returns (p: Parsed)
    ensures p == ParseOf(text)
  {
    var lines := LineRanges(text);
    LineIndexCovers(text);
    var folds := FoldEnds(text, lines);
    ghost var shapes := Shapes(text, lines);
    FoldsOfIsFolds(shapes);
    FoldEndsUnique(shapes, folds, FoldsOf(shapes));
    p := Parsed(text, lines, folds);
  }
}
