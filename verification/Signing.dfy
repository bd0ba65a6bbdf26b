/** Canonical forms that get signed: the AWS Signature Version 4 query and path
    (crates/voleeo-auth/src/sigv4.rs) and the OAuth 1.0 base string and key
    (crates/voleeo-auth/src/oauth1.rs; sections 3.4.1.1 and 3.4.1.3.2 of RFC 5849). */
module Signing {
  import opened Text
  import opened Sequences
  import opened Encode
  import opened Utf8

  type Pair = (Bytes, Bytes)

  // ---- query parameters ----

  /** One `k=v` piece; a bare key has the empty value. */
  function PieceToPair(piece: Bytes): Pair {
    match SplitOnce(piece, EQUALS) case Some(kv) => kv case None => (piece, [])
  }

  function UnescapePair(p: Pair): Pair { (Unescape(p.0), Unescape(p.1)) }

  function RepairPair(p: Pair): Pair { (Repair(p.0), Repair(p.1)) }

  function DecodePair(p: Pair): Pair { (PercentDecode(p.0), PercentDecode(p.1)) }

  function EncodePair(p: Pair): Pair { (UriEncode(p.0), UriEncode(p.1)) }

  predicate NonEmpty(piece: Bytes) { piece != [] }

  /** The pieces of a query, still escaped. */
  function RawPairs(query: Bytes): seq<Pair> {
    Map(Filter(Split(query, AMP), NonEmpty), PieceToPair)
  }

  /** The parameters a query string carries, decoded to text, in order. */
  function DecodedPairs(query: Bytes): seq<Pair> { Map(RawPairs(query), DecodePair) }

  /** The same as the bytes that the escapes denote, which need not be text. */
  function BytePairs(query: Bytes): seq<Pair> { Map(RawPairs(query), UnescapePair) }

  /** Rust's order on pairs of strings. */
  predicate PairLeq(a: Pair, b: Pair) {
    if a.0 == b.0 then BytesLeq(a.1, b.1) else BytesLeq(a.0, b.0)
  }

  function FormatPair(p: Pair): Bytes { p.0 + [EQUALS] + p.1 }

  function JoinPairs(pairs: seq<Pair>): Bytes { Join(Map(pairs, FormatPair), AMP) }

  /** Encode, sort, join: the normalised parameter string of `pairs`. */
  function Normalize(pairs: seq<Pair>): Bytes { JoinPairs(SortBy(Map(pairs, EncodePair), PairLeq)) }

  // ---- the order ----

  lemma PairLeqPreorder()
    ensures TotalPreorder(PairLeq)
  {
    forall a, b: Pair ensures PairLeq(a, b) || PairLeq(b, a) {
      BytesLeqTotal(a.0, b.0);
      BytesLeqTotal(a.1, b.1);
    }
    forall a, b, c: Pair | PairLeq(a, b) && PairLeq(b, c) ensures PairLeq(a, c) {
      PairLeqTransitive(a, b, c);
    }
  }

  lemma PairLeqTransitive(a: Pair, b: Pair, c: Pair)
    requires PairLeq(a, b) && PairLeq(b, c)
    ensures PairLeq(a, c)
  {
    if a.0 == b.0 == c.0 {
      BytesLeqTransitive(a.1, b.1, c.1);
    } else if a.0 != b.0 && b.0 != c.0 {
      BytesLeqTransitive(a.0, b.0, c.0);
      if a.0 == c.0 { BytesLeqAntisymmetric(a.0, b.0); }
    }
  }

  lemma PairLeqAntisymmetric(s: seq<Pair>)
    ensures AntisymmetricOn(s, PairLeq)
  {
    forall i, j | 0 <= i < |s| && 0 <= j < |s| && PairLeq(s[i], s[j]) && PairLeq(s[j], s[i]) ensures s[i] == s[j] {
      if s[i].0 == s[j].0 { BytesLeqAntisymmetric(s[i].1, s[j].1); } else { BytesLeqAntisymmetric(s[i].0, s[j].0); }
    }
  }

  /** Sorting forgets the order of its input and nothing else. */
  lemma SortForgetsOrder(a: seq<Pair>, b: seq<Pair>)
    ensures SortBy(a, PairLeq) == SortBy(b, PairLeq) <==> multiset(a) == multiset(b)
  {
    PairLeqPreorder();
    SortPermutes(a, PairLeq);
    SortPermutes(b, PairLeq);
    SortSorts(a, PairLeq);
    SortSorts(b, PairLeq);
    if multiset(a) == multiset(b) {
      PairLeqAntisymmetric(SortBy(a, PairLeq));
      SortedUnique(SortBy(a, PairLeq), SortBy(b, PairLeq), PairLeq);
    }
  }

  // ---- mapping and multisets ----

  lemma EncodedMultisets(a: seq<Pair>, b: seq<Pair>)
    ensures multiset(Map(a, EncodePair)) == multiset(Map(b, EncodePair)) <==> multiset(a) == multiset(b)
  {
    if multiset(a) == multiset(b) {
      MapKeepsMultisets(a, b, EncodePair);
    }
    if multiset(Map(a, EncodePair)) == multiset(Map(b, EncodePair)) {
      MapKeepsMultisets(Map(a, EncodePair), Map(b, EncodePair), UnescapePair);
      UnescapeEncodedPairs(a);
      UnescapeEncodedPairs(b);
    }
  }

  lemma UnescapeEncodedPairs(a: seq<Pair>)
    ensures Map(Map(a, EncodePair), UnescapePair) == a
    ensures Map(Map(a, EncodePair), DecodePair) == Map(a, RepairPair)
  {
    forall i | 0 <= i < |a|
      ensures UnescapePair(EncodePair(a[i])) == a[i] && DecodePair(EncodePair(a[i])) == RepairPair(a[i])
    {
      UnescapeEncode(a[i].0);
      UnescapeEncode(a[i].1);
    }
  }

  // ---- reading a normalised string back ----

  /** Encoded keys and values hold neither separator. */
  predicate Separable(pairs: seq<Pair>) {
    forall p :: p in pairs ==> AMP !in p.0 && AMP !in p.1 && EQUALS !in p.0
  }

  lemma ReadBack(pairs: seq<Pair>)
    requires Separable(pairs)
    ensures RawPairs(JoinPairs(pairs)) == pairs
  {
    var pieces := Map(pairs, FormatPair);
    forall i | 0 <= i < |pairs| ensures AMP !in pieces[i] && pieces[i] != [] && PieceToPair(pieces[i]) == pairs[i] {
      assert pairs[i] in pairs;
      SplitOnceAt(pairs[i].0, pairs[i].1, EQUALS);
    }
    if pairs != [] {
      SplitJoin(pieces, AMP);
      FilterAll(pieces, NonEmpty);
    } else {
      assert Split([], AMP) == [[]];
      FilterNone([[]], NonEmpty);
    }
  }

  lemma SortedEncodedSeparable(pairs: seq<Pair>)
    ensures Separable(SortBy(Map(pairs, EncodePair), PairLeq))
  {
    var encoded := Map(pairs, EncodePair);
    SortPermutes(encoded, PairLeq);
    forall p | p in SortBy(encoded, PairLeq) ensures AMP !in p.0 && AMP !in p.1 && EQUALS !in p.0 {
      assert p in multiset(encoded);
      var i :| 0 <= i < |encoded| && encoded[i] == p;
      EncodedAlphabet(pairs[i].0);
      EncodedAlphabet(pairs[i].1);
    }
  }

  /** The normalised string identifies the multiset of decoded parameters, and nothing else. */
  lemma NormalizeIdentifiesParameters(a: seq<Pair>, b: seq<Pair>)
    ensures Normalize(a) == Normalize(b) <==> multiset(a) == multiset(b)
  {
    SortForgetsOrder(Map(a, EncodePair), Map(b, EncodePair));
    EncodedMultisets(a, b);
    SortedEncodedSeparable(a);
    SortedEncodedSeparable(b);
    ReadBack(SortBy(Map(a, EncodePair), PairLeq));
    ReadBack(SortBy(Map(b, EncodePair), PairLeq));
  }

  lemma EncodeAll(raw: seq<Pair>, plain: seq<Pair>)
    ensures Map(raw, p => EncodePair(DecodePair(p))) + Map(plain, EncodePair)
         == Map(Map(raw, DecodePair) + plain, EncodePair)
  {
  }

  // ---- the order of the parameters ----

  /** By key, and by value where the keys are equal. */
  ghost predicate InOrder(p: Pair, q: Pair) { Less(p.0, q.0) || (p.0 == q.0 && (p.1 == q.1 || Less(p.1, q.1))) }

  ghost predicate Ascending(pairs: seq<Pair>) { forall i, j :: 0 <= i < j < |pairs| ==> InOrder(pairs[i], pairs[j]) }

  /** `s` is the pairs percent-encoded, each once as `k=v`, in ascending order, between ampersands. */
  ghost predicate ListsAscending(s: Bytes, pairs: seq<Pair>) {
    && s == Join(Map(RawPairs(s), (p: Pair) => p.0 + [EQUALS] + p.1), AMP)
    && multiset(RawPairs(s)) == multiset(Map(pairs, (p: Pair) => (UriEncode(p.0), UriEncode(p.1))))
    && Ascending(RawPairs(s))
  }

  lemma NormalizeListsAscending(pairs: seq<Pair>)
    ensures ListsAscending(Normalize(pairs), pairs)
  {
    var encoded := Map(pairs, EncodePair);
    var sorted := SortBy(encoded, PairLeq);
    SortedEncodedSeparable(pairs);
    ReadBack(sorted);
    SortPermutes(encoded, PairLeq);
    PairLeqPreorder();
    SortSorts(encoded, PairLeq);
    assert encoded == Map(pairs, (p: Pair) => (UriEncode(p.0), UriEncode(p.1)));
    assert Map(sorted, FormatPair) == Map(sorted, (p: Pair) => p.0 + [EQUALS] + p.1);
    forall i, j | 0 <= i < j < |sorted| ensures InOrder(sorted[i], sorted[j]) {
      BytesLeqMeaning(sorted[i].0, sorted[j].0);
      BytesLeqMeaning(sorted[i].1, sorted[j].1);
    }
  }

  // ---- SigV4 ----

  /** `canonical_query`; the sort is in place. */
  method CanonicalQuery(query: Bytes) returns (r: Bytes)
    ensures r == Normalize(DecodedPairs(query))
    ensures ListsAscending(r, DecodedPairs(query))
  {
    NormalizeListsAscending(DecodedPairs(query));
    if query == [] {
      assert Split([], AMP) == [[]];
      FilterNone([[]], NonEmpty);
      return [];
    }
    var pairs := Map(RawPairs(query), p => EncodePair(DecodePair(p)));
    EncodeAll(RawPairs(query), []);
    assert pairs + [] == pairs && DecodedPairs(query) + [] == DecodedPairs(query);
    pairs := SortBy(pairs, PairLeq);
    return JoinPairs(pairs);
  }

  /** Two queries have one canonical form exactly when they carry the same parameters, as multisets. */
  lemma CanonicalQueryIdentifiesParameters(q1: Bytes, q2: Bytes)
    ensures Normalize(DecodedPairs(q1)) == Normalize(DecodedPairs(q2))
       <==> multiset(DecodedPairs(q1)) == multiset(DecodedPairs(q2))
  {
    NormalizeIdentifiesParameters(DecodedPairs(q1), DecodedPairs(q2));
  }

  /** A normalised string of any pairs, read as a query: the escapes denote those pairs, and the parameters are
      those pairs repaired. */
  lemma ReadNormalized(pairs: seq<Pair>)
    ensures multiset(BytePairs(Normalize(pairs))) == multiset(pairs)
    ensures multiset(DecodedPairs(Normalize(pairs))) == multiset(Map(pairs, RepairPair))
  {
    var encoded := Map(pairs, EncodePair);
    var sorted := SortBy(encoded, PairLeq);
    SortedEncodedSeparable(pairs);
    ReadBack(sorted);
    SortPermutes(encoded, PairLeq);
    MapKeepsMultisets(sorted, encoded, UnescapePair);
    MapKeepsMultisets(sorted, encoded, DecodePair);
    UnescapeEncodedPairs(pairs);
  }

  predicate IsText(p: Pair) { ValidUtf8(p.0) && ValidUtf8(p.1) }

  predicate AllText(pairs: seq<Pair>) { forall i :: 0 <= i < |pairs| ==> IsText(pairs[i]) }

  /** Parameters are text, and are what the escapes denote wherever that is text. */
  lemma DecodedIsText(q: Bytes)
    ensures AllText(DecodedPairs(q))
    ensures Map(DecodedPairs(q), RepairPair) == DecodedPairs(q) == Map(BytePairs(q), RepairPair)
    ensures forall i :: 0 <= i < |BytePairs(q)| && IsText(BytePairs(q)[i]) ==> DecodedPairs(q)[i] == BytePairs(q)[i]
  {
    forall i | 0 <= i < |RawPairs(q)|
      ensures IsText(DecodedPairs(q)[i]) && RepairPair(DecodedPairs(q)[i]) == DecodedPairs(q)[i]
      ensures IsText(BytePairs(q)[i]) ==> DecodedPairs(q)[i] == BytePairs(q)[i]
    {
      var p := BytePairs(q)[i];
      RepairFixes(p.0);
      RepairFixes(p.1);
      RepairFixes(Repair(p.0));
      RepairFixes(Repair(p.1));
    }
  }

  /** A canonical query carries the same parameters, so it is its own canonical form. */
  lemma CanonicalQueryIdempotent(q: Bytes)
    ensures var c := Normalize(DecodedPairs(q));
            multiset(DecodedPairs(c)) == multiset(DecodedPairs(q)) && Normalize(DecodedPairs(c)) == c
  {
    ReadNormalized(DecodedPairs(q));
    DecodedIsText(q);
    NormalizeIdentifiesParameters(DecodedPairs(Normalize(DecodedPairs(q))), DecodedPairs(q));
  }

  // ---- what the repair costs ----

  /** `a=%FF` and `a=%FE` are signed alike, although they denote different bytes. */
  lemma RepairCollides()
    ensures var q1, q2 := Ascii("a=%FF"), Ascii("a=%FE");
            && Normalize(DecodedPairs(q1)) == Normalize(DecodedPairs(q2)) == Ascii("a=%EF%BF%BD")
            && multiset(BytePairs(q1)) != multiset(BytePairs(q2))
  {
    EscapedQuery(70);
    EscapedQuery(69);
    EscapesWritten();
    OneEach(([97], [0xFF]), ([97], [0xFE]));
  }

  lemma EscapesWritten()
    ensures Ascii("a=%FF") == EscapeOf(70) && Ascii("a=%FE") == EscapeOf(69)
  {
  }

  lemma OneEach(p: Pair, q: Pair)
    requires p != q
    ensures multiset([p]) != multiset([q])
  {
    assert p in multiset([p]) && p !in multiset([q]);
  }

  /** The query `a=%F` followed by one more digit. */
  function EscapeOf(digit: Byte): Bytes { [97, EQUALS, PERCENT, 70, digit] }

  lemma EscapedQuery(digit: Byte)
    requires 69 <= digit <= 70
    ensures var b := (0xF0 + digit as int - 55) as Byte;
            BytePairs(EscapeOf(digit)) == [([97], [b])]
    ensures DecodedPairs(EscapeOf(digit)) == [([97], REPLACEMENT)]
    ensures Normalize([([97], REPLACEMENT)]) == Ascii("a=%EF%BF%BD")
  {
    EscapedPieces(digit);
    UnescapeOne(digit);
    RepairOne((0xF0 + digit as int - 55) as Byte);
    PlainOne();
    NormalReplacement();
  }

  lemma UnescapeOne(digit: Byte)
    requires 69 <= digit <= 70
    ensures Unescape([PERCENT, 70, digit]) == [(0xF0 + digit as int - 55) as Byte]
  {
    var v: Bytes := [PERCENT, 70, digit];
    assert v[3..] == [];
  }

  lemma PlainOne()
    ensures Unescape([97]) == [97] && Repair([97]) == [97]
  {
    var a: Bytes := [97];
    assert a[1..] == [];
  }

  lemma RepairOne(b: Byte)
    requires 0xFE <= b
    ensures Repair([b]) == REPLACEMENT
  {
    var one: Bytes := [b];
    assert one[1..] == [] && REPLACEMENT + [] == REPLACEMENT;
  }

  /** A query of one piece `name=value`. */
  lemma OnePiece(name: Bytes, value: Bytes)
    requires AMP !in name && AMP !in value && EQUALS !in name
    ensures RawPairs(name + [EQUALS] + value) == [(name, value)]
  {
    var q := name + [EQUALS] + value;
    SplitHead(q, [], AMP);
    assert q + [] == q && Split(q, AMP) == [q];
    FilterOne(q, NonEmpty);
    SplitOnceAt(name, value, EQUALS);
  }

  /** A piece of a query as it is written; an empty one counts for nothing, a bare key has the empty value. */
  datatype Piece = Blank | Bare(key: Bytes) | Assigned(key: Bytes, value: Bytes)

  predicate IsPiece(p: Piece) {
    match p
    case Blank => true
    case Bare(k) => k != [] && AMP !in k && EQUALS !in k
    case Assigned(k, v) => AMP !in k && AMP !in v && EQUALS !in k
  }

  function Written(p: Piece): Bytes {
    match p case Blank => [] case Bare(k) => k case Assigned(k, v) => k + [EQUALS] + v
  }

  function PairOf(p: Piece): seq<Pair> {
    match p case Blank => [] case Bare(k) => [(k, [])] case Assigned(k, v) => [(k, v)]
  }

  /** A query is read piece by piece; only the first equals sign of a piece separates. */
  lemma QueryReads(pieces: seq<Piece>)
    requires pieces != [] && forall i :: 0 <= i < |pieces| ==> IsPiece(pieces[i])
    ensures RawPairs(Join(Map(pieces, Written), AMP)) == Flatten(Map(pieces, PairOf))
  {
    SplitJoin(Map(pieces, Written), AMP);
    PiecesRead(pieces);
  }

  lemma {:induction false} PiecesRead(pieces: seq<Piece>)
    requires forall i :: 0 <= i < |pieces| ==> IsPiece(pieces[i])
    ensures Map(Filter(Map(pieces, Written), NonEmpty), PieceToPair) == Flatten(Map(pieces, PairOf))
  {
    if pieces != [] {
      PiecesRead(pieces[1..]);
      var texts := Map(pieces, Written);
      assert texts[1..] == Map(pieces[1..], Written) && Map(pieces, PairOf)[1..] == Map(pieces[1..], PairOf);
      PieceRead(pieces[0]);
      if texts[0] != [] { MapCons(texts[0], Filter(texts[1..], NonEmpty), PieceToPair); }
    }
  }

  lemma PieceRead(p: Piece)
    requires IsPiece(p)
    ensures if Written(p) == [] then PairOf(p) == [] else PairOf(p) == [PieceToPair(Written(p))]
  {
    if p.Assigned? { SplitOnceAt(p.key, p.value, EQUALS); }
  }

  lemma EscapedPieces(digit: Byte)
    requires 69 <= digit <= 70
    ensures RawPairs(EscapeOf(digit)) == [([97], [PERCENT, 70, digit])]
  {
    var a: Bytes := [97];
    assert EscapeOf(digit) == a + [EQUALS] + [PERCENT, 70, digit];
    OnePiece(a, [PERCENT, 70, digit]);
  }

  lemma NormalReplacement()
    ensures Normalize([([97], REPLACEMENT)]) == Ascii("a=%EF%BF%BD")
  {
    var pairs: seq<Pair> := [([97], REPLACEMENT)];
    var encoded := Map(pairs, EncodePair);
    assert encoded == [EncodePair(pairs[0])];
    assert encoded[1..] == [] && SortBy(encoded, PairLeq) == encoded;
    EncodeOne([97]);
    EncodeThree(REPLACEMENT);
    assert EncodeByte(0xEF) == [PERCENT, 69, 70] && EncodeByte(0xBF) == [PERCENT, 66, 70]
        && EncodeByte(0xBD) == [PERCENT, 66, 68];
  }

  lemma EncodeOne(s: Bytes)
    requires |s| == 1
    ensures UriEncode(s) == EncodeByte(s[0])
  {
    assert s[1..] == [];
    assert EncodeByte(s[0]) + [] == EncodeByte(s[0]);
  }

  lemma EncodeThree(s: Bytes)
    requires |s| == 3
    ensures UriEncode(s) == EncodeByte(s[0]) + (EncodeByte(s[1]) + EncodeByte(s[2]))
  {
    assert s[1..][0] == s[1] && s[1..][1..] == s[2..] && s[2..][0] == s[2];
    EncodeOne(s[2..]);
  }

  /** Every query with the same canonical form denotes the same bytes. */
  ghost predicate IdentifiesBytes(q: Bytes) {
    forall q2 :: Normalize(DecodedPairs(q2)) == Normalize(DecodedPairs(q)) ==>
        multiset(BytePairs(q2)) == multiset(BytePairs(q))
  }

  /** No key and no value holds a replacement character. */
  predicate FreeOfReplacement(pairs: seq<Pair>) {
    forall i :: 0 <= i < |pairs| ==> !HasReplacement(pairs[i].0) && !HasReplacement(pairs[i].1)
  }

  /** The canonical query identifies the bytes that the escapes denote, exactly when no decoded key or value
      holds a replacement character. */
  lemma CanonicalQueryIdentifiesBytes(q: Bytes)
    ensures IdentifiesBytes(q) <==> FreeOfReplacement(DecodedPairs(q))
  {
    if FreeOfReplacement(DecodedPairs(q)) {
      forall q2 | Normalize(DecodedPairs(q2)) == Normalize(DecodedPairs(q))
        ensures multiset(BytePairs(q2)) == multiset(BytePairs(q))
      {
        NormalizeIdentifiesParameters(DecodedPairs(q2), DecodedPairs(q));
        FreeTogether(DecodedPairs(q), DecodedPairs(q2));
        FreeIsExact(q);
        FreeIsExact(q2);
      }
    } else {
      var q2 := Disguise(q);
    }
  }

  lemma FreeTogether(a: seq<Pair>, b: seq<Pair>)
    requires multiset(a) == multiset(b) && FreeOfReplacement(a)
    ensures FreeOfReplacement(b)
  {
    forall i | 0 <= i < |b| ensures !HasReplacement(b[i].0) && !HasReplacement(b[i].1) {
      assert b[i] in multiset(a);
    }
  }

  lemma FreeIsExact(q: Bytes)
    requires FreeOfReplacement(DecodedPairs(q))
    ensures BytePairs(q) == DecodedPairs(q)
  {
    DecodedIsText(q);
    forall i | 0 <= i < |BytePairs(q)| ensures BytePairs(q)[i] == DecodedPairs(q)[i] {
      var p := BytePairs(q)[i];
      assert DecodedPairs(q)[i] == RepairPair(p);
      if !ValidUtf8(p.0) { RepairMarks(p.0); }
      if !ValidUtf8(p.1) { RepairMarks(p.1); }
    }
  }

  /** Another query with the same parameters that denotes other bytes. */
  lemma Disguise(q: Bytes) returns (q2: Bytes)
    requires !FreeOfReplacement(DecodedPairs(q))
    ensures Normalize(DecodedPairs(q2)) == Normalize(DecodedPairs(q))
    ensures multiset(BytePairs(q2)) != multiset(BytePairs(q))
  {
    DecodedIsText(q);
    if AllText(BytePairs(q)) {
      assert BytePairs(q) == DecodedPairs(q);
      q2 := DisguiseText(DecodedPairs(q));
    } else {
      q2 := Normalize(DecodedPairs(q));
      SameParameters(DecodedPairs(q), DecodedPairs(q));
      NotText(BytePairs(q), DecodedPairs(q));
    }
  }

  lemma DisguiseText(texts: seq<Pair>) returns (q2: Bytes)
    requires !FreeOfReplacement(texts) && AllText(texts) && Map(texts, RepairPair) == texts
    ensures Normalize(DecodedPairs(q2)) == Normalize(texts) && multiset(BytePairs(q2)) != multiset(texts)
  {
    var k, p := SpoilOne(texts);
    var spoiled := texts[k := p];
    q2 := Normalize(spoiled);
    RepairSpoiled(texts, k, p);
    SameParameters(texts, spoiled);
    assert spoiled[k] == p;
    NotText(spoiled, texts);
  }

  lemma RepairSpoiled(texts: seq<Pair>, k: nat, p: Pair)
    requires k < |texts| && Map(texts, RepairPair) == texts && RepairPair(p) == texts[k]
    ensures Map(texts[k := p], RepairPair) == texts
  {
    forall i | 0 <= i < |texts| ensures RepairPair(texts[k := p][i]) == texts[i] {
      assert Map(texts, RepairPair)[i] == texts[i];
    }
  }

  lemma NotText(some: seq<Pair>, texts: seq<Pair>)
    requires !AllText(some) && AllText(texts)
    ensures multiset(some) != multiset(texts)
  {
    var k :| 0 <= k < |some| && !IsText(some[k]);
    assert some[k] in multiset(some) && some[k] !in multiset(texts);
  }

  lemma SameParameters(texts: seq<Pair>, pairs: seq<Pair>)
    requires Map(pairs, RepairPair) == texts
    ensures Normalize(DecodedPairs(Normalize(pairs))) == Normalize(texts)
    ensures multiset(BytePairs(Normalize(pairs))) == multiset(pairs)
  {
    ReadNormalized(pairs);
    NormalizeIdentifiesParameters(DecodedPairs(Normalize(pairs)), texts);
  }

  lemma SpoilOne(texts: seq<Pair>) returns (k: nat, p: Pair)
    requires !FreeOfReplacement(texts) && AllText(texts)
    ensures k < |texts| && !IsText(p) && RepairPair(p) == texts[k]
  {
    k :| 0 <= k < |texts| && (HasReplacement(texts[k].0) || HasReplacement(texts[k].1));
    var t := texts[k];
    assert IsText(t);
    RepairFixes(t.0);
    RepairFixes(t.1);
    if HasReplacement(t.0) {
      var i: nat :| i < |t.0| && ReplacementAt(t.0, i);
      SpoilRepairs(t.0, i);
      p := (Spoil(t.0, i), t.1);
    } else {
      var i: nat :| i < |t.1| && ReplacementAt(t.1, i);
      SpoilRepairs(t.1, i);
      p := (t.0, Spoil(t.1, i));
    }
  }

  const S3: Bytes := [115, 51]

  function EncodeSegment(segment: Bytes, double: bool): Bytes {
    if double then UriEncode(UriEncode(segment)) else UriEncode(segment)
  }

  /** `canonical_uri` */
  function CanonicalUri(path: Bytes, service: Bytes): Bytes {
    if path == [] then [SLASH]
    else Join(Map(Split(path, SLASH), segment => EncodeSegment(segment, service != S3)), SLASH)
  }

  /** The canonical path identifies the path, except that the empty path is signed as `/`. */
  lemma CanonicalUriIdentifiesPath(p1: Bytes, p2: Bytes, service: Bytes)
    ensures CanonicalUri(p1, service) == CanonicalUri(p2, service) <==> p1 == p2 || {p1, p2} == {[], [SLASH]}
  {
    var q1, q2 := if p1 == [] then [SLASH] else p1, if p2 == [] then [SLASH] else p2;
    SlashPath(service);
    CanonicalUriInjective(q1, q2, service);
  }

  lemma SlashPath(service: Bytes)
    ensures CanonicalUri([SLASH], service) == [SLASH]
  {
    assert Split([SLASH], SLASH) == [[], []] by { assert [SLASH][1..] == []; }
    var segments := Map(Split([SLASH], SLASH), segment => EncodeSegment(segment, service != S3));
    assert segments == [[], []];
  }

  lemma CanonicalUriInjective(p1: Bytes, p2: Bytes, service: Bytes)
    requires p1 != [] && p2 != []
    ensures CanonicalUri(p1, service) == CanonicalUri(p2, service) ==> p1 == p2
  {
    var f := segment => EncodeSegment(segment, service != S3);
    var s1, s2 := Split(p1, SLASH), Split(p2, SLASH);
    EncodedSegments(s1, service != S3);
    EncodedSegments(s2, service != S3);
    SplitJoin(Map(s1, f), SLASH);
    SplitJoin(Map(s2, f), SLASH);
    if CanonicalUri(p1, service) == CanonicalUri(p2, service) {
      assert Map(s1, f) == Map(s2, f);
      forall i | 0 <= i < |s1| ensures s1[i] == s2[i] {
        assert f(s1[i]) == Map(s1, f)[i] == Map(s2, f)[i] == f(s2[i]);
        UriEncodeInjective(s1[i], s2[i]);
        UriEncodeInjective(UriEncode(s1[i]), UriEncode(s2[i]));
      }
      assert s1 == s2;
    }
  }

  /** The canonical path, segment by segment: encoded once for S3, twice for every other service. */
  lemma CanonicalUriReads(path: Bytes, service: Bytes)
    ensures var segments := if path == [] then [[], []] else Split(path, SLASH);
            var pieces := Split(CanonicalUri(path, service), SLASH);
            && |pieces| == |segments|
            && forall i :: 0 <= i < |pieces| ==>
                 pieces[i] == if service == Ascii("s3") then UriEncode(segments[i])
                              else UriEncode(UriEncode(segments[i]))
  {
    assert S3 == Ascii("s3");
    if path == [] {
      assert Split([SLASH], SLASH) == [[], []] by { assert [SLASH][1..] == []; }
    } else {
      EncodedSegments(Split(path, SLASH), service != S3);
      SplitJoin(Map(Split(path, SLASH), segment => EncodeSegment(segment, service != S3)), SLASH);
    }
  }

  lemma EncodedSegments(segments: seq<Bytes>, double: bool)
    ensures forall i :: 0 <= i < |segments| ==> SLASH !in EncodeSegment(segments[i], double)
  {
    forall i | 0 <= i < |segments| ensures SLASH !in EncodeSegment(segments[i], double) {
      EncodedAlphabet(segments[i]);
      EncodedAlphabet(UriEncode(segments[i]));
    }
  }

  // ---- OAuth 1.0 ----

  datatype OAuth1Request = OAuth1Request(
    httpMethod: Bytes, baseUrl: Bytes, query: Bytes, consumerKey: Bytes, consumerSecret: Bytes,
    token: Bytes, tokenSecret: Bytes, methodLabel: Bytes, callback: Bytes, verifier: Bytes,
    timestamp: Bytes, version: Bytes)

  /** The parameter names `oauth_...`, and the default version. */
  datatype Names = Names(
    consumerKey: Bytes, nonce: Bytes, signatureMethod: Bytes, timestamp: Bytes, version: Bytes,
    token: Bytes, callback: Bytes, verifier: Bytes, defaultVersion: Bytes)

  function OAuthNames(): Names {
    Names(Ascii("oauth_consumer_key"), Ascii("oauth_nonce"), Ascii("oauth_signature_method"),
          Ascii("oauth_timestamp"), Ascii("oauth_version"), Ascii("oauth_token"), Ascii("oauth_callback"),
          Ascii("oauth_verifier"), Ascii("1.0"))
  }

  function OptionalParam(name: Bytes, value: Bytes): seq<Pair> {
    if value == [] then [] else [(name, value)]
  }

  /** The protocol parameters that join the base string; `now` is the current time in seconds, as text. */
  function ProtocolParams(n: Names, req: OAuth1Request, nonce: Bytes, now: Bytes): seq<Pair> {
    [(n.consumerKey, req.consumerKey), (n.nonce, nonce), (n.signatureMethod, req.methodLabel),
     (n.timestamp, if req.timestamp == [] then now else req.timestamp),
     (n.version, if req.version == [] then n.defaultVersion else req.version)]
    + OptionalParam(n.token, req.token) + OptionalParam(n.callback, req.callback)
    + OptionalParam(n.verifier, req.verifier)
  }

  /** All decoded parameters that get signed. */
  function SignedParams(req: OAuth1Request, nonce: Bytes, now: Bytes): seq<Pair> {
    DecodedPairs(req.query) + ProtocolParams(OAuthNames(), req, nonce, now)
  }

  function BaseStringFor(httpMethod: Bytes, baseUrl: Bytes, params: seq<Pair>): Bytes {
    httpMethod + [AMP] + UriEncode(baseUrl) + [AMP] + UriEncode(Normalize(params))
  }

  function SigningKeyFor(consumerSecret: Bytes, tokenSecret: Bytes): Bytes {
    UriEncode(consumerSecret) + [AMP] + UriEncode(tokenSecret)
  }

  /** Method, URL and parameters, in this order, the last two percent-encoded, between ampersands. */
  ghost predicate ReadsAsBaseString(s: Bytes, httpMethod: Bytes, url: Bytes, params: Bytes) {
    exists rest :: s == httpMethod + [AMP] + rest && Split(rest, AMP) == [UriEncode(url), UriEncode(params)]
  }

  lemma BaseStringReads(httpMethod: Bytes, url: Bytes, params: seq<Pair>)
    ensures ReadsAsBaseString(BaseStringFor(httpMethod, url, params), httpMethod, url, Normalize(params))
  {
    var rest := UriEncode(url) + [AMP] + UriEncode(Normalize(params));
    TwoParts(url, Normalize(params));
    assert BaseStringFor(httpMethod, url, params) == httpMethod + [AMP] + rest;
  }

  lemma TwoParts(a: Bytes, b: Bytes)
    ensures Split(UriEncode(a) + [AMP] + UriEncode(b), AMP) == [UriEncode(a), UriEncode(b)]
  {
    EncodedAlphabet(a);
    EncodedAlphabet(b);
    SplitJoin([UriEncode(a), UriEncode(b)], AMP);
  }

  /** What gets signed: the query's parameters and the protocol's, under their names. */
  ghost predicate SignsWith(baseString: Bytes, signingKey: Bytes, req: OAuth1Request, nonce: Bytes, now: Bytes) {
    && Split(signingKey, AMP) == [UriEncode(req.consumerSecret), UriEncode(req.tokenSecret)]
    && exists params, protocol ::
         && ReadsAsBaseString(baseString, req.httpMethod, req.baseUrl, params)
         && ListsAscending(params, DecodedPairs(req.query) + protocol)
         && SaysProtocol(protocol, req, nonce, now)
  }

  /** The protocol parameters, each at most once: five always, three when they have a value. */
  ghost predicate SaysProtocol(protocol: seq<Pair>, req: OAuth1Request, nonce: Bytes, now: Bytes) {
    forall p :: multiset(protocol)[p] ==
      if || p == (Ascii("oauth_consumer_key"), req.consumerKey)
         || p == (Ascii("oauth_nonce"), nonce)
         || p == (Ascii("oauth_signature_method"), req.methodLabel)
         || p == (Ascii("oauth_timestamp"), if req.timestamp == [] then now else req.timestamp)
         || p == (Ascii("oauth_version"), if req.version == [] then Ascii("1.0") else req.version)
         || (p == (Ascii("oauth_token"), req.token) && req.token != [])
         || (p == (Ascii("oauth_callback"), req.callback) && req.callback != [])
         || (p == (Ascii("oauth_verifier"), req.verifier) && req.verifier != [])
      then 1 else 0
  }

  lemma SaysWhatIsSent(req: OAuth1Request, nonce: Bytes, now: Bytes)
    ensures SaysProtocol(ProtocolParams(OAuthNames(), req, nonce, now), req, nonce, now)
  {
    var n := OAuthNames();
    OAuthNamesDiffer();
    forall p ensures multiset(ProtocolParams(n, req, nonce, now))[p]
                  == if Sends(n, ProtocolOf(n, req, nonce, now), p) then 1 else 0
    {
      SentOnce(n, req, nonce, now, p);
    }
  }

  lemma SentOnce(n: Names, req: OAuth1Request, nonce: Bytes, now: Bytes, p: Pair)
    requires NamesDiffer(n)
    ensures multiset(ProtocolParams(n, req, nonce, now))[p]
         == if Sends(n, ProtocolOf(n, req, nonce, now), p) then 1 else 0
  {
    NameOnce(n, req, nonce, now);
    ProtocolParamsAre(n, req, nonce, now, p);
    DistinctOnce(ProtocolParams(n, req, nonce, now), p);
  }

  lemma NameOnce(n: Names, req: OAuth1Request, nonce: Bytes, now: Bytes)
    requires NamesDiffer(n)
    ensures NoDuplicates(ProtocolParams(n, req, nonce, now))
  {
    var names := [n.consumerKey, n.nonce, n.signatureMethod, n.timestamp, n.version, n.token, n.callback, n.verifier];
    assert names[0] == n.consumerKey && names[1] == n.nonce && names[2] == n.signatureMethod && names[3] == n.timestamp;
    assert names[4] == n.version && names[5] == n.token && names[6] == n.callback && names[7] == n.verifier;
  }

  lemma {:induction false} DistinctOnce(s: seq<Pair>, p: Pair)
    requires NoDuplicates(s)
    ensures multiset(s)[p] == if p in s then 1 else 0
  {
    if s != [] {
      DistinctOnce(s[1..], p);
      assert s == [s[0]] + s[1..];
    }
  }

  /** The part of `sign` before the opaque signature: base string and key. */
  method SigningInput(req: OAuth1Request, nonce: Bytes, now: Bytes) returns (baseString: Bytes, signingKey: Bytes)
    ensures baseString == BaseStringFor(req.httpMethod, req.baseUrl, SignedParams(req, nonce, now))
    ensures signingKey == SigningKeyFor(req.consumerSecret, req.tokenSecret)
    ensures SignsWith(baseString, signingKey, req, nonce, now)
  {
    var oauth := CollectProtocolParams(OAuthNames(), req, nonce, now);
    var normalized := NormalizedParams(req.query, oauth);
    baseString := req.httpMethod + [AMP] + UriEncode(req.baseUrl) + [AMP] + UriEncode(normalized);
    signingKey := UriEncode(req.consumerSecret) + [AMP] + UriEncode(req.tokenSecret);
    BaseStringReads(req.httpMethod, req.baseUrl, SignedParams(req, nonce, now));
    TwoParts(req.consumerSecret, req.tokenSecret);
    SaysWhatIsSent(req, nonce, now);
  }

  /** Query and protocol parameters, encoded, sorted in place, joined. */
  method NormalizedParams(query: Bytes, oauth: seq<Pair>) returns (normalized: Bytes)
    ensures normalized == Normalize(DecodedPairs(query) + oauth)
    ensures ListsAscending(normalized, DecodedPairs(query) + oauth)
  {
    NormalizeListsAscending(DecodedPairs(query) + oauth);
    var params := Map(RawPairs(query), p => EncodePair(DecodePair(p)));
    params := params + Map(oauth, EncodePair);
    EncodeAll(RawPairs(query), oauth);
    params := SortBy(params, PairLeq);
    normalized := JoinPairs(params);
  }

  method CollectProtocolParams(n: Names, req: OAuth1Request, nonce: Bytes, now: Bytes) returns (oauth: seq<Pair>)
    ensures oauth == ProtocolParams(n, req, nonce, now)
  {
    var timestamp := if req.timestamp == [] then now else req.timestamp;
    var version := if req.version == [] then n.defaultVersion else req.version;
    oauth := [(n.consumerKey, req.consumerKey), (n.nonce, nonce), (n.signatureMethod, req.methodLabel),
              (n.timestamp, timestamp), (n.version, version)];
    if req.token != [] {
      oauth := oauth + [(n.token, req.token)];
    }
    if req.callback != [] {
      oauth := oauth + [(n.callback, req.callback)];
    }
    if req.verifier != [] {
      oauth := oauth + [(n.verifier, req.verifier)];
    }
  }

  /** The eight names differ. */
  predicate NamesDiffer(n: Names) {
    NoDuplicates([n.consumerKey, n.nonce, n.signatureMethod, n.timestamp, n.version, n.token, n.callback, n.verifier])
  }

  lemma OAuthNamesDiffer()
    ensures NamesDiffer(OAuthNames())
  {
    var n := OAuthNames();
    assert |n.consumerKey| == 18 && |n.nonce| == 11 && |n.signatureMethod| == 22 && |n.timestamp| == 15;
    assert |n.version| == 13 && |n.token| == 11 && |n.callback| == 14 && |n.verifier| == 14;
    assert n.nonce[6] == 110 && n.token[6] == 116 && n.callback[6] == 99 && n.verifier[6] == 118;
  }

  /** What the protocol parameters of a request say. */
  datatype Protocol = Protocol(
    consumerKey: Bytes, nonce: Bytes, methodLabel: Bytes, timestamp: Bytes, version: Bytes,
    token: Bytes, callback: Bytes, verifier: Bytes)

  function ProtocolOf(n: Names, req: OAuth1Request, nonce: Bytes, now: Bytes): Protocol {
    Protocol(req.consumerKey, nonce, req.methodLabel, if req.timestamp == [] then now else req.timestamp,
             if req.version == [] then n.defaultVersion else req.version, req.token, req.callback, req.verifier)
  }

  /** A request that says `r` sends this parameter. */
  predicate Sends(n: Names, r: Protocol, p: Pair) {
    || p == (n.consumerKey, r.consumerKey) || p == (n.nonce, r.nonce) || p == (n.signatureMethod, r.methodLabel)
    || p == (n.timestamp, r.timestamp) || p == (n.version, r.version)
    || (r.token != [] && p == (n.token, r.token)) || (r.callback != [] && p == (n.callback, r.callback))
    || (r.verifier != [] && p == (n.verifier, r.verifier))
  }

  lemma ProtocolParamsAre(n: Names, req: OAuth1Request, nonce: Bytes, now: Bytes, p: Pair)
    ensures p in multiset(ProtocolParams(n, req, nonce, now)) <==> Sends(n, ProtocolOf(n, req, nonce, now), p)
  {
  }

  /** Distinct names keep the values apart. */
  lemma SendsByName(n: Names, r: Protocol, v: Bytes)
    requires NamesDiffer(n)
    ensures Sends(n, r, (n.consumerKey, v)) <==> v == r.consumerKey
    ensures Sends(n, r, (n.nonce, v)) <==> v == r.nonce
    ensures Sends(n, r, (n.signatureMethod, v)) <==> v == r.methodLabel
    ensures Sends(n, r, (n.timestamp, v)) <==> v == r.timestamp
    ensures Sends(n, r, (n.version, v)) <==> v == r.version
    ensures Sends(n, r, (n.token, v)) <==> v == r.token != []
    ensures Sends(n, r, (n.callback, v)) <==> v == r.callback != []
    ensures Sends(n, r, (n.verifier, v)) <==> v == r.verifier != []
  {
    var names := [n.consumerKey, n.nonce, n.signatureMethod, n.timestamp, n.version, n.token, n.callback, n.verifier];
    assert names[0] == n.consumerKey && names[1] == n.nonce && names[2] == n.signatureMethod && names[3] == n.timestamp;
    assert names[4] == n.version && names[5] == n.token && names[6] == n.callback && names[7] == n.verifier;
  }

  lemma SameSends(n: Names, r: Protocol, s: Protocol)
    requires NamesDiffer(n) && forall p :: Sends(n, r, p) <==> Sends(n, s, p)
    ensures r == s
  {
    SendsByName(n, s, r.consumerKey);
    SendsByName(n, s, r.nonce);
    SendsByName(n, s, r.methodLabel);
    SendsByName(n, s, r.timestamp);
    SendsByName(n, s, r.version);
    SameOptional(n, r, s, r.token);
    SameOptional(n, r, s, s.token);
    SameOptional(n, r, s, r.callback);
    SameOptional(n, r, s, s.callback);
    SameOptional(n, r, s, r.verifier);
    SameOptional(n, r, s, s.verifier);
  }

  lemma SameOptional(n: Names, r: Protocol, s: Protocol, v: Bytes)
    requires NamesDiffer(n) && forall p :: Sends(n, r, p) <==> Sends(n, s, p)
    ensures v != [] ==> (v == r.token <==> v == s.token)
    ensures v != [] ==> (v == r.callback <==> v == s.callback)
    ensures v != [] ==> (v == r.verifier <==> v == s.verifier)
  {
    SendsByName(n, r, v);
    SendsByName(n, s, v);
  }

  /** The protocol parameters identify what they say: two requests send the same ones if and only if key, nonce,
      method label, timestamp and version after defaults, token, callback and verifier agree. */
  lemma ProtocolParamsIdentify(req1: OAuth1Request, nonce1: Bytes, now1: Bytes, req2: OAuth1Request, nonce2: Bytes,
                               now2: Bytes)
    ensures multiset(ProtocolParams(OAuthNames(), req1, nonce1, now1))
        == multiset(ProtocolParams(OAuthNames(), req2, nonce2, now2))
       <==> ProtocolOf(OAuthNames(), req1, nonce1, now1) == ProtocolOf(OAuthNames(), req2, nonce2, now2)
  {
    var n := OAuthNames();
    if multiset(ProtocolParams(n, req1, nonce1, now1)) == multiset(ProtocolParams(n, req2, nonce2, now2)) {
      OAuthNamesDiffer();
      forall p
        ensures Sends(n, ProtocolOf(n, req1, nonce1, now1), p) <==> Sends(n, ProtocolOf(n, req2, nonce2, now2), p)
      {
        ProtocolParamsAre(n, req1, nonce1, now1, p);
        ProtocolParamsAre(n, req2, nonce2, now2, p);
      }
      SameSends(n, ProtocolOf(n, req1, nonce1, now1), ProtocolOf(n, req2, nonce2, now2));
    }
  }

  /** A key that is also the name of a protocol parameter. */
  predicate Reserved(n: Names, key: Bytes) {
    key in [n.consumerKey, n.nonce, n.signatureMethod, n.timestamp, n.version, n.token, n.callback, n.verifier]
  }

  /** The two queries carry the same parameters under reserved keys; so they do when they carry none. */
  ghost predicate SameReserved(q1: Bytes, q2: Bytes) {
    forall p: Pair :: Reserved(OAuthNames(), p.0) ==> multiset(DecodedPairs(q1))[p] == multiset(DecodedPairs(q2))[p]
  }

  predicate NoneReserved(q: Bytes) {
    forall i :: 0 <= i < |DecodedPairs(q)| ==> !Reserved(OAuthNames(), DecodedPairs(q)[i].0)
  }

  lemma NoneReservedIsSame(q1: Bytes, q2: Bytes)
    requires NoneReserved(q1) && NoneReserved(q2)
    ensures SameReserved(q1, q2)
  {
    forall p: Pair | Reserved(OAuthNames(), p.0)
      ensures multiset(DecodedPairs(q1))[p] == multiset(DecodedPairs(q2))[p] {
      assert p !in DecodedPairs(q1) && p !in DecodedPairs(q2);
    }
  }

  ghost predicate SameBaseString(req1: OAuth1Request, nonce1: Bytes, now1: Bytes, req2: OAuth1Request, nonce2: Bytes,
                                 now2: Bytes)
  {
    BaseStringFor(req1.httpMethod, req1.baseUrl, SignedParams(req1, nonce1, now1))
    == BaseStringFor(req2.httpMethod, req2.baseUrl, SignedParams(req2, nonce2, now2))
  }

  /** Method, URL, query parameters and everything the protocol parameters say agree. */
  ghost predicate SameSigned(req1: OAuth1Request, nonce1: Bytes, now1: Bytes, req2: OAuth1Request, nonce2: Bytes,
                             now2: Bytes)
  {
    && req1.httpMethod == req2.httpMethod && req1.baseUrl == req2.baseUrl
    && multiset(DecodedPairs(req1.query)) == multiset(DecodedPairs(req2.query))
    && ProtocolOf(OAuthNames(), req1, nonce1, now1) == ProtocolOf(OAuthNames(), req2, nonce2, now2)
  }

  /** What a signature covers: a shared base string means the same method, URL, query parameters and protocol
      values exactly when the queries agree on reserved keys, as they do when neither has one. */
  lemma BaseStringCoversProtocol(req1: OAuth1Request, nonce1: Bytes, now1: Bytes, req2: OAuth1Request, nonce2: Bytes,
                                 now2: Bytes)
    ensures SameBaseString(req1, nonce1, now1, req2, nonce2, now2) && SameReserved(req1.query, req2.query)
       <==> SameSigned(req1, nonce1, now1, req2, nonce2, now2)
    ensures NoneReserved(req1.query) && NoneReserved(req2.query) ==>
              (SameBaseString(req1, nonce1, now1, req2, nonce2, now2)
               <==> SameSigned(req1, nonce1, now1, req2, nonce2, now2))
  {
    BaseStringIdentifiesRequest(req1.httpMethod, req1.baseUrl, SignedParams(req1, nonce1, now1),
                                req2.httpMethod, req2.baseUrl, SignedParams(req2, nonce2, now2));
    ProtocolParamsIdentify(req1, nonce1, now1, req2, nonce2, now2);
    SignedApart(req1, nonce1, now1, req2, nonce2, now2);
    if NoneReserved(req1.query) && NoneReserved(req2.query) { NoneReservedIsSame(req1.query, req2.query); }
  }

  /** Reserved keys tell query and protocol parameters apart. */
  lemma SignedApart(req1: OAuth1Request, nonce1: Bytes, now1: Bytes, req2: OAuth1Request, nonce2: Bytes, now2: Bytes)
    ensures multiset(SignedParams(req1, nonce1, now1)) == multiset(SignedParams(req2, nonce2, now2))
            && SameReserved(req1.query, req2.query)
       <==> multiset(DecodedPairs(req1.query)) == multiset(DecodedPairs(req2.query))
            && multiset(ProtocolParams(OAuthNames(), req1, nonce1, now1))
               == multiset(ProtocolParams(OAuthNames(), req2, nonce2, now2))
  {
    forall p: Pair | !Reserved(OAuthNames(), p.0)
      ensures multiset(ProtocolParams(OAuthNames(), req1, nonce1, now1))[p] == 0
      ensures multiset(ProtocolParams(OAuthNames(), req2, nonce2, now2))[p] == 0
    {
      ProtocolIsReserved(OAuthNames(), req1, nonce1, now1, p);
      ProtocolIsReserved(OAuthNames(), req2, nonce2, now2, p);
    }
    ApartByKey(DecodedPairs(req1.query), ProtocolParams(OAuthNames(), req1, nonce1, now1),
               DecodedPairs(req2.query), ProtocolParams(OAuthNames(), req2, nonce2, now2),
               (p: Pair) => Reserved(OAuthNames(), p.0));
  }

  lemma ProtocolIsReserved(n: Names, req: OAuth1Request, nonce: Bytes, now: Bytes, p: Pair)
    requires !Reserved(n, p.0)
    ensures multiset(ProtocolParams(n, req, nonce, now))[p] == 0
  {
    ProtocolParamsAre(n, req, nonce, now, p);
  }

  /** Two sums agree part by part when their first parts agree wherever the second parts may be. */
  lemma ApartByKey(a1: seq<Pair>, b1: seq<Pair>, a2: seq<Pair>, b2: seq<Pair>, key: Pair -> bool)
    requires forall p :: !key(p) ==> multiset(b1)[p] == 0 && multiset(b2)[p] == 0
    ensures multiset(a1 + b1) == multiset(a2 + b2) && (forall p :: key(p) ==> multiset(a1)[p] == multiset(a2)[p])
       <==> multiset(a1) == multiset(a2) && multiset(b1) == multiset(b2)
  {
    assert multiset(a1 + b1) == multiset(a1) + multiset(b1) && multiset(a2 + b2) == multiset(a2) + multiset(b2);
    if multiset(a1 + b1) == multiset(a2 + b2) && forall p :: key(p) ==> multiset(a1)[p] == multiset(a2)[p] {
      forall p ensures multiset(a1)[p] == multiset(a2)[p] && multiset(b1)[p] == multiset(b2)[p] {
        assert multiset(a1 + b1)[p] == multiset(a1)[p] + multiset(b1)[p];
        assert multiset(a2 + b2)[p] == multiset(a2)[p] + multiset(b2)[p];
      }
    }
  }

  /** A token in the query and the same token as a protocol parameter are signed alike. */
  lemma TokenInQueryCollides(req: OAuth1Request, nonce: Bytes, now: Bytes)
    requires req.query == Ascii("oauth_token=t") && req.token == []
    ensures var req2 := req.(query := [], token := Ascii("t"));
            && SameBaseString(req, nonce, now, req2, nonce, now)
            && ProtocolOf(OAuthNames(), req, nonce, now) != ProtocolOf(OAuthNames(), req2, nonce, now)
  {
    var req2 := req.(query := [], token := Ascii("t"));
    var n := OAuthNames();
    TokenQuery();
    EmptyQuery();
    MovedAcross((n.token, Ascii("t")), ProtocolParams(n, req, nonce, now)[..5], OptionalParam(n.callback, req.callback)
                + OptionalParam(n.verifier, req.verifier));
    TokenAdded(n, req, Ascii("t"), nonce, now);
    BaseStringIdentifiesRequest(req.httpMethod, req.baseUrl, SignedParams(req, nonce, now),
                                req.httpMethod, req.baseUrl, SignedParams(req2, nonce, now));
  }

  lemma TokenAdded(n: Names, req: OAuth1Request, token: Bytes, nonce: Bytes, now: Bytes)
    requires req.token == [] && token != []
    ensures var head := ProtocolParams(n, req, nonce, now)[..5];
            var tail := OptionalParam(n.callback, req.callback) + OptionalParam(n.verifier, req.verifier);
            && ProtocolParams(n, req, nonce, now) == head + tail
            && ProtocolParams(n, req.(query := [], token := token), nonce, now) == head + [(n.token, token)] + tail
  {
  }

  lemma MovedAcross(p: Pair, head: seq<Pair>, tail: seq<Pair>)
    ensures multiset([p] + (head + tail)) == multiset([] + (head + [p] + tail))
  {
    assert [] + (head + [p] + tail) == head + [p] + tail;
  }

  predicate Plain(s: Bytes) { AllAscii(s) && forall b :: b in s ==> IsUnreserved(b) }

  lemma PlainText(s: Bytes)
    requires Plain(s)
    ensures PercentDecode(s) == s
  {
    UnreservedUnchanged(s);
    AsciiIsValid(s);
    DecodeEncode(s);
  }

  lemma EmptyQuery()
    ensures DecodedPairs([]) == []
  {
    assert Split([], AMP) == [[]];
    FilterNone([[]], NonEmpty);
  }

  lemma TokenWritten()
    ensures Ascii("oauth_token=t") == Ascii("oauth_token") + [EQUALS] + Ascii("t")
    ensures Plain(Ascii("oauth_token")) && Plain(Ascii("t"))
  {
    var name: Bytes := [111, 97, 117, 116, 104, 95, 116, 111, 107, 101, 110];
    var t: Bytes := [116];
    assert Ascii("oauth_token") == name && Ascii("t") == t;
    assert Ascii("oauth_token=t") == name + [EQUALS] + t;
  }

  lemma PlainQuery(name: Bytes, value: Bytes)
    requires Plain(name) && Plain(value)
    ensures DecodedPairs(name + [EQUALS] + value) == [(name, value)]
  {
    OnePiece(name, value);
    PlainText(name);
    PlainText(value);
  }

  lemma TokenQuery()
    ensures DecodedPairs(Ascii("oauth_token=t")) == [(Ascii("oauth_token"), Ascii("t"))]
  {
    TokenWritten();
    PlainQuery(Ascii("oauth_token"), Ascii("t"));
  }

  /** The last separator determines both sides. */
  lemma {:induction false} LastSeparator(a: Bytes, b: Bytes, a': Bytes, b': Bytes)
    requires AMP !in b && AMP !in b'
    requires a + [AMP] + b == a' + [AMP] + b'
    ensures a == a' && b == b'
  {
    var s := a + [AMP] + b;
    assert s[|a|] == AMP && s[|a'|] == AMP;
    assert |a| == |a'|;
    assert a == s[..|a|] && a' == s[..|a'|] && b == s[|a| + 1..] && b' == s[|a'| + 1..];
  }

  /** The base string identifies method, base URL and the multiset of decoded parameters, for every
      method text: the two encoded parts hold no `&`, so it can be read from the right. */
  lemma BaseStringIdentifiesRequest(m1: Bytes, u1: Bytes, p1: seq<Pair>, m2: Bytes, u2: Bytes, p2: seq<Pair>)
    ensures BaseStringFor(m1, u1, p1) == BaseStringFor(m2, u2, p2)
       <==> m1 == m2 && u1 == u2 && multiset(p1) == multiset(p2)
  {
    NormalizeIdentifiesParameters(p1, p2);
    if BaseStringFor(m1, u1, p1) == BaseStringFor(m2, u2, p2) {
      EncodedAlphabet(u1);
      EncodedAlphabet(u2);
      EncodedAlphabet(Normalize(p1));
      EncodedAlphabet(Normalize(p2));
      LastSeparator(m1 + [AMP] + UriEncode(u1), UriEncode(Normalize(p1)),
                    m2 + [AMP] + UriEncode(u2), UriEncode(Normalize(p2)));
      LastSeparator(m1, UriEncode(u1), m2, UriEncode(u2));
      UriEncodeInjective(u1, u2);
      UriEncodeInjective(Normalize(p1), Normalize(p2));
    }
  }

  /** The signing key identifies both secrets. */
  lemma SigningKeyIdentifiesSecrets(c1: Bytes, t1: Bytes, c2: Bytes, t2: Bytes)
    ensures SigningKeyFor(c1, t1) == SigningKeyFor(c2, t2) <==> c1 == c2 && t1 == t2
  {
    if SigningKeyFor(c1, t1) == SigningKeyFor(c2, t2) {
      EncodedAlphabet(t1);
      EncodedAlphabet(t2);
      LastSeparator(UriEncode(c1), UriEncode(t1), UriEncode(c2), UriEncode(t2));
      UriEncodeInjective(c1, c2);
      UriEncodeInjective(t1, t2);
    }
  }
}
