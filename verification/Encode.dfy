/** Percent-encoding (crates/voleeo-auth/src/encode.rs), after sections 2.1 and 2.3 of RFC 3986. */
module Encode {
  import opened Text
  import opened Utf8

  predicate IsUnreserved(b: Byte) {
    65 <= b <= 90 || 97 <= b <= 122 || 48 <= b <= 57 || b in {45, 95, 46, 126}
  }

  type Nibble = n: int | 0 <= n < 16

  function HexUpper(n: Nibble): Byte {
    if n <= 9 then (48 + n) as Byte else (65 + n - 10) as Byte
  }

  function HexLow(n: Nibble): Byte {
    if n <= 9 then (48 + n) as Byte else (97 + n - 10) as Byte
  }

  function FromHex(b: Byte): Option<Nibble> {
    if 48 <= b <= 57 then Some(b as int - 48)
    else if 97 <= b <= 102 then Some(b as int - 97 + 10)
    else if 65 <= b <= 70 then Some(b as int - 65 + 10)
    else None
  }

  function FromNibbles(high: int, low: int): Byte
    requires 0 <= high < 16 && 0 <= low < 16
  {
    (high * 16 + low) as Byte
  }

  // ---- specification functions ----

  /** The encoding of one byte. */
  function EncodeByte(b: Byte): Bytes {
    if IsUnreserved(b) then [b] else [PERCENT, HexUpper(b as int / 16), HexUpper(b as int % 16)]
  }

  function UriEncode(s: Bytes): Bytes {
    if s == [] then [] else EncodeByte(s[0]) + UriEncode(s[1..])
  }

  predicate EscapeAt(s: Bytes, i: nat) {
    i + 2 < |s| && s[i] == PERCENT && FromHex(s[i + 1]).Some? && FromHex(s[i + 2]).Some?
  }

  /** The bytes that the escapes denote. */
  function Unescape(s: Bytes): Bytes {
    if s == [] then []
    else if EscapeAt(s, 0) then
      [FromNibbles(FromHex(s[1]).value, FromHex(s[2]).value)] + Unescape(s[3..])
    else [s[0]] + Unescape(s[1..])
  }

  /** `percent_decode`: the result is text, so ill-formed bytes are repaired. */
  function PercentDecode(s: Bytes): Bytes { Repair(Unescape(s)) }

  // ---- the loops ----

  lemma NextByte(s: Bytes, k: nat, out: Bytes)
    requires k < |s|
    ensures out + UriEncode(s[k..]) == out + EncodeByte(s[k]) + UriEncode(s[k + 1..])
  {
    assert s[k..][1..] == s[k + 1..];
  }

  method UriEncodeLoop(s: Bytes) returns (out: Bytes)
    ensures out == UriEncode(s)
  {
    out := [];
    for k := 0 to |s|
      invariant UriEncode(s) == out + UriEncode(s[k..])
    {
      var b := s[k];
      NextByte(s, k, out);
      ghost var before := out;
      if IsUnreserved(b) {
        out := out + [b];
      } else {
        out := out + [PERCENT];
        out := out + [HexUpper(b as int / 16)];
        out := out + [HexUpper(b as int % 16)];
      }
      assert out == before + EncodeByte(b);
    }
  }

  lemma NextEscape(s: Bytes, i: nat, out: Bytes)
    requires EscapeAt(s, i)
    ensures out + Unescape(s[i..])
        == out + [FromNibbles(FromHex(s[i + 1]).value, FromHex(s[i + 2]).value)] + Unescape(s[i + 3..])
  {
    assert EscapeAt(s[i..], 0) && s[i..][3..] == s[i + 3..];
  }

  lemma NextPlain(s: Bytes, i: nat, out: Bytes)
    requires i < |s| && !EscapeAt(s, i)
    ensures out + Unescape(s[i..]) == out + [s[i]] + Unescape(s[i + 1..])
  {
    assert !EscapeAt(s[i..], 0) && s[i..][1..] == s[i + 1..];
  }

  method PercentDecodeLoop(s: Bytes) returns (out: Bytes)
    ensures out == PercentDecode(s)
  {
    out := [];
    var i := 0;
    while i < |s|
      invariant 0 <= i <= |s|
      invariant Unescape(s) == out + Unescape(s[i..])
    {
      if s[i] == PERCENT && i + 2 < |s| {
        var h, l := FromHex(s[i + 1]), FromHex(s[i + 2]);
        if h.Some? && l.Some? {
          NextEscape(s, i, out);
          out := out + [FromNibbles(h.value, l.value)];
          i := i + 3;
          continue;
        }
      }
      NextPlain(s, i, out);
      out := out + [s[i]];
      i := i + 1;
    }
    assert s[i..] == [] && out + [] == out;
    out := Repair(out);
  }

  /** Every byte becomes its two lowercase hex digits, in order. */
  method HexLower(s: Bytes) returns (out: Bytes)
    ensures |out| == 2 * |s|
    ensures forall k :: 0 <= k < |s| ==>
        out[2 * k] == HexLow(s[k] as int / 16) && out[2 * k + 1] == HexLow(s[k] as int % 16)
  {
    out := [];
    for k := 0 to |s|
      invariant |out| == 2 * k
      invariant forall j :: 0 <= j < k ==>
          out[2 * j] == HexLow(s[j] as int / 16) && out[2 * j + 1] == HexLow(s[j] as int % 16)
    {
      out := out + [HexLow(s[k] as int / 16)];
      out := out + [HexLow(s[k] as int % 16)];
    }
  }

  // ---- what encoding promises ----

  lemma HexRoundTrip(n: Nibble)
    ensures FromHex(HexUpper(n)) == Some(n)
    ensures FromHex(HexLow(n)) == Some(n)
  {
  }

  predicate IsAlphanumeric(c: char) { 'A' <= c <= 'Z' || 'a' <= c <= 'z' || '0' <= c <= '9' }

  lemma UnreservedAre(b: Byte)
    ensures IsUnreserved(b) <==> IsAlphanumeric(b as char) || b as char in "-._~"
  {
    assert "-._~" == ['-', '.', '_', '~'];
  }

  /** Escapes are written with upper-case digits and read with either. */
  lemma HexDigits(n: Nibble, b: Byte)
    ensures HexUpper(n) == Ascii("0123456789ABCDEF")[n] && HexLow(n) == Ascii("0123456789abcdef")[n]
    ensures FromHex(b) == Some(n) <==> b == HexUpper(n) || b == HexLow(n)
  {
  }

  /** An unreserved byte stands for itself, any other is escaped. */
  lemma EncodeByteMeaning(b: Byte)
    ensures var digits := Ascii("0123456789ABCDEF");
            UriEncode([b]) == if IsAlphanumeric(b as char) || b as char in "-._~" then [b]
                              else [PERCENT, digits[b as int / 16], digits[b as int % 16]]
  {
    UnreservedAre(b);
    HexDigits(b as int / 16, b);
    HexDigits(b as int % 16, b);
    assert [b][1..] == [] && EncodeByte(b) + [] == EncodeByte(b);
  }

  lemma {:induction false} EncodeAppend(a: Bytes, b: Bytes)
    ensures UriEncode(a + b) == UriEncode(a) + UriEncode(b)
  {
    if a == [] {
      assert a + b == b;
    } else {
      EncodeAppend(a[1..], b);
      assert (a + b)[1..] == a[1..] + b && (a + b)[0] == a[0];
      Three(EncodeByte(a[0]), UriEncode(a[1..]), UriEncode(b));
    }
  }

  lemma Three(x: Bytes, y: Bytes, z: Bytes)
    ensures x + (y + z) == x + y + z
  {
  }

  // ---- what decoding reads ----

  /** A byte as a query may spell it: as it is, or escaped with digits in either case. */
  datatype Token = Plain(b: Byte) | Escaped(b: Byte, highUpper: bool, lowUpper: bool)

  function Digit(n: Nibble, upper: bool): Byte { if upper then HexUpper(n) else HexLow(n) }

  function SpellOne(t: Token): Bytes {
    match t
    case Plain(b) => [b]
    case Escaped(b, highUpper, lowUpper) => [PERCENT, Digit(b as int / 16, highUpper), Digit(b as int % 16, lowUpper)]
  }

  function Spell(ts: seq<Token>): Bytes { if ts == [] then [] else SpellOne(ts[0]) + Spell(ts[1..]) }

  function Spelled(ts: seq<Token>): Bytes { seq(|ts|, i requires 0 <= i < |ts| => ts[i].b) }

  /** Every byte is read as it is spelled; in particular a plus sign stays one. */
  lemma {:induction false} UnescapeReads(ts: seq<Token>)
    requires forall i :: 0 <= i < |ts| && ts[i].Plain? ==> ts[i].b != PERCENT
    ensures Unescape(Spell(ts)) == Spelled(ts)
  {
    if ts != [] {
      UnescapeReads(ts[1..]);
      UnescapeOne(ts[0], Spell(ts[1..]));
      assert Spelled(ts) == [ts[0].b] + Spelled(ts[1..]);
    }
  }

  lemma UnescapeOne(t: Token, rest: Bytes)
    requires t.Plain? ==> t.b != PERCENT
    ensures Unescape(SpellOne(t) + rest) == [t.b] + Unescape(rest)
  {
    var s := SpellOne(t) + rest;
    if t.Plain? {
      assert s[1..] == rest;
    } else {
      HexDigits(t.b as int / 16, s[1]);
      HexDigits(t.b as int % 16, s[2]);
      assert s[3..] == rest;
    }
  }

  /** A percent sign without two digits after it stays. */
  lemma StrayPercent(rest: Bytes)
    requires |rest| < 2 || FromHex(rest[0]).None? || FromHex(rest[1]).None?
    ensures Unescape([PERCENT] + rest) == [PERCENT] + Unescape(rest)
  {
    var s := [PERCENT] + rest;
    assert s[1..] == rest;
    assert |rest| >= 2 ==> s[1] == rest[0] && s[2] == rest[1];
  }

  /** The escapes denote the bytes that were encoded. */
  lemma {:induction false} UnescapeEncode(s: Bytes)
    ensures Unescape(UriEncode(s)) == s
  {
    if s != [] {
      var rest := UriEncode(s[1..]);
      var e := EncodeByte(s[0]) + rest;
      UnescapeEncode(s[1..]);
      if IsUnreserved(s[0]) {
        assert e[1..] == rest;
      } else {
        var hi, lo := s[0] as int / 16, s[0] as int % 16;
        HexRoundTrip(hi);
        HexRoundTrip(lo);
        assert e[1] == HexUpper(hi) && e[2] == HexUpper(lo);
        assert e[3..] == rest;
      }
    }
  }

  /** Decoding undoes encoding, exactly on text. */
  lemma DecodeEncode(s: Bytes)
    ensures PercentDecode(UriEncode(s)) == s <==> ValidUtf8(s)
  {
    UnescapeEncode(s);
    RepairFixes(s);
  }

  lemma UriEncodeInjective(a: Bytes, b: Bytes)
    ensures UriEncode(a) == UriEncode(b) <==> a == b
  {
    UnescapeEncode(a);
    UnescapeEncode(b);
  }

  /** The output alphabet: the unreserved set and `%`; so no `&`, `=` or `/` survives. */
  lemma {:induction false} EncodedAlphabet(s: Bytes)
    ensures forall b :: b in UriEncode(s) ==> IsUnreserved(b) || b == PERCENT
    ensures AMP !in UriEncode(s) && EQUALS !in UriEncode(s) && SLASH !in UriEncode(s) && LF !in UriEncode(s)
    ensures UriEncode(s) == [] <==> s == []
  {
    if s != [] { EncodedAlphabet(s[1..]); }
  }

  /** Unreserved text is its own encoding, and no other text is. */
  lemma {:induction false} UnreservedUnchanged(s: Bytes)
    ensures UriEncode(s) == s <==> forall b :: b in s ==> IsUnreserved(b)
  {
    if s != [] {
      UnreservedUnchanged(s[1..]);
      assert s == [s[0]] + s[1..];
      EncodeGrows(s[1..]);
      if !IsUnreserved(s[0]) { assert |UriEncode(s)| == 3 + |UriEncode(s[1..])| > |s|; assert s[0] in s; }
      else { assert UriEncode(s)[1..] == UriEncode(s[1..]); }
    }
  }

  lemma {:induction false} EncodeGrows(s: Bytes)
    ensures |s| <= |UriEncode(s)| <= 3 * |s|
  {
    if s != [] { EncodeGrows(s[1..]); }
  }
}
