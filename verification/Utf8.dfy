/** UTF-8 (section 3 of RFC 3629) and its repair by `String::from_utf8_lossy`: every maximal ill-formed piece
    becomes one U+FFFD. */
module Utf8 {
  import opened Text

  /** U+FFFD, the replacement character. */
  const REPLACEMENT: Bytes := [0xEF, 0xBF, 0xBD]

  predicate IsTail(b: Byte) { 0x80 <= b < 0xC0 }

  /** The byte at `i`, or 0 past the end. */
  function ByteAt(s: Bytes, i: nat): Byte { if i < |s| then s[i] else 0 }

  /** Which second bytes may follow the first byte of a long character. */
  predicate SecondFits(first: Byte, second: Byte) {
    if first == 0xE0 then 0xA0 <= second < 0xC0
    else if first == 0xED then 0x80 <= second < 0xA0
    else if first == 0xF0 then 0x90 <= second < 0xC0
    else if first == 0xF4 then 0x80 <= second < 0x90
    else IsTail(second)
  }

  /** Bytes in the character that starts with this byte; 0 for a byte that starts none. */
  function Width(first: Byte): nat {
    if first < 0x80 then 1
    else if 0xC2 <= first <= 0xDF then 2
    else if 0xE0 <= first <= 0xEF then 3
    else if 0xF0 <= first <= 0xF4 then 4
    else 0
  }

  /** How many bytes the first character of `s` takes, and whether it is well formed; an ill-formed one ends
      before the first byte that does not fit. */
  function Scan(s: Bytes): (r: (nat, bool))
    requires s != []
    ensures 1 <= r.0 <= |s|
  {
    var w := Width(s[0]);
    if w == 1 then (1, true)
    else if w == 0 || !SecondFits(s[0], ByteAt(s, 1)) then (1, false)
    else if w == 2 then (2, true)
    else if !IsTail(ByteAt(s, 2)) then (2, false)
    else if w == 3 then (3, true)
    else if !IsTail(ByteAt(s, 3)) then (3, false)
    else (4, true)
  }

  predicate ValidUtf8(s: Bytes) {
    s != [] ==> Scan(s).1 && ValidUtf8(s[Scan(s).0..])
  }

  function Repair(s: Bytes): Bytes {
    if s == [] then []
    else (if Scan(s).1 then s[..Scan(s).0] else REPLACEMENT) + Repair(s[Scan(s).0..])
  }

  // ---- one character ----

  /** A well-formed character is recognised by its own bytes. */
  lemma ScanLocal(c: Bytes, rest: Bytes)
    requires c != [] && Scan(c) == (|c|, true)
    ensures Scan(c + rest) == (|c|, true)
    ensures (c + rest)[..|c|] == c && (c + rest)[|c|..] == rest
  {
  }

  lemma ScanCharacter(s: Bytes)
    requires s != [] && Scan(s).1
    ensures var c := s[..Scan(s).0]; c != [] && Scan(c) == (|c|, true) && c + s[Scan(s).0..] == s
  {
  }

  /** No character, well formed or not, reaches across an ASCII byte. */
  lemma ScanStopsAtAscii(s: Bytes, a: Byte, rest: Bytes)
    requires s != [] && a < 0x80
    ensures Scan(s + [a] + rest) == Scan(s)
  {
    var t := s + [a] + rest;
    assert t[0] == s[0];
    assert forall i: nat :: i < |s| ==> ByteAt(t, i) == ByteAt(s, i);
    assert ByteAt(t, |s|) == a && ByteAt(s, |s|) == 0;
  }

  // ---- validity and repair ----

  lemma ValidCons(c: Bytes, rest: Bytes)
    requires c != [] && Scan(c) == (|c|, true)
    ensures ValidUtf8(c + rest) <==> ValidUtf8(rest)
    ensures Repair(c + rest) == c + Repair(rest)
  {
    ScanLocal(c, rest);
  }

  /** The repair keeps exactly the well-formed texts. */
  lemma {:induction false} RepairFixes(s: Bytes)
    ensures ValidUtf8(Repair(s))
    ensures Repair(s) == s <==> ValidUtf8(s)
  {
    if s != [] {
      var n := Scan(s).0;
      RepairFixes(s[n..]);
      if Scan(s).1 {
        ScanCharacter(s);
        ValidCons(s[..n], s[n..]);
        ValidCons(s[..n], Repair(s[n..]));
        assert Repair(s)[n..] == Repair(s[n..]);
      } else {
        ValidCons(REPLACEMENT, Repair(s[n..]));
        ReplacementIsNew(s, Repair(s[n..]));
      }
    }
  }

  lemma ReplacementIsNew(s: Bytes, rest: Bytes)
    requires s != [] && !Scan(s).1
    ensures REPLACEMENT + rest != s
  {
    ScanLocal(REPLACEMENT, rest);
  }

  /** An ASCII byte separates: what is before and after it is repaired, and well formed, on its own. */
  lemma {:induction false} AsciiSeparates(s: Bytes, a: Byte, rest: Bytes)
    requires a < 0x80
    ensures Repair(s + [a] + rest) == Repair(s) + [a] + Repair(rest)
    ensures ValidUtf8(s + [a] + rest) <==> ValidUtf8(s) && ValidUtf8(rest)
    decreases |s|
  {
    if s == [] {
      assert [] + [a] + rest == [a] + rest;
      ValidCons([a], rest);
    } else {
      ScanStopsAtAscii(s, a, rest);
      SplitEarlier(s, Scan(s).0, [a], rest);
      AsciiSeparates(s[Scan(s).0..], a, rest);
      PrependToThree(if Scan(s).1 then s[..Scan(s).0] else REPLACEMENT, Repair(s[Scan(s).0..]), [a], Repair(rest));
    }
  }

  lemma SplitEarlier(s: Bytes, n: nat, a: Bytes, rest: Bytes)
    requires n <= |s|
    ensures (s + a + rest)[..n] == s[..n] && (s + a + rest)[n..] == s[n..] + a + rest
  {
  }

  lemma PrependToThree(head: Bytes, x: Bytes, y: Bytes, z: Bytes)
    ensures head + (x + y + z) == head + x + y + z
  {
  }

  predicate AllAscii(s: Bytes) { forall i :: 0 <= i < |s| ==> s[i] < 0x80 }

  lemma {:induction false} AsciiIsValid(s: Bytes)
    requires AllAscii(s)
    ensures ValidUtf8(s) && Repair(s) == s
  {
    if s != [] { AsciiIsValid(s[1..]); }
    RepairFixes(s);
  }

  lemma {:induction false} AsciiPrefix(p: Bytes, s: Bytes)
    requires AllAscii(p)
    ensures Repair(p + s) == p + Repair(s)
  {
    if p == [] {
      assert p + s == s;
    } else {
      AsciiPrefix(p[1..], s);
      ValidCons([p[0]], p[1..] + s);
      assert p + s == [p[0]] + (p[1..] + s);
    }
  }

  /** The repair neither adds nor removes ASCII. */
  lemma {:induction false} RepairKeepsAscii(s: Bytes, a: Byte)
    requires a < 0x80 && a !in s
    ensures a !in Repair(s)
  {
    if s != [] { RepairKeepsAscii(s[Scan(s).0..], a); }
  }

  // ---- what the repair forgets ----

  predicate ReplacementAt(s: Bytes, i: nat) { i + 3 <= |s| && s[i] == 0xEF && s[i + 1] == 0xBF && s[i + 2] == 0xBD }

  predicate HasReplacement(s: Bytes) { exists i: nat :: i < |s| && ReplacementAt(s, i) }

  lemma {:induction false} RepairMarks(s: Bytes)
    requires !ValidUtf8(s)
    ensures HasReplacement(Repair(s))
  {
    var rest := Repair(s[Scan(s).0..]);
    if Scan(s).1 {
      RepairMarks(s[Scan(s).0..]);
      var i: nat :| i < |rest| && ReplacementAt(rest, i);
      MarkAfter(s[..Scan(s).0], rest, i);
    } else {
      assert ReplacementAt(REPLACEMENT + rest, 0);
    }
  }

  lemma MarkAfter(head: Bytes, rest: Bytes, i: nat)
    requires i < |rest| && ReplacementAt(rest, i)
    ensures HasReplacement(head + rest)
  {
    assert ReplacementAt(head + rest, |head| + i);
  }

  /** A replacement character may stand for a byte that was none. */
  function Spoil(s: Bytes, i: nat): Bytes
    requires i + 3 <= |s|
  {
    s[..i] + [0xFF] + s[i + 3..]
  }

  lemma {:induction false} SpoilRepairs(s: Bytes, i: nat)
    requires ValidUtf8(s) && ReplacementAt(s, i)
    ensures Repair(Spoil(s, i)) == s && !ValidUtf8(Spoil(s, i))
    decreases |s|
  {
    if i == 0 {
      SpoilFirst(s);
    } else {
      var n := Scan(s).0;
      StartsAreAligned(s, i);
      ScanCharacter(s);
      SpoilRepairs(s[n..], i - n);
      SpoilLater(s, n, i);
      ValidCons(s[..n], Spoil(s[n..], i - n));
    }
  }

  lemma SpoilFirst(s: Bytes)
    requires ValidUtf8(s) && ReplacementAt(s, 0)
    ensures Repair(Spoil(s, 0)) == s && !ValidUtf8(Spoil(s, 0))
  {
    var t := Spoil(s, 0);
    assert Scan(s) == (3, true);
    assert t[0] == 0xFF && t[1..] == s[3..];
    assert Scan(t) == (1, false);
    RepairFixes(s[3..]);
    assert REPLACEMENT + s[3..] == s;
  }

  lemma SpoilLater(s: Bytes, n: nat, i: nat)
    requires n <= i && i + 3 <= |s|
    ensures Spoil(s, i) == s[..n] + Spoil(s[n..], i - n)
  {
  }

  /** Inside a well-formed character there is no first byte. */
  lemma StartsAreAligned(s: Bytes, i: nat)
    requires s != [] && Scan(s).1 && 0 < i < |s| && s[i] == 0xEF
    ensures i >= Scan(s).0
  {
  }

  // ---- well-formed text, from the definition of the encoding ----

  /** A Unicode scalar value: a code point that is no surrogate. */
  predicate IsScalar(cp: nat) { cp < 0x11_0000 && !(0xD800 <= cp < 0xE000) }

  function TailByte(cp: nat, shift: nat): Byte
    requires shift > 0
  {
    (0x80 + cp / shift % 64) as Byte
  }

  /** The bytes of a character: one to four, six bits in each after the first. */
  function EncodeScalar(cp: nat): (c: Bytes)
    requires IsScalar(cp)
    ensures c != []
  {
    if cp < 0x80 then [cp as Byte]
    else if cp < 0x800 then [(0xC0 + cp / 64) as Byte, TailByte(cp, 1)]
    else if cp < 0x1_0000 then [(0xE0 + cp / 4096) as Byte, TailByte(cp, 64), TailByte(cp, 1)]
    else [(0xF0 + cp / 262144) as Byte, TailByte(cp, 4096), TailByte(cp, 64), TailByte(cp, 1)]
  }

  predicate AllScalars(cps: seq<nat>) { forall i :: 0 <= i < |cps| ==> IsScalar(cps[i]) }

  function EncodeText(cps: seq<nat>): Bytes
    requires AllScalars(cps)
  {
    if cps == [] then [] else EncodeScalar(cps[0]) + EncodeText(cps[1..])
  }

  ghost predicate IsCharacter(c: Bytes) { exists cp :: IsScalar(cp) && EncodeScalar(cp) == c }

  lemma ShortCharacter(cp: nat)
    requires cp < 0x800
    ensures var c := EncodeScalar(cp); Scan(c) == (|c|, true)
  {
  }

  lemma MiddleCharacter(cp: nat)
    requires IsScalar(cp) && 0x800 <= cp < 0x1_0000
    ensures var c := EncodeScalar(cp); Scan(c) == (|c|, true)
  {
    var c := EncodeScalar(cp);
    assert cp / 64 == cp / 4096 * 64 + cp / 64 % 64;
    assert IsTail(c[1]) && IsTail(c[2]);
  }

  lemma LongCharacter(cp: nat)
    requires IsScalar(cp) && 0x1_0000 <= cp
    ensures var c := EncodeScalar(cp); Scan(c) == (|c|, true)
  {
    var c := EncodeScalar(cp);
    assert cp / 4096 == cp / 262144 * 64 + cp / 4096 % 64;
    assert IsTail(c[1]) && IsTail(c[2]) && IsTail(c[3]);
  }

  /** The six bits of a byte after the first. */
  function Bits(b: Byte): nat
    requires IsTail(b)
  {
    b as nat - 0x80
  }

  lemma ScannedTwo(c: Bytes)
    requires |c| == 2 && Scan(c) == (2, true)
    ensures IsCharacter(c)
  {
    var cp := (c[0] as nat - 0xC0) * 64 + Bits(c[1]);
    assert cp / 64 == c[0] as nat - 0xC0 && cp % 64 == Bits(c[1]);
    assert EncodeScalar(cp) == c;
  }

  lemma ScannedThree(c: Bytes)
    requires |c| == 3 && Scan(c) == (3, true)
    ensures IsCharacter(c)
  {
    var high, mid, low := c[0] as nat - 0xE0, Bits(c[1]), Bits(c[2]);
    var cp := high * 4096 + mid * 64 + low;
    SplitBits(high, mid, low);
    assert IsScalar(cp) && cp >= 0x800;
    assert EncodeScalar(cp) == c;
  }

  lemma SplitBits(high: nat, mid: nat, low: nat)
    requires mid < 64 && low < 64
    ensures var cp := high * 4096 + mid * 64 + low;
            cp / 4096 == high && cp / 64 == high * 64 + mid && cp / 64 % 64 == mid && cp % 64 == low
  {
  }

  lemma ScannedFour(c: Bytes)
    requires |c| == 4 && Scan(c) == (4, true)
    ensures IsCharacter(c)
  {
    var top, high, mid, low := c[0] as nat - 0xF0, Bits(c[1]), Bits(c[2]), Bits(c[3]);
    var cp := top * 262144 + high * 4096 + mid * 64 + low;
    SplitBits(top * 64 + high, mid, low);
    assert cp / 4096 == top * 64 + high && cp / 4096 % 64 == high && cp / 262144 == top;
    assert IsScalar(cp) && cp >= 0x1_0000;
    assert EncodeScalar(cp) == c;
  }

  /** The characters are exactly what a scan takes for one. */
  lemma CharacterMeaning(c: Bytes)
    requires c != []
    ensures IsCharacter(c) <==> Scan(c) == (|c|, true)
  {
    if cp: nat :| IsScalar(cp) && EncodeScalar(cp) == c {
      if cp < 0x800 { ShortCharacter(cp); } else if cp < 0x1_0000 { MiddleCharacter(cp); } else { LongCharacter(cp); }
    }
    if Scan(c) == (|c|, true) {
      if |c| == 1 {
        assert EncodeScalar(c[0] as nat) == c;
      } else if |c| == 2 {
        ScannedTwo(c);
      } else if |c| == 3 {
        ScannedThree(c);
      } else {
        ScannedFour(c);
      }
    }
  }

  /** Well-formed text is what encoding some scalar values gives. */
  lemma {:induction false} ValidMeaning(s: Bytes)
    ensures ValidUtf8(s) <==> exists cps :: AllScalars(cps) && EncodeText(cps) == s
  {
    if ValidUtf8(s) { var cps := DecodeText(s); }
    if cps :| AllScalars(cps) && EncodeText(cps) == s { EncodedIsValid(cps); }
  }

  lemma {:induction false} DecodeText(s: Bytes) returns (cps: seq<nat>)
    requires ValidUtf8(s)
    ensures AllScalars(cps) && EncodeText(cps) == s
    decreases |s|
  {
    if s == [] {
      cps := [];
    } else {
      var c := s[..Scan(s).0];
      ScanCharacter(s);
      CharacterMeaning(c);
      var cp :| IsScalar(cp) && EncodeScalar(cp) == c;
      var rest := DecodeText(s[Scan(s).0..]);
      cps := [cp] + rest;
      assert cps[1..] == rest;
    }
  }

  lemma {:induction false} EncodedIsValid(cps: seq<nat>)
    requires AllScalars(cps)
    ensures ValidUtf8(EncodeText(cps))
  {
    if cps != [] {
      EncodedIsValid(cps[1..]);
      assert IsCharacter(EncodeScalar(cps[0]));
      CharacterMeaning(EncodeScalar(cps[0]));
      ValidCons(EncodeScalar(cps[0]), EncodeText(cps[1..]));
    }
  }

  // ---- what the repair replaces ----

  ghost predicate BeginsCharacter(t: Bytes) { exists c :: IsCharacter(c) && t <= c }

  /** The longest piece that begins a character, or one byte if none does. */
  ghost predicate IsIllFormedPiece(s: Bytes, n: nat) {
    && 1 <= n <= |s|
    && (forall c :: IsCharacter(c) ==> !(c <= s))
    && (n > 1 ==> BeginsCharacter(s[..n]))
    && (n < |s| ==> !BeginsCharacter(s[..n + 1]))
  }

  /** A character at the start is kept; without one, the longest piece that begins one becomes U+FFFD. */
  lemma RepairMeaning(s: Bytes)
    requires s != []
    ensures var n := Scan(s).0;
            if Scan(s).1 then IsCharacter(s[..n]) && Repair(s) == s[..n] + Repair(s[n..])
            else IsIllFormedPiece(s, n) && Repair(s) == REPLACEMENT + Repair(s[n..])
  {
    var n := Scan(s).0;
    if Scan(s).1 {
      ScanCharacter(s);
      CharacterMeaning(s[..n]);
    } else {
      forall c | IsCharacter(c) ensures !(c <= s) { PrefixScans(c, s); }
      if n > 1 { PieceBegins(s); }
      if n < |s| {
        forall c | IsCharacter(c) ensures !(s[..n + 1] <= c) { PieceIsLongest(s, c); }
      }
    }
  }

  lemma PrefixScans(c: Bytes, s: Bytes)
    requires s != [] && IsCharacter(c)
    ensures c <= s ==> Scan(s).1
  {
    CharacterMeaning(c);
    if c <= s {
      assert s == c + s[|c|..];
      ScanLocal(c, s[|c|..]);
    }
  }

  lemma PieceBegins(s: Bytes)
    requires s != [] && !Scan(s).1 && Scan(s).0 > 1
    ensures BeginsCharacter(s[..Scan(s).0])
  {
    var piece := s[..Scan(s).0];
    var c := piece + (if Width(s[0]) == |piece| + 1 then [0x80] else [0x80, 0x80]);
    assert Scan(c) == (|c|, true);
    CharacterMeaning(c);
    assert piece <= c;
  }

  lemma PieceIsLongest(s: Bytes, c: Bytes)
    requires s != [] && !Scan(s).1 && Scan(s).0 < |s| && IsCharacter(c)
    ensures !(s[..Scan(s).0 + 1] <= c)
  {
    CharacterMeaning(c);
    var n := Scan(s).0;
    if s[..n + 1] <= c {
      assert forall i :: 0 <= i < n + 1 ==> c[i] == s[..n + 1][i] == s[i];
    }
  }
}
