/** The conversions between text and bytes that the engine's codecs rely on: UTF-8 (section 3 of
    RFC 3629), and decoding in which every maximal ill-formed piece becomes U+FFFD. */
module Utf8 {
  import opened Prelude

  const REPLACEMENT: char := '\U{FFFD}'

  function EncodeChar(c: char): (r: Bytes)
    ensures 1 <= |r| <= 4
  {
    var v := c as int;
    if v < 0x80 then [v]
    else if v < 0x800 then [0xC0 + v / 0x40, 0x80 + v % 0x40]
    else if v < 0x1_0000 then [0xE0 + v / 0x1000, 0x80 + v / 0x40 % 0x40, 0x80 + v % 0x40]
    else [0xF0 + v / 0x4_0000, 0x80 + v / 0x1000 % 0x40, 0x80 + v / 0x40 % 0x40, 0x80 + v % 0x40]
  }

  function Encode(s: string): Bytes {
    if s == [] then [] else EncodeChar(s[0]) + Encode(s[1..])
  }

  predicate Continues(b: byte) {
    0x80 <= b <= 0xBF
  }

  /** The six bits a continuation byte carries. */
  function Six(b: byte): int {
    (b as int) - 0x80
  }

  /** Whether `b` may follow the first byte of a sequence of three or four: overlong forms,
      surrogates and values beyond the last code point are ruled out here. */
  predicate MayFollow(first: byte, b: byte) {
    Continues(b)
    && (first == 0xE0 ==> b >= 0xA0) && (first == 0xED ==> b <= 0x9F)
    && (first == 0xF0 ==> b >= 0x90) && (first == 0xF4 ==> b <= 0x8F)
  }

  /** How many bytes the first character or ill-formed piece takes, and the character. */
  function Front(b: Bytes): (r: (nat, Option<char>))
    requires b != []
    ensures 1 <= r.0 <= |b|
  {
    var first := b[0] as int;
    if first < 0x80 then (1, Some(first as char))
    else if 0xC2 <= first <= 0xDF then
      if |b| < 2 || !Continues(b[1]) then (1, None)
      else (2, Some(((first - 0xC0) * 0x40 + Six(b[1])) as char))
    else if 0xE0 <= first <= 0xEF then
      if |b| < 2 || !MayFollow(b[0], b[1]) then (1, None)
      else if |b| < 3 || !Continues(b[2]) then (2, None)
      else (3, Some(((first - 0xE0) * 0x1000 + Six(b[1]) * 0x40 + Six(b[2])) as char))
    else if 0xF0 <= first <= 0xF4 then
      if |b| < 2 || !MayFollow(b[0], b[1]) then (1, None)
      else if |b| < 3 || !Continues(b[2]) then (2, None)
      else if |b| < 4 || !Continues(b[3]) then (3, None)
      else (4, Some(((first - 0xF0) * 0x4_0000 + Six(b[1]) * 0x1000 + Six(b[2]) * 0x40 + Six(b[3])) as char))
    else (1, None)
  }

  function DecodeLossy(b: Bytes): string
    decreases |b|
  {
    if b == [] then []
    else
      var (n, c) := Front(b);
      [if c.Some? then c.value else REPLACEMENT] + DecodeLossy(b[n..])
  }

  lemma FrontOfEncoded(c: char, tail: Bytes)
    ensures Front(EncodeChar(c) + tail) == (|EncodeChar(c)|, Some(c))
  {
    var v := c as int;
    var b := EncodeChar(c) + tail;
    hide Front;
    if v < 0x80 {
      OneByte(b, c);
    } else if v < 0x800 {
      TwoBytes(b, c);
    } else if v < 0x1_0000 {
      ThreeBytes(b, c);
    } else {
      FourBytes(b, c);
    }
  }

  lemma OneByte(b: Bytes, c: char)
    requires b != [] && b[0] as int == c as int < 0x80
    ensures Front(b) == (1, Some(c))
  {
  }

  lemma TwoBytes(b: Bytes, c: char)
    requires var v := c as int;
             0x80 <= v < 0x800 && |b| >= 2 && b[0] as int == 0xC0 + v / 0x40 && b[1] as int == 0x80 + v % 0x40
    ensures Front(b) == (2, Some(c))
  {
  }

  lemma ThreeBytes(b: Bytes, c: char)
    requires var v := c as int;
             0x800 <= v < 0x1_0000 && |b| >= 3 && b[0] as int == 0xE0 + v / 0x1000
             && b[1] as int == 0x80 + v / 0x40 % 0x40 && b[2] as int == 0x80 + v % 0x40
    ensures Front(b) == (3, Some(c))
  {
    Sixes(c as int);
  }

  lemma FourBytes(b: Bytes, c: char)
    requires var v := c as int;
             0x1_0000 <= v && |b| >= 4 && b[0] as int == 0xF0 + v / 0x4_0000
             && b[1] as int == 0x80 + v / 0x1000 % 0x40 && b[2] as int == 0x80 + v / 0x40 % 0x40
             && b[3] as int == 0x80 + v % 0x40
    ensures Front(b) == (4, Some(c))
  {
    Sixes(c as int);
  }

  /** A number in pieces of six bits. */
  lemma Sixes(v: nat)
    ensures v == v / 0x4_0000 * 0x4_0000 + v / 0x1000 % 0x40 * 0x1000 + v / 0x40 % 0x40 * 0x40 + v % 0x40
    ensures v == v / 0x1000 * 0x1000 + v / 0x40 % 0x40 * 0x40 + v % 0x40
  {
    Six0(v);
    Six0(v / 0x40);
    Six0(v / 0x1000);
    Quarters(v);
  }

  lemma Six0(v: nat)
    ensures v == v / 0x40 * 0x40 + v % 0x40
  {
  }

  lemma Quarters(v: nat)
    ensures v / 0x40 / 0x40 == v / 0x1000 && v / 0x1000 / 0x40 == v / 0x4_0000
  {
  }

  /** Decoding gives back every text. */
  lemma {:induction false} DecodeUndoesEncode(s: string)
    ensures DecodeLossy(Encode(s)) == s
  {
    if s != [] {
      var c, rest := s[0], Encode(s[1..]);
      FrontOfEncoded(c, rest);
      DecodeUndoesEncode(s[1..]);
      hide EncodeChar, Front;
      assert (EncodeChar(c) + rest)[|EncodeChar(c)|..] == rest;
      assert [c] + s[1..] == s;
    }
  }

  predicate IsAscii(b: Bytes) {
    forall i :: 0 <= i < |b| ==> b[i] < 0x80
  }

  /** ASCII bytes as text. */
  function AsText(b: Bytes): string
    requires IsAscii(b)
  {
    seq(|b|, i requires 0 <= i < |b| => b[i] as char)
  }

  lemma {:induction false} AsciiIsItself(b: Bytes)
    requires IsAscii(b)
    ensures Encode(AsText(b)) == b
  {
    if b != [] {
      AsciiIsItself(b[1..]);
      assert AsText(b)[1..] == AsText(b[1..]);
      assert [b[0]] + b[1..] == b;
    }
  }
}
