/** Percent coding of file names in src/main.rs (sections 2.1 and 2.3 of RFC 3986): text to
    text, by way of the bytes of its UTF-8 form. */
module PercentCoding {
  import opened Prelude
  import Utf8

  const PERCENT: byte := 37
  const PLUS: byte := 43
  const SPACE: byte := 32

  predicate Unreserved(b: byte) {
    65 <= b <= 90 || 97 <= b <= 122 || 48 <= b <= 57 || b == 45 || b == 95 || b == 46 || b == 126
  }

  function UpperHex(v: nat): byte
    requires v < 16
  {
    if v < 10 then 48 + v else 65 + (v - 10)
  }

  function EncodeByte(b: byte): Bytes {
    if Unreserved(b) then [b] else [PERCENT, UpperHex(b / 16), UpperHex(b % 16)]
  }

  function Encode(data: Bytes): Bytes {
    if data == [] then [] else EncodeByte(data[0]) + Encode(data[1..])
  }

  function EncodeText(input: string): string {
    EncodedIsQuerySafe(Utf8.Encode(input));
    Utf8.AsText(Encode(Utf8.Encode(input)))
  }

  function DecodeText(input: string): string {
    Utf8.DecodeLossy(Decode(Utf8.Encode(input)))
  }

  method UrlEncode(input: string) returns (text: string)
    ensures text == EncodeText(input)
  {
    var data := Utf8.Encode(input);
    EncodedIsQuerySafe(data);
    text := [];
    EncodedText(data, 0);
    assert data[0..] == data;
    hide Encode, EncodeByte, UpperHex, Unreserved, Utf8.AsText, Utf8.IsAscii, Utf8.Encode;
    for i := 0 to |data|
      invariant Utf8.IsAscii(Encode(data[i..])) && Utf8.IsAscii(Encode(data))
      invariant text + Utf8.AsText(Encode(data[i..])) == Utf8.AsText(Encode(data))
    {
      AppendNext(text, data, i);
      if Unreserved(data[i]) {
        text := text + [data[i] as char];
      } else {
        text := text + [PERCENT as char, UpperHex(data[i] / 16) as char, UpperHex(data[i] % 16) as char];
      }
    }
    EncodedText(data, |data|);
    assert text + [] == text;
  }

  function CharsOf(b: byte): string {
    if Unreserved(b) then [b as char]
    else [PERCENT as char, UpperHex(b / 16) as char, UpperHex(b % 16) as char]
  }

  lemma EncodedText(data: Bytes, i: nat)
    requires i <= |data|
    ensures Utf8.IsAscii(Encode(data[i..])) && Utf8.IsAscii(Encode(data))
    ensures i == |data| ==> Utf8.AsText(Encode(data[i..])) == []
  {
    EncodedIsQuerySafe(data[i..]);
    EncodedIsQuerySafe(data);
  }

  lemma AppendNext(text: string, data: Bytes, i: nat)
    requires i < |data|
    ensures Utf8.IsAscii(Encode(data[i..])) && Utf8.IsAscii(Encode(data[i + 1..]))
    ensures text + Utf8.AsText(Encode(data[i..])) == text + CharsOf(data[i]) + Utf8.AsText(Encode(data[i + 1..]))
  {
    EncodedText(data, i);
    EncodedText(data, i + 1);
    EncodeNext(data, i);
    hide Encode;
    assert Utf8.AsText(Encode(data[i..])) == CharsOf(data[i]) + Utf8.AsText(Encode(data[i + 1..]));
  }

  lemma EncodeNext(data: Bytes, i: nat)
    requires i <= |data|
    ensures Encode(data[i..]) == if i == |data| then [] else EncodeByte(data[i]) + Encode(data[i + 1..])
  {
    if i < |data| {
      assert data[i..][1..] == data[i + 1..];
    }
  }

  /** `u8::from_str_radix(.., 16)` on two bytes, which also takes a sign and one digit. */
  function ParseHexPair(a: byte, b: byte): Option<byte> {
    if a == PLUS then HexValue(b)
    else if HexValue(a).Some? && HexValue(b).Some? then Some(HexValue(a).value * 16 + HexValue(b).value)
    else None
  }

  function Decode(s: Bytes): Bytes {
    if s == [] then []
    else if s[0] == PERCENT && |s| > 2 && ParseHexPair(s[1], s[2]).Some? then
      [ParseHexPair(s[1], s[2]).value] + Decode(s[3..])
    else if s[0] == PLUS then [SPACE] + Decode(s[1..])
    else [s[0]] + Decode(s[1..])
  }

  /** How many bytes of `s` one decoded byte takes, and which byte that is. */
  function Token(s: Bytes): (int, byte)
    requires s != []
  {
    if s[0] == PERCENT && |s| > 2 && ParseHexPair(s[1], s[2]).Some? then (3, ParseHexPair(s[1], s[2]).value)
    else if s[0] == PLUS then (1, SPACE)
    else (1, s[0])
  }

  method UrlDecode(input: string) returns (text: string)
    ensures text == DecodeText(input)
  {
    var s := Utf8.Encode(input);
    var out: Bytes := [];
    var i := 0;
    hide Decode;
    while i < |s|
      invariant 0 <= i <= |s|
      invariant out + Decode(s[i..]) == Decode(s)
      decreases |s| - i
    {
      DecodeNext(s, i);
      hide ParseHexPair;
      if s[i] == PERCENT && i + 2 < |s| {
        var h := ParseHexPair(s[i + 1], s[i + 2]);
        if h.Some? {
          out := out + [h.value];
          i := i + 3;
          continue;
        }
      } else if s[i] == PLUS {
        out := out + [SPACE];
        i := i + 1;
        continue;
      }
      out := out + [s[i]];
      i := i + 1;
    }
    DecodeOfNothing(s);
    assert out == Decode(s);
    text := Utf8.DecodeLossy(out);
  }

  lemma DecodeOfNothing(s: Bytes)
    ensures s[|s|..] == [] && Decode(s[|s|..]) == []
  {
  }

  lemma DecodeNext(s: Bytes, i: nat)
    requires i < |s|
    ensures var (n, b) := Token(s[i..]); i + n <= |s| && Decode(s[i..]) == [b] + Decode(s[i + n..])
  {
    var (n, b) := Token(s[i..]);
    assert s[i..][n..] == s[i + n..];
  }

  lemma HexPairRoundTrip(b: byte)
    ensures ParseHexPair(UpperHex(b / 16), UpperHex(b % 16)) == Some(b)
  {
  }

  /** Decoding undoes encoding, also in front of anything else. */
  lemma {:induction false} DecodeUndoesEncode(data: Bytes, tail: Bytes)
    ensures Decode(Encode(data) + tail) == data + Decode(tail)
  {
    hide Decode, EncodeByte;
    if data == [] {
      assert Encode(data) + tail == tail;
    } else {
      var first, rest := EncodeByte(data[0]), Encode(data[1..]);
      DecodeUndoesEncode(data[1..], tail);
      OneByte(data[0], rest + tail);
      assert Encode(data) + tail == first + (rest + tail);
      assert data == [data[0]] + data[1..];
    }
  }

  lemma OneByte(b: byte, rest: Bytes)
    ensures Decode(EncodeByte(b) + rest) == [b] + Decode(rest)
  {
    var s := EncodeByte(b) + rest;
    HexPairRoundTrip(b);
    assert s[|EncodeByte(b)|..] == rest;
  }

  /** An encoded name holds nothing but unreserved bytes and percent signs, so it can stand
      in a query string unquoted. */
  lemma {:induction false} EncodedIsQuerySafe(data: Bytes)
    ensures forall b :: b in Encode(data) ==> Unreserved(b) || b == PERCENT
    ensures Utf8.IsAscii(Encode(data))
  {
    if data != [] {
      EncodedIsQuerySafe(data[1..]);
    }
  }

  /** Decoding undoes encoding for every text. */
  lemma TextRoundTrip(input: string)
    ensures DecodeText(EncodeText(input)) == input
  {
    var data := Utf8.Encode(input);
    EncodedIsQuerySafe(data);
    Utf8.AsciiIsItself(Encode(data));
    DecodeUndoesEncode(data, []);
    assert Encode(data) + [] == Encode(data) && data + Decode([]) == data;
    Utf8.DecodeUndoesEncode(input);
  }

  // ------------------------------------------------------- what else is a triple

  predicate IsHex(b: byte) {
    48 <= b <= 57 || 65 <= b <= 70 || 97 <= b <= 102
  }

  /** A percent sign starts a decoded triple exactly if two hexadecimal digits follow, or a
      plus sign and one. */
  lemma TripleExactly(s: Bytes)
    requires s != [] && s[0] == PERCENT
    ensures Token(s).0 == 3 <==> |s| > 2 && ((IsHex(s[1]) || s[1] == PLUS) && IsHex(s[2]))
  {
  }

  /** Percent decoding as the standard has it: two hexadecimal digits and nothing else. */
  function StandardDecode(s: Bytes): Bytes {
    if s == [] then []
    else if s[0] == PERCENT && |s| > 2 && IsHex(s[1]) && IsHex(s[2]) then
      [HexValue(s[1]).value * 16 + HexValue(s[2]).value] + StandardDecode(s[3..])
    else if s[0] == PLUS then [SPACE] + StandardDecode(s[1..])
    else [s[0]] + StandardDecode(s[1..])
  }

  /** A percent sign, a plus sign and a hexadecimal digit. */
  predicate SignedAt(s: Bytes, i: nat) {
    i + 2 < |s| && s[i] == PERCENT && s[i + 1] == PLUS && IsHex(s[i + 2])
  }

  predicate Unsigned(s: Bytes) {
    forall i: nat :: i < |s| ==> !SignedAt(s, i)
  }

  lemma UnsignedRest(s: Bytes, n: nat)
    requires n <= |s| && forall i: nat :: i < n ==> !SignedAt(s, i)
    ensures Unsigned(s) <==> Unsigned(s[n..])
  {
    forall i: nat | i < |s[n..]| ensures SignedAt(s[n..], i) <==> SignedAt(s, n + i) {
    }
    if Unsigned(s[n..]) {
      forall i: nat | i < |s| ensures !SignedAt(s, i) {
        assert i >= n ==> !SignedAt(s[n..], i - n);
      }
    }
  }

  /** The signed triples are all that is decoded beyond the standard: the two decoders agree
      exactly on the texts without one. */
  lemma {:induction false} StandardExactlyIfUnsigned(s: Bytes)
    ensures Decode(s) == StandardDecode(s) <==> Unsigned(s)
    ensures |Decode(s)| <= |StandardDecode(s)| && (!Unsigned(s) ==> |Decode(s)| < |StandardDecode(s)|)
  {
    if s != [] {
      if SignedAt(s, 0) {
        SignedIsLonger(s);
        StandardExactlyIfUnsigned(s[3..]);
      } else if s[0] == PERCENT && |s| > 2 && IsHex(s[1]) && IsHex(s[2]) {
        UnsignedRest(s, 3);
        StandardExactlyIfUnsigned(s[3..]);
      } else {
        UnsignedRest(s, 1);
        StandardExactlyIfUnsigned(s[1..]);
      }
    }
  }

  lemma SignedIsLonger(s: Bytes)
    requires SignedAt(s, 0)
    ensures |Decode(s)| == 1 + |Decode(s[3..])|
    ensures |StandardDecode(s)| == 3 + |StandardDecode(s[3..])|
  {
    assert s[1..][1..] == s[2..] && s[2..][1..] == s[3..];
    assert s[1..][0] == PLUS && s[2..][0] == s[2];
    assert |StandardDecode(s[2..])| == 1 + |StandardDecode(s[3..])|;
    assert |StandardDecode(s[1..])| == 1 + |StandardDecode(s[2..])|;
  }

  /** `%+F` is one byte. */
  lemma SignedTripleDecodes()
    ensures Decode([PERCENT, PLUS, 70]) == [15] && StandardDecode([PERCENT, PLUS, 70]) == [PERCENT, SPACE, 70]
  {
    var s := [PERCENT, PLUS, 70];
    assert s[3..] == [] && s[1..] == [PLUS, 70] && [PLUS, 70][1..] == [70] && [70 as byte][1..] == [];
    assert StandardDecode([70]) == [70] && StandardDecode([PLUS, 70]) == [SPACE, 70];
  }
}
