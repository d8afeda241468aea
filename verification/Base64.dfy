/** The base64 codec of src/main.rs (section 4 of RFC 4648), on the bytes of the text. */
module Base64 {
  import opened Prelude
  import Utf8

  const PAD: byte := 61
  const MARKER: Bytes := [59, 98, 97, 115, 101, 54, 52, 44]   // ;base64,

  /** The alphabet A-Z a-z 0-9 + / in order. */
  function Symbol(v: nat): byte
    requires v < 64
  {
    if v < 26 then 65 + v
    else if v < 52 then 97 + (v - 26)
    else if v < 62 then 48 + (v - 52)
    else if v == 62 then 43
    else 47
  }

  function Value(b: byte): (r: Option<nat>)
    ensures r.Some? ==> r.value < 64
  {
    if 65 <= b <= 90 then Some(b - 65)
    else if 97 <= b <= 122 then Some(b - 97 + 26)
    else if 48 <= b <= 57 then Some(b - 48 + 52)
    else if b == 43 then Some(62)
    else if b == 47 then Some(63)
    else if b == PAD then Some(0)
    else None
  }

  lemma SymbolRoundTrip(v: nat)
    requires v < 64
    ensures Value(Symbol(v)) == Some(v) && Symbol(v) != PAD
    ensures NotSpace(Symbol(v)) && Symbol(v) != 59
  {
  }

  predicate IsSpace(b: byte) {
    b == 32 || b == 9 || b == 10 || b == 12 || b == 13
  }

  predicate NotSpace(b: byte) {
    !IsSpace(b)
  }

  // -------------------------------------------------------------------- encoding

  /** One to three bytes as a number of 24 bits. */
  function NumberOf(chunk: Bytes): (n: nat)
    requires 1 <= |chunk| <= 3
  {
    var b1 := if |chunk| > 1 then chunk[1] else 0;
    var b2 := if |chunk| > 2 then chunk[2] else 0;
    (chunk[0] as int) * 0x1_0000 + (b1 as int) * 0x100 + (b2 as int)
  }

  /** The four symbols of `n`, the last ones padding when there were fewer than three bytes. */
  function Quad(n: nat, len: nat): (r: Bytes)
    ensures |r| == 4
  {
    [Symbol(n / 0x4_0000 % 64), Symbol(n / 0x1000 % 64),
     if len > 1 then Symbol(n / 0x40 % 64) else PAD,
     if len > 2 then Symbol(n % 64) else PAD]
  }

  function Group(chunk: Bytes): (r: Bytes)
    requires 1 <= |chunk| <= 3
    ensures |r| == 4
  {
    Quad(NumberOf(chunk), |chunk|)
  }

  function Encode(data: Bytes): Bytes {
    if data == [] then []
    else if |data| <= 3 then Group(data)
    else Group(data[..3]) + Encode(data[3..])
  }

  method EncodeChunk(chunk: Bytes) returns (group: Bytes)
    requires 1 <= |chunk| <= 3
    ensures group == Group(chunk)
  {
    var b0 := chunk[0] as int;
    var b1 := if |chunk| > 1 then chunk[1] as int else 0;
    var b2 := if |chunk| > 2 then chunk[2] as int else 0;
    var n := b0 * 0x1_0000 + b1 * 0x100 + b2;
    group := [Symbol(n / 0x4_0000 % 64)];
    group := group + [Symbol(n / 0x1000 % 64)];
    if |chunk| > 1 {
      group := group + [Symbol(n / 0x40 % 64)];
    } else {
      group := group + [PAD];
    }
    if |chunk| > 2 {
      group := group + [Symbol(n % 64)];
    } else {
      group := group + [PAD];
    }
  }

  method Base64Encode(data: Bytes) returns (result: Bytes)
    ensures result == Encode(data)
  {
    result := [];
    var i := 0;
    EncodeOfNothing(data);
    hide Encode, Group;
    while i < |data|
      invariant 0 <= i <= |data|
      invariant result + Encode(data[i..]) == Encode(data)
    {
      var j := Min(i + 3, |data|);
      var group := EncodeChunk(data[i..j]);
      EncodeNext(data, i);
      result := result + group;
      i := j;
    }
  }

  lemma EncodeOfNothing(data: Bytes)
    ensures data[0..] == data && data[|data|..] == [] && Encode(data[|data|..]) == []
  {
  }

  lemma EncodeNext(data: Bytes, i: nat)
    requires i < |data|
    ensures var j := Min(i + 3, |data|); Encode(data[i..]) == Group(data[i..j]) + Encode(data[j..])
  {
    var rest := data[i..];
    if |rest| <= 3 {
      assert data[i..|data|] == rest && Encode(data[|data|..]) == [];
    } else {
      assert rest[..3] == data[i..i + 3] && rest[3..] == data[i + 3..];
    }
  }

  // -------------------------------------------------------------------- decoding

  datatype DecodeError = InvalidLength | InvalidCharacter

  function Pads(quad: Bytes): nat {
    if quad == [] then 0 else Pads(quad[..|quad| - 1]) + (if quad[|quad| - 1] == PAD then 1 else 0)
  }

  predicate AllValues(quad: Bytes) {
    forall i :: 0 <= i < |quad| ==> Value(quad[i]).Some?
  }

  /** The 24-bit number of four symbols. */
  function Number(quad: Bytes): nat
    requires |quad| == 4 && AllValues(quad)
  {
    Value(quad[0]).value * 0x4_0000 + Value(quad[1]).value * 0x1000
    + Value(quad[2]).value * 0x40 + Value(quad[3]).value
  }

  /** The bytes of four symbols; each padding sign takes one byte off. */
  function Ungroup(quad: Bytes): Bytes
    requires |quad| == 4 && AllValues(quad)
  {
    var n := Number(quad);
    [n / 0x1_0000 % 0x100]
    + (if Pads(quad) < 2 then [n / 0x100 % 0x100] else [])
    + (if Pads(quad) < 1 then [n % 0x100] else [])
  }

  /** The bytes of all whole groups of four. */
  function DecodeQuads(clean: Bytes): Result<Bytes, DecodeError> {
    if |clean| < 4 then Ok([])
    else if !AllValues(clean[..4]) then Err(InvalidCharacter)
    else
      match DecodeQuads(clean[4..])
      case Err(e) => Err(e)
      case Ok(rest) => Ok(Ungroup(clean[..4]) + rest)
  }

  function FindFrom(input: Bytes, i: nat): (r: Option<nat>)
    ensures r.Some? ==> i <= r.value && r.value + 8 <= |input|
    decreases |input| - i
  {
    if i + 8 > |input| then None
    else if input[i..i + 8] == MARKER then Some(i)
    else FindFrom(input, i + 1)
  }

  function Stripped(input: Bytes): Bytes {
    match FindFrom(input, 0)
    case Some(i) => input[i + 8..]
    case None => input
  }

  function Decode(input: Bytes): Result<Bytes, DecodeError> {
    var clean := Filter(Stripped(input), NotSpace);
    if |clean| % 4 != 0 then Err(InvalidLength) else DecodeQuads(clean)
  }

  lemma OneMoreSymbol(chunk: Bytes, k: nat)
    requires k < |chunk|
    ensures Pads(chunk[..k + 1]) == Pads(chunk[..k]) + if chunk[k] == PAD then 1 else 0
    ensures AllValues(chunk[..k + 1]) <==> AllValues(chunk[..k]) && Value(chunk[k]).Some?
  {
    hide Value;
    var next := chunk[..k + 1];
    assert next[..k] == chunk[..k];
    if AllValues(chunk[..k]) && Value(chunk[k]).Some? {
      assert forall i :: 0 <= i < k ==> next[i] == chunk[..k][i];
    }
    if AllValues(next) {
      assert Value(next[k]).Some?;
      assert forall i :: 0 <= i < k ==> chunk[..k][i] == next[i];
    }
  }

  method DecodeChunk(chunk: Bytes) returns (r: Option<Bytes>)
    requires |chunk| == 4
    ensures r == if AllValues(chunk) then Some(Ungroup(chunk)) else None
  {
    assert chunk[..0] == [] && Pads(chunk[..0]) == 0;
    hide Value, Pads;
    var buf: seq<nat> := [];
    var padCount := 0;
    for k := 0 to 4
      invariant |buf| == k && AllValues(chunk[..k])
      invariant forall j :: 0 <= j < k ==> buf[j] == Value(chunk[j]).value
      invariant padCount == Pads(chunk[..k])
    {
      OneMoreSymbol(chunk, k);
      if Value(chunk[k]).None? {
        assert !AllValues(chunk);
        return None;
      }
      if chunk[k] == PAD {
        padCount := padCount + 1;
      }
      buf := buf + [Value(chunk[k]).value];
    }
    assert chunk[..4] == chunk && AllValues(chunk);
    assert forall j :: 0 <= j < 4 ==> buf[j] == Value(chunk[j]).value;
    var n := buf[0] * 0x4_0000 + buf[1] * 0x1000 + buf[2] * 0x40 + buf[3];
    var bytes := [n / 0x1_0000 % 0x100];
    if padCount < 2 {
      bytes := bytes + [n / 0x100 % 0x100];
    }
    if padCount < 1 {
      bytes := bytes + [n % 0x100];
    }
    assert bytes == Ungroup(chunk);
    r := Some(bytes);
  }

  method Base64Decode(input: Bytes) returns (r: Result<Bytes, DecodeError>)
    ensures r == Decode(input)
  {
    var clean := Filter(Stripped(input), NotSpace);
    if |clean| % 4 != 0 {
      return Err(InvalidLength);
    }
    hide DecodeQuads;
    r := DecodeAll(clean);
  }

  method DecodeAll(clean: Bytes) returns (r: Result<Bytes, DecodeError>)
    ensures r == DecodeQuads(clean)
  {
    var out: Bytes := [];
    DecodeOfNothing(clean);
    hide *;
    for k := 0 to |clean| / 4
      invariant DecodeQuads(clean) == Prepend(out, DecodeQuads(clean[4 * k..]))
    {
      PrependNext(clean, 4 * k, out);
      var bytes := DecodeChunk(clean[4 * k..4 * k + 4]);
      if bytes.None? {
        return Err(InvalidCharacter);
      }
      out := out + bytes.value;
    }
    PrependToRemainder(out, clean[4 * (|clean| / 4)..]);
    r := Ok(out);
  }

  lemma PrependNext(clean: Bytes, i: nat, out: Bytes)
    requires i + 4 <= |clean|
    ensures var quad := clean[i..i + 4];
            Prepend(out, DecodeQuads(clean[i..]))
              == if AllValues(quad) then Prepend(out + Ungroup(quad), DecodeQuads(clean[i + 4..]))
                 else Err(InvalidCharacter)
  {
    var rest := clean[i..];
    hide AllValues, Ungroup;
    assert rest[..4] == clean[i..i + 4] && rest[4..] == clean[i + 4..];
    if AllValues(rest[..4]) {
      PrependTwice(out, Ungroup(rest[..4]), DecodeQuads(rest[4..]));
    }
  }

  lemma PrependToRemainder(out: Bytes, rest: Bytes)
    requires |rest| < 4
    ensures Prepend(out, DecodeQuads(rest)) == Ok(out)
  {
    assert out + [] == out;
  }

  function Prepend(a: Bytes, r: Result<Bytes, DecodeError>): Result<Bytes, DecodeError> {
    match r
    case Err(e) => Err(e)
    case Ok(b) => Ok(a + b)
  }

  lemma PrependNothing(r: Result<Bytes, DecodeError>)
    ensures Prepend([], r) == r
  {
    if r.Ok? {
      assert [] + r.value == r.value;
    }
  }

  lemma PrependTwice(a: Bytes, b: Bytes, r: Result<Bytes, DecodeError>)
    ensures Prepend(a, Prepend(b, r)) == Prepend(a + b, r)
  {
    if r.Ok? {
      assert a + (b + r.value) == a + b + r.value;
    }
  }

  lemma DecodeOfNothing(clean: Bytes)
    ensures DecodeQuads(clean) == Prepend([], DecodeQuads(clean[0..]))
  {
    hide DecodeQuads;
    assert clean[0..] == clean;
    PrependNothing(DecodeQuads(clean));
  }

  // ------------------------------------------------------------------ round trips

  lemma Recombine(n: nat)
    requires n < 0x100_0000
    ensures n / 0x4_0000 % 64 * 0x4_0000 + n / 0x1000 % 64 * 0x1000 + n / 0x40 % 64 * 0x40 + n % 64 == n
  {
    Utf8.Sixes(n);
  }

  lemma Pads4(q: Bytes)
    requires |q| == 4
    ensures Pads(q) == (if q[0] == PAD then 1 else 0) + (if q[1] == PAD then 1 else 0)
                       + (if q[2] == PAD then 1 else 0) + (if q[3] == PAD then 1 else 0)
  {
    assert q[..3][..2] == q[..2] && q[..2][..1] == q[..1] && q[..1][..0] == [];
    assert Pads(q[..1]) == if q[0] == PAD then 1 else 0;
    assert Pads(q[..2]) == Pads(q[..1]) + if q[1] == PAD then 1 else 0;
    assert Pads(q[..3]) == Pads(q[..2]) + if q[2] == PAD then 1 else 0;
  }

  /** The three bytes of a 24-bit number. */
  lemma BytesOf(b0: byte, b1: byte, b2: byte)
    ensures var n := (b0 as int) * 0x1_0000 + (b1 as int) * 0x100 + (b2 as int);
            0 <= n < 0x100_0000 && n / 0x1_0000 % 0x100 == b0 && n / 0x100 % 0x100 == b1 && n % 0x100 == b2
  {
  }

  lemma QuadSymbols(n: nat, len: nat)
    requires len < 3 ==> n % 64 == 0
    requires len < 2 ==> n / 0x40 % 64 == 0
    ensures var q := Quad(n, len);
            && Value(q[0]) == Some(n / 0x4_0000 % 64) && Value(q[1]) == Some(n / 0x1000 % 64)
            && Value(q[2]) == Some(n / 0x40 % 64) && Value(q[3]) == Some(n % 64)
            && q[0] != PAD && q[1] != PAD && (q[2] == PAD <==> len < 2) && (q[3] == PAD <==> len < 3)
            && forall i :: 0 <= i < 4 ==> NotSpace(q[i]) && q[i] != 59
  {
    SymbolRoundTrip(n / 0x4_0000 % 64);
    SymbolRoundTrip(n / 0x1000 % 64);
    SymbolRoundTrip(n / 0x40 % 64);
    SymbolRoundTrip(n % 64);
    assert Value(PAD) == Some(0) && NotSpace(PAD) && PAD != 59;
    hide Symbol, Value, NotSpace;
  }

  /** Nothing that is dropped or that could start the marker. */
  predicate IsPlain(text: Bytes) {
    forall b :: b in text ==> NotSpace(b) && b != 59
  }

  lemma PlainTogether(a: Bytes, b: Bytes)
    requires IsPlain(a) && IsPlain(b)
    ensures IsPlain(a + b)
  {
    hide NotSpace;
  }

  lemma GroupRoundTrip(chunk: Bytes)
    requires 1 <= |chunk| <= 3
    ensures AllValues(Group(chunk)) && Ungroup(Group(chunk)) == chunk
    ensures IsPlain(Group(chunk))
  {
    hide Value, NotSpace, Pads, Quad;
    var n, q := NumberOf(chunk), Group(chunk);
    var b1 := if |chunk| > 1 then chunk[1] else 0;
    var b2 := if |chunk| > 2 then chunk[2] else 0;
    BytesOf(chunk[0], b1, b2);
    UnpaddedValues(n, b1, b2);
    QuadSymbols(n, |chunk|);
    hide NumberOf;
    Pads4(q);
    Recombine(n);
    assert AllValues(q);
    assert Number(q) == n;
    UngroupBytes(q, chunk);
  }

  lemma UngroupBytes(q: Bytes, chunk: Bytes)
    requires 1 <= |chunk| <= 3 && |q| == 4 && AllValues(q)
    requires Pads(q) == 3 - |chunk|
    requires Number(q) / 0x1_0000 % 0x100 == chunk[0] as int
    requires |chunk| > 1 ==> Number(q) / 0x100 % 0x100 == chunk[1] as int
    requires |chunk| > 2 ==> Number(q) % 0x100 == chunk[2] as int
    ensures Ungroup(q) == chunk
  {
    hide Number, Pads, AllValues;
  }

  /** Where padding replaces a symbol, the symbol would have been that of 0. */
  lemma UnpaddedValues(n: nat, b1: byte, b2: byte)
    requires n % 0x1_0000 == (b1 as int) * 0x100 + b2
    ensures b1 == 0 && b2 == 0 ==> n / 0x40 % 64 == 0 && n % 64 == 0
    ensures b2 == 0 ==> n % 64 == 0
  {
    var high := n / 0x1_0000;
    assert n == high * 0x1_0000 + (b1 as int) * 0x100 + (b2 as int);
    if b2 == 0 {
      SixtyFourTimes(n, high * 0x400 + (b1 as int) * 4);
    }
    if b1 == 0 && b2 == 0 {
      SixtyFourTimes(high * 0x400, high * 0x10);
    }
  }

  lemma SixtyFourTimes(n: nat, k: nat)
    requires n == 64 * k
    ensures n % 64 == 0 && n / 64 == k
  {
  }

  lemma EncodeSplits(data: Bytes)
    requires data != []
    ensures var k := Min(3, |data|);
            Encode(data) == Group(data[..k]) + Encode(data[k..]) && data[..k] + data[k..] == data
  {
    hide Group;
    var k := Min(3, |data|);
    assert data[..k] + data[k..] == data;
    if |data| <= 3 {
      assert data[..k] == data && data[k..] == [] && Encode(data[k..]) == [];
    }
  }

  lemma {:induction false} QuadsRoundTrip(data: Bytes)
    ensures |Encode(data)| % 4 == 0 && DecodeQuads(Encode(data)) == Ok(data)
    ensures IsPlain(Encode(data))
  {
    if data != [] {
      var k := Min(3, |data|);
      hide Encode, Group, Ungroup, AllValues, DecodeQuads, IsPlain;
      var head, tail := data[..k], data[k..];
      EncodeSplits(data);
      GroupRoundTrip(head);
      QuadsRoundTrip(tail);
      OneQuad(Group(head), Encode(tail), head, tail);
      PlainTogether(Group(head), Encode(tail));
    }
  }

  lemma OneQuad(quad: Bytes, rest: Bytes, head: Bytes, tail: Bytes)
    requires |quad| == 4 && AllValues(quad) && Ungroup(quad) == head
    requires |rest| % 4 == 0 && DecodeQuads(rest) == Ok(tail)
    ensures |quad + rest| % 4 == 0 && DecodeQuads(quad + rest) == Ok(head + tail)
  {
    hide AllValues, Ungroup;
    var all := quad + rest;
    assert all[..4] == quad && all[4..] == rest;
  }

  /** `payload` is the encoding of `data` with blanks inserted anywhere. */
  predicate Spaced(payload: Bytes, data: Bytes) {
    Filter(payload, NotSpace) == Encode(data)
  }

  lemma {:induction false} NoMarkerWithoutSemicolon(input: Bytes, i: nat)
    requires forall b :: b in input ==> b != 59
    ensures FindFrom(input, i).None?
    decreases |input| - i
  {
    if i + 8 <= |input| {
      assert input[i] in input && input[i..i + 8][0] == input[i];
      NoMarkerWithoutSemicolon(input, i + 1);
    }
  }

  lemma {:induction false} MarkerStaysFirst(head: Bytes, tail: Bytes, i: nat)
    requires FindFrom(head, i).Some?
    ensures FindFrom(head + tail, i) == FindFrom(head, i)
    decreases |head| - i
  {
    assert (head + tail)[i..i + 8] == head[i..i + 8];
    if head[i..i + 8] != MARKER {
      MarkerStaysFirst(head, tail, i + 1);
    }
  }

  lemma PayloadDecodes(payload: Bytes, data: Bytes)
    requires Spaced(payload, data)
    ensures forall b :: b in payload ==> b != 59
    ensures |Filter(payload, NotSpace)| % 4 == 0 && DecodeQuads(Filter(payload, NotSpace)) == Ok(data)
  {
    QuadsRoundTrip(data);
    FilterMembers(payload, NotSpace);
  }

  /** Decoding undoes encoding, with blanks inserted anywhere in between. */
  lemma DecodeUndoesEncode(payload: Bytes, data: Bytes)
    requires Spaced(payload, data)
    ensures Decode(payload) == Ok(data)
  {
    PayloadDecodes(payload, data);
    NoMarkerWithoutSemicolon(payload, 0);
  }

  /** ... and behind any prefix that ends with the first marker. */
  lemma DecodeUndoesEncodeBehindPrefix(prefix: Bytes, payload: Bytes, data: Bytes)
    requires Spaced(payload, data)
    requires FindFrom(prefix + MARKER, 0) == Some(|prefix|)
    ensures Decode(prefix + MARKER + payload) == Ok(data)
  {
    hide FindFrom, DecodeQuads, Filter;
    PayloadDecodes(payload, data);
    MarkerStaysFirst(prefix + MARKER, payload, 0);
    assert (prefix + MARKER + payload)[|prefix| + 8..] == payload;
  }

  /** The plain round trip. */
  lemma EncodedIsSpaced(data: Bytes)
    ensures Spaced(Encode(data), data) && Decode(Encode(data)) == Ok(data)
  {
    QuadsRoundTrip(data);
    FilterAll(Encode(data), NotSpace);
    DecodeUndoesEncode(Encode(data), data);
  }
}
