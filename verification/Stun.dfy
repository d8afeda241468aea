/** Reading the mapped address out of a STUN binding response (sections 6, 15, 15.1 and 15.2 of
    RFC 5389), as the engine does (src/rendezvous.rs) and as the Android client does
    (WanDiscoveryEngine.kt). */
module Stun {
  import opened Prelude
  import opened Bits

  const SUCCESS_RESPONSE: u16 := 0x0101
  const XOR_MAPPED: u16 := 0x0020
  const MAPPED: u16 := 0x0001
  const COOKIE: Bytes := [0x21, 0x12, 0xa4, 0x42]

  datatype Endpoint = Endpoint(a: byte, b: byte, c: byte, d: byte, port: u16)

  function XorByte(a: byte, b: byte): byte {
    XorOfWords(a, b);
    Xor(a, b)
  }

  function XorWord(a: u16, b: u16): u16 {
    XorOfWords(a, b);
    Xor(a, b)
  }

  /** An address attribute's value that is long enough and of the IPv4 family. */
  predicate IsIpv4(value: Bytes) {
    |value| >= 8 && value[1] == 0x01
  }

  function PlainAddress(value: Bytes): Endpoint
    requires IsIpv4(value)
  {
    Endpoint(value[4], value[5], value[6], value[7], Word(value, 2))
  }

  function XoredAddress(value: Bytes): Endpoint
    requires IsIpv4(value)
  {
    Endpoint(XorByte(value[4], 0x21), XorByte(value[5], 0x12), XorByte(value[6], 0xa4), XorByte(value[7], 0x42),
             XorWord(Word(value, 2), 0x2112))
  }

  function Padded(n: nat): nat {
    (n + 3) / 4 * 4
  }

  // ------------------------------------------------------------- the engine's parser

  /** The attribute at the front of `b`, if a whole one is there. */
  predicate HasAttribute(b: Bytes) {
    |b| >= 4 && 4 + Word(b, 2) <= |b|
  }

  function ValueOf(b: Bytes): Bytes
    requires HasAttribute(b)
  {
    b[4..4 + Word(b, 2)]
  }

  function Rest(b: Bytes): (r: Bytes)
    requires HasAttribute(b)
    ensures |r| < |b|
  {
    b[Min(4 + Padded(Word(b, 2)), |b|)..]
  }

  /** The answer given by the attributes in `b`, falling back to `fallback`. */
  function Scan(b: Bytes, fallback: Option<Endpoint>): Option<Endpoint>
    decreases |b|
  {
    if !HasAttribute(b) then fallback
    else if Word(b, 0) == XOR_MAPPED && IsIpv4(ValueOf(b)) then Some(XoredAddress(ValueOf(b)))
    else if Word(b, 0) == MAPPED && fallback.None? && IsIpv4(ValueOf(b)) then
      Scan(Rest(b), Some(PlainAddress(ValueOf(b))))
    else Scan(Rest(b), fallback)
  }

  lemma SliceOfSlice(b: Bytes, lo: nat, hi: nat, i: nat, j: nat)
    requires i <= j && lo + j <= hi <= |b|
    ensures b[lo..hi][i..j] == b[lo + i..lo + j]
  {
    var inner, outer := b[lo..hi][i..j], b[lo + i..lo + j];
    assert |inner| == |outer|;
    forall k | 0 <= k < |inner| ensures inner[k] == outer[k] {
    }
  }

  /** One turn of the loop, in terms of the whole buffer: no whole attribute left, ... */
  lemma ScanStops(buf: Bytes, offset: nat, end: nat, fallback: Option<Endpoint>)
    requires offset <= end <= |buf|
    requires offset + 4 > end || offset + 4 + Word(buf, offset + 2) > end
    ensures Scan(buf[offset..end], fallback) == fallback
  {
    var left := buf[offset..end];
    assert |left| >= 4 ==> Word(left, 2) == Word(buf, offset + 2);
  }

  /** ... or one with its value and what follows it. */
  lemma ScanTurns(buf: Bytes, offset: nat, end: nat, fallback: Option<Endpoint>)
    requires offset + 4 <= end <= |buf| && offset + 4 + Word(buf, offset + 2) <= end
    ensures var len := Word(buf, offset + 2);
            Scan(buf[offset..end], fallback)
            == ScanAttribute(Word(buf, offset), buf[offset + 4..offset + 4 + len],
                             buf[Min(offset + 4 + Padded(len), end)..end], fallback)
  {
    AttributePieces(buf, offset, end);
    hide XoredAddress, PlainAddress, ValueOf, Rest, Word, Padded;
  }

  lemma AttributePieces(buf: Bytes, offset: nat, end: nat)
    requires offset + 4 <= end <= |buf| && offset + 4 + Word(buf, offset + 2) <= end
    ensures var left, len := buf[offset..end], Word(buf, offset + 2);
            && HasAttribute(left) && Word(left, 0) == Word(buf, offset)
            && ValueOf(left) == buf[offset + 4..offset + 4 + len]
            && Rest(left) == buf[Min(offset + 4 + Padded(len), end)..end]
  {
    var left := buf[offset..end];
    var len: int := Word(buf, offset + 2);
    assert Word(left, 0) == Word(buf, offset) && Word(left, 2) == len;
    var cut := Min(4 + Padded(len), |left|);
    SliceOfSlice(buf, offset, end, 4, 4 + len);
    SliceOfSlice(buf, offset, end, cut, |left|);
    hide Padded;
    assert left[cut..] == left[cut..|left|];
  }

  function ScanAttribute(kind: u16, value: Bytes, rest: Bytes, fallback: Option<Endpoint>): Option<Endpoint> {
    if kind == XOR_MAPPED && IsIpv4(value) then Some(XoredAddress(value))
    else if kind == MAPPED && fallback.None? && IsIpv4(value) then Scan(rest, Some(PlainAddress(value)))
    else Scan(rest, fallback)
  }

  predicate IsResponseTo(buf: Bytes, tx: Bytes) {
    |buf| >= 20 && Word(buf, 0) == SUCCESS_RESPONSE && buf[4..8] == COOKIE && buf[8..20] == tx
  }

  function Body(buf: Bytes): Bytes
    requires |buf| >= 20
  {
    buf[20..Min(|buf|, 20 + Word(buf, 2))]
  }

  function Parse(buf: Bytes, tx: Bytes): Option<Endpoint> {
    if IsResponseTo(buf, tx) then Scan(Body(buf), None) else None
  }

  method ReadXored(data: Bytes) returns (r: Option<Endpoint>)
    ensures r == if IsIpv4(data) then Some(XoredAddress(data)) else None
  {
    if |data| < 8 {
      return None;
    }
    var family := data[1];
    var port := XorWord(Word(data, 2), 0x2112);
    if family != 0x01 {
      return None;
    }
    r := Some(Endpoint(XorByte(data[4], 0x21), XorByte(data[5], 0x12), XorByte(data[6], 0xa4),
                       XorByte(data[7], 0x42), port));
  }

  method ReadPlain(data: Bytes) returns (r: Option<Endpoint>)
    ensures r == if IsIpv4(data) then Some(PlainAddress(data)) else None
  {
    if |data| < 8 {
      return None;
    }
    var family := data[1];
    var port := Word(data, 2);
    if family != 0x01 {
      return None;
    }
    r := Some(Endpoint(data[4], data[5], data[6], data[7], port));
  }

  method ParseStunResponse(buf: Bytes, tx: Bytes) returns (r: Option<Endpoint>)
    ensures r == Parse(buf, tx)
  {
    if |buf| < 20 {
      return None;
    }
    if Word(buf, 0) != SUCCESS_RESPONSE {
      return None;
    }
    var msgLen: int := Word(buf, 2);
    if buf[4..8] != COOKIE {
      return None;
    }
    if buf[8..20] != tx {
      return None;
    }
    r := ScanLoop(buf, Min(|buf|, 20 + msgLen));
  }

  method ScanLoop(buf: Bytes, end: nat) returns (r: Option<Endpoint>)
    requires 20 <= end <= |buf|
    ensures r == Scan(buf[20..end], None)
  {
    hide Scan, Word, Padded, IsIpv4, XoredAddress, PlainAddress;
    var offset: nat := 20;
    var fallback: Option<Endpoint> := None;
    while offset + 4 <= end
      invariant 20 <= offset
      invariant Scan(buf[Min(offset, end)..end], fallback) == Scan(buf[20..end], None)
      decreases end - offset
    {
      var kind := Word(buf, offset);
      var len: int := Word(buf, offset + 2);
      var start := offset + 4;
      var stop := start + len;
      if stop > end {
        ScanStops(buf, offset, end, fallback);
        return fallback;
      }
      ScanTurns(buf, offset, end, fallback);
      var data := buf[start..stop];
      if kind == XOR_MAPPED {
        var address := ReadXored(data);
        if address.Some? {
          return address;
        }
      } else if kind == MAPPED && fallback.None? {
        fallback := ReadPlain(data);
      }
      offset := offset + 4 + Padded(len);
    }
    ScanStops(buf, Min(offset, end), end, fallback);
    r := fallback;
  }

  // ------------------------------------------------- parsing undoes serialisation

  /** An attribute with its padding, whatever the padding bytes are. */
  datatype Attribute = Attribute(kind: u16, value: Bytes, pad: Bytes) {
    predicate Valid() {
      |value| < 0x1_0000 && |pad| == Padded(|value|) - |value|
    }
  }

  predicate AllValid(attrs: seq<Attribute>) {
    forall i :: 0 <= i < |attrs| ==> attrs[i].Valid()
  }

  function Layout(attrs: seq<Attribute>): Bytes
    requires AllValid(attrs)
  {
    if attrs == [] then []
    else WordBytes(attrs[0].kind) + WordBytes(|attrs[0].value|) + attrs[0].value + attrs[0].pad + Layout(attrs[1..])
  }

  function First(attrs: seq<Attribute>, kind: u16): Option<Bytes> {
    if attrs == [] then None
    else if attrs[0].kind == kind && IsIpv4(attrs[0].value) then Some(attrs[0].value)
    else First(attrs[1..], kind)
  }

  lemma {:induction false} FirstIsIpv4(attrs: seq<Attribute>, kind: u16)
    ensures First(attrs, kind).Some? ==> IsIpv4(First(attrs, kind).value)
  {
    if attrs != [] {
      FirstIsIpv4(attrs[1..], kind);
    }
  }

  /** The first IPv4 XOR-MAPPED-ADDRESS un-XORed, else the first IPv4 MAPPED-ADDRESS. */
  function Answer(attrs: seq<Attribute>, fallback: Option<Endpoint>): Option<Endpoint> {
    FirstIsIpv4(attrs, XOR_MAPPED);
    FirstIsIpv4(attrs, MAPPED);
    match First(attrs, XOR_MAPPED)
    case Some(v) => Some(XoredAddress(v))
    case None =>
      if fallback.Some? then fallback
      else match First(attrs, MAPPED) case Some(v) => Some(PlainAddress(v)) case None => None
  }

  lemma FrontAttribute(a: Attribute, tail: Bytes)
    requires a.Valid()
    ensures var b := WordBytes(a.kind) + WordBytes(|a.value|) + a.value + a.pad + tail;
            HasAttribute(b) && Word(b, 0) == a.kind && ValueOf(b) == a.value && Rest(b) == tail
  {
    var b := WordBytes(a.kind) + WordBytes(|a.value|) + a.value + a.pad + tail;
    assert b[0] == WordBytes(a.kind)[0] && b[1] == WordBytes(a.kind)[1];
    assert b[2] == WordBytes(|a.value|)[0] && b[3] == WordBytes(|a.value|)[1];
    assert Word(b, 2) == |a.value|;
  }

  lemma {:induction false} ScanOfLayout(attrs: seq<Attribute>, fallback: Option<Endpoint>)
    requires AllValid(attrs)
    ensures Scan(Layout(attrs), fallback) == Answer(attrs, fallback)
  {
    if attrs != [] {
      var a, tail := attrs[0], Layout(attrs[1..]);
      FrontAttribute(a, tail);
      ScanOfLayout(attrs[1..], fallback);
      if a.kind == MAPPED && fallback.None? && IsIpv4(a.value) {
        ScanOfLayout(attrs[1..], Some(PlainAddress(a.value)));
      }
    }
  }

  /** A response with any attributes, followed by anything in the buffer. */
  function Message(tx: Bytes, attrs: seq<Attribute>, beyond: Bytes): Bytes
    requires AllValid(attrs)
    requires |Layout(attrs)| < 0x1_0000
  {
    WordBytes(SUCCESS_RESPONSE) + WordBytes(|Layout(attrs)|) + COOKIE + tx + Layout(attrs) + beyond
  }

  lemma ParsingUndoesSerialisation(tx: Bytes, attrs: seq<Attribute>, beyond: Bytes)
    requires |tx| == 12 && AllValid(attrs) && |Layout(attrs)| < 0x1_0000
    ensures Parse(Message(tx, attrs, beyond), tx) == Answer(attrs, None)
  {
    hide Layout, Scan, Answer;
    var body := Layout(attrs);
    var m := Message(tx, attrs, beyond);
    assert m[0] == WordBytes(SUCCESS_RESPONSE)[0] && m[1] == WordBytes(SUCCESS_RESPONSE)[1];
    assert m[2] == WordBytes(|body|)[0] && m[3] == WordBytes(|body|)[1];
    assert m[4..8] == COOKIE && m[8..20] == tx && Word(m, 2) == |body|;
    assert Body(m) == body;
    ScanOfLayout(attrs, None);
  }

  /** How a server writes its client's address into an XOR-MAPPED-ADDRESS. */
  function XorMappedValue(e: Endpoint): Bytes {
    [0x00, 0x01] + WordBytes(XorWord(e.port, 0x2112))
    + [XorByte(e.a, 0x21), XorByte(e.b, 0x12), XorByte(e.c, 0xa4), XorByte(e.d, 0x42)]
  }

  /** The address the server saw is the address the engine reports, whatever other
      attributes precede it, as long as none of them is an IPv4 XOR-MAPPED-ADDRESS. */
  lemma ReportedAddressIsTheMappedOne(tx: Bytes, before: seq<Attribute>, e: Endpoint, after: seq<Attribute>)
    requires |tx| == 12 && AllValid(before) && AllValid(after)
    requires First(before, XOR_MAPPED).None?
    requires |Layout(before + [Attribute(XOR_MAPPED, XorMappedValue(e), [])] + after)| < 0x1_0000
    ensures Parse(Message(tx, before + [Attribute(XOR_MAPPED, XorMappedValue(e), [])] + after, []), tx) == Some(e)
  {
    var x := Attribute(XOR_MAPPED, XorMappedValue(e), []);
    assert AllValid(before + [x] + after);
    hide Layout, Parse, First, XoredAddress, XorMappedValue, AllValid;
    XorMappedRoundTrip(e);
    FirstAfter(before, x, after);
    ParsingUndoesSerialisation(tx, before + [x] + after, []);
  }

  lemma XorMappedRoundTrip(e: Endpoint)
    ensures IsIpv4(XorMappedValue(e)) && XoredAddress(XorMappedValue(e)) == e
  {
    var v := XorMappedValue(e);
    assert v[2] == WordBytes(XorWord(e.port, 0x2112))[0] && v[3] == WordBytes(XorWord(e.port, 0x2112))[1];
    assert Word(v, 2) == XorWord(e.port, 0x2112);
    XorUndoesItself(e.port, 0x2112);
    XorUndoesItself(e.a, 0x21);
    XorUndoesItself(e.b, 0x12);
    XorUndoesItself(e.c, 0xa4);
    XorUndoesItself(e.d, 0x42);
  }

  lemma {:induction false} FirstAfter(before: seq<Attribute>, x: Attribute, after: seq<Attribute>)
    requires First(before, x.kind).None? && IsIpv4(x.value)
    ensures First(before + [x] + after, x.kind) == Some(x.value)
  {
    var all := before + [x] + after;
    if before == [] {
      assert all[0] == x;
    } else {
      assert all[1..] == before[1..] + [x] + after;
      FirstAfter(before[1..], x, after);
    }
  }

  // ------------------------------------------------------------ the Android parser

  predicate KotlinAccepts(buf: Bytes, tx: Bytes) {
    |buf| >= 20 && (Word(buf, 0) == 0x0101 || Word(buf, 0) == 0x0111) && buf[4..8] == COOKIE && buf[8..20] == tx
  }

  /** Where the buffer position ends up after an attribute's value, counted from its start.
      A short or non-IPv4 address attribute leaves it behind. */
  function Consumed(kind: u16, len: nat): (r: nat)
    ensures r <= len
  {
    if kind == XOR_MAPPED || kind == MAPPED then (if len >= 8 then 4 else 0) else len
  }

  function Padding(len: nat): (r: nat)
    ensures r <= 3
  {
    (4 - len % 4) % 4
  }

  /** How far the padding of an attribute ending at `stop` is skipped. */
  function Skip(len: nat, stop: nat, length: nat): nat {
    if stop + Padding(len) <= length then Padding(len) else 0
  }

  /** `offset` is what the loop counts, `pos` is where the buffer stands. */
  function KotlinScan(buf: Bytes, pos: nat, offset: nat): Option<Endpoint>
    requires pos <= offset <= |buf|
    decreases |buf| - offset
  {
    if offset + 4 > |buf| then None
    else
      var kind, len := Word(buf, pos), Word(buf, pos + 2);
      if offset + 4 + len > |buf| then None
      else
        var value := buf[pos + 4..pos + 4 + len];
        if kind == XOR_MAPPED && IsIpv4(value) then Some(XoredAddress(value))
        else if kind == MAPPED && IsIpv4(value) then Some(PlainAddress(value))
        else
          var skip := Skip(len, offset + 4 + len, |buf|);
          KotlinScan(buf, pos + 4 + Consumed(kind, len) + skip, offset + 4 + len + skip)
  }

  function KotlinParse(buf: Bytes, tx: Bytes): Option<Endpoint> {
    if KotlinAccepts(buf, tx) then KotlinScan(buf, 20, 20) else None
  }

  /** Reads an address at `pos` and says where the buffer stands afterwards. */
  method ReadAddressAt(buf: Bytes, pos: nat, len: nat, xored: bool) returns (r: Option<Endpoint>, after: nat)
    requires pos + len <= |buf|
    ensures var value := buf[pos..pos + len];
            r == if !IsIpv4(value) then None else Some(if xored then XoredAddress(value) else PlainAddress(value))
    ensures r.None? ==> after == pos + if len >= 8 then 4 else 0
  {
    after := pos;
    if len < 8 {
      return None, after;
    }
    ghost var value := buf[pos..pos + len];
    var family := buf[pos + 1];
    var port := Word(buf, pos + 2);
    after := pos + 4;
    if family != 0x01 {
      return None, after;
    }
    assert value[2] == buf[pos + 2] && value[3] == buf[pos + 3];
    if xored {
      r := Some(Endpoint(XorByte(buf[after], 0x21), XorByte(buf[after + 1], 0x12),
                         XorByte(buf[after + 2], 0xa4), XorByte(buf[after + 3], 0x42), XorWord(port, 0x2112)));
    } else {
      r := Some(Endpoint(buf[after], buf[after + 1], buf[after + 2], buf[after + 3], port));
    }
    after := after + 4;
  }

  function AddressIn(kind: u16, value: Bytes): Option<Endpoint> {
    if kind == XOR_MAPPED && IsIpv4(value) then Some(XoredAddress(value))
    else if kind == MAPPED && IsIpv4(value) then Some(PlainAddress(value))
    else None
  }

  /** An attribute's value: an address to return, or the place to go on from. */
  method ReadValueAt(buf: Bytes, pos: nat, kind: u16, len: nat) returns (r: Option<Endpoint>, after: nat)
    requires pos + len <= |buf|
    ensures r == AddressIn(kind, buf[pos..pos + len])
    ensures r.None? ==> after == pos + Consumed(kind, len)
  {
    if kind == XOR_MAPPED {
      r, after := ReadAddressAt(buf, pos, len, true);
    } else if kind == MAPPED {
      r, after := ReadAddressAt(buf, pos, len, false);
    } else {
      r, after := None, pos + len;
    }
  }

  /** `data` may be longer than the received datagram. No read runs past the datagram. */
  method ParseStunBindingResponse(data: Bytes, length: nat, expected: Bytes) returns (r: Option<Endpoint>)
    requires length <= |data|
    ensures r == KotlinParse(data[..length], expected)
  {
    if length < 20 {
      return None;
    }
    var buf := data[..length];
    var msgType := Word(buf, 0);
    if msgType != 0x0101 && msgType != 0x0111 {
      return None;
    }
    if buf[4..8] != COOKIE {
      return None;
    }
    if buf[8..20] != expected {
      return None;
    }
    r := KotlinLoop(buf);
  }

  method KotlinLoop(buf: Bytes) returns (r: Option<Endpoint>)
    requires |buf| >= 20
    ensures r == KotlinScan(buf, 20, 20)
  {
    hide KotlinScan, Word, Padding, AddressIn, IsIpv4, XoredAddress, PlainAddress, Consumed;
    var length := |buf|;
    var pos, offset: nat := 20, 20;
    while offset + 4 <= length
      invariant 20 <= pos <= offset <= length
      invariant KotlinScan(buf, pos, offset) == KotlinScan(buf, 20, 20)
      decreases length - offset
    {
      var kind := Word(buf, pos);
      var len: int := Word(buf, pos + 2);
      if offset + 4 + len > length {
        KotlinStops(buf, pos, offset);
        return None;
      }
      KotlinTurns(buf, pos, offset);
      pos := pos + 4;
      offset := offset + 4;
      var address;
      address, pos := ReadValueAt(buf, pos, kind, len);
      if address.Some? {
        return address;
      }
      var padding := Padding(len);
      if padding > 0 && offset + len + padding <= length {
        pos := pos + padding;
        offset := offset + padding;
      }
      offset := offset + len;
    }
    KotlinStops(buf, pos, offset);
    r := None;
  }

  lemma KotlinStops(buf: Bytes, pos: nat, offset: nat)
    requires pos <= offset <= |buf|
    requires offset + 4 > |buf| || offset + 4 + Word(buf, pos + 2) > |buf|
    ensures KotlinScan(buf, pos, offset) == None
  {
  }

  lemma KotlinTurns(buf: Bytes, pos: nat, offset: nat)
    requires pos <= offset && offset + 4 <= |buf| && offset + 4 + Word(buf, pos + 2) <= |buf|
    ensures var kind, len := Word(buf, pos), Word(buf, pos + 2);
            var stop := offset + 4 + len;
            var found := AddressIn(kind, buf[pos + 4..pos + 4 + len]);
            var skip := Skip(len, stop, |buf|);
            KotlinScan(buf, pos, offset)
            == if found.Some? then found else KotlinScan(buf, pos + 4 + Consumed(kind, len) + skip, stop + skip)
  {
  }

  // --------------------------------------------------- when the two parsers agree

  /** What the client takes to be left behind an attribute it finds no address in. Its place lags
      behind when the attribute is an address of another family, and since it still counts every
      byte, as much is missing at the end. */
  function Lagging(b: Bytes): Bytes
    requires HasAttribute(b)
  {
    var len := Word(b, 2);
    var skip := Skip(len, 4 + len, |b|);
    b[4 + Consumed(Word(b, 0), len) + skip..|b| - (len - Consumed(Word(b, 0), len))]
  }

  /** The client's answer in terms of the bytes alone. */
  function ClientScan(b: Bytes): Option<Endpoint>
    decreases |b|
  {
    if !HasAttribute(b) then None
    else
      var found := AddressIn(Word(b, 0), ValueOf(b));
      if found.Some? then found else ClientScan(Lagging(b))
  }

  lemma {:induction false} ClientRefinesScan(buf: Bytes, pos: nat, offset: nat)
    requires pos <= offset <= |buf|
    ensures KotlinScan(buf, pos, offset) == ClientScan(buf[pos..|buf| - (offset - pos)])
    decreases |buf| - offset
  {
    hide AddressIn, Padding, IsIpv4, KotlinScan, Lagging, ValueOf, Consumed;
    var lag := offset - pos;
    var b := buf[pos..|buf| - lag];
    if |b| < 4 {
      KotlinStops(buf, pos, offset);
    } else {
      assert Word(b, 0) == Word(buf, pos) && Word(b, 2) == Word(buf, pos + 2);
      hide Word;
      var kind, len: int := Word(buf, pos), Word(buf, pos + 2);
      if offset + 4 + len > |buf| {
        KotlinStops(buf, pos, offset);
      } else {
        ClientTurn(buf, pos, offset);
        var skip, used := Skip(len, offset + 4 + len, |buf|), Consumed(kind, len);
        KotlinTurns(buf, pos, offset);
        if AddressIn(kind, ValueOf(b)).None? {
          ClientRefinesScan(buf, pos + 4 + used + skip, offset + 4 + len + skip);
        }
      }
    }
  }

  /** One attribute as the client sees it, in the buffer and in the bytes it takes to be left. */
  lemma ClientTurn(buf: Bytes, pos: nat, offset: nat)
    requires pos <= offset && offset + 4 <= |buf| && offset + 4 + Word(buf, pos + 2) <= |buf|
    ensures var b, kind, len := buf[pos..|buf| - (offset - pos)], Word(buf, pos), Word(buf, pos + 2);
            var skip, used := Skip(len, offset + 4 + len, |buf|), Consumed(kind, len);
            && HasAttribute(b) && Word(b, 0) == kind && ValueOf(b) == buf[pos + 4..pos + 4 + len]
            && Lagging(b) == buf[pos + 4 + used + skip..|buf| - (offset + len - pos - used)]
  {
    ClientFront(buf, pos, offset);
    var lag := offset - pos;
    var b := buf[pos..|buf| - lag];
    var kind, len: int := Word(buf, pos), Word(buf, pos + 2);
    hide Word, Padding, Consumed, ValueOf, HasAttribute;
    assert Word(b, 2) == len;
    var skip, used := Skip(len, offset + 4 + len, |buf|), Consumed(kind, len);
    assert skip == Skip(len, 4 + len, |b|);
    SliceOfSlice(buf, pos, |buf| - lag, 4 + used + skip, |b| - (len - used));
  }

  lemma ClientFront(buf: Bytes, pos: nat, offset: nat)
    requires pos <= offset && offset + 4 <= |buf| && offset + 4 + Word(buf, pos + 2) <= |buf|
    ensures var b, len := buf[pos..|buf| - (offset - pos)], Word(buf, pos + 2);
            && |b| == |buf| - offset && 4 + len <= |b| && HasAttribute(b)
            && Word(b, 0) == Word(buf, pos) && Word(b, 2) == len && ValueOf(b) == buf[pos + 4..pos + 4 + len]
  {
    var b, len: int := buf[pos..|buf| - (offset - pos)], Word(buf, pos + 2);
    assert Word(b, 0) == Word(buf, pos) && Word(b, 2) == len;
    hide Word;
    SliceOfSlice(buf, pos, |buf| - (offset - pos), 4, 4 + len);
  }

  datatype AddressAttribute = NoAddress | Address(kind: u16, value: Bytes, after: Bytes, lagging: Bytes)

  /** The first attribute of either address kind, what follows it, and what the client takes to
      follow it. */
  function FirstAddress(b: Bytes): AddressAttribute
    decreases |b|
  {
    if !HasAttribute(b) then NoAddress
    else if Word(b, 0) == XOR_MAPPED || Word(b, 0) == MAPPED then Address(Word(b, 0), ValueOf(b), Rest(b), Lagging(b))
    else FirstAddress(Rest(b))
  }

  /** Up to the first address attribute both parsers walk in step. */
  lemma {:induction false} InStepUpToFirstAddress(buf: Bytes, offset: nat)
    requires offset <= |buf|
    ensures InStep(buf, offset)
    decreases |buf| - offset
  {
    var b := buf[offset..];
    if !HasAttribute(b) {
      NothingLeft(buf, offset);
    } else if Word(b, 0) == XOR_MAPPED || Word(b, 0) == MAPPED {
      AddressInStep(buf, offset);
    } else {
      OtherInStep(buf, offset);
      var next := |buf| - |Rest(b)|;
      if next + 4 <= |buf| {
        hide KotlinScan, Scan, FirstAddress, Word, ValueOf, Rest, HasAttribute;
        InStepUpToFirstAddress(buf, next);
      }
    }
  }

  predicate InStep(buf: Bytes, offset: nat)
    requires offset <= |buf|
  {
    var first := FirstAddress(buf[offset..]);
    && (first.NoAddress? ==> KotlinScan(buf, offset, offset).None? && Scan(buf[offset..], None).None?)
    && (first.Address? && IsIpv4(first.value) ==>
          KotlinScan(buf, offset, offset)
          == Some(if first.kind == XOR_MAPPED then XoredAddress(first.value) else PlainAddress(first.value)))
    && (first.Address? && first.kind == XOR_MAPPED && IsIpv4(first.value) ==>
          Scan(buf[offset..], None) == Some(XoredAddress(first.value)))
    && (first.Address? && !IsIpv4(first.value) ==>
          KotlinScan(buf, offset, offset) == ClientScan(first.lagging)
          && Scan(buf[offset..], None) == Scan(first.after, None))
  }

  lemma SameFront(buf: Bytes, offset: nat)
    requires offset <= |buf| && |buf[offset..]| >= 4
    ensures Word(buf, offset) == Word(buf[offset..], 0) && Word(buf, offset + 2) == Word(buf[offset..], 2)
  {
  }

  lemma NothingLeft(buf: Bytes, offset: nat)
    requires offset <= |buf| && !HasAttribute(buf[offset..])
    ensures KotlinScan(buf, offset, offset).None? && Scan(buf[offset..], None).None?
            && FirstAddress(buf[offset..]).NoAddress?
  {
    if |buf[offset..]| >= 4 {
      SameFront(buf, offset);
    }
  }

  lemma AddressInStep(buf: Bytes, offset: nat)
    requires offset <= |buf| && HasAttribute(buf[offset..])
    requires Word(buf[offset..], 0) == XOR_MAPPED || Word(buf[offset..], 0) == MAPPED
    ensures InStep(buf, offset)
  {
    hide XoredAddress, PlainAddress;
    SameFront(buf, offset);
    assert buf[offset + 4..offset + 4 + Word(buf, offset + 2)] == ValueOf(buf[offset..]);
    if !IsIpv4(ValueOf(buf[offset..])) {
      PastForeignAddress(buf, offset);
    }
  }

  /** Past a non-IPv4 address attribute the engine goes on with what follows, the client with
      what it takes to follow. */
  lemma PastForeignAddress(buf: Bytes, offset: nat)
    requires offset <= |buf| && HasAttribute(buf[offset..]) && !IsIpv4(ValueOf(buf[offset..]))
    ensures KotlinScan(buf, offset, offset) == ClientScan(Lagging(buf[offset..]))
    ensures Scan(buf[offset..], None) == Scan(Rest(buf[offset..]), None)
  {
    var b := buf[offset..];
    hide IsIpv4, XoredAddress, PlainAddress, Lagging, KotlinScan, Rest;
    assert buf[offset..|buf| - 0] == b;
    ClientRefinesScan(buf, offset, offset);
  }

  /** Past an attribute of any other kind, both stand at the same place or at the end. */
  lemma OtherInStep(buf: Bytes, offset: nat)
    requires offset <= |buf| && HasAttribute(buf[offset..])
    requires Word(buf[offset..], 0) != XOR_MAPPED && Word(buf[offset..], 0) != MAPPED
    ensures var next := |buf| - |Rest(buf[offset..])|;
            Rest(buf[offset..]) == buf[next..]
            && (if next + 4 <= |buf| then InStep(buf, next) ==> InStep(buf, offset) else InStep(buf, offset))
  {
    var b := buf[offset..];
    var next := |buf| - |Rest(b)|;
    NextInStep(buf, offset);
    ScanPastOther(b);
    hide KotlinScan, Scan, FirstAddress, Word, Rest, HasAttribute, ValueOf, IsIpv4, XoredAddress, PlainAddress;
    if next + 4 > |buf| {
      ScanTooShort(Rest(b));
    }
  }

  lemma ScanPastOther(b: Bytes)
    requires HasAttribute(b) && Word(b, 0) != XOR_MAPPED && Word(b, 0) != MAPPED
    ensures Scan(b, None) == Scan(Rest(b), None) && FirstAddress(b) == FirstAddress(Rest(b))
  {
  }

  lemma ScanTooShort(b: Bytes)
    requires |b| < 4
    ensures Scan(b, None).None? && FirstAddress(b).NoAddress?
  {
  }

  lemma NextInStep(buf: Bytes, offset: nat)
    requires offset <= |buf| && HasAttribute(buf[offset..])
    requires Word(buf[offset..], 0) != XOR_MAPPED && Word(buf[offset..], 0) != MAPPED
    ensures var next := |buf| - |Rest(buf[offset..])|;
            Rest(buf[offset..]) == buf[next..]
            && KotlinScan(buf, offset, offset) == if next + 4 <= |buf| then KotlinScan(buf, next, next) else None
  {
    hide KotlinScan, Word, Padded, Padding, Rest, ValueOf;
    SameFront(buf, offset);
    RestPosition(buf, offset);
    var len: int := Word(buf, offset + 2);
    PaddingIs(len);
    KotlinPastOther(buf, offset);
    var stop := offset + 4 + len;
    var next := stop + Skip(len, stop, |buf|);
    if next + 4 > |buf| {
      KotlinStops(buf, next, next);
    }
  }

  lemma KotlinPastOther(buf: Bytes, offset: nat)
    requires offset + 4 <= |buf| && offset + 4 + Word(buf, offset + 2) <= |buf|
    requires Word(buf, offset) != XOR_MAPPED && Word(buf, offset) != MAPPED
    ensures var len := Word(buf, offset + 2);
            var next := offset + 4 + len + Skip(len, offset + 4 + len, |buf|);
            KotlinScan(buf, offset, offset) == KotlinScan(buf, next, next)
  {
    hide Padding, IsIpv4, XoredAddress, PlainAddress;
  }

  lemma RestPosition(buf: Bytes, offset: nat)
    requires offset <= |buf| && HasAttribute(buf[offset..])
    ensures var next := |buf| - |Rest(buf[offset..])|;
            Rest(buf[offset..]) == buf[next..] && next == Min(offset + 4 + Padded(Word(buf, offset + 2)), |buf|)
  {
    SameFront(buf, offset);
    hide Padded;
  }

  lemma PaddingIs(len: nat)
    ensures Padding(len) == Padded(len) - len
  {
  }

  /** The first IPv4 XOR-MAPPED-ADDRESS among the attributes, un-XORed. */
  function FirstXored(b: Bytes): Option<Endpoint>
    decreases |b|
  {
    if !HasAttribute(b) then None
    else if Word(b, 0) == XOR_MAPPED && IsIpv4(ValueOf(b)) then Some(XoredAddress(ValueOf(b)))
    else FirstXored(Rest(b))
  }

  lemma {:induction false} ScanWithFallback(b: Bytes, e: Endpoint)
    ensures Scan(b, Some(e)) == if FirstXored(b).Some? then FirstXored(b) else Some(e)
    decreases |b|
  {
    if HasAttribute(b) {
      hide Word, ValueOf, Rest, XoredAddress, IsIpv4;
      ScanWithFallback(Rest(b), e);
    }
  }

  lemma {:induction false} ScanFromFirstAddress(b: Bytes)
    requires var first := FirstAddress(b); first.Address? && first.kind == MAPPED && IsIpv4(first.value)
    ensures Scan(b, None) == if FirstXored(b).Some? then FirstXored(b) else Some(PlainAddress(FirstAddress(b).value))
    decreases |b|
  {
    if Word(b, 0) == MAPPED {
      ScanWithFallback(Rest(b), PlainAddress(ValueOf(b)));
    } else {
      hide Word, ValueOf, Rest, XoredAddress, PlainAddress, IsIpv4;
      ScanFromFirstAddress(Rest(b));
    }
  }

  /** For every success response with nothing behind the length it gives: the parsers agree if
      it has no address attribute or the first is an IPv4 XOR-MAPPED one; if the first is an IPv4
      MAPPED one, exactly when no XOR-MAPPED one follows or it says the same; and if the first is
      not IPv4, exactly when the client finds the same behind it in spite of its lag. */
  lemma ParsersAgree(buf: Bytes, tx: Bytes)
    requires IsResponseTo(buf, tx) && |buf| <= 20 + Word(buf, 2)
    ensures var first, xored := FirstAddress(Body(buf)), FirstXored(Body(buf));
            KotlinParse(buf, tx) == Parse(buf, tx)
            <==> (match first
                  case NoAddress => true
                  case Address(kind, value, after, lagging) =>
                    if !IsIpv4(value) then ClientScan(lagging) == Scan(after, None)
                    else kind == XOR_MAPPED || xored.None? || xored == Some(PlainAddress(value)))
  {
    assert Body(buf) == buf[20..];
    InStepUpToFirstAddress(buf, 20);
    FirstAddressKinds(Body(buf));
    var first := FirstAddress(Body(buf));
    hide KotlinScan, ClientScan, Scan, FirstAddress, FirstXored, XoredAddress, PlainAddress, IsIpv4;
    if first.Address? && first.kind == MAPPED && IsIpv4(first.value) {
      ScanFromFirstAddress(Body(buf));
    }
  }

  /** In particular they agree if a non-IPv4 address attribute comes first and is the last. */
  lemma LoneForeignAddressIsNone(b: Bytes)
    requires HasAttribute(b) && |Rest(b)| < 4
    ensures ClientScan(Lagging(b)).None? && Scan(Rest(b), None).None?
  {
    hide Word, Padding;
    PaddingIs(Word(b, 2));
  }

  /** The client reads an error response like a success response; the engine rejects it. */
  lemma ErrorResponseReadByClientOnly(buf: Bytes, tx: Bytes)
    requires |buf| >= 20 && Word(buf, 0) == 0x0111
    ensures Parse(buf, tx).None?
    ensures KotlinParse(buf, tx) == KotlinParse(WordBytes(SUCCESS_RESPONSE) + buf[2..], tx)
  {
    var other := WordBytes(SUCCESS_RESPONSE) + buf[2..];
    assert other[0] == WordBytes(SUCCESS_RESPONSE)[0] && other[1] == WordBytes(SUCCESS_RESPONSE)[1];
    assert Word(other, 0) == SUCCESS_RESPONSE;
    assert other[4..8] == buf[4..8] && other[8..20] == buf[8..20] && other[20..] == buf[20..];
    SameScan(buf, other, 20, 20);
  }

  lemma {:induction false} SameScan(a: Bytes, b: Bytes, pos: nat, offset: nat)
    requires |a| == |b| && 20 <= pos <= offset <= |a| && a[20..] == b[20..]
    ensures KotlinScan(a, pos, offset) == KotlinScan(b, pos, offset)
    decreases |a| - offset
  {
    hide XoredAddress, PlainAddress, IsIpv4, Padding;
    forall i | 20 <= i < |a| ensures a[i] == b[i] {
      assert a[i] == a[20..][i - 20] && b[i] == b[20..][i - 20];
    }
    if offset + 4 <= |a| {
      var kind, len: int := Word(a, pos), Word(a, pos + 2);
      var stop := offset + 4 + len;
      if stop <= |a| {
        assert a[pos + 4..pos + 4 + len] == b[pos + 4..pos + 4 + len];
        var skip := Skip(len, stop, |a|);
        SameScan(a, b, pos + 4 + Consumed(kind, len) + skip, stop + skip);
      }
    }
  }

  /** An error response on which they differ. */
  lemma ErrorResponseMakesThemDiffer(tx: Bytes, e: Endpoint)
    requires |tx| == 12
    ensures Ipv4Attribute(e).Valid() && |Layout([Ipv4Attribute(e)])| < 0x1_0000
    ensures var m := Message(tx, [Ipv4Attribute(e)], []);
            var error := WordBytes(0x0111) + m[2..];
            Parse(error, tx).None? && KotlinParse(error, tx) == Some(e)
  {
    var v4 := Ipv4Attribute(e);
    XorMappedRoundTrip(e);
    assert [v4][1..] == [];
    assert Layout([v4]) == WordBytes(XOR_MAPPED) + WordBytes(|v4.value|) + v4.value + v4.pad + [];
    FrontAttribute(v4, []);
    var m := Message(tx, [v4], []);
    var error := WordBytes(0x0111) + m[2..];
    hide Layout, XoredAddress, XorMappedValue, Scan, IsIpv4, FirstAddress;
    MessageFront(tx, [v4]);
    assert error[0] == WordBytes(0x0111)[0] && error[1] == WordBytes(0x0111)[1];
    assert WordBytes(SUCCESS_RESPONSE) + error[2..] == m by {
      assert m[0] == WordBytes(SUCCESS_RESPONSE)[0] && m[1] == WordBytes(SUCCESS_RESPONSE)[1];
      assert error[2..] == m[2..];
    }
    ErrorResponseReadByClientOnly(error, tx);
    InStepUpToFirstAddress(m, 20);
    OnlyAddress(Layout([v4]), v4);
  }

  lemma OnlyAddress(b: Bytes, a: Attribute)
    requires HasAttribute(b) && Word(b, 0) == a.kind == XOR_MAPPED && ValueOf(b) == a.value
    ensures FirstAddress(b).Address? && FirstAddress(b).kind == XOR_MAPPED && FirstAddress(b).value == a.value
  {
  }

  lemma MessageFront(tx: Bytes, attrs: seq<Attribute>)
    requires |tx| == 12 && AllValid(attrs) && |Layout(attrs)| < 0x1_0000
    ensures var m := Message(tx, attrs, []);
            IsResponseTo(m, tx) && m[20..] == Layout(attrs)
  {
    hide Layout;
    var m := Message(tx, attrs, []);
    assert m[0] == WordBytes(SUCCESS_RESPONSE)[0] && m[1] == WordBytes(SUCCESS_RESPONSE)[1];
    assert m[4..8] == COOKIE && m[8..20] == tx;
  }

  lemma {:induction false} FirstAddressKinds(b: Bytes)
    ensures FirstAddress(b).Address? ==> FirstAddress(b).kind == XOR_MAPPED || FirstAddress(b).kind == MAPPED
    decreases |b|
  {
    if HasAttribute(b) {
      FirstAddressKinds(Rest(b));
    }
  }

  lemma EmptyAttributeStep(buf: Bytes, pos: nat, offset: nat)
    requires pos <= offset && offset + 4 <= |buf| && buf[pos] == buf[pos + 1] == buf[pos + 2] == buf[pos + 3] == 0
    ensures KotlinScan(buf, pos, offset) == KotlinScan(buf, pos + 4, offset + 4)
  {
  }

  /** An IPv6 XOR-MAPPED-ADDRESS with all-zero content, as the front of a body. */
  function Ipv6Attribute(): Attribute {
    Attribute(XOR_MAPPED, [0, 2] + seq(18, _ => 0), [])
  }

  function Ipv4Attribute(e: Endpoint): Attribute {
    Attribute(XOR_MAPPED, XorMappedValue(e), [])
  }

  lemma Ipv6ThenIpv4Layout(e: Endpoint)
    ensures Ipv6Attribute().Valid() && Ipv4Attribute(e).Valid()
    ensures var body := Layout([Ipv6Attribute(), Ipv4Attribute(e)]);
            |body| == 36 && body[..6] == [0, 0x20, 0, 20, 0, 2] && forall i :: 6 <= i < 24 ==> body[i] == 0
  {
    var v6, v4 := Ipv6Attribute(), Ipv4Attribute(e);
    hide XorWord, XorByte;
    assert [v6, v4][1..] == [v4] && [v4][1..] == [];
    assert |Layout([v4])| == 12;
  }

  /** With an IPv6 address first they part: the client loses its place in the buffer and
      misses the IPv4 address behind it, which the engine reports. */
  lemma Ipv6FirstMakesThemDiffer(tx: Bytes, e: Endpoint)
    requires |tx| == 12
    ensures Ipv6Attribute().Valid() && Ipv4Attribute(e).Valid()
    ensures |Layout([Ipv6Attribute(), Ipv4Attribute(e)])| < 0x1_0000
    ensures var m := Message(tx, [Ipv6Attribute(), Ipv4Attribute(e)], []);
            Parse(m, tx) == Some(e) && KotlinParse(m, tx) == None
  {
    var v6, v4 := Ipv6Attribute(), Ipv4Attribute(e);
    Ipv6ThenIpv4Layout(e);
    var body := Layout([v6, v4]);
    hide Layout, XorMappedValue, Scan, Parse;
    assert [v6] + [v4] + [] == [v6, v4] && [v6] + [] == [v6];
    NotFirst(v6);
    ReportedAddressIsTheMappedOne(tx, [v6], e, []);
    var m := Message(tx, [v6, v4], []);
    assert m == [1, 1, 0, 36] + COOKIE + tx + body;
    MissesIpv4(m, tx, body);
  }

  lemma NotFirst(a: Attribute)
    requires !IsIpv4(a.value)
    ensures First([a], XOR_MAPPED).None?
  {
    assert [a][1..] == [];
  }

  lemma MissesIpv4(m: Bytes, tx: Bytes, body: Bytes)
    requires |tx| == 12 && m == [1, 1, 0, 36] + COOKIE + tx + body
    requires |body| == 36 && body[..6] == [0, 0x20, 0, 20, 0, 2] && forall i :: 6 <= i < 24 ==> body[i] == 0
    ensures KotlinParse(m, tx) == None
  {
    hide KotlinScan;
    forall i | 20 <= i < 26 ensures m[i] == body[..6][i - 20] {
    }
    forall i | 26 <= i < 44 ensures m[i] == 0 {
      assert m[i] == body[i - 20];
    }
    LosesPlace(m);
  }

  lemma LosesPlace(m: Bytes)
    requires |m| == 56 && m[20..26] == [0, 0x20, 0, 20, 0, 2] && forall i :: 26 <= i < 44 ==> m[i] == 0
    ensures KotlinScan(m, 20, 20) == None
  {
    hide XoredAddress, PlainAddress;
    assert m[20] == m[20..26][0] && m[21] == m[20..26][1] && m[22] == m[20..26][2];
    assert m[23] == m[20..26][3] && m[25] == m[20..26][5];
    assert Word(m, 20) == XOR_MAPPED && Word(m, 22) == 20 && m[24..44][1] == 2;
    assert KotlinScan(m, 20, 20) == KotlinScan(m, 28, 44);
    hide KotlinScan, Word;
    EmptyAttributeStep(m, 28, 44);
    EmptyAttributeStep(m, 32, 48);
    EmptyAttributeStep(m, 36, 52);
    KotlinStops(m, 40, 56);
  }
}
