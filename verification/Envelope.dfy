/** The pairwise envelope of src/rendezvous.rs: one session key per unordered pair of
    identifiers, and sealing that the other side can always undo. The cipher and the key
    derivation are parameters; all that is assumed of them is that opening undoes sealing. */
module Envelope {
  import opened Prelude
  import opened OmaId

  // ------------------------------------------------------------------------- hex

  function HexDigit(v: nat): char
    requires v < 16
  {
    "0123456789abcdef"[v]
  }

  function HexEncode(data: Bytes): string {
    if data == [] then []
    else [HexDigit(data[0] / 16), HexDigit(data[0] % 16)] + HexEncode(data[1..])
  }

  /** Both cases are accepted; an odd length or a foreign character is an error. */
  function HexDecode(s: string): Option<Bytes> {
    if s == [] then Some([])
    else if |s| == 1 then None
    else
      var hi, lo, rest := HexValue(s[0] as int), HexValue(s[1] as int), HexDecode(s[2..]);
      if hi.None? || lo.None? || rest.None? then None
      else Some([hi.value * 16 + lo.value] + rest.value)
  }

  lemma HexDigitRoundTrip(v: nat)
    requires v < 16
    ensures HexValue(HexDigit(v) as int) == Some(v)
  {
  }

  lemma {:induction false} HexRoundTrip(data: Bytes)
    ensures HexDecode(HexEncode(data)) == Some(data)
  {
    if data != [] {
      HexRoundTrip(data[1..]);
      var s := HexEncode(data);
      assert s[2..] == HexEncode(data[1..]);
      HexDigitRoundTrip(data[0] / 16);
      HexDigitRoundTrip(data[0] % 16);
      assert s[0] == HexDigit(data[0] / 16) && s[1] == HexDigit(data[0] % 16);
      assert [(data[0] / 16) * 16 + data[0] % 16] + data[1..] == data;
      assert HexDecode(s).Some?;
    }
  }

  // ------------------------------------------------------------- pairwise session key

  datatype Crypto = Crypto(
    hkdf: (string, string, string) -> Bytes,
    seal: (Bytes, Bytes, Bytes) -> Option<Bytes>,
    open: (Bytes, Bytes, Bytes) -> Option<Bytes>
  )

  const P2P_SALT := "omasend-p2p-noise-salt-v2"
  const P2P_INFO := "omasend-p2p-chacha-aes-tunnel-v2"

  ghost predicate OpenUndoesSeal(c: Crypto) {
    forall key, nonce, plain: Bytes ::
      c.seal(key, nonce, plain).Some? ==>
      c.open(key, nonce, c.seal(key, nonce, plain).value) == Some(plain)
  }

  /** `<=` on strings: the first difference decides, a proper prefix is smaller. */
  predicate StrLe(a: string, b: string) {
    if a == [] then true
    else if b == [] then false
    else if a[0] == b[0] then StrLe(a[1..], b[1..])
    else a[0] < b[0]
  }

  lemma {:induction false} StrLeTotalOrder(a: string, b: string)
    ensures StrLe(a, b) || StrLe(b, a)
    ensures StrLe(a, b) && StrLe(b, a) ==> a == b
  {
    if a != [] && b != [] && a[0] == b[0] {
      StrLeTotalOrder(a[1..], b[1..]);
      assert a == [a[0]] + a[1..] && b == [b[0]] + b[1..];
    }
  }

  function KeyMaterial(local: string, remote: string): string {
    var l, r := Normalize(local), Normalize(remote);
    if StrLe(l, r) then l + r else r + l
  }

  function SessionKey(c: Crypto, local: string, remote: string): Bytes {
    c.hkdf(KeyMaterial(local, remote), P2P_SALT, P2P_INFO)
  }

  lemma SessionKeyIsSymmetric(c: Crypto, a: string, b: string)
    ensures SessionKey(c, a, b) == SessionKey(c, b, a)
  {
    StrLeTotalOrder(Normalize(a), Normalize(b));
  }

  lemma SessionKeyIgnoresSpelling(c: Crypto, a: string, b: string)
    ensures SessionKey(c, Format(a), b) == SessionKey(c, a, b) == SessionKey(c, a, Format(b))
  {
    FormatKeepsIdentity(a);
    FormatKeepsIdentity(b);
  }

  /** Two pairs of 16-digit identifiers share key material only if they are the same
      unordered pair. */
  lemma KeyMaterialIdentifiesThePair(a: string, b: string, c: string, d: string)
    requires |Normalize(a)| == |Normalize(b)| == |Normalize(c)| == |Normalize(d)| == 16
    ensures KeyMaterial(a, b) == KeyMaterial(c, d)
            <==> ((Normalize(a) == Normalize(c) && Normalize(b) == Normalize(d))
                  || (Normalize(a) == Normalize(d) && Normalize(b) == Normalize(c)))
  {
    var k, m := KeyMaterial(a, b), KeyMaterial(c, d);
    StrLeTotalOrder(Normalize(a), Normalize(b));
    assert k == k[..16] + k[16..] && m == m[..16] + m[16..];
    assert {k[..16], k[16..]} == {Normalize(a), Normalize(b)};
    assert (k[..16] == Normalize(a) && k[16..] == Normalize(b)) || (k[..16] == Normalize(b) && k[16..] == Normalize(a));
    assert (m[..16] == Normalize(c) && m[16..] == Normalize(d)) || (m[..16] == Normalize(d) && m[16..] == Normalize(c));
  }

  // -------------------------------------------------------------------- the envelope

  datatype Sealed = Sealed(v: nat, sender: string, nonce: string, ciphertext: string, timestamp: nat)

  /** `nonce` is what the random source delivered, or nothing if it failed. */
  function EncryptPayload(c: Crypto, local: string, remote: string, plain: Bytes,
                          nonce: Option<Bytes>, now: nat): Result<Sealed, string>
  {
    match nonce
    case None => Err("CSPRNG nonce failed")
    case Some(n) =>
      match c.seal(SessionKey(c, local, remote), n, plain)
      case None => Err("E2EE encryption failed")
      case Some(ct) => Ok(Sealed(2, Format(local), HexEncode(n), HexEncode(ct), now))
  }

  function DecryptPayload(c: Crypto, local: string, e: Sealed): Result<Bytes, string> {
    match HexDecode(e.nonce)
    case None => Err("Invalid nonce hex")
    case Some(n) =>
      if |n| != 12 then Err("Invalid nonce length; expected 12 bytes") else
      match HexDecode(e.ciphertext)
      case None => Err("Invalid ciphertext hex")
      case Some(ct) =>
        match c.open(SessionKey(c, local, e.sender), n, ct)
        case None => Err("E2EE decryption failed")
        case Some(plain) => Ok(plain)
  }

  /** Whatever one device seals for another, the other opens to the same bytes, however
      either identifier is spelled on either side. */
  lemma EnvelopeRoundTrip(c: Crypto, sender: string, recipient: string, receiver: string,
                          plain: Bytes, nonce: Bytes, now: nat)
    requires OpenUndoesSeal(c) && |nonce| == 12
    requires Normalize(receiver) == Normalize(recipient)
    ensures var e := EncryptPayload(c, sender, recipient, plain, Some(nonce), now);
            e.Ok? ==> DecryptPayload(c, receiver, e.value) == Ok(plain)
  {
    var key := SessionKey(c, sender, recipient);
    SessionKeyIsSymmetric(c, sender, recipient);
    SessionKeyIgnoresSpelling(c, receiver, sender);
    assert SessionKey(c, receiver, Format(sender)) == key;
    HexRoundTrip(nonce);
    match c.seal(key, nonce, plain)
    case Some(ct) => HexRoundTrip(ct);
    case None =>
  }
}
