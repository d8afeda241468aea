/** Internet addresses as the pairing code classifies them (src/rendezvous.rs). */
module Addresses {
  import opened Prelude

  datatype IpAddr =
    | V4(a: byte, b: byte, c: byte, d: byte)
    | V6(s0: u16, s1: u16, s2: u16, s3: u16, s4: u16, s5: u16, s6: u16, s7: u16)

  /** IPv4-mapped IPv6 addresses become plain IPv4. */
  function Canonical(ip: IpAddr): IpAddr {
    if ip.V6? && ip.s0 == ip.s1 == ip.s2 == ip.s3 == ip.s4 == 0 && ip.s5 == 0xFFFF
    then V4(ip.s6 / 256, ip.s6 % 256, ip.s7 / 256, ip.s7 % 256)
    else ip
  }

  predicate IsLoopback(ip: IpAddr) {
    match ip
    case V4(a, _, _, _) => a == 127
    case V6(_, _, _, _, _, _, _, _) => ip == V6(0, 0, 0, 0, 0, 0, 0, 1)
  }

  /** Loopback, RFC 1918, RFC 3927, fe80::/10 and fc00::/7, after canonicalisation. */
  predicate IsLocalNetwork(ip: IpAddr) {
    var c := Canonical(ip);
    match c
    case V4(a, b, _, _) =>
      || IsLoopback(c)
      || a == 10 || (a == 172 && 16 <= b < 32) || (a == 192 && b == 168)
      || (a == 169 && b == 254)
    case V6(s0, _, _, _, _, _, _, _) =>
      IsLoopback(c) || s0 / 64 == 0xFE80 / 64 || s0 / 512 == 0xFC00 / 512
  }

  /** An address a peer may be reached at: on the local network and not this machine. */
  predicate IsPeerAddress(ip: IpAddr) {
    Canonical(ip) == ip && IsLocalNetwork(ip) && !IsLoopback(ip)
  }

  /** The optional address hint of a pairing command, already parsed. */
  datatype Hint = Absent | Blank | Unparsable | Parsed(ip: IpAddr)

  function ParseLocalHint(h: Hint): Option<IpAddr> {
    if h.Parsed? && IsLocalNetwork(h.ip) then Some(Canonical(h.ip)) else None
  }

  lemma CanonicalIdempotent(ip: IpAddr)
    ensures Canonical(Canonical(ip)) == Canonical(ip)
  {
  }

  lemma LoopbackIsLocal()
    ensures var ip := V4(127, 0, 0, 1);
            IsLoopback(Canonical(ip)) && ParseLocalHint(Parsed(ip)) == Some(ip)
  {
    var ip := V4(127, 0, 0, 1);
    assert Canonical(ip) == ip;
    hide Canonical;
    assert IsLoopback(ip);
    hide IsLoopback;
    assert IsLocalNetwork(ip);
  }
}
