/** The trust store of src/rendezvous.rs as a map from normalised identifier to record, and the
    effect of its four operations on that map. This is what the list in PairingStore.dfy
    refines and what the whole-run properties are proved about. */
module Pairing {
  import opened Prelude
  import opened OmaId
  import opened Addresses

  const PAIR_CODE_TTL_SECS: u64 := 600
  const PAIR_CODE_MAX_FAILURES: nat := 5
  const MAX_PEER_NAME_CHARS: nat := 64

  predicate IsCode(s: string) {
    |s| == 6 && AllDigits(s)
  }

  predicate IsToken(s: string) {
    |s| == 64 && forall c :: c in s ==> IsDigit(c) || 'a' <= c <= 'f'
  }

  /** What the random source can deliver. */
  type Code = s: string | IsCode(s) witness "000000"
  type Token = s: string | IsToken(s) witness seq(64, _ => '0')

  datatype PairedPeer = PairedPeer(
    omaId: string,
    name: string,
    ip: Option<IpAddr>,
    pairedAt: u64,
    authToken: Option<string>,
    confirmed: bool,
    pairCode: Option<string>,
    expiresAt: Option<u64>,
    failures: nat
  ) {
    predicate IsActive() {
      confirmed && ip.Some?
    }
  }

  // ------------------------------------------------------------- display names

  predicate IsControl(c: char) {
    c <= '\U{1F}' || '\U{7F}' <= c <= '\U{9F}'
  }

  function SanitizeName(name: string): string {
    var clean := Filter(name, c => !IsControl(c));
    Trim(clean[..Min(MAX_PEER_NAME_CHARS, |clean|)])
  }

  function DisplayName(norm: string, name: string): string {
    var clean := SanitizeName(name);
    if clean == [] then "OmaID-" + norm[..Min(4, |norm|)] else clean
  }

  // -------------------------------------------------------------- the operations

  /** Which of the three file-system steps of one operation succeed. Reading an unreadable
      or malformed file yields an empty list, not an error. */
  datatype Io = Io(lockOk: bool, loadOk: bool, saveOk: bool)

  datatype Draw = Draw(code: Code, token: Token)

  datatype Op =
    | Add(id: string, name: string, hint: Hint, freshToken: Option<Token>, now: u64, io: Io)
    | Begin(id: string, name: string, hint: Hint, draw: Option<Draw>, now: u64, io: Io)
    | Complete(id: string, code: string, source: IpAddr, now: u64, io: Io)
    | StoreDone(id: string, name: string, ip: IpAddr, token: string, now: u64, io: Io)

  datatype Refusal = InvalidId | BadHint | BadAddress | BadToken | NoRandomness | NotAuthorized | Storage

  type Store = map<string, PairedPeer>
  type Reply = Result<PairedPeer, Refusal>

  function Loaded(s: Store, io: Io): Store {
    if io.loadOk then s else map[]
  }

  function NewRecord(norm: string, name: string, ip: Option<IpAddr>, now: u64, token: string): PairedPeer {
    PairedPeer(Format(norm), DisplayName(norm, name), ip, now, Some(token), false, None, None, 0)
  }

  function Pending(p: PairedPeer, code: string, now: u64): PairedPeer {
    p.(pairCode := Some(code), expiresAt := Some(SaturatingAdd(now, PAIR_CODE_TTL_SECS)))
  }

  function AddStep(s: Store, id: string, name: string, hint: Hint, freshToken: Option<Token>, now: u64, io: Io)
    : (Store, Reply)
  {
    var norm := Normalize(id);
    if !Valid(norm) then (s, Err(InvalidId))
    else if !io.lockOk then (s, Err(Storage))
    else if norm in Loaded(s, io) then (s, Ok(s[norm]))
    else if freshToken.None? then (s, Err(NoRandomness))
    else if !io.saveOk then (s, Err(Storage))
    else
      var p := NewRecord(norm, name, ParseLocalHint(hint), now, freshToken.value);
      (Loaded(s, io)[norm := p], Ok(p))
  }

  function BeginStep(s: Store, id: string, name: string, hint: Hint, draw: Option<Draw>, now: u64, io: Io)
    : (Store, Reply)
  {
    var norm := Normalize(id);
    if !Valid(norm) then (s, Err(InvalidId))
    else if !hint.Absent? && !hint.Blank? && ParseLocalHint(hint).None? then (s, Err(BadHint))
    else if draw.None? then (s, Err(NoRandomness))
    else if !io.lockOk || !io.saveOk then (s, Err(Storage))
    else
      var p := Pending(NewRecord(norm, name, ParseLocalHint(hint), now, draw.value.token), draw.value.code, now);
      (Loaded(s, io)[norm := p], Ok(p))
  }

  predicate IsPending(p: PairedPeer, now: u64) {
    !p.confirmed && p.pairCode.Some? && p.expiresAt.Some? && now <= p.expiresAt.value
  }

  predicate Matches(p: PairedPeer, code: string, source: IpAddr)
    requires p.pairCode.Some?
  {
    p.pairCode.value == code && (p.ip.Some? ==> Canonical(p.ip.value) == source)
  }

  function Confirm(p: PairedPeer, source: IpAddr, now: u64): PairedPeer {
    p.(confirmed := true, ip := Some(source), pairCode := None, expiresAt := None, failures := 0, pairedAt := now)
  }

  function CountFailure(p: PairedPeer): PairedPeer {
    var n := if p.failures < 0xFFFF_FFFF then p.failures + 1 else p.failures;
    if n >= PAIR_CODE_MAX_FAILURES then p.(failures := n, pairCode := None, expiresAt := None)
    else p.(failures := n)
  }

  /** The request is one the store looks up at all: an admissible source, a valid identifier
      and a six-digit code. */
  predicate WellFormedCompletion(id: string, code: string, source: IpAddr) {
    var src := Canonical(source);
    IsLocalNetwork(src) && !IsLoopback(src) && Valid(Normalize(id)) && IsCode(code)
  }

  function CompleteStep(s: Store, id: string, code: string, source: IpAddr, now: u64, io: Io): (Store, Reply) {
    var src, norm := Canonical(source), Normalize(id);
    if !WellFormedCompletion(id, code, source) then (s, Err(NotAuthorized))
    else if !io.lockOk then (s, Err(Storage))
    else if norm !in Loaded(s, io) then (s, Err(NotAuthorized))
    else if !io.saveOk then (s, Err(Storage))
    else
      var p := s[norm];
      if !IsPending(p, now) then (s, Err(NotAuthorized))
      else if Matches(p, code, src) then (s[norm := Confirm(p, src, now)], Ok(Confirm(p, src, now)))
      else (s[norm := CountFailure(p)], Err(NotAuthorized))
  }

  function StoreDoneStep(s: Store, id: string, name: string, ip: IpAddr, token: string, now: u64, io: Io)
    : (Store, Reply)
  {
    var addr, norm := Canonical(ip), Normalize(id);
    if !Valid(norm) then (s, Err(InvalidId))
    else if !IsLocalNetwork(addr) || IsLoopback(addr) then (s, Err(BadAddress))
    else if !IsToken(token) then (s, Err(BadToken))
    else if !io.lockOk || !io.saveOk then (s, Err(Storage))
    else
      var p := NewRecord(norm, name, Some(addr), now, token).(confirmed := true);
      (Loaded(s, io)[norm := p], Ok(p))
  }

  function Step(s: Store, op: Op): (Store, Reply) {
    match op
    case Add(id, name, hint, freshToken, now, io) => AddStep(s, id, name, hint, freshToken, now, io)
    case Begin(id, name, hint, draw, now, io) => BeginStep(s, id, name, hint, draw, now, io)
    case Complete(id, code, source, now, io) => CompleteStep(s, id, code, source, now, io)
    case StoreDone(id, name, ip, token, now, io) => StoreDoneStep(s, id, name, ip, token, now, io)
  }

  /** `verify_peer_auth_token` on the stored map. */
  predicate TokenAccepted(s: Store, id: string, provided: string) {
    var norm := Normalize(id);
    |norm| == 16 && norm in s && s[norm].confirmed
    && match s[norm].authToken
       case Some(t) => t == [] || provided == t
       case None => true
  }

  // ------------------------------------------------------ what one step may touch

  /** The request gets past every test that does not depend on the stored records, and the
      store can be locked and saved. A completion writes only what it has loaded. */
  predicate Writes(op: Op) {
    && op.io.lockOk && op.io.saveOk && Valid(Normalize(op.id))
    && match op
       case Add(_, _, _, freshToken, _, _) => freshToken.Some?
       case Begin(_, _, hint, draw, _, _) => (hint.Absent? || hint.Blank? || ParseLocalHint(hint).Some?) && draw.Some?
       case Complete(_, _, _, _, _) => false
       case StoreDone(_, _, ip, token, _, _) => IsPeerAddress(Canonical(ip)) && IsToken(token)
  }

  /** A record of somebody else survives a step unchanged exactly if the store could be read
      or the request is one that writes nothing. */
  lemma OtherRecordsKeptExactly(s: Store, op: Op, other: string)
    requires other in s && other != Normalize(op.id)
    ensures other in Step(s, op).0 && Step(s, op).0[other] == s[other] <==> op.io.loadOk || !Writes(op)
  {
    if op.StoreDone? {
      CanonicalIdempotent(op.ip);
    }
  }

  /** An input on which it does not: starting a pairing while the file cannot be read removes
      everybody else. */
  lemma BlindBeginLosesRecords(s: Store, other: string, id: string, name: string, draw: Draw, now: u64)
    requires other in s && Valid(id) && other != Normalize(id)
    ensures other !in Step(s, Begin(id, name, Absent, Some(draw), now, Io(true, false, true))).0
  {
    NormalizeIdempotent(id);
  }

  /** No step invents a record for anyone but the identifier it names. */
  lemma NoStrangerAppears(s: Store, op: Op, other: string)
    requires other !in s && other != Normalize(op.id)
    ensures other !in Step(s, op).0
  {
  }

  /** A presented code is held against the pending code of the identifier. */
  predicate Checks(s: Store, op: Op) {
    && op.Complete? && WellFormedCompletion(op.id, op.code, op.source) && op.io.lockOk && op.io.loadOk
    && Normalize(op.id) in s && IsPending(s[Normalize(op.id)], op.now)
  }

  /** A refused step changes the store exactly if it is a wrong guess that could be saved. */
  lemma RefusalChangesNothing(s: Store, op: Op)
    requires Step(s, op).1.Err?
    ensures Step(s, op).0 == s <==> !(Checks(s, op) && op.io.saveOk)
  {
    if Checks(s, op) && op.io.saveOk {
      var p := s[Normalize(op.id)];
      assert CountFailure(p) != p;
    }
  }

  /** A check that cannot be saved is answered the same whatever code was presented, and
      changes nothing. */
  lemma UnsavedCheckRevealsNothing(s: Store, op: Op, code: string)
    requires Checks(s, op) && !op.io.saveOk && IsCode(code)
    ensures Step(s, op) == Step(s, op.(code := code)) == (s, Err(Storage))
  {
  }

  /** While the address on record is loopback, no completion for it is granted. */
  lemma LoopbackHintNeverCompletes(s: Store, op: Op)
    requires op.Complete? && Normalize(op.id) in s
    requires var p := s[Normalize(op.id)]; p.ip.Some? && IsLoopback(Canonical(p.ip.value))
    ensures Step(s, op).1.Err?
  {
  }

  /** Some completion for `id` would be granted now, if the file system obliges. */
  ghost predicate CanComplete(s: Store, id: string, now: u64) {
    exists code: string, source :: Step(s, Complete(id, code, source, now, Io(true, true, true))).1.Ok?
  }

  lemma RightCodeIsGranted(s: Store, op: Op)
    requires op.Complete? && op.io == Io(true, true, true) && WellFormedCompletion(op.id, op.code, op.source)
    requires Normalize(op.id) in s && IsPending(s[Normalize(op.id)], op.now)
    requires Matches(s[Normalize(op.id)], op.code, Canonical(op.source))
    ensures Step(s, op).1.Ok?
  {
    hide WellFormedCompletion, Normalize, IsPending, Matches, Canonical;
  }

  /** A pending record can be completed exactly if the address on it, which is a local one if
      there is any, is not loopback. */
  lemma CompletableExactlyIfNotLoopback(s: Store, id: string, now: u64)
    requires Valid(Normalize(id)) && Normalize(id) in s && IsPending(s[Normalize(id)], now)
    requires var p := s[Normalize(id)]; IsCode(p.pairCode.value) && (p.ip.Some? ==> IsLocalNetwork(p.ip.value))
    ensures CanComplete(s, id, now)
            <==> var p := s[Normalize(id)]; p.ip.None? || !IsLoopback(Canonical(p.ip.value))
  {
    var p := s[Normalize(id)];
    hide Normalize, Valid, IsCode, Step;
    if p.ip.None? || !IsLoopback(Canonical(p.ip.value)) {
      var source := if p.ip.Some? then p.ip.value else V4(10, 0, 0, 1);
      CanonicalIdempotent(source);
      var op := Complete(id, p.pairCode.value, source, now, Io(true, true, true));
      RightCodeIsGranted(s, op);
      assert Step(s, Complete(id, p.pairCode.value, source, now, Io(true, true, true))).1.Ok?;
    } else {
      NeverCompletes(s, id, now);
    }
  }

  lemma NeverCompletes(s: Store, id: string, now: u64)
    requires Normalize(id) in s
    requires var p := s[Normalize(id)]; p.ip.Some? && IsLoopback(Canonical(p.ip.value))
    ensures !CanComplete(s, id, now)
  {
    hide Step;
    forall code: string, source
      ensures Step(s, Complete(id, code, source, now, Io(true, true, true))).1.Err?
    {
      LoopbackHintNeverCompletes(s, Complete(id, code, source, now, Io(true, true, true)));
    }
  }

  /** A pairing command for a normalised identifier, on a file system that obliges. */
  lemma BeginAccepted(s: Store, op: Op)
    requires op.Begin? && op.io == Io(true, true, true) && Valid(op.id) && Normalize(op.id) == op.id && op.draw.Some?
    requires op.hint.Absent? || ParseLocalHint(op.hint).Some?
    ensures Step(s, op).1.Ok? && op.id in Step(s, op).0
    ensures var p := Step(s, op).0[op.id]; IsPending(p, op.now) && p.ip == ParseLocalHint(op.hint)
  {
    hide Normalize, Valid, Format, DisplayName, ParseLocalHint;
  }

  /** A granted pairing command has drawn its code and token. */
  lemma GrantedBeginDrew(s: Store, op: Op)
    requires op.Begin? && Step(s, op).1.Ok?
    ensures op.draw.Some?
  {
  }
}
