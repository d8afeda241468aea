/** Two devices pairing with each other over a network that may delay, lose or repeat
    messages: the initiator presents a code (src/main.rs, p2p_complete_pairing), the
    responder's handler completes the pairing and answers with its token, and the initiator
    stores what it was told. Between any two of these steps either device may run any other
    operation, and strangers may present codes under anyone's identifier. */
module TwoNode {
  import opened Prelude
  import opened OmaId
  import opened Addresses
  import opened Pairing
  import PairingRuns

  datatype Node = Left | Right

  function Peer(n: Node): Node {
    if n == Left then Right else Left
  }

  /** Each device's own identifier, normalised. */
  datatype Ids = Ids(left: string, right: string) {
    function Of(n: Node): string {
      if n == Left then left else right
    }
  }

  datatype Event =
    | Local(at: Node, op: Op)
    /** A completion request sent by `sender` reaches its peer. */
    | Request(sender: Node, code: string, source: IpAddr, now: u64, io: Io)
    /** The answer to event number `request` reaches the device that asked. */
    | Response(request: nat, name: string, ip: IpAddr, now: u64, io: Io)

  /** Where the event runs and what it runs there. An answer that grants nothing carries an
      empty token, which the initiator refuses. */
  function Executed(ids: Ids, past: seq<Event>, e: Event): (Node, Op)
    decreases |past|, 1
  {
    match e
    case Local(at, op) => (at, op)
    case Request(sender, code, source, now, io) =>
      (Peer(sender), Complete(ids.Of(sender), code, source, now, io))
    case Response(r, name, ip, now, io) =>
      if r < |past| && past[r].Request? then
        (past[r].sender, StoreDone(ids.Of(Peer(past[r].sender)), name, ip, TokenGranted(ids, past, r), now, io))
      else
        (Left, StoreDone(ids.right, name, ip, "", now, io))
  }

  function ReplyAt(ids: Ids, evs: seq<Event>, k: nat): Reply
    requires k < |evs|
    decreases |evs|, 0, 0
  {
    var (n, op) := Executed(ids, evs[..k], evs[k]);
    Step(At(ids, evs[..k], n), op).1
  }

  function TokenGranted(ids: Ids, evs: seq<Event>, k: nat): string
    requires k < |evs|
    decreases |evs|, 0, 1
  {
    match ReplyAt(ids, evs, k)
    case Ok(p) => (match p.authToken case Some(t) => t case None => "")
    case Err(_) => ""
  }

  /** The trust store of device `n` after the events. */
  function At(ids: Ids, evs: seq<Event>, n: Node): Store
    decreases |evs|, 0
  {
    if evs == [] then map[]
    else
      var past := evs[..|evs| - 1];
      var (m, op) := Executed(ids, past, evs[|evs| - 1]);
      if m == n then Step(At(ids, past, n), op).0 else At(ids, past, n)
  }

  predicate HoldsToken(s: Store, id: string, token: string) {
    id in s && s[id].confirmed && s[id].authToken == Some(token)
  }

  /** Event `k` makes device `n` start or store a pairing for `id`, or lose its records. */
  predicate Disturbs(ids: Ids, evs: seq<Event>, k: nat, n: Node, id: string)
    requires k < |evs|
  {
    var (m, op) := Executed(ids, evs[..k], evs[k]);
    m == n && PairingRuns.Replaces(At(ids, evs[..k], n), op, id)
  }

  lemma StepKeepsToken(s: Store, op: Op, id: string, token: string)
    requires HoldsToken(s, id, token) && !PairingRuns.Replaces(s, op, id)
    ensures HoldsToken(Step(s, op).0, id, token)
  {
  }

  lemma CompletionHoldsToken(s: Store, op: Op)
    requires op.Complete? && Step(s, op).1.Ok? && Step(s, op).1.value.authToken.Some?
    ensures HoldsToken(Step(s, op).0, Normalize(op.id), Step(s, op).1.value.authToken.value)
  {
  }

  lemma StoringHoldsToken(s: Store, op: Op)
    requires op.StoreDone? && Step(s, op).1.Ok?
    ensures IsToken(op.token) && HoldsToken(Step(s, op).0, Normalize(op.id), op.token)
  {
  }

  lemma AtNext(ids: Ids, evs: seq<Event>, k: nat, n: Node)
    requires k < |evs|
    ensures var (m, op) := Executed(ids, evs[..k], evs[k]);
            At(ids, evs[..k + 1], n)
            == if m == n then Step(At(ids, evs[..k], n), op).0 else At(ids, evs[..k], n)
  {
    assert evs[..k + 1][..k] == evs[..k];
  }

  /** Undisturbed, a confirmed token stays. */
  lemma {:induction false} TokenStays(ids: Ids, evs: seq<Event>, j: nat, k: nat, n: Node, id: string, token: string)
    requires j <= k <= |evs|
    requires HoldsToken(At(ids, evs[..j], n), id, token)
    requires forall i :: j <= i < k ==> !Disturbs(ids, evs, i, n, id)
    ensures HoldsToken(At(ids, evs[..k], n), id, token)
    decreases k
  {
    hide Step, PairingRuns.Replaces, HoldsToken;
    if j < k {
      TokenStays(ids, evs, j, k - 1, n, id, token);
      AtNext(ids, evs, k - 1, n);
      var (m, op) := Executed(ids, evs[..k - 1], evs[k - 1]);
      assert !Disturbs(ids, evs, k - 1, n, id);
      if m == n {
        StepKeepsToken(At(ids, evs[..k - 1], n), op, id, token);
      }
    }
  }

  /** Event `k` is an answer on which device `n` stored its peer under `token`. */
  predicate StoredFromAnswer(ids: Ids, evs: seq<Event>, k: nat, n: Node, token: string)
    requires k < |evs|
  {
    && evs[k].Response? && evs[k].request < k
    && evs[evs[k].request].Request? && evs[evs[k].request].sender == n
    && HoldsToken(At(ids, evs[..k + 1], n), Normalize(ids.Of(Peer(n))), token)
    && HoldsToken(At(ids, evs[..evs[k].request + 1], Peer(n)), Normalize(ids.Of(n)), token)
  }

  /** Whenever the initiator stores a completed pairing, the responder had confirmed the
      initiator under that very token before. */
  lemma StoredOnlyAfterConfirmation(ids: Ids, evs: seq<Event>, k: nat)
    requires k < |evs| && evs[k].Response? && ReplyAt(ids, evs, k).Ok?
    ensures exists n, token :: StoredFromAnswer(ids, evs, k, n, token)
  {
    hide Step, HoldsToken, IsToken;
    var r, past := evs[k].request, evs[..k];
    var (n, op) := Executed(ids, past, evs[k]);
    StoringHoldsToken(At(ids, past, n), op);
    AtNext(ids, evs, k, n);
    EmptyIsNoToken();
    assert r < k && past[r].Request? && op.token == TokenGranted(ids, past, r);
    assert past[..r] == evs[..r] && past[r] == evs[r];
    var (m, asked) := Executed(ids, evs[..r], evs[r]);
    assert op.token != "";
    assert ReplyAt(ids, past, r) == Step(At(ids, evs[..r], m), asked).1;
    CompletionHoldsToken(At(ids, evs[..r], m), asked);
    AtNext(ids, evs, r, m);
    assert m == Peer(n);
    assert StoredFromAnswer(ids, evs, k, n, op.token);
  }

  lemma EmptyIsNoToken()
    ensures !IsToken("")
  {
  }

  /** From then on both devices hold the same token for each other, for as long as the
      responder has not been disturbed since its confirmation nor the initiator since it
      stored the answer. */
  lemma TokensStayEqual(ids: Ids, evs: seq<Event>, k: nat, t: nat, n: Node, token: string)
    requires k < t <= |evs| && StoredFromAnswer(ids, evs, k, n, token)
    requires forall i :: evs[k].request < i < t ==> !Disturbs(ids, evs, i, Peer(n), Normalize(ids.Of(n)))
    requires forall i :: k < i < t ==> !Disturbs(ids, evs, i, n, Normalize(ids.Of(Peer(n))))
    ensures HoldsToken(At(ids, evs[..t], n), Normalize(ids.Of(Peer(n))), token)
    ensures HoldsToken(At(ids, evs[..t], Peer(n)), Normalize(ids.Of(n)), token)
  {
    TokenStays(ids, evs, k + 1, t, n, Normalize(ids.Of(Peer(n))), token);
    TokenStays(ids, evs, evs[k].request + 1, t, Peer(n), Normalize(ids.Of(n)), token);
  }

  /** The provisos are exact: a disturbing step keeps the token only by storing that very
      token for that very peer again. */
  lemma DisturbanceBreaksAgreement(s: Store, op: Op, id: string, token: string)
    requires HoldsToken(s, id, token) && PairingRuns.Replaces(s, op, id)
    ensures HoldsToken(Step(s, op).0, id, token)
            <==> op.StoreDone? && Normalize(op.id) == id && op.token == token
  {
  }
}
