/** The HTTP entrance to pairing in src/main.rs: every request passes the rate limiter and may
    carry a PIN, and a pairing request then presents a code to the trust store. Requests are
    handled one after the other here, between any operations of the local user. */
module PairHandler {
  import opened Prelude
  import opened OmaId
  import opened Addresses
  import opened Pairing
  import opened PinLimiter
  import T = PairingTraces
  import PairingStore

  /** What the body of a pairing request says, and the clocks when it is processed. */
  datatype PairRequest = PairRequest(id: string, code: string, at: nat, now: u64, io: Io)

  datatype Event =
    | Local(op: Op)
    /** A request from `source`: whether it carries a PIN and the right one, and its pairing
        body if that is what it asks for. */
    | Http(source: IpAddr, pin: Option<bool>, at: nat, pair: Option<PairRequest>)

  datatype Node = Node(table: Table, store: Store)

  datatype Answer = TooManyRequests | Forbidden | Paired(token: string) | Elsewhere

  /** The table after the PIN check, and whether the request goes on. */
  function PinStep(t: Table, source: IpAddr, pin: Option<bool>, at: nat): (Table, bool) {
    if pin.None? then (t, true) else RecordStep(t, source, at, pin.value)
  }

  function TokenOf(p: PairedPeer): string {
    if p.authToken.Some? then p.authToken.value else ""
  }

  function PairStep(n: Node, source: IpAddr, p: PairRequest): (Node, Answer) {
    if IsLoopback(Canonical(source)) then (n, Forbidden)
    else if Limited(n.table, source, p.at) then (n, TooManyRequests)
    else
      var (store, reply) := Step(n.store, Complete(p.id, p.code, source, p.now, p.io));
      (Node(RecordStep(n.table, source, p.at, reply.Ok?).0, store),
       if reply.Ok? then Paired(TokenOf(reply.value)) else Forbidden)
  }

  function HandleStep(n: Node, e: Event): (Node, Answer) {
    match e
    case Local(op) => (n.(store := Step(n.store, op).0), Elsewhere)
    case Http(source, pin, at, pair) =>
      if Limited(n.table, source, at) then (n, TooManyRequests)
      else
        var (table, goOn) := PinStep(n.table, source, pin, at);
        if !goOn then (n.(table := table), TooManyRequests)
        else if pair.None? then (n.(table := table), Elsewhere)
        else PairStep(n.(table := table), source, pair.value)
  }

  class Server {
    const limiter: PinRateLimiter
    const store: PairingStore.PairingStore

    ghost predicate Valid()
      reads this, store
    {
      store.Valid()
    }

    ghost function State(): Node
      reads this, limiter, store
    {
      Node(limiter.table, store.View())
    }

    constructor ()
      ensures Valid() && fresh(limiter) && fresh(store)
      ensures State() == Node(map[], map[])
    {
      limiter := new PinRateLimiter();
      store := new PairingStore.PairingStore();
    }

    /** A request whose body, if it asks for pairing, could be read and parsed. */
    method HandleRequest(source: IpAddr, pin: Option<bool>, at: nat, pair: Option<PairRequest>) returns (a: Answer)
      requires Valid()
      modifies limiter, store
      ensures Valid()
      ensures (State(), a) == HandleStep(old(State()), Http(source, pin, at, pair))
    {
      hide RecordStep, Limited, CompleteStep;
      var limited := limiter.IsPinRateLimited(source, at);
      if limited {
        return TooManyRequests;
      }
      if pin.Some? {
        var notBlocked := limiter.RecordPinAttempt(source, at, pin.value);
        if !notBlocked {
          return TooManyRequests;
        }
      }
      if pair.None? {
        return Elsewhere;
      }
      a := HandlePair(source, pair.value);
    }

    method HandlePair(source: IpAddr, p: PairRequest) returns (a: Answer)
      requires Valid()
      modifies limiter, store
      ensures Valid()
      ensures (State(), a) == PairStep(old(State()), source, p)
    {
      hide RecordStep, Limited, CompleteStep;
      if IsLoopback(Canonical(source)) {
        return Forbidden;
      }
      var limited := limiter.IsPinRateLimited(source, p.at);
      if limited {
        return TooManyRequests;
      }
      var reply := store.CompleteRemotePairing(p.id, p.code, source, p.now, p.io);
      var _ := limiter.RecordPinAttempt(source, p.at, reply.Ok?);
      a := if reply.Ok? then Paired(TokenOf(reply.value)) else Forbidden;
    }
  }

  // ------------------------------------------------------------------------- runs

  function NodeAfter(run: seq<Event>): Node {
    if run == [] then Node(map[], map[])
    else HandleStep(NodeAfter(run[..|run| - 1]), run[|run| - 1]).0
  }

  function AnswerAt(run: seq<Event>, k: nat): Answer
    requires k < |run|
  {
    HandleStep(NodeAfter(run[..k]), run[k]).1
  }

  /** The attempt a pairing request makes, if it gets that far. */
  function PairAttempt(n: Node, source: IpAddr, p: PairRequest): seq<Attempt> {
    if IsLoopback(Canonical(source)) || Limited(n.table, source, p.at) then []
    else [Attempt(source, p.at, PairStep(n, source, p).1.Paired?)]
  }

  /** The attempts one event records with the limiter. */
  function Attempted(n: Node, e: Event): seq<Attempt> {
    match e
    case Local(_) => []
    case Http(source, pin, at, pair) =>
      if Limited(n.table, source, at) then []
      else
        var first := if pin.Some? then [Attempt(source, at, pin.value)] else [];
        var (table, goOn) := PinStep(n.table, source, pin, at);
        first + (if goOn && pair.Some? then PairAttempt(n.(table := table), source, pair.value) else [])
  }

  /** The operation one event runs on the store, if it runs one. */
  function Executed(n: Node, e: Event): Option<Op> {
    match e
    case Local(op) => Some(op)
    case Http(source, pin, at, pair) =>
      if Limited(n.table, source, at) || pair.None? then None
      else
        var (table, goOn) := PinStep(n.table, source, pin, at);
        if goOn && PairAttempt(n.(table := table), source, pair.value) != [] then Some(CompletionOf(e)) else None
  }

  function CompletionOf(e: Event): Op
    requires e.Http? && e.pair.Some?
  {
    var p := e.pair.value;
    Complete(p.id, p.code, e.source, p.now, p.io)
  }

  function Attempts(run: seq<Event>): seq<Attempt> {
    if run == [] then []
    else Attempts(run[..|run| - 1]) + Attempted(NodeAfter(run[..|run| - 1]), run[|run| - 1])
  }

  function Trace(run: seq<Event>): (t: T.Trace)
    ensures |t| == |run|
  {
    if run == [] then []
    else Trace(run[..|run| - 1]) + [Executed(NodeAfter(run[..|run| - 1]), run[|run| - 1])]
  }

  lemma {:induction false} TraceAt(run: seq<Event>, i: nat)
    requires i < |run|
    ensures Trace(run)[i] == Executed(NodeAfter(run[..i]), run[i])
  {
    hide Executed, HandleStep;
    if i < |run| - 1 {
      TraceAt(run[..|run| - 1], i);
      assert run[..|run| - 1][..i] == run[..i];
    }
  }

  lemma OneMoreAttempt(past: seq<Attempt>, a: Attempt)
    requires Admitted(past) && !Limited(After(past), a.ip, a.now)
    ensures After(past + [a]) == RecordStep(After(past), a.ip, a.now, a.success).0
    ensures Admitted(past + [a])
  {
    hide Limited, RecordStep;
    var all := past + [a];
    assert all[..|past|] == past;
    forall k | 0 <= k < |all| ensures !Limited(After(all[..k]), all[k].ip, all[k].now) {
      assert k < |past| ==> all[..k] == past[..k];
    }
  }

  lemma PairFollows(past: seq<Attempt>, n: Node, source: IpAddr, p: PairRequest)
    requires n.table == After(past) && Admitted(past)
    ensures var more := past + PairAttempt(n, source, p);
            Admitted(more) && PairStep(n, source, p).0.table == After(more)
  {
    hide After, Limited, RecordStep, Admitted;
    if PairAttempt(n, source, p) == [] {
      assert past + [] == past;
    } else {
      OneMoreAttempt(past, Attempt(source, p.at, PairStep(n, source, p).1.Paired?));
    }
  }

  lemma EventFollows(past: seq<Attempt>, n: Node, e: Event)
    requires n.table == After(past) && Admitted(past)
    ensures var more := past + Attempted(n, e);
            Admitted(more) && HandleStep(n, e).0.table == After(more)
  {
    hide After, Limited, RecordStep, Admitted, PairAttempt, PairStep;
    assert past + [] == past;
    if e.Http? && !Limited(n.table, e.source, e.at) {
      var (table, goOn) := PinStep(n.table, e.source, e.pin, e.at);
      var first := if e.pin.Some? then [Attempt(e.source, e.at, e.pin.value)] else [];
      if e.pin.Some? {
        OneMoreAttempt(past, first[0]);
      }
      assert table == After(past + first) && Admitted(past + first);
      if goOn && e.pair.Some? {
        PairFollows(past + first, n.(table := table), e.source, e.pair.value);
        assert past + Attempted(n, e) == past + first + PairAttempt(n.(table := table), e.source, e.pair.value);
      } else {
        assert past + Attempted(n, e) == past + first;
      }
    }
  }

  /** A run of the server is a run of the limiter whose attempts were all admitted. */
  lemma {:induction false} LimiterRuns(run: seq<Event>)
    ensures NodeAfter(run).table == After(Attempts(run)) && Admitted(Attempts(run))
  {
    if run != [] {
      var past := run[..|run| - 1];
      LimiterRuns(past);
      EventFollows(Attempts(past), NodeAfter(past), run[|run| - 1]);
    }
  }

  lemma EventRuns(n: Node, e: Event)
    ensures HandleStep(n, e).0.store == if Executed(n, e).Some? then Step(n.store, Executed(n, e).value).0 else n.store
  {
    hide Limited, RecordStep, Step;
  }

  /** ... and a run of the trust store. */
  lemma {:induction false} StoreRuns(run: seq<Event>)
    ensures NodeAfter(run).store == T.StoreAfter(Trace(run))
  {
    hide HandleStep, Step, Executed;
    if run != [] {
      var past, e := run[..|run| - 1], run[|run| - 1];
      StoreRuns(past);
      EventRuns(NodeAfter(past), e);
      T.OneMore(Trace(past), Executed(NodeAfter(past), e));
      hide T.StoreAfter;
    }
  }

  // ------------------------------------------------------- guesses from one address

  function EndOf(e: Event): nat {
    if e.Http? && e.pair.Some? then e.pair.value.at else if e.Http? then e.at else 0
  }

  /** The limiter's clock does not run backwards. */
  predicate Timed(run: seq<Event>) {
    && (forall i :: 0 <= i < |run| && run[i].Http? ==> run[i].at <= EndOf(run[i]))
    && (forall i, j :: 0 <= i < j < |run| && run[i].Http? && run[j].Http? ==> EndOf(run[i]) <= run[j].at)
  }

  /** The last event is a pairing request from `ip` in the interval, and its code was refused. */
  predicate RefusedGuess(run: seq<Event>, ip: IpAddr, lo: nat, hi: nat)
    requires run != []
  {
    var e := run[|run| - 1];
    && e.Http? && e.source == ip && e.pair.Some? && lo <= e.pair.value.at <= hi
    && AnswerAt(run, |run| - 1) == Forbidden && !IsLoopback(Canonical(ip))
  }

  function RefusedGuesses(run: seq<Event>, ip: IpAddr, lo: nat, hi: nat): nat {
    if run == [] then 0
    else RefusedGuesses(run[..|run| - 1], ip, lo, hi) + (if RefusedGuess(run, ip, lo, hi) then 1 else 0)
  }

  lemma {:induction false} FailuresAppend(past: seq<Attempt>, more: seq<Attempt>, ip: IpAddr, lo: nat, hi: nat)
    ensures Failures(past + more, ip, lo, hi) >= Failures(past, ip, lo, hi)
    ensures more != [] && FailsIn(more, ip, lo, hi) ==> Failures(past + more, ip, lo, hi) > Failures(past, ip, lo, hi)
  {
    if more == [] {
      assert past + more == past;
    } else {
      var all, n := past + more, |more| - 1;
      assert all[..|all| - 1] == past + more[..n] && all[|all| - 1] == more[n];
      FailuresAppend(past, more[..n], ip, lo, hi);
    }
  }

  /** A refused code is the last attempt its request records, and a failure. */
  lemma RefusedIsRecorded(n: Node, e: Event, ip: IpAddr, lo: nat, hi: nat)
    requires e.Http? && e.source == ip && e.pair.Some? && lo <= e.pair.value.at <= hi
    requires HandleStep(n, e).1 == Forbidden && !IsLoopback(Canonical(ip))
    ensures Attempted(n, e) != [] && FailsIn(Attempted(n, e), ip, lo, hi)
  {
    hide RecordStep, Limited, Step;
    var (table, goOn) := PinStep(n.table, e.source, e.pin, e.at);
    var last := PairAttempt(n.(table := table), ip, e.pair.value);
    assert |last| == 1 && last[0] == Attempt(ip, e.pair.value.at, false);
    assert Attempted(n, e)[|Attempted(n, e)| - 1] == last[0];
  }

  lemma {:induction false} RefusalsAreFailures(run: seq<Event>, ip: IpAddr, lo: nat, hi: nat)
    ensures RefusedGuesses(run, ip, lo, hi) <= Failures(Attempts(run), ip, lo, hi)
  {
    if run != [] {
      var past, e := run[..|run| - 1], run[|run| - 1];
      hide HandleStep, Attempted, FailsIn;
      RefusalsAreFailures(past, ip, lo, hi);
      FailuresAppend(Attempts(past), Attempted(NodeAfter(past), e), ip, lo, hi);
      if RefusedGuess(run, ip, lo, hi) {
        RefusedIsRecorded(NodeAfter(past), e, ip, lo, hi);
      }
    }
  }

  lemma AttemptTimes(n: Node, e: Event)
    requires e.Http? ==> e.at <= EndOf(e)
    ensures Monotone(Attempted(n, e))
    ensures forall a :: a in Attempted(n, e) ==> e.Http? && e.at <= a.now <= EndOf(e)
  {
    hide RecordStep, Limited, Step, PairStep;
  }

  lemma {:induction false} ClockIsMonotone(run: seq<Event>)
    requires Timed(run)
    ensures Monotone(Attempts(run))
    ensures forall a :: a in Attempts(run) ==> exists i :: 0 <= i < |run| && run[i].Http? && a.now <= EndOf(run[i])
  {
    if run != [] {
      var n := |run| - 1;
      var past, e := run[..n], run[n];
      ClockIsMonotone(past);
      AttemptTimes(NodeAfter(past), e);
      hide Attempted, HandleStep;
      var before, more := Attempts(past), Attempted(NodeAfter(past), e);
      BeforeTheLast(run);
      assert Attempts(run) == before + more;
      hide Attempts, Timed, Monotone;
      forall a: Attempt | a in before + more
        ensures exists i :: 0 <= i < |run| && run[i].Http? && a.now <= EndOf(run[i])
      {
        if a in before {
          var i :| 0 <= i < |past| && past[i].Http? && a.now <= EndOf(past[i]);
          assert run[i] == past[i];
        } else {
          assert a in more && a.now <= EndOf(run[n]);
        }
      }
      forall a, b | a in before && b in more ensures a.now <= b.now {
        var i :| 0 <= i < |past| && past[i].Http? && a.now <= EndOf(past[i]);
        assert run[i] == past[i];
      }
      MonotoneJoin(before, more);
    }
  }

  lemma MonotoneJoin(a: seq<Attempt>, b: seq<Attempt>)
    requires Monotone(a) && Monotone(b) && forall x, y :: x in a && y in b ==> x.now <= y.now
    ensures Monotone(a + b)
  {
    forall i, j | 0 <= i <= j < |a + b| ensures (a + b)[i].now <= (a + b)[j].now {
      if i < |a| <= j {
        assert (a + b)[i] in a && (a + b)[j] in b;
      }
    }
  }

  lemma BeforeTheLast(run: seq<Event>)
    requires run != [] && Timed(run)
    ensures Timed(run[..|run| - 1])
    ensures var last := run[|run| - 1];
            forall i :: 0 <= i < |run| - 1 && run[i].Http? && last.Http? ==> EndOf(run[i]) <= last.at
  {
  }

  /** In any 60 seconds without a success of its own, one address gets at most eight pairing
      codes refused by the trust store, wrong PINs in between or not. */
  lemma AtMostEightCodesRefused(run: seq<Event>, ip: IpAddr, lo: nat)
    requires Timed(run) && NoSuccessIn(Attempts(run), ip, lo, lo + WINDOW - 1)
    ensures RefusedGuesses(run, ip, lo, lo + WINDOW - 1) <= 8
  {
    LimiterRuns(run);
    ClockIsMonotone(run);
    AtMostEightGuesses(Attempts(run), ip, lo);
    RefusalsAreFailures(run, ip, lo, lo + WINDOW - 1);
  }

  // -------------------------------------------------------- who can become a peer

  lemma PairedRuns(n: Node, e: Event)
    requires HandleStep(n, e).1.Paired?
    ensures e.Http? && e.pair.Some?
    ensures var reply := Step(n.store, CompletionOf(e)).1;
            reply.Ok? && HandleStep(n, e).1.token == TokenOf(reply.value)
  {
    hide RecordStep, Limited, Step;
  }

  lemma BeginIsLocal(n: Node, e: Event)
    requires Executed(n, e).Some? && Executed(n, e).value.Begin?
    ensures e == Local(Executed(n, e).value)
  {
  }

  /** Event `i` is the local user issuing the code and the token of this pairing. */
  predicate IssuedLocally(run: seq<Event>, i: nat, p: PairRequest, token: string)
    requires i < |run|
  {
    && run[i].Local? && run[i].op.Begin? && Normalize(run[i].op.id) == Normalize(p.id)
    && run[i].op.draw.Some? && run[i].op.draw.value.code == p.code && run[i].op.draw.value.token == token
    && p.now <= run[i].op.now + PAIR_CODE_TTL_SECS
  }

  /** Nobody is paired over the network but with a code that the local user issued for that
      very identifier at most ten minutes before, and the token handed out is the one drawn
      then. */
  lemma PairedWasIssuedLocally(run: seq<Event>, k: nat)
    requires k < |run| && AnswerAt(run, k).Paired?
    ensures run[k].Http? && run[k].pair.Some?
    ensures exists i :: 0 <= i < k && IssuedLocally(run, i, run[k].pair.value, AnswerAt(run, k).token)
  {
    var past := run[..k];
    PairedRuns(NodeAfter(past), run[k]);
    StoreRuns(past);
    var done, granted := CompletionOf(run[k]), Step(NodeAfter(past).store, CompletionOf(run[k])).1.value;
    hide Step, HandleStep, NodeAfter, Trace, Executed, T.StoreAfter;
    T.GrantHasOrigin(Trace(past), done);
    var i :| 0 <= i < k && Trace(past)[i].Some? && T.IssuedBy(Trace(past)[i].value, done, granted);
    TraceAt(past, i);
    assert past[..i] == run[..i] && past[i] == run[i];
    BeginIsLocal(NodeAfter(run[..i]), run[i]);
    assert IssuedLocally(run, i, run[k].pair.value, AnswerAt(run, k).token);
  }
}
