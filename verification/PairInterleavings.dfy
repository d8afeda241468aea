/** The pairing endpoint of src/main.rs with requests served by concurrent threads: the limiter
    check, the PIN, the second check, the completion in the trust store and the recording of
    its outcome are separate steps, and any number of requests interleave at them, with each
    other and with the local user's own operations on the store. */
module PairInterleavings {
  import opened Prelude
  import opened OmaId
  import opened Addresses
  import opened Pairing
  import opened PinLimiter
  import P = PinInterleavings
  import T = PairingTraces

  /** Where the thread of one connection stands. */
  datatype Pc =
    | Idle
    | Asked(ip: IpAddr)                   // passed the first check
    | PastPin(ip: IpAddr)                 // goes on, with or without a right PIN
    | Cleared(ip: IpAddr)                 // passed the second check
    | Answered(ip: IpAddr, ok: bool)      // the store has decided, nothing recorded yet

  /** What the thread's next step finds: the clocks, the request and the file system. */
  datatype Act = Act(
    source: IpAddr, now: nat, pin: Option<bool>, pairs: bool,
    id: string, code: string, unix: u64, io: Io
  )

  datatype Event = Local(op: Op) | Turn(i: nat, a: Act)

  datatype Server = Server(limiter: P.State, store: Store, actors: seq<Pc>)

  function OfIp(ip: IpAddr): Pc -> int {
    (p: Pc) => if !p.Idle? && p.ip == ip then 1 else 0
  }

  /** Let through by a check, with no attempt recorded yet. */
  function InFlightOf(ip: IpAddr): Pc -> int {
    (p: Pc) => if (p.Asked? || p.Cleared? || p.Answered?) && p.ip == ip then 1 else 0
  }

  /** Refused by the store, and not recorded yet. */
  function RefusedOf(ip: IpAddr): Pc -> int {
    (p: Pc) => if p.Answered? && p.ip == ip && !p.ok then 1 else 0
  }

  /** The access to the limiter that a thread's step makes, if it makes one. */
  function MoveOf(s: Server, i: nat, a: Act): Option<P.Move>
    requires i < |s.actors|
  {
    match s.actors[i]
    case Idle =>
      if Sum(s.actors, OfIp(a.source)) >= P.CONNECTIONS then None else Some(P.Check(a.source, a.now))
    case Asked(ip) =>
      Some(if a.pin.Some? then P.Record(ip, a.now, a.pin.value) else P.Abandon(ip, a.now))
    case PastPin(ip) =>
      if !a.pairs || IsLoopback(Canonical(ip)) then None else Some(P.Check(ip, a.now))
    case Cleared(ip) => None
    case Answered(ip, ok) => Some(P.Record(ip, a.now, ok))
  }

  function Completion(ip: IpAddr, a: Act): Op {
    Complete(a.id, a.code, ip, a.unix, a.io)
  }

  /** Where the thread stands after its step. */
  function NextPc(s: Server, i: nat, a: Act): Pc
    requires i < |s.actors|
  {
    match s.actors[i]
    case Idle =>
      if Sum(s.actors, OfIp(a.source)) >= P.CONNECTIONS || Limited(s.limiter.table, a.source, a.now) then Idle
      else Asked(a.source)
    case Asked(ip) =>
      if a.pin.Some? && !RecordStep(s.limiter.table, ip, a.now, a.pin.value).1 then Idle else PastPin(ip)
    case PastPin(ip) =>
      if !a.pairs || IsLoopback(Canonical(ip)) || Limited(s.limiter.table, ip, a.now) then Idle else Cleared(ip)
    case Cleared(ip) => Answered(ip, Step(s.store, Completion(ip, a)).1.Ok?)
    case Answered(_, _) => Idle
  }

  function TurnStep(s: Server, i: nat, a: Act): Server
    requires i < |s.actors|
  {
    var move := MoveOf(s, i, a);
    Server(
      if move.Some? then P.Step(s.limiter, move.value) else s.limiter,
      if s.actors[i].Cleared? then Step(s.store, Completion(s.actors[i].ip, a)).0 else s.store,
      s.actors[i := NextPc(s, i, a)])
  }

  function EventStep(s: Server, e: Event): Server
    requires e.Turn? ==> e.i < |s.actors|
  {
    match e
    case Local(op) => s.(store := Step(s.store, op).0)
    case Turn(i, a) => TurnStep(s, i, a)
  }

  predicate Schedule(n: nat, run: seq<Event>) {
    forall k :: 0 <= k < |run| && run[k].Turn? ==> run[k].i < n
  }

  /** The server with `n` threads after the events. */
  function After(n: nat, run: seq<Event>): (s: Server)
    requires Schedule(n, run)
    ensures |s.actors| == n
  {
    if run == [] then Server(P.State(map[], map[]), map[], seq(n, _ => Idle))
    else EventStep(After(n, run[..|run| - 1]), run[|run| - 1])
  }

  /** The accesses to the limiter, in order. */
  function Moves(n: nat, run: seq<Event>): seq<P.Move>
    requires Schedule(n, run)
  {
    if run == [] then []
    else
      var e, past := run[|run| - 1], run[..|run| - 1];
      var move := if e.Turn? then MoveOf(After(n, past), e.i, e.a) else None;
      Moves(n, past) + (if move.Some? then [move.value] else [])
  }

  // ------------------------------------------------------------------ the invariant

  /** No address has more than four connections, and the limiter's account of those let
      through is right. */
  predicate CountsRight(s: Server, ip: IpAddr) {
    0 <= P.InFlight(s.limiter, ip) == Sum(s.actors, InFlightOf(ip)) <= Sum(s.actors, OfIp(ip)) <= P.CONNECTIONS
  }

  lemma TurnKeepsCounts(s: Server, i: nat, a: Act, ip: IpAddr)
    requires i < |s.actors| && CountsRight(s, ip)
    requires CountsRight(s, if s.actors[i].Idle? then a.source else s.actors[i].ip)
    ensures CountsRight(TurnStep(s, i, a), ip)
  {
    var pc, next := s.actors[i], NextPc(s, i, a);
    SumUpdate(s.actors, InFlightOf(ip), i, next);
    SumUpdate(s.actors, OfIp(ip), i, next);
    if !pc.Idle? {
      NotInFlightIsLess(s.actors, i, pc.ip);
      InFlightIsOne(s.actors, i, pc.ip);
    }
    LimiterCounts(s, i, a, ip);
    InFlightAreActive(s.actors[i := next], ip);
    StaysWithinFour(s, i, a, ip);
    hide NextPc, MoveOf;
  }

  /** The limiter's count follows the thread. */
  lemma LimiterCounts(s: Server, i: nat, a: Act, ip: IpAddr)
    requires i < |s.actors| && CountsRight(s, if s.actors[i].Idle? then a.source else s.actors[i].ip)
    requires var pc, most := s.actors[i], P.CONNECTIONS - 1;
             !pc.Idle? ==>
               InFlightOf(pc.ip)(pc) <= P.InFlight(s.limiter, pc.ip) <= most + InFlightOf(pc.ip)(pc)
    ensures P.InFlight(TurnStep(s, i, a).limiter, ip)
            == P.InFlight(s.limiter, ip) - InFlightOf(ip)(s.actors[i]) + InFlightOf(ip)(NextPc(s, i, a))
  {
    hide RecordStep, Limited, Step, Sum;
  }

  lemma StaysWithinFour(s: Server, i: nat, a: Act, ip: IpAddr)
    requires i < |s.actors| && CountsRight(s, ip)
    ensures Sum(s.actors, OfIp(ip)) - OfIp(ip)(s.actors[i]) + OfIp(ip)(NextPc(s, i, a)) <= P.CONNECTIONS
  {
    hide RecordStep, Limited, Step;
  }

  lemma InFlightIsOne(actors: seq<Pc>, i: nat, ip: IpAddr)
    requires i < |actors|
    ensures Sum(actors, InFlightOf(ip)) >= InFlightOf(ip)(actors[i])
  {
    SumAtLeast(actors, InFlightOf(ip), i);
  }

  /** A thread that is active but not in flight leaves one connection fewer for those that are. */
  lemma {:induction false} NotInFlightIsLess(actors: seq<Pc>, i: nat, ip: IpAddr)
    requires i < |actors| && !actors[i].Idle? && actors[i].ip == ip
    ensures Sum(actors, InFlightOf(ip)) + 1 - InFlightOf(ip)(actors[i]) <= Sum(actors, OfIp(ip))
  {
    var free := actors[i := Idle];
    SumUpdate(actors, InFlightOf(ip), i, Idle);
    SumUpdate(actors, OfIp(ip), i, Idle);
    InFlightAreActive(free, ip);
  }

  lemma {:induction false} InFlightAreActive(actors: seq<Pc>, ip: IpAddr)
    ensures Sum(actors, InFlightOf(ip)) <= Sum(actors, OfIp(ip))
    ensures Sum(actors, RefusedOf(ip)) <= Sum(actors, InFlightOf(ip))
  {
    if actors != [] {
      InFlightAreActive(actors[..|actors| - 1], ip);
    }
  }

  lemma {:induction false} CountsHold(n: nat, run: seq<Event>)
    requires Schedule(n, run)
    ensures forall ip :: CountsRight(After(n, run), ip)
  {
    if run == [] {
      var s := After(n, run);
      forall ip ensures CountsRight(s, ip) {
        SumZero(s.actors, OfIp(ip));
        SumZero(s.actors, InFlightOf(ip));
      }
    } else {
      var past, e := run[..|run| - 1], run[|run| - 1];
      CountsHold(n, past);
      if e.Turn? {
        forall ip ensures CountsRight(After(n, run), ip) {
          TurnKeepsCounts(After(n, past), e.i, e.a, ip);
        }
      } else {
        forall ip ensures CountsRight(After(n, run), ip) {
          assert CountsRight(After(n, past), ip);
        }
      }
    }
  }

  /** A run of the server is a run of the limiter's own interleavings. */
  lemma {:induction false} LimiterRuns(n: nat, run: seq<Event>)
    requires Schedule(n, run)
    ensures After(n, run).limiter == P.StateAfter(Moves(n, run))
  {
    hide P.Step, MoveOf, NextPc, Step;
    if run != [] {
      var past := run[..|run| - 1];
      LimiterRuns(n, past);
      var moves := Moves(n, run);
      if |moves| > |Moves(n, past)| {
        assert moves[..|moves| - 1] == Moves(n, past);
      } else {
        assert moves == Moves(n, past);
      }
    }
  }

  // ------------------------------------------------------------------ refused codes

  function LastNow(run: seq<Event>): nat {
    if run == [] then 0
    else if run[|run| - 1].Turn? then run[|run| - 1].a.now
    else LastNow(run[..|run| - 1])
  }

  /** The limiter's clock does not run backwards. */
  predicate Timed(run: seq<Event>) {
    run != [] ==>
      var past, e := run[..|run| - 1], run[|run| - 1];
      Timed(past) && (e.Turn? ==> LastNow(past) <= e.a.now)
  }

  lemma {:induction false} MovesAreOrdered(n: nat, run: seq<Event>)
    requires Schedule(n, run) && Timed(run)
    ensures P.Ordered(Moves(n, run))
    ensures Moves(n, run) == [] || Moves(n, run)[|Moves(n, run)| - 1].now <= LastNow(run)
  {
    hide NextPc, EventStep, MoveOf;
    if run != [] {
      var past, e := run[..|run| - 1], run[|run| - 1];
      MovesAreOrdered(n, past);
      if e.Turn? {
        MoveTime(After(n, past), e.i, e.a);
      }
    }
  }

  lemma MoveTime(s: Server, i: nat, a: Act)
    requires i < |s.actors|
    ensures MoveOf(s, i, a).Some? ==> MoveOf(s, i, a).value.now == a.now
  {
  }

  /** In this event the store refuses a code from `ip` in the 60 seconds from `lo` on. */
  predicate Refuses(s: Server, e: Event, ip: IpAddr, lo: nat)
    requires e.Turn? ==> e.i < |s.actors|
  {
    && e.Turn? && s.actors[e.i].Cleared? && s.actors[e.i].ip == ip && lo <= e.a.now < lo + WINDOW
    && Step(s.store, Completion(ip, e.a)).1.Err?
  }

  function Refusals(n: nat, run: seq<Event>, ip: IpAddr, lo: nat): nat
    requires Schedule(n, run)
  {
    if run == [] then 0
    else
      var past := run[..|run| - 1];
      Refusals(n, past, ip, lo) + (if Refuses(After(n, past), run[|run| - 1], ip, lo) then 1 else 0)
  }

  /** One step: what the store refuses is recorded later or still waiting to be. */
  lemma TurnAccounts(s: Server, e: Event, ip: IpAddr, lo: nat)
    requires e.Turn? && e.i < |s.actors| && lo <= e.a.now < lo + WINDOW && CountsRight(s, ip)
    ensures var move := MoveOf(s, e.i, e.a);
            var refused := if Refuses(s, e, ip, lo) then 1 else 0;
            var guessed := if move.Some? && P.Fails(s.limiter, move.value, ip, lo) then 1 else 0;
            Sum(s.actors, RefusedOf(ip)) + refused <= guessed + Sum(EventStep(s, e).actors, RefusedOf(ip))
  {
    var next := NextPc(s, e.i, e.a);
    SumUpdate(s.actors, RefusedOf(ip), e.i, next);
    InFlightIsOne(s.actors, e.i, ip);
    hide Step, RecordStep, Limited;
  }

  lemma {:induction false} RefusalsAreAccounted(n: nat, run: seq<Event>, ip: IpAddr, lo: nat)
    requires Schedule(n, run) && Timed(run)
    ensures LastNow(run) < lo ==> Refusals(n, run, ip, lo) == 0
    ensures LastNow(run) < lo + WINDOW ==>
              Refusals(n, run, ip, lo) <= P.Guesses(Moves(n, run), ip, lo) + Sum(After(n, run).actors, RefusedOf(ip))
  {
    RefusedNotNegative(After(n, run).actors, ip);
    if run != [] {
      var past, e := run[..|run| - 1], run[|run| - 1];
      RefusalsAreAccounted(n, past, ip, lo);
      LimiterRuns(n, past);
      CountsHold(n, past);
      GuessesNext(n, run, ip, lo);
      hide EventStep, MoveOf, Refuses, Moves;
      if e.Turn? && lo <= e.a.now < lo + WINDOW {
        TurnAccounts(After(n, past), e, ip, lo);
      } else {
        QuietEvent(After(n, past), e, ip, lo);
      }
    }
  }

  lemma QuietEvent(s: Server, e: Event, ip: IpAddr, lo: nat)
    requires e.Turn? ==> e.i < |s.actors|
    requires !(e.Turn? && lo <= e.a.now < lo + WINDOW)
    ensures !Refuses(s, e, ip, lo)
    ensures e.Local? ==> EventStep(s, e).actors == s.actors
  {
  }

  lemma RefusedNotNegative(actors: seq<Pc>, ip: IpAddr)
    ensures Sum(actors, RefusedOf(ip)) >= 0
  {
    SumNonNegative(actors, RefusedOf(ip));
  }

  lemma GuessesNext(n: nat, run: seq<Event>, ip: IpAddr, lo: nat)
    requires Schedule(n, run) && run != []
    ensures var past, e := run[..|run| - 1], run[|run| - 1];
            var move := if e.Turn? then MoveOf(After(n, past), e.i, e.a) else None;
            P.Guesses(Moves(n, run), ip, lo)
            == P.Guesses(Moves(n, past), ip, lo)
               + (if move.Some? && P.Fails(P.StateAfter(Moves(n, past)), move.value, ip, lo) then 1 else 0)
  {
    hide MoveOf, EventStep, P.Fails, P.Step;
    var past, moves := run[..|run| - 1], Moves(n, run);
    if |moves| > |Moves(n, past)| {
      assert moves[..|moves| - 1] == Moves(n, past);
    } else {
      assert moves == Moves(n, past);
    }
  }

  lemma FewerMoves(n: nat, run: seq<Event>, ip: IpAddr, lo: nat)
    requires Schedule(n, run) && run != []
    ensures var past := run[..|run| - 1];
            && (P.NoSuccess(Moves(n, run), ip, lo) ==> P.NoSuccess(Moves(n, past), ip, lo))
            && (P.NeverPruned(Moves(n, run)) ==> P.NeverPruned(Moves(n, past)))
  {
    hide MoveOf, EventStep, P.StateAfter;
    var moves, before := Moves(n, run), Moves(n, run[..|run| - 1]);
    assert before <= moves;
    if P.NeverPruned(moves) {
      forall k | 0 <= k < |before| ensures |P.StateAfter(before[..k]).table| <= PRUNE_ABOVE {
        assert before[..k] == moves[..k];
      }
    }
  }

  lemma {:induction false} RefusalsWithin(n: nat, run: seq<Event>, ip: IpAddr, lo: nat, base: nat)
    requires Schedule(n, run) && Timed(run) && P.NoSuccess(Moves(n, run), ip, lo)
    requires base == P.CONNECTIONS || (base == MAX_FAILURES - 2 && P.NeverPruned(Moves(n, run)))
    ensures Refusals(n, run, ip, lo) <= base + MAX_FAILURES - 1 + P.CONNECTIONS
  {
    hide P.NoSuccess, P.NeverPruned, P.Ordered, P.Guesses, P.StateAfter, P.Room, EventStep, CountsRight;
    if LastNow(run) < lo + WINDOW {
      RefusalsAreAccounted(n, run, ip, lo);
      MovesAreOrdered(n, run);
      LimiterRuns(n, run);
      RefusedAreInFlight(n, run, ip);
      P.RoomHolds(Moves(n, run), ip, lo, base);
      var s := P.StateAfter(Moves(n, run));
      P.RoomBounds(Entry(s.table, ip), P.InFlight(s, ip), P.Guesses(Moves(n, run), ip, lo), lo, base);
    } else if run != [] {
      FewerMoves(n, run, ip, lo);
      RefusalsWithin(n, run[..|run| - 1], ip, lo, base);
    }
  }

  lemma RefusedAreInFlight(n: nat, run: seq<Event>, ip: IpAddr)
    requires Schedule(n, run)
    ensures Sum(After(n, run).actors, RefusedOf(ip)) <= P.InFlight(After(n, run).limiter, ip)
  {
    CountsHold(n, run);
    InFlightAreActive(After(n, run).actors, ip);
    assert CountsRight(After(n, run), ip);
    hide After;
  }

  /** However its requests interleave, with wrong PINs in between or not, the store refuses at
      most twelve codes from one address in any 60 seconds in which no attempt of its own is
      recorded as a success, and at most eleven while the limiter's table is never pruned. */
  lemma AtMostTwelveCodesRefused(n: nat, run: seq<Event>, ip: IpAddr, lo: nat)
    requires Schedule(n, run) && Timed(run) && P.NoSuccess(Moves(n, run), ip, lo)
    ensures Refusals(n, run, ip, lo) <= 12
    ensures P.NeverPruned(Moves(n, run)) ==> Refusals(n, run, ip, lo) <= 11
  {
    RefusalsWithin(n, run, ip, lo, P.CONNECTIONS);
    if P.NeverPruned(Moves(n, run)) {
      RefusalsWithin(n, run, ip, lo, MAX_FAILURES - 2);
    }
  }

  // -------------------------------------------------------- who can become a peer

  /** The operation an event runs on the store, if it runs one. */
  function Executed(s: Server, e: Event): Option<Op>
    requires e.Turn? ==> e.i < |s.actors|
  {
    match e
    case Local(op) => Some(op)
    case Turn(i, a) => if s.actors[i].Cleared? then Some(Completion(s.actors[i].ip, a)) else None
  }

  function Trace(n: nat, run: seq<Event>): (t: T.Trace)
    requires Schedule(n, run)
    ensures |t| == |run|
  {
    if run == [] then []
    else Trace(n, run[..|run| - 1]) + [Executed(After(n, run[..|run| - 1]), run[|run| - 1])]
  }

  lemma {:induction false} TraceAt(n: nat, run: seq<Event>, i: nat)
    requires Schedule(n, run) && i < |run|
    ensures Trace(n, run)[i] == Executed(After(n, run[..i]), run[i])
  {
    hide Executed, EventStep;
    if i < |run| - 1 {
      TraceAt(n, run[..|run| - 1], i);
      assert run[..|run| - 1][..i] == run[..i];
    }
  }

  /** A run of the server is a run of the trust store. */
  lemma {:induction false} StoreRuns(n: nat, run: seq<Event>)
    requires Schedule(n, run)
    ensures After(n, run).store == T.StoreAfter(Trace(n, run))
  {
    hide Step, P.Step, NextPc, MoveOf;
    if run != [] {
      var past := run[..|run| - 1];
      StoreRuns(n, past);
      T.OneMore(Trace(n, past), Executed(After(n, past), run[|run| - 1]));
      hide T.StoreAfter;
    }
  }

  /** Event `k` is a thread to which the store grants a completion. */
  predicate Grants(n: nat, run: seq<Event>, k: nat)
    requires Schedule(n, run) && k < |run|
  {
    var s, e := After(n, run[..k]), run[k];
    e.Turn? && s.actors[e.i].Cleared? && Step(s.store, Completion(s.actors[e.i].ip, e.a)).1.Ok?
  }

  /** Event `i` is the local user issuing, for the identifier presented in event `k`, the code
      presented there and the token granted there. */
  predicate Issued(n: nat, run: seq<Event>, i: nat, k: nat)
    requires Schedule(n, run) && i < k < |run| && Grants(n, run, k)
  {
    var s, a := After(n, run[..k]), run[k].a;
    var done := Completion(s.actors[run[k].i].ip, a);
    run[i].Local? && T.IssuedBy(run[i].op, done, Step(s.store, done).1.value)
  }

  lemma BeginIsLocal(s: Server, e: Event)
    requires e.Turn? ==> e.i < |s.actors|
    requires Executed(s, e).Some? && Executed(s, e).value.Begin?
    ensures e == Local(Executed(s, e).value)
  {
  }

  /** However the threads interleave, nobody is granted a pairing but with a code that the local
      user issued for that very identifier at most ten minutes before. */
  lemma GrantWasIssuedLocally(n: nat, run: seq<Event>, k: nat)
    requires Schedule(n, run) && k < |run| && Grants(n, run, k)
    ensures exists i :: 0 <= i < k && Issued(n, run, i, k)
  {
    var past := run[..k];
    StoreRuns(n, past);
    var s := After(n, past);
    var done := Completion(s.actors[run[k].i].ip, run[k].a);
    hide Step, After, Trace, Executed, T.StoreAfter;
    T.GrantHasOrigin(Trace(n, past), done);
    var i :| 0 <= i < k && Trace(n, past)[i].Some?
             && T.IssuedBy(Trace(n, past)[i].value, done, Step(s.store, done).1.value);
    TraceAt(n, past, i);
    assert past[..i] == run[..i] && past[i] == run[i];
    BeginIsLocal(After(n, run[..i]), run[i]);
    assert Issued(n, run, i, k);
  }
}
