/** The rate limiter of src/main.rs under concurrent requests: asking whether an address is
    blocked and recording its attempt are two separate steps, and each of its up to four open
    connections may stand between them. */
module PinInterleavings {
  import opened Prelude
  import opened Addresses
  import opened PinLimiter
  import ConnectionLimiter

  const CONNECTIONS: nat := ConnectionLimiter.MAX_PEER_CONNECTIONS

  /** One access to the limiter: a request asks, records its attempt, or ends without one. */
  datatype Move =
    | Check(ip: IpAddr, now: nat)
    | Record(ip: IpAddr, now: nat, success: bool)
    | Abandon(ip: IpAddr, now: nat)

  /** The table, and per address how many requests have been let through and not recorded. */
  datatype State = State(table: Table, inFlight: map<IpAddr, nat>)

  function InFlight(s: State, ip: IpAddr): nat {
    if ip in s.inFlight then s.inFlight[ip] else 0
  }

  /** A request that is not let through, or for which there is no connection, changes nothing. */
  function Step(s: State, m: Move): State {
    match m
    case Check(ip, now) =>
      if Limited(s.table, ip, now) || InFlight(s, ip) >= CONNECTIONS then s
      else s.(inFlight := s.inFlight[ip := InFlight(s, ip) + 1])
    case Record(ip, now, success) =>
      if InFlight(s, ip) == 0 then s
      else State(RecordStep(s.table, ip, now, success).0, s.inFlight[ip := InFlight(s, ip) - 1])
    case Abandon(ip, _) =>
      if InFlight(s, ip) == 0 then s else s.(inFlight := s.inFlight[ip := InFlight(s, ip) - 1])
  }

  function StateAfter(run: seq<Move>): State {
    if run == [] then State(map[], map[]) else Step(StateAfter(run[..|run| - 1]), run[|run| - 1])
  }

  predicate Ordered(run: seq<Move>) {
    forall i, j :: 0 <= i <= j < |run| ==> run[i].now <= run[j].now
  }

  /** The move records a failure of `ip` at a time in the 60 seconds from `lo` on. */
  predicate Fails(s: State, m: Move, ip: IpAddr, lo: nat) {
    m.Record? && m.ip == ip && InFlight(s, ip) > 0 && !m.success && lo <= m.now < lo + WINDOW
  }

  function Guesses(run: seq<Move>, ip: IpAddr, lo: nat): nat {
    if run == [] then 0
    else
      var past := run[..|run| - 1];
      Guesses(past, ip, lo) + (if Fails(StateAfter(past), run[|run| - 1], ip, lo) then 1 else 0)
  }

  predicate NoSuccess(run: seq<Move>, ip: IpAddr, lo: nat) {
    forall i :: 0 <= i < |run| && run[i].Record? && run[i].ip == ip && lo <= run[i].now < lo + WINDOW ==>
                  !run[i].success
  }

  /** The table never grows beyond the size at which it is pruned. */
  predicate NeverPruned(run: seq<Move>) {
    forall k :: 0 <= k < |run| ==> |StateAfter(run[..k]).table| <= PRUNE_ABOVE
  }

  // ------------------------------------------------------------------ the invariant

  /** With `guesses` failures in the interval so far: what each state of the address still
      leaves room for. `base` is what an earlier window can have contributed: three if it ran
      out, four if it was blocked and then pruned away. */
  predicate Room(st: Option<PinState>, inFlight: nat, guesses: nat, lo: nat, base: nat) {
    inFlight <= CONNECTIONS
    && match st
       case None => guesses <= base && (base < CONNECTIONS ==> guesses == 0)
       case Some(s) =>
         var blocked := s.failedCount >= MAX_FAILURES;
         var sealed := blocked && s.blockedUntil.Some? && s.blockedUntil.value >= lo + WINDOW;
         if s.windowStart >= lo then
           if !blocked then guesses <= base + s.failedCount
           else sealed && guesses + inFlight <= base + MAX_FAILURES - 1 + CONNECTIONS
         else if !blocked then
           guesses <= s.failedCount - 1 && (guesses > 0 ==> s.windowStart + WINDOW >= lo)
         else
           guesses == 0
           || (sealed && guesses + inFlight <= MAX_FAILURES - 2 + CONNECTIONS
               && (s.windowStart + WINDOW < lo ==> guesses + inFlight <= CONNECTIONS))
  }

  predicate Sane(table: Table, ip: IpAddr, last: nat) {
    ip in table ==> EntrySane(table[ip], last)
  }

  lemma RecordKeepsSane(table: Table, who: IpAddr, now: nat, success: bool, ip: IpAddr, last: nat)
    requires Sane(table, ip, last) && last <= now
    ensures Sane(RecordStep(table, who, now, success).0, ip, now)
  {
  }

  lemma {:induction false} AlwaysSane(run: seq<Move>, ip: IpAddr)
    requires Ordered(run)
    ensures Sane(StateAfter(run).table, ip, if run == [] then 0 else run[|run| - 1].now)
  {
    if run != [] {
      var past, m := run[..|run| - 1], run[|run| - 1];
      AlwaysSane(past, ip);
      if m.Record? {
        hide RecordStep, Sane;
        var last := if past == [] then 0 else past[|past| - 1].now;
        LaterIsSane(StateAfter(past).table, ip, last, m.now);
        RecordKeepsSane(StateAfter(past).table, m.ip, m.now, m.success, ip, last);
      }
    }
  }

  lemma LaterIsSane(table: Table, ip: IpAddr, last: nat, later: nat)
    requires Sane(table, ip, last) && last <= later
    ensures Sane(table, ip, later)
  {
  }

  /** Someone else's move: the address keeps its entry or, if old enough, loses it. */
  lemma OthersLeaveRoom(s: State, m: Move, ip: IpAddr, guesses: nat, lo: nat, base: nat)
    requires m.ip != ip && Room(Entry(s.table, ip), InFlight(s, ip), guesses, lo, base)
    requires lo <= m.now < lo + WINDOW && Sane(s.table, ip, m.now)
    requires base == CONNECTIONS || (base == MAX_FAILURES - 2 && |s.table| <= PRUNE_ABOVE)
    ensures Room(Entry(Step(s, m).table, ip), InFlight(Step(s, m), ip), guesses, lo, base)
  {
    var p := Pruned(s.table, m.now);
    assert ip in p ==> ip in s.table && p[ip] == s.table[ip];
    assert ip in s.table && ip !in p ==> s.table[ip].windowStart + WINDOW < lo && base == CONNECTIONS;
  }

  /** The address's own failure. */
  lemma FailureLeavesRoom(s: State, m: Move, ip: IpAddr, guesses: nat, lo: nat, base: nat)
    requires Fails(s, m, ip, lo) && Room(Entry(s.table, ip), InFlight(s, ip), guesses, lo, base)
    requires Sane(s.table, ip, m.now)
    requires base == CONNECTIONS || (base == MAX_FAILURES - 2 && |s.table| <= PRUNE_ABOVE)
    ensures Room(Entry(Step(s, m).table, ip), InFlight(Step(s, m), ip), guesses + 1, lo, base)
  {
    var p := Pruned(s.table, m.now);
    assert ip in p ==> ip in s.table && p[ip] == s.table[ip];
    assert ip in s.table && ip !in p ==> s.table[ip].windowStart + WINDOW < lo && base == CONNECTIONS;
  }

  /** The address asks, gives up, or tries to record without having been let through. */
  lemma WaitingLeavesRoom(s: State, m: Move, ip: IpAddr, guesses: nat, lo: nat, base: nat)
    requires m.ip == ip && Room(Entry(s.table, ip), InFlight(s, ip), guesses, lo, base)
    requires lo <= m.now < lo + WINDOW && Sane(s.table, ip, m.now)
    requires m.Record? ==> InFlight(s, ip) == 0
    ensures Room(Entry(Step(s, m).table, ip), InFlight(Step(s, m), ip), guesses, lo, base)
  {
  }

  lemma FreshRoom(s: State, ip: IpAddr, lo: nat, base: nat, last: nat)
    requires last < lo && Sane(s.table, ip, last) && InFlight(s, ip) <= CONNECTIONS
    ensures Room(Entry(s.table, ip), InFlight(s, ip), 0, lo, base)
  {
  }

  lemma RoomBounds(st: Option<PinState>, inFlight: nat, guesses: nat, lo: nat, base: nat)
    requires Room(st, inFlight, guesses, lo, base) && MAX_FAILURES - 2 <= base <= CONNECTIONS
    ensures guesses + inFlight <= base + MAX_FAILURES - 1 + CONNECTIONS
  {
  }

  lemma {:induction false} FewInFlight(run: seq<Move>, ip: IpAddr)
    ensures InFlight(StateAfter(run), ip) <= CONNECTIONS
  {
    if run != [] {
      FewInFlight(run[..|run| - 1], ip);
    }
  }

  lemma {:induction false} RoomHolds(run: seq<Move>, ip: IpAddr, lo: nat, base: nat)
    requires Ordered(run) && NoSuccess(run, ip, lo)
    requires base == CONNECTIONS || (base == MAX_FAILURES - 2 && NeverPruned(run))
    ensures (run == [] || run[|run| - 1].now < lo) ==> Guesses(run, ip, lo) == 0
    ensures (run == [] || run[|run| - 1].now < lo + WINDOW) ==>
              Room(Entry(StateAfter(run).table, ip), InFlight(StateAfter(run), ip), Guesses(run, ip, lo), lo, base)
    ensures Guesses(run, ip, lo) <= base + MAX_FAILURES - 1 + CONNECTIONS
  {
    if run != [] {
      var past, m := run[..|run| - 1], run[|run| - 1];
      var s, g := StateAfter(past), Guesses(past, ip, lo);
      ShorterRun(run, ip, lo, base);
      hide NeverPruned, Ordered, NoSuccess;
      RoomHolds(past, ip, lo, base);
      AlwaysSane(past, ip);
      var last := if past == [] then 0 else past[|past| - 1].now;
      LaterIsSane(s.table, ip, last, m.now);
      hide Step, Room, Sane, RecordStep;
      if lo <= m.now < lo + WINDOW {
        if m.ip != ip {
          OthersLeaveRoom(s, m, ip, g, lo, base);
        } else if m.Record? && InFlight(s, ip) > 0 {
          FailureLeavesRoom(s, m, ip, g, lo, base);
        } else {
          WaitingLeavesRoom(s, m, ip, g, lo, base);
        }
        RoomBounds(Entry(StateAfter(run).table, ip), InFlight(StateAfter(run), ip), Guesses(run, ip, lo), lo, base);
      }
      if m.now < lo {
        AlwaysSane(run, ip);
        FewInFlight(run, ip);
        FreshRoom(StateAfter(run), ip, lo, base, m.now);
      }
    } else {
      FewInFlight(run, ip);
    }
  }

  lemma ShorterRun(run: seq<Move>, ip: IpAddr, lo: nat, base: nat)
    requires run != [] && Ordered(run) && NoSuccess(run, ip, lo)
    ensures var past, m := run[..|run| - 1], run[|run| - 1];
            && Ordered(past) && NoSuccess(past, ip, lo)
            && (past != [] ==> past[|past| - 1].now <= m.now)
            && (m.Record? && m.ip == ip && lo <= m.now < lo + WINDOW ==> !m.success)
            && (NeverPruned(run) ==> NeverPruned(past) && |StateAfter(past).table| <= PRUNE_ABOVE)
  {
    hide StateAfter;
    var past := run[..|run| - 1];
    if NeverPruned(run) {
      forall k | 0 <= k < |past| ensures |StateAfter(past[..k]).table| <= PRUNE_ABOVE {
        assert past[..k] == run[..k];
      }
    }
  }

  /** However the requests of an address interleave, with each other and with everyone
      else's, at most twelve of its failing attempts fall into any 60 seconds without a
      success of its own, and at most eleven while the table is never pruned. */
  lemma AtMostTwelveGuesses(run: seq<Move>, ip: IpAddr, lo: nat)
    requires Ordered(run) && NoSuccess(run, ip, lo)
    ensures Guesses(run, ip, lo) <= 12
    ensures NeverPruned(run) ==> Guesses(run, ip, lo) <= 11
  {
    RoomHolds(run, ip, lo, CONNECTIONS);
    if NeverPruned(run) {
      RoomHolds(run, ip, lo, MAX_FAILURES - 2);
    }
  }

  // --------------------------------------------------------- the bounds are reached

  function Checks(ip: IpAddr, now: nat, n: nat): seq<Move> {
    if n == 0 then [] else Checks(ip, now, n - 1) + [Check(ip, now)]
  }

  function Records(ip: IpAddr, now: nat, n: nat): seq<Move> {
    if n == 0 then [] else Records(ip, now, n - 1) + [Record(ip, now, false)]
  }

  /** `n` requests ask together, then all of them fail. */
  function Round(ip: IpAddr, now: nat, n: nat): seq<Move> {
    Checks(ip, now, n) + Records(ip, now, n)
  }

  function FailMany(st: Option<PinState>, now: nat, n: nat): Option<PinState> {
    if n == 0 then st else Some(Failed(FailMany(st, now, n - 1), now))
  }

  /** How an address stands: its entry, and how many of its requests are in flight. */
  predicate Stands(s: State, ip: IpAddr, st: Option<PinState>, f: nat) {
    Entry(s.table, ip) == st && InFlight(s, ip) == f
  }

  /** A failure now would not prune the address's own entry. */
  predicate Stays(s: State, ip: IpAddr, now: nat) {
    s.table.Keys <= {ip} || (ip in s.table ==> Elapsed(now, s.table[ip].windowStart) < PRUNE_AGE)
  }

  predicate NotBlocked(st: Option<PinState>, now: nat) {
    st.Some? && st.value.blockedUntil.Some? ==> st.value.blockedUntil.value <= now
  }

  function InInterval(now: nat, lo: nat, n: nat): nat {
    if lo <= now < lo + WINDOW then n else 0
  }

  lemma OneMore(run: seq<Move>, m: Move, ip: IpAddr, lo: nat)
    ensures StateAfter(run + [m]) == Step(StateAfter(run), m)
    ensures Guesses(run + [m], ip, lo) == Guesses(run, ip, lo) + if Fails(StateAfter(run), m, ip, lo) then 1 else 0
  {
    assert (run + [m])[..|run|] == run;
  }

  lemma {:induction false} ChecksPass(run: seq<Move>, ip: IpAddr, now: nat, st: Option<PinState>, n: nat, lo: nat)
    requires Stands(StateAfter(run), ip, st, 0) && NotBlocked(st, now) && n <= CONNECTIONS
    ensures Stands(StateAfter(run + Checks(ip, now, n)), ip, st, n)
    ensures StateAfter(run + Checks(ip, now, n)).table == StateAfter(run).table
    ensures Guesses(run + Checks(ip, now, n), ip, lo) == Guesses(run, ip, lo)
  {
    hide StateAfter, Guesses, Step, RecordStep;
    if n == 0 {
      assert run + [] == run;
    } else {
      ChecksPass(run, ip, now, st, n - 1, lo);
      var before := run + Checks(ip, now, n - 1);
      assert run + Checks(ip, now, n) == before + [Check(ip, now)];
      OneMore(before, Check(ip, now), ip, lo);
      CheckPasses(StateAfter(before), ip, now, st, n - 1);
    }
  }

  lemma CheckPasses(s: State, ip: IpAddr, now: nat, st: Option<PinState>, f: nat)
    requires Stands(s, ip, st, f) && f < CONNECTIONS && NotBlocked(st, now)
    ensures Stands(Step(s, Check(ip, now)), ip, st, f + 1) && Step(s, Check(ip, now)).table == s.table
  {
  }

  lemma {:induction false} RecordsCount(run: seq<Move>, ip: IpAddr, now: nat, st: Option<PinState>, f: nat, n: nat,
      lo: nat)
    requires Stands(StateAfter(run), ip, st, f) && n <= f && Stays(StateAfter(run), ip, now)
    ensures Stands(StateAfter(run + Records(ip, now, n)), ip, FailMany(st, now, n), f - n)
    ensures Stays(StateAfter(run + Records(ip, now, n)), ip, now)
    ensures StateAfter(run).table.Keys <= {ip} ==> StateAfter(run + Records(ip, now, n)).table.Keys <= {ip}
    ensures Guesses(run + Records(ip, now, n), ip, lo) == Guesses(run, ip, lo) + InInterval(now, lo, n)
  {
    hide StateAfter, Guesses, Step, RecordStep, Failed, Stays;
    if n == 0 {
      assert run + [] == run;
    } else {
      RecordsCount(run, ip, now, st, f, n - 1, lo);
      var before := run + Records(ip, now, n - 1);
      assert run + Records(ip, now, n) == before + [Record(ip, now, false)];
      OneMore(before, Record(ip, now, false), ip, lo);
      RecordCounts(StateAfter(before), ip, now, FailMany(st, now, n - 1), f - (n - 1));
    }
  }

  lemma RecordCounts(s: State, ip: IpAddr, now: nat, st: Option<PinState>, f: nat)
    requires Stands(s, ip, st, f) && f > 0 && Stays(s, ip, now)
    ensures var s' := Step(s, Record(ip, now, false));
            && Stands(s', ip, Some(Failed(st, now)), f - 1) && Stays(s', ip, now)
            && (s.table.Keys <= {ip} ==> s'.table.Keys <= {ip})
  {
    AtMostOne(s.table, ip);
    assert Entry(Pruned(s.table, now), ip) == st;
  }

  lemma AtMostOne(table: Table, ip: IpAddr)
    ensures table.Keys <= {ip} ==> |table| <= PRUNE_ABOVE
  {
    if table.Keys <= {ip} {
      if ip in table {
        assert table == map[ip := table[ip]];
      } else {
        assert table == map[];
      }
    }
  }

  lemma RoundCounts(run: seq<Move>, ip: IpAddr, now: nat, st: Option<PinState>, n: nat, lo: nat)
    requires Stands(StateAfter(run), ip, st, 0) && Stays(StateAfter(run), ip, now)
    requires NotBlocked(st, now) && n <= CONNECTIONS
    ensures Stands(StateAfter(run + Round(ip, now, n)), ip, FailMany(st, now, n), 0)
    ensures Stays(StateAfter(run + Round(ip, now, n)), ip, now)
    ensures StateAfter(run).table.Keys <= {ip} ==> StateAfter(run + Round(ip, now, n)).table.Keys <= {ip}
    ensures Guesses(run + Round(ip, now, n), ip, lo) == Guesses(run, ip, lo) + InInterval(now, lo, n)
  {
    hide StateAfter, Guesses;
    ChecksPass(run, ip, now, st, n, lo);
    RecordsCount(run + Checks(ip, now, n), ip, now, st, n, n, lo);
    assert run + Round(ip, now, n) == run + Checks(ip, now, n) + Records(ip, now, n);
  }

  /** Every move is of a request that fails, in order of time. */
  predicate Tame(run: seq<Move>, last: nat) {
    (forall i :: 0 <= i < |run| ==> run[i].now <= last && (run[i].Record? ==> !run[i].success)) && Ordered(run)
  }

  lemma RoundIsTame(run: seq<Move>, ip: IpAddr, last: nat, now: nat, n: nat)
    requires Tame(run, last) && last <= now
    ensures Tame(run + Round(ip, now, n), now)
    ensures forall m :: m in Round(ip, now, n) ==> m.ip == ip
  {
    AllAtOnce(ip, now, n);
    var round := Round(ip, now, n);
    var all := run + round;
    assert forall m :: m in round ==> m.ip == ip && m.now == now && (m.Record? ==> !m.success);
    hide Checks, Records, Round;
    forall i | |run| <= i < |all| ensures all[i] in round {
    }
  }

  lemma {:induction false} AllAtOnce(ip: IpAddr, now: nat, n: nat)
    ensures forall m :: m in Checks(ip, now, n) ==> m == Check(ip, now)
    ensures forall m :: m in Records(ip, now, n) ==> m == Record(ip, now, false)
  {
    if n > 0 {
      AllAtOnce(ip, now, n - 1);
    }
  }

  lemma {:induction false} OneEntry(run: seq<Move>, ip: IpAddr)
    requires forall m :: m in run ==> m.ip == ip
    ensures StateAfter(run).table.Keys <= {ip}
  {
    if run != [] {
      assert run[|run| - 1] in run;
      OneEntry(run[..|run| - 1], ip);
    }
  }

  lemma OneAddressIsNeverPruned(run: seq<Move>, ip: IpAddr)
    requires forall m :: m in run ==> m.ip == ip
    ensures NeverPruned(run)
  {
    forall k | 0 <= k < |run| ensures |StateAfter(run[..k]).table| <= PRUNE_ABOVE {
      OneEntry(run[..k], ip);
      AtMostOne(StateAfter(run[..k]).table, ip);
    }
  }

  lemma FailuresInARow()
    ensures FailMany(None, 0, 1) == Some(PinState(1, 0, None))
    ensures FailMany(Some(PinState(1, 0, None)), WINDOW, 3) == Some(PinState(4, 0, None))
    ensures FailMany(Some(PinState(4, 0, None)), WINDOW + 1, 4) == Some(PinState(4, WINDOW + 1, None))
  {
    var one, four := Some(PinState(1, 0, None)), Some(PinState(4, 0, None));
    assert FailMany(None, 0, 0) == None;
    assert FailMany(one, WINDOW, 1) == Some(PinState(2, 0, None));
    assert FailMany(one, WINDOW, 2) == Some(PinState(3, 0, None));
    assert FailMany(four, WINDOW + 1, 1) == Some(PinState(1, WINDOW + 1, None));
    assert FailMany(four, WINDOW + 1, 2) == Some(PinState(2, WINDOW + 1, None));
    assert FailMany(four, WINDOW + 1, 3) == Some(PinState(3, WINDOW + 1, None));
  }

  lemma Start(ip: IpAddr, lo: nat)
    ensures Stands(StateAfter([]), ip, None, 0) && StateAfter([]).table.Keys <= {ip} && Guesses([], ip, lo) == 0
    ensures Tame([], 0)
  {
  }

  /** Without pruning eleven are reached: one failure, three exactly 60 seconds later, four
      right after the window has ended, and four more requests that had all asked in time. */
  lemma ElevenAreReached(ip: IpAddr)
    ensures exists run ::
              Ordered(run) && NoSuccess(run, ip, WINDOW) && NeverPruned(run) && Guesses(run, ip, WINDOW) == 11
  {
    var lo, late := WINDOW, WINDOW + 1;
    FailuresInARow();
    Start(ip, lo);
    hide StateAfter, Guesses, Round, FailMany, Ordered, NeverPruned;
    var r1 := [] + Round(ip, 0, 1);
    RoundCounts([], ip, 0, None, 1, lo);
    RoundIsTame([], ip, 0, 0, 1);
    var r2 := r1 + Round(ip, lo, 3);
    RoundCounts(r1, ip, lo, Some(PinState(1, 0, None)), 3, lo);
    RoundIsTame(r1, ip, 0, lo, 3);
    var r3 := r2 + Round(ip, late, 4);
    RoundCounts(r2, ip, late, Some(PinState(4, 0, None)), 4, lo);
    RoundIsTame(r2, ip, lo, late, 4);
    var r4 := r3 + Round(ip, late, 4);
    RoundCounts(r3, ip, late, Some(PinState(4, late, None)), 4, lo);
    RoundIsTame(r3, ip, late, late, 4);
    OneAddressIsNeverPruned(r4, ip);
    assert NoSuccess(r4, ip, WINDOW) && Guesses(r4, ip, WINDOW) == 11;
  }

  // -------------------------------------------------------------- with pruning, twelve

  const LATE: nat := PRUNE_AGE

  /** The address that guesses, and a thousand and one others. */
  const GUESSER: IpAddr := V4(192, 168, 0, 1)

  function Stranger(k: nat): IpAddr
    requires k < 0x1_0000
  {
    V4(10, 0, k / 0x100, k % 0x100)
  }

  function Strangers(n: nat): set<IpAddr>
    requires n <= 0x1_0000
  {
    if n == 0 then {} else Strangers(n - 1) + {Stranger(n - 1)}
  }

  lemma {:induction false} OthersCount(n: nat)
    requires n <= 0x1_0000
    ensures forall ip :: ip in Strangers(n) ==> ip.V4? && ip.a == 10 && ip.c as int * 0x100 + ip.d as int < n
    ensures |Strangers(n)| == n && GUESSER !in Strangers(n)
  {
    if n > 0 {
      OthersCount(n - 1);
      assert Stranger(n - 1) !in Strangers(n - 1);
    }
  }

  /** The others fail once each. */
  function Crowd(n: nat, now: nat): seq<Move>
    requires n <= 0x1_0000
  {
    if n == 0 then [] else Crowd(n - 1, now) + [Check(Stranger(n - 1), now), Record(Stranger(n - 1), now, false)]
  }

  /** What is known of a state while the crowd comes in: the guesser's entry is untouched, and
      `n` of the crowd have one too. */
  ghost predicate Filling(s: State, st: PinState, n: nat)
    requires n <= 0x1_0000
  {
    && Stands(s, GUESSER, Some(st), 0)
    && s.table.Keys == {GUESSER} + Strangers(n)
    && forall ip :: ip != GUESSER ==> InFlight(s, ip) == 0
  }

  lemma {:induction false} CrowdFills(run: seq<Move>, st: PinState, n: nat, now: nat, lo: nat)
    requires Filling(StateAfter(run), st, 0) && n <= PRUNE_ABOVE
    ensures Filling(StateAfter(run + Crowd(n, now)), st, n)
    ensures Guesses(run + Crowd(n, now), GUESSER, lo) == Guesses(run, GUESSER, lo)
  {
    hide StateAfter, Guesses, Step, RecordStep, Filling;
    if n == 0 {
      assert run + Crowd(0, now) == run;
    } else {
      var k := n - 1;
      CrowdFills(run, st, k, now, lo);
      var before := run + Crowd(k, now);
      var check, record := Check(Stranger(k), now), Record(Stranger(k), now, false);
      assert run + Crowd(n, now) == before + [check] + [record];
      OneMore(before, check, GUESSER, lo);
      OneMore(before + [check], record, GUESSER, lo);
      OneMoreOther(StateAfter(before), st, k, now);
    }
  }

  lemma OneMoreOther(s: State, st: PinState, k: nat, now: nat)
    requires k < PRUNE_ABOVE && Filling(s, st, k)
    ensures Filling(Step(Step(s, Check(Stranger(k), now)), Record(Stranger(k), now, false)), st, k + 1)
  {
    OthersCount(k);
    OthersCount(k + 1);
    TableSize(s.table, k);
    FirstFailure(s, Stranger(k), now);
    hide Step, Failed;
    assert {GUESSER} + Strangers(k + 1) == {GUESSER} + Strangers(k) + {Stranger(k)};
  }

  /** A newcomer asks and fails, while the table is small enough to be left alone. */
  lemma FirstFailure(s: State, ip: IpAddr, now: nat)
    requires ip !in s.table && InFlight(s, ip) == 0 && |s.table| <= PRUNE_ABOVE
    ensures var s' := Step(Step(s, Check(ip, now)), Record(ip, now, false));
            && s'.table == s.table[ip := Failed(None, now)]
            && forall x :: InFlight(s', x) == InFlight(s, x)
  {
    var s1 := Step(s, Check(ip, now));
    assert s1.table == s.table && InFlight(s1, ip) == 1;
    hide Failed;
  }

  lemma TableSize(table: Table, n: nat)
    requires n <= 0x1_0000 && table.Keys == {GUESSER} + Strangers(n)
    ensures |table| == n + 1
  {
    OthersCount(n);
    assert |table.Keys| == |table|;
  }

  /** One request more from another address, now that the table is over its size, prunes the
      guesser's entry, whether it is blocked or not. */
  lemma PruningForgets(s: State, st: PinState, now: nat)
    requires Filling(s, st, PRUNE_ABOVE) && Elapsed(now, st.windowStart) >= PRUNE_AGE
    ensures var s' := Step(Step(s, Check(Stranger(PRUNE_ABOVE), now)), Record(Stranger(PRUNE_ABOVE), now, false));
            Stands(s', GUESSER, None, 0) && Stays(s', GUESSER, now)
  {
    OthersCount(PRUNE_ABOVE);
    TableSize(s.table, PRUNE_ABOVE);
    hide Filling, Strangers;
    CrowdPrunes(s, GUESSER, Stranger(PRUNE_ABOVE), now);
  }

  /** A newcomer's failure in a table over its size removes every old entry. */
  lemma CrowdPrunes(s: State, ip: IpAddr, other: IpAddr, now: nat)
    requires |s.table| > PRUNE_ABOVE && other !in s.table && InFlight(s, other) == 0 && other != ip
    requires ip in s.table && Elapsed(now, s.table[ip].windowStart) >= PRUNE_AGE && InFlight(s, ip) == 0
    ensures var s' := Step(Step(s, Check(other, now)), Record(other, now, false));
            Stands(s', ip, None, 0) && Stays(s', ip, now)
  {
    var s1 := Step(s, Check(other, now));
    assert s1.table == s.table && InFlight(s1, other) == 1;
    hide Failed;
  }

  /** The guesser is blocked at the start and guesses once more, five minutes later, with all
      its four connections. */
  function OldBlock(): seq<Move> {
    Round(GUESSER, 0, 4) + Round(GUESSER, 0, 1) + Round(GUESSER, LATE, 4)
  }

  const BLOCKED: PinState := PinState(9, 0, Some(LATE + BLOCK))

  lemma OldFailures()
    ensures FailMany(None, 0, 4) == Some(PinState(4, 0, None))
    ensures FailMany(Some(PinState(4, 0, None)), 0, 1) == Some(PinState(5, 0, Some(BLOCK)))
    ensures FailMany(Some(PinState(5, 0, Some(BLOCK))), LATE, 4) == Some(BLOCKED)
  {
    assert FailMany(None, 0, 1) == Some(PinState(1, 0, None));
    assert FailMany(None, 0, 2) == Some(PinState(2, 0, None));
    assert FailMany(None, 0, 3) == Some(PinState(3, 0, None));
    var five := Some(PinState(5, 0, Some(BLOCK)));
    assert FailMany(five, LATE, 1) == Some(PinState(6, 0, Some(LATE + BLOCK)));
    assert FailMany(five, LATE, 2) == Some(PinState(7, 0, Some(LATE + BLOCK)));
    assert FailMany(five, LATE, 3) == Some(PinState(8, 0, Some(LATE + BLOCK)));
  }

  lemma OldBlockStands()
    ensures Filling(StateAfter(OldBlock()), BLOCKED, 0) && Guesses(OldBlock(), GUESSER, LATE) == 4
  {
    OldFailures();
    Start(GUESSER, LATE);
    hide StateAfter, Guesses, Round, FailMany, Stays, Strangers;
    var r1 := [] + Round(GUESSER, 0, 4);
    OnlyOne(StateAfter([]), GUESSER, 0);
    RoundCounts([], GUESSER, 0, None, 4, LATE);
    var r2 := r1 + Round(GUESSER, 0, 1);
    RoundCounts(r1, GUESSER, 0, Some(PinState(4, 0, None)), 1, LATE);
    var r3 := r2 + Round(GUESSER, LATE, 4);
    OnlyOne(StateAfter(r2), GUESSER, LATE);
    RoundCounts(r2, GUESSER, LATE, Some(PinState(5, 0, Some(BLOCK))), 4, LATE);
    assert OldBlock() == r3;
    OldBlockIsTame();
    NobodyElse(r3);
    hide OldBlock;
    FillingStarts(StateAfter(r3));
  }

  lemma OnlyOne(s: State, ip: IpAddr, now: nat)
    requires s.table.Keys <= {ip}
    ensures Stays(s, ip, now)
  {
  }

  lemma FillingStarts(s: State)
    requires Stands(s, GUESSER, Some(BLOCKED), 0) && s.table.Keys <= {GUESSER}
    requires forall ip :: ip != GUESSER ==> InFlight(s, ip) == 0
    ensures Filling(s, BLOCKED, 0)
  {
    assert GUESSER in s.table && Strangers(0) == {};
  }

  lemma OldBlockIsTame()
    ensures Tame(OldBlock(), LATE) && forall m :: m in OldBlock() ==> m.ip == GUESSER
  {
    hide Round, Ordered;
    assert Ordered([]) by {
      Start(GUESSER, 0);
    }
    RoundIsTame([], GUESSER, 0, 0, 4);
    RoundIsTame([] + Round(GUESSER, 0, 4), GUESSER, 0, 0, 1);
    RoundIsTame([] + Round(GUESSER, 0, 4) + Round(GUESSER, 0, 1), GUESSER, 0, LATE, 4);
    assert OldBlock() == [] + Round(GUESSER, 0, 4) + Round(GUESSER, 0, 1) + Round(GUESSER, LATE, 4);
  }

  lemma {:induction false} NobodyElse(run: seq<Move>)
    requires forall m :: m in run ==> m.ip == GUESSER
    ensures forall ip :: ip != GUESSER ==> InFlight(StateAfter(run), ip) == 0
  {
    if run != [] {
      var past, m := run[..|run| - 1], run[|run| - 1];
      assert m in run;
      NobodyElse(past);
      OthersUntouched(StateAfter(past), m);
    }
  }

  lemma OthersUntouched(s: State, m: Move)
    ensures forall ip :: ip != m.ip ==> InFlight(Step(s, m), ip) == InFlight(s, ip)
  {
  }

  /** The last of the crowd, which prunes. */
  function Pruning(): seq<Move> {
    [Check(Stranger(PRUNE_ABOVE), LATE), Record(Stranger(PRUNE_ABOVE), LATE, false)]
  }

  lemma CrowdedState()
    ensures var run := OldBlock() + Crowd(PRUNE_ABOVE, LATE);
            && Filling(StateAfter(run), BLOCKED, PRUNE_ABOVE) && Guesses(run, GUESSER, LATE) == 4
            && Tame(run, LATE)
  {
    OldBlockStands();
    OldBlockIsTame();
    hide OldBlock, StateAfter, Guesses, Filling, Tame;
    CrowdFills(OldBlock(), BLOCKED, PRUNE_ABOVE, LATE, LATE);
    CrowdIsTame(OldBlock(), PRUNE_ABOVE, LATE);
  }

  /** In a reachable state the guesser is blocked, and somebody else's attempt lifts the block. */
  lemma BlockIsLifted()
    ensures var run := OldBlock() + Crowd(PRUNE_ABOVE, LATE);
            && Ordered(run + Pruning())
            && Limited(StateAfter(run).table, GUESSER, LATE)
            && !Limited(StateAfter(run + Pruning()).table, GUESSER, LATE)
            && Stands(StateAfter(run + Pruning()), GUESSER, None, 0)
            && Stays(StateAfter(run + Pruning()), GUESSER, LATE)
            && Guesses(run + Pruning(), GUESSER, LATE) == 4
  {
    CrowdedState();
    var run := OldBlock() + Crowd(PRUNE_ABOVE, LATE);
    PruningIsTame(run);
    hide OldBlock, Crowd, StateAfter, Guesses, Ordered, Step;
    var check, record := Pruning()[0], Pruning()[1];
    assert run + Pruning() == run + [check] + [record];
    OneMore(run, check, GUESSER, LATE);
    OneMore(run + [check], record, GUESSER, LATE);
    PruningForgets(StateAfter(run), BLOCKED, LATE);
  }

  lemma {:induction false} CrowdIsTame(run: seq<Move>, n: nat, now: nat)
    requires n <= 0x1_0000 && Tame(run, now)
    ensures Tame(run + Crowd(n, now), now)
  {
    if n == 0 {
      assert run + Crowd(0, now) == run;
    } else {
      CrowdIsTame(run, n - 1, now);
      assert run + Crowd(n, now)
          == run + Crowd(n - 1, now) + [Check(Stranger(n - 1), now)] + [Record(Stranger(n - 1), now, false)];
    }
  }

  lemma FreshFailures()
    ensures FailMany(None, LATE, 4) == Some(PinState(4, LATE, None))
  {
    assert FailMany(None, LATE, 1) == Some(PinState(1, LATE, None));
    assert FailMany(None, LATE, 2) == Some(PinState(2, LATE, None));
    assert FailMany(None, LATE, 3) == Some(PinState(3, LATE, None));
  }

  /** The whole schedule: the old block, the crowd, and two rounds of four. */
  function Twelve(): seq<Move> {
    OldBlock() + Crowd(PRUNE_ABOVE, LATE) + Pruning() + Round(GUESSER, LATE, 4) + Round(GUESSER, LATE, 4)
  }

  lemma PruningIsTame(run: seq<Move>)
    requires Tame(run, LATE)
    ensures Tame(run + Pruning(), LATE)
  {
  }

  lemma TwelveIsTame()
    ensures Tame(Twelve(), LATE)
  {
    OldBlockIsTame();
    CrowdIsTame(OldBlock(), PRUNE_ABOVE, LATE);
    PruningIsTame(OldBlock() + Crowd(PRUNE_ABOVE, LATE));
    var r0 := OldBlock() + Crowd(PRUNE_ABOVE, LATE) + Pruning();
    hide OldBlock, Crowd, Round, Tame, Pruning;
    RoundIsTame(r0, GUESSER, LATE, LATE, 4);
    RoundIsTame(r0 + Round(GUESSER, LATE, 4), GUESSER, LATE, LATE, 4);
  }

  /** Twelve are reached: four requests are in flight when an old block runs out, a crowd of
      others has the entry pruned, and two more rounds of four follow. */
  lemma TwelveAreReached()
    ensures exists run :: Ordered(run) && NoSuccess(run, GUESSER, LATE) && Guesses(run, GUESSER, LATE) == 12
  {
    BlockIsLifted();
    FreshFailures();
    TwelveIsTame();
    var r0 := OldBlock() + Crowd(PRUNE_ABOVE, LATE) + Pruning();
    hide OldBlock, Crowd, StateAfter, Guesses, Round, FailMany, Pruning, Ordered;
    var r1 := r0 + Round(GUESSER, LATE, 4);
    RoundCounts(r0, GUESSER, LATE, None, 4, LATE);
    var r2 := r1 + Round(GUESSER, LATE, 4);
    RoundCounts(r1, GUESSER, LATE, Some(PinState(4, LATE, None)), 4, LATE);
    assert r2 == Twelve();
    assert NoSuccess(r2, GUESSER, LATE) && Guesses(r2, GUESSER, LATE) == 12;
  }
}
