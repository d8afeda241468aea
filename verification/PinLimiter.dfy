/** The PIN and pairing rate limiter of src/main.rs: per address a failure count, the start of
    its window and, from the fifth failure on, a block. Instants are nanoseconds. */
module PinLimiter {
  import opened Prelude
  import opened Addresses

  const SECOND: nat := 1_000_000_000
  const WINDOW: nat := 60 * SECOND
  const BLOCK: nat := 60 * SECOND
  const PRUNE_AGE: nat := 300 * SECOND
  const PRUNE_ABOVE: nat := 1000
  const MAX_FAILURES: nat := 5

  datatype PinState = PinState(failedCount: nat, windowStart: nat, blockedUntil: Option<nat>)

  type Table = map<IpAddr, PinState>

  function Elapsed(now: nat, start: nat): nat {
    if now < start then 0 else now - start
  }

  function Pruned(m: Table, now: nat): Table {
    if |m| > PRUNE_ABOVE then map ip | ip in m && Elapsed(now, m[ip].windowStart) < PRUNE_AGE :: m[ip] else m
  }

  /** The state after one more failure; a window that is over and not blocked starts anew. */
  function Failed(st: Option<PinState>, now: nat): PinState {
    var s := if st.Some? then st.value else PinState(0, now, None);
    var w := if s.blockedUntil.None? && Elapsed(now, s.windowStart) > WINDOW then PinState(0, now, None) else s;
    var n := if w.failedCount < U32_MAX then w.failedCount + 1 else w.failedCount;
    PinState(n, w.windowStart, if n >= MAX_FAILURES then Some(now + BLOCK) else w.blockedUntil)
  }

  function Entry(m: Table, ip: IpAddr): Option<PinState> {
    if ip in m then Some(m[ip]) else None
  }

  /** The table after an attempt, and what `record_pin_attempt` returns. */
  function RecordStep(m: Table, ip: IpAddr, now: nat, success: bool): (Table, bool) {
    var p := Pruned(m, now);
    if success then (p - {ip}, true)
    else
      var s := Failed(Entry(p, ip), now);
      (p[ip := s], s.failedCount < MAX_FAILURES)
  }

  predicate Limited(m: Table, ip: IpAddr, now: nat) {
    ip in m && m[ip].blockedUntil.Some? && now < m[ip].blockedUntil.value
  }

  class PinRateLimiter {
    var table: Table

    constructor ()
      ensures table == map[]
    {
      table := map[];
    }

    method IsPinRateLimited(ip: IpAddr, now: nat) returns (limited: bool)
      ensures limited <==> Limited(table, ip, now)
    {
      if ip in table {
        var state := table[ip];
        if state.blockedUntil.Some? {
          if now < state.blockedUntil.value {
            return true;
          }
        }
      }
      return false;
    }

    method RecordPinAttempt(ip: IpAddr, now: nat, success: bool) returns (allowed: bool)
      modifies this
      ensures (table, allowed) == RecordStep(old(table), ip, now, success)
    {
      if |table| > PRUNE_ABOVE {
        table := map a | a in table && Elapsed(now, table[a].windowStart) < PRUNE_AGE :: table[a];
      }
      if success {
        table := table - {ip};
        return true;
      }
      var state := if ip in table then table[ip] else PinState(0, now, None);
      if state.blockedUntil.None? && Elapsed(now, state.windowStart) > WINDOW {
        state := state.(failedCount := 0);
        state := state.(windowStart := now);
      }
      state := state.(failedCount := if state.failedCount < U32_MAX then state.failedCount + 1 else state.failedCount);
      if state.failedCount >= MAX_FAILURES {
        state := state.(blockedUntil := Some(now + BLOCK));
        table := table[ip := state];
        return false;
      }
      table := table[ip := state];
      return true;
    }
  }

  // ------------------------------------------------------------------------- runs

  datatype Attempt = Attempt(ip: IpAddr, now: nat, success: bool)

  function After(run: seq<Attempt>): Table {
    if run == [] then map[]
    else
      var e := run[|run| - 1];
      RecordStep(After(run[..|run| - 1]), e.ip, e.now, e.success).0
  }

  predicate Monotone(run: seq<Attempt>) {
    forall i, j :: 0 <= i <= j < |run| ==> run[i].now <= run[j].now
  }

  function LastTime(run: seq<Attempt>): nat {
    if run == [] then 0 else run[|run| - 1].now
  }

  predicate Result(run: seq<Attempt>)
    requires run != []
  {
    var e := run[|run| - 1];
    RecordStep(After(run[..|run| - 1]), e.ip, e.now, e.success).1
  }

  /** The last attempt is a failure of `ip` in the closed interval. */
  predicate FailsIn(run: seq<Attempt>, ip: IpAddr, lo: nat, hi: nat)
    requires run != []
  {
    var e := run[|run| - 1];
    e.ip == ip && !e.success && lo <= e.now <= hi
  }

  /** Failures of `ip` in the closed interval that return true. */
  function Tolerated(run: seq<Attempt>, ip: IpAddr, lo: nat, hi: nat): nat {
    if run == [] then 0
    else Tolerated(run[..|run| - 1], ip, lo, hi) + (if FailsIn(run, ip, lo, hi) && Result(run) then 1 else 0)
  }

  function Failures(run: seq<Attempt>, ip: IpAddr, lo: nat, hi: nat): nat {
    if run == [] then 0
    else Failures(run[..|run| - 1], ip, lo, hi) + (if FailsIn(run, ip, lo, hi) then 1 else 0)
  }

  predicate NoSuccessIn(run: seq<Attempt>, ip: IpAddr, lo: nat, hi: nat) {
    forall i :: 0 <= i < |run| && run[i].ip == ip && lo <= run[i].now <= hi ==> !run[i].success
  }

  predicate EntrySane(s: PinState, last: nat) {
    s.failedCount >= 1 && s.windowStart <= last && (s.blockedUntil.Some? <==> s.failedCount >= MAX_FAILURES)
  }

  /** In every reachable table a block is set exactly from the fifth failure on, and no
      window starts in the future. */
  lemma {:induction false} BlockedExactlyFromFive(run: seq<Attempt>, ip: IpAddr)
    requires Monotone(run)
    ensures ip in After(run) ==> EntrySane(After(run)[ip], LastTime(run))
  {
    if run != [] {
      BlockedExactlyFromFive(run[..|run| - 1], ip);
    }
  }

  // --------------------------------------------------------- the sliding-window bound

  function Counted(s: PinState): nat {
    Min(s.failedCount, MAX_FAILURES - 1)
  }

  /** With `tolerated` failures so far in an interval starting at `lo`: a window that began
      before `lo` spent its first failure there, one that began since is the only such. */
  predicate WithinBudget(st: Option<PinState>, tolerated: nat, lo: nat) {
    match st
    case None => tolerated <= MAX_FAILURES - 2
    case Some(s) =>
      if s.windowStart >= lo then tolerated <= MAX_FAILURES - 2 + Counted(s)
      else tolerated <= Counted(s) - 1
  }

  lemma StepWithinBudget(m: Table, e: Attempt, ip: IpAddr, tolerated: nat, lo: nat)
    requires WithinBudget(Entry(m, ip), tolerated, lo)
    requires ip in m ==> EntrySane(m[ip], e.now)
    requires lo <= e.now <= lo + WINDOW
    requires e.ip == ip ==> !e.success
    ensures var (m', ok) := RecordStep(m, e.ip, e.now, e.success);
            WithinBudget(Entry(m', ip), tolerated + (if e.ip == ip && ok then 1 else 0), lo)
  {
    assert ip in Pruned(m, e.now) ==> ip in m && Pruned(m, e.now)[ip] == m[ip];
    assert ip in m && ip !in Pruned(m, e.now) ==> m[ip].windowStart < lo;
  }

  lemma {:induction false} BudgetHolds(run: seq<Attempt>, ip: IpAddr, lo: nat)
    requires Monotone(run) && NoSuccessIn(run, ip, lo, lo + WINDOW)
    ensures LastTime(run) < lo ==> Tolerated(run, ip, lo, lo + WINDOW) == 0
    ensures LastTime(run) <= lo + WINDOW
            ==> WithinBudget(Entry(After(run), ip), Tolerated(run, ip, lo, lo + WINDOW), lo)
    ensures Tolerated(run, ip, lo, lo + WINDOW) <= 2 * MAX_FAILURES - 3
  {
    BlockedExactlyFromFive(run, ip);
    if run != [] {
      var init, e := run[..|run| - 1], run[|run| - 1];
      BudgetHolds(init, ip, lo);
      BlockedExactlyFromFive(init, ip);
      if lo <= e.now <= lo + WINDOW {
        assert e.ip == ip ==> !e.success;
        StepWithinBudget(After(init), e, ip, Tolerated(init, ip, lo, lo + WINDOW), lo);
      }
    }
  }

  /** No closed 60-second interval without a success of `ip` holds more than seven of its
      failures that the limiter lets pass, even though pruning can forget windows. */
  lemma AtMostSevenTolerated(run: seq<Attempt>, ip: IpAddr, lo: nat)
    requires Monotone(run) && NoSuccessIn(run, ip, lo, lo + WINDOW)
    ensures Tolerated(run, ip, lo, lo + WINDOW) <= 7
  {
    BudgetHolds(run, ip, lo);
  }

  function NextInWindow(s: PinState, now: nat): PinState {
    if Elapsed(now, s.windowStart) > WINDOW then PinState(1, now, None)
    else s.(failedCount := s.failedCount + 1)
  }

  predicate StaysBelow(s: PinState, now: nat) {
    s.blockedUntil.None? && s.failedCount < MAX_FAILURES
    && (Elapsed(now, s.windowStart) > WINDOW || s.failedCount < MAX_FAILURES - 1)
  }

  lemma FailureAlone(ip: IpAddr, now: nat, s: PinState)
    requires StaysBelow(s, now)
    ensures RecordStep(map[ip := s], ip, now, false) == (map[ip := NextInWindow(s, now)], true)
  {
    var m := map[ip := s];
    assert |m| == 1;
    assert Entry(Pruned(m, now), ip) == Some(s);
    var f := Failed(Some(s), now);
    assert f == NextInWindow(s, now);
    assert m[ip := f] == map[ip := f];
  }

  /** One more failure of the only address in the table. */
  lemma OneMoreFailure(run: seq<Attempt>, ip: IpAddr, now: nat, s: PinState)
    requires After(run) == map[ip := s] && StaysBelow(s, now)
    ensures After(run + [Attempt(ip, now, false)]) == map[ip := NextInWindow(s, now)]
    ensures WINDOW <= now <= 2 * WINDOW ==>
              Tolerated(run + [Attempt(ip, now, false)], ip, WINDOW, 2 * WINDOW)
                  == Tolerated(run, ip, WINDOW, 2 * WINDOW) + 1
  {
    hide RecordStep, NextInWindow, StaysBelow;
    var more := run + [Attempt(ip, now, false)];
    assert more[..|more| - 1] == run && more[|more| - 1] == Attempt(ip, now, false);
    FailureAlone(ip, now, s);
  }

  /** Seven are reached: one failure, three exactly 60 seconds later, and four more right
      after the window has ended. */
  lemma SevenAreReached(ip: IpAddr)
    ensures exists run :: Monotone(run) && NoSuccessIn(run, ip, WINDOW, 2 * WINDOW)
                          && Tolerated(run, ip, WINDOW, 2 * WINDOW) == 7
  {
    hide After, Tolerated;
    var a, b, c := Attempt(ip, 0, false), Attempt(ip, WINDOW, false), Attempt(ip, WINDOW + 1, false);
    var r1 := [a];
    FirstFailure(ip);
    OneMoreFailure(r1, ip, WINDOW, PinState(1, 0, None));
    OneMoreFailure(r1 + [b], ip, WINDOW, PinState(2, 0, None));
    OneMoreFailure(r1 + [b] + [b], ip, WINDOW, PinState(3, 0, None));
    var r4 := r1 + [b] + [b] + [b];
    OneMoreFailure(r4, ip, WINDOW + 1, PinState(4, 0, None));
    OneMoreFailure(r4 + [c], ip, WINDOW + 1, PinState(1, WINDOW + 1, None));
    OneMoreFailure(r4 + [c] + [c], ip, WINDOW + 1, PinState(2, WINDOW + 1, None));
    OneMoreFailure(r4 + [c] + [c] + [c], ip, WINDOW + 1, PinState(3, WINDOW + 1, None));
    var run := r4 + [c] + [c] + [c] + [c];
    assert run == [a, b, b, b, c, c, c, c];
    assert Monotone(run) && NoSuccessIn(run, ip, WINDOW, 2 * WINDOW);
  }

  lemma FirstFailure(ip: IpAddr)
    ensures After([Attempt(ip, 0, false)]) == map[ip := PinState(1, 0, None)]
    ensures Tolerated([Attempt(ip, 0, false)], ip, WINDOW, 2 * WINDOW) == 0
  {
    assert [Attempt(ip, 0, false)][..0] == [];
    assert After([]) == map[];
  }

  // --------------------------------------------- guesses that reach the pairing store

  /** The pairing handler asks the limiter before every attempt it records. */
  predicate Admitted(run: seq<Attempt>) {
    forall k :: 0 <= k < |run| ==> !Limited(After(run[..k]), run[k].ip, run[k].now)
  }

  predicate GuessBudget(st: Option<PinState>, guesses: nat, lo: nat) {
    match st
    case None => guesses <= 3
    case Some(s) =>
      if s.windowStart >= lo then
        if s.failedCount < MAX_FAILURES then guesses <= 3 + s.failedCount
        else guesses <= 8 && s.blockedUntil.Some? && s.blockedUntil.value >= lo + WINDOW
      else if s.failedCount < MAX_FAILURES then
        guesses <= s.failedCount - 1 && (guesses > 0 ==> s.windowStart + WINDOW >= lo)
      else
        guesses == 0
        || (s.blockedUntil.Some? && s.blockedUntil.value >= lo + WINDOW
            && guesses <= 4 && (guesses > 1 ==> s.windowStart + WINDOW >= lo))
  }

  lemma StepWithinGuessBudget(m: Table, e: Attempt, ip: IpAddr, guesses: nat, lo: nat)
    requires GuessBudget(Entry(m, ip), guesses, lo)
    requires ip in m ==> EntrySane(m[ip], e.now)
    requires lo <= e.now < lo + WINDOW
    requires !Limited(m, e.ip, e.now)
    requires e.ip == ip ==> !e.success
    ensures GuessBudget(Entry(RecordStep(m, e.ip, e.now, e.success).0, ip), guesses + (if e.ip == ip then 1 else 0), lo)
  {
    assert ip in Pruned(m, e.now) ==> ip in m && Pruned(m, e.now)[ip] == m[ip];
    assert ip in m && ip !in Pruned(m, e.now) ==> m[ip].windowStart + WINDOW < lo;
  }

  lemma {:induction false} GuessBudgetHolds(run: seq<Attempt>, ip: IpAddr, lo: nat)
    requires Monotone(run) && Admitted(run) && NoSuccessIn(run, ip, lo, lo + WINDOW - 1)
    ensures LastTime(run) < lo ==> Failures(run, ip, lo, lo + WINDOW - 1) == 0
    ensures LastTime(run) < lo + WINDOW
            ==> GuessBudget(Entry(After(run), ip), Failures(run, ip, lo, lo + WINDOW - 1), lo)
    ensures Failures(run, ip, lo, lo + WINDOW - 1) <= 8
  {
    hide RecordStep, GuessBudget, EntrySane;
    BlockedExactlyFromFive(run, ip);
    if run == [] {
      NothingSpent(lo);
    } else {
      var init, e := run[..|run| - 1], run[|run| - 1];
      hide Monotone, Admitted, NoSuccessIn, Limited;
      ShorterRun(run, ip, lo, lo + WINDOW - 1);
      GuessBudgetHolds(init, ip, lo);
      BlockedExactlyFromFive(init, ip);
      var spent := Failures(init, ip, lo, lo + WINDOW - 1);
      if lo <= e.now < lo + WINDOW {
        if ip in After(init) {
          SaneLater(Entry(After(init), ip), LastTime(init), e.now);
        }
        StepWithinGuessBudget(After(init), e, ip, spent, lo);
        BudgetBounds(Entry(After(run), ip), Failures(run, ip, lo, lo + WINDOW - 1), lo, e.now);
      }
      if e.now < lo {
        FreshBudget(Entry(After(run), ip), lo, e.now);
      }
    }
  }

  lemma ShorterRun(run: seq<Attempt>, ip: IpAddr, lo: nat, hi: nat)
    requires run != [] && Monotone(run) && Admitted(run) && NoSuccessIn(run, ip, lo, hi)
    ensures var init, e := run[..|run| - 1], run[|run| - 1];
            && Monotone(init) && Admitted(init) && NoSuccessIn(init, ip, lo, hi)
            && LastTime(init) <= e.now && !Limited(After(init), e.ip, e.now)
            && (e.ip == ip && lo <= e.now <= hi ==> !e.success)
  {
    var init := run[..|run| - 1];
    hide After, Limited;
    forall k | 0 <= k < |init| ensures !Limited(After(init[..k]), init[k].ip, init[k].now) {
      assert init[..k] == run[..k] && init[k] == run[k];
    }
    assert init == run[..|run| - 1];
  }

  lemma NothingSpent(lo: nat)
    ensures GuessBudget(None, 0, lo)
  {
  }

  lemma SaneLater(st: Option<PinState>, t: nat, later: nat)
    requires st.Some? && t <= later && EntrySane(st.value, t)
    ensures EntrySane(st.value, later)
  {
  }

  lemma FreshBudget(st: Option<PinState>, lo: nat, last: nat)
    requires last < lo && (st.Some? ==> EntrySane(st.value, last))
    ensures GuessBudget(st, 0, lo)
  {
  }

  lemma BudgetBounds(st: Option<PinState>, guesses: nat, lo: nat, last: nat)
    requires GuessBudget(st, guesses, lo) && (st.Some? ==> EntrySane(st.value, last))
    ensures guesses <= 8
  {
  }

  /** One address gets at most eight failing pairing attempts through to the store in any
      60 seconds in which none of its attempts succeeds. */
  lemma AtMostEightGuesses(run: seq<Attempt>, ip: IpAddr, lo: nat)
    requires Monotone(run) && Admitted(run) && NoSuccessIn(run, ip, lo, lo + WINDOW - 1)
    ensures Failures(run, ip, lo, lo + WINDOW - 1) <= 8
  {
    GuessBudgetHolds(run, ip, lo);
  }

  /** Pruning goes by the age of the window, not by the block: somebody else's attempt lifts
      a running block exactly when the table is over its size and the window 300 s old. */
  lemma BlockSurvivesExactly(m: Table, ip: IpAddr, other: IpAddr, now: nat, success: bool)
    requires Limited(m, ip, now) && other != ip
    ensures Limited(RecordStep(m, other, now, success).0, ip, now)
            <==> |m| <= PRUNE_ABOVE || Elapsed(now, m[ip].windowStart) < PRUNE_AGE
  {
  }
}
