/** Disk staging in src/main.rs under every interleaving: reservations are checked against one
    atomic total under a mutex but released without it, and each request owns one stage file
    from the moment it is created until it is renamed or removed. */
module Staging {
  import opened Prelude

  const MAX_AGGREGATE_STAGING_BYTES: u64 := 200 * 1024 * 1024

  /** A request with a body to stage. `path` is its stage file's name. */
  datatype Pc =
    | Idle
    | Locked(need: u64)                      // holds the mutex
    | Checked(need: u64)                     // holds the mutex, the check has passed
    | Reserved(bytes: u64)                   // guard made, no file yet
    | Writing(bytes: u64, path: string)      // stage file exists
    | Failing(bytes: u64)                    // body failed, file removed, guard not dropped
    | Staged(bytes: u64, path: string)       // handed over as StagedFile
    | Renamed(bytes: u64)                    // persisted, guard not released yet
    | Dropping(bytes: u64)                   // StagedFile dropped unpersisted, file removed
    | Released(bytes: u64)                   // released once (bytes is 0), the guard's own drop to come

  /** `stray` are the stage files whose removal was tried and failed. */
  datatype State = State(staged: nat, lock: Option<nat>, disk: set<string>, stray: set<string>, actors: seq<Pc>)

  /** What happens at an actor's next step where the outside world decides. */
  datatype Choice = Choice(need: u64, path: string, avail: Option<u64>, succeeds: bool, more: bool, persist: bool,
                           removed: bool)

  function FetchAdd(total: nat, n: u64): nat {
    (total + n) % (U64_MAX + 1)
  }

  function FetchSub(total: nat, n: u64): nat {
    (total - n) % (U64_MAX + 1)
  }

  function SatSum(total: nat, n: u64): nat {
    Min(total + n, U64_MAX)
  }

  /** The test made under the mutex on the total that was read. */
  predicate Fits(total: nat, need: u64, avail: Option<u64>) {
    SatSum(total, need) <= MAX_AGGREGATE_STAGING_BYTES
    && (avail.Some? ==> SatSum(SatSum(total, need), DISK_HEADROOM) <= avail.value)
  }

  /** One step of actor `i`. Opening the stage file fails if the name is taken. */
  function Step(s: State, i: nat, c: Choice): State
    requires i < |s.actors|
  {
    match s.actors[i]
    case Idle =>
      if s.lock.Some? then s else s.(lock := Some(i), actors := s.actors[i := Locked(c.need)])
    case Locked(need) =>
      if Fits(s.staged, need, c.avail) then s.(actors := s.actors[i := Checked(need)])
      else s.(lock := None, actors := s.actors[i := Idle])
    case Checked(need) =>
      s.(staged := FetchAdd(s.staged, need), lock := None, actors := s.actors[i := Reserved(need)])
    case Reserved(b) =>
      if c.succeeds && c.path !in s.disk
      then s.(disk := s.disk + {c.path}, actors := s.actors[i := Writing(b, c.path)])
      else s.(actors := s.actors[i := Failing(b)])
    case Writing(b, path) =>
      if !c.succeeds then Remove(s, path, c.removed).(actors := s.actors[i := Failing(b)])
      else if c.more then s
      else s.(actors := s.actors[i := Staged(b, path)])
    case Staged(b, path) =>
      if c.persist && c.succeeds then s.(disk := s.disk - {path}, actors := s.actors[i := Renamed(b)])
      else Remove(s, path, c.removed).(actors := s.actors[i := Dropping(b)])
    case Renamed(b) => Release(s, i, b, Released(0))
    case Dropping(b) => Release(s, i, b, Released(0))
    case Failing(b) => Release(s, i, b, Idle)
    case Released(b) => Release(s, i, b, Idle)
  }

  /** A removal whose failure goes unnoticed. */
  function Remove(s: State, path: string, removed: bool): State {
    if removed then s.(disk := s.disk - {path}) else s.(stray := s.stray + {path})
  }

  /** `StagingReservationGuard::release`: nothing to do once the guard holds nothing. */
  function Release(s: State, i: nat, bytes: u64, next: Pc): State
    requires i < |s.actors|
  {
    if bytes > 0 then s.(staged := FetchSub(s.staged, bytes), actors := s.actors[i := next])
    else s.(actors := s.actors[i := next])
  }

  function Initial(n: nat): State {
    State(0, None, {}, {}, seq(n, _ => Idle))
  }

  function After(n: nat, schedule: seq<(nat, Choice)>): State
    requires forall e :: e in schedule ==> e.0 < n
    ensures |After(n, schedule).actors| == n
  {
    if schedule == [] then Initial(n)
    else
      var last := schedule[|schedule| - 1];
      Step(After(n, schedule[..|schedule| - 1]), last.0, last.1)
  }

  // ------------------------------------------------------------------ the invariant

  /** The reservation an actor's guard still holds. */
  function Live(p: Pc): int {
    if p.Idle? || p.Locked? || p.Checked? then 0 else p.bytes
  }

  predicate HasFile(p: Pc, path: string) {
    (p.Writing? || p.Staged?) && p.path == path
  }

  function Owns(path: string): Pc -> int {
    p => if HasFile(p, path) then 1 else 0
  }

  function Total(s: State): int {
    Sum(s.actors, Live)
  }

  /** The name is on disk exactly while one actor, and only one, owns it, or as a stray. */
  predicate FileRight(s: State, path: string) {
    0 <= Sum(s.actors, Owns(path)) == Has(s.disk, path) - Has(s.stray, path)
  }

  function Has(names: set<string>, path: string): int {
    if path in names then 1 else 0
  }

  ghost predicate Inv(s: State) {
    && s.staged == Total(s) <= MAX_AGGREGATE_STAGING_BYTES
    && (forall path :: FileRight(s, path))
    && (forall j :: 0 <= j < |s.actors| ==> ((s.actors[j].Locked? || s.actors[j].Checked?) <==> s.lock == Some(j)))
    && (forall j :: 0 <= j < |s.actors| && s.actors[j].Checked? ==>
                      s.staged + s.actors[j].need <= MAX_AGGREGATE_STAGING_BYTES)
  }

  lemma InitialInv(n: nat)
    ensures Inv(Initial(n))
  {
    SumZero(Initial(n).actors, Live);
    forall path ensures FileRight(Initial(n), path) {
      SumZero(Initial(n).actors, Owns(path));
    }
  }

  /** A live reservation is part of the total, so subtracting it cannot wrap around. */
  lemma NoUnderflow(s: State, i: nat)
    requires Inv(s) && i < |s.actors|
    ensures 0 <= Live(s.actors[i]) <= s.staged
    ensures FetchSub(s.staged, Live(s.actors[i])) == s.staged - Live(s.actors[i])
  {
    SumAtLeast(s.actors, Live, i);
  }

  lemma StepKeepsTotal(s: State, i: nat, c: Choice)
    requires Inv(s) && i < |s.actors|
    ensures var s' := Step(s, i, c);
            s'.staged == Total(s') <= MAX_AGGREGATE_STAGING_BYTES
            && (!s.actors[i].Checked? ==> s'.staged <= s.staged)
  {
    NoUnderflow(s, i);
    assert s.actors[i].Checked? ==> s.staged + s.actors[i].need <= MAX_AGGREGATE_STAGING_BYTES;
    hide Inv;
    TotalAfterStep(s, i, c);
  }

  lemma ActorsAfterStep(s: State, i: nat, c: Choice)
    requires i < |s.actors|
    ensures var s' := Step(s, i, c); |s'.actors| == |s.actors| && s'.actors == s.actors[i := s'.actors[i]]
  {
    hide Fits, FetchAdd, FetchSub;
  }

  lemma StagedAfterStep(s: State, i: nat, c: Choice)
    requires i < |s.actors| && 0 <= Live(s.actors[i]) <= s.staged <= MAX_AGGREGATE_STAGING_BYTES
    requires s.actors[i].Checked? ==> s.staged + s.actors[i].need <= MAX_AGGREGATE_STAGING_BYTES
    ensures var s' := Step(s, i, c);
            && s'.staged == s.staged - Live(s.actors[i]) + Live(s'.actors[i]) <= MAX_AGGREGATE_STAGING_BYTES
            && (!s.actors[i].Checked? ==> s'.staged <= s.staged)
  {
    hide Fits, FetchAdd, FetchSub;
    TotalsAreExact(s.staged, Live(s.actors[i]));
    if s.actors[i].Checked? {
      TotalsAreExact(s.staged, s.actors[i].need);
    }
  }

  /** Below the cap the atomic operations do not wrap around. */
  lemma TotalsAreExact(total: nat, n: u64)
    requires total <= MAX_AGGREGATE_STAGING_BYTES
    ensures total + n <= MAX_AGGREGATE_STAGING_BYTES ==> FetchAdd(total, n) == total + n
    ensures n <= total ==> FetchSub(total, n) == total - n
  {
  }

  lemma TotalAfterStep(s: State, i: nat, c: Choice)
    requires i < |s.actors| && 0 <= Live(s.actors[i]) <= s.staged == Total(s) <= MAX_AGGREGATE_STAGING_BYTES
    requires s.actors[i].Checked? ==> s.staged + s.actors[i].need <= MAX_AGGREGATE_STAGING_BYTES
    ensures var s' := Step(s, i, c);
            s'.staged == Total(s') <= MAX_AGGREGATE_STAGING_BYTES
            && (!s.actors[i].Checked? ==> s'.staged <= s.staged)
  {
    ActorsAfterStep(s, i, c);
    StagedAfterStep(s, i, c);
    hide Step, Live;
    SumUpdate(s.actors, Live, i, Step(s, i, c).actors[i]);
  }

  lemma StepKeepsFile(s: State, i: nat, c: Choice, path: string)
    requires Inv(s) && i < |s.actors|
    ensures FileRight(Step(s, i, c), path)
  {
    assert FileRight(s, path);
    if HasFile(s.actors[i], path) {
      SumAtLeast(s.actors, Owns(path), i);
    }
    hide Inv;
    FileAfterStep(s, i, c, path);
  }

  /** What a step does to one name on disk and to the claim on it. */
  lemma NameAfterStep(s: State, i: nat, c: Choice, path: string)
    requires i < |s.actors| && (path in s.stray ==> path in s.disk)
    requires HasFile(s.actors[i], path) ==> path in s.disk && path !in s.stray
    ensures var s' := Step(s, i, c);
            Has(s'.disk, path) - Has(s'.stray, path)
            == Has(s.disk, path) - Has(s.stray, path) - Owns(path)(s.actors[i]) + Owns(path)(s'.actors[i])
  {
    hide Fits, FetchAdd, FetchSub;
  }

  lemma FileAfterStep(s: State, i: nat, c: Choice, path: string)
    requires i < |s.actors| && FileRight(s, path)
    requires HasFile(s.actors[i], path) ==> Sum(s.actors, Owns(path)) >= 1
    ensures FileRight(Step(s, i, c), path)
  {
    ActorsAfterStep(s, i, c);
    NameAfterStep(s, i, c, path);
    hide Step, HasFile;
    SumUpdate(s.actors, Owns(path), i, Step(s, i, c).actors[i]);
    SumNonNegative(Step(s, i, c).actors, Owns(path));
  }

  lemma StepKeepsInv(s: State, i: nat, c: Choice)
    requires Inv(s) && i < |s.actors|
    ensures Inv(Step(s, i, c))
  {
    StepKeepsTotal(s, i, c);
    hide FetchAdd, FetchSub, FileRight, Live;
    forall path ensures FileRight(Step(s, i, c), path) {
      StepKeepsFile(s, i, c, path);
    }
  }

  lemma {:induction false} ReachableInv(n: nat, schedule: seq<(nat, Choice)>)
    requires forall e :: e in schedule ==> e.0 < n
    ensures Inv(After(n, schedule))
  {
    if schedule == [] {
      InitialInv(n);
    } else {
      var past, last := schedule[..|schedule| - 1], schedule[|schedule| - 1];
      ReachableInv(n, past);
      StepKeepsInv(After(n, past), last.0, last.1);
    }
  }

  /** The atomic total is the sum of the live reservations and within the cap, and the stage
      files on disk are those of the requests that own one and those that could not be
      removed, in every reachable state. */
  lemma EveryInterleavingConserves(n: nat, schedule: seq<(nat, Choice)>)
    requires forall e :: e in schedule ==> e.0 < n
    ensures var s := After(n, schedule);
            && s.staged == Sum(s.actors, Live) <= MAX_AGGREGATE_STAGING_BYTES
            && s.stray <= s.disk
            && forall path :: Sum(s.actors, Owns(path)) == Has(s.disk - s.stray, path)
  {
    ReachableInv(n, schedule);
    var s := After(n, schedule);
    forall path
      ensures Sum(s.actors, Owns(path)) == Has(s.disk - s.stray, path) && (path in s.stray ==> path in s.disk)
    {
      assert FileRight(s, path);
    }
  }

  /** Each reservation is given back exactly once on every path: the step that ends a guard
      lowers the total by what it held, and a second release by nothing. */
  lemma ReleasedExactlyOnce(s: State, i: nat, c: Choice)
    requires Inv(s) && i < |s.actors|
    requires s.actors[i].Renamed? || s.actors[i].Failing? || s.actors[i].Dropping? || s.actors[i].Released?
    ensures Step(s, i, c).staged == s.staged - Live(s.actors[i])
    ensures Live(Step(s, i, c).actors[i]) == 0
    ensures Step(Step(s, i, c), i, c).staged == Step(s, i, c).staged
  {
    NoUnderflow(s, i);
  }

  /** Once every request is done, nothing is reserved and the only stage files left are those
      that could not be removed. */
  lemma AllDoneMeansEmpty(n: nat, schedule: seq<(nat, Choice)>)
    requires forall e :: e in schedule ==> e.0 < n
    requires forall p :: p in After(n, schedule).actors ==> p.Idle?
    ensures After(n, schedule).staged == 0 && After(n, schedule).disk == After(n, schedule).stray
    ensures (forall e :: e in schedule ==> e.1.removed) ==> After(n, schedule).disk == {}
  {
    var s := After(n, schedule);
    ReachableInv(n, schedule);
    SumZero(s.actors, Live);
    forall path ensures path in s.disk <==> path in s.stray {
      SumZero(s.actors, Owns(path));
      assert FileRight(s, path);
    }
    if forall e :: e in schedule ==> e.1.removed {
      NoStrays(n, schedule);
    }
  }

  lemma {:induction false} NoStrays(n: nat, schedule: seq<(nat, Choice)>)
    requires forall e :: e in schedule ==> e.0 < n && e.1.removed
    ensures After(n, schedule).stray == {}
  {
    if schedule != [] {
      NoStrays(n, schedule[..|schedule| - 1]);
      assert schedule[|schedule| - 1] in schedule;
    }
  }
}
