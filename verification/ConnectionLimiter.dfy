/** The connection limiter of src/main.rs: a global atomic counter and a mutex-protected map
    of counts per address. Acquiring runs under the mutex; dropping a guard first lowers the
    global counter without the mutex and then the map entry with it. Any number of actors
    (one call and the guard it returns) interleave at every single shared access. */
module ConnectionLimiter {
  import opened Prelude
  import opened Addresses

  const MAX_GLOBAL_CONNECTIONS: nat := 32
  const MAX_PEER_CONNECTIONS: nat := 4

  /** Where an actor stands. From `Locked` to `Added` it holds the mutex. */
  datatype Pc =
    | Idle
    | Locked(ip: IpAddr)
    | Loaded(ip: IpAddr, seen: nat)
    | Counted(ip: IpAddr)
    | Added(ip: IpAddr)
    | Held(ip: IpAddr)
    | HalfDropped(ip: IpAddr)

  datatype State = State(global: nat, tracker: map<IpAddr, nat>, lock: Option<nat>, actors: seq<Pc>)

  function FetchAdd(g: nat): nat {
    if g >= U64_MAX then 0 else g + 1
  }

  function FetchSub(g: nat): nat {
    if g == 0 then U64_MAX else g - 1
  }

  function EntryOrZero(m: map<IpAddr, nat>, ip: IpAddr): nat {
    if ip in m then m[ip] else 0
  }

  /** `ConnectionGuard::drop`, second half. */
  function LowerEntry(m: map<IpAddr, nat>, ip: IpAddr): map<IpAddr, nat> {
    if ip !in m then m
    else if m[ip] <= 1 then m - {ip}
    else m[ip := m[ip] - 1]
  }

  /** One shared access by actor `i`; an idle actor starts acquiring for `ip`. An actor that
      waits for the mutex stays where it is. */
  function Step(s: State, i: nat, ip: IpAddr): State
    requires i < |s.actors|
  {
    match s.actors[i]
    case Idle =>
      if s.lock.Some? then s
      else s.(lock := Some(i), actors := s.actors[i := Locked(ip)])
    case Locked(a) => s.(actors := s.actors[i := Loaded(a, s.global)])
    case Loaded(a, seen) =>
      if seen >= MAX_GLOBAL_CONNECTIONS then s.(lock := None, actors := s.actors[i := Idle])
      else
        var n := EntryOrZero(s.tracker, a);
        if n >= MAX_PEER_CONNECTIONS then s.(tracker := s.tracker[a := n], lock := None, actors := s.actors[i := Idle])
        else s.(tracker := s.tracker[a := n + 1], actors := s.actors[i := Counted(a)])
    case Counted(a) => s.(global := FetchAdd(s.global), actors := s.actors[i := Added(a)])
    case Added(a) => s.(lock := None, actors := s.actors[i := Held(a)])
    case Held(a) => s.(global := FetchSub(s.global), actors := s.actors[i := HalfDropped(a)])
    case HalfDropped(a) =>
      if s.lock.Some? then s
      else s.(tracker := LowerEntry(s.tracker, a), actors := s.actors[i := Idle])
  }

  function Initial(n: nat): State {
    State(0, map[], None, seq(n, _ => Idle))
  }

  /** The state after a schedule: which actor moves, and for whom if it starts anew. */
  function After(n: nat, schedule: seq<(nat, IpAddr)>): State
    requires forall e :: e in schedule ==> e.0 < n
    ensures |After(n, schedule).actors| == n
  {
    if schedule == [] then Initial(n)
    else
      var last := schedule[|schedule| - 1];
      Step(After(n, schedule[..|schedule| - 1]), last.0, last.1)
  }

  // ------------------------------------------------------------------ the invariant

  function InGlobal(p: Pc): int {
    if p.Added? || p.Held? then 1 else 0
  }

  predicate CountsFor(p: Pc, ip: IpAddr) {
    (p.Counted? || p.Added? || p.Held? || p.HalfDropped?) && p.ip == ip
  }

  function OfIp(ip: IpAddr): Pc -> int {
    p => if CountsFor(p, ip) then 1 else 0
  }

  predicate InCritical(p: Pc) {
    p.Locked? || p.Loaded? || p.Counted? || p.Added?
  }

  /** Guards alive or dropping, per address, and guards not yet dropping. */
  function HeldBy(s: State, ip: IpAddr): int {
    Sum(s.actors, OfIp(ip))
  }

  function HeldInAll(s: State): int {
    Sum(s.actors, InGlobal)
  }

  predicate EntryRight(s: State, ip: IpAddr) {
    0 <= HeldBy(s, ip) <= MAX_PEER_CONNECTIONS && EntryOrZero(s.tracker, ip) == HeldBy(s, ip)
    && (ip in s.tracker ==> s.tracker[ip] > 0)
  }

  ghost predicate Inv(s: State) {
    && s.global == HeldInAll(s) <= MAX_GLOBAL_CONNECTIONS
    && (forall ip :: EntryRight(s, ip))
    && (forall j :: 0 <= j < |s.actors| ==> (InCritical(s.actors[j]) <==> s.lock == Some(j)))
    && (forall j :: 0 <= j < |s.actors| && s.actors[j].Loaded? ==> s.global <= s.actors[j].seen)
    && (forall j :: 0 <= j < |s.actors| && s.actors[j].Counted? ==> s.global < MAX_GLOBAL_CONNECTIONS)
  }

  lemma InitialInv(n: nat)
    ensures Inv(Initial(n))
  {
    var s := Initial(n);
    SumZero(s.actors, InGlobal);
    forall ip ensures EntryRight(s, ip) {
      SumZero(s.actors, OfIp(ip));
    }
  }

  /** A guard that is counted globally makes the counter positive, so lowering it cannot
      wrap around. */
  lemma NoUnderflow(s: State, i: nat)
    requires Inv(s) && i < |s.actors| && s.actors[i].Held?
    ensures FetchSub(s.global) == s.global - 1
  {
    SumAtLeast(s.actors, InGlobal, i);
  }

  lemma EntryAfterMove(s: State, s': State, i: nat, ip: IpAddr)
    requires i < |s.actors| && |s'.actors| == |s.actors| && s'.actors == s.actors[i := s'.actors[i]]
    ensures HeldBy(s', ip) == HeldBy(s, ip) - OfIp(ip)(s.actors[i]) + OfIp(ip)(s'.actors[i])
  {
    SumUpdate(s.actors, OfIp(ip), i, s'.actors[i]);
  }

  lemma StepKeepsEntries(s: State, i: nat, newIp: IpAddr, ip: IpAddr)
    requires Inv(s) && i < |s.actors|
    ensures EntryRight(Step(s, i, newIp), ip)
  {
    assert EntryRight(s, ip);
    EntryAfterMove(s, Step(s, i, newIp), i, ip);
    if s.actors[i].HalfDropped? {
      SumAtLeast(s.actors, OfIp(s.actors[i].ip), i);
      assert EntryRight(s, s.actors[i].ip);
    }
  }

  lemma StepKeepsGlobal(s: State, i: nat, newIp: IpAddr)
    requires Inv(s) && i < |s.actors|
    ensures Step(s, i, newIp).global == HeldInAll(Step(s, i, newIp)) <= MAX_GLOBAL_CONNECTIONS
  {
    SumUpdate(s.actors, InGlobal, i, Step(s, i, newIp).actors[i]);
    if s.actors[i].Held? {
      NoUnderflow(s, i);
    }
  }

  lemma StepKeepsInv(s: State, i: nat, newIp: IpAddr)
    requires Inv(s) && i < |s.actors|
    ensures Inv(Step(s, i, newIp))
  {
    StepKeepsGlobal(s, i, newIp);
    forall ip ensures EntryRight(Step(s, i, newIp), ip) {
      StepKeepsEntries(s, i, newIp, ip);
    }
    if s.actors[i].Held? {
      NoUnderflow(s, i);
    }
  }

  lemma {:induction false} ReachableInv(n: nat, schedule: seq<(nat, IpAddr)>)
    requires forall e :: e in schedule ==> e.0 < n
    ensures Inv(After(n, schedule))
  {
    if schedule == [] {
      InitialInv(n);
    } else {
      var past, last := schedule[..|schedule| - 1], schedule[|schedule| - 1];
      ReachableInv(n, past);
      StepKeepsInv(After(n, past), last.0, last.1);
    }
  }

  /** Both limits hold and both counts are exact in every reachable state. */
  lemma EveryInterleavingIsSafe(n: nat, schedule: seq<(nat, IpAddr)>)
    requires forall e :: e in schedule ==> e.0 < n
    ensures var s := After(n, schedule);
            && s.global == Sum(s.actors, InGlobal) <= MAX_GLOBAL_CONNECTIONS
            && forall ip :: EntryOrZero(s.tracker, ip) == Sum(s.actors, OfIp(ip)) <= MAX_PEER_CONNECTIONS
                            && (ip in s.tracker ==> s.tracker[ip] > 0)
  {
    ReachableInv(n, schedule);
    var s := After(n, schedule);
    forall ip ensures EntryOrZero(s.tracker, ip) == Sum(s.actors, OfIp(ip)) <= MAX_PEER_CONNECTIONS
                      && (ip in s.tracker ==> s.tracker[ip] > 0) {
      assert EntryRight(s, ip);
    }
  }

  /** When no call is under way and no guard is left, both counts are back to empty. */
  lemma AllGoneMeansEmpty(n: nat, schedule: seq<(nat, IpAddr)>)
    requires forall e :: e in schedule ==> e.0 < n
    requires forall p :: p in After(n, schedule).actors ==> p.Idle?
    ensures After(n, schedule).global == 0 && After(n, schedule).tracker == map[]
  {
    var s := After(n, schedule);
    ReachableInv(n, schedule);
    SumZero(s.actors, InGlobal);
    forall ip ensures ip !in s.tracker {
      SumZero(s.actors, OfIp(ip));
      assert EntryRight(s, ip);
    }
  }

  /** A caller holding the mutex is refused exactly when the counter it read was at the
      global limit or its address already has four guards, counting those half dropped. */
  lemma RefusedExactlyAtALimit(s: State, i: nat, ip: IpAddr)
    requires Inv(s) && i < |s.actors| && s.actors[i].Loaded?
    ensures Step(s, i, ip).actors[i].Idle?
            <==> s.actors[i].seen >= MAX_GLOBAL_CONNECTIONS || HeldBy(s, s.actors[i].ip) == MAX_PEER_CONNECTIONS
  {
    assert EntryRight(s, s.actors[i].ip);
  }
}
