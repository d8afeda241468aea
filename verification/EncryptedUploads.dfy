/** The compare-and-swap guard on concurrent encrypted uploads in src/main.rs: any number of
    callers race through a load and a weak compare-and-swap that may also fail spuriously. */
module EncryptedUploads {
  import opened Prelude

  const MAX_CONCURRENT_ENCRYPTED_UPLOADS: nat := 2

  datatype Pc =
    | Idle
    | Looping(curr: nat)   // about to test `curr` and swap
    | Held

  datatype State = State(active: nat, actors: seq<Pc>)

  /** One shared access by actor `i`. `spurious` lets the weak swap fail for no reason. */
  function Step(s: State, i: nat, spurious: bool): State
    requires i < |s.actors|
  {
    match s.actors[i]
    case Idle => s.(actors := s.actors[i := Looping(s.active)])
    case Looping(curr) =>
      if curr >= MAX_CONCURRENT_ENCRYPTED_UPLOADS then s.(actors := s.actors[i := Idle])
      else if s.active == curr && !spurious then State(Min(curr + 1, U32_MAX), s.actors[i := Held])
      else s.(actors := s.actors[i := Looping(s.active)])
    case Held => State(if s.active == 0 then U32_MAX else s.active - 1, s.actors[i := Idle])
  }

  function After(n: nat, schedule: seq<(nat, bool)>): State
    requires forall e :: e in schedule ==> e.0 < n
    ensures |After(n, schedule).actors| == n
  {
    if schedule == [] then State(0, seq(n, _ => Idle))
    else
      var last := schedule[|schedule| - 1];
      Step(After(n, schedule[..|schedule| - 1]), last.0, last.1)
  }

  function IsHeld(p: Pc): int {
    if p.Held? then 1 else 0
  }

  /** The counter is the number of guards in existence, never more than two. */
  lemma {:induction false} NeverMoreThanTwo(n: nat, schedule: seq<(nat, bool)>)
    requires forall e :: e in schedule ==> e.0 < n
    ensures After(n, schedule).active == Sum(After(n, schedule).actors, IsHeld) <= MAX_CONCURRENT_ENCRYPTED_UPLOADS
  {
    var s' := After(n, schedule);
    if schedule == [] {
      SumZero(s'.actors, IsHeld);
    } else {
      var past, last := schedule[..|schedule| - 1], schedule[|schedule| - 1];
      var s := After(n, past);
      NeverMoreThanTwo(n, past);
      SumUpdate(s.actors, IsHeld, last.0, s'.actors[last.0]);
      if s.actors[last.0].Held? {
        SumAtLeast(s.actors, IsHeld, last.0);
      }
    }
  }
}
