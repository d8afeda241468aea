/** The trust store inside a larger machine whose events run at most one operation each: what
    is proved about runs of the store, said about the events. */
module PairingTraces {
  import opened Prelude
  import opened OmaId
  import opened Pairing
  import PairingRuns

  /** The operation each event ran, if it ran one. */
  type Trace = seq<Option<Op>>

  function Ops(t: Trace): seq<Op> {
    if t == [] then []
    else Ops(t[..|t| - 1]) + (if t[|t| - 1].Some? then [t[|t| - 1].value] else [])
  }

  function StoreAfter(t: Trace): Store {
    PairingRuns.After(Ops(t))
  }

  lemma OneMore(t: Trace, e: Option<Op>)
    ensures StoreAfter(t + [e]) == if e.Some? then Step(StoreAfter(t), e.value).0 else StoreAfter(t)
  {
    hide Step;
    assert (t + [e])[..|t|] == t;
    if e.Some? {
      assert (Ops(t) + [e.value])[..|Ops(t)|] == Ops(t);
    } else {
      assert Ops(t) + [] == Ops(t);
    }
  }

  /** Every operation was run by one of the events. */
  lemma {:induction false} OpHasEvent(t: Trace, j: nat) returns (i: nat)
    requires j < |Ops(t)|
    ensures i < |t| && t[i] == Some(Ops(t)[j])
  {
    var n := |t| - 1;
    if j == |Ops(t[..n])| {
      i := n;
    } else {
      i := OpHasEvent(t[..n], j);
    }
  }

  /** A pairing command issued, for the identifier presented by a completion, the code presented
      and the token granted, at most ten minutes before. */
  predicate IssuedBy(issued: Op, done: Op, granted: PairedPeer)
    requires done.Complete?
  {
    && issued.Begin? && issued.draw.Some? && Normalize(issued.id) == Normalize(done.id)
    && issued.draw.value.code == done.code && granted.authToken == Some(issued.draw.value.token)
    && done.now <= issued.now + PAIR_CODE_TTL_SECS
  }

  /** Every granted completion goes back to an event that ran such a command. */
  lemma GrantHasOrigin(t: Trace, done: Op)
    requires done.Complete? && Step(StoreAfter(t), done).1.Ok?
    ensures exists i :: 0 <= i < |t| && t[i].Some? && IssuedBy(t[i].value, done, Step(StoreAfter(t), done).1.value)
  {
    var ops, m := Ops(t) + [done], |Ops(t)|;
    assert ops[..m] == Ops(t) && ops[m] == done;
    hide Step, Ops, PairingRuns.After, PairingRuns.ReplacesAt;
    PairingRuns.CompletionIsExplained(ops, m);
    var j: nat :| j < m && PairingRuns.ExplainedBy(ops, m, j);
    var i := OpHasEvent(t, j);
    assert ops[j] == Ops(t)[j];
    GrantedBeginDrew(PairingRuns.After(ops[..j]), ops[j]);
    assert IssuedBy(ops[j], done, Step(StoreAfter(t), done).1.value);
  }
}
