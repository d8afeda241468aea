/** Whole runs of the trust store: any sequence of the four operations from an empty store,
    with any inputs, any random draws, any clock and any failing file operations. */
module PairingRuns {
  import opened Prelude
  import opened OmaId
  import opened Addresses
  import opened Pairing

  function After(ops: seq<Op>): Store {
    if ops == [] then map[] else Step(After(ops[..|ops| - 1]), ops[|ops| - 1]).0
  }

  function ReplyAt(ops: seq<Op>, k: nat): Reply
    requires k < |ops|
  {
    Step(After(ops[..k]), ops[k]).1
  }

  // ------------------------------------------------------------- ghost history

  /** The operation writes a brand-new record for `id`, or loses the one there is by saving
      a store it could not read. */
  predicate Replaces(s: Store, op: Op, id: string) {
    Step(s, op).1.Ok? && !op.Complete?
    && (Normalize(op.id) == id || !op.io.loadOk)
    && (op.Add? ==> Normalize(op.id) !in Loaded(s, op.io))
  }

  /** The operation checks a presented code against the pending code of `id` and the result
      of that check reaches the disk. */
  predicate Compares(s: Store, op: Op, id: string) {
    Normalize(op.id) == id && Checks(s, op) && op.io.saveOk
  }

  /** The same, but the result is lost. */
  predicate ComparesUnsaved(s: Store, op: Op, id: string) {
    Normalize(op.id) == id && Checks(s, op) && !op.io.saveOk
  }

  predicate WrongGuess(s: Store, op: Op, id: string) {
    Compares(s, op, id) && !Matches(s[id], op.code, Canonical(op.source))
  }

  predicate ReplacesAt(ops: seq<Op>, k: nat, id: string)
    requires k < |ops|
  {
    Replaces(After(ops[..k]), ops[k], id)
  }

  /** One more than the index of the last operation that replaced the record of `id`. */
  function Origin(ops: seq<Op>, id: string): nat {
    if ops == [] then 0
    else if Replaces(After(ops[..|ops| - 1]), ops[|ops| - 1], id) then |ops|
    else Origin(ops[..|ops| - 1], id)
  }

  /** Comparisons since then, and those among them that failed. */
  function Comparisons(ops: seq<Op>, id: string): nat {
    if ops == [] || Replaces(After(ops[..|ops| - 1]), ops[|ops| - 1], id) then 0
    else Comparisons(ops[..|ops| - 1], id) + (if Compares(After(ops[..|ops| - 1]), ops[|ops| - 1], id) then 1 else 0)
  }

  function WrongGuesses(ops: seq<Op>, id: string): nat {
    if ops == [] || Replaces(After(ops[..|ops| - 1]), ops[|ops| - 1], id) then 0
    else WrongGuesses(ops[..|ops| - 1], id) + (if WrongGuess(After(ops[..|ops| - 1]), ops[|ops| - 1], id) then 1 else 0)
  }

  /** Cutting a run short does not change what happened before the cut. */
  lemma SamePast(ops: seq<Op>, n: nat, i: int)
    requires n <= |ops|
    ensures 0 <= i < n ==> ops[..n][..i] == ops[..i] && ops[..n][i] == ops[i]
  {
  }

  lemma {:induction false} OriginIsLast(ops: seq<Op>, id: string)
    ensures Origin(ops, id) <= |ops|
    ensures Origin(ops, id) > 0 ==> ReplacesAt(ops, Origin(ops, id) - 1, id)
    ensures forall i :: Origin(ops, id) <= i < |ops| ==> !ReplacesAt(ops, i, id)
  {
    hide Replaces;
    if ops != [] {
      var n := |ops| - 1;
      var init := ops[..n];
      OriginIsLast(init, id);
      if !Replaces(After(init), ops[n], id) {
        SamePast(ops, n, Origin(init, id) - 1);
        forall i | Origin(init, id) <= i < |ops| ensures !ReplacesAt(ops, i, id) {
          SamePast(ops, n, i);
          assert i < n ==> !ReplacesAt(init, i, id);
        }
      }
    }
  }

  // ------------------------------------------------------------ run invariants

  /** The operation issued this record's token. */
  predicate Issued(op: Op, token: Option<string>) {
    match op
    case Add(_, _, _, freshToken, _, _) => freshToken == token
    case Begin(_, _, _, draw, _, _) => draw.Some? && token == Some(draw.value.token)
    case StoreDone(_, _, _, t, _, _) => token == Some(t) && IsToken(t)
    case Complete(_, _, _, _, _) => false
  }

  /** What the store says about a record, given the operation it stems from and the number
      of comparisons and wrong guesses since. */
  predicate Consistent(p: PairedPeer, id: string, op: Op, compared: nat, wrong: nat) {
    && Valid(id) && Normalize(id) == id && p.omaId == Format(id)
    && Normalize(op.id) == id
    && Issued(op, p.authToken)
    && (p.confirmed ==> p.ip.Some? && IsPeerAddress(p.ip.value) && p.pairCode.None? && !op.Add?)
    && (op.StoreDone? ==> p.confirmed)
    && (p.pairCode.Some? ==>
         && op.Begin?
         && !p.confirmed
         && p.pairCode.value == op.draw.value.code
         && p.expiresAt == Some(SaturatingAdd(op.now, PAIR_CODE_TTL_SECS))
         && p.ip == ParseLocalHint(op.hint)
         && p.failures == wrong == compared < PAIR_CODE_MAX_FAILURES)
  }

  /** Everything a run keeps, for one identifier. */
  predicate Kept(ops: seq<Op>, id: string) {
    && Comparisons(ops, id) <= PAIR_CODE_MAX_FAILURES
    && WrongGuesses(ops, id) <= Comparisons(ops, id)
    && (id in After(ops) ==>
         && 0 < Origin(ops, id) <= |ops|
         && Consistent(After(ops)[id], id, ops[Origin(ops, id) - 1], Comparisons(ops, id), WrongGuesses(ops, id)))
  }

  lemma ReplacingStep(s: Store, op: Op, id: string)
    requires Replaces(s, op, id)
    ensures id in Step(s, op).0 ==> Consistent(Step(s, op).0[id], id, op, 0, 0)
  {
    NormalizeIdempotent(op.id);
    if id in Step(s, op).0 {
      assert Normalize(op.id) == id;
    }
  }

  lemma KeepingStep(s: Store, op: Op, id: string, origin: Op, compared: nat, wrong: nat)
    requires !Replaces(s, op, id)
    requires wrong <= compared <= PAIR_CODE_MAX_FAILURES
    requires id in s ==> Consistent(s[id], id, origin, compared, wrong)
    ensures id in Step(s, op).0 ==> id in s
    ensures var compared' := compared + (if Compares(s, op, id) then 1 else 0);
            var wrong' := wrong + (if WrongGuess(s, op, id) then 1 else 0);
            && wrong' <= compared' <= PAIR_CODE_MAX_FAILURES
            && (id in Step(s, op).0 ==> Consistent(Step(s, op).0[id], id, origin, compared', wrong'))
  {
    CanonicalIdempotent(if op.Complete? then op.source else V4(0, 0, 0, 0));
  }

  lemma {:induction false} RunsKeep(ops: seq<Op>, id: string)
    ensures Kept(ops, id)
  {
    hide Replaces, Compares, WrongGuess, Consistent, Step;
    if ops != [] {
      var init, op := ops[..|ops| - 1], ops[|ops| - 1];
      var s := After(init);
      RunsKeep(init, id);
      if Replaces(s, op, id) {
        ReplacingStep(s, op, id);
      } else {
        var origin := if id in s then init[Origin(init, id) - 1] else op;
        KeepingStep(s, op, id, origin, Comparisons(init, id), WrongGuesses(init, id));
        assert After(ops) == Step(s, op).0 && Origin(ops, id) == Origin(init, id);
        assert id in s ==> ops[Origin(init, id) - 1] == origin;
      }
    }
  }

  // ---------------------------------------------------------------- main results

  /** A completion at `k` is explained by the code issued at `j`: same identifier, exactly
      that code and a token still in force, nothing in between that could have changed
      either, in time, within the allowed wrong guesses and from the hinted address. */
  predicate ExplainedBy(ops: seq<Op>, k: nat, j: nat)
    requires j < k < |ops|
  {
    var issued, done := ops[j], ops[k];
    var id := Normalize(done.id);
    && issued.Begin? && ReplyAt(ops, j).Ok? && Normalize(issued.id) == id
    && done.Complete? && done.code == issued.draw.value.code
    && ReplyAt(ops, k).Ok? && ReplyAt(ops, k).value.authToken == Some(issued.draw.value.token)
    && (forall i :: j < i < k ==> !ReplacesAt(ops, i, id))
    && done.now <= issued.now + PAIR_CODE_TTL_SECS
    && WrongGuesses(ops[..k], id) < PAIR_CODE_MAX_FAILURES
    && (ParseLocalHint(issued.hint).Some? ==> Canonical(ParseLocalHint(issued.hint).value) == Canonical(done.source))
  }

  lemma CompletionIsExplained(ops: seq<Op>, k: nat)
    requires k < |ops| && ops[k].Complete? && ReplyAt(ops, k).Ok?
    ensures exists j: nat :: j < k && ExplainedBy(ops, k, j)
  {
    hide Step;
    var id := Normalize(ops[k].id);
    var past := ops[..k];
    GrantNeedsPending(ops, k);
    var j := Origin(past, id) - 1;
    OriginIsLast(past, id);
    SamePast(ops, k, j);
    assert ReplacesAt(ops, j, id);
    forall i | j < i < k ensures !ReplacesAt(ops, i, id) {
      SamePast(ops, k, i);
      assert !ReplacesAt(past, i, id);
    }
    assert ExplainedBy(ops, k, j);
  }

  /** A granted completion met a pending record with that code. */
  lemma GrantNeedsPending(ops: seq<Op>, k: nat)
    requires k < |ops| && ops[k].Complete? && ReplyAt(ops, k).Ok?
    ensures Kept(ops[..k], Normalize(ops[k].id))
    ensures var p, id := After(ops[..k]), Normalize(ops[k].id);
            id in p && IsPending(p[id], ops[k].now) && Matches(p[id], ops[k].code, Canonical(ops[k].source))
            && ReplyAt(ops, k) == Ok(Confirm(p[id], Canonical(ops[k].source), ops[k].now))
  {
    RunsKeep(ops[..k], Normalize(ops[k].id));
  }

  /** A confirmed record is active, reachable on the local network, holds no code, and stems
      either from the local user's own completed pairing or from a code-verified one. */
  lemma ConfirmedRecordsAreActive(ops: seq<Op>, id: string)
    requires id in After(ops) && After(ops)[id].confirmed
    ensures After(ops)[id].IsActive() && IsPeerAddress(After(ops)[id].ip.value)
    ensures After(ops)[id].pairCode.None?
    ensures var o := Origin(ops, id);
            0 < o <= |ops| && Normalize(ops[o - 1].id) == id && (ops[o - 1].StoreDone? || ops[o - 1].Begin?)
  {
    hide Step, Replaces, Compares, WrongGuess, After, Origin, Comparisons, WrongGuesses;
    RunsKeep(ops, id);
  }

  predicate GrantedAt(ops: seq<Op>, k: nat, id: string)
    requires k < |ops|
  {
    ops[k].Complete? && Normalize(ops[k].id) == id && ReplyAt(ops, k).Ok?
  }

  /** A confirmed record whose origin is a code issued here was confirmed by some later
      completion for that identifier. */
  lemma {:induction false} ConfirmationNeedsCompletion(ops: seq<Op>, id: string)
    requires id in After(ops) && After(ops)[id].confirmed
    requires var o := Origin(ops, id); 0 < o <= |ops| && ops[o - 1].Begin?
    ensures exists k: nat :: Origin(ops, id) <= k < |ops| && GrantedAt(ops, k, id)
  {
    hide Replaces, Step;
    var n := |ops| - 1;
    var init, op := ops[..n], ops[n];
    HowConfirmed(After(init), op, id);
    if op.Complete? && Normalize(op.id) == id && Step(After(init), op).1.Ok? {
      OriginIsLast(ops, id);
      assert GrantedAt(ops, n, id);
    } else {
      OriginIsLast(init, id);
      SamePast(ops, n, Origin(init, id) - 1);
      ConfirmationNeedsCompletion(init, id);
      var k: nat :| Origin(init, id) <= k < |init| && GrantedAt(init, k, id);
      SamePast(ops, n, k);
      assert GrantedAt(ops, k, id);
    }
  }

  /** The three ways in which a record can be confirmed after a step. */
  lemma HowConfirmed(s: Store, op: Op, id: string)
    requires id in Step(s, op).0 && Step(s, op).0[id].confirmed
    ensures || (Replaces(s, op, id) && op.StoreDone?)
            || (!Replaces(s, op, id) && op.Complete? && Normalize(op.id) == id && Step(s, op).1.Ok?)
            || (!Replaces(s, op, id) && id in s && s[id].confirmed)
  {
  }

  /** All comparisons with the code in force, and those among them whose result was lost. */
  function AllComparisons(ops: seq<Op>, id: string): nat {
    if ops == [] || Replaces(After(ops[..|ops| - 1]), ops[|ops| - 1], id) then 0
    else
      var past, op := After(ops[..|ops| - 1]), ops[|ops| - 1];
      AllComparisons(ops[..|ops| - 1], id)
      + (if Compares(past, op, id) || ComparesUnsaved(past, op, id) then 1 else 0)
  }

  function LostComparisons(ops: seq<Op>, id: string): nat {
    if ops == [] || Replaces(After(ops[..|ops| - 1]), ops[|ops| - 1], id) then 0
    else
      LostComparisons(ops[..|ops| - 1], id)
      + (if ComparesUnsaved(After(ops[..|ops| - 1]), ops[|ops| - 1], id) then 1 else 0)
  }

  lemma {:induction false} ComparisonsAddUp(ops: seq<Op>, id: string)
    ensures AllComparisons(ops, id) == Comparisons(ops, id) + LostComparisons(ops, id)
  {
    hide Replaces, Checks;
    if ops != [] {
      ComparisonsAddUp(ops[..|ops| - 1], id);
    }
  }

  /** Every issued code is compared at most five times, not counting the comparisons whose
      result could not be saved. */
  lemma CodeComparedAtMostFiveTimes(ops: seq<Op>, id: string)
    ensures AllComparisons(ops, id) <= PAIR_CODE_MAX_FAILURES + LostComparisons(ops, id)
  {
    RunsKeep(ops, id);
    ComparisonsAddUp(ops, id);
  }

  function Repeat(op: Op, n: nat): seq<Op> {
    if n == 0 then [] else Repeat(op, n - 1) + [op]
  }

  lemma RepeatNext(ops: seq<Op>, op: Op, n: nat)
    requires n > 0
    ensures var all := ops + Repeat(op, n); all[..|all| - 1] == ops + Repeat(op, n - 1) && all[|all| - 1] == op
  {
  }

  /** While saving fails, the same code can be tried against as often as one likes, and the
      store never changes. */
  lemma UnsavedGuessesAreNotCounted(ops: seq<Op>, guess: Op, n: nat, id: string)
    requires ComparesUnsaved(After(ops), guess, id)
    ensures After(ops + Repeat(guess, n)) == After(ops)
    ensures AllComparisons(ops + Repeat(guess, n), id) == AllComparisons(ops, id) + n
  {
    RepeatedUnsaved(ops, guess, n, id);
  }

  lemma {:induction false} RepeatedUnsaved(ops: seq<Op>, guess: Op, n: nat, id: string)
    requires guess.Complete? && !guess.io.saveOk
    ensures After(ops + Repeat(guess, n)) == After(ops)
    ensures AllComparisons(ops + Repeat(guess, n), id)
            == AllComparisons(ops, id) + if ComparesUnsaved(After(ops), guess, id) then n else 0
  {
    hide After, AllComparisons, ComparesUnsaved;
    if n == 0 {
      assert ops + Repeat(guess, 0) == ops;
    } else {
      RepeatNext(ops, guess, n);
      hide Repeat;
      RepeatedUnsaved(ops, guess, n - 1, id);
      OneMoreGuess(ops + Repeat(guess, n), guess, id);
    }
  }

  lemma OneMoreGuess(ops: seq<Op>, guess: Op, id: string)
    requires ops != [] && ops[|ops| - 1] == guess && guess.Complete? && !guess.io.saveOk
    ensures var past := ops[..|ops| - 1];
            && After(ops) == After(past)
            && AllComparisons(ops, id)
                == AllComparisons(past, id) + if ComparesUnsaved(After(past), guess, id) then 1 else 0
  {
    UnsavedCompletionChangesNothing(After(ops[..|ops| - 1]), guess);
    hide Step, Checks;
  }

  lemma UnsavedCompletionChangesNothing(s: Store, op: Op)
    requires op.Complete? && !op.io.saveOk
    ensures Step(s, op).0 == s
  {
  }

  predicate AllSaved(ops: seq<Op>) {
    forall i :: 0 <= i < |ops| ==> ops[i].io.saveOk
  }

  lemma {:induction false} SavedLoseNothing(ops: seq<Op>, id: string)
    requires AllSaved(ops)
    ensures LostComparisons(ops, id) == 0
  {
    if ops != [] {
      SavedLoseNothing(ops[..|ops| - 1], id);
    }
  }

  lemma {:induction false} RepeatIsSaved(ops: seq<Op>, guess: Op, n: nat)
    requires AllSaved(ops) && guess.io.saveOk
    ensures AllSaved(ops + Repeat(guess, n))
  {
    if n == 0 {
      assert ops + Repeat(guess, 0) == ops;
    } else {
      RepeatNext(ops, guess, n);
      RepeatIsSaved(ops, guess, n - 1);
    }
  }

  /** So the promise of five holds for a repeated guess exactly if it can be saved or is not
      checked against a code at all. */
  lemma FiveGuessesExactlyIfSaved(ops: seq<Op>, guess: Op, id: string)
    requires AllSaved(ops) && guess.Complete?
    ensures (forall n: nat :: AllComparisons(ops + Repeat(guess, n), id) <= PAIR_CODE_MAX_FAILURES)
            <==> guess.io.saveOk || !(Normalize(guess.id) == id && Checks(After(ops), guess))
  {
    hide Step, Checks, After, AllComparisons, LostComparisons;
    if guess.io.saveOk {
      forall n: nat ensures AllComparisons(ops + Repeat(guess, n), id) <= PAIR_CODE_MAX_FAILURES {
        RepeatIsSaved(ops, guess, n);
        SavedLoseNothing(ops + Repeat(guess, n), id);
        CodeComparedAtMostFiveTimes(ops + Repeat(guess, n), id);
      }
    } else if ComparesUnsaved(After(ops), guess, id) {
      UnsavedGuessesAreNotCounted(ops, guess, PAIR_CODE_MAX_FAILURES + 1, id);
    } else {
      SavedLoseNothing(ops, id);
      CodeComparedAtMostFiveTimes(ops, id);
      forall n: nat ensures AllComparisons(ops + Repeat(guess, n), id) <= PAIR_CODE_MAX_FAILURES {
        RepeatedUnsaved(ops, guess, n, id);
      }
    }
  }

  /** The local user starts a pairing from an empty store. */
  function FirstPairing(draw: Draw): Op {
    Begin(FIRST_ID, "", Absent, Some(draw), 0, Io(true, true, true))
  }

  function UnsavedGuess(code: Code): Op {
    Complete(FIRST_ID, code, V4(10, 0, 0, 1), 0, Io(true, true, false))
  }

  lemma FirstPairingBegins(draw: Draw)
    ensures var s := After([FirstPairing(draw)]);
            FIRST_ID in s && IsPending(s[FIRST_ID], 0) && AllComparisons([FirstPairing(draw)], FIRST_ID) == 0
  {
    ExamplesAreValid();
    var begun := [FirstPairing(draw)];
    assert begun[..0] == [] && begun[0] == FirstPairing(draw);
    hide Normalize, Valid, ParseLocalHint, Step;
    assert After([]) == map[];
    BeginAccepted(map[], begun[0]);
    assert Replaces(After([]), begun[0], FIRST_ID);
  }

  /** A run from the empty store in which one code is compared six times. */
  lemma SixComparisonsHappen(draw: Draw, code: Code)
    ensures AllComparisons([FirstPairing(draw)] + Repeat(UnsavedGuess(code), 6), FIRST_ID) == 6
  {
    ExamplesAreValid();
    FirstPairingBegins(draw);
    hide After, AllComparisons, Repeat, FirstPairing, Normalize, Valid, IsPending;
    assert Checks(After([FirstPairing(draw)]), UnsavedGuess(code));
    UnsavedGuessesAreNotCounted([FirstPairing(draw)], UnsavedGuess(code), 6, FIRST_ID);
  }

  /** A run from the empty store in which a pairing for one peer removes another's record. */
  lemma OtherRecordLost(draw: Draw)
    ensures var begun := [FirstPairing(draw)];
            var blind := Begin(SECOND_ID, "", Absent, Some(draw), 0, Io(true, false, true));
            FIRST_ID in After(begun) && FIRST_ID !in After(begun + [blind])
  {
    ExamplesAreValid();
    FirstPairingBegins(draw);
    var begun := [FirstPairing(draw)];
    var blind := Begin(SECOND_ID, "", Absent, Some(draw), 0, Io(true, false, true));
    assert (begun + [blind])[..1] == begun && (begun + [blind])[1] == blind;
    hide Step, Normalize, Valid, FirstPairing;
    BlindBeginLosesRecords(After(begun), FIRST_ID, SECOND_ID, "", draw, 0);
    assert After(begun + [blind]) == Step(After(begun), blind).0;
  }

  /** A pending record carries the code and the hint of the command it stems from. */
  lemma PendingStemsFromBegin(ops: seq<Op>, id: string, now: u64)
    requires id in After(ops) && IsPending(After(ops)[id], now)
    ensures var o, p := Origin(ops, id), After(ops)[id];
            && 0 < o <= |ops| && ops[o - 1].Begin? && Valid(id)
            && IsCode(p.pairCode.value) && p.ip == ParseLocalHint(ops[o - 1].hint)
  {
    hide Step, Replaces, Compares, WrongGuess, After, Origin, Comparisons, WrongGuesses, Valid, ParseLocalHint;
    RunsKeep(ops, id);
  }

  lemma HintIsLocal(hint: Hint)
    ensures ParseLocalHint(hint).Some? ==>
              var ip := ParseLocalHint(hint).value; IsLocalNetwork(ip) && Canonical(ip) == ip
  {
    if hint.Parsed? {
      CanonicalIdempotent(hint.ip);
    }
  }

  /** In every reachable store, a pending pairing can be completed exactly if no loopback
      address was hinted. */
  lemma CompletableExactlyIfNotLoopback(ops: seq<Op>, id: string, now: u64)
    requires Normalize(id) in After(ops) && IsPending(After(ops)[Normalize(id)], now)
    ensures var o := Origin(ops, Normalize(id));
            && 0 < o <= |ops| && ops[o - 1].Begin?
            && (CanComplete(After(ops), id, now)
                <==> var hint := ParseLocalHint(ops[o - 1].hint); hint.None? || !IsLoopback(hint.value))
  {
    var norm := Normalize(id);
    PendingStemsFromBegin(ops, norm, now);
    HintIsLocal(ops[Origin(ops, norm) - 1].hint);
    hide Origin, After, Normalize, Valid, CanComplete, ParseLocalHint, IsCode, IsLocalNetwork, IsLoopback, Canonical;
    Pairing.CompletableExactlyIfNotLoopback(After(ops), id, now);
  }

  lemma OneOp(op: Op)
    ensures After([op]) == Step(map[], op).0 && ReplyAt([op], 0) == Step(map[], op).1
  {
    hide Step;
    assert [op][..0] == [];
  }

  /** For every valid identifier, a run of one pairing command with a loopback hint, which is
      accepted and then never completes. */
  lemma LoopbackHintIsAccepted(id: string, draw: Draw)
    requires Valid(id) && Normalize(id) == id
    ensures var begun := [Begin(id, "", Parsed(V4(127, 0, 0, 1)), Some(draw), 0, Io(true, true, true))];
            && ReplyAt(begun, 0).Ok? && id in After(begun) && IsPending(After(begun)[id], 0)
            && !CanComplete(After(begun), id, 0)
  {
    hide *;
    var op := Begin(id, "", Parsed(V4(127, 0, 0, 1)), Some(draw), 0, Io(true, true, true));
    LoopbackIsLocal();
    OneOp(op);
    BeginAccepted(map[], op);
    NeverCompletes(After([op]), id, 0);
  }

  /** Identifiers are stored once, under their normal form, in display form. */
  lemma RecordsAreCanonical(ops: seq<Op>, id: string)
    requires id in After(ops)
    ensures Valid(id) && Normalize(After(ops)[id].omaId) == id && After(ops)[id].omaId == Format(id)
  {
    RunsKeep(ops, id);
    FormatKeepsIdentity(id);
  }

  /** In every reachable store a token is accepted exactly for a confirmed record holding
      that token: the branch that accepts records without a token is never taken. */
  lemma TokenAcceptedExactly(ops: seq<Op>, id: string, provided: string)
    ensures TokenAccepted(After(ops), id, provided)
            <==> var norm := Normalize(id);
                 norm in After(ops) && After(ops)[norm].confirmed && After(ops)[norm].authToken == Some(provided)
  {
    var norm := Normalize(id);
    RunsKeep(ops, norm);
    NormalizeIdempotent(id);
  }
}
