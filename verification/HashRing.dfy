/** The ring of recently seen clipboard hashes in ClipboardVault.kt, which keeps a text that
    came from a peer from being sent back to the peers. */
module HashRing {
  import opened Prelude

  const HASH_RING_CAPACITY: nat := 64

  function Newest(s: seq<string>, n: nat): seq<string> {
    if |s| <= n then s else s[|s| - n..]
  }

  /** The ring after one more record: its entry moves to the end, the oldest make room. */
  function Recorded(ring: seq<string>, h: string): seq<string> {
    if IsBlank(h) then ring else Newest(Filter(ring, Other(h)), HASH_RING_CAPACITY - 1) + [h]
  }

  /** What the listener did with a local text: nothing, or send it to the peers. */
  datatype Heard = Ignored | Sent(text: string)

  /** The vault's insertion-ordered set, its last hash and what it sent out. */
  class ClipboardVault {
    const hash: string -> string
    var ring: seq<string>
    var lastReceived: string

    constructor (hash: string -> string)
      ensures this.hash == hash && ring == [] && lastReceived == ""
    {
      this.hash, ring, lastReceived := hash, [], "";
    }

    method RecordHash(h: string)
      modifies this
      ensures ring == Recorded(old(ring), h)
      ensures lastReceived == if IsBlank(h) then old(lastReceived) else h
    {
      if IsBlank(h) {
        return;
      }
      ring := Filter(ring, Other(h));
      ghost var all := ring;
      while |ring| >= HASH_RING_CAPACITY
        invariant ring == all || |ring| >= HASH_RING_CAPACITY - 1
        invariant |ring| <= |all| && ring == all[|all| - |ring|..]
      {
        ring := ring[1..];
      }
      ring := ring + [h];
      lastReceived := h;
    }

    method IsKnownHash(h: string) returns (known: bool)
      ensures known <==> !IsBlank(h) && h in ring
    {
      if IsBlank(h) {
        return false;
      }
      return h in ring;
    }

    /** A text that came from a peer. */
    method ProcessIncoming(text: string)
      modifies this
      ensures ring == if IsBlank(text) then old(ring) else Recorded(old(ring), hash(text))
    {
      if IsBlank(text) {
        return;
      }
      RecordHash(hash(text));
    }

    /** A text found on the local clipboard; it is sent unless its hash is known. */
    method ProcessLocal(text: string) returns (heard: Heard)
      modifies this
      ensures heard == Listen(old(ring), hash, text).1 && ring == Listen(old(ring), hash, text).0
    {
      if IsBlank(text) {
        return Ignored;
      }
      var h := hash(text);
      var known := IsKnownHash(h);
      if known {
        return Ignored;
      }
      RecordHash(h);
      return Sent(text);
    }
  }

  function Listen(ring: seq<string>, hash: string -> string, text: string): (seq<string>, Heard) {
    if IsBlank(text) || (!IsBlank(hash(text)) && hash(text) in ring) then (ring, Ignored)
    else (Recorded(ring, hash(text)), Sent(text))
  }

  // -------------------------------------------------- what the ring remembers

  /** The history without repeats, each hash at its last occurrence. */
  function LastOccurrences(history: seq<string>): seq<string> {
    if history == [] then []
    else if history[0] in history[1..] then LastOccurrences(history[1..])
    else [history[0]] + LastOccurrences(history[1..])
  }

  function RingAfter(history: seq<string>): seq<string> {
    if history == [] then [] else Recorded(RingAfter(history[..|history| - 1]), history[|history| - 1])
  }

  predicate NoneBlank(history: seq<string>) {
    forall h :: h in history ==> !IsBlank(h)
  }

  lemma {:induction false} LastOccurrencesOfExtended(history: seq<string>, h: string)
    ensures LastOccurrences(history + [h]) == Filter(LastOccurrences(history), Other(h)) + [h]
  {
    if history == [] {
      assert [] + [h] == [h];
    } else {
      var all := history + [h];
      assert all[1..] == history[1..] + [h];
      LastOccurrencesOfExtended(history[1..], h);
      var rest := LastOccurrences(history[1..]);
      if history[0] !in history[1..] {
        FilterConcat([history[0]], rest, Other(h));
      }
    }
  }

  lemma {:induction false} LastOccurrencesMembers(history: seq<string>)
    ensures forall h :: h in LastOccurrences(history) <==> h in history
    ensures NoRepeats(LastOccurrences(history))
  {
    if history != [] {
      LastOccurrencesMembers(history[1..]);
      assert history == [history[0]] + history[1..];
    }
  }

  lemma {:induction false} FilterOfNewest(s: seq<string>, h: string, n: nat)
    requires NoRepeats(s)
    ensures Newest(Filter(Newest(s, n + 1), Other(h)), n) == Newest(Filter(s, Other(h)), n)
  {
    if |s| > n + 1 {
      var old', kept := s[..|s| - n - 1], s[|s| - n - 1..];
      assert s == old' + kept;
      FilterConcat(old', kept, Other(h));
      FilterLosesAtMostOne(kept, h);
    }
  }

  lemma {:induction false} FilterLosesAtMostOne(s: seq<string>, h: string)
    requires NoRepeats(s)
    ensures |Filter(s, Other(h))| >= |s| - 1
  {
    if s != [] {
      if s[0] == h {
        forall x | x in s[1..] ensures Other(h)(x) {
        }
        FilterAll(s[1..], Other(h));
      } else {
        FilterLosesAtMostOne(s[1..], h);
      }
    }
  }

  /** After any history the ring is, in order, the newest 64 of its distinct hashes. */
  lemma {:induction false} RingRefinesHistory(history: seq<string>)
    requires NoneBlank(history)
    ensures RingAfter(history) == Newest(LastOccurrences(history), HASH_RING_CAPACITY)
  {
    if history != [] {
      var past, h := history[..|history| - 1], history[|history| - 1];
      assert history == past + [h];
      RingRefinesHistory(past);
      LastOccurrencesOfExtended(past, h);
      LastOccurrencesMembers(past);
      FilterOfNewest(LastOccurrences(past), h, HASH_RING_CAPACITY - 1);
    }
  }

  lemma {:induction false} LastOccurrencesSuffix(before: seq<string>, after: seq<string>)
    ensures |LastOccurrences(after)| <= |LastOccurrences(before + after)|
    ensures Newest(LastOccurrences(before + after), |LastOccurrences(after)|) == LastOccurrences(after)
  {
    if before == [] {
      assert before + after == after;
    } else {
      assert (before + after)[1..] == before[1..] + after;
      LastOccurrencesSuffix(before[1..], after);
    }
  }

  function Distinct(s: seq<string>): set<string> {
    set h | h in s
  }

  lemma {:induction false} DistinctCount(s: seq<string>)
    ensures |LastOccurrences(s)| == |Distinct(s)|
  {
    if s != [] {
      DistinctCount(s[1..]);
      assert Distinct(s) == Distinct(s[1..]) + {s[0]};
    }
  }

  /** A recorded hash is still known exactly as long as fewer than 64 other hashes have been
      recorded since. */
  lemma KnownExactlyWithinCapacity(before: seq<string>, h: string, since: seq<string>)
    requires NoneBlank(before + [h] + since) && h !in since
    ensures h in RingAfter(before + [h] + since) <==> |Distinct(since)| < HASH_RING_CAPACITY
  {
    var history := before + [h] + since;
    var tail := [h] + since;
    assert history == before + tail;
    RingRefinesHistory(history);
    LastOccurrencesSuffix(before, tail);
    LastOccurrencesMembers(history);
    DistinctCount(since);
    assert tail[1..] == since;
    var all, mine := LastOccurrences(history), LastOccurrences(tail);
    assert mine == [h] + LastOccurrences(since);
    assert all[|all| - |mine|..] == mine;
    assert all[|all| - |mine|] == h;
  }

  // ------------------------------------------------------------- no echo, over runs

  datatype Event =
    | Incoming(text: string)      // received from a peer
    | Local(text: string)         // seen on the local clipboard
    | Record(h: string)           // an image or any other recorded hash

  /** The hash the event records, or a blank if it records nothing. */
  function RecordedBy(ring: seq<string>, hash: string -> string, e: Event): string {
    match e
    case Incoming(t) => if IsBlank(t) then "" else hash(t)
    case Local(t) => if Listen(ring, hash, t).1.Sent? then hash(t) else ""
    case Record(h) => h
  }

  function RingOf(events: seq<Event>, hash: string -> string): seq<string> {
    if events == [] then []
    else
      var past := RingOf(events[..|events| - 1], hash);
      Recorded(past, RecordedBy(past, hash, events[|events| - 1]))
  }

  /** The hashes recorded by a run, in order. */
  function History(events: seq<Event>, hash: string -> string): seq<string> {
    if events == [] then []
    else
      var past := events[..|events| - 1];
      var h := RecordedBy(RingOf(past, hash), hash, events[|events| - 1]);
      History(past, hash) + (if IsBlank(h) then [] else [h])
  }

  lemma {:induction false} RingFollowsHistory(events: seq<Event>, hash: string -> string)
    ensures NoneBlank(History(events, hash))
    ensures RingOf(events, hash) == RingAfter(History(events, hash))
  {
    if events != [] {
      var past := events[..|events| - 1];
      RingFollowsHistory(past, hash);
      var h := RecordedBy(RingOf(past, hash), hash, events[|events| - 1]);
      if !IsBlank(h) {
        var all := History(events, hash);
        assert all[..|all| - 1] == History(past, hash);
      } else {
        assert History(events, hash) == History(past, hash);
      }
    }
  }

  lemma {:induction false} HistoryGrows(events: seq<Event>, hash: string -> string, k: nat)
    requires k <= |events|
    ensures History(events[..k], hash) <= History(events, hash)
    decreases |events|
  {
    if k < |events| {
      var past := events[..|events| - 1];
      assert past[..k] == events[..k];
      HistoryGrows(past, hash, k);
    } else {
      assert events[..k] == events;
    }
  }

  /** A text received from a peer is sent back by the listener only if at least 64 other
      hashes have been recorded since it arrived. */
  lemma NoEchoWithinCapacity(events: seq<Event>, hash: string -> string, i: nat, text: string)
    requires i < |events| && events[i] == Incoming(text) && !IsBlank(text) && !IsBlank(hash(text))
    requires Listen(RingOf(events, hash), hash, text).1.Sent?
    ensures var arrived, all := History(events[..i + 1], hash), History(events, hash);
            && arrived <= all
            && |Distinct(all[|arrived|..]) - {hash(text)}| >= HASH_RING_CAPACITY
  {
    var h := hash(text);
    var arrived, all := History(events[..i + 1], hash), History(events, hash);
    hide History, RingAfter, Recorded;
    HistoryGrows(events, hash, i + 1);
    ArrivalIsRecorded(events, hash, i, text);
    RingFollowsHistory(events, hash);
    ForgottenAfterMany(all, |arrived|, h);
  }

  lemma ArrivalIsRecorded(events: seq<Event>, hash: string -> string, i: nat, text: string)
    requires i < |events| && events[i] == Incoming(text) && !IsBlank(text) && !IsBlank(hash(text))
    ensures var arrived := History(events[..i + 1], hash); arrived != [] && arrived[|arrived| - 1] == hash(text)
  {
    assert events[..i + 1][..i] == events[..i];
  }

  /** A hash recorded just before position `n` and no longer in the ring. */
  lemma ForgottenAfterMany(all: seq<string>, n: nat, h: string)
    requires NoneBlank(all) && 0 < n <= |all| && all[n - 1] == h && h !in RingAfter(all)
    ensures |Distinct(all[n..]) - {h}| >= HASH_RING_CAPACITY
  {
    hide RingAfter, IsBlank, Distinct, NoneBlank;
    var j := LastIndex(all, h, n - 1);
    var before, since := all[..j], all[j + 1..];
    assert all == before + [h] + since;
    KnownExactlyWithinCapacity(before, h, since);
    LaterIsFewer(all, n, j, h);
    SubsetSize(Distinct(since), Distinct(all[n..]) - {h});
  }

  lemma LaterIsFewer(all: seq<string>, n: nat, j: nat, h: string)
    requires n <= j + 1 <= |all| && h !in all[j + 1..]
    ensures Distinct(all[j + 1..]) <= Distinct(all[n..]) - {h}
  {
    assert all[n..] == all[n..j + 1] + all[j + 1..];
  }

  lemma {:induction false} LastIndex(s: seq<string>, h: string, from: nat) returns (j: nat)
    requires from < |s| && s[from] == h
    ensures from <= j < |s| && s[j] == h && h !in s[j + 1..]
    decreases |s| - from
  {
    if h in s[from + 1..] {
      var k :| 0 <= k < |s[from + 1..]| && s[from + 1..][k] == h;
      j := LastIndex(s, h, from + 1 + k);
    } else {
      j := from;
    }
  }

  lemma {:induction false} SubsetSize(a: set<string>, b: set<string>)
    requires a <= b
    ensures |a| <= |b|
  {
    if a != {} {
      var x :| x in a;
      SubsetSize(a - {x}, b - {x});
    }
  }
}
