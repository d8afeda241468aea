/** The trust store as src/rendezvous.rs keeps it: a list of records on disk, loaded, edited
    in place and saved by each operation under one exclusive lock. Every method is proved to
    have the effect on the list that Pairing.Step has on the map. */
module PairingStore {
  import opened Prelude
  import opened Bits
  import opened OmaId
  import opened Addresses
  import opened Pairing

  function Key(p: PairedPeer): string {
    Normalize(p.omaId)
  }

  function NotKey(id: string): PairedPeer -> bool {
    p => Key(p) != id
  }

  /** One record per identifier. */
  predicate Distinct(ps: seq<PairedPeer>) {
    forall i, j :: 0 <= i < j < |ps| ==> Key(ps[i]) != Key(ps[j])
  }

  function ViewOf(ps: seq<PairedPeer>): Store {
    if ps == [] then map[] else ViewOf(ps[..|ps| - 1])[Key(ps[|ps| - 1]) := ps[|ps| - 1]]
  }

  lemma {:induction false} ViewKeys(ps: seq<PairedPeer>, id: string)
    ensures id in ViewOf(ps) <==> exists i :: 0 <= i < |ps| && Key(ps[i]) == id
  {
    if ps != [] {
      ViewKeys(ps[..|ps| - 1], id);
      if id in ViewOf(ps) && Key(ps[|ps| - 1]) != id {
        var i :| 0 <= i < |ps| - 1 && Key(ps[..|ps| - 1][i]) == id;
        assert Key(ps[i]) == id;
      }
      if i :| 0 <= i < |ps| && Key(ps[i]) == id {
        assert i < |ps| - 1 ==> Key(ps[..|ps| - 1][i]) == id;
      }
    }
  }

  lemma {:induction false} ViewAt(ps: seq<PairedPeer>, i: nat)
    requires Distinct(ps) && i < |ps|
    ensures Key(ps[i]) in ViewOf(ps) && ViewOf(ps)[Key(ps[i])] == ps[i]
  {
    if i < |ps| - 1 {
      ViewAt(ps[..|ps| - 1], i);
    }
  }

  lemma {:induction false} ViewUpdate(ps: seq<PairedPeer>, i: nat, p: PairedPeer)
    requires Distinct(ps) && i < |ps| && Key(p) == Key(ps[i])
    ensures Distinct(ps[i := p]) && ViewOf(ps[i := p]) == ViewOf(ps)[Key(p) := p]
  {
    var n := |ps| - 1;
    if i == n {
      assert ps[i := p][..n] == ps[..n];
    } else {
      assert ps[i := p][..n] == ps[..n][i := p];
      ViewUpdate(ps[..n], i, p);
    }
  }

  lemma {:induction false} ViewWithout(ps: seq<PairedPeer>, id: string)
    requires Distinct(ps)
    ensures Distinct(Filter(ps, NotKey(id)))
    ensures ViewOf(Filter(ps, NotKey(id))) == ViewOf(ps) - {id}
  {
    if ps != [] {
      var init, last := ps[..|ps| - 1], ps[|ps| - 1];
      assert ps == init + [last];
      ViewWithout(init, id);
      FilterLast(init, last, id);
      hide Key, Filter, ViewOf;
      var kept := Filter(init, NotKey(id));
      if Key(last) != id {
        ViewKeys(init, Key(last));
        ViewPush(init, last);
        ViewPush(kept, last);
        UpdateThenRemove(ViewOf(init), Key(last), last, id);
      } else {
        ViewKeys(init, id);
        ViewPush(init, last);
        UpdateRemoved(ViewOf(init), id, last);
        assert kept + [] == kept;
        assert Filter(ps, NotKey(id)) == kept;
      }
    }
  }

  lemma UpdateRemoved(m: map<string, PairedPeer>, id: string, p: PairedPeer)
    ensures m[id := p] - {id} == m - {id}
  {
  }

  lemma FilterLast(init: seq<PairedPeer>, last: PairedPeer, id: string)
    ensures Filter(init + [last], NotKey(id))
            == Filter(init, NotKey(id)) + if Key(last) != id then [last] else []
  {
    FilterConcat(init, [last], NotKey(id));
  }

  lemma UpdateThenRemove(m: map<string, PairedPeer>, k: string, p: PairedPeer, id: string)
    requires k != id
    ensures m[k := p] - {id} == (m - {id})[k := p]
  {
  }

  lemma ViewPush(ps: seq<PairedPeer>, p: PairedPeer)
    requires Distinct(ps) && Key(p) !in ViewOf(ps)
    ensures Distinct(ps + [p]) && ViewOf(ps + [p]) == ViewOf(ps)[Key(p) := p]
  {
    ViewKeys(ps, Key(p));
    assert (ps + [p])[..|ps|] == ps;
  }

  lemma EmptyView()
    ensures Distinct([]) && ViewOf([]) == map[]
  {
  }

  /** Dropping the records of one identifier and adding a new one. */
  lemma ViewReplace(ps: seq<PairedPeer>, id: string, p: PairedPeer)
    requires Distinct(ps) && Key(p) == id
    ensures var kept := Filter(ps, NotKey(id));
            Distinct(kept + [p]) && ViewOf(kept + [p]) == ViewOf(ps)[id := p]
  {
    ViewWithout(ps, id);
    var kept := Filter(ps, NotKey(id));
    hide Distinct, ViewOf, Key, Filter;
    ViewPush(kept, p);
    RemoveThenUpdate(ViewOf(ps), id, p);
  }

  lemma RemoveThenUpdate(m: map<string, PairedPeer>, id: string, p: PairedPeer)
    ensures (m - {id})[id := p] == m[id := p]
  {
  }

  /** Editing the first record of an identifier, or leaving it as it is. */
  lemma ViewEdit(ps: seq<PairedPeer>, i: nat, p: PairedPeer)
    requires Distinct(ps) && i < |ps| && p.omaId == ps[i].omaId
    ensures var id := Key(ps[i]);
            && id in ViewOf(ps) && ViewOf(ps)[id] == ps[i]
            && Distinct(ps[i := p]) && ViewOf(ps[i := p]) == ViewOf(ps)[id := p]
            && (p == ps[i] ==> ViewOf(ps[i := p]) == ViewOf(ps))
  {
    hide Distinct, ViewOf;
    ViewAt(ps, i);
    ViewUpdate(ps, i, p);
    if p == ps[i] {
      assert ps[i := p] == ps;
    }
  }

  /** Compares every position whatever the earlier ones held. */
  method ConstantTimeEq(a: string, b: string) returns (eq: bool)
    ensures eq <==> a == b
  {
    if |a| != |b| {
      return false;
    }
    var diff: nat := 0;
    for i := 0 to |a|
      invariant diff == 0 <==> a[..i] == b[..i]
    {
      XorZeroOnlyForEqual(a[i] as int, b[i] as int);
      OrZeroOnlyForZeros(diff, Xor(a[i] as int, b[i] as int));
      assert a[..i + 1] == a[..i] + [a[i]] && b[..i + 1] == b[..i] + [b[i]];
      diff := Or(diff, Xor(a[i] as int, b[i] as int));
    }
    assert a[..|a|] == a && b[..|b|] == b;
    eq := diff == 0;
  }

  /** `position`: the first record of `id`, or the length if there is none. */
  method Position(ps: seq<PairedPeer>, id: string) returns (idx: nat)
    ensures idx <= |ps|
    ensures idx < |ps| ==> Key(ps[idx]) == id
    ensures id in ViewOf(ps) <==> idx < |ps|
  {
    ViewKeys(ps, id);
    for i := 0 to |ps|
      invariant forall j :: 0 <= j < i ==> Key(ps[j]) != id
    {
      if Key(ps[i]) == id {
        return i;
      }
    }
    idx := |ps|;
  }

  class PairingStore {
    var file: seq<PairedPeer>

    ghost predicate Valid()
      reads this
    {
      Distinct(file)
    }

    ghost function View(): Store
      reads this
    {
      ViewOf(file)
    }

    constructor ()
      ensures Valid() && View() == map[]
    {
      file := [];
    }

    method AddPairedPeer(id: string, name: string, hint: Hint, freshToken: Option<Token>, now: u64, io: Io)
      returns (r: Reply)
      requires Valid()
      modifies this
      ensures Valid()
      ensures (View(), r) == AddStep(old(View()), id, name, hint, freshToken, now, io)
    {
      var norm := Normalize(id);
      if !OmaId.Valid(norm) {
        return Err(InvalidId);
      }
      if !io.lockOk {
        return Err(Storage);
      }
      var peers := if io.loadOk then file else [];
      var idx := Position(peers, norm);
      if idx < |peers| {
        ViewAt(peers, idx);
        return Ok(peers[idx]);
      }
      if freshToken.None? {
        return Err(NoRandomness);
      }
      var peer := NewRecord(norm, name, ParseLocalHint(hint), now, freshToken.value);
      NewRecordKey(id, name, ParseLocalHint(hint), now, freshToken.value);
      ViewPush(peers, peer);
      peers := peers + [peer];
      if !io.saveOk {
        return Err(Storage);
      }
      file := peers;
      r := Ok(peer);
    }

    method BeginLocalPairing(id: string, name: string, hint: Hint, draw: Option<Draw>, now: u64, io: Io)
      returns (r: Reply)
      requires Valid()
      modifies this
      ensures Valid()
      ensures (View(), r) == BeginStep(old(View()), id, name, hint, draw, now, io)
    {
      hide ViewOf, Distinct, Key, Filter, Normalize, OmaId.Valid, NewRecord, ParseLocalHint;
      EmptyView();
      var norm := Normalize(id);
      if !OmaId.Valid(norm) {
        return Err(InvalidId);
      }
      if !hint.Absent? && !hint.Blank? && ParseLocalHint(hint).None? {
        return Err(BadHint);
      }
      if draw.None? {
        return Err(NoRandomness);
      }
      if !io.lockOk {
        return Err(Storage);
      }
      var peers := if io.loadOk then file else [];
      var kept := Filter(peers, NotKey(norm));
      var peer := Pending(NewRecord(norm, name, ParseLocalHint(hint), now, draw.value.token), draw.value.code, now);
      NewRecordKey(id, name, ParseLocalHint(hint), now, draw.value.token);
      SameKey(peer, NewRecord(norm, name, ParseLocalHint(hint), now, draw.value.token));
      ViewReplace(peers, norm, peer);
      if !io.saveOk {
        return Err(Storage);
      }
      file := kept + [peer];
      r := Ok(peer);
    }

    method CompleteRemotePairing(id: string, code: string, sourceIp: IpAddr, now: u64, io: Io)
      returns (r: Reply)
      requires Valid()
      modifies this
      ensures Valid()
      ensures (View(), r) == CompleteStep(old(View()), id, code, sourceIp, now, io)
    {
      hide ViewOf, Distinct, Normalize, OmaId.Valid, Canonical, IsLocalNetwork, IsLoopback, IsCode;
      EmptyView();
      var source := Canonical(sourceIp);
      if !IsLocalNetwork(source) || IsLoopback(source) {
        return Err(NotAuthorized);
      }
      var norm := Normalize(id);
      if !OmaId.Valid(norm) || !IsCode(code) {
        return Err(NotAuthorized);
      }
      if !io.lockOk {
        return Err(Storage);
      }
      var peers := if io.loadOk then file else [];
      var idx := Position(peers, norm);
      if idx == |peers| {
        return Err(NotAuthorized);
      }
      var peer := peers[idx];
      var pending := !peer.confirmed && peer.pairCode.Some? && peer.expiresAt.Some? && now <= peer.expiresAt.value;
      var outcome: Reply := Err(NotAuthorized);
      if pending {
        var codeOk := ConstantTimeEq(peer.pairCode.value, code);
        var sourceOk := if peer.ip.Some? then Canonical(peer.ip.value) == source else true;
        if codeOk && sourceOk {
          peer := peer.(confirmed := true);
          peer := peer.(ip := Some(source));
          peer := peer.(pairCode := None, expiresAt := None);
          peer := peer.(failures := 0, pairedAt := now);
          outcome := Ok(peer);
        } else {
          peer := peer.(failures := if peer.failures < 0xFFFF_FFFF then peer.failures + 1 else peer.failures);
          if peer.failures >= PAIR_CODE_MAX_FAILURES {
            peer := peer.(pairCode := None, expiresAt := None);
          }
        }
      }
      ViewEdit(peers, idx, peer);
      peers := peers[idx := peer];
      if !io.saveOk {
        return Err(Storage);
      }
      file := peers;
      r := outcome;
    }

    method StoreCompletedPairing(id: string, name: string, peerIp: IpAddr, token: string, now: u64, io: Io)
      returns (r: Reply)
      requires Valid()
      modifies this
      ensures Valid()
      ensures (View(), r) == StoreDoneStep(old(View()), id, name, peerIp, token, now, io)
    {
      hide ViewOf, Distinct, Key, Filter, Normalize, OmaId.Valid, NewRecord, Canonical, IsLocalNetwork, IsToken;
      EmptyView();
      var norm := Normalize(id);
      if !OmaId.Valid(norm) {
        return Err(InvalidId);
      }
      var ip := Canonical(peerIp);
      if !IsLocalNetwork(ip) || IsLoopback(ip) {
        return Err(BadAddress);
      }
      if !IsToken(token) {
        return Err(BadToken);
      }
      if !io.lockOk {
        return Err(Storage);
      }
      var peers := if io.loadOk then file else [];
      var kept := Filter(peers, NotKey(norm));
      var peer := NewRecord(norm, name, Some(ip), now, token).(confirmed := true);
      NewRecordKey(id, name, Some(ip), now, token);
      SameKey(peer, NewRecord(norm, name, Some(ip), now, token));
      ViewReplace(peers, norm, peer);
      if !io.saveOk {
        return Err(Storage);
      }
      file := kept + [peer];
      r := Ok(peer);
    }

    method VerifyPeerAuthToken(id: string, provided: string, loadOk: bool) returns (accepted: bool)
      requires Valid()
      ensures accepted <==> loadOk && TokenAccepted(View(), id, provided)
    {
      var norm := Normalize(id);
      if |norm| != 16 {
        return false;
      }
      var peers := if loadOk then file else [];
      var idx := Position(peers, norm);
      if idx == |peers| {
        return false;
      }
      ViewAt(peers, idx);
      var peer := peers[idx];
      if !peer.confirmed {
        return false;
      }
      if peer.authToken.Some? && peer.authToken.value != [] {
        var same := ConstantTimeEq(peer.authToken.value, provided);
        return provided != [] && same;
      }
      return true;
    }
  }

  lemma SameKey(p: PairedPeer, q: PairedPeer)
    requires p.omaId == q.omaId
    ensures Key(p) == Key(q)
  {
  }

  lemma NewRecordKey(id: string, name: string, ip: Option<IpAddr>, now: u64, token: string)
    ensures Key(NewRecord(Normalize(id), name, ip, now, token)) == Normalize(id)
  {
    FormatKeepsIdentity(Normalize(id));
    NormalizeIdempotent(id);
  }
}
