/** Receiving the files of an approved transfer in src/main.rs: each upload names a file of the
    one pending transfer, and a stored file is struck off its two lists. Names are those the
    handler works with, already decoded and sanitised. */
module Transfer {
  import opened Prelude

  datatype FileInfo = FileInfo(name: string, blake3: Option<string>, sha256: Option<string>, md5: Option<string>)

  datatype Status = PendingApproval | Accepted | Rejected

  datatype PendingTransfer = PendingTransfer(
    token: string,
    status: Status,
    expiresAt: u64,
    fileNames: seq<string>,
    files: seq<FileInfo>
  )

  /** One digest: what the query and the header claim, and what the body hashes to. */
  datatype Digest = Digest(query: Option<string>, header: Option<string>, computed: string)

  /** One upload and how the outside world treats it: whether the slot can be read, the body
      arrives, the file can be written, and the slot can be saved or cleared afterwards. */
  datatype Upload = Upload(
    token: string, name: string, length: nat, now: u64,
    blake3: Digest, sha256: Digest, md5: Digest,
    readOk: bool, bodyOk: bool, writeOk: bool, saveOk: bool
  )

  datatype Response = Unauthorized | NotListed | TooLarge | NoBody | Mismatch | WriteFailed | Stored

  datatype Action = Accept | Reject | Other

  /** The user's answer to a transfer request. */
  datatype Decision = Decision(token: string, action: Action, now: u64, readOk: bool, saveOk: bool)

  /** One entry of a request's file list; an entry without a name is skipped. */
  datatype Item = Item(name: Option<string>, size: Option<u64>, blake3: Option<string>, sha256: Option<string>,
      md5: Option<string>)

  /** The query takes precedence over the header and both over the approved value. */
  predicate DigestOk(d: Digest, approved: Option<string>) {
    var expected := if d.query.Some? then d.query else if d.header.Some? then d.header else approved;
    expected.Some? ==> EqIgnoreCase(expected.value, d.computed, LowerChar)
  }

  function FirstInfo(files: seq<FileInfo>, name: string): Option<FileInfo> {
    if files == [] then None
    else if files[0].name == name then Some(files[0])
    else FirstInfo(files[1..], name)
  }

  function RemoveFirst(names: seq<string>, name: string): seq<string> {
    if names == [] then []
    else if names[0] == name then names[1..]
    else [names[0]] + RemoveFirst(names[1..], name)
  }

  function RemoveFirstInfo(files: seq<FileInfo>, name: string): seq<FileInfo> {
    if files == [] then []
    else if files[0].name == name then files[1..]
    else [files[0]] + RemoveFirstInfo(files[1..], name)
  }

  function StruckOff(p: PendingTransfer, name: string): Option<PendingTransfer> {
    var q := p.(fileNames := RemoveFirst(p.fileNames, name), files := RemoveFirstInfo(p.files, name));
    if q.fileNames == [] && q.files == [] then None else Some(q)
  }

  predicate Authorized(slot: Option<PendingTransfer>, u: Upload) {
    && u.readOk && slot.Some? && u.now <= slot.value.expiresAt
    && slot.value.token == u.token && slot.value.status == Accepted
  }

  function Verdict(slot: Option<PendingTransfer>, u: Upload): Response {
    if !Authorized(slot, u) then Unauthorized
    else
      var info := FirstInfo(slot.value.files, u.name);
      if info.None? && u.name !in slot.value.fileNames then NotListed
      else if u.length > MAX_BODY_SIZE then TooLarge
      else if !u.bodyOk then NoBody
      else if !DigestOk(u.blake3, if info.Some? then info.value.blake3 else None)
           || !DigestOk(u.sha256, if info.Some? then info.value.sha256 else None)
           || !DigestOk(u.md5, if info.Some? then info.value.md5 else None) then Mismatch
      else if !u.writeOk then WriteFailed
      else Stored
  }

  /** The slot on disk after the upload; a failed save is not noticed. */
  function SlotAfter(slot: Option<PendingTransfer>, u: Upload): Option<PendingTransfer> {
    if Verdict(slot, u) == Stored && u.saveOk then StruckOff(slot.value, u.name) else slot
  }

  /** The slot after the user's answer: accepting gives ten minutes. */
  function SlotAfterDecision(slot: Option<PendingTransfer>, d: Decision): Option<PendingTransfer> {
    if d.readOk && slot.Some? && d.now <= slot.value.expiresAt && slot.value.token == d.token && d.saveOk then
      match d.action
      case Accept => Some(slot.value.(status := Accepted, expiresAt := SaturatingAdd(d.now, 600)))
      case Reject => Some(slot.value.(status := Rejected))
      case Other => slot
    else slot
  }

  function Lower(s: Option<string>): Option<string> {
    if s.Some? then Some(seq(|s.value|, i requires 0 <= i < |s.value| => LowerChar(s.value[i]))) else None
  }

  /** The files a request lists, their names made safe by `clean`. */
  function Listed(items: seq<Item>, clean: string -> string): seq<FileInfo> {
    if items == [] then []
    else
      var last := items[|items| - 1];
      Listed(items[..|items| - 1], clean)
      + (if last.name.Some?
         then [FileInfo(clean(last.name.value), Lower(last.blake3), Lower(last.sha256), Lower(last.md5))]
         else [])
  }

  function TotalSize(items: seq<Item>): u64 {
    if items == [] then 0
    else
      var last := items[|items| - 1];
      var before := TotalSize(items[..|items| - 1]);
      if last.name.Some? then SaturatingAdd(before, if last.size.Some? then last.size.value else 0) else before
  }

  class Receiver {
    var slot: Option<PendingTransfer>
    var stored: seq<string>

    constructor (p: PendingTransfer)
      ensures slot == Some(p) && stored == []
    {
      slot, stored := Some(p), [];
    }

    /** A request that fits on the disk takes the slot over, whatever was in it. */
    method HandleRequest(items: seq<Item>, clean: string -> string, avail: Option<u64>, token: string,
                         trusted: bool, now: u64, saveOk: bool) returns (ok: bool)
      modifies this
      ensures ok <==> avail.None? || SaturatingAdd(TotalSize(items), DISK_HEADROOM) <= avail.value
      ensures ok && saveOk ==>
                && slot.Some? && InLockstep(slot)
                && slot.value.files == Listed(items, clean) && slot.value.token == token
      ensures ok && saveOk ==> slot.value.status == (if trusted then Accepted else PendingApproval)
                               && slot.value.expiresAt == SaturatingAdd(now, if trusted then 600 else 30)
      ensures !(ok && saveOk) ==> slot == old(slot)
      ensures stored == if ok && saveOk then [] else old(stored)
    {
      var names: seq<string>, files: seq<FileInfo> := [], [];
      var total: u64 := 0;
      for i := 0 to |items|
        invariant files == Listed(items[..i], clean) && names == Names(files)
        invariant total == TotalSize(items[..i])
        invariant slot == old(slot) && stored == old(stored)
      {
        assert items[..i + 1][..i] == items[..i];
        var item := items[i];
        if item.name.Some? {
          var name := clean(item.name.value);
          names := names + [name];
          files := files + [FileInfo(name, Lower(item.blake3), Lower(item.sha256), Lower(item.md5))];
          total := SaturatingAdd(total, if item.size.Some? then item.size.value else 0);
        }
      }
      assert items[..|items|] == items;
      if avail.Some? && SaturatingAdd(total, DISK_HEADROOM) > avail.value {
        return false;
      }
      if saveOk {
        var status := if trusted then Accepted else PendingApproval;
        slot := Some(PendingTransfer(token, status, SaturatingAdd(now, if trusted then 600 else 30), names, files));
        stored := [];
      }
      return true;
    }

    method HandleDecision(d: Decision) returns (ok: bool)
      modifies this
      ensures slot == SlotAfterDecision(old(slot), d) && stored == old(stored)
      ensures ok <==> d.readOk && old(slot).Some? && d.now <= old(slot).value.expiresAt
                      && old(slot).value.token == d.token && d.action != Other
    {
      if d.readOk && slot.Some? && d.now <= slot.value.expiresAt {
        var pending := slot.value;
        if pending.token == d.token {
          if d.action == Accept {
            pending := pending.(status := Accepted, expiresAt := SaturatingAdd(d.now, 600));
            slot := if d.saveOk then Some(pending) else slot;
            return true;
          } else if d.action == Reject {
            pending := pending.(status := Rejected);
            slot := if d.saveOk then Some(pending) else slot;
            return true;
          }
        }
      }
      return false;
    }

    method HandleUpload(u: Upload) returns (r: Response)
      modifies this
      ensures r == Verdict(old(slot), u)
      ensures slot == SlotAfter(old(slot), u)
      ensures stored == if r == Stored then old(stored) + [u.name] else old(stored)
    {
      if !u.readOk || slot.None? || u.now > slot.value.expiresAt {
        return Unauthorized;
      }
      var pending := slot.value;
      if pending.token != u.token || pending.status != Accepted {
        return Unauthorized;
      }
      var info := FirstInfo(pending.files, u.name);
      if info.None? && u.name !in pending.fileNames {
        return NotListed;
      }
      if u.length > MAX_BODY_SIZE {
        return TooLarge;
      }
      if !u.bodyOk {
        return NoBody;
      }
      if !DigestOk(u.blake3, if info.Some? then info.value.blake3 else None) {
        return Mismatch;
      }
      if !DigestOk(u.sha256, if info.Some? then info.value.sha256 else None) {
        return Mismatch;
      }
      if !DigestOk(u.md5, if info.Some? then info.value.md5 else None) {
        return Mismatch;
      }
      if !u.writeOk {
        return WriteFailed;
      }
      stored := stored + [u.name];
      var names := StrikeName(pending.fileNames, u.name);
      var files := StrikeInfo(pending.files, u.name);
      pending := pending.(fileNames := names, files := files);
      if u.saveOk {
        slot := if names == [] && files == [] then None else Some(pending);
      }
      return Stored;
    }
  }

  /** Finds the first position and removes it, if there is one. */
  method StrikeName(names: seq<string>, name: string) returns (r: seq<string>)
    ensures r == RemoveFirst(names, name)
  {
    var pos := 0;
    RemovalStarts(names, name);
    hide RemoveFirst;
    while pos < |names|
      invariant 0 <= pos <= |names|
      invariant RemoveFirst(names, name) == names[..pos] + RemoveFirst(names[pos..], name)
    {
      RemovalGoesOn(names, name, pos);
      if names[pos] == name {
        return names[..pos] + names[pos + 1..];
      }
      pos := pos + 1;
    }
    r := names;
  }

  lemma RemovalStarts(names: seq<string>, name: string)
    ensures RemoveFirst(names, name) == names[..0] + RemoveFirst(names[0..], name)
    ensures names[..|names|] + RemoveFirst(names[|names|..], name) == names
  {
    assert names[0..] == names && names[..|names|] == names && names[|names|..] == [];
  }

  lemma RemovalGoesOn(names: seq<string>, name: string, pos: nat)
    requires pos < |names|
    ensures names[..pos] + RemoveFirst(names[pos..], name)
            == if names[pos] == name then names[..pos] + names[pos + 1..]
               else names[..pos + 1] + RemoveFirst(names[pos + 1..], name)
  {
    assert names[pos..][1..] == names[pos + 1..];
    assert names[..pos + 1] == names[..pos] + [names[pos]];
  }

  method StrikeInfo(files: seq<FileInfo>, name: string) returns (r: seq<FileInfo>)
    ensures r == RemoveFirstInfo(files, name)
  {
    var pos := 0;
    InfoRemovalStarts(files, name);
    hide RemoveFirstInfo;
    while pos < |files|
      invariant 0 <= pos <= |files|
      invariant RemoveFirstInfo(files, name) == files[..pos] + RemoveFirstInfo(files[pos..], name)
    {
      InfoRemovalGoesOn(files, name, pos);
      if files[pos].name == name {
        return files[..pos] + files[pos + 1..];
      }
      pos := pos + 1;
    }
    r := files;
  }

  lemma InfoRemovalStarts(files: seq<FileInfo>, name: string)
    ensures RemoveFirstInfo(files, name) == files[..0] + RemoveFirstInfo(files[0..], name)
    ensures files[..|files|] + RemoveFirstInfo(files[|files|..], name) == files
  {
    assert files[0..] == files && files[..|files|] == files && files[|files|..] == [];
  }

  lemma InfoRemovalGoesOn(files: seq<FileInfo>, name: string, pos: nat)
    requires pos < |files|
    ensures files[..pos] + RemoveFirstInfo(files[pos..], name)
            == if files[pos].name == name then files[..pos] + files[pos + 1..]
               else files[..pos + 1] + RemoveFirstInfo(files[pos + 1..], name)
  {
    assert files[pos..][1..] == files[pos + 1..];
    assert files[..pos + 1] == files[..pos] + [files[pos]];
  }

  // ------------------------------------------------------------------ whole transfers

  function Names(files: seq<FileInfo>): seq<string> {
    seq(|files|, i requires 0 <= i < |files| => files[i].name)
  }

  /** The two lists name the same files in the same order. */
  predicate InLockstep(slot: Option<PendingTransfer>) {
    slot.Some? ==> slot.value.fileNames == Names(slot.value.files)
  }

  function Remaining(slot: Option<PendingTransfer>): multiset<string> {
    if slot.Some? then multiset(slot.value.fileNames) else multiset{}
  }

  datatype Event = Uploading(u: Upload) | Deciding(d: Decision)

  function SlotAfterEvent(slot: Option<PendingTransfer>, e: Event): Option<PendingTransfer> {
    match e
    case Uploading(u) => SlotAfter(slot, u)
    case Deciding(d) => SlotAfterDecision(slot, d)
  }

  /** What the event stores, and what it stores without striking it off. */
  function Gain(slot: Option<PendingTransfer>, e: Event): multiset<string> {
    if e.Uploading? && Verdict(slot, e.u) == Stored then multiset{e.u.name} else multiset{}
  }

  function Loss(slot: Option<PendingTransfer>, e: Event): multiset<string> {
    if e.Uploading? && Verdict(slot, e.u) == Stored && !e.u.saveOk then multiset{e.u.name} else multiset{}
  }

  function SlotOf(start: PendingTransfer, run: seq<Event>): Option<PendingTransfer> {
    if run == [] then Some(start) else SlotAfterEvent(SlotOf(start, run[..|run| - 1]), run[|run| - 1])
  }

  function StoredBy(start: PendingTransfer, run: seq<Event>): multiset<string> {
    if run == [] then multiset{}
    else StoredBy(start, run[..|run| - 1]) + Gain(SlotOf(start, run[..|run| - 1]), run[|run| - 1])
  }

  /** The files stored by uploads whose slot could not be saved afterwards. */
  function UnsavedBy(start: PendingTransfer, run: seq<Event>): multiset<string> {
    if run == [] then multiset{}
    else UnsavedBy(start, run[..|run| - 1]) + Loss(SlotOf(start, run[..|run| - 1]), run[|run| - 1])
  }

  lemma {:induction false} RemoveFirstTakesOne(names: seq<string>, name: string)
    ensures name in names ==> multiset(RemoveFirst(names, name)) == multiset(names) - multiset{name}
    ensures name in names ==> |RemoveFirst(names, name)| == |names| - 1
    ensures name !in names ==> RemoveFirst(names, name) == names
  {
    if names != [] {
      assert names == [names[0]] + names[1..];
      RemoveFirstTakesOne(names[1..], name);
    }
  }

  lemma {:induction false} RemovalKeepsLockstep(files: seq<FileInfo>, name: string)
    ensures Names(RemoveFirstInfo(files, name)) == RemoveFirst(Names(files), name)
    ensures FirstInfo(files, name).Some? <==> name in Names(files)
  {
    if files != [] {
      RemovalKeepsLockstep(files[1..], name);
      assert Names(files)[1..] == Names(files[1..]);
      assert Names(files) == [files[0].name] + Names(files[1..]);
    }
  }

  /** A stored file is one unit less remaining exactly if the slot could be saved. */
  lemma StepConservesExactly(slot: Option<PendingTransfer>, u: Upload)
    requires InLockstep(slot) && Verdict(slot, u) == Stored
    ensures InLockstep(SlotAfter(slot, u))
    ensures u.name in Remaining(slot)
    ensures !u.saveOk ==> SlotAfter(slot, u) == slot
    ensures Remaining(SlotAfter(slot, u)) + multiset{u.name} == Remaining(slot) <==> u.saveOk
    ensures u.saveOk ==> (SlotAfter(slot, u).None? <==> |Remaining(slot)| == 1)
  {
    RemovalKeepsLockstep(slot.value.files, u.name);
    RemoveFirstTakesOne(slot.value.fileNames, u.name);
    var names := RemoveFirst(slot.value.fileNames, u.name);
    assert |names| == |slot.value.fileNames| - 1;
    assert Names(RemoveFirstInfo(slot.value.files, u.name)) == names;
    if !u.saveOk {
      assert |Remaining(slot) + multiset{u.name}| == |Remaining(slot)| + 1;
    }
  }

  predicate SavesSucceed(run: seq<Event>) {
    forall i :: 0 <= i < |run| && run[i].Uploading? ==> run[i].u.saveOk
  }

  /** Through any sequence of uploads, what is stored and what remains add up to what was
      approved plus the unsaved files, and the lists stay in step. */
  lemma {:induction false} UploadsConserve(start: PendingTransfer, run: seq<Event>)
    requires InLockstep(Some(start))
    ensures InLockstep(SlotOf(start, run))
    ensures multiset(start.fileNames) + UnsavedBy(start, run) == Remaining(SlotOf(start, run)) + StoredBy(start, run)
    ensures SavesSucceed(run) ==> UnsavedBy(start, run) == multiset{}
  {
    if run != [] {
      var past, e := run[..|run| - 1], run[|run| - 1];
      UploadsConserve(start, past);
      assert SavesSucceed(run) ==> SavesSucceed(past) && (e.Uploading? ==> e.u.saveOk);
      EventConserves(SlotOf(start, past), e, multiset(start.fileNames), UnsavedBy(start, past), StoredBy(start, past));
    }
  }

  lemma EventConserves(slot: Option<PendingTransfer>, e: Event, all: multiset<string>, lost: multiset<string>,
      kept: multiset<string>)
    requires InLockstep(slot) && all + lost == Remaining(slot) + kept
    ensures InLockstep(SlotAfterEvent(slot, e))
    ensures all + (lost + Loss(slot, e)) == Remaining(SlotAfterEvent(slot, e)) + (kept + Gain(slot, e))
  {
    assert lost + multiset{} == lost && kept + multiset{} == kept;
    if e.Uploading? && Verdict(slot, e.u) == Stored {
      var u := e.u;
      StepConservesExactly(slot, u);
      assert Gain(slot, e) == multiset{u.name};
      assert Loss(slot, e) == if u.saveOk then multiset{} else multiset{u.name};
      hide Verdict, SlotAfter, Remaining, InLockstep;
      if u.saveOk {
        BalanceKept(all, lost, Remaining(slot), Remaining(SlotAfter(slot, u)), kept, u.name);
      } else {
        BothGain(all, lost, Remaining(slot), kept, u.name);
      }
    }
  }

  lemma BothGain(all: multiset<string>, lost: multiset<string>, left: multiset<string>, kept: multiset<string>,
      name: string)
    requires all + lost == left + kept
    ensures all + (lost + multiset{name}) == left + (kept + multiset{name})
  {
    assert all + (lost + multiset{name}) == (all + lost) + multiset{name};
    assert left + (kept + multiset{name}) == (left + kept) + multiset{name};
  }

  lemma BalanceKept(all: multiset<string>, lost: multiset<string>, was: multiset<string>, left: multiset<string>,
                    kept: multiset<string>, name: string)
    requires all + lost == was + kept && left + multiset{name} == was
    ensures all + lost == left + (kept + multiset{name})
  {
  }

  lemma BalanceOrders(all: multiset<string>, lost: multiset<string>, left: multiset<string>, kept: multiset<string>)
    requires all + lost == left + kept
    ensures kept <= all <==> lost <= left
  {
    assert forall x :: all[x] + lost[x] == (all + lost)[x] == left[x] + kept[x];
  }

  /** The excess over what was approved is what was stored without being struck off, once
      nothing remains. */
  lemma ExcessIsUnsaved(start: PendingTransfer, run: seq<Event>)
    requires InLockstep(Some(start))
    ensures StoredBy(start, run) <= multiset(start.fileNames)
            <==> UnsavedBy(start, run) <= Remaining(SlotOf(start, run))
    ensures SavesSucceed(run) ==> StoredBy(start, run) <= multiset(start.fileNames)
  {
    UploadsConserve(start, run);
    hide SlotOf, StoredBy, Remaining;
    BalanceOrders(multiset(start.fileNames), UnsavedBy(start, run), Remaining(SlotOf(start, run)),
        StoredBy(start, run));
  }

  /** Event `i` stored a file, and the slot could not be saved afterwards. */
  predicate SaveFailedAt(start: PendingTransfer, run: seq<Event>, i: nat)
    requires i < |run|
  {
    run[i].Uploading? && Verdict(SlotOf(start, run[..i]), run[i].u) == Stored && !run[i].u.saveOk
  }

  lemma {:induction false} UnsavedExactlyIfASaveFailed(start: PendingTransfer, run: seq<Event>)
    ensures UnsavedBy(start, run) != multiset{} <==> exists i :: 0 <= i < |run| && SaveFailedAt(start, run, i)
  {
    if run != [] {
      var n := |run| - 1;
      var past, loss := run[..n], Loss(SlotOf(start, run[..n]), run[n]);
      UnsavedExactlyIfASaveFailed(start, past);
      LastFailure(start, run);
      EarlierFailures(start, run);
      hide Loss, SlotOf, UnsavedBy, SaveFailedAt;
      if UnsavedBy(start, past) != multiset{} {
        OnePartIsEnough(UnsavedBy(start, past), loss);
      } else {
        assert UnsavedBy(start, run) == loss;
      }
    }
  }

  lemma LastFailure(start: PendingTransfer, run: seq<Event>)
    requires run != []
    ensures var n := |run| - 1;
            var loss := Loss(SlotOf(start, run[..n]), run[n]);
            && UnsavedBy(start, run) == UnsavedBy(start, run[..n]) + loss
            && (loss != multiset{} <==> SaveFailedAt(start, run, n))
  {
    hide SlotOf, Verdict;
  }

  lemma EarlierFailures(start: PendingTransfer, run: seq<Event>)
    requires run != []
    ensures var past := run[..|run| - 1];
            forall i :: 0 <= i < |past| ==> (SaveFailedAt(start, run, i) <==> SaveFailedAt(start, past, i))
  {
    hide Verdict, SlotOf;
    var past := run[..|run| - 1];
    forall i | 0 <= i < |past| ensures SaveFailedAt(start, run, i) <==> SaveFailedAt(start, past, i) {
      assert past[..i] == run[..i];
    }
  }

  lemma OnePartIsEnough(a: multiset<string>, b: multiset<string>)
    requires a != multiset{}
    ensures a + b != multiset{}
  {
    assert |a + b| == |a| + |b|;
  }

  lemma SavedLosesNothing(slot: Option<PendingTransfer>, e: Event)
    requires e.Uploading? ==> e.u.saveOk
    ensures Loss(slot, e) == multiset{}
  {
    hide Verdict;
  }

  lemma {:induction false} SavedLoseNothing(start: PendingTransfer, run: seq<Event>, more: seq<Event>)
    requires SavesSucceed(more)
    ensures UnsavedBy(start, run + more) == UnsavedBy(start, run)
  {
    hide SlotOf, Loss;
    if more == [] {
      assert run + more == run;
    } else {
      var all, init, last := run + more, more[..|more| - 1], more[|more| - 1];
      assert all[..|all| - 1] == run + init && all[|all| - 1] == last;
      SavedLoseNothing(start, run, init);
      SavedLosesNothing(SlotOf(start, run + init), last);
    }
  }

  predicate AllAt(run: seq<Event>, now: u64) {
    forall e :: e in run ==> now == if e.Uploading? then e.u.now else e.d.now
  }

  predicate Alive(slot: Option<PendingTransfer>, now: u64) {
    slot.Some? ==> now <= slot.value.expiresAt
  }

  /** An upload of `f` that carries what was approved. */
  function Matching(computed: Option<string>): Digest {
    Digest(None, None, if computed.Some? then computed.value else "")
  }

  function NextUpload(p: PendingTransfer, now: u64): Upload
    requires p.files != []
  {
    var f := p.files[0];
    Upload(p.token, f.name, 0, now, Matching(f.blake3), Matching(f.sha256), Matching(f.md5), true, true, true, true)
  }

  lemma NextUploadIsStored(p: PendingTransfer, now: u64)
    requires InLockstep(Some(p)) && p.files != [] && p.status == Accepted && now <= p.expiresAt
    ensures var u := NextUpload(p, now);
            && Verdict(Some(p), u) == Stored
            && InLockstep(SlotAfter(Some(p), u)) && Alive(SlotAfter(Some(p), u), now)
            && |Remaining(SlotAfter(Some(p), u))| == |p.files| - 1
  {
    var u := NextUpload(p, now);
    assert FirstInfo(p.files, u.name) == Some(p.files[0]);
    StepConservesExactly(Some(p), u);
    assert |Remaining(SlotAfter(Some(p), u)) + multiset{u.name}| == |Remaining(SlotAfter(Some(p), u))| + 1;
  }

  /** What brings an open transfer on: the user accepts, or the sender uploads what is next. */
  function NextEvent(p: PendingTransfer, now: u64): Event
    requires p.files != []
  {
    if p.status == Accepted then Uploading(NextUpload(p, now)) else Deciding(Decision(p.token, Accept, now, true, true))
  }

  /** What is left to do: files, and the user's answer. */
  function FilesLeft(slot: Option<PendingTransfer>): nat {
    |Remaining(slot)|
  }

  function AnswersLeft(slot: Option<PendingTransfer>): nat {
    if slot.Some? && slot.value.status == Accepted then 0 else 1
  }

  lemma NextEventLeavesLess(p: PendingTransfer, now: u64)
    requires InLockstep(Some(p)) && p.files != [] && now <= p.expiresAt
    ensures var e := NextEvent(p, now);
            var next := SlotAfterEvent(Some(p), e);
            && SavesSucceed([e]) && AllAt([e], now) && InLockstep(next) && Alive(next, now)
            && (FilesLeft(next) < FilesLeft(Some(p))
                || (FilesLeft(next) == FilesLeft(Some(p)) && AnswersLeft(next) < AnswersLeft(Some(p))))
  {
    if p.status == Accepted {
      NextUploadIsStored(p, now);
      hide Verdict, StruckOff;
    }
  }

  lemma OneMoreEvent(start: PendingTransfer, run: seq<Event>, e: Event)
    ensures SlotOf(start, run + [e]) == SlotAfterEvent(SlotOf(start, run), e)
  {
    hide SlotAfterEvent;
    assert (run + [e])[..|run|] == run;
  }

  lemma NothingLeft(slot: Option<PendingTransfer>)
    requires InLockstep(slot) && (slot.None? || slot.value.files == [])
    ensures Remaining(slot) == multiset{}
  {
  }

  /** The user accepts if need be, and the sender uploads all that remains. */
  lemma {:induction false} FinishAll(start: PendingTransfer, run: seq<Event>, now: u64) returns (more: seq<Event>)
    requires InLockstep(SlotOf(start, run)) && Alive(SlotOf(start, run), now)
    ensures SavesSucceed(more) && AllAt(more, now)
    ensures Remaining(SlotOf(start, run + more)) == multiset{}
    decreases FilesLeft(SlotOf(start, run)), AnswersLeft(SlotOf(start, run))
  {
    hide SlotOf, SlotAfterEvent, NextEvent, FilesLeft, AnswersLeft, Remaining, InLockstep;
    var slot := SlotOf(start, run);
    if slot.None? || slot.value.files == [] {
      more := [];
      assert run + more == run;
      NothingLeft(slot);
    } else {
      var e := NextEvent(slot.value, now);
      NextEventLeavesLess(slot.value, now);
      OneMoreEvent(start, run, e);
      var rest := FinishAll(start, run + [e], now);
      more := [e] + rest;
      assert run + more == run + [e] + rest;
      assert [e][0] == e;
    }
  }

  /** Some way to go on from here, with every save succeeding from now on, stores more than
      was approved. */
  ghost predicate CanExceed(start: PendingTransfer, run: seq<Event>, now: u64) {
    exists more :: SavesSucceed(more) && AllAt(more, now) && !(StoredBy(start, run + more) <= multiset(start.fileNames))
  }

  /** While a transfer is still open, more can come to be stored than was approved exactly if
      the save after some stored file has failed. */
  lemma NeverMoreThanApprovedExactly(start: PendingTransfer, run: seq<Event>, now: u64)
    requires InLockstep(Some(start)) && Alive(SlotOf(start, run), now)
    ensures CanExceed(start, run, now) <==> exists i :: 0 <= i < |run| && SaveFailedAt(start, run, i)
  {
    UnsavedExactlyIfASaveFailed(start, run);
    UploadsConserve(start, run);
    hide SlotOf, StoredBy, UnsavedBy, SaveFailedAt, InLockstep;
    if CanExceed(start, run, now) {
      var more :| SavesSucceed(more) && AllAt(more, now) && !(StoredBy(start, run + more) <= multiset(start.fileNames));
      SavedLoseNothing(start, run, more);
      ExcessIsUnsaved(start, run + more);
    }
    if UnsavedBy(start, run) != multiset{} {
      var more := FinishAll(start, run, now);
      SavedLoseNothing(start, run, more);
      ExcessIsUnsaved(start, run + more);
    }
  }

  /** A run in which it happens: one file approved, stored twice because the first save failed. */
  lemma {:induction false} OneFileStoredTwice(start: PendingTransfer)
    requires InLockstep(Some(start)) && |start.files| == 1 && start.status == Accepted
    ensures var u := NextUpload(start, 0);
            StoredBy(start, [Uploading(u.(saveOk := false)), Uploading(u)])
            == multiset{start.files[0].name, start.files[0].name}
  {
    var u := NextUpload(start, 0);
    var first, second := Uploading(u.(saveOk := false)), Uploading(u);
    NextUploadIsStored(start, 0);
    var run := [first, second];
    assert run[..1] == [first] && [first][..0] == [];
    assert Verdict(Some(start), u.(saveOk := false)) == Verdict(Some(start), u);
    hide Verdict;
    assert SlotOf(start, []) == Some(start) && SlotOf(start, [first]) == Some(start);
    assert StoredBy(start, [first]) == StoredBy(start, []) + Gain(Some(start), first);
    assert StoredBy(start, run) == StoredBy(start, [first]) + Gain(Some(start), second);
  }

  /** In every run the slot is cleared exactly when something was approved and all of it,
      besides what could not be struck off, has been stored; if all saves succeed, exactly
      when every approved file has been stored. */
  lemma {:induction false} ClearedExactlyWhenComplete(start: PendingTransfer, run: seq<Event>)
    requires InLockstep(Some(start))
    ensures SlotOf(start, run).None?
            <==> start.fileNames != [] && StoredBy(start, run) == multiset(start.fileNames) + UnsavedBy(start, run)
    ensures SavesSucceed(run) && start.fileNames != [] ==>
              (SlotOf(start, run).None? <==> StoredBy(start, run) == multiset(start.fileNames))
  {
    UploadsConserve(start, run);
    var slot, all, lost := SlotOf(start, run), multiset(start.fileNames), UnsavedBy(start, run);
    if start.fileNames == [] {
      EmptyStaysOpen(start, run);
    } else {
      SlotNeverEmpty(start, run);
      assert all + lost == Remaining(slot) + StoredBy(start, run);
      hide SlotOf, StoredBy, UnsavedBy;
      if slot.Some? {
        assert slot.value.fileNames[0] in Remaining(slot);
        assert (all + lost)[slot.value.fileNames[0]] > StoredBy(start, run)[slot.value.fileNames[0]];
      } else {
        assert Remaining(slot) == multiset{};
      }
    }
  }

  lemma {:induction false} EmptyStaysOpen(start: PendingTransfer, run: seq<Event>)
    requires InLockstep(Some(start)) && start.fileNames == []
    ensures InLockstep(SlotOf(start, run)) && SlotOf(start, run).Some? && SlotOf(start, run).value.fileNames == []
  {
    if run != [] {
      var past, e := run[..|run| - 1], run[|run| - 1];
      EmptyStaysOpen(start, past);
      if e.Uploading? && Verdict(SlotOf(start, past), e.u) == Stored {
        StepConservesExactly(SlotOf(start, past), e.u);
      }
    }
  }

  lemma {:induction false} SlotNeverEmpty(start: PendingTransfer, run: seq<Event>)
    requires InLockstep(Some(start)) && start.fileNames != []
    ensures InLockstep(SlotOf(start, run)) && (SlotOf(start, run).Some? ==> SlotOf(start, run).value.fileNames != [])
  {
    if run != [] {
      var past, e := run[..|run| - 1], run[|run| - 1];
      SlotNeverEmpty(start, past);
      if e.Uploading? && Verdict(SlotOf(start, past), e.u) == Stored {
        StepConservesExactly(SlotOf(start, past), e.u);
      }
    }
  }

  predicate Accepts(e: Event, token: string) {
    e.Deciding? && e.d.action == Accept && e.d.token == token
  }

  /** Until the user accepts under this very token, an untrusted sender stores nothing. */
  lemma {:induction false} NothingStoredBeforeAcceptance(start: PendingTransfer, run: seq<Event>)
    requires start.status != Accepted && forall e :: e in run ==> !Accepts(e, start.token)
    ensures StoredBy(start, run) == multiset{} && SlotOf(start, run).Some?
    ensures SlotOf(start, run).value.status != Accepted && SlotOf(start, run).value.token == start.token
  {
    if run != [] {
      var past, e := run[..|run| - 1], run[|run| - 1];
      NothingStoredBeforeAcceptance(start, past);
      assert e in run;
      assert e.Uploading? ==> Verdict(SlotOf(start, past), e.u) == Unauthorized;
    }
  }
}
