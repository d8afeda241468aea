/** Reading one HTTP request in src/main.rs: the header block and then the body, from a stream
    that hands out its bytes in pieces of any size. Where the block and the body begin and end
    is proved for any way to read a length out of the block, and the connection uses the one of
    HeaderText.dfy. */
module HttpReader {
  import opened Prelude
  import HeaderText
  import Utf8
  import Staging

  const MAX_HEADER_SIZE: nat := 65536
  const HEADER_CHUNK: nat := 4096
  const IN_MEMORY_BODY_LIMIT: nat := 1024 * 1024
  const MEMORY_CHUNK: nat := 8192
  const STAGE_CHUNK: nat := 131072
  const BLANK_LINE: Bytes := [13, 10, 13, 10]

  /** How the transport treats one read: it has some bytes ready, or fails or times out. */
  datatype Cut = Deliver(ready: nat) | Failure

  /** The number of bytes one read returns; 0 only at the end of the stream. */
  function ReadSize(rest: Bytes, ready: nat, max: nat): nat {
    Min(|rest|, Min(max, if ready == 0 then 1 else ready))
  }

  // ------------------------------------------------------------- end of the header

  /** One past the first blank line at or after `i`. */
  function EndFrom(b: Bytes, i: nat): (r: Option<nat>)
    ensures r.Some? ==> i + 4 <= r.value <= |b|
    decreases |b| - i
  {
    if i + 4 > |b| then None
    else if b[i..i + 4] == BLANK_LINE then Some(i + 4)
    else EndFrom(b, i + 1)
  }

  function HeaderEnd(b: Bytes): Option<nat> {
    EndFrom(b, 0)
  }

  lemma {:induction false} EndFromPrefix(b: Bytes, i: nat, k: nat)
    requires k <= |b|
    ensures EndFrom(b[..k], i) == if EndFrom(b, i).Some? && EndFrom(b, i).value <= k then EndFrom(b, i) else None
    decreases |b| - i
  {
    if i + 4 <= |b| {
      if i + 4 <= k {
        assert b[..k][i..i + 4] == b[i..i + 4];
      }
      EndFromPrefix(b, i + 1, k);
    }
  }

  // ------------------------------------------------------------ the header loop

  datatype Filled = Found(buf: Bytes, end: nat, rest: Bytes, cuts: seq<Cut>) | Rejected

  /** The reader's loop: append reads of at most 4096 bytes until a blank line is in the
      buffer; what exceeds 64 KiB is cut off. */
  function Fill(buf: Bytes, rest: Bytes, cuts: seq<Cut>): (r: Filled)
    ensures r.Found? ==> 4 <= r.end <= |r.buf|
    decreases |cuts|
  {
    match HeaderEnd(buf)
    case Some(e) => Found(buf, e, rest, cuts)
    case None =>
      if |buf| >= MAX_HEADER_SIZE || cuts == [] || cuts[0].Failure? then Rejected
      else
        var n := ReadSize(rest, cuts[0].ready, HEADER_CHUNK);
        if n == 0 then Rejected
        else
          var take := Min(n, MAX_HEADER_SIZE - |buf|);
          var more := buf + rest[..take];
          if n > take then
            match HeaderEnd(more)
            case None => Rejected
            case Some(e) => Found(more, e, rest[n..], cuts[1..])
          else Fill(more, rest[n..], cuts[1..])
  }

  /** No read fails, and there are enough of them to exhaust the stream one byte at a time. */
  predicate Clean(cuts: seq<Cut>, rest: Bytes) {
    (forall i :: 0 <= i < |cuts| ==> cuts[i].Deliver?) && |cuts| > |rest|
  }

  predicate HeaderFits(all: Bytes) {
    HeaderEnd(all).Some? && HeaderEnd(all).value <= MAX_HEADER_SIZE
  }

  /** What is handed on: the buffer is a prefix of the stream, the block ends at the first
      blank line, and bytes are lost only if the buffer is full. */
  predicate Faithful(all: Bytes, r: Filled)
    requires r.Found?
  {
    && HeaderEnd(all) == Some(r.end) && r.end <= |r.buf| <= MAX_HEADER_SIZE
    && |r.buf| + |r.rest| <= |all|
    && r.buf == all[..|r.buf|] && r.rest == all[|all| - |r.rest|..]
    && (|r.buf| + |r.rest| < |all| ==> |r.buf| == MAX_HEADER_SIZE)
  }

  lemma {:induction false} FillIsFaithful(buf: Bytes, rest: Bytes, cuts: seq<Cut>)
    requires |buf| <= MAX_HEADER_SIZE
    ensures Fill(buf, rest, cuts).Found? ==> HeaderFits(buf + rest) && Faithful(buf + rest, Fill(buf, rest, cuts))
    decreases |cuts|
  {
    hide EndFrom;
    var all := buf + rest;
    EndFromPrefix(all, 0, |buf|);
    assert all[..|buf|] == buf;
    if HeaderEnd(buf).None? && |buf| < MAX_HEADER_SIZE && cuts != [] && cuts[0].Deliver? {
      var n := ReadSize(rest, cuts[0].ready, HEADER_CHUNK);
      var take := Min(n, MAX_HEADER_SIZE - |buf|);
      var more := buf + rest[..take];
      assert all[..|more|] == more;
      EndFromPrefix(all, 0, |more|);
      if n > 0 && n <= take {
        assert more + rest[n..] == all;
        FillIsFaithful(more, rest[n..], cuts[1..]);
      }
    }
  }

  lemma HeaderEndOfPrefix(all: Bytes, part: Bytes)
    requires part <= all
    ensures HeaderEnd(part) == if HeaderEnd(all).Some? && HeaderEnd(all).value <= |part| then HeaderEnd(all) else None
    ensures HeaderEnd(all).Some? ==> 4 <= HeaderEnd(all).value <= |all|
  {
    EndFromPrefix(all, 0, |part|);
    assert all[..|part|] == part;
  }

  lemma {:induction false} FillSucceedsExactly(buf: Bytes, rest: Bytes, cuts: seq<Cut>)
    requires |buf| <= MAX_HEADER_SIZE && Clean(cuts, rest)
    ensures Fill(buf, rest, cuts).Found? <==> HeaderFits(buf + rest)
    decreases |cuts|
  {
    hide HeaderEnd;
    var all := buf + rest;
    HeaderEndOfPrefix(all, buf);
    if HeaderEnd(buf).None? && |buf| < MAX_HEADER_SIZE {
      var n := ReadSize(rest, cuts[0].ready, HEADER_CHUNK);
      if n == 0 {
        assert all == buf;
      } else {
        var take := Min(n, MAX_HEADER_SIZE - |buf|);
        var more := buf + rest[..take];
        HeaderEndOfPrefix(all, more);
        if n <= take {
          assert more + rest[n..] == all;
          FillSucceedsExactly(more, rest[n..], cuts[1..]);
        }
      }
    }
  }

  /** The bytes after the header block, as the body reader sees them, are all there. */
  predicate FramesExactly(all: Bytes, cuts: seq<Cut>) {
    var r := Fill([], all, cuts);
    r.Found? ==> r.end <= |all| && r.buf[r.end..] + r.rest == all[r.end..]
  }

  /** The last header end for which no read can cross the cap before the end is seen. */
  const SAFE_HEADER_END: nat := MAX_HEADER_SIZE - HEADER_CHUNK + 1

  lemma {:induction false} NoLossBelowTheCap(buf: Bytes, rest: Bytes, cuts: seq<Cut>)
    requires |buf| <= MAX_HEADER_SIZE
    requires |buf + rest| <= MAX_HEADER_SIZE
             || (HeaderEnd(buf + rest).Some? && HeaderEnd(buf + rest).value <= SAFE_HEADER_END)
    ensures var r := Fill(buf, rest, cuts); r.Found? ==> |r.buf| + |r.rest| == |buf + rest|
    decreases |cuts|
  {
    hide EndFrom;
    var all := buf + rest;
    EndFromPrefix(all, 0, |buf|);
    assert all[..|buf|] == buf;
    if HeaderEnd(buf).None? && |buf| < MAX_HEADER_SIZE && cuts != [] && cuts[0].Deliver? {
      var n := ReadSize(rest, cuts[0].ready, HEADER_CHUNK);
      if 0 < n <= MAX_HEADER_SIZE - |buf| {
        assert buf + rest[..n] + rest[n..] == all;
        NoLossBelowTheCap(buf + rest[..n], rest[n..], cuts[1..]);
      }
    }
  }

  function Singles(k: nat): seq<Cut> {
    if k == 0 then [] else [Deliver(1)] + Singles(k - 1)
  }

  lemma FillOneByte(buf: Bytes, rest: Bytes, cuts: seq<Cut>)
    requires HeaderEnd(buf).None? && |buf| < MAX_HEADER_SIZE && rest != [] && cuts != [] && cuts[0] == Deliver(1)
    ensures Fill(buf, rest, cuts) == Fill(buf + rest[..1], rest[1..], cuts[1..])
  {
    hide EndFrom;
  }

  /** Byte by byte up to just before the header end. */
  lemma {:induction false} SinglesAdvance(buf: Bytes, rest: Bytes, k: nat, tail: seq<Cut>)
    requires k <= |rest| && |buf| + k < MAX_HEADER_SIZE
    requires HeaderEnd(buf + rest).None? || HeaderEnd(buf + rest).value > |buf| + k
    ensures Fill(buf, rest, Singles(k) + tail) == Fill(buf + rest[..k], rest[k..], tail)
    decreases k
  {
    hide Fill;
    if k == 0 {
      assert Singles(0) + tail == tail && buf + rest[..0] == buf && rest[0..] == rest;
    } else {
      var cuts := Singles(k) + tail;
      EndFromPrefix(buf + rest, 0, |buf|);
      hide EndFrom;
      assert (buf + rest)[..|buf|] == buf;
      assert cuts[0] == Deliver(1) && cuts[1..] == Singles(k - 1) + tail;
      FillOneByte(buf, rest, cuts);
      hide Singles;
      var more, left := buf + rest[..1], rest[1..];
      assert more + left == buf + rest;
      SinglesAdvance(more, left, k - 1, tail);
      assert more + left[..k - 1] == buf + rest[..k] && left[k - 1..] == rest[k..];
    }
  }

  lemma SafeHeaderFramesExactly(all: Bytes, cuts: seq<Cut>)
    requires HeaderFits(all)
    requires HeaderEnd(all).value <= SAFE_HEADER_END || |all| <= MAX_HEADER_SIZE
    ensures FramesExactly(all, cuts)
  {
    hide EndFrom, Fill;
    assert [] + all == all;
    FillIsFaithful([], all, cuts);
    NoLossBelowTheCap([], all, cuts);
    var r := Fill([], all, cuts);
    if r.Found? {
      assert all[r.end..] == r.buf[r.end..] + r.rest;
    }
  }

  /** Otherwise some way to cut the stream loses body bytes: byte by byte up to the end of
      the header, then one read that crosses the cap. */
  lemma LateHeaderCanLoseBytes(all: Bytes) returns (cuts: seq<Cut>)
    requires HeaderFits(all)
    requires HeaderEnd(all).value > SAFE_HEADER_END && |all| > MAX_HEADER_SIZE
    ensures !FramesExactly(all, cuts)
  {
    hide EndFrom;
    var e := HeaderEnd(all).value;
    var last := [Deliver(HEADER_CHUNK)];
    cuts := Singles(e - 1) + last;
    var buf, rest := all[..e - 1], all[e - 1..];
    var n := ReadSize(rest, HEADER_CHUNK, HEADER_CHUNK);
    var more := buf + rest[..MAX_HEADER_SIZE - |buf|];
    EndFromPrefix(all, 0, |buf|);
    EndFromPrefix(all, 0, MAX_HEADER_SIZE);
    assert more == all[..MAX_HEADER_SIZE];
    assert Fill(buf, rest, last) == Found(more, e, rest[n..], last[1..]);
    assert [] + all == all && [] + buf == buf;
    SinglesAdvance([], all, e - 1, last);
    assert |more[e..] + rest[n..]| < |all[e..]|;
  }

  /** Where the body begins does not depend on how the stream is cut exactly when the header
      ends by byte 61441 or the whole stream fits under the header cap. */
  lemma FramingIndependentOfCutsExactly(all: Bytes)
    requires HeaderFits(all)
    ensures (forall cuts :: FramesExactly(all, cuts))
            <==> HeaderEnd(all).value <= SAFE_HEADER_END || |all| <= MAX_HEADER_SIZE
  {
    hide FramesExactly;
    if HeaderEnd(all).value <= SAFE_HEADER_END || |all| <= MAX_HEADER_SIZE {
      forall cuts ensures FramesExactly(all, cuts) {
        SafeHeaderFramesExactly(all, cuts);
      }
    } else {
      var cuts := LateHeaderCanLoseBytes(all);
    }
  }

  function Letters(n: nat): (b: Bytes)
    ensures |b| == n
  {
    seq(n, _ => 97)
  }

  lemma {:induction false} EndBehindLetters(n: nat, tail: Bytes, i: nat)
    requires i <= n
    ensures EndFrom(Letters(n) + BLANK_LINE + tail, i) == Some(n + 4)
    decreases n - i
  {
    var b := Letters(n) + BLANK_LINE + tail;
    if i == n {
      assert b[i..i + 4] == BLANK_LINE;
    } else {
      assert b[i..i + 4][0] == 97;
      EndBehindLetters(n, tail, i + 1);
    }
  }

  /** A header block one byte too long, and a body beyond the cap. */
  const LATE_STREAM: Bytes := Letters(SAFE_HEADER_END - 3) + BLANK_LINE + Letters(HEADER_CHUNK)

  /** A stream whose framing depends on the cuts. */
  lemma LateStreamCanLoseBytes() returns (cuts: seq<Cut>)
    ensures HeaderEnd(LATE_STREAM) == Some(SAFE_HEADER_END + 1) && |LATE_STREAM| > MAX_HEADER_SIZE
    ensures !FramesExactly(LATE_STREAM, cuts)
  {
    EndBehindLetters(SAFE_HEADER_END - 3, Letters(HEADER_CHUNK), 0);
    hide EndFrom, FramesExactly;
    cuts := LateHeaderCanLoseBytes(LATE_STREAM);
  }

  // ------------------------------------------------------------------- the body loop

  /** Append reads of at most `chunk` bytes until `want` bytes are there. */
  function FillBody(got: Bytes, rest: Bytes, cuts: seq<Cut>, want: nat, chunk: nat): Option<(Bytes, Bytes)>
    decreases |cuts|
  {
    if |got| >= want then Some((got, rest))
    else if cuts == [] || cuts[0].Failure? then None
    else
      var n := ReadSize(rest, cuts[0].ready, Min(want - |got|, chunk));
      if n == 0 then None else FillBody(got + rest[..n], rest[n..], cuts[1..], want, chunk)
  }

  /** A body that is delivered is the next `want` bytes, and what follows stays unread. */
  lemma {:induction false} BodyIsTheNextBytes(got: Bytes, rest: Bytes, cuts: seq<Cut>, want: nat, chunk: nat)
    requires |got| <= want
    ensures var r := FillBody(got, rest, cuts, want, chunk);
            r.Some? ==> want <= |got + rest| && r.value == ((got + rest)[..want], (got + rest)[want..])
    decreases |cuts|
  {
    if |got| == want {
      assert (got + rest)[..want] == got && (got + rest)[want..] == rest;
    } else if cuts != [] && cuts[0].Deliver? {
      var n := ReadSize(rest, cuts[0].ready, Min(want - |got|, chunk));
      if n > 0 {
        assert got + rest[..n] + rest[n..] == got + rest;
        BodyIsTheNextBytes(got + rest[..n], rest[n..], cuts[1..], want, chunk);
      }
    }
  }

  /** On a stream that does not fail, the body is delivered exactly if it is all there. */
  lemma {:induction false} BodyDeliveredExactly(got: Bytes, rest: Bytes, cuts: seq<Cut>, want: nat, chunk: nat)
    requires |got| <= want && Clean(cuts, rest) && chunk > 0
    ensures FillBody(got, rest, cuts, want, chunk).Some? <==> want <= |got + rest|
    decreases |cuts|
  {
    if |got| < want {
      var n := ReadSize(rest, cuts[0].ready, Min(want - |got|, chunk));
      if n > 0 {
        assert got + rest[..n] + rest[n..] == got + rest;
        BodyDeliveredExactly(got + rest[..n], rest[n..], cuts[1..], want, chunk);
      }
    }
  }

  // ------------------------------------------------------------------ the connection

  datatype HeaderResult = HeaderResult(head: Bytes, contentLength: nat, initialBody: Bytes)

  datatype HttpBody = Memory(data: Bytes) | Staged(path: string, size: nat, reserved: nat)

  /** What the text of a header block asks for; None if its request line is malformed. */
  type HeadParser = Bytes -> Option<nat>

  function InitialPart(initial: Bytes, want: nat): Bytes {
    initial[..Min(|initial|, want)]
  }

  /** One connection and the parts of the process it touches: the staging total and the
      files in the download directory. */
  class Connection {
    var rest: Bytes
    var cuts: seq<Cut>
    var staged: nat
    var files: map<string, Bytes>

    constructor (bytes: Bytes, cuts: seq<Cut>, staged: nat, files: map<string, Bytes>)
      ensures this.rest == bytes && this.cuts == cuts && this.staged == staged && this.files == files
    {
      this.rest, this.cuts, this.staged, this.files := bytes, cuts, staged, files;
    }

    /** One read; None is an error or a missed deadline, an empty result the end. */
    method ReadChunk(max: nat) returns (r: Option<Bytes>)
      modifies this`rest, this`cuts
      ensures old(cuts) == [] || old(cuts)[0].Failure? ==> r.None? && rest == old(rest)
      ensures old(cuts) != [] && old(cuts)[0].Deliver? ==>
                var n := ReadSize(old(rest), old(cuts)[0].ready, max);
                r == Some(old(rest)[..n]) && rest == old(rest)[n..] && cuts == old(cuts)[1..]
    {
      if cuts == [] || cuts[0].Failure? {
        return None;
      }
      var n := ReadSize(rest, cuts[0].ready, max);
      r := Some(rest[..n]);
      rest, cuts := rest[n..], cuts[1..];
    }

    method ReadHttpHeaders() returns (r: Option<HeaderResult>)
      modifies this`rest, this`cuts
      ensures var f := Fill([], old(rest), old(cuts));
              match f
              case Rejected => r.None?
              case Found(buf, e, left, more) =>
                var want := HeaderText.Wanted(buf[..e - 4]);
                if want.None? || want.value > MAX_BODY_SIZE then r.None?
                else r == Some(HeaderResult(buf[..e], want.value, buf[e..])) && rest == left && cuts == more
    {
      var headerBuf: Bytes := [];
      var headerEnd: Option<nat> := None;
      ghost var goal := Fill([], rest, cuts);
      hide EndFrom, HeaderText.Wanted;
      while true
        invariant Fill(headerBuf, rest, cuts) == goal
        decreases |cuts|
      {
        headerEnd := HeaderEnd(headerBuf);
        if headerEnd.Some? {
          break;
        }
        if |headerBuf| >= MAX_HEADER_SIZE {
          return None;
        }
        ghost var before := rest;
        var chunk := ReadChunk(HEADER_CHUNK);
        if chunk.None? {
          return None;
        }
        var n := |chunk.value|;
        if n == 0 {
          return None;
        }
        var take := Min(n, MAX_HEADER_SIZE - |headerBuf|);
        assert chunk.value[..take] == before[..take];
        headerBuf := headerBuf + chunk.value[..take];
        if n > take {
          headerEnd := HeaderEnd(headerBuf);
          if headerEnd.None? {
            return None;
          }
          break;
        }
      }
      var e := headerEnd.value;
      assert goal == Found(headerBuf, e, rest, cuts);
      var want := HeaderText.ParseHead(headerBuf[..e - 4]);
      if want.None? || want.value > MAX_BODY_SIZE {
        return None;
      }
      r := Some(HeaderResult(headerBuf[..e], want.value, headerBuf[e..]));
    }

    /** The in-memory path. */
    method ReadIntoMemory(want: nat, first: Bytes) returns (r: Option<Bytes>)
      requires |first| <= want
      modifies this`rest, this`cuts
      ensures r.Some? <==> FillBody(first, old(rest), old(cuts), want, MEMORY_CHUNK).Some?
      ensures r.Some? ==> want <= |first + old(rest)| && r.value == (first + old(rest))[..want]
    {
      BodyIsTheNextBytes(first, rest, cuts, want, MEMORY_CHUNK);
      ghost var goal := FillBody(first, rest, cuts, want, MEMORY_CHUNK);
      var body := first;
      var remaining := want - |body|;
      while remaining > 0
        invariant remaining == want - |body|
        invariant FillBody(body, rest, cuts, want, MEMORY_CHUNK) == goal
        decreases |cuts|
      {
        var chunk := ReadChunk(Min(remaining, MEMORY_CHUNK));
        if chunk.None? || |chunk.value| == 0 {
          return None;
        }
        body := body + chunk.value;
        remaining := remaining - |chunk.value|;
      }
      return Some(body);
    }

    /** The staged path from the moment the file exists. `budget` is the number of further
        file operations that succeed before one fails, `removeOk` whether the clean-up works. */
    method ReadIntoFile(want: nat, first: Bytes, path: string, budget: nat, removeOk: bool) returns (done: bool)
      requires |first| <= want && path in files && files[path] == []
      modifies this`rest, this`cuts, this`files
      ensures !done ==> files - {path} == old(files) - {path} && (removeOk ==> path !in files)
      ensures done ==> FillBody(first, old(rest), old(cuts), want, STAGE_CHUNK).Some?
      ensures done ==> want <= |first + old(rest)| && files == old(files)[path := (first + old(rest))[..want]]
      ensures budget >= |old(cuts)| + 2 && FillBody(first, old(rest), old(cuts), want, STAGE_CHUNK).Some? ==> done
    {
      BodyIsTheNextBytes(first, rest, cuts, want, STAGE_CHUNK);
      ghost var goal := FillBody(first, rest, cuts, want, STAGE_CHUNK);
      if budget == 0 {
        Discard(path, removeOk);
        return false;
      }
      files := files[path := first];
      var operations := 1;
      var remaining := want - |first|;
      while remaining > 0
        invariant path in files && remaining == want - |files[path]|
        invariant FillBody(files[path], rest, cuts, want, STAGE_CHUNK) == goal
        invariant files == old(files)[path := files[path]]
        invariant operations <= budget && operations + |cuts| <= |old(cuts)| + 1
        decreases |cuts|
      {
        var chunk := ReadChunk(Min(remaining, STAGE_CHUNK));
        if chunk.None? || |chunk.value| == 0 || operations == budget {
          Discard(path, removeOk);
          return false;
        }
        files := files[path := files[path] + chunk.value];
        operations := operations + 1;
        remaining := remaining - |chunk.value|;
      }
      if operations == budget {
        Discard(path, removeOk);
        return false;
      }
      return true;
    }

    method Discard(path: string, removeOk: bool)
      modifies this`files
      ensures files == if removeOk then old(files) - {path} else old(files)
    {
      if removeOk {
        files := files - {path};
      }
    }

    method ReadHttpBody(want: u64, initial: Bytes, stagingAllowed: bool, maxAllowed: nat,
                        path: string, avail: Option<u64>, budget: nat, removeOk: bool)
      returns (r: Option<HttpBody>)
      modifies this
      // a refused or failed body leaves no reservation behind, and no file but one that cannot be removed
      ensures r.None? ==> staged == old(staged) && (removeOk || path in old(files) ==> files == old(files))
      ensures r.None? ==> files - {path} == old(files) - {path}
      // a delivered body is the next `want` bytes, in memory or in the one new file
      ensures r.Some? ==> want <= maxAllowed && want <= |initial + old(rest)|
      ensures r.Some? && r.value.Memory? ==>
                want <= IN_MEMORY_BODY_LIMIT && r.value.data == (initial + old(rest))[..want]
                && staged == old(staged) && files == old(files)
      ensures r.Some? && r.value.Staged? ==>
                want > IN_MEMORY_BODY_LIMIT && stagingAllowed && Staging.Fits(old(staged), want, avail)
                && r.value == Staged(path, want, want) && path !in old(files)
                && files == old(files)[path := (initial + old(rest))[..want]] && staged == old(staged) + want
      ensures r.Some? ==>
                FillBody(InitialPart(initial, want), old(rest), old(cuts), want, ChunkFor(want)).Some?
      // and it is delivered whenever nothing stands against it
      ensures want <= IN_MEMORY_BODY_LIMIT ==>
                (r.Some? <==> (want <= maxAllowed
                               && FillBody(InitialPart(initial, want), old(rest), old(cuts), want, MEMORY_CHUNK).Some?))
      ensures want > IN_MEMORY_BODY_LIMIT && want <= maxAllowed && stagingAllowed && path !in old(files)
              && Staging.Fits(old(staged), want, avail) && budget >= |old(cuts)| + 3
              && FillBody(InitialPart(initial, want), old(rest), old(cuts), want, STAGE_CHUNK).Some?
              ==> r.Some?
    {
      if want > maxAllowed {
        return None;
      }
      var first := InitialPart(initial, want);
      FirstPartIsAPrefix(initial, rest, want);
      if want == 0 {
        return Some(Memory([]));
      }
      if want <= IN_MEMORY_BODY_LIMIT {
        var body := ReadIntoMemory(want, first);
        if body.None? {
          return None;
        }
        return Some(Memory(body.value));
      }
      if !stagingAllowed || !Staging.Fits(staged, want, avail) {
        return None;
      }
      staged := staged + want;
      if budget == 0 || path in files {
        staged := staged - want;
        return None;
      }
      files := files[path := []];
      var done := ReadIntoFile(want, first, path, budget - 1, removeOk);
      if !done {
        staged := staged - want;
        assert old(files)[path := []] - {path} == old(files);
        assert removeOk ==> files - {path} == files;
        return None;
      }
      r := Some(Staged(path, want, want));
    }

    /** Both phases, as the server runs them for an upload. */
    method ReadRequest(path: string, avail: Option<u64>, budget: nat, removeOk: bool)
      returns (r: Option<(HeaderResult, HttpBody)>)
      modifies this
      ensures r.None? ==> staged == old(staged) && files - {path} == old(files) - {path}
      ensures r.None? && (removeOk || path in old(files)) ==> files == old(files)
      // what is read is the request that the bytes and their cuts determine
      ensures r.Some? ==> Request(old(rest), old(cuts), HeaderText.Wanted) == Some((r.value.0.head, Content(r.value.1)))
      // and it is read unless a large body cannot be staged
      ensures Request(old(rest), old(cuts), HeaderText.Wanted).Some?
              && (var size := |Request(old(rest), old(cuts), HeaderText.Wanted).value.1|;
                  IN_MEMORY_BODY_LIMIT < size <= MAX_BODY_SIZE ==>
                    path !in old(files) && budget >= |old(cuts)| + 3 && Staging.Fits(old(staged), size, avail))
              ==> r.Some?
    {
      ghost var all, hows := rest, cuts;
      hide EndFrom, Fill, FillBody, HeaderText.Wanted;
      var head := ReadHttpHeaders();
      if head.None? {
        return None;
      }
      var h := head.value;
      RequestFromHead(all, hows, HeaderText.Wanted, h, rest, cuts);
      BodyIsTheNextBytes(InitialPart(h.initialBody, h.contentLength), rest, cuts, h.contentLength,
                        ChunkFor(h.contentLength));
      FirstPartIsAPrefix(h.initialBody, rest, h.contentLength);
      var body := ReadHttpBody(h.contentLength, h.initialBody, true, MAX_BODY_SIZE, path, avail, budget, removeOk);
      if body.None? {
        return None;
      }
      r := Some((h, body.value));
    }

    /** The bytes of a body. */
    function Content(body: HttpBody): Bytes
      reads this`files
    {
      match body
      case Memory(data) => data
      case Staged(path, _, _) => if path in files then files[path] else []
    }
  }

  lemma FirstPartIsAPrefix(initial: Bytes, rest: Bytes, want: nat)
    ensures var first := InitialPart(initial, want);
            |first| <= want
            && (want <= |first + rest| ==>
                  want <= |initial + rest| && (first + rest)[..want] == (initial + rest)[..want])
  {
  }

  // --------------------------------------------------------------- the whole request

  /** The two phases one after the other; the staged and the in-memory path differ in the
      size of their reads. */
  function Request(all: Bytes, cuts: seq<Cut>, parse: HeadParser): Option<(Bytes, Bytes)> {
    match Fill([], all, cuts)
    case Rejected => None
    case Found(buf, e, left, more) =>
      var want := parse(buf[..e - 4]);
      if want.None? || want.value > MAX_BODY_SIZE then None
      else
        var first := InitialPart(buf[e..], want.value);
        match FillBody(first, left, more, want.value, ChunkFor(want.value))
        case None => None
        case Some(done) => Some((buf[..e], done.0))
  }

  function ChunkFor(want: nat): nat {
    if want <= IN_MEMORY_BODY_LIMIT then MEMORY_CHUNK else STAGE_CHUNK
  }

  /** After the header phase the rest of the request is the body phase. */
  lemma RequestFromHead(all: Bytes, cuts: seq<Cut>, parse: HeadParser, h: HeaderResult, rest: Bytes, more: seq<Cut>)
    requires var f := Fill([], all, cuts);
             f.Found? && f.rest == rest && f.cuts == more && h.head == f.buf[..f.end] && h.initialBody == f.buf[f.end..]
             && parse(f.buf[..f.end - 4]) == Some(h.contentLength) && h.contentLength <= MAX_BODY_SIZE
    ensures var first := InitialPart(h.initialBody, h.contentLength);
            var done := FillBody(first, rest, more, h.contentLength, ChunkFor(h.contentLength));
            Request(all, cuts, parse) == if done.None? then None else Some((h.head, done.value.0))
    ensures |more| <= |cuts|
  {
    FillUsesASuffix([], all, cuts);
    hide Fill, FillBody;
  }

  /** The request the bytes alone determine. */
  function RequestOf(all: Bytes, parse: HeadParser): Option<(Bytes, Bytes)> {
    if !HeaderFits(all) then None
    else
      var e := HeaderEnd(all).value;
      var want := parse(all[..e - 4]);
      if want.None? || want.value > MAX_BODY_SIZE || e + want.value > |all| then None
      else Some((all[..e], all[e..e + want.value]))
  }

  predicate SafelyFramed(all: Bytes) {
    HeaderEnd(all).Some? ==> HeaderEnd(all).value <= SAFE_HEADER_END || |all| <= MAX_HEADER_SIZE
  }

  /** However the stream is cut, a safely framed request is read as its bytes say or not at
      all; and if no read fails, as its bytes say. */
  lemma ReadingIndependentOfCuts(all: Bytes, cuts: seq<Cut>, parse: HeadParser)
    requires SafelyFramed(all)
    ensures Request(all, cuts, parse).None? || Request(all, cuts, parse) == RequestOf(all, parse)
    ensures (forall i :: 0 <= i < |cuts| ==> cuts[i].Deliver?) && |cuts| > 2 * |all| ==>
              Request(all, cuts, parse) == RequestOf(all, parse)
  {
    hide EndFrom, Fill, FillBody;
    assert [] + all == all;
    FillIsFaithful([], all, cuts);
    var clean := (forall i :: 0 <= i < |cuts| ==> cuts[i].Deliver?) && |cuts| > 2 * |all|;
    if clean {
      FillSucceedsExactly([], all, cuts);
    }
    match Fill([], all, cuts)
    case Rejected =>
    case Found(buf, e, left, more) =>
      assert buf[..e - 4] == all[..e - 4] && buf[..e] == all[..e];
      var want := parse(buf[..e - 4]);
      if want.Some? && want.value <= MAX_BODY_SIZE {
        FramingIndependentOfCutsExactly(all);
        assert FramesExactly(all, cuts);
        BodyAfterHeader(all, buf, e, left, more, want.value, ChunkFor(want.value));
        if clean {
          CutsLeft([], all, cuts);
          FillUsesASuffix([], all, cuts);
        }
      }
  }

  lemma BodyAfterHeader(all: Bytes, buf: Bytes, e: nat, left: Bytes, more: seq<Cut>, want: nat, chunk: nat)
    requires e <= |buf| && e <= |all| && buf[e..] + left == all[e..] && chunk > 0
    ensures var r := FillBody(InitialPart(buf[e..], want), left, more, want, chunk);
            && (r.Some? ==> e + want <= |all| && r.value.0 == all[e..e + want])
            && (Clean(more, left) ==> (r.Some? <==> e + want <= |all|))
  {
    var first := InitialPart(buf[e..], want);
    FirstPartIsAPrefix(buf[e..], left, want);
    BodyIsTheNextBytes(first, left, more, want, chunk);
    if Clean(more, left) {
      BodyDeliveredExactly(first, left, more, want, chunk);
    }
    if e + want <= |all| {
      assert all[e..][..want] == all[e..e + want];
    }
  }

  /** Each header read consumes a cut and at least one byte. */
  lemma {:induction false} CutsLeft(buf: Bytes, rest: Bytes, cuts: seq<Cut>)
    ensures var r := Fill(buf, rest, cuts); r.Found? ==> |cuts| - |r.cuts| <= |rest| - |r.rest|
    decreases |cuts|
  {
    if HeaderEnd(buf).None? && |buf| < MAX_HEADER_SIZE && cuts != [] && cuts[0].Deliver? {
      var n := ReadSize(rest, cuts[0].ready, HEADER_CHUNK);
      if 0 < n <= MAX_HEADER_SIZE - |buf| {
        CutsLeft(buf + rest[..n], rest[n..], cuts[1..]);
      }
    }
  }

  lemma {:induction false} FillUsesASuffix(buf: Bytes, rest: Bytes, cuts: seq<Cut>)
    ensures var r := Fill(buf, rest, cuts); r.Found? ==> |r.cuts| <= |cuts| && r.cuts == cuts[|cuts| - |r.cuts|..]
    decreases |cuts|
  {
    if HeaderEnd(buf).None? && |buf| < MAX_HEADER_SIZE && cuts != [] && cuts[0].Deliver? {
      var n := ReadSize(rest, cuts[0].ready, HEADER_CHUNK);
      if 0 < n <= MAX_HEADER_SIZE - |buf| {
        FillUsesASuffix(buf + rest[..n], rest[n..], cuts[1..]);
      }
    }
  }

  /** The stream of a request whose header block gives its content length once. */
  function Sent(head: Bytes, body: Bytes, beyond: Bytes): Bytes {
    head + BLANK_LINE + body + beyond
  }

  /** A request sent as lines, a blank line and a body is read back as it was sent, however the
      stream is cut, if the header block is short enough and no read fails. */
  lemma SentRequestIsReadBack(request: string, before: seq<string>, after: seq<string>, body: Bytes, beyond: Bytes,
                              cuts: seq<Cut>)
    requires HeaderText.Joinable([request] + before + [HeaderText.LengthLine(|body|)] + after)
    requires HeaderText.Words(request, false) >= 2 && |body| <= MAX_BODY_SIZE
    requires forall x :: x in [request] + before || x in after ==> HeaderText.Given(x).None?
    requires var head := HeadOf(request, before, |body|, after);
             HeaderEnd(head + BLANK_LINE) == Some(|head| + 4) && |head| + 4 <= SAFE_HEADER_END
    requires var all := Sent(HeadOf(request, before, |body|, after), body, beyond);
             (forall i :: 0 <= i < |cuts| ==> cuts[i].Deliver?) && |cuts| > 2 * |all|
    ensures var head := HeadOf(request, before, |body|, after);
            Request(Sent(head, body, beyond), cuts, HeaderText.Wanted) == Some((head + BLANK_LINE, body))
  {
    var head := HeadOf(request, before, |body|, after);
    HeaderText.HeadIsUnderstood(request, before, |body|, after);
    hide HeadOf, EndFrom, HeaderText.Wanted, Request, RequestOf, Sent, SafelyFramed;
    SentDeterminesItself(head, body, beyond, HeaderText.Wanted);
    ReadingIndependentOfCuts(Sent(head, body, beyond), cuts, HeaderText.Wanted);
  }

  lemma SentDeterminesItself(head: Bytes, body: Bytes, beyond: Bytes, parse: HeadParser)
    requires parse(head) == Some(|body|) && |body| <= MAX_BODY_SIZE
    requires HeaderEnd(head + BLANK_LINE) == Some(|head| + 4) && |head| + 4 <= SAFE_HEADER_END
    ensures var all := Sent(head, body, beyond);
            SafelyFramed(all) && RequestOf(all, parse) == Some((head + BLANK_LINE, body))
  {
    var all := Sent(head, body, beyond);
    assert all[..|head| + 4] == head + BLANK_LINE;
    EndFromPrefix(all, 0, |head| + 4);
    hide EndFrom;
    assert all[..|head|] == head && all[|head| + 4..|head| + 4 + |body|] == body;
  }

  function HeadOf(request: string, before: seq<string>, length: nat, after: seq<string>): Bytes {
    Utf8.Encode(HeaderText.Join([request] + before + [HeaderText.LengthLine(length)] + after))
  }
}
