/** What the text of a header block says in src/main.rs: its lines, its request line and the
    content length, which the reader takes from the last line that gives one. */
module HeaderText {
  import opened Prelude
  import Utf8

  const CONTENT_LENGTH := "content-length"

  // ------------------------------------------------------------------------ lines

  /** Position of the first `c` in `s`, or its length. */
  function Find(s: string, c: char): (i: nat)
    ensures i <= |s| && c !in s[..i] && (i < |s| ==> s[i] == c)
  {
    if s == [] then 0
    else if s[0] == c then 0
    else
      var i := Find(s[1..], c);
      assert s[..1 + i] == [s[0]] + s[1..][..i];
      1 + i
  }

  /** A line without the carriage return that a line feed had before it. */
  function Stripped(line: string): string {
    if line != [] && line[|line| - 1] == '\r' then line[..|line| - 1] else line
  }

  /** `str::lines`: the rest after the last line feed counts only if it is not empty. */
  function Lines(s: string): seq<string>
    decreases |s|
  {
    if s == [] then []
    else
      var i := Find(s, '\n');
      if i == |s| then [s] else [Stripped(s[..i])] + Lines(s[i + 1..])
  }

  /** The number of words that begin in `s`; `inWord` tells what came before. */
  function Words(s: string, inWord: bool): nat {
    if s == [] then 0
    else if IsUnicodeSpace(s[0]) then Words(s[1..], false)
    else (if inWord then 0 else 1) + Words(s[1..], true)
  }

  // ---------------------------------------------------------------------- numbers

  function DigitOf(c: char): Option<nat> {
    if '0' <= c <= '9' then Some(c as int - '0' as int) else None
  }

  /** The value of decimal digits after `acc`; none for a foreign character or a value beyond
      64 bits. */
  function DigitsFrom(s: string, acc: nat): Option<nat> {
    if s == [] then Some(acc)
    else
      var d := DigitOf(s[0]);
      if d.None? || acc * 10 + d.value > U64_MAX then None else DigitsFrom(s[1..], acc * 10 + d.value)
  }

  /** `parse::<usize>`, which also accepts a plus sign in front. */
  function ParseUsize(s: string): Option<nat> {
    if s == [] || s == "+" then None
    else if s[0] == '+' then DigitsFrom(s[1..], 0)
    else DigitsFrom(s, 0)
  }

  // ----------------------------------------------------------------- content length

  /** The value a line gives for the content length, 0 if it cannot be read. Upper-case ASCII
      letters are the only characters whose lower-case form occurs in the name. */
  function Given(line: string): Option<nat> {
    var i := Find(line, ':');
    if i == |line| || !EqIgnoreCase(Trim(line[..i]), CONTENT_LENGTH, LowerChar) then None
    else
      var n := ParseUsize(Trim(line[i + 1..]));
      if n.Some? then n else Some(0)
  }

  /** The length after these lines, none if one of them is beyond the ceiling. */
  function LengthAfter(lines: seq<string>): Option<nat> {
    if lines == [] then Some(0)
    else
      var before := LengthAfter(lines[..|lines| - 1]);
      var given := Given(lines[|lines| - 1]);
      if before.None? then None
      else if given.None? then before
      else if given.value > MAX_BODY_SIZE then None
      else given
  }

  /** What a header block asks for: none if it is malformed or asks for too much. */
  function Wanted(head: Bytes): Option<nat> {
    var lines := Lines(Utf8.DecodeLossy(head));
    if lines == [] || Words(lines[0], false) < 2 then None else LengthAfter(lines)
  }

  method ContentLength(lines: seq<string>) returns (r: Option<nat>)
    ensures r == LengthAfter(lines)
  {
    var length := 0;
    hide Given;
    for i := 0 to |lines|
      invariant LengthAfter(lines[..i]) == Some(length)
    {
      assert lines[..i + 1][..i] == lines[..i];
      var given := Given(lines[i]);
      if given.Some? {
        length := given.value;
        if length > MAX_BODY_SIZE {
          NeverAgain(lines, i + 1);
          return None;
        }
      }
    }
    assert lines[..|lines|] == lines;
    r := Some(length);
  }

  lemma {:induction false} NeverAgain(lines: seq<string>, i: nat)
    requires i <= |lines| && LengthAfter(lines[..i]).None?
    ensures LengthAfter(lines).None?
  {
    if i < |lines| {
      assert lines[..|lines| - 1][..i] == lines[..i];
      NeverAgain(lines[..|lines| - 1], i);
    } else {
      assert lines[..i] == lines;
    }
  }

  method ParseHead(head: Bytes) returns (want: Option<nat>)
    ensures want == Wanted(head)
  {
    var lines := Lines(Utf8.DecodeLossy(head));
    hide Lines;
    var length := ContentLength(lines);
    if length.None? || lines == [] {
      return None;
    }
    if Words(lines[0], false) < 2 {
      return None;
    }
    return length;
  }

  /** The length is what the last line that gives one says, or 0, and no line may exceed the
      ceiling. */
  lemma {:induction false} LengthIsTheLastGiven(lines: seq<string>)
    ensures LengthAfter(lines).None? <==> exists i :: 0 <= i < |lines| && Exceeds(lines[i])
    ensures LengthAfter(lines).Some? ==>
              (exists i :: 0 <= i < |lines| && GivenLast(lines, i, LengthAfter(lines).value))
              || (LengthAfter(lines).value == 0 && forall i :: 0 <= i < |lines| ==> Given(lines[i]).None?)
  {
    hide Given;
    if lines != [] {
      var n := |lines| - 1;
      var init := lines[..n];
      LengthIsTheLastGiven(init);
      if LengthAfter(init).None? {
        var i :| 0 <= i < n && Exceeds(init[i]);
        assert Exceeds(lines[i]);
      } else if Given(lines[n]).Some? {
        if Given(lines[n]).value > MAX_BODY_SIZE {
          assert Exceeds(lines[n]);
        } else {
          assert GivenLast(lines, n, LengthAfter(lines).value);
          assert forall i :: 0 <= i < n ==> !Exceeds(init[i]);
        }
      } else {
        assert forall i :: 0 <= i < n ==> !Exceeds(init[i]);
        if i :| 0 <= i < n && GivenLast(init, i, LengthAfter(init).value) {
          assert GivenLast(lines, i, LengthAfter(lines).value);
        }
      }
    }
  }

  predicate Exceeds(line: string) {
    Given(line).Some? && Given(line).value > MAX_BODY_SIZE
  }

  predicate GivenLast(lines: seq<string>, i: nat, value: nat)
    requires i < |lines|
  {
    Given(lines[i]) == Some(value) && forall j :: i < j < |lines| ==> Given(lines[j]).None?
  }

  // ------------------------------------------------- reading back what was written

  lemma {:induction false} FindAt(prefix: string, c: char, rest: string)
    requires c !in prefix
    ensures Find(prefix + [c] + rest, c) == |prefix|
  {
    var s := prefix + [c] + rest;
    if prefix != [] {
      assert s[1..] == prefix[1..] + [c] + rest && s[0] == prefix[0];
      FindAt(prefix[1..], c, rest);
    }
  }

  /** Lines joined by carriage return and line feed. */
  function Join(lines: seq<string>): string
    requires lines != []
  {
    if |lines| == 1 then lines[0] else lines[0] + "\r\n" + Join(lines[1..])
  }

  predicate Joinable(lines: seq<string>) {
    lines != [] && lines[|lines| - 1] != [] && forall i :: 0 <= i < |lines| ==> '\n' !in lines[i]
  }

  lemma {:induction false} LinesUndoJoin(lines: seq<string>)
    requires Joinable(lines)
    ensures Lines(Join(lines)) == lines
  {
    var s := Join(lines);
    if |lines| == 1 {
      NoLineFeed(s);
    } else {
      LinesUndoJoin(lines[1..]);
      var first, rest := lines[0] + "\r", Join(lines[1..]);
      assert s == first + ['\n'] + rest;
      FindAt(first, '\n', rest);
      hide Find;
      assert s[..|first|] == first && s[|first| + 1..] == rest && Stripped(first) == lines[0];
    }
  }

  lemma NoLineFeed(s: string)
    requires s != [] && '\n' !in s
    ensures Lines(s) == [s]
  {
    assert Find(s, '\n') < |s| ==> s[Find(s, '\n')] in s;
  }

  function DigitChar(d: nat): char
    requires d <= 9
  {
    ('0' as int + d) as char
  }

  function Decimal(n: nat): (s: string)
    ensures s != [] && forall c :: c in s ==> '0' <= c <= '9'
  {
    if n < 10 then [DigitChar(n)] else Decimal(n / 10) + [DigitChar(n % 10)]
  }

  lemma {:induction false} DigitsFromAppend(s: string, d: nat, acc: nat)
    requires d <= 9
    ensures DigitsFrom(s + [DigitChar(d)], acc)
            == match DigitsFrom(s, acc)
               case None => None
               case Some(x) => if x * 10 + d > U64_MAX then None else Some(x * 10 + d)
  {
    var all := s + [DigitChar(d)];
    if s == [] {
      assert all == [DigitChar(d)] && all[1..] == [];
    } else {
      assert all[0] == s[0] && all[1..] == s[1..] + [DigitChar(d)];
      var first := DigitOf(s[0]);
      if first.Some? {
        DigitsFromAppend(s[1..], d, acc * 10 + first.value);
      }
    }
  }

  lemma {:induction false} DecimalReadBack(n: nat)
    requires n <= U64_MAX
    ensures DigitsFrom(Decimal(n), 0) == Some(n)
  {
    if n < 10 {
      assert Decimal(n) == [DigitChar(n)] && Decimal(n)[1..] == [];
    } else {
      DecimalReadBack(n / 10);
      DigitsFromAppend(Decimal(n / 10), n % 10, 0);
    }
  }

  function LengthLine(n: nat): string {
    "Content-Length: " + Decimal(n)
  }

  lemma GivenByParts(name: string, value: string)
    requires ':' !in name && EqIgnoreCase(Trim(name), CONTENT_LENGTH, LowerChar)
    ensures var n := ParseUsize(Trim(value)); Given(name + [':'] + value) == if n.Some? then n else Some(0)
  {
    FindAt(name, ':', value);
    hide Find, Trim, EqIgnoreCase, ParseUsize;
    var line := name + [':'] + value;
    assert line[..|name|] == name && line[|name| + 1..] == value;
  }

  lemma TrimmedDecimal(n: nat)
    ensures Trim(" " + Decimal(n)) == Decimal(n) && Decimal(n)[0] != '+'
  {
    var s := Decimal(n);
    hide Decimal;
    assert s[0] in s && s[|s| - 1] in s;
    assert Trim(s) == s;
    assert (" " + s)[1..] == s;
  }

  lemma NameMatches()
    ensures Trim("Content-Length") == "Content-Length" && ':' !in "Content-Length"
    ensures EqIgnoreCase("Content-Length", CONTENT_LENGTH, LowerChar)
  {
  }

  lemma LengthLineGives(n: nat)
    requires n <= U64_MAX
    ensures Given(LengthLine(n)) == Some(n)
  {
    var name, value := "Content-Length", " " + Decimal(n);
    TrimmedDecimal(n);
    DecimalReadBack(n);
    NameMatches();
    hide Given, Trim, DigitsFrom, Decimal, EqIgnoreCase;
    GivenByParts(name, value);
    assert LengthLine(n) == name + [':'] + value;
  }

  lemma {:induction false} LengthAround(before: seq<string>, line: string, after: seq<string>)
    requires forall x :: x in before || x in after ==> Given(x).None?
    requires Given(line).Some? && Given(line).value <= MAX_BODY_SIZE
    ensures LengthAfter(before) == Some(0)
    ensures LengthAfter(before + [line] + after) == Given(line)
  {
    hide Given;
    if after == [] {
      NothingGiven(before);
      assert (before + [line] + after)[..|before|] == before && before + [line] + after == before + [line];
    } else {
      var all, n := before + [line] + after, |after| - 1;
      assert all[..|all| - 1] == before + [line] + after[..n] && all[|all| - 1] == after[n];
      LengthAround(before, line, after[..n]);
    }
  }

  lemma {:induction false} NothingGiven(lines: seq<string>)
    requires forall x :: x in lines ==> Given(x).None?
    ensures LengthAfter(lines) == Some(0)
  {
    hide Given;
    if lines != [] {
      NothingGiven(lines[..|lines| - 1]);
    }
  }

  /** A header block that gives the content length once, wherever among its lines, is understood
      to ask for just that. */
  lemma HeadIsUnderstood(request: string, before: seq<string>, n: nat, after: seq<string>)
    requires Joinable([request] + before + [LengthLine(n)] + after) && Words(request, false) >= 2 && n <= MAX_BODY_SIZE
    requires forall x :: x in [request] + before || x in after ==> Given(x).None?
    ensures Wanted(Utf8.Encode(Join([request] + before + [LengthLine(n)] + after))) == Some(n)
  {
    var lines := [request] + before + [LengthLine(n)] + after;
    LinesUndoJoin(lines);
    Utf8.DecodeUndoesEncode(Join(lines));
    LengthLineGives(n);
    LengthAround([request] + before, LengthLine(n), after);
    hide Given, LengthLine, Lines, Join;
    assert lines[0] == request;
  }
}
