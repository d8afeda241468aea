/** The 16-digit Luhn identifier: checksum, normalisation, formatting and validation in the
    engine (src/rendezvous.rs) and in the Android client (OmaIdentity.kt). */
module OmaId {
  import opened Prelude

  // ---------------------------------------------------------------- Luhn mod 10

  /** What digit `d` at 0-based position `i` adds: every even position is doubled. */
  function LuhnTerm(i: nat, d: nat): nat {
    if i % 2 == 1 then d
    else if 2 * d > 9 then 2 * d - 9
    else 2 * d
  }

  function LuhnSum(digits: seq<nat>): nat {
    if digits == [] then 0
    else LuhnSum(digits[..|digits| - 1]) + LuhnTerm(|digits| - 1, digits[|digits| - 1])
  }

  predicate AreDigits(digits: seq<nat>) {
    forall i :: 0 <= i < |digits| ==> digits[i] <= 9
  }

  predicate LuhnValid(digits: seq<nat>) {
    |digits| == 16 && AreDigits(digits) && LuhnSum(digits) % 10 == 0
  }

  /** The digit that completes the leading 15. */
  function CheckDigit(digits: seq<nat>): nat {
    (10 - LuhnSum(digits[..Min(15, |digits|)]) % 10) % 10
  }

  method LuhnChecksum(digits: seq<nat>) returns (check: nat)
    ensures check == CheckDigit(digits)
  {
    var sum := 0;
    var n := Min(15, |digits|);
    for i := 0 to n
      invariant sum == LuhnSum(digits[..i])
    {
      var val := digits[i];
      if i % 2 == 0 {
        val := val * 2;
        if val > 9 {
          val := val - 9;
        }
      }
      assert digits[..i + 1][..i] == digits[..i];
      sum := sum + val;
    }
    check := (10 - sum % 10) % 10;
  }

  method LuhnVerify(digits: seq<nat>) returns (ok: bool)
    ensures ok <==> LuhnValid(digits)
  {
    if |digits| != 16 {
      return false;
    }
    var sum := 0;
    for i := 0 to 16
      invariant sum == LuhnSum(digits[..i])
      invariant AreDigits(digits[..i])
    {
      if digits[i] > 9 {
        return false;
      }
      var val := digits[i];
      if i % 2 == 0 {
        val := val * 2;
        if val > 9 {
          val := val - 9;
        }
      }
      assert digits[..i + 1][..i] == digits[..i];
      sum := sum + val;
    }
    assert digits[..16] == digits;
    ok := sum % 10 == 0;
  }

  /** Exactly one of the ten digits completes a 15-digit prefix. */
  lemma CheckDigitIsTheOnlyOne(prefix: seq<nat>, x: nat)
    requires |prefix| == 15 && AreDigits(prefix) && x <= 9
    ensures LuhnValid(prefix + [x]) <==> x == CheckDigit(prefix)
  {
    assert (prefix + [x])[..15] == prefix;
    assert prefix[..15] == prefix;
  }

  lemma {:induction false} LuhnSumUpdate(s: seq<nat>, i: nat, e: nat)
    requires i < |s|
    ensures LuhnSum(s[i := e]) == LuhnSum(s) - LuhnTerm(i, s[i]) + LuhnTerm(i, e)
  {
    var n := |s| - 1;
    if i == n {
      assert s[i := e][..n] == s[..n];
    } else {
      assert s[i := e][..n] == s[..n][i := e];
      LuhnSumUpdate(s[..n], i, e);
    }
  }

  /** Two digits weigh the same modulo 10 at one position only if they are equal. */
  lemma LuhnTermInjective(i: nat, d: nat, e: nat)
    requires d <= 9 && e <= 9
    ensures (LuhnTerm(i, d) - LuhnTerm(i, e)) % 10 == 0 <==> d == e
  {
  }

  lemma SingleDigitErrorIsRejected(id: seq<nat>, i: nat, e: nat)
    requires LuhnValid(id) && i < 16 && e <= 9 && e != id[i]
    ensures !LuhnValid(id[i := e])
  {
    LuhnSumUpdate(id, i, e);
    LuhnTermInjective(i, id[i], e);
    hide LuhnTerm, LuhnSum;
    MultipleOfTen(LuhnSum(id), LuhnTerm(i, id[i]) - LuhnTerm(i, e));
  }

  lemma MultipleOfTen(sum: int, shift: int)
    requires sum % 10 == 0
    ensures (sum - shift) % 10 == 0 <==> shift % 10 == 0
  {
  }

  /** Exchanging two digits across adjacent positions shifts the sum by a multiple of 10 only
      for equal digits and for the pair 0, 9. */
  lemma SwapShift(i: nat, d: nat, e: nat)
    requires d <= 9 && e <= 9
    ensures (LuhnTerm(i, d) + LuhnTerm(i + 1, e) - LuhnTerm(i, e) - LuhnTerm(i + 1, d)) % 10 == 0
            <==> d == e || (d == 0 && e == 9) || (d == 9 && e == 0)
  {
  }

  /** Swapping unequal neighbours goes unnoticed for the pair 0 and 9, and for no other. */
  lemma AdjacentSwapIsRejectedExceptZeroNine(id: seq<nat>, i: nat)
    requires LuhnValid(id) && i < 15 && id[i] != id[i + 1]
    ensures LuhnValid(id[i := id[i + 1]][i + 1 := id[i]])
            <==> (id[i] == 0 && id[i + 1] == 9) || (id[i] == 9 && id[i + 1] == 0)
  {
    hide LuhnTerm, LuhnSum;
    var d, e := id[i], id[i + 1];
    LuhnSumUpdate(id, i, e);
    LuhnSumUpdate(id[i := e], i + 1, d);
    SwapShift(i, d, e);
    MultipleOfTen(LuhnSum(id), LuhnTerm(i, d) + LuhnTerm(i + 1, e) - LuhnTerm(i, e) - LuhnTerm(i + 1, d));
  }

  // ------------------------------------------------- the engine's textual form

  predicate IsDigit(c: char) {
    '0' <= c <= '9'
  }

  predicate AllDigits(s: string) {
    forall c :: c in s ==> IsDigit(c)
  }

  function Normalize(input: string): string {
    Filter(input, IsDigit)
  }

  function Format(input: string): string {
    var n := Normalize(input);
    if |n| == 16 then Group4(n[0..4], n[4..8], n[8..12], n[12..16]) else n
  }

  function DigitValue(c: char): nat {
    if IsDigit(c) then (c as int) - ('0' as int) else 0
  }

  function DigitsOf(s: string): (r: seq<nat>)
    ensures |r| == |s| && AreDigits(r)
  {
    seq(|s|, i requires 0 <= i < |s| => DigitValue(s[i]))
  }

  /** `validate_oma_id`: sixteen digits once everything else is dropped, and a Luhn sum of 0. */
  predicate Valid(input: string) {
    |Normalize(input)| == 16 && LuhnSum(DigitsOf(Normalize(input))) % 10 == 0
  }

  method Validate(input: string) returns (ok: bool)
    ensures ok <==> Valid(input)
  {
    var norm := Normalize(input);
    if |norm| != 16 {
      return false;
    }
    ok := LuhnVerify(DigitsOf(norm));
  }

  lemma NormalizeIdempotent(s: string)
    ensures Normalize(Normalize(s)) == Normalize(s)
  {
    FilterTwice(s, IsDigit, IsDigit);
  }

  function Group4(a: string, b: string, c: string, d: string): string {
    a + "-" + b + "-" + c + "-" + d
  }

  lemma HyphenPrefix(a: string, rest: string)
    requires AllDigits(a)
    ensures Normalize(a + "-" + rest) == a + Normalize(rest)
  {
    FilterConcat(a + "-", rest, IsDigit);
    FilterConcat(a, "-", IsDigit);
    FilterAll(a, IsDigit);
    FilterNone("-", IsDigit);
  }

  lemma NormalizeGroups(a: string, b: string, c: string, d: string)
    requires AllDigits(a) && AllDigits(b) && AllDigits(c) && AllDigits(d)
    ensures Normalize(Group4(a, b, c, d)) == a + b + c + d
  {
    HyphenPrefix(c, d);
    HyphenPrefix(b, c + "-" + d);
    HyphenPrefix(a, b + "-" + (c + "-" + d));
    FilterAll(d, IsDigit);
    assert Group4(a, b, c, d) == a + "-" + (b + "-" + (c + "-" + d));
  }

  /** Formatting keeps the digits, hence the identity and its validity. */
  lemma FormatKeepsIdentity(s: string)
    ensures Normalize(Format(s)) == Normalize(s)
    ensures Valid(Format(s)) <==> Valid(s)
    ensures Format(Format(s)) == Format(s)
  {
    var n := Normalize(s);
    FilterMembers(s, IsDigit);
    if |n| == 16 {
      NormalizeGroups(n[0..4], n[4..8], n[8..12], n[12..16]);
      assert n[0..4] + n[4..8] + n[8..12] + n[12..16] == n;
    } else {
      NormalizeIdempotent(s);
    }
  }

  // ------------------------------------------------------------- two valid examples

  function Zeros(n: nat): (s: string)
    ensures |s| == n && AllDigits(s)
  {
    seq(n, _ => '0')
  }

  const FIRST_ID: string := Zeros(16)
  const SECOND_ID: string := Zeros(14) + "18"

  lemma {:induction false} LuhnSumOfZeros(digits: seq<nat>)
    requires forall i :: 0 <= i < |digits| ==> digits[i] == 0
    ensures LuhnSum(digits) == 0
  {
    if digits != [] {
      LuhnSumOfZeros(digits[..|digits| - 1]);
    }
  }

  lemma SixteenDigitsAreNormal(s: string)
    requires |s| == 16 && AllDigits(s) && LuhnSum(DigitsOf(s)) % 10 == 0
    ensures Valid(s) && Normalize(s) == s
  {
    FilterAll(s, IsDigit);
  }

  lemma ExamplesAreValid()
    ensures Valid(FIRST_ID) && Normalize(FIRST_ID) == FIRST_ID
    ensures Valid(SECOND_ID) && Normalize(SECOND_ID) == SECOND_ID
    ensures FIRST_ID != SECOND_ID
  {
    hide Filter, Normalize;
    LuhnSumOfZeros(DigitsOf(FIRST_ID));
    SixteenDigitsAreNormal(FIRST_ID);
    var d := DigitsOf(SECOND_ID);
    assert FIRST_ID[14] != SECOND_ID[14];
    assert d[14] == 1 && d[15] == 8;
    LuhnSumOfZeros(d[..14]);
    assert d[..15][..14] == d[..14] && d[..16] == d;
    assert LuhnSum(d[..15]) == LuhnSum(d[..14]) + LuhnTerm(14, 1);
    assert LuhnSum(d) == LuhnSum(d[..15]) + LuhnTerm(15, 8);
    SixteenDigitsAreNormal(SECOND_ID);
  }

  // -------------------------------------------------------- the Android client

  /** The decimal digits that a Kotlin `Char` can be, each script given by its zero. */
  const ZEROES: seq<int> := [
    0x0030, 0x0660, 0x06F0, 0x07C0, 0x0966, 0x09E6, 0x0A66, 0x0AE6, 0x0B66, 0x0BE6, 0x0C66, 0x0CE6, 0x0D66, 0x0DE6,
    0x0E50, 0x0ED0, 0x0F20, 0x1040, 0x1090, 0x17E0, 0x1810, 0x1946, 0x19D0, 0x1A80, 0x1A90, 0x1B50, 0x1BB0, 0x1C40,
    0x1C50, 0xA620, 0xA8D0, 0xA900, 0xA9D0, 0xA9F0, 0xAA50, 0xABF0, 0xFF10]

  function DecimalFrom(c: char, zeroes: seq<int>): (r: Option<nat>)
    ensures r.Some? ==> r.value <= 9
  {
    if zeroes == [] then None
    else if zeroes[0] <= c as int <= zeroes[0] + 9 then Some(c as int - zeroes[0])
    else DecimalFrom(c, zeroes[1..])
  }

  function DecimalValue(c: char): (r: Option<nat>)
    ensures IsDigit(c) ==> r == Some(DigitValue(c))
    ensures r.Some? ==> r.value <= 9
  {
    DecimalFrom(c, ZEROES)
  }

  predicate AllDecimal(s: string) {
    forall c :: c in s ==> DecimalValue(c).Some?
  }

  function DecimalsOf(s: string): (r: seq<nat>)
    requires AllDecimal(s)
    ensures |r| == |s| && AreDigits(r)
  {
    seq(|s|, i requires 0 <= i < |s| => DecimalValue(s[i]).value)
  }

  function TrimStart(s: string): string {
    if s != [] && IsKotlinSpace(s[0]) then TrimStart(s[1..]) else s
  }

  function TrimEnd(s: string): string {
    if s != [] && IsKotlinSpace(s[|s| - 1]) then TrimEnd(s[..|s| - 1]) else s
  }

  /** A text without hyphens, spaces and outer blanks. */
  function Bare(s: string): string {
    TrimEnd(TrimStart(Filter(Filter(s, Other('-')), Other(' '))))
  }

  /** What is assumed of upper-casing: digits stay, and nothing else becomes one. */
  ghost predicate KeepsDigits(upper: string -> string) {
    forall s :: (AllDecimal(upper(s)) <==> AllDecimal(s)) && (AllDecimal(s) ==> upper(s) == s)
  }

  function Unformat(s: string, upper: string -> string): string {
    upper(Bare(s))
  }

  function Chunked(clean: string): string {
    if |clean| <= 4 then clean else clean[..4] + "-" + Chunked(clean[4..])
  }

  function KotlinFormat(s: string, upper: string -> string): string {
    Chunked(Unformat(s, upper))
  }

  predicate KotlinValid(input: Option<string>, upper: string -> string) {
    input.Some? && !IsBlank(input.value)
    && var clean := Unformat(input.value, upper);
    |clean| == 16 && AllDecimal(clean) && LuhnSum(DecimalsOf(clean)) % 10 == 0
  }

  method KotlinIsValid(input: Option<string>, upper: string -> string) returns (ok: bool)
    ensures ok <==> KotlinValid(input, upper)
  {
    if input.None? || IsBlank(input.value) {
      return false;
    }
    var clean := Unformat(input.value, upper);
    if |clean| != 16 {
      return false;
    }
    if !AllDecimal(clean) {
      return false;
    }
    ghost var digits := DecimalsOf(clean);
    hide Unformat, DecimalsOf, DecimalValue;
    var sum := 0;
    for i := 0 to 16
      invariant sum == LuhnSum(digits[..i])
    {
      var digit := DecimalAt(clean, i);
      if i % 2 == 0 {
        var doubled := digit * 2;
        sum := sum + (if doubled > 9 then doubled - 9 else doubled);
      } else {
        sum := sum + digit;
      }
      assert digits[..i + 1][..i] == digits[..i];
    }
    assert digits[..16] == digits;
    ok := sum % 10 == 0;
  }

  /** `digitToInt` on a character known to be a digit. */
  method DecimalAt(s: string, i: nat) returns (digit: nat)
    requires i < |s| && AllDecimal(s)
    ensures digit == DecimalsOf(s)[i] && digit <= 9
  {
    digit := DecimalValue(s[i]).value;
  }

  lemma {:induction false} TrimStartKeepsDigits(s: string)
    ensures Normalize(TrimStart(s)) == Normalize(s)
  {
    if s != [] && IsKotlinSpace(s[0]) {
      TrimStartKeepsDigits(s[1..]);
    }
  }

  lemma {:induction false} TrimEndKeepsDigits(s: string)
    ensures Normalize(TrimEnd(s)) == Normalize(s)
  {
    if s != [] && IsKotlinSpace(s[|s| - 1]) {
      var init, last := s[..|s| - 1], s[|s| - 1..];
      assert s == init + last;
      FilterConcat(init, last, IsDigit);
      FilterNone(last, IsDigit);
      TrimEndKeepsDigits(init);
    }
  }

  lemma BareKeepsDigits(s: string)
    ensures Normalize(Bare(s)) == Normalize(s)
  {
    var a := Filter(s, Other('-'));
    var b := Filter(a, Other(' '));
    FilterTwice(s, Other('-'), IsDigit);
    FilterTwice(a, Other(' '), IsDigit);
    TrimStartKeepsDigits(b);
    TrimEndKeepsDigits(TrimStart(b));
  }

  lemma DecimalsOfDigits(s: string)
    requires AllDigits(s)
    ensures AllDecimal(s) && DecimalsOf(s) == DigitsOf(s)
  {
    hide DecimalValue;
    assert forall i :: 0 <= i < |s| ==> s[i] in s;
  }

  lemma {:induction false} FewerDigits(s: string)
    ensures |Normalize(s)| <= |s|
    ensures !AllDigits(s) ==> |Normalize(s)| < |s|
  {
    if s != [] {
      FewerDigits(s[1..]);
      assert s == [s[0]] + s[1..];
    }
  }

  /** For every text: where only ASCII digits are left once hyphens, spaces and outer blanks
      are gone, client and engine give the same verdict; anywhere else they never both accept. */
  lemma ValidatorsAgreeExactly(s: string, upper: string -> string)
    requires KeepsDigits(upper)
    ensures AllDigits(Bare(s)) ==> (KotlinValid(Some(s), upper) <==> Valid(s))
    ensures !AllDigits(Bare(s)) ==> !(KotlinValid(Some(s), upper) && Valid(s))
  {
    var bare := Bare(s);
    BareKeepsDigits(s);
    FewerDigits(bare);
    hide Bare, DecimalValue, LuhnSum;
    assert AllDecimal(upper(bare)) ==> upper(bare) == bare;
    if AllDigits(bare) {
      FilterAll(bare, IsDigit);
      DecimalsOfDigits(bare);
      assert Normalize(s) == bare;
      if IsBlank(s) {
        FilterNone(s, IsDigit);
      }
    }
  }

  /** Both kinds of disagreement exist: digits of another script pass the client only, a
      letter among the digits passes the engine only. */
  lemma ValidatorsDiffer(upper: string -> string)
    requires KeepsDigits(upper)
    ensures KotlinValid(Some(ForeignZeros(16)), upper) && !Valid(ForeignZeros(16))
    ensures Valid("x" + FIRST_ID) && !KotlinValid(Some("x" + FIRST_ID), upper)
  {
    ForeignDigitsPass(upper);
    LetterPasses(upper);
  }

  lemma BareAlready(s: string)
    requires s != [] && '-' !in s && ' ' !in s && !IsKotlinSpace(s[0]) && !IsKotlinSpace(s[|s| - 1])
    ensures Bare(s) == s
  {
    FilterAll(s, Other('-'));
    FilterAll(s, Other(' '));
    hide Filter, IsKotlinSpace;
  }

  /** `n` zeros of another script. */
  function ForeignZeros(n: nat): (s: string)
    ensures |s| == n && forall c :: c in s ==> c == '\U{0660}'
  {
    seq(n, _ => '\U{0660}')
  }

  lemma ForeignDigitsPass(upper: string -> string)
    requires KeepsDigits(upper)
    ensures KotlinValid(Some(ForeignZeros(16)), upper) && !Valid(ForeignZeros(16))
  {
    var foreign := ForeignZeros(16);
    ForeignFacts(foreign);
    hide ForeignZeros, Filter, Normalize, Bare, DecimalValue, IsKotlinSpace;
    assert upper(foreign) == foreign;
    LuhnSumOfZeros(DecimalsOf(foreign));
  }

  lemma ForeignFacts(foreign: string)
    requires |foreign| == 16 && forall c :: c in foreign ==> c == '\U{0660}'
    ensures Normalize(foreign) == [] && Bare(foreign) == foreign && !IsBlank(foreign)
    ensures AllDecimal(foreign) && forall i :: 0 <= i < 16 ==> DecimalsOf(foreign)[i] == 0
  {
    assert foreign[0] in foreign && foreign[15] in foreign;
    FilterNone(foreign, IsDigit);
    BareAlready(foreign);
    ForeignZero();
    hide Filter, Bare, DecimalValue;
    assert forall i :: 0 <= i < 16 ==> foreign[i] in foreign;
  }

  lemma ForeignZero()
    ensures DecimalValue('\U{0660}') == Some(0)
  {
    assert ZEROES[1..][0] == 0x0660;
    assert DecimalFrom('\U{0660}', ZEROES[1..]) == Some(0);
  }

  lemma LetterPasses(upper: string -> string)
    requires KeepsDigits(upper)
    ensures Valid("x" + FIRST_ID) && !KotlinValid(Some("x" + FIRST_ID), upper)
  {
    var s := "x" + FIRST_ID;
    LetterIsDropped();
    assert s[0] == 'x' && s[16] == '0' && '-' !in s && ' ' !in s;
    BareAlready(s);
    assert !IsDigit('x') && 'x' in s;
    hide Normalize, Valid, Bare, KotlinValid;
    ValidatorsAgreeExactly(s, upper);
  }

  lemma LetterIsDropped()
    ensures Valid("x" + FIRST_ID)
  {
    ExamplesAreValid();
    FilterConcat("x", FIRST_ID, IsDigit);
    FilterNone("x", IsDigit);
    assert Normalize("x" + FIRST_ID) == FIRST_ID;
    hide Filter, Normalize;
  }

  lemma TrimOfDigits(s: string)
    requires AllDigits(s)
    ensures TrimEnd(TrimStart(s)) == s
  {
    assert forall i :: 0 <= i < |s| ==> s[i] in s;
  }

  lemma BareGroups(s: string)
    requires forall c :: c in s ==> IsDigit(c) || c == ' ' || c == '-'
    ensures AllDigits(Bare(s))
  {
    var a := Filter(s, Other('-'));
    FilterMembers(s, Other('-'));
    FilterMembers(a, Other(' '));
    TrimOfDigits(Filter(a, Other(' ')));
  }

  /** On digits, spaces and hyphens both validators accept the same texts, and both ends
      print an accepted identifier the same way. */
  lemma ValidatorsAgreeOnDigitGroups(s: string, upper: string -> string)
    requires forall c :: c in s ==> IsDigit(c) || c == ' ' || c == '-'
    requires KeepsDigits(upper)
    ensures KotlinValid(Some(s), upper) <==> Valid(s)
    ensures Valid(s) ==> KotlinFormat(s, upper) == Format(s)
  {
    BareGroups(s);
    ValidatorsAgreeExactly(s, upper);
    BareKeepsDigits(s);
    hide Bare, DecimalValue, LuhnSum;
    if Valid(s) {
      FilterAll(Bare(s), IsDigit);
      DecimalsOfDigits(Bare(s));
      ChunkedGroups(Normalize(s));
    }
  }

  lemma ChunkedGroups(n: string)
    requires |n| == 16
    ensures Chunked(n) == Group4(n[0..4], n[4..8], n[8..12], n[12..16])
  {
    var m, l, k := n[4..], n[8..], n[12..];
    assert m[..4] == n[4..8] && m[4..] == l;
    assert l[..4] == n[8..12] && l[4..] == k;
    assert Chunked(l) == n[8..12] + "-" + k;
    assert Chunked(m) == n[4..8] + "-" + Chunked(l);
    assert Chunked(n) == n[..4] + "-" + Chunked(m);
  }

  /** The digits written out. */
  function TextOf(digits: seq<nat>): (s: string)
    requires AreDigits(digits)
    ensures |s| == |digits| && AllDigits(s) && DigitsOf(s) == digits
  {
    seq(|digits|, i requires 0 <= i < |digits| => (digits[i] + 48) as char)
  }

  /** `generateRandomOmaId` fills sixteen cells from fifteen draws, summing as it goes, ... */
  method GenerateDigits(draws: seq<nat>) returns (digits: array<nat>)
    requires |draws| == 15 && AreDigits(draws)
    ensures fresh(digits) && digits.Length == 16
    ensures digits[..] == draws + [CheckDigit(draws)] && LuhnValid(digits[..])
  {
    digits := new nat[16](_ => 0);
    var sum := 0;
    for i := 0 to 15
      invariant digits[..i] == draws[..i]
      invariant sum == LuhnSum(draws[..i])
    {
      digits[i] := draws[i];
      if i % 2 == 0 {
        var doubled := digits[i] * 2;
        sum := sum + (if doubled > 9 then doubled - 9 else doubled);
      } else {
        sum := sum + digits[i];
      }
      assert draws[..i + 1][..i] == draws[..i];
    }
    digits[15] := (10 - sum % 10) % 10;
    assert draws[..15] == draws;
    CheckDigitIsTheOnlyOne(draws, digits[15]);
    assert digits[..] == draws + [digits[15]];
  }

  /** ... and prints them in groups: a text that both ends accept and whose digits are the
      draws and their check digit. */
  method GenerateRandomOmaId(draws: seq<nat>, upper: string -> string) returns (text: string)
    requires |draws| == 15 && AreDigits(draws) && KeepsDigits(upper)
    ensures Normalize(text) == TextOf(draws + [CheckDigit(draws)])
    ensures Valid(text) && KotlinValid(Some(text), upper) && Format(text) == text
  {
    var digits := GenerateDigits(draws);
    var raw := TextOf(digits[..]);
    text := KotlinFormat(raw, upper);
    GeneratedIsValid(digits[..], upper);
  }

  lemma GeneratedIsValid(digits: seq<nat>, upper: string -> string)
    requires LuhnValid(digits) && KeepsDigits(upper)
    ensures var raw := TextOf(digits);
            var text := KotlinFormat(raw, upper);
            Normalize(text) == raw && Valid(text) && KotlinValid(Some(text), upper) && Format(text) == text
  {
    var raw := TextOf(digits);
    SixteenDigitsAreNormal(raw);
    ValidatorsAgreeOnDigitGroups(raw, upper);
    FormatKeepsIdentity(raw);
    var text := KotlinFormat(raw, upper);
    GroupsAreDigitGroups(raw[0..4], raw[4..8], raw[8..12], raw[12..16]);
    hide KotlinFormat, KotlinValid, Valid, Normalize, TextOf, LuhnValid, Group4;
    ValidatorsAgreeOnDigitGroups(text, upper);
  }

  lemma GroupsAreDigitGroups(a: string, b: string, c: string, d: string)
    requires AllDigits(a) && AllDigits(b) && AllDigits(c) && AllDigits(d)
    ensures forall x :: x in Group4(a, b, c, d) ==> IsDigit(x) || x == ' ' || x == '-'
  {
  }
}
