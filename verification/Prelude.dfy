/** Small shared vocabulary: optional and fallible values, bytes, weighted sums over
    sequences, and order-preserving filters. */
module Prelude {

  datatype Option<+T> = None | Some(value: T)

  datatype Result<+T, +E> = Ok(value: T) | Err(error: E)

  type byte = b: int | 0 <= b < 256

  const U64_MAX: nat := 0xFFFF_FFFF_FFFF_FFFF

  type Bytes = seq<byte>

  type u16 = n: int | 0 <= n < 0x1_0000

  const U32_MAX: nat := 0xFFFF_FFFF

  type u64 = n: int | 0 <= n <= U64_MAX

  /** The ceiling for an upload, and the space to be left free on disk. */
  const MAX_BODY_SIZE: nat := 100 * 1024 * 1024
  const DISK_HEADROOM: u64 := 25 * 1024 * 1024

  function Min(a: int, b: int): int {
    if a <= b then a else b
  }

  /** `saturating_add` on an unsigned 64-bit counter. */
  function SaturatingAdd(a: u64, b: u64): u64 {
    if a + b > U64_MAX then U64_MAX else a + b
  }

  /** Two bytes in network order, and back. */
  function Word(b: Bytes, i: nat): u16
    requires i + 2 <= |b|
  {
    (b[i] as int) * 0x100 + (b[i + 1] as int)
  }

  function WordBytes(w: u16): (r: Bytes)
    ensures |r| == 2 && Word(r, 0) == w
  {
    [w / 0x100, w % 0x100]
  }

  /** The value of a hexadecimal digit of either case, given its code. */
  function HexValue(code: int): (r: Option<nat>)
    ensures r.Some? ==> r.value < 16
  {
    if 48 <= code <= 57 then Some(code - 48)
    else if 65 <= code <= 70 then Some(code - 65 + 10)
    else if 97 <= code <= 102 then Some(code - 97 + 10)
    else None
  }

  function LowerChar(c: char): char {
    if 'A' <= c <= 'Z' then ((c as int) + 32) as char else c
  }

  /** Equal but for the case that `lower` removes. */
  predicate EqIgnoreCase<T(==)>(a: seq<T>, b: seq<T>, lower: T -> T) {
    |a| == |b| && forall i :: 0 <= i < |a| ==> lower(a[i]) == lower(b[i])
  }

  /** Rust's `char::is_whitespace`. */
  predicate IsUnicodeSpace(c: char) {
    '\t' <= c <= '\r' || c == ' ' || c == '\U{85}' || c == '\U{A0}' || c == '\U{1680}'
    || '\U{2000}' <= c <= '\U{200A}' || c == '\U{2028}' || c == '\U{2029}' || c == '\U{202F}'
    || c == '\U{205F}' || c == '\U{3000}'
  }

  function Trim(s: string): string {
    if s == [] then s
    else if IsUnicodeSpace(s[0]) then Trim(s[1..])
    else if IsUnicodeSpace(s[|s| - 1]) then Trim(s[..|s| - 1])
    else s
  }

  /** Kotlin's `isWhitespace`. */
  predicate IsKotlinSpace(c: char) {
    '\t' <= c <= '\r' || '\U{1C}' <= c <= ' ' || c == '\U{A0}' || c == '\U{1680}'
    || '\U{2000}' <= c <= '\U{200A}' || c == '\U{2028}' || c == '\U{2029}' || c == '\U{202F}'
    || c == '\U{205F}' || c == '\U{3000}'
  }

  predicate IsBlank(s: string) {
    forall c :: c in s ==> IsKotlinSpace(c)
  }

  function Elements<T(==)>(s: seq<T>): set<T> {
    set x | x in s
  }

  function Other<T(==)>(c: T): T -> bool {
    x => x != c
  }

  predicate NoRepeats<T(==)>(s: seq<T>) {
    forall i, j :: 0 <= i < j < |s| ==> s[i] != s[j]
  }

  /** The sum of `w` over `s`; with a 0/1 weight this counts. */
  function Sum<T>(s: seq<T>, w: T -> int): int {
    if s == [] then 0 else Sum(s[..|s| - 1], w) + w(s[|s| - 1])
  }

  lemma {:induction false} SumUpdate<T>(s: seq<T>, w: T -> int, i: nat, v: T)
    requires i < |s|
    ensures Sum(s[i := v], w) == Sum(s, w) - w(s[i]) + w(v)
  {
    var n := |s| - 1;
    if i == n {
      assert s[i := v][..n] == s[..n];
    } else {
      assert s[i := v][..n] == s[..n][i := v];
      SumUpdate(s[..n], w, i, v);
    }
  }

  lemma {:induction false} SumNonNegative<T>(s: seq<T>, w: T -> int)
    requires forall x :: x in s ==> w(x) >= 0
    ensures Sum(s, w) >= 0
  {
    if s != [] {
      SumNonNegative(s[..|s| - 1], w);
    }
  }

  lemma {:induction false} SumAtLeast<T>(s: seq<T>, w: T -> int, i: nat)
    requires i < |s|
    requires forall x :: x in s ==> w(x) >= 0
    ensures Sum(s, w) >= w(s[i])
  {
    var n := |s| - 1;
    if i == n {
      SumNonNegative(s[..n], w);
    } else {
      SumAtLeast(s[..n], w, i);
    }
  }

  lemma {:induction false} SumZero<T>(s: seq<T>, w: T -> int)
    requires forall x :: x in s ==> w(x) == 0
    ensures Sum(s, w) == 0
  {
    if s != [] {
      SumZero(s[..|s| - 1], w);
    }
  }

  lemma {:induction false} SumConcat<T>(a: seq<T>, b: seq<T>, w: T -> int)
    ensures Sum(a + b, w) == Sum(a, w) + Sum(b, w)
  {
    if b == [] {
      assert a + b == a;
    } else {
      assert (a + b)[..|a + b| - 1] == a + b[..|b| - 1];
      SumConcat(a, b[..|b| - 1], w);
    }
  }

  /** The elements of `s` that satisfy `p`, in order. */
  function Filter<T>(s: seq<T>, p: T -> bool): seq<T> {
    if s == [] then []
    else if p(s[0]) then [s[0]] + Filter(s[1..], p)
    else Filter(s[1..], p)
  }

  lemma {:induction false} FilterConcat<T>(a: seq<T>, b: seq<T>, p: T -> bool)
    ensures Filter(a + b, p) == Filter(a, p) + Filter(b, p)
  {
    if a == [] {
      assert a + b == b;
    } else {
      assert (a + b)[1..] == a[1..] + b;
      FilterConcat(a[1..], b, p);
    }
  }

  lemma {:induction false} FilterMembers<T>(s: seq<T>, p: T -> bool)
    ensures forall x :: x in Filter(s, p) <==> x in s && p(x)
  {
    if s != [] {
      FilterMembers(s[1..], p);
      assert s == [s[0]] + s[1..];
    }
  }

  lemma {:induction false} FilterAll<T>(s: seq<T>, p: T -> bool)
    requires forall x :: x in s ==> p(x)
    ensures Filter(s, p) == s
  {
    if s != [] {
      FilterAll(s[1..], p);
    }
  }

  lemma {:induction false} FilterNone<T>(s: seq<T>, p: T -> bool)
    requires forall x :: x in s ==> !p(x)
    ensures Filter(s, p) == []
  {
    if s != [] {
      FilterNone(s[1..], p);
    }
  }

  /** Filtering by a weaker predicate first changes nothing. */
  lemma {:induction false} FilterTwice<T>(s: seq<T>, weak: T -> bool, strong: T -> bool)
    requires forall x :: x in s && strong(x) ==> weak(x)
    ensures Filter(Filter(s, weak), strong) == Filter(s, strong)
  {
    if s != [] {
      FilterTwice(s[1..], weak, strong);
      if weak(s[0]) {
        assert Filter(s, weak)[1..] == Filter(s[1..], weak);
      }
    }
  }
}
