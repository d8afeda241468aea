/** The smoothed transfer rate of TransferSpeedCalculator.kt, over the reals. */
module SpeedCalculator {
  import opened Prelude

  const SAMPLE_MS: int := 150

  function Max(a: int, b: int): int {
    if a >= b then a else b
  }

  function RealMax(a: real, b: real): real {
    if a >= b then a else b
  }

  datatype Metrics = Metrics(percent: int, speedMBps: real, etaSeconds: int, isCompleted: bool)

  function Rate(bytes: int, ms: int): real
    requires ms > 0
  {
    bytes as real / ms as real * 1000.0
  }

  function Smoothed(old': real, factor: real, sample: real): real {
    if old' <= 0.0 then sample else factor * sample + (1.0 - factor) * old'
  }

  const LONG_MAX: int := 0x7FFF_FFFF_FFFF_FFFF

  /** What 64-bit signed arithmetic leaves of `x`. */
  function ToLong(x: int): int {
    (x + LONG_MAX + 1) % 0x1_0000_0000_0000_0000 - (LONG_MAX + 1)
  }

  function ToInt(x: int): int {
    (x + 0x8000_0000) % 0x1_0000_0000 - 0x8000_0000
  }

  /** Division that drops the fraction, towards zero. */
  function Truncated(a: int, d: int): int
    requires d > 0
  {
    if a >= 0 then a / d else -(-a / d)
  }

  /** What is shown for a product that has come out as `left`. */
  function Shown(left: int, total: int): int
    requires total > 0
  {
    Max(0, Min(100, ToInt(Truncated(left, total))))
  }

  function Percent(bytes: int, total: int): int {
    if total > 0 then Shown(ToLong(bytes * 100), total) else 0
  }

  /** Seconds left at this rate: none when nothing is left or the rate is below 1 KiB/s. */
  function EtaSeconds(remaining: int, rate: real): (eta: int)
    ensures eta > 0 <==> rate > 1024.0 && remaining > 0
    ensures eta >= 0
  {
    if rate > 1024.0 && remaining > 0 then Max(1, (remaining as real / rate).Floor) else 0
  }

  predicate Within(x: real, lo: real, hi: real) {
    lo <= x <= hi
  }

  /** `x` lies between the smallest and the largest of the rates. */
  ghost predicate Between(x: real, rates: seq<real>) {
    forall lo, hi :: (forall i :: 0 <= i < |rates| ==> Within(rates[i], lo, hi)) ==> Within(x, lo, hi)
  }

  /** The smoothed rate after these instantaneous rates. */
  function SmoothedAfter(rates: seq<real>, factor: real): real {
    if rates == [] then 0.0
    else Smoothed(SmoothedAfter(rates[..|rates| - 1], factor), factor, rates[|rates| - 1])
  }

  lemma OneMoreRate(rates: seq<real>, factor: real, rate: real)
    ensures SmoothedAfter(rates + [rate], factor) == Smoothed(SmoothedAfter(rates, factor), factor, rate)
  {
    assert (rates + [rate])[..|rates|] == rates;
  }

  /** After any run the smoothed rate lies between the smallest and the largest rate sampled. */
  lemma {:induction false} SmoothedRateIsBetween(rates: seq<real>, factor: real)
    requires 0.0 < factor <= 1.0 && rates != []
    ensures Between(SmoothedAfter(rates, factor), rates)
  {
    var before := rates[..|rates| - 1];
    if before != [] {
      SmoothedRateIsBetween(before, factor);
    }
    SmoothingStaysBetween(SmoothedAfter(before, factor), factor, before, rates[|rates| - 1]);
    assert rates == before + [rates[|rates| - 1]];
  }

  lemma {:induction false} SmoothedRateIsNotNegative(rates: seq<real>, factor: real)
    requires 0.0 < factor <= 1.0
    requires forall i :: 0 <= i < |rates| ==> rates[i] >= 0.0
    ensures SmoothedAfter(rates, factor) >= 0.0
  {
    if rates != [] {
      SmoothedRateIsNotNegative(rates[..|rates| - 1], factor);
      SmoothedNonNegative(SmoothedAfter(rates[..|rates| - 1], factor), factor, rates[|rates| - 1]);
    }
  }

  /** The estimate is the whole seconds the rest takes at this rate, and at least one. */
  lemma EtaIsTheWholeSeconds(remaining: int, rate: real)
    requires rate > 1024.0 && remaining > 0
    ensures var eta := EtaSeconds(remaining, rate);
            && eta >= 1
            && (eta > 1 ==> rate * eta as real <= remaining as real)
            && remaining as real < rate * (eta + 1) as real
  {
    var q := remaining as real / rate;
    var eta := EtaSeconds(remaining, rate);
    assert rate * q == remaining as real;
    if eta > 1 {
      ScaledKeepsOrder(rate, eta as real, q);
    }
    BelowNext(remaining as real, rate, q, (eta + 1) as real);
  }

  lemma BelowNext(whole: real, rate: real, q: real, next: real)
    requires rate > 0.0 && rate * q == whole && q < next
    ensures whole < rate * next
  {
    ScaledStrictly(rate, q, next);
  }

  lemma ScaledStrictly(c: real, x: real, y: real)
    requires c > 0.0 && x < y
    ensures c * x < c * y
  {
    assert c * (y - x) > 0.0;
  }

  /** A weighted mean stays between whatever its parts stay between. */
  lemma SmoothingStaysBetween(x: real, factor: real, rates: seq<real>, sample: real)
    requires 0.0 < factor <= 1.0
    requires if rates == [] then x == 0.0 else Between(x, rates)
    ensures Between(Smoothed(x, factor, sample), rates + [sample])
  {
    var all := rates + [sample];
    forall lo: real, hi: real | forall i :: 0 <= i < |all| ==> Within(all[i], lo, hi)
      ensures Within(Smoothed(x, factor, sample), lo, hi)
    {
      assert Within(all[|rates|], lo, hi);
      if rates != [] {
        assert forall i :: 0 <= i < |rates| ==> Within(rates[i], lo, hi) by {
          assert forall i :: 0 <= i < |rates| ==> rates[i] == all[i];
        }
        MeanBetween(factor, sample, x, lo, hi);
      }
    }
  }

  lemma MeanBetween(f: real, a: real, b: real, lo: real, hi: real)
    requires 0.0 <= f <= 1.0 && Within(a, lo, hi) && Within(b, lo, hi)
    ensures Within(f * a + (1.0 - f) * b, lo, hi)
  {
    var g := 1.0 - f;
    assert Within(Times(f, a) + Times(g, b), lo, hi) by {
      hide Times;
      TimesKeepsOrder(f, lo, a);
      TimesKeepsOrder(f, a, hi);
      TimesKeepsOrder(g, lo, b);
      TimesKeepsOrder(g, b, hi);
      WeightsAddToOne(f, lo);
      WeightsAddToOne(f, hi);
    }
  }

  /** A product under a name, so that sums of products stay linear. */
  function Times(x: real, y: real): real {
    x * y
  }

  lemma TimesKeepsOrder(c: real, x: real, y: real)
    requires c >= 0.0 && x <= y
    ensures Times(c, x) <= Times(c, y)
  {
    ScaledKeepsOrder(c, x, y);
  }

  lemma WeightsAddToOne(f: real, x: real)
    ensures Times(f, x) + Times(1.0 - f, x) == x
  {
    assert (f + (1.0 - f)) * x == f * x + (1.0 - f) * x;
  }

  lemma ScaledKeepsOrder(c: real, x: real, y: real)
    requires c >= 0.0 && x <= y
    ensures c * x <= c * y
  {
    assert c * (y - x) >= 0.0;
  }

  /** Below the 64-bit limit, more bytes never lower the percentage, and the whole is 100. */
  lemma PercentNeverDecreases(a: int, b: int, total: int)
    requires 0 <= a <= b <= total && total * 100 <= LONG_MAX
    ensures 0 <= Percent(a, total) <= Percent(b, total) <= 100
    ensures Percent(b, total) == 100 <==> 0 < total == b
  {
    if total > 0 {
      Exact(a, total);
      Exact(b, total);
      QuotientMonotone(a * 100, b * 100, total);
      HundredOnlyAtTheEnd(b, total);
    }
  }

  /** What 64 bits leave of a hundred times a whole number. */
  lemma ProductInLong(bytes: int)
    ensures -LONG_MAX - 1 <= ToLong(bytes * 100) <= LONG_MAX - 3
    ensures 0 <= bytes * 100 <= LONG_MAX ==> ToLong(bytes * 100) == bytes * 100
  {
    var t := bytes * 100 + LONG_MAX + 1;
    var laps := t / 0x1_0000_0000_0000_0000;
    assert ToLong(bytes * 100) == 4 * (25 * bytes - laps * 0x4000_0000_0000_0000);
  }

  lemma ShownForNegative(left: int, total: int)
    requires -LONG_MAX - 1 <= left < 0 && LONG_MAX < total * 100
    ensures Shown(left, total) == 0
  {
    SmallQuotient(-left, total, 101);
  }

  lemma ShownForSmall(left: int, total: int)
    requires 0 <= left < total
    ensures Shown(left, total) == 0
  {
    SmallQuotient(left, total, 0);
  }

  lemma ShownForLarge(left: int, total: int)
    requires 0 < total <= left <= LONG_MAX < total * 100
    ensures Shown(left, total) >= 1
  {
    SmallQuotient(left, total, 100);
    QuotientOfMultiple(1, total);
    QuotientMonotone(total, left, total);
  }

  /** A hundred times this many bytes come out as the largest multiple of four. */
  const WRAPPED: int := 0x10A3D70A3D70A3D7

  /** Above the limit it drops where the product turns negative. */
  lemma PercentDropsBeyondTheLimit(total: int) returns (a: int)
    requires LONG_MAX < total * 100 && total < LONG_MAX - 2
    ensures 0 <= a < total && Percent(a + 1, total) < Percent(a, total)
  {
    a := if total <= LONG_MAX / 100 * 100 then LONG_MAX / 100 else WRAPPED;
    var before, after := ToLong(a * 100), ToLong((a + 1) * 100);
    assert total <= before <= LONG_MAX && -LONG_MAX - 1 <= after < 0;
    hide ToLong, Shown;
    ShownForLarge(before, total);
    ShownForNegative(after, total);
  }

  /** The three largest totals show 0 throughout: no product reaches them. */
  lemma LargestTotalsShowNothing(bytes: int, total: int)
    requires LONG_MAX - 2 <= total <= LONG_MAX
    ensures Percent(bytes, total) == 0
  {
    ProductInLong(bytes);
    hide ToLong, Shown;
    var left := ToLong(bytes * 100);
    if left >= 0 {
      ShownForSmall(left, total);
    } else {
      ShownForNegative(left, total);
    }
  }

  /** Within the total, more bytes never lower the percentage, exactly if a hundred times the
      total is below the 64-bit limit or the total is one of the three largest. */
  lemma PercentNeverDecreasesExactly(total: int)
    requires 0 < total <= LONG_MAX
    ensures (forall a, b :: 0 <= a <= b <= total ==> Percent(a, total) <= Percent(b, total))
            <==> total * 100 <= LONG_MAX || total >= LONG_MAX - 2
  {
    if total * 100 <= LONG_MAX {
      forall a, b | 0 <= a <= b <= total ensures Percent(a, total) <= Percent(b, total) {
        PercentNeverDecreases(a, b, total);
      }
    } else if total >= LONG_MAX - 2 {
      forall a, b | 0 <= a <= b <= total ensures Percent(a, total) <= Percent(b, total) {
        LargestTotalsShowNothing(a, total);
        LargestTotalsShowNothing(b, total);
      }
    } else {
      var a := PercentDropsBeyondTheLimit(total);
    }
  }

  lemma PercentInRange(bytes: int, total: int)
    ensures 0 <= Percent(bytes, total) <= 100
  {
  }

  lemma Exact(bytes: int, total: int)
    requires 0 <= bytes <= total && 0 < total && total * 100 <= LONG_MAX
    ensures Percent(bytes, total) == bytes * 100 / total <= 100
  {
    ProductInLong(bytes);
    hide ToLong;
    QuotientMonotone(bytes * 100, total * 100, total);
    QuotientOfMultiple(100, total);
    QuotientMonotone(0, bytes * 100, total);
  }

  lemma HundredOnlyAtTheEnd(b: int, total: int)
    requires 0 <= b <= total && 0 < total
    ensures b * 100 / total == 100 <==> b == total
  {
    QuotientOfMultiple(100, total);
    var q := b * 100 / total;
    assert b * 100 == total * q + b * 100 % total;
  }

  lemma QuotientOfMultiple(k: int, d: int)
    requires d > 0
    ensures d * k / d == k
  {
    var q := d * k / d;
    assert d * k == d * q + d * k % d;
    CancelLess(d, q, k + 1);
    CancelLess(d, k, q + 1);
  }

  lemma QuotientMonotone(a: int, b: int, d: int)
    requires d > 0 && a <= b
    ensures a / d <= b / d
  {
    assert a == d * (a / d) + a % d;
    assert b == d * (b / d) + b % d;
    CancelLess(d, a / d, b / d + 1);
  }

  lemma CancelLess(d: int, x: int, y: int)
    requires d > 0 && d * x < d * y
    ensures x < y
  {
    if x >= y {
      ScaledIntKeepsOrder(d, y, x);
    }
  }

  lemma ScaledIntKeepsOrder(d: int, x: int, y: int)
    requires d >= 0 && x <= y
    ensures d * x <= d * y
  {
    assert d * (y - x) >= 0;
  }

  /** A finished transfer shows 100 exactly when a hundred times its size is below the 64-bit limit. */
  lemma FinishedShowsHundredExactly(total: int)
    requires 0 < total <= LONG_MAX
    ensures Percent(total, total) == 100 <==> total * 100 <= LONG_MAX
  {
    if total * 100 <= LONG_MAX {
      Exact(total, total);
      HundredOnlyAtTheEnd(total, total);
    } else {
      var left := ToLong(total * 100);
      assert left < total * 100;
      ProductInLong(total);
      hide ToLong;
      if left >= 0 {
        SmallQuotient(left, total, 99);
      } else {
        ShownForNegative(left, total);
      }
    }
  }

  lemma SmallQuotient(a: int, d: int, k: int)
    requires a >= 0 && d > 0 && a < d * (k + 1)
    ensures 0 <= a / d <= k
  {
    assert a == d * (a / d) + a % d;
    CancelLess(d, a / d, k + 1);
    CancelLess(d, 0, a / d + 1);
  }

  lemma RateIsNotNegative(bytes: int, ms: int)
    requires bytes >= 0 && ms > 0
    ensures Rate(bytes, ms) >= 0.0
  {
  }

  class TransferSpeedCalculator {
    const totalBytes: int
    const smoothingFactor: real
    var startTimeMs: int
    var lastSampleTimeMs: int
    var lastSampleBytes: int
    var smoothedBytesPerSec: real
    /** The instantaneous rates taken since the start or the last reset. */
    ghost var rates: seq<real>

    /** What every run of updates and resets keeps, whatever the clock and the byte counts do. */
    ghost predicate Valid()
      reads this
    {
      && smoothedBytesPerSec == SmoothedAfter(rates, smoothingFactor)
      && (forall i :: 0 <= i < |rates| ==> rates[i] >= 0.0)
    }

    constructor (totalBytes: int, smoothingFactor: real)
      ensures Valid() && rates == [] && startTimeMs == -1
      ensures this.totalBytes == totalBytes && this.smoothingFactor == smoothingFactor
    {
      this.totalBytes, this.smoothingFactor := totalBytes, smoothingFactor;
      startTimeMs, lastSampleTimeMs, lastSampleBytes := -1, -1, 0;
      smoothedBytesPerSec := 0.0;
      rates := [];
    }

    method Update(bytesTransferred: int, now: int) returns (m: Metrics)
      requires Valid()
      modifies this
      ensures Valid()
      // a sample is due after 150 ms or at the end; it is taken if time has passed and the
      // byte count has not fallen
      ensures var last := if old(startTimeMs) == -1 then now else old(lastSampleTimeMs);
              var due := now - last >= SAMPLE_MS || bytesTransferred >= totalBytes;
              var taken := due && now > last && bytesTransferred >= old(lastSampleBytes);
              && rates == old(rates)
                          + (if taken then [Rate(bytesTransferred - old(lastSampleBytes), now - last)] else [])
              && lastSampleTimeMs == (if due then now else last)
              && lastSampleBytes == (if due then bytesTransferred else old(lastSampleBytes))
      ensures startTimeMs == if old(startTimeMs) == -1 then now else old(startTimeMs)
      ensures m.percent == Percent(bytesTransferred, totalBytes) && 0 <= m.percent <= 100
      ensures m.etaSeconds >= 0 && (m.etaSeconds > 0 ==> bytesTransferred < totalBytes) && m.speedMBps >= 0.0
      ensures m.isCompleted <==> totalBytes > 0 && bytesTransferred >= totalBytes
    {
      hide Between, Smoothed, SmoothedAfter, Rate, Percent, Within;
      PercentInRange(bytesTransferred, totalBytes);
      if startTimeMs == -1 {
        startTimeMs := now;
        lastSampleTimeMs := now;
      }
      var deltaMs := now - lastSampleTimeMs;
      var totalElapsedMs := Max(1, now - startTimeMs);
      if deltaMs >= SAMPLE_MS || bytesTransferred >= totalBytes {
        var deltaBytes := bytesTransferred - lastSampleBytes;
        if deltaMs > 0 && deltaBytes >= 0 {
          var instantaneousRate := Rate(deltaBytes, deltaMs);
          RateIsNotNegative(deltaBytes, deltaMs);
          OneMoreRate(rates, smoothingFactor, instantaneousRate);
          smoothedBytesPerSec := Smoothed(smoothedBytesPerSec, smoothingFactor, instantaneousRate);
          rates := rates + [instantaneousRate];
        }
        lastSampleTimeMs := now;
        lastSampleBytes := bytesTransferred;
      }
      var effectiveRate :=
        if smoothedBytesPerSec > 0.0 then smoothedBytesPerSec else Rate(bytesTransferred, totalElapsedMs);
      var speedMBps := RealMax(effectiveRate / (1024.0 * 1024.0), 0.0);
      var remainingBytes := Max(0, totalBytes - bytesTransferred);
      var eta := EtaSeconds(remainingBytes, effectiveRate);
      var isCompleted := totalBytes > 0 && bytesTransferred >= totalBytes;
      m := Metrics(Percent(bytesTransferred, totalBytes), speedMBps, eta, isCompleted);
    }

    method Reset(now: int)
      modifies this
      ensures Valid() && rates == [] && lastSampleBytes == 0
      ensures startTimeMs == lastSampleTimeMs == now && smoothedBytesPerSec == 0.0
    {
      startTimeMs, lastSampleTimeMs := now, now;
      lastSampleBytes, smoothedBytesPerSec := 0, 0.0;
      rates := [];
    }
  }

  lemma SmoothedNonNegative(x: real, f: real, sample: real)
    requires x >= 0.0 && 0.0 < f <= 1.0 && sample >= 0.0
    ensures Smoothed(x, f, sample) >= 0.0
  {
    assert f * sample >= 0.0 && (1.0 - f) * x >= 0.0;
  }
}
