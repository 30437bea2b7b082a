/**
 The webhook dispatcher's retry delay: doubling up to a ceiling, then jitter in
 basis points.  Durations are int64 nanoseconds and the arithmetic wraps.
 */
module Backoff {
  import opened Radix

  const HALF: int := 0x4000_0000_0000_0000
  const LIMIT: int := 0x8000_0000_0000_0000
  const WORD: int := 0x1_0000_0000_0000_0000
  const BASIS: int := 10000

  type Duration = x: int | -0x8000_0000_0000_0000 <= x < 0x8000_0000_0000_0000

  /** The FNV-1a digest of event, row and attempt. */
  type Digest = x: int | 0 <= x < 0x1_0000_0000

  /** Two's-complement truncation to 64 bits. */
  function Wrap64(x: int): (r: Duration)
    ensures -LIMIT <= x < LIMIT ==> r == x
    ensures LIMIT <= x < WORD ==> r == x - WORD
  {
    (x + LIMIT) % WORD - LIMIT
  }

  /** Integer division rounding toward zero. */
  function TruncDiv(a: int, b: int): int
    requires b > 0
  {
    if a >= 0 then a / b else -((-a) / b)
  }

  function Min(a: int, b: int): int {
    if a <= b then a else b
  }

  // ------------------------------------------------------------------- doubling

  /** What `n` rounds of the loop make of a delay. */
  function Rounds(n: nat, backoff: Duration, max: Duration): Duration {
    if n == 0 then backoff
    else if backoff >= max then max
    else
      var doubled := Wrap64(backoff * 2);
      if doubled > max then max else Rounds(n - 1, doubled, max)
  }

  function RetryBackoff(attempts: int, initial: Duration, max: Duration): Duration {
    if attempts <= 1 then initial else Rounds(attempts - 1, initial, max)
  }

  method ComputeRetryBackoff(attempts: int, initial: Duration, max: Duration) returns (backoff: Duration)
    ensures backoff == RetryBackoff(attempts, initial, max)
  {
    if attempts <= 1 {
      return initial;
    }
    backoff := initial;
    for i := 1 to attempts
      invariant Rounds(attempts - i, backoff, max) == Rounds(attempts - 1, initial, max)
    {
      if backoff >= max {
        return max;
      }
      backoff := Wrap64(backoff * 2);
      if backoff > max {
        return max;
      }
    }
  }

  /** The delay the schedule promises before attempt `attempts` is retried. */
  function Promised(attempts: int, initial: Duration, max: Duration): int
    requires attempts >= 1
  {
    Min(initial * Power(2, attempts - 1), max)
  }

  /** No doubling of `initial` lands in the upper half of int64 while still below `max`. */
  ghost predicate NeverWraps(initial: Duration, max: Duration) {
    forall k: nat :: !(HALF <= initial * Power(2, k) < max)
  }

  /**
   The loop keeps the promise for every attempt count exactly when no doubling
   below the ceiling leaves int64.
   */
  lemma PromiseKeptExactly(initial: Duration, max: Duration)
    requires 0 < initial <= max
    ensures NeverWraps(initial, max) <==>
            forall n :: n >= 1 ==> RetryBackoff(n, initial, max) == Promised(n, initial, max)
  {
    if NeverWraps(initial, max) {
      forall n | n >= 1
        ensures RetryBackoff(n, initial, max) == Promised(n, initial, max)
      {
        RoundsKeepPromise(n - 1, initial, max);
      }
    } else {
      var k: nat :| HALF <= initial * Power(2, k) < max;
      RoundsWrap(k, initial, max);
      PowerPositive(2, k + 1);
      MulMono(0, initial, Power(2, k + 1));
      assert RetryBackoff(k + 2, initial, max) < 0 <= Promised(k + 2, initial, max);
    }
  }

  /** A schedule that breaks the promise: the 64th wait of a 1 ns delay under the largest ceiling is negative. */
  lemma WrappedWait()
    ensures RetryBackoff(64, 1, LIMIT - 1) < 0 < Promised(64, 1, LIMIT - 1)
  {
    var max: Duration := LIMIT - 1;
    TwoToThe62();
    RoundsWrap(62, 1, max);
    PowerPositive(2, 63);
  }

  lemma TwoToThe62()
    ensures Power(2, 62) == HALF
  {
    assert Power(2, 8) == 256;
    PowerSum(2, 8, 8);
    PowerSum(2, 16, 16);
    PowerSum(2, 32, 16);
    PowerSum(2, 48, 8);
    PowerSum(2, 56, 4);
    assert Power(2, 4) == 16;
    PowerSum(2, 60, 2);
    assert Power(2, 2) == 4;
  }

  lemma DoubleThenPower(b: int, k: nat)
    ensures b * Power(2, k + 1) == (b * 2) * Power(2, k)
  {
    var p := Power(2, k);
    assert Power(2, k + 1) == p * 2;
    assert b * (p * 2) == (b * 2) * p;
  }

  lemma PowerGrows(b: int, k: nat)
    requires b > 0
    ensures b <= b * Power(2, k)
  {
    PowerPositive(2, k);
    MulMono(1, Power(2, k), b);
  }

  lemma {:induction false} RoundsKeepPromise(n: nat, b: Duration, max: Duration)
    requires 0 < b <= max && NeverWraps(b, max)
    ensures Rounds(n, b, max) == Min(b * Power(2, n), max)
  {
    PowerGrows(b, n);
    assert Power(2, 0) == 1;
    if n > 0 && b < max {
      DoubleThenPower(b, n - 1);
      PowerGrows(b * 2, n - 1);
      if b * 2 <= max {
        forall k: nat
          ensures !(HALF <= (b * 2) * Power(2, k) < max)
        {
          DoubleThenPower(b, k);
          assert !(HALF <= b * Power(2, k + 1) < max);
        }
        RoundsKeepPromise(n - 1, b * 2, max);
      }
    }
  }

  lemma {:induction false} RoundsWrap(k: nat, b: Duration, max: Duration)
    requires 0 < b && HALF <= b * Power(2, k) < max
    ensures Rounds(k + 1, b, max) < 0
  {
    assert Power(2, 0) == 1;
    if k == 0 {
      assert Rounds(1, b, max) == Rounds(0, Wrap64(b * 2), max);
    } else {
      DoubleThenPower(b, k - 1);
      PowerGrows(b * 2, k - 1);
      RoundsWrap(k - 1, b * 2, max);
    }
  }

  /** A ceiling of at most 2^62 ns is always safe, whatever the initial delay. */
  lemma SafeCeiling(initial: Duration, max: Duration)
    requires max <= HALF
    ensures NeverWraps(initial, max)
  {
  }

  lemma DoublingsGrow(b: int, m: nat, n: nat)
    requires b > 0 && m <= n
    ensures 0 < b * Power(2, m) <= b * Power(2, n)
  {
    PowerGrows(b, m);
    PowerSum(2, m, n - m);
    PowerGrows(b * Power(2, m), n - m);
    Reassociate(b, Power(2, m), Power(2, n - m));
  }

  lemma Reassociate(b: int, p: int, q: int)
    ensures b * (p * q) == (b * p) * q
  {
  }

  lemma PromisedMonotone(initial: Duration, max: Duration, m: int, n: int)
    requires 0 < initial <= max && 1 <= m <= n
    ensures 0 < Promised(m, initial, max) <= Promised(n, initial, max) <= max
  {
    DoublingsGrow(initial, m - 1, n - 1);
  }

  /** Later attempts never wait less. */
  lemma BackoffMonotone(initial: Duration, max: Duration, m: int, n: int)
    requires 0 < initial <= max && NeverWraps(initial, max) && m <= n
    ensures 0 < RetryBackoff(m, initial, max) <= RetryBackoff(n, initial, max) <= max
  {
    if n >= 1 {
      var k := if m < 1 then 1 else m;
      RoundsKeepPromise(k - 1, initial, max);
      RoundsKeepPromise(n - 1, initial, max);
      PromisedMonotone(initial, max, k, n);
    }
  }

  // --------------------------------------------------------------------- jitter

  lemma OffsetIsCongruent(digest: Digest, jitter: nat)
    ensures (digest - jitter - (digest % (jitter * 2 + 1) - jitter)) % (2 * jitter + 1) == 0
  {
    var m := jitter * 2 + 1;
    DivModIdentity(digest, m);
    DivModUnique(digest / m, 0, m);
  }

  /** Only one number of `[-jitter, jitter]` leaves the same remainder. */
  lemma OffsetUnique(digest: Digest, jitter: int, a: int, b: int)
    requires jitter >= 0
    requires -jitter <= a <= jitter && (digest - jitter - a) % (2 * jitter + 1) == 0
    requires -jitter <= b <= jitter && (digest - jitter - b) % (2 * jitter + 1) == 0
    ensures a == b
  {
    var m := 2 * jitter + 1;
    DivModIdentity(digest - jitter - a, m);
    DivModIdentity(digest - jitter - b, m);
    var j, k := (digest - jitter - a) / m, (digest - jitter - b) / m;
    assert a - b == k * m - j * m;
    if j < k { MulMono(j + 1, k, m); }
    if k < j { MulMono(k + 1, j, m); }
  }

  /** A digest folded into `[-jitter, jitter]`. */
  function JitterOffset(digest: Digest, jitter: int): (offset: int)
    requires 0 <= jitter <= BASIS
    ensures -jitter <= offset <= jitter
    ensures (digest - jitter - offset) % (2 * jitter + 1) == 0
  {
    OffsetIsCongruent(digest, jitter);
    if jitter <= 0 then 0 else digest % (jitter * 2 + 1) - jitter
  }

  function Factor(digest: Digest, jitter: int): (factor: int)
    requires 0 <= jitter <= BASIS
    ensures 1 <= factor && BASIS - jitter <= factor <= BASIS + jitter
  {
    var factor := BASIS + JitterOffset(digest, jitter);
    if factor < 1 then 1 else factor
  }

  function Jittered(base: Duration, max: Duration, digest: Digest, jitter: int): Duration
    requires 0 <= jitter <= BASIS
  {
    if jitter <= 0 || base <= 0 then base else
      var nanos := TruncDiv(Wrap64(base * Factor(digest, jitter)), BASIS);
      var positive := if nanos <= 0 then 1 else nanos;
      if positive > max then max else positive
  }

  function RetryBackoffWithJitter(attempts: int, initial: Duration, max: Duration, digest: Digest, jitter: int): Duration
    requires 0 <= jitter <= BASIS
  {
    Jittered(RetryBackoff(attempts, initial, max), max, digest, jitter)
  }

  predicate ProductFits(base: Duration, digest: Digest, jitter: int)
    requires 0 <= jitter <= BASIS
  {
    base * Factor(digest, jitter) < LIMIT
  }

  /** Every product the jitter step can form fits int64 exactly up to this ceiling. */
  lemma ProductFitsExactly(max: Duration)
    requires max > 0
    ensures max <= (LIMIT - 1) / 20000 <==>
            forall base: Duration, digest: Digest, jitter: int ::
              0 < base <= max && 0 <= jitter <= BASIS ==> ProductFits(base, digest, jitter)
  {
    if max <= (LIMIT - 1) / 20000 {
      forall base: Duration, digest: Digest, jitter: int | 0 < base <= max && 0 <= jitter <= BASIS
        ensures ProductFits(base, digest, jitter)
      {
        MulMono(Factor(digest, jitter), 20000, base);
      }
    } else {
      assert Factor(20000, BASIS) == 20000;
      assert !ProductFits(max, 20000, BASIS);
    }
  }

  /** Scaling by `factor` basis points, truncating, and keeping the result in `[1, max]`. */
  lemma ScaledInBand(base: Duration, max: Duration, factor: int, low: int, high: int)
    requires 0 < base <= max && 1 <= factor && low <= factor <= high && low <= BASIS <= high
    requires base * factor < LIMIT
    ensures var nanos := TruncDiv(Wrap64(base * factor), BASIS);
            var delay := if nanos <= 0 then 1 else if nanos > max then max else nanos;
            1 <= delay <= max && base * low < BASIS * (delay + 1) && BASIS * delay <= base * high
  {
    MulMono(1, factor, base);
    MulMono(low, factor, base);
    MulMono(factor, high, base);
    MulMono(low, BASIS, base);
    MulMono(BASIS, high, base);
    DivModIdentity(base * factor, BASIS);
  }

  lemma ScaledExactly(base: Duration, max: Duration, factor: int)
    requires 0 < base <= max && 1 <= factor && base * factor < LIMIT
    ensures var nanos := TruncDiv(Wrap64(base * factor), BASIS);
            var delay := if nanos <= 0 then 1 else if nanos > max then max else nanos;
            && 1 <= delay <= max
            && (delay < max ==> base * factor < BASIS * (delay + 1))
            && (delay > 1 ==> BASIS * delay <= base * factor)
  {
    MulMono(1, factor, base);
    DivModIdentity(base * factor, BASIS);
  }

  /**
   Which delay is chosen: the base delay times 10000 + `offset` basis points,
   rounded down, and kept in [1, max], where `offset` is the number of
   [-jitter, jitter] that the digest, less `jitter`, is congruent to.
   */
  lemma JitteredDelayExact(attempts: int, initial: Duration, max: Duration, digest: Digest, jitter: int, offset: int)
    requires 0 < initial <= max <= LIMIT / 20000 && 0 < jitter <= BASIS
    requires -jitter <= offset <= jitter && (digest - jitter - offset) % (2 * jitter + 1) == 0
    ensures var base, delay := RetryBackoff(attempts, initial, max),
                               RetryBackoffWithJitter(attempts, initial, max, digest, jitter);
            var factor := if offset == -BASIS then 1 else BASIS + offset;
            && 1 <= delay <= max
            && (delay < max ==> base * factor < BASIS * (delay + 1))
            && (delay > 1 ==> BASIS * delay <= base * factor)
  {
    OffsetUnique(digest, jitter, offset, JitterOffset(digest, jitter));
    SafeCeiling(initial, max);
    BackoffMonotone(initial, max, attempts, attempts);
    var base := RetryBackoff(attempts, initial, max);
    ProductFitsExactly(max);
    assert ProductFits(base, digest, jitter);
    ScaledExactly(base, max, Factor(digest, jitter));
  }

  /** The jittered delay stays within one basis-point band and never leaves [1, max]. */
  lemma JitteredDelayInBand(attempts: int, initial: Duration, max: Duration, digest: Digest, jitter: int)
    requires 0 < initial <= max <= LIMIT / 20000 && 0 <= jitter <= BASIS
    ensures var base, delay := RetryBackoff(attempts, initial, max),
                               RetryBackoffWithJitter(attempts, initial, max, digest, jitter);
            && 1 <= delay <= max
            && base * (BASIS - jitter) < BASIS * (delay + 1)
            && BASIS * delay <= base * (BASIS + jitter)
  {
    SafeCeiling(initial, max);
    BackoffMonotone(initial, max, attempts, attempts);
    var base := RetryBackoff(attempts, initial, max);
    ProductFitsExactly(max);
    assert ProductFits(base, digest, jitter);
    ScaledInBand(base, max, Factor(digest, jitter), BASIS - jitter, BASIS + jitter);
  }
}
