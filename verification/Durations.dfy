/**
 Durations as the program holds them, in 64-bit nanoseconds: where the wait
 before a retry is what it is meant to be, and where the width shows.
 */
module Durations {
  import opened Wrappers

  const TWO_63 := 0x8000_0000_0000_0000
  const TWO_64 := 0x1_0000_0000_0000_0000

  type Int64 = x: int | -TWO_63 <= x < TWO_63

  const SECOND := 1_000_000_000
  const MAX_BACKOFF := 10 * SECOND

  /** The most seconds a duration holds. */
  const MAX_SECONDS := 9_223_372_036

  /** Two's complement wrap-around. */
  function Wrapped(x: int): (w: Int64)
    ensures -TWO_63 <= x < TWO_63 ==> w == x
  {
    (x + TWO_63) % TWO_64 - TWO_63
  }

  /** The difference of two times stops at the ends of the range instead. */
  function Saturated(x: int): Int64 {
    if x >= TWO_63 then TWO_63 - 1 else if x < -TWO_63 then -TWO_63 else x
  }

  function Max(a: int, b: int): int {
    if a > b then a else b
  }

  function Min(a: int, b: int): int {
    if a < b then a else b
  }

  function Pow2(k: nat): (p: nat)
    ensures p >= 1
  {
    if k == 0 then 1 else 2 * Pow2(k - 1)
  }

  // ----- The fallback wait -----

  /** `min(baseBackoff << (attempt - 1), maxBackoff)`, with the shift in 64 bits. */
  function FallbackBackoff(attempt: nat): Int64
    requires attempt >= 1
  {
    Min(Wrapped(SECOND * Pow2(attempt - 1)), MAX_BACKOFF)
  }

  /** What it is meant to be: one second, doubled with every attempt, capped at ten. */
  function Doubling(attempt: nat): nat
    requires attempt >= 1
  {
    Min(SECOND * Pow2(attempt - 1), MAX_BACKOFF)
  }

  lemma {:induction false} Pow2Monotone(j: nat, k: nat)
    requires j <= k
    ensures Pow2(j) <= Pow2(k)
  {
    if j < k {
      Pow2Monotone(j, k - 1);
    }
  }

  lemma Pow2Values()
    ensures Pow2(10) == 1024 && Pow2(20) == 1048576 && Pow2(33) == 8589934592 && Pow2(34) == 17179869184
  {
    assert Pow2(5) == 32;
    assert Pow2(10) == 1024;
    assert Pow2(15) == 32768;
    assert Pow2(20) == 1048576;
    assert Pow2(25) == 33554432;
    assert Pow2(30) == 1073741824;
  }

  lemma BackoffDoubles(attempt: nat)
    requires 1 <= attempt <= 34
    ensures FallbackBackoff(attempt) == Doubling(attempt)
  {
    Pow2Values();
    Pow2Monotone(attempt - 1, 33);
  }

  /** The first wait that wraps is negative: no wait at all. */
  lemma BackoffWrapsAt35()
    ensures FallbackBackoff(35) == -1266874889709551616
  {
    Pow2Values();
  }

  /** A transport backs off as it is meant to, on every attempt it may retry, exactly up to 35 attempts. */
  lemma BackoffDoublesUpTo35Attempts(maxAttempts: nat)
    ensures (forall a: nat :: 1 <= a < maxAttempts ==> FallbackBackoff(a) == Doubling(a)) <==> maxAttempts <= 35
  {
    if maxAttempts <= 35 {
      forall a: nat | 1 <= a < maxAttempts ensures FallbackBackoff(a) == Doubling(a) {
        BackoffDoubles(a);
      }
    } else {
      BackoffWrapsAt35();
      assert FallbackBackoff(35) != Doubling(35);
    }
  }

  // ----- Retry-After -----

  /** The header: absent, neither of its two forms, a number of seconds, or a date. */
  datatype RetryAfter = Absent | Unreadable | Seconds(n: Int64) | Date(at: int)

  /** The wait the header asks for, if it can be read; a moment in the past means now. */
  function RetryAfterWait(header: RetryAfter, now: int): (wait: Option<Int64>)
    ensures wait.Some? ==> wait.value >= 0
    ensures wait.Some? <==> header.Seconds? || header.Date?
    ensures header.Seconds? && -MAX_SECONDS <= header.n <= MAX_SECONDS ==>
              wait.value == if header.n <= 0 then 0 else header.n * SECOND
    ensures header.Date? && header.at - now < TWO_63 ==>
              now + wait.value == if header.at <= now then now else header.at
  {
    match header
    case Absent => None
    case Unreadable => None
    case Seconds(n) => Some(Max(Wrapped(n * SECOND), 0))
    case Date(at) => Some(Max(Saturated(at - now), 0))
  }

  /** A number of seconds is honoured in full exactly up to the seconds a duration can hold. */
  lemma SecondsAreHonouredUpToTheRange(n: Int64, now: int)
    ensures RetryAfterWait(Seconds(n), now).value >= n * SECOND <==> n <= MAX_SECONDS
    ensures 0 <= n <= MAX_SECONDS ==> RetryAfterWait(Seconds(n), now).value == n * SECOND
  {
  }

  /** A date is not arrived at early exactly as long as it is less than 292 years away; one in the past means now. */
  lemma DatesAreHonouredUpToTheRange(at: int, now: int)
    ensures now + RetryAfterWait(Date(at), now).value >= at <==> at - now < TWO_63
    ensures at <= now ==> RetryAfterWait(Date(at), now).value == 0
    ensures 0 <= at - now < TWO_63 ==> now + RetryAfterWait(Date(at), now).value == at
    ensures at - now >= TWO_63 ==> RetryAfterWait(Date(at), now).value == TWO_63 - 1
  {
  }
}
