/** Retry policy and backoff delays (`src/backoff.rs`). A duration is its number of nanoseconds. */
module Backoff {
  import opened Wrappers
  import opened Text

  const U32_MAX: nat := 0xFFFF_FFFF
  const U64_MAX: nat := 0xFFFF_FFFF_FFFF_FFFF
  const DURATION_MAX: nat := U64_MAX * 1_000_000_000 + 999_999_999

  type u32 = n: nat | n <= U32_MAX
  type Duration = n: nat | n <= DURATION_MAX

  datatype Strategy = Fixed | Exponential | ExponentialWithJitter

  datatype RetryPolicy = RetryPolicy(
    maxRetries: u32,
    strategy: Strategy,
    baseDelay: Duration,
    maxDelay: Duration,
    retryableErrors: seq<string>)

  const DEFAULT_POLICY := RetryPolicy(3, ExponentialWithJitter, 500_000_000, 30_000_000_000, [])

  predicate IsRetryable(policy: RetryPolicy, message: string) {
    || policy.retryableErrors == []
    || exists i :: 0 <= i < |policy.retryableErrors| && Contains(message, policy.retryableErrors[i])
  }

  /** A message calls for a retry: the policy lists no errors, or the message can be cut around a listed one. */
  ghost predicate Mentions(policy: RetryPolicy, message: string) {
    || policy.retryableErrors == []
    || exists before, part, after :: part in policy.retryableErrors && message == before + part + after
  }

  /** A listed error makes a message retryable wherever the message holds it, and nothing else does. */
  lemma RetryableIff(policy: RetryPolicy, message: string)
    ensures IsRetryable(policy, message) <==> Mentions(policy, message)
  {
    if IsRetryable(policy, message) && policy.retryableErrors != [] {
      var i :| 0 <= i < |policy.retryableErrors| && Contains(message, policy.retryableErrors[i]);
      ContainsIff(message, policy.retryableErrors[i]);
      var before, after :| message == before + policy.retryableErrors[i] + after;
    }
    forall before, part, after | part in policy.retryableErrors && message == before + part + after
      ensures IsRetryable(policy, message)
    {
      ContainsIff(message, part);
      var i :| 0 <= i < |policy.retryableErrors| && policy.retryableErrors[i] == part;
    }
  }

  function Min(a: nat, b: nat): nat { if a <= b then a else b }

  function Max(a: nat, b: nat): nat { if a <= b then b else a }

  function Pow2(n: nat): nat { if n == 0 then 1 else 2 * Pow2(n - 1) }

  // ---- The fixed-width operations the code uses ----

  /** `2_u32.saturating_pow(n)`: every product saturates at the width of u32. */
  function SaturatingPow2(n: u32): u32 {
    if n == 0 then 1 else Min(2 * SaturatingPow2(n - 1), U32_MAX)
  }

  /** `Duration::checked_mul` */
  function CheckedMul(d: Duration, factor: u32): Option<Duration> {
    if d * factor <= DURATION_MAX then Some(d * factor) else None
  }

  /** `Duration::saturating_mul` */
  function SaturatingMul(d: Duration, factor: u32): Duration {
    if d * factor <= DURATION_MAX then d * factor else DURATION_MAX
  }

  /** The delay before jitter. */
  function CappedDelay(policy: RetryPolicy, attempt: u32): Duration {
    if policy.strategy == Fixed then
      Min(policy.maxDelay, SaturatingMul(policy.baseDelay, Max(attempt, 1)))
    else
      var candidate := CheckedMul(policy.baseDelay, SaturatingPow2(attempt)).GetOr(policy.maxDelay);
      Min(policy.maxDelay, candidate)
  }

  /** The delays `delay_for_attempt` may return: one value, or with jitter any whole number of
      nanoseconds up to the capped delay that a u64 can hold. */
  predicate MayDelay(policy: RetryPolicy, attempt: u32, delay: Duration) {
    if policy.strategy == ExponentialWithJitter then
      delay <= Min(CappedDelay(policy, attempt), U64_MAX)
    else
      delay == CappedDelay(policy, attempt)
  }

  /** With jitter any permitted delay may come back. */
  method DelayForAttempt(policy: RetryPolicy, attempt: u32) returns (delay: Duration)
    ensures MayDelay(policy, attempt, delay)
  {
    var capped: Duration := CappedDelay(policy, attempt);
    if policy.strategy == ExponentialWithJitter {
      var draw: nat :| draw <= Min(capped, U64_MAX);
      assert Min(capped, U64_MAX) <= capped;
      delay := draw;
    } else {
      delay := capped;
    }
  }

  // ---- What they amount to in unbounded arithmetic ----

  lemma {:induction false} SaturatingPowIsCapped(n: u32)
    ensures SaturatingPow2(n) == Min(Pow2(n), U32_MAX)
  {
    if n > 0 {
      SaturatingPowIsCapped(n - 1);
    }
  }

  lemma {:induction false} CappedDelayClosedForm(policy: RetryPolicy, attempt: u32)
    ensures policy.strategy == Fixed ==>
              CappedDelay(policy, attempt) == Min(policy.maxDelay, policy.baseDelay * Max(attempt, 1))
    ensures policy.strategy != Fixed ==>
              CappedDelay(policy, attempt) == Min(policy.maxDelay, policy.baseDelay * Min(Pow2(attempt), U32_MAX))
  {
    SaturatingPowIsCapped(attempt);
  }

  /** Which delays may come back, in unbounded arithmetic: with jitter any number of nanoseconds up to
      the delay without it, as far as 64 bits reach. */
  lemma MayDelayIff(policy: RetryPolicy, attempt: u32, delay: Duration)
    ensures MayDelay(policy, attempt, delay) <==>
            match policy.strategy
            case Fixed => delay == Min(policy.maxDelay, policy.baseDelay * if attempt == 0 then 1 else attempt)
            case Exponential => delay == Min(policy.maxDelay, policy.baseDelay * Min(Pow2(attempt), 4294967295))
            case ExponentialWithJitter =>
              && delay <= policy.maxDelay
              && delay <= policy.baseDelay * Min(Pow2(attempt), 4294967295)
              && delay <= 18446744073709551615
  {
    CappedDelayClosedForm(policy, attempt);
  }

  lemma {:induction false} Pow2Grows(a: nat, b: nat)
    requires a <= b
    ensures Pow2(a) <= Pow2(b)
    decreases b - a
  {
    if a < b {
      Pow2Grows(a, b - 1);
    }
  }

  lemma ProductGrows(factor: nat, a: nat, b: nat)
    requires a <= b
    ensures factor * a <= factor * b
  {
    assert factor * b == factor * a + factor * (b - a);
  }

  lemma {:induction false} CappedDelayMonotone(policy: RetryPolicy, a: u32, b: u32)
    requires a <= b
    ensures CappedDelay(policy, a) <= CappedDelay(policy, b) <= policy.maxDelay
  {
    CappedDelayClosedForm(policy, a);
    CappedDelayClosedForm(policy, b);
    Pow2Grows(a, b);
    ProductGrows(policy.baseDelay, Min(Pow2(a), U32_MAX), Min(Pow2(b), U32_MAX));
    ProductGrows(policy.baseDelay, Max(a, 1), Max(b, 1));
  }

  /** The `Fixed` strategy waits the same before every retry iff there is at most one retry, or nothing
      to wait, or the cap is no more than the base. */
  lemma FixedConstantIff(policy: RetryPolicy)
    requires policy.strategy == Fixed
    ensures (forall a: u32, b: u32 :: 1 <= a <= policy.maxRetries && 1 <= b <= policy.maxRetries ==>
               CappedDelay(policy, a) == CappedDelay(policy, b))
       <==> policy.maxRetries <= 1 || policy.baseDelay == 0 || policy.maxDelay <= policy.baseDelay
  {
    if policy.maxRetries <= 1 || policy.baseDelay == 0 || policy.maxDelay <= policy.baseDelay {
      forall a: u32, b: u32 | 1 <= a <= policy.maxRetries && 1 <= b <= policy.maxRetries
        ensures CappedDelay(policy, a) == CappedDelay(policy, b)
      {
        FixedAtLeastBase(policy, a);
        FixedAtLeastBase(policy, b);
      }
    } else {
      CappedDelayClosedForm(policy, 1);
      CappedDelayClosedForm(policy, 2);
      assert CappedDelay(policy, 1) != CappedDelay(policy, 2);
    }
  }

  lemma FixedAtLeastBase(policy: RetryPolicy, attempt: u32)
    requires policy.strategy == Fixed && attempt >= 1
    ensures Min(policy.maxDelay, policy.baseDelay) <= CappedDelay(policy, attempt) <= policy.maxDelay
    ensures policy.baseDelay == 0 ==> CappedDelay(policy, attempt) == 0
  {
    CappedDelayClosedForm(policy, attempt);
    ProductGrows(policy.baseDelay, 1, attempt);
  }

  // ---- Total wait of a retry loop: attempt k+1 waits delays[k] ----

  ghost predicate MayWait(policy: RetryPolicy, delays: seq<Duration>) {
    |delays| <= policy.maxRetries && forall k :: 0 <= k < |delays| ==> MayDelayAt(policy, delays, k)
  }

  /** The wait before attempt k+1. */
  predicate MayDelayAt(policy: RetryPolicy, delays: seq<Duration>, k: nat) {
    k < |delays| && k < policy.maxRetries && MayDelay(policy, k + 1, delays[k])
  }

  ghost function Sum(delays: seq<Duration>): nat {
    if delays == [] then 0 else Sum(delays[..|delays| - 1]) + delays[|delays| - 1]
  }

  lemma WaitStep(policy: RetryPolicy, delays: seq<Duration>, delay: Duration)
    requires MayWait(policy, delays) && |delays| < policy.maxRetries
    requires MayDelay(policy, |delays| + 1, delay)
    ensures MayWait(policy, delays + [delay])
    ensures Sum(delays + [delay]) == Sum(delays) + delay
  {
    assert (delays + [delay])[..|delays|] == delays;
    assert forall k :: 0 <= k < |delays| ==> MayDelayAt(policy, delays, k) == MayDelayAt(policy, delays + [delay], k);
  }

  lemma WaitSplit(policy: RetryPolicy, delays: seq<Duration>)
    requires MayWait(policy, delays) && delays != []
    ensures MayWait(policy, delays[..|delays| - 1]) && MayDelay(policy, |delays|, delays[|delays| - 1])
  {
    var n := |delays| - 1;
    assert forall k :: 0 <= k < n ==> MayDelayAt(policy, delays, k) == MayDelayAt(policy, delays[..n], k);
    assert MayDelayAt(policy, delays, n);
  }

  lemma Distribute(factor: int, a: int, b: int)
    ensures factor * a + factor * b == factor * (a + b)
  {}

  lemma Triangle(factor: int, n: int)
    ensures factor * ((n - 1) * n) + 2 * (factor * n) == factor * (n * (n + 1))
  {
    assert n * (n + 1) == (n - 1) * n + 2 * n;
    Distribute(factor, (n - 1) * n, 2 * n);
    assert factor * (2 * n) == 2 * (factor * n);
  }

  lemma {:induction false} LastWait(policy: RetryPolicy, delays: seq<Duration>)
    requires MayWait(policy, delays) && delays != []
    ensures MayWait(policy, delays[..|delays| - 1])
    ensures var n, last := |delays|, delays[|delays| - 1];
            && last <= policy.maxDelay
            && (policy.strategy == Fixed ==> last <= policy.baseDelay * n)
            && (policy.strategy != Fixed ==> last <= policy.baseDelay * Pow2(n))
            && (policy.strategy == Exponential ==>
                last == Min(policy.maxDelay, policy.baseDelay * Min(Pow2(n), U32_MAX)))
  {
    var n := |delays|;
    WaitSplit(policy, delays);
    CappedDelayClosedForm(policy, n);
    ProductGrows(policy.baseDelay, Min(Pow2(n), U32_MAX), Pow2(n));
  }

  /** With n calls made, so n-1 waits, for every choice of jitter: never more than the cap each time. */
  lemma {:induction false} TotalWaitCapped(policy: RetryPolicy, delays: seq<Duration>)
    requires MayWait(policy, delays)
    ensures Sum(delays) <= policy.maxDelay * |delays|
    decreases |delays|
  {
    if delays != [] {
      LastWait(policy, delays);
      TotalWaitCapped(policy, delays[..|delays| - 1]);
      Distribute(policy.maxDelay, |delays| - 1, 1);
    }
  }

  /** Exponential strategies wait at most base * (2^n - 2) over n calls. */
  lemma {:induction false} TotalWaitExponential(policy: RetryPolicy, delays: seq<Duration>)
    requires MayWait(policy, delays) && policy.strategy != Fixed
    ensures Sum(delays) <= policy.baseDelay * (Pow2(|delays| + 1) - 2)
    decreases |delays|
  {
    if delays != [] {
      LastWait(policy, delays);
      TotalWaitExponential(policy, delays[..|delays| - 1]);
      Distribute(policy.baseDelay, Pow2(|delays|) - 2, Pow2(|delays|));
    }
  }

  /** The fixed strategy grows with the attempt: over n calls at most base * n * (n - 1) / 2. */
  lemma {:induction false} TotalWaitFixed(policy: RetryPolicy, delays: seq<Duration>)
    requires MayWait(policy, delays) && policy.strategy == Fixed
    ensures 2 * Sum(delays) <= policy.baseDelay * (|delays| * (|delays| + 1))
    decreases |delays|
  {
    if delays != [] {
      var n := |delays|;
      LastWait(policy, delays);
      TotalWaitFixed(policy, delays[..n - 1]);
      Triangle(policy.baseDelay, n);
    }
  }

  /** The exponential bound is reached as long as neither the cap nor the width of u32 is. */
  lemma {:induction false} UncappedExponentialWait(policy: RetryPolicy, delays: seq<Duration>)
    requires policy.strategy == Exponential && MayWait(policy, delays)
    requires policy.baseDelay * Pow2(|delays|) <= policy.maxDelay && Pow2(|delays|) <= U32_MAX
    ensures Sum(delays) == policy.baseDelay * (Pow2(|delays| + 1) - 2)
    decreases |delays|
  {
    if delays != [] {
      var n := |delays|;
      LastWait(policy, delays);
      Pow2Grows(n - 1, n);
      ProductGrows(policy.baseDelay, Pow2(n - 1), Pow2(n));
      UncappedExponentialWait(policy, delays[..n - 1]);
      Distribute(policy.baseDelay, Pow2(n) - 2, Pow2(n));
    }
  }
}
