/**
 * Randomised exponential back-off (base/backoff_entry.cc). Times are microseconds; the clock and the
 * jitter draw are parameters, and floating point is modelled by real numbers.
 */
module Backoffs {
  import opened Basics

  const INT64_MAX: int := 0x7FFF_FFFF_FFFF_FFFF
  const INT64_MIN: int := -0x8000_0000_0000_0000
  const MICROS_PER_MILLI: int := 1000

  /** What a clock shows. */
  type Clock = t: int | 0 <= t <= INT64_MAX

  datatype Policy = Policy(
    numErrorsToIgnore: int,
    initialDelayMs: int,
    multiplyFactor: real,
    jitterFactor: real,
    maximumBackoffMs: int,
    alwaysUseInitialDelay: bool)

  // ---- checked 64-bit arithmetic ----

  /** CheckedNumeric<int64_t>: a value, or nothing once it has left the range. */
  function Checked(x: int): Option<int> {
    if INT64_MIN <= x <= INT64_MAX then Some(x) else None
  }

  function CheckedAdd(a: Option<int>, b: int): Option<int> {
    if a.Some? then Checked(a.value + b) else None
  }

  function CheckedMul(a: Option<int>, b: int): Option<int> {
    if a.Some? then Checked(a.value * b) else None
  }

  function ValueOrMax(a: Option<int>): int {
    if a.Some? then a.value else INT64_MAX
  }

  /** Conversion of a floating-point number to an integer cuts towards zero. */
  function Truncate(x: real): int {
    if x >= 0.0 then x.Floor else -((-x).Floor)
  }

  // ---- the delay ----

  function Pow(x: real, n: nat): real {
    if n == 0 then 1.0 else x * Pow(x, n - 1)
  }

  /** A delay shortened by a random part of it; the draw is uniform in [0, 1). */
  function Jittered(delay: real, factor: real, draw: real): real {
    delay - draw * factor * delay
  }

  /** The delay in milliseconds before rounding. */
  function DelayMs(policy: Policy, failures: nat, draw: real): real
    requires failures > 0
  {
    Jittered(policy.initialDelayMs as real * Pow(policy.multiplyFactor, failures - 1), policy.jitterFactor, draw)
  }

  function DelayUs(delayMs: real): int {
    ValueOrMax(CheckedMul(Checked(Truncate(delayMs + 0.5)), MICROS_PER_MILLI))
  }

  /** However large the delay, the conversion saturates instead of wrapping. */
  lemma DelaySaturates(delayMs: real)
    requires delayMs >= 0.0
    ensures DelayUs(delayMs) == Min((delayMs + 0.5).Floor * MICROS_PER_MILLI, INT64_MAX)
  {
  }

  /** Jitter shortens the delay, by at most the jitter factor. */
  lemma JitterShortens(delay: real, factor: real, draw: real)
    requires 0.0 <= draw < 1.0 && 0.0 <= factor && 0.0 <= delay
    ensures (1.0 - factor) * delay <= Jittered(delay, factor, draw) <= delay
  {
    Scaled(draw, factor, delay);
    assert (1.0 - factor) * delay == delay - factor * delay;
  }

  lemma Scaled(draw: real, factor: real, delay: real)
    requires 0.0 <= draw < 1.0 && 0.0 <= factor && 0.0 <= delay
    ensures 0.0 <= draw * factor * delay <= factor * delay
  {
    assert 0.0 <= draw * factor <= factor;
    assert 0.0 <= (draw * factor) * delay <= factor * delay;
  }

  /** The 64-bit checks come to exactly the smallest of sum, limit and largest time. */
  function BackoffDurationToReleaseTime(policy: Policy, duration: int, now: Clock): (release: int)
    requires INT64_MIN <= duration <= INT64_MAX
    ensures release == Min(INT64_MAX, now + if policy.maximumBackoffMs < 0 then duration
                                            else Min(duration, policy.maximumBackoffMs * MICROS_PER_MILLI))
  {
    var calculated := CheckedAdd(Some(duration), now);
    var maximum :=
      if policy.maximumBackoffMs < 0 then Some(INT64_MAX)
      else CheckedAdd(CheckedMul(Some(policy.maximumBackoffMs), MICROS_PER_MILLI), now);
    Min(ValueOrMax(calculated), ValueOrMax(maximum))
  }

  /** The failures that count towards the delay. */
  function EffectiveFailures(policy: Policy, failureCount: nat): nat {
    Max(0, failureCount - policy.numErrorsToIgnore) + if policy.alwaysUseInitialDelay then 1 else 0
  }

  function CalculateReleaseTime(policy: Policy, failureCount: nat, release: int, now: Clock, draw: real): (r: int)
    ensures r >= release
  {
    var effective := EffectiveFailures(policy, failureCount);
    if effective == 0 then Max(now, release)
    else Max(BackoffDurationToReleaseTime(policy, DelayUs(DelayMs(policy, effective, draw)), now), release)
  }

  /**
   * The delays the policy documents, jitter aside: none for the ignored errors (the initial delay with
   * alwaysUseInitialDelay), then the initial delay (or the multiple), and with each failure a multiple more.
   */
  lemma DocumentedDelays(policy: Policy, failureCount: nat)
    requires policy.numErrorsToIgnore >= 0
    ensures failureCount <= policy.numErrorsToIgnore && !policy.alwaysUseInitialDelay ==>
      EffectiveFailures(policy, failureCount) == 0
    ensures (if policy.alwaysUseInitialDelay then failureCount <= policy.numErrorsToIgnore
             else failureCount == policy.numErrorsToIgnore + 1) ==>
      EffectiveFailures(policy, failureCount) > 0 &&
      DelayMs(policy, EffectiveFailures(policy, failureCount), 0.0) == policy.initialDelayMs as real
    ensures failureCount >= policy.numErrorsToIgnore && EffectiveFailures(policy, failureCount) > 0 ==>
      DelayMs(policy, EffectiveFailures(policy, failureCount + 1), 0.0) ==
      policy.multiplyFactor * DelayMs(policy, EffectiveFailures(policy, failureCount), 0.0)
  {
    var e := EffectiveFailures(policy, failureCount);
    if failureCount >= policy.numErrorsToIgnore && e > 0 {
      assert EffectiveFailures(policy, failureCount + 1) == e + 1;
      NextPower(policy.initialDelayMs as real, policy.multiplyFactor, e);
    }
  }

  lemma NextPower(x: real, factor: real, n: nat)
    requires n > 0
    ensures x * Pow(factor, n) == factor * (x * Pow(factor, n - 1))
  {
    Commute(x, factor, Pow(factor, n - 1));
  }

  lemma Commute(x: real, y: real, z: real)
    ensures x * (y * z) == y * (x * z)
  {
  }

  lemma {:induction false} PowersGrow(factor: real, m: nat, n: nat)
    requires factor >= 1.0 && m <= n
    ensures 1.0 <= Pow(factor, m) <= Pow(factor, n)
  {
    if n > 0 {
      if m < n {
        PowersGrow(factor, m, n - 1);
        assert Pow(factor, n) >= 1.0 * Pow(factor, n - 1);
      } else {
        PowersGrow(factor, m - 1, n - 1);
        assert Pow(factor, n) >= 1.0 * Pow(factor, n - 1);
      }
    }
  }

  lemma DelaysGrow(policy: Policy, m: nat, n: nat)
    requires 0 < m <= n && policy.multiplyFactor >= 1.0 && policy.initialDelayMs >= 0
    ensures 0.0 <= DelayMs(policy, m, 0.0) <= DelayMs(policy, n, 0.0)
  {
    PowersGrow(policy.multiplyFactor, m - 1, n - 1);
    Scale(policy.initialDelayMs as real, Pow(policy.multiplyFactor, m - 1), Pow(policy.multiplyFactor, n - 1));
  }

  lemma Scale(x: real, y: real, z: real)
    requires 0.0 <= x && 0.0 <= y <= z
    ensures 0.0 <= x * y <= x * z
  {
  }

  lemma LongerDelay(x: real, y: real)
    requires 0.0 <= x <= y
    ensures 0 <= DelayUs(x) <= DelayUs(y) <= INT64_MAX
  {
    assert 0 <= (x + 0.5).Floor <= (y + 0.5).Floor;
    DelaySaturates(x);
    DelaySaturates(y);
  }

  lemma LaterRelease(policy: Policy, d: int, e: int, now: Clock)
    requires 0 <= d <= e <= INT64_MAX
    ensures BackoffDurationToReleaseTime(policy, d, now) <= BackoffDurationToReleaseTime(policy, e, now)
    ensures now <= BackoffDurationToReleaseTime(policy, d, now)
  {
  }

  /** Jitter aside, more failures never mean an earlier release, whatever saturates on the way. */
  lemma MoreFailuresWaitLonger(policy: Policy, m: nat, n: nat, release: int, now: Clock)
    requires m <= n && policy.multiplyFactor >= 1.0 && policy.initialDelayMs >= 0
    ensures CalculateReleaseTime(policy, m, release, now, 0.0) <= CalculateReleaseTime(policy, n, release, now, 0.0)
  {
    var e, f := EffectiveFailures(policy, m), EffectiveFailures(policy, n);
    if f > 0 {
      var e' := Max(1, e);
      var x, y := DelayMs(policy, e', 0.0), DelayMs(policy, f, 0.0);
      DelaysGrow(policy, e', f);
      LongerDelay(x, y);
      LaterRelease(policy, DelayUs(x), DelayUs(y), now);
    }
  }

  /** The longest anyone is made to wait, when the policy sets a maximum. */
  function Horizon(policy: Policy): int {
    MICROS_PER_MILLI * Max(policy.maximumBackoffMs, policy.initialDelayMs)
  }

  lemma ReleaseWithinHorizon(policy: Policy, failureCount: nat, release: int, now: Clock, draw: real)
    requires policy.maximumBackoffMs >= 0
    ensures CalculateReleaseTime(policy, failureCount, release, now, draw) <= Max(release, now + Horizon(policy))
  {
  }

  /** The release time after a success. */
  function ReleaseAfterSuccess(policy: Policy, release: int, now: Clock): int {
    Max(Saturated(now, if policy.alwaysUseInitialDelay then policy.initialDelayMs else 0), release)
  }

  /** The latest release time the maximum allows. */
  function Limit(policy: Policy, now: Clock): int {
    now + policy.maximumBackoffMs * MICROS_PER_MILLI
  }

  /**
   * Whether a success keeps the release time within the maximum: unless the initial delay is always used, is
   * longer than the maximum, and is not cut off by the largest time.
   */
  predicate SuccessIsCapped(policy: Policy, now: Clock) {
    !policy.alwaysUseInitialDelay || policy.initialDelayMs <= policy.maximumBackoffMs || Limit(policy, now) >= INT64_MAX
  }

  lemma FailureCapped(policy: Policy, failureCount: nat, release: int, now: Clock, draw: real)
    requires policy.maximumBackoffMs >= 0
    ensures CalculateReleaseTime(policy, failureCount, release, now, draw) <= Max(release, Limit(policy, now))
  {
  }

  lemma SuccessCappedIff(policy: Policy, release: int, now: Clock)
    requires policy.maximumBackoffMs >= 0 && release <= Limit(policy, now)
    ensures ReleaseAfterSuccess(policy, release, now) <= Limit(policy, now) <==> SuccessIsCapped(policy, now)
  {
  }

  // ---- the entry ----

  class BackoffEntry {
    const policy: Policy
    var failureCount: nat
    var releaseTime: int
    /** The latest clock reading, whether a release time was set from outside, and all release times since Reset. */
    ghost var latest: Clock
    ghost var custom: bool
    ghost var history: seq<int>

    ghost predicate Valid()
      reads this
    {
      history != [] && history[|history| - 1] == releaseTime &&
      (!custom ==> Ascending(history)) &&
      (!custom && policy.maximumBackoffMs >= 0 ==> releaseTime <= latest + Horizon(policy))
    }

    constructor (policy: Policy)
      ensures Valid() && this.policy == policy && failureCount == 0 && releaseTime == 0 && !custom && history == [0]
    {
      this.policy, failureCount, releaseTime := policy, 0, 0;
      latest, custom, history := 0, false, [0];
    }

    method Reset()
      modifies this
      ensures Valid() && failureCount == 0 && releaseTime == 0 && !custom && history == [0] && latest == old(latest)
    {
      failureCount, releaseTime := 0, 0;
      custom, history := false, [0];
    }

    method SetCustomReleaseTime(time: int)
      requires Valid()
      modifies this
      ensures Valid() && releaseTime == time && failureCount == old(failureCount) && latest == old(latest) && custom
    {
      releaseTime := time;
      custom, history := true, history + [time];
    }

    /**
     * The release time never moves back, and without custom times it stays within the horizon of the latest
     * clock reading, whatever the clock shows and whatever is drawn.
     */
    method InformOfRequest(succeeded: bool, now: Clock, draw: real)
      requires Valid()
      modifies this
      ensures Valid() && releaseTime >= old(releaseTime) && custom == old(custom) && latest == Max(now, old(latest))
      ensures history == old(history) + [releaseTime]
      ensures succeeded ==> failureCount == Max(0, old(failureCount) - 1)
      ensures !succeeded ==> failureCount == old(failureCount) + 1
      ensures !succeeded ==>
        releaseTime == CalculateReleaseTime(policy, failureCount, old(releaseTime), now, draw)
      ensures succeeded ==> releaseTime == ReleaseAfterSuccess(policy, old(releaseTime), now)
      ensures policy.maximumBackoffMs >= 0 && old(releaseTime) <= Limit(policy, now) ==>
        (releaseTime <= Limit(policy, now) <==> !succeeded || SuccessIsCapped(policy, now))
    {
      hide CalculateReleaseTime, SuccessIsCapped;
      if !succeeded {
        failureCount := failureCount + 1;
        if policy.maximumBackoffMs >= 0 {
          ReleaseWithinHorizon(policy, failureCount, releaseTime, now, draw);
          FailureCapped(policy, failureCount, releaseTime, now, draw);
        }
        releaseTime := CalculateReleaseTime(policy, failureCount, releaseTime, now, draw);
      } else {
        if failureCount > 0 {
          failureCount := failureCount - 1;
        }
        var delay := if policy.alwaysUseInitialDelay then policy.initialDelayMs else 0;
        if policy.maximumBackoffMs >= 0 && releaseTime <= Limit(policy, now) {
          SuccessCappedIff(policy, releaseTime, now);
        }
        releaseTime := Max(Saturated(now, delay), releaseTime);
      }
      latest := Max(now, latest);
      history := history + [releaseTime];
    }
  }

  predicate Ascending(times: seq<int>) {
    forall i, j :: 0 <= i < j < |times| ==> times[i] <= times[j]
  }

  /** A clock reading plus a delay in milliseconds, held at the largest time. */
  function Saturated(now: Clock, delayMs: int): int {
    Min(now + delayMs * MICROS_PER_MILLI, INT64_MAX)
  }

  /** One success on a new entry makes it wait two seconds although the maximum is one. */
  method UncappedSuccessExample() returns (entry: BackoffEntry)
    ensures entry.Valid() && entry.policy.maximumBackoffMs == 1000 && entry.releaseTime == 2_000_000
    ensures entry.releaseTime > Limit(entry.policy, 0)
  {
    entry := new BackoffEntry(Policy(0, 2000, 2.0, 0.0, 1000, true));
    entry.InformOfRequest(true, 0, 0.0);
  }
}
