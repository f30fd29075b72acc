/** `Retryer`: repeating a command with growing delays. Durations are whole nanoseconds; a scaled
    duration is truncated as the conversion from floating point does. */
module Retry {

  datatype CallResult = CallResult(stdout: string, stderr: string, errCode: int, failed: bool)

  const NOTHING := CallResult("", "", 0, false)

  const SECOND: int := 1_000_000_000

  /** Truncation toward zero. */
  function Truncate(x: real): int {
    if x >= 0.0 then x.Floor else -((-x).Floor)
  }

  /** The whole number next to `x` on the side of zero. */
  lemma TruncateMeaning(x: real)
    ensures var t := Truncate(x) as real; if x >= 0.0 then 0.0 <= t <= x < t + 1.0 else t - 1.0 < x <= t <= 0.0
  {
  }

  function Scale(delay: int, factor: real): int {
    Truncate(delay as real * factor)
  }

  /** The settings of a retryer that decide about delays. */
  datatype Backoff = Backoff(base: int, factor: real, maxDelay: int) {
    /** The delay after the one given. */
    function Next(delay: int): int {
      var d := Scale(delay, factor);
      if maxDelay > 0 && d > maxDelay then maxDelay else d
    }

    /** The delay after `i + 1` failures. */
    function Delay(i: nat): int {
      if i == 0 then base else Next(Delay(i - 1))
    }
  }

  class Retryer {
    var baseDelay: int
    var delayFactor: real
    var maxAttempts: int
    var maxDelay: int
    var stopExitCodes: seq<int>
    var stopErrors: seq<string -> bool>
    /** The result of the n-th call of the command. */
    const cliCall: nat -> CallResult

    constructor (cliCall: nat -> CallResult)
      ensures this.cliCall == cliCall && stopExitCodes == [] && stopErrors == []
      ensures baseDelay == SECOND && delayFactor == 2.0 && maxAttempts == 3 && maxDelay == 0
    {
      this.cliCall := cliCall;
      baseDelay, delayFactor, maxAttempts, maxDelay, stopExitCodes, stopErrors := SECOND, 2.0, 3, 0, [], [];
    }

    function Settings(): Backoff
      reads this
    {
      Backoff(baseDelay, delayFactor, maxDelay)
    }

    /** `WithImageRegistryPreset`. */
    method WithImageRegistryPreset()
      modifies this
      ensures Settings() == REGISTRY_BACKOFF && maxAttempts == REGISTRY_ATTEMPTS
      ensures stopExitCodes == old(stopExitCodes) && stopErrors == old(stopErrors)
    {
      baseDelay := 1 * SECOND;
      delayFactor := 2.0;
      maxAttempts := 10;
      maxDelay := 4 * 60 * SECOND;
    }

    /** A failure after which the command is tried again. */
    predicate Retryable(r: CallResult)
      reads this
    {
      && r.failed && r.errCode !in stopExitCodes
      && forall k :: 0 <= k < |stopErrors| ==> !stopErrors[k](r.stdout) && !stopErrors[k](r.stderr)
    }

    /** The loop over the stop expressions. */
    method MatchesStopError(r: CallResult) returns (stop: bool)
      ensures stop <==> exists k :: 0 <= k < |stopErrors| && (stopErrors[k](r.stdout) || stopErrors[k](r.stderr))
    {
      var k := 0;
      while k < |stopErrors|
        invariant 0 <= k <= |stopErrors|
        invariant forall j :: 0 <= j < k ==> !stopErrors[j](r.stdout) && !stopErrors[j](r.stderr)
      {
        if stopErrors[k](r.stdout) || stopErrors[k](r.stderr) {
          return true;
        }
        k := k + 1;
      }
      return false;
    }

    /** `Run`: the command is called up to `maxAttempts` times; all calls but the last failed and
        could be retried, the last one's result is returned, and between calls it sleeps for the
        delays of the backoff. Without an attempt there is no call and no error. A disabled retryer
        calls once. */
    method Run(disabled: bool) returns (r: CallResult, calls: nat, sleeps: seq<int>)
      ensures disabled ==> calls == 1 && r == cliCall(0) && sleeps == []
      ensures !disabled && maxAttempts <= 0 ==> calls == 0 && r == NOTHING && sleeps == []
      ensures !disabled && maxAttempts >= 1 ==>
                && 1 <= calls <= maxAttempts && r == cliCall(calls - 1)
                && (forall i :: 0 <= i < calls - 1 ==> Retryable(cliCall(i)))
                && (calls < maxAttempts ==> !Retryable(r))
                && |sleeps| == calls - 1
      ensures forall i :: 0 <= i < |sleeps| ==> sleeps[i] == Settings().Delay(i)
    {
      hide Scale, Backoff.Delay, Retryable;
      r, calls, sleeps := NOTHING, 0, [];
      if disabled {
        r := cliCall(0);
        return r, 1, [];
      }
      var delay := baseDelay;
      var attempt := 1;
      DelaySteps(Settings(), 0);
      while attempt <= maxAttempts
        invariant 1 <= attempt && if maxAttempts >= 1 then attempt <= maxAttempts else attempt == 1
        invariant calls == |sleeps| == attempt - 1 && (calls == 0 ==> r == NOTHING)
        invariant forall i :: 0 <= i < calls ==> Retryable(cliCall(i))
        invariant delay == Settings().Delay(attempt - 1)
        invariant forall i :: 0 <= i < |sleeps| ==> sleeps[i] == Settings().Delay(i)
        decreases maxAttempts - attempt
      {
        r := cliCall(calls);
        calls := calls + 1;
        RetryableMeans(r);
        if !r.failed {
          return;
        }
        if r.errCode in stopExitCodes {
          return;
        }
        var stop := MatchesStopError(r);
        if stop {
          return;
        }
        if attempt == maxAttempts {
          break;
        }
        DelaySteps(Settings(), attempt - 1);
        sleeps := sleeps + [delay];
        delay := Scale(delay, delayFactor);
        if maxDelay > 0 && delay > maxDelay {
          delay := maxDelay;
        }
        attempt := attempt + 1;
      }
    }

    lemma RetryableMeans(r: CallResult)
      ensures Retryable(r) <==>
              && r.failed && r.errCode !in stopExitCodes
              && !exists k :: 0 <= k < |stopErrors| && (stopErrors[k](r.stdout) || stopErrors[k](r.stderr))
    {
    }
  }

  lemma DelaySteps(b: Backoff, i: nat)
    ensures b.Delay(0) == b.base && b.Delay(i + 1) == b.Next(b.Delay(i))
  {
  }

  // ---------- bounds on the delays ----------

  function RealPow(x: real, n: nat): real {
    if n == 0 then 1.0 else x * RealPow(x, n - 1)
  }

  function Pow(x: int, n: nat): int {
    if n == 0 then 1 else x * Pow(x, n - 1)
  }

  function Min(a: int, b: int): int { if a < b then a else b }

  /** Truncation stays below the exact product, and above the old delay if the factor is at least one. */
  lemma ScaleBounds(delay: int, factor: real)
    requires delay >= 0 && factor >= 1.0
    ensures delay <= Scale(delay, factor)
    ensures Scale(delay, factor) as real <= delay as real * factor
  {
    var x := delay as real * factor;
    assert x >= delay as real by { MulAtLeast(delay as real, factor); }
  }

  lemma MulAtLeast(d: real, f: real)
    requires d >= 0.0 && f >= 1.0
    ensures d * f >= d
  {
    assert d * f - d == d * (f - 1.0);
  }

  /** A cap that is not below the base delay makes every delay at least the one before. */
  ghost predicate Sensible(b: Backoff) {
    b.base >= 0 && b.factor >= 1.0 && (b.maxDelay > 0 ==> b.base <= b.maxDelay)
  }

  /** Delays never shrink and never exceed the cap. */
  lemma {:induction false} DelayGrows(b: Backoff, i: nat)
    requires Sensible(b)
    ensures 0 <= b.Delay(i) <= b.Delay(i + 1)
    ensures b.maxDelay > 0 ==> b.Delay(i) <= b.maxDelay
  {
    if i > 0 { DelayGrows(b, i - 1); }
    ScaleBounds(b.Delay(i), b.factor);
  }

  /** With a cap, whatever the factor is, no delay exceeds the cap if and only if the base does not:
      the first delay is not capped, all others are. */
  lemma DelayCappedIff(b: Backoff)
    requires b.maxDelay > 0
    ensures (forall i: nat :: b.Delay(i) <= b.maxDelay) <==> b.base <= b.maxDelay
    ensures forall i: nat :: i > 0 ==> b.Delay(i) <= b.maxDelay
  {
    hide Backoff.Delay, Scale;
    DelaySteps(b, 0);
    forall i: nat | i > 0 ensures b.Delay(i) <= b.maxDelay {
      DelaySteps(b, i - 1);
    }
  }

  /** A constant delay of one minute under a cap of ten seconds: the first sleep is the minute, the
      later ones are ten seconds. */
  lemma FirstDelayNotCapped()
    ensures var b := Backoff(60 * SECOND, 1.0, 10 * SECOND); b.Delay(0) == 60 * SECOND > b.maxDelay
    ensures Backoff(60 * SECOND, 1.0, 10 * SECOND).Delay(1) == 10 * SECOND
  {
    hide Scale;
    var b := Backoff(60 * SECOND, 1.0, 10 * SECOND);
    ScaleWhole(60 * SECOND, 1);
    assert b.Delay(1) == b.Next(b.Delay(0));
  }

  /** The i-th delay is at most `base * factor^i`, for any factor. */
  lemma {:induction false} DelayUpperBound(b: Backoff, i: nat)
    requires Sensible(b)
    ensures b.Delay(i) as real <= b.base as real * RealPow(b.factor, i)
  {
    hide *;
    RealPowSteps(b.factor, i);
    if i == 0 {
      DelaySteps(b, 0);
    } else {
      DelayUpperBound(b, i - 1);
      DelayProduct(b, i - 1);
      BoundNext(b.Delay(i - 1) as real, b.base as real, RealPow(b.factor, i - 1), b.factor);
    }
  }

  lemma RealPowSteps(x: real, n: nat)
    ensures RealPow(x, 0) == 1.0 && (n > 0 ==> RealPow(x, n) == x * RealPow(x, n - 1))
  {
  }

  /** No delay exceeds the one before times the factor. */
  lemma DelayProduct(b: Backoff, i: nat)
    requires Sensible(b)
    ensures b.factor >= 1.0 && b.Delay(i + 1) as real <= b.Delay(i) as real * b.factor
  {
    hide Scale;
    DelayGrows(b, i);
    ScaleBounds(b.Delay(i), b.factor);
  }

  lemma BoundNext(d: real, base: real, p: real, f: real)
    requires d <= base * p && f >= 0.0
    ensures d * f <= base * (f * p)
  {
    MulMonotone(d, base * p, f);
    MulRearrange(base, p, f);
  }

  lemma MulMonotone(a: real, c: real, f: real)
    requires a <= c && f >= 0.0
    ensures a * f <= c * f
  {
    assert c * f - a * f == (c - a) * f;
  }

  lemma MulRearrange(a: real, p: real, f: real)
    ensures a * p * f == a * (f * p)
  {
  }

  /** With a whole factor nothing is truncated: the i-th delay is `min(base * factor^i, cap)`. */
  lemma {:induction false} DelayExact(b: Backoff, n: int, i: nat)
    requires Sensible(b) && n >= 1 && b.factor == n as real
    ensures b.Delay(i) == if b.maxDelay > 0 then Min(b.base * Pow(n, i), b.maxDelay) else b.base * Pow(n, i)
  {
    hide Scale;
    if i > 0 {
      DelayExact(b, n, i - 1);
      DelayGrows(b, i - 1);
      ScaleWhole(b.Delay(i - 1), n);
      MulRearrangeInt(b.base, Pow(n, i - 1), n);
      MinTimes(b.base * Pow(n, i - 1), b.maxDelay, n);
    }
  }

  lemma ScaleWhole(d: int, n: int)
    requires d >= 0 && n >= 1
    ensures Scale(d, n as real) == d * n
  {
    assert d as real * n as real == (d * n) as real;
    assert d * n >= 0;
  }

  /** Capping before multiplying makes no difference once capped again. */
  lemma MinTimes(p: int, cap: int, n: int)
    requires n >= 1
    ensures cap > 0 ==> Min(Min(p, cap) * n, cap) == Min(p * n, cap)
  {
    if cap > 0 && p > cap { CappedStays(p, cap, n); CappedStays(cap, cap, n); }
  }

  lemma MulRearrangeInt(a: int, p: int, n: int)
    ensures a * (n * p) == a * p * n
  {
  }

  lemma CappedStays(p: int, cap: int, n: int)
    requires p >= cap >= 0 && n >= 1
    ensures p * n >= cap
  {
    assert p * n - p == p * (n - 1);
    assert p * (n - 1) >= 0;
  }

  // ---------- when the delays are exactly the capped geometric series ----------

  function RealMin(a: real, b: real): real { if a < b then a else b }

  /** `base * factor^i`. */
  ghost function Geometric(b: Backoff, i: nat): real {
    b.base as real * RealPow(b.factor, i)
  }

  ghost function Capped(b: Backoff, x: real): real {
    if b.maxDelay > 0 then RealMin(x, b.maxDelay as real) else x
  }

  /** Nothing is lost by rounding `x` down to whole nanoseconds and then capping it. */
  ghost predicate Lossless(b: Backoff, x: real) {
    x.Floor as real == x || (b.maxDelay > 0 && x >= b.maxDelay as real)
  }

  /** The delays up to the n-th are `min(base * factor^i, cap)` exactly if each power that is below
      the cap is a whole number of nanoseconds. */
  lemma DelayGeometricIff(b: Backoff, n: nat)
    requires Sensible(b)
    ensures (forall i: nat :: i <= n ==> b.Delay(i) as real == Capped(b, Geometric(b, i)))
            <==> (forall i: nat :: i <= n ==> Lossless(b, Geometric(b, i)))
  {
    hide Geometric, Backoff.Delay;
    if forall i: nat :: i <= n ==> Lossless(b, Geometric(b, i)) {
      forall i: nat | i <= n ensures b.Delay(i) as real == Capped(b, Geometric(b, i)) {
        DelayGeometric(b, i);
      }
    }
  }

  lemma {:induction false} DelayGeometric(b: Backoff, i: nat)
    requires Sensible(b)
    requires forall j: nat :: j <= i ==> Lossless(b, Geometric(b, j))
    ensures b.Delay(i) as real == Capped(b, Geometric(b, i))
  {
    hide *;
    GeometricSteps(b, i);
    if i == 0 {
      DelaySteps(b, 0);
      CappedBase(b);
    } else {
      DelayGeometric(b, i - 1);
      DelayGrows(b, i - 1);
      DelaySteps(b, i - 1);
      NextGeometric(b, b.Delay(i - 1), Geometric(b, i - 1), Geometric(b, i));
    }
  }

  lemma GeometricSteps(b: Backoff, i: nat)
    ensures Geometric(b, 0) == b.base as real
    ensures i > 0 ==> Geometric(b, i) == Geometric(b, i - 1) * b.factor
  {
    hide RealPow;
    RealPowSteps(b.factor, i);
    if i > 0 { MulRearrange(b.base as real, RealPow(b.factor, i - 1), b.factor); }
  }

  lemma CappedBase(b: Backoff)
    requires Sensible(b)
    ensures Capped(b, b.base as real) == b.base as real
  {
  }

  lemma NextGeometric(b: Backoff, d: int, x: real, y: real)
    requires Sensible(b) && d >= 0 && y == x * b.factor
    requires d as real == Capped(b, x) && Lossless(b, y)
    ensures b.Next(d) as real == Capped(b, y)
  {
    hide Scale;
    if b.maxDelay > 0 && x >= b.maxDelay as real {
      MulAtLeast(x, b.factor);
      ScaleBounds(d, b.factor);
    } else {
      assert x == d as real;
      ScaleFloor(d, b.factor);
      assert Scale(d, b.factor) == y.Floor;
      CappedFloor(b, y);
    }
  }

  lemma CappedFloor(b: Backoff, y: real)
    requires Lossless(b, y)
    ensures (if b.maxDelay > 0 && y.Floor > b.maxDelay then b.maxDelay else y.Floor) as real == Capped(b, y)
  {
  }

  lemma ScaleFloor(d: int, factor: real)
    requires d >= 0 && factor >= 1.0
    ensures Scale(d, factor) == (d as real * factor).Floor
  {
    MulAtLeast(d as real, factor);
  }

  /** A fractional factor is truncated at every step: 1ns by 1.5 stays at 1ns, although 1.5 squared
      is more than 2. */
  lemma FractionsAreTruncated()
    ensures var b := Backoff(1, 1.5, 0); b.Delay(2) == 1 && RealPow(1.5, 2) == 2.25
  {
    var b := Backoff(1, 1.5, 0);
    assert b.Delay(1) == b.Next(b.Delay(0)) == 1;
    assert b.Delay(2) == b.Next(b.Delay(1));
    assert RealPow(1.5, 2) == 1.5 * RealPow(1.5, 1);
    assert RealPow(1.5, 1) == 1.5 * RealPow(1.5, 0);
  }

  // ---------- the registry preset ----------

  const REGISTRY_BACKOFF := Backoff(SECOND, 2.0, 240 * SECOND)
  const REGISTRY_ATTEMPTS: int := 10

  function Sum(s: seq<int>): int {
    if s == [] then 0 else Sum(s[..|s| - 1]) + s[|s| - 1]
  }

  ghost function Total(b: Backoff, n: nat): int {
    if n == 0 then 0 else Total(b, n - 1) + b.Delay(n - 1)
  }

  lemma {:induction false} SumIsTotal(b: Backoff, sleeps: seq<int>)
    requires forall i :: 0 <= i < |sleeps| ==> sleeps[i] == b.Delay(i)
    ensures Sum(sleeps) == Total(b, |sleeps|)
  {
    if sleeps != [] { SumIsTotal(b, sleeps[..|sleeps| - 1]); }
  }

  lemma {:induction false} TotalGrows(b: Backoff, m: nat, n: nat)
    requires Sensible(b) && m <= n
    ensures Total(b, m) <= Total(b, n)
  {
    if m < n {
      TotalGrows(b, m, n - 1);
      DelayGrows(b, n - 1);
    }
  }

  lemma RegistryDelay(i: nat)
    ensures REGISTRY_BACKOFF.Delay(i) == Min(SECOND * Pow(2, i), 240 * SECOND)
  {
    DelayExact(REGISTRY_BACKOFF, 2, i);
  }

  lemma PowersOfTwo()
    ensures Pow(2, 0) == 1 && Pow(2, 1) == 2 && Pow(2, 2) == 4 && Pow(2, 3) == 8 && Pow(2, 4) == 16
    ensures Pow(2, 5) == 32 && Pow(2, 6) == 64 && Pow(2, 7) == 128 && Pow(2, 8) == 256
  {
    assert Pow(2, 2) == 2 * Pow(2, 1);
    assert Pow(2, 4) == 2 * Pow(2, 3);
    assert Pow(2, 6) == 2 * Pow(2, 5);
    assert Pow(2, 8) == 2 * Pow(2, 7);
  }

  lemma RegistryTotal()
    ensures Total(REGISTRY_BACKOFF, 9) == 495 * SECOND
  {
    hide Pow;
    PowersOfTwo();
    RegistryDelay(0); RegistryDelay(1); RegistryDelay(2); RegistryDelay(3); RegistryDelay(4);
    RegistryDelay(5); RegistryDelay(6); RegistryDelay(7); RegistryDelay(8);
    var b := REGISTRY_BACKOFF;
    assert Total(b, 2) == Total(b, 1) + b.Delay(1) == b.Delay(0) + b.Delay(1);
    assert Total(b, 4) == Total(b, 3) + b.Delay(3) == Total(b, 2) + b.Delay(2) + b.Delay(3);
    assert Total(b, 6) == Total(b, 5) + b.Delay(5) == Total(b, 4) + b.Delay(4) + b.Delay(5);
    assert Total(b, 8) == Total(b, 7) + b.Delay(7) == Total(b, 6) + b.Delay(6) + b.Delay(7);
  }

  /** However a run with the registry preset ends, it sleeps for at most 495 seconds in all. */
  lemma RegistrySleepsAtMost(sleeps: seq<int>)
    requires |sleeps| < REGISTRY_ATTEMPTS
    requires forall i :: 0 <= i < |sleeps| ==> sleeps[i] == REGISTRY_BACKOFF.Delay(i)
    ensures Sum(sleeps) <= 495 * SECOND
  {
    hide Sum, Total;
    SumIsTotal(REGISTRY_BACKOFF, sleeps);
    TotalGrows(REGISTRY_BACKOFF, |sleeps|, 9);
    RegistryTotal();
  }

  /** A run with the registry preset makes at most ten calls and sleeps for at most 495 seconds. */
  method RegistryRun(cliCall: nat -> CallResult) returns (r: CallResult, calls: nat, sleeps: seq<int>)
    ensures 1 <= calls <= 10 && r == cliCall(calls - 1) && |sleeps| == calls - 1
    ensures Sum(sleeps) <= 495 * SECOND
  {
    hide Sum, Backoff.Delay;
    var retryer := new Retryer(cliCall);
    retryer.WithImageRegistryPreset();
    r, calls, sleeps := retryer.Run(false);
    RegistrySleepsAtMost(sleeps);
  }
}
