/**
 * Scheduler settings, their range check, and the retention bound `n` of the
 * candidate filter derived from the greediness.
 */
module Settings {
  import opened Wrappers

  /** A greediness between 0 (consider every job) and 1 (consider the rate limiter's window). */
  type Greediness = g: real | 0.0 <= g <= 1.0

  /** Settings that passed the range check: the greediness lies in [0, 1] by its type. */
  datatype SchedulerSettings = SchedulerSettings(greediness: Greediness, omitPrioritizeByTempAndInput: bool)

  /** Greediness when none is configured: every selectable job is considered. */
  const DefaultGreediness: Greediness := 0.0

  /** Window used when the rate limiter offers no maximum number of jobs. */
  const FallbackMaxJobs: nat := 1000

  /** Building settings fails exactly when the greediness lies outside [0, 1]. */
  function NewSettings(greediness: real := DefaultGreediness, omitPrioritizeByTempAndInput: bool := false): (r: Result<SchedulerSettings, string>)
    ensures r.Success? <==> 0.0 <= greediness <= 1.0
    ensures r.Success? ==>
              r.value.greediness == greediness && r.value.omitPrioritizeByTempAndInput == omitPrioritizeByTempAndInput
  {
    if 0.0 <= greediness <= 1.0 then Success(SchedulerSettings(greediness, omitPrioritizeByTempAndInput))
    else Failure("greediness must be >=0 and <=1.")
  }

  /** The rate limiter's maximum number of jobs per timespan, or the fallback. */
  function MaxJobs(rateLimit: Option<nat>): (w: nat)
    ensures rateLimit.None? ==> w == FallbackMaxJobs
    ensures rateLimit.Some? ==> w == rateLimit.value
  {
    rateLimit.GetOr(FallbackMaxJobs)
  }

  function Min(a: int, b: int): int { if a <= b then a else b }
  function Max(a: int, b: int): int { if a <= b then b else a }

  /**
   * The retention bound: the linear interpolation between the pool size
   * (greediness 0) and the rate limiter's window (greediness 1), truncated
   * to an integer. It always lies between the two.
   */
  function RetentionBound(greediness: Greediness, poolSize: nat, maxJobs: nat): (n: nat)
    ensures greediness == 0.0 ==> n == poolSize
    ensures greediness == 1.0 ==> n == maxJobs
    ensures Min(poolSize, maxJobs) <= n <= Max(poolSize, maxJobs)
  {
    var m, w := poolSize as real, maxJobs as real;
    var x := (1.0 - greediness) * m + greediness * w;
    var lo, hi := Min(poolSize, maxJobs) as real, Max(poolSize, maxJobs) as real;
    assert x - lo == (1.0 - greediness) * (m - lo) + greediness * (w - lo);
    ProductNonNegative(1.0 - greediness, m - lo);
    ProductNonNegative(greediness, w - lo);
    assert hi - x == (1.0 - greediness) * (hi - m) + greediness * (hi - w);
    ProductNonNegative(1.0 - greediness, hi - m);
    ProductNonNegative(greediness, hi - w);
    x.Floor
  }

  lemma ProductNonNegative(a: real, b: real)
    requires a >= 0.0 && b >= 0.0
    ensures a * b >= 0.0
  {
  }
}
