/** What the retry policies wait and what a call of `execute_with_retry` writes into the statistics. */
module RetryRuns {
  import opened Common
  import CB = CircuitBreaker
  import opened SelfHealing

  // ---------------------------------------------------------------- delays

  /** The first wait is the initial delay, or the maximum if that is less; without a policy nothing is waited. */
  lemma FirstDelay(cfg: Config)
    ensures RetryDelay(cfg, 0) == if cfg.retryPolicy == NONE then 0 else Min(cfg.initialRetryDelay, cfg.maxRetryDelay)
  {
    assert cfg.initialRetryDelay as real * 1.0 == cfg.initialRetryDelay as real;
  }

  /** The policies attempt by attempt, up to the maximum: nothing, the same again, the initial delay more, the sum of
      the two waits before; the second Fibonacci wait is twice the initial delay. */
  lemma NextDelay(cfg: Config, attempt: nat)
    ensures cfg.retryPolicy == NONE ==> RetryDelay(cfg, attempt) == 0
    ensures cfg.retryPolicy == FIXED ==> RetryDelay(cfg, attempt + 1) == RetryDelay(cfg, attempt)
    ensures cfg.retryPolicy == LINEAR ==>
      RetryDelay(cfg, attempt + 1) == Min(RetryDelay(cfg, attempt) + cfg.initialRetryDelay, cfg.maxRetryDelay)
    ensures cfg.retryPolicy == FIBONACCI ==>
      && RetryDelay(cfg, 1) == Min(2 * cfg.initialRetryDelay, cfg.maxRetryDelay)
      && RetryDelay(cfg, attempt + 2) ==
         Min(RetryDelay(cfg, attempt) + RetryDelay(cfg, attempt + 1), cfg.maxRetryDelay)
  {
    hide ExponentialDelay;
    if cfg.retryPolicy == LINEAR {
      Distributes(cfg.initialRetryDelay, attempt + 1, 1);
    } else if cfg.retryPolicy == FIBONACCI {
      assert Fibonacci(2) == 2;
      Distributes(cfg.initialRetryDelay, Fibonacci(attempt + 1), Fibonacci(attempt + 2));
    }
  }

  lemma Distributes(base: nat, x: nat, y: nat)
    ensures base * (x + y) == base * x + base * y && base * x >= 0 && base * y >= 0
  {
    MoreByProduct(0, x, base);
    MoreByProduct(0, y, base);
  }

  /** `t` is `x` rounded toward zero. */
  predicate RoundsToward(x: real, t: int) {
    if x >= 0.0 then t as real <= x < t as real + 1.0 else t as real - 1.0 < x <= t as real
  }

  /** The exponential policy waits the terms of the geometric sequence that starts at the initial delay and goes on by
      the multiplier, rounded toward zero, up to the maximum. */
  lemma ExponentialIsGeometric(cfg: Config, terms: nat -> real, attempt: nat)
    requires cfg.retryPolicy == EXPONENTIAL
    requires terms(0) == cfg.initialRetryDelay as real
    requires forall k: nat :: terms(k + 1) == terms(k) * cfg.backoffMultiplier
    ensures exists t: int :: RoundsToward(terms(attempt), t) && RetryDelay(cfg, attempt) == Min(t, cfg.maxRetryDelay)
  {
    hide Power, RoundsToward;
    TermsArePowers(cfg, terms, attempt);
    TruncatedRounds(terms(attempt));
    assert RoundsToward(terms(attempt), Truncated(terms(attempt)));
  }

  lemma TruncatedRounds(x: real)
    ensures RoundsToward(x, Truncated(x))
  {
  }

  lemma {:induction false} TermsArePowers(cfg: Config, terms: nat -> real, attempt: nat)
    requires terms(0) == cfg.initialRetryDelay as real
    requires forall k: nat :: terms(k + 1) == terms(k) * cfg.backoffMultiplier
    ensures terms(attempt) == cfg.initialRetryDelay as real * Power(cfg.backoffMultiplier, attempt)
    decreases attempt
  {
    if attempt > 0 {
      TermsArePowers(cfg, terms, attempt - 1);
      assert terms(attempt - 1 + 1) == terms(attempt - 1) * cfg.backoffMultiplier;
      Regrouped(cfg.initialRetryDelay as real, Power(cfg.backoffMultiplier, attempt - 1), cfg.backoffMultiplier);
    }
  }

  lemma Regrouped(x: real, y: real, z: real)
    ensures (x * y) * z == x * (z * y)
  {
  }

  // ---------------------------------------------------------------- statistics of one call

  /** The waits before attempts from + 1 to until. */
  function Waited(cfg: Config, from: nat, until: nat): int
    requires from <= until
    decreases until - from
  {
    if from == until then 0 else RetryDelay(cfg, from) + Waited(cfg, from + 1, until)
  }

  /** What a call that began with `before` and is at `attempt` has made of the statistics when it returns. */
  ghost predicate Booked(cfg: Config, before: Stats, attempt: nat, after: Stats) {
    var retries := after.totalRetryAttempts - before.totalRetryAttempts;
    && attempt <= retries <= cfg.maxRetryAttempts
    && after.totalRetryTime == before.totalRetryTime + Waited(cfg, attempt, retries)
    && after.averageRetryDelay ==
       (if retries > attempt && before.totalRetryAttempts > 0
        then Quotient(after.totalRetryTime, before.totalRetryAttempts) else before.averageRetryDelay)
    && after.fallbackInvocations ==
       before.fallbackInvocations + (if cfg.enableFallback then after.failedRetries - before.failedRetries else 0)
  }

  lemma {:induction false} BooksFrom(cfg: Config, guard: Option<Guard>, script: nat -> Attempt, stats: Stats,
                                     attempt: nat, runs: nat, last: ErrorCode)
    requires attempt <= cfg.maxRetryAttempts
    ensures var f := RetryFrom(cfg, guard, script, stats, attempt, runs, last);
      f.result.Returned? ==> Booked(cfg, stats, attempt, f.stats)
    decreases cfg.maxRetryAttempts - attempt
  {
    hide Try, RetryDelay, Quotient;
    if attempt < cfg.maxRetryAttempts {
      var (error, ran, after) := Try(cfg, guard, script(attempt));
      if error.Some? {
        BooksFrom(cfg, after, script, CountRetry(stats, RetryDelay(cfg, attempt)), attempt + 1,
                  runs + (if ran then 1 else 0), error.value);
      }
    }
  }

  /** A call that returns adds its retries and their waits, sets the average to the total wait over the retries counted
      before the call, if there are any, and counts a fallback for each failure when fallbacks are on. */
  lemma CallIsBooked(cfg: Config, guard: Option<Guard>, script: nat -> Attempt, stats: Stats)
    ensures var f := Retry(cfg, guard, script, stats);
      f.result.Returned? ==>
        var retries := f.stats.totalRetryAttempts - stats.totalRetryAttempts;
        && 0 <= retries <= cfg.maxRetryAttempts
        && f.stats.totalRetryTime == stats.totalRetryTime + Waited(cfg, 0, retries)
        && f.stats.averageRetryDelay ==
           (if retries > 0 && stats.totalRetryAttempts > 0
            then Quotient(f.stats.totalRetryTime, stats.totalRetryAttempts) else stats.averageRetryDelay)
        && f.stats.fallbackInvocations - stats.fallbackInvocations ==
           (if cfg.enableFallback then f.stats.failedRetries - stats.failedRetries else 0)
  {
    hide RetryFrom, Quotient, RetryDelay;
    BooksFrom(cfg, guard, script, stats, 0, 0, NoError);
  }

  /** The breaker, if one is in use, lets the attempt through. */
  predicate LetsThrough(cfg: Config, guard: Option<Guard>, a: Attempt) {
    Guarded(cfg, guard) ==> CB.Admits(guard.value.breaker, guard.value.config, a.asked)
  }

  lemma AttemptRuns(cfg: Config, guard: Option<Guard>, a: Attempt)
    ensures Try(cfg, guard, a).1 <==> LetsThrough(cfg, guard, a)
    ensures !LetsThrough(cfg, guard, a) ==>
      Try(cfg, guard, a).0 == Some(CircuitOpen) && Try(cfg, guard, a).2.value.breaker.state == CB.OPEN
    ensures Guarded(cfg, Try(cfg, guard, a).2) == Guarded(cfg, guard)
  {
    hide CB.TimedOut;
  }

  lemma {:induction false} RunsAreRetriesFrom(cfg: Config, guard: Option<Guard>, script: nat -> Attempt, stats: Stats,
                                              attempt: nat, runs: nat, last: ErrorCode)
    requires attempt < cfg.maxRetryAttempts ==> LetsThrough(cfg, guard, script(attempt))
    requires attempt <= cfg.maxRetryAttempts
    ensures var f := RetryFrom(cfg, guard, script, stats, attempt, runs, last);
      var retries := f.stats.totalRetryAttempts - stats.totalRetryAttempts;
      f.result.Returned? ==> f.runs - runs == retries - attempt + if retries == cfg.maxRetryAttempts then 0 else 1
    decreases cfg.maxRetryAttempts - attempt
  {
    hide Try, RetryDelay, Quotient;
    if attempt < cfg.maxRetryAttempts {
      var (error, ran, after) := Try(cfg, guard, script(attempt));
      AttemptRuns(cfg, guard, script(attempt));
      if error.Some? && ShouldRetry(cfg, after, attempt, error.value) {
        RunsAreRetriesFrom(cfg, after, script, CountRetry(stats, RetryDelay(cfg, attempt)), attempt + 1,
                           runs + 1, error.value);
      }
    }
  }

  /** The operation runs once and once more for each retry; but a call whose retries are used up waits once more
      without running again, and one turned away by an open breaker neither runs nor retries. */
  lemma RunsAreRetries(cfg: Config, guard: Option<Guard>, script: nat -> Attempt, stats: Stats)
    ensures var f := Retry(cfg, guard, script, stats);
      var retries := f.stats.totalRetryAttempts - stats.totalRetryAttempts;
      f.result.Returned? ==>
        if cfg.maxRetryAttempts > 0 && !LetsThrough(cfg, guard, script(0)) then f.runs == retries == 0
        else f.runs == if retries == cfg.maxRetryAttempts then retries else retries + 1
  {
    hide Try, RetryDelay, Quotient;
    if cfg.maxRetryAttempts > 0 && !LetsThrough(cfg, guard, script(0)) {
      AttemptRuns(cfg, guard, script(0));
    } else {
      RunsAreRetriesFrom(cfg, guard, script, stats, 0, 0, NoError);
    }
  }

  // ---------------------------------------------------------------- the breaker afterwards

  /** The attempt the call ended with. */
  ghost predicate EndsAt(cfg: Config, stats: Stats, f: Finished, k: nat) {
    k == f.stats.totalRetryAttempts - stats.totalRetryAttempts
  }

  lemma {:induction false} ResetFrom(cfg: Config, guard: Option<Guard>, script: nat -> Attempt, stats: Stats,
                                     attempt: nat, runs: nat, last: ErrorCode, k: nat)
    requires cfg.autoResetOnSuccess && guard.Some?
    requires var f := RetryFrom(cfg, guard, script, stats, attempt, runs, last);
      f.stats.successfulRetries > stats.successfulRetries && EndsAt(cfg, stats, f, k)
    ensures var f := RetryFrom(cfg, guard, script, stats, attempt, runs, last);
      f.guard == Some(Guard(CB.Initial(script(k).recorded), guard.value.config))
    decreases cfg.maxRetryAttempts - attempt
  {
    hide RetryDelay, Quotient, CB.AfterExecute;
    var (error, ran, after) := Try(cfg, guard, script(attempt));
    if error.Some? && IsError(error.value) {
      ResetFrom(cfg, after, script, CountRetry(stats, RetryDelay(cfg, attempt)), attempt + 1,
                runs + (if ran then 1 else 0), error.value, k);
    }
  }

  /** With automatic reset a successful call leaves the breaker as new, closed at the time of the success. */
  lemma SuccessRenewsBreaker(cfg: Config, guard: Option<Guard>, script: nat -> Attempt, stats: Stats)
    requires cfg.autoResetOnSuccess && guard.Some?
    requires Retry(cfg, guard, script, stats).stats.successfulRetries > stats.successfulRetries
    ensures var f := Retry(cfg, guard, script, stats);
      var retries := f.stats.totalRetryAttempts - stats.totalRetryAttempts;
      retries >= 0 && f.guard == Some(Guard(CB.Initial(script(retries).recorded), guard.value.config))
  {
    hide RetryFrom, RetryDelay, Quotient, CB.Initial;
    var f := Retry(cfg, guard, script, stats);
    OneCallCounts(cfg, guard, script, stats, 0, 0, NoError);
    BooksFrom(cfg, guard, script, stats, 0, 0, NoError);
    EscapedIsUncounted(cfg, guard, script, stats, 0, 0, NoError);
    ResetFrom(cfg, guard, script, stats, 0, 0, NoError, f.stats.totalRetryAttempts - stats.totalRetryAttempts);
  }

  lemma {:induction false} EscapedIsUncounted(cfg: Config, guard: Option<Guard>, script: nat -> Attempt, stats: Stats,
                                              attempt: nat, runs: nat, last: ErrorCode)
    ensures var f := RetryFrom(cfg, guard, script, stats, attempt, runs, last);
      f.result.Escaped? ==>
        && f.stats.successfulRetries == stats.successfulRetries && f.stats.failedRetries == stats.failedRetries
        && f.stats.totalRetryAttempts == stats.totalRetryAttempts
        && f.stats.fallbackInvocations == stats.fallbackInvocations
    decreases cfg.maxRetryAttempts - attempt
  {
    hide Try, RetryDelay, Quotient;
    if attempt < cfg.maxRetryAttempts {
      var (error, ran, after) := Try(cfg, guard, script(attempt));
      if error.Some? {
        EscapedIsUncounted(cfg, after, script, CountRetry(stats, RetryDelay(cfg, attempt)), attempt + 1,
                           runs + (if ran then 1 else 0), error.value);
      }
    }
  }

  // ---------------------------------------------------------------- without a breaker

  predicate ReturnsError(a: Attempt) {
    a.outcome.Returns? && a.outcome.code != 0
  }

  /** What an attempt without a breaker comes to when no further attempt is made. */
  function ResultOf(a: Attempt): RetryResult {
    match a.outcome
    case Returns(code) => Returned(FromOperation(code))
    case ThrowsStd => Returned(OperationCanceled)
    case ThrowsOther => Escaped
  }

  lemma {:induction false} UnguardedFrom(cfg: Config, guard: Option<Guard>, script: nat -> Attempt, stats: Stats,
                                         attempt: nat, runs: nat, last: ErrorCode, k: nat)
    requires !Guarded(cfg, guard) && attempt <= k < Budget(cfg)
    requires forall j: nat :: attempt <= j < k ==> ReturnsError(script(j))
    requires k == Budget(cfg) - 1 || !ReturnsError(script(k))
    ensures var f := RetryFrom(cfg, guard, script, stats, attempt, runs, last);
      && f.runs == runs + k + 1 - attempt && f.result == ResultOf(script(k))
      && f.stats.successfulRetries - stats.successfulRetries == (if script(k).outcome == Returns(0) then 1 else 0)
    decreases k - attempt
  {
    hide RetryDelay, Quotient;
    if attempt < k {
      var next := CountRetry(stats, RetryDelay(cfg, attempt));
      UnguardedFrom(cfg, guard, script, next, attempt + 1, runs + 1, FromOperation(script(attempt).outcome.code), k);
    } else {
      var outcome := script(k).outcome;
      if ReturnsError(script(k)) && ShouldRetry(cfg, guard, k, FromOperation(outcome.code)) {
        var next, error := CountRetry(stats, RetryDelay(cfg, k)), FromOperation(outcome.code);
        assert RetryFrom(cfg, guard, script, next, cfg.maxRetryAttempts, runs + 1, error) ==
          Finished(Returned(error), runs + 1, CountExhausted(cfg, next, cfg.maxRetryAttempts), guard);
      }
    }
  }

  /** Without a breaker the operation runs up to its first run that does not return an error, or to the last one
      allowed, and the call comes to what that run did. */
  lemma UnguardedRunsExactly(cfg: Config, guard: Option<Guard>, script: nat -> Attempt, stats: Stats, k: nat)
    requires !Guarded(cfg, guard) && k < Budget(cfg)
    requires forall j: nat :: j < k ==> ReturnsError(script(j))
    requires k == Budget(cfg) - 1 || !ReturnsError(script(k))
    ensures var f := Retry(cfg, guard, script, stats);
      && f.runs == k + 1 && f.result == ResultOf(script(k))
      && f.stats.successfulRetries - stats.successfulRetries == (if script(k).outcome == Returns(0) then 1 else 0)
  {
    hide RetryFrom;
    UnguardedFrom(cfg, guard, script, stats, 0, 0, NoError, k);
  }
}
