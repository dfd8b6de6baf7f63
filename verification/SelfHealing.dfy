/** Retrying operations behind a circuit breaker: src/self_healing.cpp. */
module SelfHealing {
  import opened Common
  import CB = CircuitBreaker

  datatype RetryPolicy = NONE | FIXED | LINEAR | EXPONENTIAL | FIBONACCI

  /** Delays in milliseconds. */
  datatype Config = Config(
    retryPolicy: RetryPolicy,
    maxRetryAttempts: nat,
    initialRetryDelay: nat,
    maxRetryDelay: nat,
    backoffMultiplier: real,
    useCircuitBreaker: bool,
    autoResetOnSuccess: bool,
    enableFallback: bool)

  datatype Stats = Stats(
    totalRetryAttempts: nat,
    successfulRetries: nat,
    failedRetries: nat,
    retryExhaustedCount: nat,
    fallbackInvocations: nat,
    totalRetryTime: int,
    averageRetryDelay: int)

  // ---------------------------------------------------------------- delays

  /** The k-th Fibonacci number, counting 1, 1, 2, 3, 5 from k = 0. */
  function Fibonacci(k: nat): nat {
    if k < 2 then 1 else Fibonacci(k - 2) + Fibonacci(k - 1)
  }

  function Power(base: real, k: nat): (p: real)
    ensures base >= 0.0 ==> p >= 0.0
  {
    if k == 0 then 1.0 else base * Power(base, k - 1)
  }

  /** Toward zero, as a cast to an integer does. */
  function Truncated(x: real): int {
    if x >= 0.0 then x.Floor else -((-x).Floor)
  }

  function Scaled(base: nat, factor: real): int {
    Truncated(base as real * factor)
  }

  function ExponentialDelay(base: nat, multiplier: real, attempt: nat): int {
    Scaled(base, Power(multiplier, attempt))
  }

  /** The delay before it is clamped. */
  function RawDelay(cfg: Config, attempt: nat): int {
    match cfg.retryPolicy
    case NONE => 0
    case FIXED => cfg.initialRetryDelay
    case LINEAR => cfg.initialRetryDelay * (attempt + 1)
    case EXPONENTIAL => ExponentialDelay(cfg.initialRetryDelay, cfg.backoffMultiplier, attempt)
    case FIBONACCI => cfg.initialRetryDelay * Fibonacci(attempt + 1)
  }

  function RetryDelay(cfg: Config, attempt: nat): int {
    if cfg.retryPolicy == NONE then 0 else Min(RawDelay(cfg, attempt), cfg.maxRetryDelay)
  }

  method ComputeFibonacci(k: nat) returns (curr: nat)
    ensures curr == Fibonacci(k + 1)
  {
    var prev := 1;
    curr := 1;
    for i := 0 to k
      invariant prev == Fibonacci(i) && curr == Fibonacci(i + 1)
    {
      prev, curr := curr, prev + curr;
    }
  }

  method CalculateRetryDelay(cfg: Config, attempt: nat) returns (delay: int)
    ensures delay == RetryDelay(cfg, attempt)
  {
    hide ExponentialDelay, Fibonacci;
    if cfg.retryPolicy == NONE {
      return 0;
    }
    var base := cfg.initialRetryDelay;
    if cfg.retryPolicy == LINEAR {
      delay := base * (attempt + 1);
    } else if cfg.retryPolicy == EXPONENTIAL {
      delay := ExponentialDelay(base, cfg.backoffMultiplier, attempt);
    } else if cfg.retryPolicy == FIBONACCI {
      var fib := ComputeFibonacci(attempt);
      delay := base * fib;
    } else {
      delay := base;
    }
    if delay > cfg.maxRetryDelay {
      delay := cfg.maxRetryDelay;
    }
  }

  lemma ScaledNats(x: nat, y: nat, f: nat)
    requires x <= y
    ensures f * x <= f * y
  {
    MoreByProduct(x, y, f);
  }

  lemma ScaledReals(x: real, y: real, f: real)
    requires x <= y && f >= 0.0
    ensures f * x <= f * y
  {
  }

  lemma PowerGrows(m: real, k: nat)
    requires m >= 1.0
    ensures 0.0 <= Power(m, k) <= Power(m, k + 1)
  {
    hide Power;
    PowerUnfolds(m, k);
    ScaledReals(1.0, m, Power(m, k));
  }

  lemma PowerUnfolds(m: real, k: nat)
    ensures Power(m, k + 1) == m * Power(m, k) && (m >= 0.0 ==> Power(m, k) >= 0.0)
  {
  }

  lemma TruncatedGrows(x: real, y: real)
    requires 0.0 <= x <= y
    ensures 0 <= Truncated(x) <= Truncated(y)
  {
  }

  lemma ScaledGrows(base: nat, p: real, q: real)
    requires 0.0 <= p <= q
    ensures Scaled(base, p) <= Scaled(base, q)
  {
    ScaledReals(0.0, p, base as real);
    ScaledReals(p, q, base as real);
    TruncatedGrows(base as real * p, base as real * q);
  }

  lemma ExponentialGrows(base: nat, multiplier: real, attempt: nat)
    requires multiplier >= 1.0
    ensures ExponentialDelay(base, multiplier, attempt) <= ExponentialDelay(base, multiplier, attempt + 1)
  {
    hide Scaled;
    PowerGrows(multiplier, attempt);
    ScaledGrows(base, Power(multiplier, attempt), Power(multiplier, attempt + 1));
  }

  lemma DelayGrows(cfg: Config, attempt: nat)
    requires cfg.retryPolicy == EXPONENTIAL ==> cfg.backoffMultiplier >= 1.0
    ensures RawDelay(cfg, attempt) <= RawDelay(cfg, attempt + 1)
  {
    hide ExponentialDelay;
    var base := cfg.initialRetryDelay;
    match cfg.retryPolicy {
      case EXPONENTIAL => ExponentialGrows(base, cfg.backoffMultiplier, attempt);
      case LINEAR => ScaledNats(attempt + 1, attempt + 2, base);
      case FIBONACCI => ScaledNats(Fibonacci(attempt + 1), Fibonacci(attempt + 2), base);
      case _ =>
    }
  }

  /** Delays never shrink from one attempt to a later one, unless the multiplier of an exponential policy is less than
      1, and never exceed the maximum. */
  lemma {:induction false} DelaysGrow(cfg: Config, attempt: nat, later: nat)
    requires attempt <= later
    requires cfg.retryPolicy == EXPONENTIAL ==> cfg.backoffMultiplier >= 1.0
    ensures RetryDelay(cfg, attempt) <= RetryDelay(cfg, later) <= cfg.maxRetryDelay
    decreases later
  {
    hide RawDelay;
    if attempt < later {
      DelaysGrow(cfg, attempt, later - 1);
      DelayGrows(cfg, later - 1);
    }
  }

  // ---------------------------------------------------------------- retrying

  /** How one run of the operation ends: with an error code (0 for none), with a `std::exception`, or with anything
      else thrown. */
  datatype Outcome = Returns(code: int) | ThrowsStd | ThrowsOther

  /** What an attempt meets: how the operation would end, and when the breaker is asked and told. */
  datatype Attempt = Attempt(outcome: Outcome, asked: nat, recorded: nat)

  datatype ErrorCode = NoError | CircuitOpen | OperationFailed | OperationCanceled | FromOperation(code: int)

  predicate IsError(e: ErrorCode) {
    match e
    case NoError => false
    case FromOperation(code) => code != 0
    case _ => true
  }

  /** What `execute_with_retry` comes to: an error code returned, or an exception let through. */
  datatype RetryResult = Returned(error: ErrorCode) | Escaped

  /** A breaker beside its configuration. */
  datatype Guard = Guard(breaker: CB.Breaker, config: CB.Config)

  predicate Guarded(cfg: Config, guard: Option<Guard>) {
    cfg.useCircuitBreaker && guard.Some?
  }

  /** One attempt: what it returned (None when the exception is let through, `OperationCanceled` when caught by the
      loop), whether the operation ran, and the breaker afterwards. */
  function Try(cfg: Config, guard: Option<Guard>, a: Attempt): (Option<ErrorCode>, bool, Option<Guard>) {
    if Guarded(cfg, guard) then
      var (r, b) := CB.AfterExecute(guard.value.breaker, guard.value.config, !a.outcome.Returns?, a.asked, a.recorded);
      var after := Some(guard.value.(breaker := b));
      match r
      case CircuitOpen => (Some(CircuitOpen), false, after)
      case Succeeded => (Some(NoError), true, after)
      case OperationFailed => (Some(OperationFailed), true, after)
    else
      match a.outcome
      case Returns(code) => (Some(FromOperation(code)), true, guard)
      case ThrowsStd => (Some(OperationCanceled), true, guard)
      case ThrowsOther => (None, true, guard)
  }

  /** An exception caught by the retry loop itself ends it. */
  predicate StopsLoop(cfg: Config, guard: Option<Guard>, a: Attempt) {
    !Guarded(cfg, guard) && a.outcome.ThrowsStd?
  }

  predicate ShouldRetry(cfg: Config, guard: Option<Guard>, attempt: nat, error: ErrorCode) {
    && cfg.retryPolicy != NONE
    && attempt < cfg.maxRetryAttempts
    && !(Guarded(cfg, guard) && guard.value.breaker.state == CB.OPEN)
    && IsError(error)
  }

  function CountSuccess(s: Stats, attempt: nat): Stats {
    s.(successfulRetries := s.successfulRetries + 1, totalRetryAttempts := s.totalRetryAttempts + attempt)
  }

  function CountExhausted(cfg: Config, s: Stats, attempt: nat): Stats {
    s.(failedRetries := s.failedRetries + 1,
       retryExhaustedCount := s.retryExhaustedCount + 1,
       totalRetryAttempts := s.totalRetryAttempts + attempt,
       fallbackInvocations := s.fallbackInvocations + if cfg.enableFallback then 1 else 0)
  }

  /** Division toward zero. */
  function Quotient(x: int, n: nat): int
    requires n > 0
  {
    if x >= 0 then x / n else -(-x / n)
  }

  function CountRetry(s: Stats, delay: int): Stats {
    var time := s.totalRetryTime + delay;
    var average := if s.totalRetryAttempts > 0 then Quotient(time, s.totalRetryAttempts) else s.averageRetryDelay;
    s.(totalRetryTime := time, averageRetryDelay := average)
  }

  function ResetGuard(cfg: Config, guard: Option<Guard>, now: nat): Option<Guard> {
    if cfg.autoResetOnSuccess && guard.Some? then Some(guard.value.(breaker := CB.AfterReset(guard.value.breaker, now)))
    else guard
  }

  datatype Finished = Finished(result: RetryResult, runs: nat, stats: Stats, guard: Option<Guard>)

  /** The retry loop from an attempt on; `runs` counts how often the operation ran, `last` is the last error. */
  function RetryFrom(cfg: Config, guard: Option<Guard>, script: nat -> Attempt, stats: Stats,
                     attempt: nat, runs: nat, last: ErrorCode): Finished
    decreases cfg.maxRetryAttempts - attempt
  {
    if attempt >= cfg.maxRetryAttempts then Finished(Returned(last), runs, CountExhausted(cfg, stats, attempt), guard)
    else
      var (error, ran, after) := Try(cfg, guard, script(attempt));
      var total := runs + if ran then 1 else 0;
      if error.None? then Finished(Escaped, total, stats, after)
      else if !IsError(error.value) then
        Finished(Returned(error.value), total, CountSuccess(stats, attempt),
                 ResetGuard(cfg, after, script(attempt).recorded))
      else if StopsLoop(cfg, guard, script(attempt)) || !ShouldRetry(cfg, after, attempt, error.value) then
        Finished(Returned(error.value), total, CountExhausted(cfg, stats, attempt), after)
      else
        RetryFrom(cfg, after, script, CountRetry(stats, RetryDelay(cfg, attempt)), attempt + 1, total, error.value)
  }

  function Retry(cfg: Config, guard: Option<Guard>, script: nat -> Attempt, stats: Stats): Finished {
    RetryFrom(cfg, guard, script, stats, 0, 0, NoError)
  }

  class SelfHealing {
    const config: Config
    const breaker: CB.CircuitBreaker?
    var stats: Stats

    function Protection(): Option<Guard>
      reads breaker
    {
      if breaker == null then None else Some(Guard(breaker.Current(), breaker.config))
    }

    constructor (config: Config, breaker: CB.CircuitBreaker?)
      ensures this.config == config && this.breaker == breaker && stats == Stats(0, 0, 0, 0, 0, 0, 0)
    {
      this.config, this.breaker := config, breaker;
      stats := Stats(0, 0, 0, 0, 0, 0, 0);
    }

    /** One run of the operation, behind the breaker when there is one to use. */
    method RunOnce(a: Attempt) returns (error: Option<ErrorCode>, ran: bool)
      modifies breaker
      ensures (error, ran, Protection()) == Try(config, old(Protection()), a)
    {
      if config.useCircuitBreaker && breaker != null {
        var r := breaker.Execute(!a.outcome.Returns?, a.asked, a.recorded);
        match r {
          case CircuitOpen => return Some(CircuitOpen), false;
          case Succeeded => return Some(NoError), true;
          case OperationFailed => return Some(OperationFailed), true;
        }
      }
      match a.outcome {
        case Returns(code) => return Some(FromOperation(code)), true;
        case ThrowsStd => return Some(OperationCanceled), true;
        case ThrowsOther => return None, true;
      }
    }

    /** `script(k)` is what attempt k meets; `runs` counts how often the operation ran. */
    method ExecuteWithRetry(script: nat -> Attempt) returns (result: RetryResult, runs: nat)
      modifies this, breaker
      ensures Finished(result, runs, stats, Protection()) == Retry(config, old(Protection()), script, old(stats))
    {
      hide Try, RetryDelay;
      var last, attempt := NoError, 0;
      runs := 0;
      while attempt < config.maxRetryAttempts
        invariant Retry(config, old(Protection()), script, old(stats)) ==
          RetryFrom(config, Protection(), script, stats, attempt, runs, last)
      {
        var guarded := config.useCircuitBreaker && breaker != null;
        var error, ran := RunOnce(script(attempt));
        if ran {
          runs := runs + 1;
        }
        if error.None? {
          return Escaped, runs;
        }
        last := error.value;
        if !IsError(last) {
          stats := CountSuccess(stats, attempt);
          if config.autoResetOnSuccess && breaker != null {
            breaker.Reset(script(attempt).recorded);
          }
          return Returned(last), runs;
        }
        if !guarded && script(attempt).outcome.ThrowsStd? {
          break;
        }
        if !ShouldRetry(config, Protection(), attempt, last) {
          break;
        }
        var delay := CalculateRetryDelay(config, attempt);
        stats := CountRetry(stats, delay);
        attempt := attempt + 1;
      }
      stats := CountExhausted(config, stats, attempt);
      return Returned(last), runs;
    }
  }

  // ---------------------------------------------------------------- what retrying promises

  /** Every call counts as one success or as one failure, except one that lets an exception through, which counts as
      neither; failures and exhausted retries are the same. */
  lemma {:induction false} OneCallCounts(cfg: Config, guard: Option<Guard>, script: nat -> Attempt, stats: Stats,
                                         attempt: nat, runs: nat, last: ErrorCode)
    ensures var f := RetryFrom(cfg, guard, script, stats, attempt, runs, last);
      && f.stats.successfulRetries + f.stats.failedRetries ==
         stats.successfulRetries + stats.failedRetries + (if f.result.Escaped? then 0 else 1)
      && f.stats.failedRetries - stats.failedRetries == f.stats.retryExhaustedCount - stats.retryExhaustedCount
    decreases cfg.maxRetryAttempts - attempt
  {
    hide Try, RetryDelay;
    if attempt < cfg.maxRetryAttempts {
      var (error, ran, after) := Try(cfg, guard, script(attempt));
      if error.Some? {
        OneCallCounts(cfg, after, script, CountRetry(stats, RetryDelay(cfg, attempt)), attempt + 1,
                      runs + (if ran then 1 else 0), error.value);
      }
    }
  }

  /** With a breaker in use no exception gets through. */
  lemma {:induction false} NothingEscapesBreaker(cfg: Config, guard: Option<Guard>, script: nat -> Attempt,
                                                 stats: Stats, attempt: nat, runs: nat, last: ErrorCode)
    requires Guarded(cfg, guard)
    ensures RetryFrom(cfg, guard, script, stats, attempt, runs, last).result.Returned?
    decreases cfg.maxRetryAttempts - attempt
  {
    hide CB.AfterExecute, RetryDelay;
    if attempt < cfg.maxRetryAttempts {
      var (error, ran, after) := Try(cfg, guard, script(attempt));
      NothingEscapesBreaker(cfg, after, script, CountRetry(stats, RetryDelay(cfg, attempt)), attempt + 1,
                            runs + (if ran then 1 else 0), error.value);
    }
  }

  /** Most attempts one call may make. */
  function Budget(cfg: Config): nat {
    if cfg.retryPolicy == NONE then Min(1, cfg.maxRetryAttempts) else cfg.maxRetryAttempts
  }

  /** Failures a breaker that is not open takes before it opens; the first one always is taken. */
  function Tolerance(guard: Guard): int {
    Max(1, guard.config.failureThreshold - guard.breaker.stats.consecutiveFailures)
  }

  predicate Throws(a: Attempt) {
    !a.outcome.Returns?
  }

  /** One throw behind a breaker that lets the attempt through. */
  lemma ThrowIsTaken(cfg: Config, guard: Option<Guard>, a: Attempt)
    requires Guarded(cfg, guard) && guard.value.breaker.state != CB.OPEN && Throws(a)
    ensures var (error, ran, after) := Try(cfg, guard, a);
      && error == Some(OperationFailed) && ran && Guarded(cfg, after)
      && after.value.config == guard.value.config
      && after.value.breaker.stats.consecutiveFailures == guard.value.breaker.stats.consecutiveFailures + 1
      && (after.value.breaker.state == CB.OPEN <==> Tolerance(guard.value) == 1)
      && (after.value.breaker.state != CB.OPEN ==> Tolerance(after.value) == Tolerance(guard.value) - 1)
  {
  }

  /** One return behind such a breaker succeeds, whatever was returned. */
  lemma ReturnIsSuccess(cfg: Config, guard: Option<Guard>, a: Attempt)
    requires Guarded(cfg, guard) && guard.value.breaker.state != CB.OPEN && !Throws(a)
    ensures Try(cfg, guard, a).0 == Some(NoError) && Try(cfg, guard, a).1
  {
  }

  /** From an attempt on: the operation throws k more times and then returns, or keeps throwing to the end. */
  lemma {:induction false} RunsFrom(cfg: Config, guard: Option<Guard>, script: nat -> Attempt, stats: Stats,
                                    attempt: nat, runs: nat, last: ErrorCode, k: nat)
    requires Guarded(cfg, guard) && guard.value.breaker.state != CB.OPEN && attempt < Budget(cfg)
    requires forall j: nat :: attempt <= j < attempt + k ==> Throws(script(j))
    requires var most := Min(Budget(cfg) - attempt, Tolerance(guard.value));
      k == most || (k < most && !Throws(script(attempt + k)))
    ensures var most := Min(Budget(cfg) - attempt, Tolerance(guard.value));
      var f := RetryFrom(cfg, guard, script, stats, attempt, runs, last);
      && f.runs == runs + Min(k + 1, most)
      && f.result == Returned(if k < most then NoError else OperationFailed)
      && f.stats.successfulRetries == stats.successfulRetries + (if k < most then 1 else 0)
      && f.stats.failedRetries == stats.failedRetries + (if k < most then 0 else 1)
    decreases cfg.maxRetryAttempts - attempt
  {
    hide Try, RetryDelay, Tolerance;
    var (error, ran, after) := Try(cfg, guard, script(attempt));
    ToleranceIsPositive(guard.value);
    if k == 0 {
      ReturnIsSuccess(cfg, guard, script(attempt));
    } else {
      ThrowIsTaken(cfg, guard, script(attempt));
      if after.value.breaker.state != CB.OPEN && attempt + 1 < Budget(cfg) {
        var next := CountRetry(stats, RetryDelay(cfg, attempt));
        RunsFrom(cfg, after, script, next, attempt + 1, runs + 1, error.value, k - 1);
      } else {
        StopsHere(cfg, guard, script, stats, attempt, runs, last);
      }
    }
  }

  lemma ToleranceIsPositive(guard: Guard)
    ensures Tolerance(guard) >= 1
  {
  }

  /** A throw that opens the breaker, or uses up the budget, is the last run. */
  lemma StopsHere(cfg: Config, guard: Option<Guard>, script: nat -> Attempt, stats: Stats,
                  attempt: nat, runs: nat, last: ErrorCode)
    requires Guarded(cfg, guard) && guard.value.breaker.state != CB.OPEN && attempt < Budget(cfg)
    requires Throws(script(attempt))
    requires Tolerance(guard.value) == 1 || attempt + 1 == Budget(cfg)
    ensures var f := RetryFrom(cfg, guard, script, stats, attempt, runs, last);
      && f.runs == runs + 1 && f.result == Returned(OperationFailed)
      && f.stats.successfulRetries == stats.successfulRetries
      && f.stats.failedRetries == stats.failedRetries + 1
  {
    hide Try, RetryDelay, Tolerance;
    ThrowIsTaken(cfg, guard, script(attempt));
    var (error, ran, after) := Try(cfg, guard, script(attempt));
    var next := CountRetry(stats, RetryDelay(cfg, attempt));
    assert RetryFrom(cfg, after, script, next, cfg.maxRetryAttempts, runs + 1, OperationFailed) ==
      Finished(Returned(OperationFailed), runs + 1, CountExhausted(cfg, next, cfg.maxRetryAttempts), after);
  }

  /** Retrying behind a breaker nobody else uses, when the operation throws k times and then returns (any value), or
      throws to the end: it runs until the first return, but at most `Budget` times and at most as often as the
      breaker takes failures; while the breaker is open and its timeout is not over, it does not run at all. */
  lemma RetryRunsExactly(cfg: Config, guard: Option<Guard>, script: nat -> Attempt, stats: Stats, k: nat)
    requires Guarded(cfg, guard) && cfg.maxRetryAttempts > 0
    requires forall j: nat :: j < k ==> Throws(script(j))
    requires var most := Min(Budget(cfg), Tolerance(guard.value));
      k == most || (k < most && !Throws(script(k)))
    ensures var most := Min(Budget(cfg), Tolerance(guard.value));
      var f := Retry(cfg, guard, script, stats);
      if !CB.Admits(guard.value.breaker, guard.value.config, script(0).asked) then
        && f.runs == 0 && f.result == Returned(CircuitOpen)
        && f.guard == Some(guard.value.(breaker := CB.AfterRejection(guard.value.breaker)))
        && f.stats.failedRetries == stats.failedRetries + 1
      else
        && f.runs == Min(k + 1, most)
        && f.result == Returned(if k < most then NoError else OperationFailed)
        && f.stats.successfulRetries == stats.successfulRetries + (if k < most then 1 else 0)
        && f.stats.failedRetries == stats.failedRetries + (if k < most then 0 else 1)
  {
    hide RetryDelay;
    var b := guard.value.breaker;
    if b.state != CB.OPEN {
      RunsFrom(cfg, guard, script, stats, 0, 0, NoError, k);
    } else if CB.Admits(b, guard.value.config, script(0).asked) {
      var asked := Some(guard.value.(breaker := CB.AfterAsking(b, guard.value.config, script(0).asked)));
      AskedIsSame(cfg, guard, script, stats);
      RunsFrom(cfg, asked, script, stats, 0, 0, NoError, k);
    }
  }

  /** An open breaker whose timeout is over acts like the half open one it becomes. */
  lemma AskedIsSame(cfg: Config, guard: Option<Guard>, script: nat -> Attempt, stats: Stats)
    requires Guarded(cfg, guard) && cfg.maxRetryAttempts > 0
    requires guard.value.breaker.state == CB.OPEN
    requires CB.Admits(guard.value.breaker, guard.value.config, script(0).asked)
    ensures var b := CB.AfterAsking(guard.value.breaker, guard.value.config, script(0).asked);
      var asked := Some(guard.value.(breaker := b));
      b.state == CB.HALF_OPEN && Tolerance(asked.value) == Tolerance(guard.value)
      && Retry(cfg, asked, script, stats) == Retry(cfg, guard, script, stats)
  {
    hide RetryDelay;
    var b := CB.AfterAsking(guard.value.breaker, guard.value.config, script(0).asked);
    var asked := Some(guard.value.(breaker := b));
    assert Try(cfg, asked, script(0)) == Try(cfg, guard, script(0));
  }

  /** An operation that always throws runs min(attempts, max(1, threshold - c)) times behind a breaker that is closed
      or half open with c consecutive failures, and not at all behind one that is open and not yet timed out. */
  lemma AlwaysThrowingRuns(cfg: Config, guard: Option<Guard>, script: nat -> Attempt, stats: Stats)
    requires Guarded(cfg, guard) && cfg.retryPolicy != NONE && forall j: nat :: Throws(script(j))
    ensures var (b, bc) := (guard.value.breaker, guard.value.config);
      Retry(cfg, guard, script, stats).runs ==
        if !CB.Admits(b, bc, script(0).asked) then 0
        else Min(cfg.maxRetryAttempts, Max(1, bc.failureThreshold - b.stats.consecutiveFailures))
  {
    hide CB.Admits, RetryDelay;
    if cfg.maxRetryAttempts > 0 {
      RetryRunsExactly(cfg, guard, script, stats, Min(Budget(cfg), Tolerance(guard.value)));
    }
  }

  /** A call counted as failed that returns no error. */
  predicate FailsWithoutError(before: Stats, f: Finished) {
    f.stats.failedRetries > before.failedRetries && f.result.Returned? && !IsError(f.result.error)
  }

  lemma {:induction false} FailureHasError(cfg: Config, guard: Option<Guard>, script: nat -> Attempt, stats: Stats,
                                           attempt: nat, runs: nat, last: ErrorCode)
    requires IsError(last) || (attempt == 0 && cfg.maxRetryAttempts > 0)
    ensures !FailsWithoutError(stats, RetryFrom(cfg, guard, script, stats, attempt, runs, last))
    decreases cfg.maxRetryAttempts - attempt
  {
    hide Try, RetryDelay, IsError;
    if attempt < cfg.maxRetryAttempts {
      var (error, ran, after) := Try(cfg, guard, script(attempt));
      if error.Some? && IsError(error.value) {
        FailureHasError(cfg, after, script, CountRetry(stats, RetryDelay(cfg, attempt)), attempt + 1,
                        runs + (if ran then 1 else 0), error.value);
      }
    }
  }

  /** Exactly when a call is counted as failed and yet returns no error: when no attempts are allowed. */
  lemma FailsWithoutErrorExactly(cfg: Config, guard: Option<Guard>, script: nat -> Attempt, stats: Stats)
    ensures FailsWithoutError(stats, Retry(cfg, guard, script, stats)) <==> cfg.maxRetryAttempts == 0
  {
    hide Try, RetryDelay;
    if cfg.maxRetryAttempts > 0 {
      FailureHasError(cfg, guard, script, stats, 0, 0, NoError);
    }
  }

  /** Attempt k lets an exception through, and every attempt before it returned an error. */
  ghost predicate EscapesAt(cfg: Config, script: nat -> Attempt, attempt: nat, k: nat) {
    && attempt <= k < Budget(cfg) && script(k).outcome.ThrowsOther?
    && forall j: nat :: attempt <= j < k ==> script(j).outcome.Returns? && script(j).outcome.code != 0
  }

  /** Without a breaker: exactly when an exception gets through, uncounted. */
  lemma {:induction false} EscapesExactly(cfg: Config, guard: Option<Guard>, script: nat -> Attempt, stats: Stats,
                                          attempt: nat, runs: nat, last: ErrorCode)
    requires !Guarded(cfg, guard) && (attempt < Budget(cfg) || attempt == cfg.maxRetryAttempts)
    ensures RetryFrom(cfg, guard, script, stats, attempt, runs, last).result.Escaped? <==>
      exists k: nat :: EscapesAt(cfg, script, attempt, k)
    decreases cfg.maxRetryAttempts - attempt
  {
    hide RetryDelay;
    if attempt < Budget(cfg) {
      if script(attempt).outcome.ThrowsOther? {
        assert EscapesAt(cfg, script, attempt, attempt);
      } else if ShouldRetry(cfg, guard, attempt, FromOperation(1)) && script(attempt).outcome.Returns? {
        var next := CountRetry(stats, RetryDelay(cfg, attempt));
        EscapesExactly(cfg, guard, script, next, attempt + 1, runs + 1, FromOperation(script(attempt).outcome.code));
        EscapesLater(cfg, script, attempt, attempt + 1);
      }
    }
  }

  lemma EscapesLater(cfg: Config, script: nat -> Attempt, attempt: nat, next: nat)
    requires attempt < Budget(cfg) && next == attempt + 1 && script(attempt).outcome.Returns?
    ensures (exists k: nat :: EscapesAt(cfg, script, attempt, k)) <==>
      (script(attempt).outcome.code != 0 && exists k: nat :: EscapesAt(cfg, script, next, k))
  {
    if script(attempt).outcome.code != 0 {
      forall k: nat | EscapesAt(cfg, script, next, k) ensures EscapesAt(cfg, script, attempt, k) {
      }
    }
    forall k: nat | EscapesAt(cfg, script, attempt, k)
      ensures script(attempt).outcome.code != 0 && EscapesAt(cfg, script, next, k)
    {
      assert k != attempt;
    }
  }

  /** A call of `execute_with_retry`, the breaker being whatever others have made of it by then. */
  datatype RetryCall = RetryCall(guard: Option<Guard>, script: nat -> Attempt)

  /** The statistics after the first n calls. */
  ghost function StatsAfter(cfg: Config, calls: seq<RetryCall>, n: nat): Stats
    requires n <= |calls|
  {
    if n == 0 then Stats(0, 0, 0, 0, 0, 0, 0)
    else Retry(cfg, calls[n - 1].guard, calls[n - 1].script, StatsAfter(cfg, calls, n - 1)).stats
  }

  /** The first n calls that returned rather than let an exception through. */
  ghost function ReturnedCalls(cfg: Config, calls: seq<RetryCall>, n: nat): nat
    requires n <= |calls|
  {
    if n == 0 then 0
    else
      var f := Retry(cfg, calls[n - 1].guard, calls[n - 1].script, StatsAfter(cfg, calls, n - 1));
      ReturnedCalls(cfg, calls, n - 1) + if f.result.Returned? then 1 else 0
  }

  /** After any number of calls every returned one is counted once, and failed and exhausted retries are the same. */
  lemma {:induction false} CountsAgree(cfg: Config, calls: seq<RetryCall>, n: nat)
    requires n <= |calls|
    ensures var s := StatsAfter(cfg, calls, n);
      && s.successfulRetries + s.failedRetries == ReturnedCalls(cfg, calls, n)
      && s.failedRetries == s.retryExhaustedCount
    decreases n
  {
    hide RetryFrom;
    if n > 0 {
      CountsAgree(cfg, calls, n - 1);
      OneCallCounts(cfg, calls[n - 1].guard, calls[n - 1].script, StatsAfter(cfg, calls, n - 1), 0, 0, NoError);
    }
  }
}
