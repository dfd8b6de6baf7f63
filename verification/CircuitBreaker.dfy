/** The circuit breaker of src/circuit_breaker.cpp and include/ArgoSentry/circuit_breaker.hh. Every call is one
    atomic step that reads the clock once. */
module CircuitBreaker {
  import opened Common

  datatype CircuitState = CLOSED | OPEN | HALF_OPEN

  datatype Config = Config(failureThreshold: nat, openTimeout: int, successThreshold: nat)

  datatype Stats = Stats(
    totalCalls: nat,
    successfulCalls: nat,
    failedCalls: nat,
    rejectedCalls: nat,
    stateTransitions: nat,
    lastFailureTime: nat,
    lastSuccessTime: nat,
    lastStateChange: nat,
    currentState: CircuitState,
    consecutiveFailures: nat,
    consecutiveSuccesses: nat)

  datatype Breaker = Breaker(state: CircuitState, stats: Stats)

  function EmptyStats(state: CircuitState, now: nat): Stats {
    Stats(0, 0, 0, 0, 0, 0, 0, now, state, 0, 0)
  }

  function Initial(now: nat): Breaker {
    Breaker(CLOSED, EmptyStats(CLOSED, now))
  }

  function Transition(b: Breaker, to: CircuitState, now: nat): Breaker {
    if b.state == to then b
    else
      Breaker(to, b.stats.(
        currentState := to,
        stateTransitions := b.stats.stateTransitions + 1,
        lastStateChange := now,
        consecutiveFailures := if to == CLOSED then 0 else b.stats.consecutiveFailures,
        consecutiveSuccesses := if to == HALF_OPEN then 0 else b.stats.consecutiveSuccesses))
  }

  predicate TimedOut(b: Breaker, cfg: Config, now: nat) {
    WholeSeconds(b.stats.lastStateChange, now) >= cfg.openTimeout
  }

  predicate Admits(b: Breaker, cfg: Config, now: nat) {
    b.state == OPEN ==> TimedOut(b, cfg, now)
  }

  function AfterAsking(b: Breaker, cfg: Config, now: nat): Breaker {
    if b.state == OPEN && TimedOut(b, cfg, now) then Transition(b, HALF_OPEN, now) else b
  }

  function AfterSuccess(b: Breaker, cfg: Config, now: nat): Breaker {
    var c := b.(stats := b.stats.(
      totalCalls := b.stats.totalCalls + 1,
      successfulCalls := b.stats.successfulCalls + 1,
      consecutiveSuccesses := b.stats.consecutiveSuccesses + 1,
      consecutiveFailures := 0,
      lastSuccessTime := now));
    if b.state == HALF_OPEN && c.stats.consecutiveSuccesses >= cfg.successThreshold then Transition(c, CLOSED, now)
    else c
  }

  function AfterFailure(b: Breaker, cfg: Config, now: nat): Breaker {
    var c := b.(stats := b.stats.(
      totalCalls := b.stats.totalCalls + 1,
      failedCalls := b.stats.failedCalls + 1,
      consecutiveFailures := b.stats.consecutiveFailures + 1,
      consecutiveSuccesses := 0,
      lastFailureTime := now));
    if b.state != OPEN && c.stats.consecutiveFailures >= cfg.failureThreshold then Transition(c, OPEN, now)
    else c
  }

  function AfterRejection(b: Breaker): Breaker {
    b.(stats := b.stats.(rejectedCalls := b.stats.rejectedCalls + 1))
  }

  function AfterStatsReset(b: Breaker, now: nat): Breaker {
    b.(stats := EmptyStats(b.state, now))
  }

  function AfterReset(b: Breaker, now: nat): Breaker {
    AfterStatsReset(Transition(b, CLOSED, now), now)
  }

  /** The steps of a run. An `execute` is an `Ask` and then a `Succeed`, a `Fail` or a `Reject`; those of several
      callers may interleave, so nothing is asked of their order. */
  datatype Action = Ask | Succeed | Fail | Reject | Trip | Reset | HalfOpen | ResetStats

  datatype Event = Event(action: Action, time: nat)

  function Apply(b: Breaker, cfg: Config, e: Event): Breaker {
    match e.action
    case Ask => AfterAsking(b, cfg, e.time)
    case Succeed => AfterSuccess(b, cfg, e.time)
    case Fail => AfterFailure(b, cfg, e.time)
    case Reject => AfterRejection(b)
    case Trip => Transition(b, OPEN, e.time)
    case Reset => AfterReset(b, e.time)
    case HalfOpen => Transition(b, HALF_OPEN, e.time)
    case ResetStats => AfterStatsReset(b, e.time)
  }

  /** What calling `execute` came to. */
  datatype Executed = CircuitOpen | Succeeded | OperationFailed

  /** One `execute`: only a throw counts as a failure, whatever the operation returned. */
  function AfterExecute(b: Breaker, cfg: Config, throws: bool, asked: nat, recorded: nat): (Executed, Breaker) {
    var c := Apply(b, cfg, Event(Ask, asked));
    if !Admits(b, cfg, asked) then (CircuitOpen, Apply(c, cfg, Event(Reject, asked)))
    else if throws then (OperationFailed, Apply(c, cfg, Event(Fail, recorded)))
    else (Succeeded, Apply(c, cfg, Event(Succeed, recorded)))
  }

  class CircuitBreaker {
    const config: Config
    var state: CircuitState
    var stats: Stats

    function Current(): Breaker
      reads this
    {
      Breaker(state, stats)
    }

    constructor (config: Config, now: nat)
      ensures this.config == config && Current() == Initial(now)
    {
      this.config := config;
      state := CLOSED;
      stats := EmptyStats(CLOSED, now);
    }

    method TransitionState(to: CircuitState, now: nat)
      modifies this
      ensures Current() == Transition(old(Current()), to, now)
    {
      var from := state;
      state := to;
      if from != to {
        stats := stats.(currentState := to, stateTransitions := stats.stateTransitions + 1, lastStateChange := now);
        if to == CLOSED {
          stats := stats.(consecutiveFailures := 0);
        }
        if to == HALF_OPEN {
          stats := stats.(consecutiveSuccesses := 0);
        }
      }
    }

    method AllowRequest(now: nat) returns (allowed: bool)
      modifies this
      ensures allowed == Admits(old(Current()), config, now)
      ensures Current() == AfterAsking(old(Current()), config, now)
    {
      if state == CLOSED {
        return true;
      }
      if state == OPEN {
        if WholeSeconds(stats.lastStateChange, now) >= config.openTimeout {
          TransitionState(HALF_OPEN, now);
          return true;
        }
        return false;
      }
      return true;
    }

    method RecordSuccess(now: nat)
      modifies this
      ensures Current() == AfterSuccess(old(Current()), config, now)
    {
      stats := stats.(totalCalls := stats.totalCalls + 1, successfulCalls := stats.successfulCalls + 1);
      stats := stats.(consecutiveSuccesses := stats.consecutiveSuccesses + 1, consecutiveFailures := 0);
      stats := stats.(lastSuccessTime := now);
      if state == HALF_OPEN {
        if stats.consecutiveSuccesses >= config.successThreshold {
          TransitionState(CLOSED, now);
        }
      }
    }

    method RecordFailure(now: nat)
      modifies this
      ensures Current() == AfterFailure(old(Current()), config, now)
    {
      stats := stats.(totalCalls := stats.totalCalls + 1, failedCalls := stats.failedCalls + 1);
      stats := stats.(consecutiveFailures := stats.consecutiveFailures + 1, consecutiveSuccesses := 0);
      stats := stats.(lastFailureTime := now);
      if state == CLOSED {
        if stats.consecutiveFailures >= config.failureThreshold {
          TransitionState(OPEN, now);
        }
      } else if state == HALF_OPEN {
        if stats.consecutiveFailures >= config.failureThreshold {
          TransitionState(OPEN, now);
        }
      }
    }

    method RecordRejected()
      modifies this
      ensures Current() == AfterRejection(old(Current()))
    {
      stats := stats.(rejectedCalls := stats.rejectedCalls + 1);
    }

    method Execute(throws: bool, asked: nat, recorded: nat) returns (r: Executed)
      modifies this
      ensures (r, Current()) == AfterExecute(old(Current()), config, throws, asked, recorded)
    {
      var allowed := AllowRequest(asked);
      if !allowed {
        RecordRejected();
        return Executed.CircuitOpen;
      }
      if throws {
        RecordFailure(recorded);
        return OperationFailed;
      }
      RecordSuccess(recorded);
      return Succeeded;
    }

    method Trip(now: nat)
      modifies this
      ensures Current() == Transition(old(Current()), OPEN, now)
    {
      TransitionState(OPEN, now);
    }

    method Reset(now: nat)
      modifies this
      ensures Current() == AfterReset(old(Current()), now)
    {
      TransitionState(CLOSED, now);
      ResetStats(now);
    }

    method HalfOpen(now: nat)
      modifies this
      ensures Current() == Transition(old(Current()), HALF_OPEN, now)
    {
      TransitionState(HALF_OPEN, now);
    }

    method ResetStats(now: nat)
      modifies this
      ensures Current() == AfterStatsReset(old(Current()), now)
    {
      stats := EmptyStats(state, now);
    }
  }

  // ---------------------------------------------------------------- runs

  /** The breaker after the first n steps of a run that started at time `began`. */
  function At(cfg: Config, began: nat, events: seq<Event>, n: nat): Breaker
    requires n <= |events|
  {
    if n == 0 then Initial(began) else Apply(At(cfg, began, events, n - 1), cfg, events[n - 1])
  }

  predicate Ordered(began: nat, events: seq<Event>) {
    && (forall i: nat :: i < |events| ==> began <= events[i].time)
    && (forall i: nat, j: nat :: i <= j < |events| ==> events[i].time <= events[j].time)
  }

  /** What holds between steps. */
  predicate Sound(b: Breaker, cfg: Config) {
    var s := b.stats;
    && s.currentState == b.state
    && s.totalCalls == s.successfulCalls + s.failedCalls
    && (s.consecutiveFailures == 0 || s.consecutiveSuccesses == 0)
    && (b.state == CLOSED ==> s.consecutiveFailures < cfg.failureThreshold)
    && (b.state == HALF_OPEN ==> s.consecutiveSuccesses < cfg.successThreshold)
  }

  lemma StepIsSound(b: Breaker, cfg: Config, e: Event)
    requires Sound(b, cfg) && 1 <= cfg.failureThreshold && 1 <= cfg.successThreshold
    ensures Sound(Apply(b, cfg, e), cfg)
  {
  }

  /** In every reachable state: CLOSED means fewer consecutive failures than the threshold, HALF_OPEN fewer
      consecutive successes than the threshold, one of the two counters is 0, and every recorded call counted once. */
  lemma {:induction false} BreakerIsSound(cfg: Config, began: nat, events: seq<Event>, n: nat)
    requires n <= |events| && 1 <= cfg.failureThreshold && 1 <= cfg.successThreshold
    ensures Sound(At(cfg, began, events, n), cfg)
    decreases n
  {
    hide Apply;
    if n > 0 {
      BreakerIsSound(cfg, began, events, n - 1);
      StepIsSound(At(cfg, began, events, n - 1), cfg, events[n - 1]);
    }
  }

  /** Steps that forget recorded failures. */
  predicate ForgetsFailures(a: Action) {
    a == Succeed || a == Reset || a == ResetStats
  }

  /** Failures recorded among the first n steps since a success or a reset was last among them. */
  function TrailingFailures(events: seq<Event>, n: nat): (k: nat)
    requires n <= |events|
    ensures k <= n
  {
    if n == 0 || ForgetsFailures(events[n - 1].action) then 0
    else TrailingFailures(events, n - 1) + if events[n - 1].action == Fail then 1 else 0
  }

  lemma {:induction false} FailuresAreTrailing(cfg: Config, began: nat, events: seq<Event>, n: nat)
    requires n <= |events|
    ensures At(cfg, began, events, n).stats.consecutiveFailures == TrailingFailures(events, n)
    decreases n
  {
    if n > 0 {
      FailuresAreTrailing(cfg, began, events, n - 1);
    }
  }

  /** Exactly when the breaker opens: on `trip`, and on a failure that makes at least `failureThreshold` in a row. */
  lemma OpensExactly(cfg: Config, began: nat, events: seq<Event>, n: nat)
    requires n < |events| && At(cfg, began, events, n).state != OPEN
    ensures At(cfg, began, events, n + 1).state == OPEN <==>
      events[n].action == Trip
      || (events[n].action == Fail && TrailingFailures(events, n + 1) >= cfg.failureThreshold)
  {
    FailuresAreTrailing(cfg, began, events, n);
    FailuresAreTrailing(cfg, began, events, n + 1);
  }

  /** Successes recorded by steps `from` up to, but not including, `until`. */
  function Successes(events: seq<Event>, from: nat, until: nat): (k: nat)
    requires from <= until <= |events|
    decreases until
  {
    if from == until then 0
    else Successes(events, from, until - 1) + if events[until - 1].action == Succeed then 1 else 0
  }

  /** From step `from` to step `until` the breaker stayed half open, and nothing failed and nothing was reset. */
  predicate StaysHalfOpen(cfg: Config, began: nat, events: seq<Event>, from: nat, until: nat)
    requires from <= until <= |events|
  {
    && (forall i: nat :: from <= i <= until ==> At(cfg, began, events, i).state == HALF_OPEN)
    && (forall i: nat :: from <= i < until ==> events[i].action !in {Fail, Reset, ResetStats})
  }

  /** The step before `from` made the breaker half open, or failed, or reset the statistics. */
  predicate StartsAfresh(cfg: Config, began: nat, events: seq<Event>, from: nat)
    requires from <= |events|
  {
    from > 0 && (At(cfg, began, events, from - 1).state != HALF_OPEN || events[from - 1].action in {Fail, ResetStats})
  }

  /** While half open, the consecutive successes are those since the breaker became half open or last failed. */
  lemma {:induction false} SuccessesSinceHalfOpen(cfg: Config, began: nat, events: seq<Event>, n: nat)
      returns (from: nat)
    requires n <= |events| && At(cfg, began, events, n).state == HALF_OPEN
    ensures from <= n && StaysHalfOpen(cfg, began, events, from, n) && StartsAfresh(cfg, began, events, from)
    ensures Successes(events, from, n) == At(cfg, began, events, n).stats.consecutiveSuccesses
    decreases n
  {
    hide TrailingFailures;
    var e := events[n - 1];
    var b := At(cfg, began, events, n - 1);
    if b.state != HALF_OPEN || e.action in {Fail, ResetStats} {
      from := n;
    } else {
      from := SuccessesSinceHalfOpen(cfg, began, events, n - 1);
    }
  }

  /** Exactly when the breaker closes: on `reset`, and on a success that makes at least `successThreshold` of them
      while it was half open without a failure. */
  lemma ClosesExactly(cfg: Config, began: nat, events: seq<Event>, n: nat) returns (from: nat)
    requires n < |events| && At(cfg, began, events, n).state != CLOSED
    ensures At(cfg, began, events, n).state == HALF_OPEN ==>
      from <= n && StaysHalfOpen(cfg, began, events, from, n) && StartsAfresh(cfg, began, events, from)
    ensures At(cfg, began, events, n + 1).state == CLOSED <==>
      events[n].action == Reset
      || (At(cfg, began, events, n).state == HALF_OPEN && events[n].action == Succeed
          && Successes(events, from, n + 1) >= cfg.successThreshold)
  {
    from := 0;
    if At(cfg, began, events, n).state == HALF_OPEN {
      from := SuccessesSinceHalfOpen(cfg, began, events, n);
    }
  }

  /** While the breaker is still open since time `since`, no state change is older than that. */
  lemma {:induction false} OpenOrWaited(cfg: Config, began: nat, events: seq<Event>, a: nat, n: nat)
    requires a < n <= |events| && Ordered(began, events)
    requires At(cfg, began, events, a).state != OPEN && At(cfg, began, events, a + 1).state == OPEN
    requires forall i: nat :: a < i < n ==> events[i].action != Reset && events[i].action != HalfOpen
    ensures events[n - 1].time < events[a].time + cfg.openTimeout * TICKS ==>
      At(cfg, began, events, n).state == OPEN && At(cfg, began, events, n).stats.lastStateChange >= events[a].time
    decreases n
  {
    if n > a + 1 {
      OpenOrWaited(cfg, began, events, a, n - 1);
      assert events[n - 2].time <= events[n - 1].time && events[a].time <= events[n - 1].time;
      if events[n - 1].time < events[a].time + cfg.openTimeout * TICKS {
        TimeoutIsLong(At(cfg, began, events, n - 1), cfg, events[a].time, events[n - 1].time);
      }
    }
  }

  lemma TimeoutIsLong(b: Breaker, cfg: Config, since: nat, now: nat)
    requires now < since + cfg.openTimeout * TICKS && since <= now
    ensures b.stats.lastStateChange >= since ==> !TimedOut(b, cfg, now)
  {
  }

  /** Between opening and `openTimeout` later nothing is admitted, unless someone calls `reset` or `half_open`. */
  lemma NothingAdmittedBeforeTimeout(cfg: Config, began: nat, events: seq<Event>, a: nat, n: nat)
    requires a < n < |events| && Ordered(began, events) && events[n].action == Ask
    requires At(cfg, began, events, a).state != OPEN && At(cfg, began, events, a + 1).state == OPEN
    requires forall i: nat :: a < i < n ==> events[i].action != Reset && events[i].action != HalfOpen
    requires Admits(At(cfg, began, events, n), cfg, events[n].time)
    ensures events[n].time >= events[a].time + cfg.openTimeout * TICKS
  {
    hide At;
    OpenOrWaited(cfg, began, events, a, n);
    if events[n].time < events[a].time + cfg.openTimeout * TICKS {
      assert events[n - 1].time <= events[n].time;
      TimeoutIsLong(At(cfg, began, events, n), cfg, events[a].time, events[n].time);
    }
  }

  /** An open breaker that was not reset or changed since admits the first request `openTimeout` later, half open. */
  lemma AdmittedAfterTimeout(b: Breaker, cfg: Config, now: nat)
    requires b.state == OPEN && b.stats.lastStateChange <= now
    ensures Admits(b, cfg, now) <==> now >= b.stats.lastStateChange + cfg.openTimeout * TICKS
    ensures AfterAsking(b, cfg, now).state == if Admits(b, cfg, now) then HALF_OPEN else OPEN
  {
    if now < b.stats.lastStateChange + cfg.openTimeout * TICKS {
      TimeoutIsLong(b, cfg, b.stats.lastStateChange, now);
    }
  }
}
