/** What the circuit breaker's statistics say about the steps taken, and when it half opens. */
module BreakerHistory {
  import opened Common
  import opened CircuitBreaker

  predicate ForgetsAll(a: Action) {
    a == Reset || a == ResetStats
  }

  /** The steps after the last reset among the first n start here. */
  function SinceReset(events: seq<Event>, n: nat): (first: nat)
    requires n <= |events|
    ensures first <= n && (first > 0 ==> ForgetsAll(events[first - 1].action))
    ensures forall j :: first <= j < n ==> !ForgetsAll(events[j].action)
  {
    if n == 0 then 0 else if ForgetsAll(events[n - 1].action) then n else SinceReset(events, n - 1)
  }

  /** The steps of a kind since then. */
  function StepsOf(events: seq<Event>, n: nat, a: Action): set<nat>
    requires n <= |events|
  {
    set j: nat | SinceReset(events, n) <= j < n && events[j].action == a
  }

  /** When the last step of a kind since then was taken, 0 if there was none. */
  function LastTime(events: seq<Event>, n: nat, a: Action): nat
    requires n <= |events|
  {
    if n == 0 || ForgetsAll(events[n - 1].action) then 0
    else if events[n - 1].action == a then events[n - 1].time
    else LastTime(events, n - 1, a)
  }

  lemma StepsGrow(events: seq<Event>, n: nat, a: Action)
    requires 0 < n <= |events|
    ensures |StepsOf(events, n, a)| ==
      if ForgetsAll(events[n - 1].action) then 0
      else |StepsOf(events, n - 1, a)| + if events[n - 1].action == a then 1 else 0
  {
    if ForgetsAll(events[n - 1].action) {
      assert StepsOf(events, n, a) == {};
    } else {
      assert StepsOf(events, n, a) == StepsOf(events, n - 1, a) + if events[n - 1].action == a then {n - 1} else {};
    }
  }

  lemma CallsOfStep(b: Breaker, cfg: Config, e: Event)
    ensures var (s, t) := (b.stats, Apply(b, cfg, e).stats);
      if ForgetsAll(e.action) then
        && t.successfulCalls == t.failedCalls == t.rejectedCalls == t.totalCalls == 0
        && t.lastSuccessTime == t.lastFailureTime == 0
      else
        && t.successfulCalls == s.successfulCalls + (if e.action == Succeed then 1 else 0)
        && t.failedCalls == s.failedCalls + (if e.action == Fail then 1 else 0)
        && t.rejectedCalls == s.rejectedCalls + (if e.action == Reject then 1 else 0)
        && t.totalCalls == s.totalCalls + (if e.action == Succeed || e.action == Fail then 1 else 0)
        && t.lastSuccessTime == (if e.action == Succeed then e.time else s.lastSuccessTime)
        && t.lastFailureTime == (if e.action == Fail then e.time else s.lastFailureTime)
  {
  }

  /** In every reachable state the calls counted as successful, failed and rejected are the steps of that kind since the
      last reset, the total is the first two together, and the times kept are those of the last of them. */
  lemma {:induction false} CallsAreCounted(cfg: Config, began: nat, events: seq<Event>, n: nat)
    requires n <= |events|
    ensures var s := At(cfg, began, events, n).stats;
      && s.successfulCalls == |StepsOf(events, n, Succeed)|
      && s.failedCalls == |StepsOf(events, n, Fail)|
      && s.rejectedCalls == |StepsOf(events, n, Reject)|
      && s.totalCalls == s.successfulCalls + s.failedCalls
      && s.lastSuccessTime == LastTime(events, n, Succeed)
      && s.lastFailureTime == LastTime(events, n, Fail)
    decreases n
  {
    hide Apply, StepsOf;
    if n == 0 {
      NothingCounted(events);
    } else {
      CallsAreCounted(cfg, began, events, n - 1);
      CallsOfStep(At(cfg, began, events, n - 1), cfg, events[n - 1]);
      StepsGrow(events, n, Succeed);
      StepsGrow(events, n, Fail);
      StepsGrow(events, n, Reject);
    }
  }

  lemma NothingCounted(events: seq<Event>)
    ensures forall a :: StepsOf(events, 0, a) == {}
  {
  }

  // ---------------------------------------------------------------- state changes

  predicate Changes(cfg: Config, began: nat, events: seq<Event>, j: nat)
    requires j < |events|
  {
    At(cfg, began, events, j).state != At(cfg, began, events, j + 1).state
  }

  /** The steps since the last reset that changed the state. */
  function ChangesAmong(cfg: Config, began: nat, events: seq<Event>, n: nat): set<nat>
    requires n <= |events|
  {
    set j: nat | SinceReset(events, n) <= j < n && Changes(cfg, began, events, j)
  }

  /** When the last step that changed the state or reset the statistics was taken; the beginning if there was none. */
  function LastChange(cfg: Config, began: nat, events: seq<Event>, n: nat): nat
    requires n <= |events|
  {
    if n == 0 then began
    else if Changes(cfg, began, events, n - 1) || ForgetsAll(events[n - 1].action) then events[n - 1].time
    else LastChange(cfg, began, events, n - 1)
  }

  lemma ChangesGrow(cfg: Config, began: nat, events: seq<Event>, n: nat)
    requires 0 < n <= |events|
    ensures |ChangesAmong(cfg, began, events, n)| ==
      if ForgetsAll(events[n - 1].action) then 0
      else |ChangesAmong(cfg, began, events, n - 1)| + if Changes(cfg, began, events, n - 1) then 1 else 0
  {
    hide Changes;
    if ForgetsAll(events[n - 1].action) {
      assert ChangesAmong(cfg, began, events, n) == {};
    } else {
      assert ChangesAmong(cfg, began, events, n) ==
        ChangesAmong(cfg, began, events, n - 1) + if Changes(cfg, began, events, n - 1) then {n - 1} else {};
    }
  }

  lemma ChangeOfStep(b: Breaker, cfg: Config, e: Event)
    ensures var t := Apply(b, cfg, e);
      && t.stats.stateTransitions ==
         (if ForgetsAll(e.action) then 0 else b.stats.stateTransitions + if t.state != b.state then 1 else 0)
      && t.stats.lastStateChange ==
         (if t.state != b.state || ForgetsAll(e.action) then e.time else b.stats.lastStateChange)
      && (b.stats.currentState == b.state ==> t.stats.currentState == t.state)
  {
  }

  /** In every reachable state the transitions counted are the steps since the last reset that changed the state, the
      time kept is that of the last change or reset, and the state kept is the state. */
  lemma {:induction false} ChangesAreCounted(cfg: Config, began: nat, events: seq<Event>, n: nat)
    requires n <= |events|
    ensures var b := At(cfg, began, events, n);
      && b.stats.stateTransitions == |ChangesAmong(cfg, began, events, n)|
      && b.stats.lastStateChange == LastChange(cfg, began, events, n)
      && b.stats.currentState == b.state
    decreases n
  {
    hide Apply, ChangesAmong;
    if n == 0 {
      NothingChanged(cfg, began, events);
    } else {
      ChangesAreCounted(cfg, began, events, n - 1);
      ChangeOfStep(At(cfg, began, events, n - 1), cfg, events[n - 1]);
      ChangesGrow(cfg, began, events, n);
    }
  }

  lemma NothingChanged(cfg: Config, began: nat, events: seq<Event>)
    ensures ChangesAmong(cfg, began, events, 0) == {}
  {
  }

  /** Exactly when the breaker half opens: on `half_open`, and when it is open and asked at least `openTimeout` whole
      seconds after the last change of state or reset. */
  lemma HalfOpensExactly(cfg: Config, began: nat, events: seq<Event>, n: nat)
    requires n < |events| && At(cfg, began, events, n).state != HALF_OPEN
    ensures At(cfg, began, events, n + 1).state == HALF_OPEN <==>
      events[n].action == HalfOpen
      || (events[n].action == Ask && At(cfg, began, events, n).state == OPEN
          && WholeSeconds(LastChange(cfg, began, events, n), events[n].time) >= cfg.openTimeout)
  {
    hide LastChange, WholeSeconds;
    ChangesAreCounted(cfg, began, events, n);
  }

  /** Successes since the last failure, the last reset and the last time the breaker became half open. */
  function TrailingSuccesses(cfg: Config, began: nat, events: seq<Event>, n: nat): nat
    requires n <= |events|
  {
    if n == 0 || ForgetsAll(events[n - 1].action) || events[n - 1].action == Fail
       || (Changes(cfg, began, events, n - 1) && At(cfg, began, events, n).state == HALF_OPEN)
    then 0
    else TrailingSuccesses(cfg, began, events, n - 1) + if events[n - 1].action == Succeed then 1 else 0
  }

  lemma {:induction false} SuccessesAreTrailing(cfg: Config, began: nat, events: seq<Event>, n: nat)
    requires n <= |events|
    ensures At(cfg, began, events, n).stats.consecutiveSuccesses == TrailingSuccesses(cfg, began, events, n)
    decreases n
  {
    if n > 0 {
      SuccessesAreTrailing(cfg, began, events, n - 1);
    }
  }

  // ---------------------------------------------------------------- execute

  /** What one `execute` comes to and counts: turned away exactly while open and before the timeout, otherwise failed
      exactly when the operation throws. */
  lemma ExecuteIsExact(b: Breaker, cfg: Config, throws: bool, asked: nat, recorded: nat)
    ensures var (r, t) := AfterExecute(b, cfg, throws, asked, recorded);
      var turnedAway := b.state == OPEN && WholeSeconds(b.stats.lastStateChange, asked) < cfg.openTimeout;
      && r == (if turnedAway then CircuitOpen else if throws then OperationFailed else Succeeded)
      && t.stats.rejectedCalls == b.stats.rejectedCalls + (if turnedAway then 1 else 0)
      && t.stats.failedCalls == b.stats.failedCalls + (if !turnedAway && throws then 1 else 0)
      && t.stats.successfulCalls == b.stats.successfulCalls + (if !turnedAway && !throws then 1 else 0)
      && (turnedAway ==> t.state == OPEN && t.stats.lastStateChange == b.stats.lastStateChange)
  {
    hide WholeSeconds;
  }
}
