/** What one call of the rate limiter does, told in clock times, and what its statistics count. */
module RateHistory {
  import opened Common
  import opened RateLimiter

  /** The call comes a second or more after the window began. */
  predicate NewWindow(s: State, c: Call) {
    c.first >= s.lastReset + 1_000_000_000
  }

  /** What the window has granted, and when it began, as the call sees it. */
  function Used(s: State, c: Call): U64 {
    if NewWindow(s, c) then 0 else s.consumed
  }

  function Began(s: State, c: Call): nat {
    if NewWindow(s, c) then c.first else s.lastReset
  }

  /** The call would take the window beyond the limit; the sum wraps. */
  predicate TooMuch(s: State, c: Call) {
    (Used(s, c) + c.bytes) % TWO_64 > s.limit
  }

  /** Whole milliseconds since the window began at the second reading of the clock. */
  function ElapsedMs(s: State, c: Call): int {
    (c.second - Began(s, c)) / 1_000_000
  }

  /** The call sleeps: it asks for too much with less than 1000 whole milliseconds gone. */
  predicate Sleeps(s: State, c: Call) {
    s.limit > 0 && TooMuch(s, c) && ElapsedMs(s, c) < 1000
  }

  /** One possible call, without a limit and with one: the counter starts again exactly when a second has passed or the
      limit would be exceeded, and the waits grow exactly when the call sleeps, by the milliseconds left. */
  lemma CallIsExact(s: State, c: Call)
    requires Possible(s, c)
    ensures s.limit == 0 ==> AfterCall(s, c) == s
    ensures var t := AfterCall(s, c);
      s.limit > 0 ==>
        && t.limit == s.limit
        && t.consumed == (if TooMuch(s, c) then c.bytes else (Used(s, c) + c.bytes) % TWO_64)
        && t.lastReset == (if TooMuch(s, c) then c.third else Began(s, c))
        && t.totalBytes == (s.totalBytes + c.bytes) % TWO_64
        && t.totalWaits == (s.totalWaits + if Sleeps(s, c) then 1 else 0) % TWO_64
        && t.totalWaitMs == (s.totalWaitMs + if Sleeps(s, c) then 1000 - ElapsedMs(s, c) else 0) % TWO_64
  {
    FullWindow(s, c.first);
    var t := AfterCheck(s, c.first);
    WaitIsLeft(t, c.second);
  }

  lemma WaitIsLeft(s: State, now: nat)
    requires s.lastReset <= now
    ensures var elapsed := (now - s.lastReset) / 1_000_000;
      && (WaitTicks(s, now) > 0 <==> elapsed < 1000)
      && (elapsed < 1000 ==> WaitTicks(s, now) / TICKS_PER_MS == 1000 - elapsed)
  {
  }

  predicate SleepsAt(limit: U64, began: nat, calls: seq<Call>, i: nat)
    requires i < |calls|
  {
    Sleeps(At(limit, began, calls, i), calls[i])
  }

  function SleepersAmong(limit: U64, began: nat, calls: seq<Call>, n: nat): set<nat>
    requires n <= |calls|
  {
    set i: nat | i < n && SleepsAt(limit, began, calls, i)
  }

  /** Milliseconds left, together, in the calls that slept. */
  function MsSlept(limit: U64, began: nat, calls: seq<Call>, n: nat): nat
    requires n <= |calls|
  {
    if n == 0 then 0
    else
      MsSlept(limit, began, calls, n - 1) +
      if SleepsAt(limit, began, calls, n - 1) then 1000 - ElapsedMs(At(limit, began, calls, n - 1), calls[n - 1]) else 0
  }

  lemma SleepersGrow(limit: U64, began: nat, calls: seq<Call>, n: nat)
    requires 0 < n <= |calls|
    ensures |SleepersAmong(limit, began, calls, n)| ==
      |SleepersAmong(limit, began, calls, n - 1)| + if SleepsAt(limit, began, calls, n - 1) then 1 else 0
  {
    hide SleepsAt;
    assert SleepersAmong(limit, began, calls, n) ==
      SleepersAmong(limit, began, calls, n - 1) + if SleepsAt(limit, began, calls, n - 1) then {n - 1} else {};
  }

  /** After any run the statistics are the number of calls that slept and the milliseconds they slept, modulo the word
      size. */
  lemma {:induction false} WaitsAreCounted(limit: U64, began: nat, calls: seq<Call>, most: nat, n: nat)
    requires IsRun(limit, began, calls, most) && n <= |calls| && limit > 0
    ensures var s := At(limit, began, calls, n);
      && s.totalWaits == |SleepersAmong(limit, began, calls, n)| % TWO_64
      && s.totalWaitMs == MsSlept(limit, began, calls, n) % TWO_64
    decreases n
  {
    hide AfterCall, Possible, SleepersAmong, ElapsedMs, TooMuch, Began;
    if n == 0 {
      NobodySlept(limit, began, calls);
    } else {
      WaitsAreCounted(limit, began, calls, most, n - 1);
      assert IsStep(limit, began, calls, most, n - 1);
      var (s, c) := (At(limit, began, calls, n - 1), calls[n - 1]);
      CallIsExact(s, c);
      SleepersGrow(limit, began, calls, n);
      AddModulo(|SleepersAmong(limit, began, calls, n - 1)|, if Sleeps(s, c) then 1 else 0);
      AddModulo(MsSlept(limit, began, calls, n - 1), if Sleeps(s, c) then 1000 - ElapsedMs(s, c) else 0);
    }
  }

  lemma NobodySlept(limit: U64, began: nat, calls: seq<Call>)
    ensures SleepersAmong(limit, began, calls, 0) == {}
  {
  }

  /** Without a limit nothing is counted and nothing waits, however many calls are made. */
  lemma {:induction false} UnlimitedCountsNothing(began: nat, calls: seq<Call>, n: nat)
    requires n <= |calls|
    ensures At(0, began, calls, n) == State(0, 0, began, 0, 0, 0)
    decreases n
  {
    if n > 0 {
      UnlimitedCountsNothing(began, calls, n - 1);
    }
  }

  /** A call within what the limit leaves never sleeps, and leaves the window as it was but for its bytes. */
  lemma FittingCallPasses(s: State, c: Call)
    requires Possible(s, c) && s.limit > 0 && !NewWindow(s, c) && s.consumed + c.bytes <= s.limit
    ensures !Sleeps(s, c) && AfterCall(s, c).lastReset == s.lastReset
    ensures AfterCall(s, c).consumed == s.consumed + c.bytes
  {
    CallIsExact(s, c);
  }
}
