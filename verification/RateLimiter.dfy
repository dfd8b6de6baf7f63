/** The byte rate limiter of src/rate_limiter.cpp, called by one thread at a time. Times are clock ticks. */
module RateLimiter {
  import opened Common

  const TICKS_PER_MS: nat := 1_000_000

  datatype State = State(
    limit: U64,
    consumed: U64,
    lastReset: nat,
    totalBytes: U64,
    totalWaits: U64,
    totalWaitMs: U64)

  /** One `wait_if_needed`: the bytes asked for, its clock readings (the second and third are taken only when the
      limit would be exceeded), and when it returned. */
  datatype Call = Call(bytes: U64, first: nat, second: nat, third: nat, granted: nat)

  predicate WindowOver(s: State, now: nat) {
    WholeSeconds(s.lastReset, now) >= 1
  }

  function AfterCheck(s: State, now: nat): State {
    if WindowOver(s, now) then s.(consumed := 0, lastReset := now) else s
  }

  predicate Exceeds(s: State, bytes: U64) {
    Add(s.consumed, bytes) > s.limit
  }

  /** What is left of the second, the elapsed part truncated to milliseconds. */
  function WaitTicks(s: State, now: nat): int {
    TICKS - (if now >= s.lastReset then (now - s.lastReset) / TICKS_PER_MS * TICKS_PER_MS else 0)
  }

  function AfterExceeding(s: State, c: Call): State {
    var wait := WaitTicks(s, c.second);
    var zeroed := s.(consumed := 0, lastReset := c.third);
    if wait > 0 then
      zeroed.(totalWaits := Add(s.totalWaits, 1), totalWaitMs := Add(s.totalWaitMs, wait / TICKS_PER_MS))
    else zeroed
  }

  function Consume(s: State, bytes: U64): State {
    s.(consumed := Add(s.consumed, bytes), totalBytes := Add(s.totalBytes, bytes))
  }

  function AfterCall(s: State, c: Call): State {
    if s.limit == 0 then s
    else
      var t := AfterCheck(s, c.first);
      Consume(if Exceeds(t, c.bytes) then AfterExceeding(t, c) else t, c.bytes)
  }

  /** The clock does not go back, and sleeping takes at least as long as asked. */
  predicate Possible(s: State, c: Call) {
    && s.lastReset <= c.first <= c.second <= c.third <= c.granted
    && (s.limit != 0 && Exceeds(AfterCheck(s, c.first), c.bytes) ==>
          c.third >= c.second + WaitTicks(AfterCheck(s, c.first), c.second))
  }

  class RateLimiter {
    var limit: U64
    var consumed: U64
    var lastReset: nat
    var totalBytes: U64
    var totalWaits: U64
    var totalWaitMs: U64

    function Current(): State
      reads this
    {
      State(limit, consumed, lastReset, totalBytes, totalWaits, totalWaitMs)
    }

    constructor (limit: U64, now: nat)
      ensures Current() == State(limit, 0, now, 0, 0, 0)
    {
      this.limit, lastReset := limit, now;
      consumed, totalBytes, totalWaits, totalWaitMs := 0, 0, 0, 0;
    }

    method CheckAndResetWindow(now: nat) returns (reset: bool)
      modifies this
      ensures reset == WindowOver(old(Current()), now) && Current() == AfterCheck(old(Current()), now)
    {
      if WholeSeconds(lastReset, now) >= 1 {
        consumed := 0;
        lastReset := now;
        return true;
      }
      return false;
    }

    method WaitIfNeeded(c: Call)
      requires Possible(Current(), c)
      modifies this
      ensures Current() == AfterCall(old(Current()), c)
    {
      if limit == 0 {
        return;
      }
      var _ := CheckAndResetWindow(c.first);
      var current := consumed;
      if Add(current, c.bytes) > limit {
        var wait := WaitTicks(Current(), c.second);
        if wait > 0 {
          consumed := 0;
          lastReset := c.third;
          totalWaits := Add(totalWaits, 1);
          totalWaitMs := Add(totalWaitMs, wait / TICKS_PER_MS);
        } else {
          consumed := 0;
          lastReset := c.third;
        }
      }
      consumed := Add(consumed, c.bytes);
      totalBytes := Add(totalBytes, c.bytes);
    }
  }

  // ---------------------------------------------------------------- runs

  function Initial(limit: U64, began: nat): State {
    State(limit, 0, began, 0, 0, 0)
  }

  /** The limiter after the first n calls. */
  function At(limit: U64, began: nat, calls: seq<Call>, n: nat): (s: State)
    requires n <= |calls|
    ensures s.limit == limit
  {
    if n == 0 then Initial(limit, began) else AfterCall(At(limit, began, calls, n - 1), calls[n - 1])
  }

  /** When the n-th call was able to begin. */
  function Clock(began: nat, calls: seq<Call>, n: nat): nat
    requires n <= |calls|
  {
    if n == 0 then began else calls[n - 1].granted
  }

  /** Calls one after the other, each of them possible, none asking for more than `most` bytes. */
  ghost predicate IsRun(limit: U64, began: nat, calls: seq<Call>, most: nat) {
    forall n: nat :: n < |calls| ==> IsStep(limit, began, calls, most, n)
  }

  predicate IsStep(limit: U64, began: nat, calls: seq<Call>, most: nat, n: nat)
    requires n < |calls|
  {
    && Clock(began, calls, n) <= calls[n].first
    && Possible(At(limit, began, calls, n), calls[n])
    && calls[n].bytes <= most
  }

  predicate Resets(s: State, c: Call) {
    WindowOver(s, c.first) || Exceeds(AfterCheck(s, c.first), c.bytes)
  }

  /** Bytes granted by the first n calls since the counter was last zeroed. */
  function WindowGrants(limit: U64, began: nat, calls: seq<Call>, n: nat): nat
    requires n <= |calls|
  {
    if n == 0 then 0
    else
      calls[n - 1].bytes +
      if Resets(At(limit, began, calls, n - 1), calls[n - 1]) then 0 else WindowGrants(limit, began, calls, n - 1)
  }

  /** One possible call, when no sum of two amounts at most `most` wraps: the new window starts at least a second
      after the old one, or the counter grows by what was granted; and it stays at most `most`. */
  lemma CallStep(s: State, c: Call, most: nat)
    requires 0 < s.limit <= most && 2 * most < TWO_64
    requires s.consumed <= most && c.bytes <= most && Possible(s, c)
    ensures var t := AfterCall(s, c);
      && t.lastReset <= c.granted && t.consumed <= most
      && (if Resets(s, c) then t.lastReset >= s.lastReset + TICKS && t.consumed == c.bytes
          else t.lastReset == s.lastReset && t.consumed == s.consumed + c.bytes)
  {
    FullWindow(s, c.first);
    FullWait(AfterCheck(s, c.first), c.second);
  }

  lemma FullWindow(s: State, now: nat)
    requires s.lastReset <= now
    ensures WindowOver(s, now) <==> now >= s.lastReset + TICKS
  {
  }

  lemma FullWait(s: State, now: nat)
    requires s.lastReset <= now
    ensures now + WaitTicks(s, now) >= s.lastReset + TICKS
  {
  }

  /** After any run the counter is what the current window granted, and no more than the limit and the largest
      request allow; no wrapping occurs. */
  lemma {:induction false} WindowIsBounded(limit: U64, began: nat, calls: seq<Call>, most: nat, n: nat)
    requires IsRun(limit, began, calls, most) && n <= |calls|
    requires 0 < limit <= most && 2 * most < TWO_64
    ensures var s := At(limit, began, calls, n);
      WindowGrants(limit, began, calls, n) == s.consumed <= most && s.lastReset <= Clock(began, calls, n)
    decreases n
  {
    hide AfterCall, Possible, Resets;
    if n > 0 {
      WindowIsBounded(limit, began, calls, most, n - 1);
      assert IsStep(limit, began, calls, most, n - 1);
      CallStep(At(limit, began, calls, n - 1), calls[n - 1], most);
    }
  }

  /** Resets are at least one second apart. */
  lemma ResetsAreApart(limit: U64, began: nat, calls: seq<Call>, most: nat, n: nat)
    requires IsRun(limit, began, calls, most) && n < |calls|
    requires 0 < limit <= most && 2 * most < TWO_64
    ensures var (s, t) := (At(limit, began, calls, n), At(limit, began, calls, n + 1));
      if Resets(s, calls[n]) then t.lastReset >= s.lastReset + TICKS else t.lastReset == s.lastReset
  {
    hide AfterCall, Possible, Resets;
    WindowIsBounded(limit, began, calls, most, n);
    assert IsStep(limit, began, calls, most, n);
    CallStep(At(limit, began, calls, n), calls[n], most);
  }

  /** Bytes asked for by the first n calls. */
  function BytesAsked(calls: seq<Call>, n: nat): nat
    requires n <= |calls|
  {
    if n == 0 then 0 else BytesAsked(calls, n - 1) + calls[n - 1].bytes
  }

  lemma CallAddsToTotal(s: State, c: Call)
    requires s.limit > 0
    ensures AfterCall(s, c).totalBytes == Add(s.totalBytes, c.bytes)
  {
    hide Add;
  }

  /** The all-time total is what all calls asked for, modulo the word size. */
  lemma {:induction false} TotalIsExact(limit: U64, began: nat, calls: seq<Call>, n: nat)
    requires n <= |calls| && limit > 0
    ensures At(limit, began, calls, n).totalBytes == BytesAsked(calls, n) % TWO_64
    decreases n
  {
    hide AfterCall;
    if n > 0 {
      TotalIsExact(limit, began, calls, n - 1);
      CallAddsToTotal(At(limit, began, calls, n - 1), calls[n - 1]);
      AddModulo(BytesAsked(calls, n - 1), calls[n - 1].bytes);
    }
  }

  // ---------------------------------------------------------------- the rate over real time

  predicate Within(c: Call, from: nat, length: nat) {
    from <= c.granted < from + length
  }

  /** Bytes granted by the first n calls inside the half-open interval of `length` ticks from `from`. */
  function GrantedWithin(calls: seq<Call>, n: nat, from: nat, length: nat): nat
    requires n <= |calls|
  {
    if n == 0 then 0
    else
      GrantedWithin(calls, n - 1, from, length) +
      if Within(calls[n - 1], from, length) then calls[n - 1].bytes else 0
  }

  /** Seconds, rounded up. */
  function SecondsUp(length: nat): nat {
    (length + (TICKS - 1)) / TICKS
  }

  /** Whole windows that can start from `from` up to the reset, when that lies in the interval. */
  function WindowsBegun(from: nat, reset: nat): nat
    requires from <= reset
  {
    (reset - from) / TICKS + 1
  }

  /** How much can have been granted in the interval up to time `clock`, given the current window. */
  predicate Potential(s: State, clock: nat, most: nat, from: nat, length: nat, granted: nat) {
    && (clock < from ==> granted == 0)
    && (s.lastReset < from ==> granted <= s.consumed)
    && (from <= s.lastReset < from + length ==> granted <= most * WindowsBegun(from, s.lastReset) + s.consumed)
    && granted <= most * (SecondsUp(length) + 1)
  }

  lemma Multiples(most: nat, i: nat, j: nat)
    requires i <= j
    ensures most * i <= most * j && most * (i + 1) == most * i + most
  {
  }

  lemma WindowsInside(from: nat, reset: nat, length: nat)
    requires from <= reset < from + length
    ensures WindowsBegun(from, reset) <= SecondsUp(length)
  {
  }

  lemma LaterWindow(from: nat, reset: nat, later: nat)
    requires from <= reset && reset + TICKS <= later
    ensures WindowsBegun(from, reset) + 1 <= WindowsBegun(from, later)
  {
  }

  /** Zeroing the counter at least a second later keeps the potential. */
  lemma PotentialOfReset(s: State, reset: nat, clock: nat, most: nat, from: nat, length: nat, granted: nat)
    requires Potential(s, clock, most, from, length, granted) && s.consumed <= most
    requires s.lastReset + TICKS <= reset && clock <= reset
    ensures Potential(s.(consumed := 0, lastReset := reset), reset, most, from, length, granted)
  {
    hide WindowsBegun, SecondsUp;
    if from <= reset < from + length {
      if from <= s.lastReset {
        LaterWindow(from, s.lastReset, reset);
        Multiples(most, WindowsBegun(from, s.lastReset), WindowsBegun(from, reset) - 1);
        Multiples(most, WindowsBegun(from, reset) - 1, WindowsBegun(from, reset));
      } else {
        AtLeastOneWindow(from, reset);
        Multiples(most, 1, WindowsBegun(from, reset));
      }
    }
  }

  lemma AtLeastOneWindow(from: nat, reset: nat)
    requires from <= reset
    ensures WindowsBegun(from, reset) >= 1
  {
  }

  /** Granting more in the current window keeps the potential. */
  lemma PotentialOfGrant(s: State, t: State, c: Call, clock: nat, most: nat, from: nat, length: nat, granted: nat)
    requires Potential(s, clock, most, from, length, granted) && clock <= c.granted
    requires t.lastReset == s.lastReset <= c.granted && t.consumed == s.consumed + c.bytes <= most
    ensures Potential(t, c.granted, most, from, length, granted + if Within(c, from, length) then c.bytes else 0)
  {
    hide WindowsBegun, SecondsUp;
    if Within(c, from, length) {
      Multiples(most, SecondsUp(length), SecondsUp(length));
      if from <= s.lastReset {
        WindowsInside(from, s.lastReset, length);
        Multiples(most, WindowsBegun(from, s.lastReset), SecondsUp(length));
      } else {
        Multiples(most, 0, SecondsUp(length));
      }
    }
  }

  lemma PotentialOfCall(s: State, c: Call, clock: nat, most: nat, from: nat, length: nat, granted: nat)
    requires Potential(s, clock, most, from, length, granted) && clock <= c.first
    requires 0 < s.limit <= most && 2 * most < TWO_64
    requires s.consumed <= most && c.bytes <= most && Possible(s, c)
    ensures Potential(AfterCall(s, c), c.granted, most, from, length,
                      granted + if Within(c, from, length) then c.bytes else 0)
  {
    hide AfterCall, Resets, Potential, WindowOver, Exceeds;
    CallStep(s, c, most);
    ResetIsLater(s, c);
    var t := AfterCall(s, c);
    if Resets(s, c) {
      PotentialOfReset(s, t.lastReset, clock, most, from, length, granted);
      PotentialOfGrant(s.(consumed := 0, lastReset := t.lastReset), t, c, t.lastReset, most, from, length, granted);
    } else {
      PotentialOfGrant(s, t, c, clock, most, from, length, granted);
    }
  }

  lemma ResetIsLater(s: State, c: Call)
    requires Possible(s, c) && s.limit > 0
    ensures Resets(s, c) ==> c.first <= AfterCall(s, c).lastReset
  {
  }

  lemma NothingGranted(limit: U64, began: nat, most: nat, from: nat, length: nat)
    ensures Potential(Initial(limit, began), began, most, from, length, 0)
  {
    hide WindowsBegun, SecondsUp;
    Multiples(most, 0, SecondsUp(length) + 1);
    if from <= began {
      Multiples(most, 0, WindowsBegun(from, began));
    }
  }

  lemma {:induction false} RunKeepsPotential(limit: U64, began: nat, calls: seq<Call>, most: nat, n: nat,
                                             from: nat, length: nat)
    requires IsRun(limit, began, calls, most) && n <= |calls|
    requires 0 < limit <= most && 2 * most < TWO_64
    ensures Potential(At(limit, began, calls, n), Clock(began, calls, n), most, from, length,
                      GrantedWithin(calls, n, from, length))
    decreases n
  {
    hide AfterCall, Possible, Potential;
    if n == 0 {
      NothingGranted(limit, began, most, from, length);
    } else {
      RunKeepsPotential(limit, began, calls, most, n - 1, from, length);
      WindowIsBounded(limit, began, calls, most, n - 1);
      assert IsStep(limit, began, calls, most, n - 1);
      PotentialOfCall(At(limit, began, calls, n - 1), calls[n - 1], Clock(began, calls, n - 1), most, from, length,
                      GrantedWithin(calls, n - 1, from, length));
    }
  }

  /** In any half-open interval of T seconds a run grants at most most * (ceil(T) + 1) bytes, where `most` is the
      limit, or the largest request if that is larger. */
  lemma RateIsBounded(limit: U64, began: nat, calls: seq<Call>, most: nat, n: nat, from: nat, length: nat)
    requires IsRun(limit, began, calls, most) && n <= |calls|
    requires 0 < limit <= most && 2 * most < TWO_64
    ensures GrantedWithin(calls, n, from, length) <= most * (SecondsUp(length) + 1)
  {
    hide At, GrantedWithin, SecondsUp, WindowsBegun;
    RunKeepsPotential(limit, began, calls, most, n, from, length);
  }

  /** The bound is met: two full windows can fall into an interval of two ticks. */
  lemma RateBoundIsMet(limit: U64) returns (calls: seq<Call>)
    requires 0 < limit && 2 * limit < TWO_64
    ensures IsRun(limit, 0, calls, limit)
    ensures GrantedWithin(calls, |calls|, TICKS - 1, 2) == limit * (SecondsUp(2) + 1)
  {
    var a, b := TICKS - 1, TICKS;
    calls := [Call(limit, a, a, a, a), Call(limit, b, b, b, b)];
    assert At(limit, 0, calls, 0) == Initial(limit, 0);
    assert At(limit, 0, calls, 1) == AfterCall(Initial(limit, 0), calls[0]);
    assert IsStep(limit, 0, calls, limit, 0) && IsStep(limit, 0, calls, limit, 1);
    assert GrantedWithin(calls, 1, TICKS - 1, 2) == limit;
  }

  /** Every run whose requests are within the limit grants at most the limit in each window. */
  ghost predicate WindowsKeepLimit(limit: U64) {
    forall began: nat, calls: seq<Call>, n: nat :: IsRun(limit, began, calls, limit) && n <= |calls| ==>
      WindowGrants(limit, began, calls, n) <= limit
  }

  /** Exactly the limits for which no window grants too much: those where twice the limit does not wrap. */
  lemma WindowsKeepLimitIff(limit: U64)
    requires limit > 0
    ensures WindowsKeepLimit(limit) <==> 2 * limit < TWO_64
  {
    if 2 * limit < TWO_64 {
      forall began: nat, calls: seq<Call>, n: nat | IsRun(limit, began, calls, limit) && n <= |calls|
        ensures WindowGrants(limit, began, calls, n) <= limit
      {
        WindowIsBounded(limit, began, calls, limit, n);
      }
    } else {
      var calls := [Call(limit, 0, 0, 0, 0), Call(limit, 0, 0, 0, 0)];
      TwoFullRequestsWrap(limit, calls);
    }
  }

  lemma TwoFullRequestsWrap(limit: U64, calls: seq<Call>)
    requires 2 * limit >= TWO_64 && calls == [Call(limit, 0, 0, 0, 0), Call(limit, 0, 0, 0, 0)]
    ensures IsRun(limit, 0, calls, limit) && WindowGrants(limit, 0, calls, 2) == 2 * limit
  {
    var s, t := At(limit, 0, calls, 0), At(limit, 0, calls, 1);
    assert !Resets(s, calls[0]);
    assert t.consumed == limit && t.lastReset == 0 && !Resets(t, calls[1]);
    assert IsStep(limit, 0, calls, limit, 0) && IsStep(limit, 0, calls, limit, 1);
    assert WindowGrants(limit, 0, calls, 1) == limit;
  }
}
