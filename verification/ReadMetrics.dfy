/** The lock-free read metrics of src/metrics.cpp: any number of `record_read` calls interleave, one atomic access a
    step, and a weak compare-exchange may fail for no reason. */
module ReadMetrics {
  import opened Common

  datatype Read = Read(bytes: U64, duration: U64, success: bool, partial: bool)

  /** Where a call is: the next atomic access it makes. */
  datatype Place =
    | Begin
    | CountOperation
    | CountFailure
    | CountBytes
    | CountTime
    | CountPartial
    | LoadMin
    | TryMin(current: U64)
    | LoadMax
    | TryMax(current: U64)
    | Done
    | Skipped

  datatype State = State(
    enabled: bool,
    operations: U64,
    failed: U64,
    partials: U64,
    bytes: U64,
    time: U64,
    minTime: U64,
    maxTime: U64,
    places: seq<Place>)

  /** A call advances, its compare-exchange failing spuriously or not; or collecting is switched on or off. */
  datatype Step = Run(call: nat, spurious: bool) | SetEnabled(enabled: bool)

  const LARGEST: U64 := TWO_64 - 1

  function Initial(calls: seq<Read>): State {
    State(true, 0, 0, 0, 0, 0, LARGEST, 0, seq(|calls|, _ => Begin))
  }

  /** Where the call is after its next step. */
  function NextPlace(s: State, r: Read, p: Place, spurious: bool): Place {
    match p
    case Begin => if s.enabled then CountOperation else Skipped
    case CountOperation => if r.success then CountBytes else CountFailure
    case CountFailure => Done
    case CountBytes => CountTime
    case CountTime => if r.partial then CountPartial else LoadMin
    case CountPartial => LoadMin
    case LoadMin => TryMin(s.minTime)
    case TryMin(current) =>
      if r.duration < current && (spurious || s.minTime != current) then TryMin(s.minTime) else LoadMax
    case LoadMax => TryMax(s.maxTime)
    case TryMax(current) =>
      if r.duration > current && (spurious || s.maxTime != current) then TryMax(s.maxTime) else Done
    case Done => Done
    case Skipped => Skipped
  }

  /** What the step does to the shared counters. */
  function Access(s: State, r: Read, p: Place, spurious: bool): State {
    match p
    case CountOperation => s.(operations := Add(s.operations, 1))
    case CountFailure => s.(failed := Add(s.failed, 1))
    case CountBytes => s.(bytes := Add(s.bytes, r.bytes))
    case CountTime => s.(time := Add(s.time, r.duration))
    case CountPartial => s.(partials := Add(s.partials, 1))
    case TryMin(current) =>
      if r.duration < current && !spurious && s.minTime == current then s.(minTime := r.duration) else s
    case TryMax(current) =>
      if r.duration > current && !spurious && s.maxTime == current then s.(maxTime := r.duration) else s
    case _ => s
  }

  function Do(calls: seq<Read>, s: State, step: Step): (t: State)
    requires |s.places| == |calls|
    ensures |t.places| == |calls|
  {
    match step
    case SetEnabled(enabled) => s.(enabled := enabled)
    case Run(i, spurious) =>
      if i >= |calls| then s
      else
        Access(s, calls[i], s.places[i], spurious).(
          places := s.places[i := NextPlace(s, calls[i], s.places[i], spurious)])
  }

  /** The state after the first n steps of an interleaving. */
  function At(calls: seq<Read>, steps: seq<Step>, n: nat): (s: State)
    requires n <= |steps|
    ensures |s.places| == |calls|
  {
    if n == 0 then Initial(calls) else Do(calls, At(calls, steps, n - 1), steps[n - 1])
  }

  // ---------------------------------------------------------------- least and greatest read time

  predicate Succeeded(p: Place) {
    p in {CountBytes, CountTime, CountPartial, LoadMin, LoadMax} || p.TryMin? || p.TryMax?
  }

  predicate PastMin(r: Read, p: Place) {
    r.success && (p == LoadMax || p.TryMax? || p == Done)
  }

  predicate PastMax(r: Read, p: Place) {
    r.success && p == Done
  }

  /** Call i has got far enough to offer its read time. */
  predicate Offers(calls: seq<Read>, s: State, i: nat)
    requires |s.places| == |calls|
  {
    i < |calls| && calls[i].success && (s.places[i].TryMin? || s.places[i].TryMax? || PastMin(calls[i], s.places[i]))
  }

  predicate OffersTime(calls: seq<Read>, s: State, i: nat, time: U64)
    requires |s.places| == |calls|
  {
    Offers(calls, s, i) && calls[i].duration == time
  }

  /** What is known of one call. */
  predicate CallSound(s: State, r: Read, p: Place) {
    && (Succeeded(p) ==> r.success) && (p == CountFailure ==> !r.success) && (p == CountPartial ==> r.partial)
    && (PastMin(r, p) ==> s.minTime <= r.duration)
    && (PastMax(r, p) ==> r.duration <= s.maxTime)
    && (p.TryMin? ==> s.minTime <= p.current)
    && (p.TryMax? ==> p.current <= s.maxTime)
  }

  ghost predicate Sound(calls: seq<Read>, s: State) {
    && |s.places| == |calls|
    && (forall i: nat :: i < |calls| ==> CallSound(s, calls[i], s.places[i]))
    && (s.minTime == LARGEST || exists i: nat :: OffersTime(calls, s, i, s.minTime))
    && (s.maxTime == 0 || exists i: nat :: OffersTime(calls, s, i, s.maxTime))
  }

  /** No step raises the minimum or lowers the maximum. */
  lemma AccessNarrows(s: State, r: Read, p: Place, spurious: bool)
    requires CallSound(s, r, p)
    ensures var t := Access(s, r, p, spurious);
      && t.minTime <= s.minTime && s.maxTime <= t.maxTime
      && (t.minTime != s.minTime ==> p.TryMin? && t.minTime == r.duration)
      && (t.maxTime != s.maxTime ==> p.TryMax? && t.maxTime == r.duration)
      && CallSound(t, r, NextPlace(s, r, p, spurious))
  {
  }

  lemma OffersStay(calls: seq<Read>, s: State, i: nat, spurious: bool, j: nat)
    requires Sound(calls, s) && i < |calls| && Offers(calls, s, j)
    ensures Offers(calls, Do(calls, s, Run(i, spurious)), j)
  {
  }

  lemma RunIsSound(calls: seq<Read>, s: State, i: nat, spurious: bool)
    requires Sound(calls, s) && i < |calls|
    ensures Sound(calls, Do(calls, s, Run(i, spurious)))
  {
    hide Access, NextPlace, Offers, CallSound;
    var r, p, t := calls[i], s.places[i], Do(calls, s, Run(i, spurious));
    AccessNarrows(s, r, p, spurious);
    forall j: nat | j < |calls| ensures CallSound(t, calls[j], t.places[j]) {
      SoundOfOther(s, Access(s, r, p, spurious), calls[j], s.places[j]);
      SamePlaces(Access(s, r, p, spurious), t.places, r, NextPlace(s, r, p, spurious));
      SamePlaces(Access(s, r, p, spurious), t.places, calls[j], s.places[j]);
    }
    SourceOfTime(calls, s, i, spurious, s.minTime, t.minTime, LARGEST);
    SourceOfTime(calls, s, i, spurious, s.maxTime, t.maxTime, 0);
  }

  lemma SamePlaces(s: State, places: seq<Place>, r: Read, p: Place)
    requires CallSound(s, r, p)
    ensures CallSound(s.(places := places), r, p)
  {
  }

  lemma SoundOfOther(s: State, t: State, r: Read, p: Place)
    requires CallSound(s, r, p) && t.minTime <= s.minTime && s.maxTime <= t.maxTime
    ensures CallSound(t, r, p)
  {
  }

  /** A time that stays, or that the moving call offered, is still offered by some call. */
  lemma SourceOfTime(calls: seq<Read>, s: State, i: nat, spurious: bool, before: U64, after: U64, first: U64)
    requires Sound(calls, s) && i < |calls|
    requires before == first || exists j: nat :: OffersTime(calls, s, j, before)
    requires after != before ==> (s.places[i].TryMin? || s.places[i].TryMax?) && after == calls[i].duration
    ensures after == first || exists j: nat :: OffersTime(calls, Do(calls, s, Run(i, spurious)), j, after)
  {
    hide Do, Offers;
    var t := Do(calls, s, Run(i, spurious));
    if after != before {
      MoverOffers(calls, s, i);
      OffersStay(calls, s, i, spurious, i);
      assert OffersTime(calls, t, i, after);
    } else if before != first {
      var j: nat :| OffersTime(calls, s, j, before);
      OffersStay(calls, s, i, spurious, j);
      assert OffersTime(calls, t, j, after);
    }
  }

  lemma MoverOffers(calls: seq<Read>, s: State, i: nat)
    requires Sound(calls, s) && i < |calls| && (s.places[i].TryMin? || s.places[i].TryMax?)
    ensures Offers(calls, s, i)
  {
    assert CallSound(s, calls[i], s.places[i]);
  }

  lemma SwitchIsSound(calls: seq<Read>, s: State, enabled: bool)
    requires Sound(calls, s)
    ensures Sound(calls, s.(enabled := enabled))
  {
    var t := s.(enabled := enabled);
    forall i: nat | i < |calls| ensures CallSound(t, calls[i], t.places[i]) {
    }
    forall i: nat, time: U64 | OffersTime(calls, s, i, time) ensures OffersTime(calls, t, i, time) {
    }
  }

  lemma StartIsSound(calls: seq<Read>)
    ensures Sound(calls, Initial(calls))
  {
  }

  lemma {:induction false} MetricsAreSound(calls: seq<Read>, steps: seq<Step>, n: nat)
    requires n <= |steps|
    ensures Sound(calls, At(calls, steps, n))
    decreases n
  {
    hide Sound;
    if n == 0 {
      StartIsSound(calls);
    } else {
      MetricsAreSound(calls, steps, n - 1);
      var s := At(calls, steps, n - 1);
      match steps[n - 1] {
        case SetEnabled(enabled) => SwitchIsSound(calls, s, enabled);
        case Run(i, spurious) =>
          if i < |calls| {
            RunIsSound(calls, s, i, spurious);
          }
      }
    }
  }

  /** Under every interleaving the shared minimum never rises and the shared maximum never falls. */
  lemma {:induction false} TimesOnlyNarrow(calls: seq<Read>, steps: seq<Step>, m: nat, n: nat)
    requires m <= n <= |steps|
    ensures At(calls, steps, n).minTime <= At(calls, steps, m).minTime
    ensures At(calls, steps, m).maxTime <= At(calls, steps, n).maxTime
    decreases n
  {
    hide Access, NextPlace;
    if m < n {
      TimesOnlyNarrow(calls, steps, m, n - 1);
      MetricsAreSound(calls, steps, n - 1);
      var s := At(calls, steps, n - 1);
      if steps[n - 1].Run? && steps[n - 1].call < |calls| {
        var i := steps[n - 1].call;
        assert CallSound(s, calls[i], s.places[i]);
        AccessNarrows(s, calls[i], s.places[i], steps[n - 1].spurious);
      }
    }
  }

  /** At every moment the minimum is the largest word or the time of a successful read being recorded; likewise the
      maximum is 0 or such a time. */
  lemma TimesWereOffered(calls: seq<Read>, steps: seq<Step>, n: nat)
    requires n <= |steps|
    ensures var s := At(calls, steps, n);
      && (s.minTime == LARGEST || exists i: nat :: OffersTime(calls, s, i, s.minTime))
      && (s.maxTime == 0 || exists i: nat :: OffersTime(calls, s, i, s.maxTime))
  {
    hide At, Offers, CallSound;
    MetricsAreSound(calls, steps, n);
  }

  predicate Finished(s: State) {
    forall i: nat :: i < |s.places| ==> s.places[i] == Done || s.places[i] == Skipped
  }

  /** Call i was recorded as a successful read. */
  predicate Recorded(calls: seq<Read>, s: State, i: nat)
    requires |s.places| == |calls|
  {
    i < |calls| && calls[i].success && s.places[i] == Done
  }

  /** Once all calls are finished, whatever the interleaving, the minimum is the least time of a recorded successful
      read and the maximum the greatest; with no such read they are the values they began with. */
  lemma FinalTimesAreExact(calls: seq<Read>, steps: seq<Step>, n: nat)
    requires n <= |steps| && Finished(At(calls, steps, n))
    ensures var s := At(calls, steps, n);
      && (forall i: nat :: Recorded(calls, s, i) ==> s.minTime <= calls[i].duration <= s.maxTime)
      && ((exists i: nat :: Recorded(calls, s, i)) ==>
            (exists i: nat :: Recorded(calls, s, i) && calls[i].duration == s.minTime) &&
            (exists i: nat :: Recorded(calls, s, i) && calls[i].duration == s.maxTime))
      && ((forall i: nat :: !Recorded(calls, s, i)) ==> s.minTime == LARGEST && s.maxTime == 0)
  {
    hide At;
    MetricsAreSound(calls, steps, n);
    var s := At(calls, steps, n);
    forall i: nat | Recorded(calls, s, i) ensures s.minTime <= calls[i].duration <= s.maxTime {
      assert CallSound(s, calls[i], s.places[i]);
    }
    forall i: nat | Offers(calls, s, i) ensures Recorded(calls, s, i) {
    }
    if j: nat :| Recorded(calls, s, j) {
      if s.minTime == LARGEST {
        assert Recorded(calls, s, j) && calls[j].duration == s.minTime;
      } else {
        var i: nat :| OffersTime(calls, s, i, s.minTime);
        assert Recorded(calls, s, i) && calls[i].duration == s.minTime;
      }
      if s.maxTime == 0 {
        assert Recorded(calls, s, j) && calls[j].duration == s.maxTime;
      } else {
        var i: nat :| OffersTime(calls, s, i, s.maxTime);
        assert Recorded(calls, s, i) && calls[i].duration == s.maxTime;
      }
    }
  }

  /** A compare-exchange that fails for a reason has seen a strictly better value: without spurious failures each
      loop strictly comes to an end. */
  lemma FailureMeansProgress(calls: seq<Read>, steps: seq<Step>, n: nat, i: nat)
    requires n <= |steps| && i < |calls|
    ensures var s := At(calls, steps, n);
      var (p, q) := (s.places[i], NextPlace(s, calls[i], s.places[i], false));
      && (p.TryMin? && q.TryMin? ==> q.current < p.current)
      && (p.TryMax? && q.TryMax? ==> q.current > p.current)
  {
    hide At;
    MetricsAreSound(calls, steps, n);
    var s := At(calls, steps, n);
    assert CallSound(s, calls[i], s.places[i]);
  }

  // ---------------------------------------------------------------- totals

  /** What one call has added to a counter by the time it is at a place. */
  type Share = (Read, Place) -> nat

  predicate HasCounted(p: Place) {
    p != Begin && p != Skipped && p != CountOperation
  }

  predicate HasAddedBytes(r: Read, p: Place) {
    r.success && HasCounted(p) && p != CountBytes
  }

  predicate HasAddedTime(r: Read, p: Place) {
    HasAddedBytes(r, p) && p != CountTime
  }

  function OperationShare(r: Read, p: Place): nat {
    if HasCounted(p) then 1 else 0
  }

  function FailureShare(r: Read, p: Place): nat {
    if !r.success && p == Done then 1 else 0
  }

  function BytesShare(r: Read, p: Place): nat {
    if HasAddedBytes(r, p) then r.bytes else 0
  }

  function TimeShare(r: Read, p: Place): nat {
    if HasAddedTime(r, p) then r.duration else 0
  }

  function PartialShare(r: Read, p: Place): nat {
    if r.partial && HasAddedTime(r, p) && p != CountPartial then 1 else 0
  }

  /** The shares of the first n calls together. */
  function Sum(share: Share, calls: seq<Read>, places: seq<Place>, n: nat): nat
    requires n <= |calls| == |places|
  {
    if n == 0 then 0 else Sum(share, calls, places, n - 1) + share(calls[n - 1], places[n - 1])
  }

  lemma {:induction false} SumOfUpdate(share: Share, calls: seq<Read>, places: seq<Place>, i: nat, q: Place, n: nat)
    requires i < |calls| == |places| && n <= |calls|
    ensures Sum(share, calls, places[i := q], n) ==
      Sum(share, calls, places, n) + if i < n then share(calls[i], q) - share(calls[i], places[i]) else 0
    decreases n
  {
    if n > 0 {
      SumOfUpdate(share, calls, places, i, q, n - 1);
    }
  }

  lemma {:induction false} SumOfNothing(share: Share, calls: seq<Read>, places: seq<Place>, n: nat)
    requires n <= |calls| == |places|
    requires forall i: nat :: i < n ==> share(calls[i], places[i]) == 0
    ensures Sum(share, calls, places, n) == 0
    decreases n
  {
    if n > 0 {
      SumOfNothing(share, calls, places, n - 1);
    }
  }

  /** The counter is the sum of all shares, modulo the word size. */
  predicate Balanced(counter: U64, share: Share, calls: seq<Read>, places: seq<Place>)
    requires |places| == |calls|
  {
    counter == Sum(share, calls, places, |calls|) % TWO_64
  }

  /** From one place to the next a counter grows by what the call's share grows by. */
  predicate Grows(share: Share, r: Read, p: Place, q: Place, before: U64, after: U64) {
    if share(r, q) == share(r, p) then after == before
    else 0 < share(r, q) - share(r, p) < TWO_64 && after == Add(before, share(r, q) - share(r, p))
  }

  lemma StillBalanced(before: U64, after: U64, share: Share, calls: seq<Read>, places: seq<Place>, i: nat, q: Place)
    requires |places| == |calls| && i < |calls| && Balanced(before, share, calls, places)
    requires Grows(share, calls[i], places[i], q, before, after)
    ensures Balanced(after, share, calls, places[i := q])
  {
    SumOfUpdate(share, calls, places, i, q, |calls|);
    AddModulo(Sum(share, calls, places, |calls|), share(calls[i], q) - share(calls[i], places[i]));
  }

  lemma CountsGrow(s: State, r: Read, p: Place, spurious: bool)
    requires CallSound(s, r, p)
    ensures var (t, q) := (Access(s, r, p, spurious), NextPlace(s, r, p, spurious));
      Grows(OperationShare, r, p, q, s.operations, t.operations) && Grows(FailureShare, r, p, q, s.failed, t.failed)
  {
    hide Add;
  }

  lemma PartialsGrow(s: State, r: Read, p: Place, spurious: bool)
    requires CallSound(s, r, p)
    ensures Grows(PartialShare, r, p, NextPlace(s, r, p, spurious), s.partials, Access(s, r, p, spurious).partials)
  {
    hide Add;
  }

  lemma AddNothing(x: U64)
    ensures Add(x, 0) == x
  {
  }

  lemma AmountsGrow(s: State, r: Read, p: Place, spurious: bool)
    requires CallSound(s, r, p)
    ensures var (t, q) := (Access(s, r, p, spurious), NextPlace(s, r, p, spurious));
      Grows(BytesShare, r, p, q, s.bytes, t.bytes) && Grows(TimeShare, r, p, q, s.time, t.time)
  {
    hide Add;
    AddNothing(s.bytes);
    AddNothing(s.time);
  }

  predicate AllBalanced(calls: seq<Read>, s: State)
    requires |s.places| == |calls|
  {
    && Balanced(s.operations, OperationShare, calls, s.places)
    && Balanced(s.failed, FailureShare, calls, s.places)
    && Balanced(s.partials, PartialShare, calls, s.places)
    && Balanced(s.bytes, BytesShare, calls, s.places)
    && Balanced(s.time, TimeShare, calls, s.places)
  }

  lemma RunBalances(calls: seq<Read>, s: State, i: nat, spurious: bool)
    requires Sound(calls, s) && i < |calls| && AllBalanced(calls, s)
    ensures AllBalanced(calls, Do(calls, s, Run(i, spurious)))
  {
    hide Access, NextPlace, Balanced, CallSound, Grows;
    var (r, p, places) := (calls[i], s.places[i], s.places);
    var t, q := Access(s, r, p, spurious), NextPlace(s, r, p, spurious);
    CountsGrow(s, r, p, spurious);
    PartialsGrow(s, r, p, spurious);
    AmountsGrow(s, r, p, spurious);
    StillBalanced(s.operations, t.operations, OperationShare, calls, places, i, q);
    StillBalanced(s.failed, t.failed, FailureShare, calls, places, i, q);
    StillBalanced(s.partials, t.partials, PartialShare, calls, places, i, q);
    StillBalanced(s.bytes, t.bytes, BytesShare, calls, places, i, q);
    StillBalanced(s.time, t.time, TimeShare, calls, places, i, q);
  }

  lemma NothingCounted(calls: seq<Read>)
    ensures AllBalanced(calls, Initial(calls))
  {
    var places := Initial(calls).places;
    SumOfNothing(OperationShare, calls, places, |calls|);
    SumOfNothing(FailureShare, calls, places, |calls|);
    SumOfNothing(PartialShare, calls, places, |calls|);
    SumOfNothing(BytesShare, calls, places, |calls|);
    SumOfNothing(TimeShare, calls, places, |calls|);
  }

  /** No interleaving loses an update: at every moment each counter is the sum of what the calls have added to it;
      for finished calls that is one operation each, the failures, and the bytes, times and partial reads of the
      successes. */
  lemma {:induction false} TotalsAreExact(calls: seq<Read>, steps: seq<Step>, n: nat)
    requires n <= |steps|
    ensures AllBalanced(calls, At(calls, steps, n))
    decreases n
  {
    hide AllBalanced, Sound;
    if n == 0 {
      NothingCounted(calls);
    } else {
      TotalsAreExact(calls, steps, n - 1);
      MetricsAreSound(calls, steps, n - 1);
      var s := At(calls, steps, n - 1);
      match steps[n - 1] {
        case SetEnabled(enabled) => BalanceIgnoresSwitch(calls, s, enabled);
        case Run(i, spurious) =>
          if i < |calls| {
            RunBalances(calls, s, i, spurious);
          }
      }
    }
  }

  lemma BalanceIgnoresSwitch(calls: seq<Read>, s: State, enabled: bool)
    requires |s.places| == |calls| && AllBalanced(calls, s)
    ensures AllBalanced(calls, s.(enabled := enabled))
  {
  }

  // ---------------------------------------------------------------- who is recorded

  /** Whether collecting is on after the first n steps; it is on at the start. */
  predicate SwitchedOn(steps: seq<Step>, n: nat)
    requires n <= |steps|
  {
    if n == 0 then true
    else if steps[n - 1].SetEnabled? then steps[n - 1].enabled
    else SwitchedOn(steps, n - 1)
  }

  predicate IsStepOf(steps: seq<Step>, i: nat, k: nat)
    requires k < |steps|
  {
    steps[k].Run? && steps[k].call == i
  }

  predicate IsFirstStepOf(steps: seq<Step>, i: nat, k: nat) {
    k < |steps| && IsStepOf(steps, i, k) && forall j: nat :: j < k ==> !IsStepOf(steps, i, j)
  }

  lemma {:induction false} SwitchIsLastSet(calls: seq<Read>, steps: seq<Step>, n: nat)
    requires n <= |steps|
    ensures At(calls, steps, n).enabled == SwitchedOn(steps, n)
    decreases n
  {
    hide NextPlace;
    if n > 0 {
      SwitchIsLastSet(calls, steps, n - 1);
    }
  }

  /** Only at its first step does a call leave the start, and only there is it skipped. */
  lemma PlacesAfterStep(s: State, r: Read, p: Place, spurious: bool)
    ensures NextPlace(s, r, p, spurious) != Begin
    ensures p != Begin ==> (NextPlace(s, r, p, spurious) == Skipped <==> p == Skipped)
    ensures p == Begin ==> (NextPlace(s, r, p, spurious) == Skipped <==> !s.enabled)
  {
  }

  /** Under every interleaving a call has not begun exactly while it has made no step. */
  lemma {:induction false} BegunExactly(calls: seq<Read>, steps: seq<Step>, n: nat, i: nat)
    requires n <= |steps| && i < |calls|
    ensures At(calls, steps, n).places[i] == Begin <==> forall k: nat :: k < n ==> !IsStepOf(steps, i, k)
    decreases n
  {
    hide NextPlace, Access;
    if n > 0 {
      BegunExactly(calls, steps, n - 1, i);
      var s := At(calls, steps, n - 1);
      if IsStepOf(steps, i, n - 1) {
        PlacesAfterStep(s, calls[i], s.places[i], steps[n - 1].spurious);
      }
    }
  }

  /** One of the first n steps is the call's first step, and collecting is off then. */
  ghost predicate StartsWhileOff(steps: seq<Step>, n: nat, i: nat)
    requires n <= |steps|
  {
    exists k: nat :: k < n && IsFirstStepOf(steps, i, k) && !SwitchedOn(steps, k)
  }

  lemma StartsWhileOffGrows(steps: seq<Step>, n: nat, i: nat)
    requires 0 < n <= |steps|
    ensures StartsWhileOff(steps, n, i) <==>
      StartsWhileOff(steps, n - 1, i) || (IsFirstStepOf(steps, i, n - 1) && !SwitchedOn(steps, n - 1))
  {
    hide SwitchedOn, IsFirstStepOf;
  }

  lemma NothingStarted(steps: seq<Step>, i: nat)
    ensures !StartsWhileOff(steps, 0, i)
  {
  }

  /** ... and it is skipped exactly when collecting was off at its first step. */
  lemma {:induction false} SkippedExactly(calls: seq<Read>, steps: seq<Step>, n: nat, i: nat)
    requires n <= |steps| && i < |calls|
    ensures At(calls, steps, n).places[i] == Skipped <==> StartsWhileOff(steps, n, i)
    decreases n
  {
    hide NextPlace, Access, SwitchedOn, StartsWhileOff;
    if n == 0 {
      NothingStarted(steps, i);
    } else {
      SkippedExactly(calls, steps, n - 1, i);
      BegunExactly(calls, steps, n - 1, i);
      SwitchIsLastSet(calls, steps, n - 1);
      StartsWhileOffGrows(steps, n, i);
      var s := At(calls, steps, n - 1);
      if IsStepOf(steps, i, n - 1) {
        PlacesAfterStep(s, calls[i], s.places[i], steps[n - 1].spurious);
      }
    }
  }

  // ---------------------------------------------------------------- totals over the calls

  /** The sum of `amount` over those of the first n calls that are done. */
  function SumOfDone(amount: Read -> nat, calls: seq<Read>, places: seq<Place>, n: nat): nat
    requires n <= |calls| == |places|
  {
    if n == 0 then 0
    else SumOfDone(amount, calls, places, n - 1) + if places[n - 1] == Done then amount(calls[n - 1]) else 0
  }

  function SumOfAll(amount: Read -> nat, calls: seq<Read>): nat {
    if calls == [] then 0 else SumOfAll(amount, calls[..|calls| - 1]) + amount(calls[|calls| - 1])
  }

  function One(r: Read): nat {
    1
  }

  function Failures(r: Read): nat {
    if r.success then 0 else 1
  }

  function Bytes(r: Read): nat {
    if r.success then r.bytes else 0
  }

  function Time(r: Read): nat {
    if r.success then r.duration else 0
  }

  function Partials(r: Read): nat {
    if r.success && r.partial then 1 else 0
  }

  lemma {:induction false} SharesOfFinished(share: Share, amount: Read -> nat, calls: seq<Read>, places: seq<Place>,
                                            n: nat)
    requires n <= |calls| == |places|
    requires forall i: nat :: i < |places| ==> places[i] == Done || places[i] == Skipped
    requires forall r: Read :: share(r, Done) == amount(r) && share(r, Skipped) == 0
    ensures Sum(share, calls, places, n) == SumOfDone(amount, calls, places, n)
    decreases n
  {
    if n > 0 {
      SharesOfFinished(share, amount, calls, places, n - 1);
    }
  }

  lemma {:induction false} AllDone(amount: Read -> nat, calls: seq<Read>, places: seq<Place>, n: nat)
    requires n <= |calls| == |places| && forall i: nat :: i < |places| ==> places[i] == Done
    ensures SumOfDone(amount, calls, places, n) == SumOfAll(amount, calls[..n])
    decreases n
  {
    if n > 0 {
      AllDone(amount, calls, places, n - 1);
      assert calls[..n][..n - 1] == calls[..n - 1];
    }
  }

  /** When all calls are finished each counter is, modulo the word size, its sum over the calls that were not skipped:
      the calls, the failures, and the bytes, times and partial reads of the successes. */
  lemma FinalTotalsAreExact(calls: seq<Read>, steps: seq<Step>, n: nat)
    requires n <= |steps| && Finished(At(calls, steps, n))
    ensures var s := At(calls, steps, n);
      && s.operations == SumOfDone(One, calls, s.places, |calls|) % TWO_64
      && s.failed == SumOfDone(Failures, calls, s.places, |calls|) % TWO_64
      && s.bytes == SumOfDone(Bytes, calls, s.places, |calls|) % TWO_64
      && s.time == SumOfDone(Time, calls, s.places, |calls|) % TWO_64
      && s.partials == SumOfDone(Partials, calls, s.places, |calls|) % TWO_64
  {
    hide At;
    var s := At(calls, steps, n);
    TotalsAreExact(calls, steps, n);
    SharesOfFinished(OperationShare, One, calls, s.places, |calls|);
    SharesOfFinished(FailureShare, Failures, calls, s.places, |calls|);
    SharesOfFinished(BytesShare, Bytes, calls, s.places, |calls|);
    SharesOfFinished(TimeShare, Time, calls, s.places, |calls|);
    SharesOfFinished(PartialShare, Partials, calls, s.places, |calls|);
  }

  lemma {:induction false} NeverSwitchedOff(steps: seq<Step>, n: nat)
    requires n <= |steps| && forall k: nat :: k < n ==> steps[k] != SetEnabled(false)
    ensures SwitchedOn(steps, n)
    decreases n
  {
    if n > 0 {
      NeverSwitchedOff(steps, n - 1);
    }
  }

  lemma {:induction false} CountOfAll(calls: seq<Read>)
    ensures SumOfAll(One, calls) == |calls|
    decreases |calls|
  {
    if calls != [] {
      CountOfAll(calls[..|calls| - 1]);
    }
  }

  lemma NoneIsSkipped(calls: seq<Read>, steps: seq<Step>, n: nat)
    requires n <= |steps| && Finished(At(calls, steps, n))
    requires forall k: nat :: k < n ==> steps[k] != SetEnabled(false)
    ensures forall i: nat :: i < |calls| ==> At(calls, steps, n).places[i] == Done
  {
    hide At;
    var s := At(calls, steps, n);
    forall i: nat | i < |calls| ensures s.places[i] == Done {
      SkippedExactly(calls, steps, n, i);
      forall k: nat | k < n ensures SwitchedOn(steps, k) {
        NeverSwitchedOff(steps, k);
      }
    }
  }

  /** A collector that is never switched off records every call: the counters are the plain sums over all calls. */
  lemma AllCallsAreRecorded(calls: seq<Read>, steps: seq<Step>, n: nat)
    requires n <= |steps| && Finished(At(calls, steps, n))
    requires forall k: nat :: k < n ==> steps[k] != SetEnabled(false)
    ensures var s := At(calls, steps, n);
      && (forall i: nat :: i < |calls| ==> s.places[i] == Done)
      && s.operations == |calls| % TWO_64
      && s.failed == SumOfAll(Failures, calls) % TWO_64
      && s.bytes == SumOfAll(Bytes, calls) % TWO_64
      && s.time == SumOfAll(Time, calls) % TWO_64
      && s.partials == SumOfAll(Partials, calls) % TWO_64
  {
    hide At, SumOfAll, SumOfDone;
    var s := At(calls, steps, n);
    NoneIsSkipped(calls, steps, n);
    FinalTotalsAreExact(calls, steps, n);
    assert calls[..|calls|] == calls;
    AllDone(One, calls, s.places, |calls|);
    AllDone(Failures, calls, s.places, |calls|);
    AllDone(Bytes, calls, s.places, |calls|);
    AllDone(Time, calls, s.places, |calls|);
    AllDone(Partials, calls, s.places, |calls|);
    CountOfAll(calls);
  }

  // ---------------------------------------------------------------- progress

  /** Steps a call needs at most when it runs alone and no compare-exchange fails spuriously. */
  function StepsLeft(s: State, r: Read, p: Place): nat {
    match p
    case Begin => 9
    case CountOperation => 8
    case CountBytes => 7
    case CountTime => 6
    case CountPartial => 5
    case LoadMin => 4
    case TryMin(current) => if r.duration < current && s.minTime != current then 4 else 3
    case LoadMax => 2
    case TryMax(current) => if r.duration > current && s.maxTime != current then 2 else 1
    case CountFailure => 1
    case Done => 0
    case Skipped => 0
  }

  lemma StepAloneProgresses(calls: seq<Read>, s: State, i: nat)
    requires |s.places| == |calls| && i < |calls|
    ensures var (left, t) := (StepsLeft(s, calls[i], s.places[i]), Do(calls, s, Run(i, false)));
      left > 0 ==> StepsLeft(t, calls[i], t.places[i]) < left
    ensures StepsLeft(s, calls[i], s.places[i]) <= 9
    ensures StepsLeft(s, calls[i], s.places[i]) == 0 <==> s.places[i] == Done || s.places[i] == Skipped
  {
  }

  /** The state after call i has made k steps alone. */
  function Alone(calls: seq<Read>, s: State, i: nat, k: nat): (t: State)
    requires |s.places| == |calls|
    ensures |t.places| == |calls|
    decreases k
  {
    if k == 0 then s else Alone(calls, Do(calls, s, Run(i, false)), i, k - 1)
  }

  lemma {:induction false} FinishesWithin(calls: seq<Read>, s: State, i: nat, k: nat)
    requires |s.places| == |calls| && i < |calls| && StepsLeft(s, calls[i], s.places[i]) <= k
    ensures Alone(calls, s, i, k).places[i] == Done || Alone(calls, s, i, k).places[i] == Skipped
    decreases k
  {
    hide Do, StepsLeft;
    StepAloneProgresses(calls, s, i);
    if k > 0 {
      var t := Do(calls, s, Run(i, false));
      StepAloneProgresses(calls, t, i);
      if StepsLeft(s, calls[i], s.places[i]) == 0 {
        DoneStays(calls, s, i);
      }
      FinishesWithin(calls, t, i, k - 1);
    }
  }

  lemma DoneStays(calls: seq<Read>, s: State, i: nat)
    requires |s.places| == |calls| && i < |calls| && StepsLeft(s, calls[i], s.places[i]) == 0
    ensures StepsLeft(Do(calls, s, Run(i, false)), calls[i], s.places[i]) == 0
    ensures Do(calls, s, Run(i, false)).places[i] == s.places[i]
  {
  }

  /** From any state, whatever the other calls have done, a call left to run alone finishes within nine steps. */
  lemma AloneFinishes(calls: seq<Read>, s: State, i: nat)
    requires |s.places| == |calls| && i < |calls|
    ensures Alone(calls, s, i, 9).places[i] == Done || Alone(calls, s, i, 9).places[i] == Skipped
  {
    hide Alone, Do, StepsLeft;
    StepAloneProgresses(calls, s, i);
    FinishesWithin(calls, s, i, 9);
  }
}
