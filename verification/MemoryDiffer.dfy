/** Differences between two buffers: runs of changed bytes, grouped over short gaps and bounded in size. */
module MemoryDiffer {
  import opened Common

  datatype DiffConfig = DiffConfig(minChangeSize: nat, maxChangeSize: nat, groupAdjacent: bool,
                                   adjacencyThreshold: nat, maxResults: nat)

  datatype MemoryDiff = MemoryDiff(address: U64, before: seq<Byte>, after: seq<Byte>)

  datatype Segment = Segment(start: nat, size: nat)

  /** Two buffers, compared over their common length. */
  datatype Buffers = Buffers(one: seq<Byte>, two: seq<Byte>) {
    function Length(): nat {
      if |one| < |two| then |one| else |two|
    }

    predicate Differs(i: nat) {
      i < Length() && one[i] != two[i]
    }
  }

  // ---------------------------------------------------------------- what a segment is

  /** The longest run of equal bytes that may lie inside a segment. */
  function GapLimit(cfg: DiffConfig): nat {
    if cfg.groupAdjacent then cfg.adjacencyThreshold else 0
  }

  /** One of the bytes from k to k + limit differs. */
  ghost predicate DiffersNear(b: Buffers, k: nat, limit: nat) {
    exists j: nat :: k <= j <= k + limit && b.Differs(j)
  }

  ghost predicate NoLongGap(b: Buffers, limit: nat, start: nat, size: nat) {
    forall k: nat :: start <= k && k + limit < start + size ==> DiffersNear(b, k, limit)
  }

  /** The segment starts and ends on a differing byte, contains no run of equal bytes longer than the limit, had
      not reached the maximum size before its last byte, and, below that size, ends because no differing byte
      follows within the limit. */
  ghost predicate IsSegment(b: Buffers, cfg: DiffConfig, start: nat, size: nat) {
    && 1 <= size
    && b.Differs(start) && b.Differs(start + size - 1)
    && NoLongGap(b, GapLimit(cfg), start, size)
    && (forall j: nat :: start <= j < start + size - 1 && b.Differs(j) ==> j - start + 1 < cfg.maxChangeSize)
    && (size < cfg.maxChangeSize ==>
          forall j: nat :: start + size <= j <= start + size + GapLimit(cfg) ==> !b.Differs(j))
  }

  /** At most one segment starts at a given byte. */
  lemma SegmentIsUnique(b: Buffers, cfg: DiffConfig, start: nat, size: nat, other: nat)
    requires IsSegment(b, cfg, start, size) && IsSegment(b, cfg, start, other)
    ensures size == other
  {
    if size < other {
      SegmentNotShorter(b, cfg, start, size, other);
    } else if other < size {
      SegmentNotShorter(b, cfg, start, other, size);
    }
  }

  lemma SegmentNotShorter(b: Buffers, cfg: DiffConfig, start: nat, size: nat, other: nat)
    requires IsSegment(b, cfg, start, size) && IsSegment(b, cfg, start, other)
    ensures size >= other
  {
    var end, limit := start + size, GapLimit(cfg);
    assert b.Differs(end - 1) && b.Differs(start + other - 1);
    assert end + limit < start + other ==> DiffersNear(b, end, limit);
  }

  /** A segment overshoots the maximum size by at most the gap limit; without grouping, not at all. */
  lemma SegmentSizeBound(b: Buffers, cfg: DiffConfig, start: nat, size: nat)
    requires IsSegment(b, cfg, start, size) && 1 <= cfg.maxChangeSize
    ensures size <= cfg.maxChangeSize + GapLimit(cfg)
  {
    var limit := GapLimit(cfg);
    var k := if size >= limit + 2 then start + size - 2 - limit else start;
    assert size > cfg.maxChangeSize + limit ==> DiffersNear(b, k, limit);
  }

  // ---------------------------------------------------------------- how the loops find them

  /** The first differing byte at or after i, or the common length. */
  function SkipEqual(b: Buffers, i: nat): (j: nat)
    requires i <= b.Length()
    ensures i <= j <= b.Length() && (j < b.Length() ==> b.Differs(j))
    ensures forall k: nat :: i <= k < j ==> !b.Differs(k)
    decreases b.Length() - i
  {
    if i == b.Length() || b.Differs(i) then i else SkipEqual(b, i + 1)
  }

  /** The first differing byte at most `limit` after i. */
  function NextWithin(b: Buffers, i: nat, limit: nat): (r: Option<nat>)
    ensures r.Some? ==> i <= r.value <= i + limit && b.Differs(r.value)
    ensures r.Some? ==> forall k: nat :: i <= k < r.value ==> !b.Differs(k)
    ensures r.None? ==> forall k: nat :: i <= k <= i + limit ==> !b.Differs(k)
    decreases limit
  {
    if b.Differs(i) then Some(i)
    else if limit == 0 then None
    else NextWithin(b, i + 1, limit - 1)
  }

  /** The size a segment grows to from its first `size` bytes. */
  function Grow(b: Buffers, cfg: DiffConfig, start: nat, size: nat): nat
    decreases b.Length() - (start + size)
  {
    var i := start + size;
    if i >= b.Length() || size >= cfg.maxChangeSize then size
    else match NextWithin(b, i, GapLimit(cfg))
      case None => size
      case Some(j) => Grow(b, cfg, start, j - start + 1)
  }

  /** The part of `IsSegment` that holds while a segment grows. */
  ghost predicate Growing(b: Buffers, cfg: DiffConfig, start: nat, size: nat) {
    && b.Differs(start)
    && (size > 0 ==> b.Differs(start + size - 1))
    && NoLongGap(b, GapLimit(cfg), start, size)
    && (forall j: nat :: start <= j < start + size - 1 && b.Differs(j) ==> j - start + 1 < cfg.maxChangeSize)
  }

  lemma GapStaysShort(b: Buffers, limit: nat, start: nat, size: nat, j: nat)
    requires NoLongGap(b, limit, start, size) && (size > 0 ==> b.Differs(start + size - 1))
    requires start + size <= j <= start + size + limit && b.Differs(j)
    ensures NoLongGap(b, limit, start, j - start + 1)
  {
    forall k: nat | start <= k && k + limit < j + 1 ensures DiffersNear(b, k, limit) {
      if k + limit >= start + size {
        if size > 0 && k <= start + size - 1 {
          assert k <= start + size - 1 <= k + limit && b.Differs(start + size - 1);
        } else {
          assert k <= j <= k + limit && b.Differs(j);
        }
      }
    }
  }

  lemma GrowingJumps(b: Buffers, cfg: DiffConfig, start: nat, size: nat, j: nat)
    requires Growing(b, cfg, start, size) && size < cfg.maxChangeSize
    requires NextWithin(b, start + size, GapLimit(cfg)) == Some(j)
    ensures start + size <= j && Growing(b, cfg, start, j - start + 1)
  {
    hide NoLongGap, DiffersNear;
    GapStaysShort(b, GapLimit(cfg), start, size, j);
  }

  lemma GrowingEnds(b: Buffers, cfg: DiffConfig, start: nat, size: nat)
    requires Growing(b, cfg, start, size) && 1 <= cfg.maxChangeSize
    requires start + size >= b.Length() || size >= cfg.maxChangeSize
             || NextWithin(b, start + size, GapLimit(cfg)) == None
    ensures IsSegment(b, cfg, start, size)
  {
    hide NoLongGap, DiffersNear;
  }

  lemma {:induction false} GrowMakesSegment(b: Buffers, cfg: DiffConfig, start: nat, size: nat)
    requires Growing(b, cfg, start, size) && 1 <= cfg.maxChangeSize
    ensures IsSegment(b, cfg, start, Grow(b, cfg, start, size))
    decreases b.Length() - (start + size)
  {
    hide Growing, IsSegment, GapLimit;
    var i := start + size;
    if i < b.Length() && size < cfg.maxChangeSize && NextWithin(b, i, GapLimit(cfg)).Some? {
      var j := NextWithin(b, i, GapLimit(cfg)).value;
      GrowingJumps(b, cfg, start, size, j);
      GrowMakesSegment(b, cfg, start, j - start + 1);
    } else {
      GrowingEnds(b, cfg, start, size);
    }
  }

  /** From position i on: the segments the outer loop cuts, kept or not. */
  function Segments(b: Buffers, cfg: DiffConfig, i: nat): seq<Segment>
    requires i <= b.Length() && 1 <= cfg.maxChangeSize
    decreases b.Length() - i
  {
    var start := SkipEqual(b, i);
    if start == b.Length() then []
    else
      GrowMakesSegment(b, cfg, start, 0);
      var size := Grow(b, cfg, start, 0);
      [Segment(start, size)] + Segments(b, cfg, start + size)
  }

  predicate IsKept(cfg: DiffConfig, s: Segment) {
    cfg.minChangeSize <= s.size <= cfg.maxChangeSize
  }

  function Kept(cfg: DiffConfig, segments: seq<Segment>): seq<Segment> {
    if segments == [] then []
    else if IsKept(cfg, segments[0]) then [segments[0]] + Kept(cfg, segments[1..])
    else Kept(cfg, segments[1..])
  }

  /** The segments reported: those kept, up to the limit, which is looked at only after one was added. */
  function Reported(cfg: DiffConfig, segments: seq<Segment>): (r: seq<Segment>)
    ensures r <= Kept(cfg, segments)
  {
    var kept, limit := Kept(cfg, segments), Max(1, cfg.maxResults);
    if |kept| <= limit then kept else kept[..limit]
  }

  function DiffOf(b: Buffers, baseAddress: U64, s: Segment): MemoryDiff
    requires s.start + s.size <= b.Length()
  {
    MemoryDiff((baseAddress + s.start) % TWO_64, b.one[s.start..s.start + s.size], b.two[s.start..s.start + s.size])
  }

  predicate InBounds(b: Buffers, segments: seq<Segment>) {
    forall i :: 0 <= i < |segments| ==> segments[i].start + segments[i].size <= b.Length()
  }

  function DiffsOf(b: Buffers, baseAddress: U64, segments: seq<Segment>): (ds: seq<MemoryDiff>)
    requires InBounds(b, segments)
    ensures |ds| == |segments|
  {
    seq(|segments|, i requires 0 <= i < |segments| => DiffOf(b, baseAddress, segments[i]))
  }

  /** Segments in order, disjoint, each a segment, and between, before and after them only equal bytes. */
  ghost predicate Covers(b: Buffers, cfg: DiffConfig, from: nat, segments: seq<Segment>)
    decreases |segments|
  {
    if segments == [] then forall k: nat :: from <= k ==> !b.Differs(k)
    else
      var s := segments[0];
      && from <= s.start && s.start + s.size <= b.Length()
      && (forall k: nat :: from <= k < s.start ==> !b.Differs(k))
      && IsSegment(b, cfg, s.start, s.size)
      && Covers(b, cfg, s.start + s.size, segments[1..])
  }

  /** The loops cut a list of segments that covers every difference... */
  lemma {:induction false} SegmentsCover(b: Buffers, cfg: DiffConfig, i: nat)
    requires i <= b.Length() && 1 <= cfg.maxChangeSize
    ensures Covers(b, cfg, i, Segments(b, cfg, i))
    decreases b.Length() - i
  {
    hide IsSegment, Grow, SkipEqual, NoLongGap;
    var start := SkipEqual(b, i);
    if start < b.Length() {
      GrowFits(b, cfg, start);
      SegmentsCover(b, cfg, start + Grow(b, cfg, start, 0));
    }
  }

  lemma GrowFits(b: Buffers, cfg: DiffConfig, start: nat)
    requires b.Differs(start) && 1 <= cfg.maxChangeSize
    ensures IsSegment(b, cfg, start, Grow(b, cfg, start, 0))
    ensures 1 <= Grow(b, cfg, start, 0) && start + Grow(b, cfg, start, 0) <= b.Length()
  {
    hide Grow;
    GrowMakesSegment(b, cfg, start, 0);
  }

  lemma SegmentFits(b: Buffers, cfg: DiffConfig, start: nat, size: nat)
    requires IsSegment(b, cfg, start, size)
    ensures 1 <= size && start + size <= b.Length() && b.Differs(start)
  {
  }

  /** ... and it is the only such list. */
  lemma {:induction false} CoverIsUnique(b: Buffers, cfg: DiffConfig, from: nat, x: seq<Segment>, y: seq<Segment>)
    requires Covers(b, cfg, from, x) && Covers(b, cfg, from, y)
    ensures x == y
    decreases |x|
  {
    hide IsSegment;
    if x != [] {
      SegmentFits(b, cfg, x[0].start, x[0].size);
    }
    if y != [] {
      SegmentFits(b, cfg, y[0].start, y[0].size);
    }
    if x != [] && y != [] {
      assert x[0].start == y[0].start;
      SegmentIsUnique(b, cfg, x[0].start, x[0].size, y[0].size);
      CoverIsUnique(b, cfg, x[0].start + x[0].size, x[1..], y[1..]);
      assert x == [x[0]] + x[1..] && y == [y[0]] + y[1..];
    }
  }

  // ---------------------------------------------------------------- what is reported

  lemma SegmentsUnfold(b: Buffers, cfg: DiffConfig, i: nat)
    requires i <= b.Length() && 1 <= cfg.maxChangeSize
    ensures var start := SkipEqual(b, i);
      if start == b.Length() then Segments(b, cfg, i) == []
      else
        var size := Grow(b, cfg, start, 0);
        b.Differs(start) && 1 <= size && start + size <= b.Length()
        && Segments(b, cfg, i) == [Segment(start, size)] + Segments(b, cfg, start + size)
    ensures Segments(b, cfg, b.Length()) == []
  {
    hide NoLongGap, Grow, SkipEqual;
    var start := SkipEqual(b, i);
    if start < b.Length() {
      GrowFits(b, cfg, start);
    }
  }

  /** One round of growing: a differing byte joins, a reachable one is jumped to, otherwise the segment ends. */
  lemma GrowStep(b: Buffers, cfg: DiffConfig, start: nat, size: nat)
    requires start + size < b.Length() && size < cfg.maxChangeSize
    ensures var (i, next) := (start + size, NextWithin(b, start + size, cfg.adjacencyThreshold));
      && (b.Differs(i) ==> Grow(b, cfg, start, size) == Grow(b, cfg, start, size + 1))
      && (!b.Differs(i) && !cfg.groupAdjacent ==> Grow(b, cfg, start, size) == size)
      && (cfg.groupAdjacent && next.None? ==> Grow(b, cfg, start, size) == size)
      && (cfg.groupAdjacent && next.Some? ==>
            Grow(b, cfg, start, size) == Grow(b, cfg, start, next.value - start + 1))
  {
  }

  lemma GrowEnds(b: Buffers, cfg: DiffConfig, start: nat, size: nat)
    requires start + size >= b.Length() || size >= cfg.maxChangeSize
    ensures Grow(b, cfg, start, size) == size
  {
  }

  lemma NothingBeyond(b: Buffers, j: nat, limit: nat)
    requires j >= b.Length()
    ensures NextWithin(b, j, limit) == None
  {
  }

  /** One segment's extent, for any maximum size: with a maximum of 0 the segment stays empty. */
  lemma GrowInside(b: Buffers, cfg: DiffConfig, start: nat)
    requires b.Differs(start)
    ensures start + Grow(b, cfg, start, 0) <= b.Length()
    ensures Grow(b, cfg, start, 0) == 0 <==> cfg.maxChangeSize == 0
  {
    hide Grow, IsSegment;
    if cfg.maxChangeSize == 0 {
      GrowEnds(b, cfg, start, 0);
    } else {
      GrowFits(b, cfg, start);
    }
  }

  /** The outer loop comes to an end from position i on: every segment takes bytes, or empty ones are reported until
      there are enough, or there is no difference left. */
  predicate CanEnd(b: Buffers, cfg: DiffConfig, i: nat)
    requires i <= b.Length()
  {
    1 <= cfg.maxChangeSize || cfg.minChangeSize == 0 || SkipEqual(b, i) == b.Length()
  }

  /** The segments reported from position i on, when `limit` more may be: the limit is looked at only after one was
      added. */
  function ReportedFrom(b: Buffers, cfg: DiffConfig, i: nat, limit: nat): seq<Segment>
    requires i <= b.Length() && 1 <= limit && CanEnd(b, cfg, i)
    decreases b.Length() - i, limit
  {
    var start := SkipEqual(b, i);
    if start == b.Length() then []
    else
      GrowInside(b, cfg, start);
      var s := Segment(start, Grow(b, cfg, start, 0));
      if !IsKept(cfg, s) then ReportedFrom(b, cfg, start + s.size, limit)
      else if limit == 1 then [s]
      else [s] + ReportedFrom(b, cfg, start + s.size, limit - 1)
  }

  lemma ReportedUnfolds(b: Buffers, cfg: DiffConfig, i: nat, limit: nat)
    requires i <= b.Length() && 1 <= limit && CanEnd(b, cfg, i)
    ensures var start := SkipEqual(b, i);
      if start == b.Length() then ReportedFrom(b, cfg, i, limit) == []
      else
        var s := Segment(start, Grow(b, cfg, start, 0));
        && b.Differs(start) && start + s.size <= b.Length() && CanEnd(b, cfg, start + s.size)
        && (s.size == 0 ==> IsKept(cfg, s))
        && ReportedFrom(b, cfg, i, limit) ==
             if !IsKept(cfg, s) then ReportedFrom(b, cfg, start + s.size, limit)
             else if limit == 1 then [s]
             else [s] + ReportedFrom(b, cfg, start + s.size, limit - 1)
  {
    hide Grow, SkipEqual;
    var start := SkipEqual(b, i);
    if start < b.Length() {
      GrowInside(b, cfg, start);
    }
  }

  lemma {:induction false} ReportedInBounds(b: Buffers, cfg: DiffConfig, i: nat, limit: nat)
    requires i <= b.Length() && 1 <= limit && CanEnd(b, cfg, i)
    ensures InBounds(b, ReportedFrom(b, cfg, i, limit))
    decreases b.Length() - i, limit
  {
    hide Grow, SkipEqual, IsKept, ReportedFrom, CanEnd;
    ReportedUnfolds(b, cfg, i, limit);
    var start := SkipEqual(b, i);
    if start < b.Length() {
      var s := Segment(start, Grow(b, cfg, start, 0));
      if !IsKept(cfg, s) {
        ReportedInBounds(b, cfg, start + s.size, limit);
      } else if limit > 1 {
        ReportedInBounds(b, cfg, start + s.size, limit - 1);
      }
    }
  }

  /** What is reported is the front of the kept segments. */
  lemma {:induction false} ReportedIsFront(b: Buffers, cfg: DiffConfig, i: nat, limit: nat)
    requires i <= b.Length() && 1 <= limit && 1 <= cfg.maxChangeSize
    ensures var kept := Kept(cfg, Segments(b, cfg, i));
      ReportedFrom(b, cfg, i, limit) == if |kept| <= limit then kept else kept[..limit]
    decreases b.Length() - i, limit
  {
    hide Grow, SkipEqual, IsSegment, ReportedFrom, Segments;
    ReportedUnfolds(b, cfg, i, limit);
    SegmentsUnfold(b, cfg, i);
    var start := SkipEqual(b, i);
    if start < b.Length() {
      var s := Segment(start, Grow(b, cfg, start, 0));
      var rest := Segments(b, cfg, start + s.size);
      KeptOfCons(cfg, s, rest);
      if !IsKept(cfg, s) {
        ReportedIsFront(b, cfg, start + s.size, limit);
      } else if limit > 1 {
        ReportedIsFront(b, cfg, start + s.size, limit - 1);
        FrontOfCons(s, Kept(cfg, rest), limit - 1);
      } else {
        assert ([s] + Kept(cfg, rest))[..1] == [s];
      }
    }
  }

  lemma KeptOfCons(cfg: DiffConfig, s: Segment, rest: seq<Segment>)
    ensures Kept(cfg, [s] + rest) == if IsKept(cfg, s) then [s] + Kept(cfg, rest) else Kept(cfg, rest)
  {
    assert ([s] + rest)[1..] == rest;
  }

  lemma FrontOfCons(s: Segment, kept: seq<Segment>, limit: nat)
    ensures |kept| > limit ==> ([s] + kept)[..limit + 1] == [s] + kept[..limit]
  {
  }

  function Limit(cfg: DiffConfig): nat {
    Max(1, cfg.maxResults)
  }

  /** What comparing the buffers reports. */
  function Reports(b: Buffers, cfg: DiffConfig, baseAddress: U64): seq<MemoryDiff>
    requires CanEnd(b, cfg, 0)
  {
    ReportedInBounds(b, cfg, 0, Limit(cfg));
    DiffsOf(b, baseAddress, ReportedFrom(b, cfg, 0, Limit(cfg)))
  }

  lemma {:induction false} KeptInBounds(b: Buffers, cfg: DiffConfig, segments: seq<Segment>)
    requires InBounds(b, segments)
    ensures InBounds(b, Kept(cfg, segments))
  {
    if segments != [] {
      KeptInBounds(b, cfg, segments[1..]);
    }
  }

  lemma {:induction false} CoverInBounds(b: Buffers, cfg: DiffConfig, from: nat, segments: seq<Segment>)
    requires Covers(b, cfg, from, segments)
    ensures InBounds(b, segments)
    decreases |segments|
  {
    hide IsSegment;
    if segments != [] {
      CoverInBounds(b, cfg, segments[0].start + segments[0].size, segments[1..]);
    }
  }

  /** With a maximum of at least 1, these are the first of the kept segments. */
  lemma ReportsAreReported(b: Buffers, cfg: DiffConfig, baseAddress: U64)
    requires 1 <= cfg.maxChangeSize
    ensures InBounds(b, Reported(cfg, Segments(b, cfg, 0)))
    ensures Reports(b, cfg, baseAddress) == DiffsOf(b, baseAddress, Reported(cfg, Segments(b, cfg, 0)))
  {
    hide Segments, ReportedFrom;
    ReportedIsFront(b, cfg, 0, Limit(cfg));
    ReportedInBounds(b, cfg, 0, Limit(cfg));
  }

  /** With a maximum and a minimum of 0 the first difference is reported empty, as often as may be reported. */
  lemma {:induction false} ZeroMaximumRepeats(b: Buffers, cfg: DiffConfig, i: nat, limit: nat)
    requires cfg.maxChangeSize == 0 && cfg.minChangeSize == 0 && i <= b.Length() && SkipEqual(b, i) < b.Length()
    requires 1 <= limit
    ensures ReportedFrom(b, cfg, i, limit) == seq(limit, _ => Segment(SkipEqual(b, i), 0))
    decreases limit
  {
    hide Grow, SkipEqual, ReportedFrom;
    var start := SkipEqual(b, i);
    ReportedUnfolds(b, cfg, i, limit);
    GrowInside(b, cfg, start);
    SkipAgain(b, start);
    if limit > 1 {
      ZeroMaximumRepeats(b, cfg, start, limit - 1);
    }
  }

  lemma SkipAgain(b: Buffers, start: nat)
    requires b.Differs(start)
    ensures SkipEqual(b, start) == start
  {
  }

  // ---------------------------------------------------------------- when the outer loop ends

  /** The outer loop between two rounds: its position, how much it has reported, and whether it has ended. */
  datatype Round = Round(i: nat, reported: nat, done: bool)

  function NextRound(b: Buffers, cfg: DiffConfig, r: Round): (next: Round)
    requires r.i <= b.Length()
    ensures next.i <= b.Length()
  {
    if r.done || r.i == b.Length() then r.(done := true)
    else
      var start := SkipEqual(b, r.i);
      if start == b.Length() then Round(start, r.reported, true)
      else
        GrowInside(b, cfg, start);
        var s := Segment(start, Grow(b, cfg, start, 0));
        var reported := r.reported + if IsKept(cfg, s) then 1 else 0;
        Round(start + s.size, reported, IsKept(cfg, s) && reported >= cfg.maxResults)
  }

  function RoundAfter(b: Buffers, cfg: DiffConfig, r: Round, n: nat): (after: Round)
    requires r.i <= b.Length()
    ensures after.i <= b.Length()
    decreases n
  {
    if n == 0 then r else RoundAfter(b, cfg, NextRound(b, cfg, r), n - 1)
  }

  ghost predicate EndsAfter(b: Buffers, cfg: DiffConfig, r: Round, n: nat)
    requires r.i <= b.Length()
  {
    RoundAfter(b, cfg, r, n).done
  }

  ghost predicate Ends(b: Buffers, cfg: DiffConfig, r: Round)
    requires r.i <= b.Length()
  {
    exists n: nat :: EndsAfter(b, cfg, r, n)
  }

  lemma EndsOneLater(b: Buffers, cfg: DiffConfig, r: Round)
    requires r.i <= b.Length() && Ends(b, cfg, NextRound(b, cfg, r))
    ensures Ends(b, cfg, r)
  {
    hide NextRound;
    var n: nat :| EndsAfter(b, cfg, NextRound(b, cfg, r), n);
    assert EndsAfter(b, cfg, r, n + 1);
  }

  lemma EndsNow(b: Buffers, cfg: DiffConfig, r: Round)
    requires r.i <= b.Length() && r.done
    ensures Ends(b, cfg, r)
  {
    assert EndsAfter(b, cfg, r, 0);
  }

  /** A round that does not end the loop moves on, or reports one more of a limited number. */
  lemma RoundProgresses(b: Buffers, cfg: DiffConfig, r: Round)
    requires r.i <= b.Length() && !r.done && r.reported < Limit(cfg) && CanEnd(b, cfg, r.i)
    ensures var next := NextRound(b, cfg, r);
      next.done || (r.i <= next.i && CanEnd(b, cfg, next.i) && r.reported <= next.reported < Limit(cfg)
                    && (r.i == next.i ==> r.reported < next.reported))
  {
    hide Grow, SkipEqual;
    var start := SkipEqual(b, r.i);
    if start < b.Length() {
      GrowInside(b, cfg, start);
    }
  }

  lemma {:induction false} LoopEnds(b: Buffers, cfg: DiffConfig, r: Round)
    requires r.i <= b.Length() && !r.done && r.reported < Limit(cfg) && CanEnd(b, cfg, r.i)
    ensures Ends(b, cfg, r)
    decreases b.Length() - r.i, Limit(cfg) - r.reported
  {
    hide NextRound, CanEnd, Ends;
    var next := NextRound(b, cfg, r);
    RoundProgresses(b, cfg, r);
    if next.done {
      EndsNow(b, cfg, next);
    } else {
      LoopEnds(b, cfg, next);
    }
    EndsOneLater(b, cfg, r);
  }

  lemma RoundStays(b: Buffers, cfg: DiffConfig, r: Round)
    requires r.i <= b.Length() && !r.done && !CanEnd(b, cfg, r.i)
    ensures var next := NextRound(b, cfg, r);
      !next.done && !CanEnd(b, cfg, next.i)
  {
    hide Grow, SkipEqual;
    var start := SkipEqual(b, r.i);
    GrowInside(b, cfg, start);
    SkipAgain(b, start);
  }

  lemma {:induction false} LoopNeverEnds(b: Buffers, cfg: DiffConfig, r: Round, n: nat)
    requires r.i <= b.Length() && !r.done && !CanEnd(b, cfg, r.i)
    ensures !EndsAfter(b, cfg, r, n)
    decreases n
  {
    hide NextRound, CanEnd;
    if n > 0 {
      RoundStays(b, cfg, r);
      LoopNeverEnds(b, cfg, NextRound(b, cfg, r), n - 1);
    }
  }

  /** Exactly when comparing two buffers ends: when the maximum size is at least 1, or the minimum size is 0, or the
      buffers do not differ. */
  lemma EndsExactly(b: Buffers, cfg: DiffConfig)
    ensures Ends(b, cfg, Round(0, 0, false)) <==>
      1 <= cfg.maxChangeSize || cfg.minChangeSize == 0 || forall k: nat :: !b.Differs(k)
    ensures Ends(b, cfg, Round(0, 0, false)) <==> CanEnd(b, cfg, 0)
  {
    hide SkipEqual, RoundAfter;
    if CanEnd(b, cfg, 0) {
      LoopEnds(b, cfg, Round(0, 0, false));
    } else {
      forall n: nat ensures !EndsAfter(b, cfg, Round(0, 0, false), n) {
        LoopNeverEnds(b, cfg, Round(0, 0, false), n);
      }
    }
    if SkipEqual(b, 0) < b.Length() {
      assert b.Differs(SkipEqual(b, 0));
    }
  }

  // ---------------------------------------------------------------- the differ

  function TotalSize(segments: seq<Segment>): nat {
    if segments == [] then 0 else TotalSize(segments[..|segments| - 1]) + segments[|segments| - 1].size
  }

  lemma DiffsStep(b: Buffers, baseAddress: U64, kept: seq<Segment>, s: Segment)
    requires InBounds(b, kept) && s.start + s.size <= b.Length()
    ensures InBounds(b, kept + [s])
    ensures DiffsOf(b, baseAddress, kept + [s]) == DiffsOf(b, baseAddress, kept) + [DiffOf(b, baseAddress, s)]
    ensures TotalSize(kept + [s]) == TotalSize(kept) + s.size
  {
    assert (kept + [s])[..|kept|] == kept;
  }

  lemma NothingReported(b: Buffers, baseAddress: U64)
    ensures DiffsOf(b, baseAddress, []) == [] && TotalSize([]) == 0
  {
  }

  lemma AppendRest(kept: seq<Segment>, s: Segment, rest: seq<Segment>)
    ensures kept + ([s] + rest) == kept + [s] + rest
  {
  }

  lemma NothingLeft(b: Buffers, cfg: DiffConfig, kept: seq<Segment>, limit: nat)
    requires 1 <= limit
    ensures CanEnd(b, cfg, b.Length()) && kept + ReportedFrom(b, cfg, b.Length(), limit) == kept
    ensures kept + [] == kept
  {
  }

  class Differ {
    var config: DiffConfig
    var totalBytesCompared: nat
    var totalChangesFound: nat
    var bytesChanged: nat

    constructor (config: DiffConfig)
      ensures this.config == config
      ensures totalBytesCompared == totalChangesFound == bytesChanged == 0
    {
      this.config := config;
      totalBytesCompared, totalChangesFound, bytesChanged := 0, 0, 0;
    }

    method ResetStatistics()
      modifies this
      ensures config == old(config)
      ensures totalBytesCompared == totalChangesFound == bytesChanged == 0
    {
      totalBytesCompared, totalChangesFound, bytesChanged := 0, 0, 0;
    }

    /** Compares the buffers over their common length; `EndsExactly` says when that comes to an end. */
    method CompareBuffers(b: Buffers, baseAddress: U64) returns (diffs: seq<MemoryDiff>)
      requires CanEnd(b, config, 0)
      modifies this
      ensures config == old(config)
      ensures diffs == Reports(b, config, baseAddress)
      ensures totalBytesCompared == b.Length()
      ensures totalChangesFound == |diffs|
      ensures bytesChanged == old(bytesChanged) + TotalSize(ReportedFrom(b, config, 0, Limit(config)))
    {
      totalBytesCompared := b.Length();
      diffs := DiffBuffers(b, baseAddress);
    }

    method DiffBuffers(b: Buffers, baseAddress: U64) returns (diffs: seq<MemoryDiff>)
      requires CanEnd(b, config, 0)
      modifies this`bytesChanged, this`totalChangesFound
      ensures diffs == Reports(b, config, baseAddress)
      ensures totalChangesFound == |diffs|
      ensures bytesChanged == old(bytesChanged) + TotalSize(ReportedFrom(b, config, 0, Limit(config)))
    {
      hide Grow, IsSegment, Buffers.Differs, SkipEqual, ReportedFrom, DiffsOf, TotalSize, CanEnd;
      diffs := [];
      ghost var kept: seq<Segment> := [];
      ghost var limit := Limit(config);
      NothingReported(b, baseAddress);
      assert [] + ReportedFrom(b, config, 0, limit) == ReportedFrom(b, config, 0, limit);
      var i := 0;
      while i < b.Length()
        invariant i <= b.Length() && CanEnd(b, config, i) && |kept| < limit
        invariant ReportedFrom(b, config, 0, limit) == kept + ReportedFrom(b, config, i, limit - |kept|)
        invariant InBounds(b, kept) && diffs == DiffsOf(b, baseAddress, kept)
        invariant bytesChanged == old(bytesChanged) + TotalSize(kept)
        decreases b.Length() - i, limit - |kept|
      {
        ReportedUnfolds(b, config, i, limit - |kept|);
        i := SkipToDifference(b, i);
        if i >= b.Length() {
          break;
        }
        var diffStart, diffSize := i, 0;
        i, diffSize := FindExtent(b, diffStart);
        if diffSize >= config.minChangeSize && diffSize <= config.maxChangeSize {
          ghost var s := Segment(diffStart, diffSize);
          DiffsStep(b, baseAddress, kept, s);
          diffs := diffs + [MemoryDiff((baseAddress + diffStart) % TWO_64, b.one[diffStart..diffStart + diffSize],
                                       b.two[diffStart..diffStart + diffSize])];
          bytesChanged := bytesChanged + diffSize;
          if |diffs| >= config.maxResults {
            kept := kept + [s];
            break;
          }
          AppendRest(kept, s, ReportedFrom(b, config, i, limit - |kept| - 1));
          kept := kept + [s];
        }
      }
      if |kept| < limit {
        NothingLeft(b, config, kept, limit - |kept|);
      }
      totalChangesFound := |diffs|;
    }

    method SkipToDifference(b: Buffers, start: nat) returns (i: nat)
      requires start <= b.Length()
      ensures i == SkipEqual(b, start)
    {
      i := start;
      while i < b.Length() && b.one[i] == b.two[i]
        invariant start <= i <= b.Length()
        invariant SkipEqual(b, start) == SkipEqual(b, i)
      {
        i := i + 1;
      }
    }

    /** How far the segment starting at `diffStart` extends. */
    method FindExtent(b: Buffers, diffStart: nat) returns (i: nat, diffSize: nat)
      requires b.Differs(diffStart)
      ensures diffSize == Grow(b, config, diffStart, 0) && i == diffStart + diffSize <= b.Length()
    {
      hide IsSegment, NextWithin, Grow;
      i, diffSize := diffStart, 0;
      GrowInside(b, config, diffStart);
      while i < b.Length() && diffSize < config.maxChangeSize
        invariant diffStart + diffSize <= i <= b.Length()
        invariant i == diffStart + diffSize ==> Grow(b, config, diffStart, 0) == Grow(b, config, diffStart, diffSize)
        invariant i != diffStart + diffSize ==>
          b.Differs(i) && diffSize < config.maxChangeSize
          && Grow(b, config, diffStart, 0) == Grow(b, config, diffStart, i - diffStart + 1)
        decreases b.Length() - i, if b.Differs(i) then 0 else 1
      {
        if i == diffStart + diffSize {
          GrowStep(b, config, diffStart, diffSize);
        }
        if b.one[i] != b.two[i] {
          diffSize := (i - diffStart) + 1;
          i := i + 1;
        } else if config.groupAdjacent {
          var j := SkipGap(b, i);
          if j < b.Length() && b.one[j] != b.two[j] {
            i := j;
            continue;
          } else {
            return;
          }
        } else {
          return;
        }
      }
      GrowEnds(b, config, diffStart, diffSize);
    }

    /** The look-ahead over equal bytes, at most the adjacency threshold of them. */
    method SkipGap(b: Buffers, start: nat) returns (j: nat)
      requires start < b.Length()
      ensures start <= j <= b.Length()
      ensures (if b.Differs(j) then Some(j) else None) == NextWithin(b, start, config.adjacencyThreshold)
    {
      var gap := 0;
      j := start;
      while j < b.Length() && gap < config.adjacencyThreshold && b.one[j] == b.two[j]
        invariant start <= j <= b.Length() && gap <= config.adjacencyThreshold
        invariant NextWithin(b, start, config.adjacencyThreshold) == NextWithin(b, j, config.adjacencyThreshold - gap)
      {
        gap := gap + 1;
        j := j + 1;
      }
      if j == b.Length() {
        NothingBeyond(b, j, config.adjacencyThreshold - gap);
      }
    }
  }
}
