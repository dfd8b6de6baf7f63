/** What a comparison reports, told by the sizes of the segments that cover the differences. */
module ReportedDiffs {
  import opened Common
  import opened MemoryDiffer
  import DiffPatch

  predicate SizeInBounds(cfg: DiffConfig, size: nat) {
    size >= cfg.minChangeSize && size <= cfg.maxChangeSize
  }

  /** The indices `at` pick out, in order, the segments of a size in bounds, and no others. */
  ghost predicate PicksInBounds(cfg: DiffConfig, segments: seq<Segment>, at: seq<nat>) {
    && (forall i :: 0 <= i < |at| ==> at[i] < |segments| && SizeInBounds(cfg, segments[at[i]].size))
    && (forall i, j :: 0 <= i < j < |at| ==> at[i] < at[j])
    && (forall k: nat :: k < |segments| && SizeInBounds(cfg, segments[k].size) ==> k in at)
  }

  lemma {:induction false} KeptOfAppend(cfg: DiffConfig, init: seq<Segment>, s: Segment)
    ensures Kept(cfg, init + [s]) == Kept(cfg, init) + if SizeInBounds(cfg, s.size) then [s] else []
    decreases |init|
  {
    if init == [] {
      assert [] + [s] == [s];
    } else {
      assert (init + [s])[1..] == init[1..] + [s];
      KeptOfAppend(cfg, init[1..], s);
    }
  }

  lemma PicksOfAppend(cfg: DiffConfig, init: seq<Segment>, s: Segment, at: seq<nat>)
    requires PicksInBounds(cfg, init, at)
    ensures PicksInBounds(cfg, init + [s], at + if SizeInBounds(cfg, s.size) then [|init|] else [])
  {
    var all, picks := init + [s], at + if SizeInBounds(cfg, s.size) then [|init|] else [];
    forall k: nat | k < |all| && SizeInBounds(cfg, all[k].size) ensures k in picks {
      if k < |init| {
        assert all[k] == init[k];
        assert k in at;
      } else {
        assert picks[|at|] == k;
      }
    }
  }

  /** The kept segments are those of a size in bounds, in order. */
  lemma {:induction false} KeptArePicked(cfg: DiffConfig, segments: seq<Segment>) returns (at: seq<nat>)
    ensures PicksInBounds(cfg, segments, at) && |Kept(cfg, segments)| == |at|
    ensures forall i :: 0 <= i < |at| ==> at[i] < |segments| && Kept(cfg, segments)[i] == segments[at[i]]
    decreases |segments|
  {
    hide Kept, SizeInBounds;
    if segments == [] {
      at := [];
      NothingKept(cfg);
    } else {
      var n := |segments| - 1;
      var init, s := segments[..n], segments[n];
      assert segments == init + [s];
      at := KeptArePicked(cfg, init);
      PicksOfAppend(cfg, init, s, at);
      KeptOfAppend(cfg, init, s);
      forall i | 0 <= i < |at| ensures at[i] < |segments| && segments[at[i]] == init[at[i]] {
      }
      at := at + if SizeInBounds(cfg, s.size) then [n] else [];
    }
  }

  lemma NothingKept(cfg: DiffConfig)
    ensures Kept(cfg, []) == []
  {
  }

  /** The difference a segment shows: its address, and the bytes of both buffers there. */
  predicate Shows(b: Buffers, baseAddress: U64, d: MemoryDiff, s: Segment) {
    && s.start + s.size <= |b.one| && s.start + s.size <= |b.two|
    && d.address == (baseAddress + s.start) % TWO_64
    && d.before == b.one[s.start..s.start + s.size] && d.after == b.two[s.start..s.start + s.size]
  }

  /** Exactly what is reported: given the segments that cover the differences, those of a size in bounds, in order, up
      to the limit, of which at least one is always allowed. */
  lemma ReportsExactly(b: Buffers, cfg: DiffConfig, baseAddress: U64, segments: seq<Segment>) returns (at: seq<nat>)
    requires 1 <= cfg.maxChangeSize && Covers(b, cfg, 0, segments)
    ensures PicksInBounds(cfg, segments, at)
    ensures var diffs := Reports(b, cfg, baseAddress);
      && |diffs| == Min(|at|, if cfg.maxResults == 0 then 1 else cfg.maxResults)
      && forall i :: 0 <= i < |diffs| ==> at[i] < |segments| && Shows(b, baseAddress, diffs[i], segments[at[i]])
  {
    hide Covers, Segments, Reports, Kept, PicksInBounds, Grow, SkipEqual;
    SegmentsCover(b, cfg, 0);
    CoverIsUnique(b, cfg, 0, segments, Segments(b, cfg, 0));
    ReportsAreReported(b, cfg, baseAddress);
    at := KeptArePicked(cfg, segments);
    var reported, diffs := Reported(cfg, segments), Reports(b, cfg, baseAddress);
    forall i | 0 <= i < |diffs| ensures at[i] < |segments| && Shows(b, baseAddress, diffs[i], segments[at[i]]) {
      assert reported[i] == segments[at[i]];
      assert reported[i].start + reported[i].size <= b.Length();
    }
  }

  /** Each reported difference has as many bytes before as after, no fewer than the minimum and no more than the
      maximum: on every configuration for which the comparison ends. */
  lemma SizesInBounds(b: Buffers, cfg: DiffConfig, baseAddress: U64, i: nat)
    requires CanEnd(b, cfg, 0) && i < |Reports(b, cfg, baseAddress)|
    ensures var d := Reports(b, cfg, baseAddress)[i];
      cfg.minChangeSize <= |d.before| == |d.after| <= cfg.maxChangeSize
  {
    hide ReportedFrom;
    ReportedInBounds(b, cfg, 0, Limit(cfg));
    ReportedAreKept(b, cfg, 0, Limit(cfg), i);
  }

  lemma {:induction false} ReportedAreKept(b: Buffers, cfg: DiffConfig, i: nat, limit: nat, k: nat)
    requires i <= b.Length() && 1 <= limit && CanEnd(b, cfg, i) && k < |ReportedFrom(b, cfg, i, limit)|
    ensures SizeInBounds(cfg, ReportedFrom(b, cfg, i, limit)[k].size)
    decreases b.Length() - i, limit
  {
    hide Grow, SkipEqual, ReportedFrom, CanEnd;
    ReportedUnfolds(b, cfg, i, limit);
    var start := SkipEqual(b, i);
    var s := Segment(start, Grow(b, cfg, start, 0));
    if !IsKept(cfg, s) {
      ReportedAreKept(b, cfg, start + s.size, limit, k);
    } else if k > 0 {
      ReportedAreKept(b, cfg, start + s.size, limit - 1, k - 1);
    }
  }

  /** The bytes at index k of a difference differ. */
  predicate DiffersIn(d: MemoryDiff, k: nat) {
    k < |d.before| && k < |d.after| && d.before[k] != d.after[k]
  }

  /** One of the bytes from index k to k + gap of a difference differs. */
  ghost predicate DiffersWithin(d: MemoryDiff, k: nat, gap: nat) {
    exists j: nat :: k <= j <= k + gap && DiffersIn(d, j)
  }

  /** Equal bytes a difference may hold in a row. */
  function LongestGap(cfg: DiffConfig): nat {
    if cfg.groupAdjacent then cfg.adjacencyThreshold else 0
  }

  /** A reported difference begins and ends with a changed byte, and holds no more equal bytes in a row than the
      threshold when grouping, none otherwise; one below the maximum size is followed by at least that many equal
      bytes and one more, or by the end. */
  lemma DiffsAreTight(b: Buffers, cfg: DiffConfig, baseAddress: U64, i: nat) returns (start: nat)
    requires 1 <= cfg.maxChangeSize && i < |Reports(b, cfg, baseAddress)|
    ensures var (d, gap) := (Reports(b, cfg, baseAddress)[i], LongestGap(cfg));
      && d.address == (baseAddress + start) % TWO_64
      && DiffersIn(d, 0) && DiffersIn(d, |d.before| - 1)
      && (forall k: nat :: k + gap < |d.before| ==> DiffersWithin(d, k, gap))
      && (|d.before| < cfg.maxChangeSize ==>
            forall j: nat :: start + |d.before| <= j <= start + |d.before| + gap ==> !b.Differs(j))
  {
    hide Covers, Segments, Reports, PicksInBounds, Grow, SkipEqual, IsSegment;
    SegmentsCover(b, cfg, 0);
    var segments := Segments(b, cfg, 0);
    var at := ReportsExactly(b, cfg, baseAddress, segments);
    DiffPatch.CoverFacts(b, cfg, 0, segments);
    start := segments[at[i]].start;
    SegmentIsTight(b, cfg, baseAddress, Reports(b, cfg, baseAddress)[i], segments[at[i]]);
  }

  lemma SegmentIsTight(b: Buffers, cfg: DiffConfig, baseAddress: U64, d: MemoryDiff, s: Segment)
    requires IsSegment(b, cfg, s.start, s.size) && Shows(b, baseAddress, d, s)
    ensures var gap := LongestGap(cfg);
      && |d.before| == s.size && |d.before| >= 1 && DiffersIn(d, 0) && DiffersIn(d, |d.before| - 1)
      && (forall k: nat :: k + gap < |d.before| ==> DiffersWithin(d, k, gap))
      && (|d.before| < cfg.maxChangeSize ==>
            forall j: nat :: s.start + |d.before| <= j <= s.start + |d.before| + gap ==> !b.Differs(j))
  {
    var gap := LongestGap(cfg);
    forall k: nat | k + gap < |d.before| ensures DiffersWithin(d, k, gap) {
      assert DiffersNear(b, s.start + k, gap);
      var j: nat :| s.start + k <= j <= s.start + k + gap && b.Differs(j);
      assert DiffersIn(d, j - s.start);
    }
  }

  /** The bytes the differences hold together. */
  function BytesIn(diffs: seq<MemoryDiff>): nat {
    if diffs == [] then 0 else BytesIn(diffs[..|diffs| - 1]) + |diffs[|diffs| - 1].after|
  }

  lemma {:induction false} SizesAreBytes(b: Buffers, baseAddress: U64, segments: seq<Segment>)
    requires InBounds(b, segments)
    ensures TotalSize(segments) == BytesIn(DiffsOf(b, baseAddress, segments))
    decreases |segments|
  {
    if segments != [] {
      var n := |segments| - 1;
      SizesAreBytes(b, baseAddress, segments[..n]);
      assert DiffsOf(b, baseAddress, segments)[..n] == DiffsOf(b, baseAddress, segments[..n]);
    }
  }

  /** The number added to the changed bytes is the number of bytes in the reported differences. */
  lemma ChangedBytesAreReported(b: Buffers, cfg: DiffConfig, baseAddress: U64)
    requires CanEnd(b, cfg, 0)
    ensures TotalSize(ReportedFrom(b, cfg, 0, Limit(cfg))) == BytesIn(Reports(b, cfg, baseAddress))
  {
    hide ReportedFrom, TotalSize, DiffsOf;
    ReportedInBounds(b, cfg, 0, Limit(cfg));
    SizesAreBytes(b, baseAddress, ReportedFrom(b, cfg, 0, Limit(cfg)));
  }
}
