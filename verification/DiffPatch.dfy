/** Reported differences used as a patch, and the exact condition under which they are one. */
module DiffPatch {
  import opened Common
  import opened MemoryDiffer

  function Write(buf: seq<Byte>, offset: nat, bytes: seq<Byte>): (r: seq<Byte>)
    ensures |r| == |buf|
  {
    if offset + |bytes| <= |buf| then buf[..offset] + bytes + buf[offset + |bytes|..] else buf
  }

  /** Writes the `after` bytes (or the `before` bytes) of every difference at its address, in order. */
  function Patched(buf: seq<Byte>, baseAddress: U64, diffs: seq<MemoryDiff>, forward: bool): (r: seq<Byte>)
    ensures |r| == |buf|
    decreases |diffs|
  {
    if diffs == [] then buf
    else
      var d := diffs[|diffs| - 1];
      Write(Patched(buf, baseAddress, diffs[..|diffs| - 1], forward), (d.address - baseAddress) % TWO_64,
            if forward then d.after else d.before)
  }

  /** The buffers cut to their common length. */
  function One(b: Buffers): (s: seq<Byte>)
    ensures |s| == b.Length()
  {
    b.one[..b.Length()]
  }

  function Two(b: Buffers): (s: seq<Byte>)
    ensures |s| == b.Length()
  {
    b.two[..b.Length()]
  }

  predicate Inside(s: Segment, k: nat) {
    s.start <= k < s.start + s.size
  }

  predicate Touched(segments: seq<Segment>, k: nat) {
    exists i :: 0 <= i < |segments| && Inside(segments[i], k)
  }

  /** The buffer a patch starts from, and the one it is to give. */
  function Source(b: Buffers, forward: bool): (s: seq<Byte>)
    ensures |s| == b.Length()
  {
    if forward then One(b) else Two(b)
  }

  lemma PatchStep(b: Buffers, baseAddress: U64, init: seq<Segment>, s: Segment, forward: bool)
    requires InBounds(b, init + [s]) && InBounds(b, init) && s.start + s.size <= b.Length() < TWO_64
    ensures Patched(Source(b, forward), baseAddress, DiffsOf(b, baseAddress, init + [s]), forward) ==
            Write(Patched(Source(b, forward), baseAddress, DiffsOf(b, baseAddress, init), forward), s.start,
                  Source(b, !forward)[s.start..s.start + s.size])
  {
    hide Write;
    var diffs := DiffsOf(b, baseAddress, init + [s]);
    assert diffs[..|diffs| - 1] == DiffsOf(b, baseAddress, init);
    OffsetOfAddress(baseAddress, s.start);
    var d := diffs[|diffs| - 1];
    assert d == DiffOf(b, baseAddress, (init + [s])[|init|]) == DiffOf(b, baseAddress, s);
    FrontHolds(b.one, b.Length(), s.start, s.start + s.size);
    FrontHolds(b.two, b.Length(), s.start, s.start + s.size);
  }

  lemma FrontHolds(bytes: seq<Byte>, n: nat, from: nat, until: nat)
    requires from <= until <= n <= |bytes|
    ensures bytes[..n][from..until] == bytes[from..until]
  {
  }

  lemma TouchedByAppend(init: seq<Segment>, s: Segment, k: nat)
    ensures Touched(init + [s], k) <==> Touched(init, k) || Inside(s, k)
  {
    var all := init + [s];
    if Touched(init, k) {
      var i :| 0 <= i < |init| && Inside(init[i], k);
      assert Inside(all[i], k);
    }
    assert all[|init|] == s;
  }

  /** Patching replaces exactly the bytes inside the segments. */
  lemma {:induction false} PatchedAt(b: Buffers, baseAddress: U64, segments: seq<Segment>, forward: bool, k: nat)
    requires InBounds(b, segments) && k < b.Length() < TWO_64
    ensures Patched(Source(b, forward), baseAddress, DiffsOf(b, baseAddress, segments), forward)[k] ==
      if Touched(segments, k) then Source(b, !forward)[k] else Source(b, forward)[k]
    decreases |segments|
  {
    hide Source, DiffsOf, Touched;
    if segments == [] {
      NothingPatched(b, baseAddress, forward, k);
    } else {
      var init, s := segments[..|segments| - 1], segments[|segments| - 1];
      assert segments == init + [s];
      PatchedAt(b, baseAddress, init, forward, k);
      TouchedByAppend(init, s, k);
      PatchStep(b, baseAddress, init, s, forward);
    }
  }

  lemma NothingPatched(b: Buffers, baseAddress: U64, forward: bool, k: nat)
    ensures Patched(Source(b, forward), baseAddress, DiffsOf(b, baseAddress, []), forward) == Source(b, forward)
    ensures !Touched([], k)
  {
  }

  lemma OffsetOfAddress(baseAddress: U64, offset: nat)
    requires offset < TWO_64
    ensures ((baseAddress + offset) % TWO_64 - baseAddress) % TWO_64 == offset
  {
  }

  // ---------------------------------------------------------------- when the patch is complete

  /** What a cover says position by position. */
  lemma {:induction false} CoverFacts(b: Buffers, cfg: DiffConfig, from: nat, segments: seq<Segment>)
    requires Covers(b, cfg, from, segments)
    ensures forall i :: 0 <= i < |segments| ==>
      from <= segments[i].start && IsSegment(b, cfg, segments[i].start, segments[i].size)
    ensures forall i, j :: 0 <= i < j < |segments| ==> segments[i].start + segments[i].size <= segments[j].start
    ensures forall k: nat :: from <= k && b.Differs(k) ==> Touched(segments, k)
    decreases |segments|
  {
    hide IsSegment, Buffers.Differs;
    if segments != [] {
      var s := segments[0];
      CoverFacts(b, cfg, s.start + s.size, segments[1..]);
      SegmentFits(b, cfg, s.start, s.size);
      forall k: nat | from <= k && b.Differs(k) ensures Touched(segments, k) {
        if k < s.start + s.size {
          assert Inside(segments[0], k);
        } else {
          var i :| 0 <= i < |segments[1..]| && Inside(segments[1..][i], k);
          assert Inside(segments[i + 1], k);
        }
      }
    }
  }

  lemma {:induction false} KeptMembers(cfg: DiffConfig, segments: seq<Segment>)
    ensures forall s :: s in Kept(cfg, segments) ==> s in segments && IsKept(cfg, s)
    ensures (forall s :: s in segments ==> IsKept(cfg, s)) ==> Kept(cfg, segments) == segments
  {
    hide IsKept;
    if segments != [] {
      KeptMembers(cfg, segments[1..]);
      assert segments == [segments[0]] + segments[1..];
    }
  }

  lemma TouchedStartIsReported(b: Buffers, cfg: DiffConfig, segments: seq<Segment>, i: nat)
    requires Covers(b, cfg, 0, segments) && i < |segments|
    requires Touched(Reported(cfg, segments), segments[i].start)
    ensures segments[i] in Reported(cfg, segments) && IsKept(cfg, segments[i])
  {
    hide IsKept, Covers, IsSegment;
    CoverFacts(b, cfg, 0, segments);
    KeptMembers(cfg, segments);
    var reported := Reported(cfg, segments);
    SegmentFits(b, cfg, segments[i].start, segments[i].size);
    var r :| 0 <= r < |reported| && Inside(reported[r], segments[i].start);
    assert reported[r] == Kept(cfg, segments)[r] && reported[r] in Kept(cfg, segments);
    var j :| 0 <= j < |segments| && segments[j] == reported[r];
    assert j == i;
  }

  /** A reported list that touches every difference reports every segment. */
  lemma TouchingAllReportsAll(b: Buffers, cfg: DiffConfig, segments: seq<Segment>)
    requires Covers(b, cfg, 0, segments)
    requires forall k: nat :: b.Differs(k) ==> Touched(Reported(cfg, segments), k)
    ensures Reported(cfg, segments) == segments
  {
    hide IsKept, Covers, IsSegment, Touched;
    CoverFacts(b, cfg, 0, segments);
    KeptMembers(cfg, segments);
    var reported := Reported(cfg, segments);
    forall i | 0 <= i < |segments|
      ensures segments[i] in reported && IsKept(cfg, segments[i]) && segments[i].size >= 1
    {
      SegmentFits(b, cfg, segments[i].start, segments[i].size);
      TouchedStartIsReported(b, cfg, segments, i);
    }
    assert Kept(cfg, segments) == segments;
    if segments != [] {
      var last := |segments| - 1;
      var r :| 0 <= r < |reported| && reported[r] == segments[last];
      assert segments[r] == segments[last];
    }
  }

  lemma DiffersOfSources(b: Buffers, forward: bool, k: nat)
    requires k < b.Length()
    ensures b.Differs(k) <==> Source(b, forward)[k] != Source(b, !forward)[k]
  {
  }

  /** The reported differences turn one buffer into the other, in both directions, exactly when no segment was
      dropped, for its size or for the result limit. */
  lemma PatchIffAllReported(b: Buffers, cfg: DiffConfig, baseAddress: U64, forward: bool)
    requires 1 <= cfg.maxChangeSize && b.Length() < TWO_64
    ensures Patched(Source(b, forward), baseAddress, Reports(b, cfg, baseAddress), forward) == Source(b, !forward)
      <==> Reported(cfg, Segments(b, cfg, 0)) == Segments(b, cfg, 0)
  {
    hide Source, Segments, Patched, Covers, Buffers.Differs, DiffsOf, Touched, Reports;
    var segments := Segments(b, cfg, 0);
    SegmentsCover(b, cfg, 0);
    CoverInBounds(b, cfg, 0, segments);
    KeptInBounds(b, cfg, segments);
    ReportsAreReported(b, cfg, baseAddress);
    CoverFacts(b, cfg, 0, segments);
    var reported := Reported(cfg, segments);
    var patched := Patched(Source(b, forward), baseAddress, DiffsOf(b, baseAddress, reported), forward);
    forall k: nat | k < b.Length()
      ensures patched[k] == (if Touched(reported, k) then Source(b, !forward)[k] else Source(b, forward)[k])
      ensures b.Differs(k) <==> Source(b, forward)[k] != Source(b, !forward)[k]
    {
      PatchedAt(b, baseAddress, reported, forward, k);
      DiffersOfSources(b, forward, k);
    }
    DiffersInside(b);
    if patched == Source(b, !forward) {
      forall k: nat | b.Differs(k) ensures Touched(reported, k) {
        assert patched[k] == Source(b, !forward)[k];
      }
      TouchingAllReportsAll(b, cfg, segments);
    }
  }

  lemma DiffersInside(b: Buffers)
    ensures forall k: nat :: b.Differs(k) ==> k < b.Length()
  {
  }

  // ---------------------------------------------------------------- the configurations for which it always is

  /** The least distance between the starts of two segments. */
  function Stride(cfg: DiffConfig): nat {
    if cfg.maxChangeSize == 1 then 1 else GapLimit(cfg) + 2
  }

  /** No segment can grow past the maximum size. */
  predicate CannotOvershoot(cfg: DiffConfig, n: nat) {
    GapLimit(cfg) == 0 || cfg.maxChangeSize == 1 || n <= cfg.maxChangeSize
  }

  /** Nothing is too small or too big to be kept, and as many segments as fit into n bytes may be reported. */
  predicate PatchConfig(cfg: DiffConfig, n: nat) {
    n == 0 || (cfg.minChangeSize <= 1 && CannotOvershoot(cfg, n) && n <= Max(1, cfg.maxResults) * Stride(cfg))
  }

  lemma SizeWithinMaximum(b: Buffers, cfg: DiffConfig, start: nat, size: nat)
    requires IsSegment(b, cfg, start, size) && 1 <= cfg.maxChangeSize && CannotOvershoot(cfg, b.Length())
    ensures size <= cfg.maxChangeSize
  {
    if cfg.maxChangeSize == 1 {
      assert size > 1 ==> start - start + 1 < cfg.maxChangeSize;
    } else {
      SegmentSizeBound(b, cfg, start, size);
    }
  }

  lemma StartsApart(b: Buffers, cfg: DiffConfig, start: nat, size: nat, next: nat)
    requires IsSegment(b, cfg, start, size) && 1 <= cfg.maxChangeSize && CannotOvershoot(cfg, b.Length())
    requires start + size <= next && b.Differs(next)
    ensures start + Stride(cfg) <= next
  {
    SizeWithinMaximum(b, cfg, start, size);
  }

  /** So many segments, a stride apart, take so many bytes. */
  lemma {:induction false} SegmentsTakeSpace(b: Buffers, cfg: DiffConfig, from: nat, segments: seq<Segment>)
    requires Covers(b, cfg, from, segments) && segments != []
    requires 1 <= cfg.maxChangeSize && CannotOvershoot(cfg, b.Length())
    ensures segments[0].start + (|segments| - 1) * Stride(cfg) + 1 <= b.Length()
    decreases |segments|
  {
    hide IsSegment, Stride, CannotOvershoot;
    var s, rest := segments[0], segments[1..];
    SegmentFits(b, cfg, s.start, s.size);
    if rest != [] {
      SegmentsTakeSpace(b, cfg, s.start + s.size, rest);
      SegmentFits(b, cfg, rest[0].start, rest[0].size);
      StartsApart(b, cfg, s.start, s.size, rest[0].start);
      assert (|segments| - 1) * Stride(cfg) == (|rest| - 1) * Stride(cfg) + Stride(cfg);
    }
  }

  lemma PatchConfigReportsAll(b: Buffers, cfg: DiffConfig)
    requires 1 <= cfg.maxChangeSize && PatchConfig(cfg, b.Length())
    ensures Reported(cfg, Segments(b, cfg, 0)) == Segments(b, cfg, 0)
  {
    hide Segments, IsSegment, Stride, CannotOvershoot, Covers;
    var segments := Segments(b, cfg, 0);
    SegmentsCover(b, cfg, 0);
    CoverFacts(b, cfg, 0, segments);
    KeptMembers(cfg, segments);
    if segments != [] {
      SegmentFits(b, cfg, segments[0].start, segments[0].size);
      SegmentsTakeSpace(b, cfg, 0, segments);
      LessByProduct(|segments| - 1, Max(1, cfg.maxResults), Stride(cfg));
    }
    forall i | 0 <= i < |segments| ensures IsKept(cfg, segments[i]) {
      SegmentFits(b, cfg, segments[i].start, segments[i].size);
      SizeWithinMaximum(b, cfg, segments[i].start, segments[i].size);
    }
  }

  // ---------------------------------------------------------------- and the buffers that break the others

  /** A buffer of n bytes that differs from n zeros exactly where `at` says. */
  function Marked(n: nat, at: nat -> bool): (b: Buffers)
    ensures b.Length() == n
    ensures forall k: nat :: b.Differs(k) <==> k < n && at(k)
  {
    Buffers(seq(n, i requires 0 <= i < n => if at(i) then 1 else 0), seq(n, i => 0))
  }

  lemma FirstSegmentIs(b: Buffers, cfg: DiffConfig, i: nat, start: nat, size: nat)
    requires 1 <= cfg.maxChangeSize && i <= start && IsSegment(b, cfg, start, size)
    requires forall k: nat :: i <= k < start ==> !b.Differs(k)
    ensures i <= b.Length() && start + size <= b.Length()
    ensures Segments(b, cfg, i) == [Segment(start, size)] + Segments(b, cfg, start + size)
  {
    hide IsSegment, Grow;
    SegmentFits(b, cfg, start, size);
    SegmentsUnfold(b, cfg, i);
    assert SkipEqual(b, i) == start;
    GrowFits(b, cfg, start);
    SegmentIsUnique(b, cfg, start, size, Grow(b, cfg, start, 0));
  }

  lemma DroppedIsNotReported(b: Buffers, cfg: DiffConfig, start: nat, size: nat)
    requires 1 <= cfg.maxChangeSize && IsSegment(b, cfg, start, size)
    requires forall k: nat :: k < start ==> !b.Differs(k)
    requires !IsKept(cfg, Segment(start, size))
    ensures Reported(cfg, Segments(b, cfg, 0)) != Segments(b, cfg, 0)
  {
    hide IsSegment, IsKept;
    FirstSegmentIs(b, cfg, 0, start, size);
    KeptMembers(cfg, Segments(b, cfg, 0));
    var reported := Reported(cfg, Segments(b, cfg, 0));
    var kept := Kept(cfg, Segments(b, cfg, 0));
    assert reported != [] ==> reported[0] == kept[0] && reported[0] in kept;
  }

  /** A single differing byte is dropped when the minimum size is above 1. */
  lemma SmallIsDropped(cfg: DiffConfig, n: nat) returns (b: Buffers)
    requires 1 <= cfg.maxChangeSize && 1 <= n && cfg.minChangeSize > 1
    ensures b.Length() == n && Reported(cfg, Segments(b, cfg, 0)) != Segments(b, cfg, 0)
  {
    b := Marked(n, k => k == 0);
    assert b.Differs(0);
    assert IsSegment(b, cfg, 0, 1) by {
      assert DiffersNear(b, 0, GapLimit(cfg));
    }
    DroppedIsNotReported(b, cfg, 0, 1);
  }

  /** A segment one byte short of the maximum size that jumps a gap overshoots it and is dropped. */
  lemma OvershootIsDropped(cfg: DiffConfig, n: nat) returns (b: Buffers)
    requires 1 <= cfg.maxChangeSize && !CannotOvershoot(cfg, n)
    ensures b.Length() == n && Reported(cfg, Segments(b, cfg, 0)) != Segments(b, cfg, 0)
  {
    var max, limit := cfg.maxChangeSize, GapLimit(cfg);
    b := Marked(n, k => k < max - 1 || k == max);
    assert b.Differs(0) && b.Differs(max) && !b.Differs(max - 1);
    assert NoLongGap(b, limit, 0, max + 1) by {
      forall k: nat | k + limit < max + 1 ensures DiffersNear(b, k, limit) {
        var j := if k == max - 1 then max else k;
        assert k <= j <= k + limit && b.Differs(j);
      }
    }
    assert IsSegment(b, cfg, 0, max + 1);
    DroppedIsNotReported(b, cfg, 0, max + 1);
  }

  lemma NotAMultiple(p: nat, k: nat, stride: nat)
    requires 0 < stride && p % stride == 0 && p < k < p + stride
    ensures k % stride != 0
  {
    assert p == p / stride * stride && k == k / stride * stride + k % stride;
    if k % stride == 0 {
      LessByProduct(p / stride, k / stride, stride);
      LessByProduct(k / stride, p / stride + 1, stride);
    }
  }

  lemma LoneByteIsSegment(b: Buffers, cfg: DiffConfig, p: nat)
    requires 1 <= cfg.maxChangeSize && p % Stride(cfg) == 0 && p < b.Length()
    requires forall k: nat :: b.Differs(k) <==> k < b.Length() && k % Stride(cfg) == 0
    ensures IsSegment(b, cfg, p, 1)
    ensures forall k: nat :: p < k < p + Stride(cfg) ==> !b.Differs(k)
  {
    forall k: nat | p < k < p + Stride(cfg) ensures !b.Differs(k) {
      NotAMultiple(p, k, Stride(cfg));
    }
    assert b.Differs(p);
    assert p <= p <= p + GapLimit(cfg);
    assert DiffersNear(b, p, GapLimit(cfg));
  }

  /** Differing bytes a stride apart are segments of their own. */
  lemma {:induction false} ManySegments(b: Buffers, cfg: DiffConfig, i: nat, p: nat, m: nat)
    requires 1 <= cfg.maxChangeSize && p % Stride(cfg) == 0 && i <= p && p + m * Stride(cfg) < b.Length()
    requires forall k: nat :: b.Differs(k) <==> k < b.Length() && k % Stride(cfg) == 0
    requires forall k: nat :: i <= k < p ==> !b.Differs(k)
    ensures |Segments(b, cfg, i)| >= m + 1
    decreases m
  {
    hide IsSegment, Segments, Stride;
    var stride := Stride(cfg);
    if m > 0 {
      assert m * stride == (m - 1) * stride + stride;
    }
    assert 0 <= m * stride;
    LoneByteIsSegment(b, cfg, p);
    FirstSegmentIs(b, cfg, i, p, 1);
    if m > 0 {
      StrideIsPositive(cfg);
      NextMultiple(p, stride);
      ManySegments(b, cfg, p + 1, p + stride, m - 1);
    }
  }

  lemma StrideIsPositive(cfg: DiffConfig)
    ensures 1 <= Stride(cfg)
  {
  }

  lemma NextMultiple(p: nat, stride: nat)
    requires 0 < stride && p % stride == 0
    ensures (p + stride) % stride == 0
  {
    var q, r := (p + stride) / stride, (p + stride) % stride;
    assert p == p / stride * stride && p + stride == q * stride + r;
    assert (p / stride + 1) * stride == p / stride * stride + stride && (q + 1) * stride == q * stride + stride;
    LessByProduct(p / stride + 1, q + 1, stride);
    MoreByProduct(p / stride + 1, q, stride);
  }

  /** More segments fit into n bytes than may be reported. */
  lemma TooManyAreNotReported(cfg: DiffConfig, n: nat) returns (b: Buffers)
    requires 1 <= cfg.maxChangeSize && n > Max(1, cfg.maxResults) * Stride(cfg)
    ensures b.Length() == n && Reported(cfg, Segments(b, cfg, 0)) != Segments(b, cfg, 0)
  {
    hide IsSegment, Segments, Stride;
    StrideIsPositive(cfg);
    b := Marked(n, k => k % Stride(cfg) == 0);
    assert 0 % Stride(cfg) == 0;
    ManySegments(b, cfg, 0, 0, Max(1, cfg.maxResults));
  }

  /** For buffers of common length n, the reported differences always turn one buffer into the other, in both
      directions, exactly for the configurations of `PatchConfig`. */
  lemma PatchLaw(cfg: DiffConfig, n: nat, forward: bool)
    requires 1 <= cfg.maxChangeSize && n < TWO_64
    ensures PatchConfig(cfg, n) <==>
            forall b: Buffers, baseAddress: U64 :: b.Length() == n ==>
              Patched(Source(b, forward), baseAddress, Reports(b, cfg, baseAddress), forward) == Source(b, !forward)
  {
    hide Segments, Reports, Patched, Source, Stride, CannotOvershoot, Reported;
    if PatchConfig(cfg, n) {
      forall b: Buffers, baseAddress: U64 | b.Length() == n
        ensures Patched(Source(b, forward), baseAddress, Reports(b, cfg, baseAddress), forward) == Source(b, !forward)
      {
        PatchConfigReportsAll(b, cfg);
        PatchIffAllReported(b, cfg, baseAddress, forward);
      }
    } else {
      var b;
      if cfg.minChangeSize > 1 {
        b := SmallIsDropped(cfg, n);
      } else if !CannotOvershoot(cfg, n) {
        b := OvershootIsDropped(cfg, n);
      } else {
        b := TooManyAreNotReported(cfg, n);
      }
      PatchIffAllReported(b, cfg, 0, forward);
    }
  }
}
