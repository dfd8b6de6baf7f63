/** The cancellable background scan: a range scanned in 1 MB blocks, with the cancel flag read before each. */
module AsyncScan {
  import opened Common
  import opened Text
  import opened SignatureScan

  const BLOCK := 0x10_0000

  /** The end the loop computes for the block at `current`: the addition wraps at 64 bits. */
  function BlockEnd(current: U64, end: U64): U64 {
    var wrapped := (current + BLOCK) % TWO_64;
    if wrapped < end then wrapped else end
  }

  /** Block after block from `current`; `cancelled(k)` is what the k-th look at the cancel flag sees. */
  function BlockScan(dev: Device, signature: string, current: U64, end: U64, pid: int,
                     cancelled: nat -> bool, k: nat): Outcome
    decreases end - current
  {
    if current >= end || cancelled(k) then Returned(0)
    else
      var r := TextOutcome(dev, signature, current, BlockEnd(current, end), pid);
      if r != Returned(0) then r
      else
        assert current + BLOCK < TWO_64;
        BlockScan(dev, signature, current + BLOCK, end, pid, cancelled, k + 1)
  }

  method FindSignatureCancellable(dev: Device, signature: string, start: U64, end: U64, pid: int,
                                  cancelled: nat -> bool)
    returns (r: Outcome)
    ensures r == BlockScan(dev, signature, start, end, pid, cancelled, 0)
  {
    hide TextScan, SignatureCells;
    var current: U64, k: nat := start, 0;
    while current < end
      invariant BlockScan(dev, signature, start, end, pid, cancelled, 0)
             == BlockScan(dev, signature, current, end, pid, cancelled, k)
      decreases end - current
    {
      if cancelled(k) {
        return Returned(0);
      }
      var wrapped := (current + BLOCK) % TWO_64;
      var blockEnd := if wrapped < end then wrapped else end;
      r := FindSignatureText(dev, signature, current, blockEnd, pid);
      if r != Returned(0) {
        return;
      }
      assert current + BLOCK < TWO_64;
      current, k := current + BLOCK, k + 1;
    }
    return Returned(0);
  }

  predicate Never(k: nat) {
    false
  }

  /** Progress reports never go back and never exceed the total. */
  predicate IsProgress(reports: seq<int>, total: int) {
    forall i, j :: 0 <= i <= j < |reports| ==> reports[i] <= reports[j] <= total
  }

  /** What is reported before the first n blocks: before each block at which a report is due, the bytes of the blocks
      before it. */
  function DueReports(due: nat -> bool, total: U64, n: nat): seq<U64> {
    if n == 0 then []
    else DueReports(due, total, n - 1) + if due(n - 1) then [Min((n - 1) * BLOCK, total)] else []
  }

  /** `n` blocks were begun: all of the range, or those up to the one that decided. */
  predicate Begun(dev: Device, signature: string, start: U64, end: U64, pid: int, r: Outcome, n: nat) {
    if n == 0 then start >= end && r == Returned(0)
    else
      && start + (n - 1) * BLOCK < end
      && (r == Returned(0) ==> end <= start + n * BLOCK)
      && r == TextOutcome(dev, signature, start + (n - 1) * BLOCK, BlockEnd(start + (n - 1) * BLOCK, end), pid)
  }

  /** The loop that reports its progress instead of looking at a cancel flag; `due(k)` says whether the interval has
      passed before block k. It scans the same blocks; before block k it reports k blocks done, when a report is due;
      and a scan that returns has reported completion last. */
  method FindSignatureWithProgress(dev: Device, signature: string, start: U64, end: U64, pid: int, due: nat -> bool)
    returns (r: Outcome, reports: seq<U64>, ghost begun: nat)
    ensures r == BlockScan(dev, signature, start, end, pid, Never, 0)
    ensures Begun(dev, signature, start, end, pid, r, begun)
    ensures var total := (end - start) % TWO_64;
      && reports == DueReports(due, total, begun) + (if r.Returned? then [total] else [])
      && IsProgress(reports, total)
  {
    hide TextOutcome, BlockEnd, IsProgress;
    var total: U64 := (end - start) % TWO_64;
    var current: U64, processed: U64, k: nat := start, 0, 0;
    reports, begun := [], 0;
    while current < end
      invariant BlockScan(dev, signature, start, end, pid, Never, 0)
             == BlockScan(dev, signature, current, end, pid, Never, k)
      invariant current == start + k * BLOCK && processed == Min(k * BLOCK, total) && begun == k
      invariant reports == DueReports(due, total, k)
      invariant k > 0 ==> BlockFindsNothing(dev, signature, start, end, pid, k - 1)
      decreases end - current
    {
      var blockEnd := BlockEnd(current, end);
      if due(k) {
        reports := reports + [processed];
      }
      begun := k + 1;
      r := FindSignatureText(dev, signature, current, blockEnd, pid);
      if r != Returned(0) {
        AllReports(due, total, begun);
        assert reports + [] == reports == DueReports(due, total, begun);
        if r.Returned? {
          reports := reports + [total];
        }
        return;
      }
      NotThrown(dev, signature, current, blockEnd, pid);
      ProgressFits(start, current, end, processed);
      processed := (processed + (blockEnd - current)) % TWO_64;
      current, k := current + BLOCK, k + 1;
    }
    AllReports(due, total, k);
    reports := reports + [total];
    return Returned(0), reports, k;
  }

  predicate BlockFindsNothing(dev: Device, signature: string, start: U64, end: U64, pid: int, k: nat) {
    var current := start + k * BLOCK;
    current < end && TextOutcome(dev, signature, current, BlockEnd(current, end), pid) == Returned(0)
  }

  /** After a block that was scanned the count is exact, and the next block starts later. */
  lemma ProgressFits(start: U64, current: U64, end: U64, processed: U64)
    requires start <= current < end && processed == Min(current - start, (end - start) % TWO_64)
    requires current < BlockEnd(current, end)
    ensures current + BLOCK < TWO_64
    ensures (processed + (BlockEnd(current, end) - current)) % TWO_64 ==
      Min(current + BLOCK - start, (end - start) % TWO_64)
  {
  }

  lemma {:induction false} ReportsAreProgress(due: nat -> bool, total: U64, n: nat)
    ensures IsProgress(DueReports(due, total, n), Min(n * BLOCK, total))
    decreases n
  {
    if n > 0 {
      var earlier, done := DueReports(due, total, n - 1), Min((n - 1) * BLOCK, total);
      ReportsAreProgress(due, total, n - 1);
      ReportMore(earlier, done, done);
      ReportMore(DueReports(due, total, n), done, Min(n * BLOCK, total));
    }
  }

  lemma AllReports(due: nat -> bool, total: U64, n: nat)
    ensures IsProgress(DueReports(due, total, n), total) && IsProgress(DueReports(due, total, n) + [total], total)
  {
    ReportsAreProgress(due, total, n);
    ReportMore(DueReports(due, total, n), Min(n * BLOCK, total), total);
  }

  lemma ReportMore(reports: seq<int>, x: int, y: int)
    requires IsProgress(reports, x) && x <= y
    ensures IsProgress(reports, y) && IsProgress(reports + [y], y)
  {
  }

  lemma NotThrown(dev: Device, signature: string, start: U64, end: U64, pid: int)
    requires TextOutcome(dev, signature, start, end, pid).Returned?
    ensures start < end
  {
  }

  /** Scanning a range is scanning its front, up to a multiple of the chunk size, and then its rest. */
  lemma OutcomeSplits(dev: Device, signature: string, start: U64, mid: U64, end: U64, pid: int)
    requires start < mid < end && (mid - start) % CHUNK == 0
    ensures TextOutcome(dev, signature, start, end, pid) ==
            if TextOutcome(dev, signature, start, mid, pid) == Returned(0)
            then TextOutcome(dev, signature, mid, end, pid)
            else TextOutcome(dev, signature, start, mid, pid)
  {
    hide TextScan;
    if ValidProcessId(pid) {
      match SignatureCells(Words(signature))
      case None =>
      case Some(cells) => SplitTextScan(dev, P.Encode(cells), start, mid, end);
    }
  }

  /** The address at which the last block of a range starts. */
  function LastBlock(start: U64, end: U64): (a: U64)
    requires start < end
    ensures start <= a < end && (a - start) % BLOCK == 0 && end <= a + BLOCK
  {
    start + (end - start - 1) / BLOCK * BLOCK
  }

  /** The end of the last block can be computed without wrapping around. */
  predicate NoWrap(start: U64, end: U64)
    requires start < end
  {
    LastBlock(start, end) + BLOCK < TWO_64
  }

  lemma NextBlock(start: U64, end: U64)
    requires start + BLOCK < end
    ensures LastBlock(start + BLOCK, end) == LastBlock(start, end)
  {
  }

  /** Cancelled at its k-th look at the flag, the loop returns what one scan of the first k blocks returns; never
      cancelled, what one scan of the whole range returns. */
  lemma {:induction false} BlocksArePrefix(dev: Device, signature: string, start: U64, end: U64, pid: int,
                                           cancelled: nat -> bool, j: nat, k: nat)
    requires start < end && NoWrap(start, end)
    requires j <= k && (forall i: nat :: j <= i < k ==> !cancelled(i))
    requires cancelled(k) || start + (k - j) * BLOCK >= end
    ensures BlockScan(dev, signature, start, end, pid, cancelled, j) ==
            if j == k then Returned(0)
            else TextOutcome(dev, signature, start, Min(start + (k - j) * BLOCK, end), pid)
    decreases end - start
  {
    hide TextOutcome;
    if j < k {
      var next := start + BLOCK;
      if next < end {
        NextBlock(start, end);
        BlocksArePrefix(dev, signature, next, end, pid, cancelled, j + 1, k);
        var stop := Min(start + (k - j) * BLOCK, end);
        if j + 1 < k {
          OutcomeSplits(dev, signature, start, next, stop, pid);
        }
      }
    }
  }

  /** Without cancellation, and for every device, the block loop returns what one call of the text overload
      returns, exactly when the end of the last block does not wrap around. */
  lemma BlocksAreOneScan(signature: string, start: U64, end: U64, pid: int, cancelled: nat -> bool)
    requires start < end && (forall k :: !cancelled(k))
    requires ValidProcessId(pid)
    requires SignatureCells(Words(signature)).Some? && SignatureCells(Words(signature)).value != []
    ensures NoWrap(start, end) <==>
            forall dev: Device ::
              BlockScan(dev, signature, start, end, pid, cancelled, 0) == TextOutcome(dev, signature, start, end, pid)
  {
    if NoWrap(start, end) {
      forall dev: Device
        ensures BlockScan(dev, signature, start, end, pid, cancelled, 0) == TextOutcome(dev, signature, start, end, pid)
      {
        BlocksArePrefix(dev, signature, start, end, pid, cancelled, 0, end - start);
      }
    } else {
      var silent: Device := (a: U64, n: nat) => None;
      WrappedBlockThrows(silent, signature, start, end, pid, cancelled, 0);
      SilentScan(silent, P.Encode(SignatureCells(Words(signature)).value), start, LastBlock(start, end));
      SilentScan(silent, P.Encode(SignatureCells(Words(signature)).value), start, end);
    }
  }

  lemma {:induction false} SilentScan(dev: Device, p: P.Pattern, start: U64, end: U64)
    requires |p.mask| == |p.bytes| && (forall a, n :: dev(a, n) == None)
    ensures TextScan(dev, p, start, end) == Returned(0)
    decreases end - start
  {
    if start < end {
      var size := if CHUNK < end - start then CHUNK else end - start;
      SilentScan(dev, p, start + size, end);
      assert Delivered(dev, start, size) == [];
      NothingInNothing(p, start);
    }
  }

  /** When the end of the last block wraps around, that block is an invalid range: on every device, the scan returns
      what one scan of the blocks before it returns, and throws when they find nothing. */
  lemma {:induction false} WrappedBlockThrows(dev: Device, signature: string, start: U64, end: U64, pid: int,
                                              cancelled: nat -> bool, k: nat)
    requires start < end && !NoWrap(start, end) && (forall k :: !cancelled(k))
    ensures BlockScan(dev, signature, start, end, pid, cancelled, k) ==
      var last := LastBlock(start, end);
      if start == last || TextOutcome(dev, signature, start, last, pid) == Returned(0) then Threw
      else TextOutcome(dev, signature, start, last, pid)
    decreases end - start
  {
    hide TextScan, SignatureCells;
    if start + BLOCK < end {
      var next := start + BLOCK;
      NextBlock(start, end);
      WrappedBlockThrows(dev, signature, next, end, pid, cancelled, k + 1);
      if next < LastBlock(start, end) {
        OutcomeSplits(dev, signature, start, next, LastBlock(start, end), pid);
      }
    }
  }
}
