/** The parallel scanner: a range cut into pieces, one worker for each, and a collector that takes the results
    in address order. Workers and collector share a cancel flag. */
module ParallelScanner {
  import opened Common
  import opened Text
  import opened SignatureScan

  const MIN_PIECE := 4096

  datatype Failure = InvalidArgument | Canceled | IoError

  /** The two overloads differ in what a worker does with the cancel flag. */
  datatype Overload = TextPattern | CompiledPattern

  datatype ScanResult = Address(address: U64) | Failed(failure: Failure) {
    predicate Found() {
      Address? && address != 0
    }
  }

  /** How a caught exception, or a returned address, becomes a result. */
  function AsResult(o: Outcome): ScanResult
    requires o != Overran
  {
    match o
    case Returned(a) => Address(a)
    case Threw => Failed(IoError)
  }

  /** The result of the first piece in address order that finds something or fails; 0 when none does. */
  function FirstDeciding(results: seq<ScanResult>): ScanResult {
    if results == [] then Address(0)
    else if results[0].Failed? || results[0].Found() then results[0]
    else FirstDeciding(results[1..])
  }

  // ---------------------------------------------------------------- workers, collector and cancel flag

  datatype Worker = NotLaunched | Launched | Scanning | Finished(result: ScanResult)

  datatype Collector = Launching(next: nat) | Collecting(next: nat) | Done(result: ScanResult)

  datatype State = State(workers: seq<Worker>, cancel: bool, collector: Collector)

  function Initial(n: nat): State {
    State(seq(n, i => NotLaunched), false, Launching(0))
  }

  datatype Action = Launch | Join | Start(i: nat) | Finish(i: nat) | Collect

  /** What a worker that sees the flag before scanning reports. */
  function SkippedResult(overload: Overload): ScanResult {
    if overload == TextPattern then Failed(Canceled) else Address(0)
  }

  /** What a worker whose scan came to `result` reports: the text overload looks at the flag again, unless the
      scan threw. */
  function ReportedResult(overload: Overload, result: ScanResult, cancel: bool): ScanResult {
    if overload == TextPattern && cancel && result.Address? then Failed(Canceled) else result
  }

  predicate Enabled(s: State, a: Action) {
    match a
    case Launch => s.collector.Launching? && s.collector.next < |s.workers|
    case Join => s.collector.Launching? && s.collector.next == |s.workers|
    case Start(i) => i < |s.workers| && s.workers[i].Launched?
    case Finish(i) => i < |s.workers| && s.workers[i].Scanning?
    case Collect => s.collector.Collecting?
                    && (s.collector.next < |s.workers| ==> s.workers[s.collector.next].Finished?)
                    && s.collector.next <= |s.workers|
  }

  /** One atomic step; `results[i]` is what scanning piece i comes to. */
  function Next(overload: Overload, results: seq<ScanResult>, s: State, a: Action): State
    requires |results| == |s.workers| && Enabled(s, a)
  {
    match a
    case Launch => s.(workers := s.workers[s.collector.next := Launched], collector := Launching(s.collector.next + 1))
    case Join => s.(collector := Collecting(0))
    case Start(i) => s.(workers := s.workers[i := if s.cancel then Finished(SkippedResult(overload)) else Scanning])
    case Finish(i) => s.(workers := s.workers[i := Finished(ReportedResult(overload, results[i], s.cancel))])
    case Collect =>
      if s.collector.next == |s.workers| then s.(collector := Done(Address(0)))
      else
        var r := s.workers[s.collector.next].result;
        if r.Failed? then s.(collector := Done(r))
        else if r.Found() then s.(cancel := true, collector := Done(r))
        else s.(collector := Collecting(s.collector.next + 1))
  }

  /** The state after a schedule of actions, if every action was enabled in its turn. */
  function Run(overload: Overload, results: seq<ScanResult>, schedule: seq<Action>): (r: Option<State>)
    ensures r.Some? ==> |r.value.workers| == |results|
    decreases |schedule|
  {
    if schedule == [] then Some(Initial(|results|))
    else
      var before := Run(overload, results, schedule[..|schedule| - 1]);
      var a := schedule[|schedule| - 1];
      if before.None? || !Enabled(before.value, a) then None else Some(Next(overload, results, before.value, a))
  }

  /** No piece before `d` finds something or fails. */
  predicate QuietBefore(results: seq<ScanResult>, d: nat) {
    d <= |results| && forall i :: 0 <= i < d ==> results[i] == Address(0)
  }

  predicate Decides(results: seq<ScanResult>, d: nat) {
    QuietBefore(results, d) && d < |results| && results[d] != Address(0)
  }

  /** What holds in every reachable state: the flag goes up only after a find at the deciding piece, and every
      piece up to there has reported its own scan. */
  ghost predicate Safe(results: seq<ScanResult>, s: State) {
    && |s.workers| == |results|
    && (!s.cancel ==> forall i :: 0 <= i < |results| && s.workers[i].Finished? ==> s.workers[i].result == results[i])
    && match s.collector
       case Launching(n) => !s.cancel && n <= |results|
         && (forall i :: 0 <= i < |results| ==> (s.workers[i].NotLaunched? <==> n <= i))
       case Collecting(n) => !s.cancel && QuietBefore(results, n)
         && (forall i :: 0 <= i < n ==> s.workers[i].Finished?)
         && (forall i :: 0 <= i < |results| ==> !s.workers[i].NotLaunched?)
       case Done(r) =>
         && r == FirstDeciding(results)
         && (forall i :: 0 <= i < |results| ==> !s.workers[i].NotLaunched?)
         && (s.cancel ==> exists d: nat :: Decides(results, d) && ReportedUpTo(results, s, d))
  }

  predicate ReportedUpTo(results: seq<ScanResult>, s: State, d: nat)
    requires |s.workers| == |results| && d < |results|
  {
    forall i :: 0 <= i <= d ==> s.workers[i] == Finished(results[i])
  }

  lemma {:induction false} DecidingIsFirst(results: seq<ScanResult>, d: nat)
    requires QuietBefore(results, d)
    ensures d == |results| ==> FirstDeciding(results) == Address(0)
    ensures Decides(results, d) ==> FirstDeciding(results) == results[d]
  {
    if d > 0 {
      DecidingIsFirst(results[1..], d - 1);
    }
  }

  lemma CollectIsSafe(overload: Overload, results: seq<ScanResult>, s: State)
    requires |results| == |s.workers| && Safe(results, s) && Enabled(s, Collect)
    ensures Safe(results, Next(overload, results, s, Collect))
  {
    var n := s.collector.next;
    DecidingIsFirst(results, n);
    if n < |results| && s.workers[n].result.Found() {
      assert Decides(results, n) && ReportedUpTo(results, Next(overload, results, s, Collect), n);
    }
  }

  lemma WorkerIsSafe(overload: Overload, results: seq<ScanResult>, s: State, a: Action)
    requires |results| == |s.workers| && Safe(results, s) && Enabled(s, a)
    requires a.Start? || a.Finish?
    ensures Safe(results, Next(overload, results, s, a))
  {
    var t := Next(overload, results, s, a);
    if s.cancel {
      var d: nat :| Decides(results, d) && ReportedUpTo(results, s, d);
      assert a.i > d;
      assert ReportedUpTo(results, t, d);
    }
  }

  lemma NextIsSafe(overload: Overload, results: seq<ScanResult>, s: State, a: Action)
    requires |results| == |s.workers| && Safe(results, s) && Enabled(s, a)
    ensures Safe(results, Next(overload, results, s, a))
  {
    match a
    case Collect => CollectIsSafe(overload, results, s);
    case Start(_) => WorkerIsSafe(overload, results, s, a);
    case Finish(_) => WorkerIsSafe(overload, results, s, a);
    case Launch =>
    case Join =>
  }

  /** How many steps are left at most: one for each stage a worker and the collector have still to pass. */
  function StepsLeft(s: State): nat {
    WorkerSteps(s.workers) + match s.collector
      case Launching(_) => |s.workers| + 2
      case Collecting(n) => if n <= |s.workers| then |s.workers| - n + 1 else 0
      case Done(_) => 0
  }

  function Stages(w: Worker): nat {
    match w
    case NotLaunched => 3
    case Launched => 2
    case Scanning => 1
    case Finished(_) => 0
  }

  function WorkerSteps(workers: seq<Worker>): nat {
    if workers == [] then 0 else Stages(workers[0]) + WorkerSteps(workers[1..])
  }

  lemma {:induction false} WorkerStepsOfUpdate(workers: seq<Worker>, i: nat, w: Worker)
    requires i < |workers|
    ensures WorkerSteps(workers[i := w]) == WorkerSteps(workers) - Stages(workers[i]) + Stages(w)
  {
    if i > 0 {
      assert workers[i := w][1..] == workers[1..][i - 1 := w];
      WorkerStepsOfUpdate(workers[1..], i - 1, w);
    } else {
      assert workers[i := w][1..] == workers[1..];
    }
  }

  lemma {:induction false} WorkerStepsAtStart(n: nat)
    ensures WorkerSteps(seq(n, i => NotLaunched)) == 3 * n
  {
    if n > 0 {
      assert seq(n, i => NotLaunched)[1..] == seq(n - 1, i => NotLaunched);
      WorkerStepsAtStart(n - 1);
    }
  }

  lemma EveryStepCounts(overload: Overload, results: seq<ScanResult>, s: State, a: Action)
    requires |results| == |s.workers| && Safe(results, s) && Enabled(s, a)
    ensures StepsLeft(Next(overload, results, s, a)) < StepsLeft(s)
  {
    var t := Next(overload, results, s, a);
    match a
    case Launch => WorkerStepsOfUpdate(s.workers, s.collector.next, Launched);
    case Start(i) => WorkerStepsOfUpdate(s.workers, i, t.workers[i]);
    case Finish(i) => WorkerStepsOfUpdate(s.workers, i, t.workers[i]);
    case Join =>
    case Collect =>
  }

  lemma {:induction false} RunIsSafe(overload: Overload, results: seq<ScanResult>, schedule: seq<Action>)
    requires Run(overload, results, schedule).Some?
    ensures Safe(results, Run(overload, results, schedule).value)
    ensures |schedule| + StepsLeft(Run(overload, results, schedule).value) <= 4 * |results| + 2
  {
    if schedule == [] {
      WorkerStepsAtStart(|results|);
    } else {
      var init, a := schedule[..|schedule| - 1], schedule[|schedule| - 1];
      RunIsSafe(overload, results, init);
      NextIsSafe(overload, results, Run(overload, results, init).value, a);
      EveryStepCounts(overload, results, Run(overload, results, init).value, a);
    }
  }

  lemma StuckMeansDone(results: seq<ScanResult>, s: State)
    requires Safe(results, s) && forall a :: !Enabled(s, a)
    ensures s.collector.Done? && forall i :: 0 <= i < |s.workers| ==> s.workers[i].Finished?
  {
    assert !Enabled(s, Launch) && !Enabled(s, Join);
    forall i: nat | i < |s.workers| ensures s.workers[i].Finished? || s.workers[i].NotLaunched? {
      assert !Enabled(s, Start(i)) && !Enabled(s, Finish(i));
    }
    assert !Enabled(s, Collect);
  }

  /** Under every schedule of workers and collector: a call that returns, returns the result of the first piece
      in address order that finds or fails; no schedule is longer than 4n + 2 steps; and one that cannot go on
      has returned, with every worker finished. */
  lemma ScheduleIndependent(overload: Overload, results: seq<ScanResult>, schedule: seq<Action>)
    requires Run(overload, results, schedule).Some?
    ensures var s := Run(overload, results, schedule).value;
      && (s.collector.Done? ==> s.collector.result == FirstDeciding(results))
      && |schedule| <= 4 * |results| + 2
      && ((forall a :: !Enabled(s, a)) ==>
            s.collector.Done? && forall i :: 0 <= i < |s.workers| ==> s.workers[i].Finished?)
  {
    RunIsSafe(overload, results, schedule);
    var s := Run(overload, results, schedule).value;
    if forall a :: !Enabled(s, a) {
      StuckMeansDone(results, s);
    }
  }

  /** The flag never disturbs a piece at or before the deciding one: whatever such a piece reports is what its
      own scan came to. */
  lemma FlagSparesDecidingPieces(overload: Overload, results: seq<ScanResult>, schedule: seq<Action>, i: nat)
    requires Run(overload, results, schedule).Some?
    requires i < |results| && (forall j :: 0 <= j < i ==> results[j] == Address(0))
    ensures var w := Run(overload, results, schedule).value.workers[i];
      w.Finished? ==> w.result == results[i]
  {
    RunIsSafe(overload, results, schedule);
    var s := Run(overload, results, schedule).value;
    if s.cancel {
      var d: nat :| Decides(results, d) && ReportedUpTo(results, s, d);
      assert i <= d;
    }
  }

  /** Once the flag is up no further worker of the text overload reports an address, not even one that has found it: it
      reports a cancellation, or the exception its scan threw. A worker of the compiled overload reports its scan if it
      has begun, and otherwise nothing found. */
  lemma NoFindAfterFlag(overload: Overload, results: seq<ScanResult>, s: State, a: Action, i: nat)
    requires |results| == |s.workers| && Enabled(s, a) && s.cancel && i < |results|
    requires !s.workers[i].Finished? && Next(overload, results, s, a).workers[i].Finished?
    ensures var r := Next(overload, results, s, a).workers[i].result;
      match overload
      case TextPattern => r == Failed(Canceled) || (r == results[i] && r.Failed? && s.workers[i].Scanning?)
      case CompiledPattern => r == if s.workers[i].Scanning? then results[i] else Address(0)
  {
  }

  /** The collector's loop over the futures, when each holds what its worker reported. */
  method CollectResults(reported: seq<ScanResult>) returns (r: ScanResult, cancel: bool)
    ensures r == FirstDeciding(reported)
    ensures cancel <==> r.Found()
  {
    cancel := false;
    for i := 0 to |reported|
      invariant FirstDeciding(reported) == FirstDeciding(reported[i..])
    {
      assert reported[i..][1..] == reported[i + 1..];
      var result := reported[i];
      if result.Failed? {
        return result, false;
      }
      if result.Found() {
        return result, true;
      }
    }
    return Address(0), false;
  }

  // ---------------------------------------------------------------- cutting the range

  datatype Piece = Piece(start: U64, end: U64)

  /** Piece i of n: all have the same size but the last, which takes the remainder. Arithmetic wraps. */
  function PieceAt(start: U64, end: U64, n: nat, size: nat, i: nat): Piece {
    var from := (start + i * size) % TWO_64;
    Piece(from, if i == n - 1 then end else (from + size) % TWO_64)
  }

  function Pieces(start: U64, end: U64, n: nat, size: nat): (ps: seq<Piece>)
    ensures |ps| == n
  {
    seq(n, i requires 0 <= i < n => PieceAt(start, end, n, size, i))
  }

  /** The loop that cuts the range for the compiled overload. */
  method CutRange(start: U64, end: U64, n: nat, size: nat) returns (pieces: seq<Piece>)
    ensures pieces == Pieces(start, end, n, size)
  {
    pieces := [];
    for i := 0 to n
      invariant pieces == Pieces(start, end, n, size)[..i]
    {
      var chunkStart := (start + i * size) % TWO_64;
      var chunkEnd := if i == n - 1 then end else (chunkStart + size) % TWO_64;
      pieces := pieces + [Piece(chunkStart, chunkEnd)];
    }
  }

  /** The loop of the text overload, which clamps piece ends to the range and skips empty pieces. */
  method CutRangeClamped(start: U64, end: U64, n: nat, size: nat) returns (pieces: seq<Piece>)
    requires start < end && 0 < n && 0 < size && n * size <= end - start
    ensures pieces == Pieces(start, end, n, size)
  {
    pieces := [];
    for i := 0 to n
      invariant pieces == Pieces(start, end, n, size)[..i]
    {
      PieceInRange(start, end, n, size, i);
      var chunkStart := (start + i * size) % TWO_64;
      var chunkEnd := if i == n - 1 then end else (chunkStart + size) % TWO_64;
      if chunkEnd > end {
        chunkEnd := end;
      }
      if chunkStart >= chunkEnd {
        continue;
      }
      pieces := pieces + [Piece(chunkStart, chunkEnd)];
    }
  }

  /** Inside a range that holds n pieces nothing wraps around, and the pieces tile the range. */
  lemma PieceInRange(start: U64, end: U64, n: nat, size: nat, i: nat)
    requires start < end && 0 < size && i < n && n * size <= end - start
    ensures var p := PieceAt(start, end, n, size, i);
      && p.start == start + i * size && p.start < p.end <= end
      && (i < n - 1 ==> p.end == p.start + size && p.end == PieceAt(start, end, n, size, i + 1).start)
      && (i == n - 1 ==> p.end == end)
  {
    assert (i + 1) * size == i * size + size;
    MoreByProduct(i + 1, n, size);
    if i < n - 1 {
      assert (i + 2) * size == (i + 1) * size + size;
      MoreByProduct(i + 2, n, size);
    }
  }

  // ---------------------------------------------------------------- the whole call

  /** What scanning a range, given by its start and end, comes to. */
  type RangeScan = (U64, U64) -> Outcome

  predicate NoneOverruns(f: RangeScan, pieces: seq<Piece>) {
    forall i :: 0 <= i < |pieces| ==> f(pieces[i].start, pieces[i].end) != Overran
  }

  function PieceResults(f: RangeScan, pieces: seq<Piece>): (results: seq<ScanResult>)
    requires NoneOverruns(f, pieces)
    ensures |results| == |pieces|
  {
    seq(|pieces|, i requires 0 <= i < |pieces| => AsResult(f(pieces[i].start, pieces[i].end)))
  }

  /** A range scan that can be cut at multiples of the chunk size. */
  ghost predicate Splits(f: RangeScan) {
    forall s: U64, m: U64, e: U64 :: s < m < e && (m - s) % CHUNK == 0 ==>
      f(s, e) == if f(s, m) == Returned(0) then f(m, e) else f(s, m)
  }

  lemma {:induction false} AlignedPieces(f: RangeScan, start: U64, end: U64, n: nat, size: nat, i: nat)
    requires Splits(f)
    requires start < end && 0 < size && size % CHUNK == 0 && i < n && n * size <= end - start
    requires NoneOverruns(f, Pieces(start, end, n, size))
    ensures var whole := f(PieceAt(start, end, n, size, i).start, end);
      && whole != Overran
      && FirstDeciding(PieceResults(f, Pieces(start, end, n, size))[i..]) == AsResult(whole)
    decreases n - i
  {
    var pieces := Pieces(start, end, n, size);
    var results := PieceResults(f, pieces);
    var p := pieces[i];
    PieceInRange(start, end, n, size, i);
    assert results[i..][1..] == results[i + 1..];
    if i == n - 1 {
      assert results[i + 1..] == [];
    } else {
      AlignedPieces(f, start, end, n, size, i + 1);
      assert p.end - p.start == size;
      PieceInRange(start, end, n, size, i + 1);
    }
  }

  /** Cut at multiples of the chunk size, the pieces together come to what one scan of the range comes to. */
  lemma AlignedSplit(f: RangeScan, start: U64, end: U64, n: nat, size: nat)
    requires Splits(f)
    requires start < end && 0 < size && size % CHUNK == 0 && 0 < n && n * size <= end - start
    requires NoneOverruns(f, Pieces(start, end, n, size))
    ensures f(start, end) != Overran
    ensures FirstDeciding(PieceResults(f, Pieces(start, end, n, size))) == AsResult(f(start, end))
  {
    hide FirstDeciding, PieceResults, Pieces, Splits, NoneOverruns;
    AlignedPieces(f, start, end, n, size, 0);
    PieceInRange(start, end, n, size, 0);
    var results := PieceResults(f, Pieces(start, end, n, size));
    assert results[0..] == results;
  }

  function CompiledRange(dev: Device, p: P.Pattern, pid: int): RangeScan
    requires |p.mask| == |p.bytes|
  {
    (a: U64, b: U64) => CompiledOutcome(dev, p, a, b, pid)
  }

  function TextRange(dev: Device, signature: string, pid: int): RangeScan {
    (a: U64, b: U64) => TextOutcome(dev, signature, a, b, pid)
  }

  /** Small ranges, counted in wrapped 64-bit arithmetic, are scanned by one thread. */
  predicate TooSmall(start: U64, end: U64, threads: nat) {
    (end - start) % TWO_64 < threads * MIN_PIECE % TWO_64
  }

  /** The share of each thread. */
  function ShareOf(start: U64, end: U64, threads: nat): nat
    requires 0 < threads
  {
    (end - start) % TWO_64 / threads
  }

  function ThreadsFor(requested: nat, available: nat): nat {
    if requested == 0 then available else requested
  }

  /** What the compiled overload of the parallel scan returns. */
  function CompiledParallel(dev: Device, p: P.Pattern, start: U64, end: U64, pid: int,
                            requested: nat, available: nat): ScanResult
    requires |p.mask| == |p.bytes| && 0 < available
  {
    var threads := ThreadsFor(requested, available);
    var f := CompiledRange(dev, p, pid);
    if TooSmall(start, end, threads) then AsResult(f(start, end))
    else FirstDeciding(PieceResults(f, Pieces(start, end, threads, ShareOf(start, end, threads))))
  }

  /** The workers of the compiled overload, run one after the other. */
  method ScanPieces(dev: Device, p: P.Pattern, pid: int, pieces: seq<Piece>) returns (reported: seq<ScanResult>)
    requires |p.mask| == |p.bytes|
    ensures reported == PieceResults(CompiledRange(dev, p, pid), pieces)
  {
    hide ChunkScan;
    reported := [];
    for i := 0 to |pieces|
      invariant reported == PieceResults(CompiledRange(dev, p, pid), pieces)[..i]
    {
      var o, _, _ := FindSignature(dev, p, pieces[i].start, pieces[i].end, pid);
      reported := reported + [AsResult(o)];
    }
  }

  /** The compiled overload, with the workers run one after the other: by `ScheduleIndependent` any other
      schedule gives the same result. */
  method FindSignatureParallel(dev: Device, p: P.Pattern, start: U64, end: U64, pid: int,
                               requested: nat, available: nat)
    returns (r: ScanResult)
    requires |p.mask| == |p.bytes| && 0 < available
    ensures r == CompiledParallel(dev, p, start, end, pid, requested, available)
  {
    hide ChunkScan, CompiledOutcome, FirstDeciding, PieceResults, Pieces, NoneOverruns, TooSmall, ShareOf;
    var threads := if requested == 0 then available else requested;
    if TooSmall(start, end, threads) {
      var o, _, _ := FindSignature(dev, p, start, end, pid);
      return AsResult(o);
    }
    var pieces := CutRange(start, end, threads, ShareOf(start, end, threads));
    var reported := ScanPieces(dev, p, pid, pieces);
    var cancel;
    r, cancel := CollectResults(reported);
  }

  lemma CompiledSplits(dev: Device, p: P.Pattern, pid: int)
    requires |p.mask| == |p.bytes|
    ensures Splits(CompiledRange(dev, p, pid))
  {
    hide ChunkScan;
    forall s: U64, m: U64, e: U64 | s < m < e && (m - s) % CHUNK == 0
      ensures CompiledOutcome(dev, p, s, e, pid) ==
              if CompiledOutcome(dev, p, s, m, pid) == Returned(0) then CompiledOutcome(dev, p, m, e, pid)
              else CompiledOutcome(dev, p, s, m, pid)
    {
      SplitScan(dev, p, s, m, e);
    }
  }

  lemma TextSplits(dev: Device, signature: string, pid: int)
    ensures Splits(TextRange(dev, signature, pid))
  {
    hide TextScan;
    forall s: U64, m: U64, e: U64 | s < m < e && (m - s) % CHUNK == 0
      ensures TextOutcome(dev, signature, s, e, pid) ==
              if TextOutcome(dev, signature, s, m, pid) == Returned(0) then TextOutcome(dev, signature, m, e, pid)
              else TextOutcome(dev, signature, s, m, pid)
    {
      if ValidProcessId(pid) {
        match SignatureCells(Words(signature))
        case None =>
        case Some(cells) => SplitTextScan(dev, P.Encode(cells), s, m, e);
      }
    }
  }

  /** For any device, the parallel compiled scan is one sequential scan, whenever the range is small or each
      thread's share is a positive multiple of the chunk size. */
  lemma ParallelIsSequential(dev: Device, p: P.Pattern, start: U64, end: U64, pid: int, requested: nat, available: nat)
    requires |p.mask| == |p.bytes| && 0 < available && start < end
    requires var threads := ThreadsFor(requested, available);
      var share := (end - start) / threads;
      TooSmall(start, end, threads) || (0 < share && share % CHUNK == 0)
    ensures CompiledParallel(dev, p, start, end, pid, requested, available)
         == AsResult(CompiledOutcome(dev, p, start, end, pid))
  {
    hide FirstDeciding, CompiledOutcome, PieceResults, Pieces;
    var threads := ThreadsFor(requested, available);
    var share := (end - start) / threads;
    if !TooSmall(start, end, threads) {
      CompiledSplits(dev, p, pid);
      assert threads * share <= end - start;
      CompiledNeverOverruns(dev, p, pid, Pieces(start, end, threads, share));
      AlignedSplit(CompiledRange(dev, p, pid), start, end, threads, share);
    }
  }

  /** Every schedule of the workers on such a range that returns, returns what one sequential scan does. */
  lemma AnyScheduleIsSequential(dev: Device, p: P.Pattern, start: U64, end: U64, pid: int, threads: nat,
                                schedule: seq<Action>)
    requires |p.mask| == |p.bytes| && 0 < threads && start < end
    requires 0 < ShareOf(start, end, threads) && ShareOf(start, end, threads) % CHUNK == 0
    requires NoneOverruns(CompiledRange(dev, p, pid), Pieces(start, end, threads, ShareOf(start, end, threads)))
    requires var results :=
        PieceResults(CompiledRange(dev, p, pid), Pieces(start, end, threads, ShareOf(start, end, threads)));
      Run(CompiledPattern, results, schedule).Some? && Run(CompiledPattern, results, schedule).value.collector.Done?
    ensures var results :=
        PieceResults(CompiledRange(dev, p, pid), Pieces(start, end, threads, ShareOf(start, end, threads)));
      Run(CompiledPattern, results, schedule).value.collector.result
        == AsResult(CompiledOutcome(dev, p, start, end, pid))
  {
    hide FirstDeciding, CompiledOutcome, PieceResults, Pieces, Run;
    var share := ShareOf(start, end, threads);
    assert (end - start) == share * threads + (end - start) % threads;
    CompiledSplits(dev, p, pid);
    AlignedSplit(CompiledRange(dev, p, pid), start, end, threads, share);
    var results := PieceResults(CompiledRange(dev, p, pid), Pieces(start, end, threads, share));
    ScheduleIndependent(CompiledPattern, results, schedule);
  }

  /** A scan over addresses where every read fails finds nothing. */
  lemma {:induction false} QuietScan(dev: Device, p: P.Pattern, current: U64, end: U64)
    requires |p.mask| == |p.bytes|
    requires forall a: U64, n: nat :: current <= a && a + n <= end ==> dev(a, n) == None
    ensures ChunkScan(dev, p, current, end).found == 0
    decreases end - current
  {
    hide ChunkScan, P.MatchAddress;
    if current < end {
      var size := if CHUNK < end - current then CHUNK else end - current;
      FoundUnfolds(dev, p, current, size, end);
      assert current <= current && current + size <= end;
      assert dev(current, size) == None;
      NothingInNothing(p, current);
      QuietScan(dev, p, current + size, end);
    } else {
      ScanOfNothingPast(dev, p, current, end);
    }
  }

  /** A device that answers one read only, with bytes the pattern matches. */
  function OneReadDevice(p: P.Pattern, address: U64): Device {
    (a: U64, n: nat) => if a == address && n == CHUNK then Some(p.bytes) else None
  }

  /** A pattern that can match inside one chunk. */
  predicate FitsChunk(p: P.Pattern) {
    0 < |p.bytes| <= CHUNK && |p.mask| == |p.bytes|
  }

  lemma OneReadIsFound(p: P.Pattern, start: U64, address: U64, end: U64)
    requires FitsChunk(p)
    requires start <= address && 0 < address && address + CHUNK <= end && (address - start) % CHUNK == 0
    ensures ChunkScan(OneReadDevice(p, address), p, start, end).found == address
  {
    hide ChunkScan;
    var dev := OneReadDevice(p, address);
    SplitScan(dev, p, start, address, end);
    QuietScan(dev, p, start, address);
    FoundUnfolds(dev, p, address, CHUNK, end);
    assert Delivered(dev, address, CHUNK) == p.bytes;
    assert P.MatchesAt(p, p.bytes, 0);
  }

  lemma {:induction false} AllQuiet(results: seq<ScanResult>)
    requires forall i :: 0 <= i < |results| ==> results[i] == Address(0)
    ensures FirstDeciding(results) == Address(0)
  {
    DecidingIsFirst(results, |results|);
  }

  /** No worker issues a read across the boundary between the first two pieces. */
  lemma PieceMisses(p: P.Pattern, start: U64, end: U64, n: nat, size: nat, i: nat, address: U64)
    requires FitsChunk(p)
    requires start < end && 0 < size && 1 < n && i < n && n * size <= end - start
    requires address < start + size < address + CHUNK
    ensures var piece := PieceAt(start, end, n, size, i);
      ChunkScan(OneReadDevice(p, address), p, piece.start, piece.end).found == 0
  {
    hide ChunkScan, PieceAt;
    PieceInRange(start, end, n, size, i);
    var piece := PieceAt(start, end, n, size, i);
    if i == 0 {
      assert piece.end == start + size;
    } else {
      MoreByProduct(1, i, size);
      assert start + size <= piece.start;
    }
    QuietScan(OneReadDevice(p, address), p, piece.start, piece.end);
  }

  lemma PiecesMiss(p: P.Pattern, start: U64, end: U64, pid: int, n: nat, size: nat, address: U64)
    requires P.Compiled(p) && ValidProcessId(pid)
    requires start < end && 0 < size && 1 < n && n * size <= end - start
    requires address < start + size < address + CHUNK
    ensures var f := CompiledRange(OneReadDevice(p, address), p, pid);
      FirstDeciding(PieceResults(f, Pieces(start, end, n, size))) == Address(0)
  {
    hide ChunkScan, FirstDeciding, PieceAt;
    var results := PieceResults(CompiledRange(OneReadDevice(p, address), p, pid), Pieces(start, end, n, size));
    forall i | 0 <= i < n ensures results[i] == Address(0) {
      PieceMisses(p, start, end, n, size, i, address);
      PieceInRange(start, end, n, size, i);
    }
    AllQuiet(results);
  }

  lemma ShareFacts(range: nat, n: nat) returns (share: nat)
    requires 1 < n && n * MIN_PIECE <= range
    ensures share == range / n && MIN_PIECE <= share && n * share <= range && 2 * share <= range
  {
    share := range / n;
    ShareAtLeast(range, n);
    assert range == share * n + range % n;
    MoreByProduct(2, n, share);
  }

  lemma CutIsParallel(dev: Device, p: P.Pattern, start: U64, end: U64, pid: int, requested: nat, available: nat,
                      share: nat)
    requires |p.mask| == |p.bytes| && 0 < available && start < end
    requires var threads := ThreadsFor(requested, available);
      threads * MIN_PIECE <= end - start && share == (end - start) / threads
    ensures var pieces := Pieces(start, end, ThreadsFor(requested, available), share);
      CompiledParallel(dev, p, start, end, pid, requested, available)
        == FirstDeciding(PieceResults(CompiledRange(dev, p, pid), pieces))
  {
    hide ChunkScan, FirstDeciding, PieceResults, Pieces, NoneOverruns, CompiledOutcome;
    var threads := ThreadsFor(requested, available);
    assert (end - start) % TWO_64 == end - start && threads * MIN_PIECE % TWO_64 == threads * MIN_PIECE;
  }

  /** A range cut at shares that are no multiple of the chunk size is not scanned as one range is: there is a
      device whose one good read no worker ever issues. */
  lemma MisalignedDiffers(p: P.Pattern, start: U64, end: U64, pid: int, requested: nat, available: nat)
      returns (dev: Device)
    requires P.Compiled(p) && 0 < available && start < end && ValidProcessId(pid)
    requires var threads := ThreadsFor(requested, available);
      1 < threads && threads * MIN_PIECE <= end - start && (end - start) / threads % CHUNK != 0
    ensures CompiledParallel(dev, p, start, end, pid, requested, available) == Address(0)
    ensures var whole := CompiledOutcome(dev, p, start, end, pid); whole.Returned? && whole != Returned(0)
  {
    hide ChunkScan, FirstDeciding, PieceResults, Pieces, CompiledParallel, NoneOverruns;
    var threads := ThreadsFor(requested, available);
    var share := ShareFacts(end - start, threads);
    var address := start + share - share % CHUNK;
    dev := OneReadDevice(p, address);
    OneReadIsFound(p, start, address, end);
    PiecesMiss(p, start, end, pid, threads, share, address);
    CutIsParallel(dev, p, start, end, pid, requested, available, share);
  }

  /** On every device the parallel compiled scan is the sequential one. */
  ghost predicate AlwaysSequential(p: P.Pattern, start: U64, end: U64, pid: int, requested: nat, available: nat)
    requires |p.mask| == |p.bytes| && 0 < available
  {
    forall dev: Device ::
      CompiledParallel(dev, p, start, end, pid, requested, available) == AsResult(CompiledOutcome(dev, p, start, end, pid))
  }

  lemma AlignedIsSequential(p: P.Pattern, start: U64, end: U64, pid: int, requested: nat, available: nat)
    requires P.Compiled(p) && 0 < available && start < end
    requires ThreadsFor(requested, available) * MIN_PIECE < TWO_64
    requires var threads := ThreadsFor(requested, available);
      threads == 1 || end - start < threads * MIN_PIECE || (end - start) / threads % CHUNK == 0
    ensures AlwaysSequential(p, start, end, pid, requested, available)
  {
    hide CompiledParallel, CompiledOutcome;
    var threads := ThreadsFor(requested, available);
    if threads != 1 && threads * MIN_PIECE <= end - start {
      ShareAtLeast(end - start, threads);
    }
    forall dev: Device
      ensures CompiledParallel(dev, p, start, end, pid, requested, available)
           == AsResult(CompiledOutcome(dev, p, start, end, pid))
    {
      if threads == 1 {
        OneThreadIsSequential(dev, p, start, end, pid, requested, available);
      } else {
        ParallelIsSequential(dev, p, start, end, pid, requested, available);
      }
    }
  }

  lemma MisalignedIsNotSequential(p: P.Pattern, start: U64, end: U64, pid: int, requested: nat, available: nat)
    requires P.Compiled(p) && 0 < available && start < end && ValidProcessId(pid)
    requires var threads := ThreadsFor(requested, available);
      1 < threads && threads * MIN_PIECE <= end - start && (end - start) / threads % CHUNK != 0
    ensures !AlwaysSequential(p, start, end, pid, requested, available)
  {
    hide CompiledParallel, CompiledOutcome;
    var dev := MisalignedDiffers(p, start, end, pid, requested, available);
  }

  /** The exact condition for that. */
  lemma ParallelIsSequentialExactly(p: P.Pattern, start: U64, end: U64, pid: int, requested: nat, available: nat)
    requires P.Compiled(p) && 0 < available && start < end && ValidProcessId(pid)
    requires (if requested == 0 then available else requested) * 4096 < TWO_64
    ensures AlwaysSequential(p, start, end, pid, requested, available)
            <==> var threads := if requested == 0 then available else requested;
                 threads == 1 || end - start < threads * 4096 || (end - start) / threads % 4096 == 0
  {
    hide AlwaysSequential, P.Compiled;
    var threads := ThreadsFor(requested, available);
    if threads == 1 || end - start < threads * MIN_PIECE || (end - start) / threads % CHUNK == 0 {
      AlignedIsSequential(p, start, end, pid, requested, available);
    } else {
      MisalignedIsNotSequential(p, start, end, pid, requested, available);
    }
  }

  lemma OnePieceIsWhole(f: RangeScan, start: U64, end: U64, size: nat)
    requires NoneOverruns(f, Pieces(start, end, 1, size))
    ensures f(start, end) != Overran
    ensures FirstDeciding(PieceResults(f, Pieces(start, end, 1, size))) == AsResult(f(start, end))
  {
    var pieces := Pieces(start, end, 1, size);
    assert pieces[0] == Piece(start, end);
    var results := PieceResults(f, pieces);
    assert results[0] == AsResult(f(start, end)) && results[1..] == [];
    assert FirstDeciding(results) == results[0];
  }

  lemma OneThreadIsSequential(dev: Device, p: P.Pattern, start: U64, end: U64, pid: int, requested: nat, available: nat)
    requires |p.mask| == |p.bytes| && 0 < available && start < end && ThreadsFor(requested, available) == 1
    ensures CompiledParallel(dev, p, start, end, pid, requested, available)
         == AsResult(CompiledOutcome(dev, p, start, end, pid))
  {
    hide CompiledOutcome;
    OnePieceIsWhole(CompiledRange(dev, p, pid), start, end, ShareOf(start, end, 1));
  }

  lemma CompiledNeverOverruns(dev: Device, p: P.Pattern, pid: int, pieces: seq<Piece>)
    requires |p.mask| == |p.bytes|
    ensures NoneOverruns(CompiledRange(dev, p, pid), pieces)
  {
  }

  lemma ShareAtLeast(range: nat, n: nat)
    requires 0 < n && n * MIN_PIECE <= range
    ensures MIN_PIECE <= range / n
  {
    var q := range / n;
    assert range == q * n + range % n;
    assert (q + 1) * n == q * n + n;
    LessByProduct(MIN_PIECE, q + 1, n);
  }

  /** How many pieces the text overload cuts, and how big: fewer threads when shares would be too small. */
  function TextPlan(range: nat, threads: nat): (plan: (nat, nat))
    requires MIN_PIECE <= range && 0 < threads
    ensures 0 < plan.0 && MIN_PIECE <= plan.1 == range / plan.0
  {
    if range / threads < MIN_PIECE then
      var n := range / MIN_PIECE;
      ShareAtLeast(range, n);
      (n, range / n)
    else (threads, range / threads)
  }

  /** The plan: a piece for each thread, but no more pieces than the range has times 4096 bytes. */
  lemma PlanIsExact(range: nat, threads: nat)
    requires 4096 <= range && 0 < threads
    ensures TextPlan(range, threads) == (Min(threads, range / 4096), range / Min(threads, range / 4096))
  {
    if range / threads < MIN_PIECE {
      if threads * MIN_PIECE <= range {
        ShareAtLeast(range, threads);
      }
      assert range / 4096 <= threads by {
        assert range == range / 4096 * 4096 + range % 4096;
      }
    } else {
      assert range == range / threads * threads + range % threads;
      MoreByProduct(4096, range / threads, threads);
    }
  }

  method PlanPieces(range: nat, threads: nat) returns (n: nat, size: nat)
    requires MIN_PIECE <= range && 0 < threads
    ensures (n, size) == TextPlan(range, threads) && n * size <= range
  {
    n, size := threads, range / threads;
    if size < MIN_PIECE {
      n := range / MIN_PIECE;
      ShareAtLeast(range, n);
      size := range / n;
    }
    assert range == size * n + range % n;
  }

  function TextThreads(requested: nat, available: nat): nat {
    var threads := ThreadsFor(requested, available);
    if threads > available then available else threads
  }

  /** Whether the text overload cuts the range at all. */
  predicate TextIsCut(signature: string, start: U64, end: U64, threads: nat) {
    signature != "" && start < end && MIN_PIECE <= end - start && threads != 1
  }

  /** What the text overload returns; nothing is promised when some worker's match loop overruns. */
  function TextParallel(dev: Device, signature: string, start: U64, end: U64, pid: int,
                        requested: nat, available: nat): Option<ScanResult>
    requires 0 < available
  {
    var threads := TextThreads(requested, available);
    if signature == "" || start >= end then Some(Failed(InvalidArgument))
    else if !TextIsCut(signature, start, end, threads) then Promised(TextOutcome(dev, signature, start, end, pid))
    else
      var plan := TextPlan(end - start, threads);
      var f, pieces := TextRange(dev, signature, pid), Pieces(start, end, plan.0, plan.1);
      if NoneOverruns(f, pieces) then Some(FirstDeciding(PieceResults(f, pieces))) else None
  }

  function Promised(o: Outcome): Option<ScanResult> {
    if o == Overran then None else Some(AsResult(o))
  }

  /** The workers of the text overload, run one after the other. */
  method ScanTextPieces(dev: Device, signature: string, pid: int, pieces: seq<Piece>)
      returns (reported: Option<seq<ScanResult>>)
    ensures var f := TextRange(dev, signature, pid);
      reported == if NoneOverruns(f, pieces) then Some(PieceResults(f, pieces)) else None
  {
    hide TextOutcome;
    ghost var f := TextRange(dev, signature, pid);
    var results := [];
    for i := 0 to |pieces|
      invariant |results| == i
      invariant forall k :: 0 <= k < i ==>
        var o := f(pieces[k].start, pieces[k].end);
        o != Overran && results[k] == AsResult(o)
    {
      var o := FindSignatureText(dev, signature, pieces[i].start, pieces[i].end, pid);
      assert o == f(pieces[i].start, pieces[i].end);
      if o == Overran {
        return None;
      }
      results := results + [AsResult(o)];
    }
    assert NoneOverruns(f, pieces) && results == PieceResults(f, pieces);
    return Some(results);
  }

  method FindSignatureParallelText(dev: Device, signature: string, start: U64, end: U64, pid: int,
                                   requested: nat, available: nat)
    returns (r: Option<ScanResult>)
    requires 0 < available
    ensures r == TextParallel(dev, signature, start, end, pid, requested, available)
  {
    hide FirstDeciding, TextOutcome, PieceResults, Pieces, NoneOverruns, TextPlan;
    var threads := if requested == 0 then available else requested;
    if threads > available {
      threads := available;
    }
    if signature == "" {
      return Some(Failed(InvalidArgument));
    }
    if start >= end {
      return Some(Failed(InvalidArgument));
    }
    if end - start < MIN_PIECE || threads == 1 {
      var o := FindSignatureText(dev, signature, start, end, pid);
      return Promised(o);
    }
    var n, size := PlanPieces(end - start, threads);
    var pieces := CutRangeClamped(start, end, n, size);
    var reported := ScanTextPieces(dev, signature, pid, pieces);
    if reported.None? {
      return None;
    }
    var result, cancel := CollectResults(reported.value);
    return Some(result);
  }

  /** No match loop overruns, neither a worker's nor that of one sequential scan. */
  predicate NothingOverruns(dev: Device, signature: string, start: U64, end: U64, pid: int,
                            requested: nat, available: nat)
    requires 0 < available
  {
    && TextOutcome(dev, signature, start, end, pid) != Overran
    && TextParallel(dev, signature, start, end, pid, requested, available).Some?
  }

  /** The text overload does not cut the range, or into one piece, or into pieces of a multiple of the chunk size:
      it takes as many pieces as there are threads to use, but at most one for each 4096 bytes. */
  predicate TextCutIsAligned(range: nat, requested: nat, available: nat)
    requires 0 < available
  {
    var threads := if requested == 0 || requested > available then available else requested;
    range < 4096 ||
      var pieces := Min(threads, range / 4096);
      pieces == 1 || range / pieces % 4096 == 0
  }

  /** The range is cut, and along the plan, exactly when it is at least 4096 bytes and there is more than one thread. */
  lemma CutFollowsPlan(signature: string, start: U64, end: U64, requested: nat, available: nat)
    requires signature != "" && start < end && 0 < available
    ensures var threads := TextThreads(requested, available);
      && 0 < threads
      && (!TextIsCut(signature, start, end, threads) ==> TextCutIsAligned(end - start, requested, available))
      && (TextIsCut(signature, start, end, threads) ==>
            var plan := TextPlan(end - start, threads);
            TextCutIsAligned(end - start, requested, available) <==> plan.0 == 1 || plan.1 % CHUNK == 0)
  {
    hide TextPlan;
    if 4096 <= end - start {
      PlanIsExact(end - start, TextThreads(requested, available));
    }
  }

  /** On any device on which no worker overruns, the parallel text scan of a range cut like that is one sequential
      scan, which does not overrun either. */
  lemma ParallelTextIsSequential(dev: Device, signature: string, start: U64, end: U64, pid: int,
                                 requested: nat, available: nat)
    requires 0 < available && signature != "" && start < end
    requires TextCutIsAligned(end - start, requested, available)
    requires TextParallel(dev, signature, start, end, pid, requested, available).Some?
    ensures TextOutcome(dev, signature, start, end, pid) != Overran
    ensures TextParallel(dev, signature, start, end, pid, requested, available)
         == Some(AsResult(TextOutcome(dev, signature, start, end, pid)))
  {
    hide FirstDeciding, TextOutcome, Pieces, PieceResults, NoneOverruns, TextPlan, TextCutIsAligned;
    var threads := TextThreads(requested, available);
    CutFollowsPlan(signature, start, end, requested, available);
    if TextIsCut(signature, start, end, threads) {
      var plan := TextPlan(end - start, threads);
      if plan.0 == 1 {
        OnePieceIsWhole(TextRange(dev, signature, pid), start, end, plan.1);
      } else {
        TextSplits(dev, signature, pid);
        PlanFits(end - start, threads);
        AlignedSplit(TextRange(dev, signature, pid), start, end, plan.0, plan.1);
      }
    }
  }

  lemma PlanFits(range: nat, threads: nat)
    requires MIN_PIECE <= range && 0 < threads
    ensures TextPlan(range, threads).0 * TextPlan(range, threads).1 <= range
  {
    var (n, size) := TextPlan(range, threads);
    assert range == size * n + range % n;
  }

  /** The device that answers one read only never answers with fewer bytes than the pattern has. */
  lemma OneReadIsNeverShort(p: P.Pattern, address: U64, start: U64, end: U64)
    requires FitsChunk(p)
    ensures TextScan(OneReadDevice(p, address), p, start, end)
         == Returned(ChunkScan(OneReadDevice(p, address), p, start, end).found)
  {
    hide ChunkScan, TextScan;
    TextScanRefines(OneReadDevice(p, address), p, start, end);
  }

  /** The signature reads as these cells. */
  predicate ReadsAs(signature: string, cells: seq<P.Cell>) {
    SignatureCells(Words(signature)) == Some(cells) && cells != []
  }

  lemma CellsNeedText(signature: string, cells: seq<P.Cell>)
    requires ReadsAs(signature, cells)
    ensures signature != ""
  {
  }

  lemma TextPieceMisses(cells: seq<P.Cell>, signature: string, start: U64, end: U64, pid: int, n: nat, size: nat,
                        i: nat, address: U64)
    requires ReadsAs(signature, cells) && |cells| <= CHUNK && ValidProcessId(pid)
    requires start < end && 0 < size && 1 < n && i < n && n * size <= end - start
    requires address < start + size < address + CHUNK
    ensures var (piece, dev) := (PieceAt(start, end, n, size, i), OneReadDevice(P.Encode(cells), address));
      TextOutcome(dev, signature, piece.start, piece.end, pid) == Returned(0)
  {
    hide ChunkScan, TextScan, PieceAt, SignatureCells;
    var p := P.Encode(cells);
    PieceMisses(p, start, end, n, size, i, address);
    PieceInRange(start, end, n, size, i);
    var piece := PieceAt(start, end, n, size, i);
    OneReadIsNeverShort(p, address, piece.start, piece.end);
  }

  lemma TextPiecesMiss(cells: seq<P.Cell>, signature: string, start: U64, end: U64, pid: int, n: nat, size: nat,
                       address: U64)
    requires ReadsAs(signature, cells) && |cells| <= CHUNK && ValidProcessId(pid)
    requires start < end && 0 < size && 1 < n && n * size <= end - start
    requires address < start + size < address + CHUNK
    ensures var f := TextRange(OneReadDevice(P.Encode(cells), address), signature, pid);
      NoneOverruns(f, Pieces(start, end, n, size)) &&
      FirstDeciding(PieceResults(f, Pieces(start, end, n, size))) == Address(0)
  {
    hide TextOutcome, FirstDeciding, PieceAt, ReadsAs;
    var f := TextRange(OneReadDevice(P.Encode(cells), address), signature, pid);
    var pieces := Pieces(start, end, n, size);
    forall i | 0 <= i < n ensures f(pieces[i].start, pieces[i].end) == Returned(0) {
      TextPieceMisses(cells, signature, start, end, pid, n, size, i, address);
    }
    AllQuiet(PieceResults(f, pieces));
  }

  /** Cut at shares that are no multiple of the chunk size, there is a device on which nothing overruns and whose one
      good read no worker ever issues. */
  lemma MisalignedTextDiffers(cells: seq<P.Cell>, signature: string, start: U64, end: U64, pid: int, n: nat, size: nat)
      returns (dev: Device)
    requires ReadsAs(signature, cells) && |cells| <= CHUNK && ValidProcessId(pid)
    requires start < end && 1 < n && MIN_PIECE <= size && n * size <= end - start && size % CHUNK != 0
    ensures NoneOverruns(TextRange(dev, signature, pid), Pieces(start, end, n, size))
    ensures FirstDeciding(PieceResults(TextRange(dev, signature, pid), Pieces(start, end, n, size))) == Address(0)
    ensures var whole := TextOutcome(dev, signature, start, end, pid); whole.Returned? && whole != Returned(0)
  {
    hide ChunkScan, TextScan, FirstDeciding, PieceResults, Pieces, NoneOverruns, SignatureCells;
    MoreByProduct(2, n, size);
    var p, address := P.Encode(cells), start + size - size % CHUNK;
    dev := OneReadDevice(p, address);
    OneReadIsFound(p, start, address, end);
    OneReadIsNeverShort(p, address, start, end);
    TextPiecesMiss(cells, signature, start, end, pid, n, size, address);
  }

  /** A pattern longer than a chunk is never found; scanning for it returns nothing or overruns. */
  lemma {:induction false} LongIsNotFound(dev: Device, p: P.Pattern, start: U64, end: U64)
    requires CHUNK < |p.bytes| == |p.mask|
    ensures TextScan(dev, p, start, end) == Returned(0) || TextScan(dev, p, start, end) == Overran
    decreases end - start
  {
    if start < end {
      LongIsNotFound(dev, p, start + (if CHUNK < end - start then CHUNK else end - start), end);
    }
  }

  lemma LongOutcome(dev: Device, cells: seq<P.Cell>, signature: string, start: U64, end: U64, pid: int)
    requires ReadsAs(signature, cells) && CHUNK < |cells| && ValidProcessId(pid) && start < end
    ensures TextOutcome(dev, signature, start, end, pid) in {Returned(0), Overran}
  {
    hide TextScan, SignatureCells;
    LongIsNotFound(dev, P.Encode(cells), start, end);
  }

  lemma LongPiecesMiss(dev: Device, cells: seq<P.Cell>, signature: string, start: U64, end: U64, pid: int,
                       n: nat, size: nat)
    requires ReadsAs(signature, cells) && CHUNK < |cells| && ValidProcessId(pid)
    requires start < end && 0 < size && n * size <= end - start
    requires NoneOverruns(TextRange(dev, signature, pid), Pieces(start, end, n, size))
    ensures FirstDeciding(PieceResults(TextRange(dev, signature, pid), Pieces(start, end, n, size))) == Address(0)
  {
    hide TextOutcome, FirstDeciding, PieceAt, ReadsAs;
    var f, pieces := TextRange(dev, signature, pid), Pieces(start, end, n, size);
    forall i | 0 <= i < n ensures f(pieces[i].start, pieces[i].end) == Returned(0) {
      PieceInRange(start, end, n, size, i);
      LongOutcome(dev, cells, signature, pieces[i].start, pieces[i].end, pid);
    }
    AllQuiet(PieceResults(f, pieces));
  }

  /** On every device on which nothing overruns, the parallel text scan is the sequential one. */
  ghost predicate TextAlwaysSequential(signature: string, start: U64, end: U64, pid: int,
                                       requested: nat, available: nat)
    requires 0 < available
  {
    forall dev: Device :: NothingOverruns(dev, signature, start, end, pid, requested, available) ==>
      TextParallel(dev, signature, start, end, pid, requested, available)
        == Some(AsResult(TextOutcome(dev, signature, start, end, pid)))
  }

  /** The exact condition for that, for all signatures: the cut is aligned, or the signature has more cells than a
      chunk has bytes, so that no scan ever finds it. */
  lemma ParallelTextIsSequentialExactly(cells: seq<P.Cell>, signature: string, start: U64, end: U64, pid: int,
                                        requested: nat, available: nat)
    requires ReadsAs(signature, cells) && 0 < available && start < end && ValidProcessId(pid)
    ensures TextAlwaysSequential(signature, start, end, pid, requested, available)
            <==> TextCutIsAligned(end - start, requested, available) || |cells| > 4096
  {
    hide TextOutcome, FirstDeciding, PieceResults, Pieces, NoneOverruns, TextPlan, ReadsAs, TextCutIsAligned;
    var threads := TextThreads(requested, available);
    CellsNeedText(signature, cells);
    CutFollowsPlan(signature, start, end, requested, available);
    if TextCutIsAligned(end - start, requested, available) {
      forall dev: Device | NothingOverruns(dev, signature, start, end, pid, requested, available)
        ensures TextParallel(dev, signature, start, end, pid, requested, available)
             == Some(AsResult(TextOutcome(dev, signature, start, end, pid)))
      {
        ParallelTextIsSequential(dev, signature, start, end, pid, requested, available);
      }
    } else {
      var plan := TextPlan(end - start, threads);
      PlanFits(end - start, threads);
      if |cells| > CHUNK {
        forall dev: Device | NothingOverruns(dev, signature, start, end, pid, requested, available)
          ensures TextParallel(dev, signature, start, end, pid, requested, available)
               == Some(AsResult(TextOutcome(dev, signature, start, end, pid)))
        {
          LongOutcome(dev, cells, signature, start, end, pid);
          LongPiecesMiss(dev, cells, signature, start, end, pid, plan.0, plan.1);
        }
      } else {
        var dev := MisalignedTextDiffers(cells, signature, start, end, pid, plan.0, plan.1);
        assert NothingOverruns(dev, signature, start, end, pid, requested, available);
      }
    }
  }

  // ---------------------------------------------------------------- refusals

  lemma FirstFails(results: seq<ScanResult>)
    requires results != [] && results[0] == Failed(IoError)
    ensures FirstDeciding(results) == Failed(IoError)
  {
  }

  lemma {:induction false} FailuresAreIo(f: RangeScan, pieces: seq<Piece>)
    requires NoneOverruns(f, pieces)
    ensures var r := FirstDeciding(PieceResults(f, pieces)); r.Failed? ==> r == Failed(IoError)
    decreases |pieces|
  {
    if pieces != [] {
      var rest := pieces[1..];
      forall i | 0 <= i < |rest| ensures f(rest[i].start, rest[i].end) != Overran {
        assert pieces[i + 1] == rest[i];
      }
      assert PieceResults(f, pieces)[1..] == PieceResults(f, rest);
      FailuresAreIo(f, rest);
    }
  }

  lemma CutRefusals(f: RangeScan, pieces: seq<Piece>)
    requires pieces != []
    ensures NoneOverruns(f, pieces) ==>
      var r := FirstDeciding(PieceResults(f, pieces)); r.Failed? ==> r == Failed(IoError)
    ensures (forall a: U64, b: U64 :: f(a, b) == Threw) ==>
      NoneOverruns(f, pieces) && FirstDeciding(PieceResults(f, pieces)) == Failed(IoError)
  {
    hide FirstDeciding;
    if NoneOverruns(f, pieces) {
      FailuresAreIo(f, pieces);
      if forall a: U64, b: U64 :: f(a, b) == Threw {
        FirstFails(PieceResults(f, pieces));
      }
    }
  }

  /** The text overload reports an invalid argument exactly for an empty text or range, an I/O error for a reserved
      process id, and never a cancellation. */
  lemma TextRefusals(dev: Device, signature: string, start: U64, end: U64, pid: int, requested: nat, available: nat)
    requires 0 < available
    ensures var text := TextParallel(dev, signature, start, end, pid, requested, available);
      && (text == Some(Failed(InvalidArgument)) <==> signature == "" || start >= end)
      && (pid in {0, 4} && signature != "" && start < end ==> text == Some(Failed(IoError)))
      && text != Some(Failed(Canceled))
  {
    hide TextScan, FirstDeciding, SignatureCells, NoneOverruns, TextPlan, PieceResults, Pieces;
    var threads := TextThreads(requested, available);
    if signature != "" && start < end && TextIsCut(signature, start, end, threads) {
      CutFollowsPlan(signature, start, end, requested, available);
      var plan := TextPlan(end - start, threads);
      CutRefusals(TextRange(dev, signature, pid), Pieces(start, end, plan.0, plan.1));
    }
  }

  /** The compiled overload reports an I/O error for a reserved process id and for an empty range, and fails in no
      other way. */
  lemma CompiledRefusals(dev: Device, p: P.Pattern, start: U64, end: U64, pid: int, requested: nat, available: nat)
    requires |p.mask| == |p.bytes| && 0 < available
    ensures var compiled := CompiledParallel(dev, p, start, end, pid, requested, available);
      && (pid in {0, 4} || start == end ==> compiled == Failed(IoError))
      && (compiled.Failed? ==> compiled == Failed(IoError))
  {
    hide ChunkScan, FirstDeciding, TooSmall;
    var threads := ThreadsFor(requested, available);
    var f, pieces := CompiledRange(dev, p, pid), Pieces(start, end, threads, ShareOf(start, end, threads));
    CompiledNeverOverruns(dev, p, pid, pieces);
    FailuresAreIo(f, pieces);
    if pid in {0, 4} || start == end {
      assert start == end ==> ShareOf(start, end, threads) == 0;
      assert f(pieces[0].start, pieces[0].end) == Threw;
      FirstFails(PieceResults(f, pieces));
    }
  }
}
