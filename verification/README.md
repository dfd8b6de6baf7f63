# ArgoSentry: verified model

This project models the algorithms and protocols of ArgoSentry, a C++ library around a DMA memory-reading device, and
proves what they promise. The device is replaced by an oracle: a read of n bytes at an address fails, or delivers at
most n bytes. Clocks, thread schedules, spurious wake-ups and spurious compare-exchange failures are arbitrary inputs,
limited only by what the C++ library guarantees of them. Addresses, counters and sizes are 64-bit words that wrap where
the code lets them wrap.

| files | part |
|---|---|
| `Common`, `Text`, `NumeralReading` | words and bytes, whole seconds, character classes, words of a text, stripping, hexadecimal, `strtoul` |
| `SignaturePattern`, `SignatureValidator`, `SignatureReading` | compiling, printing, validating and normalising signatures, and how all readers of signatures treat case, spaces and malformed text |
| `SignatureScan`, `ScanReads`, `AsyncScan`, `ParallelScanner` | one scan written four ways: chunks, compiled chunks, 1 MB blocks, parallel pieces; and the reads it issues |
| `EnhancedScanner`, `OverlappedChunks` | the scanner with overlapping chunks and its own pattern type, and what it lists on any device |
| `MemoryDiffer`, `ReportedDiffs`, `DiffPatch` | differences of two buffers, what is reported of them, and when they are a patch |
| `MemoryCache`, `CacheHistory`, `CacheUse` | the read cache, and what holds over all histories of calls: answers, evictions, statistics |
| `CircuitBreaker`, `BreakerHistory`, `SelfHealing`, `RetryRuns` | the breaker's state machine and its statistics, the retry loop behind it, its delays and what it counts |
| `RateLimiter`, `RateHistory` | bytes granted per window and per interval of real time, and the waits |
| `AsyncLogger`, `LoggerHistory`, `ReadMetrics` | the logger's queue and worker, and the lock-free counters, as interleaving step machines |
| `PointerChainFile`, `PointerChainRoundTrip`, `ChainFileReading` | the pointer-chain file: printer, line-driven parser, their round trip, and files written by others |

Every operation with loops or changing fields is a method, or a method of a class, proved against a function or a
transition relation; the theorems are lemmas about those functions and about all runs of those relations.

Where a promise fails, the code is kept as it is and the exact condition is proved:

- A piece boundary that is no multiple of 4096 loses reads, in both overloads of the parallel scan
  (`ParallelScanner.ParallelIsSequentialExactly`, `ParallelScanner.ParallelTextIsSequentialExactly`); a 1 MB block whose
  end wraps makes the scan throw (`AsyncScan.BlocksAreOneScan`).
- The text overload of the scan runs past the delivered bytes on a read shorter than the signature
  (`SignatureScan.TextScanRefines`).
- On full reads the overlapping scan does not exit for patterns of two bytes or more, unless it looks for the first
  match and there is one (`EnhancedScanner.ExitsExactly`, and `EnhancedScanner.ShortRangeExitsExactly` for ranges
  shorter than that); on ranges shorter than the pattern by two bytes or more it can read below its range
  (`EnhancedScanner.StaysInsideExactly`).
- Comparing buffers with a maximum size of 0 may not end (`MemoryDiffer.EndsExactly`); differences are a patch exactly
  for certain configurations (`DiffPatch.PatchLaw`).
- Two cache requests can share a key (`MemoryCache.KeysCollide`); then one is answered with the other's bytes
  (`CacheHistory.ForeignHitIffKeysMeet`) and the size limit can be exceeded (`CacheHistory.PutOverfillsExactly`).
- A retry call counts a failure and returns "no error" when it is allowed no attempts
  (`SelfHealing.FailsWithoutErrorExactly`); without a breaker some exceptions pass uncounted (`SelfHealing.EscapesExactly`).
- Limits of 2^63 and more break the rate limiter's windows by wrapping (`RateLimiter.WindowsKeepLimitIff`).
- The logger's destructor can miss the worker and wait for ever (`AsyncLogger.WorkerWaitsExactly`).
- Chain names that are empty, or have a quote or a line end, do not survive a file
  (`PointerChainRoundTrip.RoundTripExactly`).

Where comments and code disagree, the model follows the code: the cache is called LRU but evicts by fewest hits, then
oldest timestamp (`src/cache.cpp:171-187`); the rate limiter is called a thread-safe token bucket but is a fixed window
whose bound holds for one caller at a time (`include/ArgoSentry/rate_limiter.hh:11-29`); a failed test in the half-open
breaker is said to reopen it, but does so only when the consecutive failures, including those from before, reach the
threshold (`src/circuit_breaker.cpp:92-97`); a retried operation is said to report failure by the error code it returns
(`include/ArgoSentry/self_healing.hh:190-193`), but behind a breaker that code is ignored and only a throw is a failure
(`include/ArgoSentry/circuit_breaker.hh:184`).

## Model

| member | source | states |
|---|---|---|
| SignaturePattern.ParseToken | src/compiled_pattern.cpp:29-75 | a token is accepted exactly when it is `?`, `??` or one or two hexadecimal digits, with that byte and mask |
| SignaturePattern.Compile | src/compiled_pattern.cpp:81-127 | the pattern of the text's words, or the first reason to refuse it: empty, invalid token, no byte, over 1024 bytes |
| SignaturePattern.CompiledIsCompiled | src/compiled_pattern.cpp:81-127 | only well-formed patterns of 1 to 1024 bytes come out of the compiler |
| SignaturePattern.FirstMatchIsFirst | src/compiled_pattern.cpp:129-168 | the offset found is a match and no earlier one is; none is found only if none exists |
| SignaturePattern.FindInBuffer | src/compiled_pattern.cpp:129-168 | base plus the least match offset, modulo 2^64, or 0 |
| SignaturePattern.ToText | src/compiled_pattern.cpp:170-190 | two characters for each byte, joined by single spaces |
| SignaturePattern.CompileOfPrinted | src/compiled_pattern.cpp:81-190 | compiling what a compiled pattern prints gives that pattern back |
| SignaturePattern.PrintedIsNormalForm | src/compiled_pattern.cpp:81-190 | two accepted signatures print alike exactly when they compile alike, and printing is stable |
| NumeralReading.HexValueIsIndex | src/compiled_pattern.cpp:16-27 | a digit stands for its place in 0 to f, in either case, and nothing else is a digit |
| NumeralReading.StrtoulReads | src/dma.cpp:574 | base-16 numerals: optional sign, optional prefix before a digit, digits, whatever follows |
| SignatureReading.SpaceSplitsWords | src/compiled_pattern.cpp:94-97 | each of the six whitespace characters separates words, wherever it stands |
| SignatureReading.OtherTextIsOneWord | src/compiled_pattern.cpp:94-97 | and nothing else does |
| SignatureReading.CompilingIsCaseless | src/compiled_pattern.cpp:54-70 | a text compiles exactly when its upper-case spelling does, and to the same pattern |
| SignatureReading.LowerCaseReadsAlike | src/compiled_pattern.cpp:54-70 | the lower-case spelling of a printed pattern is read as that pattern by the compiler, the text overload and the IDA parser |
| SignatureReading.TokensAccepted | src/compiled_pattern.cpp:29-52 | exactly which tokens are accepted, and which are wildcards |
| SignatureReading.SingleDigitIsPadded | src/compiled_pattern.cpp:42-70 | a single digit means what it means with a zero before it |
| SignatureReading.RefusedExactly | src/compiled_pattern.cpp:81-127 | each refusal in both directions: blank text, first unreadable word, no word, more than 1024 words |
| SignatureReading.MatchIsCellwise | src/compiled_pattern.cpp:129-168 | a match is one of every cell, with data enough for all |
| SignatureValidator.IsValidHexPattern | src/validators.cpp:38-89 | true exactly for texts in the grammar of marks with spaces between them, and at least one mark |
| SignatureValidator.GetPatternLength | src/validators.cpp:91-121 | the number of marks of a valid text, otherwise 0 |
| SignatureValidator.NormalizePattern | src/validators.cpp:123-162 | every mark in its shortest form, joined by single spaces; empty for an invalid text |
| SignatureValidator.NormalizedIsNormal | src/validators.cpp:38-162 | the normal form is valid, keeps marks and length, and is unchanged by normalising again |
| SignatureValidator.NormalizedCompiles | src/validators.cpp:123-162 | the normal form compiles to exactly one byte for each mark, or is refused as too long exactly above 1024 |
| SignatureValidator.CompilersAgree | src/compiled_pattern.cpp:81-127 | where the compiler accepts a valid text as written, text and normal form compile to the same pattern |
| SignatureReading.ValidatorReads | src/validators.cpp:46-67 | NUL ends a text, spaces are free, `??` and a lone `?` are each one mark |
| SignatureReading.ValidatorReadsDigits | src/validators.cpp:69-85 | two digits are one mark, with or without a space behind them |
| SignatureReading.ValidatorRefuses | src/validators.cpp:69-77 | any other character is refused, and so is a digit not followed by another |
| SignatureReading.NormalFormIs | src/validators.cpp:123-162 | the normal form has a word for each byte, each a single `?` or two digits, and single spaces between them |
| SignatureReading.NormalHasNoDoubleMark | src/validators.cpp:145-148 | no two `?` are adjacent in the normal form |
| SignatureScan.FindSignature | src/dma.cpp:718-785 | refuses bad ranges and processes, otherwise finds, reads and counts exactly what the chunk scan does |
| SignatureScan.SplitScan | src/dma.cpp:748-785 | a scan split at a multiple of 4096 from its start issues the same reads in the same order, with the same answer |
| SignatureScan.ScanIsExact | src/dma.cpp:748-785 | on full reads: the least match inside one chunk, 0 exactly when there is none; a match at address 0 hides its chunk |
| SignatureScan.ScanIsExactAwayFromZero | src/dma.cpp:748-785 | away from address 0: the least address whose whole match lies in one 4096-byte chunk counted from the start, else 0 |
| SignatureScan.ParseSignature | src/dma.cpp:563-583 | the cells of the words, read by `stoul` with its signs, prefix and trailing characters; none when a word is invalid |
| SignatureScan.MatchPattern | src/dma.cpp:586-601 | true exactly when the pattern matches at the offset |
| SignatureScan.FindInChunk | src/dma.cpp:666-680 | the inner loop finds what `find_in_buffer` finds, and overruns exactly when the read is short |
| SignatureScan.FindSignatureText | src/dma.cpp:603-683 | throws, overruns on a short read, or returns the first chunk's least match |
| SignatureScan.SplitTextScan | src/dma.cpp:641-683 | a text scan split at a multiple of 4096 is its first part, and its second when the first finds nothing |
| SignatureScan.TextScanRefines | src/dma.cpp:641-683 | the text scan is the compiled scan, and overruns exactly when a read that scan issues is short |
| SignatureScan.OverloadsAgree | src/dma.cpp:603-785 | on signatures the compiler accepts, both overloads throw alike and return alike, except for overruns |
| SignatureReading.NumeralTokenReads | src/dma.cpp:573-578 | a numeral as a token of the text overload: refused from 2^32 on, otherwise its last byte, negated by a minus sign |
| SignatureReading.OtherTokensRead | src/dma.cpp:570-578 | its three wildcards, and that text without a value is refused |
| ScanReads.ReadsAreExact | src/dma.cpp:749-785 | on every device: reads of 4096 bytes or what is left, one behind the other, up to and including the first that finds; what that finds, and the sum of the bytes delivered |
| ScanReads.RefusalsAreExact | src/dma.cpp:603-639 | both overloads refuse exactly empty ranges and process ids 0 and 4, the text overload also texts without words or with an unreadable word |
| AsyncScan.FindSignatureCancellable | src/async.cpp:115-148 | returns what scanning block after block, with a look at the flag before each, comes to |
| AsyncScan.FindSignatureWithProgress | src/async.cpp:150-194 | scans the same blocks; the report before block k is min(k MB, total), made exactly when due; progress never goes back, and a returning scan reports completion last |
| AsyncScan.BlocksArePrefix | src/async.cpp:129-144 | cancelled before block k it returns what one scan of the first k blocks returns; otherwise what one whole scan does |
| AsyncScan.BlocksAreOneScan | src/async.cpp:129-144 | for every device the uncancelled loop equals one scan, exactly when the last block's end does not wrap |
| AsyncScan.WrappedBlockThrows | src/async.cpp:129-144 | when that end wraps, on every device the loop returns what one scan of the earlier blocks does, and throws if that finds nothing |
| ParallelScanner.RunIsSafe | src/parallel_scanner.cpp:95-177 | in every reachable state the flag is up only after a find at the deciding piece, up to which all have reported their own scan |
| ParallelScanner.ScheduleIndependent | src/parallel_scanner.cpp:83-177 | under every interleaving the result is that of the first piece in order that finds or fails; runs are at most 4n + 2 steps and never stick |
| ParallelScanner.FlagSparesDecidingPieces | src/parallel_scanner.cpp:219-299 | the flag never disturbs a piece at or before the deciding one |
| ParallelScanner.NoFindAfterFlag | src/parallel_scanner.cpp:113-132 | once the flag is up a worker of the text overload reports a cancellation or its exception, one of the compiled overload nothing or its scan |
| ParallelScanner.CollectResults | src/parallel_scanner.cpp:149-177 | the collector returns the first deciding result and raises the flag exactly on a find |
| ParallelScanner.CutRange | src/parallel_scanner.cpp:234-242 | equal pieces with the remainder in the last one |
| ParallelScanner.CutRangeClamped | src/parallel_scanner.cpp:90-108 | clamping and skipping never apply: the same pieces |
| ParallelScanner.PieceInRange | src/parallel_scanner.cpp:90-108 | pieces do not wrap, are not empty, and tile the range |
| ParallelScanner.PlanPieces | src/parallel_scanner.cpp:72-81 | fewer threads when shares fall below 4096 bytes, so that all pieces fit into the range |
| ParallelScanner.PlanIsExact | src/parallel_scanner.cpp:72-81 | as many pieces as threads, but at most one for each 4096 bytes |
| ParallelScanner.AlignedSplit | src/parallel_scanner.cpp:233-294 | pieces cut at multiples of 4096 together come to what one scan of the range comes to |
| ParallelScanner.FindSignatureParallel | src/parallel_scanner.cpp:210-299 | the compiled overload returns the first deciding result of its pieces, or one scan of a small range |
| ParallelScanner.ParallelIsSequential | src/parallel_scanner.cpp:223-294 | for any device it equals one sequential scan when the range is small or each share is a multiple of 4096 |
| ParallelScanner.AnyScheduleIsSequential | src/parallel_scanner.cpp:233-294 | so does every schedule of its workers that returns |
| ParallelScanner.MisalignedDiffers | src/parallel_scanner.cpp:233-294 | otherwise some device's one good read is never issued by any worker |
| ParallelScanner.ParallelIsSequentialExactly | src/parallel_scanner.cpp:223-294 | equality with the sequential scan on all devices holds exactly for one thread, a range below 4096 bytes a thread, or a share that is a multiple of 4096 |
| ParallelScanner.FindSignatureParallelText | src/parallel_scanner.cpp:30-177 | the text overload: argument errors, the uncut cases, and the first deciding result of its pieces; nothing is promised exactly when a match loop overruns |
| ParallelScanner.ParallelTextIsSequential | src/parallel_scanner.cpp:59-177 | it equals one sequential text scan when uncut, cut into one piece, or cut at multiples of 4096, if no worker overruns |
| ParallelScanner.MisalignedTextDiffers | src/parallel_scanner.cpp:72-177 | otherwise, for signatures of at most 4096 cells, nothing overruns on some device whose one good read no worker issues |
| ParallelScanner.ParallelTextIsSequentialExactly | src/parallel_scanner.cpp:59-177 | equality on all devices on which nothing overruns holds exactly when the range is below 4096 bytes, min(threads, range / 4096) pieces are one, or their size is a multiple of 4096, or the signature is longer than a chunk and never found |
| ParallelScanner.CompiledRefusals | src/parallel_scanner.cpp:210-299 | a reserved process id or an empty range is an I/O error; there is no other failure |
| ParallelScanner.TextRefusals | src/parallel_scanner.cpp:30-177 | an invalid argument exactly for an empty text or range, an I/O error for a reserved process id, never a cancellation |
| EnhancedScanner.ParseIdaPattern | src/pattern_scanner_enhanced.cpp:211-252 | pairs of the text without spaces, read by `stoi`; wildcards for `??` and for what is no number |
| EnhancedScanner.IdaOfPrinted | src/pattern_scanner_enhanced.cpp:211-252 | parsing a printed compiled pattern gives its bytes and its mask |
| SignatureReading.PairIsStrtoul | src/pattern_scanner_enhanced.cpp:230-247 | a pair other than `??` is read like a numeral; what has no value is a wildcard |
| SignatureReading.IdaIgnoresSpaceAndCase | src/pattern_scanner_enhanced.cpp:217-222 | whitespace anywhere and letter case change nothing |
| SignatureReading.OddCharacterIsDropped | src/pattern_scanner_enhanced.cpp:225-228 | an odd last character is dropped |
| SignatureReading.MatchersAgree | src/pattern_scanner_enhanced.cpp:265-290 | both scanners match a printed pattern at the same offsets |
| EnhancedScanner.OffsetsAreMatches | src/pattern_scanner_enhanced.cpp:265-290 | the offset list holds every match in the interval, once, in ascending order |
| EnhancedScanner.MatchPatternInBuffer | src/pattern_scanner_enhanced.cpp:254-291 | all match offsets of the buffer, or only the first |
| EnhancedScanner.ScanCompiled | src/pattern_scanner_enhanced.cpp:125-182 | returns what the form of the scan that stops when fewer bytes remain than the pattern has lists; `OverlappedChunks.ScanListsExactly` says what that is |
| EnhancedScanner.ChunkTiles | src/pattern_scanner_enhanced.cpp:141-179 | the match windows of successive overlapping chunks tile the range |
| EnhancedScanner.OverlappedScanIsExact | src/pattern_scanner_enhanced.cpp:141-179 | on full reads it lists exactly all match addresses in ascending order; first-match mode gives the least |
| OverlappedChunks.FailedReadIsSkipped | src/pattern_scanner_enhanced.cpp:148-151 | a read that delivers nothing costs its own bytes only: the scan is the scan of what lies behind them, in both modes |
| OverlappedChunks.ScanListsExactly | src/pattern_scanner_enhanced.cpp:141-179 | on every device, with the chunk positions given: an address is listed exactly when the pattern matches there in what a chunk delivered, once, ascending; first-match mode lists the least |
| OverlappedChunks.DeliveredMatchesAreListed | src/pattern_scanner_enhanced.cpp:141-179 | where each read fails or delivers everything, exactly the matches wholly inside a delivered chunk are listed |
| EnhancedScanner.TooFewLeftStays | src/pattern_scanner_enhanced.cpp:141-179 | once fewer bytes remain than the pattern has, the loop as written finds nothing more |
| EnhancedScanner.LoopReachesStopping | src/pattern_scanner_enhanced.cpp:141-179 | on every device the loop as written finds, in finitely many rounds, exactly what the stopping form finds |
| EnhancedScanner.LoopSticks | src/pattern_scanner_enhanced.cpp:174-178 | on full reads with two or more pattern bytes, in full mode or without a match, it then stays at end - (size - 1) for ever |
| EnhancedScanner.LoopExits | src/pattern_scanner_enhanced.cpp:141-179 | on every device it exits for one-byte patterns, and in first-match mode when something is found |
| EnhancedScanner.ExitsExactly | src/pattern_scanner_enhanced.cpp:141-179 | on full reads of a range at most one byte shorter than the pattern it exits exactly on an empty range, for a one-byte pattern, or in first-match mode with a match |
| EnhancedScanner.StaysInsideExactly | src/pattern_scanner_enhanced.cpp:174-178 | on every device, exactly when it reads only inside its range |
| EnhancedScanner.ShortRangeExitsExactly | src/pattern_scanner_enhanced.cpp:141-179 | on every device, exactly when it exits on a range shorter than the pattern by two bytes or more |
| MemoryDiffer.SegmentIsUnique | src/differ.cpp:334-363 | the description of a segment fixes its size |
| MemoryDiffer.SegmentSizeBound | src/differ.cpp:338-363 | a segment exceeds the maximum size by at most the gap limit |
| MemoryDiffer.GrowMakesSegment | src/differ.cpp:334-363 | the inner loop ends at a segment: differing at both ends, no long gap inside, not extendable |
| MemoryDiffer.SegmentsCover | src/differ.cpp:323-377 | segments are ordered, disjoint, and every differing byte lies in one |
| MemoryDiffer.CoverIsUnique | src/differ.cpp:323-377 | there is only one such list |
| MemoryDiffer.EndsExactly | src/differ.cpp:323-377 | comparing ends exactly when the maximum size is at least 1, the minimum size is 0, or nothing differs |
| MemoryDiffer.ZeroMaximumRepeats | src/differ.cpp:366-376 | with both sizes 0 the first difference is reported empty until the limit |
| MemoryDiffer.ReportedIsFront | src/differ.cpp:366-376 | otherwise what is reported is the front of the kept segments, up to the limit |
| MemoryDiffer.Differ.FindExtent | src/differ.cpp:334-363 | the loop with look-ahead finds the segment's extent |
| MemoryDiffer.Differ.SkipGap | src/differ.cpp:343-349 | the look-ahead finds the next difference within the threshold, if there is one |
| MemoryDiffer.Differ.DiffBuffers | src/differ.cpp:315-381 | for all inputs on which it ends: reports the kept segments up to the result limit, with both contents, and counts them |
| MemoryDiffer.Differ.CompareBuffers | src/differ.cpp:59-76 | compares the common length and sets the statistics |
| ReportedDiffs.ReportsExactly | src/differ.cpp:315-381 | of the segments covering the differences, those of a size in bounds are reported in order, up to the limit, with address and both contents |
| ReportedDiffs.SizesInBounds | src/differ.cpp:366-370 | each difference has as many bytes before as after, between minimum and maximum, on every configuration for which comparing ends |
| ReportedDiffs.DiffsAreTight | src/differ.cpp:334-363 | a difference begins and ends changed, holds no longer gap than grouping allows, and ends only at its maximum or before a longer gap |
| ReportedDiffs.ChangedBytesAreReported | src/differ.cpp:371 | the changed bytes counted are the bytes reported |
| DiffPatch.PatchedAt | src/differ.cpp:366-371 | applying differences replaces exactly the bytes inside their segments |
| DiffPatch.PatchIffAllReported | src/differ.cpp:366-376 | they turn each buffer into the other exactly when no segment was dropped |
| DiffPatch.SmallIsDropped | src/differ.cpp:366 | a minimum size above 1 drops a lone differing byte |
| DiffPatch.OvershootIsDropped | src/differ.cpp:351-366 | a segment that jumps a gap past the maximum size is dropped |
| DiffPatch.TooManyAreNotReported | src/differ.cpp:373-375 | more segments can fit than may be reported |
| DiffPatch.PatchLaw | src/differ.cpp:315-381 | for all buffers of a length, the differences are a patch both ways exactly for the configurations named |
| MemoryCache.KeysCollide | src/cache.cpp:197-201 | exactly when two requests share a key |
| MemoryCache.KeysDifferInWindow | src/cache.cpp:197-201 | inside one aligned 4 GiB window and below 4 GiB sizes, keys tell requests apart |
| MemoryCache.MemoryCache.Get | src/cache.cpp:18-52 | disabled, missing, expired and hit cases, with counters; an expired entry stays |
| MemoryCache.MemoryCache.Put | src/cache.cpp:54-90 | no-op when disabled, update in place, or eviction and insertion, or refusal of too large data |
| MemoryCache.MemoryCache.EvictLru | src/cache.cpp:171-187 | drops an entry with the least hits, oldest among those |
| MemoryCache.MemoryCache.Evict | src/cache.cpp:76-78 | evicts least used entries one by one while room is needed, and stops |
| MemoryCache.MemoryCache.Invalidate | src/cache.cpp:92-105 | drops all entries of the address and their bytes, and nothing else |
| MemoryCache.MemoryCache.EvictExpired | src/cache.cpp:113-126 | drops what is expired when it starts, keeps what is not when it ends, although the clock moves |
| MemoryCache.MemoryCache.SetTtl | src/cache.cpp:219-223 | sets the time to live and sweeps by it |
| MemoryCache.MemoryCache.SetMaxSize | src/cache.cpp:205-213 | sets the limit and evicts down to it |
| CacheHistory.LatestIsLatestPut | src/cache.cpp:54-111 | what a history remembers is its last effective put, with no invalidation or clear after it |
| CacheHistory.HitsSinceIsCount | src/cache.cpp:40-42 | what a history counts as use is the number of hits on the request since its last effective put |
| CacheHistory.CacheAgrees | src/cache.cpp:18-217 | in every reachable state each entry holds the bytes and time the history remembers for its request, and the hits since that put |
| CacheHistory.HitIsFreshAndRight | src/cache.cpp:18-111 | every hit returns the latest enabled put of that request, less than ttl + 1 seconds old, not invalidated or cleared since |
| CacheHistory.WindowDistinguishes | src/cache.cpp:197-201 | a 4 GiB window is a set of requests without collisions |
| CacheHistory.StoredPutAnswers | src/cache.cpp:54-90 | a stored put answers its own request exactly for less than ttl + 1 seconds |
| CacheHistory.ForeignHitIffKeysMeet | src/cache.cpp:18-90 | in any state, what was not cached is answered right after a put, with its bytes, exactly when the keys are equal |
| CacheHistory.VictimsAreLeastUsed | src/cache.cpp:76-78 | no evicted entry was used more, or is younger at equal use, than one that stays |
| CacheHistory.SizeIsTotal | src/cache.cpp:54-217 | the size kept is the sum of the stored lengths in every reachable state |
| CacheHistory.PutOverfillsExactly | src/cache.cpp:64-73 | exactly when a put exceeds the limit |
| CacheHistory.CacheNeverOverfills | src/cache.cpp:54-217 | without key collisions the limit holds in every reachable state |
| CacheHistory.GetsAreCounted | src/cache.cpp:18-52 | hits + misses is the number of enabled gets since the last statistics reset |
| CacheUse.ConfigurationIsLastSet | src/cache.cpp:159-223 | time to live, limit and switch are the ones last set |
| CacheUse.GetIsAnsweredExactly | src/cache.cpp:18-52 | a get is answered exactly when the cache is on, the request is cached, and its put is less than ttl + 1 seconds old |
| CacheUse.CachedExactly | src/cache.cpp:18-223 | for every call of a run, which requests stay cached, become cached and stop being cached |
| CacheUse.VictimsByHistory | src/cache.cpp:171-187 | in every reachable state no evicted request had more hits since its put than one that stays, nor was put later at equal hits |
| CacheUse.EvictionIsNeeded | src/cache.cpp:75-78 | whenever requests are evicted, the most used of them would have left too little room |
| CacheUse.StatisticsCount | src/cache.cpp:18-157 | hits, misses and evictions since the last reset are the answered gets, the unanswered gets while on, and the entries lost in puts, sweeps and changes of the limit |
| CircuitBreaker.CircuitBreaker.TransitionState | src/circuit_breaker.cpp:109-138 | a change of state counts, is timed and zeroes the counter it starts with; no change does nothing |
| CircuitBreaker.CircuitBreaker.AllowRequest | src/circuit_breaker.cpp:28-47 | admits unless open and not timed out; timing out makes it half open |
| CircuitBreaker.CircuitBreaker.RecordSuccess | src/circuit_breaker.cpp:53-71 | counts, and closes a half-open breaker at the threshold |
| CircuitBreaker.CircuitBreaker.RecordFailure | src/circuit_breaker.cpp:73-98 | counts, and opens at the threshold |
| CircuitBreaker.CircuitBreaker.Execute | include/ArgoSentry/circuit_breaker.hh:174-192 | rejected, failed on a throw, otherwise succeeded, as steps of the machine |
| CircuitBreaker.CircuitBreaker.Reset | src/circuit_breaker.cpp:159-162 | closed with empty statistics |
| CircuitBreaker.BreakerIsSound | src/circuit_breaker.cpp:28-188 | over all interleavings: closed means fewer failures than the threshold, half open fewer successes, one counter is 0, totals add up |
| CircuitBreaker.FailuresAreTrailing | src/circuit_breaker.cpp:53-98 | the failure counter is the number of failures since the last success or reset |
| CircuitBreaker.OpensExactly | src/circuit_breaker.cpp:84-97 | it opens exactly on `trip` and on a failure making the threshold of trailing failures |
| CircuitBreaker.SuccessesSinceHalfOpen | src/circuit_breaker.cpp:63-70 | the success counter is the number of successes since it became half open or last failed |
| CircuitBreaker.ClosesExactly | src/circuit_breaker.cpp:63-70 | it closes exactly on `reset` and on a success making the threshold of those |
| CircuitBreaker.NothingAdmittedBeforeTimeout | src/circuit_breaker.cpp:36-43 | nothing is admitted between opening and the timeout unless `reset` or `half_open` intervenes |
| CircuitBreaker.AdmittedAfterTimeout | src/circuit_breaker.cpp:140-149 | an open breaker admits exactly from the timeout after its last change on |
| BreakerHistory.CallsAreCounted | src/circuit_breaker.cpp:53-107 | successful, failed and rejected calls are the steps of that kind since the last reset, the total is the first two, the times are the last ones |
| BreakerHistory.ChangesAreCounted | src/circuit_breaker.cpp:109-138 | transitions are the steps since the last reset that changed the state, timed by the last change or reset |
| BreakerHistory.SuccessesAreTrailing | src/circuit_breaker.cpp:53-133 | the success counter is the successes since the last failure, reset or half opening, in every state |
| BreakerHistory.HalfOpensExactly | src/circuit_breaker.cpp:36-40 | it half opens exactly on `half_open`, and when asked while open after the timeout |
| BreakerHistory.ExecuteIsExact | include/ArgoSentry/circuit_breaker.hh:174-192 | one `execute` is turned away exactly while open before the timeout, otherwise fails exactly on a throw, and counts once |
| SelfHealing.CalculateRetryDelay | src/self_healing.cpp:38-86 | the delay of the policy, clamped; `RetryRuns` says attempt by attempt what that is |
| SelfHealing.DelaysGrow | src/self_healing.cpp:38-86 | delays never shrink with the attempt, given an exponential multiplier of at least 1, and never exceed the maximum |
| RetryRuns.FirstDelay | src/self_healing.cpp:38-86 | the first wait is min(initial, maximum), 0 without a policy |
| RetryRuns.NextDelay | src/self_healing.cpp:46-86 | fixed stays, linear grows by the initial delay, each Fibonacci wait is the two before it together with the second twice the first, no policy waits 0, all up to the maximum |
| RetryRuns.ExponentialIsGeometric | src/self_healing.cpp:55-59 | exponential waits are the terms of the geometric sequence, rounded toward zero, up to the maximum |
| SelfHealing.SelfHealing.RunOnce | src/self_healing.cpp:121-127 | one run, behind the breaker when there is one to use |
| SelfHealing.SelfHealing.ExecuteWithRetry | src/self_healing.cpp:112-190 | result, number of runs, statistics and breaker are those of the retry recursion |
| SelfHealing.OneCallCounts | src/self_healing.cpp:129-177 | a call that returns counts once, one that lets an exception through not at all; failures equal exhaustions |
| SelfHealing.CountsAgree | src/self_healing.cpp:112-190 | over any sequence of calls successes plus failures are the returned calls, and failures equal exhaustions |
| SelfHealing.NothingEscapesBreaker | include/ArgoSentry/circuit_breaker.hh:182-191 | with a breaker in use no exception gets through |
| SelfHealing.RetryRunsExactly | src/self_healing.cpp:88-190 | how often an operation that throws k times and then returns is run, and what the call returns and counts, in every breaker state |
| SelfHealing.AlwaysThrowingRuns | src/self_healing.cpp:112-169 | an operation that always throws runs min(attempts, max(1, threshold - c)) times, and not at all before the timeout |
| SelfHealing.FailsWithoutErrorExactly | src/self_healing.cpp:116-189 | a call counts as failed and returns no error exactly when no attempts are allowed |
| SelfHealing.EscapesExactly | src/self_healing.cpp:121-168 | without a breaker, exactly when an exception gets through |
| RetryRuns.CallIsBooked | src/self_healing.cpp:129-188 | a returning call adds its retries, their waits, the average and the fallbacks |
| RetryRuns.RunsAreRetries | src/self_healing.cpp:112-169 | the operation runs once and once for each retry, but not after the last allowed one, nor when turned away |
| RetryRuns.SuccessRenewsBreaker | src/self_healing.cpp:137-139 | with automatic reset a success leaves the breaker as new |
| RetryRuns.UnguardedRunsExactly | src/self_healing.cpp:112-190 | without a breaker: runs up to the first run that returns no error, or the last allowed, and comes to what that did |
| RateLimiter.RateLimiter.CheckAndResetWindow | src/rate_limiter.cpp:101-115 | a new window starts exactly when a whole second has passed |
| RateLimiter.RateLimiter.WaitIfNeeded | src/rate_limiter.cpp:12-63 | the new counter, window and statistics, in wrapping arithmetic |
| RateLimiter.WindowIsBounded | src/rate_limiter.cpp:20-62 | in every run the counter is what the window granted, and within the bound |
| RateLimiter.ResetsAreApart | src/rate_limiter.cpp:29-57 | windows start at least one second apart |
| RateLimiter.TotalIsExact | src/rate_limiter.cpp:62 | the all-time total is the sum of all requests, modulo 2^64 |
| RateLimiter.RateIsBounded | src/rate_limiter.cpp:12-63 | any half-open interval of T seconds is granted at most bound * (ceil(T) + 1) bytes |
| RateLimiter.RateBoundIsMet | src/rate_limiter.cpp:12-63 | some run meets that bound |
| RateLimiter.WindowsKeepLimitIff | src/rate_limiter.cpp:27 | every run keeps the limit in each window exactly when twice the limit does not wrap |
| RateHistory.CallIsExact | src/rate_limiter.cpp:12-63 | one call in clock times: when the counter starts again, when it sleeps and how long, in wrapping arithmetic |
| RateHistory.WaitsAreCounted | src/rate_limiter.cpp:44-50 | the waits are the calls that slept and the milliseconds they slept, modulo 2^64 |
| RateHistory.UnlimitedCountsNothing | src/rate_limiter.cpp:13-16 | without a limit nothing is counted |
| RateHistory.FittingCallPasses | src/rate_limiter.cpp:21-62 | a call within what is left never sleeps |
| AsyncLogger.Logger.CountMessage | src/logger.cpp:60-75 | filters by level and counts |
| AsyncLogger.Logger.EnqueueMessage | src/logger.cpp:77-91 | drops at 10000 queued messages, otherwise appends and owes a notification |
| AsyncLogger.Logger.Advance | src/logger.cpp:121-154 | the worker's next step |
| AsyncLogger.Logger.DrainQueue | src/logger.cpp:143-153 | the loop after shutdown writes the whole queue in order |
| AsyncLogger.LoggerIsSound | src/logger.cpp:53-154 | in every reachable state written, in flight and queued messages are the accepted ones in order; the queue is bounded; counts add up; no message waits for a worker nobody will notify |
| LoggerHistory.MessagesAreAccountedFor | src/logger.cpp:53-91 | every message at or above the level last set is counted once and is accepted, dropped or on its way; drops happen exactly at 10000 queued |
| LoggerHistory.PendingIsWritten | src/logger.cpp:121-154 | a worker that is not blocked writes the next pending message within three steps of its own |
| AsyncLogger.HistoryOnlyGrows | src/logger.cpp:77-141 | accepting and writing only append |
| AsyncLogger.FlushSeesAlmostAll | src/logger.cpp:99-110 | when `flush` sees an empty queue at most one message is not yet written |
| AsyncLogger.NothingIsLost | src/logger.cpp:143-154 | once the worker has exited all accepted messages are written, if none was logged after shutdown began |
| AsyncLogger.WorkerFinishes | src/logger.cpp:121-154 | after shutdown a worker that does not wait comes closer to its exit with every step |
| AsyncLogger.WorkerWaitsExactly | src/logger.cpp:18-28 | after the destructor's notification the worker waits exactly while it had found nothing to do but was not yet blocked then, and nothing has woken it since |
| AsyncLogger.JoinReturnsUnlessMissed | src/logger.cpp:18-28 | otherwise it exits after a bounded number of its own steps |
| AsyncLogger.NotificationCanBeMissed | src/logger.cpp:18-28 | a run in which that happens |
| ReadMetrics.TimesOnlyNarrow | src/metrics.cpp:268-284 | the shared minimum never rises and the maximum never falls |
| ReadMetrics.TimesWereOffered | src/metrics.cpp:268-284 | each is its initial value or the time of a successful read being recorded |
| ReadMetrics.FinalTimesAreExact | src/metrics.cpp:184-284 | once all calls are done they are the least and greatest successful time, or the initial values if there was none |
| ReadMetrics.FailureMeansProgress | src/metrics.cpp:268-284 | a compare-exchange that fails for a reason has seen a strictly better value |
| ReadMetrics.TotalsAreExact | src/metrics.cpp:184-203 | no interleaving loses an update of the five counters |
| ReadMetrics.SkippedExactly | src/metrics.cpp:184-185 | a call is skipped exactly when collecting was off at its first step |
| ReadMetrics.FinalTotalsAreExact | src/metrics.cpp:184-203 | once all calls are done the counters are the sums over the calls not skipped, modulo 2^64 |
| ReadMetrics.AllCallsAreRecorded | src/metrics.cpp:184-203 | when never switched off every call is recorded, and the counters are plain sums over all calls |
| ReadMetrics.AloneFinishes | src/metrics.cpp:268-284 | from any state a call left to run alone finishes within nine steps |
| PointerChainFile.PointerChainManager.SaveToFile | src/pointer_chain.cpp:375-416 | the text is the file for the manager's chains, each listed once, in some order; none when the file cannot be opened |
| PointerChainFile.PointerChainManager.LoadFromFile | src/pointer_chain.cpp:418-499 | the chains after reading all lines, or up to the exception a numeral threw; false when there is no file |
| PointerChainRoundTrip.PaddedReadsBack | src/pointer_chain.cpp:397-405 | zero-filled upper-case hexadecimal reads back as the number |
| ChainFileReading.PaddedIsLeast | src/pointer_chain.cpp:397-405 | a numeral has at least its width, and is longer only without leading zeros |
| PointerChainRoundTrip.StoullOfPadded | src/pointer_chain.cpp:454-481 | so it does through `stoull` |
| PointerChainRoundTrip.OffsetsReadBack | src/pointer_chain.cpp:456-484 | a printed offset list is split and parsed back to the offsets |
| PointerChainRoundTrip.EntryReadsBack | src/pointer_chain.cpp:432-496 | the five lines of an entry add its chain and nothing else |
| PointerChainRoundTrip.LoadAddsSaved | src/pointer_chain.cpp:375-499 | loading a saved file into any manager adds the saved chains, for good names |
| PointerChainRoundTrip.LoadedNamesAreGood | src/pointer_chain.cpp:437-496 | whatever is loaded, a new name is not empty and has no quote and no line end |
| PointerChainRoundTrip.RoundTripExactly | src/pointer_chain.cpp:375-499 | saving and loading into an empty manager is the identity exactly when all names are so |
| ChainFileReading.FileLooksLike | src/pointer_chain.cpp:386-413 | the file of two chains, line by line |
| ChainFileReading.OffsetsLookLike | src/pointer_chain.cpp:401-406 | offsets quoted, prefixed, two digits wide, with a comma and a space between them |
| ChainFileReading.IndentationIsFree | src/pointer_chain.cpp:434-435 | blanks before a line, and blanks and commas behind it, change nothing |
| ChainFileReading.StoullReads | src/pointer_chain.cpp:454 | numerals as `stoull` reads them: whitespace, sign, prefix, digits, whatever follows; out of range from 2^64 on |
| ChainFileReading.StoullRefuses | src/pointer_chain.cpp:454 | text that begins otherwise is an invalid argument |
| ChainFileReading.BaseNumeralReads | src/pointer_chain.cpp:444-454 | a base may have digits in either case and a prefix in either case or none |
| ChainFileReading.OffsetNumeralReads | src/pointer_chain.cpp:468-481 | so may an offset, between blanks and quotes; an empty token is skipped |
| ChainFileReading.LoadingKeeps | src/pointer_chain.cpp:418-499 | loading never drops a chain, whatever the file holds |

## Left out

- Vendor calls, Windows calls, processes, modules, input state, health checks and the value freezer: I/O and foreign code.
- `DMA::read` and `BatchOperations::batch_read`: the range check is called with an address and a size where it takes a start and an end (`src/dma.cpp:390`, `src/batch.cpp:77`).
- Log texts, error messages, floating-point rates and percentages, durations and scan statistics of the scanners.
- Null pointers passed as signatures or buffers; every text and buffer exists.
- `read_raw` is not part of this model; the enhanced scanner sees it through the same oracle as the other scans.
- Several scans in flight on one `ParallelScanner`, and `cancel` from outside: they share one flag.
- Concurrent callers of one `RateLimiter`, and its `reset` and `set_limit`: the bound is one of sequential calls.
- `DMAThreadPool`, `PointerChain::to_string` and `from_string`, pointer resolution, configuration, the pattern library, file rotation, dumper, layout helpers: easier or repeated versions of what is here.
- `execute_with_retry_result`, reconnection and health checks of the self-healing system, and `update_config` of the breaker: configurations are fixed.
- ScanPieces: runs the workers one after the other; that any other schedule gives the same result is `ParallelScanner.ScheduleIndependent`.
- ScanCompiled: is the terminating form; the loop as written is the step function `EnhancedScanner.Step`, and `LoopReachesStopping` and `LoopSticks` relate the two. Patterns over 1 MB, for which the loop would move backwards, are excluded.
- CompareBuffers: requires what `EndsExactly` shows to be needed for the comparison to end; snapshots on disk and live regions are not read.
- Put: the sum of stored lengths is a natural number, since vectors in memory do not add up to 2^64 bytes; calls of the cache are atomic, although a miss is counted under a second lock and the time to live is set outside it.
- TransitionState: does not model the lock, which `record_success` and `record_failure` already hold when they call it (`src/circuit_breaker.cpp:54`, `src/circuit_breaker.cpp:74`, `src/circuit_breaker.cpp:113`); each call is one atomic step reading the clock once, and callbacks are not called.
- NothingAdmittedBeforeTimeout: requires a clock that does not go back, which the system clock does not promise.
- CalculateRetryDelay: products are exact, without the overflow of 64-bit integers or the rounding of `double`.
- ExecuteWithRetry: callbacks and the fallback handler do not throw.
- AsyncLogger: asynchronous mode only; sinks, their filters and flushing are one step that hands a message over. Logging threads and worker are a state machine, since they interleave; `Logger` holds its steps as methods.
- ReadMetrics: `record_scan` and the cache and process counters are plain counters; `reset` is not interleaved.
- SaveToFile: the operating system's line-end translation and failing writes; the map's order is arbitrary instead of sorted.
