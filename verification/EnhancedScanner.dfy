/** The IDA-style scanner: 1 MB chunks that overlap by one byte less than the pattern, so that no match is lost
    at a chunk boundary. Its patterns are unrelated to `SignaturePattern.Pattern`. */
module EnhancedScanner {
  import opened Common
  import opened Text
  import P = SignaturePattern
  import S = SignatureScan

  const CHUNK := 0x10_0000

  /** Parallel bytes and mask; a false mask entry is a wildcard. */
  datatype IdaPattern = IdaPattern(bytes: seq<Byte>, mask: seq<bool>)

  predicate WellFormed(p: IdaPattern) {
    |p.mask| == |p.bytes|
  }

  // ---------------------------------------------------------------- parsing

  /** The text without whitespace, in upper case. */
  function Cleaned(s: string): string {
    if s == "" then ""
    else
      var c := s[|s| - 1];
      Cleaned(s[..|s| - 1]) + if IsSpace(c) then "" else [Upper(c)]
  }

  /** `std::stoi` in base 16 on two characters: a sign and a digit, two digits, or a digit and something else. */
  function PairValue(a: char, b: char): Option<Byte> {
    if a == '+' || a == '-' then
      if !IsHexDigit(b) then None
      else if a == '+' then Some(HexValue(b)) else Some((0x100 - HexValue(b)) % 0x100)
    else if !IsHexDigit(a) then None
    else if IsHexDigit(b) then Some(16 * HexValue(a) + HexValue(b))
    else Some(HexValue(a))
  }

  /** One pair of characters: `??` and anything that is not a number are wildcards. */
  function PairCell(a: char, b: char): (Byte, bool) {
    if a == '?' && b == '?' then (0, false)
    else match PairValue(a, b)
      case Some(v) => (v, true)
      case None => (0, false)
  }

  /** Every pair of characters of a cleaned text; an odd last character is dropped. */
  function FromCleaned(t: string): (p: IdaPattern)
    ensures WellFormed(p) && |p.bytes| == |t| / 2
  {
    IdaPattern(seq(|t| / 2, i requires 0 <= i < |t| / 2 => PairCell(t[2 * i], t[2 * i + 1]).0),
               seq(|t| / 2, i requires 0 <= i < |t| / 2 => PairCell(t[2 * i], t[2 * i + 1]).1))
  }

  method CleanText(pattern: string) returns (cleaned: string)
    ensures cleaned == Cleaned(pattern)
  {
    cleaned := "";
    for i := 0 to |pattern|
      invariant cleaned == Cleaned(pattern[..i])
    {
      assert pattern[..i + 1][..i] == pattern[..i];
      if !IsSpace(pattern[i]) {
        cleaned := cleaned + [Upper(pattern[i])];
      }
    }
    assert pattern[..|pattern|] == pattern;
  }

  method ParsePair(a: char, b: char) returns (byte: Byte, exact: bool)
    ensures (byte, exact) == PairCell(a, b)
  {
    if a == '?' && b == '?' {
      return 0, false;
    }
    var value := PairValue(a, b);
    if value.Some? {
      return value.value, true;
    }
    return 0, false;
  }

  method ParseIdaPattern(pattern: string) returns (p: IdaPattern)
    ensures p == FromCleaned(Cleaned(pattern))
  {
    hide PairCell, Cleaned;
    var cleaned := CleanText(pattern);
    var bytes, mask, i := [], [], 0;
    ghost var whole, k := FromCleaned(cleaned), 0;
    while i < |cleaned|
      invariant 0 <= k <= |cleaned| / 2 && i == 2 * k
      invariant bytes == whole.bytes[..k] && mask == whole.mask[..k]
      decreases |cleaned| - i
    {
      if i + 1 >= |cleaned| {
        break;
      }
      var byte, exact := ParsePair(cleaned[i], cleaned[i + 1]);
      bytes, mask := bytes + [byte], mask + [exact];
      i, k := i + 2, k + 1;
    }
    p := IdaPattern(bytes, mask);
  }

  lemma {:induction false} CleanedOfAppend(s: string, t: string)
    ensures Cleaned(s + t) == Cleaned(s) + Cleaned(t)
  {
    if t == "" {
      assert s + t == s;
    } else {
      var u := s + t;
      assert u[..|u| - 1] == s + t[..|t| - 1];
      CleanedOfAppend(s, t[..|t| - 1]);
    }
  }

  lemma CleanedOfCell(cell: P.Cell)
    ensures Cleaned(P.CellText(cell)) == P.CellText(cell) && Cleaned(" ") == ""
  {
    var s := P.CellText(cell);
    assert s[..1] == [s[0]] && [s[0]][..0] == "" && s == [s[0]] + [s[1]];
    assert Cleaned([s[0]]) == Cleaned([s[0]][..0]) + [s[0]];
    assert " "[..0] == "";
  }

  /** The two characters of each cell in turn. */
  function Flat(cells: seq<P.Cell>): (t: string)
    ensures |t| == 2 * |cells|
  {
    if cells == [] then "" else Flat(cells[..|cells| - 1]) + P.CellText(cells[|cells| - 1])
  }

  lemma {:induction false} FlatAt(cells: seq<P.Cell>, i: nat)
    requires i < |cells|
    ensures Flat(cells)[2 * i] == P.CellText(cells[i])[0] && Flat(cells)[2 * i + 1] == P.CellText(cells[i])[1]
  {
    if i < |cells| - 1 {
      FlatAt(cells[..|cells| - 1], i);
    }
  }

  lemma {:induction false} CleanedOfPrinted(cells: seq<P.Cell>)
    ensures Cleaned(Joined(P.CellTexts(cells))) == Flat(cells)
  {
    hide P.CellText, Cleaned;
    if cells == [] {
      assert Cleaned("") == "" by {
        CleanedOfNothing();
      }
    } else {
      var init, last := cells[..|cells| - 1], cells[|cells| - 1];
      assert P.CellTexts(cells)[..|cells| - 1] == P.CellTexts(init);
      CleanedOfPrinted(init);
      CleanedOfCell(last);
      if |cells| > 1 {
        CleanedOfAppend(Joined(P.CellTexts(init)) + " ", P.CellText(last));
        CleanedOfAppend(Joined(P.CellTexts(init)), " ");
      }
    }
  }

  lemma CleanedOfNothing()
    ensures Cleaned("") == ""
  {
  }

  lemma PairOfCell(cell: P.Cell)
    ensures var s := P.CellText(cell);
      PairCell(s[0], s[1]) == if cell.Any? then (0, false) else (cell.byte, true)
  {
  }

  /** Parsing the printed form of a compiled pattern gives its bytes, and its mask as true for exact. */
  lemma IdaOfPrinted(p: P.Pattern)
    requires P.Compiled(p)
    ensures FromCleaned(Cleaned(P.Printed(p))) ==
      IdaPattern(p.bytes, seq(|p.mask|, i requires 0 <= i < |p.mask| => p.mask[i] == P.EXACT))
  {
    hide P.CellText, Cleaned, Flat, PairCell;
    var cells := P.Cells(p);
    CleanedOfPrinted(cells);
    var q := FromCleaned(Flat(cells));
    forall i | 0 <= i < |p.bytes| ensures q.bytes[i] == p.bytes[i] && q.mask[i] == (p.mask[i] == P.EXACT) {
      FlatAt(cells, i);
      PairOfCell(cells[i]);
    }
  }

  // ---------------------------------------------------------------- matching in one buffer

  predicate MatchesAt(p: IdaPattern, data: seq<Byte>, i: int)
    requires WellFormed(p)
  {
    && 0 <= i && i + |p.bytes| <= |data|
    && forall j :: 0 <= j < |p.bytes| && p.mask[j] ==> data[i + j] == p.bytes[j]
  }

  /** The offsets from a to b (exclusive) at which the pattern matches, in ascending order. */
  function Offsets(p: IdaPattern, data: seq<Byte>, a: nat, b: nat): seq<nat>
    requires WellFormed(p)
    decreases b - a
  {
    if a >= b then []
    else if MatchesAt(p, data, a) then [a] + Offsets(p, data, a + 1, b)
    else Offsets(p, data, a + 1, b)
  }

  function FirstOf<T>(ts: seq<T>, firstOnly: bool): seq<T> {
    if firstOnly && |ts| > 1 then ts[..1] else ts
  }

  /** All match offsets in a buffer. */
  function BufferOffsets(p: IdaPattern, data: seq<Byte>): seq<nat>
    requires WellFormed(p)
  {
    if |data| < |p.bytes| then [] else Offsets(p, data, 0, |data| - |p.bytes| + 1)
  }

  method MatchPatternInBuffer(data: seq<Byte>, p: IdaPattern, firstOnly: bool) returns (matches: seq<nat>)
    requires WellFormed(p)
    ensures matches == FirstOf(BufferOffsets(p, data), firstOnly)
  {
    matches := [];
    if |data| < |p.bytes| {
      return;
    }
    var last := |data| - |p.bytes|;
    for i := 0 to last + 1
      invariant BufferOffsets(p, data) == matches + Offsets(p, data, i, last + 1)
      invariant firstOnly ==> matches == []
    {
      var match_ := true;
      var j := 0;
      while j < |p.bytes|
        invariant 0 <= j <= |p.bytes|
        invariant match_ ==> forall k :: 0 <= k < j && p.mask[k] ==> data[i + k] == p.bytes[k]
        invariant !match_ ==> !MatchesAt(p, data, i)
      {
        if p.mask[j] && data[i + j] != p.bytes[j] {
          match_ := false;
          break;
        }
        j := j + 1;
      }
      assert match_ == MatchesAt(p, data, i);
      if match_ {
        assert matches + ([i] + Offsets(p, data, i + 1, last + 1)) == matches + [i] + Offsets(p, data, i + 1, last + 1);
        matches := matches + [i];
        if firstOnly {
          return;
        }
      }
    }
  }

  // ---------------------------------------------------------------- the scan loop

  /** The scan's state: where the next chunk starts, the addresses found, and whether it has returned. */
  datatype Scan = Scan(current: U64, results: seq<U64>, returned: bool)

  predicate Running(s: Scan, end: U64) {
    !s.returned && s.current < end
  }

  function Addresses(base: U64, offsets: seq<nat>): (r: seq<U64>)
    ensures |r| == |offsets|
  {
    seq(|offsets|, i requires 0 <= i < |offsets| => (base + offsets[i]) % TWO_64)
  }

  function ChunkSize(current: U64, end: U64): (size: nat)
    requires current < end
    ensures 0 < size <= CHUNK && current + size <= end
  {
    if CHUNK < end - current then CHUNK else end - current
  }

  /** The addresses found in the chunk at `current`. */
  function ChunkHits(dev: S.Device, p: IdaPattern, current: U64, end: U64, firstOnly: bool): seq<U64>
    requires WellFormed(p) && current < end
  {
    Addresses(current, FirstOf(BufferOffsets(p, S.Delivered(dev, current, ChunkSize(current, end))), firstOnly))
  }

  /** Where the chunk after the one at `current` starts: right behind it when nothing was read, else with an
      overlap of one byte less than the pattern. */
  function NextStart(dev: S.Device, p: IdaPattern, current: U64, end: U64): U64
    requires current < end && 0 < |p.bytes|
  {
    var size := ChunkSize(current, end);
    if S.Delivered(dev, current, size) == [] then current + size
    else (current + size - (|p.bytes| - 1)) % TWO_64
  }

  /** One run of the loop body. */
  function Step(dev: S.Device, p: IdaPattern, end: U64, firstOnly: bool, s: Scan): Scan
    requires WellFormed(p) && 0 < |p.bytes| && Running(s, end)
  {
    var hits := ChunkHits(dev, p, s.current, end, firstOnly);
    if firstOnly && hits != [] then Scan(s.current, s.results + hits, true)
    else Scan(NextStart(dev, p, s.current, end), s.results + hits, false)
  }

  /** The state after n runs of the loop body, or after the loop exited. */
  function After(dev: S.Device, p: IdaPattern, end: U64, firstOnly: bool, s: Scan, n: nat): Scan
    requires WellFormed(p) && 0 < |p.bytes|
    decreases n
  {
    if n == 0 || !Running(s, end) then s
    else After(dev, p, end, firstOnly, Step(dev, p, end, firstOnly, s), n - 1)
  }

  /** The terminating form of the loop: it stops when fewer bytes remain than the pattern has. */
  function StoppingScan(dev: S.Device, p: IdaPattern, current: U64, end: U64, firstOnly: bool): seq<U64>
    requires WellFormed(p) && 0 < |p.bytes| <= CHUNK
    decreases end - current
  {
    if current >= end || end - current < |p.bytes| then []
    else
      var hits := ChunkHits(dev, p, current, end, firstOnly);
      if firstOnly && hits != [] then hits
      else hits + StoppingScan(dev, p, NextStart(dev, p, current, end), end, firstOnly)
  }

  /** While enough bytes remain the next chunk starts strictly later, inside the range. */
  lemma NextStartAdvances(dev: S.Device, p: IdaPattern, current: U64, end: U64)
    requires 0 < |p.bytes| <= CHUNK && current < end && |p.bytes| <= end - current
    ensures current < NextStart(dev, p, current, end) <= end
  {
  }

  /** One unfolding of the terminating form, after `done` has been found. */
  lemma StoppingUnfolds(dev: S.Device, p: IdaPattern, current: U64, end: U64, firstOnly: bool, done: seq<U64>)
    requires WellFormed(p) && 0 < |p.bytes| <= CHUNK && current < end
    ensures end - current < |p.bytes| ==> done + StoppingScan(dev, p, current, end, firstOnly) == done
    ensures end - current >= |p.bytes| ==>
      var hits := ChunkHits(dev, p, current, end, firstOnly);
      done + StoppingScan(dev, p, current, end, firstOnly) ==
        if firstOnly && hits != [] then done + hits
        else done + hits + StoppingScan(dev, p, NextStart(dev, p, current, end), end, firstOnly)
  {
    var hits := ChunkHits(dev, p, current, end, firstOnly);
    if end - current >= |p.bytes| {
      var rest := StoppingScan(dev, p, NextStart(dev, p, current, end), end, firstOnly);
      assert done + (hits + rest) == done + hits + rest;
    }
  }

  method ScanCompiled(dev: S.Device, p: IdaPattern, start: U64, end: U64, firstOnly: bool) returns (results: seq<U64>)
    requires WellFormed(p) && |p.bytes| <= CHUNK
    ensures results == if |p.bytes| == 0 then [] else StoppingScan(dev, p, start, end, firstOnly)
  {
    hide BufferOffsets, S.Delivered, FirstOf, StoppingScan;
    results := [];
    if end <= start || |p.bytes| == 0 {
      if |p.bytes| > 0 {
        NothingToScan(dev, p, start, end, firstOnly);
      }
      return;
    }
    var current: U64 := start;
    assert [] + StoppingScan(dev, p, start, end, firstOnly) == StoppingScan(dev, p, start, end, firstOnly);
    while current < end && end - current >= |p.bytes|
      invariant StoppingScan(dev, p, start, end, firstOnly) == results + StoppingScan(dev, p, current, end, firstOnly)
      decreases end - current
    {
      StoppingUnfolds(dev, p, current, end, firstOnly, results);
      NextStartAdvances(dev, p, current, end);
      var size := if CHUNK < end - current then CHUNK else end - current;
      var data := S.Delivered(dev, current, size);
      var offsets := MatchPatternInBuffer(data, p, firstOnly);
      var hits := Addresses(current, offsets);
      results := results + hits;
      if firstOnly && hits != [] {
        return;
      }
      current := if data == [] then current + size else (current + size - (|p.bytes| - 1)) % TWO_64;
    }
    NothingToScan(dev, p, current, end, firstOnly);
    assert results + [] == results;
  }

  lemma NothingToScan(dev: S.Device, p: IdaPattern, current: U64, end: U64, firstOnly: bool)
    requires WellFormed(p) && |p.bytes| <= CHUNK
    requires current >= end || end - current < |p.bytes|
    ensures |p.bytes| > 0 ==> StoppingScan(dev, p, current, end, firstOnly) == []
  {
  }

  // ---------------------------------------------------------------- the loop as written

  predicate TooFewLeft(p: IdaPattern, current: U64, end: U64) {
    current >= end || end - current < |p.bytes|
  }

  lemma StepWithTooFewLeft(dev: S.Device, p: IdaPattern, end: U64, firstOnly: bool, s: Scan)
    requires WellFormed(p) && 0 < |p.bytes| <= CHUNK && Running(s, end) && TooFewLeft(p, s.current, end)
    ensures var t := Step(dev, p, end, firstOnly, s);
      t.results == s.results && !t.returned && TooFewLeft(p, t.current, end)
  {
    assert BufferOffsets(p, S.Delivered(dev, s.current, ChunkSize(s.current, end))) == [];
    assert s.results + [] == s.results;
  }

  /** Once fewer bytes remain than the pattern has, the loop as written finds nothing more, however long it runs. */
  lemma {:induction false} TooFewLeftStays(dev: S.Device, p: IdaPattern, end: U64, firstOnly: bool, s: Scan, n: nat)
    requires WellFormed(p) && 0 < |p.bytes| <= CHUNK && !s.returned && TooFewLeft(p, s.current, end)
    ensures After(dev, p, end, firstOnly, s, n).results == s.results
    decreases n
  {
    hide Step;
    if n > 0 && Running(s, end) {
      StepWithTooFewLeft(dev, p, end, firstOnly, s);
      TooFewLeftStays(dev, p, end, firstOnly, Step(dev, p, end, firstOnly, s), n - 1);
    }
  }

  /** On every device: the loop as written, exited or not, has after finitely many rounds found exactly what the
      terminating form finds, and never finds anything else. */
  lemma {:induction false} LoopReachesStopping(dev: S.Device, p: IdaPattern, end: U64, firstOnly: bool, s: Scan)
      returns (k: nat)
    requires WellFormed(p) && 0 < |p.bytes| <= CHUNK && !s.returned
    ensures forall n: nat :: n >= k ==>
      After(dev, p, end, firstOnly, s, n).results == s.results + StoppingScan(dev, p, s.current, end, firstOnly)
    decreases end - s.current
  {
    hide StoppingScan, ChunkHits, NextStart;
    if TooFewLeft(p, s.current, end) {
      k := 0;
      NothingToScan(dev, p, s.current, end, firstOnly);
      assert s.results + [] == s.results;
      forall n: nat ensures After(dev, p, end, firstOnly, s, n).results == s.results {
        TooFewLeftStays(dev, p, end, firstOnly, s, n);
      }
    } else {
      StoppingUnfolds(dev, p, s.current, end, firstOnly, s.results);
      NextStartAdvances(dev, p, s.current, end);
      var t := Step(dev, p, end, firstOnly, s);
      if t.returned {
        k := 1;
      } else {
        var m := LoopReachesStopping(dev, p, end, firstOnly, t);
        k := m + 1;
        var all := s.results + StoppingScan(dev, p, s.current, end, firstOnly);
        forall n: nat | n >= k ensures After(dev, p, end, firstOnly, s, n).results == all
        {
          assert After(dev, p, end, firstOnly, s, n) == After(dev, p, end, firstOnly, t, n - 1);
        }
      }
    }
  }

  // ---------------------------------------------------------------- exactness on full reads

  lemma {:induction false} OffsetsSplit(p: IdaPattern, data: seq<Byte>, a: nat, b: nat, c: nat)
    requires WellFormed(p) && a <= b <= c
    ensures Offsets(p, data, a, c) == Offsets(p, data, a, b) + Offsets(p, data, b, c)
    decreases b - a
  {
    hide MatchesAt;
    if a < b {
      OffsetsSplit(p, data, a + 1, b, c);
    }
  }

  /** The list of offsets: every match in the interval, once, in ascending order. */
  lemma {:induction false} OffsetsAreMatches(p: IdaPattern, data: seq<Byte>, a: nat, b: nat)
    requires WellFormed(p)
    ensures forall i: nat :: i in Offsets(p, data, a, b) <==> a <= i < b && MatchesAt(p, data, i)
    ensures forall i, j :: 0 <= i < j < |Offsets(p, data, a, b)| ==>
      Offsets(p, data, a, b)[i] < Offsets(p, data, a, b)[j]
    decreases b - a
  {
    hide MatchesAt;
    if a < b {
      OffsetsAreMatches(p, data, a + 1, b);
      var rest := Offsets(p, data, a + 1, b);
      assert forall j :: 0 <= j < |rest| ==> rest[j] in rest;
    }
  }

  lemma MatchesInWindow(p: IdaPattern, image: seq<Byte>, q: nat, n: nat, i: nat)
    requires WellFormed(p) && q + n <= |image| && i + |p.bytes| <= n
    ensures MatchesAt(p, image[q..][..n], i) <==> MatchesAt(p, image, q + i)
  {
    var data := image[q..][..n];
    if MatchesAt(p, data, i) {
      forall j | 0 <= j < |p.bytes| && p.mask[j] ensures image[q + i + j] == p.bytes[j] {
        assert data[i + j] == p.bytes[j];
      }
    }
    if MatchesAt(p, image, q + i) {
      forall j | 0 <= j < |p.bytes| && p.mask[j] ensures data[i + j] == p.bytes[j] {
        assert image[q + i + j] == p.bytes[j];
      }
    }
  }

  /** Match offsets in a window of the image are match offsets in the image, shifted. */
  lemma {:induction false} WindowOffsets(p: IdaPattern, start: U64, image: seq<Byte>, q: nat, n: nat, i: nat, b: nat)
    requires WellFormed(p) && q + n <= |image| && start + q < TWO_64
    requires b + |p.bytes| <= n + 1
    ensures Addresses(start + q, Offsets(p, image[q..][..n], i, b)) == Addresses(start, Offsets(p, image, q + i, q + b))
    decreases b - i
  {
    hide MatchesAt;
    if i < b {
      WindowOffsets(p, start, image, q, n, i + 1, b);
      MatchesInWindow(p, image, q, n, i);
      AddressesOfCons(start + q, i, Offsets(p, image[q..][..n], i + 1, b));
      AddressesOfCons(start, q + i, Offsets(p, image, q + i + 1, q + b));
    }
  }

  lemma AddressesOfCons(base: U64, i: nat, rest: seq<nat>)
    ensures Addresses(base, [i] + rest) == [(base + i) % TWO_64] + Addresses(base, rest)
  {
  }

  lemma AddressesOfAppend(base: U64, a: seq<nat>, b: seq<nat>)
    ensures Addresses(base, a + b) == Addresses(base, a) + Addresses(base, b)
  {
  }

  /** Every match address of the image from offset q on. */
  function MatchesFrom(p: IdaPattern, start: U64, image: seq<Byte>, q: nat): seq<U64>
    requires WellFormed(p)
  {
    if |image| < |p.bytes| then [] else Addresses(start, Offsets(p, image, q, |image| - |p.bytes| + 1))
  }

  /** On full reads the chunk at offset q finds the matches starting before the next chunk, and the windows of
      successive chunks tile the range. */
  lemma ChunkTiles(dev: S.Device, p: IdaPattern, start: U64, image: seq<Byte>, q: nat)
    requires WellFormed(p) && 0 < |p.bytes| <= CHUNK
    requires start + |image| < TWO_64 && S.FullReads(dev, start, image)
    requires q + |p.bytes| <= |image|
    ensures var end := start + |image|;
      var next := NextStart(dev, p, start + q, end);
      start + q < next <= end
      && MatchesFrom(p, start, image, q) ==
           ChunkHits(dev, p, start + q, end, false) + MatchesFrom(p, start, image, next - start)
  {
    hide Offsets, MatchesAt, S.Delivered, S.FullReads;
    var end, m := start + |image|, |p.bytes|;
    var n := ChunkSize(start + q, end);
    S.FullChunk(dev, start, image, q, n);
    NextStartAdvances(dev, p, start + q, end);
    var data := image[q..][..n];
    assert NextStart(dev, p, start + q, end) == start + q + n - (m - 1);
    WindowOffsets(p, start, image, q, n, 0, n - m + 1);
    OffsetsSplit(p, image, q, q + n - m + 1, |image| - m + 1);
    AddressesOfAppend(start, Offsets(p, image, q, q + n - m + 1), Offsets(p, image, q + n - m + 1, |image| - m + 1));
    assert BufferOffsets(p, data) == Offsets(p, data, 0, n - m + 1);
  }

  lemma {:induction false} StoppingFindsAll(dev: S.Device, p: IdaPattern, start: U64, image: seq<Byte>, q: nat)
    requires WellFormed(p) && 0 < |p.bytes| <= CHUNK
    requires start + |image| < TWO_64 && S.FullReads(dev, start, image) && q <= |image|
    ensures StoppingScan(dev, p, start + q, start + |image|, false) == MatchesFrom(p, start, image, q)
    decreases |image| - q
  {
    hide ChunkHits, NextStart, S.FullReads, StoppingScan;
    if q + |p.bytes| <= |image| {
      var end := start + |image|;
      var next := NextStart(dev, p, start + q, end);
      ChunkTiles(dev, p, start, image, q);
      StoppingFindsAll(dev, p, start, image, next - start);
      StoppingUnfoldsAll(dev, p, start + q, end);
    } else {
      NothingToScan(dev, p, start + q, start + |image|, false);
    }
  }

  lemma StoppingUnfoldsAll(dev: S.Device, p: IdaPattern, current: U64, end: U64)
    requires WellFormed(p) && 0 < |p.bytes| <= CHUNK && current < end && end - current >= |p.bytes|
    ensures StoppingScan(dev, p, current, end, false) ==
            ChunkHits(dev, p, current, end, false) + StoppingScan(dev, p, NextStart(dev, p, current, end), end, false)
  {
  }

  /** First-match mode finds the head of what the full mode finds. */
  lemma {:induction false} FirstModeIsHead(dev: S.Device, p: IdaPattern, current: U64, end: U64)
    requires WellFormed(p) && 0 < |p.bytes| <= CHUNK
    ensures StoppingScan(dev, p, current, end, true) == FirstOf(StoppingScan(dev, p, current, end, false), true)
    decreases end - current
  {
    if !TooFewLeft(p, current, end) {
      NextStartAdvances(dev, p, current, end);
      FirstModeIsHead(dev, p, NextStart(dev, p, current, end), end);
      HitsOfFirstMode(dev, p, current, end);
    }
  }

  lemma HitsOfFirstMode(dev: S.Device, p: IdaPattern, current: U64, end: U64)
    requires WellFormed(p) && current < end
    ensures ChunkHits(dev, p, current, end, true) == FirstOf(ChunkHits(dev, p, current, end, false), true)
  {
  }

  /** With full reads the overlapped scan lists the address of every match in the range, once, in ascending order;
      in first-match mode it lists the least one, if there is one. */
  lemma OverlappedScanIsExact(dev: S.Device, p: IdaPattern, start: U64, image: seq<Byte>)
    requires WellFormed(p) && 0 < |p.bytes| <= CHUNK
    requires start + |image| < TWO_64 && S.FullReads(dev, start, image)
    ensures var all := StoppingScan(dev, p, start, start + |image|, false);
      && (forall a: U64 :: a in all <==> start <= a && MatchesAt(p, image, a - start))
      && (forall i, j :: 0 <= i < j < |all| ==> all[i] < all[j])
      && StoppingScan(dev, p, start, start + |image|, true) == if all == [] then [] else [all[0]]
  {
    hide StoppingScan, Offsets, MatchesAt, S.FullReads;
    StoppingFindsAll(dev, p, start, image, 0);
    FirstModeIsHead(dev, p, start, start + |image|);
    AllMatchesListed(p, start, image);
  }

  /** The i-th listed address is the i-th match offset behind the start. */
  lemma ListedAt(p: IdaPattern, start: U64, image: seq<Byte>, i: nat)
    requires WellFormed(p) && 0 < |p.bytes| <= |image| && start + |image| < TWO_64
    requires i < |MatchesFrom(p, start, image, 0)|
    ensures var offsets := Offsets(p, image, 0, |image| - |p.bytes| + 1);
      i < |offsets| && MatchesFrom(p, start, image, 0)[i] == start + offsets[i] && MatchesAt(p, image, offsets[i])
  {
    hide Offsets;
    var offsets := Offsets(p, image, 0, |image| - |p.bytes| + 1);
    OffsetsAreMatches(p, image, 0, |image| - |p.bytes| + 1);
    assert offsets[i] in offsets;
  }

  lemma MatchIsListed(p: IdaPattern, start: U64, image: seq<Byte>, a: U64)
    requires WellFormed(p) && 0 < |p.bytes| && start + |image| < TWO_64
    requires start <= a && MatchesAt(p, image, a - start)
    ensures a in MatchesFrom(p, start, image, 0)
  {
    hide Offsets;
    var offsets := Offsets(p, image, 0, |image| - |p.bytes| + 1);
    OffsetsAreMatches(p, image, 0, |image| - |p.bytes| + 1);
    var i :| 0 <= i < |offsets| && offsets[i] == a - start;
    assert MatchesFrom(p, start, image, 0)[i] == a;
  }

  lemma ListedIsMatch(p: IdaPattern, start: U64, image: seq<Byte>, a: U64)
    requires WellFormed(p) && 0 < |p.bytes| <= |image| && start + |image| < TWO_64
    requires a in MatchesFrom(p, start, image, 0)
    ensures start <= a && MatchesAt(p, image, a - start)
  {
    hide Offsets, MatchesFrom, MatchesAt;
    var all := MatchesFrom(p, start, image, 0);
    var i :| 0 <= i < |all| && all[i] == a;
    ListedAt(p, start, image, i);
  }

  lemma ListIsAscending(p: IdaPattern, start: U64, image: seq<Byte>, i: nat, j: nat)
    requires WellFormed(p) && 0 < |p.bytes| <= |image| && start + |image| < TWO_64
    requires i < j < |MatchesFrom(p, start, image, 0)|
    ensures MatchesFrom(p, start, image, 0)[i] < MatchesFrom(p, start, image, 0)[j]
  {
    hide Offsets, MatchesFrom, MatchesAt;
    ListedCount(p, start, image);
    OffsetsAreMatches(p, image, 0, |image| - |p.bytes| + 1);
    ListedAt(p, start, image, i);
    ListedAt(p, start, image, j);
  }

  lemma AllMatchesListed(p: IdaPattern, start: U64, image: seq<Byte>)
    requires WellFormed(p) && 0 < |p.bytes| && start + |image| < TWO_64
    ensures var all := MatchesFrom(p, start, image, 0);
      && (forall a: U64 :: a in all <==> start <= a && MatchesAt(p, image, a - start))
      && (forall i, j :: 0 <= i < j < |all| ==> all[i] < all[j])
  {
    hide MatchesFrom, MatchesAt;
    var all := MatchesFrom(p, start, image, 0);
    if |image| < |p.bytes| {
      NothingListed(p, start, image);
    } else {
      forall a: U64 | a in all ensures start <= a && MatchesAt(p, image, a - start) {
        ListedIsMatch(p, start, image, a);
      }
      forall a: U64 | start <= a && MatchesAt(p, image, a - start) ensures a in all {
        MatchIsListed(p, start, image, a);
      }
      forall i, j | 0 <= i < j < |all| ensures all[i] < all[j] {
        ListIsAscending(p, start, image, i, j);
      }
    }
  }

  lemma ListedCount(p: IdaPattern, start: U64, image: seq<Byte>)
    requires WellFormed(p) && |p.bytes| <= |image|
    ensures |MatchesFrom(p, start, image, 0)| == |Offsets(p, image, 0, |image| - |p.bytes| + 1)|
  {
  }

  lemma NothingListed(p: IdaPattern, start: U64, image: seq<Byte>)
    requires WellFormed(p) && |image| < |p.bytes|
    ensures MatchesFrom(p, start, image, 0) == [] && forall i: nat :: !MatchesAt(p, image, i)
  {
  }

  // ---------------------------------------------------------------- when the loop as written exits

  ghost predicate ExitedAfter(dev: S.Device, p: IdaPattern, end: U64, firstOnly: bool, s: Scan, n: nat)
    requires WellFormed(p) && 0 < |p.bytes|
  {
    !Running(After(dev, p, end, firstOnly, s, n), end)
  }

  /** The loop exits after some number of rounds. */
  ghost predicate Exits(dev: S.Device, p: IdaPattern, end: U64, firstOnly: bool, s: Scan)
    requires WellFormed(p) && 0 < |p.bytes|
  {
    exists n: nat :: ExitedAfter(dev, p, end, firstOnly, s, n)
  }

  /** Where the loop ends up on full reads: one byte short of the pattern from the end, every match found. */
  function Stuck(dev: S.Device, p: IdaPattern, end: U64, firstOnly: bool, s: Scan): Scan
    requires WellFormed(p) && 1 < |p.bytes| <= CHUNK && |p.bytes| - 1 <= end
  {
    Scan(end - (|p.bytes| - 1), s.results + StoppingScan(dev, p, s.current, end, firstOnly), false)
  }

  /** With full reads and a pattern of two bytes or more, the loop as written never exits in full mode, nor in
      first-match mode without a match: it reaches the state one byte short of the pattern from the end, with every
      match found, and stays there. */
  lemma {:induction false} LoopSticks(dev: S.Device, p: IdaPattern, start: U64, image: seq<Byte>,
                                      firstOnly: bool, s: Scan)
      returns (k: nat)
    requires WellFormed(p) && 1 < |p.bytes| <= CHUNK && |p.bytes| - 1 <= |image|
    requires start + |image| < TWO_64 && S.FullReads(dev, start, image)
    requires start <= s.current <= start + |image| - (|p.bytes| - 1) && !s.returned
    requires firstOnly ==> StoppingScan(dev, p, s.current, start + |image|, true) == []
    ensures var end := start + |image|;
      forall n: nat :: n >= k ==> After(dev, p, end, firstOnly, s, n) == Stuck(dev, p, end, firstOnly, s)
    ensures Running(Stuck(dev, p, start + |image|, firstOnly, s), start + |image|)
    decreases start + |image| - s.current
  {
    hide StoppingScan, ChunkHits, NextStart, S.FullReads, Step, Stuck;
    var end := start + |image|;
    StuckIsRunning(dev, p, end, firstOnly, s);
    if s.current == end - (|p.bytes| - 1) {
      k := 0;
      StuckHere(dev, p, end, firstOnly, s);
      StuckStep(dev, p, start, image, firstOnly, s);
      forall n: nat ensures After(dev, p, end, firstOnly, s, n) == Stuck(dev, p, end, firstOnly, s) {
        StuckStays(dev, p, end, firstOnly, s, n);
      }
    } else {
      var t := Step(dev, p, end, firstOnly, s);
      StuckOfStep(dev, p, start, image, firstOnly, s);
      var m := LoopSticks(dev, p, start, image, firstOnly, t);
      k := m + 1;
      forall n: nat | n >= k ensures After(dev, p, end, firstOnly, s, n) == Stuck(dev, p, end, firstOnly, s) {
        assert After(dev, p, end, firstOnly, s, n) == After(dev, p, end, firstOnly, t, n - 1);
      }
    }
  }

  lemma StuckIsRunning(dev: S.Device, p: IdaPattern, end: U64, firstOnly: bool, s: Scan)
    requires WellFormed(p) && 1 < |p.bytes| <= CHUNK && |p.bytes| - 1 <= end
    ensures Running(Stuck(dev, p, end, firstOnly, s), end)
  {
  }

  lemma StuckHere(dev: S.Device, p: IdaPattern, end: U64, firstOnly: bool, s: Scan)
    requires WellFormed(p) && 1 < |p.bytes| <= CHUNK && |p.bytes| - 1 <= end
    requires s.current == end - (|p.bytes| - 1) && !s.returned
    ensures Stuck(dev, p, end, firstOnly, s) == s
  {
    hide StoppingScan;
    NothingToScan(dev, p, s.current, end, firstOnly);
    assert s.results + [] == s.results;
  }

  /** One run of the loop body moves on and keeps where the loop ends up. */
  lemma StuckOfStep(dev: S.Device, p: IdaPattern, start: U64, image: seq<Byte>, firstOnly: bool, s: Scan)
    requires WellFormed(p) && 1 < |p.bytes| <= CHUNK
    requires start + |image| < TWO_64 && S.FullReads(dev, start, image)
    requires start <= s.current < start + |image| - (|p.bytes| - 1) && !s.returned
    requires firstOnly ==> StoppingScan(dev, p, s.current, start + |image|, true) == []
    ensures var end := start + |image|;
      var t := Step(dev, p, end, firstOnly, s);
      && s.current < t.current <= end - (|p.bytes| - 1) && !t.returned
      && (firstOnly ==> StoppingScan(dev, p, t.current, end, true) == [])
      && Stuck(dev, p, end, firstOnly, t) == Stuck(dev, p, end, firstOnly, s)
  {
    hide StoppingScan, ChunkHits, NextStart, S.FullReads;
    var end := start + |image|;
    StoppingUnfolds(dev, p, s.current, end, firstOnly, []);
    StoppingUnfolds(dev, p, s.current, end, firstOnly, s.results);
    ChunkTiles(dev, p, start, image, s.current - start);
    NextStartOnFullReads(dev, p, start, image, s.current - start);
  }

  lemma NextStartOnFullReads(dev: S.Device, p: IdaPattern, start: U64, image: seq<Byte>, q: nat)
    requires 1 < |p.bytes| <= CHUNK && q + |p.bytes| - 1 <= |image| && q < |image|
    requires start + |image| < TWO_64 && S.FullReads(dev, start, image)
    ensures var size := ChunkSize(start + q, start + |image|);
      NextStart(dev, p, start + q, start + |image|) == start + q + size - (|p.bytes| - 1)
  {
    var size := ChunkSize(start + q, start + |image|);
    S.FullChunk(dev, start, image, q, size);
  }

  lemma StuckStep(dev: S.Device, p: IdaPattern, start: U64, image: seq<Byte>, firstOnly: bool, s: Scan)
    requires WellFormed(p) && 1 < |p.bytes| <= CHUNK && |p.bytes| - 1 <= |image|
    requires start + |image| < TWO_64 && S.FullReads(dev, start, image)
    requires s.current == start + |image| - (|p.bytes| - 1) && !s.returned
    ensures Step(dev, p, start + |image|, firstOnly, s) == s
  {
    var end := start + |image|;
    hide NextStart, ChunkHits;
    NextStartOnFullReads(dev, p, start, image, s.current - start);
    StepWithTooFewLeft(dev, p, end, firstOnly, s);
  }

  lemma {:induction false} StuckStays(dev: S.Device, p: IdaPattern, end: U64, firstOnly: bool, s: Scan, n: nat)
    requires WellFormed(p) && 0 < |p.bytes| && Running(s, end) && Step(dev, p, end, firstOnly, s) == s
    ensures After(dev, p, end, firstOnly, s, n) == s
    decreases n
  {
    hide Step;
    if n > 0 {
      StuckStays(dev, p, end, firstOnly, s, n - 1);
    }
  }

  /** A loop that has exited stays as it is. */
  lemma {:induction false} ExitedStays(dev: S.Device, p: IdaPattern, end: U64, firstOnly: bool, s: Scan, n: nat, m: nat)
    requires WellFormed(p) && 0 < |p.bytes| && n <= m
    requires ExitedAfter(dev, p, end, firstOnly, s, n)
    ensures After(dev, p, end, firstOnly, s, m) == After(dev, p, end, firstOnly, s, n)
    decreases n
  {
    hide Step;
    if n > 0 && Running(s, end) {
      ExitedStays(dev, p, end, firstOnly, Step(dev, p, end, firstOnly, s), n - 1, m - 1);
    }
  }

  /** Exiting, seen from one round later. */
  lemma ExitsOfStep(dev: S.Device, p: IdaPattern, end: U64, firstOnly: bool, s: Scan, t: Scan)
    requires WellFormed(p) && 0 < |p.bytes| && Running(s, end) && t == Step(dev, p, end, firstOnly, s)
    ensures Exits(dev, p, end, firstOnly, s) <==> Exits(dev, p, end, firstOnly, t)
  {
    hide Step;
    forall n: nat | ExitedAfter(dev, p, end, firstOnly, s, n) ensures ExitedAfter(dev, p, end, firstOnly, t, n - 1) {
    }
    forall n: nat | ExitedAfter(dev, p, end, firstOnly, t, n) ensures ExitedAfter(dev, p, end, firstOnly, s, n + 1) {
    }
  }

  lemma ExitsAtOnce(dev: S.Device, p: IdaPattern, end: U64, firstOnly: bool, s: Scan)
    requires WellFormed(p) && 0 < |p.bytes| && !Running(s, end)
    ensures Exits(dev, p, end, firstOnly, s)
  {
    assert ExitedAfter(dev, p, end, firstOnly, s, 0);
  }

  /** On every device: one-byte patterns make the loop exit, and so does a match in first-match mode. */
  lemma {:induction false} LoopExits(dev: S.Device, p: IdaPattern, end: U64, firstOnly: bool, s: Scan)
    requires WellFormed(p) && 0 < |p.bytes| <= CHUNK && !s.returned
    requires |p.bytes| == 1 || (firstOnly && StoppingScan(dev, p, s.current, end, true) != [])
    ensures Exits(dev, p, end, firstOnly, s)
    decreases end - s.current
  {
    hide StoppingScan, ChunkHits, NextStart, Exits;
    if !Running(s, end) {
      ExitsAtOnce(dev, p, end, firstOnly, s);
    } else {
      var t := Step(dev, p, end, firstOnly, s);
      StoppingUnfolds(dev, p, s.current, end, firstOnly, []);
      ExitsOfStep(dev, p, end, firstOnly, s, t);
      if t.returned {
        ExitsAtOnce(dev, p, end, firstOnly, t);
      } else {
        NextStartAdvances(dev, p, s.current, end);
        LoopExits(dev, p, end, firstOnly, t);
      }
    }
  }

  /** On full reads of a range at most one byte shorter than the pattern, exactly when the loop as written exits: on
      an empty range, for a one-byte pattern, and in first-match mode when there is a match. */
  lemma ExitsExactly(dev: S.Device, p: IdaPattern, start: U64, image: seq<Byte>, firstOnly: bool)
    requires WellFormed(p) && 0 < |p.bytes| <= CHUNK && |p.bytes| - 1 <= |image|
    requires start + |image| < TWO_64 && S.FullReads(dev, start, image)
    ensures Exits(dev, p, start + |image|, firstOnly, Scan(start, [], false)) <==>
      |image| == 0 || |p.bytes| == 1 || (firstOnly && exists i: nat :: MatchesAt(p, image, i))
  {
    hide StoppingScan, MatchesAt, S.FullReads, After;
    var end, s := start + |image|, Scan(start, [], false);
    if |image| == 0 {
      ExitsAtOnce(dev, p, end, firstOnly, s);
    } else {
      FirstModeFindsMatch(dev, p, start, image);
      if |p.bytes| == 1 || (firstOnly && exists i: nat :: MatchesAt(p, image, i)) {
        LoopExits(dev, p, end, firstOnly, s);
      } else {
        var k := LoopSticks(dev, p, start, image, firstOnly, s);
        forall n: nat ensures !ExitedAfter(dev, p, end, firstOnly, s, n) {
          var m := if n < k then k else n;
          if ExitedAfter(dev, p, end, firstOnly, s, n) {
            ExitedStays(dev, p, end, firstOnly, s, n, m);
          }
        }
      }
    }
  }

  lemma FirstModeFindsMatch(dev: S.Device, p: IdaPattern, start: U64, image: seq<Byte>)
    requires WellFormed(p) && 0 < |p.bytes| <= CHUNK
    requires start + |image| < TWO_64 && S.FullReads(dev, start, image)
    ensures StoppingScan(dev, p, start, start + |image|, true) != [] <==> exists i: nat :: MatchesAt(p, image, i)
  {
    hide StoppingScan, S.FullReads;
    OverlappedScanIsExact(dev, p, start, image);
    var all := StoppingScan(dev, p, start, start + |image|, false);
    if i: nat :| MatchesAt(p, image, i) {
      var a: U64 := start + i;
      assert a - start == i && a in all;
    }
    if all != [] {
      assert all[0] in all;
      assert MatchesAt(p, image, all[0] - start);
    }
  }

  // ---------------------------------------------------------------- ranges shorter than the pattern

  /** The chunk to be read next, if any, does not start below the range. */
  predicate ReadsInside(s: Scan, start: U64, end: U64) {
    Running(s, end) ==> start <= s.current
  }

  ghost predicate StaysInside(dev: S.Device, p: IdaPattern, start: U64, end: U64, firstOnly: bool, s: Scan)
    requires WellFormed(p) && 0 < |p.bytes|
  {
    forall n: nat :: ReadsInside(After(dev, p, end, firstOnly, s, n), start, end)
  }

  lemma StepStaysInside(dev: S.Device, p: IdaPattern, start: U64, end: U64, firstOnly: bool, s: Scan)
    requires WellFormed(p) && 0 < |p.bytes| <= CHUNK && Running(s, end) && start <= s.current
    requires end - start >= |p.bytes| - 1
    ensures start <= Step(dev, p, end, firstOnly, s).current
  {
    hide ChunkHits;
  }

  lemma {:induction false} LongRangeIsKept(dev: S.Device, p: IdaPattern, start: U64, end: U64,
                                           firstOnly: bool, s: Scan, n: nat)
    requires WellFormed(p) && 0 < |p.bytes| <= CHUNK && start <= s.current
    requires start >= end || end - start >= |p.bytes| - 1
    ensures start <= After(dev, p, end, firstOnly, s, n).current
    decreases n
  {
    hide Step;
    if n > 0 && Running(s, end) {
      StepStaysInside(dev, p, start, end, firstOnly, s);
      LongRangeIsKept(dev, p, start, end, firstOnly, Step(dev, p, end, firstOnly, s), n - 1);
    }
  }

  /** In a range too short for the pattern by two bytes or more, a read that delivers anything makes the loop step
      back to one byte short of the pattern from the end, in wrapping arithmetic. */
  lemma StepOnShortRange(dev: S.Device, p: IdaPattern, end: U64, firstOnly: bool, s: Scan)
    requires WellFormed(p) && 0 < |p.bytes| <= CHUNK && Running(s, end) && end - s.current < |p.bytes|
    ensures Step(dev, p, end, firstOnly, s) ==
      Scan(if S.Delivered(dev, s.current, end - s.current) == [] then end else (end - (|p.bytes| - 1)) % TWO_64,
           s.results, false)
  {
    hide ChunkHits;
    StepWithTooFewLeft(dev, p, end, firstOnly, s);
  }

  /** Exactly when the loop as written reads only inside its range: when the range is at most one byte shorter than
      the pattern or empty, or its one read delivers nothing, or stepping back wraps past the end. */
  lemma StaysInsideExactly(dev: S.Device, p: IdaPattern, start: U64, end: U64, firstOnly: bool)
    requires WellFormed(p) && 0 < |p.bytes| <= CHUNK
    ensures StaysInside(dev, p, start, end, firstOnly, Scan(start, [], false)) <==>
      start >= end || end - start >= |p.bytes| - 1 || end < |p.bytes| - 1
      || S.Delivered(dev, start, end - start) == []
  {
    hide Step, S.Delivered;
    var s := Scan(start, [], false);
    if start >= end || end - start >= |p.bytes| - 1 {
      forall n: nat ensures ReadsInside(After(dev, p, end, firstOnly, s, n), start, end) {
        LongRangeIsKept(dev, p, start, end, firstOnly, s, n);
      }
    } else {
      StepOnShortRange(dev, p, end, firstOnly, s);
      var t := Step(dev, p, end, firstOnly, s);
      assert After(dev, p, end, firstOnly, s, 1) == After(dev, p, end, firstOnly, t, 0) == t;
      if !Running(t, end) {
        forall n: nat ensures ReadsInside(After(dev, p, end, firstOnly, s, n), start, end) {
          if n > 0 {
            ExitedStays(dev, p, end, firstOnly, s, 1, n);
          }
        }
      } else {
        assert !ReadsInside(After(dev, p, end, firstOnly, s, 1), start, end);
      }
    }
  }

  /** Exactly when the loop as written exits on such a short range, on any device. */
  lemma ShortRangeExitsExactly(dev: S.Device, p: IdaPattern, start: U64, end: U64, firstOnly: bool)
    requires WellFormed(p) && 0 < |p.bytes| <= CHUNK && start < end && end - start < |p.bytes| - 1
    ensures Exits(dev, p, end, firstOnly, Scan(start, [], false)) <==>
      end < |p.bytes| - 1
      || S.Delivered(dev, start, end - start) == []
      || S.Delivered(dev, end - (|p.bytes| - 1), |p.bytes| - 1) == []
  {
    hide Step, S.Delivered, After;
    var s := Scan(start, [], false);
    var t := Step(dev, p, end, firstOnly, s);
    StepOnShortRange(dev, p, end, firstOnly, s);
    ExitsOfStep(dev, p, end, firstOnly, s, t);
    if !Running(t, end) {
      ExitsAtOnce(dev, p, end, firstOnly, t);
    } else {
      var u := Step(dev, p, end, firstOnly, t);
      StepOnShortRange(dev, p, end, firstOnly, t);
      if u == t {
        forall n: nat ensures !ExitedAfter(dev, p, end, firstOnly, t, n) {
          StuckStays(dev, p, end, firstOnly, t, n);
        }
      } else {
        ExitsOfStep(dev, p, end, firstOnly, t, u);
        ExitsAtOnce(dev, p, end, firstOnly, u);
      }
    }
  }
}
