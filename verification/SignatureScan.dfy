/** Scanning an address range for a signature in 4096-byte chunks, with a compiled pattern or with a text. */
module SignatureScan {
  import opened Common
  import opened Text
  import P = SignaturePattern

  const CHUNK := 4096

  /** What the device answers to a read of some bytes at an address: failure, or the bytes it delivered. */
  type Device = (U64, nat) -> Option<seq<Byte>>

  /** The bytes a read leaves in the buffer that count: none on failure, never more than were asked for. */
  function Delivered(dev: Device, address: U64, size: nat): (d: seq<Byte>)
    ensures |d| <= size
  {
    match dev(address, size)
    case None => []
    case Some(d) => if |d| <= size then d else d[..size]
  }

  datatype Read = Read(address: U64, size: nat)

  /** The result of a scan, the reads it issued, and the bytes it scanned. */
  datatype Scan = Scan(found: U64, issued: seq<Read>, scanned: nat)

  /** What a call comes to: a returned address (0 for none), a thrown `invalid_argument`, or a match loop that
      ran past the bytes delivered because its unsigned bound wrapped. */
  datatype Outcome = Returned(address: U64) | Threw | Overran

  predicate ValidProcessId(pid: int) {
    pid != 0 && pid != 4
  }

  /** `first`, and when it found nothing `second` after it. */
  function Sequel(first: Scan, second: Scan): Scan {
    if first.found != 0 then first
    else Scan(second.found, first.issued + second.issued, first.scanned + second.scanned)
  }

  const NOTHING := Scan(0, [], 0)

  lemma SequelOfNothing(s: Scan)
    ensures Sequel(NOTHING, s) == s && Sequel(s, NOTHING) == s
  {
    assert [] + s.issued == s.issued && s.issued + [] == s.issued;
  }

  lemma SequelAssociates(a: Scan, b: Scan, c: Scan)
    ensures Sequel(a, Sequel(b, c)) == Sequel(Sequel(a, b), c)
  {
    assert a.issued + (b.issued + c.issued) == a.issued + b.issued + c.issued;
  }

  /** The scan of one chunk. */
  function OneChunk(dev: Device, p: P.Pattern, current: U64, size: nat): Scan
    requires |p.mask| == |p.bytes|
  {
    var data := Delivered(dev, current, size);
    Scan(P.MatchAddress(p, data, current), [Read(current, size)], |data|)
  }

  /** Chunk after chunk from `current` to `end`, until one finds something. Chunks do not overlap. */
  function ChunkScan(dev: Device, p: P.Pattern, current: U64, end: U64): Scan
    requires |p.mask| == |p.bytes|
    decreases end - current
  {
    if current >= end then NOTHING
    else
      var size := if CHUNK < end - current then CHUNK else end - current;
      Sequel(OneChunk(dev, p, current, size), ChunkScan(dev, p, current + size, end))
  }

  lemma ScanOfNothing(dev: Device, p: P.Pattern, end: U64)
    requires |p.mask| == |p.bytes|
    ensures ChunkScan(dev, p, end, end) == NOTHING
  {
  }

  lemma ScanUnfolds(dev: Device, p: P.Pattern, start: U64, size: nat, end: U64)
    requires |p.mask| == |p.bytes|
    requires start < end && size == (if CHUNK < end - start then CHUNK else end - start)
    ensures ChunkScan(dev, p, start, end) == Sequel(OneChunk(dev, p, start, size), ChunkScan(dev, p, start + size, end))
  {
  }

  /** Three scans in sequence, seen as first-and-rest or as front-and-last. */
  lemma SequelRegroups(first: Scan, middle: Scan, last: Scan, front: Scan, rest: Scan, all: Scan)
    requires all == Sequel(first, rest) && rest == Sequel(middle, last) && front == Sequel(first, middle)
    ensures all == Sequel(front, last)
  {
    SequelAssociates(first, middle, last);
  }

  /** A scan split at a multiple of the chunk size from its start issues the same reads in the same order and
      finds the same address. */
  lemma {:induction false} SplitScan(dev: Device, p: P.Pattern, start: U64, mid: U64, end: U64)
    requires |p.mask| == |p.bytes|
    requires start <= mid <= end && (mid - start) % CHUNK == 0
    ensures ChunkScan(dev, p, start, end) == Sequel(ChunkScan(dev, p, start, mid), ChunkScan(dev, p, mid, end))
    decreases mid - start
  {
    hide ChunkScan, Sequel;
    if start == mid {
      ScanOfNothing(dev, p, start);
      SequelOfNothing(ChunkScan(dev, p, mid, end));
    } else {
      var next := start + CHUNK;
      SplitScan(dev, p, next, mid, end);
      ScanUnfolds(dev, p, start, CHUNK, end);
      ScanUnfolds(dev, p, start, CHUNK, mid);
      SequelRegroups(OneChunk(dev, p, start, CHUNK), ChunkScan(dev, p, next, mid), ChunkScan(dev, p, mid, end),
                     ChunkScan(dev, p, start, mid), ChunkScan(dev, p, next, end), ChunkScan(dev, p, start, end));
    }
  }

  // ---------------------------------------------------------------- the compiled overload

  function CompiledOutcome(dev: Device, p: P.Pattern, start: U64, end: U64, pid: int): (r: Outcome)
    requires |p.mask| == |p.bytes|
    ensures r != Overran
  {
    if start >= end || !ValidProcessId(pid) then Threw else Returned(ChunkScan(dev, p, start, end).found)
  }

  /** The whole scan is what has been done up to `current`, without a hit, and then the rest. */
  ghost predicate ScannedUpTo(dev: Device, p: P.Pattern, start: U64, current: U64, end: U64,
                              issued: seq<Read>, scanned: nat)
    requires |p.mask| == |p.bytes|
  {
    ChunkScan(dev, p, start, end) == Sequel(Scan(0, issued, scanned), ChunkScan(dev, p, current, end))
  }

  lemma ScanAdvances(dev: Device, p: P.Pattern, start: U64, current: U64, size: nat, end: U64,
                     issued: seq<Read>, scanned: nat)
    requires |p.mask| == |p.bytes|
    requires current < end && size == (if CHUNK < end - current then CHUNK else end - current)
    requires ScannedUpTo(dev, p, start, current, end, issued, scanned)
    ensures var data := Delivered(dev, current, size);
      var hit := P.MatchAddress(p, data, current);
      if hit == 0 then ScannedUpTo(dev, p, start, current + size, end, issued + [Read(current, size)], scanned + |data|)
      else ChunkScan(dev, p, start, end) == Scan(hit, issued + [Read(current, size)], scanned + |data|)
  {
    hide ChunkScan;
    ScanUnfolds(dev, p, current, size, end);
    SequelRegroups(Scan(0, issued, scanned), OneChunk(dev, p, current, size), ChunkScan(dev, p, current + size, end),
                   Sequel(Scan(0, issued, scanned), OneChunk(dev, p, current, size)), ChunkScan(dev, p, current, end),
                   ChunkScan(dev, p, start, end));
  }

  lemma ScanEnds(dev: Device, p: P.Pattern, start: U64, end: U64, issued: seq<Read>, scanned: nat)
    requires |p.mask| == |p.bytes|
    ensures ScannedUpTo(dev, p, start, start, end, [], 0)
    ensures ScannedUpTo(dev, p, start, end, end, issued, scanned) ==>
      ChunkScan(dev, p, start, end) == Scan(0, issued, scanned)
  {
    SequelOfNothing(ChunkScan(dev, p, start, end));
    SequelOfNothing(Scan(0, issued, scanned));
  }

  lemma NothingInNothing(p: P.Pattern, address: U64)
    requires |p.mask| == |p.bytes|
    ensures P.MatchAddress(p, [], address) == 0
  {
  }

  method FindSignature(dev: Device, p: P.Pattern, start: U64, end: U64, pid: int)
    returns (r: Outcome, totalScanned: nat, ghost issued: seq<Read>)
    requires |p.mask| == |p.bytes|
    ensures r == CompiledOutcome(dev, p, start, end, pid)
    ensures r.Returned? ==> Scan(r.address, issued, totalScanned) == ChunkScan(dev, p, start, end)
  {
    hide ScannedUpTo, ChunkScan, Sequel, Delivered, P.MatchAddress, P.FirstMatch;
    if start >= end {
      return Threw, 0, [];
    }
    if !ValidProcessId(pid) {
      return Threw, 0, [];
    }
    var current, found: U64 := start, 0;
    totalScanned, issued := 0, [];
    ScanEnds(dev, p, start, end, [], 0);
    while current < end
      invariant start <= current <= end && found == 0
      invariant ScannedUpTo(dev, p, start, current, end, issued, totalScanned)
    {
      var size := if CHUNK < end - current then CHUNK else end - current;
      var data := Delivered(dev, current, size);
      ScanAdvances(dev, p, start, current, size, end, issued, totalScanned);
      issued, totalScanned := issued + [Read(current, size)], totalScanned + |data|;
      NothingInNothing(p, current);
      if |data| > 0 {
        found := P.FindInBuffer(p, data, current);
        if found != 0 {
          break;
        }
      }
      current := current + size;
    }
    ScanEnds(dev, p, start, end, issued, totalScanned);
    r := Returned(found);
  }

  // ---------------------------------------------------------------- the exact specification on full reads

  /** Every read inside the range delivers exactly the bytes of `image`. */
  ghost predicate FullReads(dev: Device, start: U64, image: seq<Byte>) {
    forall a: U64, n: nat :: start <= a && a + n <= start + |image| ==> dev(a, n) == Some(image[a - start..][..n])
  }

  /** The pattern matches at offset `i` and the match does not cross a chunk boundary. */
  predicate MatchInChunk(p: P.Pattern, image: seq<Byte>, i: nat)
    requires |p.mask| == |p.bytes|
  {
    P.MatchesAt(p, image, i) && i % CHUNK + |p.bytes| <= CHUNK
  }

  /** The offsets a scan can report. Address 0 means "not found", so a match at address 0 is not reported and
      hides every other match in the chunk at address 0. */
  predicate Reportable(p: P.Pattern, start: U64, image: seq<Byte>, i: nat)
    requires |p.mask| == |p.bytes|
  {
    MatchInChunk(p, image, i) && !(start == 0 && i < CHUNK && MatchInChunk(p, image, 0))
  }

  lemma ChunkMatches(p: P.Pattern, image: seq<Byte>, q: nat, n: nat, k: nat)
    requires P.Compiled(p)
    requires q % CHUNK == 0 && q < |image| && n == (if CHUNK < |image| - q then CHUNK else |image| - q)
    ensures P.MatchesAt(p, image[q..][..n], k) <==> k < CHUNK && MatchInChunk(p, image, q + k)
  {
    var data := image[q..][..n];
    if k + |p.bytes| <= n {
      assert (q + k) % CHUNK == k;
      forall j | 0 <= j < |p.bytes| && p.mask[j] == P.EXACT ensures data[k + j] == image[q + k + j] {
      }
    } else if k < CHUNK {
      assert (q + k) % CHUNK == k;
    }
  }

  /** `r` is the least reportable address at or after offset `q`, or 0 when there is none. */
  ghost predicate ReportsFrom(p: P.Pattern, start: U64, image: seq<Byte>, q: nat, r: U64)
    requires |p.mask| == |p.bytes|
  {
    && (r == 0 ==> forall i: nat :: q <= i ==> !Reportable(p, start, image, i))
    && (r != 0 ==> r >= start + q && Reportable(p, start, image, r - start)
                   && forall i: nat :: q <= i < r - start ==> !Reportable(p, start, image, i))
  }

  /** What one chunk contributes: `hit` is the least reportable address in it, or 0. */
  lemma FirstInChunk(p: P.Pattern, image: seq<Byte>, q: nat, n: nat)
    requires P.Compiled(p)
    requires q % CHUNK == 0 && q < |image| && n == (if CHUNK < |image| - q then CHUNK else |image| - q)
    ensures var first := P.FirstMatch(p, image[q..][..n], 0);
      && (first.Some? ==> first.value < n && MatchInChunk(p, image, q + first.value))
      && forall i: nat :: q <= i < q + n && (first.None? || i < q + first.value) ==> !MatchInChunk(p, image, i)
  {
    var data := image[q..][..n];
    P.FirstMatchIsFirst(p, data, 0);
    var first := P.FirstMatch(p, data, 0);
    if first.Some? {
      ChunkMatches(p, image, q, n, first.value);
    }
    forall i: nat | q <= i < q + n && (first.None? || i < q + first.value)
      ensures !MatchInChunk(p, image, i)
    {
      ChunkMatches(p, image, q, n, i - q);
    }
  }

  /** What one chunk contributes: the least reportable address in it, or 0. */
  lemma ChunkReports(p: P.Pattern, start: U64, image: seq<Byte>, q: nat, n: nat)
    requires P.Compiled(p)
    requires start + |image| < TWO_64
    requires q % CHUNK == 0 && q < |image| && n == (if CHUNK < |image| - q then CHUNK else |image| - q)
    ensures var hit := P.MatchAddress(p, image[q..][..n], start + q);
      && (hit == 0 ==> forall i: nat :: q <= i < q + n ==> !Reportable(p, start, image, i))
      && (hit != 0 ==> ReportsFrom(p, start, image, q, hit))
  {
    hide P.FirstMatch, MatchInChunk;
    FirstInChunk(p, image, q, n);
    var first := P.FirstMatch(p, image[q..][..n], 0);
    if first.Some? {
      var k := first.value;
      if start + q + k != 0 {
        assert start == 0 && q == 0 ==> !MatchInChunk(p, image, 0);
        assert Reportable(p, start, image, q + k);
      }
    }
  }

  lemma FullChunk(dev: Device, start: U64, image: seq<Byte>, q: nat, n: nat)
    requires start + |image| < TWO_64 && FullReads(dev, start, image)
    requires q + n <= |image|
    ensures Delivered(dev, start + q, n) == image[q..][..n]
  {
    assert start <= start + q && start + q + n <= start + |image|;
    assert dev(start + q, n) == Some(image[start + q - start..][..n]);
  }

  lemma NothingBeyond(p: P.Pattern, start: U64, image: seq<Byte>)
    requires P.Compiled(p)
    ensures ReportsFrom(p, start, image, |image|, 0)
  {
  }

  lemma ReportsStep(p: P.Pattern, start: U64, image: seq<Byte>, q: nat, n: nat, hit: U64, rest: U64)
    requires P.Compiled(p) && start + |image| < TWO_64
    requires q % CHUNK == 0 && q < |image| && n == (if CHUNK < |image| - q then CHUNK else |image| - q)
    requires hit == P.MatchAddress(p, image[q..][..n], start + q)
    requires ReportsFrom(p, start, image, q + n, rest)
    ensures ReportsFrom(p, start, image, q, if hit != 0 then hit else rest)
  {
    ChunkReports(p, start, image, q, n);
  }

  lemma FoundUnfolds(dev: Device, p: P.Pattern, current: U64, size: nat, end: U64)
    requires |p.mask| == |p.bytes|
    requires current < end && size == (if CHUNK < end - current then CHUNK else end - current)
    ensures var hit := P.MatchAddress(p, Delivered(dev, current, size), current);
      ChunkScan(dev, p, current, end).found == if hit != 0 then hit else ChunkScan(dev, p, current + size, end).found
  {
    ScanUnfolds(dev, p, current, size, end);
  }

  lemma {:induction false} ScanFromChunk(dev: Device, p: P.Pattern, start: U64, image: seq<Byte>, q: nat)
    requires P.Compiled(p)
    requires start + |image| < TWO_64 && FullReads(dev, start, image)
    requires q <= |image| && (q % CHUNK == 0 || q == |image|)
    ensures ReportsFrom(p, start, image, q, ChunkScan(dev, p, start + q, start + |image|).found)
    decreases |image| - q
  {
    hide ChunkScan, ReportsFrom, P.MatchAddress;
    if q == |image| {
      ScanOfNothing(dev, p, start + q);
      NothingBeyond(p, start, image);
    } else {
      var n := if CHUNK < |image| - q then CHUNK else |image| - q;
      FullChunk(dev, start, image, q, n);
      FoundUnfolds(dev, p, start + q, n, start + |image|);
      ScanFromChunk(dev, p, start, image, q + n);
      var hit := P.MatchAddress(p, image[q..][..n], start + q);
      ReportsStep(p, start, image, q, n, hit, ChunkScan(dev, p, start + (q + n), start + |image|).found);
    }
  }

  /** With full reads the scan reports the least reportable match, and 0 exactly when there is none. */
  lemma ScanIsExact(dev: Device, p: P.Pattern, start: U64, image: seq<Byte>)
    requires P.Compiled(p)
    requires start + |image| < TWO_64 && FullReads(dev, start, image)
    ensures ReportsFrom(p, start, image, 0, ChunkScan(dev, p, start, start + |image|).found)
  {
    hide ChunkScan, ReportsFrom, P.Compiled, FullReads;
    ScanFromChunk(dev, p, start, image, 0);
    assert start + 0 == start;
  }

  /** Away from address 0 the scan reports the least match lying in one chunk counted from the range start. */
  lemma ScanIsExactAwayFromZero(dev: Device, p: P.Pattern, start: U64, image: seq<Byte>)
    requires P.Compiled(p)
    requires 0 < start && start + |image| < TWO_64 && FullReads(dev, start, image)
    ensures var r := ChunkScan(dev, p, start, start + |image|).found;
      && (r == 0 <==> forall i: nat :: !MatchInChunk(p, image, i))
      && (r != 0 ==> r >= start && MatchInChunk(p, image, r - start)
                     && forall i: nat :: i < r - start ==> !MatchInChunk(p, image, i))
  {
    ScanIsExact(dev, p, start, image);
    forall i: nat ensures Reportable(p, start, image, i) == MatchInChunk(p, image, i) {
    }
  }

  // ---------------------------------------------------------------- the text overload

  /** `std::stoul(token, nullptr, 16)` with a 32-bit `unsigned long`: no value without digits or when out of range. */
  function HexPrefixValue(token: string): Option<nat> {
    match SignedHex(token)
    case None => None
    case Some((negative, value)) =>
      if value >= 0x1_0000_0000 then None
      else if negative then Some((0x1_0000_0000 - value) % 0x1_0000_0000)
      else Some(value)
  }

  function SignatureCell(token: string): Option<P.Cell> {
    if token == "??" || token == "?" || token == "*" then Some(P.Any)
    else match HexPrefixValue(token)
      case None => None
      case Some(v) => Some(P.Exact(v % 0x100))
  }

  /** The cells of a token list; none when some token is invalid. */
  function SignatureCells(tokens: seq<string>): Option<seq<P.Cell>> {
    if tokens == [] then Some([])
    else match SignatureCell(tokens[0])
      case None => None
      case Some(cell) =>
        match SignatureCells(tokens[1..])
        case None => None
        case Some(cells) => Some([cell] + cells)
  }

  lemma SignatureCellsStep(done: seq<P.Cell>, token: string, more: seq<string>)
    ensures Prefixed(done, SignatureCells([token] + more)) ==
            match SignatureCell(token)
            case None => None
            case Some(cell) => Prefixed(done + [cell], SignatureCells(more))
  {
    assert ([token] + more)[1..] == more;
    if SignatureCell(token).Some? && SignatureCells(more).Some? {
      var c, rest := SignatureCell(token).value, SignatureCells(more).value;
      assert done + ([c] + rest) == done + [c] + rest;
    }
  }

  method ParseSignature(signature: string) returns (pattern: Option<seq<P.Cell>>)
    ensures pattern == SignatureCells(Words(signature))
  {
    var cells: seq<P.Cell> := [];
    var rest := signature;
    var next := NextWord(rest);
    PrefixedByNothing(SignatureCells(Words(signature)));
    while next.Some?
      invariant next == NextWord(rest)
      invariant SignatureCells(Words(signature)) == Prefixed(cells, SignatureCells(Words(rest)))
      decreases |rest|
    {
      var token, after := next.value.0, next.value.1;
      SignatureCellsStep(cells, token, Words(after));
      if token == "??" || token == "?" || token == "*" {
        cells := cells + [P.Any];
      } else {
        var value := HexPrefixValue(token);
        if value.None? {
          return None;
        }
        cells := cells + [P.Exact(value.value % 0x100)];
      }
      rest := after;
      next := NextWord(rest);
    }
    assert cells + [] == cells;
    return Some(cells);
  }

  /** A read that delivers something, but fewer bytes than the pattern has. */
  predicate Short(dev: Device, p: P.Pattern, read: Read) {
    0 < |Delivered(dev, read.address, read.size)| < |p.bytes|
  }

  /** The text scan. On a short read the bound `bytes_read - pattern.size()` wraps around, and the match loop
      leaves the bytes delivered. */
  function TextScan(dev: Device, p: P.Pattern, current: U64, end: U64): Outcome
    requires |p.mask| == |p.bytes|
    decreases end - current
  {
    if current >= end then Returned(0)
    else
      var size := if CHUNK < end - current then CHUNK else end - current;
      var hit := P.MatchAddress(p, Delivered(dev, current, size), current);
      if Short(dev, p, Read(current, size)) then Overran
      else if hit != 0 then Returned(hit)
      else TextScan(dev, p, current + size, end)
  }

  function TextOutcome(dev: Device, signature: string, start: U64, end: U64, pid: int): Outcome {
    if start >= end || !ValidProcessId(pid) then Threw
    else match SignatureCells(Words(signature))
      case None => Threw
      case Some(cells) => if cells == [] then Threw else TextScan(dev, P.Encode(cells), start, end)
  }

  method MatchPattern(data: seq<Byte>, i: nat, cells: seq<P.Cell>) returns (matches: bool)
    requires i <= |data|
    ensures matches == P.MatchesAt(P.Encode(cells), data, i)
  {
    if |data| - i < |cells| {
      return false;
    }
    for j := 0 to |cells|
      invariant forall k :: 0 <= k < j && cells[k].Exact? ==> data[i + k] == cells[k].byte
    {
      if cells[j].Exact? {
        if data[i + j] != cells[j].byte {
          assert P.Encode(cells).mask[j] == P.EXACT;
          return false;
        }
      }
    }
    return true;
  }

  /** What the inner loop of the text overload makes of the bytes delivered: its bound wraps, and it overruns them,
      when there are some but fewer than the pattern has. */
  function ChunkOutcome(p: P.Pattern, data: seq<Byte>, current: U64): Outcome
    requires |p.mask| == |p.bytes|
  {
    if 0 < |data| < |p.bytes| then Overran else Returned(P.MatchAddress(p, data, current))
  }

  method FindInChunk(data: seq<Byte>, cells: seq<P.Cell>, current: U64) returns (r: Outcome)
    requires cells != []
    ensures r == ChunkOutcome(P.Encode(cells), data, current)
  {
    if data == [] {
      return Returned(0);
    }
    if |data| < |cells| {
      return Overran;
    }
    var i := 0;
    while i <= |data| - |cells|
      invariant 0 <= i <= |data| - |cells| + 1
      invariant P.FirstMatch(P.Encode(cells), data, 0) == P.FirstMatch(P.Encode(cells), data, i)
    {
      var matches := MatchPattern(data, i, cells);
      if matches {
        return Returned((current + i) % TWO_64);
      }
      i := i + 1;
    }
    return Returned(0);
  }

  method FindSignatureText(dev: Device, signature: string, start: U64, end: U64, pid: int) returns (r: Outcome)
    ensures r == TextOutcome(dev, signature, start, end, pid)
  {
    hide P.MatchAddress, P.FirstMatch, Delivered, HexPrefixValue;
    if start >= end {
      return Threw;
    }
    if !ValidProcessId(pid) {
      return Threw;
    }
    var pattern := ParseSignature(signature);
    if pattern.None? {
      return Threw;
    }
    if pattern.value == [] {
      return Threw;
    }
    var cells := pattern.value;
    ghost var p := P.Encode(cells);
    var current := start;
    while current < end
      invariant start <= current <= end
      invariant TextScan(dev, p, start, end) == TextScan(dev, p, current, end)
    {
      var size := if CHUNK < end - current then CHUNK else end - current;
      var data := Delivered(dev, current, size);
      r := FindInChunk(data, cells, current);
      if r != Returned(0) {
        return;
      }
      current := current + size;
    }
    return Returned(0);
  }

  /** Splitting a text scan at a multiple of the chunk size. */
  lemma {:induction false} SplitTextScan(dev: Device, p: P.Pattern, start: U64, mid: U64, end: U64)
    requires |p.mask| == |p.bytes|
    requires start <= mid <= end && (mid - start) % CHUNK == 0
    ensures TextScan(dev, p, start, end) ==
            if TextScan(dev, p, start, mid) == Returned(0) then TextScan(dev, p, mid, end)
            else TextScan(dev, p, start, mid)
    decreases mid - start
  {
    hide P.MatchAddress, Delivered, Short;
    if start < mid {
      SplitTextScan(dev, p, start + CHUNK, mid, end);
    }
  }

  /** The text scan is the compiled scan, unless one of the reads the compiled scan issues is short. */
  lemma {:induction false} TextScanRefines(dev: Device, p: P.Pattern, start: U64, end: U64)
    requires 0 < |p.bytes| == |p.mask|
    ensures var s := ChunkScan(dev, p, start, end);
      TextScan(dev, p, start, end) ==
        if exists read :: read in s.issued && Short(dev, p, read) then Overran else Returned(s.found)
    decreases end - start
  {
    hide ChunkScan, P.MatchAddress, Delivered, Short;
    if start >= end {
      ScanOfNothingPast(dev, p, start, end);
    } else {
      var size := if CHUNK < end - start then CHUNK else end - start;
      var one, rest := Read(start, size), ChunkScan(dev, p, start + size, end).issued;
      TextScanRefines(dev, p, start + size, end);
      FoundUnfolds(dev, p, start, size, end);
      RefinesStep(dev, p, start, size, end);
      assert forall read :: read in [one] + rest <==> read == one || read in rest;
    }
  }

  lemma ScanOfNothingPast(dev: Device, p: P.Pattern, start: U64, end: U64)
    requires |p.mask| == |p.bytes| && end <= start
    ensures ChunkScan(dev, p, start, end) == NOTHING
  {
  }

  lemma RefinesStep(dev: Device, p: P.Pattern, start: U64, size: nat, end: U64)
    requires 0 < |p.bytes| == |p.mask|
    requires start < end && size == (if CHUNK < end - start then CHUNK else end - start)
    ensures var one, rest := Read(start, size), ChunkScan(dev, p, start + size, end).issued;
      var hit := P.MatchAddress(p, Delivered(dev, start, size), start);
      && ChunkScan(dev, p, start, end).issued == [one] + (if hit != 0 then [] else rest)
      && (hit != 0 ==> !Short(dev, p, one))
  {
    ScanUnfolds(dev, p, start, size, end);
  }

  lemma SameCell(token: string)
    requires P.CellOf(token).Some?
    ensures SignatureCell(token) == P.CellOf(token)
  {
    if token != "?" && token != "??" {
      P.HexNumberOfTwo(token);
      assert HexLength(token) == |token|;
      assert token[..|token|] == token;
    }
  }

  lemma {:induction false} SameCells(tokens: seq<string>)
    requires P.CellsOf(tokens).Ok?
    ensures SignatureCells(tokens) == Some(P.CellsOf(tokens).value)
  {
    if tokens != [] {
      SameCell(tokens[0]);
      SameCells(tokens[1..]);
    }
  }

  /** On every signature the compiler accepts, the text overload returns what the compiled overload returns,
      except that it overruns when a read it issues is short. */
  lemma OverloadsAgree(dev: Device, signature: string, start: U64, end: U64, pid: int)
    requires P.CompiledFrom(signature).Ok?
    ensures var p := P.CompiledFrom(signature).value;
      var text, compiled := TextOutcome(dev, signature, start, end, pid), CompiledOutcome(dev, p, start, end, pid);
      && (compiled == Threw ==> text == Threw)
      && (compiled != Threw ==>
            text == (if exists read :: read in ChunkScan(dev, p, start, end).issued && Short(dev, p, read) then Overran
                     else compiled))
  {
    var p := P.CompiledFrom(signature).value;
    SameCells(Words(signature));
    TextScanRefines(dev, p, start, end);
  }
}
