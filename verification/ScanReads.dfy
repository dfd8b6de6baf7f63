/** Which reads the chunked scan issues on any device, what they count for, and when a scan is refused. */
module ScanReads {
  import opened Common
  import opened Text
  import P = SignaturePattern
  import opened SignatureScan

  /** The k-th read of a range: 4096 bytes, or what is left. */
  function ReadAt(start: U64, end: U64, k: nat): Read
    requires start + 4096 * k < end
  {
    Read(start + 4096 * k, Min(4096, end - start - 4096 * k))
  }

  /** Bytes delivered by the reads together. */
  function TotalDelivered(dev: Device, issued: seq<Read>): nat {
    if issued == [] then 0
    else |Delivered(dev, issued[0].address, issued[0].size)| + TotalDelivered(dev, issued[1..])
  }

  function Hit(dev: Device, p: P.Pattern, read: Read): U64
    requires |p.mask| == |p.bytes|
  {
    P.MatchAddress(p, Delivered(dev, read.address, read.size), read.address)
  }

  /** The reads go through the range in order; all but the last found nothing, what the last found is the result, and
      when it found nothing the range is used up. */
  ghost predicate ReadsInOrder(dev: Device, p: P.Pattern, start: U64, end: U64, s: Scan)
    requires |p.mask| == |p.bytes|
  {
    var issued := s.issued;
    && (forall k: nat :: k < |issued| ==> start + 4096 * k < end && issued[k] == ReadAt(start, end, k))
    && (forall k: nat :: k < |issued| - 1 ==> Hit(dev, p, issued[k]) == 0)
    && s.found == (if issued == [] then 0 else Hit(dev, p, issued[|issued| - 1]))
    && (s.found == 0 ==> start + 4096 * |issued| >= end)
  }

  lemma StepInOrder(dev: Device, p: P.Pattern, start: U64, end: U64, size: nat, rest: Scan)
    requires |p.mask| == |p.bytes| && start < end && size == (if CHUNK < end - start then CHUNK else end - start)
    requires ReadsInOrder(dev, p, start + size, end, rest)
    ensures ReadsInOrder(dev, p, start, end, Sequel(OneChunk(dev, p, start, size), rest))
  {
    hide P.MatchAddress, Delivered;
    var s := Sequel(OneChunk(dev, p, start, size), rest);
    var one := Read(start, size);
    assert s.issued == [one] + if Hit(dev, p, one) != 0 then [] else rest.issued;
    forall k: nat | k < |s.issued| ensures start + 4096 * k < end && s.issued[k] == ReadAt(start, end, k) {
      if k > 0 {
        assert s.issued[k] == rest.issued[k - 1];
      }
    }
    forall k: nat | k < |s.issued| - 1 ensures Hit(dev, p, s.issued[k]) == 0 {
      if k > 0 {
        assert s.issued[k] == rest.issued[k - 1];
      }
    }
  }

  lemma StepCounts(dev: Device, p: P.Pattern, start: U64, size: nat, rest: Scan)
    requires |p.mask| == |p.bytes| && rest.scanned == TotalDelivered(dev, rest.issued)
    ensures var s := Sequel(OneChunk(dev, p, start, size), rest);
      s.scanned == TotalDelivered(dev, s.issued)
  {
    hide P.MatchAddress, Delivered;
    var one := Read(start, size);
    assert [one][1..] == [] && ([one] + rest.issued)[1..] == rest.issued;
  }

  /** On every device: the scan reads the range in chunks of 4096 bytes, one behind the other, up to and including the
      first in which something is found; it reports what that one finds, and the bytes all of them delivered. */
  lemma {:induction false} ReadsAreExact(dev: Device, p: P.Pattern, start: U64, end: U64)
    requires |p.mask| == |p.bytes|
    ensures var s := ChunkScan(dev, p, start, end);
      ReadsInOrder(dev, p, start, end, s) && s.scanned == TotalDelivered(dev, s.issued)
    decreases end - start
  {
    hide ReadsInOrder, TotalDelivered, Sequel, OneChunk, ChunkScan;
    if start >= end {
      ScanOfNothingPast(dev, p, start, end);
      NothingIssued(dev, p, start, end);
    } else {
      var size := if CHUNK < end - start then CHUNK else end - start;
      var rest := ChunkScan(dev, p, start + size, end);
      ReadsAreExact(dev, p, start + size, end);
      ScanUnfolds(dev, p, start, size, end);
      StepInOrder(dev, p, start, end, size, rest);
      StepCounts(dev, p, start, size, rest);
    }
  }

  lemma NothingIssued(dev: Device, p: P.Pattern, start: U64, end: U64)
    requires |p.mask| == |p.bytes| && end <= start
    ensures ReadsInOrder(dev, p, start, end, NOTHING) && TotalDelivered(dev, []) == 0
  {
  }

  /** Exactly when the overloads refuse: an empty range or one of the two reserved process ids; the text overload also
      a text without words or with a word that is neither a wildcard nor a number below 2^32. */
  lemma RefusalsAreExact(dev: Device, p: P.Pattern, signature: string, start: U64, end: U64, pid: int)
    requires |p.mask| == |p.bytes|
    ensures CompiledOutcome(dev, p, start, end, pid) == Threw <==> start >= end || pid in {0, 4}
    ensures TextOutcome(dev, signature, start, end, pid) == Threw <==>
      start >= end || pid in {0, 4} || Words(signature) == [] || exists w :: w in Words(signature) && Unreadable(w)
  {
    hide Words, TextScan, ChunkScan, SignatureCells;
    CellsNeedWords(Words(signature));
    if start < end && ValidProcessId(pid) && SignatureCells(Words(signature)).Some? {
      TextScanReturns(dev, P.Encode(SignatureCells(Words(signature)).value), start, end);
    }
  }

  predicate Unreadable(word: string) {
    word !in {"?", "??", "*"} && (SignedHex(word).None? || SignedHex(word).value.1 >= 0x1_0000_0000)
  }

  lemma {:induction false} CellsNeedWords(words: seq<string>)
    ensures SignatureCells(words).None? <==> exists w :: w in words && Unreadable(w)
    ensures SignatureCells(words).Some? ==> |SignatureCells(words).value| == |words|
    decreases |words|
  {
    hide Unreadable, SignatureCell;
    if words != [] {
      CellsNeedWords(words[1..]);
      CellNeedsWord(words[0]);
      assert forall w :: w in words <==> w == words[0] || w in words[1..];
    }
  }

  lemma CellNeedsWord(word: string)
    ensures SignatureCell(word).None? <==> Unreadable(word)
  {
    hide SignedHex;
  }

  lemma {:induction false} TextScanReturns(dev: Device, p: P.Pattern, start: U64, end: U64)
    requires |p.mask| == |p.bytes|
    ensures TextScan(dev, p, start, end) != Threw
    decreases end - start
  {
    hide P.MatchAddress, Delivered, Short;
    if start < end {
      TextScanReturns(dev, p, start + (if CHUNK < end - start then CHUNK else end - start), end);
    }
  }
}
