/** The overlapped scan on any device: where its chunks start, what it lists, and what failed and short reads cost. */
module OverlappedChunks {
  import opened Common
  import S = SignatureScan
  import opened EnhancedScanner

  /** The bytes asked for by the chunk at `current`: 1 MB, or what is left. */
  function Asked(current: int, end: int): int {
    Min(0x10_0000, end - current)
  }

  /** Where the k-th chunk starts. Behind a failed read the next chunk starts where that read ended, otherwise one
      byte less than the pattern before; with too few bytes left nothing moves any more. */
  function ChunkStart(dev: S.Device, m: nat, start: U64, end: U64, k: nat): (c: U64)
    requires 0 < m <= CHUNK && start <= end
    ensures start <= c <= end
    decreases k
  {
    if k == 0 then start
    else
      var c := ChunkStart(dev, m, start, end, k - 1);
      if end - c < m then c
      else if S.Delivered(dev, c, Asked(c, end)) == [] then c + Asked(c, end)
      else c + Asked(c, end) - (m - 1)
  }

  /** The k-th chunk is long enough for the pattern, and what it delivered matches at address `a`. */
  predicate ListedIn(dev: S.Device, p: IdaPattern, start: U64, end: U64, k: nat, a: U64)
    requires WellFormed(p) && 0 < |p.bytes| <= CHUNK && start <= end
  {
    var c := ChunkStart(dev, |p.bytes|, start, end, k);
    c + |p.bytes| <= end && MatchesAt(p, S.Delivered(dev, c, Asked(c, end)), a - c)
  }

  // ---------------------------------------------------------------- one chunk

  /** A failed read costs its own bytes and nothing else: the scan is the scan of what lies behind them. */
  lemma FailedReadIsSkipped(dev: S.Device, p: IdaPattern, current: U64, end: U64, firstOnly: bool)
    requires WellFormed(p) && 0 < |p.bytes| <= CHUNK && current < end
    requires S.Delivered(dev, current, Asked(current, end)) == []
    ensures StoppingScan(dev, p, current, end, firstOnly) ==
            StoppingScan(dev, p, current + Asked(current, end), end, firstOnly)
  {
    hide S.Delivered;
    if end - current >= |p.bytes| {
      assert ChunkHits(dev, p, current, end, firstOnly) == [];
      var rest := StoppingScan(dev, p, current + Asked(current, end), end, firstOnly);
      assert [] + rest == rest;
    }
  }

  /** What one chunk adds: the addresses where its data matches, in ascending order. */
  lemma HitsOfChunk(dev: S.Device, p: IdaPattern, c: U64, end: U64)
    requires WellFormed(p) && 0 < |p.bytes| <= CHUNK && c < end
    ensures var hits := ChunkHits(dev, p, c, end, false);
      && (forall a: U64 :: a in hits <==> MatchesAt(p, S.Delivered(dev, c, Asked(c, end)), a - c))
      && (forall i, j :: 0 <= i < j < |hits| ==> hits[i] < hits[j])
  {
    hide MatchesAt, S.Delivered, BufferOffsets;
    var data := S.Delivered(dev, c, Asked(c, end));
    var hits, offsets := ChunkHits(dev, p, c, end, false), BufferOffsets(p, data);
    assert hits == Addresses(c, offsets);
    OffsetsOfBuffer(p, data);
    forall i: nat | i < |offsets| ensures offsets[i] + |p.bytes| <= |data| {
      assert offsets[i] in offsets;
    }
    AddressesAreShifted(c, offsets, |data|);
    forall a: U64 ensures a in hits <==> MatchesAt(p, data, a - c) {
      if MatchesAt(p, data, a - c) {
        MatchIsInside(p, data, a - c);
      }
    }
  }

  lemma AddressesAreShifted(c: U64, offsets: seq<nat>, n: nat)
    requires c + n < TWO_64 && forall i :: 0 <= i < |offsets| ==> offsets[i] < n
    ensures var hits := Addresses(c, offsets);
      && |hits| == |offsets| && (forall i :: 0 <= i < |hits| ==> hits[i] == c + offsets[i])
      && (forall a: U64 :: a in hits <==> a >= c && a - c in offsets)
  {
    var hits := Addresses(c, offsets);
    forall a: U64 | a >= c && a - c in offsets ensures a in hits {
      var i :| 0 <= i < |offsets| && offsets[i] == a - c;
      assert hits[i] == a;
    }
  }

  lemma MatchIsInside(p: IdaPattern, data: seq<Byte>, i: int)
    requires WellFormed(p) && MatchesAt(p, data, i)
    ensures 0 <= i && i + |p.bytes| <= |data|
  {
  }

  lemma OffsetsOfBuffer(p: IdaPattern, data: seq<Byte>)
    requires WellFormed(p)
    ensures var offsets := BufferOffsets(p, data);
      && (forall i: nat :: i in offsets <==> MatchesAt(p, data, i))
      && (forall i: nat :: i in offsets ==> i + |p.bytes| <= |data|)
      && (forall i, j :: 0 <= i < j < |offsets| ==> offsets[i] < offsets[j])
  {
    hide Offsets;
    if |data| >= |p.bytes| {
      OffsetsAreMatches(p, data, 0, |data| - |p.bytes| + 1);
    }
  }

  // ---------------------------------------------------------------- all chunks

  /** The chunks of a scan, but for the first, are the chunks of the scan from the second on. */
  lemma {:induction false} ChunksShift(dev: S.Device, m: nat, start: U64, end: U64, k: nat)
    requires 0 < m <= CHUNK && start <= end
    ensures ChunkStart(dev, m, start, end, k + 1) ==
            ChunkStart(dev, m, ChunkStart(dev, m, start, end, 1), end, k)
    decreases k
  {
    hide S.Delivered, Asked;
    if k > 0 {
      ChunksShift(dev, m, start, end, k - 1);
    }
  }

  /** The second chunk is where the loop goes next. */
  lemma SecondChunk(dev: S.Device, p: IdaPattern, start: U64, end: U64)
    requires WellFormed(p) && 0 < |p.bytes| <= CHUNK && start < end && |p.bytes| <= end - start
    ensures ChunkStart(dev, |p.bytes|, start, end, 1) == NextStart(dev, p, start, end)
    ensures start < NextStart(dev, p, start, end) <= end
  {
    hide S.Delivered;
    assert ChunkStart(dev, |p.bytes|, start, end, 0) == start;
  }

  lemma {:induction false} ChunksStay(dev: S.Device, m: nat, start: U64, end: U64, k: nat)
    requires 0 < m <= CHUNK && start <= end && end - start < m
    ensures ChunkStart(dev, m, start, end, k) == start
    decreases k
  {
    hide S.Delivered, Asked;
    if k > 0 {
      ChunksStay(dev, m, start, end, k - 1);
    }
  }

  lemma ListedInFirst(dev: S.Device, p: IdaPattern, start: U64, end: U64, a: U64)
    requires WellFormed(p) && 0 < |p.bytes| <= CHUNK && start < end && |p.bytes| <= end - start
    ensures ListedIn(dev, p, start, end, 0, a) <==> a in ChunkHits(dev, p, start, end, false)
  {
    hide MatchesAt, ChunkHits;
    HitsOfChunk(dev, p, start, end);
  }

  lemma ListedInLater(dev: S.Device, p: IdaPattern, start: U64, end: U64, k: nat, a: U64)
    requires WellFormed(p) && 0 < |p.bytes| <= CHUNK && start < end && |p.bytes| <= end - start
    ensures ListedIn(dev, p, start, end, k + 1, a) <==> ListedIn(dev, p, NextStart(dev, p, start, end), end, k, a)
  {
    hide MatchesAt, NextStart, ChunkStart;
    SecondChunk(dev, p, start, end);
    ChunksShift(dev, |p.bytes|, start, end, k);
  }

  ghost predicate Listed(dev: S.Device, p: IdaPattern, start: U64, end: U64, a: U64)
    requires WellFormed(p) && 0 < |p.bytes| <= CHUNK && start <= end
  {
    exists k: nat :: ListedIn(dev, p, start, end, k, a)
  }

  lemma ListedUnfolds(dev: S.Device, p: IdaPattern, start: U64, end: U64, a: U64)
    requires WellFormed(p) && 0 < |p.bytes| <= CHUNK && start < end && |p.bytes| <= end - start
    ensures NextStart(dev, p, start, end) <= end
    ensures Listed(dev, p, start, end, a) <==>
      a in ChunkHits(dev, p, start, end, false) || Listed(dev, p, NextStart(dev, p, start, end), end, a)
  {
    hide ListedIn, NextStart, ChunkHits;
    SecondChunk(dev, p, start, end);
    var next := NextStart(dev, p, start, end);
    ListedInFirst(dev, p, start, end, a);
    if k: nat :| ListedIn(dev, p, start, end, k, a) {
      if k > 0 {
        ListedInLater(dev, p, start, end, k - 1, a);
      }
    }
    if k: nat :| ListedIn(dev, p, next, end, k, a) {
      ListedInLater(dev, p, start, end, k, a);
    }
  }

  lemma NotListed(dev: S.Device, p: IdaPattern, start: U64, end: U64, a: U64)
    requires WellFormed(p) && 0 < |p.bytes| <= CHUNK && start <= end && end - start < |p.bytes|
    ensures !Listed(dev, p, start, end, a)
  {
    hide ChunkStart, MatchesAt;
    forall k: nat ensures !ListedIn(dev, p, start, end, k, a) {
      ChunksStay(dev, |p.bytes|, start, end, k);
    }
  }

  lemma ListedIsBehind(dev: S.Device, p: IdaPattern, start: U64, end: U64, a: U64)
    requires WellFormed(p) && 0 < |p.bytes| <= CHUNK && start <= end && Listed(dev, p, start, end, a)
    ensures start <= a
  {
    hide ChunkStart, S.Delivered;
  }

  /** All hits of one chunk lie before the next chunk. */
  lemma HitsBeforeNext(dev: S.Device, p: IdaPattern, start: U64, end: U64, a: U64)
    requires WellFormed(p) && 0 < |p.bytes| <= CHUNK && start < end && |p.bytes| <= end - start
    requires a in ChunkHits(dev, p, start, end, false)
    ensures a < NextStart(dev, p, start, end)
  {
    hide ChunkHits;
    HitsOfChunk(dev, p, start, end);
    MatchIsInside(p, S.Delivered(dev, start, Asked(start, end)), a - start);
  }

  ghost predicate ListsExactly(dev: S.Device, p: IdaPattern, start: U64, end: U64, all: seq<U64>)
    requires WellFormed(p) && 0 < |p.bytes| <= CHUNK && start <= end
  {
    && (forall a: U64 :: a in all <==> Listed(dev, p, start, end, a))
    && (forall i, j :: 0 <= i < j < |all| ==> all[i] < all[j])
  }

  lemma ListsJoin(dev: S.Device, p: IdaPattern, start: U64, end: U64, hits: seq<U64>, rest: seq<U64>)
    requires WellFormed(p) && 0 < |p.bytes| <= CHUNK && start < end && |p.bytes| <= end - start
    requires hits == ChunkHits(dev, p, start, end, false)
    requires start < NextStart(dev, p, start, end) <= end
    requires ListsExactly(dev, p, NextStart(dev, p, start, end), end, rest)
    ensures ListsExactly(dev, p, start, end, hits + rest)
  {
    hide Listed, NextStart, ChunkHits, MatchesAt;
    var next, all := NextStart(dev, p, start, end), hits + rest;
    HitsOfChunk(dev, p, start, end);
    forall a: U64 ensures a in all <==> Listed(dev, p, start, end, a) {
      ListedUnfolds(dev, p, start, end, a);
    }
    forall i, j | 0 <= i < j < |all| ensures all[i] < all[j] {
      if i < |hits| <= j {
        assert hits[i] in hits && rest[j - |hits|] in rest;
        HitsBeforeNext(dev, p, start, end, hits[i]);
        ListedIsBehind(dev, p, next, end, rest[j - |hits|]);
      }
    }
  }

  lemma {:induction false} StoppingListsExactly(dev: S.Device, p: IdaPattern, start: U64, end: U64)
    requires WellFormed(p) && 0 < |p.bytes| <= CHUNK && start <= end
    ensures ListsExactly(dev, p, start, end, StoppingScan(dev, p, start, end, false))
    decreases end - start
  {
    hide ListsExactly, NextStart, ChunkHits, StoppingScan;
    if end - start < |p.bytes| {
      NothingToScan(dev, p, start, end, false);
      NothingListedExactly(dev, p, start, end);
    } else {
      SecondChunk(dev, p, start, end);
      StoppingListsExactly(dev, p, NextStart(dev, p, start, end), end);
      StoppingUnfoldsAll(dev, p, start, end);
      ListsJoin(dev, p, start, end, ChunkHits(dev, p, start, end, false),
                StoppingScan(dev, p, NextStart(dev, p, start, end), end, false));
    }
  }

  lemma NothingListedExactly(dev: S.Device, p: IdaPattern, start: U64, end: U64)
    requires WellFormed(p) && 0 < |p.bytes| <= CHUNK && start <= end && end - start < |p.bytes|
    ensures ListsExactly(dev, p, start, end, [])
  {
    hide Listed;
    forall a: U64 ensures !Listed(dev, p, start, end, a) {
      NotListed(dev, p, start, end, a);
    }
  }

  /** On every device: an address is listed exactly when the pattern matches there in what some chunk delivered;
      each address is listed once, in ascending order; and first-match mode lists the least one, if there is one. */
  lemma ScanListsExactly(dev: S.Device, p: IdaPattern, start: U64, end: U64)
    requires WellFormed(p) && 0 < |p.bytes| <= CHUNK && start <= end
    ensures var all := StoppingScan(dev, p, start, end, false);
      && (forall a: U64 :: a in all <==> exists k: nat :: ListedIn(dev, p, start, end, k, a))
      && (forall i, j :: 0 <= i < j < |all| ==> all[i] < all[j])
      && StoppingScan(dev, p, start, end, true) == if all == [] then [] else [all[0]]
  {
    hide StoppingScan, ListedIn;
    StoppingListsExactly(dev, p, start, end);
    FirstModeIsHead(dev, p, start, end);
  }

  // ---------------------------------------------------------------- reads that fail or deliver everything

  /** Every read inside the range fails or delivers exactly the bytes of `image`. */
  ghost predicate FailsOrDelivers(dev: S.Device, start: U64, image: seq<Byte>)
    requires start + |image| < TWO_64
  {
    forall q: nat, n: nat :: q + n <= |image| ==>
      S.Delivered(dev, start + q, n) == [] || S.Delivered(dev, start + q, n) == image[q..][..n]
  }

  /** The match at `a` lies wholly inside the k-th chunk, which was delivered. */
  predicate InsideDelivered(dev: S.Device, p: IdaPattern, start: U64, image: seq<Byte>, k: nat, a: U64)
    requires WellFormed(p) && 0 < |p.bytes| <= CHUNK && start + |image| < TWO_64
  {
    var end := start + |image|;
    var c := ChunkStart(dev, |p.bytes|, start, end, k);
    && S.Delivered(dev, c, Asked(c, end)) != []
    && c <= a && a + |p.bytes| <= c + Asked(c, end)
    && MatchesAt(p, image, a - start)
  }

  lemma InsideIsListed(dev: S.Device, p: IdaPattern, start: U64, image: seq<Byte>, k: nat, a: U64)
    requires WellFormed(p) && 0 < |p.bytes| <= CHUNK && start + |image| < TWO_64
    requires FailsOrDelivers(dev, start, image)
    ensures ListedIn(dev, p, start, start + |image|, k, a) <==> InsideDelivered(dev, p, start, image, k, a)
  {
    hide MatchesAt, ChunkStart, S.Delivered;
    var end := start + |image|;
    var c := ChunkStart(dev, |p.bytes|, start, end, k);
    var n, data := Asked(c, end), S.Delivered(dev, c, Asked(c, end));
    var q := c - start;
    assert S.Delivered(dev, start + q, n) == [] || S.Delivered(dev, start + q, n) == image[q..][..n];
    if MatchesAt(p, data, a - c) {
      MatchIsInside(p, data, a - c);
    }
    if data != [] && c <= a && a + |p.bytes| <= c + n {
      MatchesInWindow(p, image, q, n, a - c);
    }
  }

  lemma ListedIffInside(dev: S.Device, p: IdaPattern, start: U64, image: seq<Byte>, a: U64)
    requires WellFormed(p) && 0 < |p.bytes| <= CHUNK && start + |image| < TWO_64
    requires FailsOrDelivers(dev, start, image)
    ensures Listed(dev, p, start, start + |image|, a) <==> exists k: nat :: InsideDelivered(dev, p, start, image, k, a)
  {
    hide ListedIn, InsideDelivered, FailsOrDelivers;
    var end := start + |image|;
    if k: nat :| ListedIn(dev, p, start, end, k, a) {
      InsideIsListed(dev, p, start, image, k, a);
    }
    if k: nat :| InsideDelivered(dev, p, start, image, k, a) {
      InsideIsListed(dev, p, start, image, k, a);
    }
  }

  /** On such a device the scan lists exactly the matches that lie wholly inside some delivered chunk. */
  lemma DeliveredMatchesAreListed(dev: S.Device, p: IdaPattern, start: U64, image: seq<Byte>)
    requires WellFormed(p) && 0 < |p.bytes| <= CHUNK && start + |image| < TWO_64
    requires FailsOrDelivers(dev, start, image)
    ensures var all := StoppingScan(dev, p, start, start + |image|, false);
      forall a: U64 :: a in all <==> exists k: nat :: InsideDelivered(dev, p, start, image, k, a)
  {
    hide StoppingScan, Listed, InsideDelivered, FailsOrDelivers;
    var end := start + |image|;
    StoppingListsExactly(dev, p, start, end);
    forall a: U64
      ensures Listed(dev, p, start, end, a) <==> exists k: nat :: InsideDelivered(dev, p, start, image, k, a)
    {
      ListedIffInside(dev, p, start, image, a);
    }
  }
}
