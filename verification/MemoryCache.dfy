/** The read cache of src/cache.cpp: entries with a time to live, bounded in bytes, evicted by least use. */
module MemoryCache {
  import opened Common

  const TWO_32: nat := 0x1_0000_0000

  // ---------------------------------------------------------------- keys

  /** Bitwise exclusive or. */
  function Xor(x: nat, y: nat): (z: nat) {
    if x == 0 && y == 0 then 0 else 2 * Xor(x / 2, y / 2) + (x + y) % 2
  }

  function Pow2(k: nat): (p: nat)
    ensures p > 0
  {
    if k == 0 then 1 else 2 * Pow2(k - 1)
  }

  /** `addr ^ (size << 32)` in 64 bits: the upper half of the size is shifted out. */
  function Key(addr: U64, size: nat): nat {
    Xor(addr, (size % TWO_32) * TWO_32)
  }

  /** Exclusive or works bit by bit. */
  lemma XorBits(a: nat, i: nat, b: nat, j: nat)
    requires i < 2 && j < 2
    ensures Xor(2 * a + i, 2 * b + j) == 2 * Xor(a, b) + (i + j) % 2
  {
    var x, y := 2 * a + i, 2 * b + j;
    assert x / 2 == a && y / 2 == b && (x + y) % 2 == (i + j) % 2;
  }

  lemma {:induction false} XorTwice(x: nat, y: nat)
    ensures Xor(Xor(x, y), y) == x
    decreases x + y
  {
    if x != 0 || y != 0 {
      hide Xor;
      XorTwice(x / 2, y / 2);
      XorTwiceBits(x / 2, x % 2, y / 2, y % 2);
    }
  }

  lemma XorTwiceBits(a: nat, i: nat, b: nat, j: nat)
    requires i < 2 && j < 2 && Xor(Xor(a, b), b) == a
    ensures Xor(Xor(2 * a + i, 2 * b + j), 2 * b + j) == 2 * a + i
  {
    hide Xor;
    XorBits(a, i, b, j);
    XorBits(Xor(a, b), (i + j) % 2, b, j);
  }

  lemma {:induction false} XorSwap(x: nat, y: nat)
    ensures Xor(x, y) == Xor(y, x)
    decreases x + y
  {
    if x != 0 || y != 0 {
      XorSwap(x / 2, y / 2);
    }
  }

  /** The lower k bits pass through when only upper bits are combined. */
  lemma {:induction false} XorUpper(h: nat, l: nat, g: nat, k: nat)
    requires l < Pow2(k)
    ensures Xor(h * Pow2(k) + l, g * Pow2(k)) == Xor(h, g) * Pow2(k) + l
    decreases k
  {
    hide Xor;
    if k > 0 {
      var q := Pow2(k - 1);
      XorUpper(h, l / 2, g, k - 1);
      XorBits(h * q + l / 2, l % 2, g * q, 0);
      Doubling(h, q);
      Doubling(g, q);
      Doubling(Xor(h, g), q);
    }
  }

  lemma Doubling(h: nat, q: nat)
    ensures h * (2 * q) == 2 * (h * q)
  {
  }

  lemma Pow2Of32()
    ensures Pow2(32) == TWO_32
  {
    assert Pow2(8) == 0x100;
    assert Pow2(16) == 0x1_0000;
    assert Pow2(24) == 0x100_0000;
  }

  lemma KeyHalves(addr: U64, size: nat)
    ensures Key(addr, size) == Xor(addr / TWO_32, size % TWO_32) * TWO_32 + addr % TWO_32
  {
    Pow2Of32();
    XorUpper(addr / TWO_32, addr % TWO_32, size % TWO_32, 32);
    assert addr == addr / TWO_32 * TWO_32 + addr % TWO_32;
  }

  /** Exactly when two requests share a key. */
  lemma KeysCollide(a: U64, m: nat, b: U64, n: nat)
    ensures Key(a, m) == Key(b, n) <==>
      a % TWO_32 == b % TWO_32 && Xor(a / TWO_32, m % TWO_32) == Xor(b / TWO_32, n % TWO_32)
  {
    KeyHalves(a, m);
    KeyHalves(b, n);
  }

  lemma WindowParts(a: U64, m: nat)
    requires m < TWO_32
    ensures a == a / TWO_32 * TWO_32 + a % TWO_32 && m % TWO_32 == m
  {
  }

  /** Inside one aligned window of 4 GiB, and for sizes below 4 GiB, keys tell requests apart. */
  lemma KeysDifferInWindow(a: U64, m: nat, b: U64, n: nat)
    requires a / TWO_32 == b / TWO_32 && m < TWO_32 && n < TWO_32
    ensures Key(a, m) == Key(b, n) <==> a == b && m == n
  {
    hide Xor, Key;
    KeysCollide(a, m, b, n);
    WindowParts(a, m);
    WindowParts(b, n);
    var w := a / TWO_32;
    XorSwap(w, m);
    XorSwap(w, n);
    XorTwice(m, w);
    XorTwice(n, w);
  }

  // ---------------------------------------------------------------- state

  datatype Entry = Entry(address: U64, data: seq<Byte>, timestamp: nat, hitCount: nat)

  datatype State = Cache(
    entries: map<nat, Entry>,
    maxSize: nat,
    ttl: int,
    enabled: bool,
    currentSize: int,
    hits: nat,
    misses: nat,
    evictions: int)

  function Initial(maxSize: nat, ttl: int): State {
    Cache(map[], maxSize, ttl, true, 0, 0, 0, 0)
  }

  predicate Expired(e: Entry, ttl: int, now: nat) {
    WholeSeconds(e.timestamp, now) > ttl
  }

  lemma ExpiredStays(e: Entry, ttl: int, now: nat, later: nat)
    requires now <= later && Expired(e, ttl, now)
    ensures Expired(e, ttl, later)
  {
  }

  /** The order eviction goes by: fewer hits first, then the older timestamp. */
  predicate LessUsed(e: Entry, f: Entry) {
    if e.hitCount != f.hitCount then e.hitCount < f.hitCount else e.timestamp < f.timestamp
  }

  predicate IsLeastUsed(entries: map<nat, Entry>, k: nat) {
    k in entries && forall j :: j in entries ==> !LessUsed(entries[j], entries[k])
  }

  /** Bytes held by all entries. */
  ghost function Total(entries: map<nat, Entry>): nat
    decreases |entries|
  {
    if entries == map[] then 0
    else
      var k :| k in entries;
      |entries[k].data| + Total(entries - {k})
  }

  lemma {:induction false} TotalWithout(entries: map<nat, Entry>, k: nat)
    requires k in entries
    ensures Total(entries) == |entries[k].data| + Total(entries - {k})
    decreases |entries|
  {
    var j :| j in entries && Total(entries) == |entries[j].data| + Total(entries - {j});
    if j != k {
      TotalWithout(entries - {j}, k);
      TotalWithout(entries - {k}, j);
      assert entries - {j} - {k} == entries - {k} - {j};
    }
  }

  lemma TotalWith(entries: map<nat, Entry>, k: nat, e: Entry)
    ensures Total(entries[k := e]) == |e.data| + Total(entries - {k})
  {
    var larger := entries[k := e];
    TotalWithout(larger, k);
    assert larger - {k} == entries - {k};
  }

  // ---------------------------------------------------------------- the calls

  function GetResult(s: State, addr: U64, size: nat, now: nat): Option<seq<Byte>> {
    var k := Key(addr, size);
    if s.enabled && k in s.entries && !Expired(s.entries[k], s.ttl, now) then Some(s.entries[k].data) else None
  }

  function AfterGet(s: State, addr: U64, size: nat, now: nat): State {
    if !s.enabled then s
    else if GetResult(s, addr, size, now).None? then s.(misses := s.misses + 1)
    else
      var k := Key(addr, size);
      var e := s.entries[k];
      s.(hits := s.hits + 1, entries := s.entries[k := e.(hitCount := e.hitCount + 1)])
  }

  function WithoutEntry(s: State, k: nat): State {
    if k in s.entries then
      s.(entries := s.entries - {k}, currentSize := s.currentSize - |s.entries[k].data|)
    else s
  }

  function EvictOne(s: State, k: nat): State {
    WithoutEntry(s, k).(evictions := s.evictions + 1)
  }

  function EvictAll(s: State, victims: seq<nat>): State {
    if victims == [] then s else EvictOne(EvictAll(s, victims[..|victims| - 1]), victims[|victims| - 1])
  }

  predicate NeedsRoom(s: State, extra: nat) {
    s.currentSize + extra > s.maxSize && s.entries != map[]
  }

  /** The victims, one by one: each was evicted because room was needed, and was a least used entry then. */
  predicate EvictsForRoom(s: State, extra: nat, victims: seq<nat>) {
    if victims == [] then true
    else
      var earlier := victims[..|victims| - 1];
      var before := EvictAll(s, earlier);
      && EvictsForRoom(s, extra, earlier)
      && NeedsRoom(before, extra)
      && IsLeastUsed(before.entries, victims[|victims| - 1])
  }

  /** Evicting until there is room or nothing is left. */
  ghost predicate MakesRoom(s: State, extra: nat, t: State) {
    exists victims :: EvictsForRoom(s, extra, victims) && t == EvictAll(s, victims) && !NeedsRoom(t, extra)
  }

  function Updated(s: State, k: nat, data: seq<Byte>, now: nat): State
    requires k in s.entries
  {
    var e := s.entries[k];
    s.(entries := s.entries[k := Entry(e.address, data, now, 0)],
       currentSize := s.currentSize - |e.data| + |data|)
  }

  function Inserted(s: State, addr: U64, data: seq<Byte>, now: nat): State {
    if |data| > s.maxSize then s
    else
      s.(entries := s.entries[Key(addr, |data|) := Entry(addr, data, now, 0)],
         currentSize := s.currentSize + |data|)
  }

  ghost predicate Puts(s: State, addr: U64, data: seq<Byte>, now: nat, t: State) {
    if !s.enabled then t == s
    else if Key(addr, |data|) in s.entries then t == Updated(s, Key(addr, |data|), data, now)
    else exists room :: MakesRoom(s, |data|, room) && t == Inserted(room, addr, data, now)
  }

  function Others(entries: map<nat, Entry>, addr: U64): map<nat, Entry> {
    map k | k in entries && entries[k].address != addr :: entries[k]
  }

  ghost predicate Invalidates(s: State, addr: U64, t: State) {
    t == s.(entries := Others(s.entries, addr),
            currentSize := s.currentSize - (Total(s.entries) - Total(Others(s.entries, addr))))
  }

  /** Entries expired when the sweep starts go, entries not expired when it ends stay; the clock is read per entry. */
  ghost predicate Sweeps(s: State, start: nat, end: nat, t: State) {
    && t.entries.Keys <= s.entries.Keys
    && (forall k :: k in t.entries ==> t.entries[k] == s.entries[k] && !Expired(s.entries[k], s.ttl, start))
    && (forall k :: k in s.entries && k !in t.entries ==> Expired(s.entries[k], s.ttl, end))
    && t == s.(entries := t.entries,
               currentSize := s.currentSize - (Total(s.entries) - Total(t.entries)),
               evictions := s.evictions + |s.entries| - |t.entries|)
  }

  /** A sweep under way: the entries in `rest` are still to be looked at. */
  ghost predicate Sweeping(s: State, start: nat, end: nat, rest: set<nat>, t: State) {
    && rest <= t.entries.Keys <= s.entries.Keys
    && (forall k :: k in t.entries ==> t.entries[k] == s.entries[k])
    && (forall k :: k in t.entries && k !in rest ==> !Expired(s.entries[k], s.ttl, start))
    && (forall k :: k in s.entries && k !in t.entries ==> Expired(s.entries[k], s.ttl, end))
    && t == s.(entries := t.entries,
               currentSize := s.currentSize - (Total(s.entries) - Total(t.entries)),
               evictions := s.evictions + |s.entries| - |t.entries|)
  }

  lemma SweepStarts(s: State, start: nat, end: nat)
    ensures Sweeping(s, start, end, s.entries.Keys, s)
  {
    hide Expired, Total;
  }

  lemma SweepEnds(s: State, start: nat, end: nat, t: State)
    requires Sweeping(s, start, end, {}, t)
    ensures Sweeps(s, start, end, t)
  {
    hide Expired, Total;
  }

  function AfterLookingAt(s: State, k: nat, now: nat): State
    requires k in s.entries
  {
    if Expired(s.entries[k], s.ttl, now) then EvictOne(s, k) else s
  }

  lemma SweepOne(s: State, start: nat, end: nat, rest: set<nat>, t: State, k: nat, now: nat)
    requires Sweeping(s, start, end, rest, t) && k in rest && start <= now <= end
    ensures rest <= t.entries.Keys && rest - {k} <= AfterLookingAt(t, k, now).entries.Keys
    ensures AfterLookingAt(t, k, now).ttl == t.ttl
    ensures Sweeping(s, start, end, rest - {k}, AfterLookingAt(t, k, now))
  {
    hide Expired, Total;
    if Expired(t.entries[k], s.ttl, now) {
      ExpiredStays(t.entries[k], s.ttl, now, end);
      TotalWithout(t.entries, k);
    } else if Expired(t.entries[k], s.ttl, start) {
      ExpiredStays(t.entries[k], s.ttl, start, now);
    }
  }

  /** An invalidation under way: the entries in `rest` are still to be looked at. */
  ghost predicate Invalidating(s: State, addr: U64, rest: set<nat>, t: State) {
    && (forall k :: k in t.entries && k !in rest ==> t.entries[k].address != addr)
    && Others(t.entries, addr) == Others(s.entries, addr)
    && t == s.(entries := t.entries, currentSize := s.currentSize - (Total(s.entries) - Total(t.entries)))
  }

  lemma InvalidateStarts(s: State, addr: U64)
    ensures Invalidating(s, addr, s.entries.Keys, s)
  {
  }

  lemma InvalidateOne(s: State, addr: U64, rest: set<nat>, t: State, k: nat)
    requires Invalidating(s, addr, rest, t) && k in t.entries
    ensures Invalidating(s, addr, rest - {k}, if t.entries[k].address == addr then WithoutEntry(t, k) else t)
  {
    hide Total;
    if t.entries[k].address == addr {
      TotalWithout(t.entries, k);
      assert Others(t.entries - {k}, addr) == Others(t.entries, addr);
    }
  }

  lemma InvalidateEnds(s: State, addr: U64, t: State)
    requires Invalidating(s, addr, {}, t)
    ensures Invalidates(s, addr, t)
  {
    hide Total;
    assert t.entries == Others(t.entries, addr);
  }

  datatype Call =
    | Get(addr: U64, size: nat)
    | Put(addr: U64, data: seq<Byte>)
    | Invalidate(addr: U64)
    | Clear
    | EvictExpired
    | SetTtl(ttl: int)
    | SetMaxSize(maxSize: nat)
    | SetEnabled(enabled: bool)
    | ResetStatistics

  /** One finished call, the first and last instant at which it read the clock, and what it returned. */
  datatype Event = Event(call: Call, start: nat, end: nat, result: Option<seq<Byte>>)

  ghost predicate Next(s: State, e: Event, t: State) {
    && e.start <= e.end
    && match e.call {
         case Get(addr, size) =>
           e.result == GetResult(s, addr, size, e.start) && t == AfterGet(s, addr, size, e.start)
         case Put(addr, data) => Puts(s, addr, data, e.start, t)
         case Invalidate(addr) => Invalidates(s, addr, t)
         case Clear => t == s.(entries := map[], currentSize := 0)
         case EvictExpired => Sweeps(s, e.start, e.end, t)
         case SetTtl(ttl) => Sweeps(s.(ttl := ttl), e.start, e.end, t)
         case SetMaxSize(maxSize) => MakesRoom(s.(maxSize := maxSize), 0, t)
         case SetEnabled(enabled) => t == s.(enabled := enabled)
         case ResetStatistics => t == s.(hits := 0, misses := 0, evictions := 0)
       }
  }

  class MemoryCache {
    var entries: map<nat, Entry>
    var maxSize: nat
    var ttl: int
    var enabled: bool
    var currentSize: int
    var hits: nat
    var misses: nat
    var evictions: int

    function Current(): State
      reads this
    {
      Cache(entries, maxSize, ttl, enabled, currentSize, hits, misses, evictions)
    }

    constructor (maxSize: nat, ttl: int)
      ensures Current() == Initial(maxSize, ttl)
    {
      this.maxSize, this.ttl := maxSize, ttl;
      entries, enabled, currentSize, hits, misses, evictions := map[], true, 0, 0, 0, 0;
    }

    method Get(addr: U64, size: nat, now: nat) returns (r: Option<seq<Byte>>)
      modifies this
      ensures Next(old(Current()), Event(Call.Get(addr, size), now, now, r), Current())
    {
      if !enabled {
        return None;
      }
      var key := Key(addr, size);
      if key in entries {
        if Expired(entries[key], ttl, now) {
          misses := misses + 1;
          return None;
        }
        hits := hits + 1;
        entries := entries[key := entries[key].(hitCount := entries[key].hitCount + 1)];
        return Some(entries[key].data);
      }
      misses := misses + 1;
      return None;
    }

    /** Drops one entry and what it counts for. */
    method Erase(k: nat)
      requires k in entries
      modifies this
      ensures Current() == WithoutEntry(old(Current()), k)
    {
      currentSize := currentSize - |entries[k].data|;
      entries := entries - {k};
    }

    method EraseIfExpired(k: nat, now: nat)
      requires k in entries
      modifies this
      ensures Current() == AfterLookingAt(old(Current()), k, now)
    {
      if Expired(entries[k], ttl, now) {
        Erase(k);
        evictions := evictions + 1;
      }
    }

    /** Finds a least used entry, whatever order the entries are looked at in, and drops it. */
    method EvictLru() returns (victim: nat)
      requires entries != map[]
      modifies this
      ensures IsLeastUsed(old(entries), victim)
      ensures Current() == EvictOne(old(Current()), victim)
    {
      victim :| victim in entries;
      var rest := entries.Keys - {victim};
      while rest != {}
        invariant rest <= entries.Keys && victim in entries && Current() == old(Current())
        invariant forall j :: j in entries && j !in rest ==> !LessUsed(entries[j], entries[victim])
        decreases |rest|
      {
        var k :| k in rest;
        rest := rest - {k};
        if LessUsed(entries[k], entries[victim]) {
          victim := k;
        }
      }
      Erase(victim);
      evictions := evictions + 1;
    }

    method Evict(extra: nat)
      modifies this
      ensures MakesRoom(old(Current()), extra, Current())
    {
      ghost var victims: seq<nat> := [];
      while currentSize + extra > maxSize && entries != map[]
        invariant EvictsForRoom(old(Current()), extra, victims) && Current() == EvictAll(old(Current()), victims)
        decreases |entries|
      {
        var victim := EvictLru();
        victims := victims + [victim];
        assert victims[..|victims| - 1] + [victim] == victims;
      }
    }

    method Put(addr: U64, data: seq<Byte>, now: nat)
      modifies this
      ensures Next(old(Current()), Event(Call.Put(addr, data), now, now, None), Current())
    {
      if !enabled {
        return;
      }
      var key := Key(addr, |data|);
      if key in entries {
        currentSize := currentSize - |entries[key].data|;
        entries := entries[key := Entry(entries[key].address, data, now, 0)];
        currentSize := currentSize + |data|;
        return;
      }
      Evict(|data|);
      if |data| > maxSize {
        return;
      }
      entries := entries[key := Entry(addr, data, now, 0)];
      currentSize := currentSize + |data|;
    }

    method Invalidate(addr: U64, now: nat)
      modifies this
      ensures Next(old(Current()), Event(Call.Invalidate(addr), now, now, None), Current())
    {
      hide Invalidating, Invalidates;
      var rest := entries.Keys;
      InvalidateStarts(Current(), addr);
      while rest != {}
        invariant rest <= entries.Keys && Invalidating(old(Current()), addr, rest, Current())
        decreases |rest|
      {
        var k :| k in rest;
        InvalidateOne(old(Current()), addr, rest, Current(), k);
        rest := rest - {k};
        if entries[k].address == addr {
          Erase(k);
        }
      }
      InvalidateEnds(old(Current()), addr, Current());
    }

    method Clear(now: nat)
      modifies this
      ensures Next(old(Current()), Event(Call.Clear, now, now, None), Current())
    {
      entries := map[];
      currentSize := 0;
    }

    /** The sweep reads the clock anew for every entry: any instant from the last reading up to `end`. */
    method EvictExpired(start: nat, end: nat)
      requires start <= end
      modifies this
      ensures Sweeps(old(Current()), start, end, Current())
    {
      hide Sweeping, Sweeps;
      var rest, clock := entries.Keys, start;
      SweepStarts(Current(), start, end);
      while rest != {}
        invariant start <= clock <= end && rest <= entries.Keys
        invariant Sweeping(old(Current()), start, end, rest, Current())
        decreases |rest|
      {
        var k :| k in rest;
        var now: nat :| clock <= now <= end;
        SweepOne(old(Current()), start, end, rest, Current(), k, now);
        EraseIfExpired(k, now);
        rest, clock := rest - {k}, now;
      }
      SweepEnds(old(Current()), start, end, Current());
    }

    method SetTtl(ttl: int, start: nat, end: nat)
      requires start <= end
      modifies this
      ensures Next(old(Current()), Event(Call.SetTtl(ttl), start, end, None), Current())
    {
      this.ttl := ttl;
      EvictExpired(start, end);
    }

    method SetMaxSize(maxSize: nat, now: nat)
      modifies this
      ensures Next(old(Current()), Event(Call.SetMaxSize(maxSize), now, now, None), Current())
    {
      this.maxSize := maxSize;
      Evict(0);
    }

    method SetEnabled(enabled: bool, now: nat)
      modifies this
      ensures Next(old(Current()), Event(Call.SetEnabled(enabled), now, now, None), Current())
    {
      this.enabled := enabled;
    }

    method ResetStatistics(now: nat)
      modifies this
      ensures Next(old(Current()), Event(Call.ResetStatistics, now, now, None), Current())
    {
      hits, misses, evictions := 0, 0, 0;
    }
  }
}
