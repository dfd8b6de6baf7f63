/** Which requests stay cached, which are evicted and what the statistics count, told by the history of calls. */
module CacheUse {
  import opened Common
  import opened MemoryCache
  import opened CacheHistory

  predicate Cached(s: State, r: Request) {
    Key(r.0, r.1) in s.entries
  }

  /** The entry of a cached request holds the bytes, the time and the hits the history remembers for it. */
  lemma CachedEntry(states: seq<State>, events: seq<Event>, requests: iset<Request>, n: nat, r: Request)
    requires IsRun(states, events) && StaysWithin(events, requests) && KeysDistinguish(requests)
    requires n <= |events| && r in requests && Cached(states[n], r)
    ensures var e := states[n].entries[Key(r.0, r.1)];
      && e.address == r.0 && |e.data| == r.1
      && Latest(events[..n], r) == Some((e.data, e.timestamp))
      && e.hitCount == HitsSince(events[..n], r)
      && e.timestamp <= ClockAfter(events[..n])
  {
    hide Key, KeysDistinguish, EnabledAfter, Latest, HitsSince;
    CacheAgrees(states, events, requests, n);
    SameKeySameRequest(events[..n], requests, states[n].entries[Key(r.0, r.1)], r.0, r.1);
  }

  // ---------------------------------------------------------------- configuration

  /** The time to live after these calls, having been `first` before them. */
  function TtlAfter(events: seq<Event>, first: int): int {
    if events == [] then first
    else if Last(events).call.SetTtl? then Last(events).call.ttl
    else TtlAfter(Front(events), first)
  }

  /** The limit after these calls, having been `first` before them. */
  function LimitAfter(events: seq<Event>, first: nat): nat {
    if events == [] then first
    else if Last(events).call.SetMaxSize? then Last(events).call.maxSize
    else LimitAfter(Front(events), first)
  }

  lemma StepConfigures(s: State, e: Event, t: State)
    requires Next(s, e, t)
    ensures t.ttl == if e.call.SetTtl? then e.call.ttl else s.ttl
    ensures t.maxSize == if e.call.SetMaxSize? then e.call.maxSize else s.maxSize
    ensures t.enabled == if e.call.SetEnabled? then e.call.enabled else s.enabled
  {
    hide Key, MakesRoom, Total, Expired;
    match e.call {
      case Put(addr, data) =>
        if s.enabled && Key(addr, |data|) !in s.entries {
          var room :| MakesRoom(s, |data|, room) && t == Inserted(room, addr, data, e.start);
          MakingRoomKeeps(s, |data|, room);
        }
      case SetMaxSize(maxSize) => MakingRoomKeeps(s.(maxSize := maxSize), 0, t);
      case _ =>
    }
  }

  /** Time to live, limit and switch are the ones last set, in every reachable state. */
  lemma {:induction false} ConfigurationIsLastSet(states: seq<State>, events: seq<Event>, n: nat)
    requires IsRun(states, events) && n <= |events|
    ensures states[n].ttl == TtlAfter(events[..n], states[0].ttl)
    ensures states[n].maxSize == LimitAfter(events[..n], states[0].maxSize)
    ensures states[n].enabled == EnabledAfter(events[..n])
    decreases n
  {
    hide Next;
    if n > 0 {
      ConfigurationIsLastSet(states, events, n - 1);
      assert Front(events[..n]) == events[..n - 1] && Last(events[..n]) == events[n - 1];
      assert StepAt(states, events, n - 1);
      StepConfigures(states[n - 1], events[n - 1], states[n]);
    }
  }

  /** Exactly when a get is answered, and with what: the cache is on, the request is cached, and the put it was cached
      by is less than ttl + 1 seconds old. */
  lemma GetIsAnsweredExactly(states: seq<State>, events: seq<Event>, requests: iset<Request>, i: nat, r: Request)
    requires IsRun(states, events) && StaysWithin(events, requests) && KeysDistinguish(requests)
    requires i < |events| && events[i].call == Get(r.0, r.1)
    ensures Cached(states[i], r) ==> Latest(events[..i], r).Some?
    ensures events[i].result ==
      if EnabledAfter(events[..i]) && Cached(states[i], r) && (
        var (_, time) := Latest(events[..i], r).value;
        events[i].start - time < (TtlAfter(events[..i], states[0].ttl) + 1) * TICKS)
      then Some(Latest(events[..i], r).value.0)
      else None
  {
    hide Key, KeysDistinguish, EnabledAfter, Latest, HitsSince, TtlAfter, LimitAfter, Expired;
    assert StepAt(states, events, i) && Names(events[i], r);
    ConfigurationIsLastSet(states, events, i);
    ClockIsLast(states, events, i);
    if Cached(states[i], r) {
      CachedEntry(states, events, requests, i, r);
      FreshMeansRecent(states[i].entries[Key(r.0, r.1)], states[i].ttl, events[i].start);
    }
  }

  // ---------------------------------------------------------------- what stays cached

  /** Which of the requests cached before a call are cached after it. */
  ghost predicate StaysCached(before: seq<Event>, s: State, e: Event, t: State, r: Request) {
    match e.call
    case Get(_, _) => Cached(t, r) == Cached(s, r)
    case SetEnabled(_) => Cached(t, r) == Cached(s, r)
    case ResetStatistics => Cached(t, r) == Cached(s, r)
    case Clear => !Cached(t, r)
    case Invalidate(addr) => Cached(t, r) == (Cached(s, r) && r.0 != addr)
    case EvictExpired => SweptExactly(before, s, e, t, r)
    case SetTtl(_) => SweptExactly(before, s, e, t, r)
    case SetMaxSize(_) => Cached(t, r) ==> Cached(s, r)
    case Put(addr, data) =>
      if !EnabledAfter(before) then Cached(t, r) == Cached(s, r)
      else if r == (addr, |data|) then Cached(t, r) == (Cached(s, r) || |data| <= s.maxSize)
      else
        && (Cached(t, r) ==> Cached(s, r))
        && (Cached(s, (addr, |data|)) ==> Cached(t, r) == Cached(s, r))
        && (|data| > s.maxSize && !Cached(s, (addr, |data|)) ==> !Cached(t, r))
  }

  /** A sweep drops what has expired when it starts, keeps what has not when it ends, and adds nothing. */
  ghost predicate SweptExactly(before: seq<Event>, s: State, e: Event, t: State, r: Request) {
    && (Cached(t, r) ==> Cached(s, r))
    && (Cached(s, r) ==>
          && Latest(before, r).Some?
          && var lifetime := (t.ttl + 1) * TICKS;
             var time := Latest(before, r).value.1;
             && (e.start - time >= lifetime ==> !Cached(t, r))
             && (e.end - time < lifetime ==> Cached(t, r)))
  }

  lemma SweepKeeps(before: seq<Event>, s: State, e: Event, t: State, r: Request)
    requires Next(s, e, t) && (e.call.EvictExpired? || e.call.SetTtl?)
    requires Cached(s, r) ==> (
      var entry := s.entries[Key(r.0, r.1)];
      Latest(before, r) == Some((entry.data, entry.timestamp)) && entry.timestamp <= e.start)
    ensures SweptExactly(before, s, e, t, r)
  {
    hide Key, Latest, Total, Expired;
    if Cached(s, r) {
      FreshMeansRecent(s.entries[Key(r.0, r.1)], t.ttl, e.start);
      FreshMeansRecent(s.entries[Key(r.0, r.1)], t.ttl, e.end);
    }
  }

  lemma PutKeeps(s: State, addr: U64, data: seq<Byte>, now: nat, t: State, k: nat)
    requires Accounted(s) && Puts(s, addr, data, now, t) && s.enabled
    ensures var key := Key(addr, |data|);
      && (key in t.entries <==> key in s.entries || |data| <= s.maxSize)
      && (k != key && k in t.entries ==> k in s.entries)
      && (k != key && key in s.entries ==> (k in t.entries <==> k in s.entries))
      && (key !in s.entries && |data| > s.maxSize ==> t.entries == map[])
  {
    hide Key, MakesRoom, Total;
    if Key(addr, |data|) !in s.entries {
      var room :| MakesRoom(s, |data|, room) && t == Inserted(room, addr, data, now);
      MakingRoomKeeps(s, |data|, room);
      if |data| > s.maxSize {
        TooLargeEmpties(s, |data|, room);
      }
    }
  }

  lemma TooLargeEmpties(s: State, extra: nat, t: State)
    requires Accounted(s) && MakesRoom(s, extra, t) && extra > s.maxSize
    ensures t.entries == map[]
  {
    hide Total;
    MakingRoomAccounts(s, extra, t);
    MakingRoomKeeps(s, extra, t);
  }

  /** In every step of a collision-free run, which requests stay cached. */
  lemma CachedExactly(states: seq<State>, events: seq<Event>, requests: iset<Request>, i: nat, r: Request)
    requires IsRun(states, events) && StaysWithin(events, requests) && KeysDistinguish(requests)
    requires i < |events| && r in requests
    ensures StaysCached(events[..i], states[i], events[i], states[i + 1], r)
  {
    hide Key, KeysDistinguish, EnabledAfter, Latest, HitsSince, TtlAfter, LimitAfter, Expired, MakesRoom, Total,
      SweptExactly, Puts;
    var (s, e, t) := (states[i], events[i], states[i + 1]);
    assert StepAt(states, events, i);
    ConfigurationIsLastSet(states, events, i);
    ClockIsLast(states, events, i);
    if Cached(s, r) {
      CachedEntry(states, events, requests, i, r);
    }
    match e.call {
      case EvictExpired => SweepKeeps(events[..i], s, e, t, r);
      case SetTtl(_) => SweepKeeps(events[..i], s, e, t, r);
      case SetMaxSize(maxSize) => MakingRoomKeeps(s.(maxSize := maxSize), 0, t);
      case Put(addr, data) =>
        assert Names(e, (addr, |data|));
        if s.enabled {
          SizeIsTotal(states, events, i);
          PutKeeps(s, addr, data, e.start, t, Key(r.0, r.1));
          KeysDiffer(requests, r, (addr, |data|));
        } else {
          PutWhileOff(s, addr, data, e.start, t);
        }
      case _ =>
    }
  }

  lemma PutWhileOff(s: State, addr: U64, data: seq<Byte>, now: nat, t: State)
    requires Puts(s, addr, data, now, t) && !s.enabled
    ensures t == s
  {
  }

  lemma KeysDiffer(requests: iset<Request>, r: Request, q: Request)
    requires KeysDistinguish(requests) && r in requests && q in requests
    ensures Key(r.0, r.1) == Key(q.0, q.1) <==> r == q
  {
  }

  // ---------------------------------------------------------------- who is evicted

  lemma {:induction false} LostAreVictims(s: State, victims: seq<nat>, k: nat)
    requires k in s.entries && k !in EvictAll(s, victims).entries
    ensures k in victims
    decreases |victims|
  {
    if victims != [] && k != victims[|victims| - 1] {
      LostAreVictims(s, victims[..|victims| - 1], k);
    }
  }

  /** Making room drops nothing, or drops no more than needed: without the last victim, which was at least as much
      used as every other, there would be too little room. */
  lemma RoomIsNeeded(s: State, extra: nat, t: State) returns (last: nat)
    requires MakesRoom(s, extra, t) && t.entries != s.entries
    ensures last in s.entries && last !in t.entries
    ensures t.currentSize + |s.entries[last].data| + extra > s.maxSize
    ensures forall k :: k in s.entries && k !in t.entries ==> !LessUsed(s.entries[last], s.entries[k])
  {
    hide LessUsed;
    var victims :| EvictsForRoom(s, extra, victims) && t == EvictAll(s, victims);
    var earlier := victims[..|victims| - 1];
    last := victims[|victims| - 1];
    var before := EvictAll(s, earlier);
    LeastUsedIsHeld(before.entries, last);
    EvictingKeeps(s, earlier);
    forall k | k in s.entries && k !in t.entries ensures !LessUsed(s.entries[last], s.entries[k]) {
      LostAreVictims(s, victims, k);
      var i :| 0 <= i < |victims| && victims[i] == k;
      if i < |earlier| {
        VictimsAreLeastUsed(s, extra, earlier, i, last);
      } else {
        NotLessThanItself(s.entries[k]);
      }
    }
  }

  lemma NotLessThanItself(e: Entry)
    ensures !LessUsed(e, e)
  {
  }

  lemma LostAreUsedLess(s: State, extra: nat, t: State, k: nat, j: nat)
    requires MakesRoom(s, extra, t) && k in s.entries && k !in t.entries && j in t.entries
    ensures j in s.entries && !LessUsed(s.entries[j], s.entries[k])
  {
    hide LessUsed;
    var victims :| EvictsForRoom(s, extra, victims) && t == EvictAll(s, victims);
    LostAreVictims(s, victims, k);
    var i :| 0 <= i < |victims| && victims[i] == k;
    VictimsAreLeastUsed(s, extra, victims, i, j);
  }

  /** By the history: r had fewer hits since its put than q, or as many and was put no later. */
  predicate UsedNoMore(events: seq<Event>, r: Request, q: Request) {
    && Latest(events, r).Some? && Latest(events, q).Some?
    && (HitsSince(events, r) < HitsSince(events, q)
        || (HitsSince(events, r) == HitsSince(events, q) && Latest(events, r).value.1 <= Latest(events, q).value.1))
  }

  lemma UsedByHistory(states: seq<State>, events: seq<Event>, requests: iset<Request>, i: nat, r: Request, q: Request)
    requires IsRun(states, events) && StaysWithin(events, requests) && KeysDistinguish(requests) && i <= |events|
    requires r in requests && q in requests && Cached(states[i], r) && Cached(states[i], q)
    requires !LessUsed(states[i].entries[Key(q.0, q.1)], states[i].entries[Key(r.0, r.1)])
    ensures UsedNoMore(events[..i], r, q)
  {
    hide Key, KeysDistinguish, Latest, HitsSince, IsRun;
    CachedEntry(states, events, requests, i, r);
    CachedEntry(states, events, requests, i, q);
  }

  /** The call makes room: a change of the limit, or a put of a request that is not cached while the cache is on. */
  ghost predicate MakesRoomNow(s: State, e: Event, t: State) {
    e.call.SetMaxSize? || (e.call.Put? && s.enabled && !Cached(s, (e.call.addr, |e.call.data|)))
  }

  /** The state before room is made, how much room, and the state with the room. */
  lemma RoomMade(s: State, e: Event, t: State) returns (from: State, extra: nat, room: State)
    requires Next(s, e, t) && MakesRoomNow(s, e, t)
    ensures MakesRoom(from, extra, room) && from.entries == s.entries && from.maxSize == t.maxSize == room.maxSize
    ensures from.currentSize == s.currentSize
    ensures e.call.SetMaxSize? ==> room == t && extra == 0
    ensures e.call.Put? ==>
      from == s && extra == |e.call.data| && t == Inserted(room, e.call.addr, e.call.data, e.start)
  {
    hide Key, MakesRoom, Total;
    if e.call.SetMaxSize? {
      from, extra, room := s.(maxSize := e.call.maxSize), 0, t;
    } else {
      from, extra := s, |e.call.data|;
      room :| MakesRoom(s, extra, room) && t == Inserted(room, e.call.addr, e.call.data, e.start);
    }
    MakingRoomKeeps(from, extra, room);
  }

  /** In every reachable state: no evicted request had more hits since its put than one that stays, nor was put later
      at equal hits. */
  lemma VictimsByHistory(states: seq<State>, events: seq<Event>, requests: iset<Request>, i: nat,
                         r: Request, q: Request)
    requires IsRun(states, events) && StaysWithin(events, requests) && KeysDistinguish(requests)
    requires i < |events| && r in requests && q in requests
    requires events[i].call.SetMaxSize? || events[i].call.Put?
    requires Cached(states[i], r) && !Cached(states[i + 1], r) && Cached(states[i], q) && Cached(states[i + 1], q)
    ensures UsedNoMore(events[..i], r, q)
  {
    hide Key, KeysDistinguish, EnabledAfter, Latest, HitsSince, MakesRoom, LessUsed, UsedNoMore, Next;
    var (s, e, t) := (states[i], events[i], states[i + 1]);
    assert StepAt(states, events, i);
    LosingMakesRoom(s, e, t, Key(r.0, r.1));
    var from, extra, room := RoomMade(s, e, t);
    MakingRoomKeeps(from, extra, room);
    SurvivorIsOld(s, e, room, t, Key(q.0, q.1));
    LostAreUsedLess(from, extra, room, Key(r.0, r.1), Key(q.0, q.1));
    UsedByHistory(states, events, requests, i, r, q);
  }

  /** Among the calls that put or set the limit, only those that make room lose an entry. */
  lemma LosingMakesRoom(s: State, e: Event, t: State, k: nat)
    requires Next(s, e, t) && (e.call.SetMaxSize? || e.call.Put?) && k in s.entries && k !in t.entries
    ensures MakesRoomNow(s, e, t)
  {
    hide Key, MakesRoom;
  }

  lemma SurvivorIsOld(s: State, e: Event, room: State, t: State, k: nat)
    requires MakesRoomNow(s, e, t)
    requires e.call.SetMaxSize? ==> room == t
    requires e.call.Put? ==> t == Inserted(room, e.call.addr, e.call.data, e.start)
    requires k in s.entries
    ensures k in t.entries <==> k in room.entries
  {
    hide Key;
  }

  /** In every reachable state: when making room loses requests, one of them, used at least as much as all others
      lost, would have left too little room had it stayed. (A put larger than the limit loses everything.) */
  lemma EvictionIsNeeded(states: seq<State>, events: seq<Event>, requests: iset<Request>, i: nat, lost: Request)
      returns (last: Request)
    requires IsRun(states, events) && StaysWithin(events, requests) && KeysDistinguish(requests)
    requires i < |events| && lost in requests && Cached(states[i], lost) && !Cached(states[i + 1], lost)
    requires events[i].call.SetMaxSize? || (events[i].call.Put? && |events[i].call.data| <= states[i].maxSize)
    ensures last in requests && Cached(states[i], last) && !Cached(states[i + 1], last)
    ensures Total(states[i + 1].entries) + last.1 > states[i + 1].maxSize
    ensures forall r :: r in requests && Cached(states[i], r) && !Cached(states[i + 1], r) ==>
      UsedNoMore(events[..i], r, last)
  {
    hide Key, KeysDistinguish, EnabledAfter, Latest, HitsSince, MakesRoom, LessUsed, UsedNoMore, Next, Total;
    var (s, e, t) := (states[i], events[i], states[i + 1]);
    assert StepAt(states, events, i);
    LosingMakesRoom(s, e, t, Key(lost.0, lost.1));
    var from, extra, room := RoomMade(s, e, t);
    MakingRoomKeeps(from, extra, room);
    SizeIsTotal(states, events, i + 1);
    SurvivorIsOld(s, e, room, t, Key(lost.0, lost.1));
    var k := RoomIsNeeded(from, extra, room);
    CacheAgrees(states, events, requests, i);
    last := (s.entries[k].address, |s.entries[k].data|);
    EntryIsRequested(events[..i], requests, k, s.entries[k]);
    SurvivorIsOld(s, e, room, t, k);
    forall r | r in requests && Cached(s, r) && !Cached(t, r) ensures UsedNoMore(events[..i], r, last) {
      SurvivorIsOld(s, e, room, t, Key(r.0, r.1));
      UsedByHistory(states, events, requests, i, r, last);
    }
  }

  lemma EntryIsRequested(events: seq<Event>, requests: iset<Request>, k: nat, e: Entry)
    requires EntryAgrees(events, requests, k, e)
    ensures (e.address, |e.data|) in requests && k == Key(e.address, |e.data|)
  {
  }

  // ---------------------------------------------------------------- statistics

  /** The calls after the last reset of the statistics start here. */
  function SinceReset(events: seq<Event>): (first: nat)
    ensures first <= |events|
    ensures first > 0 ==> events[first - 1].call.ResetStatistics?
    ensures forall j :: first <= j < |events| ==> !events[j].call.ResetStatistics?
  {
    if events == [] then 0
    else if Last(events).call.ResetStatistics? then |events|
    else SinceReset(Front(events))
  }

  function HitsAmong(events: seq<Event>): set<nat> {
    set j: nat | SinceReset(events) <= j < |events| && events[j].call.Get? && events[j].result.Some?
  }

  function MissesAmong(events: seq<Event>): set<nat> {
    set j: nat | SinceReset(events) <= j < |events| && events[j].call.Get? && events[j].result.None?
                 && EnabledAfter(events[..j])
  }

  predicate MayEvict(call: Call) {
    call.Put? || call.SetMaxSize? || call.EvictExpired? || call.SetTtl?
  }

  /** Entries lost in the first n calls, since the last reset among them, in puts, sweeps and changes of the limit. */
  function Evicted(states: seq<State>, events: seq<Event>, n: nat): nat
    requires |states| == |events| + 1 && n <= |events|
  {
    if n == 0 || events[n - 1].call.ResetStatistics? then 0
    else if MayEvict(events[n - 1].call) then
      Evicted(states, events, n - 1) + |states[n - 1].entries.Keys - states[n].entries.Keys|
    else Evicted(states, events, n - 1)
  }

  lemma HitsGrow(events: seq<Event>, e: Event)
    ensures |HitsAmong(events + [e])| ==
      if e.call.ResetStatistics? then 0
      else |HitsAmong(events)| + if e.call.Get? && e.result.Some? then 1 else 0
  {
    var all, n := events + [e], |events|;
    assert Front(all) == events;
    if e.call.ResetStatistics? {
      assert HitsAmong(all) == {};
    } else {
      assert SinceReset(all) == SinceReset(events);
      assert HitsAmong(all) == HitsAmong(events) + if e.call.Get? && e.result.Some? then {n} else {};
    }
  }

  lemma MissesGrow(events: seq<Event>, e: Event)
    ensures |MissesAmong(events + [e])| ==
      if e.call.ResetStatistics? then 0
      else |MissesAmong(events)| + if e.call.Get? && e.result.None? && EnabledAfter(events) then 1 else 0
  {
    hide EnabledAfter;
    var all, n := events + [e], |events|;
    assert Front(all) == events;
    forall j: nat | j <= n ensures all[..j] == events[..j] {
    }
    if e.call.ResetStatistics? {
      assert MissesAmong(all) == {};
    } else {
      assert SinceReset(all) == SinceReset(events);
      assert all[..n] == events[..n] == events;
      assert MissesAmong(all) ==
        MissesAmong(events) + if e.call.Get? && e.result.None? && EnabledAfter(events) then {n} else {};
    }
  }

  lemma KeysLost(s: map<nat, Entry>, t: map<nat, Entry>)
    requires t.Keys <= s.Keys
    ensures |s.Keys - t.Keys| == |s| - |t|
  {
    assert s.Keys == t.Keys + (s.Keys - t.Keys);
    assert |s.Keys| == |t.Keys| + |s.Keys - t.Keys|;
  }

  lemma {:induction false} VictimsAreCounted(s: State, extra: nat, victims: seq<nat>)
    requires EvictsForRoom(s, extra, victims)
    ensures var t := EvictAll(s, victims);
      t.entries.Keys <= s.entries.Keys && t.evictions == s.evictions + |s.entries| - |t.entries|
    decreases |victims|
  {
    hide IsLeastUsed;
    if victims != [] {
      var earlier, victim := victims[..|victims| - 1], victims[|victims| - 1];
      VictimsAreCounted(s, extra, earlier);
      LeastUsedIsHeld(EvictAll(s, earlier).entries, victim);
    }
  }

  lemma RoomIsCounted(s: State, extra: nat, t: State)
    requires MakesRoom(s, extra, t)
    ensures t.entries.Keys <= s.entries.Keys
    ensures t.evictions == s.evictions + |s.entries.Keys - t.entries.Keys|
  {
    hide EvictsForRoom, EvictAll;
    var victims :| EvictsForRoom(s, extra, victims) && t == EvictAll(s, victims);
    VictimsAreCounted(s, extra, victims);
    KeysLost(s.entries, t.entries);
  }

  lemma PutEvictions(s: State, addr: U64, data: seq<Byte>, now: nat, t: State)
    requires Puts(s, addr, data, now, t)
    ensures t.evictions == s.evictions + |s.entries.Keys - t.entries.Keys|
  {
    hide Key, MakesRoom;
    if s.enabled && Key(addr, |data|) !in s.entries {
      var room :| MakesRoom(s, |data|, room) && t == Inserted(room, addr, data, now);
      RoomIsCounted(s, |data|, room);
      assert s.entries.Keys - t.entries.Keys == s.entries.Keys - room.entries.Keys;
    } else {
      assert s.entries.Keys - t.entries.Keys == {};
    }
  }

  lemma SweepEvictions(s: State, start: nat, end: nat, t: State)
    requires Sweeps(s, start, end, t)
    ensures t.evictions == s.evictions + |s.entries.Keys - t.entries.Keys|
  {
    hide Total, Expired;
    KeysLost(s.entries, t.entries);
  }

  lemma NoEvictions(s: State, e: Event, t: State)
    requires Next(s, e, t) && !MayEvict(e.call)
    ensures t.evictions == if e.call.ResetStatistics? then 0 else s.evictions
  {
    hide Key, Total, Expired;
  }

  lemma EvictionsOfStep(s: State, e: Event, t: State)
    requires Next(s, e, t)
    ensures t.evictions ==
      if e.call.ResetStatistics? then 0
      else if MayEvict(e.call) then s.evictions + |s.entries.Keys - t.entries.Keys|
      else s.evictions
  {
    hide Key, MakesRoom, Total, Expired, Puts, Sweeps, AfterGet, GetResult, Invalidates;
    match e.call {
      case Put(addr, data) => PutEvictions(s, addr, data, e.start, t);
      case SetMaxSize(maxSize) => RoomIsCounted(s.(maxSize := maxSize), 0, t);
      case EvictExpired => SweepEvictions(s, e.start, e.end, t);
      case SetTtl(ttl) => SweepEvictions(s.(ttl := ttl), e.start, e.end, t);
      case _ => NoEvictions(s, e, t);
    }
  }

  lemma GetsOfStep(s: State, e: Event, t: State)
    requires Next(s, e, t)
    ensures t.hits == if e.call.ResetStatistics? then 0 else s.hits + if e.call.Get? && e.result.Some? then 1 else 0
    ensures t.misses ==
      if e.call.ResetStatistics? then 0 else s.misses + if e.call.Get? && e.result.None? && s.enabled then 1 else 0
  {
    hide Key, MakesRoom, Total, Expired;
    match e.call {
      case Put(addr, data) =>
        if s.enabled && Key(addr, |data|) !in s.entries {
          var room :| MakesRoom(s, |data|, room) && t == Inserted(room, addr, data, e.start);
          MakingRoomKeeps(s, |data|, room);
        }
      case SetMaxSize(maxSize) => MakingRoomKeeps(s.(maxSize := maxSize), 0, t);
      case _ =>
    }
  }

  lemma {:induction false} GetsAmong(states: seq<State>, events: seq<Event>, n: nat)
    requires IsRun(states, events) && n <= |events|
    ensures states[n].hits == |HitsAmong(events[..n])| && states[n].misses == |MissesAmong(events[..n])|
    decreases n
  {
    hide Next, HitsAmong, MissesAmong, EnabledAfter;
    if n == 0 {
      NothingCounted();
    } else {
      GetsAmong(states, events, n - 1);
      ConfigurationIsLastSet(states, events, n - 1);
      var (before, e) := (events[..n - 1], events[n - 1]);
      assert before + [e] == events[..n];
      assert StepAt(states, events, n - 1);
      HitsGrow(before, e);
      MissesGrow(before, e);
      GetsOfStep(states[n - 1], e, states[n]);
    }
  }

  lemma {:induction false} EvictionsAmong(states: seq<State>, events: seq<Event>, n: nat)
    requires IsRun(states, events) && n <= |events|
    ensures states[n].evictions == Evicted(states, events, n)
    decreases n
  {
    hide Next, MayEvict;
    if n > 0 {
      EvictionsAmong(states, events, n - 1);
      assert StepAt(states, events, n - 1);
      EvictionsOfStep(states[n - 1], events[n - 1], states[n]);
    }
  }

  /** The statistics count, since their last reset: answered gets as hits, unanswered gets made while the cache was on
      as misses, and the entries lost in puts, sweeps and changes of the limit as evictions. */
  lemma StatisticsCount(states: seq<State>, events: seq<Event>, n: nat)
    requires IsRun(states, events) && n <= |events|
    ensures states[n].hits == |HitsAmong(events[..n])|
    ensures states[n].misses == |MissesAmong(events[..n])|
    ensures states[n].evictions == Evicted(states, events, n)
  {
    hide IsRun, HitsAmong, MissesAmong, Evicted;
    GetsAmong(states, events, n);
    EvictionsAmong(states, events, n);
  }

  lemma NothingCounted()
    ensures HitsAmong([]) == {} && MissesAmong([]) == {}
  {
  }
}
