/** What the read cache promises over whole histories of calls. */
module CacheHistory {
  import opened Common
  import opened MemoryCache

  /** A run: the states passed through and the calls between them; the steady clock never goes back. */
  ghost predicate IsRun(states: seq<State>, events: seq<Event>) {
    && |states| == |events| + 1
    && states[0] == Initial(states[0].maxSize, states[0].ttl)
    && (forall i: nat :: i < |events| ==> StepAt(states, events, i))
    && (forall i: nat, j: nat :: i < j < |events| ==> events[i].end <= events[j].start)
  }

  ghost predicate StepAt(states: seq<State>, events: seq<Event>, i: nat)
    requires i < |events| && |states| == |events| + 1
  {
    Next(states[i], events[i], states[i + 1])
  }

  /** A request: an address and a size. */
  type Request = (U64, nat)

  ghost predicate KeysDistinguish(requests: iset<Request>) {
    forall p: Request, q: Request :: p in requests && q in requests && Key(p.0, p.1) == Key(q.0, q.1) ==> p == q
  }

  predicate Names(e: Event, r: Request) {
    match e.call
    case Get(addr, size) => r == (addr, size)
    case Put(addr, data) => r == (addr, |data|)
    case _ => false
  }

  ghost predicate StaysWithin(events: seq<Event>, requests: iset<Request>) {
    forall i: nat, r: Request :: i < |events| && Names(events[i], r) ==> r in requests
  }

  function Last(events: seq<Event>): Event
    requires events != []
  {
    events[|events| - 1]
  }

  function Front(events: seq<Event>): seq<Event>
    requires events != []
  {
    events[..|events| - 1]
  }

  /** Whether the cache is enabled after these calls. */
  function EnabledAfter(events: seq<Event>): bool {
    if events == [] then true
    else if Last(events).call.SetEnabled? then Last(events).call.enabled
    else EnabledAfter(Front(events))
  }

  /** What a history of calls remembers for a request: the bytes of the last put of it made while enabled, and when,
      unless the address was invalidated or the cache cleared since. */
  function Latest(events: seq<Event>, r: Request): Option<(seq<Byte>, nat)> {
    if events == [] then None
    else
      match Last(events).call
      case Put(addr, data) =>
        if r == (addr, |data|) && EnabledAfter(Front(events)) then Some((data, Last(events).start))
        else Latest(Front(events), r)
      case Invalidate(addr) => if r.0 == addr then None else Latest(Front(events), r)
      case Clear => None
      case _ => Latest(Front(events), r)
  }

  /** The j-th call stores, or the j-th call drops, what is remembered for the request. */
  predicate Stores(events: seq<Event>, j: nat, r: Request)
    requires j < |events|
  {
    events[j].call.Put? && r == (events[j].call.addr, |events[j].call.data|) && EnabledAfter(events[..j])
  }

  predicate Drops(events: seq<Event>, j: nat, r: Request)
    requires j < |events|
  {
    events[j].call.Clear? || (events[j].call.Invalidate? && events[j].call.addr == r.0)
  }

  /** Call j stored these bytes at that time, and no later call stored or dropped anything for the request. */
  ghost predicate IsLatestPut(events: seq<Event>, j: nat, r: Request, data: seq<Byte>, time: nat) {
    && j < |events| && Stores(events, j, r)
    && events[j].call.data == data && events[j].start == time
    && forall k: nat :: j < k < |events| ==> !Stores(events, k, r) && !Drops(events, k, r)
  }

  /** `Latest` is what its description says. */
  lemma {:induction false} LatestIsLatestPut(events: seq<Event>, r: Request, data: seq<Byte>, time: nat)
    ensures Latest(events, r) == Some((data, time)) <==> exists j: nat :: IsLatestPut(events, j, r, data, time)
    decreases |events|
  {
    hide EnabledAfter;
    if events != [] {
      var n := |events| - 1;
      var front := Front(events);
      assert events[..n] == front;
      LatestIsLatestPut(front, r, data, time);
      forall k: nat | k < n
        ensures Stores(front, k, r) == Stores(events, k, r) && Drops(front, k, r) == Drops(events, k, r)
      {
        assert front[..k] == events[..k];
      }
      if Stores(events, n, r) || Drops(events, n, r) {
        if Latest(events, r) == Some((data, time)) {
          assert IsLatestPut(events, n, r, data, time);
        }
        assert forall j: nat :: IsLatestPut(events, j, r, data, time) ==> j == n;
      } else {
        LatestOfQuietCall(events, r);
        forall j: nat ensures IsLatestPut(events, j, r, data, time) == IsLatestPut(front, j, r, data, time) {
          SamePutBefore(events, j, r, data, time);
        }
      }
    }
  }

  lemma LatestOfQuietCall(events: seq<Event>, r: Request)
    requires events != []
    requires !Stores(events, |events| - 1, r) && !Drops(events, |events| - 1, r)
    ensures Latest(events, r) == Latest(Front(events), r)
  {
  }

  lemma SamePutBefore(events: seq<Event>, j: nat, r: Request, data: seq<Byte>, time: nat)
    requires events != []
    requires !Stores(events, |events| - 1, r) && !Drops(events, |events| - 1, r)
    requires forall k: nat :: k < |events| - 1 ==>
      Stores(Front(events), k, r) == Stores(events, k, r) && Drops(Front(events), k, r) == Drops(events, k, r)
    ensures IsLatestPut(events, j, r, data, time) == IsLatestPut(Front(events), j, r, data, time)
  {
    hide EnabledAfter, Stores, Drops;
  }

  /** The j-th call is a hit on the request. */
  predicate Hits(events: seq<Event>, j: nat, r: Request)
    requires j < |events|
  {
    events[j].call.Get? && r == (events[j].call.addr, events[j].call.size) && events[j].result.Some?
  }

  /** Hits on the request since the last put of it made while enabled. */
  function HitsSince(events: seq<Event>, r: Request): nat {
    if events == [] then 0
    else
      match Last(events).call
      case Put(addr, data) =>
        if r == (addr, |data|) && EnabledAfter(Front(events)) then 0 else HitsSince(Front(events), r)
      case Get(addr, size) =>
        HitsSince(Front(events), r) + if r == (addr, size) && Last(events).result.Some? then 1 else 0
      case _ => HitsSince(Front(events), r)
  }

  function HitsBehind(events: seq<Event>, j: nat, r: Request): set<nat> {
    set k: nat | j < k < |events| && Hits(events, k, r)
  }

  /** `HitsSince` is what its description says. */
  lemma {:induction false} HitsSinceIsCount(events: seq<Event>, j: nat, r: Request)
    requires j < |events| && Stores(events, j, r)
    requires forall k: nat :: j < k < |events| ==> !Stores(events, k, r)
    ensures HitsSince(events, r) == |HitsBehind(events, j, r)|
    decreases |events|
  {
    hide EnabledAfter;
    var n := |events| - 1;
    var front := Front(events);
    assert events[..n] == front;
    if j == n {
      assert HitsBehind(events, j, r) == {};
    } else {
      forall k: nat | k < n
        ensures Stores(front, k, r) == Stores(events, k, r) && Hits(front, k, r) == Hits(events, k, r)
      {
        assert front[..k] == events[..k];
      }
      HitsSinceIsCount(front, j, r);
      assert !Stores(events, n, r);
      assert HitsBehind(events, j, r) == HitsBehind(front, j, r) + if Hits(events, n, r) then {n} else {};
    }
  }

  // ---------------------------------------------------------------- what is cached agrees with the history

  function ClockAfter(events: seq<Event>): nat {
    if events == [] then 0 else Last(events).end
  }

  ghost predicate EntryAgrees(events: seq<Event>, requests: iset<Request>, k: nat, e: Entry) {
    var r: Request := (e.address, |e.data|);
    && r in requests && k == Key(r.0, r.1)
    && Latest(events, r) == Some((e.data, e.timestamp))
    && e.hitCount == HitsSince(events, r)
    && e.timestamp <= ClockAfter(events)
  }

  ghost predicate Agrees(events: seq<Event>, requests: iset<Request>, s: State) {
    && s.enabled == EnabledAfter(events)
    && forall k :: k in s.entries ==> EntryAgrees(events, requests, k, s.entries[k])
  }

  /** The second state holds some of the entries of the first and no others. */
  predicate Keeps(s: State, t: State) {
    forall k :: k in t.entries ==> k in s.entries && t.entries[k] == s.entries[k]
  }

  lemma {:induction false} EvictingKeeps(s: State, victims: seq<nat>)
    ensures var t := EvictAll(s, victims);
      Keeps(s, t) && t.enabled == s.enabled && t.maxSize == s.maxSize && t.ttl == s.ttl
    decreases |victims|
  {
    if victims != [] {
      EvictingKeeps(s, victims[..|victims| - 1]);
    }
  }

  lemma MakingRoomKeeps(s: State, extra: nat, t: State)
    requires MakesRoom(s, extra, t)
    ensures Keeps(s, t) && t.enabled == s.enabled && t.maxSize == s.maxSize && t.ttl == s.ttl
    ensures t.hits == s.hits && t.misses == s.misses
  {
    var victims :| EvictsForRoom(s, extra, victims) && t == EvictAll(s, victims);
    EvictingKeeps(s, victims);
    EvictingCounts(s, victims);
  }

  lemma {:induction false} EvictingCounts(s: State, victims: seq<nat>)
    ensures EvictAll(s, victims).hits == s.hits && EvictAll(s, victims).misses == s.misses
    decreases |victims|
  {
    if victims != [] {
      EvictingCounts(s, victims[..|victims| - 1]);
    }
  }

  /** A call that stores nothing for the request, does not hit it and drops nothing leaves an agreeing entry
      agreeing. */
  lemma EntryStillAgrees(events: seq<Event>, requests: iset<Request>, k: nat, e: Entry, event: Event)
    requires EntryAgrees(events, requests, k, e)
    requires ClockAfter(events) <= event.start <= event.end
    requires event.call.Put? ==>
      (e.address, |e.data|) != (event.call.addr, |event.call.data|) || !EnabledAfter(events)
    requires event.call.Get? && event.result.Some? ==> (e.address, |e.data|) != (event.call.addr, event.call.size)
    requires event.call.Invalidate? ==> event.call.addr != e.address
    requires !event.call.Clear?
    ensures EntryAgrees(events + [event], requests, k, e)
  {
    hide EnabledAfter;
    assert Front(events + [event]) == events;
  }

  lemma FreshEntryAgrees(events: seq<Event>, requests: iset<Request>, addr: U64, data: seq<Byte>, event: Event)
    requires event.call == Put(addr, data) && EnabledAfter(events) && event.start <= event.end
    requires (addr, |data|) in requests
    ensures EntryAgrees(events + [event], requests, Key(addr, |data|), Entry(addr, data, event.start, 0))
  {
    hide EnabledAfter, Key;
    assert Front(events + [event]) == events;
  }

  lemma EnabledOfAppend(events: seq<Event>, event: Event)
    ensures EnabledAfter(events + [event]) ==
      if event.call.SetEnabled? then event.call.enabled else EnabledAfter(events)
  {
    assert Front(events + [event]) == events;
  }

  /** A call that stores nothing keeps the agreement, however many entries it drops. */
  lemma DroppingAgrees(events: seq<Event>, requests: iset<Request>, s: State, event: Event, t: State)
    requires Agrees(events, requests, s) && ClockAfter(events) <= event.start <= event.end
    requires Keeps(s, t) && t.enabled == EnabledAfter(events + [event])
    requires event.call.Put? ==> forall k :: k in t.entries ==>
      (t.entries[k].address, |t.entries[k].data|) != (event.call.addr, |event.call.data|) || !EnabledAfter(events)
    requires event.call.Invalidate? ==> forall k :: k in t.entries ==> event.call.addr != t.entries[k].address
    requires event.call.Clear? ==> t.entries == map[]
    requires !event.call.Get?
    ensures Agrees(events + [event], requests, t)
  {
    hide EnabledAfter, EntryAgrees;
    forall k | k in t.entries ensures EntryAgrees(events + [event], requests, k, t.entries[k]) {
      EntryStillAgrees(events, requests, k, t.entries[k], event);
    }
  }

  /** Entries under another key answer another request. */
  lemma OtherKeyOtherRequest(events: seq<Event>, requests: iset<Request>, k: nat, e: Entry, addr: U64, size: nat)
    requires EntryAgrees(events, requests, k, e) && k != Key(addr, size)
    ensures (e.address, |e.data|) != (addr, size)
  {
  }

  /** With keys that tell requests apart, the entry under a request's key is that request's. */
  lemma SameKeySameRequest(events: seq<Event>, requests: iset<Request>, e: Entry, addr: U64, size: nat)
    requires KeysDistinguish(requests) && (addr, size) in requests
    requires EntryAgrees(events, requests, Key(addr, size), e)
    ensures e.address == addr && |e.data| == size
  {
  }

  lemma GetAgrees(events: seq<Event>, requests: iset<Request>, s: State, event: Event, t: State)
    requires Agrees(events, requests, s) && ClockAfter(events) <= event.start && KeysDistinguish(requests)
    requires event.call.Get? && Next(s, event, t) && (event.call.addr, event.call.size) in requests
    ensures Agrees(events + [event], requests, t)
  {
    hide EnabledAfter, EntryAgrees, Key, Expired, KeysDistinguish;
    var key := Key(event.call.addr, event.call.size);
    EnabledOfAppend(events, event);
    forall k | k in t.entries ensures EntryAgrees(events + [event], requests, k, t.entries[k]) {
      if event.result.Some? && k == key {
        SameKeySameRequest(events, requests, s.entries[k], event.call.addr, event.call.size);
        HitEntryAgrees(events, requests, k, s.entries[k], event);
      } else {
        if event.result.Some? {
          OtherKeyOtherRequest(events, requests, k, s.entries[k], event.call.addr, event.call.size);
        }
        EntryStillAgrees(events, requests, k, s.entries[k], event);
      }
    }
  }

  lemma HitEntryAgrees(events: seq<Event>, requests: iset<Request>, k: nat, e: Entry, event: Event)
    requires EntryAgrees(events, requests, k, e) && ClockAfter(events) <= event.start <= event.end
    requires event.call == Get(e.address, |e.data|) && event.result.Some?
    ensures EntryAgrees(events + [event], requests, k, e.(hitCount := e.hitCount + 1))
  {
    hide EnabledAfter, Key;
    assert Front(events + [event]) == events;
  }

  lemma UpdateAgrees(events: seq<Event>, requests: iset<Request>, s: State, event: Event, t: State)
    requires Agrees(events, requests, s) && ClockAfter(events) <= event.start <= event.end && KeysDistinguish(requests)
    requires event.call.Put? && s.enabled
    requires var (addr, data) := (event.call.addr, event.call.data);
      && (addr, |data|) in requests && Key(addr, |data|) in s.entries
      && t == Updated(s, Key(addr, |data|), data, event.start)
    ensures Agrees(events + [event], requests, t)
  {
    hide EnabledAfter, EntryAgrees, Key, KeysDistinguish;
    var addr, data := event.call.addr, event.call.data;
    var key := Key(addr, |data|);
    EnabledOfAppend(events, event);
    SameKeySameRequest(events, requests, s.entries[key], addr, |data|);
    FreshEntryAgrees(events, requests, addr, data, event);
    forall k | k in t.entries && k != key ensures EntryAgrees(events + [event], requests, k, t.entries[k]) {
      OtherKeyOtherRequest(events, requests, k, s.entries[k], addr, |data|);
      EntryStillAgrees(events, requests, k, s.entries[k], event);
    }
  }

  lemma InsertAgrees(events: seq<Event>, requests: iset<Request>, s: State, event: Event, room: State)
    requires Agrees(events, requests, s) && ClockAfter(events) <= event.start <= event.end
    requires event.call.Put? && s.enabled && Keeps(s, room) && room.enabled
    requires var (addr, data) := (event.call.addr, event.call.data);
      (addr, |data|) in requests && Key(addr, |data|) !in s.entries
    ensures Agrees(events + [event], requests, Inserted(room, event.call.addr, event.call.data, event.start))
  {
    hide EnabledAfter, EntryAgrees, Key;
    var addr, data := event.call.addr, event.call.data;
    EnabledOfAppend(events, event);
    FreshEntryAgrees(events, requests, addr, data, event);
    forall k | k in room.entries ensures EntryAgrees(events + [event], requests, k, room.entries[k]) {
      OtherKeyOtherRequest(events, requests, k, s.entries[k], addr, |data|);
      EntryStillAgrees(events, requests, k, s.entries[k], event);
    }
  }

  lemma PutAgrees(events: seq<Event>, requests: iset<Request>, s: State, event: Event, t: State)
    requires Agrees(events, requests, s) && ClockAfter(events) <= event.start && KeysDistinguish(requests)
    requires event.call.Put? && Next(s, event, t) && (event.call.addr, |event.call.data|) in requests
    ensures Agrees(events + [event], requests, t)
  {
    hide EnabledAfter, EntryAgrees, Key, KeysDistinguish, MakesRoom, Agrees;
    var addr, data := event.call.addr, event.call.data;
    AgreesOnEnabled(events, requests, s);
    if !s.enabled {
      EnabledOfAppend(events, event);
      DroppingAgrees(events, requests, s, event, t);
    } else if Key(addr, |data|) in s.entries {
      UpdateAgrees(events, requests, s, event, t);
    } else {
      var room :| MakesRoom(s, |data|, room) && t == Inserted(room, addr, data, event.start);
      MakingRoomKeeps(s, |data|, room);
      InsertAgrees(events, requests, s, event, room);
    }
  }

  lemma AgreesOnEnabled(events: seq<Event>, requests: iset<Request>, s: State)
    requires Agrees(events, requests, s)
    ensures s.enabled == EnabledAfter(events)
  {
  }

  lemma OtherCallAgrees(events: seq<Event>, requests: iset<Request>, s: State, event: Event, t: State)
    requires Agrees(events, requests, s) && ClockAfter(events) <= event.start
    requires !event.call.Get? && !event.call.Put? && Next(s, event, t)
    ensures Agrees(events + [event], requests, t)
  {
    hide EnabledAfter, EntryAgrees, MakesRoom, Total, Expired;
    EnabledOfAppend(events, event);
    if event.call.SetMaxSize? {
      MakingRoomKeeps(s.(maxSize := event.call.maxSize), 0, t);
    }
    DroppingAgrees(events, requests, s, event, t);
  }

  lemma NothingCachedAgrees(states: seq<State>, requests: iset<Request>)
    requires states != [] && states[0] == Initial(states[0].maxSize, states[0].ttl)
    ensures Agrees([], requests, states[0])
  {
  }

  lemma {:induction false} CacheAgrees(states: seq<State>, events: seq<Event>, requests: iset<Request>, n: nat)
    requires IsRun(states, events) && n <= |events|
    requires StaysWithin(events, requests) && KeysDistinguish(requests)
    ensures Agrees(events[..n], requests, states[n])
    decreases n
  {
    hide Next, KeysDistinguish, Agrees;
    if n == 0 {
      NothingCachedAgrees(states, requests);
    } else {
      CacheAgrees(states, events, requests, n - 1);
      var (before, event) := (events[..n - 1], events[n - 1]);
      assert before + [event] == events[..n];
      assert StepAt(states, events, n - 1);
      ClockIsLast(states, events, n - 1);
      if event.call.Get? {
        assert Names(event, (event.call.addr, event.call.size));
        GetAgrees(before, requests, states[n - 1], event, states[n]);
      } else if event.call.Put? {
        assert Names(event, (event.call.addr, |event.call.data|));
        PutAgrees(before, requests, states[n - 1], event, states[n]);
      } else {
        OtherCallAgrees(before, requests, states[n - 1], event, states[n]);
      }
    }
  }

  lemma ClockIsLast(states: seq<State>, events: seq<Event>, n: nat)
    requires IsRun(states, events) && n < |events|
    ensures ClockAfter(events[..n]) <= events[n].start
  {
    hide Next;
    if n > 0 {
      assert Last(events[..n]) == events[n - 1];
    }
  }

  /** Every hit is fresh and right: whatever was called before, it returns the bytes of the latest put of the same
      request made while enabled, less than ttl + 1 seconds ago, with no invalidation of the address and no clear
      in between. */
  lemma HitIsFreshAndRight(states: seq<State>, events: seq<Event>, requests: iset<Request>, i: nat)
      returns (put: nat)
    requires IsRun(states, events) && StaysWithin(events, requests) && KeysDistinguish(requests)
    requires i < |events| && events[i].call.Get? && events[i].result.Some?
    ensures put < i
    ensures var (call, result) := (events[i].call, events[i].result);
      IsLatestPut(events[..i], put, (call.addr, call.size), result.value, events[put].start)
    ensures 0 <= events[i].start - events[put].start < (states[i].ttl + 1) * TICKS
  {
    hide Key, KeysDistinguish, EnabledAfter, Latest;
    var (addr, size) := (events[i].call.addr, events[i].call.size);
    CacheAgrees(states, events, requests, i);
    assert StepAt(states, events, i);
    assert Names(events[i], (addr, size));
    var e := states[i].entries[Key(addr, size)];
    SameKeySameRequest(events[..i], requests, e, addr, size);
    LatestIsLatestPut(events[..i], (addr, size), e.data, e.timestamp);
    put :| IsLatestPut(events[..i], put, (addr, size), e.data, e.timestamp);
    ClockIsLast(states, events, i);
    FreshMeansRecent(e, states[i].ttl, events[i].start);
  }

  lemma FreshMeansRecent(e: Entry, ttl: int, now: nat)
    requires e.timestamp <= now
    ensures !Expired(e, ttl, now) <==> now - e.timestamp < (ttl + 1) * TICKS
  {
  }

  /** The requests with addresses in one aligned 4 GiB window and sizes below 4 GiB. */
  ghost function Window(w: nat): iset<Request> {
    iset r: Request | r.0 / TWO_32 == w && r.1 < TWO_32
  }

  lemma WindowDistinguishes(w: nat)
    ensures KeysDistinguish(Window(w))
  {
    hide Key;
    forall p: Request, q: Request | p in Window(w) && q in Window(w) && Key(p.0, p.1) == Key(q.0, q.1) ensures p == q {
      KeysDifferInWindow(p.0, p.1, q.0, q.1);
    }
  }

  /** A put that is stored answers its own request, and goes on answering it for just less than ttl + 1 seconds. */
  lemma StoredPutAnswers(s: State, addr: U64, data: seq<Byte>, now: nat, t: State, later: nat)
    requires Puts(s, addr, data, now, t) && s.enabled && now <= later
    requires Key(addr, |data|) in s.entries || |data| <= s.maxSize
    ensures GetResult(t, addr, |data|, later) == if later - now < (s.ttl + 1) * TICKS then Some(data) else None
  {
    hide Key, MakesRoom, Expired;
    var k := Key(addr, |data|);
    if k !in s.entries {
      var room :| MakesRoom(s, |data|, room) && t == Inserted(room, addr, data, now);
      MakingRoomKeeps(s, |data|, room);
    }
    FreshMeansRecent(t.entries[k], s.ttl, later);
  }

  /** Why keys must tell requests apart: in any state, right after a stored put, a request for anything that was not
      cached is answered, with the bytes put, exactly when it has the same key, the same request or not. */
  lemma ForeignHitIffKeysMeet(s: State, addr: U64, data: seq<Byte>, now: nat, t: State, b: U64, n: nat)
    requires Puts(s, addr, data, now, t) && s.enabled && s.ttl >= 0
    requires Key(addr, |data|) in s.entries || |data| <= s.maxSize
    ensures Key(b, n) == Key(addr, |data|) ==> GetResult(t, b, n, now) == Some(data)
    ensures Key(b, n) != Key(addr, |data|) && Key(b, n) !in s.entries ==> GetResult(t, b, n, now) == None
  {
    hide Key, MakesRoom, Expired;
    var k := Key(addr, |data|);
    if k !in s.entries {
      var room :| MakesRoom(s, |data|, room) && t == Inserted(room, addr, data, now);
      MakingRoomKeeps(s, |data|, room);
    }
    FreshMeansRecent(t.entries[k], s.ttl, now);
  }

  // ---------------------------------------------------------------- accounting

  /** Evicted entries are never used more than the ones that stay. */
  lemma {:induction false} VictimsAreLeastUsed(s: State, extra: nat, victims: seq<nat>, i: nat, k: nat)
    requires EvictsForRoom(s, extra, victims) && i < |victims| && k in EvictAll(s, victims).entries
    ensures victims[i] in s.entries && k in s.entries && k != victims[i]
    ensures !LessUsed(s.entries[k], s.entries[victims[i]])
    decreases |victims|
  {
    hide LessUsed;
    var earlier := victims[..|victims| - 1];
    EvictingKeeps(s, earlier);
    if i < |earlier| {
      VictimsAreLeastUsed(s, extra, earlier, i, k);
    }
  }

  ghost predicate Accounted(s: State) {
    s.currentSize == Total(s.entries)
  }

  lemma LeastUsedIsHeld(entries: map<nat, Entry>, k: nat)
    requires IsLeastUsed(entries, k)
    ensures k in entries
  {
  }

  lemma {:induction false} EvictingAccounts(s: State, extra: nat, victims: seq<nat>)
    requires Accounted(s) && EvictsForRoom(s, extra, victims)
    ensures Accounted(EvictAll(s, victims))
    decreases |victims|
  {
    hide Total, IsLeastUsed;
    if victims != [] {
      var earlier, victim := victims[..|victims| - 1], victims[|victims| - 1];
      EvictingAccounts(s, extra, earlier);
      var before := EvictAll(s, earlier);
      LeastUsedIsHeld(before.entries, victim);
      TotalWithout(before.entries, victim);
    }
  }

  lemma MakingRoomAccounts(s: State, extra: nat, t: State)
    requires Accounted(s) && MakesRoom(s, extra, t)
    ensures Accounted(t) && (t.currentSize + extra <= t.maxSize || t.currentSize == 0)
  {
    hide EvictsForRoom, EvictAll;
    var victims :| EvictsForRoom(s, extra, victims) && t == EvictAll(s, victims);
    EvictingAccounts(s, extra, victims);
  }

  lemma PutAccounts(s: State, addr: U64, data: seq<Byte>, now: nat, t: State)
    requires Accounted(s) && Puts(s, addr, data, now, t)
    ensures Accounted(t)
  {
    hide Key, MakesRoom, Total;
    var k := Key(addr, |data|);
    if s.enabled && k in s.entries {
      TotalWithout(s.entries, k);
      TotalWith(s.entries, k, Entry(s.entries[k].address, data, now, 0));
    } else if s.enabled {
      var room :| MakesRoom(s, |data|, room) && t == Inserted(room, addr, data, now);
      MakingRoomAccounts(s, |data|, room);
      MakingRoomKeeps(s, |data|, room);
      TotalWith(room.entries, k, Entry(addr, data, now, 0));
      assert room.entries - {k} == room.entries;
    }
  }

  lemma StepAccounts(s: State, e: Event, t: State)
    requires Accounted(s) && Next(s, e, t)
    ensures Accounted(t)
  {
    hide Key, MakesRoom, Total, Expired, Puts;
    match e.call {
      case Get(addr, size) =>
        var k := Key(addr, size);
        if e.result.Some? {
          TotalWithout(s.entries, k);
          TotalWith(s.entries, k, t.entries[k]);
        }
      case Put(addr, data) => PutAccounts(s, addr, data, e.start, t);
      case SetMaxSize(maxSize) => MakingRoomAccounts(s.(maxSize := maxSize), 0, t);
      case Clear => TotalOfNothing();
      case _ =>
    }
  }

  lemma TotalOfNothing()
    ensures Total(map[]) == 0
  {
  }

  /** The size the cache keeps is the sum of the lengths stored, in every reachable state. */
  lemma {:induction false} SizeIsTotal(states: seq<State>, events: seq<Event>, n: nat)
    requires IsRun(states, events) && n <= |events|
    ensures states[n].currentSize == Total(states[n].entries)
    decreases n
  {
    hide Next, Total;
    if n == 0 {
      TotalOfNothing();
    } else {
      SizeIsTotal(states, events, n - 1);
      assert StepAt(states, events, n - 1);
      StepAccounts(states[n - 1], events[n - 1], states[n]);
    }
  }

  /** Exactly when a put leaves the cache over its limit: it overwrites longer bytes over shorter ones, which only an
      entry of another request under the same key can be. */
  lemma PutOverfillsExactly(s: State, addr: U64, data: seq<Byte>, now: nat, t: State)
    requires Accounted(s) && s.currentSize <= s.maxSize && Puts(s, addr, data, now, t)
    ensures t.currentSize > t.maxSize <==>
      s.enabled && Key(addr, |data|) in s.entries &&
      s.currentSize - |s.entries[Key(addr, |data|)].data| + |data| > s.maxSize
  {
    hide Key, MakesRoom, Total;
    if s.enabled && Key(addr, |data|) !in s.entries {
      var room :| MakesRoom(s, |data|, room) && t == Inserted(room, addr, data, now);
      MakingRoomAccounts(s, |data|, room);
      MakingRoomKeeps(s, |data|, room);
    }
  }

  lemma {:induction false} KeepingIsSmaller(x: map<nat, Entry>, y: map<nat, Entry>)
    requires forall k :: k in y ==> k in x && y[k] == x[k]
    ensures Total(y) <= Total(x)
    decreases |x|
  {
    if y == map[] {
      TotalOfNothing();
    } else {
      var k :| k in y;
      TotalWithout(x, k);
      TotalWithout(y, k);
      KeepingIsSmaller(x - {k}, y - {k});
    }
  }

  lemma OtherCallFits(s: State, e: Event, t: State)
    requires Accounted(s) && s.currentSize <= s.maxSize && Next(s, e, t) && !e.call.Put?
    ensures t.currentSize <= t.maxSize
  {
    hide MakesRoom, Total, Expired;
    match e.call {
      case SetMaxSize(maxSize) =>
        MakingRoomAccounts(s.(maxSize := maxSize), 0, t);
      case Invalidate(addr) => KeepingIsSmaller(s.entries, t.entries);
      case EvictExpired => KeepingIsSmaller(s.entries, t.entries);
      case SetTtl(_) => KeepingIsSmaller(s.entries, t.entries);
      case _ =>
    }
  }

  /** With keys that tell requests apart the cache never holds more than its limit. */
  lemma {:induction false} CacheNeverOverfills(states: seq<State>, events: seq<Event>, requests: iset<Request>, n: nat)
    requires IsRun(states, events) && n <= |events|
    requires StaysWithin(events, requests) && KeysDistinguish(requests)
    ensures states[n].currentSize <= states[n].maxSize
    decreases n
  {
    hide Next, KeysDistinguish, EntryAgrees, EnabledAfter;
    if n > 0 {
      CacheNeverOverfills(states, events, requests, n - 1);
      SizeIsTotal(states, events, n - 1);
      CacheAgrees(states, events, requests, n - 1);
      assert StepAt(states, events, n - 1);
      var (s, e) := (states[n - 1], events[n - 1]);
      if e.call.Put? {
        assert Names(e, (e.call.addr, |e.call.data|));
        PutFits(events[..n - 1], requests, s, e, states[n]);
      } else {
        OtherCallFits(s, e, states[n]);
      }
    }
  }

  lemma PutFits(events: seq<Event>, requests: iset<Request>, s: State, e: Event, t: State)
    requires Agrees(events, requests, s) && KeysDistinguish(requests) && Accounted(s) && s.currentSize <= s.maxSize
    requires e.call.Put? && (e.call.addr, |e.call.data|) in requests && Next(s, e, t)
    ensures t.currentSize <= t.maxSize
  {
    hide Key, KeysDistinguish, EntryAgrees, EnabledAfter, Total;
    var addr, data := e.call.addr, e.call.data;
    PutOverfillsExactly(s, addr, data, e.start, t);
    if Key(addr, |data|) in s.entries {
      SameKeySameRequest(events, requests, s.entries[Key(addr, |data|)], addr, |data|);
    }
  }

  /** Gets made while enabled since the statistics were last reset. */
  function EnabledGets(events: seq<Event>): nat {
    if events == [] then 0
    else if Last(events).call.ResetStatistics? then 0
    else EnabledGets(Front(events)) + if Last(events).call.Get? && EnabledAfter(Front(events)) then 1 else 0
  }

  lemma StepCounts(s: State, e: Event, t: State)
    requires Next(s, e, t)
    ensures t.enabled == if e.call.SetEnabled? then e.call.enabled else s.enabled
    ensures t.hits + t.misses ==
      if e.call.ResetStatistics? then 0 else s.hits + s.misses + if e.call.Get? && s.enabled then 1 else 0
  {
    hide Key, MakesRoom, Total, Expired;
    match e.call {
      case Put(addr, data) =>
        if s.enabled && Key(addr, |data|) !in s.entries {
          var room :| MakesRoom(s, |data|, room) && t == Inserted(room, addr, data, e.start);
          MakingRoomKeeps(s, |data|, room);
        }
      case SetMaxSize(maxSize) => MakingRoomKeeps(s.(maxSize := maxSize), 0, t);
      case _ =>
    }
  }

  /** Every get made while enabled counts once, as a hit or as a miss. */
  lemma {:induction false} GetsAreCounted(states: seq<State>, events: seq<Event>, n: nat)
    requires IsRun(states, events) && n <= |events|
    ensures states[n].enabled == EnabledAfter(events[..n])
    ensures states[n].hits + states[n].misses == EnabledGets(events[..n])
    decreases n
  {
    hide Next;
    if n > 0 {
      GetsAreCounted(states, events, n - 1);
      assert Front(events[..n]) == events[..n - 1] && Last(events[..n]) == events[n - 1];
      assert StepAt(states, events, n - 1);
      StepCounts(states[n - 1], events[n - 1], states[n]);
    }
  }
}
