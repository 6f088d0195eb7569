/**
 The embedded key-value store: capacity-bounded eviction and rollback on failure.

 Time is read from a clock that never runs backwards; persisting is an outcome given to each call.
 */
module KvStore {
  import opened Text

  datatype Error = ContextDone | StoreClosed | InvalidKey | ValueTooLarge | KeyNotFound | PersistFailed

  datatype Entry = Entry(value: string, expireAt: Option<int>, updatedAt: int, size: int)

  type Data = map<string, Entry>

  predicate Expired(e: Entry, now: int) {
    e.expireAt.Some? && e.expireAt.value <= now
  }

  function EntrySize(key: string, value: string): int {
    |key| + |value| + 64
  }

  predicate ValidKey(key: string) {
    key != "" && forall i :: 0 <= i < |key| ==> 0x20 <= key[i] as int && key[i] as int != 0x7f
  }

  /** The entries that have not expired. */
  function Unexpired(d: Data, now: int): Data {
    map k | k in d && !Expired(d[k], now) :: d[k]
  }

  ghost function Bytes(d: Data): int {
    if d == map[] then 0
    else
      var k :| k in d;
      d[k].size + Bytes(d - {k})
  }

  /** The order of summation does not matter. */
  lemma {:induction false} BytesRemove(d: Data, k: string)
    requires k in d
    ensures Bytes(d) == d[k].size + Bytes(d - {k})
    decreases |d|
  {
    var first :| first in d && Bytes(d) == d[first].size + Bytes(d - {first});
    if first != k {
      BytesRemove(d - {first}, k);
      BytesRemove(d - {k}, first);
      assert d - {first} - {k} == d - {k} - {first};
    }
  }

  ghost function LiveBytes(d: Data, now: int): int {
    Bytes(Unexpired(d, now))
  }

  lemma LiveRemove(d: Data, k: string, now: int)
    requires k in d
    ensures LiveBytes(d, now) == LiveBytes(d - {k}, now) + if Expired(d[k], now) then 0 else d[k].size
  {
    if Expired(d[k], now) {
      assert Unexpired(d - {k}, now) == Unexpired(d, now);
    } else {
      BytesRemove(Unexpired(d, now), k);
      assert Unexpired(d - {k}, now) == Unexpired(d, now) - {k};
    }
  }

  ghost predicate Sized(d: Data) {
    forall k :: k in d ==> ValidKey(k) && d[k].size == EntrySize(k, d[k].value)
  }

  /** As time passes, entries only expire. */
  lemma {:induction false} LiveShrinks(d: Data, now: int, later: int)
    requires Sized(d) && now <= later
    ensures 0 <= LiveBytes(d, later) <= LiveBytes(d, now)
    decreases |d|
  {
    if d == map[] {
      assert Unexpired(d, now) == map[] && Unexpired(d, later) == map[];
    } else {
      var k :| k in d;
      LiveShrinks(d - {k}, now, later);
      LiveRemove(d, k, now);
      LiveRemove(d, k, later);
    }
  }

  // Eviction, as a relation between the unexpired entries and those kept

  ghost predicate Submap(d: Data, whole: Data) {
    forall k :: k in d ==> k in whole && d[k] == whole[k]
  }

  /** Every entry evicted for space is no newer than every survivor. */
  ghost predicate OldestFirst(kept: Data, whole: Data) {
    forall v, k :: v in whole && v !in kept && k in kept ==> whole[v].updatedAt <= kept[k].updatedAt
  }

  ghost predicate StrictlyNewest(d: Data, k: string) {
    k in d && forall j :: j in d && j != k ==> d[j].updatedAt < d[k].updatedAt
  }

  ghost predicate NewestKept(kept: Data, whole: Data, maxMemory: int) {
    forall k :: StrictlyNewest(whole, k) && whole[k].size <= maxMemory ==> k in kept
  }

  ghost predicate Fits(d: Data, maxEntries: nat, maxMemory: int, now: int) {
    |d| <= maxEntries && LiveBytes(d, now) <= maxMemory
  }

  /** Nothing is evicted for space without need: with the last victim back the limits are broken. */
  ghost predicate Needed(kept: Data, whole: Data, maxEntries: nat, maxMemory: int, now: int) {
    kept == whole || exists v :: v in whole && v !in kept && !Fits(kept[v := whole[v]], maxEntries, maxMemory, now)
  }

  ghost predicate Evicted(kept: Data, whole: Data, maxEntries: nat, maxMemory: int, now: int) {
    && Submap(kept, whole) && OldestFirst(kept, whole) && NewestKept(kept, whole, maxMemory)
    && Needed(kept, whole, maxEntries, maxMemory, now)
  }

  ghost predicate Oldest(d: Data, k: string) {
    k in d && forall j :: j in d ==> d[k].updatedAt <= d[j].updatedAt
  }

  /** One round of the eviction loop keeps all of this. */
  lemma EvictOldest(d: Data, whole: Data, k: string, maxEntries: nat, maxMemory: int, start: int, now: int)
    requires Evicted(d, whole, maxEntries, maxMemory, start) && Sized(d) && maxEntries > 0
    requires Oldest(d, k) && start <= now && !Fits(d, maxEntries, maxMemory, now)
    ensures Evicted(d - {k}, whole, maxEntries, maxMemory, start)
  {
    var next := d - {k};
    OldestIsNotNewest(d, whole, k, maxEntries, maxMemory, now);
    LiveShrinks(d, start, now);
    assert next[k := whole[k]] == d;
    assert k in whole && k !in next && !Fits(next[k := whole[k]], maxEntries, maxMemory, start);
  }

  /** A strictly newest entry that fits is never the victim. */
  lemma OldestIsNotNewest(d: Data, whole: Data, k: string, maxEntries: nat, maxMemory: int, now: int)
    requires Submap(d, whole) && Oldest(d, k) && Sized(d) && maxEntries > 0
    requires !Fits(d, maxEntries, maxMemory, now)
    ensures !(StrictlyNewest(whole, k) && whole[k].size <= maxMemory)
  {
    if StrictlyNewest(whole, k) && whole[k].size <= maxMemory {
      forall j | j in d
        ensures j == k
      {
        assert j in whole && whole[j].updatedAt >= whole[k].updatedAt;
      }
      LoneFits(d, k, maxEntries, maxMemory, now);
    }
  }

  lemma LoneFits(d: Data, k: string, maxEntries: nat, maxMemory: int, now: int)
    requires k in d && (forall j :: j in d ==> j == k) && Sized(d) && maxEntries > 0 && d[k].size <= maxMemory
    ensures Fits(d, maxEntries, maxMemory, now)
  {
    assert d == map[k := d[k]];
    LiveRemove(d, k, now);
    assert d - {k} == map[];
    assert Unexpired(d - {k}, now) == map[];
  }

  /** A clock that never runs backwards. */
  class Clock {
    var last: int

    constructor () {
      last := 0;
    }

    method Now() returns (now: int)
      modifies this
      ensures now == last >= old(last)
    {
      now :| now >= last;
      last := now;
    }
  }

  /** When a call's context is found done: before the lock, under it, or after the change. */
  datatype Context = Context(onEntry: bool, locked: bool, changed: bool)

  class Store {
    const maxEntries: nat
    const maxMemory: int
    const clock: Clock
    var data: Data
    var closed: bool

    ghost predicate Valid()
      reads this
    {
      maxEntries > 0 && maxMemory > 0 && Sized(data)
    }

    /** Opens a store on the entries found on disk, whose keys were validated and sizes recomputed. */
    constructor (maxEntries: nat, maxMemoryMB: nat, clock: Clock, loaded: Data)
      requires maxEntries > 0 && maxMemoryMB > 0 && Sized(loaded)
      modifies clock
      ensures Valid() && !closed && this.maxEntries == maxEntries && this.maxMemory == maxMemoryMB * 1024 * 1024
      ensures this.clock == clock && Fits(data, maxEntries, maxMemory, clock.last)
      ensures exists start :: start <= clock.last && Evicted(data, Unexpired(loaded, start), maxEntries, maxMemory, start)
    {
      this.maxEntries, this.maxMemory, this.clock := maxEntries, maxMemoryMB * 1024 * 1024, clock;
      data, closed := loaded, false;
      new;
      var now := clock.Now();
      PruneExpired(now);
      ghost var start := EvictIfNeeded();
      assert Unexpired(Unexpired(loaded, now), start) == Unexpired(loaded, start);
    }

    method PruneExpired(now: int)
      modifies `data
      ensures data == Unexpired(old(data), now)
      ensures forall k :: k in data <==> k in old(data) && (old(data)[k].expireAt.Some? ==> now < old(data)[k].expireAt.value)
    {
      var rest := data.Keys;
      while rest != {}
        invariant rest <= old(data).Keys
        invariant data == map k | k in old(data) && (k in rest || !Expired(old(data)[k], now)) :: old(data)[k]
        decreases |rest|
      {
        var k :| k in rest;
        if Expired(data[k], now) {
          data := data - {k};
        }
        rest := rest - {k};
      }
    }

    method MemoryUsage() returns (total: int)
      modifies clock
      ensures total == LiveBytes(data, clock.last) && clock.last >= old(clock.last)
    {
      total := 0;
      var now := clock.Now();
      var rest := data;
      while rest != map[]
        invariant clock.last == now >= old(clock.last)
        invariant total + LiveBytes(rest, now) == LiveBytes(data, now)
        decreases |rest|
      {
        var k :| k in rest;
        LiveRemove(rest, k, now);
        if !Expired(rest[k], now) {
          total := total + rest[k].size;
        }
        rest := rest - {k};
      }
      assert Unexpired(rest, now) == map[];
    }

    method OldestKey() returns (key: string)
      requires "" !in data
      ensures key == "" <==> data == map[]
      ensures key != "" ==> Oldest(data, key)
    {
      key := "";
      var oldestAt := 0;
      var rest := data;
      while rest != map[]
        invariant Submap(rest, data)
        invariant key == "" ==> rest == data
        invariant key != "" ==> key in data && oldestAt == data[key].updatedAt
        invariant key != "" ==> forall j :: j in data && j !in rest ==> oldestAt <= data[j].updatedAt
        decreases |rest|
      {
        var k :| k in rest;
        if key == "" || rest[k].updatedAt < oldestAt {
          key, oldestAt := k, rest[k].updatedAt;
        }
        rest := rest - {k};
      }
    }

    /** The guard of the eviction loop. */
    method OverLimit() returns (over: bool)
      modifies clock
      ensures clock.last >= old(clock.last)
      ensures over <==> !Fits(data, maxEntries, maxMemory, clock.last)
    {
      if |data| > maxEntries {
        return true;
      }
      var usage := MemoryUsage();
      return usage > maxMemory;
    }

    /** Drops what has expired, then the oldest entries until the rest fits; `start` is when it looked for expiry. */
    method EvictIfNeeded() returns (ghost start: int)
      requires Valid()
      modifies `data, clock
      ensures Valid() && old(clock.last) <= start <= clock.last
      ensures Fits(data, maxEntries, maxMemory, clock.last)
      ensures Evicted(data, Unexpired(old(data), start), maxEntries, maxMemory, start)
    {
      var now := clock.Now();
      start := now;
      PruneExpired(now);
      ghost var whole := data;
      var over := OverLimit();
      while over
        invariant Valid() && start <= clock.last && Evicted(data, whole, maxEntries, maxMemory, start)
        invariant over <==> !Fits(data, maxEntries, maxMemory, clock.last)
        decreases |data|
      {
        NonEmpty(data, maxEntries, maxMemory, clock.last);
        var key := OldestKey();
        EvictOldest(data, whole, key, maxEntries, maxMemory, start, clock.last);
        data := data - {key};
        over := OverLimit();
      }
    }

    /**
     Stores a value. A failure changes nothing. A success keeps what eviction keeps of the entries with
     the new one added, possibly with the new entry's expiry moved because it had passed meanwhile.
     The ghost results are the clock readings and what eviction kept.
     */
    method SetContext(ctx: Context, key: string, value: string, ttl: int, persists: bool)
      returns (err: Option<Error>, ghost now: int, ghost start: int, ghost checked: int, ghost kept: Data)
      requires Valid()
      modifies `data, clock
      ensures Valid()
      ensures err == SetError(ctx, closed, key, value, maxMemory, persists)
      ensures err.Some? ==> data == old(data)
      ensures err.None? ==>
              && old(clock.last) <= now <= start <= checked <= clock.last
              && Evicted(kept, Unexpired(Put(old(data), key, value, ttl, now), start), maxEntries, maxMemory, start)
              && Fits(kept, maxEntries, maxMemory, checked)
              && data == Refresh(kept, key, ttl, now, clock.last)
    {
      now, start, checked, kept := 0, 0, 0, map[];
      if ctx.onEntry || ctx.locked {
        return Some(ContextDone), now, start, checked, kept;
      }
      if closed {
        return Some(StoreClosed), now, start, checked, kept;
      }
      if !ValidKey(key) {
        return Some(InvalidKey), now, start, checked, kept;
      }
      var at := clock.Now();
      now := at;
      if EntrySize(key, value) > maxMemory {
        return Some(ValueTooLarge), now, start, checked, kept;
      }
      var before := data;
      data := Put(data, key, value, ttl, at);
      start := EvictIfNeeded();
      checked, kept := clock.last, data;
      if ctx.changed {
        data := before;
        return Some(ContextDone), now, start, checked, kept;
      }
      if !persists {
        data := before;
        return Some(PersistFailed), now, start, checked, kept;
      }
      Renew(key, ttl, at);
      return None, now, start, checked, kept;
    }

    /** After persisting: an entry that expired meanwhile gets a new expiry. */
    method Renew(key: string, ttl: int, at: int)
      requires Valid()
      modifies `data, clock
      ensures Valid() && clock.last >= old(clock.last) && data == Refresh(old(data), key, ttl, at, clock.last)
    {
      if ttl > 0 {
        var persistedAt := clock.Now();
        data := Refresh(data, key, ttl, at, persistedAt);
      }
    }

    method DeleteContext(ctx: Context, key: string, persists: bool) returns (err: Option<Error>)
      requires Valid()
      modifies `data
      ensures Valid()
      ensures err ==
              if ctx.onEntry || ctx.locked then Some(ContextDone)
              else if closed then Some(StoreClosed)
              else if !ValidKey(key) then Some(InvalidKey)
              else if key !in old(data) then Some(KeyNotFound)
              else if ctx.changed then Some(ContextDone)
              else if !persists then Some(PersistFailed)
              else None
      ensures data == if err.Some? then old(data) else old(data) - {key}
    {
      if ctx.onEntry || ctx.locked {
        return Some(ContextDone);
      }
      if closed {
        return Some(StoreClosed);
      }
      if !ValidKey(key) {
        return Some(InvalidKey);
      }
      if key !in data {
        return Some(KeyNotFound);
      }
      var before := data;
      data := data - {key};
      if ctx.changed {
        data := before;
        return Some(ContextDone);
      }
      if !persists {
        data := before;
        return Some(PersistFailed);
      }
      return None;
    }
  }

  function SetError(ctx: Context, closed: bool, key: string, value: string, maxMemory: int, persists: bool): Option<Error> {
    if ctx.onEntry || ctx.locked then Some(ContextDone)
    else if closed then Some(StoreClosed)
    else if !ValidKey(key) then Some(InvalidKey)
    else if EntrySize(key, value) > maxMemory then Some(ValueTooLarge)
    else if ctx.changed then Some(ContextDone)
    else if !persists then Some(PersistFailed)
    else None
  }

  /** Each outcome with the whole condition behind it. */
  lemma SetErrorCases(ctx: Context, closed: bool, key: string, value: string, maxMemory: int, persists: bool)
    ensures var e := SetError(ctx, closed, key, value, maxMemory, persists);
            var reached := !ctx.onEntry && !ctx.locked && !closed;
            var control := exists i :: 0 <= i < |key| && (key[i] as int < 0x20 || key[i] as int == 0x7f);
            var accepted := reached && key != "" && !control && |key| + |value| + 64 <= maxMemory;
            && (e == Some(StoreClosed) <==> !ctx.onEntry && !ctx.locked && closed)
            && (e == Some(InvalidKey) <==> reached && (key == "" || control))
            && (e == Some(ValueTooLarge) <==> reached && key != "" && !control && |key| + |value| + 64 > maxMemory)
            && (e == Some(ContextDone) <==> ctx.onEntry || ctx.locked || (accepted && ctx.changed))
            && (e == Some(PersistFailed) <==> accepted && !ctx.changed && !persists)
            && (e == None <==> accepted && !ctx.changed && persists)
  {
    assert ValidKey(key) <==>
           key != "" && !exists i :: 0 <= i < |key| && (key[i] as int < 0x20 || key[i] as int == 0x7f);
  }

  function Put(d: Data, key: string, value: string, ttl: int, now: int): Data {
    d[key := Entry(value, if ttl > 0 then Some(now + ttl) else None, now, EntrySize(key, value))]
  }

  /** A stored entry that expired while it was being persisted starts its time to live again. */
  function Refresh(d: Data, key: string, ttl: int, now: int, persistedAt: int): Data {
    if ttl > 0 && now + ttl < persistedAt && key in d then d[key := d[key].(expireAt := Some(persistedAt + ttl))] else d
  }

  // What a successful Set guarantees

  /**
   The limits hold after Set, and from then on, unless the new entry's time to live had run out by the
   last space check. Only then is it missing from that check and yet alive after the refresh.
   */
  lemma SetFits(d0: Data, key: string, value: string, ttl: int, now: int, kept: Data, checked: int, done: int, t: int,
                maxEntries: nat, maxMemory: int)
    requires Sized(kept) && Fits(kept, maxEntries, maxMemory, checked) && checked <= done <= t
    requires Submap(kept, Put(d0, key, value, ttl, now))
    ensures |Refresh(kept, key, ttl, now, done)| <= maxEntries
    ensures ttl <= 0 || key !in kept || checked < now + ttl ==> Fits(Refresh(kept, key, ttl, now, done), maxEntries, maxMemory, t)
  {
    var d := Refresh(kept, key, ttl, now, done);
    LiveShrinks(kept, checked, t);
    if d != kept {
      assert d.Keys == kept.Keys;
      assert |d| == |d.Keys| == |kept.Keys|;
      assert d - {key} == kept - {key};
      LiveShrinks(kept - {key}, checked, t);
      LiveRemove(d, key, t);
      LiveRemove(kept, key, checked);
    }
  }

  /** In that one case the limits hold exactly when the refreshed entry still fits beside the others. */
  lemma LateRefreshFits(d0: Data, key: string, value: string, ttl: int, now: int, kept: Data, checked: int, done: int,
                        maxEntries: nat, maxMemory: int)
    requires Sized(kept) && Fits(kept, maxEntries, maxMemory, checked) && checked <= done
    requires Submap(kept, Put(d0, key, value, ttl, now))
    requires key in kept && ttl > 0 && now + ttl <= checked && now + ttl < done
    ensures Fits(Refresh(kept, key, ttl, now, done), maxEntries, maxMemory, done) <==>
            LiveBytes(kept - {key}, done) + kept[key].size <= maxMemory
  {
    var d := Refresh(kept, key, ttl, now, done);
    assert d.Keys == kept.Keys;
    assert |d| == |d.Keys| == |kept.Keys|;
    assert d - {key} == kept - {key};
    LiveRemove(d, key, done);
  }

  /** One store that ends over its memory limit: a full store, and an entry whose time to live ran out on the way. */
  lemma LateRefreshOverflows(filler: string)
    requires |filler| == 1024 * 1024 - 65
    ensures var full := Entry(filler, None, 0, 1024 * 1024);
            var kept := Put(map["a" := full], "b", "", 1, 0);
            && Sized(kept) && Evicted(kept, Unexpired(kept, 0), 2, 1024 * 1024, 0) && Fits(kept, 2, 1024 * 1024, 1)
            && !Fits(Refresh(kept, "b", 1, 0, 2), 2, 1024 * 1024, 2)
  {
    var full := map["a" := Entry(filler, None, 0, 1024 * 1024)];
    var kept := Put(full, "b", "", 1, 0);
    assert kept.Keys == {"a", "b"} && |kept| == |kept.Keys|;
    assert kept - {"b"} == full;
    LiveRemove(kept, "b", 1);
    forall t: int
      ensures LiveBytes(full, t) == 1024 * 1024
    {
      LiveRemove(full, "a", t);
      assert full - {"a"} == map[] && Unexpired(full - {"a"}, t) == map[];
    }
    assert Fits(kept, 2, 1024 * 1024, 1);
    assert Unexpired(kept, 0) == kept;
    LateRefreshFits(full, "b", "", 1, 0, kept, 1, 2, 2, 1024 * 1024);
  }

  /**
   A new entry newer than all others and alive when space is made is there afterwards, with its value,
   and expired by then just when persisting ended at the very instant of its expiry. All other entries
   are old ones, unchanged.
   */
  lemma SetKeepsNewest(d: Data, key: string, value: string, ttl: int, now: int, start: int, kept: Data, done: int,
                       maxEntries: nat, maxMemory: int)
    requires EntrySize(key, value) <= maxMemory && (ttl <= 0 || start < now + ttl)
    requires forall j :: j in d && j != key ==> d[j].updatedAt < now
    requires Evicted(kept, Unexpired(Put(d, key, value, ttl, now), start), maxEntries, maxMemory, start)
    ensures var after := Refresh(kept, key, ttl, now, done);
            && key in after && after[key].value == value && after[key].updatedAt == now && after[key].size == |key| + |value| + 64
            && after[key].expireAt == (if ttl <= 0 then None else if now + ttl < done then Some(done + ttl) else Some(now + ttl))
            && (Expired(after[key], done) <==> ttl > 0 && done == now + ttl)
            && forall k :: k in after && k != key ==> k in d && after[k] == d[k]
  {
    var whole := Unexpired(Put(d, key, value, ttl, now), start);
    assert StrictlyNewest(whole, key);
  }

  lemma NonEmpty(d: Data, maxEntries: nat, maxMemory: int, now: int)
    requires !Fits(d, maxEntries, maxMemory, now) && maxMemory > 0
    ensures d != map[]
  {
    assert Unexpired(map[], now) == map[];
  }
}
