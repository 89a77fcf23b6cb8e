/** The write-back entity cache in front of the database: age-bounded reads,
    deferred or immediate writes, and a batch `flush` of everything dirty or
    queued. The database is a map from entity id to record; a failing
    database call is the parameter `ok == false`; `Date.now()` is `now`; the
    write-back timer is an explicit call of `Flush`. */
module EntityCache {
  import opened Wrappers

  datatype Twin = Ts | Js

  type Id = int

  /** An entity record as the database returns it; the cache never looks
      inside. */
  type Data = string

  datatype Entry = Entry(data: Data, dirty: bool, lastAccess: int)

  datatype Metrics = Metrics(
    cacheHits: nat,
    cacheMisses: nat,
    writesDeferred: nat,
    writesExecuted: nat,
    cacheSize: nat,
    lastWriteTime: int)

  /** The cached entries, the write queue (`None` is a queued delete of the
      JavaScript twin), the counters, and the database. */
  datatype Cache = Cache(entries: map<Id, Entry>, queue: map<Id, Option<Data>>, metrics: Metrics, db: map<Id, Data>)

  const DefaultMaxAge := 300000

  /** `new EntityCache(databaseManager)`. */
  function Create(db: map<Id, Data>, now: int): (c: Cache)
    ensures c.entries == map[] && c.queue == map[] && c.db == db
    ensures c.metrics == Metrics(0, 0, 0, 0, 0, now)
  {
    Cache(map[], map[], Metrics(0, 0, 0, 0, 0, now), db)
  }

  /** `options.maxAge || 300000`: a missing or zero age means five minutes. */
  function MaxAge(maxAge: Option<int>): (r: int)
    ensures maxAge == None || maxAge == Some(0) ==> r == DefaultMaxAge
    ensures maxAge.Some? && maxAge.value != 0 ==> r == maxAge.value
  {
    match maxAge
    case Some(a) => if a != 0 then a else DefaultMaxAge
    case None => DefaultMaxAge
  }

  /** The entry for `id` may be served without reading the database. */
  predicate Fresh(c: Cache, id: Id, now: int, forceRefresh: bool, maxAge: Option<int>)
  {
    !forceRefresh && id in c.entries && now - c.entries[id].lastAccess < MaxAge(maxAge)
  }

  /** `db.getEntity(id)`: the record, or `null`. */
  function Load(db: map<Id, Data>, id: Id): (r: Option<Data>)
    ensures r.Some? <==> id in db
    ensures r.Some? ==> r.value == db[id]
  {
    if id in db then Some(db[id]) else None
  }

  datatype Read = Read(cache: Cache, value: Option<Data>)

  /** `getEntity(id, options)`. A fresh entry is a hit: its data comes back
      and only its access time moves. Anything else is a miss that reads
      the database and caches a found record as clean, replacing whatever
      was cached, dirty or not. */
  function GetEntity(c: Cache, id: Id, now: int, forceRefresh: bool, maxAge: Option<int>): (r: Read)
    ensures r.cache.db == c.db && r.cache.queue == c.queue
    ensures Fresh(c, id, now, forceRefresh, maxAge) ==>
      && r.value == Some(c.entries[id].data)
      && r.cache.entries == c.entries[id := c.entries[id].(lastAccess := now)]
      && r.cache.metrics.cacheHits == c.metrics.cacheHits + 1
      && r.cache.metrics.cacheMisses == c.metrics.cacheMisses
    ensures !Fresh(c, id, now, forceRefresh, maxAge) ==>
      && r.value == Load(c.db, id)
      && r.cache.entries == (if id in c.db then c.entries[id := Entry(c.db[id], false, now)] else c.entries)
      && r.cache.metrics.cacheHits == c.metrics.cacheHits
      && r.cache.metrics.cacheMisses == c.metrics.cacheMisses + 1
  {
    if Fresh(c, id, now, forceRefresh, maxAge) then
      var e := c.entries[id];
      Read(c.(entries := c.entries[id := e.(lastAccess := now)], metrics := c.metrics.(cacheHits := c.metrics.cacheHits + 1)), Some(e.data))
    else
      var m := c.metrics.(cacheMisses := c.metrics.cacheMisses + 1);
      match Load(c.db, id)
      case Some(d) =>
        var entries := c.entries[id := Entry(d, false, now)];
        Read(c.(entries := entries, metrics := m.(cacheSize := |entries|)), Some(d))
      case None => Read(c.(metrics := m), None)
  }

  /** A record read from the database is served from the cache by the next
      read within its age, without touching the database. */
  lemma MissThenHit(c: Cache, id: Id, now: int, later: int, maxAge: Option<int>)
    requires id in c.db && !Fresh(c, id, now, false, maxAge)
    requires now <= later < now + MaxAge(maxAge)
    ensures var r1 := GetEntity(c, id, now, false, maxAge);
      var r2 := GetEntity(r1.cache, id, later, false, maxAge);
      && Fresh(r1.cache, id, later, false, maxAge)
      && r1.value == r2.value == Some(c.db[id])
      && r2.cache.metrics.cacheHits == c.metrics.cacheHits + 1
      && r2.cache.metrics.cacheMisses == c.metrics.cacheMisses + 1
  {
  }

  datatype Written = Written(cache: Cache, result: Result<bool>)

  /** `updateEntity(id, data, {immediate, markDirty})`. The entry is
      replaced first. An immediate write then goes to the database and
      leaves the entry clean; if the database call fails, the replaced
      entry stays and the error is returned. A deferred write is queued. */
  function UpdateEntity(c: Cache, id: Id, data: Data, now: int, immediate: bool, markDirty: bool, ok: bool): (r: Written)
    ensures id in r.cache.entries && r.cache.entries[id].data == data && r.cache.entries[id].lastAccess == now
    ensures forall k :: k != id ==> (k in r.cache.entries <==> k in c.entries) && (k in c.entries ==> r.cache.entries[k] == c.entries[k])
    ensures r.result.Ok? <==> !immediate || ok
    ensures r.result.Ok? ==> r.result.value
    ensures immediate && ok ==> r.cache.db == c.db[id := data] && !r.cache.entries[id].dirty && r.cache.queue == c.queue
    ensures immediate && !ok ==> r.cache.db == c.db && r.cache.queue == c.queue && r.cache.entries[id].dirty == markDirty
    ensures !immediate ==>
      && r.cache.db == c.db && r.cache.queue == c.queue[id := Some(data)] && r.cache.entries[id].dirty == markDirty
      && r.cache.metrics.writesDeferred == c.metrics.writesDeferred + 1
  {
    var entries := c.entries[id := Entry(data, markDirty, now)];
    if immediate then
      if ok then
        Written(c.(entries := entries[id := Entry(data, false, now)], db := c.db[id := data],
                   metrics := c.metrics.(writesExecuted := c.metrics.writesExecuted + 1)), Ok(true))
      else
        Written(c.(entries := entries), Err("database write failed"))
    else
      Written(c.(entries := entries, queue := c.queue[id := Some(data)],
                 metrics := c.metrics.(writesDeferred := c.metrics.writesDeferred + 1)), Ok(true))
  }

  /** `getDirtyEntities()`: the data of every dirty entry. */
  function Dirty(c: Cache): (r: map<Id, Data>)
    ensures forall id :: id in r <==> id in c.entries && c.entries[id].dirty
    ensures forall id :: id in r ==> r[id] == c.entries[id].data
  {
    map id | id in c.entries && c.entries[id].dirty :: c.entries[id].data
  }

  /** The batch `flush` writes: every dirty entry and every queued write,
      the queue winning for an id in both. */
  function Pending(c: Cache): (r: map<Id, Option<Data>>)
    ensures forall id :: id in r <==> id in Dirty(c) || id in c.queue
    ensures forall id :: id in c.queue ==> r[id] == c.queue[id]
    ensures forall id :: id in Dirty(c) && id !in c.queue ==> r[id] == Some(Dirty(c)[id])
  {
    var dirty := Dirty(c);
    (map id | id in dirty :: Some(dirty[id])) + c.queue
  }

  /** `updateEntitiesBatch`: upsert every update carrying data; a `null`
      update is skipped. */
  function WriteBatch(db: map<Id, Data>, updates: map<Id, Option<Data>>): (r: map<Id, Data>)
    ensures forall id :: id in updates && updates[id].Some? ==> id in r && r[id] == updates[id].value
    ensures forall id :: !(id in updates && updates[id].Some?) ==> (id in r <==> id in db) && (id in db ==> r[id] == db[id])
  {
    var written := set id | id in updates && updates[id].Some?;
    map id | id in db.Keys + written :: if id in written then updates[id].value else db[id]
  }

  datatype Flushed = Flushed(cache: Cache, result: Result<nat>)

  /** `flush()`. With nothing pending the database is not called and the
      count is 0. Otherwise one batch goes out; on success every written
      entry is marked clean, the queue is emptied and the count returned;
      on failure nothing changes and the error is rethrown. */
  function Flush(c: Cache, now: int, ok: bool): (r: Flushed)
    ensures |Pending(c)| == 0 ==> r == Flushed(c, Ok(0))
    ensures |Pending(c)| > 0 && !ok ==> r.cache == c && r.result.Err?
    ensures |Pending(c)| > 0 && ok ==>
      && r.result == Ok(|Pending(c)|)
      && r.cache.queue == map[]
      && (forall id :: id in r.cache.entries ==> !r.cache.entries[id].dirty)
      && r.cache.db == WriteBatch(c.db, Pending(c))
      && r.cache.metrics.writesExecuted == c.metrics.writesExecuted + |Pending(c)|
    ensures r.cache.entries.Keys == c.entries.Keys
    ensures forall id :: id in c.entries ==> r.cache.entries[id].data == c.entries[id].data
  {
    var p := Pending(c);
    if |p| == 0 then Flushed(c, Ok(0))
    else if !ok then Flushed(c, Err("database batch failed"))
    else
      var entries := map id | id in c.entries :: if id in p then c.entries[id].(dirty := false) else c.entries[id];
      Flushed(Cache(entries, map[], c.metrics.(writesExecuted := c.metrics.writesExecuted + |p|, lastWriteTime := now),
                    WriteBatch(c.db, p)), Ok(|p|))
  }

  /** After a successful flush nothing is pending. */
  lemma FlushLeavesNothingPending(c: Cache, now: int)
    ensures |Pending(Flush(c, now, true).cache)| == 0
  {
    var f := Flush(c, now, true).cache;
    NothingPending(c);
    assert Dirty(f) == map[];
    NothingPending(f);
  }

  /** Nothing is pending exactly when no entry is dirty and the queue is
      empty. */
  lemma NothingPending(c: Cache)
    ensures |Pending(c)| == 0 <==> Dirty(c) == map[] && c.queue == map[]
  {
    assert Pending(c).Keys == Dirty(c).Keys + c.queue.Keys;
    assert |Pending(c).Keys| == |Pending(c)|;
    if Dirty(c) == map[] && c.queue == map[] {
      assert Pending(c) == map[];
    }
  }

  /** A deferred write reaches the database with the next successful
      flush. */
  lemma DeferredWriteReachesDb(c: Cache, id: Id, data: Data, now: int, markDirty: bool, later: int)
    ensures var w := UpdateEntity(c, id, data, now, false, markDirty, true).cache;
      var f := Flush(w, later, true);
      && f.result.Ok? && f.result.value >= 1
      && f.cache.db == WriteBatch(c.db, Pending(w))
      && id in f.cache.db && f.cache.db[id] == data
  {
    var w := UpdateEntity(c, id, data, now, false, markDirty, true).cache;
    assert id in Pending(w);
    NothingPending(w);
  }

  /** An immediate write does not withdraw an earlier deferred write of the
      same entity: the next flush writes the queued, older data over it,
      while the cache keeps the newer data. */
  lemma QueuedWriteOutlivesImmediate(c: Cache, id: Id, older: Data, newer: Data, now: int, later: int)
    ensures var w1 := UpdateEntity(c, id, older, now, false, true, true).cache;
      var w2 := UpdateEntity(w1, id, newer, now, true, true, true).cache;
      var f := Flush(w2, later, true);
      && w2.db[id] == newer
      && f.cache.db[id] == older
      && f.cache.entries[id].data == newer
  {
    var w1 := UpdateEntity(c, id, older, now, false, true, true).cache;
    var w2 := UpdateEntity(w1, id, newer, now, true, true, true).cache;
    assert id in Pending(w2);
    NothingPending(w2);
  }

  /** A failed flush leaves everything pending for the next attempt. */
  lemma FailedFlushRetries(c: Cache, now: int, later: int)
    ensures var f := Flush(c, now, false);
      Pending(f.cache) == Pending(c) && Flush(f.cache, later, true) == Flush(c, later, true)
  {
  }

  /** `updateEntities(updates, options)` over the updates in iteration
      order; the first failing write rejects the whole call. */
  function UpdateEntities(c: Cache, updates: seq<(Id, Data)>, now: int, immediate: bool, markDirty: bool, ok: Id -> bool): (r: Written)
    ensures r.result.Ok? ==> r.result.value
    ensures !immediate ==> r.result.Ok? && r.cache.db == c.db
    decreases |updates|
  {
    if |updates| == 0 then Written(c, Ok(true))
    else
      var w := UpdateEntity(c, updates[0].0, updates[0].1, now, immediate, markDirty, ok(updates[0].0));
      if w.result.Err? then w
      else UpdateEntities(w.cache, updates[1..], now, immediate, markDirty, ok)
  }

  /** Some update in the list is for `id`. */
  predicate Mentions(updates: seq<(Id, Data)>, id: Id)
  {
    exists i :: 0 <= i < |updates| && updates[i].0 == id
  }

  /** The queue after queueing every update in order. */
  function QueueAfter(q: map<Id, Option<Data>>, updates: seq<(Id, Data)>): map<Id, Option<Data>>
    decreases |updates|
  {
    if |updates| == 0 then q
    else QueueAfter(q[updates[0].0 := Some(updates[0].1)], updates[1..])
  }

  /** Deferred updates only ever queue: the queue they leave is
      `QueueAfter`. */
  lemma {:induction false} UpdateEntitiesDeferred(c: Cache, updates: seq<(Id, Data)>, now: int, markDirty: bool, ok: Id -> bool)
    ensures UpdateEntities(c, updates, now, false, markDirty, ok).cache.queue == QueueAfter(c.queue, updates)
    decreases |updates|
  {
    if |updates| > 0 {
      var w := UpdateEntity(c, updates[0].0, updates[0].1, now, false, markDirty, ok(updates[0].0));
      UpdateEntitiesDeferred(w.cache, updates[1..], now, markDirty, ok);
    }
  }

  /** An id is mentioned by a non-empty list exactly when it is the first
      update's or is mentioned by the rest. */
  lemma MentionsCons(updates: seq<(Id, Data)>, id: Id)
    requires |updates| > 0
    ensures Mentions(updates, id) <==> id == updates[0].0 || Mentions(updates[1..], id)
  {
    var rest := updates[1..];
    if Mentions(updates, id) {
      var i :| 0 <= i < |updates| && updates[i].0 == id;
      if i > 0 { assert rest[i - 1].0 == id; }
    }
    if Mentions(rest, id) {
      var i :| 0 <= i < |rest| && rest[i].0 == id;
      assert updates[i + 1].0 == id;
    }
  }

  /** Queueing adds exactly the updated ids and leaves the entries of the
      others alone. */
  lemma {:induction false} QueueAfterKeys(q: map<Id, Option<Data>>, updates: seq<(Id, Data)>)
    ensures var q' := QueueAfter(q, updates);
      && (forall id :: id in q' <==> id in q || Mentions(updates, id))
      && (forall id :: id in q && !Mentions(updates, id) ==> q'[id] == q[id])
    decreases |updates|
  {
    if |updates| > 0 {
      QueueAfterKeys(q[updates[0].0 := Some(updates[0].1)], updates[1..]);
      forall id ensures Mentions(updates, id) <==> id == updates[0].0 || Mentions(updates[1..], id) {
        MentionsCons(updates, id);
      }
    }
  }

  /** Update `i` is the last one for its id. */
  predicate LastFor(updates: seq<(Id, Data)>, i: int)
    requires 0 <= i < |updates|
  {
    forall j :: i < j < |updates| ==> updates[j].0 != updates[i].0
  }

  /** The last update for an id is the one left queued for it. */
  lemma {:induction false} QueueAfterLastAt(q: map<Id, Option<Data>>, updates: seq<(Id, Data)>, i: int)
    requires 0 <= i < |updates| && LastFor(updates, i)
    ensures updates[i].0 in QueueAfter(q, updates)
    ensures QueueAfter(q, updates)[updates[i].0] == Some(updates[i].1)
    decreases |updates|
  {
    var rest := updates[1..];
    var q1 := q[updates[0].0 := Some(updates[0].1)];
    assert QueueAfter(q, updates) == QueueAfter(q1, rest);
    if i > 0 {
      assert rest[i - 1] == updates[i];
      assert LastFor(rest, i - 1) by {
        assert forall j :: i - 1 < j < |rest| ==> rest[j] == updates[j + 1];
      }
      QueueAfterLastAt(q1, rest, i - 1);
    } else {
      QueueAfterKeys(q1, rest);
      assert !Mentions(rest, updates[0].0) by {
        assert forall k :: 0 <= k < |rest| ==> rest[k].0 == updates[k + 1].0;
      }
    }
  }

  /** Deferred `updateEntities`: every updated id ends up queued with the
      data of its last update; only those ids are added to the queue. */
  lemma UpdateEntitiesQueued(c: Cache, updates: seq<(Id, Data)>, now: int, markDirty: bool, ok: Id -> bool)
    ensures var q := UpdateEntities(c, updates, now, false, markDirty, ok).cache.queue;
      && (forall id :: id in q <==> id in c.queue || Mentions(updates, id))
      && (forall id :: id in c.queue && !Mentions(updates, id) ==> q[id] == c.queue[id])
      && forall i :: 0 <= i < |updates| && (forall j :: i < j < |updates| ==> updates[j].0 != updates[i].0) ==>
        updates[i].0 in q && q[updates[i].0] == Some(updates[i].1)
  {
    UpdateEntitiesDeferred(c, updates, now, markDirty, ok);
    QueueAfterKeys(c.queue, updates);
    forall i | 0 <= i < |updates| && (forall j :: i < j < |updates| ==> updates[j].0 != updates[i].0)
      ensures updates[i].0 in UpdateEntities(c, updates, now, false, markDirty, ok).cache.queue
      ensures UpdateEntities(c, updates, now, false, markDirty, ok).cache.queue[updates[i].0] == Some(updates[i].1)
    {
      assert LastFor(updates, i);
      QueueAfterLastAt(c.queue, updates, i);
    }
  }

  /** `deleteEntity(id, {immediate})` (JavaScript twin): the entry and any
      queued write are dropped; an immediate delete removes the record from
      the database, a deferred one queues `null`. */
  function DeleteEntity(c: Cache, id: Id, immediate: bool, ok: bool): (r: Written)
    ensures id !in r.cache.entries
    ensures forall k :: k != id ==> (k in r.cache.entries <==> k in c.entries) && (k in c.entries ==> r.cache.entries[k] == c.entries[k])
    ensures forall k :: k != id ==> (k in r.cache.queue <==> k in c.queue) && (k in c.queue ==> r.cache.queue[k] == c.queue[k])
    ensures r.result.Ok? <==> !immediate || ok
    ensures immediate ==> id !in r.cache.queue
    ensures immediate && ok ==> r.cache.db == c.db - {id}
    ensures !(immediate && ok) ==> r.cache.db == c.db
    ensures !immediate ==> id in r.cache.queue && r.cache.queue[id] == None
  {
    var entries := c.entries - {id};
    var queue := c.queue - {id};
    if immediate then
      if ok then Written(Cache(entries, queue, c.metrics.(cacheSize := |entries|), c.db - {id}), Ok(true))
      else Written(c.(entries := entries, queue := queue), Err("database delete failed"))
    else
      Written(Cache(entries, queue[id := None], c.metrics.(cacheSize := |entries|), c.db), Ok(true))
  }

  /** A deferred delete never reaches the database: the batch skips the
      queued `null`, so the record survives the flush and the next read
      loads it back into the cache. */
  lemma DeferredDeleteNeverReachesDb(c: Cache, id: Id, now: int, later: int)
    requires id in c.db
    ensures var d := DeleteEntity(c, id, false, true).cache;
      var f := Flush(d, now, true);
      var r := GetEntity(f.cache, id, later, false, None);
      && f.result.Ok?
      && id in f.cache.db && f.cache.db[id] == c.db[id]
      && r.value == Some(c.db[id])
  {
    var d := DeleteEntity(c, id, false, true).cache;
    assert id in Pending(d);
    NothingPending(d);
  }

  /** How many of `ids` lie in `s`, duplicates counted. */
  function CountIn(ids: seq<Id>, s: set<Id>): (n: nat)
    ensures n <= |ids|
  {
    if |ids| == 0 then 0 else (if ids[0] in s then 1 else 0) + CountIn(ids[1..], s)
  }

  datatype Batch = Batch(cache: Cache, result: map<Id, Data>)

  /** `getEntities(ids, {forceRefresh})` (JavaScript twin). Cached ids are
      served from the cache with no age check; the others are read from the
      database in one batch and the records found cached as clean. Every
      occurrence of an id counts a hit or a miss. */
  function GetEntities(c: Cache, ids: seq<Id>, now: int, forceRefresh: bool): (r: Batch)
    ensures r.cache.db == c.db && r.cache.queue == c.queue
    ensures forall id :: id in r.result <==> id in ids && ((!forceRefresh && id in c.entries) || id in c.db)
    ensures forall id :: id in r.result && !forceRefresh && id in c.entries ==> r.result[id] == c.entries[id].data
    ensures forall id :: id in r.result && (forceRefresh || id !in c.entries) ==> r.result[id] == c.db[id]
    ensures r.cache.metrics.cacheHits + r.cache.metrics.cacheMisses == c.metrics.cacheHits + c.metrics.cacheMisses + |ids|
  {
    var cached := if forceRefresh then {} else set id | id in ids && id in c.entries;
    var found := set id | id in ids && id !in cached && id in c.db;
    var hits := CountIn(ids, cached);
    var entries := map id | id in c.entries.Keys + found ::
      if id in found then Entry(c.db[id], false, now)
      else if id in cached then c.entries[id].(lastAccess := now)
      else c.entries[id];
    var loading := exists i :: 0 <= i < |ids| && ids[i] !in cached;
    var m := c.metrics.(cacheHits := c.metrics.cacheHits + hits, cacheMisses := c.metrics.cacheMisses + (|ids| - hits));
    Batch(c.(entries := entries, metrics := if loading then m.(cacheSize := |entries|) else m),
          map id | id in cached + found :: if id in found then c.db[id] else c.entries[id].data)
  }

  /** Unlike `getEntity`, the batch read serves an expired entry: the two
      disagree on a dirty entry past its age whose record the database
      holds differently. */
  lemma BatchSkipsAgeCheck(c: Cache, id: Id, now: int, maxAge: Option<int>)
    requires id in c.entries && !Fresh(c, id, now, false, maxAge)
    ensures GetEntities(c, [id], now, false).result[id] == c.entries[id].data
    ensures GetEntity(c, id, now, false, maxAge).value == Load(c.db, id)
  {
  }

  /** `clear()` of the JavaScript twin, and the clearing `destroy()` of the
      TypeScript twin does: cache and queue emptied, the database kept. */
  function Clear(c: Cache, twin: Twin): (r: Cache)
    ensures r.entries == map[] && r.queue == map[] && r.db == c.db
    ensures twin == Js ==> r.metrics == c.metrics.(cacheSize := 0)
    ensures twin == Ts ==> r.metrics == c.metrics
    ensures Flush(r, 0, true) == Flushed(r, Ok(0))
  {
    var r := c.(entries := map[], queue := map[], metrics := if twin == Js then c.metrics.(cacheSize := 0) else c.metrics);
    assert Pending(r) == map[];
    r
  }

  datatype Report = Report(metrics: Metrics, cacheSize: nat, dirtyCount: nat, queueSize: nat, uptime: Option<int>, hitRate: real)

  /** `getMetrics()`: the counters with the live sizes and the hit rate;
      the JavaScript twin adds the time since the last write. */
  function GetMetrics(c: Cache, now: int, twin: Twin): (r: Report)
    ensures r.cacheSize == |c.entries| && r.dirtyCount == |Dirty(c)| && r.queueSize == |c.queue|
    ensures r.uptime.Some? <==> twin == Js
    ensures 0.0 <= r.hitRate <= 1.0
    ensures c.metrics.cacheHits + c.metrics.cacheMisses == 0 ==> r.hitRate == 0.0
    ensures c.metrics.cacheHits + c.metrics.cacheMisses > 0 ==>
      r.hitRate * (c.metrics.cacheHits + c.metrics.cacheMisses) as real == c.metrics.cacheHits as real
  {
    var lookups := c.metrics.cacheHits + c.metrics.cacheMisses;
    var rate := HitRate(c.metrics.cacheHits, lookups);
    Report(c.metrics.(cacheSize := |c.entries|), |c.entries|, |Dirty(c)|, |c.queue|,
           if twin == Js then Some(now - c.metrics.lastWriteTime) else None, rate)
  }

  /** `hits / (lookups || 1)`. */
  function HitRate(hits: nat, lookups: nat): (r: real)
    requires hits <= lookups
    ensures 0.0 <= r <= 1.0
    ensures lookups == 0 ==> r == 0.0
    ensures lookups > 0 ==> r * lookups as real == hits as real
  {
    if lookups == 0 then 0.0
    else
      var q := hits as real / lookups as real;
      assert q * lookups as real == hits as real;
      q
  }

  /** `resetMetrics()`: counters to zero, the size to the live size, the
      write time to now; entries, queue and database kept. */
  function ResetMetrics(c: Cache, now: int): (r: Cache)
    ensures r.entries == c.entries && r.queue == c.queue && r.db == c.db
    ensures r.metrics == Metrics(0, 0, 0, 0, |c.entries|, now)
    ensures GetMetrics(r, now, Js).hitRate == 0.0
  {
    c.(metrics := Metrics(0, 0, 0, 0, |c.entries|, now))
  }
}
