/** The client-side command buffer: commands sent to the server wait in a
    pending map until the server confirms or rejects them, the buffer is
    bounded by evicting the oldest tenth, and commands older than `maxAge`
    expire. The TypeScript class and its JavaScript twin share the core;
    the JavaScript twin adds retry bookkeeping, queries, statistics by type
    and state import/export. `Date.now()` is the parameter `now`. */
module CommandBuffer {
  import opened Wrappers
  import opened JsCollections
  import opened Protocol
  import Sorting

  /** A buffered command. `kind` is the source's `type`; `data` stands for
      every property the buffer does not read. */
  datatype Command = Command(
    id: string,
    kind: string,
    entity: JsValue,
    data: JsValue,
    timestamp: real,
    status: string,
    serverData: JsValue,
    bufferAdded: Option<real>,
    retryCount: int,
    lastRetry: Option<real>,
    statusUpdated: Option<real>)

  type Commands = Map<string, Command>

  datatype Buffer = Buffer(commands: Commands, confirmed: Commands, rejected: Commands, maxSize: int, maxAge: real)

  /** `new CommandBuffer(maxSize, maxAge)`; the defaults are 100 and 30000 ms. */
  function Create(maxSize: int, maxAge: real): (r: Buffer)
    ensures Inv(r)
    ensures r.commands.Size() == 0 && r.confirmed.Size() == 0 && r.rejected.Size() == 0
    ensures r.maxSize == maxSize && r.maxAge == maxAge
  {
    Buffer(EmptyMap(), EmptyMap(), EmptyMap(), maxSize, maxAge)
  }

  const DefaultMaxSize := 100
  const DefaultMaxAge := 30000.0

  /** Every command is stored under its own id. */
  ghost predicate Keyed(m: Commands)
  {
    m.Valid() && forall k :: k in m.entries ==> m.entries[k].id == k
  }

  ghost predicate Inv(b: Buffer)
  {
    Keyed(b.commands) && Keyed(b.confirmed) && Keyed(b.rejected)
  }

  function Ids(cs: seq<Command>): (r: seq<string>)
    ensures |r| == |cs|
    ensures forall i :: 0 <= i < |cs| ==> r[i] == cs[i].id
  {
    seq(|cs|, i requires 0 <= i < |cs| => cs[i].id)
  }

  /** The values of the keys `order` that satisfy `p`, in key order. */
  function WhereIn(order: seq<string>, entries: map<string, Command>, p: Command -> bool): seq<Command>
  {
    if |order| == 0 then []
    else
      var rest := WhereIn(order[1..], entries, p);
      if order[0] in entries && p(entries[order[0]]) then [entries[order[0]]] + rest else rest
  }

  /** `Array.from(m.values()).filter(p)`. */
  function Where(m: Commands, p: Command -> bool): seq<Command>
  {
    WhereIn(m.order, m.entries, p)
  }

  lemma {:induction false} WhereInMembers(order: seq<string>, entries: map<string, Command>, p: Command -> bool)
    requires forall k :: k in order ==> k in entries && entries[k].id == k
    ensures var r := WhereIn(order, entries, p);
      && (forall c :: c in r <==> c.id in order && entries[c.id] == c && p(c))
      && |r| <= |order|
      && (NoDup(order) ==> NoDup(Ids(r)))
  {
    if |order| > 0 {
      WhereInMembers(order[1..], entries, p);
      var rest := WhereIn(order[1..], entries, p);
      var k := order[0];
      assert order == [k] + order[1..];
      if k in entries && p(entries[k]) {
        var r := [entries[k]] + rest;
        if NoDup(order) {
          assert k !in order[1..];
          assert NoDup(order[1..]) by {
            forall i, j | 0 <= i < j < |order[1..]| ensures order[1..][i] != order[1..][j] {
              assert order[i + 1] != order[j + 1];
            }
          }
          forall i, j | 0 <= i < j < |r| ensures Ids(r)[i] != Ids(r)[j] {
            if i == 0 {
              assert r[j] in rest;
            } else {
              assert Ids(rest)[i - 1] != Ids(rest)[j - 1];
            }
          }
        }
      } else {
        if NoDup(order) {
          assert NoDup(order[1..]) by {
            forall i, j | 0 <= i < j < |order[1..]| ensures order[1..][i] != order[1..][j] {
              assert order[i + 1] != order[j + 1];
            }
          }
        }
      }
    }
  }

  /** On a keyed map, `Where` returns exactly the stored commands that
      satisfy `p`, each once. */
  lemma WhereMembers(m: Commands, p: Command -> bool)
    ensures Keyed(m) ==> forall c :: c in Where(m, p) <==> c.id in m.entries && m.entries[c.id] == c && p(c)
    ensures Keyed(m) ==> NoDup(Ids(Where(m, p)))
    ensures Keyed(m) ==> |Where(m, p)| <= m.Size()
  {
    if Keyed(m) {
      WhereInMembers(m.order, m.entries, p);
    }
  }

  /** A filter that keeps everything lists all the values in key order. */
  lemma {:induction false} WhereAll(order: seq<string>, entries: map<string, Command>, p: Command -> bool)
    requires forall k :: k in order ==> k in entries && p(entries[k])
    ensures var r := WhereIn(order, entries, p);
      |r| == |order| && forall i :: 0 <= i < |order| ==> r[i] == entries[order[i]]
  {
    if |order| > 0 {
      WhereAll(order[1..], entries, p);
    }
  }

  predicate Always(c: Command) { true }

  /** `Array.from(m.values())`. */
  function Values(m: Commands): seq<Command>
  {
    Where(m, Always)
  }

  lemma ValuesExact(m: Commands)
    ensures Keyed(m) ==> |Values(m)| == m.Size()
    ensures Keyed(m) ==> forall i :: 0 <= i < m.Size() ==> Values(m)[i] == m.entries[m.order[i]]
    ensures Keyed(m) ==> forall c :: c in Values(m) <==> c.id in m.entries && m.entries[c.id] == c
    ensures Keyed(m) ==> NoDup(Ids(Values(m)))
  {
    if Keyed(m) {
      WhereAll(m.order, m.entries, Always);
      WhereMembers(m, Always);
    }
  }

  /** `ids.forEach(id => m.delete(id))`. */
  function DeleteAll(m: Commands, ids: seq<string>): Commands
    decreases |ids|
  {
    if |ids| == 0 then m else DeleteAll(m.Delete(ids[0]), ids[1..])
  }

  lemma {:induction false} DeleteAllEntries(m: Commands, ids: seq<string>)
    decreases |ids|
    ensures var r := DeleteAll(m, ids);
      && (forall k :: k in r.entries <==> k in m.entries && k !in ids)
      && (forall k :: k in r.entries ==> r.entries[k] == m.entries[k])
      && (Keyed(m) ==> Keyed(r))
  {
    if |ids| > 0 {
      DeleteAllEntries(m.Delete(ids[0]), ids[1..]);
      assert ids == [ids[0]] + ids[1..];
    }
  }

  lemma {:induction false} DeleteAllSize(m: Commands, ids: seq<string>)
    decreases |ids|
    requires m.Valid() && NoDup(ids) && forall k :: k in ids ==> k in m.entries
    ensures DeleteAll(m, ids).Size() == m.Size() - |ids|
  {
    if |ids| > 0 {
      var m' := m.Delete(ids[0]);
      assert ids[0] in m.order;
      assert NoDup(ids[1..]) by {
        forall i, j | 0 <= i < j < |ids[1..]| ensures ids[1..][i] != ids[1..][j] {
          assert ids[i + 1] != ids[j + 1];
        }
      }
      forall k | k in ids[1..] ensures k in m'.entries {
        var j :| 0 <= j < |ids[1..]| && ids[1..][j] == k;
        assert ids[j + 1] != ids[0];
      }
      DeleteAllSize(m', ids[1..]);
    }
  }

  /** Deleting distinct stored ids removes exactly those entries. */
  lemma DeleteAllFacts(m: Commands, ids: seq<string>)
    ensures var r := DeleteAll(m, ids);
      && (forall k :: k in r.entries <==> k in m.entries && k !in ids)
      && (forall k :: k in r.entries ==> r.entries[k] == m.entries[k])
      && (Keyed(m) ==> Keyed(r))
      && (Keyed(m) && NoDup(ids) && (forall k :: k in ids ==> k in m.entries) ==> r.Size() == m.Size() - |ids|)
  {
    DeleteAllEntries(m, ids);
    if Keyed(m) && NoDup(ids) && (forall k :: k in ids ==> k in m.entries) {
      DeleteAllSize(m, ids);
    }
  }

  /** Whether a command is older than `maxAge` at `now`. */
  function ExpiredAt(now: real, maxAge: real): Command -> bool
  {
    (c: Command) => now - c.timestamp > maxAge
  }

  /** `getExpiredCommands()`. */
  function Expired(b: Buffer, now: real): (r: seq<Command>)
    ensures Keyed(b.commands) ==> forall c :: c in r <==> c.id in b.commands.entries && b.commands.entries[c.id] == c && now - c.timestamp > b.maxAge
  {
    WhereMembers(b.commands, ExpiredAt(now, b.maxAge));
    Where(b.commands, ExpiredAt(now, b.maxAge))
  }

  datatype Cleaned = Cleaned(buffer: Buffer, removed: nat)

  /** `cleanupExpired()`: deletes the expired pending commands and reports
      how many there were. */
  function CleanupExpired(b: Buffer, now: real): (r: Cleaned)
    ensures r.buffer.confirmed == b.confirmed && r.buffer.rejected == b.rejected
    ensures r.buffer.maxSize == b.maxSize && r.buffer.maxAge == b.maxAge
    ensures r.removed == |Expired(b, now)|
  {
    var expired := Expired(b, now);
    Cleaned(b.(commands := DeleteAll(b.commands, Ids(expired))), |expired|)
  }

  /** Exactly the expired commands go; the rest stay as they were, and the
      pending count drops by the number reported. */
  lemma CleanupExpiredExact(b: Buffer, now: real)
    ensures var r := CleanupExpired(b, now);
      Inv(b) ==>
      && Inv(r.buffer)
      && (forall k :: k in r.buffer.commands.entries <==> k in b.commands.entries && now - b.commands.entries[k].timestamp <= b.maxAge)
      && (forall k :: k in r.buffer.commands.entries ==> r.buffer.commands.entries[k] == b.commands.entries[k])
      && r.buffer.commands.Size() == b.commands.Size() - r.removed
  {
    if Inv(b) {
      var expired := Expired(b, now);
      WhereMembers(b.commands, ExpiredAt(now, b.maxAge));
      DeleteAllFacts(b.commands, Ids(expired));
      forall k | k in b.commands.entries && now - b.commands.entries[k].timestamp > b.maxAge
        ensures k in Ids(expired)
      {
        var c := b.commands.entries[k];
        assert c in expired;
        var i :| 0 <= i < |expired| && expired[i] == c;
        assert Ids(expired)[i] == k;
      }
      forall k | k in Ids(expired) ensures k in b.commands.entries && now - b.commands.entries[k].timestamp > b.maxAge {
        var i :| 0 <= i < |expired| && Ids(expired)[i] == k;
        assert expired[i] in expired;
      }
    }
  }

  function Stamp(c: Command): real { c.timestamp }

  function Max(a: int, b: int): int { if a >= b then a else b }

  /** `Math.max(1, Math.floor(n * 0.1))`: for a whole `n` the double product
      `n * 0.1` never falls below the next lower whole number, so its floor
      is `n / 10`. */
  function EvictCount(n: nat): (r: nat)
    ensures n >= 1 ==> 1 <= r <= n
    ensures r * 10 <= n || r == 1
    ensures n >= 10 ==> n < (r + 1) * 10
  {
    Max(1, n / 10)
  }

  /** `cleanupOldest()`: sorts the pending commands by timestamp (a stable
      sort, ties in insertion order) and deletes the first `EvictCount`. */
  function CleanupOldest(m: Commands): Commands
  {
    var cs := Values(m);
    if |cs| == 0 then m
    else
      var sorted := Sorting.SortBy(cs, Stamp);
      DeleteAll(m, Ids(sorted[..EvictCount(|cs|)]))
  }

  /** The sorted copy of a keyed map's values: each element is stored under
      its id, and the ids are distinct. */
  lemma SortedValues(m: Commands)
    requires Keyed(m)
    ensures var s := Sorting.SortBy(Values(m), Stamp);
      && |s| == m.Size()
      && (forall c :: c in s <==> c.id in m.entries && m.entries[c.id] == c)
      && NoDup(Ids(s))
  {
    var cs := Values(m);
    var s := Sorting.SortBy(cs, Stamp);
    ValuesExact(m);
    forall c ensures c in s <==> c in cs {
      assert c in s <==> c in multiset(s);
      assert c in cs <==> c in multiset(cs);
    }
    forall i, j | 0 <= i < j < |s| ensures Ids(s)[i] != Ids(s)[j] {
      assert NoDup(cs) by {
        forall p, q | 0 <= p < q < |cs| ensures cs[p] != cs[q] {
          assert Ids(cs)[p] != Ids(cs)[q];
        }
      }
      NoDupPerm(cs, s);
      assert s[i] in s && s[j] in s;
    }
  }

  /** The ids of a sorted prefix are distinct and all stored. */
  lemma PrefixIds(m: Commands, s: seq<Command>, n: nat)
    requires n <= |s| && NoDup(Ids(s))
    requires forall c :: c in s <==> c.id in m.entries && m.entries[c.id] == c
    ensures NoDup(Ids(s[..n]))
    ensures forall k :: k in Ids(s[..n]) ==> k in m.entries
  {
    var gone := Ids(s[..n]);
    forall i, j | 0 <= i < j < |gone| ensures gone[i] != gone[j] {
      assert gone[i] == Ids(s)[i] && gone[j] == Ids(s)[j];
    }
    forall k | k in gone ensures k in m.entries {
      var i :| 0 <= i < n && gone[i] == k;
      assert s[i] in s;
    }
  }

  /** A command whose id is among the prefix's ids lies in the prefix. */
  lemma InPrefix(m: Commands, s: seq<Command>, n: nat, a: string)
    requires n <= |s| && a in Ids(s[..n]) && a in m.entries
    requires forall c :: c in s ==> c.id in m.entries && m.entries[c.id] == c
    ensures m.entries[a] in s[..n]
  {
    var i :| 0 <= i < n && Ids(s[..n])[i] == a;
    assert s[i] in s && s[..n][i] == s[i];
  }

  /** A stored command whose id is not among the prefix's ids lies after it. */
  lemma InSuffix(m: Commands, s: seq<Command>, n: nat, k: string)
    requires n <= |s| && k !in Ids(s[..n]) && k in m.entries && m.entries[k].id == k
    requires m.entries[k] in s
    ensures m.entries[k] in s[n..]
  {
    var j :| 0 <= j < |s| && s[j] == m.entries[k];
    assert s[n..][j - n] == s[j];
  }

  /** Deleting the ids of a sorted prefix leaves only commands no older
      than every deleted one. */
  lemma PrefixOldest(m: Commands, s: seq<Command>, n: nat, r: Commands)
    requires n <= |s| && Sorting.Sorted(s, Stamp)
    requires forall c :: c in s <==> c.id in m.entries && m.entries[c.id] == c
    requires forall k :: k in r.entries <==> k in m.entries && k !in Ids(s[..n])
    requires forall k :: k in m.entries ==> m.entries[k].id == k
    ensures forall a, k :: a in m.entries && a !in r.entries && k in r.entries ==> m.entries[a].timestamp <= m.entries[k].timestamp
  {
    Sorting.PrefixBelow(s, n, Stamp);
    forall a, k | a in m.entries && a !in r.entries && k in r.entries
      ensures m.entries[a].timestamp <= m.entries[k].timestamp
    {
      InPrefix(m, s, n, a);
      InSuffix(m, s, n, k);
      assert Stamp(m.entries[a]) <= Stamp(m.entries[k]);
    }
  }

  /** `cleanupOldest` removes exactly `EvictCount(n)` of the `n` pending
      commands, and none that it removes is newer than one it keeps. */
  lemma OldestEvicted(m: Commands)
    requires Keyed(m) && m.Size() >= 1
    ensures var r := CleanupOldest(m);
      && Keyed(r)
      && r.Size() == m.Size() - EvictCount(m.Size())
      && (forall k :: k in r.entries ==> k in m.entries && r.entries[k] == m.entries[k])
      && (forall a, k :: a in m.entries && a !in r.entries && k in r.entries ==> m.entries[a].timestamp <= m.entries[k].timestamp)
  {
    var cs := Values(m);
    ValuesExact(m);
    SortedValues(m);
    var s := Sorting.SortBy(cs, Stamp);
    var n := EvictCount(|cs|);
    PrefixIds(m, s, n);
    DeleteAllFacts(m, Ids(s[..n]));
    PrefixOldest(m, s, n, CleanupOldest(m));
  }

  /** The copy `add` stores: `{...command, _bufferAdded: now, _retryCount: 0,
      _lastRetry: null}`. */
  function Enrich(c: Command, now: real): (r: Command)
    ensures r.id == c.id && r.kind == c.kind && r.entity == c.entity && r.data == c.data
    ensures r.timestamp == c.timestamp && r.status == c.status && r.serverData == c.serverData
    ensures r.statusUpdated == c.statusUpdated
    ensures r.bufferAdded == Some(now) && r.retryCount == 0 && r.lastRetry == None
  {
    c.(bufferAdded := Some(now), retryCount := 0, lastRetry := None)
  }

  /** The pending map `add` stores into: the oldest tenth evicted when the
      map is full. */
  function Room(b: Buffer): Commands
  {
    if b.commands.Size() >= b.maxSize then CleanupOldest(b.commands) else b.commands
  }

  /** Making room keeps a subset of the pending commands, unchanged, one
      fewer at least when the map was full, and only the oldest go. */
  lemma RoomFacts(b: Buffer)
    requires Inv(b)
    ensures var m := Room(b);
      && Keyed(m)
      && (forall k :: k in m.entries ==> k in b.commands.entries && m.entries[k] == b.commands.entries[k])
      && (b.commands.Size() >= b.maxSize && b.commands.Size() >= 1 ==> m.Size() < b.commands.Size())
      && (b.commands.Size() < b.maxSize ==> m == b.commands)
      && (forall a, k :: a in b.commands.entries && a !in m.entries && k in m.entries ==> b.commands.entries[a].timestamp <= b.commands.entries[k].timestamp)
  {
    if b.commands.Size() >= b.maxSize {
      if b.commands.Size() >= 1 {
        OldestEvicted(b.commands);
      } else {
        ValuesExact(b.commands);
      }
    }
  }

  /** `add(command)`: makes room when the pending map is full, stores the
      enriched copy under the command's id (replacing any command with that
      id in place), and every time the pending count is a multiple of ten
      drops the expired commands. */
  function Add(b: Buffer, c: Command, now: real): (r: Buffer)
    ensures r.confirmed == b.confirmed && r.rejected == b.rejected
    ensures r.maxSize == b.maxSize && r.maxAge == b.maxAge
  {
    var added := Added(b, c, now);
    if added.commands.Size() % 10 == 0 then CleanupExpired(added, now).buffer else added
  }

  /** The buffer once room is made and the enriched command stored. */
  function Added(b: Buffer, c: Command, now: real): Buffer
  {
    b.(commands := Room(b).Set(c.id, Enrich(c, now)))
  }

  /** Storing keeps the buffer keyed, holds the enriched command under its
      id and otherwise only commands that were pending, unchanged. */
  lemma AddedFacts(b: Buffer, c: Command, now: real)
    requires Inv(b)
    ensures var a := Added(b, c, now);
      && Inv(a)
      && c.id in a.commands.entries && a.commands.entries[c.id] == Enrich(c, now)
      && forall k :: k in a.commands.entries && k != c.id ==>
           k in b.commands.entries && a.commands.entries[k] == b.commands.entries[k]
  {
    RoomFacts(b);
  }

  /** `add` keeps every command under its own id and, with a capacity of at
      least one, never lets the pending count exceed it. */
  lemma AddBounded(b: Buffer, c: Command, now: real)
    requires Inv(b) && b.maxSize >= 1 && b.commands.Size() <= b.maxSize
    ensures Inv(Add(b, c, now)) && Add(b, c, now).commands.Size() <= b.maxSize
  {
    RoomFacts(b);
    var added := Added(b, c, now);
    assert Inv(added);
    CleanupExpiredExact(added, now);
  }

  /** The added command is stored, enriched, unless it has already
      expired when the periodic cleanup runs. */
  lemma AddStores(b: Buffer, c: Command, now: real)
    requires Inv(b)
    ensures var r := Add(b, c, now);
      now - c.timestamp <= b.maxAge ==> r.commands.Get(c.id) == Some(Enrich(c, now))
  {
    AddedFacts(b, c, now);
    CleanupExpiredExact(Added(b, c, now), now);
  }

  /** Every other command `add` leaves is one that was there, unchanged. */
  lemma AddKeepsOthers(b: Buffer, c: Command, now: real)
    requires Inv(b)
    ensures var r := Add(b, c, now);
      forall k :: k in r.commands.entries && k != c.id ==> k in b.commands.entries && r.commands.entries[k] == b.commands.entries[k]
  {
    AddedFacts(b, c, now);
    CleanupExpiredExact(Added(b, c, now), now);
  }

  /** `get(id)`: the pending command with that id, if any. */
  function Get(b: Buffer, id: string): (r: Option<Command>)
    ensures r.Some? <==> id in b.commands.entries
    ensures r.Some? ==> r.value == b.commands.entries[id]
  {
    b.commands.Get(id)
  }

  datatype Updated = Updated(buffer: Buffer, found: bool)

  /** `updateStatus(id, status, serverData)`: a known pending command takes
      the new status, the server data and the time; 'confirmed' and
      'rejected' move it to that map, any other status leaves it pending. */
  function UpdateStatus(b: Buffer, id: string, status: string, serverData: JsValue, now: real): (r: Updated)
    ensures !r.found <==> id !in b.commands.entries
    ensures !r.found ==> r.buffer == b
    ensures r.buffer.maxSize == b.maxSize && r.buffer.maxAge == b.maxAge
  {
    match b.commands.Get(id)
    case None => Updated(b, false)
    case Some(c) =>
      var u := c.(status := status, serverData := serverData, statusUpdated := Some(now));
      if status == "confirmed" then
        Updated(b.(confirmed := b.confirmed.Set(id, u), commands := b.commands.Delete(id)), true)
      else if status == "rejected" then
        Updated(b.(rejected := b.rejected.Set(id, u), commands := b.commands.Delete(id)), true)
      else
        Updated(b.(commands := b.commands.Set(id, u)), true)
  }

  /** Where a known command ends up after `updateStatus`: in exactly one
      of the three maps, chosen by the status, carrying the new status,
      server data and time; nothing else in the buffer changes. */
  lemma UpdateStatusMoves(b: Buffer, id: string, status: string, serverData: JsValue, now: real)
    requires Inv(b) && id in b.commands.entries
    ensures var r := UpdateStatus(b, id, status, serverData, now).buffer;
      var u := b.commands.entries[id].(status := status, serverData := serverData, statusUpdated := Some(now));
      && Inv(r)
      && (id in r.commands.entries <==> status != "confirmed" && status != "rejected")
      && (status == "confirmed" ==> r.confirmed.Get(id) == Some(u))
      && (status == "rejected" ==> r.rejected.Get(id) == Some(u))
      && (status != "confirmed" && status != "rejected" ==> r.commands.Get(id) == Some(u) && r.commands.order == b.commands.order)
      && (forall k :: k != id ==> r.commands.Get(k) == b.commands.Get(k) && r.confirmed.Get(k) == b.confirmed.Get(k) && r.rejected.Get(k) == b.rejected.Get(k))
  {
    var c := b.commands.entries[id];
    assert b.commands.Get(id) == Some(c);
    var u := c.(status := status, serverData := serverData, statusUpdated := Some(now));
    var r := UpdateStatus(b, id, status, serverData, now).buffer;
    if status == "confirmed" {
      assert r == b.(confirmed := b.confirmed.Set(id, u), commands := b.commands.Delete(id));
    } else if status == "rejected" {
      assert r == b.(rejected := b.rejected.Set(id, u), commands := b.commands.Delete(id));
    } else {
      assert r == b.(commands := b.commands.Set(id, u));
    }
  }

  /** The number of commands the buffer holds in all three maps. */
  function Total(b: Buffer): nat
  {
    b.commands.Size() + b.confirmed.Size() + b.rejected.Size()
  }

  /** Moving a command between maps keeps the total, unless the target map
      already held a command with that id, which the move replaces. */
  lemma UpdateStatusKeepsTotal(b: Buffer, id: string, status: string, serverData: JsValue, now: real)
    requires Inv(b) && id in b.commands.entries && id !in b.confirmed.entries && id !in b.rejected.entries
    ensures Total(UpdateStatus(b, id, status, serverData, now).buffer) == Total(b)
  {
    assert id in b.commands.order && id !in b.confirmed.order && id !in b.rejected.order;
  }

  /** `remove(id)`: forgets the id in all three maps. */
  function Remove(b: Buffer, id: string): (r: Buffer)
    ensures id !in r.commands.entries && id !in r.confirmed.entries && id !in r.rejected.entries
    ensures forall k :: k != id ==> r.commands.Get(k) == b.commands.Get(k) && r.confirmed.Get(k) == b.confirmed.Get(k) && r.rejected.Get(k) == b.rejected.Get(k)
    ensures Inv(b) ==> Inv(r)
    ensures r.maxSize == b.maxSize && r.maxAge == b.maxAge
  {
    b.(commands := b.commands.Delete(id), confirmed := b.confirmed.Delete(id), rejected := b.rejected.Delete(id))
  }

  /** `clear()`: all three maps emptied, the configuration kept. */
  function Clear(b: Buffer): (r: Buffer)
    ensures Inv(r) && Total(r) == 0
    ensures r.maxSize == b.maxSize && r.maxAge == b.maxAge
  {
    b.(commands := EmptyMap(), confirmed := EmptyMap(), rejected := EmptyMap())
  }

  predicate IsPending(c: Command) { c.status == "pending" }

  /** `getPendingCommands()`: the commands in the pending map whose status
      is 'pending', in insertion order. Commands given another status by
      `updateStatus` stay in the map but are not listed. */
  function PendingCommands(b: Buffer): (r: seq<Command>)
    ensures Keyed(b.commands) ==> forall c :: c in r <==> c.id in b.commands.entries && b.commands.entries[c.id] == c && c.status == "pending"
  {
    WhereMembers(b.commands, IsPending);
    Where(b.commands, IsPending)
  }

  /** `Math.round`: the nearest whole number, halves rounded up. */
  function Round(x: real): (r: int)
    ensures x - 0.5 < r as real <= x + 0.5
  {
    (x + 0.5).Floor
  }

  /** `(cmd._statusUpdated || now) - cmd.timestamp`. */
  function Latency(c: Command, now: real): real
  {
    (if c.statusUpdated.Some? && c.statusUpdated.value != 0.0 then c.statusUpdated.value else now) - c.timestamp
  }

  function SumLatency(cs: seq<Command>, now: real): real
  {
    if |cs| == 0 then 0.0 else SumLatency(cs[..|cs| - 1], now) + Latency(cs[|cs| - 1], now)
  }

  /** The mean latency of the confirmed commands, 0 when there are none. */
  function AverageLatency(cs: seq<Command>, now: real): (r: real)
    ensures |cs| > 0 ==> r * |cs| as real == SumLatency(cs, now)
    ensures |cs| == 0 ==> r == 0.0
  {
    if |cs| > 0 then SumLatency(cs, now) / |cs| as real else 0.0
  }

  /** A sum of latencies lies between `n` times the smallest and `n` times
      the largest bound. */
  lemma {:induction false} SumLatencyBounds(cs: seq<Command>, now: real, lo: real, hi: real)
    requires forall i :: 0 <= i < |cs| ==> lo <= Latency(cs[i], now) <= hi
    ensures |cs| as real * lo <= SumLatency(cs, now) <= |cs| as real * hi
  {
    if |cs| > 0 {
      SumLatencyBounds(cs[..|cs| - 1], now, lo, hi);
    }
  }

  /** The average latency lies within any bounds every confirmed command's
      latency lies within. */
  lemma AverageLatencyBounds(cs: seq<Command>, now: real, lo: real, hi: real)
    requires |cs| > 0
    requires forall i :: 0 <= i < |cs| ==> lo <= Latency(cs[i], now) <= hi
    ensures lo <= AverageLatency(cs, now) <= hi
  {
    SumLatencyBounds(cs, now, lo, hi);
    var n := |cs| as real;
    var a := AverageLatency(cs, now);
    assert a * n >= lo * n;
    assert a * n <= hi * n;
  }

  datatype Stats = Stats(total: nat, pending: nat, confirmed: nat, rejected: nat, avgLatency: int)

  /** `getStats()`: the counts of the three maps, their sum, and the
      rounded mean latency of the confirmed commands. */
  function GetStats(b: Buffer, now: real): (r: Stats)
    ensures r.total == r.pending + r.confirmed + r.rejected == Total(b)
    ensures r.pending == b.commands.Size() && r.confirmed == b.confirmed.Size() && r.rejected == b.rejected.Size()
    ensures var avg := AverageLatency(Values(b.confirmed), now);
      avg - 0.5 < r.avgLatency as real <= avg + 0.5
    ensures b.confirmed.Size() == 0 ==> r.avgLatency == 0
  {
    var avg := AverageLatency(Values(b.confirmed), now);
    Stats(Total(b), b.commands.Size(), b.confirmed.Size(), b.rejected.Size(), Round(avg))
  }

  /** `getCommandsByType(type)` (JavaScript twin). */
  function OfKind(kind: string): Command -> bool
  {
    (c: Command) => c.kind == kind
  }

  function CommandsByType(b: Buffer, kind: string): (r: seq<Command>)
    ensures Keyed(b.commands) ==> forall c :: c in r <==> c.id in b.commands.entries && b.commands.entries[c.id] == c && c.kind == kind
  {
    WhereMembers(b.commands, OfKind(kind));
    Where(b.commands, OfKind(kind))
  }

  /** `getCommandsForEntity(entityId)` (JavaScript twin): `===` on the
      entity id. */
  function ForEntity(entity: JsValue): Command -> bool
  {
    (c: Command) => StrictEq(c.entity, entity)
  }

  function CommandsForEntity(b: Buffer, entity: JsValue): (r: seq<Command>)
    ensures Keyed(b.commands) ==> forall c :: c in r <==> c.id in b.commands.entries && b.commands.entries[c.id] == c && StrictEq(c.entity, entity)
  {
    WhereMembers(b.commands, ForEntity(entity));
    Where(b.commands, ForEntity(entity))
  }

  /** The `some` test of `hasPendingCommand`; `kind == None` is a `type` of
      `null`. */
  predicate PendingOfKind(c: Command, kind: Option<string>)
  {
    c.status == "pending" && (kind.None? || c.kind == kind.value)
  }

  /** `hasPendingCommand(entityId, type)` (JavaScript twin). */
  function HasPendingCommand(b: Buffer, entity: JsValue, kind: Option<string>): (r: bool)
  {
    var cs := CommandsForEntity(b, entity);
    exists i :: 0 <= i < |cs| && PendingOfKind(cs[i], kind)
  }

  /** True exactly when some command in the pending map belongs to the
      entity, has status 'pending', and has the given type if one is given. */
  lemma HasPendingCommandExact(b: Buffer, entity: JsValue, kind: Option<string>)
    requires Keyed(b.commands)
    ensures HasPendingCommand(b, entity, kind) <==>
      exists k :: k in b.commands.entries && StrictEq(b.commands.entries[k].entity, entity) && PendingOfKind(b.commands.entries[k], kind)
  {
    var cs := CommandsForEntity(b, entity);
    if HasPendingCommand(b, entity, kind) {
      var i :| 0 <= i < |cs| && PendingOfKind(cs[i], kind);
      assert cs[i] in cs;
      assert b.commands.entries[cs[i].id] == cs[i];
    }
    if exists k :: k in b.commands.entries && StrictEq(b.commands.entries[k].entity, entity) && PendingOfKind(b.commands.entries[k], kind) {
      var k :| k in b.commands.entries && StrictEq(b.commands.entries[k].entity, entity) && PendingOfKind(b.commands.entries[k], kind);
      assert b.commands.entries[k] in cs;
    }
  }

  /** `markForRetry(id)` (JavaScript twin): one more retry, stamped now. */
  function MarkForRetry(b: Buffer, id: string, now: real): (r: Updated)
    ensures !r.found <==> id !in b.commands.entries
    ensures !r.found ==> r.buffer == b
    ensures r.found ==>
      var c := b.commands.entries[id];
      r.buffer.commands.Get(id) == Some(c.(retryCount := c.retryCount + 1, lastRetry := Some(now)))
    ensures forall k :: k != id ==> r.buffer.commands.Get(k) == b.commands.Get(k)
    ensures r.buffer.confirmed == b.confirmed && r.buffer.rejected == b.rejected
    ensures Inv(b) ==> Inv(r.buffer) && r.buffer.commands.order == b.commands.order
  {
    match b.commands.Get(id)
    case None => Updated(b, false)
    case Some(c) =>
      Updated(b.(commands := b.commands.Set(id, c.(retryCount := c.retryCount + 1, lastRetry := Some(now)))), true)
  }

  /** At most three retries. */
  const MaxRetries := 3

  /** The filter of `getRetryEligibleCommands(retryDelay)`: pending, never
      retried (or retried at time 0) or retried more than `delay` ago, and
      fewer than three retries. */
  function RetryEligibleAt(now: real, delay: real): Command -> bool
  {
    (c: Command) => c.status == "pending"
      && (c.lastRetry.None? || c.lastRetry.value == 0.0 || now - c.lastRetry.value > delay)
      && c.retryCount < MaxRetries
  }

  /** `getRetryEligibleCommands(retryDelay)` (JavaScript twin); the default
      delay is 5000 ms. */
  function RetryEligible(b: Buffer, now: real, delay: real): (r: seq<Command>)
    ensures Keyed(b.commands) ==> forall c :: c in r <==> c.id in b.commands.entries && b.commands.entries[c.id] == c && RetryEligibleAt(now, delay)(c)
  {
    WhereMembers(b.commands, RetryEligibleAt(now, delay));
    Where(b.commands, RetryEligibleAt(now, delay))
  }

  /** A command just marked for retry is not eligible again until more than
      `delay` has passed, and one retried three times never is. */
  lemma RetryBackoff(b: Buffer, id: string, now: real, later: real, delay: real)
    requires Keyed(b.commands) && id in b.commands.entries && now != 0.0 && later - now <= delay
    ensures var r := MarkForRetry(b, id, now).buffer;
      forall c :: c in RetryEligible(r, later, delay) ==> c.id != id
    ensures forall c :: c in RetryEligible(b, later, delay) ==> c.retryCount < MaxRetries
  {
    var r := MarkForRetry(b, id, now).buffer;
    assert Keyed(r.commands);
  }

  function YoungerThan(now: real, maxAge: real): Command -> bool
  {
    (c: Command) => now - c.timestamp <= maxAge
  }

  datatype History = History(pending: seq<Command>, confirmed: seq<Command>, rejected: seq<Command>)

  /** `getHistory(maxAge)` (JavaScript twin): each map's commands no older
      than `maxAge`; the default is 60000 ms. */
  function GetHistory(b: Buffer, now: real, maxAge: real): (r: History)
    ensures Keyed(b.commands) ==> forall c :: c in r.pending <==> c.id in b.commands.entries && b.commands.entries[c.id] == c && now - c.timestamp <= maxAge
    ensures Keyed(b.confirmed) ==> forall c :: c in r.confirmed <==> c.id in b.confirmed.entries && b.confirmed.entries[c.id] == c && now - c.timestamp <= maxAge
    ensures Keyed(b.rejected) ==> forall c :: c in r.rejected <==> c.id in b.rejected.entries && b.rejected.entries[c.id] == c && now - c.timestamp <= maxAge
  {
    WhereMembers(b.commands, YoungerThan(now, maxAge));
    WhereMembers(b.confirmed, YoungerThan(now, maxAge));
    WhereMembers(b.rejected, YoungerThan(now, maxAge));
    History(Where(b.commands, YoungerThan(now, maxAge)), Where(b.confirmed, YoungerThan(now, maxAge)), Where(b.rejected, YoungerThan(now, maxAge)))
  }

  /** With the buffer's own age limit, every pending command is either in
      the pending history or expired, never both. */
  lemma HistoryComplementsExpired(b: Buffer, now: real)
    requires Keyed(b.commands)
    ensures forall k :: k in b.commands.entries ==>
      (b.commands.entries[k] in GetHistory(b, now, b.maxAge).pending <==> b.commands.entries[k] !in Expired(b, now))
  {
  }

  /** `update()` (JavaScript twin): the periodic expiry. */
  function Update(b: Buffer, now: real): (r: Buffer)
    ensures r.confirmed == b.confirmed && r.rejected == b.rejected
    ensures Inv(b) ==> Inv(r) && forall k :: k in r.commands.entries <==> k in b.commands.entries && now - b.commands.entries[k].timestamp <= b.maxAge
  {
    CleanupExpiredExact(b, now);
    CleanupExpired(b, now).buffer
  }

  /** How many of `cs` have type `kind`. */
  function Count(cs: seq<Command>, kind: string): nat
  {
    if |cs| == 0 then 0
    else Count(cs[..|cs| - 1], kind) + (if cs[|cs| - 1].kind == kind then 1 else 0)
  }

  /** The `typeCounts[cmd.type] = (typeCounts[cmd.type] || 0) + 1` loop. */
  function Tally(cs: seq<Command>): Map<string, nat>
  {
    if |cs| == 0 then EmptyMap()
    else
      var m := Tally(cs[..|cs| - 1]);
      var kind := cs[|cs| - 1].kind;
      m.Set(kind, m.Get(kind).GetOr(0) + 1)
  }

  /** The tally has a key for each type that occurs, holding the number of
      commands of that type, and no other key. */
  lemma {:induction false} TallyCounts(cs: seq<Command>)
    ensures Tally(cs).Valid()
    ensures forall kind :: (kind in Tally(cs).entries <==> Count(cs, kind) > 0)
    ensures forall kind :: kind in Tally(cs).entries ==> Tally(cs).entries[kind] == Count(cs, kind)
  {
    if |cs| > 0 {
      TallyCounts(cs[..|cs| - 1]);
    }
  }

  /** `typeCounts` of `getStats()` (JavaScript twin), over the pending,
      confirmed and rejected commands in that order. */
  function TypeCounts(b: Buffer): (r: Map<string, nat>)
    ensures r.Valid()
    ensures forall kind :: kind in r.entries <==> Count(Values(b.commands) + Values(b.confirmed) + Values(b.rejected), kind) > 0
    ensures forall kind :: kind in r.entries ==> r.entries[kind] == Count(Values(b.commands) + Values(b.confirmed) + Values(b.rejected), kind)
  {
    TallyCounts(Values(b.commands) + Values(b.confirmed) + Values(b.rejected));
    Tally(Values(b.commands) + Values(b.confirmed) + Values(b.rejected))
  }

  /** `Math.min(...cs.map(c => c.timestamp))`. */
  function MinStamp(cs: seq<Command>): (r: real)
    requires |cs| > 0
    ensures forall i :: 0 <= i < |cs| ==> r <= cs[i].timestamp
    ensures exists i :: 0 <= i < |cs| && cs[i].timestamp == r
  {
    if |cs| == 1 then cs[0].timestamp
    else
      var m := MinStamp(cs[1..]);
      assert forall i :: 1 <= i < |cs| ==> cs[1..][i - 1] == cs[i];
      if cs[0].timestamp <= m then cs[0].timestamp else m
  }

  /** `oldestPending` of `getStats()` (JavaScript twin): the age of the
      oldest pending command, never negative, 0 when none is pending. */
  function OldestPending(b: Buffer, now: real): (r: real)
    ensures r >= 0.0
    ensures Keyed(b.commands) ==> forall k :: k in b.commands.entries ==> r >= now - b.commands.entries[k].timestamp
    ensures Keyed(b.commands) && r > 0.0 ==> exists k :: k in b.commands.entries && r == now - b.commands.entries[k].timestamp
    ensures Keyed(b.commands) && b.commands.Size() == 0 ==> r == 0.0
  {
    OldestAge(b.commands, now);
    var cs := Values(b.commands);
    if |cs| > 0 then
      var m := MinStamp(cs);
      if now - m > 0.0 then now - m else 0.0
    else 0.0
  }

  /** The smallest timestamp of a list holding exactly the stored commands
      is the timestamp of the oldest stored command. */
  lemma MinIsOldest(entries: map<string, Command>, cs: seq<Command>)
    requires |cs| > 0
    requires forall c :: c in cs <==> c.id in entries && entries[c.id] == c
    requires forall k :: k in entries ==> entries[k].id == k
    ensures forall k :: k in entries ==> MinStamp(cs) <= entries[k].timestamp
    ensures exists k :: k in entries && MinStamp(cs) == entries[k].timestamp
  {
    var lo := MinStamp(cs);
    forall k | k in entries ensures lo <= entries[k].timestamp {
      assert entries[k] in cs;
    }
    var i :| 0 <= i < |cs| && cs[i].timestamp == lo;
    assert cs[i] in cs;
  }

  /** `now` minus the smallest timestamp is the largest age of a stored
      command, and it is an age of one. */
  lemma OldestAge(m: Commands, now: real)
    ensures Keyed(m) && |Values(m)| > 0 ==>
      && (forall k :: k in m.entries ==> now - MinStamp(Values(m)) >= now - m.entries[k].timestamp)
      && (exists k :: k in m.entries && now - MinStamp(Values(m)) == now - m.entries[k].timestamp)
    ensures Keyed(m) ==> (|Values(m)| == 0 <==> m.Size() == 0)
  {
    if Keyed(m) {
      ValuesExact(m);
      if |Values(m)| > 0 {
        MinIsOldest(m.entries, Values(m));
      }
    }
  }


  datatype Config = Config(maxSize: int, maxAge: real)

  datatype Exported = Exported(commands: seq<Command>, confirmed: seq<Command>, rejected: seq<Command>, stats: Stats, config: Config)

  /** `exportState()` (JavaScript twin). */
  function ExportState(b: Buffer, now: real): (r: Exported)
    ensures Inv(b) ==> |r.commands| == b.commands.Size() && |r.confirmed| == b.confirmed.Size() && |r.rejected| == b.rejected.Size()
    ensures Inv(b) ==> forall c :: c in r.commands <==> c.id in b.commands.entries && b.commands.entries[c.id] == c
    ensures r.stats.total == Total(b)
    ensures r.config == Config(b.maxSize, b.maxAge)
  {
    ValuesExact(b.commands);
    ValuesExact(b.confirmed);
    ValuesExact(b.rejected);
    Exported(Values(b.commands), Values(b.confirmed), Values(b.rejected), GetStats(b, now), Config(b.maxSize, b.maxAge))
  }

  /** The `config` an imported state may carry; `None` is a missing
      property. */
  datatype ConfigIn = ConfigIn(maxSize: Option<int>, maxAge: Option<real>)

  /** The argument of `importState`; `None` is a missing or falsy property. */
  datatype Imported = Imported(config: Option<ConfigIn>, commands: Option<seq<Command>>)

  /** `value || fallback` for a number that may be missing. */
  function OrInt(v: Option<int>, fallback: int): (r: int)
    ensures v.Some? && v.value != 0 ==> r == v.value
    ensures v.None? || v.value == 0 ==> r == fallback
  {
    if v.Some? && v.value != 0 then v.value else fallback
  }

  function OrReal(v: Option<real>, fallback: real): (r: real)
    ensures v.Some? && v.value != 0.0 ==> r == v.value
    ensures v.None? || v.value == 0.0 ==> r == fallback
  {
    if v.Some? && v.value != 0.0 then v.value else fallback
  }

  function Pairs(cs: seq<Command>): (r: seq<(string, Command)>)
    ensures |r| == |cs|
    ensures forall i :: 0 <= i < |cs| ==> r[i] == (cs[i].id, cs[i])
  {
    seq(|cs|, i requires 0 <= i < |cs| => (cs[i].id, cs[i]))
  }

  /** `cs.forEach(cmd => commands.set(cmd.id, cmd))` on a cleared map. */
  function Load(cs: seq<Command>): Commands
  {
    FromEntries(Pairs(cs))
  }

  /** Loaded commands are stored under their own ids, and exactly the ids
      of the list are stored. */
  lemma {:induction false} LoadKeyed(cs: seq<Command>)
    ensures Keyed(Load(cs))
    ensures forall k :: k in Load(cs).entries <==> k in Ids(cs)
    decreases |cs|
  {
    if |cs| > 0 {
      var init := cs[..|cs| - 1];
      LoadKeyed(init);
      assert Pairs(cs)[..|cs| - 1] == Pairs(init);
      assert Ids(cs) == Ids(init) + [cs[|cs| - 1].id];
    }
  }

  /** `importState(state)` (JavaScript twin): a truthy configured size or
      age replaces the current one; a supplied command list replaces the
      pending map. Confirmed and rejected commands stay. */
  function ImportState(b: Buffer, st: Imported): (r: Buffer)
    ensures r.confirmed == b.confirmed && r.rejected == b.rejected
    ensures st.commands.None? ==> r.commands == b.commands
    ensures st.commands.Some? ==> Keyed(r.commands) && forall k :: k in r.commands.entries <==> k in Ids(st.commands.value)
    ensures st.config.None? ==> r.maxSize == b.maxSize && r.maxAge == b.maxAge
  {
    var b' := match st.config
      case None => b
      case Some(cfg) => b.(maxSize := OrInt(cfg.maxSize, b.maxSize), maxAge := OrReal(cfg.maxAge, b.maxAge));
    match st.commands
    case None => b'
    case Some(cs) => LoadKeyed(cs); b'.(commands := Load(cs))
  }

  /** The state `exportState` produces, read back by `importState`. */
  function AsImported(e: Exported): Imported
  {
    Imported(Some(ConfigIn(Some(e.config.maxSize), Some(e.config.maxAge))), Some(e.commands))
  }

  /** Importing an exported state restores the pending map exactly, in
      order, and the configuration unless a value was 0, which `||`
      treats as missing. */
  lemma ExportImport(b: Buffer, target: Buffer, now: real)
    requires Inv(b)
    ensures var r := ImportState(target, AsImported(ExportState(b, now)));
      && r.commands == b.commands
      && r.maxSize == (if b.maxSize != 0 then b.maxSize else target.maxSize)
      && r.maxAge == (if b.maxAge != 0.0 then b.maxAge else target.maxAge)
      && r.confirmed == target.confirmed && r.rejected == target.rejected
  {
    ValuesExact(b.commands);
    assert Pairs(Values(b.commands)) == b.commands.Entries();
    FromOwnEntries(b.commands);
  }
}
