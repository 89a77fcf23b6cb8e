/** The client-side snapshot interpolator: per entity it buffers the last
    five server snapshots in timestamp order and, on each frame, renders the
    state at `now - delay` by blending the two snapshots around that
    instant. The TypeScript class and its JavaScript twin have the same
    logic, so one model covers both. `Date.now()` is a parameter. */
module Interpolation {
  import opened Wrappers
  import opened JsCollections
  import opened NumberText
  import opened Protocol
  import Sorting

  type Entity = int

  /** At most this many snapshots are kept per entity. */
  const Capacity := 5

  datatype Snap = Snap(data: JsValue, timestamp: real, receivedAt: real)

  datatype Metrics = Metrics(snapshotsReceived: nat, snapshotsDropped: nat, interpolationCount: nat, averageLatency: real)

  const NoMetrics := Metrics(0, 0, 0, 0.0)

  datatype Interpolator = Interpolator(
    delay: real,
    snapshots: Map<Entity, seq<Snap>>,
    current: Map<Entity, JsValue>,
    lastUpdate: real,
    metrics: Metrics)

  /** `new SnapshotInterpolator(delay)`; the default delay is 100 ms. */
  function Create(delay: real, now: real): (r: Interpolator)
    ensures r.snapshots.Valid() && r.snapshots.order == [] && r.current.order == []
    ensures r.metrics == NoMetrics && r.delay == delay
  {
    Interpolator(delay, EmptyMap(), EmptyMap(), now, NoMetrics)
  }

  function Time(s: Snap): real { s.timestamp }

  /** Buffers are ordered by timestamp; `sort((a, b) => a.timestamp - b.timestamp)`. */
  predicate Sorted(s: seq<Snap>)
  {
    Sorting.Sorted(s, Time)
  }

  function InsertByTime(s: seq<Snap>, x: Snap): seq<Snap>
  {
    Sorting.InsertBy(s, x, Time)
  }

  function SortByTime(s: seq<Snap>): seq<Snap>
  {
    Sorting.SortBy(s, Time)
  }

  /** How many entries the `shift` loop drops from a buffer of `n`. */
  function Overflow(n: nat): (r: nat)
    ensures n <= Capacity ==> r == 0
    ensures n > Capacity ==> n - r == Capacity
  {
    if n > Capacity then n - Capacity else 0
  }

  /** `addSnapshot(e, data, timestamp)` received at `now`. */
  function AddSnapshot(ip: Interpolator, e: Entity, data: JsValue, timestamp: real, now: real): (r: Interpolator)
    ensures r.snapshots.order == (if e in ip.snapshots.order then ip.snapshots.order else ip.snapshots.order + [e])
    ensures e in r.snapshots.entries
    ensures forall k :: k != e ==> (k in r.snapshots.entries <==> k in ip.snapshots.entries)
    ensures forall k :: k != e && k in r.snapshots.entries ==> r.snapshots.entries[k] == ip.snapshots.entries[k]
    ensures r.metrics.snapshotsReceived == ip.metrics.snapshotsReceived + 1
  {
    var buf := (match ip.snapshots.Get(e) case Some(b) => b case None => []) + [Snap(data, timestamp, now)];
    var drop := Overflow(|buf|);
    var kept := SortByTime(buf[drop..]);
    ip.(snapshots := ip.snapshots.Set(e, kept),
        metrics := ip.metrics.(snapshotsReceived := ip.metrics.snapshotsReceived + 1,
                               snapshotsDropped := ip.metrics.snapshotsDropped + drop))
  }

  function Buffer(ip: Interpolator, e: Entity): seq<Snap>
  {
    match ip.snapshots.Get(e) case Some(b) => b case None => []
  }

  /** The buffer `addSnapshot` leaves: the old one with the snapshot
      appended, its overflow dropped from the front, sorted. */
  lemma AddSnapshotParts(ip: Interpolator, e: Entity, data: JsValue, timestamp: real, now: real)
    ensures var r := AddSnapshot(ip, e, data, timestamp, now);
      var buf := Buffer(ip, e) + [Snap(data, timestamp, now)];
      Buffer(r, e) == SortByTime(buf[Overflow(|buf|)..])
      && r.metrics.snapshotsDropped == ip.metrics.snapshotsDropped + Overflow(|buf|)
  {
  }

  /** Sorting a sorted sequence with one element appended inserts it. */
  lemma SortAppended(rest: seq<Snap>, x: Snap)
    requires Sorted(rest)
    ensures SortByTime(rest + [x]) == InsertByTime(rest, x)
  {
    Sorting.SortSorted(rest, Time);
    assert (rest + [x])[..|rest|] == rest;
  }

  /** After `addSnapshot` the buffer is sorted and holds at most five
      entries, and below capacity the new snapshot is among them. */
  lemma AddSnapshotBounded(ip: Interpolator, e: Entity, data: JsValue, timestamp: real, now: real)
    ensures var b := Buffer(AddSnapshot(ip, e, data, timestamp, now), e);
      Sorted(b) && |b| <= Capacity && (|Buffer(ip, e)| < Capacity ==> Snap(data, timestamp, now) in b)
  {
    var x := Snap(data, timestamp, now);
    var buf := Buffer(ip, e) + [x];
    AddSnapshotParts(ip, e, data, timestamp, now);
    if |Buffer(ip, e)| < Capacity {
      assert buf[Overflow(|buf|)..] == buf;
      assert x in multiset(buf);
    }
  }

  /** From a sorted buffer below capacity nothing is dropped and the new
      snapshot is inserted in timestamp order. */
  lemma AddSnapshotBelowCapacity(ip: Interpolator, e: Entity, data: JsValue, timestamp: real, now: real)
    requires Sorted(Buffer(ip, e)) && |Buffer(ip, e)| < Capacity
    ensures var r := AddSnapshot(ip, e, data, timestamp, now);
      Buffer(r, e) == InsertByTime(Buffer(ip, e), Snap(data, timestamp, now))
      && r.metrics.snapshotsDropped == ip.metrics.snapshotsDropped
  {
    var x := Snap(data, timestamp, now);
    var buf := Buffer(ip, e) + [x];
    AddSnapshotParts(ip, e, data, timestamp, now);
    assert buf[Overflow(|buf|)..] == buf;
    SortAppended(Buffer(ip, e), x);
  }

  /** From a full sorted buffer exactly the oldest entry is dropped and
      counted, and the new snapshot is inserted among the rest. */
  lemma AddSnapshotFull(ip: Interpolator, e: Entity, data: JsValue, timestamp: real, now: real)
    requires Sorted(Buffer(ip, e)) && |Buffer(ip, e)| == Capacity
    ensures var r := AddSnapshot(ip, e, data, timestamp, now);
      var old_ := Buffer(ip, e);
      Buffer(r, e) == InsertByTime(old_[1..], Snap(data, timestamp, now))
      && (forall i :: 0 <= i < |old_| ==> old_[0].timestamp <= old_[i].timestamp)
      && r.metrics.snapshotsDropped == ip.metrics.snapshotsDropped + 1
  {
    var x := Snap(data, timestamp, now);
    var old_ := Buffer(ip, e);
    var buf := old_ + [x];
    AddSnapshotParts(ip, e, data, timestamp, now);
    var rest := old_[1..];
    assert Overflow(|buf|) == 1;
    assert buf[1..] == rest + [x];
    assert Sorted(rest);
    SortAppended(rest, x);
  }

  /** Every buffer in the map is sorted and within capacity. */
  ghost predicate Buffered(ip: Interpolator)
  {
    forall k :: k in ip.snapshots.entries ==> Sorted(ip.snapshots.entries[k]) && 1 <= |ip.snapshots.entries[k]| <= Capacity
  }

  /** `addSnapshot` keeps every buffer sorted, non-empty and bounded. */
  lemma AddSnapshotKeepsBuffered(ip: Interpolator, e: Entity, data: JsValue, timestamp: real, now: real)
    requires Buffered(ip)
    ensures Buffered(AddSnapshot(ip, e, data, timestamp, now))
  {
    var x := Snap(data, timestamp, now);
    var buf := Buffer(ip, e) + [x];
    var drop := Overflow(|buf|);
    assert |buf[drop..]| >= 1;
  }

  /** What `update` does with one entity's buffer at interpolation time `at`. */
  datatype Pick = Nothing | Single(data: JsValue) | Latest(data: JsValue) | Between(older: Snap, newer: Snap, t: real)

  predicate Brackets(s: seq<Snap>, i: nat, at: real)
    requires i + 1 < |s|
  {
    s[i].timestamp <= at && s[i + 1].timestamp >= at
  }

  /** The first `i >= from` such that entries `i` and `i + 1` bracket `at`. */
  function FirstBracket(s: seq<Snap>, at: real, from: nat): (r: Option<nat>)
    decreases |s| - from
    ensures r.Some? ==> from <= r.value && r.value + 1 < |s| && Brackets(s, r.value, at)
    ensures r.Some? ==> forall j :: from <= j < r.value ==> !Brackets(s, j, at)
    ensures r.None? ==> forall j :: from <= j && j + 1 < |s| ==> !Brackets(s, j, at)
  {
    if from + 1 >= |s| then None
    else if Brackets(s, from, at) then Some(from)
    else FirstBracket(s, at, from + 1)
  }

  /** The blending factor: elapsed over span, 0 for a zero span. */
  function Factor(older: Snap, newer: Snap, at: real): real
  {
    var span := newer.timestamp - older.timestamp;
    if span > 0.0 then (at - older.timestamp) / span else 0.0
  }

  function Choose(s: seq<Snap>, at: real): (r: Pick)
    ensures |s| == 0 <==> r == Nothing
    ensures |s| == 1 ==> r == Single(s[0].data)
    ensures r.Between? ==> 0.0 <= r.t <= 1.0 && r.older.timestamp <= at <= r.newer.timestamp
  {
    if |s| == 0 then Nothing
    else if |s| == 1 then Single(s[0].data)
    else
      match FirstBracket(s, at, 0)
      case None => Latest(s[|s| - 1].data)
      case Some(i) =>
        var t := Factor(s[i], s[i + 1], at);
        assert 0.0 <= t <= 1.0 by {
          FactorInUnit(s[i], s[i + 1], at);
        }
        Between(s[i], s[i + 1], t)
  }

  lemma FactorInUnit(older: Snap, newer: Snap, at: real)
    requires older.timestamp <= at <= newer.timestamp
    ensures 0.0 <= Factor(older, newer, at) <= 1.0
    ensures older.timestamp == newer.timestamp ==> Factor(older, newer, at) == 0.0
    ensures older.timestamp < newer.timestamp ==>
      older.timestamp + Factor(older, newer, at) * (newer.timestamp - older.timestamp) == at
  {
    var span := newer.timestamp - older.timestamp;
    if span > 0.0 {
      var q := (at - older.timestamp) / span;
      assert q * span == at - older.timestamp;
      if q > 1.0 {
        assert q * span > span;
      }
    }
  }

  /** A buffer whose first and last timestamps enclose `at` always yields a pair to
      blend; the latest state is used only when `at` is outside the range. */
  lemma CoveredTimeBlends(s: seq<Snap>, at: real)
    requires |s| >= 2
    requires s[0].timestamp <= at <= s[|s| - 1].timestamp
    ensures Choose(s, at).Between?
  {
    if FirstBracket(s, at, 0).None? {
      NoBracketAbove(s, at, 0);
    }
  }

  lemma {:induction false} NoBracketAbove(s: seq<Snap>, at: real, i: nat)
    requires i + 1 < |s| && s[i].timestamp <= at
    requires forall j :: 0 <= j && j + 1 < |s| ==> !Brackets(s, j, at)
    ensures s[|s| - 1].timestamp < at
    decreases |s| - i
  {
    assert !Brackets(s, i, at);
    if i + 2 < |s| {
      NoBracketAbove(s, at, i + 1);
    }
  }

  /** `value || 0` used as a number: JavaScript coerces `true` to 1 and
      every falsy value to 0. `None` marks an operand JavaScript would
      concatenate as text. */
  function OrZero(v: JsValue): (r: Option<real>)
    ensures !Truthy(v) ==> r == Some(0.0)
    ensures v.Num? ==> r == Some(v.n)
  {
    if !Truthy(v) then Some(0.0)
    else match v
      case Num(x) => Some(x)
      case Bool(_) => Some(1.0)
      case _ => None
  }

  /** An array element used as a number without `|| 0`. */
  function AsNumber(v: JsValue): (r: Option<real>)
    ensures v.Num? ==> r == Some(v.n)
  {
    match v
    case Num(x) => Some(x)
    case Null => Some(0.0)
    case Bool(b) => Some(if b then 1.0 else 0.0)
    case _ => None
  }

  predicate IsNumber(v: JsValue)
  {
    v.Num? || v.NaN?
  }

  /** `a + (b - a) * t`, where `b` is a number and `a` possibly not one. */
  function Lerp(a: Option<real>, b: JsValue, t: real): (r: JsValue)
    requires IsNumber(b)
    ensures b.Num? && a.Some? ==> r == Num(a.value + (b.n - a.value) * t)
    ensures b.NaN? || a.None? ==> r == NaN
  {
    if b.NaN? || a.None? then NaN else Num(a.value + (b.n - a.value) * t)
  }

  /** `oldArray.length` as `Math.max` and `<` see it. */
  function LengthOf(v: JsValue): (r: Option<real>)
  {
    match Prop(v, "length")
    case Num(x) => Some(x)
    case Null => Some(0.0)
    case Bool(b) => Some(if b then 1.0 else 0.0)
    case _ => None
  }

  /** `interpolateArray(oldArray, newArray, t)`. An old value without a
      numeric length makes `Math.max` NaN and the result empty. */
  function InterpolateArray(prev: JsValue, cur: seq<JsValue>, t: real): (r: seq<JsValue>)
    ensures LengthOf(prev).None? ==> r == []
    ensures LengthOf(prev).Some? ==> |r| == |cur|
    ensures LengthOf(prev).Some? ==> forall i :: 0 <= i < |cur| && !IsNumber(cur[i]) ==> r[i] == cur[i]
  {
    match LengthOf(prev)
    case None => []
    case Some(n) =>
      seq(|cur|, i requires 0 <= i < |cur| =>
        if IsNumber(cur[i]) && (i as real) < n then Lerp(AsNumber(Prop(prev, ToDecimal(i))), cur[i], t)
        else cur[i])
  }

  /** `interpolateData(oldState, newState, t)` over the fields of the new
      state: arrays and objects recurse with `[]` / `{}` standing in for a
      falsy old value, numbers blend, anything else is copied. */
  function InterpolateFields(prev: JsValue, cur: seq<Field>, t: real): (r: seq<Field>)
    decreases cur
    ensures |r| == |cur|
  {
    if |cur| == 0 then []
    else
      var k := cur[0].key;
      var was := Prop(prev, k);
      var v := match cur[0].value
        case Arr(_, xs) => Arr(0, InterpolateArray(if Truthy(was) then was else Arr(0, []), xs, t))
        case Obj(_, fs) => Obj(0, InterpolateFields(if Truthy(was) then was else Obj(0, []), fs, t))
        case Num(_) => Lerp(OrZero(was), cur[0].value, t)
        case NaN => NaN
        case other => other;
      [Field(k, v)] + InterpolateFields(prev, cur[1..], t)
  }

  /** The blended state has exactly the new state's keys, in order. */
  lemma {:induction false} InterpolateKeepsKeys(prev: JsValue, cur: seq<Field>, t: real)
    ensures Protocol.Keys(InterpolateFields(prev, cur, t)) == Protocol.Keys(cur)
  {
    if |cur| > 0 {
      InterpolateKeepsKeys(prev, cur[1..], t);
    }
  }

  /** Position `i` of the blend is built from field `i` of the new state. */
  lemma {:induction false} InterpolateAt(prev: JsValue, cur: seq<Field>, t: real, i: nat)
    requires i < |cur|
    ensures |InterpolateFields(prev, cur, t)| == |cur|
    ensures var r := InterpolateFields(prev, cur, t);
      && r[i].key == cur[i].key
      && (cur[i].value.Num? ==> r[i].value == Lerp(OrZero(Prop(prev, cur[i].key)), cur[i].value, t))
      && (!cur[i].value.Arr? && !cur[i].value.Obj? && !cur[i].value.Num? ==> r[i].value == cur[i].value)
  {
    InterpolateKeepsKeys(prev, cur, t);
    if i > 0 {
      InterpolateAt(prev, cur[1..], t, i - 1);
    }
  }

  /** At t = 1 a numeric field takes the new value; at t = 0 it keeps the
      old one (read with `|| 0`). */
  lemma InterpolateEnds(prev: JsValue, cur: seq<Field>, i: nat)
    requires i < |cur| && cur[i].value.Num? && OrZero(Prop(prev, cur[i].key)).Some?
    ensures InterpolateFields(prev, cur, 1.0)[i].value == cur[i].value
    ensures InterpolateFields(prev, cur, 0.0)[i].value == Num(OrZero(Prop(prev, cur[i].key)).value)
  {
    InterpolateAt(prev, cur, 1.0, i);
    InterpolateAt(prev, cur, 0.0, i);
  }

  /** The index entries `for...in` visits on an array or a string: the
      element, or the one-character string, under each decimal index. */
  function IndexedFields(cur: JsValue): (r: seq<Field>)
    requires cur.Arr? || cur.Str?
    ensures Protocol.Keys(r) == OwnKeys(cur)
  {
    var n := if cur.Arr? then |cur.items| else |cur.s|;
    seq(n, i requires 0 <= i < n => Field(ToDecimal(i), if cur.Arr? then cur.items[i] else Str([cur.s[i]])))
  }

  /** `interpolateData` applied to whole snapshot values: `for...in`
      visits an object's keys, an array's or a string's indices, and
      nothing on any other value. */
  function Interpolate(prev: JsValue, cur: JsValue, t: real): (r: JsValue)
    ensures r.Obj? && Protocol.Keys(r.fields) == OwnKeys(cur)
  {
    match cur
    case Obj(_, fs) =>
      InterpolateKeepsKeys(prev, fs, t);
      Obj(0, InterpolateFields(prev, fs, t))
    case Arr(_, _) =>
      var fs := IndexedFields(cur);
      InterpolateKeepsKeys(prev, fs, t);
      Obj(0, InterpolateFields(prev, fs, t))
    case Str(_) =>
      var fs := IndexedFields(cur);
      InterpolateKeepsKeys(prev, fs, t);
      Obj(0, InterpolateFields(prev, fs, t))
    case _ => Obj(0, [])
  }

  /** The running latency average: 90% old, 10% new. */
  function Smooth(average: real, latency: real): (r: real)
    ensures average <= latency ==> average <= r <= latency
    ensures latency <= average ==> latency <= r <= average
  {
    average * 0.9 + latency * 0.1
  }

  /** One rendered entity: `{ id, ...state }`. */
  datatype Rendered = Rendered(id: Entity, state: JsValue)

  /** One entity's turn in `update`: render it unless its buffer is empty. */
  function Render(ip: Interpolator, e: Entity, at: real, now: real): (r: (Interpolator, seq<Rendered>))
    ensures r.0.snapshots == ip.snapshots && r.0.delay == ip.delay
    ensures r.0.metrics.snapshotsReceived == ip.metrics.snapshotsReceived
    ensures r.0.metrics.snapshotsDropped == ip.metrics.snapshotsDropped
    ensures r.0.metrics.interpolationCount >= ip.metrics.interpolationCount
    ensures |Buffer(ip, e)| == 0 ==> r.1 == [] && r.0 == ip
    ensures |Buffer(ip, e)| >= 1 ==> |r.1| == 1 && r.1[0].id == e && r.0.current.Get(e) == Some(r.1[0].state)
  {
    match Choose(Buffer(ip, e), at)
    case Nothing => (ip, [])
    case Single(d) => (ip.(current := ip.current.Set(e, d)), [Rendered(e, d)])
    case Latest(d) => (ip.(current := ip.current.Set(e, d)), [Rendered(e, d)])
    case Between(o, n, t) =>
      var d := Interpolate(o.data, n.data, t);
      var m := ip.metrics.(interpolationCount := ip.metrics.interpolationCount + 1,
                           averageLatency := Smooth(ip.metrics.averageLatency, now - n.receivedAt));
      (ip.(current := ip.current.Set(e, d), metrics := m), [Rendered(e, d)])
  }

  /** `update(now)` over the entities in `keys`, in order. */
  function UpdateEach(ip: Interpolator, keys: seq<Entity>, at: real, now: real): (r: (Interpolator, seq<Rendered>))
    ensures |r.1| <= |keys|
    ensures r.0.snapshots == ip.snapshots && r.0.delay == ip.delay
    ensures r.0.metrics.snapshotsReceived == ip.metrics.snapshotsReceived
    ensures r.0.metrics.snapshotsDropped == ip.metrics.snapshotsDropped
    ensures r.0.metrics.interpolationCount >= ip.metrics.interpolationCount
    ensures forall x :: x in r.1 ==> x.id in keys
    decreases |keys|
  {
    if |keys| == 0 then (ip, [])
    else
      var (ip1, out) := Render(ip, keys[0], at, now);
      var (ip2, rest) := UpdateEach(ip1, keys[1..], at, now);
      (ip2, out + rest)
  }

  /** `update(now)`: the interpolation instant is `now - delay`. */
  function Update(ip: Interpolator, now: real): (r: (Interpolator, seq<Rendered>))
    ensures r.0.lastUpdate == now && r.0.snapshots == ip.snapshots
    ensures |r.1| <= |ip.snapshots.order|
  {
    var (ip1, out) := UpdateEach(ip, ip.snapshots.order, now - ip.delay, now);
    (ip1.(lastUpdate := now), out)
  }

  /** With every buffer non-empty, `update` renders each buffered entity
      exactly once, in the map's order. */
  lemma {:induction false} UpdateEachRendersAll(ip: Interpolator, keys: seq<Entity>, at: real, now: real)
    requires forall k :: k in keys ==> |Buffer(ip, k)| >= 1
    ensures var out := UpdateEach(ip, keys, at, now).1;
      |out| == |keys| && forall i :: 0 <= i < |keys| ==> out[i].id == keys[i]
    decreases |keys|
  {
    if |keys| > 0 {
      var r := Render(ip, keys[0], at, now);
      assert |r.1| == 1 && r.1[0].id == keys[0];
      assert forall k :: Buffer(r.0, k) == Buffer(ip, k);
      assert forall k :: k in keys[1..] ==> k in keys;
      UpdateEachRendersAll(r.0, keys[1..], at, now);
      var rest := UpdateEach(r.0, keys[1..], at, now).1;
      assert UpdateEach(ip, keys, at, now).1 == r.1 + rest;
    }
  }

  /** `getEntityState(e)`: the last rendered state, or null; `|| null`
      also turns a falsy stored state (a single snapshot whose data was 0,
      "" or false) into null. */
  function EntityState(ip: Interpolator, e: Entity): (r: Option<JsValue>)
    ensures r.Some? <==> e in ip.current.entries && Truthy(ip.current.entries[e])
    ensures r.Some? ==> r.value == ip.current.entries[e]
  {
    match ip.current.Get(e)
    case Some(v) => if Truthy(v) then Some(v) else None
    case None => None
  }

  /** An entity just rendered from an interpolated pair reads back its
      blended state, which is always an object. */
  lemma RenderedStateReadsBack(ip: Interpolator, e: Entity, at: real, now: real)
    requires Choose(Buffer(ip, e), at).Between?
    ensures var r := Render(ip, e, at, now);
      EntityState(r.0, e) == Some(r.1[0].state)
  {
  }

  /** `getAllStates()`: every rendered state with its id, in the order the
      entities were first rendered. */
  function AllStates(ip: Interpolator): (r: seq<Rendered>)
    requires ip.current.Valid()
    ensures |r| == |ip.current.order|
    ensures forall i :: 0 <= i < |r| ==>
      r[i].id == ip.current.order[i] && r[i].id in ip.current.entries && r[i].state == ip.current.entries[r[i].id]
    ensures forall e :: e in ip.current.entries <==> exists i :: 0 <= i < |r| && r[i].id == e
  {
    seq(|ip.current.order|, i requires 0 <= i < |ip.current.order| =>
      Rendered(ip.current.order[i], ip.current.entries[ip.current.order[i]]))
  }

  /** `setInterpolationDelay(delay)`: only the delay changes. */
  function SetDelay(ip: Interpolator, delay: real): (r: Interpolator)
    ensures r.delay == delay && r.(delay := ip.delay) == ip
  {
    ip.(delay := delay)
  }

  /** The next `update` after `setInterpolationDelay(d)` renders the instant
      `now - d`. */
  lemma SetDelayShiftsInstant(ip: Interpolator, d: real, now: real)
    ensures Update(SetDelay(ip, d), now).1 == UpdateEach(ip, ip.snapshots.order, now - d, now).1
  {
    var ip' := SetDelay(ip, d);
    UpdateEachIgnoresDelay(ip', ip, ip.snapshots.order, now - d, now);
  }

  /** The delay plays no part once the instant is fixed. */
  lemma {:induction false} UpdateEachIgnoresDelay(a: Interpolator, b: Interpolator, keys: seq<Entity>, at: real, now: real)
    requires a.(delay := b.delay) == b
    ensures UpdateEach(a, keys, at, now).1 == UpdateEach(b, keys, at, now).1
    ensures UpdateEach(a, keys, at, now).0.(delay := b.delay) == UpdateEach(b, keys, at, now).0
    decreases |keys|
  {
    if |keys| > 0 {
      var ra := Render(a, keys[0], at, now);
      var rb := Render(b, keys[0], at, now);
      assert Buffer(a, keys[0]) == Buffer(b, keys[0]);
      assert ra.1 == rb.1 && ra.0.(delay := b.delay) == rb.0;
      UpdateEachIgnoresDelay(ra.0, rb.0, keys[1..], at, now);
    }
  }

  /** `removeEntity(e)`: both the buffer and the rendered state go. */
  function RemoveEntity(ip: Interpolator, e: Entity): (r: Interpolator)
    ensures e !in r.snapshots.entries && e !in r.current.entries
    ensures forall k :: k != e ==> (k in r.snapshots.entries <==> k in ip.snapshots.entries)
    ensures ip.snapshots.Valid() ==> r.snapshots.Valid()
    ensures forall k :: k != e && k in ip.snapshots.entries ==> k in r.snapshots.entries && r.snapshots.entries[k] == ip.snapshots.entries[k]
    ensures forall k :: k != e ==> r.current.Get(k) == ip.current.Get(k)
    ensures r.metrics == ip.metrics && r.delay == ip.delay && r.lastUpdate == ip.lastUpdate
  {
    ip.(snapshots := ip.snapshots.Delete(e), current := ip.current.Delete(e))
  }

  /** `clear()`: buffers, states and metrics reset; the delay and the last
      update time stay. */
  function Clear(ip: Interpolator): (r: Interpolator)
    ensures r.snapshots.order == [] && r.current.order == [] && r.metrics == NoMetrics
    ensures r.delay == ip.delay && r.lastUpdate == ip.lastUpdate && Buffered(r)
  {
    Create(ip.delay, ip.lastUpdate)
  }

  /** `getMetrics().activeEntities` is the map's size, which counts each
      buffered entity once. */
  lemma ActiveEntities(ip: Interpolator)
    requires ip.snapshots.Valid()
    ensures ip.snapshots.Size() == |ip.snapshots.entries.Keys|
  {
    DistinctCount(ip.snapshots.order, ip.snapshots.entries.Keys);
  }

  lemma {:induction false} DistinctCount(s: seq<Entity>, ks: set<Entity>)
    requires NoDup(s) && forall k :: k in ks <==> k in s
    ensures |s| == |ks|
  {
    if |s| > 0 {
      var last := s[|s| - 1];
      NoDupInit(s);
      assert s == s[..|s| - 1] + [last];
      assert forall k :: k in ks - {last} <==> k in s[..|s| - 1];
      DistinctCount(s[..|s| - 1], ks - {last});
      assert last in ks && ks == (ks - {last}) + {last};
    } else {
      assert forall k :: k !in ks;
      assert ks == {};
    }
  }
}
