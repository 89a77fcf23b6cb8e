/** The scene event bus: per-event listener sets, global listeners, and an
    `emit` that calls global listeners first and drops `once` listeners
    after the pass. Callbacks are identified by a handle; whether a
    listener throws during an emission is the parameter `throws`. */
module EventBus {
  import opened Wrappers
  import opened JsCollections

  /** A callback function, by identity. */
  type Callback = int

  /** A listener object: `uid` stands for its identity (each registration
      creates a fresh object), `context` for a truthy `this` binding. */
  datatype Listener = Listener(uid: nat, callback: Callback, context: Option<int>, once: bool)

  /** The listener sets, kept in insertion order, and the set of global
      callbacks; `nextUid` hands out listener identities. */
  datatype Bus = Bus(listeners: map<string, seq<Listener>>, globals: Set<Callback>, nextUid: nat)

  /** Event data; the bus never looks inside. */
  type Data = string

  /** One call `emit` makes. */
  datatype Call = GlobalCall(callback: Callback, event: string, data: Data) | ListenerCall(listener: Listener, data: Data)

  /** `new EventBus()`. */
  function Create(): (b: Bus)
    ensures Inv(b)
    ensures forall e :: ListenerCount(b, e) == 0
  {
    Bus(map[], Set([]), 0)
  }

  /** A listener set as the bus keeps it: non-empty, each listener a
      distinct object, every identity already handed out. */
  predicate WellFormed(ls: seq<Listener>, next: nat)
  {
    && |ls| > 0
    && DistinctUids(ls)
    && forall i :: 0 <= i < |ls| ==> ls[i].uid < next
  }

  /** The listeners of one event, all with distinct identities. */
  predicate DistinctUids(ls: seq<Listener>)
  {
    forall i, j :: 0 <= i < |ls| && 0 <= j < |ls| && i != j ==> ls[i].uid != ls[j].uid
  }

  /** No event is kept with an empty listener set, listener sets hold
      distinct objects, and the global set has no duplicates. */
  ghost predicate Inv(b: Bus)
  {
    && (forall e :: e in b.listeners ==> WellFormed(b.listeners[e], b.nextUid))
    && b.globals.Valid()
  }

  /** `listenerCount(eventName)`. */
  function ListenerCount(b: Bus, e: string): (n: nat)
    ensures n == 0 <==> e !in b.listeners || |b.listeners[e]| == 0
  {
    if e in b.listeners then |b.listeners[e]| else 0
  }

  /** `hasListeners(eventName)`. */
  function HasListeners(b: Bus, e: string): (r: bool)
    ensures Inv(b) ==> (r <==> e in b.listeners)
  {
    ListenerCount(b, e) > 0
  }

  /** The listeners of `e`, none when it has no entry. */
  function Of(b: Bus, e: string): seq<Listener>
  {
    if e in b.listeners then b.listeners[e] else []
  }

  /** Registering a fresh listener object for `e`, shared by `on` and
      `once`. */
  function Register(b: Bus, e: string, cb: Callback, context: Option<int>, once: bool): (r: Bus)
    ensures r.listeners == b.listeners[e := Of(b, e) + [Listener(b.nextUid, cb, context, once)]]
    ensures r.globals == b.globals && r.nextUid == b.nextUid + 1
    ensures Inv(b) ==> Inv(r)
  {
    var r := Bus(b.listeners[e := Of(b, e) + [Listener(b.nextUid, cb, context, once)]], b.globals, b.nextUid + 1);
    RegisterInv(b, e, Listener(b.nextUid, cb, context, once), r);
    r
  }

  lemma RegisterInv(b: Bus, e: string, l: Listener, r: Bus)
    requires l.uid == b.nextUid
    requires r == Bus(b.listeners[e := Of(b, e) + [l]], b.globals, b.nextUid + 1)
    ensures Inv(b) ==> Inv(r)
  {
    if Inv(b) {
      AppendFresh(Of(b, e), l, b.nextUid);
      forall f | f in r.listeners && f != e ensures WellFormed(r.listeners[f], r.nextUid) {
        assert WellFormed(b.listeners[f], b.nextUid);
      }
    }
  }

  /** Appending a listener with a fresh identity keeps a set well formed. */
  lemma AppendFresh(ls: seq<Listener>, l: Listener, next: nat)
    requires ls == [] || WellFormed(ls, next)
    requires l.uid == next
    ensures WellFormed(ls + [l], next + 1)
  {
    var r := ls + [l];
    forall i, j | 0 <= i < |r| && 0 <= j < |r| && i != j ensures r[i].uid != r[j].uid {
      if i < |ls| && j < |ls| {
        assert r[i] == ls[i] && r[j] == ls[j];
      } else if i < |ls| {
        assert r[i] == ls[i];
      } else if j < |ls| {
        assert r[j] == ls[j];
      }
    }
  }

  /** What `on` returns: calling it runs `off(eventName, callback)`. */
  datatype Unsubscribe = Unsubscribe(event: string, callback: Callback)

  datatype Subscribed = Subscribed(bus: Bus, unsubscribe: Unsubscribe)

  /** `on(eventName, callback, context)`: a fresh listener is added even
      when the callback is already registered. */
  function On(b: Bus, e: string, cb: Callback, context: Option<int>): (r: Subscribed)
    ensures ListenerCount(r.bus, e) == ListenerCount(b, e) + 1
    ensures forall f :: f != e ==> Of(r.bus, f) == Of(b, f)
    ensures Of(r.bus, e) == Of(b, e) + [Listener(b.nextUid, cb, context, false)]
    ensures r.unsubscribe == Unsubscribe(e, cb)
    ensures Inv(b) ==> Inv(r.bus)
  {
    Subscribed(Register(b, e, cb, context, false), Unsubscribe(e, cb))
  }

  /** `once(eventName, callback, context)`. */
  function Once(b: Bus, e: string, cb: Callback, context: Option<int>): (r: Bus)
    ensures ListenerCount(r, e) == ListenerCount(b, e) + 1
    ensures forall f :: f != e ==> Of(r, f) == Of(b, f)
    ensures Of(r, e) == Of(b, e) + [Listener(b.nextUid, cb, context, true)]
    ensures Inv(b) ==> Inv(r)
  {
    Register(b, e, cb, context, true)
  }

  /** The index of the first listener of `ls` with callback `cb`. */
  function FirstWith(ls: seq<Listener>, cb: Callback): (r: Option<nat>)
    ensures r.Some? ==> r.value < |ls| && ls[r.value].callback == cb && forall i :: 0 <= i < r.value ==> ls[i].callback != cb
    ensures r.None? ==> forall i :: 0 <= i < |ls| ==> ls[i].callback != cb
  {
    if |ls| == 0 then None
    else if ls[0].callback == cb then Some(0)
    else match FirstWith(ls[1..], cb)
      case Some(i) => Some(i + 1)
      case None => None
  }

  /** `off(eventName, callback)`: removes the first listener with that
      callback, if any, and forgets the event once no listener remains. */
  function Off(b: Bus, e: string, cb: Callback): (r: Bus)
    ensures r.globals == b.globals && r.nextUid == b.nextUid
    ensures forall f :: f != e ==> Of(r, f) == Of(b, f) && (f in r.listeners <==> f in b.listeners)
    ensures FirstWith(Of(b, e), cb).None? ==> r == b
    ensures FirstWith(Of(b, e), cb).Some? ==>
      var i := FirstWith(Of(b, e), cb).value;
      Of(r, e) == Of(b, e)[..i] + Of(b, e)[i + 1..] && ListenerCount(r, e) == ListenerCount(b, e) - 1
  {
    if e !in b.listeners then b
    else
      match FirstWith(b.listeners[e], cb)
      case None => b
      case Some(i) =>
        var ls := b.listeners[e][..i] + b.listeners[e][i + 1..];
        if |ls| == 0 then b.(listeners := b.listeners - {e}) else b.(listeners := b.listeners[e := ls])
  }

  /** `off` keeps the invariant. */
  lemma OffInv(b: Bus, e: string, cb: Callback)
    requires Inv(b)
    ensures Inv(Off(b, e, cb))
  {
    var r := Off(b, e, cb);
    if e in b.listeners && FirstWith(b.listeners[e], cb).Some? {
      var k := FirstWith(b.listeners[e], cb).value;
      var ls := b.listeners[e];
      if e in r.listeners {
        RemoveAtWellFormed(ls, k, b.nextUid);
      }
      forall f | f in r.listeners && f != e ensures WellFormed(r.listeners[f], r.nextUid) {
        assert WellFormed(b.listeners[f], b.nextUid);
      }
    }
  }

  /** Removing one listener keeps a set well formed unless it empties it. */
  lemma RemoveAtWellFormed(ls: seq<Listener>, k: nat, next: nat)
    requires WellFormed(ls, next) && k < |ls| && |ls| > 1
    ensures WellFormed(ls[..k] + ls[k + 1..], next)
  {
    var r := ls[..k] + ls[k + 1..];
    forall i | 0 <= i < |r| ensures r[i] == ls[if i < k then i else i + 1] {
    }
  }

  /** Unsubscribing right after subscribing a callback that was not yet
      registered for the event restores every listener set (the bus never
      keeps an event with no listeners, as `Inv` states). */
  lemma OnThenOffRestores(b: Bus, e: string, cb: Callback, context: Option<int>)
    requires e in b.listeners ==> |b.listeners[e]| > 0
    requires FirstWith(Of(b, e), cb).None?
    ensures var s := On(b, e, cb, context);
      var r := Off(s.bus, s.unsubscribe.event, s.unsubscribe.callback);
      r.listeners == b.listeners && r.globals == b.globals
  {
    var s := On(b, e, cb, context);
    var l := Listener(b.nextUid, cb, context, false);
    var old_ := Of(b, e);
    FirstWithAppend(old_, l, cb);
    DropAppended(old_, l);
    var r := Off(s.bus, e, cb);
    if old_ == [] {
      assert e !in b.listeners;
      assert r.listeners == s.bus.listeners - {e};
    } else {
      assert r.listeners == s.bus.listeners[e := old_];
    }
  }

  lemma DropAppended(xs: seq<Listener>, l: Listener)
    ensures (xs + [l])[..|xs|] + (xs + [l])[|xs| + 1..] == xs
  {
    assert (xs + [l])[..|xs|] == xs;
  }

  lemma {:induction false} FirstWithAppend(ls: seq<Listener>, l: Listener, cb: Callback)
    requires FirstWith(ls, cb).None? && l.callback == cb
    ensures FirstWith(ls + [l], cb) == Some(|ls|)
  {
    if |ls| > 0 {
      assert (ls + [l])[1..] == ls[1..] + [l];
      FirstWithAppend(ls[1..], l, cb);
    }
  }

  /** The same callback registered twice counts twice, and one `off`
      removes only one of them. */
  lemma OnTwiceCountsTwice(b: Bus, e: string, cb: Callback)
    ensures var b2 := On(On(b, e, cb, None).bus, e, cb, None).bus;
      && ListenerCount(b2, e) == ListenerCount(b, e) + 2
      && ListenerCount(Off(b2, e, cb), e) == ListenerCount(b, e) + 1
  {
    var b2 := On(On(b, e, cb, None).bus, e, cb, None).bus;
    assert Of(b2, e)[|Of(b2, e)| - 1].callback == cb;
  }

  /** `onAll(callback)`: the callback joins the global set once; the
      returned function deletes it. */
  function OnAll(b: Bus, cb: Callback): (r: Bus)
    ensures r.listeners == b.listeners && r.nextUid == b.nextUid
    ensures forall c :: r.globals.Has(c) <==> b.globals.Has(c) || c == cb
    ensures b.globals.Has(cb) ==> r == b
    ensures Inv(b) ==> Inv(r)
  {
    b.(globals := b.globals.Add(cb))
  }

  /** Calling what `onAll` returned. */
  function OffAll(b: Bus, cb: Callback): (r: Bus)
    ensures r.listeners == b.listeners && r.nextUid == b.nextUid
    ensures forall c :: r.globals.Has(c) <==> b.globals.Has(c) && c != cb
    ensures Inv(b) ==> Inv(r)
  {
    b.(globals := b.globals.Delete(cb))
  }

  /** A global callback registered twice is still called once per
      emission. */
  lemma OnAllIdempotent(b: Bus, cb: Callback)
    ensures OnAll(OnAll(b, cb), cb) == OnAll(b, cb)
  {
  }

  /** The listeners that stay after an emission: every persistent listener
      and every `once` listener that threw. */
  function Survivors(ls: seq<Listener>, throws: Listener -> bool): (r: seq<Listener>)
    ensures |r| <= |ls|
    ensures forall l :: l in r <==> l in ls && (!l.once || throws(l))
  {
    if |ls| == 0 then []
    else
      var rest := Survivors(ls[1..], throws);
      assert forall l :: l in ls <==> l == ls[0] || l in ls[1..];
      if !ls[0].once || throws(ls[0]) then [ls[0]] + rest else rest
  }

  datatype Emitted = Emitted(bus: Bus, calls: seq<Call>)

  /** `emit(eventName, data)`: every global callback in insertion order,
      then every listener of the event in insertion order, each whether or
      not an earlier one threw; then the `once` listeners that did not
      throw are removed and an event left without listeners is forgotten. */
  function Emit(b: Bus, e: string, data: Data, throws: Listener -> bool): (r: Emitted)
    ensures r.bus.globals == b.globals && r.bus.nextUid == b.nextUid
    ensures forall f :: f != e ==> Of(r.bus, f) == Of(b, f) && (f in r.bus.listeners <==> f in b.listeners)
    ensures |r.calls| == b.globals.Size() + |Of(b, e)|
    ensures forall i :: 0 <= i < b.globals.Size() ==> r.calls[i] == GlobalCall(b.globals.elems[i], e, data)
    ensures forall i :: 0 <= i < |Of(b, e)| ==> r.calls[b.globals.Size() + i] == ListenerCall(Of(b, e)[i], data)
    ensures Of(r.bus, e) == Survivors(Of(b, e), throws)
    ensures e in r.bus.listeners ==> |r.bus.listeners[e]| > 0
  {
    var g := b.globals.elems;
    var globalCalls := seq(|g|, i requires 0 <= i < |g| => GlobalCall(g[i], e, data));
    if e !in b.listeners then Emitted(b, globalCalls)
    else
      var ls := b.listeners[e];
      var calls := globalCalls + seq(|ls|, i requires 0 <= i < |ls| => ListenerCall(ls[i], data));
      var kept := Survivors(ls, throws);
      Emitted(if |kept| == 0 then b.(listeners := b.listeners - {e}) else b.(listeners := b.listeners[e := kept]), calls)
  }

  /** `emit` keeps the invariant. */
  lemma EmitInv(b: Bus, e: string, data: Data, throws: Listener -> bool)
    requires Inv(b)
    ensures Inv(Emit(b, e, data, throws).bus)
  {
    var r := Emit(b, e, data, throws).bus;
    if e in b.listeners {
      SurvivorsWellFormed(b.listeners[e], throws, b.nextUid);
      forall f | f in r.listeners && f != e ensures WellFormed(r.listeners[f], r.nextUid) {
        assert WellFormed(b.listeners[f], b.nextUid);
      }
    }
  }

  /** The survivors of a well-formed set are distinct objects with handed
      out identities. */
  lemma {:induction false} SurvivorsWellFormed(ls: seq<Listener>, throws: Listener -> bool, next: nat)
    requires DistinctUids(ls) && forall i :: 0 <= i < |ls| ==> ls[i].uid < next
    ensures var r := Survivors(ls, throws);
      DistinctUids(r) && forall i :: 0 <= i < |r| ==> r[i].uid < next
  {
    if |ls| > 0 {
      var tail := ls[1..];
      assert DistinctUids(tail) by {
        forall i, j | 0 <= i < |tail| && 0 <= j < |tail| && i != j ensures tail[i].uid != tail[j].uid {
          assert tail[i] == ls[i + 1] && tail[j] == ls[j + 1];
        }
      }
      assert forall i :: 0 <= i < |tail| ==> tail[i] == ls[i + 1];
      SurvivorsWellFormed(tail, throws, next);
      var rest := Survivors(tail, throws);
      var r := Survivors(ls, throws);
      forall i | 0 <= i < |rest| ensures rest[i].uid != ls[0].uid {
        assert rest[i] in tail;
        var k :| 0 <= k < |tail| && tail[k] == rest[i];
        assert tail[k] == ls[k + 1];
      }
      if r != rest {
        ConsDistinct(ls[0], rest);
      }
    }
  }

  lemma ConsDistinct(x: Listener, rest: seq<Listener>)
    requires DistinctUids(rest) && forall i :: 0 <= i < |rest| ==> rest[i].uid != x.uid
    ensures DistinctUids([x] + rest)
  {
    var r := [x] + rest;
    forall i, j | 0 <= i < |r| && 0 <= j < |r| && i != j ensures r[i].uid != r[j].uid {
      if i > 0 && j > 0 {
        assert r[i] == rest[i - 1] && r[j] == rest[j - 1];
      } else if i > 0 {
        assert r[i] == rest[i - 1];
      } else {
        assert r[j] == rest[j - 1];
      }
    }
  }

  /** A `once` listener that does not throw is called by one emission and
      by no later one; one that throws stays registered for the next. */
  lemma OnceFiresOnce(b: Bus, e: string, data: Data, later: Data, throws: Listener -> bool, l: Listener)
    requires l in Of(b, e) && l.once
    ensures var r := Emit(b, e, data, throws);
      && ListenerCall(l, data) in r.calls
      && (!throws(l) ==> ListenerCall(l, later) !in Emit(r.bus, e, later, throws).calls)
      && (throws(l) ==> ListenerCall(l, later) in Emit(r.bus, e, later, throws).calls)
  {
    var r := Emit(b, e, data, throws);
    var k :| 0 <= k < |Of(b, e)| && Of(b, e)[k] == l;
    assert r.calls[b.globals.Size() + k] == ListenerCall(l, data);
    var r2 := Emit(r.bus, e, later, throws);
    if throws(l) {
      var j :| 0 <= j < |Of(r.bus, e)| && Of(r.bus, e)[j] == l;
      assert r2.calls[r.bus.globals.Size() + j] == ListenerCall(l, later);
    }
  }

  /** A persistent listener is called by every emission of its event. */
  lemma OnFiresEveryTime(b: Bus, e: string, data: Data, later: Data, throws: Listener -> bool, l: Listener)
    requires l in Of(b, e) && !l.once
    ensures var r := Emit(b, e, data, throws);
      ListenerCall(l, data) in r.calls && ListenerCall(l, later) in Emit(r.bus, e, later, throws).calls
  {
    var r := Emit(b, e, data, throws);
    var k :| 0 <= k < |Of(b, e)| && Of(b, e)[k] == l;
    assert r.calls[b.globals.Size() + k] == ListenerCall(l, data);
    var j :| 0 <= j < |Of(r.bus, e)| && Of(r.bus, e)[j] == l;
    assert Emit(r.bus, e, later, throws).calls[r.bus.globals.Size() + j] == ListenerCall(l, later);
  }

  /** `clear(eventName)`: that event's listeners are dropped, nothing
      else. */
  function Clear(b: Bus, e: string): (r: Bus)
    ensures ListenerCount(r, e) == 0 && e !in r.listeners
    ensures forall f :: f != e ==> Of(r, f) == Of(b, f) && (f in r.listeners <==> f in b.listeners)
    ensures r.globals == b.globals
    ensures Inv(b) ==> Inv(r)
  {
    b.(listeners := b.listeners - {e})
  }

  /** `clearAll()`: every listener and every global callback dropped, so an
      emission calls nobody. */
  function ClearAll(b: Bus): (r: Bus)
    ensures forall e :: ListenerCount(r, e) == 0
    ensures r.globals.Size() == 0
    ensures forall e, d, t :: Emit(r, e, d, t).calls == []
    ensures Inv(b) ==> Inv(r)
  {
    b.(listeners := map[], globals := Set([]))
  }
}
