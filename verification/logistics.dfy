/** One tick of the logistics system: every pending transfer of a
    logistics base becomes a cargo ship at the base's position, and every
    cargo ship that existed before this tick either unloads into its
    target's economy and disappears (once within distance 1) or moves
    toward the target. The TypeScript system and its JavaScript twin
    differ in how an unload meets a resource key the economy lacks. */
module Logistics {
  import opened Wrappers

  type Entity = int

  datatype Vec = Vec(x: real, y: real, z: real)

  /** A JavaScript number as far as unloading needs it. */
  datatype Num = Val(v: real) | NaN

  /** `a + b` on JavaScript numbers: NaN absorbs. */
  function Plus(a: Num, b: real): (r: Num)
    ensures r.NaN? <==> a.NaN?
  {
    match a
    case Val(v) => Val(v + b)
    case NaN => NaN
  }

  datatype Transfer = Transfer(resource: string, amount: real, remainingTime: real, target: Entity)

  /** One resource slot of a cargo hold. */
  datatype Slot = Slot(key: string, amount: real)

  datatype Cargo = Cargo(capacity: real, inventory: seq<Slot>, origin: Option<Entity>, target: Option<Entity>, status: string)

  /** The components the system touches. `economy` holds the numeric
      top-level fields of each Economy component (metal, energy, credits
      and whatever unloading has added). `next` is the world's id counter. */
  datatype World = World(
    next: Entity,
    pos: map<Entity, Vec>,
    vel: map<Entity, Vec>,
    logistics: map<Entity, seq<Transfer>>,
    cargo: map<Entity, Cargo>,
    economy: map<Entity, map<string, Num>>)
  {
    /** Automatic ids are fresh: every entity with a component is below
        the counter. */
    ghost predicate IdsBelowNext()
    {
      (forall e :: e in pos ==> e < next) && (forall e :: e in vel ==> e < next)
      && (forall e :: e in logistics ==> e < next) && (forall e :: e in cargo ==> e < next)
      && (forall e :: e in economy ==> e < next)
    }
  }

  datatype Twin = Ts | Js

  /** `Cargo(capacity)`'s empty hold, then `inventory[resource] = amount`:
      an existing key keeps its place, a new one goes last. */
  function Load(inv: seq<Slot>, key: string, amount: real): (r: seq<Slot>)
    ensures |r| == |inv| || |r| == |inv| + 1
    ensures exists i :: 0 <= i < |r| && r[i] == Slot(key, amount)
  {
    if |inv| == 0 then
      var r := [Slot(key, amount)];
      assert r[0] == Slot(key, amount);
      r
    else if inv[0].key == key then
      var r := [Slot(key, amount)] + inv[1..];
      assert r[0] == Slot(key, amount);
      r
    else
      var rest := Load(inv[1..], key, amount);
      var i :| 0 <= i < |rest| && rest[i] == Slot(key, amount);
      assert ([inv[0]] + rest)[i + 1] == Slot(key, amount);
      [inv[0]] + rest
  }

  /** Loading a key rewrites only the first slot with that key, in place,
      or appends the slot when no slot has it; every slot with another key
      stays where it was. */
  lemma {:induction false} LoadKeepsOthers(inv: seq<Slot>, key: string, amount: real)
    ensures forall i :: 0 <= i < |inv| && inv[i].key != key ==> Load(inv, key, amount)[i] == inv[i]
    ensures (forall i :: 0 <= i < |inv| ==> inv[i].key != key) ==> Load(inv, key, amount) == inv + [Slot(key, amount)]
    ensures (exists i :: 0 <= i < |inv| && inv[i].key == key) ==> |Load(inv, key, amount)| == |inv|
    decreases |inv|
  {
    if |inv| > 0 && inv[0].key != key {
      var rest := Load(inv[1..], key, amount);
      LoadKeepsOthers(inv[1..], key, amount);
      assert Load(inv, key, amount) == [inv[0]] + rest;
      assert forall j :: 1 <= j < |inv| ==> inv[1..][j - 1] == inv[j];
      if exists j :: 0 <= j < |inv| && inv[j].key == key {
        var j :| 0 <= j < |inv| && inv[j].key == key;
        assert j > 0 && inv[1..][j - 1].key == key;
      }
      if forall j :: 0 <= j < |inv| ==> inv[j].key != key {
        assert forall j :: 0 <= j < |inv[1..]| ==> inv[1..][j].key != key;
        assert inv == [inv[0]] + inv[1..];
      }
    }
  }

  const EmptyHold: seq<Slot> := [Slot("metal", 0.0), Slot("energy", 0.0), Slot("credits", 0.0)]

  /** The cargo ship a transfer from `base` becomes. */
  function ShipFor(base: Entity, t: Transfer): Cargo
  {
    Cargo(t.amount * 2.0, Load(EmptyHold, t.resource, t.amount), Some(base), Some(t.target), "traveling")
  }

  /** One iteration of the spawning loop: a new entity from the counter
      with a copy of the base's position, zero velocity and the ship. */
  function Spawn(w: World, base: Entity, at: Vec, t: Transfer): (r: World)
    ensures r.next == w.next + 1 && r.logistics == w.logistics && r.economy == w.economy
    ensures r.cargo == w.cargo[w.next := ShipFor(base, t)] && r.pos == w.pos[w.next := at]
    ensures w.pos.Keys <= r.pos.Keys
  {
    var id := w.next;
    w.(next := id + 1, pos := w.pos[id := at], vel := w.vel[id := Vec(0.0, 0.0, 0.0)], cargo := w.cargo[id := ShipFor(base, t)])
  }

  /** Spawns the ships for `ts`, last transfer first (the loop runs `i`
      downward), each under a fresh id from the counter. */
  function SpawnAll(w: World, base: Entity, at: Vec, ts: seq<Transfer>): (r: World)
    ensures r.next == w.next + |ts|
    ensures r.logistics == w.logistics && r.economy == w.economy && w.pos.Keys <= r.pos.Keys
    decreases |ts|
  {
    if |ts| == 0 then w else SpawnAll(Spawn(w, base, at, ts[|ts| - 1]), base, at, ts[..|ts| - 1])
  }

  /** The cargo map after spawning the ships for `ts` from the counter `next`. */
  function SpawnCargo(cargo: map<Entity, Cargo>, next: int, base: Entity, ts: seq<Transfer>): map<Entity, Cargo>
    decreases |ts|
  {
    if |ts| == 0 then cargo
    else SpawnCargo(cargo[next := ShipFor(base, ts[|ts| - 1])], next + 1, base, ts[..|ts| - 1])
  }

  /** The position map after spawning `n` ships at `at` from the counter `next`. */
  function SpawnPos(pos: map<Entity, Vec>, next: int, at: Vec, n: nat): map<Entity, Vec>
    decreases n
  {
    if n == 0 then pos else SpawnPos(pos[next := at], next + 1, at, n - 1)
  }

  lemma {:induction false} SpawnAllParts(w: World, base: Entity, at: Vec, ts: seq<Transfer>)
    ensures SpawnAll(w, base, at, ts).cargo == SpawnCargo(w.cargo, w.next, base, ts)
    ensures SpawnAll(w, base, at, ts).pos == SpawnPos(w.pos, w.next, at, |ts|)
    decreases |ts|
  {
    if |ts| > 0 {
      SpawnAllParts(Spawn(w, base, at, ts[|ts| - 1]), base, at, ts[..|ts| - 1]);
    }
  }

  lemma {:induction false} SpawnCargoAt(cargo: map<Entity, Cargo>, next: int, base: Entity, ts: seq<Transfer>, i: nat)
    requires i < |ts|
    ensures next + (|ts| - 1 - i) in SpawnCargo(cargo, next, base, ts)
    ensures SpawnCargo(cargo, next, base, ts)[next + (|ts| - 1 - i)] == ShipFor(base, ts[i])
    decreases |ts|
  {
    var n := |ts|;
    var c1 := cargo[next := ShipFor(base, ts[n - 1])];
    var init := ts[..n - 1];
    if i < n - 1 {
      SpawnCargoAt(c1, next + 1, base, init, i);
      assert init[i] == ts[i];
    } else {
      SpawnCargoBelow(c1, next + 1, base, init, next);
    }
  }

  /** Spawning leaves the entries below the counter alone. */
  lemma {:induction false} SpawnCargoBelow(cargo: map<Entity, Cargo>, next: int, base: Entity, ts: seq<Transfer>, e: Entity)
    requires e in cargo && e < next
    ensures e in SpawnCargo(cargo, next, base, ts) && SpawnCargo(cargo, next, base, ts)[e] == cargo[e]
    decreases |ts|
  {
    if |ts| > 0 {
      SpawnCargoBelow(cargo[next := ShipFor(base, ts[|ts| - 1])], next + 1, base, ts[..|ts| - 1], e);
    }
  }

  lemma {:induction false} SpawnPosAt(pos: map<Entity, Vec>, next: int, at: Vec, n: nat, k: nat)
    requires k < n
    ensures next + k in SpawnPos(pos, next, at, n) && SpawnPos(pos, next, at, n)[next + k] == at
    decreases n
  {
    if k > 0 {
      SpawnPosAt(pos[next := at], next + 1, at, n - 1, k - 1);
    } else {
      SpawnPosBelow(pos[next := at], next + 1, at, n - 1, next);
    }
  }

  lemma {:induction false} SpawnPosBelow(pos: map<Entity, Vec>, next: int, at: Vec, n: nat, e: Entity)
    requires e in pos && e < next
    ensures e in SpawnPos(pos, next, at, n) && SpawnPos(pos, next, at, n)[e] == pos[e]
    decreases n
  {
    if n > 0 {
      SpawnPosBelow(pos[next := at], next + 1, at, n - 1, e);
    }
  }

  /** Transfer `i` of `n` becomes the ship numbered `next + (n - 1 - i)`:
      exactly one ship per transfer, at the base's position, carrying the
      transfer's resource and amount toward its target. */
  lemma SpawnAllShips(w: World, base: Entity, at: Vec, ts: seq<Transfer>, i: nat)
    requires i < |ts|
    ensures var r := SpawnAll(w, base, at, ts); var id := w.next + (|ts| - 1 - i);
      id in r.cargo && r.cargo[id] == ShipFor(base, ts[i]) && id in r.pos && r.pos[id] == at
  {
    SpawnAllParts(w, base, at, ts);
    SpawnCargoAt(w.cargo, w.next, base, ts, i);
    SpawnPosAt(w.pos, w.next, at, |ts|, |ts| - 1 - i);
  }

  /** Spawning keeps the position and cargo of every entity older than
      the counter. */
  lemma SpawnAllKeeps(w: World, base: Entity, at: Vec, ts: seq<Transfer>)
    ensures var r := SpawnAll(w, base, at, ts);
      forall e :: e in w.cargo && e < w.next ==> e in r.cargo && r.cargo[e] == w.cargo[e]
    ensures var r := SpawnAll(w, base, at, ts);
      forall e :: e in w.pos && e < w.next ==> e in r.pos && r.pos[e] == w.pos[e]
  {
    SpawnAllParts(w, base, at, ts);
    forall e | e in w.cargo && e < w.next
      ensures e in SpawnCargo(w.cargo, w.next, base, ts) && SpawnCargo(w.cargo, w.next, base, ts)[e] == w.cargo[e]
    {
      SpawnCargoBelow(w.cargo, w.next, base, ts, e);
    }
    forall e | e in w.pos && e < w.next
      ensures e in SpawnPos(w.pos, w.next, at, |ts|) && SpawnPos(w.pos, w.next, at, |ts|)[e] == w.pos[e]
    {
      SpawnPosBelow(w.pos, w.next, at, |ts|, e);
    }
  }

  /** Spawning keeps ids fresh. */
  lemma {:induction false} SpawnAllFresh(w: World, base: Entity, at: Vec, ts: seq<Transfer>)
    requires w.IdsBelowNext()
    ensures SpawnAll(w, base, at, ts).IdsBelowNext()
    decreases |ts|
  {
    if |ts| > 0 {
      SpawnAllFresh(Spawn(w, base, at, ts[|ts| - 1]), base, at, ts[..|ts| - 1]);
    }
  }

  /** The first phase for one base: its transfers become ships and its
      list ends empty. */
  function DispatchOne(w: World, b: Entity): (r: World)
    ensures r.economy == w.economy && r.logistics.Keys == w.logistics.Keys && r.next >= w.next
    ensures w.pos.Keys <= r.pos.Keys
    ensures b in w.logistics && b in w.pos ==> r.logistics == w.logistics[b := []]
    ensures !(b in w.logistics && b in w.pos) ==> r == w
    ensures forall e :: e in w.cargo && e < w.next ==> e in r.cargo && r.cargo[e] == w.cargo[e]
    ensures forall e :: e in w.pos && e < w.next ==> e in r.pos && r.pos[e] == w.pos[e]
  {
    if b in w.logistics && b in w.pos then
      SpawnAllKeeps(w, b, w.pos[b], w.logistics[b]);
      var s := SpawnAll(w, b, w.pos[b], w.logistics[b]);
      s.(logistics := s.logistics[b := []])
    else w
  }

  /** The first phase over the entities the `Logistics`+`Position` query
      lists. */
  function Dispatch(w: World, bases: seq<Entity>): (r: World)
    ensures r.economy == w.economy && r.logistics.Keys == w.logistics.Keys && r.next >= w.next
    ensures w.pos.Keys <= r.pos.Keys
    ensures forall e :: e in w.cargo && e < w.next ==> e in r.cargo && r.cargo[e] == w.cargo[e]
    ensures forall e :: e in w.pos && e < w.next ==> e in r.pos && r.pos[e] == w.pos[e]
    decreases |bases|
  {
    if |bases| == 0 then w else Dispatch(DispatchOne(w, bases[0]), bases[1..])
  }

  /** After dispatch every listed base (with a position) has no transfer
      left, and an unlisted one keeps its list. */
  lemma {:induction false} DispatchEmpties(w: World, bases: seq<Entity>, b: Entity)
    requires b in w.logistics
    ensures b in bases && b in w.pos ==> Dispatch(w, bases).logistics[b] == []
    ensures b !in bases ==> Dispatch(w, bases).logistics[b] == w.logistics[b]
    decreases |bases|
  {
    if |bases| > 0 {
      var w1 := DispatchOne(w, bases[0]);
      DispatchEmpties(w1, bases[1..], b);
      if b == bases[0] && b in w.pos {
        KeepsEmpty(w1, bases[1..], b);
      }
    }
  }

  lemma {:induction false} KeepsEmpty(w: World, bases: seq<Entity>, b: Entity)
    requires b in w.logistics && w.logistics[b] == []
    ensures Dispatch(w, bases).logistics[b] == []
    decreases |bases|
  {
    if |bases| > 0 {
      KeepsEmpty(DispatchOne(w, bases[0]), bases[1..], b);
    }
  }

  /** Each key of the hold, in order, added to the economy. TypeScript
      adds to a numeric field and creates a missing one; JavaScript's
      unguarded `+=` turns a missing field into NaN. */
  function Unload(econ: map<string, Num>, inv: seq<Slot>, twin: Twin): (r: map<string, Num>)
    ensures r.Keys == econ.Keys + set i | 0 <= i < |inv| :: inv[i].key
    decreases |inv|
  {
    if |inv| == 0 then econ
    else
      var s := inv[0];
      var v :=
        if s.key in econ then Plus(econ[s.key], s.amount)
        else if twin == Ts then Val(s.amount) else NaN;
      var r := Unload(econ[s.key := v], inv[1..], twin);
      assert (set i | 0 <= i < |inv| :: inv[i].key) == {s.key} + set i | 0 <= i < |inv[1..]| :: inv[1..][i].key by {
        forall i | 0 <= i < |inv| ensures inv[i].key in {s.key} + set i | 0 <= i < |inv[1..]| :: inv[1..][i].key {
          if i > 0 { assert inv[1..][i - 1] == inv[i]; }
        }
      }
      r
  }

  /** The amount a hold carries of `k`, over all its slots. */
  function Carried(inv: seq<Slot>, k: string): real
  {
    if |inv| == 0 then 0.0 else (if inv[0].key == k then inv[0].amount else 0.0) + Carried(inv[1..], k)
  }

  predicate HasKey(inv: seq<Slot>, k: string)
  {
    exists i :: 0 <= i < |inv| && inv[i].key == k
  }

  /** Unloading in TypeScript: a field already present gains everything
      the hold carries of it; a new field is created with that amount;
      fields the hold does not mention are untouched. */
  lemma {:induction false} UnloadTs(econ: map<string, Num>, inv: seq<Slot>, k: string)
    ensures k in econ ==> Unload(econ, inv, Ts)[k] == Plus(econ[k], Carried(inv, k))
    ensures k !in econ && HasKey(inv, k) ==> Unload(econ, inv, Ts)[k] == Val(Carried(inv, k))
    ensures !HasKey(inv, k) && k in econ ==> Unload(econ, inv, Ts)[k] == econ[k]
    decreases |inv|
  {
    if |inv| > 0 {
      var s := inv[0];
      var v := if s.key in econ then Plus(econ[s.key], s.amount) else Val(s.amount);
      UnloadTs(econ[s.key := v], inv[1..], k);
      if s.key != k {
        assert HasKey(inv, k) ==> HasKey(inv[1..], k) by {
          if HasKey(inv, k) {
            var i :| 0 <= i < |inv| && inv[i].key == k;
            assert inv[1..][i - 1].key == k;
          }
        }
      } else {
        assert Carried(inv, k) == s.amount + Carried(inv[1..], k);
        if s.key in econ && econ[k].Val? {
          assert Plus(Plus(econ[k], s.amount), Carried(inv[1..], k)) == Plus(econ[k], s.amount + Carried(inv[1..], k));
        }
        if s.key !in econ {
          assert Plus(Val(s.amount), Carried(inv[1..], k)) == Val(s.amount + Carried(inv[1..], k));
        }
      }
    }
  }

  /** Unloading in JavaScript: any hold key the economy lacks ends NaN. */
  lemma {:induction false} UnloadJsMissingIsNaN(econ: map<string, Num>, inv: seq<Slot>, k: string)
    requires k !in econ && HasKey(inv, k)
    ensures Unload(econ, inv, Js)[k] == NaN
    decreases |inv|
  {
    var s := inv[0];
    if s.key == k {
      NaNStays(econ[k := NaN], inv[1..], k);
    } else {
      var i :| 0 <= i < |inv| && inv[i].key == k;
      assert inv[1..][i - 1].key == k;
      var v := if s.key in econ then Plus(econ[s.key], s.amount) else NaN;
      UnloadJsMissingIsNaN(econ[s.key := v], inv[1..], k);
    }
  }

  lemma {:induction false} NaNStays(econ: map<string, Num>, inv: seq<Slot>, k: string)
    requires k in econ && econ[k] == NaN
    ensures Unload(econ, inv, Js)[k] == NaN
    decreases |inv|
  {
    if |inv| > 0 {
      var s := inv[0];
      var v := if s.key in econ then Plus(econ[s.key], s.amount) else NaN;
      NaNStays(econ[s.key := v], inv[1..], k);
    }
  }

  /** The twins unload alike whenever the economy already has every field
      the hold mentions. */
  lemma {:induction false} UnloadTwinsAgree(econ: map<string, Num>, inv: seq<Slot>)
    requires forall i :: 0 <= i < |inv| ==> inv[i].key in econ
    ensures Unload(econ, inv, Ts) == Unload(econ, inv, Js)
    decreases |inv|
  {
    if |inv| > 0 {
      var s := inv[0];
      UnloadTwinsAgree(econ[s.key := Plus(econ[s.key], s.amount)], inv[1..]);
    }
  }

  function SqLen(d: Vec): real
  {
    d.x * d.x + d.y * d.y + d.z * d.z
  }

  function Sub(a: Vec, b: Vec): Vec
  {
    Vec(a.x - b.x, a.y - b.y, a.z - b.z)
  }

  /** The ship's velocity toward its target, `dist` being the distance the
      system computed with `Math.sqrt`. */
  function Heading(d: Vec, dist: real): Vec
    requires dist != 0.0
  {
    Vec(d.x / dist * 0.05, d.y / dist * 0.05, d.z / dist * 0.05)
  }

  /** A moving ship's velocity is the offset to its target scaled by
      0.05/dist: it points at the target, with speed 0.05 when `dist` is
      the offset's length. */
  lemma HeadingTowardTarget(d: Vec, dist: real)
    requires dist != 0.0
    ensures var v := Heading(d, dist);
      v.x * dist == d.x * 0.05 && v.y * dist == d.y * 0.05 && v.z * dist == d.z * 0.05
  {
    DivMul(d.x, dist, 0.05);
    DivMul(d.y, dist, 0.05);
    DivMul(d.z, dist, 0.05);
  }

  lemma DivMul(a: real, b: real, k: real)
    requires b != 0.0
    ensures a / b * k * b == a * k
  {
    assert a / b * b == a;
  }

  /** Whether a ship of the captured list is a traveling ship whose target
      has a position, and then whether it is within distance 1. */
  predicate Traveling(w: World, c: Entity)
  {
    c in w.cargo && c in w.pos && c in w.vel
    && w.cargo[c].status == "traveling" && w.cargo[c].target.Some? && w.cargo[c].target.value in w.pos
  }

  predicate Arrives(w: World, c: Entity, sqrt: real -> real)
  {
    Traveling(w, c) && sqrt(SqLen(Sub(w.pos[w.cargo[c].target.value], w.pos[c]))) < 1.0
  }

  /** The second phase for one ship of the captured cargo list. `sqrt` is
      `Math.sqrt`. An arriving ship unloads into its target's economy (its
      goods are lost when the target has none) and is destroyed; a ship
      still away moves; anything else is left alone. */
  function MoveOne(w: World, c: Entity, dt: real, sqrt: real -> real, twin: Twin): (r: World)
    ensures r.next == w.next
    ensures !Traveling(w, c) ==> r == w
    ensures forall e :: e != c && e in w.pos ==> e in r.pos && r.pos[e] == w.pos[e]
    ensures forall e :: e != c && e in w.cargo ==> e in r.cargo && r.cargo[e] == w.cargo[e]
    ensures Arrives(w, c, sqrt) ==> c !in r.cargo && c !in r.pos && c !in r.vel
    ensures Arrives(w, c, sqrt) ==>
      var t := w.cargo[c].target.value;
      forall e :: e in w.economy && e != c ==>
        e in r.economy && r.economy[e] == (if e == t then Unload(w.economy[e], w.cargo[c].inventory, twin) else w.economy[e])
    ensures Traveling(w, c) && !Arrives(w, c, sqrt) ==> c in r.cargo && r.cargo[c] == w.cargo[c] && r.economy == w.economy
  {
    if !Traveling(w, c) then w
    else
      var ship := w.cargo[c];
      var t := ship.target.value;
      var d := Sub(w.pos[t], w.pos[c]);
      var dist := sqrt(SqLen(d));
      if dist < 1.0 then
        var econ := if t in w.economy then w.economy[t := Unload(w.economy[t], ship.inventory, twin)] else w.economy;
        Destroy(w.(economy := econ), c)
      else
        var v := Heading(d, dist);
        var p := w.pos[c];
        w.(vel := w.vel[c := v], pos := w.pos[c := Vec(p.x + v.x * dt, p.y + v.y * dt, p.z + v.z * dt)])
  }

  /** The second phase over the cargo list captured before the first. */
  function MoveAll(w: World, cargos: seq<Entity>, dt: real, sqrt: real -> real, twin: Twin): (r: World)
    ensures r.next == w.next
    ensures forall e :: e !in cargos && e in w.pos ==> e in r.pos && r.pos[e] == w.pos[e]
    ensures forall e :: e !in cargos && e in w.cargo ==> e in r.cargo && r.cargo[e] == w.cargo[e]
    decreases |cargos|
  {
    if |cargos| == 0 then w else MoveAll(MoveOne(w, cargos[0], dt, sqrt, twin), cargos[1..], dt, sqrt, twin)
  }

  /** A whole tick. `bases` is the `Logistics`+`Position` query and
      `cargos` the `Cargo`+`Position`+`Velocity` query, both taken before
      anything is spawned. */
  function Tick(w: World, dt: real, bases: seq<Entity>, cargos: seq<Entity>, sqrt: real -> real, twin: Twin): (r: World)
    ensures r.next >= w.next
    ensures forall e :: e in w.pos && e < w.next && e !in cargos ==> e in r.pos && r.pos[e] == w.pos[e]
    ensures forall e :: e in w.cargo && e < w.next && e !in cargos ==> e in r.cargo && r.cargo[e] == w.cargo[e]
  {
    MoveAll(Dispatch(w, bases), cargos, dt, sqrt, twin)
  }

  /** A ship spawned this tick does not move this tick: it still sits at
      its base's position, because the cargo list was captured before
      spawning and every listed ship has an older id. */
  lemma NewShipsStayPut(w: World, dt: real, bases: seq<Entity>, cargos: seq<Entity>, sqrt: real -> real, twin: Twin, id: Entity)
    requires w.IdsBelowNext()
    requires forall i :: 0 <= i < |cargos| ==> cargos[i] in w.cargo
    requires w.next <= id && id in Dispatch(w, bases).pos
    ensures id in Tick(w, dt, bases, cargos, sqrt, twin).pos
    ensures Tick(w, dt, bases, cargos, sqrt, twin).pos[id] == Dispatch(w, bases).pos[id]
  {
    assert id !in cargos;
  }

  /** `destroyEntity`: the entity leaves every component map. */
  function Destroy(w: World, e: Entity): (r: World)
    ensures e !in r.pos && e !in r.vel && e !in r.cargo && e !in r.logistics && e !in r.economy
    ensures forall x :: x != e && x in w.pos ==> x in r.pos && r.pos[x] == w.pos[x]
    ensures forall x :: x != e && x in w.cargo ==> x in r.cargo && r.cargo[x] == w.cargo[x]
    ensures forall x :: x != e && x in w.economy ==> x in r.economy && r.economy[x] == w.economy[x]
    ensures r.next == w.next
  {
    World(w.next, w.pos - {e}, w.vel - {e}, w.logistics - {e}, w.cargo - {e}, w.economy - {e})
  }
}
