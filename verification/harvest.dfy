/** The harvester state machine: a harvester walks to a resource node,
    harvests it batch by batch, walks to its owner's nearest base, deposits
    its load there, and goes back. The Inventory, Stockpile and
    ResourceNode components are not part of this model; their operations
    are parameters (`HoldOps`). */
module Harvest {
  import opened Wrappers

  type Entity = int

  datatype Vec = Vec(x: real, y: real, z: real)

  datatype State = Idle | MovingToResource | Harvesting | MovingToBase | Depositing

  datatype Harvester = Harvester(
    state: State,
    targetResource: Option<Entity>,
    targetBase: Option<Entity>,
    harvestTimer: real, harvestDuration: real, harvestRate: real,
    depositTimer: real, depositDuration: real)

  datatype Movable = Movable(target: Option<Vec>, isMoving: bool)

  datatype Node = Node(kind: string, amount: real)

  /** The inventory and stockpile operations the system calls:
      `add(hold, type, amount)` gives the new hold and the amount it
      accepted; `full` is `currentLoad() >= capacity`; `deposit` adds a
      whole hold to a stockpile; `clear` empties a hold. */
  datatype HoldOps<!H, !S> = HoldOps(
    add: (H, string, real) -> (H, real),
    full: H -> bool,
    deposit: (S, H) -> S,
    clear: H -> H)

  datatype World<H, S> = World(
    harvesters: map<Entity, Harvester>,
    movables: map<Entity, Movable>,
    positions: map<Entity, Vec>,
    holds: map<Entity, H>,
    owners: map<Entity, string>,
    nodes: map<Entity, Node>,
    buildings: map<Entity, string>,
    stockpiles: map<Entity, S>)

  const Base := "BASE"

  /** Squared distance on the ground plane (`y` is set to 0 before
      `distanceTo`). */
  function GroundSq(a: Vec, b: Vec): real
  {
    (a.x - b.x) * (a.x - b.x) + (a.z - b.z) * (a.z - b.z)
  }

  function Min(a: real, b: real): real { if a <= b then a else b }

  /** A base the player may use: a BASE building the player owns, with a
      position. */
  predicate OwnBase<H, S>(w: World<H, S>, b: Entity, player: string)
  {
    b in w.owners && w.owners[b] == player && b in w.buildings && w.buildings[b] == Base && b in w.positions
  }

  /** `findNearestBase`: of the listed buildings (the Building, Position,
      Owner and Stockpile query), the first own base at the least ground
      distance; none when there is no own base. */
  function NearestBase<H, S>(w: World<H, S>, at: Vec, player: string, list: seq<Entity>): (r: Option<Entity>)
    ensures r.Some? ==> r.value in list && OwnBase(w, r.value, player)
    ensures r.Some? ==> forall i :: 0 <= i < |list| && OwnBase(w, list[i], player) ==>
      GroundSq(at, w.positions[r.value]) <= GroundSq(at, w.positions[list[i]])
    ensures r.None? ==> forall i :: 0 <= i < |list| ==> !OwnBase(w, list[i], player)
    decreases |list|
  {
    if |list| == 0 then None
    else
      var rest := NearestBase(w, at, player, list[1..]);
      var b := list[0];
      if OwnBase(w, b, player) && (rest.None? || GroundSq(at, w.positions[b]) <= GroundSq(at, w.positions[rest.value]))
      then Some(b)
      else rest
  }

  /** The first own base is chosen among equally near ones, as the
      source's strict `<` keeps the earliest minimum. */
  lemma {:induction false} NearestBaseFirst<H, S>(w: World<H, S>, at: Vec, player: string, list: seq<Entity>, i: nat)
    requires NearestBase(w, at, player, list).Some? && i < |list| && OwnBase(w, list[i], player)
    requires list[i] != NearestBase(w, at, player, list).value
    ensures (exists k :: 0 <= k < i && list[k] == NearestBase(w, at, player, list).value)
      || GroundSq(at, w.positions[NearestBase(w, at, player, list).value]) < GroundSq(at, w.positions[list[i]])
    decreases |list|
  {
    if i > 0 {
      var rest := NearestBase(w, at, player, list[1..]);
      if NearestBase(w, at, player, list) == rest {
        assert list[1..][i - 1] == list[i];
        NearestBaseFirst(w, at, player, list[1..], i - 1);
        if exists k :: 0 <= k < i - 1 && list[1..][k] == rest.value {
          var k :| 0 <= k < i - 1 && list[1..][k] == rest.value;
          assert list[k + 1] == rest.value;
        }
      }
    } else {
      var rest := NearestBase(w, at, player, list[1..]);
      assert NearestBase(w, at, player, list) == rest;
    }
  }

  /** One `update` step for harvester `e`. */
  function Step<H, S>(w: World<H, S>, e: Entity, dt: real, list: seq<Entity>, ops: HoldOps<H, S>): (r: World<H, S>)
    ensures r.owners == w.owners && r.buildings == w.buildings && r.positions == w.positions
    ensures r.harvesters.Keys == w.harvesters.Keys
    ensures forall x :: x in w.harvesters && x != e ==> r.harvesters[x] == w.harvesters[x]
  {
    if !Ready(w, e) then w
    else
      match w.harvesters[e].state
      case Idle => w
      case MovingToResource => ToResource(w, e)
      case Harvesting => HarvestTick(w, e, dt, ops)
      case MovingToBase => ToBase(w, e, list)
      case Depositing => DepositTick(w, e, dt, ops)
  }

  /** MOVING_TO_RESOURCE. */
  function ToResource<H, S>(w: World<H, S>, e: Entity): (r: World<H, S>)
    requires Ready(w, e)
    ensures r.owners == w.owners && r.buildings == w.buildings && r.positions == w.positions
    ensures r.harvesters.Keys == w.harvesters.Keys
    ensures forall x :: x in w.harvesters && x != e ==> r.harvesters[x] == w.harvesters[x]
    ensures r.harvesters[e].state in {w.harvesters[e].state, Idle, Harvesting}
  {
    var h := w.harvesters[e];
    if h.targetResource.None? then w.(harvesters := w.harvesters[e := h.(state := Idle)])
    else
      var t := h.targetResource.value;
      if t !in w.positions || t !in w.nodes || w.nodes[t].amount <= 0.0 then
        w.(harvesters := w.harvesters[e := h.(state := Idle)], movables := w.movables[e := Movable(None, false)])
      else if GroundSq(w.positions[e], w.positions[t]) < 1.5 * 1.5 then
        w.(harvesters := w.harvesters[e := h.(state := Harvesting)], movables := w.movables[e := Movable(None, false)])
      else
        w.(movables := w.movables[e := w.movables[e].(target := Some(w.positions[t]))])
  }

  /** HARVESTING. */
  function HarvestTick<H, S>(w: World<H, S>, e: Entity, dt: real, ops: HoldOps<H, S>): (r: World<H, S>)
    requires Ready(w, e)
    ensures r.owners == w.owners && r.buildings == w.buildings && r.positions == w.positions
    ensures r.harvesters.Keys == w.harvesters.Keys
    ensures forall x :: x in w.harvesters && x != e ==> r.harvesters[x] == w.harvesters[x]
    ensures r.harvesters[e].state in {w.harvesters[e].state, Idle, MovingToBase}
  {
    var h := w.harvesters[e];
    if h.targetResource.None? then w.(harvesters := w.harvesters[e := h.(state := Idle)])
    else
      var t := h.targetResource.value;
      if t !in w.nodes || w.nodes[t].amount <= 0.0 then w.(harvesters := w.harvesters[e := h.(state := MovingToBase)])
      else
        var timer := h.harvestTimer + dt;
        if timer < h.harvestDuration then w.(harvesters := w.harvesters[e := h.(harvestTimer := timer)])
        else
          var node := w.nodes[t];
          var added := ops.add(w.holds[e], node.kind, Min(h.harvestRate, node.amount));
          var h' := h.(harvestTimer := 0.0);
          w.(harvesters := w.harvesters[e := if ops.full(added.0) then h'.(state := MovingToBase) else h'],
             holds := w.holds[e := added.0],
             nodes := w.nodes[t := node.(amount := node.amount - added.1)])
  }

  /** MOVING_TO_BASE: a falsy (absent or 0) base is looked up first. */
  function ToBase<H, S>(w: World<H, S>, e: Entity, list: seq<Entity>): (r: World<H, S>)
    requires Ready(w, e)
    ensures r.owners == w.owners && r.buildings == w.buildings && r.positions == w.positions
    ensures r.harvesters.Keys == w.harvesters.Keys
    ensures forall x :: x in w.harvesters && x != e ==> r.harvesters[x] == w.harvesters[x]
    ensures r.harvesters[e].state in {w.harvesters[e].state, Idle, Depositing}
  {
    var h := w.harvesters[e];
    var base :=
      if h.targetBase.None? || h.targetBase == Some(0) then NearestBase(w, w.positions[e], w.owners[e], list) else h.targetBase;
    if base.None? then w.(harvesters := w.harvesters[e := h.(state := Idle, targetBase := None)])
    else if base.value !in w.positions then w.(harvesters := w.harvesters[e := h.(targetBase := None)])
    else if GroundSq(w.positions[e], w.positions[base.value]) < 2.0 * 2.0 then
      w.(harvesters := w.harvesters[e := h.(state := Depositing, targetBase := base)], movables := w.movables[e := Movable(None, false)])
    else
      w.(harvesters := w.harvesters[e := h.(targetBase := base)],
         movables := w.movables[e := w.movables[e].(target := Some(w.positions[base.value]))])
  }

  /** DEPOSITING. */
  function DepositTick<H, S>(w: World<H, S>, e: Entity, dt: real, ops: HoldOps<H, S>): (r: World<H, S>)
    requires Ready(w, e)
    ensures r.owners == w.owners && r.buildings == w.buildings && r.positions == w.positions
    ensures r.harvesters.Keys == w.harvesters.Keys
    ensures forall x :: x in w.harvesters && x != e ==> r.harvesters[x] == w.harvesters[x]
    ensures r.harvesters[e].state in {w.harvesters[e].state, Idle, MovingToResource}
  {
    var h := w.harvesters[e];
    if h.targetBase.None? then w.(harvesters := w.harvesters[e := h.(state := Idle)])
    else
      var timer := h.depositTimer + dt;
      if timer < h.depositDuration then w.(harvesters := w.harvesters[e := h.(depositTimer := timer)])
      else
        var b := h.targetBase.value;
        var h' := h.(depositTimer := 0.0, state := MovingToResource);
        if b in w.stockpiles then
          w.(harvesters := w.harvesters[e := h'],
             stockpiles := w.stockpiles[b := ops.deposit(w.stockpiles[b], w.holds[e])],
             holds := w.holds[e := ops.clear(w.holds[e])])
        else w.(harvesters := w.harvesters[e := h'])
  }

  /** Whether `Step` acts on `e` at all (the query hands over only
      entities with all five components). */
  predicate Ready<H, S>(w: World<H, S>, e: Entity)
  {
    e in w.harvesters && e in w.movables && e in w.positions && e in w.holds && e in w.owners
  }

  /** The state graph: every step stays put or follows one of the arrows
      IDLE ← {MOVING_TO_RESOURCE, HARVESTING, MOVING_TO_BASE, DEPOSITING},
      MOVING_TO_RESOURCE → HARVESTING → MOVING_TO_BASE → DEPOSITING →
      MOVING_TO_RESOURCE. IDLE is never left. */
  predicate Arrow(a: State, b: State)
  {
    a == b
    || (b == Idle && a != Idle)
    || (a == MovingToResource && b == Harvesting)
    || (a == Harvesting && b == MovingToBase)
    || (a == MovingToBase && b == Depositing)
    || (a == Depositing && b == MovingToResource)
  }

  lemma StepFollowsArrows<H, S>(w: World<H, S>, e: Entity, dt: real, list: seq<Entity>, ops: HoldOps<H, S>)
    requires Ready(w, e)
    ensures Arrow(w.harvesters[e].state, Step(w, e, dt, list, ops).harvesters[e].state)
    ensures w.harvesters[e].state == Idle ==> Step(w, e, dt, list, ops) == w
  {
    match w.harvesters[e].state
    case Idle =>
    case MovingToResource =>
    case Harvesting =>
    case MovingToBase =>
    case Depositing =>
  }

  /** Heading for the resource: a vanished or exhausted node sends the
      harvester IDLE and stops it; within ground distance 1.5 of the node
      it stops and starts harvesting; farther away it steers to the node. */
  lemma ResourceArrival<H, S>(w: World<H, S>, e: Entity, dt: real, list: seq<Entity>, ops: HoldOps<H, S>)
    requires Ready(w, e) && w.harvesters[e].state == MovingToResource && w.harvesters[e].targetResource.Some?
    ensures var t := w.harvesters[e].targetResource.value; var r := Step(w, e, dt, list, ops);
      && (t !in w.positions || t !in w.nodes || w.nodes[t].amount <= 0.0 ==>
            r.harvesters[e].state == Idle && r.movables[e] == Movable(None, false))
      && (t in w.positions && t in w.nodes && w.nodes[t].amount > 0.0 ==>
            && (r.harvesters[e].state == Harvesting <==> GroundSq(w.positions[e], w.positions[t]) < 2.25)
            && (r.harvesters[e].state == Harvesting ==> r.movables[e] == Movable(None, false))
            && (r.harvesters[e].state != Harvesting ==> r.movables[e].target == Some(w.positions[t])))
      && r.nodes == w.nodes && r.holds == w.holds
  {
  }

  /** A harvest batch offers min(harvestRate, node amount) and the node
      loses exactly what the hold accepted; when the hold accepts no more
      than was offered, the node never goes negative. */
  lemma HarvestBatch<H, S>(w: World<H, S>, e: Entity, dt: real, list: seq<Entity>, ops: HoldOps<H, S>)
    requires Ready(w, e) && w.harvesters[e].state == Harvesting && w.harvesters[e].targetResource.Some?
    requires var t := w.harvesters[e].targetResource.value;
      t in w.nodes && w.nodes[t].amount > 0.0 && w.harvesters[e].harvestTimer + dt >= w.harvesters[e].harvestDuration
    ensures var h := w.harvesters[e]; var t := h.targetResource.value; var node := w.nodes[t];
      var offer := Min(h.harvestRate, node.amount);
      var added := ops.add(w.holds[e], node.kind, offer);
      var r := Step(w, e, dt, list, ops);
      && r.nodes[t].amount == node.amount - added.1
      && r.holds[e] == added.0
      && r.harvesters[e].harvestTimer == 0.0
      && (r.harvesters[e].state == MovingToBase <==> ops.full(added.0))
      && (0.0 <= added.1 <= offer ==> r.nodes[t].amount >= 0.0)
  {
  }

  /** A deposit moves the whole hold into the base's stockpile, clears the
      hold and heads back to the resource; without a stockpile the load
      stays aboard. */
  lemma DepositMovesAll<H, S>(w: World<H, S>, e: Entity, dt: real, list: seq<Entity>, ops: HoldOps<H, S>)
    requires Ready(w, e) && w.harvesters[e].state == Depositing && w.harvesters[e].targetBase.Some?
    requires w.harvesters[e].depositTimer + dt >= w.harvesters[e].depositDuration
    ensures var b := w.harvesters[e].targetBase.value; var r := Step(w, e, dt, list, ops);
      && r.harvesters[e].state == MovingToResource && r.harvesters[e].depositTimer == 0.0
      && (b in w.stockpiles ==> r.stockpiles[b] == ops.deposit(w.stockpiles[b], w.holds[e]) && r.holds[e] == ops.clear(w.holds[e]))
      && (b !in w.stockpiles ==> r.holds == w.holds && r.stockpiles == w.stockpiles)
  {
  }

  /** Heading for base: with no own base the harvester goes IDLE; within
      ground distance 2 of its base it starts depositing. */
  lemma BaseArrival<H, S>(w: World<H, S>, e: Entity, dt: real, list: seq<Entity>, ops: HoldOps<H, S>)
    requires Ready(w, e) && w.harvesters[e].state == MovingToBase
    ensures var h := w.harvesters[e]; var r := Step(w, e, dt, list, ops);
      (h.targetBase.None? && NearestBase(w, w.positions[e], w.owners[e], list).None? ==> r.harvesters[e].state == Idle)
      && (h.targetBase.Some? && h.targetBase.value != 0 && h.targetBase.value in w.positions ==>
            (r.harvesters[e].state == Depositing <==> GroundSq(w.positions[e], w.positions[h.targetBase.value]) < 4.0))
  {
  }

  /** One `update` over the harvester query's entities, in order. */
  function Update<H, S>(w: World<H, S>, list: seq<Entity>, dt: real, harvesters: seq<Entity>, ops: HoldOps<H, S>): (r: World<H, S>)
    ensures r.harvesters.Keys == w.harvesters.Keys
    decreases |harvesters|
  {
    if |harvesters| == 0 then w else Update(Step(w, harvesters[0], dt, list, ops), list, dt, harvesters[1..], ops)
  }

  /** An IDLE harvester is left exactly as it is by a whole update. */
  lemma {:induction false} UpdateKeepsIdle<H, S>(w: World<H, S>, list: seq<Entity>, dt: real, harvesters: seq<Entity>, ops: HoldOps<H, S>, e: Entity)
    requires e in w.harvesters && w.harvesters[e].state == Idle
    ensures Update(w, list, dt, harvesters, ops).harvesters[e] == w.harvesters[e]
    decreases |harvesters|
  {
    if |harvesters| > 0 {
      var w' := Step(w, harvesters[0], dt, list, ops);
      if harvesters[0] == e && Ready(w, e) {
        StepFollowsArrows(w, e, dt, list, ops);
      }
      assert w'.harvesters[e] == w.harvesters[e];
      UpdateKeepsIdle(w', list, dt, harvesters[1..], ops, e);
    }
  }
}
