/** One tick of the colony economy: production is cleared, every active
    building adds to the production of the economy it feeds (by a fixed
    legacy rate, or through an all-or-nothing production chain), and the
    production is then added to the stocks. Both the TypeScript system and
    its JavaScript twin are modelled; they differ only in how they pick the
    economy a building feeds. */
module EconomySystem {
  import opened Wrappers
  import opened JsCollections

  type Entity = int

  /** Stocks (`metal`, `energy`, `credits` and any other resource key) and
      per-second production. */
  datatype Economy = Economy(stock: map<string, real>, production: map<string, real>)

  datatype Building = Building(kind: string, level: real, active: bool)

  /** One resource entry of a chain's inputs or outputs. */
  datatype Entry = Entry(key: string, amount: real)

  /** A production chain; inputs and outputs are in their object-entry order. */
  datatype Chain = Chain(inputs: seq<Entry>, outputs: seq<Entry>, status: string)

  datatype Colony = Colony(economies: map<Entity, Economy>, buildings: map<Entity, Building>, chains: map<Entity, Chain>)

  /** Which of the two system files is meant. */
  datatype Twin = Ts | Js

  /** The three stocks that production is applied to. */
  const PoolSet: set<string> := {"metal", "energy", "credits"}

  /** A resource value read with `|| 0`: a missing key counts as 0. */
  function Get(m: map<string, real>, k: string): real
  {
    if k in m then m[k] else 0.0
  }

  /** The tick's first phase: each listed economy's metal, energy and
      credits production drops to 0; its other production keys and its
      stocks are kept. */
  function Reset(economies: map<Entity, Economy>, econ: seq<Entity>): (r: map<Entity, Economy>)
    ensures r.Keys == economies.Keys
    ensures forall e :: e in economies && e !in econ ==> r[e] == economies[e]
    ensures forall e :: e in economies && e in econ ==>
      r[e].stock == economies[e].stock
      && r[e].production.Keys == economies[e].production.Keys + {"metal", "energy", "credits"}
      && r[e].production["metal"] == 0.0 && r[e].production["energy"] == 0.0 && r[e].production["credits"] == 0.0
      && forall k :: k in economies[e].production && k !in PoolSet ==> r[e].production[k] == economies[e].production[k]
  {
    map e | e in economies :: if e in econ then ResetOne(economies[e]) else economies[e]
  }

  function ResetOne(eco: Economy): Economy
  {
    eco.(production := eco.production["metal" := 0.0]["energy" := 0.0]["credits" := 0.0])
  }

  /** Resetting twice is resetting once. */
  lemma ResetIdempotent(economies: map<Entity, Economy>, econ: seq<Entity>)
    ensures Reset(Reset(economies, econ), econ) == Reset(economies, econ)
  {
    var once := Reset(economies, econ);
    forall e | e in economies
      ensures Reset(once, econ)[e] == once[e]
    {
      if e in econ {
        assert ResetOne(once[e]).production == once[e].production;
      }
    }
  }

  /** The economy a building feeds: its own when it has one, else the
      first economy. `find(...) || economies[0]` drops an own economy
      whose id is 0, since 0 is falsy. The TypeScript file skips the
      building only when there is no economy at all; the JavaScript file
      also skips it when the chosen id is 0. */
  function ChooseEconomy(b: Entity, econ: seq<Entity>, twin: Twin): (r: Option<Entity>)
    ensures r.Some? ==> r.value in econ
    ensures b in econ && b != 0 ==> r == Some(b)
    ensures !(b in econ && b != 0) && |econ| > 0 && (twin == Ts || econ[0] != 0) ==> r == Some(econ[0])
    ensures twin == Ts ==> (r.None? <==> |econ| == 0)
    ensures twin == Js ==> (r.None? <==> |econ| == 0 || (!(b in econ && b != 0) && econ[0] == 0))
  {
    var pick := if b in econ && b != 0 then Some(b) else if |econ| > 0 then Some(econ[0]) else None;
    if twin == Js && pick == Some(0) then None else pick
  }

  /** The two files pick the same economy whenever entity 0 has none. */
  lemma ChooseTwinsAgree(b: Entity, econ: seq<Entity>)
    requires 0 !in econ
    ensures ChooseEconomy(b, econ, Ts) == ChooseEconomy(b, econ, Js)
  {
  }

  /** The legacy rates: a mine makes 10·level metal, a power plant
      15·level energy, housing 5·level credits, anything else nothing. */
  function LegacyOutput(building: Building): (r: Option<Entry>)
    ensures building.kind == "mine" <==> r == Some(Entry("metal", 10.0 * building.level))
    ensures building.kind == "centrale" <==> r == Some(Entry("energy", 15.0 * building.level))
    ensures building.kind == "habitation" <==> r == Some(Entry("credits", 5.0 * building.level))
    ensures r.Some? ==> r.value.key in PoolSet
  {
    if building.kind == "mine" then Some(Entry("metal", 10.0 * building.level))
    else if building.kind == "centrale" then Some(Entry("energy", 15.0 * building.level))
    else if building.kind == "habitation" then Some(Entry("credits", 5.0 * building.level))
    else None
  }

  /** A chain may run only if every input's stock covers amount·dt. */
  predicate CanProduce(stock: map<string, real>, inputs: seq<Entry>, dt: real)
  {
    forall i :: 0 <= i < |inputs| ==> Get(stock, inputs[i].key) >= inputs[i].amount * dt
  }

  /** The sum of the amounts listed under key `k`. */
  function Amount(entries: seq<Entry>, k: string): real
  {
    if |entries| == 0 then 0.0
    else (if entries[0].key == k then entries[0].amount else 0.0) + Amount(entries[1..], k)
  }

  /** Each entry in turn adds its amount to its key (`up`) or takes it away. */
  function Shift(m: map<string, real>, entries: seq<Entry>, up: bool): map<string, real>
    decreases |entries|
  {
    if |entries| == 0 then m
    else
      var k := entries[0].key;
      Shift(m[k := if up then Get(m, k) + entries[0].amount else Get(m, k) - entries[0].amount], entries[1..], up)
  }

  /** Shifting moves every key by exactly its listed total. */
  lemma {:induction false} ShiftMeaning(m: map<string, real>, entries: seq<Entry>, up: bool, k: string)
    ensures up ==> Get(Shift(m, entries, up), k) == Get(m, k) + Amount(entries, k)
    ensures !up ==> Get(Shift(m, entries, up), k) == Get(m, k) - Amount(entries, k)
    decreases |entries|
  {
    if |entries| > 0 {
      var key := entries[0].key;
      ShiftMeaning(m[key := if up then Get(m, key) + entries[0].amount else Get(m, key) - entries[0].amount], entries[1..], up, k);
    }
  }

  /** The entries with every amount multiplied by `scale`. */
  function Scaled(entries: seq<Entry>, scale: real): (r: seq<Entry>)
    ensures |r| == |entries|
    decreases |entries|
  {
    if |entries| == 0 then [] else [Entry(entries[0].key, entries[0].amount * scale)] + Scaled(entries[1..], scale)
  }

  lemma {:induction false} AmountScaled(entries: seq<Entry>, scale: real, k: string)
    ensures Amount(Scaled(entries, scale), k) == Amount(entries, k) * scale
    decreases |entries|
  {
    if |entries| > 0 {
      var a := entries[0].amount;
      var rest := Amount(entries[1..], k);
      var sc := Scaled(entries, scale);
      assert sc[0] == Entry(entries[0].key, a * scale);
      assert sc[1..] == Scaled(entries[1..], scale);
      AmountScaled(entries[1..], scale, k);
      if entries[0].key == k {
        assert a * scale + rest * scale == (a + rest) * scale;
      }
    }
  }

  /** Under distinct keys, a listed key's total is its one amount. */
  lemma {:induction false} AmountOfDistinct(entries: seq<Entry>, i: nat)
    requires i < |entries|
    requires forall p, q :: 0 <= p < q < |entries| ==> entries[p].key != entries[q].key
    ensures Amount(entries, entries[i].key) == entries[i].amount
    decreases |entries|
  {
    if i == 0 {
      AmountAbsent(entries[1..], entries[0].key);
    } else {
      AmountOfDistinct(entries[1..], i - 1);
    }
  }

  lemma {:induction false} AmountAbsent(entries: seq<Entry>, k: string)
    requires forall p :: 0 <= p < |entries| ==> entries[p].key != k
    ensures Amount(entries, k) == 0.0
    decreases |entries|
  {
    if |entries| > 0 {
      AmountAbsent(entries[1..], k);
    }
  }

  /** A running chain's effect on the economy it feeds: amount·dt of each
      input leaves the stock and amount·dt of each output joins production. */
  function Produce(eco: Economy, chain: Chain, dt: real): (r: Economy)
    ensures Moved(eco.stock, r.stock, chain.inputs, dt, false)
    ensures Moved(eco.production, r.production, chain.outputs, dt, true)
  {
    var stock := Shift(eco.stock, Scaled(chain.inputs, dt), false);
    var production := Shift(eco.production, Scaled(chain.outputs, dt), true);
    ShiftScaled(eco.stock, chain.inputs, dt, false);
    ShiftScaled(eco.production, chain.outputs, dt, true);
    eco.(stock := stock, production := production)
  }

  /** One chain step on the economy it feeds. All inputs are present, so
      each is taken and each output is added to production, and the chain
      reports `producing`; or some input is short, nothing is consumed or
      produced, and the chain ends up `idle` (the `stalled_input` status
      set by the check is overwritten). */
  function ChainStep(eco: Economy, chain: Chain, dt: real): (r: (Economy, Chain))
    ensures r.1 == chain.(status := r.1.status)
    ensures !CanProduce(eco.stock, chain.inputs, dt) ==> r.0 == eco && r.1.status == "idle"
    ensures CanProduce(eco.stock, chain.inputs, dt) ==> r.0 == Produce(eco, chain, dt) && r.1.status == "producing"
  {
    if CanProduce(eco.stock, chain.inputs, dt) then (Produce(eco, chain, dt), chain.(status := "producing"))
    else (eco, chain.(status := "idle"))
  }

  /** Every key of `after` is its value in `before` moved up (or down) by
      its listed total times dt; a missing key reads as 0. */
  ghost predicate Moved(before: map<string, real>, after: map<string, real>, entries: seq<Entry>, dt: real, up: bool)
  {
    forall k :: Get(after, k) == if up then Get(before, k) + Amount(entries, k) * dt else Get(before, k) - Amount(entries, k) * dt
  }

  /** Shifting by the entries scaled by dt moves every key by its listed
      total times dt. */
  lemma ShiftScaled(m: map<string, real>, entries: seq<Entry>, dt: real, up: bool)
    ensures Moved(m, Shift(m, Scaled(entries, dt), up), entries, dt, up)
  {
    forall k
      ensures Get(Shift(m, Scaled(entries, dt), up), k)
           == if up then Get(m, k) + Amount(entries, k) * dt else Get(m, k) - Amount(entries, k) * dt
    {
      ShiftMeaning(m, Scaled(entries, dt), up, k);
      AmountScaled(entries, dt, k);
    }
  }

  /** A chain with distinct input keys never drives an input stock below 0. */
  lemma ChainNeverOverdraws(eco: Economy, chain: Chain, dt: real, i: nat)
    requires i < |chain.inputs|
    requires forall p, q :: 0 <= p < q < |chain.inputs| ==> chain.inputs[p].key != chain.inputs[q].key
    ensures Get(ChainStep(eco, chain, dt).0.stock, chain.inputs[i].key) >= 0.0
      || Get(ChainStep(eco, chain, dt).0.stock, chain.inputs[i].key) == Get(eco.stock, chain.inputs[i].key)
  {
    if CanProduce(eco.stock, chain.inputs, dt) {
      var k := chain.inputs[i].key;
      AmountOfDistinct(chain.inputs, i);
      assert Get(eco.stock, k) >= chain.inputs[i].amount * dt;
      TakenWithinStock(eco, chain, dt, k);
    }
  }

  lemma TakenWithinStock(eco: Economy, chain: Chain, dt: real, k: string)
    requires Get(eco.stock, k) >= Amount(chain.inputs, k) * dt
    ensures Get(Produce(eco, chain, dt).stock, k) >= 0.0
  {
    ProduceTakes(eco, chain, dt, k);
  }

  lemma ProduceTakes(eco: Economy, chain: Chain, dt: real, k: string)
    ensures Get(Produce(eco, chain, dt).stock, k) == Get(eco.stock, k) - Amount(chain.inputs, k) * dt
  {
  }

  /** A stalled chain always ends the tick `idle`, never `stalled_input`. */
  lemma StallEndsIdle(eco: Economy, chain: Chain, dt: real)
    requires exists i :: 0 <= i < |chain.inputs| && Get(eco.stock, chain.inputs[i].key) < chain.inputs[i].amount * dt
    ensures ChainStep(eco, chain, dt).1.status == "idle"
    ensures ChainStep(eco, chain, dt).1.status != "stalled_input"
  {
  }

  /** One building's share of the second phase. */
  function BuildingStep(c: Colony, b: Entity, econ: seq<Entity>, dt: real, twin: Twin): (r: Colony)
    ensures r.buildings == c.buildings
    ensures r.economies.Keys == c.economies.Keys && r.chains.Keys == c.chains.Keys
    ensures forall x :: x in c.chains && x != b ==> r.chains[x] == c.chains[x]
    ensures forall x :: x in c.economies && Some(x) != ChooseEconomy(b, econ, twin) ==> r.economies[x] == c.economies[x]
    ensures b !in c.buildings || !c.buildings[b].active ==> r == c
    ensures var e := ChooseEconomy(b, econ, twin);
      b in c.buildings && c.buildings[b].active && (e.None? || e.value !in c.economies) ==> r == c
    ensures var e := ChooseEconomy(b, econ, twin);
      b in c.buildings && c.buildings[b].active && e.Some? && e.value in c.economies && b in c.chains ==>
        (r.economies[e.value], r.chains[b]) == ChainStep(c.economies[e.value], c.chains[b], dt)
    ensures var e := ChooseEconomy(b, econ, twin);
      b in c.buildings && c.buildings[b].active && e.Some? && e.value in c.economies && b !in c.chains ==>
        var (eco, eco') := (c.economies[e.value], r.economies[e.value]);
        r.chains == c.chains && eco'.stock == eco.stock
        && forall k :: Get(eco'.production, k) == Get(eco.production, k)
             + (match LegacyOutput(c.buildings[b]) case Some(out) => if out.key == k then out.amount else 0.0 case None => 0.0)
  {
    if b !in c.buildings || !c.buildings[b].active then c
    else
      match ChooseEconomy(b, econ, twin)
      case None => c
      case Some(e) =>
        if e !in c.economies then c
        else
          var eco := c.economies[e];
          if b !in c.chains then
            match LegacyOutput(c.buildings[b])
            case None => c
            case Some(out) =>
              c.(economies := c.economies[e := eco.(production := eco.production[out.key := Get(eco.production, out.key) + out.amount])])
          else
            var step := ChainStep(eco, c.chains[b], dt);
            c.(economies := c.economies[e := step.0], chains := c.chains[b := step.1])
  }

  function BuildingsStep(c: Colony, buildings: seq<Entity>, econ: seq<Entity>, dt: real, twin: Twin): (r: Colony)
    ensures r.buildings == c.buildings
    ensures r.economies.Keys == c.economies.Keys
    decreases |buildings|
  {
    if |buildings| == 0 then c
    else BuildingsStep(BuildingStep(c, buildings[0], econ, dt, twin), buildings[1..], econ, dt, twin)
  }

  /** The last phase for one economy's stock map: each of the three
      stocks gains production·dt; other keys are copied. */
  function Gain(stock: map<string, real>, production: map<string, real>, dt: real): map<string, real>
  {
    map k | k in stock.Keys + PoolSet :: if k in PoolSet then Get(stock, k) + Get(production, k) * dt else stock[k]
  }

  /** Each of the three stocks gains production·dt; other keys keep
      their value (a key absent before stays absent, reading as 0). */
  lemma GainAt(stock: map<string, real>, production: map<string, real>, dt: real, k: string)
    ensures k in PoolSet ==> Get(Gain(stock, production, dt), k) == Get(stock, k) + Get(production, k) * dt
    ensures k !in PoolSet ==> Get(Gain(stock, production, dt), k) == Get(stock, k)
  {
  }

  function ApplyOne(eco: Economy, dt: real): Economy
  {
    eco.(stock := Gain(eco.stock, eco.production, dt))
  }

  function Apply(economies: map<Entity, Economy>, econ: seq<Entity>, dt: real): (r: map<Entity, Economy>)
    ensures r.Keys == economies.Keys
    ensures forall e :: e in economies && e !in econ ==> r[e] == economies[e]
    decreases |econ|
  {
    if |econ| == 0 then economies
    else
      var e := econ[0];
      Apply(if e in economies then economies[e := ApplyOne(economies[e], dt)] else economies, econ[1..], dt)
  }

  /** With the economy list free of repeats, each listed economy's stocks
      gain exactly one production·dt. */
  lemma {:induction false} ApplyOnce(economies: map<Entity, Economy>, econ: seq<Entity>, dt: real, e: Entity)
    requires forall p, q :: 0 <= p < q < |econ| ==> econ[p] != econ[q]
    requires e in economies && e in econ
    ensures Apply(economies, econ, dt)[e] == ApplyOne(economies[e], dt)
    decreases |econ|
  {
    var head := econ[0];
    var next := if head in economies then economies[head := ApplyOne(economies[head], dt)] else economies;
    if head == e {
      assert e !in econ[1..] by {
        forall p | 0 <= p < |econ[1..]| ensures econ[1..][p] != e {
          assert econ[1..][p] == econ[p + 1];
        }
      }
    } else {
      ApplyOnce(next, econ[1..], dt, e);
    }
  }

  /** A whole tick of the economy system. `econ` and `buildings` are the
      entity lists the world query returns for `Economy` and `Building`. */
  function Tick(c: Colony, dt: real, econ: seq<Entity>, buildings: seq<Entity>, twin: Twin): (r: Colony)
    ensures r.buildings == c.buildings
    ensures r.economies.Keys == c.economies.Keys
  {
    var reset := c.(economies := Reset(c.economies, econ));
    var built := BuildingsStep(reset, buildings, econ, dt, twin);
    built.(economies := Apply(built.economies, econ, dt))
  }

  /** Building `b` feeds economy `e` this tick: it is a known, active
      building and `e` is the economy chosen for it. */
  predicate Feeds(c: Colony, b: Entity, econ: seq<Entity>, twin: Twin, e: Entity)
  {
    b in c.buildings && c.buildings[b].active && ChooseEconomy(b, econ, twin) == Some(e)
  }

  /** What one feeding building does to the economy it feeds: its chain
      step when it has a chain, its legacy output otherwise. */
  function FeedOne(eco: Economy, c: Colony, b: Entity, dt: real): Economy
    requires b in c.buildings
  {
    if b in c.chains then ChainStep(eco, c.chains[b], dt).0
    else
      match LegacyOutput(c.buildings[b])
      case None => eco
      case Some(out) => eco.(production := eco.production[out.key := Get(eco.production, out.key) + out.amount])
  }

  /** The building loop as one economy sees it: the buildings feeding
      `e`, in list order, each acting on that economy alone. */
  function Feed(eco: Economy, c: Colony, buildings: seq<Entity>, econ: seq<Entity>, dt: real, twin: Twin, e: Entity): Economy
    decreases |buildings|
  {
    if |buildings| == 0 then eco
    else
      var b := buildings[0];
      Feed(if Feeds(c, b, econ, twin, e) then FeedOne(eco, c, b, dt) else eco, c, buildings[1..], econ, dt, twin, e)
  }

  /** Two colonies with the same buildings and the same chain recipes
      (their statuses aside). */
  predicate SameRecipes(c: Colony, d: Colony)
  {
    && c.buildings == d.buildings
    && c.chains.Keys == d.chains.Keys
    && forall x :: x in c.chains ==> c.chains[x].inputs == d.chains[x].inputs && c.chains[x].outputs == d.chains[x].outputs
  }

  /** The per-economy view reads only the buildings and the recipes. */
  lemma {:induction false} FeedReadsRecipes(eco: Economy, c: Colony, d: Colony, buildings: seq<Entity>, econ: seq<Entity>, dt: real, twin: Twin, e: Entity)
    requires SameRecipes(c, d)
    ensures Feed(eco, c, buildings, econ, dt, twin, e) == Feed(eco, d, buildings, econ, dt, twin, e)
    decreases |buildings|
  {
    if |buildings| > 0 {
      var b := buildings[0];
      if Feeds(c, b, econ, twin, e) {
        FeedOneReadsRecipes(eco, c, d, b, dt);
        FeedReadsRecipes(FeedOne(eco, c, b, dt), c, d, buildings[1..], econ, dt, twin, e);
      } else {
        FeedReadsRecipes(eco, c, d, buildings[1..], econ, dt, twin, e);
      }
    }
  }

  lemma FeedOneReadsRecipes(eco: Economy, c: Colony, d: Colony, b: Entity, dt: real)
    requires SameRecipes(c, d) && b in c.buildings
    ensures FeedOne(eco, c, b, dt) == FeedOne(eco, d, b, dt)
  {
    if b in c.chains {
      var p, q := c.chains[b], d.chains[b];
      assert p.inputs == q.inputs && p.outputs == q.outputs;
      assert CanProduce(eco.stock, p.inputs, dt) == CanProduce(eco.stock, q.inputs, dt);
      assert Produce(eco, p, dt) == Produce(eco, q, dt);
    }
  }

  /** One building step keeps the buildings and every recipe. */
  lemma BuildingStepKeepsRecipes(c: Colony, b: Entity, econ: seq<Entity>, dt: real, twin: Twin)
    ensures SameRecipes(c, BuildingStep(c, b, econ, dt, twin))
  {
    var r := BuildingStep(c, b, econ, dt, twin);
    forall x | x in c.chains
      ensures c.chains[x].inputs == r.chains[x].inputs && c.chains[x].outputs == r.chains[x].outputs
    {
      if x == b {
        assert r.chains[x] == c.chains[x].(status := r.chains[x].status);
      }
    }
  }

  /** One building step acts on economy `e` exactly as `FeedOne` when
      the building feeds `e`, and leaves it alone otherwise. */
  lemma BuildingStepAt(c: Colony, b: Entity, econ: seq<Entity>, dt: real, twin: Twin, e: Entity)
    requires e in c.economies
    ensures BuildingStep(c, b, econ, dt, twin).economies[e]
         == if Feeds(c, b, econ, twin, e) then FeedOne(c.economies[e], c, b, dt) else c.economies[e]
  {
  }

  /** The building loop treats every economy independently: what it
      leaves in economy `e` is the per-economy fold over the buildings
      that feed `e`. */
  lemma {:induction false} BuildingsStepIsFeed(c: Colony, buildings: seq<Entity>, econ: seq<Entity>, dt: real, twin: Twin, e: Entity)
    requires e in c.economies
    ensures BuildingsStep(c, buildings, econ, dt, twin).economies[e] == Feed(c.economies[e], c, buildings, econ, dt, twin, e)
    decreases |buildings|
  {
    if |buildings| > 0 {
      var b := buildings[0];
      var c1 := BuildingStep(c, b, econ, dt, twin);
      BuildingStepAt(c, b, econ, dt, twin, e);
      BuildingStepKeepsRecipes(c, b, econ, dt, twin);
      BuildingsStepIsFeed(c1, buildings[1..], econ, dt, twin, e);
      FeedReadsRecipes(c1.economies[e], c1, c, buildings[1..], econ, dt, twin, e);
    }
  }

  /** The legacy amount a building adds under key `k`. */
  function LegacyAmount(building: Building, k: string): real
  {
    match LegacyOutput(building)
    case Some(out) => if out.key == k then out.amount else 0.0
    case None => 0.0
  }

  /** The summed legacy output, under key `k`, of the listed buildings
      feeding `e` (a building listed twice counts twice). */
  function LegacySum(c: Colony, buildings: seq<Entity>, econ: seq<Entity>, twin: Twin, e: Entity, k: string): real
    decreases |buildings|
  {
    if |buildings| == 0 then 0.0
    else
      var b := buildings[0];
      (if Feeds(c, b, econ, twin, e) then LegacyAmount(c.buildings[b], k) else 0.0) + LegacySum(c, buildings[1..], econ, twin, e, k)
  }

  /** Without chains the fold keeps the stocks and adds to every
      production key exactly the legacy output of the buildings feeding
      the economy. */
  lemma {:induction false} LegacyFeed(eco: Economy, c: Colony, buildings: seq<Entity>, econ: seq<Entity>, dt: real, twin: Twin, e: Entity, k: string)
    requires forall i :: 0 <= i < |buildings| ==> buildings[i] !in c.chains
    ensures Feed(eco, c, buildings, econ, dt, twin, e).stock == eco.stock
    ensures Get(Feed(eco, c, buildings, econ, dt, twin, e).production, k) == Get(eco.production, k) + LegacySum(c, buildings, econ, twin, e, k)
    decreases |buildings|
  {
    if |buildings| > 0 {
      var b := buildings[0];
      var eco1 := if Feeds(c, b, econ, twin, e) then FeedOne(eco, c, b, dt) else eco;
      assert eco1.stock == eco.stock;
      assert Get(eco1.production, k) == Get(eco.production, k) + (if Feeds(c, b, econ, twin, e) then LegacyAmount(c.buildings[b], k) else 0.0);
      LegacyFeed(eco1, c, buildings[1..], econ, dt, twin, e, k);
    }
  }

  /** A building loop without chains: every economy keeps its stocks,
      and each production key grows by exactly the legacy output of the
      active buildings choosing that economy. */
  lemma LegacyBuildingsStep(c: Colony, buildings: seq<Entity>, econ: seq<Entity>, dt: real, twin: Twin, e: Entity, k: string)
    requires e in c.economies
    requires forall i :: 0 <= i < |buildings| ==> buildings[i] !in c.chains
    ensures BuildingsStep(c, buildings, econ, dt, twin).economies[e].stock == c.economies[e].stock
    ensures Get(BuildingsStep(c, buildings, econ, dt, twin).economies[e].production, k)
         == Get(c.economies[e].production, k) + LegacySum(c, buildings, econ, twin, e, k)
  {
    BuildingsStepIsFeed(c, buildings, econ, dt, twin, e);
    LegacyFeed(c.economies[e], c, buildings, econ, dt, twin, e, k);
  }

  /** An economy no listed building feeds comes out of the fold as it
      went in. */
  lemma {:induction false} UnfedFeed(eco: Economy, c: Colony, buildings: seq<Entity>, econ: seq<Entity>, dt: real, twin: Twin, e: Entity)
    requires forall i :: 0 <= i < |buildings| ==> !Feeds(c, buildings[i], econ, twin, e)
    ensures Feed(eco, c, buildings, econ, dt, twin, e) == eco
    decreases |buildings|
  {
    if |buildings| > 0 {
      assert !Feeds(c, buildings[0], econ, twin, e);
      UnfedFeed(eco, c, buildings[1..], econ, dt, twin, e);
    }
  }

  /** A whole tick, seen from one economy: a listed economy is reset,
      fed by the buildings choosing it, and then gains one
      production·dt; an unlisted economy is left alone, since no
      building can choose it. */
  lemma TickAt(c: Colony, dt: real, econ: seq<Entity>, buildings: seq<Entity>, twin: Twin, e: Entity)
    requires forall p, q :: 0 <= p < q < |econ| ==> econ[p] != econ[q]
    requires e in c.economies
    ensures e in econ ==>
      Tick(c, dt, econ, buildings, twin).economies[e] == ApplyOne(Feed(ResetOne(c.economies[e]), c, buildings, econ, dt, twin, e), dt)
    ensures e !in econ ==> Tick(c, dt, econ, buildings, twin).economies[e] == c.economies[e]
  {
    var reset := c.(economies := Reset(c.economies, econ));
    var built := BuildingsStep(reset, buildings, econ, dt, twin);
    BuildingsStepIsFeed(reset, buildings, econ, dt, twin, e);
    FeedReadsRecipes(reset.economies[e], reset, c, buildings, econ, dt, twin, e);
    if e in econ {
      ApplyOnce(built.economies, econ, dt, e);
    } else {
      forall i | 0 <= i < |buildings| ensures !Feeds(c, buildings[i], econ, twin, e) {
      }
      UnfedFeed(reset.economies[e], c, buildings, econ, dt, twin, e);
    }
  }

  /** A tick in which no building feeds a listed economy leaves its
      metal, energy and credits production at 0 and every stock as it
      was. */
  lemma IdleTick(c: Colony, dt: real, econ: seq<Entity>, buildings: seq<Entity>, twin: Twin, e: Entity, k: string)
    requires forall p, q :: 0 <= p < q < |econ| ==> econ[p] != econ[q]
    requires e in c.economies && e in econ
    requires forall i :: 0 <= i < |buildings| ==> !Feeds(c, buildings[i], econ, twin, e)
    ensures var eco := Tick(c, dt, econ, buildings, twin).economies[e];
      Get(eco.production, "metal") == 0.0 && Get(eco.production, "energy") == 0.0 && Get(eco.production, "credits") == 0.0
    ensures Get(Tick(c, dt, econ, buildings, twin).economies[e].stock, k) == Get(c.economies[e].stock, k)
  {
    TickAt(c, dt, econ, buildings, twin, e);
    var reset := ResetOne(c.economies[e]);
    UnfedFeed(reset, c, buildings, econ, dt, twin, e);
    GainAt(reset.stock, reset.production, dt, k);
  }

  /** The two files tick identically whenever entity 0 holds no economy. */
  lemma {:induction false} BuildingsTwinsAgree(c: Colony, buildings: seq<Entity>, econ: seq<Entity>, dt: real)
    requires 0 !in econ
    ensures BuildingsStep(c, buildings, econ, dt, Ts) == BuildingsStep(c, buildings, econ, dt, Js)
    decreases |buildings|
  {
    if |buildings| > 0 {
      ChooseTwinsAgree(buildings[0], econ);
      BuildingStepTwinsAgree(c, buildings[0], econ, dt);
      BuildingsTwinsAgree(BuildingStep(c, buildings[0], econ, dt, Ts), buildings[1..], econ, dt);
    }
  }

  lemma BuildingStepTwinsAgree(c: Colony, b: Entity, econ: seq<Entity>, dt: real)
    requires ChooseEconomy(b, econ, Ts) == ChooseEconomy(b, econ, Js)
    ensures BuildingStep(c, b, econ, dt, Ts) == BuildingStep(c, b, econ, dt, Js)
  {
  }

  lemma TickTwinsAgree(c: Colony, dt: real, econ: seq<Entity>, buildings: seq<Entity>)
    requires 0 !in econ
    ensures Tick(c, dt, econ, buildings, Ts) == Tick(c, dt, econ, buildings, Js)
  {
    BuildingsTwinsAgree(c.(economies := Reset(c.economies, econ)), buildings, econ, dt);
  }

  /** When the only economy is entity 0 and a building has none of its
      own, the JavaScript file drops the building's output while the
      TypeScript file credits it to entity 0. */
  lemma ZeroEconomyDroppedInJs(c: Colony, b: Entity, dt: real)
    requires b != 0 && b in c.buildings && c.buildings[b].active && 0 in c.economies
    ensures BuildingStep(c, b, [0], dt, Js) == c
    ensures ChooseEconomy(b, [0], Ts) == Some(0)
  {
  }

  /** A chain's output reaches the stock as amount·dt·dt: a running
      chain puts amount·dt into production (`Produce`), and the stock
      then gains production·dt. */
  lemma ChainOutputSquaresDt(eco: Economy, dt: real, k: string, amount: real)
    requires k in PoolSet && Get(eco.production, k) == amount * dt
    ensures Get(ApplyOne(eco, dt).stock, k) == Get(eco.stock, k) + amount * dt * dt
  {
    var s, p := eco.stock, eco.production;
    GainAt(s, p, dt, k);
    Combine(Get(Gain(s, p, dt), k), Get(s, k), Get(s, k), Get(p, k), amount, dt);
  }

  lemma Combine(f: real, s: real, s0: real, p: real, a: real, dt: real)
    requires f == s + p * dt && s == s0 && p == a * dt
    ensures f == s0 + a * dt * dt
  {
  }
}
