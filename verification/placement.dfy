/** The building placement validator of the planet view. A placement is
    checked against the rule of its building type (slope, biome, grid
    occupancy and, in the JavaScript version, occupied neighbour cells) and
    against the player's resources; every failed check adds one reason, a
    placement is valid when there is none, and a quality score between 0
    and 100 picks the colour of the preview. The JavaScript version also
    searches the cells around a target for the best valid placement.

    The planet generator and the building grid are oracles: terrain
    sampling, biome classification, the world/grid conversions, cell
    occupancy and the neighbour list are fields of `Planet`. */
module Placement {
  import opened Wrappers
  import Sorting

  type Positive = r: real | r > 0.0 witness 1.0

  datatype Vec3 = Vec3(x: real, y: real, z: real)
  datatype Cell = Cell(theta: real, phi: real)
  datatype Terrain = Terrain(slope: real, height: real)

  datatype Planet = Planet(
    terrainAt: Vec3 -> Option<Terrain>,   // getTerrainDataAt
    biomeOf: (real, real) -> string,      // getBiome(height, slope)
    cellOf: Vec3 -> Cell,                 // worldToGrid
    worldOf: (real, real) -> Vec3,        // gridToWorld(theta, phi)
    occupied: (real, real) -> bool,       // isCellOccupied(theta, phi)
    neighbours: (real, real) -> seq<Cell>, // getNeighborCells(theta, phi)
    cellSize: Positive,
    radius: Positive)

  /** A `BuildingRule`. Every rule of the table has an allowed-biome list,
      so its truthiness test is always passed. */
  datatype Rule = Rule(maxSlope: Positive, minSpace: nat, allowedBiomes: seq<string>,
                       requiresFlat: bool, preferredHeight: Option<real>, canOverlap: bool)

  const BaseRule := Rule(15.0, 2, ["plain", "hill"], true, None, false)

  /** The building types that have their own rule and their own cost. */
  const Known: seq<string> :=
    ["base", "habitation", "mine", "ferme", "usine", "centrale", "entrepot", "route"]

  /** `buildingRules[buildingType] || buildingRules.base`. */
  function RulesFor(buildingType: string): (r: Rule)
    ensures buildingType !in Known ==> r == BaseRule
    ensures |r.allowedBiomes| > 0 && r.minSpace <= 2
    ensures r.canOverlap <==> buildingType == "route"
  {
    match buildingType
    case "habitation" => Rule(20.0, 1, ["plain", "hill"], false, None, false)
    case "mine" => Rule(35.0, 1, ["mountain", "hill"], false, Some(8.0), false)
    case "ferme" => Rule(10.0, 1, ["plain"], true, None, false)
    case "usine" => Rule(15.0, 1, ["plain", "hill"], true, None, false)
    case "centrale" => Rule(20.0, 2, ["plain", "hill"], false, None, false)
    case "entrepot" => Rule(15.0, 1, ["plain", "hill"], true, None, false)
    case "route" => Rule(30.0, 0, ["plain", "hill", "mountain"], false, None, true)
    case _ => BaseRule
  }

  /** One entry of a cost object, in insertion order. */
  datatype Cost = Cost(resource: string, amount: nat)

  predicate DistinctResources(cost: seq<Cost>) {
    forall i, j :: 0 <= i < j < |cost| ==> cost[i].resource != cost[j].resource
  }

  /** `getBuildingCost`: unknown types cost 50 metal. */
  function CostOf(buildingType: string): (c: seq<Cost>)
    ensures 1 <= |c| <= 2 && c[0].resource == "metal" && DistinctResources(c)
    ensures buildingType !in Known ==> c == [Cost("metal", 50)]
  {
    match buildingType
    case "base" => [Cost("metal", 100), Cost("energy", 50)]
    case "habitation" => [Cost("metal", 30)]
    case "ferme" => [Cost("metal", 40)]
    case "usine" => [Cost("metal", 60), Cost("energy", 20)]
    case "entrepot" => [Cost("metal", 50)]
    case "centrale" => [Cost("metal", 80), Cost("energy", 30)]
    case "mine" => [Cost("metal", 120)]
    case "route" => [Cost("metal", 5)]
    case _ => [Cost("metal", 50)]
  }

  /** A type with no entry of its own is judged by the base rule and costs
      as much as a warehouse (`entrepot`), 50 metal. */
  lemma UnknownIsBase(buildingType: string)
    requires buildingType !in Known
    ensures RulesFor(buildingType) == RulesFor("base")
    ensures CostOf(buildingType) == CostOf("entrepot")
  {
  }

  /** `playerResources[resource] || 0`. */
  function Held(resources: map<string, real>, resource: string): real {
    if resource in resources then resources[resource] else 0.0
  }

  /** What the player holds covers every entry of the cost. */
  predicate Affordable(cost: seq<Cost>, resources: map<string, real>) {
    forall i :: 0 <= i < |cost| ==> Held(resources, cost[i].resource) >= cost[i].amount as real
  }

  /** Why a placement is refused; the messages of the source are replaced
      by the values they print. */
  datatype Reason =
    | NoTerrain
    | TooSteep(slope: real, maxSlope: real)
    | WrongBiome(biome: string, allowed: seq<string>)
    | Occupied
    | TooClose
    | Short(resource: string, held: real, needed: nat)

  datatype Warning = NearNeighbour | NotFlat | OffHeight

  datatype Data = Data(terrain: Terrain, biome: string, rules: Rule, cell: Cell,
                       cost: seq<Cost>, qualityScore: real)

  datatype Validation = Validation(valid: bool, reasons: seq<Reason>,
                                   warnings: seq<Warning>, data: Option<Data>)

  /** The resource loop: one reason per unaffordable entry, in cost order. */
  function Shortfalls(cost: seq<Cost>, resources: map<string, real>): (r: seq<Reason>)
    ensures |r| <= |cost|
    ensures |r| == 0 <==> Affordable(cost, resources)
    ensures forall k :: 0 <= k < |r| ==> r[k].Short?
  {
    if |cost| == 0 then []
    else
      var c := cost[0];
      var rest := Shortfalls(cost[1..], resources);
      assert Affordable(cost, resources) <==>
        Held(resources, c.resource) >= c.amount as real && Affordable(cost[1..], resources) by {
        if Affordable(cost[1..], resources) && Held(resources, c.resource) >= c.amount as real {
          forall i | 0 <= i < |cost|
            ensures Held(resources, cost[i].resource) >= cost[i].amount as real
          {
            if i > 0 { assert cost[i] == cost[1..][i - 1]; }
          }
        }
      }
      if Held(resources, c.resource) < c.amount as real then
        [Short(c.resource, Held(resources, c.resource), c.amount)] + rest
      else rest
  }

  /** A shortfall is reported exactly for a cost entry the player cannot
      cover, with what they hold and what it costs. */
  lemma {:induction false} ShortfallsExact(cost: seq<Cost>, resources: map<string, real>,
                                           name: string, held: real, needed: nat)
    ensures Short(name, held, needed) in Shortfalls(cost, resources) <==>
      Cost(name, needed) in cost && held == Held(resources, name) && held < needed as real
  {
    if |cost| > 0 {
      ShortfallsExact(cost[1..], resources, name, held, needed);
      assert cost == [cost[0]] + cost[1..];
    }
  }

  /** `Math.max(0, Math.min(100, score))`. */
  function Clamp(score: real): (s: real)
    ensures 0.0 <= s <= 100.0
    ensures 0.0 <= score <= 100.0 ==> s == score
    ensures score < 0.0 ==> s == 0.0
    ensures score > 100.0 ==> s == 100.0
  {
    if score > 100.0 then 100.0 else if score < 0.0 then 0.0 else score
  }

  /** `if (rules.preferredHeight)`: a preferred height of 0 counts as none. */
  predicate PrefersHeight(rules: Rule) {
    rules.preferredHeight.Some? && rules.preferredHeight.value != 0.0
  }

  function Abs(x: real): real {
    if x < 0.0 then -x else x
  }

  function Min(a: real, b: real): real {
    if a <= b then a else b
  }

  /** The bonus for the rule's first, ideal biome. */
  function BiomeBonus(rules: Rule, biome: string): real {
    if |rules.allowedBiomes| > 0 && rules.allowedBiomes[0] == biome then 10.0 else 0.0
  }

  /** The penalty for straying from the preferred height, at most 20. */
  function HeightPenalty(rules: Rule, height: real): (p: real)
    ensures 0.0 <= p <= 20.0
    ensures !PrefersHeight(rules) ==> p == 0.0
  {
    if PrefersHeight(rules) then Min(Abs(height - rules.preferredHeight.value) * 2.0, 20.0) else 0.0
  }

  /** `calculateQualityScore`, before clamping. */
  function RawScore(slope: real, height: real, biome: string, rules: Rule): real {
    100.0 - slope / rules.maxSlope * 30.0 + BiomeBonus(rules, biome) - HeightPenalty(rules, height)
  }

  /** `calculateQualityScore`. */
  function QualityScore(slope: real, height: real, biome: string, rules: Rule): (s: real)
    ensures 0.0 <= s <= 100.0
  {
    Clamp(RawScore(slope, height, biome, rules))
  }

  /** On ground no steeper than its rule allows, a building in its ideal
      biome at its preferred height scores at least 80, the green band. */
  lemma IdealPlacementIsGreen(slope: real, height: real, rules: Rule)
    requires 0.0 <= slope <= rules.maxSlope && |rules.allowedBiomes| > 0
    requires !PrefersHeight(rules) || height == rules.preferredHeight.value
    ensures QualityScore(slope, height, rules.allowedBiomes[0], rules) >= 80.0
  {
    var ratio := slope / rules.maxSlope;
    assert ratio <= 1.0 by { DivideAtMost(slope, rules.maxSlope); }
  }

  lemma DivideAtMost(a: real, b: Positive)
    requires a <= b
    ensures a / b <= 1.0
  {
    assert a / b * b == a;
  }

  lemma DivideMonotone(a: real, b: real, m: Positive)
    requires a <= b
    ensures a / m <= b / m
  {
    assert a / m * m == a && b / m * m == b;
  }

  /** Flatter ground never scores lower, all else being equal. */
  lemma FlatterScoresHigher(s1: real, s2: real, height: real, biome: string, rules: Rule)
    requires s1 <= s2
    ensures QualityScore(s1, height, biome, rules) >= QualityScore(s2, height, biome, rules)
  {
    DivideMonotone(s1, s2, rules.maxSlope);
  }

  const Red := 0xff0000
  const Green := 0x00ff00
  const Yellow := 0xffff00
  const Orange := 0xffa500

  /** `getValidationColor`. */
  function ValidationColor(isValid: bool, qualityScore: real): (c: int)
    ensures c == Red <==> !isValid
    ensures c in {Red, Green, Yellow, Orange}
  {
    if !isValid then Red
    else if qualityScore >= 80.0 then Green
    else if qualityScore >= 60.0 then Yellow
    else Orange
  }

  /** The colours of a valid placement, from worst to best. */
  function Band(c: int): nat {
    if c == Green then 2 else if c == Yellow then 1 else 0
  }

  /** A higher score never gives a worse colour, and the bands split at 60
      and 80. */
  lemma ColorBands(s1: real, s2: real)
    requires s1 <= s2
    ensures Band(ValidationColor(true, s1)) <= Band(ValidationColor(true, s2))
    ensures Band(ValidationColor(true, s1)) == (if s1 >= 80.0 then 2 else if s1 >= 60.0 then 1 else 0)
  {
  }

  /** The answer when the terrain cannot be sampled. */
  const NoTerrainResult := Validation(false, [NoTerrain], [], None)

  /** The placement checks the two versions share, for sampled terrain. */
  predicate Acceptable(t: Terrain, biome: string, rules: Rule, cellTaken: bool,
                       cost: seq<Cost>, resources: Option<map<string, real>>) {
    t.slope <= rules.maxSlope && biome in rules.allowedBiomes &&
    (rules.canOverlap || !cellTaken) &&
    (resources.None? || Affordable(cost, resources.value))
  }

  /** The first three checks' reasons, in the source's order. */
  function TerrainReasons(t: Terrain, biome: string, rules: Rule, cellTaken: bool): (r: seq<Reason>)
    ensures |r| == 0 <==> t.slope <= rules.maxSlope && biome in rules.allowedBiomes &&
                          (rules.canOverlap || !cellTaken)
  {
    (if t.slope > rules.maxSlope then [TooSteep(t.slope, rules.maxSlope)] else []) +
    (if biome !in rules.allowedBiomes then [WrongBiome(biome, rules.allowedBiomes)] else []) +
    (if !rules.canOverlap && cellTaken then [Occupied] else [])
  }

  function ResourceReasons(cost: seq<Cost>, resources: Option<map<string, real>>): (r: seq<Reason>)
    ensures |r| == 0 <==> resources.None? || Affordable(cost, resources.value)
  {
    if resources.Some? then Shortfalls(cost, resources.value) else []
  }

  /** `validate` of the TypeScript version. */
  function ValidateTs(p: Planet, pos: Vec3, buildingType: string,
                      resources: Option<map<string, real>>): (v: Validation)
    ensures v.valid <==> |v.reasons| == 0
    ensures p.terrainAt(pos).None? ==> v == NoTerrainResult
    ensures p.terrainAt(pos).Some? ==> v.data.Some? && 0.0 <= v.data.value.qualityScore <= 100.0
    ensures p.terrainAt(pos).Some? ==>
      var t := p.terrainAt(pos).value;
      var cell := p.cellOf(pos);
      (v.valid <==> Acceptable(t, p.biomeOf(t.height, t.slope), RulesFor(buildingType),
                               p.occupied(cell.theta, cell.phi), CostOf(buildingType), resources))
  {
    match p.terrainAt(pos)
    case None => NoTerrainResult
    case Some(t) =>
      var biome := p.biomeOf(t.height, t.slope);
      var rules := RulesFor(buildingType);
      var cell := p.cellOf(pos);
      var cost := CostOf(buildingType);
      var reasons := TerrainReasons(t, biome, rules, p.occupied(cell.theta, cell.phi)) +
                     ResourceReasons(cost, resources);
      Validation(|reasons| == 0, reasons, [],
                 Some(Data(t, biome, rules, cell, cost, QualityScore(t.slope, t.height, biome, rules))))
  }

  /** The neighbour scan: is any of the cells occupied? */
  function AnyOccupied(p: Planet, cells: seq<Cell>): (b: bool)
    ensures b <==> exists i :: 0 <= i < |cells| && p.occupied(cells[i].theta, cells[i].phi)
  {
    if |cells| == 0 then false
    else if p.occupied(cells[0].theta, cells[0].phi) then true
    else
      var rest := AnyOccupied(p, cells[1..]);
      assert forall i :: 1 <= i < |cells| ==> cells[i] == cells[1..][i - 1];
      rest
  }

  /** Whether a building with this rule has an occupied neighbour; the scan
      is skipped for a spacing of 0. */
  function Crowded(p: Planet, cell: Cell, rules: Rule): bool {
    rules.minSpace > 0 && AnyOccupied(p, p.neighbours(cell.theta, cell.phi))
  }

  /** The terrain warnings of the JavaScript version. */
  function TerrainWarnings(t: Terrain, rules: Rule): seq<Warning> {
    (if rules.requiresFlat && t.slope > 5.0 then [NotFlat] else []) +
    (if PrefersHeight(rules) && Abs(t.height - rules.preferredHeight.value) > 5.0 then [OffHeight] else [])
  }

  /** `validate` of the JavaScript version: the neighbour rule sits between
      the occupancy and the resource checks, and warnings are collected. */
  function ValidateJs(p: Planet, pos: Vec3, buildingType: string,
                      resources: Option<map<string, real>>): (v: Validation)
    ensures v.valid <==> |v.reasons| == 0
    ensures p.terrainAt(pos).None? ==> v == NoTerrainResult
    ensures p.terrainAt(pos).Some? ==> v.data.Some? && 0.0 <= v.data.value.qualityScore <= 100.0
    ensures p.terrainAt(pos).Some? ==>
      var t := p.terrainAt(pos).value;
      var cell := p.cellOf(pos);
      var rules := RulesFor(buildingType);
      (v.valid <==> Acceptable(t, p.biomeOf(t.height, t.slope), rules,
                               p.occupied(cell.theta, cell.phi), CostOf(buildingType), resources) &&
                    !(Crowded(p, cell, rules) && rules.minSpace > 1))
  {
    match p.terrainAt(pos)
    case None => NoTerrainResult
    case Some(t) =>
      var biome := p.biomeOf(t.height, t.slope);
      var rules := RulesFor(buildingType);
      var cell := p.cellOf(pos);
      var crowded := Crowded(p, cell, rules);
      var cost := CostOf(buildingType);
      var reasons := TerrainReasons(t, biome, rules, p.occupied(cell.theta, cell.phi)) +
                     (if crowded && rules.minSpace > 1 then [TooClose] else []) +
                     ResourceReasons(cost, resources);
      var warnings := (if crowded && rules.minSpace <= 1 then [NearNeighbour] else []) +
                      TerrainWarnings(t, rules);
      Validation(|reasons| == 0, reasons, warnings,
                 Some(Data(t, biome, rules, cell, cost, QualityScore(t.slope, t.height, biome, rules))))
  }

  /** The neighbour rule: an occupied neighbour refuses a type whose spacing
      is above 1, only warns for a spacing of 1, and is not looked at for a
      spacing of 0. */
  lemma NeighbourRule(p: Planet, pos: Vec3, buildingType: string,
                      resources: Option<map<string, real>>)
    requires p.terrainAt(pos).Some?
    ensures var v := ValidateJs(p, pos, buildingType, resources);
      var rules := RulesFor(buildingType);
      var cell := p.cellOf(pos);
      var near := AnyOccupied(p, p.neighbours(cell.theta, cell.phi));
      (TooClose in v.reasons <==> near && rules.minSpace > 1) &&
      (NearNeighbour in v.warnings <==> near && rules.minSpace == 1)
  {
    var v := ValidateJs(p, pos, buildingType, resources);
    var t := p.terrainAt(pos).value;
    var cell := p.cellOf(pos);
    var rules := RulesFor(buildingType);
    var cost := CostOf(buildingType);
    var front := TerrainReasons(t, p.biomeOf(t.height, t.slope), rules, p.occupied(cell.theta, cell.phi));
    assert TooClose !in front;
    assert forall k :: 0 <= k < |ResourceReasons(cost, resources)| ==>
      ResourceReasons(cost, resources)[k] != TooClose;
    assert NotFlat != NearNeighbour && OffHeight != NearNeighbour;
  }

  /** The JavaScript version is the stricter: what it accepts the
      TypeScript version accepts, and without a crowded spacing above 1
      both give the same verdict for the same reasons. */
  lemma JsStricter(p: Planet, pos: Vec3, buildingType: string,
                   resources: Option<map<string, real>>)
    ensures ValidateJs(p, pos, buildingType, resources).valid ==>
            ValidateTs(p, pos, buildingType, resources).valid
    ensures (p.terrainAt(pos).Some? &&
             !(Crowded(p, p.cellOf(pos), RulesFor(buildingType)) && RulesFor(buildingType).minSpace > 1)) ==>
      ValidateJs(p, pos, buildingType, resources).reasons == ValidateTs(p, pos, buildingType, resources).reasons
  {
  }

  /** Math.PI as a decimal. */
  const Pi: real := 3.141592653589793

  /** `Math.ceil`. */
  function Ceil(x: real): (c: int)
    ensures c as real - 1.0 < x <= c as real
  {
    -((-x).Floor)
  }

  /** `Math.ceil(searchRadius / cellSize)`. */
  function SearchSteps(radius: real, cellSize: Positive): int {
    Ceil(radius / cellSize)
  }

  /** A valid placement found by the search. */
  datatype Candidate = Candidate(position: Vec3, cell: Cell, score: real, validation: Validation)

  /** The cell `dTheta` and `dPhi` steps away from `g`; one step is a cell's
      length along the surface. */
  function Probe(p: Planet, g: Cell, dTheta: int, dPhi: int): Cell {
    Cell(g.theta + dTheta as real * p.cellSize / p.radius,
         g.phi + dPhi as real * p.cellSize / p.radius)
  }

  /** The latitude bounds the search respects. */
  predicate InBounds(c: Cell) {
    0.0 <= c.phi <= Pi
  }

  /** The loop body: the candidate at one offset, if its cell is within
      bounds and a placement there is valid. */
  function Try(p: Planet, g: Cell, dTheta: int, dPhi: int, buildingType: string,
               resources: Option<map<string, real>>): (r: Option<Candidate>)
    ensures r.Some? ==> r.value.validation.valid && InBounds(r.value.cell) &&
                        r.value.cell == Probe(p, g, dTheta, dPhi) &&
                        r.value.validation.data.Some? &&
                        r.value.score == r.value.validation.data.value.qualityScore
  {
    var c := Probe(p, g, dTheta, dPhi);
    if !InBounds(c) then None
    else
      var pos := p.worldOf(c.theta, c.phi);
      var v := ValidateJs(p, pos, buildingType, resources);
      if v.valid then Some(Candidate(pos, c, v.data.value.qualityScore, v)) else None
  }

  /** The row of the inner loop: `dPhi` from `-n` to `n`. */
  function Row(dTheta: int, n: nat): seq<(int, int)> {
    seq(2 * n + 1, j requires 0 <= j < 2 * n + 1 => (dTheta, j - n))
  }

  /** The rows of the outer loop from `dTheta == from` up to `n`. */
  function Rows(from: int, n: nat): seq<(int, int)>
    decreases n - from
  {
    if from > n then [] else Row(from, n) + Rows(from + 1, n)
  }

  /** The offsets of the two nested loops, `dTheta` outer and `dPhi` inner,
      each from `-n` to `n`. */
  function Offsets(n: int): seq<(int, int)> {
    if n < 0 then [] else Rows(-n, n)
  }

  lemma RowMembers(dTheta: int, n: nat, o: (int, int))
    ensures o in Row(dTheta, n) <==> o.0 == dTheta && -(n as int) <= o.1 <= n
  {
    if o.0 == dTheta && -(n as int) <= o.1 <= n {
      assert Row(dTheta, n)[o.1 + n] == o;
    }
  }

  lemma {:induction false} RowsMembers(from: int, n: nat, o: (int, int))
    ensures o in Rows(from, n) <==> from <= o.0 <= n && -(n as int) <= o.1 <= n
    decreases n - from
  {
    if from <= n {
      RowMembers(from, n, o);
      RowsMembers(from + 1, n, o);
    }
  }

  /** The loops visit exactly the offset pairs within `n`. */
  lemma OffsetsMembers(n: int, dTheta: int, dPhi: int)
    ensures (dTheta, dPhi) in Offsets(n) <==> -n <= dTheta <= n && -n <= dPhi <= n
  {
    if n >= 0 {
      RowsMembers(-n, n, (dTheta, dPhi));
    }
  }

  /** The candidates of the loops, in visiting order. */
  function Candidates(p: Planet, g: Cell, offsets: seq<(int, int)>, buildingType: string,
                      resources: Option<map<string, real>>): seq<Candidate>
  {
    if |offsets| == 0 then []
    else
      var o := offsets[|offsets| - 1];
      var front := Candidates(p, g, offsets[..|offsets| - 1], buildingType, resources);
      match Try(p, g, o.0, o.1, buildingType, resources)
      case Some(c) => front + [c]
      case None => front
  }

  /** The candidates are exactly the successful tries. */
  lemma {:induction false} CandidateMembers(p: Planet, g: Cell, offsets: seq<(int, int)>,
                                            buildingType: string,
                                            resources: Option<map<string, real>>, c: Candidate)
    ensures c in Candidates(p, g, offsets, buildingType, resources) <==>
      exists i :: 0 <= i < |offsets| && Try(p, g, offsets[i].0, offsets[i].1, buildingType, resources) == Some(c)
  {
    if |offsets| > 0 {
      var init := offsets[..|offsets| - 1];
      CandidateMembers(p, g, init, buildingType, resources, c);
      if exists i :: 0 <= i < |init| && Try(p, g, init[i].0, init[i].1, buildingType, resources) == Some(c) {
        var i :| 0 <= i < |init| && Try(p, g, init[i].0, init[i].1, buildingType, resources) == Some(c);
        assert offsets[i] == init[i];
      }
      if exists i :: 0 <= i < |offsets| && Try(p, g, offsets[i].0, offsets[i].1, buildingType, resources) == Some(c) {
        var i :| 0 <= i < |offsets| && Try(p, g, offsets[i].0, offsets[i].1, buildingType, resources) == Some(c);
        if i < |offsets| - 1 {
          assert init[i] == offsets[i];
        }
      }
    }
  }

  function NegScore(c: Candidate): real {
    -c.score
  }

  /** No offset within `n` gives a candidate. */
  predicate NothingWithin(p: Planet, g: Cell, n: int, buildingType: string,
                          resources: Option<map<string, real>>) {
    forall dt, dp :: -n <= dt <= n && -n <= dp <= n ==>
      Try(p, g, dt, dp, buildingType, resources).None?
  }

  /** `c` is the candidate of some offset within `n`. */
  predicate FoundWithin(p: Planet, g: Cell, n: int, buildingType: string,
                        resources: Option<map<string, real>>, c: Candidate) {
    exists dt, dp :: -n <= dt <= n && -n <= dp <= n &&
      Try(p, g, dt, dp, buildingType, resources) == Some(c)
  }

  /** No candidate within `n` scores above `score`. */
  predicate NoneScoresAbove(p: Planet, g: Cell, n: int, buildingType: string,
                            resources: Option<map<string, real>>, score: real) {
    forall dt, dp :: -n <= dt <= n && -n <= dp <= n ==>
      (Try(p, g, dt, dp, buildingType, resources).Some? ==>
       Try(p, g, dt, dp, buildingType, resources).value.score <= score)
  }

  /** `findBestPlacementNearby`: the candidates sorted by descending score,
      the first of them, or `null` when there is none. The answer is a
      valid placement at an in-bounds cell within the search radius that no
      other candidate outscores, and `null` only when no cell within the
      radius admits a valid placement. */
  function FindBestPlacementNearby(p: Planet, target: Vec3, buildingType: string,
                                   resources: Option<map<string, real>>,
                                   searchRadius: real): (r: Option<Candidate>)
    ensures r.None? <==> NothingWithin(p, p.cellOf(target), SearchSteps(searchRadius, p.cellSize),
                                       buildingType, resources)
    ensures r.Some? ==> r.value.validation.valid && InBounds(r.value.cell)
    ensures r.Some? ==> FoundWithin(p, p.cellOf(target), SearchSteps(searchRadius, p.cellSize),
                                    buildingType, resources, r.value)
    ensures r.Some? ==> NoneScoresAbove(p, p.cellOf(target), SearchSteps(searchRadius, p.cellSize),
                                        buildingType, resources, r.value.score)
  {
    var g := p.cellOf(target);
    var n := SearchSteps(searchRadius, p.cellSize);
    var candidates := Candidates(p, g, Offsets(n), buildingType, resources);
    if |candidates| > 0 then
      var sorted := Sorting.SortBy(candidates, NegScore);
      assert sorted[0] in multiset(candidates);
      HeadFound(p, g, n, buildingType, resources, sorted[0]);
      HeadScoresHighest(p, g, n, buildingType, resources, sorted);
      Some(sorted[0])
    else
      NoneFound(p, g, n, buildingType, resources);
      None
  }

  /** With no candidate, no offset within `n` succeeds. */
  lemma NoneFound(p: Planet, g: Cell, n: int, buildingType: string,
                  resources: Option<map<string, real>>)
    requires |Candidates(p, g, Offsets(n), buildingType, resources)| == 0
    ensures NothingWithin(p, g, n, buildingType, resources)
  {
    forall dt, dp | -n <= dt <= n && -n <= dp <= n
      ensures Try(p, g, dt, dp, buildingType, resources).None?
    {
      var t := Try(p, g, dt, dp, buildingType, resources);
      if t.Some? {
        OffsetsMembers(n, dt, dp);
        var i :| 0 <= i < |Offsets(n)| && Offsets(n)[i] == (dt, dp);
        CandidateMembers(p, g, Offsets(n), buildingType, resources, t.value);
      }
    }
  }

  /** Every candidate came from an offset within `n`. */
  lemma HeadFound(p: Planet, g: Cell, n: int, buildingType: string,
                  resources: Option<map<string, real>>, c: Candidate)
    requires c in Candidates(p, g, Offsets(n), buildingType, resources)
    ensures FoundWithin(p, g, n, buildingType, resources, c)
  {
    CandidateMembers(p, g, Offsets(n), buildingType, resources, c);
    var i :| 0 <= i < |Offsets(n)| &&
      Try(p, g, Offsets(n)[i].0, Offsets(n)[i].1, buildingType, resources) == Some(c);
    var o := Offsets(n)[i];
    OffsetsMembers(n, o.0, o.1);
  }

  /** The head of the candidates in descending score order is not outscored
      by the candidate of any offset within `n`. */
  lemma HeadScoresHighest(p: Planet, g: Cell, n: int, buildingType: string,
                          resources: Option<map<string, real>>, sorted: seq<Candidate>)
    requires |sorted| > 0 && Sorting.Sorted(sorted, NegScore)
    requires multiset(sorted) == multiset(Candidates(p, g, Offsets(n), buildingType, resources))
    ensures NoneScoresAbove(p, g, n, buildingType, resources, sorted[0].score)
  {
    forall dt, dp | -n <= dt <= n && -n <= dp <= n &&
                    Try(p, g, dt, dp, buildingType, resources).Some?
      ensures Try(p, g, dt, dp, buildingType, resources).value.score <= sorted[0].score
    {
      var c := Try(p, g, dt, dp, buildingType, resources).value;
      OffsetsMembers(n, dt, dp);
      var j :| 0 <= j < |Offsets(n)| && Offsets(n)[j] == (dt, dp);
      CandidateMembers(p, g, Offsets(n), buildingType, resources, c);
      assert c in multiset(sorted);
      var k :| 0 <= k < |sorted| && sorted[k] == c;
      if k > 0 {
        assert NegScore(sorted[0]) <= NegScore(sorted[k]);
      }
    }
  }
}
