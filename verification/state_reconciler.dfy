/** The client-side state reconciler: compares the locally predicted
    entities with the server's, lists the deviations, derives one
    correction per deviation and optional smoothing interpolations, and
    keeps statistics and a bounded history. The TypeScript class compares
    presence and positions; its JavaScript twin also compares resources,
    buildings and fleets. `Math.sqrt` is the parameter `sqrt`, `Date.now()`
    the parameter `now`, and the ECS world a lookup `world`. */
module StateReconciler {
  import opened Wrappers
  import opened JsCollections

  datatype Twin = Ts | Js

  type Id = int

  /** A position; a missing `z` is `None`. */
  datatype Pos = Pos(x: real, y: real, z: Option<real>)

  /** An entity of a state's `entities` list. `buildings` and `fleet` stand
      for their `JSON.stringify` text; `None` is a missing property, which
      reads as `undefined`. */
  datatype Entity = Entity(
    id: Id,
    position: Option<Pos>,
    resources: Option<Map<string, real>>,
    buildings: Option<string>,
    fleet: Option<string>)

  /** A state; `entities == None` is a missing list. */
  datatype State = State(entities: Option<seq<Entity>>)

  datatype Severity = High | Medium

  datatype Deviation =
    | MissingEntity(entity: Id)
    | PositionDev(entity: Id, severity: Severity, local: Pos, server: Pos, magnitude: real)
    | ResourcesDev(entity: Id, localRes: Map<string, real>, serverRes: Map<string, real>, total: real)
    | BuildingsDev(entity: Id, localText: Option<string>, serverText: Option<string>)
    | FleetDev(entity: Id, localText: Option<string>, serverText: Option<string>)
    | ExtraEntity(entity: Id, data: Entity)

  /** `new Map(entities.map(e => [e.id, e]))`. */
  function Index(es: seq<Entity>): (r: Map<Id, Entity>)
    ensures r.Valid()
  {
    FromEntries(seq(|es|, i requires 0 <= i < |es| => (es[i].id, es[i])))
  }

  function EntitiesOf(s: State): seq<Entity>
  {
    s.entities.GetOr([])
  }

  /** `p.z || 0`. */
  function Z(p: Pos): real
  {
    p.z.GetOr(0.0)
  }

  /** `hasPositionDeviation` once both positions are present: some
      coordinate differs under `!==`. */
  predicate Moved(l: Pos, s: Pos)
  {
    l.x != s.x || l.y != s.y || l.z != s.z
  }

  /** The squared distance of `calculatePositionDeviation`. */
  function SqDist(l: Pos, s: Pos): (r: real)
    ensures r >= 0.0
  {
    var dx := s.x - l.x;
    var dy := s.y - l.y;
    var dz := Z(s) - Z(l);
    dx * dx + dy * dy + dz * dz
  }

  /** 'high' beyond one unit, 'medium' otherwise. */
  function SeverityFor(magnitude: real): (r: Severity)
    ensures r == High <==> magnitude > 1.0
  {
    if magnitude > 1.0 then High else Medium
  }

  function Abs(a: real): real { if a < 0.0 then -a else a }

  /** `resources[key] || 0`. */
  function Amount(res: Map<string, real>, key: string): real
  {
    res.Get(key).GetOr(0.0)
  }

  /** The resource tolerance. */
  const ResourceTolerance := 0.01

  /** `hasResourceDeviation`: both sides carry resources and some key of
      the local resources differs by more than the tolerance. */
  predicate ResourcesDiffer(l: Map<string, real>, s: Map<string, real>)
  {
    exists i :: 0 <= i < |l.order| && Abs(Amount(l, l.order[i]) - Amount(s, l.order[i])) > ResourceTolerance
  }

  /** The total of `calculateResourceDeviation`: the differences beyond the
      tolerance summed over the local keys, then the server-only keys. */
  function DiffTotal(keys: seq<string>, l: Map<string, real>, s: Map<string, real>): (r: real)
    ensures r >= 0.0
  {
    if |keys| == 0 then 0.0
    else
      var d := Abs(Amount(s, keys[0]) - Amount(l, keys[0]));
      (if d > ResourceTolerance then d else 0.0) + DiffTotal(keys[1..], l, s)
  }

  /** The keys of `l` followed by the keys of `s` not in `l`: the order of
      `new Set([...Object.keys(l), ...Object.keys(s)])`. */
  function UnionKeys(l: Map<string, real>, s: Map<string, real>): seq<string>
  {
    l.order + OnlyIn(s.order, l)
  }

  function OnlyIn(keys: seq<string>, l: Map<string, real>): seq<string>
  {
    if |keys| == 0 then [] else (if keys[0] in l.order then [] else [keys[0]]) + OnlyIn(keys[1..], l)
  }

  /** `hasBuildingDeviation` and `hasFleetDeviation`: present on one side
      only, or present on both with different JSON text. */
  predicate TextDiffers(l: Option<string>, s: Option<string>)
  {
    (l.Some? && s.None?) || (l.None? && s.Some?) || (l.Some? && s.Some? && l.value != s.value)
  }

  /** Two optional texts deviate exactly when they are not equal. */
  lemma TextDiffersIsInequality(l: Option<string>, s: Option<string>)
    ensures TextDiffers(l, s) <==> l != s
  {
  }

  /** The deviations found for one entity present on both sides. */
  function Compared(id: Id, l: Entity, s: Entity, twin: Twin, sqrt: real -> real, threshold: real): (r: seq<Deviation>)
    ensures forall d :: d in r ==> d.entity == id && !d.MissingEntity? && !d.ExtraEntity?
    ensures twin == Ts ==> forall d :: d in r ==> d.PositionDev?
  {
    var position :=
      if l.position.Some? && s.position.Some? && Moved(l.position.value, s.position.value) then
        var m := sqrt(SqDist(l.position.value, s.position.value));
        if m > threshold then [PositionDev(id, SeverityFor(m), l.position.value, s.position.value, m)] else []
      else [];
    if twin == Ts then position
    else
      var resources :=
        if l.resources.Some? && s.resources.Some? && ResourcesDiffer(l.resources.value, s.resources.value) then
          var lr := l.resources.value;
          var sr := s.resources.value;
          [ResourcesDev(id, lr, sr, DiffTotal(UnionKeys(lr, sr), lr, sr))]
        else [];
      var buildings := if TextDiffers(l.buildings, s.buildings) then [BuildingsDev(id, l.buildings, s.buildings)] else [];
      var fleet := if TextDiffers(l.fleet, s.fleet) then [FleetDev(id, l.fleet, s.fleet)] else [];
      position + resources + buildings + fleet
  }

  /** What the first loop of `compareStates` reports for the server key
      `id`: a missing entity, or the comparison of the two entities. */
  function AtServerKey(id: Id, lm: Map<Id, Entity>, sm: Map<Id, Entity>, twin: Twin, sqrt: real -> real, threshold: real): (r: seq<Deviation>)
    ensures forall d :: d in r ==> d.entity == id && id in sm.entries && !d.ExtraEntity?
    ensures twin == Ts ==> forall d :: d in r ==> d.MissingEntity? || d.PositionDev?
  {
    if id !in sm.entries then []
    else if id !in lm.entries then [MissingEntity(id)]
    else Compared(id, lm.entries[id], sm.entries[id], twin, sqrt, threshold)
  }

  /** What the second loop reports for the local key `id`. */
  function AtLocalKey(id: Id, lm: Map<Id, Entity>, sm: Map<Id, Entity>): (r: seq<Deviation>)
    ensures forall d :: d in r ==> d.ExtraEntity? && d.entity == id && id in lm.entries && id !in sm.entries
  {
    if id in lm.entries && id !in sm.entries then [ExtraEntity(id, lm.entries[id])] else []
  }

  /** Every deviation reported for a key names that key. */
  lemma AtKeyNamesKey(id: Id, lm: Map<Id, Entity>, sm: Map<Id, Entity>, twin: Twin, sqrt: real -> real, threshold: real)
    ensures forall d :: d in AtServerKey(id, lm, sm, twin, sqrt, threshold) ==> d.entity == id
    ensures forall d :: d in AtLocalKey(id, lm, sm) ==> d.entity == id
  {
  }

  /** The first loop of `compareStates`, over the server map's keys. */
  function ServerPass(keys: seq<Id>, lm: Map<Id, Entity>, sm: Map<Id, Entity>, twin: Twin, sqrt: real -> real, threshold: real): (r: seq<Deviation>)
    ensures forall d :: d in r ==> d.entity in sm.entries && !d.ExtraEntity?
    ensures twin == Ts ==> forall d :: d in r ==> d.MissingEntity? || d.PositionDev?
  {
    if |keys| == 0 then []
    else AtServerKey(keys[0], lm, sm, twin, sqrt, threshold) + ServerPass(keys[1..], lm, sm, twin, sqrt, threshold)
  }

  /** The second loop of `compareStates`, over the local map's keys. */
  function LocalPass(keys: seq<Id>, lm: Map<Id, Entity>, sm: Map<Id, Entity>): (r: seq<Deviation>)
    ensures forall d :: d in r ==> d.ExtraEntity? && d.entity in lm.entries && d.entity !in sm.entries
  {
    if |keys| == 0 then []
    else AtLocalKey(keys[0], lm, sm) + LocalPass(keys[1..], lm, sm)
  }

  lemma {:induction false} ServerPassMembers(keys: seq<Id>, lm: Map<Id, Entity>, sm: Map<Id, Entity>, twin: Twin, sqrt: real -> real, threshold: real, d: Deviation)
    ensures d in ServerPass(keys, lm, sm, twin, sqrt, threshold) <==> d.entity in keys && d in AtServerKey(d.entity, lm, sm, twin, sqrt, threshold)
  {
    if |keys| > 0 {
      ServerPassMembers(keys[1..], lm, sm, twin, sqrt, threshold, d);
      AtKeyNamesKey(keys[0], lm, sm, twin, sqrt, threshold);
      assert keys == [keys[0]] + keys[1..];
    }
  }

  lemma {:induction false} LocalPassMembers(keys: seq<Id>, lm: Map<Id, Entity>, sm: Map<Id, Entity>, d: Deviation)
    ensures d in LocalPass(keys, lm, sm) <==> d.entity in keys && d in AtLocalKey(d.entity, lm, sm)
  {
    if |keys| > 0 {
      LocalPassMembers(keys[1..], lm, sm, d);
      assert keys == [keys[0]] + keys[1..];
    }
  }

  /** `compareStates(localState, serverState)`: every deviation is either
      about an entity on the server's list, or reports an entity only the
      local list has as extra; the TypeScript twin compares positions only. */
  function CompareStates(local: State, server: State, twin: Twin, sqrt: real -> real, threshold: real): (r: seq<Deviation>)
    ensures forall d :: d in r ==>
      if d.ExtraEntity? then d.entity in Index(EntitiesOf(local)).entries && d.entity !in Index(EntitiesOf(server)).entries
      else d.entity in Index(EntitiesOf(server)).entries
    ensures twin == Ts ==> forall d :: d in r ==> d.MissingEntity? || d.PositionDev? || d.ExtraEntity?
  {
    var lm := Index(EntitiesOf(local));
    var sm := Index(EntitiesOf(server));
    ServerPass(sm.order, lm, sm, twin, sqrt, threshold) + LocalPass(lm.order, lm, sm)
  }

  /** The position part of comparing two entities. */
  lemma ComparedPosition(id: Id, l: Entity, s: Entity, twin: Twin, sqrt: real -> real, threshold: real, d: Deviation)
    requires d.PositionDev? && d.entity == id
    ensures d in Compared(id, l, s, twin, sqrt, threshold) <==>
      && l.position == Some(d.local) && s.position == Some(d.server)
      && Moved(d.local, d.server)
      && d.magnitude == sqrt(SqDist(d.local, d.server))
      && d.magnitude > threshold
      && (d.severity == High <==> d.magnitude > 1.0)
  {
  }

  /** The resources part of comparing two entities (JavaScript twin). */
  lemma ComparedResources(id: Id, l: Entity, s: Entity, sqrt: real -> real, threshold: real, d: Deviation)
    requires d.ResourcesDev? && d.entity == id
    ensures d in Compared(id, l, s, Js, sqrt, threshold) <==>
      && l.resources == Some(d.localRes) && s.resources == Some(d.serverRes)
      && ResourcesDiffer(d.localRes, d.serverRes)
      && d.total == DiffTotal(UnionKeys(d.localRes, d.serverRes), d.localRes, d.serverRes)
  {
  }

  /** The buildings and fleet parts of comparing two entities (JavaScript
      twin). */
  lemma ComparedTexts(id: Id, l: Entity, s: Entity, sqrt: real -> real, threshold: real, d: Deviation)
    requires (d.BuildingsDev? || d.FleetDev?) && d.entity == id
    ensures d in Compared(id, l, s, Js, sqrt, threshold) <==>
      && d.localText != d.serverText
      && (d.BuildingsDev? ==> l.buildings == d.localText && s.buildings == d.serverText)
      && (d.FleetDev? ==> l.fleet == d.localText && s.fleet == d.serverText)
  {
  }

  /** A deviation is reported exactly when it is what the server loop
      reports for its entity's server key or what the local loop reports
      for its local key. */
  lemma CompareMembers(local: State, server: State, twin: Twin, sqrt: real -> real, threshold: real, d: Deviation)
    ensures var lm := Index(EntitiesOf(local));
      var sm := Index(EntitiesOf(server));
      d in CompareStates(local, server, twin, sqrt, threshold) <==>
        d in AtServerKey(d.entity, lm, sm, twin, sqrt, threshold) || d in AtLocalKey(d.entity, lm, sm)
  {
    var lm := Index(EntitiesOf(local));
    var sm := Index(EntitiesOf(server));
    ServerPassMembers(sm.order, lm, sm, twin, sqrt, threshold, d);
    LocalPassMembers(lm.order, lm, sm, d);
  }

  /** Comparing two present entities never reports a missing or extra
      entity. */
  lemma ComparedKinds(id: Id, l: Entity, s: Entity, twin: Twin, sqrt: real -> real, threshold: real, d: Deviation)
    requires d.MissingEntity? || d.ExtraEntity?
    ensures d !in Compared(id, l, s, twin, sqrt, threshold)
  {
  }

  /** A server entity absent locally is reported missing, and only those. */
  lemma MissingReported(local: State, server: State, twin: Twin, sqrt: real -> real, threshold: real, id: Id)
    ensures var lm := Index(EntitiesOf(local));
      var sm := Index(EntitiesOf(server));
      MissingEntity(id) in CompareStates(local, server, twin, sqrt, threshold) <==> id in sm.entries && id !in lm.entries
  {
    var lm := Index(EntitiesOf(local));
    var sm := Index(EntitiesOf(server));
    CompareMembers(local, server, twin, sqrt, threshold, MissingEntity(id));
    if id in sm.entries && id in lm.entries {
      ComparedKinds(id, lm.entries[id], sm.entries[id], twin, sqrt, threshold, MissingEntity(id));
    }
  }

  /** A local entity absent on the server is reported extra, with its local
      data, and only those. */
  lemma ExtraReported(local: State, server: State, twin: Twin, sqrt: real -> real, threshold: real, id: Id, e: Entity)
    ensures var lm := Index(EntitiesOf(local));
      var sm := Index(EntitiesOf(server));
      ExtraEntity(id, e) in CompareStates(local, server, twin, sqrt, threshold) <==>
        id in lm.entries && id !in sm.entries && e == lm.entries[id]
  {
    var lm := Index(EntitiesOf(local));
    var sm := Index(EntitiesOf(server));
    CompareMembers(local, server, twin, sqrt, threshold, ExtraEntity(id, e));
    if id in sm.entries && id in lm.entries {
      ComparedKinds(id, lm.entries[id], sm.entries[id], twin, sqrt, threshold, ExtraEntity(id, e));
    }
  }

  /** A position deviation is reported for an entity on both sides whose
      positions are both present and differ, when the distance exceeds the
      threshold; it carries both positions, the distance, and severity
      'high' exactly beyond one unit. */
  lemma PositionReported(local: State, server: State, twin: Twin, sqrt: real -> real, threshold: real, d: Deviation)
    requires d.PositionDev?
    ensures var lm := Index(EntitiesOf(local));
      var sm := Index(EntitiesOf(server));
      d in CompareStates(local, server, twin, sqrt, threshold) <==>
        && d.entity in sm.entries && d.entity in lm.entries
        && lm.entries[d.entity].position == Some(d.local)
        && sm.entries[d.entity].position == Some(d.server)
        && Moved(d.local, d.server)
        && d.magnitude == sqrt(SqDist(d.local, d.server))
        && d.magnitude > threshold
        && (d.severity == High <==> d.magnitude > 1.0)
  {
    CompareMembers(local, server, twin, sqrt, threshold, d);
    var lm := Index(EntitiesOf(local));
    var sm := Index(EntitiesOf(server));
    if d.entity in sm.entries && d.entity in lm.entries {
      ComparedPosition(d.entity, lm.entries[d.entity], sm.entries[d.entity], twin, sqrt, threshold, d);
    }
  }

  /** The JavaScript twin reports resources when both sides carry them and
      a local key differs beyond the tolerance; keys only the server has
      do not count. */
  lemma ResourcesReported(local: State, server: State, sqrt: real -> real, threshold: real, d: Deviation)
    requires d.ResourcesDev?
    ensures var lm := Index(EntitiesOf(local));
      var sm := Index(EntitiesOf(server));
      d in CompareStates(local, server, Js, sqrt, threshold) <==>
        && d.entity in sm.entries && d.entity in lm.entries
        && lm.entries[d.entity].resources == Some(d.localRes)
        && sm.entries[d.entity].resources == Some(d.serverRes)
        && ResourcesDiffer(d.localRes, d.serverRes)
        && d.total == DiffTotal(UnionKeys(d.localRes, d.serverRes), d.localRes, d.serverRes)
  {
    CompareMembers(local, server, Js, sqrt, threshold, d);
    var lm := Index(EntitiesOf(local));
    var sm := Index(EntitiesOf(server));
    if d.entity in sm.entries && d.entity in lm.entries {
      ComparedResources(d.entity, lm.entries[d.entity], sm.entries[d.entity], sqrt, threshold, d);
    }
  }

  /** The JavaScript twin reports buildings, and fleets, exactly when the two
      sides' texts are not equal. */
  lemma TextsReported(local: State, server: State, sqrt: real -> real, threshold: real, d: Deviation)
    requires d.BuildingsDev? || d.FleetDev?
    ensures var lm := Index(EntitiesOf(local));
      var sm := Index(EntitiesOf(server));
      d in CompareStates(local, server, Js, sqrt, threshold) <==>
        && d.entity in sm.entries && d.entity in lm.entries
        && d.localText != d.serverText
        && (d.BuildingsDev? ==> lm.entries[d.entity].buildings == d.localText && sm.entries[d.entity].buildings == d.serverText)
        && (d.FleetDev? ==> lm.entries[d.entity].fleet == d.localText && sm.entries[d.entity].fleet == d.serverText)
  {
    CompareMembers(local, server, Js, sqrt, threshold, d);
    var lm := Index(EntitiesOf(local));
    var sm := Index(EntitiesOf(server));
    if d.entity in sm.entries && d.entity in lm.entries {
      ComparedTexts(d.entity, lm.entries[d.entity], sm.entries[d.entity], sqrt, threshold, d);
    }
  }

  /** The TypeScript twin compares presence and positions only. */
  lemma TsComparesPositionsOnly(local: State, server: State, sqrt: real -> real, threshold: real, d: Deviation)
    requires d in CompareStates(local, server, Ts, sqrt, threshold)
    ensures d.MissingEntity? || d.PositionDev? || d.ExtraEntity?
  {
    CompareMembers(local, server, Ts, sqrt, threshold, d);
  }

  /** What a correction sets right. */
  datatype Fix =
    | PositionFix(entity: Id, position: Pos, magnitude: real)
    | ResourcesFix(entity: Id, resources: Map<string, real>, total: real)
    | BuildingsFix(entity: Id, text: Option<string>)
    | FleetFix(entity: Id, text: Option<string>)
    | CreateEntity(entity: Id, data: Entity)
    | RemoveEntity(entity: Id)

  datatype Correction = Correction(fix: Fix, severity: Severity)

  /** `serverState.entities.find(e => e.id === id)`: the first match. */
  function Find(es: seq<Entity>, id: Id): (r: Option<Entity>)
    ensures r.Some? ==> r.value in es && r.value.id == id
    ensures r.None? <==> forall i :: 0 <= i < |es| ==> es[i].id != id
  {
    if |es| == 0 then None
    else if es[0].id == id then Some(es[0])
    else
      var r := Find(es[1..], id);
      assert forall i :: 1 <= i < |es| ==> es[1..][i - 1] == es[i];
      r
  }

  /** The severity of a deviation: a position's by its distance, resources
      and fleets 'medium', everything else 'high'. */
  function SeverityOf(d: Deviation): Severity
  {
    match d
    case PositionDev(_, sev, _, _, _) => sev
    case ResourcesDev(_, _, _, _) => Medium
    case FleetDev(_, _, _) => Medium
    case _ => High
  }

  /** The correction `generateCorrections` derives from one deviation:
      the server's value for the compared part, the server's entity for a
      missing one, removal for an extra one; the severity is the
      deviation's. */
  function CorrectionFor(d: Deviation, serverEntities: seq<Entity>): (r: Option<Correction>)
    ensures r.None? <==> d.MissingEntity? && forall i :: 0 <= i < |serverEntities| ==> serverEntities[i].id != d.entity
    ensures r.Some? ==> r.value.fix.entity == d.entity && r.value.severity == SeverityOf(d)
    ensures d.MissingEntity? && r.Some? ==> r.value.fix.CreateEntity? && r.value.fix.data in serverEntities && r.value.fix.data.id == d.entity
  {
    var fix := match d
      case PositionDev(id, _, _, server, m) => Some(PositionFix(id, server, m))
      case ResourcesDev(id, _, server, total) => Some(ResourcesFix(id, server, total))
      case BuildingsDev(id, _, server) => Some(BuildingsFix(id, server))
      case FleetDev(id, _, server) => Some(FleetFix(id, server))
      case MissingEntity(id) =>
        (match Find(serverEntities, id)
         case Some(e) => Some(CreateEntity(id, e))
         case None => None)
      case ExtraEntity(id, _) => Some(RemoveEntity(id));
    match fix
    case Some(f) => Some(Correction(f, SeverityOf(d)))
    case None => None
  }

  /** `generateCorrections(deviations, localState, serverState)`. */
  function GenerateCorrections(devs: seq<Deviation>, serverEntities: seq<Entity>): (r: seq<Correction>)
    ensures |r| <= |devs|
    ensures forall c :: c in r ==> exists d :: d in devs && CorrectionFor(d, serverEntities) == Some(c)
    ensures forall d :: d in devs && CorrectionFor(d, serverEntities).Some? ==> CorrectionFor(d, serverEntities).value in r
  {
    if |devs| == 0 then []
    else
      var rest := GenerateCorrections(devs[1..], serverEntities);
      assert forall d :: d in devs[1..] ==> d in devs;
      assert forall d :: d in devs ==> d == devs[0] || d in devs[1..];
      (match CorrectionFor(devs[0], serverEntities) case Some(c) => [c] case None => [])
      + rest
  }

  /** When every missing entity is on the server's list, there is exactly
      one correction per deviation, in order, each naming its deviation's
      entity. */
  lemma {:induction false} OneCorrectionEach(devs: seq<Deviation>, serverEntities: seq<Entity>)
    requires forall i :: 0 <= i < |devs| && devs[i].MissingEntity? ==> exists j :: 0 <= j < |serverEntities| && serverEntities[j].id == devs[i].entity
    ensures var cs := GenerateCorrections(devs, serverEntities);
      && |cs| == |devs|
      && forall i :: 0 <= i < |devs| ==>
        CorrectionFor(devs[i], serverEntities) == Some(cs[i]) && cs[i].fix.entity == devs[i].entity && cs[i].severity == SeverityOf(devs[i])
  {
    if |devs| > 0 {
      assert forall i :: 1 <= i < |devs| ==> devs[1..][i - 1] == devs[i];
      OneCorrectionEach(devs[1..], serverEntities);
      if devs[0].MissingEntity? {
        var j :| 0 <= j < |serverEntities| && serverEntities[j].id == devs[0].entity;
        assert Find(serverEntities, devs[0].entity).Some?;
      }
    }
  }

  /** Every missing entity `compareStates` reports is on the server's list. */
  lemma MissingFound(local: State, server: State, twin: Twin, sqrt: real -> real, threshold: real)
    ensures var devs := CompareStates(local, server, twin, sqrt, threshold);
      forall i :: 0 <= i < |devs| && devs[i].MissingEntity? ==>
        exists j :: 0 <= j < |EntitiesOf(server)| && EntitiesOf(server)[j].id == devs[i].entity
  {
    var devs := CompareStates(local, server, twin, sqrt, threshold);
    var es := EntitiesOf(server);
    forall i | 0 <= i < |devs| && devs[i].MissingEntity?
      ensures exists j :: 0 <= j < |es| && es[j].id == devs[i].entity
    {
      MissingReported(local, server, twin, sqrt, threshold, devs[i].entity);
      IndexKeys(es, devs[i].entity);
    }
  }

  /** The keys of the index are the ids of the list. */
  lemma {:induction false} IndexKeys(es: seq<Entity>, id: Id)
    ensures id in Index(es).entries <==> exists j :: 0 <= j < |es| && es[j].id == id
    decreases |es|
  {
    var pairs := seq(|es|, i requires 0 <= i < |es| => (es[i].id, es[i]));
    if |es| > 0 {
      var init := es[..|es| - 1];
      IndexKeys(init, id);
      assert pairs[..|es| - 1] == seq(|init|, i requires 0 <= i < |init| => (init[i].id, init[i]));
      if exists j :: 0 <= j < |init| && init[j].id == id {
        var j :| 0 <= j < |init| && init[j].id == id;
        assert es[j].id == id;
      }
      if exists j :: 0 <= j < |es| && es[j].id == id {
        var j :| 0 <= j < |es| && es[j].id == id;
        if j < |es| - 1 {
          assert init[j].id == id;
        }
      }
    }
  }

  /** A positive duration in milliseconds. */
  type Duration = d: real | d > 0.0 witness 500.0

  /** A smoothing of one entity's position towards the server's. */
  datatype Interp = Interp(entity: Id, start: Pos, end: Pos, duration: Duration, startTime: real)

  /** What the ECS world holds for an entity id: nothing, an entity
      without a position, or an entity at a position. */
  datatype View = Absent | NoPosition | At(pos: Pos)

  /** What a twin's position lookup finds. The JavaScript twin reads
      `getEntity(id).position`. The TypeScript twin calls
      `getComponent(id, 'Position')`, but the ECS world keys its component
      maps by a class's `name` and a string has none, so that lookup finds
      nothing for every entity. */
  function Seen(world: Id -> View, twin: Twin, id: Id): View
  {
    if twin == Ts then Absent else world(id)
  }

  /** `generateInterpolations(corrections)`: one interpolation from the
      entity's current position to the corrected one for every position
      correction whose entity's position the lookup finds. */
  function GenerateInterpolations(cs: seq<Correction>, world: Id -> View, twin: Twin, duration: Duration, now: real): (r: seq<Interp>)
    ensures |r| <= |cs|
    ensures twin == Ts ==> r == []
    ensures forall x :: x in r ==> x.duration == duration && x.startTime == now && world(x.entity) == At(x.start)
    ensures forall x :: x in r ==> exists c :: c in cs && c.fix.PositionFix? && c.fix.entity == x.entity && c.fix.position == x.end
  {
    if |cs| == 0 then []
    else
      var rest := GenerateInterpolations(cs[1..], world, twin, duration, now);
      assert forall c :: c in cs[1..] ==> c in cs;
      match cs[0].fix
      case PositionFix(id, p, _) =>
        (match Seen(world, twin, id)
         case At(start) => [Interp(id, start, p, duration, now)] + rest
         case _ => rest)
      case _ => rest
  }

  /** In the JavaScript twin every position correction of an entity with a
      position gets its interpolation. */
  lemma {:induction false} InterpolationsComplete(cs: seq<Correction>, world: Id -> View, duration: Duration, now: real, c: Correction)
    requires c in cs && c.fix.PositionFix? && world(c.fix.entity).At?
    ensures Interp(c.fix.entity, world(c.fix.entity).pos, c.fix.position, duration, now) in GenerateInterpolations(cs, world, Js, duration, now)
  {
    if cs[0] != c {
      InterpolationsComplete(cs[1..], world, duration, now, c);
    }
  }

  /** `easeInOut(t)`. */
  function Ease(t: real): real
  {
    if t < 0.5 then 2.0 * t * t else -1.0 + (4.0 - 2.0 * t) * t
  }

  lemma MulLe(a: real, b: real, c: real)
    requires a >= 0.0 && b <= c
    ensures a * b <= a * c
  {
    assert a * c - a * b == a * (c - b);
  }

  /** On the second half the easing is 1 - 2(1 - t)^2. */
  lemma EaseUpper(t: real)
    requires 0.5 <= t <= 1.0
    ensures 0.5 <= Ease(t) <= 1.0
  {
    var u := 1.0 - t;
    assert Ease(t) == 1.0 - 2.0 * (u * u);
    MulLe(u, u, 0.5);
    MulLe(u, 0.0, u);
  }

  lemma EaseLower(t: real)
    requires 0.0 <= t < 0.5
    ensures 0.0 <= Ease(t) <= 0.5
  {
    MulLe(t, t, 0.5);
    MulLe(t, 0.0, t);
  }

  /** The easing fixes 0, one half and 1, and maps [0, 1] into [0, 1]. */
  lemma EaseRange(t: real)
    ensures Ease(0.0) == 0.0 && Ease(0.5) == 0.5 && Ease(1.0) == 1.0
    ensures 0.0 <= t <= 1.0 ==> 0.0 <= Ease(t) <= 1.0
  {
    if 0.0 <= t < 0.5 {
      EaseLower(t);
    } else if 0.5 <= t <= 1.0 {
      EaseUpper(t);
    }
  }

  lemma SquareLe(a: real, b: real)
    requires 0.0 <= a <= b
    ensures a * a <= b * b
  {
    MulLe(a, a, b);
    MulLe(b, a, b);
    assert a * b == b * a;
  }

  /** The easing on each half, written as a square. */
  lemma EaseForms(t: real)
    ensures t < 0.5 ==> Ease(t) == 2.0 * (t * t)
    ensures t >= 0.5 ==> Ease(t) == 1.0 - 2.0 * ((1.0 - t) * (1.0 - t))
  {
  }

  /** The easing never decreases on [0, 1]. */
  lemma EaseMonotone(s: real, t: real)
    requires 0.0 <= s <= t <= 1.0
    ensures Ease(s) <= Ease(t)
  {
    EaseForms(s);
    EaseForms(t);
    if t < 0.5 {
      SquareLe(s, t);
    } else if s >= 0.5 {
      SquareLe(1.0 - t, 1.0 - s);
    } else {
      EaseLower(s);
      EaseUpper(t);
    }
  }

  /** `Math.min(elapsed / duration, 1)`. */
  function Progress(x: Interp, now: real): (r: real)
    ensures r <= 1.0
    ensures r == 1.0 <==> now - x.startTime >= x.duration
  {
    var p := (now - x.startTime) / x.duration;
    if p < 1.0 then p else 1.0
  }

  /** The position at eased progress `e`. */
  function Blend(a: Pos, b: Pos, e: real): Pos
  {
    Pos(a.x + (b.x - a.x) * e, a.y + (b.y - a.y) * e, Some(Z(a) + (Z(b) - Z(a)) * e))
  }

  datatype Applied = Applied(active: seq<Interp>, moves: seq<(Id, Pos)>)

  /** `applyInterpolations(interpolations)`: moves each entity whose
      position the lookup finds along its interpolation and keeps the
      unfinished ones. The TypeScript twin keeps an unfinished
      interpolation whatever the world holds, and moves nothing; the
      JavaScript twin drops one whose entity is gone. */
  function ApplyInterpolations(xs: seq<Interp>, now: real, world: Id -> View, twin: Twin): (r: Applied)
    ensures forall x :: x in r.active ==> x in xs && Progress(x, now) < 1.0
    ensures forall x :: x in xs && Progress(x, now) < 1.0 && (twin == Ts || world(x.entity) != Absent) ==> x in r.active
    ensures twin == Ts ==> r.moves == []
    ensures forall m :: m in r.moves ==> exists x :: x in xs && world(x.entity).At? && m == (x.entity, Blend(x.start, x.end, Ease(Progress(x, now))))
    ensures twin == Js ==> forall x :: x in xs && world(x.entity).At? ==> (x.entity, Blend(x.start, x.end, Ease(Progress(x, now)))) in r.moves
  {
    if |xs| == 0 then Applied([], [])
    else
      var x := xs[0];
      var rest := ApplyInterpolations(xs[1..], now, world, twin);
      assert forall y :: y in xs[1..] ==> y in xs;
      assert forall y :: y in xs ==> y == x || y in xs[1..];
      var p := Progress(x, now);
      var move := if Seen(world, twin, x.entity).At? then [(x.entity, Blend(x.start, x.end, Ease(p)))] else [];
      var keep := if p < 1.0 && (twin == Ts || world(x.entity) != Absent) then [x] else [];
      Applied(keep + rest.active, move + rest.moves)
  }

  /** A finished interpolation puts the entity exactly at the server's
      position (z taken as 0 when missing). */
  lemma FinishedArrives(x: Interp, now: real)
    requires now - x.startTime >= x.duration
    ensures Blend(x.start, x.end, Ease(Progress(x, now))) == Pos(x.end.x, x.end.y, Some(Z(x.end)))
  {
  }

  datatype Stats = Stats(
    totalReconciliations: nat,
    successfulReconciliations: nat,
    correctionsApplied: nat,
    rollbacks: nat,
    avgDeviation: real,
    maxDeviation: real)

  const NoStats := Stats(0, 0, 0, 0, 0.0, 0.0)

  /** The configuration: at most 50 history entries, a 0.1 position
      threshold, interpolation on, 500 ms interpolations. */
  datatype Config = Config(maxHistorySize: int, threshold: real, interpolationEnabled: bool, duration: Duration)

  const DefaultConfig := Config(50, 0.1, true, 500.0)

  datatype Outcome = Outcome(
    needsCorrection: bool,
    corrections: seq<Correction>,
    interpolations: seq<Interp>,
    deviations: seq<Deviation>,
    timestamp: real)

  datatype Reconciler = Reconciler(last: Option<State>, history: seq<Outcome>, stats: Stats, config: Config)

  /** `new StateReconciler(world)`. */
  function Create(): (r: Reconciler)
    ensures r.last == None && r.history == [] && r.stats == NoStats && r.config == DefaultConfig
  {
    Reconciler(None, [], NoStats, DefaultConfig)
  }

  /** The magnitudes of the position deviations, in order. */
  function Magnitudes(devs: seq<Deviation>): (r: seq<real>)
    ensures forall m :: m in r <==> exists d :: d in devs && d.PositionDev? && d.magnitude == m
  {
    if |devs| == 0 then []
    else
      var rest := Magnitudes(devs[1..]);
      assert forall d :: d in devs <==> d == devs[0] || d in devs[1..];
      if devs[0].PositionDev? then [devs[0].magnitude] + rest else rest
  }

  function Sum(xs: seq<real>): real
  {
    if |xs| == 0 then 0.0 else xs[0] + Sum(xs[1..])
  }

  /** `Math.max(...xs)` for a non-empty list. */
  function MaxOf(xs: seq<real>): (r: real)
    requires |xs| > 0
    ensures forall i :: 0 <= i < |xs| ==> xs[i] <= r
    ensures r in xs
  {
    if |xs| == 1 then xs[0]
    else
      var m := MaxOf(xs[1..]);
      assert forall i :: 1 <= i < |xs| ==> xs[1..][i - 1] == xs[i];
      if xs[0] >= m then xs[0] else m
  }

  /** `updateDeviationStats(deviations)`, after `correctionsApplied` was
      counted: folds the batch's mean position deviation into the running
      mean and raises the maximum. */
  function UpdateDeviationStats(st: Stats, devs: seq<Deviation>): (r: Stats)
    requires st.correctionsApplied >= 1
    ensures r.totalReconciliations == st.totalReconciliations && r.successfulReconciliations == st.successfulReconciliations
    ensures r.correctionsApplied == st.correctionsApplied && r.rollbacks == st.rollbacks
    ensures |Magnitudes(devs)| == 0 ==> r == st
  {
    var ms := Magnitudes(devs);
    if |ms| == 0 then st
    else
      var avg := Sum(ms) / |ms| as real;
      var n := st.correctionsApplied as real;
      st.(avgDeviation := RunningMean(st.avgDeviation, avg, n),
          maxDeviation := if st.maxDeviation >= MaxOf(ms) then st.maxDeviation else MaxOf(ms))
  }

  /** The maximum never falls and covers every position deviation of the
      batch. */
  lemma DeviationMaxBounds(st: Stats, devs: seq<Deviation>)
    requires st.correctionsApplied >= 1
    ensures UpdateDeviationStats(st, devs).maxDeviation >= st.maxDeviation
    ensures forall d :: d in devs && d.PositionDev? ==> d.magnitude <= UpdateDeviationStats(st, devs).maxDeviation
  {
    var ms := Magnitudes(devs);
    forall d | d in devs && d.PositionDev? ensures d.magnitude <= UpdateDeviationStats(st, devs).maxDeviation {
      assert d.magnitude in ms;
    }
  }

  /** The running mean moves to somewhere between its old value and the
      batch's mean. */
  lemma DeviationMeanBounds(st: Stats, devs: seq<Deviation>)
    requires st.correctionsApplied >= 1
    ensures var ms := Magnitudes(devs);
      |ms| > 0 ==>
        var avg := Sum(ms) / |ms| as real;
        var m := UpdateDeviationStats(st, devs).avgDeviation;
        (st.avgDeviation <= m <= avg) || (avg <= m <= st.avgDeviation)
  {
    var ms := Magnitudes(devs);
    if |ms| > 0 {
      WeightedMean(st.avgDeviation, Sum(ms) / |ms| as real, st.correctionsApplied as real);
    }
  }

  /** The mean of `n` values, `n - 1` of which averaged `a`, the last
      being `b`. */
  function RunningMean(a: real, b: real, n: real): real
    requires n >= 1.0
  {
    (a * (n - 1.0) + b) / n
  }

  /** A running mean lies between the old mean and the new value. */
  lemma WeightedMean(a: real, b: real, n: real)
    requires n >= 1.0
    ensures var m := RunningMean(a, b, n);
      (a <= m <= b) || (b <= m <= a)
  {
    var m := RunningMean(a, b, n);
    assert m * n == a * (n - 1.0) + b;
    assert m - a == (b - a) / n by {
      assert (m - a) * n == b - a;
    }
    if a <= b {
      assert (b - a) / n <= b - a by {
        MulLe(b - a, 1.0, n);
        assert (b - a) / n * n == b - a;
      }
    } else {
      assert (a - b) / n <= a - b by {
        MulLe(a - b, 1.0, n);
        assert (a - b) / n * n == a - b;
      }
      assert m - a == -((a - b) / n);
    }
  }

  /** `addToHistory(result)`: append, then drop the oldest entry once the
      history is longer than the bound. */
  function AddToHistory(h: seq<Outcome>, o: Outcome, bound: int): (r: seq<Outcome>)
    ensures |h| <= bound ==> |r| <= bound
  {
    var h' := h + [o];
    if |h'| > bound then h'[1..] else h'
  }

  /** The history ends with the newest outcome, keeps the entries before it
      in order, and never grows past the bound it already respects. */
  lemma HistoryBounded(h: seq<Outcome>, o: Outcome, bound: int)
    requires bound >= 1
    ensures var r := AddToHistory(h, o, bound);
      && |r| > 0 && r[|r| - 1] == o
      && (|h| <= bound ==> |r| <= bound)
      && (|h| < bound ==> r == h + [o])
      && r[..|r| - 1] == h[|h| + 1 - |r|..]
  {
  }

  /** What a call leaves behind: the reconciler and the returned outcome,
      or the reconciler as it stands when the call throws. */
  datatype Step = Step(reconciler: Reconciler, outcome: Outcome) | Threw(reconciler: Reconciler)

  /** The JavaScript twin copies a buildings correction's server value
      with `JSON.parse(JSON.stringify(value))`; for a missing (`undefined`)
      value `JSON.stringify` yields `undefined`, which `JSON.parse` rejects
      with a `SyntaxError`. */
  predicate Unparsable(devs: seq<Deviation>)
  {
    exists i :: 0 <= i < |devs| && devs[i].BuildingsDev? && devs[i].serverText.None?
  }

  /** `reconcile(localState, serverState)`. The first call only remembers
      the server's state; later calls compare, correct, interpolate, count
      and record the outcome. The call count is raised first, so a call
      that throws while generating corrections leaves it raised and
      changes nothing else. `now` stands for `Date.now()`, `sqrt` for
      `Math.sqrt` and `world` for the ECS world's entity lookup. */
  function Reconcile(r: Reconciler, local: State, server: State, now: real, twin: Twin, sqrt: real -> real, world: Id -> View): (s: Step)
    ensures s.reconciler.config == r.config
    ensures s.reconciler.stats.totalReconciliations == r.stats.totalReconciliations + 1
    ensures s.Threw? ==> s.reconciler == r.(stats := r.stats.(totalReconciliations := r.stats.totalReconciliations + 1))
    ensures s.Step? ==> s.reconciler.last == Some(server)
    ensures s.Threw? ==> twin == Js && r.last.Some?
    ensures Balanced(r) && s.Step? ==> Balanced(s.reconciler)
    ensures Balanced(r) && s.Threw? ==>
      s.reconciler.stats.totalReconciliations == s.reconciler.stats.successfulReconciliations + s.reconciler.stats.correctionsApplied + 1
  {
    var st := r.stats.(totalReconciliations := r.stats.totalReconciliations + 1);
    var empty := Outcome(false, [], [], [], now);
    if r.last.None? then
      Step(r.(last := Some(server), stats := st.(successfulReconciliations := st.successfulReconciliations + 1)), empty)
    else
      var devs := CompareStates(local, server, twin, sqrt, r.config.threshold);
      if |devs| > 0 && Unparsable(devs) then
        Threw(r.(stats := st))
      else if |devs| > 0 then
        var cs := GenerateCorrections(devs, EntitiesOf(server));
        var xs := if r.config.interpolationEnabled then GenerateInterpolations(cs, world, twin, r.config.duration, now) else [];
        var o := Outcome(true, cs, xs, devs, now);
        var st' := UpdateDeviationStats(st.(correctionsApplied := st.correctionsApplied + 1), devs);
        Step(Reconciler(Some(server), AddToHistory(r.history, o, r.config.maxHistorySize), st', r.config), o)
      else
        Step(r.(last := Some(server), history := AddToHistory(r.history, empty, r.config.maxHistorySize),
                stats := st.(successfulReconciliations := st.successfulReconciliations + 1)), empty)
  }

  /** The first call stores the server's state, counts a success and
      reports nothing; the history is untouched. */
  lemma FirstCallStores(r: Reconciler, local: State, server: State, now: real, twin: Twin, sqrt: real -> real, world: Id -> View)
    requires r.last.None?
    ensures var s := Reconcile(r, local, server, now, twin, sqrt, world);
      && s.Step?
      && s.outcome == Outcome(false, [], [], [], now)
      && s.reconciler.last == Some(server)
      && s.reconciler.history == r.history
      && s.reconciler.stats.totalReconciliations == r.stats.totalReconciliations + 1
      && s.reconciler.stats.successfulReconciliations == r.stats.successfulReconciliations + 1
      && s.reconciler.stats.correctionsApplied == r.stats.correctionsApplied
  {
  }

  /** After the first call: the call throws exactly when a buildings
      deviation has no server value, which the TypeScript twin never
      reports. Otherwise a correction is needed exactly when the states
      deviate; the outcome carries the deviations `compareStates` finds and
      one correction per deviation; it is recorded as the newest history
      entry and the server's state is remembered. */
  lemma ReconcileOutcome(r: Reconciler, local: State, server: State, now: real, twin: Twin, sqrt: real -> real, world: Id -> View)
    requires r.last.Some?
    ensures var s := Reconcile(r, local, server, now, twin, sqrt, world);
      var devs := CompareStates(local, server, twin, sqrt, r.config.threshold);
      && (s.Threw? <==> Unparsable(devs))
      && (twin == Ts ==> s.Step?)
      && (s.Step? ==>
        && (s.outcome.needsCorrection <==> |devs| > 0)
        && s.outcome.deviations == devs
        && |s.outcome.corrections| == |devs|
        && (forall i :: 0 <= i < |devs| ==> s.outcome.corrections[i].fix.entity == devs[i].entity)
        && (!r.config.interpolationEnabled ==> s.outcome.interpolations == [])
        && s.reconciler.last == Some(server)
        && s.reconciler.history == AddToHistory(r.history, s.outcome, r.config.maxHistorySize))
  {
    var devs := CompareStates(local, server, twin, sqrt, r.config.threshold);
    if twin == Ts && Unparsable(devs) {
      var i :| 0 <= i < |devs| && devs[i].BuildingsDev? && devs[i].serverText.None?;
      assert devs[i] in devs;
    }
    if Unparsable(devs) {
      var i :| 0 <= i < |devs| && devs[i].BuildingsDev? && devs[i].serverText.None?;
    }
    MissingFound(local, server, twin, sqrt, r.config.threshold);
    OneCorrectionEach(devs, EntitiesOf(server));
  }

  /** Every call is counted either as a success or as an applied
      correction, and the history stays within its bound. */
  predicate Balanced(r: Reconciler)
  {
    && r.stats.totalReconciliations == r.stats.successfulReconciliations + r.stats.correctionsApplied
    && |r.history| <= r.config.maxHistorySize
  }

  /** The running maximum covers every position deviation ever reported. */
  lemma ReconcileMaxDeviation(r: Reconciler, local: State, server: State, now: real, twin: Twin, sqrt: real -> real, world: Id -> View)
    ensures var s := Reconcile(r, local, server, now, twin, sqrt, world);
      && s.reconciler.stats.maxDeviation >= r.stats.maxDeviation
      && (s.Step? ==> forall d :: d in s.outcome.deviations && d.PositionDev? ==> d.magnitude <= s.reconciler.stats.maxDeviation)
  {
    if r.last.Some? {
      var devs := CompareStates(local, server, twin, sqrt, r.config.threshold);
      if |devs| > 0 {
        var st := r.stats.(totalReconciliations := r.stats.totalReconciliations + 1);
        DeviationMaxBounds(st.(correctionsApplied := st.correctionsApplied + 1), devs);
      }
    }
  }

  /** What `getStats()` reports. */
  datatype Report = Report(stats: Stats, successRate: real, historySize: nat, interpolationEnabled: bool)

  /** `getStats()`, before `toFixed(2)`; the JavaScript twin also reports
      whether interpolation is enabled, which the report always carries. */
  function GetStats(r: Reconciler): (rep: Report)
    ensures rep.stats == r.stats && rep.historySize == |r.history|
    ensures r.stats.totalReconciliations == 0 ==> rep.successRate == 0.0
    ensures r.stats.successfulReconciliations <= r.stats.totalReconciliations ==> 0.0 <= rep.successRate <= 100.0
    ensures r.stats.totalReconciliations > 0 ==>
      rep.successRate * r.stats.totalReconciliations as real == r.stats.successfulReconciliations as real * 100.0
  {
    var total := r.stats.totalReconciliations;
    if total > 0 then
      RateBounds(r.stats.successfulReconciliations, total);
      Report(r.stats, r.stats.successfulReconciliations as real / total as real * 100.0, |r.history|, r.config.interpolationEnabled)
    else
      Report(r.stats, 0.0, |r.history|, r.config.interpolationEnabled)
  }

  lemma RateBounds(ok: nat, total: nat)
    requires total > 0
    ensures var rate := ok as real / total as real * 100.0;
      rate * total as real == ok as real * 100.0
      && 0.0 <= rate && (ok <= total ==> rate <= 100.0)
  {
    var q := ok as real / total as real;
    assert q * total as real == ok as real;
    if ok <= total {
      MulLe(total as real, q, 1.0);
    }
  }

  /** A balanced reconciler's success rate is a percentage. */
  lemma SuccessRateIsPercentage(r: Reconciler)
    requires Balanced(r)
    ensures 0.0 <= GetStats(r).successRate <= 100.0
  {
  }

  /** `resetStats()` of the JavaScript twin: counters back to zero and the
      history emptied; the remembered server state stays. */
  function ResetStats(r: Reconciler): (r': Reconciler)
    ensures r'.stats == NoStats && r'.history == []
    ensures r'.last == r.last && r'.config == r.config
    ensures Balanced(r') <==> r.config.maxHistorySize >= 0
  {
    r.(stats := NoStats, history := [])
  }
  /** What `exportHistory()` returns. */
  datatype Export = Export(corrections: seq<Outcome>, report: Report, config: Config)

  /** `exportHistory()` of the JavaScript twin: the recorded outcomes, the
      current report and a copy of the configuration. */
  function ExportHistory(r: Reconciler): (e: Export)
    ensures e.corrections == r.history && e.config == r.config
    ensures e.report.historySize == |e.corrections|
    ensures e.report.stats == r.stats
  {
    Export(r.history, GetStats(r), r.config)
  }

  /** Exporting right after `resetStats()` shows an empty history and zeroed
      counters, with a zero success rate. */
  lemma ExportAfterReset(r: Reconciler)
    ensures var e := ExportHistory(ResetStats(r));
      e.corrections == [] && e.report.stats == NoStats && e.report.successRate == 0.0
      && e.report.historySize == 0
  {
  }
}
