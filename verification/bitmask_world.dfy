/** The strategy game's entity-component world (TypeScript and JavaScript
    twins): component maps keyed by name, a bitmask per entity built from
    the fixed component-type table, and a cache of query results keyed by
    mask. */
module BitmaskWorld {
  import opened Wrappers
  import opened JsCollections
  import opened EcsStore

  type Entity = int

  /** A bitmask, written as the set of positions of its one bits: `a | b`
      is union, `a & ~b` is difference, the empty set is 0, and
      `(m & q) === q` says `q` is a subset of `m`. Every type in the table
      below is a single bit, so masks built from it lose nothing. */
  type Mask = set<nat>

  /** The component-type table: the bit position `i` of `1 << i` for each
      known name; positions are distinct. */
  const ComponentTypes: map<string, nat> := map[
    "Position" := 0, "Rotation" := 1, "Velocity" := 2,
    "Identity" := 3, "Economy" := 4, "Storage" := 5,
    "ProductionChain" := 6, "Building" := 7, "Ship" := 8,
    "Fleet" := 9, "Planet" := 10, "StarSystem" := 11,
    "Logistics" := 12, "Selectable" := 13, "Combat" := 14,
    "ShieldWedge" := 15, "Road" := 16, "Cargo" := 17,
    "Specialization" := 18, "Sovereignty" := 19,
    "Corporation" := 20, "ConstructionContext" := 21,
    "Renderable" := 22, "Player" := 23]

  /** The bit of a name, absent for names outside the table. */
  function TypeBit(name: string): (r: Option<Mask>)
    ensures r.Some? ==> r.value != {}
  {
    if name in ComponentTypes then Some({ComponentTypes[name]}) else None
  }

  predicate Matches(entityMask: Mask, queryMask: Mask)
  {
    queryMask <= entityMask
  }

  datatype World<D> = World(
    store: Store<Entity, D>,
    entityMasks: Map<Entity, Mask>,
    systems: seq<nat>,
    queries: Map<Mask, Set<Entity>>,
    nextEntityId: int)
  {
    ghost predicate Valid()
    {
      store.Valid() && entityMasks.Valid() && queries.Valid()
      && forall q :: q in queries.entries ==> queries.entries[q].Valid()
    }

    /** `entityMasks.get(entity) || 0`. */
    function MaskOf(e: Entity): Mask
    {
      if e in entityMasks.entries then entityMasks.entries[e] else {}
    }

    /** The query-cache invariant: every cached query for a non-zero mask
        holds exactly the entities whose mask contains it. */
    ghost predicate QueriesExact()
    {
      forall q, e :: q in queries.entries && q != {} ==>
        (queries.entries[q].Has(e) <==> e in entityMasks.entries && Matches(entityMasks.entries[e], q))
    }

    /** Automatic ids are fresh: every id with a mask is below the counter. */
    ghost predicate IdsBelowCounter()
    {
      forall e :: e in entityMasks.entries ==> e < nextEntityId
    }
  }

  function NewWorld<D>(): (w: World<D>)
    ensures w.Valid() && w.QueriesExact() && w.IdsBelowCounter()
    ensures w.nextEntityId == 0
  {
    World(Store(Set([]), EmptyMap()), EmptyMap(), [], EmptyMap(), 0)
  }

  /** `createEntity(requestedId)`: a requested id is used as given and lifts
      the counter past it only when it is not below it; otherwise the
      counter's value is used and the counter advances. The entity's mask
      is reset to 0; cached queries are not touched. */
  function CreateEntity<D>(w: World<D>, requestedId: Option<Entity>): (r: (Entity, World<D>))
    requires w.Valid()
    ensures r.1.Valid()
    ensures requestedId.None? ==> r.0 == w.nextEntityId && r.1.nextEntityId == w.nextEntityId + 1
    ensures requestedId.Some? ==>
      r.0 == requestedId.value && r.1.nextEntityId == (if r.0 >= w.nextEntityId then r.0 + 1 else w.nextEntityId)
    ensures r.1.store.entities.Has(r.0) && r.1.MaskOf(r.0) == {}
    ensures r.1.queries == w.queries && r.1.store.components == w.store.components
    ensures forall x :: x != r.0 ==> r.1.MaskOf(x) == w.MaskOf(x)
  {
    var e := if requestedId.Some? then requestedId.value else w.nextEntityId;
    var next := if requestedId.None? || e >= w.nextEntityId then e + 1 else w.nextEntityId;
    (e, w.(store := Store(w.store.entities.Add(e), w.store.components),
           entityMasks := w.entityMasks.Set(e, {}),
           nextEntityId := next))
  }

  /** Creating an entity whose id has no mask yet keeps the query cache
      exact; an automatic id has none while ids stay below the counter. */
  lemma CreatePreservesQueries<D>(w: World<D>, requestedId: Option<Entity>)
    requires w.Valid() && w.QueriesExact() && w.IdsBelowCounter()
    requires requestedId.Some? ==> requestedId.value !in w.entityMasks.entries
    ensures CreateEntity(w, requestedId).1.QueriesExact()
    ensures CreateEntity(w, requestedId).1.IdsBelowCounter()
  {
    var (e, w') := CreateEntity(w, requestedId);
    assert e !in w.entityMasks.entries;
    forall q, x | q in w'.queries.entries && q != {}
      ensures w'.queries.entries[q].Has(x) <==> x in w'.entityMasks.entries && Matches(w'.entityMasks.entries[x], q)
    {
      if x == e {
        assert !Matches({}, q);
      }
    }
  }

  /** Re-creating an id that already has a non-empty mask resets that mask
      without updating the cache, so a cached query that listed the entity
      keeps listing it although it no longer matches. */
  lemma RecreateBreaksQueries<D>(w: World<D>, e: Entity, q: Mask)
    requires w.Valid() && w.QueriesExact()
    requires q in w.queries.entries && q != {}
    requires e in w.entityMasks.entries && Matches(w.entityMasks.entries[e], q)
    ensures !CreateEntity(w, Some(e)).1.QueriesExact()
  {
    var w' := CreateEntity(w, Some(e)).1;
    assert w.queries.entries[q].Has(e);
    assert w'.queries.entries[q].Has(e);
    assert w'.entityMasks.entries[e] == {};
  }

  /** One cached query after `e`'s mask changed from `oldMask` to `newMask`:
      it loses `e` when `e` stops matching and gains it when `e` starts. */
  function UpdateQuery(s: Set<Entity>, q: Mask, e: Entity, oldMask: Mask, newMask: Mask): (r: Set<Entity>)
    ensures s.Valid() ==> r.Valid()
    ensures forall x :: x != e ==> (r.Has(x) <==> s.Has(x))
    ensures Matches(oldMask, q) && !Matches(newMask, q) ==> !r.Has(e)
    ensures !Matches(oldMask, q) && Matches(newMask, q) ==> r.Has(e)
    ensures Matches(oldMask, q) == Matches(newMask, q) ==> r == s
  {
    var was := Matches(oldMask, q);
    var now := Matches(newMask, q);
    if was && !now then s.Delete(e)
    else if !was && now then s.Add(e)
    else s
  }

  /** `_updateQueriesForEntity`: every cached query updated for `e`. Each
      query is updated on its own, so the cache's order does not matter. */
  function UpdateQueries(qs: Map<Mask, Set<Entity>>, e: Entity, oldMask: Mask, newMask: Mask): (r: Map<Mask, Set<Entity>>)
    ensures r.order == qs.order && r.entries.Keys == qs.entries.Keys
    ensures forall q :: q in r.entries ==> r.entries[q] == UpdateQuery(qs.entries[q], q, e, oldMask, newMask)
  {
    Map(qs.order, map q | q in qs.entries :: UpdateQuery(qs.entries[q], q, e, oldMask, newMask))
  }

  /** Setting the mask of `e` and updating the cache keeps the cache exact. */
  lemma SetMaskPreservesQueries<D>(w: World<D>, e: Entity, newMask: Mask)
    requires w.Valid() && w.QueriesExact()
    ensures var w' := w.(entityMasks := w.entityMasks.Set(e, newMask),
                         queries := UpdateQueries(w.queries, e, w.MaskOf(e), newMask));
      w'.QueriesExact()
  {
    var qs := UpdateQueries(w.queries, e, w.MaskOf(e), newMask);
    var ms := w.entityMasks.Set(e, newMask);
    forall q, x | q in qs.entries && q != {}
      ensures qs.entries[q].Has(x) <==> x in ms.entries && Matches(ms.entries[x], q)
    {
      if x == e && e !in w.entityMasks.entries {
        assert !Matches({}, q);
      }
    }
  }

  /** `addComponent`: stores the data and, for a name in the table, sets its
      bit in the entity's mask and updates the cache. */
  function AddComponent<D>(w: World<D>, e: Entity, name: string, data: D): (r: World<D>)
    requires w.Valid()
    ensures r.Valid()
    ensures r.store.GetComponent(e, name) == Some(data)
    ensures forall x, n :: (x, n) != (e, name) ==> r.store.GetComponent(x, n) == w.store.GetComponent(x, n)
    ensures TypeBit(name).Some? ==> r.MaskOf(e) == w.MaskOf(e) + TypeBit(name).value
    ensures TypeBit(name).None? ==> r.entityMasks == w.entityMasks && r.queries == w.queries
    ensures forall x :: x != e ==> r.MaskOf(x) == w.MaskOf(x)
    ensures r.store.entities == w.store.entities && r.nextEntityId == w.nextEntityId
  {
    var st := w.store.AddComponent(e, name, data);
    match TypeBit(name)
    case None => w.(store := st)
    case Some(bit) =>
      var oldMask := w.MaskOf(e);
      var newMask := oldMask + bit;
      w.(store := st,
         entityMasks := w.entityMasks.Set(e, newMask),
         queries := UpdateQueries(w.queries, e, oldMask, newMask))
  }

  /** `removeComponent`: when a map exists for the name, deletes the entry
      and, for a name in the table, clears its bit and updates the cache. */
  function RemoveComponent<D>(w: World<D>, e: Entity, name: string): (r: World<D>)
    requires w.Valid()
    ensures r.Valid()
    ensures !r.store.HasComponent(e, name)
    ensures forall x, n :: (x, n) != (e, name) ==> r.store.GetComponent(x, n) == w.store.GetComponent(x, n)
    ensures name in w.store.components.entries && TypeBit(name).Some? ==>
      r.MaskOf(e) == w.MaskOf(e) - TypeBit(name).value
    ensures name !in w.store.components.entries || TypeBit(name).None? ==>
      r.entityMasks == w.entityMasks && r.queries == w.queries
    ensures forall x :: x != e ==> r.MaskOf(x) == w.MaskOf(x)
    ensures r.store.entities == w.store.entities && r.nextEntityId == w.nextEntityId
  {
    if name !in w.store.components.entries then w
    else
      var st := w.store.RemoveComponent(e, name);
      match TypeBit(name)
      case None => w.(store := st)
      case Some(bit) =>
        var oldMask := w.MaskOf(e);
        var newMask := oldMask - bit;
        w.(store := st,
           entityMasks := w.entityMasks.Set(e, newMask),
           queries := UpdateQueries(w.queries, e, oldMask, newMask))
  }

  lemma AddPreservesQueries<D>(w: World<D>, e: Entity, name: string, data: D)
    requires w.Valid() && w.QueriesExact()
    ensures AddComponent(w, e, name, data).QueriesExact()
  {
    if TypeBit(name).Some? {
      SetMaskPreservesQueries(w, e, w.MaskOf(e) + TypeBit(name).value);
    }
  }

  lemma RemovePreservesQueries<D>(w: World<D>, e: Entity, name: string)
    requires w.Valid() && w.QueriesExact()
    ensures RemoveComponent(w, e, name).QueriesExact()
  {
    if name in w.store.components.entries && TypeBit(name).Some? {
      SetMaskPreservesQueries(w, e, w.MaskOf(e) - TypeBit(name).value);
    }
  }

  /** Drop `e` from every cached query. */
  function DeleteFromQueries(qs: Map<Mask, Set<Entity>>, e: Entity): (r: Map<Mask, Set<Entity>>)
    ensures r.order == qs.order && r.entries.Keys == qs.entries.Keys
    ensures forall q :: q in r.entries ==> r.entries[q] == qs.entries[q].Delete(e)
  {
    Map(qs.order, map q | q in qs.entries :: qs.entries[q].Delete(e))
  }

  /** `destroyEntity`: the entity leaves the entity set, the masks, every
      component map and every cached query. */
  function DestroyEntity<D>(w: World<D>, e: Entity): (r: World<D>)
    requires w.Valid()
    ensures r.Valid()
    ensures !r.store.entities.Has(e) && e !in r.entityMasks.entries
    ensures forall n :: r.store.GetComponent(e, n) == None
    ensures forall q :: q in r.queries.entries ==> !r.queries.entries[q].Has(e)
    ensures forall x, n :: x != e ==> r.store.GetComponent(x, n) == w.store.GetComponent(x, n)
    ensures forall x :: x != e ==> r.MaskOf(x) == w.MaskOf(x)
  {
    w.(store := w.store.Destroy(e),
       entityMasks := w.entityMasks.Delete(e),
       queries := DeleteFromQueries(w.queries, e))
  }

  lemma DestroyPreservesQueries<D>(w: World<D>, e: Entity)
    requires w.Valid() && w.QueriesExact() && w.IdsBelowCounter()
    ensures DestroyEntity(w, e).QueriesExact() && DestroyEntity(w, e).IdsBelowCounter()
  {
    var ms := w.entityMasks.Delete(e);
    var qs := DeleteFromQueries(w.queries, e);
    assert DestroyEntity(w, e).entityMasks == ms && DestroyEntity(w, e).queries == qs;
    assert ms.entries == w.entityMasks.entries - {e};
    forall q, x | q in qs.entries && q != {}
      ensures qs.entries[q].Has(x) <==> x in ms.entries && Matches(ms.entries[x], q)
    {
      var before := w.queries.entries[q];
      assert qs.entries[q] == before.Delete(e);
      assert before.Has(x) <==> x in w.entityMasks.entries && Matches(w.entityMasks.entries[x], q);
    }
  }

  /** The OR of the names' bits, absent when some name has no bit. */
  function TargetMask(names: seq<string>): (r: Option<Mask>)
    ensures r.Some? <==> forall i :: 0 <= i < |names| ==> TypeBit(names[i]).Some?
    ensures r.Some? && |names| > 0 ==> r.value != {}
  {
    if |names| == 0 then Some({})
    else match (TypeBit(names[0]), TargetMask(names[1..]))
      case (Some(b), Some(rest)) =>
        assert forall i :: 1 <= i < |names| ==> names[i] == names[1..][i - 1];
        Some(b + rest)
      case (Some(_), None) =>
        assert exists i :: 0 <= i < |names[1..]| && TypeBit(names[1..][i]).None?;
        None
      case _ => None
  }

  /** An entity matches the combined mask exactly when its mask holds the
      bit of every listed name. */
  lemma {:induction false} TargetMaskMeaning(names: seq<string>, q: Mask, m: Mask)
    requires TargetMask(names) == Some(q)
    ensures Matches(m, q) <==> forall i :: 0 <= i < |names| ==> ComponentTypes[names[i]] in m
  {
    if |names| > 0 {
      var rest := TargetMask(names[1..]).value;
      TargetMaskMeaning(names[1..], rest, m);
      assert q == {ComponentTypes[names[0]]} + rest;
      assert forall i :: 1 <= i < |names| ==> names[i] == names[1..][i - 1];
    }
  }

  /** `_createQuery`: the entities, in mask-map order, whose mask contains
      `q`. */
  function CreateQuery(masks: Map<Entity, Mask>, q: Mask): (r: Set<Entity>)
    requires masks.Valid()
    ensures r.Valid()
    ensures forall x :: r.Has(x) <==> x in masks.entries && Matches(masks.entries[x], q)
  {
    Set(Filter(masks.order, x => x in masks.entries && Matches(masks.entries[x], q)))
  }

  /** `_getEntitiesWithLegacy`: live entities, in set order, holding every
      named component. */
  function EntitiesWithLegacy<D>(w: World<D>, names: seq<string>): (r: seq<Entity>)
    requires w.Valid()
    ensures NoDup(r)
    ensures forall x :: x in r <==> w.store.entities.Has(x) && w.store.HasAll(x, names)
  {
    Filter(w.store.entities.elems, x => w.store.HasAll(x, names))
  }

  /** `getEntitiesWith`: a name outside the table sends the whole call to
      the legacy scan; otherwise the cached query for the combined mask is
      returned, created first if absent. */
  function GetEntitiesWith<D>(w: World<D>, names: seq<string>): (r: (seq<Entity>, World<D>))
    requires w.Valid()
    ensures r.1.Valid()
    ensures TargetMask(names).None? ==> r == (EntitiesWithLegacy(w, names), w)
    ensures TargetMask(names).Some? ==>
      TargetMask(names).value in r.1.queries.entries && r.0 == r.1.queries.entries[TargetMask(names).value].elems
    ensures r.1.store == w.store && r.1.entityMasks == w.entityMasks && r.1.nextEntityId == w.nextEntityId
    ensures forall q :: q in w.queries.entries ==> q in r.1.queries.entries && r.1.queries.entries[q] == w.queries.entries[q]
  {
    match TargetMask(names)
    case None => (EntitiesWithLegacy(w, names), w)
    case Some(q) =>
      if q in w.queries.entries then (w.queries.entries[q].elems, w)
      else
        var s := CreateQuery(w.entityMasks, q);
        var qs := w.queries.Set(q, s);
        assert forall q' :: q' in qs.entries ==> qs.entries[q'].Valid();
        (s.elems, w.(queries := qs))
  }

  /** A query created from the masks is exact, so adding it to the cache
      keeps the cache exact. */
  lemma CreateQueryKeepsExact<D>(w: World<D>, q: Mask)
    requires w.Valid() && w.QueriesExact()
    ensures w.(queries := w.queries.Set(q, CreateQuery(w.entityMasks, q))).QueriesExact()
  {
  }

  /** When every name is in the table and their combined mask `q` is not
      empty (at least one name), the answer lists exactly the entities whose
      mask holds every bit of `q`, once each, and the cache stays exact. */
  lemma GetEntitiesWithExact<D>(w: World<D>, names: seq<string>, q: Mask)
    requires w.Valid() && w.QueriesExact()
    requires TargetMask(names) == Some(q) && q != {}
    ensures GetEntitiesWith(w, names).1.QueriesExact()
    ensures NoDup(GetEntitiesWith(w, names).0)
    ensures forall x :: x in GetEntitiesWith(w, names).0 <==> x in w.entityMasks.entries && Matches(w.entityMasks.entries[x], q)
  {
    var r := GetEntitiesWith(w, names);
    if q !in w.queries.entries {
      CreateQueryKeepsExact(w, q);
    }
    var cached := r.1.queries.entries[q];
    assert r.0 == cached.elems;
    forall x ensures x in r.0 <==> x in w.entityMasks.entries && Matches(w.entityMasks.entries[x], q) {
      assert x in r.0 <==> cached.Has(x);
    }
  }

  /** `getComponent` (TypeScript): null when the map is missing, the entity
      is missing, or the stored data is falsy. */
  function GetComponentTs<D>(w: World<D>, e: Entity, name: string, truthy: D -> bool): (r: Option<D>)
    ensures r.Some? <==> w.store.HasComponent(e, name) && truthy(w.store.components.entries[name].entries[e])
    ensures r.Some? ==> r.value == w.store.components.entries[name].entries[e]
  {
    match w.store.GetComponent(e, name)
    case Some(d) => if truthy(d) then Some(d) else None
    case None => None
  }

  /** What the JavaScript `getComponent` hands back. */
  datatype Lookup<D> = Null | Undefined | Found(data: D)

  /** `getComponent` (JavaScript): null only when no map exists for the
      name; undefined when the map lacks the entity; otherwise the data. */
  function GetComponentJs<D>(w: World<D>, e: Entity, name: string): (r: Lookup<D>)
    ensures r.Null? <==> name !in w.store.components.entries
    ensures r.Undefined? <==> name in w.store.components.entries && !w.store.HasComponent(e, name)
    ensures r.Found? ==> w.store.GetComponent(e, name) == Some(r.data)
  {
    if name !in w.store.components.entries then Null
    else match w.store.GetComponent(e, name)
      case Some(d) => Found(d)
      case None => Undefined
  }

  /** After `destroyEntity`, the JavaScript lookup of any existing component
      map answers undefined. */
  lemma DestroyedLookupJs<D>(w: World<D>, e: Entity, name: string)
    requires w.Valid() && name in w.store.components.entries
    ensures GetComponentJs(DestroyEntity(w, e), e, name) == Undefined
  {
    var r := DestroyEntity(w, e);
    assert name in r.store.components.entries;
    assert r.store.GetComponent(e, name) == None;
  }

  function HasComponent<D>(w: World<D>, e: Entity, name: string): bool
  {
    w.store.HasComponent(e, name)
  }

  function AddSystem<D>(w: World<D>, system: nat): (r: World<D>)
    ensures r.systems == w.systems + [system] && r.store == w.store && r.queries == w.queries
  {
    w.(systems := w.systems + [system])
  }

  /** `update(deltaTime)`: every registered system, in order, with the same
      time step. */
  function Update<D>(w: World<D>, dt: real, run: (nat, real, World<D>) -> World<D>): World<D>
  {
    RunSystems(w.systems, dt, w, run)
  }

  /** A system added last runs last, after all the earlier ones. */
  lemma AddedSystemRunsLast<D>(w: World<D>, s: nat, dt: real, run: (nat, real, World<D>) -> World<D>)
    ensures Update(AddSystem(w, s), dt, run) == run(s, dt, RunSystems(w.systems, dt, AddSystem(w, s), run))
  {
    RunSystemsAppend(w.systems, [s], dt, AddSystem(w, s), run);
  }
}
