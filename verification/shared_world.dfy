/** The server-and-client shared entity-component world: string entity ids
    made from a counter, components filed under their `_type` tag and looked
    up by the constructor's `TYPE`, and an ordered list of systems. */
module SharedWorld {
  import opened Wrappers
  import opened JsCollections
  import opened EcsStore
  import opened NumberText

  type Entity = string

  /** Systems are identified by an index into a behaviour table supplied by
      the caller, since a system's `update` is code outside this module. */
  datatype World<C> = World(store: Store<Entity, C>, systems: seq<nat>, nextEntityId: nat) {
    ghost predicate Valid()
    {
      store.Valid()
    }

    /** Every id in use is the text of a number below the counter. */
    ghost predicate IdsFromCounter()
    {
      (forall e :: store.entities.Has(e) ==> exists k: nat :: k < nextEntityId && e == ToDecimal(k))
      && forall e, n :: store.HasComponent(e, n) ==> exists k: nat :: k < nextEntityId && e == ToDecimal(k)
    }
  }

  function NewWorld<C>(): (w: World<C>)
    ensures w.Valid() && w.IdsFromCounter()
    ensures w.systems == [] && w.nextEntityId == 0
  {
    World(Store(Set([]), EmptyMap()), [], 0)
  }

  /** `createEntity`: the counter's decimal text, then the counter advances. */
  function CreateEntity<C>(w: World<C>): (r: (Entity, World<C>))
    requires w.Valid()
    ensures r.1.Valid()
    ensures r.1.nextEntityId == w.nextEntityId + 1
    ensures forall x :: r.1.store.entities.Has(x) <==> w.store.entities.Has(x) || x == r.0
    ensures r.1.store.components == w.store.components && r.1.systems == w.systems
  {
    var e := ToDecimal(w.nextEntityId);
    (e, World(Store(w.store.entities.Add(e), w.store.components), w.systems, w.nextEntityId + 1))
  }

  /** A new entity's id is the counter's text, which no entity in use has. */
  lemma CreatedIsFresh<C>(w: World<C>)
    requires w.Valid() && w.IdsFromCounter()
    ensures CreateEntity(w).0 == ToDecimal(w.nextEntityId)
    ensures !w.store.entities.Has(CreateEntity(w).0)
    ensures forall n :: !w.store.HasComponent(CreateEntity(w).0, n)
    ensures CreateEntity(w).1.IdsFromCounter()
  {
    var e := CreateEntity(w).0;
    var w' := CreateEntity(w).1;
    if w.store.entities.Has(e) {
      var k: nat :| k < w.nextEntityId && e == ToDecimal(k);
      ToDecimalInjective(k, w.nextEntityId);
    }
    forall n | w.store.HasComponent(e, n) ensures false {
      var k: nat :| k < w.nextEntityId && e == ToDecimal(k);
      ToDecimalInjective(k, w.nextEntityId);
    }
    forall x | w'.store.entities.Has(x) ensures exists k: nat :: k < w'.nextEntityId && x == ToDecimal(k) {
      if x == e {
        assert w.nextEntityId < w'.nextEntityId;
      } else {
        var k: nat :| k < w.nextEntityId && x == ToDecimal(k);
      }
    }
    forall x, n | w'.store.HasComponent(x, n) ensures exists k: nat :: k < w'.nextEntityId && x == ToDecimal(k) {
      assert w.store.HasComponent(x, n);
      var k: nat :| k < w.nextEntityId && x == ToDecimal(k);
    }
  }

  function DestroyEntity<C>(w: World<C>, e: Entity): (r: World<C>)
    requires w.Valid()
    ensures r.Valid() && r.systems == w.systems && r.nextEntityId == w.nextEntityId
    ensures forall t :: !HasComponent(r, e, t)
    ensures forall x, t :: x != e ==> GetComponent(r, x, t) == GetComponent(w, x, t)
    ensures forall x :: r.store.entities.Has(x) <==> w.store.entities.Has(x) && x != e
  {
    World(w.store.Destroy(e), w.systems, w.nextEntityId)
  }

  /** `addComponent`, filed under the component's own `_type` tag. */
  function AddComponent<C>(w: World<C>, e: Entity, tag: string, c: C): (r: World<C>)
    requires w.Valid()
    ensures r.Valid() && r.systems == w.systems && r.nextEntityId == w.nextEntityId
    ensures GetComponent(r, e, tag) == Some(c)
    ensures forall x, t :: (x, t) != (e, tag) ==> GetComponent(r, x, t) == GetComponent(w, x, t)
  {
    World(w.store.AddComponent(e, tag, c), w.systems, w.nextEntityId)
  }

  /** `getComponent`, looked up by the constructor's `TYPE`. */
  function GetComponent<C>(w: World<C>, e: Entity, typeName: string): (r: Option<C>)
    ensures r.Some? <==> HasComponent(w, e, typeName)
  {
    w.store.GetComponent(e, typeName)
  }

  function RemoveComponent<C>(w: World<C>, e: Entity, typeName: string): (r: World<C>)
    requires w.Valid()
    ensures r.Valid() && r.systems == w.systems && r.nextEntityId == w.nextEntityId
    ensures !HasComponent(r, e, typeName)
    ensures forall x, t :: (x, t) != (e, typeName) ==> GetComponent(r, x, t) == GetComponent(w, x, t)
  {
    World(w.store.RemoveComponent(e, typeName), w.systems, w.nextEntityId)
  }

  predicate HasComponent<C>(w: World<C>, e: Entity, typeName: string)
  {
    w.store.HasComponent(e, typeName)
  }

  /** `getComponent` returns the component last added under the type, and
      nothing once it was removed or the entity destroyed. */
  lemma ComponentReadBack<C>(w: World<C>, e: Entity, t: string, c: C)
    requires w.Valid()
    ensures GetComponent(AddComponent(w, e, t, c), e, t) == Some(c)
    ensures GetComponent(RemoveComponent(w, e, t), e, t) == None
    ensures GetComponent(DestroyEntity(w, e), e, t) == None
  {
  }

  /** Adding then removing a component leaves no component of that type. */
  lemma AddThenRemove<C>(w: World<C>, e: Entity, t: string, c: C)
    requires w.Valid()
    ensures !HasComponent(RemoveComponent(AddComponent(w, e, t, c), e, t), e, t)
    ensures forall x, u :: (x, u) != (e, t) ==>
      GetComponent(RemoveComponent(AddComponent(w, e, t, c), e, t), x, u) == GetComponent(w, x, u)
  {
  }

  function AddSystem<C>(w: World<C>, system: nat): (r: World<C>)
    ensures r.systems == w.systems + [system] && r.store == w.store
  {
    World(w.store, w.systems + [system], w.nextEntityId)
  }

  /** `update(dt)`: each registered system runs once, in registration order,
      on the world the previous one left. */
  function Update<C>(w: World<C>, dt: real, run: (nat, real, World<C>) -> World<C>): World<C>
  {
    RunSystems(w.systems, dt, w, run)
  }

  /** A system added last runs last, after all the earlier ones. */
  lemma AddedSystemRunsLast<C>(w: World<C>, s: nat, dt: real, run: (nat, real, World<C>) -> World<C>)
    ensures Update(AddSystem(w, s), dt, run) == run(s, dt, RunSystems(w.systems, dt, AddSystem(w, s), run))
  {
    RunSystemsAppend(w.systems, [s], dt, AddSystem(w, s), run);
  }

  function GetEntitiesWith<C>(w: World<C>, typeNames: seq<string>): (r: seq<Entity>)
    requires w.Valid()
    ensures NoDup(r)
    ensures |typeNames| == 0 ==> r == w.store.entities.elems
    ensures |typeNames| > 0 && typeNames[0] in w.store.components.entries ==>
      Subsequence(r, w.store.components.entries[typeNames[0]].order)
    ensures |typeNames| == 0 ==> forall x :: x in r <==> w.store.entities.Has(x)
    ensures |typeNames| > 0 ==> forall x :: x in r <==> w.store.HasAll(x, typeNames)
  {
    EntitiesWithExact(w.store, typeNames);
    w.store.EntitiesWith(typeNames)
  }
}
