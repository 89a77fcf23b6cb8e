/** The client's entity-component world: numeric entity ids handed out by a
    counter, components filed under their class name, and a plain-data
    snapshot that `deserialize` turns back into a world. */
module ClassWorld {
  import opened Wrappers
  import opened JsCollections
  import opened EcsStore

  type Entity = int

  datatype World<C> = World(nextEntityId: int, store: Store<Entity, C>) {
    ghost predicate Valid()
    {
      store.Valid()
    }

    /** Every id in use is below the counter, so the counter is fresh. */
    ghost predicate IdsBelowCounter()
    {
      (forall e :: store.entities.Has(e) ==> e < nextEntityId)
      && forall e, n :: store.HasComponent(e, n) ==> e < nextEntityId
    }
  }

  /** The snapshot `serialize` returns: the counter, the entity list and,
      per class name, the list of [entity, component] pairs. */
  datatype Snapshot<C> = Snapshot(nextEntityId: int, entities: seq<Entity>, components: seq<(string, seq<(Entity, C)>)>)

  function NewWorld<C>(): (w: World<C>)
    ensures w.Valid() && w.IdsBelowCounter()
    ensures w.nextEntityId == 0 && w.store.entities.elems == []
  {
    World(0, Store(Set([]), EmptyMap()))
  }

  /** `createEntity`: hands out the counter and advances it. */
  function CreateEntity<C>(w: World<C>): (r: (Entity, World<C>))
    requires w.Valid()
    ensures r.1.Valid()
    ensures r.0 == w.nextEntityId && r.1.nextEntityId == w.nextEntityId + 1
    ensures forall x :: r.1.store.entities.Has(x) <==> w.store.entities.Has(x) || x == r.0
    ensures r.1.store.components == w.store.components
  {
    var e := w.nextEntityId;
    (e, World(e + 1, Store(w.store.entities.Add(e), w.store.components)))
  }

  /** While every id in use is below the counter, a new entity's id is not
      in use and the property is kept. */
  lemma CreatedIsFresh<C>(w: World<C>)
    requires w.Valid() && w.IdsBelowCounter()
    ensures !w.store.entities.Has(CreateEntity(w).0)
    ensures forall n :: !w.store.HasComponent(CreateEntity(w).0, n)
    ensures CreateEntity(w).1.IdsBelowCounter()
  {
    var w' := CreateEntity(w).1;
    forall e, n | w'.store.HasComponent(e, n) ensures e < w'.nextEntityId {
      assert w.store.HasComponent(e, n);
    }
  }

  function DestroyEntity<C>(w: World<C>, e: Entity): (r: World<C>)
    requires w.Valid()
    ensures r.Valid() && r.nextEntityId == w.nextEntityId
    ensures forall n :: GetComponent(r, e, n) == None
    ensures forall x, n :: x != e ==> GetComponent(r, x, n) == GetComponent(w, x, n)
    ensures forall x :: r.store.entities.Has(x) <==> w.store.entities.Has(x) && x != e
  {
    World(w.nextEntityId, w.store.Destroy(e))
  }

  /** `addComponent`, with `className` the component's constructor name. */
  function AddComponent<C>(w: World<C>, e: Entity, className: string, c: C): (r: World<C>)
    requires w.Valid()
    ensures r.Valid() && r.nextEntityId == w.nextEntityId
    ensures GetComponent(r, e, className) == Some(c)
    ensures forall x, n :: (x, n) != (e, className) ==> GetComponent(r, x, n) == GetComponent(w, x, n)
  {
    World(w.nextEntityId, w.store.AddComponent(e, className, c))
  }

  function GetComponent<C>(w: World<C>, e: Entity, className: string): (r: Option<C>)
    ensures r.Some? <==> w.store.HasComponent(e, className)
  {
    w.store.GetComponent(e, className)
  }

  /** `getComponent` returns the component last added under the class
      name, and nothing once the entity was destroyed. */
  lemma ComponentReadBack<C>(w: World<C>, e: Entity, className: string, c: C)
    requires w.Valid()
    ensures GetComponent(AddComponent(w, e, className, c), e, className) == Some(c)
    ensures GetComponent(DestroyEntity(w, e), e, className) == None
  {
  }

  function GetEntitiesWith<C>(w: World<C>, classNames: seq<string>): (r: seq<Entity>)
    requires w.Valid()
    ensures NoDup(r)
    ensures |classNames| == 0 ==> r == w.store.entities.elems
    ensures |classNames| > 0 && classNames[0] in w.store.components.entries ==>
      Subsequence(r, w.store.components.entries[classNames[0]].order)
    ensures |classNames| == 0 ==> forall x :: x in r <==> w.store.entities.Has(x)
    ensures |classNames| > 0 ==> forall x :: x in r <==> w.store.HasAll(x, classNames)
  {
    EntitiesWithExact(w.store, classNames);
    w.store.EntitiesWith(classNames)
  }

  function Serialize<C>(w: World<C>): (d: Snapshot<C>)
    requires w.Valid()
    ensures d.nextEntityId == w.nextEntityId && d.entities == w.store.entities.elems
    ensures |d.components| == |w.store.components.order|
  {
    var cs := w.store.components;
    Snapshot(w.nextEntityId, w.store.entities.elems,
      seq(|cs.order|, i requires 0 <= i < |cs.order| => (cs.order[i], cs.entries[cs.order[i]].Entries())))
  }

  /** `deserialize`: the world is rebuilt from the snapshot alone; nothing of
      the previous state survives. */
  function Deserialize<C>(d: Snapshot<C>): (w: World<C>)
    ensures w.Valid()
    ensures w.nextEntityId == d.nextEntityId
    ensures forall x :: w.store.entities.Has(x) <==> x in d.entities
  {
    var pairs := seq(|d.components|, i requires 0 <= i < |d.components| => (d.components[i].0, FromEntries(d.components[i].1)));
    FromEntriesValues(pairs, (m: Map<Entity, C>) => m.Valid());
    World(d.nextEntityId, Store(SetFrom(d.entities), FromEntries(pairs)))
  }

  /** Deserializing a serialized world gives back the same world. */
  lemma DeserializeSerialize<C>(w: World<C>)
    requires w.Valid()
    ensures Deserialize(Serialize(w)) == w
  {
    var d := Serialize(w);
    var cs := w.store.components;
    var pairs := seq(|d.components|, i requires 0 <= i < |d.components| => (d.components[i].0, FromEntries(d.components[i].1)));
    forall i | 0 <= i < |pairs| ensures pairs[i] == cs.Entries()[i] {
      FromOwnEntries(cs.entries[cs.order[i]]);
    }
    assert pairs == cs.Entries();
    FromOwnEntries(cs);
  }
}
