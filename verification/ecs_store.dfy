/** The storage shared by the two class-based ECS worlds: a set of live
    entities and, per component type name, a map from entity to component.
    Entity ids and the way a component's type name is found differ between
    the worlds and are supplied by them. */
module EcsStore {
  import opened Wrappers
  import opened JsCollections

  datatype Store<E(==,!new), C> = Store(entities: Set<E>, components: Map<string, Map<E, C>>) {
    ghost predicate Valid()
    {
      entities.Valid() && components.Valid()
      && forall name :: name in components.entries ==> components.entries[name].Valid()
    }

    /** Whether `e` holds a component of type `name`. */
    predicate HasComponent(e: E, name: string)
    {
      name in components.entries && e in components.entries[name].entries
    }

    /** `getComponent`: absent when no map exists for the type or it lacks `e`. */
    function GetComponent(e: E, name: string): (r: Option<C>)
      ensures r.Some? <==> HasComponent(e, name)
      ensures r.Some? ==> r.value == components.entries[name].entries[e]
    {
      if name in components.entries then components.entries[name].Get(e) else None
    }

    /** `addComponent`: creates the type's map on first use, then sets `e`. */
    function AddComponent(e: E, name: string, c: C): (r: Store<E, C>)
      requires Valid()
      ensures r.Valid()
      ensures r.GetComponent(e, name) == Some(c)
      ensures r.entities == entities
      ensures forall e', n' :: (e', n') != (e, name) ==> r.GetComponent(e', n') == GetComponent(e', n')
    {
      var m := if name in components.entries then components.entries[name] else EmptyMap();
      Store(entities, components.Set(name, m.Set(e, c)))
    }

    /** `removeComponent`: deletes `e` from the type's map when there is one. */
    function RemoveComponent(e: E, name: string): (r: Store<E, C>)
      requires Valid()
      ensures r.Valid()
      ensures !r.HasComponent(e, name)
      ensures r.entities == entities
      ensures forall e', n' :: (e', n') != (e, name) ==> r.GetComponent(e', n') == GetComponent(e', n')
    {
      if name in components.entries then
        Store(entities, components.Set(name, components.entries[name].Delete(e)))
      else this
    }

    /** `destroyEntity`: drops `e` from the entity set and from every
        component map; the (possibly empty) maps themselves stay. */
    function Destroy(e: E): (r: Store<E, C>)
      requires Valid()
      ensures r.Valid()
      ensures r.components.order == components.order
      ensures forall x :: r.entities.Has(x) <==> entities.Has(x) && x != e
      ensures forall n :: r.GetComponent(e, n) == None
      ensures forall x, n :: x != e ==> r.GetComponent(x, n) == GetComponent(x, n)
    {
      Store(entities.Delete(e), DeleteFromAll(components, e))
    }

    /** `getEntitiesWith`: with no types, every live entity; otherwise the
        keys of the first type's map, in its order, that every other listed
        type also holds. */
    function EntitiesWith(names: seq<string>): (r: seq<E>)
      requires Valid()
    {
      if |names| == 0 then entities.elems
      else if names[0] !in components.entries then []
      else Filter(components.entries[names[0]].order, e => HasAll(e, names[1..]))
    }

    predicate HasAll(e: E, names: seq<string>)
    {
      forall i :: 0 <= i < |names| ==> HasComponent(e, names[i])
    }
  }

  /** Delete `e` from every component map. Each map is changed on its own,
      so the order the maps are visited in does not matter. */
  function DeleteFromAll<E(==,!new), C>(ms: Map<string, Map<E, C>>, e: E): (r: Map<string, Map<E, C>>)
    ensures r.order == ms.order && r.entries.Keys == ms.entries.Keys
    ensures forall n :: n in r.entries ==> r.entries[n] == ms.entries[n].Delete(e)
  {
    Map(ms.order, map n | n in ms.entries :: ms.entries[n].Delete(e))
  }

  /** The elements of `s` satisfying `p`, in order. */
  function Filter<E(==,!new)>(s: seq<E>, p: E -> bool): (r: seq<E>)
    ensures forall x :: x in r <==> x in s && p(x)
    ensures Subsequence(r, s)
    ensures |r| <= |s|
    ensures NoDup(s) ==> NoDup(r)
  {
    if |s| == 0 then []
    else
      var rest := Filter(s[1..], p);
      assert NoDup(s) ==> NoDup(s[1..]) && s[0] !in s[1..] by {
        if NoDup(s) {
          forall i, j | 0 <= i < j < |s[1..]| ensures s[1..][i] != s[1..][j] {
            assert s[1..][i] == s[i + 1] && s[1..][j] == s[j + 1];
          }
          forall i | 0 <= i < |s[1..]| ensures s[1..][i] != s[0] {
            assert s[1..][i] == s[i + 1];
          }
        }
      }
      if p(s[0]) then
        assert NoDup(s) ==> NoDup([s[0]] + rest) by {
          if NoDup(s) {
            forall i, j | 0 <= i < j < |[s[0]] + rest| ensures ([s[0]] + rest)[i] != ([s[0]] + rest)[j] {
              if i == 0 {
                assert ([s[0]] + rest)[j] == rest[j - 1];
                assert rest[j - 1] in rest;
              } else {
                assert ([s[0]] + rest)[i] == rest[i - 1];
                assert ([s[0]] + rest)[j] == rest[j - 1];
              }
            }
          }
        }
        assert ([s[0]] + rest)[1..] == rest;
        [s[0]] + rest
      else
        assert |rest| > 0 ==> rest[0] != s[0] by {
          if |rest| > 0 { assert rest[0] in rest; }
        }
        rest
  }

  /** A query lists exactly the entities holding every listed type, once
      each; with no types it lists the live entities. */
  lemma EntitiesWithExact<E(!new), C>(st: Store<E, C>, names: seq<string>)
    requires st.Valid()
    ensures NoDup(st.EntitiesWith(names))
    ensures |names| == 0 ==> st.EntitiesWith(names) == st.entities.elems
    ensures |names| > 0 && names[0] in st.components.entries ==>
      Subsequence(st.EntitiesWith(names), st.components.entries[names[0]].order)
    ensures |names| == 0 ==> forall x :: x in st.EntitiesWith(names) <==> st.entities.Has(x)
    ensures |names| > 0 ==> forall x :: x in st.EntitiesWith(names) <==> st.HasAll(x, names)
  {
    if |names| > 0 {
      forall x ensures x in st.EntitiesWith(names) <==> st.HasAll(x, names) {
        if st.HasAll(x, names) {
          assert st.HasComponent(x, names[0]);
          assert st.HasAll(x, names[1..]) by {
            forall i | 0 <= i < |names[1..]| ensures st.HasComponent(x, names[1..][i]) {
              assert names[1..][i] == names[i + 1];
            }
          }
        }
        if x in st.EntitiesWith(names) {
          assert st.HasAll(x, names[1..]);
          forall i | 0 <= i < |names| ensures st.HasComponent(x, names[i]) {
            if i > 0 {
              assert names[i] == names[1..][i - 1];
            }
          }
        }
      }
    }
  }

  /** Reading a component back after writing it: an added component is
      found under its type, and after removal or destruction none is. */
  lemma ReadAfterWrite<E(!new), C>(st: Store<E, C>, e: E, name: string, c: C)
    requires st.Valid()
    ensures st.AddComponent(e, name, c).GetComponent(e, name) == Some(c)
    ensures st.RemoveComponent(e, name).GetComponent(e, name) == None
    ensures st.Destroy(e).GetComponent(e, name) == None
  {
  }

  /** A destroyed entity appears in no query over component types. */
  lemma DestroyedNeverQueried<E(!new), C>(st: Store<E, C>, e: E, names: seq<string>)
    requires st.Valid()
    ensures e !in st.Destroy(e).EntitiesWith(names)
  {
    var d := st.Destroy(e);
    EntitiesWithExact(d, names);
    if |names| > 0 {
      assert !d.HasComponent(e, names[0]) by {
        assert d.GetComponent(e, names[0]) == None;
      }
    }
  }

  /** The systems named in `systems`, run once each in list order with the
      same time step, each on the world the previous one left. A system's
      behaviour is code outside these modules, so `run` supplies it. */
  function RunSystems<W>(systems: seq<nat>, dt: real, w: W, run: (nat, real, W) -> W): (r: W)
    ensures |systems| > 0 ==>
              r == run(systems[|systems| - 1], dt, RunSystems(systems[..|systems| - 1], dt, w, run))
    decreases |systems|
  {
    if |systems| == 0 then w
    else
      var rest := systems[1..];
      assert |rest| > 0 ==> rest[..|rest| - 1] == systems[..|systems| - 1][1..];
      RunSystems(rest, dt, run(systems[0], dt, w), run)
  }

  /** Running a list of systems is running its first part, then its rest. */
  lemma {:induction false} RunSystemsAppend<W>(a: seq<nat>, b: seq<nat>, dt: real, w: W, run: (nat, real, W) -> W)
    ensures RunSystems(a + b, dt, w, run) == RunSystems(b, dt, RunSystems(a, dt, w, run), run)
  {
    if |a| == 0 {
      assert a + b == b;
    } else {
      assert (a + b)[0] == a[0];
      assert (a + b)[1..] == a[1..] + b;
      RunSystemsAppend(a[1..], b, dt, run(a[0], dt, w), run);
    }
  }
}
