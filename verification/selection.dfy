/** The selection singleton of the RTS client: the set of selected entities
    and an optional drag box, plus the lookup of that singleton in the world. */
module Selection {
  import opened Wrappers
  import opened JsCollections
  import ClassWorld

  type Entity = ClassWorld.Entity

  datatype Box = Box(active: bool, startX: real, startY: real, endX: real, endY: real)

  datatype SelectionState = SelectionState(selectedEntities: Set<Entity>, selectionBox: Option<Box>) {
    ghost predicate Valid()
    {
      selectedEntities.Valid()
    }

    function GetSelectedCount(): (n: nat)
      requires Valid()
      ensures n == |set e | e in selectedEntities.elems|
    {
      DistinctCount(selectedEntities.elems);
      |selectedEntities.elems|
    }

    function HasSelection(): (b: bool)
      ensures b <==> exists e :: IsEntitySelected(e)
    {
      assert |selectedEntities.elems| > 0 ==> IsEntitySelected(selectedEntities.elems[0]);
      |selectedEntities.elems| > 0
    }

    function ClearSelection(): (r: SelectionState)
      ensures r.Valid() && forall e :: !r.IsEntitySelected(e)
      ensures r.selectionBox == selectionBox
    {
      SelectionState(Set([]), selectionBox)
    }

    function AddEntity(e: Entity): (r: SelectionState)
      requires Valid()
      ensures r.Valid() && r.IsEntitySelected(e)
      ensures forall x :: x != e ==> (r.IsEntitySelected(x) <==> IsEntitySelected(x))
      ensures r.selectionBox == selectionBox
    {
      SelectionState(selectedEntities.Add(e), selectionBox)
    }

    function RemoveEntity(e: Entity): (r: SelectionState)
      requires Valid()
      ensures r.Valid() && !r.IsEntitySelected(e)
      ensures forall x :: x != e ==> (r.IsEntitySelected(x) <==> IsEntitySelected(x))
      ensures r.selectionBox == selectionBox
    {
      SelectionState(selectedEntities.Delete(e), selectionBox)
    }

    /** `toggleEntity`: flips whether `e` is selected and nothing else. */
    function ToggleEntity(e: Entity): (r: SelectionState)
      requires Valid()
      ensures r.Valid()
      ensures r.IsEntitySelected(e) <==> !IsEntitySelected(e)
      ensures forall x :: x != e ==> (r.IsEntitySelected(x) <==> IsEntitySelected(x))
    {
      if selectedEntities.Has(e) then RemoveEntity(e) else AddEntity(e)
    }

    predicate IsEntitySelected(e: Entity)
    {
      selectedEntities.Has(e)
    }

    /** `getSelectedEntities`: each selected entity once, in the order it
        was selected. */
    function GetSelectedEntities(): (r: seq<Entity>)
      requires Valid()
      ensures NoDup(r)
      ensures forall e :: e in r <==> IsEntitySelected(e)
    {
      selectedEntities.elems
    }
  }

  lemma {:induction false} DistinctCount(s: seq<Entity>)
    requires NoDup(s)
    ensures |set e | e in s| == |s|
  {
    if |s| > 0 {
      var init := s[..|s| - 1];
      assert NoDup(init) by {
        forall i, j | 0 <= i < j < |init| ensures init[i] != init[j] {
          assert init[i] == s[i] && init[j] == s[j];
        }
      }
      DistinctCount(init);
      assert s[|s| - 1] !in init by {
        forall i | 0 <= i < |init| ensures init[i] != s[|s| - 1] {
          assert init[i] == s[i];
        }
      }
      assert s == init + [s[|s| - 1]];
      assert (set e | e in s) == (set e | e in init) + {s[|s| - 1]};
    }
  }

  /** Toggling an entity twice restores the selection's membership. */
  lemma ToggleTwice(st: SelectionState, e: Entity)
    requires st.Valid()
    ensures forall x :: st.ToggleEntity(e).ToggleEntity(e).IsEntitySelected(x) <==> st.IsEntitySelected(x)
  {
  }

  /** Adding is idempotent, and adding an already selected entity changes
      nothing, not even the selection order. */
  lemma AddIdempotent(st: SelectionState, e: Entity)
    requires st.Valid()
    ensures st.AddEntity(e).AddEntity(e) == st.AddEntity(e)
    ensures st.IsEntitySelected(e) ==> st.AddEntity(e) == st
  {
  }

  /** The class name the singleton is filed under. */
  const SelectionStateName := "SelectionStateComponent"

  /** `getSelectionState`: the singleton of the first entity, in the order
      of the world's component map, holding one; an error when there is
      none. */
  function GetSelectionState<C>(w: ClassWorld.World<C>): (r: Result<C>)
    requires w.Valid()
    ensures r.Ok? <==> exists e :: w.store.HasComponent(e, SelectionStateName)
    ensures r.Ok? ==> exists e :: ClassWorld.GetComponent(w, e, SelectionStateName) == Some(r.value)
  {
    var entities := ClassWorld.GetEntitiesWith(w, [SelectionStateName]);
    if |entities| == 0 then
      HoldersAreListed(w);
      Err("SelectionStateComponent singleton not found. Ensure it is created during game initialization.")
    else
      var first := entities[0];
      assert w.store.HasAll(first, [SelectionStateName]);
      assert [SelectionStateName][0] == SelectionStateName;
      Ok(ClassWorld.GetComponent(w, first, SelectionStateName).value)
  }

  /** Every holder of the singleton is in the query answer. */
  lemma HoldersAreListed<C>(w: ClassWorld.World<C>)
    requires w.Valid()
    ensures forall e :: w.store.HasComponent(e, SelectionStateName) ==> e in ClassWorld.GetEntitiesWith(w, [SelectionStateName])
  {
    var entities := ClassWorld.GetEntitiesWith(w, [SelectionStateName]);
    forall e | w.store.HasComponent(e, SelectionStateName) ensures e in entities {
      assert w.store.HasAll(e, [SelectionStateName]);
    }
  }
}
