/** The inventory rules: adding (stacking or a new slot), removing from the
    first matching slot or a given slot, ingredient checks and crafting.
    An entity without an Inventory component is `None`; every operation
    then fails and changes nothing. */
module Inventory {
  import opened Wrappers
  import opened Items

  datatype Inventory = Inventory(items: seq<Stack>, maxSize: int)

  /** The quantity of `id` summed over all slots. */
  function Total(items: seq<Stack>, id: ItemId): int
  {
    if |items| == 0 then 0
    else (if items[0].itemId == id then items[0].quantity else 0) + Total(items[1..], id)
  }

  lemma {:induction false} TotalAppend(a: seq<Stack>, b: seq<Stack>, id: ItemId)
    ensures Total(a + b, id) == Total(a, id) + Total(b, id)
  {
    if |a| == 0 {
      assert a + b == b;
    } else {
      assert (a + b)[0] == a[0] && (a + b)[1..] == a[1..] + b;
      TotalAppend(a[1..], b, id);
    }
  }

  /** Replacing slot `i` changes the totals only by the difference. */
  lemma TotalUpdate(items: seq<Stack>, i: nat, s: Stack, id: ItemId)
    requires i < |items|
    ensures Total(items[i := s], id) == Total(items, id)
      - (if items[i].itemId == id then items[i].quantity else 0)
      + (if s.itemId == id then s.quantity else 0)
  {
    assert items == items[..i] + [items[i]] + items[i + 1..];
    assert items[i := s] == items[..i] + [s] + items[i + 1..];
    TotalAppend(items[..i] + [items[i]], items[i + 1..], id);
    TotalAppend(items[..i], [items[i]], id);
    TotalAppend(items[..i] + [s], items[i + 1..], id);
    TotalAppend(items[..i], [s], id);
  }

  /** Removing slot `i` removes its quantity from the totals. */
  lemma TotalRemove(items: seq<Stack>, i: nat, id: ItemId)
    requires i < |items|
    ensures Total(items[..i] + items[i + 1..], id) == Total(items, id)
      - (if items[i].itemId == id then items[i].quantity else 0)
  {
    assert items == items[..i] + [items[i]] + items[i + 1..];
    TotalAppend(items[..i] + [items[i]], items[i + 1..], id);
    TotalAppend(items[..i], [items[i]], id);
    TotalAppend(items[..i], items[i + 1..], id);
  }

  /** `findIndex(i => i.itemId === id)`: the first slot holding `id`. */
  function FindIndex(items: seq<Stack>, id: ItemId): (r: Option<nat>)
    ensures r.Some? ==>
      r.value < |items| && items[r.value].itemId == id && forall j :: 0 <= j < r.value ==> items[j].itemId != id
    ensures r.None? ==> forall j :: 0 <= j < |items| ==> items[j].itemId != id
  {
    if |items| == 0 then None
    else if items[0].itemId == id then Some(0)
    else match FindIndex(items[1..], id)
      case None => None
      case Some(k) => Some(k + 1)
  }

  /** An index holding `id` with no earlier slot holding it is the one
      `FindIndex` finds. */
  lemma {:induction false} FirstIndexIs(items: seq<Stack>, id: ItemId, k: nat)
    requires k < |items| && items[k].itemId == id
    requires forall j :: 0 <= j < k ==> items[j].itemId != id
    ensures FindIndex(items, id) == Some(k)
  {
    if k > 0 {
      FirstIndexIs(items[1..], id, k - 1);
    }
  }

  /** `addItem`: an unknown item or a missing inventory fails. A stackable
      item already held grows its first slot without any size check;
      otherwise a new slot is appended when there is room. */
  function AddItem(inv: Option<Inventory>, itemId: ItemId, quantity: int): (r: (bool, Option<Inventory>))
    ensures !r.0 ==> r.1 == inv
    ensures r.0 ==> inv.Some? && r.1.Some? && itemId in ITEMS && r.1.value.maxSize == inv.value.maxSize
    ensures r.0 ==> Total(r.1.value.items, itemId) == Total(inv.value.items, itemId) + quantity
    ensures r.0 ==> forall id :: id != itemId ==> Total(r.1.value.items, id) == Total(inv.value.items, id)
    ensures inv.Some? && |inv.value.items| <= inv.value.maxSize ==> r.1.Some? && |r.1.value.items| <= r.1.value.maxSize
    ensures inv.Some? ==> r.1.Some? && |r.1.value.items| <= |inv.value.items| + 1
    ensures inv.Some? && itemId in ITEMS && |inv.value.items| < inv.value.maxSize ==> r.0
    ensures inv.Some? && itemId in ITEMS && ITEMS[itemId].stackable && FindIndex(inv.value.items, itemId).Some? ==>
      r.0 && |r.1.value.items| == |inv.value.items|
  {
    match inv
    case None => (false, inv)
    case Some(v) =>
      if itemId !in ITEMS then (false, inv)
      else
        var existing := if ITEMS[itemId].stackable then FindIndex(v.items, itemId) else None;
        if existing.Some? then
          var i := existing.value;
          var s := Stack(itemId, v.items[i].quantity + quantity);
          forall id ensures Total(v.items[i := s], id) == Total(v.items, id) + (if id == itemId then quantity else 0) {
            TotalUpdate(v.items, i, s, id);
          }
          (true, Some(v.(items := v.items[i := s])))
        else if |v.items| < v.maxSize then
          forall id ensures Total(v.items + [Stack(itemId, quantity)], id) == Total(v.items, id) + (if id == itemId then quantity else 0) {
            TotalAppend(v.items, [Stack(itemId, quantity)], id);
          }
          (true, Some(v.(items := v.items + [Stack(itemId, quantity)])))
        else (false, inv)
  }

  /** `removeItemAtIndex`: fails without an inventory, for a missing slot,
      or when the slot holds less than asked; otherwise takes `quantity`
      from the slot and deletes the slot when it reaches 0, keeping the
      other slots in order. */
  function RemoveItemAtIndex(inv: Option<Inventory>, index: int, quantity: int): (r: (bool, Option<Inventory>))
    ensures !r.0 ==> r.1 == inv
    ensures r.0 <==> inv.Some? && 0 <= index < |inv.value.items| && inv.value.items[index].quantity >= quantity
    ensures r.0 ==>
      r.1.Some? && r.1.value.maxSize == inv.value.maxSize
      && Total(r.1.value.items, inv.value.items[index].itemId) == Total(inv.value.items, inv.value.items[index].itemId) - quantity
      && (forall id :: id != inv.value.items[index].itemId ==> Total(r.1.value.items, id) == Total(inv.value.items, id))
      && |r.1.value.items| <= |inv.value.items|
    ensures r.0 && inv.value.items[index].quantity > quantity ==>
      var (it, out) := (inv.value.items, r.1.value.items);
      |out| == |it| && out[index] == Stack(it[index].itemId, it[index].quantity - quantity)
      && forall j :: 0 <= j < |it| && j != index ==> out[j] == it[j]
    ensures r.0 && inv.value.items[index].quantity == quantity ==>
      var (it, out) := (inv.value.items, r.1.value.items);
      |out| == |it| - 1
      && (forall j :: 0 <= j < index ==> out[j] == it[j])
      && (forall j :: index <= j < |out| ==> out[j] == it[j + 1])
  {
    match inv
    case None => (false, inv)
    case Some(v) =>
      if !(0 <= index < |v.items|) then (false, inv)
      else
        var item := v.items[index];
        if item.quantity < quantity then (false, inv)
        else
          var left := item.quantity - quantity;
          if left == 0 then
            forall id ensures Total(v.items[..index] + v.items[index + 1..], id) == Total(v.items, id) - (if id == item.itemId then quantity else 0) {
              TotalRemove(v.items, index, id);
            }
            (true, Some(v.(items := v.items[..index] + v.items[index + 1..])))
          else
            var s := Stack(item.itemId, left);
            forall id ensures Total(v.items[index := s], id) == Total(v.items, id) - (if id == item.itemId then quantity else 0) {
              TotalUpdate(v.items, index, s, id);
            }
            (true, Some(v.(items := v.items[index := s])))
  }

  /** `removeItem`: acts on the first slot holding `itemId`. */
  function RemoveItem(inv: Option<Inventory>, itemId: ItemId, quantity: int): (r: (bool, Option<Inventory>))
    ensures !r.0 ==> r.1 == inv
    ensures r.0 <==>
      inv.Some? && FindIndex(inv.value.items, itemId).Some?
      && inv.value.items[FindIndex(inv.value.items, itemId).value].quantity >= quantity
    ensures r.0 ==> r.1.Some? && Total(r.1.value.items, itemId) == Total(inv.value.items, itemId) - quantity
    ensures r.0 ==> forall id :: id != itemId ==> Total(r.1.value.items, id) == Total(inv.value.items, id)
  {
    match inv
    case None => (false, inv)
    case Some(v) =>
      match FindIndex(v.items, itemId)
      case None => (false, inv)
      case Some(i) => RemoveItemAtIndex(inv, i, quantity)
  }

  /** `hasItems`: every ingredient's first matching slot holds enough. */
  predicate HasItems(inv: Option<Inventory>, ingredients: seq<Stack>)
  {
    inv.Some? && forall k :: 0 <= k < |ingredients| ==> HasEnough(inv.value.items, ingredients[k])
  }

  predicate HasEnough(items: seq<Stack>, need: Stack)
  {
    match FindIndex(items, need.itemId)
    case None => false
    case Some(i) => items[i].quantity >= need.quantity
  }

  /** The ingredient loop of `craftItem`: each ingredient removed in turn,
      results ignored. */
  function Consume(inv: Option<Inventory>, ingredients: seq<Stack>): (r: Option<Inventory>)
    ensures r.Some? <==> inv.Some?
    ensures r.Some? ==> r.value.maxSize == inv.value.maxSize
    decreases |ingredients|
  {
    if |ingredients| == 0 then inv
    else Consume(RemoveItem(inv, ingredients[0].itemId, ingredients[0].quantity).1, ingredients[1..])
  }

  /** `craftItem`: an unknown recipe or missing ingredients fail with no
      change; otherwise the ingredients are consumed and the result is
      added, and the add's outcome is returned (the ingredients are not
      given back when it fails). */
  function CraftItem(inv: Option<Inventory>, recipeId: string): (r: (bool, Option<Inventory>))
    ensures FindRecipe(recipeId).None? ==> r == (false, inv)
    ensures FindRecipe(recipeId).Some? && !HasItems(inv, FindRecipe(recipeId).value.ingredients) ==> r == (false, inv)
  {
    match FindRecipe(recipeId)
    case None => (false, inv)
    case Some(recipe) =>
      if !HasItems(inv, recipe.ingredients) then (false, inv)
      else AddItem(Consume(inv, recipe.ingredients), recipe.result.itemId, recipe.result.quantity)
  }

  predicate DistinctIds(ingredients: seq<Stack>)
  {
    forall i, j :: 0 <= i < j < |ingredients| ==> ingredients[i].itemId != ingredients[j].itemId
  }

  /** Removing one item leaves the first slot of every other item as it was. */
  lemma RemoveKeepsOtherFirstSlots(inv: Option<Inventory>, itemId: ItemId, quantity: int, other: Stack)
    requires other.itemId != itemId
    ensures HasEnough(RemoveItem(inv, itemId, quantity).1.GetOr(Inventory([], 0)).items, other)
        == HasEnough(inv.GetOr(Inventory([], 0)).items, other)
  {
    var r := RemoveItem(inv, itemId, quantity);
    if r.0 {
      var before := inv.value.items;
      var i := FindIndex(before, itemId).value;
      var after := r.1.value.items;
      var id := other.itemId;
      assert r == RemoveItemAtIndex(inv, i, quantity);
      if before[i].quantity > quantity {
        assert forall j :: 0 <= j < |after| ==> after[j].itemId == before[j].itemId;
        match FindIndex(before, id)
        case None =>
        case Some(k) =>
          FirstIndexIs(after, id, k);
      } else {
        assert forall j :: 0 <= j < |after| ==> after[j] == before[if j < i then j else j + 1];
        match FindIndex(before, id)
        case None =>
        case Some(k) =>
          var k' := if k < i then k else k - 1;
          assert after[k'] == before[k];
          FirstIndexIs(after, id, k');
      }
    }
  }

  /** Consuming ingredients with distinct ids that are all present in
      enough quantity takes exactly each ingredient's quantity and leaves
      every other item as it was. */
  lemma {:induction false} ConsumeTakesIngredients(inv: Option<Inventory>, ingredients: seq<Stack>, id: ItemId)
    requires DistinctIds(ingredients) && HasItems(inv, ingredients)
    ensures Consume(inv, ingredients).Some?
    ensures Total(Consume(inv, ingredients).value.items, id)
      == Total(inv.value.items, id) - Need(ingredients, id)
    decreases |ingredients|
  {
    if |ingredients| > 0 {
      var first := ingredients[0];
      var r := RemoveItem(inv, first.itemId, first.quantity);
      assert HasEnough(inv.value.items, first);
      assert r.0;
      var rest := ingredients[1..];
      assert DistinctIds(rest);
      forall k | 0 <= k < |rest| ensures HasEnough(r.1.value.items, rest[k]) {
        assert rest[k] == ingredients[k + 1];
        assert HasEnough(inv.value.items, ingredients[k + 1]);
        RemoveKeepsOtherFirstSlots(inv, first.itemId, first.quantity, rest[k]);
      }
      ConsumeTakesIngredients(r.1, rest, id);
    }
  }

  /** The total quantity of `id` the ingredients ask for. */
  function Need(ingredients: seq<Stack>, id: ItemId): int
  {
    if |ingredients| == 0 then 0
    else (if ingredients[0].itemId == id then ingredients[0].quantity else 0) + Need(ingredients[1..], id)
  }

  /** A successful craft of a catalogue recipe takes the ingredients and
      adds the result; for both recipes the result is not an ingredient. */
  lemma CraftSucceeds(inv: Option<Inventory>, recipeId: string, id: ItemId)
    requires FindRecipe(recipeId).Some?
    requires HasItems(inv, FindRecipe(recipeId).value.ingredients)
    requires CraftItem(inv, recipeId).0
    ensures var recipe := FindRecipe(recipeId).value;
      Total(CraftItem(inv, recipeId).1.value.items, id)
        == Total(inv.value.items, id) - Need(recipe.ingredients, id)
           + (if id == recipe.result.itemId then recipe.result.quantity else 0)
  {
    var recipe := FindRecipe(recipeId).value;
    assert DistinctIds(recipe.ingredients);
    ConsumeTakesIngredients(inv, recipe.ingredients, id);
  }
}
