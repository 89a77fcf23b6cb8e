/** The item catalogue: equipment slots, item definitions, the base item
    table, crafting recipes and `canEquip`. */
module Items {
  import opened Wrappers

  type ItemId = string

  datatype EquipmentSlot = Head | Torso | Arms | Legs | Back | MainHand | OffHand

  /** The string value of each slot. */
  function SlotName(s: EquipmentSlot): (r: string)
    ensures |r| > 0
  {
    match s
    case Head => "HEAD"
    case Torso => "TORSO"
    case Arms => "ARMS"
    case Legs => "LEGS"
    case Back => "BACK"
    case MainHand => "MAIN_HAND"
    case OffHand => "OFF_HAND"
  }

  const AllSlots: seq<EquipmentSlot> := [Head, Torso, Arms, Legs, Back, MainHand, OffHand]

  /** The slot whose string value is `name`, if any. */
  function ParseSlot(name: string): (r: Option<EquipmentSlot>)
    ensures r.Some? ==> SlotName(r.value) == name
  {
    if name == "HEAD" then Some(Head)
    else if name == "TORSO" then Some(Torso)
    else if name == "ARMS" then Some(Arms)
    else if name == "LEGS" then Some(Legs)
    else if name == "BACK" then Some(Back)
    else if name == "MAIN_HAND" then Some(MainHand)
    else if name == "OFF_HAND" then Some(OffHand)
    else None
  }

  /** Each slot is read back from its string value, so the seven values are
      distinct. */
  lemma ParseSlotName(s: EquipmentSlot)
    ensures ParseSlot(SlotName(s)) == Some(s)
    ensures forall t :: SlotName(t) == SlotName(s) ==> t == s
  {
    forall t | SlotName(t) == SlotName(s) ensures t == s {
      assert ParseSlot(SlotName(t)) == ParseSlot(SlotName(s));
    }
  }

  /** Optional item bonuses; an absent bonus is 0, which adds nothing. */
  datatype ItemStats = ItemStats(
    hp: real, maxHp: real, mana: real, maxMana: real, stamina: real,
    maxStamina: real, moveSpeed: real, attackPower: real, defense: real,
    strength: real, dexterity: real, wisdom: real, faith: real, luck: real)

  const NoStats := ItemStats(0.0, 0.0, 0.0, 0.0, 0.0, 0.0, 0.0, 0.0, 0.0, 0.0, 0.0, 0.0, 0.0, 0.0)

  datatype Item = Item(
    id: ItemId, name: string, description: string, stackable: bool,
    maxStack: Option<int>, slot: Option<EquipmentSlot>, stats: Option<ItemStats>)

  /** The base item table. */
  const ITEMS: map<ItemId, Item> := map[
    "wood" := Item("wood", "Bois", "Un morceau de bois.", true, Some(99), None, None),
    "iron" := Item("iron", "Fer", "Un morceau de minerai de fer.", true, Some(99), None, None),
    "sword" := Item("sword", "Épée en fer", "Une épée tranchante en fer.", false, None,
      Some(MainHand), Some(NoStats.(attackPower := 10.0))),
    "shield" := Item("shield", "Bouclier en bois", "Un bouclier simple en bois.", false, None,
      Some(OffHand), Some(NoStats.(defense := 5.0, maxHp := 20.0))),
    "potion" := Item("potion", "Potion", "Une potion de soin.", true, Some(10), None, None)]

  datatype Stack = Stack(itemId: ItemId, quantity: int)

  datatype Recipe = Recipe(id: string, ingredients: seq<Stack>, result: Stack)

  const RECIPES: seq<Recipe> := [
    Recipe("craft_sword", [Stack("wood", 1), Stack("iron", 1)], Stack("sword", 1)),
    Recipe("craft_shield", [Stack("wood", 2)], Stack("shield", 1))]

  /** `canEquip`: the item's own slot is the one asked for. */
  predicate CanEquip(item: Item, slot: EquipmentSlot)
  {
    item.slot == Some(slot)
  }

  /** The table's materials stack and fit no slot; the sword and the shield
      fit exactly their own hand. */
  lemma CatalogueFacts()
    ensures forall id :: id in {"wood", "iron", "potion"} ==> ITEMS[id].stackable && ITEMS[id].slot.None?
    ensures forall s :: CanEquip(ITEMS["sword"], s) <==> s == MainHand
    ensures forall s :: CanEquip(ITEMS["shield"], s) <==> s == OffHand
    ensures forall id, s :: id in {"wood", "iron", "potion"} ==> !CanEquip(ITEMS[id], s)
    ensures ITEMS["sword"].stats == Some(NoStats.(attackPower := 10.0))
    ensures ITEMS["shield"].stats == Some(NoStats.(defense := 5.0, maxHp := 20.0))
  {
  }

  /** `RECIPES.find(r => r.id === id)`. */
  function FindRecipe(id: string): (r: Option<Recipe>)
    ensures r.Some? ==> r.value in RECIPES && r.value.id == id
    ensures r.None? ==> forall i :: 0 <= i < |RECIPES| ==> RECIPES[i].id != id
  {
    if RECIPES[0].id == id then Some(RECIPES[0])
    else if RECIPES[1].id == id then Some(RECIPES[1])
    else None
  }
}
