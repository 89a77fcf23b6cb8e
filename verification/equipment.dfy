/** Equipping and unequipping items and recomputing an entity's stats from
    what it wears. An entity without an Equipment or Stats component is
    `None`. The catalogue of Arthurian weapons is passed in as `weapons`. */
module Equipment {
  import opened Wrappers
  import opened Items

  /** Slot contents: a slot key may be missing, hold null (`None`) or an
      item id. */
  datatype Equipment = Equipment(slots: map<EquipmentSlot, Option<ItemId>>)

  datatype Stats = Stats(
    hp: real, maxHp: real, mana: real, maxMana: real, stamina: real,
    maxStamina: real, moveSpeed: real, attackPower: real, defense: real,
    strength: real, dexterity: real, wisdom: real, faith: real, luck: real)

  /** `getItem`: the Arthurian weapon with that id, else the base item. */
  function GetItem(weapons: map<ItemId, Item>, id: ItemId): (r: Option<Item>)
    ensures id in weapons ==> r == Some(weapons[id])
    ensures id !in weapons && id in ITEMS ==> r == Some(ITEMS[id])
    ensures id !in weapons && id !in ITEMS ==> r.None?
  {
    if id in weapons then Some(weapons[id])
    else if id in ITEMS then Some(ITEMS[id])
    else None
  }

  /** What one item's stats add: its `stamina` bonus raises maxStamina;
      its `hp`, `mana` and `maxStamina` entries add nothing. */
  function ItemBonus(s: ItemStats): (b: Stats)
    ensures b.hp == 0.0 && b.mana == 0.0 && b.stamina == 0.0
    ensures b.maxStamina == s.stamina
  {
    Stats(0.0, s.maxHp, 0.0, s.maxMana, 0.0, s.stamina, s.moveSpeed, s.attackPower,
      s.defense, s.strength, s.dexterity, s.wisdom, s.faith, s.luck)
  }

  /** An item's own `hp`, `mana` and `maxStamina` entries change nothing. */
  lemma ItemBonusIgnoresPools(s: ItemStats, hp: real, mana: real, maxStamina: real)
    ensures ItemBonus(s) == ItemBonus(s.(hp := hp, mana := mana, maxStamina := maxStamina))
  {
  }

  function Plus(a: Stats, b: Stats): Stats
  {
    Stats(a.hp + b.hp, a.maxHp + b.maxHp, a.mana + b.mana, a.maxMana + b.maxMana,
      a.stamina + b.stamina, a.maxStamina + b.maxStamina, a.moveSpeed + b.moveSpeed,
      a.attackPower + b.attackPower, a.defense + b.defense, a.strength + b.strength,
      a.dexterity + b.dexterity, a.wisdom + b.wisdom, a.faith + b.faith, a.luck + b.luck)
  }

  const Zero := Stats(0.0, 0.0, 0.0, 0.0, 0.0, 0.0, 0.0, 0.0, 0.0, 0.0, 0.0, 0.0, 0.0, 0.0)

  /** The fixed base values every refresh starts from. */
  const Base := Stats(0.0, 100.0, 0.0, 100.0, 0.0, 100.0, 5.0, 5.0, 0.0, 10.0, 10.0, 10.0, 10.0, 10.0)

  /** The bonus of whatever occupies one slot: nothing for a missing key,
      null, an empty id, an unknown item or an item without stats. */
  function SlotBonus(eq: Equipment, weapons: map<ItemId, Item>, slot: EquipmentSlot): Stats
  {
    if slot in eq.slots && eq.slots[slot].Some? && eq.slots[slot].value != "" then
      match GetItem(weapons, eq.slots[slot].value)
      case Some(item) => if item.stats.Some? then ItemBonus(item.stats.value) else Zero
      case None => Zero
    else Zero
  }

  /** The bonuses of the slots listed, summed. Addition of reals does not
      depend on order, so the slots are taken in declaration order. */
  function SumBonus(eq: Equipment, weapons: map<ItemId, Item>, slots: seq<EquipmentSlot>): Stats
  {
    if |slots| == 0 then Zero
    else Plus(SlotBonus(eq, weapons, slots[0]), SumBonus(eq, weapons, slots[1..]))
  }

  /** The maxima and ratings of a stat block, its current pools set to 0. */
  function Ratings(s: Stats): Stats
  {
    s.(hp := 0.0, mana := 0.0, stamina := 0.0)
  }

  function Min(a: real, b: real): real
  {
    if a <= b then a else b
  }

  /** `refreshStats`: without both components nothing changes. Otherwise
      every maximum and rating is its base value plus the worn items'
      bonuses, and hp, mana and stamina are lowered to their maxima when
      above them. */
  function RefreshStats(stats: Option<Stats>, eq: Option<Equipment>, weapons: map<ItemId, Item>): (r: Option<Stats>)
    ensures stats.None? || eq.None? ==> r == stats
    ensures stats.Some? && eq.Some? ==>
      r.Some? && r.value.hp <= r.value.maxHp && r.value.mana <= r.value.maxMana && r.value.stamina <= r.value.maxStamina
    ensures stats.Some? && eq.Some? ==>
      r.value.hp == Min(stats.value.hp, r.value.maxHp)
      && r.value.mana == Min(stats.value.mana, r.value.maxMana)
      && r.value.stamina == Min(stats.value.stamina, r.value.maxStamina)
    ensures stats.Some? && eq.Some? ==>
      Ratings(r.value) == Ratings(Plus(Base, SumBonus(eq.value, weapons, AllSlots)))
  {
    if stats.None? || eq.None? then stats
    else
      var s := stats.value;
      var t := Plus(Base, SumBonus(eq.value, weapons, AllSlots));
      Some(s.(maxHp := t.maxHp, attackPower := t.attackPower, defense := t.defense,
              maxMana := t.maxMana, maxStamina := t.maxStamina, moveSpeed := t.moveSpeed,
              strength := t.strength, dexterity := t.dexterity, wisdom := t.wisdom,
              faith := t.faith, luck := t.luck,
              hp := Min(s.hp, t.maxHp), mana := Min(s.mana, t.maxMana), stamina := Min(s.stamina, t.maxStamina)))
  }

  /** Refreshing twice is refreshing once. */
  lemma RefreshIdempotent(stats: Option<Stats>, eq: Option<Equipment>, weapons: map<ItemId, Item>)
    ensures RefreshStats(RefreshStats(stats, eq, weapons), eq, weapons) == RefreshStats(stats, eq, weapons)
  {
  }

  /** Every maximum and rating after a refresh is decided by the equipment
      alone, whatever the stats were before. */
  lemma RefreshIgnoresOldMaxima(s1: Stats, s2: Stats, eq: Equipment, weapons: map<ItemId, Item>)
    ensures var a := RefreshStats(Some(s1), Some(eq), weapons).value;
      var b := RefreshStats(Some(s2), Some(eq), weapons).value;
      a.maxHp == b.maxHp && a.maxMana == b.maxMana && a.maxStamina == b.maxStamina
      && a.attackPower == b.attackPower && a.defense == b.defense && a.moveSpeed == b.moveSpeed
      && a.strength == b.strength && a.dexterity == b.dexterity && a.wisdom == b.wisdom
      && a.faith == b.faith && a.luck == b.luck
  {
  }

  /** With nothing worn the stats are the base values: 100 max hp, mana and
      stamina, attack 5, defense 0, speed 5 and 10 in every Arthurian
      rating. */
  lemma BareRefreshIsBase(s: Stats, weapons: map<ItemId, Item>)
    ensures var r := RefreshStats(Some(s), Some(Equipment(map[])), weapons).value;
      r.maxHp == 100.0 && r.maxMana == 100.0 && r.maxStamina == 100.0 && r.attackPower == 5.0
      && r.defense == 0.0 && r.moveSpeed == 5.0 && r.strength == 10.0 && r.dexterity == 10.0
      && r.wisdom == 10.0 && r.faith == 10.0 && r.luck == 10.0
  {
    SumBonusEmpty(Equipment(map[]), weapons, AllSlots);
  }

  lemma {:induction false} SumBonusEmpty(e: Equipment, weapons: map<ItemId, Item>, slots: seq<EquipmentSlot>)
    requires e.slots == map[]
    ensures SumBonus(e, weapons, slots) == Zero
  {
    if |slots| > 0 {
      SumBonusEmpty(e, weapons, slots[1..]);
    }
  }

  /** `equipItem`: fails (null, no change) without equipment, for an
      unknown item, or for an item with no slot. Otherwise the item goes
      into its own slot, stats are refreshed and the previous occupant is
      returned. */
  function EquipItem(eq: Option<Equipment>, stats: Option<Stats>, itemId: ItemId, weapons: map<ItemId, Item>)
    : (r: (Option<ItemId>, Option<Equipment>, Option<Stats>))
    ensures eq.None? || GetItem(weapons, itemId).None? || GetItem(weapons, itemId).value.slot.None? ==>
      r == (None, eq, stats)
    ensures eq.Some? && GetItem(weapons, itemId).Some? && GetItem(weapons, itemId).value.slot.Some? ==>
      var slot := GetItem(weapons, itemId).value.slot.value;
      CanEquip(GetItem(weapons, itemId).value, slot)
      && r.1.Some? && r.1.value.slots == eq.value.slots[slot := Some(itemId)]
      && r.0 == (if slot in eq.value.slots then eq.value.slots[slot] else None)
      && r.2 == RefreshStats(stats, r.1, weapons)
  {
    match (eq, GetItem(weapons, itemId))
    case (Some(e), Some(item)) =>
      if item.slot.None? then (None, eq, stats)
      else
        var slot := item.slot.value;
        var previous := if slot in e.slots then e.slots[slot] else None;
        var e' := Equipment(e.slots[slot := Some(itemId)]);
        (previous, Some(e'), RefreshStats(stats, Some(e'), weapons))
    case _ => (None, eq, stats)
  }

  /** `unequipItem`: fails without equipment; otherwise the slot becomes
      null, stats are refreshed and the previous occupant is returned. */
  function UnequipItem(eq: Option<Equipment>, stats: Option<Stats>, slot: EquipmentSlot, weapons: map<ItemId, Item>)
    : (r: (Option<ItemId>, Option<Equipment>, Option<Stats>))
    ensures eq.None? ==> r == (None, eq, stats)
    ensures eq.Some? ==>
      r.1 == Some(Equipment(eq.value.slots[slot := None]))
      && r.0 == (if slot in eq.value.slots then eq.value.slots[slot] else None)
      && r.2 == RefreshStats(stats, r.1, weapons)
  {
    match eq
    case None => (None, eq, stats)
    case Some(e) =>
      var previous := if slot in e.slots then e.slots[slot] else None;
      var e' := Equipment(e.slots[slot := None]);
      (previous, Some(e'), RefreshStats(stats, Some(e'), weapons))
  }

  /** Equipping an item and then unequipping its slot hands the item back
      and leaves the slot empty, whatever was there before. */
  lemma EquipThenUnequip(eq: Equipment, stats: Option<Stats>, itemId: ItemId, weapons: map<ItemId, Item>)
    requires GetItem(weapons, itemId).Some? && GetItem(weapons, itemId).value.slot.Some?
    ensures var slot := GetItem(weapons, itemId).value.slot.value;
      var (_, e1, s1) := EquipItem(Some(eq), stats, itemId, weapons);
      var (back, e2, _) := UnequipItem(e1, s1, slot, weapons);
      back == Some(itemId) && e2 == Some(Equipment(eq.slots[slot := None]))
  {
    var slot := GetItem(weapons, itemId).value.slot.value;
    var r1 := EquipItem(Some(eq), stats, itemId, weapons);
    assert r1.1 == Some(Equipment(eq.slots[slot := Some(itemId)]));
    var r2 := UnequipItem(r1.1, r1.2, slot, weapons);
    assert r2.0 == Some(itemId);
    assert eq.slots[slot := Some(itemId)][slot := None] == eq.slots[slot := None];
  }

  /** Changing one slot that occurs once in the list changes the sum by
      the difference of that slot's bonuses. */
  lemma {:induction false} SumBonusUpdate(eq: Equipment, weapons: map<ItemId, Item>, slots: seq<EquipmentSlot>,
                                          slot: EquipmentSlot, v: Option<ItemId>)
    requires slot in slots
    requires forall i, j :: 0 <= i < j < |slots| ==> slots[i] != slots[j]
    ensures var eq' := Equipment(eq.slots[slot := v]);
      Plus(SumBonus(eq', weapons, slots), SlotBonus(eq, weapons, slot))
        == Plus(SumBonus(eq, weapons, slots), SlotBonus(eq', weapons, slot))
  {
    var eq' := Equipment(eq.slots[slot := v]);
    var b, b' := SlotBonus(eq, weapons, slot), SlotBonus(eq', weapons, slot);
    var r, r' := SumBonus(eq, weapons, slots[1..]), SumBonus(eq', weapons, slots[1..]);
    if slots[0] == slot {
      assert slot !in slots[1..] by {
        forall i | 0 <= i < |slots[1..]| ensures slots[1..][i] != slot {
          assert slots[1..][i] == slots[i + 1];
        }
      }
      SumBonusOther(eq, weapons, slots[1..], slot, v);
      PlusSwap(b', r, b);
    } else {
      var c := SlotBonus(eq, weapons, slots[0]);
      assert SlotBonus(eq', weapons, slots[0]) == c;
      assert forall i, j :: 0 <= i < j < |slots[1..]| ==> slots[1..][i] != slots[1..][j] by {
        forall i, j | 0 <= i < j < |slots[1..]| ensures slots[1..][i] != slots[1..][j] {
          assert slots[1..][i] == slots[i + 1] && slots[1..][j] == slots[j + 1];
        }
      }
      SumBonusUpdate(eq, weapons, slots[1..], slot, v);
      PlusAssoc(c, r', b);
      PlusAssoc(c, r, b');
    }
  }

  lemma PlusSwap(x: Stats, y: Stats, z: Stats)
    ensures Plus(Plus(x, y), z) == Plus(Plus(z, y), x)
  {
  }

  lemma PlusAssoc(x: Stats, y: Stats, z: Stats)
    ensures Plus(Plus(x, y), z) == Plus(x, Plus(y, z))
  {
  }

  /** Every slot is listed once in `AllSlots`. */
  lemma AllSlotsListed(slot: EquipmentSlot)
    ensures slot in AllSlots
    ensures forall i, j :: 0 <= i < j < |AllSlots| ==> AllSlots[i] != AllSlots[j]
  {
    match slot
    case Head => assert AllSlots[0] == slot;
    case Torso => assert AllSlots[1] == slot;
    case Arms => assert AllSlots[2] == slot;
    case Legs => assert AllSlots[3] == slot;
    case Back => assert AllSlots[4] == slot;
    case MainHand => assert AllSlots[5] == slot;
    case OffHand => assert AllSlots[6] == slot;
  }

  /** Slots outside the list do not affect its sum. */
  lemma {:induction false} SumBonusOther(eq: Equipment, weapons: map<ItemId, Item>, slots: seq<EquipmentSlot>,
                                         slot: EquipmentSlot, v: Option<ItemId>)
    requires slot !in slots
    ensures SumBonus(Equipment(eq.slots[slot := v]), weapons, slots) == SumBonus(eq, weapons, slots)
  {
    if |slots| > 0 {
      var eq' := Equipment(eq.slots[slot := v]);
      assert SlotBonus(eq', weapons, slots[0]) == SlotBonus(eq, weapons, slots[0]);
      SumBonusOther(eq, weapons, slots[1..], slot, v);
    }
  }

  /** Equipping an item with stats into an empty slot raises every maximum
      and rating by exactly that item's bonus. */
  lemma EquipAddsBonus(eq: Equipment, s: Stats, itemId: ItemId, weapons: map<ItemId, Item>)
    requires GetItem(weapons, itemId).Some? && GetItem(weapons, itemId).value.slot.Some?
    requires GetItem(weapons, itemId).value.stats.Some? && itemId != ""
    requires var slot := GetItem(weapons, itemId).value.slot.value;
      slot !in eq.slots || eq.slots[slot].None?
    ensures var item := GetItem(weapons, itemId).value;
      var before := RefreshStats(Some(s), Some(eq), weapons).value;
      var after := EquipItem(Some(eq), Some(s), itemId, weapons).2.value;
      Ratings(after) == Plus(Ratings(before), ItemBonus(item.stats.value))
  {
    var item := GetItem(weapons, itemId).value;
    var slot := item.slot.value;
    var eq' := Equipment(eq.slots[slot := Some(itemId)]);
    assert SlotBonus(eq, weapons, slot) == Zero;
    assert SlotBonus(eq', weapons, slot) == ItemBonus(item.stats.value);
    AllSlotsListed(slot);
    SumBonusUpdate(eq, weapons, AllSlots, slot, Some(itemId));
    var r := EquipItem(Some(eq), Some(s), itemId, weapons);
    assert r.2 == RefreshStats(Some(s), Some(eq'), weapons);
    assert Ratings(r.2.value) == Ratings(Plus(Base, SumBonus(eq', weapons, AllSlots)));
  }
}
