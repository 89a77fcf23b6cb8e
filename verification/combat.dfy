/** Ability use in the shared combat system: cooldowns that run down with
    time, casts that complete after their cast time, and the heal and
    damage rules with their clamps. An entity is a string id; the combat
    state and stats components are two maps from entity to component. The
    optional event callback is modelled by returning the events in the
    order they would be delivered. */
module Combat {
  import opened Wrappers
  import opened JsCollections
  import Equipment

  type Entity = string
  type Stats = Equipment.Stats

  datatype AbilityType = Melee | Spell | Heal | Block

  datatype Ability = Ability(
    id: string, name: string, kind: AbilityType, castTime: real,
    cooldown: real, manaCost: real, staminaCost: real, range: real, power: real)

  /** The ability table: the block ability's power is the damage factor
      applied to a blocking target. */
  const ABILITIES: map<string, Ability> := map[
    "melee_attack" := Ability("melee_attack", "Attaque à l'épée", Melee, 0.0, 0.8, 0.0, 10.0, 3.0, 15.0),
    "block" := Ability("block", "Blocage au bouclier", Block, 0.0, 0.0, 0.0, 5.0, 0.0, 0.5),
    "fireball" := Ability("fireball", "Fireball", Spell, 2.0, 0.0, 20.0, 0.0, 300.0, 25.0),
    "heal" := Ability("heal", "Heal", Heal, 2.5, 5.0, 30.0, 0.0, 200.0, 40.0)]

  /** A cast in progress; `targetId` may be null. */
  datatype Cast = Cast(abilityId: string, remainingTime: real, totalTime: real, targetId: Option<Entity>)

  datatype CombatState = CombatState(
    cooldowns: Map<string, real>, casting: Option<Cast>, isBlocking: bool, lastAttackTime: int)

  datatype CombatEvent = CombatEvent(kind: string, sourceId: Entity, targetId: Entity, abilityId: string, value: real)

  datatype Fighters = Fighters(combat: map<Entity, CombatState>, stats: map<Entity, Stats>)

  /** Every ability in the table has non-negative costs, cooldown and power. */
  lemma AbilitiesNonNegative(id: string)
    requires id in ABILITIES
    ensures ABILITIES[id].cooldown >= 0.0 && ABILITIES[id].castTime >= 0.0
    ensures ABILITIES[id].manaCost >= 0.0 && ABILITIES[id].staminaCost >= 0.0
    ensures ABILITIES[id].power >= 0.0
    ensures ABILITIES[id].id == id
  {
  }

  function Max0(x: real): (r: real)
    ensures r >= 0.0 && r >= x
    ensures r == x || r == 0.0
  {
    if x < 0.0 then 0.0 else x
  }

  /** A JavaScript entity id used as a condition: null and "" are false. */
  predicate Truthy(t: Option<Entity>)
  {
    t.Some? && t.value != ""
  }

  /** The cooldown that blocks a use: a missing entry counts as 0. */
  function CurrentCooldown(cs: CombatState, id: string): (r: real)
    ensures id !in cs.cooldowns.entries ==> r == 0.0
    ensures id in cs.cooldowns.entries && cs.cooldowns.entries[id] > 0.0 ==> r == cs.cooldowns.entries[id]
    ensures r >= 0.0 || r == cs.cooldowns.entries[id]
  {
    if id in cs.cooldowns.entries then cs.cooldowns.entries[id] else 0.0
  }

  /** One tick of every cooldown: a positive cooldown drops by dt but not
      below 0; a cooldown already at or below 0 is left alone. The key
      order does not change. */
  function TickCooldowns(m: Map<string, real>, dt: real): (r: Map<string, real>)
    ensures r.order == m.order
    ensures r.entries.Keys == m.entries.Keys
    ensures forall k :: k in m.entries && m.entries[k] > 0.0 ==> r.entries[k] == Max0(m.entries[k] - dt)
    ensures forall k :: k in m.entries && m.entries[k] <= 0.0 ==> r.entries[k] == m.entries[k]
    ensures m.Valid() ==> r.Valid()
  {
    Map(m.order, map k | k in m.entries :: if m.entries[k] > 0.0 then Max0(m.entries[k] - dt) else m.entries[k])
  }

  predicate NonNegative(m: Map<string, real>)
  {
    forall k :: k in m.entries ==> m.entries[k] >= 0.0
  }

  /** Ticking keeps cooldowns non-negative and, for a forward step, never
      raises one. */
  lemma TickCooldownsBounds(m: Map<string, real>, dt: real)
    ensures NonNegative(m) ==> NonNegative(TickCooldowns(m, dt))
    ensures dt >= 0.0 ==> forall k :: k in m.entries ==> TickCooldowns(m, dt).entries[k] <= m.entries[k]
  {
  }

  /** Two forward ticks have the effect of one tick by their sum. */
  lemma TickCooldownsCompose(m: Map<string, real>, a: real, b: real)
    requires a >= 0.0 && b >= 0.0
    ensures TickCooldowns(TickCooldowns(m, a), b) == TickCooldowns(m, a + b)
  {
    var lhs := TickCooldowns(TickCooldowns(m, a), b);
    var rhs := TickCooldowns(m, a + b);
    forall k | k in m.entries
      ensures lhs.entries[k] == rhs.entries[k]
    {
    }
    assert lhs.entries == rhs.entries;
  }

  /** The target an ability lands on: a heal without a target heals the
      caster. */
  function EffectiveTarget(ability: Ability, source: Entity, target: Option<Entity>): (r: Option<Entity>)
    ensures ability.kind == Heal && !Truthy(target) ==> r == Some(source)
    ensures !(ability.kind == Heal && !Truthy(target)) ==> r == target
  {
    if ability.kind == Heal && !Truthy(target) then Some(source) else target
  }

  /** The damage an ability deals to `target`: its power, scaled by the
      block ability's power when the target is blocking. */
  function Damage(w: Fighters, ability: Ability, target: Entity): (d: real)
    ensures target in w.combat && w.combat[target].isBlocking ==> d == ability.power * 0.5
    ensures !(target in w.combat && w.combat[target].isBlocking) ==> d == ability.power
    ensures ability.power >= 0.0 ==> 0.0 <= d <= ability.power
  {
    if target in w.combat && w.combat[target].isBlocking then ability.power * ABILITIES["block"].power
    else ability.power
  }

  /** `executeAbility`: nothing happens for an unknown ability, a falsy
      target or a target without stats. A heal raises hp up to maxHp;
      anything else lowers hp by the damage, not below 0, and reports the
      damage, then a death when hp reaches 0. Only the target's hp changes. */
  function Execute(w: Fighters, source: Entity, abilityId: string, target: Option<Entity>): (r: (Fighters, seq<CombatEvent>))
    ensures abilityId !in ABILITIES ==> r == (w, [])
    ensures abilityId in ABILITIES && !Truthy(EffectiveTarget(ABILITIES[abilityId], source, target)) ==> r == (w, [])
    ensures r.0.combat == w.combat
    ensures r.0.stats.Keys == w.stats.Keys
    ensures abilityId in ABILITIES ==>
      forall e :: e in w.stats && Some(e) != EffectiveTarget(ABILITIES[abilityId], source, target) ==> r.0.stats[e] == w.stats[e]
    ensures abilityId !in ABILITIES ==> r.0.stats == w.stats
    ensures forall e :: e in w.stats ==> r.0.stats[e] == w.stats[e].(hp := r.0.stats[e].hp)
    ensures abilityId in ABILITIES ==> Execution(w, source, ABILITIES[abilityId], EffectiveTarget(ABILITIES[abilityId], source, target), r)
  {
    if abilityId !in ABILITIES then (w, [])
    else
      var ability := ABILITIES[abilityId];
      var t := EffectiveTarget(ability, source, target);
      if !Truthy(t) || t.value !in w.stats then (w, [])
      else
        var s := w.stats[t.value];
        if ability.kind == Heal then
          var hp := Equipment.Min(s.maxHp, s.hp + ability.power);
          (w.(stats := w.stats[t.value := s.(hp := hp)]),
           [CombatEvent("heal", source, t.value, abilityId, ability.power)])
        else
          var d := Damage(w, ability, t.value);
          var hp := Max0(s.hp - d);
          var ev := [CombatEvent("damage", source, t.value, abilityId, d)];
          (w.(stats := w.stats[t.value := s.(hp := hp)]),
           if hp <= 0.0 then ev + [CombatEvent("death", source, t.value, abilityId, 0.0)] else ev)
  }

  /** What an execution on the effective target `t` does, stated case by
      case: the heal clamp, the damage clamp and the events. */
  ghost predicate Execution(w: Fighters, source: Entity, ability: Ability, t: Option<Entity>, r: (Fighters, seq<CombatEvent>))
  {
    if !Truthy(t) || t.value !in w.stats then r == (w, [])
    else
      var s := w.stats[t.value];
      t.value in r.0.stats &&
      var hp := r.0.stats[t.value].hp;
      if ability.kind == Heal then
        hp == Equipment.Min(s.maxHp, s.hp + ability.power)
        && r.1 == [CombatEvent("heal", source, t.value, ability.id, ability.power)]
      else
        var d := Damage(w, ability, t.value);
        hp == Max0(s.hp - d)
        && |r.1| >= 1 && r.1[0] == CombatEvent("damage", source, t.value, ability.id, d)
        && (hp <= 0.0 <==> |r.1| == 2)
        && (|r.1| == 2 ==> r.1[1] == CombatEvent("death", source, t.value, ability.id, 0.0))
        && |r.1| <= 2
  }

  /** Every entity's hp lies between 0 and its maxHp. */
  ghost predicate HpInRange(w: Fighters)
  {
    forall e :: e in w.stats ==> 0.0 <= w.stats[e].hp <= w.stats[e].maxHp
  }

  /** Heals and damage keep every hp between 0 and maxHp. */
  lemma ExecuteKeepsHpInRange(w: Fighters, source: Entity, abilityId: string, target: Option<Entity>)
    requires HpInRange(w)
    ensures HpInRange(Execute(w, source, abilityId, target).0)
  {
    if abilityId in ABILITIES {
      AbilitiesNonNegative(abilityId);
    }
  }

  /** A blocking target takes half the damage a non-blocking one would. */
  lemma BlockHalvesDamage(w: Fighters, abilityId: string, target: Entity, blocking: bool)
    requires abilityId in ABILITIES && target in w.combat
    ensures Damage(w.(combat := w.combat[target := w.combat[target].(isBlocking := true)]), ABILITIES[abilityId], target)
      == Damage(w.(combat := w.combat[target := w.combat[target].(isBlocking := false)]), ABILITIES[abilityId], target) * 0.5
  {
  }

  /** The reasons `useAbility` refuses, in the order the source checks
      them: a missing component or ability, a running cooldown, a cast in
      progress, or too little mana or stamina. */
  predicate CanUse(w: Fighters, e: Entity, abilityId: string)
  {
    e in w.combat && e in w.stats && abilityId in ABILITIES
    && !(CurrentCooldown(w.combat[e], abilityId) > 0.0)
    && w.combat[e].casting.None?
    && !(w.stats[e].mana < ABILITIES[abilityId].manaCost || w.stats[e].stamina < ABILITIES[abilityId].staminaCost)
  }

  /** `useAbility`: on success the costs are paid, the ability either
      starts casting or executes at once, its cooldown is set and a melee
      attack records `now` as the last attack time. */
  function UseAbility(w: Fighters, e: Entity, abilityId: string, target: Option<Entity>, now: int): (r: (bool, Fighters, seq<CombatEvent>))
    ensures r.0 <==> CanUse(w, e, abilityId)
    ensures !r.0 ==> r.1 == w && r.2 == []
    ensures r.0 ==> UseEffect(w, e, ABILITIES[abilityId], target, now, r.1, r.2)
  {
    if !CanUse(w, e, abilityId) then (false, w, [])
    else
      var ability := ABILITIES[abilityId];
      var s := w.stats[e];
      var paid := w.(stats := w.stats[e := s.(mana := s.mana - ability.manaCost, stamina := s.stamina - ability.staminaCost)]);
      var cs := w.combat[e];
      var (after, events) :=
        if ability.castTime > 0.0 then
          (paid.(combat := paid.combat[e := cs.(casting := Some(Cast(abilityId, ability.castTime, ability.castTime, target)))]), [])
        else Execute(paid, e, abilityId, target);
      var cs2 := after.combat[e];
      var cs3 := cs2.(cooldowns := cs2.cooldowns.Set(abilityId, ability.cooldown));
      var cs4 := if ability.id == "melee_attack" then cs3.(lastAttackTime := now) else cs3;
      (true, after.(combat := after.combat[e := cs4]), events)
  }

  /** The effect of a successful use on the caster: mana and stamina drop
      by the costs, the cooldown holds the ability's cooldown, and either a
      fresh cast is recorded (and nothing else happens yet) or the ability
      has executed on the paid-up world. */
  ghost predicate UseEffect(w: Fighters, e: Entity, ability: Ability, target: Option<Entity>, now: int, w2: Fighters, events: seq<CombatEvent>)
    requires e in w.combat && e in w.stats
  {
    var s := w.stats[e];
    var paid := w.(stats := w.stats[e := s.(mana := s.mana - ability.manaCost, stamina := s.stamina - ability.staminaCost)]);
    e in w2.combat && e in w2.stats
    && w2.stats[e].mana == s.mana - ability.manaCost
    && w2.stats[e].stamina == s.stamina - ability.staminaCost
    && w2.combat[e].cooldowns.Get(ability.id) == Some(ability.cooldown)
    && w2.combat[e].isBlocking == w.combat[e].isBlocking
    && w2.combat[e].lastAttackTime == (if ability.id == "melee_attack" then now else w.combat[e].lastAttackTime)
    && w2.combat.Keys == w.combat.Keys
    && (forall x :: x in w.combat && x != e ==> w2.combat[x] == w.combat[x])
    && (ability.castTime > 0.0 ==>
          w2.stats == paid.stats && events == []
          && w2.combat[e].casting == Some(Cast(ability.id, ability.castTime, ability.castTime, target)))
    && (ability.castTime <= 0.0 ==>
          (w2.stats, events) == (Execute(paid, e, ability.id, target).0.stats, Execute(paid, e, ability.id, target).1)
          && w2.combat[e].casting.None?)
  }

  /** Paying the costs leaves mana and stamina non-negative. */
  lemma UseKeepsPoolsNonNegative(w: Fighters, e: Entity, abilityId: string, target: Option<Entity>, now: int)
    requires e in w.stats && w.stats[e].mana >= 0.0 && w.stats[e].stamina >= 0.0
    requires UseAbility(w, e, abilityId, target, now).0
    ensures UseAbility(w, e, abilityId, target, now).1.stats[e].mana >= 0.0
    ensures UseAbility(w, e, abilityId, target, now).1.stats[e].stamina >= 0.0
  {
  }

  /** Right after a successful use, the same ability cannot be used again
      while it has a cooldown or a cast time. */
  lemma NoImmediateReuse(w: Fighters, e: Entity, abilityId: string, target: Option<Entity>, now: int)
    requires UseAbility(w, e, abilityId, target, now).0
    requires ABILITIES[abilityId].cooldown > 0.0 || ABILITIES[abilityId].castTime > 0.0
    ensures !UseAbility(UseAbility(w, e, abilityId, target, now).1, e, abilityId, target, now).0
  {
    var w2 := UseAbility(w, e, abilityId, target, now).1;
    AbilitiesNonNegative(abilityId);
    assert w2.combat[e].cooldowns.Get(abilityId) == Some(ABILITIES[abilityId].cooldown);
  }

  /** One entity's share of `update`: its cooldowns tick, and a running
      cast loses dt; a cast at or below 0 executes once and is cleared. */
  function TickEntity(w: Fighters, e: Entity, dt: real): (r: (Fighters, seq<CombatEvent>))
    ensures e !in w.combat ==> r == (w, [])
    ensures r.0.combat.Keys == w.combat.Keys
    ensures r.0.stats.Keys == w.stats.Keys
    ensures forall x :: x in w.combat && x != e ==> r.0.combat[x] == w.combat[x]
    ensures e in w.combat ==> r.0.combat[e].cooldowns == TickCooldowns(w.combat[e].cooldowns, dt)
    ensures e in w.combat && w.combat[e].casting.None? ==> r == (w.(combat := r.0.combat), [])
    ensures e in w.combat && w.combat[e].casting.Some? ==>
      var c := w.combat[e].casting.value;
      if c.remainingTime - dt <= 0.0 then
        r.0.combat[e].casting.None?
        && (r.0.stats, r.1) == (Execute(w, e, c.abilityId, c.targetId).0.stats, Execute(w, e, c.abilityId, c.targetId).1)
      else
        r.0.combat[e].casting == Some(c.(remainingTime := c.remainingTime - dt)) && r.0.stats == w.stats && r.1 == []
  {
    if e !in w.combat then (w, [])
    else
      var cs := w.combat[e].(cooldowns := TickCooldowns(w.combat[e].cooldowns, dt));
      match cs.casting
      case None => (w.(combat := w.combat[e := cs]), [])
      case Some(c) =>
        var left := c.remainingTime - dt;
        if left <= 0.0 then
          var cleared := w.(combat := w.combat[e := cs.(casting := None)]);
          ExecuteSameStats(w, cleared, e, c.abilityId, c.targetId);
          Execute(cleared, e, c.abilityId, c.targetId)
        else (w.(combat := w.combat[e := cs.(casting := Some(c.(remainingTime := left)))]), [])
  }

  /** Execution reads the combat states only for the target's blocking
      flag, so changing a state's cooldowns or cast does not matter. */
  lemma ExecuteSameStats(w: Fighters, w2: Fighters, e: Entity, abilityId: string, target: Option<Entity>)
    requires w2.stats == w.stats && w2.combat.Keys == w.combat.Keys
    requires forall x :: x in w.combat ==> w2.combat[x].isBlocking == w.combat[x].isBlocking
    ensures Execute(w2, e, abilityId, target).0.stats == Execute(w, e, abilityId, target).0.stats
    ensures Execute(w2, e, abilityId, target).1 == Execute(w, e, abilityId, target).1
  {
  }

  /** `update`: each entity of the combat query in turn. `entities` is the
      list the world query returns. */
  function Update(w: Fighters, dt: real, entities: seq<Entity>): (r: (Fighters, seq<CombatEvent>))
    ensures r.0.combat.Keys == w.combat.Keys
    ensures r.0.stats.Keys == w.stats.Keys
    ensures forall x :: x in w.combat && x !in entities ==> r.0.combat[x] == w.combat[x]
    decreases |entities|
  {
    if |entities| == 0 then (w, [])
    else
      var (w1, ev1) := TickEntity(w, entities[0], dt);
      var (w2, ev2) := Update(w1, dt, entities[1..]);
      (w2, ev1 + ev2)
  }

  lemma TickEntityKeepsHpInRange(w: Fighters, e: Entity, dt: real)
    requires HpInRange(w)
    ensures HpInRange(TickEntity(w, e, dt).0)
  {
    if e in w.combat && w.combat[e].casting.Some? {
      var c := w.combat[e].casting.value;
      ExecuteKeepsHpInRange(w, e, c.abilityId, c.targetId);
    }
  }

  /** A whole update keeps every hp between 0 and maxHp. */
  lemma {:induction false} UpdateKeepsHpInRange(w: Fighters, dt: real, entities: seq<Entity>)
    requires HpInRange(w)
    ensures HpInRange(Update(w, dt, entities).0)
    decreases |entities|
  {
    if |entities| > 0 {
      TickEntityKeepsHpInRange(w, entities[0], dt);
      UpdateKeepsHpInRange(TickEntity(w, entities[0], dt).0, dt, entities[1..]);
    }
  }

  /** Every stored cooldown is non-negative. */
  ghost predicate CooldownsValid(w: Fighters)
  {
    forall e :: e in w.combat ==> NonNegative(w.combat[e].cooldowns)
  }

  lemma TickEntityKeepsCooldownsValid(w: Fighters, e: Entity, dt: real)
    requires CooldownsValid(w)
    ensures CooldownsValid(TickEntity(w, e, dt).0)
  {
    if e in w.combat {
      TickCooldownsBounds(w.combat[e].cooldowns, dt);
    }
  }

  /** A whole update never drives a cooldown below 0. */
  lemma {:induction false} UpdateKeepsCooldownsValid(w: Fighters, dt: real, entities: seq<Entity>)
    requires CooldownsValid(w)
    ensures CooldownsValid(Update(w, dt, entities).0)
    decreases |entities|
  {
    if |entities| > 0 {
      TickEntityKeepsCooldownsValid(w, entities[0], dt);
      UpdateKeepsCooldownsValid(TickEntity(w, entities[0], dt).0, dt, entities[1..]);
    }
  }
}
