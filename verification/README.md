# GameTest core in Dafny

A functional model of the game core of the GameTest repository. It covers
the small Python backup server (`server.py`), the persistence server's
routes and stores, and the TypeScript/JavaScript rule modules of the game.
Every operation is a pure function from a state to a new state. Where the
source mutates objects in place, the model returns the updated value.
Where a TypeScript file and its JavaScript twin differ, one function takes
a `Twin` argument, or there are two members. Clocks, square roots, JSON
parsing and serialisation, hashing, signature checks, the rate limiter and
URL parsing are parameters of the functions that use them.

Modules, following the program's structure:

- `Wrappers`, `JsCollections`, `Protocol` (JavaScript values, `Map`/`Set` with insertion order, the delta protocol), `NumberText`, `Sorting` (stable `Array.prototype.sort`).
- ECS: `EcsStore`, `ClassWorld`, `SharedWorld`, `BitmaskWorld` (with its query cache).
- RPG rules: `Items`, `Inventory`, `Equipment`, `Combat`, `Quests`, `BehaviorTree`.
- Strategy systems: `EconomySystem`, `Sovereignty`, `Roads`, `Logistics`, `Harvest`, `RouteGen`, `Placement`.
- Network and prediction: `NetProtocol`, `Interest`, `SpatialGrid`, `Interpolation`, `CommandBuffer`, `StateReconciler`, `EntityCache`.
- Utilities: `EventBus`, `Selection`, `HexCodec` (identity keys), `Chunker` (the developer indexing tool's text chunker).
- Servers: `BackupServer` (`server.py`), `Router`, `SignedPayload`, `Storage` (snapshot and journal stores), `Persistence` (the three routes).

JavaScript's `/` on doubles is modelled with `real`. Integer-valued
counters, ids and grid cells are `int`/`nat`. Truthiness (`||`, `!x`) is
spelled out where the source relies on it, including `NaN` and `0`.

Where the tests expect one thing and the code does another, the model
follows the code:

- the economy reports `idle` rather than `stalled_input` after a stall;
- the JavaScript economy skips entity 0;
- the delta protocol compares nested values by reference;
- the JavaScript entity cache drops deferred deletes.

## Model

| member | source | states |
|---|---|---|
| HexCodec.Digit | src/core/identity/IdentityManager.ts:50 | the digit written for a value below 16 is a lower-case hex digit that reads back as that value |
| HexCodec.ToString16 | src/core/identity/IdentityManager.ts:50 | `toString(16)` of a byte is non-empty and all lower-case hex digits |
| HexCodec.PadStart2 | src/core/identity/IdentityManager.ts:50 | `padStart(2, '0')` leaves a text of two or more characters alone and otherwise fills it with leading zeros up to two |
| HexCodec.ByteToHex | src/core/identity/IdentityManager.ts:50 | a byte becomes exactly two lower-case digits, its high nibble then its low nibble |
| HexCodec.Encode | src/core/identity/IdentityManager.ts:48-52 | the hex text is twice as long as the bytes, all lower-case, with byte i at characters 2i and 2i+1 |
| HexCodec.Chunks | src/core/identity/IdentityManager.ts:55 | `match(/.{1,2}/g)` cuts the text into pieces of one or two characters |
| HexCodec.ParseChunk | src/core/identity/IdentityManager.ts:57 | `parseInt(chunk, 16)` stored in a byte: two hex digits give 16*high+low; a chunk that starts with no digit, sign or space gives NaN and so 0 |
| HexCodec.DecodeHexPairs | src/core/identity/IdentityManager.ts:54-58 | an even-length lower-case hex text decodes to half as many bytes, byte i being the value of the digit pair at positions 2i and 2i+1 |
| HexCodec.DecodeEncode | src/core/identity/IdentityManager.ts:48-58 | decoding the hex of any byte array gives the bytes back |
| HexCodec.EncodeDecode | src/core/identity/IdentityManager.ts:48-58 | encoding the decoded bytes of any even-length lower-case hex text gives the text back |
| HexCodec.GetOrCreateIdentity | src/core/identity/IdentityManager.ts:8-33 | a stored entry that parses is decoded and nothing is saved; otherwise the fresh key pair is used, its peer id derived from the public key, and the identity saved as hex |
| HexCodec.StoredIdentityIsReused | src/core/identity/IdentityManager.ts:8-46 | after a generated identity is saved, the next call decodes the same identity and generates nothing, whatever key pair it would have made |
| BehaviorTree.Invert | server/src/game/BehaviorTree.ts:81-86 | the inverter swaps SUCCESS and FAILURE and passes RUNNING through |
| BehaviorTree.Tick | server/src/game/BehaviorTree.ts:42-109 | a tick answers RUNNING only when some action can answer it; with actions that never run on, no tree does |
| BehaviorTree.TickSelector | server/src/game/BehaviorTree.ts:47-55 | a selector whose actions never answer RUNNING answers SUCCESS or FAILURE |
| BehaviorTree.TickSequence | server/src/game/BehaviorTree.ts:64-72 | a sequence whose actions never answer RUNNING answers SUCCESS or FAILURE |
| BehaviorTree.Trace | server/src/game/BehaviorTree.ts:47-71 | the reference semantics of a composite: each child ticked in turn with the context its predecessor left, one status per child |
| BehaviorTree.SelectorAllFail | server/src/game/BehaviorTree.ts:47-55 | when every child fails, the selector ticks them all and answers FAILURE |
| BehaviorTree.SelectorStopsAtFirstNonFailure | server/src/game/BehaviorTree.ts:47-55 | the selector answers the first status that is not FAILURE with the context that child left, and ticks no later child |
| BehaviorTree.InverterInvolution | server/src/game/BehaviorTree.ts:76-87 | inverting twice ticks exactly like the node itself, context included |
| BehaviorTree.InvertedSelectorIsSequence | server/src/game/BehaviorTree.ts:42-87 | an inverted selector ticks exactly like a sequence of inverted children |
| BehaviorTree.LeafTicks | server/src/game/BehaviorTree.ts:91-109 | a condition answers SUCCESS exactly when its predicate holds and leaves the context alone; an action answers what its function returns |
| BehaviorTree.Set | server/src/game/BehaviorTree.ts:12-14 | after `set`, `get` of the key gives the value and every other key is unchanged |
| BehaviorTree.Delete | server/src/game/BehaviorTree.ts:24-26 | after `delete` the key is absent and every other key is unchanged |
| Chunker.Split | dev-tools/index-codebase.js:53 | `split('\n')` gives at least one piece, none contains a newline, and joining them with newlines gives the text back |
| Chunker.JoinOfJoins | dev-tools/index-codebase.js:60-70 | joining the joined groups with newlines is joining all their lines: chunking loses and adds no character |
| Chunker.PackSound | dev-tools/index-codebase.js:58-71 | every run of the loop from a state meeting its invariant packs all lines greedily, in order |
| Chunker.InvBreak | dev-tools/index-codebase.js:59-62 | the loop invariant survives closing the open chunk and starting a new one with the line |
| Chunker.InvExtend | dev-tools/index-codebase.js:63-66 | the loop invariant survives adding the line to the open chunk, counting it and its newline |
| Chunker.InvFinal | dev-tools/index-codebase.js:69-71 | after the loop, pushing the open chunk completes a greedy packing of all lines |
| Chunker.ChunkGroups | dev-tools/index-codebase.js:52-74 | the chunks are the lines in order, never split, none empty; a line opens a new chunk exactly when the open chunk is non-empty and its size plus the line exceeds the maximum |
| Chunker.ChunkText | dev-tools/index-codebase.js:52-74 | there is always at least one chunk, and the chunks joined with newlines give the text back |
| Chunker.EmptyTextOneChunk | dev-tools/index-codebase.js:52-74 | the empty text gives one empty chunk |
| JsCollections.Remove | shared/src/ecs/World.ts:18 | removing a value keeps exactly the other values, in order, without creating duplicates |
| JsCollections.Map.Get | shared/src/ecs/World.ts:34-35 | `map.get` finds a value exactly for a key the map has, and it is that key's value |
| JsCollections.Map.Set | shared/src/ecs/World.ts:29 | `map.set` stores the value; a new key goes to the end of the iteration order, an existing key keeps its place |
| JsCollections.Map.Delete | shared/src/ecs/World.ts:20 | `map.delete` drops the key from the entries and from the iteration order |
| JsCollections.Map.Entries | src/ecs/World.ts:66-75 | the entries in insertion order, each key with its value |
| JsCollections.FromEntries | src/ecs/World.ts:78-86 | `new Map(pairs)` is a well-formed map |
| JsCollections.FromDistinctEntries | src/ecs/World.ts:78-86 | with distinct keys, `new Map(pairs)` keeps the pairs' order and values |
| JsCollections.FromOwnEntries | src/ecs/World.ts:66-86 | rebuilding a map from its own entries gives the same map |
| JsCollections.Set.Add | shared/src/ecs/World.ts:13 | `set.add` adds the element at the end unless it is already there, in which case nothing changes |
| JsCollections.Set.Delete | shared/src/ecs/World.ts:18 | `set.delete` removes exactly that element, and the size drops by one when it was there |
| JsCollections.SetFrom | shared/src/ecs/World.ts:59 | `new Set(items)` holds exactly the items, and keeps their order when they are distinct |
| EcsStore.AddComponent | shared/src/ecs/World.ts:24-30 | after adding, the entity has the component under that type, and nothing else changes |
| EcsStore.RemoveComponent | shared/src/ecs/World.ts:38-41 | after removing, the entity has no component of that type, and nothing else changes |
| EcsStore.Destroy | shared/src/ecs/World.ts:17-22 | a destroyed entity leaves the entity set and every component map; other entities keep all their components |
| EcsStore.DeleteFromAll | shared/src/ecs/World.ts:19-21 | each component map loses the entity and the set of maps is unchanged |
| EcsStore.Filter | shared/src/ecs/World.ts:67-79 | the kept elements are exactly those satisfying the test, form a subsequence of the input (their order kept), and have no duplicates when the input has none |
| EcsStore.EntitiesWithExact | shared/src/ecs/World.ts:58-81 | a query lists each entity holding all the listed types exactly once, in the order the first type's map received them; with no types it lists the live entities in insertion order |
| EcsStore.ReadAfterWrite | shared/src/ecs/World.ts:24-41 | `getComponent` after `addComponent` returns the added component; after `removeComponent` or `destroyEntity` it finds none |
| EcsStore.DestroyedNeverQueried | shared/src/ecs/World.ts:58-81 | a destroyed entity appears in no query |
| EcsStore.RunSystemsAppend | shared/src/ecs/World.ts:52-56 | running a list of systems is running its first part, then the rest on the result |
| EcsStore.RunSystems | shared/src/ecs/World.ts:52-56 | the last system in the list runs last, on the world all the earlier ones left |
| SharedWorld.NewWorld | shared/src/ecs/World.ts:6-9 | a new world is well formed with no systems and a zero counter |
| SharedWorld.CreateEntity | shared/src/ecs/World.ts:11-15 | the counter advances by one and the new id joins the entity set, components untouched |
| SharedWorld.CreatedIsFresh | shared/src/ecs/World.ts:11-15 | the new id is the counter's decimal text, which no live entity has and which has no component |
| SharedWorld.DestroyEntity | shared/src/ecs/World.ts:17-22 | the entity loses every component and leaves the entity set; every other entity keeps its components |
| SharedWorld.AddComponent | shared/src/ecs/World.ts:24-30 | the component is filed under its own `_type` tag and nothing else changes |
| SharedWorld.ComponentReadBack | shared/src/ecs/World.ts:24-41 | `getComponent` returns the component last added under the type, and none after `removeComponent` or `destroyEntity` |
| SharedWorld.RemoveComponent | shared/src/ecs/World.ts:38-41 | the entity has no component of the type afterwards and nothing else changes |
| SharedWorld.AddThenRemove | shared/src/ecs/World.ts:24-41 | adding then removing a component of a type leaves none of that type and every other component as it was |
| SharedWorld.AddSystem | shared/src/ecs/World.ts:48-50 | the system is appended and the entities are untouched |
| SharedWorld.AddedSystemRunsLast | shared/src/ecs/World.ts:48-56 | a system added last runs after all the earlier ones |
| SharedWorld.GetEntitiesWith | shared/src/ecs/World.ts:58-81 | a query lists each entity holding all the listed types once, in the order the first type's map received them; with no types it lists the live entities in insertion order |
| ClassWorld.NewWorld | src/ecs/World.ts:6-8 | a new world is well formed, empty, with a zero counter |
| ClassWorld.CreateEntity | src/ecs/World.ts:10-14 | the id handed out is the counter, the counter advances by one, the id joins the entity set and the components are untouched |
| ClassWorld.CreatedIsFresh | src/ecs/World.ts:10-14 | while every id in use is below the counter, a new id is not in use, has no component, and the property is kept |
| ClassWorld.DestroyEntity | src/ecs/World.ts:16-21 | the entity leaves the set and loses every component; every other entity keeps its components |
| ClassWorld.AddComponent | src/ecs/World.ts:23-29 | the component is filed under its constructor's name and nothing else changes |
| ClassWorld.ComponentReadBack | src/ecs/World.ts:16-38 | `getComponent` returns the component last added under the class name, and none after `destroyEntity` |
| ClassWorld.GetEntitiesWith | src/ecs/World.ts:40-64 | a query lists each entity holding all the listed classes once, in the order the first class's map received them; with no classes it lists every live entity in insertion order |
| ClassWorld.Serialize | src/ecs/World.ts:66-75 | the snapshot keeps the counter, the entities in order and one entry per component map |
| ClassWorld.Deserialize | src/ecs/World.ts:77-86 | the rebuilt world is well formed, takes the snapshot's counter and holds exactly the snapshot's entities |
| ClassWorld.DeserializeSerialize | src/ecs/World.ts:66-86 | deserializing a serialized world gives back the same world |
| BitmaskWorld.TypeBit | common/ecs/World.ts:68-69 | a name in the component table has a non-empty bit; other names have none |
| BitmaskWorld.NewWorld | common/ecs/World.ts:15-22 | a new world is well formed with an exact (empty) query cache and a zero counter |
| BitmaskWorld.CreateEntity | common/ecs/World.ts:24-42 | a requested id is used as given and lifts the counter past it only when not below it; otherwise the counter is used and advances; the new entity's mask is empty |
| BitmaskWorld.CreatePreservesQueries | common/ecs/World.ts:24-42 | creating an entity whose id has no mask yet keeps every cached query exact, and automatic ids stay below the counter |
| BitmaskWorld.RecreateBreaksQueries | common/ecs/World.ts:34-35 | re-creating an id that has a non-empty mask resets the mask without touching the cache, so a cached query keeps listing an entity that no longer matches |
| BitmaskWorld.UpdateQuery | common/ecs/World.ts:155-163 | a cached query loses the entity when it stops matching, gains it when it starts, and is otherwise unchanged |
| BitmaskWorld.UpdateQueries | common/ecs/World.ts:154-165 | every cached query is updated on its own and the cache keeps its keys and order |
| BitmaskWorld.SetMaskPreservesQueries | common/ecs/World.ts:70-87 | setting an entity's mask and updating the cache keeps every cached query exact |
| BitmaskWorld.AddComponent | common/ecs/World.ts:61-75 | the data is stored, nothing else changes, and for a name in the table its bit is added to the entity's mask |
| BitmaskWorld.RemoveComponent | common/ecs/World.ts:77-90 | the entry is gone, nothing else changes, and when the map existed and the name is in the table its bit is cleared |
| BitmaskWorld.AddPreservesQueries | common/ecs/World.ts:61-75 | adding a component keeps every cached query exact |
| BitmaskWorld.RemovePreservesQueries | common/ecs/World.ts:77-90 | removing a component keeps every cached query exact |
| BitmaskWorld.DeleteFromQueries | common/ecs/World.ts:56-58 | every cached query loses the entity and the cache keeps its keys and order |
| BitmaskWorld.DestroyEntity | common/ecs/World.ts:44-59 | the entity leaves the entity set, the masks, every component map and every cached query; other entities keep their components |
| BitmaskWorld.DestroyPreservesQueries | common/ecs/World.ts:44-59 | destroying an entity keeps every cached query exact and the ids below the counter |
| BitmaskWorld.TargetMask | common/ecs/World.ts:113-121 | the combined mask exists exactly when every name has a bit |
| BitmaskWorld.TargetMaskMeaning | common/ecs/World.ts:113-147 | an entity matches the combined mask exactly when its mask holds the bit of every listed name |
| BitmaskWorld.CreateQuery | common/ecs/World.ts:144-152 | a new query holds exactly the entities whose mask contains the query mask |
| BitmaskWorld.EntitiesWithLegacy | common/ecs/World.ts:130-142 | the legacy scan lists each live entity holding every named component once |
| BitmaskWorld.GetEntitiesWith | common/ecs/World.ts:112-128 | a name without a bit sends the call to the legacy scan; otherwise the cached query for the combined mask is returned, created first when absent, and the store is unchanged |
| BitmaskWorld.CreateQueryKeepsExact | common/ecs/World.ts:123-125 | adding a freshly created query keeps the cache exact |
| BitmaskWorld.GetEntitiesWithExact | common/ecs/World.ts:112-128 | with every name in the table, the answer lists exactly the entities holding every named bit, once each, and the cache stays exact |
| BitmaskWorld.GetComponentTs | common/ecs/World.ts:92-95 | null when the map is missing, the entity is missing or the stored data is falsy; otherwise the data |
| BitmaskWorld.GetComponentJs | common/ecs/World.js:83-85 | null only when no map exists for the name; undefined when the map lacks the entity; otherwise the data |
| BitmaskWorld.DestroyedLookupJs | common/ecs/World.js:35-85 | after destroying an entity, the JavaScript lookup in any existing map answers undefined |
| BitmaskWorld.AddSystem | common/ecs/World.ts:102-104 | the system is appended and the store and the cache are untouched |
| BitmaskWorld.AddedSystemRunsLast | common/ecs/World.ts:102-110 | a system added last runs after all the earlier ones |
| Items.SlotName | shared/src/types/Items.ts:3-11 | every slot has a non-empty string value |
| Items.ParseSlot | shared/src/types/Items.ts:3-11 | a slot read from a string has that string as its value |
| Items.ParseSlotName | shared/src/types/Items.ts:3-11 | each slot is read back from its own value, so the seven values are distinct |
| Items.FindRecipe | shared/src/types/Items.ts:103-119 | the recipe found has the requested id and is in the table; none is found only when no recipe has the id |
| Inventory.TotalUpdate | shared/src/systems/InventorySystem.ts:21-51 | changing one slot changes an item's total only by the slot's difference |
| Inventory.TotalRemove | shared/src/systems/InventorySystem.ts:53 | deleting a slot removes its quantity from its item's total |
| Inventory.FindIndex | shared/src/systems/InventorySystem.ts:38 | `findIndex` gives the first slot holding the item, or none when no slot holds it |
| Inventory.AddItem | shared/src/systems/InventorySystem.ts:11-32 | a failed add changes nothing; a successful one needs a known item and an inventory, adds exactly the quantity to the item's total and leaves every other total alone |
| Inventory.RemoveItemAtIndex | shared/src/systems/InventorySystem.ts:44-57 | succeeds exactly for an existing slot holding at least the quantity; then only that slot loses the quantity, it is spliced out when it reaches 0 and the later slots move down one place in order, and the item's total drops by the quantity while other totals stay |
| Inventory.RemoveItem | shared/src/systems/InventorySystem.ts:34-42 | succeeds exactly when the first slot holding the item holds enough; then the item's total drops by the quantity |
| Inventory.Consume | shared/src/systems/InventorySystem.ts:81-84 | the ingredient loop removes each ingredient in turn, whatever each removal answers; a present inventory stays present with its capacity, and an absent one stays absent |
| Inventory.CraftItem | shared/src/systems/InventorySystem.ts:73-88 | an unknown recipe or missing ingredients fail with no change |
| Inventory.RemoveKeepsOtherFirstSlots | shared/src/systems/InventorySystem.ts:34-71 | removing one item does not change whether another item is held in enough quantity |
| Inventory.ConsumeTakesIngredients | shared/src/systems/InventorySystem.ts:82-84 | consuming distinct ingredients that are all held in enough quantity takes exactly each one's quantity and leaves other items alone |
| Inventory.CraftSucceeds | shared/src/systems/InventorySystem.ts:73-88 | a successful craft takes the recipe's ingredients and adds its result |
| Equipment.GetItem | shared/src/systems/EquipmentSystem.ts:17-19 | the Arthurian weapon with the id when there is one, else the base item, else nothing |
| Equipment.ItemBonus | shared/src/systems/EquipmentSystem.ts:77-91 | an item's `stamina` raises the maximum stamina; its `hp` and `mana` add nothing |
| Equipment.ItemBonusIgnoresPools | shared/src/systems/EquipmentSystem.ts:77-91 | an item's own `hp`, `mana` and `maxStamina` entries change no stat |
| Equipment.RefreshStats | shared/src/systems/EquipmentSystem.ts:50-99 | without both components nothing changes; otherwise every maximum and rating is its base value plus the sum of the worn items' bonuses, and hp, mana and stamina are lowered to their maxima when above them |
| Equipment.RefreshIdempotent | shared/src/systems/EquipmentSystem.ts:50-99 | refreshing twice is refreshing once |
| Equipment.RefreshIgnoresOldMaxima | shared/src/systems/EquipmentSystem.ts:56-93 | after a refresh every maximum and rating depends on the equipment alone |
| Equipment.BareRefreshIsBase | shared/src/systems/EquipmentSystem.ts:56-69 | with nothing worn the stats are the base values: 100 maxima, attack 5, defense 0, speed 5, 10 in every Arthurian rating |
| Equipment.EquipItem | shared/src/systems/EquipmentSystem.ts:21-37 | without equipment or for an item without a slot nothing changes and null is returned; otherwise the item goes into its own slot, stats are refreshed and the previous occupant is returned |
| Equipment.UnequipItem | shared/src/systems/EquipmentSystem.ts:39-48 | without equipment nothing changes; otherwise the slot is emptied, stats are refreshed and its previous occupant is returned |
| Equipment.EquipThenUnequip | shared/src/systems/EquipmentSystem.ts:21-48 | equipping an item then unequipping its slot hands the item back and leaves the slot empty |
| Equipment.EquipAddsBonus | shared/src/systems/EquipmentSystem.ts:21-99 | equipping an item with stats into an empty slot raises every maximum and rating by exactly that item's bonus |
| Equipment.SumBonusUpdate | shared/src/systems/EquipmentSystem.ts:71-93 | changing what one slot holds changes the summed bonus by the difference of that slot's old and new bonus |
| Combat.AbilitiesNonNegative | shared/src/types/Abilities.ts:20-65 | every ability in the table has non-negative cooldown, cast time, costs and power, and is keyed by its own id |
| Combat.CurrentCooldown | shared/dist/systems/CombatSystem.js:38 | a missing cooldown counts as 0; a positive one is the stored value |
| Combat.TickCooldowns | shared/dist/systems/CombatSystem.js:16-20 | a positive cooldown drops by dt but not below 0, any other is left alone, and the keys and their order stay |
| Combat.TickCooldownsBounds | shared/dist/systems/CombatSystem.js:16-20 | ticking keeps cooldowns non-negative and a forward step never raises one |
| Combat.TickCooldownsCompose | shared/dist/systems/CombatSystem.js:16-20 | two forward ticks have the effect of one tick by their sum |
| Combat.EffectiveTarget | shared/dist/systems/CombatSystem.js:73 | a heal without a target lands on the caster; anything else lands on the given target |
| Combat.Damage | shared/dist/systems/CombatSystem.js:93-99 | the damage is the ability's power, times the block ability's power 0.5 when the target is blocking |
| Combat.Execute | shared/dist/systems/CombatSystem.js:68-123 | nothing happens for an unknown ability or a falsy target; a heal raises hp up to maxHp; any other ability lowers hp by the damage, not below 0, and reports death at 0 |
| Combat.ExecuteKeepsHpInRange | shared/dist/systems/CombatSystem.js:79-100 | heals and damage keep every hp between 0 and maxHp |
| Combat.BlockHalvesDamage | shared/dist/systems/CombatSystem.js:95-99 | a blocking target takes half the damage a non-blocking one would |
| Combat.UseAbility | shared/dist/systems/CombatSystem.js:31-67 | succeeds exactly when the entity has both components, the ability exists, no cooldown or cast is running and mana and stamina cover the costs; a failure changes nothing; a success pays, casts or executes, sets the cooldown and stamps melee attacks |
| Combat.UseKeepsPoolsNonNegative | shared/dist/systems/CombatSystem.js:45-49 | paying the costs leaves mana and stamina non-negative |
| Combat.NoImmediateReuse | shared/dist/systems/CombatSystem.js:38-62 | right after a use, an ability with a cooldown or a cast time cannot be used again |
| Combat.TickEntity | shared/dist/systems/CombatSystem.js:14-28 | an entity's cooldowns tick; a running cast loses dt and, once at or below 0, executes and is cleared; other entities' states are unchanged |
| Combat.ExecuteSameStats | shared/dist/systems/CombatSystem.js:68-123 | execution reads the combat states only for the target's blocking flag |
| Combat.Update | shared/dist/systems/CombatSystem.js:11-30 | `update` keeps the set of entities and leaves entities outside the query untouched |
| Combat.UpdateKeepsHpInRange | shared/dist/systems/CombatSystem.js:11-30 | a whole update keeps every hp between 0 and maxHp |
| Combat.UpdateKeepsCooldownsValid | shared/dist/systems/CombatSystem.js:11-30 | a whole update never drives a cooldown below 0 |
| Quests.AcceptQuest | server/src/game/QuestSystem.ts:10-23 | accepted exactly when there is a quest state and the id is neither active nor completed; then an active copy is appended, otherwise nothing changes |
| Quests.AcceptKeepsConsistent | server/src/game/QuestSystem.ts:10-23 | accepting keeps active ids distinct and disjoint from the completed ids |
| Quests.AcceptTwiceRefused | server/src/game/QuestSystem.ts:15-18 | a quest cannot be accepted a second time |
| Quests.Advance | server/src/game/QuestSystem.ts:33 | one objective's progress becomes the smaller of its requirement and its progress plus the amount; nothing else about it changes |
| Quests.AdvanceAll | server/src/game/QuestSystem.ts:31-36 | each matching objective moves by the amount but never past its requirement; the others keep their value |
| Quests.Progress | server/src/game/QuestSystem.ts:29-50 | a quest becomes completed exactly when one of its objectives matched and then all are met, and a completed quest stays completed |
| Quests.UpdateProgress | server/src/game/QuestSystem.ts:25-42 | every active quest advances in place; the completed ids and the order are kept; nothing happens without a quest state |
| Quests.UpdateKeepsConsistent | server/src/game/QuestSystem.ts:25-50 | progress keeps the state consistent and never un-completes a quest |
| Quests.SingleObjectiveCompletes | server/src/game/QuestSystem.ts:31-47 | enough progress on a quest's only objective completes it |
| Quests.FindQuest | server/src/game/QuestSystem.ts:56 | the first active quest with the id, or none when no active quest has it |
| Quests.GiveRewards | server/src/game/QuestSystem.ts:63-67 | giving rewards keeps an inventory present with its size limit, and an absent one absent |
| Quests.GiveRewardsInOrder | server/src/game/QuestSystem.ts:63-67 | the rewards go through `addItem` one at a time in list order: a list is given as its first part and then the rest, and one reward is exactly one `addItem` call |
| Quests.GiveRewardsKeepsOthers | server/src/game/QuestSystem.ts:63-67 | items that are not rewards keep their totals |
| Quests.RewardsArrive | server/src/game/QuestSystem.ts:63-67 | with room for every reward and every reward a known item, each reward arrives in full |
| Quests.CompleteQuest | server/src/game/QuestSystem.ts:52-73 | refused without a state, for an id not active or a quest not completed; otherwise the rewards are given, the id is recorded and the quest leaves the active list |
| Quests.CompleteKeepsConsistent | server/src/game/QuestSystem.ts:52-73 | completing keeps active ids distinct and disjoint from the completed ids |
| EconomySystem.Reset | common/ecs/systems/EconomySystem.ts:9-17 | each listed economy's metal, energy and credits production drops to 0; its other production keys and its stocks are kept; unlisted economies are untouched |
| EconomySystem.ResetIdempotent | common/ecs/systems/EconomySystem.ts:9-17 | resetting twice is resetting once |
| EconomySystem.ChooseEconomy | common/ecs/systems/EconomySystem.ts:24-29 | a building feeds its own economy unless that id is 0, else the first economy; the TypeScript file gives up only without economies, the JavaScript file also when the choice is entity 0 |
| EconomySystem.ChooseTwinsAgree | common/ecs/systems/EconomySystem.js:21-22 | both files pick the same economy whenever entity 0 has none |
| EconomySystem.LegacyOutput | common/ecs/systems/EconomySystem.ts:33-46 | a mine makes 10 metal per level, a power plant 15 energy, housing 5 credits, anything else nothing |
| EconomySystem.ShiftMeaning | common/ecs/systems/EconomySystem.ts:63-71 | consuming and producing move every key by exactly its listed total |
| EconomySystem.AmountScaled | common/ecs/systems/EconomySystem.ts:64-69 | scaling every entry by dt scales each key's total by dt |
| EconomySystem.AmountOfDistinct | common/ecs/systems/EconomySystem.ts:53 | with distinct keys a listed key's total is its one amount |
| EconomySystem.ChainStep | common/ecs/systems/EconomySystem.ts:49-75 | with every input covered the inputs are taken, the outputs added to production and the chain reports `producing`; otherwise nothing is consumed and it reports `idle` |
| EconomySystem.Produce | common/ecs/systems/EconomySystem.ts:62-71 | a running chain takes amount*dt of each input from the stock and adds amount*dt of each output to production, every key moving by its listed total |
| EconomySystem.ShiftScaled | common/ecs/systems/EconomySystem.ts:62-71 | applying entries scaled by dt moves every key by its listed total times dt, a missing key reading as 0 |
| EconomySystem.ChainNeverOverdraws | common/ecs/systems/EconomySystem.ts:53-65 | a chain with distinct input keys never drives an input stock below 0 |
| EconomySystem.StallEndsIdle | common/ecs/systems/EconomySystem.ts:56-74 | a stalled chain ends the tick `idle`, since `stalled_input` is overwritten |
| EconomySystem.BuildingStep | common/ecs/systems/EconomySystem.ts:20-76 | an inactive or unknown building, or one whose chosen economy is missing, changes nothing; a building with a chain applies one chain step to the chosen economy and its own chain; one without a chain leaves the stocks and chains alone and adds its legacy output to that economy's production; nothing else changes |
| EconomySystem.BuildingsStep | common/ecs/systems/EconomySystem.ts:19-76 | the building loop keeps the buildings and the set of economies; what it does inside each economy is stated by BuildingsStepIsFeed and LegacyBuildingsStep |
| EconomySystem.BuildingStepAt | common/ecs/systems/EconomySystem.ts:20-76 | one building step applies the building's chain step or legacy output to the economy it feeds, and leaves every other economy alone |
| EconomySystem.BuildingStepKeepsRecipes | common/ecs/systems/EconomySystem.ts:49-75 | a building step changes no building and no chain's inputs or outputs, only a chain's status |
| EconomySystem.FeedReadsRecipes | common/ecs/systems/EconomySystem.ts:19-76 | what the building loop does to one economy depends on the buildings and the chains' inputs and outputs, not on the chains' statuses |
| EconomySystem.BuildingsStepIsFeed | common/ecs/systems/EconomySystem.ts:19-76 | the building loop treats each economy on its own: an economy ends as the buildings feeding it, in list order, leave it, each applying its chain step or legacy output to that economy alone |
| EconomySystem.LegacyFeed | common/ecs/systems/EconomySystem.ts:33-46 | without chains, the buildings feeding an economy keep its stocks and add exactly their summed legacy output to each production key |
| EconomySystem.LegacyBuildingsStep | common/ecs/systems/EconomySystem.ts:19-76 | a building loop without chains keeps every economy's stocks, and each production key grows by exactly the legacy output of the active buildings choosing that economy, a building listed twice counting twice |
| EconomySystem.UnfedFeed | common/ecs/systems/EconomySystem.ts:19-76 | an economy that no listed active building chooses leaves the building loop unchanged |
| EconomySystem.GainAt | common/ecs/systems/EconomySystem.ts:83-85 | metal, energy and credits each gain production*dt; other keys keep their value |
| EconomySystem.Apply | common/ecs/systems/EconomySystem.ts:78-87 | the apply loop keeps the set of economies and leaves unlisted ones alone |
| EconomySystem.ApplyOnce | common/ecs/systems/EconomySystem.ts:78-87 | with no repeated economy, each listed economy's stocks gain exactly one production*dt |
| EconomySystem.Tick | common/ecs/systems/EconomySystem.ts:5-88 | a tick keeps the buildings and the set of economies; what it does to each economy is stated by TickAt and IdleTick |
| EconomySystem.TickAt | common/ecs/systems/EconomySystem.ts:5-88 | with distinct economy ids, a listed economy is reset, then changed by the buildings choosing it, then gains production·dt once; an unlisted economy is unchanged |
| EconomySystem.IdleTick | common/ecs/systems/EconomySystem.ts:5-88 | after a tick in which no building feeds a listed economy, its metal, energy and credits production is 0 and every stock keeps its value |
| EconomySystem.BuildingsTwinsAgree | common/ecs/systems/EconomySystem.js:14-70 | the two files run the building loop identically whenever entity 0 holds no economy |
| EconomySystem.TickTwinsAgree | common/ecs/systems/EconomySystem.js:1-81 | the two files tick identically whenever entity 0 holds no economy |
| EconomySystem.ZeroEconomyDroppedInJs | common/ecs/systems/EconomySystem.js:21-22 | when the only economy is entity 0, the JavaScript file drops a building's output while the TypeScript file credits entity 0 |
| EconomySystem.ChainOutputSquaresDt | common/ecs/systems/EconomySystem.ts:69-85 | a chain's output reaches the stock as amount*dt*dt in one tick |
| Sovereignty.Grow | common/ecs/systems/SovereigntySystem.ts:10-15 | an owned territory's influence becomes the smaller of 100 and influence + 2·dt (so it never shrinks for dt ≥ 0 and stays at most 100 when it started there); an unowned one (owner null, "" or 0) is unchanged; owner, tax rate and contested flag are kept |
| Sovereignty.GrowCompose | common/ecs/systems/SovereigntySystem.ts:13 | growing for a then for b is growing for a+b |
| Sovereignty.GrowReachesCap | common/ecs/systems/SovereigntySystem.ts:13 | once 2·dt covers the gap to 100 an owned territory sits exactly at 100 |
| Sovereignty.GrowAll | common/ecs/systems/SovereigntySystem.js:7-19 | the first phase keeps the set of territories and leaves unlisted ones alone |
| Sovereignty.FindCorp | common/ecs/systems/SovereigntySystem.ts:32-36 | the payee is a listed corporation whose id text equals the owner string (TypeScript) or whose id strictly equals the owner and is non-zero (JavaScript, whose `if (ownerCorp)` drops 0); no payee means no listed corporation matches |
| Sovereignty.TaxOne | common/ecs/systems/SovereigntySystem.ts:18-45 | an economy without a truthy Identity owner, without a foreign truthy sovereignty, or whose tax is not positive is left alone; otherwise only economies and treasuries change and their key sets are kept |
| Sovereignty.TaxMoves | common/ecs/systems/SovereigntySystem.ts:27-43 | a taxed economy loses exactly the tax from its credits production and nothing else; the matched corporation gains exactly the tax, every other treasury is kept |
| Sovereignty.TaxConserved | common/ecs/systems/SovereigntySystem.ts:29-42 | tax is moved, never created: payer credits plus payee treasury are unchanged |
| Sovereignty.TaxOnePays | common/ecs/systems/SovereigntySystem.ts:27-30 | a taxed economy's credits production becomes its credits minus credits times the tax rate, whichever corporation is paid |
| Sovereignty.TaxOneTreasury | common/ecs/systems/SovereigntySystem.ts:32-43 | taxing one economy adds its tax to the treasury of the corporation it matches and to no other treasury |
| Sovereignty.TaxAll | common/ecs/systems/SovereigntySystem.js:23-49 | the second phase never touches territories or Identity owners and keeps the sets of economies and treasuries; what it moves is stated by TaxAllEconomy and TaxAllTreasury |
| Sovereignty.TaxAllEconomy | common/ecs/systems/SovereigntySystem.ts:18-46 | with distinct economy ids, the tax loop leaves each listed economy exactly as taxing it alone would, so it loses exactly its tax once, and an unlisted economy unchanged |
| Sovereignty.TaxAllTreasury | common/ecs/systems/SovereigntySystem.ts:18-46 | with distinct economy ids, each corporation's treasury grows by exactly the sum of the taxes the listed taxed economies owe it |
| Sovereignty.Tick | common/ecs/systems/SovereigntySystem.ts:4-47 | after a tick the territories are exactly the grown ones and the Identity owners are unchanged; the taxes are stated by TickTaxesEconomy and TickTaxesTreasury |
| Sovereignty.TickTaxesEconomy | common/ecs/systems/SovereigntySystem.ts:4-47 | with distinct economy ids, a tick taxes each listed economy once, exactly as it would be taxed before growth, and leaves an unlisted economy unchanged |
| Sovereignty.TickTaxesTreasury | common/ecs/systems/SovereigntySystem.ts:4-47 | with distinct economy ids, a tick grows each corporation's treasury by exactly the taxes owed to it as measured before growth |
| Sovereignty.GrowKeepsTaxed | common/ecs/systems/SovereigntySystem.ts:12-26 | growth never changes which economies are taxed |
| Sovereignty.TaxOneGrown | common/ecs/systems/SovereigntySystem.ts:10-30 | growth does not change what taxing an economy does to it |
| Sovereignty.PaidToGrown | common/ecs/systems/SovereigntySystem.ts:10-43 | growth does not change the taxes owed to any corporation |
| Sovereignty.JsLosesStringOwnedTax | common/ecs/systems/SovereigntySystem.js:42-43 | with string owner ids the JavaScript twin never finds a payee, so its collected tax is lost; the TypeScript twin finds one exactly when some corporation id prints as the owner |
| Sovereignty.TwinsDeductAlike | common/ecs/systems/SovereigntySystem.js:34-39 | both twins deduct the same credits from every economy |
| Roads.NearOnes | common/ecs/systems/RoadSystem.ts:28-36 | the roads linked to are exactly the listed roads other than the new one whose position is within 10.1 of it |
| Roads.Step | common/ecs/systems/RoadSystem.ts:36-41 | a linked road is appended to the new road's list and, when it holds a Road, the new road to its list; nothing else changes |
| Roads.Link | common/ecs/systems/RoadSystem.ts:28-45 | the loop keeps every position and the set of roads |
| Roads.OnRoadPlaced | common/ecs/systems/RoadSystem.ts:20-46 | placing an entity without both a position and a road changes nothing; otherwise positions and the set of roads are kept |
| Roads.LinkAppendsOwn | common/ecs/systems/RoadSystem.ts:28-37 | the new road's list grows by exactly its near neighbours, in query order |
| Roads.LinkAppendsOther | common/ecs/systems/RoadSystem.ts:38-41 | every other road keeps its list in front and gains one entry for the new road per time it was linked |
| Roads.PlacingTwiceDuplicates | common/ecs/systems/RoadSystem.ts:37 | placing the same road twice links every near neighbour twice: the lists are never deduplicated |
| Roads.LinkKeepsSymmetric | common/ecs/systems/RoadSystem.js:36-40 | when every listed road holds a Road, linking keeps the network symmetric |
| Roads.FindClosestRoad | common/ecs/systems/RoadSystem.ts:80-103 | nothing without a position; a road is its own closest road; otherwise the first listed road at the least distance, provided that distance is at most 15, and nothing when no road is that close |
| Roads.Visit | common/ecs/systems/RoadSystem.ts:69-74 | the unvisited entries of a road's list are marked visited and queued behind the existing queue, and only they |
| Roads.ClosedHoldsWalk | common/ecs/systems/RoadSystem.ts:62-75 | a visited set closed under links holds every road a walk from it reaches |
| Roads.ReachableStep | common/ecs/systems/RoadSystem.ts:69-73 | a road reachable from the start extends its reach by one link |
| Roads.SearchStepKeeps | common/ecs/systems/RoadSystem.ts:62-75 | one step of the breadth-first search keeps its invariant and makes progress |
| Roads.Search | common/ecs/systems/RoadSystem.ts:57-77 | the search answers true exactly when the end road is reachable along links from the start road |
| Roads.SearchExhausted | common/ecs/systems/RoadSystem.ts:77 | a search that empties its queue has proved the end unreachable |
| Roads.IsConnected | common/ecs/systems/RoadSystem.js:53-81 | false without a closest road at either end, and in the JavaScript file also when either is road 0; otherwise true exactly when the closest roads are linked by a path |
| Logistics.Plus | common/ecs/systems/LogisticsSystem.js:54 | an unguarded `+=` yields NaN exactly when the field was NaN or missing |
| Logistics.Load | common/ecs/components.ts:164-175 | a fresh hold loaded with one resource holds that resource at the transfer's amount and at most one extra slot |
| Logistics.LoadKeepsOthers | common/ecs/components.ts:164-175 | loading a resource rewrites the first slot with that key in place, or appends a slot when none has it; every slot with another key stays where it was |
| Logistics.Spawn | common/ecs/systems/LogisticsSystem.ts:18-29 | a ship takes the next id, a copy of the base's position and the transfer's cargo; existing entities keep their components |
| Logistics.SpawnAll | common/ecs/systems/LogisticsSystem.ts:15-32 | spawning a base's transfers advances the id counter by one per transfer, keeps every existing position and leaves transfer lists and economies alone |
| Logistics.SpawnAllKeeps | common/ecs/systems/LogisticsSystem.ts:18-29 | every entity older than the counter keeps its position and cargo while ships are spawned |
| Logistics.SpawnAllShips | common/ecs/systems/LogisticsSystem.ts:15-29 | transfer i of n becomes the ship numbered next+(n-1-i), at the base's position, carrying that transfer's resource and amount toward its target |
| Logistics.SpawnAllFresh | common/ecs/systems/LogisticsSystem.ts:18 | spawning keeps every id below the counter |
| Logistics.DispatchOne | common/ecs/systems/LogisticsSystem.ts:11-33 | a base with a position ends with an empty transfer list; a base without one is left alone |
| Logistics.Dispatch | common/ecs/systems/LogisticsSystem.js:8-32 | the first phase keeps economies, the set of bases and every older entity's position and cargo |
| Logistics.DispatchEmpties | common/ecs/systems/LogisticsSystem.ts:15-31 | after the first phase every listed base has no transfer left and an unlisted base keeps its list |
| Logistics.Unload | common/ecs/systems/LogisticsSystem.ts:55-63 | unloading adds exactly the hold's keys to the economy's fields |
| Logistics.UnloadTs | common/ecs/systems/LogisticsSystem.ts:55-61 | in TypeScript a present field gains everything the hold carries of it, a new field is created with that amount, other fields are untouched |
| Logistics.UnloadJsMissingIsNaN | common/ecs/systems/LogisticsSystem.js:53-54 | in JavaScript any hold key the economy lacks ends NaN |
| Logistics.UnloadTwinsAgree | common/ecs/systems/LogisticsSystem.js:53-56 | the twins unload alike when the economy already has every field the hold mentions |
| Logistics.HeadingTowardTarget | common/ecs/systems/LogisticsSystem.ts:68-71 | a moving ship's velocity points at its target with speed 0.05 |
| Logistics.MoveOne | common/ecs/systems/LogisticsSystem.ts:37-78 | a ship not traveling to a positioned target is left alone; one within distance 1 unloads into its target's economy and is destroyed; one further away keeps its cargo and the economies; no other entity's position or cargo changes |
| Logistics.MoveAll | common/ecs/systems/LogisticsSystem.js:35-73 | ships not in the captured list neither move nor change cargo |
| Logistics.NewShipsStayPut | common/ecs/systems/LogisticsSystem.ts:6-37 | a ship spawned this tick does not move this tick, because the ship list was captured before spawning |
| Logistics.Tick | common/ecs/systems/LogisticsSystem.ts:6-78 | a tick dispatches the bases and then moves the captured ships; the counter never goes back and every older entity outside the captured ship list keeps its position and cargo |
| Logistics.Destroy | common/ecs/World.ts:44-59 | a destroyed entity leaves every component map and every other entity keeps its components |
| Harvest.NearestBase | src/ecs/systems/HarvestSystem.ts:146-165 | the chosen base is a listed base of the player at the least ground distance; none exactly when the player has no listed base |
| Harvest.NearestBaseFirst | src/ecs/systems/HarvestSystem.ts:158 | among equally near bases the earliest listed one is chosen |
| Harvest.Step | src/ecs/systems/HarvestSystem.ts:17-142 | one harvester's step changes no other harvester, no owner, building or position |
| Harvest.ToResource | src/ecs/systems/HarvestSystem.ts:29-56 | heading for the resource ends in IDLE, MOVING_TO_RESOURCE or HARVESTING and touches only this harvester |
| Harvest.HarvestTick | src/ecs/systems/HarvestSystem.ts:58-89 | a harvesting step ends in HARVESTING or MOVING_TO_BASE, or IDLE without a target, and touches only this harvester |
| Harvest.ToBase | src/ecs/systems/HarvestSystem.ts:91-117 | heading for base ends in IDLE, MOVING_TO_BASE or DEPOSITING and touches only this harvester |
| Harvest.DepositTick | src/ecs/systems/HarvestSystem.ts:119-141 | a depositing step ends in DEPOSITING, MOVING_TO_RESOURCE or IDLE and touches only this harvester |
| Harvest.StepFollowsArrows | src/ecs/systems/HarvestSystem.ts:24-142 | every step follows the cycle resource, harvest, base, deposit, resource, or falls back to IDLE; an IDLE harvester is left alone |
| Harvest.ResourceArrival | src/ecs/systems/HarvestSystem.ts:35-55 | a vanished or exhausted node sends the harvester IDLE and stops it; within ground distance 1.5 it stops and starts harvesting; farther away it steers to the node |
| Harvest.HarvestBatch | src/ecs/systems/HarvestSystem.ts:70-87 | a batch offers min(rate, node amount), the node loses exactly what the hold accepted, the timer resets, and a full hold heads for base; the node never goes negative |
| Harvest.DepositMovesAll | src/ecs/systems/HarvestSystem.ts:125-140 | a deposit moves the whole hold into the base's stockpile, clears the hold and heads back to the resource; without a stockpile the load stays aboard |
| Harvest.BaseArrival | src/ecs/systems/HarvestSystem.ts:93-116 | with no base and none to find the harvester goes IDLE; within ground distance 2 of its base it starts depositing |
| Harvest.Update | src/ecs/systems/HarvestSystem.ts:14-144 | an update keeps the set of harvesters |
| Harvest.UpdateKeepsIdle | src/ecs/systems/HarvestSystem.ts:25-27 | an IDLE harvester is left exactly as it is by a whole update |
| RouteGen.PairsMembers | src/core/world/RouteGenerator.ts:12-15 | a route comes out of the remaining pair loop exactly when some pair still ahead produces it |
| RouteGen.AllPairsMembers | src/core/world/RouteGenerator.ts:12-50 | the nested loops visit every index pair a < b, so each unordered pair once |
| RouteGen.Cross | src/core/world/RouteGenerator.ts:23-31 | the routes joining two clusters are exactly the InterCluster routes from a centre of the first to a centre of the second |
| RouteGen.Row | src/core/world/RouteGenerator.ts:24-30 | one centre is joined to every centre of the other cluster, in order |
| RouteGen.CrossLength | src/core/world/RouteGenerator.ts:23-31 | two adjacent clusters are joined by one route per pair of centres |
| RouteGen.InterRoutesExact | src/core/world/RouteGenerator.ts:8-37 | an inter-cluster route joins a centre of an earlier cluster to a centre of a later cluster one grid step away on exactly one axis, and every such pair is joined |
| RouteGen.SqDist | src/core/world/RouteGenerator.ts:81-87 | the squared distance is never negative |
| RouteGen.MaxMonotone | src/core/world/RouteGenerator.ts:62 | comparing the larger of two distances with a third gives the same answer on squared distances |
| RouteGen.BlockedExact | src/core/world/RouteGenerator.ts:55-66 | the early-exit scan over third systems rejects a pair exactly when some third system is nearer to both ends than they are to each other |
| RouteGen.IntraPairAt | src/core/world/RouteGenerator.ts:50-74 | a pair yields a route from the earlier system to the later exactly when it passes the relative-neighbourhood test |
| RouteGen.IntraRoutesExact | src/core/world/RouteGenerator.ts:42-79 | an intra-cluster route joins an earlier system to a later one exactly when no third system is nearer to both, and it is typed InterCluster as written |
| RouteGen.IntraNoSelfRoutes | src/core/world/RouteGenerator.ts:49-50 | with distinct system ids no route starts and ends at the same system |
| Protocol.Lookup | server/network/Protocol.ts:92-104 | reading a key no property has gives `undefined` |
| Protocol.LookupFirst | server/network/Protocol.ts:92-104 | reading a key gives the value of the first property with that key |
| Protocol.Index | server/network/Protocol.ts:94-116 | a property key names an array index only when it is the canonical decimal text of that index |
| Protocol.IndexOfDecimal | server/network/Protocol.ts:116 | the decimal text of every index reads back as that index |
| Protocol.IndexKeys | server/network/Protocol.ts:122 | an array's own keys are the decimal texts of its indices, in order |
| Protocol.DeepEqRefl | server/network/Protocol.ts:113-132 | the structural equality the delta is meant to use is reflexive |
| Protocol.KeepChanged | server/network/Protocol.ts:92-108 | the delta holds exactly the new snapshot's properties that the comparison flags against the old value under the same key, in order |
| Protocol.KeepChangedUnique | server/network/Protocol.ts:97-105 | a delta built from a snapshot with unique keys has unique keys |
| Protocol.KeepChangedNone | server/network/Protocol.ts:92-110 | nothing flagged, nothing kept |
| Protocol.KeepChangedHasKey | server/network/Protocol.ts:92-108 | a key of the new snapshot is kept exactly when flagged, with the new value |
| Protocol.Delta | server/network/Protocol.ts:89-111 | every property of the delta is a property of the new snapshot |
| Protocol.Overlay | server/network/Protocol.ts:138 | spreading the delta over the base keeps the base's keys in place and replaces exactly the values the delta names |
| Protocol.Fresh | server/network/Protocol.ts:138 | the keys the delta adds are exactly its keys the base lacks |
| Protocol.ApplyDelta | server/network/Protocol.ts:137-139 | the merge keeps the base's keys first and in place, and its keys are exactly those of the base and those of the delta |
| Protocol.MergedKeys | server/network/Protocol.js:162-170 | a key is in the merged snapshot exactly when the base or the delta has it |
| Protocol.ApplyDeltaLookup | server/network/Protocol.js:162-170 | after a merge a key reads the delta's value when the delta has it and the base's otherwise |
| Protocol.DeltaHasKey | server/network/Protocol.ts:92-108 | a key of the new snapshot is in the delta exactly when it changed, with the new value |
| Protocol.DeltaEmpty | server/network/Protocol.ts:68-110 | when no key changed the delta is empty |
| Protocol.RoundTrip | server/network/Protocol.ts:89-139 | applying the delta to the snapshot it came from gives every key of the new snapshot its new value when it changed and its old value otherwise; dropped keys keep their old value |
| Protocol.StructuralRoundTrip | server/network/Protocol.ts:89-139 | with structural comparison every key of the new snapshot reads back a value structurally equal to the new one |
| Protocol.RebuiltArrayResent | server/network/Protocol.ts:113-119 | `===` compares nested arrays and objects by identity, so a list rebuilt with equal contents is sent again where a structural comparison would send nothing |
| Protocol.StringPassesForArray | server/network/Protocol.ts:93-118 | a string under a key that now holds an array of its characters counts as unchanged |
| NetProtocol.Initial | server/network/Protocol.ts:19-28 | a new protocol remembers no snapshot and has all counters at 0 |
| NetProtocol.Encode | server/network/Protocol.ts:33-38 | encoding counts its bytes and one packet sent and no other counter |
| NetProtocol.Decode | server/network/Protocol.ts:43-48 | decoding counts its bytes and one packet received and no other counter |
| NetProtocol.CreateDelta | server/network/Protocol.ts:53-84 | no packet leaves the session untouched; a packet remembers the new snapshot for that player and counts at least one sent packet of at least its size; nothing received is counted |
| NetProtocol.FirstIsFull | server/network/Protocol.ts:56-64 | the first snapshot for a player goes out whole and is remembered |
| NetProtocol.NoChangeSendsNothing | server/network/Protocol.ts:66-70 | when nothing changed no packet is sent and the session, remembered snapshot included, is untouched |
| NetProtocol.DeltaSent | server/network/Protocol.js:73-93 | a changed snapshot sends exactly the delta and remembers the new snapshot; the TypeScript twin counts one packet and the JavaScript twin two, since it measures the full size by encoding it |
| NetProtocol.PlayersIndependent | server/network/Protocol.ts:54-78 | a snapshot for one player never touches what is remembered for another |
| NetProtocol.ClearPlayer | server/network/Protocol.ts:173-175 | clearing forgets exactly that player and keeps the counters |
| NetProtocol.ClearedPlayerGetsFull | server/network/Protocol.ts:173-175 | after clearing, the player's next snapshot is full |
| NetProtocol.ResetMetrics | server/network/Protocol.ts:160-168 | every counter returns to 0 and the remembered snapshots are kept |
| NetProtocol.Divide | server/network/Protocol.js:176-177 | JavaScript division by a non-zero number is ordinary division, and 0/0 is NaN |
| NetProtocol.CompressionRatio | server/network/Protocol.ts:145-147 | the TypeScript ratio is 0 unless something could have been sent and the saved share in percent otherwise; the JavaScript twin divides regardless |
| NetProtocol.FreshRatios | server/network/Protocol.js:176-177 | before anything is sent the TypeScript ratio is 0 and the JavaScript ratio NaN |
| NetProtocol.AveragePacketSize | server/network/Protocol.ts:152-153 | the average is 0 before any packet and otherwise times the packet count gives the bytes sent |
| Interest.Empty | server/network/InterestManager.ts:30-43 | a new manager satisfies both invariants: the grid holds each tracked entity in its cell, and each positioned player's interests are the tracked entities in the 27 cells around it |
| Interest.CellOfBounds | server/network/InterestManager.ts:45-50 | a position lies inside its cell, from size·c inclusive to size·(c+1) exclusive on each axis |
| Interest.NeighborCellsExact | server/network/InterestManager.ts:52-65 | the 27 listed cells are exactly those within one step of the cell on every axis |
| Interest.NearSymmetric | server/network/InterestManager.ts:155 | a cell is near another exactly when the other is near it |
| Interest.GatherMembers | server/network/InterestManager.ts:132-139 | an entity is gathered exactly when one of the listed cells holds it |
| Interest.RecomputeInterest | server/network/InterestManager.ts:124-142 | recomputing interest touches only the interests, and nothing for a player without a position |
| Interest.GatherExpected | server/network/InterestManager.ts:128-141 | under the grid invariant the gathered set is exactly the tracked entities in cells near the player's |
| Interest.UpdatePlayerPosition | server/network/InterestManager.ts:67-77 | the position is stored; interest is recomputed on the first call and whenever any coordinate differs, and otherwise kept |
| Interest.UpdatePlayerPositionKeepsInv | server/network/InterestManager.ts:67-77 | moving a player keeps both invariants |
| Interest.Unplace | server/network/InterestManager.ts:83-115 | the entity leaves its cell, the cell is dropped once empty, and other cells are untouched |
| Interest.Place | server/network/InterestManager.ts:94-99 | the entity joins its cell, which is created if needed, and other cells are untouched |
| Interest.Spread | server/network/InterestManager.ts:144-166 | every player whose cell is near the entity's gains it, getting a set if it had none; every other player loses it |
| Interest.UpdateEntity | server/network/InterestManager.ts:79-102 | the entity is tracked at its new position with its data and the players are untouched |
| Interest.UpdateEntityKeepsInv | server/network/InterestManager.ts:79-102 | updating an entity keeps both invariants |
| Interest.RemoveEntity | server/network/InterestManager.ts:104-122 | an unknown entity is ignored; a known one stops being tracked |
| Interest.RemoveEntityKeepsInv | server/network/InterestManager.ts:104-122 | removing an entity keeps both invariants, and afterwards nobody is interested in it |
| Interest.RemovePlayer | server/network/InterestManager.ts:213-216 | exactly that player's position and interests go |
| Interest.RemovePlayerKeepsInv | server/network/InterestManager.ts:213-216 | removing a player keeps both invariants |
| Interest.Clear | server/network/InterestManager.ts:218-229 | everything is emptied, the counters reset and the cell size kept, and the invariants hold |
| Interest.InterestsOf | server/network/InterestManager.ts:168-184 | a player's interests are restricted to entities still tracked; an unknown player has none |
| Interest.InterestsOfExact | server/network/InterestManager.ts:168-184 | under the invariants a player sees exactly the tracked entities whose cell is near its own |
| Interest.Keep | server/network/InterestManager.ts:192 | the filter keeps exactly the items whose id is interesting |
| Interest.Reduction | server/network/InterestManager.ts:196-197 | the reduction ratio lies in [0, 100], is 100 exactly when nothing is kept and 0 exactly when everything of a non-empty list is |
| Interest.Filter | server/network/InterestManager.ts:186-200 | filtering changes only the counters: the total becomes the list length, the sent count grows by the kept items and the update count by one |
| Interest.KeepAppend | server/network/InterestManager.ts:192 | filtering keeps input order: it distributes over concatenation |
| Interest.KeepAll | server/network/InterestManager.ts:192 | when every id is interesting the list comes back unchanged |
| Interest.UnknownPlayerGetsNothing | server/network/InterestManager.ts:169-192 | an unknown player is sent nothing |
| Interest.AverageEntitiesPerUpdate | server/network/InterestManager.ts:206-207 | the average is 0 before any update and otherwise times the update count gives the entities sent |
| Selection.SelectionState.GetSelectedCount | src/ecs/components/SelectionStateComponent.ts:25-27 | the count is the number of distinct selected entities |
| Selection.SelectionState.HasSelection | src/ecs/components/SelectionStateComponent.ts:29-31 | true exactly when some entity is selected |
| Selection.SelectionState.ClearSelection | src/ecs/components/SelectionStateComponent.ts:33-35 | afterwards nothing is selected and the drag box is kept |
| Selection.SelectionState.AddEntity | src/ecs/components/SelectionStateComponent.ts:37-39 | the entity becomes selected and no other entity's selection changes |
| Selection.SelectionState.RemoveEntity | src/ecs/components/SelectionStateComponent.ts:41-43 | the entity becomes unselected and no other entity's selection changes |
| Selection.SelectionState.ToggleEntity | src/ecs/components/SelectionStateComponent.ts:45-51 | toggling flips whether the entity is selected and nothing else |
| Selection.SelectionState.GetSelectedEntities | src/ecs/components/SelectionStateComponent.ts:57-59 | each selected entity is listed exactly once and nothing else is |
| Selection.ToggleTwice | src/ecs/components/SelectionStateComponent.ts:45-51 | toggling twice restores who is selected |
| Selection.AddIdempotent | src/ecs/components/SelectionStateComponent.ts:37-39 | adding twice is adding once, and adding a selected entity changes nothing |
| Selection.GetSelectionState | src/ecs/components/SelectionStateComponent.ts:69-75 | the singleton is found exactly when some entity holds one, and it is that entity's component; otherwise an error |
| Selection.HoldersAreListed | src/ecs/components/SelectionStateComponent.ts:70 | every holder of the singleton is in the query's answer |
| SpatialGrid.Empty | src/core/utils/SpatialGrid.ts:4-10 | a new grid is consistent: every remembered entity is listed once, in the cell of its position, and nowhere else, and no cell is empty |
| SpatialGrid.HeightIgnored | src/core/utils/SpatialGrid.ts:12-16 | positions differing only in height share a cell |
| SpatialGrid.RemoveFirst | src/core/utils/SpatialGrid.ts:33-36 | one occurrence of the id leaves the cell list (the multiset loses exactly one copy) and an absent id leaves it unchanged |
| SpatialGrid.RemoveFirstSplice | src/core/utils/SpatialGrid.ts:33-36 | the occurrence removed is the first one: the result is the list before it followed by the list after it |
| SpatialGrid.Insert | src/core/utils/SpatialGrid.ts:18-25 | the position is remembered and the id is appended to its cell, created if needed; other cells are untouched |
| SpatialGrid.Remove | src/core/utils/SpatialGrid.ts:27-43 | an unknown id is ignored; a known id is forgotten and one occurrence leaves its cell, which is dropped once empty |
| SpatialGrid.Update | src/core/utils/SpatialGrid.ts:45-48 | the entity's remembered position becomes the new one |
| SpatialGrid.InsertFreshKeeps | src/core/utils/SpatialGrid.ts:18-25 | inserting an entity the grid does not know keeps it consistent |
| SpatialGrid.RemoveKeeps | src/core/utils/SpatialGrid.ts:27-43 | removing keeps the grid consistent and the id is listed in no cell |
| SpatialGrid.UpdateKeeps | src/core/utils/SpatialGrid.ts:45-48 | updating keeps the grid consistent whether or not the id was known |
| SpatialGrid.ReinsertLeavesStale | src/core/utils/SpatialGrid.ts:18-25 | inserting a known entity into another cell without removing it first leaves it listed in its old cell too, breaking consistency |
| SpatialGrid.Select | src/core/utils/SpatialGrid.ts:62-91 | a cell's scan keeps exactly the ids passing the test |
| SpatialGrid.ScanMembers | src/core/utils/SpatialGrid.ts:57-70 | an id is scanned exactly when it passes the test and some cell of the box lists it |
| SpatialGrid.QueryRect | src/core/utils/SpatialGrid.ts:74-96 | on any grid, consistent or not, every id the rectangle query returns is remembered at a position inside the rectangle |
| SpatialGrid.QueryRectExact | src/core/utils/SpatialGrid.ts:74-96 | on a consistent grid the rectangle query finds exactly the entities inside the rectangle |
| SpatialGrid.QueryCircle | src/core/utils/SpatialGrid.ts:50-72 | on any grid every id the circle query returns is remembered at a position within the radius of the centre |
| SpatialGrid.QueryCircleExact | src/core/utils/SpatialGrid.ts:50-72 | on a consistent grid the circle query finds exactly the entities within the radius of the centre |
| SpatialGrid.AllEntities | src/core/utils/SpatialGrid.ts:98-100 | on a consistent grid the remembered ids are exactly those some cell lists |
| Interpolation.Create | src/network/SnapshotInterpolator.ts:25-37 | a new interpolator has no buffers, no rendered states, zeroed counters and the given delay |
| Interpolation.Overflow | src/network/SnapshotInterpolator.ts:54-57 | the `shift` loop drops nothing from a buffer of at most five and otherwise exactly enough to leave five |
| Interpolation.AddSnapshot | src/network/SnapshotInterpolator.ts:39-60 | the entity gets a buffer (appended to the map order when new) and every other entity's buffer is untouched |
| Interpolation.AddSnapshotBounded | src/network/SnapshotInterpolator.ts:48-59 | afterwards the buffer is sorted by timestamp and holds at most five snapshots, and below five the new snapshot is kept |
| Interpolation.AddSnapshotBelowCapacity | src/network/SnapshotInterpolator.ts:48-59 | from a sorted buffer below five the new snapshot is inserted in timestamp order and nothing is dropped |
| Interpolation.AddSnapshotFull | src/network/SnapshotInterpolator.ts:48-59 | from a full sorted buffer exactly the oldest snapshot is dropped and counted, and the new one is inserted among the rest |
| Interpolation.AddSnapshotKeepsBuffered | src/network/SnapshotInterpolator.ts:39-60 | every buffer stays sorted, non-empty and within five snapshots |
| Interpolation.FirstBracket | src/network/SnapshotInterpolator.ts:83-90 | the loop finds the first adjacent pair whose timestamps enclose the instant, or reports that no pair does |
| Interpolation.Choose | src/network/SnapshotInterpolator.ts:69-104 | an empty buffer renders nothing, a single snapshot renders as is, and a blended pair encloses the instant with a factor in [0, 1] |
| Interpolation.FactorInUnit | src/network/SnapshotInterpolator.ts:102-104 | the blending factor of an enclosing pair lies in [0, 1]; it is 0 for a zero span and otherwise places the older timestamp plus factor times span exactly at the render instant |
| Interpolation.CoveredTimeBlends | src/network/SnapshotInterpolator.ts:83-100 | a sorted buffer whose first and last timestamps enclose the instant always blends a pair; the latest state is used only outside that range |
| Interpolation.OrZero | src/network/SnapshotInterpolator.ts:138 | `value \|\| 0` gives 0 for every falsy value and the number itself for a number |
| Interpolation.AsNumber | src/network/SnapshotInterpolator.ts:155 | an array element used as a number is its own value when it is a number |
| Interpolation.Lerp | src/network/SnapshotInterpolator.ts:138-139 | blending two numbers gives a + (b - a)·t; a NaN new value gives NaN; an old value that is neither a number nor coerced to one gives NaN (weaker than JavaScript's concatenation, see Left out) |
| Interpolation.InterpolateArray | src/network/SnapshotInterpolator.ts:148-163 | the blended array has the new array's length and copies every non-numeric element; an old value without a numeric length makes it empty |
| Interpolation.InterpolateFields | src/network/SnapshotInterpolator.ts:127-146 | the blend has one field per field of the new state |
| Interpolation.InterpolateKeepsKeys | src/network/SnapshotInterpolator.ts:130 | the blended state has exactly the new state's keys, in order |
| Interpolation.InterpolateAt | src/network/SnapshotInterpolator.ts:131-142 | each field of the blend is built from the same field of the new state: numbers blend against the old value read with `\|\| 0`, other scalars are copied |
| Interpolation.InterpolateEnds | src/network/SnapshotInterpolator.ts:138-139 | at t = 1 a numeric field takes the new value and at t = 0 keeps the old one |
| Interpolation.Interpolate | src/network/SnapshotInterpolator.ts:127-146 | the result is an object whose keys are exactly the ones `for...in` visits on the new state: an object's keys in order, an array's or a string's decimal indices, none for any other value |
| Interpolation.IndexedFields | src/network/SnapshotInterpolator.ts:130 | the entries visited on an array or a string are keyed by its decimal indices, one per element or character |
| Interpolation.Smooth | src/network/SnapshotInterpolator.ts:121 | the running latency average moves toward the new latency without passing it |
| Interpolation.Render | src/network/SnapshotInterpolator.ts:68-122 | an entity with an empty buffer renders nothing; otherwise exactly one state is rendered and stored for it; buffers, delay and the receive and drop counters are untouched |
| Interpolation.UpdateEach | src/network/SnapshotInterpolator.ts:68-122 | at most one state is rendered per listed entity and only for listed entities |
| Interpolation.Update | src/network/SnapshotInterpolator.ts:62-125 | `update` records the time, keeps the buffers and renders at most one state per buffered entity |
| Interpolation.UpdateEachRendersAll | src/network/SnapshotInterpolator.ts:68 | with every buffer non-empty each buffered entity is rendered exactly once, in the map's order |
| Interpolation.EntityState | src/network/SnapshotInterpolator.ts:165-167 | the last rendered state is returned when it is truthy, and null otherwise |
| Interpolation.RenderedStateReadsBack | src/network/SnapshotInterpolator.ts:112-167 | an entity just rendered from a blended pair reads back the state that was rendered |
| Interpolation.AllStates | src/network/SnapshotInterpolator.ts:169-178 | every rendered state is listed once with its id, in the map's order |
| Interpolation.RemoveEntity | src/network/SnapshotInterpolator.ts:180-183 | the entity's buffer and rendered state go; every other entity's buffer and rendered state, the metrics, the delay and the last update time stay |
| Interpolation.Clear | src/network/SnapshotInterpolator.ts:185-194 | buffers, states and counters are reset; the delay and the last update time stay |
| Interpolation.ActiveEntities | src/network/SnapshotInterpolator.ts:200 | the active entity count counts each buffered entity once |
| Interpolation.SetDelay | src/network/SnapshotInterpolator.ts:204-206 | only the delay changes |
| Interpolation.SetDelayShiftsInstant | src/network/SnapshotInterpolator.ts:204-206 | the next update after setting a delay renders the instant now minus that delay |
| Sorting.InsertBy | src/prediction/CommandBuffer.ts:102 | insertion adds exactly the one element |
| Sorting.InsertSorted | src/prediction/CommandBuffer.ts:102 | insertion keeps a sorted sequence sorted |
| Sorting.SortBy | src/prediction/CommandBuffer.ts:102 | `sort((a, b) => a.timestamp - b.timestamp)` returns a permutation of its input in ascending key order |
| Sorting.SortSorted | src/network/SnapshotInterpolator.ts:59 | sorting an already sorted sequence changes nothing, which the stability of `Array.prototype.sort` promises |
| Sorting.PrefixBelow | src/prediction/CommandBuffer.ts:102-107 | every element of a sorted prefix has a key no larger than every element after it |
| CommandBuffer.Create | src/prediction/CommandBuffer.ts:25-31 | a new buffer has three empty maps, is keyed, and keeps the given size and age limits |
| CommandBuffer.WhereMembers | src/prediction/CommandBuffer.ts:82-87 | filtering the pending map returns exactly the stored commands that pass, each once |
| CommandBuffer.ValuesExact | src/prediction/CommandBuffer.ts:99-113 | `Array.from(map.values())` lists each stored command once, in insertion order |
| CommandBuffer.DeleteAllFacts | src/prediction/CommandBuffer.ts:92-107 | deleting distinct stored ids removes exactly those entries and shrinks the map by their number |
| CommandBuffer.Expired | src/prediction/CommandBuffer.ts:85-88 | the expired commands are exactly the pending-map commands older than the age limit |
| CommandBuffer.CleanupExpired | src/prediction/CommandBuffer.ts:90-96 | cleanup reports the number of expired commands and leaves the confirmed and rejected maps and the limits alone |
| CommandBuffer.CleanupExpiredExact | src/prediction/CommandBuffer.ts:90-96 | exactly the expired commands go, the rest stay unchanged, and the pending count drops by the number reported |
| CommandBuffer.EvictCount | src/prediction/CommandBuffer.ts:104 | eviction removes at least one and at most n commands, about a tenth of them |
| CommandBuffer.SortedValues | src/prediction/CommandBuffer.ts:99-102 | the sorted copy holds each stored command once |
| CommandBuffer.PrefixOldest | src/prediction/CommandBuffer.ts:102-107 | deleting the ids of a sorted prefix leaves only commands no older than every deleted one |
| CommandBuffer.OldestEvicted | src/prediction/CommandBuffer.ts:98-108 | making room removes exactly the eviction count, and no removed command is newer than a kept one |
| CommandBuffer.Enrich | src/prediction/CommandBuffer.ts:38-43 | the stored copy keeps every field of the command and adds the time, a retry count of 0 and no last retry |
| CommandBuffer.RoomFacts | src/prediction/CommandBuffer.ts:34-36 | making room keeps a subset of the pending commands unchanged, at least one fewer when full, and nothing changes below the limit |
| CommandBuffer.Add | src/prediction/CommandBuffer.ts:33-50 | adding never touches the confirmed or rejected maps or the limits |
| CommandBuffer.AddBounded | src/prediction/CommandBuffer.ts:33-50 | with a limit of at least one the pending count never exceeds it, and every command stays under its own id |
| CommandBuffer.AddStores | src/prediction/CommandBuffer.ts:38-48 | the added command is stored enriched unless it has already expired when the periodic cleanup runs |
| CommandBuffer.AddKeepsOthers | src/prediction/CommandBuffer.ts:33-50 | every other pending command left after adding was there before, unchanged |
| CommandBuffer.Get | src/prediction/CommandBuffer.ts:52-54 | the pending command with that id, and nothing when there is none |
| CommandBuffer.UpdateStatus | src/prediction/CommandBuffer.ts:56-73 | the call answers false exactly for an id not pending, and then changes nothing |
| CommandBuffer.UpdateStatusMoves | src/prediction/CommandBuffer.ts:60-70 | a known command ends in exactly one map chosen by its status, carrying the new status, server data and time; nothing else changes |
| CommandBuffer.UpdateStatusKeepsTotal | src/prediction/CommandBuffer.ts:64-70 | moving a command between maps keeps the total count |
| CommandBuffer.Remove | src/prediction/CommandBuffer.ts:75-79 | the id is forgotten in all three maps and every other id is untouched |
| CommandBuffer.Clear | src/prediction/CommandBuffer.ts:131-135 | all three maps are emptied and the limits kept |
| CommandBuffer.PendingCommands | src/prediction/CommandBuffer.ts:81-83 | exactly the pending-map commands whose status is 'pending'; ones given another status stay in the map but are not listed |
| CommandBuffer.Round | src/prediction/CommandBuffer.ts:127 | `Math.round` lands within one half of its argument, halves rounded up |
| CommandBuffer.AverageLatency | src/prediction/CommandBuffer.ts:115-120 | the mean latency of the confirmed commands, 0 when there are none |
| CommandBuffer.AverageLatencyBounds | src/prediction/CommandBuffer.ts:115-120 | the mean lies within any bounds every confirmed command's latency lies within |
| CommandBuffer.GetStats | src/prediction/CommandBuffer.ts:110-129 | the three counts are the map sizes, their sum is the total, and the reported latency is the rounded mean |
| CommandBuffer.CommandsByType | src/prediction/CommandBuffer.js:102-105 | exactly the pending-map commands of that type |
| CommandBuffer.CommandsForEntity | src/prediction/CommandBuffer.js:112-115 | exactly the pending-map commands whose entity strictly equals the given one |
| CommandBuffer.HasPendingCommandExact | src/prediction/CommandBuffer.js:123-129 | true exactly when some pending-map command of that entity is 'pending' and has the type, if one is given |
| CommandBuffer.MarkForRetry | src/prediction/CommandBuffer.js:175-183 | a known command gains one retry stamped now; an unknown id changes nothing and answers false |
| CommandBuffer.RetryEligible | src/prediction/CommandBuffer.js:190-198 | exactly the pending-map commands that are pending, last retried more than the delay ago or never, and retried fewer than three times |
| CommandBuffer.RetryBackoff | src/prediction/CommandBuffer.js:175-198 | a command just marked for retry is not eligible again until more than the delay has passed, and one retried three times never is |
| CommandBuffer.GetHistory | src/prediction/CommandBuffer.js:205-216 | each map's commands no older than the given age |
| CommandBuffer.HistoryComplementsExpired | src/prediction/CommandBuffer.js:205-216 | with the buffer's own age limit every pending command is either in the history or expired, never both |
| CommandBuffer.Update | src/prediction/CommandBuffer.js:302-304 | the periodic update keeps exactly the pending commands that have not expired |
| CommandBuffer.TallyCounts | src/prediction/CommandBuffer.js:237-240 | the tally has a key for each type that occurs, holding its number of commands, and no other key |
| CommandBuffer.TypeCounts | src/prediction/CommandBuffer.js:237-240 | the type counts cover the pending, confirmed and rejected commands together |
| CommandBuffer.MinStamp | src/prediction/CommandBuffer.js:250 | `Math.min` of the timestamps is one of them and no larger than any |
| CommandBuffer.OldestPending | src/prediction/CommandBuffer.js:249-251 | the oldest pending age is never negative, at least every pending command's age, and 0 when none is pending |
| CommandBuffer.OldestAge | src/prediction/CommandBuffer.js:250 | now minus the smallest timestamp is the largest age of a stored command |
| CommandBuffer.ExportState | src/prediction/CommandBuffer.js:268-279 | the export lists each map's commands once and carries the stats and the limits |
| CommandBuffer.OrInt | src/prediction/CommandBuffer.js:287 | `value \|\| fallback` keeps a non-zero value and otherwise falls back |
| CommandBuffer.LoadKeyed | src/prediction/CommandBuffer.js:290-294 | loaded commands are stored under their own ids, and exactly the listed ids are stored |
| CommandBuffer.ImportState | src/prediction/CommandBuffer.js:285-297 | a truthy limit replaces the current one; a supplied list replaces the pending map; confirmed and rejected commands stay |
| CommandBuffer.ExportImport | src/prediction/CommandBuffer.js:268-297 | importing an export restores the pending map exactly and the limits unless one was 0, which `\|\|` treats as missing |
| StateReconciler.Index | src/prediction/StateReconciler.ts:117-118 | the id-keyed map of an entity list has no duplicate keys and its key order agrees with its entries |
| StateReconciler.IndexKeys | src/prediction/StateReconciler.ts:117-118 | an id is a key of the map exactly when some entity of the list carries it |
| StateReconciler.SqDist | src/prediction/StateReconciler.ts:177-184 | the squared distance fed to `Math.sqrt` is never negative, a missing z counting as 0 |
| StateReconciler.SeverityFor | src/prediction/StateReconciler.ts:140 | a position deviation is high exactly when its magnitude exceeds one unit |
| StateReconciler.DiffTotal | src/prediction/StateReconciler.js:258-283 | the total resource deviation, summed over the differences beyond 0.01, is never negative |
| StateReconciler.TextDiffersIsInequality | src/prediction/StateReconciler.js:288-307 | the three-way building and fleet test (only one side present, or both present with different JSON text) is plain inequality of the optional texts |
| StateReconciler.Compared | src/prediction/StateReconciler.js:119-183 | comparing two present entities only reports deviations naming that entity, never a missing or extra one; the TypeScript twin reports positions only |
| StateReconciler.AtServerKey | src/prediction/StateReconciler.ts:122-148 | visiting a server id reports only about that id, which the server map holds, and never an extra entity; the TypeScript twin reports only missing entities and positions |
| StateReconciler.AtLocalKey | src/prediction/StateReconciler.ts:150-159 | visiting a local id reports at most that the id is extra: held locally and not by the server |
| StateReconciler.ServerPass | src/prediction/StateReconciler.ts:122-148 | the server loop reports only about ids the server map holds, never an extra entity |
| StateReconciler.LocalPass | src/prediction/StateReconciler.ts:150-159 | the local loop reports only extra entities, each held locally and not by the server |
| StateReconciler.AtKeyNamesKey | src/prediction/StateReconciler.ts:120-159 | every deviation reported while visiting an id names that id |
| StateReconciler.ServerPassMembers | src/prediction/StateReconciler.ts:120-148 | the loop over the server map reports exactly what the visit of each server id reports |
| StateReconciler.LocalPassMembers | src/prediction/StateReconciler.ts:150-159 | the loop over the local map reports exactly what the visit of each local id reports |
| StateReconciler.CompareMembers | src/prediction/StateReconciler.ts:112-165 | a deviation is listed exactly when the server loop reports it for its id or the local loop does |
| StateReconciler.CompareStates | src/prediction/StateReconciler.ts:112-165 | every deviation is about an entity on the server's list, except extra entities, which are on the local list only; the TypeScript twin reports only missing, extra and position deviations |
| StateReconciler.ComparedPosition | src/prediction/StateReconciler.ts:134-146 | comparing two present entities yields a position deviation exactly when both positions are present and differ in some coordinate and the distance exceeds the threshold; it carries both positions and the distance |
| StateReconciler.ComparedResources | src/prediction/StateReconciler.js:147-159 | the JavaScript twin reports resources exactly when both sides carry them and some local key differs by more than 0.01, carrying the total over both sides' keys |
| StateReconciler.ComparedTexts | src/prediction/StateReconciler.js:161-183 | the JavaScript twin reports buildings, and fleets, exactly when the two sides differ, carrying both values |
| StateReconciler.ComparedKinds | src/prediction/StateReconciler.ts:120-148 | comparing two entities present on both sides never reports them missing or extra |
| StateReconciler.MissingReported | src/prediction/StateReconciler.ts:124-132 | an entity is reported missing exactly when the server has it and the local state does not |
| StateReconciler.ExtraReported | src/prediction/StateReconciler.js:187-197 | an entity is reported extra, with its local data, exactly when the local state has it and the server does not |
| StateReconciler.PositionReported | src/prediction/StateReconciler.ts:112-165 | a position deviation is in the comparison exactly when the entity is on both sides with both positions present and different, the distance exceeds the threshold, and the severity is high exactly beyond one unit |
| StateReconciler.ResourcesReported | src/prediction/StateReconciler.js:105-205 | the JavaScript comparison lists a resource deviation exactly for entities on both sides whose resources both exist and differ beyond 0.01 on a local key |
| StateReconciler.TextsReported | src/prediction/StateReconciler.js:105-205 | the JavaScript comparison lists building and fleet deviations exactly for entities on both sides whose texts are unequal |
| StateReconciler.TsComparesPositionsOnly | src/prediction/StateReconciler.ts:112-165 | the TypeScript comparison reports only missing, extra and position deviations |
| StateReconciler.Find | src/prediction/StateReconciler.ts:201 | `find` returns an entity of the list with the sought id, and nothing exactly when no entity has that id |
| StateReconciler.CorrectionFor | src/prediction/StateReconciler.js:315-375 | a deviation yields no correction exactly when it is a missing entity the server's list does not hold; otherwise the correction names the deviation's entity with its severity, and a missing entity is created from the server's entry with its id |
| StateReconciler.GenerateCorrections | src/prediction/StateReconciler.js:312-378 | every correction comes from some deviation, every deviation that yields a correction has it in the list, and there are never more corrections than deviations |
| StateReconciler.OneCorrectionEach | src/prediction/StateReconciler.ts:186-222 | when every missing entity is on the server's list there is exactly one correction per deviation, in order: the server position for a position deviation, the server entity for a missing one, removal for an extra one |
| StateReconciler.MissingFound | src/prediction/StateReconciler.ts:117-132 | every entity reported missing is found on the server's list, so no missing entity loses its correction |
| StateReconciler.GenerateInterpolations | src/prediction/StateReconciler.ts:224-244 | every interpolation starts at the entity's current position, ends at a position correction's target, lasts the configured duration and starts now; there are no more interpolations than corrections; the TypeScript twin, whose `getComponent(id, 'Position')` never finds a component, generates none |
| StateReconciler.InterpolationsComplete | src/prediction/StateReconciler.js:384-403 | in the JavaScript twin every position correction of an entity that has a position gets its interpolation |
| StateReconciler.EaseRange | src/prediction/StateReconciler.ts:270-272 | the ease-in-out curve fixes 0, one half and 1 and maps [0, 1] into [0, 1] |
| StateReconciler.EaseUpper | src/prediction/StateReconciler.ts:271 | on the second half the curve stays between one half and 1 |
| StateReconciler.EaseLower | src/prediction/StateReconciler.ts:271 | on the first half the curve stays between 0 and one half |
| StateReconciler.EaseMonotone | src/prediction/StateReconciler.ts:270-272 | the curve never decreases on [0, 1] |
| StateReconciler.Progress | src/prediction/StateReconciler.ts:251-252 | progress is capped at 1 and reaches 1 exactly when the elapsed time has reached the duration |
| StateReconciler.ApplyInterpolations | src/prediction/StateReconciler.ts:246-268 | exactly the unfinished interpolations stay active (the JavaScript twin also drops those whose entity is gone); the TypeScript twin moves nothing, since its position lookup never finds a component, and the JavaScript twin moves each entity with a position to the eased blend of start and end |
| StateReconciler.FinishedArrives | src/prediction/StateReconciler.ts:257-259 | a finished interpolation puts the entity exactly on the server's position, a missing z counting as 0 |
| StateReconciler.Create | src/prediction/StateReconciler.ts:47-65 | a new reconciler remembers no server state, has an empty history, zeroed statistics, a 50-entry history bound, a 0.1 threshold, interpolation on and 500 ms interpolations |
| StateReconciler.Magnitudes | src/prediction/StateReconciler.ts:275-277 | the list holds exactly the magnitudes of the position deviations |
| StateReconciler.MaxOf | src/prediction/StateReconciler.ts:281 | the maximum of a non-empty list bounds every element and is one of them |
| StateReconciler.UpdateDeviationStats | src/prediction/StateReconciler.ts:274-286 | only the mean and the maximum deviation change, and a batch without position deviations changes nothing |
| StateReconciler.DeviationMaxBounds | src/prediction/StateReconciler.ts:281-284 | the maximum deviation never falls and covers every position deviation of the batch |
| StateReconciler.DeviationMeanBounds | src/prediction/StateReconciler.ts:280-283 | the running mean moves to a value between its old value and the batch's mean |
| StateReconciler.WeightedMean | src/prediction/StateReconciler.ts:283 | a running mean over n values lies between the old mean and the new value |
| StateReconciler.HistoryBounded | src/prediction/StateReconciler.ts:292-297 | the history ends with the newest outcome, keeps the older entries in order, grows by one below the bound and never grows past a bound it respects |
| StateReconciler.AddToHistory | src/prediction/StateReconciler.ts:292-297 | a history within its bound stays within it after one more entry |
| StateReconciler.FirstCallStores | src/prediction/StateReconciler.ts:78-82 | the first call returns normally, remembers the server's state, counts a success, reports no correction and leaves the history untouched |
| StateReconciler.ReconcileOutcome | src/prediction/StateReconciler.js:38-96 | a later call throws exactly when a buildings deviation has no server value, which the TypeScript twin never reports; otherwise it needs a correction exactly when the comparison finds deviations, carries one correction per deviation, no interpolation when interpolation is off, remembers the server's state and records the outcome as the newest history entry |
| StateReconciler.Reconcile | src/prediction/StateReconciler.js:38-96 | every call is counted and keeps the configuration; a call that returns remembers the server's state and keeps total = successes + corrections with the history within its bound; a call that throws (the JavaScript twin, after the first call) changes only the call count, leaving total one above successes + corrections |
| StateReconciler.ReconcileMaxDeviation | src/prediction/StateReconciler.ts:274-286 | after a call the maximum deviation has not fallen and, when the call returns, covers every position deviation it reported |
| StateReconciler.GetStats | src/prediction/StateReconciler.ts:299-309 | the report carries the counters and the history size; the success rate is 0 before any call and otherwise successes times 100 over calls, a percentage whenever successes do not exceed calls |
| StateReconciler.RateBounds | src/prediction/StateReconciler.ts:300-302 | successes times 100 over calls is a percentage when successes do not exceed calls |
| StateReconciler.SuccessRateIsPercentage | src/prediction/StateReconciler.ts:299-309 | a reconciler whose counters balance reports a success rate between 0 and 100 |
| StateReconciler.ResetStats | src/prediction/StateReconciler.js:516-526 | counters are zeroed and the history emptied while the remembered server state and the configuration stay |
| StateReconciler.ExportHistory | src/prediction/StateReconciler.js:531-537 | the export carries the recorded outcomes, a report whose history size is their count and whose counters are the reconciler's, and the configuration |
| StateReconciler.ExportAfterReset | src/prediction/StateReconciler.js:516-537 | an export right after a reset shows no outcomes, zeroed counters and a zero success rate |
| EntityCache.Create | server/db/EntityCache.ts:30-47 | a new cache has no entries, an empty write queue, zeroed counters and the creation time as its last write time |
| EntityCache.MaxAge | server/db/EntityCache.ts:55 | a missing or zero maximum age means five minutes (300000 ms); any other value is used as given |
| EntityCache.Load | server/db/DatabaseManager.ts:112-120 | the database read returns a record exactly when the id is stored, and then the stored record |
| EntityCache.GetEntity | server/db/EntityCache.ts:49-83 | a fresh entry is a hit that returns its data and only moves its access time; anything else is a miss that reads the database and caches a found record as clean; the queue and the database never change |
| EntityCache.MissThenHit | server/db/EntityCache.ts:52-74 | a record read from the database is served from the cache by the next read within its age, with the same data |
| EntityCache.UpdateEntity | server/db/EntityCache.ts:85-112 | the entry is replaced with the new data and every other entry kept; an immediate write succeeds exactly when the database call does and then stores the data and leaves the entry clean; a deferred write queues the data |
| EntityCache.Dirty | server/db/EntityCache.ts:126-134 | the dirty map holds exactly the dirty entries' ids, each with its entry's data |
| EntityCache.Pending | server/db/EntityCache.ts:137-140 | the flushed batch holds exactly the dirty and the queued ids, a queued write winning over the dirty entry of the same id |
| EntityCache.WriteBatch | server/db/DatabaseManager.ts:240-256 | every update carrying data is stored; ids whose update is `null` or absent keep their record |
| EntityCache.Flush | server/db/EntityCache.ts:136-167 | with nothing pending the database is not called and the count is 0; a failing batch changes nothing; a successful one writes the batch, leaves every entry clean, empties the queue and returns the batch's size |
| EntityCache.FlushLeavesNothingPending | server/db/EntityCache.ts:149-155 | after a successful flush nothing is pending |
| EntityCache.NothingPending | server/db/EntityCache.ts:137-144 | nothing is pending exactly when no entry is dirty and the queue is empty |
| EntityCache.DeferredWriteReachesDb | server/db/EntityCache.ts:101-161 | a deferred write reaches the database with the next successful flush |
| EntityCache.QueuedWriteOutlivesImmediate | server/db/EntityCache.ts:95-147 | an immediate write does not withdraw an earlier deferred write of the same entity: the next flush writes the older, queued data over it while the cache keeps the newer data |
| EntityCache.FailedFlushRetries | server/db/EntityCache.ts:162-166 | a failed flush leaves everything pending, so the next successful flush does what it would have done |
| EntityCache.UpdateEntities | server/db/EntityCache.ts:114-124 | each update is applied in turn and every result is true; deferred updates never touch the database and never fail |
| EntityCache.UpdateEntitiesDeferred | server/db/EntityCache.ts:118-121 | deferred updates only add to the write queue, in update order |
| EntityCache.QueueAfterKeys | server/db/EntityCache.ts:102-121 | queueing a list of updates adds exactly the mentioned ids and leaves every other queued id's data unchanged |
| EntityCache.QueueAfterLastAt | server/db/EntityCache.ts:102-121 | an id updated several times stays queued with the data of its last update |
| EntityCache.UpdateEntitiesQueued | server/db/EntityCache.ts:114-124 | after deferred updates exactly the previously queued and the mentioned ids are queued, each mentioned id with its last update's data |
| EntityCache.DeleteEntity | server/db/EntityCache.js:188-208 | the entry and any queued write of the id are dropped and nothing else changes; an immediate delete removes the record from the database, a deferred one queues `null` |
| EntityCache.DeferredDeleteNeverReachesDb | server/db/EntityCache.js:197-202 | a deferred delete never reaches the database: the batch skips the queued `null`, the record survives the flush and the next read loads it back |
| EntityCache.CountIn | server/db/EntityCache.js:94-104 | the number of requested ids found in a set never exceeds the number requested |
| EntityCache.GetEntities | server/db/EntityCache.js:87-130 | the result holds exactly the requested ids that are cached (unless refresh is forced) or stored; cached ids come from the cache with no age check and the rest from the database |
| EntityCache.BatchSkipsAgeCheck | server/db/EntityCache.js:94-104 | on an expired entry the batch read serves the cached data while a single read reloads the database's record |
| EntityCache.Clear | server/db/EntityCache.js:298-303 | entries and queue are emptied and the database kept, so a following flush writes nothing; the JavaScript twin zeroes the size counter, the TypeScript `destroy` leaves the counters |
| EntityCache.GetMetrics | server/db/EntityCache.ts:190-198 | the report carries the live entry, dirty and queue counts and a hit rate in [0, 1] that is hits over lookups, or 0 before any lookup; only the JavaScript twin adds the time since the last write |
| EntityCache.HitRate | server/db/EntityCache.ts:196 | hits over lookups, with no lookups counted as one, lies in [0, 1] |
| EntityCache.ResetMetrics | server/db/EntityCache.ts:200-209 | the counters are zeroed, the size set to the live size and the write time to now, with entries, queue and database kept, so the hit rate reads 0 |
| EventBus.Create | src/scenes/EventBus.ts:14-17 | a new bus has no listener for any event and satisfies the bus invariant |
| EventBus.ListenerCount | src/scenes/EventBus.ts:121-124 | the count is 0 exactly when the event has no listener set or an empty one |
| EventBus.HasListeners | src/scenes/EventBus.ts:126-128 | on a bus satisfying the invariant, an event has listeners exactly when it has a listener set |
| EventBus.Register | src/scenes/EventBus.ts:20-30 | a new listener object with a fresh identity is appended to the event's set, creating the set when missing; the invariant is kept |
| EventBus.RegisterInv | src/scenes/EventBus.ts:20-30 | appending a listener with the next identity keeps every set non-empty, distinct and within the handed-out identities |
| EventBus.AppendFresh | src/scenes/EventBus.ts:30 | adding a listener with a fresh identity keeps a set's listeners distinct |
| EventBus.On | src/scenes/EventBus.ts:19-33 | the event gains one listener at the end of its set, even when the callback is already registered; other events are untouched; the returned function unsubscribes that event and callback |
| EventBus.Once | src/scenes/EventBus.ts:35-47 | the event gains one `once` listener at the end of its set; other events are untouched |
| EventBus.FirstWith | src/scenes/EventBus.ts:58-63 | the index found is the first listener with the callback, and none is found exactly when no listener has it |
| EventBus.Off | src/scenes/EventBus.ts:54-68 | only the first listener with the callback is removed, nothing changes when none has it, and the event is forgotten once its set is empty; other events and global callbacks are untouched |
| EventBus.OffInv | src/scenes/EventBus.ts:54-68 | `off` keeps the invariant: no event keeps an empty set |
| EventBus.RemoveAtWellFormed | src/scenes/EventBus.ts:60 | removing one listener from a set of two or more keeps it well formed |
| EventBus.OnThenOffRestores | src/scenes/EventBus.ts:19-33 | calling the function `on` returned, for a callback not yet registered for the event, restores every listener set |
| EventBus.OnTwiceCountsTwice | src/scenes/EventBus.ts:24-62 | the same callback subscribed twice counts twice, and one `off` removes only one of the two |
| EventBus.OnAll | src/scenes/EventBus.ts:49-52 | the callback joins the global set, a second registration changing nothing; per-event listeners are untouched |
| EventBus.OffAll | src/scenes/EventBus.ts:51 | the function `onAll` returned removes exactly that callback from the global set |
| EventBus.OnAllIdempotent | src/scenes/EventBus.ts:50 | registering a global callback twice is the same as registering it once, so it is called once per emission |
| EventBus.Survivors | src/scenes/EventBus.ts:92-102 | the listeners kept after an emission are exactly the persistent ones and the `once` ones that threw |
| EventBus.Emit | src/scenes/EventBus.ts:70-107 | every global callback is called first, in insertion order, then every listener of the event in insertion order, whether or not an earlier one threw; afterwards only the survivors remain and an emptied event is forgotten; other events are untouched |
| EventBus.EmitInv | src/scenes/EventBus.ts:100-106 | `emit` keeps the invariant |
| EventBus.SurvivorsWellFormed | src/scenes/EventBus.ts:100-102 | the survivors of a well-formed set are still distinct objects with handed-out identities |
| EventBus.OnceFiresOnce | src/scenes/EventBus.ts:84-102 | a `once` listener is called by the next emission and, unless it threw, by no later one; one that threw stays for the next |
| EventBus.OnFiresEveryTime | src/scenes/EventBus.ts:84-98 | a persistent listener is called by every emission of its event |
| EventBus.Clear | src/scenes/EventBus.ts:109-114 | the event's listeners are dropped and nothing else changes |
| EventBus.ClearAll | src/scenes/EventBus.ts:116-119 | every listener and every global callback is dropped, so any emission then calls nobody |
| Router.UpperChar | server/src/routes/router.ts:24 | a lower-case ASCII letter becomes its capital and every other character is kept |
| Router.Upper | server/src/routes/router.ts:24-28 | upper-casing keeps the length, maps each character and leaves no lower-case ASCII letter |
| Router.UpperIdempotent | server/src/routes/router.ts:24-28 | upper-casing an upper-cased method changes nothing, so registered keys and request methods compare alike |
| Router.Key | server/src/routes/router.ts:24 | a route key is the method, one space, then the pathname unchanged |
| Router.Register | server/src/routes/router.ts:23-25 | registering adds the key, maps it to the new handler (a later registration replacing an earlier one) and keeps every other route |
| Router.Handle | server/src/routes/router.ts:27-52 | a request is dispatched exactly when its exact key or the pathname's "*" key is registered, always to a registered handler; it is left unhandled exactly when no key ends with a space and the pathname |
| Router.RegisterThenHandle | server/src/routes/router.ts:23-36 | a registered route answers requests for its pathname whose method matches it in any letter case |
| Router.ExactBeatsWildcard | server/src/routes/router.ts:32-36 | the exact route wins over the "*" route of the same pathname |
| Router.WildcardFallback | server/src/routes/router.ts:38-42 | without an exact route, a "*" route takes every method of its pathname |
| Router.MethodDefaults | server/src/routes/router.ts:28 | a request without a method is handled as GET, and "get" as "GET" |
| Router.BuildKeys | server/src/routes/router.ts:21-25 | the keys of a table built by registrations are exactly the registrations' keys |
| Router.KeySuffix | server/src/routes/router.ts:44 | for space-free methods and pathnames, a key ends with a space and a pathname exactly when it was registered for that pathname |
| Router.HandledIffPathRegistered | server/src/routes/router.ts:27-52 | with space-free methods and pathnames, `handle` answers (dispatch or 405) exactly when some registration used the request's pathname, and returns false otherwise |
| SignedPayload.AsString | server/src/routes/persistence.ts:25-27 | a value reads as a string exactly when it is one, and then as itself |
| SignedPayload.AsNumber | server/src/routes/persistence.ts:29-31 | a value reads as a number exactly when it is a finite number (not NaN), and then as itself |
| SignedPayload.SignedSnapshotAccepts | server/src/routes/persistence.ts:33-47 | a body is accepted exactly when it is an object with a non-empty string issuer and signature, a finite tick and a payload object with non-empty string world and cluster ids |
| SignedPayload.SameTest | server/src/routes/persistence.ts:49-63 | journal entries pass exactly the test snapshots pass |
| SignedPayload.NaNTickRejected | server/src/routes/persistence.ts:29-39 | a NaN tick is rejected however well formed the rest is |
| SignedPayload.Canonical | server/src/routes/persistence.ts:65-68 | the signed message is the object of the body's tick and payload, keys in that order |
| SignedPayload.CanonicalIgnoresEnvelope | server/src/routes/persistence.ts:65-68 | bodies agreeing on tick and payload are checked against the same message, whatever their issuer or signature |
| SignedPayload.CanonicalSeparatesTicks | server/src/routes/persistence.ts:67 | bodies with different ticks are checked against different messages, so a signature cannot be replayed for another tick |
| Storage.CheckId | server/src/storage/snapshotStore.ts:28-33 | an id passes exactly when it is 1 to 64 characters of letters, digits, `_` and `-`; otherwise the error is the field's name followed by `_invalid` |
| Storage.CheckIds | server/src/storage/snapshotStore.ts:42-46 | both ids must pass; an unsafe world id is reported before an unsafe cluster id |
| Storage.SafeIdPlain | server/src/storage/snapshotStore.ts:29-30 | a safe id is never empty, ".", ".." or anything holding a '/', so `path.join` keeps it as one segment |
| Storage.JoinPlain | server/src/storage/snapshotStore.ts:45 | joining plain segments onto a resolved root appends them unchanged |
| Storage.DotDotEscapes | server/src/storage/snapshotStore.ts:29 | the id check is what keeps a save inside the data directory: ".." as world and cluster id would join to the data directory's parent, and ".." is refused |
| Storage.StoredValue | server/src/storage/snapshotStore.ts:58-63 | the stored record carries the kind, the storage time, the digest and the signed body under their own keys |
| Storage.DigestInput | server/src/storage/snapshotStore.ts:53 | a snapshot's digest is taken over issuer, signature, tick and payload in that order, and nothing else of the body |
| Storage.ClusterDir | server/src/storage/snapshotStore.ts:42-46 | a cluster directory is produced exactly when both ids are safe |
| Storage.SnapFileNamePlain | server/src/storage/snapshotStore.ts:65 | the timestamped file name is one plain path segment |
| Storage.SaveSignedSnapshot | server/src/storage/snapshotStore.ts:48-75 | a save succeeds exactly when both ids are safe, returns the server time and the digest of the signed fields, and a refused save writes nothing |
| Storage.ParseLatest | server/src/storage/snapshotStore.ts:81-88 | only a present, truthy document of kind "snapshot" is returned, unchanged; anything else reads as null |
| Storage.ReadLatestSnapshot | server/src/storage/snapshotStore.ts:77-89 | unsafe ids fail before any file is read, and whatever is returned is of kind "snapshot" |
| Storage.SaveWrites | server/src/storage/snapshotStore.ts:55-70 | with safe ids a save writes the same record to `snap-<storedAt>-<digest>.json` and to `latest.json` in the cluster's directory, and nothing else |
| Storage.ReadsLatest | server/src/storage/snapshotStore.ts:78-85 | with safe ids a restore reads the cluster's `latest.json` |
| Storage.SaveThenRead | server/src/storage/snapshotStore.ts:48-89 | a saved snapshot is what the next restore of its cluster returns, and the timestamped file holds the same record |
| Storage.SaveStaysInCluster | server/src/storage/snapshotStore.ts:55-70 | every file a save changes lies directly inside its own cluster's directory |
| Storage.SaveLeavesOtherClusters | server/src/storage/snapshotStore.ts:48-89 | saving into one cluster leaves what every other cluster restores |
| Storage.SaveRejectsUnsafeIds | server/src/storage/snapshotStore.ts:49-50 | unsafe ids are refused before anything is written, the world id first |
| Storage.Split | server/src/storage/snapshotStore.ts:45 | a path argument always yields at least one segment |
| Storage.LineEnd | server/src/storage/journalStore.ts:54 | the first newline of a text, or its end: no newline before it |
| Storage.ReadJsonLines | server/src/storage/journalStore.ts:54 | reading a journal back gives its lines in the order they were appended |
| Storage.JournalFile | server/src/storage/journalStore.ts:31-35 | a journal file is produced exactly when both ids are safe |
| Storage.AppendEntry | server/src/storage/journalStore.ts:37-55 | an append succeeds exactly when both ids are safe, a refused one writes nothing, and no snapshot document changes |
| Storage.AppendWrites | server/src/storage/journalStore.ts:41-54 | with safe ids an append writes the serialised entry and a newline to the end of `<clusterId>.jsonl` in the world's journal directory, and to no other file |
| Storage.AppendLine | server/src/storage/journalStore.ts:54 | appending one line to a JSON-lines text adds it after the others |
| Storage.AppendAddsOneLine | server/src/storage/journalStore.ts:37-55 | an append adds exactly one line, the serialised entry, after the lines already in the journal |
| Storage.DigestScopes | server/src/storage/snapshotStore.ts:53 | bodies agreeing on issuer, signature, tick and payload get the same snapshot digest, whatever other properties they carry |
| Persistence.RetryAfterSeconds | server/src/routes/persistence.ts:77 | the `retry-after` header is the wait in milliseconds rounded up to whole seconds |
| Persistence.RateLimited | server/src/routes/persistence.ts:76-79 | a limited client gets a 429 whose `retry-after` header is the rounded-up wait |
| Persistence.WriteSnapshot | server/src/routes/persistence.ts:70-122 | a limited client is answered 429 with nothing stored; a malformed body is refused with a 400; the store changes only for an allowed client whose body is well formed and whose signature over tick and payload checks |
| Persistence.RestoreLatest | server/src/routes/persistence.ts:124-171 | a limited client is answered 429; a missing or empty world or cluster id is refused with a 400; a 200 is sent only when the cluster's latest snapshot was read |
| Persistence.AppendJournal | server/src/routes/persistence.ts:173-205 | a limited client is answered 429 with nothing stored; a journal changes only for an allowed client whose body is well formed and whose signature checks; snapshots are never touched |
| Persistence.BadSignatureRefused | server/src/routes/persistence.ts:97-105 | a well-formed body whose signature does not check is refused with a 401 by both writing routes, and nothing is stored |
| Persistence.WriteThenRestore | server/src/routes/persistence.ts:107-169 | a snapshot the write route accepts is what the restore route then returns for its cluster: the same signed body with the server's timestamp and the digest the write reported |
| Persistence.AppendJournalAddsLine | server/src/routes/persistence.ts:201-203 | an accepted journal entry is answered 200 and adds exactly one line, the stored entry, after the lines already in its cluster's journal |
| BackupServer.PyLen | server.py:50 | `len` is the length of a string, list or dict, and raises a `TypeError` on anything else |
| BackupServer.DictGet | server.py:50-52 | `get` returns the value of the first property with the key, and the default when no property has it |
| BackupServer.DictGetPresent | server.py:50-52 | on a key the dict has, `get` reads the same value as indexing |
| BackupServer.SetKey | server.py:74 | assigning an existing key keeps the dict's size, a new key adds one entry |
| BackupServer.SetKeyLookup | server.py:74 | after assigning a key it reads back the new value, and every other key keeps its presence and value |
| BackupServer.Hundredths | server.py:53 | the size in KB to two decimals is the nearest number of hundredths of size/1024, ties going to the even one |
| BackupServer.TwoDigits | server.py:53 | the fractional part of the size text is two decimal digits that read back as the number of hundredths |
| BackupServer.FileSizeExamples | server.py:53 | 0, 1024 and 1536 bytes read "0.00 KB", "1.00 KB" and "1.50 KB" |
| BackupServer.StatsRecord | server.py:48-54 | the stats dict reports `exists` true, the entity count, the document's `savedAt` and `author`, and the size text |
| BackupServer.StatsBody | server.py:44-55 | a stats body is written exactly when the document parses to a dict whose `world` has a length; otherwise the body stays empty |
| BackupServer.PostBackup | server.py:65-93 | a save answers 200 or 500; a body that does not parse answers 500 with the parser's message and leaves the file; the file changes only to the parsed dict stamped with the server time |
| BackupServer.SavedWhenWorldMeasured | server.py:65-85 | a dict body whose `world` has a length is written to the file stamped with the server time as `savedAt`, and answered 200 with the success message |
| BackupServer.Handle | server.py:16-104 | only POST writes the file; a POST to any other path is a bare 404; OPTIONS answers 200 with the CORS headers |
| BackupServer.LoadWithoutFile | server.py:20-35 | without a backup file, GET /api/backup answers the empty world and creates no file |
| BackupServer.SaveThenLoad | server.py:16-85 | after a successful save, a load returns the saved text: the posted keys with `savedAt` set to the server time |
| BackupServer.StatsEchoSavedAt | server.py:44-55 | the stats of a readable dict whose `world` has a length report `exists` true, echo its `savedAt`, and give the length of `world` as `entities` |
| BackupServer.StatsReport | server.py:44-55 | for a readable dict whose `world` is a list or absent, the stats give `exists` true, the list's length as `entities` (0 when absent), `savedAt` and `author` as stored or None, and the size text as `fileSize` |
| BackupServer.StatsWithoutFile | server.py:38-57 | without a backup file, GET /api/stats answers 200 with `{exists: false}` and creates no file |
| BackupServer.GetStatsServed | server.py:38-57 | with a backup file, GET /api/stats answers 200 with the stats body of the file's text and leaves the file as it was |
| BackupServer.LookupAt | server.py:50-52 | reading a key returns the first property with that key |
| BackupServer.SaveThenStats | server.py:38-85 | the stats after a save report the save time, provided the serialiser and parser round-trip the document and its `world` has a length |
| BackupServer.BadJsonLeavesFile | server.py:69-93 | a body `json.loads` rejects answers 500 with the parser's message and leaves the file as it was |
| BackupServer.SavedButReportedFailed | server.py:76-93 | a dict whose `world` has no length is written to the file, yet the answer is a 500, because the log line that measures it runs after the write |
| BackupServer.QueryOnlyReachesGet | server.py:17-65 | the same URL with a query string loads the backup but cannot save it: GET strips the query, POST compares the raw path |
| NumberText.ToDecimal | server/src/storage/snapshotStore.ts:65 | the decimal text of a natural number is non-empty and all digits |
| NumberText.ParseToDecimal | server/src/storage/snapshotStore.ts:65 | reading the decimal text back gives the number |
| NumberText.ToDecimalInjective | server/src/storage/snapshotStore.ts:65 | distinct numbers have distinct decimal texts |
| NumberText.IntText | server/src/storage/snapshotStore.ts:65 | the text of a whole number is non-empty and starts with '-' exactly when the number is negative |
| NumberText.IntTextInjective | server/src/storage/snapshotStore.ts:65 | distinct storage times give distinct texts, so snapshots saved at different times get different file names |
| Placement.RulesFor | src/planet/PlacementValidator.ts:22-46 | an unknown type falls back to the base rule; every rule allows some biome and asks for a spacing of at most 2; only roads may overlap |
| Placement.CostOf | src/planet/PlacementValidator.ts:94-106 | every cost asks for metal first, possibly then energy, with no resource twice; an unknown type costs 50 metal |
| Placement.UnknownIsBase | src/planet/PlacementValidator.ts:46-105 | a type with no entry of its own is judged by the base rule and costs what a warehouse costs, 50 metal |
| Placement.Shortfalls | src/planet/PlacementValidator.ts:70-77 | one reason per cost entry the player cannot cover, in cost order, and none exactly when the cost is affordable |
| Placement.ShortfallsExact | src/planet/PlacementValidator.ts:71-75 | a shortfall is reported exactly for a cost entry whose amount exceeds what the player holds (a missing resource counting as 0), with both amounts |
| Placement.Clamp | src/planet/PlacementValidator.ts:91 | the score is clamped into [0, 100], kept as is inside it |
| Placement.HeightPenalty | src/planet/PlacementValidator.ts:87-90 | the height penalty is between 0 and 20, and 0 for a rule without a preferred height |
| Placement.QualityScore | src/planet/PlacementValidator.ts:83-92 | the quality score lies in [0, 100] |
| Placement.IdealPlacementIsGreen | src/planet/PlacementValidator.ts:83-92 | on ground within the rule's slope, in the rule's first biome and at its preferred height, a placement scores at least 80 |
| Placement.FlatterScoresHigher | src/planet/PlacementValidator.ts:85 | flatter ground never scores lower, all else equal |
| Placement.ValidationColor | src/planet/PlacementValidator.ts:108-113 | an invalid placement is red and only an invalid one; a valid one is green, yellow or orange |
| Placement.ColorBands | src/planet/PlacementValidator.ts:109-112 | a valid placement is green from 80, yellow from 60 and orange below, so a higher score never gets a worse colour |
| Placement.TerrainReasons | src/planet/PlacementValidator.ts:49-65 | no terrain reason is given exactly when the slope is within the rule, the biome is allowed and the cell is free or the type may overlap |
| Placement.ResourceReasons | src/planet/PlacementValidator.ts:70-77 | no resource reason is given exactly when no resources were passed or the cost is affordable |
| Placement.ValidateTs | src/planet/PlacementValidator.ts:34-81 | a placement is valid exactly when no reason is given; without terrain data it is refused with the single terrain reason; otherwise it is valid exactly when slope, biome, occupancy and resources pass, and carries a score in [0, 100] |
| Placement.AnyOccupied | src/planet/PlacementValidator.js:134-151 | the neighbour scan finds a building exactly when one of the neighbour cells is occupied |
| Placement.ValidateJs | src/planet/PlacementValidator.js:77-181 | as the TypeScript check, with the neighbour rule between occupancy and resources; valid exactly when no reason is given |
| Placement.NeighbourRule | src/planet/PlacementValidator.js:134-151 | an occupied neighbour refuses a type whose spacing is above 1, only warns for a spacing of 1, and is not consulted for a spacing of 0 |
| Placement.JsStricter | src/planet/PlacementValidator.js:77-181 | what the JavaScript check accepts the TypeScript one accepts, and unless a crowded neighbourhood meets a spacing above 1 both give the same reasons |
| Placement.Ceil | src/planet/PlacementValidator.js:233 | `Math.ceil` gives the least whole number not below its argument |
| Placement.Try | src/planet/PlacementValidator.js:236-253 | a candidate comes only from an in-bounds cell at the probed offset whose validation passes, and carries that validation's score |
| Placement.OffsetsMembers | src/planet/PlacementValidator.js:235-236 | the two loops visit exactly the offset pairs within the number of steps on both axes |
| Placement.CandidateMembers | src/planet/PlacementValidator.js:235-255 | the candidates are exactly the successful tries |
| Placement.FindBestPlacementNearby | src/planet/PlacementValidator.js:228-261 | no placement is found exactly when no offset within the radius succeeds; one found is valid, in bounds, comes from an offset within the radius and is not outscored by any candidate |
| Placement.NoneFound | src/planet/PlacementValidator.js:260 | with no candidate, no offset within the radius succeeds |
| Placement.HeadFound | src/planet/PlacementValidator.js:235-255 | every candidate came from an offset within the radius |
| Placement.HeadScoresHighest | src/planet/PlacementValidator.js:258-260 | the first candidate after the descending sort is not outscored by the candidate of any offset within the radius |

Where a TypeScript file and its JavaScript twin share their logic
(`InterestManager`, `SnapshotInterpolator`, `EventBus`), the rows cite the
TypeScript lines only; the model covers both.

## Left out

- Transport and I/O. This covers the `HTTPServer` loop of `server.py`, its `SimpleHTTPRequestHandler` static-file fallback (modelled as a `StaticFile` answer only), and the reading of `Content-Length` bytes (the request body is given as text). It also covers console and logger output, the Express and socket.io servers, the network managers, and the filesystem itself. Files are a map from path to text, with `mkdir` implicit.
- Methods other than GET, POST and OPTIONS in `server.py`: they are answered by the standard library, not by this handler.
- Concurrency. Overlapping asynchronous flushes of the entity cache and concurrent POSTs to `server.py` are not modelled. Every operation runs to completion before the next.
- Clocks, timers and randomness are parameters. The entity cache's write-back `setInterval` is an explicit `Flush` call.
- The stores' old-snapshot pruning: `server/src/storage/retention` is not part of this model.
- The HTTP helpers `readJsonBody`, `sendJson`, `HttpError` and the rate limiter: `server/src/http/readJsonBody`, `server/src/http/responses` and `server/src/http/rateLimit` are not part of this model. The body reader's outcome and the limiter's verdict are parameters, and an `HttpError` is an outcome carrying its status.
- Signature verification and hashing: `server/src/crypto/verify` is not part of this model, and sha256 and `verifyDetachedSignature` are uninterpreted parameters.
- Persistence.WriteSnapshot: the clock-skew bound `maxSkewMs` is computed by the source but never used, so it has no counterpart.
- JSON numbers are finite reals plus `NaN`. `Infinity` and duplicate object keys are not modelled, and `JSON.stringify` is a parameter.
- MessagePack encoding and base58 are opaque parameters. Only the encoded size of a packet is observed.
- Router.Upper: upper-cases ASCII letters only. `String.prototype.toUpperCase` also maps other Unicode letters, which this model does not cover.
- SQLite. `DatabaseManager` is a map from id to record. A failed call is a boolean parameter, not a thrown exception with partial effects.
- StateReconciler.Reconcile: one `now` stands for the several `Date.now()` calls of one reconciliation, which may differ by a few milliseconds in the source.
- StateReconciler.GetStats: the success rate is the exact quotient. The `toFixed(2)` text is not modelled.
- Placement.ValidateTs: reasons are symbolic values. The French message texts and their `toFixed(1)` numbers are not reproduced.
- Placement: building types are looked up only among the known names, so prototype keys such as `constructor` used as a building type are not modelled.
- Placement: NaN terrain values are not modelled, and rule slopes, the cell size and the planet radius are positive reals.
- Placement: `Math.PI` is the decimal 3.141592653589793.
- Placement.FindBestPlacementNearby: states that the answer is not outscored by any candidate, but not which of several equally scored candidates the stable sort puts first.
- The building grid, planet generator, terrain and biome classification are oracles of the placement validator. Float rounding of grid keys is not modelled.
- Floating-point geometry, trigonometry and noise (movement, physics, fleets, the shield-wedge combat system, planet generation) are out of this model. So is `generateSimpleEmbedding`.
- Chunker: only `chunkText` is modelled. The directory walk, the embeddings and the Qdrant upload of the indexing tool are I/O.
- The harvester's Inventory, Stockpile and ResourceNode components are not part of this model. Their operations are parameters.
- `BTFactory`, `AISystem` and `PredictionEngine` depend on code that is not part of this model (the bestiary, the AI component, a `world.getEntity` no shown world defines).
- `WorldGenerator`: its lattice generator is not part of this model. Only `RouteGenerator` is modelled.
- Quests.AcceptQuest: `{ ...quest, status }` copies the quest shallowly. The accepted quest therefore shares its `objectives` array, and the objective objects in it, with the quest object passed in. In the source, `updateProgress` (QuestSystem.ts:31-35) writes `currentAmount` into those shared objects. One player's progress thus also advances the template and every other player who accepted the same quest object, and a later accept starts from that progress. The model gives each accepted quest its own copy of the objectives, so progress is per player. Sharing them would need a model of the heap.
- EventBus.Emit: listeners registering or removing listeners during an emission (re-entrancy) are not modelled. A listener's only effect is whether it throws.
- BitmaskWorld: masks are sets of bit positions instead of 32-bit integers. Every component type is a distinct single bit, so the two correspond one to one.
- Rendering, UI, input, three.js scenes and the build artifacts under `dist/` are out of scope. Data-only files are used as constants.
- Chunker and HexCodec: a character is a Unicode scalar value, while JavaScript counts UTF-16 code units. Text with characters outside the Basic Multilingual Plane is measured and cut differently from the source.
- Inventory.AddItem: item ids are looked up only among the catalogue's own keys. In the source `ITEMS[itemId]` with an `Object.prototype` name such as `constructor` finds an inherited function. That value is truthy and not stackable, so the source appends a slot for it, while the model refuses the add.
- Equipment.GetItem: the same holds for `ITEMS[id]` and the weapon catalogue. An `Object.prototype` name yields an inherited function with no `slot` and no `stats`. The source then fails to equip it and adds no bonus for it, but the model answers "no item".
- EconomySystem.ChainStep: consuming an input whose stock key is missing reads that stock as 0. The source computes `undefined - amount*dt` and stores NaN. The input check lets this through only when amount·dt ≤ 0, for example when dt is 0.
- EconomySystem.Produce: the same holds for each input, because `Produce` is the consuming half of `ChainStep`.
- Combat.UseAbility: ability ids are looked up only among the four defined abilities. In the source, `ABILITIES[abilityId]` with an `Object.prototype` name such as `constructor` finds an inherited function, which passes every check because its costs are `undefined`. Mana and stamina then become NaN, and the cooldown stored is `undefined`. The model refuses such an id as unknown.
- Combat.Execute: for such an id the source deals `undefined` damage, and `Math.max(0, hp - undefined)` leaves the target's hp NaN. The model treats the id as unknown and changes nothing.
- CommandBuffer.TallyCounts: counts are kept in a plain object. A command type named after an `Object.prototype` member reads the inherited value. For `constructor` the count becomes the function's source text followed by "1", not a number. For `__proto__` the assignment is ignored and no key appears. The model counts such types like any other.
- CommandBuffer.TypeCounts: it tallies through `TallyCounts`, so it carries the same difference for `Object.prototype` names.
- NetProtocol.AveragePacketSize: the model returns the exact quotient. The source returns `toFixed(2)`, a string rounded to two decimals, once a packet has been sent, and the number 0 before that. The text and its rounding are not modelled.
- Interest.AverageEntitiesPerUpdate: the model returns the exact quotient. The source returns `toFixed(2)`, a two-decimal string, once an update has been sent, and the number 0 before that. The text and its rounding are not modelled.
- Interpolation.Lerp: an old value that is a non-empty string, an array or an object is modelled as producing NaN; JavaScript's `+` instead concatenates it with the number's text (an old value "abc" gives "abcNaN"; an old `[]` with new value 2 at t = 1 gives "2"), because JavaScript's number-to-text conversion is not modelled.
- Interpolation.AsNumber: in the array path there is no `|| 0`, so every string element, the empty one included, is concatenated as text. With old element `""`, new element 4 and t = 0.5 the source computes the string "2". The model reads any string, array or object element as not a number, and Lerp then gives NaN.
- Interpolation.Interpolate: an old state that is `null` or `undefined` while the new state has at least one key makes `oldState[key]` throw a TypeError that aborts `update`; the model reads every property of such a value as `undefined` and blends on.
- StateReconciler.Entity: a `buildings` or `fleet` property that is present but falsy (`null`, `false`, `0`, `""`) is treated like a missing one. For such a `buildings` value `JSON.parse(JSON.stringify(value))` does not throw, so `Unparsable` over-approximates the throwing case for those inputs.
- Placement.FindBestPlacementNearby: the search radius is always given. The source's default of 20 for an omitted radius is not modelled.
- Router.RequestPath: `new URL(req.url, 'http://local')` throws a `TypeError` for a URL it cannot parse. `pathOf` is total, so that failure path is not modelled.
- EntityCache.GetEntity: a failing database read rethrows its error after the miss has been counted. Database reads always succeed in the model.
- SpatialGrid.AllEntities: the model returns the set of remembered ids. The source returns `Array.from(entityPositions.keys())`, an array in insertion order, and that order is not modelled.
- SpatialGrid: the cell size is a positive real. The source's constructor accepts any `cellSize`, but every caller uses the default of 10.
- BackupServer.TypeName: a JSON number without a fractional part is named `int`, while Python's `json.loads` makes `5.0` a `float`. The number model does not keep how a number was written.
- BackupServer.PostBackup: because of TypeName, a POST body `5.0` answers "'int' object does not support item assignment" in the model, where the source answers "'float' …". Likewise `{"world": 1.0}` is reported as "object of type 'int' has no len()" where the source says 'float'.
- HexCodec.GetOrCreateIdentity: the model's stored identity holds three strings. When a stored document lacks `peerId` or holds a non-string there, the source returns its keys with that value as the peer id. The model's `parse` must answer None for such a document, and a fresh identity is generated.
