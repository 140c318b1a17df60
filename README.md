# Game message handlers of the lordofpomelo web client, in Dafny

This project models the decision layer of the browser client's handler for
messages the game server pushes (`web-server/public/js/handler/gameMsgHandler.js`).
That layer keeps the current area's entity table up to date and decides which
presentation commands to give:

- add-entities adds the incoming entities and never overwrites an entity that is already there;
- drop-items inserts loot;
- remove-entities and remove-item remove ids, but remove-entities never removes the current player;
- pick-item puts an item into the current player's bag and removes the item from the area;
- attack dispatches on the combat outcome (`successAction`, `killedAction`, not in range), then refreshes the player's vitals;
- revive brings an entity back;
- task-completed marks a task done.

The session state is the class `GameMsgHandler.Client`. It holds:

- whether there is a current area;
- the area's entity table (a map from entity id to `Entities.Entity`);
- the current player's id;
- the current player's task states;
- a log of presentation commands;
- the queue of work that waits for an animation to finish.

Each handler is a method on that class. The work that the source puts in an
animation's completion callback (the loot after a death animation, the map
recentre after a revive animation) is queued by the handler. It runs only in
`AnimationDone`, which dispatches to `DeathSequenceDone` and `ReviveSequenceDone`.

The other modules hold the pure side:

- `AreaTable`: the three table loops, guarded add, plain insert and remove-all-but-one, with lemmas about each.
- `Combat`: what an attack outcome does to the table and which commands it gives.
- `Lifecycle`: pick-item and revive as functions on the table.

Each handler method's `ensures` ties the new state to these functions.

Modelling conventions:

- `area.addEntity(e)` files `e` under its own id and is taken to replace any record already there (see "## Left out"). `area.removeEntity(id)` drops the id if present. `area.getEntity` is map lookup.
- A handler that would throw a JavaScript TypeError returns `Threw`. This happens on `null` area, an absent entity or an absent task. The state stays as it was at the throw. A handler's own early return is `Ignored`.
- `entity.update(...)` and `bag.addItem(...)` are recorded on the entity record (`updates`, `bagAdds`). Their effect on hit points or on bag contents is not modelled.
- Sprite and UI calls are recorded as `Presentation.Command` values in the order the source makes them.

Behaviours of the handler that the model keeps as the code has them:

- pick-item throws at `player.entityId` when the picking player is not in the area. That happens before `removeEntity`, so the item is NOT removed in that case (gameMsgHandler.js:165-171).
- The NOT_IN_RANGE stand command keeps the handler's coordinate order `x1: attacker.x, x2: attacker.y, y1: target.x, y2: target.y` (line 245).
- A killed MOB is never removed from the area by this file. Only the handler's local reference is cleared (line 299).
- The loot callback adds to the area current when the callback runs (`app.getCurArea()` at line 319). The callback does not check whether the scene has changed since the kill.

## Model

| member | source | states |
|---|---|---|
| Entities.BuildEntity | web-server/public/js/handler/gameMsgHandler.js:51 | the built record keeps the payload's entity id and carries the message key as its type |
| AreaTable.AddNewKeys | web-server/public/js/handler/gameMsgHandler.js:46-58 | after add-entities the area holds exactly its old ids plus the ids of the batch |
| AreaTable.AddNewKeepsExisting | web-server/public/js/handler/gameMsgHandler.js:50-55 | an entity already in the area is never replaced by add-entities |
| AreaTable.AddNewFirstWins | web-server/public/js/handler/gameMsgHandler.js:49-56 | a fresh id takes the first record of the batch that carries it; later duplicates in the same batch are skipped, because each insert precedes the next lookup |
| AreaTable.AddNewAppend | web-server/public/js/handler/gameMsgHandler.js:46-58 | adding the entries key by key is the same as adding the whole flattened batch |
| AreaTable.AddNewKeyed | web-server/public/js/handler/gameMsgHandler.js:50-52 | add-entities keeps every record filed under its own entity id |
| AreaTable.PutAllKeys | web-server/public/js/handler/gameMsgHandler.js:69-71 | after drop-items the area holds exactly its old ids plus the dropped ids |
| AreaTable.PutAllLastWins | web-server/public/js/handler/gameMsgHandler.js:69-71 | with no duplicate check, an id carried by the batch ends up with the last record that carries it |
| AreaTable.PutAllKeepsOthers | web-server/public/js/handler/gameMsgHandler.js:69-71 | an entity whose id the dropped batch does not carry is left unchanged |
| AreaTable.PutAllKeyed | web-server/public/js/handler/gameMsgHandler.js:69-71 | plain insertion keeps every record filed under its own entity id |
| AreaTable.AddNewIsPutAllWhenFresh | web-server/public/js/handler/gameMsgHandler.js:46-71 | when no id of the batch is in the area and none repeats, the guarded add of add-entities and the unguarded insert of drop-items give the same area |
| AreaTable.RemoveAllButIsDifference | web-server/public/js/handler/gameMsgHandler.js:82-86 | remove-entities removes exactly the listed ids other than the current player's; the current player and every unlisted entity remain as they were |
| Combat.SuccessEffect | web-server/public/js/handler/gameMsgHandler.js:284-285 | SUCCESS sends the target an update with `damage` and the attacker one with `mpUse`, in that order (both to one record when attacker and target coincide); no died flag, hit points or membership change |
| Combat.KilledEffect | web-server/public/js/handler/gameMsgHandler.js:294-308 | KILLED on an already-died target changes nothing; otherwise the target becomes died and stays in the area (a MOB too), and the attacker gets the `mpUse`/`experience` update if and only if its type is PLAYER; apart from the target's died flag and the update logs, no record changes in any field |
| Combat.AttackEffect | web-server/public/js/handler/gameMsgHandler.js:209-246 | a missing attacker or target, NOT_IN_RANGE and an unrecognised tag leave the table unchanged; no outcome adds or removes an entity; SUCCESS never sets died; KILLED leaves the target died |
| Combat.KilledIdempotent | web-server/public/js/handler/gameMsgHandler.js:294-297 | a repeated KILLED for the same target leaves the table as the first one did |
| Combat.DeathFollowUp | web-server/public/js/handler/gameMsgHandler.js:313-322 | an attack queues at most one continuation, the loot step with `resultData.items`, and queues it exactly on a kill of a target not yet died |
| Combat.OutcomeCues | web-server/public/js/handler/gameMsgHandler.js:240-246 | the outcome's commands contain no vitals event and no cooldown, and contain a death animation exactly on a fresh kill |
| Combat.AttackCues | web-server/public/js/handler/gameMsgHandler.js:225-246 | the commands before the vitals refresh contain no vitals event; they open with the skill cooldown exactly when the current player attacks with a skill id above 1; they contain a death animation exactly on a fresh kill |
| Lifecycle.Picked | web-server/public/js/handler/gameMsgHandler.js:163-172 | pick-item throws exactly when the picker is absent; otherwise the item id is gone afterwards whoever picked it, and the picker's bag gains `{kindId, type}` at `index` exactly when the picker is the current player and the item existed; nothing else changes |
| Lifecycle.PickedKeyed | web-server/public/js/handler/gameMsgHandler.js:169-171 | pick-item keeps every record filed under its own entity id |
| Lifecycle.Revived | web-server/public/js/handler/gameMsgHandler.js:257-262 | after a non-local entity is re-added from the payload, revive throws exactly when `entityId` is absent; otherwise that entity is present with died false and the payload's hp, and nothing else differs from the re-added table |
| Lifecycle.ReviveIdempotent | web-server/public/js/handler/gameMsgHandler.js:257-262 | a resent revive leaves the table as the first one did |
| Lifecycle.RevivedKeyed | web-server/public/js/handler/gameMsgHandler.js:257-262 | revive keeps every record filed under its own entity id |
| GameMsgHandler.BuildGroup | web-server/public/js/handler/gameMsgHandler.js:47-52 | the records built for one message key carry exactly the payload's entity ids, so the id the guard at line 50 looks up is the id `addEntity` stores |
| GameMsgHandler.BuiltIds | web-server/public/js/handler/gameMsgHandler.js:46-58 | the records built for a whole message carry exactly the ids of its payload, key by key |
| GameMsgHandler.Client.OnAddEntities | web-server/public/js/handler/gameMsgHandler.js:37-59 | with no area nothing changes; otherwise the table becomes the guarded add of all built records, every existing entity is untouched, and the area's ids become its old ids plus exactly the ids the message's payload carries |
| GameMsgHandler.Client.AddGroup | web-server/public/js/handler/gameMsgHandler.js:49-57 | one message key's records are added in order, each only if its id is absent at that moment |
| GameMsgHandler.Client.OnDropItems | web-server/public/js/handler/gameMsgHandler.js:65-72 | each dropped item is inserted with no duplicate check; with no area and a non-empty list the handler throws before any change |
| GameMsgHandler.Client.OnRemoveEntities | web-server/public/js/handler/gameMsgHandler.js:78-87 | the table loses exactly the listed ids other than the current player's, who is still present and unchanged afterwards |
| GameMsgHandler.Client.OnTaskCompleted | web-server/public/js/handler/gameMsgHandler.js:144-149 | the named task's state becomes 1 and the completion notice is given; an unknown task id throws with nothing changed |
| GameMsgHandler.Client.OnRemoveItem | web-server/public/js/handler/gameMsgHandler.js:155-157 | the id is absent afterwards and nothing else changes |
| GameMsgHandler.Client.OnPickItem | web-server/public/js/handler/gameMsgHandler.js:163-172 | the new table is `Picked` of the old one; the item is absent afterwards unless the handler threw, in which case nothing changed |
| GameMsgHandler.Client.OnAttack | web-server/public/js/handler/gameMsgHandler.js:203-248 | with an absent attacker or target nothing changes and no vitals refresh is given; otherwise the table becomes `AttackEffect`, the log gains the attack commands followed by exactly one vitals refresh, and the loot step is queued only on a fresh kill |
| GameMsgHandler.Client.Resolve | web-server/public/js/handler/gameMsgHandler.js:240-246 | the dispatch on the result tag applies `AttackEffect` and gives the outcome's commands; NOT_IN_RANGE and unknown tags mutate no entity |
| GameMsgHandler.Client.SuccessAction | web-server/public/js/handler/gameMsgHandler.js:277-287 | the hit's commands in source order, the damage update to the target and the mana update to the attacker, nothing queued |
| GameMsgHandler.Client.KilledAction | web-server/public/js/handler/gameMsgHandler.js:293-323 | a target already died gives no command, no update and no continuation; otherwise the table becomes `KilledEffect`, the death commands are given and the loot step is queued behind the death animation |
| GameMsgHandler.Client.UiUpdate | web-server/public/js/handler/gameMsgHandler.js:325-332 | the five change events hp, maxHp, mp, maxMp and experience, in that order |
| GameMsgHandler.Client.OnRevive | web-server/public/js/handler/gameMsgHandler.js:254-270 | the new table is `Revived` of the old one, so the entity is present, alive and at the payload's hp; the revive animation is given and the recentre waits in the queue; no map recentre or mask hide happens during the handler |
| GameMsgHandler.Client.AnimationDone | web-server/public/js/handler/gameMsgHandler.js:264-322 | a completed animation's continuation is removed from the queue and run; a death continuation adds exactly its loot and gives no command; a revive continuation leaves the table unchanged and gives the recentre on the revive position and the mask hide exactly when the revived entity is the current player |
| GameMsgHandler.Client.DeathSequenceDone | web-server/public/js/handler/gameMsgHandler.js:313-321 | the loot of `resultData.items` is inserted one entity per element; absent or empty loot adds nothing; with no area and some loot it throws before any change |
| GameMsgHandler.Client.ReviveSequenceDone | web-server/public/js/handler/gameMsgHandler.js:264-269 | the map is recentred on the revive position and the death mask hidden, only for the current player; the table is untouched |

## Left out

- `onChangeArea` (lines 21-31) is left out. It is resource loading, a network request and `app.init`, all asynchronous I/O.
- `onMove` and `onPathCheckout` (lines 94-119) are left out. They are floating-point distance and speed computations through `utils.totalDistance`, `utils.distance` and the sprite's speed, none of which are in this file. `needTime` at line 104 is never guarded against zero or a negative value.
- `onUpgrade`, `onUpdateTaskData`, `onNPCTalk` and `onCheckoutTask` (lines 125-138, 178-197) are left out. They only delegate to the player object, the sprite or the dialog panel, which are not part of this model.
- `buildItem` (lines 334-354) is left out. It is never called in this file, and it clones templates from `dataApi`, which is not part of this model.
- The `pomelo.on` registration is not modelled. The ambient `app.getCurArea()`/`app.getCurPlayer()` become fields of `Client`. `area.getCurPlayer()` is taken to be the same player as `app.getCurPlayer()`.
- Entities.BuildEntity: only fixes the entity id and the type tag. The rest of what `utils.buildEntity` does is not part of this model, and the other fields are taken from the payload.
- Combat.SuccessEffect: records the `{damage}` and `{mpUse}` updates but not their effect on hp or mana. `entity.update` is not part of this model.
- GameMsgHandler.Client.OnTaskCompleted: models `setState(1)` as setting the state to 1. What else the task object does is not part of this model.
- GameMsgHandler.Client.OnAttack: the lookup `mainPanel.skillBox[skillId]` can fail for an unknown skill. The model records the cooldown command without modelling that failure.
- Console warnings and logs are not modelled (lines 42, 54, 210).
- Positions are the sprites' `getPosition()` values, kept as an integer point on each entity. Sprite movement itself is not modelled.
- A non-local revive whose payload lacks `entity` is not modelled. `data.entity` is taken to be present, because what `area.addEntity` does with an absent record is not part of this model.
- `area.addEntity` is not part of this model. What it does with an id that is already in the area is taken to be replacement of the old record. Three members rest on that: AreaTable.PutAllLastWins (a refusing `addEntity` would keep the first record instead), and Lifecycle.Revived and Lifecycle.ReviveIdempotent. For a non-local entity still in the area, which is the usual case for a killed player because `killedAction` never removes its target, those two assume the live record is swapped for `data.entity` before `died` and `hp` are set.
