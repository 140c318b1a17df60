/**
 * Item pick-up and revival: what `onPickItem` and `onRevive` do to the area's
 * entity table. `None` stands for a handler that stops on a TypeError.
 */
module Lifecycle {
  import opened Wrappers
  import opened Entities
  import opened AreaTable

  /** The entity after `bag.addItem(item, index)`. */
  function Stowed(e: Entity, item: BagItem, index: int): Entity
  {
    e.(bagAdds := e.bagAdds + [BagAdd(item, index)])
  }

  /**
   * The table after pick-item. With the picker absent the handler throws on
   * `player.entityId` before anything changes. Otherwise the item id is gone
   * afterwards whoever picked it, and the picker's bag gains the item exactly
   * when the picker is the current player and the item was in the area.
   */
  function Picked(m: Table, cur: EntityId, player: EntityId, item: EntityId, index: int): (r: Option<Table>)
    ensures r.None? <==> player !in m
    ensures r.Some? ==> item !in r.value && r.value.Keys == m.Keys - {item}
    ensures r.Some? ==> forall id :: id in r.value && id != player ==> r.value[id] == m[id]
    ensures r.Some? && player != item ==>
      r.value[player] == m[player].(bagAdds := r.value[player].bagAdds) &&
      r.value[player].bagAdds
        == m[player].bagAdds
           + (if m[player].id == cur && item in m then [BagAdd(BagItem(m[item].kindId, m[item].kind), index)] else [])
  {
    if player !in m then None
    else
      var stowed :=
        if m[player].id == cur && item in m
        then m[player := Stowed(m[player], BagItem(m[item].kindId, m[item].kind), index)]
        else m;
      Some(stowed - {item})
  }

  /** `data` of the revive message; `entity` is the record re-added for a non-local entity. */
  datatype ReviveMsg = ReviveMsg(entityId: EntityId, hp: int, at: Point, entity: Entity)

  /** The table after the first step of revive: any entity but the current player is (re-)added. */
  function Readmitted(m: Table, cur: EntityId, msg: ReviveMsg): Table
  {
    if cur != msg.entityId then m[msg.entity.id := msg.entity] else m
  }

  /**
   * The table after revive. It stops (`None`) exactly when no entity is filed
   * under `entityId` after the re-add. Otherwise that entity is present, alive
   * and at the payload's health, and differs from the re-added (non-local) or
   * kept (local) record in nothing else.
   */
  function Revived(m: Table, cur: EntityId, msg: ReviveMsg): (r: Option<Table>)
    ensures r.Some? <==> msg.entityId in Readmitted(m, cur, msg)
    ensures r.Some? ==> msg.entityId in r.value && !r.value[msg.entityId].died && r.value[msg.entityId].hp == msg.hp
    ensures r.Some? ==> r.value.Keys == Readmitted(m, cur, msg).Keys
    ensures r.Some? ==> r.value[msg.entityId].(died := false, hp := msg.hp)
                        == Readmitted(m, cur, msg)[msg.entityId].(died := false, hp := msg.hp)
    ensures r.Some? ==> forall id :: id in r.value && id != msg.entityId ==> r.value[id] == Readmitted(m, cur, msg)[id]
    ensures cur != msg.entityId && msg.entity.id == msg.entityId ==> r.Some?
    ensures cur == msg.entityId ==> (r.Some? <==> msg.entityId in m)
  {
    var readmitted := Readmitted(m, cur, msg);
    if msg.entityId !in readmitted then None
    else Some(readmitted[msg.entityId := readmitted[msg.entityId].(died := false, hp := msg.hp)])
  }

  /** A resent revive leaves the table as the first one left it. */
  lemma ReviveIdempotent(m: Table, cur: EntityId, msg: ReviveMsg)
    requires Revived(m, cur, msg).Some?
    ensures Revived(Revived(m, cur, msg).value, cur, msg) == Revived(m, cur, msg)
  {
    var once := Revived(m, cur, msg).value;
    var again := Readmitted(once, cur, msg);
    var alive := again[msg.entityId].(died := false, hp := msg.hp);
    if cur != msg.entityId && msg.entity.id != msg.entityId {
      assert once[msg.entity.id] == msg.entity;
      assert again == once;
    } else if cur != msg.entityId {
      assert alive == once[msg.entityId];
    }
    assert again[msg.entityId := alive] == once;
  }

  /** Pick-item keeps every record filed under its own id. */
  lemma PickedKeyed(m: Table, cur: EntityId, player: EntityId, item: EntityId, index: int)
    requires Keyed(m)
    ensures Picked(m, cur, player, item, index).Some? ==> Keyed(Picked(m, cur, player, item, index).value)
  {
  }

  /** Revive keeps every record filed under its own id. */
  lemma RevivedKeyed(m: Table, cur: EntityId, msg: ReviveMsg)
    requires Keyed(m)
    ensures Revived(m, cur, msg).Some? ==> Keyed(Revived(m, cur, msg).value)
  {
  }
}
