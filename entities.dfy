/** Optional values, for payload fields the server may leave out. */
module Wrappers {
  datatype Option<+T> = None | Some(value: T)
}

/**
 * The entity records of a client-side area, as the message handlers see them.
 * Behaviour that lives in other files (the entity's own `update`, the bag's
 * `addItem`, the sprite) is not modelled: each call is recorded on the entity.
 */
module Entities {

  type EntityId = int

  /** The `type` tag of an entity. */
  datatype EntityType = Player | Mob | Npc | Item | Equipment

  /** A sprite position, in abstract map coordinates. */
  datatype Point = Point(x: int, y: int)

  /** The payloads handed to `entity.update`. */
  datatype Update =
    | Damage(damage: int)                                // update({damage})
    | MpUse(mpUse: int)                                  // update({mpUse})
    | MpUseAndExperience(mpUse: int, experience: int)    // update({mpUse, experience})

  /** What the bag receives: `{id: item.kindId, type: item.type}`. */
  datatype BagItem = BagItem(kindId: int, kind: EntityType)

  /** One call `bag.addItem(item, index)`. */
  datatype BagAdd = BagAdd(item: BagItem, index: int)

  /**
   * An entity of the area. `bagAdds` is the bag of a player (empty for other
   * kinds) as the sequence of items put into it; `updates` are the updates sent
   * to the entity, oldest first.
   */
  datatype Entity = Entity(
    id: EntityId,
    kind: EntityType,
    kindId: int,
    pos: Point,
    died: bool,
    hp: int,
    bagAdds: seq<BagAdd>,
    updates: seq<Update>)

  /** `utils.buildEntity(type, data)`: the record built from server data under the given type tag. */
  function BuildEntity(kind: EntityType, data: Entity): (e: Entity)
    ensures e.id == data.id && e.kind == kind
  {
    data.(kind := kind)
  }

  /** The entity after `entity.update(u)`. */
  function Sent(e: Entity, u: Update): Entity
  {
    e.(updates := e.updates + [u])
  }
}
