/**
 * The commands the handlers give to the renderer and the UI, recorded rather
 * than executed, and the work they leave for an animation to trigger when it
 * finishes.
 */
module Presentation {
  import opened Wrappers
  import opened Entities

  /** A facing direction, `{x1, y1, x2, y2}`, as handed to the sprite. */
  datatype Dir = Dir(x1: int, y1: int, x2: int, y2: int)

  /** The vitals whose `change:` events the UI refresh emits. */
  datatype Vital = Hp | MaxHp | Mp | MaxMp | Experience

  datatype Command =
    | SkillCooldown(skillId: int)                           // mainPanel.skillBox[skillId].start()
    | SkillEffect(skillId: int, caster: EntityId, offset: Point)
    | TranslateTo(entity: EntityId, at: Point)
    | NumberNodes(entity: EntityId, damage: int)            // damage popup over the sprite
    | AttackAnimation(entity: EntityId, dir: Dir, killed: bool)
    | ReduceBlood(entity: EntityId)
    | ZeroBlood(entity: EntityId)
    | DeathAnimation(entity: EntityId, dir: Dir)            // has a completion callback
    | Stand(entity: EntityId, dir: Dir)
    | ReviveAnimation(entity: EntityId)                     // has a completion callback
    | CenterTo(at: Point)                                   // area.map.centerTo
    | ReviveMaskHide
    | Changed(vital: Vital)                                 // player.emit('change:<vital>')
    | Notify(message: string)

  /** The five events `uiUpdate` emits on the current player, in order. */
  const VitalsRefresh: seq<Command> :=
    [Changed(Hp), Changed(MaxHp), Changed(Mp), Changed(MaxMp), Changed(Experience)]

  /** No vitals event among `cmds`. */
  predicate NoRefresh(cmds: seq<Command>)
  {
    forall i :: 0 <= i < |cmds| ==> !cmds[i].Changed?
  }

  /** Work registered with an animation, run when that animation completes. */
  datatype Continuation =
    | AfterDeath(items: Option<seq<Entity>>)   // loot of a kill, `resultData.items`
    | AfterRevive(entity: EntityId, at: Point) // the revived entity and the revive position
}
