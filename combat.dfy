/**
 * The attack message and what its outcome does to the area's entity table and
 * to the presentation: `onAttack` with `successAction` and `killedAction`.
 */
module Combat {
  import opened Wrappers
  import opened Entities
  import opened AreaTable
  import opened Presentation

  /** `resultData.result`; codes other than the three handled ones are `Unrecognised`. */
  datatype Tag = Success | Killed | NotInRange | Unrecognised(code: int)

  /** `data.result`: the outcome tag, the damage dealt, the attacker's mana cost and the loot. */
  datatype AttackResult = AttackResult(tag: Tag, damage: int, mpUse: int, items: Option<seq<Entity>>)

  /** `data` of the attack message. */
  datatype AttackMsg = AttackMsg(attacker: EntityId, target: EntityId, skillId: int, result: AttackResult, exp: int)

  /** The table after `update(u)` on the entity filed under `id`. */
  function SendTo(m: Table, id: EntityId, u: Update): Table
    requires id in m
  {
    m[id := Sent(m[id], u)]
  }

  /**
   * SUCCESS: the target is sent the damage and then the attacker the mana cost.
   * Only the update logs change: no entity dies, none appears or disappears.
   */
  function SuccessEffect(m: Table, attacker: EntityId, target: EntityId, r: AttackResult): (m': Table)
    requires attacker in m && target in m
    ensures m'.Keys == m.Keys
    ensures forall id :: id in m ==> m'[id] == m[id].(updates := m'[id].updates)
    ensures forall id :: id in m && id != attacker && id != target ==> m'[id] == m[id]
    ensures m'[target].updates
         == m[target].updates + [Damage(r.damage)] + (if attacker == target then [MpUse(r.mpUse)] else [])
    ensures attacker != target ==> m'[attacker].updates == m[attacker].updates + [MpUse(r.mpUse)]
  {
    SendTo(SendTo(m, target, Damage(r.damage)), attacker, MpUse(r.mpUse))
  }

  /**
   * KILLED: nothing at all if the target has already died; otherwise the target
   * is marked died (and stays in the table, even a mob) and a PLAYER attacker,
   * only a player, is sent the mana cost and the experience.
   */
  function KilledEffect(m: Table, attacker: EntityId, target: EntityId, mpUse: int, exp: int): (m': Table)
    requires attacker in m && target in m
    ensures m[target].died ==> m' == m
    ensures m'.Keys == m.Keys
    ensures m'[target].died
    ensures forall id :: id in m && id != attacker && id != target ==> m'[id] == m[id]
    ensures !m[target].died && attacker != target ==> m'[target] == m[target].(died := true)
    ensures !m[target].died && attacker == target ==> m'[target] == m[target].(died := true, updates := m'[target].updates)
    ensures forall id :: id in m && id != target ==> m'[id] == m[id].(updates := m'[id].updates)
    ensures !m[target].died ==>
      m'[attacker].updates
        == m[attacker].updates + (if m[attacker].kind == Player then [MpUseAndExperience(mpUse, exp)] else [])
  {
    if m[target].died then m
    else
      var marked := m[target := m[target].(died := true)];
      if marked[attacker].kind == Player then SendTo(marked, attacker, MpUseAndExperience(mpUse, exp))
      else marked
  }

  /** Both parties of the attack are in the area, so the handler goes past its guard. */
  predicate Engaged(m: Table, msg: AttackMsg)
  {
    msg.attacker in m && msg.target in m
  }

  /** The attack kills a target that had not yet died: the one case with a death sequence. */
  predicate FreshKill(m: Table, msg: AttackMsg)
  {
    Engaged(m, msg) && msg.result.tag.Killed? && !m[msg.target].died
  }

  /**
   * The entity table after the attack message. A missing party, NOT_IN_RANGE and
   * an unrecognised tag leave it as it was; no outcome adds or removes an entity.
   */
  function AttackEffect(m: Table, msg: AttackMsg): (m': Table)
    ensures !Engaged(m, msg) ==> m' == m
    ensures msg.result.tag.NotInRange? || msg.result.tag.Unrecognised? ==> m' == m
    ensures m'.Keys == m.Keys
    ensures msg.result.tag.Success? ==> forall id :: id in m ==> m'[id].died == m[id].died
    ensures Engaged(m, msg) && msg.result.tag.Killed? ==> m'[msg.target].died
  {
    if !Engaged(m, msg) then m
    else
      match msg.result.tag
      case Success => SuccessEffect(m, msg.attacker, msg.target, msg.result)
      case Killed => KilledEffect(m, msg.attacker, msg.target, msg.result.mpUse, msg.exp)
      case NotInRange => m
      case Unrecognised(_) => m
  }

  /** A second KILLED for the same target leaves the table as the first one left it. */
  lemma KilledIdempotent(m: Table, msg: AttackMsg)
    requires msg.result.tag.Killed?
    ensures AttackEffect(AttackEffect(m, msg), msg) == AttackEffect(m, msg)
  {
  }

  /** The continuation the attack registers: the loot step of a fresh kill, and nothing else. */
  function DeathFollowUp(m: Table, msg: AttackMsg): (ks: seq<Continuation>)
    ensures |ks| <= 1
    ensures ks != [] <==> FreshKill(m, msg)
    ensures forall i :: 0 <= i < |ks| ==> ks[i] == AfterDeath(msg.result.items)
  {
    if FreshKill(m, msg) then [AfterDeath(msg.result.items)] else []
  }

  /** The skill cooldown the handler starts when the current player attacks with a skill above 1. */
  function Cooldown(cur: EntityId, msg: AttackMsg): seq<Command>
  {
    if cur == msg.attacker && msg.skillId > 1 then [SkillCooldown(msg.skillId)] else []
  }

  /**
   * The commands of the outcome itself. They hold no vitals event and no
   * cooldown, and a death
   * animation exactly when the attack is a fresh kill. The stand command of
   * NOT_IN_RANGE carries its coordinates in the order the handler passes them.
   */
  function OutcomeCues(m: Table, msg: AttackMsg): (cues: seq<Command>)
    requires Engaged(m, msg)
    ensures NoRefresh(cues)
    ensures forall i :: 0 <= i < |cues| ==> !cues[i].SkillCooldown?
    ensures (exists i :: 0 <= i < |cues| && cues[i].DeathAnimation?) <==> FreshKill(m, msg)
  {
    var ap := m[msg.attacker].pos;
    var tp := m[msg.target].pos;
    var effect := SkillEffect(msg.skillId, msg.attacker, Point(tp.x - ap.x, tp.y - ap.y));
    var dir := Dir(ap.x, ap.y, tp.x, tp.y);
    var cues :=
      match msg.result.tag
      case Success =>
        [effect, TranslateTo(msg.attacker, ap), NumberNodes(msg.target, msg.result.damage),
         AttackAnimation(msg.attacker, dir, false), ReduceBlood(msg.target)]
      case Killed =>
        if m[msg.target].died then []
        else
          [effect, TranslateTo(msg.attacker, ap), ZeroBlood(msg.target), NumberNodes(msg.target, msg.result.damage),
           AttackAnimation(msg.attacker, dir, true), DeathAnimation(msg.target, Dir(tp.x, tp.y, ap.x, ap.y))]
      case NotInRange => [Stand(msg.target, Dir(ap.x, tp.x, ap.y, tp.y))]
      case Unrecognised(_) => [];
    assert FreshKill(m, msg) ==> cues[5].DeathAnimation?;
    cues
  }

  /**
   * The presentation commands the attack handler gives before its closing
   * vitals refresh: the cooldown, then the outcome's commands. No vitals event
   * among them, and a death animation exactly when the attack is a fresh kill.
   */
  function AttackCues(m: Table, cur: EntityId, msg: AttackMsg): (cues: seq<Command>)
    requires Engaged(m, msg)
    ensures NoRefresh(cues)
    ensures (exists i :: 0 <= i < |cues| && cues[i].DeathAnimation?) <==> FreshKill(m, msg)
    ensures |cues| > 0 && cues[0].SkillCooldown? <==> cur == msg.attacker && msg.skillId > 1
  {
    var cooldown := Cooldown(cur, msg);
    var outcome := OutcomeCues(m, msg);
    assert (cooldown + outcome)[|cooldown|..] == outcome;
    assert forall i :: 0 <= i < |outcome| ==> (cooldown + outcome)[|cooldown| + i] == outcome[i];
    assert |cooldown| > 0 ==> (cooldown + outcome)[0] == cooldown[0];
    cooldown + outcome
  }
}
