/**
 * The game client's handlers for server-pushed messages, over the current
 * area's entity table. One method per handler; the work a handler hands to an
 * animation's completion callback is queued in `pending` and done by
 * `AnimationDone`, never by the handler itself.
 */
module GameMsgHandler {
  import opened Wrappers
  import opened Entities
  import opened AreaTable
  import opened Presentation
  import opened Combat
  import opened Lifecycle

  /** How one run of a handler ends. */
  datatype Outcome =
    | Handled   // ran to its end
    | Ignored   // returned early through its own guard
    | Threw     // stopped on a TypeError (a null area, an absent entity or task); what ran before stays done

  /** One `key: [entityData]` entry of an add-entities message. */
  datatype Group = Group(kind: EntityType, data: seq<Entity>)

  /**
   * The records `utils.buildEntity(key, data)` builds for one entry. They carry
   * exactly the payload's ids, so the id the guard looks up is the id stored.
   */
  function BuildGroup(g: Group): (es: seq<Entity>)
    ensures Ids(es) == Ids(g.data)
  {
    var es := seq(|g.data|, i requires 0 <= i < |g.data| => BuildEntity(g.kind, g.data[i]));
    assert forall i :: 0 <= i < |es| ==> es[i].id == g.data[i].id;
    es
  }

  /** The records built for a whole add-entities message, entry by entry. */
  function Built(groups: seq<Group>): seq<Entity>
    decreases |groups|
  {
    if groups == [] then [] else Built(groups[..|groups| - 1]) + BuildGroup(groups[|groups| - 1])
  }

  /** The entity ids a whole add-entities message carries, entry by entry. */
  function PayloadIds(groups: seq<Group>): set<EntityId>
    decreases |groups|
  {
    if groups == [] then {} else PayloadIds(groups[..|groups| - 1]) + Ids(groups[|groups| - 1].data)
  }

  /** The records built for a message carry exactly the ids of its payload. */
  lemma {:induction false} BuiltIds(groups: seq<Group>)
    ensures Ids(Built(groups)) == PayloadIds(groups)
    decreases |groups|
  {
    if groups != [] {
      var init := groups[..|groups| - 1];
      BuiltIds(init);
      IdsAppend(Built(init), BuildGroup(groups[|groups| - 1]));
    }
  }

  /** The loot records of a kill: `resultData.items`, none when absent. */
  function Loot(items: Option<seq<Entity>>): seq<Entity>
  {
    match items
    case None => []
    case Some(xs) => xs
  }

  const TaskCompletedMessage: string := "The task has been completed\U{FF01}"

  /** The task state `setState(1)` sets: completed. */
  const TaskCompleted: int := 1

  class Client {
    /** `app.getCurArea()` is not null. */
    var hasArea: bool
    /** The current area's entities, by id. */
    var entities: Table
    /** The entity id of `app.getCurPlayer()` (and of `area.getCurPlayer()`). */
    var curPlayerId: EntityId
    /** The state of each of the current player's tasks, by task id. */
    var tasks: map<int, int>
    /** The presentation commands given so far, oldest first. */
    var log: seq<Command>
    /** The work waiting for an animation to complete. */
    var pending: seq<Continuation>

    ghost predicate Valid()
      reads this
    {
      Keyed(entities)
    }

    constructor (hasArea: bool, curPlayerId: EntityId, entities: Table, tasks: map<int, int>)
      requires Keyed(entities)
      ensures Valid()
      ensures this.hasArea == hasArea && this.curPlayerId == curPlayerId
      ensures this.entities == entities && this.tasks == tasks
      ensures log == [] && pending == []
    {
      this.hasArea := hasArea;
      this.curPlayerId := curPlayerId;
      this.entities := entities;
      this.tasks := tasks;
      log := [];
      pending := [];
    }

    /**
     * add-entities: each incoming record is built and added unless its id is
     * already in the area; a repeated id later in the same message is skipped
     * too. With no area, nothing changes.
     */
    method OnAddEntities(groups: seq<Group>) returns (o: Outcome)
      requires Valid()
      modifies this
      ensures Valid()
      ensures o == if old(hasArea) then Handled else Ignored
      ensures entities == if old(hasArea) then AddNew(old(entities), Built(groups)) else old(entities)
      ensures entities.Keys == old(entities).Keys + (if old(hasArea) then PayloadIds(groups) else {})
      ensures forall id :: id in old(entities) ==> entities[id] == old(entities)[id]
      ensures hasArea == old(hasArea) && curPlayerId == old(curPlayerId) && tasks == old(tasks)
      ensures log == old(log) && pending == old(pending)
    {
      if !hasArea {
        return Ignored;
      }
      var g := 0;
      while g < |groups|
        invariant 0 <= g <= |groups|
        invariant Valid() && entities == AddNew(old(entities), Built(groups[..g]))
        invariant hasArea == old(hasArea) && curPlayerId == old(curPlayerId) && tasks == old(tasks)
        invariant log == old(log) && pending == old(pending)
      {
        AddGroup(groups[g]);
        AddNewAppend(old(entities), Built(groups[..g]), BuildGroup(groups[g]));
        assert groups[..g + 1][..g] == groups[..g];
        g := g + 1;
      }
      assert groups[..g] == groups;
      AddNewKeys(old(entities), Built(groups));
      BuiltIds(groups);
      AddNewKeyed(old(entities), Built(groups));
      forall id | id in old(entities) ensures entities[id] == old(entities)[id] {
        AddNewKeepsExisting(old(entities), Built(groups), id);
      }
      return Handled;
    }

    /**
     * The inner loop of add-entities, over the records of one message key:
     * each is built under the key's type and added unless its id is present.
     */
    method AddGroup(group: Group)
      requires Valid()
      modifies this
      ensures Valid()
      ensures entities == AddNew(old(entities), BuildGroup(group))
      ensures hasArea == old(hasArea) && curPlayerId == old(curPlayerId) && tasks == old(tasks)
      ensures log == old(log) && pending == old(pending)
    {
      var i := 0;
      while i < |group.data|
        invariant 0 <= i <= |group.data|
        invariant entities == AddNew(old(entities), BuildGroup(group)[..i])
        invariant hasArea == old(hasArea) && curPlayerId == old(curPlayerId) && tasks == old(tasks)
        invariant log == old(log) && pending == old(pending)
      {
        var e := BuildEntity(group.kind, group.data[i]);
        if group.data[i].id !in entities {
          entities := entities[e.id := e];
        }
        assert BuildGroup(group)[..i + 1][..i] == BuildGroup(group)[..i];
        i := i + 1;
      }
      assert BuildGroup(group)[..i] == BuildGroup(group);
      AddNewKeyed(old(entities), BuildGroup(group));
    }

    /**
     * drop-items: every dropped item is added to the area with no duplicate
     * check. With no area the first `addEntity` throws, before any change.
     */
    method OnDropItems(items: seq<Entity>) returns (o: Outcome)
      requires Valid()
      modifies this
      ensures Valid()
      ensures o == if !old(hasArea) && |items| > 0 then Threw else Handled
      ensures entities == if o == Handled then PutAll(old(entities), items) else old(entities)
      ensures o == Handled ==> entities.Keys == old(entities).Keys + Ids(items)
      ensures hasArea == old(hasArea) && curPlayerId == old(curPlayerId) && tasks == old(tasks)
      ensures log == old(log) && pending == old(pending)
    {
      if !hasArea && |items| > 0 {
        return Threw;
      }
      var i := 0;
      while i < |items|
        invariant 0 <= i <= |items|
        invariant entities == PutAll(old(entities), items[..i])
        invariant hasArea == old(hasArea) && curPlayerId == old(curPlayerId) && tasks == old(tasks)
        invariant log == old(log) && pending == old(pending)
      {
        assert items[..i + 1][..i] == items[..i];
        entities := entities[items[i].id := items[i]];
        i := i + 1;
      }
      assert items[..i] == items;
      PutAllKeys(old(entities), items);
      PutAllKeyed(old(entities), items);
      return Handled;
    }

    /**
     * remove-entities: every listed id but the current player's is removed; the
     * current player, and every unlisted entity, stays as it was.
     */
    method OnRemoveEntities(ids: seq<EntityId>) returns (o: Outcome)
      requires Valid()
      modifies this
      ensures Valid()
      ensures o == if old(hasArea) then Handled else Threw
      ensures entities == if o == Handled then old(entities) - (Elems(ids) - {curPlayerId}) else old(entities)
      ensures curPlayerId in old(entities) ==> curPlayerId in entities && entities[curPlayerId] == old(entities)[curPlayerId]
      ensures hasArea == old(hasArea) && curPlayerId == old(curPlayerId) && tasks == old(tasks)
      ensures log == old(log) && pending == old(pending)
    {
      if !hasArea {
        return Threw;
      }
      var i := 0;
      while i < |ids|
        invariant 0 <= i <= |ids|
        invariant entities == RemoveAllBut(old(entities), ids[..i], curPlayerId)
        invariant hasArea == old(hasArea) && curPlayerId == old(curPlayerId) && tasks == old(tasks)
        invariant log == old(log) && pending == old(pending)
      {
        assert ids[..i + 1][..i] == ids[..i];
        if ids[i] != curPlayerId {
          entities := entities - {ids[i]};
        }
        i := i + 1;
      }
      assert ids[..i] == ids;
      RemoveAllButIsDifference(old(entities), ids, curPlayerId);
      return Handled;
    }

    /** task-completed: the current player's task is set completed and the UI notified. */
    method OnTaskCompleted(taskId: int) returns (o: Outcome)
      requires Valid()
      modifies this
      ensures Valid()
      ensures o == if taskId in old(tasks) then Handled else Threw
      ensures tasks == if o == Handled then old(tasks)[taskId := TaskCompleted] else old(tasks)
      ensures log == old(log) + (if o == Handled then [Notify(TaskCompletedMessage)] else [])
      ensures hasArea == old(hasArea) && curPlayerId == old(curPlayerId) && entities == old(entities)
      ensures pending == old(pending)
    {
      if taskId !in tasks {
        return Threw;
      }
      tasks := tasks[taskId := TaskCompleted];
      log := log + [Notify(TaskCompletedMessage)];
      return Handled;
    }

    /** remove-item: the id is removed from the area. */
    method OnRemoveItem(id: EntityId) returns (o: Outcome)
      requires Valid()
      modifies this
      ensures Valid()
      ensures o == if old(hasArea) then Handled else Threw
      ensures entities == if o == Handled then old(entities) - {id} else old(entities)
      ensures hasArea == old(hasArea) && curPlayerId == old(curPlayerId) && tasks == old(tasks)
      ensures log == old(log) && pending == old(pending)
    {
      if !hasArea {
        return Threw;
      }
      entities := entities - {id};
      return Handled;
    }

    /**
     * pick-item: the current player's bag receives the item when the current
     * player picked it and the item is in the area; the item entity is then
     * removed whoever picked it. An absent picker stops the handler before any
     * change, so the item stays.
     */
    method OnPickItem(player: EntityId, item: EntityId, index: int) returns (o: Outcome)
      requires Valid()
      modifies this
      ensures Valid()
      ensures o == if old(hasArea) && player in old(entities) then Handled else Threw
      ensures o == Handled ==> Picked(old(entities), curPlayerId, player, item, index) == Some(entities)
      ensures o == Handled ==> item !in entities
      ensures o == Threw ==> entities == old(entities)
      ensures hasArea == old(hasArea) && curPlayerId == old(curPlayerId) && tasks == old(tasks)
      ensures log == old(log) && pending == old(pending)
    {
      if !hasArea || player !in entities {
        return Threw;
      }
      var picker := entities[player];
      if picker.id == curPlayerId && item in entities {
        var found := entities[item];
        entities := entities[player := Stowed(picker, BagItem(found.kindId, found.kind), index)];
      }
      entities := entities - {item};
      return Handled;
    }

    /**
     * attack: with both parties in the area, the outcome is handled (SUCCESS,
     * KILLED; NOT_IN_RANGE only turns the target; any other tag does nothing)
     * and then the current player's vitals are refreshed, once. A missing party
     * changes nothing and refreshes nothing. The loot of a kill is not added
     * here: it waits in `pending` for the death animation.
     */
    method OnAttack(msg: AttackMsg) returns (o: Outcome)
      requires Valid()
      modifies this
      ensures Valid()
      ensures o == if !old(hasArea) then Threw else if Engaged(old(entities), msg) then Handled else Ignored
      ensures o != Handled ==> unchanged(this)
      ensures o == Handled ==> entities == AttackEffect(old(entities), msg)
      ensures o == Handled ==> log == old(log) + AttackCues(old(entities), curPlayerId, msg) + VitalsRefresh
      ensures o == Handled ==> pending == old(pending) + DeathFollowUp(old(entities), msg)
      ensures hasArea == old(hasArea) && curPlayerId == old(curPlayerId) && tasks == old(tasks)
    {
      if !hasArea {
        return Threw;
      }
      if msg.attacker !in entities || msg.target !in entities {
        return Ignored;
      }
      var ap := entities[msg.attacker].pos;
      var tp := entities[msg.target].pos;
      var effect := SkillEffect(msg.skillId, msg.attacker, Point(tp.x - ap.x, tp.y - ap.y));
      if curPlayerId == msg.attacker && msg.skillId > 1 {
        log := log + [SkillCooldown(msg.skillId)];
      }
      assert log == old(log) + Cooldown(curPlayerId, msg);
      Resolve(msg, ap, tp, effect);
      assert log == old(log) + AttackCues(old(entities), curPlayerId, msg);
      UiUpdate();
      return Handled;
    }

    /** The dispatch on the result tag, between the cooldown and the vitals refresh of `OnAttack`. */
    method Resolve(msg: AttackMsg, ap: Point, tp: Point, effect: Command)
      requires Valid() && Engaged(entities, msg)
      requires ap == entities[msg.attacker].pos && tp == entities[msg.target].pos
      requires effect == SkillEffect(msg.skillId, msg.attacker, Point(tp.x - ap.x, tp.y - ap.y))
      modifies this
      ensures Valid()
      ensures entities == AttackEffect(old(entities), msg)
      ensures log == old(log) + OutcomeCues(old(entities), msg)
      ensures pending == old(pending) + DeathFollowUp(old(entities), msg)
      ensures hasArea == old(hasArea) && curPlayerId == old(curPlayerId) && tasks == old(tasks)
    {
      match msg.result.tag {
        case Success =>
          SuccessAction(msg.attacker, msg.target, ap, tp, effect, msg.result);
          assert log == old(log) + OutcomeCues(old(entities), msg);
        case Killed =>
          KilledAction(msg.attacker, msg.target, ap, tp, effect, msg.result, msg.exp);
          assert log == old(log) + OutcomeCues(old(entities), msg);
        case NotInRange =>
          log := log + [Stand(msg.target, Dir(ap.x, tp.x, ap.y, tp.y))];
        case Unrecognised(_) =>
      }
    }

    /** successAction: the hit's commands, the damage to the target, the mana cost to the attacker. */
    method SuccessAction(attacker: EntityId, target: EntityId, ap: Point, tp: Point, effect: Command, r: AttackResult)
      requires Valid() && attacker in entities && target in entities
      modifies this
      ensures Valid()
      ensures entities == SuccessEffect(old(entities), attacker, target, r)
      ensures log == old(log) + [effect, TranslateTo(attacker, ap), NumberNodes(target, r.damage),
                                 AttackAnimation(attacker, Dir(ap.x, ap.y, tp.x, tp.y), false), ReduceBlood(target)]
      ensures hasArea == old(hasArea) && curPlayerId == old(curPlayerId) && tasks == old(tasks)
      ensures pending == old(pending)
    {
      log := log + [effect];
      log := log + [TranslateTo(attacker, ap)];
      var dir := Dir(ap.x, ap.y, tp.x, tp.y);
      log := log + [NumberNodes(target, r.damage)];
      log := log + [AttackAnimation(attacker, dir, false)];
      entities := entities[target := Sent(entities[target], Damage(r.damage))];
      entities := entities[attacker := Sent(entities[attacker], MpUse(r.mpUse))];
      log := log + [ReduceBlood(target)];
    }

    /**
     * killedAction: a target that has already died is left alone. Otherwise it
     * is marked died, a PLAYER attacker gets the mana cost and the experience,
     * the death commands are given and the loot step is queued behind the
     * death animation.
     */
    method KilledAction(attacker: EntityId, target: EntityId, ap: Point, tp: Point, effect: Command,
                        r: AttackResult, exp: int)
      requires Valid() && attacker in entities && target in entities
      modifies this
      ensures Valid()
      ensures entities == KilledEffect(old(entities), attacker, target, r.mpUse, exp)
      ensures log == old(log) +
        if old(entities)[target].died then []
        else [effect, TranslateTo(attacker, ap), ZeroBlood(target), NumberNodes(target, r.damage),
              AttackAnimation(attacker, Dir(ap.x, ap.y, tp.x, tp.y), true),
              DeathAnimation(target, Dir(tp.x, tp.y, ap.x, ap.y))]
      ensures pending == old(pending) + if old(entities)[target].died then [] else [AfterDeath(r.items)]
      ensures hasArea == old(hasArea) && curPlayerId == old(curPlayerId) && tasks == old(tasks)
    {
      if entities[target].died {
        return;
      }
      entities := entities[target := entities[target].(died := true)];
      // A MOB target only loses the handler's own reference here; it stays in the area.
      log := log + [effect, TranslateTo(attacker, ap), ZeroBlood(target)];
      if entities[attacker].kind == Player {
        entities := entities[attacker := Sent(entities[attacker], MpUseAndExperience(r.mpUse, exp))];
      }
      assert entities == KilledEffect(old(entities), attacker, target, r.mpUse, exp);
      var dir := Dir(ap.x, ap.y, tp.x, tp.y);
      log := log + [NumberNodes(target, r.damage), AttackAnimation(attacker, dir, true)];
      log := log + [DeathAnimation(target, Dir(tp.x, tp.y, ap.x, ap.y))];
      pending := pending + [AfterDeath(r.items)];
    }

    /** uiUpdate: the five vitals events on the current player. */
    method UiUpdate()
      modifies this
      ensures log == old(log) + VitalsRefresh
      ensures entities == old(entities) && pending == old(pending)
      ensures hasArea == old(hasArea) && curPlayerId == old(curPlayerId) && tasks == old(tasks)
    {
      log := log + [Changed(Hp)];
      log := log + [Changed(MaxHp)];
      log := log + [Changed(Mp)];
      log := log + [Changed(MaxMp)];
      log := log + [Changed(Experience)];
    }

    /**
     * revive: an entity other than the current player is first re-added from
     * the payload; then the entity is marked alive with the payload's health
     * and its revive animation started. Recentring the map and hiding the death
     * mask wait for that animation.
     */
    method OnRevive(msg: ReviveMsg) returns (o: Outcome)
      requires Valid()
      modifies this
      ensures Valid()
      ensures o == if old(hasArea) && Revived(old(entities), curPlayerId, msg).Some? then Handled else Threw
      ensures o == Handled ==> Revived(old(entities), curPlayerId, msg) == Some(entities)
      ensures o == Handled ==> msg.entityId in entities && !entities[msg.entityId].died
                               && entities[msg.entityId].hp == msg.hp
      ensures o == Threw ==> entities == if old(hasArea) then Readmitted(old(entities), curPlayerId, msg) else old(entities)
      ensures log == old(log) + (if o == Handled then [ReviveAnimation(msg.entityId)] else [])
      ensures pending == old(pending) + (if o == Handled then [AfterRevive(msg.entityId, msg.at)] else [])
      ensures hasArea == old(hasArea) && curPlayerId == old(curPlayerId) && tasks == old(tasks)
    {
      if !hasArea {
        return Threw;
      }
      if curPlayerId != msg.entityId {
        entities := entities[msg.entity.id := msg.entity];
      }
      if msg.entityId !in entities {
        return Threw;
      }
      ghost var readmitted := entities;
      var revived := entities[msg.entityId];
      entities := entities[msg.entityId := revived.(died := false)];
      entities := entities[msg.entityId := entities[msg.entityId].(hp := msg.hp)];
      assert entities == readmitted[msg.entityId := revived.(died := false, hp := msg.hp)];
      log := log + [ReviveAnimation(msg.entityId)];
      pending := pending + [AfterRevive(msg.entityId, msg.at)];
      return Handled;
    }

    /** The animation that registered `pending[i]` has completed: its work runs now. */
    method AnimationDone(i: nat) returns (o: Outcome)
      requires Valid() && i < |pending|
      modifies this
      ensures Valid()
      ensures pending == old(pending[..i] + pending[i + 1..])
      ensures old(pending[i]).AfterRevive? ==> o == Handled && entities == old(entities)
      ensures old(pending[i]).AfterRevive? ==>
        log == old(log) + (if old(pending[i]).entity == curPlayerId then [CenterTo(old(pending[i]).at), ReviveMaskHide] else [])
      ensures old(pending[i]).AfterDeath? ==> log == old(log)
      ensures old(pending[i]).AfterDeath? ==>
        (o == Handled <==> old(hasArea) || |Loot(old(pending[i]).items)| == 0) &&
        entities == if o == Handled then PutAll(old(entities), Loot(old(pending[i]).items)) else old(entities)
      ensures hasArea == old(hasArea) && curPlayerId == old(curPlayerId) && tasks == old(tasks)
    {
      var k := pending[i];
      pending := pending[..i] + pending[i + 1..];
      match k
      case AfterDeath(items) =>
        o := DeathSequenceDone(items);
      case AfterRevive(id, at) =>
        ReviveSequenceDone(id, at);
        o := Handled;
    }

    /**
     * The death animation's callback: each loot record is built and added to
     * the area current at that time, with no duplicate check. Absent or empty
     * loot adds nothing.
     */
    method DeathSequenceDone(items: Option<seq<Entity>>) returns (o: Outcome)
      requires Valid()
      modifies this
      ensures Valid()
      ensures o == if !old(hasArea) && |Loot(items)| > 0 then Threw else Handled
      ensures entities == if o == Handled then PutAll(old(entities), Loot(items)) else old(entities)
      ensures o == Handled ==> entities.Keys == old(entities).Keys + Ids(Loot(items))
      ensures hasArea == old(hasArea) && curPlayerId == old(curPlayerId) && tasks == old(tasks)
      ensures log == old(log) && pending == old(pending)
    {
      if items.None? || |items.value| == 0 {
        return Handled;
      }
      var loot := items.value;
      if !hasArea {
        return Threw;
      }
      var i := 0;
      while i < |loot|
        invariant 0 <= i <= |loot|
        invariant entities == PutAll(old(entities), loot[..i])
        invariant hasArea == old(hasArea) && curPlayerId == old(curPlayerId) && tasks == old(tasks)
        invariant log == old(log) && pending == old(pending)
      {
        assert loot[..i + 1][..i] == loot[..i];
        var e := BuildEntity(loot[i].kind, loot[i]);
        assert e == loot[i];
        entities := entities[e.id := e];
        i := i + 1;
      }
      assert loot[..i] == loot;
      PutAllKeys(old(entities), loot);
      PutAllKeyed(old(entities), loot);
      return Handled;
    }

    /**
     * The revive animation's callback: for the current player only, the map is
     * recentred on the revive position and the death mask hidden.
     */
    method ReviveSequenceDone(id: EntityId, at: Point)
      modifies this
      ensures log == old(log) + if id == curPlayerId then [CenterTo(at), ReviveMaskHide] else []
      ensures entities == old(entities) && pending == old(pending)
      ensures hasArea == old(hasArea) && curPlayerId == old(curPlayerId) && tasks == old(tasks)
    {
      if id == curPlayerId {
        log := log + [CenterTo(at)];
        log := log + [ReviveMaskHide];
      }
    }
  }
}
