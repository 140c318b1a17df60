/**
 * The current area's entity table, keyed by entity id, and the three loops the
 * message handlers run over it: add-if-absent (add-entities), plain insert
 * (drop-items and loot) and remove-all-but-one (remove-entities).
 *
 * `area.addEntity(e)` is taken to file `e` under its own id, replacing any
 * record already there; `area.removeEntity(id)` drops the id if present.
 */
module AreaTable {
  import opened Entities

  type Table = map<EntityId, Entity>

  /** Every record is filed under its own id. */
  ghost predicate Keyed(m: Table)
  {
    forall id :: id in m ==> m[id].id == id
  }

  /** The ids carried by a batch of records. */
  function Ids(xs: seq<Entity>): set<EntityId>
  {
    set i | 0 <= i < |xs| :: xs[i].id
  }

  /** The ids listed in a sequence. */
  function Elems(ids: seq<EntityId>): set<EntityId>
  {
    set i | 0 <= i < |ids| :: ids[i]
  }

  lemma IdsSnoc(xs: seq<Entity>, e: Entity)
    ensures Ids(xs + [e]) == Ids(xs) + {e.id}
  {
    var ys := xs + [e];
    forall id | id in Ids(ys) ensures id in Ids(xs) + {e.id} {
      var i :| 0 <= i < |ys| && ys[i].id == id;
      if i < |xs| { assert xs[i] == ys[i]; }
    }
    forall id | id in Ids(xs) ensures id in Ids(ys) {
      var i :| 0 <= i < |xs| && xs[i].id == id;
      assert ys[i] == xs[i];
    }
    assert ys[|xs|] == e;
  }

  /** The ids of two batches, one after the other, are the ids of each. */
  lemma IdsAppend(xs: seq<Entity>, ys: seq<Entity>)
    ensures Ids(xs + ys) == Ids(xs) + Ids(ys)
  {
    var zs := xs + ys;
    forall id | id in Ids(zs) ensures id in Ids(xs) + Ids(ys) {
      var i :| 0 <= i < |zs| && zs[i].id == id;
      if i < |xs| { assert xs[i] == zs[i]; } else { assert ys[i - |xs|] == zs[i]; }
    }
    forall id | id in Ids(xs) ensures id in Ids(zs) {
      var i :| 0 <= i < |xs| && xs[i].id == id;
      assert zs[i] == xs[i];
    }
    forall id | id in Ids(ys) ensures id in Ids(zs) {
      var i :| 0 <= i < |ys| && ys[i].id == id;
      assert zs[|xs| + i] == ys[i];
    }
  }

  lemma ElemsSnoc(ids: seq<EntityId>, x: EntityId)
    ensures Elems(ids + [x]) == Elems(ids) + {x}
  {
    var ys := ids + [x];
    forall id | id in Elems(ys) ensures id in Elems(ids) + {x} {
      var i :| 0 <= i < |ys| && ys[i] == id;
      if i < |ids| { assert ids[i] == ys[i]; }
    }
    forall id | id in Elems(ids) ensures id in Elems(ys) {
      var i :| 0 <= i < |ids| && ids[i] == id;
      assert ys[i] == ids[i];
    }
    assert ys[|ids|] == x;
  }

  // ---------------------------------------------------------------------------
  // add-entities: insert each record unless its id is already in the table

  /**
   * The table after adding the records of `xs` in order, each one only if its id
   * is not yet present, so that a lookup sees the inserts made before it.
   */
  function AddNew(m: Table, xs: seq<Entity>): Table
    decreases |xs|
  {
    if xs == [] then m
    else
      var prior := AddNew(m, xs[..|xs| - 1]);
      var e := xs[|xs| - 1];
      if e.id in prior then prior else prior[e.id := e]
  }

  /** The guarded add brings in exactly the batch's ids. */
  lemma {:induction false} AddNewKeys(m: Table, xs: seq<Entity>)
    ensures AddNew(m, xs).Keys == m.Keys + Ids(xs)
    decreases |xs|
  {
    if xs != [] {
      var init := xs[..|xs| - 1];
      AddNewKeys(m, init);
      assert xs == init + [xs[|xs| - 1]];
      IdsSnoc(init, xs[|xs| - 1]);
    }
  }

  /** A record already in the area is never replaced. */
  lemma {:induction false} AddNewKeepsExisting(m: Table, xs: seq<Entity>, id: EntityId)
    requires id in m
    ensures id in AddNew(m, xs) && AddNew(m, xs)[id] == m[id]
    decreases |xs|
  {
    if xs != [] {
      AddNewKeepsExisting(m, xs[..|xs| - 1], id);
    }
  }

  /**
   * A fresh id takes the FIRST record of the batch that carries it; a later
   * record with the same id is skipped.
   */
  lemma {:induction false} AddNewFirstWins(m: Table, xs: seq<Entity>, k: nat)
    requires k < |xs| && xs[k].id !in m
    requires forall j :: 0 <= j < k ==> xs[j].id != xs[k].id
    ensures xs[k].id in AddNew(m, xs) && AddNew(m, xs)[xs[k].id] == xs[k]
    decreases |xs|
  {
    var init := xs[..|xs| - 1];
    if k == |xs| - 1 {
      AddNewKeys(m, init);
      forall j | 0 <= j < |init| ensures init[j].id != xs[k].id {
        assert init[j] == xs[j];
      }
      assert xs[k].id !in Ids(init);
    } else {
      assert init[k] == xs[k];
      AddNewFirstWins(m, init, k);
    }
  }

  /** Adding a batch in two parts, one after the other, is adding the whole batch. */
  lemma {:induction false} AddNewAppend(m: Table, xs: seq<Entity>, ys: seq<Entity>)
    ensures AddNew(m, xs + ys) == AddNew(AddNew(m, xs), ys)
    decreases |ys|
  {
    if ys != [] {
      var init := ys[..|ys| - 1];
      assert (xs + ys)[..|xs + ys| - 1] == xs + init;
      assert (xs + ys)[|xs + ys| - 1] == ys[|ys| - 1];
      AddNewAppend(m, xs, init);
    } else {
      assert xs + ys == xs;
    }
  }

  /** Adding preserves "every record is filed under its own id". */
  lemma {:induction false} AddNewKeyed(m: Table, xs: seq<Entity>)
    requires Keyed(m)
    ensures Keyed(AddNew(m, xs))
    decreases |xs|
  {
    if xs != [] {
      AddNewKeyed(m, xs[..|xs| - 1]);
    }
  }

  // ---------------------------------------------------------------------------
  // drop-items and loot: insert each record with no duplicate check

  /** The table after `addEntity` of each record of `xs` in order. */
  function PutAll(m: Table, xs: seq<Entity>): Table
    decreases |xs|
  {
    if xs == [] then m
    else
      var e := xs[|xs| - 1];
      PutAll(m, xs[..|xs| - 1])[e.id := e]
  }

  /** The plain insert brings in exactly the batch's ids. */
  lemma {:induction false} PutAllKeys(m: Table, xs: seq<Entity>)
    ensures PutAll(m, xs).Keys == m.Keys + Ids(xs)
    decreases |xs|
  {
    if xs != [] {
      var init := xs[..|xs| - 1];
      PutAllKeys(m, init);
      assert xs == init + [xs[|xs| - 1]];
      IdsSnoc(init, xs[|xs| - 1]);
    }
  }

  /** An id carried by the batch ends up with the LAST record that carries it. */
  lemma {:induction false} PutAllLastWins(m: Table, xs: seq<Entity>, k: nat)
    requires k < |xs|
    requires forall j :: k < j < |xs| ==> xs[j].id != xs[k].id
    ensures xs[k].id in PutAll(m, xs) && PutAll(m, xs)[xs[k].id] == xs[k]
    decreases |xs|
  {
    if k < |xs| - 1 {
      var init := xs[..|xs| - 1];
      assert init[k] == xs[k];
      forall j | k < j < |init| ensures init[j].id != init[k].id {
        assert init[j] == xs[j];
      }
      PutAllLastWins(m, init, k);
    }
  }

  /** A record whose id the batch does not carry is left as it was. */
  lemma {:induction false} PutAllKeepsOthers(m: Table, xs: seq<Entity>, id: EntityId)
    requires id in m && id !in Ids(xs)
    ensures id in PutAll(m, xs) && PutAll(m, xs)[id] == m[id]
    decreases |xs|
  {
    if xs != [] {
      var init := xs[..|xs| - 1];
      assert xs == init + [xs[|xs| - 1]];
      IdsSnoc(init, xs[|xs| - 1]);
      PutAllKeepsOthers(m, init, id);
    }
  }

  /** Inserting preserves "every record is filed under its own id". */
  lemma {:induction false} PutAllKeyed(m: Table, xs: seq<Entity>)
    requires Keyed(m)
    ensures Keyed(PutAll(m, xs))
    decreases |xs|
  {
    if xs != [] {
      PutAllKeyed(m, xs[..|xs| - 1]);
    }
  }

  /**
   * When no id of the batch is in the table and no id repeats within it, the
   * guarded add of add-entities and the plain insert of drop-items agree.
   */
  lemma {:induction false} AddNewIsPutAllWhenFresh(m: Table, xs: seq<Entity>)
    requires Ids(xs) !! m.Keys
    requires forall i, j :: 0 <= i < j < |xs| ==> xs[i].id != xs[j].id
    ensures AddNew(m, xs) == PutAll(m, xs)
    decreases |xs|
  {
    if xs != [] {
      var init := xs[..|xs| - 1];
      var e := xs[|xs| - 1];
      assert xs == init + [e];
      IdsSnoc(init, e);
      AddNewIsPutAllWhenFresh(m, init);
      AddNewKeys(m, init);
      forall j | 0 <= j < |init| ensures init[j].id != e.id {
        assert init[j] == xs[j];
      }
      assert e.id !in Ids(init);
    }
  }

  // ---------------------------------------------------------------------------
  // remove-entities: remove every listed id except one

  /** The table after removing each listed id in turn, skipping `keep`. */
  function RemoveAllBut(m: Table, ids: seq<EntityId>, keep: EntityId): Table
    decreases |ids|
  {
    if ids == [] then m
    else
      var prior := RemoveAllBut(m, ids[..|ids| - 1], keep);
      var id := ids[|ids| - 1];
      if id != keep then prior - {id} else prior
  }

  /**
   * The loop removes exactly the listed ids other than `keep`: the result is the
   * table minus that set, so `keep` and every unlisted record stay as they were.
   */
  lemma {:induction false} RemoveAllButIsDifference(m: Table, ids: seq<EntityId>, keep: EntityId)
    ensures RemoveAllBut(m, ids, keep) == m - (Elems(ids) - {keep})
    decreases |ids|
  {
    if ids != [] {
      var init := ids[..|ids| - 1];
      var id := ids[|ids| - 1];
      assert ids == init + [id];
      ElemsSnoc(init, id);
      RemoveAllButIsDifference(m, init, keep);
    }
  }
}
