/** The older `Manager`: unconditional single-object saves and updates,
    `save(List)`, and `replace`, `apply` and `delete(List)` over one batch.
    Its `generateContentValues` and `get(Cursor)` are abstract. `Apply` and
    `Replace` take the former as a parameter, and their inserts keep each
    object's id. The single-object saves and updates take instead
    `writesId`, whether the values it builds carry the object's `_id`; an
    insert keeps that id or gets a fresh row id, and an update keeps the
    row's id or moves the row to it. The rows read back are the objects
    stored. */
module LegacyManagers {
  import opened Wrappers
  import opened JavaText
  import opened Model
  import opened Uris
  import RecordMapper
  import Reconcile
  import Managers
  import Batches
  import Replacing

  type Store = Managers.Store

  /** `get(long id)` and `get(uri)`: the object stored under the id, if any. */
  function Lookup(store: Store, id: Long): Option<DatabaseObject> {
    if id in store then Some(store[id]) else None
  }

  // ---------------------------------------------------------------------
  // performUpdate

  /** The where clause `performUpdate` writes: `_id=` and the id cut down
      to a Java `int`. */
  function UpdateClauseAsWritten(id: Long): string {
    ID_COLUMN + "=" + Decimal(IntValue(id))
  }

  /** The clause names the row of the truncated id: its number parses back
      to `IntValue(id)`, which is `id` itself only inside the `int` range. */
  lemma UpdateClauseNamesTruncated(id: Long)
    ensures UpdateClauseAsWritten(id)[|ID_COLUMN + "="|..] == Decimal(IntValue(id))
    ensures ParseLong(Decimal(IntValue(id))) == Ok(IntValue(id) as Long)
    ensures IntValue(id) == id <==> MIN_INT <= id <= MAX_INT
  {
    ParseDecimal(IntValue(id));
  }

  /** `performUpdate(object)` as written: the update reaches the row whose
      `_id` is the truncated id, and reports the object when exactly one
      row changed. There is no version check. When the subclass writes no
      `_id` (`writesId` false), that row keeps its own id and takes the
      object's other values. When it does write `_id` and the truncation
      changed the id, SQLite moves the row to the full id, or fails on the
      primary key when a row with the full id already exists. */
  function PerformUpdateAsWritten(store: Store, o: DatabaseObject, writesId: bool): (r: Managers.Saved<Option<DatabaseObject>>)
    ensures o.id.None? ==> r == Managers.Saved(Err(NullPointer), store)
    ensures o.id.Some? ==> ((r.result.Ok? && r.result.value.Some?) <==>
                             (IntValue(o.id.value) in store &&
                              (!writesId || IntValue(o.id.value) == o.id.value || o.id.value !in store)))
    ensures o.id.Some? && IntValue(o.id.value) !in store ==> r == Managers.Saved(Ok(None), store)
    ensures o.id.Some? && IntValue(o.id.value) in store && (!writesId || IntValue(o.id.value) == o.id.value) ==>
              r.result.value == Some(o) &&
              r.store == store[IntValue(o.id.value) := o.(id := Some(IntValue(o.id.value) as Long))]
    ensures o.id.Some? && IntValue(o.id.value) in store && writesId && IntValue(o.id.value) != o.id.value ==>
              if o.id.value in store then r == Managers.Saved(Err(SqlFailure), store)
              else r.result == Ok(Some(o)) && r.store == (store - {IntValue(o.id.value) as Long})[o.id.value := o]
    ensures r.result != Ok(Some(o)) ==> r.store == store
  {
    match o.id
    case None => Managers.Saved(Err(NullPointer), store)
    case Some(id) =>
      var target: Long := IntValue(id);
      if target !in store then Managers.Saved(Ok(None), store)
      else if !writesId || id == target then Managers.Saved(Ok(Some(o)), store[target := o.(id := Some(target))])
      else if id in store then Managers.Saved(Err(SqlFailure), store)
      else Managers.Saved(Ok(Some(o)), (store - {target})[id := o])
  }

  /** Every row is stored under its own `_id`. */
  predicate Keyed(store: Store) {
    forall k :: k in store ==> store[k].id == Some(k)
  }

  /** The update as written keeps every row under its own `_id`, whether or
      not the values carry it. */
  lemma UpdateKeepsKeys(store: Store, o: DatabaseObject, writesId: bool)
    requires Keyed(store)
    ensures Keyed(PerformUpdateAsWritten(store, o, writesId).store)
  {
  }

  /** `performUpdate` with the full id in the clause: the object's own row,
      and only that row, is overwritten when it exists. */
  function PerformUpdate(store: Store, o: DatabaseObject): (r: Managers.Saved<Option<DatabaseObject>>)
    ensures o.id.None? ==> r == Managers.Saved(Err(NullPointer), store)
    ensures o.id.Some? ==> r.result.Ok? && (r.result.value.Some? <==> o.id.value in store)
    ensures o.id.Some? && o.id.value in store ==> r.result.value == Some(o) && r.store == store[o.id.value := o]
    ensures r.result != Ok(Some(o)) ==> r.store == store
  {
    match o.id
    case None => Managers.Saved(Err(NullPointer), store)
    case Some(id) =>
      if id in store then Managers.Saved(Ok(Some(o)), store[id := o])
      else Managers.Saved(Ok(None), store)
  }

  /** Inside the `int` range the truncation changes nothing: both updates
      agree, whether or not the values carry `_id`. */
  lemma UpdateAgreesInIntRange(store: Store, o: DatabaseObject, writesId: bool)
    requires o.id.Some? && MIN_INT <= o.id.value <= MAX_INT
    ensures PerformUpdateAsWritten(store, o, writesId) == PerformUpdate(store, o)
  {
    assert o.(id := Some(IntValue(o.id.value) as Long)) == o;
  }

  /** Outside the `int` range the update written misses its own row: with no
      `_id` among the values, an id of 2^32 + 5 writes the object's values
      into row 5, reports success, and leaves the object's own row as it was. */
  lemma UpdateTruncatesId()
    ensures var own: Long := 0x1_0000_0005;
            var stored := DatabaseObject(Some(own), 1, map[], DEFAULT_FLAGS);
            var other := DatabaseObject(Some(5), 1, map[], DEFAULT_FLAGS);
            var o := DatabaseObject(Some(own), 2, map[], DEFAULT_FLAGS);
            var store := map[5 := other, own := stored];
            var r := PerformUpdateAsWritten(store, o, false);
            r.result == Ok(Some(o)) && r.store[5] == o.(id := Some(5)) && r.store[own] == stored &&
            PerformUpdate(store, o).store[own] == o && PerformUpdate(store, o).store[5] == other
  {
    var own: Long := 0x1_0000_0005;
    assert IntValue(own) == 5;
  }

  /** With `_id` among the values, the same update takes row 5 over: alone,
      that row moves to the full id and row 5 is gone; next to a stored row
      with the full id, the primary key refuses the update. */
  lemma UpdateWritingIdMovesRow()
    ensures var own: Long := 0x1_0000_0005;
            var stored := DatabaseObject(Some(own), 1, map[], DEFAULT_FLAGS);
            var other := DatabaseObject(Some(5), 1, map[], DEFAULT_FLAGS);
            var o := DatabaseObject(Some(own), 2, map[], DEFAULT_FLAGS);
            PerformUpdateAsWritten(map[5 := other], o, true) == Managers.Saved(Ok(Some(o)), map[own := o]) &&
            PerformUpdateAsWritten(map[5 := other, own := stored], o, true)
              == Managers.Saved(Err(SqlFailure), map[5 := other, own := stored])
  {
  }

  // ---------------------------------------------------------------------
  // performSave and save

  /** The object as the abstract `generateContentValues` hands it to the
      insert: with its `_id` when the subclass writes it, else without. */
  function Written(o: DatabaseObject, writesId: bool): DatabaseObject {
    if writesId then o else o.(id := None)
  }

  /** `performSave(object)`: insert the row (the provider throws
      `SQLException` unless the row id is positive), then re-read the item
      URI the insert returned. Values without `_id` get a fresh row id; an
      `_id` among them is kept, and one already stored is refused. */
  function PerformSave(store: Store, o: DatabaseObject, writesId: bool): (r: Managers.Saved<Option<DatabaseObject>>)
    ensures r.store == Managers.StoreInsert(store, Written(o, writesId)).1
    ensures Managers.StoreInsert(store, Written(o, writesId)).0 <= 0 <==> r.result.Err?
    ensures r.result.Err? ==> r.result.error == SqlFailure
    ensures r.result.Ok? ==> r.result.value.Some? && r.result.value.value.id.Some? &&
                             r.result.value.value.id.value !in store &&
                             r.store == store[r.result.value.value.id.value := r.result.value.value]
    ensures r.result.Ok? ==> r.result.value.value == o.(id := r.result.value.value.id)
    ensures writesId && o.id.Some? && o.id.value in store ==> r == Managers.Saved(Err(SqlFailure), store)
    ensures writesId && o.id.Some? && o.id.value !in store && o.id.value > 0 ==>
              r == Managers.Saved(Ok(Some(o)), store[o.id.value := o])
  {
    var (rowId, stored) := Managers.StoreInsert(store, Written(o, writesId));
    if rowId <= 0 then Managers.Saved(Err(SqlFailure), stored)
    else Managers.Saved(Ok(Lookup(stored, rowId)), stored)
  }

  /** An object inserted without an `_id` among its values, into a table
      whose row ids are all non-negative and below the largest `long`, gets
      the next row id, whatever id the object held. */
  lemma PerformSaveNextRowId(store: Store, o: DatabaseObject, writesId: bool)
    requires o.id.None? || !writesId
    requires forall k :: k in store ==> 0 <= k < MAX_LONG
    ensures var r := PerformSave(store, o, writesId);
            r.result.Ok? && r.result.value.value == o.(id := r.result.value.value.id) &&
            forall k :: k in store ==> k < r.result.value.value.id.value
  {
    if store != map[] {
      assert Managers.MaxRowId(store.Keys) in store;
    }
  }

  /** `save(object)`. With an externally managed id: look the id up (a null
      id fails on unboxing), update when found, else insert. Otherwise a
      null id inserts and any other id updates. */
  function Save(store: Store, o: DatabaseObject, writesId: bool): (r: Managers.Saved<Option<DatabaseObject>>)
    ensures o.flags.idManagedExternally && o.id.None? ==> r == Managers.Saved(Err(NullPointer), store)
    ensures o.id.Some? && o.id.value in store ==> r == PerformUpdateAsWritten(store, o, writesId)
    ensures o.flags.idManagedExternally && o.id.Some? && o.id.value !in store ==> r == PerformSave(store, o, writesId)
    ensures !o.flags.idManagedExternally ==>
              r == (if o.id.None? then PerformSave(store, o, writesId) else PerformUpdateAsWritten(store, o, writesId))
  {
    if o.flags.idManagedExternally then
      match o.id
      case None => Managers.Saved(Err(NullPointer), store)
      case Some(id) =>
        match Lookup(store, id)
        case None => PerformSave(store, o, writesId)
        case Some(_) => PerformUpdateAsWritten(store, o, writesId)
    else
      if o.id.None? then PerformSave(store, o, writesId) else PerformUpdateAsWritten(store, o, writesId)
  }

  /** What a save that returns an object leaves, every other row as it was:
      the returned object stored under its id; or, when the update's clause
      truncated the id, its values written into the row of the id cut to an
      `int`; or, when the values carry `_id`, that row moved to the full id.
      Inside the `int` range the key is the id itself. A save that returns
      null changed nothing. */
  lemma SaveStoresResult(store: Store, o: DatabaseObject, writesId: bool)
    ensures var r := Save(store, o, writesId);
            r.result.Ok? && r.result.value.Some? ==>
              var x := r.result.value.value;
              x.id.Some? &&
              (r.store == store[x.id.value := x] ||
               (IntValue(x.id.value) in store &&
                r.store == store[IntValue(x.id.value) := x.(id := Some(IntValue(x.id.value) as Long))]) ||
               (writesId && IntValue(x.id.value) in store && x.id.value !in store &&
                r.store == (store - {IntValue(x.id.value) as Long})[x.id.value := x]))
    ensures var r := Save(store, o, writesId);
            r.result.Ok? && r.result.value.Some? && r.result.value.value.id.Some? &&
            MIN_INT <= r.result.value.value.id.value <= MAX_INT ==>
              r.store == store[r.result.value.value.id.value := r.result.value.value]
    ensures var r := Save(store, o, writesId); r.result == Ok(None) ==> r.store == store
  {
    var r := Save(store, o, writesId);
    if r.result.Ok? && r.result.value.Some? {
      var x := r.result.value.value;
      if x.id.Some? && MIN_INT <= x.id.value <= MAX_INT {
        assert x.(id := Some(IntValue(x.id.value) as Long)) == x;
      }
    }
  }

  /** A save keeps every row under its own `_id`. */
  lemma SaveKeepsKeys(store: Store, o: DatabaseObject, writesId: bool)
    requires Keyed(store)
    ensures Keyed(Save(store, o, writesId).store)
  {
  }

  /** The save of an object whose id lies outside the `int` range, with the
      truncated id also stored and no `_id` among the values, writes its
      values into the other row and reports success, leaving the object's
      own row as it was. */
  lemma SaveTruncatesId()
    ensures var own: Long := 0x1_0000_0005;
            var stored := DatabaseObject(Some(own), 1, map[], DEFAULT_FLAGS);
            var other := DatabaseObject(Some(5), 1, map[], DEFAULT_FLAGS);
            var o := DatabaseObject(Some(own), 2, map[], DEFAULT_FLAGS);
            var store := map[5 := other, own := stored];
            var r := Save(store, o, false);
            r.result == Ok(Some(o)) && r.store[5] == o.(id := Some(5)) && r.store[own] == stored
  {
    var own: Long := 0x1_0000_0005;
    assert IntValue(own) == 5;
  }

  /** Saving a new object with an externally managed id 42 into an empty
      table: when the values carry `_id` the row and the object returned
      keep 42; when they do not, SQLite numbers the row 1 and `get(uri)`
      returns the object under id 1. */
  lemma SaveExternalIdReadings()
    ensures var o := DatabaseObject(Some(42), 1, map[], Flags(true, false));
            Save(map[], o, true) == Managers.Saved(Ok(Some(o)), map[42 := o]) &&
            Save(map[], o, false) == Managers.Saved(Ok(Some(o.(id := Some(1)))), map[1 := o.(id := Some(1))])
  {
  }

  /** A save removes no row, except the row of a truncated id that the
      update moves to the full id when the values carry `_id`. */
  lemma SaveKeepsRows(store: Store, o: DatabaseObject, writesId: bool)
    ensures forall k :: k in store ==>
              k in Save(store, o, writesId).store ||
              (writesId && o.id.Some? && k == IntValue(o.id.value) && k != o.id.value)
  {
  }

  /** The per-object save a list save runs. */
  type SaveStep = (Store, DatabaseObject) -> Managers.Saved<Option<DatabaseObject>>

  /** `save(object)` as a step, for one reading of `generateContentValues`. */
  function SaveWith(writesId: bool): SaveStep {
    (s, x) => Save(s, x, writesId)
  }

  /** The loop of `save(List)` over a given per-object save: each object
      saved in turn against the table the previous save left; the non-null
      results, in input order. An exception ends the loop with the earlier
      saves kept. */
  function SaveEach(save: SaveStep, store: Store, objects: seq<DatabaseObject>): (r: Managers.Saved<seq<DatabaseObject>>)
    ensures r.result.Ok? ==> |r.result.value| <= |objects|
    decreases |objects|
  {
    if |objects| == 0 then Managers.Saved(Ok([]), store)
    else
      var first := save(store, objects[0]);
      match first.result
      case Err(e) => Managers.Saved(Err(e), first.store)
      case Ok(saved) =>
        var rest := SaveEach(save, first.store, objects[1..]);
        match rest.result
        case Err(e) => Managers.Saved(Err(e), rest.store)
        case Ok(more) => Managers.Saved(Ok(Present(saved) + more), rest.store)
  }

  /** Every id the objects carry fits a Java `int`. */
  predicate IntIds(objects: seq<DatabaseObject>) {
    forall o :: o in objects && o.id.Some? ==> MIN_INT <= o.id.value <= MAX_INT
  }

  /** `save(List)`: the loop over `save(object)`. No row is removed when the
      values carry no `_id`, or when every id fits an `int`. */
  function SaveList(store: Store, objects: seq<DatabaseObject>, writesId: bool): (r: Managers.Saved<seq<DatabaseObject>>)
    ensures r.result.Ok? ==> |r.result.value| <= |objects|
    ensures !writesId || IntIds(objects) ==> store.Keys <= r.store.Keys
  {
    SaveListKeepsRows(store, objects, writesId);
    SaveEach(SaveWith(writesId), store, objects)
  }

  /** A list save removes no row when none of its single saves does. */
  lemma {:induction false} SaveListKeepsRows(store: Store, objects: seq<DatabaseObject>, writesId: bool)
    ensures !writesId || IntIds(objects) ==> store.Keys <= SaveEach(SaveWith(writesId), store, objects).store.Keys
    decreases |objects|
  {
    if |objects| > 0 && (!writesId || IntIds(objects)) {
      var first := Save(store, objects[0], writesId);
      SaveKeepsRows(store, objects[0], writesId);
      assert objects[0] in objects;
      if first.result.Ok? {
        assert forall o :: o in objects[1..] ==> o in objects;
        SaveListKeepsRows(first.store, objects[1..], writesId);
      }
    }
  }

  /** A list save keeps every row under its own `_id`, because each single
      save does. */
  lemma {:induction false} SaveListKeepsKeys(store: Store, objects: seq<DatabaseObject>, writesId: bool)
    requires Keyed(store)
    ensures Keyed(SaveList(store, objects, writesId).store)
    decreases |objects|
  {
    if |objects| > 0 {
      var first := Save(store, objects[0], writesId);
      SaveKeepsKeys(store, objects[0], writesId);
      if first.result.Ok? {
        SaveListKeepsKeys(first.store, objects[1..], writesId);
      }
    }
  }

  /** A null result is dropped, any other kept. */
  function Present(x: Option<DatabaseObject>): (r: seq<DatabaseObject>)
    ensures |r| <= 1
  {
    if x.Some? then [x.value] else []
  }

  /** One object: the list holds its result exactly when that is not null. */
  lemma SaveListSingle(store: Store, o: DatabaseObject, writesId: bool)
    ensures var r := SaveList(store, [o], writesId);
            var s := Save(store, o, writesId);
            r.store == s.store && (r.result.Ok? <==> s.result.Ok?) &&
            (s.result.Ok? ==> r.result.value == Present(s.result.value))
  {
    assert [o][1..] == [];
    var s := Save(store, o, writesId);
    assert SaveEach(SaveWith(writesId), s.store, []) == Managers.Saved(Ok([]), s.store);
  }

  /** Saving `a + b` saves `a`, then `b` against the table `a` left, and
      lists the results of `a` before those of `b`. */
  lemma SaveListAppend(store: Store, a: seq<DatabaseObject>, b: seq<DatabaseObject>, writesId: bool)
    requires SaveList(store, a, writesId).result.Ok?
    ensures var first := SaveList(store, a, writesId);
            var second := SaveList(first.store, b, writesId);
            var whole := SaveList(store, a + b, writesId);
            whole.store == second.store && (whole.result.Ok? <==> second.result.Ok?) &&
            (second.result.Ok? ==> whole.result.value == first.result.value + second.result.value)
  {
    SaveEachAppend(SaveWith(writesId), store, a, b);
  }

  /** The loop over `a + b` is the loop over `a`, then over `b`, whatever
      the per-object save. */
  lemma {:induction false} SaveEachAppend(save: SaveStep, store: Store, a: seq<DatabaseObject>, b: seq<DatabaseObject>)
    requires SaveEach(save, store, a).result.Ok?
    ensures var first := SaveEach(save, store, a);
            var second := SaveEach(save, first.store, b);
            var whole := SaveEach(save, store, a + b);
            whole.store == second.store && (whole.result.Ok? <==> second.result.Ok?) &&
            (second.result.Ok? ==> whole.result.value == first.result.value + second.result.value)
    decreases |a|
  {
    if |a| == 0 {
      assert a + b == b;
    } else {
      var s := save(store, a[0]);
      SaveEachAppend(save, s.store, a[1..], b);
      var ab := a + b;
      assert ab[0] == a[0];
      assert ab[1..] == a[1..] + b;
    }
  }

  // ---------------------------------------------------------------------
  // apply, replace and delete(List)

  /** The abstract `generateContentValues` of a subclass. */
  type Generate = DatabaseObject -> RecordMapper.ContentValues

  /** `processObjectsToAdd`: one insert into the collection URI per object. */
  function InsertOperations(collection: Uri, generate: Generate, objects: seq<DatabaseObject>)
    : (r: seq<Batches.Operation>)
    ensures |r| == |objects|
    ensures forall i :: 0 <= i < |objects| ==> r[i] == Batches.InsertOp(collection, generate(objects[i]), objects[i])
  {
    seq(|objects|, i requires 0 <= i < |objects| => Batches.InsertOp(collection, generate(objects[i]), objects[i]))
  }

  /** `processObjectsToUpdate`: per object, its item URI (a null id fails on
      unboxing) under `_id = ?` bound to the id. */
  function UpdateOperations(collection: Uri, generate: Generate, objects: seq<DatabaseObject>)
    : (r: Result<seq<Batches.Operation>>)
    ensures r.Ok? <==> forall i :: 0 <= i < |objects| ==> objects[i].id.Some?
    ensures r.Err? ==> r.error == NullPointer
    ensures r.Ok? ==> |r.value| == |objects|
    ensures r.Ok? ==> forall i :: 0 <= i < |objects| ==>
              r.value[i] == Batches.UpdateOp(WithAppendedId(collection, objects[i].id.value), generate(objects[i]),
                                             Batches.ID_SELECTION, [Decimal(objects[i].id.value)], objects[i])
    decreases |objects|
  {
    if |objects| == 0 then Ok([])
    else
      var o := objects[0];
      assert forall i :: 1 <= i < |objects| ==> objects[i] == objects[1..][i - 1];
      match o.id
      case None => Err(NullPointer)
      case Some(id) =>
        match UpdateOperations(collection, generate, objects[1..])
        case Err(e) => Err(e)
        case Ok(ops) =>
          Ok([Batches.UpdateOp(WithAppendedId(collection, id), generate(o), Batches.ID_SELECTION, [Decimal(id)], o)] + ops)
  }

  /** `processObjectsToDelete`: per object, its item URI (a null id fails on
      unboxing) with an empty selection; the provider adds the id condition. */
  function DeleteOperations(collection: Uri, objects: seq<DatabaseObject>): (r: Result<seq<Batches.Operation>>)
    ensures r.Ok? <==> forall i :: 0 <= i < |objects| ==> objects[i].id.Some?
    ensures r.Err? ==> r.error == NullPointer
    ensures r.Ok? ==> |r.value| == |objects|
    ensures r.Ok? ==> forall i :: 0 <= i < |objects| ==>
              r.value[i] == Batches.DeleteOp(WithAppendedId(collection, objects[i].id.value), "", [], objects[i])
    decreases |objects|
  {
    if |objects| == 0 then Ok([])
    else
      var o := objects[0];
      assert forall i :: 1 <= i < |objects| ==> objects[i] == objects[1..][i - 1];
      match o.id
      case None => Err(NullPointer)
      case Some(id) =>
        match DeleteOperations(collection, objects[1..])
        case Err(e) => Err(e)
        case Ok(ops) => Ok([Batches.DeleteOp(WithAppendedId(collection, id), "", [], o)] + ops)
  }

  /** The operations of `apply`: inserts, then updates, then deletes. */
  function Operations(collection: Uri, generate: Generate, adds: seq<DatabaseObject>,
                      updates: seq<DatabaseObject>, deletes: seq<DatabaseObject>): (r: Result<seq<Batches.Operation>>)
    ensures r.Ok? <==> (forall o :: o in updates ==> o.id.Some?) && (forall o :: o in deletes ==> o.id.Some?)
  {
    var modifications :- UpdateOperations(collection, generate, updates);
    var removals :- DeleteOperations(collection, deletes);
    Ok(InsertOperations(collection, generate, adds) + modifications + removals)
  }

  /** The operations of `apply` come out grouped: the inserts of `adds`,
      the updates of `updates` and the deletes of `deletes`, in list order. */
  lemma OperationsGrouped(collection: Uri, generate: Generate, adds: seq<DatabaseObject>,
                          updates: seq<DatabaseObject>, deletes: seq<DatabaseObject>)
    requires Operations(collection, generate, adds, updates, deletes).Ok?
    ensures Batches.Grouped(Operations(collection, generate, adds, updates, deletes).value, adds, updates, deletes)
  {
    var inserts := InsertOperations(collection, generate, adds);
    var modifications := UpdateOperations(collection, generate, updates).value;
    var removals := DeleteOperations(collection, deletes).value;
    var ops := Operations(collection, generate, adds, updates, deletes).value;
    assert ops == inserts + modifications + removals;
    assert |inserts| == |adds| && |modifications| == |updates| && |removals| == |deletes|;
    forall j | 0 <= j < |adds| ensures ops[j].InsertOp? && ops[j].row == adds[j] {
      assert ops[j] == inserts[j];
    }
    forall j | 0 <= j < |updates| ensures ops[|adds| + j].UpdateOp? && ops[|adds| + j].row == updates[j] {
      assert ops[|adds| + j] == modifications[j];
    }
    forall j | 0 <= j < |deletes|
      ensures ops[|adds| + |updates| + j].DeleteOp? && ops[|adds| + |updates| + j].row == deletes[j]
    {
      assert ops[|adds| + |updates| + j] == removals[j];
    }
  }

  /** `apply(adds, updates, deletes)`: one batch, nothing returned. A
      `RemoteException` is logged and swallowed; an exception out of the
      batch ends it with the operations before it applied. */
  function Apply(collection: Uri, generate: Generate, store: Store, adds: seq<DatabaseObject>,
                 updates: seq<DatabaseObject>, deletes: seq<DatabaseObject>, remoteFailure: bool)
    : (r: Managers.Saved<()>)
    ensures Operations(collection, generate, adds, updates, deletes).Err? ==> r.store == store && r.result.Err?
    ensures remoteFailure ==> r.store == store
    ensures Operations(collection, generate, adds, updates, deletes).Ok? && !remoteFailure ==>
              var batch := Batches.ApplyBatch(store, Operations(collection, generate, adds, updates, deletes).value);
              r.store == batch.store && (r.result.Ok? <==> batch.result.Ok?)
  {
    match Operations(collection, generate, adds, updates, deletes)
    case Err(e) => Managers.Saved(Err(e), store)
    case Ok(ops) =>
      if remoteFailure then Managers.Saved(Ok(()), store)
      else
        var batch := Batches.ApplyBatch(store, ops);
        Managers.Saved(if batch.result.Ok? then Ok(()) else Err(batch.result.error), batch.store)
  }

  /** `replace(objects)`: `existing` is what `get()` (or the filtered
      `get(selection, args)`) returned. The diff keys the old objects by
      `SimpleIdWrapper`, so a null id anywhere fails before any write. */
  function Replace(collection: Uri, generate: Generate, store: Store, existing: seq<DatabaseObject>,
                   incoming: seq<DatabaseObject>, remoteFailure: bool): (r: Managers.Saved<()>)
    ensures Reconcile.ReplaceCategorize(existing, incoming).Err? ==> r == Managers.Saved(Err(NullPointer), store)
  {
    match Reconcile.ReplaceCategorize(existing, incoming)
    case Err(e) => Managers.Saved(Err(e), store)
    case Ok((adds, updates, deletes)) => Apply(collection, generate, store, adds, updates, deletes, remoteFailure)
  }

  /** When the older `replace` completes against the whole table, with
      incoming objects that each name an id of their own, the table holds
      exactly the incoming ids, each row at the newer of the stored and the
      incoming version; the same end state as the newer `replace`. */
  lemma ReplaceEndState(collection: Uri, generate: Generate, store: Store, existing: seq<DatabaseObject>,
                        incoming: seq<DatabaseObject>)
    requires Replacing.ListsStore(store, existing)
    requires Replacing.AllNamed(incoming) && Reconcile.IdsDistinct(incoming)
    requires Replace(collection, generate, store, existing, incoming, false).result.Ok?
    ensures var after := Replace(collection, generate, store, existing, incoming, false).store;
            (forall k :: k in after <==> Some(k) in Reconcile.IdSet(incoming)) &&
            (forall o :: o in incoming ==> after[o.id.value] == Replacing.Expected(store, o))
  {
    Reconcile.ReplaceMatchesCategorize(existing, incoming);
    var c := Reconcile.Categorize(existing, incoming);
    var d := Reconcile.Deletes(existing, incoming);
    assert Reconcile.ReplaceCategorize(existing, incoming) == Ok((c.adds, c.updates, d));
    var ops := Operations(collection, generate, c.adds, c.updates, d).value;
    OperationsGrouped(collection, generate, c.adds, c.updates, d);
    Reconcile.CategorizeIsOutcomes(existing, incoming);
    Reconcile.DeletesAreUnclaimed(existing, incoming);
    assert Replacing.Categorized(existing, incoming, c.adds, c.updates, d);
    Replacing.RowsOwned(existing, incoming, ops);
    Replacing.BatchEndState(store, existing, incoming, c.adds, c.updates, d, ops);
  }

  /** `delete(objects)`: one batch of the deletes. */
  function DeleteAll(collection: Uri, store: Store, objects: seq<DatabaseObject>, remoteFailure: bool)
    : (r: Managers.Saved<()>)
    ensures (exists o :: o in objects && o.id.None?) ==> r == Managers.Saved(Err(NullPointer), store)
  {
    match DeleteOperations(collection, objects)
    case Err(e) => Managers.Saved(Err(e), store)
    case Ok(ops) =>
      if remoteFailure then Managers.Saved(Ok(()), store)
      else
        var batch := Batches.ApplyBatch(store, ops);
        Managers.Saved(if batch.result.Ok? then Ok(()) else Err(batch.result.error), batch.store)
  }

  /** The ids the objects name. */
  function NamedIds(objects: seq<DatabaseObject>): (ids: set<Long>)
    ensures forall o :: o in objects && o.id.Some? ==> o.id.value in ids
    ensures forall k :: k in ids ==> exists o :: o in objects && o.id == Some(k)
    decreases |objects|
  {
    if |objects| == 0 then {}
    else
      assert forall o :: o in objects[1..] ==> o in objects;
      (if objects[0].id.Some? then {objects[0].id.value} else {}) + NamedIds(objects[1..])
  }

  /** A batch that starts with the delete of a row with a non-negative id
      runs the rest of the batch on the table without that row. */
  lemma DeleteStep(store: Store, ops: seq<Batches.Operation>)
    requires |ops| > 0 && ops[0].DeleteOp? && ops[0].row.id.Some? && ops[0].row.id.value >= 0
    ensures var rest := Batches.ApplyBatch(store - {ops[0].row.id.value}, ops[1..]);
            Batches.ApplyBatch(store, ops).store == rest.store &&
            (Batches.ApplyBatch(store, ops).result.Ok? <==> rest.result.Ok?) &&
            (rest.result.Err? ==> Batches.ApplyBatch(store, ops).result == rest.result)
  {
    var first := Batches.ApplyOperation(store, ops[0]);
    assert first.result.Ok? && first.store == store - {ops[0].row.id.value};
  }

  /** The delete batch of a list after its first object is the batch of the
      list with its first operation dropped. */
  lemma DeleteOperationsTail(collection: Uri, objects: seq<DatabaseObject>)
    requires |objects| > 0 && forall o :: o in objects ==> o.id.Some?
    ensures DeleteOperations(collection, objects[1..]).Ok?
    ensures DeleteOperations(collection, objects).value[1..] == DeleteOperations(collection, objects[1..]).value
  {
    var ops := DeleteOperations(collection, objects).value;
    var rest := objects[1..];
    assert forall i :: 0 <= i < |rest| ==> rest[i] == objects[i + 1];
    var restOps := DeleteOperations(collection, rest).value;
    forall i | 0 <= i < |restOps| ensures ops[1..][i] == restOps[i] {
      assert objects[i + 1] == rest[i];
    }
  }

  /** Removing a key and then a set of keys removes both. */
  lemma RemoveInTurn(store: Store, k: Long, keys: set<Long>)
    ensures (store - {k}) - keys == store - ({k} + keys)
  {
  }

  /** The delete batch of objects that all name an id completes and removes
      exactly their rows, whatever their order or repetitions. */
  lemma {:induction false} DeletesRemove(collection: Uri, store: Store, objects: seq<DatabaseObject>)
    requires forall o :: o in objects ==> o.id.Some? && o.id.value >= 0
    ensures var batch := Batches.ApplyBatch(store, DeleteOperations(collection, objects).value);
            batch.result.Ok? && batch.store == store - NamedIds(objects)
    decreases |objects|
  {
    var ops := DeleteOperations(collection, objects).value;
    if |objects| > 0 {
      var k := objects[0].id.value;
      var rest := objects[1..];
      assert forall o :: o in rest ==> o in objects;
      DeletesRemove(collection, store - {k}, rest);
      DeleteOperationsTail(collection, objects);
      DeleteStep(store, ops);
      assert NamedIds(objects) == {k} + NamedIds(rest);
      RemoveInTurn(store, k, NamedIds(rest));
    }
  }

  /** `delete(objects)` with every id named and non-negative removes
      exactly their rows. */
  lemma DeleteAllRemoves(collection: Uri, store: Store, objects: seq<DatabaseObject>)
    requires forall o :: o in objects ==> o.id.Some? && o.id.value >= 0
    ensures var r := DeleteAll(collection, store, objects, false);
            r.result.Ok? && r.store == store - NamedIds(objects)
  {
    DeletesRemove(collection, store, objects);
  }

  /** A delete batch that reaches an object with a negative id throws
      `IllegalArgumentException`: the provider knows no such item URI. */
  lemma {:induction false} DeletesRefused(collection: Uri, store: Store, objects: seq<DatabaseObject>)
    requires forall o :: o in objects ==> o.id.Some?
    requires exists o :: o in objects && o.id.value < 0
    ensures Batches.ApplyBatch(store, DeleteOperations(collection, objects).value).result == Err(IllegalArgument)
    decreases |objects|
  {
    var ops := DeleteOperations(collection, objects).value;
    var k := objects[0].id.value;
    if k >= 0 {
      var rest := objects[1..];
      assert forall o :: o in rest ==> o in objects;
      var bad :| bad in objects && bad.id.value < 0;
      assert bad in rest by {
        var j :| 0 <= j < |objects| && objects[j] == bad;
        assert j != 0;
        assert rest[j - 1] == bad;
      }
      DeletesRefused(collection, store - {k}, rest);
      DeleteOperationsTail(collection, objects);
      DeleteStep(store, ops);
    }
  }

  /** `delete(objects)` naming a negative id throws
      `IllegalArgumentException`, after the deletes listed before it. */
  lemma DeleteAllRefusesNegative(collection: Uri, store: Store, objects: seq<DatabaseObject>)
    requires forall o :: o in objects ==> o.id.Some?
    requires exists o :: o in objects && o.id.value < 0
    ensures DeleteAll(collection, store, objects, false).result == Err(IllegalArgument)
  {
    DeletesRefused(collection, store, objects);
  }
}
