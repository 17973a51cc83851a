/** The single-object write paths of the newer `Manager`: `performSave`,
    `performUpdate` with its optimistic version check, and the `save`
    dispatch, against an abstract store of rows keyed by `_id`. */
module Managers {
  import opened Wrappers
  import opened JavaText
  import opened Model
  import opened Uris
  import Contracts
  import RecordMapper
  import Clauses

  /** The table behind the provider: the stored object of every row, keyed
      by its `_id`; `get(id)` reads back the object stored under `id`. */
  type Store = map<Long, DatabaseObject>

  /** `m` is the largest of `ids`. */
  predicate IsMax(ids: set<Long>, m: Long) {
    m in ids && forall k :: k in ids ==> k <= m
  }

  /** A non-empty set of row ids has a largest member. */
  lemma {:induction false} HasMaxRowId(ids: set<Long>)
    requires ids != {}
    ensures exists m :: IsMax(ids, m)
    decreases |ids|
  {
    var x :| x in ids;
    if ids == {x} {
      assert IsMax(ids, x);
    } else {
      var rest := ids - {x};
      HasMaxRowId(rest);
      var m :| IsMax(rest, m);
      var top: Long := if x > m then x else m;
      forall k | k in ids ensures k <= top {
        if k != x { assert k in rest; }
      }
      assert IsMax(ids, top);
    }
  }

  /** The largest row id of a non-empty table. */
  function MaxRowId(ids: set<Long>): (m: Long)
    requires ids != {}
    ensures m in ids && forall k :: k in ids ==> k <= m
  {
    HasMaxRowId(ids);
    var m :| IsMax(ids, m); m
  }

  /** `SQLiteDatabase.insert` of an object's row: an explicit `_id` already
      in the table is a conflict (-1, nothing stored); otherwise the row is
      stored under its own id, or, for a null id, under one more than the
      largest id (1 for an empty table). Once the largest id is the largest
      `long`, SQLite would try random unused positive ids instead; the model
      stops there and reports -1 with nothing stored. */
  function StoreInsert(store: Store, o: DatabaseObject): (r: (Long, Store))
    ensures r.1 == store || (r.0 !in store && r.1 == store[r.0 := o.(id := Some(r.0))])
    ensures o.id.Some? && o.id.value in store ==> r == (-1, store)
    ensures o.id.Some? && o.id.value !in store ==> r.0 == o.id.value && r.1 == store[r.0 := o]
    ensures o.id.None? && r.1 != store ==> forall k :: k in store ==> k < r.0
    ensures o.id.None? && (forall k :: k in store ==> k < MAX_LONG) ==> r.1 != store
  {
    match o.id
    case Some(id) => if id in store then (-1, store) else (id, store[id := o])
    case None =>
      if store == map[] then
        var stored := map[1 := o.(id := Some(1))];
        assert 1 in stored;
        (1, stored)
      else
        var m := MaxRowId(store.Keys);
        if m == MAX_LONG then (-1, store)
        else (m + 1, store[m + 1 := o.(id := Some(m + 1))])
  }

  /** `newObjectVersion + 1` on a Java `long`: the largest version wraps
      to the smallest. */
  function Increment(v: Long): (r: Long)
    ensures v < MAX_LONG ==> r == v + 1 && r > v
    ensures v == MAX_LONG ==> r == MIN_LONG
  {
    if v == MAX_LONG then MIN_LONG else v + 1
  }

  // ---------------------------------------------------------------------
  // performUpdate

  /** The version condition added behind `_id = ?`. */
  datatype Condition = VersionEquals(version: Long) | VersionBelow(version: Long)

  /** The where-clause text of an update. */
  function ConditionClause(c: Condition): string {
    ID_COLUMN + " = ?" + " AND " + VERSION_COLUMN + (if c.VersionEquals? then " = ?" else " < ?")
  }

  /** What the condition says of the stored version of the row. */
  predicate Holds(c: Condition, stored: Long) {
    match c
    case VersionEquals(v) => stored == v
    case VersionBelow(v) => stored < v
  }

  /** The update `performUpdate` sends: the item URI of the id, the row of
      the (possibly re-versioned) object, and the condition with its args. */
  datatype UpdatePlan = UpdatePlan(id: Long, uri: Uri, values: RecordMapper.ContentValues,
                                   condition: Condition, whereArgs: seq<string>, updated: DatabaseObject)

  /** The decisions of `performUpdate` before the update is sent, given the
      store its `get(id)` reads. */
  function PlanUpdate(cls: RecordClass, authority: string, store: Store, o: DatabaseObject): (r: Result<UpdatePlan>)
    ensures o.id.None? ==> r == Err(NullPointer)
    ensures o.id.Some? && !o.flags.versionManagedExternally && o.id.value !in store ==> r == Err(IllegalState)
    ensures (o.id.Some? && !o.flags.versionManagedExternally && o.id.value in store &&
             o.version < store[o.id.value].version) ==> r == Err(IllegalArgument)
    ensures r.Ok? ==> o.id == Some(r.value.id) &&
                      r.value.uri == WithAppendedId(Contracts.GetContentUri(cls, authority), r.value.id) &&
                      r.value.whereArgs == [Decimal(r.value.id), Decimal(r.value.condition.version)] &&
                      RecordMapper.GenerateContentValues(cls, r.value.updated) == Ok(r.value.values)
    ensures r.Ok? && o.flags.versionManagedExternally ==>
              r.value.condition == VersionBelow(o.version) && r.value.updated == o
    ensures r.Ok? && !o.flags.versionManagedExternally ==>
              r.value.id in store && store[r.value.id].version <= o.version &&
              r.value.condition == VersionEquals(store[r.value.id].version) &&
              r.value.updated == SetVersion(o, Increment(o.version))
  {
    match o.id
    case None => Err(NullPointer)
    case Some(id) =>
      var step: Result<(Condition, DatabaseObject)> :=
        if o.flags.versionManagedExternally then Ok((VersionBelow(o.version), o))
        else if id !in store then Err(IllegalState)
        else if o.version < store[id].version then Err(IllegalArgument)
        else Ok((VersionEquals(store[id].version), SetVersion(o, Increment(o.version))));
      var (condition, updated) :- step;
      var values :- RecordMapper.GenerateContentValues(cls, updated);
      Ok(UpdatePlan(id, Contracts.GetItemUri(cls, authority, id), values, condition,
                    [Decimal(id), Decimal(condition.version)], updated))
  }

  /** The placeholders of the pieces of an update clause. */
  lemma PiecePlaceholders()
    ensures Clauses.Placeholders(ID_COLUMN) == 0 && Clauses.Placeholders(VERSION_COLUMN) == 0
    ensures Clauses.Placeholders(" AND ") == 0
    ensures Clauses.Placeholders(" = ?") == 1 && Clauses.Placeholders(" < ?") == 1
  {
    assert Clauses.Placeholders("?") == 1;
    assert Clauses.Placeholders(" ?") == 1;
    assert Clauses.Placeholders("= ?") == 1;
    assert Clauses.Placeholders("< ?") == 1;
    assert Clauses.Placeholders("d") == 0;
    assert Clauses.Placeholders("id") == 0;
    assert Clauses.Placeholders("n") == 0;
    assert Clauses.Placeholders("on") == 0;
    assert Clauses.Placeholders("ion") == 0;
    assert Clauses.Placeholders("sion") == 0;
    assert Clauses.Placeholders("rsion") == 0;
    assert Clauses.Placeholders("ersion") == 0;
    assert Clauses.Placeholders(" ") == 0;
    assert Clauses.Placeholders("D ") == 0;
    assert Clauses.Placeholders("ND ") == 0;
    assert Clauses.Placeholders("AND ") == 0;
  }

  /** Both update clauses carry exactly as many `?` as the update has args. */
  lemma ConditionBindsArgs(c: Condition)
    ensures Clauses.Placeholders(ConditionClause(c)) == 2
  {
    PiecePlaceholders();
    var tail := if c.VersionEquals? then " = ?" else " < ?";
    Clauses.PlaceholdersAppend(ID_COLUMN, " = ?");
    Clauses.PlaceholdersAppend(ID_COLUMN + " = ?", " AND ");
    Clauses.PlaceholdersAppend(ID_COLUMN + " = ?" + " AND ", VERSION_COLUMN);
    Clauses.PlaceholdersAppend(ID_COLUMN + " = ?" + " AND " + VERSION_COLUMN, tail);
  }

  /** What `performUpdate` leaves behind: its result (the object when
      exactly one row changed, else null), the caller's object (which keeps
      the bumped version either way), and the table. */
  datatype UpdateOutcome = UpdateOutcome(result: Option<DatabaseObject>, caller: DatabaseObject, store: Store)

  /** The conditioned UPDATE against the table as it is when it arrives:
      the row with the id changes exactly when the condition holds of it. */
  function ExecuteUpdate(current: Store, plan: UpdatePlan): (r: UpdateOutcome)
    ensures r.caller == plan.updated
    ensures r.result.Some? <==> plan.id in current && Holds(plan.condition, current[plan.id].version)
    ensures r.result.Some? ==> r.result.value == plan.updated && r.store == current[plan.id := plan.updated]
    ensures r.result.None? ==> r.store == current
  {
    if plan.id in current && Holds(plan.condition, current[plan.id].version) then
      UpdateOutcome(Some(plan.updated), plan.updated, current[plan.id := plan.updated])
    else UpdateOutcome(None, plan.updated, current)
  }

  /** `performUpdate(object)`: `seen` is the table its `get(id)` reads,
      `current` the table its update reaches. The update goes to the item
      URI of the id; for a negative id that URI ends in a segment that is
      not all digits, no contract matches it, and the provider throws
      `IllegalArgumentException` without writing. */
  function PerformUpdate(cls: RecordClass, authority: string, seen: Store, current: Store, o: DatabaseObject)
    : (r: Result<UpdateOutcome>)
    ensures r.Err? <==> PlanUpdate(cls, authority, seen, o).Err? || o.id.value < 0
    ensures PlanUpdate(cls, authority, seen, o).Ok? && o.id.value < 0 ==> r == Err(IllegalArgument)
    ensures r.Ok? ==> r.value == ExecuteUpdate(current, PlanUpdate(cls, authority, seen, o).value)
  {
    var plan :- PlanUpdate(cls, authority, seen, o);
    if plan.id < 0 then Err(IllegalArgument) else Ok(ExecuteUpdate(current, plan))
  }

  /** An update that would otherwise be sent is refused for a negative id,
      whatever the table holds: the provider does not know its URI. */
  lemma NegativeIdUpdateRefused(cls: RecordClass, authority: string, seen: Store, current: Store, o: DatabaseObject)
    requires o.id.Some? && o.id.value < 0
    requires o.flags.versionManagedExternally && RecordMapper.GenerateContentValues(cls, o).Ok?
    ensures PerformUpdate(cls, authority, seen, current, o) == Err(IllegalArgument)
  {
  }

  /** With nothing written in between, an internally versioned update of a
      stored object that is not stale succeeds: the row and the result are
      the object with its version advanced by one. */
  lemma InternalUpdateAdvances(cls: RecordClass, authority: string, store: Store, o: DatabaseObject)
    requires !o.flags.versionManagedExternally && o.id.Some? && o.id.value >= 0 && o.id.value in store
    requires store[o.id.value].version <= o.version
    requires RecordMapper.GenerateContentValues(cls, SetVersion(o, Increment(o.version))).Ok?
    ensures var r := PerformUpdate(cls, authority, store, store, o);
            var bumped := SetVersion(o, Increment(o.version));
            r.Ok? && r.value.result == Some(bumped) && r.value.store == store[o.id.value := bumped] &&
            bumped.version == Increment(o.version) && bumped.id == o.id
  {
  }

  /** A write that changes the stored version between the read and the
      update makes the update miss: nothing is stored and the result is
      null, yet the caller's object already carries the bumped version. */
  lemma InternalUpdateDetectsConflict(cls: RecordClass, authority: string, seen: Store, current: Store, o: DatabaseObject)
    requires !o.flags.versionManagedExternally
    requires PlanUpdate(cls, authority, seen, o).Ok? && o.id.value >= 0
    requires o.id.value !in current || current[o.id.value].version != seen[o.id.value].version
    ensures var r := PerformUpdate(cls, authority, seen, current, o);
            r.Ok? && r.value.result.None? && r.value.store == current &&
            r.value.caller.version == Increment(o.version)
  {
  }

  /** An externally versioned update of a non-negative id reads nothing
      first: it succeeds exactly when the row exists with an older version,
      whatever the table looked like before. */
  lemma ExternalUpdateIffNewer(cls: RecordClass, authority: string, seen: Store, current: Store, o: DatabaseObject)
    requires o.flags.versionManagedExternally && o.id.Some? && o.id.value >= 0
    requires RecordMapper.GenerateContentValues(cls, o).Ok?
    ensures var r := PerformUpdate(cls, authority, seen, current, o);
            r.Ok? && r == PerformUpdate(cls, authority, map[], current, o) &&
            (r.value.result.Some? <==> o.id.value in current && current[o.id.value].version < o.version) &&
            (r.value.result.Some? ==> r.value.store == current[o.id.value := o])
  {
  }

  // ---------------------------------------------------------------------
  // performSave and save

  /** The outcome of a call that may fail after it changed the table. */
  datatype Saved<T> = Saved(result: Result<T>, store: Store)

  /** `performSave(object)`: insert the object's row, then parse the id off
      the returned URI and `merge` the object with it. A row id that is not
      positive makes the provider throw `SQLException`, even when the row
      was stored. */
  function PerformSave(cls: RecordClass, authority: string, current: Store, o: DatabaseObject)
    : (r: Saved<DatabaseObject>)
    ensures RecordMapper.GenerateContentValues(cls, o).Err? ==> r.store == current && r.result.Err?
    ensures RecordMapper.GenerateContentValues(cls, o).Ok? ==>
              r.store == StoreInsert(current, o).1 &&
              (StoreInsert(current, o).0 <= 0 ==> r.result == Err(SqlFailure)) &&
              (StoreInsert(current, o).0 > 0 ==> r.result == RecordMapper.Merge(cls, o, StoreInsert(current, o).0))
  {
    match RecordMapper.GenerateContentValues(cls, o)
    case Err(e) => Saved(Err(e), current)
    case Ok(_) =>
      var (rowId, stored) := StoreInsert(current, o);
      if rowId <= 0 then Saved(Err(SqlFailure), stored)
      else
        var uri := WithAppendedId(Contracts.GetContentUri(cls, authority), rowId);
        assert LastPathSegment(uri) == Some(Decimal(rowId));
        ParseDecimal(rowId);
        match LastPathSegment(uri)
        case None => Saved(Err(NullPointer), stored)
        case Some(idText) =>
          match ParseLong(idText)
          case Err(e) => Saved(Err(e), stored)
          case Ok(id) => Saved(RecordMapper.Merge(cls, o, id), stored)
  }

  /** An update's outcome as `save` reports it. */
  function Reported(r: Result<UpdateOutcome>, before: Store): Saved<Option<DatabaseObject>> {
    match r
    case Err(e) => Saved(Err(e), before)
    case Ok(outcome) => Saved(Ok(outcome.result), outcome.store)
  }

  /** `save(object)`. For an externally managed id: look the id up; when
      absent insert, and when that insert throws `SQLException` update
      instead if a re-read now finds the row, else rethrow; when present
      update. Otherwise a null id inserts and any other id updates.
      `interleaved` holds the rows another writer stores between the
      lookup and the insert. */
  function Save(cls: RecordClass, authority: string, store: Store, interleaved: Store, o: DatabaseObject)
    : (r: Saved<Option<DatabaseObject>>)
    ensures o.flags.idManagedExternally && o.id.None? ==> r == Saved(Err(NullPointer), store)
    ensures !o.flags.idManagedExternally && o.id.Some? ==>
              r == Reported(PerformUpdate(cls, authority, store, store, o), store)
    ensures o.id.Some? && o.id.value in store ==>
              r == Reported(PerformUpdate(cls, authority, store, store, o), store)
  {
    if o.flags.idManagedExternally then
      match o.id
      case None => Saved(Err(NullPointer), store)
      case Some(id) =>
        if id in store then Reported(PerformUpdate(cls, authority, store, store, o), store)
        else
          var attempt := PerformSave(cls, authority, store + interleaved, o);
          match attempt.result
          case Ok(saved) => Saved(Ok(Some(saved)), attempt.store)
          case Err(e) =>
            if e != SqlFailure then Saved(Err(e), attempt.store)
            else if id in attempt.store then
              Reported(PerformUpdate(cls, authority, attempt.store, attempt.store, o), attempt.store)
            else Saved(Err(SqlFailure), attempt.store)
    else
      match o.id
      case None =>
        var attempt := PerformSave(cls, authority, store, o);
        Saved(if attempt.result.Ok? then Ok(Some(attempt.result.value)) else Err(attempt.result.error), attempt.store)
      case Some(_) => Reported(PerformUpdate(cls, authority, store, store, o), store)
  }

  /** An externally managed id no writer has stored yet is inserted under
      that id, and `save` returns the merged object. */
  lemma SaveInsertsNewExternalId(cls: RecordClass, authority: string, store: Store, interleaved: Store, o: DatabaseObject)
    requires o.flags.idManagedExternally && o.id.Some? && o.id.value > 0
    requires o.id.value !in store && o.id.value !in interleaved
    requires RecordMapper.GenerateContentValues(cls, o).Ok?
    requires RecordMapper.Merge(cls, o, o.id.value).Ok?
    ensures var r := Save(cls, authority, store, interleaved, o);
            r.result == Ok(Some(RecordMapper.Merge(cls, o, o.id.value).value)) &&
            r.store == (store + interleaved)[o.id.value := o]
  {
  }

  /** When another writer stores the same id between the lookup and the
      insert, the insert conflicts, the re-read finds the row, and `save`
      ends as an update against the table the other writer left. */
  lemma SaveRaceFallsBackToUpdate(cls: RecordClass, authority: string, store: Store, interleaved: Store, o: DatabaseObject)
    requires o.flags.idManagedExternally && o.id.Some?
    requires o.id.value !in store && o.id.value in interleaved
    requires RecordMapper.GenerateContentValues(cls, o).Ok?
    ensures Save(cls, authority, store, interleaved, o) ==
            Reported(PerformUpdate(cls, authority, store + interleaved, store + interleaved, o), store + interleaved)
  {
  }

  /** An externally managed id of zero or below is stored by the insert, the
      provider still throws, and the re-read turns the save into an update
      of the row just written. For id 0 that update runs; for a negative id
      the provider refuses the update's URI, so `save` throws, leaving the
      inserted row behind. */
  lemma SaveNonPositiveExternalId(cls: RecordClass, authority: string, store: Store, o: DatabaseObject)
    requires o.flags.idManagedExternally && o.id.Some? && o.id.value <= 0 && o.id.value !in store
    requires RecordMapper.GenerateContentValues(cls, o).Ok?
    ensures Save(cls, authority, store, map[], o) ==
            Reported(PerformUpdate(cls, authority, store[o.id.value := o], store[o.id.value := o], o), store[o.id.value := o])
    ensures o.id.value < 0 ==>
              Save(cls, authority, store, map[], o).result.Err? &&
              Save(cls, authority, store, map[], o).store == store[o.id.value := o]
  {
    assert store + map[] == store;
  }

  /** An internally managed object without an id is inserted under a fresh
      row id above every stored one, and `save` returns it merged with that id. */
  lemma SaveInsertsNullId(cls: RecordClass, authority: string, store: Store, o: DatabaseObject)
    requires !o.flags.idManagedExternally && o.id.None?
    requires forall k :: k in store ==> 0 <= k < MAX_LONG
    requires RecordMapper.GenerateContentValues(cls, o).Ok?
    ensures var r := Save(cls, authority, store, map[], o);
            exists rowId: Long :: rowId > 0 && rowId !in store && (forall k :: k in store ==> k < rowId) &&
              r.store == store[rowId := o.(id := Some(rowId))] &&
              r.result == (match RecordMapper.Merge(cls, o, rowId)
                           case Ok(m) => Ok(Some(m))
                           case Err(e) => Err(e))
  {
    var rowId := StoreInsert(store, o).0;
    assert rowId > 0 by {
      if store != map[] {
        assert MaxRowId(store.Keys) in store;
      }
    }
  }
}
