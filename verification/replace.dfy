/** `replace` and `save(Collection)` of the newer `Manager`: categorize
    the incoming objects against the existing ones, then `apply` the adds,
    updates and (for `replace` only) deletes in one batch. */
module Replacing {
  import opened Wrappers
  import opened JavaText
  import opened Model
  import Reconcile
  import Managers
  import Batches

  type Store = Managers.Store

  /** `replace(objects)`: `existing` is what `get()` (or the filtered
      `get(selection, args)`) returned. The result is what `apply` returns:
      the rows of the inserted objects only. A `RemoteException` leaves the
      table as it was, and every object returned is a row of the table
      afterwards. */
  function Replace(cls: RecordClass, authority: string, store: Store, existing: seq<DatabaseObject>,
                   incoming: seq<DatabaseObject>, remoteFailure: bool): (r: Managers.Saved<set<DatabaseObject>>)
    ensures remoteFailure ==> r.store == store
    ensures r.result.Ok? ==> forall x :: x in r.result.value ==> exists k :: k in r.store && r.store[k] == x
  {
    var c := Reconcile.Categorize(existing, incoming);
    Batches.ApplyAsWritten(cls, authority, store, c.adds, c.updates, Reconcile.Deletes(existing, incoming), remoteFailure)
  }

  /** `save(objects)`: as `replace`, with the delete list dropped. */
  function SaveAll(cls: RecordClass, authority: string, store: Store, existing: seq<DatabaseObject>,
                   incoming: seq<DatabaseObject>, remoteFailure: bool): (r: Managers.Saved<set<DatabaseObject>>)
    ensures remoteFailure ==> r.store == store
    ensures r.result.Ok? ==> forall x :: x in r.result.value ==> exists k :: k in r.store && r.store[k] == x
  {
    var c := Reconcile.Categorize(existing, incoming);
    Batches.ApplyAsWritten(cls, authority, store, c.adds, c.updates, [], remoteFailure)
  }

  /** `save(objects)` never removes a row, whatever the objects and however
      the batch ends. */
  lemma SaveAllNeverDeletes(cls: RecordClass, authority: string, store: Store, existing: seq<DatabaseObject>,
                            incoming: seq<DatabaseObject>, remoteFailure: bool)
    ensures store.Keys <= SaveAll(cls, authority, store, existing, incoming, remoteFailure).store.Keys
  {
    var c := Reconcile.Categorize(existing, incoming);
    var operations := Batches.Operations(cls, authority, c.adds, c.updates, []);
    if operations.Ok? && !remoteFailure {
      var ops := operations.value;
      Batches.OperationsGrouped(cls, authority, c.adds, c.updates, []);
      assert SaveAll(cls, authority, store, existing, incoming, remoteFailure).store == Batches.ApplyBatch(store, ops).store;
      Batches.BatchKeepsRows(store, ops);
    }
  }

  /** `existing` is the whole table: every listed object is the stored row
      under its id, and every stored row is listed. */
  predicate ListsStore(store: Store, existing: seq<DatabaseObject>) {
    (forall e :: e in existing ==> e.id.Some? && e.id.value in store && store[e.id.value] == e) &&
    (forall k :: k in store ==> Some(k) in Reconcile.IdSet(existing))
  }

  /** Every object names an id. */
  predicate AllNamed(objects: seq<DatabaseObject>) {
    forall o :: o in objects ==> o.id.Some?
  }

  /** What `replace` should leave under an incoming object's id: the stored
      row when it is at least as new, else the incoming object. */
  function Expected(store: Store, o: DatabaseObject): DatabaseObject
    requires o.id.Some?
  {
    if o.id.value in store && o.version <= store[o.id.value].version then store[o.id.value] else o
  }

  /** The lists `categorize` hands to `apply`, in terms of outcomes. */
  predicate Categorized(existing: seq<DatabaseObject>, incoming: seq<DatabaseObject>, adds: seq<DatabaseObject>,
                        updates: seq<DatabaseObject>, deletes: seq<DatabaseObject>)
  {
    var index := Reconcile.IndexOf(existing);
    adds == Reconcile.WithOutcome(index, incoming, Reconcile.Add, |incoming|) &&
    updates == Reconcile.WithOutcome(index, incoming, Reconcile.Update, |incoming|) &&
    (forall o :: o in deletes ==> o in existing) &&
    Reconcile.IdSet(deletes) == Reconcile.IdSet(existing) - Reconcile.IdSet(incoming)
  }

  /** An operation's row is one of the incoming objects, with the outcome
      the operation's kind says, or one of the deletes. */
  lemma OperationSource(existing: seq<DatabaseObject>, incoming: seq<DatabaseObject>, adds: seq<DatabaseObject>,
                        updates: seq<DatabaseObject>, deletes: seq<DatabaseObject>, ops: seq<Batches.Operation>, j: int)
    requires Categorized(existing, incoming, adds, updates, deletes)
    requires Batches.Grouped(ops, adds, updates, deletes) && 0 <= j < |ops|
    ensures ops[j].InsertOp? ==> exists i :: 0 <= i < |incoming| && incoming[i] == ops[j].row &&
                                   Reconcile.OutcomeAt(Reconcile.IndexOf(existing), incoming, i) == Reconcile.Add
    ensures ops[j].UpdateOp? ==> exists i :: 0 <= i < |incoming| && incoming[i] == ops[j].row &&
                                   Reconcile.OutcomeAt(Reconcile.IndexOf(existing), incoming, i) == Reconcile.Update
    ensures ops[j].DeleteOp? ==> ops[j].row in deletes
  {
    if j < |adds| {
      assert adds[j] in adds;
    } else if j < |adds| + |updates| {
      assert ops[|adds| + (j - |adds|)] == ops[j];
      assert updates[j - |adds|] in updates;
    } else {
      assert ops[|adds| + |updates| + (j - |adds| - |updates|)] == ops[j];
      assert deletes[j - |adds| - |updates|] in deletes;
    }
  }

  /** A completed batch whose operations each name a row of their own. */
  predicate Completed(store: Store, ops: seq<Batches.Operation>) {
    Batches.ApplyBatch(store, ops).result.Ok? && Batches.RowsNamed(ops) &&
    forall j :: 0 <= j < |ops| ==> Batches.OwnsRow(ops, j)
  }

  /** Against the whole table, an incoming id is indexed exactly when it is
      stored, and then the index holds the stored row. */
  lemma IndexedIffStored(store: Store, existing: seq<DatabaseObject>, k: Long)
    requires ListsStore(store, existing)
    ensures var index := Reconcile.IndexOf(existing);
            (Some(k) in index <==> k in store) && (k in store ==> index[Some(k)] == store[k])
  {
    var index := Reconcile.IndexOf(existing);
    if k in store {
      var e :| e in existing && e.id == Some(k);
      var p :| 0 <= p < |existing| && existing[p] == e;
    }
    if Some(k) in index {
      assert index[Some(k)] in existing;
    }
  }

  /** An incoming object added or updated is the operation's row at some
      position. */
  lemma ListedOperation(ops: seq<Batches.Operation>, adds: seq<DatabaseObject>, updates: seq<DatabaseObject>,
                        deletes: seq<DatabaseObject>, o: DatabaseObject)
    requires Batches.Grouped(ops, adds, updates, deletes) && (o in adds || o in updates)
    ensures exists j :: 0 <= j < |ops| && ops[j].row == o && (if o in adds then ops[j].InsertOp? else ops[j].UpdateOp?)
  {
    if o in adds {
      var p :| 0 <= p < |adds| && adds[p] == o;
      assert ops[p].row == o;
    } else {
      var p :| 0 <= p < |updates| && updates[p] == o;
      assert ops[|adds| + p].row == o;
    }
  }

  /** Every incoming object ends up stored, at the newer of the two
      versions. */
  lemma ReplaceStoresIncoming(store: Store, existing: seq<DatabaseObject>, incoming: seq<DatabaseObject>,
                              adds: seq<DatabaseObject>, updates: seq<DatabaseObject>, deletes: seq<DatabaseObject>,
                              ops: seq<Batches.Operation>, i: int)
    requires ListsStore(store, existing) && AllNamed(incoming) && Reconcile.IdsDistinct(incoming)
    requires Categorized(existing, incoming, adds, updates, deletes)
    requires Batches.Grouped(ops, adds, updates, deletes) && Completed(store, ops)
    requires 0 <= i < |incoming|
    ensures incoming[i].id.value in Batches.ApplyBatch(store, ops).store
    ensures Batches.ApplyBatch(store, ops).store[incoming[i].id.value] == Expected(store, incoming[i])
  {
    var index := Reconcile.IndexOf(existing);
    var o := incoming[i];
    assert o in incoming;
    var k := o.id.value;
    IndexedIffStored(store, existing, k);
    assert Reconcile.Claims(index, incoming, i) <==> o.id in index;
    var outcome := Reconcile.OutcomeAt(index, incoming, i);
    Reconcile.InWithOutcome(index, incoming, outcome, |incoming|, i);
    if outcome == Reconcile.Add || outcome == Reconcile.Update {
      ListedOperation(ops, adds, updates, deletes, o);
      var j :| 0 <= j < |ops| && ops[j].row == o && (if o in adds then ops[j].InsertOp? else ops[j].UpdateOp?);
      Batches.BatchTouched(store, ops, j);
    } else {
      forall j | 0 <= j < |ops| ensures ops[j].row.id.Some? && ops[j].row.id != Some(k) {
        OperationSource(existing, incoming, adds, updates, deletes, ops, j);
        if ops[j].DeleteOp? {
          assert ops[j].row.id in Reconcile.IdSet(deletes);
          assert o.id in Reconcile.IdSet(incoming);
        }
      }
      Batches.BatchUntouched(store, ops, k);
    }
  }

  /** A stored row no incoming object names is deleted. */
  lemma ReplaceDropsStored(store: Store, existing: seq<DatabaseObject>, incoming: seq<DatabaseObject>,
                           adds: seq<DatabaseObject>, updates: seq<DatabaseObject>, deletes: seq<DatabaseObject>,
                           ops: seq<Batches.Operation>, k: Long)
    requires ListsStore(store, existing)
    requires Categorized(existing, incoming, adds, updates, deletes)
    requires Batches.Grouped(ops, adds, updates, deletes) && Completed(store, ops)
    requires k in store && Some(k) !in Reconcile.IdSet(incoming)
    ensures k !in Batches.ApplyBatch(store, ops).store
  {
    assert Some(k) in Reconcile.IdSet(deletes);
    var e :| e in deletes && e.id == Some(k);
    var p :| 0 <= p < |deletes| && deletes[p] == e;
    var j := |adds| + |updates| + p;
    assert ops[j].DeleteOp? && ops[j].row == e;
    Batches.BatchTouched(store, ops, j);
  }

  /** A row neither stored nor named by an incoming object is not created. */
  lemma ReplaceCreatesNoOthers(store: Store, existing: seq<DatabaseObject>, incoming: seq<DatabaseObject>,
                               adds: seq<DatabaseObject>, updates: seq<DatabaseObject>, deletes: seq<DatabaseObject>,
                               ops: seq<Batches.Operation>, k: Long)
    requires ListsStore(store, existing)
    requires Categorized(existing, incoming, adds, updates, deletes)
    requires Batches.Grouped(ops, adds, updates, deletes) && Completed(store, ops)
    requires k !in store && Some(k) !in Reconcile.IdSet(incoming)
    ensures k !in Batches.ApplyBatch(store, ops).store
  {
    forall j | 0 <= j < |ops| ensures ops[j].row.id != Some(k) {
      OperationSource(existing, incoming, adds, updates, deletes, ops, j);
      if ops[j].InsertOp? || ops[j].UpdateOp? {
        assert ops[j].row in incoming;
        assert ops[j].row.id in Reconcile.IdSet(incoming);
      } else {
        assert ops[j].row in existing;
      }
    }
    assert Batches.RowsNamed(ops);
    Batches.BatchUntouched(store, ops, k);
  }

  /** The batch of a completed `replace` is grouped from the categorized
      lists, and each of its operations names a row of its own. */
  lemma ReplaceBatch(cls: RecordClass, authority: string, store: Store, existing: seq<DatabaseObject>,
                     incoming: seq<DatabaseObject>)
    requires ListsStore(store, existing)
    requires AllNamed(incoming) && Reconcile.IdsDistinct(incoming)
    requires Replace(cls, authority, store, existing, incoming, false).result.Ok?
    ensures var c := Reconcile.Categorize(existing, incoming);
            var d := Reconcile.Deletes(existing, incoming);
            var operations := Batches.Operations(cls, authority, c.adds, c.updates, d);
            operations.Ok? &&
            Replace(cls, authority, store, existing, incoming, false).store ==
              Batches.ApplyBatch(store, operations.value).store &&
            Categorized(existing, incoming, c.adds, c.updates, d) &&
            Batches.Grouped(operations.value, c.adds, c.updates, d) &&
            Completed(store, operations.value)
  {
    var c := Reconcile.Categorize(existing, incoming);
    var d := Reconcile.Deletes(existing, incoming);
    var ops := Batches.Operations(cls, authority, c.adds, c.updates, d).value;
    Batches.OperationsGrouped(cls, authority, c.adds, c.updates, d);
    Reconcile.CategorizeIsOutcomes(existing, incoming);
    Reconcile.DeletesAreUnclaimed(existing, incoming);
    assert Categorized(existing, incoming, c.adds, c.updates, d);
    RowsOwned(existing, incoming, ops);
  }

  /** Each operation of the `replace` batch names a row of its own. */
  lemma RowsOwned(existing: seq<DatabaseObject>, incoming: seq<DatabaseObject>, ops: seq<Batches.Operation>)
    requires AllNamed(incoming) && Reconcile.IdsDistinct(incoming)
    requires (forall e :: e in existing ==> e.id.Some?)
    requires Batches.Grouped(ops, Reconcile.Categorize(existing, incoming).adds,
                             Reconcile.Categorize(existing, incoming).updates, Reconcile.Deletes(existing, incoming))
    ensures Batches.RowsNamed(ops) && forall j :: 0 <= j < |ops| ==> Batches.OwnsRow(ops, j)
  {
    var c := Reconcile.Categorize(existing, incoming);
    var d := Reconcile.Deletes(existing, incoming);
    Reconcile.CategorizeIsOutcomes(existing, incoming);
    Reconcile.DeletesAreUnclaimed(existing, incoming);
    Reconcile.AddsAndUpdatesDistinct(existing, incoming);
    Reconcile.ConcatDistinct(c.adds + c.updates, d);
    Batches.GroupedRows(ops, c.adds, c.updates, d);
    Batches.DistinctRowsOwned(ops);
    forall j | 0 <= j < |ops| ensures ops[j].row.id.Some? {
      assert Batches.Rows(ops)[j] in c.adds + c.updates + d;
    }
  }

  /** The table a completed `replace` batch leaves. */
  lemma BatchEndState(store: Store, existing: seq<DatabaseObject>, incoming: seq<DatabaseObject>,
                      adds: seq<DatabaseObject>, updates: seq<DatabaseObject>, deletes: seq<DatabaseObject>,
                      ops: seq<Batches.Operation>)
    requires ListsStore(store, existing) && AllNamed(incoming) && Reconcile.IdsDistinct(incoming)
    requires Categorized(existing, incoming, adds, updates, deletes)
    requires Batches.Grouped(ops, adds, updates, deletes) && Completed(store, ops)
    ensures var after := Batches.ApplyBatch(store, ops).store;
            (forall k :: k in after <==> Some(k) in Reconcile.IdSet(incoming)) &&
            (forall o :: o in incoming ==> after[o.id.value] == Expected(store, o))
  {
    var after := Batches.ApplyBatch(store, ops).store;
    forall k: Long ensures k in after <==> Some(k) in Reconcile.IdSet(incoming) {
      if Some(k) in Reconcile.IdSet(incoming) {
        var o :| o in incoming && o.id == Some(k);
        var i :| 0 <= i < |incoming| && incoming[i] == o;
        ReplaceStoresIncoming(store, existing, incoming, adds, updates, deletes, ops, i);
      } else if k in store {
        ReplaceDropsStored(store, existing, incoming, adds, updates, deletes, ops, k);
      } else {
        ReplaceCreatesNoOthers(store, existing, incoming, adds, updates, deletes, ops, k);
      }
    }
    forall o | o in incoming ensures after[o.id.value] == Expected(store, o) {
      var i :| 0 <= i < |incoming| && incoming[i] == o;
      ReplaceStoresIncoming(store, existing, incoming, adds, updates, deletes, ops, i);
    }
  }

  /** When `replace` completes against the whole table, with incoming
      objects that each name an id of their own, the table afterwards
      holds exactly the incoming ids, each row at the newer of the stored
      and the incoming version. */
  lemma ReplaceEndState(cls: RecordClass, authority: string, store: Store, existing: seq<DatabaseObject>,
                        incoming: seq<DatabaseObject>)
    requires ListsStore(store, existing)
    requires AllNamed(incoming) && Reconcile.IdsDistinct(incoming)
    requires Replace(cls, authority, store, existing, incoming, false).result.Ok?
    ensures var after := Replace(cls, authority, store, existing, incoming, false).store;
            (forall k :: k in after <==> Some(k) in Reconcile.IdSet(incoming)) &&
            (forall o :: o in incoming ==> after[o.id.value] == Expected(store, o))
  {
    var c := Reconcile.Categorize(existing, incoming);
    var d := Reconcile.Deletes(existing, incoming);
    ReplaceBatch(cls, authority, store, existing, incoming);
    var ops := Batches.Operations(cls, authority, c.adds, c.updates, d).value;
    BatchEndState(store, existing, incoming, c.adds, c.updates, d, ops);
  }
}
