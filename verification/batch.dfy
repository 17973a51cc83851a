/** The batch paths of the newer `Manager`: the insert, update and delete
    operations built from object lists, their sequential application by the
    provider, the ids `apply` re-reads afterwards, and `replace` and
    `save(Collection)` on top of `categorize`. */
module Batches {
  import opened Wrappers
  import opened JavaText
  import opened Model
  import opened Uris
  import Contracts
  import RecordMapper
  import Reconcile
  import Managers

  type Store = Managers.Store

  /** A content provider operation, with the object it was built from
      (`row`), which is what the row it writes reads back as. */
  datatype Operation =
    | InsertOp(uri: Uri, values: RecordMapper.ContentValues, row: DatabaseObject)
    | UpdateOp(uri: Uri, values: RecordMapper.ContentValues, selection: string, selectionArgs: seq<string>,
               row: DatabaseObject)
    | DeleteOp(uri: Uri, selection: string, selectionArgs: seq<string>, row: DatabaseObject)

  /** The selection every update and delete operation carries. */
  const ID_SELECTION := ID_COLUMN + " = ?"

  /** `processObjectsToAdd`: one insert into the collection URI per object. */
  function InsertOperations(cls: RecordClass, authority: string, objects: seq<DatabaseObject>)
    : (r: Result<seq<Operation>>)
    ensures r.Ok? <==> forall i :: 0 <= i < |objects| ==> RecordMapper.GenerateContentValues(cls, objects[i]).Ok?
    ensures r.Ok? ==> |r.value| == |objects|
    ensures r.Ok? ==> (forall i :: 0 <= i < |objects| ==>
                 r.value[i] == InsertOp(Contracts.GetContentUri(cls, authority),
                                        RecordMapper.GenerateContentValues(cls, objects[i]).value, objects[i]))
    decreases |objects|
  {
    if |objects| == 0 then Ok([])
    else
      match RecordMapper.GenerateContentValues(cls, objects[0])
      case Err(e) => Err(e)
      case Ok(values) =>
        var rest := InsertOperations(cls, authority, objects[1..]);
        assert forall i :: 1 <= i < |objects| ==> objects[i] == objects[1..][i - 1];
        match rest
        case Err(e) => Err(e)
        case Ok(ops) => Ok([InsertOp(Contracts.GetContentUri(cls, authority), values, objects[0])] + ops)
  }

  /** `processObjectsToUpdate`: per object, unbox the id (a null id throws),
      and update its item URI under `_id = ?` bound to the id. */
  function UpdateOperations(cls: RecordClass, authority: string, objects: seq<DatabaseObject>)
    : (r: Result<seq<Operation>>)
    ensures r.Ok? <==> forall i :: 0 <= i < |objects| ==>
              objects[i].id.Some? && RecordMapper.GenerateContentValues(cls, objects[i]).Ok?
    ensures r.Ok? ==> |r.value| == |objects|
    ensures r.Ok? ==> (forall i :: 0 <= i < |objects| ==>
                 r.value[i] == UpdateOp(WithAppendedId(Contracts.GetContentUri(cls, authority), objects[i].id.value),
                                        RecordMapper.GenerateContentValues(cls, objects[i]).value,
                                        ID_SELECTION, [Decimal(objects[i].id.value)], objects[i]))
    decreases |objects|
  {
    if |objects| == 0 then Ok([])
    else
      var o := objects[0];
      match o.id
      case None => Err(NullPointer)
      case Some(id) =>
        match RecordMapper.GenerateContentValues(cls, o)
        case Err(e) => Err(e)
        case Ok(values) =>
          var rest := UpdateOperations(cls, authority, objects[1..]);
          assert forall i :: 1 <= i < |objects| ==> objects[i] == objects[1..][i - 1];
          match rest
          case Err(e) => Err(e)
          case Ok(ops) =>
            Ok([UpdateOp(WithAppendedId(Contracts.GetContentUri(cls, authority), id), values,
                         ID_SELECTION, [Decimal(id)], o)] + ops)
  }

  /** `processObjectsToDelete`: per object, unbox the id (a null id throws),
      and delete its item URI under `_id = ?` bound to the id. */
  function DeleteOperations(cls: RecordClass, authority: string, objects: seq<DatabaseObject>)
    : (r: Result<seq<Operation>>)
    ensures r.Ok? <==> forall i :: 0 <= i < |objects| ==> objects[i].id.Some?
    ensures r.Ok? ==> |r.value| == |objects|
    ensures r.Ok? ==> (forall i :: 0 <= i < |objects| ==>
                 r.value[i] == DeleteOp(WithAppendedId(Contracts.GetContentUri(cls, authority), objects[i].id.value),
                                        ID_SELECTION, [Decimal(objects[i].id.value)], objects[i]))
    decreases |objects|
  {
    if |objects| == 0 then Ok([])
    else
      var o := objects[0];
      match o.id
      case None => Err(NullPointer)
      case Some(id) =>
        var rest := DeleteOperations(cls, authority, objects[1..]);
        assert forall i :: 1 <= i < |objects| ==> objects[i] == objects[1..][i - 1];
        match rest
        case Err(e) => Err(e)
        case Ok(ops) =>
          Ok([DeleteOp(WithAppendedId(Contracts.GetContentUri(cls, authority), id), ID_SELECTION, [Decimal(id)], o)] + ops)
  }

  /** The operations of `apply`: inserts, then updates, then deletes. */
  function Operations(cls: RecordClass, authority: string, adds: seq<DatabaseObject>,
                      updates: seq<DatabaseObject>, deletes: seq<DatabaseObject>): (r: Result<seq<Operation>>)
    ensures r.Ok? <==> InsertOperations(cls, authority, adds).Ok? && UpdateOperations(cls, authority, updates).Ok? &&
                       DeleteOperations(cls, authority, deletes).Ok?
    ensures r.Ok? ==> r.value == InsertOperations(cls, authority, adds).value +
                                 UpdateOperations(cls, authority, updates).value +
                                 DeleteOperations(cls, authority, deletes).value
  {
    var inserts :- InsertOperations(cls, authority, adds);
    var modifications :- UpdateOperations(cls, authority, updates);
    var removals :- DeleteOperations(cls, authority, deletes);
    Ok(inserts + modifications + removals)
  }

  /** The operations come out grouped: every insert before every update,
      every update before every delete, each object once, in list order;
      every update and delete names its object's item URI and binds the id
      to `_id = ?`. */
  lemma OperationsInOrder(cls: RecordClass, authority: string, adds: seq<DatabaseObject>,
                          updates: seq<DatabaseObject>, deletes: seq<DatabaseObject>)
    requires Operations(cls, authority, adds, updates, deletes).Ok?
    ensures |Operations(cls, authority, adds, updates, deletes).value| == |adds| + |updates| + |deletes|
    ensures var ops := Operations(cls, authority, adds, updates, deletes).value;
            forall i :: 0 <= i < |adds| ==>
              ops[i].InsertOp? && ops[i].row == adds[i] && ops[i].uri == Contracts.GetContentUri(cls, authority)
    ensures var ops := Operations(cls, authority, adds, updates, deletes).value;
            forall i :: 0 <= i < |updates| ==>
              var op := ops[|adds| + i];
              op.UpdateOp? && op.row == updates[i] &&
              op.uri == WithAppendedId(Contracts.GetContentUri(cls, authority), updates[i].id.value) &&
              op.selection == ID_SELECTION && op.selectionArgs == [Decimal(updates[i].id.value)]
    ensures var ops := Operations(cls, authority, adds, updates, deletes).value;
            forall i :: 0 <= i < |deletes| ==>
              var op := ops[|adds| + |updates| + i];
              op.DeleteOp? && op.row == deletes[i] &&
              op.uri == WithAppendedId(Contracts.GetContentUri(cls, authority), deletes[i].id.value) &&
              op.selection == ID_SELECTION && op.selectionArgs == [Decimal(deletes[i].id.value)]
  {
    var inserts := InsertOperations(cls, authority, adds).value;
    var modifications := UpdateOperations(cls, authority, updates).value;
    var removals := DeleteOperations(cls, authority, deletes).value;
    var ops := Operations(cls, authority, adds, updates, deletes).value;
    assert ops == inserts + modifications + removals;
    forall i | 0 <= i < |adds| ensures ops[i] == inserts[i] { }
    forall i | 0 <= i < |updates| ensures ops[|adds| + i] == modifications[i] { }
    forall i | 0 <= i < |deletes| ensures ops[|adds| + |updates| + i] == removals[i] { }
  }

  // ---------------------------------------------------------------------
  // The provider's applyBatch

  /** A `ContentProviderResult`: the URI of an inserted row, or the number
      of rows an update or delete changed. */
  datatype OperationResult = UriResult(uri: Uri) | CountResult(count: nat)

  /** One operation against the table. An insert stores its row (see
      `Managers.StoreInsert`) and answers with the request URI plus the row
      id, or throws `SQLException` when the row id is not positive. An
      update or delete is sent to the item URI of its row's id: a negative
      id makes a segment that is not all digits, which no contract matches,
      so the provider throws `IllegalArgumentException`; otherwise it
      reaches the one row its `_id = ?` names, if present. */
  function ApplyOperation(store: Store, op: Operation): (r: Managers.Saved<OperationResult>)
    ensures op.InsertOp? ==> r.store == Managers.StoreInsert(store, op.row).1
    ensures op.InsertOp? && r.result.Ok? ==>
              r.result.value == UriResult(WithAppendedId(op.uri, Managers.StoreInsert(store, op.row).0))
    ensures !op.InsertOp? ==> (r.result.Err? <==> op.row.id.Some? && op.row.id.value < 0)
    ensures !op.InsertOp? && r.result.Err? ==> r.result.error == IllegalArgument && r.store == store
    ensures !op.InsertOp? && r.result.Ok? ==> r.result.value.CountResult?
    ensures (op.UpdateOp? || op.DeleteOp?) && op.row.id.Some? && op.row.id.value >= 0 && op.row.id.value in store ==>
              r.result.value == CountResult(1) &&
              r.store == (if op.UpdateOp? then store[op.row.id.value := op.row] else store - {op.row.id.value})
    ensures (op.UpdateOp? || op.DeleteOp?) && (op.row.id.None? || (op.row.id.value >= 0 && op.row.id.value !in store)) ==>
              r.result.value == CountResult(0) && r.store == store
  {
    match op
    case InsertOp(uri, _, row) =>
      var (rowId, stored) := Managers.StoreInsert(store, row);
      if rowId > 0 then Managers.Saved(Ok(UriResult(WithAppendedId(uri, rowId))), stored)
      else Managers.Saved(Err(SqlFailure), stored)
    case UpdateOp(_, _, _, _, row) =>
      if row.id.Some? && row.id.value < 0 then Managers.Saved(Err(IllegalArgument), store)
      else if row.id.Some? && row.id.value in store then
        Managers.Saved(Ok(CountResult(1)), store[row.id.value := row])
      else Managers.Saved(Ok(CountResult(0)), store)
    case DeleteOp(_, _, _, row) =>
      if row.id.Some? && row.id.value < 0 then Managers.Saved(Err(IllegalArgument), store)
      else if row.id.Some? && row.id.value in store then
        Managers.Saved(Ok(CountResult(1)), store - {row.id.value})
      else Managers.Saved(Ok(CountResult(0)), store)
  }

  /** `applyBatch`: the operations one at a time, in order, with no
      transaction: a throwing operation ends the batch and the ones before
      it stay applied. */
  function ApplyBatch(store: Store, ops: seq<Operation>): (r: Managers.Saved<seq<OperationResult>>)
    ensures r.result.Ok? ==> |r.result.value| == |ops|
    ensures r.result.Ok? ==> forall i :: 0 <= i < |ops| ==> (ops[i].InsertOp? <==> r.result.value[i].UriResult?)
    decreases |ops|
  {
    if |ops| == 0 then Managers.Saved(Ok([]), store)
    else
      var first := ApplyOperation(store, ops[0]);
      match first.result
      case Err(e) => Managers.Saved(Err(e), first.store)
      case Ok(result) =>
        var rest := ApplyBatch(first.store, ops[1..]);
        assert forall i :: 1 <= i < |ops| ==> ops[i] == ops[1..][i - 1];
        match rest.result
        case Err(e) => Managers.Saved(Err(e), rest.store)
        case Ok(results) => Managers.Saved(Ok([result] + results), rest.store)
  }

  /** A batch that completes completed its first operation and then the
      rest of the batch from the store the first one left. */
  lemma ApplyBatchCons(store: Store, ops: seq<Operation>)
    requires |ops| > 0 && ApplyBatch(store, ops).result.Ok?
    ensures var first := ApplyOperation(store, ops[0]);
            var rest := ApplyBatch(first.store, ops[1..]);
            first.result.Ok? && rest.result.Ok? &&
            ApplyBatch(store, ops).store == rest.store &&
            ApplyBatch(store, ops).result.value == [first.result.value] + rest.result.value
  {
  }

  /** A batch without deletes never removes a row, whether it completes or
      stops at a failing insert. */
  lemma {:induction false} BatchKeepsRows(store: Store, ops: seq<Operation>)
    requires forall i :: 0 <= i < |ops| ==> !ops[i].DeleteOp?
    ensures store.Keys <= ApplyBatch(store, ops).store.Keys
    decreases |ops|
  {
    if |ops| > 0 {
      var first := ApplyOperation(store, ops[0]);
      assert store.Keys <= first.store.Keys;
      if first.result.Ok? {
        BatchKeepsRows(first.store, ops[1..]);
      }
    }
  }

  /** A completed operation on the row it names: an insert writes its
      object, an update writes it over a present row, a delete removes it. */
  lemma OperationEffect(store: Store, op: Operation)
    requires op.row.id.Some? && ApplyOperation(store, op).result.Ok?
    ensures Leaves(op, op.row.id.value, store, ApplyOperation(store, op).store)
  {
  }

  /** An operation naming a row leaves every other row as it was. */
  lemma OperationElsewhere(store: Store, op: Operation, k: Long)
    requires op.row.id.Some? && op.row.id != Some(k)
    ensures Kept(k, store, ApplyOperation(store, op).store)
  {
  }

  /** Every operation names its row. */
  predicate RowsNamed(ops: seq<Operation>) {
    forall j :: 0 <= j < |ops| ==> ops[j].row.id.Some?
  }

  /** No operation but the `i`th names the row the `i`th names. */
  predicate OwnsRow(ops: seq<Operation>, i: int)
    requires 0 <= i < |ops|
  {
    forall j :: 0 <= j < |ops| && j != i ==> ops[j].row.id != ops[i].row.id
  }

  /** What operation `op` leaves at row `k`, given what was there before. */
  predicate Leaves(op: Operation, k: Long, before: Store, after: Store) {
    (op.InsertOp? ==> k in after && after[k] == op.row) &&
    (op.UpdateOp? ==> (k in after <==> k in before) && (k in before ==> after[k] == op.row)) &&
    (op.DeleteOp? ==> k !in after)
  }

  /** Row `k` is as it was. */
  predicate Kept(k: Long, before: Store, after: Store) {
    (k in after <==> k in before) && (k in before ==> after[k] == before[k])
  }

  /** The objects the operations were built from, in order. */
  function Rows(ops: seq<Operation>): (rows: seq<DatabaseObject>)
    ensures |rows| == |ops| && forall j :: 0 <= j < |ops| ==> rows[j] == ops[j].row
  {
    seq(|ops|, j requires 0 <= j < |ops| => ops[j].row)
  }

  /** The operations are the inserts of `adds`, the updates of `updates`
      and the deletes of `deletes`, in that order. */
  predicate Grouped(ops: seq<Operation>, adds: seq<DatabaseObject>, updates: seq<DatabaseObject>,
                    deletes: seq<DatabaseObject>)
  {
    |ops| == |adds| + |updates| + |deletes| &&
    (forall j :: 0 <= j < |adds| ==> ops[j].InsertOp? && ops[j].row == adds[j]) &&
    (forall j :: 0 <= j < |updates| ==> ops[|adds| + j].UpdateOp? && ops[|adds| + j].row == updates[j]) &&
    (forall j :: 0 <= j < |deletes| ==>
       ops[|adds| + |updates| + j].DeleteOp? && ops[|adds| + |updates| + j].row == deletes[j])
  }

  /** The operations of `apply` are grouped. */
  lemma OperationsGrouped(cls: RecordClass, authority: string, adds: seq<DatabaseObject>,
                          updates: seq<DatabaseObject>, deletes: seq<DatabaseObject>)
    requires Operations(cls, authority, adds, updates, deletes).Ok?
    ensures Grouped(Operations(cls, authority, adds, updates, deletes).value, adds, updates, deletes)
  {
    OperationsInOrder(cls, authority, adds, updates, deletes);
  }

  /** The rows of grouped operations are the three lists in order. */
  lemma GroupedRows(ops: seq<Operation>, adds: seq<DatabaseObject>, updates: seq<DatabaseObject>,
                    deletes: seq<DatabaseObject>)
    requires Grouped(ops, adds, updates, deletes)
    ensures Rows(ops) == adds + updates + deletes
  {
    forall j | 0 <= j < |ops| ensures Rows(ops)[j] == (adds + updates + deletes)[j] {
      if j < |adds| {
      } else if j < |adds| + |updates| {
        assert ops[|adds| + (j - |adds|)] == ops[j];
      } else {
        assert ops[|adds| + |updates| + (j - |adds| - |updates|)] == ops[j];
      }
    }
  }

  /** Row ids named once each make every operation the owner of its row. */
  lemma DistinctRowsOwned(ops: seq<Operation>)
    requires Reconcile.IdsDistinct(Rows(ops))
    ensures forall i :: 0 <= i < |ops| ==> OwnsRow(ops, i)
  {
    forall i, j | 0 <= i < |ops| && 0 <= j < |ops| && j != i ensures ops[j].row.id != ops[i].row.id {
      if i < j {
        assert Rows(ops)[i].id != Rows(ops)[j].id;
      } else {
        assert Rows(ops)[j].id != Rows(ops)[i].id;
      }
    }
  }

  /** A completed batch in which every operation names its row, and none
      names row `k`, leaves row `k` as it was. */
  lemma {:induction false} BatchUntouched(store: Store, ops: seq<Operation>, k: Long)
    requires ApplyBatch(store, ops).result.Ok?
    requires forall i :: 0 <= i < |ops| ==> ops[i].row.id.Some? && ops[i].row.id != Some(k)
    ensures Kept(k, store, ApplyBatch(store, ops).store)
    decreases |ops|
  {
    if |ops| > 0 {
      ApplyBatchCons(store, ops);
      var first := ApplyOperation(store, ops[0]);
      OperationElsewhere(store, ops[0], k);
      assert forall i :: 0 <= i < |ops| - 1 ==> ops[1..][i] == ops[i + 1];
      BatchUntouched(first.store, ops[1..], k);
    }
  }

  /** The tail of a batch keeps the naming facts. */
  lemma TailOwnsRow(ops: seq<Operation>, i: int)
    requires 0 < i < |ops| && RowsNamed(ops) && OwnsRow(ops, i)
    ensures RowsNamed(ops[1..]) && OwnsRow(ops[1..], i - 1) && ops[1..][i - 1] == ops[i]
    ensures ops[0].row.id != ops[i].row.id
  {
    assert forall j :: 0 <= j < |ops| - 1 ==> ops[1..][j] == ops[j + 1];
  }

  /** In a completed batch whose operations each name a row of their own,
      the operation naming row `k` decides it: an insert leaves its object,
      an update leaves its object when the row was there, a delete leaves
      nothing. */
  lemma {:induction false} BatchTouched(store: Store, ops: seq<Operation>, i: int)
    requires ApplyBatch(store, ops).result.Ok? && 0 <= i < |ops|
    requires RowsNamed(ops) && OwnsRow(ops, i)
    ensures Leaves(ops[i], ops[i].row.id.value, store, ApplyBatch(store, ops).store)
    decreases |ops|
  {
    var k := ops[i].row.id.value;
    ApplyBatchCons(store, ops);
    var first := ApplyOperation(store, ops[0]);
    if i == 0 {
      OperationEffect(store, ops[0]);
      assert forall j :: 0 <= j < |ops| - 1 ==> ops[1..][j] == ops[j + 1];
      BatchUntouched(first.store, ops[1..], k);
    } else {
      TailOwnsRow(ops, i);
      OperationElsewhere(store, ops[0], k);
      BatchTouched(first.store, ops[1..], i - 1);
    }
  }

  /** A batch of one operation is that operation. */
  lemma ApplyBatchSingle(store: Store, op: Operation)
    ensures var first := ApplyOperation(store, op);
            ApplyBatch(store, [op]) ==
            (if first.result.Ok? then Managers.Saved(Ok([first.result.value]), first.store)
             else Managers.Saved(Err(first.result.error), first.store))
  {
    assert [op][1..] == [];
    var first := ApplyOperation(store, op);
    assert ApplyBatch(first.store, []) == Managers.Saved(Ok([]), first.store);
    if first.result.Ok? {
      assert [first.result.value] + [] == [first.result.value];
    }
  }

  // ---------------------------------------------------------------------
  // apply

  /** The loop over the batch results in `apply`: the parsed last segment of
      every result URI, skipping count results. */
  function CollectIds(results: seq<OperationResult>): (r: Result<seq<Long>>)
    ensures r.Ok? ==> |r.value| <= |results|
    decreases |results|
  {
    if |results| == 0 then Ok([])
    else
      match results[0]
      case CountResult(_) => CollectIds(results[1..])
      case UriResult(uri) =>
        match LastPathSegment(uri)
        case None => Err(NumberFormat)
        case Some(segment) =>
          var id :- ParseLong(segment);
          var rest :- CollectIds(results[1..]);
          Ok([id] + rest)
  }

  /** `get(ids)`: nothing for no ids, else the stored objects whose `_id`
      is among them. */
  function Fetch(store: Store, ids: seq<Long>): (r: set<DatabaseObject>)
    ensures forall o :: o in r <==> exists k :: k in ids && k in store && store[k] == o
  {
    set k | k in ids && k in store :: store[k]
  }

  /** `apply(adds, updates, deletes)` as written: build the operations,
      apply them, and re-read the rows whose ids the results carry.
      `remoteFailure` stands for a `RemoteException`, which is logged and
      leaves nothing to re-read. */
  function ApplyAsWritten(cls: RecordClass, authority: string, store: Store, adds: seq<DatabaseObject>,
                          updates: seq<DatabaseObject>, deletes: seq<DatabaseObject>, remoteFailure: bool)
    : (r: Managers.Saved<set<DatabaseObject>>)
    ensures Operations(cls, authority, adds, updates, deletes).Err? ==> r.store == store && r.result.Err?
    ensures remoteFailure ==> r.store == store
    ensures Operations(cls, authority, adds, updates, deletes).Ok? && !remoteFailure ==>
              var ops := Operations(cls, authority, adds, updates, deletes).value;
              r.store == ApplyBatch(store, ops).store && (r.result.Ok? ==> ApplyBatch(store, ops).result.Ok?)
    ensures r.result.Ok? ==> forall x :: x in r.result.value ==> exists k :: k in r.store && r.store[k] == x
  {
    match Operations(cls, authority, adds, updates, deletes)
    case Err(e) => Managers.Saved(Err(e), store)
    case Ok(ops) =>
      if remoteFailure then Managers.Saved(Ok({}), store)
      else
        var batch := ApplyBatch(store, ops);
        match batch.result
        case Err(e) => Managers.Saved(Err(e), batch.store)
        case Ok(results) =>
          match CollectIds(results)
          case Err(e) => Managers.Saved(Err(e), batch.store)
          case Ok(ids) => Managers.Saved(Ok(Fetch(batch.store, ids)), batch.store)
  }

  /** An empty class: no declared fields, with the (id, version) constructor. */
  const BARE := RecordClass("T", [], [], {}, {}, true, DEFAULT_FLAGS)

  /** One update of a stored row: a single update operation, which counts
      one changed row and leaves the newer object stored. */
  lemma OneUpdateBatch()
    ensures var stored := DatabaseObject(Some(5), 1, map[], DEFAULT_FLAGS);
            var newer := DatabaseObject(Some(5), 2, map[], DEFAULT_FLAGS);
            var ops := Operations(BARE, "a", [], [newer], []);
            ops.Ok? && |ops.value| == 1 && ops.value[0].UpdateOp? && ops.value[0].row == newer &&
            ApplyBatch(map[5 := stored], ops.value) == Managers.Saved(Ok([CountResult(1)]), map[5 := newer])
  {
    var newer := DatabaseObject(Some(5), 2, map[], DEFAULT_FLAGS);
    var ops := Operations(BARE, "a", [], [newer], []);
    OneUpdateOperation();
    assert ops.value == [ops.value[0]];
    OneUpdateApplied(ops.value[0]);
  }

  /** The update list of one object builds one update operation. */
  lemma OneUpdateOperation()
    ensures var newer := DatabaseObject(Some(5), 2, map[], DEFAULT_FLAGS);
            var ops := Operations(BARE, "a", [], [newer], []);
            ops.Ok? && |ops.value| == 1 && ops.value[0].UpdateOp? && ops.value[0].row == newer
  {
  }

  /** An update of the stored row 5 counts one row and stores the newer object. */
  lemma OneUpdateApplied(op: Operation)
    requires op.UpdateOp? && op.row == DatabaseObject(Some(5), 2, map[], DEFAULT_FLAGS)
    ensures var stored := DatabaseObject(Some(5), 1, map[], DEFAULT_FLAGS);
            ApplyBatch(map[5 := stored], [op]) == Managers.Saved(Ok([CountResult(1)]), map[5 := op.row])
  {
    var stored := DatabaseObject(Some(5), 1, map[], DEFAULT_FLAGS);
    assert ApplyOperation(map[5 := stored], op) == Managers.Saved(Ok(CountResult(1)), map[5 := op.row]) by {
      assert map[5 := stored][5 := op.row] == map[5 := op.row];
    }
    ApplyBatchSingle(map[5 := stored], op);
  }

  /** As written, `apply` returns only inserted rows: an update that
      changed its row comes back as nothing. */
  lemma ApplyDropsUpdated()
    ensures var stored := DatabaseObject(Some(5), 1, map[], DEFAULT_FLAGS);
            var newer := DatabaseObject(Some(5), 2, map[], DEFAULT_FLAGS);
            ApplyAsWritten(BARE, "a", map[5 := stored], [], [newer], [], false) ==
            Managers.Saved(Ok({}), map[5 := newer])
  {
    var stored := DatabaseObject(Some(5), 1, map[], DEFAULT_FLAGS);
    var newer := DatabaseObject(Some(5), 2, map[], DEFAULT_FLAGS);
    var ops := Operations(BARE, "a", [], [newer], []);
    OneUpdateBatch();
    assert [CountResult(1)][1..] == [];
    assert CollectIds([CountResult(1)]) == Ok([]);
    assert Fetch(map[5 := newer], []) == {};
  }

  /** The ids `apply` should re-read: those of result URIs, and those of
      update operations that changed a row. */
  function ChangedIds(ops: seq<Operation>, results: seq<OperationResult>): (r: Result<seq<Long>>)
    requires |ops| == |results|
    decreases |ops|
  {
    if |ops| == 0 then Ok([])
    else
      var rest :- ChangedIds(ops[1..], results[1..]);
      match results[0]
      case UriResult(uri) =>
        (match LastPathSegment(uri)
         case None => Err(NumberFormat)
         case Some(segment) =>
           var id :- ParseLong(segment);
           Ok([id] + rest))
      case CountResult(count) =>
        if ops[0].UpdateOp? && count >= 1 && ops[0].row.id.Some? then Ok([ops[0].row.id.value] + rest)
        else Ok(rest)
  }

  /** `apply` as documented: the latest version of every object added or
      updated. */
  function Apply(cls: RecordClass, authority: string, store: Store, adds: seq<DatabaseObject>,
                 updates: seq<DatabaseObject>, deletes: seq<DatabaseObject>, remoteFailure: bool)
    : (r: Managers.Saved<set<DatabaseObject>>)
    ensures Operations(cls, authority, adds, updates, deletes).Err? ==> r.store == store && r.result.Err?
    ensures r.store == ApplyAsWritten(cls, authority, store, adds, updates, deletes, remoteFailure).store
  {
    match Operations(cls, authority, adds, updates, deletes)
    case Err(e) => Managers.Saved(Err(e), store)
    case Ok(ops) =>
      if remoteFailure then Managers.Saved(Ok({}), store)
      else Reread(store, ops)
  }

  /** Apply the batch and re-read the changed rows. */
  function Reread(store: Store, ops: seq<Operation>): (r: Managers.Saved<set<DatabaseObject>>)
    ensures r.store == ApplyBatch(store, ops).store
    ensures r.result.Ok? ==>
              ApplyBatch(store, ops).result.Ok? && ChangedIds(ops, ApplyBatch(store, ops).result.value).Ok?
  {
    var batch := ApplyBatch(store, ops);
    match batch.result
    case Err(e) => Managers.Saved(Err(e), batch.store)
    case Ok(results) =>
      match ChangedIds(ops, results)
      case Err(e) => Managers.Saved(Err(e), batch.store)
      case Ok(ids) => Managers.Saved(Ok(Fetch(batch.store, ids)), batch.store)
  }

  /** An update whose row is present when its turn comes changes it: with no
      delete ahead of it, rows present at the start are still present. */
  lemma {:induction false} ApplyBatchReaches(store: Store, ops: seq<Operation>, i: int)
    requires 0 <= i < |ops| && ApplyBatch(store, ops).result.Ok?
    requires ops[i].UpdateOp? && ops[i].row.id.Some? && ops[i].row.id.value in store
    requires forall j :: 0 <= j < i ==> !ops[j].DeleteOp?
    ensures ApplyBatch(store, ops).result.value[i] == CountResult(1)
    decreases |ops|
  {
    var first := ApplyOperation(store, ops[0]);
    var rest := ApplyBatch(first.store, ops[1..]);
    assert ApplyBatch(store, ops).result.value == [first.result.value] + rest.result.value;
    if i > 0 {
      assert store.Keys <= first.store.Keys;
      assert ops[1..][i - 1] == ops[i];
      ApplyBatchReaches(first.store, ops[1..], i - 1);
    }
  }

  /** A changed update of one row contributes exactly that row's id. */
  lemma ChangedIdsSingleUpdate(op: Operation, count: nat)
    requires op.UpdateOp? && op.row.id.Some? && count >= 1
    ensures ChangedIds([op], [CountResult(count)]) == Ok([op.row.id.value])
  {
    assert [op][1..] == [] && [CountResult(count)][1..] == [];
    assert ChangedIds([], []) == Ok([]);
    assert [op.row.id.value] + [] == [op.row.id.value];
  }

  /** An update result that changed a row contributes the row's id. */
  lemma {:induction false} ChangedIdsHasUpdates(ops: seq<Operation>, results: seq<OperationResult>, i: int)
    requires |ops| == |results| && ChangedIds(ops, results).Ok?
    requires 0 <= i < |ops| && ops[i].UpdateOp? && ops[i].row.id.Some? && results[i] == CountResult(1)
    ensures ops[i].row.id.value in ChangedIds(ops, results).value
    decreases |ops|
  {
    if i > 0 {
      ChangedIdsHasUpdates(ops[1..], results[1..], i - 1);
    }
  }

  /** The corrected `apply` returns the updated object in the case where
      the as-written one returns nothing. */
  lemma ApplyReturnsUpdated()
    ensures var stored := DatabaseObject(Some(5), 1, map[], DEFAULT_FLAGS);
            var newer := DatabaseObject(Some(5), 2, map[], DEFAULT_FLAGS);
            Apply(BARE, "a", map[5 := stored], [], [newer], [], false) ==
            Managers.Saved(Ok({newer}), map[5 := newer])
  {
    var stored := DatabaseObject(Some(5), 1, map[], DEFAULT_FLAGS);
    var newer := DatabaseObject(Some(5), 2, map[], DEFAULT_FLAGS);
    var ops := Operations(BARE, "a", [], [newer], []);
    OneUpdateBatch();
    assert [CountResult(1)][1..] == [];
    ChangedIdsSingleUpdate(ops.value[0], 1);
    assert ChangedIds(ops.value, [CountResult(1)]) == Ok([5]);
    assert map[5 := newer][5] == newer;
    assert Fetch(map[5 := newer], [5]) == {newer};
  }

  /** Whenever the corrected `apply` succeeds, every updated object whose
      row existed comes back at its latest stored version (unless a delete
      of the same batch removed the row). */
  lemma ApplyReturnsEveryUpdate(cls: RecordClass, authority: string, store: Store, adds: seq<DatabaseObject>,
                                updates: seq<DatabaseObject>, deletes: seq<DatabaseObject>, i: int)
    requires 0 <= i < |updates| && updates[i].id.Some? && updates[i].id.value in store
    requires Apply(cls, authority, store, adds, updates, deletes, false).result.Ok?
    ensures var r := Apply(cls, authority, store, adds, updates, deletes, false);
            updates[i].id.value in r.store ==> r.store[updates[i].id.value] in r.result.value
  {
    var ops := Operations(cls, authority, adds, updates, deletes).value;
    OperationsInOrder(cls, authority, adds, updates, deletes);
    assert Apply(cls, authority, store, adds, updates, deletes, false) == Reread(store, ops);
    var batch := ApplyBatch(store, ops);
    ApplyBatchReaches(store, ops, |adds| + i);
    var results := batch.result.value;
    ChangedIdsHasUpdates(ops, results, |adds| + i);
    var ids := ChangedIds(ops, results).value;
    assert Reread(store, ops) == Managers.Saved(Ok(Fetch(batch.store, ids)), batch.store);
    var k := updates[i].id.value;
    if k in batch.store {
      assert batch.store[k] in Fetch(batch.store, ids);
    }
  }
}
