/** The newer `SimpleContentProvider`: routes a URI to one of the contracts
    it was built with, asking each with the provider's own authority, and
    turns the request into the SQLite call it makes; `applyBatch` also
    decides which URIs to notify. The database's own answers (a row id, the
    operations' results) are parameters. */
module Providers {
  import opened Wrappers
  import opened JavaText
  import opened Uris
  import opened UriMatchers
  import opened Model
  import opened Contracts
  import opened SqliteCalls
  import RecordMapper
  import Batches
  import Scans

  /** The provider's authority and its list of contracts. */
  datatype Provider = Provider(authority: string, contracts: seq<Contract>)

  /** Contract `i` answers `u`, asked with the provider's authority, when
      asked about objects, object ids or both. */
  predicate MatchAt(p: Provider, u: Uri, onObject: bool, onObjectId: bool, i: int) {
    0 <= i < |p.contracts| && UriMatchesWith(p.contracts[i], u, onObject, onObjectId, p.authority).0
  }

  /** Which contracts answer `u`, in order. */
  function Hits(p: Provider, u: Uri, onObject: bool, onObjectId: bool): (h: seq<bool>)
    ensures |h| == |p.contracts|
    ensures forall i :: 0 <= i < |h| ==> h[i] == MatchAt(p, u, onObject, onObjectId, i)
  {
    seq(|p.contracts|, i requires 0 <= i < |p.contracts| => MatchAt(p, u, onObject, onObjectId, i))
  }

  /** Contract `i` answers `uriMatchesObject(u, authority)`. */
  predicate ObjectAt(p: Provider, u: Uri, i: int) {
    MatchAt(p, u, true, false, i)
  }

  /** Contract `i` answers `uriMatchesObjectId(u, authority)`. */
  predicate ItemAt(p: Provider, u: Uri, i: int) {
    MatchAt(p, u, false, true, i)
  }

  /** Contract `i` answers `uriMatches(u, authority)`, which is also
      `uriMatchesObject(..) || uriMatchesObjectId(..)`. */
  predicate EitherAt(p: Provider, u: Uri, i: int) {
    MatchAt(p, u, true, true, i)
  }

  /** No entry of `Hits` is set: no contract answers. */
  lemma NoneHit(p: Provider, u: Uri, onObject: bool, onObjectId: bool)
    requires forall j :: 0 <= j < |Hits(p, u, onObject, onObjectId)| ==> !Hits(p, u, onObject, onObjectId)[j]
    ensures forall i :: !MatchAt(p, u, onObject, onObjectId, i)
  {
    var h := Hits(p, u, onObject, onObjectId);
    forall i | 0 <= i < |p.contracts|
      ensures !MatchAt(p, u, onObject, onObjectId, i)
    {
      assert !h[i];
    }
  }

  /** The loop without `break` ends on the last entry set. */
  lemma LastHit(p: Provider, u: Uri, onObject: bool, onObjectId: bool)
    ensures var r := Scans.LastWhere(Hits(p, u, onObject, onObjectId));
            (r.Some? ==> MatchAt(p, u, onObject, onObjectId, r.value) &&
                         forall j :: r.value < j ==> !MatchAt(p, u, onObject, onObjectId, j)) &&
            (r.None? ==> forall j :: !MatchAt(p, u, onObject, onObjectId, j))
  {
    var h := Hits(p, u, onObject, onObjectId);
    Scans.LastWhereIsLast(h);
    var r := Scans.LastWhere(h);
    if r.Some? {
      forall j | r.value < j ensures !MatchAt(p, u, onObject, onObjectId, j) {
        if j < |h| { assert !h[j]; }
      }
    } else {
      NoneHit(p, u, onObject, onObjectId);
    }
  }

  /** `adjustSelection(uri, selection, authority)`: when some contract takes
      `u` as an object id, the id condition is appended to the selection,
      with no separator. */
  function AdjustSelection(p: Provider, u: Uri, selection: string): (r: string)
    ensures r == if exists i :: ItemAt(p, u, i) then selection + IdCondition(u) else selection
  {
    match Scans.FirstWhere(Hits(p, u, false, true))
    case Some(i) =>
      assert ItemAt(p, u, i);
      SelectionById(u, Some(selection));
      AddSelectionById(u, Some(selection))
    case None => NoneHit(p, u, false, true); selection
  }

  /** The private `getTableName(uri, authority)`: the first contract
      matching `u` at all. */
  function GetTableName(p: Provider, u: Uri): (r: Result<string>)
    ensures r.Ok? <==> exists i :: EitherAt(p, u, i)
    ensures r.Err? ==> r.error == IllegalArgument
    ensures r.Ok? ==> exists i :: EitherAt(p, u, i) && r.value == p.contracts[i].cls.tableName &&
                                  forall j :: 0 <= j < i ==> !EitherAt(p, u, j)
  {
    match Scans.FirstWhere(Hits(p, u, true, true))
    case Some(i) => assert EitherAt(p, u, i); Ok(p.contracts[i].cls.tableName)
    case None => NoneHit(p, u, true, true); Err(IllegalArgument)
  }

  /** The private `getContract(uri)`: the index of the last contract that
      takes `u` as an object or an object id. */
  function GetContract(p: Provider, u: Uri): (r: Result<nat>)
    ensures r.Ok? <==> exists i :: EitherAt(p, u, i)
    ensures r.Err? ==> r.error == IllegalArgument
    ensures r.Ok? ==> EitherAt(p, u, r.value) && forall j :: r.value < j ==> !EitherAt(p, u, j)
  {
    LastHit(p, u, true, true);
    match Scans.LastWhere(Hits(p, u, true, true))
    case Some(i) => assert EitherAt(p, u, i); Ok(i)
    case None => Err(IllegalArgument)
  }

  /** The private `getContractByMatchingObject(uri)`: the index of the last
      contract that takes `u` as an object. */
  function GetContractByMatchingObject(p: Provider, u: Uri): (r: Result<nat>)
    ensures r.Ok? <==> exists i :: ObjectAt(p, u, i)
    ensures r.Err? ==> r.error == IllegalArgument
    ensures r.Ok? ==> ObjectAt(p, u, r.value) && forall j :: r.value < j ==> !ObjectAt(p, u, j)
  {
    LastHit(p, u, true, false);
    match Scans.LastWhere(Hits(p, u, true, false))
    case Some(i) => assert ObjectAt(p, u, i); Ok(i)
    case None => Err(IllegalArgument)
  }

  /** `getType(uri)`: the first contract taking `u` as an object or an
      object id gives its collection or its item type accordingly. */
  function GetType(p: Provider, u: Uri): (r: Result<string>)
    ensures r.Ok? <==> exists i :: EitherAt(p, u, i)
    ensures r.Ok? ==> exists i :: EitherAt(p, u, i) &&
                        r.value == (if ObjectAt(p, u, i) then ContentType(p.contracts[i].cls)
                                    else ContentItemType(p.contracts[i].cls)) &&
                        forall j :: 0 <= j < i ==> !EitherAt(p, u, j)
  {
    match Scans.FirstWhere(Hits(p, u, true, true))
    case Some(i) =>
      assert EitherAt(p, u, i);
      Ok(if ObjectAt(p, u, i) then ContentType(p.contracts[i].cls) else ContentItemType(p.contracts[i].cls))
    case None => NoneHit(p, u, true, true); Err(IllegalArgument)
  }

  /** The call `insert(uri, values)` makes: into the table of the last
      contract taking `u` as an object, a null `values` read as empty, and
      `_id` as the null-column hack exactly when there are no values. */
  function InsertCallOf(p: Provider, u: Uri, values: Option<RecordMapper.ContentValues>): (r: Result<InsertCall>)
    ensures r.Ok? <==> exists i :: ObjectAt(p, u, i)
    ensures r.Ok? ==> r.value.values == (if values.None? then map[] else values.value) &&
                      (r.value.nullColumnHack == Some(ID_COLUMN) <==> |r.value.values| == 0) &&
                      (r.value.nullColumnHack.None? <==> |r.value.values| > 0)
  {
    var k :- GetContractByMatchingObject(p, u);
    var contents := if values.None? then map[] else values.value;
    Ok(InsertCall(p.contracts[k].cls.tableName, if |contents| == 0 then Some(ID_COLUMN) else None, contents))
  }

  /** `insert(uri, values)` given the row id the database returns: the
      request URI with that id appended when it is positive, an
      `SQLException` otherwise. The new URI and the request URI are the ones
      notified. */
  function Insert(p: Provider, u: Uri, values: Option<RecordMapper.ContentValues>, rowId: Long): (r: Result<Uri>)
    ensures r.Ok? <==> (exists i :: ObjectAt(p, u, i)) && rowId > 0
    ensures (forall i :: !ObjectAt(p, u, i)) ==> r == Err(IllegalArgument)
    ensures (exists i :: ObjectAt(p, u, i)) && rowId <= 0 ==> r == Err(SqlFailure)
    ensures r.Ok? ==> r.value == WithAppendedId(u, rowId)
  {
    var call :- InsertCallOf(p, u, values);
    if rowId > 0 then Ok(WithAppendedId(u, rowId)) else Err(SqlFailure)
  }

  /** `query`: the projection map of the last contract matching `u`, a null
      selection read as empty and then adjusted, the first match's table. */
  function Query(p: Provider, u: Uri, selection: Option<string>, args: seq<string>): (r: Result<QueryCall>)
    ensures r.Ok? <==> exists i :: EitherAt(p, u, i)
    ensures r.Ok? ==> r.value.selection == AdjustSelection(p, u, if selection.None? then "" else selection.value) &&
                      r.value.selectionArgs == args && Ok(r.value.table) == GetTableName(p, u)
    ensures r.Ok? ==> exists i :: EitherAt(p, u, i) && r.value.projectionMap == ProjectionMap(p.contracts[i].cls) &&
                                  forall j :: i < j ==> !EitherAt(p, u, j)
  {
    LastHit(p, u, true, true);
    match Scans.LastWhere(Hits(p, u, true, true))
    case None => Err(IllegalArgument)
    case Some(k) =>
      var table :- GetTableName(p, u);
      Ok(QueryCall(table, ProjectionMap(p.contracts[k].cls),
                   AdjustSelection(p, u, if selection.None? then "" else selection.value), args))
  }

  /** `update`: the first matching contract's table; the selection is
      passed on unadjusted. */
  function Update(p: Provider, u: Uri, values: RecordMapper.ContentValues, selection: Option<string>, args: seq<string>)
    : (r: Result<UpdateCall>)
    ensures r.Ok? <==> exists i :: EitherAt(p, u, i)
    ensures r.Ok? ==> r.value.values == values && r.value.selection == selection && r.value.selectionArgs == args &&
                      Ok(r.value.table) == GetTableName(p, u)
  {
    var table :- GetTableName(p, u);
    Ok(UpdateCall(table, values, selection, args))
  }

  /** `delete`: the first matching contract's table; unlike the older
      provider, the selection is passed on unadjusted. */
  function Delete(p: Provider, u: Uri, selection: Option<string>, args: seq<string>): (r: Result<DeleteCall>)
    ensures r.Ok? <==> exists i :: EitherAt(p, u, i)
    ensures r.Ok? ==> r.value.selection == selection && r.value.selectionArgs == args &&
                      Ok(r.value.table) == GetTableName(p, u)
  {
    var table :- GetTableName(p, u);
    Ok(DeleteCall(table, selection, args))
  }

  /** The URIs `delete` and `update` notify: the request URI and the
      collection URI of the contract `getContract` finds. */
  function ChangeNotifications(p: Provider, u: Uri): (r: Result<set<Uri>>)
    ensures r.Ok? <==> exists i :: EitherAt(p, u, i)
    ensures r.Ok? ==> u in r.value && |r.value| <= 2 &&
                      exists i :: EitherAt(p, u, i) && GetContentUri(p.contracts[i].cls, p.authority) in r.value
  {
    var k :- GetContract(p, u);
    Ok({u, GetContentUri(p.contracts[k].cls, p.authority)})
  }

  // ---------------------------------------------------------------------
  // applyBatch notifications

  /** The base URI `applyBatch` notifies for its first operation's URI: the
      URI itself when it has one segment, else scheme, authority and first
      segment; a URI without segments fails on `get(0)`. */
  function BaseUri(u: Uri): (r: Result<Uri>)
    ensures r.Err? <==> |u.path| == 0
    ensures r.Err? ==> r.error == IndexOutOfBounds
    ensures r.Ok? ==> r.value == Uri(u.scheme, u.authority, [u.path[0]])
  {
    if |u.path| == 1 then Ok(u)
    else if |u.path| == 0 then Err(IndexOutOfBounds)
    else Ok(Uri(u.scheme, u.authority, [u.path[0]]))
  }

  /** What one operation's result adds: the result's URI when it has one,
      else the operation's URI when it touched a row. */
  function ChangedBy(op: Batches.Operation, result: Batches.OperationResult): set<Uri> {
    match result
    case UriResult(x) => {x}
    case CountResult(c) => if c >= 1 then {op.uri} else {}
  }

  /** The loop over the operations and their results. */
  function ChangedUris(ops: seq<Batches.Operation>, results: seq<Batches.OperationResult>): set<Uri>
    requires |ops| == |results|
    decreases |ops|
  {
    if |ops| == 0 then {} else ChangedBy(ops[0], results[0]) + ChangedUris(ops[1..], results[1..])
  }

  /** The URIs `applyBatch` notifies once every operation has been applied. */
  function NotifyUris(ops: seq<Batches.Operation>, results: seq<Batches.OperationResult>): (r: Result<set<Uri>>)
    requires |ops| == |results|
    ensures |ops| == 0 ==> r == Ok(ChangedUris(ops, results))
    ensures |ops| > 0 ==> (r.Ok? <==> |ops[0].uri.path| > 0)
    ensures r.Ok? && |ops| > 0 ==> r.value == ChangedUris(ops, results) + {BaseUri(ops[0].uri).value}
  {
    if |ops| == 0 then Ok(ChangedUris(ops, results))
    else
      var base :- BaseUri(ops[0].uri);
      Ok(ChangedUris(ops, results) + {base})
  }

  /** A URI is collected exactly when some operation's result adds it. */
  lemma {:induction false} ChangedUrisSpec(ops: seq<Batches.Operation>, results: seq<Batches.OperationResult>, u: Uri)
    requires |ops| == |results|
    ensures u in ChangedUris(ops, results) <==> exists i :: 0 <= i < |ops| && u in ChangedBy(ops[i], results[i])
    decreases |ops|
  {
    if |ops| > 0 {
      ChangedUrisSpec(ops[1..], results[1..], u);
      if exists i :: 1 <= i < |ops| && u in ChangedBy(ops[i], results[i]) {
        var i :| 1 <= i < |ops| && u in ChangedBy(ops[i], results[i]);
        assert ops[1..][i - 1] == ops[i] && results[1..][i - 1] == results[i];
      }
      if exists i :: 0 <= i < |ops| - 1 && u in ChangedBy(ops[1..][i], results[1..][i]) {
        var i :| 0 <= i < |ops| - 1 && u in ChangedBy(ops[1..][i], results[1..][i]);
        assert ops[1..][i] == ops[i + 1] && results[1..][i] == results[i + 1];
      }
    }
  }

  /** On a batch over one table's collection and item URIs (what a
      `Manager` sends), the notified URIs are the inserted rows' URIs, the
      touched rows' URIs and the collection URI, and nothing else. */
  lemma BatchNotifies(cls: RecordClass, authority: string, ops: seq<Batches.Operation>,
                      results: seq<Batches.OperationResult>, u: Uri)
    requires IsSegment(cls.tableName) && |ops| == |results| && |ops| > 0
    requires ops[0].uri == GetContentUri(cls, authority) ||
             exists id: Long :: ops[0].uri == GetItemUri(cls, authority, id)
    ensures NotifyUris(ops, results).Ok?
    ensures u in NotifyUris(ops, results).value <==>
              u == GetContentUri(cls, authority) ||
              exists i :: 0 <= i < |ops| &&
                ((results[i].UriResult? && results[i].uri == u) ||
                 (results[i].CountResult? && results[i].count >= 1 && ops[i].uri == u))
  {
    var coll := GetContentUri(cls, authority);
    assert coll.path == [cls.tableName];
    assert BaseUri(ops[0].uri) == Ok(coll);
    ChangedUrisSpec(ops, results, u);
  }

  // ---------------------------------------------------------------------
  // Routing

  /** Every contract names a table the matcher reads literally and is
      either unprepared or prepared with the provider's authority. */
  predicate Ready(p: Provider) {
    forall i :: 0 <= i < |p.contracts| ==>
      LiteralTable(p.contracts[i].cls.tableName) &&
      (p.contracts[i].state == Unprepared || p.contracts[i].state == Prepared(p.authority))
  }

  /** No two contracts share a table. */
  predicate DistinctTables(p: Provider) {
    forall i, j :: 0 <= i < j < |p.contracts| ==> p.contracts[i].cls.tableName != p.contracts[j].cls.tableName
  }

  /** In a ready provider contract `i` answers exactly its collection URI
      as an object and its all-digit item URIs as object ids. */
  lemma MatchesOfReady(p: Provider, u: Uri, i: int)
    requires Ready(p) && 0 <= i < |p.contracts|
    ensures ObjectAt(p, u, i) <==> IsCollectionUri(p.contracts[i].cls, p.authority, u)
    ensures ItemAt(p, u, i) <==> IsItemUri(p.contracts[i].cls, p.authority, u)
    ensures EitherAt(p, u, i) <==> IsCollectionUri(p.contracts[i].cls, p.authority, u) || IsItemUri(p.contracts[i].cls, p.authority, u)
  {
    MatchingOfPrepared(p.contracts[i], u, p.authority);
  }

  /** A contract's collection URI is answered, as an object, by that
      contract alone. */
  lemma CollectionAnsweredBy(p: Provider, k: int, j: int)
    requires Ready(p) && DistinctTables(p) && 0 <= k < |p.contracts| && 0 <= j < |p.contracts|
    ensures var u := GetContentUri(p.contracts[k].cls, p.authority);
            (MatchAt(p, u, true, true, j) <==> j == k) && (MatchAt(p, u, true, false, j) <==> j == k) &&
            !MatchAt(p, u, false, true, j)
  {
    var u := GetContentUri(p.contracts[k].cls, p.authority);
    assert u.path == [p.contracts[k].cls.tableName];
    MatchesOfReady(p, u, j);
    if j < k { assert p.contracts[j].cls.tableName != p.contracts[k].cls.tableName; }
    if j > k { assert p.contracts[k].cls.tableName != p.contracts[j].cls.tableName; }
  }

  /** The item URI of a non-negative id is answered, as an object id, by
      its contract alone. */
  lemma ItemAnsweredBy(p: Provider, k: int, id: Long, j: int)
    requires Ready(p) && DistinctTables(p) && 0 <= k < |p.contracts| && 0 <= j < |p.contracts| && id >= 0
    ensures var u := GetItemUri(p.contracts[k].cls, p.authority, id);
            (MatchAt(p, u, true, true, j) <==> j == k) && (MatchAt(p, u, false, true, j) <==> j == k) &&
            !MatchAt(p, u, true, false, j)
  {
    var u := GetItemUri(p.contracts[k].cls, p.authority, id);
    assert u.path == [p.contracts[k].cls.tableName, Decimal(id)];
    assert AllDigits(NatToString(id));
    MatchesOfReady(p, u, j);
    if j < k { assert p.contracts[j].cls.tableName != p.contracts[k].cls.tableName; }
    if j > k { assert p.contracts[k].cls.tableName != p.contracts[j].cls.tableName; }
  }

  /** In a ready provider with distinct tables, a contract's collection URI
      is routed to that contract by every lookup, and its selection is left
      alone. */
  lemma CollectionRoutes(p: Provider, k: int, selection: string)
    requires Ready(p) && DistinctTables(p) && 0 <= k < |p.contracts|
    ensures var u := GetContentUri(p.contracts[k].cls, p.authority);
            GetTableName(p, u) == Ok(p.contracts[k].cls.tableName) &&
            GetType(p, u) == Ok(ContentType(p.contracts[k].cls)) &&
            GetContract(p, u) == Ok(k) &&
            GetContractByMatchingObject(p, u) == Ok(k) &&
            AdjustSelection(p, u, selection) == selection
  {
    var u := GetContentUri(p.contracts[k].cls, p.authority);
    forall j | 0 <= j < |p.contracts|
      ensures (MatchAt(p, u, true, true, j) <==> j == k) && (MatchAt(p, u, true, false, j) <==> j == k) &&
              !MatchAt(p, u, false, true, j)
    {
      CollectionAnsweredBy(p, k, j);
    }
    assert MatchAt(p, u, true, true, k) && MatchAt(p, u, true, false, k);
    assert forall j :: !ItemAt(p, u, j);
    UniqueHit(p, u, true, true, k);
    UniqueHit(p, u, true, false, k);
  }

  /** Only its own contract answers the item URI of a non-negative id. */
  lemma ItemAnswered(p: Provider, k: int, id: Long)
    requires Ready(p) && DistinctTables(p) && 0 <= k < |p.contracts| && id >= 0
    ensures var u := GetItemUri(p.contracts[k].cls, p.authority, id);
            (forall j :: MatchAt(p, u, true, true, j) <==> j == k) &&
            (forall j :: MatchAt(p, u, false, true, j) <==> j == k) &&
            (forall j :: !MatchAt(p, u, true, false, j))
  {
    var u := GetItemUri(p.contracts[k].cls, p.authority, id);
    forall j | 0 <= j < |p.contracts|
      ensures (MatchAt(p, u, true, true, j) <==> j == k) && (MatchAt(p, u, false, true, j) <==> j == k) &&
              !MatchAt(p, u, true, false, j)
    {
      ItemAnsweredBy(p, k, id, j);
    }
  }

  /** In a ready provider with distinct tables, the item URI of a
      non-negative id is routed to its contract, typed as an item, and
      refused by `insert`. */
  lemma ItemRoutes(p: Provider, k: int, id: Long)
    requires Ready(p) && DistinctTables(p) && 0 <= k < |p.contracts| && id >= 0
    ensures var u := GetItemUri(p.contracts[k].cls, p.authority, id);
            GetTableName(p, u) == Ok(p.contracts[k].cls.tableName) &&
            GetType(p, u) == Ok(ContentItemType(p.contracts[k].cls)) &&
            GetContract(p, u) == Ok(k) &&
            GetContractByMatchingObject(p, u) == Err(IllegalArgument)
  {
    var u := GetItemUri(p.contracts[k].cls, p.authority, id);
    ItemAnswered(p, k, id);
    assert !ObjectAt(p, u, k);
    UniqueHit(p, u, true, true, k);
  }

  /** A delete or update on that item URI notifies it together with its
      collection URI. */
  lemma ItemNotifications(p: Provider, k: int, id: Long)
    requires Ready(p) && DistinctTables(p) && 0 <= k < |p.contracts| && id >= 0
    ensures var u := GetItemUri(p.contracts[k].cls, p.authority, id);
            ChangeNotifications(p, u) == Ok({u, GetContentUri(p.contracts[k].cls, p.authority)})
  {
    ItemRoutes(p, k, id);
  }

  /** A query on that item URI has the id condition appended to its
      selection. */
  lemma ItemSelection(p: Provider, k: int, id: Long, selection: string)
    requires Ready(p) && DistinctTables(p) && 0 <= k < |p.contracts| && id >= 0
    ensures AdjustSelection(p, GetItemUri(p.contracts[k].cls, p.authority, id), selection) == selection + "_id = " + Decimal(id)
  {
    var u := GetItemUri(p.contracts[k].cls, p.authority, id);
    ItemAdjusted(p, k, id, selection);
    AppendedIdSelection(GetContentUri(p.contracts[k].cls, p.authority), id, selection, AdjustSelection(p, u, selection));
  }

  /** The id condition is appended on an item URI. */
  lemma ItemAdjusted(p: Provider, k: int, id: Long, selection: string)
    requires Ready(p) && DistinctTables(p) && 0 <= k < |p.contracts| && id >= 0
    ensures var u := GetItemUri(p.contracts[k].cls, p.authority, id);
            AdjustSelection(p, u, selection) == selection + IdCondition(u)
  {
    ItemAnswered(p, k, id);
    assert ItemAt(p, GetItemUri(p.contracts[k].cls, p.authority, id), k);
  }

  /** A selection with the id condition of an item URI appended names that
      item's id. */
  lemma AppendedIdSelection(coll: Uri, id: Long, selection: string, adjusted: string)
    requires adjusted == selection + IdCondition(WithAppendedId(coll, id))
    ensures adjusted == selection + "_id = " + Decimal(id)
  {
    IdConditionOfAppended(coll, id);
    var a, b, c := selection, ID_COLUMN + " = ", Decimal(id);
    assert a + (b + c) == a + b + c;
  }

  /** The item URI of a negative id is unknown to a ready provider: its
      last segment is not all digits. */
  lemma NegativeIdUnknown(p: Provider, cls: RecordClass, id: Long)
    requires Ready(p) && IsSegment(cls.tableName) && id < 0
    ensures GetTableName(p, GetItemUri(cls, p.authority, id)) == Err(IllegalArgument)
    ensures GetType(p, GetItemUri(cls, p.authority, id)) == Err(IllegalArgument)
  {
    var u := GetItemUri(cls, p.authority, id);
    assert u.path == [cls.tableName, Decimal(id)];
    assert Decimal(id)[0] == '-';
    forall j | 0 <= j < |p.contracts| ensures !EitherAt(p, u, j) {
      MatchesOfReady(p, u, j);
    }
  }

  /** Inserting into a contract's collection URI calls the database on
      that contract's table and gives the item URI of the new row, which
      routes back to the same table and carries the row id. */
  lemma InsertRoundTrip(p: Provider, k: int, values: Option<RecordMapper.ContentValues>, rowId: Long)
    requires Ready(p) && DistinctTables(p) && 0 <= k < |p.contracts| && rowId > 0
    ensures var coll := GetContentUri(p.contracts[k].cls, p.authority);
            var r := Insert(p, coll, values, rowId);
            InsertCallOf(p, coll, values).Ok? && InsertCallOf(p, coll, values).value.table == p.contracts[k].cls.tableName &&
            r == Ok(GetItemUri(p.contracts[k].cls, p.authority, rowId)) &&
            GetTableName(p, r.value) == Ok(p.contracts[k].cls.tableName) &&
            GetId(r.value) == Ok(rowId)
  {
    CollectionRoutes(p, k, "");
    ItemRoutes(p, k, rowId);
    GetIdRoundTrip(p.contracts[k].cls, p.authority, rowId);
  }

  /** When exactly contract `k` answers, both loops end on it. */
  lemma UniqueHit(p: Provider, u: Uri, onObject: bool, onObjectId: bool, k: int)
    requires MatchAt(p, u, onObject, onObjectId, k)
    requires forall j :: 0 <= j < |p.contracts| && j != k ==> !MatchAt(p, u, onObject, onObjectId, j)
    ensures Scans.FirstWhere(Hits(p, u, onObject, onObjectId)) == Some(k)
    ensures Scans.LastWhere(Hits(p, u, onObject, onObjectId)) == Some(k)
  {
    var h := Hits(p, u, onObject, onObjectId);
    assert forall j :: 0 <= j < |h| && j != k ==> !h[j];
    Scans.SingleHit(h, k);
  }
}
