/** The older `SimpleContentProvider`: routes a URI to one of its
    `DatabaseInfo`s through their shared matcher and turns the request into
    the SQLite call it makes. The database's own answer (a row id) is a
    parameter. */
module LegacyProviders {
  import opened Wrappers
  import opened JavaText
  import opened Uris
  import opened UriMatchers
  import opened Model
  import opened LegacyContracts
  import Contracts
  import RecordMapper
  import Clauses
  import Scans
  import opened SqliteCalls

  /** The static state the provider reads: the shared matcher and `DATABASE_INFOS`. */
  datatype LegacyProvider = LegacyProvider(reg: Registry, infos: seq<DatabaseInfo>)

  /** Info `i` answers `u` when asked about objects, object ids or both. */
  predicate MatchAt(p: LegacyProvider, u: Uri, onObject: bool, onObjectId: bool, i: int) {
    0 <= i < |p.infos| && InfoMatchesWith(p.reg, p.infos[i], u, onObject, onObjectId)
  }

  /** Which infos answer `u`, in order. */
  function Hits(p: LegacyProvider, u: Uri, onObject: bool, onObjectId: bool): (h: seq<bool>)
    ensures |h| == |p.infos|
    ensures forall i :: 0 <= i < |h| ==> h[i] == MatchAt(p, u, onObject, onObjectId, i)
  {
    seq(|p.infos|, i requires 0 <= i < |p.infos| => MatchAt(p, u, onObject, onObjectId, i))
  }

  /** Info `i` answers `uriMatchesObject(u)`. */
  predicate ObjectAt(p: LegacyProvider, u: Uri, i: int) {
    MatchAt(p, u, true, false, i)
  }

  /** Info `i` answers `uriMatchesObjectId(u)`. */
  predicate ItemAt(p: LegacyProvider, u: Uri, i: int) {
    MatchAt(p, u, false, true, i)
  }

  /** Info `i` answers `uriMatches(u)`. */
  predicate EitherAt(p: LegacyProvider, u: Uri, i: int) {
    MatchAt(p, u, true, true, i)
  }

  /** `adjustSelection` as written: when some info takes `u` as an object id,
      its `addSelectionById` glues the id condition straight onto the
      caller's selection, with no separator. */
  function AdjustSelectionAsWritten(p: LegacyProvider, u: Uri, selection: Option<string>): (r: Option<string>)
    ensures r == if exists i :: ItemAt(p, u, i) then Some(StringOf(selection) + Contracts.IdCondition(u)) else selection
  {
    match Scans.FirstWhere(Hits(p, u, false, true))
    case Some(i) =>
      assert ItemAt(p, u, i);
      Contracts.SelectionById(u, selection);
      Some(Contracts.AddSelectionById(u, selection))
    case None => NoneHit(p, u, false, true); selection
  }

  /** `adjustSelection` as evidently intended: the id condition alone when
      there is no caller's selection, and joined to it with AND otherwise. */
  function AdjustSelection(p: LegacyProvider, u: Uri, selection: Option<string>): (r: Option<string>)
    ensures r == if exists i :: ItemAt(p, u, i) then
                   Some(if selection.None? || selection == Some("") then Contracts.IdCondition(u)
                        else "(" + selection.value + ") AND " + Contracts.IdCondition(u))
                 else selection
  {
    match Scans.FirstWhere(Hits(p, u, false, true))
    case Some(i) =>
      assert ItemAt(p, u, i);
      if selection.None? || selection == Some("") then Some(Contracts.IdCondition(u))
      else Some("(" + selection.value + ") AND " + Contracts.IdCondition(u))
    case None => NoneHit(p, u, false, true); selection
  }

  /** No entry of `Hits` is set: no info answers. */
  lemma NoneHit(p: LegacyProvider, u: Uri, onObject: bool, onObjectId: bool)
    requires forall j :: 0 <= j < |Hits(p, u, onObject, onObjectId)| ==> !Hits(p, u, onObject, onObjectId)[j]
    ensures forall i :: !MatchAt(p, u, onObject, onObjectId, i)
  {
    var h := Hits(p, u, onObject, onObjectId);
    forall i | 0 <= i < |p.infos|
      ensures !MatchAt(p, u, onObject, onObjectId, i)
    {
      assert !h[i];
    }
  }

  /** With an empty selection, the one the older `Manager` puts on its batch
      deletes, both versions add the same bare id condition. */
  lemma AdjustAgreesOnEmpty(p: LegacyProvider, u: Uri)
    ensures AdjustSelection(p, u, Some("")) == AdjustSelectionAsWritten(p, u, Some(""))
    ensures (exists i :: ItemAt(p, u, i)) ==> AdjustSelection(p, u, Some("")) == Some(Contracts.IdCondition(u))
  {
    if exists i :: ItemAt(p, u, i) {
      assert "" + Contracts.IdCondition(u) == Contracts.IdCondition(u);
    }
  }

  /** The private `getTableName(uri)`: the first info matching `u` at all. */
  function GetTableName(p: LegacyProvider, u: Uri): (r: Result<string>)
    ensures r.Ok? <==> exists i :: EitherAt(p, u, i)
    ensures r.Err? ==> r.error == IllegalArgument
    ensures r.Ok? ==> exists i :: EitherAt(p, u, i) && r.value == p.infos[i].tableName &&
                                  forall j :: 0 <= j < i ==> !EitherAt(p, u, j)
  {
    var h := Hits(p, u, true, true);
    match Scans.FirstWhere(h)
    case Some(i) =>
      assert EitherAt(p, u, i);
      assert forall j :: 0 <= j < i ==> !EitherAt(p, u, j) by {
        forall j | 0 <= j < i ensures !EitherAt(p, u, j) { assert !h[j]; }
      }
      Ok(p.infos[i].tableName)
    case None => NoneHit(p, u, true, true); Err(IllegalArgument)
  }

  /** The columns of the last info taking `u` as an object; the loops in
      `getType` and `insert` have no `break`. */
  function ObjectColumns(p: LegacyProvider, u: Uri): (r: Result<BaseColumns>)
    ensures r.Ok? <==> exists i :: ObjectAt(p, u, i)
    ensures r.Err? ==> r.error == IllegalArgument
    ensures r.Ok? ==> exists i :: ObjectAt(p, u, i) && r.value == p.infos[i].columns &&
                                  forall j :: i < j ==> !ObjectAt(p, u, j)
  {
    var h := Hits(p, u, true, false);
    Scans.LastWhereIsLast(h);
    match Scans.LastWhere(h)
    case Some(i) =>
      assert ObjectAt(p, u, i);
      assert forall j :: i < j ==> !ObjectAt(p, u, j) by {
        forall j | i < j ensures !ObjectAt(p, u, j) {
          if j < |p.infos| { assert !h[j]; }
        }
      }
      Ok(p.infos[i].columns)
    case None => NoneHit(p, u, true, false); Err(IllegalArgument)
  }

  /** `getType(uri)`: the collection type of the last info taking `u` as an
      object; an item URI is refused. */
  function GetType(p: LegacyProvider, u: Uri): (r: Result<string>)
    ensures r.Ok? <==> exists i :: ObjectAt(p, u, i)
    ensures r.Ok? ==> exists i :: ObjectAt(p, u, i) && r.value == BaseContentType(p.infos[i].columns) &&
                                  forall j :: i < j ==> !ObjectAt(p, u, j)
  {
    var columns :- ObjectColumns(p, u);
    Ok(BaseContentType(columns))
  }

  /** The call `insert(uri, values)` makes: into the last object match's
      table, a null `values` read as empty, no null-column hack. */
  function InsertCallOf(p: LegacyProvider, u: Uri, values: Option<RecordMapper.ContentValues>): (r: Result<InsertCall>)
    ensures r.Ok? <==> exists i :: ObjectAt(p, u, i)
    ensures r.Ok? ==> r.value.nullColumnHack.None? &&
                      r.value.values == (if values.None? then map[] else values.value)
  {
    var columns :- ObjectColumns(p, u);
    Ok(InsertCall(columns.tableName, None, if values.None? then map[] else values.value))
  }

  /** `insert(uri, values)` given the row id the database returns: the
      columns' content URI with that id appended when it is positive, an
      `SQLException` otherwise. */
  function Insert(p: LegacyProvider, u: Uri, values: Option<RecordMapper.ContentValues>, rowId: Long): (r: Result<Uri>)
    ensures r.Ok? <==> (exists i :: ObjectAt(p, u, i)) && rowId > 0
    ensures (forall i :: !ObjectAt(p, u, i)) ==> r == Err(IllegalArgument)
    ensures (exists i :: ObjectAt(p, u, i)) && rowId <= 0 ==> r == Err(SqlFailure)
    ensures r.Ok? ==> exists i :: ObjectAt(p, u, i) && r.value == WithAppendedId(BaseContentUri(p.infos[i].columns), rowId) &&
                                  forall j :: i < j ==> !ObjectAt(p, u, j)
  {
    var columns :- ObjectColumns(p, u);
    if rowId > 0 then Ok(WithAppendedId(BaseContentUri(columns), rowId)) else Err(SqlFailure)
  }

  /** `delete` as written: the first matching info's table, the selection
      adjusted, the args passed on. */
  function DeleteAsWritten(p: LegacyProvider, u: Uri, selection: Option<string>, args: seq<string>): (r: Result<DeleteCall>)
    ensures r.Ok? <==> exists i :: EitherAt(p, u, i)
    ensures r.Ok? ==> r.value.selection == AdjustSelectionAsWritten(p, u, selection) && r.value.selectionArgs == args
  {
    var table :- GetTableName(p, u);
    Ok(DeleteCall(table, AdjustSelectionAsWritten(p, u, selection), args))
  }

  /** `delete` with the corrected `adjustSelection`. */
  function Delete(p: LegacyProvider, u: Uri, selection: Option<string>, args: seq<string>): (r: Result<DeleteCall>)
    ensures r.Ok? <==> exists i :: EitherAt(p, u, i)
    ensures r.Ok? ==> r.value.selection == AdjustSelection(p, u, selection) && r.value.selectionArgs == args
  {
    var table :- GetTableName(p, u);
    Ok(DeleteCall(table, AdjustSelection(p, u, selection), args))
  }

  /** `query`: the projection map of the last info matching `u`, a null
      selection read as empty and then adjusted as written, the first
      match's table. */
  function Query(p: LegacyProvider, u: Uri, selection: Option<string>, args: seq<string>): (r: Result<QueryCall>)
    ensures r.Ok? <==> exists i :: EitherAt(p, u, i)
    ensures r.Ok? ==> Some(r.value.selection) == AdjustSelectionAsWritten(p, u, Some(if selection.None? then "" else selection.value))
    ensures r.Ok? && (exists i :: ItemAt(p, u, i)) ==> r.value.selection == (if selection.None? then "" else selection.value) + Contracts.IdCondition(u)
    ensures r.Ok? ==> exists i :: EitherAt(p, u, i) && r.value.projectionMap == p.infos[i].projectionMap &&
                                  forall j :: i < j ==> !EitherAt(p, u, j)
  {
    Scans.LastWhereIsLast(Hits(p, u, true, true));
    match Scans.LastWhere(Hits(p, u, true, true))
    case None => Err(IllegalArgument)
    case Some(k) =>
      var table :- GetTableName(p, u);
      var adjusted := AdjustSelectionAsWritten(p, u, Some(if selection.None? then "" else selection.value));
      Ok(QueryCall(table, p.infos[k].projectionMap, adjusted.value, args))
  }

  /** `update`: the first matching info's table; the selection is passed on
      unadjusted. */
  function Update(p: LegacyProvider, u: Uri, values: RecordMapper.ContentValues, selection: Option<string>, args: seq<string>)
    : (r: Result<UpdateCall>)
    ensures r.Ok? <==> exists i :: EitherAt(p, u, i)
    ensures r.Ok? ==> r.value.values == values && r.value.selection == selection && r.value.selectionArgs == args
  {
    var table :- GetTableName(p, u);
    Ok(UpdateCall(table, values, selection, args))
  }

  // ---------------------------------------------------------------------
  // Routing

  /** When exactly info `k` answers, both loops end on it. */
  lemma UniqueHit(p: LegacyProvider, u: Uri, onObject: bool, onObjectId: bool, k: int)
    requires MatchAt(p, u, onObject, onObjectId, k)
    requires forall j :: j != k ==> !MatchAt(p, u, onObject, onObjectId, j)
    ensures Scans.FirstWhere(Hits(p, u, onObject, onObjectId)) == Some(k)
    ensures Scans.LastWhere(Hits(p, u, onObject, onObjectId)) == Some(k)
  {
    var h := Hits(p, u, onObject, onObjectId);
    assert forall j :: 0 <= j < |h| && j != k ==> !h[j];
    Scans.SingleHit(h, k);
  }

  /** A URI that exactly one info takes as an object is routed to that
      info by every operation, the first-match and the last-match loops
      alike, and its selection is left alone. */
  lemma CollectionRoutes(p: LegacyProvider, u: Uri, k: int, values: Option<RecordMapper.ContentValues>, selection: Option<string>)
    requires ObjectAt(p, u, k) && p.infos[k].objectIdCode == p.infos[k].objectCode + 1
    requires forall j :: j != k ==> !EitherAt(p, u, j)
    ensures GetTableName(p, u) == Ok(p.infos[k].tableName)
    ensures GetType(p, u) == Ok(BaseContentType(p.infos[k].columns))
    ensures ObjectColumns(p, u) == Ok(p.infos[k].columns)
    ensures InsertCallOf(p, u, values) == Ok(InsertCall(p.infos[k].columns.tableName, None, if values.None? then map[] else values.value))
    ensures AdjustSelectionAsWritten(p, u, selection) == selection
    ensures AdjustSelection(p, u, selection) == selection
  {
    InfoMatchesExclusive(p.reg, p.infos[k], u);
    assert forall j :: !ItemAt(p, u, j) by {
      forall j ensures !ItemAt(p, u, j) {
        if j != k { assert !EitherAt(p, u, j); }
      }
    }
    forall j | j != k ensures !MatchAt(p, u, true, false, j) && !MatchAt(p, u, true, true, j) {
      assert !EitherAt(p, u, j);
    }
    UniqueHit(p, u, true, true, k);
    UniqueHit(p, u, true, false, k);
  }

  /** A URI that exactly one info takes as an object id is routed to that
      info's table, refused by `getType` and `insert`, and has the id
      condition added to its selection. */
  lemma ItemRoutes(p: LegacyProvider, u: Uri, k: int, values: Option<RecordMapper.ContentValues>, selection: Option<string>)
    requires ItemAt(p, u, k) && p.infos[k].objectIdCode == p.infos[k].objectCode + 1
    requires forall j :: j != k ==> !EitherAt(p, u, j)
    ensures GetTableName(p, u) == Ok(p.infos[k].tableName)
    ensures GetType(p, u) == Err(IllegalArgument)
    ensures InsertCallOf(p, u, values) == Err(IllegalArgument)
    ensures AdjustSelectionAsWritten(p, u, selection) == Some(StringOf(selection) + Contracts.IdCondition(u))
  {
    InfoMatchesExclusive(p.reg, p.infos[k], u);
    assert forall j :: !ObjectAt(p, u, j) by {
      forall j ensures !ObjectAt(p, u, j) {
        if j != k { assert !EitherAt(p, u, j); }
      }
    }
    forall j | j != k ensures !MatchAt(p, u, true, true, j) {
      assert !EitherAt(p, u, j);
    }
    UniqueHit(p, u, true, true, k);
  }

  // ---------------------------------------------------------------------
  // One table

  /** A provider with one info, set up on a fresh matcher. */
  function SingleInfo(info: DatabaseInfo): LegacyProvider {
    LegacyProvider(SetupUriMatcher(INITIAL_REGISTRY, info), [info])
  }

  /** An info whose table the matcher reads literally and whose codes are
      two consecutive counter values. */
  predicate WellCoded(info: DatabaseInfo) {
    LiteralTable(info.tableName) && info.objectCode >= 0 && info.objectIdCode == info.objectCode + 1
  }

  /** The single-info provider routes the info's collection URI to its
      table and content type, inserts into the columns' table, and leaves
      the selection alone. */
  lemma CollectionUriRoutes(info: DatabaseInfo, values: Option<RecordMapper.ContentValues>, selection: Option<string>)
    requires WellCoded(info)
    ensures var p := SingleInfo(info);
            var coll := ContentUri(info.authority, info.tableName);
            GetTableName(p, coll) == Ok(info.tableName) &&
            GetType(p, coll) == Ok(BaseContentType(info.columns)) &&
            InsertCallOf(p, coll, values) == Ok(InsertCall(info.columns.tableName, None, if values.None? then map[] else values.value)) &&
            ObjectColumns(p, coll) == Ok(info.columns) &&
            AdjustSelection(p, coll, selection) == selection
  {
    var p := SingleInfo(info);
    var coll := ContentUri(info.authority, info.tableName);
    InfoOwnUris(info, 0);
    assert ObjectAt(p, coll, 0);
    assert forall j :: j != 0 ==> !EitherAt(p, coll, j);
    CollectionRoutes(p, coll, 0, values, selection);
    assert p.infos[0] == info;
  }

  /** Inserting into the info's collection URI gives the item URI of the
      new row id, which routes back to the same table and carries that id. */
  lemma InsertRoundTrip(info: DatabaseInfo, values: Option<RecordMapper.ContentValues>, rowId: Long)
    requires WellCoded(info) && info.columns == BaseColumns(info.authority, info.tableName)
    requires rowId > 0
    ensures var p := SingleInfo(info);
            var coll := ContentUri(info.authority, info.tableName);
            var r := Insert(p, coll, values, rowId);
            r == Ok(WithAppendedId(coll, rowId)) &&
            GetTableName(p, r.value) == Ok(info.tableName) &&
            Contracts.GetId(r.value) == Ok(rowId)
  {
    var coll := ContentUri(info.authority, info.tableName);
    InsertAnswers(info, values, rowId);
    ItemUriRoutes(info, rowId);
    ItemCarriesId(info, rowId);
  }

  /** Inserting into the info's collection URI answers the item URI of the
      new row id. */
  lemma InsertAnswers(info: DatabaseInfo, values: Option<RecordMapper.ContentValues>, rowId: Long)
    requires WellCoded(info) && info.columns == BaseColumns(info.authority, info.tableName)
    requires rowId > 0
    ensures var coll := ContentUri(info.authority, info.tableName);
            Insert(SingleInfo(info), coll, values, rowId) == Ok(WithAppendedId(coll, rowId))
  {
    var p := SingleInfo(info);
    var coll := ContentUri(info.authority, info.tableName);
    CollectionUriRoutes(info, values, None);
    assert BaseContentUri(info.columns) == coll;
  }

  /** The item URI of the info's table carries its id. */
  lemma ItemCarriesId(info: DatabaseInfo, id: Long)
    requires WellCoded(info) && id >= 0
    ensures Contracts.GetId(WithAppendedId(ContentUri(info.authority, info.tableName), id)) == Ok(id)
  {
    var item := WithAppendedId(ContentUri(info.authority, info.tableName), id);
    assert item.path == [info.tableName, Decimal(id)] by {
      TableTokens(info.tableName);
    }
    ParseDecimal(id);
  }

  /** The single-info provider routes the item URI of a non-negative id to
      the info's table, takes it as an object id, and the id condition
      adjusting adds names that id. */
  lemma ItemUriRoutes(info: DatabaseInfo, id: Long)
    requires WellCoded(info) && id >= 0
    ensures GetTableName(SingleInfo(info), WithAppendedId(ContentUri(info.authority, info.tableName), id)) == Ok(info.tableName)
    ensures ItemAt(SingleInfo(info), WithAppendedId(ContentUri(info.authority, info.tableName), id), 0)
  {
    var p := SingleInfo(info);
    var item := WithAppendedId(ContentUri(info.authority, info.tableName), id);
    InfoOwnUris(info, id);
    assert ItemAt(p, item, 0);
    ItemRoutes(p, item, 0, None, None);
  }

  /** The older `Manager.delete(object)`'s request for a non-negative id, as
      the single-info provider routes it: the item URI, the info's table,
      `_id = ?` bound to the id, and the id condition that adjusting adds. */
  lemma DeleteObjectRequest(info: DatabaseInfo, o: DatabaseObject)
    requires WellCoded(info) && o.id.Some? && o.id.value >= 0
    ensures var coll := ContentUri(info.authority, info.tableName);
            var req := Clauses.DeleteObject(coll, o).value;
            var p := SingleInfo(info);
            req == Clauses.DeleteRequest(WithAppendedId(coll, o.id.value), Some("_id = ?"), [Decimal(o.id.value)]) &&
            GetTableName(p, req.uri) == Ok(info.tableName) &&
            (exists i :: ItemAt(p, req.uri, i)) &&
            Contracts.IdCondition(req.uri) == "_id = " + Decimal(o.id.value)
  {
    var coll := ContentUri(info.authority, info.tableName);
    var req := Clauses.DeleteObject(coll, o).value;
    assert ID_COLUMN + " = ?" == "_id = ?";
    assert req == Clauses.DeleteRequest(WithAppendedId(coll, o.id.value), Some("_id = ?"), [Decimal(o.id.value)]);
    ItemUriRoutes(info, o.id.value);
    assert LastPathSegment(req.uri) == Some(Decimal(o.id.value));
  }

  /** The older `Manager.delete(object)` sends the item URI with `_id = ?`
      and the id as its one argument; the as-written provider glues the id
      condition onto that clause, giving `_id = ?_id = <id>`, which is not a
      condition SQLite accepts. */
  lemma DeleteObjectGluesClause(info: DatabaseInfo, o: DatabaseObject)
    requires WellCoded(info) && o.id.Some? && o.id.value >= 0
    ensures var coll := ContentUri(info.authority, info.tableName);
            var req := Clauses.DeleteObject(coll, o).value;
            DeleteAsWritten(SingleInfo(info), req.uri, req.whereClause, req.whereArgs)
              == Ok(DeleteCall(info.tableName, Some("_id = ?_id = " + Decimal(o.id.value)), [Decimal(o.id.value)]))
  {
    DeleteObjectRequest(info, o);
    var d := Decimal(o.id.value);
    assert "_id = ?" + ("_id = " + d) == "_id = ?_id = " + d;
  }

  /** With the corrected `adjustSelection`, the same request keeps the
      caller's clause whole and adds the id condition after AND; the one
      placeholder still meets the one argument. */
  lemma DeleteObjectNarrows(info: DatabaseInfo, o: DatabaseObject)
    requires WellCoded(info) && o.id.Some? && o.id.value >= 0
    ensures var coll := ContentUri(info.authority, info.tableName);
            var req := Clauses.DeleteObject(coll, o).value;
            var r := Delete(SingleInfo(info), req.uri, req.whereClause, req.whereArgs);
            r == Ok(DeleteCall(info.tableName, Some("(_id = ?) AND _id = " + Decimal(o.id.value)), [Decimal(o.id.value)])) &&
            Clauses.Placeholders(r.value.selection.value) == |r.value.selectionArgs|
  {
    DeleteObjectRequest(info, o);
    var d := Decimal(o.id.value);
    assert "(" + "_id = ?" + ") AND " + ("_id = " + d) == "(_id = ?) AND _id = " + d;
    NarrowedPlaceholders(o.id.value);
  }

  /** The narrowed clause holds exactly one placeholder. */
  lemma NarrowedPlaceholders(id: Long)
    requires id >= 0
    ensures Clauses.Placeholders("(_id = ?) AND _id = " + Decimal(id)) == 1
  {
    var d := Decimal(id);
    var tail := ") AND _id = " + d;
    assert "(_id = ?) AND _id = " + d == "(_id = " + "?" + tail;
    assert forall i :: 0 <= i < |d| ==> IsDigit(d[i]);
    OnePlaceholder("(_id = ", tail);
  }

  /** A string without `?` between two others without `?` has one placeholder. */
  lemma OnePlaceholder(x: string, y: string)
    requires forall i :: 0 <= i < |x| ==> x[i] != '?'
    requires forall i :: 0 <= i < |y| ==> y[i] != '?'
    ensures Clauses.Placeholders(x + "?" + y) == 1
  {
    Clauses.PlaceholdersAppend(x + "?", y);
    Clauses.PlaceholdersAppend(x, "?");
    NoPlaceholders(x);
    NoPlaceholders(y);
  }

  /** A string without `?` has no placeholder. */
  lemma {:induction false} NoPlaceholders(s: string)
    requires forall i :: 0 <= i < |s| ==> s[i] != '?'
    ensures Clauses.Placeholders(s) == 0
  {
    if |s| > 0 {
      NoPlaceholders(s[1..]);
    }
  }
}
