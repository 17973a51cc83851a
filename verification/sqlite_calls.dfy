/** The calls a content provider makes on its SQLite database, as values:
    what the provider decides, before the database answers. */
module SqliteCalls {
  import opened Wrappers
  import RecordMapper

  /** `SQLiteDatabase.delete(table, selection, args)`. */
  datatype DeleteCall = DeleteCall(table: string, selection: Option<string>, selectionArgs: seq<string>)

  /** `SQLiteDatabase.insert(table, nullColumnHack, values)`. */
  datatype InsertCall = InsertCall(table: string, nullColumnHack: Option<string>, values: RecordMapper.ContentValues)

  /** `SQLiteQueryBuilder.query` on `table` with its projection map and the
      final selection. */
  datatype QueryCall = QueryCall(table: string, projectionMap: map<string, string>, selection: string, selectionArgs: seq<string>)

  /** `SQLiteDatabase.update(table, values, selection, args)`. */
  datatype UpdateCall = UpdateCall(table: string, values: RecordMapper.ContentValues, selection: Option<string>, selectionArgs: seq<string>)
}
