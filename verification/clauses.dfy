/** The SQL fragments the managers build as text: the sort order with its
    optional `LIMIT`, the selection with a `GROUP BY` smuggled into it, the
    `_id IN (...)` list used to re-read saved objects, and the delete
    requests with their narrowed where clauses. */
module Clauses {
  import opened Wrappers
  import opened JavaText
  import opened Model
  import opened Uris

  // ---------------------------------------------------------------------
  // Sort order

  /** One order-by item: `column KEYWORD`. */
  function OrderByText(column: string, order: Order): (s: string)
    ensures |s| > 0
  {
    column + " " + Keyword(order)
  }

  /** The order-by items as text, in order. */
  function OrderByTexts(orderBys: seq<(string, Order)>): (r: seq<string>)
    ensures |r| == |orderBys|
    ensures forall i :: 0 <= i < |r| ==> r[i] == OrderByText(orderBys[i].0, orderBys[i].1)
  {
    if |orderBys| == 0 then [] else [OrderByText(orderBys[0].0, orderBys[0].1)] + OrderByTexts(orderBys[1..])
  }

  /** The StringBuilder loop over the order-bys: `", "` before an item
      whenever the builder is not empty, then the item. */
  function SortLoop(builder: string, orderBys: seq<(string, Order)>): string
    decreases |orderBys|
  {
    if |orderBys| == 0 then builder
    else
      var next := (if |builder| != 0 then builder + ", " else builder) + OrderByText(orderBys[0].0, orderBys[0].1);
      SortLoop(next, orderBys[1..])
  }

  /** The sort order the `get` overloads pass to the query: `_id` when there
      are no order-bys, the order-by loop otherwise, then ` LIMIT n` when a
      limit is given. */
  function SortOrder(orderBys: seq<(string, Order)>, limit: Option<Int32>): string {
    var base := if |orderBys| == 0 then ID_COLUMN else SortLoop("", orderBys);
    match limit
    case None => base
    case Some(n) => base + " LIMIT " + Decimal(n)
  }

  /** On a non-empty builder the loop appends `", "` and the joined items. */
  lemma {:induction false} SortLoopAppends(builder: string, orderBys: seq<(string, Order)>)
    requires |builder| > 0 && |orderBys| > 0
    ensures SortLoop(builder, orderBys) == builder + ", " + Join(OrderByTexts(orderBys), ", ")
    decreases |orderBys|
  {
    var first := OrderByText(orderBys[0].0, orderBys[0].1);
    var texts := OrderByTexts(orderBys);
    assert texts[1..] == OrderByTexts(orderBys[1..]);
    if |orderBys| > 1 {
      SortLoopAppends(builder + ", " + first, orderBys[1..]);
      assert builder + ", " + first + ", " + Join(texts[1..], ", ") == builder + ", " + (first + ", " + Join(texts[1..], ", "));
    }
  }

  /** From an empty builder the loop writes the items joined by `", "`. */
  lemma SortLoopJoins(orderBys: seq<(string, Order)>)
    requires |orderBys| > 0
    ensures SortLoop("", orderBys) == Join(OrderByTexts(orderBys), ", ")
  {
    var first := OrderByText(orderBys[0].0, orderBys[0].1);
    var texts := OrderByTexts(orderBys);
    assert "" + first == first;
    assert SortLoop("", orderBys) == SortLoop(first, orderBys[1..]);
    if |orderBys| > 1 {
      SortLoopAppends(first, orderBys[1..]);
      assert texts[1..] == OrderByTexts(orderBys[1..]);
    }
  }

  /** The sort order is `_id` or the order-by items joined by `", "`, with
      ` LIMIT n` appended exactly when a limit is given. */
  lemma SortOrderShape(orderBys: seq<(string, Order)>, limit: Option<Int32>)
    ensures var base := if |orderBys| == 0 then ID_COLUMN else Join(OrderByTexts(orderBys), ", ");
            SortOrder(orderBys, limit) == (if limit.Some? then base + " LIMIT " + Decimal(limit.value) else base)
  {
    if |orderBys| > 0 {
      SortLoopJoins(orderBys);
    }
  }

  // ---------------------------------------------------------------------
  // Selection with GROUP BY

  /** `List.indexOf`: the first position of `x`, or -1. */
  function IndexOf(s: seq<string>, x: string): (i: int)
    ensures -1 <= i < |s|
    ensures i >= 0 ==> s[i] == x && forall j :: 0 <= j < i ==> s[j] != x
    ensures i == -1 ==> x !in s
    decreases |s|
  {
    if |s| == 0 then -1
    else if s[0] == x then 0
    else
      var k := IndexOf(s[1..], x);
      if k < 0 then -1 else k + 1
  }

  /** The group-by loop as written: `", "` goes before a column only when
      `indexOf` of that column is not 0, so a later repetition of the first
      column is glued to its predecessor. */
  function GroupByLoopAsWritten(columns: seq<string>, k: nat, builder: string): string
    requires k <= |columns|
    decreases |columns| - k
  {
    if k == |columns| then builder
    else
      var separator := if IndexOf(columns, columns[k]) != 0 then ", " else "";
      GroupByLoopAsWritten(columns, k + 1, builder + separator + columns[k])
  }

  /** The group-by columns as the source writes them. */
  function GroupByColumnsAsWritten(columns: seq<string>): string {
    GroupByLoopAsWritten(columns, 0, "")
  }

  /** The group-by columns as evidently intended: separated by `", "`. */
  function GroupByColumns(columns: seq<string>): string {
    Join(columns, ", ")
  }

  /** From position `k` on, with the first column not repeated, the loop
      appends `", "` and each remaining column. */
  lemma {:induction false} GroupByLoopTail(columns: seq<string>, k: nat, builder: string)
    requires 1 <= k < |columns| && columns[0] !in columns[1..]
    ensures GroupByLoopAsWritten(columns, k, builder) == builder + ", " + Join(columns[k..], ", ")
    decreases |columns| - k
  {
    assert columns[k] in columns[1..];
    assert IndexOf(columns, columns[k]) != 0;
    var next := builder + ", " + columns[k];
    if k + 1 < |columns| {
      GroupByLoopTail(columns, k + 1, next);
      assert columns[k..][1..] == columns[k + 1..];
      assert next + ", " + Join(columns[k + 1..], ", ") == builder + ", " + (columns[k] + ", " + Join(columns[k + 1..], ", "));
    } else {
      assert columns[k..] == [columns[k]];
    }
  }

  /** The loop as written separates the columns correctly exactly when the
      first column does not occur again. */
  lemma GroupByAgreesWhenFirstUnique(columns: seq<string>)
    requires |columns| > 0 && columns[0] !in columns[1..]
    ensures GroupByColumnsAsWritten(columns) == GroupByColumns(columns)
  {
    assert IndexOf(columns, columns[0]) == 0;
    assert "" + "" + columns[0] == columns[0];
    assert GroupByColumnsAsWritten(columns) == GroupByLoopAsWritten(columns, 1, columns[0]);
    if |columns| > 1 {
      GroupByLoopTail(columns, 1, columns[0]);
    }
  }

  /** Grouping by `a, b, a` writes `a, ba`: the separator before the second
      `a` is lost. */
  lemma GroupBySeparatorLost()
    ensures GroupByColumnsAsWritten(["a", "b", "a"]) == "a, ba"
    ensures GroupByColumns(["a", "b", "a"]) == "a, b, a"
  {
    var cs := ["a", "b", "a"];
    assert IndexOf(cs, "a") == 0;
    assert IndexOf(cs, "b") == 1;
    assert GroupByLoopAsWritten(cs, 3, "a, ba") == "a, ba";
    assert GroupByLoopAsWritten(cs, 2, "a, b") == "a, ba";
    assert GroupByLoopAsWritten(cs, 1, "a") == "a, ba";
  }

  /** The selection of the general `get`: the caller's selection (or `1 = 1`
      when there is none but there are group-by columns), then
      `) GROUP BY (` and the columns. The query builder wraps the selection
      in parentheses, which closes the first and opens the second. */
  function SelectionAndGroupBy(selection: Option<string>, groupBy: seq<string>): (r: string)
    ensures |groupBy| == 0 ==> r == (if selection.Some? then selection.value else "")
    ensures |groupBy| > 0 ==>
              r == (if selection.Some? then selection.value else "1 = 1") + ") GROUP BY (" + GroupByColumnsAsWritten(groupBy)
  {
    var head := match selection
      case None => if |groupBy| > 0 then "1 = 1" else ""
      case Some(s) => s;
    if |groupBy| == 0 then head else head + ") GROUP BY (" + GroupByColumnsAsWritten(groupBy)
  }

  /** Parentheses around three pieces glued together. */
  lemma Wrapped(a: string, b: string, c: string)
    ensures "(" + (a + b + c) + ")" == "(" + a + b + c + ")"
  {
  }

  /** Wrapped in parentheses by the query builder, the selection reads
      `(selection) GROUP BY (columns)`, the columns as the loop writes them;
      they are the columns separated by `", "` when the first column does
      not occur again. */
  lemma WhereGroupsBy(selection: string, groupBy: seq<string>)
    requires |groupBy| > 0
    ensures "(" + SelectionAndGroupBy(Some(selection), groupBy) + ")"
         == "(" + selection + ") GROUP BY (" + GroupByColumnsAsWritten(groupBy) + ")"
    ensures groupBy[0] !in groupBy[1..] ==>
              ("(" + SelectionAndGroupBy(Some(selection), groupBy) + ")"
               == "(" + selection + ") GROUP BY (" + Join(groupBy, ", ") + ")")
  {
    var written := GroupByColumnsAsWritten(groupBy);
    Wrapped(selection, ") GROUP BY (", written);
    if groupBy[0] !in groupBy[1..] {
      GroupByAgreesWhenFirstUnique(groupBy);
    }
  }

  // ---------------------------------------------------------------------
  // The `_id IN (...)` list

  /** The decimal text of each id. */
  function Decimals(ids: seq<Long>): (r: seq<string>)
    ensures |r| == |ids|
    ensures forall i :: 0 <= i < |r| ==> r[i] == Decimal(ids[i])
  {
    if |ids| == 0 then [] else [Decimal(ids[0])] + Decimals(ids[1..])
  }

  /** The builder loop: each id followed by a comma. */
  function IdsWithCommas(ids: seq<Long>): string {
    if |ids| == 0 then "" else Decimal(ids[0]) + "," + IdsWithCommas(ids[1..])
  }

  /** `get(ids)`: no query at all for an empty collection, otherwise
      `_id IN (` + the ids with commas, last comma deleted + `)`. */
  function IdsSelection(ids: seq<Long>): (r: Option<string>)
    ensures r.Some? <==> |ids| > 0
  {
    if |ids| == 0 then None
    else
      var built := "(" + IdsWithCommas(ids);
      Some(ID_COLUMN + " IN " + built[..|built| - 1] + ")")
  }

  /** The comma loop is the comma-joined ids plus one trailing comma. */
  lemma {:induction false} IdsWithCommasJoin(ids: seq<Long>)
    requires |ids| > 0
    ensures IdsWithCommas(ids) == Join(Decimals(ids), ",") + ","
  {
    if |ids| > 1 {
      IdsWithCommasJoin(ids[1..]);
      assert Decimals(ids)[1..] == Decimals(ids[1..]);
    }
  }

  /** Parses every piece with `Long.parseLong`. */
  function ParseAll(pieces: seq<string>): (r: Result<seq<Long>>)
    ensures r.Ok? ==> |r.value| == |pieces|
  {
    if |pieces| == 0 then Ok([])
    else
      var n :- ParseLong(pieces[0]);
      var rest :- ParseAll(pieces[1..]);
      Ok([n] + rest)
  }

  /** A comma-joined list splits back into its items when no item holds a comma. */
  lemma {:induction false} SplitJoin(items: seq<string>, separator: char)
    requires |items| > 0
    requires forall i, k :: 0 <= i < |items| && 0 <= k < |items[i]| ==> items[i][k] != separator
    ensures Split(Join(items, [separator]), separator) == items
  {
    SplitOfPiece(items[0], separator);
    if |items| > 1 {
      SplitJoin(items[1..], separator);
      SplitAround(items[0], Join(items[1..], [separator]), separator);
    }
  }

  /** The decimal list inside `_id IN (...)` parses back to the ids. */
  lemma {:induction false} IdsSelectionRoundTrip(ids: seq<Long>)
    requires |ids| > 0
    ensures exists list ::
              IdsSelection(ids) == Some(ID_COLUMN + " IN (" + list + ")") &&
              ParseAll(Split(list, ',')) == Ok(ids)
  {
    var list := Join(Decimals(ids), ",");
    IdsWithCommasJoin(ids);
    var built := "(" + IdsWithCommas(ids);
    assert built == "(" + list + ",";
    assert built[..|built| - 1] == "(" + list;
    forall i, k | 0 <= i < |ids| && 0 <= k < |Decimals(ids)[i]| ensures Decimals(ids)[i][k] != ',' {
      DecimalIsDigits(ids[i]);
    }
    SplitJoin(Decimals(ids), ',');
    ParseDecimals(ids);
    assert " IN (" == " IN " + "(";
    assert ID_COLUMN + " IN " + ("(" + list) + ")" == ID_COLUMN + " IN (" + list + ")";
  }

  /** Parsing the decimal texts of ids gives the ids. */
  lemma {:induction false} ParseDecimals(ids: seq<Long>)
    ensures ParseAll(Decimals(ids)) == Ok(ids)
  {
    if |ids| > 0 {
      ParseDecimal(ids[0]);
      ParseDecimals(ids[1..]);
      assert Decimals(ids)[1..] == Decimals(ids[1..]);
      assert [ids[0]] + ids[1..] == ids;
    }
  }

  /** Decimal text consists of digits and at most a leading minus sign. */
  lemma DecimalIsDigits(n: int)
    ensures forall k :: 0 <= k < |Decimal(n)| ==> IsDigit(Decimal(n)[k]) || Decimal(n)[k] == '-'
  {
    var m: nat := if n < 0 then -(n as int) else n;
    assert AllDigits(NatToString(m));
  }

  // ---------------------------------------------------------------------
  // Deletes

  /** A delete request sent to the content resolver. */
  datatype DeleteRequest = DeleteRequest(uri: Uri, whereClause: Option<string>, whereArgs: seq<string>)

  /** The number of `?` placeholders in a clause. */
  function Placeholders(s: string): nat {
    if |s| == 0 then 0 else (if s[0] == '?' then 1 else 0) + Placeholders(s[1..])
  }

  /** The placeholders of a concatenation are those of both parts. */
  lemma {:induction false} PlaceholdersAppend(a: string, b: string)
    ensures Placeholders(a + b) == Placeholders(a) + Placeholders(b)
  {
    if |a| > 0 {
      assert (a + b)[0] == a[0];
      assert (a + b)[1..] == a[1..] + b;
      PlaceholdersAppend(a[1..], b);
    } else {
      assert a + b == b;
    }
  }

  /** The private `delete(Long id, where, args)`: the collection URI when the
      id is null, its item URI otherwise. */
  function DeleteFor(collection: Uri, id: Option<Long>, whereClause: Option<string>, whereArgs: seq<string>)
    : (r: DeleteRequest)
    ensures id.None? ==> r.uri == collection
    ensures id.Some? ==> r.uri == WithAppendedId(collection, id.value)
    ensures r.whereClause == whereClause && r.whereArgs == whereArgs
  {
    DeleteRequest(if id.None? then collection else WithAppendedId(collection, id.value), whereClause, whereArgs)
  }

  /** `delete(object)`: the item URI with `_id = ?` bound to the id; a null
      id fails on unboxing. */
  function DeleteObject(collection: Uri, o: DatabaseObject): (r: Result<DeleteRequest>)
    ensures r.Err? <==> o.id.None?
    ensures r.Err? ==> r.error == NullPointer
    ensures r.Ok? ==> r.value.uri == WithAppendedId(collection, o.id.value) &&
                      r.value.whereArgs == [Decimal(o.id.value)] &&
                      r.value.whereClause == Some(ID_COLUMN + " = ?")
  {
    match o.id
    case None => Err(NullPointer)
    case Some(id) => Ok(DeleteFor(collection, Some(id), Some(ID_COLUMN + " = ?"), [Decimal(id)]))
  }

  /** The id conditions the library writes hold one placeholder each. */
  lemma IdConditionPlaceholders()
    ensures Placeholders("_id = ?") == 1
    ensures Placeholders("_id = ? AND ") == 1
  {
    assert Placeholders("?") == 1;
    assert Placeholders(" AND ") == 0 by {
      assert Placeholders("D ") == 0;
      assert Placeholders("ND ") == 0;
      assert Placeholders("AND ") == 0;
    }
    assert "_id = ?" == "_id = " + "?";
    PlaceholdersAppend("_id = ", "?");
    assert Placeholders("_id = ") == 0 by {
      assert Placeholders("= ") == 0;
      assert Placeholders("d = ") == 0;
      assert Placeholders("id = ") == 0;
    }
    assert "_id = ? AND " == "_id = ?" + " AND ";
    PlaceholdersAppend("_id = ?", " AND ");
  }

  /** `delete(object, where, args)`: `_id = ? AND ` before the caller's
      clause, the id (`"null"` for a null id) before the caller's args. */
  function DeleteNarrowed(collection: Uri, o: DatabaseObject, whereClause: Option<string>, whereArgs: seq<string>)
    : DeleteRequest
  {
    DeleteFor(collection, o.id, Some(ID_COLUMN + " = ? AND " + StringOf(whereClause)),
              [StringOf(match o.id case None => None case Some(id) => Some(Decimal(id)))] + whereArgs)
  }

  /** The narrowed clause holds one placeholder more than the caller's. */
  lemma NarrowedPlaceholders(whereClause: string)
    ensures Placeholders("_id = ? AND " + whereClause) == 1 + Placeholders(whereClause)
  {
    PlaceholdersAppend("_id = ? AND ", whereClause);
    IdConditionPlaceholders();
  }

  /** The narrowed delete targets the object's item URI, binds its id to the
      one added placeholder and passes the caller's clause and args on
      behind it, so a clause whose placeholders match its args still does. */
  lemma DeleteNarrowedBindsId(collection: Uri, o: DatabaseObject, whereClause: string, whereArgs: seq<string>)
    requires o.id.Some?
    ensures var r := DeleteNarrowed(collection, o, Some(whereClause), whereArgs);
            r.uri == WithAppendedId(collection, o.id.value) &&
            r.whereClause == Some("_id = ? AND " + whereClause) &&
            r.whereArgs == [Decimal(o.id.value)] + whereArgs &&
            (Placeholders(whereClause) == |whereArgs| ==> Placeholders(r.whereClause.value) == |r.whereArgs|)
  {
    assert ID_COLUMN + " = ? AND " == "_id = ? AND ";
    NarrowedPlaceholders(whereClause);
  }
}
