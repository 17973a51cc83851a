/** The newer generation's `Contract<T>`: everything derived from a record
    class's table name and annotated fields (URIs, MIME types, the CREATE
    TABLE statement, the projection map), and the matcher it prepares on the
    first matching call. */
module Contracts {
  import opened Wrappers
  import opened JavaText
  import opened Uris
  import opened UriMatchers
  import opened Model

  const OBJECT_CODE: int := 1
  const OBJECT_ID_CODE: int := 2
  /** `ContentResolver.CURSOR_DIR_BASE_TYPE` */
  const CURSOR_DIR_BASE_TYPE := "vnd.android.cursor.dir"
  /** `ContentResolver.CURSOR_ITEM_BASE_TYPE` */
  const CURSOR_ITEM_BASE_TYPE := "vnd.android.cursor.item"

  /** Whether the contract's matcher has been filled yet, and with which authority. */
  datatype MatcherState = Unprepared | Prepared(authority: string)

  datatype Contract = Contract(cls: RecordClass, state: MatcherState)

  /** A new contract: nothing registered yet. */
  function NewContract(cls: RecordClass): Contract {
    Contract(cls, Unprepared)
  }

  /** The fields of the class followed by those of its superclasses. */
  function AllFields(cls: RecordClass): (r: seq<Field>)
    ensures forall f :: f in r <==> f in cls.declaredFields || f in cls.inheritedFields
  {
    cls.declaredFields + cls.inheritedFields
  }

  /** The annotations of the annotated fields, in field order. */
  function AnnotatedColumns(fields: seq<Field>): (r: seq<Column>)
    ensures |r| <= |fields|
    ensures forall c :: c in r <==> exists f :: f in fields && f.column == Some(c)
  {
    if |fields| == 0 then []
    else
      var rest := AnnotatedColumns(fields[1..]);
      assert forall f :: f in fields[1..] ==> f in fields;
      match fields[0].column
      case None => rest
      case Some(c) => [c] + rest
  }

  function ColumnNamesOf(columns: seq<Column>): (r: seq<string>)
    ensures |r| == |columns|
    ensures forall i :: 0 <= i < |columns| ==> r[i] == columns[i].columnName
  {
    if |columns| == 0 then [] else [columns[0].columnName] + ColumnNamesOf(columns[1..])
  }

  /** The column names of every annotated field, superclass fields included. */
  function AnnotatedNames(cls: RecordClass): seq<string> {
    ColumnNamesOf(AnnotatedColumns(AllFields(cls)))
  }

  /** `setupProjectionMap`: every annotated column name mapped to itself. */
  function ProjectionMap(cls: RecordClass): (m: map<string, string>)
    ensures forall k :: k in m <==> k in AnnotatedNames(cls)
    ensures forall k :: k in m ==> m[k] == k
  {
    map k | k in AnnotatedNames(cls) :: k
  }

  /** The distinct strings of `s`, each at its first occurrence. */
  function Dedup(s: seq<string>): (r: seq<string>)
    ensures forall x :: x in r <==> x in s
    ensures forall i, j :: 0 <= i < j < |r| ==> r[i] != r[j]
    decreases |s|
  {
    if |s| == 0 then []
    else
      var r := Dedup(s[..|s| - 1]);
      assert forall x :: x in s <==> x in s[..|s| - 1] || x == s[|s| - 1];
      if s[|s| - 1] in r then r else r + [s[|s| - 1]]
  }

  /** `getColumnNames`: the key set of the projection map, as a list. */
  function ColumnNames(cls: RecordClass): (names: seq<string>)
    ensures forall k :: k in names <==> k in ProjectionMap(cls)
    ensures forall i, j :: 0 <= i < j < |names| ==> names[i] != names[j]
  {
    Dedup(AnnotatedNames(cls))
  }

  /** The SQL type written for a column type. */
  function SqlType(t: ColumnType): (s: string)
    ensures s == "TEXT" <==> t == STRING
    ensures s == "INTEGER" <==> t != STRING
  {
    match t
    case INTEGER => "INTEGER"
    case LONG => "INTEGER"
    case STRING => "TEXT"
  }

  /** One column definition; only `_id` is declared the primary key. */
  function ColumnSql(c: Column): string {
    c.columnName + " " + SqlType(c.columnType) + (if c.columnName == ID_COLUMN then " PRIMARY KEY" else "")
  }

  function ColumnSqls(columns: seq<Column>): (r: seq<string>)
    ensures |r| == |columns|
    ensures forall i :: 0 <= i < |columns| ==> r[i] == ColumnSql(columns[i])
  {
    if |columns| == 0 then [] else [ColumnSql(columns[0])] + ColumnSqls(columns[1..])
  }

  /** What the builder holds after the loop: every definition followed by ", ". */
  function DefinitionsWithCommas(columns: seq<Column>): string {
    if |columns| == 0 then "" else ColumnSql(columns[0]) + ", " + DefinitionsWithCommas(columns[1..])
  }

  /** `generateCreateTableSqlString`: the header, one definition per annotated
      field followed by ", ", the last two characters cut off, then " )". */
  function CreateTableSql(cls: RecordClass): string {
    var built := "CREATE TABLE " + cls.tableName + " ( " + DefinitionsWithCommas(AnnotatedColumns(AllFields(cls)));
    built[..|built| - 2] + " )"
  }

  lemma {:induction false} DefinitionsAreJoined(columns: seq<Column>)
    requires |columns| > 0
    ensures DefinitionsWithCommas(columns) == Join(ColumnSqls(columns), ", ") + ", "
  {
    if |columns| > 1 {
      DefinitionsAreJoined(columns[1..]);
      assert ColumnSqls(columns)[1..] == ColumnSqls(columns[1..]);
    } else {
      assert DefinitionsWithCommas(columns[1..]) == "";
    }
  }

  /** The statement is `CREATE TABLE t ( ` then the definitions joined by ", "
      then ` )`; with no annotated field the cut eats the opening parenthesis. */
  lemma CreateTableShape(cls: RecordClass)
    ensures var columns := AnnotatedColumns(AllFields(cls));
            |columns| > 0 ==>
              CreateTableSql(cls) == "CREATE TABLE " + cls.tableName + " ( " + Join(ColumnSqls(columns), ", ") + " )"
    ensures AnnotatedColumns(AllFields(cls)) == [] ==>
              CreateTableSql(cls) == "CREATE TABLE " + cls.tableName + "  )"
  {
    var columns := AnnotatedColumns(AllFields(cls));
    var head := "CREATE TABLE " + cls.tableName + " ( ";
    if |columns| > 0 {
      DefinitionsAreJoined(columns);
      var body := Join(ColumnSqls(columns), ", ");
      assert head + DefinitionsWithCommas(columns) == (head + body) + ", ";
      assert ((head + body) + ", ")[..|head + body|] == head + body;
    } else {
      assert head + DefinitionsWithCommas(columns) == head;
      assert head[..|head| - 2] == "CREATE TABLE " + cls.tableName + " ";
    }
  }

  /** `getContentType`: the directory MIME type of the table. */
  function ContentType(cls: RecordClass): string {
    CURSOR_DIR_BASE_TYPE + "/vnd.wit." + cls.tableName
  }

  /** `getContentItemType`: the single-item MIME type of the table. */
  function ContentItemType(cls: RecordClass): string {
    CURSOR_ITEM_BASE_TYPE + "/vnd.wit." + cls.tableName
  }

  /** The two MIME types never coincide, and each determines the table name. */
  lemma ContentTypesDistinct(a: RecordClass, b: RecordClass)
    ensures ContentType(a) != ContentItemType(b)
    ensures ContentType(a) == ContentType(b) ==> a.tableName == b.tableName
    ensures ContentItemType(a) == ContentItemType(b) ==> a.tableName == b.tableName
  {
    assert ContentType(a)[19] != ContentItemType(b)[19];
    var p := CURSOR_DIR_BASE_TYPE + "/vnd.wit.";
    var q := CURSOR_ITEM_BASE_TYPE + "/vnd.wit.";
    if ContentType(a) == ContentType(b) {
      assert a.tableName == ContentType(a)[|p|..];
    }
    if ContentItemType(a) == ContentItemType(b) {
      assert a.tableName == ContentItemType(a)[|q|..];
    }
  }

  /** `getContentUri(authority)`. */
  function GetContentUri(cls: RecordClass, authority: string): Uri {
    ContentUri(authority, cls.tableName)
  }

  /** `getContentUri(authority, id)`: the text form with "/" + id appended, parsed. */
  function GetItemUri(cls: RecordClass, authority: string, id: Long): (u: Uri)
    ensures u == WithAppendedId(GetContentUri(cls, authority), id)
  {
    ParsedItemUri(authority, cls.tableName, id);
    ContentUri(authority, cls.tableName + "/" + Decimal(id))
  }

  /** `getId`: the second of exactly two path segments, parsed as a long. */
  function GetId(u: Uri): (r: Result<Long>)
    ensures |u.path| != 2 ==> r == Err(IllegalArgument)
  {
    if |u.path| == 2 then ParseLong(u.path[1]) else Err(IllegalArgument)
  }

  /** `hasId`: exactly two path segments. */
  function HasId(u: Uri): bool {
    |u.path| == 2
  }

  /** For a one-segment table name, the item URI has an id and gives it back,
      the collection URI has none and is refused. */
  lemma GetIdRoundTrip(cls: RecordClass, authority: string, id: Long)
    requires IsSegment(cls.tableName)
    ensures HasId(GetItemUri(cls, authority, id))
    ensures GetId(GetItemUri(cls, authority, id)) == Ok(id)
    ensures !HasId(GetContentUri(cls, authority))
    ensures GetId(GetContentUri(cls, authority)) == Err(IllegalArgument)
  {
    ParseDecimal(id);
  }

  /** Whenever `getId` succeeds, `hasId` holds. */
  lemma GetIdImpliesHasId(u: Uri)
    ensures GetId(u).Ok? ==> HasId(u)
  {
  }

  /** `addSelectionById`: the existing selection (null prints as "null"),
      then `_id = ` and the last path segment, with no separator. */
  function AddSelectionById(u: Uri, existing: Option<string>): string {
    StringOf(existing) + ID_COLUMN + " = " + StringOf(LastPathSegment(u))
  }

  /** The condition `addSelectionById` appends: the id column and the URI's last segment. */
  function IdCondition(u: Uri): string {
    ID_COLUMN + " = " + StringOf(LastPathSegment(u))
  }

  /** On a URI with an id appended, the id condition names that id. */
  lemma IdConditionOfAppended(coll: Uri, id: Long)
    ensures IdCondition(WithAppendedId(coll, id)) == ID_COLUMN + " = " + Decimal(id)
  {
    assert LastPathSegment(WithAppendedId(coll, id)) == Some(Decimal(id));
  }

  /** `addSelectionById` appends exactly the id condition. */
  lemma SelectionById(u: Uri, selection: Option<string>)
    ensures AddSelectionById(u, selection) == StringOf(selection) + IdCondition(u)
  {
    var a := StringOf(selection);
    var b := StringOf(LastPathSegment(u));
    assert a + ID_COLUMN + " = " + b == a + (ID_COLUMN + " = " + b);
  }

  /** On the item URI of `id` the added condition names that id. */
  lemma AddSelectionByIdOnItem(cls: RecordClass, authority: string, id: Long, existing: string)
    ensures AddSelectionById(GetItemUri(cls, authority, id), Some(existing)) == existing + "_id = " + Decimal(id)
    ensures AddSelectionById(GetItemUri(cls, authority, id), None) == "null_id = " + Decimal(id)
  {
  }

  /** The matcher after preparation with `authority`: the table under code 1,
      the table followed by an id under code 2. */
  function PreparedMatcher(cls: RecordClass, authority: string): UriMatcher {
    AddUri(AddUri(EMPTY, authority, cls.tableName, OBJECT_CODE), authority, cls.tableName + "/#", OBJECT_ID_CODE)
  }

  function Matcher(c: Contract): UriMatcher {
    match c.state
    case Unprepared => EMPTY
    case Prepared(a) => PreparedMatcher(c.cls, a)
  }

  /** The private `uriMatches(uri, onObject, onObjectId, authority)`: prepare
      the matcher on the first call only, then accept code 1 when asked for
      objects and code 2 when asked for object ids. Returns the answer and the
      contract's new state. */
  function UriMatchesWith(c: Contract, u: Uri, onObject: bool, onObjectId: bool, authority: string): (r: (bool, Contract))
    ensures r.1.cls == c.cls && r.1.state.Prepared?
    ensures c.state.Prepared? ==> r.1 == c
    ensures c.state.Unprepared? ==> r.1.state == Prepared(authority)
  {
    var c' := if c.state.Unprepared? then c.(state := Prepared(authority)) else c;
    var code := Match(Matcher(c'), u);
    ((onObject && code == OBJECT_CODE) || (onObjectId && code == OBJECT_ID_CODE), c')
  }

  function UriMatches(c: Contract, u: Uri, authority: string): (bool, Contract) {
    UriMatchesWith(c, u, true, true, authority)
  }

  function UriMatchesObject(c: Contract, u: Uri, authority: string): (bool, Contract) {
    UriMatchesWith(c, u, true, false, authority)
  }

  function UriMatchesObjectId(c: Contract, u: Uri, authority: string): (bool, Contract) {
    UriMatchesWith(c, u, false, true, authority)
  }

  /** What a contract prepared with `authority` accepts, for a table name the
      matcher reads literally. */
  predicate IsCollectionUri(cls: RecordClass, authority: string, u: Uri) {
    u.authority == authority && u.path == [cls.tableName]
  }

  predicate IsItemUri(cls: RecordClass, authority: string, u: Uri) {
    u.authority == authority && |u.path| == 2 && u.path[0] == cls.tableName && AllDigits(u.path[1])
  }

  /** Once prepared with `authority`, object matching accepts exactly the
      collection URI and object-id matching exactly the item URIs with an
      all-digit id; no URI is both. The first call's authority is kept. */
  lemma MatchingOfPrepared(c: Contract, u: Uri, authority: string)
    requires LiteralTable(c.cls.tableName)
    requires c.state == Unprepared || c.state == Prepared(authority)
    ensures UriMatchesObject(c, u, authority).0 <==> IsCollectionUri(c.cls, authority, u)
    ensures UriMatchesObjectId(c, u, authority).0 <==> IsItemUri(c.cls, authority, u)
    ensures UriMatches(c, u, authority).0 <==> IsCollectionUri(c.cls, authority, u) || IsItemUri(c.cls, authority, u)
    ensures !(UriMatchesObject(c, u, authority).0 && UriMatchesObjectId(c, u, authority).0)
  {
    var t := c.cls.tableName;
    var rs := PreparedMatcher(c.cls, authority).registrations;
    assert rs == [Registration(authority, t, OBJECT_CODE), Registration(authority, t + "/#", OBJECT_ID_CODE)];
    TablePatterns(authority, t, u, OBJECT_CODE, 0);
    TablePatterns(authority, t, u, OBJECT_ID_CODE, 0);
    var isCollection := IsCollectionUri(c.cls, authority, u);
    var isItem := IsItemUri(c.cls, authority, u);
    assert !(isCollection && isItem);
    if isCollection {
      MatchUnique(rs, u, 0);
    } else if isItem {
      MatchUnique(rs, u, 1);
    } else {
      MatchNone(rs, u);
    }
  }

  /** A later call with another authority does not re-register: the contract
      still answers for the first authority only. */
  lemma FirstAuthorityKept(cls: RecordClass, first: string, later: string, u: Uri)
    requires LiteralTable(cls.tableName)
    ensures var c := UriMatches(NewContract(cls), u, first).1;
            c.state == Prepared(first) &&
            UriMatches(c, u, later).1 == c &&
            (UriMatches(c, u, later).0 <==> IsCollectionUri(cls, first, u) || IsItemUri(cls, first, u))
  {
    var c := UriMatches(NewContract(cls), u, first).1;
    MatchingOfPrepared(c, u, first);
  }
}
