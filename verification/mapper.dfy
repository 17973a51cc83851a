/** The newer `Manager`'s reflective record mapper: `generateContentValues`
    turns an object into a row, `get(Cursor)` turns a cursor row back into an
    object, and `merge` copies an object under a new id. Reflection is
    replaced by the explicit `RecordClass` description. */
module RecordMapper {
  import opened Wrappers
  import opened JavaText
  import opened Model

  /** A `ContentValues`: column name to value. */
  type ContentValues = map<string, Value>

  /** One column of the cursor's current row. */
  datatype Cell = Cell(name: string, value: Value)

  /** The value `ContentValues.put(_ID, id)` stores for a possibly-null id. */
  function IdValue(id: Option<Long>): Value {
    match id
    case None => NullValue
    case Some(n) => LongValue(n)
  }

  /** The column a field is stored in; an unannotated field has none. */
  function ColumnNameOf(f: Field): Option<string> {
    match f.column
    case None => None
    case Some(c) => Some(c.columnName)
  }

  /** Whether the mapper copies this field (its column is neither `_id` nor `version`). */
  predicate Copied(f: Field)
    requires f.column.Some?
  {
    f.column.value.columnName != ID_COLUMN && f.column.value.columnName != VERSION_COLUMN
  }

  /** Whether a getter result survives the cast the source applies for the column type:
      `(Integer)` and `(String)` pass null, the `(long)` unboxing does not. */
  predicate Fits(t: ColumnType, v: Value) {
    match t
    case INTEGER => v.IntegerValue? || v.NullValue?
    case LONG => v.LongValue?
    case STRING => v.StringValue? || v.NullValue?
  }

  /** The cast of a getter result for a column of type `t`. */
  function Cast(t: ColumnType, v: Value): (r: Result<Value>)
    ensures r.Ok? <==> Fits(t, v)
    ensures r.Ok? ==> r.value == v
    ensures r.Err? ==> r.error == (if t == LONG && v.NullValue? then NullPointer else ClassCast)
  {
    if Fits(t, v) then Ok(v)
    else if t == LONG && v.NullValue? then Err(NullPointer)
    else Err(ClassCast)
  }

  /** What `generateContentValues` needs of one declared field: an
      annotation, and for a copied column a getter whose result fits the type. */
  predicate Writable(cls: RecordClass, o: DatabaseObject, f: Field) {
    f.column.Some? &&
    (Copied(f) ==> f.name in cls.getters && Fits(f.column.value.columnType, FieldValue(o, f.name)))
  }

  /** The columns written for `fields`. */
  function WrittenColumns(fields: seq<Field>): set<string> {
    set i | 0 <= i < |fields| && fields[i].column.Some? && Copied(fields[i]) :: fields[i].column.value.columnName
  }

  /** The columns written for `fields` are those of its first field and those of the rest. */
  lemma WrittenColumnsCons(fields: seq<Field>)
    requires |fields| > 0
    ensures WrittenColumns(fields)
         == (if fields[0].column.Some? && Copied(fields[0]) then {fields[0].column.value.columnName} else {})
            + WrittenColumns(fields[1..])
  {
    var rest := fields[1..];
    forall c | c in WrittenColumns(rest)
      ensures c in WrittenColumns(fields)
    {
      var i :| 0 <= i < |rest| && rest[i].column.Some? && Copied(rest[i]) && rest[i].column.value.columnName == c;
      assert fields[i + 1] == rest[i];
    }
  }

  /** Field `i` is the last of `fields` stored in its column. */
  predicate LastInColumn(fields: seq<Field>, i: int)
    requires 0 <= i < |fields|
  {
    forall j :: i < j < |fields| ==> ColumnNameOf(fields[j]) != ColumnNameOf(fields[i])
  }

  /** The loop of `generateContentValues` over `fields`, putting into `acc`. */
  function PutFields(cls: RecordClass, o: DatabaseObject, fields: seq<Field>, acc: ContentValues)
    : (r: Result<ContentValues>)
    ensures r.Ok? <==> forall i :: 0 <= i < |fields| ==> Writable(cls, o, fields[i])
    decreases |fields|
  {
    if |fields| == 0 then Ok(acc)
    else
      var f := fields[0];
      var rest := fields[1..];
      assert forall i :: 1 <= i < |fields| ==> fields[i] == rest[i - 1];
      if f.column.None? then Err(NullPointer)
      else if !Copied(f) then PutFields(cls, o, rest, acc)
      else if f.name !in cls.getters then Err(InvalidClassDefinition)
      else
        var v :- Cast(f.column.value.columnType, FieldValue(o, f.name));
        PutFields(cls, o, rest, acc[f.column.value.columnName := v])
  }

  /** A successful loop puts exactly the written columns on top of `acc`
      and leaves every other entry of `acc` alone. */
  lemma {:induction false} PutFieldsKeys(cls: RecordClass, o: DatabaseObject, fields: seq<Field>, acc: ContentValues)
    requires PutFields(cls, o, fields, acc).Ok?
    ensures var r := PutFields(cls, o, fields, acc).value;
            r.Keys == acc.Keys + WrittenColumns(fields) &&
            forall k :: k in acc && k !in WrittenColumns(fields) ==> r[k] == acc[k]
    decreases |fields|
  {
    if |fields| > 0 {
      var f := fields[0];
      var rest := fields[1..];
      assert forall i :: 1 <= i < |fields| ==> fields[i] == rest[i - 1];
      WrittenColumnsCons(fields);
      if !Copied(f) {
        PutFieldsKeys(cls, o, rest, acc);
      } else {
        PutFieldsKeys(cls, o, rest, acc[f.column.value.columnName := FieldValue(o, f.name)]);
      }
    }
  }

  /** Each column a successful loop writes holds the getter value of the
      last field stored there. */
  lemma {:induction false} PutFieldsValues(cls: RecordClass, o: DatabaseObject, fields: seq<Field>, acc: ContentValues)
    requires PutFields(cls, o, fields, acc).Ok?
    ensures var r := PutFields(cls, o, fields, acc).value;
            forall i :: 0 <= i < |fields| && Copied(fields[i]) && LastInColumn(fields, i) ==>
              fields[i].column.value.columnName in r &&
              r[fields[i].column.value.columnName] == FieldValue(o, fields[i].name)
    decreases |fields|
  {
    PutFieldsKeys(cls, o, fields, acc);
    if |fields| > 0 {
      var f := fields[0];
      var rest := fields[1..];
      assert forall i :: 1 <= i < |fields| ==> fields[i] == rest[i - 1];
      if !Copied(f) {
        PutFieldsValues(cls, o, rest, acc);
      } else {
        var next := acc[f.column.value.columnName := FieldValue(o, f.name)];
        PutFieldsValues(cls, o, rest, next);
        var r := PutFields(cls, o, fields, acc).value;
        forall i | 0 <= i < |fields| && Copied(fields[i]) && LastInColumn(fields, i)
          ensures fields[i].column.value.columnName in r &&
                  r[fields[i].column.value.columnName] == FieldValue(o, fields[i].name)
        {
          if i > 0 {
            assert LastInColumn(rest, i - 1);
          } else {
            PutFieldsKeys(cls, o, rest, next);
            assert f.column.value.columnName !in WrittenColumns(rest) by {
              forall j | 0 <= j < |rest| && rest[j].column.Some? && Copied(rest[j])
                ensures rest[j].column.value.columnName != f.column.value.columnName
              {
                assert ColumnNameOf(fields[j + 1]) != ColumnNameOf(f);
              }
            }
          }
        }
      }
    }
  }

  /** What a successful loop puts: exactly the written columns on top of
      `acc`, each holding the getter value of the last field stored there. */
  lemma PutFieldsContents(cls: RecordClass, o: DatabaseObject, fields: seq<Field>, acc: ContentValues)
    requires PutFields(cls, o, fields, acc).Ok?
    ensures var r := PutFields(cls, o, fields, acc).value;
            r.Keys == acc.Keys + WrittenColumns(fields) &&
            (forall k :: k in acc && k !in WrittenColumns(fields) ==> r[k] == acc[k]) &&
            forall i :: 0 <= i < |fields| && Copied(fields[i]) && LastInColumn(fields, i) ==>
              r[fields[i].column.value.columnName] == FieldValue(o, fields[i].name)
  {
    PutFieldsKeys(cls, o, fields, acc);
    PutFieldsValues(cls, o, fields, acc);
  }

  /** `generateContentValues(object)`: `_id` (possibly null) and `version`
      first, then every copied column of the class's own declared fields. */
  function GenerateContentValues(cls: RecordClass, o: DatabaseObject): (r: Result<ContentValues>)
    ensures r.Ok? <==> forall i :: 0 <= i < |cls.declaredFields| ==> Writable(cls, o, cls.declaredFields[i])
    ensures r.Ok? ==> r.value.Keys == {ID_COLUMN, VERSION_COLUMN} + WrittenColumns(cls.declaredFields)
    ensures r.Ok? ==> r.value[ID_COLUMN] == IdValue(o.id) && r.value[VERSION_COLUMN] == LongValue(o.version)
  {
    var acc := map[ID_COLUMN := IdValue(o.id), VERSION_COLUMN := LongValue(o.version)];
    var r := PutFields(cls, o, cls.declaredFields, acc);
    if r.Ok? then PutFieldsContents(cls, o, cls.declaredFields, acc); r else r
  }

  /** `Cursor.getColumnIndex(name)`: the first column of that name, else -1. */
  function ColumnIndex(row: seq<Cell>, name: string): (i: int)
    ensures -1 <= i < |row|
    ensures i >= 0 ==> row[i].name == name && forall j :: 0 <= j < i ==> row[j].name != name
    ensures i == -1 ==> forall j :: 0 <= j < |row| ==> row[j].name != name
    decreases |row|
  {
    if |row| == 0 then -1
    else if row[0].name == name then 0
    else
      var k := ColumnIndex(row[1..], name);
      if k < 0 then -1 else k + 1
  }

  /** The reading of a cell as an integer, simplified: NULL is 0, text that
      is a plain decimal `long` is that number, any other text is 0. Android
      reads a text cell with C's `strtoll`, which also takes a numeric
      prefix, hexadecimal and octal, and saturates on overflow; that is not
      modelled. */
  function AsLong(v: Value): Long {
    match v
    case NullValue => 0
    case IntegerValue(i) => i
    case LongValue(l) => l
    case StringValue(s) => match ParseLong(s) case Ok(n) => n case Err(_) => 0
  }

  /** SQLite's reading of a cell as text: numbers in decimal, NULL as null. */
  function AsText(v: Value): Option<string> {
    match v
    case NullValue => None
    case IntegerValue(i) => Some(Decimal(i))
    case LongValue(l) => Some(Decimal(l))
    case StringValue(s) => Some(s)
  }

  /** `cursor.getLong(index)`; a column index outside the row fails. */
  function GetLong(row: seq<Cell>, index: int): (r: Result<Long>)
    ensures r.Ok? <==> 0 <= index < |row|
    ensures r.Err? ==> r.error == IllegalState
  {
    if 0 <= index < |row| then Ok(AsLong(row[index].value)) else Err(IllegalState)
  }

  /** The value `get(Cursor)` hands to the setter of a column of type `t`:
      `getInt` (the low 32 bits), `getLong`, or `getString`. */
  function ReadColumn(row: seq<Cell>, index: int, t: ColumnType): (r: Result<Value>)
    ensures r.Ok? <==> 0 <= index < |row|
    ensures r.Ok? ==> Fits(t, r.value) || (t == STRING && r.value.NullValue?)
  {
    var n :- GetLong(row, index);
    match t
    case INTEGER => Ok(IntegerValue(IntValue(n)))
    case LONG => Ok(LongValue(n))
    case STRING =>
      match AsText(row[index].value)
      case None => Ok(NullValue)
      case Some(s) => Ok(StringValue(s))
  }

  /** What `get(Cursor)` needs of one declared field: an annotation, and for
      a field not sitting in the `_id` or `version` column, a readable
      column and a setter. */
  predicate Readable(cls: RecordClass, row: seq<Cell>, idIndex: int, versionIndex: int, f: Field) {
    f.column.Some? &&
    var index := ColumnIndex(row, f.column.value.columnName);
    (index != idIndex && index != versionIndex ==> 0 <= index && f.name in cls.setters)
  }

  /** Field `i` is the last of `fields` with its name. */
  predicate LastWithName(fields: seq<Field>, i: int)
    requires 0 <= i < |fields|
  {
    forall j :: i < j < |fields| ==> fields[j].name != fields[i].name
  }

  /** Whether the name is the name of one of `fields`. */
  predicate Named(fields: seq<Field>, name: string) {
    exists i :: 0 <= i < |fields| && fields[i].name == name
  }

  /** The loop of `get(Cursor)` over `fields`, setting values on `o`. */
  function SetFields(cls: RecordClass, row: seq<Cell>, idIndex: int, versionIndex: int,
                     fields: seq<Field>, o: DatabaseObject): (r: Result<DatabaseObject>)
    ensures r.Ok? <==> forall i :: 0 <= i < |fields| ==> Readable(cls, row, idIndex, versionIndex, fields[i])
    ensures r.Ok? ==> r.value.id == o.id && r.value.version == o.version && r.value.flags == o.flags
    decreases |fields|
  {
    if |fields| == 0 then Ok(o)
    else
      var f := fields[0];
      var rest := fields[1..];
      assert forall i :: 1 <= i < |fields| ==> fields[i] == rest[i - 1];
      if f.column.None? then Err(NullPointer)
      else
        var index := ColumnIndex(row, f.column.value.columnName);
        if index == idIndex || index == versionIndex then SetFields(cls, row, idIndex, versionIndex, rest, o)
        else
          var v :- ReadColumn(row, index, f.column.value.columnType);
          if f.name !in cls.setters then Err(InvalidClassDefinition)
          else SetFields(cls, row, idIndex, versionIndex, rest, o.(values := o.values[f.name := v]))
  }

  /** What a successful loop sets: fields not named in `fields` keep their
      values, and the last field of each name holds what its column reads as. */
  lemma {:induction false} SetFieldsValues(cls: RecordClass, row: seq<Cell>, idIndex: int, versionIndex: int,
                                           fields: seq<Field>, o: DatabaseObject)
    requires SetFields(cls, row, idIndex, versionIndex, fields, o).Ok?
    ensures var r := SetFields(cls, row, idIndex, versionIndex, fields, o).value;
            (forall name :: !Named(fields, name) ==> FieldValue(r, name) == FieldValue(o, name)) &&
            forall i :: 0 <= i < |fields| && LastWithName(fields, i) ==>
              var index := ColumnIndex(row, fields[i].column.value.columnName);
              index != idIndex && index != versionIndex ==>
                FieldValue(r, fields[i].name) == ReadColumn(row, index, fields[i].column.value.columnType).value
    decreases |fields|
  {
    if |fields| > 0 {
      var f := fields[0];
      var rest := fields[1..];
      assert forall i :: 1 <= i < |fields| ==> fields[i] == rest[i - 1];
      assert forall name :: Named(rest, name) ==> Named(fields, name) by {
        forall name | Named(rest, name) ensures Named(fields, name) {
          var i :| 0 <= i < |rest| && rest[i].name == name;
          assert fields[i + 1].name == name;
        }
      }
      var index := ColumnIndex(row, f.column.value.columnName);
      var next := if index == idIndex || index == versionIndex then o
                  else o.(values := o.values[f.name := ReadColumn(row, index, f.column.value.columnType).value]);
      SetFieldsValues(cls, row, idIndex, versionIndex, rest, next);
      var r := SetFields(cls, row, idIndex, versionIndex, fields, o).value;
      forall i | 0 <= i < |fields| && LastWithName(fields, i)
        ensures var index := ColumnIndex(row, fields[i].column.value.columnName);
                index != idIndex && index != versionIndex ==>
                  FieldValue(r, fields[i].name) == ReadColumn(row, index, fields[i].column.value.columnType).value
      {
        if i > 0 {
          assert LastWithName(rest, i - 1);
        } else {
          assert !Named(rest, f.name) by {
            forall j | 0 <= j < |rest| ensures rest[j].name != f.name {
              assert fields[j + 1] == rest[j];
            }
          }
        }
      }
    }
  }

  /** `get(Cursor)`: read `_id` and `version` with `getLong`, build the
      object with the (id, version) constructor, then set every declared
      field whose column is not one of those two. */
  function ReadObject(cls: RecordClass, row: seq<Cell>): (r: Result<DatabaseObject>)
    ensures r.Ok? ==> cls.hasIdVersionConstructor
    ensures r.Ok? ==> ID_COLUMN in NamesOf(row) && VERSION_COLUMN in NamesOf(row)
    ensures r.Ok? ==> r.value.id == Some(AsLong(row[ColumnIndex(row, ID_COLUMN)].value))
    ensures r.Ok? ==> r.value.version == AsLong(row[ColumnIndex(row, VERSION_COLUMN)].value)
    ensures r.Ok? ==> r.value.flags == cls.flags
  {
    var idIndex := ColumnIndex(row, ID_COLUMN);
    var id :- GetLong(row, idIndex);
    var versionIndex := ColumnIndex(row, VERSION_COLUMN);
    var version :- GetLong(row, versionIndex);
    if !cls.hasIdVersionConstructor then Err(IllegalState)
    else SetFields(cls, row, idIndex, versionIndex, cls.declaredFields, Construct(Some(id), version, cls.flags))
  }

  /** The column names of a row. */
  function NamesOf(row: seq<Cell>): (names: set<string>)
    ensures forall i :: 0 <= i < |row| ==> row[i].name in names
    ensures forall n :: n in names ==> exists i :: 0 <= i < |row| && row[i].name == n
  {
    set i | 0 <= i < |row| :: row[i].name
  }

  /** The row a query with `projection` returns for stored values `stored`. */
  function CursorOf(projection: seq<string>, stored: ContentValues): (row: seq<Cell>)
    ensures |row| == |projection|
    ensures forall i :: 0 <= i < |row| ==> row[i].name == projection[i]
    ensures forall i :: 0 <= i < |row| ==>
              row[i].value == (if projection[i] in stored then stored[projection[i]] else NullValue)
  {
    seq(|projection|, i requires 0 <= i < |projection| =>
      Cell(projection[i], if projection[i] in stored then stored[projection[i]] else NullValue))
  }

  /** What `merge` needs of one declared field: an annotation, and for a
      copied column a getter, a setter, and a value the setter accepts. */
  predicate Mergeable(cls: RecordClass, source: DatabaseObject, f: Field) {
    f.column.Some? &&
    (Copied(f) ==> f.name in cls.getters && f.name in cls.setters &&
                   (FieldValue(source, f.name).NullValue? || Fits(f.column.value.columnType, FieldValue(source, f.name))))
  }

  /** Whether the name is the name of one of the copied `fields`. */
  predicate CopiedName(fields: seq<Field>, name: string) {
    exists i :: 0 <= i < |fields| && fields[i].column.Some? && Copied(fields[i]) && fields[i].name == name
  }

  /** The loop of `merge` over `fields`, copying from `source` into `o`. */
  function CopyFields(cls: RecordClass, source: DatabaseObject, fields: seq<Field>, o: DatabaseObject)
    : (r: Result<DatabaseObject>)
    ensures r.Ok? <==> forall i :: 0 <= i < |fields| ==> Mergeable(cls, source, fields[i])
    ensures r.Ok? ==> r.value.id == o.id && r.value.version == o.version && r.value.flags == o.flags
    ensures r.Ok? ==> forall name :: !CopiedName(fields, name) ==> FieldValue(r.value, name) == FieldValue(o, name)
    ensures r.Ok? ==> forall i :: 0 <= i < |fields| && Copied(fields[i]) ==>
              FieldValue(r.value, fields[i].name) == FieldValue(source, fields[i].name)
    decreases |fields|
  {
    if |fields| == 0 then Ok(o)
    else
      var f := fields[0];
      var rest := fields[1..];
      assert forall i :: 1 <= i < |fields| ==> fields[i] == rest[i - 1];
      assert forall name :: CopiedName(rest, name) ==> CopiedName(fields, name) by {
        forall name | CopiedName(rest, name) ensures CopiedName(fields, name) {
          var i :| 0 <= i < |rest| && rest[i].column.Some? && Copied(rest[i]) && rest[i].name == name;
          assert fields[i + 1] == rest[i];
        }
      }
      if f.column.None? then Err(NullPointer)
      else if !Copied(f) then CopyFields(cls, source, rest, o)
      else if f.name !in cls.getters then Err(InvalidClassDefinition)
      else
        var v := FieldValue(source, f.name);
        if f.name !in cls.setters then Err(InvalidClassDefinition)
        else if !(v.NullValue? || Fits(f.column.value.columnType, v)) then Err(IllegalArgument)
        else
          var r := CopyFields(cls, source, rest, o.(values := o.values[f.name := v]));
          assert r.Ok? ==> forall i :: 1 <= i < |fields| && Copied(fields[i]) ==>
                   FieldValue(r.value, fields[i].name) == FieldValue(source, fields[i].name);
          r
  }

  /** `merge(oldObject, newId)`: a fresh object with the new id, the old
      version and every copied field of the old one. */
  function Merge(cls: RecordClass, source: DatabaseObject, newId: Long): (r: Result<DatabaseObject>)
    ensures r.Ok? <==> (cls.hasIdVersionConstructor &&
                        forall i :: 0 <= i < |cls.declaredFields| ==> Mergeable(cls, source, cls.declaredFields[i]))
    ensures r.Ok? ==> r.value.id == Some(newId) && r.value.version == source.version && r.value.flags == cls.flags
    ensures r.Ok? ==> forall i :: 0 <= i < |cls.declaredFields| && Copied(cls.declaredFields[i]) ==>
              FieldValue(r.value, cls.declaredFields[i].name) == FieldValue(source, cls.declaredFields[i].name)
    ensures r.Ok? ==> forall name :: !CopiedName(cls.declaredFields, name) ==> FieldValue(r.value, name) == NullValue
  {
    if !cls.hasIdVersionConstructor then Err(IllegalState)
    else CopyFields(cls, source, cls.declaredFields, Construct(Some(newId), source.version, cls.flags))
  }

  /** A record class the mapper can write and read back: an (id, version)
      constructor, every declared field annotated, copied fields with both a
      getter and a setter, and field names and column names each distinct. */
  predicate MappedClass(cls: RecordClass) {
    var df := cls.declaredFields;
    cls.hasIdVersionConstructor &&
    (forall i :: 0 <= i < |df| ==> df[i].column.Some?) &&
    (forall i :: 0 <= i < |df| && df[i].column.Some? && Copied(df[i]) ==>
       df[i].name in cls.getters && df[i].name in cls.setters) &&
    (forall i, j :: 0 <= i < j < |df| ==> df[i].name != df[j].name && ColumnNameOf(df[i]) != ColumnNameOf(df[j]))
  }

  /** What a written value reads back as: `getInt` turns a null INTEGER into
      0, every other value that fits its column comes back unchanged. */
  function ReadBack(t: ColumnType, v: Value): Value {
    if t == INTEGER && v.NullValue? then IntegerValue(0) else v
  }

  /** Reading back a single cell that holds a value fitting its column. */
  lemma ReadColumnOfWritten(row: seq<Cell>, index: int, t: ColumnType, v: Value)
    requires 0 <= index < |row| && row[index].value == v && Fits(t, v)
    ensures ReadColumn(row, index, t) == Ok(ReadBack(t, v))
  {
    if t == INTEGER && v.IntegerValue? {
      assert IntValue(v.i) == v.i;
    }
  }

  /** A column named in the projection is found in the row built from it. */
  lemma ColumnFound(projection: seq<string>, stored: ContentValues, name: string)
    requires name in projection
    ensures var row := CursorOf(projection, stored);
            var index := ColumnIndex(row, name);
            0 <= index < |row| && row[index].name == name &&
            row[index].value == (if name in stored then stored[name] else NullValue)
  {
    var k :| 0 <= k < |projection| && projection[k] == name;
    assert CursorOf(projection, stored)[k].name == name;
  }

  /** The row a mapped class writes: `_id`, `version`, and each copied
      field's value under its column. */
  lemma WrittenRow(cls: RecordClass, o: DatabaseObject)
    requires MappedClass(cls)
    requires forall i :: 0 <= i < |cls.declaredFields| ==> Writable(cls, o, cls.declaredFields[i])
    ensures GenerateContentValues(cls, o).Ok?
    ensures var stored := GenerateContentValues(cls, o).value;
            stored[ID_COLUMN] == IdValue(o.id) && stored[VERSION_COLUMN] == LongValue(o.version) &&
            forall i :: 0 <= i < |cls.declaredFields| && cls.declaredFields[i].column.Some? && Copied(cls.declaredFields[i]) ==>
              cls.declaredFields[i].column.value.columnName in stored &&
              stored[cls.declaredFields[i].column.value.columnName] == FieldValue(o, cls.declaredFields[i].name)
  {
    var df := cls.declaredFields;
    var acc := map[ID_COLUMN := IdValue(o.id), VERSION_COLUMN := LongValue(o.version)];
    PutFieldsContents(cls, o, df, acc);
    forall i | 0 <= i < |df| && Copied(df[i])
      ensures df[i].column.value.columnName in WrittenColumns(df) && LastInColumn(df, i)
    {
    }
  }

  /** The row holds the column of annotated field `f` apart from `_id` and
      `version`, and `get(Cursor)` reads `v` back from it. */
  predicate ReadsBack(row: seq<Cell>, f: Field, v: Value)
    requires f.column.Some?
  {
    var index := ColumnIndex(row, f.column.value.columnName);
    0 <= index < |row| && index != ColumnIndex(row, ID_COLUMN) && index != ColumnIndex(row, VERSION_COLUMN) &&
    ReadColumn(row, index, f.column.value.columnType) == Ok(ReadBack(f.column.value.columnType, v))
  }

  /** A copied field's column sits in the stored row apart from `_id` and
      `version`, and reads back as the field's value. */
  lemma FieldReadsBack(cls: RecordClass, o: DatabaseObject, projection: seq<string>, i: int)
    requires MappedClass(cls)
    requires forall i :: 0 <= i < |cls.declaredFields| ==> Writable(cls, o, cls.declaredFields[i])
    requires ID_COLUMN in projection && VERSION_COLUMN in projection
    requires forall c :: c in WrittenColumns(cls.declaredFields) ==> c in projection
    requires 0 <= i < |cls.declaredFields| && cls.declaredFields[i].column.Some? && Copied(cls.declaredFields[i])
    ensures GenerateContentValues(cls, o).Ok?
    ensures ReadsBack(CursorOf(projection, GenerateContentValues(cls, o).value), cls.declaredFields[i],
                      FieldValue(o, cls.declaredFields[i].name))
  {
    var df := cls.declaredFields;
    WrittenRow(cls, o);
    var stored := GenerateContentValues(cls, o).value;
    var row := CursorOf(projection, stored);
    var c := df[i].column.value.columnName;
    assert c in WrittenColumns(df);
    ColumnFound(projection, stored, ID_COLUMN);
    ColumnFound(projection, stored, VERSION_COLUMN);
    ColumnFound(projection, stored, c);
    ReadColumnOfWritten(row, ColumnIndex(row, c), df[i].column.value.columnType, FieldValue(o, df[i].name));
  }

  /** One field set by a successful loop: the last field of its name holds
      what its column reads as. */
  lemma SetFieldValueAt(cls: RecordClass, row: seq<Cell>, idIndex: int, versionIndex: int,
                        fields: seq<Field>, o: DatabaseObject, i: int)
    requires SetFields(cls, row, idIndex, versionIndex, fields, o).Ok?
    requires 0 <= i < |fields| && LastWithName(fields, i)
    requires var index := ColumnIndex(row, fields[i].column.value.columnName); index != idIndex && index != versionIndex
    ensures FieldValue(SetFields(cls, row, idIndex, versionIndex, fields, o).value, fields[i].name)
         == ReadColumn(row, ColumnIndex(row, fields[i].column.value.columnName), fields[i].column.value.columnType).value
  {
    SetFieldsValues(cls, row, idIndex, versionIndex, fields, o);
  }

  /** `get(Cursor)` on a row whose copied columns all read back as the
      values of `o`: it succeeds, keeps id and version, and sets those values. */
  lemma ReadMapped(cls: RecordClass, o: DatabaseObject, row: seq<Cell>)
    requires MappedClass(cls)
    requires ID_COLUMN in NamesOf(row) && VERSION_COLUMN in NamesOf(row)
    requires forall i :: 0 <= i < |cls.declaredFields| && cls.declaredFields[i].column.Some? && Copied(cls.declaredFields[i]) ==>
               ReadsBack(row, cls.declaredFields[i], FieldValue(o, cls.declaredFields[i].name))
    ensures var r := ReadObject(cls, row);
            r.Ok? && r.value.id == Some(AsLong(row[ColumnIndex(row, ID_COLUMN)].value)) &&
            r.value.version == AsLong(row[ColumnIndex(row, VERSION_COLUMN)].value) &&
            forall i :: 0 <= i < |cls.declaredFields| && cls.declaredFields[i].column.Some? && Copied(cls.declaredFields[i]) ==>
              FieldValue(r.value, cls.declaredFields[i].name)
                == ReadBack(cls.declaredFields[i].column.value.columnType, FieldValue(o, cls.declaredFields[i].name))
  {
    var df := cls.declaredFields;
    var idIndex := ColumnIndex(row, ID_COLUMN);
    var versionIndex := ColumnIndex(row, VERSION_COLUMN);
    assert idIndex >= 0 && versionIndex >= 0;
    var start := Construct(Some(AsLong(row[idIndex].value)), AsLong(row[versionIndex].value), cls.flags);
    assert forall i :: 0 <= i < |df| ==> Readable(cls, row, idIndex, versionIndex, df[i]);
    assert ReadObject(cls, row) == SetFields(cls, row, idIndex, versionIndex, df, start);
    var r := SetFields(cls, row, idIndex, versionIndex, df, start).value;
    forall i | 0 <= i < |df| && df[i].column.Some? && Copied(df[i])
      ensures FieldValue(r, df[i].name) == ReadBack(df[i].column.value.columnType, FieldValue(o, df[i].name))
    {
      assert LastWithName(df, i);
      SetFieldValueAt(cls, row, idIndex, versionIndex, df, start, i);
    }
  }

  /** The mapper's round trip: writing an object with `generateContentValues`,
      storing the row and reading it back with `get(Cursor)` through any
      projection that names `_id`, `version` and every written column gives
      the same id, version and copied field values, except that a null
      INTEGER field comes back as 0. */
  lemma RoundTrip(cls: RecordClass, o: DatabaseObject, projection: seq<string>)
    requires MappedClass(cls) && o.id.Some?
    requires forall i :: 0 <= i < |cls.declaredFields| ==> Writable(cls, o, cls.declaredFields[i])
    requires ID_COLUMN in projection && VERSION_COLUMN in projection
    requires forall c :: c in WrittenColumns(cls.declaredFields) ==> c in projection
    ensures GenerateContentValues(cls, o).Ok?
    ensures var r := ReadObject(cls, CursorOf(projection, GenerateContentValues(cls, o).value));
            r.Ok? && r.value.id == o.id && r.value.version == o.version && r.value.flags == cls.flags &&
            forall i :: 0 <= i < |cls.declaredFields| && cls.declaredFields[i].column.Some? && Copied(cls.declaredFields[i]) ==>
              FieldValue(r.value, cls.declaredFields[i].name)
                == ReadBack(cls.declaredFields[i].column.value.columnType, FieldValue(o, cls.declaredFields[i].name))
  {
    var df := cls.declaredFields;
    WrittenRow(cls, o);
    var stored := GenerateContentValues(cls, o).value;
    var row := CursorOf(projection, stored);
    ColumnFound(projection, stored, ID_COLUMN);
    ColumnFound(projection, stored, VERSION_COLUMN);
    forall i | 0 <= i < |df| && df[i].column.Some? && Copied(df[i])
      ensures ReadsBack(row, df[i], FieldValue(o, df[i].name))
    {
      FieldReadsBack(cls, o, projection, i);
    }
    ReadMapped(cls, o, row);
  }
}
