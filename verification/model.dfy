/** The record side of the library: column annotations, field values,
    record classes as explicit field lists, database objects and sort orders. */
module Model {
  import opened Wrappers
  import opened JavaText

  /** The declared kind of an annotated field. */
  datatype ColumnType = INTEGER | LONG | STRING

  /** A field value or a stored cell: a boxed Integer, a boxed Long, a String, or null. */
  datatype Value = NullValue | IntegerValue(i: Int32) | LongValue(l: Long) | StringValue(s: string)

  /** The `@Column` annotation of a field. */
  datatype Column = Column(columnName: string, columnType: ColumnType)

  /** A declared field: its Java name and its `@Column` annotation, if it has one. */
  datatype Field = Field(name: string, column: Option<Column>)

  /** The two overridable "managed externally" answers of a record class:
      whether the id and whether the version are managed outside the
      library. The older `Manager`'s single `isManagedExternally()` is read
      as the id flag. */
  datatype Flags = Flags(idManagedExternally: bool, versionManagedExternally: bool)

  /** The base class answers `false` to both questions. */
  const DEFAULT_FLAGS := Flags(false, false)

  /** What reflection finds on a record class: the table it maps to, the
      fields it declares itself, the fields of its superclasses (nearest
      first), the fields that have a no-argument getter, the fields that have
      a setter taking the boxed type of their column, whether an (id, version)
      constructor exists, and its flags. */
  datatype RecordClass = RecordClass(
    tableName: string,
    declaredFields: seq<Field>,
    inheritedFields: seq<Field>,
    getters: set<string>,
    setters: set<string>,
    hasIdVersionConstructor: bool,
    flags: Flags)

  /** `BaseColumns._ID` */
  const ID_COLUMN := "_id"
  /** `Contract.Columns.VERSION` */
  const VERSION_COLUMN := "version"

  /** A stored object: its id (null before the first save), its version
      (never null here), the values of its own fields keyed by field name
      (an absent name reads as null), and the flags of its class. */
  datatype DatabaseObject = DatabaseObject(id: Option<Long>, version: Long, values: map<string, Value>, flags: Flags)

  /** The value a getter returns for field `name`. */
  function FieldValue(o: DatabaseObject, name: string): Value {
    if name in o.values then o.values[name] else NullValue
  }

  /** The one-argument constructor: version 1, no field values, default flags. */
  function NewObject(id: Option<Long>): (o: DatabaseObject)
    ensures o.id == id && o.version == 1
    ensures o.flags == DEFAULT_FLAGS && forall name :: FieldValue(o, name) == NullValue
  {
    DatabaseObject(id, 1, map[], DEFAULT_FLAGS)
  }

  /** The two-argument constructor, as used by reflection: the given id and
      version, fields still null, and the flags of the class. */
  function Construct(id: Option<Long>, version: Long, flags: Flags): (o: DatabaseObject)
    ensures o.id == id && o.version == version && o.flags == flags
    ensures forall name :: FieldValue(o, name) == NullValue
  {
    DatabaseObject(id, version, map[], flags)
  }

  /** `setVersion` of the older generation: only the version changes. */
  function SetVersion(o: DatabaseObject, version: Long): (r: DatabaseObject)
    ensures r.version == version
    ensures r.id == o.id && r.flags == o.flags
    ensures forall name :: FieldValue(r, name) == FieldValue(o, name)
  {
    o.(version := version)
  }

  /** The sort direction of an order-by item. */
  datatype Order = ASCENDING | DESCENDING

  /** `Order.getKeyword()`. */
  function Keyword(order: Order): (k: string)
    ensures order == ASCENDING <==> k == "ASC"
    ensures order == DESCENDING <==> k == "DESC"
  {
    match order
    case ASCENDING => "ASC"
    case DESCENDING => "DESC"
  }
}
