/** The older generation's addressing classes, `Contract` and `DatabaseInfo`.
    Both draw two consecutive codes per instance from a static counter and
    register their table in one static matcher; that static state is passed
    explicitly here as a `Registry`. */
module LegacyContracts {
  import opened JavaText
  import opened Uris
  import opened UriMatchers
  import opened Model

  /** A class's static state: the next free code and the shared matcher. */
  datatype Registry = Registry(nextAvailableTableCode: int, matcher: UriMatcher)

  /** The state when the class is loaded. */
  const INITIAL_REGISTRY := Registry(0, EMPTY)

  /** The registry with `table` under `code` and `table/#` under `idCode`. */
  function RegisterTable(reg: Registry, authority: string, table: string, code: int, idCode: int): Registry {
    reg.(matcher := AddUri(AddUri(reg.matcher, authority, table, code), authority, table + "/#", idCode))
  }

  /** What `setupUriMatcher` adds: `table` under `code`, then `table/#` under `code + 1`. */
  function TableRegistrations(authority: string, table: string, code: int): (r: seq<Registration>)
    ensures |r| == 2
  {
    [Registration(authority, table, code),
     Registration(authority, table + "/#", code + 1)]
  }

  /** An older `Contract` instance. */
  datatype LegacyContract = LegacyContract(
    authority: string, tableName: string, objectCode: int, objectIdCode: int, columnNames: seq<string>)

  /** The constructor: two post-increments of the counter, then the two
      registrations of `setupUriMatcher`. */
  function NewContract(reg: Registry, authority: string, tableName: string, columnNames: seq<string>)
    : (r: (LegacyContract, Registry))
    ensures r.0.objectCode == reg.nextAvailableTableCode
    ensures r.0.objectIdCode == r.0.objectCode + 1
    ensures r.1.nextAvailableTableCode == reg.nextAvailableTableCode + 2
    ensures r.1.matcher.registrations == reg.matcher.registrations + TableRegistrations(authority, tableName, r.0.objectCode)
  {
    var code := reg.nextAvailableTableCode;
    var c := LegacyContract(authority, tableName, code, code + 1, columnNames);
    (c, RegisterTable(reg.(nextAvailableTableCode := code + 2), authority, tableName, code, code + 1))
  }

  /** `setupProjectionMap`: each column name mapped to itself. */
  function ProjectionMap(c: LegacyContract): (m: map<string, string>)
    ensures forall k :: k in m <==> k in c.columnNames
    ensures forall k :: k in m ==> m[k] == k
  {
    map k | k in c.columnNames :: k
  }

  /** `getContentUri()`. */
  function GetContentUri(c: LegacyContract): Uri {
    ContentUri(c.authority, c.tableName)
  }

  /** `getContentType()`: the directory MIME type only. */
  function GetContentType(c: LegacyContract): string {
    "vnd.android.cursor.dir/vnd.wit." + c.tableName
  }

  /** The private `uriMatches(uri, onObject, onObjectId)` against the shared matcher. */
  function UriMatchesWith(reg: Registry, c: LegacyContract, u: Uri, onObject: bool, onObjectId: bool): bool {
    var code := Match(reg.matcher, u);
    (onObject && code == c.objectCode) || (onObjectId && code == c.objectIdCode)
  }

  /** A contract to build: authority, table name, column names. */
  datatype Spec = Spec(authority: string, tableName: string, columnNames: seq<string>)

  /** Constructing contracts one after another, threading the static state. */
  function BuildAll(reg: Registry, specs: seq<Spec>): (r: (seq<LegacyContract>, Registry))
    ensures |r.0| == |specs|
    ensures r.1.nextAvailableTableCode == reg.nextAvailableTableCode + 2 * |specs|
    ensures forall i :: 0 <= i < |specs| ==>
              r.0[i] == LegacyContract(specs[i].authority, specs[i].tableName,
                                       reg.nextAvailableTableCode + 2 * i,
                                       reg.nextAvailableTableCode + 2 * i + 1, specs[i].columnNames)
    decreases |specs|
  {
    if |specs| == 0 then ([], reg)
    else
      var (first, reg1) := NewContract(reg, specs[0].authority, specs[0].tableName, specs[0].columnNames);
      var (rest, reg2) := BuildAll(reg1, specs[1..]);
      ([first] + rest, reg2)
  }

  /** The registrations made for `specs` when codes start at `code`. */
  function SpecRegistrations(specs: seq<Spec>, code: int): (r: seq<Registration>)
    ensures |r| == 2 * |specs|
    decreases |specs|
  {
    if |specs| == 0 then []
    else TableRegistrations(specs[0].authority, specs[0].tableName, code) + SpecRegistrations(specs[1..], code + 2)
  }

  /** Building appends the registrations of the specs, in order. */
  lemma {:induction false} BuildAllRegisters(reg: Registry, specs: seq<Spec>)
    ensures BuildAll(reg, specs).1.matcher.registrations
         == reg.matcher.registrations + SpecRegistrations(specs, reg.nextAvailableTableCode)
    decreases |specs|
  {
    if |specs| > 0 {
      var step := NewContract(reg, specs[0].authority, specs[0].tableName, specs[0].columnNames);
      var reg1 := step.1;
      var head := TableRegistrations(specs[0].authority, specs[0].tableName, reg.nextAvailableTableCode);
      assert reg1.matcher.registrations == reg.matcher.registrations + head;
      assert BuildAll(reg, specs).1 == BuildAll(reg1, specs[1..]).1;
      BuildAllRegisters(reg1, specs[1..]);
      assert SpecRegistrations(specs, reg.nextAvailableTableCode)
          == head + SpecRegistrations(specs[1..], reg1.nextAvailableTableCode);
      var a, b, c := reg.matcher.registrations, head, SpecRegistrations(specs[1..], reg1.nextAvailableTableCode);
      assert (a + b) + c == a + (b + c);
    }
  }

  /** The `k`-th spec's two registrations sit at positions 2k and 2k+1. */
  lemma {:induction false} SpecRegistrationAt(specs: seq<Spec>, code: int, k: int)
    requires 0 <= k < |specs|
    ensures SpecRegistrations(specs, code)[2 * k]
         == Registration(specs[k].authority, specs[k].tableName, code + 2 * k)
    ensures SpecRegistrations(specs, code)[2 * k + 1]
         == Registration(specs[k].authority, specs[k].tableName + "/#", code + 2 * k + 1)
    decreases k
  {
    if k > 0 {
      SpecRegistrationAt(specs[1..], code + 2, k - 1);
      assert specs[1..][k - 1] == specs[k];
    }
  }

  /** Codes of different contracts never coincide, and each contract's id code
      is its object code plus one. */
  lemma CodesDistinct(reg: Registry, specs: seq<Spec>, i: int, j: int)
    requires 0 <= i < j < |specs|
    ensures var cs := BuildAll(reg, specs).0;
            cs[i].objectIdCode == cs[i].objectCode + 1 &&
            {cs[i].objectCode, cs[i].objectIdCode} !! {cs[j].objectCode, cs[j].objectIdCode}
  {
    var cs := BuildAll(reg, specs).0;
    var base := reg.nextAvailableTableCode;
    CodePairs(cs[i], cs[j], base + 2 * i, base + 2 * j);
  }

  /** Two contracts coded at consecutive pairs from different even offsets
      share no code. */
  lemma CodePairs(a: LegacyContract, b: LegacyContract, x: int, y: int)
    requires x + 2 <= y
    requires a.objectCode == x && a.objectIdCode == x + 1
    requires b.objectCode == y && b.objectIdCode == y + 1
    ensures {a.objectCode, a.objectIdCode} !! {b.objectCode, b.objectIdCode}
  {
  }

  /** Tables that the matcher reads literally and that no two specs share. */
  predicate DistinctTables(specs: seq<Spec>) {
    (forall i :: 0 <= i < |specs| ==> LiteralTable(specs[i].tableName)) &&
    forall i, j :: 0 <= i < j < |specs| ==>
      (specs[i].authority, specs[i].tableName) != (specs[j].authority, specs[j].tableName)
  }

  /** What the two registrations of the `k`-th spec accept. */
  lemma SpecPatterns(specs: seq<Spec>, code: int, u: Uri, k: int)
    requires 0 <= k < |specs| && LiteralTable(specs[k].tableName)
    ensures var rs := SpecRegistrations(specs, code);
            (Matches(rs[2 * k], u) <==> u.authority == specs[k].authority && u.path == [specs[k].tableName]) &&
            (Matches(rs[2 * k + 1], u) <==> u.authority == specs[k].authority && |u.path| == 2 &&
                                             u.path[0] == specs[k].tableName && AllDigits(u.path[1]))
  {
    SpecRegistrationAt(specs, code, k);
    TablePatterns(specs[k].authority, specs[k].tableName, u, code + 2 * k, 0);
    TablePatterns(specs[k].authority, specs[k].tableName, u, code + 2 * k + 1, 0);
  }

  /** Built from the initial state, the matcher holds exactly the specs' registrations. */
  lemma BuiltRegistrations(specs: seq<Spec>)
    ensures BuildAll(INITIAL_REGISTRY, specs).1.matcher.registrations == SpecRegistrations(specs, 0)
  {
    BuildAllRegisters(INITIAL_REGISTRY, specs);
  }

  /** A URI of the `i`-th spec's table, with one or two segments, is
      rejected by both registrations of every other spec and by the `i`-th
      spec's registration of the other shape; `second` picks the `table/#` one. */
  lemma OtherSlotRejects(specs: seq<Spec>, i: int, h: int, second: bool, u: Uri)
    requires DistinctTables(specs) && 0 <= i < |specs| && 0 <= h < |specs|
    requires u.authority == specs[i].authority && 1 <= |u.path| <= 2 && u.path[0] == specs[i].tableName
    requires h == i ==> second == (|u.path| == 1)
    ensures !Matches(SpecRegistrations(specs, 0)[if second then 2 * h + 1 else 2 * h], u)
  {
    SpecPatterns(specs, 0, u, h);
    if h != i {
      assert (specs[h].authority, specs[h].tableName) != (specs[i].authority, specs[i].tableName);
    }
  }

  /** A position in a sequence of pairs: the pair's index and whether it is the second of the two. */
  function Slot(k: nat): (r: (nat, bool))
    ensures k == if r.1 then 2 * r.0 + 1 else 2 * r.0
  {
    if k < 2 then (0, k == 1) else var p := Slot(k - 2); (p.0 + 1, p.1)
  }

  /** Every registration but the one of the URI's own shape rejects it. */
  lemma OthersReject(specs: seq<Spec>, i: int, u: Uri)
    requires DistinctTables(specs) && 0 <= i < |specs|
    requires u.authority == specs[i].authority && 1 <= |u.path| <= 2 && u.path[0] == specs[i].tableName
    ensures var rs := SpecRegistrations(specs, 0);
            var own := if |u.path| == 1 then 2 * i else 2 * i + 1;
            forall k :: 0 <= k < |rs| && k != own ==> !Matches(rs[k], u)
  {
    var rs := SpecRegistrations(specs, 0);
    var own := if |u.path| == 1 then 2 * i else 2 * i + 1;
    forall k | 0 <= k < |rs| && k != own
      ensures !Matches(rs[k], u)
    {
      var slot := Slot(k);
      OtherSlotRejects(specs, i, slot.0, slot.1, u);
    }
  }

  /** The matcher answers the `i`-th spec's collection URI with code 2i. */
  lemma {:induction false} CollectionCode(specs: seq<Spec>, i: int)
    requires DistinctTables(specs) && 0 <= i < |specs|
    ensures MatchIn(SpecRegistrations(specs, 0), ContentUri(specs[i].authority, specs[i].tableName)) == 2 * i
  {
    var rs := SpecRegistrations(specs, 0);
    var coll := ContentUri(specs[i].authority, specs[i].tableName);
    SpecPatterns(specs, 0, coll, i);
    OthersReject(specs, i, coll);
    SpecRegistrationAt(specs, 0, i);
    MatchUnique(rs, coll, 2 * i);
  }

  /** The matcher answers the `i`-th spec's item URI of a non-negative id with code 2i+1. */
  lemma {:induction false} ItemCode(specs: seq<Spec>, i: int, id: Long)
    requires DistinctTables(specs) && 0 <= i < |specs| && id >= 0
    ensures MatchIn(SpecRegistrations(specs, 0),
                    WithAppendedId(ContentUri(specs[i].authority, specs[i].tableName), id)) == 2 * i + 1
  {
    var rs := SpecRegistrations(specs, 0);
    var item := WithAppendedId(ContentUri(specs[i].authority, specs[i].tableName), id);
    assert item.path == [specs[i].tableName, Decimal(id)];
    assert AllDigits(Decimal(id));
    SpecPatterns(specs, 0, item, i);
    OthersReject(specs, i, item);
    SpecRegistrationAt(specs, 0, i);
    MatchUnique(rs, item, 2 * i + 1);
  }

  /** Built from the initial state with distinct tables, every contract
      recognises its own collection URI as an object URI and the item URI of
      any non-negative id as an object-id URI, and no other contract claims
      either of them. */
  lemma {:induction false} OwnUrisMatch(specs: seq<Spec>, i: int, j: int, id: Long)
    requires DistinctTables(specs)
    requires 0 <= i < |specs| && 0 <= j < |specs| && id >= 0
    ensures var built := BuildAll(INITIAL_REGISTRY, specs);
            var cs := built.0;
            var reg := built.1;
            var coll := GetContentUri(cs[i]);
            var item := WithAppendedId(coll, id);
            UriMatchesWith(reg, cs[i], coll, true, false) &&
            !UriMatchesWith(reg, cs[i], coll, false, true) &&
            UriMatchesWith(reg, cs[i], item, false, true) &&
            !UriMatchesWith(reg, cs[i], item, true, false) &&
            (j != i ==> !UriMatchesWith(reg, cs[j], coll, true, true) && !UriMatchesWith(reg, cs[j], item, true, true))
  {
    var built := BuildAll(INITIAL_REGISTRY, specs);
    var cs, reg := built.0, built.1;
    BuiltRegistrations(specs);
    MatcherCodes(specs, i, id, reg.matcher);
    assert cs[i].objectCode == 2 * i && cs[i].objectIdCode == 2 * i + 1;
    assert cs[j].objectCode == 2 * j && cs[j].objectIdCode == 2 * j + 1;
  }

  /** A matcher holding the specs' registrations answers the `i`-th
      table's collection URI with 2i and its item URIs with 2i+1. */
  lemma MatcherCodes(specs: seq<Spec>, i: int, id: Long, m: UriMatcher)
    requires DistinctTables(specs) && 0 <= i < |specs| && id >= 0
    requires m.registrations == SpecRegistrations(specs, 0)
    ensures Match(m, ContentUri(specs[i].authority, specs[i].tableName)) == 2 * i
    ensures Match(m, WithAppendedId(ContentUri(specs[i].authority, specs[i].tableName), id)) == 2 * i + 1
  {
    CollectionCode(specs, i);
    ItemCode(specs, i, id);
  }

  /** Constructing a second contract for the same authority and table takes
      over both URIs: the earlier contract no longer matches its own
      collection URI. */
  lemma LaterRegistrationWins(a: string, t: string, cols: seq<string>)
    requires LiteralTable(t)
    ensures var (cs, reg) := BuildAll(INITIAL_REGISTRY, [Spec(a, t, cols), Spec(a, t, cols)]);
            !UriMatchesWith(reg, cs[0], GetContentUri(cs[0]), true, true) &&
            UriMatchesWith(reg, cs[1], GetContentUri(cs[0]), true, false)
  {
    var (cs, reg) := BuildAll(INITIAL_REGISTRY, [Spec(a, t, cols), Spec(a, t, cols)]);
    BuildAllRegisters(INITIAL_REGISTRY, [Spec(a, t, cols), Spec(a, t, cols)]);
    var coll := GetContentUri(cs[0]);
    TablePatterns(a, t, coll, 2, 0);
    assert Matches(reg.matcher.registrations[2], coll);
    assert !Matches(reg.matcher.registrations[3], coll) by {
      TablePatterns(a, t, coll, 3, 0);
    }
  }

  /** The `DatabaseBaseColumns` a `DatabaseInfo` hands out: its authority and table. */
  datatype BaseColumns = BaseColumns(authority: string, tableName: string)

  /** `DatabaseBaseColumns.ID` */
  const BASE_COLUMNS_ID := "_id"

  /** `DatabaseBaseColumns.getContentType()`. */
  function BaseContentType(b: BaseColumns): string {
    "vnd.android.cursor.dir/vnd.wit." + b.tableName
  }

  /** `DatabaseBaseColumns.getContentUri()`. */
  function BaseContentUri(b: BaseColumns): Uri {
    ContentUri(b.authority, b.tableName)
  }

  /** Different tables have different content types, and one-segment
      tables under different authorities or names different content URIs. */
  lemma BaseColumnsDistinct(a: BaseColumns, b: BaseColumns)
    requires IsSegment(a.tableName) && IsSegment(b.tableName)
    ensures BaseContentUri(a) == BaseContentUri(b) <==> a == b
    ensures BaseContentType(a) == BaseContentType(b) <==> a.tableName == b.tableName
  {
    var prefix := "vnd.android.cursor.dir/vnd.wit.";
    if BaseContentType(a) == BaseContentType(b) {
      assert a.tableName == BaseContentType(a)[|prefix|..];
      assert b.tableName == BaseContentType(b)[|prefix|..];
    }
  }

  /** An older `DatabaseInfo` instance; its column list and projection map
      are filled by the subclass after construction. */
  datatype DatabaseInfo = DatabaseInfo(
    authority: string, tableName: string, objectCode: int, objectIdCode: int,
    columnNames: seq<string>, projectionMap: map<string, string>, columns: BaseColumns)

  /** The constructor: two codes, empty column list and projection map, no
      registration yet. */
  function NewDatabaseInfo(reg: Registry, authority: string, tableName: string, columns: BaseColumns)
    : (r: (DatabaseInfo, Registry))
    ensures r.0.objectIdCode == r.0.objectCode + 1 && r.0.objectCode == reg.nextAvailableTableCode
    ensures r.1 == reg.(nextAvailableTableCode := reg.nextAvailableTableCode + 2)
    ensures r.0.columnNames == [] && r.0.projectionMap == map[]
  {
    var code := reg.nextAvailableTableCode;
    (DatabaseInfo(authority, tableName, code, code + 1, [], map[], columns),
     reg.(nextAvailableTableCode := code + 2))
  }

  /** `addColumnName`: append. */
  function AddColumnName(info: DatabaseInfo, name: string): DatabaseInfo {
    info.(columnNames := info.columnNames + [name])
  }

  /** Adding names one at a time keeps their order and their repetitions. */
  lemma {:induction false} AddColumnNamesAppends(info: DatabaseInfo, names: seq<string>)
    ensures AddColumnNames(info, names).columnNames == info.columnNames + names
    ensures AddColumnNames(info, names).projectionMap == info.projectionMap
    decreases |names|
  {
    if |names| > 0 {
      AddColumnNamesAppends(AddColumnName(info, names[0]), names[1..]);
      assert info.columnNames + [names[0]] + names[1..] == info.columnNames + names;
    }
  }

  function AddColumnNames(info: DatabaseInfo, names: seq<string>): DatabaseInfo
    decreases |names|
  {
    if |names| == 0 then info else AddColumnNames(AddColumnName(info, names[0]), names[1..])
  }

  /** `setupProjectionMap`: an identity entry for every column name, other entries kept. */
  function SetupProjectionMap(info: DatabaseInfo): (r: DatabaseInfo)
    ensures forall k :: k in r.projectionMap <==> k in info.projectionMap || k in info.columnNames
    ensures forall k :: k in info.columnNames ==> r.projectionMap[k] == k
    ensures forall k :: k in info.projectionMap && k !in info.columnNames ==> r.projectionMap[k] == info.projectionMap[k]
    ensures r.columnNames == info.columnNames
  {
    var names := set n | n in info.columnNames;
    info.(projectionMap := map k | k in info.projectionMap.Keys + names ::
                             if k in info.columnNames then k else info.projectionMap[k])
  }

  /** `setupUriMatcher`: register `table` and `table/#` in the shared matcher. */
  function SetupUriMatcher(reg: Registry, info: DatabaseInfo): Registry {
    RegisterTable(reg, info.authority, info.tableName, info.objectCode, info.objectIdCode)
  }

  function InfoMatchesWith(reg: Registry, info: DatabaseInfo, u: Uri, onObject: bool, onObjectId: bool): bool {
    var code := Match(reg.matcher, u);
    (onObject && code == info.objectCode) || (onObjectId && code == info.objectIdCode)
  }

  /** Object and object-id matching of one info never both hold. */
  lemma InfoMatchesExclusive(reg: Registry, info: DatabaseInfo, u: Uri)
    requires info.objectIdCode == info.objectCode + 1
    ensures !(InfoMatchesWith(reg, info, u, true, false) && InfoMatchesWith(reg, info, u, false, true))
  {
  }

  /** After `setupUriMatcher` on a fresh registry, the info's own collection
      URI matches as an object and its item URIs of non-negative ids as object ids. */
  lemma InfoOwnUris(info: DatabaseInfo, id: Long)
    requires LiteralTable(info.tableName) && info.objectCode >= 0 && info.objectIdCode == info.objectCode + 1
    ensures var reg := SetupUriMatcher(INITIAL_REGISTRY, info);
            var coll := ContentUri(info.authority, info.tableName);
            InfoMatchesWith(reg, info, coll, true, false) &&
            InfoMatchesWith(reg, info, WithAppendedId(coll, id), false, true) == (id >= 0)
  {
    var reg := SetupUriMatcher(INITIAL_REGISTRY, info);
    var rs := reg.matcher.registrations;
    var coll := ContentUri(info.authority, info.tableName);
    var item := WithAppendedId(coll, id);
    TablePatterns(info.authority, info.tableName, coll, info.objectCode, id);
    TablePatterns(info.authority, info.tableName, item, info.objectCode, id);
    TablePatterns(info.authority, info.tableName, coll, info.objectIdCode, id);
    assert item.path == [info.tableName, Decimal(id)];
    MatchUnique(rs, coll, 0);
    if id >= 0 {
      MatchUnique(rs, item, 1);
    } else {
      MatchNone(rs, item);
    }
  }
}
