# database-library, modelled in Dafny

This project models the core of database-library, a small object–relational
layer for Android. Record classes extend `DatabaseObject`, which gives them an
`_id` and a `version`. Their annotated fields are stored in one SQLite table
per class. The table is reached through a `ContentProvider`. The library comes
in two generations, both kept in the repository, and both are modelled.

- **The newer generation** has three parts:
  - `Contract<T>` derives everything from a record class: the content URIs,
    the MIME types, the `CREATE TABLE` statement, the projection map, and a
    lazily prepared `UriMatcher`.
  - `SimpleContentProvider` routes each URI to one of its contracts and turns
    the request into a SQLite call. It also runs `applyBatch` and decides which
    URIs to notify.
  - `Manager<T>` maps objects to rows by reflection (`generateContentValues`,
    `get(Cursor)`, `merge`). It saves single objects with an optimistic version
    check (`performSave`, `performUpdate`, `save`). It reconciles collections by
    a diff (`categorize`) followed by one batch (`apply`, `replace`,
    `save(Collection)`). It also builds the sort-order, group-by, `IN`-list and
    delete clauses as text.
- **The older generation** has a different shape:
  - `Contract` and `DatabaseInfo` draw two codes each from a static counter and
    register their tables in one static matcher.
  - Its `SimpleContentProvider` routes over the `DatabaseInfo` list.
  - Its `Manager` has unconditional saves and updates, and a `replace` keyed by
    `SimpleIdWrapper`.

The database is modelled as a `Store`, a map from row id to the object stored
under it. Reflection is modelled as a `RecordClass` value: the table name, the
declared and inherited fields with their `@Column` annotations, which getters
and setters exist, whether the (id, version) constructor exists, and the two
"managed externally" flags. The static state of the older classes is passed
explicitly as a `Registry`. The newer contract's lazy matcher is a state,
`Unprepared | Prepared(authority)`. The row id an insert into the `Store`
gets is computed (`Managers.StoreInsert`); only the two providers' `insert`
functions, which stand apart from any table, take the row id as a parameter.
Three things that only the environment or a subclass decides are parameters
of the model:
- whether a `RemoteException` happened;
- the rows another writer stores between a lookup and an insert;
- whether the older `Manager`'s abstract `generateContentValues` puts the
  object's `_id` among the values (`writesId`), which decides where its
  saves and updates store a row.

Java's `long` and `int` are subset types of `int`. Their truncations and
wrap-arounds are written out (`IntValue`, `Increment`). Exceptions are `Err`
values of a `Result`.

Module by module:
- `JavaText` covers the `long` and `int` types, decimal text, `parseLong` and
  splitting.
- `Uris`, `UriMatchers` and `Scans` model URIs, Android's matcher, and the two
  kinds of provider loop (first match with `break`, last match without).
- `Model` and `Ids` model records and `SimpleIdWrapper`.
- `Contracts` and `LegacyContracts` model the two generations of contract.
- `Providers` and `LegacyProviders` model the two providers. `SqliteCalls`
  holds the calls they make.
- `RecordMapper`, `Clauses`, `Managers`, `Batches`, `Reconcile` and
  `Replacing` model the newer `Manager`. `LegacyManagers` models the older one.

## Model


| member | source | states |
|---|---|---|
| JavaText.IntValue | DatabaseLibrary/src/com/wit/databaselibrary/service/Manager.java:447-465 | `Long.intValue()` agrees with the `long` modulo 2^32 and is the identity inside the `int` range |
| JavaText.ParseDecimal | DatabaseLibrary/src/main/java/com/wit/databaselibrary/service/Manager.java:871-881 | `Long.parseLong` of the decimal text of any `long` gives that `long` back (the parse `performSave` applies to the returned URI's last segment) |
| JavaText.DecimalInjective | DatabaseLibrary/src/main/java/com/wit/databaselibrary/contentprovider/contract/Contract.java:171-176 | different ids have different decimal texts, so different item URIs |
| Uris.ContentUri | DatabaseLibrary/src/main/java/com/wit/databaselibrary/contentprovider/contract/Contract.java:164-169 | parsing `content://authority/table` gives scheme `content`, that authority, and the table as the only path segment |
| Uris.ParsedItemUri | DatabaseLibrary/src/main/java/com/wit/databaselibrary/contentprovider/contract/Contract.java:171-176 | parsing the collection text with `"/" + id` appended is the same URI as `withAppendedId` on the parsed collection URI |
| Uris.ContentUriText | DatabaseLibrary/src/main/java/com/wit/databaselibrary/contentprovider/contract/Contract.java:184-190 | the collection URI reads back as `"content://" + authority + "/" + table` |
| Uris.ItemUriText | DatabaseLibrary/src/main/java/com/wit/databaselibrary/contentprovider/contract/Contract.java:171-176 | the item URI reads back as the collection text followed by `"/" + id` |
| Uris.ItemUriId | DatabaseLibrary/src/main/java/com/wit/databaselibrary/service/Manager.java:104-112 | the last segment of an item URI is the id's text and parses back to the id |
| UriMatchers.AddUri | DatabaseLibrary/src/main/java/com/wit/databaselibrary/contentprovider/contract/Contract.java:276-281 | `addURI` adds one registration and keeps the earlier ones in order |
| UriMatchers.MatchIn | DatabaseLibrary/src/main/java/com/wit/databaselibrary/contentprovider/contract/Contract.java:287-305 | `match` gives the code of the last registration that matches, and `NO_MATCH` exactly when none does |
| UriMatchers.MatchUnique | DatabaseLibrary/src/main/java/com/wit/databaselibrary/contentprovider/contract/Contract.java:287-305 | a URI that exactly one registration matches gets that registration's code |
| UriMatchers.TablePatterns | DatabaseLibrary/src/main/java/com/wit/databaselibrary/contentprovider/contract/Contract.java:276-281 | pattern `t` accepts exactly the collection URI; `t/#` accepts exactly URIs with one more all-digit segment, so the item URI of an id exactly when the id is non-negative |
| Scans.FirstWhere | DatabaseLibrary/src/main/java/com/wit/databaselibrary/contentprovider/SimpleContentProvider.java:188-206 | the loop with `break` ends on the first match and finds none only when nothing matches |
| Scans.LastWhereIsLast | DatabaseLibrary/src/main/java/com/wit/databaselibrary/contentprovider/SimpleContentProvider.java:136-154 | the loop without `break` ends on the last match, and on none exactly when nothing matches |
| Scans.SingleHit | DatabaseLibrary/src/main/java/com/wit/databaselibrary/contentprovider/SimpleContentProvider.java:136-206 | when exactly one entry matches, the first-match and last-match loops agree on it |
| Model.NewObject | DatabaseLibrary/src/main/java/com/wit/databaselibrary/model/DatabaseObject.java:19-21 | the one-argument constructor gives the id, version 1, no field values and the default flags |
| Model.Construct | DatabaseLibrary/src/main/java/com/wit/databaselibrary/model/DatabaseObject.java:29-32 | the two-argument constructor keeps the id and version it is given; every field starts null |
| Model.SetVersion | DatabaseLibrary/src/com/wit/databaselibrary/model/DatabaseObject.java:75-77 | `setVersion` changes the version and nothing else |
| Model.Keyword | DatabaseLibrary/src/main/java/com/wit/databaselibrary/model/Order.java:3-14 | ascending is exactly `ASC` and descending exactly `DESC` |
| Ids.Equals | DatabaseLibrary/src/main/java/com/wit/databaselibrary/model/id/SimpleIdWrapper.java:20-36 | `equals` holds for the same instance, fails for null or another class, and otherwise compares ids, throwing when its own id is null |
| Ids.HashCode | DatabaseLibrary/src/main/java/com/wit/databaselibrary/model/id/SimpleIdWrapper.java:39-41 | `hashCode` fails exactly on a null id and is `Long.hashCode` of the id otherwise |
| Ids.EqualWrappersHashAlike | DatabaseLibrary/src/main/java/com/wit/databaselibrary/model/id/SimpleIdWrapper.java:20-41 | equal wrappers have equal hash codes whenever the hash is defined |
| Ids.WrapperEqualityIsIdEquality | DatabaseLibrary/src/main/java/com/wit/databaselibrary/model/id/SimpleIdWrapper.java:20-36 | two wrappers with non-null ids are equal exactly when their ids are; equality is symmetric |
| Contracts.AllFields | DatabaseLibrary/src/main/java/com/wit/databaselibrary/contentprovider/contract/Contract.java:28-39 | the fields are the class's declared fields and those of its superclasses, nothing else |
| Contracts.AnnotatedColumns | DatabaseLibrary/src/main/java/com/wit/databaselibrary/contentprovider/contract/Contract.java:88-130 | the annotations collected are exactly those of the annotated fields; unannotated fields are skipped |
| Contracts.ProjectionMap | DatabaseLibrary/src/main/java/com/wit/databaselibrary/contentprovider/contract/Contract.java:258-270 | the keys are exactly the annotated column names, each mapped to itself |
| Contracts.ColumnNames | DatabaseLibrary/src/main/java/com/wit/databaselibrary/contentprovider/contract/Contract.java:272-274 | the column list holds exactly the projection map's keys, each once |
| Contracts.SqlType | DatabaseLibrary/src/main/java/com/wit/databaselibrary/contentprovider/contract/Contract.java:100-118 | `STRING` is written as `TEXT`, and `INTEGER` and `LONG` as `INTEGER` |
| Contracts.CreateTableShape | DatabaseLibrary/src/main/java/com/wit/databaselibrary/contentprovider/contract/Contract.java:74-142 | the statement is `CREATE TABLE t ( ` + column definitions joined by `", "` + ` )`; with no annotated field, cutting the last two characters removes the `( ` instead |
| Contracts.ContentTypesDistinct | DatabaseLibrary/src/main/java/com/wit/databaselibrary/contentprovider/contract/Contract.java:148-162 | the directory and item MIME types never coincide, and each determines the table |
| Contracts.GetId | DatabaseLibrary/src/main/java/com/wit/databaselibrary/contentprovider/contract/Contract.java:212-225 | a URI without exactly two path segments is refused with `IllegalArgumentException` |
| Contracts.GetIdRoundTrip | DatabaseLibrary/src/main/java/com/wit/databaselibrary/contentprovider/contract/Contract.java:212-256 | the item URI of an id has an id and `getId` gives it back; the collection URI has none and is refused |
| Contracts.GetIdImpliesHasId | DatabaseLibrary/src/main/java/com/wit/databaselibrary/contentprovider/contract/Contract.java:212-256 | whenever `getId` succeeds, `hasId` holds |
| Contracts.SelectionById | DatabaseLibrary/src/main/java/com/wit/databaselibrary/contentprovider/contract/Contract.java:59-64 | `addSelectionById` is the existing selection (null printed as `null`) followed directly by the id condition |
| Contracts.AddSelectionByIdOnItem | DatabaseLibrary/src/main/java/com/wit/databaselibrary/contentprovider/contract/Contract.java:59-64 | on the item URI of `id` the result is `existing + "_id = " + id`, and `"null_id = " + id` for a null selection |
| Contracts.IdConditionOfAppended | DatabaseLibrary/src/main/java/com/wit/databaselibrary/contentprovider/contract/Contract.java:59-64 | the condition added for a URI with an id appended names that id |
| Contracts.UriMatchesWith | DatabaseLibrary/src/main/java/com/wit/databaselibrary/contentprovider/contract/Contract.java:287-305 | the first call prepares the matcher with its authority; every later call leaves the contract unchanged |
| Contracts.MatchingOfPrepared | DatabaseLibrary/src/main/java/com/wit/databaselibrary/contentprovider/contract/Contract.java:276-313 | once prepared, object matching accepts exactly the collection URI and object-id matching exactly the all-digit item URIs; no URI is both |
| Contracts.FirstAuthorityKept | DatabaseLibrary/src/main/java/com/wit/databaselibrary/contentprovider/contract/Contract.java:287-305 | a later call with another authority does not re-register; the contract still answers for the first authority only |
| LegacyContracts.NewContract | DatabaseLibrary/src/com/wit/databaselibrary/contentprovider/contract/Contract.java:12-32 | a new contract takes the counter as object code and the next value as id code, advances the counter by two, and registers `table` and `table/#` under them |
| LegacyContracts.ProjectionMap | DatabaseLibrary/src/com/wit/databaselibrary/contentprovider/contract/Contract.java:69-73 | the keys are exactly the column names, each mapped to itself |
| LegacyContracts.BuildAll | DatabaseLibrary/src/com/wit/databaselibrary/contentprovider/contract/Contract.java:12-32 | constructing contracts in turn gives the i-th the codes `base + 2i` and `base + 2i + 1` and advances the counter by twice their number |
| LegacyContracts.BuildAllRegisters | DatabaseLibrary/src/com/wit/databaselibrary/contentprovider/contract/Contract.java:75-81 | construction appends each contract's two registrations to the shared matcher, in order |
| LegacyContracts.CodesDistinct | DatabaseLibrary/src/com/wit/databaselibrary/contentprovider/contract/Contract.java:12-21 | no two contracts share a code, and each id code is its object code plus one |
| LegacyContracts.MatcherCodes | DatabaseLibrary/src/com/wit/databaselibrary/contentprovider/contract/Contract.java:75-100 | with distinct tables the shared matcher answers the i-th collection URI with `2i` and its item URIs with `2i + 1` |
| LegacyContracts.OwnUrisMatch | DatabaseLibrary/src/com/wit/databaselibrary/contentprovider/contract/Contract.java:87-108 | each contract takes its collection URI as an object and its item URIs as object ids, never the other way round, and no other contract claims either |
| LegacyContracts.LaterRegistrationWins | DatabaseLibrary/src/com/wit/databaselibrary/contentprovider/contract/Contract.java:75-100 | a second contract for the same table takes over its URIs; the first no longer matches its own collection URI |
| LegacyContracts.BaseColumnsDistinct | DatabaseLibrary/src/com/wit/databaselibrary/contentprovider/SimpleContentProvider.java:21-44 | two base-column sets have the same content URI exactly when they are equal, and the same content type exactly when their tables are |
| LegacyContracts.NewDatabaseInfo | DatabaseLibrary/src/com/wit/databaselibrary/contentprovider/databaseinfo/DatabaseInfo.java:16-31 | a new info takes two consecutive codes from the counter and starts with no columns, no projection and no registration |
| LegacyContracts.AddColumnNamesAppends | DatabaseLibrary/src/com/wit/databaselibrary/contentprovider/databaseinfo/DatabaseInfo.java:33-35 | adding column names keeps their order and repetitions and leaves the projection map alone |
| LegacyContracts.SetupProjectionMap | DatabaseLibrary/src/com/wit/databaselibrary/contentprovider/databaseinfo/DatabaseInfo.java:68-75 | every column name gains an identity entry; entries already present for other keys stay |
| LegacyContracts.InfoMatchesExclusive | DatabaseLibrary/src/com/wit/databaselibrary/contentprovider/databaseinfo/DatabaseInfo.java:91-114 | no URI matches one info both as an object and as an object id |
| LegacyContracts.InfoOwnUris | DatabaseLibrary/src/com/wit/databaselibrary/contentprovider/databaseinfo/DatabaseInfo.java:77-114 | after `setupUriMatcher` the info's collection URI matches as an object, and its item URI matches as an object id exactly for non-negative ids |
| Clauses.SortOrderShape | DatabaseLibrary/src/main/java/com/wit/databaselibrary/service/Manager.java:648-666 | the sort order is `_id`, or the order-by items joined by `", "`, with ` LIMIT n` appended exactly when a limit is given |
| Clauses.SortLoopJoins | DatabaseLibrary/src/main/java/com/wit/databaselibrary/service/Manager.java:648-666 | the builder loop over the order-bys writes them joined by `", "` |
| Clauses.IndexOf | DatabaseLibrary/src/main/java/com/wit/databaselibrary/service/Manager.java:638-644 | `indexOf` gives the first position of the column, or -1 exactly when it is absent |
| Clauses.GroupByAgreesWhenFirstUnique | DatabaseLibrary/src/main/java/com/wit/databaselibrary/service/Manager.java:627-645 | when the first group-by column does not occur again, the loop separates every column with `", "` |
| Clauses.GroupBySeparatorLost | DatabaseLibrary/src/main/java/com/wit/databaselibrary/service/Manager.java:627-645 | grouping by `a, b, a` writes `a, ba` where `a, b, a` is meant |
| Clauses.SelectionAndGroupBy | DatabaseLibrary/src/main/java/com/wit/databaselibrary/service/Manager.java:627-645 | without group-by columns the selection passes through unchanged, a null one as empty; with them, the selection (`1 = 1` when null) is followed by `) GROUP BY (` and the columns as the `indexOf` loop writes them |
| Clauses.WhereGroupsBy | DatabaseLibrary/src/main/java/com/wit/databaselibrary/service/Manager.java:627-645 | once the query builder wraps the selection in parentheses it reads `(selection) GROUP BY (columns)`, the columns as the loop writes them; those are the columns separated by `", "` whenever the first column does not occur again |
| Clauses.IdsSelection | DatabaseLibrary/src/main/java/com/wit/databaselibrary/service/Manager.java:501-541 | `get(ids)` queries exactly when there is at least one id |
| Clauses.IdsSelectionRoundTrip | DatabaseLibrary/src/main/java/com/wit/databaselibrary/service/Manager.java:508-522 | the selection is `_id IN (list)`, and the list splits at commas and parses back to exactly the ids, in order |
| Clauses.DeleteFor | DatabaseLibrary/src/main/java/com/wit/databaselibrary/service/Manager.java:277-291 | a null id deletes through the collection URI, any other id through its item URI; clause and args pass unchanged |
| Clauses.DeleteObject | DatabaseLibrary/src/main/java/com/wit/databaselibrary/service/Manager.java:218-225 | `delete(object)` sends the item URI with `_id = ?` bound to the id; a null id fails on unboxing |
| Clauses.DeleteNarrowedBindsId | DatabaseLibrary/src/main/java/com/wit/databaselibrary/service/Manager.java:254-265 | the narrowed delete targets the item URI and binds the id to the one added `?`; a caller's clause whose placeholders match its args still does |
| Clauses.NarrowedPlaceholders | DatabaseLibrary/src/main/java/com/wit/databaselibrary/service/Manager.java:254-265 | `_id = ? AND ` adds exactly one placeholder to the caller's clause |
| RecordMapper.Cast | DatabaseLibrary/src/main/java/com/wit/databaselibrary/service/Manager.java:326-386 | a getter value survives the cast exactly when it fits the column type; a null `LONG` fails on unboxing, a mismatch with `ClassCastException` |
| RecordMapper.PutFields | DatabaseLibrary/src/main/java/com/wit/databaselibrary/service/Manager.java:303-389 | the field loop succeeds exactly when every field is writable (annotated, with a getter and a castable value, unless it sits in `_id` or `version`) |
| RecordMapper.PutFieldsContents | DatabaseLibrary/src/main/java/com/wit/databaselibrary/service/Manager.java:303-389 | a successful loop writes exactly the written columns on top of what was there; each holds the getter value of the last field stored in it |
| RecordMapper.GenerateContentValues | DatabaseLibrary/src/main/java/com/wit/databaselibrary/service/Manager.java:293-392 | the values hold exactly `_id` (possibly null), `version` and the written columns, with the id and version of the object |
| RecordMapper.ColumnIndex | DatabaseLibrary/src/main/java/com/wit/databaselibrary/service/Manager.java:414-499 | `getColumnIndex` gives the first column of that name, or -1 exactly when there is none |
| RecordMapper.GetLong | DatabaseLibrary/src/main/java/com/wit/databaselibrary/service/Manager.java:414-499 | `getLong` fails exactly on an index outside the row |
| RecordMapper.ReadColumn | DatabaseLibrary/src/main/java/com/wit/databaselibrary/service/Manager.java:414-499 | a column inside the row reads as a value fitting the field's type (a string column may read null) |
| RecordMapper.SetFields | DatabaseLibrary/src/main/java/com/wit/databaselibrary/service/Manager.java:414-499 | the setter loop succeeds exactly when every field is readable, and never changes id, version or flags |
| RecordMapper.ReadObject | DatabaseLibrary/src/main/java/com/wit/databaselibrary/service/Manager.java:414-499 | `get(Cursor)` succeeds only with the (id, version) constructor and `_id` and `version` columns, and takes id and version from those columns |
| RecordMapper.CopyFields | DatabaseLibrary/src/main/java/com/wit/databaselibrary/service/Manager.java:765-869 | the copy loop succeeds exactly when every field is mergeable; copied fields take the source's values and the rest are untouched |
| RecordMapper.Merge | DatabaseLibrary/src/main/java/com/wit/databaselibrary/service/Manager.java:765-869 | `merge` gives a new object with the new id, the old version, every copied field of the old object, and null elsewhere |
| RecordMapper.RoundTrip | DatabaseLibrary/src/main/java/com/wit/databaselibrary/service/Manager.java:293-499 | writing a mapped object and reading the row back through any projection naming `_id`, `version` and the written columns gives the same id, version and field values; a null `INTEGER` field comes back as 0 |
| Managers.StoreInsert | DatabaseLibrary/src/main/java/com/wit/databaselibrary/contentprovider/SimpleContentProvider.java:235-273 | an insert under a taken id changes nothing and answers -1; under a free id it stores the object there; without an id it stores it above every existing row id |
| Managers.Increment | DatabaseLibrary/src/main/java/com/wit/databaselibrary/service/Manager.java:917-933 | `newObjectVersion + 1` on a `long` is the next version, wrapping to the smallest `long` at the largest |
| Managers.PlanUpdate | DatabaseLibrary/src/main/java/com/wit/databaselibrary/service/Manager.java:894-935 | a null id fails; an internally versioned object whose row is gone fails with `IllegalStateException`, and a stale one with `IllegalArgumentException`; otherwise the update is conditioned on the stored version (internal) or on an older version (external) |
| Managers.ConditionBindsArgs | DatabaseLibrary/src/main/java/com/wit/databaselibrary/service/Manager.java:898-931 | both update clauses carry exactly two placeholders, one per argument |
| Managers.ExecuteUpdate | DatabaseLibrary/src/main/java/com/wit/databaselibrary/service/Manager.java:937-950 | the update returns the object exactly when its row exists and the condition holds on its stored version, and only then writes |
| Managers.PerformUpdate | DatabaseLibrary/src/main/java/com/wit/databaselibrary/service/Manager.java:894-951 | `performUpdate` fails exactly when planning fails or the id is negative, since the provider knows no item URI for a negative id; otherwise it runs the planned update against the table as it then is |
| Managers.NegativeIdUpdateRefused | DatabaseLibrary/src/main/java/com/wit/databaselibrary/service/Manager.java:936-950 | the update of an object with a negative id fails with `IllegalArgumentException`, whatever the table holds |
| Managers.InternalUpdateAdvances | DatabaseLibrary/src/main/java/com/wit/databaselibrary/service/Manager.java:910-950 | an internally versioned update of a current object succeeds, storing and returning it with its version advanced by one |
| Managers.InternalUpdateDetectsConflict | DatabaseLibrary/src/main/java/com/wit/databaselibrary/service/Manager.java:910-950 | when another write changes the stored version between the read and the update, nothing is written and the result is null, though the caller's object is already bumped |
| Managers.ExternalUpdateIffNewer | DatabaseLibrary/src/main/java/com/wit/databaselibrary/service/Manager.java:906-950 | an externally versioned update succeeds exactly when the row exists with an older version, and then stores the object |
| Managers.PerformSave | DatabaseLibrary/src/main/java/com/wit/databaselibrary/service/Manager.java:871-881 | `performSave` fails when the row cannot be generated or the insert yields no positive id, and otherwise returns the object merged with the new id |
| Managers.Save | DatabaseLibrary/src/main/java/com/wit/databaselibrary/service/Manager.java:1132-1170 | an external null id fails; an internal non-null id, or a stored id, goes to `performUpdate` |
| Managers.SaveInsertsNewExternalId | DatabaseLibrary/src/main/java/com/wit/databaselibrary/service/Manager.java:1136-1158 | an externally managed id that nobody has stored is inserted under that id, and the merged object is returned |
| Managers.SaveRaceFallsBackToUpdate | DatabaseLibrary/src/main/java/com/wit/databaselibrary/service/Manager.java:1140-1153 | when another writer stores the id between the lookup and the insert, the save ends as an update against the table that writer left |
| Managers.SaveNonPositiveExternalId | DatabaseLibrary/src/main/java/com/wit/databaselibrary/service/Manager.java:1140-1153 | an external id of zero or below is stored by the insert, the save still throws, and the re-read turns it into an update of that row; for a negative id that update is refused, so the save fails with the inserted row left behind |
| Managers.SaveInsertsNullId | DatabaseLibrary/src/main/java/com/wit/databaselibrary/service/Manager.java:1159-1167 | an internally managed object without an id is stored under a fresh row id above every existing one and returned merged with it |
| Reconcile.IndexOf | DatabaseLibrary/src/main/java/com/wit/databaselibrary/service/Manager.java:137-143 | the index holds exactly the existing ids, each mapped to an existing object with that id |
| Reconcile.CategorizeIsOutcomes | DatabaseLibrary/src/main/java/com/wit/databaselibrary/service/Manager.java:135-173 | `categorize` lists as adds and as updates exactly the incoming objects with those outcomes, in input order; what is left in the map is the existing ids no incoming object named |
| Reconcile.OutcomeCases | DatabaseLibrary/src/main/java/com/wit/databaselibrary/service/Manager.java:149-165 | an incoming object is added when its id is not stored or was already claimed; it is updated when it claims a stored id with a strictly newer version, and skipped when it is not newer |
| Reconcile.OutcomesPartition | DatabaseLibrary/src/main/java/com/wit/databaselibrary/service/Manager.java:149-165 | the adds, updates and skips together number exactly the incoming objects, so each object has one outcome |
| Reconcile.RepeatedIdIsAdded | DatabaseLibrary/src/main/java/com/wit/databaselibrary/service/Manager.java:149-165 | a second incoming object with an already claimed id is listed as an add |
| Reconcile.AddsAndUpdatesDistinct | DatabaseLibrary/src/main/java/com/wit/databaselibrary/service/Manager.java:135-173 | with distinct incoming ids, adds and updates together name each id once, and only incoming ids |
| Reconcile.DeletesAreUnclaimed | DatabaseLibrary/src/main/java/com/wit/databaselibrary/service/Manager.java:135-173 | the delete list is drawn from the existing objects, names each id once, and names exactly the existing ids no incoming object names |
| Reconcile.ReplaceCategorize | DatabaseLibrary/src/com/wit/databaselibrary/service/Manager.java:599-641 | the older diff fails with `NullPointerException` exactly when some old or new object has a null id |
| Reconcile.ReplaceMatchesCategorize | DatabaseLibrary/src/com/wit/databaselibrary/service/Manager.java:599-641 | with non-null ids the older diff makes the same adds, updates and deletes as the newer `categorize` |
| Batches.InsertOperations | DatabaseLibrary/src/main/java/com/wit/databaselibrary/service/Manager.java:959-979 | one insert into the collection URI per object, with its generated values, in order; fails exactly when some object's values cannot be generated |
| Batches.UpdateOperations | DatabaseLibrary/src/main/java/com/wit/databaselibrary/service/Manager.java:1022-1051 | one update per object of its item URI under `_id = ?` bound to its id; fails exactly on a null id or values that cannot be generated |
| Batches.DeleteOperations | DatabaseLibrary/src/main/java/com/wit/databaselibrary/service/Manager.java:987-1014 | one delete per object of its item URI under `_id = ?` bound to its id; fails exactly on a null id |
| Batches.Operations | DatabaseLibrary/src/main/java/com/wit/databaselibrary/service/Manager.java:78-96 | the batch is the inserts, then the updates, then the deletes, and fails exactly when one of the three lists fails |
| Batches.OperationsInOrder | DatabaseLibrary/src/main/java/com/wit/databaselibrary/service/Manager.java:78-96 | every insert comes before every update and every update before every delete, each object once, in list order |
| Batches.ApplyOperation | DatabaseLibrary/src/main/java/com/wit/databaselibrary/contentprovider/SimpleContentProvider.java:47-102 | an insert stores its row and answers its URI; an update or delete of a negative id is refused with `IllegalArgumentException` and writes nothing; any other update or delete reaches the one row its `_id = ?` names, counting 1 when the row exists and 0 otherwise |
| Batches.ApplyBatch | DatabaseLibrary/src/main/java/com/wit/databaselibrary/contentprovider/SimpleContentProvider.java:47-102 | a completed batch answers once per operation, a URI exactly for each insert |
| Batches.BatchKeepsRows | DatabaseLibrary/src/main/java/com/wit/databaselibrary/contentprovider/SimpleContentProvider.java:47-102 | a batch without deletes removes no row, even when an insert fails partway |
| Batches.BatchTouched | DatabaseLibrary/src/main/java/com/wit/databaselibrary/contentprovider/SimpleContentProvider.java:47-102 | in a completed batch whose operations each name their own row, that operation decides the row: inserted, updated when present, or gone |
| Batches.BatchUntouched | DatabaseLibrary/src/main/java/com/wit/databaselibrary/contentprovider/SimpleContentProvider.java:47-102 | a completed batch leaves every row that no operation names as it was |
| Batches.CollectIds | DatabaseLibrary/src/main/java/com/wit/databaselibrary/service/Manager.java:104-113 | at most one id is collected per result |
| Batches.Fetch | DatabaseLibrary/src/main/java/com/wit/databaselibrary/service/Manager.java:501-541 | the objects read back are exactly the stored rows under the given ids |
| Batches.ApplyAsWritten | DatabaseLibrary/src/main/java/com/wit/databaselibrary/service/Manager.java:78-133 | when the operations cannot be built nothing is written and `apply` fails; a `RemoteException` writes nothing; otherwise the table is the one the batch leaves, `apply` succeeds only when the batch completed, and every object returned is a row of that table |
| Batches.ApplyDropsUpdated | DatabaseLibrary/src/main/java/com/wit/databaselibrary/service/Manager.java:98-133 | one stored object updated to a newer version is written by the batch, yet `apply` returns the empty set |
| Batches.Apply | DatabaseLibrary/src/main/java/com/wit/databaselibrary/service/Manager.java:78-133 | the corrected `apply` writes exactly what the original does, and fails without writing when the operations cannot be built |
| Batches.Reread | DatabaseLibrary/src/main/java/com/wit/databaselibrary/service/Manager.java:98-133 | the re-read happens after the batch and succeeds only when the batch completed |
| Batches.ApplyReturnsUpdated | DatabaseLibrary/src/main/java/com/wit/databaselibrary/service/Manager.java:78-133 | the corrected `apply` returns the updated object in the case where the original returns nothing |
| Batches.ApplyReturnsEveryUpdate | DatabaseLibrary/src/main/java/com/wit/databaselibrary/service/Manager.java:78-133 | whenever the corrected `apply` succeeds, every updated object whose row still exists comes back at its stored version |
| Replacing.SaveAllNeverDeletes | DatabaseLibrary/src/main/java/com/wit/databaselibrary/service/Manager.java:1107-1116 | `save(Collection)` never removes a row, whatever the objects and however the batch ends |
| Replacing.SaveAll | DatabaseLibrary/src/main/java/com/wit/databaselibrary/service/Manager.java:1107-1116 | `save(Collection)` returns what the original `apply` returns; a `RemoteException` leaves the table as it was, and every object returned is a row of the table afterwards |
| Replacing.Replace | DatabaseLibrary/src/main/java/com/wit/databaselibrary/service/Manager.java:1086-1105 | `replace` returns what the original `apply` returns; a `RemoteException` leaves the table as it was, and every object returned is a row of the table afterwards |
| Replacing.ReplaceStoresIncoming | DatabaseLibrary/src/main/java/com/wit/databaselibrary/service/Manager.java:1086-1105 | after a completed `replace`, every incoming object is stored at the newer of its version and the stored one |
| Replacing.ReplaceDropsStored | DatabaseLibrary/src/main/java/com/wit/databaselibrary/service/Manager.java:1086-1105 | a stored row that no incoming object names is deleted |
| Replacing.ReplaceCreatesNoOthers | DatabaseLibrary/src/main/java/com/wit/databaselibrary/service/Manager.java:1086-1105 | no row appears that was neither stored nor named by an incoming object |
| Replacing.ReplaceBatch | DatabaseLibrary/src/main/java/com/wit/databaselibrary/service/Manager.java:1086-1105 | the batch of a completed `replace` is the grouped inserts, updates and deletes of `categorize` |
| Replacing.ReplaceEndState | DatabaseLibrary/src/main/java/com/wit/databaselibrary/service/Manager.java:1062-1105 | against the whole table, with distinct incoming ids, a completed `replace` leaves exactly the incoming ids, each at the newer of the stored and incoming versions |
| Providers.LastHit | DatabaseLibrary/src/main/java/com/wit/databaselibrary/contentprovider/SimpleContentProvider.java:136-154 | the loop without `break` ends on the last contract that matches, and on none exactly when none matches |
| Providers.GetTableName | DatabaseLibrary/src/main/java/com/wit/databaselibrary/contentprovider/SimpleContentProvider.java:188-206 | the table of the first contract that matches at all; an unknown URI is refused with `IllegalArgumentException` |
| Providers.GetContract | DatabaseLibrary/src/main/java/com/wit/databaselibrary/contentprovider/SimpleContentProvider.java:136-154 | the last contract that takes the URI as an object or an object id; an unknown URI is refused |
| Providers.GetContractByMatchingObject | DatabaseLibrary/src/main/java/com/wit/databaselibrary/contentprovider/SimpleContentProvider.java:163-180 | the last contract that takes the URI as an object; otherwise refused |
| Providers.GetType | DatabaseLibrary/src/main/java/com/wit/databaselibrary/contentprovider/SimpleContentProvider.java:209-232 | defined exactly when some contract matches; the first matching contract decides, giving its directory type when it takes the URI as an object and its item type otherwise |
| Providers.InsertCallOf | DatabaseLibrary/src/main/java/com/wit/databaselibrary/contentprovider/SimpleContentProvider.java:235-273 | the insert goes to an object-matching contract's table; null values are read as empty, and `_id` is the null-column hack exactly when there are no values |
| Providers.Insert | DatabaseLibrary/src/main/java/com/wit/databaselibrary/contentprovider/SimpleContentProvider.java:235-273 | `insert` succeeds exactly for a collection URI and a positive row id, answering the request URI with the id appended; otherwise `IllegalArgumentException` or `SQLException` |
| Providers.Query | DatabaseLibrary/src/main/java/com/wit/databaselibrary/contentprovider/SimpleContentProvider.java:276-318 | `query` takes the last match's projection map and the first match's table, and adjusts the selection (null read as empty) |
| Providers.Update | DatabaseLibrary/src/main/java/com/wit/databaselibrary/contentprovider/SimpleContentProvider.java:321-342 | `update` goes to the first match's table with the values, selection and args unchanged |
| Providers.Delete | DatabaseLibrary/src/main/java/com/wit/databaselibrary/contentprovider/SimpleContentProvider.java:105-125 | `delete` goes to the first match's table with the selection and args unchanged |
| Providers.ChangeNotifications | DatabaseLibrary/src/main/java/com/wit/databaselibrary/contentprovider/SimpleContentProvider.java:105-125 | a delete or update notifies the request URI and the matching contract's collection URI, no more |
| Providers.BaseUri | DatabaseLibrary/src/main/java/com/wit/databaselibrary/contentprovider/SimpleContentProvider.java:47-102 | the base URI is the URI itself with one segment, otherwise scheme, authority and first segment; a URI with no segment fails |
| Providers.NotifyUris | DatabaseLibrary/src/main/java/com/wit/databaselibrary/contentprovider/SimpleContentProvider.java:47-102 | a non-empty batch notifies what the results changed plus the base URI of its first operation |
| Providers.ChangedUrisSpec | DatabaseLibrary/src/main/java/com/wit/databaselibrary/contentprovider/SimpleContentProvider.java:47-102 | a URI is collected exactly when some result is that URI, or some operation on it counted a changed row |
| Providers.BatchNotifies | DatabaseLibrary/src/main/java/com/wit/databaselibrary/contentprovider/SimpleContentProvider.java:47-102 | on a batch over one table, the notified URIs are exactly the inserted rows' URIs, the URIs of operations that changed a row, and the collection URI |
| Providers.MatchesOfReady | DatabaseLibrary/src/main/java/com/wit/databaselibrary/contentprovider/contract/Contract.java:276-313 | in a ready provider a contract takes exactly its collection URI as an object and its all-digit item URIs as object ids |
| Providers.CollectionRoutes | DatabaseLibrary/src/main/java/com/wit/databaselibrary/contentprovider/SimpleContentProvider.java:136-232 | with distinct tables, a contract's collection URI is routed to that contract by every lookup, typed as a directory, and its selection is left alone |
| Providers.ItemRoutes | DatabaseLibrary/src/main/java/com/wit/databaselibrary/contentprovider/SimpleContentProvider.java:136-232 | the item URI of a non-negative id is routed to its contract, typed as an item, and refused as an object |
| Providers.ItemNotifications | DatabaseLibrary/src/main/java/com/wit/databaselibrary/contentprovider/SimpleContentProvider.java:105-125 | a delete or update on an item URI notifies it together with its collection URI |
| Providers.ItemSelection | DatabaseLibrary/src/main/java/com/wit/databaselibrary/contentprovider/SimpleContentProvider.java:34-44 | a query on the item URI of `id` has `_id = id` appended to its selection, with no separator |
| Providers.NegativeIdUnknown | DatabaseLibrary/src/main/java/com/wit/databaselibrary/contentprovider/SimpleContentProvider.java:188-232 | the item URI of a negative id is unknown to the provider: both `getType` and the table lookup refuse it |
| Providers.InsertRoundTrip | DatabaseLibrary/src/main/java/com/wit/databaselibrary/contentprovider/SimpleContentProvider.java:235-273 | inserting into a contract's collection URI calls that table and answers the item URI of the new row, which routes back to the same table and carries the row id |
| Providers.UniqueHit | DatabaseLibrary/src/main/java/com/wit/databaselibrary/contentprovider/SimpleContentProvider.java:136-206 | when exactly one contract answers, the first-match and last-match loops both pick it |
| LegacyProviders.AdjustAgreesOnEmpty | DatabaseLibrary/src/com/wit/databaselibrary/contentprovider/SimpleContentProvider.java:49-59 | with an empty selection the original and corrected adjustments agree, adding the bare id condition |
| LegacyProviders.GetTableName | DatabaseLibrary/src/com/wit/databaselibrary/contentprovider/SimpleContentProvider.java:83-99 | the table of the first info that matches; an unknown URI is refused with `IllegalArgumentException` |
| LegacyProviders.ObjectColumns | DatabaseLibrary/src/com/wit/databaselibrary/contentprovider/SimpleContentProvider.java:102-158 | the columns of the last info that takes the URI as an object; otherwise refused |
| LegacyProviders.GetType | DatabaseLibrary/src/com/wit/databaselibrary/contentprovider/SimpleContentProvider.java:102-118 | the directory type of the last object-matching info, and a refusal for any other URI, item URIs included |
| LegacyProviders.InsertCallOf | DatabaseLibrary/src/com/wit/databaselibrary/contentprovider/SimpleContentProvider.java:121-158 | the insert goes to an object-matching info with null values read as empty and no null-column hack |
| LegacyProviders.Insert | DatabaseLibrary/src/com/wit/databaselibrary/contentprovider/SimpleContentProvider.java:121-158 | `insert` succeeds exactly for an object URI and a positive row id, answering the last object-matching info's content URI with the id appended |
| LegacyProviders.DeleteAsWritten | DatabaseLibrary/src/com/wit/databaselibrary/contentprovider/SimpleContentProvider.java:62-75 | `delete` is defined exactly for a matching URI, and sends the adjusted selection and the args unchanged |
| LegacyProviders.Delete | DatabaseLibrary/src/com/wit/databaselibrary/contentprovider/SimpleContentProvider.java:62-75 | the same `delete` with the corrected adjustment |
| LegacyProviders.Query | DatabaseLibrary/src/com/wit/databaselibrary/contentprovider/SimpleContentProvider.java:161-200 | `query` takes the last match's projection and adjusts the selection as written, a null one read as empty first: on an item URI the id condition is glued straight after the selection |
| LegacyProviders.Update | DatabaseLibrary/src/com/wit/databaselibrary/contentprovider/SimpleContentProvider.java:203-217 | `update` is defined exactly for a matching URI and passes values, selection and args unchanged |
| LegacyProviders.CollectionRoutes | DatabaseLibrary/src/com/wit/databaselibrary/contentprovider/SimpleContentProvider.java:83-158 | a URI that only one info takes as an object is routed to that info by every operation, and its selection is left alone |
| LegacyProviders.ItemRoutes | DatabaseLibrary/src/com/wit/databaselibrary/contentprovider/SimpleContentProvider.java:83-158 | a URI that only one info takes as an object id is routed to its table, refused by `getType` and `insert`, and gains the id condition |
| LegacyProviders.CollectionUriRoutes | DatabaseLibrary/src/com/wit/databaselibrary/contentprovider/SimpleContentProvider.java:83-158 | a provider with one info routes that info's collection URI to its table, type and columns, and leaves the selection alone |
| LegacyProviders.InsertRoundTrip | DatabaseLibrary/src/com/wit/databaselibrary/contentprovider/SimpleContentProvider.java:121-158 | inserting into the info's collection URI answers the item URI of the new row, which routes back to the same table and carries the row id |
| LegacyProviders.ItemUriRoutes | DatabaseLibrary/src/com/wit/databaselibrary/contentprovider/SimpleContentProvider.java:83-99 | the item URI of a non-negative id is routed to the info's table as an object id |
| LegacyProviders.DeleteObjectRequest | DatabaseLibrary/src/com/wit/databaselibrary/service/Manager.java:152-221 | `delete(object)` sends the item URI with `_id = ?` bound to the id, and the provider routes it to the info's table as an object id |
| LegacyProviders.DeleteObjectGluesClause | DatabaseLibrary/src/com/wit/databaselibrary/contentprovider/SimpleContentProvider.java:49-75 | the original provider turns that request into the clause `_id = ?_id = <id>` |
| LegacyProviders.DeleteObjectNarrows | DatabaseLibrary/src/com/wit/databaselibrary/contentprovider/SimpleContentProvider.java:49-75 | the corrected provider sends `(_id = ?) AND _id = <id>`, whose one placeholder still meets the one argument |
| LegacyProviders.UniqueHit | DatabaseLibrary/src/com/wit/databaselibrary/contentprovider/SimpleContentProvider.java:83-158 | when exactly one info answers, the first-match and last-match loops both pick it |
| LegacyManagers.UpdateClauseNamesTruncated | DatabaseLibrary/src/com/wit/databaselibrary/service/Manager.java:447-465 | the update clause names the id cut to 32 bits, which equals the id exactly inside the `int` range |
| LegacyManagers.PerformUpdateAsWritten | DatabaseLibrary/src/com/wit/databaselibrary/service/Manager.java:447-465 | the original update reaches the row of the truncated id and does nothing when that row is absent. Without `_id` among the values, that row keeps its own `_id` and takes the object's values. With `_id` and a truncated id, the row moves to the full id, or the primary key refuses the update (`SQLException`) when the full id is already stored. A call that does not return the object changes nothing |
| LegacyManagers.UpdateKeepsKeys | DatabaseLibrary/src/com/wit/databaselibrary/service/Manager.java:447-465 | the original update keeps every row stored under its own `_id`, whether or not the values carry it |
| LegacyManagers.PerformUpdate | DatabaseLibrary/src/com/wit/databaselibrary/service/Manager.java:447-465 | the corrected update writes the object over its own row exactly when that row exists, and otherwise changes nothing |
| LegacyManagers.UpdateAgreesInIntRange | DatabaseLibrary/src/com/wit/databaselibrary/service/Manager.java:447-465 | inside the `int` range the original and corrected updates agree, whether or not the values carry `_id` |
| LegacyManagers.UpdateTruncatesId | DatabaseLibrary/src/com/wit/databaselibrary/service/Manager.java:447-465 | without `_id` among the values, an object with id 2^32 + 5 writes its values into row 5 and reports success, leaving its own row stale |
| LegacyManagers.UpdateWritingIdMovesRow | DatabaseLibrary/src/com/wit/databaselibrary/service/Manager.java:447-465 | with `_id` among the values, the same update moves row 5 to id 2^32 + 5 when that id is free, and fails with `SQLException` when it is stored |
| LegacyManagers.PerformSave | DatabaseLibrary/src/com/wit/databaselibrary/service/Manager.java:434-445 | the insert is stored, and the save fails (`SQLException`) exactly when no positive row id comes back. Otherwise it returns the object, under a new id not stored before. An `_id` among the values is kept, and one already stored is refused with nothing changed |
| LegacyManagers.PerformSaveNextRowId | DatabaseLibrary/src/com/wit/databaselibrary/service/Manager.java:434-445 | an object inserted without `_id` among its values is stored under a row id above every existing one, whatever id it held |
| LegacyManagers.Save | DatabaseLibrary/src/com/wit/databaselibrary/service/Manager.java:657-679 | an external null id fails; a stored id goes to the update as written, which truncates the id to an `int`; an unknown external id inserts; an internal id inserts when null and updates otherwise |
| LegacyManagers.SaveStoresResult | DatabaseLibrary/src/com/wit/databaselibrary/service/Manager.java:657-679 | a save that returns an object leaves every other row as it was. The object's row is stored under its id, or, when the update truncated the id, written into the row of the cut id, or, with `_id` among the values, that row moved to the full id. Inside the `int` range the key is the id itself. A null result changed nothing |
| LegacyManagers.SaveTruncatesId | DatabaseLibrary/src/com/wit/databaselibrary/service/Manager.java:657-679 | saving an object with id 2^32 + 5, with rows 5 and 2^32 + 5 stored, writes its values into row 5 and reports success, leaving the object's own row stale |
| LegacyManagers.SaveExternalIdReadings | DatabaseLibrary/src/com/wit/databaselibrary/service/Manager.java:434-445 | a new object with external id 42 keeps that id when the values carry `_id`. Without it, SQLite numbers the row 1 and `get(uri)` returns the object under id 1 |
| LegacyManagers.SaveKeepsRows | DatabaseLibrary/src/com/wit/databaselibrary/service/Manager.java:657-679 | no save removes a row, except that the row of a truncated id moves to the full id when the values carry `_id` |
| LegacyManagers.SaveKeepsKeys | DatabaseLibrary/src/com/wit/databaselibrary/service/Manager.java:657-679 | a save keeps every row stored under its own `_id` |
| LegacyManagers.SaveList | DatabaseLibrary/src/com/wit/databaselibrary/service/Manager.java:643-655 | saving a list returns at most one object per input. It removes no row when the values carry no `_id` or every id fits an `int` |
| LegacyManagers.SaveListKeepsKeys | DatabaseLibrary/src/com/wit/databaselibrary/service/Manager.java:643-655 | saving a list keeps every row stored under its own `_id`, whether or not the values carry it |
| LegacyManagers.SaveListSingle | DatabaseLibrary/src/com/wit/databaselibrary/service/Manager.java:643-655 | a one-object list holds that object's result exactly when it is not null |
| LegacyManagers.SaveListAppend | DatabaseLibrary/src/com/wit/databaselibrary/service/Manager.java:643-655 | saving `a + b` saves `a`, then `b` against the table `a` left, and lists the results in that order |
| LegacyManagers.InsertOperations | DatabaseLibrary/src/com/wit/databaselibrary/service/Manager.java:473-497 | one insert into the collection URI per object, in order |
| LegacyManagers.UpdateOperations | DatabaseLibrary/src/com/wit/databaselibrary/service/Manager.java:526-547 | one update per object of its item URI; fails exactly on a null id |
| LegacyManagers.DeleteOperations | DatabaseLibrary/src/com/wit/databaselibrary/service/Manager.java:499-524 | one delete per object of its item URI; fails exactly on a null id |
| LegacyManagers.OperationsGrouped | DatabaseLibrary/src/com/wit/databaselibrary/service/Manager.java:80-113 | the batch is the inserts, then the updates, then the deletes, each object once in order |
| LegacyManagers.Apply | DatabaseLibrary/src/com/wit/databaselibrary/service/Manager.java:80-113 | `apply` writes what the batch writes; a `RemoteException` leaves the table as it was |
| LegacyManagers.Replace | DatabaseLibrary/src/com/wit/databaselibrary/service/Manager.java:599-641 | any null id fails with `NullPointerException` before anything is written |
| LegacyManagers.ReplaceEndState | DatabaseLibrary/src/com/wit/databaselibrary/service/Manager.java:599-641 | a completed older `replace` leaves the same table as the newer one: exactly the incoming ids, each at the newer version |
| LegacyManagers.DeleteAll | DatabaseLibrary/src/com/wit/databaselibrary/service/Manager.java:130-150 | a null id among the objects fails before anything is deleted |
| LegacyManagers.DeleteAllRemoves | DatabaseLibrary/src/com/wit/databaselibrary/service/Manager.java:130-150 | deleting objects that all name non-negative ids removes exactly their rows |
| LegacyManagers.DeleteAllRefusesNegative | DatabaseLibrary/src/com/wit/databaselibrary/service/Manager.java:130-150 | a delete list that names a negative id, and no null one, fails with `IllegalArgumentException`, since the provider knows no item URI for it |

## Left out

- The SQLite database itself is not modelled. It is the abstract `Store`. The row id SQLite picks for an insert without `_id` is modelled as one above the largest stored id (1 for an empty table). An insert under a taken `_id` answers -1 and changes nothing, like `SQLiteDatabase.insert`.
- Managers.StoreInsert: for an insert without `_id` into a table whose largest id is already the largest `long`, SQLite picks a random unused positive id and fails only when it finds none. The model does not pick at random: it answers -1 and stores nothing. The largest-id case is therefore a refusal in the model, where SQLite would usually succeed.
- SQL evaluation of selections is not modelled. Selections are text. Batch update and delete operations are modelled by the one row their `_id = ?` names.
- Reflection (`getDeclaredFields`, getter and setter lookup, annotations) is a `RecordClass` value, and exceptions are `Err` values. Messages and exception chaining are not kept.
- In the older `Manager`, `generateContentValues` and `get(Cursor)` are abstract. They are a function parameter or leave the object as given.
- Cursor iteration, `getAll`, `getCount`, and the general `get` query are not modelled as queries. Their text pieces are: sort order, group-by, `IN` list and the cursor row (`CursorOf`).
- Content observers are left out, because they are Android callbacks with no state the core reads:
  - `registerForUpdates` and `unregisterForUpdates`;
  - `InterfacingContentObserver`;
  - the older provider's `notifyChange` calls.

  The newer provider's notifications are modelled as the set of URIs it notifies.
- `RemoteException` and the rows another writer stores concurrently are parameters.
- `synchronized`, threads and logging are left out.
- The newer provider modelling does not thread the contracts' matcher state. It assumes each contract is unprepared or prepared with the provider's own authority, the only states a provider that owns its contracts can produce.
- `Uri.parse` is modelled for the URIs the library builds: an authority without `/`, `?` or `#`, and a path without `?`, `#` or `%`. Query strings, fragments and percent-encoding are not modelled.
- Batches.CollectIds: states only the size bound. Its parse of each URI's last segment is covered by `Uris.ItemUriId`.
- Batches.ApplyAsWritten: does not state which rows come back, only that each is a row of the table. Its behaviour on updates is shown by `Batches.ApplyDropsUpdated`.
- `StorageModificationException`, `InvalidClassDefinitionException` and the `Column` and `Table` annotations appear only as error values and `RecordClass` data.
- The newer `adjustSelection` glues the id condition onto the caller's selection with no separator, just as the older one does. No caller of the newer generation passes a selection together with an item URI, so it is stated (`Providers.ItemSelection`) but not listed as a finding.
- Null versions are not modelled. `DatabaseObject(Long id, Long version)` accepts a null version, and the source then throws `NullPointerException` when it unboxes it: in the internal update's `version + 1` and in `categorize`'s version comparison (DatabaseLibrary/src/main/java/com/wit/databaselibrary/service/Manager.java:159, DatabaseLibrary/src/com/wit/databaselibrary/service/Manager.java:630). A version here is always a `long`.
- The "managed externally" methods do not line up across the two generations, and the model settles them as follows:
  - The older `Manager` calls `isManagedExternally()` (DatabaseLibrary/src/com/wit/databaselibrary/service/Manager.java:659), which neither `DatabaseObject` declares. The model reads it as the id flag.
  - The newer `Manager` calls `isIdManagedExternally`, `isVersionManagedExternally` and `setVersion`. Only the older `DatabaseObject` declares these.
  - The newer `DatabaseObject` has `isManagedRemotely` and a final version.

  The model gives every object both flags (`Model.Flags`) and treats the version bump as producing a new object value.
- RecordMapper.AsLong: reads a text cell as a plain decimal `long`, else 0. Android reads text with C's `strtoll`, which takes a numeric prefix (`"12abc"` is 12), hexadecimal and octal, skips leading blanks, and saturates on overflow. `RecordMapper.ReadColumn` inherits the simplification.
- `JavaText.ParseLong` accepts ASCII digits only. `Long.parseLong` accepts any Unicode decimal digit. `Contracts.GetId` inherits the restriction.
- Reconcile.DeleteList lists the deletes in the order of the existing objects. The source lists `HashMap.values()`, in hash order (DatabaseLibrary/src/main/java/com/wit/databaselibrary/service/Manager.java:167, DatabaseLibrary/src/com/wit/databaselibrary/service/Manager.java:638). The set of rows deleted is the same.
- Reads from the table return the stored object itself, not `get(Cursor)` of its row. This covers `Batches.Fetch`, `LegacyManagers.Lookup` and the `get(id)` inside the saves and `Managers.PlanUpdate`. `RecordMapper.RoundTrip` shows how a row reads back through `get(Cursor)`; for example, a null `INTEGER` field reads back as 0. `Batches.Fetch` returns a set where the source returns a list.
- UriMatchers.MatchIn: "the last matching registration wins" agrees with Android's tree-shaped `UriMatcher` only for the patterns the library registers: a literal table name, and that name followed by `#`.
- LegacyManagers.Save: the abstract `generateContentValues` is reduced to one bit, `writesId`, which says whether the values carry the object's `_id`. All other contents of the values are taken to be the object's own fields.
- LegacyManagers.Apply: the batch inserts of `Apply` and `Replace` store each object under its own id. That is the reading where the values carry `_id`. The reading without `_id`, where the batch's inserts get fresh row ids, is not modelled for the batch paths.
- Older `replace` with null ids: the library's description says null ids are handled. The code hashes every id through `SimpleIdWrapper`, which throws on a null id. The model follows the code (`Reconcile.ReplaceCategorize`).

## Findings

| source | as written | input that shows it | evidently intended | confidence | as-written member | corrected member |
|---|---|---|---|---|---|---|
| DatabaseLibrary/src/com/wit/databaselibrary/service/Manager.java:447-465 | the update clause is `_id=` + `id.intValue()`, which cuts the id to 32 bits; `save(object)` and `save(List)` update through it | an object with id 2^32 + 5, with rows 5 and 2^32 + 5 stored | the update reaches the object's own row | not executed | LegacyManagers.UpdateTruncatesId | LegacyManagers.PerformUpdate |
| DatabaseLibrary/src/main/java/com/wit/databaselibrary/service/Manager.java:98-133 | `apply` re-reads only the ids of result URIs, and update results carry no URI | one stored object updated to a newer version through `save(Collection)` | the saved or updated objects are returned | not executed | Batches.ApplyDropsUpdated | Batches.ApplyReturnsEveryUpdate |
| DatabaseLibrary/src/main/java/com/wit/databaselibrary/service/Manager.java:627-645 | `", "` is written before a group-by column only when `indexOf` of that column is not 0 | group-by columns `a, b, a` | every column after the first is preceded by `", "` | not executed | Clauses.GroupBySeparatorLost | Clauses.GroupByAgreesWhenFirstUnique |
| DatabaseLibrary/src/com/wit/databaselibrary/contentprovider/SimpleContentProvider.java:49-59 | `adjustSelection`, used by `delete` and `query`, glues the id condition onto the caller's selection with no separator | `Manager.delete(object)`, which sends `_id = ?` on the item URI | the caller's selection and the id condition joined by AND | not executed | LegacyProviders.DeleteObjectGluesClause | LegacyProviders.DeleteObjectNarrows |
