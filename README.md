# json-to-tables, modelled in Dafny

json-to-tables flattens nested JSON documents into relational tables. A
streaming tokenizer reports parse events. A flattener turns them into one
flat record per list element, located by its table path, its own id and the
id of its parent row. A sink writes the records out: CSV files with an
inferred schema, or JSON arrays, one per table. A remapper makes the ids of
several documents unique when they are read into one database. A small
Python helper lists the expected-output fixtures of the integration test.

This project models that core and proves what it promises. There is one
module per source file:

- `Strings` holds the string helpers: prefix and suffix tests, `join`, `reverse` and decimal `to_string`.
- `Models` holds the shared values: JSON values, JSON paths, `TableRecord`, `TableLocation` and parse events.
- `Naming` holds the name-escaping rewrites. Each fixed regular expression is a hand-written matcher. The copies in `src/parser.rs` and `src/database/database_json.rs` are identical and are defined once.
- `LegacyParser` models the older flattener of `src/parser.rs`. It is a class over `list_stack`, `array_ids` and the open object.
- `Parser` models the newer flattener of `src/parser/mod.rs`. It has three classes: `ObjectHandler`, the arena tree `ObjectHandlerHashTree` and `NestedObjectHandler`.
- `Schema` models `TableSchema::update` and the borrow/return protocol of `DatabaseSchema`.
- `DatabaseCsv` models the CSV sink. Field escaping follows section 2 of RFC 4180, rules 6 and 7. It carries a field reader that proves the escaping round-trips. Each table's file is a string buffer.
- `DatabaseJson` and `ConsumerJson` model the two JSON sinks. The target JSON value is a heap cell the sink updates in place.
- `Read` models `IdRemapper` and the reader loop of `read_to_db_many`. Each reader's records are given as a sequence, and what the database receives is returned as a log.
- `FormatTestExpected` models the fixture lister `format_test_expected.py`.

Rust panics (`unwrap`, `expect`, indexing, `panic!`) are modelled as an
`ok: bool`, a `Result` or an `Option` result. Where the Rust code panics
before changing anything, the failing call leaves the state as it was. Four
calls fail after a partial update, as the Rust code does:

- `LegacyParser.NestedObjectHandler.HandleEndArray` records the list's next id in `arrayIds` before it finds the stack empty (`handle_end_array` inserts into `array_ids` before `list_stack.pop().unwrap()`).
- `DatabaseCsv.TableCsv.MakeColumns` and `DatabaseCsv.TableCsv.Write` fold the record into the schema before an array or object value fails (`make_columns` calls `schema.update` before `value_to_str` panics).
- `DatabaseCsv.DatabaseCsv.Write` files the path's table, and borrows its schema, before the row can fail.
- `Parser.NestedObjectHandler.Consume` keeps what the events before the failing one emitted and changed.

HashMap iteration order is not specified, so loops over a map pick an
arbitrary remaining key.

## Model

| member | source | states |
|---|---|---|
| Strings.NatToStringInjective | src/database/schema.rs:133-137 | distinct table ids give distinct decimal texts, so the names `table_<id>` differ |
| Strings.ParseNatToString | src/database/schema.rs:136 | the decimal text of a number reads back as that number |
| Models.TableLocation.ParentTablePath | src/database/database_json.rs:104-105 | the parent table path is the table path without its last element, and empty at the root |
| Naming.IdPrefixMatch | src/parser.rs:49 | a match of `^(?:id)+_` has a group that is a whole run of `id`, followed by `_` |
| Naming.IdUnderscoreMatches | src/parser.rs:49 | every name starting with `id_` matches with a one-`id` group |
| Naming.EscapeIdPrefix | src/parser.rs:47-53 | the result never starts with `id_`, so no value column collides with an id column |
| Naming.EscapeIdPrefixAddsOneId | src/parser.rs:47-53 | `id`^k `_` rest becomes `id`^(k+1) `_` rest |
| Naming.EscapeIdPrefixRoundTrip | src/parser.rs:47-53 | removing the inserted `id` gives back the input |
| Naming.EscapeIdPrefixInjective | src/parser.rs:47-53 | distinct names stay distinct after the id-prefix escape |
| Naming.JoinMatch | src/parser.rs:57 | a match of `_(?:w)+_` is `_`, a maximal run of `w`, and `_` |
| Naming.EscapeJoins | src/parser.rs:67 | every joiner `_w..w_` gains one copy of `w`, and the output is never shorter |
| Naming.EscapeJoinsCopies | src/parser.rs:67 | text without underscores is copied unchanged |
| Naming.EscapeJoinsHead | src/parser.rs:67 | the escaped text starts with `_` exactly when the input does |
| Naming.EscapeJoinsRoundTrip | src/parser.rs:67 | removing the added copies gives back the input |
| Naming.EscapeJoinsInjective | src/parser.rs:67 | distinct keys stay distinct after the joiner escape |
| Naming.EscapeNestedKeyElement | src/parser.rs:55-73 | the result is never empty and never starts with `_` |
| Naming.EscapeEmptyRun | src/parser.rs:58-68 | `empty`^k becomes `empty`^(k+1) |
| Naming.EscapeListRun | src/parser.rs:59-69 | `list`^k becomes `list`^(k+1) |
| Naming.EscapeLeadingUnderscore | src/parser.rs:60-70 | a leading `_` becomes `tech_` |
| Naming.MapStrings | src/parser.rs:83 | `iter().map(f).collect()` keeps the length and applies `f` at every index |
| Naming.NestedKeyJoinedIsReversedJoin | src/parser.rs:76-87 | a non-empty key gives its elements reversed, escaped and joined by `_in_` |
| Naming.NestedKeyOfEmpty | src/parser.rs:78-79 | the empty key is the column `list` |
| Naming.NestedKeyNotIdPrefixed | src/database/database_json.rs:40-54 | no value column name starts with `id_` |
| Naming.NestedKeyDistinct | src/database/database_json.rs:40-54 | distinct joined keys give distinct column names |
| Naming.NestedKeySingle | src/database/database_json.rs:40-54 | a one-key path names its single escaped key |
| Naming.NestedKeyDeeper | src/parser.rs:81-84 | a deeper key goes in front, followed by `_in_` |
| Naming.EscapeTablePathElement | src/parser.rs:89-95 | the `lin` joiner escape never shortens its input |
| Naming.TablePathToStrIsJoin | src/parser.rs:98-106 | the table name is the escaped elements joined by `_lin_`, in the given order, and `""` for no element |
| Naming.TablePathOfOne | src/parser.rs:98-106 | a one-element path names its escaped element |
| Naming.TablePathCons | src/parser.rs:98-106 | the first element is written first, followed by `_lin_` and the rest |
| Naming.TablePathSnoc | src/parser.rs:98-106 | appending an element appends `_lin_` and its escape |
| Naming.TablePathNonEmpty | src/parser.rs:98-106 | a path whose first name is non-empty has a non-empty table name |
| LegacyParser.KeyNames | src/parser.rs:132-134 | one column name per stack element, in stack order |
| LegacyParser.ListPathOfJoined | src/parser.rs:130-138 | the current list path joins the key names, innermost first, then the root name |
| LegacyParser.ParentListPathOfJoined | src/parser.rs:140-149 | the parent list path drops the innermost key name before joining |
| LegacyParser.ParentOfPushed | src/parser.rs:140-149 | the parent of a newly entered list is the list it was entered from |
| LegacyParser.ListPathOfRoot | src/parser.rs:130-149 | at the document root both paths are the escaped root name |
| LegacyParser.IdColumnsDistinct | src/parser.rs:158-162 | inside a list the own and the parent id columns differ |
| LegacyParser.PublishedObjectIds | src/parser.rs:157-165 | the own id sits in `id_<table>`, and the parent id in `id_<parent>` only inside a list |
| LegacyParser.PublishedObjectColumns | src/parser.rs:157-165 | publishing adds one id column at the root, two inside a list, and nothing else |
| LegacyParser.PublishedObjectKeepsValues | src/parser.rs:157-173 | every value column reaches the consumer unchanged |
| LegacyParser.NestedObjectHandler.constructor | src/parser.rs:109-119 | empty stack, key, object and `array_ids`; the id is the root id |
| LegacyParser.NestedObjectHandler.HandleJsonValue | src/parser.rs:121-124 | the value is stored under the current key's column, and nothing else changes |
| LegacyParser.NestedObjectHandler.CurrentListPath | src/parser.rs:130-138 | the loop builds the current list path |
| LegacyParser.NestedObjectHandler.ParentListPath | src/parser.rs:140-149 | the loop builds the parent list path |
| LegacyParser.NestedObjectHandler.PublishObject | src/parser.rs:151-174 | one publication with the id columns added, the id up by one, the object emptied |
| LegacyParser.NestedObjectHandler.WithIdColumns | src/parser.rs:152-165 | the table name and the object with its id columns |
| LegacyParser.NestedObjectHandler.PublishIfAtRoot | src/parser.rs:187-189 | publishes exactly when no map is open in the list element |
| LegacyParser.NestedObjectHandler.HandleNull | src/parser.rs:179-182 | stores a null and never publishes |
| LegacyParser.NestedObjectHandler.HandleScalar | src/parser.rs:193-200 | stores the value, and publishes it under `list` when at a list element's top level |
| LegacyParser.NestedObjectHandler.HandleDouble | src/parser.rs:184-191 | as HandleScalar, for the double's printed text |
| LegacyParser.NestedObjectHandler.HandleInt | src/parser.rs:193-200 | as HandleScalar, for an integer |
| LegacyParser.NestedObjectHandler.HandleBool | src/parser.rs:202-209 | as HandleScalar, for a boolean |
| LegacyParser.NestedObjectHandler.HandleString | src/parser.rs:211-220 | as HandleScalar, for an already decoded string |
| LegacyParser.NestedObjectHandler.HandleStartMap | src/parser.rs:222-225 | pushes an unnamed key, and nothing else changes |
| LegacyParser.NestedObjectHandler.HandleEndMap | src/parser.rs:227-234 | pops the key, and publishes when that closes the list element |
| LegacyParser.NestedObjectHandler.HandleMapKey | src/parser.rs:236-243 | renames the innermost key; fails exactly outside a map |
| LegacyParser.NestedObjectHandler.HandleStartArray | src/parser.rs:245-277 | saves the enclosing list's next id, pushes the open state, and resumes the new list's numbering from its saved id or 0 |
| LegacyParser.NestedObjectHandler.SaveListId | src/parser.rs:247-248 | records the current list's next id under its path |
| LegacyParser.NestedObjectHandler.PushListStack | src/parser.rs:250-265 | moves object, id and key onto the stack and starts afresh |
| LegacyParser.NestedObjectHandler.ResumeNumbering | src/parser.rs:268-271 | takes the saved id when the list path has one |
| LegacyParser.NestedObjectHandler.HandleEndArray | src/parser.rs:279-295 | saves the list's next id, restores exactly what the start saved, and publishes at a list element's top level; fails exactly on an empty stack |
| LegacyParser.NestedObjectHandler.PopListStack | src/parser.rs:285-289 | restores the innermost saved object, id and key; the stack shrinks by one |
| LegacyParser.ArrayInsideMapRestores | src/parser.rs:245-295 | a list opened and closed inside a map gives back the enclosing object, id and key |
| LegacyParser.ReenteredArrayResumes | src/parser.rs:268-271 | leaving a list and entering the same path again resumes its numbering |
| Parser.ObjectHandler.constructor | src/parser/mod.rs:25-31 | id 0, empty path, empty record |
| Parser.ObjectHandler.Pop | src/parser/mod.rs:34-43 | nothing while a map is open; otherwise the id and the record, then an empty record and the next id |
| Parser.ObjectHandler.HandleJsonValue | src/parser/mod.rs:45-47 | the record gets the value at the current path; other entries stay |
| Parser.ObjectHandler.HandleStartMap | src/parser/mod.rs:49-51 | pushes `""` |
| Parser.ObjectHandler.HandleEndMap | src/parser/mod.rs:53-55 | pops one key; no effect on an empty path |
| Parser.ObjectHandler.HandleMapKey | src/parser/mod.rs:57-59 | replaces only the last key; fails exactly on an empty path |
| Parser.PopRepeatedly | src/parser/mod.rs:34-43 | successive pops give consecutive ids |
| Parser.FreshHandlerIds | src/parser/mod.rs:25-43 | a new handler numbers its records 0, 1, 2, ... |
| Parser.PathLength | src/parser/mod.rs:77 | a node's path is empty exactly at the root |
| Parser.PathDeterminesNode | src/parser/mod.rs:130-150 | one node per table path |
| Parser.WithLeaf | src/parser/mod.rs:142-147 | the new arena: one more node, linked from its parent, every other node kept |
| Parser.WithLeafLinked | src/parser/mod.rs:142-147 | a new leaf keeps the tree linked, and its path is the parent's path plus the key |
| Parser.ObjectHandlerHashTree.constructor | src/parser/mod.rs:75-81 | one root node, its own parent, with a new handler |
| Parser.ObjectHandlerHashTree.Current | src/parser/mod.rs:104-106 | the handler of the current node |
| Parser.ObjectHandlerHashTree.Parent | src/parser/mod.rs:95-121 | none exactly at the root; otherwise the parent node's handler, never the current one |
| Parser.ObjectHandlerHashTree.GoUp | src/parser/mod.rs:123-128 | moves to the parent and drops the last path element |
| Parser.ObjectHandlerHashTree.GoDown | src/parser/mod.rs:130-150 | reuses a linked child, or appends exactly one new node under the current one |
| Parser.ObjectHandlerHashTree.AddLeaf | src/parser/mod.rs:140-148 | the new node, its new handler and its link |
| Parser.DownThenUp | src/parser/mod.rs:123-150 | going down then up returns to the same node and path |
| Parser.NestedObjectHandler.constructor | src/parser/mod.rs:169-174 | a tree with only its root and nothing emitted |
| Parser.NestedObjectHandler.ParentObjectId | src/parser/mod.rs:194-199 | the parent handler's current id, or 0 at the root |
| Parser.NestedObjectHandler.TryPop | src/parser/mod.rs:188-205 | emits the finished record at the current path with the parent's id, or nothing while a map is open |
| Parser.NestedObjectHandler.HandleJsonValue | src/parser/mod.rs:210-214 | stores the value and emits a finished record |
| Parser.NestedObjectHandler.HandleStartMap | src/parser/mod.rs:216-219 | opens a map in the current handler |
| Parser.NestedObjectHandler.HandleEndMap | src/parser/mod.rs:221-225 | closes the map and emits a finished record |
| Parser.NestedObjectHandler.HandleMapKey | src/parser/mod.rs:227-230 | renames the current handler's innermost key |
| Parser.NestedObjectHandler.HandleStartArray | src/parser/mod.rs:232-236 | goes down under the current key path |
| Parser.NestedObjectHandler.HandleEndArray | src/parser/mod.rs:238-242 | goes up and emits the enclosing record when it is finished |
| Parser.NestedObjectHandler.HandleEvent | src/parser/mod.rs:209-243 | dispatches an event; emissions are only ever appended |
| Parser.NestedObjectHandler.Consume | src/parser/mod.rs:209-243 | feeds the events in order; earlier emissions are kept |
| Schema.NewColumn | src/database/schema.rs:61-69 | a new column: not nullable, every kind still possible, no examples |
| Schema.Absorb | src/database/schema.rs:78-87 | the flags after one value, and an example appended only while there are fewer than five and the value is not null |
| Schema.AbsorbMonotone | src/database/schema.rs:79-86 | nullable only turns on; the kind flags only turn off; examples only grow |
| Schema.AbsorbKeepsExamplesOk | src/database/schema.rs:85-87 | at most five examples, none null |
| Schema.NonNull | src/database/schema.rs:85 | the non-null values, never more than the input |
| Schema.AbsorbAllExamples | src/database/schema.rs:61-87 | from a new column, the examples are the first five non-null values in arrival order |
| Schema.ConsistentAfterNew | src/database/schema.rs:61-71 | an appended and indexed column keeps the index consistent |
| Schema.ConsistentAfterAbsorb | src/database/schema.rs:76-88 | folding a value into a column keeps the index consistent |
| Schema.TableSchema.EmptyWithIds | src/database/schema.rs:40-51 | columns exactly `[PrimaryKey, ForeignKey]`, with the given name and path |
| Schema.TableSchema.AbsorbEntry | src/database/schema.rs:58-92 | a known path's column absorbs the value in place; an unseen path gets a new column at the end |
| Schema.TableSchema.AddColumn | src/database/schema.rs:53-55 | appends the column |
| Schema.TableSchema.UpdateEntry | src/database/schema.rs:58-92 | one loop step keeps the update's invariant |
| Schema.TableSchema.Update | src/database/schema.rs:57-93 | every record path has its column with the value absorbed; other columns and all positions stay; the index stays consistent |
| Schema.EntryStep | src/database/schema.rs:59-74 | what one entry changes and what it keeps |
| Schema.UpdateStep | src/database/schema.rs:58-92 | the loop invariant advances by one entry |
| Schema.DatabaseSchema.Empty | src/database/schema.rs:116-121 | no table |
| Schema.DatabaseSchema.BorrowTableSchema | src/database/schema.rs:124-143 | a known path takes its slot and leaves None; an unseen path gets the next id, the name `table_<id>`, an empty schema and an empty slot |
| Schema.DatabaseSchema.ReturnTableSchema | src/database/schema.rs:145-151 | refills the path's slot; fails exactly on an unknown path |
| Schema.DatabaseSchema.EnsureAllTablesReturned | src/database/schema.rs:153-162 | fails exactly when some slot is empty, that is when some schema is still lent out |
| Schema.BorrowTwice | src/database/schema.rs:124-143 | a second borrow without a return gives None |
| DatabaseCsv.DoubleQuotes | src/database/database_csv.rs:16 | doubling quotes never shortens the text |
| DatabaseCsv.CsvFieldQuote | src/database/database_csv.rs:15-17 | the result is enclosed in double quotes |
| DatabaseCsv.CsvFieldEscape | src/database/database_csv.rs:21-32 | the result is quoted exactly when the input is empty or holds `"`, `,` or a line feed |
| DatabaseCsv.ReadQuotedDoubled | src/database/database_csv.rs:16 | a quoted field's content reads back with doubled quotes undone |
| DatabaseCsv.ReadPlainText | src/database/database_csv.rs:30 | an unquoted field reads back up to its end |
| DatabaseCsv.CsvFieldEscapeRoundTrip | src/database/database_csv.rs:21-32 | every escaped field reads back as the same string, and the reader stops right after it |
| DatabaseCsv.MissingFieldRoundTrip | src/database/database_csv.rs:91 | an empty field reads back as a missing value |
| DatabaseCsv.CsvFieldQuoteRoundTrip | src/database/database_csv.rs:15-17 | stripping the outer quotes and undoubling gives back the input |
| DatabaseCsv.ValueToStr | src/database/database_csv.rs:47-60 | fails exactly on arrays and objects; missing exactly for null |
| DatabaseCsv.IntTextPlain | src/database/database_csv.rs:51 | an integer's text is non-empty and never needs quoting |
| DatabaseCsv.ValueToStrEscapes | src/database/database_csv.rs:47-60 | every scalar becomes its text escaped as a field |
| DatabaseCsv.FieldTexts | src/database/database_csv.rs:86-92 | one field per value; a missing value is empty |
| DatabaseCsv.EscapeCells | src/database/database_csv.rs:52 | every cell escaped, in order |
| DatabaseCsv.CellRoundTrip | src/database/database_csv.rs:84-94 | a cell written as a field reads back as the same cell |
| DatabaseCsv.RowRoundTrip | src/database/database_csv.rs:84-100 | a written row reads back as its cells: the same count, each text, and missing told apart from empty |
| DatabaseCsv.ColumnValues | src/database/database_csv.rs:65-76 | one value per column, in column order; fails exactly when some column's value fails |
| DatabaseCsv.RowOfUpdatedSchema | src/database/database_csv.rs:62-77 | after the update: own id first, parent id second, each record value in its path's column, missing elsewhere |
| DatabaseCsv.TableCsv.constructor | src/database/database_csv.rs:40-45 | holds the schema and has written nothing |
| DatabaseCsv.TableCsv.MakeColumns | src/database/database_csv.rs:62-77 | folds the record into the schema, then gives the column values; fails without a schema |
| DatabaseCsv.TableCsv.Write | src/database/database_csv.rs:79-101 | appends the fields joined by `,` and one line feed; nothing is written on failure |
| DatabaseCsv.TableCsv.PopSchema | src/database/database_csv.rs:107-111 | returns the schema and leaves none |
| DatabaseCsv.DatabaseCsv.constructor | src/database/database_csv.rs:121-139 | no table yet |
| DatabaseCsv.DatabaseCsv.GetOrCreateTable | src/database/database_csv.rs:141-160 | a known path keeps its table; a new path borrows its schema once and gets a new table with an empty file |
| DatabaseCsv.DatabaseCsv.CreateTable | src/database/database_csv.rs:142-157 | a path the registry does not know borrows a new schema with only the two id columns and gets a new table with an empty file; the registry stays consistent |
| DatabaseCsv.DatabaseCsv.AddTable | src/database/database_csv.rs:156-157 | files the new table under its path |
| DatabaseCsv.DatabaseCsv.WriteTo | src/database/database_csv.rs:172-175 | the path's table appends the row, and every other table keeps its output |
| DatabaseCsv.DatabaseCsv.Write | src/database/database_csv.rs:172-175 | the record's row is appended to its table's output, after creating the table if needed |
| DatabaseCsv.DatabaseCsv.ReturnSchemaOf | src/database/database_csv.rs:180-185 | one table hands its schema back to its slot |
| DatabaseCsv.DatabaseCsv.ReturnOne | src/database/database_csv.rs:178-186 | one more table hands back the schema it held to its slot; the tables still to go keep theirs and stay lent out |
| DatabaseCsv.DatabaseCsv.ReturnAll | src/database/database_csv.rs:178-186 | every table hands back its schema; no schema stays lent out |
| DatabaseCsv.DatabaseCsv.Close | src/database/database_csv.rs:177-188 | after returning every schema, `ensure_all_tables_returned` passes and every slot holds its table's schema |
| DatabaseJson.JsonPathNames | src/database/database_json.rs:72-75 | one column name per path, in order |
| DatabaseJson.TableNameOfRoot | src/database/database_json.rs:64-83 | the root table is named after the root name alone |
| DatabaseJson.TableNameOfNested | src/database/database_json.rs:64-83 | a nested table's name is its innermost list's name, `_lin_`, then the parent table's name |
| DatabaseJson.TableNameNonEmpty | src/database/database_json.rs:67-70 | the `""` branch is unreachable: every table name is non-empty |
| DatabaseJson.IdColumnsDistinct | src/database/database_json.rs:95-111 | inside a list the own and the parent id columns differ |
| DatabaseJson.RecordToJson | src/database/database_json.rs:85-115 | one column per record path with its value, plus the own id and the parent id columns |
| DatabaseJson.ValueColumnsAreNotIds | src/database/database_json.rs:91-111 | no value column starts with `id_` |
| DatabaseJson.RecordJsonValues | src/database/database_json.rs:85-115 | values reach the object unchanged; inside a list the own id is kept |
| DatabaseJson.RootRecordIds | src/database/database_json.rs:95-111 | at the root the two id columns coincide and hold the parent id |
| DatabaseJson.DatabaseJson.constructor | src/database/database_json.rs:123-125 | keeps the root name and the target |
| DatabaseJson.DatabaseJson.Write | src/database/database_json.rs:137-149 | appends exactly one object to the table's array, creating it if absent; fails exactly where the source panics |
| ConsumerJson.PushToTable | src/consumer_json.rs:7-16 | the array under the name grows by one, ending with the object; earlier elements and other keys stay; fails on a non-array |
| ConsumerJson.ConsumeToJson | src/consumer_json.rs:7-16 | the root object after the push; unchanged where the source panics |
| ConsumerJson.ConsumeLogRows | src/consumer_json.rs:7-16 | consuming a log gives each table its published objects in order, after what it had |
| ConsumerJson.ConsumeLogTables | src/consumer_json.rs:7-16 | consuming a log never fails on a root whose keys all hold arrays, and they still do |
| Read.Lookup | src/read.rs:53-62 | a mapping exists exactly when the remapper, table and local id are all known |
| Read.GlobalIdsDistinct | src/read.rs:65-77 | in one table, two live mappings share a global id only when they are the same mapping, and it is below the counter |
| Read.InvAfterRegister | src/read.rs:36-44 | registering or dropping a remapper keeps the invariant |
| Read.InvAfterMap | src/read.rs:65-77 | mapping a new local id to the counter, then incrementing it, keeps the invariant |
| Read.IdRemapper.constructor | src/read.rs:29-34 | no counters and no remappers |
| Read.IdRemapper.StartRemapper | src/read.rs:36-40 | the id is the number of live remappers, and an empty map is registered under it |
| Read.IdRemapper.StartFreshRemapper | src/read.rs:36-40 | the id was never given out, so no live map is replaced |
| Read.IdRemapper.FinishRemapper | src/read.rs:42-44 | removes only that remapper's map; counters survive |
| Read.IdRemapper.FindObjId | src/read.rs:47-80 | a known local id keeps its global id; a new one gets the counter, which goes up by one; fails on an unknown remapper |
| Read.IdRemapper.IssueId | src/read.rs:63-77 | a local id not mapped yet gets the table's counter, the counter goes up by one, the id is recorded as issued to that remapper, and no mapping is lost |
| Read.IdRemapper.RemapIds | src/read.rs:82-87 | keeps the table path; the own id is remapped in the table, the parent id in the parent table |
| Read.StartRemapperReusesLiveId | src/read.rs:36-40 | finishing remapper 0 while remapper 1 is live makes the next start return 1 again, and its mapping is lost |
| Read.StartFreshRemapperKeepsLiveMaps | src/read.rs:36-44 | with the corrected start, the live remapper keeps its id and its mapping |
| Read.ReaderIndices | src/read.rs:97 | one reader index per record, each below the number of readers |
| Read.ReadersSnoc | src/read.rs:97-114 | one more reader appends its records, tagged with its index |
| Read.RemappedIds | src/read.rs:61-77 | two output ids in one table are equal exactly when they come from the same reader and the same local id |
| Read.RemapStep | src/read.rs:101-104 | remapping one more record keeps the reading loop's invariants |
| Read.ReadRecords | src/read.rs:101-109 | one reader's records, written in order with remapped ids, and counted |
| Read.ReadToDbMany | src/read.rs:90-115 | one count per reader, in order, equal to its number of records; records and tables kept; ids unique across readers and consistent within one |
| FormatTestExpected.CaseName | format_test_expected.py:14 | the identifier followed by the suffix is the file name |
| FormatTestExpected.ExpectedFile | tests/test.rs:29 | the test's expected-output file ends with the suffix |
| FormatTestExpected.CaseNameOfExpectedFile | tests/test.rs:29 | stripping the test's file name gives back the test case |
| FormatTestExpected.CaseLineInjective | format_test_expected.py:14 | distinct cases print distinct lines |
| FormatTestExpected.BelowReflexive | format_test_expected.py:10 | the string order is reflexive |
| FormatTestExpected.BelowAntisymmetric | format_test_expected.py:10 | the string order is antisymmetric |
| FormatTestExpected.BelowTransitive | format_test_expected.py:10 | the string order is transitive |
| FormatTestExpected.BelowTotal | format_test_expected.py:10 | the string order is total |
| FormatTestExpected.Insert | format_test_expected.py:10 | inserting into a sorted list keeps it sorted and adds exactly that name |
| FormatTestExpected.SortedNames | format_test_expected.py:10 | the listing sorted: sorted, and a permutation of the listing |
| FormatTestExpected.FormatCases | format_test_expected.py:10-14 | the loop prints the case lines of the sorted listing |
| FormatTestExpected.Kept | format_test_expected.py:11-12 | exactly the names ending in `-in-expected.json` |
| FormatTestExpected.CaseLinesOfKept | format_test_expected.py:11-14 | one line per kept name, in visiting order |
| FormatTestExpected.KeptSorted | format_test_expected.py:10-12 | skipping names keeps the rest sorted |
| FormatTestExpected.PrintedLines | format_test_expected.py:10-14 | one line per expected-output file of the listing, in sorted file order, and none for other names |
| FormatTestExpected.CaseCount | format_test_expected.py:11-14 | a case's line is printed as often as its expected-output file is listed |

## Left out

- The `yajlish` tokenizer is not part of this model. The flatteners take its events as a sequence of `Event` values.
- `json::parse` of keys and strings in `src/parser.rs` is not modelled. Keys and strings arrive already decoded.
- The `cached!` memoisation of the name functions is left out. They are plain functions.
- Floating-point numbers are not modelled. A float is its printed text, and `is_f64` is a value tag only.
- File and directory creation, the buffered writers, `flush` and the schema's serde serialisation are left out. Each CSV file is a string buffer.
- `read_to_db`, the parallel reader, the command line, the file and stdout sinks, and the `Database` trait with its `todo!()` getters are not part of this model.
- The simplejson rewrite of the fixtures in `format_test_expected.py` is file I/O and is left out. Printing is modelled as the returned lines.
- Callback arguments are not modelled in `read_to_db_many`. The callback receives a count per reader, and the database writes are returned as a log.
- The 32-bit object ids, the remapper's counters and `usize` indices are unbounded integers. Overflow is not modelled.
- Parser.NestedObjectHandler.HandleStartArray: states the move down the tree, not the handler contents of the new node.
- Parser.NestedObjectHandler.HandleEvent: states only that emissions are appended. The per-event effects are in the handler methods it dispatches to.
- Parser.NestedObjectHandler.Consume: states only that earlier emissions are kept.
- DatabaseCsv.DatabaseCsv.Write: does not restate that the other tables' output is unchanged. DatabaseCsv.DatabaseCsv.WriteTo states it.
- DatabaseCsv.TableCsv.Write: does not restate how the schema changed. DatabaseCsv.TableCsv.MakeColumns and Schema.TableSchema.Update state it.
- DatabaseJson.RecordToJson: when two record paths have the same column name, it states only that the column holds one of their values. The HashMap order of `record_to_json` decides which one.
- DatabaseCsv.DatabaseCsv.constructor: only an empty registry is modelled, while `DatabaseCsv::new` accepts any `DatabaseSchema`. `DatabaseSchema::empty` is the only constructor that returns one: its `Deserialize` implementation calls itself (src/database/schema.rs:108). With a registry that already knew a path, `get_or_create_table_mut` would take that slot's existing schema, or panic when the slot is lent out. The contracts of `GetOrCreateTable` and `CreateTable` (a new table starts with the two id columns only) do not cover that case.
- JSON objects are unordered maps (`JsonValue.Object`), while the `json` crate's `Object` keeps keys in insertion order. So the key order of the rows the legacy flattener publishes (value columns, then `id_<table>`, then `id_<parent>`) is not modelled. Neither is the order of the table keys in the root object that `consume_to_json` fills.
- `read_to_db_many` uses the corrected `StartFreshRemapper` (see Findings). With `start_remapper` as written and one remapper live at a time, both give distinct live ids.

## Findings

| source | as written | input that shows it | evidently intended | confidence | as-written member | corrected member |
|---|---|---|---|---|---|---|
| src/read.rs:36-40 | `start_remapper` uses the number of live remappers as the new id | start, start, finish the first (id 0), start: the new remapper gets id 1, which is still live, and that remapper's map is replaced by an empty one | each remapper gets an id no live remapper holds | not executed; `read_to_db_many` runs one remapper at a time, so the reuse is latent | Read.StartRemapperReusesLiveId | Read.IdRemapper.StartFreshRemapper |
