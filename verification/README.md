# libmsi: a verified model of the in-memory database engine

libmsi keeps a Windows Installer database in memory: a table of interned strings, tables of fixed-width
cells, and views that select, join, sort, insert into and update them. This project models that engine in
Dafny and proves what its parts promise, alone and together. `dafny verify dfyconfig.toml`
checks the whole project.

The program's integers are C integers. Where their width matters it is written out: 16-bit reference counts,
32-bit cells and offsets, conversions to `int`. Bytes are `Byte`, C strings are sequences of bytes without the
terminating NUL, and input and output streams are byte sequences.

## Modules

| files | contents |
|---|---|
| `Prelude.dfy`, `Records.dfy`, `LittleEndian.dfy` | result codes, `strcmp`, parameter records, little-endian words |
| `FieldMeaning.dfy`, `WhereMeaning.dfy` | what a stored cell, a literal and a written condition mean, said of cells, type bits and values alone |
| `WhereEval.dfy`, `WherePruning.dfy` | evaluation of a condition on a partial row assignment, and why pruning on it is sound |
| `WhereOrder.dfy`, `WhereSearch.dfy`, `WhereView.dfy`, `WhereMarkers.dfy` | join order, nested loop, sorting, and which parameter markers survive a join |
| `StringPool.dfy`, `StringTable.dfy` | the interning table as a value, and the code over its arrays |
| `StringCodec.dfy`, `StringTableIo.dfy` | the stored form of the string table, writing it and loading it |
| `TableLayout.dfy`, `TableStorage.dfy`, `Commit.dfy` | cells in a row, the column-major stored form, commit and reopen |
| `HashIndex.dfy`, `TableRows.dfy`, `TableView.dfy`, `RowRecords.dfy` | column index, keys and rows, the table view, reading a row back |
| `KeyedInsert.dfy`, `Persistence.dfy` | the row that an insertion leaves and the order of keys, which rows outlast a commit |
| `Insert.dfy`, `Update.dfy`, `UpdateView.dfy`, `Distinct.dfy` | INSERT, UPDATE through its stacked views, SELECT DISTINCT |
| `StreamName.dfy`, `SummaryInfo.dfy`, `Splitter.dfy` | stream names, the summary information property set, the SQL statement splitter |
| `SummaryLayout.dfy`, `SqlTokens.dfy` | the same in numbers and bytes: codes and offsets of a summary stream, the tokens of SQL text |

Code that changes state step by step is modelled as methods over arrays and class fields, each proved against
a function on values; the laws are lemmas about those functions. Pointers to list nodes and index entries are
positions in the block they live in.

## What the proofs found

- A join loses rows when a string comparison whose right side is `?` is skipped on a partial assignment: its
  marker is not counted, and the next marker reads its field (`WhereMarkers.MarkerOvertaken`, for every two
  different non-empty strings). `WhereMarkers.AlignmentExact` says which queries are safe,
  `WhereSearch.SearchExact` what the others find, and `WhereViews.UncutIsAnswer` when that is the answer.
- A comparison with a text on one side takes a number on the other for the empty text, and a NULL integer compares
  as the integer that is stored as 0, -32768 or -2147483648 (`WhereMeaning.VerifyMeans`).
- A 16-bit reference count that wraps to zero leaves an index entry for a slot that counts as free
  (`StringPools.AddBreaks`), and the next new string is given the same id (`StringPools.IdReused`).
- A string of 0x10000 bytes or more is written with its length split over two entries, and the reader takes the
  high word from the wrong place (`StringCodec.LongEntryLength`). The string table comes back as it was if and only
  if the count of every such string happens to be the high word of its length (`StringCodec.RoundTrip`); one of
  0x20000 bytes with one reference is lost (`StringCodec.LongStringLost`).
- A string table of one slot forgets its code page (`StringCodec.EmptyRoundTrip`, `StringCodec.CodepageForgotten`).
- A string that is found is not counted again. If only temporary rows use it, a persistent row that is inserted
  with it loses it at the next commit (`Persistence.InsertLasts`, `Persistence.TemporaryFirst`,
  `Commit.CellMeaning`).
- The writer of tables lets the string id 0x10000 through a two-byte column (`TableStorage.AcceptedRoundTrip`,
  `TableStorage.TopByteLost`). A commit never asks it to: the width that it passes on fits every id
  (`Commit.ChosenWidthFits`).
- The integers -32768 and -2147483648 share the stored value 0 with NULL (`RowRecords.ReadBack`,
  `RowRecords.SmallestLost`).
- Inserting a row drops the indexes of the columns that it writes, and a string that is in the cell already is not
  written. An index that survives in this way is wrong (`TableViews.TableView.InsertRow`,
  `TableViews.SurvivorsStale`): it misses the new row, and gives the rows below by their old numbers
  (`TableViews.SurvivorMisleads`, `TableViews.OneSurvivor`).
- An insertion that fails because an integer does not fit leaves a row in the table: the fields before that integer,
  and behind it the cells of the row that was at the place (`Inserts.FailedInsertStays`, `Inserts.OutOfRangeStays`).
  If a key column lies behind it, the table may lose its order, or hold two rows with one key
  (`KeyedInserts.InsertOrder`, `Inserts.RunSorted`, `Inserts.CopyStays`).
- An INSERT with a `?` but no parameters succeeds without inserting (`Inserts.InsertExecute`).
- A column that does not take NULL can still end up with it: by an INSERT of -32768 into a 16-bit column, by one that
  fails at the end of the table (`Inserts.StepNoNulls` says exactly when), and by any UPDATE, which checks nothing
  (`UpdateViews.UpdateExecute`).
- The markers of a WHERE clause in an UPDATE take the record fields that follow as many as the SET list has
  values, which are theirs only if every value of the SET list is a marker (`UpdateViews.MarkersTakeOwnFields`,
  `UpdateViews.LiteralTakesField`).
- A key string that is new to the string table puts its row last whatever id it gets, so the order of keys
  depends on the slot that happened to be free (`Inserts.NewKeyLast`, `Inserts.KeyOrderLost`).
- Blanks that stand alone between two statements, or at the end of the text, are handed to the callback as a
  statement of their own (`Splitter.BlankStatements` says for which texts, `Splitter.BlankStatement` is an instance).

## Model

| member | source | states |
|---|---|---|
| `WhereEval.ContinueValueUnused` | libmsi/where.c:361-435 | AND, OR and comparisons give the same result whatever an unknown side's value is |
| `WhereEval.VerifyTypes` | libmsi/where.c:1004-1091 | verification accepts a grammatical condition exactly when it orders no strings, and then its result is one that execution accepts |
| `WhereMeaning.VerifyMeans` | libmsi/where.c:1004-1091 | the condition that is executed holds of a tuple of rows if and only if the one that was written means so, its meaning being said of the stored cells, the type bits, the texts and the record fields alone |
| `WhereMeaning.FetchedCell` | libmsi/where.c:437-451 | the cell that is fetched for a column is the one in its place in the row |
| `WhereEval.EvalFacts` | libmsi/where.c:541-591 | on any row assignment a typed condition gives SUCCESS or CONTINUE, never an error, and how far it advances the parameter index |
| `WherePruning.EvalKept` | libmsi/where.c:361-591 | a SUCCESS under a partial assignment is repeated, with the same truth value, under every extension, when the markers are aligned |
| `WherePruning.EvalFull` | libmsi/where.c:541-591 | under a full assignment CONTINUE is impossible and the value is the two-valued meaning of the condition |
| `WherePruning.VerdictFinal` | libmsi/where.c:593-626 | the verdict the nested loop prunes on decides every full extension, both ways |
| `WherePruning.MarkersReadOwnFields` | libmsi/where.c:510-539 | each evaluated `?` is given its own record field if and only if no skipped marker stands before one that is read |
| `WherePruning.EvalReads` | libmsi/where.c:541-591 | an evaluation depends on the record fields listed for it and on no other field: with these equal, code, value and parameter index are equal |
| `WhereOrder.OrderIsPermutation` | libmsi/where.c:695-756 | whatever the heuristic does, every table is listed exactly once |
| `WhereOrder.NullTestOrderedFirst` | libmsi/where.c:695-756 | a bare IS [NOT] NULL condition has its table joined first |
| `WhereOrder.AddToArray` | libmsi/where.c:675-681 | appends a table to the null-terminated array unless it is there or null |
| `WhereOrder.ReorderCheck` | libmsi/where.c:695-731 | the array, the code and `lastused` after the recursive walk are those of the value-level walk |
| `WhereOrder.OrderTables` | libmsi/where.c:734-756 | the array of tables lists the chosen order and ends in null |
| `WhereSearch.SearchRefines` | libmsi/where.c:593-626 | the pruned nested loop finds, in order, exactly what filtering the full product of the tables finds |
| `WhereSearch.SearchFindsTuples` | libmsi/where.c:593-626 | even without aligned markers, everything that is found is a tuple of rows and nothing is found twice |
| `WhereSearch.SearchExact` | libmsi/where.c:593-626 | without aligned markers the search still succeeds, and finds a tuple if and only if it satisfies the condition and no verdict on a part of its tables cuts it off |
| `WhereViews.WhereView.CheckCondition` | libmsi/where.c:593-626 | the recursion over the mutable row array adds exactly those tuples, and restores the array |
| `WhereViews.CompareTotal` | libmsi/where.c:628-673 | comparing entries is a strict total order on row tuples: zero only on equal ones, antisymmetric, transitive |
| `WhereViews.CompareEntry` | libmsi/where.c:628-673 | the first ORDER BY column in which the stored cells differ decides, the smaller one first; without one the row indices do, in table order; no fetch fails |
| `WhereViews.AscendingUnique` | libmsi/where.c:801-807 | a set of tuples has one ascending arrangement, so any correct sort gives the same list |
| `WhereViews.AnswerUnique` | libmsi/where.c:758-812 | tables, condition and ORDER BY determine the answer, whatever order the tables were joined in |
| `WhereViews.SearchComplete` | libmsi/where.c:758-812 | for every join order that keeps markers aligned the search succeeds with each satisfying tuple exactly once |
| `WhereViews.WhereView.Execute` | libmsi/where.c:758-812 | without tables it fails, with an empty table the result is empty; otherwise the result is the sorted set of the satisfying tuples that no verdict on a part of the tables cuts off, and with aligned markers exactly the tuples that the condition, as it was written, means |
| `WhereViews.CreateView` | libmsi/where.c:1093-1163 | a condition that orders texts is refused; any other becomes a view that executes it as verification leaves it |
| `WhereViews.AnswerMeans` | libmsi/where.c:758-812 | an answer to the condition that is executed is an answer to the one that was written |
| `WhereViews.UncutIsAnswer` | libmsi/where.c:758-812 | the result is the answer to the query if and only if every tuple that satisfies the condition passes every verdict on a part of its tables |
| `WhereMarkers.AlignmentExact` | libmsi/where.c:510-539 | the precondition of the join theorem holds if and only if every evaluation the loop can make reads each marker's own field |
| `WhereMarkers.SafeQueries` | libmsi/where.c:593-626 | one table, no condition, or no string comparison with `?` on its right is enough |
| `WhereMarkers.MarkerOvertaken` | libmsi/where.c:510-539 | for every two different non-empty strings, `first.c = ? AND second.c = ?` loses its only match |
| `StringPools.AddKeeps` | libmsi/string.c:306-343 | an addition keeps the index sorted and complete and every id handed out, and returns the id of the string |
| `StringPools.AddBreaks` | libmsi/string.c:306-343 | an addition that leaves its string with a zero count breaks the index, which then lists an id that is not in use; `AddKeeps` covers all others |
| `StringPools.IdReused` | libmsi/string.c:306-343 | a table whose one string has the highest count: after one more reference the next new string gets the same id |
| `StringPools.RunInterns` | libmsi/string.c:306-343 | after any run of additions the invariant holds and every id returned still names its string |
| `StringPools.IdsAgree` | libmsi/string.c:306-343 | two requests of a run get the same id if and only if they had the same string |
| `StringPools.InsertIncreasing` | libmsi/string.c:169-199 | inserting an id at its rank keeps the index strictly increasing by text |
| `StringTables.StringTable.IdFromString` | libmsi/string.c:413-434 | binary search succeeds if and only if the string is present, with its id |
| `StringTables.StringTable.FindInsertIndex` | libmsi/string.c:169-186 | -1 when the text is indexed, its rank otherwise |
| `StringTables.StringTable.InsertStringSorted` | libmsi/string.c:188-199 | the array is shifted and the id put at its rank |
| `StringTables.StringTable.FindFreeEntry` | libmsi/string.c:125-166 | the free slot after the hint, else the first, else a table grown by half |
| `StringTables.StringTable.Resize` | libmsi/string.c:125-166 | growing keeps every slot and the index, and adds free slots |
| `StringTables.StringTable.AddString` | libmsi/string.c:306-343 | the arrays afterwards hold the value-level result, and stay valid exactly when the string is counted |
| `StringTables.StringTable.LookupId` | libmsi/string.c:347-359 | id 0 is the empty string, an unused id is null |
| `StringCodec.RefWidthFits` | libmsi/string.c:615-621 | the two or three bytes per id fit every id if and only if the table has at most 2^24 slots |
| `StringCodec.HeaderExact` | libmsi/string.c:495-523 | the header word gives back code page and id width |
| `StringCodec.HeaderInBytes` | libmsi/string.c:582-621 | the four bytes of the header |
| `StringCodec.EntryInBytes` | libmsi/string.c:653-667 | the bytes of the entry of every slot: length, count, and the high word of a long length in front |
| `StringCodec.RoundTrip` | libmsi/string.c:495-699 | loading what was saved gives every persistent string its old id and count, and frees all other slots, if and only if each string is short or its count is the high word of its length; the index is then valid; code page and width are always kept |
| `StringCodec.EmptyRoundTrip` | libmsi/string.c:495-523 | a table of one slot comes back empty, with its code page only if that was 0 |
| `StringCodec.CodepageForgotten` | libmsi/string.c:513-523 | one slot with code page 1252 comes back with code page 0 |
| `StringCodec.LongEntryLength` | libmsi/string.c:531-549 | the reader gets a long string's length right if and only if its count equals the high word of the length |
| `StringCodec.LongStringLost` | libmsi/string.c:531-549 | a string of 0x20000 bytes with one reference does not come back |
| `StringTableIo.TotalSize` | libmsi/string.c:436-483 | the predicted sizes are those of the bytes that saving writes, the extra entry of long strings included |
| `StringTableIo.Save` | libmsi/string.c:582-699 | no overrun check fires, no write leaves the buffers, and they hold the stored form |
| `StringTableIo.PutEntry` | libmsi/string.c:653-667 | one entry of length and count, behind a dummy entry with the high word when the text is long |
| `StringTableIo.LoadTable` | libmsi/string.c:495-580 | fails exactly on an unknown code page; otherwise the arrays hold the value that the streams describe |
| `StringTableIo.CodepagesAre` | libmsi/string.c:52-72 | the code pages that are accepted, each one written out |
| `TableLayout.CalcColumnOffsets` | libmsi/table.c:491-506 | each offset is the sum of the widths before it |
| `TableLayout.GetRowSize` | libmsi/table.c:370-385 | the row size is the end of the last column |
| `TableLayout.TypeBits` | libmsi/table.c:87-102 | the bits of a column type: text, nullable, key, OBJECT, and the width |
| `TableLayout.PutSliceFrame` | libmsi/table.c:1184-1219 | writing one column's bytes changes no other column's bytes |
| `TableLayout.StoreCell` | libmsi/table.c:1184-1219 | a stored value is fetched back modulo the column width, and every other cell is untouched |
| `TableLayout.CellsDetermineRow` | libmsi/table.c:1025-1060 | rows with equal cells are equal byte for byte |
| `TableStorage.InBounds` | libmsi/table.c:901-940 | every stored cell lies inside the stored table |
| `TableStorage.Disjoint` | libmsi/table.c:901-940 | different cells occupy disjoint ranges |
| `TableStorage.EveryPosition` | libmsi/table.c:901-940 | every byte of the stored table belongs to some cell: with the two rows above a bijection |
| `TableStorage.StoredFormUnique` | libmsi/table.c:871-951 | a table has one stored form: no byte is left open |
| `TableStorage.ColumnMajor` | libmsi/table.c:901-940 | where each byte of each cell stands: column after column, row after row, low byte first |
| `TableStorage.SaveTable` | libmsi/table.c:871-951 | succeeds exactly when no id is found too large, and then writes the stored form |
| `TableStorage.ReadTable` | libmsi/table.c:388-466 | accepts exactly the multiples of the row size, and reads each row column by column |
| `TableStorage.RowRoundTrip` | libmsi/table.c:388-466 | a row comes back as it was saved if and only if its string ids fit the width |
| `TableStorage.AcceptedRoundTrip` | libmsi/table.c:915-922 | a row that the writer accepts is damaged if and only if it holds the id 0x10000 in a two-byte column |
| `TableStorage.TopByteLost` | libmsi/table.c:915-922 | such a row: the writer accepts it, and it is read back changed |
| `Commit.ChosenWidthFits` | libmsi/string.c:615-621 | the width the string table chooses fits every id that the rows refer to |
| `Commit.Reopen` | libmsi/string.c:495-699 | the string table after reopening, for every number of slots, with the same exact condition |
| `Commit.MeaningKept` | libmsi/libmsi-database.c:2374-2428 | equal cells over the reopened string table mean the same strings and integers when every string has a persistent count |
| `Commit.CellMeaning` | libmsi/string.c:622-667 | a cell means what it meant if and only if it does not name a string whose only references are temporary |
| `Commit.CommitAndReopen` | libmsi/libmsi-database.c:2374-2428 | given the column types, saving the strings and all tables and loading them gives as many rows, each cell meaning what it meant |
| `HashIndex.Build` | libmsi/table.c:1728-1774 | the chains of the index lead through exactly the rows of each bucket, ascending |
| `HashIndex.Search` | libmsi/table.c:1776-1790 | following a chain from a handle finds the next row whose cell is the value |
| `HashIndex.MatchesExact` | libmsi/table.c:1714-1791 | iterating from a null handle yields exactly the matching rows, ascending |
| `HashIndex.StaleLookup` | libmsi/table.c:1776-1790 | what a search through the index of a column finds once the column has gained a cell: without the new row, and with old numbers below it; right exactly for values that neither it nor a row below has |
| `TableViews.TableView.FetchInt` | libmsi/table.c:1025-1060 | the stored cell, and the two errors by range |
| `TableViews.TableView.SetInt` | libmsi/table.c:1184-1219 | exactly one cell changes, to the value cut to its width, and the column's index is dropped |
| `TableViews.TableView.FindMatchingRows` | libmsi/table.c:1714-1791 | the next matching row of the column that the index was built from, which is the column itself while indexes are right; rows are untouched |
| `TableViews.TableView.AllMatches` | libmsi/table.c:1714-1791 | following the handles from null to the end gives exactly the list of matches |
| `TableViews.TableView.RightIsSeen` | libmsi/table.c:1714-1791 | while the indexes are right, searches see the rows as they are |
| `TableViews.TableView.DeleteRow` | libmsi/table.c:1662-1698 | later rows and their flags move down by one, and no index is left |
| `TableViews.TableView.GetValue` | libmsi/table.c:1266-1309 | the stored form of a record field, with its three error cases |
| `TableViews.TableView.SetRow` | libmsi/table.c:1311-1394 | one row becomes the value-level result, the string table too; exactly the indexes of the written columns are dropped, and indexes stay right |
| `TableViews.TableView.CompareRecord` | libmsi/table.c:1571-1602 | the comparison of a record with a row, key column by key column |
| `TableViews.TableView.FindInsertIndex` | libmsi/table.c:1604-1627 | binary search finds the place that the comparison splits the table at |
| `TableViews.TableView.RecordToRow` | libmsi/table.c:2271-2316 | the key a record is looked up by, or none when a key string is unknown |
| `TableViews.TableView.RowMatches` | libmsi/table.c:2318-2345 | a row matches if and only if there is a key column and all of them agree |
| `TableViews.TableView.FindRow` | libmsi/table.c:2347-2365 | succeeds if and only if some row has the key |
| `TableViews.TableView.ValidateNew` | libmsi/table.c:1527-1569 | INVALID_DATA exactly when some column without the nullable bit is given NULL, an empty or missing text or the integer that stands for NULL; failure for a key that is taken, success otherwise |
| `TableViews.TableView.MakeRoom` | libmsi/table.c:1396-1453 | rows and flags from the place on move up, and the place keeps its old bytes |
| `TableViews.TableView.InsertRow` | libmsi/table.c:1629-1660 | a refused row changes nothing; otherwise one row is inserted at the given or the found place, the indexes of the written columns are dropped, and indexes are right if and only if every column that had one is written |
| `TableViews.SurvivorsStale` | libmsi/table.c:1378-1379 | after an insertion indexes agree if and only if each belongs to a column that is written: every integer up to it fits, and its string is not the one that the stale cell has |
| `TableViews.SurvivorMisleads` | libmsi/table.c:1776-1790 | a search through an index that survived misses the new row for its own value, and is right exactly for values that neither the row nor one from its place on has |
| `TableViews.OneSurvivor` | libmsi/table.c:1629-1660 | inserting (1, s) before (2, s) leaves an index on the strings that finds one of the two rows |
| `TableRows.CompareIsLex` | libmsi/table.c:1571-1602 | the comparison is lexicographic on encoded keys, an unknown key value being above every cell |
| `TableRows.InsertSorted` | libmsi/table.c:1629-1660 | a table sorted by key stays so if and only if the new key fits between its neighbours |
| `TableRows.PlaceSplits` | libmsi/table.c:1604-1627 | a sorted table is split in two by any record whose key it does not hold; without a key column the place is the end |
| `TableRows.PlaceFits` | libmsi/table.c:1604-1627 | a known key that is not taken keeps the table sorted at that place |
| `TableRows.SetRowFrame` | libmsi/table.c:1311-1394 | writing a row succeeds if and only if every masked integer fits, and changes no column outside the mask |
| `TableRows.SetRowStores` | libmsi/table.c:1311-1394 | every masked column stores its field, up to the first integer that does not fit |
| `TableRows.StoresHolds` | libmsi/table.c:1221-1264 | what a cell holds afterwards, in numbers: the id of the text, the integer plus 2^15 or 2^31, or 0 |
| `FieldMeaning.DecimalRead` | libmsi/libmsi-record.c:160-181 | a text that is the decimal form of a 32-bit integer is read as that integer |
| `TableRows.SurvivorsExact` | libmsi/table.c:1363-1390 | which indexes a write leaves, from the row, the strings and the record before it |
| `TableRows.KeepsZeroCell` | libmsi/table.c:1375-1380 | at the end of the table, where a new row starts as zeros, only an integer given for a string leaves the column unwritten |
| `TableRows.InsertAtRowEffect` | libmsi/table.c:1629-1660 | the row is there whether or not the insertion succeeds, and it succeeds if and only if every integer fits |
| `KeyedInserts.RowLeftIs` | libmsi/table.c:1311-1394 | what a row holds after a record was written over it, from the state before: field by field up to the first integer that does not fit, its old cells from there on |
| `KeyedInserts.InsertLeaves` | libmsi/table.c:1629-1660 | for every record: a refused one changes nothing; otherwise that row is at the place, whatever code is returned |
| `KeyedInserts.InsertOrder` | libmsi/table.c:1629-1660 | for every record, with a known, new or NULL key: a sorted table stays sorted if and only if the key that the row is left with fits between its neighbours |
| `KeyedInserts.InsertKeyed` | libmsi/table.c:1629-1660 | a record with known key and no misfit before its last key keeps the table strictly sorted by key, whatever code is returned; it is accepted exactly when valid and every integer fits, and then exactly one row is added, storing the record |
| `RowRecords.ReadBack` | libmsi/libmsi-query.c:344-357 | a stored field is read back unchanged if and only if it has a stored form of its own |
| `RowRecords.SmallestLost` | libmsi/libmsi-query.c:344-357 | -32768 written into a 16-bit column is read back as NULL |
| `RowRecords.GetRow` | libmsi/libmsi-query.c:285-361 | the record of a row, field by field, and the errors |
| `RowRecords.RowReadBack` | libmsi/libmsi-query.c:285-361 | a row that stores a record is read back as that record, column by column, with the same exception |
| `Inserts.MergeRecord` | libmsi/insert.c:58-96 | every field is its literal or the next unused parameter; it fails exactly when values run out or a marker has no record |
| `Inserts.StatementHolds` | libmsi/insert.c:58-171 | a row that stores the record of a statement holds, in every column, the last value given for its name: the literal, the parameter of its `?`, or NULL |
| `Inserts.ArrangeRecord` | libmsi/insert.c:120-171 | every table column gets the last value given for its name, or NULL |
| `Inserts.RowHasNullPrimaryKeys` | libmsi/insert.c:173-196 | true if and only if some key field is null |
| `Inserts.InsertExecute` | libmsi/insert.c:198-243 | refused without a change when a column is given a value that it does not take; on success the row at its place holds, in every column, the last value given for its name; whenever the record is valid a row is there; without a needed parameter record nothing happens and the result is success |
| `Inserts.NullKeyFirst` | libmsi/insert.c:198-243 | with one key column and no misfit before it, the row whose key is NULL goes first and the table stays sorted |
| `Inserts.StepKeeps` | libmsi/insert.c:198-243 | one INSERT of a keyed record with no misfit before its last key, persistent or temporary, keeps the table strictly sorted by key whatever code it returns, and adds exactly its row or nothing |
| `Inserts.Run` | libmsi/insert.c:198-243 | any run of INSERT statements: the string table stays valid, every id keeps its string, and the table grows by those that pass validation |
| `Inserts.RunSorted` | libmsi/table.c:1604-1660 | over any run a sorted table ends up sorted if and only if every key that was left fitted where it was put |
| `Inserts.RunKeyedSorted` | libmsi/table.c:1604-1660 | a run of keyed records without a misfit before a key keeps the table strictly sorted |
| `Inserts.RunKeysUnique` | libmsi/table.c:1527-1569 | after a run whose keys all fitted, no two rows share a key |
| `Inserts.StepNoNulls` | libmsi/table.c:1527-1569 | one INSERT keeps 0 out of the columns without the nullable bit, but for -32768 in a 16-bit column and, at the end of the table, columns behind an integer that does not fit |
| `Inserts.RunNoNulls` | libmsi/table.c:1527-1569 | over a run without these exceptions no such column ever holds NULL |
| `Inserts.NewKeyLast` | libmsi/table.c:1571-1627 | a single key string that is new puts its row last; its id is the slot that is free when its column is written, and the table stays sorted if and only if that is above the last row's id |
| `Inserts.KeyOrderLost` | libmsi/table.c:1571-1627 | a sorted table of one row, above a free slot, that a new key leaves unsorted |
| `Inserts.FailedInsertStays` | libmsi/table.c:1629-1660 | a valid record fails if and only if some integer does not fit; its row is there either way, with its old cells from the first misfit on |
| `Inserts.CopyStays` | libmsi/table.c:1629-1660 | (40000, 3) in front of (1, 5), the second column being the key: the INSERT fails and leaves a second copy of the row |
| `Inserts.OutOfRangeStays` | libmsi/table.c:1629-1660 | 40000 into a 16-bit key fails, and leaves a row with the key NULL |
| `Persistence.InsertLasts` | libmsi/table.c:1363-1380 | a persistent INSERT keeps every row that outlasts a commit so, and leaves such a row if and only if each string that it finds, and each cell that it does not reach, has a persistent count or is 0 |
| `Persistence.LastingRows` | libmsi/string.c:622-667 | the same condition over cells and over stored rows |
| `Persistence.TemporaryFirst` | libmsi/table.c:1363-1380 | a persistent row with a string that only a temporary row used so far does not outlast a commit |
| `Updates.ExpandRecord` | libmsi/select.c:97-137 | the record for the table below: for each column the last value set for it, and the mask of the columns set |
| `Updates.FindTable` | libmsi/where.c:148-164 | the listed table and the column in it that a column of the view is; none exactly outside the view |
| `Updates.CheckKeys` | libmsi/where.c:286-302 | true if and only if the mask has the bit of a key column, though the loop stops once the mask is used up |
| `Updates.SplitRow` | libmsi/where.c:307-336 | each table with a masked column gets one call with its part of record and mask, in list order, and no other table gets one |
| `Updates.SplitReachesColumn` | libmsi/where.c:266-338 | the part that is written to a column is the field and the bit of the view column that reading finds there |
| `Updates.UpdateRowsEffect` | libmsi/update.c:104-111 | writing one record to many rows changes only the masked columns of those rows; on success all of them store their fields |
| `UpdateViews.WhereRecord` | libmsi/update.c:60-81 | the WHERE clause gets the fields behind those counted for the SET list, or none |
| `UpdateViews.MarkersTakeOwnFields` | libmsi/update.c:60-101 | markers of the SET list take their own fields; the WHERE clause gets the fields from its own first one on if and only if every SET value is a marker or no field is left for it |
| `UpdateViews.LiteralTakesField` | libmsi/update.c:60-81 | `SET a = 1 WHERE b = ?` with one parameter: the WHERE clause is given no field |
| `UpdateViews.WhereSetRow` | libmsi/where.c:266-338 | over one table: row and mask errors, refusal of key columns, otherwise the table's own set_row on the selected row |
| `UpdateViews.UpdateExecute` | libmsi/update.c:50-118 | exactly the SET columns of exactly the rows that the WHERE condition, as it was written, means before the change; on success each holds the last value set for its column: the literal, or the parameter of its `?`; it succeeds if and only if there is nothing to do or no key column is set and every value fits |
| `UpdateViews.WrittenIsSeen` | libmsi/where.c:541-591 | a condition sees the integer or text that was written into a cell |
| `UpdateViews.SetFieldOwn` | libmsi/select.c:97-137 | a column set once gets its own value, a column set twice the later one |
| `UpdateViews.SelectFetchInt` | libmsi/select.c:43-62 | a column of the selection is the table column it stands for, or 0 for an empty one |
| `Distincts.FirstsListed` | libmsi/distinct.c:102-162 | the list is increasing and holds a row if and only if no earlier row is equal |
| `Distincts.KeepsEachTupleOnce` | libmsi/distinct.c:102-162 | the rows kept show every value tuple of the table, each exactly once |
| `Distincts.OneOpenSlot` | libmsi/distinct.c:48-72 | each list of the tree ends in exactly one pointer |
| `Distincts.LinkedAppend` | libmsi/distinct.c:48-72 | hanging a node on that pointer keeps every list holding exactly the nodes of its path, in order of creation |
| `Distincts.Tree.Insert` | libmsi/distinct.c:48-72 | finds the node of a path or adds it, named after the row; no other node is renamed |
| `Distincts.LastNodeDecides` | libmsi/distinct.c:151-156 | the last node names the row itself if and only if no earlier row is equal |
| `Distincts.DistinctView.Execute` | libmsi/distinct.c:102-162 | `translation` is exactly the increasing list of first occurrences |
| `StreamNames.PairForm` | libmsi/table.c:147-169 | the bytes for two characters are the UTF-8 form of U+3800 plus 64 times the second plus the first |
| `StreamNames.EncodeStreamName` | libmsi/table.c:119-176 | no write leaves the buffer; a table name fails exactly when it needs more than 29 units, any other name never |
| `StreamNames.PairEncoded` | libmsi/table.c:147-169 | two letters of the 64 share the code point U+3800 plus 64 times the second plus the first |
| `StreamNames.LoneEncoded` | libmsi/table.c:147-162 | a letter that none follows becomes U+4800 plus itself |
| `StreamNames.OtherEncoded` | libmsi/table.c:132-171 | every other byte stays; the prefix of table streams is U+4840 |
| `StreamNames.DecodeStreamName` | libmsi/table.c:191-234 | on input that is not cut off inside a character, the decoding, within a buffer of the input's size plus one |
| `StreamNames.DecodeFixes` | libmsi/table.c:191-234 | a well-formed name decodes to itself if and only if it has no code point in U+3800..U+483F, and to something shorter otherwise |
| `StreamNames.DecodeAfterEncode` | libmsi/table.c:119-234 | for every well-formed name, encoding first makes no difference to the decoder |
| `StreamNames.RoundTrip` | libmsi/table.c:119-234 | decoding the encoding gives the name back if and only if it has no code point in U+3800..U+483F |
| `StreamNames.NamesDistinct` | libmsi/table.c:119-176 | two such names share a stream name only if they are equal |
| `StreamNames.EncodedWellFormed` | libmsi/table.c:119-176 | the encoding of well-formed UTF-8 is well-formed UTF-8 |
| `SummaryInfo.SectionLength` | libmsi/libmsi-summary-info.c:556-600 | the section size added up beforehand is the size of what is laid out |
| `SummaryInfo.SectionOffsets` | libmsi/libmsi-summary-info.c:586-599 | every directory entry stands in its place and its offset points at the property's bytes |
| `SummaryInfo.OffsetAligned` | libmsi/libmsi-summary-info.c:511-518 | every value starts at a multiple of four |
| `SummaryInfo.RoundTrip` | libmsi/libmsi-summary-info.c:310-609 | for all properties of the right types, reading the stream that is written gives the same properties |
| `SummaryLayout.LaidIsLoaded` | libmsi/libmsi-summary-info.c:310-480 | a stream laid out by offsets and codes (code 2 for property 1, 30 for 2 to 9 and 18, 64 for 10 to 13, 3 for 14, 15, 16 and 19) loads to the values of its entries |
| `SummaryLayout.AssignedLast` | libmsi/libmsi-summary-info.c:310-421 | a property has the value of its last entry |
| `SummaryLayout.StreamIsLaid` | libmsi/libmsi-summary-info.c:482-609 | what is written is laid out like that, byte for byte |
| `SummaryLayout.OtherTypeRead` | libmsi/libmsi-summary-info.c:310-421 | a text in the place of a number or a time is converted, a date that does not parse leaves the time that was there, and any other value of a wrong type ends the reading |
| `SummaryInfo.LoadTyped` | libmsi/libmsi-summary-info.c:310-480 | whatever bytes are loaded, every property that is set has the type of its number |
| `SummaryInfo.SummaryInformation.Persist` | libmsi/libmsi-summary-info.c:548-609 | the buffer is the stream byte for byte, its length assertions hold, no write leaves it |
| `SummaryInfo.SummaryInformation.LoadStream` | libmsi/libmsi-summary-info.c:423-480 | the properties after loading, header checks included, which for a stream laid out as in `SummaryLayout.LaidIsLoaded` are its values |
| `SummaryInfo.SummaryInformation.SetProperty` | libmsi/libmsi-summary-info.c:808-863 | sets one property, counting down for a new one, and keeps all types right; a mismatch exactly when the type of the value is not the one of the number |
| `Splitter.TokensPartition` | tools/sqldelim.c:137-196 | tokens cut the text without a gap and are never empty |
| `SqlTokens.TokenIs` | tools/sqldelim.c:137-196 | what a token is, said of bytes: a run of blanks, of digits or of identifier bytes, quoted or bracketed text up to its delimiter, or one byte; and the splitter cuts these and no others |
| `SqlTokens.QuotedKept` | tools/sqldelim.c:162-178 | nothing in quoted or bracketed text is dropped and none of it ends a statement, a semicolon included |
| `SqlTokens.StatementEnds` | tools/sqldelim.c:198-243 | where statements end: at a semicolon, which is dropped, behind a byte foreign to SQL, and in front of a keyword |
| `SqlTokens.KeywordsAre` | tools/sqldelim.c:46-98 | the seven keywords, in any case |
| `Splitter.StripDropsTokens` | tools/sqldelim.c:198-243 | what is left out of the text is exactly the tokens that are a semicolon |
| `Splitter.SplitKeeps` | tools/sqldelim.c:198-243 | a call that runs to its end loses, repeats and reorders nothing but drops those semicolons |
| `Splitter.NothingLost` | tools/sqldelim.c:198-243 | over any chunks ended by the flush the statements handed out are the text without those semicolons |
| `Splitter.ChunksAgree` | tools/sqldelim.c:184-194 | cutting the text between two tokens makes no difference to the statements |
| `Splitter.BlankStatements` | tools/sqldelim.c:198-243 | for every text: some statement is blank if and only if some token of blanks is first or stands behind a semicolon or a byte that is no SQL, and is last or stands before a semicolon or a keyword |
| `Splitter.BlankStatement` | tools/sqldelim.c:146-150 | an instance: spaces between a semicolon and a keyword are handed out as a statement |
| `Splitter.StatementSplitter.SkipToken` | tools/sqldelim.c:137-196 | the length of the token and the two flags; a keyword is found without moving |
| `Splitter.StatementSplitter.GetStatement` | tools/sqldelim.c:198-243 | terminates, and calls, result and kept state are those of the value-level split |

## Left out

- OBJECT columns and their streams, storages, files and transactions: streams of bytes stand for them.
- The iconv conversion of strings: strings are stored as the bytes they are.
- Allocation failure, reference counting of objects, and the counts that ALTER TABLE holds on tables.
- The grammar and the resolution of column names: conditions start as trees whose columns are resolved; what the
  grammar (libmsi/sql-parser.y:519-592) can build is the predicate `WhereEval.Grammatical`.
- Transforms, merging, and DELETE over several rows.
- Tables with 31 or more columns: a column mask is the set of its bits, so `1 << num_cols` never overflows.
- Rows as buffers that may be shared: the rows of a table are a sequence of byte strings, so a row that is
  moved is copied.
- Saving a table that has temporary rows.
- The C library's sort: `WhereViews.Qsort` is any correct sort, which `WhereViews.AscendingUnique` shows to be
  enough; its own order of comparisons is not modelled. The growth of the array of found rows is not modelled either.
- Parameter markers without a parameter record: an absent record reads as one without fields.
- A length argument of `_libmsi_add_string` other than -1.
- `StringTableIo.LoadTable`: bytes past the end of the streams read as zeros, where the program would read other
  memory.
- `SummaryInfo.SummaryInformation.LoadStream`: bytes past the end of the stream read as zeros; `atoi` and the
  date parser are parameters; a property that is listed twice with two types keeps its first value, where the
  program reuses the storage of the union.
- `WhereSearch.SearchRefines`: asks for aligned markers and non-empty tables; without the first it is false
  (`WhereMarkers.MarkerOvertaken`) and `WhereSearch.SearchExact` holds instead, without the second nothing is
  searched.
- `TableViews.SurvivorsStale`: asks that string cells of the row at the place are 0 or name a string; what is
  dropped without that is part of the contract of `TableViews.TableView.InsertRow`.
- `StreamNames.DecodeStreamName`: names that end inside a character, on which the program reads past the
  end, are excluded.
- `UpdateViews.UpdateExecute`: one table below the view, as the grammar allows; the splitting over several
  tables is `Updates.SplitRow`.
- `Distincts.DistinctView.Execute`: a view that is fresh or closed and has a column; a second execution without
  closing would append to the first list. The `count` of a node is kept up but nothing reads it.
- `Splitter.StatementSplitter.SkipToken`: the binary search among the seven keywords is membership in their list.
- `Commit.CommitAndReopen`: tables whose rows are all persistent, and strings that `StringCodec.RoundTrip` brings
  back. The column types are handed across; that they are read back from the table `_Columns` is not part of this
  model.
- `Persistence.InsertLasts`: asks that string cells of the row at the place are 0 or name a string, and that the
  string table has at most 2^24 slots.
