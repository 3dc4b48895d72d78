# RSQLite: fetch buffer, result sets, transactions and text codecs

RSQLite connects R to SQLite.  This project models the parts of it in which a value, a row or
a transaction could silently go wrong, and proves what a user relies on.

| file | models |
|---|---|
| `Bytes.dfy`, `Wrappers.dfy` | bytes, NUL-terminated strings, option and result types |
| `Affinity.dfy` | the column-affinity recogniser with its rolling 32-bit hash |
| `Values.dfy` | result cells, R vector slots, value and declared-type classification, conversions |
| `ColumnSpec.dfy` | what a column is (the plain list of converted rows), and the segment list that must agree with it |
| `ColumnLaws.dfy` | consequences for one fetch: widening, the mixed-type warning, growth |
| `FetchLaws.dfy` | consequences for several fetches: what decides a column type, and when peeks and fetch boundaries matter |
| `ColumnStorage.dfy`, `Column.dfy`, `DataFrame.dfy` | the classes `DbColumnStorage`, `DbColumn`, `DbDataFrame` on the heap |
| `Binding.dfy`, `ResultSet.dfy` | placeholder matching and the class `SqliteResultImpl` |
| `Session.dfy` | any series of bind, fetch and column-info calls on one result object |
| `Identifiers.dfy` | the identifier quoter and unquoter |
| `LineReader.dfy`, `FieldSplitter.dfy`, `FileImport.dfy` | the file importer |
| `Savepoints.dfy`, `Connection.dfy`, `TableWriter.dfy` | transactions, savepoints, atomic table writes |

Code that changes state in the original is a class or a method on arrays here.  Each such
method is proved against a specification function (`View()`, `Layout`, `Column`, `Exec`,
`Split`, `ImportBytes`, `TableAffinity`), and the laws are lemmas about these functions.

## How the engine appears

SQLite itself is a small interface: a query returns a finite list of rows for each parameter
group (`ResultSet.Query`), conversions between storage classes are functions of the cell
(`Values.Coercions`; the one from integers to double is exact on 32-bit integers), and
savepoints behave as SQLite's "SAVEPOINT" language page says, names being compared without
regard to ASCII case.  A statement that stands on no row reads as NULL in every column.
Doubles are `real` numbers or NA.

A `hide` statement inside a method or lemma only limits which definitions its own proof unfolds.

## Where the code departs from what one might expect

These points follow the code.  Each has a lemma or an explicit case in the model.

- The integer -2^31 is classified as a 32-bit integer and has the representation of
  `NA_integer_`; -2^63 has that of a missing 64-bit integer.  These two values, and text with
  an embedded NUL, are exactly what a column without a mixed-type warning loses.
- A look that meets no value (`dbFetch(n = 0)` or `dbColumnInfo()` on a NULL, on a complete or
  on an unbound result, or a fetch that returns only NULLs) fixes the declared type, and later
  values of another type are then coerced: `FetchLaws.PeekAtNullMatters` is an example,
  `FetchLaws.PeekThenFetch` and `FetchLaws.ChunksConcatenate` say exactly when it matters.
- A quoted empty name cannot be unquoted: the grammar wants at least one character between
  backticks.
- Leaving an inner savepoint open that repeats the outer name makes a later rollback or commit
  close the inner one: `Savepoints.RepeatedNameLeftOpen`.  The table writers never do that.
- The import stops, with success, at the first empty line, also among the skipped ones.
- A field is bound as NULL if it merely starts with `\N`.  The last field of a line keeps a
  carriage return or line feed and everything behind it.
- The line reader compares a byte with a (signed) `char`, so an end-of-line string whose last
  byte is 128 or more is never found: `FileImport.UsableEol`.
- The original end-of-line comparison looks at bytes before the start of the buffer when the
  line is shorter than the end-of-line string; the model guards it.  A last line without end of
  line leaves the buffer without a terminating NUL; the model marks this case
  (`Unterminated`, `ReadsPastBuffer`) instead of giving it a meaning.

## Model

| member | source | states |
|---|---|---|
| `Affinity.ScanAffinity` | src/affinity.c:65-109 | for every NUL-free name the wrapping hash loop with its early exit returns what the documented priority table says, each keyword being found in capitals, small letters or a mixture; NUMERIC for no name |
| `Affinity.LowerFinds` | src/affinity.c:20-38 | looking for a keyword in the lower-cased name finds it exactly where its letters stand in the name in either case |
| `Affinity.CaseDoesNotMatter` | src/affinity.c:44-49 | changing the case of any letters of a declared type never changes its affinity |
| `Affinity.IntegerInCapitals` | src/affinity.c:45-49 | the documented example BLOBINT and the type INTEGER, in capitals, give INTEGER |
| `Affinity.WindowStep` | src/affinity.c:74 | shifting one byte into the wrapping 32-bit hash keeps it equal to the last four lower-cased bytes, zero-padded |
| `Affinity.WindowMatches` | src/affinity.c:76-98 | the hash equals a packed four-letter keyword exactly where the text read so far ends with it |
| `Affinity.ShortWindowMatches` | src/affinity.c:100 | the masked hash equals "int" exactly where the text read so far ends with it |
| `Affinity.TableStep` | src/affinity.c:76-98 | the table's verdict below INTEGER after one more byte follows from the old verdict and the new hash alone |
| `Affinity.ScanEnd` | src/affinity.c:49-63 | stopping at the first "int" is right: it decides the answer whatever follows |
| `Values.DataTypeFromDeclType` | src/SqliteColumnDataSource.cpp:183-221 | the declared type by priority: "datetime", "timestamp", "date" or "time" spelled in any case with the extended option, else by affinity, BOOL without a declaration |
| `Values.ItemType` | src/SqliteColumnDataSource.cpp:17-51 | the type of a cell is unknown only for NULL, and never BOOL or a zoned time |
| `Values.ItemTypeMeans` | src/SqliteColumnDataSource.cpp:17-51 | the classification written out: INT exactly for integers from -2147483648 to 2147483647, INT64 for all others, and one type for each other storage class; a declared date or time type comes first |
| `Values.Widen` | src/DbColumnStorage.cpp:284-357 | the copied slot has the type of the final vector; NA becomes NA, and only NA does when an integer is widened |
| `Values.Low32Identity` | src/SqliteColumnDataSource.cpp:231-234 | reading as a 32-bit integer is exact if and only if 64 bits are not needed |
| `Values.MissingValues` | src/DbColumnStorage.cpp:249-282 | which slots read as missing, with the sentinels written out, and that the default of each type is one of them |
| `ColumnSpec.TypesEvolve` | src/DbColumnStorage.cpp:92-110 | column types form a chain: unknown, one type, at most one widening from INT |
| `ColumnSpec.NewCapacity` | src/DbColumnStorage.cpp:69-78 | the capacity is the desired one or the minimum (100 without a row limit, 1 with one), whichever is larger; an untyped segment has none |
| `ColumnSpec.ChainShort` | src/DbColumnStorage.cpp:92-122 | the chain of segments visited by an appended value has at most two new ones; the last one holds the value, and one passed over holds no row (`AppendCol` and `AppendData` count their allocations against it) |
| `ColumnSpec.HolderFacts` | src/DbColumnStorage.cpp:92-122 | the segment that receives a value satisfies the segment invariant and has the type that the value calls for |
| `ColumnSpec.AppendKeepsGood` | src/DbColumn.cpp:24-33 | one more row keeps the list invariant: listed segments hold all rows in order, stored up to the capacity and NULL behind it |
| `ColumnSpec.LayoutIsGood` | src/DbColumn.cpp:24-33 | in every reachable list the rows of the listed segments, in order, are all rows appended, and the last segment has the column's type |
| `ColumnSpec.SegmentsGiveColumn` | src/DbColumn.cpp:86-96 | whatever the capacities, the segments copied and widened are the plain list: NA, or the row fetched under its own type and widened |
| `ColumnStorage.DbColumnStorage.constructor` | src/DbColumnStorage.cpp:7-15 | an empty segment of the granted capacity; none for an unknown type |
| `ColumnStorage.DbColumnStorage.AppendCol` | src/DbColumnStorage.cpp:19-24 | returns the segment that now holds the row: this one with the row added, or the end of the spill chain with this one unchanged; at most two segments are allocated |
| `ColumnStorage.DbColumnStorage.AppendNull` | src/DbColumnStorage.cpp:80-86 | counts a NULL row, also beyond the capacity, and keeps the invariant |
| `ColumnStorage.DbColumnStorage.AppendData` | src/DbColumnStorage.cpp:92-110 | terminates, and stores the value here exactly if it fits; otherwise this segment is unchanged |
| `ColumnStorage.DbColumnStorage.AppendDataToNew` | src/DbColumnStorage.cpp:112-122 | ends in a fresh segment that holds the value, having allocated the segments of the specified chain |
| `ColumnStorage.DbColumnStorage.FetchValue` | src/DbColumnStorage.cpp:124-169 | stores the converted value at the next position and keeps the invariant |
| `ColumnStorage.DbColumnStorage.CopyTo` | src/DbColumnStorage.cpp:50-63 | fills the target from `pos` on with the converted rows, as many as fit, and leaves what is before alone |
| `ColumnStorage.StoredWidens` | src/DbColumnStorage.cpp:284-357 | the copy never meets a pair of types it does not define, and gives the converted row |
| `ResultColumn.DbColumn.constructor` | src/DbColumn.cpp:9-20 | a valid column without rows; BOOL starts as unknown |
| `ResultColumn.DbColumn.AppendToLast` | src/DbColumn.cpp:29-32 | the segment list on the heap changes as the specification's list does, no two segments sharing storage |
| `ResultColumn.DbColumn.SetColValue` | src/DbColumn.cpp:24-33 | appends exactly this row; segments, types seen and ownership stay valid |
| `ResultColumn.DbColumn.GetType` | src/DbColumn.cpp:98-101 | the type that the rows determine, the declared one while no value was seen |
| `ResultColumn.DbColumn.WarnTypeConflicts` | src/DbColumn.cpp:39-62 | the types warned about: those seen that are neither the column's own nor widened to it |
| `ResultColumn.DbColumn.ToSexp` | src/DbColumn.cpp:86-96 | a fresh vector of length `n` that is the plain list of converted rows, cut to `n` |
| `ResultColumn.CopySegments` | src/DbColumn.cpp:90-93 | the running position copies every segment behind the one before, as far as the vector reaches |
| `ResultDataFrame.DbDataFrame.constructor` | src/DbDataFrame.cpp:10-24 | one separate column object for each result column, of its remembered type |
| `ResultDataFrame.DbDataFrame.SetColValues` | src/DbDataFrame.cpp:28-34 | every column receives its own cell of the row, no column disturbs another |
| `ResultDataFrame.DbDataFrame.Advance` | src/DbDataFrame.cpp:36-44 | counts the row; another one is allowed without a limit or below it |
| `ResultDataFrame.DbDataFrame.FinalizeCols` | src/DbDataFrame.cpp:87-93 | all columns are cut to the rows counted |
| `ResultDataFrame.DbDataFrame.GetData` | src/DbDataFrame.cpp:52-81 | each returned column, type and warning is the specified one for the cells of that column, cut to the rows counted |
| `ColumnLaws.WideningAgrees` | src/DbColumnStorage.cpp:302-336 | a number widened after the fact equals the number fetched at the final type if and only if it is not -2^31 from an INT segment, which becomes NA |
| `ColumnLaws.KnowingTheTypeInAdvance` | src/DbColumnStorage.cpp:99-105 | a column of numbers and NULLs equals fetching every row at the final type if and only if no such value occurs |
| `ColumnLaws.NoWarningIsLossless` | src/DbColumn.cpp:39-62 | without a warning every row reads as its own value if and only if it is not one of the values R represents as NA or text with a NUL |
| `ColumnLaws.WarningIsDue` | src/DbColumn.cpp:39-62 | a type is named in the warning if and only if some value has it and it does not evolve into the type of the column (where a date or time type is declared, NULL rows have that type too) |
| `ColumnLaws.CoercedValue` | src/DbColumnStorage.cpp:124-169 | what a value of any storage class reads as in a column of another type: the low 32 bits, the engine's conversion, the text up to its first NUL, the bytes of a text |
| `ColumnLaws.DeclaredDateColumn` | src/SqliteColumnDataSource.cpp:18-23 | with extended types a declared date, datetime or time column keeps that type, converts each value with its own parser, and never warns |
| `FetchLaws.TypeIsSettled` | src/DbColumnStorage.cpp:92-110 | the type of a column is decided by its initial type, its first value and its first value that needs 64 bits or is a real |
| `FetchLaws.TypeOfNumbers` | src/SqliteColumnDataSource.cpp:25-38 | a column of numbers comes to INT if and only if all of them are integers from -2147483648 to 2147483647, and otherwise to INT64 or REAL after the first one that is not |
| `FetchLaws.TypeChangesOnce` | src/SqliteResultImpl.cpp:308-331 | over all fetches and peeks a known type changes at most once, and only from INT to INT64 or REAL |
| `FetchLaws.PeekTwice` | src/SqliteResultImpl.cpp:362-371 | peeking twice remembers the same type as peeking once |
| `FetchLaws.PeekThenFetch` | src/SqliteResultImpl.cpp:362-371 | a peek changes the column of the next fetch if and only if it met no value, rows are fetched, and the declared type it fixes is not the one the rows come to, or their values before the first real do not widen exactly |
| `FetchLaws.PeekAtNull` | src/DbColumnStorage.cpp:30-35 | the same for the remembered type and the column, for any rows after a look without a value (NULL, complete or unbound result), with the condition in terms of the first value and the first wide one |
| `FetchLaws.SameColumn` | src/DbColumn.cpp:86-96 | rows begun with one remembered type come out like rows begun with another if and only if the final type is the same and every value stored under different types widens exactly |
| `FetchLaws.PeekAtNullMatters` | src/DbColumnStorage.cpp:30-35 | an example: in a column declared REAL a peek at a NULL before a text changes the type and the column of the next fetch |
| `FetchLaws.ChunksConcatenate` | src/SqliteResultImpl.cpp:308-331 | for every initial type, two fetches give the column of one fetch if and only if the first is empty or its type lasts, and the second is empty or not changed by a declared type that the first one fixed |
| `FetchLaws.PartsAgree` | src/SqliteResultImpl.cpp:308-371 | any number of fetches, with peeks in between, give the column of one fetch if and only if each fetch of rows remembers the final type and its values are stored alike or widen exactly |
| `ColumnLaws.GrowthBound` | src/DbColumnStorage.cpp:69-78 | an unbounded fetch that holds m >= 3 segments has seen at least 100 (2^(m-3) - 1) rows |
| `ColumnLaws.BoundedFetchIsRoomy` | src/DbColumnStorage.cpp:117 | a fetch of at most n rows holds at most three segments, each spill having room for all rows still allowed |
| `Binding.PlaceholderNames` | src/SqliteResultImpl.cpp:202-218 | every engine name is its first character followed by the reported name; an anonymous placeholder has none |
| `Binding.IsNumberMeans` | R/db_bind.R:7 | the pattern for numbered placeholders matches exactly the decimal numerals of the positive integers |
| `Binding.WhichError` | R/db_bind.R:10-29 | which error is reported for mixed placeholders, named lists where none is allowed, and missing values |
| `Binding.FirstIndex` | R/db_bind.R:23 | the first position of a name, none exactly if it does not occur |
| `Binding.NamedBinding` | R/db_bind.R:21-46 | named binding succeeds if and only if every placeholder has a parameter and (strict mode) every parameter is the first of some placeholder's name; placeholder k then gets the first parameter of its name |
| `Binding.PositionalBinding` | R/db_bind.R:10-20 | positional binding succeeds if and only if all placeholders are anonymous or all are numbered and the list has no names; the values are then taken as they come |
| `Binding.BindingIsOrderFree` | R/db_bind.R:21-46 | with distinct names the order of the supplied list changes neither the bound sequence nor the error |
| `Binding.WarningIsTheStrictError` | R/db_bind.R:30-42 | with a permitted superset the warning is given exactly where the strict mode refuses for unused parameters, and otherwise both modes agree |
| `Binding.ValidateParams` | src/DbResult.cpp:73-85 | accepts exactly parameters of equal length |
| `ResultSet.SqliteResultImpl.constructor` | src/SqliteResultImpl.cpp:11-35 | a query without parameters starts on its first row, any other waits for parameters; all types are unknown |
| `ResultSet.SqliteResultImpl.Bind` | src/SqliteResultImpl.cpp:126-149 | succeeds exactly for the right number of equally long parameters; then nothing is fetched yet and the rows to come are those of all groups in order; a refused call changes nothing |
| `ResultSet.BoundGroupWise` | src/SqliteResultImpl.cpp:226-297 | binding all groups at once gives, in order, the rows of each group with its own values, value j being element g of parameter j |
| `ResultSet.GroupsInOrder` | src/SqliteResultImpl.cpp:226-240 | the rows for the values of group g stand behind those of the groups before it; a group without rows takes no room |
| `ResultSet.SqliteResultImpl.BindRow` | src/SqliteResultImpl.cpp:226-240 | binds for every parameter its element at the current group, every access in range, or reports that there is no group left |
| `ResultSet.SqliteResultImpl.AfterBind` | src/SqliteResultImpl.cpp:301-306 | after binding the cursor stands on the first row, and the result is complete exactly if there is none |
| `ResultSet.SqliteResultImpl.Step` | src/SqliteResultImpl.cpp:333-336 | terminates on the next row, over groups without rows, or completes exactly if no row is left |
| `ResultSet.SqliteResultImpl.StepRun` | src/SqliteResultImpl.cpp:338-349 | one engine step: a row is reached, the result is complete, or the next group is due with the same rows ahead |
| `ResultSet.SqliteResultImpl.StepDone` | src/SqliteResultImpl.cpp:351-360 | moves to the next group without losing a row; complete exactly if there is none |
| `ResultSet.SqliteResultImpl.Fetch` | src/SqliteResultImpl.cpp:151-166 | fails exactly if unbound, changing nothing; otherwise hands out the next n rows (all for negative n, none for 0) as specified columns, counts them and remembers their types |
| `ResultSet.SqliteResultImpl.FetchRows` | src/SqliteResultImpl.cpp:308-331 | the columns are those of exactly the rows from the old to the new count |
| `ResultSet.SqliteResultImpl.PeekFirstRow` | src/SqliteResultImpl.cpp:362-371 | zero-row columns typed by the next row; only the types change |
| `ResultSet.LookedMeans` | src/SqliteResultImpl.cpp:151-166 | a peek looks at exactly the next row if there is one, a fetch at the next n or all that remain |
| `ResultSet.SqliteResultImpl.GetColumnInfo` | src/SqliteResultImpl.cpp:168-198 | the R types of the columns, after taking the next row into account; only the types change |
| `ResultSet.TypeNameMeans` | src/SqliteResultImpl.cpp:178-195 | the reported type is that of the R vector holding the slots of the column, except for the three date and time classes |
| `ResultSet.DbBind` | R/db_bind.R:4-52 | matching by name and binding together: the error of the first failing check with the result unchanged, or the rows of all groups of the reordered parameters; the warning exactly for unused parameters that are permitted |
| `Sessions.PlayOne` | src/SqliteResultImpl.cpp:126-198 | every call on the object, bound or not, answers as specified (the frame, the types, or a refusal that is due) and leads to the specified rows, count and types |
| `Sessions.Play` | src/SqliteResultImpl.cpp:126-198 | so does every series of calls with any number of bindings: reply k is the one due after the calls before it |
| `Sessions.SessionSplits` | src/SqliteResultImpl.cpp:126-198 | the answers of a session are those of its first part followed by those of the rest, so that the laws for one binding apply to each |
| `Sessions.SessionHandsOut` | src/SqliteResultImpl.cpp:151-166 | within a binding the rows handed out are, in order, the next rows of the result, as many as asked for in total or all |
| `Sessions.SessionSlots` | src/DbDataFrame.cpp:52-81 | any column of all frames returned is, one after the other, the columns of the looks that hand out rows, under the types left by the calls before |
| `Sessions.SessionCells` | src/SqliteResultImpl.cpp:321-328 | and these looks hold exactly the cells of the rows handed out |
| `Sessions.SessionIsOneFetch` | src/SqliteResultImpl.cpp:151-166 | within a binding any column of all frames together is the column of one fetch of the same rows if and only if all looks agree with it |
| `Sessions.SessionPosition` | src/SqliteResultImpl.cpp:321-328 | the row count depends only on the total asked for, never on peeks or refused bindings |
| `Sessions.SessionTypes` | src/SqliteResultImpl.cpp:308-371 | over a whole session, new bindings included, a known column type changes at most once, and only from INT |
| `Identifiers.UndoubleDouble` | R/dbUnquoteIdentifier_SQLiteConnection_SQL.R:18-20 | leftmost replacement of double backticks inverts doubling |
| `Identifiers.DoubleUndouble` | R/dbQuoteIdentifier_SQLiteConnection_character.R:14 | and doubling inverts it on every text the grammar accepts between backticks |
| `Identifiers.ParseIsGrammar` | R/dbUnquoteIdentifier_SQLiteConnection_SQL.R:4-19 | the reading by backtick parity finds groups exactly if the anchored pattern matches with these groups |
| `Identifiers.SplitIsUnique` | R/dbUnquoteIdentifier_SQLiteConnection_SQL.R:6-11 | every accepted string has one schema/table split |
| `Identifiers.UnquoteInvertsQuote` | R/dbUnquoteIdentifier_SQLiteConnection_SQL.R:4-22 | a quoted name unquotes to exactly that table if and only if it is not empty; the empty one is refused |
| `Identifiers.UnquoteInvertsQuotedPair` | R/dbUnquoteIdentifier_SQLiteConnection_SQL.R:4-22 | two quoted names joined by a dot unquote to that schema and table if and only if neither is empty |
| `Identifiers.RequoteIsStable` | R/dbUnquoteIdentifier_SQLiteConnection_SQL.R:17-22 | quoting what an accepted string was taken apart into, and unquoting again, changes nothing |
| `Identifiers.VectorRoundTrip` | R/dbQuoteIdentifier_SQLiteConnection_character.R:9-21 | quoting a vector fails exactly for NA, and unquoting gives it back if and only if no name is empty |
| `Identifiers.NoneBad` | R/dbUnquoteIdentifier_SQLiteConnection_SQL.R:13-16 | a vector is refused exactly if one of its strings does not match |
| `Identifiers.FirstBadIs` | R/dbUnquoteIdentifier_SQLiteConnection_SQL.R:13-16 | the error names the first string that does not match |
| `LineReader.FileStream.AtEol` | src/import-file.c:200-208 | the backward comparison finds an end of line exactly if the bytes read end with it (last byte compared as signed) |
| `LineReader.FileStream.EnsureRoom` | src/import-file.c:189-195 | a full buffer is doubled, all bytes survive, and the next write is in range |
| `LineReader.FileStream.ReadBytes` | src/import-file.c:187-214 | reads up to and including the first end of line, or everything; the buffer is at most twice what was read |
| `LineReader.FileStream.GetLine` | src/import-file.c:171-222 | the buffer holds the text before the first end of line as a C string, NULL for an empty line or the end; exactly the line is consumed |
| `LineReader.EolFromFirst` | src/import-file.c:200-213 | the end of line found is the first one |
| `FieldSplitter.SplitInPlace` | src/import-file.c:100-131 | accepts a line exactly if its greedy split has nCol fields; the C strings at the noted places are then these fields |
| `FieldSplitter.EndField` | src/import-file.c:109-116 | overwriting a separator and noting the next start is one step of the specified scan |
| `FieldSplitter.JoinSplit` | src/import-file.c:107-117 | joining the fields with the separator gives back the whole line, for separators of any length |
| `FieldSplitter.SplitJoin` | src/import-file.c:107-117 | joined fields split back to the same fields if and only if they are clean |
| `FieldSplitter.PassesMeans` | src/import-file.c:107-117 | clean, for a field before a separator: no line break in it, and the separator begins nowhere before its end |
| `FieldSplitter.ClosesMeans` | src/import-file.c:107-117 | clean, for the last field: no separator before its first line break |
| `FieldSplitter.Bind` | src/import-file.c:133-139 | a field is NULL exactly if it starts with a backslash and N; otherwise its text is bound unchanged |
| `FieldSplitter.RowRoundTrip` | src/import-file.c:133-139 | a row written with a backslash and N for NULL is read back if and only if no text starts with these two characters |
| `FileImport.ImportLine` | src/import-file.c:107-139 | a line is accepted exactly if it has nCol fields, and its bound values are then those of the split |
| `FileImport.ImportNext` | src/import-file.c:100-152 | one turn of the import loop: end, skipped line or inserted row, in agreement with the import of the remaining bytes |
| `FileImport.ImportFile` | src/import-file.c:28-163 | the rows inserted and the way the import ends are those of the specified import, also for an empty separator, a missing table, a table without columns and a row that the engine refuses |
| `FileImport.InsertingMeans` | src/import-file.c:141-157 | the rows before the first refused one are inserted and the import fails there; if none is refused nothing changes |
| `FileImport.ReaderYieldsTexts` | src/import-file.c:100-105 | for a NUL-free file the lines read are the texts between ends of line up to the first empty one; one is left unterminated exactly if the file goes on behind its last end of line |
| `FileImport.TextsJoin` | src/import-file.c:187-213 | the texts between ends of line and the rest, joined again, are the file |
| `FileImport.JoinTexts` | src/import-file.c:187-213 | lines joined with ends of line are cut into the same lines if and only if none completes an end of line too early |
| `FileImport.UsableEol` | src/import-file.c:185-200 | an end-of-line string can be found if and only if its last byte is below 128 |
| `FileImport.FirstWrongIsReported` | src/import-file.c:101-131 | a line is reported as wrong if and only if it is the first line not skipped whose number of fields is not nCol |
| `FileImport.ImportInvertsExport` | src/import-file.c:28-163 | importing the file that rows were written to, behind header lines that are skipped, gives back these rows, NULLs included, if and only if every row is exportable |
| `Connections.Connection.Execute` | R/dbRollback_SQLiteConnection.R:8-14 | each statement changes content, durable content and stack in place as the transition function says; a failing one changes nothing |
| `Connections.Connection.DbBegin` | R/dbBegin_SQLiteConnection.R:3-11 | BEGIN without a name, SAVEPOINT with one |
| `Connections.Connection.DbCommit` | R/dbCommit_SQLiteConnection.R:3-11 | COMMIT without a name, RELEASE with one |
| `Connections.Connection.DbRollback` | R/dbRollback_SQLiteConnection.R:3-17 | ROLLBACK without a name, ROLLBACK TO and RELEASE with one |
| `Savepoints.PerformNamed` | R/dbRollback_SQLiteConnection.R:8-14 | rolling back by name restores the snapshot and closes the most recent frame of that name and all above it; committing closes them with the content kept |
| `Savepoints.SameNameMeans` | R/dbRollback_SQLiteConnection.R:12-14 | two savepoint names are the same if and only if each character agrees or is one ASCII letter in two cases |
| `Savepoints.FailureChangesNothing` | R/dbRollback_SQLiteConnection.R:3-17 | a call fails exactly if its transaction state or name does not allow it, and then nothing has changed, also for the two statements of a rollback by name |
| `Savepoints.PerformDurable` | tests/testthat/test-transactions.R:179-349 | one call changes what a second connection sees only if it leaves no frame open |
| `Savepoints.SessionDurability` | tests/testthat/test-transactions.R:179-349 | in every session a second connection sees this connection's content at the last moment without an open frame |
| `Savepoints.FramesStay` | R/dbBegin_SQLiteConnection.R:3-11 | frames below the lowest depth of a session stay as they were |
| `Savepoints.BeginThenClose` | R/dbRollback_SQLiteConnection.R:3-17 | begin, any session that keeps the frame, then rollback or commit: both succeed, and restore the stack (rollback the whole state) if and only if the frame is the most recent of its name |
| `Savepoints.OtherNamesDoNotMatter` | R/dbRollback_SQLiteConnection.R:3-17 | begin, any session that keeps the frame and opens no other savepoint spelled with the same letters, then rollback or commit: rolling back restores the whole state, committing keeps the content, and savepoints of other names, open or not, do not matter |
| `Savepoints.BeginThenCloseAll` | tests/testthat/test-transactions.R:179-349 | begin in autocommit, any session that keeps the outermost frame: a plain rollback returns to the beginning whatever was committed inside, a plain commit publishes the content |
| `Savepoints.NestingIsAtomic` | tests/testthat/test-transactions.R:179-349 | every program of nested protected blocks leaves the stack as found and computes its stack-free meaning, at any depth and with repeated names |
| `Savepoints.FailedBlockLeavesNoTrace` | R/dbRollback_SQLiteConnection.R:8-14 | a protected block that fails leaves the whole state as it was |
| `Savepoints.RepeatedNameLeftOpen` | R/dbRollback_SQLiteConnection.R:8-14 | an inner savepoint of the same name left open is the one that a rollback closes |
| `TableWriter.AppendTable` | R/dbAppendTable_SQLiteConnection.R:3-15 | all of the append or no trace of it; the stack is as before |
| `TableWriter.FrameBody` | R/dbWriteTable_SQLiteConnection_character_data.frame.R:79-112 | computes the unprotected effect and leaves stack and durable content alone, also when it fails in the middle |
| `TableWriter.WriteDataFrame` | R/dbWriteTable_SQLiteConnection_character_data.frame.R:63-117 | at any nesting depth: success with exactly the effect and the stack unchanged, or failure with the whole state unchanged |
| `TableWriter.FileBody` | R/dbWriteTable_SQLiteConnection_character_character.R:27-58 | the same for a file: the unprotected effect, with stack and durable content left alone |
| `TableWriter.WriteFile` | R/dbWriteTable_SQLiteConnection_character_character.R:13-63 | at any nesting depth: success with exactly the effect and the stack unchanged, or failure with the whole state unchanged |
| `TableWriter.KeysCompareNames` | R/dbWriteTable_SQLiteConnection_character_data.frame.R:8-10 | two names find the same table if and only if each character agrees or is one ASCII letter in two cases |
| `TableWriter.CatalogWrite` | R/dbWriteTable_SQLiteConnection_character_data.frame.R:79-112 | over a catalog of tables: fails exactly if the table exists and neither option is given or a helper that is needed fails; otherwise it holds the old rows (append only) and then the new ones, other tables untouched |
| `TableWriter.FileEffectIs` | R/dbWriteTable_SQLiteConnection_character_character.R:27-58 | for a file: a refusal exactly if the table exists and neither option is given or the types of a new table are neither given nor readable, and otherwise the modelled import into the table |
| `TableWriter.ExportedFileIsWritten` | R/dbWriteTable_SQLiteConnection_character_character.R:13-63 | with the contract of WriteFile, an exported file is written unless a step before the import is refused; the table then holds the old rows (append only) and the exported ones |
| `TableWriter.WrongLineLeavesNoTrace` | src/import-file.c:119-131 | with the contract of WriteFile, a line with the wrong number of fields fails the call and leaves the whole state as it was |

## Left out

- ResultSet.SqliteResultImpl.Bind: does not model values of an R type that cannot be bound, which the original refuses in the middle of binding; parameters are cells that can be bound.
- ResultSet.SqliteResultImpl.BindRow: the same; each value is bound as the cell it is.
- ResultSet.SqliteResultImpl.GetColumnInfo: does not model the column names, which never change.
- ResultSet.DbBind: does not model the conversion of factors and of encodings before binding; parameters are given after it.
- LineReader.FileStream.AtEol: does not model reads before the buffer; the comparison is guarded, as described above.
- LineReader.FileStream.GetLine: gives an unterminated buffer no outcome of `strlen`, which is undefined in C; it is flagged.
- The SQLite engine, SQL parsing and query evaluation: rows, savepoint semantics, coercions and accepted inserts are the interface above.
- Engine errors in the middle of a step, engine-initiated rollbacks, a RELEASE or COMMIT that fails, and busy connections.
- The count of affected rows.
- Date, time and datetime parsing: functions from a cell to a number or NA.
- Infinities and NaN values other than NA, and the rounding of 64-bit integers to double beyond what is exact.
- Overflow of the `int` counters for rows, positions and segments.
- Argument checks in R (types and lengths of scalars, duplicate field types), row names, `bigint` conversion, and messages' texts.
- The random part of savepoint names: the names are parameters, and no result depends on their being different.
- Opening files, memory allocation failures, interrupts, R attributes and classes, finalizers and protection.
- HTTP access, extensions, connection setup, database copying, table listing and deprecated wrappers: thin layers with easy members only.
