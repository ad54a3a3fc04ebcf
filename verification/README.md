# Mckoi table algebra, JDBC query object and a Swing table sorter, in Dafny

This project models the core of a small SQL database engine (Mckoi SQL) and of
the report table sorter of an accounting program (lazy8ledger). It proves
properties of that model:

- **Semi-joins** (`INHelper`): `IN` and `NOT IN` between one column of each of
  two tables. There is a fast path for a small and a large left table, and
  the original quadratic algorithm is kept beside it.
- **Composite tables** (`CompositeTable`): the `UNION ALL` of tables with the
  same columns. A row of the result is addressed through the concatenated
  row lists of the parts.
- **Outer tables** (`OuterTable`): the rows an outer join adds. They read
  NULL for the columns of a table with no matching row.
- **Base tables** (`DefaultDataTable`): column definitions, name lookup,
  resolved column names, and the per-column root indexes kept up to date on
  insert and delete.
- **Filters** (`DataTableFilter`): a stack of filters over a base table.
  Every read is forwarded to the parent, and every lock reaches the root.
- **Name resolution** (`TableExpressionFromSet`): resolving a column
  reference against the `FROM` tables and `SELECT` aliases of one query level,
  then outward through the enclosing levels as a correlated reference.
- **The client query object** (`SQLQuery`): JDBC escape rewriting
  (`{d ...}`, `{fn ...}`, ...), the growable parameter list, equality, and
  writing to and reading from a stream.
- **The table sorter** (`TableSorter`): the row comparator and the stable
  `shuttlesort` over an index array.
- **Aggregates** (`AbstractAggregateFunction`): a fold over the non-null
  values of a group.
- **`DROP TABLE`**: the duplicate check, then privileges, then foreign
  references, then existence, then the drop loop.

## How the model is built

- Cells are `Option<int>` (`None` is SQL NULL). `Cells.CompareCells` stands
  in for the engine's cell ordering, in which NULL equals NULL and sorts after
  every value.
- A column index (`SelectableScheme`) is represented by its cells and the
  order of its row ids.
- Lock counters are one map from table id to count, shared by every table.
- Tables are immutable values. A Java method that updates fields returns the
  updated value. Operations that throw return `Result`, with one error
  constructor per exception.
- A delegated read (composite and outer tables) resolves to the part table
  and row it delegates to.
- Database look-ups, privileges and foreign keys (`DropTable`) are function
  parameters (oracles).

## Model

| member | source | states |
|---|---|---|
| SemiJoin.SelectEqual | com/mckoi/database/INHelper.java:211-212 | the `EQUALS` selection of an index returns, without repeats, exactly the rows whose cell equals the value |
| SemiJoin.SelectNotEqual | com/mckoi/database/INHelper.java:313-316 | the `NOT_EQUALS` selection returns, without repeats, exactly the rows whose cell differs from the value |
| SemiJoin.UniqueInsertSort | com/mckoi/database/INHelper.java:227-232 | inserting into a strictly increasing list keeps it strictly increasing, adds exactly the new row, and reports whether the row was new |
| SemiJoin.In | com/mckoi/database/INHelper.java:153-251 | `in` returns, in increasing order and without repeats, exactly the rows of table 1 whose cell occurs in table 2, on either path |
| SemiJoin.InBySmall | com/mckoi/database/INHelper.java:200-238 | the small-table path (look up each row of table 1 in table 2) gives exactly the matching rows, strictly increasing |
| SemiJoin.InByLarge | com/mckoi/database/INHelper.java:200-238 | the large-table path (select each distinct value of table 2 in table 1) gives exactly the matching rows, strictly increasing |
| SemiJoin.InsertSelected | com/mckoi/database/INHelper.java:226-233 | merging a selection into the sorted result keeps it strictly increasing and its members are the union of the two |
| SemiJoin.InColumns | com/mckoi/database/INHelper.java:153-262 | the column-list overload rejects more than one column and empty column lists; an empty table on either side gives no rows without reading a column; otherwise an out-of-range column is an error and the result is exactly the matching rows of table 1, increasing |
| SemiJoin.OrigIn | com/mckoi/database/INHelper.java:80-146 | the original algorithm selects exactly the matching rows of table 1 |
| SemiJoin.OrigInLarge1 | com/mckoi/database/INHelper.java:100-136 | the large-table loop of the original selects the rows of table 1 whose cell occurs among the first `n` cells of table 2 |
| SemiJoin.OrigInSmall1 | com/mckoi/database/INHelper.java:92-142 | the small-table loop of the original selects the first-`n` rows of table 1 whose cell occurs in table 2 |
| SemiJoin.OrigInReturnsDuplicates | com/mckoi/database/INHelper.java:73-79 | unlike the replacement, the original returns a row twice when table 2 holds its value twice, as its own comment warns |
| SemiJoin.NotIn | com/mckoi/database/INHelper.java:304-347 | `notIn` returns, without repeats, exactly the rows of table 1 whose cell occurs nowhere in table 2; an empty table 2 keeps every row in index order |
| SemiJoin.NotInColumns | com/mckoi/database/INHelper.java:304-358 | the column-list overload of `notIn` rejects more than one column and empty column lists; it fails on an out-of-range column only where one is read (table 1's column unless table 1 is empty and table 2 has two or more rows, table 2's only when table 2 has rows), and otherwise gives exactly the rows of table 1 without a match, every row in index order for an empty table 2 |
| Composite.SetupIndexes | com/mckoi/database/CompositeTable.java:121-138 | only `UNION` is recognised; `UNION ALL` gives each part the identity row list, and removing duplicates is the unfinished stub |
| Composite.NewComposite | com/mckoi/database/CompositeTable.java:92-97 | the constructor succeeds exactly for `UNION ALL`, keeps the parts, and starts unlocked with no cached schemes |
| Composite.NewCompositeFromList | com/mckoi/database/CompositeTable.java:103-105 | the list constructor takes the first part as master table and rejects an empty list |
| Composite.RowCount | com/mckoi/database/CompositeTable.java:150-156 | the row count is the number of logical rows the parts' row lists line up, one after the other |
| Composite.GetCellContents | com/mckoi/database/CompositeTable.java:226-238 | logical row `r` reads the part and row id at position `r` of the parts' row lists laid end to end; a row past the end is out of bounds |
| Composite.CompareCellTo | com/mckoi/database/CompositeTable.java:240-252 | logical row `r` compares the cell of the part and row id at position `r` of the laid-out row lists; a row past the end is out of bounds |
| Composite.Locate | com/mckoi/database/CompositeTable.java:226-237 | a row exists exactly when it is below the total row count, and it is found at the part and offset whose earlier parts' lengths add up to it |
| Composite.CompareUsesSameAddressing | com/mckoi/database/CompositeTable.java:240-252 | `compareCellTo` fails exactly when `getCellContents` does, and otherwise compares the same cell |
| Composite.UnionRowAddressing | com/mckoi/database/CompositeTable.java:226-237 | in a union, row `k` of part `i` appears after all the rows of the earlier parts and reads the part's own cell |
| Composite.GetSelectableSchemeFor | com/mckoi/database/CompositeTable.java:188-206 | the blind scheme of a column is created once and cached; other columns are untouched; a request from another table gets a subset of it |
| Composite.SchemeCachedOnce | com/mckoi/database/CompositeTable.java:191-195 | asking twice gives the same scheme and leaves the table as the first call left it |
| Composite.SetToRowTableDomain | com/mckoi/database/CompositeTable.java:208-213 | the row set is returned unchanged for this table as ancestor, and anything else is an error |
| Composite.ResolveToRawTable | com/mckoi/database/CompositeTable.java:215-224 | the table appends itself with every row it has, in order, after the entries already present |
| Composite.IdentityDecidesRequests | com/mckoi/database/CompositeTable.java:292-295 | `typeEquals` holds exactly for the table itself, and that is exactly when the ancestor check accepts the rows and when a request receives the cached scheme itself rather than a projection |
| Composite.LockRoot | com/mckoi/database/CompositeTable.java:270-276 | locking raises the table's own counter and the lock count of every part, once per occurrence |
| Composite.UnlockRoot | com/mckoi/database/CompositeTable.java:278-284 | unlocking lowers the same counters by the same amounts |
| Composite.RootsLockedWhileHeld | com/mckoi/database/CompositeTable.java:270-288 | `hasRootsLocked` is false on a balanced composite, true after a lock, and false again after the matching unlock |
| Composite.LockUnlockBalanced | com/mckoi/database/CompositeTable.java:270-288 | a lock followed by an unlock restores the table and every lock count, and a lock makes `hasRootsLocked` true |
| Outer.NewOuterTable | com/mckoi/database/OuterTable.java:53-67 | the constructor keeps each table's rows and starts with no outer rows and no merged slots |
| Outer.FirstMatch | com/mckoi/database/OuterTable.java:86-93 | the search for a table of the outside result finds the first entry with the same table, or reports there is none |
| Outer.MergeSlots | com/mckoi/database/OuterTable.java:86-110 | every table found in the outside result gets that entry's rows and every other table gets none; a row count that differs from the first entry's is an error |
| Outer.MergeIn | com/mckoi/database/OuterTable.java:72-115 | merging sets the outer row count to the outside result's size and fills the slots; an empty outside result or a size mismatch is an error |
| Outer.RowCount | com/mckoi/database/OuterTable.java:122-124 | the row count covers the outer rows |
| Outer.RowsBelowRowCount | com/mckoi/database/OuterTable.java:122-124 | with row lists of one length, a row is addressable in a column exactly when it is below the row count: the outer rows first, then the inner ones |
| Outer.Resolve | com/mckoi/database/OuterTable.java:158-176 | rows past the outer rows read the inner rows shifted down; outer rows read the merged row, or NULL for a table with no merged slot |
| Outer.GetCellContents | com/mckoi/database/OuterTable.java:158-176 | a row at or past the outer row count reads the column's table through its row list, shifted by the outer row count; an outer row reads NULL for a table with no merged rows and the merged row otherwise |
| Outer.CompareCellTo | com/mckoi/database/OuterTable.java:183-205 | a NULL outer cell compares equal to NULL and greater than any value |
| Outer.CompareAgreesWithContents | com/mckoi/database/OuterTable.java:183-205 | `compareCellTo` succeeds exactly when `getCellContents` does and compares the value it returns |
| Outer.UnmatchedTableReadsNull | com/mckoi/database/OuterTable.java:158-176 | after a merge, an outer row reads NULL in every column of a table absent from the outside result |
| Outer.MatchedTableReadsMergedRow | com/mckoi/database/OuterTable.java:158-176 | after a merge, an outer row reads the outside result's row of the first matching entry |
| Outer.MergeInShiftsInnerRows | com/mckoi/database/OuterTable.java:158-176 | merging into a fresh outer table adds that many rows and moves every inner row down by as many |
| Outer.GetSelectableSchemeFor | com/mckoi/database/OuterTable.java:136-152 | the scheme of a column is built once over this table's rows and cached; a request from another table gets a subset of it |
| Outer.OwnSchemeExactlyForItself | com/mckoi/database/OuterTable.java:145-150 | `typeEquals` holds exactly when the request receives the cached scheme itself rather than a projection |
| DataTable.Init | com/mckoi/database/DefaultDataTable.java:126-130 | `init` gives the requested number of empty column slots and no rows, and keeps the table's identity |
| DataTable.NewTable | com/mckoi/database/DefaultDataTable.java:79-95 | the constructor from field definitions succeeds exactly when the names are distinct, and then holds the fields in order with no rows |
| DataTable.AddFieldsFill | com/mckoi/database/DefaultDataTable.java:91-93 | adding the first `k` fields to empty slots fails exactly on a repeated name and otherwise fills the first `k` slots in order |
| DataTable.AddField | com/mckoi/database/DefaultDataTable.java:184-200 | a field goes into the first empty slot; a duplicate name before it or a full table is an error, and nothing else changes |
| DataTable.AddFieldKeepsPacked | com/mckoi/database/DefaultDataTable.java:184-200 | adding keeps the filled slots before the empty ones and the names unique, and fills one more slot |
| DataTable.GetFields | com/mckoi/database/DefaultDataTable.java:229-233 | the returned array holds the column slots in order |
| DataTable.FindColumnFrom | com/mckoi/database/DefaultDataTable.java:284-293 | the column search returns the first column with the name, -1 when none has it, and fails on an empty slot it reaches first |
| DataTable.FindFieldNameString | com/mckoi/database/DefaultDataTable.java:275-294 | a name without a dot is an error; a prefix other than the table name gives -1; otherwise the column search on the rest |
| DataTable.FindFieldNameVariable | com/mckoi/database/DefaultDataTable.java:301-316 | a reference not qualified by this table gives -1, otherwise the column search |
| DataTable.AddThenFind | com/mckoi/database/DefaultDataTable.java:275-316 | a field just added is found again under its qualified name and as a qualified reference |
| DataTable.GetResolvedColumnName | com/mckoi/database/DefaultDataTable.java:249-255 | the resolved name is the table name, a dot and the column name; a column past the slots and an empty slot are distinct errors |
| DataTable.GetResolvedVariable | com/mckoi/database/DefaultDataTable.java:262-265 | the resolved reference is qualified by this table and carries the column name; a column past the slots and an empty slot are distinct errors |
| DataTable.ResolvedNameFound | com/mckoi/database/DefaultDataTable.java:249-316 | round trip: both `findFieldName`s map a column's resolved name and resolved reference back to that column |
| DataTable.GetSelectableSchemeFor | com/mckoi/database/DefaultDataTable.java:324-344 | this table gets the root index itself and any other table a subset of it |
| DataTable.SetToRowTableDomain | com/mckoi/database/DefaultDataTable.java:353-358 | the row set is returned unchanged for this table as ancestor, and any other ancestor is an error |
| DataTable.ResolveToRawTable | com/mckoi/database/DefaultDataTable.java:367-376 | the table appends itself with every row after the entries already present |
| DataTable.ValidColumns | com/mckoi/database/DefaultDataTable.java:381-388 | every column of a base table is valid |
| DataTable.AddCellToColumnSchemes | com/mckoi/database/DefaultDataTable.java:396-401 | one cell goes into its column's index only when the column is quantifiable, and no other index changes; a column past the slots and an empty slot are distinct errors |
| DataTable.RowInsertIsCellInserts | com/mckoi/database/DefaultDataTable.java:396-416 | inserting a row changes each column's index as inserting that column's cell alone would |
| DataTable.UpdateColumnSchemes | com/mckoi/database/DefaultDataTable.java:408-431 | inserting or removing a row updates exactly the quantifiable columns' indexes; an empty slot is an error |
| DataTable.RemoveUndoesInsert | com/mckoi/database/DefaultDataTable.java:408-431 | removing a row just inserted restores every index |
| Filter.GettersForwardToParent | com/mckoi/database/DataTableFilter.java:58-217 | every getter and read of a filter (name included) gives what its parent gives |
| Filter.GetSelectableSchemeFor | com/mckoi/database/DataTableFilter.java:145-153 | a request from the filter itself is answered by the base table as a request from the base table |
| Filter.SetToRowTableDomain | com/mckoi/database/DataTableFilter.java:165-173 | the filter and every filter below it count as the base table when they are the ancestor |
| Filter.OwnRequestReachesRoot | com/mckoi/database/DataTableFilter.java:145-173 | the filter's own request gets the root index; the domain change succeeds exactly for the base or a filter of the stack and keeps the rows |
| Filter.ResolveToRawTable | com/mckoi/database/DataTableFilter.java:180-188 | a filter appends itself with the base table's rows |
| Filter.LockRoot | com/mckoi/database/DataTableFilter.java:260-262 | locking a filter raises the base table's lock count by one and nothing else |
| Filter.UnlockRoot | com/mckoi/database/DataTableFilter.java:269-271 | unlocking a filter lowers the base table's lock count by one and nothing else |
| Filter.StackSharesLocks | com/mckoi/database/DataTableFilter.java:260-279 | any two stacks over the same base see the same lock state, and a lock through one is undone by an unlock through the other |
| Filter.HasRootsLockedIsBase | com/mckoi/database/DataTableFilter.java:277-279 | a filter has roots locked exactly when its base table's lock count is not zero |
| Scope.StringCompareIsEquivalence | com/mckoi/database/interpret/TableExpressionFromSet.java:120-125 | name comparison, with or without case folding, is reflexive, symmetric and transitive |
| Scope.CaseInsensitiveMatchesMore | com/mckoi/database/interpret/TableExpressionFromSet.java:120-125 | the case-insensitive comparison matches every pair the exact one does, and is equality after upper-casing |
| Scope.ScanAliases | com/mckoi/database/interpret/TableExpressionFromSet.java:246-257 | the alias scan fails on a second match, finds nothing when no alias matches, and otherwise finds the one that does |
| Scope.DereferenceAssignment | com/mckoi/database/interpret/TableExpressionFromSet.java:236-260 | a qualified reference is never an alias; an unqualified one is ambiguous on two matching aliases and otherwise yields the matching alias's expression |
| Scope.ResolveAssignmentReference | com/mckoi/database/interpret/TableExpressionFromSet.java:269-293 | the same alias search, yielding an unqualified reference to the matching alias |
| Scope.AliasLookupsAgree | com/mckoi/database/interpret/TableExpressionFromSet.java:236-293 | both alias look-ups fail together and find nothing together |
| Scope.TableMatches | com/mckoi/database/interpret/TableExpressionFromSet.java:325-337 | the `FROM` scan collects the columns each table reports and is ambiguous when one table reports two |
| Scope.ResolveReference | com/mckoi/database/interpret/TableExpressionFromSet.java:308-351 | a reference resolves when the aliases and tables together match at most once; the alias wins when it is the one match |
| Scope.FirstAnswer | com/mckoi/database/interpret/TableExpressionFromSet.java:363-373 | the outward search answers "not found" exactly when no level resolves; a resolution or an error it returns is that of a level with only "not found" levels before it |
| Scope.FirstAnswerDecides | com/mckoi/database/interpret/TableExpressionFromSet.java:363-373 | the first level that resolves or fails decides: its resolution is returned correlated at its distance, its error is passed on |
| Scope.QualifyVariable | com/mckoi/database/interpret/TableExpressionFromSet.java:382-400 | a reference this level resolves is local, an ambiguity here is reported, a correlated answer comes from the first outer level that resolves it, and the reference is not found exactly when no level resolves it |
| Scope.QualifyVariableDecides | com/mckoi/database/interpret/TableExpressionFromSet.java:363-400 | when this level finds nothing, the first enclosing level that resolves or fails decides: a resolution is correlated at that level, an ambiguity is reported |
| Scope.FindTable | com/mckoi/database/interpret/TableExpressionFromSet.java:202-210 | `findTable` returns the first `FROM` table that matches the schema and name, or none |
| Scope.GenerateResolvedVariableList | com/mckoi/database/interpret/TableExpressionFromSet.java:188-195 | the resolved list is the exposed columns, in order |
| JdbcQuery.Trim | com/mckoi/database/jdbc/SQLQuery.java:165 | the trimmed body is the input cut after its leading and before its trailing characters up to U+0020, and neither starts nor ends with one |
| JdbcQuery.TranslateKeyword | com/mckoi/database/jdbc/SQLQuery.java:164-187 | `d`, `t`, `ts`, `fn` and `oj` are translated by their prefix; `call` and `?=` are refused as stored procedures; any other keyword is unknown |
| JdbcQuery.EscapeJdbcSubstitution | com/mckoi/database/jdbc/SQLQuery.java:159-193 | an escape with no space inside is malformed; otherwise its keyword runs to the first space and its body is the trimmed rest |
| JdbcQuery.DoEscapeSubstitutions | com/mckoi/database/jdbc/SQLQuery.java:199-268 | a query without `{` is returned unchanged; otherwise the scanner's output |
| JdbcQuery.NoBraceCopiedVerbatim | com/mckoi/database/jdbc/SQLQuery.java:218-260 | outside an escape, input without `{` is copied character for character |
| JdbcQuery.QuotedBraceKept | com/mckoi/database/jdbc/SQLQuery.java:199-268 | a quoted string is copied as it is, braces included, and the rest of the query is rewritten as if it stood alone |
| JdbcQuery.QuotedTextSkipped | com/mckoi/database/jdbc/SQLQuery.java:221-248 | in plain SQL the scanner copies a quoted string without a backslash and is back in plain SQL after its closing quote |
| JdbcQuery.RunShiftsOut | com/mckoi/database/jdbc/SQLQuery.java:218-260 | what the scanner does with the rest of the input does not depend on the output before it |
| JdbcQuery.EscapeReplaced | com/mckoi/database/jdbc/SQLQuery.java:225-256 | in plain SQL an escape is replaced by its translation and one space, or its error stops the scan |
| JdbcQuery.QuoteNeverCloses | com/mckoi/database/jdbc/SQLQuery.java:230-248 | as written, after a backslash inside a quote the rest of the query is copied as quoted text |
| JdbcQuery.EscapeNeverCloses | com/mckoi/database/jdbc/SQLQuery.java:230-264 | as written, after a backslash inside an escape the escape never closes and the query is rejected as unterminated |
| JdbcQuery.EscapeAfterQuotedBackslashKept | com/mckoi/database/jdbc/SQLQuery.java:230-248 | as written, a query that opens a quote with a backslash in it keeps every later escape unreplaced |
| JdbcQuery.StepFixed | com/mckoi/database/jdbc/SQLQuery.java:230-248 | corrected step: the character after a backslash is taken as it is and the flag is cleared |
| JdbcQuery.BackslashSkipsOneFixed | com/mckoi/database/jdbc/SQLQuery.java:230-248 | corrected: a backslash inside a quote protects exactly one character |
| JdbcQuery.EscapedQuoteClosesFixed | com/mckoi/database/jdbc/SQLQuery.java:230-248 | corrected: an escaped quote character does not close the quote and the next one does |
| JdbcQuery.New | com/mckoi/database/jdbc/SQLQuery.java:67-73 | a new query is unprepared, with eight empty parameter slots and no parameters |
| JdbcQuery.Grow | com/mckoi/database/jdbc/SQLQuery.java:78-85 | growing the list keeps the old slots and adds empty ones |
| JdbcQuery.AddVar | com/mckoi/database/jdbc/SQLQuery.java:100-108 | `addVar` writes the next slot, and counts it, exactly when there is room for it; the list grows to keep room for the next |
| JdbcQuery.SetVar | com/mckoi/database/jdbc/SQLQuery.java:116-124 | `setVar(i)` writes slot `i`, growing the list when `i` is past its end, moves the next position after it, and raises the count to cover it |
| JdbcQuery.SetLastSlotThenAddFails | com/mckoi/database/jdbc/SQLQuery.java:116-124 | as written, setting slot 7 of a new query and then adding a parameter writes past the end of the list |
| JdbcQuery.SetVarFixed | com/mckoi/database/jdbc/SQLQuery.java:116-124 | corrected `setVar`: the same effect, and it always leaves room for the next `addVar` |
| JdbcQuery.AddVarAlwaysSucceedsWithFix | com/mckoi/database/jdbc/SQLQuery.java:100-124 | with the corrected `setVar`, no sequence of `addVar`, `setVar` and `clear` calls fails |
| JdbcQuery.Clear | com/mckoi/database/jdbc/SQLQuery.java:129-135 | clearing empties every slot, resets the position and the count, and keeps the list's size |
| JdbcQuery.Prepare | com/mckoi/database/jdbc/SQLQuery.java:275-280 | preparing marks the query prepared and changes nothing else but the text; with escape processing the text becomes the rewritten query and an escape error is passed on, without it the text is kept |
| JdbcQuery.Equals | com/mckoi/database/jdbc/SQLQuery.java:285-300 | two queries are equal exactly when their text, parameter count and first `count` parameters agree |
| JdbcQuery.EqualsReflexiveSymmetric | com/mckoi/database/jdbc/SQLQuery.java:285-300 | equality is reflexive and symmetric |
| JdbcQuery.WriteTo | com/mckoi/database/jdbc/SQLQuery.java:333-339 | the stream form holds the query text and the first `count` parameters |
| JdbcQuery.ReadFromWriteTo | com/mckoi/database/jdbc/SQLQuery.java:333-352 | reading back what was written gives the same text and parameter count, with the decoded objects as parameters; the copy is `equals` to the original exactly when those are the original objects |
| JdbcQuery.CopyWithNewObjectsNotEqual | com/mckoi/database/jdbc/SQLQuery.java:285-300 | a query with a non-null parameter is not `equals` to its copy read back with new objects |
| Sorter.NullsFirst | lazy8ledger/org/lazy8/nu/ledger/reports/TableSorter.java:88-94 | a null cell sorts before a non-null one, and two nulls tie |
| Sorter.BlankStringsLast | lazy8ledger/org/lazy8/nu/ledger/reports/TableSorter.java:136-151 | a blank string sorts after a non-blank one, and two blanks compare by row number |
| Sorter.FalseBeforeTrue | lazy8ledger/org/lazy8/nu/ledger/reports/TableSorter.java:160-173 | `false` sorts before `true` |
| Sorter.ColumnCompareIsKeyCompare | lazy8ledger/org/lazy8/nu/ledger/reports/TableSorter.java:78-188 | on two different rows, the column comparison is the comparison of the rows' sort keys for that column |
| Sorter.CompareIsLexicographic | lazy8ledger/org/lazy8/nu/ledger/reports/TableSorter.java:197-206 | `compare` is decided by the first sorting column that differs, and is reversed when descending |
| Sorter.CompareIsKeyCompare | lazy8ledger/org/lazy8/nu/ledger/reports/TableSorter.java:197-206 | on two different rows `compare` is the lexicographic comparison of their key lists |
| Sorter.CompareZeroIffSameKeys | lazy8ledger/org/lazy8/nu/ledger/reports/TableSorter.java:197-206 | two different rows compare 0 exactly when all their keys are equal |
| Sorter.KeyOrderIsTotalPreorder | lazy8ledger/org/lazy8/nu/ledger/reports/TableSorter.java:197-206 | the key order is total and transitive, as a stable merge sort needs |
| Sorter.RowOrderAgrees | lazy8ledger/org/lazy8/nu/ledger/reports/TableSorter.java:197-206 | on different rows `compare` and the key order agree |
| Sorter.ReallocateIndexes | lazy8ledger/org/lazy8/nu/ledger/reports/TableSorter.java:211-221 | the fresh index array maps each view row to the same model row |
| Sorter.GetValueAt | lazy8ledger/org/lazy8/nu/ledger/reports/TableSorter.java:351-354 | a view cell exists exactly for rows and columns in range, and reads the model row the index array names |
| Sorter.IdentityView | lazy8ledger/org/lazy8/nu/ledger/reports/TableSorter.java:211-221 | right after reallocation the view shows the model unchanged |
| Sorter.Swap | lazy8ledger/org/lazy8/nu/ledger/reports/TableSorter.java:335-339 | `swap` exchanges two entries and leaves the others alone |
| Sorter.SwapInvolution | lazy8ledger/org/lazy8/nu/ledger/reports/TableSorter.java:335-339 | a swap undoes itself and keeps the row ids the array holds |
| Sorter.SwapView | lazy8ledger/org/lazy8/nu/ledger/reports/TableSorter.java:335-339 | after a swap each of the two view rows shows what the other showed |
| Sorter.SortView | lazy8ledger/org/lazy8/nu/ledger/reports/TableSorter.java:250-258 | sorting changes only the index array |
| Sorter.SortViewCorrect | lazy8ledger/org/lazy8/nu/ledger/reports/TableSorter.java:250-258 | sorting a repeat-free index array keeps the same rows, orders them by `compare`, and keeps rows with equal keys in their old order |
| Sorter.SortByColumn | lazy8ledger/org/lazy8/nu/ledger/reports/TableSorter.java:383-389 | `sortByColumn` sorts on that one column in the given direction |
| Sorter.SortByColumnOrders | lazy8ledger/org/lazy8/nu/ledger/reports/TableSorter.java:383-389 | afterwards, earlier view rows never compare after later ones on that column |
| Sorter.SortedViewNullsFirst | lazy8ledger/org/lazy8/nu/ledger/reports/TableSorter.java:250-258 | in an ascending sort, rows null in the column come before the others |
| ShuttleSort.MergeSort | lazy8ledger/org/lazy8/nu/ledger/reports/TableSorter.java:285-327 | the recursive sort `shuttlesort` computes keeps the length of its input |
| ShuttleSort.MergeSortPermutes | lazy8ledger/org/lazy8/nu/ledger/reports/TableSorter.java:285-327 | the sort is a permutation of its input |
| ShuttleSort.MergeSortSorted | lazy8ledger/org/lazy8/nu/ledger/reports/TableSorter.java:285-327 | under a total preorder the result is sorted |
| ShuttleSort.MergeSortStable | lazy8ledger/org/lazy8/nu/ledger/reports/TableSorter.java:272-327 | elements that tie keep their input order, as the source's comment promises |
| ShuttleSort.MergeSortAgree | lazy8ledger/org/lazy8/nu/ledger/reports/TableSorter.java:285-327 | on distinct elements, two comparators that agree give the same sort |
| ShuttleSort.Merge | lazy8ledger/org/lazy8/nu/ledger/reports/TableSorter.java:318-325 | the merge of two runs is as long as both together |
| ShuttleSort.MergePermutes | lazy8ledger/org/lazy8/nu/ledger/reports/TableSorter.java:320-325 | the merge is a permutation of the two runs together |
| ShuttleSort.MergeSorted | lazy8ledger/org/lazy8/nu/ledger/reports/TableSorter.java:320-325 | merging two sorted runs gives a sorted run |
| ShuttleSort.MergeStable | lazy8ledger/org/lazy8/nu/ledger/reports/TableSorter.java:320-325 | ties from the left run come before ties from the right run |
| ShuttleSort.CombinedSorted | lazy8ledger/org/lazy8/nu/ledger/reports/TableSorter.java:311-316 | the shortcut that concatenates already-ordered runs gives a sorted result |
| ShuttleSort.CombinedStable | lazy8ledger/org/lazy8/nu/ledger/reports/TableSorter.java:311-316 | the shortcut keeps ties in order as well |
| ShuttleSort.Shuttlesort | lazy8ledger/org/lazy8/nu/ledger/reports/TableSorter.java:285-327 | the in-place sort leaves the recursive sort of its range in `to` and touches nothing outside the range |
| ShuttleSort.Combine | lazy8ledger/org/lazy8/nu/ledger/reports/TableSorter.java:311-325 | combining two sorted halves takes the shortcut or merges, as the recursive sort does |
| ShuttleSort.CopyRange | lazy8ledger/org/lazy8/nu/ledger/reports/TableSorter.java:311-316 | the shortcut's copy loop copies the range and nothing else |
| ShuttleSort.MergeRuns | lazy8ledger/org/lazy8/nu/ledger/reports/TableSorter.java:320-325 | the merge loop writes the merge of the two halves |
| ShuttleSort.MergeStep | lazy8ledger/org/lazy8/nu/ledger/reports/TableSorter.java:321-325 | one step of the merge loop writes the element the merge puts next |
| ShuttleSort.Sort | lazy8ledger/org/lazy8/nu/ledger/reports/TableSorter.java:250-258 | `sort` leaves the recursive sort of the index array in its place |
| Aggregate.NewAggregate | com/mckoi/database/AbstractAggregateFunction.java:49-58 | an aggregate is built exactly when it has one parameter |
| Aggregate.Evaluate | com/mckoi/database/AbstractAggregateFunction.java:91-135 | no group is an error; an empty group gives the NULL object; otherwise the post step of the fold over the non-null values |
| Aggregate.PresentAppend | com/mckoi/database/AbstractAggregateFunction.java:110-129 | the non-null values of a group are taken in group order: those of two parts are those of the first followed by those of the second |
| Aggregate.PresentOne | com/mckoi/database/AbstractAggregateFunction.java:116-119 | a single value contributes itself when it is not null and nothing when it is |
| Aggregate.PresentMembers | com/mckoi/database/AbstractAggregateFunction.java:110-129 | every non-null value of the group is folded, and nothing else is |
| Aggregate.FoldSkipsNulls | com/mckoi/database/AbstractAggregateFunction.java:110-129 | the fold over a group is the fold over its non-null values in order, from a null accumulator |
| Aggregate.AllNullFold | com/mckoi/database/AbstractAggregateFunction.java:110-129 | a group of nulls folds to null |
| Aggregate.DefaultPostIsFold | com/mckoi/database/AbstractAggregateFunction.java:80-85 | with the default post step the result is the fold itself |
| DropTable.Prepare | com/mckoi/database/interpret/DropTable.java:63-78 | a list with a repeated entry is refused, naming the first entry that occurs again |
| DropTable.CheckPrivileges | com/mckoi/database/interpret/DropTable.java:87-96 | the privilege check passes exactly when the user may drop every table, and otherwise names the first denied table in list order |
| DropTable.CheckReferences | com/mckoi/database/interpret/DropTable.java:98-114 | the referential check passes exactly when every foreign key into a listed table comes from a listed table; otherwise it reports the constraint, the table and the key table of the first violating foreign key, tables in list order and keys in declaration order |
| DropTable.CheckExistence | com/mckoi/database/interpret/DropTable.java:117-135 | the existence check passes exactly when every table exists, and otherwise names the first missing table in list order |
| DropTable.DropAll | com/mckoi/database/interpret/DropTable.java:137-155 | the drop loop removes every listed table and counts the listed tables that existed |
| DropTable.Listed | com/mckoi/database/interpret/DropTable.java:137-155 | the tables a list names are its entries |
| DropTable.Evaluate | com/mckoi/database/interpret/DropTable.java:80-158 | the drop fails exactly when a check fails, with the first failure in check order, and otherwise drops the listed tables |
| DropTable.DroppedCountsExisting | com/mckoi/database/interpret/DropTable.java:137-155 | for a list without repeats the count is the number of entries that named an existing table |

## Left out

- The name-based overloads `in(table1, table2, String, String)` and `notIn(table1, table2, String, String)` (INHelper.java 46-70 and 282-297) are not modelled. They only look up two column names and wrap the result rows in a `VirtualTable`, a class outside this model.
- Database handles, table listeners (`addDataTableListener`, `removeDataTableListener`) and `getDatabase` are left out. They connect to the running engine and carry no logic.
- The trivial getters of `CompositeTable`, `DefaultDataTable` and `OuterTable` are left out: `getName`, `getColumnCount`, `getRowCount` where it is a field read, `getFieldAt`, and `findFieldName` forwarded to the master table. `Filter.GettersForwardToParent` covers the filter's own.
- `DefaultDataTable.blankSelectableSchemes`, `getRootColumnScheme` and `clearColumnScheme` are left out. They manage the index objects themselves, which are abstracted to their contents. The constructor that sets only a name leaves the fields unset and has nothing to state.
- Index internals (`InsertSearch`, `BlindSearch`) and the engine's cell `compareTo` are not part of this model. `Cells.CompareCells` stands in for the cell order, with NULL equal to NULL and greater than any value.
- Row enumeration of every table is modelled as the rows 0 to count-1 in order.
- `CompositeTable.removeDuplicates` is the unfinished stub in the source; `UNION` without `ALL` is modelled as the error `Pending`. The source's comment says `all == true` removes duplicates, but the code calls it when `all` is false. The model follows the code.
- DataTable.UpdateColumnSchemes: on an empty field slot the Java loop has already updated the indexes of the earlier columns when it dereferences the slot and throws. The model's error returns no table, so it does not describe those partial updates.
- Outer.MergeIn: on a size mismatch the Java method has already set the outer row count and some of the slots when it throws. The model's error leaves the table unchanged.
- `TableExpressionFromSet` builders (`addTable`, `addFunctionRef`, `exposeVariable`, the `exposeAllColumns` family, `setParent`, `getParent`, `setCaseInsensitive`, `setCount`, `getTable`) are represented by building a `Scope` value directly. `expressionQualifier` only wraps `qualifyVariable` in a callback and is not modelled separately.
- Scope.StringCompareIsEquivalence: case folding is ASCII only, where `String.equalsIgnoreCase` also folds other alphabets.
- `FromTableInterface` implementations are not part of this model. A `FROM` table is given as two functions: the columns it reports for a reference, and `matchesReference`.
- `SQLQuery.toString`, `getQuery` and `getVars` are left out as plain accessors. `translateObjectType` is a foreign call (`ObjectTranslator`): parameter values are opaque identities (`Obj`).
- The parameter comparison in `SQLQuery.equals` is by reference (`!=`), modelled as equality of those identities.
- `ObjectTransfer`, which encodes and decodes parameter values on the stream, is not part of this model. `JdbcQuery.ReadFrom` takes the objects decoding creates as a parameter; what the model does not state is that decoding gives back equal values, only that they are new objects.
- JdbcQuery.Trim: `String.trim` is modelled on the code points of a `string`, not on UTF-16 units.
- The `Number` branch of `compareRowsByColumn` (TableSorter.java 103-115) compares `double` values and is not modelled. Such columns are not representable in the model.
- In `compareRowsByColumn`, strings compare by code point rather than by UTF-16 unit; the two differ only outside the basic multilingual plane.
- Sorter.GetValueAt: the Java array access throws for a row outside the view. The model reads `None` there.
- Sorter.SortByColumn requires the column to exist, because the Java comparator would read past the end of the model's columns.
- ShuttleSort.Shuttlesort: the midpoint `(low + high) / 2` is computed on unbounded integers. The Java `int` sum overflows only for arrays of more than 2^30 elements.
- `TableSorter`: `setModel`, `tableChanged`, `checkModel`, `setValueAt`, the mouse listener and the `compares` counter are Swing plumbing and are left out. `n2sort` is an unused alternative sort and is not modelled.
- The sorter's model is a value read through `ValueAt`. Swing's `TableModel` is not part of this model.
- Aggregate.Evaluate: how a group's values are worked out (a variable or an expression, through `GroupResolver`) is abstracted to the list of values. The `step` and `post` functions see neither the group nor the `QueryContext` that `evalAggregate` and `postEvalAggregate` receive, so a post step that uses the group size (as `avg` does) is not expressible.
- Composite.GetSelectableSchemeFor, Outer.GetSelectableSchemeFor: require the column to have a scheme slot. The Java indexes `column_scheme[column]` without a check and throws for any other column.
- `DropTable`: dropping grants and constraints are foreign calls into the grant manager and the transaction, and are not modelled. The statement's result table, which always holds 0, is not modelled either. `isExclusive`, `readsFromTables` and `writesToTables` carry no logic.

## Findings

| source | as written | input that shows it | evidently intended | confidence | as-written member | corrected member |
|---|---|---|---|---|---|---|
| com/mckoi/database/jdbc/SQLQuery.java:116-124 | `setVar(i)` grows the list only when `i` is past its end, so setting the last slot leaves the next position equal to the length | `new SQLQuery("")`, then `setVar(7, x)`, then `addVar(y)`: `addVar` writes `parameters[8]` of an 8-slot array | `setVar` leaves room for the next `addVar`, as `addVar` itself does | not executed | JdbcQuery.SetLastSlotThenAddFails | JdbcQuery.SetVarFixed |
| com/mckoi/database/jdbc/SQLQuery.java:230-248 | the backslash flag `ignore_next` is set inside a quote or escape but never cleared, so the quote or escape never ends | the query `SELECT 'a\'b', {fn now()}`: the quote never closes and `{fn now()}` is passed through unreplaced | a backslash protects only the one character after it | not executed | JdbcQuery.EscapeAfterQuotedBackslashKept | JdbcQuery.BackslashSkipsOneFixed |
