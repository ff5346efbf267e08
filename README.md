# dopedb engine, modelled in Dafny

This project models the core of dopedb, `dopedb/engine.py`, which is a small embedded table store.

- A `Table` keeps its rows in memory.
- Each PRIMARY KEY or UNIQUE column has a uniqueness index, which maps a value to the position of its row.
- Each table has its own row file.
- A `Database` keeps its tables by name, plus a metadata file with every table's column definitions.
- `Database.execute` takes one SQL-like statement: CREATE TABLE, INSERT, SELECT (with an optional JOIN … ON and an optional WHERE), UPDATE or DELETE. It recognises the statement, parses its parts and runs it against a table.

## How the model is organised

The model follows the code's own split between what changes state step by step and what only computes a value.

- `values.dfy` (`Values`) holds the data:
  - a value is `IntV`, `TextV` or `Null`;
  - a row is a `map<string, Value>`;
  - the column definitions, and other insertion-ordered Python dicts, are `Dict`s (sequences of key/value pairs);
  - the exceptions the engine raises are a structured `Error` inside a `Result`.
- `text.dfy` (`Text`) covers Python's `strip`, `split`, `in`, `str(int)` and `int(str)`, and the quote stripping of literals.
- `csv.dfy` (`Csv`) is the `csv.reader` that splits INSERT values, with `'` as the quote character.
- `rows.dfy` (`Rows`) has the `where` predicate, the order-keeping filter and `Table.select`.
- `indexes.dfy` (`Indexes`) has `_rebuild_indexes` and the properties indexes have: uniqueness and coverage.
- `changes.dfy` (`Changes`) says, as functions of the table before the call, what `insert`, `delete` and `update` do. Each gives a result, the table afterwards, and whether the table saved.
- `storage.dfy` (`Storage`) has the `Store` class (the storage directory: row files and metadata) and the imperative `Table` class. Its methods work on `rows` and `indexes` in place, loop by loop. Each is proved against the functions of `Changes` and `Rows`.
- `parser.dfy` (`Parser`) is a hand-written recogniser for the five statement regexes. It gives the same capture groups, and it is proved to read back statements written in the usual form.
- `statements.dfy` (`Statements`) turns the captured groups into what the tables are given:
  - column definitions;
  - the INSERT row;
  - the SET dict and the WHERE dict;
  - the select columns;
  - the nested-loop join.
- `engine.dfy` (`Engine`) has two parts.
  - `Run` says what `execute` does to the whole database, which is the tables in memory, the row files and the metadata.
  - The `Database` class runs it step by step over `Table` objects. It is proved equal to `Run` for every statement (`Engine.Database.Execute`).

### Behaviour of the code that the model keeps

These are behaviours of the code, not cleaned-up versions of them.

- `insert` puts `None` into an index, but `_rebuild_indexes` leaves it out. A second row with no value in a UNIQUE column is therefore rejected until the next rebuild.
- `update` checks new values against the index as it stood when the call began. Two matching rows can both get the same UNIQUE value, and a clash part-way leaves earlier changes in memory, unsaved.
- A JOIN ignores the column list and the table names in its ON clause. Its WHERE literal is typed by the first table's columns.
- CREATE TABLE on a name already in use makes a new table that reads the existing row file.

### Where the repository's description and the code differ

In both cases the model follows the code.

- Quotes on literals:
  - The description speaks of stripping one matching layer of quotes.
  - The code, `.strip("'").strip('"')` at lines 215, 263 and 291, strips every leading and trailing `'` and then every `"`.
- Commas inside INSERT values:
  - The description says a comma inside double quotes is protected too.
  - The reader at line 182 uses `'` as its only quote character.

## Model

| member | source | states |
|---|---|---|
| Values.FindSpec | dopedb/engine.py:192 | looking a key up in a column dict finds something exactly when the key is one of the dict's keys, and what it finds is the value paired with that key: in a dict, whose keys are distinct, the value of the one pair naming it |
| Values.PutFind | dopedb/engine.py:168 | after `d[k] = v`, `k` holds `v` and every other key holds what it held |
| Values.PutKeys | dopedb/engine.py:168 | `d[k] = v` appends a new key at the end and leaves an existing key in its place |
| Values.IndexedNames | dopedb/engine.py:13-15 | the indexed columns are exactly the declared columns marked PRIMARY KEY or UNIQUE |
| Values.IndexedAreColumns | dopedb/engine.py:13-15 | every indexed column is a declared column |
| Values.LastPrimaryKeySpec | dopedb/engine.py:16-17 | `primary_key` is None exactly when no column is PRIMARY KEY, and is otherwise the last such column |
| Text.TrimStartSpec | dopedb/engine.py:150 | lstrip removes exactly the longest prefix of dropped characters |
| Text.TrimEndSpec | dopedb/engine.py:150 | rstrip removes exactly the longest suffix of dropped characters |
| Text.StripSpec | dopedb/engine.py:150 | strip leaves the slice between the leading and the trailing white space, and that slice neither starts nor ends with a space |
| Text.UnquoteQuoted | dopedb/engine.py:215 | a literal between matching quotes loses exactly those quotes |
| Text.JoinSplit | dopedb/engine.py:157 | joining the parts of a split on the separator gives back the text |
| Text.SplitJoin | dopedb/engine.py:157 | splitting separator-free parts joined by the separator gives back the parts |
| Text.WordsOfBlanks | dopedb/engine.py:160 | `split()` of white space alone gives no words |
| Text.WordsOfWord | dopedb/engine.py:160 | `split()` of a non-empty text without white space gives that text as its one word |
| Text.WordsSplit | dopedb/engine.py:160 | a white-space character splits the text: the words of `a`, a blank, `b` are the words of `a` followed by the words of `b`; with the two rows above this fixes `split()` on every text |
| Text.ContainsSpec | dopedb/engine.py:164-166 | `sub in s` holds exactly when `sub` occurs at some position of `s` |
| Text.DigitsRoundTrip | dopedb/engine.py:193 | the decimal digits of a number read back as that number |
| Text.ParseShow | dopedb/engine.py:193 | `int(str(n)) == n` for every integer, negative ones included |
| Csv.ReadWritten | dopedb/engine.py:181-184 | reading a value list written with `, ` between literals gives back each literal's text; a quoted literal keeps its commas |
| Csv.ScanSeparator | dopedb/engine.py:182 | after one literal, the reader records its text once and starts the next field after `, ` |
| Csv.ScanPlain | dopedb/engine.py:182 | characters other than commas (outside quotes) and quotes only extend the current field |
| Rows.KeepSpec | dopedb/engine.py:82-97 | the filter keeps exactly the elements that satisfy the test, each once, in their original order |
| Rows.KeepMembers | dopedb/engine.py:82-97 | an element is kept exactly when it occurs and passes the test |
| Rows.FilterRejectCount | dopedb/engine.py:92-95 | the matching rows and the surviving rows together number all the rows |
| Rows.RejectNothing | dopedb/engine.py:79-100 | a predicate that matches no row removes nothing and keeps the order |
| Rows.NoPredicateMatchesAll | dopedb/engine.py:64 | with no predicate every row matches |
| Rows.SelectExact | dopedb/engine.py:61-77 | select returns, in table order, one shaped row per matching row and nothing else; a named column is present with the row's value or None |
| Rows.SelectAllRows | dopedb/engine.py:73-74 | `select('*')` with no predicate returns all rows in order |
| Rows.SingleEquality | dopedb/engine.py:66-69 | a one-pair predicate selects a row exactly when its field equals the literal |
| Indexes.RebuildIndexSpec | dopedb/engine.py:32-38 | after a rebuild an index holds exactly the non-None values of its column, each mapped to the last row holding it |
| Indexes.RebuildCovers | dopedb/engine.py:32-38 | a rebuilt index covers every non-None value of its rows |
| Indexes.RebuildIndexOfUnique | dopedb/engine.py:32-38 | on a unique column a rebuilt index maps each value to the one row holding it |
| Changes.FirstDuplicate | dopedb/engine.py:43-49 | the first declared column, in order, whose value is already a key of its index, or none when there is no such column |
| Changes.InsertRejected | dopedb/engine.py:43-49 | insert raises exactly when some indexed value is already in its index; it names that column and value, and changes and saves nothing |
| Changes.InsertAppends | dopedb/engine.py:42-59 | a successful insert returns 1, saves, keeps the earlier rows and appends one row with exactly the declared columns, absent ones None |
| Changes.InsertIndexesNewRow | dopedb/engine.py:53-56 | after an insert each index maps the new value to the new last position and keeps every other entry |
| Changes.InsertIndexMatchesRebuild | dopedb/engine.py:32-56 | the incremental index equals a rebuild exactly when the new row has no None in an indexed column |
| Changes.InsertKeepsUnique | dopedb/engine.py:40-59 | insert keeps indexed columns free of repeated values and keeps the indexes covering the rows |
| Changes.InsertNullQuirk | dopedb/engine.py:56 | a row with no value for a UNIQUE column puts None in its index, so a second such row is rejected |
| Changes.DeleteRemovesMatches | dopedb/engine.py:79-100 | delete keeps exactly the non-matching rows in order, returns how many it removed, saves, and keeps uniqueness and coverage |
| Changes.DeleteAll | dopedb/engine.py:84-90 | delete with no predicate removes every row and returns the old row count |
| Changes.AssignKeeps | dopedb/engine.py:112-117 | columns the assignments do not name keep their values |
| Changes.AssignSets | dopedb/engine.py:112-117 | every assigned column gets its new value |
| Changes.UpdateRowSpec | dopedb/engine.py:112-117 | a row is updated in full exactly when no assignment clashes with the starting index; otherwise it stops at the first clash |
| Changes.UpdateRowsCompletes | dopedb/engine.py:104-118 | with no clash, update keeps the row count and order, touches only matching rows, and counts them |
| Changes.UpdateRowsStops | dopedb/engine.py:112-117 | at the first clash update raises; the rows before it and the columns assigned before it stay changed, later rows stay as they were |
| Changes.UpdateZero | dopedb/engine.py:120-123 | update returns 0 exactly when no row matches, and then changes and saves nothing |
| Changes.NoMatchNoChange | dopedb/engine.py:120-123 | a predicate matching no row leaves the table unchanged and unsaved |
| Changes.UpdateOneRowKeepsUnique | dopedb/engine.py:102-123 | an update that matches at most one row keeps indexed columns unique and covered |
| Changes.UpdateBreaksUniqueness | dopedb/engine.py:112-117 | two matching rows can both receive the same UNIQUE value |
| Changes.UpdateAbortKeepsPartialChanges | dopedb/engine.py:112-122 | a clash in the second row leaves the first row's and earlier columns' changes in memory, indexes as before, nothing saved |
| Storage.MatchRow | dopedb/engine.py:64-69 | the `where` loop answers whether every pair equals the row's field |
| Storage.Table.constructor | dopedb/engine.py:5-19 | a new table indexes its PRIMARY KEY and UNIQUE columns, takes the last PRIMARY KEY, and holds its file's rows with rebuilt indexes |
| Storage.Table.Load | dopedb/engine.py:21-25 | `_load` takes the file's rows when the file exists and rebuilds the indexes |
| Storage.Table.Save | dopedb/engine.py:27-30 | `_save` writes the rows to the table's own row file and leaves the metadata as it was; the model keeps these two files apart even for a table named `metadata` (see Findings) |
| Storage.SaveOverwritesMetadata | dopedb/engine.py:8 | as written, the row file of a table named `metadata` is the metadata file, and saving that table's rows replaces the metadata |
| Storage.Table.RebuildIndexes | dopedb/engine.py:32-38 | the indexes become the rebuild of the unchanged rows |
| Storage.Table.IndexOf | dopedb/engine.py:35-38 | the inner loop builds the rebuilt index of one column |
| Storage.Table.BuildRow | dopedb/engine.py:42-51 | the column loop finds the first duplicate, or builds the new row |
| Storage.Table.IndexNewRow | dopedb/engine.py:54-56 | each index maps the new row's value to its position |
| Storage.Table.Insert | dopedb/engine.py:40-59 | insert's result, rows, indexes and row file are those the insert function gives |
| Storage.Table.Select | dopedb/engine.py:61-77 | select returns the selected rows and changes nothing |
| Storage.Table.Delete | dopedb/engine.py:79-100 | delete's count, rows, indexes and row file are those the delete function gives |
| Storage.Table.ScanRows | dopedb/engine.py:104-118 | the row loop updates rows in place and stops at the first clash, as the update function says |
| Storage.Table.ApplyAssignments | dopedb/engine.py:112-117 | the assignment loop changes one row, or stops at a clash |
| Storage.Table.Update | dopedb/engine.py:102-123 | update's result, rows, indexes and row file are those the update function gives |
| Parser.LastClose | dopedb/engine.py:154 | the greedy `(.*)\)` ends at the last `)` of the line |
| Parser.CreateRoundTrip | dopedb/engine.py:154 | `CREATE TABLE name (body)` is recognised with name and body as its groups |
| Parser.InsertRoundTrip | dopedb/engine.py:175 | `INSERT INTO name (cols) VALUES (vals)` is recognised with its three groups |
| Parser.EmptyColumnGroup | dopedb/engine.py:201 | `SELECT  FROM t`, with two blanks, is recognised with an empty column group, because the regex gives one blank back to ` FROM` |
| Parser.SelectRoundTrip | dopedb/engine.py:201 | a SELECT with optional JOIN and WHERE is recognised with its columns, table, join and condition |
| Parser.UpdateRoundTrip | dopedb/engine.py:251 | `UPDATE name SET assignments [WHERE cond]` is recognised with its groups |
| Parser.DeleteRoundTrip | dopedb/engine.py:280 | `DELETE FROM name [WHERE cond]` is recognised with its groups |
| Parser.WhereRoundTrip | dopedb/engine.py:201 | an appended ` WHERE cond` is read back as the condition |
| Statements.CollectOk | dopedb/engine.py:159-168 | a parse loop succeeds exactly when every piece parses |
| Statements.CollectStops | dopedb/engine.py:261-266 | the loop raises the error of the first piece that does not parse |
| Statements.CollectKeys | dopedb/engine.py:168 | the dict a loop builds has distinct keys, exactly the names of the pieces |
| Statements.CollectLast | dopedb/engine.py:168 | a key holds the value of the last piece that names it |
| Statements.CollectLoop | dopedb/engine.py:159-168 | the imperative loop builds the dict the parse function describes |
| Statements.ParseColumnTwo | dopedb/engine.py:160-167 | `name TYPE` parses to that name and type, PRIMARY KEY and UNIQUE read from the upper-cased text |
| Statements.UniqueInName | dopedb/engine.py:166 | a column whose name contains "unique" is marked UNIQUE |
| Statements.TrailingComma | dopedb/engine.py:157-162 | a column list ending in a comma raises |
| Statements.ColumnDefsShape | dopedb/engine.py:157-168 | the column dict has distinct names, exactly those of the pieces |
| Statements.ColumnDefsLast | dopedb/engine.py:168 | a repeated column name keeps its last definition |
| Statements.CoerceKinds | dopedb/engine.py:192-195 | a literal becomes an int only for an INT column, and fails only there, on text that is not an int |
| Statements.CoerceShow | dopedb/engine.py:193 | a printed number in an INT column reads back as that number |
| Statements.Zip | dopedb/engine.py:191 | `zip` pairs columns and values up to the shorter list |
| Statements.RowDataSpec | dopedb/engine.py:187-195 | the row dict exists exactly when every paired literal types, and its keys are the paired columns |
| Statements.RowDataValue | dopedb/engine.py:191-195 | a column's value is its last literal, typed by the column |
| Statements.RowDataStops | dopedb/engine.py:191-195 | the first literal that fails raises its error |
| Statements.AssignmentsShape | dopedb/engine.py:260-266 | the SET dict exists exactly when every assignment parses, and it has distinct keys |
| Statements.EquationCanonical | dopedb/engine.py:214-215 | `col = literal` splits into the column and the unquoted literal |
| Statements.WhereInt | dopedb/engine.py:217-218 | a WHERE on an INT column compares with the number |
| Statements.WhereNotInt | dopedb/engine.py:217-219 | a WHERE on any other or unknown column compares with the text |
| Statements.WhereQuoted | dopedb/engine.py:214-219 | a quoted WHERE literal loses its quotes before it is typed |
| Statements.WhereConditionErrors | dopedb/engine.py:214-218 | a WHERE raises exactly when it has no single `=` or its INT literal is not an int |
| Statements.SelectColumnsNames | dopedb/engine.py:247 | a column list other than `*` is read back as its stripped names |
| Statements.JoinExact | dopedb/engine.py:232-238 | the join is one merged row per pair of rows, one from each table, whose join values are equal (None equals None); each such pair gives one row, in the order of the nested loops, by the first table's row and then by the second's |
| Statements.JoinMissingColumns | dopedb/engine.py:232-238 | when neither join column exists, every pair matches (None equals None) |
| Statements.JoinLoop | dopedb/engine.py:232-238 | the nested loops build the join, ordered by the first table and then the second |
| Statements.JoinWhereMembers | dopedb/engine.py:241-243 | the WHERE keeps a merged row exactly when the column, qualified by either table or bare, equals the literal |
| Statements.MergeGet | dopedb/engine.py:236-237 | a merged row holds each table's values under `table.col` and nothing under a bare column |
| Statements.JoinKeepsMerged | dopedb/engine.py:243 | on a merged row the WHERE holds exactly when either source row has the value |
| Statements.JoinWhereNone | dopedb/engine.py:241-243 | a WHERE value that neither table holds keeps no merged row |
| Engine.LoadedWellFormed | dopedb/engine.py:136-141 | a loaded database has one index per indexed column in every table |
| Engine.ExecKeepsWellFormed | dopedb/engine.py:149-297 | every statement keeps one index per indexed column in every table |
| Engine.ExecAnswers | dopedb/engine.py:154-297 | a recognised statement never returns None |
| Engine.BlankAndUnknown | dopedb/engine.py:149-299 | `execute` returns None exactly for a blank statement (lines 150-151), and raises on text it does not recognise (line 299) |
| Engine.MissingTable | dopedb/engine.py:188-189 | a statement on an unknown table raises naming it and changes nothing (also lines 208, 223, 258 and 286) |
| Engine.InsertFailureChangesNothing | dopedb/engine.py:175-198 | an INSERT that raises changes nothing |
| Engine.UpdateFailureKeepsFiles | dopedb/engine.py:251-277 | an UPDATE that raises leaves the row files and the metadata as they were |
| Engine.FailureKeepsFiles | dopedb/engine.py:149-299 | a statement that raises writes no file, and only UPDATE changes memory |
| Engine.LoadedInSync | dopedb/engine.py:136-141 | right after loading, memory matches the files |
| Engine.SuccessKeepsSync | dopedb/engine.py:149-297 | a statement that succeeds leaves the tables in memory equal to the row files and the metadata, these being separate files (see Findings for a table named `metadata`) |
| Engine.AbortedUpdateDiverges | dopedb/engine.py:112-122 | an UPDATE that raises after changing rows leaves memory ahead of the row file |
| Engine.RecreateKeepsRows | dopedb/engine.py:170 | CREATE on an existing name makes a table that reads the stored rows again (lines 19-25), so the rows stay and the columns are replaced |
| Engine.JoinIgnoresColumns | dopedb/engine.py:221-245 | a JOIN's result does not depend on the column list |
| Engine.JoinIgnoresOnTables | dopedb/engine.py:226-227 | a JOIN's result does not depend on the table names in its ON clause |
| Engine.JoinWhereTypedByFirstTable | dopedb/engine.py:213-243 | a number in a JOIN's WHERE stays text when the first table's column is not INT, so it matches no INT value in either table |
| Engine.DeleteWithoutWhere | dopedb/engine.py:280-297 | DELETE with no WHERE empties the table and its file, reports the old row count, and leaves other tables alone |
| Engine.DeleteEverything | dopedb/engine.py:280-297 | `execute("DELETE FROM t")` empties the table and its file and reports the old row count |
| Engine.SelectWithoutWhere | dopedb/engine.py:246-248 | `SELECT *` with no WHERE returns all rows of the table |
| Engine.SelectEverything | dopedb/engine.py:201-248 | `execute("SELECT * FROM t")` returns all rows of the table and changes nothing |
| Engine.Database.constructor | dopedb/engine.py:130-141 | the database opens one table per metadata entry, each with its stored rows |
| Engine.Database.LoadMetadata | dopedb/engine.py:136-141 | the loop opens one table per metadata entry |
| Engine.Database.SaveMetadata | dopedb/engine.py:143-147 | the metadata becomes every table's columns, and the tables and the row files stay as they were, the metadata being a file of its own (see Findings) |
| Engine.Database.AddTable | dopedb/engine.py:170-171 | the new table replaces any of that name and the metadata is written |
| Engine.Database.Create | dopedb/engine.py:154-172 | CREATE TABLE does what the CREATE function gives |
| Engine.Database.InsertRow | dopedb/engine.py:197 | the table insert changes only that table and its file |
| Engine.Database.Insert | dopedb/engine.py:175-198 | INSERT does what the INSERT function gives |
| Engine.Database.SelectFrom | dopedb/engine.py:201-248 | SELECT returns what the SELECT function gives and changes nothing |
| Engine.Database.UpdateRows | dopedb/engine.py:276 | the table update changes only that table and its file |
| Engine.Database.Update | dopedb/engine.py:251-277 | UPDATE does what the UPDATE function gives |
| Engine.Database.DeleteRows | dopedb/engine.py:296 | the table delete changes only that table and its file |
| Engine.Database.Delete | dopedb/engine.py:280-297 | DELETE does what the DELETE function gives |
| Engine.Database.Dispatch | dopedb/engine.py:154-297 | a recognised statement runs as the statement functions give, and the database stays well formed |
| Engine.Database.Execute | dopedb/engine.py:149-299 | `execute` returns and changes what `Run` gives, for every input text |

## Left out

- File and JSON I/O, `os.makedirs` and atomicity: row files and the metadata file are maps in a `Store` object, and a missing key is a missing file.
- A table named `metadata`: its row file `metadata.json` (line 8) is also the metadata file (line 133). The `Store` keeps row files and metadata in two separate maps, so the model does not show what the code then does. For example, `_load` reads the metadata dict as rows, the next SELECT fails on it, and a saved row list makes the next `Database()` fail on `meta.items()`. `Storage.SaveOverwritesMetadata` exhibits the clash (see Findings).
- Save: the contract that saving touches only the table's row file and not the metadata holds for the separate files of the model; in the code it fails for a table named `metadata`.
- SaveMetadata: the contract that the row files stay as they were holds for the separate files of the model; in the code, writing the metadata overwrites the row file of a table named `metadata`.
- SuccessKeepsSync: memory and files stay in sync in the model for every table name; in the code they diverge once a table is named `metadata`.
- Unicode: `\s`, `\w`, `isspace`, `upper()` and `re.IGNORECASE` are modelled on ASCII and common white space, with no case folding beyond ASCII letters.
- Regular-expression backtracking: the recogniser takes each white-space run whole, except in one place. When SELECT's column group fits nowhere after the run that follows SELECT, it gives one blank back, as `re` does, which leaves an empty group before ` FROM` (`Parser.EmptyColumnGroup`). This follows the five regexes for statements on one line; for statements spread over several lines, the groups may differ from Python's `re`.
- Python `int()`: only decimal digits with an optional sign and surrounding spaces are accepted. Underscores and non-ASCII digits are not.
- `csv.reader`: `Csv.Fields` follows the reader's states for commas, `'` quoting, blanks skipped at the start of a field, a doubled quote inside quotes, and text after a closing quote. It leaves out the reader's line-end handling. A carriage return outside quotes that is followed by more text makes `csv.reader` raise "new-line character seen in unquoted field". The model keeps it in the field instead, so `INSERT ... VALUES (x\ry)` raises in the code but inserts the value `x\ry` in the model. A newline cannot reach the reader, because the captured group ends at the end of its line.
- Key order of row dicts: rows are maps, so the order of keys in a returned row is not modelled.
- Exception messages: errors are values of an `Error` datatype carrying the names and values the messages show, not the message strings.
- Database.constructor: requires metadata whose column lists have distinct names, because a JSON object with repeated keys is not modelled.
- `primary_key` is computed and kept but is never read by the engine, so nothing is proved about its use.
- The round-trip lemmas of the recogniser are proved for statements written in the usual form, with single spaces and no keyword inside a name or a value. They do not cover every text `re.match` accepts.
- app.py, repl.py and test_db.py: the web front end, the console and the smoke test only build statement strings for `execute` and print its results.

## Findings

| source | as written | input that shows it | evidently intended | confidence | as-written member | corrected member |
|---|---|---|---|---|---|---|
| dopedb/engine.py:8 | a table's row file is `{storage_dir}/{name}.json`, and the metadata file is `{storage_dir}/metadata.json` (line 133) | `CREATE TABLE metadata (id INT)` followed by `INSERT INTO metadata (id) VALUES (1)`: the row list replaces the metadata, and the next `Database()` fails on `meta.items()` | a table's rows and the metadata are kept in different files | not executed | Storage.SaveOverwritesMetadata | Storage.Table.Save |
