/** `Database` (engine.py lines 129-299): the tables by name, the metadata file, and `execute`,
    which recognises one statement and runs it against a table. The functions below state what
    `execute` does to the whole database; the class at the end does it step by step over `Table`
    objects and is proved to agree with them. */
module Engine {
  import opened Values
  import opened Text
  import opened Rows
  import opened Indexes
  import opened Changes
  import opened Parser
  import opened Statements
  import opened Storage

  /** What `execute` returns: None for a blank statement, a message, or a list of row dicts. */
  datatype Output = Nothing | Message(text: string) | Listing(rows: seq<Row>)

  /** A table as the database holds it: its column definitions and its rows and indexes. */
  datatype TableValue = TableValue(columns: Schema, state: TableState)

  /** The tables in memory, the rows file of each table that has one, and the metadata file. */
  datatype DbState = DbState(tables: map<string, TableValue>, files: map<string, seq<Row>>, schemas: map<string, Schema>)

  /** The result of one statement (a raised error is an `Err`) and the database after it. */
  datatype Reply = Reply(result: Result<Output>, db: DbState)

  // ---------------------------------------------------------------- tables and metadata

  /** The rows `Table._load` reads: the table's file, or none. */
  function StoredRows(files: map<string, seq<Row>>, name: string): seq<Row>
  {
    if name in files then files[name] else []
  }

  /** The indexed columns of a table, as a set. */
  function IndexedSet(columns: Schema): set<string>
  {
    set c | c in IndexedNames(columns)
  }

  /** `Table(name, columns)` (lines 5-19): the stored rows and indexes rebuilt from them. */
  function Opened(name: string, columns: Schema, files: map<string, seq<Row>>): TableValue
  {
    var rows := StoredRows(files, name);
    TableValue(columns, TableState(rows, RebuildAll(rows, IndexedSet(columns))))
  }

  /** `{name: t.columns for name, t in self.tables.items()}` (line 145). */
  function Schemas(tables: map<string, TableValue>): map<string, Schema>
  {
    map n | n in tables :: tables[n].columns
  }

  /** `Database.__init__` and `_load_metadata` (lines 130-141): a table per metadata entry. */
  function Loaded(files: map<string, seq<Row>>, schemas: map<string, Schema>): DbState
  {
    DbState(map n | n in schemas :: Opened(n, schemas[n], files), files, schemas)
  }

  /** The database after a table method: the table's new state, and its file when it saved. */
  function Apply(db: DbState, name: string, t: TableValue, o: Outcome): DbState
  {
    DbState(db.tables[name := TableValue(t.columns, o.after)],
            Written(db.files, name, o),
            db.schemas)
  }

  /** `f"{count} row(s) {verb}."`, or the error the table method raised. */
  function Counted(r: Result<nat>, verb: string): Result<Output>
  {
    match r
    case Ok(n) => Ok(Message(Show(n) + " row(s) " + verb + "."))
    case Err(e) => Err(e)
  }

  // ---------------------------------------------------------------- the five statements

  /** CREATE TABLE (lines 154-172): the new table replaces any table of that name and reads the
      rows file of that name if there is one; the metadata is written for all tables. */
  function RunCreate(db: DbState, name: string, body: string): Reply
  {
    match ColumnDefs(body)
    case Err(e) => Reply(Err(e), db)
    case Ok(columns) =>
      var tables := db.tables[name := Opened(name, columns, db.files)];
      Reply(Ok(Message("Table " + name + " created.")), DbState(tables, db.files, Schemas(tables)))
  }

  /** INSERT (lines 175-198): the column and value lists are read before the table is looked up. */
  function RunInsert(db: DbState, name: string, colsText: string, valsText: string): Reply
  {
    var cols := InsertColumns(colsText);
    var vals := InsertValues(valsText);
    if name !in db.tables then Reply(Err(TableNotFound(name)), db)
    else
      var t := db.tables[name];
      match RowData(t.columns, cols, vals)
      case Err(e) => Reply(Err(e), db)
      case Ok(data) =>
        var o := InsertSpec(Keys(t.columns), t.state, data);
        Reply(Counted(o.result, "inserted"), Apply(db, name, t, o))
  }

  /** SELECT (lines 201-248): the WHERE is read with the first table's columns, before the second
      table is looked up; a JOIN returns whole merged rows, whatever the column list says. */
  function RunSelect(db: DbState, cols: string, t1: string, join: Option<JoinClause>, where: Option<string>): Reply
  {
    if t1 !in db.tables then Reply(Err(TableNotFound(t1)), db)
    else
      var tab1 := db.tables[t1];
      match WhereClause(tab1.columns, where)
      case Err(e) => Reply(Err(e), db)
      case Ok(w) =>
        if join.None? then
          Reply(Ok(Listing(SelectRows(tab1.state.rows, SelectColumns(cols), AsWhere(w)))), db)
        else
          var j := join.value;
          if j.table !in db.tables then Reply(Err(TableNotFound(j.table)), db)
          else
            var rows1 := SelectRows(tab1.state.rows, Star, map[]);
            var rows2 := SelectRows(db.tables[j.table].state.rows, Star, map[]);
            var joined := JoinRows(t1, rows1, j.table, rows2, j.leftCol, j.rightCol);
            Reply(Ok(Listing(JoinWhere(t1, j.table, w, joined))), db)
  }

  /** `group(3).strip() if group(3) else None` (line 255). */
  function StripWhere(where: Option<string>): Option<string>
  {
    if where.Some? && where.value != [] then Some(Strip(where.value)) else None
  }

  /** UPDATE (lines 251-277): the table, then the SET list, then the WHERE. */
  function RunUpdate(db: DbState, name: string, setText: string, where: Option<string>): Reply
  {
    if name !in db.tables then Reply(Err(TableNotFound(name)), db)
    else
      var t := db.tables[name];
      match Assignments(t.columns, Strip(setText))
      case Err(e) => Reply(Err(e), db)
      case Ok(ups) =>
        match WhereClause(t.columns, StripWhere(where))
        case Err(e) => Reply(Err(e), db)
        case Ok(w) =>
          var o := UpdateSpec(t.state, ups, AsWhere(w));
          Reply(Counted(o.result, "updated"), Apply(db, name, t, o))
  }

  /** DELETE (lines 280-297). */
  function RunDelete(db: DbState, name: string, where: Option<string>): Reply
  {
    if name !in db.tables then Reply(Err(TableNotFound(name)), db)
    else
      var t := db.tables[name];
      match WhereClause(t.columns, where)
      case Err(e) => Reply(Err(e), db)
      case Ok(w) =>
        var o := DeleteSpec(t.state, AsWhere(w));
        Reply(Counted(o.result, "deleted"), Apply(db, name, t, o))
  }

  function Exec(db: DbState, st: Statement): Reply
  {
    match st
    case CreateTable(name, body) => RunCreate(db, name, body)
    case InsertInto(name, cols, vals) => RunInsert(db, name, cols, vals)
    case Select(cols, table, join, where) => RunSelect(db, cols, table, join, where)
    case Update(name, assignments, where) => RunUpdate(db, name, assignments, where)
    case Delete(name, where) => RunDelete(db, name, where)
  }

  /** `Database.execute` (lines 149-299). */
  function Run(db: DbState, sql: string): Reply
  {
    var s := Strip(sql);
    if s == [] then Reply(Ok(Nothing), db)
    else
      match Recognize(s)
      case None => Reply(Err(InvalidSyntax), db)
      case Some(st) => Exec(db, st)
  }

  // ---------------------------------------------------------------- properties of execute

  /** Every table's indexes are those of its PRIMARY KEY and UNIQUE columns. */
  predicate WellFormed(db: DbState)
  {
    forall n :: n in db.tables ==> db.tables[n].state.indexes.Keys == IndexedSet(db.tables[n].columns)
  }

  /** A loaded database is well formed. */
  lemma LoadedWellFormed(files: map<string, seq<Row>>, schemas: map<string, Schema>)
    ensures WellFormed(Loaded(files, schemas))
  {
  }

  /** A table method that keeps the set of indexed columns keeps the database well formed. */
  lemma ApplyKeepsWellFormed(db: DbState, name: string, o: Outcome)
    requires WellFormed(db) && name in db.tables
    requires o.after.indexes.Keys == db.tables[name].state.indexes.Keys
    ensures WellFormed(Apply(db, name, db.tables[name], o))
  {
  }

  lemma CreateKeepsWellFormed(db: DbState, name: string, body: string)
    requires WellFormed(db)
    ensures WellFormed(RunCreate(db, name, body).db)
  {
  }

  lemma InsertKeepsWellFormed(db: DbState, name: string, cols: string, vals: string)
    requires WellFormed(db)
    ensures WellFormed(RunInsert(db, name, cols, vals).db)
  {
    if name in db.tables {
      var t := db.tables[name];
      var data := RowData(t.columns, InsertColumns(cols), InsertValues(vals));
      if data.Ok? {
        IndexKeysKept(t.state, Keys(t.columns), data.value, [], map[]);
        ApplyKeepsWellFormed(db, name, InsertSpec(Keys(t.columns), t.state, data.value));
      }
    }
  }

  lemma UpdateKeepsWellFormed(db: DbState, name: string, setText: string, where: Option<string>)
    requires WellFormed(db)
    ensures WellFormed(RunUpdate(db, name, setText, where).db)
  {
    if name in db.tables {
      var t := db.tables[name];
      var ups := Assignments(t.columns, Strip(setText));
      var w := WhereClause(t.columns, StripWhere(where));
      if ups.Ok? && w.Ok? {
        IndexKeysKept(t.state, [], map[], ups.value, AsWhere(w.value));
        ApplyKeepsWellFormed(db, name, UpdateSpec(t.state, ups.value, AsWhere(w.value)));
      }
    }
  }

  lemma DeleteKeepsWellFormed(db: DbState, name: string, where: Option<string>)
    requires WellFormed(db)
    ensures WellFormed(RunDelete(db, name, where).db)
  {
    if name in db.tables {
      var t := db.tables[name];
      var w := WhereClause(t.columns, where);
      if w.Ok? {
        IndexKeysKept(t.state, [], map[], [], AsWhere(w.value));
        ApplyKeepsWellFormed(db, name, DeleteSpec(t.state, AsWhere(w.value)));
      }
    }
  }

  /** Every statement keeps the database well formed: a table's indexes always cover exactly
      its indexed columns. */
  lemma ExecKeepsWellFormed(db: DbState, st: Statement)
    requires WellFormed(db)
    ensures WellFormed(Exec(db, st).db)
  {
    match st
    case CreateTable(name, body) =>
      assert Exec(db, st) == RunCreate(db, name, body);
      CreateKeepsWellFormed(db, name, body);
    case InsertInto(name, cols, vals) =>
      assert Exec(db, st) == RunInsert(db, name, cols, vals);
      InsertKeepsWellFormed(db, name, cols, vals);
    case Select(cols, table, join, where) =>
      assert Exec(db, st) == RunSelect(db, cols, table, join, where);
    case Update(name, assignments, where) =>
      assert Exec(db, st) == RunUpdate(db, name, assignments, where);
      UpdateKeepsWellFormed(db, name, assignments, where);
    case Delete(name, where) =>
      assert Exec(db, st) == RunDelete(db, name, where);
      DeleteKeepsWellFormed(db, name, where);
  }

  /** The table a statement other than CREATE TABLE works on (the first table of a SELECT). */
  function Target(st: Statement): string
  {
    match st
    case CreateTable(name, _) => name
    case InsertInto(name, _, _) => name
    case Select(_, table, _, _) => table
    case Update(name, _, _) => name
    case Delete(name, _) => name
  }

  /** Every statement answers with a message, rows or an error, never with None. */
  lemma ExecAnswers(db: DbState, st: Statement)
    ensures Exec(db, st).result != Ok(Nothing)
  {
    match st
    case CreateTable(name, body) =>
      assert Exec(db, st) == RunCreate(db, name, body);
    case InsertInto(name, cols, vals) =>
      assert Exec(db, st) == RunInsert(db, name, cols, vals);
    case Select(cols, table, join, where) =>
      assert Exec(db, st) == RunSelect(db, cols, table, join, where);
    case Update(name, assignments, where) =>
      assert Exec(db, st) == RunUpdate(db, name, assignments, where);
    case Delete(name, where) =>
      assert Exec(db, st) == RunDelete(db, name, where);
  }

  /** `execute` returns None exactly for a blank statement, and then changes nothing; text that is
      none of the five shapes raises and changes nothing. */
  lemma BlankAndUnknown(db: DbState, sql: string)
    ensures Run(db, sql).result == Ok(Nothing) <==> Strip(sql) == []
    ensures Strip(sql) == [] ==> Run(db, sql).db == db
    ensures Strip(sql) != [] && Recognize(Strip(sql)).None? ==> Run(db, sql) == Reply(Err(InvalidSyntax), db)
  {
    var s := Strip(sql);
    if s != [] && Recognize(s).Some? {
      ExecAnswers(db, Recognize(s).value);
    }
  }

  /** A statement on a table the database does not have raises "not found" and changes nothing. */
  lemma MissingTable(db: DbState, st: Statement)
    requires !st.CreateTable? && Target(st) !in db.tables
    ensures Exec(db, st) == Reply(Err(TableNotFound(Target(st))), db)
  {
    match st
    case InsertInto(name, cols, vals) =>
      assert Exec(db, st) == RunInsert(db, name, cols, vals);
    case Select(cols, table, join, where) =>
      assert Exec(db, st) == RunSelect(db, cols, table, join, where);
    case Update(name, assignments, where) =>
      assert Exec(db, st) == RunUpdate(db, name, assignments, where);
    case Delete(name, where) =>
      assert Exec(db, st) == RunDelete(db, name, where);
  }

  /** An INSERT that raises changes nothing. */
  lemma InsertFailureChangesNothing(db: DbState, name: string, cols: string, vals: string)
    requires RunInsert(db, name, cols, vals).result.Err?
    ensures RunInsert(db, name, cols, vals).db == db
  {
    if name in db.tables {
      var t := db.tables[name];
      var data := RowData(t.columns, InsertColumns(cols), InsertValues(vals));
      if data.Ok? {
        var o := InsertSpec(Keys(t.columns), t.state, data.value);
        InsertRejected(Keys(t.columns), t.state, data.value);
        assert o.result.Err?;
        assert db.tables[name := TableValue(t.columns, o.after)] == db.tables;
      }
    }
  }

  /** An UPDATE that raises writes no file. */
  lemma UpdateFailureKeepsFiles(db: DbState, name: string, setText: string, where: Option<string>)
    requires RunUpdate(db, name, setText, where).result.Err?
    ensures RunUpdate(db, name, setText, where).db.files == db.files
    ensures RunUpdate(db, name, setText, where).db.schemas == db.schemas
  {
    if name in db.tables {
      var t := db.tables[name];
      var ups := Assignments(t.columns, Strip(setText));
      if ups.Ok? {
        var w := WhereClause(t.columns, StripWhere(where));
        if w.Ok? {
          var o := UpdateSpec(t.state, ups.value, AsWhere(w.value));
          UpdateErrNotSaved(t.state, ups.value, AsWhere(w.value));
          var r := Reply(Counted(o.result, "updated"), Apply(db, name, t, o));
          assert RunUpdate(db, name, setText, where) == r;
          assert r.result.Err? ==> o.result.Err?;
        }
      }
    }
  }

  /** A statement that raises writes no file; only an UPDATE that raises leaves memory changed. */
  lemma FailureKeepsFiles(db: DbState, st: Statement)
    requires Exec(db, st).result.Err?
    ensures Exec(db, st).db.files == db.files && Exec(db, st).db.schemas == db.schemas
    ensures !st.Update? ==> Exec(db, st).db == db
  {
    match st
    case CreateTable(name, body) =>
      assert Exec(db, st) == RunCreate(db, name, body);
    case InsertInto(name, cols, vals) =>
      assert Exec(db, st) == RunInsert(db, name, cols, vals);
      InsertFailureChangesNothing(db, name, cols, vals);
    case Select(cols, table, join, where) =>
      assert Exec(db, st) == RunSelect(db, cols, table, join, where);
    case Update(name, assignments, where) =>
      assert Exec(db, st) == RunUpdate(db, name, assignments, where);
      UpdateFailureKeepsFiles(db, name, assignments, where);
    case Delete(name, where) =>
      assert Exec(db, st) == RunDelete(db, name, where);
  }

  /** Every table's rows are what its file holds (none when it has no file), and the metadata
      lists every table's columns: the database as `Database()` would load it again. */
  predicate InSync(db: DbState)
  {
    && db.schemas == Schemas(db.tables)
    && forall n :: n in db.tables ==> db.tables[n].state.rows == StoredRows(db.files, n)
  }

  /** Loading gives a database in sync with its files. */
  lemma LoadedInSync(files: map<string, seq<Row>>, schemas: map<string, Schema>)
    ensures InSync(Loaded(files, schemas))
  {
    var db := Loaded(files, schemas);
    assert Schemas(db.tables) == schemas;
  }

  /** A table method that saved, or left the rows as they were, keeps the database in sync. */
  lemma ApplyKeepsSync(db: DbState, name: string, o: Outcome)
    requires InSync(db) && name in db.tables
    requires o.saved || o.after.rows == db.tables[name].state.rows
    ensures InSync(Apply(db, name, db.tables[name], o))
  {
    var d := Apply(db, name, db.tables[name], o);
    assert Schemas(d.tables) == Schemas(db.tables);
  }

  lemma CreateKeepsSync(db: DbState, name: string, body: string)
    requires InSync(db) && RunCreate(db, name, body).result.Ok?
    ensures InSync(RunCreate(db, name, body).db)
  {
  }

  lemma InsertKeepsSync(db: DbState, name: string, cols: string, vals: string)
    requires InSync(db) && RunInsert(db, name, cols, vals).result.Ok?
    ensures InSync(RunInsert(db, name, cols, vals).db)
  {
    var t := db.tables[name];
    var data := RowData(t.columns, InsertColumns(cols), InsertValues(vals)).value;
    InsertAppends(Keys(t.columns), t.state, data);
    ApplyKeepsSync(db, name, InsertSpec(Keys(t.columns), t.state, data));
  }

  lemma UpdateKeepsSync(db: DbState, name: string, setText: string, where: Option<string>)
    requires InSync(db) && RunUpdate(db, name, setText, where).result.Ok?
    ensures InSync(RunUpdate(db, name, setText, where).db)
  {
    var t := db.tables[name];
    var ups := Assignments(t.columns, Strip(setText)).value;
    var w := WhereClause(t.columns, StripWhere(where)).value;
    UpdateZero(t.state, ups, AsWhere(w));
    ApplyKeepsSync(db, name, UpdateSpec(t.state, ups, AsWhere(w)));
  }

  lemma DeleteKeepsSync(db: DbState, name: string, where: Option<string>)
    requires InSync(db) && RunDelete(db, name, where).result.Ok?
    ensures InSync(RunDelete(db, name, where).db)
  {
    var t := db.tables[name];
    var w := WhereClause(t.columns, where).value;
    ApplyKeepsSync(db, name, DeleteSpec(t.state, AsWhere(w)));
  }

  /** A statement that goes through leaves memory and files in sync: every change is saved. */
  lemma SuccessKeepsSync(db: DbState, st: Statement)
    requires InSync(db) && Exec(db, st).result.Ok?
    ensures InSync(Exec(db, st).db)
  {
    match st
    case CreateTable(name, body) =>
      assert Exec(db, st) == RunCreate(db, name, body);
      CreateKeepsSync(db, name, body);
    case InsertInto(name, cols, vals) =>
      assert Exec(db, st) == RunInsert(db, name, cols, vals);
      InsertKeepsSync(db, name, cols, vals);
    case Select(cols, table, join, where) =>
      assert Exec(db, st) == RunSelect(db, cols, table, join, where);
    case Update(name, assignments, where) =>
      assert Exec(db, st) == RunUpdate(db, name, assignments, where);
      UpdateKeepsSync(db, name, assignments, where);
    case Delete(name, where) =>
      assert Exec(db, st) == RunDelete(db, name, where);
      DeleteKeepsSync(db, name, where);
  }

  /** An UPDATE that raises after changing rows leaves memory ahead of the file: the rows the
      table shows are not the rows a reload would read. */
  lemma AbortedUpdateDiverges(db: DbState, name: string, setText: string, where: Option<string>)
    requires InSync(db) && name in db.tables
    requires var r := RunUpdate(db, name, setText, where);
      r.result.Err? && name in r.db.tables && r.db.tables[name].state.rows != db.tables[name].state.rows
    ensures !InSync(RunUpdate(db, name, setText, where).db)
  {
    UpdateFailureKeepsFiles(db, name, setText, where);
  }

  /** CREATE TABLE on a name already in use replaces the table and reads its file again, so in
      a database in sync the rows stay and only the columns and indexes are new. */
  lemma RecreateKeepsRows(db: DbState, name: string, body: string)
    requires InSync(db) && name in db.tables && ColumnDefs(body).Ok?
    ensures var r := RunCreate(db, name, body);
      && r.result == Ok(Message("Table " + name + " created."))
      && r.db.tables[name].state.rows == db.tables[name].state.rows
      && r.db.tables[name].columns == ColumnDefs(body).value
      && InSync(r.db)
  {
    CreateKeepsSync(db, name, body);
  }

  /** A JOIN returns whole merged rows: the column list of the SELECT makes no difference. */
  lemma JoinIgnoresColumns(db: DbState, c1: string, c2: string, t1: string, j: JoinClause, w: Option<string>)
    ensures RunSelect(db, c1, t1, Some(j), w) == RunSelect(db, c2, t1, Some(j), w)
  {
  }

  /** The ON clause is read only for its column names: the tables it names make no difference,
      so `ON b.x = a.y` joins the first table's x with the second table's y. */
  lemma JoinIgnoresOnTables(db: DbState, c: string, t1: string, j: JoinClause, l: string, r: string, w: Option<string>)
    ensures RunSelect(db, c, t1, Some(j), w)
      == RunSelect(db, c, t1, Some(JoinClause(j.table, l, j.leftCol, r, j.rightCol)), w)
  {
  }
  /** A statement already stripped runs as the statement it is recognised as. */
  lemma RunRecognized(db: DbState, sql: string, st: Statement)
    requires sql != [] && Strip(sql) == sql && Recognize(sql) == Some(st)
    ensures Run(db, sql) == Exec(db, st)
  {
  }

  /** A word ends in a character that is not white space. */
  lemma EndsInWord(pre: string, t: string)
    requires IsWord(t)
    ensures var s := pre + t; s != [] && !IsSpace(s[|s| - 1])
  {
    var s := pre + t;
    assert s[|s| - 1] == t[|t| - 1];
    assert IsWordChar(t[|t| - 1]);
  }

  /** `DELETE FROM t` is recognised as a DELETE with no WHERE, and needs no stripping. */
  lemma DeleteAllText(t: string)
    requires IsWord(t)
    ensures Strip("DELETE FROM " + t) == "DELETE FROM " + t
    ensures Recognize("DELETE FROM " + t) == Some(Delete(t, None))
  {
    var sql := "DELETE FROM " + t;
    assert Strip(sql) == sql by {
      EndsInWord("DELETE FROM ", t);
      assert sql[0] == 'D';
      StripNoop(sql);
    }
    assert Recognize(sql) == Some(Delete(t, None)) by {
      DeleteRoundTrip(t, None);
      assert sql + WhereText(None) == sql;
    }
  }

  /** DELETE with no WHERE empties the table, saves the empty table, and reports how many rows
      it held; no other table changes. */
  lemma DeleteWithoutWhere(db: DbState, t: string)
    requires t in db.tables
    ensures var r := RunDelete(db, t, None);
      && r.result == Counted(Ok(|db.tables[t].state.rows|), "deleted")
      && t in r.db.tables && r.db.tables[t].state.rows == []
      && r.db.files == db.files[t := []]
      && (forall n :: n in db.tables && n != t ==> n in r.db.tables && r.db.tables[n] == db.tables[n])
  {
    var tab := db.tables[t];
    var o := DeleteSpec(tab.state, map[]);
    DeleteAll(tab.state);
    assert WhereClause(tab.columns, None) == Ok(None);
    assert AsWhere(None) == map[];
    assert RunDelete(db, t, None) == Reply(Counted(o.result, "deleted"), Apply(db, t, tab, o));
  }

  /** `DELETE FROM t` empties the table t, as `DeleteWithoutWhere` states. */
  lemma DeleteEverything(db: DbState, t: string)
    requires IsWord(t) && t in db.tables
    ensures var r := Run(db, "DELETE FROM " + t);
      && r.result == Counted(Ok(|db.tables[t].state.rows|), "deleted")
      && t in r.db.tables && r.db.tables[t].state.rows == []
      && r.db.files == db.files[t := []]
      && (forall n :: n in db.tables && n != t ==> n in r.db.tables && r.db.tables[n] == db.tables[n])
  {
    var sql := "DELETE FROM " + t;
    DeleteAllText(t);
    RunRecognized(db, sql, Delete(t, None));
    DeleteWithoutWhere(db, t);
  }

  /** `SELECT * FROM t` needs no stripping. */
  lemma SelectAllStripped(t: string)
    requires IsWord(t)
    ensures Strip("SELECT * FROM " + t) == "SELECT * FROM " + t
  {
    var sql := "SELECT * FROM " + t;
    EndsInWord("SELECT * FROM ", t);
    assert sql[0] == 'S';
    StripNoop(sql);
  }

  /** `SELECT * FROM t` is recognised as a SELECT of every column. */
  lemma SelectAllText(t: string)
    requires IsWord(t) && NoKeywordAfterSpace(" " + t, "FROM")
    ensures Recognize("SELECT * FROM " + t) == Some(Select("*", t, None, None))
  {
    var c, j, w := "*", None, None;
    var head := "SELECT " + c + " FROM ";
    assert head == "SELECT * FROM ";
    assert JoinText(j) + WhereText(w) == [];
    assert " " + t + JoinText(j) + WhereText(w) == " " + t;
    assert Condition(c);
    SelectRoundTrip(c, t, j, w);
    assert head + t + JoinText(j) + WhereText(w) == head + t;
  }

  /** A SELECT of `*` with no JOIN or WHERE returns the table's rows as they are. */
  lemma SelectWithoutWhere(db: DbState, t: string)
    requires t in db.tables
    ensures RunSelect(db, "*", t, None, None) == Reply(Ok(Listing(db.tables[t].state.rows)), db)
  {
    var tab := db.tables[t];
    assert WhereClause(tab.columns, None) == Ok(None);
    StripNoop("*");
    assert SelectColumns("*") == Star;
    SelectAllRows(tab.state.rows);
  }

  /** `SELECT * FROM t` returns the table's rows as they are and changes nothing. */
  lemma SelectEverything(db: DbState, t: string)
    requires IsWord(t) && t in db.tables && NoKeywordAfterSpace(" " + t, "FROM")
    ensures Run(db, "SELECT * FROM " + t) == Reply(Ok(Listing(db.tables[t].state.rows)), db)
  {
    SelectAllStripped(t);
    SelectAllText(t);
    RunRecognized(db, "SELECT * FROM " + t, Select("*", t, None, None));
    SelectWithoutWhere(db, t);
  }
  /** The WHERE of a JOIN is read with the first table's columns only (line 206): `WHERE c = n` on
      a column the first table does not declare INT compares with the text of n, so it finds
      nothing in tables that hold no such text, even where the second table's INT column c holds n. */
  lemma JoinWhereTypedByFirstTable(db: DbState, cols: string, t1: string, j: JoinClause, c: string, n: int)
    requires t1 in db.tables && j.table in db.tables
    requires '.' !in t1 && '.' !in j.table && t1 != j.table && IsWord(c)
    requires var f := Find(db.tables[t1].columns, c); f.None? || !IsIntColumn(f.value)
    requires forall r :: r in db.tables[t1].state.rows ==> Get(r, c) != TextV(Show(n))
    requires forall r :: r in db.tables[j.table].state.rows ==> Get(r, c) != TextV(Show(n))
    ensures RunSelect(db, cols, t1, Some(j), Some(c + " = " + Show(n))) == Reply(Ok(Listing([])), db)
  {
    var rows1 := db.tables[t1].state.rows;
    var rows2 := db.tables[j.table].state.rows;
    assert '=' !in c && '.' !in c && !IsSpace(c[0]) && !IsSpace(c[|c| - 1]) by {
      assert IsWordChar(c[0]) && IsWordChar(c[|c| - 1]);
      assert forall k :: 0 <= k < |c| ==> IsWordChar(c[k]);
    }
    WhereNotInt(db.tables[t1].columns, c, n);
    SelectAllRows(rows1);
    SelectAllRows(rows2);
    JoinWhereNone(t1, rows1, j.table, rows2, j.leftCol, j.rightCol, c, TextV(Show(n)));
  }

  /** What CREATE TABLE does when the column list parses. */
  lemma CreateOutcome(db: DbState, name: string, body: string)
    requires ColumnDefs(body).Ok?
    ensures var tables := db.tables[name := Opened(name, ColumnDefs(body).value, db.files)];
      RunCreate(db, name, body) == Reply(Ok(Message("Table " + name + " created.")), DbState(tables, db.files, Schemas(tables)))
  {
  }

  /** What INSERT does when the row parses. */
  lemma InsertOutcome(db: DbState, name: string, colsText: string, valsText: string)
    requires name in db.tables
    requires RowData(db.tables[name].columns, InsertColumns(colsText), InsertValues(valsText)).Ok?
    ensures var t := db.tables[name];
      var o := InsertSpec(Keys(t.columns), t.state, RowData(t.columns, InsertColumns(colsText), InsertValues(valsText)).value);
      RunInsert(db, name, colsText, valsText) == Reply(Counted(o.result, "inserted"), Apply(db, name, t, o))
  {
  }

  /** What UPDATE does when the SET list and the WHERE parse. */
  lemma UpdateOutcome(db: DbState, name: string, setText: string, where: Option<string>)
    requires name in db.tables
    requires Assignments(db.tables[name].columns, Strip(setText)).Ok?
    requires WhereClause(db.tables[name].columns, StripWhere(where)).Ok?
    ensures var t := db.tables[name];
      var ups := Assignments(t.columns, Strip(setText)).value;
      var w := WhereClause(t.columns, StripWhere(where)).value;
      var o := UpdateSpec(t.state, ups, AsWhere(w));
      RunUpdate(db, name, setText, where) == Reply(Counted(o.result, "updated"), Apply(db, name, t, o))
  {
  }

  /** What DELETE does when the WHERE parses. */
  lemma DeleteOutcome(db: DbState, name: string, where: Option<string>)
    requires name in db.tables
    requires WhereClause(db.tables[name].columns, where).Ok?
    ensures var t := db.tables[name];
      var o := DeleteSpec(t.state, AsWhere(WhereClause(t.columns, where).value));
      RunDelete(db, name, where) == Reply(Counted(o.result, "deleted"), Apply(db, name, t, o))
  {
  }

  // ---------------------------------------------------------------- the Database class

  /** `Database` (lines 129-299): a `Table` object per table name, all of them over the one
      storage directory. */
  class Database {
    const store: Store
    var tables: map<string, Table>

    /** Every table is a `Table` object registered under its own name (so no two names share
        an object), over this database's storage, with its indexed columns taken from its
        column definitions. */
    ghost predicate Valid()
      reads this
    {
      forall n :: n in tables ==>
        && tables[n].store == store && tables[n].name == n
        && DistinctKeys(tables[n].columns) && tables[n].indexed == IndexedNames(tables[n].columns)
    }

    /** The database these objects stand for. */
    ghost function Abs(): DbState
      reads this, store, tables.Values
    {
      DbState(TableValues(tables), store.rowFiles, store.schemas)
    }

    /** The column definitions and the rows and indexes of each table object. */
    static ghost function TableValues(ts: map<string, Table>): map<string, TableValue>
      reads ts.Values
    {
      map n | n in ts :: TableValue(ts[n].columns, ts[n].State())
    }

    /** A table of a valid, well-formed database is a valid `Table`. */
    lemma TableValid(name: string)
      requires Valid() && WellFormed(Abs()) && name in tables
      ensures tables[name].Valid()
    {
      var t := tables[name];
      assert t.Cols() == IndexedSet(t.columns);
      assert Abs().tables[name].state.indexes.Keys == t.indexes.Keys;
    }

    /** Registering a table object under a name changes that name's entry only. */
    static lemma TableValuesPut(ts: map<string, Table>, name: string, t: Table)
      ensures TableValues(ts[name := t]) == TableValues(ts)[name := TableValue(t.columns, t.State())]
    {
    }

    /** `{name: t.columns for name, t in self.tables.items()}` over the table objects. */
    static lemma SchemasOfValues(ts: map<string, Table>)
      ensures Schemas(TableValues(ts)) == map n | n in ts :: ts[n].columns
    {
    }

    /** `t` is the `Table(n, columns)` that loading the metadata creates. */
    static ghost predicate OpenedAs(t: Table, n: string, store: Store)
      reads t, store
    {
      && t.store == store && t.name == n && t.Valid() && n in store.schemas
      && TableValue(t.columns, t.State()) == Opened(n, store.schemas[n], store.rowFiles)
    }

    /** `Database.__init__` (lines 130-134): the tables `_load_metadata` opens. */
    constructor (store: Store)
      requires forall n :: n in store.schemas ==> DistinctKeys(store.schemas[n])
      ensures Valid() && this.store == store
      ensures Abs() == Loaded(store.rowFiles, store.schemas)
    {
      var loaded := LoadMetadata(store);
      this.store := store;
      tables := loaded;
      new;
      assert Abs().tables == Loaded(store.rowFiles, store.schemas).tables by {
        forall n | n in tables
          ensures TableValue(tables[n].columns, tables[n].State()) == Opened(n, store.schemas[n], store.rowFiles)
        {
          assert OpenedAs(tables[n], n, store);
        }
      }
    }

    /** `_load_metadata` (lines 136-141): a new `Table` for every table the metadata lists, each
        reading its own rows file. */
    static method LoadMetadata(store: Store) returns (loaded: map<string, Table>)
      requires forall n :: n in store.schemas ==> DistinctKeys(store.schemas[n])
      ensures loaded.Keys == store.schemas.Keys
      ensures forall n :: n in loaded ==> OpenedAs(loaded[n], n, store)
    {
      loaded := map[];
      var todo := store.schemas.Keys;
      while todo != {}
        invariant todo <= store.schemas.Keys && loaded.Keys == store.schemas.Keys - todo
        invariant forall n :: n in loaded ==> OpenedAs(loaded[n], n, store)
        decreases todo
      {
        var n :| n in todo;
        var t := new Table(n, store.schemas[n], store);
        loaded := loaded[n := t];
        todo := todo - {n};
      }
    }

    /** `_save_metadata` (lines 143-147): every table's columns, by name. */
    method SaveMetadata()
      modifies store
      ensures store.schemas == Schemas(TableValues(tables))
      ensures store.rowFiles == old(store.rowFiles)
      ensures TableValues(tables) == old(TableValues(tables))
    {
      SchemasOfValues(tables);
      store.schemas := map n | n in tables :: tables[n].columns;
    }

    /** Lines 169-170: a new `Table` under the name, then the metadata written. */
    method AddTable(name: string, columns: Schema)
      requires Valid() && DistinctKeys(columns)
      modifies this, store
      ensures Valid()
      ensures var tables := old(Abs()).tables[name := Opened(name, columns, old(store.rowFiles))];
        Abs() == DbState(tables, old(store.rowFiles), Schemas(tables))
    {
      var t := new Table(name, columns, store);
      assert t.Cols() == IndexedSet(columns);
      TableValuesPut(tables, name, t);
      tables := tables[name := t];
      SaveMetadata();
    }

    /** CREATE TABLE (lines 154-172). */
    method Create(name: string, body: string) returns (r: Result<Output>)
      requires Valid()
      modifies this, store
      ensures Valid()
      ensures Reply(r, Abs()) == RunCreate(old(Abs()), name, body)
    {
      var defs := CollectLoop(Split(body, ','), ParseColumn);
      if defs.Err? {
        return Err(defs.error);
      }
      CreateOutcome(Abs(), name, body);
      assert DistinctKeys(defs.value) by {
        ColumnDefsShape(body);
      }
      AddTable(name, defs.value);
      r := Ok(Message("Table " + name + " created."));
    }

    /** After a table method changed the table object `t` registered under `name`, every other
        table shows what it showed before. */
    ghost method OthersKept(values: map<string, TableValue>, name: string, t: Table)
      requires name in tables && tables[name] == t
      requires values.Keys == tables.Keys
      requires forall n :: n in tables && n != name ==> values[n] == TableValue(tables[n].columns, tables[n].State())
      ensures TableValues(tables) == values[name := TableValue(t.columns, t.State())]
    {
    }

    /** `table.insert(row_data)` (line 197) on the table registered under `name`. */
    method InsertRow(name: string, data: Row) returns (count: Result<nat>)
      requires Valid() && WellFormed(Abs()) && name in tables
      modifies store, tables.Values
      ensures var t := old(Abs()).tables[name];
        var o := InsertSpec(Keys(t.columns), t.state, data);
        count == o.result && Abs() == Apply(old(Abs()), name, t, o)
    {
      var t := tables[name];
      TableValid(name);
      ghost var values := TableValues(tables);
      count := t.Insert(data);
      OthersKept(values, name, t);
    }

    /** INSERT (lines 175-198). */
    method Insert(name: string, colsText: string, valsText: string) returns (r: Result<Output>)
      requires Valid() && WellFormed(Abs())
      modifies store, tables.Values
      ensures Reply(r, Abs()) == RunInsert(old(Abs()), name, colsText, valsText)
    {
      var cols := InsertColumns(colsText);
      var vals := InsertValues(valsText);
      if name !in tables {
        return Err(TableNotFound(name));
      }
      var t := tables[name];
      var pairs := CollectLoop(Zip(cols, vals), InsertPair(t.columns));
      if pairs.Err? {
        return Err(pairs.error);
      }
      InsertOutcome(Abs(), name, colsText, valsText);
      var count := InsertRow(name, ToRow(pairs.value));
      r := Counted(count, "inserted");
    }

    /** SELECT (lines 201-248): reads the tables and changes nothing. */
    method SelectFrom(cols: string, t1: string, join: Option<JoinClause>, where: Option<string>) returns (r: Result<Output>)
      ensures Reply(r, Abs()) == RunSelect(Abs(), cols, t1, join, where)
    {
      if t1 !in tables {
        return Err(TableNotFound(t1));
      }
      var table1 := tables[t1];
      var w := WhereClause(table1.columns, where);
      if w.Err? {
        return Err(w.error);
      }
      if join.None? {
        var rows := table1.Select(SelectColumns(cols), AsWhere(w.value));
        return Ok(Listing(rows));
      }
      var j := join.value;
      if j.table !in tables {
        return Err(TableNotFound(j.table));
      }
      var res1 := table1.Select(Star, map[]);
      var res2 := tables[j.table].Select(Star, map[]);
      var joined := JoinLoop(t1, res1, j.table, res2, j.leftCol, j.rightCol);
      r := Ok(Listing(JoinWhere(t1, j.table, w.value, joined)));
    }

    /** `table.update(updates, where)` (line 276) on the table registered under `name`. */
    method UpdateRows(name: string, ups: Dict<Value>, w: Where) returns (count: Result<nat>)
      requires Valid() && WellFormed(Abs()) && name in tables
      modifies store, tables.Values
      ensures var t := old(Abs()).tables[name];
        var o := UpdateSpec(t.state, ups, w);
        count == o.result && Abs() == Apply(old(Abs()), name, t, o)
    {
      var t := tables[name];
      TableValid(name);
      ghost var values := TableValues(tables);
      count := t.Update(ups, w);
      OthersKept(values, name, t);
    }

    /** UPDATE (lines 251-277). */
    method Update(name: string, setText: string, where: Option<string>) returns (r: Result<Output>)
      requires Valid() && WellFormed(Abs())
      modifies store, tables.Values
      ensures Reply(r, Abs()) == RunUpdate(old(Abs()), name, setText, where)
    {
      var whereText := StripWhere(where);
      if name !in tables {
        return Err(TableNotFound(name));
      }
      var t := tables[name];
      var ups := CollectLoop(Split(Strip(setText), ','), Assignment(t.columns));
      if ups.Err? {
        return Err(ups.error);
      }
      var w := WhereClause(t.columns, whereText);
      if w.Err? {
        return Err(w.error);
      }
      UpdateOutcome(Abs(), name, setText, where);
      var count := UpdateRows(name, ups.value, AsWhere(w.value));
      r := Counted(count, "updated");
    }

    /** `table.delete(where)` (line 296) on the table registered under `name`. */
    method DeleteRows(name: string, w: Where) returns (count: nat)
      requires Valid() && WellFormed(Abs()) && name in tables
      modifies store, tables.Values
      ensures var t := old(Abs()).tables[name];
        var o := DeleteSpec(t.state, w);
        Ok(count) == o.result && Abs() == Apply(old(Abs()), name, t, o)
    {
      var t := tables[name];
      TableValid(name);
      ghost var values := TableValues(tables);
      count := t.Delete(w);
      OthersKept(values, name, t);
    }

    /** DELETE (lines 280-297). */
    method Delete(name: string, where: Option<string>) returns (r: Result<Output>)
      requires Valid() && WellFormed(Abs())
      modifies store, tables.Values
      ensures Reply(r, Abs()) == RunDelete(old(Abs()), name, where)
    {
      if name !in tables {
        return Err(TableNotFound(name));
      }
      var t := tables[name];
      var w := WhereClause(t.columns, where);
      if w.Err? {
        return Err(w.error);
      }
      DeleteOutcome(Abs(), name, where);
      var count := DeleteRows(name, AsWhere(w.value));
      r := Counted(Ok(count), "deleted");
    }

    /** One recognised statement run against its table; the database stays well formed. */
    method Dispatch(st: Statement) returns (r: Result<Output>)
      requires Valid() && WellFormed(Abs())
      modifies this, store, tables.Values
      ensures Valid() && WellFormed(Abs())
      ensures Reply(r, Abs()) == Exec(old(Abs()), st)
    {
      ghost var db := Abs();
      match st {
        case CreateTable(name, body) =>
          r := Create(name, body);
        case InsertInto(name, cols, vals) =>
          r := Insert(name, cols, vals);
        case Select(cols, table, join, where) =>
          r := SelectFrom(cols, table, join, where);
        case Update(name, setText, where) =>
          r := Update(name, setText, where);
        case Delete(name, where) =>
          r := Delete(name, where);
      }
      ExecKeepsWellFormed(db, st);
    }

    /** `execute` (lines 149-299): the statement is stripped, recognised, and run. */
    method Execute(sql: string) returns (r: Result<Output>)
      requires Valid() && WellFormed(Abs())
      modifies this, store, tables.Values
      ensures Valid() && WellFormed(Abs())
      ensures Reply(r, Abs()) == Run(old(Abs()), sql)
    {
      var s := Strip(sql);
      if s == [] {
        return Ok(Nothing);
      }
      var st := Recognize(s);
      if st.None? {
        return Err(InvalidSyntax);
      }
      r := Dispatch(st.value);
    }
  }
}
