/** The Table class of engine.py (lines 4-123): rows kept in memory, uniqueness indexes, and the
    table's row file in the storage directory. */
module Storage {
  import opened Values
  import opened Rows
  import opened Indexes
  import opened Changes

  /** The storage directory: one row file per table (`{name}.json`) and the metadata file
      (`metadata.json`) holding every table's columns. A missing key is a missing file. The two
      are kept apart even for a table named `metadata`, whose row file the code shares with the
      metadata (SaveOverwritesMetadata). */
  class Store {
    var rowFiles: map<string, seq<Row>>
    var schemas: map<string, Schema>

    constructor (rowFiles: map<string, seq<Row>>, schemas: map<string, Schema>)
      ensures this.rowFiles == rowFiles && this.schemas == schemas
    {
      this.rowFiles := rowFiles;
      this.schemas := schemas;
    }
  }

  /** A table's row file, `{storage_dir}/{name}.json` (line 8), named within the storage directory. */
  function RowFileName(name: string): (f: string)
    ensures |f| == |name| + 5 && f[..|name|] == name && f[|name|..] == ".json"
  {
    name + ".json"
  }

  /** The metadata file, `os.path.join(storage_dir, 'metadata.json')` (line 133). */
  const MetadataFileName: string := "metadata.json"

  /** What a file of the storage directory holds when the code writes it. */
  datatype StoredFile = RowsFile(rows: seq<Row>) | MetadataFile(schemas: map<string, Schema>)

  /** `_save` as written, over the storage directory as one map from file names to contents: the
      rows go to the file named after the table, and no other file changes. */
  function SaveRowsAsWritten(dir: map<string, StoredFile>, name: string, rows: seq<Row>): (r: map<string, StoredFile>)
    ensures RowFileName(name) in r && r[RowFileName(name)] == RowsFile(rows)
    ensures forall f :: f in dir && f != RowFileName(name) ==> f in r && r[f] == dir[f]
  {
    dir[RowFileName(name) := RowsFile(rows)]
  }

  /** As written, the row file of a table named `metadata` is the metadata file, so saving that
      table's rows replaces the metadata. The `Store` below keeps the two apart. */
  lemma SaveOverwritesMetadata(dir: map<string, StoredFile>, rows: seq<Row>)
    ensures RowFileName("metadata") == MetadataFileName
    ensures SaveRowsAsWritten(dir, "metadata", rows)[MetadataFileName] == RowsFile(rows)
  {
  }

  /** The `where` loop of select, delete and update: every pair must equal the row's field, and
      the first pair that does not ends the check. */
  method MatchRow(row: Row, w: Where) returns (m: bool)
    ensures m == Matches(row, w)
  {
    m := true;
    var todo := w.Keys;
    while todo != {}
      invariant todo <= w.Keys
      invariant forall c :: c in w && c !in todo ==> Get(row, c) == w[c]
      decreases |todo|
    {
      var c :| c in todo;
      if Get(row, c) != w[c] {
        m := false;
        break;
      }
      todo := todo - {c};
    }
  }

  /** Replacing element `i` of `s`, whose elements from `i` on are those of `t`. */
  lemma ReplaceAt<T>(s: seq<T>, t: seq<T>, i: nat, x: T)
    requires i < |s| == |t| && s[i..] == t[i..]
    ensures s[i := x][..i + 1] == s[..i] + [x]
    ensures s[i := x][i + 1..] == t[i + 1..]
    ensures s[i := x] == s[..i] + [x] + t[i + 1..]
    ensures x == s[i] ==> s[..i + 1] == s[..i] + [x]
  {
    assert s[i + 1..] == s[i..][1..];
  }

  class Table {
    const name: string
    const columns: Schema
    /** The keys of `self.indexes`, in the order they were added. */
    const indexed: seq<string>
    const primaryKey: Option<string>
    const store: Store
    var rows: seq<Row>
    var indexes: IndexSet

    /** The indexed columns. */
    function Cols(): set<string>
    {
      set c | c in indexed
    }

    /** The indexes are exactly those of the PRIMARY KEY and UNIQUE columns. */
    ghost predicate Valid()
      reads this
    {
      && DistinctKeys(columns)
      && indexed == IndexedNames(columns)
      && indexes.Keys == Cols()
    }

    ghost function State(): TableState
      reads this
    {
      TableState(rows, indexes)
    }

    /** Table.__init__ (lines 5-19): an empty index per indexed column, the last PRIMARY KEY
        column, then the rows of the table's file when there is one. */
    constructor (name: string, columns: Schema, store: Store)
      requires DistinctKeys(columns)
      ensures Valid() && this.name == name && this.columns == columns && this.store == store
      ensures primaryKey == LastPrimaryKey(columns)
      ensures rows == (if name in store.rowFiles then store.rowFiles[name] else [])
      ensures indexes == RebuildAll(rows, Cols())
    {
      this.name := name;
      this.columns := columns;
      this.store := store;
      var names: seq<string> := [];
      var ix: IndexSet := map[];
      var pk: Option<string> := None;
      var i := 0;
      while i < |columns|
        invariant 0 <= i <= |columns|
        invariant names == IndexedNames(columns[..i])
        invariant ix.Keys == set c | c in names
        invariant forall c :: c in ix ==> ix[c] == map[]
        invariant pk == LastPrimaryKey(columns[..i])
      {
        var col, props := columns[i].0, columns[i].1;
        assert columns[..i + 1][..i] == columns[..i];
        if props.primaryKey || props.unique {
          ix := ix[col := map[]];
          names := names + [col];
        }
        if props.primaryKey {
          pk := Some(col);
        }
        i := i + 1;
      }
      assert columns[..i] == columns;
      indexed := names;
      primaryKey := pk;
      rows := [];
      indexes := ix;
      new;
      Load();
    }

    /** Table._load (lines 21-25): read the table's file if it exists, and rebuild the indexes. */
    method Load()
      requires Valid() && indexes == RebuildAll(rows, Cols())
      modifies this
      ensures Valid()
      ensures rows == (if name in store.rowFiles then store.rowFiles[name] else old(rows))
      ensures indexes == RebuildAll(rows, Cols())
    {
      if name in store.rowFiles {
        rows := store.rowFiles[name];
        RebuildIndexes();
      }
    }

    /** Table._save (lines 27-30): the table's file becomes the current rows. */
    method Save()
      modifies store
      ensures store.rowFiles == old(store.rowFiles)[name := rows]
      ensures store.schemas == old(store.schemas)
    {
      store.rowFiles := store.rowFiles[name := rows];
    }

    /** Table._rebuild_indexes (lines 32-38). */
    method RebuildIndexes()
      requires indexes.Keys == Cols()
      modifies this
      ensures rows == old(rows)
      ensures indexes == RebuildAll(rows, Cols())
    {
      var k := 0;
      ghost var done: set<string> := {};
      while k < |indexed|
        invariant 0 <= k <= |indexed|
        invariant rows == old(rows) && indexes.Keys == Cols()
        invariant forall j :: 0 <= j < k ==> indexed[j] in done
        invariant forall c :: c in done ==> c in indexes && indexes[c] == RebuildIndex(rows, c)
      {
        var col := indexed[k];
        var ix := IndexOf(col);
        indexes := indexes[col := ix];
        done := done + {col};
        k := k + 1;
      }
      assert forall c :: c in indexes ==> c in done;
    }

    /** The row loop of _rebuild_indexes for one column: each non-None value maps to the position
        of the last row holding it. */
    method IndexOf(col: string) returns (ix: Index)
      ensures ix == RebuildIndex(rows, col)
    {
      ix := map[];
      var i := 0;
      while i < |rows|
        invariant 0 <= i <= |rows|
        invariant ix == RebuildIndex(rows[..i], col)
      {
        assert rows[..i + 1][..i] == rows[..i];
        var v := Get(rows[i], col);
        if v != Null {
          ix := ix[v := i];
        }
        i := i + 1;
      }
      assert rows[..i] == rows;
    }

    /** Table.insert (lines 40-59). */
    method Insert(data: Row) returns (r: Result<nat>)
      requires Valid()
      modifies this, store
      ensures Valid()
      ensures var o := InsertSpec(Keys(columns), old(State()), data);
        && r == o.result && State() == o.after
        && store.rowFiles == Written(old(store.rowFiles), name, o)
        && store.schemas == old(store.schemas)
    {
      ghost var o := InsertSpec(Keys(columns), State(), data);
      var newRow, dup := BuildRow(data);
      if dup.Some? {
        var col := columns[dup.value].0;
        r := Err(DuplicateKey(col, Get(data, col)));
        assert r == o.result && State() == o.after && !o.saved;
        return;
      }
      assert o.result == Ok(1) && o.saved;
      assert o.after == TableState(rows + [newRow], IndexAfterInsert(indexes, newRow, |rows|));
      assert forall c :: c in indexed ==> c in newRow by {
        IndexedAreColumns(columns);
      }
      var n := |rows|;
      rows := rows + [newRow];
      IndexNewRow(newRow, n);
      Save();
      r := Ok(1);
    }

    /** The column loop of insert (lines 42-51): the stored row, or the first column whose value
        is already indexed. */
    method BuildRow(data: Row) returns (newRow: Row, dup: Option<nat>)
      ensures dup == FirstDuplicate(Keys(columns), indexes, data)
      ensures dup.None? ==> newRow == NewRow(Keys(columns), data)
    {
      var names := Keys(columns);
      newRow := map[];
      var i := 0;
      while i < |columns|
        invariant 0 <= i <= |columns|
        invariant forall c :: c in newRow <==> c in names[..i]
        invariant forall c :: c in newRow ==> newRow[c] == Get(data, c)
        invariant forall j :: 0 <= j < i ==> !IsDup(indexes, data, names[j])
      {
        var col := columns[i].0;
        var val := Get(data, col);
        if col in indexes && val in indexes[col] {
          FirstDuplicateAt(names, indexes, data, i);
          return newRow, Some(i);
        }
        newRow := newRow[col := val];
        i := i + 1;
        assert forall c :: c in names[..i] <==> c in names[..i - 1] || c == col;
      }
      assert names[..i] == names;
      dup := None;
    }

    /** The index loop of insert (lines 54-56): each index maps the new row's value to its position. */
    method IndexNewRow(newRow: Row, idx: nat)
      requires indexes.Keys == Cols() && forall c :: c in indexed ==> c in newRow
      modifies this
      ensures rows == old(rows)
      ensures indexes == IndexAfterInsert(old(indexes), newRow, idx)
    {
      var k := 0;
      ghost var done: set<string> := {};
      while k < |indexed|
        invariant 0 <= k <= |indexed|
        invariant rows == old(rows) && indexes.Keys == old(indexes).Keys
        invariant forall j :: 0 <= j < k ==> indexed[j] in done
        invariant forall c :: c in indexes ==>
          indexes[c] == if c in done then old(indexes)[c][Get(newRow, c) := idx] else old(indexes)[c]
      {
        var col := indexed[k];
        var ix: Index := indexes[col][newRow[col] := idx];
        indexes := indexes[col := ix];
        done := done + {col};
        k := k + 1;
      }
      assert forall c :: c in indexes ==> c in done;
    }

    /** Table.select (lines 61-77). */
    method Select(cols: Columns, w: Where) returns (results: seq<Row>)
      ensures results == SelectRows(rows, cols, w)
    {
      results := [];
      var i := 0;
      while i < |rows|
        invariant 0 <= i <= |rows|
        invariant results == SelectRows(rows[..i], cols, w)
      {
        assert rows[..i + 1][..i] == rows[..i];
        var m := MatchRow(rows[i], w);
        if m {
          results := results + [Shape(rows[i], cols)];
        }
        i := i + 1;
      }
      assert rows[..i] == rows;
    }

    /** Table.delete (lines 79-100). */
    method Delete(w: Where) returns (count: nat)
      requires Valid()
      modifies this, store
      ensures Valid()
      ensures var o := DeleteSpec(old(State()), w);
        && Ok(count) == o.result && State() == o.after
        && store.rowFiles == Written(old(store.rowFiles), name, o)
        && store.schemas == old(store.schemas)
    {
      count := 0;
      var newRows: seq<Row> := [];
      var i := 0;
      while i < |rows|
        invariant 0 <= i <= |rows|
        invariant count == |Filter(rows[..i], w)| && newRows == Reject(rows[..i], w)
        invariant unchanged(this) && unchanged(store)
      {
        assert rows[..i + 1][..i] == rows[..i];
        var m := MatchRow(rows[i], w);
        if m {
          count := count + 1;
        } else {
          newRows := newRows + [rows[i]];
        }
        i := i + 1;
      }
      assert rows[..i] == rows;
      rows := newRows;
      RebuildIndexes();
      Save();
    }

    /** Table.update (lines 102-123). A row is changed in place, assignment by assignment, so a
        clash leaves the earlier changes in memory. */
    method Update(ups: Dict<Value>, w: Where) returns (r: Result<nat>)
      requires Valid()
      modifies this, store
      ensures Valid()
      ensures var o := UpdateSpec(old(State()), ups, w);
        && r == o.result && State() == o.after
        && store.rowFiles == Written(old(store.rowFiles), name, o)
        && store.schemas == old(store.schemas)
    {
      var count, err := ScanRows(ups, w);
      if err.Some? {
        return Err(err.value);
      }
      if count > 0 {
        RebuildIndexes();
        Save();
      }
      r := Ok(count);
    }

    /** The row loop of update (lines 104-118): each matching row gets the assignments, until an
        assignment clashes. */
    method ScanRows(ups: Dict<Value>, w: Where) returns (count: nat, err: Option<Error>)
      modifies this
      ensures indexes == old(indexes)
      ensures UpdateRows(old(rows), ups, w, indexes) == if err.None? then Updated(rows, count) else Aborted(rows, err.value)
    {
      ghost var rows0 := rows;
      count := 0;
      var i := 0;
      while i < |rows|
        invariant 0 <= i <= |rows| == |rows0|
        invariant indexes == old(indexes)
        invariant UpdateRows(rows0[..i], ups, w, indexes) == Updated(rows[..i], count)
        invariant rows[i..] == rows0[i..]
      {
        ghost var done := rows[..i];
        var row := rows[i];
        assert row == rows0[i];
        var m := MatchRow(row, w);
        if m {
          var changed, e := ApplyAssignments(row, ups);
          ghost var p := UpdateRows(rows0[..i + 1], ups, w, indexes);
          assert p == if e.None? then Updated(done + [changed], count + 1) else Aborted(done + [changed], e.value) by {
            UpdateRowsStep(rows0, ups, w, indexes, i, done, count);
          }
          ReplaceAt(rows, rows0, i, changed);
          rows := rows[i := changed];
          if e.Some? {
            AbortedKeepsRest(rows0, ups, w, indexes, i + 1);
            return count, e;
          }
          count := count + 1;
        } else {
          assert UpdateRows(rows0[..i + 1], ups, w, indexes) == Updated(done + [row], count) by {
            UpdateRowsStep(rows0, ups, w, indexes, i, done, count);
          }
          ReplaceAt(rows, rows0, i, row);
        }
        i := i + 1;
      }
      assert rows0[..i] == rows0 && rows[..i] == rows;
      err := None;
    }

    /** The assignment loop of update for one row (lines 112-117): each assignment is checked
        against the index and then made in the row, until one clashes. The caller writes the row
        back, which is what the in-place change of the row dict amounts to. */
    method ApplyAssignments(row: Row, ups: Dict<Value>) returns (r: Row, err: Option<Error>)
      ensures UpdateRow(row, ups, indexes) == if err.None? then Done(r) else Blocked(r, err.value)
    {
      r := row;
      var j := 0;
      assert ups[..0] == [];
      while j < |ups|
        invariant 0 <= j <= |ups|
        invariant UpdateRow(row, ups[..j], indexes) == Done(r)
      {
        assert ups[..j + 1][..j] == ups[..j];
        var col, val := ups[j].0, ups[j].1;
        if col in indexes && val != Get(r, col) {
          if val in indexes[col] {
            BlockedStaysBlocked(row, ups, indexes, j + 1);
            return r, Some(DuplicateUniqueKey(col, val));
          }
        }
        r := r[col := val];
        j := j + 1;
      }
      assert ups[..j] == ups;
      err := None;
    }
  }
}
