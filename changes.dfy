/** What Table.insert, Table.delete and Table.update do to a table's rows and indexes
    (engine.py lines 40-59 and 79-123), as functions of the table's state before the call. The
    imperative Table class proves its methods against these. */
module Changes {
  import opened Values
  import opened Rows
  import opened Indexes

  /** The in-memory part of a table that the operations change. */
  datatype TableState = TableState(rows: seq<Row>, indexes: IndexSet)

  /** What one operation does: its return value or exception, the table afterwards, and whether
      it rewrote the table's row file. */
  datatype Outcome = Outcome(result: Result<nat>, after: TableState, saved: bool)

  /** The row files after an operation on table `name`: its file is rewritten with the new rows
      exactly when the operation saved. */
  function Written(files: map<string, seq<Row>>, name: string, o: Outcome): map<string, seq<Row>>
  {
    if o.saved then files[name := o.after.rows] else files
  }

  // ---------------------------------------------------------------- insert (lines 40-59)

  /** The stored row: every declared column, with None where the statement gave no value. */
  function NewRow(names: seq<string>, data: Row): Row
  {
    map c | c in names :: Get(data, c)
  }

  /** Column `c` is indexed and the value given for it is already a key of its index. */
  predicate IsDup(ix: IndexSet, data: Row, c: string)
  {
    c in ix && Get(data, c) in ix[c]
  }

  /** The first declared column whose value is a duplicate, if any. */
  function FirstDuplicate(names: seq<string>, ix: IndexSet, data: Row): (k: Option<nat>)
    ensures k.Some? ==> k.value < |names| && IsDup(ix, data, names[k.value])
    ensures k.Some? ==> forall j :: 0 <= j < k.value ==> !IsDup(ix, data, names[j])
    ensures k.None? <==> forall j :: 0 <= j < |names| ==> !IsDup(ix, data, names[j])
  {
    if names == [] then None
    else if IsDup(ix, data, names[0]) then Some(0)
    else match FirstDuplicate(names[1..], ix, data)
      case None => None
      case Some(k) => Some(k + 1)
  }

  /** The first duplicate is the one a scan in declared order stops at. */
  lemma FirstDuplicateAt(names: seq<string>, ix: IndexSet, data: Row, i: nat)
    requires i < |names| && IsDup(ix, data, names[i])
    requires forall j :: 0 <= j < i ==> !IsDup(ix, data, names[j])
    ensures FirstDuplicate(names, ix, data) == Some(i)
  {
  }

  /** The incremental index update after an append: each index maps the new row's value, None
      included, to the new position. */
  function IndexAfterInsert(ix: IndexSet, row: Row, p: nat): IndexSet
  {
    map c | c in ix :: ix[c][Get(row, c) := p]
  }

  function InsertSpec(names: seq<string>, st: TableState, data: Row): Outcome
  {
    match FirstDuplicate(names, st.indexes, data)
    case Some(k) => Outcome(Err(DuplicateKey(names[k], Get(data, names[k]))), st, false)
    case None =>
      var row := NewRow(names, data);
      Outcome(Ok(1), TableState(st.rows + [row], IndexAfterInsert(st.indexes, row, |st.rows|)), true)
  }

  /** insert fails exactly when some indexed column's value is already in its index; it then
      names the first such declared column and its value, and changes and saves nothing. */
  lemma InsertRejected(names: seq<string>, st: TableState, data: Row)
    ensures var o := InsertSpec(names, st, data);
      && (o.result.Err? <==> exists j :: 0 <= j < |names| && IsDup(st.indexes, data, names[j]))
      && (o.result.Err? ==>
            && o.after == st && !o.saved
            && o.result.error.DuplicateKey? && o.result.error.column in names
            && o.result.error.value == Get(data, o.result.error.column)
            && IsDup(st.indexes, data, o.result.error.column))
  {
  }

  /** A successful insert appends one row holding exactly the declared columns, each with the
      given value or None, returns 1 and saves. */
  lemma InsertAppends(names: seq<string>, st: TableState, data: Row)
    ensures var o := InsertSpec(names, st, data);
      o.result.Ok? ==>
        && o.result.value == 1 && o.saved
        && |o.after.rows| == |st.rows| + 1
        && o.after.rows[..|st.rows|] == st.rows
        && (forall c :: c in o.after.rows[|st.rows|] <==> c in names)
        && (forall c :: c in names ==> o.after.rows[|st.rows|][c] == Get(data, c))
  {
  }

  /** After a successful insert each index maps the new row's value to the new last position,
      and every other value it held keeps its position. */
  lemma InsertIndexesNewRow(names: seq<string>, st: TableState, data: Row)
    ensures var o := InsertSpec(names, st, data);
      o.result.Ok? ==>
        && o.after.indexes.Keys == st.indexes.Keys
        && (forall c :: c in st.indexes && c in names ==>
              Get(data, c) in o.after.indexes[c] && o.after.indexes[c][Get(data, c)] == |o.after.rows| - 1)
        && (forall c, v :: c in st.indexes && v in st.indexes[c] && v != Get(data, c) && c in names ==>
              v in o.after.indexes[c] && o.after.indexes[c][v] == st.indexes[c][v])
  {
  }

  /** Starting from rebuilt indexes, the incrementally updated indexes are what a rebuild would
      give if and only if the new row has no None in an indexed column: insert puts None into an
      index while a rebuild leaves it out. */
  lemma InsertIndexMatchesRebuild(names: seq<string>, st: TableState, data: Row, cols: set<string>)
    requires st.indexes == RebuildAll(st.rows, cols)
    requires forall c :: c in cols ==> c in names
    requires InsertSpec(names, st, data).result.Ok?
    ensures var o := InsertSpec(names, st, data);
      o.after.indexes == RebuildAll(o.after.rows, cols) <==> forall c :: c in cols ==> Get(data, c) != Null
  {
    var o := InsertSpec(names, st, data);
    var row := NewRow(names, data);
    var rows := st.rows + [row];
    assert rows[..|rows| - 1] == st.rows;
    assert o.after.rows == rows;
    if exists c :: c in cols && Get(data, c) == Null {
      var c :| c in cols && Get(data, c) == Null;
      RebuildIndexSpec(rows, c);
      assert Null in o.after.indexes[c];
      assert Null !in RebuildAll(rows, cols)[c];
    }
  }

  /** insert keeps the indexed columns free of repeated values, and keeps every value present in
      its index, provided the indexes covered the rows before. */
  lemma InsertKeepsUnique(names: seq<string>, st: TableState, data: Row, cols: set<string>)
    requires st.indexes.Keys == cols
    requires forall c :: c in cols ==> c in names
    requires Unique(st.rows, cols) && Covers(st.rows, st.indexes, cols)
    ensures var o := InsertSpec(names, st, data);
      Unique(o.after.rows, cols) && Covers(o.after.rows, o.after.indexes, cols)
  {
    var o := InsertSpec(names, st, data);
    if o.result.Ok? {
      var row := NewRow(names, data);
      var rows := o.after.rows;
      var n := |st.rows|;
      assert rows == st.rows + [row];
      forall c, i, j | c in cols && 0 <= i < j < |rows| && Get(rows[i], c) != Null
        ensures Get(rows[i], c) != Get(rows[j], c)
      {
        if j == n {
          assert rows[i] == st.rows[i];
          assert Get(row, c) == Get(data, c);
          assert !IsDup(st.indexes, data, c) by {
            var k :| 0 <= k < |names| && names[k] == c;
          }
        } else {
          assert rows[i] == st.rows[i] && rows[j] == st.rows[j];
        }
      }
      forall c, i | c in cols && 0 <= i < |rows| && Get(rows[i], c) != Null
        ensures c in o.after.indexes && Get(rows[i], c) in o.after.indexes[c]
      {
        if i < n {
          assert rows[i] == st.rows[i];
        }
      }
    }
  }

  /** The None quirk, on a table with an indexed column `email`: a first row without an email
      puts None into the email index, and a second row without an email is then refused as a
      duplicate. */
  lemma InsertNullQuirk()
    ensures var names := ["id", "email"];
      var st0 := TableState([], map["email" := map[]]);
      var o1 := InsertSpec(names, st0, map["id" := IntV(1)]);
      var o2 := InsertSpec(names, o1.after, map["id" := IntV(2)]);
      && o1.result == Ok(1)
      && Null in o1.after.indexes["email"]
      && o2.result == Err(DuplicateKey("email", Null))
  {
    var names := ["id", "email"];
    var st0 := TableState([], map["email" := map[]]);
    var o1 := InsertSpec(names, st0, map["id" := IntV(1)]);
    assert !IsDup(st0.indexes, map["id" := IntV(1)], names[0]);
    assert !IsDup(st0.indexes, map["id" := IntV(1)], names[1]);
    assert IsDup(o1.after.indexes, map["id" := IntV(2)], names[1]);
  }

  // ---------------------------------------------------------------- delete (lines 79-100)

  function DeleteSpec(st: TableState, w: Where): Outcome
  {
    var kept := Reject(st.rows, w);
    Outcome(Ok(|Filter(st.rows, w)|), TableState(kept, RebuildAll(kept, st.indexes.Keys)), true)
  }

  /** A subsequence of rows with unique indexed values has unique indexed values. */
  lemma KeepKeepsUnique(rows: seq<Row>, p: Row -> bool, cols: set<string>)
    requires Unique(rows, cols)
    ensures Unique(Keep(rows, p), cols)
  {
    KeepSpec(rows, p);
    var ps := Positions(rows, p);
    forall k | 0 <= k < |ps| ensures ps[k] < |rows| {
      assert ps[k] in ps;
    }
  }

  /** delete returns the number of matching rows, keeps the others in their order and no more,
      rebuilds every index from the surviving rows, keeps indexed values unique, and saves. */
  lemma DeleteRemovesMatches(st: TableState, w: Where, cols: set<string>)
    requires st.indexes.Keys == cols && Unique(st.rows, cols)
    ensures var o, ps := DeleteSpec(st, w), Positions(st.rows, r => !Matches(r, w));
      && o.result.Ok? && o.saved
      && o.result.value + |o.after.rows| == |st.rows|
      && (forall i :: 0 <= i < |o.after.rows| ==> !Matches(o.after.rows[i], w))
      && (forall i :: 0 <= i < |st.rows| && !Matches(st.rows[i], w) <==> i in ps)
      && Ascending(ps) && |ps| == |o.after.rows|
      && (forall k :: 0 <= k < |ps| ==> o.after.rows[k] == st.rows[ps[k]])
      && o.after.indexes.Keys == cols
      && Unique(o.after.rows, cols) && Covers(o.after.rows, o.after.indexes, cols)
  {
    var p := r => !Matches(r, w);
    KeepSpec(st.rows, p);
    FilterRejectCount(st.rows, w);
    KeepKeepsUnique(st.rows, p, cols);
    var kept := Reject(st.rows, w);
    RebuildCovers(kept, cols);
    var ps := Positions(st.rows, p);
    forall i | 0 <= i < |kept| ensures !Matches(kept[i], w) {
      assert ps[i] in ps;
    }
  }

  /** DELETE without WHERE empties the table and reports every row. */
  lemma DeleteAll(st: TableState)
    ensures var o := DeleteSpec(st, map[]);
      o.result == Ok(|st.rows|) && o.after.rows == []
  {
    NoPredicateMatchesAll(st.rows);
  }

  // ---------------------------------------------------------------- update (lines 102-123)

  /** The assignment `a` would give its column a new value that the (unchanged during the call)
      index already holds: the check of line 114-115. */
  predicate Clash(ix: IndexSet, row: Row, a: (string, Value))
  {
    a.0 in ix && a.1 != Get(row, a.0) && a.1 in ix[a.0]
  }

  /** The assignments applied to a row in order. */
  function Assign(row: Row, ups: Dict<Value>): Row
  {
    if ups == [] then row
    else
      var a := ups[|ups| - 1];
      Assign(row, ups[..|ups| - 1])[a.0 := a.1]
  }

  /** A row after the SET list: done, or stopped at an assignment that clashes, with the earlier
      assignments already made (the row dict is changed in place). */
  datatype RowPass = Done(row: Row) | Blocked(row: Row, error: Error)

  function UpdateRow(row: Row, ups: Dict<Value>, ix: IndexSet): RowPass
  {
    if ups == [] then Done(row)
    else
      var a := ups[|ups| - 1];
      match UpdateRow(row, ups[..|ups| - 1], ix)
      case Blocked(r, e) => Blocked(r, e)
      case Done(r) =>
        if Clash(ix, r, a) then Blocked(r, DuplicateUniqueKey(a.0, a.1)) else Done(r[a.0 := a.1])
  }

  /** The rows after the scan: all of them with a count of updated rows, or the rows as they
      stand when the exception is raised. */
  datatype Pass = Updated(rows: seq<Row>, count: nat) | Aborted(rows: seq<Row>, error: Error)

  function UpdateRows(rows: seq<Row>, ups: Dict<Value>, w: Where, ix: IndexSet): Pass
  {
    if rows == [] then Updated([], 0)
    else
      var last := rows[|rows| - 1];
      match UpdateRows(rows[..|rows| - 1], ups, w, ix)
      case Aborted(rs, e) => Aborted(rs + [last], e)
      case Updated(rs, k) =>
        if !Matches(last, w) then Updated(rs + [last], k)
        else match UpdateRow(last, ups, ix)
          case Done(r) => Updated(rs + [r], k + 1)
          case Blocked(r, e) => Aborted(rs + [r], e)
  }

  function UpdateSpec(st: TableState, ups: Dict<Value>, w: Where): Outcome
  {
    match UpdateRows(st.rows, ups, w, st.indexes)
    case Aborted(rs, e) => Outcome(Err(e), TableState(rs, st.indexes), false)
    case Updated(rs, k) =>
      if k > 0 then Outcome(Ok(k), TableState(rs, RebuildAll(rs, st.indexes.Keys)), true)
      else Outcome(Ok(0), TableState(rs, st.indexes), false)
  }

  /** insert, delete and update keep one index per indexed column. */
  lemma IndexKeysKept(st: TableState, names: seq<string>, data: Row, ups: Dict<Value>, w: Where)
    ensures InsertSpec(names, st, data).after.indexes.Keys == st.indexes.Keys
    ensures DeleteSpec(st, w).after.indexes.Keys == st.indexes.Keys
    ensures UpdateSpec(st, ups, w).after.indexes.Keys == st.indexes.Keys
  {
  }

  /** An UPDATE that raises does not save. */
  lemma UpdateErrNotSaved(st: TableState, ups: Dict<Value>, w: Where)
    ensures UpdateSpec(st, ups, w).result.Err? ==> !UpdateSpec(st, ups, w).saved
  {
  }

  /** Columns the assignments do not name keep their values. */
  lemma {:induction false} AssignKeeps(row: Row, ups: Dict<Value>)
    ensures forall c :: c !in Keys(ups) ==> Get(Assign(row, ups), c) == Get(row, c)
  {
    if ups != [] {
      var n := |ups| - 1;
      var front := ups[..n];
      AssignKeeps(row, front);
      forall c | c !in Keys(ups) ensures Get(Assign(row, ups), c) == Get(row, c) {
        assert Keys(ups)[n] == ups[n].0;
        assert c !in Keys(front) by {
          forall k | 0 <= k < |front| ensures Keys(front)[k] != c {
            assert Keys(front)[k] == Keys(ups)[k];
          }
        }
      }
    }
  }

  /** With distinct columns, each assigned column takes its value. */
  lemma {:induction false} AssignSets(row: Row, ups: Dict<Value>)
    requires DistinctKeys(ups)
    ensures forall i :: 0 <= i < |ups| ==> Get(Assign(row, ups), ups[i].0) == ups[i].1
  {
    if ups != [] {
      var n := |ups| - 1;
      var front := ups[..n];
      assert DistinctKeys(front);
      AssignSets(row, front);
      forall i | 0 <= i < n ensures Get(Assign(row, ups), ups[i].0) == ups[i].1 {
        assert front[i] == ups[i];
        assert ups[i].0 != ups[n].0;
      }
    }
  }

  /** A clash is judged against the row as the earlier assignments left it; with distinct columns
      that is the row's original value. */
  lemma {:induction false} AssignPrefixKeeps(row: Row, ups: Dict<Value>, j: nat)
    requires DistinctKeys(ups) && j < |ups|
    ensures Get(Assign(row, ups[..j]), ups[j].0) == Get(row, ups[j].0)
  {
    var front := ups[..j];
    assert DistinctKeys(front);
    AssignKeeps(row, front);
  }

  /** The SET list `ups` stopped, as `p`, at assignment `j`: the first one that clashes with the
      original row, with the earlier ones made. */
  predicate StopsAt(row: Row, ups: Dict<Value>, ix: IndexSet, p: RowPass, j: nat)
  {
    && p.Blocked? && j < |ups| && Clash(ix, row, ups[j])
    && (forall i :: 0 <= i < j ==> !Clash(ix, row, ups[i]))
    && p.row == Assign(row, ups[..j]) && p.error == DuplicateUniqueKey(ups[j].0, ups[j].1)
  }

  /** One row's SET list: it completes, giving the row with every assignment made, exactly when
      no assignment clashes with the original row; otherwise it stops at the first clashing
      assignment with the earlier ones made. */
  lemma UpdateRowSpec(row: Row, ups: Dict<Value>, ix: IndexSet)
    requires DistinctKeys(ups)
    ensures var p := UpdateRow(row, ups, ix);
      && (p.Done? <==> forall j :: 0 <= j < |ups| ==> !Clash(ix, row, ups[j]))
      && (p.Done? ==> p.row == Assign(row, ups))
      && (p.Blocked? ==> exists j :: StopsAt(row, ups, ix, p, j))
  {
    UpdateRowDone(row, ups, ix);
    UpdateRowBlocked(row, ups, ix);
  }

  /** The SET list completes exactly when no assignment clashes, and then makes every assignment. */
  lemma {:induction false} UpdateRowDone(row: Row, ups: Dict<Value>, ix: IndexSet)
    requires DistinctKeys(ups)
    ensures var p := UpdateRow(row, ups, ix);
      && (p.Done? <==> forall j :: 0 <= j < |ups| ==> !Clash(ix, row, ups[j]))
      && (p.Done? ==> p.row == Assign(row, ups))
  {
    if ups != [] {
      var n := |ups| - 1;
      var front := ups[..n];
      assert DistinctKeys(front);
      UpdateRowDone(row, front, ix);
      assert forall i :: 0 <= i < n ==> front[i] == ups[i];
      var p := UpdateRow(row, front, ix);
      if p.Done? {
        AssignPrefixKeeps(row, ups, n);
        assert ups[..n] == front;
        assert Get(p.row, ups[n].0) == Get(row, ups[n].0);
      }
    }
  }

  /** A SET list that stops does so at the first assignment that clashes, with the earlier ones made. */
  lemma {:induction false} UpdateRowBlocked(row: Row, ups: Dict<Value>, ix: IndexSet)
    requires DistinctKeys(ups)
    ensures var p := UpdateRow(row, ups, ix);
      p.Blocked? ==> exists j :: StopsAt(row, ups, ix, p, j)
  {
    if ups != [] {
      var n := |ups| - 1;
      var front := ups[..n];
      assert DistinctKeys(front);
      if UpdateRow(row, front, ix).Blocked? {
        UpdateRowBlocked(row, front, ix);
        var j :| StopsAt(row, front, ix, UpdateRow(row, front, ix), j);
        BlockedInFront(row, ups, ix, j);
      } else if UpdateRow(row, ups, ix).Blocked? {
        BlockedAtLast(row, ups, ix);
      }
    }
  }

  /** A stop among the earlier assignments is the stop of the whole list. */
  lemma BlockedInFront(row: Row, ups: Dict<Value>, ix: IndexSet, j: nat)
    requires ups != [] && StopsAt(row, ups[..|ups| - 1], ix, UpdateRow(row, ups[..|ups| - 1], ix), j)
    requires UpdateRow(row, ups[..|ups| - 1], ix).Blocked?
    ensures StopsAt(row, ups, ix, UpdateRow(row, ups, ix), j)
  {
    var front := ups[..|ups| - 1];
    assert front[..j] == ups[..j] && front[j] == ups[j];
    assert forall i :: 0 <= i < j ==> front[i] == ups[i];
  }

  /** The earlier assignments all went through and the last one clashes. */
  lemma BlockedAtLast(row: Row, ups: Dict<Value>, ix: IndexSet)
    requires ups != [] && DistinctKeys(ups)
    requires UpdateRow(row, ups[..|ups| - 1], ix).Done? && UpdateRow(row, ups, ix).Blocked?
    ensures StopsAt(row, ups, ix, UpdateRow(row, ups, ix), |ups| - 1)
  {
    var n := |ups| - 1;
    var front := ups[..n];
    assert DistinctKeys(front);
    UpdateRowDone(row, front, ix);
    assert forall i :: 0 <= i < n ==> front[i] == ups[i];
    AssignPrefixKeeps(row, ups, n);
    assert ups[..n] == front;
  }

  /** A matching row whose SET list stops on a clash. */
  predicate Stops(row: Row, ups: Dict<Value>, w: Where, ix: IndexSet)
  {
    Matches(row, w) && UpdateRow(row, ups, ix).Blocked?
  }

  /** A row as the scan leaves it: changed by the SET list if it matches, otherwise untouched. */
  function Touch(row: Row, ups: Dict<Value>, w: Where, ix: IndexSet): Row
  {
    if Matches(row, w) then UpdateRow(row, ups, ix).row else row
  }

  /** Every row as the scan leaves it. */
  function TouchAll(rows: seq<Row>, ups: Dict<Value>, w: Where, ix: IndexSet): seq<Row>
  {
    if rows == [] then [] else TouchAll(rows[..|rows| - 1], ups, w, ix) + [Touch(rows[|rows| - 1], ups, w, ix)]
  }

  lemma {:induction false} TouchAllAt(rows: seq<Row>, ups: Dict<Value>, w: Where, ix: IndexSet)
    ensures |TouchAll(rows, ups, w, ix)| == |rows|
    ensures forall i :: 0 <= i < |rows| ==> TouchAll(rows, ups, w, ix)[i] == Touch(rows[i], ups, w, ix)
  {
    if rows != [] {
      var n := |rows| - 1;
      var front := rows[..n];
      TouchAllAt(front, ups, w, ix);
      assert forall i :: 0 <= i < n ==> front[i] == rows[i];
    }
  }

  /** A scan in which no matching row stops goes through every row. */
  lemma {:induction false} UpdateRowsAllDone(rows: seq<Row>, ups: Dict<Value>, w: Where, ix: IndexSet)
    requires forall i :: 0 <= i < |rows| ==> !Stops(rows[i], ups, w, ix)
    ensures UpdateRows(rows, ups, w, ix) == Updated(TouchAll(rows, ups, w, ix), |Filter(rows, w)|)
  {
    if rows != [] {
      var n := |rows| - 1;
      var front := rows[..n];
      var last := rows[n];
      assert forall i :: 0 <= i < n ==> front[i] == rows[i];
      UpdateRowsAllDone(front, ups, w, ix);
      assert !Stops(last, ups, w, ix);
      assert |Filter(rows, w)| == |Filter(front, w)| + if Matches(last, w) then 1 else 0;
    }
  }

  /** When no matching row stops, update changes exactly the matching rows, in place, and counts them. */
  lemma UpdateRowsCompletes(rows: seq<Row>, ups: Dict<Value>, w: Where, ix: IndexSet)
    requires forall i :: 0 <= i < |rows| ==> !Stops(rows[i], ups, w, ix)
    ensures var p := UpdateRows(rows, ups, w, ix);
      && p.Updated? && p.count == |Filter(rows, w)| && |p.rows| == |rows|
      && forall i :: 0 <= i < |rows| ==> p.rows[i] == Touch(rows[i], ups, w, ix)
  {
    UpdateRowsAllDone(rows, ups, w, ix);
    TouchAllAt(rows, ups, w, ix);
  }

  /** When the first row that stops is row `i`, update raises its clash with rows before `i`
      changed, row `i` partly changed and the rest untouched. */
  lemma UpdateRowsStops(rows: seq<Row>, ups: Dict<Value>, w: Where, ix: IndexSet, i: nat)
    requires i < |rows| && Stops(rows[i], ups, w, ix)
    requires forall j :: 0 <= j < i ==> !Stops(rows[j], ups, w, ix)
    ensures var p := UpdateRows(rows, ups, w, ix);
      && p.Aborted? && p.error == UpdateRow(rows[i], ups, ix).error && |p.rows| == |rows|
      && (forall j :: 0 <= j <= i ==> p.rows[j] == Touch(rows[j], ups, w, ix))
      && (forall j :: i < j < |rows| ==> p.rows[j] == rows[j])
  {
    var front := rows[..i + 1];
    UpdateRowsStopsAt(rows, ups, w, ix, i);
    TouchAllAt(front, ups, w, ix);
    var t, rest := TouchAll(front, ups, w, ix), rows[i + 1..];
    assert |t| == i + 1 && |t + rest| == |rows|;
    forall j | 0 <= j <= i ensures (t + rest)[j] == Touch(rows[j], ups, w, ix) {
      assert front[j] == rows[j];
    }
    forall j | i < j < |rows| ensures (t + rest)[j] == rows[j] {
      assert rest[j - i - 1] == rows[j];
    }
  }

  /** The scan stops at the first row that stops, every row before it gone through. */
  lemma UpdateRowsStopsAt(rows: seq<Row>, ups: Dict<Value>, w: Where, ix: IndexSet, i: nat)
    requires i < |rows| && Stops(rows[i], ups, w, ix)
    requires forall j :: 0 <= j < i ==> !Stops(rows[j], ups, w, ix)
    ensures UpdateRows(rows, ups, w, ix)
      == Aborted(TouchAll(rows[..i + 1], ups, w, ix) + rows[i + 1..], UpdateRow(rows[i], ups, ix).error)
  {
    var done := rows[..i];
    assert forall j :: 0 <= j < i ==> done[j] == rows[j];
    UpdateRowsAllDone(done, ups, w, ix);
    var rs := TouchAll(done, ups, w, ix);
    UpdateRowsStep(rows, ups, w, ix, i, rs, |Filter(done, w)|);
    assert rows[..i + 1][..i] == done;
    AbortedKeepsRest(rows, ups, w, ix, i + 1);
  }

  /** Once the scan has aborted, later rows are left as they are. */
  lemma AbortedStaysAborted(rows: seq<Row>, ups: Dict<Value>, w: Where, ix: IndexSet)
    requires rows != [] && UpdateRows(rows[..|rows| - 1], ups, w, ix).Aborted?
    ensures var q := UpdateRows(rows[..|rows| - 1], ups, w, ix);
      UpdateRows(rows, ups, w, ix) == Aborted(q.rows + [rows[|rows| - 1]], q.error)
  {
  }

  /** One more row of the scan, after rows that all completed. */
  lemma UpdateRowsStep(rows: seq<Row>, ups: Dict<Value>, w: Where, ix: IndexSet, i: nat, rs: seq<Row>, k: nat)
    requires i < |rows| && UpdateRows(rows[..i], ups, w, ix) == Updated(rs, k)
    ensures !Matches(rows[i], w) ==> UpdateRows(rows[..i + 1], ups, w, ix) == Updated(rs + [rows[i]], k)
    ensures Matches(rows[i], w) && UpdateRow(rows[i], ups, ix).Done? ==>
      UpdateRows(rows[..i + 1], ups, w, ix) == Updated(rs + [UpdateRow(rows[i], ups, ix).row], k + 1)
    ensures Matches(rows[i], w) && UpdateRow(rows[i], ups, ix).Blocked? ==>
      UpdateRows(rows[..i + 1], ups, w, ix) == Aborted(rs + [UpdateRow(rows[i], ups, ix).row], UpdateRow(rows[i], ups, ix).error)
  {
    assert rows[..i + 1][..i] == rows[..i];
  }

  /** Once a row's SET list has stopped, later assignments are not made. */
  lemma {:induction false} BlockedStaysBlocked(row: Row, ups: Dict<Value>, ix: IndexSet, j: nat)
    requires j <= |ups| && UpdateRow(row, ups[..j], ix).Blocked?
    ensures UpdateRow(row, ups, ix) == UpdateRow(row, ups[..j], ix)
    decreases |ups| - j
  {
    if j < |ups| {
      var n := |ups| - 1;
      assert ups[..n][..j] == ups[..j];
      BlockedStaysBlocked(row, ups[..n], ix, j);
    } else {
      assert ups[..j] == ups;
    }
  }

  /** Once the scan has aborted at some row, the rows after it are left as they are. */
  lemma {:induction false} AbortedKeepsRest(rows: seq<Row>, ups: Dict<Value>, w: Where, ix: IndexSet, k: nat)
    requires k <= |rows| && UpdateRows(rows[..k], ups, w, ix).Aborted?
    ensures var q := UpdateRows(rows[..k], ups, w, ix);
      UpdateRows(rows, ups, w, ix) == Aborted(q.rows + rows[k..], q.error)
    decreases |rows| - k
  {
    var q := UpdateRows(rows[..k], ups, w, ix);
    if k < |rows| {
      var n := |rows| - 1;
      assert rows[..n][..k] == rows[..k];
      AbortedKeepsRest(rows[..n], ups, w, ix, k);
      AbortedStaysAborted(rows, ups, w, ix);
      assert q.rows + rows[..n][k..] + [rows[n]] == q.rows + rows[k..];
    } else {
      assert rows[..k] == rows && rows[k..] == [];
      assert q.rows + [] == q.rows;
    }
  }

  /** Updating nothing changes nothing, so nothing is rebuilt or saved. */
  lemma NoMatchNoChange(st: TableState, ups: Dict<Value>, w: Where)
    requires forall i :: 0 <= i < |st.rows| ==> !Matches(st.rows[i], w)
    ensures UpdateSpec(st, ups, w) == Outcome(Ok(0), st, false)
  {
    UpdateRowsCompletes(st.rows, ups, w, st.indexes);
    RejectNothing(st.rows, w);
    var p := UpdateRows(st.rows, ups, w, st.indexes);
    assert p.rows == st.rows;
  }

  /** update reports 0 exactly when no row matches, and then it changes and saves nothing. */
  lemma UpdateZero(st: TableState, ups: Dict<Value>, w: Where)
    ensures UpdateSpec(st, ups, w).result == Ok(0) <==> forall i :: 0 <= i < |st.rows| ==> !Matches(st.rows[i], w)
    ensures UpdateSpec(st, ups, w).result == Ok(0) ==> UpdateSpec(st, ups, w) == Outcome(Ok(0), st, false)
  {
    var rows, ix := st.rows, st.indexes;
    if exists i :: 0 <= i < |rows| && Stops(rows[i], ups, w, ix) {
      var i :| 0 <= i < |rows| && Stops(rows[i], ups, w, ix);
      FirstStop(rows, ups, w, ix, i);
      var f :| 0 <= f < |rows| && Stops(rows[f], ups, w, ix) && forall j :: 0 <= j < f ==> !Stops(rows[j], ups, w, ix);
      UpdateRowsStops(rows, ups, w, ix, f);
    } else {
      UpdateRowsCompletes(rows, ups, w, ix);
      if exists i :: 0 <= i < |rows| && Matches(rows[i], w) {
        var i :| 0 <= i < |rows| && Matches(rows[i], w);
        FilterHasMatch(rows, w, i);
      } else {
        NoMatchNoChange(st, ups, w);
      }
    }
  }

  /** When at most one row matches, an update that goes through keeps indexed values unique: the
      new value was checked against an index that covers every row. */
  lemma UpdateOneRowKeepsUnique(st: TableState, ups: Dict<Value>, w: Where, cols: set<string>)
    requires DistinctKeys(ups)
    requires st.indexes.Keys == cols
    requires Unique(st.rows, cols) && Covers(st.rows, st.indexes, cols)
    requires forall i, j :: 0 <= i < j < |st.rows| ==> !(Matches(st.rows[i], w) && Matches(st.rows[j], w))
    ensures var o := UpdateSpec(st, ups, w);
      o.result.Ok? ==> Unique(o.after.rows, cols) && Covers(o.after.rows, o.after.indexes, cols)
  {
    var o := UpdateSpec(st, ups, w);
    var ix := st.indexes;
    if o.result.Ok? {
      var stops := exists i :: 0 <= i < |st.rows| && Stops(st.rows[i], ups, w, ix);
      if stops {
        var i :| 0 <= i < |st.rows| && Stops(st.rows[i], ups, w, ix);
        FirstStop(st.rows, ups, w, ix, i);
        var f :| 0 <= f < |st.rows| && Stops(st.rows[f], ups, w, ix) && forall j :: 0 <= j < f ==> !Stops(st.rows[j], ups, w, ix);
        UpdateRowsStops(st.rows, ups, w, ix, f);
        assert false;
      }
      UpdateRowsCompletes(st.rows, ups, w, ix);
      var rs := UpdateRows(st.rows, ups, w, ix).rows;
      forall c, i, j | c in cols && 0 <= i < j < |rs| && Get(rs[i], c) != Null
        ensures Get(rs[i], c) != Get(rs[j], c)
      {
        TouchedValue(st.rows, ups, w, ix, cols, i, c);
        TouchedValue(st.rows, ups, w, ix, cols, j, c);
      }
      if o.saved {
        RebuildCovers(rs, cols);
      } else {
        forall i | 0 <= i < |rs| ensures rs[i] == st.rows[i] {
          if Matches(st.rows[i], w) {
            FilterHasMatch(st.rows, w, i);
          }
        }
        assert rs == st.rows;
      }
    }
  }

  /** Some row stops, so a first one does. */
  lemma FirstStop(rows: seq<Row>, ups: Dict<Value>, w: Where, ix: IndexSet, i: nat)
    requires i < |rows| && Stops(rows[i], ups, w, ix)
    ensures exists f :: 0 <= f < |rows| && Stops(rows[f], ups, w, ix) && forall j :: 0 <= j < f ==> !Stops(rows[j], ups, w, ix)
    decreases i
  {
    if exists j :: 0 <= j < i && Stops(rows[j], ups, w, ix) {
      var j :| 0 <= j < i && Stops(rows[j], ups, w, ix);
      FirstStop(rows, ups, w, ix, j);
    }
  }

  /** A matching row makes the filter non-empty. */
  lemma FilterHasMatch(rows: seq<Row>, w: Where, i: nat)
    requires i < |rows| && Matches(rows[i], w)
    ensures |Filter(rows, w)| > 0
  {
    KeepSpec(rows, r => Matches(r, w));
    assert i in Positions(rows, r => Matches(r, w));
  }

  /** In a completed single-row update, a touched row's indexed value is either its old value or a
      value no other row holds. */
  lemma TouchedValue(rows: seq<Row>, ups: Dict<Value>, w: Where, ix: IndexSet, cols: set<string>, i: nat, c: string)
    requires DistinctKeys(ups) && ix.Keys == cols && c in cols
    requires Covers(rows, ix, cols)
    requires i < |rows| && !Stops(rows[i], ups, w, ix)
    ensures var v := Get(Touch(rows[i], ups, w, ix), c);
      v == Get(rows[i], c) || v == Null || forall j :: 0 <= j < |rows| ==> Get(rows[j], c) != v
  {
    var row := rows[i];
    if Matches(row, w) {
      UpdateRowSpec(row, ups, ix);
      AssignSets(row, ups);
      AssignKeeps(row, ups);
      if c in Keys(ups) {
        var k :| 0 <= k < |ups| && Keys(ups)[k] == c;
        assert !Clash(ix, row, ups[k]);
      }
    }
  }

  /** The index of a two-row table. */
  lemma RebuildPair(r0: Row, r1: Row, c: string)
    requires Get(r0, c) != Null && Get(r1, c) != Null
    ensures RebuildIndex([r0, r1], c) == map[Get(r0, c) := 0][Get(r1, c) := 1]
  {
    assert [r0, r1][..1] == [r0];
    assert [r0][..0] == [];
    assert RebuildIndex([r0], c) == RebuildIndex([], c)[Get(r0, c) := 0];
    assert RebuildIndex([r0, r1], c) == RebuildIndex([r0], c)[Get(r1, c) := 1];
  }

  /** The scan of a two-row table in which both rows complete. */
  lemma UpdatePair(r0: Row, r1: Row, ups: Dict<Value>, w: Where, ix: IndexSet)
    requires Matches(r0, w) && Matches(r1, w)
    requires UpdateRow(r0, ups, ix).Done? && UpdateRow(r1, ups, ix).Done?
    ensures UpdateRows([r0, r1], ups, w, ix) == Updated([UpdateRow(r0, ups, ix).row, UpdateRow(r1, ups, ix).row], 2)
  {
    assert [r0, r1][..1] == [r0];
    assert [r0][..0] == [];
    assert UpdateRows([r0], ups, w, ix) == Updated([] + [UpdateRow(r0, ups, ix).row], 1);
  }

  /** The scan of a two-row table in which the first row completes and the second stops. */
  lemma AbortPair(r0: Row, r1: Row, ups: Dict<Value>, w: Where, ix: IndexSet)
    requires Matches(r0, w) && Matches(r1, w)
    requires UpdateRow(r0, ups, ix).Done? && UpdateRow(r1, ups, ix).Blocked?
    ensures UpdateRows([r0, r1], ups, w, ix)
      == Aborted([UpdateRow(r0, ups, ix).row, UpdateRow(r1, ups, ix).row], UpdateRow(r1, ups, ix).error)
  {
    assert [r0, r1][..1] == [r0];
    assert [r0][..0] == [];
    assert UpdateRows([r0], ups, w, ix) == Updated([] + [UpdateRow(r0, ups, ix).row], 1);
  }

  /** The frozen-index quirk: SET on an indexed column with no WHERE gives two rows the same value,
      because each row is checked against the index as it stood before the statement. */
  lemma UpdateBreaksUniqueness()
    ensures var rows := [map["id" := IntV(1), "email" := TextV("a")], map["id" := IntV(2), "email" := TextV("b")]];
      var st := TableState(rows, RebuildAll(rows, {"email"}));
      var o := UpdateSpec(st, [("email", TextV("c"))], map[]);
      Unique(rows, {"email"}) && o.result == Ok(2) && !Unique(o.after.rows, {"email"})
  {
    var r0, r1 := map["id" := IntV(1), "email" := TextV("a")], map["id" := IntV(2), "email" := TextV("b")];
    var rows := [r0, r1];
    var ix := RebuildAll(rows, {"email"});
    var ups := [("email", TextV("c"))];
    RebuildPair(r0, r1, "email");
    assert ix["email"] == map[TextV("a") := 0, TextV("b") := 1];
    assert ups[..0] == [];
    assert UpdateRow(r0, ups, ix) == Done(r0["email" := TextV("c")]);
    assert UpdateRow(r1, ups, ix) == Done(r1["email" := TextV("c")]);
    UpdatePair(r0, r1, ups, map[], ix);
    var rs := UpdateRows(rows, ups, map[], ix).rows;
    assert Get(rs[0], "email") == Get(rs[1], "email") == TextV("c");
  }

  /** A SET list of two assignments on one row. */
  lemma UpdateRowTwo(row: Row, a: (string, Value), b: (string, Value), ix: IndexSet)
    ensures UpdateRow(row, [a, b], ix) ==
      if Clash(ix, row, a) then Blocked(row, DuplicateUniqueKey(a.0, a.1))
      else if Clash(ix, row[a.0 := a.1], b) then Blocked(row[a.0 := a.1], DuplicateUniqueKey(b.0, b.1))
      else Done(row[a.0 := a.1][b.0 := b.1])
  {
    assert [a][..0] == [];
    assert UpdateRow(row, [a], ix) ==
      if Clash(ix, row, a) then Blocked(row, DuplicateUniqueKey(a.0, a.1)) else Done(row[a.0 := a.1]);
    assert [a, b][..1] == [a];
  }

  /** An update that raises leaves the rows it already changed changed in memory, unsaved and with
      the old indexes: here the first row's id becomes 7 and the second row's too before its name clashes. */
  lemma UpdateAbortKeepsPartialChanges()
    ensures var rows := [map["id" := IntV(1), "name" := TextV("b")], map["id" := IntV(2), "name" := TextV("a")]];
      var st := TableState(rows, RebuildAll(rows, {"id", "name"}));
      var o := UpdateSpec(st, [("id", IntV(7)), ("name", TextV("b"))], map[]);
      && o.result == Err(DuplicateUniqueKey("name", TextV("b"))) && !o.saved && o.after.indexes == st.indexes
      && o.after.rows == [map["id" := IntV(7), "name" := TextV("b")], map["id" := IntV(7), "name" := TextV("a")]]
  {
    var r0, r1 := map["id" := IntV(1), "name" := TextV("b")], map["id" := IntV(2), "name" := TextV("a")];
    var rows := [r0, r1];
    var ix := RebuildAll(rows, {"id", "name"});
    assert ix["id"] == map[IntV(1) := 0, IntV(2) := 1] by {
      RebuildPair(r0, r1, "id");
    }
    assert ix["name"] == map[TextV("b") := 0, TextV("a") := 1] by {
      RebuildPair(r0, r1, "name");
    }
    PartialChanges(ix);
  }

  /** The scan behind UpdateAbortKeepsPartialChanges, given the two indexes it checks against. */
  lemma PartialChanges(ix: IndexSet)
    requires "id" in ix && ix["id"] == map[IntV(1) := 0, IntV(2) := 1]
    requires "name" in ix && ix["name"] == map[TextV("b") := 0, TextV("a") := 1]
    ensures var rows := [map["id" := IntV(1), "name" := TextV("b")], map["id" := IntV(2), "name" := TextV("a")]];
      UpdateSpec(TableState(rows, ix), [("id", IntV(7)), ("name", TextV("b"))], map[])
        == Outcome(Err(DuplicateUniqueKey("name", TextV("b"))), TableState([map["id" := IntV(7), "name" := TextV("b")], map["id" := IntV(7), "name" := TextV("a")]], ix), false)
  {
    var r0, r1 := map["id" := IntV(1), "name" := TextV("b")], map["id" := IntV(2), "name" := TextV("a")];
    var a, b := ("id", IntV(7)), ("name", TextV("b"));
    var m0, m1 := map["id" := IntV(7), "name" := TextV("b")], map["id" := IntV(7), "name" := TextV("a")];
    var e := DuplicateUniqueKey("name", TextV("b"));
    assert UpdateRow(r0, [a, b], ix) == Done(m0) by {
      UpdateRowTwo(r0, a, b, ix);
      assert !Clash(ix, r0, a) && !Clash(ix, r0[a.0 := a.1], b);
      assert r0[a.0 := a.1][b.0 := b.1] == m0;
    }
    assert UpdateRow(r1, [a, b], ix) == Blocked(m1, e) by {
      UpdateRowTwo(r1, a, b, ix);
      assert !Clash(ix, r1, a) && Clash(ix, r1[a.0 := a.1], b);
      assert r1[a.0 := a.1] == m1;
    }
    assert UpdateRows([r0, r1], [a, b], map[], ix) == Aborted([m0, m1], e) by {
      AbortPair(r0, r1, [a, b], map[], ix);
    }
  }
}
