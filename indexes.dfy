/** Uniqueness indexes: for each PRIMARY KEY or UNIQUE column, a dict from value to row position
    (engine.py lines 10-17 and `_rebuild_indexes`, lines 32-38). */
module Indexes {
  import opened Values

  type Index = map<Value, nat>

  /** `self.indexes`: indexed column name to its index. */
  type IndexSet = map<string, Index>

  /** One column's index as `_rebuild_indexes` computes it: every row in order, skipping None,
      a later row overwriting an earlier row with the same value. */
  function RebuildIndex(rows: seq<Row>, c: string): Index
  {
    if rows == [] then map[]
    else
      var ix, v := RebuildIndex(rows[..|rows| - 1], c), Get(rows[|rows| - 1], c);
      if v == Null then ix else ix[v := |rows| - 1]
  }

  /** All indexes rebuilt from the rows. */
  function RebuildAll(rows: seq<Row>, cols: set<string>): IndexSet
  {
    map c | c in cols :: RebuildIndex(rows, c)
  }

  /** Row `p` holds `v` in column `c`, and no later row does. */
  predicate LastHolder(rows: seq<Row>, c: string, v: Value, p: nat)
  {
    p < |rows| && Get(rows[p], c) == v && forall j :: p < j < |rows| ==> Get(rows[j], c) != v
  }

  /** After a rebuild, an index holds exactly the non-None values present in its column, each
      mapped to the last position holding it. */
  lemma RebuildIndexSpec(rows: seq<Row>, c: string)
    ensures forall v :: v in RebuildIndex(rows, c) <==> v != Null && exists i :: 0 <= i < |rows| && Get(rows[i], c) == v
    ensures forall v :: v in RebuildIndex(rows, c) ==> LastHolder(rows, c, v, RebuildIndex(rows, c)[v])
  {
    RebuildIndexKeys(rows, c);
    RebuildIndexLast(rows, c);
  }

  /** The keys of a rebuilt index are the non-None values of the column. */
  lemma {:induction false} RebuildIndexKeys(rows: seq<Row>, c: string)
    ensures forall v :: v in RebuildIndex(rows, c) <==> v != Null && exists i :: 0 <= i < |rows| && Get(rows[i], c) == v
  {
    if rows != [] {
      var n := |rows| - 1;
      var front := rows[..n];
      RebuildIndexKeys(front, c);
      var ix, fx, last := RebuildIndex(rows, c), RebuildIndex(front, c), Get(rows[n], c);
      forall v ensures v in ix <==> v != Null && exists i :: 0 <= i < |rows| && Get(rows[i], c) == v {
        if v in ix && v != last {
          assert v in fx;
          var i :| 0 <= i < n && Get(front[i], c) == v;
          assert front[i] == rows[i];
        }
        if v != Null && v != last && exists i :: 0 <= i < |rows| && Get(rows[i], c) == v {
          var i :| 0 <= i < |rows| && Get(rows[i], c) == v;
          assert i < n && front[i] == rows[i];
        }
      }
    }
  }

  /** A rebuilt index maps each value to the last row holding it. */
  lemma {:induction false} RebuildIndexLast(rows: seq<Row>, c: string)
    ensures forall v :: v in RebuildIndex(rows, c) ==> LastHolder(rows, c, v, RebuildIndex(rows, c)[v])
  {
    if rows != [] {
      var n := |rows| - 1;
      var front := rows[..n];
      RebuildIndexLast(front, c);
      var ix, fx, last := RebuildIndex(rows, c), RebuildIndex(front, c), Get(rows[n], c);
      forall v | v in ix ensures LastHolder(rows, c, v, ix[v]) {
        if v != last {
          assert v in fx && ix[v] == fx[v];
          assert LastHolder(front, c, v, fx[v]);
          var p := fx[v];
          assert front[p] == rows[p];
          forall j | p < j < |rows| ensures Get(rows[j], c) != v {
            if j < n {
              assert front[j] == rows[j];
            }
          }
        } else {
          RebuildIndexKeys(front, c);
          assert last != Null;
        }
      }
    }
  }

  /** No two rows share a non-None value in an indexed column. */
  predicate Unique(rows: seq<Row>, cols: set<string>)
  {
    forall c, i, j :: c in cols && 0 <= i < j < |rows| && Get(rows[i], c) != Null ==> Get(rows[i], c) != Get(rows[j], c)
  }

  /** Every non-None value of an indexed column is a key of that column's index: what makes the
      duplicate checks of insert and update see every row. */
  predicate Covers(rows: seq<Row>, ix: IndexSet, cols: set<string>)
  {
    forall c, i :: c in cols && 0 <= i < |rows| && Get(rows[i], c) != Null ==> c in ix && Get(rows[i], c) in ix[c]
  }

  /** A rebuilt index covers its rows. */
  lemma RebuildCovers(rows: seq<Row>, cols: set<string>)
    ensures Covers(rows, RebuildAll(rows, cols), cols)
  {
    forall c | c in cols {
      RebuildIndexSpec(rows, c);
    }
  }

  /** When the column is unique, a rebuilt index maps each value to the one row holding it. */
  lemma RebuildIndexOfUnique(rows: seq<Row>, cols: set<string>, c: string, i: nat)
    requires Unique(rows, cols) && c in cols
    requires i < |rows| && Get(rows[i], c) != Null
    ensures Get(rows[i], c) in RebuildIndex(rows, c) && RebuildIndex(rows, c)[Get(rows[i], c)] == i
  {
    RebuildIndexSpec(rows, c);
  }
}
