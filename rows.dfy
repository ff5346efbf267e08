/** Row selection: the equality predicate of `where` dicts, the order-preserving filter that
    `select`, `delete` and `update` scan rows with, and projection (engine.py lines 61-100). */
module Rows {
  import opened Values

  /** The positions, in ascending order, of the elements of `s` that satisfy `p`. */
  function Positions<T>(s: seq<T>, p: T -> bool): (ps: seq<nat>)
    ensures forall k :: 0 <= k < |ps| ==> ps[k] < |s|
  {
    if s == [] then []
    else Positions(s[..|s| - 1], p) + (if p(s[|s| - 1]) then [|s| - 1] else [])
  }

  /** The elements of `s` that satisfy `p`, in their order in `s`: a loop that appends each one it meets. */
  function Keep<T>(s: seq<T>, p: T -> bool): seq<T>
  {
    if s == [] then []
    else Keep(s[..|s| - 1], p) + (if p(s[|s| - 1]) then [s[|s| - 1]] else [])
  }

  predicate Ascending(ps: seq<nat>)
  {
    forall i, j :: 0 <= i < j < |ps| ==> ps[i] < ps[j]
  }

  /** Keep returns exactly the elements that satisfy `p`, each once, in their original order:
      its k-th element is the element at the k-th satisfying position. */
  lemma {:induction false} KeepSpec<T>(s: seq<T>, p: T -> bool)
    ensures var ps := Positions(s, p);
      && Ascending(ps)
      && (forall i :: i in ps <==> 0 <= i < |s| && p(s[i]))
      && |Keep(s, p)| == |ps|
      && (forall k :: 0 <= k < |ps| ==> Keep(s, p)[k] == s[ps[k]])
  {
    if s != [] {
      var n := |s| - 1;
      var front := s[..n];
      KeepSpec(front, p);
      var ps := Positions(s, p);
      var fs := Positions(front, p);
      assert forall i :: 0 <= i < n ==> front[i] == s[i];
      forall i ensures i in ps <==> 0 <= i < |s| && p(s[i]) {
        if i in fs { assert i < n; }
      }
      forall k | 0 <= k < |ps| ensures Keep(s, p)[k] == s[ps[k]] {
        if k < |fs| {
          assert Keep(s, p)[k] == Keep(front, p)[k];
          assert fs[k] in fs;
        }
      }
      forall i, j | 0 <= i < j < |ps| ensures ps[i] < ps[j] {
        if j == |fs| { assert ps[i] == fs[i] && fs[i] in fs; }
      }
    }
  }

  /** Every element satisfies `p`: nothing is dropped. */
  lemma {:induction false} KeepAll<T>(s: seq<T>, p: T -> bool)
    requires forall i :: 0 <= i < |s| ==> p(s[i])
    ensures Keep(s, p) == s
  {
    if s != [] {
      KeepAll(s[..|s| - 1], p);
      assert s[..|s| - 1] + [s[|s| - 1]] == s;
    }
  }

  /** No element satisfies `p`: nothing is kept. */
  lemma {:induction false} KeepNone<T>(s: seq<T>, p: T -> bool)
    requires forall i :: 0 <= i < |s| ==> !p(s[i])
    ensures Keep(s, p) == []
  {
    if s != [] {
      KeepNone(s[..|s| - 1], p);
    }
  }

  /** An element is kept exactly when it occurs and satisfies `p`. */
  lemma {:induction false} KeepMembers<T>(s: seq<T>, p: T -> bool, x: T)
    ensures x in Keep(s, p) <==> x in s && p(x)
  {
    if s != [] {
      var n := |s| - 1;
      KeepMembers(s[..n], p, x);
      assert s == s[..n] + [s[n]];
    }
  }

  // ---------------------------------------------------------------- where dicts

  /** A `where` dict; the empty dict stands for `where=None` (both are falsy in `if where:`). */
  type Where = map<string, Value>

  /** Every pair of the predicate equals the row's field (`row.get(col) != val` never holds). */
  predicate Matches(r: Row, w: Where)
  {
    forall c :: c in w ==> Get(r, c) == w[c]
  }

  /** The rows a predicate selects, in table order. */
  function Filter(rows: seq<Row>, w: Where): seq<Row>
  {
    Keep(rows, r => Matches(r, w))
  }

  /** The rows a predicate leaves, in table order: what `delete` keeps (lines 82-97). */
  function Reject(rows: seq<Row>, w: Where): seq<Row>
  {
    Keep(rows, r => !Matches(r, w))
  }

  /** The matching and the surviving rows together are all the rows. */
  lemma {:induction false} FilterRejectCount(rows: seq<Row>, w: Where)
    ensures |Filter(rows, w)| + |Reject(rows, w)| == |rows|
  {
    if rows != [] {
      FilterRejectCount(rows[..|rows| - 1], w);
    }
  }

  /** A predicate that matches no row removes nothing and keeps the order. */
  lemma RejectNothing(rows: seq<Row>, w: Where)
    requires forall i :: 0 <= i < |rows| ==> !Matches(rows[i], w)
    ensures Reject(rows, w) == rows && Filter(rows, w) == []
  {
    KeepAll(rows, r => !Matches(r, w));
    KeepNone(rows, r => Matches(r, w));
  }

  /** No predicate: every row matches. */
  lemma NoPredicateMatchesAll(rows: seq<Row>)
    ensures Filter(rows, map[]) == rows && Reject(rows, map[]) == []
  {
    KeepAll(rows, r => Matches(r, map[]));
    KeepNone(rows, r => !Matches(r, map[]));
  }

  // ---------------------------------------------------------------- select

  /** The `columns` argument of select: '*' or a list of column names. */
  datatype Columns = Star | Named(names: seq<string>)

  /** One result row: a copy of the row for '*', otherwise `{col: row.get(col) for col in columns}`. */
  function Shape(r: Row, cols: Columns): Row
  {
    match cols
    case Star => r
    case Named(names) => map c | c in names :: Get(r, c)
  }

  /** Table.select (lines 61-77): scan the rows, skip those the predicate rejects, shape the rest. */
  function SelectRows(rows: seq<Row>, cols: Columns, w: Where): seq<Row>
  {
    if rows == [] then []
    else
      var r := rows[|rows| - 1];
      SelectRows(rows[..|rows| - 1], cols, w) + (if Matches(r, w) then [Shape(r, cols)] else [])
  }

  /** select returns, in table order, one shaped row per matching row and nothing else; a named
      column the row lacks reads as None. */
  lemma {:induction false} SelectExact(rows: seq<Row>, cols: Columns, w: Where)
    ensures var sel, ps := SelectRows(rows, cols, w), Positions(rows, r => Matches(r, w));
      && |sel| == |ps| == |Filter(rows, w)|
      && (forall k :: 0 <= k < |sel| ==> sel[k] == Shape(rows[ps[k]], cols))
      && (forall k :: 0 <= k < |sel| ==> Matches(rows[ps[k]], w))
      && (forall k, c :: 0 <= k < |sel| && cols.Named? && c in cols.names ==> c in sel[k] && sel[k][c] == Get(rows[ps[k]], c))
  {
    KeepSpec(rows, r => Matches(r, w));
    SelectByPositions(rows, cols, w);
    var sel, ps := SelectRows(rows, cols, w), Positions(rows, r => Matches(r, w));
    forall k | 0 <= k < |sel| ensures Matches(rows[ps[k]], w) {
      assert ps[k] in ps;
    }
  }

  lemma {:induction false} SelectByPositions(rows: seq<Row>, cols: Columns, w: Where)
    ensures var sel, ps := SelectRows(rows, cols, w), Positions(rows, r => Matches(r, w));
      |sel| == |ps| && forall k :: 0 <= k < |sel| ==> sel[k] == Shape(rows[ps[k]], cols)
  {
    if rows != [] {
      var n := |rows| - 1;
      SelectByPositions(rows[..n], cols, w);
      var fs := Positions(rows[..n], r => Matches(r, w));
      KeepSpec(rows[..n], r => Matches(r, w));
      forall k | 0 <= k < |fs| ensures rows[..n][fs[k]] == rows[fs[k]] {
        assert fs[k] in fs;
      }
    }
  }

  /** `SELECT * FROM t` with no WHERE returns the table's rows, all of them, in order. */
  lemma {:induction false} SelectAllRows(rows: seq<Row>)
    ensures SelectRows(rows, Star, map[]) == rows
  {
    if rows != [] {
      SelectAllRows(rows[..|rows| - 1]);
      assert rows[..|rows| - 1] + [rows[|rows| - 1]] == rows;
    }
  }

  /** A one-pair predicate, as every statement builds, selects the rows whose field equals the literal. */
  lemma SingleEquality(r: Row, c: string, v: Value)
    ensures Matches(r, map[c := v]) <==> Get(r, c) == v
  {
    assert c in map[c := v];
  }
}
