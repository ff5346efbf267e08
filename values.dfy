/** Values, rows, column definitions and errors of the table store (dopedb/engine.py). */
module Values {

  datatype Option<+T> = None | Some(value: T) {
    predicate IsFailure() { None? }
    function PropagateFailure<U>(): Option<U> requires None? { None }
    function Extract(): T requires Some? { value }
  }

  /** A cell value: a Python int, a Python str, or None (a column the row was not given). */
  datatype Value = IntV(n: int) | TextV(s: string) | Null

  /** A row dict, column name to value. */
  type Row = map<string, Value>

  /** Python's `row.get(col)`: a missing column reads as None. */
  function Get(r: Row, c: string): Value
  {
    if c in r then r[c] else Null
  }

  /** The exceptions the engine raises, with the names and values their messages carry. */
  datatype Error =
    | InvalidSyntax                                      // no statement shape recognised
    | TableNotFound(table: string)                       // "Table {name} not found"
    | DuplicateKey(column: string, value: Value)         // raised by insert
    | DuplicateUniqueKey(column: string, value: Value)   // raised by update
    | UnknownColumn(column: string)                      // KeyError on table.columns[col]
    | NotAnInteger(text: string)                         // ValueError from int(text)
    | BadEquality(text: string)                          // `a, b = text.split('=')` did not unpack
    | BadColumnClause(text: string)                      // IndexError on parts[0] / parts[1]

  datatype Result<+T> = Ok(value: T) | Err(error: Error) {
    predicate IsFailure() { Err? }
    function PropagateFailure<U>(): Result<U> requires Err? { Err(error) }
    function Extract(): T requires Ok? { value }
  }

  /** The properties dict of one declared column: {'type': ..., 'primary_key': True?, 'unique': True?}. */
  datatype ColumnDef = ColumnDef(typ: string, primaryKey: bool, unique: bool)

  /** An insertion-ordered Python dict with string keys, as a sequence of (key, value) pairs. */
  type Dict<V> = seq<(string, V)>

  /** A table's `columns` dict in declared order. */
  type Schema = Dict<ColumnDef>

  function Keys<V>(d: Dict<V>): (ks: seq<string>)
    ensures |ks| == |d| && forall i :: 0 <= i < |d| ==> ks[i] == d[i].0
  {
    if d == [] then [] else [d[0].0] + Keys(d[1..])
  }

  predicate DistinctKeys<V>(d: Dict<V>)
  {
    forall i, j :: 0 <= i < j < |d| ==> d[i].0 != d[j].0
  }

  /** Python's `key in d and d[key]`. */
  function Find<V>(d: Dict<V>, k: string): (r: Option<V>)
    ensures r.Some? <==> k in Keys(d)
  {
    if d == [] then None
    else if d[0].0 == k then Some(d[0].1)
    else Find(d[1..], k)
  }

  /** What a lookup finds is the value paired with the key: the first such pair, which in a dict
      with distinct keys is the only one. */
  lemma {:induction false} FindSpec<V>(d: Dict<V>, k: string)
    ensures Find(d, k).Some? <==> k in Keys(d)
    ensures Find(d, k).Some? ==> (k, Find(d, k).value) in d
    ensures DistinctKeys(d) ==> forall i :: 0 <= i < |d| && d[i].0 == k ==> Find(d, k) == Some(d[i].1)
  {
    if d != [] && d[0].0 != k {
      FindSpec(d[1..], k);
      if DistinctKeys(d) {
        assert DistinctKeys(d[1..]) by {
          forall i, j | 0 <= i < j < |d| - 1 ensures d[1..][i].0 != d[1..][j].0 {
            assert d[1..][i] == d[i + 1] && d[1..][j] == d[j + 1];
          }
        }
        forall i | 0 <= i < |d| && d[i].0 == k ensures Find(d, k) == Some(d[i].1) {
          assert d[1..][i - 1] == d[i];
        }
      }
    }
  }

  /** Python's `d[k] = v`: a new key goes at the end, an existing key keeps its place and takes the new value. */
  function Put<V>(d: Dict<V>, k: string, v: V): Dict<V>
  {
    if d == [] then [(k, v)]
    else if d[0].0 == k then [(k, v)] + d[1..]
    else [d[0]] + Put(d[1..], k, v)
  }

  /** After `d[k] = v`, `k` holds `v` and every other key holds what it held. */
  lemma {:induction false} PutFind<V>(d: Dict<V>, k: string, v: V)
    ensures Find(Put(d, k, v), k) == Some(v)
    ensures forall k' :: k' != k ==> Find(Put(d, k, v), k') == Find(d, k')
  {
    if d != [] {
      var r := Put(d, k, v);
      if d[0].0 == k {
        assert r[1..] == d[1..];
      } else {
        PutFind(d[1..], k, v);
        assert r[1..] == Put(d[1..], k, v);
      }
    }
  }

  /** A new key goes at the end of the keys; an existing key keeps its place. */
  lemma {:induction false} PutKeys<V>(d: Dict<V>, k: string, v: V)
    ensures Keys(Put(d, k, v)) == if k in Keys(d) then Keys(d) else Keys(d) + [k]
  {
    if d != [] {
      var r := Put(d, k, v);
      assert Keys(d) == [d[0].0] + Keys(d[1..]);
      if d[0].0 == k {
        assert r[1..] == d[1..];
        assert Keys(r) == [k] + Keys(d[1..]);
      } else {
        var t := Put(d[1..], k, v);
        PutKeys(d[1..], k, v);
        assert r[1..] == t;
        assert Keys(r) == [d[0].0] + Keys(t);
        assert k in Keys(d) <==> k in Keys(d[1..]);
      }
    }
  }

  lemma PutKeepsKeysDistinct<V>(d: Dict<V>, k: string, v: V)
    requires DistinctKeys(d)
    ensures DistinctKeys(Put(d, k, v))
  {
    PutKeys(d, k, v);
    var ks, rs := Keys(d), Keys(Put(d, k, v));
    if k !in ks {
      forall i, j | 0 <= i < j < |rs| ensures rs[i] != rs[j] {
        if j == |ks| { assert rs[j] == k; assert rs[i] == ks[i]; }
      }
    }
  }

  /** Python's `str.upper()` on ASCII letters. */
  function UpperChar(c: char): char
  {
    if 'a' <= c <= 'z' then (c as int - 32) as char else c
  }

  function Upper(s: string): (u: string)
    ensures |u| == |s| && forall i :: 0 <= i < |s| ==> u[i] == UpperChar(s[i])
  {
    if s == [] then [] else [UpperChar(s[0])] + Upper(s[1..])
  }

  /** `columns[col]['type'].upper() == 'INT'`: the only test that makes a column numeric. */
  predicate IsIntColumn(d: ColumnDef)
  {
    Upper(d.typ) == "INT"
  }

  /** A column gets an index when it is PRIMARY KEY or UNIQUE (engine.py lines 13-15). */
  predicate IsIndexed(d: ColumnDef)
  {
    d.primaryKey || d.unique
  }

  /** The indexed column names, in declared order: the iteration order of `self.indexes`. */
  function IndexedNames(s: Schema): (r: seq<string>)
    ensures forall c :: c in r <==> exists i :: 0 <= i < |s| && s[i].0 == c && IsIndexed(s[i].1)
    ensures |r| <= |s|
  {
    if s == [] then []
    else IndexedNames(s[..|s| - 1]) + (if IsIndexed(s[|s| - 1].1) then [s[|s| - 1].0] else [])
  }

  /** Every indexed column is a declared column. */
  lemma {:induction false} IndexedAreColumns(s: Schema)
    ensures forall c :: c in IndexedNames(s) ==> c in Keys(s)
  {
    forall c | c in IndexedNames(s) ensures c in Keys(s) {
      var i :| 0 <= i < |s| && s[i].0 == c && IsIndexed(s[i].1);
      assert Keys(s)[i] == c;
    }
  }

  /** `self.primary_key`: the last column declared PRIMARY KEY, if any (engine.py lines 16-17). */
  function LastPrimaryKey(s: Schema): Option<string>
  {
    if s == [] then None
    else if s[|s| - 1].1.primaryKey then Some(s[|s| - 1].0)
    else LastPrimaryKey(s[..|s| - 1])
  }

  /** The primary key is None exactly when no column is declared PRIMARY KEY, and otherwise the
      name of the last column that is. */
  lemma LastPrimaryKeySpec(s: Schema)
    ensures LastPrimaryKey(s).None? <==> forall i :: 0 <= i < |s| ==> !s[i].1.primaryKey
    ensures LastPrimaryKey(s).Some? ==>
      exists i :: 0 <= i < |s| && s[i].0 == LastPrimaryKey(s).value && s[i].1.primaryKey
        && forall j :: i < j < |s| ==> !s[j].1.primaryKey
  {
    LastPrimaryKeyNone(s);
    LastPrimaryKeySome(s);
  }

  lemma {:induction false} LastPrimaryKeyNone(s: Schema)
    ensures LastPrimaryKey(s).None? <==> forall i :: 0 <= i < |s| ==> !s[i].1.primaryKey
  {
    if s != [] && !s[|s| - 1].1.primaryKey {
      var front := s[..|s| - 1];
      LastPrimaryKeyNone(front);
      assert forall i :: 0 <= i < |front| ==> front[i] == s[i];
    }
  }

  lemma {:induction false} LastPrimaryKeySome(s: Schema)
    ensures LastPrimaryKey(s).Some? ==>
      exists i :: 0 <= i < |s| && s[i].0 == LastPrimaryKey(s).value && s[i].1.primaryKey
        && forall j :: i < j < |s| ==> !s[j].1.primaryKey
  {
    if s != [] {
      var n := |s| - 1;
      if s[n].1.primaryKey {
        assert s[n].0 == LastPrimaryKey(s).value;
      } else {
        var front := s[..n];
        LastPrimaryKeySome(front);
        if LastPrimaryKey(front).Some? {
          var i :| 0 <= i < |front| && front[i].0 == LastPrimaryKey(front).value && front[i].1.primaryKey
            && forall j :: i < j < |front| ==> !front[j].1.primaryKey;
          assert front[i] == s[i];
          assert forall j :: i < j < n ==> front[j] == s[j];
          assert s[i].0 == LastPrimaryKey(s).value && s[i].1.primaryKey && forall j :: i < j < |s| ==> !s[j].1.primaryKey;
        }
      }
    }
  }
}
