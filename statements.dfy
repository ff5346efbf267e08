/** What `Database.execute` makes of a recognised statement's groups before it calls the table
    (engine.py lines 155-295): column definitions, INSERT rows, SET lists, WHERE conditions, the
    column list of a SELECT, and the nested-loop JOIN. */
module Statements {
  import opened Values
  import opened Text
  import opened Csv
  import opened Rows

  // ---------------------------------------------------------------- dict-building loops

  /** A loop that parses each piece into a key and a value and assigns `d[key] = value`; the first
      piece that does not parse raises. CREATE (lines 159-168), INSERT (lines 192-196) and
      UPDATE (lines 261-266) each build their dict this way. */
  function Collect<T, V>(pieces: seq<T>, parse: T -> Result<(string, V)>): Result<Dict<V>>
  {
    if pieces == [] then Ok([])
    else
      var d :- Collect(pieces[..|pieces| - 1], parse);
      var kv :- parse(pieces[|pieces| - 1]);
      Ok(Put(d, kv.0, kv.1))
  }

  /** The piece at `i` is the first one that does not parse. */
  predicate FirstFailure<T, V>(pieces: seq<T>, parse: T -> Result<(string, V)>, i: nat)
  {
    i < |pieces| && parse(pieces[i]).Err? && forall j :: 0 <= j < i ==> parse(pieces[j]).Ok?
  }

  /** The loop completes exactly when every piece parses. */
  lemma {:induction false} CollectOk<T, V>(pieces: seq<T>, parse: T -> Result<(string, V)>)
    ensures Collect(pieces, parse).Ok? <==> forall i :: 0 <= i < |pieces| ==> parse(pieces[i]).Ok?
  {
    if pieces != [] {
      var n := |pieces| - 1;
      var front := pieces[..n];
      CollectOk(front, parse);
      assert forall i :: 0 <= i < n ==> front[i] == pieces[i];
    }
  }

  /** The loop raises the error of the first piece that does not parse. */
  lemma {:induction false} CollectStops<T, V>(pieces: seq<T>, parse: T -> Result<(string, V)>, i: nat)
    requires FirstFailure(pieces, parse, i)
    ensures Collect(pieces, parse) == Err(parse(pieces[i]).error)
  {
    var n := |pieces| - 1;
    var front := pieces[..n];
    assert forall j :: 0 <= j < n ==> front[j] == pieces[j];
    if i == n {
      CollectOk(front, parse);
    } else {
      CollectStops(front, parse, i);
    }
  }

  /** Once a prefix has raised, the later pieces are not looked at. */
  lemma {:induction false} CollectErrStays<T, V>(pieces: seq<T>, parse: T -> Result<(string, V)>, k: nat)
    requires k <= |pieces| && Collect(pieces[..k], parse).Err?
    ensures Collect(pieces, parse) == Collect(pieces[..k], parse)
    decreases |pieces| - k
  {
    if k < |pieces| {
      var n := |pieces| - 1;
      assert pieces[..n][..k] == pieces[..k];
      CollectErrStays(pieces[..n], parse, k);
    } else {
      assert pieces[..k] == pieces;
    }
  }

  /** The dict has each key once, and its keys are exactly those of the pieces. */
  lemma CollectKeys<T, V>(pieces: seq<T>, parse: T -> Result<(string, V)>)
    requires Collect(pieces, parse).Ok?
    ensures var d := Collect(pieces, parse).value;
      && DistinctKeys(d)
      && forall c :: c in Keys(d) <==> exists i :: 0 <= i < |pieces| && parse(pieces[i]).Ok? && parse(pieces[i]).value.0 == c
  {
    CollectDistinct(pieces, parse);
    CollectNames(pieces, parse);
    forall c {
      NamesSpec(pieces, parse, c);
    }
  }

  lemma {:induction false} CollectDistinct<T, V>(pieces: seq<T>, parse: T -> Result<(string, V)>)
    requires Collect(pieces, parse).Ok?
    ensures DistinctKeys(Collect(pieces, parse).value)
  {
    if pieces != [] {
      var front := pieces[..|pieces| - 1];
      var kv := parse(pieces[|pieces| - 1]).value;
      CollectDistinct(front, parse);
      PutKeepsKeysDistinct(Collect(front, parse).value, kv.0, kv.1);
    }
  }

  /** The names of the pieces that parse. */
  function Names<T, V>(pieces: seq<T>, parse: T -> Result<(string, V)>): set<string>
  {
    if pieces == [] then {}
    else
      var last := parse(pieces[|pieces| - 1]);
      Names(pieces[..|pieces| - 1], parse) + (if last.Ok? then {last.value.0} else {})
  }

  lemma {:induction false} NamesSpec<T, V>(pieces: seq<T>, parse: T -> Result<(string, V)>, c: string)
    ensures c in Names(pieces, parse) <==>
      exists i :: 0 <= i < |pieces| && parse(pieces[i]).Ok? && parse(pieces[i]).value.0 == c
  {
    if pieces != [] {
      var n := |pieces| - 1;
      var front := pieces[..n];
      NamesSpec(front, parse, c);
      if c in Names(front, parse) {
        var i :| 0 <= i < n && parse(front[i]).Ok? && parse(front[i]).value.0 == c;
        assert pieces[i] == front[i];
      }
      forall i | 0 <= i < n && parse(pieces[i]).Ok? && parse(pieces[i]).value.0 == c
        ensures c in Names(front, parse)
      {
        assert pieces[i] == front[i];
      }
    }
  }

  lemma {:induction false} CollectNames<T, V>(pieces: seq<T>, parse: T -> Result<(string, V)>)
    requires Collect(pieces, parse).Ok?
    ensures forall c :: c in Keys(Collect(pieces, parse).value) <==> c in Names(pieces, parse)
  {
    if pieces != [] {
      var n := |pieces| - 1;
      var front := pieces[..n];
      var f := Collect(front, parse).value;
      var kv := parse(pieces[n]).value;
      assert Collect(pieces, parse) == Ok(Put(f, kv.0, kv.1));
      assert Names(pieces, parse) == Names(front, parse) + {kv.0};
      CollectNames(front, parse);
      PutKeys(f, kv.0, kv.1);
    }
  }

  /** A key takes the value of the last piece that names it. */
  lemma {:induction false} CollectLast<T, V>(pieces: seq<T>, parse: T -> Result<(string, V)>, i: nat)
    requires Collect(pieces, parse).Ok? && i < |pieces| && parse(pieces[i]).Ok?
    requires forall j :: i < j < |pieces| && parse(pieces[j]).Ok? ==> parse(pieces[j]).value.0 != parse(pieces[i]).value.0
    ensures Find(Collect(pieces, parse).value, parse(pieces[i]).value.0) == Some(parse(pieces[i]).value.1)
  {
    var n := |pieces| - 1;
    var front := pieces[..n];
    var f := Collect(front, parse).value;
    var kv := parse(pieces[n]).value;
    PutFind(f, kv.0, kv.1);
    if i < n {
      assert forall j :: 0 <= j < n ==> front[j] == pieces[j];
      CollectLast(front, parse, i);
    }
  }

  /** The loop itself: one piece at a time, assigning into the dict. */
  method CollectLoop<T, V>(pieces: seq<T>, parse: T -> Result<(string, V)>) returns (r: Result<Dict<V>>)
    ensures r == Collect(pieces, parse)
  {
    var d: Dict<V> := [];
    var i := 0;
    while i < |pieces|
      invariant 0 <= i <= |pieces|
      invariant Collect(pieces[..i], parse) == Ok(d)
    {
      assert pieces[..i + 1][..i] == pieces[..i];
      var kv := parse(pieces[i]);
      if kv.Err? {
        CollectErrStays(pieces, parse, i + 1);
        return Err(kv.error);
      }
      d := Put(d, kv.value.0, kv.value.1);
      i := i + 1;
    }
    assert pieces[..i] == pieces;
    r := Ok(d);
  }

  // ---------------------------------------------------------------- CREATE (lines 155-168)

  /** One comma-separated piece of the column list: name and type are the first two words, and the
      flags are looked for anywhere in the upper-cased piece. A piece with fewer than two words
      raises IndexError. */
  function ParseColumn(col: string): Result<(string, ColumnDef)>
  {
    var parts := Words(Strip(col));
    if |parts| < 2 then Err(BadColumnClause(col))
    else
      var u := Upper(col);
      Ok((parts[0], ColumnDef(parts[1], Contains(u, "PRIMARY") && Contains(u, "KEY"), Contains(u, "UNIQUE"))))
  }

  /** A word runs up to the first blank. */
  lemma WordLengthAt(s: string, n: nat)
    requires n <= |s| && (n < |s| ==> IsSpace(s[n]))
    requires forall i :: 0 <= i < n ==> !IsSpace(s[i])
    ensures WordLength(s) == n
  {
  }

  /** A piece without blanks is one word. */
  lemma WordsOne(b: string)
    requires b != [] && forall i :: 0 <= i < |b| ==> !IsSpace(b[i])
    ensures Words(b) == [b]
  {
    WordLengthAt(b, |b|);
    assert b[..|b|] == b && b[|b|..] == [];
  }

  /** Two blank-free words with one blank between them. */
  lemma WordsTwo(a: string, b: string)
    requires a != [] && b != []
    requires forall i :: 0 <= i < |a| ==> !IsSpace(a[i])
    requires forall i :: 0 <= i < |b| ==> !IsSpace(b[i])
    ensures Words(a + " " + b) == [a, b]
  {
    var s := a + " " + b;
    assert s[..|a|] == a && s[|a|..] == " " + b;
    assert WordLength(s) == |a| by {
      assert forall i :: 0 <= i < |a| ==> s[i] == a[i];
      WordLengthAt(s, |a|);
    }
    assert Words(s) == [a] + Words(" " + b);
    assert Words(" " + b) == Words(b) by {
      assert (" " + b)[1..] == b;
    }
    WordsOne(b);
  }

  /** The flags are found by substring anywhere in the piece, so a column whose name contains
      "unique" in any case, as `unique_code TEXT` does, is a unique column. */
  lemma UniqueInName(name: string, typ: string, i: nat)
    requires name != [] && typ != []
    requires forall k :: 0 <= k < |name| ==> !IsSpace(name[k])
    requires forall k :: 0 <= k < |typ| ==> !IsSpace(typ[k])
    requires OccursAt(Upper(name), "UNIQUE", i)
    ensures var r := ParseColumn(name + " " + typ);
      r.Ok? && r.value.0 == name && r.value.1.typ == typ && r.value.1.unique
  {
    ParseColumnTwo(name, typ);
    UpperContains(name, typ, "UNIQUE", i);
  }

  /** A piece of exactly two words: the first is the name and the second the type. */
  lemma ParseColumnTwo(name: string, typ: string)
    requires name != [] && typ != []
    requires forall k :: 0 <= k < |name| ==> !IsSpace(name[k])
    requires forall k :: 0 <= k < |typ| ==> !IsSpace(typ[k])
    ensures var col := name + " " + typ; var u := Upper(col);
      ParseColumn(col) == Ok((name, ColumnDef(typ, Contains(u, "PRIMARY") && Contains(u, "KEY"), Contains(u, "UNIQUE"))))
  {
    var col := name + " " + typ;
    assert Words(Strip(col)) == [name, typ] by {
      assert col[0] == name[0] && col[|col| - 1] == typ[|typ| - 1];
      StripNoop(col);
      WordsTwo(name, typ);
    }
  }

  /** What the upper-cased first word contains, the upper-cased piece contains. */
  lemma UpperContains(a: string, b: string, sub: string, i: nat)
    requires OccursAt(Upper(a), sub, i)
    ensures Contains(Upper(a + " " + b), sub)
  {
    var s := a + " " + b;
    var u, ua := Upper(s), Upper(a);
    assert u[..|a|] == ua by {
      forall k | 0 <= k < |a| ensures u[k] == ua[k] {
        assert s[k] == a[k];
      }
    }
    assert u[i..i + |sub|] == u[..|a|][i..i + |sub|];
    assert OccursAt(u, sub, i);
    ContainsSpec(u, sub);
  }

  /** With more than one '=' or a trailing separator, splitting leaves an empty last piece. */
  lemma {:induction false} SplitTrailing(s: string, sep: char)
    ensures var ps := Split(s + [sep], sep); |ps| >= 2 && ps[|ps| - 1] == []
  {
    var t := s + [sep];
    if s == [] {
      assert t[1..] == [];
    } else {
      assert t[1..] == s[1..] + [sep];
      SplitTrailing(s[1..], sep);
    }
  }

  /** A trailing comma in the column list leaves an empty piece, which has no name and no type. */
  lemma TrailingComma(body: string)
    ensures ColumnDefs(body + ",").Err?
  {
    var ps := Split(body + ",", ',');
    SplitTrailing(body, ',');
    assert ps[|ps| - 1] == [];
    assert Strip([]) == [];
    var parse: string -> Result<(string, ColumnDef)> := ParseColumn;
    assert !parse(ps[|ps| - 1]).Ok?;
    CollectOk(ps, parse);
  }

  /** The `columns` dict of CREATE TABLE: group 2 split on every comma, each piece a column. */
  function ColumnDefs(body: string): Result<Schema>
  {
    Collect(Split(body, ','), ParseColumn)
  }

  /** The columns dict a CREATE builds names each column once, in the order of first mention; its
      keys are exactly the names of the pieces, and a column declared twice keeps its last definition. */
  lemma ColumnDefsShape(body: string)
    requires ColumnDefs(body).Ok?
    ensures var s, ps := ColumnDefs(body).value, Split(body, ',');
      && DistinctKeys(s)
      && (forall i :: 0 <= i < |ps| ==> ParseColumn(ps[i]).Ok? && ParseColumn(ps[i]).value.0 in Keys(s))
      && (forall c :: c in Keys(s) ==> exists i :: 0 <= i < |ps| && ParseColumn(ps[i]).Ok? && ParseColumn(ps[i]).value.0 == c)
  {
    var ps := Split(body, ',');
    var parse: string -> Result<(string, ColumnDef)> := ParseColumn;
    CollectOk(ps, parse);
    CollectKeys(ps, parse);
    var s := ColumnDefs(body).value;
    forall i | 0 <= i < |ps| ensures ParseColumn(ps[i]).Ok? && ParseColumn(ps[i]).value.0 in Keys(s) {
      assert parse(ps[i]) == ParseColumn(ps[i]);
    }
    forall c | c in Keys(s) ensures exists i :: 0 <= i < |ps| && ParseColumn(ps[i]).Ok? && ParseColumn(ps[i]).value.0 == c {
      var i :| 0 <= i < |ps| && parse(ps[i]).Ok? && parse(ps[i]).value.0 == c;
      assert parse(ps[i]) == ParseColumn(ps[i]);
    }
  }

  /** A column declared more than once keeps the definition of its last piece. */
  lemma ColumnDefsLast(body: string, i: nat)
    requires ColumnDefs(body).Ok?
    requires var ps := Split(body, ',');
      && i < |ps| && ParseColumn(ps[i]).Ok?
      && forall j :: i < j < |ps| ==> ParseColumn(ps[j]).Ok? ==> ParseColumn(ps[j]).value.0 != ParseColumn(ps[i]).value.0
    ensures var c := ParseColumn(Split(body, ',')[i]).value; Find(ColumnDefs(body).value, c.0) == Some(c.1)
  {
    var ps := Split(body, ',');
    var parse: string -> Result<(string, ColumnDef)> := ParseColumn;
    assert parse(ps[i]) == ParseColumn(ps[i]);
    forall j | i < j < |ps| && parse(ps[j]).Ok? ensures parse(ps[j]).value.0 != parse(ps[i]).value.0 {
      assert parse(ps[j]) == ParseColumn(ps[j]);
    }
    CollectLast(ps, parse, i);
  }

  // ---------------------------------------------------------------- literals

  /** `int(text)` for a column declared INT, the text itself otherwise. */
  function Coerce(d: ColumnDef, text: string): Result<Value>
  {
    if IsIntColumn(d) then
      match ParseInt(text)
      case Some(n) => Ok(IntV(n))
      case None => Err(NotAnInteger(text))
    else Ok(TextV(text))
  }

  /** An INT column gets an int or raises; any other column keeps the text. */
  lemma CoerceKinds(d: ColumnDef, text: string)
    ensures var v := Coerce(d, text);
      && (v.Err? <==> IsIntColumn(d) && ParseInt(text).None?)
      && (v.Ok? && IsIntColumn(d) ==> v.value == IntV(ParseInt(text).value))
      && (!IsIntColumn(d) ==> v == Ok(TextV(text)))
  {
  }

  /** A number written in decimal is read back as that number by an INT column. */
  lemma CoerceShow(d: ColumnDef, n: int)
    requires IsIntColumn(d)
    ensures Coerce(d, Show(n)) == Ok(IntV(n))
  {
    ParseShow(n);
  }

  /** `table.columns[col]` (KeyError for an undeclared column), then the literal coerced by the
      column's type: one INSERT pair and one SET assignment. */
  function Typed(schema: Schema, col: string, text: string): Result<(string, Value)>
  {
    match Find(schema, col)
    case None => Err(UnknownColumn(col))
    case Some(d) =>
      var v :- Coerce(d, text);
      Ok((col, v))
  }

  // ---------------------------------------------------------------- INSERT (lines 177-196)

  /** `[c.strip() for c in group(2).split(',')]` */
  function InsertColumns(text: string): seq<string>
  {
    StripEach(Split(text, ','))
  }

  /** `[v.strip() for v in next(csv.reader([group(3)], ...))]` */
  function InsertValues(text: string): seq<string>
  {
    StripEach(Fields(text))
  }

  function StripEach(ps: seq<string>): (r: seq<string>)
    ensures |r| == |ps| && forall i :: 0 <= i < |ps| ==> r[i] == Strip(ps[i])
  {
    seq(|ps|, i requires 0 <= i < |ps| => Strip(ps[i]))
  }

  /** `zip(cols, vals)`: pairs up to the shorter list. */
  function Zip(cols: seq<string>, vals: seq<string>): (z: seq<(string, string)>)
    ensures |z| == (if |cols| < |vals| then |cols| else |vals|)
    ensures forall i :: 0 <= i < |z| ==> z[i] == (cols[i], vals[i])
  {
    var n := if |cols| < |vals| then |cols| else |vals|;
    seq(n, i requires 0 <= i < n => (cols[i], vals[i]))
  }

  function InsertPair(schema: Schema): ((string, string)) -> Result<(string, Value)>
  {
    (p: (string, string)) => Typed(schema, p.0, p.1)
  }

  /** A dict with distinct keys as the row dict it stands for. */
  function ToRow(d: Dict<Value>): Row
  {
    map c | c in Keys(d) :: Find(d, c).value
  }

  /** The `row_data` dict of INSERT. */
  function RowData(schema: Schema, cols: seq<string>, vals: seq<string>): Result<Row>
  {
    var d :- Collect(Zip(cols, vals), InsertPair(schema));
    Ok(ToRow(d))
  }

  /** INSERT's row holds a value for exactly the listed columns that have a value beside them
      (zip stops at the shorter list), each coerced by its declared type, the last one winning
      when a column is listed twice; it raises for the first pair whose column is undeclared or
      whose INT value does not parse. */
  lemma RowDataSpec(schema: Schema, cols: seq<string>, vals: seq<string>)
    ensures var z := Zip(cols, vals);
      && (RowData(schema, cols, vals).Ok? <==> forall i :: 0 <= i < |z| ==> Typed(schema, z[i].0, z[i].1).Ok?)
      && (RowData(schema, cols, vals).Ok? ==> forall c :: c in RowData(schema, cols, vals).value <==> c in cols[..|z|])
  {
    var z := Zip(cols, vals);
    var parse := InsertPair(schema);
    CollectOk(z, parse);
    if RowData(schema, cols, vals).Ok? {
      CollectKeys(z, parse);
      var row := RowData(schema, cols, vals).value;
      forall c ensures c in row <==> c in cols[..|z|] {
        if c in cols[..|z|] {
          var i :| 0 <= i < |z| && cols[..|z|][i] == c;
          assert parse(z[i]).value.0 == c;
        }
      }
    }
  }

  /** A column listed once gets its own value. */
  lemma RowDataValue(schema: Schema, cols: seq<string>, vals: seq<string>, i: nat)
    requires RowData(schema, cols, vals).Ok? && i < |cols| && i < |vals|
    requires forall j :: i < j < |cols| && j < |vals| ==> cols[j] != cols[i]
    ensures Typed(schema, cols[i], vals[i]).Ok?
    ensures cols[i] in RowData(schema, cols, vals).value
    ensures RowData(schema, cols, vals).value[cols[i]] == Typed(schema, cols[i], vals[i]).value.1
  {
    var z := Zip(cols, vals);
    var parse := InsertPair(schema);
    CollectOk(z, parse);
    CollectLast(z, parse, i);
  }

  /** The first pair that fails decides INSERT's error. */
  lemma RowDataStops(schema: Schema, cols: seq<string>, vals: seq<string>, i: nat)
    requires i < |cols| && i < |vals| && Typed(schema, cols[i], vals[i]).Err?
    requires forall j :: 0 <= j < i ==> Typed(schema, cols[j], vals[j]).Ok?
    ensures RowData(schema, cols, vals) == Err(Typed(schema, cols[i], vals[i]).error)
  {
    CollectStops(Zip(cols, vals), InsertPair(schema), i);
  }

  // ---------------------------------------------------------------- WHERE and SET (lines 211-219, 260-273, 288-295)

  /** `a, b = [x.strip() for x in text.split('=')]` and then `b.strip("'").strip('"')`: the column and
      the literal of one equation. Any number of '=' other than one fails to unpack. */
  function Equation(text: string): Result<(string, string)>
  {
    var parts := Split(text, '=');
    if |parts| != 2 then Err(BadEquality(text))
    else Ok((Strip(parts[0]), Unquote(Strip(parts[1]))))
  }

  /** One WHERE condition: the literal becomes an int only for a column the table declares INT; a
      column the table does not declare keeps the text. */
  function WhereCondition(schema: Schema, text: string): Result<(string, Value)>
  {
    var e :- Equation(text);
    match Find(schema, e.0)
    case None => Ok((e.0, TextV(e.1)))
    case Some(d) =>
      var v :- Coerce(d, e.1);
      Ok((e.0, v))
  }

  /** The `where` of a statement: None when the group did not take part or is empty (`if where_str:`). */
  function WhereClause(schema: Schema, text: Option<string>): Result<Option<(string, Value)>>
  {
    if text.None? || text.value == [] then Ok(None)
    else
      var p :- WhereCondition(schema, text.value);
      Ok(Some(p))
  }

  /** The `where` dict `{w_col: w_val}` handed to a table; the empty dict stands for None. */
  function AsWhere(p: Option<(string, Value)>): Where
  {
    if p.None? then map[] else map[p.value.0 := p.value.1]
  }

  /** One SET assignment: an equation whose column the table must declare. */
  function Assignment(schema: Schema): string -> Result<(string, Value)>
  {
    (pair: string) =>
      var e :- Equation(pair);
      Typed(schema, e.0, e.1)
  }

  /** The `updates` dict of UPDATE, from the stripped SET group split on every comma. */
  function Assignments(schema: Schema, setText: string): Result<Dict<Value>>
  {
    Collect(Split(setText, ','), Assignment(schema))
  }

  /** The updates dict names each column once, so a column assigned twice keeps its last value;
      it exists exactly when every assignment parses and names a declared column. */
  lemma AssignmentsShape(schema: Schema, setText: string)
    ensures Assignments(schema, setText).Ok? <==>
      forall pair :: pair in Split(setText, ',') ==> Assignment(schema)(pair).Ok?
    ensures Assignments(schema, setText).Ok? ==> DistinctKeys(Assignments(schema, setText).value)
  {
    var ps := Split(setText, ',');
    var parse := Assignment(schema);
    assert Assignments(schema, setText) == Collect(ps, parse);
    CollectOk(ps, parse);
    if Assignments(schema, setText).Ok? {
      CollectKeys(ps, parse);
      forall pair | pair in ps ensures Assignment(schema)(pair).Ok? {
        var i :| 0 <= i < |ps| && ps[i] == pair;
        assert parse(ps[i]).Ok?;
      }
    } else {
      var i :| 0 <= i < |ps| && !parse(ps[i]).Ok?;
      assert ps[i] in ps && !Assignment(schema)(ps[i]).Ok?;
    }
  }

  /** The stripping of a literal that has no blank at either end and no quote at either end. */
  lemma StripPadded(x: string)
    requires x != [] && !IsSpace(x[0]) && !IsSpace(x[|x| - 1])
    ensures Strip(" " + x) == x && Strip(x + " ") == x && Strip(x) == x
  {
    var a, b := " " + x, x + " ";
    TrimStartOne(a, IsSpace);
    assert a[1..] == x;
    TrimStartDone(x, IsSpace);
    TrimEndDone(x, IsSpace);
    TrimStartDone(b, IsSpace);
    TrimEndOne(b, IsSpace);
    assert b[..|x|] == x;
  }

  /** `c = lit` with single blanks around the '=' gives back the column and the unquoted literal. */
  lemma EquationCanonical(c: string, lit: string)
    requires c != [] && '=' !in c && !IsSpace(c[0]) && !IsSpace(c[|c| - 1])
    requires lit != [] && '=' !in lit && !IsSpace(lit[0]) && !IsSpace(lit[|lit| - 1])
    ensures Equation(c + " = " + lit) == Ok((c, Unquote(lit)))
  {
    var tail := " " + lit;
    assert Split(tail, '=') == [tail] by {
      SplitPlain(tail, [], '=');
      assert tail + [] == tail;
    }
    assert Split("=" + tail, '=') == [[], tail] by {
      assert ("=" + tail)[1..] == tail;
    }
    SplitPlain(c + " ", "=" + tail, '=');
    assert c + " = " + lit == (c + " ") + ("=" + tail);
    assert (c + " ") + [] == c + " ";
    StripPadded(c);
    StripPadded(lit);
  }

  /** A number has no quote to lose. */
  lemma UnquoteShow(n: int)
    ensures Unquote(Show(n)) == Show(n)
  {
    var s := Show(n);
    assert s[0] == '-' || IsDigit(s[0]);
    assert IsDigit(s[|s| - 1]);
    TrimStartDone(s, IsSingleQuote);
    TrimEndDone(s, IsSingleQuote);
    TrimStartDone(s, IsDoubleQuote);
    TrimEndDone(s, IsDoubleQuote);
  }

  /** The digits of a number have no '=' and no blank. */
  lemma ShowPlain(n: int)
    ensures var s := Show(n); s != [] && '=' !in s && !IsSpace(s[0]) && !IsSpace(s[|s| - 1])
  {
    var s := Show(n);
    assert s[0] == '-' || IsDigit(s[0]);
    assert IsDigit(s[|s| - 1]);
    assert forall k :: 0 <= k < |s| ==> s[k] == '-' || IsDigit(s[k]);
  }

  /** `WHERE c = n` on a column the table declares INT compares with the int n. */
  lemma WhereInt(schema: Schema, c: string, n: int)
    requires c != [] && '=' !in c && !IsSpace(c[0]) && !IsSpace(c[|c| - 1])
    requires Find(schema, c).Some? && IsIntColumn(Find(schema, c).value)
    ensures WhereCondition(schema, c + " = " + Show(n)) == Ok((c, IntV(n)))
  {
    ShowPlain(n);
    EquationCanonical(c, Show(n));
    UnquoteShow(n);
    CoerceShow(Find(schema, c).value, n);
  }

  /** `WHERE c = n` on a column the table does not declare INT, or does not declare at all,
      compares with the text of n: the quirk that makes a JOIN's condition on a column of the
      second table, or on a qualified name, never equal an int. */
  lemma WhereNotInt(schema: Schema, c: string, n: int)
    requires c != [] && '=' !in c && !IsSpace(c[0]) && !IsSpace(c[|c| - 1])
    requires Find(schema, c).None? || !IsIntColumn(Find(schema, c).value)
    ensures WhereCondition(schema, c + " = " + Show(n)) == Ok((c, TextV(Show(n))))
  {
    ShowPlain(n);
    EquationCanonical(c, Show(n));
    UnquoteShow(n);
  }

  /** `WHERE c = 't'` loses the quotes; a column declared INT then reads the text as a number. */
  lemma WhereQuoted(schema: Schema, c: string, t: string)
    requires c != [] && '=' !in c && !IsSpace(c[0]) && !IsSpace(c[|c| - 1])
    requires '=' !in t && (t == [] || (t[0] != '\'' && t[0] != '"' && t[|t| - 1] != '\'' && t[|t| - 1] != '"'))
    ensures var lit := "'" + t + "'";
      WhereCondition(schema, c + " = " + lit) == (match Find(schema, c)
        case None => Ok((c, TextV(t)))
        case Some(d) => var v :- Coerce(d, t); Ok((c, v)))
  {
    var lit := "'" + t + "'";
    assert '=' !in lit;
    EquationCanonical(c, lit);
    UnquoteQuoted('\'', t);
  }

  /** WHERE raises exactly when the text is not one equation, or when its column is declared INT
      and the literal is not a number. */
  lemma WhereConditionErrors(schema: Schema, text: string)
    ensures var e := Equation(text);
      WhereCondition(schema, text).Err? <==>
        e.Err? || (Find(schema, e.value.0).Some? && IsIntColumn(Find(schema, e.value.0).value) && ParseInt(e.value.1).None?)
  {
  }

  // ---------------------------------------------------------------- SELECT's column list (line 247)

  /** `'*' if cols_str == '*' else [c.strip() for c in cols_str.split(',')]` on the stripped group 1. */
  function SelectColumns(text: string): Columns
  {
    var t := Strip(text);
    if t == "*" then Star else Named(StripEach(Split(t, ',')))
  }

  lemma {:induction false} JoinEnds(ns: seq<string>, sep: char)
    requires ns != [] && forall k :: 0 <= k < |ns| ==> ns[k] != []
    ensures var j := Join(ns, sep); j != [] && j[0] == ns[0][0] && j[|j| - 1] == ns[|ns| - 1][|ns[|ns| - 1]| - 1]
  {
    if |ns| > 1 {
      JoinEnds(ns[1..], sep);
    }
  }

  /** A list of names, each without a comma or surrounding blanks, comes back as those names. */
  lemma SelectColumnsNames(ns: seq<string>)
    requires ns != [] && Join(ns, ',') != "*"
    requires forall k :: 0 <= k < |ns| ==> ns[k] != [] && ',' !in ns[k] && !IsSpace(ns[k][0]) && !IsSpace(ns[k][|ns[k]| - 1])
    ensures SelectColumns(Join(ns, ',')) == Named(ns)
  {
    var j := Join(ns, ',');
    JoinEnds(ns, ',');
    StripNoop(j);
    assert Strip(j) == j;
    SplitJoin(ns, ',');
    var named := StripEach(Split(j, ','));
    assert |named| == |ns|;
    forall k | 0 <= k < |ns| ensures named[k] == ns[k] {
      StripNoop(ns[k]);
    }
    assert named == ns;
  }

  // ---------------------------------------------------------------- JOIN (lines 221-245)

  /** The qualified names `table.k` of a row's columns. */
  function QualifiedNames(table: string, r: Row): set<string>
  {
    set k | k in r :: table + "." + k
  }

  /** `{f"{table}.{k}": v for k, v in row.items()}`: the value under `table.k` is the row's under `k`. */
  function Qualify(table: string, r: Row): Row
  {
    map q | q in QualifiedNames(table, r) && |table| < |q| && q[|table| + 1..] in r :: r[q[|table| + 1..]]
  }

  lemma PrefixCancel(a: string, x: string, y: string)
    requires a + x == a + y
    ensures x == y
  {
    assert x == (a + x)[|a|..];
  }

  /** The merged row: the first table's columns qualified, then the second's written over them
      (`merged.update`), so in a self-join the second copy wins. */
  function Merge(t1: string, r1: Row, t2: string, r2: Row): Row
  {
    Qualify(t1, r1) + Qualify(t2, r2)
  }

  /** The inner loop for one row `r1`: a merged row for each row of the second table whose join
      value equals `r1`'s, in the second table's order. */
  function Pairings(t1: string, r1: Row, t2: string, rows2: seq<Row>, c1: string, c2: string): seq<Row>
  {
    if rows2 == [] then []
    else
      var last := rows2[|rows2| - 1];
      Pairings(t1, r1, t2, rows2[..|rows2| - 1], c1, c2)
        + (if Get(r1, c1) == Get(last, c2) then [Merge(t1, r1, t2, last)] else [])
  }

  /** The nested loops: the pairings of each row of the first table, in its order. */
  function JoinRows(t1: string, rows1: seq<Row>, t2: string, rows2: seq<Row>, c1: string, c2: string): seq<Row>
  {
    if rows1 == [] then []
    else
      var n := |rows1| - 1;
      JoinRows(t1, rows1[..n], t2, rows2, c1, c2) + Pairings(t1, rows1[n], t2, rows2, c1, c2)
  }

  lemma {:induction false} PairingsMembers(t1: string, r1: Row, t2: string, rows2: seq<Row>, c1: string, c2: string, m: Row)
    ensures m in Pairings(t1, r1, t2, rows2, c1, c2) <==>
      exists j :: 0 <= j < |rows2| && Get(r1, c1) == Get(rows2[j], c2) && m == Merge(t1, r1, t2, rows2[j])
  {
    if rows2 != [] {
      var n := |rows2| - 1;
      PairingsMembers(t1, r1, t2, rows2[..n], c1, c2, m);
      assert forall j :: 0 <= j < n ==> rows2[..n][j] == rows2[j];
    }
  }

  /** Every joined row merges a row of each table whose join values are equal. */
  lemma {:induction false} JoinFrom(t1: string, rows1: seq<Row>, t2: string, rows2: seq<Row>, c1: string, c2: string, m: Row)
    requires m in JoinRows(t1, rows1, t2, rows2, c1, c2)
    ensures exists i, j :: 0 <= i < |rows1| && 0 <= j < |rows2| && Get(rows1[i], c1) == Get(rows2[j], c2)
                 && m == Merge(t1, rows1[i], t2, rows2[j])
  {
    var n := |rows1| - 1;
    var front := rows1[..n];
    var a := JoinRows(t1, front, t2, rows2, c1, c2);
    var b := Pairings(t1, rows1[n], t2, rows2, c1, c2);
    assert JoinRows(t1, rows1, t2, rows2, c1, c2) == a + b;
    if m in a {
      JoinFrom(t1, front, t2, rows2, c1, c2, m);
      var i, j :| 0 <= i < n && 0 <= j < |rows2| && Get(front[i], c1) == Get(rows2[j], c2) && m == Merge(t1, front[i], t2, rows2[j]);
      assert front[i] == rows1[i];
    } else {
      assert m in b;
      PairingsMembers(t1, rows1[n], t2, rows2, c1, c2, m);
      var j :| 0 <= j < |rows2| && Get(rows1[n], c1) == Get(rows2[j], c2) && m == Merge(t1, rows1[n], t2, rows2[j]);
    }
  }

  /** Every pair of rows with equal join values is joined. */
  lemma {:induction false} JoinHas(t1: string, rows1: seq<Row>, t2: string, rows2: seq<Row>, c1: string, c2: string, i: nat, j: nat)
    requires i < |rows1| && j < |rows2| && Get(rows1[i], c1) == Get(rows2[j], c2)
    ensures Merge(t1, rows1[i], t2, rows2[j]) in JoinRows(t1, rows1, t2, rows2, c1, c2)
  {
    var n := |rows1| - 1;
    var front := rows1[..n];
    var a := JoinRows(t1, front, t2, rows2, c1, c2);
    var b := Pairings(t1, rows1[n], t2, rows2, c1, c2);
    var m := Merge(t1, rows1[i], t2, rows2[j]);
    assert JoinRows(t1, rows1, t2, rows2, c1, c2) == a + b;
    if i < n {
      assert m in a by {
        assert front[i] == rows1[i];
        JoinHas(t1, front, t2, rows2, c1, c2, i, j);
      }
    } else {
      assert m in b by {
        PairingsMembers(t1, rows1[n], t2, rows2, c1, c2, m);
      }
    }
  }

  /** A row is in the join exactly when it merges a row of each table with equal join values,
      where a missing value equals a missing value (None == None in Python). */
  lemma JoinMembers(t1: string, rows1: seq<Row>, t2: string, rows2: seq<Row>, c1: string, c2: string, m: Row)
    ensures m in JoinRows(t1, rows1, t2, rows2, c1, c2) <==>
      exists i, j :: 0 <= i < |rows1| && 0 <= j < |rows2| && Get(rows1[i], c1) == Get(rows2[j], c2)
                     && m == Merge(t1, rows1[i], t2, rows2[j])
  {
    if m in JoinRows(t1, rows1, t2, rows2, c1, c2) {
      JoinFrom(t1, rows1, t2, rows2, c1, c2, m);
    } else {
      forall i, j | 0 <= i < |rows1| && 0 <= j < |rows2| && Get(rows1[i], c1) == Get(rows2[j], c2)
        ensures m != Merge(t1, rows1[i], t2, rows2[j])
      {
        JoinHas(t1, rows1, t2, rows2, c1, c2, i, j);
      }
    }
  }

  /** A pair of row positions, one in each table of a join. */
  type Pair = (nat, nat)

  /** The pairs (i, j) for a fixed i and every j below n2, by j. */
  function Line(i: nat, n2: nat): (ps: seq<Pair>)
    ensures |ps| == n2
  {
    if n2 == 0 then [] else Line(i, n2 - 1) + [(i, n2 - 1)]
  }

  /** Every pair of positions (i, j) with i below n1 and j below n2, in the order the nested loops
      visit them: by i, then by j. */
  function Product(n1: nat, n2: nat): seq<Pair>
  {
    if n1 == 0 then [] else Product(n1 - 1, n2) + Line(n1 - 1, n2)
  }

  /** Lexicographic order on pairs of positions. */
  predicate Before(p: Pair, q: Pair)
  {
    p.0 < q.0 || (p.0 == q.0 && p.1 < q.1)
  }

  lemma {:induction false} LineSpec(i: nat, n2: nat)
    ensures forall p: Pair :: p in Line(i, n2) <==> p.0 == i && p.1 < n2
    ensures forall k :: 0 <= k < n2 ==> Line(i, n2)[k] == (i, k)
  {
    if n2 > 0 {
      LineSpec(i, n2 - 1);
    }
  }

  /** The product holds every pair of positions once, in lexicographic order. */
  lemma {:induction false} ProductSpec(n1: nat, n2: nat)
    ensures forall p: Pair :: p in Product(n1, n2) <==> p.0 < n1 && p.1 < n2
    ensures forall a, b :: 0 <= a < b < |Product(n1, n2)| ==> Before(Product(n1, n2)[a], Product(n1, n2)[b])
  {
    if n1 > 0 {
      ProductSpec(n1 - 1, n2);
      LineSpec(n1 - 1, n2);
      var front, line := Product(n1 - 1, n2), Line(n1 - 1, n2);
      forall a, b | 0 <= a < b < |front + line| ensures Before((front + line)[a], (front + line)[b]) {
        if b < |front| {
          assert (front + line)[a] == front[a] && (front + line)[b] == front[b];
        } else if a < |front| {
          assert front[a] in front && (front + line)[b] == line[b - |front|];
        } else {
          assert (front + line)[a] == line[a - |front|] && (front + line)[b] == line[b - |front|];
        }
      }
    }
  }

  /** Whether a pair of positions picks a row of each table with equal join values. */
  function PairMatches(rows1: seq<Row>, rows2: seq<Row>, c1: string, c2: string): (Pair) -> bool
  {
    (p: Pair) => p.0 < |rows1| && p.1 < |rows2| && Get(rows1[p.0], c1) == Get(rows2[p.1], c2)
  }

  lemma {:induction false} KeepConcat<T>(a: seq<T>, b: seq<T>, p: T -> bool)
    ensures Keep(a + b, p) == Keep(a, p) + Keep(b, p)
  {
    if b != [] {
      var n := |b| - 1;
      KeepConcat(a, b[..n], p);
      assert (a + b)[..|a + b| - 1] == a + b[..n];
    } else {
      assert a + b == a;
    }
  }

  /** The inner loop for row `i`, over the first `m` rows of the second table: one merged row per
      matching pair (i, j), by j. */
  lemma {:induction false} PairingsExact(t1: string, rows1: seq<Row>, i: nat, t2: string, rows2: seq<Row>, c1: string, c2: string, m: nat)
    requires i < |rows1| && m <= |rows2|
    ensures var ps, js := Keep<Pair>(Line(i, m), PairMatches(rows1, rows2, c1, c2)), Pairings(t1, rows1[i], t2, rows2[..m], c1, c2);
      |js| == |ps| && forall k :: 0 <= k < |ps| ==> ps[k].0 == i && ps[k].1 < m && js[k] == Merge(t1, rows1[i], t2, rows2[ps[k].1])
  {
    if m > 0 {
      PairingsExact(t1, rows1, i, t2, rows2, c1, c2, m - 1);
      var test := PairMatches(rows1, rows2, c1, c2);
      var r1 := rows1[i];
      var ps, fs := Keep<Pair>(Line(i, m), test), Keep<Pair>(Line(i, m - 1), test);
      var js, gs := Pairings(t1, r1, t2, rows2[..m], c1, c2), Pairings(t1, r1, t2, rows2[..m - 1], c1, c2);
      var hit := Get(r1, c1) == Get(rows2[m - 1], c2);
      assert rows2[..m][..m - 1] == rows2[..m - 1] && rows2[..m][m - 1] == rows2[m - 1];
      assert Line(i, m)[..m - 1] == Line(i, m - 1) && Line(i, m)[m - 1] == (i, m - 1);
      assert test((i, m - 1)) == hit;
      assert ps == fs + (if hit then [(i, m - 1)] else []);
      assert js == gs + (if hit then [Merge(t1, r1, t2, rows2[m - 1])] else []);
      forall k | 0 <= k < |ps| ensures ps[k].0 == i && ps[k].1 < m && js[k] == Merge(t1, r1, t2, rows2[ps[k].1]) {
        if k < |fs| {
          assert ps[k] == fs[k] && js[k] == gs[k];
        }
      }
    }
  }

  /** The nested loops over the first `n` rows of the first table. */
  lemma {:induction false} JoinPrefixExact(t1: string, rows1: seq<Row>, t2: string, rows2: seq<Row>, c1: string, c2: string, n: nat)
    requires n <= |rows1|
    ensures var ps, js := Keep<Pair>(Product(n, |rows2|), PairMatches(rows1, rows2, c1, c2)), JoinRows(t1, rows1[..n], t2, rows2, c1, c2);
      |js| == |ps| &&
      forall k :: 0 <= k < |ps| ==>
        ps[k].0 < n && ps[k].1 < |rows2| && js[k] == Merge(t1, rows1[ps[k].0], t2, rows2[ps[k].1])
  {
    if n > 0 {
      var test := PairMatches(rows1, rows2, c1, c2);
      JoinPrefixExact(t1, rows1, t2, rows2, c1, c2, n - 1);
      PairingsExact(t1, rows1, n - 1, t2, rows2, c1, c2, |rows2|);
      KeepConcat<Pair>(Product(n - 1, |rows2|), Line(n - 1, |rows2|), test);
      assert rows1[..n][..n - 1] == rows1[..n - 1] && rows1[..n][n - 1] == rows1[n - 1];
      assert rows2[..|rows2|] == rows2;
    }
  }

  /** The join is one merged row per pair (i, j) whose rows have equal join values, each pair once,
      in the order of the nested loops: by the first table's row, then by the second's. */
  lemma JoinExact(t1: string, rows1: seq<Row>, t2: string, rows2: seq<Row>, c1: string, c2: string)
    ensures var ps, js := Keep<Pair>(Product(|rows1|, |rows2|), PairMatches(rows1, rows2, c1, c2)), JoinRows(t1, rows1, t2, rows2, c1, c2);
      && (forall p: Pair :: p in ps <==> p.0 < |rows1| && p.1 < |rows2| && Get(rows1[p.0], c1) == Get(rows2[p.1], c2))
      && (forall a, b :: 0 <= a < b < |ps| ==> Before(ps[a], ps[b]))
      && |js| == |ps|
      && (forall k :: 0 <= k < |ps| ==>
            ps[k].0 < |rows1| && ps[k].1 < |rows2| && js[k] == Merge(t1, rows1[ps[k].0], t2, rows2[ps[k].1]))
  {
    var test := PairMatches(rows1, rows2, c1, c2);
    var all := Product(|rows1|, |rows2|);
    var ps := Keep<Pair>(all, test);
    JoinPrefixExact(t1, rows1, t2, rows2, c1, c2, |rows1|);
    assert rows1[..|rows1|] == rows1;
    MatchingPairs(rows1, rows2, c1, c2);
  }

  /** The matching pairs: exactly those whose rows have equal join values, in lexicographic order. */
  lemma MatchingPairs(rows1: seq<Row>, rows2: seq<Row>, c1: string, c2: string)
    ensures var ps := Keep<Pair>(Product(|rows1|, |rows2|), PairMatches(rows1, rows2, c1, c2));
      && (forall p: Pair :: p in ps <==> p.0 < |rows1| && p.1 < |rows2| && Get(rows1[p.0], c1) == Get(rows2[p.1], c2))
      && (forall a, b :: 0 <= a < b < |ps| ==> Before(ps[a], ps[b]))
  {
    var test := PairMatches(rows1, rows2, c1, c2);
    var all := Product(|rows1|, |rows2|);
    var ps := Keep<Pair>(all, test);
    ProductSpec(|rows1|, |rows2|);
    forall p: Pair ensures p in ps <==> p.0 < |rows1| && p.1 < |rows2| && Get(rows1[p.0], c1) == Get(rows2[p.1], c2) {
      KeepMembers<Pair>(all, test, p);
    }
    KeepSpec<Pair>(all, test);
    var pos := Positions<Pair>(all, test);
    forall a, b | 0 <= a < b < |ps| ensures Before(ps[a], ps[b]) {
      assert ps[a] == all[pos[a]] && ps[b] == all[pos[b]];
    }
  }

  /** When no row of either table has its join column every pair joins: the join is the full
      product of the two tables. */
  lemma {:induction false} JoinMissingColumns(t1: string, rows1: seq<Row>, t2: string, rows2: seq<Row>, c1: string, c2: string)
    requires forall i :: 0 <= i < |rows1| ==> c1 !in rows1[i]
    requires forall j :: 0 <= j < |rows2| ==> c2 !in rows2[j]
    ensures |JoinRows(t1, rows1, t2, rows2, c1, c2)| == |rows1| * |rows2|
  {
    if rows1 != [] {
      var n := |rows1| - 1;
      var front, m := rows1[..n], |rows2|;
      var a := JoinRows(t1, front, t2, rows2, c1, c2);
      var b := Pairings(t1, rows1[n], t2, rows2, c1, c2);
      assert |a| == n * m by {
        assert forall i :: 0 <= i < n ==> front[i] == rows1[i];
        JoinMissingColumns(t1, front, t2, rows2, c1, c2);
      }
      assert |b| == m by {
        PairingsAll(t1, rows1[n], t2, rows2, c1, c2);
      }
      assert JoinRows(t1, rows1, t2, rows2, c1, c2) == a + b;
      MulStep(n, m);
    }
  }

  lemma MulStep(n: nat, m: nat)
    ensures (n + 1) * m == n * m + m
  {
  }

  lemma {:induction false} PairingsAll(t1: string, r1: Row, t2: string, rows2: seq<Row>, c1: string, c2: string)
    requires c1 !in r1
    requires forall j :: 0 <= j < |rows2| ==> c2 !in rows2[j]
    ensures |Pairings(t1, r1, t2, rows2, c1, c2)| == |rows2|
  {
    if rows2 != [] {
      PairingsAll(t1, r1, t2, rows2[..|rows2| - 1], c1, c2);
    }
  }

  /** The nested loops of lines 232-238. */
  method JoinLoop(t1: string, rows1: seq<Row>, t2: string, rows2: seq<Row>, c1: string, c2: string)
    returns (joined: seq<Row>)
    ensures joined == JoinRows(t1, rows1, t2, rows2, c1, c2)
  {
    joined := [];
    var i := 0;
    while i < |rows1|
      invariant 0 <= i <= |rows1|
      invariant joined == JoinRows(t1, rows1[..i], t2, rows2, c1, c2)
    {
      var r1 := rows1[i];
      var j := 0;
      var pairs := [];
      while j < |rows2|
        invariant 0 <= j <= |rows2|
        invariant pairs == Pairings(t1, r1, t2, rows2[..j], c1, c2)
      {
        var r2 := rows2[j];
        if Get(r1, c1) == Get(r2, c2) {
          pairs := pairs + [Merge(t1, r1, t2, r2)];
        }
        assert rows2[..j + 1][..j] == rows2[..j];
        j := j + 1;
      }
      assert rows2[..j] == rows2;
      assert rows1[..i + 1][..i] == rows1[..i];
      joined := joined + pairs;
      i := i + 1;
    }
    assert rows1[..i] == rows1;
  }

  /** The JOIN's WHERE test on a merged row (line 243): the column qualified by either table, or
      the column name as written, holds the value. */
  predicate JoinKeeps(t1: string, t2: string, c: string, v: Value, r: Row)
  {
    Get(r, t1 + "." + c) == v || Get(r, c) == v || Get(r, t2 + "." + c) == v
  }

  function JoinTest(t1: string, t2: string, c: string, v: Value): Row -> bool
  {
    (r: Row) => JoinKeeps(t1, t2, c, v, r)
  }

  /** The joined rows the WHERE keeps, in order; without a WHERE all of them. */
  function JoinWhere(t1: string, t2: string, w: Option<(string, Value)>, joined: seq<Row>): seq<Row>
  {
    if w.None? then joined else Keep(joined, JoinTest(t1, t2, w.value.0, w.value.1))
  }

  lemma JoinWhereMembers(t1: string, t2: string, w: Option<(string, Value)>, joined: seq<Row>, m: Row)
    ensures m in JoinWhere(t1, t2, w, joined) <==> m in joined && (w.Some? ==> JoinKeeps(t1, t2, w.value.0, w.value.1, m))
  {
    if w.Some? {
      var test := JoinTest(t1, t2, w.value.0, w.value.1);
      KeepMembers(joined, test, m);
      assert test(m) == JoinKeeps(t1, t2, w.value.0, w.value.1, m);
    }
  }

  /** Two qualified names without a dot in their table part are equal only when both parts are. */
  lemma DotFree(a: string, x: string, b: string, y: string)
    requires '.' !in a && '.' !in b && a + "." + x == b + "." + y
    ensures a == b && x == y
  {
    var p, q := a + "." + x, b + "." + y;
    assert p[|a|] == '.' && q[|b|] == '.';
    assert |a| == |b|;
    assert a == p[..|a|] && b == q[..|b|];
    PrefixCancel(a + ".", x, y);
  }

  /** A qualified row holds each column of the row under its qualified name, and nothing else. */
  lemma QualifyGet(t: string, r: Row, k: string)
    ensures Get(Qualify(t, r), t + "." + k) == Get(r, k)
  {
    var q := t + "." + k;
    assert q[|t| + 1..] == k;
    if k in r {
      assert q in QualifiedNames(t, r);
    }
  }

  /** A name qualified by another dot-free table, or a name without a dot, is not in a qualified row. */
  lemma QualifyMissing(t: string, r: Row, key: string)
    requires '.' !in t
    requires '.' !in key || exists t2, k :: '.' !in t2 && t2 != t && key == t2 + "." + k
    ensures key !in Qualify(t, r)
  {
    if key in Qualify(t, r) {
      assert key in QualifiedNames(t, r);
      var k1 :| k1 in r && t + "." + k1 == key;
      assert key[|t|] == '.';
      if '.' in key {
        var t2, k :| '.' !in t2 && t2 != t && key == t2 + "." + k;
        DotFree(t, k1, t2, k);
      }
    }
  }

  /** Reading a qualified name of a merged row reads that table's row, when the two table names
      differ and have no dot (as `\w+` guarantees); a name without a dot is never there. */
  lemma MergeGet(t1: string, r1: Row, t2: string, r2: Row, k: string)
    requires '.' !in t1 && '.' !in t2 && t1 != t2
    ensures Get(Merge(t1, r1, t2, r2), t1 + "." + k) == Get(r1, k)
    ensures Get(Merge(t1, r1, t2, r2), t2 + "." + k) == Get(r2, k)
    ensures '.' !in k ==> Get(Merge(t1, r1, t2, r2), k) == Null
  {
    QualifyGet(t1, r1, k);
    QualifyGet(t2, r2, k);
    QualifyMissing(t2, r2, t1 + "." + k);
    QualifyMissing(t1, r1, t2 + "." + k);
    if '.' !in k {
      QualifyMissing(t1, r1, k);
      QualifyMissing(t2, r2, k);
    }
  }

  /** On a merged row of two differently named tables, the JOIN's WHERE on a plain column holds
      exactly when either side's row holds the value there. */
  lemma JoinKeepsMerged(t1: string, r1: Row, t2: string, r2: Row, c: string, v: Value)
    requires '.' !in t1 && '.' !in t2 && t1 != t2 && '.' !in c && v != Null
    ensures JoinKeeps(t1, t2, c, v, Merge(t1, r1, t2, r2)) <==> Get(r1, c) == v || Get(r2, c) == v
  {
    MergeGet(t1, r1, t2, r2, c);
  }
  /** A JOIN's WHERE keeps nothing when neither table holds the value under the column. */
  lemma JoinWhereNone(t1: string, rows1: seq<Row>, t2: string, rows2: seq<Row>, c1: string, c2: string, c: string, v: Value)
    requires '.' !in t1 && '.' !in t2 && t1 != t2 && '.' !in c && v != Null
    requires forall r :: r in rows1 ==> Get(r, c) != v
    requires forall r :: r in rows2 ==> Get(r, c) != v
    ensures JoinWhere(t1, t2, Some((c, v)), JoinRows(t1, rows1, t2, rows2, c1, c2)) == []
  {
    var joined := JoinRows(t1, rows1, t2, rows2, c1, c2);
    var test := JoinTest(t1, t2, c, v);
    forall k | 0 <= k < |joined| ensures !test(joined[k]) {
      var m := joined[k];
      JoinMembers(t1, rows1, t2, rows2, c1, c2, m);
      var i, j :| 0 <= i < |rows1| && 0 <= j < |rows2| && Get(rows1[i], c1) == Get(rows2[j], c2)
                  && m == Merge(t1, rows1[i], t2, rows2[j]);
      JoinKeepsMerged(t1, rows1[i], t2, rows2[j], c, v);
    }
    KeepNone(joined, test);
  }
}
