/** The five statement shapes `Database.execute` recognises with `re.match` and `re.IGNORECASE`
    (engine.py lines 154, 175, 201, 251, 280), as a hand-written recognizer over positions in
    the (already stripped) statement text. `\s` is Python's whitespace, `\w` an ASCII word
    character, `.` any character but a newline; keywords match ASCII letters in either case. */
module Parser {
  import opened Values
  import opened Text

  /** The optional JOIN ... ON t1.c1 = t2.c2 part of a SELECT (groups 3 to 7). */
  datatype JoinClause = JoinClause(table: string, leftTable: string, leftCol: string, rightTable: string, rightCol: string)

  /** The groups each statement shape captures. A WHERE group that did not take part is None. */
  datatype Statement =
    | CreateTable(name: string, body: string)
    | InsertInto(name: string, cols: string, vals: string)
    | Select(cols: string, table: string, join: Option<JoinClause>, where: Option<string>)
    | Update(name: string, assignments: string, where: Option<string>)
    | Delete(name: string, where: Option<string>)

  // ---------------------------------------------------------------- scanning

  /** The end of the whitespace run that starts at `i` (`\s*`, which never gives any back here). */
  function SpaceEnd(s: string, i: nat): (e: nat)
    requires i <= |s|
    ensures i <= e <= |s|
    decreases |s| - i
  {
    if i < |s| && IsSpace(s[i]) then SpaceEnd(s, i + 1) else i
  }

  /** The end of the word-character run that starts at `i`. */
  function WordEnd(s: string, i: nat): (e: nat)
    requires i <= |s|
    ensures i <= e <= |s|
    decreases |s| - i
  {
    if i < |s| && IsWordChar(s[i]) then WordEnd(s, i + 1) else i
  }

  /** How far `.*` reaches from `i`: up to the next newline or the end. */
  function LineEnd(s: string, i: nat): (e: nat)
    requires i <= |s|
    ensures i <= e <= |s|
    decreases |s| - i
  {
    if i < |s| && s[i] != '\n' then LineEnd(s, i + 1) else i
  }

  /** `\s+`: one whitespace character or more; the position after the run. */
  function Spaces1(s: string, i: nat): (r: Option<nat>)
    requires i <= |s|
    ensures r.Some? ==> i < r.value <= |s|
  {
    if i < |s| && IsSpace(s[i]) then Some(SpaceEnd(s, i)) else None
  }

  /** `(\w+)`: one word character or more; the position after the word. */
  function Word1(s: string, i: nat): (r: Option<nat>)
    requires i <= |s|
    ensures r.Some? ==> i < r.value <= |s|
  {
    if i < |s| && IsWordChar(s[i]) then Some(WordEnd(s, i)) else None
  }

  /** The upper-case keyword `kw` at `i`, in either case: `Upper(s[i..i + |kw|]) == kw`. */
  predicate KeywordAt(s: string, i: nat, kw: string)
  {
    i + |kw| <= |s| && forall k :: 0 <= k < |kw| ==> UpperChar(s[i + k]) == kw[k]
  }

  function Keyword(s: string, i: nat, kw: string): (r: Option<nat>)
    ensures r.Some? ==> r.value == i + |kw| <= |s|
  {
    if KeywordAt(s, i, kw) then Some(i + |kw|) else None
  }

  /** A literal character. */
  function Char(s: string, i: nat, c: char): (r: Option<nat>)
    ensures r.Some? ==> r.value == i + 1 <= |s|
  {
    if i < |s| && s[i] == c then Some(i + 1) else None
  }

  /** The last `)` in `[lo, hi)`. */
  function LastClose(s: string, lo: nat, hi: nat): (r: Option<nat>)
    requires hi <= |s|
    ensures r.Some? ==> lo <= r.value < hi && s[r.value] == ')' && forall k :: r.value < k < hi ==> s[k] != ')'
    ensures r.None? ==> forall k :: lo <= k < hi ==> s[k] != ')'
    decreases hi
  {
    if hi <= lo then None
    else if s[hi - 1] == ')' then Some(hi - 1)
    else LastClose(s, lo, hi - 1)
  }

  /** `\((.*)\)` from just after the open parenthesis at `p`: the last `)` on that line. */
  function CloseParen(s: string, p: nat): Option<nat>
    requires p <= |s|
  {
    LastClose(s, p, LineEnd(s, p))
  }

  // ---------------------------------------------------------------- the five shapes

  /** `CREATE\s+TABLE\s+(\w+)\s*\((.*)\)` */
  function MatchCreate(s: string): Option<Statement>
  {
    var a :- Keyword(s, 0, "CREATE");
    var b :- Spaces1(s, a);
    var c :- Keyword(s, b, "TABLE");
    var d :- Spaces1(s, c);
    var e :- Word1(s, d);
    var f :- Char(s, SpaceEnd(s, e), '(');
    var g :- CloseParen(s, f);
    Some(CreateTable(s[d..e], s[f..g]))
  }

  /** `\)\s+VALUES\s*\((.*)\)` at `q`: the start and end of the value group. */
  function ValuesAt(s: string, q: nat): (r: Option<(nat, nat)>)
    ensures r.Some? ==> q < r.value.0 <= r.value.1 <= |s|
  {
    if q > |s| then None
    else
      var a :- Char(s, q, ')');
      var b :- Spaces1(s, a);
      var c :- Keyword(s, b, "VALUES");
      var d :- Char(s, SpaceEnd(s, c), '(');
      var e :- CloseParen(s, d);
      Some((d, e))
  }

  /** `\s+WHERE\s+(.*)$` at `k`: the condition, which must run to the end of the statement. */
  function TailWhere(s: string, k: nat): Option<string>
  {
    if k > |s| then None
    else
      var a :- Spaces1(s, k);
      var b :- Keyword(s, a, "WHERE");
      var c :- Spaces1(s, b);
      if LineEnd(s, c) == |s| then Some(s[c..]) else None
  }

  /** `\s+FROM\s+(\w+)` at `k`: the start and end of the table name. */
  function FromAt(s: string, k: nat): (r: Option<(nat, nat)>)
    ensures r.Some? ==> k < r.value.0 < r.value.1 <= |s|
  {
    if k > |s| then None
    else
      var a :- Spaces1(s, k);
      var b :- Keyword(s, a, "FROM");
      var c :- Spaces1(s, b);
      var d :- Word1(s, c);
      Some((c, d))
  }

  /** The largest `k` in `[lo, hi)` with `p(k)`: where a greedy `.*` group ends, `p` saying
      whether the rest of the shape matches from `k`. */
  function LastIn(lo: nat, hi: nat, p: nat -> bool): (r: Option<nat>)
    ensures r.Some? ==> lo <= r.value < hi && p(r.value) && forall k :: r.value < k < hi ==> !p(k)
    ensures r.None? ==> forall k :: lo <= k < hi ==> !p(k)
    decreases hi
  {
    if hi <= lo then None
    else if p(hi - 1) then Some(hi - 1)
    else LastIn(lo, hi - 1, p)
  }

  /** The smallest `k` in `[lo, hi)` with `p(k)`: where a lazy `.*?` group ends. */
  function FirstIn(lo: nat, hi: nat, p: nat -> bool): (r: Option<nat>)
    ensures r.Some? ==> lo <= r.value < hi && p(r.value) && forall k :: lo <= k < r.value ==> !p(k)
    ensures r.None? ==> forall k :: lo <= k < hi ==> !p(k)
    decreases hi - lo
  {
    if hi <= lo then None
    else if p(lo) then Some(lo)
    else FirstIn(lo + 1, hi, p)
  }

  /** The rest of INSERT matches from `k`. */
  function ValuesProbe(s: string): nat -> bool
  {
    (k: nat) => ValuesAt(s, k).Some?
  }

  /** The rest of SELECT's mandatory part matches from `k`. */
  function FromProbe(s: string): nat -> bool
  {
    (k: nat) => FromAt(s, k).Some?
  }

  /** The rest of UPDATE matches from `k`: a trailing WHERE clause or the end. */
  function WhereOrEndProbe(s: string): nat -> bool
  {
    (k: nat) => k == |s| || TailWhere(s, k).Some?
  }

  /** `INSERT\s+INTO\s+(\w+)\s*\((.*)\)\s+VALUES\s*\((.*)\)`: the column group ends at the last
      position on its line from which the rest of the shape matches. */
  function MatchInsert(s: string): Option<Statement>
  {
    var a :- Keyword(s, 0, "INSERT");
    var b :- Spaces1(s, a);
    var c :- Keyword(s, b, "INTO");
    var d :- Spaces1(s, c);
    var e :- Word1(s, d);
    var f :- Char(s, SpaceEnd(s, e), '(');
    var q :- LastIn(f, LineEnd(s, f), ValuesProbe(s));
    var v := ValuesAt(s, q).value;
    Some(InsertInto(s[d..e], s[f..q], s[v.0..v.1]))
  }

  /** `(\w+)\.(\w+)` at `x`: a table name, a column name and the position after them. */
  function QualifiedNameAt(s: string, x: nat): (r: Option<(string, string, nat)>)
    requires x <= |s|
    ensures r.Some? ==> x < r.value.2 <= |s|
  {
    var d :- Word1(s, x);
    var g :- Char(s, d, '.');
    var e :- Word1(s, g);
    Some((s[x..d], s[g..e], e))
  }

  /** `\s+JOIN\s+(\w+)\s+ON\s+` at `i`: the joined table and the position after ON's spaces. */
  function JoinHeadAt(s: string, i: nat): (r: Option<(string, nat)>)
    requires i <= |s|
    ensures r.Some? ==> i < r.value.1 <= |s|
  {
    var a :- Spaces1(s, i);
    var b :- Keyword(s, a, "JOIN");
    var c :- Spaces1(s, b);
    var t :- Word1(s, c);
    var d :- Spaces1(s, t);
    var e :- Keyword(s, d, "ON");
    var f :- Spaces1(s, e);
    Some((s[c..t], f))
  }

  /** `(?:\s+JOIN\s+(\w+)\s+ON\s+(\w+)\.(\w+)\s*=\s*(\w+)\.(\w+))?` at `i`: the clause and the
      position after it, or None when the optional group does not match. */
  function JoinAt(s: string, i: nat): (r: Option<(JoinClause, nat)>)
    requires i <= |s|
    ensures r.Some? ==> i < r.value.1 <= |s|
  {
    var head :- JoinHeadAt(s, i);
    var left :- QualifiedNameAt(s, head.1);
    var h :- Char(s, SpaceEnd(s, left.2), '=');
    var right :- QualifiedNameAt(s, SpaceEnd(s, h));
    Some((JoinClause(head.0, left.0, left.1, right.0, right.1), right.2))
  }

  /** `(?:\s+WHERE\s+(.*))?` at `i`, not anchored at the end: the condition, or None. */
  function WhereAt(s: string, i: nat): Option<string>
    requires i <= |s|
  {
    var a :- Spaces1(s, i);
    var b :- Keyword(s, a, "WHERE");
    var c :- Spaces1(s, b);
    Some(s[c..LineEnd(s, c)])
  }

  /** Where SELECT's greedy column group, starting at `b`, ends: the last position on its line
      followed by FROM and a table name. */
  function ColumnsEnd(s: string, b: nat): Option<nat>
    requires b <= |s|
  {
    LastIn(b, LineEnd(s, b) + 1, FromProbe(s))
  }

  /** Where SELECT's column group starts and ends, `SELECT` ending at `a` and its blank run at `b`.
      `\s+` first keeps its whole run; when no end position then works, it gives back the run's
      last blank, and the only new end is right there: an empty group before ` FROM`. Giving back
      more blanks finds nothing new. */
  function ColumnsGroup(s: string, a: nat, b: nat): (r: Option<(nat, nat)>)
    requires a < b <= |s|
    ensures r.Some? ==> r.value.0 <= r.value.1 <= |s| && FromAt(s, r.value.1).Some?
  {
    match ColumnsEnd(s, b)
    case Some(e) => Some((b, e))
    case None => if a + 1 < b && FromAt(s, b - 1).Some? then Some((b - 1, b - 1)) else None
  }

  /** `SELECT\s+(.*)\s+FROM\s+(\w+)` then the optional JOIN and WHERE groups: the column group
      ends at the last position on its line followed by FROM and a table name. */
  function MatchSelect(s: string): Option<Statement>
  {
    var a :- Keyword(s, 0, "SELECT");
    var b :- Spaces1(s, a);
    var g :- ColumnsGroup(s, a, b);
    var t := FromAt(s, g.1).value;
    match JoinAt(s, t.1)
    case Some((j, after)) => Some(Select(s[g.0..g.1], s[t.0..t.1], Some(j), WhereAt(s, after)))
    case None => Some(Select(s[g.0..g.1], s[t.0..t.1], None, WhereAt(s, t.1)))
  }

  /** Where UPDATE's lazy SET group, starting at `f`, ends: the first position on its line where
      a trailing WHERE clause starts or the statement ends. */
  function SetEnd(s: string, f: nat): Option<nat>
    requires f <= |s|
  {
    FirstIn(f, LineEnd(s, f) + 1, WhereOrEndProbe(s))
  }

  /** `UPDATE\s+(\w+)\s+SET\s+(.*?)(?:\s+WHERE\s+(.*))?$`: the lazy SET group ends at the first
      position on its line where a trailing WHERE clause starts or the statement ends. */
  function MatchUpdate(s: string): Option<Statement>
  {
    var a :- Keyword(s, 0, "UPDATE");
    var b :- Spaces1(s, a);
    var n :- Word1(s, b);
    var c :- Spaces1(s, n);
    var d :- Keyword(s, c, "SET");
    var f :- Spaces1(s, d);
    var e :- SetEnd(s, f);
    Some(Update(s[b..n], s[f..e], TailWhere(s, e)))
  }

  /** `DELETE\s+FROM\s+(\w+)(?:\s+WHERE\s+(.*))?` */
  function MatchDelete(s: string): Option<Statement>
  {
    var a :- Keyword(s, 0, "DELETE");
    var b :- Spaces1(s, a);
    var c :- Keyword(s, b, "FROM");
    var d :- Spaces1(s, c);
    var e :- Word1(s, d);
    Some(Delete(s[d..e], WhereAt(s, e)))
  }

  /** The shapes in the order execute tries them. */
  function Recognize(s: string): Option<Statement>
  {
    if MatchCreate(s).Some? then MatchCreate(s)
    else if MatchInsert(s).Some? then MatchInsert(s)
    else if MatchSelect(s).Some? then MatchSelect(s)
    else if MatchUpdate(s).Some? then MatchUpdate(s)
    else MatchDelete(s)
  }

  // ---------------------------------------------------------------- round trips

  /** A table or column name as `(\w+)` captures it. */
  predicate IsWord(w: string)
  {
    w != [] && forall k :: 0 <= k < |w| ==> IsWordChar(w[k])
  }

  /** Text that `.*` captures whole. */
  predicate OneLine(t: string)
  {
    forall k :: 0 <= k < |t| ==> t[k] != '\n'
  }

  /** Upper-case ASCII letters only: a keyword as the statement shapes spell it. */
  predicate Caps(w: string)
  {
    forall k :: 0 <= k < |w| ==> 'A' <= w[k] <= 'Z'
  }

  lemma CapsKeywords()
    ensures Caps("CREATE") && Caps("TABLE") && Caps("INSERT") && Caps("INTO") && Caps("VALUES")
    ensures Caps("SELECT") && Caps("FROM") && Caps("JOIN") && Caps("ON") && Caps("WHERE")
    ensures Caps("UPDATE") && Caps("SET") && Caps("DELETE")
  {
  }

  /** A keyword spelled in capitals at `i` matches there. */
  lemma KeywordHere(s: string, i: nat, kw: string)
    requires Caps(kw) && i + |kw| <= |s| && s[i..i + |kw|] == kw
    ensures Keyword(s, i, kw) == Some(i + |kw|)
  {
    assert forall k :: 0 <= k < |kw| ==> s[i + k] == kw[k];
  }

  /** A keyword does not match where one of its letters is missing. */
  lemma KeywordNot(s: string, i: nat, kw: string, j: nat)
    requires j < |kw| && i + j < |s| && UpperChar(s[i + j]) != kw[j]
    ensures Keyword(s, i, kw) == None
  {
  }

  lemma SpaceEndIs(s: string, i: nat, j: nat)
    requires i <= j <= |s| && (forall k :: i <= k < j ==> IsSpace(s[k])) && (j == |s| || !IsSpace(s[j]))
    ensures SpaceEnd(s, i) == j
    decreases j - i
  {
    if i < j {
      SpaceEndIs(s, i + 1, j);
    }
  }

  lemma WordEndIs(s: string, i: nat, j: nat)
    requires i <= j <= |s| && (forall k :: i <= k < j ==> IsWordChar(s[k])) && (j == |s| || !IsWordChar(s[j]))
    ensures WordEnd(s, i) == j
    decreases j - i
  {
    if i < j {
      WordEndIs(s, i + 1, j);
    }
  }

  lemma LineEndIs(s: string, i: nat, j: nat)
    requires i <= j <= |s| && (forall k :: i <= k < j ==> s[k] != '\n') && (j == |s| || s[j] == '\n')
    ensures LineEnd(s, i) == j
    decreases j - i
  {
    if i < j {
      LineEndIs(s, i + 1, j);
    }
  }

  lemma LastInIs(lo: nat, hi: nat, p: nat -> bool, x: nat)
    requires lo <= x < hi && p(x) && forall k :: x < k < hi ==> !p(k)
    ensures LastIn(lo, hi, p) == Some(x)
  {
  }

  lemma FirstInIs(lo: nat, hi: nat, p: nat -> bool, x: nat)
    requires lo <= x < hi && p(x) && forall k :: lo <= k < x ==> !p(k)
    ensures FirstIn(lo, hi, p) == Some(x)
  {
  }

  /** Every character `\s*` passes over is whitespace, and the run stops at a non-space. */
  lemma {:induction false} SpaceRun(s: string, i: nat)
    requires i <= |s|
    ensures forall x :: i <= x < SpaceEnd(s, i) ==> IsSpace(s[x])
    ensures SpaceEnd(s, i) == |s| || !IsSpace(s[SpaceEnd(s, i)])
    decreases |s| - i
  {
    if i < |s| && IsSpace(s[i]) {
      SpaceRun(s, i + 1);
    }
  }

  /** A keyword lying inside the slice `s[lo..hi]` is a keyword of that slice. */
  lemma KeywordSlice(s: string, lo: nat, hi: nat, r: string, x: nat, kw: string)
    requires lo <= x && x + |kw| <= hi <= |s| && lo <= hi && s[lo..hi] == r
    ensures KeywordAt(s, x, kw) == KeywordAt(r, x - lo, kw)
  {
    assert forall y :: x <= y < x + |kw| ==> s[y] == r[y - lo];
  }

  /** No word of `r` that follows whitespace starts with the keyword `kw`. */
  predicate NoKeywordAfterSpace(r: string, kw: string)
  {
    forall y :: 0 < y < |r| && IsSpace(r[y - 1]) ==> !KeywordAt(r, y, kw)
  }

  lemma OneLineCat(a: string, b: string)
    requires OneLine(a) && OneLine(b)
    ensures OneLine(a + b)
  {
    assert forall k :: 0 <= k < |a + b| ==> (a + b)[k] == if k < |a| then a[k] else b[k - |a|];
  }

  /** The keywords of a canonical CREATE statement. */
  lemma CreateHead(name: string, body: string)
    requires IsWord(name)
    ensures var s := "CREATE TABLE " + name + " (" + body + ")";
      && Keyword(s, 0, "CREATE") == Some(6) && SpaceEnd(s, 6) == 7
      && Keyword(s, 7, "TABLE") == Some(12) && SpaceEnd(s, 12) == 13
  {
    var s := "CREATE TABLE " + name + " (" + body + ")";
    CapsKeywords();
    assert s[0..6] == "CREATE" && s[7..12] == "TABLE";
    KeywordHere(s, 0, "CREATE");
    KeywordHere(s, 7, "TABLE");
    SpaceEndIs(s, 6, 7);
    SpaceEndIs(s, 12, 13);
  }

  /** The name and body of a canonical CREATE statement. */
  lemma CreateTail(name: string, body: string)
    requires IsWord(name) && OneLine(body)
    ensures var s, e := "CREATE TABLE " + name + " (" + body + ")", 13 + |name|;
      && WordEnd(s, 13) == e && SpaceEnd(s, e) == e + 1 && s[e + 1] == '('
      && CloseParen(s, e + 2) == Some(|s| - 1)
      && s[13..e] == name && s[e + 2..|s| - 1] == body
  {
    var s, e := "CREATE TABLE " + name + " (" + body + ")", 13 + |name|;
    WordEndIs(s, 13, e);
    SpaceEndIs(s, e, e + 1);
    LineEndIs(s, e + 2, |s|);
    assert s[13..e] == name && s[e + 2..|s| - 1] == body;
  }

  /** `CREATE TABLE name (body)` yields the name and the text between the parentheses. */
  lemma CreateRoundTrip(name: string, body: string)
    requires IsWord(name) && OneLine(body)
    ensures Recognize("CREATE TABLE " + name + " (" + body + ")") == Some(CreateTable(name, body))
  {
    CreateHead(name, body);
    CreateTail(name, body);
  }

  /** The keywords of a canonical INSERT statement. */
  lemma InsertHead(s: string, name: string, cols: string, vals: string)
    requires s == "INSERT INTO " + name + " (" + cols + ") VALUES (" + vals + ")"
    requires IsWord(name)
    ensures Keyword(s, 0, "INSERT") == Some(6) && SpaceEnd(s, 6) == 7
    ensures Keyword(s, 7, "INTO") == Some(11) && SpaceEnd(s, 11) == 12
    ensures Keyword(s, 0, "CREATE") == None
  {
    KeywordNot(s, 0, "CREATE", 0);
    CapsKeywords();
    assert s[0..6] == "INSERT" && s[7..11] == "INTO";
    KeywordHere(s, 0, "INSERT");
    KeywordHere(s, 7, "INTO");
    SpaceEndIs(s, 6, 7);
    SpaceEndIs(s, 11, 12);
  }

  /** The table name of a canonical INSERT statement, and the slices of its three groups. */
  lemma InsertName(s: string, name: string, cols: string, vals: string, e: nat, f: nat, q: nat)
    requires s == "INSERT INTO " + name + " (" + cols + ") VALUES (" + vals + ")"
    requires e == 12 + |name| && f == e + 2 && q == f + |cols|
    requires IsWord(name) && OneLine(cols) && OneLine(vals)
    ensures WordEnd(s, 12) == e && SpaceEnd(s, e) == e + 1 && s[e + 1] == '('
    ensures s[12..e] == name && s[f..q] == cols && s[q + 10..|s| - 1] == vals
  {
    WordEndIs(s, 12, e);
    SpaceEndIs(s, e, e + 1);
    assert s[12..e] == name;
    assert s[f..q] == cols;
    assert s[q + 10..|s| - 1] == vals;
  }

  /** The VALUES part of a canonical INSERT statement matches after the column list, and
      nowhere later when the values hold no `)`. */
  lemma InsertValuesGroup(s: string, name: string, cols: string, vals: string, f: nat, q: nat)
    requires s == "INSERT INTO " + name + " (" + cols + ") VALUES (" + vals + ")"
    requires f == 14 + |name| && q == f + |cols|
    requires OneLine(cols) && OneLine(vals) && forall k :: 0 <= k < |vals| ==> vals[k] != ')'
    ensures ValuesAt(s, q) == Some((q + 10, |s| - 1))
    ensures LastIn(f, LineEnd(s, f), ValuesProbe(s)) == Some(q)
  {
    ValuesHere(s, name, cols, vals, q);
    forall k | q < k < |s| ensures ValuesAt(s, k).None? {
      if k < |s| - 1 {
        assert s[k] != ')';
      }
    }
    LineEndIs(s, f, |s|);
    LastValues(s, f, q);
  }

  lemma ValuesHere(s: string, name: string, cols: string, vals: string, q: nat)
    requires s == "INSERT INTO " + name + " (" + cols + ") VALUES (" + vals + ")"
    requires q == 14 + |name| + |cols|
    requires OneLine(vals) && forall k :: 0 <= k < |vals| ==> vals[k] != ')'
    ensures ValuesAt(s, q) == Some((q + 10, |s| - 1))
  {
    CapsKeywords();
    assert s[q + 2..q + 8] == "VALUES";
    KeywordHere(s, q + 2, "VALUES");
    SpaceEndIs(s, q + 1, q + 2);
    SpaceEndIs(s, q + 8, q + 9);
    LineEndIs(s, q + 10, |s|);
    assert CloseParen(s, q + 10) == Some(|s| - 1);
  }


  /** The column group ends at `q` when the VALUES part matches there and nowhere later. */
  lemma LastValues(s: string, f: nat, q: nat)
    requires f <= |s| && f <= q < LineEnd(s, f) && ValuesAt(s, q).Some?
    requires forall k :: q < k < LineEnd(s, f) ==> ValuesAt(s, k).None?
    ensures LastIn(f, LineEnd(s, f), ValuesProbe(s)) == Some(q)
  {
    LastInIs(f, LineEnd(s, f), ValuesProbe(s), q);
  }

  /** The positions of the parts of INSERT's shape in `s`: the name ends at `e`, the column
      group runs from `f` to `q`, and the value group from `q + 10` to just before the end. */
  predicate InsertShapeAt(s: string, e: nat, f: nat, q: nat)
  {
    && Keyword(s, 0, "INSERT") == Some(6) && SpaceEnd(s, 6) == 7
    && Keyword(s, 7, "INTO") == Some(11) && SpaceEnd(s, 11) == 12
    && 12 < e <= |s| && WordEnd(s, 12) == e && SpaceEnd(s, e) == e + 1 && e + 1 < |s| && s[e + 1] == '('
    && f == e + 2 <= q < |s| && LastIn(f, LineEnd(s, f), ValuesProbe(s)) == Some(q)
    && ValuesAt(s, q) == Some((q + 10, |s| - 1))
  }

  lemma InsertGroupName(s: string, name: string, e: nat, f: nat, q: nat)
    requires InsertShapeAt(s, e, f, q) && s[12..e] == name
    ensures MatchInsert(s).Some? && MatchInsert(s).value.InsertInto? && MatchInsert(s).value.name == name
  {
  }

  lemma InsertGroupCols(s: string, cols: string, e: nat, f: nat, q: nat)
    requires InsertShapeAt(s, e, f, q) && s[f..q] == cols
    ensures MatchInsert(s).Some? && MatchInsert(s).value.InsertInto? && MatchInsert(s).value.cols == cols
  {
  }

  lemma InsertGroupVals(s: string, vals: string, e: nat, f: nat, q: nat)
    requires InsertShapeAt(s, e, f, q) && s[q + 10..|s| - 1] == vals
    ensures MatchInsert(s).Some? && MatchInsert(s).value.InsertInto? && MatchInsert(s).value.vals == vals
  {
  }

  /** MatchInsert follows the positions of the parts of its shape. */
  lemma MatchInsertAt(s: string, name: string, cols: string, vals: string, e: nat, f: nat, q: nat)
    requires InsertShapeAt(s, e, f, q)
    requires s[12..e] == name && s[f..q] == cols && s[q + 10..|s| - 1] == vals
    ensures MatchInsert(s) == Some(InsertInto(name, cols, vals))
  {
    InsertGroupName(s, name, e, f, q);
    InsertGroupCols(s, cols, e, f, q);
    InsertGroupVals(s, vals, e, f, q);
  }

  /** A statement that is not CREATE is read as INSERT when it has INSERT's shape. */
  lemma RecognizeInsert(s: string, st: Statement)
    requires Keyword(s, 0, "CREATE") == None && MatchInsert(s) == Some(st)
    ensures Recognize(s) == Some(st)
  {
  }

  /** `INSERT INTO name (cols) VALUES (vals)` yields the three groups. */
  lemma InsertRoundTrip(name: string, cols: string, vals: string)
    requires IsWord(name) && OneLine(cols) && OneLine(vals) && forall k :: 0 <= k < |vals| ==> vals[k] != ')'
    ensures Recognize("INSERT INTO " + name + " (" + cols + ") VALUES (" + vals + ")") == Some(InsertInto(name, cols, vals))
  {
    var s := "INSERT INTO " + name + " (" + cols + ") VALUES (" + vals + ")";
    var e := 12 + |name|;
    var f := e + 2;
    var q := f + |cols|;
    InsertHead(s, name, cols, vals);
    InsertName(s, name, cols, vals, e, f, q);
    InsertValuesGroup(s, name, cols, vals, f, q);
    MatchInsertAt(s, name, cols, vals, e, f, q);
    RecognizeInsert(s, InsertInto(name, cols, vals));
  }


  // ---------------------------------------------------------------- WHERE clauses

  /** A WHERE condition as canonical text writes it: on one line, not starting with whitespace. */
  predicate Condition(c: string)
  {
    c != [] && !IsSpace(c[0]) && OneLine(c)
  }

  /** The optional WHERE clause of canonical text. */
  function WhereText(w: Option<string>): string
  {
    if w.Some? then " WHERE " + w.value else ""
  }

  /** A WHERE clause at `i`, both as the optional group of SELECT and DELETE and as the
      end-anchored group of UPDATE. */
  lemma WhereAtIs(s: string, i: nat)
    requires i + 7 <= |s| && IsSpace(s[i]) && SpaceEnd(s, i) == i + 1
    requires Keyword(s, i + 1, "WHERE") == Some(i + 6) && IsSpace(s[i + 6]) && SpaceEnd(s, i + 6) == i + 7
    requires LineEnd(s, i + 7) == |s|
    ensures WhereAt(s, i) == Some(s[i + 7..]) && TailWhere(s, i) == Some(s[i + 7..])
  {
    assert Spaces1(s, i) == Some(i + 1) && Spaces1(s, i + 6) == Some(i + 7);
    assert s[i + 7..LineEnd(s, i + 7)] == s[i + 7..];
  }

  lemma WherePositions(pre: string, cond: string)
    requires Condition(cond)
    ensures var s, i := pre + WhereText(Some(cond)), |pre|;
      && i + 7 <= |s| && IsSpace(s[i]) && SpaceEnd(s, i) == i + 1
      && Keyword(s, i + 1, "WHERE") == Some(i + 6) && IsSpace(s[i + 6]) && SpaceEnd(s, i + 6) == i + 7
      && LineEnd(s, i + 7) == |s| && s[i + 7..] == cond
  {
    var s, i := pre + WhereText(Some(cond)), |pre|;
    CapsKeywords();
    assert s[i + 1..i + 6] == "WHERE";
    KeywordHere(s, i + 1, "WHERE");
    SpaceEndIs(s, i, i + 1);
    SpaceEndIs(s, i + 6, i + 7);
    LineEndIs(s, i + 7, |s|);
    assert s[i + 7..] == cond;
  }

  /** Canonical WHERE text after any prefix is read back whole. */
  lemma WhereRoundTrip(pre: string, cond: string)
    requires Condition(cond)
    ensures WhereAt(pre + WhereText(Some(cond)), |pre|) == Some(cond)
    ensures TailWhere(pre + WhereText(Some(cond)), |pre|) == Some(cond)
  {
    WherePositions(pre, cond);
    WhereAtIs(pre + WhereText(Some(cond)), |pre|);
  }

  /** Without a WHERE clause the optional group does not take part. */
  lemma NoWhere(s: string)
    ensures WhereAt(s, |s|) == None && TailWhere(s, |s|) == None
  {
  }

  // ---------------------------------------------------------------- DELETE

  lemma DeleteHead(name: string, w: Option<string>)
    requires IsWord(name)
    ensures var s := "DELETE FROM " + name + WhereText(w);
      && Keyword(s, 0, "DELETE") == Some(6) && SpaceEnd(s, 6) == 7
      && Keyword(s, 7, "FROM") == Some(11) && SpaceEnd(s, 11) == 12
  {
    var s := "DELETE FROM " + name + WhereText(w);
    CapsKeywords();
    assert s[0..6] == "DELETE" && s[7..11] == "FROM";
    KeywordHere(s, 0, "DELETE");
    KeywordHere(s, 7, "FROM");
    SpaceEndIs(s, 6, 7);
    SpaceEndIs(s, 11, 12);
  }

  /** A statement opening with DELETE is none of the other four shapes. */
  lemma DeleteOnly(s: string)
    requires Keyword(s, 0, "DELETE").Some?
    ensures MatchCreate(s) == None && MatchInsert(s) == None && MatchSelect(s) == None && MatchUpdate(s) == None
  {
    assert UpperChar(s[0 + 0]) == "DELETE"[0];
    KeywordNot(s, 0, "CREATE", 0);
    KeywordNot(s, 0, "INSERT", 0);
    KeywordNot(s, 0, "SELECT", 0);
    KeywordNot(s, 0, "UPDATE", 0);
  }

  lemma DeleteName(name: string, w: Option<string>)
    requires IsWord(name)
    ensures var s, e := "DELETE FROM " + name + WhereText(w), 12 + |name|;
      && e <= |s| && WordEnd(s, 12) == e && s[12..e] == name
  {
    var s, e := "DELETE FROM " + name + WhereText(w), 12 + |name|;
    WordEndIs(s, 12, e);
    assert s[12..e] == name;
  }

  /** MatchDelete follows the positions of the parts of its shape. */
  lemma MatchDeleteAt(s: string, e: nat)
    requires Keyword(s, 0, "DELETE") == Some(6) && SpaceEnd(s, 6) == 7
    requires Keyword(s, 7, "FROM") == Some(11) && SpaceEnd(s, 11) == 12
    requires 12 < e <= |s| && WordEnd(s, 12) == e
    ensures MatchDelete(s) == Some(Delete(s[12..e], WhereAt(s, e)))
  {
  }

  /** `DELETE FROM name` and `DELETE FROM name WHERE cond` yield the name and the condition. */
  lemma DeleteRoundTrip(name: string, w: Option<string>)
    requires IsWord(name) && (w.Some? ==> Condition(w.value))
    ensures Recognize("DELETE FROM " + name + WhereText(w)) == Some(Delete(name, w))
  {
    var s, e := "DELETE FROM " + name + WhereText(w), 12 + |name|;
    DeleteHead(name, w);
    DeleteName(name, w);
    DeleteOnly(s);
    MatchDeleteAt(s, e);
    if w.Some? {
      WhereRoundTrip("DELETE FROM " + name, w.value);
    } else {
      NoWhere(s);
    }
  }

  // ---------------------------------------------------------------- JOIN clauses

  /** `table.column` as a JOIN condition writes it. */
  function Qualified(table: string, column: string): string
  {
    table + "." + column
  }

  /** The optional JOIN clause of canonical SELECT text. */
  function JoinText(j: Option<JoinClause>): string
  {
    if j.None? then ""
    else
      var c := j.value;
      " JOIN " + c.table + " ON " + Qualified(c.leftTable, c.leftCol) + " = " + Qualified(c.rightTable, c.rightCol)
  }

  /** Every name of a JOIN clause is a word. */
  predicate JoinWords(j: Option<JoinClause>)
  {
    j.Some? ==>
      && IsWord(j.value.table) && IsWord(j.value.leftTable) && IsWord(j.value.leftCol)
      && IsWord(j.value.rightTable) && IsWord(j.value.rightCol)
  }

  lemma JoinOneLine(j: Option<JoinClause>)
    requires JoinWords(j)
    ensures OneLine(JoinText(j))
  {
    if j.Some? {
      var c := j.value;
      var q1, q2 := Qualified(c.leftTable, c.leftCol), Qualified(c.rightTable, c.rightCol);
      OneLineCat(c.leftTable, ".");
      OneLineCat(c.leftTable + ".", c.leftCol);
      OneLineCat(c.rightTable, ".");
      OneLineCat(c.rightTable + ".", c.rightCol);
      OneLineCat(" JOIN " + c.table, " ON ");
      OneLineCat(" JOIN " + c.table + " ON ", q1);
      OneLineCat(" JOIN " + c.table + " ON " + q1, " = ");
      OneLineCat(" JOIN " + c.table + " ON " + q1 + " = ", q2);
    }
  }

  /** The pieces of canonical JOIN text, as slices. */
  lemma JoinPieces(jc: JoinClause, t: nat, q: nat)
    requires t == 6 + |jc.table| && q == t + 4 + |Qualified(jc.leftTable, jc.leftCol)|
    ensures var js := JoinText(Some(jc));
      && q + 3 <= |js| && js[0..6] == " JOIN " && js[6..t] == jc.table && js[t..t + 4] == " ON "
      && js[t + 4..q] == Qualified(jc.leftTable, jc.leftCol) && js[q..q + 3] == " = "
      && js[q + 3..|js|] == Qualified(jc.rightTable, jc.rightCol)
  {
    var js := JoinText(Some(jc));
    assert js[0..6] == " JOIN " && js[6..t] == jc.table && js[t..t + 4] == " ON ";
    assert js[t + 4..q] == Qualified(jc.leftTable, jc.leftCol) && js[q..q + 3] == " = ";
    assert js[q + 3..|js|] == Qualified(jc.rightTable, jc.rightCol);
  }

  /** A slice of a slice: `w` lies at `i` in `s`, and `v` at `a` in `w`. */
  lemma SliceIn(s: string, i: nat, w: string, a: nat, b: nat, x: nat, y: nat, v: string)
    requires i + |w| <= |s| && s[i..i + |w|] == w && a <= b <= |w| && w[a..b] == v
    requires x == i + a && y == i + b
    ensures s[x..y] == v
  {
    assert forall z :: x <= z < y ==> s[z] == w[z - i];
  }


  /** A word sits at `lo` and no word character follows it. */
  lemma WordAt(s: string, lo: nat, w: string)
    requires lo + |w| <= |s| && s[lo..lo + |w|] == w && IsWord(w)
    requires lo + |w| == |s| || !IsWordChar(s[lo + |w|])
    ensures Word1(s, lo) == Some(lo + |w|)
  {
    assert forall y :: lo <= y < lo + |w| ==> s[y] == w[y - lo];
    WordEndIs(s, lo, lo + |w|);
  }

  /** A single whitespace character before a word. */
  lemma SpaceAt(s: string, i: nat)
    requires i + 1 < |s| && IsSpace(s[i]) && IsWordChar(s[i + 1])
    ensures Spaces1(s, i) == Some(i + 1) && SpaceEnd(s, i) == i + 1
  {
    SpaceEndIs(s, i, i + 1);
  }

  /** `table.column` at `x`, followed by no word character. */
  lemma QualifiedAt(s: string, x: nat, table: string, column: string, e: nat)
    requires IsWord(table) && IsWord(column) && e == x + |Qualified(table, column)|
    requires e <= |s| && s[x..e] == Qualified(table, column)
    requires e == |s| || !IsWordChar(s[e])
    ensures QualifiedNameAt(s, x) == Some((table, column, e))
  {
    var q, d := Qualified(table, column), x + |table|;
    assert q[0..|table|] == table && q[|table|] == '.' && q[|table| + 1..|q|] == column;
    SliceIn(s, x, q, 0, |table|, x, d, table);
    SliceIn(s, x, q, |table| + 1, |q|, d + 1, e, column);
    assert s[d] == q[|table|];
    WordAt(s, x, table);
    WordAt(s, d + 1, column);
  }

  /** The JOIN and ON keywords and the joined table at `i`. */
  lemma JoinHead(s: string, i: nat, table: string, t: nat)
    requires IsWord(table) && t == i + 6 + |table| && t + 4 < |s| && IsWordChar(s[t + 4])
    requires s[i..i + 6] == " JOIN " && s[i + 6..t] == table && s[t..t + 4] == " ON "
    ensures JoinHeadAt(s, i) == Some((table, t + 4))
  {
    CapsKeywords();
    SliceIn(s, i, " JOIN ", 1, 5, i + 1, i + 5, "JOIN");
    SliceIn(s, t, " ON ", 1, 3, t + 1, t + 3, "ON");
    assert s[i + 6] == table[0];
    KeywordHere(s, i + 1, "JOIN");
    KeywordHere(s, t + 1, "ON");
    SpaceAt(s, i);
    SpaceAt(s, i + 5);
    SpaceAt(s, t);
    SpaceAt(s, t + 3);
    WordAt(s, i + 6, table);
  }

  /** The JOIN keyword, the joined table and the ON keyword of canonical JOIN text at `i`. */
  lemma JoinHeadPieces(s: string, i: nat, jc: JoinClause, t: nat, m: nat, e: nat)
    requires JoinWords(Some(jc))
    requires t == i + 6 + |jc.table| && m == t + 4 + |Qualified(jc.leftTable, jc.leftCol)|
    requires e == i + |JoinText(Some(jc))| && e <= |s| && s[i..e] == JoinText(Some(jc))
    ensures t + 4 < |s| && s[i..i + 6] == " JOIN " && s[i + 6..t] == jc.table && s[t..t + 4] == " ON "
    ensures IsWordChar(s[t + 4])
  {
    var js, q1 := JoinText(Some(jc)), Qualified(jc.leftTable, jc.leftCol);
    var tr, mr := t - i, m - i;
    JoinPieces(jc, tr, mr);
    SliceIn(s, i, js, 0, 6, i, i + 6, " JOIN ");
    SliceIn(s, i, js, 6, tr, i + 6, t, jc.table);
    SliceIn(s, i, js, tr, tr + 4, t, t + 4, " ON ");
    SliceIn(s, i, js, tr + 4, mr, t + 4, m, q1);
    assert s[t + 4] == q1[0] && q1[0] == jc.leftTable[0];
  }

  /** The two sides of canonical JOIN text at `i` and the `=` between them. */
  lemma JoinSidePieces(s: string, i: nat, jc: JoinClause, t: nat, m: nat, e: nat)
    requires JoinWords(Some(jc))
    requires t == i + 6 + |jc.table| && m == t + 4 + |Qualified(jc.leftTable, jc.leftCol)|
    requires e == i + |JoinText(Some(jc))| && e <= |s| && s[i..e] == JoinText(Some(jc))
    ensures m + 3 < |s| && s[t + 4..m] == Qualified(jc.leftTable, jc.leftCol) && s[m..m + 3] == " = "
    ensures s[m + 3..e] == Qualified(jc.rightTable, jc.rightCol) && IsWordChar(s[m + 3])
    ensures e == m + 3 + |Qualified(jc.rightTable, jc.rightCol)|
  {
    var js, q1, q2 := JoinText(Some(jc)), Qualified(jc.leftTable, jc.leftCol), Qualified(jc.rightTable, jc.rightCol);
    var tr, mr := t - i, m - i;
    JoinPieces(jc, tr, mr);
    SliceIn(s, i, js, tr + 4, mr, t + 4, m, q1);
    SliceIn(s, i, js, mr, mr + 3, m, m + 3, " = ");
    SliceIn(s, i, js, mr + 3, |js|, m + 3, e, q2);
    assert s[m + 3] == q2[0] && q2[0] == jc.rightTable[0];
  }

  /** The `=` between the two sides, with one space on each side of it. */
  lemma JoinEquals(s: string, m: nat)
    requires m + 3 < |s| && s[m..m + 3] == " = " && IsWordChar(s[m + 3])
    ensures Char(s, SpaceEnd(s, m), '=') == Some(m + 2) && SpaceEnd(s, m + 2) == m + 3
  {
    assert s[m] == ' ' && s[m + 1] == '=' && s[m + 2] == ' ';
    SpaceEndIs(s, m, m + 1);
    SpaceEndIs(s, m + 2, m + 3);
  }

  /** The two `table.column` sides and the `=` between them. */
  lemma JoinSides(s: string, jc: JoinClause, f: nat, m: nat, e: nat)
    requires JoinWords(Some(jc))
    requires m == f + |Qualified(jc.leftTable, jc.leftCol)| && e == m + 3 + |Qualified(jc.rightTable, jc.rightCol)| <= |s|
    requires m + 3 < |s| && s[f..m] == Qualified(jc.leftTable, jc.leftCol) && s[m..m + 3] == " = "
    requires s[m + 3..e] == Qualified(jc.rightTable, jc.rightCol) && IsWordChar(s[m + 3])
    requires e == |s| || !IsWordChar(s[e])
    ensures QualifiedNameAt(s, f) == Some((jc.leftTable, jc.leftCol, m))
    ensures Char(s, SpaceEnd(s, m), '=') == Some(m + 2) && SpaceEnd(s, m + 2) == m + 3
    ensures QualifiedNameAt(s, m + 3) == Some((jc.rightTable, jc.rightCol, e))
  {
    assert s[m] == ' ';
    QualifiedAt(s, f, jc.leftTable, jc.leftCol, m);
    JoinEquals(s, m);
    QualifiedAt(s, m + 3, jc.rightTable, jc.rightCol, e);
  }

  /** The head of canonical JOIN text at `i`, as JoinHeadAt reads it. */
  lemma JoinHeadText(s: string, i: nat, jc: JoinClause, t: nat, m: nat, e: nat)
    requires JoinWords(Some(jc))
    requires t == i + 6 + |jc.table| && m == t + 4 + |Qualified(jc.leftTable, jc.leftCol)|
    requires e == i + |JoinText(Some(jc))| && e <= |s| && s[i..e] == JoinText(Some(jc))
    ensures i <= |s| && JoinHeadAt(s, i) == Some((jc.table, t + 4))
  {
    JoinHeadPieces(s, i, jc, t, m, e);
    JoinHead(s, i, jc.table, t);
  }

  /** The two sides of canonical JOIN text at `i`, as JoinAt reads them. */
  lemma JoinSidesText(s: string, i: nat, jc: JoinClause, t: nat, m: nat, e: nat)
    requires JoinWords(Some(jc))
    requires t == i + 6 + |jc.table| && m == t + 4 + |Qualified(jc.leftTable, jc.leftCol)|
    requires e == i + |JoinText(Some(jc))| && e <= |s| && s[i..e] == JoinText(Some(jc))
    requires e == |s| || !IsWordChar(s[e])
    ensures QualifiedNameAt(s, t + 4) == Some((jc.leftTable, jc.leftCol, m))
    ensures Char(s, SpaceEnd(s, m), '=') == Some(m + 2) && SpaceEnd(s, m + 2) == m + 3
    ensures QualifiedNameAt(s, m + 3) == Some((jc.rightTable, jc.rightCol, e))
  {
    JoinSidePieces(s, i, jc, t, m, e);
    JoinSides(s, jc, t + 4, m, e);
  }

  /** JoinAt follows the positions of the parts of its shape. */
  lemma JoinAtIs(s: string, i: nat, jc: JoinClause, t: nat, m: nat, e: nat)
    requires i <= |s| && JoinHeadAt(s, i) == Some((jc.table, t + 4))
    requires QualifiedNameAt(s, t + 4) == Some((jc.leftTable, jc.leftCol, m))
    requires Char(s, SpaceEnd(s, m), '=') == Some(m + 2) && SpaceEnd(s, m + 2) == m + 3
    requires QualifiedNameAt(s, m + 3) == Some((jc.rightTable, jc.rightCol, e))
    ensures JoinAt(s, i) == Some((jc, e))
  {
  }

  /** Canonical JOIN text at `i`, followed by no word character, is read back whole. */
  lemma JoinAtText(s: string, i: nat, jc: JoinClause, t: nat, m: nat, e: nat)
    requires JoinWords(Some(jc))
    requires t == i + 6 + |jc.table| && m == t + 4 + |Qualified(jc.leftTable, jc.leftCol)|
    requires e == i + |JoinText(Some(jc))| && e <= |s| && s[i..e] == JoinText(Some(jc))
    requires e == |s| || !IsWordChar(s[e])
    ensures JoinAt(s, i) == Some((jc, e))
  {
    JoinHeadText(s, i, jc, t, m, e);
    JoinSidesText(s, i, jc, t, m, e);
    JoinAtIs(s, i, jc, t, m, e);
  }

  // ---------------------------------------------------------------- SELECT

  /** The keywords and the column group of a SELECT statement, `e` where the group ends. */
  lemma SelectFront(s: string, c: string, t: string, js: string, ws: string, e: nat)
    requires s == "SELECT " + c + " FROM " + t + js + ws && e == 7 + |c|
    ensures e + 6 <= |s| && s[0..7] == "SELECT " && s[7..e] == c && s[e..e + 6] == " FROM "
  {
    assert s[0..7] == "SELECT ";
    assert s[7..e] == c;
    assert s[e..e + 6] == " FROM ";
  }

  /** What follows FROM in a SELECT statement, `i` where the table name ends. */
  lemma SelectFromPart(s: string, c: string, t: string, js: string, ws: string, e: nat, i: nat)
    requires s == "SELECT " + c + " FROM " + t + js + ws && e == 7 + |c| && i == e + 6 + |t|
    ensures i <= |s| && s[e + 5..|s|] == " " + t + js + ws && s[e + 6..i] == t
  {
    assert s[e + 5..|s|] == " " + t + js + ws;
    assert s[e + 6..i] == t;
  }

  /** The JOIN and WHERE parts of a SELECT statement, after the table name ending at `i`. */
  lemma SelectBack(s: string, c: string, t: string, js: string, ws: string, i: nat, x: nat)
    requires s == "SELECT " + c + " FROM " + t + js + ws && i == 13 + |c| + |t| && x == i + |js|
    ensures x + |ws| == |s| && s[i..x] == js && s[x..|s|] == ws
  {
    assert s[i..x] == js;
    assert s[x..|s|] == ws;
  }

  /** A statement opening with `SELECT ` is read as SELECT's keyword and nothing before it. */
  lemma SelectKeywords(s: string)
    requires 8 <= |s| && s[0..7] == "SELECT " && !IsSpace(s[7])
    ensures Keyword(s, 0, "SELECT") == Some(6) && SpaceEnd(s, 6) == 7
    ensures Keyword(s, 0, "CREATE") == None && Keyword(s, 0, "INSERT") == None
  {
    CapsKeywords();
    assert s[0] == 'S' && s[6] == ' ';
    KeywordNot(s, 0, "CREATE", 0);
    KeywordNot(s, 0, "INSERT", 0);
    SliceIn(s, 0, "SELECT ", 0, 6, 0, 6, "SELECT");
    KeywordHere(s, 0, "SELECT");
    SpaceEndIs(s, 6, 7);
  }

  /** ` FROM table` at `e`, the table name ending at `i`. */
  lemma FromHere(s: string, t: string, e: nat, i: nat)
    requires IsWord(t) && i == e + 6 + |t| && i <= |s|
    requires s[e..e + 6] == " FROM " && s[e + 6..i] == t && (i == |s| || !IsWordChar(s[i]))
    ensures FromAt(s, e) == Some((e + 6, i))
  {
    CapsKeywords();
    SliceIn(s, e, " FROM ", 1, 5, e + 1, e + 5, "FROM");
    assert s[e + 6] == t[0];
    KeywordHere(s, e + 1, "FROM");
    SpaceAt(s, e);
    SpaceAt(s, e + 5);
    WordAt(s, e + 6, t);
  }

  /** ` FROM ` matches nowhere after `e` when no word of what follows it starts with FROM. */
  lemma NoLaterFrom(s: string, e: nat, r: string)
    requires e + 6 <= |s| && s[e..e + 6] == " FROM " && s[e + 5..|s|] == r
    requires NoKeywordAfterSpace(r, "FROM")
    ensures forall k :: e < k <= |s| ==> FromAt(s, k).None?
  {
    forall k | e < k <= |s|
      ensures FromAt(s, k).None?
    {
      if FromAt(s, k).Some? {
        var a := SpaceEnd(s, k);
        SpaceRun(s, k);
        assert IsSpace(s[a - 1]) && KeywordAt(s, a, "FROM");
        if a > e + 5 {
          KeywordSlice(s, e + 5, |s|, r, a, "FROM");
        }
      }
    }
  }

  /** The column group of SELECT ends at `e` when FROM follows there and nowhere later. */
  lemma SelectColumnsGroup(s: string, e: nat)
    requires 7 <= e <= |s| && LineEnd(s, 7) == |s| && FromAt(s, e).Some?
    requires forall k :: e < k <= |s| ==> FromAt(s, k).None?
    ensures ColumnsEnd(s, 7) == Some(e)
  {
    var p, h := FromProbe(s), |s| + 1;
    assert p(e);
    assert forall k :: e < k < h ==> !p(k);
    LastInIs(7, h, p, e);
  }

  /** The optional JOIN group does not take part where the statement ends or a WHERE follows. */
  lemma JoinNone(s: string, i: nat)
    requires i == |s| || (i + 1 < |s| && s[i] == ' ' && s[i + 1] == 'W')
    ensures JoinAt(s, i) == None
  {
    if i < |s| {
      SpaceEndIs(s, i, i + 1);
      KeywordNot(s, i + 1, "JOIN", 0);
    }
  }

  /** Canonical SELECT text holds no newline. */
  lemma SelectOneLine(c: string, t: string, j: Option<JoinClause>, w: Option<string>)
    requires OneLine(c) && IsWord(t) && JoinWords(j) && (w.Some? ==> Condition(w.value))
    ensures OneLine("SELECT " + c + " FROM " + t + JoinText(j) + WhereText(w))
  {
    JoinOneLine(j);
    OneLineCat("SELECT ", c);
    OneLineCat("SELECT " + c, " FROM ");
    OneLineCat("SELECT " + c + " FROM ", t);
    OneLineCat("SELECT " + c + " FROM " + t, JoinText(j));
    if w.Some? {
      OneLineCat(" WHERE ", w.value);
    }
    OneLineCat("SELECT " + c + " FROM " + t + JoinText(j), WhereText(w));
  }

  /** What follows the table name and the JOIN clause starts with whitespace, or is nothing. */
  lemma SelectGaps(s: string, i: nat, x: nat, j: Option<JoinClause>, w: Option<string>)
    requires i <= x <= |s| && s[i..x] == JoinText(j) && s[x..|s|] == WhereText(w)
    ensures i == |s| || !IsWordChar(s[i])
    ensures x == |s| || !IsWordChar(s[x])
    ensures j.None? ==> i == |s| || (i + 1 < |s| && s[i] == ' ' && s[i + 1] == 'W')
  {
    if j.Some? {
      assert s[i] == JoinText(j)[0];
    }
    if w.Some? {
      assert s[x] == WhereText(w)[0] && s[x + 1] == WhereText(w)[1];
    }
  }

  /** The positions of the parts of SELECT's shape in `s`: the column group ends at `e`, the
      table name at `i` and the JOIN clause, when there is one, at `x`. */
  predicate SelectShapeAt(s: string, e: nat, i: nat, x: nat, j: Option<JoinClause>)
  {
    && Keyword(s, 0, "SELECT") == Some(6) && SpaceEnd(s, 6) == 7
    && 7 <= e <= |s| && ColumnsEnd(s, 7) == Some(e)
    && FromAt(s, e) == Some((e + 6, i))
    && (j.Some? ==> JoinAt(s, i) == Some((j.value, x)))
    && (j.None? ==> JoinAt(s, i) == None && x == i)
  }

  lemma SelectGroupCols(s: string, c: string, e: nat, i: nat, x: nat, j: Option<JoinClause>)
    requires SelectShapeAt(s, e, i, x, j) && s[7..e] == c
    ensures MatchSelect(s).Some? && MatchSelect(s).value.Select? && MatchSelect(s).value.cols == c
  {
  }

  lemma SelectGroupTable(s: string, t: string, e: nat, i: nat, x: nat, j: Option<JoinClause>)
    requires SelectShapeAt(s, e, i, x, j) && s[e + 6..i] == t
    ensures MatchSelect(s).Some? && MatchSelect(s).value.Select? && MatchSelect(s).value.table == t
  {
  }

  lemma SelectGroupJoin(s: string, e: nat, i: nat, x: nat, j: Option<JoinClause>)
    requires SelectShapeAt(s, e, i, x, j)
    ensures MatchSelect(s).Some? && MatchSelect(s).value.Select? && MatchSelect(s).value.join == j
  {
  }

  lemma SelectGroupWhere(s: string, w: Option<string>, e: nat, i: nat, x: nat, j: Option<JoinClause>)
    requires SelectShapeAt(s, e, i, x, j) && x <= |s| && WhereAt(s, x) == w
    ensures MatchSelect(s).Some? && MatchSelect(s).value.Select? && MatchSelect(s).value.where == w
  {
  }

  /** MatchSelect follows the positions of the parts of its shape. */
  lemma MatchSelectAt(s: string, c: string, t: string, j: Option<JoinClause>, w: Option<string>, e: nat, i: nat, x: nat)
    requires SelectShapeAt(s, e, i, x, j) && x <= |s| && WhereAt(s, x) == w
    requires s[7..e] == c && s[e + 6..i] == t
    ensures MatchSelect(s) == Some(Select(c, t, j, w))
  {
    SelectGroupCols(s, c, e, i, x, j);
    SelectGroupTable(s, t, e, i, x, j);
    SelectGroupJoin(s, e, i, x, j);
    SelectGroupWhere(s, w, e, i, x, j);
  }

  /** A statement that is neither CREATE nor INSERT is read as SELECT when it has its shape. */
  lemma RecognizeSelect(s: string, st: Statement)
    requires Keyword(s, 0, "CREATE") == None && Keyword(s, 0, "INSERT") == None && MatchSelect(s) == Some(st)
    ensures Recognize(s) == Some(st)
  {
  }

  /** The JOIN group of canonical SELECT text, the table name ending at `i` and the clause at `x`. */
  lemma SelectJoin(s: string, i: nat, x: nat, j: Option<JoinClause>, w: Option<string>)
    requires JoinWords(j) && x == i + |JoinText(j)|
    requires i <= x <= |s| && s[i..x] == JoinText(j) && s[x..|s|] == WhereText(w)
    ensures j.Some? ==> JoinAt(s, i) == Some((j.value, x))
    ensures j.None? ==> JoinAt(s, i) == None && x == i
  {
    SelectGaps(s, i, x, j, w);
    if j.Some? {
      var jc := j.value;
      var t := i + 6 + |jc.table|;
      JoinAtText(s, i, jc, t, t + 4 + |Qualified(jc.leftTable, jc.leftCol)|, x);
    } else {
      JoinNone(s, i);
    }
  }

  /** An optional WHERE clause after any prefix is read back as it was written. */
  lemma WhereAfter(s: string, pre: string, w: Option<string>, x: nat)
    requires w.Some? ==> Condition(w.value)
    requires s == pre + WhereText(w) && x == |pre|
    ensures x <= |s| && WhereAt(s, x) == w && TailWhere(s, x) == w
  {
    if w.Some? {
      WhereRoundTrip(pre, w.value);
    } else {
      NoWhere(s);
    }
  }

  /** The slices of canonical SELECT text at its positions. */
  lemma SelectSlices(s: string, c: string, t: string, j: Option<JoinClause>, w: Option<string>, e: nat, i: nat, x: nat)
    requires Condition(c) && IsWord(t) && JoinWords(j) && (w.Some? ==> Condition(w.value))
    requires s == "SELECT " + c + " FROM " + t + JoinText(j) + WhereText(w)
    requires e == 7 + |c| && i == e + 6 + |t| && x == i + |JoinText(j)|
    ensures 8 <= e && e + 6 <= i <= x <= |s| && OneLine(s) && !IsSpace(s[7])
    ensures s[0..7] == "SELECT " && s[7..e] == c && s[e..e + 6] == " FROM " && s[e + 6..i] == t
    ensures s[e + 5..|s|] == " " + t + JoinText(j) + WhereText(w)
    ensures s[i..x] == JoinText(j) && s[x..|s|] == WhereText(w)
  {
    var js, ws := JoinText(j), WhereText(w);
    SelectFront(s, c, t, js, ws, e);
    SelectFromPart(s, c, t, js, ws, e, i);
    SelectBack(s, c, t, js, ws, i, x);
    SelectOneLine(c, t, j, w);
    assert s[7] == c[0];
  }

  /** SELECT's shape at the positions of canonical SELECT text. */
  lemma SelectShape(s: string, c: string, t: string, j: Option<JoinClause>, w: Option<string>, e: nat, i: nat, x: nat)
    requires IsWord(t) && JoinWords(j) && NoKeywordAfterSpace(" " + t + JoinText(j) + WhereText(w), "FROM")
    requires 8 <= e && e + 6 <= i <= x <= |s| && OneLine(s) && !IsSpace(s[7])
    requires i == e + 6 + |t| && x == i + |JoinText(j)|
    requires s[0..7] == "SELECT " && s[e..e + 6] == " FROM " && s[e + 6..i] == t
    requires s[e + 5..|s|] == " " + t + JoinText(j) + WhereText(w)
    requires s[i..x] == JoinText(j) && s[x..|s|] == WhereText(w)
    ensures SelectShapeAt(s, e, i, x, j)
    ensures Keyword(s, 0, "CREATE") == None && Keyword(s, 0, "INSERT") == None
  {
    LineEndIs(s, 7, |s|);
    SelectKeywords(s);
    SelectGaps(s, i, x, j, w);
    FromHere(s, t, e, i);
    NoLaterFrom(s, e, " " + t + JoinText(j) + WhereText(w));
    SelectColumnsGroup(s, e);
    SelectJoin(s, i, x, j, w);
  }

  /** `SELECT cols FROM table`, with an optional JOIN clause and an optional WHERE clause,
      yields its groups when no later word of the statement starts with FROM. */
  lemma SelectRoundTrip(c: string, t: string, j: Option<JoinClause>, w: Option<string>)
    requires Condition(c) && IsWord(t) && JoinWords(j) && (w.Some? ==> Condition(w.value))
    requires NoKeywordAfterSpace(" " + t + JoinText(j) + WhereText(w), "FROM")
    ensures Recognize("SELECT " + c + " FROM " + t + JoinText(j) + WhereText(w)) == Some(Select(c, t, j, w))
  {
    var s := "SELECT " + c + " FROM " + t + JoinText(j) + WhereText(w);
    var e := 7 + |c|;
    var i := e + 6 + |t|;
    var x := i + |JoinText(j)|;
    SelectSlices(s, c, t, j, w, e, i, x);
    SelectShape(s, c, t, j, w, e, i, x);
    WhereAfter(s, "SELECT " + c + " FROM " + t + JoinText(j), w, x);
    MatchSelectAt(s, c, t, j, w, e, i, x);
    RecognizeSelect(s, Select(c, t, j, w));
  }

  /** An empty column list: `SELECT  FROM t` (two blanks) matches with an empty column group,
      because `\s+` gives back one blank for ` FROM`. */
  lemma EmptyColumnGroup()
    ensures Recognize("SELECT  FROM t") == Some(Select("", "t", None, None))
  {
    var s := "SELECT  FROM t";
    EmptyColumnsHead(s);
    EmptyColumnsNoEnd(s);
    assert ColumnsGroup(s, 6, 8) == Some((7, 7));
    assert JoinAt(s, 14) == None && WhereAt(s, 14) == None;
    assert MatchSelect(s) == Some(Select(s[7..7], s[13..14], None, None));
    assert s[7..7] == "" && s[13..14] == "t";
    RecognizeSelect(s, Select("", "t", None, None));
  }

  lemma EmptyColumnsHead(s: string)
    requires s == "SELECT  FROM t"
    ensures Keyword(s, 0, "CREATE") == None && Keyword(s, 0, "INSERT") == None
    ensures Keyword(s, 0, "SELECT") == Some(6) && Spaces1(s, 6) == Some(8)
    ensures FromAt(s, 7) == Some((13, 14))
  {
    CapsKeywords();
    KeywordNot(s, 0, "CREATE", 0);
    KeywordNot(s, 0, "INSERT", 0);
    assert s[0..6] == "SELECT";
    KeywordHere(s, 0, "SELECT");
    SpaceEndIs(s, 6, 8);
    SpaceEndIs(s, 7, 8);
    assert s[8..12] == "FROM";
    KeywordHere(s, 8, "FROM");
    SpaceEndIs(s, 12, 13);
    WordEndIs(s, 13, 14);
  }

  /** After the whole blank run no end of the column group is followed by ` FROM`. */
  lemma EmptyColumnsNoEnd(s: string)
    requires s == "SELECT  FROM t"
    ensures ColumnsEnd(s, 8) == None
  {
    LineEndIs(s, 8, 14);
    forall k | 8 <= k <= 14 ensures !FromProbe(s)(k) {
      if k == 12 {
        SpaceEndIs(s, 12, 13);
        KeywordNot(s, 13, "FROM", 0);
      } else if k < 14 {
        assert s[k] in "FROMt";
      }
    }
  }

  // ---------------------------------------------------------------- UPDATE

  /** The keywords, the table name and SET of an UPDATE statement, `p` where the name ends. */
  lemma UpdateFront(s: string, n: string, a: string, ws: string, p: nat)
    requires s == "UPDATE " + n + " SET " + a + ws && p == 7 + |n|
    ensures p + 5 <= |s| && s[0..7] == "UPDATE " && s[7..p] == n && s[p..p + 5] == " SET "
  {
    assert s[0..7] == "UPDATE ";
    assert s[7..p] == n;
    assert s[p..p + 5] == " SET ";
  }

  /** The SET group of an UPDATE statement, from `f` to `e`, and what follows it. */
  lemma UpdateBack(s: string, n: string, a: string, ws: string, f: nat, e: nat)
    requires s == "UPDATE " + n + " SET " + a + ws && f == 12 + |n| && e == f + |a|
    ensures e <= |s| && s[f..e] == a && s[e..|s|] == ws
  {
    assert s[f..e] == a;
    assert s[e..|s|] == ws;
  }

  /** Canonical UPDATE text holds no newline. */
  lemma UpdateOneLine(n: string, a: string, w: Option<string>)
    requires IsWord(n) && OneLine(a) && (w.Some? ==> Condition(w.value))
    ensures OneLine("UPDATE " + n + " SET " + a + WhereText(w))
  {
    OneLineCat("UPDATE ", n);
    OneLineCat("UPDATE " + n, " SET ");
    OneLineCat("UPDATE " + n + " SET ", a);
    if w.Some? {
      OneLineCat(" WHERE ", w.value);
    }
    OneLineCat("UPDATE " + n + " SET " + a, WhereText(w));
  }

  /** `UPDATE name SET ` read at the start of `s`, the name ending at `p`; it is none of the
      shapes tried before UPDATE. */
  lemma UpdateKeywords(s: string, n: string, p: nat)
    requires IsWord(n) && p == 7 + |n| && p + 5 < |s| && !IsSpace(s[p + 5])
    requires s[0..7] == "UPDATE " && s[7..p] == n && s[p..p + 5] == " SET "
    ensures Keyword(s, 0, "UPDATE") == Some(6) && Spaces1(s, 6) == Some(7) && Word1(s, 7) == Some(p)
    ensures Spaces1(s, p) == Some(p + 1) && Keyword(s, p + 1, "SET") == Some(p + 4) && Spaces1(s, p + 4) == Some(p + 5)
    ensures Keyword(s, 0, "CREATE") == None && Keyword(s, 0, "INSERT") == None && Keyword(s, 0, "SELECT") == None
  {
    CapsKeywords();
    assert s[0] == 'U' && s[6] == ' ' && s[7] == n[0];
    KeywordNot(s, 0, "CREATE", 0);
    KeywordNot(s, 0, "INSERT", 0);
    KeywordNot(s, 0, "SELECT", 0);
    SliceIn(s, 0, "UPDATE ", 0, 6, 0, 6, "UPDATE");
    SliceIn(s, p, " SET ", 1, 4, p + 1, p + 4, "SET");
    KeywordHere(s, 0, "UPDATE");
    KeywordHere(s, p + 1, "SET");
    SpaceAt(s, 6);
    WordAt(s, 7, n);
    assert s[p] == ' ' && s[p + 1] == 'S' && s[p + 4] == ' ';
    SpaceEndIs(s, p, p + 1);
    SpaceEndIs(s, p + 4, p + 5);
  }

  /** Each position a matched keyword covers holds that keyword's letter. */
  lemma KeywordLetter(s: string, i: nat, kw: string, x: nat)
    ensures KeywordAt(s, i, kw) && i <= x < i + |kw| ==> x < |s| && UpperChar(s[x]) == kw[x - i]
  {
    if KeywordAt(s, i, kw) && i <= x < i + |kw| {
      assert UpperChar(s[i + (x - i)]) == kw[x - i];
    }
  }

  /** No trailing WHERE clause starts inside the SET group `s[f..e]` when no word of it starts
      with WHERE, it does not end in whitespace, and whitespace or the end follows it. */
  lemma NoEarlierWhere(s: string, f: nat, e: nat, a: string)
    requires f < e <= |s| && s[f..e] == a && NoKeywordAfterSpace(a, "WHERE")
    requires !IsSpace(s[e - 1]) && (e == |s| || s[e] == ' ')
    ensures forall k :: f <= k < e ==> TailWhere(s, k).None?
  {
    forall k | f <= k < e
      ensures TailWhere(s, k).None?
    {
      if TailWhere(s, k).Some? {
        var b := SpaceEnd(s, k);
        SpaceRun(s, k);
        assert IsSpace(s[b - 1]) && KeywordAt(s, b, "WHERE");
        if b + 5 <= e {
          KeywordSlice(s, f, e, a, b, "WHERE");
        } else if b < e {
          KeywordLetter(s, b, "WHERE", e);
          assert false;
        }
      }
    }
  }

  /** The lazy SET group ends at `e` when a trailing WHERE clause or the end is there and no
      trailing WHERE clause starts earlier. */
  lemma UpdateSet(s: string, f: nat, e: nat)
    requires f <= e <= |s| && LineEnd(s, f) == |s| && (e == |s| || TailWhere(s, e).Some?)
    requires forall k :: f <= k < e ==> TailWhere(s, k).None?
    ensures SetEnd(s, f) == Some(e)
  {
    var p := WhereOrEndProbe(s);
    assert p(e);
    assert forall k :: f <= k < e ==> !p(k);
    FirstInIs(f, |s| + 1, p, e);
  }

  /** The slices of canonical UPDATE text: the name ends at `p`, the SET group runs from `f`
      to `e`. */
  lemma UpdateSlices(s: string, n: string, a: string, w: Option<string>, p: nat, f: nat, e: nat)
    requires IsWord(n) && Condition(a) && !IsSpace(a[|a| - 1]) && (w.Some? ==> Condition(w.value))
    requires s == "UPDATE " + n + " SET " + a + WhereText(w)
    requires p == 7 + |n| && f == p + 5 && e == f + |a|
    ensures f < e <= |s| && OneLine(s) && !IsSpace(s[f]) && !IsSpace(s[e - 1]) && (e == |s| || s[e] == ' ')
    ensures s[0..7] == "UPDATE " && s[7..p] == n && s[p..p + 5] == " SET " && s[f..e] == a
  {
    UpdateFront(s, n, a, WhereText(w), p);
    UpdateBack(s, n, a, WhereText(w), f, e);
    UpdateOneLine(n, a, w);
    assert s[f] == a[0] && s[e - 1] == a[|a| - 1];
    if e < |s| {
      assert s[e] == WhereText(w)[0];
    }
  }

  /** The positions of the parts of UPDATE's shape in `s`: the name ends at `p`, the SET group
      runs from `f` to `e`. */
  predicate UpdateShapeAt(s: string, p: nat, f: nat, e: nat)
  {
    && Keyword(s, 0, "UPDATE") == Some(6) && Spaces1(s, 6) == Some(7) && Word1(s, 7) == Some(p)
    && Spaces1(s, p) == Some(p + 1) && Keyword(s, p + 1, "SET") == Some(p + 4) && Spaces1(s, p + 4) == Some(p + 5)
    && f == p + 5 && SetEnd(s, f) == Some(e)
  }

  /** UPDATE's shape at the positions of canonical UPDATE text. */
  lemma UpdateShape(s: string, n: string, a: string, w: Option<string>, p: nat, f: nat, e: nat)
    requires IsWord(n) && NoKeywordAfterSpace(a, "WHERE")
    requires p == 7 + |n| && f == p + 5
    requires f < e <= |s| && OneLine(s) && !IsSpace(s[f]) && !IsSpace(s[e - 1]) && (e == |s| || s[e] == ' ')
    requires s[0..7] == "UPDATE " && s[7..p] == n && s[p..p + 5] == " SET " && s[f..e] == a
    requires TailWhere(s, e) == w && (w.None? ==> e == |s|)
    ensures UpdateShapeAt(s, p, f, e)
    ensures Keyword(s, 0, "CREATE") == None && Keyword(s, 0, "INSERT") == None && Keyword(s, 0, "SELECT") == None
  {
    UpdateKeywords(s, n, p);
    LineEndIs(s, f, |s|);
    NoEarlierWhere(s, f, e, a);
    UpdateSet(s, f, e);
  }

  lemma UpdateGroupName(s: string, n: string, p: nat, f: nat, e: nat)
    requires UpdateShapeAt(s, p, f, e) && s[7..p] == n
    ensures MatchUpdate(s).Some? && MatchUpdate(s).value.Update? && MatchUpdate(s).value.name == n
  {
  }

  lemma UpdateGroupAssignments(s: string, a: string, p: nat, f: nat, e: nat)
    requires UpdateShapeAt(s, p, f, e) && s[f..e] == a
    ensures MatchUpdate(s).Some? && MatchUpdate(s).value.Update? && MatchUpdate(s).value.assignments == a
  {
  }

  lemma UpdateGroupWhere(s: string, w: Option<string>, p: nat, f: nat, e: nat)
    requires UpdateShapeAt(s, p, f, e) && TailWhere(s, e) == w
    ensures MatchUpdate(s).Some? && MatchUpdate(s).value.Update? && MatchUpdate(s).value.where == w
  {
  }

  /** MatchUpdate follows the positions of the parts of its shape. */
  lemma MatchUpdateAt(s: string, n: string, a: string, w: Option<string>, p: nat, f: nat, e: nat)
    requires UpdateShapeAt(s, p, f, e) && s[7..p] == n && s[f..e] == a && TailWhere(s, e) == w
    ensures MatchUpdate(s) == Some(Update(n, a, w))
  {
    UpdateGroupName(s, n, p, f, e);
    UpdateGroupAssignments(s, a, p, f, e);
    UpdateGroupWhere(s, w, p, f, e);
  }

  /** A statement that is none of CREATE, INSERT and SELECT is read as UPDATE when it has its shape. */
  lemma RecognizeUpdate(s: string, st: Statement)
    requires Keyword(s, 0, "CREATE") == None && Keyword(s, 0, "INSERT") == None && Keyword(s, 0, "SELECT") == None
    requires MatchUpdate(s) == Some(st)
    ensures Recognize(s) == Some(st)
  {
  }

  /** `UPDATE name SET assignments`, with an optional WHERE clause, yields its groups when the
      assignments do not end in whitespace and no word of them starts with WHERE. */
  lemma UpdateRoundTrip(n: string, a: string, w: Option<string>)
    requires IsWord(n) && Condition(a) && !IsSpace(a[|a| - 1]) && NoKeywordAfterSpace(a, "WHERE")
    requires w.Some? ==> Condition(w.value)
    ensures Recognize("UPDATE " + n + " SET " + a + WhereText(w)) == Some(Update(n, a, w))
  {
    var s := "UPDATE " + n + " SET " + a + WhereText(w);
    var p := 7 + |n|;
    var f := p + 5;
    var e := f + |a|;
    UpdateSlices(s, n, a, w, p, f, e);
    WhereAfter(s, "UPDATE " + n + " SET " + a, w, e);
    UpdateShape(s, n, a, w, p, f, e);
    MatchUpdateAt(s, n, a, w, p, f, e);
    RecognizeUpdate(s, Update(n, a, w));
  }
}
