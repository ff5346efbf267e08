/** The field splitter for INSERT value lists: Python's
    `next(csv.reader([text], quotechar="'", skipinitialspace=True))` (engine.py lines 181-183),
    that is the reader's state machine with delimiter ',', quote character `'`, doubled quotes
    standing for one quote, and non-strict handling of stray text. */
module Csv {

  /** Where the reader stands inside the current field. */
  datatype Mode =
    | StartField      // nothing of the field read yet
    | InField         // inside an unquoted field
    | InQuoted        // inside a quoted field
    | QuoteInQuoted   // just after a quote inside a quoted field

  const Quote: char := '\''
  const Comma: char := ','

  /** The fields of one line of input. An empty line has no fields. */
  function Fields(line: string): seq<string>
  {
    if line == [] then [] else Scan(line, StartField, [], [])
  }

  /** Feeds the characters of `rest` to the reader, whose current field so far is `field` and whose
      finished fields are `done`. At the end of the line the current field is always saved (an
      unterminated quoted field included, as the non-strict reader does). */
  function Scan(rest: string, mode: Mode, field: string, done: seq<string>): seq<string>
    decreases |rest|
  {
    if rest == [] then done + [field]
    else
      var c, tail := rest[0], rest[1..];
      match mode
      case StartField =>
        if c == Quote then Scan(tail, InQuoted, field, done)
        else if c == ' ' then Scan(tail, StartField, field, done)
        else if c == Comma then Scan(tail, StartField, [], done + [field])
        else Scan(tail, InField, field + [c], done)
      case InField =>
        if c == Comma then Scan(tail, StartField, [], done + [field])
        else Scan(tail, InField, field + [c], done)
      case InQuoted =>
        if c == Quote then Scan(tail, QuoteInQuoted, field, done)
        else Scan(tail, InQuoted, field + [c], done)
      case QuoteInQuoted =>
        if c == Quote then Scan(tail, InQuoted, field + [c], done)
        else if c == Comma then Scan(tail, StartField, [], done + [field])
        else Scan(tail, InField, field + [c], done)
  }

  /** A value as it is written in a VALUES list: bare, or between single quotes. */
  datatype Literal = Bare(text: string) | Quoted(text: string)

  /** What each literal is read back as. */
  function Texts(lits: seq<Literal>): seq<string>
  {
    if lits == [] then [] else [lits[0].text] + Texts(lits[1..])
  }

  /** A literal the reader gives back unchanged: a bare one is non-empty and has no comma, no quote
      and no leading blank; a quoted one has no quote inside (commas are allowed). */
  predicate WellWritten(l: Literal)
  {
    match l
    case Bare(t) => t != [] && t[0] != ' ' && Quote !in t && Comma !in t
    case Quoted(t) => Quote !in t
  }

  function Write(l: Literal): string
  {
    match l
    case Bare(t) => t
    case Quoted(t) => [Quote] + t + [Quote]
  }

  /** The list as a statement writes it: literals separated by ", ". */
  function WriteAll(lits: seq<Literal>): string
  {
    if lits == [] then []
    else if |lits| == 1 then Write(lits[0])
    else Write(lits[0]) + ", " + WriteAll(lits[1..])
  }

  /** Reading a written list gives back each literal's text: in particular a quoted value keeps
      its commas and stays one field. */
  lemma {:induction false} ReadWritten(lits: seq<Literal>)
    requires lits != []
    requires forall k :: 0 <= k < |lits| ==> WellWritten(lits[k])
    ensures Fields(WriteAll(lits)) == Texts(lits)
  {
    ScanWritten(lits, []);
    assert WriteAll(lits) != [] by {
      if |lits| == 1 { assert |Write(lits[0])| >= 1; }
      else { assert |WriteAll(lits)| >= |Write(lits[0])| + 2; }
    }
  }

  lemma {:induction false} ScanWritten(lits: seq<Literal>, done: seq<string>)
    requires lits != []
    requires forall k :: 0 <= k < |lits| ==> WellWritten(lits[k])
    ensures Scan(WriteAll(lits), StartField, [], done) == done + Texts(lits)
    decreases |lits|
  {
    var l := lits[0];
    assert Texts(lits) == [l.text] + Texts(lits[1..]);
    if |lits| == 1 {
      ScanOne(l, [], done);
      assert Write(l) + [] == Write(l);
    } else {
      var tail := lits[1..];
      assert forall k :: 0 <= k < |tail| ==> WellWritten(tail[k]) by {
        forall k | 0 <= k < |tail| ensures WellWritten(tail[k]) { assert tail[k] == lits[k + 1]; }
      }
      assert WriteAll(lits) == Write(l) + ", " + WriteAll(tail);
      ScanSeparator(l, WriteAll(tail), done);
      ScanWritten(tail, done + [l.text]);
      assert done + [l.text] + Texts(tail) == done + ([l.text] + Texts(tail));
    }
  }

  /** After one literal, the reader has saved it once it meets the ", " that follows, and it
      starts the next field. */
  lemma ScanSeparator(l: Literal, rest: string, done: seq<string>)
    requires WellWritten(l)
    ensures Scan(Write(l) + ", " + rest, StartField, [], done) == Scan(rest, StartField, [], done + [l.text])
  {
    var sep := ", " + rest;
    ScanOne(l, sep, done);
    assert sep[1..] == " " + rest && (" " + rest)[1..] == rest;
    assert Write(l) + ", " + rest == Write(l) + sep;
  }

  /** Reading one well-written literal leaves the reader just after it, holding its text. */
  lemma ScanOne(l: Literal, rest: string, done: seq<string>)
    requires WellWritten(l)
    ensures rest == [] ==> Scan(Write(l) + rest, StartField, [], done) == done + [l.text]
    ensures rest != [] && rest[0] == Comma ==>
      Scan(Write(l) + rest, StartField, [], done) == Scan(rest[1..], StartField, [], done + [l.text])
  {
    match l
    case Bare(t) =>
      var s := t + rest;
      assert s[0] == t[0] && s[1..] == t[1..] + rest;
      assert t[0] in t && [] + [t[0]] == [t[0]];
      assert Scan(s, StartField, [], done) == Scan(t[1..] + rest, InField, [t[0]], done);
      ScanPlain(t[1..], rest, InField, [t[0]], done);
      assert [t[0]] + t[1..] == t;
      ScanClose(rest, InField, t, done);
    case Quoted(t) =>
      var s := [Quote] + t + [Quote] + rest;
      assert s[1..] == t + ([Quote] + rest);
      ScanPlain(t, [Quote] + rest, InQuoted, [], done);
      assert ([Quote] + rest)[1..] == rest;
      assert [] + t == t;
      assert Write(l) + rest == s;
      ScanClose(rest, QuoteInQuoted, t, done);
  }

  /** The end of the line or a comma closes the current field. */
  lemma ScanClose(rest: string, mode: Mode, field: string, done: seq<string>)
    requires mode == InField || mode == QuoteInQuoted
    ensures rest == [] ==> Scan(rest, mode, field, done) == done + [field]
    ensures rest != [] && rest[0] == Comma ==>
      Scan(rest, mode, field, done) == Scan(rest[1..], StartField, [], done + [field])
  {
  }

  /** Characters that change nothing but the field: no comma in an unquoted field, no quote in a
      quoted one. */
  lemma {:induction false} ScanPlain(w: string, rest: string, mode: Mode, field: string, done: seq<string>)
    requires mode == InField || mode == InQuoted
    requires mode == InField ==> Comma !in w
    requires Quote !in w
    ensures Scan(w + rest, mode, field, done) == Scan(rest, mode, field + w, done)
    decreases |w|
  {
    if w == [] {
      assert w + rest == rest && field + w == field;
    } else {
      assert (w + rest)[1..] == w[1..] + rest;
      ScanPlain(w[1..], rest, mode, field + [w[0]], done);
      assert field + [w[0]] + w[1..] == field + w;
    }
  }
}
