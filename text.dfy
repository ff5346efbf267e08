/** The Python string operations the statement interpreter relies on: strip, split, `in`, str(int), int(str). */
module Text {
  import opened Values

  /** Python's `str.isspace()`, which both `str.strip()` and the regex class `\s` use. */
  predicate IsSpace(c: char)
  {
    if c <= ' ' then c == ' ' || ('\t' <= c <= '\r') || ('\U{1C}' <= c <= '\U{1F}')
    else '\U{85}' <= c && IsWideSpace(c)
  }

  /** The whitespace characters outside ASCII. */
  predicate IsWideSpace(c: char)
  {
    c == '\U{85}' || c == '\U{A0}' || c == '\U{1680}' || ('\U{2000}' <= c <= '\U{200A}')
    || c == '\U{2028}' || c == '\U{2029}' || c == '\U{202F}' || c == '\U{205F}' || c == '\U{3000}'
  }

  predicate IsDigit(c: char)
  {
    '0' <= c <= '9'
  }

  /** The regex class `\w`, on ASCII. */
  predicate IsWordChar(c: char)
  {
    ('a' <= c <= 'z') || ('A' <= c <= 'Z') || IsDigit(c) || c == '_'
  }

  // ---------------------------------------------------------------- strip

  /** `s.lstrip(chars)` where `chars` is given as a predicate. */
  function TrimStart(s: string, drop: char -> bool): (r: string)
    ensures |r| <= |s|
  {
    if s != [] && drop(s[0]) then TrimStart(s[1..], drop) else s
  }

  /** `s.rstrip(chars)` where `chars` is given as a predicate. */
  function TrimEnd(s: string, drop: char -> bool): (r: string)
    ensures |r| <= |s|
  {
    if s != [] && drop(s[|s| - 1]) then TrimEnd(s[..|s| - 1], drop) else s
  }

  /** Python's `s.strip()`. */
  function Strip(s: string): string
  {
    TrimEnd(TrimStart(s, IsSpace), IsSpace)
  }

  predicate IsSingleQuote(c: char) { c == '\'' }

  predicate IsDoubleQuote(c: char) { c == '"' }

  /** `v.strip("'").strip('"')`: how WHERE and SET literals lose their quotes (engine.py lines 215, 263, 271, 291). */
  function Unquote(s: string): string
  {
    var t := TrimEnd(TrimStart(s, IsSingleQuote), IsSingleQuote);
    TrimEnd(TrimStart(t, IsDoubleQuote), IsDoubleQuote)
  }

  /** lstrip removes a prefix made only of dropped characters and stops at one it keeps. */
  lemma {:induction false} TrimStartSpec(s: string, drop: char -> bool)
    ensures var r := TrimStart(s, drop);
      && r == s[|s| - |r|..]
      && (r == [] || !drop(r[0]))
      && (forall i :: 0 <= i < |s| - |r| ==> drop(s[i]))
  {
    if s != [] && drop(s[0]) {
      TrimStartSpec(s[1..], drop);
      var r := TrimStart(s, drop);
      assert s[1..][|s| - 1 - |r|..] == s[|s| - |r|..];
      forall i | 0 < i < |s| - |r| ensures drop(s[i]) {
        assert s[i] == s[1..][i - 1];
      }
    }
  }

  /** rstrip removes a suffix made only of dropped characters and stops at one it keeps. */
  lemma {:induction false} TrimEndSpec(s: string, drop: char -> bool)
    ensures var r := TrimEnd(s, drop);
      && r == s[..|r|]
      && (r == [] || !drop(r[|r| - 1]))
      && (forall i :: |r| <= i < |s| ==> drop(s[i]))
  {
    if s != [] && drop(s[|s| - 1]) {
      TrimEndSpec(s[..|s| - 1], drop);
      var r := TrimEnd(s, drop);
      assert s[..|s| - 1][..|r|] == s[..|r|];
      forall i | |r| <= i < |s| - 1 ensures drop(s[i]) {
        assert s[i] == s[..|s| - 1][i];
      }
    }
  }

  /** What strip leaves is a slice of the input that starts and ends with a non-space, and it
      removes only spaces. */
  lemma StripSpec(s: string)
    ensures var r, i := Strip(s), |s| - |TrimStart(s, IsSpace)|;
      && i + |r| <= |s| && r == s[i..i + |r|]
      && (forall k :: 0 <= k < i ==> IsSpace(s[k]))
      && (forall k :: i + |r| <= k < |s| ==> IsSpace(s[k]))
      && (r == [] || (!IsSpace(r[0]) && !IsSpace(r[|r| - 1])))
  {
    var t := TrimStart(s, IsSpace);
    var r := TrimEnd(t, IsSpace);
    var i := |s| - |t|;
    assert t == s[i..] && (t == [] || !IsSpace(t[0])) && forall k :: 0 <= k < i ==> IsSpace(s[k]) by {
      TrimStartSpec(s, IsSpace);
    }
    assert r == t[..|r|] && (r == [] || !IsSpace(r[|r| - 1])) && forall k :: |r| <= k < |t| ==> IsSpace(t[k]) by {
      TrimEndSpec(t, IsSpace);
    }
    assert r == s[i..i + |r|];
    forall k | i + |r| <= k < |s| ensures IsSpace(s[k]) {
      assert s[k] == t[k - i];
    }
    if r != [] {
      assert r[0] == t[0];
    }
  }

  /** Strip leaves a string alone when it neither starts nor ends with a space. */
  lemma StripNoop(s: string)
    requires s == [] || (!IsSpace(s[0]) && !IsSpace(s[|s| - 1]))
    ensures Strip(s) == s
  {
  }

  /** A literal written between matching quotes comes back without them. */
  lemma UnquoteQuoted(q: char, t: string)
    requires q == '\'' || q == '"'
    requires t == [] || (t[0] != '\'' && t[0] != '"' && t[|t| - 1] != '\'' && t[|t| - 1] != '"')
    ensures Unquote([q] + t + [q]) == t
  {
    var s := [q] + t + [q];
    assert s[1..] == t + [q] && (t + [q])[..|t|] == t;
    var drop, keep := IsSingleQuote, IsDoubleQuote;
    if q == '"' {
      drop, keep := IsDoubleQuote, IsSingleQuote;
    }
    TrimStartOne(s, drop);
    TrimEndOne(t + [q], drop);
    if t == [] {
      TrimStartOne(t + [q], drop);
      TrimEndDone(t, drop);
    } else {
      TrimStartDone(t + [q], drop);
      TrimEndDone(t, drop);
    }
    TrimStartDone(t, keep);
    TrimEndDone(t, keep);
    TrimStartDone(s, keep);
    TrimEndDone(s, keep);
  }

  lemma TrimStartOne(s: string, drop: char -> bool)
    requires s != [] && drop(s[0])
    ensures TrimStart(s, drop) == TrimStart(s[1..], drop)
  {
  }

  lemma TrimStartDone(s: string, drop: char -> bool)
    requires s == [] || !drop(s[0])
    ensures TrimStart(s, drop) == s
  {
  }

  lemma TrimEndOne(s: string, drop: char -> bool)
    requires s != [] && drop(s[|s| - 1])
    ensures TrimEnd(s, drop) == TrimEnd(s[..|s| - 1], drop)
  {
  }

  lemma TrimEndDone(s: string, drop: char -> bool)
    requires s == [] || !drop(s[|s| - 1])
    ensures TrimEnd(s, drop) == s
  {
  }

  // ---------------------------------------------------------------- split

  /** Python's `s.split(sep)` for a one-character separator: one more part than separators. */
  function Split(s: string, sep: char): (parts: seq<string>)
    ensures |parts| >= 1
    ensures forall k :: 0 <= k < |parts| ==> sep !in parts[k]
  {
    if s == [] then [[]]
    else
      var rest := Split(s[1..], sep);
      if s[0] == sep then [[]] + rest else [[s[0]] + rest[0]] + rest[1..]
  }

  /** Python's `sep.join(parts)`. */
  function Join(parts: seq<string>, sep: char): string
  {
    if parts == [] then []
    else if |parts| == 1 then parts[0]
    else parts[0] + [sep] + Join(parts[1..], sep)
  }

  lemma {:induction false} JoinSplit(s: string, sep: char)
    ensures Join(Split(s, sep), sep) == s
  {
    if s != [] {
      var rest := Split(s[1..], sep);
      JoinSplit(s[1..], sep);
      if s[0] == sep {
        assert Split(s, sep)[1..] == rest;
      } else {
        var parts := Split(s, sep);
        if |rest| == 1 {
          assert parts == [[s[0]] + rest[0]];
        } else {
          assert parts[1..] == rest[1..];
          assert Join(rest, sep) == rest[0] + [sep] + Join(rest[1..], sep);
        }
      }
    }
  }

  lemma {:induction false} SplitJoin(parts: seq<string>, sep: char)
    requires |parts| >= 1
    requires forall k :: 0 <= k < |parts| ==> sep !in parts[k]
    ensures Split(Join(parts, sep), sep) == parts
  {
    if |parts| == 1 {
      SplitPlain(parts[0], [], sep);
      assert parts[0] + [] == parts[0];
    } else {
      SplitJoin(parts[1..], sep);
      var tail := [sep] + Join(parts[1..], sep);
      assert Split(tail, sep) == [[]] + parts[1..] by {
        assert tail[1..] == Join(parts[1..], sep);
      }
      SplitPlain(parts[0], tail, sep);
      assert Join(parts, sep) == parts[0] + tail;
      assert parts[0] + [] == parts[0];
      assert [parts[0]] + parts[1..] == parts;
    }
  }

  /** Splitting a separator-free prefix glues it onto the first part. */
  lemma {:induction false} SplitPlain(w: string, t: string, sep: char)
    requires sep !in w
    ensures var r := Split(t, sep); Split(w + t, sep) == [w + r[0]] + r[1..]
  {
    var r := Split(t, sep);
    if w != [] {
      SplitPlain(w[1..], t, sep);
      assert (w + t)[1..] == w[1..] + t;
      var rest := Split(w[1..] + t, sep);
      assert rest[0] == w[1..] + r[0] && rest[1..] == r[1..];
      assert [w[0]] + (w[1..] + r[0]) == w + r[0];
    } else {
      assert w + t == t;
      assert w + r[0] == r[0];
      assert [r[0]] + r[1..] == r;
    }
  }

  /** Python's `s.split()`: the maximal runs of non-spaces. */
  function Words(s: string): (ws: seq<string>)
    ensures forall k :: 0 <= k < |ws| ==> ws[k] != [] && forall i :: 0 <= i < |ws[k]| ==> !IsSpace(ws[k][i])
    decreases |s|
  {
    if s == [] then []
    else if IsSpace(s[0]) then Words(s[1..])
    else
      var n := WordLength(s);
      [s[..n]] + Words(s[n..])
  }

  /** The length of the longest prefix of `s` without a space. */
  function WordLength(s: string): (n: nat)
    ensures n <= |s| && (n < |s| ==> IsSpace(s[n]))
    ensures forall i :: 0 <= i < n ==> !IsSpace(s[i])
  {
    if s == [] || IsSpace(s[0]) then 0 else 1 + WordLength(s[1..])
  }

  /** White space alone has no words. */
  lemma {:induction false} WordsOfBlanks(s: string)
    requires forall i :: 0 <= i < |s| ==> IsSpace(s[i])
    ensures Words(s) == []
    decreases |s|
  {
    if s != [] {
      WordsOfBlanks(s[1..]);
    }
  }

  /** A non-empty text without white space is one word. */
  lemma WordsOfWord(w: string)
    requires w != [] && forall i :: 0 <= i < |w| ==> !IsSpace(w[i])
    ensures Words(w) == [w]
  {
    WordLengthWhole(w);
    assert w[..|w|] == w && w[|w|..] == [];
    assert Words(w) == [w[..|w|]] + Words(w[|w|..]);
  }

  lemma {:induction false} WordLengthWhole(w: string)
    requires forall i :: 0 <= i < |w| ==> !IsSpace(w[i])
    ensures WordLength(w) == |w|
  {
    if w != [] {
      WordLengthWhole(w[1..]);
    }
  }

  /** A blank splits the text: the words of `a`, a blank, `b` are the words of `a` followed by the
      words of `b`. With the two lemmas above this fixes `split()` on every text. */
  lemma {:induction false} WordsSplit(a: string, c: char, b: string)
    requires IsSpace(c)
    ensures Words(a + [c] + b) == Words(a) + Words(b)
    decreases |a|
  {
    var s := a + [c] + b;
    if a == [] {
      assert s == [c] + b && s[1..] == b;
      WordsAfterSpace(s);
    } else if IsSpace(a[0]) {
      assert s[0] == a[0] && s[1..] == a[1..] + [c] + b;
      WordsSplit(a[1..], c, b);
      WordsAfterSpace(s);
      WordsAfterSpace(a);
    } else {
      var n := WordLength(a);
      WordLengthPrefix(a, [c] + b);
      assert s == a + ([c] + b);
      assert s[0] == a[0] && s[..n] == a[..n];
      WordsAfterWord(s);
      WordsAfterWord(a);
      if n < |a| {
        assert s[n..] == a[n..] + [c] + b;
        WordsSplit(a[n..], c, b);
      } else {
        assert s[n..] == [c] + b && s[n..][1..] == b;
        WordsAfterSpace(s[n..]);
        assert a[n..] == [];
      }
    }
  }

  lemma WordsAfterSpace(s: string)
    requires s != [] && IsSpace(s[0])
    ensures Words(s) == Words(s[1..])
  {
  }

  lemma WordsAfterWord(s: string)
    requires s != [] && !IsSpace(s[0])
    ensures Words(s) == [s[..WordLength(s)]] + Words(s[WordLength(s)..])
  {
  }

  /** The first word of `a + t` ends where `a`'s does when `a` has a blank, and at the end of `a`
      when `a` has none and `t` starts with one. */
  lemma {:induction false} WordLengthPrefix(a: string, t: string)
    requires t != [] && IsSpace(t[0])
    ensures WordLength(a + t) == WordLength(a)
    decreases |a|
  {
    if a == [] {
      assert a + t == t;
    } else if !IsSpace(a[0]) {
      assert (a + t)[1..] == a[1..] + t;
      WordLengthPrefix(a[1..], t);
    }
  }

  // ---------------------------------------------------------------- substring and case

  predicate OccursAt(s: string, sub: string, i: nat)
  {
    i + |sub| <= |s| && s[i..i + |sub|] == sub
  }

  /** Python's `sub in s`. */
  predicate Contains(s: string, sub: string)
    decreases |s|
  {
    |sub| <= |s| && (s[..|sub|] == sub || Contains(s[1..], sub))
  }

  lemma {:induction false} ContainsSpec(s: string, sub: string)
    ensures Contains(s, sub) <==> exists i: nat :: OccursAt(s, sub, i)
    decreases |s|
  {
    if |sub| <= |s| && s[..|sub|] != sub {
      ContainsSpec(s[1..], sub);
      if Contains(s[1..], sub) {
        var i: nat :| OccursAt(s[1..], sub, i);
        assert s[i + 1..i + 1 + |sub|] == s[1..][i..i + |sub|];
        assert OccursAt(s, sub, i + 1);
      }
      if exists i: nat :: OccursAt(s, sub, i) {
        var i: nat :| OccursAt(s, sub, i);
        assert i != 0;
        var j := i - 1;
        forall k | 0 <= k < |sub| ensures s[1..][j..j + |sub|][k] == sub[k] {
          assert s[1..][j..j + |sub|][k] == s[i..i + |sub|][k];
        }
        assert s[1..][j..j + |sub|] == sub;
        assert OccursAt(s[1..], sub, j);
      }
    } else if |sub| <= |s| {
      assert OccursAt(s, sub, 0);
    }
  }

  // ---------------------------------------------------------------- integers

  function DigitChar(d: nat): char
    requires d < 10
  {
    ('0' as int + d) as char
  }

  /** The decimal digits of `n`, most significant first, without leading zeros. */
  function Digits(n: nat): (s: string)
    ensures |s| >= 1 && forall i :: 0 <= i < |s| ==> IsDigit(s[i])
  {
    if n < 10 then [DigitChar(n)] else Digits(n / 10) + [DigitChar(n % 10)]
  }

  /** Python's `str(n)` for an int. */
  function Show(n: int): string
  {
    if n < 0 then "-" + Digits(-n) else Digits(n)
  }

  function DigitValue(c: char): nat
    requires IsDigit(c)
  {
    c as int - '0' as int
  }

  /** The number a run of decimal digits denotes. */
  function DigitsValue(s: string): nat
    requires forall i :: 0 <= i < |s| ==> IsDigit(s[i])
  {
    if s == [] then 0 else DigitsValue(s[..|s| - 1]) * 10 + DigitValue(s[|s| - 1])
  }

  predicate AllDigits(s: string)
  {
    s != [] && forall i :: 0 <= i < |s| ==> IsDigit(s[i])
  }

  /** Python's `int(s)` on decimal text: surrounding spaces, an optional sign, at least one digit. */
  function ParseInt(s: string): Option<int>
  {
    ParseSigned(Strip(s))
  }

  /** An optional sign and at least one digit, nothing else. */
  function ParseSigned(t: string): Option<int>
  {
    if t != [] && (t[0] == '-' || t[0] == '+') && AllDigits(t[1..]) then
      var v: int := DigitsValue(t[1..]);
      Some(if t[0] == '-' then -v else v)
    else if AllDigits(t) then Some(DigitsValue(t))
    else None
  }

  lemma {:induction false} DigitsRoundTrip(n: nat)
    ensures DigitsValue(Digits(n)) == n
  {
    if n >= 10 {
      DigitsRoundTrip(n / 10);
      var s := Digits(n);
      assert s[..|s| - 1] == Digits(n / 10);
    }
  }

  /** Unsigned digits read as their value. */
  lemma ParseSignedDigits(d: string)
    requires AllDigits(d)
    ensures ParseSigned(d) == Some(DigitsValue(d) as int)
  {
    assert IsDigit(d[0]);
  }

  /** A minus sign before digits reads as the negated value. */
  lemma ParseSignedMinus(d: string)
    requires AllDigits(d)
    ensures ParseSigned("-" + d) == Some(-(DigitsValue(d) as int))
  {
    assert ("-" + d)[1..] == d;
  }

  /** The printed form of a number reads back as that number. */
  lemma ParseSignedShow(n: int)
    ensures ParseSigned(Show(n)) == Some(n)
  {
    var s := Show(n);
    if n < 0 {
      var d := Digits(-n);
      assert s == "-" + d && s[1..] == d && s[0] == '-';
      DigitsRoundTrip(-n);
      ParseSignedMinus(d);
    } else {
      assert s == Digits(n) && IsDigit(s[0]);
      DigitsRoundTrip(n);
      ParseSignedDigits(s);
    }
  }

  /** The printed form of a number has no surrounding spaces. */
  lemma ShowStripped(n: int)
    ensures Strip(Show(n)) == Show(n)
  {
    var s := Show(n);
    assert s[0] == '-' || IsDigit(s[0]);
    assert IsDigit(s[|s| - 1]);
    StripNoop(s);
  }

  /** int(str(n)) == n: the text a count or a key is printed as reads back as the same number. */
  lemma ParseShow(n: int)
    ensures ParseInt(Show(n)) == Some(n)
  {
    ShowStripped(n);
    ParseSignedShow(n);
  }
}
