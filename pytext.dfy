/** The Python `str` operations the transcriber relies on, over `seq<char>`.
    Whitespace is exactly the set of code points for which `str.isspace()` is
    true; case mapping is restricted to ASCII letters. */
module PyText {

  /** The code points for which `str.isspace()` is true. */
  const Whitespace: set<char> := {
    '\t', '\n', '\U{0B}', '\U{0C}', '\r', '\U{1C}', '\U{1D}', '\U{1E}', '\U{1F}', ' ', '\U{85}', '\U{A0}',
    '\U{1680}', '\U{2000}', '\U{2001}', '\U{2002}', '\U{2003}', '\U{2004}', '\U{2005}', '\U{2006}',
    '\U{2007}', '\U{2008}', '\U{2009}', '\U{200A}', '\U{2028}', '\U{2029}', '\U{202F}', '\U{205F}', '\U{3000}'
  }

  /** `c.isspace()` */
  predicate IsSpace(c: char) {
    c in Whitespace
  }

  predicate AllSpace(s: string) {
    forall k :: 0 <= k < |s| ==> IsSpace(s[k])
  }

  /** `c.upper()` for ASCII letters; every other character maps to itself. */
  function Upper(c: char): char {
    if 'a' <= c <= 'z' then (c as int - 32) as char else c
  }

  /** `c.lower()` for ASCII letters; every other character maps to itself. */
  function Lower(c: char): char {
    if 'A' <= c <= 'Z' then (c as int + 32) as char else c
  }

  /** `s.upper()` */
  function UpperStr(s: string): (r: string)
    ensures |r| == |s| && forall k :: 0 <= k < |s| ==> r[k] == Upper(s[k])
  {
    seq(|s|, k requires 0 <= k < |s| => Upper(s[k]))
  }

  /** `s.lower()` */
  function LowerStr(s: string): (r: string)
    ensures |r| == |s| && forall k :: 0 <= k < |s| ==> r[k] == Lower(s[k])
  {
    seq(|s|, k requires 0 <= k < |s| => Lower(s[k]))
  }

  /** `upper()` changes exactly the letters `a` to `z`, and uppercasing
      twice is uppercasing once. */
  lemma UpperFixes(c: char)
    ensures Upper(c) != c <==> 'a' <= c <= 'z'
    ensures Upper(Upper(c)) == Upper(c)
  {
  }

  /** `s.upper().upper() == s.upper()`. */
  lemma UpperStrIdempotent(s: string)
    ensures UpperStr(UpperStr(s)) == UpperStr(s)
  {
    var u := UpperStr(s);
    forall k | 0 <= k < |s| ensures UpperStr(u)[k] == u[k] {
      UpperFixes(s[k]);
    }
  }

  /** `s.lower()` equals a one-letter lowercase string exactly when `s` is
      that letter in either case. */
  lemma LowerIsLetter(s: string, c: char)
    requires 'a' <= c <= 'z'
    ensures LowerStr(s) == [c] <==> s == [c] || s == [Upper(c)]
  {
    if LowerStr(s) == [c] {
      assert |s| == 1 && Lower(s[0]) == c;
      assert s == [s[0]];
    }
    if s == [Upper(c)] {
      assert LowerStr(s)[0] == c;
    }
  }

  /** `s.lstrip()` */
  function TrimLeft(s: string): string {
    if s != [] && IsSpace(s[0]) then TrimLeft(s[1..]) else s
  }

  /** `s.rstrip()` */
  function TrimRight(s: string): string {
    if s != [] && IsSpace(s[|s| - 1]) then TrimRight(s[..|s| - 1]) else s
  }

  /** `s.strip()` */
  function Strip(s: string): string {
    TrimRight(TrimLeft(s))
  }

  /** `lstrip` drops exactly the leading whitespace: what it keeps is a
      suffix of `s` that does not start with whitespace, and everything
      before that suffix is whitespace. */
  lemma {:induction false} TrimLeftSpec(s: string)
    ensures var r := TrimLeft(s);
      && |r| <= |s| && r == s[|s| - |r|..]
      && (forall k :: 0 <= k < |s| - |r| ==> IsSpace(s[k]))
      && (r != [] ==> !IsSpace(r[0]))
  {
    if s != [] && IsSpace(s[0]) {
      TrimLeftSpec(s[1..]);
    }
  }

  /** `rstrip` drops exactly the trailing whitespace. */
  lemma {:induction false} TrimRightSpec(s: string)
    ensures var r := TrimRight(s);
      && |r| <= |s| && r == s[..|r|]
      && (forall k :: |r| <= k < |s| ==> IsSpace(s[k]))
      && (r != [] ==> !IsSpace(r[|r| - 1]))
  {
    if s != [] && IsSpace(s[|s| - 1]) {
      TrimRightSpec(s[..|s| - 1]);
    }
  }

  /** `strip` keeps the slice of `s` between its leading and trailing
      whitespace: that slice neither starts nor ends with whitespace, and it
      is empty exactly when `s` is all whitespace. */
  lemma StripSpec(s: string)
    ensures var r, i := Strip(s), |s| - |TrimLeft(s)|;
      && 0 <= i <= i + |r| <= |s| && r == s[i..i + |r|]
      && (forall k :: 0 <= k < i || i + |r| <= k < |s| ==> IsSpace(s[k]))
      && (r != [] ==> !IsSpace(r[0]) && !IsSpace(r[|r| - 1]))
      && (r == [] <==> AllSpace(s))
  {
    var t := TrimLeft(s);
    TrimLeftSpec(s);
    TrimRightSpec(t);
    var i := |s| - |t|;
    var r := Strip(s);
    assert r == t[..|r|];
    assert t[..|r|] == s[i..i + |r|];
    forall k | i + |r| <= k < |s| ensures IsSpace(s[k]) {
      assert s[k] == t[k - i];
    }
    if r == [] {
      assert AllSpace(s);
    } else {
      assert s[i] == r[0];
    }
  }

  /** The stripped string starts and ends with a non-whitespace character. */
  lemma StripEnds(s: string)
    ensures var r := Strip(s); r != [] ==> !IsSpace(r[0]) && !IsSpace(r[|r| - 1])
  {
    StripSpec(s);
  }

  /** Uppercasing never turns a character into whitespace. */
  lemma UpperNotSpace(c: char)
    requires !IsSpace(c)
    ensures !IsSpace(Upper(c))
  {
  }

  /** A string that neither starts nor ends with whitespace is left alone. */
  lemma StripUnpadded(s: string)
    requires s != [] && !IsSpace(s[0]) && !IsSpace(s[|s| - 1])
    ensures Strip(s) == s
  {
    assert TrimLeft(s) == s;
  }

  /** Stripping a string that starts with whitespace ignores that character. */
  lemma StripSkipsLeadingSpace(c: char, s: string)
    requires IsSpace(c)
    ensures Strip([c] + s) == Strip(s)
  {
    assert ([c] + s)[1..] == s;
  }

  /** One space before an unpadded string is stripped away. */
  lemma StripLeadingSpace(t: string, s: string)
    requires t == [' '] + s && s != [] && !IsSpace(s[0]) && !IsSpace(s[|s| - 1])
    ensures Strip(t) == s
  {
    StripSkipsLeadingSpace(' ', s);
    StripUnpadded(s);
  }

  /** Stripping never introduces a character that `s` lacks. */
  lemma StripKeepsFree(s: string, sep: char)
    requires Free(s, sep)
    ensures Free(Strip(s), sep)
  {
    StripSpec(s);
    var i := |s| - |TrimLeft(s)|;
    forall j | 0 <= j < |Strip(s)| ensures Strip(s)[j] != sep {
      assert Strip(s)[j] == s[i + j];
    }
  }

  /** `Strip` is idempotent. */
  lemma StripStripped(s: string)
    ensures Strip(Strip(s)) == Strip(s)
  {
    var r := Strip(s);
    StripSpec(s);
    if r != [] {
      assert TrimLeft(r) == r;
      assert TrimRight(r) == r;
    }
  }

  /** `sep.join(parts)`. */
  function Join(parts: seq<string>, sep: char): (s: string)
  {
    if parts == [] then []
    else if |parts| == 1 then parts[0]
    else parts[0] + [sep] + Join(parts[1..], sep)
  }

  /** Joining a list with a known first piece. */
  lemma JoinCons(a: string, parts: seq<string>, sep: char)
    requires parts != []
    ensures Join([a] + parts, sep) == a + [sep] + Join(parts, sep)
  {
    assert ([a] + parts)[1..] == parts;
  }

  /** A prefix of the first piece is a prefix of the join. */
  lemma JoinPrefix(p: string, q: string, parts: seq<string>, sep: char)
    ensures Join([p + q] + parts, sep) == p + Join([q] + parts, sep)
  {
    if parts != [] {
      JoinCons(p + q, parts, sep);
      JoinCons(q, parts, sep);
    }
  }

  predicate Free(s: string, sep: char) {
    forall j :: 0 <= j < |s| ==> s[j] != sep
  }

  /** `s.split(sep)` for a one-character separator: never empty, and no piece
      holds the separator. */
  function Split(s: string, sep: char): (parts: seq<string>)
    ensures |parts| >= 1
    ensures forall k :: 0 <= k < |parts| ==> Free(parts[k], sep)
  {
    if s == [] then [[]]
    else
      var rest := Split(s[1..], sep);
      if s[0] == sep then [[]] + rest
      else
        assert Free([s[0]] + rest[0], sep) by {
          forall j | 0 <= j < |[s[0]] + rest[0]| ensures ([s[0]] + rest[0])[j] != sep {
            if j > 0 { assert ([s[0]] + rest[0])[j] == rest[0][j - 1]; }
          }
        }
        [[s[0]] + rest[0]] + rest[1..]
  }

  /** Splitting a string with a known first character. */
  lemma SplitCons(c: char, u: string, sep: char)
    ensures Split([c] + u, sep) ==
      if c == sep then [[]] + Split(u, sep) else [[c] + Split(u, sep)[0]] + Split(u, sep)[1..]
  {
    assert ([c] + u)[1..] == u;
  }

  /** Joining the pieces of a split with the separator gives back the string. */
  lemma {:induction false} JoinSplit(s: string, sep: char)
    ensures Join(Split(s, sep), sep) == s
  {
    if s != [] {
      var rest := Split(s[1..], sep);
      JoinSplit(s[1..], sep);
      if s[0] == sep {
        assert Split(s, sep) == [[]] + rest;
        assert ([[]] + rest)[1..] == rest;
      } else {
        var parts := [[s[0]] + rest[0]] + rest[1..];
        assert Split(s, sep) == parts;
        if |rest| == 1 {
          assert Join(rest, sep) == rest[0];
        } else {
          assert parts[1..] == rest[1..];
          assert Join(rest, sep) == rest[0] + [sep] + Join(rest[1..], sep);
        }
      }
    }
  }

  /** Splitting a string that starts with a separator-free piece. */
  lemma {:induction false} SplitFreePrefix(p: string, t: string, sep: char)
    requires Free(p, sep)
    ensures Split(p + t, sep) == [p + Split(t, sep)[0]] + Split(t, sep)[1..]
    decreases |p|
  {
    var st := Split(t, sep);
    if p == [] {
      assert p + t == t;
      assert p + st[0] == st[0];
      assert [st[0]] + st[1..] == st;
    } else {
      SplitFreePrefix(p[1..], t, sep);
      var r := Split(p[1..] + t, sep);
      assert r == [p[1..] + st[0]] + st[1..];
      assert (p + t)[0] == p[0] != sep;
      assert (p + t)[1..] == p[1..] + t;
      assert Split(p + t, sep) == [[p[0]] + r[0]] + r[1..];
      assert [p[0]] + r[0] == p + st[0];
      assert r[1..] == st[1..];
    }
  }

  /** Splitting a join of separator-free pieces gives back the pieces. */
  lemma {:induction false} SplitJoin(parts: seq<string>, sep: char)
    requires parts != []
    requires forall k :: 0 <= k < |parts| ==> Free(parts[k], sep)
    ensures Split(Join(parts, sep), sep) == parts
  {
    if |parts| == 1 {
      SplitFreePrefix(parts[0], [], sep);
      assert parts[0] + [] == parts[0];
      assert Split([], sep) == [[]];
      assert parts == [parts[0]];
    } else {
      var rest := Join(parts[1..], sep);
      SplitJoin(parts[1..], sep);
      assert Join(parts, sep) == parts[0] + ([sep] + rest);
      SplitFreePrefix(parts[0], [sep] + rest, sep);
      assert ([sep] + rest)[1..] == rest;
      assert ([sep] + rest)[0] == sep;
      assert Split([sep] + rest, sep) == [[]] + parts[1..];
      assert parts[0] + [] == parts[0];
      assert parts == [parts[0]] + parts[1..];
    }
  }

  /** `s.replace(pat, rep)`: occurrences of `pat` are replaced from left to
      right, and the scan resumes after each replaced occurrence. */
  function Replace(s: string, pat: string, rep: string): string
    requires pat != []
  {
    if s == [] then []
    else if |pat| <= |s| && s[..|pat|] == pat then rep + Replace(s[|pat|..], pat, rep)
    else [s[0]] + Replace(s[1..], pat, rep)
  }
}
