/**
 * The Python string operations the compliance engine relies on, stated over
 * `seq<char>` (a Dafny `char` is a Unicode scalar value, as a Python `str`
 * element is a code point): `strip()`, `split()`, `split(sep)`, `splitlines()`,
 * `sep.join(...)`, `startswith`, `lower().startswith`, the substring test `in`
 * and `rsplit('.', 1)[0]`.
 *
 * The functions carry only the facts their callers need to be well formed;
 * what they guarantee beyond that is stated by the lemma next to each, so
 * that a proof about configurations pays for a string fact only where it
 * asks for it.
 */
module Text {

  /** The characters for which Python's `str.isspace()` holds. */
  predicate IsSpace(c: char) {
    ('\t' <= c <= '\r') || ('\U{1C}' <= c <= ' ') || c == '\U{85}' || c == '\U{A0}' || c == '\U{1680}'
    || ('\U{2000}' <= c <= '\U{200A}') || c == '\U{2028}' || c == '\U{2029}' || c == '\U{202F}'
    || c == '\U{205F}' || c == '\U{3000}'
  }

  /** The line boundaries recognised by Python's `str.splitlines()` (`\r\n` is handled as a pair). */
  predicate IsLineBreak(c: char) {
    ('\n' <= c <= '\r') || ('\U{1C}' <= c <= '\U{1E}') || c == '\U{85}' || c == '\U{2028}' || c == '\U{2029}'
  }

  /** `s.startswith(p)` */
  predicate StartsWith(s: string, p: string) {
    |p| <= |s| && s[..|p|] == p
  }

  /** ASCII lower-casing of one character. */
  function LowerAscii(c: char): char {
    if 'A' <= c <= 'Z' then (c as int + 32) as char else c
  }

  /**
   * `s.lower()` restricted to ASCII letters. The parser puts its `interface`
   * and `description` tests through `str.lower()`. Among non-ASCII letters only
   * U+0130 and U+212A lower-case to text holding an ASCII letter: U+212A gives
   * `k`, which neither keyword has, and U+0130 gives `i` followed by U+0307,
   * which no keyword continues with. So for those two keywords the ASCII mapping
   * decides the same prefixes as Python's full Unicode `lower()`. The device
   * check's `GigabitEthernet` test is a case-insensitive regular expression,
   * not `lower()`; the difference there is noted where that test is modelled.
   */
  function Lower(s: string): string {
    seq(|s|, i requires 0 <= i < |s| => LowerAscii(s[i]))
  }

  /** A case-sensitive prefix is also a case-insensitive one, for a keyword without capitals. */
  lemma StartsWithLower(s: string, p: string)
    requires forall i :: 0 <= i < |p| ==> !('A' <= p[i] <= 'Z')
    requires StartsWith(s, p)
    ensures StartsWith(Lower(s), p)
  {
    forall i | 0 <= i < |p| ensures Lower(s)[i] == p[i] {
      assert s[i] == s[..|p|][i];
    }
  }

  /** `s.lstrip()` */
  function TrimStart(s: string): string
    decreases |s|
  {
    if s != [] && IsSpace(s[0]) then TrimStart(s[1..]) else s
  }

  /** `lstrip()` removes exactly the leading whitespace. */
  lemma {:induction false} TrimStartFacts(s: string)
    ensures var r := TrimStart(s);
      && |r| <= |s| && r == s[|s| - |r|..]
      && (forall i :: 0 <= i < |s| - |r| ==> IsSpace(s[i]))
      && (r == [] || !IsSpace(r[0]))
    decreases |s|
  {
    if s != [] && IsSpace(s[0]) {
      TrimStartFacts(s[1..]);
    }
  }

  /** `s.rstrip()` */
  function TrimEnd(s: string): string
    decreases |s|
  {
    if s != [] && IsSpace(s[|s| - 1]) then TrimEnd(s[..|s| - 1]) else s
  }

  /** `rstrip()` removes exactly the trailing whitespace. */
  lemma {:induction false} TrimEndFacts(s: string)
    ensures var r := TrimEnd(s);
      && |r| <= |s| && r == s[..|r|]
      && (forall i :: |r| <= i < |s| ==> IsSpace(s[i]))
      && (r == [] || !IsSpace(r[|r| - 1]))
    decreases |s|
  {
    if s != [] && IsSpace(s[|s| - 1]) {
      TrimEndFacts(s[..|s| - 1]);
    }
  }

  /** `s.strip()`: the text between the leading and the trailing whitespace. */
  function Strip(s: string): string {
    TrimEnd(TrimStart(s))
  }

  /**
   * `strip()` leaves no whitespace at either end, keeps only characters of
   * `s`, and yields the empty text exactly for all-whitespace input.
   */
  lemma StripFacts(s: string)
    ensures var r := Strip(s);
      && (r == [] || (!IsSpace(r[0]) && !IsSpace(r[|r| - 1])))
      && (forall c :: c in r ==> c in s)
      && (r == [] <==> forall i :: 0 <= i < |s| ==> IsSpace(s[i]))
  {
    var t := TrimStart(s);
    var r := TrimEnd(t);
    TrimStartFacts(s);
    TrimEndFacts(t);
    assert forall c :: c in r ==> c in t;
    assert r == [] ==> t == [];
  }

  /** Text that has no whitespace at either end is left alone by `strip()`. */
  lemma StripUnchanged(s: string)
    requires s == [] || (!IsSpace(s[0]) && !IsSpace(s[|s| - 1]))
    ensures Strip(s) == s
  {
    assert TrimStart(s) == s;
  }

  /** `strip()` is idempotent. */
  lemma StripIdempotent(s: string)
    ensures Strip(Strip(s)) == Strip(s)
  {
    StripFacts(s);
    StripUnchanged(Strip(s));
  }

  /** Length of the leading run of non-whitespace characters. */
  function WordLength(t: string): (n: nat)
    ensures n <= |t|
  {
    if t == [] || IsSpace(t[0]) then 0 else 1 + WordLength(t[1..])
  }

  /** `s.split()`: the maximal runs of non-whitespace characters, in order. */
  function Words(s: string): seq<string>
    decreases |s|
  {
    var t := TrimStart(s);
    TrimStartFacts(s);
    if t == [] then []
    else
      var n := WordLength(t);
      [t[..n]] + Words(t[n..])
  }

  /** No word of `s.split()` is empty. */
  lemma {:induction false} WordsNonEmpty(s: string)
    ensures forall i :: 0 <= i < |Words(s)| ==> Words(s)[i] != []
    decreases |s|
  {
    var t := TrimStart(s);
    TrimStartFacts(s);
    if t != [] {
      var n := WordLength(t);
      assert n >= 1;
      WordsNonEmpty(t[n..]);
      assert Words(s) == [t[..n]] + Words(t[n..]);
    }
  }

  /** Index of the first line boundary in `s`, or `|s|`. */
  function LineEnd(s: string): (i: nat)
    ensures i <= |s|
  {
    if s == [] || IsLineBreak(s[0]) then 0 else 1 + LineEnd(s[1..])
  }

  /** `LineEnd` finds the first boundary. */
  lemma {:induction false} LineEndFacts(s: string)
    ensures forall k :: 0 <= k < LineEnd(s) ==> !IsLineBreak(s[k])
    ensures LineEnd(s) < |s| ==> IsLineBreak(s[LineEnd(s)])
  {
    if s != [] && !IsLineBreak(s[0]) {
      LineEndFacts(s[1..]);
    }
  }

  /**
   * `s.splitlines()`: the lines of `s` without their boundaries; no empty line
   * follows a final boundary, and the empty text has no lines.
   */
  function SplitLines(s: string): seq<string>
    decreases |s|
  {
    if s == [] then []
    else
      var i := LineEnd(s);
      if i == |s| then [s]
      else
        var next := if s[i] == '\r' && i + 1 < |s| && s[i + 1] == '\n' then i + 2 else i + 1;
        [s[..i]] + SplitLines(s[next..])
  }

  /** No line of `splitlines()` holds a line boundary. */
  lemma {:induction false} SplitLinesNoBreaks(s: string)
    ensures forall i, c :: 0 <= i < |SplitLines(s)| && c in SplitLines(s)[i] ==> !IsLineBreak(c)
    decreases |s|
  {
    if s != [] {
      var i := LineEnd(s);
      LineEndFacts(s);
      if i < |s| {
        var next := if s[i] == '\r' && i + 1 < |s| && s[i + 1] == '\n' then i + 2 else i + 1;
        SplitLinesNoBreaks(s[next..]);
      }
    }
  }

  /** Index of the first `c` in `s`, or `|s|`. */
  function IndexOf(s: string, c: char): (i: nat)
    ensures i <= |s|
  {
    if s == [] || s[0] == c then 0 else 1 + IndexOf(s[1..], c)
  }

  /** `IndexOf` finds the first `c`. */
  lemma {:induction false} IndexOfFacts(s: string, c: char)
    ensures forall k :: 0 <= k < IndexOf(s, c) ==> s[k] != c
    ensures IndexOf(s, c) < |s| ==> s[IndexOf(s, c)] == c
  {
    if s != [] && s[0] != c {
      IndexOfFacts(s[1..], c);
    }
  }

  /** `s.split(sep)` for a one-character separator. */
  function SplitOn(s: string, sep: char): (parts: seq<string>)
    ensures |parts| >= 1
    decreases |s|
  {
    var i := IndexOf(s, sep);
    if i == |s| then [s] else [s[..i]] + SplitOn(s[i + 1..], sep)
  }

  /** No piece of `split(sep)` holds the separator. */
  lemma {:induction false} SplitOnFacts(s: string, sep: char)
    ensures forall i :: 0 <= i < |SplitOn(s, sep)| ==> sep !in SplitOn(s, sep)[i]
    decreases |s|
  {
    var i := IndexOf(s, sep);
    IndexOfFacts(s, sep);
    if i < |s| {
      SplitOnFacts(s[i + 1..], sep);
    }
  }

  /** `sep.join(xs)` for a one-character separator. */
  function JoinWith(xs: seq<string>, sep: char): string {
    if xs == [] then []
    else if |xs| == 1 then xs[0]
    else xs[0] + [sep] + JoinWith(xs[1..], sep)
  }

  /**
   * `sep.join` followed by `split(sep)` gives the pieces back when none holds
   * the separator; the empty list comes back as one empty piece.
   */
  lemma {:induction false} SplitJoin(xs: seq<string>, sep: char)
    requires forall i :: 0 <= i < |xs| ==> sep !in xs[i]
    ensures SplitOn(JoinWith(xs, sep), sep) == if xs == [] then [[]] else xs
  {
    if xs == [] {
      assert SplitOn([], sep) == [[]];
    } else if |xs| == 1 {
      IndexOfFacts(xs[0], sep);
    } else {
      var rest := JoinWith(xs[1..], sep);
      var s := xs[0] + [sep] + rest;
      assert JoinWith(xs, sep) == s;
      IndexOfSeparator(xs[0], rest, sep);
      assert s[..|xs[0]|] == xs[0];
      assert s[|xs[0]| + 1..] == rest;
      SplitJoin(xs[1..], sep);
      assert xs == [xs[0]] + xs[1..];
    }
  }

  /** The first separator of `a + [sep] + b` is the one after `a` when `a` has none. */
  lemma IndexOfSeparator(a: string, b: string, sep: char)
    requires sep !in a
    ensures IndexOf(a + [sep] + b, sep) == |a|
  {
    var s := a + [sep] + b;
    IndexOfFacts(s, sep);
    assert s[|a|] == sep;
  }

  /** `p in s` for strings: `p` occurs as a contiguous part of `s`. */
  predicate IsSubstring(p: string, s: string)
    decreases |s|
  {
    StartsWith(s, p) || (s != [] && IsSubstring(p, s[1..]))
  }

  /** Every text contains itself. */
  lemma SubstringOfItself(s: string)
    ensures IsSubstring(s, s)
  {
    assert s[..|s|] == s;
  }

  /** Index of the last `c` in `s`, or -1. */
  function LastIndexOf(s: string, c: char): (i: int)
    ensures -1 <= i < |s|
    ensures i >= 0 ==> s[i] == c
  {
    if s == [] then -1
    else if s[|s| - 1] == c then |s| - 1
    else LastIndexOf(s[..|s| - 1], c)
  }

  /** `LastIndexOf` finds the last `c`. */
  lemma {:induction false} LastIndexOfFacts(s: string, c: char)
    ensures forall k :: LastIndexOf(s, c) < k < |s| ==> s[k] != c
  {
    if s != [] && s[|s| - 1] != c {
      LastIndexOfFacts(s[..|s| - 1], c);
    }
  }

  /** `name.rsplit('.', 1)[0]`: the name without its last extension. */
  function BaseName(name: string): (b: string)
    ensures StartsWith(name, b)
    ensures b == name <==> '.' !in name
    ensures b != name ==> |b| < |name| && name[|b|] == '.'
    ensures b != name ==> '.' !in name[|b| + 1..]
  {
    var i := LastIndexOf(name, '.');
    LastIndexOfFacts(name, '.');
    if i < 0 then
      assert forall k :: 0 <= k < |name| ==> name[k] != '.';
      name
    else
      assert '.' in name;
      name[..i]
  }

  /** The base name of `d + ".txt"` is `d`, whatever dots `d` holds. */
  lemma BaseNameOfTxt(d: string)
    ensures BaseName(d + ".txt") == d
  {
    var name := d + ".txt";
    var i := LastIndexOf(name, '.');
    LastIndexOfFacts(name, '.');
    assert name[|d|] == '.';
    assert i == |d| by {
      assert name[|d| + 1] == 't' && name[|d| + 2] == 'x' && name[|d| + 3] == 't';
    }
    assert name[..|d|] == d;
  }
}
