/**
 * Character classes and string helpers that stand in for the pieces of
 * Python's `str` and `re` behaviour the tool relies on.
 */
module Text {

  /** Whitespace as `str.isspace()` sees it, restricted to Latin-1:
      tab, newline, vertical tab, form feed, carriage return, the four
      information separators, space, NEL and no-break space. */
  predicate IsSpace(c: char) {
    var n := c as int;
    (9 <= n <= 13) || (28 <= n <= 32) || n == 0x85 || n == 0xA0
  }

  predicate IsDigit(c: char) { '0' <= c <= '9' }

  predicate IsAsciiLetter(c: char) { ('A' <= c <= 'Z') || ('a' <= c <= 'z') }

  /** The regex class `\w`, restricted to ASCII. */
  predicate IsWordChar(c: char) { IsAsciiLetter(c) || IsDigit(c) || c == '_' }

  /** Every character of `s` is whitespace (the empty string included). */
  predicate IsBlank(s: string) {
    forall i :: 0 <= i < |s| ==> IsSpace(s[i])
  }

  /** `p` occurs in `s` starting at offset `i`. */
  predicate HasPrefixAt(s: string, i: nat, p: string) {
    i + |p| <= |s| && s[i..i + |p|] == p
  }

  /** A match of `a + b` is a match of `a` followed by a match of `b`. */
  lemma PrefixSplit(s: string, i: nat, a: string, b: string)
    requires HasPrefixAt(s, i, a + b)
    ensures HasPrefixAt(s, i, a) && HasPrefixAt(s, i + |a|, b)
  {
    assert s[i..i + |a|] == s[i..i + |a + b|][..|a|];
    assert s[i + |a|..i + |a| + |b|] == s[i..i + |a + b|][|a|..];
  }

  /** A match of `a` followed by a match of `b` is a match of `a + b`. */
  lemma PrefixJoin(s: string, i: nat, a: string, b: string)
    requires HasPrefixAt(s, i, a) && HasPrefixAt(s, i + |a|, b)
    ensures HasPrefixAt(s, i, a + b)
  {
    assert s[i..i + |a + b|] == s[i..i + |a|] + s[i + |a|..i + |a| + |b|];
  }

  /** One character of a match. */
  lemma PrefixChar(s: string, i: nat, p: string, k: nat)
    requires HasPrefixAt(s, i, p) && k < |p|
    ensures s[i + k] == p[k]
  {
    assert s[i..i + |p|][k] == s[i + k];
  }

  /** The regex anchor `^` under `re.MULTILINE`: the start of the text or
      the position right after a newline. */
  predicate AtLineStart(s: string, i: nat)
    requires i <= |s|
  {
    i == 0 || s[i - 1] == '\n'
  }

  /** The first offset at or after `i` that holds no whitespace, or the
      length of `s` when there is none. */
  function SkipSpaces(s: string, i: nat): (n: nat)
    requires i <= |s|
    ensures i <= n <= |s|
    decreases |s| - i
  {
    if i < |s| && IsSpace(s[i]) then SkipSpaces(s, i + 1) else i
  }

  /** The end of `s[..n]` once its trailing whitespace is dropped. */
  function TrimEnd(s: string, n: nat): (m: nat)
    requires n <= |s|
    ensures m <= n
  {
    if n > 0 && IsSpace(s[n - 1]) then TrimEnd(s, n - 1) else n
  }

  /** `SkipSpaces` stops at the first non-space character. */
  lemma {:induction false} SkipSpacesStops(s: string, i: nat)
    requires i <= |s|
    ensures var n := SkipSpaces(s, i);
      (forall k :: i <= k < n ==> IsSpace(s[k])) && (n < |s| ==> !IsSpace(s[n]))
    decreases |s| - i
  {
    if i < |s| && IsSpace(s[i]) {
      SkipSpacesStops(s, i + 1);
    }
  }

  /** `TrimEnd` stops after the last non-space character. */
  lemma {:induction false} TrimEndStops(s: string, n: nat)
    requires n <= |s|
    ensures var m := TrimEnd(s, n);
      (forall k :: m <= k < n ==> IsSpace(s[k])) && (m > 0 ==> !IsSpace(s[m - 1]))
  {
    if n > 0 && IsSpace(s[n - 1]) {
      TrimEndStops(s, n - 1);
    }
  }

  /** How many whitespace characters open `s`. */
  function LeadingSpaces(s: string): (n: nat)
    ensures n <= |s|
  {
    SkipSpaces(s, 0)
  }

  /** The length of `s` once its trailing whitespace is dropped. */
  function TrimmedLength(s: string): (n: nat)
    ensures n <= |s|
  {
    TrimEnd(s, |s|)
  }

  /** Python's `str.lstrip()` with no argument. */
  function StripLeft(s: string): string {
    s[LeadingSpaces(s)..]
  }

  /** Python's `str.rstrip()` with no argument. */
  function StripRight(s: string): string {
    s[..TrimmedLength(s)]
  }

  /** Python's `str.strip()` with no argument. */
  function Strip(s: string): string {
    StripRight(StripLeft(s))
  }

  /** Stripping leaves nothing exactly when the text is blank. */
  lemma StripEmptyIffBlank(s: string)
    ensures Strip(s) == "" <==> IsBlank(s)
  {
    var a := LeadingSpaces(s);
    SkipSpacesStops(s, 0);
    var l := StripLeft(s);
    TrimEndStops(l, |l|);
    var r := Strip(s);
    if r != "" {
      assert l[|r| - 1] == r[|r| - 1];
      assert s[a + |r| - 1] == l[|r| - 1];
    }
  }

  /** Text that starts with a non-space character and whose `n`-th
      character is a non-space keeps its first `n + 1` characters and
      loses only a whitespace tail when stripped. */
  lemma StripKeepsHead(s: string, n: nat)
    requires n < |s| && !IsSpace(s[0]) && !IsSpace(s[n])
    ensures n < |Strip(s)| && Strip(s) == s[..|Strip(s)|]
  {
    assert LeadingSpaces(s) == 0;
    assert StripLeft(s) == s;
    TrimEndStops(s, |s|);
  }

  /** `" ".join(xs)` and friends. */
  function Join(sep: string, xs: seq<string>): string {
    if |xs| == 0 then ""
    else if |xs| == 1 then xs[0]
    else xs[0] + sep + Join(sep, xs[1..])
  }

  /** Every element of `xs` occurs inside the joined text. */
  lemma {:induction false} JoinContains(sep: string, xs: seq<string>, k: nat)
    requires k < |xs|
    ensures exists i :: 0 <= i <= |Join(sep, xs)| - |xs[k]| && HasPrefixAt(Join(sep, xs), i, xs[k])
  {
    var j := Join(sep, xs);
    if |xs| == 1 {
      assert HasPrefixAt(j, 0, xs[k]);
    } else if k == 0 {
      assert j == xs[0] + (sep + Join(sep, xs[1..]));
      assert HasPrefixAt(j, 0, xs[k]);
    } else {
      JoinContains(sep, xs[1..], k - 1);
      var rest := Join(sep, xs[1..]);
      var i :| 0 <= i <= |rest| - |xs[k]| && HasPrefixAt(rest, i, xs[1..][k - 1]);
      var off := |xs[0]| + |sep|;
      assert j == (xs[0] + sep) + rest;
      assert j[off + i..off + i + |xs[k]|] == rest[i..i + |xs[k]|];
      assert HasPrefixAt(j, off + i, xs[k]);
    }
  }

  /** Python's `<` on `str`: lexicographic by code point, a proper
      prefix sorting first. */
  predicate LexLess(a: string, b: string) {
    |b| > 0 && (|a| == 0 || a[0] < b[0] || (a[0] == b[0] && LexLess(a[1..], b[1..])))
  }

  lemma {:induction false} LexLessIrreflexive(a: string)
    ensures !LexLess(a, a)
  {
    if |a| > 0 {
      LexLessIrreflexive(a[1..]);
    }
  }

  lemma {:induction false} LexLessTransitive(a: string, b: string, c: string)
    requires LexLess(a, b) && LexLess(b, c)
    ensures LexLess(a, c)
  {
    if |a| > 0 && a[0] == b[0] && b[0] == c[0] {
      LexLessTransitive(a[1..], b[1..], c[1..]);
    }
  }

  lemma {:induction false} LexLessTotal(a: string, b: string)
    requires a != b
    ensures LexLess(a, b) || LexLess(b, a)
  {
    if |a| > 0 && |b| > 0 && a[0] == b[0] {
      assert a == [a[0]] + a[1..] && b == [b[0]] + b[1..];
      LexLessTotal(a[1..], b[1..]);
    }
  }

  /** One decimal digit. */
  function DigitChar(d: nat): char
    requires d < 10
  {
    "0123456789"[d]
  }

  /** Decimal rendering of a natural number, as `str()` writes it. */
  function NatToString(n: nat): (r: string)
    ensures |r| > 0
    decreases n
  {
    if n < 10 then [DigitChar(n)] else NatToString(n / 10) + [DigitChar(n % 10)]
  }

  /** Decimal rendering of an integer, as `str()` writes it. */
  function IntToString(n: int): (r: string)
    ensures |r| > 0
  {
    if n < 0 then "-" + NatToString(-n) else NatToString(n)
  }
}
