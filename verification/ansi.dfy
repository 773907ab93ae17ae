/**
 * `_strip_ansi`: removal of ANSI CSI sequences, ESC `[`, any run of
 * digits and semicolons, then one ASCII letter.
 */
module Ansi {
  import opened Text

  const Esc: char := '\U{1B}'

  predicate IsCsiParam(c: char) { IsDigit(c) || c == ';' }

  /** Length of the parameter run starting at `i`. */
  function ParamRunEnd(s: string, i: nat): (e: nat)
    requires i <= |s|
    ensures i <= e <= |s|
    ensures forall k :: i <= k < e ==> IsCsiParam(s[k])
    ensures e < |s| ==> !IsCsiParam(s[e])
    decreases |s| - i
  {
    if i < |s| && IsCsiParam(s[i]) then ParamRunEnd(s, i + 1) else i
  }

  /** The length of the escape sequence `s` opens with, or 0 when the
      pattern does not match at its start. */
  function CsiLength(s: string): (n: nat)
    ensures n == 0 || 3 <= n <= |s|
  {
    if |s| >= 2 && s[0] == Esc && s[1] == '[' then
      var e := ParamRunEnd(s, 2);
      if e < |s| && IsAsciiLetter(s[e]) then e + 1 else 0
    else 0
  }

  /** `re.sub` of the pattern with "": scanning left to right, each
      match is dropped and every other character copied. */
  function StripAnsi(s: string): (r: string)
    ensures |r| <= |s|
    decreases |s|
  {
    if |s| == 0 then ""
    else
      var n := CsiLength(s);
      if n > 0 then StripAnsi(s[n..]) else [s[0]] + StripAnsi(s[1..])
  }

  /** `a` can be obtained from `b` by deleting characters. */
  predicate IsSubsequence(a: string, b: string)
    decreases |b|
  {
    if |a| == 0 then true
    else if |b| == 0 then false
    else if a[0] == b[0] then IsSubsequence(a[1..], b[1..])
    else IsSubsequence(a, b[1..])
  }

  /** Deleting a prefix keeps the subsequence relation. */
  lemma {:induction false} SubsequenceOfSuffix(a: string, b: string, n: nat)
    requires n <= |b| && IsSubsequence(a, b[n..])
    ensures IsSubsequence(a, b)
    decreases n
  {
    if n > 0 {
      assert b[1..][n - 1..] == b[n..];
      SubsequenceOfSuffix(a, b[1..], n - 1);
      if |a| > 0 {
        if a[0] == b[0] {
          SubsequenceWeaken(a, b[1..]);
        }
      }
    }
  }

  /** Dropping the head of `a` keeps it a subsequence. */
  lemma {:induction false} SubsequenceWeaken(a: string, b: string)
    requires |a| > 0 && IsSubsequence(a, b)
    ensures IsSubsequence(a[1..], b)
    decreases |b|
  {
    if |b| > 0 && a[0] != b[0] {
      SubsequenceWeaken(a, b[1..]);
      if |a[1..]| > 0 && a[1..][0] == b[0] {
        SubsequenceWeaken(a[1..], b[1..]);
      }
    } else if |b| > 0 && |a[1..]| > 0 && a[1..][0] == b[0] {
      SubsequenceWeaken(a[1..], b[1..]);
    }
  }

  /** The stripped text is the input with characters deleted. */
  lemma {:induction false} StripAnsiIsSubsequence(s: string)
    ensures IsSubsequence(StripAnsi(s), s)
    decreases |s|
  {
    if |s| > 0 {
      var n := CsiLength(s);
      if n > 0 {
        StripAnsiIsSubsequence(s[n..]);
        SubsequenceOfSuffix(StripAnsi(s[n..]), s, n);
      } else {
        StripAnsiIsSubsequence(s[1..]);
        var r := StripAnsi(s);
        assert r[0] == s[0] && r[1..] == StripAnsi(s[1..]);
      }
    }
  }

  /** Text without an escape character passes through unchanged. */
  lemma {:induction false} StripAnsiPlainText(s: string)
    requires forall k :: 0 <= k < |s| ==> s[k] != Esc
    ensures StripAnsi(s) == s
    decreases |s|
  {
    if |s| > 0 {
      StripAnsiPlainText(s[1..]);
      assert s == [s[0]] + s[1..];
    }
  }

  /** A well-formed CSI sequence: ESC `[` parameters final-letter. */
  function Csi(params: string, final: char): string {
    [Esc, '['] + params + [final]
  }

  lemma CsiLengthOf(params: string, final: char, rest: string)
    requires forall k :: 0 <= k < |params| ==> IsCsiParam(params[k])
    requires IsAsciiLetter(final)
    ensures CsiLength(Csi(params, final) + rest) == |params| + 3
  {
    var s := Csi(params, final) + rest;
    assert forall k :: 2 <= k < |params| + 2 ==> s[k] == params[k - 2];
    assert s[|params| + 2] == final;
    assert !IsCsiParam(final);
    ParamRunStops(s, 2, |params| + 2);
  }

  lemma {:induction false} ParamRunStops(s: string, i: nat, e: nat)
    requires i <= e < |s|
    requires forall k :: i <= k < e ==> IsCsiParam(s[k])
    requires !IsCsiParam(s[e])
    ensures ParamRunEnd(s, i) == e
    decreases e - i
  {
    if i < e {
      ParamRunStops(s, i + 1, e);
    }
  }

  /** A sequence at the very start is dropped. */
  lemma StripAnsiDropsLeading(params: string, final: char, t: string)
    requires forall k :: 0 <= k < |params| ==> IsCsiParam(params[k])
    requires IsAsciiLetter(final)
    ensures StripAnsi(Csi(params, final) + t) == StripAnsi(t)
  {
    var s := Csi(params, final) + t;
    CsiLengthOf(params, final, t);
    assert s[|params| + 3..] == t;
  }

  /** A character other than ESC is copied. */
  lemma StripAnsiKeepsPlainHead(c: char, rest: string)
    requires c != Esc
    ensures StripAnsi([c] + rest) == [c] + StripAnsi(rest)
  {
    var s := [c] + rest;
    assert CsiLength(s) == 0;
    assert s[1..] == rest;
  }

  /** A control sequence after plain text is erased and nothing else
      changes: `StripAnsi(p + csi + t) == p + StripAnsi(t)`. */
  lemma {:induction false} StripAnsiErasesSequence(p: string, params: string, final: char, t: string)
    requires forall k :: 0 <= k < |p| ==> p[k] != Esc
    requires forall k :: 0 <= k < |params| ==> IsCsiParam(params[k])
    requires IsAsciiLetter(final)
    ensures StripAnsi(p + Csi(params, final) + t) == p + StripAnsi(t)
    decreases |p|
  {
    var csi := Csi(params, final);
    if |p| == 0 {
      assert p + csi + t == csi + t;
      StripAnsiDropsLeading(params, final, t);
    } else {
      var rest := p[1..] + csi + t;
      calc {
        StripAnsi(p + csi + t);
        { assert p + csi + t == [p[0]] + rest; }
        StripAnsi([p[0]] + rest);
        { StripAnsiKeepsPlainHead(p[0], rest); }
        [p[0]] + StripAnsi(rest);
        { StripAnsiErasesSequence(p[1..], params, final, t); }
        [p[0]] + (p[1..] + StripAnsi(t));
        { assert [p[0]] + p[1..] == p; }
        p + StripAnsi(t);
      }
    }
  }

  /** Stripping is not idempotent: removing an inner sequence can join
      an escape character and a bracket into a new one. */
  lemma StripAnsiNotIdempotent()
    ensures StripAnsi([Esc] + Csi("", 'm') + "[0m") == [Esc] + "[0m"
    ensures StripAnsi([Esc] + "[0m") == ""
  {
    var inner := Csi("", 'm') + "[0m";
    var s := [Esc] + inner;
    assert CsiLength(s) == 0 by {
      assert s[1] == Esc;
    }
    assert s[1..] == inner;
    CsiLengthOf("", 'm', "[0m");
    assert inner[3..] == "[0m";
    StripAnsiPlainText("[0m");
    var t := [Esc] + "[0m";
    assert t == Csi("0", 'm') + "";
    CsiLengthOf("0", 'm', "");
    assert t[4..] == "";
  }

  /** A coloured word loses both of its colour codes. */
  lemma StripAnsiColouredWord()
    ensures StripAnsi(Csi("0;31", 'm') + "red" + Csi("0", 'm')) == "red"
  {
    var reset := Csi("0", 'm');
    var tail := "red" + reset;
    assert StripAnsi(tail) == "red" by {
      StripAnsiErasesSequence("red", "0", 'm', "");
      assert "red" + reset + "" == tail;
    }
    assert StripAnsi(Csi("0;31", 'm') + tail) == StripAnsi(tail) by {
      StripAnsiErasesSequence("", "0;31", 'm', tail);
      assert "" + Csi("0;31", 'm') + tail == Csi("0;31", 'm') + tail;
    }
    assert Csi("0;31", 'm') + "red" + reset == Csi("0;31", 'm') + tail;
  }
}
