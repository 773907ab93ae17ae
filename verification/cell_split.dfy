/**
 * The cell splitter of `create_notebook`: source text is cut at lines
 * that begin with a percent marker or an In-bracket marker.
 */
module CellSplit {
  import opened Text

  const PercentMarker: string := "# %%"
  const InMarker: string := "# In["

  /** A marker starts at offset `i`: at the start of a line, one of the
      two marker texts follows. */
  predicate IsMarkerAt(s: string, i: nat) {
    i <= |s| && AtLineStart(s, i) && (HasPrefixAt(s, i, PercentMarker) || HasPrefixAt(s, i, InMarker))
  }

  predicate StrictlyIncreasing(xs: seq<nat>) {
    forall j, k :: 0 <= j < k < |xs| ==> xs[j] < xs[k]
  }

  /** Marker offsets in ascending order, all lying inside the text. */
  predicate ValidStarts(s: string, starts: seq<nat>) {
    StrictlyIncreasing(starts) && forall k :: 0 <= k < |starts| ==> starts[k] < |s| && IsMarkerAt(s, starts[k])
  }

  /** The offsets at or after `i` where the marker pattern matches. */
  function MarkersFrom(s: string, i: nat): (r: seq<nat>)
    requires i <= |s|
    ensures ValidStarts(s, r)
    ensures forall k :: 0 <= k < |r| ==> i <= r[k]
    ensures forall p :: i <= p < |s| && IsMarkerAt(s, p) ==> p in r
    decreases |s| - i
  {
    if i == |s| then []
    else if IsMarkerAt(s, i) then [i] + MarkersFrom(s, i + 1)
    else MarkersFrom(s, i + 1)
  }

  /** The starts of the marker matches, in source order. */
  function Markers(s: string): seq<nat> {
    MarkersFrom(s, 0)
  }

  /** Two markers never overlap: the next line start lies past the
      whole marker text, so a left-to-right scan for non-overlapping
      matches finds every marker offset. */
  lemma {:induction false} MarkersDoNotOverlap(s: string, p: nat, q: nat)
    requires IsMarkerAt(s, p) && IsMarkerAt(s, q) && p < q
    ensures q >= p + |PercentMarker| + 1
  {
    var n := |PercentMarker|;
    var head := s[p..p + n];
    assert head == PercentMarker || head == InMarker[..n] by {
      if !HasPrefixAt(s, p, PercentMarker) {
        assert s[p..p + |InMarker|][..n] == head;
      }
    }
    assert forall k :: 0 <= k < n ==> head[k] != '\n';
    assert forall j :: p <= j < p + n ==> s[j] == head[j - p];
    assert s[q - 1] == '\n';
  }

  /** Where the segment opened by the `i`-th marker ends. */
  function SegmentEnd(s: string, starts: seq<nat>, i: nat): nat
    requires i < |starts|
  {
    if i + 1 < |starts| then starts[i + 1] else |s|
  }

  /** The `i`-th marker segment: from the marker to the next marker or
      the end of the text, stripped (empty for offsets that do not fit). */
  function Segment(s: string, starts: seq<nat>, i: nat): string {
    if i < |starts| && starts[i] <= SegmentEnd(s, starts, i) <= |s|
    then Strip(s[starts[i]..SegmentEnd(s, starts, i)])
    else ""
  }

  /** `[f(i), f(i + 1), ..., f(n - 1)]`. */
  function Tabulate(f: nat -> string, i: nat, n: nat): seq<string>
    decreases n - i
  {
    if i >= n then [] else [f(i)] + Tabulate(f, i + 1, n)
  }

  /** The segment of each marker, as a function of its position. */
  function SegmentOf(s: string, starts: seq<nat>): nat -> string {
    (k: nat) => Segment(s, starts, k)
  }

  /** One segment per marker, in order, before any is dropped. */
  function AllSegments(s: string, starts: seq<nat>): seq<string> {
    Tabulate(SegmentOf(s, starts), 0, |starts|)
  }

  /** The `if cell_text:` filter of the loop: segments that strip to
      nothing are dropped, the others kept in order. */
  function KeepNonEmpty(xs: seq<string>): seq<string> {
    if |xs| == 0 then []
    else (if xs[0] != "" then [xs[0]] else []) + KeepNonEmpty(xs[1..])
  }

  /** The text before the first marker, when it is not blank. */
  function Preamble(s: string, first: nat): seq<string>
    requires first <= |s|
  {
    if first > 0 && Strip(s[..first]) != "" then [Strip(s[..first])] else []
  }

  /** `_split_cells`: the list of cell texts for `source`. */
  function SplitCells(source: string): (cells: seq<string>)
    ensures |cells| >= 1
  {
    var starts := Markers(source);
    if |starts| == 0 then [source]
    else
      var found := Preamble(source, starts[0]) + KeepNonEmpty(AllSegments(source, starts));
      if found == [] then [source] else found
  }

  /** Without any marker line the whole text is one cell, untrimmed;
      the empty text therefore gives one empty cell. */
  lemma NoMarkerGivesWholeText(source: string)
    requires forall p :: 0 <= p < |source| ==> !IsMarkerAt(source, p)
    ensures SplitCells(source) == [source]
  {
  }

  /** Text that opens with a marker text loses only a whitespace tail
      when stripped, and keeps the whole marker. */
  lemma {:induction false} StripKeepsMarker(t: string, m: string)
    requires m == PercentMarker || m == InMarker
    requires |m| <= |t| && t[..|m|] == m
    ensures var seg := Strip(t);
      |m| <= |seg| && seg == t[..|seg|] && seg[..|m|] == m
  {
    assert t[0] == m[0] == '#';
    assert t[|m| - 1] == m[|m| - 1];
    StripKeepsHead(t, |m| - 1);
  }

  /** A marker segment keeps its marker: it is a non-empty piece of the
      source that starts at the marker offset and only lost trailing
      whitespace. */
  lemma {:induction false} SegmentKeepsMarker(s: string, starts: seq<nat>, i: nat)
    requires ValidStarts(s, starts) && i < |starts|
    ensures |PercentMarker| <= |Segment(s, starts, i)|
    ensures starts[i] + |Segment(s, starts, i)| <= SegmentEnd(s, starts, i)
    ensures Segment(s, starts, i) == s[starts[i]..starts[i] + |Segment(s, starts, i)|]
    ensures HasPrefixAt(Segment(s, starts, i), 0, PercentMarker) || HasPrefixAt(Segment(s, starts, i), 0, InMarker)
  {
    var a := starts[i];
    var e := SegmentEnd(s, starts, i);
    assert IsMarkerAt(s, a);
    var m := if HasPrefixAt(s, a, PercentMarker) then PercentMarker else InMarker;
    assert HasPrefixAt(s, a, m);
    if i + 1 < |starts| {
      assert a < starts[i + 1];
      assert IsMarkerAt(s, starts[i + 1]);
      MarkersDoNotOverlap(s, a, starts[i + 1]);
    }
    assert a + |m| <= e <= |s|;
    var t := s[a..e];
    assert t[..|m|] == s[a..a + |m|];
    StripKeepsMarker(t, m);
    var seg := Strip(t);
    var n := |seg|;
    assert n <= e - a;
    SliceOfSlice(s, a, e, n);
    assert seg == s[a..a + n];
    assert Segment(s, starts, i) == seg;
  }

  /** Every marker segment is non-empty, so the loop never drops one. */
  lemma SegmentNotEmpty(s: string, starts: seq<nat>, i: nat)
    requires ValidStarts(s, starts) && i < |starts|
    ensures Segment(s, starts, i) != ""
  {
    SegmentKeepsMarker(s, starts, i);
  }

  lemma SliceOfSlice(s: string, a: nat, e: nat, n: nat)
    requires a + n <= e <= |s|
    ensures s[a..e][..n] == s[a..a + n]
  {
  }

  /** The tabulated list has one entry per index, in order. */
  lemma {:induction false} TabulateAt(f: nat -> string, i: nat, n: nat, j: nat)
    requires i <= j < n
    ensures |Tabulate(f, i, n)| == n - i
    ensures Tabulate(f, i, n)[j - i] == f(j)
    decreases n - i
  {
    if i + 1 < n {
      TabulateAt(f, i + 1, n, if i < j then j else i + 1);
    }
  }

  /** The `j`-th segment listed is the segment of the `j`-th marker. */
  lemma AllSegmentsAt(s: string, starts: seq<nat>, j: nat)
    requires j < |starts|
    ensures |AllSegments(s, starts)| == |starts|
    ensures AllSegments(s, starts)[j] == Segment(s, starts, j)
  {
    TabulateAt(SegmentOf(s, starts), 0, |starts|, j);
  }

  /** The filter keeps a list with no empty entry whole. */
  lemma {:induction false} KeepNonEmptyKeepsAll(xs: seq<string>)
    requires forall k :: 0 <= k < |xs| ==> xs[k] != ""
    ensures KeepNonEmpty(xs) == xs
  {
    if |xs| > 0 {
      KeepNonEmptyKeepsAll(xs[1..]);
      assert xs == [xs[0]] + xs[1..];
    }
  }

  /** Every match yields a non-empty segment, so the loop keeps them all. */
  lemma SegmentsAllKept(s: string, starts: seq<nat>)
    requires ValidStarts(s, starts)
    ensures KeepNonEmpty(AllSegments(s, starts)) == AllSegments(s, starts)
  {
    var all := AllSegments(s, starts);
    if |starts| > 0 {
      AllSegmentsAt(s, starts, 0);
    }
    forall k | 0 <= k < |all|
      ensures all[k] != ""
    {
      AllSegmentsAt(s, starts, k);
      SegmentNotEmpty(s, starts, k);
    }
    KeepNonEmptyKeepsAll(all);
  }

  /** With `k >= 1` markers the cells are the non-blank preamble, if any,
      followed by one segment per marker in source order; so there are
      `k` or `k + 1` cells, and the fallback to the whole text never fires. */
  lemma SplitCellsWithMarkers(source: string, j: nat)
    requires j < |Markers(source)|
    ensures var starts := Markers(source);
      var cells := SplitCells(source);
      var pre := Preamble(source, starts[0]);
      && cells == pre + AllSegments(source, starts)
      && |cells| == |pre| + |starts|
      && (|cells| == |starts| || |cells| == |starts| + 1)
      && cells[|pre| + j] == Segment(source, starts, j)
  {
    var starts := Markers(source);
    SegmentsAllKept(source, starts);
    AllSegmentsAt(source, starts, j);
  }
}
