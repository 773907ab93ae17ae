/**
 * `render_notebook` / `_render_output`: the terminal transcript of an
 * executed notebook. The transcript is the sequence of strings the
 * `print` calls write, each with its line terminator when it has one.
 */
module OutputRender {
  import opened Wrappers
  import opened Text
  import opened NotebookModel
  import opened Ansi

  const ImagePlaceholder: string := "[image output]"

  /** What `print(x)` writes. */
  function Line(x: string): string {
    x + "\n"
  }

  function InHeader(n: int): string {
    "--- In [" + IntToString(n) + "] ---"
  }

  function OutHeader(n: int): string {
    "--- Out [" + IntToString(n) + "] ---"
  }

  predicate HasKey(data: MimeBundle, key: string) {
    exists k :: 0 <= k < |data| && data[k].0 == key
  }

  /** `data[key]`: the value stored under the first pair with that key. */
  function Lookup(data: MimeBundle, key: string): (v: Option<string>)
    ensures v.Some? <==> HasKey(data, key)
    ensures v.Some? ==> exists k :: 0 <= k < |data| && data[k] == (key, v.value) && forall j :: 0 <= j < k ==> data[j].0 != key
  {
    if |data| == 0 then None
    else if data[0].0 == key then Some(data[0].1)
    else Lookup(data[1..], key)
  }

  predicate StartsWith(s: string, prefix: string) {
    HasPrefixAt(s, 0, prefix)
  }

  /** The transcript of an `execute_result` or `display_data` bundle:
      plain text first, then the image placeholder, then nothing for an
      empty bundle, then whatever the first key holds. */
  function RenderData(data: MimeBundle): (lines: seq<string>)
    ensures HasKey(data, "text/plain") ==>
      exists k :: 0 <= k < |data| && data[k].0 == "text/plain" && lines == [Line(StripAnsi(data[k].1))]
    ensures !HasKey(data, "text/plain") && (HasKey(data, "image/png") || HasKey(data, "image/jpeg")) ==>
      lines == [Line(ImagePlaceholder)]
    ensures |data| == 0 ==> lines == []
    ensures !HasKey(data, "text/plain") && !HasKey(data, "image/png") && !HasKey(data, "image/jpeg") && |data| > 0 ==>
      lines == (if StartsWith(data[0].0, "image/") then [Line(ImagePlaceholder)] else [Line(StripAnsi(data[0].1))])
    ensures |lines| <= 1
  {
    match Lookup(data, "text/plain")
    case Some(text) => [Line(StripAnsi(text))]
    case None =>
      if Lookup(data, "image/png").Some? || Lookup(data, "image/jpeg").Some? then [Line(ImagePlaceholder)]
      else if |data| == 0 then []
      else if StartsWith(data[0].0, "image/") then [Line(ImagePlaceholder)]
      else [Line(StripAnsi(data[0].1))]
  }

  /** `_render_output`: a stream's text is written without a newline of
      its own, each traceback line on a line of its own, and an unknown
      output type writes nothing. */
  function RenderOutput(o: Output): (lines: seq<string>)
    ensures o.Stream? ==> lines == [StripAnsi(o.text)]
    ensures o.ExecuteResult? || o.DisplayData? ==> lines == RenderData(o.data)
    ensures o.Error? ==> |lines| == |o.traceback| && forall k :: 0 <= k < |lines| ==> lines[k] == Line(StripAnsi(o.traceback[k]))
    ensures o.OtherOutput? ==> lines == []
  {
    match o
    case Stream(text) => [StripAnsi(text)]
    case ExecuteResult(data) => RenderData(data)
    case DisplayData(data) => RenderData(data)
    case Error(traceback) => seq(|traceback|, k requires 0 <= k < |traceback| => Line(StripAnsi(traceback[k])))
    case OtherOutput(_) => []
  }

  /** The texts an output carries: a stream's text, a bundle's values,
      a traceback's entries. */
  function Texts(o: Output): seq<string> {
    match o
    case Stream(text) => [text]
    case ExecuteResult(data) => seq(|data|, j requires 0 <= j < |data| => data[j].1)
    case DisplayData(data) => seq(|data|, j requires 0 <= j < |data| => data[j].1)
    case Error(traceback) => traceback
    case OtherOutput(_) => []
  }

  /** Rendering invents nothing: every string written for an output is
      the image placeholder or one of the output's own texts with its
      escape sequences removed, with or without a newline. */
  lemma RenderOutputFromTexts(o: Output, k: nat)
    requires k < |RenderOutput(o)|
    ensures var w := RenderOutput(o)[k];
      || w == Line(ImagePlaceholder)
      || exists j :: 0 <= j < |Texts(o)| && (w == StripAnsi(Texts(o)[j]) || w == Line(StripAnsi(Texts(o)[j])))
  {
    var w := RenderOutput(o)[k];
    match o
    case Stream(text) =>
      assert Texts(o)[0] == text;
    case Error(traceback) =>
      assert Texts(o)[k] == traceback[k];
    case ExecuteResult(data) =>
      RenderDataFromTexts(data, o);
    case DisplayData(data) =>
      RenderDataFromTexts(data, o);
  }

  lemma RenderDataFromTexts(data: MimeBundle, o: Output)
    requires (o.ExecuteResult? || o.DisplayData?) && o.data == data && |RenderData(data)| > 0
    ensures var w := RenderData(data)[0];
      || w == Line(ImagePlaceholder)
      || exists j :: 0 <= j < |Texts(o)| && w == Line(StripAnsi(Texts(o)[j]))
  {
    var w := RenderData(data)[0];
    if HasKey(data, "text/plain") {
      var j :| 0 <= j < |data| && data[j].0 == "text/plain" && RenderData(data) == [Line(StripAnsi(data[j].1))];
      assert Texts(o)[j] == data[j].1;
    } else if w != Line(ImagePlaceholder) {
      assert Texts(o)[0] == data[0].1;
    }
  }

  /** How many strings one output writes: one for a stream, one for any
      non-empty bundle, one per traceback entry. */
  function OutputWriteCount(o: Output): nat {
    match o
    case Stream(_) => 1
    case ExecuteResult(data) => if |data| == 0 then 0 else 1
    case DisplayData(data) => if |data| == 0 then 0 else 1
    case Error(traceback) => |traceback|
    case OtherOutput(_) => 0
  }

  function OutputsWriteCount(outputs: seq<Output>): nat {
    if |outputs| == 0 then 0 else OutputWriteCount(outputs[0]) + OutputsWriteCount(outputs[1..])
  }

  /** How many strings a cell writes: three for its input, and for a cell
      with outputs two headers/separators more plus its outputs' writes. */
  function CellWriteCount(c: Cell): nat {
    if !c.CodeCell? then 0
    else 3 + (if |c.outputs| == 0 then 0 else 2 + OutputsWriteCount(c.outputs))
  }

  function TranscriptWriteCount(cells: seq<Cell>): nat {
    if |cells| == 0 then 0 else CellWriteCount(cells[0]) + TranscriptWriteCount(cells[1..])
  }

  /** Each output writes as many strings as `OutputWriteCount` says. */
  lemma RenderOutputWriteCount(o: Output)
    ensures |RenderOutput(o)| == OutputWriteCount(o)
  {
  }

  lemma {:induction false} RenderOutputsWriteCount(outputs: seq<Output>)
    ensures |RenderOutputs(outputs)| == OutputsWriteCount(outputs)
  {
    if |outputs| > 0 {
      RenderOutputWriteCount(outputs[0]);
      RenderOutputsWriteCount(outputs[1..]);
    }
  }

  lemma {:induction false} RenderCellsWriteCount(cells: seq<Cell>, counter: nat)
    ensures |RenderCellsFrom(cells, counter)| == TranscriptWriteCount(cells)
  {
    if |cells| > 0 {
      if cells[0].CodeCell? {
        RenderOutputsWriteCount(cells[0].outputs);
        RenderCellsWriteCount(cells[1..], counter + 1);
      } else {
        RenderCellsWriteCount(cells[1..], counter);
      }
    }
  }

  /** The transcript's size, cell by cell: nothing for markdown and raw
      cells, three writes per code cell, and two more plus the outputs'
      writes for a code cell with outputs. */
  lemma RenderNotebookWriteCount(nb: Notebook)
    ensures |RenderNotebook(nb)| == TranscriptWriteCount(nb.cells)
  {
    RenderCellsWriteCount(nb.cells, 0);
  }

  /** The outputs of one cell, in order. */
  function RenderOutputs(outputs: seq<Output>): seq<string> {
    if |outputs| == 0 then [] else RenderOutput(outputs[0]) + RenderOutputs(outputs[1..])
  }

  /** `execution_count or cell_num`: a missing or zero count falls back
      to the position of the cell among the code cells. */
  function CellLabel(count: Option<int>, ordinal: nat): (n: int)
    ensures n == ordinal <==> count.None? || count.value == 0 || count.value == ordinal
    ensures n != ordinal ==> count == Some(n)
  {
    if count.Some? && count.value != 0 then count.value else ordinal
  }

  /** The block printed for the code cell numbered `ordinal`. */
  function RenderCell(cell: Cell, ordinal: nat): seq<string>
    requires cell.CodeCell?
  {
    var n := CellLabel(cell.executionCount, ordinal);
    var input := [Line(InHeader(n)), Line(cell.source), Line("")];
    if |cell.outputs| == 0 then input
    else input + [Line(OutHeader(n))] + RenderOutputs(cell.outputs) + [Line("")]
  }

  /** The loop of `render_notebook` with `counter` code cells already seen. */
  function RenderCellsFrom(cells: seq<Cell>, counter: nat): seq<string> {
    if |cells| == 0 then []
    else if cells[0].CodeCell? then RenderCell(cells[0], counter + 1) + RenderCellsFrom(cells[1..], counter + 1)
    else RenderCellsFrom(cells[1..], counter)
  }

  /** `render_notebook(nb)`. */
  function RenderNotebook(nb: Notebook): seq<string> {
    RenderCellsFrom(nb.cells, 0)
  }

  /** The code cells of a cell list, in order. */
  function CodeCellsOf(cells: seq<Cell>): (code: seq<Cell>)
    ensures forall k :: 0 <= k < |code| ==> code[k].CodeCell?
  {
    if |cells| == 0 then []
    else if cells[0].CodeCell? then [cells[0]] + CodeCellsOf(cells[1..])
    else CodeCellsOf(cells[1..])
  }

  /** Markdown and raw cells contribute nothing and do not advance the
      numbering: rendering only the code cells gives the same transcript. */
  lemma {:induction false} NonCodeCellsContributeNothing(cells: seq<Cell>, counter: nat)
    ensures RenderCellsFrom(CodeCellsOf(cells), counter) == RenderCellsFrom(cells, counter)
  {
    if |cells| > 0 {
      NonCodeCellsContributeNothing(cells[1..], if cells[0].CodeCell? then counter + 1 else counter);
      if cells[0].CodeCell? {
        var code := CodeCellsOf(cells);
        assert code[0] == cells[0] && code[1..] == CodeCellsOf(cells[1..]);
      }
    }
  }

  /** Reference numbering: the `k`-th code cell (from 0) paired with
      the ordinal `counter + k + 1`. */
  function Numbering(code: seq<Cell>, counter: nat): seq<(Cell, nat)> {
    seq(|code|, k requires 0 <= k < |code| => (code[k], counter + k + 1))
  }

  /** The blocks of numbered code cells, one after another. */
  function RenderNumbered(ps: seq<(Cell, nat)>): seq<string>
    requires forall j :: 0 <= j < |ps| ==> ps[j].0.CodeCell?
  {
    if |ps| == 0 then [] else RenderCell(ps[0].0, ps[0].1) + RenderNumbered(ps[1..])
  }

  /** Over code cells only, the running counter numbers the cells in
      order: the transcript is the blocks of the reference numbering. */
  lemma {:induction false} CodeCellsNumberedInOrder(code: seq<Cell>, counter: nat)
    requires forall k :: 0 <= k < |code| ==> code[k].CodeCell?
    ensures RenderCellsFrom(code, counter) == RenderNumbered(Numbering(code, counter))
  {
    if |code| > 0 {
      var ps := Numbering(code, counter);
      assert ps[0] == (code[0], counter + 1);
      assert ps[1..] == Numbering(code[1..], counter + 1);
      CodeCellsNumberedInOrder(code[1..], counter + 1);
    }
  }

  /** The whole transcript: one block per code cell in order, the `k`-th
      code cell (from 0) labelled by its execution count if non-zero,
      else by `k + 1`; other cells contribute nothing. */
  lemma RenderNotebookBlocks(nb: Notebook)
    ensures RenderNotebook(nb) == RenderNumbered(Numbering(CodeCellsOf(nb.cells), 0))
  {
    NonCodeCellsContributeNothing(nb.cells, 0);
    CodeCellsNumberedInOrder(CodeCellsOf(nb.cells), 0);
  }
}
