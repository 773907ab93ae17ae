/**
 * The parts of an nbformat version-4 notebook the tool reads or writes.
 * JSON values the tool never inspects are kept as their JSON text.
 */
module NotebookModel {
  import opened Wrappers

  /** A mime bundle in insertion order: (mime type, value) pairs with
      distinct keys, as a JSON object is read. */
  type MimeBundle = seq<(string, string)>

  /** One output record of an executed code cell, by `output_type`. */
  datatype Output =
    | Stream(text: string)
    | ExecuteResult(data: MimeBundle)
    | DisplayData(data: MimeBundle)
    | Error(traceback: seq<string>)
    | OtherOutput(outputType: string)

  /** A notebook cell, by `cell_type`. */
  datatype Cell =
    | CodeCell(source: string, executionCount: Option<int>, outputs: seq<Output>)
    | MarkdownCell(source: string)
    | RawCell(source: string)

  /** Top-level notebook metadata: the `kernelspec` and `colab` blocks
      and every other key, untouched. */
  datatype Metadata = Metadata(
    kernelspec: Option<map<string, string>>,
    colab: Option<map<string, string>>,
    rest: map<string, string>)

  datatype Notebook = Notebook(
    nbformat: nat,
    nbformatMinor: nat,
    metadata: Metadata,
    cells: seq<Cell>)

  /** The schema version `new_notebook` writes. */
  const NbformatMajor: nat := 4
  const NbformatMinor: nat := 5

  /** `new_code_cell(source=...)`: a code cell never executed. */
  function NewCodeCell(source: string): (c: Cell)
    ensures c.CodeCell? && c.source == source && c.executionCount.None? && |c.outputs| == 0
  {
    CodeCell(source, None, [])
  }
}
