/**
 * `create_notebook` and `load_ipynb`: building a notebook from Python
 * source, or passing an existing notebook through with at most its
 * accelerator changed.
 */
module NotebookBuilder {
  import opened Wrappers
  import opened Text
  import opened NotebookModel
  import CellSplit
  import Imports

  const KernelName: string := "python3"
  const KernelDisplayName: string := "Python 3"
  const SetupComment: string := "# Auto-detected dependencies\n"
  const PipInstall: string := "!pip install -q "

  /** Python truthiness of an optional string: present and non-empty. */
  predicate Truthy(o: Option<string>) {
    o.Some? && o.value != ""
  }

  /** The fixed kernel description of a fresh notebook. */
  function Python3Kernel(): map<string, string> {
    map["name" := KernelName, "display_name" := KernelDisplayName]
  }

  /** The `colab` block of a fresh notebook: present exactly when a name
      or an accelerator is given, holding just the fields given. */
  function ColabBlock(name: Option<string>, accelerator: Option<string>): (block: Option<map<string, string>>)
    ensures block.Some? <==> Truthy(name) || Truthy(accelerator)
    ensures block.Some? ==> block.value.Keys <= {"name", "accelerator"}
    ensures block.Some? ==> ("name" in block.value <==> Truthy(name))
    ensures block.Some? ==> ("accelerator" in block.value <==> Truthy(accelerator))
    ensures block.Some? && Truthy(name) ==> block.value["name"] == name.value
    ensures block.Some? && Truthy(accelerator) ==> block.value["accelerator"] == accelerator.value
  {
    var withName: map<string, string> := if Truthy(name) then map["name" := name.value] else map[];
    var both := if Truthy(accelerator) then withName["accelerator" := accelerator.value] else withName;
    if |both| == 0 then None else Some(both)
  }

  /** The installer cell listing the detected packages. */
  function SetupSource(packages: seq<string>): string {
    SetupComment + PipInstall + Join(" ", packages)
  }

  /** A cell as `new_code_cell` creates it: code, never executed, no outputs. */
  predicate IsFresh(c: Cell) {
    c.CodeCell? && c.executionCount.None? && |c.outputs| == 0
  }

  /** One fresh code cell per text, in order. */
  function CodeCells(sources: seq<string>): (cells: seq<Cell>)
    ensures |cells| == |sources|
    ensures forall k :: 0 <= k < |sources| ==> cells[k] == NewCodeCell(sources[k])
  {
    seq(|sources|, k requires 0 <= k < |sources| => NewCodeCell(sources[k]))
  }

  /** 1 when an installer cell is needed, else 0. */
  function SetupOffset(packages: seq<string>): nat {
    if |packages| > 0 then 1 else 0
  }

  /** The cell list of a created notebook: the installer cell when
      there are packages, then one fresh code cell per split segment. */
  function AssembleCells(packages: seq<string>, parts: seq<string>): (cells: seq<Cell>)
    ensures |cells| == |parts| + SetupOffset(packages)
  {
    var setup := if |packages| > 0 then [NewCodeCell(SetupSource(packages))] else [];
    setup + CodeCells(parts)
  }

  /** Each split segment sits after the installer cell, in order. */
  lemma AssembleCellsSegments(packages: seq<string>, parts: seq<string>)
    ensures var cells := AssembleCells(packages, parts);
      forall k :: 0 <= k < |parts| ==> cells[SetupOffset(packages) + k] == NewCodeCell(parts[k])
  {
    var cells := AssembleCells(packages, parts);
    var body := CodeCells(parts);
    if |packages| > 0 {
      assert cells == [NewCodeCell(SetupSource(packages))] + body;
      forall k | 0 <= k < |parts|
        ensures cells[1 + k] == NewCodeCell(parts[k])
      {
        assert cells[1 + k] == body[k];
      }
    } else {
      assert cells == body;
    }
  }

  /** The installer cell leads exactly when there are packages. */
  lemma AssembleCellsSetup(packages: seq<string>, parts: seq<string>)
    ensures var cells := AssembleCells(packages, parts);
      |packages| > 0 ==> cells[0] == NewCodeCell(SetupComment + PipInstall + Join(" ", packages))
  {
  }

  /** Every assembled cell is fresh. */
  lemma AssembleCellsFresh(packages: seq<string>, parts: seq<string>)
    ensures var cells := AssembleCells(packages, parts);
      forall k :: 0 <= k < |cells| ==> IsFresh(cells[k])
  {
    var cells := AssembleCells(packages, parts);
    var offset := SetupOffset(packages);
    var body := CodeCells(parts);
    assert cells[offset..] == body;
    forall k | 0 <= k < |cells|
      ensures IsFresh(cells[k])
    {
      if k >= offset {
        assert cells[k] == body[k - offset];
      }
    }
  }

  /** `create_notebook(source, name=..., accelerator=...)`; `stdlib`
      stands for `sys.stdlib_module_names`. The cells are one fresh code
      cell per split segment, in order, preceded by the installer cell
      exactly when third-party packages are detected. */
  function CreateNotebook(source: string, name: Option<string>, accelerator: Option<string>, stdlib: set<string>): (nb: Notebook)
    ensures nb.nbformat == NbformatMajor && nb.nbformatMinor == NbformatMinor
    ensures nb.metadata.kernelspec == Some(Python3Kernel())
    ensures nb.metadata.colab == ColabBlock(name, accelerator)
    ensures |nb.metadata.rest| == 0
    ensures var packages := Imports.DetectThirdPartyImports(source, stdlib);
      var parts := CellSplit.SplitCells(source);
      var offset := SetupOffset(packages);
      && |nb.cells| == |parts| + offset
      && (forall k :: 0 <= k < |parts| ==> nb.cells[offset + k] == NewCodeCell(parts[k]))
      && (|packages| > 0 ==> nb.cells[0] == NewCodeCell(SetupComment + PipInstall + Join(" ", packages)))
    ensures forall k :: 0 <= k < |nb.cells| ==> IsFresh(nb.cells[k])
  {
    var packages := Imports.DetectThirdPartyImports(source, stdlib);
    var parts := CellSplit.SplitCells(source);
    AssembleCellsSegments(packages, parts);
    AssembleCellsFresh(packages, parts);
    AssembleCellsSetup(packages, parts);
    Notebook(NbformatMajor, NbformatMinor,
             Metadata(Some(Python3Kernel()), ColabBlock(name, accelerator), map[]),
             AssembleCells(packages, parts))
  }

  /** Every detected package name occurs in the installer cell's text. */
  lemma SetupCellNamesEveryPackage(packages: seq<string>, parts: seq<string>, k: nat)
    requires k < |packages|
    ensures var cells := AssembleCells(packages, parts);
      |cells| > 0 && exists i :: 0 <= i <= |cells[0].source| - |packages[k]| && HasPrefixAt(cells[0].source, i, packages[k])
  {
    AssembleCellsSetup(packages, parts);
    var joined := Join(" ", packages);
    var src := AssembleCells(packages, parts)[0].source;
    var off := |SetupComment + PipInstall|;
    assert src == (SetupComment + PipInstall) + joined;
    JoinContains(" ", packages, k);
    var i :| 0 <= i <= |joined| - |packages[k]| && HasPrefixAt(joined, i, packages[k]);
    assert src[off + i..off + i + |packages[k]|] == joined[i..i + |packages[k]|];
    assert HasPrefixAt(src, off + i, packages[k]);
  }

  /** `load_ipynb(content, accelerator=...)` once `nbformat.reads` has
      produced `nb`: with an accelerator, only `colab.accelerator` is set. */
  function LoadIpynb(nb: Notebook, accelerator: Option<string>): (r: Notebook)
    ensures r.cells == nb.cells
    ensures r.nbformat == nb.nbformat && r.nbformatMinor == nb.nbformatMinor
    ensures r.metadata.kernelspec == nb.metadata.kernelspec && r.metadata.rest == nb.metadata.rest
    ensures !Truthy(accelerator) ==> r == nb
    ensures Truthy(accelerator) ==>
      && r.metadata.colab.Some?
      && "accelerator" in r.metadata.colab.value
      && r.metadata.colab.value["accelerator"] == accelerator.value
    ensures Truthy(accelerator) ==> forall key :: key != "accelerator" ==>
      && (key in r.metadata.colab.value <==> nb.metadata.colab.Some? && key in nb.metadata.colab.value)
      && (key in r.metadata.colab.value ==> r.metadata.colab.value[key] == nb.metadata.colab.value[key])
  {
    if Truthy(accelerator) then
      var block := if nb.metadata.colab.Some? then nb.metadata.colab.value else map[];
      nb.(metadata := nb.metadata.(colab := Some(block["accelerator" := accelerator.value])))
    else nb
  }

  /** Loading twice with the same accelerator changes nothing more. */
  lemma LoadIpynbIdempotent(nb: Notebook, accelerator: Option<string>)
    ensures LoadIpynb(LoadIpynb(nb, accelerator), accelerator) == LoadIpynb(nb, accelerator)
  {
    if Truthy(accelerator) {
      var once := LoadIpynb(nb, accelerator);
      var block := once.metadata.colab.value;
      assert block["accelerator" := accelerator.value] == block;
    }
  }
}
