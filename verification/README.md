# tocolab core in Dafny

A model of the pure core of `tocolab` / `colab-push`, a command-line tool
that turns Python source (or an existing `.ipynb`) into a Colab notebook on
Google Drive and later pulls the executed notebook back and prints its
outputs to the terminal.

The model covers four parts of the tool:

- **Notebook builder** (`CellSplit`, `Imports`, `NotebookBuilder`, with the
  records in `NotebookModel`):
  - splitting source text into cells at line-start `# %%` / `# In[` markers;
  - detecting third-party imports and mapping import names to pip packages;
  - assembling a fresh notebook with its installer cell and its
    `kernelspec` / `colab` metadata;
  - setting the accelerator on a loaded notebook.
- **Output renderer** (`Ansi`, `OutputRender`):
  - removing ANSI CSI escape sequences;
  - turning the code cells of an executed notebook into the transcript
    printed on the terminal. The transcript is a sequence of printed
    strings, each carrying its own terminator.
- **File-id resolver** (`Colab`): building the Colab URL of a Drive file
  id, and extracting a file id from a Colab URL or from a bare id.
- **Command-line decisions** (`Cli`):
  - default-command routing;
  - the accelerator choice;
  - push input validation and notebook naming;
  - the notebook-or-source choice;
  - pull locator resolution;
  - the exit code every path ends with.

Shared pieces live in `Wrappers` (`Option`, `Result`) and `Text`:
- Python's `str.strip`, `str.join` and `str` ordering;
- the `\s` and `\w` character classes;
- the line-start rule of a multi-line `^`.

Each regular expression of the source is written as an explicit scanner:
- the cell marker;
- the import pattern;
- the ANSI pattern;
- the Colab URL pattern;
- the bare-id pattern.

`finditer` / `search` / `sub` are modelled as left-to-right scans that
resume after each match.

## Model

| member | source | states |
|---|---|---|
| Text.StripEmptyIffBlank | src/tocolab/cli.py:125-127 | `s.strip()` is empty exactly when every character of `s` is whitespace, so `not content.strip()` is the blank-input test |
| CellSplit.MarkersFrom | src/colab_push/notebook.py:135-136 | the scan returns marker offsets in strictly increasing order; each one is `# %%` or `# In[` at the start of a line, and every such marker at or after the starting offset is listed |
| CellSplit.MarkersDoNotOverlap | src/colab_push/notebook.py:135 | two markers lie at least five characters apart, so the non-overlapping `finditer` scan misses none |
| CellSplit.NoMarkerGivesWholeText | src/colab_push/notebook.py:138-139 | without a marker at a line start, the split is exactly `[source]`, untrimmed, so empty input gives one empty cell |
| CellSplit.SegmentKeepsMarker | src/colab_push/notebook.py:148-151 | the segment opened by a marker is a piece of the source that starts at the marker, keeps the whole marker text, and ends at or before the next marker |
| CellSplit.SegmentsAllKept | src/colab_push/notebook.py:148-153 | the `if cell_text:` test never drops the segment of a marker, since it opens with the marker's non-space text; only the preamble can be dropped |
| CellSplit.SplitCellsWithMarkers | src/colab_push/notebook.py:141-155 | with k markers, the cells are the non-blank stripped preamble (if any) followed by one stripped segment per marker in source order; so there are k or k+1 cells, and cell `|pre|+j` is segment j |
| Imports.ImportMatchAt | src/colab_push/notebook.py:113 | a match needs a line start and the keyword `import` or `from`, and captures a non-empty run of word characters that ends past the start offset |
| Imports.ImportMatchShape | src/colab_push/notebook.py:113 | a match is the keyword, at least one whitespace character, then the captured name, which is exactly the text up to the match end and is not followed by a word character, so the capture is the whole maximal word run after the gap |
| Imports.ImportAt | src/colab_push/notebook.py:113 | conversely, a keyword at a line start, a non-empty whitespace gap and a maximal word run always match, capturing that run |
| Imports.FirstImportDetected | src/colab_push/notebook.py:113-127 | the name in the first import line of a source is among the found modules, and when it is not a standard-library name its package is among the detected packages |
| Imports.ThirdPartyModules | src/colab_push/notebook.py:114-123 | the module list is strictly ascending in Python string order, and its elements are exactly the captured names minus the standard-library set |
| Imports.SortedUnique | src/colab_push/notebook.py:121 | a strictly ascending list is determined by its elements, so the module list is the unique sorted enumeration of the third-party names |
| Imports.DetectThirdPartyImports | src/colab_push/notebook.py:120-127 | one package per third-party module, in the same order, each being the mapped name or the module itself |
| Imports.DedupBeforeMapping | src/colab_push/notebook.py:11-31 | importing both `cv` and `cv2` lists `opencv-python` twice, because deduplication happens before mapping |
| NotebookBuilder.ColabBlock | src/colab_push/notebook.py:58-65 | the `colab` block exists iff the name or the accelerator is truthy, and holds exactly the truthy ones with their values |
| NotebookBuilder.CreateNotebook | src/colab_push/notebook.py:34-82 | format 4.5; kernelspec `python3` / `Python 3`; the `colab` block as above; the cells are the installer cell exactly when packages are detected, then one fresh code cell per split segment in order |
| NotebookBuilder.SetupCellNamesEveryPackage | src/colab_push/notebook.py:69-75 | every detected package name occurs in the installer cell's text |
| NotebookBuilder.LoadIpynb | src/colab_push/notebook.py:99-104 | cells, format and other metadata are kept; without a truthy accelerator nothing changes; with one, `colab.accelerator` is set (creating `colab` if absent) and every other `colab` key is kept with its value, with no key added |
| NotebookBuilder.LoadIpynbIdempotent | src/colab_push/notebook.py:99-104 | loading again with the same accelerator changes nothing more |
| Ansi.StripAnsi | src/tocolab/output.py:9-13 | the result is never longer than the input |
| Ansi.StripAnsiIsSubsequence | src/tocolab/output.py:12-13 | the result is a subsequence of the input: only characters are deleted |
| Ansi.StripAnsiPlainText | src/tocolab/output.py:12-13 | text without an escape character is unchanged |
| Ansi.StripAnsiErasesSequence | src/tocolab/output.py:9-13 | a CSI sequence `ESC [ params letter` after escape-free text is removed and nothing else changes |
| Ansi.StripAnsiNotIdempotent | src/tocolab/output.py:12-13 | removing `ESC ESC [ m [ 0 m` once leaves `ESC [ 0 m`, which a second pass removes, so one pass can leave a sequence behind |
| Ansi.StripAnsiColouredWord | src/tocolab/output.py:9-13 | a word wrapped in colour codes keeps only the word |
| OutputRender.Lookup | src/tocolab/output.py:63-64 | a key is found iff the bundle has it, and the value comes from its first occurrence |
| OutputRender.RenderData | src/tocolab/output.py:61-75 | first rule wins: stripped `text/plain`; otherwise the image placeholder if `image/png` or `image/jpeg` exists; nothing for empty data; otherwise the first key (placeholder for an `image/` key, else its stripped value); at most one line |
| OutputRender.RenderOutput | src/tocolab/output.py:53-80 | a stream prints its stripped text with no added newline; an execute result or display data prints what its bundle renders to; an error prints one stripped line per traceback entry; any other output type prints nothing |
| OutputRender.RenderOutputFromTexts | src/tocolab/output.py:53-80 | rendering invents nothing: every printed string is the image placeholder or one of the output's own texts (stream text, bundle value, traceback entry) with escape sequences removed, with or without a newline |
| OutputRender.RenderNotebookWriteCount | src/tocolab/output.py:29-80 | the transcript has nothing for non-code cells, three strings per code cell, and two more plus one per stream, one per non-empty bundle and one per traceback entry for a code cell with outputs |
| OutputRender.CellLabel | src/tocolab/output.py:34-35 | the label equals the code-cell ordinal iff the count is missing, zero or equal to it; otherwise it is the count |
| OutputRender.NonCodeCellsContributeNothing | src/tocolab/output.py:30-32 | dropping the non-code cells leaves the transcript unchanged, so they neither print nor advance the counter |
| OutputRender.CodeCellsNumberedInOrder | src/tocolab/output.py:29-34 | over code cells, the transcript is the concatenation of the cell blocks in order, the k-th cell (from 0) paired with the counter plus k+1 |
| OutputRender.RenderNotebookBlocks | src/tocolab/output.py:16-50 | the transcript is one block per code cell in notebook order, and the k-th code cell (from 0) is rendered with ordinal k+1 |
| Colab.GetColabUrl | src/tocolab/colab.py:20-22 | the URL is the long https Colab head followed by exactly the id |
| Colab.UrlHeadAccepted | src/tocolab/colab.py:12-14 | each of `http(s)://colab(.research).google.com/drive/` is recognised at any offset |
| Colab.UrlHeadFromScan | src/tocolab/colab.py:12-14 | the head scanner accepts only those four heads |
| Colab.ParseFileId | src/tocolab/colab.py:25-46 | a result is non-empty and made of `[A-Za-z0-9_-]`; a failure's message is the fixed prefix plus the raw input; with a URL match, the result is the id that match captures; without one, it succeeds iff the stripped input is a bare id, and then returns the stripped input |
| Colab.UrlWithIdParses | src/tocolab/colab.py:12-14 | any of the four heads, then an id of any length, then a non-id character or the end, parses to that id |
| Colab.UrlRoundTrip | src/tocolab/colab.py:20-40 | the URL built for any non-empty id, with a query or fragment appended or not, parses back to that id |
| Colab.UrlInsideTextParses | src/tocolab/colab.py:38-40 | a Colab URL found inside other text (text without an `h` before it, anything not an id character after the id) still gives its id, since `search` finds the first match anywhere |
| Colab.BareIdAccepted | src/tocolab/colab.py:17 | a string of at least ten id characters is returned verbatim |
| Colab.ShortInputRejected | src/tocolab/colab.py:43-46 | a string of fewer than ten id characters is rejected, with the message naming it |
| Colab.NoUrlHeadInIdChars | src/tocolab/colab.py:12-14 | text made only of id characters contains no Colab URL |
| Cli.RouteArgs | src/tocolab/cli.py:23-29 | the routed list starts with a registered command and ends with the user's arguments; it equals them iff they start with a command, and otherwise it is `push` prepended to them |
| Cli.RouteArgsIdempotent | src/tocolab/cli.py:23-29 | routing an already routed list changes nothing |
| Cli.ChooseAccelerator | src/tocolab/cli.py:99-104 | GPU whenever `--gpu` is set, TPU iff only `--tpu` is set, none otherwise |
| Cli.Stem | src/tocolab/cli.py:113 | stem followed by suffix gives back the file name |
| Cli.IpynbSuffixIff | src/tocolab/cli.py:114 | the suffix is `.ipynb` iff the name ends in `.ipynb` after at least one other character |
| Cli.PreparePush | src/tocolab/cli.py:99-133 | a missing file, a terminal with no input, or blank content stops with exit code 1; an unreadable file or an unparseable `.ipynb` raises; readable non-blank content that parses (when it is a `.ipynb`) always goes on to upload; an upload carries the `--name`-or-stem-or-`Untitled` name, and holds the loaded notebook iff the input is a `.ipynb` file, otherwise the notebook built from the source |
| Cli.PushValidInputUploads | src/tocolab/cli.py:106-133 | for readable, non-blank input that parses, the push command ends exactly as the upload of the built or loaded notebook under the chosen name ends |
| Cli.Terminate | src/tocolab/cli.py:87-95 | `SystemExit` keeps its code, normal completion gives 0, and any other exception gives 3 unless verbose mode lets it propagate |
| Cli.PushInputErrorsExitOne | src/tocolab/cli.py:107-127 | input errors exit with code 1 whatever authentication and upload would do, in verbose mode too |
| Cli.PushBackendErrorExitsThree | src/tocolab/cli.py:87-95 | an exception raised by the upload side exits with code 3 when not verbose |
| Cli.ResolveLocator | src/tocolab/cli.py:196-212 | `--last` uses the recorded id (a missing record exits 1, a missing key raises); otherwise a truthy locator goes through the id parser and a parse failure exits 1; no locator exits 1 |
| Cli.PullLastTakesPrecedence | src/tocolab/cli.py:198-202 | with `--last`, the positional locator has no effect |
| Cli.PullLocatorErrorsExitOne | src/tocolab/cli.py:202-212 | without `--last`, a missing or unparseable locator exits with code 1 before anything is downloaded |

## Left out

- `src/tocolab/cli.py` imports `create_notebook` and `load_ipynb` from a `tocolab.notebook` module that is not part of this model. The builder modelled is `src/colab_push/notebook.py`, and the push command uses it.
- Text.IsSpace: covers only Python's whitespace characters up to U+00FF (codes 9-13, 28-32, 0x85, 0xA0), not the rest of Unicode's. `\w` likewise covers only ASCII letters, digits and `_`.
- Notebook JSON: `nbformat.reads`, `nbformat.writes` and validation are not modelled. The notebook is an abstract record. Parsing is a function parameter whose `None` stands for a parse exception. Cell ids and the JSON values of other metadata keys are not modelled.
- OutputRender.RenderData: mime values are strings. `str()` of non-string JSON values is not modelled.
- `sys.stdlib_module_names` is a set parameter.
- OAuth and the token file (`auth.py`) are not modelled. The `auth` command body is not modelled either.
- Drive folder lookup, upload and download (`drive.py`) are not modelled. The push and pull commands take them as function parameters that return how the command ended.
- NotebookBuilder.LoadIpynb: a `colab` metadata value that is not an object (null, a string, a list) cannot be represented. In the tool, assigning `accelerator` into it raises `TypeError` and the push exits with code 3 (src/tocolab/cli.py:91-95). The model covers only an absent or object-valued `colab`.
- Cli.PreparePush: a file that exists but cannot be read becomes a raised exception. The model does not distinguish decoding errors from other read errors.
- Cli.ResolveLocator: the last-push file is given as its parsed record. Reading and writing the file (`_save_last_push`, `_load_last_push`) are not modelled, and neither are JSON errors in it.
- Cli.Stem: works on the final path component, which is given directly. Directory parts of the path are not modelled.
- Output is not modelled: writes to standard error, the printed URL, the browser and the clipboard. Neither are pull's `--save` and `--raw` modes.
- Typer option parsing is not modelled. Routing is modelled only up to the argument list handed to the command group.
- `src/colab_push/cli.py` repeats the routing and push decisions of `src/tocolab/cli.py`, and everything else in it is I/O, so it is not modelled.
- Configuration paths in `src/tocolab/config.py` are not modelled. Only `COLAB_BASE_URL`, through the URL constants, and the exit codes are used.
