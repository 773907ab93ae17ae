/**
 * The decisions of the `tocolab` command line: default-command routing,
 * accelerator choice, push input validation and naming, pull locator
 * resolution, and the exit code each path ends with. File system state,
 * standard input, the notebook parser and the Drive round trips are
 * inputs.
 */
module Cli {
  import opened Wrappers
  import opened Text
  import opened NotebookModel
  import NotebookBuilder
  import Colab

  /** The registered commands; `push` is the hidden default. */
  const Commands: set<string> := {"push", "pull", "auth"}
  const DefaultCommand: string := "push"

  const ExitSuccess: int := 0
  const ExitUserError: int := 1
  const ExitNetworkError: int := 3

  const UntitledName: string := "Untitled"
  const NotebookSuffix: string := ".ipynb"

  /** `_DefaultGroup.parse_args`: the argument list handed to the
      command group. Routed arguments always start with a registered
      command, and the user's arguments follow unchanged; they are
      passed through exactly when they already start with a command. */
  function RouteArgs(args: seq<string>): (routed: seq<string>)
    ensures |routed| > 0 && routed[0] in Commands
    ensures |routed| >= |args| && routed[|routed| - |args|..] == args
    ensures routed == args <==> |args| > 0 && args[0] in Commands
    ensures routed != args ==> routed == [DefaultCommand] + args
  {
    if |args| > 0 && args[0] !in Commands then [DefaultCommand] + args
    else if |args| == 0 then [DefaultCommand]
    else args
  }

  /** Routing an already routed list changes nothing. */
  lemma RouteArgsIdempotent(args: seq<string>)
    ensures RouteArgs(RouteArgs(args)) == RouteArgs(args)
  {
  }

  /** The accelerator of `--gpu` / `--tpu`: GPU wins when both are given. */
  function ChooseAccelerator(gpu: bool, tpu: bool): (accelerator: Option<string>)
    ensures accelerator == Some("GPU") <==> gpu
    ensures accelerator == Some("TPU") <==> !gpu && tpu
    ensures accelerator.None? <==> !gpu && !tpu
  {
    if gpu then Some("GPU") else if tpu then Some("TPU") else None
  }

  /** Offset of the last `.` in `name`, if any. */
  function LastDot(name: string): (d: Option<nat>)
    ensures d.Some? ==> d.value < |name| && name[d.value] == '.'
    ensures d.Some? ==> forall k :: d.value < k < |name| ==> name[k] != '.'
    ensures d.None? ==> forall k :: 0 <= k < |name| ==> name[k] != '.'
  {
    if |name| == 0 then None
    else if name[|name| - 1] == '.' then Some(|name| - 1)
    else LastDot(name[..|name| - 1])
  }

  /** `PurePath.suffix` of a file name: from the last dot, unless that dot
      opens the name or closes it. */
  function Suffix(name: string): string {
    match LastDot(name)
    case Some(d) => if 0 < d < |name| - 1 then name[d..] else ""
    case None => ""
  }

  /** `PurePath.stem` of a file name: the name without its suffix. */
  function Stem(name: string): (stem: string)
    ensures stem + Suffix(name) == name
  {
    match LastDot(name)
    case Some(d) => if 0 < d < |name| - 1 then name[..d] else name
    case None => name
  }

  /** A file is passed through as a notebook exactly when its name ends
      in `.ipynb` after at least one other character; a file named just
      `.ipynb` is treated as source code. */
  lemma IpynbSuffixIff(name: string)
    ensures Suffix(name) == NotebookSuffix <==>
      |name| > |NotebookSuffix| && name[|name| - |NotebookSuffix|..] == NotebookSuffix
  {
    var n := |NotebookSuffix|;
    if |name| > n && name[|name| - n..] == NotebookSuffix {
      var d := |name| - n;
      assert name[d] == '.';
      assert forall k :: d < k < |name| ==> name[k] == NotebookSuffix[k - d];
      var ld := LastDot(name);
      assert ld.Some?;
    }
  }

  /** Where the push command reads its input from. */
  datatype PushSource =
    | FileArg(fileName: string, present: bool, text: Option<string>)
    | StdinArg(isTty: bool, input: string)

  /** How a command body ends: normally, by `SystemExit(code)`, or by an
      exception with a message. */
  datatype RunOutcome = Finished | Exited(code: int) | Raised(message: string)

  /** What the push command does before authenticating: stop, or upload
      a notebook under a name. */
  datatype PushStep = Stop(outcome: RunOutcome) | Upload(notebook: Notebook, notebookName: string)

  /** `name or source.stem`, `name or "Untitled"`. */
  function NotebookName(source: PushSource, name: Option<string>): string {
    if NotebookBuilder.Truthy(name) then name.value
    else match source
      case FileArg(fileName, _, _) => Stem(fileName)
      case StdinArg(_, _) => UntitledName
  }

  /** The input could be read: an existing, readable file, or piped
      standard input. */
  predicate Readable(source: PushSource) {
    match source
    case FileArg(_, present, text) => present && text.Some?
    case StdinArg(isTty, _) => !isTty
  }

  /** The text read from a readable input. */
  function Content(source: PushSource): string
    requires Readable(source)
  {
    if source.FileArg? then source.text.value else source.input
  }

  /** `source.suffix == ".ipynb"`; standard input is never a notebook. */
  predicate IsIpynb(source: PushSource) {
    source.FileArg? && Suffix(source.fileName) == NotebookSuffix
  }

  /** The checks and notebook construction of `_run` up to the upload.
      `parse` stands for `nbformat.reads`, `None` for a parse error;
      `stdlib` for `sys.stdlib_module_names`. */
  function PreparePush(source: PushSource, name: Option<string>, gpu: bool, tpu: bool,
                       parse: string -> Option<Notebook>, stdlib: set<string>): (step: PushStep)
    ensures source.FileArg? && !source.present ==> step == Stop(Exited(ExitUserError))
    ensures source.StdinArg? && source.isTty ==> step == Stop(Exited(ExitUserError))
    ensures source.FileArg? && source.present && source.text.Some? && IsBlank(source.text.value) ==>
      step == Stop(Exited(ExitUserError))
    ensures source.StdinArg? && !source.isTty && IsBlank(source.input) ==> step == Stop(Exited(ExitUserError))
    ensures source.FileArg? && source.present && source.text.None? ==> step.Stop? && step.outcome.Raised?
    ensures Readable(source) && !IsBlank(Content(source)) && IsIpynb(source) && parse(Content(source)).None? ==>
      step.Stop? && step.outcome.Raised?
    ensures Readable(source) && !IsBlank(Content(source)) && (IsIpynb(source) ==> parse(Content(source)).Some?) ==>
      step.Upload?
    ensures step.Upload? ==> step.notebookName == NotebookName(source, name)
    ensures step.Upload? ==> Readable(source) && var content := Content(source);
      && !IsBlank(content)
      && (IsIpynb(source) ==>
            && parse(content).Some?
            && step.notebook == NotebookBuilder.LoadIpynb(parse(content).value, ChooseAccelerator(gpu, tpu)))
      && (!IsIpynb(source) ==>
            step.notebook == NotebookBuilder.CreateNotebook(content, Some(step.notebookName), ChooseAccelerator(gpu, tpu), stdlib))
  {
    var accelerator := ChooseAccelerator(gpu, tpu);
    var input: Result<string, RunOutcome> :=
      match source
      case FileArg(_, present, text) =>
        if !present then Failure(Exited(ExitUserError))
        else if text.None? then Failure(Raised("file could not be read"))
        else Success(text.value)
      case StdinArg(isTty, input) =>
        if isTty then Failure(Exited(ExitUserError)) else Success(input);
    if input.Failure? then Stop(input.error)
    else
      var content := input.value;
      StripEmptyIffBlank(content);
      if Strip(content) == "" then Stop(Exited(ExitUserError))
      else
        var notebookName := NotebookName(source, name);
        if IsIpynb(source) then
          match parse(content)
          case None => Stop(Raised("notebook could not be parsed"))
          case Some(nb) => Upload(NotebookBuilder.LoadIpynb(nb, accelerator), notebookName)
        else Upload(NotebookBuilder.CreateNotebook(content, Some(notebookName), accelerator, stdlib), notebookName)
  }

  /** How the process ends. */
  datatype Termination = ExitWith(code: int) | Uncaught(message: string)

  /** The `try`/`except` around a command body: `SystemExit` passes
      through, any other exception becomes exit code 3 unless verbose
      mode lets it propagate. */
  function Terminate(outcome: RunOutcome, verbose: bool): (t: Termination)
    ensures outcome.Raised? && !verbose ==> t == ExitWith(ExitNetworkError)
    ensures outcome.Raised? && verbose ==> t == Uncaught(outcome.message)
    ensures outcome.Exited? ==> t == ExitWith(outcome.code)
    ensures outcome.Finished? ==> t == ExitWith(ExitSuccess)
  {
    match outcome
    case Finished => ExitWith(ExitSuccess)
    case Exited(code) => ExitWith(code)
    case Raised(message) => if verbose then Uncaught(message) else ExitWith(ExitNetworkError)
  }

  /** The push command. `upload` stands for authentication, folder
      lookup, upload and the browser/clipboard steps. */
  function PushCommand(source: PushSource, name: Option<string>, gpu: bool, tpu: bool, verbose: bool,
                       parse: string -> Option<Notebook>, stdlib: set<string>,
                       upload: (Notebook, string) -> RunOutcome): Termination
  {
    match PreparePush(source, name, gpu, tpu, parse, stdlib)
    case Stop(outcome) => Terminate(outcome, verbose)
    case Upload(nb, notebookName) => Terminate(upload(nb, notebookName), verbose)
  }

  /** A missing file, an interactive terminal without input, or blank
      content ends the push with exit code 1 before anything is uploaded,
      whatever the upload would have done and in verbose mode too. */
  lemma PushInputErrorsExitOne(source: PushSource, name: Option<string>, gpu: bool, tpu: bool, verbose: bool,
                               parse: string -> Option<Notebook>, stdlib: set<string>,
                               upload: (Notebook, string) -> RunOutcome)
    requires || (source.FileArg? && !source.present)
             || (source.StdinArg? && source.isTty)
             || (source.FileArg? && source.present && source.text.Some? && IsBlank(source.text.value))
             || (source.StdinArg? && !source.isTty && IsBlank(source.input))
    ensures PushCommand(source, name, gpu, tpu, verbose, parse, stdlib, upload) == ExitWith(ExitUserError)
  {
  }

  /** Readable, non-blank input that is source code or a notebook the
      parser accepts reaches the upload, under the `--name`-or-stem-or-
      `Untitled` name, and the command ends as the upload side does. */
  lemma PushValidInputUploads(source: PushSource, name: Option<string>, gpu: bool, tpu: bool, verbose: bool,
                              parse: string -> Option<Notebook>, stdlib: set<string>,
                              upload: (Notebook, string) -> RunOutcome)
    requires Readable(source) && !IsBlank(Content(source))
    requires IsIpynb(source) ==> parse(Content(source)).Some?
    ensures var accelerator := ChooseAccelerator(gpu, tpu);
      var notebookName := NotebookName(source, name);
      var nb := if IsIpynb(source) then NotebookBuilder.LoadIpynb(parse(Content(source)).value, accelerator)
                else NotebookBuilder.CreateNotebook(Content(source), Some(notebookName), accelerator, stdlib);
      PushCommand(source, name, gpu, tpu, verbose, parse, stdlib, upload) == Terminate(upload(nb, notebookName), verbose)
  {
    var step := PreparePush(source, name, gpu, tpu, parse, stdlib);
    assert step.Upload?;
  }

  /** Any failure of the upload side ends with exit code 3 unless verbose. */
  lemma PushBackendErrorExitsThree(source: PushSource, name: Option<string>, gpu: bool, tpu: bool,
                                   parse: string -> Option<Notebook>, stdlib: set<string>,
                                   upload: (Notebook, string) -> RunOutcome)
    requires PreparePush(source, name, gpu, tpu, parse, stdlib).Upload?
    requires var step := PreparePush(source, name, gpu, tpu, parse, stdlib);
      upload(step.notebook, step.notebookName).Raised?
    ensures PushCommand(source, name, gpu, tpu, false, parse, stdlib, upload) == ExitWith(ExitNetworkError)
  {
  }

  /** The record `_load_last_push` reads: absent, or an object that may
      lack its `file_id` key. */
  datatype LastPush = NoRecord | Record(fileId: Option<string>)

  /** The file-id resolution of `_run_pull`. */
  function ResolveLocator(source: Option<string>, last: bool, lastPush: LastPush): (r: Result<string, RunOutcome>)
    ensures last && lastPush.Record? && lastPush.fileId.Some? ==> r == Success(lastPush.fileId.value)
    ensures last && lastPush.NoRecord? ==> r == Failure(Exited(ExitUserError))
    ensures last && lastPush.Record? && lastPush.fileId.None? ==> r.Failure? && r.error.Raised?
    ensures !last && NotebookBuilder.Truthy(source) ==>
      match Colab.ParseFileId(source.value)
      case Success(id) => r == Success(id)
      case Failure(_) => r == Failure(Exited(ExitUserError))
    ensures !last && !NotebookBuilder.Truthy(source) ==> r == Failure(Exited(ExitUserError))
    ensures r.Success? ==> |r.value| > 0 || last
  {
    if last then
      match lastPush
      case NoRecord => Failure(Exited(ExitUserError))
      case Record(fileId) =>
        if fileId.Some? then Success(fileId.value) else Failure(Raised("file_id"))
    else if NotebookBuilder.Truthy(source) then
      match Colab.ParseFileId(source.value)
      case Success(id) => Success(id)
      case Failure(_) => Failure(Exited(ExitUserError))
    else Failure(Exited(ExitUserError))
  }

  /** The pull command. `fetch` stands for authentication, download,
      saving and printing for a resolved file id. */
  function PullCommand(source: Option<string>, last: bool, lastPush: LastPush, verbose: bool,
                       fetch: string -> RunOutcome): Termination
  {
    match ResolveLocator(source, last, lastPush)
    case Failure(outcome) => Terminate(outcome, verbose)
    case Success(fileId) => Terminate(fetch(fileId), verbose)
  }

  /** `--last` takes precedence: the positional locator is ignored, even
      when it would not parse. */
  lemma PullLastTakesPrecedence(source: Option<string>, other: Option<string>, lastPush: LastPush, verbose: bool,
                                fetch: string -> RunOutcome)
    ensures PullCommand(source, true, lastPush, verbose, fetch) == PullCommand(other, true, lastPush, verbose, fetch)
  {
  }

  /** Without `--last`, an unparseable locator or no locator at all ends
      with exit code 1 before anything is downloaded. */
  lemma PullLocatorErrorsExitOne(source: Option<string>, lastPush: LastPush, verbose: bool,
                                 fetch: string -> RunOutcome)
    requires !NotebookBuilder.Truthy(source) || Colab.ParseFileId(source.value).Failure?
    ensures PullCommand(source, false, lastPush, verbose, fetch) == ExitWith(ExitUserError)
  {
  }
}
