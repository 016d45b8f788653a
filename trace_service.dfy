/**
 * The trace store and the report compiler of `server/services/trace_service.py`.
 *
 * Every user action is saved as one JSON document `trace_<timestamp>.json` in the
 * traces directory; compiling the session sorts those documents by name, takes the
 * first as the initial state, folds the others into a list of `edit_code` /
 * `execute_code` actions while threading the current repository snapshot, writes
 * `final_report_<timestamp>.json` and removes the traces it read.
 *
 * The directory is a map from file name to document. `difflib` is reached only
 * through the function `diff`, which is a parameter; the wall clock is the parameter
 * `clock`, where `clock(k)` is the reading taken for the k-th action of the report.
 */
module TraceService {
  import opened Wrappers
  import opened Text
  import opened Listing

  /** One `{filename, content}` entry of a repository snapshot. */
  datatype FileEntry = FileEntry(filename: string, content: string)

  /** A repository snapshot: file entries in order; a name may repeat, lookups take the first. */
  type Snapshot = seq<FileEntry>

  /**
   * A stored trace, as the keys the compiler reads: `None` is a key absent from the JSON object.
   * An initial trace carries `issue` and `repository`; a delta trace carries `issue`,
   * `initial_repository`, `modified_repository`, `current_file`, `execution_result`, `timestamp`.
   */
  datatype Trace = Trace(
    issue: Option<string>,
    repository: Option<Snapshot>,
    initialRepository: Option<Snapshot>,
    modifiedRepository: Option<Snapshot>,
    currentFile: Option<string>,
    executionResult: Option<string>,
    timestamp: Option<string>)

  /** The `execution_result` of an `execute_code` action: `"success"` or `"error"`. */
  datatype Outcome = Success | Error

  /** One step of the compiled timeline; `timestamp` is in milliseconds. */
  datatype Action =
    | EditCode(diff: string, timestamp: int)
    | ExecuteCode(executionResult: Outcome, timestamp: int)

  datatype Report = Report(issue: string, initialCode: Snapshot, pullRequest: Snapshot, actions: seq<Action>)

  /** A JSON document of the traces directory. */
  datatype Document = TraceDoc(trace: Trace) | ReportDoc(report: Report)

  /** Why `generate_final_report` raised: no trace file, or a `KeyError` on the first trace. */
  datatype CompileError = NoTracesFound | MissingKey(key: string)

  /**
   * The message of the exception `generate_final_report` raises: the cause, wrapped once; a missing
   * key appears as Python prints a `KeyError`, quoted.
   */
  function ErrorMessage(e: CompileError): (message: string)
    ensures StartsWith(message, "Error generating final report: ")
    ensures e == NoTracesFound <==> message == "Error generating final report: No traces found"
    ensures e.MissingKey? ==> message == "Error generating final report: '" + e.key + "'"
  {
    var cause := match e
      case NoTracesFound => "No traces found"
      case MissingKey(k) => "'" + k + "'";
    var message := "Error generating final report: " + cause;
    assert message[31] == cause[0];
    message
  }

  // ---------------------------------------------------------------- file names

  const TracePrefix := "trace_"
  const ReportPrefix := "final_report_"
  const JsonSuffix := ".json"

  /** The names the glob `trace_*.json` matches. */
  predicate MatchesTraceGlob(name: string)
  {
    |TracePrefix| + |JsonSuffix| <= |name| &&
    name[..|TracePrefix|] == TracePrefix &&
    name[|name| - |JsonSuffix|..] == JsonSuffix
  }

  /** The file `save_trace` writes for a second-granularity timestamp; the timestamp can be read back. */
  function TraceFileName(stamp: string): (name: string)
    ensures MatchesTraceGlob(name)
    ensures name[|TracePrefix|..|name| - |JsonSuffix|] == stamp
  {
    var name := TracePrefix + stamp + JsonSuffix;
    assert name[|TracePrefix|..|name| - |JsonSuffix|] == stamp;
    name
  }

  /** Two saves collide exactly when their timestamps are equal. */
  lemma TraceFileNameInjective(stamp1: string, stamp2: string)
    ensures TraceFileName(stamp1) == TraceFileName(stamp2) <==> stamp1 == stamp2
  {
    if TraceFileName(stamp1) == TraceFileName(stamp2) {
      var n := TraceFileName(stamp1);
      assert stamp1 == n[|TracePrefix|..|n| - |JsonSuffix|] == stamp2;
    }
  }

  /** The file the final report is written to; the trace glob never picks it up. */
  function ReportFileName(stamp: string): (name: string)
    ensures !MatchesTraceGlob(name)
  {
    var name := ReportPrefix + stamp + JsonSuffix;
    assert name[0] == 'f' != TracePrefix[0];
    name
  }

  // ---------------------------------------------------------------- reading the directory

  /** The keys a document exposes to the compiler; a report has only `issue` among them. */
  function AsTrace(d: Document): Trace
  {
    match d
    case TraceDoc(t) => t
    case ReportDoc(r) => Trace(Some(r.issue), None, None, None, None, None, None)
  }

  /** `sorted(traces_dir.glob("trace_*.json"))`. */
  function TraceFiles(files: map<string, Document>): (names: seq<string>)
    ensures StrictlySorted(names)
    ensures forall n :: n in names <==> n in files && MatchesTraceGlob(n)
  {
    SortedList(set n | n in files && MatchesTraceGlob(n))
  }

  /** The trace documents in the order the compiler reads them. */
  function OrderedTraces(files: map<string, Document>): (ts: seq<Trace>)
    ensures |ts| == |TraceFiles(files)|
    ensures forall i :: 0 <= i < |ts| ==> ts[i] == AsTrace(files[TraceFiles(files)[i]])
  {
    var names := TraceFiles(files);
    seq(|names|, i requires 0 <= i < |names| => AsTrace(files[names[i]]))
  }

  // ---------------------------------------------------------------- the fold

  /** The issue and the starting snapshot of the first trace: `repository` if present, else `initial_repository`. */
  function InitialState(t: Trace): (r: Result<(string, Snapshot), CompileError>)
    ensures r.Ok? <==> t.issue.Some? && (t.repository.Some? || t.initialRepository.Some?)
    ensures r.Ok? ==> r.value.0 == t.issue.value
    ensures r.Ok? && t.repository.Some? ==> r.value.1 == t.repository.value
    ensures r.Ok? && t.repository.None? ==> r.value.1 == t.initialRepository.value
    ensures r.Err? ==> r.error == MissingKey(if t.repository.Some? || t.initialRepository.Some? then "issue" else "initial_repository")
  {
    if t.repository.Some? then
      if t.issue.Some? then Ok((t.issue.value, t.repository.value)) else Err(MissingKey("issue"))
    else if t.initialRepository.None? then Err(MissingKey("initial_repository"))
    else if t.issue.None? then Err(MissingKey("issue"))
    else Ok((t.issue.value, t.initialRepository.value))
  }

  /** Index `i` holds the first entry of `repo` named `name`. */
  ghost predicate FirstMatch(repo: Snapshot, name: string, i: int)
  {
    0 <= i < |repo| && repo[i].filename == name &&
    forall j :: 0 <= j < i ==> repo[j].filename != name
  }

  /** `next((f['content'] for f in repo if f['filename'] == name), default)`. */
  function FirstContent(repo: Snapshot, name: string, default: string): (content: string)
    ensures (exists i :: FirstMatch(repo, name, i) && content == repo[i].content) ||
            ((forall i :: 0 <= i < |repo| ==> repo[i].filename != name) && content == default)
  {
    if repo == [] then default
    else if repo[0].filename == name then
      assert FirstMatch(repo, name, 0);
      repo[0].content
    else
      var content := FirstContent(repo[1..], name, default);
      assert forall i :: FirstMatch(repo[1..], name, i) ==> FirstMatch(repo, name, i + 1);
      content
  }

  /** `"error" in execution_result.lower()` decides the outcome. */
  function Classify(executionResult: string): (o: Outcome)
    ensures o == Error <==> exists i :: OccursAtIgnoringCase(executionResult, "error", i)
  {
    ContainsLowerIff(executionResult, "error");
    if Contains(Lower(executionResult), "error") then Error else Success
  }

  /** A later trace is skipped without `modified_repository` or with a missing or empty `current_file`. */
  predicate Skipped(t: Trace)
    ensures Skipped(t) <==> t.modifiedRepository.None? || t.currentFile.GetOr("") == ""
  {
    t.modifiedRepository.None? || t.currentFile.None? || t.currentFile.value == ""
  }

  /** The loop state: `current_repository` and the `actions` so far. */
  datatype State = State(current: Snapshot, actions: seq<Action>)

  /** One iteration of the loop over the traces after the first. */
  function Step(st: State, t: Trace, diff: (string, string) -> string, clock: nat -> int): (next: State)
    ensures Skipped(t) <==> next == st
    ensures !Skipped(t) ==> next.current == t.modifiedRepository.value
    ensures |st.actions| <= |next.actions| <= |st.actions| + 2
    ensures next.actions[..|st.actions|] == st.actions
    ensures !Skipped(t) ==> |next.actions| > |st.actions| && next.actions[|next.actions| - 1].ExecuteCode?
  {
    if Skipped(t) then st
    else
      var name := t.currentFile.value;
      var oldContent := FirstContent(st.current, name, "");
      var newContent := FirstContent(t.modifiedRepository.value, name, oldContent);
      var edits := if oldContent != newContent then [EditCode(diff(oldContent, newContent), clock(|st.actions|))] else [];
      var run := ExecuteCode(Classify(t.executionResult.GetOr("")), clock(|st.actions| + |edits|));
      State(t.modifiedRepository.value, st.actions + edits + [run])
  }

  /** The loop run over `ts` from state `init`. */
  function Fold(init: State, ts: seq<Trace>, diff: (string, string) -> string, clock: nat -> int): (st: State)
    ensures |init.actions| <= |st.actions| <= |init.actions| + 2 * |ts|
    ensures st.actions[..|init.actions|] == init.actions
    ensures (forall i :: 0 <= i < |ts| ==> Skipped(ts[i])) ==> st == init
    decreases |ts|
  {
    if ts == [] then init
    else Step(Fold(init, ts[..|ts| - 1], diff, clock), ts[|ts| - 1], diff, clock)
  }

  /** One more trace of `ts` folded in is one more `Step`. */
  lemma FoldPrefixStep(init: State, ts: seq<Trace>, i: nat, diff: (string, string) -> string, clock: nat -> int)
    requires i < |ts|
    ensures Fold(init, ts[..i + 1], diff, clock) == Step(Fold(init, ts[..i], diff, clock), ts[i], diff, clock)
  {
    assert ts[..i + 1][..i] == ts[..i];
  }

  /** What `generate_final_report` returns (or raises) for the traces in name order. */
  function Compile(ts: seq<Trace>, diff: (string, string) -> string, clock: nat -> int): (r: Result<Report, CompileError>)
    ensures ts == [] ==> r == Err(NoTracesFound)
    ensures ts != [] && InitialState(ts[0]).Err? ==> r == Err(InitialState(ts[0]).error)
    ensures ts != [] && InitialState(ts[0]).Ok? ==>
      && r.Ok?
      && r.value.issue == InitialState(ts[0]).value.0
      && r.value.initialCode == InitialState(ts[0]).value.1
      && |r.value.actions| <= 2 * (|ts| - 1)
  {
    if ts == [] then Err(NoTracesFound)
    else
      match InitialState(ts[0])
      case Err(e) => Err(e)
      case Ok((issue, snapshot)) =>
        var st := Fold(State(snapshot, []), ts[1..], diff, clock);
        Ok(Report(issue, snapshot, st.current, st.actions))
  }

  /**
   * The loop over the traces after the first: threads `current_repository` and appends the actions.
   * (The documents are read before the loop rather than one per iteration.)
   */
  method ReplayTraces(initialRepository: Snapshot, later: seq<Trace>, diff: (string, string) -> string, clock: nat -> int)
    returns (currentRepository: Snapshot, actions: seq<Action>)
    ensures State(currentRepository, actions) == Fold(State(initialRepository, []), later, diff, clock)
  {
    currentRepository, actions := initialRepository, [];
    for i := 0 to |later|
      invariant State(currentRepository, actions) == Fold(State(initialRepository, []), later[..i], diff, clock)
    {
      ghost var before := State(currentRepository, actions);
      var trace := later[i];
      FoldPrefixStep(State(initialRepository, []), later, i, diff, clock);
      if trace.modifiedRepository.None? {
        continue;
      }
      var currentFile := trace.currentFile;
      if currentFile.None? || currentFile.value == "" {
        continue;
      }
      var oldContent := FirstContent(currentRepository, currentFile.value, "");
      var newContent := FirstContent(trace.modifiedRepository.value, currentFile.value, oldContent);
      StepProcessed(before, trace, diff, clock, oldContent, newContent);
      if oldContent != newContent {
        actions := actions + [EditCode(diff(oldContent, newContent), clock(|actions|))];
      }
      var executionResult := trace.executionResult.GetOr("");
      actions := actions + [ExecuteCode(Classify(executionResult), clock(|actions|))];
      currentRepository := trace.modifiedRepository.value;
    }
    assert later[..|later|] == later;
  }

  /** `Step` on a trace that is not skipped, for the two contents the loop body has looked up. */
  lemma StepProcessed(st: State, t: Trace, diff: (string, string) -> string, clock: nat -> int,
                      oldContent: string, newContent: string)
    requires !Skipped(t)
    requires oldContent == FirstContent(st.current, t.currentFile.value, "")
    requires newContent == FirstContent(t.modifiedRepository.value, t.currentFile.value, oldContent)
    ensures var edits := if oldContent != newContent then [EditCode(diff(oldContent, newContent), clock(|st.actions|))] else [];
      Step(st, t, diff, clock) ==
        State(t.modifiedRepository.value,
              st.actions + edits + [ExecuteCode(Classify(t.executionResult.GetOr("")), clock(|st.actions| + |edits|))])
  {
  }

  // ---------------------------------------------------------------- the directory

  /** What `save_trace` returns. */
  datatype SaveReceipt = SaveReceipt(message: string, filename: string)

  /** The file names of `names` whose removal fails, in order: the warnings printed during cleanup. */
  function NotRemoved(names: seq<string>, failing: set<string>): (kept: seq<string>)
    ensures forall n :: n in kept <==> n in names && n in failing
    decreases |names|
  {
    if names == [] then []
    else
      var last := names[|names| - 1];
      NotRemoved(names[..|names| - 1], failing) + (if last in failing then [last] else [])
  }

  /** The file names of `names` that cleanup removes. */
  function Removed(names: seq<string>, failing: set<string>): set<string>
  {
    set n | n in names && n !in failing
  }

  /** The traces directory; `files` maps each file name to its document. */
  class TraceStore {
    var files: map<string, Document>

    constructor ()
      ensures files == map[]
    {
      files := map[];
    }

    /** The stored traces in the order `generate_final_report` reads them. */
    function SessionTraces(): seq<Trace>
      reads this
    {
      OrderedTraces(files)
    }

    /** `save_trace(trace)` at the second `stamp`: writes or overwrites one file and nothing else. */
    method SaveTrace(trace: Trace, stamp: string) returns (receipt: SaveReceipt)
      modifies this
      ensures receipt == SaveReceipt("Trace saved successfully", TraceFileName(stamp))
      ensures files == old(files)[TraceFileName(stamp) := TraceDoc(trace)]
    {
      var filename := TraceFileName(stamp);
      files := files[filename := TraceDoc(trace)];
      receipt := SaveReceipt("Trace saved successfully", filename);
    }

    /**
     * `generate_final_report()`. The report is `Compile` of the traces in name order; on success it is
     * written under `ReportFileName(reportStamp)` and every trace read is removed except those in
     * `failing`, whose names come back as `warnings`; on failure nothing changes and the exception
     * raised carries `ErrorMessage(r.error)`.
     */
    method GenerateFinalReport(diff: (string, string) -> string, clock: nat -> int, reportStamp: string, failing: set<string>)
      returns (r: Result<Report, CompileError>, warnings: seq<string>)
      modifies this
      ensures r == Compile(old(SessionTraces()), diff, clock)
      ensures r.Err? ==> files == old(files) && warnings == []
      ensures r.Ok? ==> files == old(files)[ReportFileName(reportStamp) := ReportDoc(r.value)]
                                  - Removed(old(TraceFiles(files)), failing)
      ensures r.Ok? ==> warnings == NotRemoved(old(TraceFiles(files)), failing)
    {
      warnings := [];
      var traceFiles := TraceFiles(files);
      var traces := OrderedTraces(files);
      if |traceFiles| == 0 {
        return Err(NoTracesFound), warnings;
      }
      var initialState := traces[0];
      var start := InitialState(initialState);
      if start.Err? {
        return Err(start.error), warnings;
      }
      var (issue, initialRepository) := start.value;
      var currentRepository, actions := ReplayTraces(initialRepository, traces[1..], diff, clock);
      var report := Report(issue, initialRepository, currentRepository, actions);
      assert Ok(report) == Compile(traces, diff, clock);
      files := files[ReportFileName(reportStamp) := ReportDoc(report)];
      warnings := RemoveTraces(traceFiles, failing);
      r := Ok(report);
    }

    /** The cleanup loop: removes each of `names` in turn; a removal in `failing` fails and is only reported. */
    method RemoveTraces(names: seq<string>, failing: set<string>) returns (warnings: seq<string>)
      modifies this
      ensures files == old(files) - Removed(names, failing)
      ensures warnings == NotRemoved(names, failing)
    {
      warnings := [];
      for i := 0 to |names|
        invariant files == old(files) - Removed(names[..i], failing)
        invariant warnings == NotRemoved(names[..i], failing)
      {
        assert names[..i + 1][..i] == names[..i];
        if names[i] in failing {
          warnings := warnings + [names[i]];
        } else {
          files := files - {names[i]};
        }
      }
      assert names[..|names|] == names;
    }
  }
}
