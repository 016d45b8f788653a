/**
 * The modelled part of `server/main.py`: the `CodeAction` request model with its two field
 * validators, and the delta trace that `POST /api/execute` saves.
 */
module Api {
  import opened Wrappers
  import opened Text
  import opened TraceService

  /** `Literal['edit_code', 'execute_code']`. */
  datatype ActionKind = EditCodeKind | ExecuteCodeKind

  function ActionName(k: ActionKind): string
  {
    match k
    case EditCodeKind => "edit_code"
    case ExecuteCodeKind => "execute_code"
  }

  /** The literal check on `action`: only the two permitted names parse, each back to its kind. */
  function ParseActionKind(s: string): (k: Option<ActionKind>)
    ensures k.Some? <==> s == "edit_code" || s == "execute_code"
    ensures k.Some? ==> ActionName(k.value) == s
  {
    if s == "edit_code" then Some(EditCodeKind)
    else if s == "execute_code" then Some(ExecuteCodeKind)
    else None
  }

  function OutcomeName(o: Outcome): string
  {
    match o
    case Success => "success"
    case Error => "error"
  }

  /** The literal check on `execution_result`: `"success"` or `"error"`, each back to its outcome. */
  function ParseOutcome(s: string): (o: Option<Outcome>)
    ensures o.Some? <==> s == "success" || s == "error"
    ensures o.Some? ==> OutcomeName(o.value) == s
  {
    if s == "success" then Some(Success)
    else if s == "error" then Some(Error)
    else None
  }

  lemma NamesRoundTrip(k: ActionKind, o: Outcome)
    ensures ParseActionKind(ActionName(k)) == Some(k)
    ensures ParseOutcome(OutcomeName(o)) == Some(o)
  {
  }

  /** A `CodeAction` request body as received: `None` is a field left out (or `null`). */
  datatype RawCodeAction = RawCodeAction(action: string, timestamp: int, diff: Option<string>, executionResult: Option<string>)

  /** A validated `CodeAction`. */
  datatype CodeAction = CodeAction(action: ActionKind, timestamp: int, diff: Option<string>, executionResult: Option<Outcome>)

  datatype ValidationError =
    | ActionNotPermitted
    | ExecutionResultNotPermitted
    | DiffRequired
    | ExecutionResultRequired

  /**
   * `validate_diff_for_edit`: `action` is the already validated action (`None` when it failed).
   * Rejects exactly an `edit_code` action whose diff is missing or empty; otherwise returns the diff.
   */
  function ValidateDiffForEdit(v: Option<string>, action: Option<ActionKind>): (r: Result<Option<string>, ValidationError>)
    ensures r.Err? <==> action == Some(EditCodeKind) && (v.None? || v.value == "")
    ensures r.Err? ==> r.error == DiffRequired
    ensures r.Ok? ==> r.value == v
  {
    if action == Some(EditCodeKind) && (v.None? || v.value == "") then Err(DiffRequired) else Ok(v)
  }

  /**
   * `validate_result_for_execute`: rejects exactly an `execute_code` action without an execution result;
   * otherwise returns the result. (An outcome that passed its literal check is never empty.)
   */
  function ValidateResultForExecute(v: Option<Outcome>, action: Option<ActionKind>): (r: Result<Option<Outcome>, ValidationError>)
    ensures r.Err? <==> action == Some(ExecuteCodeKind) && v.None?
    ensures r.Err? ==> r.error == ExecutionResultRequired
    ensures r.Ok? ==> r.value == v
  {
    if action == Some(ExecuteCodeKind) && v.None? then Err(ExecutionResultRequired) else Ok(v)
  }

  /** `execution_result`: the literal check, then the validator when the literal check passed. */
  function ValidateExecutionResultField(v: Option<string>, action: Option<ActionKind>): Result<Option<Outcome>, ValidationError>
  {
    match v
    case None => ValidateResultForExecute(None, action)
    case Some(s) =>
      match ParseOutcome(s)
      case None => Err(ExecutionResultNotPermitted)
      case Some(o) => ValidateResultForExecute(Some(o), action)
  }

  function ErrorsOf<T>(r: Result<T, ValidationError>): seq<ValidationError>
  {
    if r.Err? then [r.error] else []
  }

  /** The independent statement of what `CodeAction` admits. */
  predicate Admissible(raw: RawCodeAction)
  {
    && (raw.action == "edit_code" || raw.action == "execute_code")
    && (raw.executionResult.Some? ==> raw.executionResult.value == "success" || raw.executionResult.value == "error")
    && (raw.action == "edit_code" ==> raw.diff.Some? && raw.diff.value != "")
    && (raw.action == "execute_code" ==> raw.executionResult.Some?)
  }

  /**
   * Building a `CodeAction`: fields are validated in declaration order, each validator seeing the
   * `action` validated before it, and every failing field adds its error. The action is admitted
   * exactly when `Admissible` holds, with its fields unchanged.
   */
  function ValidateCodeAction(raw: RawCodeAction): (r: Result<CodeAction, seq<ValidationError>>)
    ensures r.Ok? <==> Admissible(raw)
    ensures r.Ok? ==>
      && ActionName(r.value.action) == raw.action
      && r.value.timestamp == raw.timestamp
      && r.value.diff == raw.diff
      && (r.value.executionResult.Some? <==> raw.executionResult.Some?)
      && (r.value.executionResult.Some? ==> OutcomeName(r.value.executionResult.value) == raw.executionResult.value)
    ensures r.Err? ==> r.error != []
  {
    var action := ParseActionKind(raw.action);
    var diff := ValidateDiffForEdit(raw.diff, action);
    var result := ValidateExecutionResultField(raw.executionResult, action);
    var errors := (if action.None? then [ActionNotPermitted] else []) + ErrorsOf(diff) + ErrorsOf(result);
    if errors == [] then Ok(CodeAction(action.value, raw.timestamp, diff.value, result.value))
    else Err(errors)
  }

  /** The dictionary the compiler emits for an action, as a `CodeAction` request body. */
  function AsRequest(a: Action): RawCodeAction
  {
    match a
    case EditCode(d, ts) => RawCodeAction("edit_code", ts, Some(d), None)
    case ExecuteCode(o, ts) => RawCodeAction("execute_code", ts, None, Some(OutcomeName(o)))
  }

  /** Each validator checks only its own action kind: an `execute_code` action needs no diff, an `edit_code` action no result. */
  lemma ValidatorsIgnoreOtherKind(diff: Option<string>, result: Option<Outcome>)
    ensures ValidateDiffForEdit(diff, Some(ExecuteCodeKind)) == Ok(diff)
    ensures ValidateResultForExecute(result, Some(EditCodeKind)) == Ok(result)
  {
  }

  /**
   * Every action a compiled report holds passes `CodeAction` validation, except an `edit_code`
   * action whose diff text is empty; in particular every `execute_code` action passes.
   */
  lemma CompiledActionsValidate(ts: seq<Trace>, diff: (string, string) -> string, clock: nat -> int)
    requires Compile(ts, diff, clock).Ok?
    ensures var actions := Compile(ts, diff, clock).value.actions;
      forall i :: 0 <= i < |actions| ==>
        (ValidateCodeAction(AsRequest(actions[i])).Ok? <==> !(actions[i].EditCode? && actions[i].diff == ""))
  {
  }

  /** The edit actions of a fold carry `diff(old, new)` for two different contents. */
  ghost predicate EditsCarryDiffs(actions: seq<Action>, diff: (string, string) -> string)
  {
    forall i :: 0 <= i < |actions| && actions[i].EditCode? ==>
      exists x, y :: x != y && actions[i].diff == diff(x, y)
  }

  lemma {:induction false} FoldEditsCarryDiffs(init: State, ts: seq<Trace>, diff: (string, string) -> string, clock: nat -> int)
    requires EditsCarryDiffs(init.actions, diff)
    ensures EditsCarryDiffs(Fold(init, ts, diff, clock).actions, diff)
    decreases |ts|
  {
    if ts != [] {
      var prefix := ts[..|ts| - 1];
      FoldEditsCarryDiffs(init, prefix, diff, clock);
      var before := Fold(init, prefix, diff, clock);
      var t := ts[|ts| - 1];
      if !Skipped(t) {
        var after := Step(before, t, diff, clock);
        var name := t.currentFile.value;
        var oldContent := FirstContent(before.current, name, "");
        var newContent := FirstContent(t.modifiedRepository.value, name, oldContent);
        forall i | 0 <= i < |after.actions| && after.actions[i].EditCode?
          ensures exists x, y :: x != y && after.actions[i].diff == diff(x, y)
        {
          if i < |before.actions| {
            assert after.actions[i] == before.actions[i];
          } else {
            assert after.actions[i].diff == diff(oldContent, newContent);
          }
        }
      }
    }
  }

  /**
   * When the diff generator yields a non-empty patch for any two different contents (as a unified diff
   * does), every action of every compiled report passes `CodeAction` validation.
   */
  lemma CompiledReportValidates(ts: seq<Trace>, diff: (string, string) -> string, clock: nat -> int)
    requires forall x, y :: x != y ==> diff(x, y) != ""
    requires Compile(ts, diff, clock).Ok?
    ensures var actions := Compile(ts, diff, clock).value.actions;
      forall i :: 0 <= i < |actions| ==> ValidateCodeAction(AsRequest(actions[i])).Ok?
  {
    var init := State(InitialState(ts[0]).value.1, []);
    FoldEditsCarryDiffs(init, ts[1..], diff, clock);
  }

  // ---------------------------------------------------------------- POST /api/execute

  /** The `trace` part of an execute request: one `Repository` list per snapshot. */
  datatype TraceData = TraceData(issue: string, initialRepository: Snapshot, modifiedRepository: Snapshot, currentFile: string)

  datatype ExecuteRequest = ExecuteRequest(code: string, trace: Option<TraceData>)

  /** The dictionary `execute_code_endpoint` saves: the request's fields, its own timestamp and the execution result. */
  function DeltaTrace(data: TraceData, stamp: string, result: string): (t: Trace)
    ensures t.issue == Some(data.issue) && t.repository.None?
    ensures t.initialRepository == Some(data.initialRepository) && t.modifiedRepository == Some(data.modifiedRepository)
    ensures t.currentFile == Some(data.currentFile) && t.executionResult == Some(result)
  {
    Trace(Some(data.issue), None, Some(data.initialRepository), Some(data.modifiedRepository),
          Some(data.currentFile), Some(result), Some(stamp))
  }

  /**
   * A delta trace, read back by the compiler: as the first trace it starts from `initial_repository`;
   * as a later one it is skipped only for an empty `current_file`, and otherwise it moves the snapshot
   * to `modified_repository` and ends with an `execute_code` action classifying the returned message.
   */
  lemma DeltaTraceCompiles(data: TraceData, stamp: string, result: string, st: State,
                           diff: (string, string) -> string, clock: nat -> int)
    ensures InitialState(DeltaTrace(data, stamp, result)) == Ok((data.issue, data.initialRepository))
    ensures Skipped(DeltaTrace(data, stamp, result)) <==> data.currentFile == ""
    ensures data.currentFile != "" ==>
      var next := Step(st, DeltaTrace(data, stamp, result), diff, clock);
      && next.current == data.modifiedRepository
      && next.actions[|next.actions| - 1] == ExecuteCode(Classify(result), next.actions[|next.actions| - 1].timestamp)
  {
  }

  /**
   * `execute_code_endpoint`: `result` is what the simulated execution returned and is also the reply;
   * the delta trace is saved (at file stamp `fileStamp`) only when the request carries trace data.
   */
  method ExecuteCodeEndpoint(store: TraceStore, request: ExecuteRequest, result: string, traceStamp: string, fileStamp: string)
    returns (message: string)
    modifies store
    ensures message == result
    ensures request.trace.None? ==> store.files == old(store.files)
    ensures request.trace.Some? ==>
      store.files == old(store.files)[TraceFileName(fileStamp) := TraceDoc(DeltaTrace(request.trace.value, traceStamp, result))]
  {
    if request.trace.Some? {
      var trace := DeltaTrace(request.trace.value, traceStamp, result);
      var _ := store.SaveTrace(trace, fileStamp);
    }
    message := result;
  }
}
