# Session trace reconciliation, modelled in Dafny

This project models the core of a small coding-practice backend. The core records each user
action as a standalone trace and later reduces the traces into one report.

* **Trace store** (`server/services/trace_service.py`). `save_trace` writes one JSON document
  `trace_<YYYYmmdd_HHMMSS>.json` into the traces directory. Here the directory is the field
  `files: map<string, Document>` of the class `TraceService.TraceStore`.
* **Report compiler** (`generate_final_report`, the method `TraceStore.GenerateFinalReport`).
  1. It lists the `trace_*.json` files in ascending name order (`TraceFiles`, built on `Listing.SortedList`).
  2. It takes the issue and the starting snapshot from the first trace (`InitialState`).
  3. It replays the later traces (`ReplayTraces`), a loop proved equal to the fold `Fold` of `Step`.
  4. It writes `final_report_<stamp>.json` and removes the traces it read (`RemoveTraces`).
  5. A removal that fails is reported and does not stop the others.
* **`CodeAction` validation and the execute endpoint** (`server/main.py`, module `Api`). This covers
  the action and result literals, the two field validators, and the delta trace that `POST /api/execute` saves.

What the model takes as parameters:
* `generate_diff` (a `difflib` call) is the function parameter `diff`. It is assumed to return non-empty text for different inputs only as the stated hypothesis of `Api.CompiledReportValidates`; nothing else assumes anything about it.
* The wall clock is the parameter `clock: nat -> int`. `clock(k)` is the millisecond reading taken
  for the k-th action of the report, because each action makes exactly one `datetime.now()` call.
* File-name timestamps are `string` parameters.
* The simulated execution output is the `string` parameter `result`.
* Which removals fail during cleanup is the parameter set `failing`. The names of the files that
  could not be removed, which the source only prints as warnings, come back as `warnings`.

Behaviour of `trace_service.py` that the model follows:
* A later trace is skipped when it has no `modified_repository`, or when `current_file` is missing **or empty** (`not current_file`).
* Traces are ordered by file name alone. Two traces saved in the same second share a name, and the second overwrites the first.
* Every failure is re-raised once with the prefix `Error generating final report: `, so an empty directory gives `Error generating final report: No traces found` (`ErrorMessage`).
* Any trace whose removal fails stays behind. So the directory holds no trace after compiling only when every removal succeeds (`CleanupOutcome`).

## Model

| member | source | states |
|---|---|---|
| `TraceService.TraceStore.SaveTrace` | server/services/trace_service.py:17-36 | the trace is stored under `trace_<stamp>.json`, overwriting any same-second trace; nothing else in the directory changes; returns the success message and the file name |
| `TraceService.TraceFileName` | server/services/trace_service.py:25-26 | the trace file name matches the `trace_*.json` glob and the timestamp can be read back from it |
| `TraceService.TraceFileNameInjective` | server/services/trace_service.py:25-26 | two saves use the same file exactly when their second-granularity timestamps are equal |
| `ReportProperties.SavedTraceIsListed` | server/services/trace_service.py:24-31 | after a save the new file is listed; the listing grows by one unless a same-second trace was overwritten |
| `TraceService.TraceFiles` | server/services/trace_service.py:42 | the listing is strictly ascending and holds exactly the directory's names that match `trace_*.json` |
| `Listing.SortedList` | server/services/trace_service.py:42 | `sorted` of a set of names: strictly ascending in `str` order, the same names, each once |
| `Listing.SortedListUnique` | server/services/trace_service.py:42 | any strictly ascending sequence of exactly those names equals the sorted listing |
| `ReportProperties.ListingOrderIrrelevant` | server/services/trace_service.py:42 | however the directory enumerates the trace files, the order compiled is the ascending one |
| `ReportProperties.FirstTraceHasSmallestName` | server/services/trace_service.py:42-49 | the initial trace is the trace file with the lexicographically smallest name |
| `TraceService.OrderedTraces` | server/services/trace_service.py:42-67 | the i-th trace read is the document of the i-th name of the sorted listing |
| `ReportProperties.NoTraceFiles` | server/services/trace_service.py:42-45 | compilation fails with "No traces found" exactly when no file matches `trace_*.json` |
| `TraceService.InitialState` | server/services/trace_service.py:51-59 | the starting snapshot is `repository` if present, else `initial_repository`; the issue is `issue`; a missing key is a `KeyError` naming `issue` or `initial_repository` |
| `ReportProperties.CompileFailure` | server/services/trace_service.py:44-59 | compiling fails exactly when there is no trace, or the first lacks `issue`, or it lacks both repository keys |
| `TraceService.ErrorMessage` | server/services/trace_service.py:130-132 | every failure is raised with the prefix `Error generating final report: `; the message is `... No traces found` exactly for an empty directory, and a missing key is quoted as a `KeyError` prints it |
| `TraceService.Compile` | server/services/trace_service.py:38-114 | no trace gives "No traces found"; a bad first trace gives its `KeyError`; otherwise a report whose `issue` and `initial_code` are the first trace's, with at most two actions per later trace |
| `TraceService.Skipped` | server/services/trace_service.py:69-75 | a later trace is skipped exactly when it lacks `modified_repository` or its `current_file` (read with `get`) is missing or empty |
| `TraceService.Step` | server/services/trace_service.py:69-106 | one loop iteration: a skipped trace leaves the state unchanged and any other changes it; a processed trace replaces the snapshot with its `modified_repository` and appends one or two actions ending with `execute_code`; earlier actions are kept |
| `TraceService.Fold` | server/services/trace_service.py:65-106 | the loop over the later traces keeps the actions it started from, appends at most two per trace, and changes nothing when every trace is skipped |
| `TraceService.FirstContent` | server/services/trace_service.py:78-87 | the lookup yields the content of the first entry with that file name, or the default when no entry has it |
| `TraceService.Classify` | server/services/trace_service.py:98-101 | the result is `error` exactly when "error" occurs in the execution result ignoring letter case |
| `ReportProperties.ClassifyExamples` | server/services/trace_service.py:98-101 | an absent result ("") maps to success; "ERROR" inside a message maps to error |
| `ReportProperties.StepEffect` | server/services/trace_service.py:69-106 | a trace without `modified_repository` or with a missing or empty `current_file` changes nothing; any other appends one or two actions, the last an `execute_code`, and replaces the snapshot with its `modified_repository` |
| `ReportProperties.EditIffContentChanged` | server/services/trace_service.py:77-103 | an `edit_code` action carrying `diff(old_content, new_content)` is emitted exactly when the two contents differ; the execute action classifies `execution_result` (default "") |
| `ReportProperties.AbsentFileIsUnchanged` | server/services/trace_service.py:83-90 | a touched file absent from `modified_repository` yields no `edit_code` action |
| `TraceService.ReplayTraces` | server/services/trace_service.py:61-106 | the loop over the later traces ends in the state given by the fold of `Step` over them |
| `ReportProperties.FoldActionCounts` | server/services/trace_service.py:65-103 | with n traces processed, between n and 2n actions are appended, exactly n of them `execute_code`; earlier actions are kept |
| `ReportProperties.EditFollowedByExecute` | server/services/trace_service.py:89-103 | every `edit_code` action is directly followed by the `execute_code` action of its trace |
| `ReportProperties.ActionTimestamps` | server/services/trace_service.py:91-103 | the k-th action carries the k-th clock reading of the compilation, not a timestamp taken from a trace |
| `ReportProperties.FoldCurrent` | server/services/trace_service.py:62-106 | the threaded snapshot ends as the `modified_repository` of the last trace not skipped, or the initial snapshot |
| `ReportProperties.CompiledReport` | server/services/trace_service.py:108-114 | the report's `issue` and `initial_code` come from the first trace, `pull_request` is the last processed `modified_repository` (or `initial_code`), and its actions obey the counts, order and timestamps above |
| `ReportProperties.OneEditSession` | server/services/trace_service.py:38-114 | an initial trace "hello" followed by one edit to "hello world" with result "ok" compiles to one edit and one successful execution |
| `TraceService.ReportFileName` | server/services/trace_service.py:117 | the report's file name never matches the `trace_*.json` glob |
| `TraceService.TraceStore.GenerateFinalReport` | server/services/trace_service.py:38-132 | the result is the compilation of the traces in name order; on failure the directory is unchanged; on success the report is written and every trace read is removed except those whose removal fails, which are returned as warnings |
| `TraceService.TraceStore.RemoveTraces` | server/services/trace_service.py:121-126 | each name is removed in turn; a failed removal is recorded and the loop goes on |
| `ReportProperties.CleanupOutcome` | server/services/trace_service.py:116-126 | after a successful compile the report is stored and the only trace files left are those whose removal failed; with no failure the session holds no trace |
| `Api.ParseActionKind` | server/main.py:13 | `action` admits exactly `edit_code` and `execute_code`, each parsed back to its name |
| `Api.ParseOutcome` | server/main.py:16 | `execution_result` admits exactly `success` and `error`, each parsed back to its name |
| `Api.NamesRoundTrip` | server/main.py:13-16 | naming an action kind or outcome and parsing the name gives it back |
| `Api.ValidateDiffForEdit` | server/main.py:18-22 | rejects exactly an `edit_code` action with a missing or empty diff; otherwise returns the diff unchanged |
| `Api.ValidateResultForExecute` | server/main.py:24-28 | rejects exactly an `execute_code` action without an execution result; otherwise returns it unchanged |
| `Api.ValidatorsIgnoreOtherKind` | server/main.py:18-28 | an `execute_code` action needs no diff and an `edit_code` action needs no execution result |
| `Api.ValidateCodeAction` | server/main.py:12-28 | a `CodeAction` is admitted exactly when its action and result literals are permitted and its kind's required field is present and non-empty; admitted fields are unchanged |
| `Api.CompiledActionsValidate` | server/main.py:12-28 | every action of a compiled report passes validation except an `edit_code` action whose diff is empty; every `execute_code` action passes |
| `Api.FoldEditsCarryDiffs` | server/services/trace_service.py:89-95 | every `edit_code` action of the fold carries `diff(x, y)` for two different contents |
| `Api.CompiledReportValidates` | server/main.py:18-28 | if the diff generator returns non-empty text for different inputs, every action of every compiled report passes validation |
| `Api.DeltaTrace` | server/main.py:80-87 | the saved trace copies `issue`, both repositories and `current_file` from the request, and its `execution_result` is the execution output |
| `Api.DeltaTraceCompiles` | server/main.py:79-90 | a delta trace starts from `initial_repository` when first; later it is skipped only for an empty `current_file`, and otherwise it moves the snapshot to `modified_repository` and ends with an execute action classifying the message returned to the caller |
| `Api.ExecuteCodeEndpoint` | server/main.py:72-90 | the reply is the execution output; a trace is saved only when the request carries trace data, and it is that delta trace |

## Left out

- `generate_diff` (`difflib.unified_diff`) is an uninterpreted parameter. No property of it is claimed, not even that equal inputs give "".
- Wall-clock time, the random issue choice and the random execution output are parameters. `server/services/issue_service.py` and `server/services/execution_service.py` are not part of this model.
- JSON is not serialised, no directories are created and no file-system errors occur apart from failed removals. `save_trace` and writing the report therefore always succeed.
- Trace fields are typed: a key is either absent or holds a value of the expected type. JSON `null` and ill-typed values are not modelled. For example, a `null` `execution_result` makes `.lower()` raise in the source.
- `str.lower()` is modelled on ASCII letters only. No other character lowercases to one of `e`, `r`, `o`, so the test for "error" has the same outcome.
- `Api.ValidateCodeAction` runs both validators on every request, following the stated intent. pydantic skips a validator without `always=True` for a field left out of the request, so the library may admit an `edit_code` action that omits `diff` entirely. That library behaviour is not modelled.
- `Api.ValidateCodeAction` does not model pydantic's coercion of `timestamp` or its exact error texts. Errors are the values of `ValidationError`.
- `ReplayTraces` reads all trace documents before its loop, where the source opens one file per iteration. Nothing else touches the directory in between, so the result is the same.
- FastAPI routing, CORS, `HTTPException` wrapping, the `GET /api/issues/random` and `POST /api/traces` endpoints, the React client and `print` logging are plumbing.
- Concurrent saves and compiles are not modelled. Calls run one at a time.
