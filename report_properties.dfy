/** What `generate_final_report` and `save_trace` promise, proved about the model in `TraceService`. */
module ReportProperties {
  import opened Wrappers
  import opened Text
  import opened Listing
  import opened TraceService

  // ---------------------------------------------------------------- counting the fold

  /** The number of traces of `ts` the loop does not skip. */
  function Processed(ts: seq<Trace>): nat
    decreases |ts|
  {
    if ts == [] then 0
    else Processed(ts[..|ts| - 1]) + (if Skipped(ts[|ts| - 1]) then 0 else 1)
  }

  /** The number of `execute_code` actions of `actions`. */
  function ExecuteCount(actions: seq<Action>): nat
    decreases |actions|
  {
    if actions == [] then 0
    else ExecuteCount(actions[..|actions| - 1]) + (if actions[|actions| - 1].ExecuteCode? then 1 else 0)
  }

  /** The `modified_repository` of the last trace of `ts` not skipped, or `default` when every trace is skipped. */
  function LastModified(ts: seq<Trace>, default: Snapshot): Snapshot
    decreases |ts|
  {
    if ts == [] then default
    else if Skipped(ts[|ts| - 1]) then LastModified(ts[..|ts| - 1], default)
    else ts[|ts| - 1].modifiedRepository.value
  }

  lemma ExecuteCountSnoc(actions: seq<Action>, a: Action)
    ensures ExecuteCount(actions + [a]) == ExecuteCount(actions) + (if a.ExecuteCode? then 1 else 0)
  {
    assert (actions + [a])[..|actions|] == actions;
  }

  /** A trace that is skipped leaves the state as it was; any other replaces the snapshot and appends one or two actions, the last an `execute_code`. */
  lemma StepEffect(st: State, t: Trace, diff: (string, string) -> string, clock: nat -> int)
    ensures Skipped(t) ==> Step(st, t, diff, clock) == st
    ensures !Skipped(t) ==>
      var next := Step(st, t, diff, clock);
      && next.current == t.modifiedRepository.value
      && |st.actions| + 1 <= |next.actions| <= |st.actions| + 2
      && next.actions[..|st.actions|] == st.actions
      && next.actions[|next.actions| - 1].ExecuteCode?
      && (|next.actions| == |st.actions| + 2 ==> next.actions[|st.actions|].EditCode?)
      && ExecuteCount(next.actions) == ExecuteCount(st.actions) + 1
  {
    if !Skipped(t) {
      var next := Step(st, t, diff, clock);
      var m := |next.actions|;
      assert next.actions == next.actions[..m - 1] + [next.actions[m - 1]];
      ExecuteCountSnoc(next.actions[..m - 1], next.actions[m - 1]);
      if m == |st.actions| + 2 {
        assert next.actions[..m - 1] == st.actions + [next.actions[m - 2]];
        ExecuteCountSnoc(st.actions, next.actions[m - 2]);
      } else {
        assert next.actions[..m - 1] == st.actions;
      }
    }
  }

  /**
   * For a trace that is not skipped: `old_content` is the file's content in the current snapshot (or ""),
   * `new_content` its content in `modified_repository` (or `old_content`), and an `edit_code` action
   * carrying `diff(old_content, new_content)` is emitted exactly when the two differ.
   */
  lemma EditIffContentChanged(st: State, t: Trace, diff: (string, string) -> string, clock: nat -> int)
    requires !Skipped(t)
    ensures
      var name := t.currentFile.value;
      var oldContent := FirstContent(st.current, name, "");
      var newContent := FirstContent(t.modifiedRepository.value, name, oldContent);
      var next := Step(st, t, diff, clock);
      && (oldContent != newContent <==> |next.actions| == |st.actions| + 2)
      && (oldContent != newContent ==> next.actions[|st.actions|] == EditCode(diff(oldContent, newContent), clock(|st.actions|)))
      && next.actions[|next.actions| - 1].executionResult == Classify(t.executionResult.GetOr(""))
  {
  }

  /** A touched file that `modified_repository` does not list counts as unchanged: no `edit_code` action. */
  lemma AbsentFileIsUnchanged(st: State, t: Trace, diff: (string, string) -> string, clock: nat -> int)
    requires !Skipped(t)
    requires forall i :: 0 <= i < |t.modifiedRepository.value| ==> t.modifiedRepository.value[i].filename != t.currentFile.value
    ensures |Step(st, t, diff, clock).actions| == |st.actions| + 1
  {
  }

  /**
   * With n traces processed the fold appends between n and 2n actions, exactly n of them `execute_code`,
   * and keeps the actions it started from.
   */
  lemma {:induction false} FoldActionCounts(init: State, ts: seq<Trace>, diff: (string, string) -> string, clock: nat -> int)
    ensures var st := Fold(init, ts, diff, clock);
      && |init.actions| + Processed(ts) <= |st.actions| <= |init.actions| + 2 * Processed(ts)
      && ExecuteCount(st.actions) == ExecuteCount(init.actions) + Processed(ts)
      && st.actions[..|init.actions|] == init.actions
    decreases |ts|
  {
    if ts != [] {
      var prefix := ts[..|ts| - 1];
      FoldActionCounts(init, prefix, diff, clock);
      var before := Fold(init, prefix, diff, clock);
      StepEffect(before, ts[|ts| - 1], diff, clock);
      var after := Fold(init, ts, diff, clock);
      assert after.actions[..|init.actions|] == after.actions[..|before.actions|][..|init.actions|];
    }
  }

  /** Each `edit_code` action of `actions` is immediately followed by an `execute_code` action. */
  ghost predicate EditsFollowedByExecute(actions: seq<Action>)
  {
    forall i :: 0 <= i < |actions| && actions[i].EditCode? ==> i + 1 < |actions| && actions[i + 1].ExecuteCode?
  }

  /** Every `edit_code` action the fold appends is immediately followed by the `execute_code` action of the same trace. */
  lemma {:induction false} EditFollowedByExecute(init: State, ts: seq<Trace>, diff: (string, string) -> string, clock: nat -> int)
    requires EditsFollowedByExecute(init.actions)
    ensures EditsFollowedByExecute(Fold(init, ts, diff, clock).actions)
    decreases |ts|
  {
    if ts != [] {
      var prefix := ts[..|ts| - 1];
      EditFollowedByExecute(init, prefix, diff, clock);
      var before := Fold(init, prefix, diff, clock);
      var after := Step(before, ts[|ts| - 1], diff, clock);
      StepEffect(before, ts[|ts| - 1], diff, clock);
      forall i | 0 <= i < |after.actions| && after.actions[i].EditCode?
        ensures i + 1 < |after.actions| && after.actions[i + 1].ExecuteCode?
      {
        if i < |before.actions| {
          assert after.actions[i] == after.actions[..|before.actions|][i] == before.actions[i];
          if i + 1 < |before.actions| {
            assert after.actions[i + 1] == after.actions[..|before.actions|][i + 1] == before.actions[i + 1];
          }
        }
      }
    }
  }

  /**
   * Action timestamps are fresh clock readings taken while compiling: the k-th action carries the k-th
   * reading, whatever the traces' own `timestamp` fields say.
   */
  lemma {:induction false} ActionTimestamps(init: State, ts: seq<Trace>, diff: (string, string) -> string, clock: nat -> int)
    requires forall k :: 0 <= k < |init.actions| ==> init.actions[k].timestamp == clock(k)
    ensures var acts := Fold(init, ts, diff, clock).actions;
      forall k :: 0 <= k < |acts| ==> acts[k].timestamp == clock(k)
    decreases |ts|
  {
    if ts != [] {
      var prefix := ts[..|ts| - 1];
      ActionTimestamps(init, prefix, diff, clock);
      var before := Fold(init, prefix, diff, clock);
      var t := ts[|ts| - 1];
      var after := Step(before, t, diff, clock);
      assert Fold(init, ts, diff, clock) == after;
      forall k | 0 <= k < |after.actions| ensures after.actions[k].timestamp == clock(k) {
        if k < |before.actions| {
          assert after.actions[k] == after.actions[..|before.actions|][k] == before.actions[k];
        } else {
          NewActionTimestamp(before, t, diff, clock, k);
        }
      }
    }
  }

  /** An action appended by one step carries the clock reading of its own index. */
  lemma NewActionTimestamp(st: State, t: Trace, diff: (string, string) -> string, clock: nat -> int, k: nat)
    requires |st.actions| <= k < |Step(st, t, diff, clock).actions|
    ensures Step(st, t, diff, clock).actions[k].timestamp == clock(k)
  {
  }

  /** The snapshot threaded through the fold ends as the `modified_repository` of the last trace not skipped. */
  lemma {:induction false} FoldCurrent(init: State, ts: seq<Trace>, diff: (string, string) -> string, clock: nat -> int)
    ensures Fold(init, ts, diff, clock).current == LastModified(ts, init.current)
    decreases |ts|
  {
    if ts != [] {
      FoldCurrent(init, ts[..|ts| - 1], diff, clock);
    }
  }

  // ---------------------------------------------------------------- the report

  /**
   * A successful compilation: `issue` and `initial_code` come from the first trace (`repository`, else
   * `initial_repository`); `pull_request` is the `modified_repository` of the last later trace not
   * skipped, or `initial_code`; the later traces yield between n and 2n actions, n of them `execute_code`,
   * each `edit_code` directly followed by an `execute_code`, the k-th stamped with the k-th clock reading.
   */
  lemma CompiledReport(ts: seq<Trace>, diff: (string, string) -> string, clock: nat -> int)
    requires ts != [] && InitialState(ts[0]).Ok?
    ensures Compile(ts, diff, clock).Ok?
    ensures var report := Compile(ts, diff, clock).value;
      var n := Processed(ts[1..]);
      && report.issue == ts[0].issue.value
      && report.initialCode == (if ts[0].repository.Some? then ts[0].repository.value else ts[0].initialRepository.value)
      && report.pullRequest == LastModified(ts[1..], report.initialCode)
      && n <= |report.actions| <= 2 * n
      && ExecuteCount(report.actions) == n
      && EditsFollowedByExecute(report.actions)
      && (forall k :: 0 <= k < |report.actions| ==> report.actions[k].timestamp == clock(k))
  {
    var init := State(InitialState(ts[0]).value.1, []);
    FoldActionCounts(init, ts[1..], diff, clock);
    EditFollowedByExecute(init, ts[1..], diff, clock);
    ActionTimestamps(init, ts[1..], diff, clock);
    FoldCurrent(init, ts[1..], diff, clock);
  }

  /** Compilation fails exactly when there is no trace or the first one lacks `issue` or both repository keys. */
  lemma CompileFailure(ts: seq<Trace>, diff: (string, string) -> string, clock: nat -> int)
    ensures Compile(ts, diff, clock).Err? <==>
      ts == [] || ts[0].issue.None? || (ts[0].repository.None? && ts[0].initialRepository.None?)
    ensures ts == [] ==> Compile(ts, diff, clock) == Err(NoTracesFound)
  {
  }

  /** The directory holds no `trace_*.json` file exactly when compiling it fails with "No traces found". */
  lemma NoTraceFiles(files: map<string, Document>, diff: (string, string) -> string, clock: nat -> int)
    ensures (forall n :: n in files ==> !MatchesTraceGlob(n)) <==> OrderedTraces(files) == []
    ensures OrderedTraces(files) == [] <==> Compile(OrderedTraces(files), diff, clock) == Err(NoTracesFound)
  {
    var ts := OrderedTraces(files);
    if ts != [] {
      assert TraceFiles(files)[0] in TraceFiles(files);
      match InitialState(ts[0])
      case Ok(_) =>
      case Err(e) => assert e.MissingKey?;
    }
  }

  // ---------------------------------------------------------------- order of the traces

  /** The initial trace is the one whose file name is smallest; the others follow in ascending name order. */
  lemma FirstTraceHasSmallestName(files: map<string, Document>)
    requires TraceFiles(files) != []
    ensures var names := TraceFiles(files);
      forall n :: n in files && MatchesTraceGlob(n) ==> n == names[0] || Less(names[0], n)
  {
    var names := TraceFiles(files);
    forall n | n in files && MatchesTraceGlob(n) ensures n == names[0] || Less(names[0], n) {
      var j :| 0 <= j < |names| && names[j] == n;
    }
  }

  /** Any ascending enumeration of the trace files, however the directory listed them, is the one compiled. */
  lemma ListingOrderIrrelevant(files: map<string, Document>, names: seq<string>)
    requires StrictlySorted(names)
    requires forall n :: n in names <==> n in files && MatchesTraceGlob(n)
    ensures names == TraceFiles(files)
  {
    SortedListUnique(names, set n | n in files && MatchesTraceGlob(n));
  }

  // ---------------------------------------------------------------- saving and cleaning up

  /**
   * After `save_trace` at `stamp` the directory lists the new trace under `trace_<stamp>.json`; the listing
   * grows by one name unless a trace of the same second was already there and has been overwritten.
   */
  lemma SavedTraceIsListed(files: map<string, Document>, stamp: string, t: Trace)
    ensures var saved := files[TraceFileName(stamp) := TraceDoc(t)];
      && TraceFileName(stamp) in TraceFiles(saved)
      && |TraceFiles(saved)| == |TraceFiles(files)| + (if TraceFileName(stamp) in files then 0 else 1)
  {
    var n := TraceFileName(stamp);
    var saved := files[n := TraceDoc(t)];
    var before := set m | m in files && MatchesTraceGlob(m);
    var after := set m | m in saved && MatchesTraceGlob(m);
    assert after == before + {n};
    if n !in files {
      assert n !in before;
    } else {
      assert after == before;
    }
  }

  /**
   * The directory after a successful compilation: the report is stored under its own name and the only
   * trace files left are those whose removal failed; with no failure the session has no trace left.
   */
  lemma CleanupOutcome(files: map<string, Document>, report: Report, reportStamp: string, failing: set<string>)
    ensures var after := files[ReportFileName(reportStamp) := ReportDoc(report)] - Removed(TraceFiles(files), failing);
      && ReportFileName(reportStamp) in after && after[ReportFileName(reportStamp)] == ReportDoc(report)
      && (forall n :: n in after && MatchesTraceGlob(n) <==> n in files && MatchesTraceGlob(n) && n in failing)
      && (failing == {} ==> OrderedTraces(after) == [])
  {
  }

  // ---------------------------------------------------------------- the execution result

  /** A missing `execution_result` counts as "" and maps to success; "Error" in any case maps to error. */
  lemma ClassifyExamples()
    ensures Classify("") == Success
    ensures Classify("Runtime ERROR: division by zero") == Error
  {
    assert OccursAtIgnoringCase("Runtime ERROR: division by zero", "error", 8);
  }

  // ---------------------------------------------------------------- a session end to end

  /**
   * An initial trace for issue "I1" with `a.txt` = "hello", then one delta trace changing it to
   * "hello world" with result "ok": the report records one edit and one successful execution.
   */
  lemma OneEditSession(diff: (string, string) -> string, clock: nat -> int)
    ensures
      var before := [FileEntry("a.txt", "hello")];
      var after := [FileEntry("a.txt", "hello world")];
      var initial := Trace(Some("I1"), Some(before), None, None, None, None, None);
      var delta := Trace(Some("I1"), None, Some(before), Some(after), Some("a.txt"), Some("ok"), None);
      Compile([initial, delta], diff, clock) ==
        Ok(Report("I1", before, after, [EditCode(diff("hello", "hello world"), clock(0)), ExecuteCode(Success, clock(1))]))
  {
    var before := [FileEntry("a.txt", "hello")];
    var after := [FileEntry("a.txt", "hello world")];
    var initial := Trace(Some("I1"), Some(before), None, None, None, None, None);
    var delta := Trace(Some("I1"), None, Some(before), Some(after), Some("a.txt"), Some("ok"), None);
    assert [initial, delta][1..] == [delta];
    assert [delta][..0] == [];
    assert FirstContent(before, "a.txt", "") == "hello";
    assert FirstContent(after, "a.txt", "hello") == "hello world";
    assert Classify("ok") == Success;
    assert !Skipped(delta);
    var st := Step(State(before, []), delta, diff, clock);
    assert st == State(after, [EditCode(diff("hello", "hello world"), clock(0)), ExecuteCode(Success, clock(1))]);
    assert Fold(State(before, []), [delta], diff, clock) == st;
    assert InitialState(initial) == Ok(("I1", before));
  }
}
