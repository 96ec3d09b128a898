/** The log lines of a task's status transitions (internal/graphjob/log.go). */
module TaskLogs {
  import opened FirstOccurrences
  import opened Statuses

  /** `time` is the formatted timestamp. */
  function MakeLog(time: string, content: string): string {
    time + " INFO " + content
  }

  function TaskLog(time: string, jobId: string, taskId: string, what: string): string {
    MakeLog(time, "the jobId=" + jobId + ", taskId=" + taskId + what)
  }

  function StartLog(time: string, jobId: string, taskId: string): string { TaskLog(time, jobId, taskId, " start ...") }

  function SucceedLog(time: string, jobId: string, taskId: string): string { TaskLog(time, jobId, taskId, " succeed") }

  function StoppedLog(time: string, jobId: string, taskId: string): string { TaskLog(time, jobId, taskId, " stopped") }

  function FailedLogs(time: string, jobId: string, taskId: string, reasons: seq<string>): (lines: seq<string>)
    ensures |lines| == |reasons|
  {
    seq(|reasons|, i requires 0 <= i < |reasons| => TaskLog(time, jobId, taskId, " failed: " + reasons[i]))
  }

  function Line(l: string): string { l }

  /** The first occurrence of each line, in order (FirstOccurrences.FreshPositions). */
  function Deduped(lines: seq<string>): seq<string> {
    Fresh(Line, {}, lines)
  }

  method Dedupe(lines: seq<string>) returns (out: seq<string>)
    ensures out == Deduped(lines)
  {
    hide Fresh;
    var seen: set<string> := {};
    out := [];
    assert Fresh(Line, {}, []) == [] && Keys(Line, []) == {} by { NoLines(); }
    for i := 0 to |lines|
      invariant out == Fresh(Line, {}, lines[..i])
      invariant seen == Keys(Line, lines[..i])
    {
      assert lines[..i + 1] == lines[..i] + [lines[i]];
      FreshAppend(Line, {}, lines[..i], lines[i]);
      assert {} + Keys(Line, lines[..i]) == seen;
      if lines[i] in seen {
        continue;
      }
      seen := seen + {lines[i]};
      out := out + [lines[i]];
    }
    assert lines[..|lines|] == lines;
  }

  lemma NoLines()
    ensures Fresh(Line, {}, []) == [] && Keys(Line, []) == {}
  {
  }

  // ---------- transitions ----------

  predicate NotYetRunning(st: TaskStatus) {
    st == TaskStaging || st == TaskInitialized || st == TaskUnset
  }

  function FromStart(time: string, jobId: string, taskId: string, to: TaskStatus, reasons: seq<string>): seq<string> {
    match to
    case TaskRunning => [StartLog(time, jobId, taskId)]
    case TaskSucceed => [StartLog(time, jobId, taskId), SucceedLog(time, jobId, taskId)]
    case TaskStopped => [StoppedLog(time, jobId, taskId)]
    case TaskFailed => [StartLog(time, jobId, taskId)] + FailedLogs(time, jobId, taskId, reasons)
    case _ => []
  }

  function FromRunning(time: string, jobId: string, taskId: string, to: TaskStatus, reasons: seq<string>): seq<string> {
    match to
    case TaskStopped => [StoppedLog(time, jobId, taskId)]
    case TaskSucceed => [SucceedLog(time, jobId, taskId)]
    case TaskFailed => FailedLogs(time, jobId, taskId, reasons)
    case _ => []
  }

  /** The branch of a task that was not yet running falls through into the branch of a running one. */
  function TransitionLogs(time: string, jobId: string, taskId: string, from: TaskStatus, to: TaskStatus,
                          reasons: seq<string>): seq<string> {
    if from == to then []
    else if NotYetRunning(from) then
      Deduped(FromStart(time, jobId, taskId, to, reasons) + FromRunning(time, jobId, taskId, to, reasons))
    else if from == TaskRunning then Deduped(FromRunning(time, jobId, taskId, to, reasons))
    else Deduped([])
  }

  lemma DedupedTwice(a: seq<string>, b: seq<string>)
    requires forall l :: l in b ==> l in a
    ensures Deduped(a + b) == Deduped(a)
  {
    hide Fresh;
    FreshConcat(Line, {}, a, b);
    assert {} + Keys(Line, a) == Keys(Line, a);
    forall k | k in Keys(Line, b) ensures k in Keys(Line, a) {
      var i :| 0 <= i < |b| && Line(b[i]) == k;
      assert b[i] in a;
      var j :| 0 <= j < |a| && a[j] == b[i];
      assert Line(a[j]) == k;
    }
    FreshOfSeen(Line, Keys(Line, a), b);
  }

  /** The fall-through adds nothing: a transition logs what its own branch says, each line once. */
  lemma FallThroughAddsNothing(time: string, jobId: string, taskId: string, from: TaskStatus, to: TaskStatus,
                               reasons: seq<string>)
    requires from in {TaskStaging, TaskInitialized, TaskUnset} && from != to
    ensures TransitionLogs(time, jobId, taskId, from, to, reasons) == Deduped(FromStart(time, jobId, taskId, to, reasons))
  {
    hide Deduped, TaskLog;
    DedupedTwice(FromStart(time, jobId, taskId, to, reasons), FromRunning(time, jobId, taskId, to, reasons));
  }

  /** Staying where it is, or leaving a final status, a task logs nothing. */
  lemma SilentTransitions(time: string, jobId: string, taskId: string, from: TaskStatus, to: TaskStatus,
                          reasons: seq<string>)
    requires from == to || from == TaskSucceed || from == TaskFailed || from == TaskStopped || to in {TaskStaging, TaskInitialized, TaskUnset}
    ensures TransitionLogs(time, jobId, taskId, from, to, reasons) == []
  {
  }

  lemma StartIsNotSuccess(time: string, jobId: string, taskId: string)
    ensures StartLog(time, jobId, taskId) != SucceedLog(time, jobId, taskId)
  {
    var a, b := StartLog(time, jobId, taskId), SucceedLog(time, jobId, taskId);
    assert a[|a| - 1] == '.' && b[|b| - 1] == 'd';
  }

  lemma {:induction false} DistinctAreKept(lines: seq<string>)
    requires forall i, j :: 0 <= i < j < |lines| ==> lines[i] != lines[j]
    ensures Deduped(lines) == lines
  {
    hide Fresh;
    if lines == [] {
      NoLines();
    } else {
      var n := |lines| - 1;
      DistinctAreKept(lines[..n]);
      FreshAppend(Line, {}, lines[..n], lines[n]);
      assert lines == lines[..n] + [lines[n]];
      assert lines[n] !in Keys(Line, lines[..n]);
    }
  }

  /** A task that succeeds logs its start exactly when it was not seen running, then its success. */
  lemma SuccessLogs(time: string, jobId: string, taskId: string, from: TaskStatus, reasons: seq<string>)
    requires from in {TaskStaging, TaskInitialized, TaskUnset, TaskRunning}
    ensures TransitionLogs(time, jobId, taskId, from, TaskSucceed, reasons)
         == (if from == TaskRunning then [] else [StartLog(time, jobId, taskId)]) + [SucceedLog(time, jobId, taskId)]
    ensures TransitionLogs(time, jobId, taskId, from, TaskStopped, reasons) == [StoppedLog(time, jobId, taskId)]
  {
    hide Deduped, TaskLog;
    StartIsNotSuccess(time, jobId, taskId);
    var start, succeed, stopped := StartLog(time, jobId, taskId), SucceedLog(time, jobId, taskId), StoppedLog(time, jobId, taskId);
    DistinctAreKept([start, succeed]);
    DistinctAreKept([succeed]);
    DistinctAreKept([stopped]);
    if from != TaskRunning {
      FallThroughAddsNothing(time, jobId, taskId, from, TaskSucceed, reasons);
      FallThroughAddsNothing(time, jobId, taskId, from, TaskStopped, reasons);
    }
  }

  /** The lines as they are stored. */
  lemma LogTexts(time: string, jobId: string, taskId: string, reasons: seq<string>, i: nat)
    requires i < |reasons|
    ensures StartLog(time, jobId, taskId) == time + " INFO the jobId=" + jobId + ", taskId=" + taskId + " start ..."
    ensures SucceedLog(time, jobId, taskId) == time + " INFO the jobId=" + jobId + ", taskId=" + taskId + " succeed"
    ensures StoppedLog(time, jobId, taskId) == time + " INFO the jobId=" + jobId + ", taskId=" + taskId + " stopped"
    ensures FailedLogs(time, jobId, taskId, reasons)[i] == time + " INFO the jobId=" + jobId + ", taskId=" + taskId + " failed: " + reasons[i]
  {
    var front, end := time + " INFO " + ("the jobId=" + jobId + ", taskId=" + taskId), time + " INFO the jobId=" + jobId + ", taskId=" + taskId;
    assert front == end;
    SameText(time, jobId, taskId, " start ...");
    SameText(time, jobId, taskId, " succeed");
    SameText(time, jobId, taskId, " stopped");
    SameText(time, jobId, taskId, " failed: " + reasons[i]);
  }

  lemma SameText(time: string, jobId: string, taskId: string, what: string)
    ensures TaskLog(time, jobId, taskId, what) == time + " INFO the jobId=" + jobId + ", taskId=" + taskId + what
  {
    assert TaskLog(time, jobId, taskId, what) == time + " INFO " + ("the jobId=" + jobId + ", taskId=" + taskId + what);
  }

  lemma StartIsNotFailure(time: string, jobId: string, taskId: string, reason: string)
    ensures StartLog(time, jobId, taskId) != TaskLog(time, jobId, taskId, " failed: " + reason)
  {
    var front := time + " INFO the jobId=" + jobId + ", taskId=" + taskId;
    SameText(time, jobId, taskId, " start ...");
    SameText(time, jobId, taskId, " failed: " + reason);
    assert (front + " start ...")[|front| + 1] == 's' && (front + (" failed: " + reason))[|front| + 1] == 'f';
    assert front + (" failed: " + reason) == front + " failed: " + reason;
  }

  /** A task that fails logs its start exactly when it was not seen running, then each reason once; one that starts logs its start. */
  lemma FailureLogs(time: string, jobId: string, taskId: string, from: TaskStatus, reasons: seq<string>)
    requires from in {TaskStaging, TaskInitialized, TaskUnset, TaskRunning}
    ensures TransitionLogs(time, jobId, taskId, from, TaskFailed, reasons)
         == (if from == TaskRunning then [] else [StartLog(time, jobId, taskId)]) + Deduped(FailedLogs(time, jobId, taskId, reasons))
    ensures TransitionLogs(time, jobId, taskId, from, TaskRunning, reasons)
         == if from == TaskRunning then [] else [StartLog(time, jobId, taskId)]
  {
    hide Deduped, TaskLog;
    var start, failed := StartLog(time, jobId, taskId), FailedLogs(time, jobId, taskId, reasons);
    DistinctAreKept([start]);
    if from != TaskRunning {
      FallThroughAddsNothing(time, jobId, taskId, from, TaskFailed, reasons);
      FallThroughAddsNothing(time, jobId, taskId, from, TaskRunning, reasons);
      forall i | 0 <= i < |failed| ensures failed[i] != start {
        StartIsNotFailure(time, jobId, taskId, reasons[i]);
      }
      FirstIsKept(start, failed);
    }
  }

  lemma FirstIsKept(first: string, lines: seq<string>)
    requires first !in lines
    ensures Deduped([first] + lines) == [first] + Deduped(lines)
  {
    hide Fresh;
    DistinctAreKept([first]);
    FreshConcat(Line, {}, [first], lines);
    assert {} + Keys(Line, [first]) == {first} by { assert Line([first][0]) == first; }
    FreshUnseen(lines, {first});
  }

  lemma {:induction false} FreshUnseen(lines: seq<string>, seen: set<string>)
    requires forall x :: x in seen ==> x !in lines
    ensures Fresh(Line, seen, lines) == Fresh(Line, {}, lines)
  {
    hide Fresh;
    if lines == [] {
      assert Fresh(Line, seen, []) == [] == Fresh(Line, {}, []) by { NothingFresh(seen); }
    } else {
      var n := |lines| - 1;
      assert lines == lines[..n] + [lines[n]];
      FreshUnseen(lines[..n], seen);
      assert lines[n] !in seen;
      FreshAppend(Line, seen, lines[..n], lines[n]);
      FreshAppend(Line, {}, lines[..n], lines[n]);
    }
  }

  lemma NothingFresh(seen: set<string>)
    ensures Fresh(Line, seen, []) == [] && Fresh(Line, {}, []) == []
  {
  }
}
