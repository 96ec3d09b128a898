/** Job and task statuses: Kuscia's states, the stored names and the normalisation of older names (internal/graphjob/status.go). */
module Statuses {

  /** `Unset` is the empty string, which normalisation leaves as it is. */
  datatype JobStatus = JobRunning | JobStopped | JobSucceed | JobFailed | JobUnset

  datatype TaskStatus = TaskStaging | TaskInitialized | TaskRunning | TaskStopped | TaskSucceed | TaskFailed | TaskUnset

  function JobStatusFromKuscia(state: string): JobStatus {
    if state == "Succeeded" then JobSucceed
    else if state == "Failed" then JobFailed
    else if state == "Stopped" || state == "Cancelled" then JobStopped
    else JobRunning
  }

  function TaskStatusFromKuscia(state: string): TaskStatus {
    if state == "Succeeded" then TaskSucceed
    else if state == "Failed" then TaskFailed
    else if state == "Running" then TaskRunning
    else if state == "Stopped" || state == "Cancelled" then TaskStopped
    else TaskInitialized
  }

  predicate IsKusciaFinishedState(state: string) {
    state == "Failed" || state == "Succeeded"
  }

  // ---------- stored names ----------

  predicate IsSpace(c: char) {
    c == ' ' || '\t' <= c <= '\r'
  }

  function TrimLeft(s: string): string {
    if s != [] && IsSpace(s[0]) then TrimLeft(s[1..]) else s
  }

  function TrimRight(s: string): string {
    if s != [] && IsSpace(s[|s| - 1]) then TrimRight(s[..|s| - 1]) else s
  }

  function UpperChar(c: char): char {
    if 'a' <= c <= 'z' then c - 32 as char else c
  }

  function Upper(s: string): (u: string)
    ensures |u| == |s|
  {
    seq(|s|, i requires 0 <= i < |s| => UpperChar(s[i]))
  }

  function Canonical(s: string): string {
    Upper(TrimRight(TrimLeft(s)))
  }

  function NormalizeJobStatus(s: string): JobStatus {
    var c := Canonical(s);
    if c == "SUCCEEDED" || c == "SUCCEED" || c == "SUCCESS" then JobSucceed
    else if c == "FAILED" then JobFailed
    else if c == "STOPPED" || c == "CANCELLED" then JobStopped
    else if c == "" then JobUnset
    else JobRunning
  }

  function NormalizeTaskStatus(s: string): TaskStatus {
    var c := Canonical(s);
    if c == "SUCCEEDED" || c == "SUCCEED" || c == "SUCCESS" then TaskSucceed
    else if c == "FAILED" then TaskFailed
    else if c == "STOPPED" || c == "CANCELLED" then TaskStopped
    else if c == "RUNNING" then TaskRunning
    else if c == "PENDING" || c == "INITIALIZED" then TaskInitialized
    else if c == "IDLE" || c == "STAGING" then TaskStaging
    else if c == "" then TaskUnset
    else TaskInitialized
  }

  predicate IsJobFinished(status: string) {
    var st := NormalizeJobStatus(status);
    st == JobSucceed || st == JobFailed || st == JobStopped
  }

  function JobName(st: JobStatus): string {
    match st
    case JobRunning => "RUNNING"
    case JobStopped => "STOPPED"
    case JobSucceed => "SUCCEED"
    case JobFailed => "FAILED"
    case JobUnset => ""
  }

  function TaskName(st: TaskStatus): string {
    match st
    case TaskStaging => "STAGING"
    case TaskInitialized => "INITIALIZED"
    case TaskRunning => "RUNNING"
    case TaskStopped => "STOPPED"
    case TaskSucceed => "SUCCEED"
    case TaskFailed => "FAILED"
    case TaskUnset => ""
  }

  lemma CapitalsAreCanonical(s: string)
    requires forall i :: 0 <= i < |s| ==> 'A' <= s[i] <= 'Z'
    ensures Canonical(s) == s
  {
    assert Upper(s) == s;
  }

  lemma JobNameIsCanonical(st: JobStatus)
    ensures Canonical(JobName(st)) == JobName(st)
  {
    CapitalsAreCanonical(JobName(st));
  }

  lemma TaskNameIsCanonical(st: TaskStatus)
    ensures Canonical(TaskName(st)) == TaskName(st)
  {
    CapitalsAreCanonical(TaskName(st));
  }

  /** A status that was written is read back as it was. */
  lemma JobNameRoundTrip(st: JobStatus)
    ensures NormalizeJobStatus(JobName(st)) == st
  {
    hide Canonical;
    JobNameIsCanonical(st);
  }

  lemma TaskNameRoundTrip(st: TaskStatus)
    ensures NormalizeTaskStatus(TaskName(st)) == st
  {
    hide Canonical;
    TaskNameIsCanonical(st);
  }
}
