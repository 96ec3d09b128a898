/** What one report, deletion or stop makes of a job, in Kuscia's state names and the names that are stored. */
module JobReports {
  import opened Options
  import opened Statuses
  import opened TaskLogs
  import opened Fold
  import opened JobSync

  // ---------- names ----------

  lemma StateOfName(state: string)
    ensures state == "Succeeded" ==> JobName(JobStatusFromKuscia(state)) == "SUCCEED" && TaskName(TaskStatusFromKuscia(state)) == "SUCCEED"
    ensures state == "Failed" ==> JobName(JobStatusFromKuscia(state)) == "FAILED" && TaskName(TaskStatusFromKuscia(state)) == "FAILED"
    ensures state == "Stopped" || state == "Cancelled"
        ==> JobName(JobStatusFromKuscia(state)) == "STOPPED" && TaskName(TaskStatusFromKuscia(state)) == "STOPPED"
    ensures state == "Running" ==> JobName(JobStatusFromKuscia(state)) == "RUNNING" && TaskName(TaskStatusFromKuscia(state)) == "RUNNING"
    ensures state !in {"Succeeded", "Failed", "Stopped", "Cancelled", "Running"}
        ==> JobName(JobStatusFromKuscia(state)) == "RUNNING" && TaskName(TaskStatusFromKuscia(state)) == "INITIALIZED"
  {
    assert "Succeeded"[1] == 'u' && "Failed"[1] == 'a' && "Stopped"[1] == 't' && "Cancelled"[0] == 'C' && "Running"[0] == 'R';
  }

  lemma FewNames()
    ensures JobName(JobSucceed) == "SUCCEED" && JobName(JobFailed) == "FAILED" && JobName(JobStopped) == "STOPPED"
    ensures JobName(JobRunning) == "RUNNING" && TaskName(TaskStopped) == "STOPPED"
  {
  }

  /** The names that a job's row may hold, those of older versions included. */
  lemma StoredJobNames()
    ensures IsJobFinished("SUCCEED") && IsJobFinished("SUCCEEDED") && IsJobFinished("SUCCESS")
    ensures IsJobFinished("FAILED") && IsJobFinished("STOPPED") && IsJobFinished("CANCELLED")
    ensures !IsJobFinished("RUNNING") && !IsJobFinished("PENDING") && !IsJobFinished("")
    ensures NormalizeJobStatus("FAILED") == JobFailed
    ensures NormalizeJobStatus("STOPPED") == NormalizeJobStatus("CANCELLED") == JobStopped
    ensures NormalizeJobStatus("SUCCEED") == NormalizeJobStatus("SUCCEEDED") == NormalizeJobStatus("SUCCESS") == JobSucceed
  {
    CapitalsAreCanonical("SUCCEED");
    CapitalsAreCanonical("SUCCEEDED");
    CapitalsAreCanonical("SUCCESS");
    CapitalsAreCanonical("FAILED");
    CapitalsAreCanonical("STOPPED");
    CapitalsAreCanonical("CANCELLED");
    CapitalsAreCanonical("RUNNING");
    CapitalsAreCanonical("PENDING");
    CapitalsAreCanonical("");
    hide Canonical;
    assert "RUNNING"[0] == 'R' && "PENDING"[0] == 'P' && "FAILED"[0] == 'F' && "CANCELLED"[0] == 'C';
    assert "SUCCEED"[1] == 'U' && "STOPPED"[1] == 'T';
  }

  lemma EndedTaskNames()
    ensures NormalizeTaskStatus("SUCCEED") == NormalizeTaskStatus("SUCCEEDED") == NormalizeTaskStatus("SUCCESS") == TaskSucceed
    ensures NormalizeTaskStatus("FAILED") == TaskFailed
    ensures NormalizeTaskStatus("STOPPED") == NormalizeTaskStatus("CANCELLED") == TaskStopped
  {
    CapitalsAreCanonical("SUCCEED");
    CapitalsAreCanonical("SUCCEEDED");
    CapitalsAreCanonical("SUCCESS");
    CapitalsAreCanonical("FAILED");
    CapitalsAreCanonical("STOPPED");
    CapitalsAreCanonical("CANCELLED");
    hide Canonical;
    assert "FAILED"[0] == 'F' && "CANCELLED"[0] == 'C' && "SUCCEED"[1] == 'U' && "STOPPED"[1] == 'T';
  }

  lemma OpenTaskNames()
    ensures NormalizeTaskStatus("RUNNING") == TaskRunning && NormalizeTaskStatus("") == TaskUnset
    ensures NormalizeTaskStatus("INITIALIZED") == NormalizeTaskStatus("PENDING") == TaskInitialized
  {
    CapitalsAreCanonical("RUNNING");
    CapitalsAreCanonical("INITIALIZED");
    CapitalsAreCanonical("PENDING");
    CapitalsAreCanonical("");
    hide Canonical;
    assert "RUNNING"[0] == 'R' && "PENDING"[0] == 'P' && "INITIALIZED"[0] == 'I';
  }

  lemma StagingTaskNames()
    ensures NormalizeTaskStatus("STAGING") == NormalizeTaskStatus("IDLE") == TaskStaging
  {
    CapitalsAreCanonical("STAGING");
    CapitalsAreCanonical("IDLE");
    hide Canonical;
    assert "STAGING"[1] == 'T' && "STAGING"[2] == 'A' && "IDLE"[1] == 'D';
    assert "STOPPED"[2] == 'O' && "INITIALIZED"[1] == 'N' && "SUCCEED"[1] == 'U';
  }

  /** The names that a task's row may hold. */
  lemma StoredTaskNames()
    ensures NormalizeTaskStatus("SUCCEED") == NormalizeTaskStatus("SUCCEEDED") == NormalizeTaskStatus("SUCCESS") == TaskSucceed
    ensures NormalizeTaskStatus("FAILED") == TaskFailed && NormalizeTaskStatus("RUNNING") == TaskRunning
    ensures NormalizeTaskStatus("STOPPED") == NormalizeTaskStatus("CANCELLED") == TaskStopped
    ensures NormalizeTaskStatus("INITIALIZED") == NormalizeTaskStatus("PENDING") == TaskInitialized
    ensures NormalizeTaskStatus("STAGING") == NormalizeTaskStatus("IDLE") == TaskStaging
    ensures NormalizeTaskStatus("") == TaskUnset
  {
    hide NormalizeTaskStatus;
    EndedTaskNames();
    OpenTaskNames();
    StagingTaskNames();
  }

  /** ASCII white space. */
  predicate IsBlank(c: char) {
    c in {' ', '\t', '\n', '\U{0B}', '\U{0C}', '\r'}
  }

  predicate AllSpace(s: string) {
    forall i :: 0 <= i < |s| ==> IsBlank(s[i])
  }

  lemma BlankIsSpace(c: char)
    ensures IsBlank(c) <==> IsSpace(c)
  {
    var n := c as int;
    assert 9 <= n <= 13 ==> n == 9 || n == 10 || n == 11 || n == 12 || n == 13;
    assert '\t' as int == 9 && '\n' as int == 10 && '\U{0B}' as int == 11 && '\U{0C}' as int == 12 && '\r' as int == 13;
  }

  lemma {:induction false} TrimmedLeft(pre: string, core: string)
    requires AllSpace(pre) && (core == "" || !IsSpace(core[0]))
    ensures TrimLeft(pre + core) == core
  {
    if pre == "" {
      assert pre + core == core;
    } else {
      BlankIsSpace(pre[0]);
      assert (pre + core)[1..] == pre[1..] + core;
      TrimmedLeft(pre[1..], core);
    }
  }

  lemma {:induction false} TrimmedRight(core: string, post: string)
    requires AllSpace(post) && (core == "" || !IsSpace(core[|core| - 1]))
    ensures TrimRight(core + post) == core
  {
    if post == "" {
      assert core + post == core;
    } else {
      BlankIsSpace(post[|post| - 1]);
      assert (core + post)[..|core + post| - 1] == core + post[..|post| - 1];
      TrimmedRight(core, post[..|post| - 1]);
    }
  }

  /** Space around a stored name does not matter, nor the case of its letters. */
  lemma CanonicalMeaning(pre: string, core: string, post: string)
    requires AllSpace(pre) && AllSpace(post) && core != "" && !IsBlank(core[0]) && !IsBlank(core[|core| - 1])
    ensures var c := Canonical(pre + core + post);
            && |c| == |core|
            && forall i :: 0 <= i < |core| ==> c[i] == if 'a' <= core[i] <= 'z' then core[i] - 'a' + 'A' else core[i]
  {
    hide TrimLeft, TrimRight;
    BlankIsSpace(core[0]);
    BlankIsSpace(core[|core| - 1]);
    assert pre + core + post == pre + (core + post);
    TrimmedLeft(pre, core + post);
    TrimmedRight(core, post);
  }

  // ---------- reports ----------

  /** The report settles the job: it is finished only when it has an end time. */
  predicate Settles(d: Detail) {
    !((d.state == "Succeeded" || d.state == "Failed") && d.endTime == "")
  }

  /** The first row of this job. */
  predicate IsJobRow(jobs: seq<JobRow>, jobId: string, k: nat) {
    k < |jobs| && jobs[k].jobId == jobId && forall i :: 0 <= i < k ==> jobs[i].jobId != jobId
  }

  lemma {:induction false} FoundRow(jobs: seq<JobRow>, jobId: string, k: nat, i: nat)
    requires IsJobRow(jobs, jobId, k) && i <= k
    ensures FindJobFrom(jobs, jobId, i) == Some(k)
    decreases k - i
  {
    if i < k {
      FoundRow(jobs, jobId, k, i + 1);
    }
  }

  /** What a report makes of its job's row. */
  lemma ReportedJob(db: Tables, jobId: string, d: Detail, now: string, k: nat)
    requires IsJobRow(db.jobs, jobId, k) && !IsJobFinished(db.jobs[k].status)
    ensures var out := Synced(db, jobId, Some(d), now);
            && |out.jobs| == |db.jobs| && (forall i :: 0 <= i < |db.jobs| && i != k ==> out.jobs[i] == db.jobs[i])
            && var j, j' := db.jobs[k], out.jobs[k];
               && j' == j.(status := j'.status, errMsg := j'.errMsg, finishedTime := j'.finishedTime)
               && j'.finishedTime == (if d.finished.Some? then d.finished else j.finishedTime)
               && (!Settles(d) ==> j'.status == j.status && j'.errMsg == j.errMsg)
               && (Settles(d) ==> j'.errMsg == d.errMsg)
               && (Settles(d) && d.state == "Succeeded" ==> j'.status == "SUCCEED")
               && (Settles(d) && d.state == "Failed" ==> j'.status == "FAILED")
               && (d.state == "Stopped" || d.state == "Cancelled" ==> j'.status == "STOPPED")
               && (d.state !in {"Succeeded", "Failed", "Stopped", "Cancelled"} ==> j'.status == "RUNNING")
  {
    hide JobName, JobStatusFromKuscia, IsJobFinished, TasksAfter, Merge, Halts;
    FoundRow(db.jobs, jobId, k, 0);
    StateOfName(d.state);
    assert "Stopped" != "Succeeded" && "Stopped" != "Failed" by { assert "Stopped"[1] == 't'; }
    assert "Cancelled" != "Succeeded" && "Cancelled" != "Failed" by { assert "Cancelled"[0] == 'C'; }
  }

  /** The report ends the job without success. */
  predicate EndsBadly(d: Detail) {
    (d.state == "Failed" && d.endTime != "") || d.state == "Stopped" || d.state == "Cancelled"
  }

  lemma HaltsMeaning(d: Detail)
    ensures Halts(d) <==> EndsBadly(d)
  {
    assert "Succeeded"[1] == 'u' && "Failed"[1] == 'a' && "Stopped"[1] == 't' && "Cancelled"[0] == 'C';
  }

  /** A task that is left running or waiting when its job ends badly is stopped. */
  predicate StopsLeft(t: TaskRow, now: string, t': TaskRow) {
    if NormalizeTaskStatus(t.status) in {TaskRunning, TaskInitialized} then
      t' == t.(status := "STOPPED", logs := t.logs + TransitionLogs(now, t.jobId, t.taskId, NormalizeTaskStatus(t.status), TaskStopped, []))
    else t' == t
  }

  lemma StoppedMeaning(t: TaskRow, now: string)
    ensures StopsLeft(t, now, StoppedTask(t, now))
  {
    hide TransitionLogs, NormalizeTaskStatus;
  }

  /** What rest means: no task of a failed or stopped job is stored as running or as waiting to. */
  lemma RestMeaning(db: Tables, i: nat, k: nat)
    requires JobSync.Inv(db) && i < |db.jobs| && k < |db.tasks| && Owns(db.jobs[i], db.tasks[k])
    requires NormalizeJobStatus(db.jobs[i].status) in {JobFailed, JobStopped}
    ensures NormalizeTaskStatus(db.tasks[k].status) !in {TaskRunning, TaskInitialized}
    ensures db.tasks[k].status !in {"RUNNING", "INITIALIZED", "PENDING"}
  {
    hide NormalizeTaskStatus, NormalizeJobStatus;
    StoredTaskNames();
  }

  /** A reported task holds the status of its own state, its message and, when there is one, its progress. */
  predicate TakesReport(t: TaskRow, r: Report, now: string, t': TaskRow) {
    && t' == t.(status := t'.status, errMsg := r.errMsg, progress := t'.progress, logs := t'.logs)
    && t'.progress == (if r.progress > 0.0 then Some(r.progress) else t.progress)
    && (r.state == "Succeeded" ==> t'.status == "SUCCEED")
    && (r.state == "Failed" ==> t'.status == "FAILED")
    && (r.state == "Stopped" || r.state == "Cancelled" ==> t'.status == "STOPPED")
    && (r.state == "Running" ==> t'.status == "RUNNING")
    && (r.state !in {"Succeeded", "Failed", "Stopped", "Cancelled", "Running"} ==> t'.status == "INITIALIZED")
    && t'.logs == t.logs + TransitionLogs(now, t.jobId, t.taskId, NormalizeTaskStatus(t.status), NormalizeTaskStatus(t'.status),
                                          if r.state == "Failed" then FailureReasons(r) else [])
  }

  /** One line for each party that failed, then the task's own message. */
  function FailureReasons(r: Report): (lines: seq<string>) {
    PartyLines(r.parties, 0) + [r.errMsg]
  }

  function PartyLines(parties: seq<Party>, i: nat): seq<string>
    decreases |parties| - i
  {
    if i >= |parties| then []
    else
      (if parties[i].state == "Failed" then ["party " + parties[i].domainId + " failed msg: " + parties[i].errMsg] else [])
      + PartyLines(parties, i + 1)
  }

  lemma {:induction false} PartyLinesConcat(parties: seq<Party>, i: nat)
    requires i <= |parties|
    ensures PartyReasons(parties[..i]) + PartyLines(parties, i) == PartyReasons(parties)
    decreases |parties| - i
  {
    if i < |parties| {
      assert parties[..i + 1][..i] == parties[..i];
      PartyLinesConcat(parties, i + 1);
    } else {
      assert parties[..i] == parties;
    }
  }

  lemma ReasonsMeaning(r: Report)
    ensures PartyFailedReasons(r) == FailureReasons(r)
  {
    assert r.parties[..0] == [];
    PartyLinesConcat(r.parties, 0);
  }

  lemma FailedOnly(state: string)
    ensures TaskStatusFromKuscia(state) == TaskFailed <==> state == "Failed"
  {
    assert "Succeeded"[1] == 'u' && "Failed"[1] == 'a';
  }

  lemma UpdatedMeaning(t: TaskRow, r: Report, now: string)
    ensures TakesReport(t, r, now, UpdatedTask(t, r, now))
  {
    hide NormalizeTaskStatus, TaskName, TransitionLogs, TaskStatusFromKuscia, PartyFailedReasons, FailureReasons;
    StateOfName(r.state);
    FailedOnly(r.state);
    ReasonsMeaning(r);
    TaskNameRoundTrip(TaskStatusFromKuscia(r.state));
  }

  /**
   What a report makes of the tasks: its job's tasks take their own reports, as far as they are reported, and what
   is left running or waiting by a job that ends badly is stopped. Tasks of other jobs stay as they were.
   */
  lemma ReportedTask(db: Tables, jobId: string, d: Detail, now: string, k: nat, n: nat) returns (between: TaskRow)
    requires IsJobRow(db.jobs, jobId, k) && !IsJobFinished(db.jobs[k].status) && n < |db.tasks|
    ensures var out, t := Synced(db, jobId, Some(d), now), db.tasks[n];
            && |out.tasks| == |db.tasks|
            && (!Owns(db.jobs[k], t) ==> out.tasks[n] == t)
            && (Owns(db.jobs[k], t) ==>
                  && (if t.taskId in Merge(d.tasks) then TakesReport(t, Merge(d.tasks)[t.taskId], now, between) else between == t)
                  && (if EndsBadly(d) then StopsLeft(between, now, out.tasks[n]) else out.tasks[n] == between))
  {
    hide IsJobFinished, Halts, UpdatedJob, Merge, UpdatedTask, StoppedTask, StopsLeft, TakesReport, EndsBadly;
    FoundRow(db.jobs, jobId, k, 0);
    HaltsMeaning(d);
    var t, merged := db.tasks[n], Merge(d.tasks);
    between := if t.taskId in merged then UpdatedTask(t, merged[t.taskId], now) else t;
    if t.taskId in merged {
      UpdatedMeaning(t, merged[t.taskId], now);
    }
    StoppedMeaning(between, now);
  }

  // ---------- deletions and stops ----------

  /** The job is stopped, with what was left running or waiting of it; nothing else changes. */
  predicate JobStops(db: Tables, k: nat, now: string, out: Tables)
    requires k < |db.jobs|
  {
    && out.jobs == db.jobs[k := db.jobs[k].(status := "STOPPED")]
    && |out.tasks| == |db.tasks|
    && forall n :: 0 <= n < |db.tasks| ==>
         if Owns(db.jobs[k], db.tasks[n]) then StopsLeft(db.tasks[n], now, out.tasks[n]) else out.tasks[n] == db.tasks[n]
  }

  lemma HaltedMeaning(db: Tables, k: nat, now: string)
    requires k < |db.jobs|
    ensures JobStops(db, k, now, Halted(db, k, now))
  {
    hide StoppedTask, StopsLeft;
    FewNames();
    hide JobName;
    forall n | 0 <= n < |db.tasks| ensures StopsLeft(db.tasks[n], now, StoppedTask(db.tasks[n], now)) {
      StoppedMeaning(db.tasks[n], now);
    }
  }

  /** A vanished job stops, unless it has finished, or the poller misses it before it is `grace` old. */
  lemma DeletedMeaning(db: Tables, jobId: string, fromPoll: bool, now: string, time: int, grace: int)
    ensures var out := Deleted(db, jobId, fromPoll, now, time, grace);
            && ((forall i :: 0 <= i < |db.jobs| ==> db.jobs[i].jobId != jobId) ==> out == db)
            && forall k: nat :: IsJobRow(db.jobs, jobId, k) ==>
                 if IsJobFinished(db.jobs[k].status) || (fromPoll && time < db.jobs[k].gmtCreate + grace) then out == db
                 else JobStops(db, k, now, out)
  {
    hide IsJobFinished, Halted, JobStops;
    FindJobMeaning(db.jobs, jobId, 0);
    forall k: nat | IsJobRow(db.jobs, jobId, k) ensures FindJob(db.jobs, jobId) == Some(k) && JobStops(db, k, now, Halted(db, k, now)) {
      FoundRow(db.jobs, jobId, k, 0);
      HaltedMeaning(db, k, now);
    }
  }

  /** The user's stop takes a job of any status; it is refused without permission, for no job, and for another project's. */
  lemma UserStopMeaning(db: Tables, projectId: string, jobId: string, permitted: bool, now: string)
    ensures var out := StoppedByUser(db, projectId, jobId, permitted, now);
            && (!permitted || (forall i :: 0 <= i < |db.jobs| ==> db.jobs[i].jobId != jobId) ==> out == None)
            && forall k: nat :: IsJobRow(db.jobs, jobId, k) && permitted ==>
                 if projectId == "" || projectId == db.jobs[k].projectId then out.Some? && JobStops(db, k, now, out.value)
                 else out == None
  {
    hide Halted, JobStops;
    FindJobMeaning(db.jobs, jobId, 0);
    forall k: nat | IsJobRow(db.jobs, jobId, k) ensures FindJob(db.jobs, jobId) == Some(k) && JobStops(db, k, now, Halted(db, k, now)) {
      FoundRow(db.jobs, jobId, k, 0);
      HaltedMeaning(db, k, now);
    }
  }
}
