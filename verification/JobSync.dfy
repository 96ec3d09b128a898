/** The synchronisation of project jobs with Kuscia's reports (internal/service/job_sync_service.go, job_sync_watch.go, job_service.go). */
module JobSync {
  import opened Options
  import opened Statuses
  import opened TaskLogs
  import opened Fold

  /** A row of project_job; statuses are stored as text, of whatever version wrote them. */
  datatype JobRow = JobRow(projectId: string, jobId: string, status: string, errMsg: string, finishedTime: Option<string>, gmtCreate: int)

  /** A row of project_job_task with the lines of project_job_task_log that belong to it. */
  datatype TaskRow = TaskRow(projectId: string, jobId: string, taskId: string, status: string, errMsg: string, progress: Option<real>, logs: seq<string>)

  datatype Tables = Tables(jobs: seq<JobRow>, tasks: seq<TaskRow>)

  /** Kuscia's report on a job; `finished` is what parsing its end time yields. */
  datatype Detail = Detail(state: string, errMsg: string, endTime: string, finished: Option<string>, tasks: seq<Report>)

  // ---------- looking rows up ----------

  function FindJobFrom(jobs: seq<JobRow>, jobId: string, i: nat): Option<nat>
    decreases |jobs| - i
  {
    if i >= |jobs| then None else if jobs[i].jobId == jobId then Some(i) else FindJobFrom(jobs, jobId, i + 1)
  }

  function FindJob(jobs: seq<JobRow>, jobId: string): Option<nat> { FindJobFrom(jobs, jobId, 0) }

  lemma {:induction false} FindJobMeaning(jobs: seq<JobRow>, jobId: string, i: nat)
    ensures match FindJobFrom(jobs, jobId, i)
            case None => forall j :: i <= j < |jobs| ==> jobs[j].jobId != jobId
            case Some(k) => i <= k < |jobs| && jobs[k].jobId == jobId
    decreases |jobs| - i
  {
    if i < |jobs| && jobs[i].jobId != jobId {
      FindJobMeaning(jobs, jobId, i + 1);
    }
  }

  predicate Owns(j: JobRow, t: TaskRow) {
    t.projectId == j.projectId && t.jobId == j.jobId
  }

  // ---------- one task ----------

  function PartyFailedReasons(t: Report): seq<string> {
    PartyReasons(t.parties) + [t.errMsg]
  }

  function PartyReasons(parties: seq<Party>): seq<string> {
    if parties == [] then []
    else
      var p := parties[|parties| - 1];
      PartyReasons(parties[..|parties| - 1])
      + if p.state == "Failed" then ["party " + p.domainId + " failed msg: " + p.errMsg] else []
  }

  function UpdatedTask(t: TaskRow, r: Report, now: string): TaskRow {
    var from, to := NormalizeTaskStatus(t.status), TaskStatusFromKuscia(r.state);
    var reasons := if to == TaskFailed then PartyFailedReasons(r) else [];
    t.(status := TaskName(to), errMsg := r.errMsg, progress := if r.progress > 0.0 then Some(r.progress) else t.progress,
       logs := t.logs + TransitionLogs(now, t.jobId, t.taskId, from, to, reasons))
  }

  predicate Unsettled(t: TaskRow) {
    var st := NormalizeTaskStatus(t.status);
    st == TaskRunning || st == TaskInitialized
  }

  function StoppedTask(t: TaskRow, now: string): TaskRow {
    if !Unsettled(t) then t
    else t.(status := TaskName(TaskStopped),
            logs := t.logs + TransitionLogs(now, t.jobId, t.taskId, NormalizeTaskStatus(t.status), TaskStopped, []))
  }

  // ---------- one job ----------

  /** The job status a report sets: none while a finished job has no end time yet. */
  function ReportedStatus(d: Detail): Option<JobStatus> {
    if IsKusciaFinishedState(d.state) && d.endTime == "" then None else Some(JobStatusFromKuscia(d.state))
  }

  function UpdatedJob(j: JobRow, d: Detail): JobRow {
    var st := ReportedStatus(d);
    j.(status := if st.Some? then JobName(st.value) else j.status, errMsg := if st.Some? then d.errMsg else j.errMsg,
       finishedTime := if d.finished.Some? then d.finished else j.finishedTime)
  }

  /** A job that Kuscia reports as failed or stopped never starts its remaining tasks. */
  predicate Halts(d: Detail) {
    ReportedStatus(d) == Some(JobFailed) || ReportedStatus(d) == Some(JobStopped)
  }

  function TaskAfter(j: JobRow, t: TaskRow, merged: map<string, Report>, halts: bool, now: string): TaskRow {
    if !Owns(j, t) then t
    else
      var u := if t.taskId in merged then UpdatedTask(t, merged[t.taskId], now) else t;
      if halts then StoppedTask(u, now) else u
  }

  function TasksAfter(j: JobRow, tasks: seq<TaskRow>, merged: map<string, Report>, halts: bool,
                      now: string): (r: seq<TaskRow>)
    ensures |r| == |tasks|
  {
    seq(|tasks|, i requires 0 <= i < |tasks| => TaskAfter(j, tasks[i], merged, halts, now))
  }

  function Updated(db: Tables, k: nat, d: Detail, now: string): Tables
    requires k < |db.jobs|
  {
    Tables(db.jobs[k := UpdatedJob(db.jobs[k], d)], TasksAfter(db.jobs[k], db.tasks, Merge(d.tasks), Halts(d), now))
  }

  /** SyncJob: a finished or unknown job is left alone. */
  function Synced(db: Tables, jobId: string, d: Option<Detail>, now: string): Tables {
    var k := FindJob(db.jobs, jobId);
    if d.None? || k.None? || k.value >= |db.jobs| || IsJobFinished(db.jobs[k.value].status) then db
    else Updated(db, k.value, d.value, now)
  }

  function Halted(db: Tables, k: nat, now: string): Tables
    requires k < |db.jobs|
  {
    Tables(db.jobs[k := db.jobs[k].(status := JobName(JobStopped))], TasksAfter(db.jobs[k], db.tasks, map[], true, now))
  }

  /** markJobDeleted: `grace` protects young jobs from the poller. */
  function Deleted(db: Tables, jobId: string, fromPoll: bool, now: string, time: int, grace: int): Tables {
    var k := FindJob(db.jobs, jobId);
    if k.None? || k.value >= |db.jobs| || IsJobFinished(db.jobs[k.value].status) then db
    else if fromPoll && time - db.jobs[k.value].gmtCreate < grace then db
    else Halted(db, k.value, now)
  }

  /** stopProjectJob: the user's stop takes any job, finished or not; `permitted` is the graph owner check. */
  function StoppedByUser(db: Tables, projectId: string, jobId: string, permitted: bool, now: string): Option<Tables> {
    var k := FindJob(db.jobs, jobId);
    if k.None? || k.value >= |db.jobs| || (projectId != "" && db.jobs[k.value].projectId != projectId) || !permitted then None
    else Some(Halted(db, k.value, now))
  }

  // ---------- invariants ----------

  predicate DistinctJobs(jobs: seq<JobRow>) {
    forall i, j :: 0 <= i < j < |jobs| ==> jobs[i].jobId != jobs[j].jobId
  }

  predicate SameKey(a: TaskRow, b: TaskRow) {
    a.projectId == b.projectId && a.jobId == b.jobId && a.taskId == b.taskId
  }

  predicate DistinctTasks(tasks: seq<TaskRow>) {
    forall i, j :: 0 <= i < j < |tasks| ==> !SameKey(tasks[i], tasks[j])
  }

  predicate IsHalted(j: JobRow) {
    var st := NormalizeJobStatus(j.status);
    st == JobFailed || st == JobStopped
  }

  /** No task of a failed or stopped job is running or waiting to. */
  predicate HaltedRest(db: Tables) {
    forall i, k :: 0 <= i < |db.jobs| && 0 <= k < |db.tasks| && IsHalted(db.jobs[i]) && Owns(db.jobs[i], db.tasks[k]) ==>
      !Unsettled(db.tasks[k])
  }

  predicate Inv(db: Tables) {
    DistinctJobs(db.jobs) && DistinctTasks(db.tasks) && HaltedRest(db)
  }

  // ---------- runs ----------

  datatype Event =
    | NewJob(job: JobRow, tasks: seq<TaskRow>)
    | Sync(jobId: string, detail: Option<Detail>, now: string)
    | Vanish(jobId: string, fromPoll: bool, now: string, time: int)
    | UserStop(projectId: string, jobId: string, permitted: bool, now: string)

  /** A new job is persisted running, under an id that is not in use. */
  predicate MayCreate(db: Tables, job: JobRow, tasks: seq<TaskRow>) {
    && FindJob(db.jobs, job.jobId).None? && !IsHalted(job)
    && DistinctTasks(db.tasks + tasks) && forall i :: 0 <= i < |tasks| ==> Owns(job, tasks[i])
  }

  function Apply(grace: int, db: Tables, e: Event): Tables {
    match e
    case NewJob(job, tasks) => if MayCreate(db, job, tasks) then Tables(db.jobs + [job], db.tasks + tasks) else db
    case Sync(jobId, d, now) => Synced(db, jobId, d, now)
    case Vanish(jobId, fromPoll, now, time) => Deleted(db, jobId, fromPoll, now, time, grace)
    case UserStop(projectId, jobId, permitted, now) =>
      var r := StoppedByUser(db, projectId, jobId, permitted, now);
      if r.Some? then r.value else db
  }

  function Run(grace: int, db: Tables, events: seq<Event>): Tables {
    if events == [] then db
    else Apply(grace, Run(grace, db, events[..|events| - 1]), events[|events| - 1])
  }

  lemma StoppedIsSettled(t: TaskRow, now: string)
    ensures !Unsettled(StoppedTask(t, now))
  {
    hide Canonical, TransitionLogs;
    TaskNameRoundTrip(TaskStopped);
    hide TaskName;
  }

  lemma TaskAfterKey(j: JobRow, t: TaskRow, merged: map<string, Report>, halts: bool, now: string)
    ensures SameKey(TaskAfter(j, t, merged, halts, now), t)
    ensures halts && Owns(j, t) ==> !Unsettled(TaskAfter(j, t, merged, halts, now))
    ensures !Owns(j, t) ==> TaskAfter(j, t, merged, halts, now) == t
  {
    hide Unsettled, TransitionLogs, NormalizeTaskStatus, PartyFailedReasons, TaskName, TaskStatusFromKuscia;
    if halts && Owns(j, t) {
      StoppedIsSettled(if t.taskId in merged then UpdatedTask(t, merged[t.taskId], now) else t, now);
    }
    assert forall u :: SameKey(StoppedTask(u, now), u) && u.jobId == u.jobId;
  }

  lemma TasksAfterDistinct(j: JobRow, tasks: seq<TaskRow>, merged: map<string, Report>, halts: bool, now: string)
    requires DistinctTasks(tasks)
    ensures DistinctTasks(TasksAfter(j, tasks, merged, halts, now))
  {
    hide TaskAfter;
    forall i | 0 <= i < |tasks| ensures SameKey(TasksAfter(j, tasks, merged, halts, now)[i], tasks[i]) {
      TaskAfterKey(j, tasks[i], merged, halts, now);
    }
  }

  /** Changing one job and its tasks keeps the others at rest, and this one too if it ends up halted. */
  lemma OneJobStep(db: Tables, k: nat, job: JobRow, merged: map<string, Report>, halts: bool, now: string)
    requires Inv(db) && k < |db.jobs| && job.projectId == db.jobs[k].projectId && job.jobId == db.jobs[k].jobId
    requires IsHalted(job) ==> halts
    ensures Inv(Tables(db.jobs[k := job], TasksAfter(db.jobs[k], db.tasks, merged, halts, now)))
  {
    hide TaskAfter, IsHalted, Unsettled;
    var db' := Tables(db.jobs[k := job], TasksAfter(db.jobs[k], db.tasks, merged, halts, now));
    TasksAfterDistinct(db.jobs[k], db.tasks, merged, halts, now);
    forall i, n | 0 <= i < |db'.jobs| && 0 <= n < |db'.tasks| && IsHalted(db'.jobs[i]) && Owns(db'.jobs[i], db'.tasks[n])
      ensures !Unsettled(db'.tasks[n])
    {
      TaskAfterKey(db.jobs[k], db.tasks[n], merged, halts, now);
      if i != k {
        assert db.jobs[i].jobId != db.jobs[k].jobId by {
          assert if i < k then db.jobs[i].jobId != db.jobs[k].jobId else db.jobs[k].jobId != db.jobs[i].jobId;
        }
        assert !Owns(db.jobs[k], db.tasks[n]);
      }
    }
  }

  lemma UpdatedJobHalts(j: JobRow, d: Detail)
    requires !IsJobFinished(j.status)
    ensures IsHalted(UpdatedJob(j, d)) ==> Halts(d)
  {
    hide Canonical, JobStatusFromKuscia, JobName;
    var st := ReportedStatus(d);
    if st.Some? {
      JobNameRoundTrip(st.value);
    }
  }

  lemma UpdatedKeeps(db: Tables, k: nat, d: Detail, now: string)
    requires Inv(db) && k < |db.jobs| && !IsJobFinished(db.jobs[k].status)
    ensures Inv(Updated(db, k, d, now))
  {
    hide Inv, IsJobFinished, IsHalted, Halts, TasksAfter, Merge, JobName, JobStatusFromKuscia;
    UpdatedJobHalts(db.jobs[k], d);
    OneJobStep(db, k, UpdatedJob(db.jobs[k], d), Merge(d.tasks), Halts(d), now);
  }

  lemma HaltedKeeps(db: Tables, k: nat, now: string)
    requires Inv(db) && k < |db.jobs|
    ensures Inv(Halted(db, k, now))
  {
    hide Inv, IsHalted, TasksAfter, JobName;
    OneJobStep(db, k, db.jobs[k].(status := JobName(JobStopped)), map[], true, now);
  }

  lemma NewJobKeeps(db: Tables, job: JobRow, tasks: seq<TaskRow>)
    requires Inv(db) && MayCreate(db, job, tasks)
    ensures Inv(Tables(db.jobs + [job], db.tasks + tasks))
  {
    hide IsHalted, Unsettled;
    FindJobMeaning(db.jobs, job.jobId, 0);
    var db' := Tables(db.jobs + [job], db.tasks + tasks);
    assert forall k :: |db.tasks| <= k < |db'.tasks| ==> Owns(job, db'.tasks[k]);
    forall i, k | 0 <= i < |db'.jobs| && 0 <= k < |db'.tasks| && IsHalted(db'.jobs[i]) && Owns(db'.jobs[i], db'.tasks[k])
      ensures !Unsettled(db'.tasks[k])
    {
      assert i < |db.jobs| && db'.jobs[i] == db.jobs[i];
    }
  }

  lemma ApplyKeeps(grace: int, db: Tables, e: Event)
    requires Inv(db)
    ensures Inv(Apply(grace, db, e))
  {
    hide Inv, MayCreate, IsJobFinished, Updated, Halted, FindJob;
    match e
    case NewJob(job, tasks) =>
      if MayCreate(db, job, tasks) {
        NewJobKeeps(db, job, tasks);
      }
    case Sync(jobId, d, now) =>
      var k := FindJob(db.jobs, jobId);
      if d.Some? && k.Some? && k.value < |db.jobs| && !IsJobFinished(db.jobs[k.value].status) {
        UpdatedKeeps(db, k.value, d.value, now);
      }
    case Vanish(jobId, _, now, _) =>
      var k := FindJob(db.jobs, jobId);
      if k.Some? && k.value < |db.jobs| {
        HaltedKeeps(db, k.value, now);
      }
    case UserStop(_, jobId, _, now) =>
      var k := FindJob(db.jobs, jobId);
      if k.Some? && k.value < |db.jobs| {
        HaltedKeeps(db, k.value, now);
      }
  }

  /** In every run, whatever Kuscia reports and whoever stops jobs, a failed or stopped job has no unsettled task. */
  lemma {:induction false} RunKeeps(grace: int, db: Tables, events: seq<Event>)
    requires Inv(db)
    ensures Inv(Run(grace, db, events))
    decreases |events|
  {
    hide Inv, Apply;
    if events != [] {
      var n := |events| - 1;
      RunKeeps(grace, db, events[..n]);
      ApplyKeeps(grace, Run(grace, db, events[..n]), events[n]);
    }
  }

  // ---------- finished jobs ----------

  /** Job i and its tasks are in db' what they were in db. */
  predicate Untouched(db: Tables, db': Tables, i: nat) {
    && i < |db.jobs| <= |db'.jobs| && |db.tasks| <= |db'.tasks|
    && db'.jobs[i] == db.jobs[i]
    && (forall k :: 0 <= k < |db.tasks| ==> SameKey(db.tasks[k], db'.tasks[k]))
    && (forall k :: 0 <= k < |db.tasks| && Owns(db.jobs[i], db.tasks[k]) ==> db'.tasks[k] == db.tasks[k])
    && (forall k :: |db.tasks| <= k < |db'.tasks| ==> !Owns(db.jobs[i], db'.tasks[k]))
  }

  lemma OtherJobUntouched(db: Tables, k: nat, job: JobRow, merged: map<string, Report>, halts: bool, now: string,
                          i: nat)
    requires DistinctJobs(db.jobs) && k < |db.jobs| && i < |db.jobs| && i != k
    ensures Untouched(db, Tables(db.jobs[k := job], TasksAfter(db.jobs[k], db.tasks, merged, halts, now)), i)
  {
    hide TaskAfter;
    assert db.jobs[i].jobId != db.jobs[k].jobId by {
      assert if i < k then db.jobs[i].jobId != db.jobs[k].jobId else db.jobs[k].jobId != db.jobs[i].jobId;
    }
    forall n | 0 <= n < |db.tasks|
      ensures SameKey(db.tasks[n], TaskAfter(db.jobs[k], db.tasks[n], merged, halts, now))
      ensures !Owns(db.jobs[k], db.tasks[n]) ==> TaskAfter(db.jobs[k], db.tasks[n], merged, halts, now) == db.tasks[n]
    {
      TaskAfterKey(db.jobs[k], db.tasks[n], merged, halts, now);
    }
  }

  /** Reports and deletions never touch a finished job; only the user's stop does. */
  lemma FinishedUntouched(grace: int, db: Tables, e: Event, i: nat)
    requires Inv(db) && i < |db.jobs| && IsJobFinished(db.jobs[i].status) && !e.UserStop?
    ensures Untouched(db, Apply(grace, db, e), i)
  {
    hide IsJobFinished, HaltedRest, TasksAfter, UpdatedJob, JobName, Merge, Halts, DistinctTasks, FindJobFrom, IsHalted;
    match e
    case NewJob(job, tasks) => FindJobMeaning(db.jobs, job.jobId, 0);
    case Sync(jobId, d, now) =>
      var k := FindJob(db.jobs, jobId);
      if d.Some? && k.Some? && k.value < |db.jobs| && k.value != i {
        OtherJobUntouched(db, k.value, UpdatedJob(db.jobs[k.value], d.value), Merge(d.value.tasks), Halts(d.value), now, i);
      }
    case Vanish(jobId, _, now, _) =>
      var k := FindJob(db.jobs, jobId);
      if k.Some? && k.value < |db.jobs| && k.value != i {
        OtherJobUntouched(db, k.value, db.jobs[k.value].(status := JobName(JobStopped)), map[], true, now, i);
      }
  }

  lemma {:induction false} FinishedStays(grace: int, db: Tables, events: seq<Event>, i: nat)
    requires Inv(db) && i < |db.jobs| && IsJobFinished(db.jobs[i].status) && forall e :: e in events ==> !e.UserStop?
    ensures Untouched(db, Run(grace, db, events), i)
    decreases |events|
  {
    hide Inv, Apply, IsJobFinished;
    if events != [] {
      var n := |events| - 1;
      FinishedStays(grace, db, events[..n], i);
      RunKeeps(grace, db, events[..n]);
      FinishedUntouched(grace, Run(grace, db, events[..n]), events[n], i);
      UntouchedTwice(db, Run(grace, db, events[..n]), Run(grace, db, events), i);
    }
  }

  lemma UntouchedTwice(a: Tables, b: Tables, c: Tables, i: nat)
    requires Untouched(a, b, i) && Untouched(b, c, i)
    ensures Untouched(a, c, i)
  {
  }

  // ---------- repeated delivery ----------

  lemma UpdateTwice(t: TaskRow, r: Report, now: string, later: string)
    ensures UpdatedTask(UpdatedTask(t, r, now), r, later) == UpdatedTask(t, r, now)
  {
    hide NormalizeTaskStatus, TaskName, PartyFailedReasons, TransitionLogs, TaskStatusFromKuscia;
    var to := TaskStatusFromKuscia(r.state);
    TaskNameRoundTrip(to);
    SilentTransitions(later, t.jobId, t.taskId, to, to, if to == TaskFailed then PartyFailedReasons(r) else []);
  }

  lemma UpdateJobTwice(j: JobRow, d: Detail)
    ensures UpdatedJob(UpdatedJob(j, d), d) == UpdatedJob(j, d)
  {
  }

  lemma HaltingFinishes(j: JobRow, d: Detail)
    requires Halts(d)
    ensures IsJobFinished(UpdatedJob(j, d).status)
  {
    hide NormalizeJobStatus, JobName, JobStatusFromKuscia;
    JobNameRoundTrip(ReportedStatus(d).value);
  }

  lemma UpdatedTwice(db: Tables, k: nat, d: Detail, now: string, later: string)
    requires k < |db.jobs| && !Halts(d)
    ensures Updated(Updated(db, k, d, now), k, d, later) == Updated(db, k, d, now)
  {
    hide UpdatedTask, UpdatedJob, Halts, Merge;
    UpdateJobTwice(db.jobs[k], d);
    var once := Updated(db, k, d, now);
    var merged := Merge(d.tasks);
    SameOwner(db.jobs[k], d);
    forall n | 0 <= n < |db.tasks| ensures TaskAfter(once.jobs[k], once.tasks[n], merged, false, later) == once.tasks[n] {
      var t := db.tasks[n];
      if Owns(db.jobs[k], t) && t.taskId in merged {
        UpdateTwice(t, merged[t.taskId], now, later);
        UpdatedTaskKey(t, merged[t.taskId], now);
      }
    }
    assert Updated(once, k, d, later).tasks == once.tasks;
  }

  lemma SameOwner(j: JobRow, d: Detail)
    ensures UpdatedJob(j, d).projectId == j.projectId && UpdatedJob(j, d).jobId == j.jobId
  {
  }

  lemma UpdatedTaskKey(t: TaskRow, r: Report, now: string)
    ensures SameKey(UpdatedTask(t, r, now), t)
  {
    hide TransitionLogs, PartyFailedReasons, NormalizeTaskStatus, TaskStatusFromKuscia, TaskName;
  }

  /**
   Delivering a report again, by watch or by poll, at whatever later time, leaves job, tasks and log lines as the
   first delivery left them.
   */
  lemma RedeliveryChangesNothing(db: Tables, jobId: string, d: Option<Detail>, now: string, later: string)
    ensures Synced(Synced(db, jobId, d, now), jobId, d, later) == Synced(db, jobId, d, now)
  {
    hide IsJobFinished, UpdatedJob, Halts, TasksAfter, Merge, FindJobFrom;
    FindJobMeaning(db.jobs, jobId, 0);
    var k := FindJob(db.jobs, jobId);
    if d.Some? && k.Some? && !IsJobFinished(db.jobs[k.value].status) {
      var once := Updated(db, k.value, d.value, now);
      SameOwner(db.jobs[k.value], d.value);
      SameJobFound(db.jobs, once.jobs, jobId, 0);
      if Halts(d.value) {
        HaltingFinishes(db.jobs[k.value], d.value);
      } else {
        UpdatedTwice(db, k.value, d.value, now, later);
      }
    }
  }

  lemma {:induction false} SameJobFound(a: seq<JobRow>, b: seq<JobRow>, jobId: string, i: nat)
    requires |a| == |b| && forall j :: 0 <= j < |a| ==> a[j].jobId == b[j].jobId
    ensures FindJobFrom(a, jobId, i) == FindJobFrom(b, jobId, i)
    decreases |a| - i
  {
    if i < |a| {
      SameJobFound(a, b, jobId, i + 1);
    }
  }
}
