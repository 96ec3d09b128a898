/** The job status synchroniser as an object over its tables and its counters of vanished jobs. */
module JobStore {
  import opened Options
  import opened Statuses
  import opened TaskLogs
  import opened Fold
  import opened JobSync

  const NOT_FOUND_THRESHOLD := 3

  function FindTaskFrom(tasks: seq<TaskRow>, j: JobRow, taskId: string, i: nat): Option<nat>
    decreases |tasks| - i
  {
    if i >= |tasks| then None
    else if Owns(j, tasks[i]) && tasks[i].taskId == taskId then Some(i)
    else FindTaskFrom(tasks, j, taskId, i + 1)
  }

  lemma {:induction false} FindTaskMeaning(tasks: seq<TaskRow>, j: JobRow, taskId: string, i: nat)
    ensures match FindTaskFrom(tasks, j, taskId, i)
            case None => forall n :: i <= n < |tasks| ==> !(Owns(j, tasks[n]) && tasks[n].taskId == taskId)
            case Some(k) => i <= k < |tasks| && Owns(j, tasks[k]) && tasks[k].taskId == taskId
    decreases |tasks| - i
  {
    if i < |tasks| {
      FindTaskMeaning(tasks, j, taskId, i + 1);
    }
  }

  /** The reports still to do have not touched their tasks; the others have. */
  ghost predicate PartlyUpdated(j: JobRow, before: seq<TaskRow>, tasks: seq<TaskRow>, merged: map<string, Report>,
                                todo: set<string>, now: string) {
    && |tasks| == |before|
    && forall i :: 0 <= i < |before| ==>
         tasks[i] == if Owns(j, before[i]) && before[i].taskId in merged && before[i].taskId !in todo
                     then UpdatedTask(before[i], merged[before[i].taskId], now) else before[i]
  }

  lemma UpdateOneMore(j: JobRow, before: seq<TaskRow>, tasks: seq<TaskRow>, merged: map<string, Report>,
                      todo: set<string>, now: string, id: string)
    requires PartlyUpdated(j, before, tasks, merged, todo, now) && DistinctTasks(before) && id in todo && todo <= merged.Keys
    ensures var k := FindTaskFrom(tasks, j, id, 0);
            if k.None? then PartlyUpdated(j, before, tasks, merged, todo - {id}, now)
            else k.value < |tasks| && tasks[k.value] == before[k.value]
                 && PartlyUpdated(j, before, tasks[k.value := UpdatedTask(tasks[k.value], merged[id], now)], merged, todo - {id}, now)
  {
    hide UpdatedTask;
    FindTaskMeaning(tasks, j, id, 0);
    forall i | 0 <= i < |before| ensures Owns(j, tasks[i]) == Owns(j, before[i]) && tasks[i].taskId == before[i].taskId {
      if before[i].taskId in merged {
        UpdatedTaskKey(before[i], merged[before[i].taskId], now);
      }
    }
    var k := FindTaskFrom(tasks, j, id, 0);
    if k.Some? {
      forall i | 0 <= i < |before| && i != k.value ensures !(Owns(j, before[i]) && before[i].taskId == id) {
        assert !SameKey(before[i], before[k.value]) by {
          assert if i < k.value then !SameKey(before[i], before[k.value]) else !SameKey(before[k.value], before[i]);
        }
      }
    }
  }

  lemma UpdateStart(j: JobRow, before: seq<TaskRow>, merged: map<string, Report>, now: string)
    ensures PartlyUpdated(j, before, before, merged, merged.Keys, now)
  {
    hide UpdatedTask;
  }

  lemma UpdateEnd(j: JobRow, before: seq<TaskRow>, tasks: seq<TaskRow>, merged: map<string, Report>, now: string)
    requires PartlyUpdated(j, before, tasks, merged, {}, now)
    ensures tasks == TasksAfter(j, before, merged, false, now)
  {
    hide UpdatedTask;
    assert forall i :: 0 <= i < |before| ==> tasks[i] == TaskAfter(j, before[i], merged, false, now);
  }

  /** Updating, then stopping what is left, task by task. */
  lemma StopAfterUpdate(j: JobRow, tasks: seq<TaskRow>, merged: map<string, Report>, now: string)
    ensures TasksAfter(j, TasksAfter(j, tasks, merged, false, now), map[], true, now) == TasksAfter(j, tasks, merged, true, now)
  {
    hide UpdatedTask, StoppedTask;
    forall i | 0 <= i < |tasks|
      ensures TaskAfter(j, TaskAfter(j, tasks[i], merged, false, now), map[], true, now) == TaskAfter(j, tasks[i], merged, true, now)
    {
      if Owns(j, tasks[i]) && tasks[i].taskId in merged {
        UpdatedTaskKey(tasks[i], merged[tasks[i].taskId], now);
      }
    }
  }

  class Synchroniser {
    const grace: int
    var jobs: seq<JobRow>
    var tasks: seq<TaskRow>
    var notFound: map<string, nat>

    constructor (grace: int)
      ensures this.grace == grace && AsTables() == Tables([], []) && notFound == map[]
    {
      this.grace := grace;
      jobs, tasks, notFound := [], [], map[];
    }

    function AsTables(): Tables
      reads this
    {
      Tables(jobs, tasks)
    }

    /** The task part of updateJob; Go visits the merged reports in any order. */
    method UpdateTasks(j: JobRow, merged: map<string, Report>, now: string)
      requires DistinctTasks(tasks)
      modifies this`tasks
      ensures tasks == TasksAfter(j, old(tasks), merged, false, now)
    {
      hide DistinctTasks, PartlyUpdated, UpdatedTask, TasksAfter;
      ghost var before := tasks;
      var todo := merged.Keys;
      UpdateStart(j, before, merged, now);
      while todo != {}
        invariant todo <= merged.Keys && PartlyUpdated(j, before, tasks, merged, todo, now)
        decreases |todo|
      {
        var id :| id in todo;
        UpdateOneMore(j, before, tasks, merged, todo, now, id);
        var k := FindTaskFrom(tasks, j, id, 0);
        if k.Some? {
          tasks := tasks[k.value := UpdatedTask(tasks[k.value], merged[id], now)];
        }
        todo := todo - {id};
      }
      UpdateEnd(j, before, tasks, merged, now);
    }

    /** stopJobTasksTx. */
    method StopJobTasks(j: JobRow, now: string)
      modifies this`tasks
      ensures tasks == TasksAfter(j, old(tasks), map[], true, now)
    {
      hide Unsettled, NormalizeTaskStatus, TransitionLogs;
      ghost var before := tasks;
      for i := 0 to |tasks|
        invariant |tasks| == |before|
        invariant forall n :: 0 <= n < i ==> tasks[n] == TaskAfter(j, before[n], map[], true, now)
        invariant forall n :: i <= n < |before| ==> tasks[n] == before[n]
      {
        var t := tasks[i];
        if Owns(j, t) && Unsettled(t) {
          var logs := TransitionLogs(now, t.jobId, t.taskId, NormalizeTaskStatus(t.status), TaskStopped, []);
          tasks := tasks[i := t.(status := TaskName(TaskStopped), logs := t.logs + logs)];
        }
      }
    }

    /** updateJob, one transaction. */
    method UpdateJob(k: nat, d: Detail, now: string)
      requires k < |jobs| && DistinctTasks(tasks)
      modifies this`jobs, this`tasks
      ensures AsTables() == Updated(old(AsTables()), k, d, now)
    {
      hide TasksAfter, Merge, JobName, JobStatusFromKuscia, DistinctTasks;
      var j := jobs[k];
      var merged := MergeExtendedTasks(d.tasks);
      UpdateTasks(j, merged, now);
      var st := ReportedStatus(d);
      if st.Some? && (st.value == JobFailed || st.value == JobStopped) {
        StopJobTasks(j, now);
        StopAfterUpdate(j, old(tasks), merged, now);
      }
      if st.Some? {
        j := j.(status := JobName(st.value), errMsg := d.errMsg);
      }
      if d.finished.Some? {
        j := j.(finishedTime := d.finished);
      }
      jobs := jobs[k := j];
    }

    /** SyncJob. */
    method SyncJob(jobId: string, d: Option<Detail>, now: string)
      requires DistinctTasks(tasks)
      modifies this`jobs, this`tasks
      ensures AsTables() == Synced(old(AsTables()), jobId, d, now)
      ensures JobSync.Inv(old(AsTables())) ==> JobSync.Inv(AsTables())
    {
      hide Updated, IsJobFinished, DistinctTasks, JobSync.Inv;
      SyncKeeps(grace, AsTables(), jobId, d, now);
      if d.None? {
        return;
      }
      var k := FindJob(jobs, jobId);
      if k.None? || k.value >= |jobs| || IsJobFinished(jobs[k.value].status) {
        return;
      }
      UpdateJob(k.value, d.value, now);
    }

    method MarkJobDeleted(jobId: string, fromPoll: bool, now: string, time: int)
      modifies this`jobs, this`tasks
      ensures AsTables() == Deleted(old(AsTables()), jobId, fromPoll, now, time, grace)
    {
      hide TasksAfter, IsJobFinished, JobName;
      var k := FindJob(jobs, jobId);
      if k.None? || k.value >= |jobs| || IsJobFinished(jobs[k.value].status) {
        return;
      }
      if fromPoll && time - jobs[k.value].gmtCreate < grace {
        return;
      }
      StopJobTasks(jobs[k.value], now);
      jobs := jobs[k.value := jobs[k.value].(status := JobName(JobStopped))];
    }

    /** stopProjectJob; false when the job does not exist, is another project's, or the caller may not stop it. */
    method StopProjectJob(projectId: string, jobId: string, permitted: bool, now: string) returns (ok: bool)
      modifies this`jobs, this`tasks
      ensures ok == StoppedByUser(old(AsTables()), projectId, jobId, permitted, now).Some?
      ensures AsTables() == if ok then StoppedByUser(old(AsTables()), projectId, jobId, permitted, now).value else old(AsTables())
    {
      hide TasksAfter, JobName;
      var k := FindJob(jobs, jobId);
      if k.None? || k.value >= |jobs| || (projectId != "" && jobs[k.value].projectId != projectId) || !permitted {
        return false;
      }
      StopJobTasks(jobs[k.value], now);
      jobs := jobs[k.value := jobs[k.value].(status := JobName(JobStopped))];
      ok := true;
    }

    /** One pending job in syncOnce: what Kuscia answered, and whether the database then took the change. */
    method PollOne(jobId: string, answer: Answer, now: string, time: int)
      requires DistinctTasks(tasks)
      modifies this
      ensures State() == Observe(grace, old(State()), Asked(jobId, answer), now, time)
    {
      hide Synced, Deleted, DistinctTasks;
      match answer
      case QueryFailed => return;
      case NotFound(applied) =>
        notFound := notFound[jobId := (if jobId in notFound then notFound[jobId] else 0) + 1];
        if notFound[jobId] < NOT_FOUND_THRESHOLD {
          return;
        }
        if !applied {
          return;
        }
        MarkJobDeleted(jobId, true, now, time);
        notFound := notFound - {jobId};
      case Found(d, applied) =>
        notFound := notFound - {jobId};
        if applied {
          SyncJob(jobId, Some(d), now);
        }
    }

    /** HandleWatchEvent. */
    method HandleWatchEvent(jobId: string, change: Change, now: string, time: int)
      requires DistinctTasks(tasks)
      modifies this
      ensures State() == Observe(grace, old(State()), Watched(jobId, change), now, time)
    {
      hide Synced, Deleted, DistinctTasks;
      match change
      case Gone(applied) =>
        if applied {
          MarkJobDeleted(jobId, false, now, time);
        }
      case Changed(d, applied) =>
        notFound := notFound - {jobId};
        if applied {
          SyncJob(jobId, d, now);
        }
      case Unusable => return;
    }

    /** pruneNotFound, at the end of a round of polls over the jobs `pending`. */
    method PruneNotFound(pending: set<string>, now: string, time: int)
      modifies this`notFound
      ensures State() == Observe(grace, old(State()), RoundEnded(pending), now, time)
    {
      var todo := notFound.Keys;
      while todo != {}
        invariant todo <= old(notFound).Keys
        invariant forall id :: id in notFound <==> id in old(notFound) && (id in todo || id in pending)
        invariant forall id :: id in notFound ==> notFound[id] == old(notFound)[id]
        decreases |todo|
      {
        var id :| id in todo;
        if id !in pending {
          notFound := notFound - {id};
        }
        todo := todo - {id};
      }
    }

    function State(): PollState
      reads this
    {
      PollState(AsTables(), notFound)
    }
  }

  lemma SyncKeeps(grace: int, db: Tables, jobId: string, d: Option<Detail>, now: string)
    ensures JobSync.Inv(db) ==> JobSync.Inv(Synced(db, jobId, d, now))
  {
    hide JobSync.Inv, Synced;
    if JobSync.Inv(db) {
      ApplyKeeps(grace, db, Sync(jobId, d, now));
    }
  }

  // ---------- vanished jobs ----------

  /** What a query answers; `applied` is false when the database then failed, which leaves the tables as they were. */
  datatype Answer = QueryFailed | NotFound(applied: bool) | Found(detail: Detail, applied: bool)

  /** What a watch event says of a job. */
  datatype Change = Gone(applied: bool) | Changed(detail: Option<Detail>, applied: bool) | Unusable

  datatype Sighting = Asked(jobId: string, answer: Answer) | Watched(jobId: string, change: Change) | RoundEnded(pending: set<string>)

  datatype PollState = PollState(db: Tables, notFound: map<string, nat>)

  function Misses(s: PollState, jobId: string): nat {
    if jobId in s.notFound then s.notFound[jobId] else 0
  }

  function Missed(grace: int, s: PollState, jobId: string, applied: bool, now: string, time: int): PollState {
    var n := Misses(s, jobId) + 1;
    if n < NOT_FOUND_THRESHOLD || !applied then s.(notFound := s.notFound[jobId := n])
    else PollState(Deleted(s.db, jobId, true, now, time, grace), s.notFound - {jobId})
  }

  function Observe(grace: int, s: PollState, o: Sighting, now: string, time: int): PollState {
    match o
    case Asked(_, QueryFailed) => s
    case Asked(id, NotFound(applied)) => Missed(grace, s, id, applied, now, time)
    case Asked(id, Found(d, applied)) => PollState(if applied then Synced(s.db, id, Some(d), now) else s.db, s.notFound - {id})
    case Watched(id, Gone(applied)) => s.(db := if applied then Deleted(s.db, id, false, now, time, grace) else s.db)
    case Watched(id, Changed(d, applied)) => PollState(if applied then Synced(s.db, id, d, now) else s.db, s.notFound - {id})
    case Watched(_, Unusable) => s
    case RoundEnded(pending) => s.(notFound := map id | id in s.notFound && id in pending :: s.notFound[id])
  }

  /** A sighting with its times. */
  datatype Moment = Moment(what: Sighting, now: string, time: int)

  function ObserveAll(grace: int, s: PollState, seen: seq<Moment>): PollState {
    if seen == [] then s
    else
      var before, m := ObserveAll(grace, s, seen[..|seen| - 1]), seen[|seen| - 1];
      Observe(grace, before, m.what, m.now, m.time)
  }

  /** Polls and watch events, however mixed and however often the database fails, keep halted jobs free of unsettled tasks. */
  lemma {:induction false} ObservingKeeps(grace: int, s: PollState, seen: seq<Moment>)
    requires JobSync.Inv(s.db)
    ensures JobSync.Inv(ObserveAll(grace, s, seen).db)
    decreases |seen|
  {
    hide JobSync.Inv, Synced, Deleted;
    if seen != [] {
      var before, m := ObserveAll(grace, s, seen[..|seen| - 1]), seen[|seen| - 1];
      ObservingKeeps(grace, s, seen[..|seen| - 1]);
      match m.what
      case Asked(id, NotFound(_)) => ApplyKeeps(grace, before.db, Vanish(id, true, m.now, m.time));
      case Asked(id, Found(d, _)) => ApplyKeeps(grace, before.db, Sync(id, Some(d), m.now));
      case Watched(id, Gone(_)) => ApplyKeeps(grace, before.db, Vanish(id, false, m.now, m.time));
      case Watched(id, Changed(d, _)) => ApplyKeeps(grace, before.db, Sync(id, d, m.now));
      case _ =>
    }
  }

  /** The job has been heard of, or is not pending any more: a report, a change, or the end of a round without it. */
  predicate Heard(o: Sighting, jobId: string) {
    match o
    case Asked(id, Found(_, _)) => id == jobId
    case Watched(id, Changed(_, _)) => id == jobId
    case RoundEnded(pending) => jobId !in pending
    case _ => false
  }

  predicate IsMiss(o: Sighting, jobId: string) {
    o.Asked? && o.jobId == jobId && o.answer.NotFound?
  }

  /** The not-found answers since the job was last heard of: for each, whether the database could take a deletion. */
  function MissesSinceHeard(seen: seq<Moment>, jobId: string): seq<bool> {
    if seen == [] then []
    else
      var before, o := MissesSinceHeard(seen[..|seen| - 1], jobId), seen[|seen| - 1].what;
      if Heard(o, jobId) then [] else if IsMiss(o, jobId) then before + [o.answer.applied] else before
  }

  /** How many of these misses came after the last deletion they led to. */
  function Unanswered(misses: seq<bool>): nat {
    if misses == [] then 0
    else
      var n := Unanswered(misses[..|misses| - 1]) + 1;
      if n >= NOT_FOUND_THRESHOLD && misses[|misses| - 1] then 0 else n
  }

  /**
   A deletion answers the misses up to it when there are three of them and the database takes it: those left open are
   the last n, none of which was both the third or later and applied, behind one that was. Without database failures
   that is their number modulo three.
   */
  lemma {:induction false} UnansweredMeaning(misses: seq<bool>)
    ensures var n := Unanswered(misses);
            && n <= |misses|
            && (forall i :: |misses| - n + 2 <= i < |misses| ==> !misses[i])
            && (n < |misses| ==> misses[|misses| - n - 1]
                                 && Unanswered(misses[..|misses| - n - 1]) >= 2)
    ensures (forall i :: 0 <= i < |misses| ==> misses[i]) ==> Unanswered(misses) == |misses| % 3
    decreases |misses|
  {
    if misses != [] {
      var init := misses[..|misses| - 1];
      UnansweredMeaning(init);
      var n := Unanswered(misses);
      if 0 < n < |misses| {
        assert misses[..|misses| - n - 1] == init[..|init| - (n - 1) - 1];
      }
    }
  }

  /**
   The source counts "consecutive" not-found answers. What it counts is not-found answers since the job was last heard
   of, less those answered by a deletion: polls that fail neither count nor interrupt, and DELETED events do not either.
   */
  lemma {:induction false} MissesAreCounted(grace: int, s: PollState, jobId: string, seen: seq<Moment>)
    requires Misses(s, jobId) == 0
    ensures Misses(ObserveAll(grace, s, seen), jobId) == Unanswered(MissesSinceHeard(seen, jobId))
    decreases |seen|
  {
    hide Synced, Deleted;
    if seen != [] {
      MissesAreCounted(grace, s, jobId, seen[..|seen| - 1]);
      var before, o := MissesSinceHeard(seen[..|seen| - 1], jobId), seen[|seen| - 1].what;
      if IsMiss(o, jobId) {
        assert (before + [o.answer.applied])[..|before|] == before;
      }
    }
  }

  /**
   A miss applies the deletion exactly when it is the third or a later one that no deletion has answered and the
   database takes it; every other miss leaves the tables alone.
   */
  lemma TablesAfterMiss(grace: int, s: PollState, jobId: string, seen: seq<Moment>, applied: bool, now: string, time: int)
    requires Misses(s, jobId) == 0
    ensures var before := ObserveAll(grace, s, seen).db;
            ObserveAll(grace, s, seen + [Moment(Asked(jobId, NotFound(applied)), now, time)]).db
            == if applied && Unanswered(MissesSinceHeard(seen, jobId)) >= 2
               then Deleted(before, jobId, true, now, time, grace) else before
  {
    hide Synced, Deleted;
    MissesAreCounted(grace, s, jobId, seen);
    assert (seen + [Moment(Asked(jobId, NotFound(applied)), now, time)])[..|seen|] == seen;
  }

  predicate BecomesOf(grace: int, before: Tables, m: Moment, after: Tables) {
    match m.what
    case Asked(id, Found(d, applied)) => after == if applied then Synced(before, id, Some(d), m.now) else before
    case Asked(_, QueryFailed) => after == before
    case Asked(_, NotFound(_)) => true
    case Watched(id, Changed(d, applied)) => after == if applied then Synced(before, id, d, m.now) else before
    case Watched(id, Gone(applied)) => after == if applied then Deleted(before, id, false, m.now, m.time, grace) else before
    case Watched(_, Unusable) => after == before
    case RoundEnded(_) => after == before
  }

  /** What every other sighting makes of the tables: a report or a change is synchronised, a deletion seen by the watch stops the job. */
  lemma TablesAfterSighting(grace: int, s: PollState, seen: seq<Moment>, m: Moment)
    ensures BecomesOf(grace, ObserveAll(grace, s, seen).db, m, ObserveAll(grace, s, seen + [m]).db)
  {
    hide Synced, Deleted;
    assert (seen + [m])[..|seen|] == seen;
  }
}
