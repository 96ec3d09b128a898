/** When Append gives up: a lost attempt means that somebody else has appended in the meantime. */
module AppendRaces {
  import opened Chain
  import opened AuditSteps
  import opened AuditRuns
  import AuditBatches

  /** The attempts that a call has lost, counting the one that it is about to lose. */
  function LostAttempts(s: System, w: nat): nat {
    match WorkerOf(s, w)
    case Appending(_, attempt, v) => if v.tail.seqNo < |s.history| then attempt + 1 else attempt
    case Retrying(_, attempt) => attempt
    case _ => 0
  }

  /** Another caller's append, with at least one row, commits. */
  predicate OtherCommits(s: System, a: Action, w: nat) {
    a.w != w && |NextHistory(s, a)| > |s.history|
  }

  function OthersCommitted(h: Hash, s: System, actions: seq<Action>, w: nat): nat {
    if actions == [] then 0
    else
      var n := |actions| - 1;
      OthersCommitted(h, s, actions[..n], w) + if OtherCommits(Run(h, s, actions[..n]), actions[n], w) then 1 else 0
  }

  lemma FreshRead(h: Hash, s: System, batch: seq<Content>, attempt: nat)
    requires Inv(h, s) && s.db.tail.Some?
    ensures var worker := StartAppend(h, s, batch, attempt);
            worker.Appending? && worker.attempt == attempt && worker.view.tail.seqNo == |s.history|
  {
    hide SegmentsFiled, WorkersOk;
    AuditBatches.TailIsEnd(h, s.db, s.history);
  }

  lemma LostIsStale(h: Hash, s: System, w: nat)
    requires Inv(h, s) && s.db.tail.Some? && WorkerOf(s, w).Appending?
    ensures CommitAppend(s.db, WorkerOf(s, w).view).None? ==> WorkerOf(s, w).view.tail.seqNo < |s.history|
    ensures WorkerOf(s, w).attempt < MAX_ATTEMPTS
  {
    hide Consistent, SegmentsFiled, ViewOk;
    var v := WorkerOf(s, w).view;
    assert WorkerOk(h, s.db, s.history, WorkerOf(s, w));
    if v.out != [] {
      CommitAppendIff(h, s.db, s.history, v);
      ViewBehind(h, s.db, s.history, v);
    }
  }

  lemma ViewBehind(h: Hash, db: Db, history: seq<Row>, v: AppendView)
    requires ViewOk(h, db, history, v)
    ensures 0 <= v.tail.seqNo <= |history|
  {
  }

  lemma OwnStep(h: Hash, s: System, a: Action)
    requires Inv(h, s) && s.db.tail.Some?
    ensures LostAttempts(Step(h, s, a), a.w) <= LostAttempts(s, a.w)
  {
    hide Inv, StartAppend, CommitAppend, ReadRows, CommitArchive, CommitTail, FirstKeep, SegmentEnd, StartAfter, DeriveTail,
         FileBytes;
    match (a, WorkerOf(s, a.w))
    case (AppendRead(_, batch), Idle) => FreshRead(h, s, batch, 0);
    case (AppendRetry(_), Retrying(batch, attempt)) => FreshRead(h, s, batch, attempt);
    case (AppendCommit(_), Appending(_, _, _)) => LostIsStale(h, s, a.w);
    case (ArchiveReadRows(_, micro), KnowsEnd(start, last)) => NoAppend(h, s, start, last, micro);
    case _ =>
  }

  lemma NoAppend(h: Hash, s: System, start: Start, last: int, micro: int)
    ensures !ReadRows(h, s, start, last, micro).Appending? && !ReadRows(h, s, start, last, micro).Retrying?
  {
    hide MayArchive, MakePlan, Between;
  }

  lemma OtherStep(h: Hash, s: System, a: Action, w: nat)
    requires a.w != w
    ensures LostAttempts(Step(h, s, a), w) <= LostAttempts(s, w) + if OtherCommits(s, a, w) then 1 else 0
  {
    hide NextWorker, NextDb, NextFiles, NextHistory;
    HistoryGrows(s, a);
  }

  lemma HistoryGrows(s: System, a: Action)
    ensures |NextHistory(s, a)| >= |s.history|
  {
    hide CommitAppend;
  }

  lemma {:induction false} LostToOthers(h: Hash, s: System, actions: seq<Action>, w: nat)
    requires Inv(h, s) && s.db.tail.Some?
    ensures Inv(h, Run(h, s, actions)) && Run(h, s, actions).db.tail.Some?
    ensures LostAttempts(Run(h, s, actions), w) <= LostAttempts(s, w) + OthersCommitted(h, s, actions, w)
    decreases |actions|
  {
    hide Inv, Step, LostAttempts, OtherCommits, Grows;
    if actions != [] {
      var n := |actions| - 1;
      var before, a := Run(h, s, actions[..n]), actions[n];
      LostToOthers(h, s, actions[..n], w);
      StepInv(h, before, a);
      TailStays(before.db, before.history, Step(h, before, a).db, Step(h, before, a).history);
      if a.w == w {
        OwnStep(h, before, a);
      } else {
        OtherStep(h, before, a, w);
      }
    }
  }

  lemma TailStays(db: Db, history: seq<Row>, db': Db, history': seq<Row>)
    requires Grows(db, history, db', history') && db.tail.Some?
    ensures db'.tail.Some?
  {
  }

  /** The tenth attempt of the call is lost, and Append returns an error. */
  predicate GivesUp(s: System, a: Action) {
    && a.AppendCommit? && WorkerOf(s, a.w).Appending?
    && CommitAppend(s.db, WorkerOf(s, a.w).view).None? && WorkerOf(s, a.w).attempt + 1 >= MAX_ATTEMPTS
  }

  /** An appender gives up only when at least ten other appends have committed since it began. */
  lemma GivesUpOnlyBehindTen(h: Hash, s: System, actions: seq<Action>, a: Action)
    requires Inv(h, s) && s.db.tail.Some? && WorkerOf(s, a.w).Idle?
    requires GivesUp(Run(h, s, actions), a)
    ensures OthersCommitted(h, s, actions, a.w) >= 10
  {
    hide Inv, Run, CommitAppend;
    LostToOthers(h, s, actions, a.w);
    LostIsStale(h, Run(h, s, actions), a.w);
  }
}
