/**
 Every interleaving of any number of appenders, archivers and tail initialisers. A worker is one call in
 progress; each action is one statement or one transaction of it, and a worker may die between any two.
 */
module AuditRuns {
  import opened ByteStrings
  import opened Chain
  import opened Options
  import opened ArchiveFile
  import opened AuditSteps

  const MAX_ATTEMPTS := 10

  datatype Worker =
    | Idle
    | Ensuring(derived: Tail)
    | Appending(batch: seq<Content>, attempt: nat, view: AppendView)
    | Retrying(batch: seq<Content>, attempt: nat)
    | KnowsStart(cutoff: int, start: Start)
    | KnowsTail(cutoff: int, start: Start, tailSeq: int)
    | KnowsEnd(start: Start, last: int)
    | Planned(plan: Plan)
    | Written(plan: Plan)

  /** `history` is auxiliary: the rows ever committed, in order. */
  datatype System = System(db: Db, files: map<Bytes, Bytes>, history: seq<Row>, workers: map<nat, Worker>)

  datatype Action =
    | EnsureRead(w: nat)
    | EnsureCommit(w: nat)
    | AppendRead(w: nat, batch: seq<Content>)
    | AppendRetry(w: nat)
    | AppendCommit(w: nat)
    | ArchiveReadSegment(w: nat, cutoff: int)
    | ArchiveReadTail(w: nat)
    | ArchiveReadKeep(w: nat)
    | ArchiveReadRows(w: nat, archiveMicro: int)
    | ArchiveWriteFile(w: nat)
    | ArchiveCommit(w: nat)
    | Crash(w: nat)

  function WorkerOf(s: System, w: nat): Worker {
    if w in s.workers then s.workers[w] else Idle
  }

  /** A lost append is retried, nine times at most. */
  function AfterLostAppend(batch: seq<Content>, attempt: nat): Worker {
    if attempt + 1 < MAX_ATTEMPTS then Retrying(batch, attempt + 1) else Idle
  }

  function StartAppend(h: Hash, s: System, batch: seq<Content>, attempt: nat): Worker {
    match ReadAppend(h, s.db, batch)
    case None => AfterLostAppend(batch, attempt)
    case Some(v) => Appending(batch, attempt, v)
  }

  function ReadRows(h: Hash, s: System, start: Start, last: int, archiveMicro: int): Worker {
    var rows := Between(s.db.live, start.first, last);
    if MayArchive(h, start, last, rows) then Planned(MakePlan(h, start, last, rows, archiveMicro)) else Idle
  }

  /** What an action makes of its worker. An action that does not fit the worker does nothing. */
  function NextWorker(h: Hash, s: System, a: Action): Worker {
    match (a, WorkerOf(s, a.w))
    case (EnsureRead(_), Idle) => if s.db.tail.None? then Ensuring(DeriveTail(s.db)) else Idle
    case (EnsureCommit(_), Ensuring(_)) => Idle
    case (AppendRead(_, batch), Idle) => if batch == [] then Idle else StartAppend(h, s, batch, 0)
    case (AppendRetry(_), Retrying(batch, attempt)) => StartAppend(h, s, batch, attempt)
    case (AppendCommit(_), Appending(batch, attempt, v)) =>
      if CommitAppend(s.db, v).Some? then Idle else AfterLostAppend(batch, attempt)
    case (ArchiveReadSegment(_, cutoff), Idle) => KnowsStart(cutoff, StartAfter(LastSegment(s.db)))
    case (ArchiveReadTail(_), KnowsStart(cutoff, start)) =>
      if s.db.tail.None? then Idle else KnowsTail(cutoff, start, s.db.tail.value.seqNo)
    case (ArchiveReadKeep(_), KnowsTail(cutoff, start, tailSeq)) =>
      var last := SegmentEnd(start.first, tailSeq, FirstKeep(s.db.live, start.first, cutoff));
      if last < start.first then Idle else KnowsEnd(start, last)
    case (ArchiveReadRows(_, micro), KnowsEnd(start, last)) => ReadRows(h, s, start, last, micro)
    case (ArchiveWriteFile(_), Planned(p)) => Written(p)
    case (ArchiveCommit(_), Written(p)) => Idle
    case (Crash(_), _) => Idle
    case (_, worker) => worker
  }

  /** What it makes of the shared state. */
  function NextDb(s: System, a: Action): Db {
    match (a, WorkerOf(s, a.w))
    case (EnsureCommit(_), Ensuring(t)) => CommitTail(s.db, t)
    case (AppendCommit(_), Appending(_, _, v)) =>
      if CommitAppend(s.db, v).Some? then CommitAppend(s.db, v).value else s.db
    case (ArchiveCommit(_), Written(p)) =>
      if CommitArchive(s.db, p).Some? then CommitArchive(s.db, p).value else s.db
    case _ => s.db
  }

  function NextHistory(s: System, a: Action): seq<Row> {
    match (a, WorkerOf(s, a.w))
    case (AppendCommit(_), Appending(_, _, v)) =>
      if CommitAppend(s.db, v).Some? then s.history + v.out else s.history
    case _ => s.history
  }

  function NextFiles(s: System, a: Action): map<Bytes, Bytes> {
    match (a, WorkerOf(s, a.w))
    case (ArchiveWriteFile(_), Planned(p)) => s.files[p.seg.fileName := FileBytes(p.start, p.last, p.rows)]
    case _ => s.files
  }

  function Step(h: Hash, s: System, a: Action): System {
    System(NextDb(s, a), NextFiles(s, a), NextHistory(s, a), s.workers[a.w := NextWorker(h, s, a)])
  }

  function Run(h: Hash, s: System, actions: seq<Action>): System {
    if actions == [] then s
    else Step(h, Run(h, s, actions[..|actions| - 1]), actions[|actions| - 1])
  }

  /** An empty database, before the first process has started. */
  const INITIAL := System(Db([], [], None), map[], [], map[])

  // ---------- the invariant ----------

  /** What a call in progress knows, at any time after it learnt it. */
  predicate WorkerOk(h: Hash, db: Db, history: seq<Row>, worker: Worker) {
    match worker
    case Idle => true
    case Ensuring(t) => db.tail.None? ==> t == TailOf(history)
    case Appending(_, attempt, v) => attempt < MAX_ATTEMPTS && db.tail.Some? && ViewOk(h, db, history, v)
    case Retrying(_, attempt) => attempt < MAX_ATTEMPTS
    case KnowsStart(_, start) => StartOk(db.segments, history, start)
    case KnowsTail(_, start, tailSeq) => StartOk(db.segments, history, start) && 0 <= tailSeq <= |history|
    case KnowsEnd(start, last) =>
      && StartOk(db.segments, history, start) && start.first <= last <= |history|
      && last - start.first < MAX_SEGMENT_ROWS
    case Planned(p) => PlanOk(h, db.segments, history, p)
    case Written(p) => PlanOk(h, db.segments, history, p)
  }

  /** The file of a range of history, as everyone who archives that range writes it. */
  function RangeBytes(history: seq<Row>, first: int, last: int): Bytes
    requires 1 <= first <= last <= |history|
  {
    ArchiveBytes(history[first - 1..last], first, last, HashBefore(history, first - 1, GENESIS_HASH))
  }

  predicate HoldsRange(files: map<Bytes, Bytes>, history: seq<Row>, first: int, last: int)
    requires 1 <= first <= last <= |history|
  {
    FileName(first, last) in files && files[FileName(first, last)] == RangeBytes(history, first, last)
  }

  predicate SegmentsFiled(segments: seq<Segment>, files: map<Bytes, Bytes>, history: seq<Row>) {
    forall i :: 0 <= i < |segments| ==>
      var s := segments[i];
      1 <= s.firstSeq <= s.lastSeq <= |history| && HoldsRange(files, history, s.firstSeq, s.lastSeq)
  }

  /** An archiver about to commit has its file in the directory. */
  predicate Filed(files: map<Bytes, Bytes>, history: seq<Row>, worker: Worker) {
    worker.Written? ==>
      var p := worker.plan;
      1 <= p.start.first <= p.last <= |history| && HoldsRange(files, history, p.start.first, p.last)
  }

  predicate WorkersOk(h: Hash, s: System) {
    forall w :: w in s.workers ==>
      WorkerOk(h, s.db, s.history, s.workers[w]) && Filed(s.files, s.history, s.workers[w])
  }

  predicate Inv(h: Hash, s: System) {
    && Consistent(h, s.db, s.history)
    && (s.db.tail.None? ==> s.history == [])
    && SegmentsFiled(s.db.segments, s.files, s.history)
    && WorkersOk(h, s)
  }

  // ---------- what other workers may rely on ----------

  /** The shared state only moves forward: history and segments grow, the tail row stays. */
  predicate Grows(db: Db, history: seq<Row>, db': Db, history': seq<Row>) {
    && history <= history'
    && db.segments <= db'.segments
    && (db.tail.Some? ==> db'.tail.Some?)
    && (db'.tail.None? ==> history' == history)
    && (|history'| == |history| ==> LiveIds(db'.live) <= LiveIds(db.live))
  }

  lemma HashBeforePrefix(history: seq<Row>, history': seq<Row>, n: nat)
    requires history <= history' && n <= |history|
    ensures HashBefore(history', n, GENESIS_HASH) == HashBefore(history, n, GENESIS_HASH)
  {
  }

  lemma StartOkStable(db: Db, history: seq<Row>, db': Db, history': seq<Row>, start: Start)
    requires Grows(db, history, db', history') && StartOk(db.segments, history, start)
    ensures StartOk(db'.segments, history', start)
  {
    HashBeforePrefix(history, history', start.first - 1);
  }

  lemma WorkerOkStable(h: Hash, db: Db, history: seq<Row>, db': Db, history': seq<Row>, worker: Worker)
    requires Grows(db, history, db', history') && WorkerOk(h, db, history, worker)
    ensures WorkerOk(h, db', history', worker)
  {
    hide StartOk, MakePlan, Linked, DistinctIds;
    match worker
    case Appending(_, _, v) => HashBeforePrefix(history, history', v.tail.seqNo);
    case KnowsStart(_, start) => StartOkStable(db, history, db', history', start);
    case KnowsTail(_, start, _) => StartOkStable(db, history, db', history', start);
    case KnowsEnd(start, _) => StartOkStable(db, history, db', history', start);
    case Planned(p) => PlanOkStable(h, db, history, db', history', p);
    case Written(p) => PlanOkStable(h, db, history, db', history', p);
    case _ =>
  }

  lemma PlanOkStable(h: Hash, db: Db, history: seq<Row>, db': Db, history': seq<Row>, p: Plan)
    requires Grows(db, history, db', history') && PlanOk(h, db.segments, history, p)
    ensures PlanOk(h, db'.segments, history', p)
  {
    hide MakePlan;
    StartOkStable(db, history, db', history', p.start);
    assert history'[p.start.first - 1..p.last] == history[p.start.first - 1..p.last];
  }

  lemma RangeBytesStable(files: map<Bytes, Bytes>, history: seq<Row>, history': seq<Row>, first: int, last: int)
    requires history <= history' && 1 <= first <= last <= |history|
    ensures HoldsRange(files, history', first, last) == HoldsRange(files, history, first, last)
  {
    hide ArchiveBytes;
    HashBeforePrefix(history, history', first - 1);
    assert history'[first - 1..last] == history[first - 1..last];
  }

  /** Racing archivers of the same range write the same bytes under the same name. */
  lemma PlannedBytes(h: Hash, segments: seq<Segment>, history: seq<Row>, p: Plan)
    requires PlanOk(h, segments, history, p)
    ensures p.seg.fileName == FileName(p.start.first, p.last)
    ensures FileBytes(p.start, p.last, p.rows) == RangeBytes(history, p.start.first, p.last)
  {
    hide ArchiveBytes, FileName;
  }

  /** So writing a file never changes what the directory holds for any range. */
  lemma WriteKeepsRanges(h: Hash, segments: seq<Segment>, history: seq<Row>, files: map<Bytes, Bytes>, p: Plan,
                         first: int, last: int)
    requires PlanOk(h, segments, history, p)
    requires 1 <= first <= last <= |history| && HoldsRange(files, history, first, last)
    ensures HoldsRange(files[p.seg.fileName := FileBytes(p.start, p.last, p.rows)], history, first, last)
  {
    hide FileName, ArchiveBytes;
    PlannedBytes(h, segments, history, p);
    if FileName(first, last) == p.seg.fileName {
      FileNameInjective(first, last, p.start.first, p.last);
    }
  }

  // ---------- every step keeps the invariant ----------

  lemma CommitAppendGrows(h: Hash, db: Db, history: seq<Row>, v: AppendView)
    requires Consistent(h, db, history) && ViewOk(h, db, history, v) && CommitAppend(db, v).Some? && db.tail.Some?
    ensures Grows(db, history, CommitAppend(db, v).value, history + v.out)
  {
    hide Linked, SegmentsOf, DistinctIds, ViewOk, Clash;
    if v.out == [] {
      assert history + v.out == history;
    }
  }

  lemma CommitArchiveGrows(h: Hash, db: Db, history: seq<Row>, p: Plan)
    requires Consistent(h, db, history) && PlanOk(h, db.segments, history, p) && CommitArchive(db, p).Some?
    ensures Grows(db, history, CommitArchive(db, p).value, history)
  {
    ArchivedIdsShrink(h, db, history, p);
    hide Consistent, PlanOk, Between, Without, SegmentClash;
  }

  lemma StepShared(h: Hash, s: System, a: Action)
    requires Inv(h, s)
    ensures Consistent(h, NextDb(s, a), NextHistory(s, a))
    ensures NextDb(s, a).tail.None? ==> NextHistory(s, a) == []
    ensures Grows(s.db, s.history, NextDb(s, a), NextHistory(s, a))
  {
    hide Consistent, ViewOk, PlanOk, StartOk, CommitAppend, CommitArchive, CommitTail, SegmentsFiled, Filed, Grows;
    var worker := WorkerOf(s, a.w);
    assert WorkerOk(h, s.db, s.history, worker);
    StaysPut(s.db, s.history);
    match (a, worker)
    case (EnsureCommit(_), Ensuring(t)) =>
      CommitTailKeeps(h, s.db, s.history, t);
    case (AppendCommit(_), Appending(_, _, v)) =>
      if CommitAppend(s.db, v).Some? {
        CommitAppendKeeps(h, s.db, s.history, v);
        CommitAppendGrows(h, s.db, s.history, v);
        assert CommitAppend(s.db, v).value.tail.Some? by { KeepsTail(s.db, v); }
      }
    case (ArchiveCommit(_), Written(p)) =>
      if CommitArchive(s.db, p).Some? {
        CommitArchiveKeeps(h, s.db, s.history, p);
        CommitArchiveGrows(h, s.db, s.history, p);
        assert CommitArchive(s.db, p).value.tail == s.db.tail by { ArchiveKeepsTail(s.db, p); }
      }
    case _ =>
  }

  lemma StaysPut(db: Db, history: seq<Row>)
    ensures Grows(db, history, db, history)
  {
  }

  lemma KeepsTail(db: Db, v: AppendView)
    requires CommitAppend(db, v).Some? && db.tail.Some?
    ensures CommitAppend(db, v).value.tail.Some?
  {
  }

  lemma ArchiveKeepsTail(db: Db, p: Plan)
    requires CommitArchive(db, p).Some?
    ensures CommitArchive(db, p).value.tail == db.tail
  {
  }

  lemma CommitTailKeeps(h: Hash, db: Db, history: seq<Row>, t: Tail)
    requires Consistent(h, db, history) && (db.tail.None? ==> t == TailOf(history) && history == [])
    ensures Consistent(h, CommitTail(db, t), history) && CommitTail(db, t).tail.Some?
    ensures Grows(db, history, CommitTail(db, t), history)
  {
    hide Linked, SegmentsOf, DistinctIds;
  }

  lemma ArchivedIdsShrink(h: Hash, db: Db, history: seq<Row>, p: Plan)
    requires Consistent(h, db, history) && PlanOk(h, db.segments, history, p) && CommitArchive(db, p).Some?
    ensures LiveIds(CommitArchive(db, p).value.live) <= LiveIds(db.live)
  {
    hide Linked, SegmentsOf, DistinctIds, MakePlan;
    CommitArchiveIff(h, db, history, p);
    var k := ArchivedThrough(db.segments);
    forall i | 0 <= i < |history[p.last..]| ensures history[p.last..][i].content.eventId in LiveIds(db.live) {
      assert db.live[p.last + i - k] == history[p.last..][i];
    }
  }

  lemma StartAppendOk(h: Hash, s: System, batch: seq<Content>, attempt: nat)
    requires Inv(h, s) && attempt < MAX_ATTEMPTS
    ensures WorkerOk(h, s.db, s.history, StartAppend(h, s, batch, attempt))
  {
    hide Consistent, ViewOk;
    if s.db.tail.Some? {
      ReadAppendOk(h, s.db, s.history, batch);
    }
  }

  lemma ReadRowsOk(h: Hash, s: System, start: Start, last: int, micro: int)
    requires Inv(h, s) && WorkerOk(h, s.db, s.history, KnowsEnd(start, last))
    ensures WorkerOk(h, s.db, s.history, ReadRows(h, s, start, last, micro))
  {
    hide Consistent, PlanOk, StartOk, MakePlan, MayArchive, Between, SegmentsFiled, WorkersOk;
    var rows := Between(s.db.live, start.first, last);
    if MayArchive(h, start, last, rows) {
      CheckedRowsAreHistory(h, s.db, s.history, start, last);
      MadePlanIsOk(h, s.db.segments, s.history, start, last, micro);
    }
  }

  lemma MadePlanIsOk(h: Hash, segments: seq<Segment>, history: seq<Row>, start: Start, last: int, micro: int)
    requires StartOk(segments, history, start) && start.first <= last <= |history|
    requires last - start.first < MAX_SEGMENT_ROWS
    ensures PlanOk(h, segments, history, MakePlan(h, start, last, history[start.first - 1..last], micro))
  {
    hide StartOk, FileBytes, FileName, ComputeSegmentHash;
  }

  lemma ReadKeepOk(h: Hash, s: System, start: Start, tailSeq: int, cutoff: int)
    requires Inv(h, s) && StartOk(s.db.segments, s.history, start) && 0 <= tailSeq <= |s.history|
    ensures var last := SegmentEnd(start.first, tailSeq, FirstKeep(s.db.live, start.first, cutoff));
            last <= |s.history| && last - start.first < MAX_SEGMENT_ROWS
  {
    hide SegmentsOf, DistinctIds, SegmentsFiled, WorkersOk, FirstKeep, StartOk, LinkedAt;
    LinkedNumbered(h, s.history, 1, GENESIS_HASH);
    var k := ArchivedThrough(s.db.segments);
    assert Numbered(s.db.live, k + 1);
    FirstKeepMeaning(s.db.live, k + 1, start.first, cutoff);
  }

  lemma NextWorkerOk(h: Hash, s: System, a: Action)
    requires Inv(h, s)
    ensures WorkerOk(h, NextDb(s, a), NextHistory(s, a), NextWorker(h, s, a))
  {
    hide Consistent, ViewOk, PlanOk, StartOk, FirstKeep, SegmentEnd, StartAppend, ReadRows, CommitAppend, CommitArchive;
    var worker := WorkerOf(s, a.w);
    assert WorkerOk(h, s.db, s.history, worker);
    StepShared(h, s, a);
    WorkerOkStable(h, s.db, s.history, NextDb(s, a), NextHistory(s, a), worker);
    match (a, worker)
    case (EnsureRead(_), Idle) => DeriveTailOk(h, s.db, s.history);
    case (AppendRead(_, batch), Idle) => StartAppendOk(h, s, batch, 0);
    case (AppendRetry(_), Retrying(batch, attempt)) => StartAppendOk(h, s, batch, attempt);
    case (ArchiveReadSegment(_, _), Idle) => StartAfterOk(h, s.db, s.history);
    case (ArchiveReadTail(_), KnowsStart(_, _)) => TailSeqOk(h, s);
    case (ArchiveReadKeep(_), KnowsTail(cutoff, start, tailSeq)) => ReadKeepOk(h, s, start, tailSeq, cutoff);
    case (ArchiveReadRows(_, micro), KnowsEnd(start, last)) => ReadRowsOk(h, s, start, last, micro);
    case _ =>
  }

  lemma TailSeqOk(h: Hash, s: System)
    requires Inv(h, s)
    ensures s.db.tail.Some? ==> s.db.tail.value.seqNo == |s.history|
  {
  }

  lemma FilesStep(h: Hash, s: System, a: Action, first: int, last: int)
    requires Inv(h, s) && 1 <= first <= last <= |s.history| && HoldsRange(s.files, s.history, first, last)
    ensures s.history <= NextHistory(s, a) && HoldsRange(NextFiles(s, a), NextHistory(s, a), first, last)
  {
    hide Consistent, HoldsRange, PlanOk;
    StepShared(h, s, a);
    var worker := WorkerOf(s, a.w);
    assert WorkerOk(h, s.db, s.history, worker);
    if a.ArchiveWriteFile? && worker.Planned? {
      WriteKeepsRanges(h, s.db.segments, s.history, s.files, worker.plan, first, last);
    } else {
      RangeBytesStable(s.files, s.history, NextHistory(s, a), first, last);
    }
  }

  lemma StepSegmentsFiled(h: Hash, s: System, a: Action)
    requires Inv(h, s)
    ensures SegmentsFiled(NextDb(s, a).segments, NextFiles(s, a), NextHistory(s, a))
  {
    hide Consistent, HoldsRange, MakePlan;
    var worker := WorkerOf(s, a.w);
    assert WorkerOk(h, s.db, s.history, worker);
    var db', files', history' := NextDb(s, a), NextFiles(s, a), NextHistory(s, a);
    forall i | 0 <= i < |db'.segments|
      ensures var seg := db'.segments[i];
              1 <= seg.firstSeq <= seg.lastSeq <= |history'| && HoldsRange(files', history', seg.firstSeq, seg.lastSeq)
    {
      if i < |s.db.segments| {
        FilesStep(h, s, a, s.db.segments[i].firstSeq, s.db.segments[i].lastSeq);
      } else {
        PlanRange(h, s.db.segments, s.history, worker.plan);
      }
    }
  }

  lemma PlanRange(h: Hash, segments: seq<Segment>, history: seq<Row>, p: Plan)
    requires PlanOk(h, segments, history, p)
    ensures p.seg.firstSeq == p.start.first && p.seg.lastSeq == p.last && 1 <= p.start.first <= p.last <= |history|
  {
  }

  lemma FiledStep(h: Hash, s: System, a: Action, worker: Worker)
    requires Inv(h, s) && Filed(s.files, s.history, worker)
    ensures Filed(NextFiles(s, a), NextHistory(s, a), worker)
  {
    hide Consistent, HoldsRange, NextFiles, NextHistory, WorkersOk, SegmentsFiled;
    if worker.Written? {
      FilesStep(h, s, a, worker.plan.start.first, worker.plan.last);
    }
  }

  lemma OwnFiled(h: Hash, s: System, a: Action)
    requires Inv(h, s)
    ensures Filed(NextFiles(s, a), NextHistory(s, a), NextWorker(h, s, a))
  {
    hide Consistent, PlanOk, SegmentsFiled, FileName, FileBytes, ArchiveBytes;
    var worker := WorkerOf(s, a.w);
    assert WorkerOk(h, s.db, s.history, worker) && Filed(s.files, s.history, worker);
    FiledStep(h, s, a, worker);
    if a.ArchiveWriteFile? && worker.Planned? {
      PlannedBytes(h, s.db.segments, s.history, worker.plan);
      PlanRange(h, s.db.segments, s.history, worker.plan);
    }
  }

  lemma StepWorkersOk(h: Hash, s: System, a: Action)
    requires Inv(h, s)
    ensures WorkersOk(h, Step(h, s, a))
  {
    hide Consistent, Filed, WorkerOk, NextWorker, NextDb, NextFiles, NextHistory, Grows, SegmentsFiled;
    var s' := Step(h, s, a);
    StepShared(h, s, a);
    forall w | w in s'.workers
      ensures WorkerOk(h, s'.db, s'.history, s'.workers[w]) && Filed(s'.files, s'.history, s'.workers[w])
    {
      if w == a.w {
        NextWorkerOk(h, s, a);
        OwnFiled(h, s, a);
      } else {
        WorkerOkStable(h, s.db, s.history, s'.db, s'.history, s.workers[w]);
        FiledStep(h, s, a, s.workers[w]);
      }
    }
  }

  lemma StepInv(h: Hash, s: System, a: Action)
    requires Inv(h, s)
    ensures Inv(h, Step(h, s, a))
    ensures Grows(s.db, s.history, Step(h, s, a).db, Step(h, s, a).history)
  {
    hide Consistent, NextWorker, NextDb, NextFiles, NextHistory, Grows, SegmentsFiled, WorkersOk;
    StepShared(h, s, a);
    StepSegmentsFiled(h, s, a);
    StepWorkersOk(h, s, a);
  }

  lemma InitialInv(h: Hash)
    ensures Inv(h, INITIAL)
  {
  }

  /** Every interleaving of reads and commits keeps the invariant and only extends the history. */
  lemma {:induction false} RunInv(h: Hash, s: System, actions: seq<Action>)
    requires Inv(h, s)
    ensures Inv(h, Run(h, s, actions))
    ensures s.history <= Run(h, s, actions).history && s.db.segments <= Run(h, s, actions).db.segments
    decreases |actions|
  {
    hide Inv, Step;
    if actions != [] {
      var n := |actions| - 1;
      RunInv(h, s, actions[..n]);
      StepInv(h, Run(h, s, actions[..n]), actions[n]);
    }
  }
}
