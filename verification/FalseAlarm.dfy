/** The store's calls without interruption, and a run on which the verifier reports an untampered store as broken. */
module FalseAlarm {
  import opened Chain
  import opened Options
  import opened ArchiveFile
  import opened AuditSteps
  import opened AuditRuns
  import opened AuditBatches
  import AuditStore
  import opened Verify
  import opened NoFalseAlarm

  lemma LastAction(h: Hash, s: System, actions: seq<Action>, a: Action)
    ensures Run(h, s, actions + [a]) == Step(h, Run(h, s, actions), a)
  {
    assert (actions + [a])[..|actions|] == actions;
  }

  lemma TwoActions(h: Hash, s: System, a: Action, b: Action)
    ensures Run(h, s, [a, b]) == Step(h, Step(h, s, a), b)
  {
    hide Step;
    LastAction(h, s, [], a);
    LastAction(h, s, [a], b);
    assert [] + [a] == [a] && [a] + [b] == [a, b];
  }

  lemma {:induction false} RunOfConcat(h: Hash, s: System, a: seq<Action>, b: seq<Action>)
    ensures Run(h, s, a + b) == Run(h, Run(h, s, a), b)
    decreases |b|
  {
    hide Step;
    if b == [] {
      assert a + b == a;
    } else {
      var n := |b| - 1;
      RunOfConcat(h, s, a, b[..n]);
      assert (a + b)[..|a| + n] == a + b[..n] && (a + b)[|a| + n] == b[n];
    }
  }

  /** An append that nobody interrupts: its read and its commit. */
  function AppendActions(w: nat, batch: seq<Content>): seq<Action> {
    [AppendRead(w, batch), AppendCommit(w)]
  }

  /** Uninterrupted, the two statements of an append do what AppendAlone says. */
  lemma UninterruptedAppend(h: Hash, s: System, w: nat, batch: seq<Content>)
    requires WorkerOf(s, w).Idle? && batch != [] && AppendAlone(h, s.db, batch).Some?
    ensures var s' := Run(h, s, AppendActions(w, batch));
            && s'.db == AppendAlone(h, s.db, batch).value.0 && s'.files == s.files && WorkerOf(s', w).Idle?
            && |s'.history| == |s.history| + AppendAlone(h, s.db, batch).value.1
  {
    hide ReadAppend, CommitAppend, Run;
    TwoActions(h, s, AppendRead(w, batch), AppendCommit(w));
  }

  /** An archiver that nobody interrupts. */
  function ArchiveActions(w: nat, cutoff: int, micro: int): seq<Action> {
    [ ArchiveReadSegment(w, cutoff), ArchiveReadTail(w), ArchiveReadKeep(w), ArchiveReadRows(w, micro),
      ArchiveWriteFile(w), ArchiveCommit(w) ]
  }

  /** Where the four reads leave the archiver. */
  function AfterReads(h: Hash, s: System, cutoff: int, micro: int): Worker {
    var start := StartAfter(LastSegment(s.db));
    if s.db.tail.None? then Idle
    else
      var last := SegmentEnd(start.first, s.db.tail.value.seqNo, FirstKeep(s.db.live, start.first, cutoff));
      if last < start.first then Idle else ReadRows(h, s, start, last, micro)
  }

  lemma ArchiveReads(h: Hash, s: System, w: nat, cutoff: int, micro: int)
    requires WorkerOf(s, w).Idle?
    ensures var a := ArchiveActions(w, cutoff, micro);
            var s' := Run(h, Run(h, s, [a[0], a[1]]), [a[2], a[3]]);
            && s'.db == s.db && s'.files == s.files && s'.history == s.history
            && WorkerOf(s', w) == AfterReads(h, s, cutoff, micro)
            && (WorkerOf(s', w).Idle? || WorkerOf(s', w).Planned?)
  {
    hide Run, MayArchive, MakePlan, FirstKeep, SegmentEnd, StartAfter, Between;
    var a := ArchiveActions(w, cutoff, micro);
    TwoActions(h, s, a[0], a[1]);
    TwoActions(h, Run(h, s, [a[0], a[1]]), a[2], a[3]);
  }

  lemma ArchiveWrites(h: Hash, s: System, w: nat)
    requires WorkerOf(s, w).Idle? || WorkerOf(s, w).Planned?
    ensures var s' := Run(h, s, [ArchiveWriteFile(w), ArchiveCommit(w)]);
            && WorkerOf(s', w).Idle? && s'.history == s.history
            && (WorkerOf(s, w).Idle? ==> s'.db == s.db && s'.files == s.files)
            && (WorkerOf(s, w).Planned? ==>
                  var p := WorkerOf(s, w).plan;
                  && s'.files == s.files[p.seg.fileName := FileBytes(p.start, p.last, p.rows)]
                  && s'.db == if CommitArchive(s.db, p).Some? then CommitArchive(s.db, p).value else s.db)
  {
    hide Run, CommitArchive, FileBytes;
    TwoActions(h, s, ArchiveWriteFile(w), ArchiveCommit(w));
  }

  /** Uninterrupted, the six statements of archiveOne do what ArchiveOne says. */
  lemma UninterruptedArchive(h: Hash, s: System, w: nat, cutoff: int, micro: int)
    requires WorkerOf(s, w).Idle?
    ensures var s', step := Run(h, s, ArchiveActions(w, cutoff, micro)), ArchiveOne(h, s.db, s.files, cutoff, micro);
            s'.db == step.db && s'.files == step.files && s'.history == s.history && WorkerOf(s', w).Idle?
  {
    hide Run, MayArchive, MakePlan, FirstKeep, SegmentEnd, CommitArchive, FileBytes, StartAfter, Between;
    var a := ArchiveActions(w, cutoff, micro);
    ArchiveReads(h, s, w, cutoff, micro);
    ArchiveWrites(h, Run(h, Run(h, s, [a[0], a[1]]), [a[2], a[3]]), w);
    RunOfConcat(h, s, [a[0], a[1]], [a[2], a[3]]);
    RunOfConcat(h, s, [a[0], a[1]] + [a[2], a[3]], [a[4], a[5]]);
    assert a == [a[0], a[1]] + [a[2], a[3]] + [a[4], a[5]];
    PlanPartsAre(h);
  }

  lemma PlanPartsAre(h: Hash)
    ensures forall start: Start, last: int, rows: seq<Row>, micro: int ::
              var p := MakePlan(h, start, last, rows, micro);
              p.start == start && p.last == last && p.rows == rows
  {
    hide FileName, FileBytes, ComputeSegmentHash;
  }

  // ---------- a false alarm ----------

  /** A process starts and appends one event. */
  function FirstEvent(c: Content): seq<Action> {
    [EnsureRead(0), EnsureCommit(0)] + AppendActions(0, [c])
  }

  /** Then the retention job archives it. */
  function Retention(c: Content): seq<Action> {
    ArchiveActions(0, c.tsMicro + 1, 0)
  }

  lemma TailCreated(h: Hash)
    ensures var s := Run(h, INITIAL, [EnsureRead(0), EnsureCommit(0)]);
            s.db == Db([], [], Some(Tail(0, GENESIS_HASH))) && s.history == [] && WorkerOf(s, 0).Idle?
  {
    hide Run;
    TwoActions(h, INITIAL, EnsureRead(0), EnsureCommit(0));
  }

  lemma FirstEventStored(h: Hash, c: Content)
    ensures var s := Run(h, INITIAL, FirstEvent(c));
            && |s.history| == 1 && s.db.segments == [] && s.db.tail.Some? && WorkerOf(s, 0).Idle?
            && |s.db.live| == 1 && s.db.live[0].content == c && Consistent(h, s.db, s.history)
  {
    hide Run, AppendAlone, FirstOccurrences.Fresh, Extend;
    var s := Run(h, INITIAL, [EnsureRead(0), EnsureCommit(0)]);
    TailCreated(h);
    InitialInv(h);
    RunInv(h, INITIAL, [EnsureRead(0), EnsureCommit(0)]);
    RunInv(h, INITIAL, FirstEvent(c));
    AppendAloneMeaning(h, s.db, s.history, [c]);
    assert FirstOccurrences.Fresh(EventId, LiveIds([]), [c]) == [c] by { OneIsFresh(c); }
    ExtendLinked(h, 0, GENESIS_HASH, [c]);
    UninterruptedAppend(h, s, 0, [c]);
    RunOfConcat(h, INITIAL, [EnsureRead(0), EnsureCommit(0)], AppendActions(0, [c]));
  }

  lemma OneIsFresh(c: Content)
    ensures FirstOccurrences.Fresh(EventId, LiveIds([]), [c]) == [c]
  {
    assert [c][..0] == [];
  }

  /** Neither anchors nor archive files are checked. */
  const PLAIN := VerifyOptions([], None, false, 0)

  lemma PlainVerdict(h: Hash, a: seq<Action>, c: seq<Action>)
    ensures var s0 := Run(h, INITIAL, a);
            var s1 := Run(h, s0, c);
            var n, k1 := |s0.history|, ArchivedThrough(s0.db.segments);
            Verdict(h, s0.db.tail, s0.db.segments, Between(s1.db.live, k1 + 1, n), PLAIN).Valid()
            <==> Undisturbed(n, k1, ArchivedThrough(s1.db.segments))
  {
    hide Run, Verdict, Between;
    NoActions(h, Run(h, INITIAL, a));
    VerdictOnRun(h, a, [], c, PLAIN);
  }

  lemma BothRuns(h: Hash, c: Content)
    ensures var s0 := Run(h, INITIAL, FirstEvent(c));
            var s1 := Run(h, s0, Retention(c));
            && Inv(h, s0) && Inv(h, s1) && s1.history == s0.history && |s0.history| == 1
            && ArchivedThrough(s0.db.segments) == 0 && ArchivedThrough(s1.db.segments) == 1
  {
    hide Run, AuditStore.ExpiredPrefix, ArchiveOne, FirstEvent, Retention, Inv;
    var s0 := Run(h, INITIAL, FirstEvent(c));
    FirstEventStored(h, c);
    InitialInv(h);
    RunInv(h, INITIAL, FirstEvent(c));
    RunInv(h, s0, Retention(c));
    assert Retention(c) == ArchiveActions(0, c.tsMicro + 1, 0) by { RetentionActions(c); }
    UninterruptedArchive(h, s0, 0, c.tsMicro + 1, 0);
    AuditStore.PrefixIsUnique(s0.db.live, c.tsMicro + 1, 1);
    AuditStore.ArchiveOneMeaning(h, s0.db, s0.history, s0.files, c.tsMicro + 1, 0);
    EverythingArchived(h, Run(h, s0, Retention(c)));
  }

  lemma RetentionActions(c: Content)
    ensures Retention(c) == ArchiveActions(0, c.tsMicro + 1, 0)
  {
  }

  /**
   One event, archived between the verifier's segment read and its row read: nothing was tampered with, the same
   reads a moment earlier are reported valid, and these are reported broken.
   */
  lemma ArchiveBetweenReads(h: Hash, c: Content)
    ensures var s0 := Run(h, INITIAL, FirstEvent(c));
            var s1 := Run(h, s0, Retention(c));
            && Inv(h, s0) && Inv(h, s1)
            && Verdict(h, s0.db.tail, s0.db.segments, Between(s0.db.live, 1, 1), PLAIN).Valid()
            && !Verdict(h, s0.db.tail, s0.db.segments, Between(s1.db.live, 1, 1), PLAIN).Valid()
            && Verdict(h, s1.db.tail, s1.db.segments, Between(s1.db.live, 2, 1), PLAIN).Valid()
  {
    hide Run, Verdict, Between, FirstEvent, Retention, Inv;
    var s0 := Run(h, INITIAL, FirstEvent(c));
    BothRuns(h, c);
    NoActions(h, s0);
    NoActions(h, Run(h, s0, Retention(c)));
    PlainVerdict(h, FirstEvent(c), []);
    PlainVerdict(h, FirstEvent(c), Retention(c));
    RunOfConcat(h, INITIAL, FirstEvent(c), Retention(c));
    PlainVerdict(h, FirstEvent(c) + Retention(c), []);
  }

  lemma EverythingArchived(h: Hash, s: System)
    requires Inv(h, s) && s.db.live == []
    ensures ArchivedThrough(s.db.segments) == |s.history|
  {
  }
}
