/** Replay on a reachable database: it ends, and everything that was spooled is then in the chain. */
module DeliveryReplay {
  import opened Chain
  import opened FirstOccurrences
  import opened Options
  import opened ArchiveFile
  import opened AuditSteps
  import opened AuditBatches
  import opened LineLengths
  import opened Spool
  import opened SpoolTears
  import opened Delivery
  import opened DeliveryRuns

  // ---------- files that can be read ----------

  predicate FilesFit(files: seq<SpoolFile>) {
    forall f :: f in files ==> LinesFit(f.data, SPOOL_LINE_LIMIT)
  }

  predicate BoundedWriter(w: Writer) {
    match w
    case Collecting(batch, _) => BoundedEvents(batch)
    case Persisting(batch, _) => BoundedEvents(batch)
    case _ => true
  }

  predicate BoundedCloser(c: Closer) {
    match c
    case DrainingLate(late) => BoundedEvents(late)
    case SpoolingLate(late) => BoundedEvents(late)
    case _ => true
  }

  /** Only recorded events are on their way, and the spool files hold whole lines that fit. */
  predicate Readable(s: Service) {
    && (forall p :: p in s.producers ==> Bounded(s.producers[p].event))
    && BoundedEvents(s.queue) && BoundedWriter(s.writer) && BoundedCloser(s.closer)
    && Closed(s.spool.active) && LinesFit(s.spool.active, SPOOL_LINE_LIMIT) && FilesFit(s.spool.rotated)
  }

  /** A recorded event, or a write that is not torn. */
  predicate Sound(a: Action) {
    match a
    case Record(_, e) => Bounded(e)
    case Send(_, write) => !write.Torn?
    case Persist(_, write) => !write.Torn?
    case CloseSpool(write) => !write.Torn?
    case _ => true
  }

  lemma SpoolStaysReadable(s: SpoolState, rows: seq<Content>, maxBytes: int, write: Write)
    requires Closed(s.active) && LinesFit(s.active, SPOOL_LINE_LIMIT) && BoundedEvents(rows) && !write.Torn?
    ensures var s' := SpoolAppend(s, rows, maxBytes, write).spool;
            Closed(s'.active) && LinesFit(s'.active, SPOOL_LINE_LIMIT) && s'.rotated == s.rotated
  {
    hide LinesFit, Closed, BoundedEvents, SpoolBytes, TotalSize;
    BoundedAppendFits(s.active, rows);
  }

  lemma SpoolOrDropReadable(cfg: Config, s: Service, rows: seq<Content>, write: Write)
    requires Readable(s) && BoundedEvents(rows) && !write.Torn?
    ensures Readable(SpoolOrDrop(cfg, s, rows, write))
  {
    hide LinesFit, Closed, Bounded, SpoolAppend, SpooledIds, Keys, FilesFit;
    SpoolStaysReadable(s.spool, rows, cfg.maxBytes, write);
  }

  lemma RotatedReadable(s: SpoolState, now: int)
    requires LinesFit(s.active, SPOOL_LINE_LIMIT) && FilesFit(s.rotated)
    ensures var s' := Rotated(s, now);
            FilesFit(s'.rotated) && (s'.active == s.active || s'.active == [])
  {
    hide LinesFit, InsertFile, RemoveFile;
    InsertedFile(RemoveFile(s.rotated, now), SpoolFile(now, s.active));
    forall f | f in RemoveFile(s.rotated, now) ensures f in s.rotated {
      RemovedFiles(s.rotated, now, f);
    }
  }

  lemma RemovedReadable(files: seq<SpoolFile>, name: int)
    requires FilesFit(files)
    ensures FilesFit(RemoveFile(files, name))
  {
    hide LinesFit, RemoveFile;
    forall f | f in RemoveFile(files, name) ensures f in files {
      RemovedFiles(files, name, f);
    }
  }

  lemma ProducerStepReadable(cfg: Config, s: Service, a: Action)
    requires Readable(s) && Sound(a) && (a.Record? || a.Send?)
    ensures Readable(ProducerStep(cfg, s, a))
  {
    hide LinesFit, Closed, Bounded, SpoolOrDrop, FilesFit, IdOk;
    if a.Send? && a.p in s.producers {
      var e := s.producers[a.p].event;
      assert BoundedEvents([e]);
      SpoolOrDropReadable(cfg, s.(producers := s.producers - {a.p}), [e], a.write);
    }
  }

  lemma PersistedReadable(h: Hash, cfg: Config, s: Service, a: Action)
    requires Readable(s) && Sound(a) && a.Persist?
    ensures Readable(WriterStep(h, cfg, s, a))
  {
    hide LinesFit, Closed, Bounded, SpoolOrDrop, FilesFit, AppendAlone, Added, WriterStep;
    PersistOutcome(h, cfg, s, a);
    if s.writer.Persisting? {
      SpoolOrDropReadable(cfg, EmptyHanded(s), s.writer.batch, a.write);
    }
  }

  /** An append leaves what is on its way and the spool alone. */
  lemma SameAfterAppend(h: Hash)
    ensures forall w: Service, batch, dbUp :: AppendTo(h, w, batch, dbUp).Some? ==>
              var w' := AppendTo(h, w, batch, dbUp).value;
              w' == w.(db := w'.db, history := w'.history)
  {
    hide AppendAlone, Added;
  }

  lemma RotateReadable(h: Hash, cfg: Config, s: Service, a: Action)
    requires Readable(s) && a.Rotate?
    ensures Readable(WriterStep(h, cfg, s, a))
  {
    hide LinesFit, Closed, Bounded, FilesFit, Rotated, Overwritten, Names;
    assert Closed([]) && LinesFit([], SPOOL_LINE_LIMIT) by { NothingFits(); }
    RotatedReadable(s.spool, a.now);
  }

  lemma RemoveReadable(h: Hash, cfg: Config, s: Service, a: Action)
    requires Readable(s) && a.Remove?
    ensures Readable(WriterStep(h, cfg, s, a))
  {
    hide LinesFit, Closed, Bounded, FilesFit, RemoveFile, WriterStep;
    RemoveOutcome(h, cfg, s, a);
    if s.writer.Replaying? && s.writer.files != [] {
      RemovedReadable(s.spool.rotated, s.writer.files[0]);
    }
  }

  lemma ChunkReadable(h: Hash, cfg: Config, s: Service, a: Action)
    requires cfg.Valid() && Readable(s) && a.ReplayChunk?
    ensures Readable(WriterStep(h, cfg, s, a))
  {
    hide LinesFit, Closed, Bounded, FilesFit, AppendTo, WriterStep;
    NoChunk(h, cfg, s, a);
    SameAfterAppend(h);
    if s.writer.Replaying? && s.writer.rest.Some? && s.writer.rest.value != [] {
      ChunkOutcome(h, cfg, s, a);
    }
  }

  lemma WriterStepReadable(h: Hash, cfg: Config, s: Service, a: Action)
    requires Readable(s) && !a.Persist? && !a.Rotate? && !a.Remove? && !a.ReplayChunk?
    ensures Readable(WriterStep(h, cfg, s, a))
  {
    hide LinesFit, Closed, Bounded, FilesFit, AppendTo, ReadSpool, Persisted, DataOf, RotateStep, RemoveFile;
  }

  lemma CloserStepReadable(cfg: Config, s: Service, a: Action)
    requires Readable(s) && Sound(a)
    ensures Readable(CloserStep(cfg, s, a))
  {
    hide LinesFit, Closed, Bounded, FilesFit, SpoolOrDrop;
    if a.CloseSpool? && s.closer.SpoolingLate? {
      SpoolOrDropReadable(cfg, s.(closer := Finished), s.closer.late, a.write);
    }
  }

  lemma OutsideStepReadable(h: Hash, s: Service, a: Action)
    requires Readable(s)
    ensures Readable(OutsideStep(h, s, a))
  {
    hide LinesFit, Closed, Bounded, FilesFit, ArchiveOne, AppendAlone, Added, InMemory;
  }

  lemma StepReadable(h: Hash, cfg: Config, s: Service, a: Action)
    requires cfg.Valid() && Readable(s) && Sound(a)
    ensures Readable(Step(h, cfg, s, a))
  {
    hide Readable, ProducerStep, WriterStep, CloserStep, OutsideStep, Bounded;
    match a
    case Record(_, _) => ProducerStepReadable(cfg, s, a);
    case Send(_, _) => ProducerStepReadable(cfg, s, a);
    case Close => CloserStepReadable(cfg, s, a);
    case CloseTake => CloserStepReadable(cfg, s, a);
    case CloseSeal => CloserStepReadable(cfg, s, a);
    case CloseSpool(_) => CloserStepReadable(cfg, s, a);
    case CloseTimeout => CloserStepReadable(cfg, s, a);
    case Retention(_, _) => OutsideStepReadable(h, s, a);
    case OtherAppend(_) => OutsideStepReadable(h, s, a);
    case Exit => OutsideStepReadable(h, s, a);
    case Persist(_, _) => PersistedReadable(h, cfg, s, a);
    case Rotate(_, _) => RotateReadable(h, cfg, s, a);
    case Remove => RemoveReadable(h, cfg, s, a);
    case ReplayChunk(_) => ChunkReadable(h, cfg, s, a);
    case _ => WriterStepReadable(h, cfg, s, a);
  }

  /** While no write is torn, recorded events leave every spool file readable, on every run. */
  lemma {:induction false} RunReadable(h: Hash, cfg: Config, s: Service, actions: seq<Action>)
    requires cfg.Valid() && Readable(s) && forall a :: a in actions ==> Sound(a)
    ensures Readable(Run(h, cfg, s, actions))
    decreases |actions|
  {
    hide Readable, Step, Sound;
    if actions != [] {
      var n := |actions| - 1;
      RunReadable(h, cfg, s, actions[..n]);
      StepReadable(h, cfg, Run(h, cfg, s, actions[..n]), actions[n]);
    }
  }

  lemma ReadableFromNew(h: Hash, cfg: Config, actions: seq<Action>)
    requires cfg.Valid() && forall a :: a in actions ==> Sound(a)
    ensures Readable(Run(h, cfg, NEW_INSTALLATION, actions))
  {
    hide GENESIS_HASH, Bounded, Sound, Run;
    NothingFits();
    RunReadable(h, cfg, NEW_INSTALLATION, actions);
  }

  // ---------- replay without interruption ----------

  /** What replay does after its rotation, when the files can be read and the database is reachable. */
  predicate IsReplayStep(a: Action) {
    a == ReadFile(true) || a == ReplayChunk(true) || a == Remove || a == EndReplay
  }

  /** Every rotated file is still to be replayed, or none is left. */
  predicate ReplayingAll(s: Service) {
    && s.spool.active == [] && FilesFit(s.spool.rotated)
    && match s.writer
       case Replaying(files, _) => forall f :: f in s.spool.rotated ==> f.name in files
       case Waiting => s.spool.rotated == []
       case _ => false
  }

  lemma RestOfFiles(files: seq<int>, rotated: seq<SpoolFile>)
    requires files != [] && forall f :: f in rotated ==> f.name in files
    ensures forall f :: f in RemoveFile(rotated, files[0]) ==> f.name in files[1..]
  {
    hide RemoveFile;
    forall f | f in RemoveFile(rotated, files[0]) ensures f.name in files[1..] {
      RemovedFiles(rotated, files[0], f);
      assert files == [files[0]] + files[1..];
    }
  }

  lemma FirstFileFits(files: seq<SpoolFile>, name: int)
    requires FilesFit(files)
    ensures LinesFit(DataOf(files, name), SPOOL_LINE_LIMIT)
  {
    hide LinesFit, FileIndex;
    FileIndexMeaning(files, name);
    NothingFits();
    if FileIndex(files, name).Some? {
      assert files[FileIndex(files, name).value] in files;
    }
  }

  lemma ReplayStepKeeps(h: Hash, cfg: Config, s: Service, a: Action)
    requires cfg.Valid() && Inv(h, cfg, s) && ReplayingAll(s) && IsReplayStep(a)
    ensures ReplayingAll(WriterStep(h, cfg, s, a))
    ensures SpoolIds(s.spool) + LiveIds(s.history)
         <= SpoolIds(WriterStep(h, cfg, s, a).spool) + LiveIds(WriterStep(h, cfg, s, a).history)
  {
    hide SpoolIds, LiveIds, Inv, FilesFit;
    if a.ReadFile? {
      ReadStepKeeps(h, cfg, s);
    } else if a.ReplayChunk? {
      ChunkStepKeeps(h, cfg, s);
    } else if a.Remove? {
      RemoveStepKeeps(h, cfg, s);
    } else {
      EndStepKeeps(h, cfg, s);
    }
  }

  lemma EndStepKeeps(h: Hash, cfg: Config, s: Service)
    requires ReplayingAll(s)
    ensures var s' := WriterStep(h, cfg, s, EndReplay);
            && ReplayingAll(s') && s'.spool == s.spool && s'.history == s.history
            && (s.writer.Replaying? && s.writer.rest.None? && s.writer.files == [] ==> s'.writer.Waiting?)
  {
    hide FilesFit;
    if s.spool.rotated != [] {
      assert s.spool.rotated[0] in s.spool.rotated;
    }
  }

  lemma ReadStepKeeps(h: Hash, cfg: Config, s: Service)
    requires ReplayingAll(s)
    ensures var s' := WriterStep(h, cfg, s, ReadFile(true));
            ReplayingAll(s') && s'.spool == s.spool && s'.history == s.history
            && (s.writer.Replaying? && s.writer.rest.None? && s.writer.files != [] ==>
                  s'.writer.Replaying? && s'.writer.files == s.writer.files && s'.writer.rest.Some?)
  {
    hide FilesFit, LinesFit, ReadSpool, DataOf;
    if s.writer.Replaying? && s.writer.files != [] {
      FirstFileFits(s.spool.rotated, s.writer.files[0]);
    }
  }

  lemma ChunkStepKeeps(h: Hash, cfg: Config, s: Service)
    requires cfg.Valid() && Inv(h, cfg, s) && ReplayingAll(s)
    ensures var s' := WriterStep(h, cfg, s, ReplayChunk(true));
            ReplayingAll(s') && s'.spool == s.spool && LiveIds(s.history) <= LiveIds(s'.history)
            && (s.writer.Replaying? && s.writer.rest.Some? && s.writer.rest.value != [] ==>
                  s'.writer.Replaying? && s'.writer.files == s.writer.files && s'.writer.rest.Some?
                  && |s'.writer.rest.value| < |s.writer.rest.value|)
  {
    hide FilesFit, LiveIds, WriterStep, AppendTo, SpoolOk, WriterOk, DbOk, Held, CloserOk, ProducersOk;
    NoChunk(h, cfg, s, ReplayChunk(true));
    if s.writer.Replaying? && s.writer.rest.Some? && s.writer.rest.value != [] {
      var rows := s.writer.rest.value;
      var moved := s.(writer := Replaying(s.writer.files, Some(rows[Chunk(cfg, rows)..])));
      ChunkOutcome(h, cfg, s, ReplayChunk(true));
      SameDb(h, s, moved);
      AppendToKeeps(h, moved, rows[..Chunk(cfg, rows)], true);
    }
  }

  lemma RemoveStepKeeps(h: Hash, cfg: Config, s: Service)
    requires cfg.Valid() && Inv(h, cfg, s) && ReplayingAll(s)
    ensures var s' := WriterStep(h, cfg, s, Remove);
            ReplayingAll(s') && s'.history == s.history && SpoolIds(s.spool) <= SpoolIds(s'.spool) + LiveIds(s.history)
            && (s.writer.Replaying? && s.writer.rest == Some([]) && s.writer.files != [] ==>
                  s'.writer == Replaying(s.writer.files[1..], None))
  {
    hide FilesFit, LiveIds, WriterStep, RemoveFile, RotatedIds, SpooledIds, Held, DbOk, CloserOk, ProducersOk;
    RemoveOutcome(h, cfg, s, Remove);
    if s.writer.Replaying? && s.writer.rest == Some([]) && s.writer.files != [] {
      var name := s.writer.files[0];
      RestOfFiles(s.writer.files, s.spool.rotated);
      RemovedReadable(s.spool.rotated, name);
      NoKeys();
      RemovedIds(s.spool.rotated, name, LiveIds(s.history));
    }
  }

  lemma StepOfReplay(h: Hash, cfg: Config, s: Service, a: Action)
    requires IsReplayStep(a)
    ensures Step(h, cfg, s, a) == WriterStep(h, cfg, s, a)
  {
    hide WriterStep;
  }

  lemma {:induction false} ReplayRunKeeps(h: Hash, cfg: Config, s: Service, actions: seq<Action>)
    requires cfg.Valid() && Inv(h, cfg, s) && ReplayingAll(s) && forall a :: a in actions ==> IsReplayStep(a)
    ensures var s' := Run(h, cfg, s, actions);
            && Inv(h, cfg, s') && ReplayingAll(s')
            && SpoolIds(s.spool) + LiveIds(s.history) <= SpoolIds(s'.spool) + LiveIds(s'.history)
    decreases |actions|
  {
    hide Inv, ReplayingAll, Step, SpoolIds, LiveIds, IsReplayStep;
    if actions != [] {
      var n := |actions| - 1;
      var before := Run(h, cfg, s, actions[..n]);
      ReplayRunKeeps(h, cfg, s, actions[..n]);
      StepOfReplay(h, cfg, before, actions[n]);
      StepInv(h, cfg, before, actions[n]);
      ReplayStepKeeps(h, cfg, before, actions[n]);
    }
  }

  /** The steps do lead to its end. */
  lemma {:induction false} ReplayEnds(h: Hash, cfg: Config, s: Service) returns (actions: seq<Action>)
    requires cfg.Valid() && Inv(h, cfg, s) && ReplayingAll(s)
    ensures forall a :: a in actions ==> IsReplayStep(a)
    ensures Run(h, cfg, s, actions).writer.Waiting?
    decreases if s.writer.Replaying? then |s.writer.files| + 1 else 0,
              if s.writer.Replaying? && s.writer.rest.Some? then 0 else 1,
              if s.writer.Replaying? && s.writer.rest.Some? then |s.writer.rest.value| else 0
  {
    hide Inv, Step, FilesFit, NextReplayStep, IsReplayStep, Config.Valid;
    actions := [];
    if s.writer.Replaying? {
      var a := NextReplayStep(s);
      OneReplayStep(h, cfg, s);
      var rest := ReplayEnds(h, cfg, Step(h, cfg, s, a));
      LastAction(h, cfg, s, [], a);
      assert [] + [a] == [a] && Run(h, cfg, s, []) == s;
      RunOfConcat(h, cfg, s, [a], rest);
      actions := [a] + rest;
    }
  }

  lemma OneReplayStep(h: Hash, cfg: Config, s: Service)
    requires cfg.Valid() && Inv(h, cfg, s) && ReplayingAll(s) && s.writer.Replaying?
    ensures var s' := Step(h, cfg, s, NextReplayStep(s));
            Inv(h, cfg, s') && ReplayingAll(s') && Advances(s.writer, s'.writer)
  {
    hide Inv, Step, WriterStep, ReplayingAll, NextReplayStep, IsReplayStep;
    var a := NextReplayStep(s);
    StepOfReplay(h, cfg, s, a);
    StepInv(h, cfg, s, a);
    ReplayStepKeeps(h, cfg, s, a);
    NextStepAdvances(h, cfg, s);
  }

  /** The replay has come closer to its end. */
  predicate Advances(w: Writer, w': Writer) {
    || w'.Waiting?
    || (w.Replaying? && w'.Replaying? && |w'.files| < |w.files|)
    || (w.Replaying? && w'.Replaying? && |w'.files| == |w.files| && w'.rest.Some?
        && (w.rest.None? || |w'.rest.value| < |w.rest.value|))
  }

  function NextReplayStep(s: Service): (a: Action)
    requires s.writer.Replaying?
    ensures IsReplayStep(a)
  {
    match s.writer.rest
    case None => if s.writer.files == [] then EndReplay else ReadFile(true)
    case Some(rows) => if rows == [] then Remove else ReplayChunk(true)
  }

  lemma NextStepAdvances(h: Hash, cfg: Config, s: Service)
    requires cfg.Valid() && Inv(h, cfg, s) && ReplayingAll(s) && s.writer.Replaying?
    ensures Advances(s.writer, WriterStep(h, cfg, s, NextReplayStep(s)).writer)
  {
    hide FilesFit, LiveIds, RotatedIds, SpooledIds, Held, DbOk, CloserOk, ProducersOk, SpoolIds;
    assert s.writer.rest.Some? ==> s.writer.files != [];
    hide WriterOk, SpoolOk;
    ReadStepKeeps(h, cfg, s);
    ChunkStepKeeps(h, cfg, s);
    RemoveStepKeeps(h, cfg, s);
    EndStepKeeps(h, cfg, s);
    hide WriterStep, ReplayingAll, Inv;
  }

  /**
   A replay with readable files and a reachable database, whenever nothing else interferes: it can run to its end,
   and however its steps are taken, at its end the spool is empty and every event that was in it is in the chain.
   */
  lemma UndisturbedReplay(h: Hash, cfg: Config, s: Service, now: int) returns (actions: seq<Action>)
    requires cfg.Valid() && Inv(h, cfg, s) && cfg.spooling && s.writer.Rotating? && Readable(s)
    ensures forall a :: a in actions ==> IsReplayStep(a)
    ensures Run(h, cfg, Step(h, cfg, s, Rotate(now, true)), actions).writer.Waiting?
    ensures forall any: seq<Action> :: (forall a :: a in any ==> IsReplayStep(a)) ==>
              var s' := Run(h, cfg, Step(h, cfg, s, Rotate(now, true)), any);
              s'.writer.Waiting? ==> && s'.spool == SpoolState([], [])
                                     && SpoolIds(Rotated(s.spool, now)) <= LiveIds(s'.history)
  {
    var next := Step(h, cfg, s, Rotate(now, true));
    StepInv(h, cfg, s, Rotate(now, true));
    StartsReplayingAll(h, cfg, s, now);
    hide Inv, Readable, Step, Rotated;
    actions := ReplayEnds(h, cfg, next);
    forall any: seq<Action> | forall a :: a in any ==> IsReplayStep(a)
      ensures var s' := Run(h, cfg, next, any);
              s'.writer.Waiting? ==> s'.spool == SpoolState([], []) && SpoolIds(Rotated(s.spool, now)) <= LiveIds(s'.history)
    {
      ReplayRunKeeps(h, cfg, next, any);
      EmptySpool();
    }
  }

  lemma StartsReplayingAll(h: Hash, cfg: Config, s: Service, now: int)
    requires cfg.spooling && s.writer.Rotating? && Readable(s)
    ensures var next := Step(h, cfg, s, Rotate(now, true));
            ReplayingAll(next) && next.spool == Rotated(s.spool, now)
  {
    hide FilesFit, LinesFit, Overwritten, InsertFile, RemoveFile, Bounded;
    RotatedReadable(s.spool, now);
    var files := Rotated(s.spool, now).rotated;
    forall f | f in files ensures f.name in Names(files) {
      var i :| 0 <= i < |files| && files[i] == f;
      assert Names(files)[i] == f.name;
    }
  }
}
