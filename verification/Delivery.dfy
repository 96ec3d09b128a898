/**
 The delivery protocol of internal/audit/service.go: producers, one writer, a closing caller and the process's end,
 interleaved statement by statement over a bounded queue, the spool and the database.
 */
module Delivery {
  import opened ByteStrings
  import opened Chain
  import opened FirstOccurrences
  import opened Options
  import opened ArchiveFile
  import opened AuditSteps
  import opened AuditBatches
  import opened AuditStore
  import opened Spool
  import opened SpoolTears

  /** `spooling` is false when no spool directory is configured. */
  datatype Config = Config(queueSize: nat, batchSize: nat, maxBytes: int, spooling: bool) {
    predicate Valid() { queueSize > 0 && batchSize > 0 }
  }

  /** What the writer does when it has drained. */
  datatype After = OneBatch | ThenReplay | ThenStop

  datatype Writer =
    | Unstarted
    | Waiting
    | Collecting(batch: seq<Content>, after: After)
    | Persisting(batch: seq<Content>, after: After)
    | Rotating
    | Replaying(files: seq<int>, rest: Option<seq<Content>>)
    | Stopped

  datatype Closer = NotClosing | AwaitingWriter | DrainingLate(late: seq<Content>) | SpoolingLate(late: seq<Content>) | Finished

  /** A producer inside Record: what it saw of `closed`, before its send. */
  datatype Producer = Producer(event: Content, open: bool)

  /**
   `flushing` counts the calls of Flush that have passed their check of `closed`. `history`, `recorded`, `dropped` and
   `lost` are auxiliary; `dropped` is what the drop metric counts.
   */
  datatype Service = Service(
    started: bool, closed: bool, flushing: nat, queue: seq<Content>, writer: Writer, closer: Closer, producers: map<nat, Producer>,
    spool: SpoolState, db: Db, history: seq<Row>, recorded: set<Bytes>, dropped: set<Bytes>, lost: set<Bytes>)

  datatype Action =
    | Record(p: nat, event: Content)
    | Send(p: nat, write: Write)
    | Start
    | Take
    | TakeMore
    | Seal
    | Persist(dbUp: bool, write: Write)
    | Tick
    | CallFlush
    | FlushRequest
    | FlushGivesUp
    | SeeStop
    | Rotate(now: int, renamed: bool)
    | ReadFile(readable: bool)
    | ReplayChunk(dbUp: bool)
    | Remove
    | EndReplay
    | Close
    | CloseTake
    | CloseSeal
    | CloseSpool(write: Write)
    | CloseTimeout
    | Retention(cutoff: int, micro: int)
    | OtherAppend(batch: seq<Content>)
    | Exit

  // ---------- steps ----------

  /** spoolOrDrop: what is not reported as written is counted as dropped. What a write makes unreadable is lost. */
  function SpoolOrDrop(cfg: Config, s: Service, rows: seq<Content>, write: Write): Service {
    var r := if cfg.spooling then SpoolAppend(s.spool, rows, cfg.maxBytes, write) else Appended(s.spool, false);
    var due := SpooledIds(s.spool.active) + if r.ok then Keys(EventId, rows) else {};
    s.(spool := r.spool, dropped := if r.ok then s.dropped else s.dropped + Keys(EventId, rows),
       lost := s.lost + (due - SpooledIds(r.spool.active)))
  }

  /** The rows that an append of `batch` adds. */
  function Added(h: Hash, db: Db, batch: seq<Content>): seq<Row>
    requires db.tail.Some?
  {
    Extend(h, db.tail.value.seqNo, db.tail.value.hash, Fresh(EventId, LiveIds(db.live), batch))
  }

  /** Append on a reachable database; None when it is not. */
  function AppendTo(h: Hash, s: Service, batch: seq<Content>, dbUp: bool): Option<Service> {
    if !dbUp || s.db.tail.None? then None
    else
      match AppendAlone(h, s.db, batch)
      case None => None
      case Some((db, _)) => Some(s.(db := db, history := s.history + Added(h, s.db, batch)))
  }

  function Persisted(h: Hash, cfg: Config, s: Service, batch: seq<Content>, after: After, dbUp: bool,
                     write: Write): Service {
    var idle := s.(writer := if after.OneBatch? then Waiting else Collecting([], after));
    match AppendTo(h, idle, batch, dbUp)
    case Some(s') => s'
    case None => SpoolOrDrop(cfg, idle, batch, write)
  }

  function DataOf(files: seq<SpoolFile>, name: int): Bytes {
    var i := FileIndex(files, name);
    if i.Some? && i.value < |files| then files[i.value].data else []
  }

  /** Renaming over an existing file destroys it: the events that were only there are gone. */
  function Overwritten(s: SpoolState, now: int): set<Bytes> {
    if s.active == [] then {} else SpooledIds(DataOf(s.rotated, now)) - SpooledIds(s.active)
  }

  function RotateStep(s: Service, now: int): Service {
    var spool := Rotated(s.spool, now);
    s.(spool := spool, writer := Replaying(Names(spool.rotated), None), lost := s.lost + Overwritten(s.spool, now))
  }

  function Chunk(cfg: Config, rows: seq<Content>): nat {
    if |rows| <= cfg.batchSize then |rows| else cfg.batchSize
  }

  function ProducerStep(cfg: Config, s: Service, a: Action): Service {
    match a
    case Record(p, e) =>
      if p in s.producers || !IdOk(e) then s
      else s.(producers := s.producers[p := Producer(e, !s.closed)], recorded := s.recorded + {e.eventId})
    case Send(p, write) =>
      if p !in s.producers then s
      else
        var e, open := s.producers[p].event, s.producers[p].open;
        var s' := s.(producers := s.producers - {p});
        if open && |s.queue| < cfg.queueSize then s'.(queue := s.queue + [e]) else SpoolOrDrop(cfg, s', [e], write)
    case _ => s
  }

  function WriterStep(h: Hash, cfg: Config, s: Service, a: Action): Service {
    match (a, s.writer)
    case (Start, Unstarted) => s.(started := true, writer := Rotating)
    case (Take, Waiting) =>
      if s.queue == [] then s else s.(queue := s.queue[1..], writer := Collecting([s.queue[0]], OneBatch))
    case (TakeMore, Collecting(batch, after)) =>
      if s.queue == [] || |batch| >= cfg.batchSize then s
      else s.(queue := s.queue[1..], writer := Collecting(batch + [s.queue[0]], after))
    case (Seal, Collecting(batch, after)) =>
      if s.queue != [] && |batch| < cfg.batchSize then s
      else if batch != [] then s.(writer := Persisting(batch, after))
      else s.(writer := match after case OneBatch => Waiting case ThenReplay => Rotating case ThenStop => Stopped)
    case (Persist(dbUp, write), Persisting(batch, after)) => Persisted(h, cfg, s, batch, after, dbUp, write)
    case (Tick, Waiting) => s.(writer := Rotating)
    case (CallFlush, _) => if s.closed || !s.started then s else s.(flushing := s.flushing + 1)
    case (FlushRequest, Waiting) =>
      if s.flushing == 0 then s else s.(flushing := s.flushing - 1, writer := Collecting([], ThenReplay))
    case (FlushGivesUp, _) => if s.flushing == 0 then s else s.(flushing := s.flushing - 1)
    case (SeeStop, Waiting) => if s.closed then s.(writer := Collecting([], ThenStop)) else s
    case (Rotate(now, renamed), Rotating) =>
      if !cfg.spooling || !renamed then s.(writer := Waiting) else RotateStep(s, now)
    case (ReadFile(readable), Replaying(files, None)) =>
      if files == [] then s
      else if !readable || !LinesFit(DataOf(s.spool.rotated, files[0]), SPOOL_LINE_LIMIT) then s.(writer := Waiting)
      else s.(writer := Replaying(files, Some(ReadSpool(DataOf(s.spool.rotated, files[0])))))
    case (ReplayChunk(dbUp), Replaying(files, Some(rows))) =>
      if rows == [] then s
      else
        var n := Chunk(cfg, rows);
        (match AppendTo(h, s.(writer := Replaying(files, Some(rows[n..]))), rows[..n], dbUp)
         case Some(s') => s'
         case None => s.(writer := Waiting))
    case (Remove, Replaying(files, Some(rows))) =>
      if rows != [] || files == [] then s
      else s.(spool := s.spool.(rotated := RemoveFile(s.spool.rotated, files[0])), writer := Replaying(files[1..], None))
    case (EndReplay, Replaying(files, None)) => if files == [] then s.(writer := Waiting) else s
    case _ => s
  }

  function CloserStep(cfg: Config, s: Service, a: Action): Service {
    match (a, s.closer)
    case (Close, _) =>
      if s.closed then s else s.(closed := true, closer := if s.started then AwaitingWriter else Finished)
    case (CloseTake, AwaitingWriter) =>
      if s.writer.Stopped? then s.(closer := DrainingLate([])) else s
    case (CloseTake, DrainingLate(late)) =>
      if s.queue == [] || |late| >= cfg.queueSize then s
      else s.(queue := s.queue[1..], closer := DrainingLate(late + [s.queue[0]]))
    case (CloseSeal, DrainingLate(late)) =>
      if s.queue != [] && |late| < cfg.queueSize then s
      else s.(closer := if late == [] then Finished else SpoolingLate(late))
    case (CloseSpool(write), SpoolingLate(late)) => SpoolOrDrop(cfg, s.(closer := Finished), late, write)
    case (CloseTimeout, AwaitingWriter) => s.(closer := Finished)
    case _ => s
  }

  /** Whatever only this process's memory holds. */
  function InMemory(s: Service): set<Bytes> {
    ProducerIds(s.producers) + Keys(EventId, s.queue) + WriterIds(s.writer) + LateIds(s.closer)
  }

  function OutsideStep(h: Hash, s: Service, a: Action): Service {
    match a
    case Retention(cutoff, micro) => s.(db := ArchiveOne(h, s.db, map[], cutoff, micro).db)
    case OtherAppend(batch) =>
      (match AppendTo(h, s, batch, true)
       case None => s
       case Some(s') => s'.(recorded := s.recorded + Keys(EventId, batch)))
    case Exit =>
      Service(false, false, 0, [], Unstarted, NotClosing, map[], s.spool, s.db, s.history, s.recorded, s.dropped, s.lost + InMemory(s))
    case _ => s
  }

  function Step(h: Hash, cfg: Config, s: Service, a: Action): Service {
    match a
    case Record(_, _) => ProducerStep(cfg, s, a)
    case Send(_, _) => ProducerStep(cfg, s, a)
    case Close => CloserStep(cfg, s, a)
    case CloseTake => CloserStep(cfg, s, a)
    case CloseSeal => CloserStep(cfg, s, a)
    case CloseSpool(_) => CloserStep(cfg, s, a)
    case CloseTimeout => CloserStep(cfg, s, a)
    case Retention(_, _) => OutsideStep(h, s, a)
    case OtherAppend(_) => OutsideStep(h, s, a)
    case Exit => OutsideStep(h, s, a)
    case _ => WriterStep(h, cfg, s, a)
  }

  function Run(h: Hash, cfg: Config, s: Service, actions: seq<Action>): Service {
    if actions == [] then s
    else Step(h, cfg, Run(h, cfg, s, actions[..|actions| - 1]), actions[|actions| - 1])
  }

  // ---------- where events are ----------

  function ProducerIds(producers: map<nat, Producer>): set<Bytes> {
    set p | p in producers :: producers[p].event.eventId
  }

  function WriterIds(w: Writer): set<Bytes> {
    match w
    case Collecting(batch, _) => Keys(EventId, batch)
    case Persisting(batch, _) => Keys(EventId, batch)
    case _ => {}
  }

  function LateIds(c: Closer): set<Bytes> {
    match c
    case DrainingLate(late) => Keys(EventId, late)
    case SpoolingLate(late) => Keys(EventId, late)
    case _ => {}
  }

  function RotatedIds(files: seq<SpoolFile>): set<Bytes> {
    if files == [] then {} else RotatedIds(files[..|files| - 1]) + SpooledIds(files[|files| - 1].data)
  }

  function SpoolIds(s: SpoolState): set<Bytes> {
    SpooledIds(s.active) + RotatedIds(s.rotated)
  }

  /** Every place an event can be. */
  function Held(s: Service): set<Bytes> {
    InMemory(s) + SpoolIds(s.spool) + LiveIds(s.history) + s.dropped + s.lost
  }

  // ---------- the invariant ----------

  predicate ProducersOk(producers: map<nat, Producer>) {
    forall p :: p in producers ==> IdOk(producers[p].event)
  }

  predicate FilesOk(files: seq<SpoolFile>) {
    forall f, g :: f in files && g in files && f.name == g.name ==> f == g
  }

  /** What the replay has not yet appended of its file covers what is not yet in the chain. */
  predicate ReplayOk(files: seq<int>, rest: Option<seq<Content>>, spool: SpoolState, history: seq<Row>) {
    rest.Some? ==>
      && files != []
      && Keys(EventId, rest.value) <= RotatedIds(spool.rotated)
      && forall f :: f in spool.rotated && f.name == files[0] ==> SpooledIds(f.data) <= Keys(EventId, rest.value) + LiveIds(history)
  }

  predicate WriterOk(cfg: Config, s: Service) {
    match s.writer
    case Collecting(batch, _) => IdsOk(batch) && |batch| <= cfg.batchSize
    case Persisting(batch, _) => IdsOk(batch) && |batch| <= cfg.batchSize
    case Replaying(files, rest) => ReplayOk(files, rest, s.spool, s.history)
    case _ => true
  }

  predicate CloserOk(c: Closer) {
    match c
    case DrainingLate(late) => IdsOk(late)
    case SpoolingLate(late) => IdsOk(late)
    case _ => true
  }

  ghost predicate SpoolOk(cfg: Config, s: SpoolState) {
    Appendable(s.active) && FilesOk(s.rotated) && Capped(s, cfg.maxBytes)
  }

  predicate DbOk(h: Hash, s: Service) {
    Consistent(h, s.db, s.history) && s.db.tail.Some?
  }

  ghost predicate Shape(h: Hash, cfg: Config, s: Service) {
    && ProducersOk(s.producers) && IdsOk(s.queue) && |s.queue| <= cfg.queueSize
    && (s.closed || s.closer.NotClosing?)
    && WriterOk(cfg, s) && CloserOk(s.closer) && SpoolOk(cfg, s.spool) && DbOk(h, s)
  }

  /** Conservation: the events recorded so far are exactly those in one of the places. */
  ghost predicate Inv(h: Hash, cfg: Config, s: Service) {
    Shape(h, cfg, s) && Held(s) == s.recorded
  }

  // ---------- spool and chain ----------

  lemma KeysOne(e: Content)
    ensures Keys(EventId, [e]) == {e.eventId}
  {
    assert EventId([e][0]) == e.eventId;
  }

  lemma KeysTake(queue: seq<Content>, batch: seq<Content>)
    requires queue != []
    ensures Keys(EventId, queue) == {queue[0].eventId} + Keys(EventId, queue[1..])
    ensures Keys(EventId, batch + [queue[0]]) == Keys(EventId, batch) + {queue[0].eventId}
  {
    KeysOne(queue[0]);
    KeysConcat(EventId, [queue[0]], queue[1..]);
    KeysConcat(EventId, batch, [queue[0]]);
    assert queue == [queue[0]] + queue[1..];
  }

  lemma SanitizedKeys(rows: seq<Content>)
    requires IdsOk(rows)
    ensures Keys(EventId, SanitizeAll(rows)) == Keys(EventId, rows)
  {
    hide SanitizeContent, IdOk;
    forall i | 0 <= i < |rows| ensures EventId(SanitizeAll(rows)[i]) == EventId(rows[i]) {
      EncodedLine(rows[i]);
    }
  }

  lemma AppendBounds(s: SpoolState, rows: seq<Content>, maxBytes: int, write: Write)
    requires Appendable(s.active) && IdsOk(rows)
    ensures var s' := SpoolAppend(s, rows, maxBytes, write).spool;
            && Appendable(s'.active) && s'.rotated == s.rotated
            && SpooledIds(s'.active) <= SpooledIds(s.active) + Keys(EventId, rows)
            && (Closed(s.active) ==> SpooledIds(s.active) <= SpooledIds(s'.active))
    ensures SpoolAppend(s, rows, maxBytes, write).ok && Closed(s.active)
        ==> Keys(EventId, rows) <= SpooledIds(SpoolAppend(s, rows, maxBytes, write).spool.active)
  {
    hide ReadSpool, SpoolBytes, SanitizeAll, IdsOk, Closed, TotalSize, Appendable;
    var s' := SpoolAppend(s, rows, maxBytes, write).spool;
    if s'.active != s.active {
      AppendPrefix(s.active, rows, if write.Torn? then FirstBytes(SpoolBytes(rows), write.n) else SpoolBytes(rows));
    }
    if Closed(s.active) {
      AppendedIsRead(s.active, rows);
      SanitizedKeys(rows);
      KeysConcat(EventId, ReadSpool(s.active), SanitizeAll(rows));
    }
  }

  /**
   spoolOrDrop keeps its rows in the spool, counts them as dropped, or loses them; it loses something only behind a
   torn write, and drops only when the spool is off, full or not written as a whole.
   */
  lemma SpoolOrDropKeeps(cfg: Config, s: Service, rows: seq<Content>, write: Write)
    requires IdsOk(rows) && SpoolOk(cfg, s.spool)
    ensures var s' := SpoolOrDrop(cfg, s, rows, write);
            && SpoolOk(cfg, s'.spool) && s'.spool.rotated == s.spool.rotated
            && s' == s.(spool := s'.spool, dropped := s'.dropped, lost := s'.lost)
            && SpoolIds(s'.spool) + s'.dropped + s'.lost == SpoolIds(s.spool) + s.dropped + s.lost + Keys(EventId, rows)
            && (Closed(s.spool.active) || !cfg.spooling ==> s'.lost == s.lost)
            && (s'.dropped != s.dropped ==>
                  !cfg.spooling || write != Whole || (cfg.maxBytes > 0 && Size(s.spool) + |SpoolBytes(rows)| > cfg.maxBytes))
  {
    hide SpooledIds, SpoolBytes, IdsOk, Closed, TotalSize, RotatedIds, FilesOk, Appendable, Capped;
    AppendBounds(s.spool, rows, cfg.maxBytes, write);
    SpoolStaysCapped(s.spool, cfg.maxBytes, rows, write, 0, 0);
  }

  /** An append moves its batch into the chain and touches nothing else. */
  lemma AppendToKeeps(h: Hash, s: Service, batch: seq<Content>, dbUp: bool)
    requires DbOk(h, s)
    ensures AppendTo(h, s, batch, dbUp).Some? == dbUp
    ensures dbUp ==>
              var s' := AppendTo(h, s, batch, dbUp).value;
              && DbOk(h, s') && s' == s.(db := s'.db, history := s'.history)
              && LiveIds(s'.history) == LiveIds(s.history) + Keys(EventId, batch)
  {
    hide AppendAlone, Extend, Fresh, LiveIds;
    AppendAloneMeaning(h, s.db, s.history, batch);
    AddedToHistory(h, s, batch);
  }

  lemma AddedToHistory(h: Hash, s: Service, batch: seq<Content>)
    requires DbOk(h, s) && s.db.tail.Some?
    ensures LiveIds(s.history + Added(h, s.db, batch)) == LiveIds(s.history) + Keys(EventId, batch)
  {
    hide Extend, Fresh, LiveIds, DbOk;
    LiveIsHistory(h, s);
    var out := Added(h, s.db, batch);
    var k := ArchivedThrough(s.db.segments);
    IdsOfConcat(s.history[..k], s.db.live);
    IdsOfConcat(s.history[..k], s.db.live + out);
    AddedIds(h, s.db.live, s.db.tail.value, batch);
    assert s.history + out == s.history[..k] + (s.db.live + out);
  }

  lemma LiveIsHistory(h: Hash, s: Service)
    requires DbOk(h, s)
    ensures var k := ArchivedThrough(s.db.segments); 0 <= k <= |s.history| && s.history == s.history[..k] + s.db.live
    ensures s.db.tail.Some?
  {
    hide Linked, SegmentsOf, DistinctIds;
  }

  lemma {:induction false} RotatedIdsMeaning(files: seq<SpoolFile>, id: Bytes)
    ensures id in RotatedIds(files) <==> exists f :: f in files && id in SpooledIds(f.data)
  {
    hide SpooledIds;
    if files != [] {
      var init, last := files[..|files| - 1], files[|files| - 1];
      RotatedIdsMeaning(init, id);
      assert files == init + [last];
    }
  }

  lemma {:induction false} FileIndexMeaning(files: seq<SpoolFile>, name: int)
    ensures match FileIndex(files, name)
            case None => forall f :: f in files ==> f.name != name
            case Some(i) => i < |files| && files[i].name == name
  {
    if files != [] {
      FileIndexMeaning(files[..|files| - 1], name);
      assert files == files[..|files| - 1] + [files[|files| - 1]];
    }
  }

  lemma DataOfMeaning(files: seq<SpoolFile>, f: SpoolFile)
    requires FilesOk(files) && f in files
    ensures DataOf(files, f.name) == f.data
  {
    hide Closed;
    FileIndexMeaning(files, f.name);
  }

  lemma DataOfIds(files: seq<SpoolFile>, name: int)
    ensures SpooledIds(DataOf(files, name)) <= RotatedIds(files)
  {
    hide SpooledIds, RotatedIds;
    FileIndexMeaning(files, name);
    EmptyFile();
    forall id | id in SpooledIds(DataOf(files, name)) ensures id in RotatedIds(files) {
      RotatedIdsMeaning(files, id);
      var i := FileIndex(files, name).value;
      assert files[i] in files;
    }
  }

  // ---------- producers ----------

  lemma ProducerIdsAdd(producers: map<nat, Producer>, p: nat, x: Producer)
    requires p !in producers
    ensures ProducerIds(producers[p := x]) == ProducerIds(producers) + {x.event.eventId}
  {
    forall q | q in producers ensures producers[q].event.eventId in ProducerIds(producers[p := x]) {
      assert producers[p := x][q] == producers[q];
    }
    assert producers[p := x][p] == x;
  }

  lemma ProducerIdsRemove(producers: map<nat, Producer>, p: nat)
    requires p in producers
    ensures ProducerIds(producers) == ProducerIds(producers - {p}) + {producers[p].event.eventId}
  {
    forall q | q in producers && q != p ensures producers[q].event.eventId in ProducerIds(producers - {p}) {
      assert (producers - {p})[q] == producers[q];
    }
  }

  /** The spool's active file ends with a torn line. */
  predicate TornSpool(cfg: Config, s: Service) {
    cfg.spooling && !Closed(s.spool.active)
  }

  lemma RecordInv(h: Hash, cfg: Config, s: Service, a: Action)
    requires Inv(h, cfg, s) && a.Record?
    ensures Inv(h, cfg, ProducerStep(cfg, s, a)) && ProducerStep(cfg, s, a).lost == s.lost
  {
    hide IdOk, Keys, LiveIds, SpoolIds, ProducerIds, WriterOk, CloserOk, SpoolOk, DbOk, SpoolOrDrop;
    var s' := ProducerStep(cfg, s, a);
    if s' != s {
      ProducerIdsAdd(s.producers, a.p, Producer(a.event, !s.closed));
      SameWriter(h, cfg, s, s');
    }
  }

  lemma SendInv(h: Hash, cfg: Config, s: Service, a: Action)
    requires Inv(h, cfg, s) && a.Send?
    ensures Inv(h, cfg, ProducerStep(cfg, s, a))
    ensures !TornSpool(cfg, s) ==> ProducerStep(cfg, s, a).lost == s.lost
  {
    hide IdOk, Keys, LiveIds, SpoolIds, ProducerIds, WriterOk, CloserOk, SpoolOk, DbOk, SpoolOrDrop, Closed;
    if a.p in s.producers {
      var s', e := ProducerStep(cfg, s, a), s.producers[a.p].event;
      ProducerIdsRemove(s.producers, a.p);
      KeysOne(e);
      KeysConcat(EventId, s.queue, [e]);
      var between := s.(producers := s.producers - {a.p});
      SpoolOrDropKeeps(cfg, between, [e], a.write);
      SameWriter(h, cfg, s, s');
      assert |s'.queue| <= cfg.queueSize && IdsOk(s'.queue) && ProducersOk(s'.producers);
    }
  }

  /** The writer's and the database's part of the invariant read nothing that other steps change. */
  lemma SameWriter(h: Hash, cfg: Config, s: Service, s': Service)
    requires Shape(h, cfg, s)
    requires s'.writer == s.writer && s'.history == s.history && s'.db == s.db && s'.spool.rotated == s.spool.rotated
    ensures WriterOk(cfg, s') && DbOk(h, s')
  {
    hide Consistent;
  }

  // ---------- the writer ----------

  lemma TakeInv(h: Hash, cfg: Config, s: Service, a: Action)
    requires cfg.Valid() && Inv(h, cfg, s) && (a.Take? || a.TakeMore?)
    ensures Inv(h, cfg, WriterStep(h, cfg, s, a)) && WriterStep(h, cfg, s, a).lost == s.lost
  {
    hide IdOk, Keys, LiveIds, SpoolIds, ProducerIds, CloserOk, SpoolOk, DbOk;
    var s' := WriterStep(h, cfg, s, a);
    SameDb(h, s, s');
    if s.queue != [] {
      KeysTake(s.queue, []);
      KeysOne(s.queue[0]);
      if s.writer.Collecting? {
        KeysTake(s.queue, s.writer.batch);
      }
    }
  }

  lemma SameDb(h: Hash, s: Service, s': Service)
    ensures s'.db == s.db && s'.history == s.history && DbOk(h, s) ==> DbOk(h, s')
  {
    hide Consistent;
  }

  /** Steps that only move the writer between states that hold no event. */
  lemma SwitchInv(h: Hash, cfg: Config, s: Service, a: Action)
    requires Inv(h, cfg, s)
    requires a.Start? || a.Seal? || a.Tick? || a.CallFlush? || a.FlushRequest? || a.FlushGivesUp? || a.SeeStop? || a.EndReplay?
    ensures Inv(h, cfg, WriterStep(h, cfg, s, a)) && WriterStep(h, cfg, s, a).lost == s.lost
  {
    hide IdOk, Keys, LiveIds, SpoolIds, ProducerIds, CloserOk, SpoolOk, DbOk;
    NoKeys();
    SameDb(h, s, WriterStep(h, cfg, s, a));
  }

  /** The writer with its batch given away. */
  function EmptyHanded(s: Service): Service
    requires s.writer.Persisting?
  {
    s.(writer := if s.writer.after.OneBatch? then Waiting else Collecting([], s.writer.after))
  }

  lemma EmptyHandedOk(h: Hash, cfg: Config, s: Service)
    requires Inv(h, cfg, s) && s.writer.Persisting?
    ensures Shape(h, cfg, EmptyHanded(s)) && IdsOk(s.writer.batch)
    ensures Held(s) == Held(EmptyHanded(s)) + Keys(EventId, s.writer.batch)
    ensures EmptyHanded(s).writer.Waiting? || EmptyHanded(s).writer.Collecting?
  {
    hide IdOk, Keys, LiveIds, SpoolIds, ProducerIds, CloserOk, SpoolOk, DbOk;
    NoKeys();
    SameDb(h, s, EmptyHanded(s));
  }

  lemma PersistInv(h: Hash, cfg: Config, s: Service, a: Action)
    requires Inv(h, cfg, s) && a.Persist?
    ensures Inv(h, cfg, WriterStep(h, cfg, s, a))
    ensures !TornSpool(cfg, s) ==> WriterStep(h, cfg, s, a).lost == s.lost
  {
    hide IdOk, Keys, LiveIds, SpoolIds, ProducerIds, CloserOk, SpoolOk, DbOk, AppendTo, SpoolOrDrop, WriterStep, Closed,
         EmptyHanded, IdsOk;
    PersistOutcome(h, cfg, s, a);
    if s.writer.Persisting? {
      var batch, idle := s.writer.batch, EmptyHanded(s);
      EmptyHandedOk(h, cfg, s);
      assert idle == s.(writer := idle.writer) by { OnlyWriter(s); }
      if a.dbUp {
        AppendToKeeps(h, idle, batch, true);
      } else {
        AppendToKeeps(h, idle, batch, false);
        SpoolOrDropKeeps(cfg, idle, batch, a.write);
        SameDb(h, idle, SpoolOrDrop(cfg, idle, batch, a.write));
      }
    }
  }

  lemma OnlyWriter(s: Service)
    requires s.writer.Persisting?
    ensures EmptyHanded(s) == s.(writer := EmptyHanded(s).writer)
  {
  }

  lemma PersistOutcome(h: Hash, cfg: Config, s: Service, a: Action)
    requires a.Persist?
    ensures WriterStep(h, cfg, s, a)
         == if !s.writer.Persisting? then s
            else
              var appended := AppendTo(h, EmptyHanded(s), s.writer.batch, a.dbUp);
              if appended.Some? then appended.value else SpoolOrDrop(cfg, EmptyHanded(s), s.writer.batch, a.write)
  {
    hide AppendTo, SpoolOrDrop;
  }

  lemma RotatedFilesOk(s: SpoolState, now: int)
    requires Appendable(s.active) && FilesOk(s.rotated)
    ensures FilesOk(Rotated(s, now).rotated) && Appendable(Rotated(s, now).active)
  {
    hide InsertFile, RemoveFile, Appendable;
    ClosedIsAppendable([]);
    var kept := RemoveFile(s.rotated, now);
    forall f ensures f in kept <==> f in s.rotated && f.name != now {
      RemovedFiles(s.rotated, now, f);
    }
    InsertedFile(kept, SpoolFile(now, s.active));
  }

  /** Rotation moves events between files, except those of a file it overwrites. */
  lemma RotatedIdsKeep(s: SpoolState, now: int)
    requires FilesOk(s.rotated)
    ensures SpoolIds(Rotated(s, now)) + Overwritten(s, now) == SpoolIds(s)
  {
    hide InsertFile, RemoveFile, SpooledIds, RotatedIds, DataOf, Closed;
    if s.active != [] {
      var s' := Rotated(s, now);
      assert SpooledIds([]) == {} by { EmptyFile(); }
      var kept := RemoveFile(s.rotated, now);
      InsertedFile(kept, SpoolFile(now, s.active));
      DataOfIds(s.rotated, now);
      forall id ensures id in SpoolIds(s') + Overwritten(s, now) <==> id in SpoolIds(s) {
        RotatedIdsMeaning(s'.rotated, id);
        RotatedIdsMeaning(s.rotated, id);
        MovedId(s, now, id);
      }
    }
  }

  lemma EmptyFile()
    ensures SpooledIds([]) == {}
  {
    NoKeys();
  }

  lemma MovedId(s: SpoolState, now: int, id: Bytes)
    requires FilesOk(s.rotated) && s.active != []
    ensures (exists f :: f in Rotated(s, now).rotated && id in SpooledIds(f.data)) || id in SpooledIds(DataOf(s.rotated, now))
       <==> (exists f :: f in s.rotated && id in SpooledIds(f.data)) || id in SpooledIds(s.active) || id in SpooledIds(DataOf(s.rotated, now))
    ensures id in SpooledIds(s.active) ==> exists f :: f in Rotated(s, now).rotated && id in SpooledIds(f.data)
  {
    hide InsertFile, RemoveFile, SpooledIds, DataOf, Closed;
    var kept := RemoveFile(s.rotated, now);
    var active := SpoolFile(now, s.active);
    InsertedFile(kept, active);
    if exists f :: f in s.rotated && id in SpooledIds(f.data) {
      var f :| f in s.rotated && id in SpooledIds(f.data);
      RemovedFiles(s.rotated, now, f);
      DataOfMeaning(s.rotated, f);
    }
    if exists f :: f in Rotated(s, now).rotated && id in SpooledIds(f.data) {
      var f :| f in Rotated(s, now).rotated && id in SpooledIds(f.data);
      RemovedFiles(s.rotated, now, f);
    }
    if id in SpooledIds(s.active) {
      assert active in Rotated(s, now).rotated && id in SpooledIds(active.data);
    }
  }

  lemma RotateInv(h: Hash, cfg: Config, s: Service, a: Action)
    requires Inv(h, cfg, s) && a.Rotate?
    ensures Inv(h, cfg, WriterStep(h, cfg, s, a))
  {
    hide IdOk, Keys, LiveIds, ProducerIds, CloserOk, DbOk, Rotated, FilesOk, Appendable, Overwritten, SpoolIds, Capped;
    var s' := WriterStep(h, cfg, s, a);
    SameDb(h, s, s');
    if s.writer.Rotating? {
      RotatedFilesOk(s.spool, a.now);
      SpoolStaysCapped(s.spool, cfg.maxBytes, [], Unwritten, a.now, 0);
      RotatedIdsKeep(s.spool, a.now);
    }
  }

  lemma ReadInv(h: Hash, cfg: Config, s: Service, a: Action)
    requires Inv(h, cfg, s) && a.ReadFile?
    ensures Inv(h, cfg, WriterStep(h, cfg, s, a)) && WriterStep(h, cfg, s, a).lost == s.lost
  {
    hide IdOk, Keys, LiveIds, ProducerIds, CloserOk, DbOk, SpoolIds, DataOf, ReadSpool, Capped, RotatedIds, LinesFit;
    var s' := WriterStep(h, cfg, s, a);
    SameDb(h, s, s');
    if s'.writer.Replaying? && s'.writer.rest.Some? && s.writer.rest.None? {
      DataOfIds(s.spool.rotated, s.writer.files[0]);
      forall f | f in s.spool.rotated && f.name == s.writer.files[0]
        ensures SpooledIds(f.data) <= Keys(EventId, s'.writer.rest.value) + LiveIds(s.history)
      {
        DataOfMeaning(s.spool.rotated, f);
      }
    }
  }

  lemma ChunkInv(h: Hash, cfg: Config, s: Service, a: Action)
    requires cfg.Valid() && Inv(h, cfg, s) && a.ReplayChunk?
    ensures Inv(h, cfg, WriterStep(h, cfg, s, a)) && WriterStep(h, cfg, s, a).lost == s.lost
  {
    hide IdOk, Keys, LiveIds, ProducerIds, CloserOk, DbOk, SpoolOk, AppendTo, SpooledIds, RotatedIds, WriterStep;
    var s' := WriterStep(h, cfg, s, a);
    NoChunk(h, cfg, s, a);
    SameDb(h, s, s.(writer := Waiting));
    if s.writer.Replaying? && s.writer.rest.Some? && s.writer.rest.value != [] {
      var rows, files := s.writer.rest.value, s.writer.files;
      var n := Chunk(cfg, rows);
      var moved := s.(writer := Replaying(files, Some(rows[n..])));
      SameDb(h, s, moved);
      AppendToKeeps(h, moved, rows[..n], a.dbUp);
      KeysConcat(EventId, rows[..n], rows[n..]);
      assert rows == rows[..n] + rows[n..];
      ChunkOutcome(h, cfg, s, a);
    }
  }

  lemma NoChunk(h: Hash, cfg: Config, s: Service, a: Action)
    requires a.ReplayChunk?
    ensures !(s.writer.Replaying? && s.writer.rest.Some? && s.writer.rest.value != []) ==> WriterStep(h, cfg, s, a) == s
  {
    hide AppendTo;
  }

  lemma ChunkOutcome(h: Hash, cfg: Config, s: Service, a: Action)
    requires a.ReplayChunk? && s.writer.Replaying? && s.writer.rest.Some? && s.writer.rest.value != []
    ensures var rows := s.writer.rest.value;
            var n := Chunk(cfg, rows);
            var next := AppendTo(h, s.(writer := Replaying(s.writer.files, Some(rows[n..]))), rows[..n], a.dbUp);
            WriterStep(h, cfg, s, a) == if next.Some? then next.value else s.(writer := Waiting)
  {
    hide AppendTo;
  }

  /** A spool file is removed only once all its events are in the chain. */
  lemma RemoveInv(h: Hash, cfg: Config, s: Service, a: Action)
    requires Inv(h, cfg, s) && a.Remove?
    ensures Inv(h, cfg, WriterStep(h, cfg, s, a)) && WriterStep(h, cfg, s, a).lost == s.lost
    ensures forall f :: f in s.spool.rotated && f !in WriterStep(h, cfg, s, a).spool.rotated ==> SpooledIds(f.data) <= LiveIds(s.history)
  {
    hide IdOk, LiveIds, ProducerIds, CloserOk, DbOk, Closed, SpooledIds, RotatedIds, RemoveFile, Capped, FilesOk,
         WriterStep,
         IdsOk;
    var s' := WriterStep(h, cfg, s, a);
    RemoveOutcome(h, cfg, s, a);
    SameDb(h, s, s');
    NoKeys();
    if s.writer.Replaying? && s.writer.rest == Some([]) && s.writer.files != [] {
      var name := s.writer.files[0];
      RemovedIds(s.spool.rotated, name, LiveIds(s.history));
      SpoolStaysCapped(s.spool, cfg.maxBytes, [], Unwritten, 0, name);
    }
  }

  lemma RemoveOutcome(h: Hash, cfg: Config, s: Service, a: Action)
    requires a.Remove?
    ensures WriterStep(h, cfg, s, a)
         == if s.writer.Replaying? && s.writer.rest == Some([]) && s.writer.files != [] then
              s.(spool := s.spool.(rotated := RemoveFile(s.spool.rotated, s.writer.files[0])),
                 writer := Replaying(s.writer.files[1..], None))
            else s
  {
  }

  lemma RemovedIds(files: seq<SpoolFile>, name: int, chain: set<Bytes>)
    requires FilesOk(files)
    requires forall f :: f in files && f.name == name ==> SpooledIds(f.data) <= chain
    ensures FilesOk(RemoveFile(files, name))
    ensures RotatedIds(RemoveFile(files, name)) + chain == RotatedIds(files) + chain
    ensures forall f :: f in files && f !in RemoveFile(files, name) ==> SpooledIds(f.data) <= chain
  {
    hide SpooledIds, RotatedIds, RemoveFile, Closed;
    var kept := RemoveFile(files, name);
    forall f ensures f in kept <==> f in files && f.name != name {
      RemovedFiles(files, name, f);
    }
    forall id ensures id in RotatedIds(files) + chain <==> id in RotatedIds(kept) + chain {
      RotatedIdsMeaning(files, id);
      RotatedIdsMeaning(kept, id);
    }
  }

  // ---------- closing, the outside, the end ----------

  lemma CloserStepInv(h: Hash, cfg: Config, s: Service, a: Action)
    requires Inv(h, cfg, s) && (a.Close? || a.CloseTake? || a.CloseSeal? || a.CloseSpool? || a.CloseTimeout?)
    ensures Inv(h, cfg, CloserStep(cfg, s, a))
    ensures !(a.CloseSpool? && TornSpool(cfg, s)) ==> CloserStep(cfg, s, a).lost == s.lost
  {
    hide IdOk, Keys, LiveIds, SpoolIds, ProducerIds, WriterOk, SpoolOk, DbOk, SpoolOrDrop, Closed;
    var s' := CloserStep(cfg, s, a);
    NoKeys();
    if s.closer.DrainingLate? && s.queue != [] {
      KeysTake(s.queue, s.closer.late);
    }
    if a.CloseSpool? && s.closer.SpoolingLate? {
      SpoolOrDropKeeps(cfg, s.(closer := Finished), s.closer.late, a.write);
    }
    SameWriter(h, cfg, s, s');
  }

  lemma RetentionKeeps(h: Hash, s: Service, cutoff: int, micro: int)
    requires DbOk(h, s)
    ensures DbOk(h, s.(db := ArchiveOne(h, s.db, map[], cutoff, micro).db))
  {
    hide Consistent, ArchiveOne;
    ArchiveOneMeaning(h, s.db, s.history, map[], cutoff, micro);
  }

  lemma OtherAppendInv(h: Hash, cfg: Config, s: Service, batch: seq<Content>)
    requires Inv(h, cfg, s)
    ensures Inv(h, cfg, OutsideStep(h, s, OtherAppend(batch)))
  {
    hide IdOk, Keys, LiveIds, SpoolIds, SpoolOk, DbOk, AppendTo, SpooledIds, ProducerIds, RotatedIds, IdsOk;
    AppendToKeeps(h, s, batch, true);
    var s' := AppendTo(h, s, batch, true).value;
    assert WriterOk(cfg, s');
    assert Held(s') == Held(s) + Keys(EventId, batch);
    var s'' := s'.(recorded := s.recorded + Keys(EventId, batch));
    SameDb(h, s', s'');
    assert InMemory(s'') == InMemory(s');
  }

  lemma ExitInv(h: Hash, cfg: Config, s: Service)
    requires Inv(h, cfg, s)
    ensures Inv(h, cfg, OutsideStep(h, s, Exit))
  {
    hide IdOk, Keys, LiveIds, SpoolIds, SpoolOk, DbOk;
    var s' := OutsideStep(h, s, Exit);
    NoKeys();
    SameDb(h, s, s');
    assert ProducerIds(s'.producers) == {};
    assert InMemory(s') == {};
    assert Held(s') == Held(s);
    assert ProducersOk(s'.producers) && IdsOk(s'.queue) && |s'.queue| <= cfg.queueSize;
    assert s'.closed || s'.closer.NotClosing?;
    assert WriterOk(cfg, s') && CloserOk(s'.closer);
    assert SpoolOk(cfg, s'.spool);
    assert DbOk(h, s');
  }

  lemma RetentionInv(h: Hash, cfg: Config, s: Service, cutoff: int, micro: int)
    requires Inv(h, cfg, s)
    ensures Inv(h, cfg, OutsideStep(h, s, Retention(cutoff, micro)))
  {
    hide IdOk, Keys, LiveIds, SpoolIds, SpoolOk, DbOk, ArchiveOne, SpooledIds, ProducerIds, RotatedIds, IdsOk;
    RetentionKeeps(h, s, cutoff, micro);
  }

  lemma OutsideStepInv(h: Hash, cfg: Config, s: Service, a: Action)
    requires Inv(h, cfg, s) && (a.Retention? || a.OtherAppend? || a.Exit?)
    ensures Inv(h, cfg, OutsideStep(h, s, a))
    ensures !Loses(cfg, s, a) ==> OutsideStep(h, s, a).lost == s.lost
  {
    hide Inv, OutsideStep, InMemory;
    OutsideLoses(h, s, a);
    match a
    case Retention(cutoff, micro) => RetentionInv(h, cfg, s, cutoff, micro);
    case OtherAppend(batch) => OtherAppendInv(h, cfg, s, batch);
    case Exit => ExitInv(h, cfg, s);
  }

  lemma OutsideLoses(h: Hash, s: Service, a: Action)
    ensures !(a.Exit? && InMemory(s) != {}) ==> OutsideStep(h, s, a).lost == s.lost
  {
    hide AppendAlone, ArchiveOne, Added, InMemory;
  }

  // ---------- conservation ----------

  /** A rotation of other data onto the name of a file that is still there. */
  predicate Collides(s: SpoolState, now: int) {
    s.active != [] && exists f :: f in s.rotated && f.name == now && f.data != s.active
  }

  /**
   The step may lose something: the process ends with events in its memory, a rotation collides, or the spool is
   written behind a torn write.
   */
  predicate Loses(cfg: Config, s: Service, a: Action) {
    || (a.Exit? && InMemory(s) != {})
    || ((a.Send? || a.Persist? || a.CloseSpool?) && TornSpool(cfg, s))
    || (a.Rotate? && s.writer.Rotating? && cfg.spooling && a.renamed && Collides(s.spool, a.now))
  }

  lemma StepInv(h: Hash, cfg: Config, s: Service, a: Action)
    requires cfg.Valid() && Inv(h, cfg, s)
    ensures Inv(h, cfg, Step(h, cfg, s, a))
    ensures !Loses(cfg, s, a) ==> Step(h, cfg, s, a).lost == s.lost
  {
    hide Inv, ProducerStep, WriterStep, CloserStep, OutsideStep, InMemory, Collides, TornSpool;
    match a
    case Record(_, _) => RecordInv(h, cfg, s, a);
    case Send(_, _) => SendInv(h, cfg, s, a);
    case Take => TakeInv(h, cfg, s, a);
    case TakeMore => TakeInv(h, cfg, s, a);
    case Persist(_, _) => PersistInv(h, cfg, s, a);
    case Rotate(_, _) =>
      RotateInv(h, cfg, s, a);
      RotateLoses(h, cfg, s, a);
    case ReadFile(_) => ReadInv(h, cfg, s, a);
    case ReplayChunk(_) => ChunkInv(h, cfg, s, a);
    case Remove => RemoveInv(h, cfg, s, a);
    case Retention(_, _) => OutsideStepInv(h, cfg, s, a);
    case OtherAppend(_) => OutsideStepInv(h, cfg, s, a);
    case Exit => OutsideStepInv(h, cfg, s, a);
    case Close => CloserStepInv(h, cfg, s, a);
    case CloseTake => CloserStepInv(h, cfg, s, a);
    case CloseSeal => CloserStepInv(h, cfg, s, a);
    case CloseSpool(_) => CloserStepInv(h, cfg, s, a);
    case CloseTimeout => CloserStepInv(h, cfg, s, a);
    case _ => SwitchInv(h, cfg, s, a);
  }

  lemma RotateLoses(h: Hash, cfg: Config, s: Service, a: Action)
    requires a.Rotate?
    ensures !Loses(cfg, s, a) ==> WriterStep(h, cfg, s, a).lost == s.lost
  {
    hide Rotated, SpooledIds, FileIndex;
    EmptyFile();
    FileIndexMeaning(s.spool.rotated, a.now);
  }

  predicate RunLoses(h: Hash, cfg: Config, s: Service, actions: seq<Action>) {
    exists i :: 0 <= i < |actions| && Loses(cfg, Run(h, cfg, s, actions[..i]), actions[i])
  }

  /**
   Delivery conservation over every run: each event recorded is in a producer's hand, the queue, the writer's or
   the closer's batch, a spool file or the chain, or was counted as dropped, or was lost; and nothing is ever lost
   unless the process ends with events in its memory, a rotation collides or the spool is written behind a torn
   write. The spool stays below its cap.
   */
  lemma {:induction false} RunConserves(h: Hash, cfg: Config, s: Service, actions: seq<Action>)
    requires cfg.Valid() && Inv(h, cfg, s)
    ensures Inv(h, cfg, Run(h, cfg, s, actions))
    ensures !RunLoses(h, cfg, s, actions) ==> Run(h, cfg, s, actions).lost == s.lost
    decreases |actions|
  {
    hide Inv, Step, Loses;
    if actions != [] {
      var n := |actions| - 1;
      RunConserves(h, cfg, s, actions[..n]);
      StepInv(h, cfg, Run(h, cfg, s, actions[..n]), actions[n]);
      if !RunLoses(h, cfg, s, actions) {
        assert !Loses(cfg, Run(h, cfg, s, actions[..n]), actions[n]);
        forall i | 0 <= i < n ensures !Loses(cfg, Run(h, cfg, s, actions[..n][..i]), actions[..n][i]) {
          assert actions[..n][..i] == actions[..i];
          assert !Loses(cfg, Run(h, cfg, s, actions[..i]), actions[i]);
        }
      }
    }
  }

  // ---------- what an orderly Close still loses ----------

  /** Close has returned: the writer has stopped, the late events are spooled. */
  predicate ShutDown(s: Service) {
    s.closed && s.writer.Stopped? && s.closer.Finished?
  }

  /** A producer that found the service open has not sent yet. */
  predicate OpenProducer(s: Service) {
    exists p :: p in s.producers && s.producers[p].open
  }

  lemma ShutDownStep(h: Hash, cfg: Config, s: Service, a: Action)
    requires ShutDown(s) && !a.Exit?
    ensures ShutDown(Step(h, cfg, s, a)) && s.queue <= Step(h, cfg, s, a).queue
    ensures !OpenProducer(s) ==> !OpenProducer(Step(h, cfg, s, a)) && Step(h, cfg, s, a).queue == s.queue
  {
    hide SpoolAppend, Keys, AppendAlone, ArchiveOne, Added, IdOk;
    var s' := Step(h, cfg, s, a);
    assert forall p :: p in s'.producers && s'.producers[p].open ==> p in s.producers && s.producers[p] == s'.producers[p];
  }

  /** Once shut down, nobody takes from the queue any more. */
  lemma {:induction false} ShutDownRun(h: Hash, cfg: Config, s: Service, actions: seq<Action>)
    requires ShutDown(s) && Exit !in actions
    ensures ShutDown(Run(h, cfg, s, actions)) && s.queue <= Run(h, cfg, s, actions).queue
    ensures !OpenProducer(s) ==> !OpenProducer(Run(h, cfg, s, actions)) && Run(h, cfg, s, actions).queue == s.queue
    decreases |actions|
  {
    hide Step, ShutDown, OpenProducer;
    if actions != [] {
      var n := |actions| - 1;
      ShutDownRun(h, cfg, s, actions[..n]);
      ShutDownStep(h, cfg, Run(h, cfg, s, actions[..n]), actions[n]);
    }
  }

  ghost predicate CanStrand(h: Hash, cfg: Config, s: Service) {
    exists actions :: Exit !in actions && Run(h, cfg, s, actions).queue != []
  }

  /**
   An event can be stranded behind a Close that found the queue empty exactly when some producer was between its
   check of `closed` and its send. The documentation promises that such events go to the spool; Close spools only
   those that had reached the queue when it drained it for the last time.
   */
  lemma StrandedIff(h: Hash, cfg: Config, s: Service)
    requires cfg.Valid() && ShutDown(s) && s.queue == []
    ensures CanStrand(h, cfg, s) <==> OpenProducer(s)
  {
    if OpenProducer(s) {
      var p :| p in s.producers && s.producers[p].open;
      var actions := [Send(p, Whole)];
      assert actions[..0] == [] && Run(h, cfg, s, []) == s;
      assert Run(h, cfg, s, actions) == Step(h, cfg, s, Send(p, Whole)) by { hide Step; }
      assert Exit !in actions && Run(h, cfg, s, actions).queue != [];
    } else {
      hide Run, OpenProducer;
      forall actions | Exit !in actions ensures Run(h, cfg, s, actions).queue == [] {
        ShutDownRun(h, cfg, s, actions);
      }
    }
  }

  /** A started service being closed by a caller that waits: the closer follows the writer. */
  predicate Closing(s: Service) {
    && s.closed && s.started && !s.writer.Unstarted?
    && (s.closer.AwaitingWriter? || (s.writer.Stopped? && !s.closer.NotClosing?))
  }

  lemma ClosingStep(h: Hash, cfg: Config, s: Service, a: Action)
    requires Closing(s) && a != Exit && a != CloseTimeout
    ensures Closing(Step(h, cfg, s, a))
  {
    hide SpoolAppend, Keys, AppendAlone, ArchiveOne, Added, IdOk, Overwritten, LinesFit;
  }

  lemma {:induction false} ClosingRun(h: Hash, cfg: Config, s: Service, actions: seq<Action>)
    requires Closing(s) && Exit !in actions && CloseTimeout !in actions
    ensures Closing(Run(h, cfg, s, actions))
    decreases |actions|
  {
    hide Step, Closing;
    if actions != [] {
      var n := |actions| - 1;
      ClosingRun(h, cfg, s, actions[..n]);
      ClosingStep(h, cfg, Run(h, cfg, s, actions[..n]), actions[n]);
    }
  }

  /** The writer stops only with an empty queue: everything recorded by then is stored, dropped or still in a hand. */
  lemma WriterStopsEmpty(h: Hash, cfg: Config, s: Service, a: Action)
    requires cfg.Valid() && Inv(h, cfg, s) && !s.writer.Stopped? && Step(h, cfg, s, a).writer.Stopped?
    ensures var s' := Step(h, cfg, s, a);
            && s'.queue == []
            && s'.recorded == ProducerIds(s'.producers) + LateIds(s'.closer)
                              + SpoolIds(s'.spool) + LiveIds(s'.history) + s'.dropped + s'.lost
  {
    hide Step, Shape, SpoolIds, LiveIds, ProducerIds, Keys;
    NoKeys();
    StepInv(h, cfg, s, a);
    StopOutcome(h, cfg, s, a);
  }

  lemma StopOutcome(h: Hash, cfg: Config, s: Service, a: Action)
    requires cfg.Valid() && !s.writer.Stopped? && Step(h, cfg, s, a).writer.Stopped?
    ensures Step(h, cfg, s, a) == s.(writer := Stopped) && s.queue == []
  {
    hide SpoolAppend, AppendTo, ArchiveOne, IdOk, Keys, Overwritten, LinesFit, Rotated, InMemory;
    StoppedBySeal(h, cfg, s, a);
  }

  lemma StoppedBySeal(h: Hash, cfg: Config, s: Service, a: Action)
    requires !s.writer.Stopped? && Step(h, cfg, s, a).writer.Stopped?
    ensures a.Seal?
  {
    hide SpoolAppend, AppendAlone, Added, ArchiveOne, IdOk, Keys, Overwritten, LinesFit, Rotated, InMemory;
  }

  /**
   Close, waited for, on a started service: when it has returned with the queue empty and no producer past its check
   of `closed`, then whatever happens afterwards, the end of the process loses nothing but the events of producers
   whose Record has not returned.
   */
  lemma OrderlyExit(h: Hash, cfg: Config, s: Service, actions: seq<Action>, more: seq<Action>)
    requires s.started && !s.writer.Unstarted? && !s.closed
    requires Exit !in actions && CloseTimeout !in actions && Exit !in more
    ensures var closed := Run(h, cfg, Step(h, cfg, s, Close), actions);
            var last := Run(h, cfg, closed, more);
            closed.closer.Finished? && closed.queue == [] && !OpenProducer(closed)
            ==> ShutDown(closed) && Step(h, cfg, last, Exit).lost == last.lost + ProducerIds(last.producers)
  {
    hide Run, OpenProducer;
    var closed := Run(h, cfg, Step(h, cfg, s, Close), actions);
    var last := Run(h, cfg, closed, more);
    ClosingRun(h, cfg, Step(h, cfg, s, Close), actions);
    if closed.closer.Finished? && closed.queue == [] && !OpenProducer(closed) {
      ShutDownRun(h, cfg, closed, more);
      NoKeys();
    }
  }

  /** A Close that is not waited for returns without touching anything; the end of the process then loses all that is in memory. */
  lemma TimedOutClose(h: Hash, cfg: Config, s: Service)
    requires s.closer.AwaitingWriter?
    ensures var s' := Step(h, cfg, s, CloseTimeout);
            && s' == s.(closer := Finished)
            && Step(h, cfg, s', Exit).lost == s.lost + ProducerIds(s.producers) + Keys(EventId, s.queue) + WriterIds(s.writer)
  {
    hide Keys, ProducerIds, WriterIds;
  }

  /** A rotation keeps all rotated files if and only if it does not collide. */
  lemma RotationKeepsFilesIff(s: SpoolState, now: int)
    requires FilesOk(s.rotated)
    ensures (forall f :: f in s.rotated ==> f in Rotated(s, now).rotated)
       <==> s.active == [] || forall f :: f in s.rotated && f.name == now ==> f.data == s.active
    ensures (forall f :: f in s.rotated ==> f in Rotated(s, now).rotated) <==> !Collides(s, now)
  {
    hide InsertFile, RemoveFile, Closed;
    if s.active != [] {
      var active := SpoolFile(now, s.active);
      InsertedFile(RemoveFile(s.rotated, now), active);
      forall f | f in s.rotated ensures f in Rotated(s, now).rotated <==> f.name != now || f == active {
        RemovedFiles(s.rotated, now, f);
      }
      assert forall f: SpoolFile :: f.name == now && f.data == s.active ==> f == active;
    }
  }

  /** An event that the spool has accepted as written is in it if and only if the file ended with a complete line. */
  lemma AcceptedEventIff(cfg: Config, s: Service, e: Content)
    requires cfg.spooling && SpoolOk(cfg, s.spool) && IdOk(e) && e.eventId !in SpooledIds(s.spool.active)
    requires SpoolAppend(s.spool, [e], cfg.maxBytes, Whole).ok
    ensures var s' := SpoolOrDrop(cfg, s, [e], Whole);
            && s'.dropped == s.dropped
            && (e.eventId in SpooledIds(s'.spool.active) <==> Closed(s.spool.active))
            && (e.eventId in s'.lost <==> e.eventId in s.lost || !Closed(s.spool.active))
  {
    hide ReadSpool, SpoolBytes, Closed, Appendable, IdOk, SanitizeContent;
    NextIsReadIff(s.spool.active, e);
    KeysOne(e);
    OneMoreEvent(ReadSpool(s.spool.active), e);
    if !Closed(s.spool.active) {
      MoreEvents(ReadSpool(s.spool.active + SpoolBytes([e])), ReadSpool(s.spool.active));
    }
  }

  /** A fresh service on a consistent database and whatever spool an earlier process left. */
  lemma FreshServiceInv(h: Hash, cfg: Config, spool: SpoolState, db: Db, history: seq<Row>)
    requires SpoolOk(cfg, spool) && Consistent(h, db, history) && db.tail.Some?
    ensures Inv(h, cfg, Service(false, false, 0, [], Unstarted, NotClosing, map[], spool, db, history,
                                SpoolIds(spool) + LiveIds(history), {}, {}))
  {
    hide Consistent, LiveIds, SpoolIds, SpoolOk;
    NoKeys();
    assert ProducerIds(map[]) == {};
  }

  /** A new installation: empty database with its tail row, empty spool. */
  const NEW_INSTALLATION: Service :=
    Service(false, false, 0, [], Unstarted, NotClosing, map[], SpoolState([], []), Db([], [], Some(Tail(0, GENESIS_HASH))), [], {}, {}, {})

  /** Conservation for every run of a new installation, without reference to the invariant that proves it. */
  lemma NothingDisappears(h: Hash, cfg: Config, actions: seq<Action>)
    requires cfg.Valid()
    ensures var s := Run(h, cfg, NEW_INSTALLATION, actions);
            && Held(s) == s.recorded
            && (cfg.maxBytes > 0 ==> |s.spool.active + AllData(s.spool.rotated)| <= cfg.maxBytes)
            && (!RunLoses(h, cfg, NEW_INSTALLATION, actions) ==> s.lost == {})
  {
    hide Run, Held, RunLoses, Consistent, SpoolIds, LiveIds, GENESIS_HASH, Repeat;
    var db := Db([], [], Some(Tail(0, GENESIS_HASH)));
    assert Consistent(h, db, []) by { EmptyIsConsistent(h, db); }
    assert SpoolIds(SpoolState([], [])) == {} by { EmptySpool(); }
    assert LiveIds([]) == {} by { NoLiveIds(); }
    ClosedIsAppendable([]);
    FreshServiceInv(h, cfg, SpoolState([], []), db, []);
    assert SpoolIds(SpoolState([], [])) + LiveIds([]) == {};
    assert Inv(h, cfg, NEW_INSTALLATION);
    RunConserves(h, cfg, NEW_INSTALLATION, actions);
    SizeOfAll(Run(h, cfg, NEW_INSTALLATION, actions).spool);
  }

  lemma EmptySpool()
    ensures SpoolIds(SpoolState([], [])) == {}
  {
    EmptyFile();
    hide SpooledIds;
    assert RotatedIds([]) == {};
  }

  lemma NoLiveIds()
    ensures LiveIds([]) == {}
  {
  }

  lemma EmptyIsConsistent(h: Hash, db: Db)
    requires db == Db([], [], Some(Tail(0, GENESIS_HASH)))
    ensures Consistent(h, db, [])
  {
    hide GENESIS_HASH, Repeat, ComputeHash, MakePlan;
  }
}
