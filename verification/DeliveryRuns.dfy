/** Runs of the delivery protocol that lose an event which Record or the spool had accepted. */
module DeliveryRuns {
  import opened ByteStrings
  import opened Chain
  import opened FirstOccurrences
  import opened ArchiveFile
  import opened AuditSteps
  import opened AuditBatches
  import opened Json
  import opened Options
  import opened Spool
  import opened SpoolTears
  import opened Delivery

  // ---------- a run that strands an event ----------

  lemma LastAction(h: Hash, cfg: Config, s: Service, actions: seq<Action>, a: Action)
    ensures Run(h, cfg, s, actions + [a]) == Step(h, cfg, Run(h, cfg, s, actions), a)
  {
    assert (actions + [a])[..|actions|] == actions;
  }

  lemma TwoActions(h: Hash, cfg: Config, s: Service, a: Action, b: Action)
    ensures Run(h, cfg, s, [a, b]) == Step(h, cfg, Step(h, cfg, s, a), b)
  {
    hide Step;
    LastAction(h, cfg, s, [], a);
    LastAction(h, cfg, s, [a], b);
    assert [] + [a] == [a] && [a] + [b] == [a, b];
  }

  lemma {:induction false} RunOfConcat(h: Hash, cfg: Config, s: Service, a: seq<Action>, b: seq<Action>)
    ensures Run(h, cfg, s, a + b) == Run(h, cfg, Run(h, cfg, s, a), b)
    decreases |b|
  {
    hide Step;
    if b == [] {
      assert a + b == a;
    } else {
      var n := |b| - 1;
      RunOfConcat(h, cfg, s, a, b[..n]);
      assert (a + b)[..|a| + n] == a + b[..n] && (a + b)[|a| + n] == b[n];
    }
  }

  /** Close returns while a producer stands between its check of `closed` and its send. */
  function CloseTooEarly(e: Content): seq<Action> {
    [Action.Start, Rotate(0, false)] + [Record(0, e), Close] + [SeeStop, Seal] + [CloseTake, CloseSeal]
  }

  /** The service then: shut down, with the event in the producer's hand. */
  function ClosedEarly(e: Content): Service {
    NEW_INSTALLATION.(started := true, closed := true, writer := Stopped, closer := Finished,
                      producers := map[0 := Producer(e, true)], recorded := {e.eventId})
  }

  lemma ClosedEarlyStart(h: Hash, cfg: Config, e: Content)
    requires IdOk(e)
    ensures var s2 := NEW_INSTALLATION.(started := true, writer := Waiting);
            && Step(h, cfg, Step(h, cfg, NEW_INSTALLATION, Action.Start), Rotate(0, false)) == s2
            && Step(h, cfg, Step(h, cfg, s2, Record(0, e)), Close)
               == s2.(closed := true, closer := AwaitingWriter, producers := map[0 := Producer(e, true)], recorded := {e.eventId})
  {
    hide IdOk, GENESIS_HASH, Keys, AppendTo, SpoolOrDrop, Rotated, ReadSpool, ArchiveOne;
  }

  lemma ClosedEarlyEnd(h: Hash, cfg: Config, e: Content)
    requires cfg.Valid()
    ensures var s4 := ClosedEarly(e).(writer := Waiting, closer := AwaitingWriter);
            && Step(h, cfg, Step(h, cfg, s4, SeeStop), Seal) == s4.(writer := Stopped)
            && Step(h, cfg, Step(h, cfg, s4.(writer := Stopped), CloseTake), CloseSeal) == ClosedEarly(e)
  {
    hide GENESIS_HASH, Keys, AppendTo, SpoolOrDrop, Rotated, ReadSpool, ArchiveOne;
  }

  lemma ClosedEarlyRun(h: Hash, cfg: Config, e: Content)
    requires cfg.Valid() && IdOk(e)
    ensures Run(h, cfg, NEW_INSTALLATION, CloseTooEarly(e)) == ClosedEarly(e)
  {
    hide Run, IdOk, Step, NEW_INSTALLATION;
    var s := NEW_INSTALLATION;
    var a, b, c, d := [Action.Start, Rotate(0, false)], [Record(0, e), Close], [SeeStop, Seal], [CloseTake, CloseSeal];
    ClosedEarlyStart(h, cfg, e);
    ClosedEarlyEnd(h, cfg, e);
    TwoActions(h, cfg, s, a[0], a[1]);
    TwoActions(h, cfg, Run(h, cfg, s, a), b[0], b[1]);
    RunOfConcat(h, cfg, s, a, b);
    TwoActions(h, cfg, Run(h, cfg, s, a + b), c[0], c[1]);
    RunOfConcat(h, cfg, s, a + b, c);
    TwoActions(h, cfg, Run(h, cfg, s, a + b + c), d[0], d[1]);
    RunOfConcat(h, cfg, s, a + b + c, d);
  }

  /**
   From a new installation Close can return with such a producer inside; its send then succeeds, its event is in
   neither spool nor chain nor counted as dropped, and it is lost when the process ends.
   */
  lemma EventCanBeStranded(h: Hash, cfg: Config, e: Content)
    requires cfg.Valid() && IdOk(e)
    ensures var s := Run(h, cfg, NEW_INSTALLATION, CloseTooEarly(e));
            && ShutDown(s) && s.queue == [] && OpenProducer(s)
            && var end := Run(h, cfg, s, [Send(0, Whole), Exit]);
               end.lost == {e.eventId} && end.dropped == {} && end.spool == SpoolState([], []) && end.history == []
  {
    hide Run, IdOk, GENESIS_HASH, Keys;
    ClosedEarlyRun(h, cfg, e);
    var s := ClosedEarly(e);
    assert 0 in s.producers && s.producers[0].open;
    TwoActions(h, cfg, s, Send(0, Whole), Exit);
    KeysOne(e);
    NoKeys();
    assert s.producers - {0} == map[];
    assert ProducerIds(map[]) == {};
    assert [] + [e] == [e];
  }

  // ---------- a run that loses an event behind a torn write ----------

  /** The service is closed before it was started; then two events are recorded, and the write of the first is torn. */
  function TearThenWrite(e: Content, f: Content): seq<Action> {
    [Close, Record(0, e)] + [Send(0, Torn(1)), Record(0, f)] + [Send(0, Whole)]
  }

  /** Closed, with one event in a producer's hand. */
  function ClosedWith(e: Content, spool: SpoolState, dropped: set<Bytes>, recorded: set<Bytes>): Service {
    NEW_INSTALLATION.(closed := true, closer := Finished, producers := map[0 := Producer(e, false)], spool := spool,
                      dropped := dropped, recorded := recorded)
  }

  lemma ClosedFirst(h: Hash, cfg: Config, e: Content)
    requires IdOk(e)
    ensures Step(h, cfg, Step(h, cfg, NEW_INSTALLATION, Close), Record(0, e))
         == ClosedWith(e, SpoolState([], []), {}, {e.eventId})
  {
    hide IdOk, GENESIS_HASH;
  }

  lemma TornSend(h: Hash, cfg: Config, e: Content, f: Content)
    requires cfg.spooling && cfg.maxBytes <= 0 && IdOk(f)
    ensures Step(h, cfg, Step(h, cfg, ClosedWith(e, SpoolState([], []), {}, {e.eventId}), Send(0, Torn(1))), Record(0, f))
         == ClosedWith(f, SpoolState([OPEN], []), {e.eventId}, {e.eventId, f.eventId})
  {
    hide IdOk, GENESIS_HASH, ReadSpool, Keys, SpoolBytes, TotalSize;
    EmptyFile();
    KeysOne(e);
    NoKeys();
    SpoolStartsOpen(e);
    var s := ClosedWith(e, SpoolState([], []), {}, {e.eventId});
    assert [] + [OPEN] == [OPEN] && s.producers - {0} == map[];
    assert {e.eventId} + {f.eventId} == {e.eventId, f.eventId};
  }

  lemma SpoolStartsOpen(e: Content)
    ensures FirstBytes(SpoolBytes([e]), 1) == [OPEN]
  {
    hide EncodeRow, SpoolBytes;
    SpoolOfOne(e);
    StartsOpen(SpoolRow(e));
  }

  lemma GluedSend(h: Hash, cfg: Config, e: Content, f: Content)
    requires cfg.spooling && cfg.maxBytes <= 0
    ensures var s := ClosedWith(f, SpoolState([OPEN], []), {e.eventId}, {e.eventId, f.eventId});
            var s' := Step(h, cfg, s, Send(0, Whole));
            && s' == s.(producers := map[], spool := s'.spool, lost := {f.eventId})
            && SpoolIds(s'.spool) == {}
  {
    hide ReadSpool, SpoolBytes, Keys, TotalSize, GENESIS_HASH;
    KeysOne(f);
    NoKeys();
    EmptyFile();
    TornWriteSwallowsNext([], e, f);
    var s := ClosedWith(f, SpoolState([OPEN], []), {e.eventId}, {e.eventId, f.eventId});
    assert [] + [OPEN] == [OPEN] && s.producers - {0} == map[];
  }

  /** From a new installation: the second event is reported as written, and is neither in the spool nor counted. */
  lemma TearLosesNext(h: Hash, cfg: Config, e: Content, f: Content)
    requires cfg.spooling && cfg.maxBytes <= 0 && IdOk(e) && IdOk(f)
    ensures var s := Run(h, cfg, NEW_INSTALLATION, TearThenWrite(e, f));
            && s.lost == {f.eventId} && s.dropped == {e.eventId} && s.recorded == {e.eventId, f.eventId}
            && SpoolIds(s.spool) == {} && s.queue == [] && s.producers == map[]
  {
    hide Run, IdOk, Step, GENESIS_HASH;
    var a, b := [Close, Record(0, e)], [Send(0, Torn(1)), Record(0, f)];
    TwoActions(h, cfg, NEW_INSTALLATION, a[0], a[1]);
    ClosedFirst(h, cfg, e);
    TwoActions(h, cfg, Run(h, cfg, NEW_INSTALLATION, a), b[0], b[1]);
    TornSend(h, cfg, e, f);
    RunOfConcat(h, cfg, NEW_INSTALLATION, a, b);
    LastAction(h, cfg, NEW_INSTALLATION, a + b, Send(0, Whole));
    GluedSend(h, cfg, e, f);
  }

  // ---------- a run that loses a rotated file ----------

  /** A started service, closed, with nothing in its queue. */
  function Winding(writer: Writer, producers: map<nat, Producer>, spool: SpoolState, recorded: set<Bytes>,
                   lost: set<Bytes>): Service {
    NEW_INSTALLATION.(started := true, closed := true, writer := writer, closer := AwaitingWriter,
                      producers := producers, spool := spool, recorded := recorded, lost := lost)
  }

  lemma SpooledOne(e: Content)
    requires IdOk(e)
    ensures SpooledIds(SpoolBytes([e])) == {e.eventId} && SpoolBytes([e]) != []
  {
    hide ReadSpool, SpoolBytes, EncodeRow, SanitizeContent, IdOk;
    SpoolOfOne(e);
    assert IdsOk([e]);
    AppendedIsRead([], [e]);
    NothingSpooled();
    assert [] + SpoolBytes([e]) == SpoolBytes([e]);
    assert SanitizeAll([e]) == [SanitizeContent(e)] && [] + [SanitizeContent(e)] == [SanitizeContent(e)];
    OneMoreEvent([], e);
    NoKeys();
  }

  lemma StartIdle(h: Hash, cfg: Config)
    ensures Step(h, cfg, Step(h, cfg, NEW_INSTALLATION, Action.Start), Rotate(0, false))
         == NEW_INSTALLATION.(started := true, writer := Waiting)
  {
    hide GENESIS_HASH, Rotated;
  }

  lemma RecordLate(h: Hash, cfg: Config, e: Content)
    requires IdOk(e)
    ensures Step(h, cfg, Step(h, cfg, NEW_INSTALLATION.(started := true, writer := Waiting), Close), Record(0, e))
         == Winding(Waiting, map[0 := Producer(e, false)], SpoolState([], []), {e.eventId}, {})
  {
    hide IdOk, GENESIS_HASH;
  }

  /** A late event is written to an empty file. */
  lemma SendLate(h: Hash, cfg: Config, e: Content, rotated: seq<SpoolFile>, recorded: set<Bytes>)
    requires cfg.spooling && cfg.maxBytes <= 0 && IdOk(e)
    ensures Step(h, cfg, Winding(Waiting, map[0 := Producer(e, false)], SpoolState([], rotated), recorded, {}), Send(0, Whole))
         == Winding(Waiting, map[], SpoolState(SpoolBytes([e]), rotated), recorded, {})
  {
    hide IdOk, GENESIS_HASH, ReadSpool, Keys, SpoolBytes, TotalSize;
    SpooledOne(e);
    EmptyFile();
    KeysOne(e);
    var s := Winding(Waiting, map[0 := Producer(e, false)], SpoolState([], rotated), recorded, {});
    assert [] + SpoolBytes([e]) == SpoolBytes([e]) && s.producers - {0} == map[];
  }

  lemma OneFile(f: SpoolFile, name: int)
    ensures RemoveFile([f], name) == if f.name == name then [] else [f]
    ensures InsertFile([], f) == [f] && RemoveFile([], name) == []
    ensures DataOf([f], f.name) == f.data && DataOf([], name) == []
  {
    assert [f][..0] == [] && [] + [f] == [f];
  }

  lemma RotateAndStop(h: Hash, cfg: Config, e: Content)
    requires cfg.spooling && IdOk(e)
    ensures var s := Winding(Rotating, map[], SpoolState(SpoolBytes([e]), []), {e.eventId}, {});
            Step(h, cfg, Step(h, cfg, s, Rotate(1, true)), ReadFile(false))
            == Winding(Waiting, map[], SpoolState([], [SpoolFile(1, SpoolBytes([e]))]), {e.eventId}, {})
  {
    hide IdOk, GENESIS_HASH, ReadSpool, Keys, SpoolBytes, InsertFile, RemoveFile, LinesFit, DataOf;
    SpooledOne(e);
    EmptyFile();
    OneFile(SpoolFile(1, SpoolBytes([e])), 1);
  }

  lemma RotateAgain(h: Hash, cfg: Config, e: Content, f: Content)
    requires cfg.spooling && IdOk(e) && IdOk(f) && e.eventId != f.eventId
    ensures var file := SpoolFile(1, SpoolBytes([e]));
            var s := Winding(Waiting, map[], SpoolState(SpoolBytes([f]), [file]), {e.eventId, f.eventId}, {});
            Step(h, cfg, Step(h, cfg, s, Tick), Rotate(1, true))
            == Winding(Replaying([1], None), map[], SpoolState([], [SpoolFile(1, SpoolBytes([f]))]), {e.eventId, f.eventId},
                       {e.eventId})
  {
    hide IdOk, GENESIS_HASH, ReadSpool, Keys, SpoolBytes, InsertFile, RemoveFile, DataOf;
    SpooledOne(e);
    SpooledOne(f);
    OneFile(SpoolFile(1, SpoolBytes([e])), 1);
    OneFile(SpoolFile(1, SpoolBytes([f])), 1);
    assert Names([SpoolFile(1, SpoolBytes([f]))]) == [1];
    assert {} + ({e.eventId} - {f.eventId}) == {e.eventId};
  }

  lemma RecordAgain(h: Hash, cfg: Config, e: Content, f: Content, spool: SpoolState)
    requires IdOk(f)
    ensures Step(h, cfg, Winding(Waiting, map[], spool, {e.eventId}, {}), Record(0, f))
         == Winding(Waiting, map[0 := Producer(f, false)], spool, {e.eventId, f.eventId}, {})
  {
    hide IdOk, GENESIS_HASH;
    assert {e.eventId} + {f.eventId} == {e.eventId, f.eventId};
  }

  /** Two rotations on one timestamp, with a replay in between that could not read the file. */
  function RotateTwice(e: Content, f: Content): seq<Action> {
    [Action.Start, Rotate(0, false)] + [Close, Record(0, e)] + [Send(0, Whole), Tick] + [Rotate(1, true), ReadFile(false)]
    + [Record(0, f), Send(0, Whole)] + [Tick, Rotate(1, true)]
  }

  /** From a new installation: the first event was in a rotated file, and is neither in the spool nor counted any more. */
  lemma CollisionLosesFile(h: Hash, cfg: Config, e: Content, f: Content)
    requires cfg.spooling && cfg.maxBytes <= 0 && IdOk(e) && IdOk(f) && e.eventId != f.eventId
    ensures var s := Run(h, cfg, NEW_INSTALLATION, RotateTwice(e, f));
            && s.lost == {e.eventId} && s.dropped == {} && s.recorded == {e.eventId, f.eventId}
            && s.spool == SpoolState([], [SpoolFile(1, SpoolBytes([f]))]) && s.history == []
  {
    hide Run, IdOk, Step, NEW_INSTALLATION, SpoolBytes;
    var s, file := NEW_INSTALLATION, SpoolFile(1, SpoolBytes([e]));
    var a, b, c := [Action.Start, Rotate(0, false)], [Close, Record(0, e)], [Send(0, Whole), Tick];
    var d, i, j := [Rotate(1, true), ReadFile(false)], [Record(0, f), Send(0, Whole)], [Tick, Rotate(1, true)];
    TwoActions(h, cfg, s, a[0], a[1]);
    StartIdle(h, cfg);
    TwoActions(h, cfg, Run(h, cfg, s, a), b[0], b[1]);
    RecordLate(h, cfg, e);
    RunOfConcat(h, cfg, s, a, b);
    TwoActions(h, cfg, Run(h, cfg, s, a + b), c[0], c[1]);
    SendLate(h, cfg, e, [], {e.eventId});
    TickStarts(h, cfg, SpoolState(SpoolBytes([e]), []), {e.eventId});
    RunOfConcat(h, cfg, s, a + b, c);
    TwoActions(h, cfg, Run(h, cfg, s, a + b + c), d[0], d[1]);
    RotateAndStop(h, cfg, e);
    RunOfConcat(h, cfg, s, a + b + c, d);
    TwoActions(h, cfg, Run(h, cfg, s, a + b + c + d), i[0], i[1]);
    RecordAgain(h, cfg, e, f, SpoolState([], [file]));
    SendLate(h, cfg, f, [file], {e.eventId, f.eventId});
    RunOfConcat(h, cfg, s, a + b + c + d, i);
    TwoActions(h, cfg, Run(h, cfg, s, a + b + c + d + i), j[0], j[1]);
    RotateAgain(h, cfg, e, f);
    RunOfConcat(h, cfg, s, a + b + c + d + i, j);
    NewIsEmpty();
  }

  lemma TickStarts(h: Hash, cfg: Config, spool: SpoolState, recorded: set<Bytes>)
    ensures Step(h, cfg, Winding(Waiting, map[], spool, recorded, {}), Tick) == Winding(Rotating, map[], spool, recorded, {})
  {
    hide GENESIS_HASH;
  }

  lemma NewIsEmpty()
    ensures NEW_INSTALLATION.dropped == {} && NEW_INSTALLATION.history == []
  {
  }
}
