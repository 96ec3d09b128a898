/** The writer on a reachable database, whenever nothing else interferes: what it takes from the queue reaches the chain, in order. */
module DeliveryWriter {
  import opened ByteStrings
  import opened Chain
  import opened FirstOccurrences
  import opened Options
  import opened AuditSteps
  import opened AuditBatches
  import opened Delivery
  import opened DeliveryRuns
  import opened Spool

  /** The writer's own steps, with a database that takes every batch. */
  predicate IsWriterStep(a: Action) {
    a == Take || a == TakeMore || a == Seal || (a.Persist? && a.dbUp)
  }

  function BatchOf(w: Writer): seq<Content> {
    match w
    case Collecting(batch, _) => batch
    case Persisting(batch, _) => batch
    case _ => []
  }

  /** The events that the writer has in hand and then those it will find, in this order. */
  function Pending(s: Service): seq<Content> {
    BatchOf(s.writer) + s.queue
  }

  /** The chain as it will be: what it holds, and the first occurrences of the pending events it does not know. */
  ghost function Outlook(s: Service): seq<Content> {
    Contents(s.history) + Fresh(EventId, LiveIds(s.db.live), Pending(s))
  }

  /** Nothing but queue, writer and chain has changed. */
  predicate OnlyDelivers(s: Service, s': Service) {
    s' == s.(queue := s'.queue, writer := s'.writer, db := s'.db, history := s'.history)
  }

  lemma TakesInOrder(h: Hash, cfg: Config, s: Service, a: Action)
    requires a == Take || a == TakeMore || a == Seal
    ensures var s' := WriterStep(h, cfg, s, a);
            Pending(s') == Pending(s) && s' == s.(queue := s'.queue, writer := s'.writer)
  {
  }

  /** The chain after one more batch. */
  lemma PersistDelivers(h: Hash, cfg: Config, s: Service, write: Write)
    requires Delivery.Inv(h, cfg, s) && s.writer.Persisting?
    ensures var s' := WriterStep(h, cfg, s, Persist(true, write));
            && OnlyDelivers(s, s') && s'.queue == s.queue && s'.writer == EmptyHanded(s).writer
            && Contents(s'.history) == Contents(s.history) + Fresh(EventId, LiveIds(s.db.live), s.writer.batch)
            && LiveIds(s'.db.live) == LiveIds(s.db.live) + Keys(EventId, s.writer.batch)
  {
    hide Keys, LiveIds, SpoolIds, ProducerIds, CloserOk, SpoolOk, DbOk, AppendAlone, SpoolOrDrop, WriterStep, Extend, Fresh,
         WriterOk, Consistent, IdsOk;
    var batch := s.writer.batch;
    PersistOutcome(h, cfg, s, Persist(true, write));
    DbIsOk(h, s);
    var t, added := s.db.tail.value, Fresh(EventId, LiveIds(s.db.live), batch);
    AppendAloneMeaning(h, s.db, s.history, batch);
    ExtendLinked(h, t.seqNo, t.hash, added);
    assert Contents(Added(h, s.db, batch)) == added;
    ContentsConcat(s.history, Added(h, s.db, batch));
  }

  lemma DbIsOk(h: Hash, s: Service)
    requires DbOk(h, s)
    ensures Consistent(h, s.db, s.history) && s.db.tail.Some?
  {
  }

  lemma ContentsConcat(a: seq<Row>, b: seq<Row>)
    ensures Contents(a + b) == Contents(a) + Contents(b)
  {
  }

  lemma WriterStepDelivers(h: Hash, cfg: Config, s: Service, a: Action)
    requires Delivery.Inv(h, cfg, s) && IsWriterStep(a)
    ensures var s' := WriterStep(h, cfg, s, a);
            OnlyDelivers(s, s') && Outlook(s') == Outlook(s)
  {
    hide Delivery.Inv, WriterStep, LiveIds, Fresh;
    if !a.Persist? {
      TakesInOrder(h, cfg, s, a);
    } else if s.writer.Persisting? {
      PersistDelivers(h, cfg, s, a.write);
      EmptiedHands(s);
      FreshConcat(EventId, LiveIds(s.db.live), s.writer.batch, s.queue);
    } else {
      NothingToPersist(h, cfg, s, a);
    }
  }

  lemma EmptiedHands(s: Service)
    requires s.writer.Persisting?
    ensures BatchOf(EmptyHanded(s).writer) == [] && [] + s.queue == s.queue
  {
  }

  lemma NothingToPersist(h: Hash, cfg: Config, s: Service, a: Action)
    requires a.Persist? && !s.writer.Persisting?
    ensures WriterStep(h, cfg, s, a) == s
  {
  }

  lemma OwnStep(h: Hash, cfg: Config, s: Service, a: Action)
    requires IsWriterStep(a)
    ensures Step(h, cfg, s, a) == WriterStep(h, cfg, s, a)
  {
    hide WriterStep;
  }

  lemma {:induction false} WriterRunDelivers(h: Hash, cfg: Config, s: Service, actions: seq<Action>)
    requires cfg.Valid() && Delivery.Inv(h, cfg, s) && forall a :: a in actions ==> IsWriterStep(a)
    ensures var s' := Run(h, cfg, s, actions);
            Delivery.Inv(h, cfg, s') && OnlyDelivers(s, s') && Outlook(s') == Outlook(s)
    decreases |actions|
  {
    hide Delivery.Inv, Step, Outlook, IsWriterStep;
    if actions != [] {
      var n := |actions| - 1;
      var before := Run(h, cfg, s, actions[..n]);
      WriterRunDelivers(h, cfg, s, actions[..n]);
      OwnStep(h, cfg, before, actions[n]);
      StepInv(h, cfg, before, actions[n]);
      WriterStepDelivers(h, cfg, before, actions[n]);
    }
  }

  /** The writer is between batches and has nothing to take. */
  predicate Drained(s: Service) {
    s.queue == [] && !s.writer.Collecting? && !s.writer.Persisting?
  }

  function NextStep(cfg: Config, s: Service): (a: Action)
    ensures IsWriterStep(a)
  {
    match s.writer
    case Waiting => Take
    case Collecting(batch, _) => if s.queue != [] && |batch| < cfg.batchSize then TakeMore else Seal
    case _ => Persist(true, Whole)
  }

  /** How far the writer is from its next batch, the queue apart. */
  function Rank(w: Writer): nat {
    match w
    case Collecting(batch, _) => if batch == [] then 1 else 3
    case Persisting(_, _) => 2
    case _ => 0
  }

  lemma NextStepAhead(h: Hash, cfg: Config, s: Service)
    requires cfg.Valid() && Delivery.Inv(h, cfg, s) && !Drained(s)
    requires s.writer.Waiting? || s.writer.Collecting? || s.writer.Persisting?
    ensures var s' := WriterStep(h, cfg, s, NextStep(cfg, s));
            |s'.queue| < |s.queue| || (s'.queue == s.queue && Rank(s'.writer) < Rank(s.writer))
    ensures var s' := WriterStep(h, cfg, s, NextStep(cfg, s));
            s'.writer.Waiting? || s'.writer.Collecting? || s'.writer.Persisting? || Drained(s')
  {
    if s.writer.Persisting? {
      hide Delivery.Inv, WriterStep;
      PersistDelivers(h, cfg, s, Whole);
      EmptiedHands(s);
    } else {
      hide Delivery.Inv;
    }
  }

  /** Left alone, the writer drains the queue. */
  lemma {:induction false} WriterDrains(h: Hash, cfg: Config, s: Service) returns (actions: seq<Action>)
    requires cfg.Valid() && Delivery.Inv(h, cfg, s)
    requires s.writer.Waiting? || s.writer.Collecting? || s.writer.Persisting? || Drained(s)
    ensures (forall a :: a in actions ==> IsWriterStep(a)) && Drained(Run(h, cfg, s, actions))
    decreases |s.queue|, Rank(s.writer)
  {
    hide Delivery.Inv, Step, WriterStep, NextStep, IsWriterStep, Rank, Config.Valid;
    actions := [];
    if !Drained(s) {
      var a := NextStep(cfg, s);
      OwnStep(h, cfg, s, a);
      StepInv(h, cfg, s, a);
      NextStepAhead(h, cfg, s);
      var rest := WriterDrains(h, cfg, Step(h, cfg, s, a));
      LastAction(h, cfg, s, [], a);
      assert [] + [a] == [a] && Run(h, cfg, s, []) == s;
      RunOfConcat(h, cfg, s, [a], rest);
      actions := [a] + rest;
    }
  }

  /**
   A writer with a reachable database, while nothing else interferes: it can drain the queue, and however its steps
   are taken, once it has, the chain has grown by exactly the first occurrences of the pending events that it did not
   hold, in the order in which they were queued; nothing went to the spool, was dropped or lost.
   */
  lemma UndisturbedWriter(h: Hash, cfg: Config, s: Service) returns (actions: seq<Action>)
    requires cfg.Valid() && Delivery.Inv(h, cfg, s)
    requires s.writer.Waiting? || s.writer.Collecting? || s.writer.Persisting?
    ensures (forall a :: a in actions ==> IsWriterStep(a)) && Drained(Run(h, cfg, s, actions))
    ensures forall any: seq<Action> :: (forall a :: a in any ==> IsWriterStep(a)) ==>
              var s' := Run(h, cfg, s, any);
              && OnlyDelivers(s, s')
              && (Drained(s') ==> Contents(s'.history) == Contents(s.history) + Fresh(EventId, LiveIds(s.db.live), Pending(s)))
  {
    hide Delivery.Inv, Run, LiveIds, IsWriterStep, OnlyDelivers;
    actions := WriterDrains(h, cfg, s);
    forall any: seq<Action> | forall a :: a in any ==> IsWriterStep(a)
      ensures var s' := Run(h, cfg, s, any);
              && OnlyDelivers(s, s')
              && (Drained(s') ==> Contents(s'.history) == Contents(s.history) + Fresh(EventId, LiveIds(s.db.live), Pending(s)))
    {
      WriterRunDelivers(h, cfg, s, any);
    }
  }
}
