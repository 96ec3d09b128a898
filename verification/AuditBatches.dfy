/**
 How events are cut into Append calls does not matter: a table is a function of the committed events in commit
 order, whoever batched, raced, retried or replayed them.
 */
module AuditBatches {
  import opened ByteStrings
  import opened Chain
  import opened FirstOccurrences
  import opened Options
  import opened AuditSteps
  import opened AuditRuns

  // ---------- undisturbed appends ----------

  /** Append, when nobody interferes: an empty batch does not even look at the database. */
  function AppendAlone(h: Hash, db: Db, batch: seq<Content>): Option<(Db, nat)> {
    if batch == [] then Some((db, 0)) else AppendAtOnce(h, db, batch)
  }

  /** One Append after the other, with the summed insert counts. */
  function AppendEach(h: Hash, db: Db, batches: seq<seq<Content>>): Option<(Db, nat)> {
    if batches == [] then Some((db, 0))
    else
      var n := |batches| - 1;
      var before :- AppendEach(h, db, batches[..n]);
      var after :- AppendAlone(h, before.0, batches[n]);
      Some((after.0, before.1 + after.1))
  }

  function Flatten(batches: seq<seq<Content>>): seq<Content> {
    if batches == [] then [] else Flatten(batches[..|batches| - 1]) + batches[|batches| - 1]
  }

  lemma IdsOfConcat(a: seq<Row>, b: seq<Row>)
    ensures LiveIds(a + b) == LiveIds(a) + LiveIds(b)
  {
    var ab := a + b;
    forall i | 0 <= i < |a| ensures a[i].content.eventId in LiveIds(ab) {
      assert ab[i] == a[i];
    }
    forall i | 0 <= i < |b| ensures b[i].content.eventId in LiveIds(ab) {
      assert ab[|a| + i] == b[i];
    }
  }

  lemma IdsAreKeys(rows: seq<Row>)
    ensures LiveIds(rows) == Keys(EventId, Contents(rows))
  {
    forall i | 0 <= i < |rows| ensures rows[i].content.eventId in Keys(EventId, Contents(rows)) {
      assert EventId(Contents(rows)[i]) == rows[i].content.eventId;
    }
    forall i | 0 <= i < |Contents(rows)| ensures EventId(Contents(rows)[i]) in LiveIds(rows) {
    }
  }

  /** What an append reads and will insert: the first occurrences of the event ids that are not live. */
  lemma UnknownMeaning(live: seq<Row>, batch: seq<Content>)
    ensures Unknown(live, batch) == Fresh(EventId, LiveIds(live), batch)
  {
    hide Fresh;
    FreshSeenRestrict(EventId, Existing(live, batch), LiveIds(live), batch);
  }

  /** The database after an undisturbed append on a consistent one. */
  lemma AppendAloneMeaning(h: Hash, db: Db, history: seq<Row>, batch: seq<Content>)
    requires Consistent(h, db, history) && db.tail.Some?
    ensures var added := Fresh(EventId, LiveIds(db.live), batch);
            var t := db.tail.value;
            var out := Extend(h, t.seqNo, t.hash, added);
            && AppendAlone(h, db, batch)
               == Some((db.(live := db.live + out, tail := Some(Tail(t.seqNo + |out|, LastHash(out, t.hash)))), |added|))
            && Consistent(h, AppendAlone(h, db, batch).value.0, history + out)
            && LiveIds(db.live + out) == LiveIds(db.live) + Keys(EventId, batch)
  {
    hide Consistent, Fresh, Extend, CommitAppend, ViewOk;
    var t := db.tail.value;
    var added := Fresh(EventId, LiveIds(db.live), batch);
    var out := Extend(h, t.seqNo, t.hash, added);
    UnknownMeaning(db.live, batch);
    AddedIds(h, db.live, t, batch);
    if batch == [] {
      NothingFresh(LiveIds(db.live));
      NothingAppended(h, db, history);
    } else {
      var v := ReadAppend(h, db, batch).value;
      ReadAppendOk(h, db, history, batch);
      TailIsEnd(h, db, history);
      if out != [] {
        CommitAppendIff(h, db, history, v);
      }
      CommittedDb(db, v);
      CommitAppendKeeps(h, db, history, v);
    }
  }

  lemma TailIsEnd(h: Hash, db: Db, history: seq<Row>)
    requires Consistent(h, db, history) && db.tail.Some?
    ensures db.tail.value == TailOf(history)
  {
  }

  lemma NothingFresh(seen: set<Bytes>)
    ensures Fresh(EventId, seen, []) == []
  {
  }

  lemma NothingAppended(h: Hash, db: Db, history: seq<Row>)
    requires Consistent(h, db, history) && db.tail.Some?
    ensures var t := db.tail.value;
            var out := Extend(h, t.seqNo, t.hash, []);
            && db == db.(live := db.live + out, tail := Some(Tail(t.seqNo + |out|, LastHash(out, t.hash))))
            && history + out == history
  {
    hide Consistent;
    assert db.live + [] == db.live;
  }

  lemma CommittedDb(db: Db, v: AppendView)
    requires db.tail == Some(v.tail) && (v.out == [] || CommitAppend(db, v).Some?)
    ensures CommitAppend(db, v)
         == Some(db.(live := db.live + v.out, tail := Some(Tail(v.tail.seqNo + |v.out|, LastHash(v.out, v.tail.hash)))))
  {
    hide Clash;
    if v.out == [] {
      assert db.live + v.out == db.live;
    }
  }

  lemma AddedIds(h: Hash, live: seq<Row>, t: Tail, batch: seq<Content>)
    ensures var out := Extend(h, t.seqNo, t.hash, Fresh(EventId, LiveIds(live), batch));
            LiveIds(live + out) == LiveIds(live) + Keys(EventId, batch)
  {
    hide Fresh, Extend, LiveIds;
    var added := Fresh(EventId, LiveIds(live), batch);
    var out := Extend(h, t.seqNo, t.hash, added);
    ExtendLinked(h, t.seqNo, t.hash, added);
    assert Contents(out) == added;
    IdsOfConcat(live, out);
    IdsAreKeys(out);
    FreshKeys(EventId, LiveIds(live), batch);
  }

  /** Two appends in a row are one append of the concatenation. */
  lemma AppendTwice(h: Hash, db: Db, history: seq<Row>, a: seq<Content>, b: seq<Content>)
    requires Consistent(h, db, history) && db.tail.Some?
    ensures var first := AppendAlone(h, db, a);
            && first.Some? && AppendAlone(h, first.value.0, b).Some?
            && AppendAlone(h, db, a + b)
               == Some((AppendAlone(h, first.value.0, b).value.0, first.value.1 + AppendAlone(h, first.value.0, b).value.1))
  {
    hide Consistent, Fresh, Extend, AppendAlone, LiveIds;
    var t := db.tail.value;
    var added := Fresh(EventId, LiveIds(db.live), a);
    var out := Extend(h, t.seqNo, t.hash, added);
    AppendAloneMeaning(h, db, history, a);
    var db1 := AppendAlone(h, db, a).value.0;
    AppendAloneMeaning(h, db1, history + out, b);
    AppendAloneMeaning(h, db, history, a + b);
    FreshConcat(EventId, LiveIds(db.live), a, b);
    var more := Fresh(EventId, LiveIds(db1.live), b);
    ExtendConcat(h, t.seqNo, t.hash, added, more);
    var out2 := Extend(h, db1.tail.value.seqNo, db1.tail.value.hash, more);
    LastHashConcat(out, out2, t.hash);
    assert (db.live + out) + out2 == db.live + (out + out2);
  }

  lemma {:induction false} AppendEachKeeps(h: Hash, db: Db, history: seq<Row>, batches: seq<seq<Content>>)
    returns (history': seq<Row>)
    requires Consistent(h, db, history) && db.tail.Some?
    ensures AppendEach(h, db, batches).Some? && AppendEach(h, db, batches).value.0.tail.Some?
    ensures Consistent(h, AppendEach(h, db, batches).value.0, history')
    decreases |batches|
  {
    hide Consistent, Extend, Fresh, AppendAlone;
    if batches == [] {
      history' := history;
    } else {
      var n := |batches| - 1;
      var before := AppendEachKeeps(h, db, history, batches[..n]);
      var db1 := AppendEach(h, db, batches[..n]).value.0;
      AppendAloneMeaning(h, db1, before, batches[n]);
      history' := before + Extend(h, db1.tail.value.seqNo, db1.tail.value.hash, Fresh(EventId, LiveIds(db1.live), batches[n]));
    }
  }

  /**
   Any sequence of appends yields the rows, hashes, tail and summed insert count of a single append of the
   concatenation, which is its first-occurrence deduplication (AppendAloneMeaning).
   */
  lemma {:induction false} BatchingIsIrrelevant(h: Hash, db: Db, history: seq<Row>, batches: seq<seq<Content>>)
    requires Consistent(h, db, history) && db.tail.Some?
    ensures AppendEach(h, db, batches) == AppendAlone(h, db, Flatten(batches))
    decreases |batches|
  {
    hide Consistent, AppendAlone;
    if batches == [] {
      assert AppendAlone(h, db, []) == Some((db, 0)) by { EmptyAppend(h, db); }
    } else {
      var n := |batches| - 1;
      var _ := AppendEachKeeps(h, db, history, batches[..n]);
      BatchingIsIrrelevant(h, db, history, batches[..n]);
      AppendTwice(h, db, history, Flatten(batches[..n]), batches[n]);
    }
  }

  lemma EmptyAppend(h: Hash, db: Db)
    ensures AppendAlone(h, db, []) == Some((db, 0))
  {
  }

  /** Replaying what is already live inserts nothing and changes nothing. */
  lemma ReplayIsIdempotent(h: Hash, db: Db, history: seq<Row>, batch: seq<Content>, again: seq<Content>)
    requires Consistent(h, db, history) && db.tail.Some?
    requires Keys(EventId, again) <= LiveIds(db.live) + Keys(EventId, batch)
    ensures AppendAlone(h, db, batch).Some?
    ensures AppendAlone(h, AppendAlone(h, db, batch).value.0, again) == Some((AppendAlone(h, db, batch).value.0, 0))
  {
    hide Consistent, Extend, AppendAlone, LiveIds, Fresh;
    AppendAloneMeaning(h, db, history, batch);
    var db1 := AppendAlone(h, db, batch).value.0;
    var out := Extend(h, db.tail.value.seqNo, db.tail.value.hash, Fresh(EventId, LiveIds(db.live), batch));
    AppendAloneMeaning(h, db1, history + out, again);
    FreshOfSeen(EventId, LiveIds(db1.live), again);
    NothingAppended(h, db1, history + out);
  }

  // ---------- racing appends ----------

  /** The batch that an action commits, if it commits one. */
  function CommittedBatch(s: System, a: Action): seq<Content> {
    match (a, WorkerOf(s, a.w))
    case (AppendCommit(_), Appending(batch, _, v)) => if CommitAppend(s.db, v).Some? then batch else []
    case _ => []
  }

  /** Everything committed in a run, in commit order. */
  function Committed(h: Hash, s: System, actions: seq<Action>): seq<Content> {
    if actions == [] then []
    else
      var n := |actions| - 1;
      Committed(h, s, actions[..n]) + CommittedBatch(Run(h, s, actions[..n]), actions[n])
  }

  /** An append in flight has deduplicated against the history as it was at its read. */
  predicate ViewOfPrefix(history: seq<Row>, worker: Worker) {
    worker.Appending? ==>
      && 0 <= worker.view.tail.seqNo <= |history|
      && Contents(worker.view.out) == Fresh(EventId, LiveIds(history[..worker.view.tail.seqNo]), worker.batch)
  }

  ghost predicate ViewsOfPrefixes(s: System) {
    forall w :: w in s.workers ==> ViewOfPrefix(s.history, s.workers[w])
  }

  lemma StartedViewOfPrefix(h: Hash, s: System, batch: seq<Content>, attempt: nat)
    requires Inv(h, s) && s.db.segments == []
    ensures ViewOfPrefix(s.history, StartAppend(h, s, batch, attempt))
  {
    hide Linked, Fresh, DistinctIds, WorkersOk, ViewOk, LiveIds, Extend;
    if s.db.tail.Some? {
      ReadAppendOk(h, s.db, s.history, batch);
      assert s.history[..|s.history|] == s.history;
    }
  }

  lemma NextViewOfPrefix(h: Hash, s: System, a: Action)
    requires Inv(h, s) && s.db.segments == [] && ViewsOfPrefixes(s)
    ensures ViewOfPrefix(NextHistory(s, a), NextWorker(h, s, a))
  {
    hide Consistent, WorkersOk, StartAppend, FirstKeep, SegmentEnd, ReadRows, CommitAppend, Fresh, LiveIds,
         ViewOfPrefix;
    var worker := WorkerOf(s, a.w);
    IdleViewOfPrefix(s.history, worker);
    assert ViewOfPrefix(s.history, worker);
    match (a, worker)
    case (AppendRead(_, batch), Idle) =>
      StartedViewOfPrefix(h, s, batch, 0);
      IdleViewOfPrefix(s.history, NextWorker(h, s, a));
    case (AppendRetry(_), Retrying(batch, attempt)) => StartedViewOfPrefix(h, s, batch, attempt);
    case (ArchiveReadRows(_, micro), KnowsEnd(start, last)) =>
      assert !ReadRows(h, s, start, last, micro).Appending? by { ReadRowsNotAppending(h, s, start, last, micro); }
      IdleViewOfPrefix(NextHistory(s, a), NextWorker(h, s, a));
    case _ => IdleViewOfPrefix(NextHistory(s, a), NextWorker(h, s, a));
  }

  lemma ReadRowsNotAppending(h: Hash, s: System, start: Start, last: int, micro: int)
    ensures !ReadRows(h, s, start, last, micro).Appending?
  {
  }

  lemma IdleViewOfPrefix(history: seq<Row>, worker: Worker)
    ensures !worker.Appending? ==> ViewOfPrefix(history, worker)
  {
  }

  lemma ViewOfPrefixStable(history: seq<Row>, history': seq<Row>, worker: Worker)
    requires history <= history' && ViewOfPrefix(history, worker)
    ensures ViewOfPrefix(history', worker)
  {
    hide Fresh, LiveIds;
    if worker.Appending? {
      assert history'[..worker.view.tail.seqNo] == history[..worker.view.tail.seqNo];
    }
  }

  lemma StepViewsOfPrefixes(h: Hash, s: System, a: Action)
    requires Inv(h, s) && s.db.segments == [] && ViewsOfPrefixes(s)
    ensures ViewsOfPrefixes(Step(h, s, a))
  {
    hide Inv, ViewOfPrefix, NextWorker, NextDb, NextFiles, NextHistory;
    var s' := Step(h, s, a);
    assert s.history <= s'.history by { StepInv(h, s, a); }
    forall w | w in s'.workers ensures ViewOfPrefix(s'.history, s'.workers[w]) {
      if w == a.w {
        NextViewOfPrefix(h, s, a);
      } else {
        ViewOfPrefixStable(s.history, s'.history, s.workers[w]);
      }
    }
  }

  lemma ContentsConcat(a: seq<Row>, b: seq<Row>)
    ensures Contents(a + b) == Contents(a) + Contents(b)
  {
  }

  /** A commit adds to the history the first occurrences that its batch adds to everything committed before. */
  lemma CommitAddsFresh(h: Hash, s: System, a: Action, sofar: seq<Content>)
    requires Inv(h, s) && s.db.segments == [] && ViewsOfPrefixes(s)
    requires Contents(s.history) == Fresh(EventId, {}, sofar)
    ensures Contents(NextHistory(s, a)) == Fresh(EventId, {}, sofar + CommittedBatch(s, a))
  {
    hide Consistent, WorkersOk, CommitAppend, Fresh, LiveIds, ViewOfPrefix, Contents, ViewOk;
    var worker := WorkerOf(s, a.w);
    var batch := CommittedBatch(s, a);
    FreshConcat(EventId, {}, sofar, batch);
    KnownIds(s.history, sofar);
    assert {} + Keys(EventId, sofar) == LiveIds(s.history);
    IdleViewOfPrefix(s.history, worker);
    assert ViewOfPrefix(s.history, worker);
    assert WorkerOk(h, s.db, s.history, worker) by { OwnWorkerOk(h, s, a.w); }
    if a.AppendCommit? && worker.Appending? && CommitAppend(s.db, worker.view).Some? {
      CommittedView(h, s, worker);
      ContentsConcat(s.history, worker.view.out);
    } else {
      NothingFresh(LiveIds(s.history));
    }
  }

  lemma OwnWorkerOk(h: Hash, s: System, w: nat)
    requires Inv(h, s)
    ensures WorkerOk(h, s.db, s.history, WorkerOf(s, w))
  {
  }

  lemma KnownIds(history: seq<Row>, sofar: seq<Content>)
    requires Contents(history) == Fresh(EventId, {}, sofar)
    ensures LiveIds(history) == Keys(EventId, sofar)
  {
    hide Fresh;
    IdsAreKeys(history);
    FreshKeys(EventId, {}, sofar);
  }

  /** When a view commits, what it inserts is what its batch adds to the history of now. */
  lemma CommittedView(h: Hash, s: System, worker: Worker)
    requires Inv(h, s) && s.db.segments == [] && worker.Appending?
    requires WorkerOk(h, s.db, s.history, worker) && ViewOfPrefix(s.history, worker)
    requires CommitAppend(s.db, worker.view).Some?
    ensures Contents(worker.view.out) == Fresh(EventId, LiveIds(s.history), worker.batch)
  {
    hide Consistent, WorkersOk, CommitAppend, Fresh, LiveIds, ViewOk;
    var v := worker.view;
    CommitAppendKeeps(h, s.db, s.history, v);
    if v.out == [] {
      var prefix := s.history[..v.tail.seqNo];
      FreshKeys(EventId, LiveIds(prefix), worker.batch);
      assert Fresh(EventId, LiveIds(prefix), worker.batch) == [];
      NoKeys();
      IdsOfConcat(prefix, s.history[v.tail.seqNo..]);
      assert prefix + s.history[v.tail.seqNo..] == s.history;
      forall k | k in Keys(EventId, worker.batch) ensures k in LiveIds(s.history) {
        assert k !in Keys(EventId, worker.batch) - LiveIds(prefix);
      }
      FreshOfSeen(EventId, LiveIds(s.history), worker.batch);
    } else {
      assert s.history[..v.tail.seqNo] == s.history;
    }
  }

  lemma NoKeys()
    ensures Keys(EventId, []) == {}
  {
  }

  /**
   Every run in which no archive commits, with any number of racing and retrying writers: the table is the chain
   over the first occurrences of the committed events, so its rows, order and hashes do not depend on batching.
   */
  lemma {:induction false} RunIsFirstOccurrences(h: Hash, actions: seq<Action>)
    requires Run(h, INITIAL, actions).db.segments == []
    ensures ViewsOfPrefixes(Run(h, INITIAL, actions))
    ensures Contents(Run(h, INITIAL, actions).history) == Fresh(EventId, {}, Committed(h, INITIAL, actions))
    ensures Run(h, INITIAL, actions).db.live == Extend(h, 0, GENESIS_HASH, Fresh(EventId, {}, Committed(h, INITIAL, actions)))
  {
    hide Inv, Fresh, Extend, Contents, NextWorker, NextDb, NextFiles, CommittedBatch;
    InitialInv(h);
    RunInv(h, INITIAL, actions);
    if actions == [] {
      NothingFresh({});
    } else {
      var n := |actions| - 1;
      var s := Run(h, INITIAL, actions[..n]);
      RunInv(h, INITIAL, actions[..n]);
      StepInv(h, s, actions[n]);
      assert s.db.segments == [];
      RunIsFirstOccurrences(h, actions[..n]);
      StepViewsOfPrefixes(h, s, actions[n]);
      CommitAddsFresh(h, s, actions[n], Committed(h, INITIAL, actions[..n]));
    }
    UnarchivedIsExtend(h, Run(h, INITIAL, actions));
  }

  lemma UnarchivedIsExtend(h: Hash, s: System)
    requires Inv(h, s) && s.db.segments == []
    ensures s.db.live == Extend(h, 0, GENESIS_HASH, Contents(s.history))
  {
    hide Linked, WorkersOk, DistinctIds, Extend;
    LinkedIsExtend(h, s.history, 0, GENESIS_HASH);
  }
}
