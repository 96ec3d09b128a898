/** The audit store (internal/audit/store.go, retention.go) as an object over its three tables and the archive directory. */
module AuditStore {
  import opened ByteStrings
  import opened Chain
  import opened FirstOccurrences
  import opened Options
  import opened ArchiveFile
  import opened AuditSteps
  import opened AuditBatches

  const MAX_ATTEMPTS := 10

  // ---------- what repeated archiving computes ----------

  lemma {:induction false} RangesPartition(rows: seq<Row>, first: int, last: int)
    ensures |Between(rows, first, last)| + |Without(rows, first, last)| == |rows|
  {
    if rows != [] {
      RangesPartition(rows[..|rows| - 1], first, last);
    }
  }

  /** Every segment that is archived takes its rows out of the live table. */
  lemma ArchivalShrinks(h: Hash, db: Db, files: map<Bytes, Bytes>, cutoff: int, micro: int)
    ensures var step := ArchiveOne(h, db, files, cutoff, micro);
            step.result.Archived? ==> |step.db.live| + step.result.count == |db.live| && step.db.tail == db.tail
  {
    hide MayArchive, MakePlan, FirstKeep, SegmentEnd, SegmentClash, FileBytes, StartAfter;
    var start := StartAfter(LastSegment(db));
    if db.tail.Some? {
      var last := SegmentEnd(start.first, db.tail.value.seqNo, FirstKeep(db.live, start.first, cutoff));
      var rows := Between(db.live, start.first, last);
      RangesPartition(db.live, start.first, last);
      PlanParts(h, start, last, rows, micro);
    }
  }

  lemma PlanParts(h: Hash, start: Start, last: int, rows: seq<Row>, micro: int)
    ensures MakePlan(h, start, last, rows, micro).start == start && MakePlan(h, start, last, rows, micro).last == last
    ensures MakePlan(h, start, last, rows, micro).rows == rows && MakePlan(h, start, last, rows, micro).seg.recordCount == |rows|
    ensures MakePlan(h, start, last, rows, micro).seg.fileName == FileName(start.first, last)
    ensures MakePlan(h, start, last, rows, micro).seg.archiveMicro == micro
  {
  }

  /** Where a retention pass ends: `last` is Archived(0), or what went wrong. */
  datatype ArchiveReport = ArchiveReport(db: Db, files: map<Bytes, Bytes>, total: nat, last: Archival)

  function ArchiveAll(h: Hash, db: Db, files: map<Bytes, Bytes>, cutoff: int, clock: nat -> int, i: nat): ArchiveReport
    decreases |db.live|
  {
    var step := ArchiveOne(h, db, files, cutoff, clock(i));
    if !step.result.Archived? || step.result.count == 0 then ArchiveReport(step.db, step.files, 0, step.result)
    else
      ArchivalShrinks(h, db, files, cutoff, clock(i));
      var rest := ArchiveAll(h, step.db, step.files, cutoff, clock, i + 1);
      rest.(total := step.result.count + rest.total)
  }

  /** The number of leading rows whose timestamp is before the cutoff. */
  function ExpiredPrefix(live: seq<Row>, cutoff: int): (p: nat)
    ensures p <= |live| && (p < |live| ==> live[p].content.tsMicro >= cutoff)
    ensures forall i :: 0 <= i < p ==> live[i].content.tsMicro < cutoff
  {
    if live == [] || live[0].content.tsMicro >= cutoff then 0 else 1 + ExpiredPrefix(live[1..], cutoff)
  }

  lemma {:induction false} PrefixIsUnique(live: seq<Row>, cutoff: int, p: nat)
    requires p <= |live| && (p < |live| ==> live[p].content.tsMicro >= cutoff)
    requires forall i :: 0 <= i < p ==> live[i].content.tsMicro < cutoff
    ensures p == ExpiredPrefix(live, cutoff)
  {
    if p > 0 {
      PrefixIsUnique(live[1..], cutoff, p - 1);
    }
  }

  lemma PrefixBehind(live: seq<Row>, cutoff: int, n: nat)
    requires n <= ExpiredPrefix(live, cutoff)
    ensures ExpiredPrefix(live[n..], cutoff) == ExpiredPrefix(live, cutoff) - n
    ensures live[n..][ExpiredPrefix(live, cutoff) - n..] == live[ExpiredPrefix(live, cutoff)..]
  {
    hide ExpiredPrefix;
    PrefixIsUnique(live[n..], cutoff, ExpiredPrefix(live, cutoff) - n);
  }

  /** The range that archiveOne picks on a consistent store. */
  lemma PickedRange(h: Hash, db: Db, history: seq<Row>, cutoff: int)
    requires Consistent(h, db, history) && db.tail.Some?
    ensures var k, p := ArchivedThrough(db.segments), ExpiredPrefix(db.live, cutoff);
            SegmentEnd(k + 1, db.tail.value.seqNo, FirstKeep(db.live, k + 1, cutoff))
              == k + (if p > MAX_SEGMENT_ROWS then MAX_SEGMENT_ROWS else p)
  {
    hide SegmentsOf, DistinctIds, FirstKeep, ExpiredPrefix, LinkedAt;
    var k := ArchivedThrough(db.segments);
    LinkedNumbered(h, history, 1, GENESIS_HASH);
    assert Numbered(db.live, k + 1);
    FirstKeepMeaning(db.live, k + 1, k + 1, cutoff);
    var keep := FirstKeep(db.live, k + 1, cutoff);
    PrefixIsUnique(db.live, cutoff, if keep.Some? then keep.value - k - 1 else |db.live|);
  }

  /** What a run behind the boundary has to look like to be archived: it always does on a consistent store. */
  lemma ConsistentMayArchive(h: Hash, db: Db, history: seq<Row>, last: int)
    requires Consistent(h, db, history)
    requires var k := ArchivedThrough(db.segments); k < last <= |history|
    ensures var start := StartAfter(LastSegment(db));
            && start.first == ArchivedThrough(db.segments) + 1 && StartOk(db.segments, history, start)
            && Between(db.live, start.first, last) == history[start.first - 1..last]
            && MayArchive(h, start, last, Between(db.live, start.first, last))
  {
    hide Between, SegmentsOf, DistinctIds, ComputeHash, StartAfter;
    var start := StartAfter(LastSegment(db));
    StartAfterOk(h, db, history);
    BetweenLive(h, db, history, start, last);
    LinkedCut(h, history, last, 1, GENESIS_HASH);
    LinkedCut(h, history[..last], start.first - 1, 1, GENESIS_HASH);
    assert history[..last][start.first - 1..] == history[start.first - 1..last];
    assert LastHash(history[..last][..start.first - 1], GENESIS_HASH) == start.prev by {
      assert history[..last][..start.first - 1] == history[..start.first - 1];
    }
  }

  /** archiveOne as its steps: nothing to do, or a checked run that commits. */
  lemma ArchiveOneSteps(h: Hash, db: Db, files: map<Bytes, Bytes>, cutoff: int, micro: int, last: int)
    requires db.tail.Some?
    requires last == SegmentEnd(StartAfter(LastSegment(db)).first, db.tail.value.seqNo,
                                FirstKeep(db.live, StartAfter(LastSegment(db)).first, cutoff))
    ensures var start := StartAfter(LastSegment(db));
            var rows := Between(db.live, start.first, last);
            var p := MakePlan(h, start, last, rows, micro);
            && (last < start.first ==> ArchiveOne(h, db, files, cutoff, micro) == ArchiveStep(db, files, Archived(0)))
            && (last >= start.first && MayArchive(h, start, last, rows) && CommitArchive(db, p).Some? ==>
                  ArchiveOne(h, db, files, cutoff, micro)
                    == ArchiveStep(CommitArchive(db, p).value, files[p.seg.fileName := FileBytes(start, last, rows)], Archived(|rows|)))
  {
    hide MayArchive, MakePlan, FirstKeep, SegmentEnd, CommitArchive, FileBytes, StartAfter, Between;
  }

  /** One archiveOne on a consistent store: it takes as much of the expired prefix as fits into one segment. */
  lemma ArchiveOneMeaning(h: Hash, db: Db, history: seq<Row>, files: map<Bytes, Bytes>, cutoff: int, micro: int)
    requires Consistent(h, db, history) && db.tail.Some?
    ensures var p := ExpiredPrefix(db.live, cutoff);
            var n := if p > 100000 then 100000 else p;
            var step := ArchiveOne(h, db, files, cutoff, micro);
            && step.result == Archived(n) && step.db.live == db.live[n..] && step.db.tail == db.tail
            && Consistent(h, step.db, history)
            && (n == 0 ==> step.db == db)
            && (n > 0 ==> |step.db.segments| == |db.segments| + 1 && db.segments <= step.db.segments
                          && step.db.segments[|db.segments|].recordCount == n
                          && step.db.segments[|db.segments|].archiveMicro == micro)
  {
    hide Consistent, Between, ExpiredPrefix, MakePlan, FirstKeep, SegmentEnd, MayArchive, StartAfter, PlanOk, StartOk,
         ArchiveOne, CommitArchive, FileBytes;
    var p := ExpiredPrefix(db.live, cutoff);
    var n := if p > MAX_SEGMENT_ROWS then MAX_SEGMENT_ROWS else p;
    var k := ArchivedThrough(db.segments);
    PickedRange(h, db, history, cutoff);
    StartAfterOk(h, db, history);
    LiveIsRest(h, db, history);
    ArchiveOneSteps(h, db, files, cutoff, micro, k + n);
    if n > 0 {
      ConsistentMayArchive(h, db, history, k + n);
      var start := StartAfter(LastSegment(db));
      var rows := Between(db.live, start.first, k + n);
      var plan := MakePlan(h, start, k + n, rows, micro);
      PlannedIsOk(h, db.segments, history, start, k + n, micro);
      PlanParts(h, start, k + n, rows, micro);
      CommitArchiveIff(h, db, history, plan);
      CommitArchiveKeeps(h, db, history, plan);
      CommitArchiveAppends(db, plan);
      assert history[k + n..] == history[k..][n..];
    }
  }

  /** It writes the rows it takes into one file of their numbers, whose digest the segment records. */
  lemma ArchiveOneWrites(h: Hash, db: Db, history: seq<Row>, files: map<Bytes, Bytes>, cutoff: int, micro: int)
    requires Consistent(h, db, history) && db.tail.Some?
    ensures var k, p := ArchivedThrough(db.segments), ExpiredPrefix(db.live, cutoff);
            var n, prev := if p > 100000 then 100000 else p, HashBefore(history, k, GENESIS_HASH);
            var step := ArchiveOne(h, db, files, cutoff, micro);
            step.files == if n == 0 then files else files[FileName(k + 1, k + n) := ArchiveBytes(db.live[..n], k + 1, k + n, prev)]
  {
    hide Consistent, Between, ExpiredPrefix, MakePlan, FirstKeep, SegmentEnd, MayArchive, StartAfter, PlanOk,
         ArchiveOne, CommitArchive, ArchiveBytes, FileName;
    var p := ExpiredPrefix(db.live, cutoff);
    var n := if p > MAX_SEGMENT_ROWS then MAX_SEGMENT_ROWS else p;
    var k := ArchivedThrough(db.segments);
    PickedRange(h, db, history, cutoff);
    StartAfterOk(h, db, history);
    LiveIsRest(h, db, history);
    ArchiveOneSteps(h, db, files, cutoff, micro, k + n);
    if n > 0 {
      ConsistentMayArchive(h, db, history, k + n);
      var start := StartAfter(LastSegment(db));
      var rows := Between(db.live, start.first, k + n);
      PlannedIsOk(h, db.segments, history, start, k + n, micro);
      PlanParts(h, start, k + n, rows, micro);
      CommitArchiveIff(h, db, history, MakePlan(h, start, k + n, rows, micro));
      assert db.live[..n] == rows;
    }
  }

  /**
   How archiving one segment of any store can end: without a tail row, with nothing expired, with a run that is broken or
   incomplete and is refused, or with the run written and then committed, or not.
   */
  lemma ArchiveOneOutcome(h: Hash, db: Db, files: map<Bytes, Bytes>, cutoff: int, micro: int)
    ensures var step := ArchiveOne(h, db, files, cutoff, micro);
            && (step.result == NoTail <==> db.tail.None?)
            && (!step.result.Archived? ==> step.db == db)
            && (step.result.Refused? || step.result.NoTail? || step.result == Archived(0) ==> step.files == files)
            && (db.tail.Some? ==>
                  var start := StartAfter(LastSegment(db));
                  var last := SegmentEnd(start.first, db.tail.value.seqNo, FirstKeep(db.live, start.first, cutoff));
                  var rows := Between(db.live, start.first, last);
                  if last < start.first then step.result == Archived(0)
                  else if Linked(h, rows, start.first, start.prev) && |rows| == last - start.first + 1 then
                    (step.result == Archived(|rows|) || step.result == CommitFailed)
                    && step.files == files[FileName(start.first, last) := FileBytes(start, last, rows)]
                  else step.result == Refused)
  {
    hide MakePlan, FirstKeep, SegmentEnd, CommitArchive, FileBytes, StartAfter, Between, Linked, FileName;
    if db.tail.Some? {
      var start := StartAfter(LastSegment(db));
      var last := SegmentEnd(start.first, db.tail.value.seqNo, FirstKeep(db.live, start.first, cutoff));
      PlanParts(h, start, last, Between(db.live, start.first, last), micro);
    }
  }

  lemma CommitArchiveAppends(db: Db, p: Plan)
    requires CommitArchive(db, p).Some?
    ensures CommitArchive(db, p).value.segments == db.segments + [p.seg] && CommitArchive(db, p).value.tail == db.tail
  {
  }

  lemma LiveIsRest(h: Hash, db: Db, history: seq<Row>)
    requires Consistent(h, db, history)
    ensures 0 <= ArchivedThrough(db.segments) <= |history| && db.live == history[ArchivedThrough(db.segments)..]
  {
  }

  lemma PlannedIsOk(h: Hash, segments: seq<Segment>, history: seq<Row>, start: Start, last: int, micro: int)
    requires StartOk(segments, history, start) && start.first <= last <= |history|
    requires last - start.first < MAX_SEGMENT_ROWS
    ensures PlanOk(h, segments, history, MakePlan(h, start, last, history[start.first - 1..last], micro))
  {
    hide StartOk, FileBytes, FileName, ComputeSegmentHash;
  }

  /** The segments added from number `from` on are full, except that the last one may be shorter. */
  predicate FullSegments(segments: seq<Segment>, from: nat) {
    forall j :: from <= j < |segments| ==>
      0 < segments[j].recordCount <= 100000 && (j < |segments| - 1 ==> segments[j].recordCount == 100000)
  }

  /**
   Retention without concurrent appends, for timestamps in any order: exactly the maximal expired prefix is
   archived, in segments as large as they may be, and the count is the number of rows moved.
   */
  lemma {:induction false} ArchiveAllMeaning(h: Hash, db: Db, history: seq<Row>, files: map<Bytes, Bytes>,
      cutoff: int, clock: nat -> int, i: nat)
    requires Consistent(h, db, history) && db.tail.Some?
    ensures var p := ExpiredPrefix(db.live, cutoff);
            var r := ArchiveAll(h, db, files, cutoff, clock, i);
            && r.last == Archived(0) && r.total == p && r.db.live == db.live[p..] && r.db.tail == db.tail
            && Consistent(h, r.db, history)
            && db.segments <= r.db.segments && FullSegments(r.db.segments, |db.segments|)
    decreases |db.live|
  {
    hide Consistent, ArchiveOne, ExpiredPrefix, FullSegments;
    var p := ExpiredPrefix(db.live, cutoff);
    var step := ArchiveOne(h, db, files, cutoff, clock(i));
    ArchiveOneMeaning(h, db, history, files, cutoff, clock(i));
    if p > 0 {
      var n := step.result.count;
      ArchiveAllMeaning(h, step.db, history, step.files, cutoff, clock, i + 1);
      PrefixBehind(db.live, cutoff, n);
      var rest := ArchiveAll(h, step.db, step.files, cutoff, clock, i + 1);
      if n == p {
        ArchiveOneMeaning(h, step.db, history, step.files, cutoff, clock(i + 1));
      }
      OneMoreSegment(step.db.segments, rest.db.segments, |db.segments|);
    } else {
      NoSegments(db.segments);
    }
  }

  lemma OneMoreSegment(segments: seq<Segment>, all: seq<Segment>, from: nat)
    requires |segments| == from + 1 && segments <= all && FullSegments(all, |segments|)
    requires 0 < segments[from].recordCount <= MAX_SEGMENT_ROWS
    requires segments[from].recordCount == MAX_SEGMENT_ROWS || all == segments
    ensures FullSegments(all, from)
  {
  }

  lemma NoSegments(segments: seq<Segment>)
    ensures FullSegments(segments, |segments|)
  {
  }

  /** appendOnce as its outcomes. */
  lemma AppendOutcomes(h: Hash, db: Db, batch: seq<Content>, t: Tail)
    requires db.tail == Some(t)
    ensures var out := Extend(h, t.seqNo, t.hash, Fresh(EventId, Existing(db.live, batch), batch));
            AppendAtOnce(h, db, batch)
            == if out == [] then Some((db, 0))
               else if Clash(db.live, out) then None
               else Some((db.(live := db.live + out, tail := Some(Tail(t.seqNo + |out|, LastHash(out, t.hash)))), |out|))
  {
    hide Extend, Fresh, Existing, Clash;
  }

  // ---------- the store ----------

  datatype Retention = Done | NoArchiveDir | Failed(why: Archival)

  class Store {
    const h: Hash
    var live: seq<Row>
    var segments: seq<Segment>
    var tail: Option<Tail>
    var files: map<Bytes, Bytes>

    constructor (h: Hash)
      ensures this.h == h && AsDb() == Db([], [], None) && files == map[]
    {
      this.h := h;
      live, segments, tail, files := [], [], None, map[];
    }

    function AsDb(): Db
      reads this
    {
      Db(live, segments, tail)
    }

    /** EnsureTail: on a consistent store the created row is the end of the history (DeriveTailOk). */
    method EnsureTail()
      modifies this`tail
      ensures AsDb() == CommitTail(old(AsDb()), DeriveTail(old(AsDb())))
    {
      if tail.Some? {
        return;
      }
      var t := Tail(0, GENESIS_HASH);
      if live != [] {
        t := Tail(live[|live| - 1].seqNo, live[|live| - 1].hash);
      } else if segments != [] {
        t := Tail(segments[|segments| - 1].lastSeq, segments[|segments| - 1].lastHash);
      }
      tail := Some(t);
    }

    /** One transaction of Append. */
    method AppendOnce(batch: seq<Content>) returns (inserted: Option<nat>)
      modifies this`live, this`tail
      ensures match AppendAtOnce(h, old(AsDb()), batch)
              case None => inserted == None && AsDb() == old(AsDb())
              case Some((db, n)) => inserted == Some(n) && AsDb() == db
    {
      hide Extend, Fresh, ComputeHash, AppendAtOnce, Clash, Existing, LiveIds;
      if tail.None? {
        assert AppendAtOnce(h, AsDb(), batch) == None by { NoTailNoAppend(h, AsDb(), batch); }
        return None;
      }
      var t := tail.value;
      AppendOutcomes(h, AsDb(), batch, t);
      var existing := Existing(live, batch);
      var seen, seqNo, prev, out := existing, t.seqNo, t.hash, [];
      StartOfAppend(h, t, existing);
      for i := 0 to |batch|
        invariant AsDb() == old(AsDb())
        invariant seen == existing + Keys(EventId, batch[..i])
        invariant out == Extend(h, t.seqNo, t.hash, Fresh(EventId, existing, batch[..i]))
        invariant seqNo == t.seqNo + |out| && prev == LastHash(out, t.hash)
      {
        var r := batch[i];
        assert batch[..i + 1] == batch[..i] + [r];
        FreshAppend(EventId, existing, batch[..i], r);
        if r.eventId !in seen {
          ExtendAppend(h, t.seqNo, t.hash, Fresh(EventId, existing, batch[..i]), r);
          seen := seen + {r.eventId};
          var row := NextRow(h, seqNo, prev, r);
          seqNo := seqNo + 1;
          prev := row.hash;
          out := out + [row];
        }
      }
      assert batch[..|batch|] == batch;
      if out == [] {
        return Some(0);
      }
      if Clash(live, out) {
        return None;
      }
      live := live + out;
      tail := Some(Tail(seqNo, prev));
      inserted := Some(|out|);
    }

    /** Append: an attempt that fails is repeated, ten in all; alone, a repetition fails the same way. */
    method Append(batch: seq<Content>) returns (inserted: Option<nat>)
      modifies this`live, this`tail
      ensures match AppendAlone(h, old(AsDb()), batch)
              case None => inserted == None && AsDb() == old(AsDb())
              case Some((db, n)) => inserted == Some(n) && AsDb() == db
    {
      hide AppendAtOnce;
      inserted := Some(0);
      if batch == [] {
        return;
      }
      var attempt := 0;
      while attempt < MAX_ATTEMPTS
        invariant attempt <= MAX_ATTEMPTS && AsDb() == old(AsDb())
        invariant attempt > 0 ==> inserted == None && AppendAtOnce(h, old(AsDb()), batch) == None
      {
        inserted := AppendOnce(batch);
        if inserted.Some? {
          return;
        }
        attempt := attempt + 1;
      }
    }

    /** archiveOne: pick the expired range, check it, write the file, then commit. */
    method ArchiveOneSegment(cutoff: int, archiveMicro: int) returns (result: Archival)
      modifies this`live, this`segments, this`files
      ensures ArchiveStep(AsDb(), files, result) == ArchiveOne(h, old(AsDb()), old(files), cutoff, archiveMicro)
    {
      hide MakePlan, ComputeHash, Between, Without, FirstKeep, SegmentEnd, FileBytes, SegmentClash;
      var start := StartAfter(LastSegment(AsDb()));
      if tail.None? {
        return NoTail;
      }
      var last := SegmentEnd(start.first, tail.value.seqNo, FirstKeep(live, start.first, cutoff));
      if last < start.first {
        return Archived(0);
      }
      var rows := Between(live, start.first, last);
      var intact := CheckRun(h, start, last, rows);
      if !intact {
        return Refused;
      }
      var p := MakePlan(h, start, last, rows, archiveMicro);
      PlanParts(h, start, last, rows, archiveMicro);
      files := files[p.seg.fileName := FileBytes(start, last, rows)];
      if SegmentClash(segments, p.seg) || |Between(live, start.first, last)| != |rows| {
        return CommitFailed;
      }
      segments := segments + [p.seg];
      live := Without(live, start.first, last);
      result := Archived(|rows|);
    }

    /** ArchiveExpired: one segment after the other until nothing expired is left, or something fails. */
    method ArchiveExpired(archiveDir: string, retentionDays: int, cutoff: int, clock: nat -> int)
      returns (total: nat, outcome: Retention)
      modifies this`live, this`segments, this`files
      ensures retentionDays <= 0 ==> total == 0 && outcome == Done && AsDb() == old(AsDb()) && files == old(files)
      ensures retentionDays > 0 && archiveDir == "" ==>
                total == 0 && outcome == NoArchiveDir && AsDb() == old(AsDb()) && files == old(files)
      ensures retentionDays > 0 && archiveDir != "" ==>
                var r := ArchiveAll(h, old(AsDb()), old(files), cutoff, clock, 0);
                && AsDb() == r.db && files == r.files && total == r.total
                && outcome == (if r.last == Archived(0) then Done else Failed(r.last))
      ensures forall history :: Consistent(h, old(AsDb()), history) && old(tail).Some? && retentionDays > 0 && archiveDir != "" ==>
                && outcome == Done && total == ExpiredPrefix(old(live), cutoff) && live == old(live)[total..]
                && Consistent(h, AsDb(), history)
    {
      hide ArchiveOne, Consistent, ExpiredPrefix;
      total, outcome := 0, Done;
      if retentionDays <= 0 {
        return;
      }
      if archiveDir == "" {
        outcome := NoArchiveDir;
        return;
      }
      ghost var whole := ArchiveAll(h, AsDb(), files, cutoff, clock, 0);
      forall history | Consistent(h, AsDb(), history) && tail.Some?
        ensures var p := ExpiredPrefix(live, cutoff);
                whole.last == Archived(0) && whole.total == p && whole.db.live == live[p..] && Consistent(h, whole.db, history)
      {
        ArchiveAllMeaning(h, AsDb(), history, files, cutoff, clock, 0);
      }
      var i: nat := 0;
      while true
        invariant var rest := ArchiveAll(h, AsDb(), files, cutoff, clock, i);
                  whole == rest.(total := total + rest.total)
        decreases |live|
      {
        ArchivalShrinks(h, AsDb(), files, cutoff, clock(i));
        var step := ArchiveOneSegment(cutoff, clock(i));
        if !step.Archived? {
          outcome := Failed(step);
          return;
        }
        if step.count == 0 {
          return;
        }
        total, i := total + step.count, i + 1;
      }
    }
  }

  lemma NoTailNoAppend(h: Hash, db: Db, batch: seq<Content>)
    requires db.tail.None?
    ensures AppendAtOnce(h, db, batch) == None
  {
  }

  lemma StartOfAppend(h: Hash, t: Tail, existing: set<Bytes>)
    ensures Extend(h, t.seqNo, t.hash, Fresh(EventId, existing, [])) == [] && Keys(EventId, []) == {}
  {
  }

  lemma ExtendAppend(h: Hash, seqNo: int, prev: Bytes, contents: seq<Content>, c: Content)
    ensures Extend(h, seqNo, prev, contents + [c])
         == Extend(h, seqNo, prev, contents)
            + [NextRow(h, seqNo + |contents|, LastHash(Extend(h, seqNo, prev, contents), prev), c)]
  {
    hide NextRow;
    assert (contents + [c])[..|contents|] == contents;
  }

  /** The loop that refuses to archive a broken or incomplete run. */
  method CheckRun(h: Hash, start: Start, last: int, rows: seq<Row>) returns (intact: bool)
    ensures intact == MayArchive(h, start, last, rows)
  {
    hide ComputeHash;
    var exp, expPrev := start.first, start.prev;
    for i := 0 to |rows|
      invariant exp == start.first + i && expPrev == HashBefore(rows, i, start.prev)
      invariant forall j :: 0 <= j < i ==> LinkedAt(h, rows, j, start.first, start.prev)
    {
      var r := rows[i];
      if r.seqNo != exp || r.prevHash != expPrev || r.hash != ComputeHash(h, r) {
        assert !LinkedAt(h, rows, i, start.first, start.prev);
        return false;
      }
      exp, expPrev := r.seqNo + 1, r.hash;
    }
    intact := exp - 1 == last;
  }
}
