/**
 The database side of the audit chain as values: what each statement of internal/audit/store.go and
 retention.go reads, and what each transaction commits. A transaction that fails leaves no trace (None).
 */
module AuditSteps {
  import opened ByteStrings
  import opened Chain
  import opened FirstOccurrences
  import opened Options
  import opened ArchiveFile

  datatype Tail = Tail(seqNo: int, hash: Bytes)

  /** audit_log in seq order, audit_segment in seg_seq order, the single row of audit_chain_tail. */
  datatype Db = Db(live: seq<Row>, segments: seq<Segment>, tail: Option<Tail>)

  const MAX_SEGMENT_ROWS := 100000

  // ---------- EnsureTail ----------

  /** The tail that EnsureTail derives: last row, else last segment, else genesis. */
  function DeriveTail(db: Db): Tail {
    if db.live != [] then Tail(db.live[|db.live| - 1].seqNo, db.live[|db.live| - 1].hash)
    else if db.segments != [] then
      Tail(db.segments[|db.segments| - 1].lastSeq, db.segments[|db.segments| - 1].lastHash)
    else Tail(0, GENESIS_HASH)
  }

  /** Create, doing nothing on conflict. */
  function CommitTail(db: Db, t: Tail): Db {
    if db.tail.None? then db.(tail := Some(t)) else db
  }

  // ---------- Append ----------

  function EventId(c: Content): Bytes {
    c.eventId
  }

  function LiveIds(live: seq<Row>): set<Bytes> {
    set i | 0 <= i < |live| :: live[i].content.eventId
  }

  /** What appendOnce has read and prepared before it writes. */
  datatype AppendView = AppendView(tail: Tail, out: seq<Row>)

  /** The event ids of the batch that the table already holds. */
  function Existing(live: seq<Row>, batch: seq<Content>): set<Bytes> {
    LiveIds(live) * Keys(EventId, batch)
  }

  /** The contents of the batch that are to be inserted. */
  function Unknown(live: seq<Row>, batch: seq<Content>): seq<Content> {
    Fresh(EventId, Existing(live, batch), batch)
  }

  /** The read half of appendOnce; None when there is no tail row. */
  function ReadAppend(h: Hash, db: Db, batch: seq<Content>): Option<AppendView> {
    match db.tail
    case None => None
    case Some(t) => Some(AppendView(t, Extend(h, t.seqNo, t.hash, Unknown(db.live, batch))))
  }

  /** A unique index (seq, event_id) would be violated. */
  predicate Clash(live: seq<Row>, out: seq<Row>) {
    exists i, j | 0 <= i < |live| && 0 <= j < |out| ::
      live[i].seqNo == out[j].seqNo || live[i].content.eventId == out[j].content.eventId
  }

  /** The write half: insert, then compare-and-set the tail row. */
  function CommitAppend(db: Db, v: AppendView): Option<Db> {
    if v.out == [] then Some(db)
    else if Clash(db.live, v.out) || db.tail != Some(v.tail) then None
    else Some(db.(live := db.live + v.out, tail := Some(Tail(v.tail.seqNo + |v.out|, LastHash(v.out, v.tail.hash)))))
  }

  /** One undisturbed append: the new database and the number of rows inserted. */
  function AppendAtOnce(h: Hash, db: Db, batch: seq<Content>): Option<(Db, nat)> {
    var v :- ReadAppend(h, db, batch);
    var db' :- CommitAppend(db, v);
    Some((db', |v.out|))
  }

  // ---------- archiveOne ----------

  function LastSegment(db: Db): Option<Segment> {
    if db.segments == [] then None else Some(db.segments[|db.segments| - 1])
  }

  /** Where the next segment starts. */
  datatype Start = Start(first: int, prev: Bytes, segSeq: int, prevSeg: Bytes)

  function StartAfter(last: Option<Segment>): Start {
    match last
    case None => Start(1, GENESIS_HASH, 1, GENESIS_HASH)
    case Some(s) => Start(s.lastSeq + 1, s.lastHash, s.segSeq + 1, s.segHash)
  }

  /** SELECT MIN(seq) WHERE seq >= first AND ts_micro >= cutoff. */
  function FirstKeep(live: seq<Row>, first: int, cutoff: int): Option<int> {
    if live == [] then None
    else
      var n := |live| - 1;
      var before := FirstKeep(live[..n], first, cutoff);
      if live[n].seqNo < first || live[n].content.tsMicro < cutoff then before
      else if before.Some? && before.value <= live[n].seqNo then before
      else Some(live[n].seqNo)
  }

  /** The last row of the expired prefix, bounded to one segment. */
  function SegmentEnd(first: int, tailSeq: int, keep: Option<int>): int {
    var end := if keep.Some? then keep.value - 1 else tailSeq;
    if end - first + 1 > MAX_SEGMENT_ROWS then first + MAX_SEGMENT_ROWS - 1 else end
  }

  predicate InRange(r: Row, first: int, last: int) {
    first <= r.seqNo <= last
  }

  /** The rows with seq BETWEEN first AND last, in order. */
  function Between(live: seq<Row>, first: int, last: int): seq<Row> {
    if live == [] then []
    else
      var n := |live| - 1;
      Between(live[..n], first, last) + if InRange(live[n], first, last) then [live[n]] else []
  }

  /** The rows that DELETE WHERE seq BETWEEN first AND last leaves. */
  function Without(live: seq<Row>, first: int, last: int): seq<Row> {
    if live == [] then []
    else
      var n := |live| - 1;
      Without(live[..n], first, last) + if InRange(live[n], first, last) then [] else [live[n]]
  }

  /** Everything archiveOne has decided before it writes: the rows are `rows`, checked to be linked up to `last`. */
  datatype Plan = Plan(start: Start, last: int, rows: seq<Row>, seg: Segment)

  function FileBytes(start: Start, last: int, rows: seq<Row>): Bytes {
    ArchiveBytes(rows, start.first, last, start.prev)
  }

  function MakePlan(h: Hash, start: Start, last: int, rows: seq<Row>, archiveMicro: int): Plan {
    var seg := Segment(start.segSeq, start.first, last, |rows|, start.prev, LastHash(rows, start.prev),
                       FileName(start.first, last), h(FileBytes(start, last, rows)), archiveMicro, start.prevSeg, []);
    Plan(start, last, rows, seg.(segHash := ComputeSegmentHash(h, seg)))
  }

  /** A broken or incomplete run is never archived. */
  predicate MayArchive(h: Hash, start: Start, last: int, rows: seq<Row>) {
    Linked(h, rows, start.first, start.prev) && start.first + |rows| - 1 == last
  }

  predicate SegmentClash(segments: seq<Segment>, seg: Segment) {
    exists i | 0 <= i < |segments| :: segments[i].segSeq == seg.segSeq || segments[i].firstSeq == seg.firstSeq
  }

  /** Insert the boundary record, delete the rows, and insist on the number deleted. */
  function CommitArchive(db: Db, p: Plan): Option<Db> {
    if SegmentClash(db.segments, p.seg) then None
    else if |Between(db.live, p.start.first, p.last)| != |p.rows| then None
    else Some(db.(live := Without(db.live, p.start.first, p.last), segments := db.segments + [p.seg]))
  }

  /** The outcome of one archiveOne: so many rows archived (0 when none is expired), or an error. */
  datatype Archival = Archived(count: nat) | NoTail | Refused | CommitFailed

  datatype ArchiveStep = ArchiveStep(db: Db, files: map<Bytes, Bytes>, result: Archival)

  /** One undisturbed archiveOne. */
  function ArchiveOne(h: Hash, db: Db, files: map<Bytes, Bytes>, cutoff: int, archiveMicro: int): ArchiveStep {
    var start := StartAfter(LastSegment(db));
    if db.tail.None? then ArchiveStep(db, files, NoTail)
    else
      var last := SegmentEnd(start.first, db.tail.value.seqNo, FirstKeep(db.live, start.first, cutoff));
      if last < start.first then ArchiveStep(db, files, Archived(0))
      else
        var rows := Between(db.live, start.first, last);
        if !MayArchive(h, start, last, rows) then ArchiveStep(db, files, Refused)
        else
          var p := MakePlan(h, start, last, rows, archiveMicro);
          var written := files[p.seg.fileName := FileBytes(start, last, rows)];
          match CommitArchive(db, p)
          case None => ArchiveStep(db, written, CommitFailed)
          case Some(db') => ArchiveStep(db', written, Archived(|rows|))
  }

  // ---------- the consistent states ----------

  /** How many rows the first `i` segments cover. */
  function CoveredBy(segments: seq<Segment>, i: nat): int
    requires i <= |segments|
  {
    if i == 0 then 0 else segments[i - 1].lastSeq
  }

  function ArchivedThrough(segments: seq<Segment>): int {
    CoveredBy(segments, |segments|)
  }

  /** Segment number i cuts its range out of `history` and links to its predecessor. */
  predicate SegmentAt(h: Hash, segments: seq<Segment>, i: nat, history: seq<Row>)
    requires i < |segments|
  {
    var s := segments[i];
    && s.segSeq == i + 1
    && s.prevSegHash == (if i == 0 then GENESIS_HASH else segments[i - 1].segHash)
    && 0 <= CoveredBy(segments, i) && s.firstSeq == CoveredBy(segments, i) + 1
    && s.firstSeq <= s.lastSeq <= |history|
    && s.firstPrevHash == HashBefore(history, s.firstSeq - 1, GENESIS_HASH)
    && MakePlan(h, Start(s.firstSeq, s.firstPrevHash, s.segSeq, s.prevSegHash), s.lastSeq,
                history[s.firstSeq - 1..s.lastSeq], s.archiveMicro).seg == s
  }

  predicate SegmentsOf(h: Hash, segments: seq<Segment>, history: seq<Row>) {
    forall i :: 0 <= i < |segments| ==> SegmentAt(h, segments, i, history)
  }

  predicate DistinctIds(rows: seq<Row>) {
    forall i, j :: 0 <= i < j < |rows| ==> rows[i].content.eventId != rows[j].content.eventId
  }

  function TailOf(history: seq<Row>): Tail {
    Tail(|history|, LastHash(history, GENESIS_HASH))
  }

  /**
   The invariant: `history` is everything ever committed, one linked chain from genesis; the segments cut off
   a prefix of it, the live rows are the rest, and the tail is its end.
   */
  predicate Consistent(h: Hash, db: Db, history: seq<Row>) {
    && Linked(h, history, 1, GENESIS_HASH)
    && SegmentsOf(h, db.segments, history)
    && 0 <= ArchivedThrough(db.segments) <= |history|
    && db.live == history[ArchivedThrough(db.segments)..]
    && DistinctIds(db.live)
    && (db.tail.Some? ==> db.tail.value == TailOf(history))
  }

  // ---------- ranges of a consistent table ----------

  predicate Numbered(rows: seq<Row>, first: int) {
    forall i :: 0 <= i < |rows| ==> rows[i].seqNo == first + i
  }

  lemma LinkedNumbered(h: Hash, rows: seq<Row>, first: int, prev: Bytes)
    requires Linked(h, rows, first, prev)
    ensures Numbered(rows, first)
  {
    forall i | 0 <= i < |rows| ensures rows[i].seqNo == first + i {
      assert LinkedAt(h, rows, i, first, prev);
    }
  }

  function Clamp(x: int, n: nat): (r: nat)
    ensures r <= n
  {
    if x < 0 then 0 else if x > n then n else x
  }

  lemma {:induction false} RangeAll(rows: seq<Row>, base: int, first: int, last: int)
    requires Numbered(rows, base) && (rows == [] || first <= base) && (rows == [] || base + |rows| <= last + 1)
    ensures Between(rows, first, last) == rows && Without(rows, first, last) == []
  {
    if rows != [] {
      RangeAll(rows[..|rows| - 1], base, first, last);
    }
  }

  lemma {:induction false} RangeNone(rows: seq<Row>, base: int, first: int, last: int)
    requires Numbered(rows, base) && (rows == [] || base + |rows| <= first || last < base)
    ensures Between(rows, first, last) == [] && Without(rows, first, last) == rows
  {
    if rows != [] {
      RangeNone(rows[..|rows| - 1], base, first, last);
    }
  }

  lemma {:induction false} RangeConcat(x: seq<Row>, y: seq<Row>, first: int, last: int)
    ensures Between(x + y, first, last) == Between(x, first, last) + Between(y, first, last)
    ensures Without(x + y, first, last) == Without(x, first, last) + Without(y, first, last)
    decreases |y|
  {
    if y == [] {
      assert x + y == x;
    } else {
      var n := |y| - 1;
      assert (x + y)[..|x| + n] == x + y[..n] && (x + y)[|x| + n] == y[n];
      RangeConcat(x, y[..n], first, last);
    }
  }

  lemma RangesOfThree(x: seq<Row>, y: seq<Row>, z: seq<Row>, base: int, first: int, last: int)
    requires Numbered(x, base) && (x == [] || base + |x| <= first)
    requires Numbered(y, base + |x|) && (y == [] || (first <= base + |x| && base + |x| + |y| <= last + 1))
    requires Numbered(z, base + |x| + |y|) && (z == [] || last < base + |x| + |y|)
    ensures Between(x + y + z, first, last) == y && Without(x + y + z, first, last) == x + z
  {
    hide Between, Without;
    RangeNone(x, base, first, last);
    RangeAll(y, base + |x|, first, last);
    RangeNone(z, base + |x| + |y|, first, last);
    RangeConcat(x, y, first, last);
    RangeConcat(x + y, z, first, last);
  }

  /** On consecutively numbered rows, Between and Without are cuts. */
  lemma RangesAreCuts(rows: seq<Row>, base: int, first: int, last: int)
    requires Numbered(rows, base) && first <= last + 1
    ensures var a, b := Clamp(first - base, |rows|), Clamp(last + 1 - base, |rows|);
            a <= b && Between(rows, first, last) == rows[a..b] && Without(rows, first, last) == rows[..a] + rows[b..]
  {
    hide Between, Without;
    var a, b := Clamp(first - base, |rows|), Clamp(last + 1 - base, |rows|);
    var x, y, z := rows[..a], rows[a..b], rows[b..];
    RangesOfThree(x, y, z, base, first, last);
    assert rows == x + y + z;
  }

  /** FirstKeep is the number of the first row, from `first` on, that is still within the retention window. */
  lemma {:induction false} FirstKeepMeaning(rows: seq<Row>, base: int, first: int, cutoff: int)
    requires Numbered(rows, base)
    ensures match FirstKeep(rows, first, cutoff)
            case None => forall i :: 0 <= i < |rows| ==> rows[i].seqNo < first || rows[i].content.tsMicro < cutoff
            case Some(k) =>
              && first <= k && 0 <= k - base < |rows| && rows[k - base].content.tsMicro >= cutoff
              && forall i :: 0 <= i < k - base ==> rows[i].seqNo < first || rows[i].content.tsMicro < cutoff
  {
    if rows != [] {
      FirstKeepMeaning(rows[..|rows| - 1], base, first, cutoff);
    }
  }

  // ---------- every transaction keeps the invariant ----------

  lemma {:induction false} CoverageGrows(h: Hash, segments: seq<Segment>, history: seq<Row>, i: nat, j: nat)
    requires SegmentsOf(h, segments, history) && i <= j <= |segments|
    ensures 0 <= CoveredBy(segments, i) && CoveredBy(segments, i) + (j - i) <= CoveredBy(segments, j)
    ensures CoveredBy(segments, j) <= |history|
    decreases j
  {
    hide MakePlan;
    if j > 0 {
      assert SegmentAt(h, segments, j - 1, history);
      if i < j {
        CoverageGrows(h, segments, history, i, j - 1);
      } else {
        CoverageGrows(h, segments, history, i - 1, i - 1);
      }
    }
  }

  /** Segments are a matter of the history they were cut from, not of what came later. */
  lemma SegmentsOfLonger(h: Hash, segments: seq<Segment>, history: seq<Row>, more: seq<Row>)
    requires SegmentsOf(h, segments, history)
    ensures SegmentsOf(h, segments, history + more)
  {
    hide MakePlan;
    forall i | 0 <= i < |segments| ensures SegmentAt(h, segments, i, history + more) {
      assert SegmentAt(h, segments, i, history);
      var s := segments[i];
      assert (history + more)[s.firstSeq - 1..s.lastSeq] == history[s.firstSeq - 1..s.lastSeq];
      assert HashBefore(history + more, s.firstSeq - 1, GENESIS_HASH) == HashBefore(history, s.firstSeq - 1, GENESIS_HASH);
    }
  }

  /** What an append view promises, relative to the history at any later time. */
  predicate ViewOk(h: Hash, db: Db, history: seq<Row>, v: AppendView) {
    && 0 <= v.tail.seqNo <= |history|
    && v.tail.hash == HashBefore(history, v.tail.seqNo, GENESIS_HASH)
    && Linked(h, v.out, v.tail.seqNo + 1, v.tail.hash)
    && DistinctIds(v.out)
    && (v.tail.seqNo == |history| ==> forall j :: 0 <= j < |v.out| ==> v.out[j].content.eventId !in LiveIds(db.live))
  }

  lemma ReadAppendOk(h: Hash, db: Db, history: seq<Row>, batch: seq<Content>)
    requires Consistent(h, db, history) && db.tail.Some?
    ensures ViewOk(h, db, history, ReadAppend(h, db, batch).value)
    ensures var v := ReadAppend(h, db, batch).value;
            Contents(v.out) == Fresh(EventId, LiveIds(db.live), batch)
  {
    hide ComputeHash, Fresh, Extend, SegmentsOf;
    var t, seen := db.tail.value, Existing(db.live, batch);
    var added := Fresh(EventId, seen, batch);
    ExtendLinked(h, t.seqNo, t.hash, added);
    FreshKeys(EventId, seen, batch);
    FreshSeenRestrict(EventId, seen, LiveIds(db.live), batch);
    var out := Extend(h, t.seqNo, t.hash, added);
    assert Contents(out) == added;
    forall j | 0 <= j < |out| ensures out[j].content.eventId !in LiveIds(db.live) {
      assert EventId(added[j]) in Keys(EventId, added);
    }
    forall i, j | 0 <= i < j < |out| ensures out[i].content.eventId != out[j].content.eventId {
      assert EventId(added[i]) != EventId(added[j]);
    }
  }

  lemma CommitAppendKeeps(h: Hash, db: Db, history: seq<Row>, v: AppendView)
    requires Consistent(h, db, history) && ViewOk(h, db, history, v)
    requires CommitAppend(db, v).Some?
    ensures Consistent(h, CommitAppend(db, v).value, history + v.out)
    ensures v.out != [] ==> v.tail.seqNo == |history|
  {
    hide ComputeHash, SegmentsOf, CoveredBy;
    var db' := CommitAppend(db, v).value;
    if v.out == [] {
      assert history + v.out == history;
    } else {
      LinkedSplit(h, history, v.out, 1, GENESIS_HASH);
      SegmentsOfLonger(h, db.segments, history, v.out);
      LastHashConcat(history, v.out, GENESIS_HASH);
      var k := ArchivedThrough(db.segments);
      assert (history + v.out)[k..] == history[k..] + v.out;
      forall i, j | 0 <= i < j < |db'.live| ensures db'.live[i].content.eventId != db'.live[j].content.eventId {
        if i < |db.live| <= j {
          assert v.out[j - |db.live|].content.eventId !in LiveIds(db.live);
          assert db.live[i].content.eventId in LiveIds(db.live);
        }
      }
    }
  }

  /** The unique indexes hold of every committed append, whatever the tables were before. */
  lemma CommittedIsUnique(db: Db, v: AppendView)
    requires CommitAppend(db, v).Some?
    ensures forall i, j :: 0 <= i < |db.live| && 0 <= j < |v.out| ==>
              db.live[i].seqNo != v.out[j].seqNo && db.live[i].content.eventId != v.out[j].content.eventId
  {
  }

  /** And of every committed archive. */
  lemma ArchivedIsUnique(db: Db, p: Plan)
    requires CommitArchive(db, p).Some?
    ensures forall i :: 0 <= i < |db.segments| ==> db.segments[i].segSeq != p.seg.segSeq && db.segments[i].firstSeq != p.seg.firstSeq
  {
    hide Between, Without;
  }

  /** An append commits exactly when nobody has appended since its read. */
  lemma CommitAppendIff(h: Hash, db: Db, history: seq<Row>, v: AppendView)
    requires Consistent(h, db, history) && db.tail.Some? && ViewOk(h, db, history, v) && v.out != []
    ensures CommitAppend(db, v).Some? <==> v.tail.seqNo == |history|
  {
    hide ComputeHash, SegmentsOf;
    if v.tail.seqNo == |history| {
      LinkedNumbered(h, history, 1, GENESIS_HASH);
      LinkedNumbered(h, v.out, v.tail.seqNo + 1, v.tail.hash);
      forall i, j | 0 <= i < |db.live| && 0 <= j < |v.out|
        ensures db.live[i].seqNo != v.out[j].seqNo && db.live[i].content.eventId != v.out[j].content.eventId
      {
        assert db.live[i] == history[ArchivedThrough(db.segments) + i];
        assert db.live[i].content.eventId in LiveIds(db.live);
      }
    }
  }

  /** The derived columns of a segment record. */
  lemma SegmentFacts(h: Hash, segments: seq<Segment>, i: nat, history: seq<Row>)
    requires i < |segments| && SegmentAt(h, segments, i, history)
    ensures var s := segments[i];
            && s.recordCount == s.lastSeq - s.firstSeq + 1
            && s.lastHash == HashBefore(history, s.lastSeq, GENESIS_HASH)
            && s.segHash == ComputeSegmentHash(h, s)
            && s.fileName == FileName(s.firstSeq, s.lastSeq)
            && s.fileSM3 == h(ArchiveBytes(history[s.firstSeq - 1..s.lastSeq], s.firstSeq, s.lastSeq, s.firstPrevHash))
  {
    hide FileName, ArchiveBytes, Linked;
    var s := segments[i];
    var rows := history[s.firstSeq - 1..s.lastSeq];
    assert rows[|rows| - 1] == history[s.lastSeq - 1];
    SegmentPreimageInjective(s, s.(segHash := []));
  }

  lemma DeriveTailOk(h: Hash, db: Db, history: seq<Row>)
    requires Consistent(h, db, history)
    ensures DeriveTail(db) == TailOf(history)
  {
    hide ComputeHash, MakePlan, DistinctIds;
    if db.live != [] {
      assert LinkedAt(h, history, |history| - 1, 1, GENESIS_HASH);
      assert db.live[|db.live| - 1] == history[|history| - 1];
    } else if db.segments != [] {
      assert SegmentAt(h, db.segments, |db.segments| - 1, history);
      SegmentFacts(h, db.segments, |db.segments| - 1, history);
    }
  }

  /** What an archiver's starting point promises at any later time: it was the boundary once. */
  predicate StartOk(segments: seq<Segment>, history: seq<Row>, start: Start) {
    && 1 <= start.segSeq <= |segments| + 1
    && start.first == CoveredBy(segments, start.segSeq - 1) + 1
    && start.prevSeg == (if start.segSeq == 1 then GENESIS_HASH else segments[start.segSeq - 2].segHash)
    && 1 <= start.first <= |history| + 1
    && start.prev == HashBefore(history, start.first - 1, GENESIS_HASH)
  }

  lemma StartAfterOk(h: Hash, db: Db, history: seq<Row>)
    requires Consistent(h, db, history)
    ensures StartOk(db.segments, history, StartAfter(LastSegment(db)))
    ensures StartAfter(LastSegment(db)).first == ArchivedThrough(db.segments) + 1
  {
    hide MakePlan, Linked, DistinctIds, ComputeSegmentHash, ArchiveBytes, FileName;
    if db.segments != [] {
      assert SegmentAt(h, db.segments, |db.segments| - 1, history);
      SegmentFacts(h, db.segments, |db.segments| - 1, history);
    }
  }

  predicate PlanOk(h: Hash, segments: seq<Segment>, history: seq<Row>, p: Plan) {
    && StartOk(segments, history, p.start)
    && p.start.first <= p.last <= |history|
    && p.last - p.start.first < MAX_SEGMENT_ROWS
    && p == MakePlan(h, p.start, p.last, history[p.start.first - 1..p.last], p.seg.archiveMicro)
  }

  /** Rows that pass the check of archiveOne, whenever they were read, are the history's own. */
  lemma CheckedRowsAreHistory(h: Hash, db: Db, history: seq<Row>, start: Start, last: int)
    requires Consistent(h, db, history) && StartOk(db.segments, history, start) && start.first <= last <= |history|
    requires MayArchive(h, start, last, Between(db.live, start.first, last))
    ensures Between(db.live, start.first, last) == history[start.first - 1..last]
    ensures start.first == ArchivedThrough(db.segments) + 1
  {
    hide SegmentsOf, DistinctIds;
    BetweenLive(h, db, history, start, last);
  }

  /** What the range [first, last] of the live table holds once `k` rows are archived: the part of it beyond k. */
  lemma BetweenLive(h: Hash, db: Db, history: seq<Row>, start: Start, last: int)
    requires Consistent(h, db, history) && StartOk(db.segments, history, start) && start.first <= last <= |history|
    ensures var k := ArchivedThrough(db.segments);
            && start.first <= k + 1
            && Between(db.live, start.first, last) == (if k <= last then history[k..last] else [])
            && Without(db.live, start.first, last) == (if k <= last then history[last..] else db.live)
  {
    hide ComputeHash, MakePlan, Between, Without, SegmentAt, DistinctIds, LinkedAt;
    var k := ArchivedThrough(db.segments);
    LinkedNumbered(h, history, 1, GENESIS_HASH);
    CoverageGrows(h, db.segments, history, start.segSeq - 1, |db.segments|);
    RangesAreCuts(db.live, k + 1, start.first, last);
  }

  /**
   An archiver commits exactly when its start is still the boundary. When it went stale the rows it would delete
   are fewer than it wrote: the count alone makes it abort, whatever the unique indexes do.
   */
  lemma CommitArchiveIff(h: Hash, db: Db, history: seq<Row>, p: Plan)
    requires Consistent(h, db, history) && PlanOk(h, db.segments, history, p)
    ensures p.start.first != ArchivedThrough(db.segments) + 1
        ==> |Between(db.live, p.start.first, p.last)| < |p.rows|
    ensures CommitArchive(db, p).Some? <==> p.start.first == ArchivedThrough(db.segments) + 1
    ensures p.start.first == ArchivedThrough(db.segments) + 1
        ==> p.start.segSeq == |db.segments| + 1 && CommitArchive(db, p).value.live == history[p.last..]
  {
    BetweenLive(h, db, history, p.start, p.last);
    hide Consistent, FileBytes, FileName, ComputeSegmentHash;
    if p.start.first == ArchivedThrough(db.segments) + 1 {
      NextStartIsLast(h, db, history, p.start);
    }
  }

  /** Only the start behind the last segment has the boundary of the live rows, and nobody else has its number. */
  lemma NextStartIsLast(h: Hash, db: Db, history: seq<Row>, start: Start)
    requires Consistent(h, db, history) && StartOk(db.segments, history, start)
    requires start.first == ArchivedThrough(db.segments) + 1
    ensures start.segSeq == |db.segments| + 1
    ensures forall i :: 0 <= i < |db.segments|
              ==> db.segments[i].segSeq != start.segSeq && db.segments[i].firstSeq != start.first
  {
    hide MakePlan, Linked, DistinctIds;
    CoverageGrows(h, db.segments, history, start.segSeq - 1, |db.segments|);
    forall i | 0 <= i < |db.segments|
      ensures db.segments[i].segSeq != start.segSeq && db.segments[i].firstSeq != start.first
    {
      assert SegmentAt(h, db.segments, i, history);
      CoverageGrows(h, db.segments, history, i, |db.segments|);
    }
  }

  lemma CommitArchiveKeeps(h: Hash, db: Db, history: seq<Row>, p: Plan)
    requires Consistent(h, db, history) && PlanOk(h, db.segments, history, p) && CommitArchive(db, p).Some?
    ensures Consistent(h, CommitArchive(db, p).value, history)
    ensures ArchivedThrough(CommitArchive(db, p).value.segments) == p.last
  {
    hide ComputeHash, ComputeSegmentHash, FileBytes, FileName;
    var db' := CommitArchive(db, p).value;
    CommitArchiveIff(h, db, history, p);
    var n := |db.segments|;
    forall i | 0 <= i <= n ensures SegmentAt(h, db'.segments, i, history) {
      if i < n {
        assert SegmentAt(h, db.segments, i, history);
        assert CoveredBy(db'.segments, i) == CoveredBy(db.segments, i);
      }
    }
    var k := ArchivedThrough(db.segments);
    assert forall i :: 0 <= i < |db'.live| ==> db'.live[i] == db.live[p.last - k + i];
  }
}
