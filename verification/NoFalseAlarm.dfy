/**
 The verifier against the system that runs beside it: exactly when Verify reports an untampered store as valid,
 for every interleaving of appenders and archivers with its own reads.
 */
module NoFalseAlarm {
  import opened ByteStrings
  import opened Chain
  import opened Options
  import opened ArchiveFile
  import opened ArchiveRoundTrip
  import opened LineLengths
  import opened AuditSteps
  import opened AuditRuns
  import opened Verify
  import opened VerifyMeaning
  import Utf8

  // ---------- segments and their files ----------

  lemma HashesAreText(h: Hash, history: seq<Row>, n: nat)
    requires TextDigests(h) && Linked(h, history, 1, GENESIS_HASH) && n <= |history|
    ensures Utf8.Valid(HashBefore(history, n, GENESIS_HASH))
  {
    hide Repeat, Utf8.Valid;
    ZerosAreText(64);
    if n > 0 {
      assert LinkedAt(h, history, n - 1, 1, GENESIS_HASH);
      DigestValid(h, history[n - 1]);
    }
  }

  /** Everything in the range of a segment is text, and every line of its file fits the verifier's scanner. */
  predicate SegmentReadable(s: Segment, history: seq<Row>) {
    && 1 <= s.firstSeq <= s.lastSeq <= |history|
    && AllTextValid(history[s.firstSeq - 1..s.lastSeq])
    && FileFits(history[s.firstSeq - 1..s.lastSeq], s.firstSeq, s.lastSeq, s.firstPrevHash)
  }

  /** The file of an archived range passes exactly when it is readable. */
  lemma FiledSegmentPasses(h: Hash, segments: seq<Segment>, i: nat, files: map<Bytes, Bytes>, history: seq<Row>)
    requires TextDigests(h) && NoSanitizedCollision(h, history) && Linked(h, history, 1, GENESIS_HASH)
    requires i < |segments| && SegmentAt(h, segments, i, history) && SegmentsFiled(segments, files, history)
    ensures CheckFile(h, files, segments[i]) == ArchiveOk <==> SegmentReadable(segments[i], history)
    ensures CheckFile(h, files, segments[i]) != ArchiveMissing
  {
    hide CheckArchive, ArchiveBytes, FileName, Linked, AllTextValid, NoSanitizedCollision, MakePlan, Utf8.Valid,
         TextDigests, ComputeSegmentHash, FileFits, Base, NamesDirectory;
    var s := segments[i];
    var rows := history[s.firstSeq - 1..s.lastSeq];
    SegmentFacts(h, segments, i, history);
    HashesAreText(h, history, s.firstSeq - 1);
    CutLinked(h, history, s.firstSeq, s.lastSeq);
    PartSanitized(h, history, s.firstSeq - 1, s.lastSeq);
    WrittenFilePasses(h, rows, s.firstSeq, s.firstPrevHash, s);
    BaseOfFileName(s.firstSeq, s.lastSeq);
    NeverMissing(h, ArchiveBytes(rows, s.firstSeq, s.lastSeq, s.firstPrevHash), s);
  }

  lemma NeverMissing(h: Hash, data: Bytes, s: Segment)
    ensures CheckArchive(h, data, s) != ArchiveMissing
  {
    hide ScanRows, ScanLines, ParseHeader;
    forall lines: seq<Bytes>, exp: int, prev: Bytes ensures ScanRows(h, lines, exp, prev, 0, s) != ArchiveMissing {
      ScanNeverMissing(h, lines, exp, prev, 0, s);
    }
  }

  lemma {:induction false} ScanNeverMissing(h: Hash, lines: seq<Bytes>, exp: int, prev: Bytes, n: nat, s: Segment)
    ensures ScanRows(h, lines, exp, prev, n, s) != ArchiveMissing
    decreases |lines|
  {
    hide DecodeRow, ParseFooter, Contains, ComputeHash;
    if lines != [] && DecodeRow(lines[0]).Some? {
      var r := DecodeRow(lines[0]).value;
      ScanNeverMissing(h, lines[1..], r.seqNo + 1, r.hash, n + 1, s);
    }
  }

  lemma CutLinked(h: Hash, history: seq<Row>, first: int, last: int)
    requires Linked(h, history, 1, GENESIS_HASH) && 1 <= first <= last <= |history|
    ensures Linked(h, history[first - 1..last], first, HashBefore(history, first - 1, GENESIS_HASH))
    ensures LastHash(history[first - 1..last], HashBefore(history, first - 1, GENESIS_HASH))
         == HashBefore(history, last, GENESIS_HASH)
  {
    hide ComputeHash, Linked;
    LinkedCut(h, history, last, 1, GENESIS_HASH);
    LinkedCut(h, history[..last], first - 1, 1, GENESIS_HASH);
    assert history[..last][first - 1..] == history[first - 1..last];
    assert history[..last][..first - 1] == history[..first - 1];
    PrefixHash(history, first - 1);
  }

  lemma PrefixHash(history: seq<Row>, n: nat)
    requires n <= |history|
    ensures LastHash(history[..n], GENESIS_HASH) == HashBefore(history, n, GENESIS_HASH)
  {
  }

  lemma PartSanitized(h: Hash, history: seq<Row>, a: nat, b: nat)
    requires NoSanitizedCollision(h, history) && a <= b <= |history|
    ensures NoSanitizedCollision(h, history[a..b])
  {
    hide ComputeHash, SanitizeRow, RowPreimage;
    forall i | 0 <= i < b - a && ComputeHash(h, SanitizeRow(history[a..b][i])) == ComputeHash(h, history[a..b][i])
      ensures RowPreimage(SanitizeRow(history[a..b][i])) == RowPreimage(history[a..b][i])
    {
      assert history[a..b][i] == history[a + i];
    }
  }

  predicate ArchivesReadable(opt: VerifyOptions, segments: seq<Segment>, history: seq<Row>) {
    opt.archives.Some? ==> forall i :: 0 <= i < |segments| ==> SegmentReadable(segments[i], history)
  }

  /** What the verifier may be given as archive directory. */
  ghost predicate HonestArchives(h: Hash, opt: VerifyOptions, segments: seq<Segment>, history: seq<Row>) {
    opt.archives.Some? ==>
      && TextDigests(h) && NoSanitizedCollision(h, history)
      && SegmentsFiled(segments, opt.archives.value, history)
  }

  lemma HonestSegmentVerifies(h: Hash, opt: VerifyOptions, segments: seq<Segment>, i: nat, history: seq<Row>)
    requires Linked(h, history, 1, GENESIS_HASH) && HonestArchives(h, opt, segments, history)
    requires i < |segments| && SegmentAt(h, segments, i, history)
    requires i > 0 ==> SegmentAt(h, segments, i - 1, history)
    ensures BoundaryHash(segments, i) == HashBefore(history, CoveredBy(segments, i), GENESIS_HASH)
    ensures SegmentVerifies(h, opt, segments, i) <==> (opt.archives.Some? ==> SegmentReadable(segments[i], history))
  {
    hide CheckFile, ComputeSegmentHash, FileName, ArchiveBytes, MakePlan, SegmentReadable, SegmentsFiled,
         NoSanitizedCollision, TextDigests, Linked;
    SegmentFacts(h, segments, i, history);
    if i > 0 {
      SegmentFacts(h, segments, i - 1, history);
    }
    if opt.archives.Some? {
      FiledSegmentPasses(h, segments, i, opt.archives.value, history);
    }
  }

  /** Untampered segments verify exactly when their files are readable. */
  lemma HonestSegmentsVerify(h: Hash, opt: VerifyOptions, segments: seq<Segment>, history: seq<Row>)
    requires Linked(h, history, 1, GENESIS_HASH) && HonestArchives(h, opt, segments, history)
    requires SegmentsOf(h, segments, history)
    ensures 0 <= ArchivedThrough(segments) <= |history|
    ensures BoundaryHash(segments, |segments|) == HashBefore(history, ArchivedThrough(segments), GENESIS_HASH)
    ensures SegmentsVerify(h, opt, segments) <==> ArchivesReadable(opt, segments, history)
  {
    hide SegmentVerifies, Linked, MakePlan, SegmentReadable, HonestArchives, SegmentAt, FileName, ArchiveBytes,
         ComputeSegmentHash;
    forall i | 0 <= i < |segments|
      ensures SegmentVerifies(h, opt, segments, i) <==> (opt.archives.Some? ==> SegmentReadable(segments[i], history))
    {
      assert SegmentAt(h, segments, i, history);
      if i > 0 { assert SegmentAt(h, segments, i - 1, history); }
      HonestSegmentVerifies(h, opt, segments, i, history);
    }
    if segments != [] {
      assert SegmentAt(h, segments, |segments| - 1, history);
      SegmentSpan(h, segments, |segments| - 1, history);
    }
  }

  lemma SegmentSpan(h: Hash, segments: seq<Segment>, i: nat, history: seq<Row>)
    requires i < |segments| && SegmentAt(h, segments, i, history)
    ensures var s := segments[i];
            && 0 <= CoveredBy(segments, i) && s.firstSeq == CoveredBy(segments, i) + 1
            && s.firstSeq <= s.lastSeq <= |history| && s.lastHash == HashBefore(history, s.lastSeq, GENESIS_HASH)
  {
    hide MakePlan, ArchiveBytes, FileName, ComputeSegmentHash;
    SegmentFacts(h, segments, i, history);
  }

  // ---------- the report on an untampered store ----------

  ghost predicate TrueTails(anchors: seq<Anchor>, history: seq<Row>) {
    forall a :: a in anchors ==> 0 <= a.seqNo <= |history| && a.hash == HashBefore(history, a.seqNo, GENESIS_HASH)
  }

  /**
   What Verify is shown of an untampered store whose history is `history`: the tail when `n` rows were committed,
   the segments when they covered the first k1 rows, and the live rows up to n when the first k2 had been archived.
   */
  ghost predicate HonestView(h: Hash, history: seq<Row>, tail: Tail, segments: seq<Segment>, rows: seq<Row>, n: nat,
                             k1: int, k2: int) {
    && Linked(h, history, 1, GENESIS_HASH) && n <= |history|
    && tail == Tail(n, HashBefore(history, n, GENESIS_HASH))
    && SegmentsOf(h, segments, history) && k1 == ArchivedThrough(segments)
    && 0 <= k1 <= k2 <= |history|
    && rows == (if k1 < n && k2 < n then history[k2..n] else [])
  }

  /** No archive committed between the segment read and the row reads, or there was nothing left to read. */
  predicate Undisturbed(n: nat, k1: int, k2: int) {
    k1 == n || (k1 == k2 && k1 < n)
  }

  lemma AnchorsOfHonestView(h: Hash, history: seq<Row>, tail: Tail, segments: seq<Segment>, rows: seq<Row>, n: nat,
                            k: int, a: Anchor)
    requires HonestView(h, history, tail, segments, rows, n, k, k) && k <= n
    requires 0 <= a.seqNo <= |history| && a.hash == HashBefore(history, a.seqNo, GENESIS_HASH)
    ensures AnchorAgrees(segments, tail, rows, a) <==> a.seqNo <= n
  {
    hide Linked, MakePlan;
    forall i | 0 <= i < |segments| && segments[i].lastSeq == a.seqNo ensures segments[i].lastHash == a.hash {
      assert SegmentAt(h, segments, i, history);
      SegmentFacts(h, segments, i, history);
    }
  }

  lemma RowsOfHonestView(h: Hash, history: seq<Row>, tail: Tail, segments: seq<Segment>, rows: seq<Row>, n: nat,
                         k1: int, k2: int)
    requires HonestView(h, history, tail, segments, rows, n, k1, k2)
    ensures (Linked(h, rows, k1 + 1, HashBefore(history, k1, GENESIS_HASH)) && k1 + |rows| == n) <==> Undisturbed(n, k1, k2)
    ensures Undisturbed(n, k1, k2) ==> LastHash(rows, HashBefore(history, k1, GENESIS_HASH)) == tail.hash
  {
    hide ComputeHash, MakePlan;
    if k1 == k2 && k1 < n {
      CutLinked(h, history, k1 + 1, n);
    } else if k1 < n && k2 < n {
      assert rows[0] == history[k2];
      assert LinkedAt(h, history, k2, 1, GENESIS_HASH);
      assert !LinkedAt(h, rows, 0, k1 + 1, HashBefore(history, k1, GENESIS_HASH));
    }
  }

  /** An untampered store is reported valid exactly when these three things hold, all of them about timing and text. */
  lemma HonestVerdict(h: Hash, history: seq<Row>, tail: Option<Tail>, segments: seq<Segment>, rows: seq<Row>, n: nat,
                      k1: int, k2: int, opt: VerifyOptions)
    requires HonestView(h, history, TailOrGenesis(tail), segments, rows, n, k1, k2)
    requires TrueTails(opt.anchors, history) && HonestArchives(h, opt, segments, history)
    ensures Verdict(h, tail, segments, rows, opt).Valid()
       <==> && Undisturbed(n, k1, k2)
            && (forall a :: a in opt.anchors ==> a.seqNo <= n)
            && ArchivesReadable(opt, segments, history)
  {
    hide Verdict, HonestArchives, ArchivesReadable, SegmentVerifies, AnchorAgrees;
    ValidIff(h, tail, segments, rows, opt);
    HonestSegmentsVerify(h, opt, segments, history);
    RowsOfHonestView(h, history, TailOrGenesis(tail), segments, rows, n, k1, k2);
    if Undisturbed(n, k1, k2) {
      assert HonestView(h, history, TailOrGenesis(tail), segments, rows, n, k1, k1);
      forall a | a in opt.anchors ensures AnchorAgrees(segments, TailOrGenesis(tail), rows, a) <==> a.seqNo <= n {
        AnchorsOfHonestView(h, history, TailOrGenesis(tail), segments, rows, n, k1, a);
      }
    }
  }

  // ---------- the files of recorded events ----------

  /** Every row holds a recorded event, and the numbers stay within 64 bits. */
  predicate RecordedHistory(history: seq<Row>) {
    AllBounded(history) && IsInt64(|history| + 1)
  }

  predicate PartIsText(s: Segment, history: seq<Row>) {
    1 <= s.firstSeq <= s.lastSeq <= |history| && AllTextValid(history[s.firstSeq - 1..s.lastSeq])
  }

  lemma RecordedSegmentReadable(h: Hash, segments: seq<Segment>, i: nat, history: seq<Row>)
    requires TextDigests(h) && Linked(h, history, 1, GENESIS_HASH) && RecordedHistory(history)
    requires i < |segments| && SegmentAt(h, segments, i, history)
    ensures SegmentReadable(segments[i], history) <==> PartIsText(segments[i], history)
  {
    hide ArchiveBytes, FileName, Linked, AllTextValid, MakePlan, TextDigests, ComputeSegmentHash, FileFits, Bounded;
    var s := segments[i];
    var rows := history[s.firstSeq - 1..s.lastSeq];
    SegmentFacts(h, segments, i, history);
    CutLinked(h, history, s.firstSeq, s.lastSeq);
    assert AllBounded(rows) by {
      assert forall j :: 0 <= j < |rows| ==> rows[j] == history[s.firstSeq - 1 + j];
    }
    assert |s.firstPrevHash| <= 64 by { HashBeforeLength(h, history, s.firstSeq - 1); }
    BoundedFileFits(h, rows, s.firstSeq, s.firstPrevHash);
  }

  lemma HashBeforeLength(h: Hash, history: seq<Row>, n: nat)
    requires TextDigests(h) && Linked(h, history, 1, GENESIS_HASH) && n <= |history|
    ensures |HashBefore(history, n, GENESIS_HASH)| == 64
  {
    hide Utf8.Valid, Repeat;
    if n > 0 {
      assert LinkedAt(h, history, n - 1, 1, GENESIS_HASH);
      DigestValid(h, history[n - 1]);
    }
  }

  lemma TextOfParts(rows: seq<Row>, a: nat, b: nat)
    requires a <= b <= |rows|
    ensures AllTextValid(rows[..b]) <==> AllTextValid(rows[..a]) && AllTextValid(rows[a..b])
  {
    hide TextValid;
    forall i | 0 <= i < b ensures rows[..b][i] == if i < a then rows[..a][i] else rows[a..b][i - a] {
    }
    assert forall i :: 0 <= i < a ==> rows[..a][i] == rows[..b][i];
    assert forall i :: 0 <= i < b - a ==> rows[a..b][i] == rows[..b][a + i];
  }

  /** The first i segments hold text. */
  predicate FirstPartsAreText(segments: seq<Segment>, i: nat, history: seq<Row>)
    requires i <= |segments|
  {
    forall j :: 0 <= j < i ==> PartIsText(segments[j], history)
  }

  lemma {:induction false} TextOfSegments(h: Hash, segments: seq<Segment>, i: nat, history: seq<Row>)
    requires i <= |segments| && SegmentsOf(h, segments, history)
    ensures 0 <= CoveredBy(segments, i) <= |history|
    ensures FirstPartsAreText(segments, i, history) <==> AllTextValid(history[..CoveredBy(segments, i)])
  {
    hide AllTextValid, SegmentAt;
    if i == 0 {
      assert AllTextValid(history[..0]) by { NoText(history); }
    } else {
      var s := segments[i - 1];
      TextOfSegments(h, segments, i - 1, history);
      assert SegmentAt(h, segments, i - 1, history);
      SegmentSpan(h, segments, i - 1, history);
      TextOfParts(history, s.firstSeq - 1, s.lastSeq);
    }
  }

  lemma NoText(history: seq<Row>)
    ensures AllTextValid(history[..0])
  {
  }

  /** The archives of recorded events are readable exactly when every archived row is text. */
  lemma RecordedArchivesReadable(h: Hash, opt: VerifyOptions, segments: seq<Segment>, history: seq<Row>)
    requires Linked(h, history, 1, GENESIS_HASH) && SegmentsOf(h, segments, history)
    requires opt.archives.Some? ==> TextDigests(h) && RecordedHistory(history)
    ensures 0 <= ArchivedThrough(segments) <= |history|
    ensures ArchivesReadable(opt, segments, history)
       <==> (opt.archives.Some? ==> AllTextValid(history[..ArchivedThrough(segments)]))
  {
    hide AllTextValid, SegmentAt, SegmentReadable, PartIsText, Linked, TextDigests, RecordedHistory;
    TextOfSegments(h, segments, |segments|, history);
    if opt.archives.Some? {
      forall i | 0 <= i < |segments| ensures SegmentReadable(segments[i], history) <==> PartIsText(segments[i], history) {
        assert SegmentAt(h, segments, i, history);
        RecordedSegmentReadable(h, segments, i, history);
      }
    }
  }

  /** So for recorded events the verdict is about timing and text alone. */
  lemma RecordedVerdict(h: Hash, history: seq<Row>, tail: Option<Tail>, segments: seq<Segment>, rows: seq<Row>, n: nat,
                        k1: int, k2: int, opt: VerifyOptions)
    requires HonestView(h, history, TailOrGenesis(tail), segments, rows, n, k1, k2)
    requires TrueTails(opt.anchors, history) && HonestArchives(h, opt, segments, history)
    requires opt.archives.Some? ==> RecordedHistory(history)
    ensures Verdict(h, tail, segments, rows, opt).Valid()
       <==> && Undisturbed(n, k1, k2)
            && (forall a :: a in opt.anchors ==> a.seqNo <= n)
            && (opt.archives.Some? ==> AllTextValid(history[..k1]))
  {
    hide Verdict, ArchivesReadable, AllTextValid, RecordedHistory, SegmentsFiled, NoSanitizedCollision, TextDigests, Linked;
    HonestVerdict(h, history, tail, segments, rows, n, k1, k2, opt);
    RecordedArchivesReadable(h, opt, segments, history);
  }

  // ---------- on every run ----------

  lemma LiveRange(h: Hash, db: Db, history: seq<Row>, k1: int, n: nat)
    requires Consistent(h, db, history) && 0 <= k1 <= ArchivedThrough(db.segments) && n <= |history|
    ensures var k2 := ArchivedThrough(db.segments);
            Between(db.live, k1 + 1, n) == (if k1 < n && k2 < n then history[k2..n] else [])
  {
    hide ComputeHash, MakePlan, Between, Without, SegmentAt, DistinctIds, LinkedAt;
    var k2 := ArchivedThrough(db.segments);
    LinkedNumbered(h, history, 1, GENESIS_HASH);
    if k1 <= n {
      RangesAreCuts(db.live, k2 + 1, k1 + 1, n);
      if k2 < n {
        assert db.live[0..n - k2] == history[k2..n];
      }
    } else {
      BetweenInverted(db.live, k1 + 1, n);
    }
  }

  lemma {:induction false} BetweenInverted(rows: seq<Row>, first: int, last: int)
    requires last < first
    ensures Between(rows, first, last) == []
  {
    if rows != [] {
      BetweenInverted(rows[..|rows| - 1], first, last);
    }
  }

  lemma FilesOfLater(h: Hash, segments: seq<Segment>, files: map<Bytes, Bytes>, history: seq<Row>, history': seq<Row>)
    requires SegmentsFiled(segments, files, history) && history <= history'
    ensures SegmentsFiled(segments, files, history')
  {
    hide HoldsRange;
    forall i | 0 <= i < |segments|
      ensures var s := segments[i];
              1 <= s.firstSeq <= s.lastSeq <= |history'| && HoldsRange(files, history', s.firstSeq, s.lastSeq)
    {
      RangeBytesStable(files, history, history', segments[i].firstSeq, segments[i].lastSeq);
    }
  }

  /**
   Any run, stopped where the verifier reads the tail (after `a`), the segments and the archive directory (after
   another `b`) and the live rows (after another `c`). The anchors are tails the chain had at any time up to then.
   */
  lemma VerdictOnRun(h: Hash, a: seq<Action>, b: seq<Action>, c: seq<Action>, opt: VerifyOptions)
    requires var s2 := Run(h, Run(h, Run(h, INITIAL, a), b), c);
             TrueTails(opt.anchors, s2.history)
             && (opt.archives.Some? ==> && opt.archives.value == Run(h, Run(h, INITIAL, a), b).files
                                        && TextDigests(h) && NoSanitizedCollision(h, s2.history))
    ensures var s0 := Run(h, INITIAL, a);
            var s1 := Run(h, s0, b);
            var s2 := Run(h, s1, c);
            var n, k1, k2 := |s0.history|, ArchivedThrough(s1.db.segments), ArchivedThrough(s2.db.segments);
            && 0 <= k1 <= |s1.history|
            && (Verdict(h, s0.db.tail, s1.db.segments, Between(s2.db.live, k1 + 1, n), opt).Valid()
                <==> && Undisturbed(n, k1, k2)
                     && (forall x :: x in opt.anchors ==> x.seqNo <= n)
                     && ArchivesReadable(opt, s1.db.segments, s1.history))
  {
    hide Run, Inv, SegmentsFiled, NoSanitizedCollision, TextDigests, AllTextValid, TrueTails, Verdict, HonestView,
         Undisturbed, Between;
    var s0 := Run(h, INITIAL, a);
    var s1 := Run(h, s0, b);
    var s2 := Run(h, s1, c);
    InitialInv(h);
    RunInv(h, INITIAL, a);
    RunInv(h, s0, b);
    RunInv(h, s1, c);
    var n, k1, k2 := |s0.history|, ArchivedThrough(s1.db.segments), ArchivedThrough(s2.db.segments);
    var rows := Between(s2.db.live, k1 + 1, n);
    RunView(h, s0, s1, s2);
    InvFiles(h, s1);
    if opt.archives.Some? {
      FilesOfLater(h, s1.db.segments, s1.files, s1.history, s2.history);
    }
    HonestVerdict(h, s2.history, s0.db.tail, s1.db.segments, rows, n, k1, k2, opt);
    ReadableLater(h, opt, s1.db.segments, s1.history, s2.history);
  }

  lemma ReadableLater(h: Hash, opt: VerifyOptions, segments: seq<Segment>, history: seq<Row>, history': seq<Row>)
    requires SegmentsOf(h, segments, history) && history <= history'
    ensures ArchivesReadable(opt, segments, history) <==> ArchivesReadable(opt, segments, history')
  {
    hide AllTextValid, FileFits, SegmentAt;
    forall i | 0 <= i < |segments|
      ensures SegmentReadable(segments[i], history) <==> SegmentReadable(segments[i], history')
    {
      assert SegmentAt(h, segments, i, history);
      SegmentSpan(h, segments, i, history);
      assert history[segments[i].firstSeq - 1..segments[i].lastSeq] == history'[segments[i].firstSeq - 1..segments[i].lastSeq];
    }
  }

  lemma InvFiles(h: Hash, s: System)
    requires Inv(h, s)
    ensures SegmentsFiled(s.db.segments, s.files, s.history) && SegmentsOf(h, s.db.segments, s.history)
  {
  }

  lemma RunView(h: Hash, s0: System, s1: System, s2: System)
    requires Inv(h, s0) && Inv(h, s1) && Inv(h, s2)
    requires s0.history <= s1.history <= s2.history && s1.db.segments <= s2.db.segments
    ensures var n, k1, k2 := |s0.history|, ArchivedThrough(s1.db.segments), ArchivedThrough(s2.db.segments);
            && 0 <= k1 <= |s1.history|
            && HonestView(h, s2.history, TailOrGenesis(s0.db.tail), s1.db.segments, Between(s2.db.live, k1 + 1, n), n, k1, k2)
  {
    hide SegmentsFiled, WorkersOk, DistinctIds, LinkedAt, SegmentAt, Between;
    CoverageGrows(h, s2.db.segments, s2.history, |s1.db.segments|, |s2.db.segments|);
    LiveRange(h, s2.db, s2.history, ArchivedThrough(s1.db.segments), |s0.history|);
    assert forall i :: 0 <= i < |s1.db.segments| ==> SegmentAt(h, s1.db.segments, i, s2.history) by {
      PrefixSegments(h, s1.db.segments, s2.db.segments, s2.history);
    }
  }

  lemma PrefixSegments(h: Hash, segments: seq<Segment>, all: seq<Segment>, history: seq<Row>)
    requires segments <= all && SegmentsOf(h, all, history)
    ensures SegmentsOf(h, segments, history)
  {
    hide MakePlan;
    forall i | 0 <= i < |segments| ensures SegmentAt(h, segments, i, history) {
      assert SegmentAt(h, all, i, history);
    }
  }

  /** What the verifier's page reads find: audit_log after each of the runs. */
  function TablesAfter(h: Hash, s: System, runs: nat -> seq<Action>): nat -> seq<Row> {
    (k: nat) => Run(h, s, runs(k)).db.live
  }

  /**
   While no archive commits, whatever appenders and would-be archivers do between its page reads, the verifier
   sees one stable range.
   */
  lemma RangeStableOnRun(h: Hash, s: System, runs: nat -> seq<Action>, n: nat)
    requires Inv(h, s) && n <= |s.history|
    requires forall k: nat :: Run(h, s, runs(k)).db.segments == s.db.segments
    ensures var table, first := TablesAfter(h, s, runs), ArchivedThrough(s.db.segments) + 1;
            && StableRange(table, first, n) && (forall k: nat :: SortedBySeq(table(k)))
            && Between(table(0), first, n) == Between(s.db.live, first, n)
  {
    hide Run, Between, SortedBySeq, Inv;
    var table := TablesAfter(h, s, runs);
    var first := ArchivedThrough(s.db.segments) + 1;
    forall k: nat
      ensures Between(table(k), first, n) == Between(s.db.live, first, n) && SortedBySeq(table(k))
    {
      var s' := Run(h, s, runs(k));
      RunInv(h, s, runs(k));
      SameRange(h, s, s', n);
      ConsistentSorted(h, s');
    }
  }

  /**
   The verifier itself beside a running system: it reads the tail after any run `a`, the segments and their files
   after any further run `b`, and one page of audit_log after each of the runs `runs(k)`, in which appenders may
   commit but no archiver does. For every batch size its report is valid exactly when the segments it read do not
   reach beyond its tail, no anchor is newer than that, and the files are readable; then it has counted every row.
   */
  method VerifyWhileAppending(h: Hash, a: seq<Action>, b: seq<Action>, runs: nat -> seq<Action>, opt: VerifyOptions)
    returns (res: VerifyResult)
    requires var s1 := Run(h, Run(h, INITIAL, a), b);
             && TrueTails(opt.anchors, s1.history)
             && (opt.archives.Some? ==> && opt.archives.value == s1.files
                                        && TextDigests(h) && NoSanitizedCollision(h, s1.history))
             && forall k: nat :: Run(h, s1, runs(k)).db.segments == s1.db.segments
    ensures var s0 := Run(h, INITIAL, a);
            var s1 := Run(h, s0, b);
            var n, k1 := |s0.history|, ArchivedThrough(s1.db.segments);
            && (res.Valid() <==> && k1 <= n
                                 && (forall x :: x in opt.anchors ==> x.seqNo <= n)
                                 && ArchivesReadable(opt, s1.db.segments, s1.history))
            && (res.Valid() ==> && res.checked == n - k1 && res.archivedThrough == k1
                                && res.segments == |s1.db.segments|
                                && res.tailSeq == n && res.tailHash == HashBefore(s0.history, n, GENESIS_HASH))
  {
    hide Run, Inv, NoSanitizedCollision, TextDigests, ArchivesReadable, TrueTails, Between, StableRange,
         SortedBySeq, AfterSegments, Verdict;
    var s0 := Run(h, INITIAL, a);
    var s1 := Run(h, s0, b);
    ghost var n, k1 := |s0.history|, ArchivedThrough(s1.db.segments);
    ghost var rows := Between(s1.db.live, k1 + 1, n);
    RunStates(h, a, b);
    RangeStableOnRun(h, s1, runs, n);
    NoActions(h, s1);
    VerdictOnRun(h, a, b, [], opt);
    StandsBehindSegments(h, opt, s0.db.tail, s1.db.segments);
    ValidIff(h, s0.db.tail, s1.db.segments, rows, opt);
    CountedRows(h, s0, s1);
    res := Verify.Verify(h, s0.db.tail, s1.db.segments, TablesAfter(h, s1, runs), opt);
  }

  lemma RunStates(h: Hash, a: seq<Action>, b: seq<Action>)
    ensures var s0 := Run(h, INITIAL, a);
            var s1 := Run(h, s0, b);
            && Inv(h, s0) && Inv(h, s1) && s0.history <= s1.history
            && TailOrGenesis(s0.db.tail) == Tail(|s0.history|, HashBefore(s0.history, |s0.history|, GENESIS_HASH))
  {
    hide Run;
    InitialInv(h);
    RunInv(h, INITIAL, a);
    RunInv(h, Run(h, INITIAL, a), b);
  }

  /** When the walk over the segments succeeds it stands behind the archived range. */
  lemma StandsBehindSegments(h: Hash, opt: VerifyOptions, tail: Option<Tail>, segments: seq<Segment>)
    ensures var s := AfterSegments(h, opt, TailOrGenesis(tail), segments);
            s.res.Valid() ==> s.expSeq == ArchivedThrough(segments) + 1
    ensures var s := AfterSegments(h, opt, TailOrGenesis(tail), segments);
            forall rows :: !s.res.Valid() ==> Verdict(h, tail, segments, rows, opt) == s.res
  {
    hide AfterSegments;
    StandsAtEnd(h, opt, segments, TailOrGenesis(tail));
  }

  lemma CountedRows(h: Hash, s0: System, s1: System)
    requires Inv(h, s0) && Inv(h, s1) && s0.history <= s1.history
    ensures var n, k1 := |s0.history|, ArchivedThrough(s1.db.segments);
            Undisturbed(n, k1, k1) ==> |Between(s1.db.live, k1 + 1, n)| == n - k1
  {
    hide SegmentsFiled, WorkersOk, DistinctIds, LinkedAt, SegmentAt, Between;
    LiveRange(h, s1.db, s1.history, ArchivedThrough(s1.db.segments), |s0.history|);
  }

  lemma NoActions(h: Hash, s: System)
    ensures Run(h, s, []) == s
  {
  }

  lemma SameRange(h: Hash, s: System, s': System, n: nat)
    requires Inv(h, s) && Inv(h, s') && s.history <= s'.history && s'.db.segments == s.db.segments && n <= |s.history|
    ensures Between(s'.db.live, ArchivedThrough(s.db.segments) + 1, n) == Between(s.db.live, ArchivedThrough(s.db.segments) + 1, n)
  {
    hide SegmentsFiled, WorkersOk, DistinctIds, LinkedAt, SegmentAt, Between;
    var k := ArchivedThrough(s.db.segments);
    LiveRange(h, s.db, s.history, k, n);
    LiveRange(h, s'.db, s'.history, k, n);
    if k < n {
      assert s'.history[k..n] == s.history[k..n];
    }
  }

  lemma ConsistentSorted(h: Hash, s: System)
    requires Inv(h, s)
    ensures SortedBySeq(s.db.live)
  {
    hide SegmentsFiled, WorkersOk, DistinctIds, LinkedAt, SegmentAt;
    LinkedNumbered(h, s.history, 1, GENESIS_HASH);
    var k := ArchivedThrough(s.db.segments);
    assert forall i :: 0 <= i < |s.db.live| ==> s.db.live[i] == s.history[k + i];
  }
}
