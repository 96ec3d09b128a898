/** What an anchor proves when the archive files are required and checked as well, and where it proves nothing. */
module ArchiveEvidence {
  import opened ByteStrings
  import opened Chain
  import opened Options
  import opened ArchiveFile
  import opened ArchiveRoundTrip
  import opened AuditSteps
  import opened Verify
  import opened VerifyMeaning
  import opened TamperEvidence

  /** The rows in the file of a segment record. */
  function RowsInFile(files: map<Bytes, Bytes>, s: Segment): seq<Row> {
    if Base(s.fileName) in files then FileRows(files[Base(s.fileName)]) else []
  }

  /** The rows archived by the first i segments, read back from their files. */
  function ArchivedRows(files: map<Bytes, Bytes>, segments: seq<Segment>, i: nat): seq<Row>
    requires i <= |segments|
  {
    if i == 0 then []
    else
      ArchivedRows(files, segments, i - 1) + RowsInFile(files, segments[i - 1])
  }

  lemma {:induction false} ArchivedRowsLinked(h: Hash, opt: VerifyOptions, segments: seq<Segment>, i: nat)
    requires SegmentsVerify(h, opt, segments) && i <= |segments| && opt.archives.Some? && opt.requireArchives
    ensures var rows := ArchivedRows(opt.archives.value, segments, i);
            && Linked(h, rows, 1, GENESIS_HASH) && |rows| == CoveredBy(segments, i)
            && LastHash(rows, GENESIS_HASH) == BoundaryHash(segments, i)
  {
    hide CheckArchive, FileRows, ComputeHash, ComputeSegmentHash, Base, NamesDirectory;
    if i > 0 {
      var files, s := opt.archives.value, segments[i - 1];
      ArchivedRowsLinked(h, opt, segments, i - 1);
      assert SegmentVerifies(h, opt, segments, i - 1);
      PassingFileIsLinked(h, files[Base(s.fileName)], s);
      LinkedSplit(h, ArchivedRows(files, segments, i - 1), RowsInFile(files, s), 1, GENESIS_HASH);
    }
  }

  /** Archived and live rows together. */
  function FullHistory(db: Db, files: map<Bytes, Bytes>): seq<Row> {
    ArchivedRows(files, db.segments, |db.segments|) + LiveRows(db)
  }

  lemma {:induction false} EarlierSegmentsAreAPrefix(files: map<Bytes, Bytes>, segments: seq<Segment>, i: nat, j: nat)
    requires i <= j <= |segments|
    ensures ArchivedRows(files, segments, i) <= ArchivedRows(files, segments, j)
    decreases j
  {
    hide RowsInFile;
    if i < j {
      EarlierSegmentsAreAPrefix(files, segments, i, j - 1);
    }
  }

  /** An anchor at `n` is compared by the verifier: it is behind the archived range, or at the end of a segment. */
  predicate Compared(segments: seq<Segment>, n: nat) {
    ArchivedThrough(segments) < n || exists i :: 0 <= i < |segments| && segments[i].lastSeq == n
  }

  /** The hash of the full history at a place where an anchor is compared is the anchor's. */
  lemma FullHistoryAtAnchor(h: Hash, db: Db, opt: VerifyOptions, a: Anchor)
    requires VerifiesAsValid(h, db, opt) && opt.archives.Some? && opt.requireArchives && a in opt.anchors
    requires 0 <= a.seqNo && Compared(db.segments, a.seqNo)
    ensures var all := FullHistory(db, opt.archives.value);
            && Linked(h, all, 1, GENESIS_HASH) && a.seqNo <= |all|
            && HashBefore(all, a.seqNo, GENESIS_HASH) == a.hash
  {
    ValidIff(h, db.tail, db.segments, LiveRows(db), opt);
    var files := opt.archives.value;
    var archived, live, k := ArchivedRows(files, db.segments, |db.segments|), LiveRows(db), ArchivedThrough(db.segments);
    ArchivedRowsLinked(h, opt, db.segments, |db.segments|);
    assert AnchorAgrees(db.segments, TailOrGenesis(db.tail), live, a);
    hide LiveRows, ArchivedRows, Verdict, SegmentsVerify, Verifies, AnchorAgrees, Linked;
    LinkedSplit(h, archived, live, 1, GENESIS_HASH);
    if k < a.seqNo {
      assert (archived + live)[a.seqNo - 1] == live[a.seqNo - k - 1];
    } else {
      var i :| 0 <= i < |db.segments| && db.segments[i].lastSeq == a.seqNo;
      BoundaryOfArchive(h, db, opt, i);
    }
  }

  lemma BoundaryOfArchive(h: Hash, db: Db, opt: VerifyOptions, i: nat)
    requires VerifiesAsValid(h, db, opt) && opt.archives.Some? && opt.requireArchives && i < |db.segments|
    ensures var all, n := FullHistory(db, opt.archives.value), db.segments[i].lastSeq;
            0 <= n <= |all| && HashBefore(all, n, GENESIS_HASH) == db.segments[i].lastHash
  {
    ValidIff(h, db.tail, db.segments, LiveRows(db), opt);
    assert SegmentsVerify(h, opt, db.segments);
    hide LiveRows, ArchivedRows, Verdict, Verifies, Linked, SegmentsVerify;
    var files := opt.archives.value;
    ArchivedRowsLinked(h, opt, db.segments, i + 1);
    ArchivedRowsLinked(h, opt, db.segments, |db.segments|);
    EarlierSegmentsAreAPrefix(files, db.segments, i + 1, |db.segments|);
  }

  /**
   With the archive files required and checked, the whole history from genesis is one linked chain, so a single
   anchor at the tail of a true chain fixes every row up to it, archived or live, wherever anchors are compared.
   */
  lemma AnchorFixesEverything(h: Hash, db: Db, opt: VerifyOptions, past: seq<Row>)
    requires VerifiesAsValid(h, db, opt) && opt.archives.Some? && opt.requireArchives
    requires Linked(h, past, 1, GENESIS_HASH) && Compared(db.segments, |past|)
    requires Anchor(|past|, LastHash(past, GENESIS_HASH)) in opt.anchors
    requires NoCollision(h, Preimages(past) + Preimages(FullHistory(db, opt.archives.value)))
    ensures past <= FullHistory(db, opt.archives.value)
    ensures Linked(h, FullHistory(db, opt.archives.value), 1, GENESIS_HASH)
  {
    hide FullHistory, VerifiesAsValid, Preimages, Linked, Compared;
    var all, n := FullHistory(db, opt.archives.value), |past|;
    FullHistoryAtAnchor(h, db, opt, Anchor(n, LastHash(past, GENESIS_HASH)));
    LinkedCut(h, all, n, 1, GENESIS_HASH);
    assert LastHash(all[..n], GENESIS_HASH) == LastHash(past, GENESIS_HASH);
    PreimagesOfPart(all, 0, n);
    assert all[..n] == all[0..n];
    EqualTailsEqualRows(h, past, all[..n], 1, 1, GENESIS_HASH, GENESIS_HASH);
  }

  // ---------- where anchors are not compared ----------

  lemma SegmentsIgnoreAnchors(h: Hash, opt: VerifyOptions, anchors: seq<Anchor>, segments: seq<Segment>)
    ensures SegmentsVerify(h, opt.(anchors := anchors), segments) <==> SegmentsVerify(h, opt, segments)
  {
    hide CheckFile, ComputeSegmentHash;
    forall i | 0 <= i < |segments|
      ensures SegmentVerifies(h, opt.(anchors := anchors), segments, i) <==> SegmentVerifies(h, opt, segments, i)
    {
    }
  }

  /** Strictly inside an archived segment an anchor is not compared at all: whatever hash it states, the verdict is the same. */
  lemma InnerAnchorsAreNotCompared(h: Hash, db: Db, opt: VerifyOptions, a: Anchor)
    requires a.seqNo <= TailOrGenesis(db.tail).seqNo
    requires a.seqNo <= ArchivedThrough(db.segments) && forall i :: 0 <= i < |db.segments| ==> db.segments[i].lastSeq != a.seqNo
    ensures VerifiesAsValid(h, db, opt.(anchors := opt.anchors + [a])) <==> VerifiesAsValid(h, db, opt)
  {
    hide Verdict, SegmentsVerify, Linked, LiveRows;
    var more := opt.(anchors := opt.anchors + [a]);
    ValidIff(h, db.tail, db.segments, LiveRows(db), opt);
    ValidIff(h, db.tail, db.segments, LiveRows(db), more);
    SegmentsIgnoreAnchors(h, opt, more.anchors, db.segments);
    assert AnchorAgrees(db.segments, TailOrGenesis(db.tail), LiveRows(db), a);
    assert forall x :: x in more.anchors <==> x in opt.anchors || x == a;
  }
}
