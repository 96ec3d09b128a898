/** What an invalid report names, independently of the walk: the first break from the segments to the tail. */
module VerifyReport {
  import opened ByteStrings
  import opened Chain
  import opened Options
  import opened ArchiveFile
  import opened AuditSteps
  import opened Verify
  import opened VerifyMeaning

  // ---------- segments ----------

  lemma BrokenSegment(h: Hash, opt: VerifyOptions, segments: seq<Segment>, i: nat, w: SegmentWalk, tail: Tail)
    requires i < |segments| && StandsAt(w, segments, i, tail) && !SegmentVerifies(h, opt, segments, i)
    ensures WalkSegment(h, opt, i, segments[i], w).res
         == w.res.Fail(if RecordVerifies(h, segments, i) then ArchiveBroken else SegmentBroken, segments[i].firstSeq)
  {
    hide ComputeSegmentHash, CheckFile;
  }

  lemma {:induction false} FirstBrokenOf(h: Hash, opt: VerifyOptions, segments: seq<Segment>, k: nat, i: nat,
                                         w: SegmentWalk, tail: Tail)
    requires k <= i < |segments| && StandsAt(w, segments, k, tail)
    requires forall j :: 0 <= j < i ==> SegmentVerifies(h, opt, segments, j)
    requires !SegmentVerifies(h, opt, segments, i)
    ensures var r := WalkSegments(h, opt, k, segments[k..], w).res;
            && r.failure == Some(Failure(if RecordVerifies(h, segments, i) then ArchiveBroken else SegmentBroken,
                                         segments[i].firstSeq))
            && r.checked == 0
    decreases i - k
  {
    hide WalkSegment, SegmentVerifies, RecordVerifies, StandsAt;
    var next := WalkSegment(h, opt, k, segments[k], w);
    assert segments[k..][1..] == segments[k + 1..];
    StandsValid(w, segments, k, tail);
    if k < i {
      WalkSegmentMeaning(h, opt, segments, k, w, tail);
      FirstBrokenOf(h, opt, segments, k + 1, i, next, tail);
    } else {
      BrokenSegment(h, opt, segments, i, w, tail);
      assert WalkSegments(h, opt, k + 1, segments[k + 1..], next) == next;
      NothingChecked(w, segments, k, tail);
    }
  }

  lemma NothingChecked(w: SegmentWalk, segments: seq<Segment>, i: nat, tail: Tail)
    requires i <= |segments| && StandsAt(w, segments, i, tail)
    ensures w.res.checked == 0
  {
  }

  /**
   The first segment that does not verify is named at its first number: as a broken archive when only its file
   fails, and else as a broken segment.
   */
  lemma FirstBrokenSegment(h: Hash, tail: Option<Tail>, segments: seq<Segment>, rows: seq<Row>, opt: VerifyOptions,
                           i: nat)
    requires i < |segments| && !SegmentVerifies(h, opt, segments, i)
    requires forall j :: 0 <= j < i ==> SegmentVerifies(h, opt, segments, j)
    ensures var r := Verdict(h, tail, segments, rows, opt);
            && r.failure == Some(Failure(if RecordVerifies(h, segments, i) then ArchiveBroken else SegmentBroken,
                                         segments[i].firstSeq))
            && r.checked == 0
  {
    hide WalkSegments, SegmentVerifies, RecordVerifies, AfterAnchors, WalkRows;
    var t := TailOrGenesis(tail);
    assert segments[..0] == [] && segments[0..] == segments;
    FirstBrokenOf(h, opt, segments, 0, i, BeginSegments(t, segments), t);
  }

  // ---------- anchors ----------

  /** What can be seen of an anchor before the rows are read: it is not beyond the tail, and agrees with a boundary at its number. */
  predicate EarlyAgrees(segments: seq<Segment>, tail: Tail, a: Anchor) {
    && a.seqNo <= tail.seqNo
    && (forall i :: 0 <= i < |segments| && segments[i].lastSeq == a.seqNo ==> segments[i].lastHash == a.hash)
  }

  lemma EarlyMeaning(h: Hash, opt: VerifyOptions, segments: seq<Segment>, tail: Tail, a: Anchor)
    requires SegmentsVerify(h, opt, segments)
    ensures EarlyAgrees(segments, tail, a)
       <==> AnchorPasses(BoundaryMap(segments), tail.seqNo, ArchivedThrough(segments), a)
  {
    hide SegmentVerifies;
    BoundaryMapMeaning(h, opt, segments, |segments|, a.seqNo);
    assert segments[..|segments|] == segments;
    forall i | 0 <= i < |segments| ensures segments[i].lastSeq <= ArchivedThrough(segments) {
      VerifiedCoverage(h, opt, segments, i + 1, |segments|);
    }
  }

  lemma BadAnchor(boundary: map<int, Bytes>, a: Anchor, w: AnchorWalk)
    requires w.res.Valid() && !AnchorPasses(boundary, w.res.tailSeq, w.res.archivedThrough, a)
    ensures var r := WalkAnchor(boundary, a, w).res;
            && r.failure == Some(Failure(if a.seqNo > w.res.tailSeq then AnchorTruncation else AnchorMismatch, a.seqNo))
            && r.checked == w.res.checked
  {
  }

  /** Of ascending anchors the failing one with the lowest number is met first. */
  lemma {:induction false} LowestBadAnchor(boundary: map<int, Bytes>, anchors: seq<Anchor>, w: AnchorWalk, a: Anchor)
    requires w.res.Valid() && w.res.archivedThrough >= 0 && Ascending(anchors) && a in anchors
    requires !AnchorPasses(boundary, w.res.tailSeq, w.res.archivedThrough, a)
    requires forall b :: b in anchors && b.seqNo < a.seqNo ==>
               AnchorPasses(boundary, w.res.tailSeq, w.res.archivedThrough, b)
    ensures var r := WalkAnchors(boundary, anchors, w).res;
            && r.failure == Some(Failure(if a.seqNo > w.res.tailSeq then AnchorTruncation else AnchorMismatch, a.seqNo))
            && r.checked == w.res.checked
    decreases |anchors|
  {
    hide WalkAnchor, AnchorPasses;
    var first, rest := anchors[0], anchors[1..];
    assert anchors == [first] + rest;
    var next := WalkAnchor(boundary, first, w);
    if AnchorPasses(boundary, w.res.tailSeq, w.res.archivedThrough, first) {
      WalkAnchorMeaning(boundary, first, w);
      LowestBadAnchor(boundary, rest, next, a);
    } else {
      BadAnchor(boundary, first, w);
      assert first.seqNo == a.seqNo;
      assert WalkAnchors(boundary, rest, next) == next;
    }
  }

  /** Behind verified segments the lowest anchor that fails before the rows are read is named. */
  lemma FirstBadAnchor(h: Hash, tail: Option<Tail>, segments: seq<Segment>, rows: seq<Row>, opt: VerifyOptions,
                       a: Anchor)
    requires SegmentsVerify(h, opt, segments)
    requires a in opt.anchors && !EarlyAgrees(segments, TailOrGenesis(tail), a)
    requires forall b :: b in opt.anchors && b.seqNo < a.seqNo ==> EarlyAgrees(segments, TailOrGenesis(tail), b)
    ensures var r := Verdict(h, tail, segments, rows, opt);
            && r.failure == Some(Failure(if a.seqNo > TailOrGenesis(tail).seqNo then AnchorTruncation else AnchorMismatch,
                                         a.seqNo))
            && r.checked == 0
  {
    hide WalkRows, WalkAnchors, SortAnchors, AnchorPasses, EarlyAgrees, Ascending, AfterSegments, SegmentVerifies, BoundaryMap;
    var t := TailOrGenesis(tail);
    var s := StandsVerified(h, opt, segments, t);
    forall b ensures EarlyAgrees(segments, t, b) <==> AnchorPasses(s.boundary, t.seqNo, ArchivedThrough(segments), b) {
      EarlyMeaning(h, opt, segments, t, b);
    }
    forall x ensures x in SortAnchors(opt.anchors) <==> x in opt.anchors {
      SortAnchorsMembers(opt.anchors, x);
    }
    SortAnchorsMeaning(opt.anchors);
    LowestBadAnchor(s.boundary, SortAnchors(opt.anchors), AnchorWalk(s.res.(archivedThrough := s.expSeq - 1), map[]), a);
  }

  /** Where the walk over verified segments ends. */
  lemma StandsVerified(h: Hash, opt: VerifyOptions, segments: seq<Segment>, tail: Tail) returns (s: SegmentWalk)
    requires SegmentsVerify(h, opt, segments)
    ensures s == AfterSegments(h, opt, tail, segments)
    ensures s.res.Valid() && s.res.tailSeq == tail.seqNo && s.res.tailHash == tail.hash && s.res.checked == 0
    ensures s.expSeq == ArchivedThrough(segments) + 1 && s.expPrev == BoundaryHash(segments, |segments|)
    ensures s.boundary == BoundaryMap(segments) && ArchivedThrough(segments) >= 0
  {
    hide AfterSegments, SegmentVerifies;
    s := AfterSegments(h, opt, tail, segments);
    StandsAtEnd(h, opt, segments, tail);
    VerifiedCoverage(h, opt, segments, 0, |segments|);
    assert segments[..|segments|] == segments;
  }

  // ---------- rows and tail ----------

  /** Every supplied anchor at this row carries its hash. */
  predicate AnchorsAgreeAt(anchors: seq<Anchor>, r: Row) {
    forall a :: a in anchors && a.seqNo == r.seqNo ==> a.hash == r.hash
  }

  /** Segments verify and no anchor fails before the rows are read. */
  predicate ReachesRows(h: Hash, tail: Tail, segments: seq<Segment>, opt: VerifyOptions) {
    SegmentsVerify(h, opt, segments) && forall a :: a in opt.anchors ==> EarlyAgrees(segments, tail, a)
  }

  /** Then the report is that of a row walk from the archived boundary, which compares the anchors behind it. */
  lemma RowsReached(h: Hash, tail: Option<Tail>, segments: seq<Segment>, rows: seq<Row>, opt: VerifyOptions)
    returns (want: map<int, seq<Bytes>>, w: RowWalk)
    requires ReachesRows(h, TailOrGenesis(tail), segments, opt)
    ensures Verdict(h, tail, segments, rows, opt) == CheckTail(WalkRows(h, want, rows, w))
    ensures w.res.Valid() && w.res.checked == 0
    ensures w.res.tailSeq == TailOrGenesis(tail).seqNo && w.res.tailHash == TailOrGenesis(tail).hash
    ensures w.expSeq == ArchivedThrough(segments) + 1 && w.expPrev == BoundaryHash(segments, |segments|)
    ensures forall r: Row :: r.seqNo > ArchivedThrough(segments) ==>
              (WantedAgree(want, r) <==> AnchorsAgreeAt(opt.anchors, r))
  {
    hide WalkRows, WalkAnchors, SortAnchors, AnchorPasses, EarlyAgrees, AfterSegments, SegmentVerifies, BoundaryMap,
         CheckTail, WantsAlso, WantedAgree, AnchorsAgreeAt;
    var t := TailOrGenesis(tail);
    var s := StandsVerified(h, opt, segments, t);
    var k, sorted := ArchivedThrough(segments), SortAnchors(opt.anchors);
    forall x ensures x in sorted <==> x in opt.anchors {
      SortAnchorsMembers(opt.anchors, x);
    }
    forall b | b in sorted ensures AnchorPasses(s.boundary, t.seqNo, k, b) {
      EarlyMeaning(h, opt, segments, t, b);
    }
    WalkAnchorsMeaning(s.boundary, sorted, AnchorWalk(s.res.(archivedThrough := s.expSeq - 1), map[]));
    var a := AfterAnchors(opt, s);
    WantsSame(a.want, sorted, opt.anchors, k);
    forall r: Row | r.seqNo > k ensures WantedAgree(a.want, r) <==> AnchorsAgreeAt(opt.anchors, r) {
      WantedAtRow(a.want, opt.anchors, k, r);
    }
    want, w := a.want, RowWalk(a.res, s.expSeq, s.expPrev);
  }

  lemma WantedAtRow(want: map<int, seq<Bytes>>, anchors: seq<Anchor>, archived: int, r: Row)
    requires WantsAlso(want, map[], anchors, archived) && r.seqNo > archived
    ensures WantedAgree(want, r) <==> AnchorsAgreeAt(anchors, r)
  {
    NothingWanted();
    if WantedAgree(want, r) {
      forall a | a in anchors && a.seqNo == r.seqNo ensures a.hash == r.hash {
        assert a == Anchor(a.seqNo, a.hash);
        assert Wanted(want, a.seqNo, a.hash);
      }
    }
    if AnchorsAgreeAt(anchors, r) && r.seqNo in want {
      forall x | x in want[r.seqNo] ensures x == r.hash {
        assert Wanted(want, r.seqNo, x);
        assert Anchor(r.seqNo, x) in anchors;
      }
    }
  }

  /** Whether a row continues the chain that stands at (expSeq, expPrev), and agrees with the anchors at it. */
  predicate Continues(h: Hash, anchors: seq<Anchor>, r: Row, expSeq: int, expPrev: Bytes) {
    && r.seqNo == expSeq && r.prevHash == expPrev && r.hash == ComputeHash(h, r)
    && AnchorsAgreeAt(anchors, r)
  }

  /**
   The first row that does not continue the chain is named: a missing number as a gap at that number, else a wrong
   link, a wrong hash or a disagreeing anchor, in this order, at the row. The rows before it have been counted.
   */
  lemma FirstBrokenLiveRow(h: Hash, tail: Option<Tail>, segments: seq<Segment>, rows: seq<Row>, opt: VerifyOptions,
                           i: nat)
    requires ReachesRows(h, TailOrGenesis(tail), segments, opt) && i < |rows|
    requires Linked(h, rows[..i], ArchivedThrough(segments) + 1, BoundaryHash(segments, |segments|))
    requires forall j :: 0 <= j < i ==> AnchorsAgreeAt(opt.anchors, rows[j])
    requires !Continues(h, opt.anchors, rows[i], ArchivedThrough(segments) + 1 + i,
                        LastHash(rows[..i], BoundaryHash(segments, |segments|)))
    ensures var r, row := Verdict(h, tail, segments, rows, opt), rows[i];
            var exp, prev := ArchivedThrough(segments) + 1 + i, LastHash(rows[..i], BoundaryHash(segments, |segments|));
            && r.failure.Some? && r.checked == i
            && var f := r.failure.value;
            && (row.seqNo != exp ==> f == Failure(SeqGap, exp))
            && (row.seqNo == exp && row.prevHash != prev ==> f == Failure(PrevHashMismatch, exp))
            && (row.seqNo == exp && row.prevHash == prev && row.hash != ComputeHash(h, row) ==> f == Failure(HashMismatch, exp))
            && (row.seqNo == exp && row.prevHash == prev && row.hash == ComputeHash(h, row) ==> f == Failure(AnchorMismatch, exp))
  {
    hide Verdict, WalkRows, Linked, WantedAgree, AnchorsAgreeAt, ReachesRows, ComputeHash;
    var want, w := RowsReached(h, tail, segments, rows, opt);
    LinkedNumbered(h, rows[..i], w.expSeq, w.expPrev);
    forall j | 0 <= j < i ensures WantedAgree(want, rows[j]) {
      assert rows[..i][j] == rows[j];
    }
    LinkedOne(h, rows[i], w.expSeq + i, LastHash(rows[..i], w.expPrev));
    FirstBrokenRow(h, want, rows, i, w);
  }

  lemma LinkedOne(h: Hash, r: Row, expSeq: int, expPrev: Bytes)
    ensures Linked(h, [r], expSeq, expPrev) <==> r.seqNo == expSeq && r.prevHash == expPrev && r.hash == ComputeHash(h, r)
  {
    assert Linked(h, [r], expSeq, expPrev) <==> LinkedAt(h, [r], 0, expSeq, expPrev);
  }

  /** Linked rows that do not end at the tail are reported behind the last of them, with all of them counted. */
  lemma TailBreak(h: Hash, tail: Option<Tail>, segments: seq<Segment>, rows: seq<Row>, opt: VerifyOptions)
    requires ReachesRows(h, TailOrGenesis(tail), segments, opt)
    requires Linked(h, rows, ArchivedThrough(segments) + 1, BoundaryHash(segments, |segments|))
    requires forall j :: 0 <= j < |rows| ==> AnchorsAgreeAt(opt.anchors, rows[j])
    requires || ArchivedThrough(segments) + |rows| != TailOrGenesis(tail).seqNo
             || LastHash(rows, BoundaryHash(segments, |segments|)) != TailOrGenesis(tail).hash
    ensures var r := Verdict(h, tail, segments, rows, opt);
            && r.failure == Some(Failure(TailMismatch, ArchivedThrough(segments) + |rows| + 1))
            && r.checked == |rows|
  {
    hide Verdict, WalkRows, Linked, WantedAgree, AnchorsAgreeAt, ReachesRows;
    var want, w := RowsReached(h, tail, segments, rows, opt);
    LinkedNumbered(h, rows, w.expSeq, w.expPrev);
    WalkRowsMeaning(h, want, rows, w);
  }

  // ---------- the counters of a valid report ----------

  /** How many of the segments' files are there and good. */
  function GoodFiles(h: Hash, dir: map<Bytes, Bytes>, segments: seq<Segment>): (n: nat)
    ensures n <= |segments|
  {
    if segments == [] then 0
    else (if CheckFile(h, dir, segments[0]).ArchiveOk? then 1 else 0) + GoodFiles(h, dir, segments[1..])
  }

  lemma {:induction false} FilesCounted(h: Hash, opt: VerifyOptions, i: nat, segments: seq<Segment>, w: SegmentWalk)
    requires w.res.Valid() && WalkSegments(h, opt, i, segments, w).res.Valid()
    ensures var r := WalkSegments(h, opt, i, segments, w).res;
            if opt.archives.None? then r.archivesVerified == w.res.archivesVerified && r.archivesMissing == w.res.archivesMissing
            else
              var good := GoodFiles(h, opt.archives.value, segments);
              && r.archivesVerified == w.res.archivesVerified + good
              && r.archivesMissing == w.res.archivesMissing + |segments| - good
    decreases |segments|
  {
    hide ComputeSegmentHash, CheckFile;
    if segments != [] {
      var next := WalkSegment(h, opt, i, segments[0], w);
      assert WalkSegments(h, opt, i + 1, segments[1..], next).res.Valid();
      FilesCounted(h, opt, i + 1, segments[1..], next);
    }
  }

  /** The anchor is compared with a boundary or with a live row. */
  predicate IsCompared(segments: seq<Segment>, a: Anchor) {
    a.seqNo > ArchivedThrough(segments) || exists i :: 0 <= i < |segments| && segments[i].lastSeq == a.seqNo
  }

  function ComparedCount(segments: seq<Segment>, anchors: seq<Anchor>): nat {
    if anchors == [] then 0
    else (if IsCompared(segments, anchors[0]) then 1 else 0) + ComparedCount(segments, anchors[1..])
  }

  lemma {:induction false} InsertedCount(segments: seq<Segment>, a: Anchor, sorted: seq<Anchor>)
    ensures ComparedCount(segments, Insert(a, sorted)) == ComparedCount(segments, sorted) + if IsCompared(segments, a) then 1 else 0
  {
    hide IsCompared;
    if sorted == [] || a.seqNo <= sorted[0].seqNo {
      assert ([a] + sorted)[1..] == sorted;
    } else {
      InsertedCount(segments, a, sorted[1..]);
      assert ([sorted[0]] + Insert(a, sorted[1..]))[1..] == Insert(a, sorted[1..]);
    }
  }

  lemma {:induction false} SortedCount(segments: seq<Segment>, anchors: seq<Anchor>)
    ensures ComparedCount(segments, SortAnchors(anchors)) == ComparedCount(segments, anchors)
  {
    hide IsCompared, Insert;
    if anchors != [] {
      SortedCount(segments, anchors[1..]);
      InsertedCount(segments, anchors[0], SortAnchors(anchors[1..]));
    }
  }

  function WantedAt(want: map<int, seq<Bytes>>, k: int): seq<Bytes> {
    if k in want then want[k] else []
  }

  /** How many anchors wait at these rows. */
  function WantedCount(want: map<int, seq<Bytes>>, rows: seq<Row>): nat {
    if rows == [] then 0 else |WantedAt(want, rows[0].seqNo)| + WantedCount(want, rows[1..])
  }

  lemma {:induction false} OneMoreWanted(want: map<int, seq<Bytes>>, rows: seq<Row>, base: int, k: int, x: Bytes)
    requires Numbered(rows, base)
    ensures WantedCount(want[k := WantedAt(want, k) + [x]], rows)
         == WantedCount(want, rows) + if base <= k < base + |rows| then 1 else 0
    decreases |rows|
  {
    if rows != [] {
      OneMoreWanted(want, rows[1..], base + 1, k, x);
    }
  }

  /** The anchors checked on the way to the rows, and those that wait there, are the compared ones. */
  lemma {:induction false} AnchorsCounted(segments: seq<Segment>, boundary: map<int, Bytes>, anchors: seq<Anchor>,
                                          rows: seq<Row>, w: AnchorWalk)
    requires w.res.Valid() && WalkAnchors(boundary, anchors, w).res.Valid()
    requires w.res.archivedThrough == ArchivedThrough(segments) >= 0
    requires forall k :: k in boundary <==> exists i :: 0 <= i < |segments| && segments[i].lastSeq == k
    requires Numbered(rows, ArchivedThrough(segments) + 1) && ArchivedThrough(segments) + |rows| == w.res.tailSeq
    ensures var w' := WalkAnchors(boundary, anchors, w);
            w'.res.anchorsChecked + WantedCount(w'.want, rows)
            == w.res.anchorsChecked + WantedCount(w.want, rows) + ComparedCount(segments, anchors)
    decreases |anchors|
  {
    hide WantedCount, Numbered;
    if anchors != [] {
      var a, next := anchors[0], WalkAnchor(boundary, anchors[0], w);
      assert WalkAnchors(boundary, anchors[1..], next).res.Valid();
      OneMoreWanted(w.want, rows, ArchivedThrough(segments) + 1, a.seqNo, a.hash);
      AnchorsCounted(segments, boundary, anchors[1..], rows, next);
    }
  }

  lemma {:induction false} ComparedAt(hashes: seq<Bytes>, r: Row, res: VerifyResult)
    requires res.Valid() && CompareAnchors(hashes, r, res).Valid()
    ensures CompareAnchors(hashes, r, res) == res.(anchorsChecked := res.anchorsChecked + |hashes|)
    decreases |hashes|
  {
    if hashes != [] {
      ComparedAt(hashes[1..], r, res.(anchorsChecked := res.anchorsChecked + 1));
    }
  }

  lemma {:induction false} RowAnchorsCounted(h: Hash, want: map<int, seq<Bytes>>, rows: seq<Row>, w: RowWalk)
    requires w.res.Valid() && WalkRows(h, want, rows, w).res.Valid()
    ensures var r := WalkRows(h, want, rows, w).res;
            && r.anchorsChecked == w.res.anchorsChecked + WantedCount(want, rows)
            && r.archivesVerified == w.res.archivesVerified && r.archivesMissing == w.res.archivesMissing
    decreases |rows|
  {
    hide ComputeHash, CompareAnchors;
    if rows != [] {
      var r, next := rows[0], WalkRow(h, want, rows[0], w);
      assert WalkRows(h, want, rows[1..], next).res.Valid();
      if r.seqNo in want {
        ComparedAt(want[r.seqNo], r, if w.res.checked == 0 then w.res.(firstSeq := r.seqNo) else w.res);
      }
      RowAnchorsCounted(h, want, rows[1..], next);
    }
  }

  /**
   What a valid report says it has checked: every file that is there, the others as missing, and each anchor at a
   boundary or behind the archived range once.
   */
  lemma ValidCounters(h: Hash, tail: Option<Tail>, segments: seq<Segment>, rows: seq<Row>, opt: VerifyOptions)
    requires Verdict(h, tail, segments, rows, opt).Valid()
    ensures var r := Verdict(h, tail, segments, rows, opt);
            && r.archivesVerified == (if opt.archives.Some? then GoodFiles(h, opt.archives.value, segments) else 0)
            && r.archivesMissing == (if opt.archives.Some? then |segments| - r.archivesVerified else 0)
            && r.anchorsChecked == ComparedCount(segments, opt.anchors)
  {
    hide WalkRows, WalkAnchors, WalkSegments, SortAnchors, AfterSegments, SegmentVerifies, BoundaryMap, AnchorAgrees,
         ComparedCount, WantedCount, GoodFiles, Linked, IsCompared;
    var t := TailOrGenesis(tail);
    ValidIff(h, tail, segments, rows, opt);
    var s := StandsVerified(h, opt, segments, t);
    var k := ArchivedThrough(segments);
    FilesOfVerdict(h, opt, segments, t);
    LinkedNumbered(h, rows, k + 1, BoundaryHash(segments, |segments|));
    BoundaryKeys(h, opt, segments);
    var begin := AnchorWalk(s.res.(archivedThrough := s.expSeq - 1), map[]);
    AnchorsCounted(segments, s.boundary, SortAnchors(opt.anchors), rows, begin);
    SortedCount(segments, opt.anchors);
    NothingWaits(rows);
    var a := AfterAnchors(opt, s);
    AnchorsKeepFiles(s.boundary, SortAnchors(opt.anchors), begin);
    RowAnchorsCounted(h, a.want, rows, RowWalk(a.res, s.expSeq, s.expPrev));
  }

  lemma FilesOfVerdict(h: Hash, opt: VerifyOptions, segments: seq<Segment>, tail: Tail)
    requires AfterSegments(h, opt, tail, segments).res.Valid()
    ensures var r := AfterSegments(h, opt, tail, segments).res;
            && r.archivesVerified == (if opt.archives.Some? then GoodFiles(h, opt.archives.value, segments) else 0)
            && r.archivesMissing == (if opt.archives.Some? then |segments| - r.archivesVerified else 0)
            && r.anchorsChecked == 0
  {
    hide WalkSegments, GoodFiles;
    FilesCounted(h, opt, 0, segments, BeginSegments(tail, segments));
    NoAnchorsYet(h, opt, 0, segments, BeginSegments(tail, segments));
  }

  lemma {:induction false} NoAnchorsYet(h: Hash, opt: VerifyOptions, i: nat, segments: seq<Segment>, w: SegmentWalk)
    ensures WalkSegments(h, opt, i, segments, w).res.anchorsChecked == w.res.anchorsChecked
    decreases |segments|
  {
    hide ComputeSegmentHash, CheckFile;
    if segments != [] && w.res.Valid() {
      NoAnchorsYet(h, opt, i + 1, segments[1..], WalkSegment(h, opt, i, segments[0], w));
    }
  }

  lemma BoundaryKeys(h: Hash, opt: VerifyOptions, segments: seq<Segment>)
    requires SegmentsVerify(h, opt, segments)
    ensures forall k :: k in BoundaryMap(segments) <==> exists i :: 0 <= i < |segments| && segments[i].lastSeq == k
  {
    hide SegmentVerifies, BoundaryMap;
    assert segments[..|segments|] == segments;
    forall k ensures k in BoundaryMap(segments) <==> exists i :: 0 <= i < |segments| && segments[i].lastSeq == k {
      BoundaryMapMeaning(h, opt, segments, |segments|, k);
    }
  }

  lemma {:induction false} NothingWaits(rows: seq<Row>)
    ensures WantedCount(map[], rows) == 0
  {
    if rows != [] {
      NothingWaits(rows[1..]);
    }
  }

  lemma AnchorsKeepFiles(boundary: map<int, Bytes>, anchors: seq<Anchor>, w: AnchorWalk)
    requires w.res.Valid() && w.res.archivedThrough >= 0 && WalkAnchors(boundary, anchors, w).res.Valid()
    ensures var r := WalkAnchors(boundary, anchors, w).res;
            r.archivesVerified == w.res.archivesVerified && r.archivesMissing == w.res.archivesMissing
  {
    hide WalkAnchors;
    WalkAnchorsMeaning(boundary, anchors, w);
  }
}
