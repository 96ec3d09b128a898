/** What a valid report means, independently of the walk that computed it. */
module VerifyMeaning {
  import opened ByteStrings
  import opened Chain
  import opened Options
  import opened ArchiveFile
  import opened AuditSteps
  import opened Verify

  // ---------- segments ----------

  function BoundaryHash(segments: seq<Segment>, i: nat): Bytes
    requires i <= |segments|
  {
    if i == 0 then GENESIS_HASH else segments[i - 1].lastHash
  }

  predicate ArchiveAccepted(h: Hash, opt: VerifyOptions, s: Segment) {
    opt.archives.Some? ==>
      var outcome := CheckFile(h, opt.archives.value, s);
      outcome.ArchiveOk? || (outcome.ArchiveMissing? && !opt.requireArchives)
  }

  /** The i-th record is authentic as far as its own hash goes, linked to its predecessor, and follows it without a gap. */
  predicate RecordVerifies(h: Hash, segments: seq<Segment>, i: nat)
    requires i < |segments|
  {
    var s := segments[i];
    && s.segSeq == i + 1
    && s.segHash == ComputeSegmentHash(h, s)
    && s.prevSegHash == (if i == 0 then GENESIS_HASH else segments[i - 1].segHash)
    && s.firstSeq == CoveredBy(segments, i) + 1 && s.firstPrevHash == BoundaryHash(segments, i)
    && s.lastSeq >= s.firstSeq && s.recordCount == s.lastSeq - s.firstSeq + 1
  }

  predicate SegmentVerifies(h: Hash, opt: VerifyOptions, segments: seq<Segment>, i: nat)
    requires i < |segments|
  {
    RecordVerifies(h, segments, i) && ArchiveAccepted(h, opt, segments[i])
  }

  predicate SegmentsVerify(h: Hash, opt: VerifyOptions, segments: seq<Segment>) {
    forall i :: 0 <= i < |segments| ==> SegmentVerifies(h, opt, segments, i)
  }

  function BoundaryMap(segments: seq<Segment>): map<int, Bytes> {
    if segments == [] then map[]
    else
      var n := |segments| - 1;
      BoundaryMap(segments[..n])[segments[n].lastSeq := segments[n].lastHash]
  }

  /** Where the walk stands after i verified segments. */
  predicate StandsAt(w: SegmentWalk, segments: seq<Segment>, i: nat, tail: Tail)
    requires i <= |segments|
  {
    && w.res.Valid()
    && w.res.tailSeq == tail.seqNo && w.res.tailHash == tail.hash
    && w.res.checked == 0 && w.res.segments == |segments|
    && w.res.firstSeq == 0 && w.res.lastSeq == 0 && w.res.anchorsChecked == 0
    && w.expSeq == CoveredBy(segments, i) + 1 && w.expPrev == BoundaryHash(segments, i)
    && w.prevSeg == (if i == 0 then GENESIS_HASH else segments[i - 1].segHash)
    && w.boundary == BoundaryMap(segments[..i])
  }

  lemma WalkSegmentMeaning(h: Hash, opt: VerifyOptions, segments: seq<Segment>, i: nat, w: SegmentWalk, tail: Tail)
    requires i < |segments| && StandsAt(w, segments, i, tail)
    ensures var w' := WalkSegment(h, opt, i, segments[i], w);
            if SegmentVerifies(h, opt, segments, i) then StandsAt(w', segments, i + 1, tail) else !w'.res.Valid()
  {
    hide ComputeSegmentHash, CheckFile;
    assert segments[..i + 1][..i] == segments[..i];
  }

  lemma {:induction false} WalkSegmentsMeaning(h: Hash, opt: VerifyOptions, segments: seq<Segment>, i: nat,
      w: SegmentWalk, tail: Tail)
    requires i <= |segments| && StandsAt(w, segments, i, tail)
    requires forall j :: 0 <= j < i ==> SegmentVerifies(h, opt, segments, j)
    ensures var w' := WalkSegments(h, opt, i, segments[i..], w);
            if SegmentsVerify(h, opt, segments) then StandsAt(w', segments, |segments|, tail) else !w'.res.Valid()
    decreases |segments| - i
  {
    hide WalkSegment, SegmentVerifies, StandsAt;
    if i < |segments| {
      var next := WalkSegment(h, opt, i, segments[i], w);
      WalkSegmentMeaning(h, opt, segments, i, w, tail);
      assert segments[i..][1..] == segments[i + 1..];
      assert w.res.Valid() by { StandsValid(w, segments, i, tail); }
      if SegmentVerifies(h, opt, segments, i) {
        WalkSegmentsMeaning(h, opt, segments, i + 1, next, tail);
      } else {
        assert WalkSegments(h, opt, i + 1, segments[i + 1..], next) == next;
      }
    }
  }

  lemma StandsValid(w: SegmentWalk, segments: seq<Segment>, i: nat, tail: Tail)
    requires i <= |segments| && StandsAt(w, segments, i, tail)
    ensures w.res.Valid()
  {
  }

  lemma {:induction false} VerifiedCoverage(h: Hash, opt: VerifyOptions, segments: seq<Segment>, i: nat, j: nat)
    requires SegmentsVerify(h, opt, segments) && i <= j <= |segments|
    ensures 0 <= CoveredBy(segments, i) && CoveredBy(segments, i) + (j - i) <= CoveredBy(segments, j)
    decreases j
  {
    hide ComputeSegmentHash, ArchiveAccepted;
    if j > 0 {
      assert SegmentVerifies(h, opt, segments, j - 1);
      VerifiedCoverage(h, opt, segments, if i < j then i else j - 1, j - 1);
    }
  }

  /** Boundaries of verified segments are distinct, so the map remembers each of them. */
  lemma {:induction false} BoundaryMapMeaning(h: Hash, opt: VerifyOptions, segments: seq<Segment>, i: nat, k: int)
    requires SegmentsVerify(h, opt, segments) && i <= |segments|
    ensures k in BoundaryMap(segments[..i]) ==> exists j :: 0 <= j < i && segments[j].lastSeq == k
    ensures forall j :: 0 <= j < i && segments[j].lastSeq == k
              ==> k in BoundaryMap(segments[..i]) && BoundaryMap(segments[..i])[k] == segments[j].lastHash
  {
    hide SegmentVerifies;
    if i > 0 {
      BoundaryMapMeaning(h, opt, segments, i - 1, k);
      assert segments[..i][..i - 1] == segments[..i - 1];
      forall j | 0 <= j < i - 1 ensures segments[j].lastSeq < segments[i - 1].lastSeq {
        VerifiedCoverage(h, opt, segments, j + 1, i);
      }
    }
  }

  // ---------- anchors ----------

  predicate Wanted(want: map<int, seq<Bytes>>, k: int, x: Bytes) {
    k in want && x in want[k]
  }

  /** `want'` asks for what `want` asked for, and for the anchors behind the archived range. */
  ghost predicate WantsAlso(want': map<int, seq<Bytes>>, want: map<int, seq<Bytes>>, anchors: seq<Anchor>,
                            archived: int) {
    forall k, x :: Wanted(want', k, x) <==> (Wanted(want, k, x) || (k > archived && Anchor(k, x) in anchors))
  }

  lemma NothingWanted()
    ensures forall k, x :: !Wanted(map[], k, x)
  {
  }

  predicate AnchorPasses(boundary: map<int, Bytes>, tailSeq: int, archived: int, a: Anchor) {
    a.seqNo <= tailSeq && (a.seqNo <= archived && a.seqNo in boundary ==> boundary[a.seqNo] == a.hash)
  }

  lemma WalkAnchorMeaning(boundary: map<int, Bytes>, a: Anchor, w: AnchorWalk)
    requires w.res.Valid() && w.res.archivedThrough >= 0
    ensures var w' := WalkAnchor(boundary, a, w);
            && (w'.res.Valid() <==> AnchorPasses(boundary, w.res.tailSeq, w.res.archivedThrough, a))
            && (w'.res.Valid() ==> w'.res == w.res.(anchorsChecked := w'.res.anchorsChecked))
            && (w'.res.Valid() ==> WantsAlso(w'.want, w.want, [a], w.res.archivedThrough))
  {
  }

  lemma {:induction false} WalkAnchorsMeaning(boundary: map<int, Bytes>, anchors: seq<Anchor>, w: AnchorWalk)
    requires w.res.Valid() && w.res.archivedThrough >= 0
    ensures var w' := WalkAnchors(boundary, anchors, w);
            && (w'.res.Valid() <==> forall a :: a in anchors ==> AnchorPasses(boundary, w.res.tailSeq, w.res.archivedThrough, a))
            && (w'.res.Valid() ==> w'.res == w.res.(anchorsChecked := w'.res.anchorsChecked))
            && (w'.res.Valid() ==> WantsAlso(w'.want, w.want, anchors, w.res.archivedThrough))
    decreases |anchors|
  {
    hide WalkAnchor, AnchorPasses, Wanted;
    if anchors != [] {
      var a, rest := anchors[0], anchors[1..];
      var next := WalkAnchor(boundary, a, w);
      WalkAnchorMeaning(boundary, a, w);
      assert forall b :: b in anchors <==> b == a || b in rest;
      if next.res.Valid() {
        WalkAnchorsMeaning(boundary, rest, next);
      } else {
        assert WalkAnchors(boundary, rest, next) == next;
      }
    }
  }

  predicate Ascending(anchors: seq<Anchor>) {
    forall i, j :: 0 <= i < j < |anchors| ==> anchors[i].seqNo <= anchors[j].seqNo
  }

  lemma {:induction false} InsertPermutes(a: Anchor, sorted: seq<Anchor>)
    ensures multiset(Insert(a, sorted)) == multiset(sorted) + multiset{a}
  {
    if sorted != [] {
      InsertPermutes(a, sorted[1..]);
      assert sorted == [sorted[0]] + sorted[1..];
    }
  }

  lemma {:induction false} InsertAscends(a: Anchor, sorted: seq<Anchor>)
    requires Ascending(sorted)
    ensures Ascending(Insert(a, sorted))
    ensures forall i :: 0 <= i < |Insert(a, sorted)| ==>
              a.seqNo <= Insert(a, sorted)[i].seqNo || (sorted != [] && sorted[0].seqNo <= Insert(a, sorted)[i].seqNo)
  {
    if sorted != [] && a.seqNo > sorted[0].seqNo {
      InsertAscends(a, sorted[1..]);
    }
  }

  /** The anchors are walked in ascending order, each once. */
  lemma {:induction false} SortAnchorsMeaning(anchors: seq<Anchor>)
    ensures multiset(SortAnchors(anchors)) == multiset(anchors)
    ensures Ascending(SortAnchors(anchors))
  {
    if anchors != [] {
      SortAnchorsMeaning(anchors[1..]);
      InsertPermutes(anchors[0], SortAnchors(anchors[1..]));
      InsertAscends(anchors[0], SortAnchors(anchors[1..]));
      hide Insert, Ascending;
      assert anchors == [anchors[0]] + anchors[1..];
    }
  }

  lemma SortAnchorsMembers(anchors: seq<Anchor>, a: Anchor)
    ensures a in SortAnchors(anchors) <==> a in anchors
  {
    hide SortAnchors;
    SortAnchorsMeaning(anchors);
    assert a in SortAnchors(anchors) <==> a in multiset(SortAnchors(anchors));
  }

  // ---------- rows ----------

  lemma {:induction false} CompareAnchorsMeaning(hashes: seq<Bytes>, r: Row, res: VerifyResult)
    requires res.Valid()
    ensures var res' := CompareAnchors(hashes, r, res);
            && (res'.Valid() <==> forall x :: x in hashes ==> x == r.hash)
            && (res'.Valid() ==> res' == res.(anchorsChecked := res'.anchorsChecked))
    decreases |hashes|
  {
    if hashes != [] && hashes[0] != r.hash {
      assert hashes[0] in hashes;
    } else if hashes != [] {
      CompareAnchorsMeaning(hashes[1..], r, res.(anchorsChecked := res.anchorsChecked + 1));
      assert forall x :: x in hashes <==> x == hashes[0] || x in hashes[1..];
    }
  }

  predicate WantedAgree(want: map<int, seq<Bytes>>, r: Row) {
    r.seqNo in want ==> forall x :: x in want[r.seqNo] ==> x == r.hash
  }

  /** What the counters say after `rows`. */
  function Counted(res: VerifyResult, rows: seq<Row>, anchorsChecked: nat): VerifyResult {
    if rows == [] then res.(anchorsChecked := anchorsChecked)
    else res.(checked := res.checked + |rows|, lastSeq := rows[|rows| - 1].seqNo, anchorsChecked := anchorsChecked,
              firstSeq := if res.checked == 0 then rows[0].seqNo else res.firstSeq)
  }

  lemma WalkRowMeaning(h: Hash, want: map<int, seq<Bytes>>, r: Row, w: RowWalk)
    requires w.res.Valid()
    ensures var w' := WalkRow(h, want, r, w);
            && (w'.res.Valid() <==> Linked(h, [r], w.expSeq, w.expPrev) && WantedAgree(want, r))
            && (w'.res.Valid() ==> w'.expSeq == w.expSeq + 1 && w'.expPrev == r.hash
                                   && w'.res == Counted(w.res, [r], w'.res.anchorsChecked))
  {
    hide ComputeHash, CompareAnchors;
    assert Linked(h, [r], w.expSeq, w.expPrev) <==> LinkedAt(h, [r], 0, w.expSeq, w.expPrev);
    if r.seqNo in want {
      CompareAnchorsMeaning(want[r.seqNo], r, if w.res.checked == 0 then w.res.(firstSeq := r.seqNo) else w.res);
    }
  }

  lemma EmptyLinked(h: Hash, first: int, prev: Bytes)
    ensures Linked(h, [], first, prev)
  {
  }

  lemma {:induction false} WalkRowsMeaning(h: Hash, want: map<int, seq<Bytes>>, rows: seq<Row>, w: RowWalk)
    requires w.res.Valid()
    ensures var w' := WalkRows(h, want, rows, w);
            && (w'.res.Valid() <==> Linked(h, rows, w.expSeq, w.expPrev)
                                    && forall i :: 0 <= i < |rows| ==> WantedAgree(want, rows[i]))
            && (w'.res.Valid() ==> w'.expSeq == w.expSeq + |rows| && w'.expPrev == LastHash(rows, w.expPrev)
                                   && w'.res == Counted(w.res, rows, w'.res.anchorsChecked))
    decreases |rows|
  {
    hide WalkRow, Linked, WantedAgree;
    if rows == [] {
      EmptyLinked(h, w.expSeq, w.expPrev);
    } else {
      var r, rest := rows[0], rows[1..];
      var next := WalkRow(h, want, r, w);
      WalkRowMeaning(h, want, r, w);
      LinkedSplit(h, [r], rest, w.expSeq, w.expPrev);
      assert rows == [r] + rest;
      assert (forall i :: 0 <= i < |rows| ==> WantedAgree(want, rows[i]))
         <==> WantedAgree(want, r) && (forall i :: 0 <= i < |rest| ==> WantedAgree(want, rest[i])) by {
        assert forall i :: 0 <= i < |rest| ==> rest[i] == rows[i + 1];
      }
      if next.res.Valid() {
        WalkRowsMeaning(h, want, rest, next);
      } else {
        assert WalkRows(h, want, rest, next) == next;
      }
    }
  }

  // ---------- the report ----------

  /** An anchor beyond the tail is a truncation; one at a boundary or at a live row must carry its hash. */
  predicate AnchorAgrees(segments: seq<Segment>, tail: Tail, rows: seq<Row>, a: Anchor) {
    var k := ArchivedThrough(segments);
    && a.seqNo <= tail.seqNo
    && (forall i :: 0 <= i < |segments| && segments[i].lastSeq == a.seqNo ==> segments[i].lastHash == a.hash)
    && (k < a.seqNo && a.seqNo - k <= |rows| ==> rows[a.seqNo - k - 1].hash == a.hash)
  }

  /** The store is internally consistent from its segments to its tail, and agrees with every anchor. */
  predicate Verifies(h: Hash, tail: Tail, segments: seq<Segment>, rows: seq<Row>, opt: VerifyOptions) {
    var k := ArchivedThrough(segments);
    && SegmentsVerify(h, opt, segments)
    && (forall a :: a in opt.anchors ==> AnchorAgrees(segments, tail, rows, a))
    && Linked(h, rows, k + 1, BoundaryHash(segments, |segments|))
    && k + |rows| == tail.seqNo
    && LastHash(rows, BoundaryHash(segments, |segments|)) == tail.hash
  }

  /** The anchors the walk finds on its way agree exactly when every supplied anchor does. */
  lemma AnchorsMeaning(h: Hash, opt: VerifyOptions, segments: seq<Segment>, tail: Tail, rows: seq<Row>, a: Anchor)
    requires SegmentsVerify(h, opt, segments)
    requires Numbered(rows, ArchivedThrough(segments) + 1)
    ensures AnchorAgrees(segments, tail, rows, a)
       <==> && AnchorPasses(BoundaryMap(segments), tail.seqNo, ArchivedThrough(segments), a)
            && RowsAgree(ArchivedThrough(segments), rows, a)
  {
    hide SegmentVerifies;
    BoundaryMapMeaning(h, opt, segments, |segments|, a.seqNo);
    assert segments[..|segments|] == segments;
    var k := ArchivedThrough(segments);
    forall i | 0 <= i < |segments| ensures segments[i].lastSeq <= k {
      VerifiedCoverage(h, opt, segments, i + 1, |segments|);
    }
    if k < a.seqNo && a.seqNo - k <= |rows| {
      assert rows[a.seqNo - k - 1].seqNo == a.seqNo;
    }
  }

  lemma StandsAtEnd(h: Hash, opt: VerifyOptions, segments: seq<Segment>, tail: Tail)
    ensures var s := AfterSegments(h, opt, tail, segments);
            if SegmentsVerify(h, opt, segments) then StandsAt(s, segments, |segments|, tail) else !s.res.Valid()
  {
    hide WalkSegments, SegmentVerifies;
    assert segments[..0] == [] && segments[0..] == segments;
    WalkSegmentsMeaning(h, opt, segments, 0, BeginSegments(tail, segments), tail);
  }

  /**
   Verify reports Valid if and only if the store verifies; the counters then count all rows, segments and the
   archived range. In particular neither the batch size nor the order of the anchors matters.
   */
  lemma ValidIff(h: Hash, tail: Option<Tail>, segments: seq<Segment>, rows: seq<Row>, opt: VerifyOptions)
    ensures Verdict(h, tail, segments, rows, opt).Valid() <==> Verifies(h, TailOrGenesis(tail), segments, rows, opt)
    ensures var r := Verdict(h, tail, segments, rows, opt);
            r.Valid() ==> && r.checked == |rows| && r.segments == |segments|
                          && r.archivedThrough == ArchivedThrough(segments)
                          && r.tailSeq == TailOrGenesis(tail).seqNo && r.tailHash == TailOrGenesis(tail).hash
                          && (rows != [] ==> r.firstSeq == r.archivedThrough + 1 && r.lastSeq == r.tailSeq)
  {
    hide WalkRows, WalkAnchors, WalkSegments, SegmentVerifies, SortAnchors, AnchorAgrees, AnchorPasses, Wanted,
         WantedAgree, WantsAlso, RowsAgree,
         BoundaryMap, Linked, AfterSegments;
    var t := TailOrGenesis(tail);
    var s := AfterSegments(h, opt, t, segments);
    StandsAtEnd(h, opt, segments, t);
    if SegmentsVerify(h, opt, segments) {
      var k := ArchivedThrough(segments);
      VerifiedCoverage(h, opt, segments, 0, |segments|);
      assert segments[..|segments|] == segments;
      var begin := AnchorWalk(s.res.(archivedThrough := s.expSeq - 1), map[]);
      forall x ensures x in SortAnchors(opt.anchors) <==> x in opt.anchors {
        SortAnchorsMembers(opt.anchors, x);
      }
      WalkAnchorsMeaning(s.boundary, SortAnchors(opt.anchors), begin);
      var a := AfterAnchors(opt, s);
      if a.res.Valid() {
        WalkRowsMeaning(h, a.want, rows, RowWalk(a.res, s.expSeq, s.expPrev));
        WantsSame(a.want, SortAnchors(opt.anchors), opt.anchors, k);
        WantedAreAnchors(a.want, k, rows, opt.anchors);
      }
      if Linked(h, rows, k + 1, BoundaryHash(segments, |segments|)) {
        LinkedNumbered(h, rows, k + 1, BoundaryHash(segments, |segments|));
        forall x | x in opt.anchors
          ensures AnchorAgrees(segments, t, rows, x)
             <==> && AnchorPasses(BoundaryMap(segments), t.seqNo, k, x) && RowsAgree(k, rows, x)
        {
          AnchorsMeaning(h, opt, segments, t, rows, x);
        }
      }
    }
  }

  predicate RowsAgree(archived: int, rows: seq<Row>, a: Anchor) {
    a.seqNo > archived ==> forall i :: 0 <= i < |rows| && rows[i].seqNo == a.seqNo ==> rows[i].hash == a.hash
  }

  lemma WantsSame(want: map<int, seq<Bytes>>, a: seq<Anchor>, b: seq<Anchor>, archived: int)
    requires WantsAlso(want, map[], a, archived) && forall x :: x in a <==> x in b
    ensures WantsAlso(want, map[], b, archived)
  {
  }

  lemma WantedAreAnchors(want: map<int, seq<Bytes>>, archived: int, rows: seq<Row>, anchors: seq<Anchor>)
    requires WantsAlso(want, map[], anchors, archived)
    ensures (forall i :: 0 <= i < |rows| ==> WantedAgree(want, rows[i])) <==> (forall a :: a in anchors ==> RowsAgree(archived, rows, a))
  {
    NothingWanted();
    if forall i :: 0 <= i < |rows| ==> WantedAgree(want, rows[i]) {
      forall a, i | a in anchors && a.seqNo > archived && 0 <= i < |rows| && rows[i].seqNo == a.seqNo
        ensures rows[i].hash == a.hash
      {
        assert Anchor(a.seqNo, a.hash) in anchors;
        assert Wanted(want, a.seqNo, a.hash);
        assert WantedAgree(want, rows[i]);
      }
    }
    if forall a :: a in anchors ==> RowsAgree(archived, rows, a) {
      forall i, x | 0 <= i < |rows| && rows[i].seqNo in want && x in want[rows[i].seqNo] ensures x == rows[i].hash {
        assert Wanted(want, rows[i].seqNo, x);
        assert RowsAgree(archived, rows, Anchor(rows[i].seqNo, x));
      }
    }
  }

  // ---------- the first break ----------

  /** What is wrong with a row that does not continue the chain, in the order in which it is checked. */
  function RowBreak(h: Hash, r: Row, expSeq: int, expPrev: Bytes): Failure {
    if r.seqNo != expSeq then Failure(SeqGap, expSeq)
    else if r.prevHash != expPrev then Failure(PrevHashMismatch, r.seqNo)
    else if r.hash != ComputeHash(h, r) then Failure(HashMismatch, r.seqNo)
    else Failure(AnchorMismatch, r.seqNo)
  }

  lemma WalkBrokenRow(h: Hash, want: map<int, seq<Bytes>>, r: Row, w: RowWalk)
    requires w.res.Valid() && !(Linked(h, [r], w.expSeq, w.expPrev) && WantedAgree(want, r))
    ensures WalkRow(h, want, r, w).res.failure == Some(RowBreak(h, r, w.expSeq, w.expPrev))
    ensures WalkRow(h, want, r, w).res.checked == w.res.checked
  {
    hide ComputeHash, CompareAnchors;
    assert Linked(h, [r], w.expSeq, w.expPrev) <==> LinkedAt(h, [r], 0, w.expSeq, w.expPrev);
    if r.seqNo in want {
      FailedComparison(want[r.seqNo], r, if w.res.checked == 0 then w.res.(firstSeq := r.seqNo) else w.res);
    }
  }

  lemma {:induction false} FailedComparison(hashes: seq<Bytes>, r: Row, res: VerifyResult)
    requires res.Valid()
    ensures var res' := CompareAnchors(hashes, r, res);
            && (res'.Valid() <==> forall x :: x in hashes ==> x == r.hash)
            && (!res'.Valid() ==> res'.failure == Some(Failure(AnchorMismatch, r.seqNo)))
            && res'.checked == res.checked
    decreases |hashes|
  {
    if hashes != [] && hashes[0] != r.hash {
      assert hashes[0] in hashes;
    } else if hashes != [] {
      FailedComparison(hashes[1..], r, res.(anchorsChecked := res.anchorsChecked + 1));
      assert forall x :: x in hashes <==> x == hashes[0] || x in hashes[1..];
    }
  }

  /** The walk over the live rows stops at the first row that breaks the chain or disagrees with an anchor, and names it. */
  lemma FirstBrokenRow(h: Hash, want: map<int, seq<Bytes>>, rows: seq<Row>, i: nat, w: RowWalk)
    requires w.res.Valid() && i < |rows| && Linked(h, rows[..i], w.expSeq, w.expPrev)
    requires forall j :: 0 <= j < i ==> WantedAgree(want, rows[j])
    requires var prev := LastHash(rows[..i], w.expPrev); !(Linked(h, [rows[i]], w.expSeq + i, prev) && WantedAgree(want, rows[i]))
    ensures var r := WalkRows(h, want, rows, w).res;
            && r.failure == Some(RowBreak(h, rows[i], w.expSeq + i, LastHash(rows[..i], w.expPrev)))
            && r.checked == w.res.checked + i
  {
    hide WalkRow, WalkRows, Linked, WantedAgree, RowBreak;
    var before, rest := rows[..i], rows[i..];
    assert rows == before + rest;
    WalkRowsSplit(h, want, before, rest, w);
    forall j | 0 <= j < |before| ensures WantedAgree(want, before[j]) {
      assert before[j] == rows[j];
    }
    WalkRowsMeaning(h, want, before, w);
    var at := WalkRows(h, want, before, w);
    WalkBrokenRow(h, want, rows[i], at);
    FirstThenRest(h, want, rest, at);
  }

  lemma FirstThenRest(h: Hash, want: map<int, seq<Bytes>>, rows: seq<Row>, w: RowWalk)
    requires w.res.Valid() && rows != [] && !WalkRow(h, want, rows[0], w).res.Valid()
    ensures WalkRows(h, want, rows, w) == WalkRow(h, want, rows[0], w)
  {
    hide WalkRow;
    var next := WalkRow(h, want, rows[0], w);
    assert WalkRows(h, want, rows[1..], next) == next;
  }
}
