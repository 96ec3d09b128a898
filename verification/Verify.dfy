/** The chain verifier of internal/audit/verify.go: what it reports, and how its paged walk computes it. */
module Verify {
  import opened ByteStrings
  import opened Chain
  import opened Options
  import opened ArchiveFile
  import opened AuditSteps

  datatype Break =
    | SegmentBroken | ArchiveBroken | SeqGap | PrevHashMismatch | HashMismatch
    | TailMismatch | AnchorMismatch | AnchorTruncation

  /** An externally stored chain tail. */
  datatype Anchor = Anchor(seqNo: int, hash: Bytes)

  /** `archives` is the archive directory when one is to be checked. */
  datatype VerifyOptions = VerifyOptions(
    anchors: seq<Anchor>, archives: Option<map<Bytes, Bytes>>, requireArchives: bool, batchSize: int)

  datatype Failure = Failure(kind: Break, seqNo: int)

  datatype VerifyResult = VerifyResult(
    failure: Option<Failure>, checked: nat, firstSeq: int, lastSeq: int, tailSeq: int, tailHash: Bytes,
    segments: nat, archivedThrough: int, archivesVerified: nat, archivesMissing: nat, anchorsChecked: nat)
  {
    predicate Valid() { failure.None? }

    function Fail(kind: Break, seqNo: int): VerifyResult {
      this.(failure := Some(Failure(kind, seqNo)))
    }
  }

  // ---------- 1. archived segments ----------

  datatype SegmentWalk = SegmentWalk(
    res: VerifyResult, expSeq: int, expPrev: Bytes, prevSeg: Bytes, boundary: map<int, Bytes>)

  function WalkSegment(h: Hash, opt: VerifyOptions, i: nat, sg: Segment, w: SegmentWalk): SegmentWalk {
    if sg.segSeq != i + 1 || sg.segHash != ComputeSegmentHash(h, sg) || sg.prevSegHash != w.prevSeg
       || sg.firstSeq != w.expSeq || sg.firstPrevHash != w.expPrev
       || sg.lastSeq < sg.firstSeq || sg.recordCount != sg.lastSeq - sg.firstSeq + 1 then
      w.(res := w.res.Fail(SegmentBroken, sg.firstSeq))
    else
      var next := SegmentWalk(w.res, sg.lastSeq + 1, sg.lastHash, sg.segHash, w.boundary[sg.lastSeq := sg.lastHash]);
      if opt.archives.None? then next
      else
        var outcome := CheckFile(h, opt.archives.value, sg);
        if outcome.ArchiveOk? then next.(res := w.res.(archivesVerified := w.res.archivesVerified + 1))
        else if outcome.ArchiveMissing? && !opt.requireArchives then
          next.(res := w.res.(archivesMissing := w.res.archivesMissing + 1))
        else w.(res := w.res.Fail(ArchiveBroken, sg.firstSeq))
  }

  function WalkSegments(h: Hash, opt: VerifyOptions, i: nat, segments: seq<Segment>, w: SegmentWalk): SegmentWalk
    decreases |segments|
  {
    if segments == [] || !w.res.Valid() then w
    else WalkSegments(h, opt, i + 1, segments[1..], WalkSegment(h, opt, i, segments[0], w))
  }

  // ---------- 2. anchors ----------

  datatype AnchorWalk = AnchorWalk(res: VerifyResult, want: map<int, seq<Bytes>>)

  function WalkAnchor(boundary: map<int, Bytes>, a: Anchor, w: AnchorWalk): AnchorWalk {
    var counted := w.res.(anchorsChecked := w.res.anchorsChecked + 1);
    if a.seqNo > w.res.tailSeq then w.(res := counted.Fail(AnchorTruncation, a.seqNo))
    else if a.seqNo <= w.res.archivedThrough then
      if a.seqNo !in boundary then w
      else if boundary[a.seqNo] != a.hash then w.(res := counted.Fail(AnchorMismatch, a.seqNo))
      else w.(res := counted)
    else if a.seqNo == 0 then w
    else w.(want := w.want[a.seqNo := (if a.seqNo in w.want then w.want[a.seqNo] else []) + [a.hash]])
  }

  function WalkAnchors(boundary: map<int, Bytes>, anchors: seq<Anchor>, w: AnchorWalk): AnchorWalk
    decreases |anchors|
  {
    if anchors == [] || !w.res.Valid() then w
    else WalkAnchors(boundary, anchors[1..], WalkAnchor(boundary, anchors[0], w))
  }

  /** Sorting by seq (the source sorts unstably; equal seqs may come in any order there). */
  function Insert(a: Anchor, sorted: seq<Anchor>): seq<Anchor> {
    if sorted == [] || a.seqNo <= sorted[0].seqNo then [a] + sorted else [sorted[0]] + Insert(a, sorted[1..])
  }

  function SortAnchors(anchors: seq<Anchor>): seq<Anchor> {
    if anchors == [] then [] else Insert(anchors[0], SortAnchors(anchors[1..]))
  }

  // ---------- 3. live rows ----------

  datatype RowWalk = RowWalk(res: VerifyResult, expSeq: int, expPrev: Bytes)

  /** The anchors at one row, in turn. */
  function CompareAnchors(hashes: seq<Bytes>, r: Row, res: VerifyResult): VerifyResult
    decreases |hashes|
  {
    if hashes == [] then res
    else
      var counted := res.(anchorsChecked := res.anchorsChecked + 1);
      if hashes[0] != r.hash then counted.Fail(AnchorMismatch, r.seqNo) else CompareAnchors(hashes[1..], r, counted)
  }

  function WalkRow(h: Hash, want: map<int, seq<Bytes>>, r: Row, w: RowWalk): RowWalk {
    var res := if w.res.checked == 0 then w.res.(firstSeq := r.seqNo) else w.res;
    if r.seqNo != w.expSeq then w.(res := res.Fail(SeqGap, w.expSeq))
    else if r.prevHash != w.expPrev then w.(res := res.Fail(PrevHashMismatch, r.seqNo))
    else if r.hash != ComputeHash(h, r) then w.(res := res.Fail(HashMismatch, r.seqNo))
    else
      var compared := if r.seqNo in want then CompareAnchors(want[r.seqNo], r, res) else res;
      if !compared.Valid() then w.(res := compared)
      else RowWalk(compared.(checked := compared.checked + 1, lastSeq := r.seqNo), r.seqNo + 1, r.hash)
  }

  function WalkRows(h: Hash, want: map<int, seq<Bytes>>, rows: seq<Row>, w: RowWalk): RowWalk
    decreases |rows|
  {
    if rows == [] || !w.res.Valid() then w
    else WalkRows(h, want, rows[1..], WalkRow(h, want, rows[0], w))
  }

  // ---------- the report ----------

  function TailOrGenesis(tail: Option<Tail>): Tail {
    if tail.Some? then tail.value else Tail(0, GENESIS_HASH)
  }

  function BeginSegments(tail: Tail, segments: seq<Segment>): SegmentWalk {
    var res := VerifyResult(None, 0, 0, 0, tail.seqNo, tail.hash, |segments|, 0, 0, 0, 0);
    SegmentWalk(res, 1, GENESIS_HASH, GENESIS_HASH, map[])
  }

  function AfterSegments(h: Hash, opt: VerifyOptions, tail: Tail, segments: seq<Segment>): SegmentWalk {
    WalkSegments(h, opt, 0, segments, BeginSegments(tail, segments))
  }

  function AfterAnchors(opt: VerifyOptions, w: SegmentWalk): AnchorWalk {
    WalkAnchors(w.boundary, SortAnchors(opt.anchors), AnchorWalk(w.res.(archivedThrough := w.expSeq - 1), map[]))
  }

  function CheckTail(w: RowWalk): VerifyResult {
    if !w.res.Valid() then w.res
    else if w.expSeq - 1 != w.res.tailSeq || w.expPrev != w.res.tailHash then w.res.Fail(TailMismatch, w.expSeq)
    else w.res
  }

  /** The whole report, given the tail, the segments and the live rows behind the archived range up to the tail. */
  function Verdict(h: Hash, tail: Option<Tail>, segments: seq<Segment>, rows: seq<Row>,
                   opt: VerifyOptions): VerifyResult {
    var s := AfterSegments(h, opt, TailOrGenesis(tail), segments);
    if !s.res.Valid() then s.res
    else
      var a := AfterAnchors(opt, s);
      if !a.res.Valid() then a.res
      else CheckTail(WalkRows(h, a.want, rows, RowWalk(a.res, s.expSeq, s.expPrev)))
  }

  // ---------- paging ----------

  predicate SortedBySeq(table: seq<Row>) {
    forall i, j :: 0 <= i < j < |table| ==> table[i].seqNo < table[j].seqNo
  }

  /** The rows with seq > cursor AND seq <= last, in seq order, at most `limit` of them. */
  function Page(table: seq<Row>, cursor: int, last: int, limit: nat): seq<Row> {
    var rows := Between(table, cursor + 1, last);
    if |rows| <= limit then rows else rows[..limit]
  }

  lemma {:induction false} BetweenRange(table: seq<Row>, first: int, last: int)
    requires SortedBySeq(table)
    ensures SortedBySeq(Between(table, first, last))
    ensures forall i :: 0 <= i < |Between(table, first, last)| ==>
              InRange(Between(table, first, last)[i], first, last) && Between(table, first, last)[i] in table
  {
    if table != [] {
      BetweenRange(table[..|table| - 1], first, last);
    }
  }

  lemma BetweenSingle(x: Row, first: int, last: int)
    ensures Between([x], first, last) == if InRange(x, first, last) then [x] else []
  {
    assert [x][..0] == [];
  }

  lemma {:induction false} BetweenNested(table: seq<Row>, first: int, cut: int, last: int)
    requires first <= cut
    ensures Between(table, cut, last) == Between(Between(table, first, last), cut, last)
  {
    if table != [] {
      var n := |table| - 1;
      var init, x := table[..n], table[n];
      BetweenNested(init, first, cut, last);
      assert table == init + [x];
      hide Between;
      RangeConcat(init, [x], first, last);
      RangeConcat(init, [x], cut, last);
      RangeConcat(Between(init, first, last), Between([x], first, last), cut, last);
      BetweenSingle(x, first, last);
      BetweenSingle(x, cut, last);
      BetweenNoneOf([], cut, last);
    }
  }

  lemma {:induction false} BetweenAllOf(rows: seq<Row>, first: int, last: int)
    requires forall i :: 0 <= i < |rows| ==> InRange(rows[i], first, last)
    ensures Between(rows, first, last) == rows
  {
    if rows != [] {
      BetweenAllOf(rows[..|rows| - 1], first, last);
    }
  }

  lemma {:induction false} BetweenNoneOf(rows: seq<Row>, first: int, last: int)
    requires forall i :: 0 <= i < |rows| ==> !InRange(rows[i], first, last)
    ensures Between(rows, first, last) == []
  {
    if rows != [] {
      BetweenNoneOf(rows[..|rows| - 1], first, last);
    }
  }

  /** Behind the cursor of a page come exactly the rows the page did not show. */
  lemma RangeBehindCursor(table: seq<Row>, first: int, last: int, i: nat)
    requires SortedBySeq(table) && 0 < i <= |Between(table, first, last)|
    ensures var rows := Between(table, first, last);
            first <= rows[i - 1].seqNo <= last && Between(table, rows[i - 1].seqNo + 1, last) == rows[i..]
  {
    hide Between;
    var rows := Between(table, first, last);
    BetweenRange(table, first, last);
    assert rows == rows[..i] + rows[i..];
    var cursor := rows[i - 1].seqNo;
    BetweenNested(table, first, cursor + 1, last);
    BetweenNoneOf(rows[..i], cursor + 1, last);
    BetweenAllOf(rows[i..], cursor + 1, last);
    RangeConcat(rows[..i], rows[i..], cursor + 1, last);
  }

  lemma {:induction false} WalkRowsSplit(h: Hash, want: map<int, seq<Bytes>>, a: seq<Row>, b: seq<Row>, w: RowWalk)
    ensures WalkRows(h, want, a + b, w) == WalkRows(h, want, b, WalkRows(h, want, a, w))
    decreases |a|
  {
    hide WalkRow;
    if a == [] {
      assert a + b == b;
    } else if w.res.Valid() {
      assert (a + b)[1..] == a[1..] + b;
      WalkRowsSplit(h, want, a[1..], b, WalkRow(h, want, a[0], w));
    }
  }

  /** The table shows the verifier the same rows at every page read. */
  ghost predicate StableRange(table: nat -> seq<Row>, first: int, last: int) {
    forall k: nat :: Between(table(k), first, last) == Between(table(0), first, last)
  }

  /**
   Verify. The database may change between its reads: `tail` and `segments` are what the first two reads
   returned, table(k) is audit_log at the k-th page read. If it gets to the rows at all, then as long as the range
   it walks is stable the report is the one of the unpaged walk, whatever the batch size.
   */
  method Verify(h: Hash, tail: Option<Tail>, segments: seq<Segment>, table: nat -> seq<Row>, opt: VerifyOptions)
    returns (res: VerifyResult)
    requires forall k: nat :: SortedBySeq(table(k))
    ensures var s := AfterSegments(h, opt, TailOrGenesis(tail), segments);
            (s.res.Valid() ==> StableRange(table, s.expSeq, TailOrGenesis(tail).seqNo))
            ==> res == Verdict(h, tail, segments, Between(table(0), s.expSeq, TailOrGenesis(tail).seqNo), opt)
  {
    var batchSize: nat := if opt.batchSize <= 0 then 1000 else opt.batchSize;
    var t := TailOrGenesis(tail);
    var s := BeginSegments(t, segments);
    for i := 0 to |segments|
      invariant s.res.Valid()
      invariant WalkSegments(h, opt, i, segments[i..], s) == AfterSegments(h, opt, t, segments)
    {
      s := WalkSegment(h, opt, i, segments[i], s);
      assert segments[i..][1..] == segments[i + 1..];
      if !s.res.Valid() {
        return s.res;
      }
    }
    var anchors := SortAnchors(opt.anchors);
    var a := AnchorWalk(s.res.(archivedThrough := s.expSeq - 1), map[]);
    for i := 0 to |anchors|
      invariant a.res.Valid()
      invariant WalkAnchors(s.boundary, anchors[i..], a) == AfterAnchors(opt, s)
    {
      a := WalkAnchor(s.boundary, anchors[i], a);
      assert anchors[i..][1..] == anchors[i + 1..];
      if !a.res.Valid() {
        return a.res;
      }
    }
    res := WalkPages(h, a.want, table, s.expSeq, t.seqNo, batchSize, RowWalk(a.res, s.expSeq, s.expPrev));
  }

  /** The walk has seen the first `seen` rows of `all`; the last of them is at the cursor. */
  ghost predicate AtCursor(all: seq<Row>, first: int, cursor: int, seen: nat) {
    && seen <= |all|
    && if cursor < first then cursor == first - 1 && seen == 0 else 0 < seen && all[seen - 1].seqNo == cursor
  }

  /** The keyset-paged walk over the live rows. */
  method WalkPages(h: Hash, want: map<int, seq<Bytes>>, table: nat -> seq<Row>, first: int, last: int, batchSize: nat,
                   start: RowWalk)
    returns (res: VerifyResult)
    requires forall k: nat :: SortedBySeq(table(k))
    requires batchSize > 0 && start.res.Valid()
    ensures StableRange(table, first, last)
      ==> res == CheckTail(WalkRows(h, want, Between(table(0), first, last), start))
  {
    hide WalkRow, WalkRows, CheckTail, Between, SortedBySeq, StableRange, AtCursor;
    ghost var all := Between(table(0), first, last);
    ghost var stable := StableRange(table, first, last);
    var w, cursor, k: nat := start, first - 1, 0;
    ghost var seen: nat := 0;
    StartOfWalk(all, first);
    while true
      invariant w.res.Valid()
      invariant stable ==> AtCursor(all, first, cursor, seen)
      invariant stable ==> seen <= |all| && WalkRows(h, want, all[seen..], w) == WalkRows(h, want, all, start)
      decreases last - cursor
    {
      var rows := Page(table(k), cursor, last, batchSize);
      PageInRange(table(k), cursor, last, batchSize);
      if stable {
        PageStep(h, want, table, first, last, cursor, k, seen, rows, batchSize, w);
      }
      if rows == [] {
        res := CheckTail(w);
        return;
      }
      w := WalkPage(h, want, rows, w);
      if !w.res.Valid() {
        if stable {
          FailedWalkStays(h, want, all[seen + |rows|..], w);
        }
        return w.res;
      }
      cursor, k, seen := rows[|rows| - 1].seqNo, k + 1, seen + |rows|;
    }
  }

  lemma StartOfWalk(all: seq<Row>, first: int)
    ensures AtCursor(all, first, first - 1, 0) && all[0..] == all
  {
  }

  lemma FailedWalkStays(h: Hash, want: map<int, seq<Bytes>>, rows: seq<Row>, w: RowWalk)
    requires !w.res.Valid()
    ensures WalkRows(h, want, rows, w) == w && CheckTail(w) == w.res
  {
  }

  lemma PageInRange(table: seq<Row>, cursor: int, last: int, limit: nat)
    requires SortedBySeq(table)
    ensures var rows := Page(table, cursor, last, limit);
            rows != [] ==> cursor < rows[|rows| - 1].seqNo <= last
  {
    BetweenRange(table, cursor + 1, last);
  }

  lemma PageStep(h: Hash, want: map<int, seq<Bytes>>, table: nat -> seq<Row>, first: int, last: int, cursor: int,
                 k: nat,
                 seen: nat, rows: seq<Row>, limit: nat, w: RowWalk)
    requires forall n: nat :: SortedBySeq(table(n))
    requires StableRange(table, first, last)
    requires AtCursor(Between(table(0), first, last), first, cursor, seen)
    requires limit > 0 && rows == Page(table(k), cursor, last, limit)
    ensures var all := Between(table(0), first, last);
            if rows == [] then WalkRows(h, want, all[seen..], w) == w
            else && seen + |rows| <= |all|
                 && AtCursor(all, first, rows[|rows| - 1].seqNo, seen + |rows|)
                 && WalkRows(h, want, all[seen..], w) == WalkRows(h, want, all[seen + |rows|..], WalkRows(h, want, rows, w))
  {
    var all := Between(table(0), first, last);
    PageIsNext(table, first, last, cursor, k, seen);
    if rows == [] {
      assert all[seen..] == [];
    } else {
      hide WalkRows, StableRange, SortedBySeq;
      PageCut(all, seen, rows);
      WalkRowsSplit(h, want, rows, all[seen + |rows|..], w);
      BetweenRange(table(0), first, last);
      hide Between;
    }
  }

  lemma PageCut(all: seq<Row>, seen: nat, rows: seq<Row>)
    requires seen <= |all| && rows <= all[seen..] && rows != []
    ensures seen + |rows| <= |all| && all[seen..] == rows + all[seen + |rows|..]
    ensures rows[|rows| - 1] == all[seen + |rows| - 1]
  {
  }

  method WalkPage(h: Hash, want: map<int, seq<Bytes>>, rows: seq<Row>, start: RowWalk) returns (w: RowWalk)
    requires start.res.Valid()
    ensures w == WalkRows(h, want, rows, start)
  {
    hide WalkRow;
    w := start;
    for i := 0 to |rows|
      invariant w.res.Valid()
      invariant WalkRows(h, want, rows[i..], w) == WalkRows(h, want, rows, start)
    {
      w := WalkRow(h, want, rows[i], w);
      assert rows[i..][1..] == rows[i + 1..];
      if !w.res.Valid() {
        return w;
      }
    }
  }

  /** On a stable range every page read continues where the walk stands. */
  lemma PageIsNext(table: nat -> seq<Row>, first: int, last: int, cursor: int, k: nat, seen: nat)
    requires SortedBySeq(table(k)) && SortedBySeq(table(0)) && StableRange(table, first, last)
    requires seen <= |Between(table(0), first, last)|
    requires if cursor < first then cursor == first - 1 && seen == 0
             else 0 < seen && Between(table(0), first, last)[seen - 1].seqNo == cursor
    ensures Between(table(k), cursor + 1, last) == Between(table(0), first, last)[seen..]
  {
    hide Between;
    if cursor >= first {
      RangeBehindCursor(table(k), first, last, seen);
    }
  }
}
