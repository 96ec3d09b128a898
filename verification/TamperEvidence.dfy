/**
 What the unkeyed chain proves about a database someone may have rewritten, and what it takes an external
 anchor to prove. The digest is arbitrary: the theorems assume only that no two distinct pre-images among
 the rows at hand collide.
 */
module TamperEvidence {
  import opened ByteStrings
  import opened Chain
  import opened Options
  import opened ArchiveFile
  import opened AuditSteps
  import opened Verify
  import opened VerifyMeaning

  function Preimages(rows: seq<Row>): set<Bytes> {
    set i | 0 <= i < |rows| :: RowPreimage(rows[i])
  }

  /** No two distinct pre-images of the set have the same digest. */
  ghost predicate NoCollision(h: Hash, preimages: set<Bytes>) {
    forall x, y :: x in preimages && y in preimages && h(x) == h(y) ==> x == y
  }

  lemma PreimagesOfPart(rows: seq<Row>, a: nat, b: nat)
    requires a <= b <= |rows|
    ensures Preimages(rows[a..b]) <= Preimages(rows)
  {
    forall i | 0 <= i < |rows[a..b]| ensures RowPreimage(rows[a..b][i]) in Preimages(rows) {
      assert rows[a..b][i] == rows[a + i];
    }
  }

  lemma EqualHashesEqualRows(h: Hash, a: Row, b: Row)
    requires a.hash == ComputeHash(h, a) && b.hash == ComputeHash(h, b) && a.hash == b.hash
    requires NoCollision(h, {RowPreimage(a), RowPreimage(b)})
    ensures a == b
  {
    assert h(RowPreimage(a)) == h(RowPreimage(b));
    RowPreimageInjective(a, b);
  }

  /**
   Two linked runs that end in the same hash agree row by row, as far back as both reach; where the shorter one
   stops, its boundary hash is the hash of the other's row there.
   */
  lemma {:induction false} EqualTailsEqualRows(h: Hash, a: seq<Row>, b: seq<Row>, firstA: int, firstB: int,
      prevA: Bytes, prevB: Bytes)
    requires Linked(h, a, firstA, prevA) && Linked(h, b, firstB, prevB)
    requires firstA + |a| == firstB + |b| && LastHash(a, prevA) == LastHash(b, prevB)
    requires |b| <= |a| && NoCollision(h, Preimages(a) + Preimages(b))
    ensures a[|a| - |b|..] == b
    ensures HashBefore(a, |a| - |b|, prevA) == prevB
    decreases |b|
  {
    hide ComputeHash, RowPreimage, Linked;
    if b != [] {
      var m, n := |a| - 1, |b| - 1;
      LastRow(h, a, firstA, prevA);
      LastRow(h, b, firstB, prevB);
      assert RowPreimage(a[m]) in Preimages(a) && RowPreimage(b[n]) in Preimages(b);
      EqualHashesEqualRows(h, a[m], b[n]);
      PreimagesOfPart(a, 0, m);
      PreimagesOfPart(b, 0, n);
      assert a[..m] == a[0..m] && b[..n] == b[0..n];
      EqualTailsEqualRows(h, a[..m], b[..n], firstA, firstB, prevA, prevB);
      assert a[|a| - |b|..] == a[..m][m - n..] + [a[m]];
      assert b == b[..n] + [b[n]];
    }
  }

  lemma LastRow(h: Hash, rows: seq<Row>, first: int, prev: Bytes)
    requires Linked(h, rows, first, prev) && rows != []
    ensures var n := |rows| - 1;
            && rows[n].hash == ComputeHash(h, rows[n]) && rows[n].prevHash == LastHash(rows[..n], prev)
            && rows[n].seqNo == first + n && Linked(h, rows[..n], first, prev)
  {
    hide ComputeHash;
    assert LinkedAt(h, rows, |rows| - 1, first, prev);
    LinkedCut(h, rows, |rows| - 1, first, prev);
  }

  /** The live rows of a store, as the verifier walks them. */
  function LiveRows(db: Db): seq<Row> {
    Between(db.live, ArchivedThrough(db.segments) + 1, TailOrGenesis(db.tail).seqNo)
  }

  ghost predicate VerifiesAsValid(h: Hash, db: Db, opt: VerifyOptions) {
    Verdict(h, db.tail, db.segments, LiveRows(db), opt).Valid()
  }

  /** The hash that a verified store vouches for at the end of its archived range. */
  function ArchiveBoundary(db: Db): Bytes {
    BoundaryHash(db.segments, |db.segments|)
  }

  /**
   The tail determines the history: two stores that verify and show the same tail hold the same rows at every
   number live in both, and the one that archived further has as boundary the other's hash at that number.
   */
  lemma TailDeterminesHistory(h: Hash, a: Db, b: Db, optA: VerifyOptions, optB: VerifyOptions)
    requires VerifiesAsValid(h, a, optA) && VerifiesAsValid(h, b, optB)
    requires a.tail.Some? && a.tail == b.tail
    requires ArchivedThrough(a.segments) <= ArchivedThrough(b.segments)
    requires NoCollision(h, Preimages(LiveRows(a)) + Preimages(LiveRows(b)))
    ensures var skip := ArchivedThrough(b.segments) - ArchivedThrough(a.segments);
            && skip + |LiveRows(b)| == |LiveRows(a)|
            && LiveRows(a)[skip..] == LiveRows(b)
            && HashBefore(LiveRows(a), skip, ArchiveBoundary(a)) == ArchiveBoundary(b)
  {
    ValidIff(h, a.tail, a.segments, LiveRows(a), optA);
    ValidIff(h, b.tail, b.segments, LiveRows(b), optB);
    hide LiveRows, Verdict, SegmentsVerify, Linked, Preimages;
    EqualTailsEqualRows(h, LiveRows(a), LiveRows(b), ArchivedThrough(a.segments) + 1, ArchivedThrough(b.segments) + 1,
                        ArchiveBoundary(a), ArchiveBoundary(b));
  }

  /** What the live rows show at an anchor behind the archived range. */
  lemma LiveRowsAtAnchor(h: Hash, db: Db, opt: VerifyOptions, a: Anchor)
    requires VerifiesAsValid(h, db, opt) && a in opt.anchors && ArchivedThrough(db.segments) < a.seqNo
    ensures var k := ArchivedThrough(db.segments);
            && 0 <= k && a.seqNo - k <= |LiveRows(db)|
            && Linked(h, LiveRows(db), k + 1, ArchiveBoundary(db))
            && HashBefore(LiveRows(db), a.seqNo - k, ArchiveBoundary(db)) == a.hash
  {
    ValidIff(h, db.tail, db.segments, LiveRows(db), opt);
    VerifiedCoverage(h, opt, db.segments, 0, |db.segments|);
    assert AnchorAgrees(db.segments, TailOrGenesis(db.tail), LiveRows(db), a);
    hide LiveRows, Verdict, SegmentsVerify;
  }

  /**
   Anchor soundness: when a store verifies against an anchor that was the tail of a true chain `past`, its live
   rows up to the anchor are those of `past`, and its archive boundary is a hash of `past`.
   */
  lemma AnchorFixesPast(h: Hash, db: Db, opt: VerifyOptions, past: seq<Row>)
    requires VerifiesAsValid(h, db, opt)
    requires Linked(h, past, 1, GENESIS_HASH) && Anchor(|past|, LastHash(past, GENESIS_HASH)) in opt.anchors
    requires NoCollision(h, Preimages(past) + Preimages(LiveRows(db)))
    requires ArchivedThrough(db.segments) < |past|
    ensures var k := ArchivedThrough(db.segments);
            && 0 <= k && |past| - k <= |LiveRows(db)|
            && LiveRows(db)[..|past| - k] == past[k..]
            && ArchiveBoundary(db) == HashBefore(past, k, GENESIS_HASH)
  {
    hide LiveRows, VerifiesAsValid, Preimages, Linked, ArchivedThrough, ArchiveBoundary;
    var rows, k := LiveRows(db), ArchivedThrough(db.segments);
    LiveRowsAtAnchor(h, db, opt, Anchor(|past|, LastHash(past, GENESIS_HASH)));
    var n := |past| - k;
    LinkedCut(h, rows, n, k + 1, ArchiveBoundary(db));
    assert LastHash(rows[..n], ArchiveBoundary(db)) == LastHash(past, GENESIS_HASH);
    PreimagesOfPart(rows, 0, n);
    assert rows[..n] == rows[0..n];
    EqualTailsEqualRows(h, past, rows[..n], 1, k + 1, GENESIS_HASH, ArchiveBoundary(db));
  }

  /** An anchor at an archived boundary is compared with the boundary; beyond the tail it is a truncation. */
  lemma AnchorsCompared(h: Hash, db: Db, opt: VerifyOptions, a: Anchor)
    requires VerifiesAsValid(h, db, opt) && a in opt.anchors
    ensures a.seqNo <= TailOrGenesis(db.tail).seqNo
    ensures forall i :: 0 <= i < |db.segments| && db.segments[i].lastSeq == a.seqNo ==> db.segments[i].lastHash == a.hash
    ensures a.seqNo > ArchivedThrough(db.segments)
        ==> exists i :: 0 <= i < |LiveRows(db)| && LiveRows(db)[i].seqNo == a.seqNo && LiveRows(db)[i].hash == a.hash
  {
    ValidIff(h, db.tail, db.segments, LiveRows(db), opt);
    var rows, k := LiveRows(db), ArchivedThrough(db.segments);
    hide LiveRows, Verdict, SegmentsVerify;
    assert AnchorAgrees(db.segments, TailOrGenesis(db.tail), rows, a);
    if a.seqNo > k {
      LinkedNumbered(h, rows, k + 1, ArchiveBoundary(db));
      assert rows[a.seqNo - k - 1].seqNo == a.seqNo;
    }
  }

  // ---------- what the chain alone cannot show ----------

  /** Whoever can rewrite the database can make any contents verify: only anchors speak against it. */
  lemma RewriteVerifies(h: Hash, contents: seq<Content>, opt: VerifyOptions)
    requires opt.anchors == []
    ensures var rows := Extend(h, 0, GENESIS_HASH, contents);
            VerifiesAsValid(h, Db(rows, [], Some(Tail(|rows|, LastHash(rows, GENESIS_HASH)))), opt)
  {
    hide ComputeHash, Extend, Between, Verdict;
    var rows := Extend(h, 0, GENESIS_HASH, contents);
    var tail := Tail(|rows|, LastHash(rows, GENESIS_HASH));
    ExtendLinked(h, 0, GENESIS_HASH, contents);
    LinkedNumbered(h, rows, 1, GENESIS_HASH);
    RangesAreCuts(rows, 1, 1, |rows|);
    assert LiveRows(Db(rows, [], Some(tail))) == rows;
    ValidIff(h, Some(tail), [], rows, opt);
  }
}
