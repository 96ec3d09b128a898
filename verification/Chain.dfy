/** Audit rows, archived segments and the hash chain that links them (internal/audit/hash.go). */
module Chain {
  import opened ByteStrings
  import opened Canonical

  /** The digest (hex SM3) is a parameter of everything below: nothing is assumed of it. */
  type Hash = Bytes -> Bytes

  const HASH_ALGORITHM := Ascii("SM3:privahub-audit:v1")
  const SEGMENT_LABEL := Ascii("SM3:privahub-audit-segment:v1")
  const GENESIS_HASH := Repeat(48, 64)

  /** What an event says; the columns of audit_log that are hashed besides seq and prev_hash. */
  datatype Content = Content(
    eventId: Bytes, tsMicro: int,
    actor: Bytes, actorType: Bytes, ownerId: Bytes, ip: Bytes,
    action: Bytes, resourceType: Bytes, resourceId: Bytes,
    result: Bytes, reason: Bytes, traceId: Bytes, extra: Bytes)

  datatype Row = Row(seqNo: int, content: Content, prevHash: Bytes, hash: Bytes)

  datatype Segment = Segment(
    segSeq: int, firstSeq: int, lastSeq: int, recordCount: int,
    firstPrevHash: Bytes, lastHash: Bytes, fileName: Bytes, fileSM3: Bytes,
    archiveMicro: int, prevSegHash: Bytes, segHash: Bytes)

  function RowFields(r: Row): (fields: seq<Bytes>)
    ensures |fields| == 16
  {
    var c := r.content;
    [ HASH_ALGORITHM, FormatInt(r.seqNo), c.eventId, FormatInt(c.tsMicro),
      c.actor, c.actorType, c.ownerId, c.ip,
      c.action, c.resourceType, c.resourceId,
      c.result, c.reason, c.traceId, c.extra,
      r.prevHash ]
  }

  function RowPreimage(r: Row): Bytes {
    Join(RowFields(r))
  }

  function ComputeHash(h: Hash, r: Row): Bytes {
    h(RowPreimage(r))
  }

  function SegmentFields(s: Segment): (fields: seq<Bytes>)
    ensures |fields| == 11
  {
    [ SEGMENT_LABEL, FormatInt(s.segSeq), FormatInt(s.firstSeq), FormatInt(s.lastSeq), FormatInt(s.recordCount),
      s.firstPrevHash, s.lastHash, s.fileName, s.fileSM3, FormatInt(s.archiveMicro), s.prevSegHash ]
  }

  function SegmentPreimage(s: Segment): Bytes {
    Join(SegmentFields(s))
  }

  function ComputeSegmentHash(h: Hash, s: Segment): Bytes {
    h(SegmentPreimage(s))
  }

  /** Equal row pre-images mean equal hashed fields: only the stored hash itself may differ. */
  lemma RowPreimageInjective(a: Row, b: Row)
    ensures RowPreimage(a) == RowPreimage(b) <==> a.(hash := b.hash) == b
  {
    if RowPreimage(a) == RowPreimage(b) {
      var f, g := RowFields(a), RowFields(b);
      JoinInjective(f, g);
      assert f[1] == g[1] && f[2] == g[2] && f[3] == g[3] && f[4] == g[4] && f[5] == g[5];
      assert f[6] == g[6] && f[7] == g[7] && f[8] == g[8] && f[9] == g[9] && f[10] == g[10];
      assert f[11] == g[11] && f[12] == g[12] && f[13] == g[13] && f[14] == g[14] && f[15] == g[15];
      FormatIntInjective(a.seqNo, b.seqNo);
      FormatIntInjective(a.content.tsMicro, b.content.tsMicro);
    }
  }

  lemma RowFieldsAre(r: Row)
    ensures var f, c := RowFields(r), r.content;
            && f[0] == Ascii("SM3:privahub-audit:v1") && f[1] == FormatInt(r.seqNo) && f[2] == c.eventId && f[3] == FormatInt(c.tsMicro)
            && f[4] == c.actor && f[5] == c.actorType && f[6] == c.ownerId && f[7] == c.ip
            && f[8] == c.action && f[9] == c.resourceType && f[10] == c.resourceId
            && f[11] == c.result && f[12] == c.reason && f[13] == c.traceId && f[14] == c.extra && f[15] == r.prevHash
  {
    hide Ascii, FormatInt;
  }

  lemma SegmentFieldsAre(s: Segment)
    ensures var f := SegmentFields(s);
            && f[0] == Ascii("SM3:privahub-audit-segment:v1") && f[1] == FormatInt(s.segSeq) && f[2] == FormatInt(s.firstSeq)
            && f[3] == FormatInt(s.lastSeq) && f[4] == FormatInt(s.recordCount) && f[5] == s.firstPrevHash && f[6] == s.lastHash
            && f[7] == s.fileName && f[8] == s.fileSM3 && f[9] == FormatInt(s.archiveMicro) && f[10] == s.prevSegHash
  {
    hide Ascii, FormatInt;
  }

  /** The pre-image of a row is the label, and then each hashed column in this order, and nothing else. */
  lemma RowPreimageSays(r: Row, fields: seq<Bytes>)
    requires Join(fields) == RowPreimage(r)
    ensures |fields| == 16 && fields[0] == Ascii("SM3:privahub-audit:v1")
    ensures fields[1] == FormatInt(r.seqNo) && fields[2] == r.content.eventId && fields[3] == FormatInt(r.content.tsMicro)
    ensures fields[4] == r.content.actor && fields[5] == r.content.actorType && fields[6] == r.content.ownerId
    ensures fields[7] == r.content.ip && fields[8] == r.content.action && fields[9] == r.content.resourceType
    ensures fields[10] == r.content.resourceId && fields[11] == r.content.result && fields[12] == r.content.reason
    ensures fields[13] == r.content.traceId && fields[14] == r.content.extra && fields[15] == r.prevHash
  {
    JoinInjective(fields, RowFields(r));
    hide *;
    RowFieldsAre(r);
  }

  lemma SegmentPreimageSays(s: Segment, fields: seq<Bytes>)
    requires Join(fields) == SegmentPreimage(s)
    ensures |fields| == 11 && fields[0] == Ascii("SM3:privahub-audit-segment:v1")
    ensures fields[1] == FormatInt(s.segSeq) && fields[2] == FormatInt(s.firstSeq) && fields[3] == FormatInt(s.lastSeq)
    ensures fields[4] == FormatInt(s.recordCount) && fields[5] == s.firstPrevHash && fields[6] == s.lastHash
    ensures fields[7] == s.fileName && fields[8] == s.fileSM3 && fields[9] == FormatInt(s.archiveMicro)
    ensures fields[10] == s.prevSegHash
  {
    JoinInjective(fields, SegmentFields(s));
    hide *;
    SegmentFieldsAre(s);
  }

  lemma HashIgnoresStoredHash(h: Hash, r: Row, stored: Bytes)
    ensures ComputeHash(h, r.(hash := stored)) == ComputeHash(h, r)
  {
    assert RowFields(r.(hash := stored)) == RowFields(r);
  }

  lemma SegmentPreimageInjective(a: Segment, b: Segment)
    ensures SegmentPreimage(a) == SegmentPreimage(b) <==> a.(segHash := b.segHash) == b
  {
    if SegmentPreimage(a) == SegmentPreimage(b) {
      var f, g := SegmentFields(a), SegmentFields(b);
      JoinInjective(f, g);
      assert f[1] == g[1] && f[2] == g[2] && f[3] == g[3] && f[4] == g[4] && f[5] == g[5];
      assert f[6] == g[6] && f[7] == g[7] && f[8] == g[8] && f[9] == g[9] && f[10] == g[10];
      FormatIntInjective(a.segSeq, b.segSeq);
      FormatIntInjective(a.firstSeq, b.firstSeq);
      FormatIntInjective(a.lastSeq, b.lastSeq);
      FormatIntInjective(a.recordCount, b.recordCount);
      FormatIntInjective(a.archiveMicro, b.archiveMicro);
    }
  }

  /** A row and a segment record never share a pre-image. */
  lemma RowSegmentPreimagesDiffer(r: Row, s: Segment)
    ensures RowPreimage(r) != SegmentPreimage(s)
  {
    if RowPreimage(r) == SegmentPreimage(s) {
      JoinInjective(RowFields(r), SegmentFields(s));
    }
  }

  // ---------- linked runs of rows ----------

  /** The hash that row number i of `rows` links to, when `rows` itself starts at hash `prev`. */
  function HashBefore(rows: seq<Row>, i: nat, prev: Bytes): Bytes
    requires i <= |rows|
  {
    if i == 0 then prev else rows[i - 1].hash
  }

  /** The hash a successor of `rows` links to. */
  function LastHash(rows: seq<Row>, prev: Bytes): Bytes {
    HashBefore(rows, |rows|, prev)
  }

  predicate LinkedAt(h: Hash, rows: seq<Row>, i: nat, first: int, prev: Bytes)
    requires i < |rows|
  {
    && rows[i].seqNo == first + i
    && rows[i].prevHash == HashBefore(rows, i, prev)
    && rows[i].hash == ComputeHash(h, rows[i])
  }

  /** `rows` carry consecutive numbers from `first`, link to `prev` and to each other, and hash to what they store. */
  predicate Linked(h: Hash, rows: seq<Row>, first: int, prev: Bytes) {
    forall i :: 0 <= i < |rows| ==> LinkedAt(h, rows, i, first, prev)
  }

  lemma LinkedSplit(h: Hash, a: seq<Row>, b: seq<Row>, first: int, prev: Bytes)
    ensures Linked(h, a + b, first, prev) <==> Linked(h, a, first, prev) && Linked(h, b, first + |a|, LastHash(a, prev))
    ensures LastHash(a + b, prev) == LastHash(b, LastHash(a, prev))
  {
    hide ComputeHash;
    var ab, next, link := a + b, first + |a|, LastHash(a, prev);
    forall i | 0 <= i < |a| ensures LinkedAt(h, ab, i, first, prev) == LinkedAt(h, a, i, first, prev) {
    }
    forall i | |a| <= i < |ab| ensures LinkedAt(h, ab, i, first, prev) == LinkedAt(h, b, i - |a|, next, link) {
    }
    if Linked(h, ab, first, prev) {
      forall i | 0 <= i < |b| ensures LinkedAt(h, b, i, next, link) {
        assert LinkedAt(h, ab, |a| + i, first, prev);
      }
    }
    if Linked(h, a, first, prev) && Linked(h, b, next, link) {
      forall i | |a| <= i < |ab| ensures LinkedAt(h, ab, i, first, prev) {
        assert LinkedAt(h, b, i - |a|, next, link);
      }
    }
  }

  /** A cut of a linked run is linked on both sides. */
  lemma LinkedCut(h: Hash, rows: seq<Row>, k: nat, first: int, prev: Bytes)
    requires k <= |rows| && Linked(h, rows, first, prev)
    ensures Linked(h, rows[..k], first, prev)
    ensures Linked(h, rows[k..], first + k, LastHash(rows[..k], prev))
    ensures LastHash(rows[k..], LastHash(rows[..k], prev)) == LastHash(rows, prev)
  {
    assert rows == rows[..k] + rows[k..];
    LinkedSplit(h, rows[..k], rows[k..], first, prev);
  }

  // ---------- what appendOnce chains ----------

  /** The row that content `c` becomes behind (seqNo, prev). */
  function NextRow(h: Hash, seqNo: int, prev: Bytes, c: Content): Row {
    var r := Row(seqNo + 1, c, prev, []);
    r.(hash := ComputeHash(h, r))
  }

  /** The rows that `contents` become behind (seqNo, prev). */
  function Extend(h: Hash, seqNo: int, prev: Bytes, contents: seq<Content>): (rows: seq<Row>)
    ensures |rows| == |contents|
    decreases |contents|
  {
    if contents == [] then []
    else
      var n := |contents| - 1;
      var rows := Extend(h, seqNo, prev, contents[..n]);
      rows + [NextRow(h, seqNo + n, LastHash(rows, prev), contents[n])]
  }

  lemma LastHashConcat(a: seq<Row>, b: seq<Row>, prev: Bytes)
    ensures LastHash(a + b, prev) == LastHash(b, LastHash(a, prev))
  {
  }

  lemma {:induction false} ExtendConcat(h: Hash, seqNo: int, prev: Bytes, a: seq<Content>, b: seq<Content>)
    ensures Extend(h, seqNo, prev, a + b)
         == Extend(h, seqNo, prev, a) + Extend(h, seqNo + |a|, LastHash(Extend(h, seqNo, prev, a), prev), b)
    decreases |b|
  {
    hide NextRow;
    var rows := Extend(h, seqNo, prev, a);
    if b == [] {
      assert a + b == a;
    } else {
      var n := |b| - 1;
      assert (a + b)[..|a| + n] == a + b[..n] && (a + b)[|a| + n] == b[n];
      ExtendConcat(h, seqNo, prev, a, b[..n]);
      LastHashConcat(rows, Extend(h, seqNo + |a|, LastHash(rows, prev), b[..n]), prev);
    }
  }

  lemma {:induction false} ExtendLinked(h: Hash, seqNo: int, prev: Bytes, contents: seq<Content>)
    ensures Linked(h, Extend(h, seqNo, prev, contents), seqNo + 1, prev)
    ensures forall i :: 0 <= i < |contents| ==> Extend(h, seqNo, prev, contents)[i].content == contents[i]
    decreases |contents|
  {
    hide ComputeHash;
    if contents != [] {
      var n := |contents| - 1;
      var rows := Extend(h, seqNo, prev, contents[..n]);
      ExtendLinked(h, seqNo, prev, contents[..n]);
      var r := NextRow(h, seqNo + n, LastHash(rows, prev), contents[n]);
      HashIgnoresStoredHash(h, r, []);
      assert Linked(h, [r], seqNo + 1 + n, LastHash(rows, prev));
      LinkedSplit(h, rows, [r], seqNo + 1, prev);
    }
  }

  function Contents(rows: seq<Row>): seq<Content> {
    seq(|rows|, i requires 0 <= i < |rows| => rows[i].content)
  }

  /** Linked rows are exactly the rows their contents chain to: the chain has no other degree of freedom. */
  lemma {:induction false} LinkedIsExtend(h: Hash, rows: seq<Row>, seqNo: int, prev: Bytes)
    requires Linked(h, rows, seqNo + 1, prev)
    ensures rows == Extend(h, seqNo, prev, Contents(rows))
    decreases |rows|
  {
    hide ComputeHash;
    if rows != [] {
      var n := |rows| - 1;
      LinkedCut(h, rows, n, seqNo + 1, prev);
      LinkedIsExtend(h, rows[..n], seqNo, prev);
      assert LinkedAt(h, rows, n, seqNo + 1, prev);
      HashIgnoresStoredHash(h, rows[n], []);
      assert Contents(rows)[..n] == Contents(rows[..n]);
      assert rows == rows[..n] + [rows[n]];
    }
  }
}
