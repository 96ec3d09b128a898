/** When an archived segment file passes its own verification, and what a passing file proves. */
module ArchiveRoundTrip {
  import opened ByteStrings
  import opened Chain
  import opened Json
  import opened Options
  import opened ArchiveFile
  import opened EventRows
  import opened LineLengths
  import Utf8

  // ---------- the shape of the lines ----------

  /** No content of a row can pass for the footer. */
  lemma RowIsNotFooter(r: Row)
    ensures !Contains(EncodeRow(r), FOOTER_MARK)
    ensures OneLine(EncodeRow(r))
  {
    hide Ascii, RowValues, EncodeMembers;
    var ms := Zip(ROW_KEYS, RowValues(r));
    RowKeysDistinct();
    EncodeMembersOneLine(ms);
    FooterMarkStart();
    var line := EncodeRow(r);
    assert line == [OPEN] + EncodeMembers(ms);
    forall p: nat | p <= |line| ensures !MatchesAt(line, FOOTER_MARK, p) {
      NoTypeMark(ms, p - 1);
      assert p >= 1 ==> TypeMarkAt(line, p) == TypeMarkAt(EncodeMembers(ms), p - 1);
      MatchStart(line, p);
    }
  }

  lemma FooterMarkStart()
    ensures |FOOTER_MARK| >= 7 && TypeMarkAt(FOOTER_MARK, 0)
  {
  }

  lemma MatchStart(s: Bytes, p: nat)
    requires |FOOTER_MARK| >= 7 && TypeMarkAt(FOOTER_MARK, 0)
    ensures MatchesAt(s, FOOTER_MARK, p) ==> TypeMarkAt(s, p)
  {
    hide FOOTER_MARK;
    if MatchesAt(s, FOOTER_MARK, p) {
      var m := s[p..p + |FOOTER_MARK|];
      assert m[0] == s[p] && m[1] == s[p + 1] && m[2] == s[p + 2] && m[3] == s[p + 3];
      assert m[4] == s[p + 4] && m[5] == s[p + 5] && m[6] == s[p + 6];
    }
  }

  lemma EscapeUnescapedUnit(s: Bytes)
    requires s != [] && (48 <= s[0] < 58 || s[0] == 95 || 97 <= s[0] < 123)
    ensures EscapeUnit(s) == [s[0]] && UnitLen(s) == 1 && Utf8.RuneLen(s) == 1
  {
  }

  lemma {:induction false} EscapeUnescaped(s: Bytes)
    requires Unescaped(s)
    ensures Escape(s) == s && Utf8.Valid(s)
  {
    hide EscapeUnit, UnitLen, Utf8.RuneLen;
    if s != [] {
      EscapeUnescapedUnit(s);
      EscapeUnescaped(s[1..]);
      assert s == [s[0]] + s[1..];
    }
  }

  lemma FrameKeyMarks()
    ensures Mark(TYPE_KEY) == 291941 && Mark(VERSION_KEY) == 489070 && Mark(ALGORITHM_KEY) == 614765
    ensures Mark(FIRST_SEQ_KEY) == 550513 && Mark(LAST_SEQ_KEY) == 486513
    ensures Mark(FIRST_PREV_HASH_KEY) == 878184 && Mark(COUNT_KEY) == 353140 && Mark(LAST_HASH_KEY) == 552040
  {
  }

  lemma FrameKeysDistinct()
    ensures forall i, j :: 0 <= i < j < 7 ==> HEADER_KEYS[i] != HEADER_KEYS[j]
    ensures forall i :: 0 <= i < 7 ==> PlainKey(HEADER_KEYS[i])
    ensures forall i, j :: 0 <= i < j < 3 ==> FOOTER_KEYS[i] != FOOTER_KEYS[j]
    ensures forall i :: 0 <= i < 3 ==> PlainKey(FOOTER_KEYS[i])
  {
    FrameKeyMarks();
    hide Ascii, Mark;
  }

  lemma HeaderLookups(vs: seq<Value>)
    requires |vs| == 7
    ensures var ms := SanitizeMembers(Zip(HEADER_KEYS, vs));
            && DecodeObject(EncodeObject(Zip(HEADER_KEYS, vs))) == Some(ms)
            && HasMember(ms, TYPE_KEY, SanitizeValue(vs[0])) && HasMember(ms, VERSION_KEY, SanitizeValue(vs[1]))
            && HasMember(ms, ALGORITHM_KEY, SanitizeValue(vs[2]))
            && HasMember(ms, FIRST_SEQ_KEY, SanitizeValue(vs[3])) && HasMember(ms, LAST_SEQ_KEY, SanitizeValue(vs[4]))
            && HasMember(ms, FIRST_PREV_HASH_KEY, SanitizeValue(vs[5])) && HasMember(ms, COUNT_KEY, SanitizeValue(vs[6]))
    ensures OneLine(EncodeObject(Zip(HEADER_KEYS, vs)))
  {
    hide HasMember, DecodeObject, Ascii, EncodeMembers, SanitizeValue, SanitizeMembers;
    FrameKeysDistinct();
    DecodeEncodeObject(Zip(HEADER_KEYS, vs));
    EncodeMembersOneLine(Zip(HEADER_KEYS, vs));
    LookupZip(HEADER_KEYS, vs, 0);
    LookupZip(HEADER_KEYS, vs, 1);
    LookupZip(HEADER_KEYS, vs, 2);
    LookupZip(HEADER_KEYS, vs, 3);
    LookupZip(HEADER_KEYS, vs, 4);
    LookupZip(HEADER_KEYS, vs, 5);
    LookupZip(HEADER_KEYS, vs, 6);
  }

  lemma HeaderReadBack(first: int, last: int, prev: Bytes, count: nat)
    requires Utf8.Valid(prev)
    ensures ParseHeader(HeaderLine(first, last, prev, count)) == Some(Header(HEADER_TYPE, first, last, prev))
    ensures OneLine(HeaderLine(first, last, prev, count))
  {
    hide Lookup, AllOfKind, Sanitize, DecodeObject, Ascii, EncodeObject, SanitizeMembers, Zip, HEADER_KEYS, OneLine;
    HeaderLookups(HeaderValues(first, last, prev, count));
    EscapeUnescaped(HEADER_TYPE);
  }

  lemma FooterReadBack(lastHash: Bytes, count: nat)
    requires Utf8.Valid(lastHash)
    ensures ParseFooter(FooterLine(lastHash, count)) == Some(Footer(lastHash, count))
    ensures OneLine(FooterLine(lastHash, count))
  {
    hide Lookup, AllOfKind, Sanitize, DecodeObject, Ascii, EncodeMembers;
    var vs := FooterValues(lastHash, count);
    var ms := SanitizeMembers(Zip(FOOTER_KEYS, vs));
    FrameKeysDistinct();
    DecodeEncodeObject(Zip(FOOTER_KEYS, vs));
    EncodeMembersOneLine(Zip(FOOTER_KEYS, vs));
    forall i | 0 <= i < 3 ensures HasMember(ms, FOOTER_KEYS[i], SanitizeValue(vs[i])) {
      LookupZip(FOOTER_KEYS, vs, i);
    }
    assert FOOTER_KEYS[0] == TYPE_KEY && FOOTER_KEYS[1] == LAST_HASH_KEY && FOOTER_KEYS[2] == COUNT_KEY;
  }

  lemma FooterIsMarked(lastHash: Bytes, count: nat)
    ensures Contains(FooterLine(lastHash, count), FOOTER_MARK)
  {
    hide Ascii, Escape;
    EscapeUnescaped(FOOTER_TYPE);
    var ms := Zip(FOOTER_KEYS, FooterValues(lastHash, count));
    assert EncodeMember(ms[0]) == FOOTER_MARK;
    hide FOOTER_MARK, EncodeMember;
    PrefixContained(EncodeMember(ms[0]), [COMMA] + EncodeMembers(ms[1..]));
    assert EncodeMembers(ms) == EncodeMember(ms[0]) + ([COMMA] + EncodeMembers(ms[1..]));
  }

  lemma PrefixContained(t: Bytes, rest: Bytes)
    ensures Contains([OPEN] + (t + rest), t)
  {
    assert MatchesAt([OPEN] + (t + rest), t, 1);
  }

  // ---------- round trip ----------

  /** Digests are hex strings of 64 digits, hence valid UTF-8. */
  ghost predicate TextDigests(h: Hash) {
    forall b :: Utf8.Valid(h(b)) && |h(b)| == 64
  }

  /** JSON carries the row unchanged exactly when its text columns are valid UTF-8. */
  lemma SanitizeRowIdentity(r: Row)
    requires Utf8.Valid(r.prevHash) && Utf8.Valid(r.hash)
    ensures SanitizeRow(r) == r <==> TextValid(r.content)
    ensures SanitizeRow(r) == r.(content := SanitizeRow(r).content)
  {
    hide Sanitize, Utf8.Valid;
  }

  /** A row read back from JSON still hashes to its stored hash exactly when its text is valid, barring a collision. */
  lemma RowSurvives(h: Hash, r: Row)
    requires TextDigests(h) && Utf8.Valid(r.prevHash) && r.hash == ComputeHash(h, r)
    requires ComputeHash(h, SanitizeRow(r)) == ComputeHash(h, r) ==> RowPreimage(SanitizeRow(r)) == RowPreimage(r)
    ensures SanitizeRow(r).seqNo == r.seqNo && SanitizeRow(r).prevHash == r.prevHash && SanitizeRow(r).hash == r.hash
    ensures r.hash == ComputeHash(h, SanitizeRow(r)) <==> TextValid(r.content)
    ensures TextValid(r.content) ==> SanitizeRow(r) == r
  {
    SanitizeRowIdentity(r);
    RowPreimageInjective(SanitizeRow(r), r);
  }

  predicate AllTextValid(rows: seq<Row>) {
    forall i :: 0 <= i < |rows| ==> TextValid(rows[i].content)
  }

  /** No row collides with what JSON makes of it. */
  ghost predicate NoSanitizedCollision(h: Hash, rows: seq<Row>) {
    forall i :: 0 <= i < |rows| && ComputeHash(h, SanitizeRow(rows[i])) == ComputeHash(h, rows[i])
      ==> RowPreimage(SanitizeRow(rows[i])) == RowPreimage(rows[i])
  }

  lemma DigestValid(h: Hash, r: Row)
    requires TextDigests(h)
    ensures Utf8.Valid(ComputeHash(h, r)) && |ComputeHash(h, r)| == 64
  {
  }

  lemma ScanFooter(h: Hash, exp: int, lastHash: Bytes, n: nat, seg: Segment)
    requires Utf8.Valid(lastHash) && seg.recordCount == n && seg.lastHash == lastHash
    ensures ScanRows(h, [FooterLine(lastHash, n)], exp, lastHash, n, seg) == ArchiveOk
  {
    hide ParseFooter, Contains, DecodeRow, FOOTER_MARK, FooterLine;
    FooterReadBack(lastHash, n);
    FooterIsMarked(lastHash, n);
  }

  /** One written row: the scan goes on behind it exactly when its text is valid. */
  lemma ScanWrittenRow(h: Hash, r: Row, rest: seq<Bytes>, exp: int, prev: Bytes, n: nat, seg: Segment)
    requires TextDigests(h) && Utf8.Valid(prev) && NoSanitizedCollision(h, [r])
    requires Linked(h, [r], exp, prev)
    ensures ScanRows(h, [EncodeRow(r)] + rest, exp, prev, n, seg)
         == if TextValid(r.content) then ScanRows(h, rest, exp + 1, r.hash, n + 1, seg) else ChainBroken
    ensures Utf8.Valid(r.hash)
  {
    hide DecodeRow, ParseFooter, Contains, ComputeHash, TextValid, Utf8.Valid, EncodeRow, FOOTER_MARK, SanitizeRow,
         RowPreimage;
    assert LinkedAt(h, [r], 0, exp, prev);
    assert [r][0] == r;
    DigestValid(h, r);
    RowIsNotFooter(r);
    DecodeEncodeRow(r);
    RowSurvives(h, r);
    assert ([EncodeRow(r)] + rest)[1..] == rest;
  }

  lemma {:induction false} ScanWrittenRows(h: Hash, rows: seq<Row>, exp: int, prev: Bytes, n: nat, seg: Segment)
    requires TextDigests(h) && Utf8.Valid(prev) && NoSanitizedCollision(h, rows)
    requires Linked(h, rows, exp, prev)
    requires seg.recordCount == n + |rows| && seg.lastHash == LastHash(rows, prev)
    ensures ScanRows(h, RowLines(rows) + [FooterLine(LastHash(rows, prev), n + |rows|)], exp, prev, n, seg)
         == if AllTextValid(rows) then ArchiveOk else ChainBroken
    decreases |rows|
  {
    hide ScanRows, TextValid, Utf8.Valid, EncodeRow, FooterLine, ComputeHash, SanitizeRow, RowPreimage;
    var footer := FooterLine(LastHash(rows, prev), n + |rows|);
    if rows == [] {
      assert RowLines(rows) + [footer] == [footer];
      ScanFooter(h, exp, prev, n, seg);
    } else {
      var r, rest := rows[0], rows[1..];
      LinkedCut(h, rows, 1, exp, prev);
      assert rows[..1] == [r];
      assert NoSanitizedCollision(h, [r]) && NoSanitizedCollision(h, rest);
      ScanWrittenRow(h, r, RowLines(rest) + [footer], exp, prev, n, seg);
      assert RowLines(rows) + [footer] == [EncodeRow(r)] + (RowLines(rest) + [footer]);
      ScanWrittenRows(h, rest, exp + 1, r.hash, n + 1, seg);
      assert AllTextValid(rows) == (TextValid(r.content) && AllTextValid(rest)) by {
        assert forall i :: 1 <= i < |rows| ==> rows[i] == rest[i - 1];
      }
    }
  }

  /** `seg` records the segment `rows` behind `prev`, with the digest of the file written for it. */
  ghost predicate Records(h: Hash, seg: Segment, rows: seq<Row>, first: int, prev: Bytes) {
    && seg.firstSeq == first && seg.lastSeq == first + |rows| - 1 && seg.recordCount == |rows|
    && seg.firstPrevHash == prev && seg.lastHash == LastHash(rows, prev)
    && seg.fileSM3 == h(ArchiveBytes(rows, seg.firstSeq, seg.lastSeq, prev))
  }

  lemma RowLinesAreLines(rows: seq<Row>)
    ensures forall i :: 0 <= i < |rows| ==> OneLine(RowLines(rows)[i])
  {
    hide OneLine, EncodeRow;
    forall i | 0 <= i < |rows| ensures OneLine(RowLines(rows)[i]) {
      RowIsNotFooter(rows[i]);
    }
  }

  /** A scan that never meets the footer does not pass. */
  lemma {:induction false} ScanWithoutFooter(h: Hash, lines: seq<Bytes>, exp: int, prev: Bytes, n: nat, seg: Segment)
    requires forall i :: 0 <= i < |lines| ==> !Contains(lines[i], FOOTER_MARK)
    ensures ScanRows(h, lines, exp, prev, n, seg) != ArchiveOk
    decreases |lines|
  {
    hide DecodeRow, ParseFooter, Contains, ComputeHash, FOOTER_MARK;
    if lines != [] && DecodeRow(lines[0]).Some? {
      var r := DecodeRow(lines[0]).value;
      ScanWithoutFooter(h, lines[1..], r.seqNo + 1, r.hash, n + 1, seg);
    }
  }

  /** A file cut short by the scanner does not pass. */
  lemma LongLinesFail(h: Hash, rows: seq<Row>, first: int, last: int, prev: Bytes, seg: Segment)
    requires var lines := ArchiveLines(rows, first, last, prev);
             ScanLines(ArchiveBytes(rows, first, last, prev), ARCHIVE_LINE_LIMIT) < lines
    ensures CheckArchive(h, ArchiveBytes(rows, first, last, prev), seg) != ArchiveOk
  {
    hide ScanRows, ParseHeader, ScanLines, HeaderLine, FooterLine, FileOf, RowLines, Contains, FOOTER_MARK, EncodeRow;
    var seen := ScanLines(ArchiveBytes(rows, first, last, prev), ARCHIVE_LINE_LIMIT);
    if seen != [] {
      forall i | 0 <= i < |seen[1..]| ensures !Contains(seen[1..][i], FOOTER_MARK) {
        assert seen[1..][i] == RowLines(rows)[i] by { assert seen[1..][i] == ArchiveLines(rows, first, last, prev)[i + 1]; }
        NthRowLine(rows, i);
        RowIsNotFooter(rows[i]);
      }
      forall exp: int, p: Bytes ensures ScanRows(h, seen[1..], exp, p, 0, seg) != ArchiveOk {
        ScanWithoutFooter(h, seen[1..], exp, p, 0, seg);
      }
    }
  }

  lemma NthRowLine(rows: seq<Row>, i: nat)
    requires i < |rows|
    ensures RowLines(rows)[i] == EncodeRow(rows[i])
  {
  }

  /** What the scanner takes of the file of a segment. */
  predicate FileFits(rows: seq<Row>, first: int, last: int, prev: Bytes) {
    ShortLines(ArchiveLines(rows, first, last, prev), ARCHIVE_LINE_LIMIT)
  }

  /**
   The file archiveOne writes for a linked segment passes VerifyArchiveFile if and only if every text column
   of every row is valid UTF-8 and every line fits the scanner; with an invalid column the untampered file is
   reported as a broken chain.
   */
  lemma WrittenFilePasses(h: Hash, rows: seq<Row>, first: int, prev: Bytes, seg: Segment)
    requires TextDigests(h) && Utf8.Valid(prev) && NoSanitizedCollision(h, rows)
    requires Linked(h, rows, first, prev) && Records(h, seg, rows, first, prev)
    ensures CheckArchive(h, ArchiveBytes(rows, seg.firstSeq, seg.lastSeq, prev), seg) == ArchiveOk
       <==> AllTextValid(rows) && FileFits(rows, seg.firstSeq, seg.lastSeq, prev)
    ensures !AllTextValid(rows) && FileFits(rows, seg.firstSeq, seg.lastSeq, prev)
        ==> CheckArchive(h, ArchiveBytes(rows, seg.firstSeq, seg.lastSeq, prev), seg) == ChainBroken
  {
    hide Linked, ScanRows, ParseHeader, ScanLines, OneLine, AllTextValid, HeaderLine, FooterLine, FileOf,
         Utf8.Valid, NoSanitizedCollision, RowLines, Fitting;
    var n := |rows|;
    var footer := FooterLine(LastHash(rows, prev), n);
    var lines := ArchiveLines(rows, first, seg.lastSeq, prev);
    LastHashValid(h, rows, first, prev);
    HeaderReadBack(first, seg.lastSeq, prev, n);
    FooterReadBack(LastHash(rows, prev), n);
    RowLinesAreLines(rows);
    ScanFileOf(lines, ARCHIVE_LINE_LIMIT);
    if FileFits(rows, first, seg.lastSeq, prev) {
      ScanWrittenRows(h, rows, first, prev, 0, seg);
      assert lines[1..] == RowLines(rows) + [footer];
    } else {
      LongLinesFail(h, rows, first, seg.lastSeq, prev, seg);
    }
  }

  predicate AllBounded(rows: seq<Row>) {
    forall i :: 0 <= i < |rows| ==> Bounded(rows[i].content)
  }

  lemma LinkedRowBounded(h: Hash, rows: seq<Row>, i: nat, first: int, prev: Bytes)
    requires TextDigests(h) && Linked(h, rows, first, prev) && AllBounded(rows) && i < |rows|
    requires 1 <= first && IsInt64(first + |rows|) && |prev| <= 64
    ensures BoundedRow(rows[i])
  {
    hide ComputeHash, Bounded, TextDigests;
    assert LinkedAt(h, rows, i, first, prev);
    DigestValid(h, rows[i]);
    if i > 0 {
      assert LinkedAt(h, rows, i - 1, first, prev);
      DigestValid(h, rows[i - 1]);
    }
  }

  /** The lines of a segment of recorded events fit the scanner. */
  lemma BoundedFileFits(h: Hash, rows: seq<Row>, first: int, prev: Bytes)
    requires TextDigests(h) && Linked(h, rows, first, prev) && AllBounded(rows)
    requires 1 <= first && IsInt64(first + |rows|) && |prev| <= 64
    ensures FileFits(rows, first, first + |rows| - 1, prev)
  {
    hide Linked, AllBounded, TextDigests, HeaderLine, FooterLine, EncodeRow, RowLines, BoundedRow;
    HeaderLength(first, first + |rows| - 1, prev, |rows|);
    assert |LastHash(rows, prev)| <= 64 by {
      if rows != [] { LinkedRowBounded(h, rows, |rows| - 1, first, prev); LastHashShort(rows, prev); }
    }
    FooterLength(LastHash(rows, prev), |rows|);
    var lines := ArchiveLines(rows, first, first + |rows| - 1, prev);
    forall i | 0 <= i < |lines| ensures |lines[i]| < ARCHIVE_LINE_LIMIT {
      if 0 < i <= |rows| {
        assert lines[i] == RowLines(rows)[i - 1];
        NthRowLine(rows, i - 1);
        LinkedRowBounded(h, rows, i - 1, first, prev);
        RowLineLength(rows[i - 1]);
      }
    }
  }

  lemma LastHashShort(rows: seq<Row>, prev: Bytes)
    requires rows != [] && BoundedRow(rows[|rows| - 1])
    ensures |LastHash(rows, prev)| <= 64
  {
  }

  /**
   The archive of recorded events, within the columns and numbered within 64 bits, passes if and only if every text
   column is valid UTF-8; otherwise the untampered file is reported as a broken chain.
   */
  lemma RecordedFilePasses(h: Hash, rows: seq<Row>, first: int, prev: Bytes, seg: Segment)
    requires TextDigests(h) && Utf8.Valid(prev) && NoSanitizedCollision(h, rows)
    requires Linked(h, rows, first, prev) && Records(h, seg, rows, first, prev)
    requires AllBounded(rows) && 1 <= first && IsInt64(first + |rows|) && |prev| <= 64
    ensures CheckArchive(h, ArchiveBytes(rows, seg.firstSeq, seg.lastSeq, prev), seg)
         == if AllTextValid(rows) then ArchiveOk else ChainBroken
  {
    hide CheckArchive, ArchiveBytes, AllTextValid, NoSanitizedCollision, TextDigests, Linked, FileFits, AllBounded;
    BoundedFileFits(h, rows, first, prev);
    WrittenFilePasses(h, rows, first, prev, seg);
  }

  lemma LastHashValid(h: Hash, rows: seq<Row>, first: int, prev: Bytes)
    requires TextDigests(h) && Utf8.Valid(prev) && Linked(h, rows, first, prev)
    ensures Utf8.Valid(LastHash(rows, prev))
  {
    if rows != [] {
      assert LinkedAt(h, rows, |rows| - 1, first, prev);
      DigestValid(h, rows[|rows| - 1]);
    }
  }

  lemma {:induction false} ZerosAreText(n: nat)
    ensures Utf8.Valid(Repeat(48, n))
  {
    if n > 0 {
      ZerosAreText(n - 1);
      assert Repeat(48, n)[1..] == Repeat(48, n - 1);
    }
  }

  /** An event whose actor is the single byte 0xFF, which is not UTF-8. */
  const LATIN_EVENT := Content([1], 0, [0xFF], [], [], [], [], [], [], [], [], [], [])

  lemma LatinIsNotText()
    ensures !TextValid(LATIN_EVENT)
  {
    assert !Utf8.Valid([0xFF]);
  }

  lemma LatinIsRecorded()
    ensures LATIN_EVENT == RowFromEvent([1], Event(0, [0xFF], [], [], [], [], [], [], [], [], [], map[]))
    ensures Bounded(LATIN_EVENT)
  {
    hide Utf8.ValidPrefix;
    RecordedIsBounded([1], Event(0, [0xFF], [], [], [], [], [], [], [], [], [], map[]));
  }

  /** The concrete failing input: the untampered archive of a chain of that one event does not pass. */
  lemma InvalidTextBreaksArchive(h: Hash, seg: Segment)
    requires var rows := [NextRow(h, 0, GENESIS_HASH, LATIN_EVENT)];
             TextDigests(h) && NoSanitizedCollision(h, rows) && Records(h, seg, rows, 1, GENESIS_HASH)
    ensures var rows := [NextRow(h, 0, GENESIS_HASH, LATIN_EVENT)];
            CheckArchive(h, ArchiveBytes(rows, 1, 1, GENESIS_HASH), seg) == ChainBroken
    ensures LATIN_EVENT == RowFromEvent([1], Event(0, [0xFF], [], [], [], [], [], [], [], [], [], map[]))
  {
    hide CheckArchive, ArchiveBytes, NoSanitizedCollision, TextDigests, ComputeHash, TextValid, Linked, LATIN_EVENT,
         Repeat, FileFits, Utf8.Valid, Bounded, RowFromEvent;
    LatinIsNotText();
    LatinIsRecorded();
    var rows := [NextRow(h, 0, GENESIS_HASH, LATIN_EVENT)];
    assert [LATIN_EVENT][..0] == [];
    assert rows == Extend(h, 0, GENESIS_HASH, [LATIN_EVENT]);
    ExtendLinked(h, 0, GENESIS_HASH, [LATIN_EVENT]);
    ZerosAreText(64);
    assert rows[0].content == LATIN_EVENT;
    RecordedFilePasses(h, rows, 1, GENESIS_HASH, seg);
  }

  // ---------- soundness ----------

  /** The rows of a file: its lines after the header, up to the footer. */
  function RowsBeforeFooter(lines: seq<Bytes>): seq<Row> {
    if lines == [] || Contains(lines[0], FOOTER_MARK) then []
    else
      match DecodeRow(lines[0])
      case None => []
      case Some(r) => [r] + RowsBeforeFooter(lines[1..])
  }

  function FileRows(data: Bytes): seq<Row> {
    var lines := ScanLines(data, ARCHIVE_LINE_LIMIT);
    if lines == [] then [] else RowsBeforeFooter(lines[1..])
  }

  lemma {:induction false} ScanSound(h: Hash, lines: seq<Bytes>, exp: int, prev: Bytes, n: nat, seg: Segment)
    requires ScanRows(h, lines, exp, prev, n, seg) == ArchiveOk
    ensures var rows := RowsBeforeFooter(lines);
            Linked(h, rows, exp, prev) && n + |rows| == seg.recordCount && LastHash(rows, prev) == seg.lastHash
    decreases |lines|
  {
    hide DecodeRow, ParseFooter, Contains, ComputeHash;
    if !Contains(lines[0], FOOTER_MARK) {
      var r := DecodeRow(lines[0]).value;
      ScanSound(h, lines[1..], exp + 1, r.hash, n + 1, seg);
      var rest := RowsBeforeFooter(lines[1..]);
      assert LinkedAt(h, [r], 0, exp, prev);
      LinkedSplit(h, [r], rest, exp, prev);
    }
  }

  /** A file that passes holds a linked run of rows from the segment's first boundary to its last, whoever wrote it. */
  lemma PassingFileIsLinked(h: Hash, data: Bytes, seg: Segment)
    requires CheckArchive(h, data, seg) == ArchiveOk
    ensures Linked(h, FileRows(data), seg.firstSeq, seg.firstPrevHash)
    ensures |FileRows(data)| == seg.recordCount && LastHash(FileRows(data), seg.firstPrevHash) == seg.lastHash
    ensures h(data) == seg.fileSM3
  {
    hide ScanRows, ParseHeader, ScanLines, Linked, RowsBeforeFooter;
    ScanSound(h, ScanLines(data, ARCHIVE_LINE_LIMIT)[1..], seg.firstSeq, seg.firstPrevHash, 0, seg);
  }
}
