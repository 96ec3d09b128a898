/** The archive files from the outside (internal/audit/retention.go): their names, what their lines say, and what a bad file is reported as. */
module ArchiveFormat {
  import opened ByteStrings
  import opened Chain
  import opened Options
  import opened Json
  import opened ArchiveFile
  import opened ArchiveRoundTrip
  import opened LineLengths

  // ---------- lines ----------

  predicate HasText(ms: seq<Member>, name: string, text: Bytes) {
    HasMember(ms, Ascii(name), Str(Sanitize(text)))
  }

  predicate HasNumber(ms: seq<Member>, name: string, n: int) {
    HasMember(ms, Ascii(name), Num(n))
  }

  /** Every column stands under its own name. */
  predicate SaysRow(ms: seq<Member>, r: Row) {
    var c := r.content;
    && |ms| == 16 && HasNumber(ms, "seq", r.seqNo) && HasText(ms, "eventId", c.eventId) && HasNumber(ms, "tsMicro", c.tsMicro)
    && HasText(ms, "actor", c.actor) && HasText(ms, "actorType", c.actorType) && HasText(ms, "ownerId", c.ownerId)
    && HasText(ms, "ip", c.ip) && HasText(ms, "action", c.action) && HasText(ms, "resourceType", c.resourceType)
    && HasText(ms, "resourceId", c.resourceId) && HasText(ms, "result", c.result) && HasText(ms, "reason", c.reason)
    && HasText(ms, "traceId", c.traceId) && HasText(ms, "extra", c.extra)
    && HasText(ms, "prevHash", r.prevHash) && HasText(ms, "hash", r.hash)
  }

  lemma KeyNames()
    ensures ROW_KEYS[0] == Ascii("seq") && ROW_KEYS[1] == Ascii("eventId") && ROW_KEYS[2] == Ascii("tsMicro") && ROW_KEYS[3] == Ascii("actor")
    ensures ROW_KEYS[4] == Ascii("actorType") && ROW_KEYS[5] == Ascii("ownerId") && ROW_KEYS[6] == Ascii("ip") && ROW_KEYS[7] == Ascii("action")
    ensures ROW_KEYS[8] == Ascii("resourceType") && ROW_KEYS[9] == Ascii("resourceId") && ROW_KEYS[10] == Ascii("result")
    ensures ROW_KEYS[11] == Ascii("reason") && ROW_KEYS[12] == Ascii("traceId") && ROW_KEYS[13] == Ascii("extra")
    ensures ROW_KEYS[14] == Ascii("prevHash") && ROW_KEYS[15] == Ascii("hash")
  {
    hide Ascii;
  }

  lemma ValuesOf(r: Row)
    ensures var v, c := RowValues(r), r.content;
            && v[0] == Num(r.seqNo) && v[1] == Str(c.eventId) && v[2] == Num(c.tsMicro) && v[3] == Str(c.actor)
            && v[4] == Str(c.actorType) && v[5] == Str(c.ownerId) && v[6] == Str(c.ip) && v[7] == Str(c.action)
            && v[8] == Str(c.resourceType) && v[9] == Str(c.resourceId) && v[10] == Str(c.result) && v[11] == Str(c.reason)
            && v[12] == Str(c.traceId) && v[13] == Str(c.extra) && v[14] == Str(r.prevHash) && v[15] == Str(r.hash)
  {
  }

  /** A row's line is a JSON object of its sixteen columns, each under its own name. */
  lemma RowLineSays(r: Row) returns (ms: seq<Member>)
    ensures DecodeObject(EncodeRow(r)) == Some(ms) && SaysRow(ms, r)
  {
    RowKeyLengths();
    RowKeysDistinct();
    hide HasMember, DecodeObject, EncodeObject, RowValues, Ascii, ROW_KEYS, Sanitize;
    var vs := RowValues(r);
    DecodeEncodeObject(Zip(ROW_KEYS, vs));
    ms := SanitizeMembers(Zip(ROW_KEYS, vs));
    forall i | 0 <= i < 16 ensures HasMember(ms, ROW_KEYS[i], SanitizeValue(vs[i])) {
      LookupZip(ROW_KEYS, vs, i);
    }
    KeyNames();
    ValuesOf(r);
  }

  predicate SaysHeader(ms: seq<Member>, first: int, last: int, prev: Bytes, count: nat) {
    && |ms| == 7 && HasText(ms, "type", Ascii("segment_header")) && HasNumber(ms, "version", 1)
    && HasText(ms, "algorithm", Ascii("SM3:privahub-audit:v1"))
    && HasNumber(ms, "firstSeq", first) && HasNumber(ms, "lastSeq", last) && HasText(ms, "firstPrevHash", prev)
    && HasNumber(ms, "count", count)
  }

  predicate SaysFooter(ms: seq<Member>, lastHash: Bytes, count: nat) {
    |ms| == 3 && HasText(ms, "type", Ascii("segment_footer")) && HasText(ms, "lastHash", lastHash) && HasNumber(ms, "count", count)
  }

  lemma FrameNames()
    ensures HEADER_KEYS[0] == Ascii("type") && HEADER_KEYS[1] == Ascii("version") && HEADER_KEYS[2] == Ascii("algorithm")
    ensures HEADER_KEYS[3] == Ascii("firstSeq") && HEADER_KEYS[4] == Ascii("lastSeq") && HEADER_KEYS[5] == Ascii("firstPrevHash")
    ensures HEADER_KEYS[6] == Ascii("count")
    ensures FOOTER_KEYS[0] == Ascii("type") && FOOTER_KEYS[1] == Ascii("lastHash") && FOOTER_KEYS[2] == Ascii("count")
    ensures HEADER_TYPE == Ascii("segment_header") && FOOTER_TYPE == Ascii("segment_footer")
    ensures HASH_ALGORITHM == Ascii("SM3:privahub-audit:v1")
  {
    assert TYPE_KEY == Ascii("type");
    hide Ascii;
  }

  /** The first line of an archive file says what it holds, and in which convention. */
  lemma HeaderLineSays(first: int, last: int, prev: Bytes, count: nat) returns (ms: seq<Member>)
    ensures DecodeObject(HeaderLine(first, last, prev, count)) == Some(ms) && SaysHeader(ms, first, last, prev, count)
  {
    RowKeyLengths();
    FrameKeysDistinct();
    FrameNames();
    hide HasMember, DecodeObject, EncodeObject, Ascii, HEADER_KEYS, FOOTER_KEYS, Sanitize, HEADER_TYPE, HASH_ALGORITHM;
    var vs := HeaderValues(first, last, prev, count);
    DecodeEncodeObject(Zip(HEADER_KEYS, vs));
    ms := SanitizeMembers(Zip(HEADER_KEYS, vs));
    forall i | 0 <= i < 7 ensures HasMember(ms, HEADER_KEYS[i], SanitizeValue(vs[i])) {
      LookupZip(HEADER_KEYS, vs, i);
    }
  }

  /** The last line says where its chain ends. */
  lemma FooterLineSays(lastHash: Bytes, count: nat) returns (ms: seq<Member>)
    ensures DecodeObject(FooterLine(lastHash, count)) == Some(ms) && SaysFooter(ms, lastHash, count)
  {
    RowKeyLengths();
    FrameKeysDistinct();
    FrameNames();
    hide HasMember, DecodeObject, EncodeObject, Ascii, HEADER_KEYS, FOOTER_KEYS, Sanitize, FOOTER_TYPE;
    var vs := FooterValues(lastHash, count);
    DecodeEncodeObject(Zip(FOOTER_KEYS, vs));
    ms := SanitizeMembers(Zip(FOOTER_KEYS, vs));
    forall i | 0 <= i < 3 ensures HasMember(ms, FOOTER_KEYS[i], SanitizeValue(vs[i])) {
      LookupZip(FOOTER_KEYS, vs, i);
    }
  }

  predicate InTwelveDigits(n: nat, d: Bytes) {
    Digits(d) && DigitsValue(d) == n && |d| == if |Decimal(n)| <= 12 then 12 else |Decimal(n)|
  }

  /** The name of a file carries its first and its last number, in twelve digits each, or as many as they have. */
  lemma FileNameSays(first: nat, last: nat)
    ensures FileName(first, last) == Ascii("audit-segment-") + Pad12(first) + Ascii("-") + Pad12(last) + Ascii(".jsonl")
    ensures InTwelveDigits(first, Pad12(first)) && InTwelveDigits(last, Pad12(last))
  {
    assert Ascii("-") == [45];
    hide Ascii;
    PaddedNumber(first);
    PaddedNumber(last);
  }

  lemma PaddedNumber(n: nat)
    ensures InTwelveDigits(n, Pad12(n))
  {
    var zeros := Pad12(n)[..|Pad12(n)| - |Decimal(n)|];
    LeadingZeros(zeros, Decimal(n));
    assert Pad12(n) == zeros + Decimal(n);
    DigitsValueOfDecimal(n);
  }

  // ---------- what foreign lines are read as ----------

  /** The last member of this name, if there is one. */
  predicate LastMember(ms: seq<Member>, key: Bytes, i: int) {
    0 <= i < |ms| && ms[i].key == key && forall j :: i < j < |ms| ==> ms[j].key != key
  }

  lemma {:induction false} LookupMeaning(ms: seq<Member>, key: Bytes)
    ensures match Lookup(ms, key)
            case None => forall i :: 0 <= i < |ms| ==> ms[i].key != key
            case Some(v) => exists i :: LastMember(ms, key, i) && ms[i].value == v
  {
    if ms != [] {
      var n := |ms| - 1;
      if ms[n].key == key {
        assert LastMember(ms, key, n);
      } else {
        LookupMeaning(ms[..n], key);
        if Lookup(ms[..n], key).Some? {
          var i :| LastMember(ms[..n], key, i) && ms[..n][i].value == Lookup(ms[..n], key).value;
          assert LastMember(ms, key, i);
        }
      }
    }
  }

  /** A column is the last member of its name, zero or empty when there is none; one of another kind makes the line unreadable. */
  lemma ColumnMeaning(ms: seq<Member>, key: Bytes)
    ensures (forall i :: 0 <= i < |ms| ==> ms[i].key != key) ==> NumAt(ms, key) == Some(0) && StrAt(ms, key) == Some([])
    ensures NumAt(ms, key).None? <==> exists i :: 0 <= i < |ms| && ms[i].key == key && ms[i].value.Str?
    ensures StrAt(ms, key).None? <==> exists i :: 0 <= i < |ms| && ms[i].key == key && ms[i].value.Num?
    ensures forall i :: LastMember(ms, key, i) && NumAt(ms, key).Some? ==> ms[i].value == Num(NumAt(ms, key).value)
    ensures forall i :: LastMember(ms, key, i) && StrAt(ms, key).Some? ==> ms[i].value == Str(StrAt(ms, key).value)
  {
    hide Lookup;
    LookupMeaning(ms, key);
    if Lookup(ms, key).Some? {
      var k :| LastMember(ms, key, k) && ms[k].value == Lookup(ms, key).value;
      forall i | LastMember(ms, key, i) ensures i == k {
      }
    }
  }

  /** A part of a line is found wherever it stands. */
  lemma PartIsContained(front: Bytes, part: Bytes, back: Bytes)
    ensures Contains(front + part + back, part)
  {
    var s := front + part + back;
    assert s[|front|..|front| + |part|] == part;
    assert MatchesAt(s, part, |front|);
  }

  lemma {:induction false} LastElementOf(dir: Bytes, name: Bytes)
    requires SLASH !in name
    ensures LastElement(dir + [SLASH] + name) == name
    decreases |name|
  {
    var path := dir + [SLASH] + name;
    if name != [] {
      LastElementOf(dir, name[..|name| - 1]);
      assert path[..|path| - 1] == dir + [SLASH] + name[..|name| - 1];
    }
  }

  /** Only the last element of a recorded path counts, slashes behind it apart; an empty path is the directory itself. */
  lemma BaseMeaning(dir: Bytes, name: Bytes)
    requires SLASH !in name
    ensures Base([]) == [DOT] && Base([SLASH]) == [SLASH]
    ensures name != [] ==> Base(name) == name && Base(dir + [SLASH] + name) == name
    ensures dir != [] ==> Base(dir + [SLASH]) == Base(dir)
  {
    PlainLastElement(name);
    LastElementOf(dir, name);
    assert (dir + [SLASH])[..|dir|] == dir;
  }

  // ---------- what a bad file is reported as ----------

  /** The first n lines hold rows that continue the chain, and none of them is marked as a footer. */
  predicate HoldRows(h: Hash, lines: seq<Bytes>, rows: seq<Row>, first: int, prev: Bytes) {
    && |rows| <= |lines| && Linked(h, rows, first, prev)
    && forall i :: 0 <= i < |rows| ==> !Contains(lines[i], FOOTER_MARK) && DecodeRow(lines[i]) == Some(rows[i])
  }

  /** What the next line makes of a file whose chain stands behind n rows at (exp, last); None for the next row. */
  function FaultAt(h: Hash, rest: seq<Bytes>, n: nat, exp: int, last: Bytes, seg: Segment): Option<Outcome> {
    if rest == [] then Some(MissingFooter)
    else if Contains(rest[0], FOOTER_MARK) then
      match ParseFooter(rest[0])
      case None => Some(BadFooter)
      case Some(f) => Some(if f == Footer(last, n) && n == seg.recordCount && last == seg.lastHash then ArchiveOk else FooterMismatch)
    else
      match DecodeRow(rest[0])
      case None => Some(BadRow)
      case Some(x) => if x.seqNo == exp && x.prevHash == last && x.hash == ComputeHash(h, x) then None else Some(ChainBroken)
  }

  lemma FirstHeldRow(h: Hash, lines: seq<Bytes>, rows: seq<Row>, first: int, prev: Bytes)
    requires HoldRows(h, lines, rows, first, prev) && rows != []
    ensures lines != [] && !Contains(lines[0], FOOTER_MARK) && DecodeRow(lines[0]) == Some(rows[0])
    ensures rows[0].seqNo == first && rows[0].prevHash == prev && rows[0].hash == ComputeHash(h, rows[0])
    ensures HoldRows(h, lines[1..], rows[1..], first + 1, rows[0].hash)
    ensures LastHash(rows[1..], rows[0].hash) == LastHash(rows, prev)
  {
    hide Contains, DecodeRow, ComputeHash;
    var r, rest := rows[0], rows[1..];
    assert rows == [r] + rest;
    LinkedSplit(h, [r], rest, first, prev);
    assert LinkedAt(h, [r], 0, first, prev);
    forall i | 0 <= i < |rest| ensures lines[1..][i] == lines[i + 1] && rest[i] == rows[i + 1] {
    }
  }

  lemma NextLineReports(h: Hash, rest: seq<Bytes>, n: nat, exp: int, last: Bytes, seg: Segment)
    ensures var fault := FaultAt(h, rest, n, exp, last, seg);
            fault.Some? ==> ScanRows(h, rest, exp, last, n, seg) == fault.value
  {
    hide Contains, DecodeRow, ComputeHash, ParseFooter, FOOTER_MARK;
  }

  /** Behind rows that continue the chain stands the fault that is reported. */
  lemma {:induction false} LineReports(h: Hash, lines: seq<Bytes>, rows: seq<Row>, exp: int, prev: Bytes, n: nat, seg: Segment,
                                       rest: seq<Bytes>, m: nat, next: int, last: Bytes, fault: Outcome)
    requires HoldRows(h, lines, rows, exp, prev)
    requires rest == lines[|rows|..] && m == n + |rows| && next == exp + |rows| && last == LastHash(rows, prev)
    requires FaultAt(h, rest, m, next, last, seg) == Some(fault)
    ensures ScanRows(h, lines, exp, prev, n, seg) == fault
    decreases |rows|
  {
    assert |rows| <= |lines|;
    hide FaultAt, Contains, DecodeRow, ComputeHash, ParseFooter, FOOTER_MARK, HoldRows;
    if rows == [] {
      assert rest == lines;
      NextLineReports(h, lines, n, exp, prev, seg);
    } else {
      FirstHeldRow(h, lines, rows, exp, prev);
      assert lines[1..][|rows[1..]|..] == rest;
      LineReports(h, lines[1..], rows[1..], exp + 1, rows[0].hash, n + 1, seg, rest, m, next, last, fault);
    }
  }

  /** A file is reported by its first fault: place, digest, header, then the first line that is not the next row. */
  lemma OutcomeMeaning(h: Hash, dir: map<Bytes, Bytes>, seg: Segment, rows: seq<Row>)
    ensures var name, r := Base(seg.fileName), CheckFile(h, dir, seg);
            && (!NamesDirectory(name) && name !in dir ==> r == ArchiveMissing)
            && (NamesDirectory(name) ==> r == ArchiveUnreadable)
            && (!NamesDirectory(name) && name in dir ==>
                  var lines := ScanLines(dir[name], 16 * 1024 * 1024);
                  if h(dir[name]) != seg.fileSM3 then r == ContentMismatch
                  else if lines == [] then r == EmptyArchive
                  else
                    var header := ParseHeader(lines[0]);
                    if header.None? || header.value.kind != Ascii("segment_header") then r == BadHeader
                    else if header.value != Header(Ascii("segment_header"), seg.firstSeq, seg.lastSeq, seg.firstPrevHash) then r == HeaderMismatch
                    else |rows| < |lines| && HoldRows(h, lines[1..], rows, seg.firstSeq, seg.firstPrevHash) ==>
                           var fault := FaultAt(h, lines[1..][|rows|..], |rows|, seg.firstSeq + |rows|, LastHash(rows, seg.firstPrevHash), seg);
                           fault.Some? ==> r == fault.value)
  {
    FrameNames();
    hide ScanLines, ParseHeader, Ascii, Base, NamesDirectory, HEADER_TYPE, FaultAt, HoldRows, ScanRows;
    var name := Base(seg.fileName);
    if !NamesDirectory(name) && name in dir {
      var lines := ScanLines(dir[name], 16 * 1024 * 1024);
      if |rows| < |lines| && HoldRows(h, lines[1..], rows, seg.firstSeq, seg.firstPrevHash) {
        var rest, next, last := lines[1..][|rows|..], seg.firstSeq + |rows|, LastHash(rows, seg.firstPrevHash);
        var fault := FaultAt(h, rest, |rows|, next, last, seg);
        if fault.Some? {
          LineReports(h, lines[1..], rows, seg.firstSeq, seg.firstPrevHash, 0, seg, rest, |rows|, next, last, fault.value);
        }
      }
    }
  }
}
