/** The framed segment files of internal/audit/retention.go: writing, reading, verifying. */
module ArchiveFile {
  import opened Sequences
  import opened ByteStrings
  import opened Chain
  import opened Json
  import opened Options
  import Utf8

  // ---------- rows as JSON lines ----------

  /** A struct tag name. */
  function Tag(name: string): (key: Bytes)
    requires name != [] && forall i :: 0 <= i < |name| ==> 'a' <= name[i] <= 'z' || 'A' <= name[i] <= 'Z'
    ensures PlainKey(key) && |key| == |name|
  {
    Ascii(name)
  }

  const SEQ_KEY := Tag("seq")
  const EVENT_ID_KEY := Tag("eventId")
  const TS_MICRO_KEY := Tag("tsMicro")
  const ACTOR_KEY := Tag("actor")
  const ACTOR_TYPE_KEY := Tag("actorType")
  const OWNER_ID_KEY := Tag("ownerId")
  const IP_KEY := Tag("ip")
  const ACTION_KEY := Tag("action")
  const RESOURCE_TYPE_KEY := Tag("resourceType")
  const RESOURCE_ID_KEY := Tag("resourceId")
  const RESULT_KEY := Tag("result")
  const REASON_KEY := Tag("reason")
  const TRACE_ID_KEY := Tag("traceId")
  const EXTRA_KEY := Tag("extra")
  const PREV_HASH_KEY := Tag("prevHash")
  const HASH_KEY := Tag("hash")

  const ROW_KEYS: seq<Bytes> :=
    [ SEQ_KEY, EVENT_ID_KEY, TS_MICRO_KEY, ACTOR_KEY,
      ACTOR_TYPE_KEY, OWNER_ID_KEY, IP_KEY, ACTION_KEY,
      RESOURCE_TYPE_KEY, RESOURCE_ID_KEY, RESULT_KEY, REASON_KEY,
      TRACE_ID_KEY, EXTRA_KEY, PREV_HASH_KEY, HASH_KEY ]

  function RowValues(r: Row): (vs: seq<Value>)
    ensures |vs| == 16
  {
    var c := r.content;
    [ Num(r.seqNo), Str(c.eventId), Num(c.tsMicro), Str(c.actor), Str(c.actorType), Str(c.ownerId),
      Str(c.ip), Str(c.action), Str(c.resourceType), Str(c.resourceId), Str(c.result), Str(c.reason),
      Str(c.traceId), Str(c.extra), Str(r.prevHash), Str(r.hash) ]
  }

  function Zip(keys: seq<Bytes>, vs: seq<Value>): (ms: seq<Member>)
    requires |keys| == |vs|
    ensures |ms| == |keys|
  {
    seq(|keys|, i requires 0 <= i < |keys| => Member(keys[i], vs[i]))
  }

  function EncodeRow(r: Row): Bytes {
    EncodeObject(Zip(ROW_KEYS, RowValues(r)))
  }

  /** The last member named `key`; a missing one leaves Go's zero value. */
  function Lookup(ms: seq<Member>, key: Bytes): Option<Value> {
    if ms == [] then None
    else
      var m := ms[|ms| - 1];
      if m.key == key then Some(m.value) else Lookup(ms[..|ms| - 1], key)
  }

  /** All members of this name are numbers, or all are strings. */
  predicate AllOfKind(ms: seq<Member>, key: Bytes, numbers: bool) {
    forall i :: 0 <= i < |ms| && ms[i].key == key ==> ms[i].value.Num? == numbers
  }

  function NumAt(ms: seq<Member>, key: Bytes): Option<int> {
    match Lookup(ms, key)
    case None => Some(0)
    case Some(Num(n)) => if AllOfKind(ms, key, true) then Some(n) else None
    case Some(Str(_)) => None
  }

  function StrAt(ms: seq<Member>, key: Bytes): Option<Bytes> {
    match Lookup(ms, key)
    case None => Some([])
    case Some(Str(s)) => if AllOfKind(ms, key, false) then Some(s) else None
    case Some(Num(_)) => None
  }

  /** Unmarshalling into the row struct: a member of the wrong kind is an error. */
  function RowOfMembers(ms: seq<Member>): Option<Row> {
    var seqNo :- NumAt(ms, SEQ_KEY);
    var eventId :- StrAt(ms, EVENT_ID_KEY);
    var tsMicro :- NumAt(ms, TS_MICRO_KEY);
    var actor :- StrAt(ms, ACTOR_KEY);
    var actorType :- StrAt(ms, ACTOR_TYPE_KEY);
    var ownerId :- StrAt(ms, OWNER_ID_KEY);
    var ip :- StrAt(ms, IP_KEY);
    var action :- StrAt(ms, ACTION_KEY);
    var resourceType :- StrAt(ms, RESOURCE_TYPE_KEY);
    var resourceId :- StrAt(ms, RESOURCE_ID_KEY);
    var result :- StrAt(ms, RESULT_KEY);
    var reason :- StrAt(ms, REASON_KEY);
    var traceId :- StrAt(ms, TRACE_ID_KEY);
    var extra :- StrAt(ms, EXTRA_KEY);
    var prevHash :- StrAt(ms, PREV_HASH_KEY);
    var hash :- StrAt(ms, HASH_KEY);
    Some(Row(seqNo,
             Content(eventId, tsMicro, actor, actorType, ownerId, ip, action, resourceType, resourceId,
                     result, reason, traceId, extra),
             prevHash, hash))
  }

  function DecodeRow(line: Bytes): Option<Row> {
    match DecodeObject(line)
    case None => None
    case Some(ms) => RowOfMembers(ms)
  }

  /** The row as JSON carries it. */
  function SanitizeRow(r: Row): Row {
    var c := r.content;
    Row(r.seqNo,
        Content(Sanitize(c.eventId), c.tsMicro, Sanitize(c.actor), Sanitize(c.actorType), Sanitize(c.ownerId),
                Sanitize(c.ip), Sanitize(c.action), Sanitize(c.resourceType), Sanitize(c.resourceId),
                Sanitize(c.result), Sanitize(c.reason), Sanitize(c.traceId), Sanitize(c.extra)),
        Sanitize(r.prevHash), Sanitize(r.hash))
  }

  /** Every hashed text column holds valid UTF-8. */
  predicate TextValid(c: Content) {
    && Utf8.Valid(c.eventId) && Utf8.Valid(c.actor) && Utf8.Valid(c.actorType) && Utf8.Valid(c.ownerId)
    && Utf8.Valid(c.ip) && Utf8.Valid(c.action) && Utf8.Valid(c.resourceType) && Utf8.Valid(c.resourceId)
    && Utf8.Valid(c.result) && Utf8.Valid(c.reason) && Utf8.Valid(c.traceId) && Utf8.Valid(c.extra)
  }

  /** Length, first and last byte: enough to tell the keys of one object apart. */
  function Mark(key: Bytes): int
    requires key != []
  {
    var first: int, last: int := key[0], key[|key| - 1];
    |key| * 65536 + first * 256 + last
  }

  lemma RowKeyMarks()
    ensures Mark(SEQ_KEY) == 226161 && Mark(EVENT_ID_KEY) == 484708
    ensures Mark(TS_MICRO_KEY) == 488559 && Mark(ACTOR_KEY) == 352626
    ensures Mark(ACTOR_TYPE_KEY) == 614757 && Mark(OWNER_ID_KEY) == 487268
    ensures Mark(IP_KEY) == 158064 && Mark(ACTION_KEY) == 418158
    ensures Mark(RESOURCE_TYPE_KEY) == 815717 && Mark(RESOURCE_ID_KEY) == 684644
    ensures Mark(RESULT_KEY) == 422516 && Mark(REASON_KEY) == 422510
    ensures Mark(TRACE_ID_KEY) == 488548 && Mark(EXTRA_KEY) == 353633
    ensures Mark(PREV_HASH_KEY) == 553064 && Mark(HASH_KEY) == 288872
    ensures Mark(TYPE_KEY) == 291941
  {
  }

  lemma RowKeysDistinct()
    ensures forall i, j :: 0 <= i < j < 16 ==> ROW_KEYS[i] != ROW_KEYS[j]
    ensures forall i :: 0 <= i < 16 ==> PlainKey(ROW_KEYS[i]) && ROW_KEYS[i] != TYPE_KEY
  {
    RowKeyMarks();
    hide Ascii, Mark;
  }

  /** There is a member of this name and value, and none of its name and another kind. */
  predicate HasMember(ms: seq<Member>, key: Bytes, v: Value) {
    Lookup(ms, key) == Some(v) && AllOfKind(ms, key, v.Num?)
  }

  lemma {:induction false} LookupZip(keys: seq<Bytes>, vs: seq<Value>, i: int)
    requires |keys| == |vs| && 0 <= i < |keys|
    requires forall a, b :: 0 <= a < b < |keys| ==> keys[a] != keys[b]
    ensures HasMember(SanitizeMembers(Zip(keys, vs)), keys[i], SanitizeValue(vs[i]))
  {
    var ms := SanitizeMembers(Zip(keys, vs));
    var n := |keys| - 1;
    if i < n {
      assert ms[..n] == SanitizeMembers(Zip(keys[..n], vs[..n]));
      LookupZip(keys[..n], vs[..n], i);
      assert keys[i] != keys[n];
    }
  }

  lemma RowOfLookups(ms: seq<Member>, r: Row)
    requires forall i :: 0 <= i < 16 ==> HasMember(ms, ROW_KEYS[i], SanitizeValue(RowValues(r)[i]))
    ensures RowOfMembers(ms) == Some(SanitizeRow(r))
  {
    hide Lookup, AllOfKind, Sanitize, Ascii;
    assert ROW_KEYS[0] == SEQ_KEY && ROW_KEYS[1] == EVENT_ID_KEY && ROW_KEYS[2] == TS_MICRO_KEY && ROW_KEYS[3] == ACTOR_KEY;
    assert ROW_KEYS[4] == ACTOR_TYPE_KEY && ROW_KEYS[5] == OWNER_ID_KEY && ROW_KEYS[6] == IP_KEY && ROW_KEYS[7] == ACTION_KEY;
    assert ROW_KEYS[8] == RESOURCE_TYPE_KEY && ROW_KEYS[9] == RESOURCE_ID_KEY && ROW_KEYS[10] == RESULT_KEY && ROW_KEYS[11] == REASON_KEY;
    assert ROW_KEYS[12] == TRACE_ID_KEY && ROW_KEYS[13] == EXTRA_KEY && ROW_KEYS[14] == PREV_HASH_KEY && ROW_KEYS[15] == HASH_KEY;
  }

  /** A row read back is the row written, with its text sanitized. */
  lemma DecodeEncodeRow(r: Row)
    ensures DecodeRow(EncodeRow(r)) == Some(SanitizeRow(r))
  {
    hide HasMember, DecodeObject, EncodeObject, RowOfMembers, SanitizeRow, RowValues, Ascii;
    var vs := RowValues(r);
    RowKeysDistinct();
    DecodeEncodeObject(Zip(ROW_KEYS, vs));
    forall i | 0 <= i < 16 ensures HasMember(SanitizeMembers(Zip(ROW_KEYS, vs)), ROW_KEYS[i], SanitizeValue(vs[i])) {
      LookupZip(ROW_KEYS, vs, i);
    }
    RowOfLookups(SanitizeMembers(Zip(ROW_KEYS, vs)), r);
  }

  // ---------- framing ----------

  /** Text that JSON writes as it is. */
  predicate Unescaped(s: Bytes) {
    forall i :: 0 <= i < |s| ==> (48 <= s[i] < 58 || s[i] == 95 || 97 <= s[i] < 123)
  }

  function Word(name: string): (w: Bytes)
    requires forall i :: 0 <= i < |name| ==> 'a' <= name[i] <= 'z' || name[i] == '_'
    ensures Unescaped(w) && |w| == |name|
  {
    Ascii(name)
  }

  const HEADER_TYPE := Word("segment_header")
  const FOOTER_TYPE := Word("segment_footer")
  const VERSION_KEY := Tag("version")
  const ALGORITHM_KEY := Tag("algorithm")
  const FIRST_SEQ_KEY := Tag("firstSeq")
  const LAST_SEQ_KEY := Tag("lastSeq")
  const FIRST_PREV_HASH_KEY := Tag("firstPrevHash")
  const COUNT_KEY := Tag("count")
  const LAST_HASH_KEY := Tag("lastHash")

  const HEADER_KEYS: seq<Bytes> :=
    [ TYPE_KEY, VERSION_KEY, ALGORITHM_KEY, FIRST_SEQ_KEY, LAST_SEQ_KEY, FIRST_PREV_HASH_KEY, COUNT_KEY ]

  const FOOTER_KEYS: seq<Bytes> := [ TYPE_KEY, LAST_HASH_KEY, COUNT_KEY ]

  /** The bytes that mark a footer line. */
  const FOOTER_MARK: Bytes := [QUOTE] + TYPE_KEY + [QUOTE, COLON, QUOTE] + FOOTER_TYPE + [QUOTE]

  function HeaderValues(first: int, last: int, prev: Bytes, count: nat): seq<Value> {
    [ Str(HEADER_TYPE), Num(1), Str(HASH_ALGORITHM), Num(first), Num(last), Str(prev), Num(count) ]
  }

  function FooterValues(lastHash: Bytes, count: nat): seq<Value> {
    [ Str(FOOTER_TYPE), Str(lastHash), Num(count) ]
  }

  function HeaderLine(first: int, last: int, prev: Bytes, count: nat): Bytes {
    EncodeObject(Zip(HEADER_KEYS, HeaderValues(first, last, prev, count)))
  }

  function FooterLine(lastHash: Bytes, count: nat): Bytes {
    EncodeObject(Zip(FOOTER_KEYS, FooterValues(lastHash, count)))
  }

  /** The encoded rows, one line each. */
  function RowLines(rows: seq<Row>): (lines: seq<Bytes>)
    ensures |lines| == |rows|
  {
    seq(|rows|, i requires 0 <= i < |rows| => EncodeRow(rows[i]))
  }

  function ArchiveLines(rows: seq<Row>, first: int, last: int, prev: Bytes): seq<Bytes> {
    [HeaderLine(first, last, prev, |rows|)] + RowLines(rows) + [FooterLine(LastHash(rows, prev), |rows|)]
  }

  /** The lines of a file, each closed by a line feed. */
  function FileOf(lines: seq<Bytes>): Bytes {
    if lines == [] then [] else lines[0] + [NEWLINE] + FileOf(lines[1..])
  }

  /** What archiveOne writes for a segment. */
  function ArchiveBytes(rows: seq<Row>, first: int, last: int, prev: Bytes): Bytes {
    FileOf(ArchiveLines(rows, first, last, prev))
  }

  /** segmentFileName. */
  function FileName(first: int, last: int): Bytes {
    Ascii("audit-segment-") + Pad12(first) + [45] + Pad12(last) + Ascii(".jsonl")
  }

  predicate Digits(d: Bytes) {
    forall i :: 0 <= i < |d| ==> IsDigit(d[i])
  }

  lemma TwoRunsUnique(pre: Bytes, p: Bytes, q: Bytes, r: Bytes, s: Bytes, dot: Bytes)
    requires Digits(p) && Digits(q) && Digits(r) && Digits(s) && dot != [] && !IsDigit(dot[0])
    requires pre + p + [45] + q + dot == pre + r + [45] + s + dot
    ensures p == r && q == s
  {
    var x, y := [45] + (q + dot), [45] + (s + dot);
    assert pre + p + [45] + q + dot == pre + (p + x) && pre + r + [45] + s + dot == pre + (r + y);
    PrefixCancel(pre, p + x, r + y);
    DigitRunUnique(p, r, x, y);
    PrefixCancel([45], q + dot, s + dot);
    DigitRunUnique(q, s, dot, dot);
  }

  lemma FileNameInjective(a: nat, b: nat, c: nat, d: nat)
    requires FileName(a, b) == FileName(c, d)
    ensures a == c && b == d
  {
    assert Ascii(".jsonl")[0] == 46;
    hide Ascii, Pad12;
    TwoRunsUnique(Ascii("audit-segment-"), Pad12(a), Pad12(b), Pad12(c), Pad12(d), Ascii(".jsonl"));
    Pad12Injective(a, c);
    Pad12Injective(b, d);
  }

  // ---------- reading a file back ----------

  function LineEnd(data: Bytes): (n: nat)
    ensures n <= |data|
    ensures NEWLINE !in data[..n]
    ensures n < |data| ==> data[n] == NEWLINE
  {
    if data == [] || data[0] == NEWLINE then 0 else
      var n := 1 + LineEnd(data[1..]);
      assert data[..n] == [data[0]] + data[1..][..n - 1];
      n
  }

  function DropCarriageReturn(line: Bytes): Bytes {
    if line != [] && line[|line| - 1] == 13 then line[..|line| - 1] else line
  }

  /** bufio.ScanLines over the whole file. */
  function SplitLines(data: Bytes): seq<Bytes>
    decreases |data|
  {
    if data == [] then []
    else
      var n := LineEnd(data);
      [DropCarriageReturn(data[..n])] + if n < |data| then SplitLines(data[n + 1..]) else []
  }

  /** The longest line, without its line feed, that a scanner of 16 MiB takes. */
  const ARCHIVE_LINE_LIMIT: nat := 16 * 1024 * 1024

  /** What a bufio.Scanner with a buffer of `limit` bytes yields: it gives up at the first line that does not fit. */
  function ScanLines(data: Bytes, limit: nat): seq<Bytes>
    decreases |data|
  {
    if data == [] || LineEnd(data) >= limit then []
    else
      var n := LineEnd(data);
      [DropCarriageReturn(data[..n])] + if n < |data| then ScanLines(data[n + 1..], limit) else []
  }

  /** It reaches the end of the data. */
  predicate LinesFit(data: Bytes, limit: nat)
    decreases |data|
  {
    data == [] || (LineEnd(data) < limit && (LineEnd(data) < |data| ==> LinesFit(data[LineEnd(data) + 1..], limit)))
  }

  lemma {:induction false} ScanOfFitting(data: Bytes, limit: nat)
    requires LinesFit(data, limit)
    ensures ScanLines(data, limit) == SplitLines(data)
    decreases |data|
  {
    hide LineEnd, DropCarriageReturn;
    if data != [] && LineEnd(data) < |data| {
      ScanOfFitting(data[LineEnd(data) + 1..], limit);
    }
  }

  predicate OneLine(line: Bytes) {
    NEWLINE !in line && (line == [] || line[|line| - 1] != 13)
  }

  lemma {:induction false} LineEndOf(line: Bytes, rest: Bytes)
    requires NEWLINE !in line
    ensures LineEnd(line + [NEWLINE] + rest) == |line|
  {
    var data := line + [NEWLINE] + rest;
    if line != [] {
      LineEndOf(line[1..], rest);
      assert data[1..] == line[1..] + [NEWLINE] + rest;
    }
  }

  lemma SplitFirstLine(line: Bytes, rest: Bytes)
    requires OneLine(line)
    ensures SplitLines(line + [NEWLINE] + rest) == [line] + SplitLines(rest)
  {
    hide LineEnd;
    var data := line + [NEWLINE] + rest;
    LineEndOf(line, rest);
    assert data[..|line|] == line && data[|line| + 1..] == rest;
  }

  lemma {:induction false} SplitFileOf(lines: seq<Bytes>)
    requires forall i :: 0 <= i < |lines| ==> OneLine(lines[i])
    ensures SplitLines(FileOf(lines)) == lines
  {
    if lines != [] {
      SplitFileOf(lines[1..]);
      hide SplitLines;
      assert OneLine(lines[0]);
      SplitFirstLine(lines[0], FileOf(lines[1..]));
    }
  }

  /** The lines before the first one that does not fit. */
  function Fitting(lines: seq<Bytes>, limit: nat): (r: seq<Bytes>)
    ensures r <= lines
    ensures r == lines <==> ShortLines(lines, limit)
  {
    if lines == [] || |lines[0]| >= limit then [] else [lines[0]] + Fitting(lines[1..], limit)
  }

  predicate ShortLines(lines: seq<Bytes>, limit: nat) {
    forall i :: 0 <= i < |lines| ==> |lines[i]| < limit
  }

  lemma {:induction false} ScanFileOf(lines: seq<Bytes>, limit: nat)
    requires forall i :: 0 <= i < |lines| ==> OneLine(lines[i])
    ensures ScanLines(FileOf(lines), limit) == Fitting(lines, limit)
    ensures LinesFit(FileOf(lines), limit) <==> ShortLines(lines, limit)
  {
    if lines != [] {
      hide LineEnd;
      var line, rest := lines[0], FileOf(lines[1..]);
      var data := line + [NEWLINE] + rest;
      ScanFileOf(lines[1..], limit);
      assert OneLine(line);
      LineEndOf(line, rest);
      assert data[..|line|] == line && data[|line| + 1..] == rest;
      assert ShortLines(lines, limit) <==> |line| < limit && ShortLines(lines[1..], limit) by {
        assert forall i :: 1 <= i < |lines| ==> lines[i] == lines[1..][i - 1];
      }
    }
  }

  predicate MatchesAt(s: Bytes, t: Bytes, p: nat) {
    p + |t| <= |s| && s[p..p + |t|] == t
  }

  /** bytes.Contains. */
  predicate Contains(s: Bytes, t: Bytes) {
    exists p | 0 <= p <= |s| :: MatchesAt(s, t, p)
  }

  datatype Header = Header(kind: Bytes, firstSeq: int, lastSeq: int, firstPrevHash: Bytes)

  datatype Footer = Footer(lastHash: Bytes, count: int)

  function ParseHeader(line: Bytes): Option<Header> {
    var ms :- DecodeObject(line);
    var kind :- StrAt(ms, TYPE_KEY);
    var version :- NumAt(ms, VERSION_KEY);
    var algorithm :- StrAt(ms, ALGORITHM_KEY);
    var first :- NumAt(ms, FIRST_SEQ_KEY);
    var last :- NumAt(ms, LAST_SEQ_KEY);
    var prev :- StrAt(ms, FIRST_PREV_HASH_KEY);
    var count :- NumAt(ms, COUNT_KEY);
    Some(Header(kind, first, last, prev))
  }

  function ParseFooter(line: Bytes): Option<Footer> {
    var ms :- DecodeObject(line);
    var kind :- StrAt(ms, TYPE_KEY);
    var lastHash :- StrAt(ms, LAST_HASH_KEY);
    var count :- NumAt(ms, COUNT_KEY);
    Some(Footer(lastHash, count))
  }

  datatype Outcome =
    | ArchiveOk | ArchiveMissing | ArchiveUnreadable | ContentMismatch | EmptyArchive | BadHeader | HeaderMismatch
    | BadFooter | FooterMismatch | BadRow | ChainBroken | MissingFooter

  /** The rows of the file, then its footer. */
  function ScanRows(h: Hash, lines: seq<Bytes>, exp: int, prev: Bytes, n: nat, seg: Segment): Outcome
    decreases |lines|
  {
    if lines == [] then MissingFooter
    else if Contains(lines[0], FOOTER_MARK) then
      match ParseFooter(lines[0])
      case None => BadFooter
      case Some(f) =>
        if f.count != n || n != seg.recordCount || f.lastHash != prev || prev != seg.lastHash then FooterMismatch
        else ArchiveOk
    else
      match DecodeRow(lines[0])
      case None => BadRow
      case Some(r) =>
        if r.seqNo != exp || r.prevHash != prev || r.hash != ComputeHash(h, r) then ChainBroken
        else ScanRows(h, lines[1..], r.seqNo + 1, r.hash, n + 1, seg)
  }

  function CheckArchive(h: Hash, data: Bytes, seg: Segment): Outcome {
    var lines := ScanLines(data, ARCHIVE_LINE_LIMIT);
    if h(data) != seg.fileSM3 then ContentMismatch
    else if lines == [] then EmptyArchive
    else
      match ParseHeader(lines[0])
      case None => BadHeader
      case Some(hd) =>
        if hd.kind != HEADER_TYPE then BadHeader
        else if hd.firstSeq != seg.firstSeq || hd.lastSeq != seg.lastSeq || hd.firstPrevHash != seg.firstPrevHash then
          HeaderMismatch
        else ScanRows(h, lines[1..], hd.firstSeq, hd.firstPrevHash, 0, seg)
  }

  const SLASH: byte := 47
  const DOT: byte := 46

  /** Behind the last slash. */
  function LastElement(path: Bytes): Bytes {
    if path == [] || path[|path| - 1] == SLASH then [] else LastElement(path[..|path| - 1]) + [path[|path| - 1]]
  }

  /** filepath.Base: whatever path a segment record names, only a name inside the directory is opened. */
  function Base(path: Bytes): Bytes {
    if path == [] then [DOT]
    else if path[|path| - 1] != SLASH then LastElement(path)
    else if |path| == 1 then path
    else Base(path[..|path| - 1])
  }

  /** The names that lead to a directory instead of a file. */
  predicate NamesDirectory(name: Bytes) {
    name == [DOT] || name == [DOT, DOT] || name == [SLASH]
  }

  lemma {:induction false} PlainLastElement(path: Bytes)
    requires SLASH !in path
    ensures LastElement(path) == path
  {
    if path != [] {
      PlainLastElement(path[..|path| - 1]);
    }
  }

  /** The names that archiveOne gives are opened as they are. */
  lemma BaseOfFileName(first: nat, last: nat)
    ensures Base(FileName(first, last)) == FileName(first, last) && !NamesDirectory(FileName(first, last))
  {
    var pre, post := Ascii("audit-segment-"), Ascii(".jsonl");
    assert SLASH !in pre && SLASH !in post && |pre| == 14 && post[5] == 108;
    hide Ascii, Pad12;
    assert SLASH !in Pad12(first) && SLASH !in Pad12(last);
    var name := FileName(first, last);
    assert SLASH !in name && name[|name| - 1] == post[5];
    PlainLastElement(name);
  }

  /** VerifyArchiveFile against a directory of files. */
  function CheckFile(h: Hash, dir: map<Bytes, Bytes>, seg: Segment): Outcome {
    var name := Base(seg.fileName);
    if NamesDirectory(name) then ArchiveUnreadable
    else if name in dir then CheckArchive(h, dir[name], seg)
    else ArchiveMissing
  }

  method VerifyArchiveFile(h: Hash, dir: map<Bytes, Bytes>, seg: Segment) returns (r: Outcome)
    ensures r == CheckFile(h, dir, seg)
  {
    hide ScanLines, DecodeRow, ParseHeader, ParseFooter, ComputeHash, Contains, Base, NamesDirectory;
    var name := Base(seg.fileName);
    if NamesDirectory(name) {
      return ArchiveUnreadable;
    }
    if name !in dir {
      return ArchiveMissing;
    }
    var data := dir[name];
    if h(data) != seg.fileSM3 {
      return ContentMismatch;
    }
    var lines := ScanLines(data, ARCHIVE_LINE_LIMIT);
    if lines == [] {
      return EmptyArchive;
    }
    var header := ParseHeader(lines[0]);
    if header.None? || header.value.kind != HEADER_TYPE {
      return BadHeader;
    }
    var hd := header.value;
    if hd.firstSeq != seg.firstSeq || hd.lastSeq != seg.lastSeq || hd.firstPrevHash != seg.firstPrevHash {
      return HeaderMismatch;
    }
    var exp, prev, n := hd.firstSeq, hd.firstPrevHash, 0;
    var rest := lines[1..];
    while rest != []
      invariant ScanRows(h, rest, exp, prev, n, seg) == CheckFile(h, dir, seg)
      decreases |rest|
    {
      var line := rest[0];
      if Contains(line, FOOTER_MARK) {
        var f := ParseFooter(line);
        if f.None? {
          return BadFooter;
        }
        if f.value.count != n || n != seg.recordCount || f.value.lastHash != prev || prev != seg.lastHash {
          return FooterMismatch;
        }
        return ArchiveOk;
      }
      var row := DecodeRow(line);
      if row.None? {
        return BadRow;
      }
      var r0 := row.value;
      if r0.seqNo != exp || r0.prevHash != prev || r0.hash != ComputeHash(h, r0) {
        return ChainBroken;
      }
      exp, prev, n := r0.seqNo + 1, r0.hash, n + 1;
      rest := rest[1..];
    }
    r := MissingFooter;
  }
}
