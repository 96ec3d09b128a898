/** The local spool (internal/audit/spool.go): a capped active file, rotated files, and how they are read back. */
module Spool {
  import opened ByteStrings
  import opened Chain
  import opened Options
  import opened Json
  import opened ArchiveFile
  import opened ArchiveRoundTrip
  import opened LineLengths
  import ArchiveFormat
  import Utf8

  /** A spooled event: seq, prev_hash and hash are not yet assigned. */
  function SpoolRow(c: Content): Row {
    Row(0, c, [], [])
  }

  function SpoolLines(rows: seq<Content>): (lines: seq<Bytes>)
    ensures |lines| == |rows|
  {
    seq(|rows|, i requires 0 <= i < |rows| => EncodeRow(SpoolRow(rows[i])))
  }

  /** What append writes. */
  function SpoolBytes(rows: seq<Content>): Bytes {
    FileOf(SpoolLines(rows))
  }

  // ---------- reading ----------

  /** A line of white space. */
  predicate Blank(line: Bytes) {
    forall i :: 0 <= i < |line| ==> line[i] == 32 || 9 <= line[i] <= 13
  }

  /** The event on a line; None for a blank, torn or corrupt one. */
  function LineEvent(line: Bytes): Option<Content> {
    if Blank(line) then None
    else
      match DecodeRow(line)
      case None => None
      case Some(r) => if r.content.eventId == [] then None else Some(r.content)
  }

  function LinesEvents(lines: seq<Bytes>): seq<Content> {
    if lines == [] then []
    else
      var n := |lines| - 1;
      var e := LineEvent(lines[n]);
      LinesEvents(lines[..n]) + if e.Some? then [e.value] else []
  }

  function ReadSpool(data: Bytes): seq<Content> {
    LinesEvents(SplitLines(data))
  }

  /** The lines that are neither blank nor an event. */
  function BadLines(lines: seq<Bytes>): nat {
    if lines == [] then 0
    else
      var n := |lines| - 1;
      BadLines(lines[..n]) + if Blank(lines[n]) || LineEvent(lines[n]).Some? then 0 else 1
  }

  /** The lines of white space only. */
  function BlankLines(lines: seq<Bytes>): nat {
    if lines == [] then 0 else (if OnlySpace(lines[0]) then 1 else 0) + BlankLines(lines[1..])
  }

  predicate OnlySpace(line: Bytes) {
    forall b :: b in line ==> IsWhiteSpace(b)
  }

  lemma BlankIsSpace(line: Bytes)
    ensures Blank(line) <==> OnlySpace(line)
  {
    if OnlySpace(line) {
      forall i | 0 <= i < |line| ensures line[i] == 32 || 9 <= line[i] <= 13 {
        assert IsWhiteSpace(line[i]);
      }
    }
  }

  predicate IsWhiteSpace(b: byte) {
    b == 9 || b == 10 || b == 11 || b == 12 || b == 13 || b == 32
  }

  lemma {:induction false} BlankLinesConcat(a: seq<Bytes>, line: Bytes)
    ensures BlankLines(a + [line]) == BlankLines(a) + if Blank(line) then 1 else 0
  {
    BlankIsSpace(line);
    hide Blank, OnlySpace;
    if a == [] {
      assert [line][1..] == [] && [] + [line] == [line];
    } else {
      assert (a + [line])[1..] == a[1..] + [line];
      BlankLinesConcat(a[1..], line);
    }
  }

  /** Every line is an event, bad, or blank. */
  lemma {:induction false} LinesAreCounted(lines: seq<Bytes>)
    ensures |LinesEvents(lines)| + BadLines(lines) + BlankLines(lines) == |lines|
  {
    hide Blank, DecodeRow;
    if lines != [] {
      var n := |lines| - 1;
      assert lines == lines[..n] + [lines[n]];
      LinesAreCounted(lines[..n]);
      BlankLinesConcat(lines[..n], lines[n]);
    }
  }

  /** The longest line, without its line feed, that the spool's scanner takes. */
  const SPOOL_LINE_LIMIT: nat := 4 * 1024 * 1024

  /** readSpoolFile: a line that does not fit the scanner ends the reading with an error. */
  method ReadSpoolFile(data: Bytes) returns (rows: seq<Content>, bad: nat, ok: bool)
    ensures ok <==> LinesFit(data, SPOOL_LINE_LIMIT)
    ensures var lines := ScanLines(data, SPOOL_LINE_LIMIT);
            rows == LinesEvents(lines) && bad == BadLines(lines)
    ensures ok ==> rows == ReadSpool(data) && bad == BadLines(SplitLines(data))
  {
    hide Blank, DecodeRow, LinesFit, ScanLines;
    var lines := ScanLines(data, SPOOL_LINE_LIMIT);
    rows, bad := [], 0;
    for i := 0 to |lines|
      invariant rows == LinesEvents(lines[..i]) && bad == BadLines(lines[..i])
    {
      assert lines[..i + 1][..i] == lines[..i];
      if Blank(lines[i]) {
        continue;
      }
      var r := DecodeRow(lines[i]);
      if r.None? || r.value.content.eventId == [] {
        bad := bad + 1;
        continue;
      }
      rows := rows + [r.value.content];
    }
    assert lines[..|lines|] == lines;
    ok := LinesFit(data, SPOOL_LINE_LIMIT);
    if ok {
      ScanOfFitting(data, SPOOL_LINE_LIMIT);
    }
  }

  // ---------- what was written is read back ----------

  /** The file is empty or its last line is complete. */
  predicate Closed(data: Bytes) {
    data == [] || data[|data| - 1] == NEWLINE
  }

  lemma {:induction false} LineEndOfConcat(a: Bytes, b: Bytes)
    requires NEWLINE in a
    ensures LineEnd(a + b) == LineEnd(a) < |a|
  {
    if a[0] != NEWLINE {
      assert a == [a[0]] + a[1..];
      LineEndOfConcat(a[1..], b);
      assert (a + b)[1..] == a[1..] + b;
    }
  }

  lemma {:induction false} SplitConcat(a: Bytes, b: Bytes)
    requires Closed(a)
    ensures SplitLines(a + b) == SplitLines(a) + SplitLines(b)
    decreases |a|
  {
    hide LineEnd;
    if a == [] {
      assert a + b == b;
    } else {
      var n := LineEnd(a);
      LineEndOfConcat(a, b);
      assert (a + b)[..n] == a[..n] && (a + b)[n + 1..] == a[n + 1..] + b;
      SplitConcat(a[n + 1..], b);
    }
  }

  lemma {:induction false} EventsOfConcat(a: seq<Bytes>, b: seq<Bytes>)
    ensures LinesEvents(a + b) == LinesEvents(a) + LinesEvents(b)
    decreases |b|
  {
    hide LineEvent;
    if b == [] {
      assert a + b == a;
    } else {
      var n := |b| - 1;
      assert (a + b)[..|a| + n] == a + b[..n] && (a + b)[|a| + n] == b[n];
      EventsOfConcat(a, b[..n]);
    }
  }

  /** The event as the spool carries it. */
  function SanitizeContent(c: Content): Content {
    SanitizeRow(SpoolRow(c)).content
  }

  function SanitizeAll(rows: seq<Content>): (r: seq<Content>)
    ensures |r| == |rows|
  {
    seq(|rows|, i requires 0 <= i < |rows| => SanitizeContent(rows[i]))
  }

  /** An event id that survives: the random ids of Record do. */
  predicate IdOk(c: Content) {
    c.eventId != [] && Utf8.Valid(c.eventId)
  }

  predicate IdsOk(rows: seq<Content>) {
    forall i :: 0 <= i < |rows| ==> IdOk(rows[i])
  }

  lemma EncodedLine(c: Content)
    requires IdOk(c)
    ensures LineEvent(EncodeRow(SpoolRow(c))) == Some(SanitizeContent(c))
    ensures SanitizeContent(c).eventId == c.eventId
    ensures OneLine(EncodeRow(SpoolRow(c)))
  {
    hide DecodeRow, Sanitize, EncodeObject, Zip, RowValues, OneLine;
    DecodeEncodeRow(SpoolRow(c));
    RowIsNotFooter(SpoolRow(c));
    assert EncodeRow(SpoolRow(c))[0] == OPEN by { StartsOpen(SpoolRow(c)); }
  }

  lemma StartsOpen(r: Row)
    ensures EncodeRow(r) != [] && EncodeRow(r)[0] == OPEN
  {
    hide EncodeMembers, Zip, RowValues;
  }

  lemma {:induction false} WrittenEvents(rows: seq<Content>)
    requires IdsOk(rows)
    ensures LinesEvents(SpoolLines(rows)) == SanitizeAll(rows)
    ensures forall i :: 0 <= i < |rows| ==> OneLine(SpoolLines(rows)[i])
  {
    hide LineEvent, EncodeRow, SanitizeContent, OneLine, IdOk;
    if rows != [] {
      var n := |rows| - 1;
      WrittenEvents(rows[..n]);
      assert SpoolLines(rows)[..n] == SpoolLines(rows[..n]) && SanitizeAll(rows)[..n] == SanitizeAll(rows[..n]);
      EncodedLine(rows[n]);
      forall i | 0 <= i < |rows| ensures OneLine(SpoolLines(rows)[i]) {
        if i < n {
          assert SpoolLines(rows[..n])[i] == SpoolLines(rows)[i];
        }
      }
    }
  }

  /** The line of a spooled event says its columns, and that seq, link and hash are not assigned. */
  lemma SpoolLineSays(c: Content) returns (ms: seq<Member>)
    ensures DecodeObject(SpoolLines([c])[0]) == Some(ms) && ArchiveFormat.SaysRow(ms, Row(0, c, [], []))
  {
    hide EncodeRow, DecodeObject, ArchiveFormat.SaysRow;
    ms := ArchiveFormat.RowLineSays(SpoolRow(c));
  }

  lemma {:induction false} FileOfIsClosed(lines: seq<Bytes>)
    ensures Closed(FileOf(lines))
  {
    if lines != [] {
      FileOfIsClosed(lines[1..]);
    }
  }

  lemma ClosedConcat(a: Bytes, b: Bytes)
    requires Closed(a) && Closed(b)
    ensures Closed(a + b)
  {
  }

  /** Events appended to a closed file are read back behind what was there, whatever their text. */
  lemma AppendedIsRead(data: Bytes, rows: seq<Content>)
    requires Closed(data) && IdsOk(rows)
    ensures Closed(data + SpoolBytes(rows))
    ensures ReadSpool(data + SpoolBytes(rows)) == ReadSpool(data) + SanitizeAll(rows)
  {
    hide SplitLines, LinesEvents, SpoolLines, FileOf, IdsOk, Closed;
    WrittenEvents(rows);
    SplitFileOf(SpoolLines(rows));
    SplitConcat(data, SpoolBytes(rows));
    EventsOfConcat(SplitLines(data), SpoolLines(rows));
    FileOfIsClosed(SpoolLines(rows));
    ClosedConcat(data, SpoolBytes(rows));
  }

  /** A write torn off anywhere leaves everything before it readable. */
  lemma TornWriteKeepsEarlier(data: Bytes, torn: Bytes)
    requires Closed(data)
    ensures ReadSpool(data) <= ReadSpool(data + torn)
  {
    hide SplitLines, LinesEvents;
    SplitConcat(data, torn);
    EventsOfConcat(SplitLines(data), SplitLines(torn));
  }

  lemma OneLineFile(line: Bytes)
    ensures FileOf([line]) == line + [NEWLINE]
  {
    assert [line][1..] == [];
  }

  lemma NthSpoolLine(rows: seq<Content>, j: nat)
    requires j < |rows|
    ensures SpoolLines(rows)[j] == EncodeRow(SpoolRow(rows[j]))
  {
  }

  /** Appended lines never make a spool file unreadable as long as each of them fits the scanner. */
  lemma AppendedFits(data: Bytes, rows: seq<Content>)
    requires Closed(data)
    ensures LinesFit(data + SpoolBytes(rows), 4 * 1024 * 1024)
       <==> LinesFit(data, 4 * 1024 * 1024) && ShortLines(SpoolLines(rows), 4 * 1024 * 1024)
  {
    hide LinesFit, SpoolLines, FileOf, Closed, ShortLines, OneLine;
    FitConcat(data, SpoolBytes(rows), SPOOL_LINE_LIMIT);
    forall i | 0 <= i < |SpoolLines(rows)| ensures OneLine(SpoolLines(rows)[i]) {
      NthSpoolLine(rows, i);
      RowIsNotFooter(SpoolRow(rows[i]));
    }
    ScanFileOf(SpoolLines(rows), SPOOL_LINE_LIMIT);
  }

  /** The contents of a file that only whole writes have made. */
  function WholeWrites(writes: seq<seq<Content>>): Bytes {
    if writes == [] then [] else WholeWrites(writes[..|writes| - 1]) + SpoolBytes(writes[|writes| - 1])
  }

  predicate BoundedEvents(rows: seq<Content>) {
    forall i :: 0 <= i < |rows| ==> Bounded(rows[i])
  }

  lemma BoundedAppendFits(data: Bytes, rows: seq<Content>)
    requires Closed(data) && LinesFit(data, SPOOL_LINE_LIMIT) && BoundedEvents(rows)
    ensures Closed(data + SpoolBytes(rows)) && LinesFit(data + SpoolBytes(rows), SPOOL_LINE_LIMIT)
  {
    hide LinesFit, EncodeRow, FileOf, Bounded;
    forall i | 0 <= i < |rows| ensures |SpoolLines(rows)[i]| < SPOOL_LINE_LIMIT {
      NthSpoolLine(rows, i);
      RowLineLength(SpoolRow(rows[i]));
    }
    AppendedFits(data, rows);
    FileOfIsClosed(SpoolLines(rows));
    ClosedConcat(data, SpoolBytes(rows));
  }

  /** Recorded events never make such a file unreadable. */
  lemma {:induction false} WholeWritesFit(writes: seq<seq<Content>>)
    requires forall i :: 0 <= i < |writes| ==> BoundedEvents(writes[i])
    ensures Closed(WholeWrites(writes)) && LinesFit(WholeWrites(writes), SPOOL_LINE_LIMIT)
  {
    hide LinesFit, BoundedEvents, Closed, SpoolBytes;
    if writes == [] {
      assert Closed([]) && LinesFit([], SPOOL_LINE_LIMIT) by { NothingFits(); }
    } else {
      WholeWritesFit(writes[..|writes| - 1]);
      BoundedAppendFits(WholeWrites(writes[..|writes| - 1]), writes[|writes| - 1]);
    }
  }

  lemma NothingFits()
    ensures Closed([]) && LinesFit([], SPOOL_LINE_LIMIT)
  {
  }

  lemma {:induction false} FitConcat(a: Bytes, b: Bytes, limit: nat)
    requires Closed(a)
    ensures LinesFit(a + b, limit) <==> LinesFit(a, limit) && LinesFit(b, limit)
    decreases |a|
  {
    hide LineEnd;
    if a == [] {
      assert a + b == b;
    } else {
      var n := LineEnd(a);
      LineEndOfConcat(a, b);
      assert (a + b)[n + 1..] == a[n + 1..] + b;
      FitConcat(a[n + 1..], b, limit);
    }
  }

  // ---------- the directory ----------

  /** A rotated file; `name` is the timestamp its name carries. */
  datatype SpoolFile = SpoolFile(name: int, data: Bytes)

  datatype SpoolState = SpoolState(active: Bytes, rotated: seq<SpoolFile>)

  function TotalSize(files: seq<SpoolFile>): nat {
    if files == [] then 0 else TotalSize(files[..|files| - 1]) + |files[|files| - 1].data|
  }

  function Size(s: SpoolState): nat {
    |s.active| + TotalSize(s.rotated)
  }

  /** All that the rotated files hold. */
  function AllData(files: seq<SpoolFile>): Bytes {
    if files == [] then [] else AllData(files[..|files| - 1]) + files[|files| - 1].data
  }

  /** The size is that of everything on disk. */
  lemma {:induction false} SizeOfAll(s: SpoolState)
    ensures Size(s) == |s.active + AllData(s.rotated)|
    decreases |s.rotated|
  {
    if s.rotated != [] {
      SizeOfAll(s.(rotated := s.rotated[..|s.rotated| - 1]));
    }
  }

  /** What becomes of a write: all of it, nothing, or its first n bytes and an error. */
  datatype Write = Whole | Unwritten | Torn(n: nat)

  datatype Appended = Appended(spool: SpoolState, ok: bool)

  function FirstBytes(data: Bytes, n: nat): (r: Bytes)
    ensures r <= data
  {
    if n <= |data| then data[..n] else data
  }

  function SpoolAppend(s: SpoolState, rows: seq<Content>, maxBytes: int, write: Write): Appended {
    var buf := SpoolBytes(rows);
    if maxBytes > 0 && Size(s) + |buf| > maxBytes then Appended(s, false)
    else
      match write
      case Whole => Appended(s.(active := s.active + buf), true)
      case Unwritten => Appended(s, false)
      case Torn(n) => Appended(s.(active := s.active + FirstBytes(buf, n)), false)
  }

  function FileIndex(files: seq<SpoolFile>, name: int): Option<nat> {
    if files == [] then None
    else
      var n := |files| - 1;
      if files[n].name == name then Some(n) else FileIndex(files[..n], name)
  }

  function RemoveFile(files: seq<SpoolFile>, name: int): seq<SpoolFile> {
    if files == [] then []
    else
      var n := |files| - 1;
      RemoveFile(files[..n], name) + if files[n].name == name then [] else [files[n]]
  }

  /** Into its place in name order. */
  function InsertFile(files: seq<SpoolFile>, f: SpoolFile): seq<SpoolFile> {
    if files == [] || files[|files| - 1].name < f.name then files + [f]
    else InsertFile(files[..|files| - 1], f) + [files[|files| - 1]]
  }

  /** Rename, which replaces a file of that name. */
  function Rotated(s: SpoolState, now: int): SpoolState {
    if s.active == [] then s
    else SpoolState([], InsertFile(RemoveFile(s.rotated, now), SpoolFile(now, s.active)))
  }

  function Names(files: seq<SpoolFile>): (names: seq<int>)
    ensures |names| == |files|
  {
    seq(|files|, i requires 0 <= i < |files| => files[i].name)
  }

  lemma {:induction false} RemovedSize(files: seq<SpoolFile>, name: int)
    ensures TotalSize(RemoveFile(files, name)) <= TotalSize(files)
  {
    if files != [] {
      var init, rest := files[..|files| - 1], RemoveFile(files[..|files| - 1], name);
      RemovedSize(init, name);
      assert (rest + [files[|files| - 1]])[..|rest|] == rest && rest + [] == rest;
    }
  }

  lemma {:induction false} RemovedFiles(files: seq<SpoolFile>, name: int, f: SpoolFile)
    ensures f in RemoveFile(files, name) <==> f in files && f.name != name
  {
    if files != [] {
      var init, last := files[..|files| - 1], files[|files| - 1];
      RemovedFiles(init, name, f);
      assert f in files <==> f in init || f == last;
    }
  }

  lemma {:induction false} InsertedFile(files: seq<SpoolFile>, f: SpoolFile)
    ensures TotalSize(InsertFile(files, f)) == TotalSize(files) + |f.data|
    ensures forall x :: x in InsertFile(files, f) <==> x in files || x == f
  {
    if files != [] && files[|files| - 1].name >= f.name {
      InsertedFile(files[..|files| - 1], f);
      assert files == files[..|files| - 1] + [files[|files| - 1]];
    }
  }

  predicate InNameOrder(files: seq<SpoolFile>) {
    forall i, j :: 0 <= i < j < |files| ==> files[i].name < files[j].name
  }

  lemma {:induction false} RemoveKeepsOrder(files: seq<SpoolFile>, name: int)
    requires InNameOrder(files)
    ensures InNameOrder(RemoveFile(files, name))
  {
    if files != [] {
      var init := files[..|files| - 1];
      RemoveKeepsOrder(init, name);
      forall i | 0 <= i < |RemoveFile(init, name)| ensures RemoveFile(init, name)[i] in init {
        RemovedFiles(init, name, RemoveFile(init, name)[i]);
      }
    }
  }

  lemma {:induction false} InsertKeepsOrder(files: seq<SpoolFile>, f: SpoolFile)
    requires InNameOrder(files) && forall x :: x in files ==> x.name != f.name
    ensures InNameOrder(InsertFile(files, f))
  {
    hide InNameOrder;
    if files == [] || files[|files| - 1].name < f.name {
      LastInOrder(files, f);
    } else {
      var init, last := files[..|files| - 1], files[|files| - 1];
      assert files == init + [last];
      FrontInOrder(files);
      InsertKeepsOrder(init, f);
      InsertedFile(init, f);
      LastInOrder(InsertFile(init, f), last);
    }
  }

  lemma FrontInOrder(files: seq<SpoolFile>)
    requires InNameOrder(files) && files != []
    ensures InNameOrder(files[..|files| - 1])
    ensures forall x :: x in files[..|files| - 1] ==> x.name < files[|files| - 1].name
  {
  }

  lemma LastInOrder(files: seq<SpoolFile>, last: SpoolFile)
    requires InNameOrder(files) && (files != [] ==> files[|files| - 1].name < last.name)
    ensures InNameOrder(files + [last])
  {
  }

  /** Rotated files stay in the order of their names, which is the order in which they are replayed. */
  lemma RotationKeepsOrder(s: SpoolState, now: int)
    requires InNameOrder(s.rotated)
    ensures InNameOrder(Rotated(s, now).rotated)
  {
    hide InsertFile, RemoveFile, InNameOrder;
    RemoveKeepsOrder(s.rotated, now);
    forall x | x in RemoveFile(s.rotated, now) ensures x.name != now {
      RemovedFiles(s.rotated, now, x);
    }
    InsertKeepsOrder(RemoveFile(s.rotated, now), SpoolFile(now, s.active));
  }

  /** A rotation moves the active file, as it is, under the new name; the other files stay. */
  lemma RotatedFiles(s: SpoolState, now: int, f: SpoolFile)
    requires s.active != []
    ensures Rotated(s, now).active == []
    ensures f in Rotated(s, now).rotated <==> f == SpoolFile(now, s.active) || (f in s.rotated && f.name != now)
  {
    hide InsertFile, RemoveFile;
    RemovedFiles(s.rotated, now, f);
    InsertedFile(RemoveFile(s.rotated, now), SpoolFile(now, s.active));
  }

  /** The cap holds across every operation. */
  predicate Capped(s: SpoolState, maxBytes: int) {
    maxBytes > 0 ==> Size(s) <= maxBytes
  }

  lemma SpoolStaysCapped(s: SpoolState, maxBytes: int, rows: seq<Content>, write: Write, now: int, name: int)
    requires Capped(s, maxBytes)
    ensures Capped(SpoolAppend(s, rows, maxBytes, write).spool, maxBytes)
    ensures Capped(Rotated(s, now), maxBytes)
    ensures Capped(s.(rotated := RemoveFile(s.rotated, name)), maxBytes)
  {
    hide SpoolBytes, InsertFile, RemoveFile;
    RemovedSize(s.rotated, now);
    RemovedSize(s.rotated, name);
    InsertedFile(RemoveFile(s.rotated, now), SpoolFile(now, s.active));
  }

  /** The spool as an object; a mutex makes each of its methods one step. */
  class Directory {
    const maxBytes: int
    var active: Bytes
    var rotated: seq<SpoolFile>

    constructor (maxBytes: int)
      ensures this.maxBytes == maxBytes && State() == SpoolState([], [])
    {
      this.maxBytes := maxBytes;
      active, rotated := [], [];
    }

    function State(): SpoolState
      reads this
    {
      SpoolState(active, rotated)
    }

    /** append: the lines are built first, then written under the cap. */
    method Append(rows: seq<Content>, write: Write) returns (ok: bool)
      modifies this`active
      ensures Appended(State(), ok) == SpoolAppend(old(State()), rows, maxBytes, write)
      ensures ok && old(Closed(active)) && IdsOk(rows) ==>
                Closed(active) && ReadSpool(active) == ReadSpool(old(active)) + SanitizeAll(rows)
    {
      hide EncodeRow, ReadSpool, TotalSize;
      var buf := [];
      for i := 0 to |rows|
        invariant unchanged(this) && buf == SpoolBytes(rows[..i])
      {
        var line := EncodeRow(SpoolRow(rows[i]));
        AppendLine(SpoolLines(rows[..i]), line);
        assert SpoolLines(rows[..i + 1]) == SpoolLines(rows[..i]) + [line];
        buf := buf + line + [NEWLINE];
      }
      assert rows[..|rows|] == rows;
      if Closed(active) && IdsOk(rows) {
        AppendedIsRead(active, rows);
      }
      if maxBytes > 0 && Size(State()) + |buf| > maxBytes {
        return false;
      }
      match write
      case Unwritten =>
        ok := false;
      case Torn(n) =>
        active := active + FirstBytes(buf, n);
        ok := false;
      case Whole =>
        active := active + buf;
        ok := true;
    }

    /** rotate: the pending files in name order. */
    method Rotate(now: int) returns (names: seq<int>)
      modifies this
      ensures State() == Rotated(old(State()), now) && names == Names(rotated)
      ensures InNameOrder(old(rotated)) ==> InNameOrder(rotated)
    {
      hide InNameOrder;
      if InNameOrder(rotated) {
        RotationKeepsOrder(State(), now);
      }
      if active != [] {
        rotated := InsertFile(RemoveFile(rotated, now), SpoolFile(now, active));
        active := [];
      }
      names := Names(rotated);
    }

    method Remove(name: int)
      modifies this`rotated
      ensures State() == old(State()).(rotated := RemoveFile(old(rotated), name))
    {
      rotated := RemoveFile(rotated, name);
    }
  }

  lemma {:induction false} AppendLine(lines: seq<Bytes>, line: Bytes)
    ensures FileOf(lines + [line]) == FileOf(lines) + line + [NEWLINE]
  {
    if lines == [] {
      assert [line][1..] == [];
    } else {
      AppendLine(lines[1..], line);
      assert (lines + [line])[1..] == lines[1..] + [line];
    }
  }
}
