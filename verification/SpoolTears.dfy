/** Torn writes: what a spool file holds after any of them, and which of the events appended behind are read back. */
module SpoolTears {
  import opened ByteStrings
  import opened Chain
  import opened FirstOccurrences
  import opened Options
  import opened Json
  import opened JsonCuts
  import opened ArchiveFile
  import opened ArchiveRoundTrip
  import opened AuditSteps
  import opened Spool

  // ---------- what tears leave behind ----------

  /** The first n bytes of an event's line. */
  datatype Piece = Piece(event: Content, n: nat)

  function PieceBytes(p: Piece): Bytes {
    FirstBytes(EncodeRow(SpoolRow(p.event)), p.n)
  }

  predicate PiecesOk(pieces: seq<Piece>) {
    forall i :: 0 <= i < |pieces| ==> 1 <= pieces[i].n <= |EncodeRow(SpoolRow(pieces[i].event))|
  }

  /** One write torn behind the other, without a line feed in between. */
  function Glue(pieces: seq<Piece>): Bytes {
    if pieces == [] then [] else PieceBytes(pieces[0]) + Glue(pieces[1..])
  }

  /** Complete lines of any kind, and behind them what tears left. */
  ghost predicate Appendable(data: Bytes) {
    exists base, pieces :: Closed(base) && PiecesOk(pieces) && data == base + Glue(pieces)
  }

  lemma ClosedIsAppendable(data: Bytes)
    requires Closed(data)
    ensures Appendable(data)
  {
    assert data == data + Glue([]) && PiecesOk([]);
  }

  lemma {:induction false} GlueOneMore(pieces: seq<Piece>, p: Piece)
    ensures Glue(pieces + [p]) == Glue(pieces) + PieceBytes(p)
    decreases |pieces|
  {
    hide PieceBytes;
    if pieces == [] {
      assert [p][1..] == [] && [] + [p] == [p];
    } else {
      GlueOneMore(pieces[1..], p);
      assert (pieces + [p])[1..] == pieces[1..] + [p];
    }
  }

  /** An opening brace, a quote and the first letter of a key. */
  predicate StartsObject(line: Bytes) {
    |line| >= 3 && line[0] == OPEN && line[1] == QUOTE && IsLetter(line[2])
  }

  lemma RowStartsObject(r: Row)
    ensures StartsObject(EncodeRow(r))
  {
    hide EncodeValue, RowValues;
    var ms := Zip(ROW_KEYS, RowValues(r));
    assert ms[0].key == SEQ_KEY && |SEQ_KEY| == 3 && IsLetter(SEQ_KEY[0]);
    hide SEQ_KEY, ROW_KEYS, Zip;
    StartsWithKey(ms);
  }

  lemma StartsWithKey(ms: seq<Member>)
    requires ms != [] && |ms[0].key| == 3 && IsLetter(ms[0].key[0])
    ensures StartsObject(EncodeObject(ms))
  {
    hide EncodeValue;
    var e := EncodeMember(ms[0]);
    assert e[0] == QUOTE && e[1] == ms[0].key[0];
    assert EncodeMembers(ms)[0] == e[0] && EncodeMembers(ms)[1] == e[1];
  }

  lemma RowBytes(r: Row)
    ensures OneLine(EncodeRow(r)) && CARRIAGE_RETURN !in EncodeRow(r)
  {
    hide EncodeMembers, RowValues, Ascii;
    RowIsNotFooter(r);
    RowKeysDistinct();
    var ms := Zip(ROW_KEYS, RowValues(r));
    EncodeMembersOneLine(ms);
    assert EncodeRow(r) == [OPEN] + EncodeMembers(ms);
  }

  lemma {:induction false} GlueBytes(pieces: seq<Piece>)
    ensures NEWLINE !in Glue(pieces) && CARRIAGE_RETURN !in Glue(pieces)
    decreases |pieces|
  {
    hide EncodeRow;
    if pieces != [] {
      RowBytes(SpoolRow(pieces[0].event));
      GlueBytes(pieces[1..]);
    }
  }

  lemma {:induction false} GlueStrays(pieces: seq<Piece>)
    requires PiecesOk(pieces)
    ensures Strays(Glue(pieces)) && (pieces != [] ==> Glue(pieces) != [])
    decreases |pieces|
  {
    hide EncodeRow, Strays;
    if pieces == [] {
      assert Strays([]) by { NothingStrays(); }
    } else {
      GlueStrays(pieces[1..]);
      RowStartsObject(SpoolRow(pieces[0].event));
      ObjectStartStrays(EncodeRow(SpoolRow(pieces[0].event)), Glue(pieces[1..]), pieces[0].n);
    }
  }

  lemma NothingStrays()
    ensures Strays([])
  {
  }

  /** Pieces glued together, and a part of a line alone, are no event. */
  lemma GlueIsNoEvent(pieces: seq<Piece>)
    requires PiecesOk(pieces) && pieces != []
    requires |pieces| >= 2 || pieces[0].n < |EncodeRow(SpoolRow(pieces[0].event))|
    ensures LineEvent(Glue(pieces)) == None
  {
    hide EncodeRow, DecodeObject, Blank, RowOfMembers, EncodeObject, Zip, RowValues, ROW_KEYS;
    var r := SpoolRow(pieces[0].event);
    GlueStrays(pieces[1..]);
    RowKeysDistinct();
    RowIsObject(r);
    CutObject(Zip(ROW_KEYS, RowValues(r)), pieces[0].n, Glue(pieces[1..]));
  }

  lemma RowIsObject(r: Row)
    ensures EncodeRow(r) == EncodeObject(Zip(ROW_KEYS, RowValues(r)))
    ensures |ROW_KEYS| == 16 && forall i :: 0 <= i < 16 ==> Zip(ROW_KEYS, RowValues(r))[i].key == ROW_KEYS[i]
  {
    hide Tag;
  }

  lemma LineAlone(line: Bytes)
    requires line != [] && NEWLINE !in line && CARRIAGE_RETURN !in line
    ensures LinesEvents(SplitLines(line)) == LinesEvents(SplitLines(line + [NEWLINE])) == LinesEvents([line])
  {
    hide LineEvent, LinesEvents, LineEnd;
    assert line + [NEWLINE] == line + [NEWLINE] + [];
    SplitFirstLine(line, []);
    assert SplitLines([]) == [] && [line] + [] == [line];
    NoLineEnd(line);
    assert line[..|line|] == line;
  }

  lemma {:induction false} NoLineEnd(line: Bytes)
    requires NEWLINE !in line
    ensures LineEnd(line) == |line|
  {
    if line != [] {
      NoLineEnd(line[1..]);
    }
  }

  lemma OneLineEvents(line: Bytes)
    ensures LinesEvents([line]) == if LineEvent(line).Some? then [LineEvent(line).value] else []
  {
    hide LineEvent;
    assert [line][..0] == [];
  }

  /** What is read of a file with pieces at its end: the lines before them, and a whole line that only lacks its line feed. */
  lemma ReadWithPieces(base: Bytes, pieces: seq<Piece>, end: Bytes)
    requires Closed(base) && PiecesOk(pieces) && pieces != [] && (end == [] || end == [NEWLINE])
    ensures ReadSpool(base + (Glue(pieces) + end))
         == ReadSpool(base) + if LineEvent(Glue(pieces)).Some? then [LineEvent(Glue(pieces)).value] else []
  {
    hide SplitLines, LinesEvents, LineEvent, Glue, PiecesOk;
    var line := Glue(pieces);
    GlueBytes(pieces);
    GlueStrays(pieces);
    LineAlone(line);
    OneLineEvents(line);
    assert line + [] == line;
    SplitConcat(base, line + end);
    EventsOfConcat(SplitLines(base), SplitLines(line + end));
  }

  // ---------- one write more ----------

  lemma FirstBytesAll(data: Bytes)
    ensures FirstBytes(data, |data|) == data
  {
  }

  lemma SpoolOfOne(c: Content)
    ensures SpoolBytes([c]) == EncodeRow(SpoolRow(c)) + [NEWLINE]
  {
    hide EncodeRow;
    assert SpoolLines([c]) == [EncodeRow(SpoolRow(c))];
    OneLineFile(EncodeRow(SpoolRow(c)));
  }

  lemma PiecesAreOpen(base: Bytes, pieces: seq<Piece>)
    requires PiecesOk(pieces) && pieces != []
    ensures !Closed(base + Glue(pieces))
  {
    hide Glue, PiecesOk;
    GlueBytes(pieces);
    GlueStrays(pieces);
    var g := Glue(pieces);
    assert (base + g)[|base + g| - 1] == g[|g| - 1];
  }

  /** A whole line glued to pieces is one piece more, and a line feed. */
  lemma GluedLine(pieces: seq<Piece>, c: Content)
    requires PiecesOk(pieces)
    ensures var all := pieces + [Piece(c, |EncodeRow(SpoolRow(c))|)];
            PiecesOk(all) && Glue(all) + [NEWLINE] == Glue(pieces) + SpoolBytes([c])
  {
    hide EncodeRow, SpoolBytes;
    var line := EncodeRow(SpoolRow(c));
    StartsOpen(SpoolRow(c));
    FirstBytesAll(line);
    GlueOneMore(pieces, Piece(c, |line|));
    SpoolOfOne(c);
    assert Glue(pieces) + (line + [NEWLINE]) == Glue(pieces) + line + [NEWLINE];
  }

  /** Behind pieces an event's line only lengthens the line that they spoil. */
  lemma BehindPieces(base: Bytes, pieces: seq<Piece>, c: Content)
    requires Closed(base) && PiecesOk(pieces) && pieces != []
    ensures var data := base + Glue(pieces);
            && ReadSpool(data + SpoolBytes([c])) == ReadSpool(base) <= ReadSpool(data)
            && Closed(data + SpoolBytes([c])) && !Closed(data)
  {
    hide ReadSpool, LineEvent, EncodeRow, SpoolBytes, Glue, PiecesOk, Closed;
    var all := pieces + [Piece(c, |EncodeRow(SpoolRow(c))|)];
    GluedLine(pieces, c);
    GlueIsNoEvent(all);
    ReadWithPieces(base, all, [NEWLINE]);
    assert base + Glue(pieces) + SpoolBytes([c]) == base + (Glue(all) + [NEWLINE]);
    assert Closed(base + (Glue(all) + [NEWLINE])) by { EndsClosed(base, Glue(all)); }
    PiecesAreOpen(base, pieces);
    TornWriteKeepsEarlier(base, Glue(pieces));
  }

  lemma EndsClosed(a: Bytes, b: Bytes)
    ensures Closed(a + (b + [NEWLINE]))
  {
  }

  /**
   After any history of whole and torn writes: the next event is read back behind what was there if and only if the
   file ends with a complete line; otherwise it is lost, and nothing else is gained.
   */
  lemma NextIsReadIff(data: Bytes, c: Content)
    requires Appendable(data) && IdOk(c)
    ensures ReadSpool(data + SpoolBytes([c])) == ReadSpool(data) + [SanitizeContent(c)] <==> Closed(data)
    ensures !Closed(data) ==> ReadSpool(data + SpoolBytes([c])) <= ReadSpool(data)
    ensures Closed(data + SpoolBytes([c]))
  {
    hide ReadSpool, PiecesOk, Glue, SpoolBytes, IdOk, SanitizeContent;
    var base, pieces :| Closed(base) && PiecesOk(pieces) && data == base + Glue(pieces);
    if pieces == [] {
      assert data == base by { NoPieces(base); }
    } else {
      BehindPieces(base, pieces, c);
    }
    if Closed(data) {
      assert IdsOk([c]);
      AppendedIsRead(data, [c]);
      assert SanitizeAll([c]) == [SanitizeContent(c)];
    }
  }

  lemma NoPieces(base: Bytes)
    ensures base + Glue([]) == base
  {
  }

  /** One more torn line. */
  lemma TornLine(data: Bytes, c: Content, n: nat)
    requires Appendable(data) && n <= |EncodeRow(SpoolRow(c))|
    ensures var data' := data + EncodeRow(SpoolRow(c))[..n];
            && Appendable(data')
            && (ReadSpool(data') <= ReadSpool(data)
                || (IdOk(c) ==> ReadSpool(data') == ReadSpool(data) + [SanitizeContent(c)]))
            && (Closed(data) ==> ReadSpool(data) <= ReadSpool(data'))
  {
    hide ReadSpool, PiecesOk, LineEvent, EncodeRow, SanitizeContent, IdOk;
    var line := EncodeRow(SpoolRow(c));
    if n == 0 {
      assert data + line[..0] == data;
    } else {
      var base, pieces :| Closed(base) && PiecesOk(pieces) && data == base + Glue(pieces);
      var all := pieces + [Piece(c, n)];
      GlueOneMore(pieces, Piece(c, n));
      assert PiecesOk(all) by { OneMoreOk(pieces, c, n); }
      assert data + line[..n] == base + Glue(all);
      ReadWithPieces(base, all, []);
      assert Glue(all) + [] == Glue(all);
      if pieces == [] {
        assert data == base;
        if n < |line| {
          GlueIsNoEvent(all);
        } else {
          assert Glue(all) == line;
          if IdOk(c) { EncodedLine(c); }
        }
      } else {
        GlueIsNoEvent(all);
        TornWriteKeepsEarlier(base, Glue(pieces));
      }
      if Closed(data) {
        TornWriteKeepsEarlier(data, line[..n]);
      }
    }
  }

  lemma OneMoreOk(pieces: seq<Piece>, c: Content, n: nat)
    requires PiecesOk(pieces) && 1 <= n <= |EncodeRow(SpoolRow(c))|
    ensures PiecesOk(pieces + [Piece(c, n)])
  {
    hide EncodeRow;
  }

  // ---------- any write ----------

  function SpooledIds(data: Bytes): set<Bytes> {
    Keys(EventId, ReadSpool(data))
  }

  lemma {:induction false} MoreEvents(a: seq<Content>, b: seq<Content>)
    requires a <= b
    ensures Keys(EventId, a) <= Keys(EventId, b)
  {
    assert b == a + b[|a|..];
    KeysConcat(EventId, a, b[|a|..]);
  }

  lemma OneMoreEvent(a: seq<Content>, c: Content)
    requires IdOk(c)
    ensures Keys(EventId, a + [SanitizeContent(c)]) == Keys(EventId, a) + {c.eventId}
  {
    hide SanitizeContent;
    EncodedLine(c);
    KeysConcat(EventId, a, [SanitizeContent(c)]);
    assert EventId([SanitizeContent(c)][0]) == c.eventId;
  }

  lemma FirstKey(rows: seq<Content>)
    requires rows != []
    ensures Keys(EventId, rows) == {rows[0].eventId} + Keys(EventId, rows[1..])
  {
    assert rows == [rows[0]] + rows[1..];
    KeysConcat(EventId, [rows[0]], rows[1..]);
    assert EventId([rows[0]][0]) == rows[0].eventId;
  }

  /**
   Whatever part of a write reaches a file that writes have made, the file stays of that kind and gains no event but
   those of the write; and if it ended with a complete line, it loses none.
   */
  lemma {:induction false} AppendPrefix(data: Bytes, rows: seq<Content>, torn: Bytes)
    requires Appendable(data) && IdsOk(rows) && torn <= SpoolBytes(rows)
    ensures Appendable(data + torn)
    ensures SpooledIds(data + torn) <= SpooledIds(data) + Keys(EventId, rows)
    ensures Closed(data) ==> SpooledIds(data) <= SpooledIds(data + torn)
    decreases |rows|
  {
    hide ReadSpool, Appendable, IdOk, SanitizeContent, EncodeRow, Keys, Closed;
    if rows == [] {
      assert torn == [] && data + torn == data;
    } else {
      var c, line := rows[0], EncodeRow(SpoolRow(rows[0]));
      FirstKey(rows);
      SpoolOfRows(rows);
      if |torn| <= |line| {
        assert torn == line[..|torn|];
        TornLine(data, c, |torn|);
        OneMoreEvent(ReadSpool(data), c);
        if ReadSpool(data + torn) <= ReadSpool(data) {
          MoreEvents(ReadSpool(data + torn), ReadSpool(data));
        }
        if Closed(data) {
          MoreEvents(ReadSpool(data), ReadSpool(data + torn));
        }
      } else {
        var n, whole := |line| + 1, data + SpoolBytes([c]);
        WholeLine(data, c);
        assert torn[..n] == SpoolBytes([c]) && torn == SpoolBytes([c]) + torn[n..];
        assert torn[n..] <= SpoolBytes(rows[1..]);
        assert IdsOk(rows[1..]);
        AppendPrefix(whole, rows[1..], torn[n..]);
        assert data + torn == whole + torn[n..];
      }
    }
  }

  lemma SpoolOfRows(rows: seq<Content>)
    requires rows != []
    ensures SpoolBytes(rows) == SpoolBytes([rows[0]]) + SpoolBytes(rows[1..])
    ensures SpoolBytes([rows[0]]) == EncodeRow(SpoolRow(rows[0])) + [NEWLINE]
  {
    hide EncodeRow;
    SpoolOfOne(rows[0]);
    assert SpoolLines(rows)[1..] == SpoolLines(rows[1..]);
  }

  lemma WholeLine(data: Bytes, c: Content)
    requires Appendable(data) && IdOk(c)
    ensures var data' := data + SpoolBytes([c]);
            && Appendable(data') && Closed(data')
            && SpooledIds(data') <= SpooledIds(data) + {c.eventId}
            && (Closed(data) ==> SpooledIds(data) <= SpooledIds(data'))
  {
    hide ReadSpool, Appendable, IdOk, SanitizeContent, SpoolBytes, Keys, Closed;
    NextIsReadIff(data, c);
    ClosedIsAppendable(data + SpoolBytes([c]));
    OneMoreEvent(ReadSpool(data), c);
    if ReadSpool(data + SpoolBytes([c])) <= ReadSpool(data) {
      MoreEvents(ReadSpool(data + SpoolBytes([c])), ReadSpool(data));
    }
  }

  lemma {:induction false} TornShape(data: Bytes, rows: seq<Content>, torn: Bytes)
    requires Appendable(data) && torn <= SpoolBytes(rows)
    ensures Appendable(data + torn)
    decreases |rows|
  {
    hide ReadSpool, Appendable, EncodeRow, SanitizeContent, IdOk;
    if rows == [] {
      assert torn == [] && data + torn == data;
    } else {
      var line := EncodeRow(SpoolRow(rows[0]));
      SpoolOfRows(rows);
      if |torn| <= |line| {
        assert torn == line[..|torn|];
        TornLine(data, rows[0], |torn|);
      } else {
        var n, whole := |line| + 1, data + SpoolBytes([rows[0]]);
        assert Closed(whole);
        ClosedIsAppendable(whole);
        assert torn == SpoolBytes([rows[0]]) + torn[n..] && torn[n..] <= SpoolBytes(rows[1..]);
        TornShape(whole, rows[1..], torn[n..]);
        assert data + torn == whole + torn[n..];
      }
    }
  }

  /**
   Behind one write torn off anywhere, the next event is read back if and only if the tear was at the end of a line:
   otherwise it is lost, together with the event that was torn.
   */
  lemma TornAppendIff(data: Bytes, rows: seq<Content>, torn: Bytes, c: Content)
    requires Closed(data) && torn <= SpoolBytes(rows) && IdOk(c)
    ensures ReadSpool(data + torn + SpoolBytes([c])) == ReadSpool(data + torn) + [SanitizeContent(c)] <==> Closed(torn)
    ensures !Closed(torn) ==> ReadSpool(data + torn + SpoolBytes([c])) <= ReadSpool(data + torn)
  {
    hide ReadSpool, Appendable, IdOk, SanitizeContent, SpoolBytes;
    ClosedIsAppendable(data);
    TornShape(data, rows, torn);
    NextIsReadIff(data + torn, c);
    assert torn == [] ==> data + torn == data;
  }

  /** The concrete failing input: a write of any event torn off behind its first byte. */
  lemma TornWriteSwallowsNext(data: Bytes, torn: Content, c: Content)
    requires Closed(data)
    ensures [OPEN] <= SpoolBytes([torn]) && ReadSpool(data + [OPEN] + SpoolBytes([c])) == ReadSpool(data)
    ensures ReadSpool([OPEN]) == []
  {
    hide ReadSpool, EncodeRow, SpoolBytes;
    var p := Piece(torn, 1);
    StartsOpen(SpoolRow(torn));
    RowStartsObject(SpoolRow(torn));
    SpoolOfOne(torn);
    assert Glue([p]) == [OPEN] by {
      assert [p][1..] == [] && [OPEN] + [] == [OPEN];
    }
    BehindPieces(data, [p], c);
    GlueIsNoEvent([p]);
    ReadWithPieces([], [p], []);
    assert [] + ([OPEN] + []) == [OPEN];
    NothingSpooled();
  }

  lemma NothingSpooled()
    ensures ReadSpool([]) == []
  {
  }
}
