/**
 Flat JSON objects as encoding/json writes and reads them: members in struct order, no white space,
 HTML-safe escaping, invalid UTF-8 replaced by U+FFFD (RFC 8259 section 7).
 */
module Json {
  import opened ByteStrings
  import opened Options
  import Utf8

  datatype Value = Num(n: int) | Str(s: Bytes)

  datatype Member = Member(key: Bytes, value: Value)

  const QUOTE: byte := 34
  const BACKSLASH: byte := 92
  const COMMA: byte := 44
  const COLON: byte := 58
  const OPEN: byte := 123
  const CLOSE: byte := 125
  const NEWLINE: byte := 10
  const CARRIAGE_RETURN: byte := 13
  const REPLACEMENT: Bytes := [0xEF, 0xBF, 0xBD]

  // ---------- strings ----------

  function HexDigit(n: nat): (b: byte)
    requires n < 16
  {
    if n < 10 then 48 + n else 87 + n
  }

  function HexValue(b: byte): Option<nat> {
    if 48 <= b < 58 then Some(b - 48)
    else if 97 <= b < 103 then Some(b - 87)
    else if 65 <= b < 71 then Some(b - 55)
    else None
  }

  /** The written form of one byte below 0x80. */
  function EscapeAscii(b: byte): Bytes
    requires b < 0x80
  {
    if b == QUOTE || b == BACKSLASH then [BACKSLASH, b]
    else if b == 8 then [BACKSLASH, 98]
    else if b == 12 then [BACKSLASH, 102]
    else if b == 10 then [BACKSLASH, 110]
    else if b == 13 then [BACKSLASH, 114]
    else if b == 9 then [BACKSLASH, 116]
    else if b < 0x20 || b == 0x3C || b == 0x3E || b == 0x26 then
      [BACKSLASH, 117, 48, 48, HexDigit(b / 16), HexDigit(b % 16)]
    else [b]
  }

  /** U+2028 and U+2029 are escaped although they are valid in JSON. */
  predicate IsLineSeparator(s: Bytes) {
    |s| >= 3 && s[0] == 0xE2 && s[1] == 0x80 && (s[2] == 0xA8 || s[2] == 0xA9)
  }

  /** How many bytes of `s` the encoder consumes first. */
  function UnitLen(s: Bytes): (l: nat)
    requires s != []
    ensures 1 <= l <= |s|
  {
    if Utf8.RuneLen(s) == 0 then 1 else Utf8.RuneLen(s)
  }

  /** What it writes for them. */
  function EscapeUnit(s: Bytes): (e: Bytes)
    requires s != []
    ensures |e| >= 1
  {
    if s[0] < 0x80 then EscapeAscii(s[0])
    else if Utf8.RuneLen(s) == 0 then [BACKSLASH, 117, 102, 102, 102, 100]
    else if IsLineSeparator(s) then [BACKSLASH, 117, 50, 48, 50, if s[2] == 0xA8 then 56 else 57]
    else s[..Utf8.RuneLen(s)]
  }

  function Escape(s: Bytes): Bytes {
    if s == [] then [] else EscapeUnit(s) + Escape(s[UnitLen(s)..])
  }

  /** `s` with every byte outside valid UTF-8 replaced by U+FFFD: all a JSON string can carry. */
  function Sanitize(s: Bytes): (t: Bytes)
    ensures Utf8.Valid(s) ==> t == s
    ensures if Utf8.Valid(s) then |t| == |s| else |t| > |s|
  {
    if s == [] then []
    else if Utf8.RuneLen(s) == 0 then REPLACEMENT + Sanitize(s[1..])
    else
      var l := Utf8.RuneLen(s);
      assert s == s[..l] + s[l..];
      s[..l] + Sanitize(s[l..])
  }

  /** One decoded unit: the text it stands for and its written length, 0 when malformed. */
  datatype Unit = Unit(text: Bytes, len: nat)

  function EncodeRune(v: nat): Bytes
    requires v < 0x10000
  {
    if v < 0x80 then [v]
    else if v < 0x800 then [0xC0 + v / 64, 0x80 + v % 64]
    else [0xE0 + v / 4096, 0x80 + v / 64 % 64, 0x80 + v % 64]
  }

  function Hex4(s: Bytes): (r: Option<nat>)
    requires |s| >= 4
    ensures r.Some? ==> r.value < 0x10000
  {
    match (HexValue(s[0]), HexValue(s[1]), HexValue(s[2]), HexValue(s[3]))
    case (Some(a), Some(b), Some(c), Some(d)) =>
      if a < 16 && b < 16 && c < 16 && d < 16 then Some(((a * 16 + b) * 16 + c) * 16 + d) else None
    case _ => None
  }

  function UnescapeUnit(s: Bytes): (u: Unit)
    requires s != []
    ensures u.len <= |s|
  {
    if s[0] == BACKSLASH then
      if |s| < 2 then Unit([], 0)
      else if s[1] == QUOTE || s[1] == BACKSLASH || s[1] == 47 then Unit([s[1]], 2)
      else if s[1] == 98 then Unit([8], 2)
      else if s[1] == 102 then Unit([12], 2)
      else if s[1] == 110 then Unit([10], 2)
      else if s[1] == 114 then Unit([13], 2)
      else if s[1] == 116 then Unit([9], 2)
      else if s[1] == 117 && |s| >= 6 && Hex4(s[2..]).Some? && !(0xD800 <= Hex4(s[2..]).value < 0xE000) then
        Unit(EncodeRune(Hex4(s[2..]).value), 6)
      else Unit([], 0)
    else if s[0] < 0x20 || s[0] == QUOTE then Unit([], 0)
    else if Utf8.RuneLen(s) == 0 then Unit(REPLACEMENT, 1)
    else Unit(s[..Utf8.RuneLen(s)], Utf8.RuneLen(s))
  }

  datatype Parsed<+T> = Bad | Ok(value: T, rest: Bytes)

  /** Reads a string up to its closing quote; `s` starts behind the opening one. */
  function Unquote(s: Bytes): (p: Parsed<Bytes>)
    ensures p.Ok? ==> |p.rest| < |s|
  {
    if s == [] then Bad
    else if s[0] == QUOTE then Ok([], s[1..])
    else
      var u := UnescapeUnit(s);
      if u.len == 0 then Bad
      else
        match Unquote(s[u.len..])
        case Bad => Bad
        case Ok(t, rest) => Ok(u.text + t, rest)
  }

  lemma HexEscape(a: byte, b: byte, c: byte, d: byte, tail: Bytes)
    ensures var w := [BACKSLASH, 117, a, b, c, d] + tail;
            Hex4(w[2..]) == Hex4([a, b, c, d]) && |w| >= 6 && w[0] == BACKSLASH && w[1] == 117
  {
    var w := [BACKSLASH, 117, a, b, c, d] + tail;
    assert w[2..][0] == a && w[2..][1] == b && w[2..][2] == c && w[2..][3] == d;
  }

  lemma EscapeAsciiInverse(b: byte, tail: Bytes)
    requires b < 0x80
    ensures UnescapeUnit(EscapeAscii(b) + tail) == Unit([b], |EscapeAscii(b)|)
    ensures (EscapeAscii(b) + tail)[0] != QUOTE
  {
    if |EscapeAscii(b)| == 6 {
      HexEscape(48, 48, HexDigit(b / 16), HexDigit(b % 16), tail);
      AsciiHex(b);
    } else {
      hide Hex4, EncodeRune;
      assert |EscapeAscii(b)| == 1 ==> ([b] + tail)[..1] == [b];
    }
  }

  lemma AsciiHex(b: byte)
    requires b < 0x80
    ensures Hex4([48, 48, HexDigit(b / 16), HexDigit(b % 16)]) == Some(b)
  {
    assert HexValue(HexDigit(b / 16)) == Some(b / 16) && HexValue(HexDigit(b % 16)) == Some(b % 16);
  }

  /** Decoding a written unit gives back its text, sanitized. */
  lemma EscapeUnitInverse(s: Bytes, tail: Bytes)
    requires s != []
    ensures UnescapeUnit(EscapeUnit(s) + tail)
         == Unit(if Utf8.RuneLen(s) == 0 then REPLACEMENT else s[..Utf8.RuneLen(s)], |EscapeUnit(s)|)
    ensures (EscapeUnit(s) + tail)[0] != QUOTE
  {
    var l := Utf8.RuneLen(s);
    var w := EscapeUnit(s) + tail;
    if s[0] < 0x80 {
      EscapeAsciiInverse(s[0], tail);
    } else if l == 0 {
      HexEscape(102, 102, 102, 100, tail);
    } else if IsLineSeparator(s) {
      HexEscape(50, 48, 50, if s[2] == 0xA8 then 56 else 57, tail);
    } else {
      assert w[..l] == s[..l];
      Utf8.RuneLenOfPrefix(s, l);
      assert Utf8.RuneLen(w) == l;
    }
  }

  lemma {:induction false} UnquoteEscape(s: Bytes, rest: Bytes)
    ensures Unquote(Escape(s) + [QUOTE] + rest) == Ok(Sanitize(s), rest)
    decreases |s|
  {
    var w := Escape(s) + [QUOTE] + rest;
    if s == [] {
      assert w == [QUOTE] + rest;
    } else {
      var next := s[UnitLen(s)..];
      var tail := Escape(next) + [QUOTE] + rest;
      assert w == EscapeUnit(s) + tail;
      EscapeUnitInverse(s, tail);
      UnquoteEscape(next, rest);
      assert w[|EscapeUnit(s)|..] == tail;
    }
  }

  lemma EscapeUnitBytes(s: Bytes)
    requires s != []
    ensures forall j :: 0 <= j < |EscapeUnit(s)| && EscapeUnit(s)[j] == QUOTE ==> j == 1 && EscapeUnit(s)[0] == BACKSLASH
    ensures NEWLINE !in EscapeUnit(s) && CARRIAGE_RETURN !in EscapeUnit(s)
  {
  }

  /** In a written string a quote always follows a backslash, and there is no line feed or carriage return. */
  lemma {:induction false} EscapeBytes(s: Bytes)
    ensures forall j :: 0 <= j < |Escape(s)| && Escape(s)[j] == QUOTE ==> j >= 1 && Escape(s)[j - 1] == BACKSLASH
    ensures NEWLINE !in Escape(s) && CARRIAGE_RETURN !in Escape(s)
    decreases |s|
  {
    hide EscapeUnit, UnitLen;
    if s != [] {
      var next := s[UnitLen(s)..];
      EscapeUnitBytes(s);
      EscapeBytes(next);
      var e := EscapeUnit(s);
      forall j | |e| <= j < |Escape(s)| && Escape(s)[j] == QUOTE ensures Escape(s)[j - 1] == BACKSLASH {
        assert Escape(s)[j] == Escape(next)[j - |e|];
        assert Escape(s)[j - 1] == Escape(next)[j - 1 - |e|];
      }
    }
  }

  // ---------- objects ----------

  /** A struct tag name: printable ASCII that needs no escape. */
  predicate PlainKey(key: Bytes) {
    forall i :: 0 <= i < |key| ==> 0x20 <= key[i] < 0x80 && key[i] != QUOTE && key[i] != BACKSLASH
  }

  function EncodeValue(v: Value): Bytes {
    match v
    case Num(n) => FormatInt(n)
    case Str(s) => [QUOTE] + Escape(s) + [QUOTE]
  }

  function EncodeMember(m: Member): Bytes {
    [QUOTE] + m.key + [QUOTE, COLON] + EncodeValue(m.value)
  }

  /** The members and the closing brace. */
  function EncodeMembers(ms: seq<Member>): Bytes
    requires ms != []
  {
    EncodeMember(ms[0]) + if |ms| == 1 then [CLOSE] else [COMMA] + EncodeMembers(ms[1..])
  }

  function EncodeObject(ms: seq<Member>): Bytes {
    [OPEN] + if ms == [] then [CLOSE] else EncodeMembers(ms)
  }

  function SanitizeValue(v: Value): Value {
    if v.Str? then Str(Sanitize(v.s)) else v
  }

  function SanitizeMembers(ms: seq<Member>): (r: seq<Member>)
    ensures |r| == |ms|
  {
    seq(|ms|, i requires 0 <= i < |ms| => Member(ms[i].key, SanitizeValue(ms[i].value)))
  }

  function DigitSpan(s: Bytes): (n: nat)
    ensures n <= |s|
  {
    if s == [] || !IsDigit(s[0]) then 0 else 1 + DigitSpan(s[1..])
  }

  function ParseInt(s: Bytes): (p: Parsed<int>)
    ensures p.Ok? ==> |p.rest| < |s|
  {
    var negative := s != [] && s[0] == 45;
    var digits := if negative then s[1..] else s;
    var n := DigitSpan(digits);
    if n == 0 || (n > 1 && digits[0] == 48) then Bad
    else
      var v := DigitsValue(digits[..n]);
      Ok(if negative then -v else v, digits[n..])
  }

  function ParseValue(s: Bytes): (p: Parsed<Value>)
    ensures p.Ok? ==> |p.rest| < |s|
  {
    if s != [] && s[0] == QUOTE then
      match Unquote(s[1..])
      case Bad => Bad
      case Ok(t, rest) => Ok(Str(t), rest)
    else
      match ParseInt(s)
      case Bad => Bad
      case Ok(n, rest) => Ok(Num(n), rest)
  }

  function ParseMember(s: Bytes): (p: Parsed<Member>)
    ensures p.Ok? ==> |p.rest| < |s|
  {
    if s == [] || s[0] != QUOTE then Bad
    else
      match Unquote(s[1..])
      case Bad => Bad
      case Ok(key, r) =>
        if r == [] || r[0] != COLON then Bad
        else
          match ParseValue(r[1..])
          case Bad => Bad
          case Ok(v, rest) => Ok(Member(key, v), rest)
  }

  function ParseMembers(s: Bytes): Parsed<seq<Member>>
    decreases |s|
  {
    match ParseMember(s)
    case Bad => Bad
    case Ok(m, r) =>
      if r != [] && r[0] == CLOSE then Ok([m], r[1..])
      else if r != [] && r[0] == COMMA then
        match ParseMembers(r[1..])
        case Bad => Bad
        case Ok(ms, rest) => Ok([m] + ms, rest)
      else Bad
  }

  /** json.Unmarshal of one line, as far as flat compact objects go. */
  function DecodeObject(s: Bytes): Option<seq<Member>> {
    if s == [OPEN, CLOSE] then Some([])
    else if s == [] || s[0] != OPEN then None
    else
      match ParseMembers(s[1..])
      case Bad => None
      case Ok(ms, rest) => if rest == [] then Some(ms) else None
  }

  lemma {:induction false} DigitSpanOf(d: Bytes, rest: Bytes)
    requires forall i :: 0 <= i < |d| ==> IsDigit(d[i])
    requires rest == [] || !IsDigit(rest[0])
    ensures DigitSpan(d + rest) == |d|
  {
    if d == [] {
      assert d + rest == rest;
    } else {
      assert (d + rest)[1..] == d[1..] + rest;
      DigitSpanOf(d[1..], rest);
    }
  }

  lemma {:induction false} NoLeadingZero(n: nat)
    ensures n > 0 ==> Decimal(n)[0] != 48
  {
    if n >= 10 {
      NoLeadingZero(n / 10);
    }
  }

  lemma ParseDecimal(n: nat, rest: Bytes)
    requires rest == [] || !IsDigit(rest[0])
    ensures var s := Decimal(n) + rest;
            && DigitSpan(s) == |Decimal(n)| && DigitsValue(s[..|Decimal(n)|]) == n && s[|Decimal(n)|..] == rest
            && (|Decimal(n)| > 1 ==> s[0] != 48)
  {
    DigitSpanOf(Decimal(n), rest);
    NoLeadingZero(n);
    DigitsValueOfDecimal(n);
    assert (Decimal(n) + rest)[..|Decimal(n)|] == Decimal(n);
  }

  lemma ParseFormatInt(n: int, rest: Bytes)
    requires rest == [] || !IsDigit(rest[0])
    ensures ParseInt(FormatInt(n) + rest) == Ok(n, rest)
  {
    hide DigitSpan, DigitsValue, Decimal;
    if n < 0 {
      assert (FormatInt(n) + rest)[1..] == Decimal(-n) + rest;
      ParseDecimal(-n, rest);
    } else {
      ParseDecimal(n, rest);
      assert IsDigit(Decimal(n)[0]);
    }
  }

  lemma {:induction false} UnquotePlain(key: Bytes, rest: Bytes)
    requires PlainKey(key)
    ensures Unquote(key + [QUOTE] + rest) == Ok(key, rest)
  {
    var w := key + [QUOTE] + rest;
    if key == [] {
      assert w == [QUOTE] + rest;
    } else {
      UnquotePlain(key[1..], rest);
      assert w[1..] == key[1..] + [QUOTE] + rest;
      assert UnescapeUnit(w) == Unit([key[0]], 1) by { assert w[..1] == [key[0]]; }
      assert [key[0]] + key[1..] == key;
    }
  }

  lemma ParseEncodeValue(v: Value, rest: Bytes)
    requires rest == [] || !IsDigit(rest[0])
    ensures ParseValue(EncodeValue(v) + rest) == Ok(SanitizeValue(v), rest)
  {
    var w := EncodeValue(v) + rest;
    match v
    case Num(n) =>
      ParseFormatInt(n, rest);
      assert w[0] == FormatInt(n)[0] != QUOTE by {
        if n >= 0 { assert IsDigit(FormatInt(n)[0]); }
      }
    case Str(s) =>
      assert w[1..] == Escape(s) + [QUOTE] + rest;
      UnquoteEscape(s, rest);
  }

  lemma ParseEncodeMember(m: Member, rest: Bytes)
    requires PlainKey(m.key)
    requires rest == [] || !IsDigit(rest[0])
    ensures ParseMember(EncodeMember(m) + rest) == Ok(Member(m.key, SanitizeValue(m.value)), rest)
  {
    hide EncodeValue, ParseValue, SanitizeValue, Unquote;
    var w := EncodeMember(m) + rest;
    var tail := [COLON] + EncodeValue(m.value) + rest;
    assert w[1..] == m.key + [QUOTE] + tail;
    UnquotePlain(m.key, tail);
    assert tail[1..] == EncodeValue(m.value) + rest;
    ParseEncodeValue(m.value, rest);
  }

  lemma {:induction false} ParseEncodeMembers(ms: seq<Member>)
    requires ms != [] && forall i :: 0 <= i < |ms| ==> PlainKey(ms[i].key)
    ensures ParseMembers(EncodeMembers(ms)) == Ok(SanitizeMembers(ms), [])
    decreases |ms|
  {
    hide EncodeMember, ParseMember, SanitizeValue;
    if |ms| == 1 {
      ParseEncodeMember(ms[0], [CLOSE]);
      assert SanitizeMembers(ms) == [Member(ms[0].key, SanitizeValue(ms[0].value))];
    } else {
      var rest := [COMMA] + EncodeMembers(ms[1..]);
      ParseEncodeMember(ms[0], rest);
      ParseEncodeMembers(ms[1..]);
      assert rest[1..] == EncodeMembers(ms[1..]);
      assert SanitizeMembers(ms) == [Member(ms[0].key, SanitizeValue(ms[0].value))] + SanitizeMembers(ms[1..]);
    }
  }

  /** Reading back what was written returns every member, with its text sanitized. */
  lemma DecodeEncodeObject(ms: seq<Member>)
    requires forall i :: 0 <= i < |ms| ==> PlainKey(ms[i].key)
    ensures DecodeObject(EncodeObject(ms)) == Some(SanitizeMembers(ms))
  {
    if ms != [] {
      ParseEncodeMembers(ms);
      assert EncodeObject(ms)[1..] == EncodeMembers(ms);
      assert EncodeObject(ms)[1] == QUOTE;
    }
  }

  // ---------- where `"type":` can occur ----------

  const TYPE_KEY: Bytes := [116, 121, 112, 101]

  /** The seven bytes `"type":` stand at position p. */
  predicate TypeMarkAt(s: Bytes, p: int) {
    && 0 <= p && p + 7 <= |s| && s[p] == QUOTE
    && s[p + 1] == 116 && s[p + 2] == 121 && s[p + 3] == 112 && s[p + 4] == 101
    && s[p + 5] == QUOTE && s[p + 6] == COLON
  }

  /** Where a written value can hold a quote: at its two ends, or behind a backslash. */
  lemma ValueQuotes(v: Value)
    ensures var e := EncodeValue(v);
            && (v.Str? ==> |e| >= 2 && e[|e| - 1] == QUOTE)
            && forall q :: 0 <= q < |e| && e[q] == QUOTE
                 ==> v.Str? && (q == 0 || q == |e| - 1 || e[q - 1] == BACKSLASH)
  {
    match v
    case Num(n) =>
      assert FormatInt(n)[0] == 45 || IsDigit(FormatInt(n)[0]);
    case Str(s) =>
      EscapeBytes(s);
      var e := EncodeValue(v);
      forall q | 1 <= q < |e| - 1 && e[q] == QUOTE ensures e[q - 1] == BACKSLASH {
        assert e[q] == Escape(s)[q - 1];
        assert e[q - 1] == Escape(s)[q - 2];
      }
  }

  lemma NoTypeMarkInValue(v: Value, tail: Bytes, p: int)
    requires tail != [] && (tail[0] == COMMA || tail[0] == CLOSE)
    requires 0 <= p <= |EncodeValue(v)|
    ensures !TypeMarkAt(EncodeValue(v) + tail, p)
  {
    hide EncodeValue;
    ValueQuotes(v);
    var e := EncodeValue(v);
    var w := e + tail;
    assert forall q :: 0 <= q < |e| ==> w[q] == e[q];
    assert w[|e|] == tail[0];
  }

  /** The mark does not start inside a member whose key is not "type", however its text is chosen. */
  lemma NoTypeMarkInMember(m: Member, tail: Bytes, p: int)
    requires PlainKey(m.key) && m.key != TYPE_KEY
    requires tail != [] && (tail[0] == COMMA || tail[0] == CLOSE)
    requires 0 <= p <= |EncodeMember(m)|
    ensures !TypeMarkAt(EncodeMember(m) + tail, p)
  {
    hide EncodeValue;
    var w, k := EncodeMember(m) + tail, |m.key|;
    if p < 3 + k {
      assert w[1..1 + k] == m.key && w[1 + k] == QUOTE && w[2 + k] == COLON;
      assert forall i :: 0 <= i < k ==> w[1 + i] == m.key[i] != QUOTE;
      assert k == 4 ==> m.key == [w[1], w[2], w[3], w[4]];
    } else {
      NoTypeMarkInValue(m.value, tail, p - 3 - k);
      var start := [QUOTE] + m.key + [QUOTE, COLON];
      assert w == start + (EncodeValue(m.value) + tail);
      TypeMarkBehind(start, EncodeValue(m.value) + tail, p);
    }
  }

  lemma {:induction false} NoTypeMark(ms: seq<Member>, p: int)
    requires ms != [] && forall i :: 0 <= i < |ms| ==> PlainKey(ms[i].key) && ms[i].key != TYPE_KEY
    ensures !TypeMarkAt(EncodeMembers(ms), p)
    decreases |ms|
  {
    hide EncodeMember;
    var n := |EncodeMember(ms[0])|;
    var tail := if |ms| == 1 then [CLOSE] else [COMMA] + EncodeMembers(ms[1..]);
    assert EncodeMembers(ms) == EncodeMember(ms[0]) + tail;
    if 0 <= p <= n {
      NoTypeMarkInMember(ms[0], tail, p);
    } else if p > n && |ms| > 1 {
      var e, rest := EncodeMember(ms[0]), EncodeMembers(ms[1..]);
      NoTypeMark(ms[1..], p - n - 1);
      assert EncodeMembers(ms) == (e + [COMMA]) + rest;
      TypeMarkBehind(e + [COMMA], rest, p);
    }
  }

  lemma TypeMarkBehind(a: Bytes, b: Bytes, p: int)
    requires |a| <= p
    ensures TypeMarkAt(a + b, p) == TypeMarkAt(b, p - |a|)
  {
  }

  /** A written object is one line. */
  lemma {:induction false} EncodeMembersOneLine(ms: seq<Member>)
    requires ms != [] && forall i :: 0 <= i < |ms| ==> PlainKey(ms[i].key)
    ensures NEWLINE !in EncodeMembers(ms) && CARRIAGE_RETURN !in EncodeMembers(ms)
    ensures EncodeMembers(ms)[|EncodeMembers(ms)| - 1] == CLOSE
    decreases |ms|
  {
    var v := ms[0].value;
    assert NEWLINE !in EncodeValue(v) && CARRIAGE_RETURN !in EncodeValue(v) by {
      match v
      case Num(n) => assert forall i :: 0 <= i < |FormatInt(n)| ==> i == 0 || IsDigit(FormatInt(n)[i]);
                     if n >= 0 { assert IsDigit(FormatInt(n)[0]); }
      case Str(s) => EscapeBytes(s);
    }
    assert NEWLINE !in EncodeMember(ms[0]) && CARRIAGE_RETURN !in EncodeMember(ms[0]);
    if |ms| > 1 {
      EncodeMembersOneLine(ms[1..]);
    }
  }

  // ---------- the written form ----------

  /** Printable ASCII that JSON for HTML leaves alone. */
  predicate IsPlain(b: byte) {
    0x20 <= b < 0x80 && b != QUOTE && b != BACKSLASH && b != 60 && b != 62 && b != 38
  }

  /** Plain text is written as it is. */
  lemma {:induction false} PlainIsKept(s: Bytes)
    requires forall i :: 0 <= i < |s| ==> IsPlain(s[i])
    ensures Escape(s) == s
  {
    if s != [] {
      PlainIsKept(s[1..]);
      assert UnitLen(s) == 1 && EscapeUnit(s) == [s[0]];
      assert s == [s[0]] + s[1..];
    }
  }

  /** Hexadecimal digits are read in either case, and nothing else is. */
  lemma HexDigitsAre(b: byte, n: nat)
    ensures HexValue(b) == Some(n)
       <==> || (n < 10 && b == '0' as int + n)
            || (10 <= n < 16 && (b == 'a' as int + n - 10 || b == 'A' as int + n - 10))
  {
  }
}
