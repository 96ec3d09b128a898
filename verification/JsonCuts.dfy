/** A written JSON object that is cut off, and whatever is glued to it: the two are never read as an object. */
module JsonCuts {
  import opened ByteStrings
  import opened Options
  import opened Json
  import Utf8

  predicate IsLetter(b: byte) {
    97 <= b < 123
  }

  /** None of the readers below goes on from here: there is no colon, no comma and no closing brace. */
  predicate Derailed(rest: Bytes) {
    rest == [] || rest[0] == OPEN || IsLetter(rest[0])
  }

  /** Read on behind a cut: the string is malformed, or it is closed by a quote behind which nothing fits. */
  predicate ClosedBadly(p: Parsed<Bytes>) {
    p.Ok? ==> Derailed(p.rest)
  }

  /** Behind a cut this cannot complete what was cut: the end, or the start of another object or of a part of one. */
  predicate Strays(next: Bytes) {
    next == [] || (next[0] == OPEN && ClosedBadly(Unquote(next)))
  }

  /** Such are an opening brace, a quote and the first letter of a key, cut off anywhere. */
  lemma ObjectStartStrays(next: Bytes, rest: Bytes, k: nat)
    requires |next| >= 3 && next[0] == OPEN && next[1] == QUOTE && IsLetter(next[2])
    requires 1 <= k <= |next| && Strays(rest)
    ensures Strays(next[..k] + rest)
  {
    var w := next[..k] + rest;
    assert w[..1] == [OPEN];
    assert UnescapeUnit(w) == Unit([OPEN], 1);
    if k == 1 {
      assert w[1..] == rest;
    } else {
      assert w[1] == QUOTE;
      assert w[1..][1..] == next[2..k] + rest;
    }
  }

  lemma {:induction false} ContinuationBytes(c: Bytes, next: Bytes)
    requires Strays(next) && forall i :: 0 <= i < |c| ==> Utf8.IsContinuation(c[i])
    ensures ClosedBadly(Unquote(c + next))
  {
    var w := c + next;
    if c == [] {
      assert w == next;
    } else {
      assert w[1..] == c[1..] + next;
      ContinuationBytes(c[1..], next);
      assert UnescapeUnit(w) == Unit(REPLACEMENT, 1);
    }
  }

  /** A cut inside the rune or the escape that stands for the first unit of `s`. */
  lemma CutUnit(s: Bytes, k: nat, next: Bytes)
    requires s != [] && 0 < k < |EscapeUnit(s)| && Strays(next)
    ensures ClosedBadly(Unquote(EscapeUnit(s)[..k] + next))
  {
    hide Derailed, Strays;
    var e := EscapeUnit(s);
    var w := e[..k] + next;
    assert w[0] == e[0];
    if e[0] == BACKSLASH {
      CutEscape(s, k, next);
    } else {
      assert e == s[..Utf8.RuneLen(s)] && s[0] >= 0x80;
      assert Utf8.RuneLen(w) == 0 by { CutRune(s, k, next); }
      assert w[1..] == e[1..k] + next;
      ContinuationBytes(e[1..k], next);
      assert UnescapeUnit(w) == Unit(REPLACEMENT, 1);
    }
  }

  lemma CutRune(s: Bytes, k: nat, next: Bytes)
    requires s != [] && 0 < k < Utf8.RuneLen(s) && Strays(next)
    ensures Utf8.RuneLen(s[..k] + next) == 0
    ensures forall i :: 1 <= i < Utf8.RuneLen(s) ==> Utf8.IsContinuation(s[i])
  {
    hide Unquote, ClosedBadly;
    var w := s[..k] + next;
    assert w[0] == s[0] && (next != [] ==> w[k] == OPEN);
    assert k > 1 ==> w[1] == s[1];
    assert k > 2 ==> w[2] == s[2];
  }

  lemma CutEscape(s: Bytes, k: nat, next: Bytes)
    requires s != [] && 0 < k < |EscapeUnit(s)| && EscapeUnit(s)[0] == BACKSLASH && Strays(next)
    ensures Unquote(EscapeUnit(s)[..k] + next) == Bad
  {
    hide ClosedBadly;
    var e := EscapeUnit(s);
    var w := e[..k] + next;
    assert w[0] == BACKSLASH && (next != [] ==> w[k] == OPEN) && HexValue(OPEN) == None;
    if k > 1 {
      assert w[1] == e[1] == 117;
      if |w| >= 6 {
        assert w[2..][k - 2] == OPEN;
        assert Hex4(w[2..]) == None;
      }
    }
  }

  lemma {:induction false} CutString(s: Bytes, k: nat, next: Bytes)
    requires k <= |Escape(s)| && Strays(next)
    ensures ClosedBadly(Unquote(Escape(s)[..k] + next))
    decreases |s|
  {
    hide EscapeUnit, UnitLen, ClosedBadly, Strays;
    var w := Escape(s)[..k] + next;
    if k == 0 {
      assert w == [] + next == next;
      ContinuationBytes([], next);
    } else {
      var e, tail := EscapeUnit(s), Escape(s[UnitLen(s)..]);
      if k < |e| {
        assert Escape(s)[..k] == e[..k];
        CutUnit(s, k, next);
      } else {
        var rest := tail[..k - |e|] + next;
        assert w == e + rest;
        CutString(s[UnitLen(s)..], k - |e|, next);
        EscapeUnitInverse(s, rest);
        assert w[|e|..] == rest;
        ReadOn(w, rest);
      }
    }
  }

  lemma ReadOn(w: Bytes, rest: Bytes)
    requires w != [] && w[0] != QUOTE && UnescapeUnit(w).len > 0 && w[UnescapeUnit(w).len..] == rest
    requires ClosedBadly(Unquote(rest))
    ensures ClosedBadly(Unquote(w))
  {
  }

  lemma {:induction false} CutKey(key: Bytes, next: Bytes)
    requires PlainKey(key) && Strays(next)
    ensures ClosedBadly(Unquote(key + next))
  {
    hide Derailed;
    var w := key + next;
    if key == [] {
      assert w == next;
    } else {
      CutKey(key[1..], next);
      assert w[1..] == key[1..] + next;
      assert UnescapeUnit(w) == Unit([key[0]], 1) by { assert w[..1] == [key[0]]; }
    }
  }

  lemma CutNumber(n: int, k: nat, next: Bytes)
    requires k <= |FormatInt(n)| && Strays(next)
    ensures var p := ParseInt(FormatInt(n)[..k] + next);
            p.Ok? ==> p.rest == next
  {
    hide DigitsValue, Decimal, Unquote;
    var d := FormatInt(n)[..k];
    var w := d + next;
    if k == 0 {
      assert w == next;
    } else if n < 0 {
      assert w[1..] == d[1..] + next;
      DigitSpanOf(d[1..], next);
      assert w[1..][|d[1..]|..] == next;
    } else {
      DigitSpanOf(d, next);
      assert IsDigit(w[0]);
      assert w[|d|..] == next;
    }
  }

  lemma CutValue(v: Value, k: nat, next: Bytes)
    requires k <= |EncodeValue(v)| && Strays(next)
    ensures var p := ParseValue(EncodeValue(v)[..k] + next);
            p.Ok? ==> Derailed(p.rest)
  {
    hide ParseInt, Escape, Unquote, FormatInt;
    var e := EncodeValue(v);
    var w := e[..k] + next;
    if k == 0 {
      assert w == next;
      CutNumber(0, 0, next);
      assert FormatInt(0)[..0] + next == next;
    } else {
      match v
      case Num(n) =>
        CutNumber(n, k, next);
        assert w[0] == FormatInt(n)[0] != QUOTE by { NumberStart(n); }
      case Str(s) =>
        if k == |e| {
          assert w[1..] == Escape(s) + [QUOTE] + next;
          UnquoteEscape(s, next);
        } else {
          assert w[1..] == Escape(s)[..k - 1] + next;
          CutString(s, k - 1, next);
        }
    }
  }

  lemma NumberStart(n: int)
    ensures FormatInt(n)[0] != QUOTE
  {
    if n >= 0 { assert IsDigit(FormatInt(n)[0]); }
  }

  lemma MemberPrefix(m: Member, k: nat)
    requires k <= |EncodeMember(m)|
    ensures |EncodeMember(m)| == |m.key| + 3 + |EncodeValue(m.value)|
    ensures 1 <= k <= 1 + |m.key| ==> EncodeMember(m)[..k] == [QUOTE] + m.key[..k - 1]
    ensures k == 2 + |m.key| ==> EncodeMember(m)[..k] == [QUOTE] + m.key + [QUOTE]
    ensures k >= 3 + |m.key| ==>
              EncodeMember(m)[..k] == [QUOTE] + m.key + [QUOTE] + ([COLON] + EncodeValue(m.value)[..k - 3 - |m.key|])
  {
    hide EncodeValue;
    assert [QUOTE, COLON] == [QUOTE] + [COLON];
  }

  lemma CutMember(m: Member, k: nat, next: Bytes)
    requires PlainKey(m.key) && k <= |EncodeMember(m)| && Strays(next)
    ensures var p := ParseMember(EncodeMember(m)[..k] + next);
            p.Ok? ==> Derailed(p.rest)
  {
    hide EncodeMember, EncodeValue, ParseValue, Unquote;
    var w, n := EncodeMember(m)[..k] + next, |m.key|;
    MemberPrefix(m, k);
    if k == 0 {
      assert w == next;
    } else if k <= 1 + n {
      assert w[1..] == m.key[..k - 1] + next;
      CutKey(m.key[..k - 1], next);
    } else if k == 2 + n {
      assert w[1..] == m.key + [QUOTE] + next;
      UnquotePlain(m.key, next);
    } else {
      var tail := [COLON] + (EncodeValue(m.value)[..k - 3 - n] + next);
      assert w[1..] == m.key + [QUOTE] + tail;
      UnquotePlain(m.key, tail);
      assert tail[1..] == EncodeValue(m.value)[..k - 3 - n] + next;
      CutValue(m.value, k - 3 - n, next);
    }
  }

  lemma {:induction false} CutMembers(ms: seq<Member>, k: nat, next: Bytes)
    requires ms != [] && forall i :: 0 <= i < |ms| ==> PlainKey(ms[i].key)
    requires k <= |EncodeMembers(ms)| && Strays(next)
    ensures var p := ParseMembers(EncodeMembers(ms)[..k] + next);
            p.Ok? ==> k == |EncodeMembers(ms)| && p.rest == next
    decreases |ms|
  {
    hide EncodeMember, ParseMember, SanitizeValue, Strays;
    var w, e := EncodeMembers(ms)[..k] + next, EncodeMember(ms[0]);
    if k <= |e| {
      assert EncodeMembers(ms)[..k] == e[..k];
      CutMember(ms[0], k, next);
    } else if |ms| == 1 {
      assert EncodeMembers(ms)[..k] == e + [CLOSE];
      assert e + [CLOSE] + next == e + ([CLOSE] + next);
      ParseEncodeMember(ms[0], [CLOSE] + next);
      assert ([CLOSE] + next)[1..] == next;
    } else {
      var more, tail := EncodeMembers(ms[1..]), EncodeMembers(ms[1..])[..k - |e| - 1] + next;
      assert EncodeMembers(ms) == e + ([COMMA] + more);
      assert EncodeMembers(ms)[..k] == e + [COMMA] + more[..k - |e| - 1];
      assert w == e + ([COMMA] + tail);
      ParseEncodeMember(ms[0], [COMMA] + tail);
      assert ([COMMA] + tail)[1..] == tail;
      CutMembers(ms[1..], k - |e| - 1, next);
    }
  }

  /** An object cut off anywhere behind its first byte, or whole but not alone, cannot be read, whatever was glued to it. */
  lemma CutObject(ms: seq<Member>, k: nat, next: Bytes)
    requires ms != [] && forall i :: 0 <= i < |ms| ==> PlainKey(ms[i].key)
    requires 1 <= k <= |EncodeObject(ms)| && Strays(next) && (k == |EncodeObject(ms)| ==> next != [])
    ensures DecodeObject(EncodeObject(ms)[..k] + next) == None
  {
    hide EncodeMembers, ParseMembers, Unquote, ClosedBadly;
    var w := EncodeObject(ms)[..k] + next;
    assert w[0] == OPEN && w[1..] == EncodeMembers(ms)[..k - 1] + next;
    MembersStart(ms);
    if k >= 2 { assert w[1] == EncodeMembers(ms)[0]; }
    CutMembers(ms, k - 1, next);
  }

  lemma MembersStart(ms: seq<Member>)
    requires ms != []
    ensures EncodeMembers(ms) != [] && EncodeMembers(ms)[0] == QUOTE
  {
    hide EncodeValue;
    assert EncodeMembers(ms)[0] == EncodeMember(ms[0])[0];
  }
}
