/** How long the written lines are: within the column sizes every line fits every scanner with room to spare. */
module LineLengths {
  import opened ByteStrings
  import opened Chain
  import opened Json
  import opened ArchiveFile
  import opened EventRows
  import Utf8

  // ---------- numbers and strings ----------

  function TenTo(k: nat): (p: nat)
    ensures p > 0
  {
    if k == 0 then 1 else 10 * TenTo(k - 1)
  }

  lemma {:induction false} DecimalLength(n: nat, k: nat)
    requires k > 0 && n < TenTo(k)
    ensures |Decimal(n)| <= k
  {
    if n >= 10 {
      assert k > 1 by { assert TenTo(1) == 10 * TenTo(0); }
      DecimalLength(n / 10, k - 1);
    }
  }

  lemma NineteenDigits()
    ensures TenTo(19) == 10_000_000_000_000_000_000
  {
    assert TenTo(4) == 10_000;
    assert TenTo(8) == 100_000_000;
    assert TenTo(12) == 1_000_000_000_000;
    assert TenTo(16) == 10_000_000_000_000_000;
  }

  predicate IsInt64(n: int) {
    -0x8000_0000_0000_0000 <= n < 0x8000_0000_0000_0000
  }

  lemma Int64Length(n: int)
    requires IsInt64(n)
    ensures |FormatInt(n)| <= 20
  {
    NineteenDigits();
    DecimalLength(if n < 0 then -n else n, 19);
  }

  /** The value takes at most this much in a line. */
  predicate ShortValue(v: Value, n: nat) {
    match v
    case Num(i) => IsInt64(i) && n >= 20
    case Str(s) => 6 * |s| + 2 <= n
  }

  lemma ValueLength(v: Value, n: nat)
    requires ShortValue(v, n)
    ensures |EncodeValue(v)| <= n
  {
    match v
    case Num(i) => Int64Length(i);
    case Str(s) => EscapeLength(s);
  }

  /** An object whose members are short, one of them perhaps excepted. */
  lemma {:induction false} MembersLength(ms: seq<Member>, i: int, n: nat, long: nat)
    requires ms != [] && forall j :: 0 <= j < |ms| && j != i ==> |EncodeMember(ms[j])| <= n
    requires 0 <= i < |ms| ==> |EncodeMember(ms[i])| <= long
    ensures |EncodeMembers(ms)| <= |ms| * (n + 1) + if 0 <= i < |ms| then long else 0
    decreases |ms|
  {
    hide EncodeMember;
    if |ms| > 1 {
      MembersLength(ms[1..], i - 1, n, long);
      OneMoreTimes(|ms| - 1, n + 1);
    }
  }

  lemma OneMoreTimes(k: int, n: int)
    ensures (k + 1) * n == k * n + n
  {
  }

  /** Values within their bounds, the i-th within its own, make a line within theirs. */
  lemma ObjectLength(keys: seq<Bytes>, vs: seq<Value>, i: int, n: nat, long: nat)
    requires 0 < |keys| == |vs| && forall j :: 0 <= j < |keys| ==> |keys[j]| <= 13
    requires forall j :: 0 <= j < |vs| && j != i ==> ShortValue(vs[j], n)
    requires 0 <= i < |vs| ==> ShortValue(vs[i], long)
    ensures |EncodeObject(Zip(keys, vs))| <= |keys| * (n + 17) + long + 17
  {
    hide EncodeValue, ShortValue, EncodeMembers;
    var ms := Zip(keys, vs);
    forall j | 0 <= j < |ms| ensures |EncodeMember(ms[j])| <= 16 + if j == i then long else n {
      ValueLength(vs[j], if j == i then long else n);
    }
    MembersLength(ms, i, n + 16, long + 16);
  }

  // ---------- rows ----------

  /** Within the columns, text that JSON has sanitized included: a replaced byte becomes three. */
  predicate Bounded(c: Content) {
    && IsInt64(c.tsMicro)
    && |c.eventId| <= 3 * MAX_EVENT_ID && |c.actor| <= 3 * MAX_ACTOR && |c.actorType| <= 3 * MAX_ACTOR_TYPE
    && |c.ownerId| <= 3 * MAX_OWNER_ID && |c.ip| <= 3 * MAX_IP && |c.action| <= 3 * MAX_ACTION
    && |c.resourceType| <= 3 * MAX_RESOURCE_TYPE && |c.resourceId| <= 3 * MAX_RESOURCE_ID
    && |c.result| <= 3 * MAX_RESULT && |c.reason| <= 3 * MAX_REASON && |c.traceId| <= 3 * MAX_TRACE_ID
    && |c.extra| <= MAX_EXTRA
  }

  /** Every recorded event is. */
  lemma RecordedIsBounded(id: Bytes, e: Event)
    ensures Bounded(RowFromEvent(id, e))
  {
    hide Utf8.Truncated, CanonicalExtra;
    ExtraIsText(e.extra);
  }

  lemma {:induction false} SanitizedLength(s: Bytes)
    ensures |Sanitize(s)| <= 3 * |s|
    decreases |s|
  {
    hide Utf8.Valid;
    if s != [] {
      SanitizedLength(s[(if Utf8.RuneLen(s) == 0 then 1 else Utf8.RuneLen(s))..]);
    }
  }

  /** And so is what the spool makes of it. */
  lemma ReplayedIsBounded(id: Bytes, e: Event, r: Row)
    requires r.content == RowFromEvent(id, e)
    ensures Bounded(SanitizeRow(r).content)
  {
    hide Utf8.Truncated, CanonicalExtra, Sanitize;
    var c := RowFromEvent(id, e);
    ExtraIsText(e.extra);
    SanitizedLength(c.eventId);
    SanitizedLength(c.actor);
    SanitizedLength(c.actorType);
    SanitizedLength(c.ownerId);
    SanitizedLength(c.ip);
    SanitizedLength(c.action);
    SanitizedLength(c.resourceType);
    SanitizedLength(c.resourceId);
    SanitizedLength(c.result);
    SanitizedLength(c.reason);
    SanitizedLength(c.traceId);
  }

  predicate BoundedRow(r: Row) {
    Bounded(r.content) && IsInt64(r.seqNo) && |r.prevHash| <= 64 && |r.hash| <= 64
  }

  const MAX_LINE: nat := 1024 * 1024

  lemma RowKeyLengths()
    ensures |ROW_KEYS| == 16 && |HEADER_KEYS| == 7 && |FOOTER_KEYS| == 3
    ensures forall i :: 0 <= i < 16 ==> |ROW_KEYS[i]| <= 13
    ensures forall i :: 0 <= i < 7 ==> |HEADER_KEYS[i]| <= 13
    ensures forall i :: 0 <= i < 3 ==> |FOOTER_KEYS[i]| <= 13
  {
  }

  /** A line of a bounded row stays below one MiB; the scanners take four and sixteen. */
  lemma RowLineLength(r: Row)
    requires BoundedRow(r)
    ensures |EncodeRow(r)| < MAX_LINE
  {
    RowKeyLengths();
    hide ROW_KEYS, HEADER_KEYS, FOOTER_KEYS, EncodeObject;
    ObjectLength(ROW_KEYS, RowValues(r), 13, 18 * MAX_REASON + 2, 6 * MAX_EXTRA + 2);
  }

  lemma HeaderLength(first: int, last: int, prev: Bytes, count: nat)
    requires IsInt64(first) && IsInt64(last) && IsInt64(count) && |prev| <= 64
    ensures |HeaderLine(first, last, prev, count)| < MAX_LINE
  {
    RowKeyLengths();
    hide ROW_KEYS, HEADER_KEYS, FOOTER_KEYS, EncodeObject;
    assert |HASH_ALGORITHM| == 21;
    ObjectLength(HEADER_KEYS, HeaderValues(first, last, prev, count), -1, 400, 0);
  }

  lemma FooterLength(lastHash: Bytes, count: nat)
    requires IsInt64(count) && |lastHash| <= 64
    ensures |FooterLine(lastHash, count)| < MAX_LINE
  {
    RowKeyLengths();
    hide ROW_KEYS, HEADER_KEYS, FOOTER_KEYS, EncodeObject;
    ObjectLength(FOOTER_KEYS, FooterValues(lastHash, count), -1, 400, 0);
  }
}
