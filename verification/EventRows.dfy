/** How an event becomes a row (internal/audit/hash.go): every column is cut to its size, extra is a canonical JSON object. */
module EventRows {
  import opened ByteStrings
  import opened Chain
  import opened Json
  import Utf8

  type int64 = x: int | -0x8000_0000_0000_0000 <= x < 0x8000_0000_0000_0000

  /** What a caller records; the time in microseconds. */
  datatype Event = Event(
    tsMicro: int64, actor: Bytes, actorType: Bytes, ownerId: Bytes, ip: Bytes, action: Bytes, resourceType: Bytes,
    resourceId: Bytes, result: Bytes, reason: Bytes, traceId: Bytes, extra: map<Bytes, Bytes>)

  const MAX_EVENT_ID: nat := 64
  const MAX_ACTOR: nat := 128
  const MAX_ACTOR_TYPE: nat := 16
  const MAX_OWNER_ID: nat := 64
  const MAX_IP: nat := 64
  const MAX_ACTION: nat := 255
  const MAX_RESOURCE_TYPE: nat := 64
  const MAX_RESOURCE_ID: nat := 255
  const MAX_RESULT: nat := 16
  const MAX_REASON: nat := 512
  const MAX_TRACE_ID: nat := 128
  const MAX_EXTRA_KEY: nat := 64
  const MAX_EXTRA_VALUE: nat := 512
  const MAX_EXTRA_ENTRIES: nat := 32

  // ---------- sorted keys ----------

  /** The order of Go's strings. */
  predicate Less(a: Bytes, b: Bytes) {
    b != [] && (a == [] || a[0] < b[0] || (a[0] == b[0] && Less(a[1..], b[1..])))
  }

  lemma {:induction false} LessIsTotal(a: Bytes, b: Bytes)
    ensures !(Less(a, b) && Less(b, a)) && (a != b ==> Less(a, b) || Less(b, a))
  {
    if a != [] && b != [] {
      assert a == [a[0]] + a[1..] && b == [b[0]] + b[1..];
      LessIsTotal(a[1..], b[1..]);
    }
  }

  lemma {:induction false} LessIsTransitive(a: Bytes, b: Bytes, c: Bytes)
    requires Less(a, b) && Less(b, c)
    ensures Less(a, c)
    decreases |a|
  {
    if a != [] && a[0] == b[0] == c[0] {
      LessIsTransitive(a[1..], b[1..], c[1..]);
    }
  }

  /** A prefix comes first; else the first byte that differs decides. */
  lemma {:induction false} LessMeaning(p: Bytes, s: Bytes, t: Bytes)
    ensures Less(p + s, p + t) <==> (s == [] && t != []) || (s != [] && t != [] && (s[0] < t[0] || (s[0] == t[0] && Less(s[1..], t[1..]))))
    ensures s != [] && t != [] && s[0] < t[0] ==> Less(p + s, p + t) && !Less(p + t, p + s)
    ensures t != [] ==> Less(p, p + t)
  {
    if p == [] {
      assert [] + s == s && [] + t == t;
    } else {
      LessMeaning(p[1..], s, t);
      assert (p + s)[1..] == p[1..] + s && (p + t)[1..] == p[1..] + t;
    }
  }

  predicate Ascending(keys: seq<Bytes>) {
    forall i, j :: 0 <= i < j < |keys| ==> Less(keys[i], keys[j])
  }

  /** The keys of a map in ascending order. */
  predicate Lists(order: seq<Bytes>, keys: set<Bytes>) {
    Ascending(order) && (forall k :: k in keys ==> k in order) && (forall k :: k in order ==> k in keys)
  }

  function InsertKey(k: Bytes, order: seq<Bytes>): seq<Bytes> {
    if order == [] || Less(k, order[0]) then [k] + order else [order[0]] + InsertKey(k, order[1..])
  }

  lemma {:induction false} InsertedKey(k: Bytes, order: seq<Bytes>)
    requires Ascending(order) && k !in order
    ensures Ascending(InsertKey(k, order)) && forall x :: x in InsertKey(k, order) <==> x == k || x in order
  {
    hide Less;
    if order != [] {
      var first, rest := order[0], order[1..];
      assert order == [first] + rest;
      LessIsTotal(k, first);
      if Less(k, first) {
        forall i | 0 <= i < |order| ensures Less(k, order[i]) {
          if i > 0 { LessIsTransitive(k, first, order[i]); }
        }
      } else {
        InsertedKey(k, rest);
        forall x | x in InsertKey(k, rest) ensures Less(first, x) {
        }
      }
    }
  }

  /** Two ascending lists of the same keys are equal: the iteration order of a map leaves no trace. */
  lemma {:induction false} ListingIsUnique(a: seq<Bytes>, b: seq<Bytes>, keys: set<Bytes>)
    requires Lists(a, keys) && Lists(b, keys)
    ensures a == b && |a| == |keys|
    decreases |a|
  {
    hide Less;
    EmptyListing(a, keys);
    EmptyListing(b, keys);
    if a != [] && b != [] {
      assert a == [a[0]] + a[1..] && b == [b[0]] + b[1..];
      assert a[0] == b[0] by { LeastIsUnique(a, b, keys); }
      LessIsTotal(a[0], a[0]);
      assert Lists(a[1..], keys - {a[0]}) && Lists(b[1..], keys - {a[0]}) by {
        RestIsListed(a, keys);
        RestIsListed(b, keys);
      }
      ListingIsUnique(a[1..], b[1..], keys - {a[0]});
    }
  }

  lemma EmptyListing(a: seq<Bytes>, keys: set<Bytes>)
    requires Lists(a, keys)
    ensures a == [] <==> keys == {}
  {
    hide Less;
    assert forall k :: k in keys <==> k in a;
    assert a != [] ==> a[0] in a;
  }

  lemma LeastIsUnique(a: seq<Bytes>, b: seq<Bytes>, keys: set<Bytes>)
    requires Lists(a, keys) && Lists(b, keys) && a != [] && b != []
    ensures a[0] == b[0]
  {
    hide Less;
    LessIsTotal(a[0], b[0]);
    assert a[0] in keys && b[0] in keys;
    assert a[0] in b && b[0] in a;
  }

  lemma RestIsListed(a: seq<Bytes>, keys: set<Bytes>)
    requires Lists(a, keys) && a != []
    ensures Lists(a[1..], keys - {a[0]})
  {
    hide Less;
    assert a == [a[0]] + a[1..];
    LessIsTotal(a[0], a[0]);
  }

  lemma {:induction false} SomeListing(keys: set<Bytes>) returns (order: seq<Bytes>)
    ensures Lists(order, keys)
  {
    order := [];
    if keys != {} {
      var k :| k in keys;
      var rest := SomeListing(keys - {k});
      InsertedKey(k, rest);
      order := InsertKey(k, rest);
    }
  }

  lemma ListingExists(keys: set<Bytes>)
    ensures exists order :: Lists(order, keys)
  {
    var order := SomeListing(keys);
  }

  /** sort.Strings of a map's keys. */
  ghost function SortedKeys(keys: set<Bytes>): (order: seq<Bytes>)
    ensures Lists(order, keys)
  {
    ListingExists(keys);
    var order :| Lists(order, keys);
    order
  }

  method SortKeys(keys: set<Bytes>) returns (order: seq<Bytes>)
    ensures order == SortedKeys(keys)
  {
    hide Less, Ascending, InsertKey;
    order := [];
    var todo := keys;
    assert Lists([], {}) by { NothingListed(); }
    while todo != {}
      invariant todo <= keys && Lists(order, keys - todo)
      decreases |todo|
    {
      var k :| k in todo;
      InsertedKey(k, order);
      order := InsertKey(k, order);
      todo := todo - {k};
    }
    assert keys - {} == keys;
    ListingIsUnique(order, SortedKeys(keys), keys);
  }

  lemma NothingListed()
    ensures Lists([], {})
  {
  }

  // ---------- canonicalExtra ----------

  /** The entries kept, cut to size; of keys that are cut to the same one the last wins. */
  function CutEntries(order: seq<Bytes>, m: map<Bytes, Bytes>): map<Bytes, Bytes>
    requires forall k :: k in order ==> k in m
  {
    if order == [] then map[]
    else
      var n := |order| - 1;
      CutEntries(order[..n], m)[Utf8.Truncated(order[n], MAX_EXTRA_KEY) := Utf8.Truncated(m[order[n]], MAX_EXTRA_VALUE)]
  }

  function EncodeEntry(k: Bytes, v: Bytes): Bytes {
    [QUOTE] + Escape(k) + [QUOTE, COLON, QUOTE] + Escape(v) + [QUOTE]
  }

  /** The entries of a JSON object, separated by commas. */
  function EncodeEntries(order: seq<Bytes>, m: map<Bytes, Bytes>): Bytes
    requires forall k :: k in order ==> k in m
  {
    if order == [] then []
    else
      var n := |order| - 1;
      EncodeEntries(order[..n], m) + (if n > 0 then [COMMA] else []) + EncodeEntry(order[n], m[order[n]])
  }

  function FirstKeys(order: seq<Bytes>): (kept: seq<Bytes>)
    ensures kept <= order && |kept| <= MAX_EXTRA_ENTRIES
  {
    if |order| > MAX_EXTRA_ENTRIES then order[..MAX_EXTRA_ENTRIES] else order
  }

  ghost function CanonicalExtra(m: map<Bytes, Bytes>): Bytes {
    if m == map[] then []
    else
      var out := CutEntries(FirstKeys(SortedKeys(m.Keys)), m);
      [OPEN] + EncodeEntries(SortedKeys(out.Keys), out) + [CLOSE]
  }

  /** canonicalExtra: the same bytes for the same map, whatever the order in which the runtime visits it. */
  method RenderExtra(m: map<Bytes, Bytes>) returns (extra: Bytes)
    ensures extra == CanonicalExtra(m)
  {
    hide Lists, Escape, Utf8.Truncated;
    if m == map[] {
      return [];
    }
    var keys := SortKeys(m.Keys);
    keys := FirstKeys(keys);
    assert forall k :: k in keys ==> k in m by { ListedKeys(m.Keys); }
    var out := map[];
    for i := 0 to |keys|
      invariant out == CutEntries(keys[..i], m)
    {
      assert keys[..i + 1][..i] == keys[..i];
      out := out[Utf8.Truncated(keys[i], MAX_EXTRA_KEY) := Utf8.Truncated(m[keys[i]], MAX_EXTRA_VALUE)];
    }
    assert keys[..|keys|] == keys;
    var order := SortKeys(out.Keys);
    assert forall k :: k in order ==> k in out by { ListedKeys(out.Keys); }
    extra := [];
    for i := 0 to |order|
      invariant extra == EncodeEntries(order[..i], out)
    {
      assert order[..i + 1][..i] == order[..i];
      extra := extra + (if i > 0 then [COMMA] else []) + EncodeEntry(order[i], out[order[i]]);
    }
    assert order[..|order|] == order;
    extra := [OPEN] + extra + [CLOSE];
  }

  lemma ListedKeys(keys: set<Bytes>)
    ensures forall k :: k in SortedKeys(keys) ==> k in keys
  {
  }

  // ---------- lengths and text ----------

  lemma EscapeUnitLength(s: Bytes)
    requires s != []
    ensures |EscapeUnit(s)| <= 6 * UnitLen(s)
    ensures Utf8.Valid(EscapeUnit(s))
  {
    var e := EscapeUnit(s);
    if s[0] < 0x80 || Utf8.RuneLen(s) == 0 || IsLineSeparator(s) {
      assert forall i :: 0 <= i < |e| ==> e[i] < 0x80;
      AsciiIsText(e);
    } else {
      Utf8.RuneLenOfPrefix(s, Utf8.RuneLen(s));
      assert e[|e|..] == [];
    }
  }

  lemma {:induction false} AsciiIsText(s: Bytes)
    requires forall i :: 0 <= i < |s| ==> s[i] < 0x80
    ensures Utf8.Valid(s)
  {
    if s != [] {
      AsciiIsText(s[1..]);
    }
  }

  /** A written string is text, at most six times as long as what it stands for. */
  lemma {:induction false} EscapeLength(s: Bytes)
    ensures |Escape(s)| <= 6 * |s| && Utf8.Valid(Escape(s))
    decreases |s|
  {
    hide EscapeUnit, UnitLen, Utf8.Valid;
    if s == [] {
      assert Utf8.Valid([]) by { AsciiIsText([]); }
    } else {
      EscapeUnitLength(s);
      EscapeLength(s[UnitLen(s)..]);
      Utf8.ValidConcat(EscapeUnit(s), Escape(s[UnitLen(s)..]));
    }
  }

  lemma EntryIsText(k: Bytes, v: Bytes)
    ensures Utf8.Valid(EncodeEntry(k, v))
    ensures |EncodeEntry(k, v)| <= 6 * |k| + 6 * |v| + 5
  {
    hide Escape, Utf8.Valid;
    EscapeLength(k);
    EscapeLength(v);
    AsciiIsText([QUOTE]);
    AsciiIsText([QUOTE, COLON, QUOTE]);
    Utf8.ValidConcat([QUOTE], Escape(k));
    Utf8.ValidConcat([QUOTE] + Escape(k), [QUOTE, COLON, QUOTE]);
    Utf8.ValidConcat([QUOTE] + Escape(k) + [QUOTE, COLON, QUOTE], Escape(v));
    Utf8.ValidConcat([QUOTE] + Escape(k) + [QUOTE, COLON, QUOTE] + Escape(v), [QUOTE]);
  }

  predicate EntriesCut(m: map<Bytes, Bytes>) {
    forall k :: k in m ==> |k| <= MAX_EXTRA_KEY && |m[k]| <= MAX_EXTRA_VALUE
  }

  const MAX_ENTRY: nat := 6 * 64 + 6 * 512 + 6

  lemma {:induction false} EntriesAreText(order: seq<Bytes>, m: map<Bytes, Bytes>)
    requires EntriesCut(m) && forall k :: k in order ==> k in m
    ensures Utf8.Valid(EncodeEntries(order, m))
    ensures |EncodeEntries(order, m)| <= |order| * MAX_ENTRY
  {
    hide EncodeEntry, Utf8.Valid, EntriesCut, MAX_ENTRY;
    if order == [] {
      AsciiIsText([]);
    } else {
      var n := |order| - 1;
      EntriesAreText(order[..n], m);
      EntryFits(order[n], m);
      var before, comma, last := EncodeEntries(order[..n], m), if n > 0 then [COMMA] else [], EncodeEntry(order[n], m[order[n]]);
      AsciiIsText(comma);
      ThreeTexts(before, comma, last);
      assert EncodeEntries(order, m) == before + comma + last;
      assert |before| + |comma| + |last| <= |order| * MAX_ENTRY by { OneEntryMore(n); }
    }
  }

  lemma OneEntryMore(n: nat)
    ensures (n + 1) * MAX_ENTRY == n * MAX_ENTRY + MAX_ENTRY
  {
  }

  lemma EntryFits(k: Bytes, m: map<Bytes, Bytes>)
    requires EntriesCut(m) && k in m
    ensures Utf8.Valid(EncodeEntry(k, m[k])) && |EncodeEntry(k, m[k])| < MAX_ENTRY
  {
    hide EncodeEntry;
    EntryIsText(k, m[k]);
  }

  lemma ThreeTexts(a: Bytes, b: Bytes, c: Bytes)
    requires Utf8.Valid(a) && Utf8.Valid(b) && Utf8.Valid(c)
    ensures Utf8.Valid(a + b + c)
  {
    Utf8.ValidConcat(a, b);
    Utf8.ValidConcat(a + b, c);
  }

  lemma {:induction false} CutEntriesAreCut(order: seq<Bytes>, m: map<Bytes, Bytes>)
    requires forall k :: k in order ==> k in m
    ensures EntriesCut(CutEntries(order, m)) && |CutEntries(order, m).Keys| <= |order|
  {
    hide Utf8.Truncated;
    if order != [] {
      var n := |order| - 1;
      var before, k := CutEntries(order[..n], m), Utf8.Truncated(order[n], MAX_EXTRA_KEY);
      CutEntriesAreCut(order[..n], m);
      assert CutEntries(order, m).Keys == before.Keys + {k};
    }
  }

  const MAX_EXTRA: nat := 2 + 32 * MAX_ENTRY

  /** The extra column is text and bounded, whatever the event carries. */
  lemma ExtraIsText(m: map<Bytes, Bytes>)
    ensures Utf8.Valid(CanonicalExtra(m)) && |CanonicalExtra(m)| <= MAX_EXTRA
  {
    hide Utf8.Valid, Lists, CutEntries, EncodeEntries, EntriesCut;
    if m == map[] {
      AsciiIsText([]);
    } else {
      ListedKeys(m.Keys);
      var kept := FirstKeys(SortedKeys(m.Keys));
      var out := CutEntries(kept, m);
      var order := SortedKeys(out.Keys);
      CutEntriesAreCut(kept, m);
      ListedKeys(out.Keys);
      ListingIsUnique(order, order, out.Keys);
      EntriesAreText(order, out);
      AsciiIsText([OPEN]);
      AsciiIsText([CLOSE]);
      ThreeTexts([OPEN], EncodeEntries(order, out), [CLOSE]);
    }
  }

  // ---------- rowFromEvent ----------

  ghost function RowFromEvent(id: Bytes, e: Event): Content {
    Content(Utf8.Truncated(id, MAX_EVENT_ID), e.tsMicro, Utf8.Truncated(e.actor, MAX_ACTOR),
            Utf8.Truncated(e.actorType, MAX_ACTOR_TYPE), Utf8.Truncated(e.ownerId, MAX_OWNER_ID),
            Utf8.Truncated(e.ip, MAX_IP), Utf8.Truncated(e.action, MAX_ACTION),
            Utf8.Truncated(e.resourceType, MAX_RESOURCE_TYPE), Utf8.Truncated(e.resourceId, MAX_RESOURCE_ID),
            Utf8.Truncated(e.result, MAX_RESULT), Utf8.Truncated(e.reason, MAX_REASON),
            Utf8.Truncated(e.traceId, MAX_TRACE_ID), CanonicalExtra(e.extra))
  }

  /** The column holds the text itself when it fits, and else the longest valid prefix that does. */
  predicate Column(t: Bytes, s: Bytes, size: nat) {
    && t <= s && (|s| <= size ==> t == s)
    && (|s| > size ==> |t| <= size && Utf8.Valid(t) && forall k :: |t| < k <= size ==> !Utf8.Valid(s[..k]))
  }

  lemma {:induction false} LongestValidPrefix(s: Bytes)
    ensures forall k :: |Utf8.ValidPrefix(s)| < k <= |s| ==> !Utf8.Valid(s[..k])
    decreases |s|
  {
    hide Utf8.Valid;
    assert s[..|s|] == s;
    if s != [] && !Utf8.Valid(s) {
      LongestValidPrefix(s[..|s| - 1]);
      assert forall k :: 0 <= k < |s| ==> s[..|s| - 1][..k] == s[..k];
    }
  }

  lemma TruncatedColumn(s: Bytes, size: nat)
    ensures Column(Utf8.Truncated(s, size), s, size)
  {
    hide Utf8.Valid;
    if |s| > size {
      LongestValidPrefix(s[..size]);
      assert forall k :: 0 <= k <= size ==> s[..size][..k] == s[..k];
    }
  }

  /** Each property of an event stands in its own column of the row, and the time as it is. */
  ghost predicate InColumns(c: Content, id: Bytes, e: Event) {
    && Column(c.eventId, id, 64) && c.tsMicro == e.tsMicro
    && Column(c.actor, e.actor, 128) && Column(c.actorType, e.actorType, 16)
    && Column(c.ownerId, e.ownerId, 64) && Column(c.ip, e.ip, 64)
    && Column(c.action, e.action, 255) && Column(c.resourceType, e.resourceType, 64)
    && Column(c.resourceId, e.resourceId, 255) && Column(c.result, e.result, 16)
    && Column(c.reason, e.reason, 512) && Column(c.traceId, e.traceId, 128)
    && c.extra == CanonicalExtra(e.extra)
  }

  lemma RecordedColumns(id: Bytes, e: Event)
    ensures InColumns(RowFromEvent(id, e), id, e)
  {
    hide Column, CanonicalExtra, Utf8.Truncated;
    forall s: Bytes, size: nat ensures Column(Utf8.Truncated(s, size), s, size) {
      TruncatedColumn(s, size);
    }
  }

  method MakeRow(id: Bytes, e: Event) returns (c: Content)
    ensures c == RowFromEvent(id, e) && InColumns(c, id, e)
  {
    hide Utf8.Truncated, CanonicalExtra, InColumns;
    RecordedColumns(id, e);
    var eventId := Utf8.Truncate(id, MAX_EVENT_ID);
    var actor := Utf8.Truncate(e.actor, MAX_ACTOR);
    var actorType := Utf8.Truncate(e.actorType, MAX_ACTOR_TYPE);
    var ownerId := Utf8.Truncate(e.ownerId, MAX_OWNER_ID);
    var ip := Utf8.Truncate(e.ip, MAX_IP);
    var action := Utf8.Truncate(e.action, MAX_ACTION);
    var resourceType := Utf8.Truncate(e.resourceType, MAX_RESOURCE_TYPE);
    var resourceId := Utf8.Truncate(e.resourceId, MAX_RESOURCE_ID);
    var result := Utf8.Truncate(e.result, MAX_RESULT);
    var reason := Utf8.Truncate(e.reason, MAX_REASON);
    var traceId := Utf8.Truncate(e.traceId, MAX_TRACE_ID);
    var extra := RenderExtra(e.extra);
    c := Content(eventId, e.tsMicro, actor, actorType, ownerId, ip, action, resourceType, resourceId, result, reason,
                 traceId, extra);
  }
}
