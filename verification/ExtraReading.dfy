/** What the extra column says: the JSON object that canonicalExtra writes (internal/audit/hash.go), read back. */
module ExtraReading {
  import opened ByteStrings
  import opened EventRows
  import opened Json
  import opened Options
  import Utf8

  /** The last of the first n keys that is cut to what it is cut to. */
  predicate LastCut(order: seq<Bytes>, n: nat, i: nat)
    requires i < n <= |order|
  {
    forall j :: i < j < n ==> Utf8.Truncated(order[j], 64) != Utf8.Truncated(order[i], 64)
  }

  lemma {:induction false} CutKeys(order: seq<Bytes>, m: map<Bytes, Bytes>, k: Bytes)
    requires forall k :: k in order ==> k in m
    ensures k in CutEntries(order, m) <==> exists i :: 0 <= i < |order| && Utf8.Truncated(order[i], 64) == k
  {
    hide Utf8.Truncated;
    if order != [] {
      var n := |order| - 1;
      CutKeys(order[..n], m, k);
      assert forall i :: 0 <= i < n ==> order[..n][i] == order[i];
      if i :| 0 <= i < |order| && Utf8.Truncated(order[i], 64) == k && i < n {
        assert Utf8.Truncated(order[..n][i], 64) == k;
      }
    }
  }

  lemma {:induction false} CutValue(order: seq<Bytes>, m: map<Bytes, Bytes>, i: nat)
    requires forall k :: k in order ==> k in m
    requires i < |order| && LastCut(order, |order|, i)
    ensures var k := Utf8.Truncated(order[i], 64);
            k in CutEntries(order, m) && CutEntries(order, m)[k] == Utf8.Truncated(m[order[i]], 512)
  {
    hide Utf8.Truncated;
    var n := |order| - 1;
    if i < n {
      assert forall j :: 0 <= j < n ==> order[..n][j] == order[j];
      CutValue(order[..n], m, i);
    }
  }

  lemma OneMoreEntry(order: seq<Bytes>, m: map<Bytes, Bytes>, k: Bytes)
    requires k in m && forall x :: x in order ==> x in m
    ensures EncodeEntries(order + [k], m)
         == EncodeEntries(order, m) + (if order == [] then [] else [COMMA]) + EncodeEntry(k, m[k])
  {
    hide EncodeEntry;
    assert (order + [k])[..|order|] == order;
  }

  lemma {:induction false} FrontEntry(k: Bytes, order: seq<Bytes>, m: map<Bytes, Bytes>)
    requires k in m && forall x :: x in order ==> x in m
    ensures EncodeEntries([k] + order, m)
         == EncodeEntry(k, m[k]) + if order == [] then [] else [COMMA] + EncodeEntries(order, m)
    decreases |order|
  {
    hide EncodeEntry, EncodeEntries;
    if order == [] {
      OneMoreEntry([], m, k);
      assert [] + [k] == [k] + order;
      assert EncodeEntries([], m) == [] by { NoEntries(m); }
    } else {
      var init, last := order[..|order| - 1], order[|order| - 1];
      assert order == init + [last] && [k] + order == [k] + init + [last];
      FrontEntry(k, init, m);
      OneMoreEntry(init, m, last);
      OneMoreEntry([k] + init, m, last);
      assert init == [] ==> EncodeEntries(init, m) == [] by { NoEntries(m); }
    }
  }

  lemma NoEntries(m: map<Bytes, Bytes>)
    ensures EncodeEntries([], m) == []
  {
  }

  lemma ParseEntry(k: Bytes, v: Bytes, rest: Bytes)
    ensures ParseMember(EncodeEntry(k, v) + rest) == Json.Ok(Member(Sanitize(k), Str(Sanitize(v))), rest)
  {
    hide Escape, Sanitize, Unquote;
    var value := [QUOTE] + Escape(v) + [QUOTE] + rest;
    var line := EncodeEntry(k, v) + rest;
    assert line[1..] == Escape(k) + [QUOTE] + ([COLON] + value);
    UnquoteEscape(k, [COLON] + value);
    assert ([COLON] + value)[1..] == value && value[1..] == Escape(v) + [QUOTE] + rest;
    UnquoteEscape(v, rest);
  }

  /** What a reader finds in the written object. */
  function ReadEntries(order: seq<Bytes>, m: map<Bytes, Bytes>): (ms: seq<Member>)
    requires forall k :: k in order ==> k in m
    ensures |ms| == |order|
  {
    seq(|order|, i requires 0 <= i < |order| => Member(Sanitize(order[i]), Str(Sanitize(m[order[i]]))))
  }

  lemma {:induction false} ParseEntries(order: seq<Bytes>, m: map<Bytes, Bytes>, rest: Bytes)
    requires order != [] && forall k :: k in order ==> k in m
    ensures ParseMembers(EncodeEntries(order, m) + [CLOSE] + rest) == Json.Ok(ReadEntries(order, m), rest)
    decreases |order|
  {
    hide EncodeEntry, EncodeEntries, ParseMember, Sanitize;
    assert order == [order[0]] + order[1..];
    FrontEntry(order[0], order[1..], m);
    var first := EncodeEntry(order[0], m[order[0]]);
    var line := EncodeEntries(order, m) + [CLOSE] + rest;
    if |order| == 1 {
      assert line == first + ([CLOSE] + rest);
      ParseEntry(order[0], m[order[0]], [CLOSE] + rest);
      assert ([CLOSE] + rest)[1..] == rest && ReadEntries(order, m) == [ReadEntries(order, m)[0]];
    } else {
      var tail := EncodeEntries(order[1..], m) + [CLOSE] + rest;
      assert line == first + ([COMMA] + tail);
      ParseEntry(order[0], m[order[0]], [COMMA] + tail);
      assert ([COMMA] + tail)[1..] == tail;
      ParseEntries(order[1..], m, rest);
      assert ReadEntries(order, m) == [ReadEntries(order, m)[0]] + ReadEntries(order[1..], m);
    }
  }

  lemma DecodeEntries(order: seq<Bytes>, m: map<Bytes, Bytes>)
    requires order != [] && forall k :: k in order ==> k in m
    ensures DecodeObject([OPEN] + EncodeEntries(order, m) + [CLOSE]) == Some(ReadEntries(order, m))
  {
    hide EncodeEntries, ParseMembers, ReadEntries;
    var line := [OPEN] + EncodeEntries(order, m) + [CLOSE];
    ParseEntries(order, m, []);
    assert line[1..] == EncodeEntries(order, m) + [CLOSE] + [];
    assert |EncodeEntries(order, m)| > 0 by {
      assert order == [order[0]] + order[1..];
      FrontEntry(order[0], order[1..], m);
    }
  }

  /** `cut` are the first n keys of `order` as they are cut, in byte order, and `ms` their members. */
  ghost predicate Says(m: map<Bytes, Bytes>, order: seq<Bytes>, n: nat, cut: seq<Bytes>, ms: seq<Member>)
    requires n <= |order| && forall k :: k in order ==> k in m
  {
    && |ms| == |cut| && Ascending(cut)
    && (forall k :: k in cut <==> exists i :: 0 <= i < n && Utf8.Truncated(order[i], 64) == k)
    && (forall j :: 0 <= j < |ms| ==> ms[j].key == Sanitize(cut[j]))
    && (forall i, j :: 0 <= i < n && 0 <= j < |ms| && LastCut(order, n, i) && cut[j] == Utf8.Truncated(order[i], 64)
          ==> ms[j].value == Str(Sanitize(Utf8.Truncated(m[order[i]], 512))))
  }

  lemma SaysKept(m: map<Bytes, Bytes>, order: seq<Bytes>, n: nat, out: map<Bytes, Bytes>, cut: seq<Bytes>)
    requires n <= |order| && forall k :: k in order ==> k in m
    requires out == CutEntries(order[..n], m) && Lists(cut, out.Keys)
    ensures (forall k :: k in cut ==> k in out) && Says(m, order, n, cut, ReadEntries(cut, out))
  {
    hide Utf8.Truncated, Less, CutEntries, Sanitize, Ascending, LastCut;
    var kept := order[..n];
    assert forall i :: 0 <= i < n ==> kept[i] == order[i];
    forall k ensures k in cut <==> exists i :: 0 <= i < n && Utf8.Truncated(order[i], 64) == k {
      CutKeys(kept, m, k);
    }
    forall i | 0 <= i < n && LastCut(order, n, i)
      ensures Utf8.Truncated(order[i], 64) in out && out[Utf8.Truncated(order[i], 64)] == Utf8.Truncated(m[order[i]], 512)
    {
      LastOfKept(order, n, i);
      CutValue(kept, m, i);
    }
  }

  lemma LastOfKept(order: seq<Bytes>, n: nat, i: nat)
    requires i < n <= |order| && LastCut(order, n, i)
    ensures LastCut(order[..n], n, i)
  {
  }

  /**
   What extra says: a JSON object with one member for each of the first 32 keys in byte order, cut to 64 bytes, in
   byte order again; its value is that of the last key so cut, cut to 512 bytes.
   */
  lemma ExtraReadsBack(m: map<Bytes, Bytes>, order: seq<Bytes>) returns (cut: seq<Bytes>, ms: seq<Member>)
    requires m != map[] && Lists(order, m.Keys)
    ensures DecodeObject(CanonicalExtra(m)) == Some(ms)
    ensures Says(m, order, if |order| > 32 then 32 else |order|, cut, ms)
  {
    hide Utf8.Truncated, Less, Ascending, CutEntries, EncodeEntries, DecodeObject, ReadEntries, Says;
    ListingIsUnique(order, SortedKeys(m.Keys), m.Keys);
    EmptyListing(order, m.Keys);
    var n := if |order| > 32 then 32 else |order|;
    assert FirstKeys(order) == order[..n];
    var out := CutEntries(order[..n], m);
    cut := SortedKeys(out.Keys);
    SaysKept(m, order, n, out, cut);
    CutKeys(order[..n], m, Utf8.Truncated(order[0], 64));
    assert order[..n][0] == order[0];
    EmptyListing(cut, out.Keys);
    DecodeEntries(cut, out);
    ms := ReadEntries(cut, out);
  }

  /** An extra of at most 32 entries that fit, all of it text, is read back entry by entry. */
  lemma SmallExtraReadsBack(m: map<Bytes, Bytes>) returns (ms: seq<Member>)
    requires 0 < |m| <= 32 && forall k :: k in m ==> |k| <= 64 && |m[k]| <= 512 && Utf8.Valid(k) && Utf8.Valid(m[k])
    ensures DecodeObject(CanonicalExtra(m)) == Some(ms) && |ms| == |m|
    ensures forall k :: k in m ==> Member(k, Str(m[k])) in ms
  {
    hide Utf8.Valid, Less, CanonicalExtra, DecodeObject, Ascending, Says;
    var order, cut := SortedKeys(m.Keys), [];
    ListingIsUnique(order, order, m.Keys);
    assert |m.Keys| == |m|;
    cut, ms := ExtraReadsBack(m, order);
    SaysAll(m, order, cut, ms);
  }

  lemma SaysAll(m: map<Bytes, Bytes>, order: seq<Bytes>, cut: seq<Bytes>, ms: seq<Member>)
    requires Lists(order, m.Keys) && Says(m, order, |order|, cut, ms)
    requires forall k :: k in m ==> |k| <= 64 && |m[k]| <= 512 && Utf8.Valid(k) && Utf8.Valid(m[k])
    ensures |ms| == |order| && forall k :: k in m ==> Member(k, Str(m[k])) in ms
  {
    hide Utf8.Valid, Less;
    forall i | 0 <= i < |order| ensures order[i] in m && Utf8.Truncated(order[i], 64) == order[i] {
      assert order[i] in order;
    }
    DistinctListing(order);
    forall k ensures k in cut <==> k in order {
      assert k in order ==> exists i :: 0 <= i < |order| && order[i] == k;
    }
    assert Lists(cut, m.Keys);
    ListingIsUnique(cut, order, m.Keys);
    forall i | 0 <= i < |order| ensures ms[i] == Member(order[i], Str(m[order[i]])) {
      assert LastCut(order, |order|, i) && cut[i] == Utf8.Truncated(order[i], 64);
    }
  }

  lemma DistinctListing(order: seq<Bytes>)
    requires Ascending(order)
    ensures forall i, j :: 0 <= i < j < |order| ==> order[i] != order[j]
  {
    forall i, j | 0 <= i < j < |order| ensures order[i] != order[j] {
      LessIsTotal(order[i], order[i]);
    }
  }
}
