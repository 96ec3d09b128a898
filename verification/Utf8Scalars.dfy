/** Valid UTF-8 is exactly the encoding of scalar values (RFC 3629 section 3). */
module Utf8Scalars {
  import opened ByteStrings
  import opened Utf8

  predicate IsScalar(v: nat) {
    v < 0xD800 || 0xE000 <= v < 0x11_0000
  }

  function Encoded(v: nat): Bytes
    requires IsScalar(v)
  {
    if v < 0x80 then [v]
    else if v < 0x800 then [0xC0 + v / 64, 0x80 + v % 64]
    else if v < 0x1_0000 then [0xE0 + v / 4096, 0x80 + v / 64 % 64, 0x80 + v % 64]
    else [0xF0 + v / 262144, 0x80 + v / 4096 % 64, 0x80 + v / 64 % 64, 0x80 + v % 64]
  }

  function EncodedAll(vs: seq<nat>): Bytes
    requires forall v :: v in vs ==> IsScalar(v)
  {
    if vs == [] then [] else Encoded(vs[0]) + EncodedAll(vs[1..])
  }

  lemma EncodedIsRune(v: nat, rest: Bytes)
    requires IsScalar(v)
    ensures RuneLen(Encoded(v) + rest) == |Encoded(v)| > 0
  {
    var s := Encoded(v) + rest;
    if v < 0x80 {
    } else if v < 0x800 {
      assert s[0] == 0xC0 + v / 64 && s[1] == 0x80 + v % 64;
    } else if v < 0x1_0000 {
      assert s[0] == 0xE0 + v / 4096 && s[1] == 0x80 + v / 64 % 64 && s[2] == 0x80 + v % 64;
    } else {
      assert s[0] == 0xF0 + v / 262144 && s[1] == 0x80 + v / 4096 % 64 && s[2] == 0x80 + v / 64 % 64 && s[3] == 0x80 + v % 64;
    }
  }

  /** Six more bits. */
  lemma SixBits(high: nat, low: nat)
    requires low < 64
    ensures (high * 64 + low) / 64 == high && (high * 64 + low) % 64 == low
  {
  }

  lemma DivisionsNest(v: nat)
    ensures v / 4096 == v / 64 / 64 && v / 262144 == v / 64 / 64 / 64
  {
  }

  lemma RuneIsEncoded(s: Bytes) returns (v: nat)
    requires RuneLen(s) > 0
    ensures IsScalar(v) && s[..RuneLen(s)] == Encoded(v)
  {
    var first: int := s[0];
    if first < 0x80 {
      v := first;
    } else if first < 0xE0 {
      v := TwoBytes(s);
    } else if first < 0xF0 {
      v := ThreeBytes(s);
    } else {
      v := FourBytes(s);
    }
  }

  lemma TwoBytes(s: Bytes) returns (v: nat)
    requires RuneLen(s) == 2
    ensures IsScalar(v) && s[..2] == Encoded(v)
  {
    var high: int, low: int := s[0] - 0xC0, s[1] - 0x80;
    v := high * 64 + low;
    SixBits(high, low);
  }

  lemma ThreeBytes(s: Bytes) returns (v: nat)
    requires RuneLen(s) == 3
    ensures IsScalar(v) && s[..3] == Encoded(v)
  {
    var high: int, middle: int, low: int := s[0] - 0xE0, s[1] - 0x80, s[2] - 0x80;
    v := (high * 64 + middle) * 64 + low;
    SixBits(high * 64 + middle, low);
    SixBits(high, middle);
    DivisionsNest(v);
    assert v / 4096 == high && v / 64 % 64 == middle && v % 64 == low;
    hide RuneLen;
  }

  lemma FourBytes(s: Bytes) returns (v: nat)
    requires RuneLen(s) == 4
    ensures IsScalar(v) && s[..4] == Encoded(v)
  {
    var high: int, second: int, third: int, low: int := s[0] - 0xF0, s[1] - 0x80, s[2] - 0x80, s[3] - 0x80;
    v := ((high * 64 + second) * 64 + third) * 64 + low;
    SixBits((high * 64 + second) * 64 + third, low);
    SixBits(high * 64 + second, third);
    SixBits(high, second);
    DivisionsNest(v);
    assert v / 262144 == high && v / 4096 % 64 == second && v / 64 % 64 == third && v % 64 == low;
    hide RuneLen;
  }

  /** A string is valid exactly when it encodes some scalar values: what it encodes is valid, ... */
  lemma {:induction false} EncodedIsValid(vs: seq<nat>)
    requires forall v :: v in vs ==> IsScalar(v)
    ensures Valid(EncodedAll(vs))
  {
    hide Encoded, RuneLen;
    if vs != [] {
      var rest := EncodedAll(vs[1..]);
      EncodedIsValid(vs[1..]);
      EncodedIsRune(vs[0], rest);
      assert (Encoded(vs[0]) + rest)[|Encoded(vs[0])|..] == rest;
    }
  }

  /** ... and what is valid is encoded. */
  lemma {:induction false} ValidIsEncoded(s: Bytes) returns (vs: seq<nat>)
    requires Valid(s)
    ensures (forall v :: v in vs ==> IsScalar(v)) && s == EncodedAll(vs)
    decreases |s|
  {
    hide Encoded, RuneLen, IsScalar;
    vs := [];
    if s != [] {
      var v := RuneIsEncoded(s);
      var rest := ValidIsEncoded(s[RuneLen(s)..]);
      vs := [v] + rest;
      assert vs[1..] == rest && s == s[..RuneLen(s)] + s[RuneLen(s)..];
    }
  }
}
