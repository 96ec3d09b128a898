/** The length-prefixed pre-image encoding of internal/audit/hash.go. */
module Canonical {
  import opened ByteStrings

  const COLON: byte := 58

  /** One field: "<byte length>:<content>". */
  function Field(f: Bytes): Bytes {
    Decimal(|f|) + [COLON] + f
  }

  /** The concatenation of the encoded fields. */
  function Join(fields: seq<Bytes>): Bytes {
    if fields == [] then [] else Field(fields[0]) + Join(fields[1..])
  }

  lemma {:induction false} JoinAppend(fields: seq<Bytes>, f: Bytes)
    ensures Join(fields + [f]) == Join(fields) + Field(f)
  {
    if fields == [] {
      assert [f][1..] == [];
    } else {
      JoinAppend(fields[1..], f);
      assert (fields + [f])[1..] == fields[1..] + [f];
    }
  }

  /** canonicalJoin: a builder extended field by field. */
  method CanonicalJoin(fields: seq<Bytes>) returns (b: Bytes)
    ensures b == Join(fields)
  {
    b := [];
    for i := 0 to |fields|
      invariant b == Join(fields[..i])
    {
      JoinAppend(fields[..i], fields[i]);
      assert fields[..i + 1] == fields[..i] + [fields[i]];
      b := b + Decimal(|fields[i]|);
      b := b + [COLON];
      b := b + fields[i];
    }
    assert fields[..|fields|] == fields;
  }

  /** No content can move across the boundary of the first field. */
  lemma HeadFieldUnique(f: Bytes, g: Bytes, x: Bytes, y: Bytes)
    requires Field(f) + x == Field(g) + y
    ensures f == g && x == y
  {
    var m, n := Decimal(|f|), Decimal(|g|);
    assert Field(f) + x == m + ([COLON] + f + x) && Field(g) + y == n + ([COLON] + g + y);
    DigitRunUnique(m, n, [COLON] + f + x, [COLON] + g + y);
    DigitsValueOfDecimal(|f|);
    DigitsValueOfDecimal(|g|);
    assert ([COLON] + f + x)[1..] == f + x && ([COLON] + g + y)[1..] == g + y;
    assert (f + x)[..|f|] == f && (g + y)[..|g|] == g;
    assert (f + x)[|f|..] == x && (g + y)[|g|..] == y;
  }

  /** The encoding is injective over field lists of any lengths. */
  lemma {:induction false} JoinInjective(a: seq<Bytes>, b: seq<Bytes>)
    requires Join(a) == Join(b)
    ensures a == b
  {
    if a != [] && b != [] {
      HeadFieldUnique(a[0], b[0], Join(a[1..]), Join(b[1..]));
      JoinInjective(a[1..], b[1..]);
      assert a == [a[0]] + a[1..] && b == [b[0]] + b[1..];
    }
  }
}
