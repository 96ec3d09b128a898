/** Go strings are byte strings: this module defines them and their decimal rendering. */
module ByteStrings {

  type byte = b: int | 0 <= b < 256

  type Bytes = seq<byte>

  /** The bytes of an ASCII literal. */
  function Ascii(s: string): (b: Bytes)
    ensures |b| == |s|
    ensures forall i :: 0 <= i < |s| ==> b[i] == s[i] as int % 256
  {
    seq(|s|, i requires 0 <= i < |s| => s[i] as int % 256)
  }

  /** strings.Repeat of one byte. */
  function Repeat(b: byte, n: nat): (r: Bytes)
    ensures |r| == n && forall i :: 0 <= i < n ==> r[i] == b
  {
    seq(n, i => b)
  }

  predicate IsDigit(b: byte) {
    48 <= b < 58
  }

  /** strconv.Itoa of a non-negative number. */
  function Decimal(n: nat): (d: Bytes)
    ensures |d| >= 1
    ensures forall i :: 0 <= i < |d| ==> IsDigit(d[i])
  {
    if n < 10 then [48 + n] else Decimal(n / 10) + [48 + n % 10]
  }

  /** strconv.FormatInt(i, 10). */
  function FormatInt(i: int): (d: Bytes)
    ensures |d| >= 1
    ensures i >= 0 ==> forall k :: 0 <= k < |d| ==> IsDigit(d[k])
    ensures i < 0 ==> d[0] == 45 && |d| >= 2 && forall k :: 1 <= k < |d| ==> IsDigit(d[k])
  {
    if i < 0 then [45] + Decimal(-i) else Decimal(i)
  }

  /** The number that a run of digits denotes. */
  function DigitsValue(d: Bytes): int {
    if d == [] then 0 else DigitsValue(d[..|d| - 1]) * 10 + d[|d| - 1] - 48
  }

  lemma {:induction false} DigitsValueOfDecimal(n: nat)
    ensures DigitsValue(Decimal(n)) == n
  {
    if n < 10 {
      assert Decimal(n)[..0] == [];
    } else {
      DigitsValueOfDecimal(n / 10);
      assert Decimal(n)[..|Decimal(n)| - 1] == Decimal(n / 10);
    }
  }

  lemma FormatIntInjective(i: int, j: int)
    requires FormatInt(i) == FormatInt(j)
    ensures i == j
  {
    if i < 0 && j < 0 {
      assert FormatInt(i)[1..] == Decimal(-i) && FormatInt(j)[1..] == Decimal(-j);
      DigitsValueOfDecimal(-i);
      DigitsValueOfDecimal(-j);
    } else if i >= 0 && j >= 0 {
      DigitsValueOfDecimal(i);
      DigitsValueOfDecimal(j);
    }
  }

  /** A run of digits ends where the first other byte stands. */
  lemma DigitRunUnique(d: Bytes, e: Bytes, x: Bytes, y: Bytes)
    requires forall i :: 0 <= i < |d| ==> IsDigit(d[i])
    requires forall i :: 0 <= i < |e| ==> IsDigit(e[i])
    requires x != [] && y != [] && !IsDigit(x[0]) && !IsDigit(y[0])
    requires d + x == e + y
    ensures d == e && x == y
  {
    var s, t := d + x, e + y;
    assert s[|d|] == x[0] && t[|e|] == y[0];
    assert forall i :: 0 <= i < |d| ==> s[i] == d[i];
    assert forall i :: 0 <= i < |e| ==> t[i] == e[i];
    assert s[..|d|] == d && t[..|e|] == e && s[|d|..] == x && t[|e|..] == y;
  }

  /** A non-negative number with leading zeros up to a width. */
  function ZeroPadded(n: nat, width: nat): (d: Bytes)
    ensures forall i :: 0 <= i < |d| ==> IsDigit(d[i])
  {
    Repeat(48, if |Decimal(n)| < width then width - |Decimal(n)| else 0) + Decimal(n)
  }

  /** fmt's %012d. */
  function Pad12(i: int): (d: Bytes)
    ensures i >= 0 ==> forall k :: 0 <= k < |d| ==> IsDigit(d[k])
  {
    if i < 0 then [45] + ZeroPadded(-i, 11) else ZeroPadded(i, 12)
  }

  lemma {:induction false} LeadingZeros(zeros: Bytes, d: Bytes)
    requires forall i :: 0 <= i < |zeros| ==> zeros[i] == 48
    ensures DigitsValue(zeros + d) == DigitsValue(d)
    decreases |d|, |zeros|
  {
    if d != [] {
      LeadingZeros(zeros, d[..|d| - 1]);
      assert (zeros + d)[..|zeros + d| - 1] == zeros + d[..|d| - 1];
    } else if zeros != [] {
      LeadingZeros(zeros[..|zeros| - 1], d);
      assert zeros + d == zeros && zeros[..|zeros| - 1] + d == zeros[..|zeros| - 1];
    }
  }

  lemma Pad12Injective(m: nat, n: nat)
    requires Pad12(m) == Pad12(n)
    ensures m == n
  {
    LeadingZeros(Pad12(m)[..|Pad12(m)| - |Decimal(m)|], Decimal(m));
    LeadingZeros(Pad12(n)[..|Pad12(n)| - |Decimal(n)|], Decimal(n));
    assert Pad12(m) == Pad12(m)[..|Pad12(m)| - |Decimal(m)|] + Decimal(m);
    assert Pad12(n) == Pad12(n)[..|Pad12(n)| - |Decimal(n)|] + Decimal(n);
    DigitsValueOfDecimal(m);
    DigitsValueOfDecimal(n);
  }
}
