/** UTF-8 validity (RFC 3629 section 4) and the column truncation of internal/audit/hash.go. */
module Utf8 {
  import opened ByteStrings

  predicate IsContinuation(b: byte) {
    0x80 <= b < 0xC0
  }

  /** The length of the encoded rune that `s` starts with, 0 when there is none. */
  function RuneLen(s: Bytes): (l: nat)
    ensures l <= 4 && l <= |s|
  {
    if s == [] then 0
    else if s[0] < 0x80 then 1
    else if 0xC2 <= s[0] < 0xE0 then
      if |s| >= 2 && IsContinuation(s[1]) then 2 else 0
    else if 0xE0 <= s[0] < 0xF0 then
      if && |s| >= 3 && IsContinuation(s[1]) && IsContinuation(s[2])
         && (s[0] == 0xE0 ==> s[1] >= 0xA0) && (s[0] == 0xED ==> s[1] < 0xA0) then 3 else 0
    else if 0xF0 <= s[0] < 0xF5 then
      if && |s| >= 4 && IsContinuation(s[1]) && IsContinuation(s[2]) && IsContinuation(s[3])
         && (s[0] == 0xF0 ==> s[1] >= 0x90) && (s[0] == 0xF4 ==> s[1] < 0x90) then 4 else 0
    else 0
  }

  /** utf8.ValidString. */
  predicate Valid(s: Bytes) {
    s == [] || (RuneLen(s) > 0 && Valid(s[RuneLen(s)..]))
  }

  /** The longest valid prefix. */
  function ValidPrefix(s: Bytes): (t: Bytes)
    ensures t <= s && Valid(t)
  {
    if Valid(s) then s else ValidPrefix(s[..|s| - 1])
  }

  /** `s` cut to at most n bytes on a rune boundary. */
  function Truncated(s: Bytes, n: nat): (t: Bytes)
    ensures |t| <= n && (|s| > n ==> Valid(t))
  {
    if |s| <= n then s else ValidPrefix(s[..n])
  }

  /** truncate: drop bytes from an over-long string until what is left is valid. */
  method Truncate(s: Bytes, n: nat) returns (t: Bytes)
    ensures t == Truncated(s, n)
    ensures t <= s
    ensures |s| <= n ==> t == s
    ensures |s| > n ==> Valid(t) && |t| <= n && forall k :: |t| < k <= n ==> !Valid(s[..k])
    ensures |s| > n && Valid(s) ==> |t| > n - 4
  {
    if |s| <= n {
      return s;
    }
    t := s[..n];
    while |t| > 0 && !Valid(t)
      invariant |t| <= n && t == s[..|t|] && ValidPrefix(t) == ValidPrefix(s[..n])
      invariant forall k :: |t| < k <= n ==> !Valid(s[..k])
    {
      t := t[..|t| - 1];
    }
    if Valid(s) {
      var k := RuneBoundary(s, n);
    }
  }

  /** A rune is recognised from its own bytes, whatever follows. */
  lemma RuneLenOfPrefix(s: Bytes, k: nat)
    requires RuneLen(s) <= k <= |s| && RuneLen(s) > 0
    ensures RuneLen(s[..k]) == RuneLen(s)
  {
  }

  lemma {:induction false} ValidConcat(s: Bytes, t: Bytes)
    requires Valid(s) && Valid(t)
    ensures Valid(s + t)
    decreases |s|
  {
    if s == [] {
      assert s + t == t;
    } else {
      var l := RuneLen(s);
      assert (s + t)[..l] == s[..l];
      RuneLenOfPrefix(s, l);
      assert RuneLen(s + t) == l;
      assert (s + t)[l..] == s[l..] + t;
      ValidConcat(s[l..], t);
    }
  }

  lemma {:induction false} RuneBoundary(s: Bytes, n: nat) returns (k: nat)
    requires Valid(s) && n < |s|
    ensures n - 4 < k <= n && Valid(s[..k])
    decreases |s|
  {
    var l := RuneLen(s);
    if n < l {
      k := 0;
    } else if n == l {
      k := l;
      RuneLenOfPrefix(s, l);
      assert s[..l][l..] == [];
    } else {
      k := RuneBoundary(s[l..], n - l);
      k := k + l;
      RuneLenOfPrefix(s, k);
      assert s[..k][l..] == s[l..][..k - l];
    }
  }
}
