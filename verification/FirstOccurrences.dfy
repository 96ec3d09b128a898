/** Keeping the first element of every key, in order: Append's skip of known event ids and the log deduplication. */
module FirstOccurrences {

  function Keys<T, K>(key: T -> K, xs: seq<T>): set<K> {
    set i | 0 <= i < |xs| :: key(xs[i])
  }

  /** The elements of `xs` whose key is neither in `seen` nor borne by an earlier element. */
  function Fresh<T, K(==)>(key: T -> K, seen: set<K>, xs: seq<T>): (r: seq<T>)
    ensures |r| <= |xs|
    decreases |xs|
  {
    if xs == [] then []
    else if key(xs[0]) in seen then Fresh(key, seen, xs[1..])
    else [xs[0]] + Fresh(key, seen + {key(xs[0])}, xs[1..])
  }

  lemma KeysConcat<T, K>(key: T -> K, a: seq<T>, b: seq<T>)
    ensures Keys(key, a + b) == Keys(key, a) + Keys(key, b)
  {
    forall k | k in Keys(key, b) ensures k in Keys(key, a + b) {
      var i :| 0 <= i < |b| && key(b[i]) == k;
      assert (a + b)[|a| + i] == b[i];
    }
    forall k | k in Keys(key, a) ensures k in Keys(key, a + b) {
      var i :| 0 <= i < |a| && key(a[i]) == k;
      assert (a + b)[i] == a[i];
    }
  }

  lemma {:induction false} FreshConcat<T, K>(key: T -> K, seen: set<K>, a: seq<T>, b: seq<T>)
    ensures Fresh(key, seen, a + b) == Fresh(key, seen, a) + Fresh(key, seen + Keys(key, a), b)
    decreases |a|
  {
    if a == [] {
      assert a + b == b && seen + Keys(key, a) == seen;
    } else {
      assert (a + b)[1..] == a[1..] + b;
      KeysConcat(key, [a[0]], a[1..]);
      assert [a[0]] + a[1..] == a;
      assert Keys(key, [a[0]]) == {key(a[0])} by { assert [a[0]][0] == a[0]; }
      if key(a[0]) in seen {
        FreshConcat(key, seen, a[1..], b);
        assert seen + Keys(key, a) == seen + Keys(key, a[1..]);
      } else {
        FreshConcat(key, seen + {key(a[0])}, a[1..], b);
        assert seen + Keys(key, a) == seen + {key(a[0])} + Keys(key, a[1..]);
      }
    }
  }

  /** One more element, as a loop over `xs` meets it. */
  lemma FreshAppend<T, K>(key: T -> K, seen: set<K>, xs: seq<T>, x: T)
    ensures Fresh(key, seen, xs + [x])
         == if key(x) in seen + Keys(key, xs) then Fresh(key, seen, xs) else Fresh(key, seen, xs) + [x]
    ensures Keys(key, xs + [x]) == Keys(key, xs) + {key(x)}
  {
    FreshConcat(key, seen, xs, [x]);
    KeysConcat(key, xs, [x]);
    assert Keys(key, [x]) == {key(x)} by { assert [x][0] == x; }
    assert [x][1..] == [];
  }

  lemma {:induction false} FreshOfSeen<T, K>(key: T -> K, seen: set<K>, xs: seq<T>)
    requires Keys(key, xs) <= seen
    ensures Fresh(key, seen, xs) == []
  {
    if xs != [] {
      assert key(xs[0]) in Keys(key, xs);
      KeysConcat(key, [xs[0]], xs[1..]);
      assert [xs[0]] + xs[1..] == xs;
      FreshOfSeen(key, seen, xs[1..]);
    }
  }

  /** Only the keys of `xs` itself matter in `seen`. */
  lemma {:induction false} FreshSeenRestrict<T, K>(key: T -> K, s: set<K>, t: set<K>, xs: seq<T>)
    requires s * Keys(key, xs) == t * Keys(key, xs)
    ensures Fresh(key, s, xs) == Fresh(key, t, xs)
    decreases |xs|
  {
    if xs != [] {
      KeysConcat(key, [xs[0]], xs[1..]);
      assert [xs[0]] + xs[1..] == xs;
      assert key(xs[0]) in Keys(key, xs);
      assert (key(xs[0]) in s * Keys(key, xs)) == (key(xs[0]) in t * Keys(key, xs));
      forall k | k in Keys(key, xs[1..]) ensures (k in s) == (k in t) {
        assert (k in s * Keys(key, xs)) == (k in t * Keys(key, xs));
      }
      FreshSeenRestrict(key, s, t, xs[1..]);
      FreshSeenRestrict(key, s + {key(xs[0])}, t + {key(xs[0])}, xs[1..]);
    }
  }

  ghost predicate IsFirst<T, K>(key: T -> K, seen: set<K>, xs: seq<T>, j: int) {
    0 <= j < |xs| && key(xs[j]) !in seen && forall i :: 0 <= i < j ==> key(xs[i]) != key(xs[j])
  }

  /** `Fresh` lists, in order and once each, exactly the positions where a new key appears for the first time. */
  lemma {:induction false} FreshPositions<T, K>(key: T -> K, seen: set<K>, xs: seq<T>) returns (js: seq<int>)
    ensures |js| == |Fresh(key, seen, xs)|
    ensures forall n :: 0 <= n < |js| ==> IsFirst(key, seen, xs, js[n]) && Fresh(key, seen, xs)[n] == xs[js[n]]
    ensures forall m, n :: 0 <= m < n < |js| ==> js[m] < js[n]
    ensures forall j :: IsFirst(key, seen, xs, j) ==> j in js
  {
    if xs == [] {
      js := [];
    } else {
      var n := |xs| - 1;
      var ys, x := xs[..n], xs[n];
      assert xs == ys + [x];
      js := FreshPositions(key, seen, ys);
      FreshAppend(key, seen, ys, x);
      assert forall j :: 0 <= j < n ==> (IsFirst(key, seen, xs, j) <==> IsFirst(key, seen, ys, j));
      if key(x) !in seen + Keys(key, ys) {
        assert IsFirst(key, seen, xs, n);
        js := js + [n];
      } else if key(x) !in seen {
        var i :| 0 <= i < |ys| && key(ys[i]) == key(x);
        assert key(xs[i]) == key(xs[n]);
        assert !IsFirst(key, seen, xs, n);
      }
    }
  }

  /** The keys of the result are new, pairwise distinct, and all the new ones there are. */
  lemma FreshKeys<T, K>(key: T -> K, seen: set<K>, xs: seq<T>)
    ensures Keys(key, Fresh(key, seen, xs)) == Keys(key, xs) - seen
    ensures forall m, n :: 0 <= m < n < |Fresh(key, seen, xs)|
              ==> key(Fresh(key, seen, xs)[m]) != key(Fresh(key, seen, xs)[n])
  {
    var r := Fresh(key, seen, xs);
    var js := FreshPositions(key, seen, xs);
    forall k | k in Keys(key, xs) - seen ensures k in Keys(key, r) {
      var j := FirstWithKey(key, xs, k);
      assert IsFirst(key, seen, xs, j);
      var n :| 0 <= n < |js| && js[n] == j;
      assert r[n] == xs[j];
    }
    forall k | k in Keys(key, r) ensures k in Keys(key, xs) - seen {
      var n :| 0 <= n < |r| && key(r[n]) == k;
      assert IsFirst(key, seen, xs, js[n]);
    }
    forall m, n | 0 <= m < n < |r| ensures key(r[m]) != key(r[n]) {
      assert IsFirst(key, seen, xs, js[n]) && js[m] < js[n];
    }
  }

  lemma FirstWithKey<T, K>(key: T -> K, xs: seq<T>, k: K) returns (j: int)
    requires k in Keys(key, xs)
    ensures 0 <= j < |xs| && key(xs[j]) == k && forall i :: 0 <= i < j ==> key(xs[i]) != k
  {
    j := 0;
    while key(xs[j]) != k
      invariant 0 <= j < |xs|
      invariant forall i :: 0 <= i < j ==> key(xs[i]) != k
      decreases |xs| - j
    {
      var i :| 0 <= i < |xs| && key(xs[i]) == k;
      j := j + 1;
    }
  }
}
