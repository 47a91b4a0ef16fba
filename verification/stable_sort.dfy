/** A stable ascending sort by an integer key, as `List.sort` with
    `Comparator.comparingLong` performs it: Java's list sort is a merge sort
    that keeps elements with equal keys in their original order. The model
    is an insertion sort; what the trash view relies on is captured by the
    three properties proved here (ordered, a permutation, stable), which
    every stable sort by the same key satisfies.
 */
module StableSort {

  predicate SortedBy<T>(s: seq<T>, key: T -> int)
  {
    forall i, j :: 0 <= i < j < |s| ==> key(s[i]) <= key(s[j])
  }

  /** The elements of `s` whose key is `k`, in their order in `s`. */
  function WithKey<T>(s: seq<T>, key: T -> int, k: int): (r: seq<T>)
    ensures |r| <= |s|
    ensures forall i :: 0 <= i < |r| ==> key(r[i]) == k
  {
    if s == [] then []
    else (if key(s[0]) == k then [s[0]] else []) + WithKey(s[1..], key, k)
  }

  lemma {:induction false} WithKeyAppend<T>(a: seq<T>, b: seq<T>, key: T -> int, k: int)
    ensures WithKey(a + b, key, k) == WithKey(a, key, k) + WithKey(b, key, k)
  {
    if a == [] {
      assert a + b == b;
    } else {
      assert (a + b)[0] == a[0];
      assert (a + b)[1..] == a[1..] + b;
      WithKeyAppend(a[1..], b, key, k);
    }
  }

  lemma {:induction false} WithKeyAbsent<T>(s: seq<T>, key: T -> int, k: int)
    requires forall i :: 0 <= i < |s| ==> key(s[i]) != k
    ensures WithKey(s, key, k) == []
  {
    if s != [] {
      WithKeyAbsent(s[1..], key, k);
    }
  }

  /** Put `x` after every element whose key is not larger than its own. */
  function Insert<T>(t: seq<T>, x: T, key: T -> int): (r: seq<T>)
    ensures SortedBy(t, key) ==> SortedBy(r, key)
    ensures multiset(r) == multiset(t) + multiset{x}
  {
    if t == [] then [x]
    else if key(t[0]) <= key(x) then
      var rest := Insert(t[1..], x, key);
      assert t == [t[0]] + t[1..];
      InsertAbove(t, x, key, rest);
      [t[0]] + rest
    else
      [x] + t
  }

  /** What `Insert` puts after the head of `t` has no smaller key. */
  lemma InsertAbove<T>(t: seq<T>, x: T, key: T -> int, rest: seq<T>)
    requires t != [] && key(t[0]) <= key(x)
    requires multiset(rest) == multiset(t[1..]) + multiset{x}
    requires SortedBy(t[1..], key) ==> SortedBy(rest, key)
    ensures SortedBy(t, key) ==> SortedBy([t[0]] + rest, key)
    ensures multiset([t[0]] + rest) == multiset(t) + multiset{x}
  {
    assert t == [t[0]] + t[1..];
    if SortedBy(t, key) {
      assert SortedBy(t[1..], key);
      InsertAboveSorted(t, x, key, rest);
    }
  }

  lemma InsertAboveSorted<T>(t: seq<T>, x: T, key: T -> int, rest: seq<T>)
    requires t != [] && SortedBy(t, key) && key(t[0]) <= key(x)
    requires SortedBy(rest, key) && multiset(rest) == multiset(t[1..]) + multiset{x}
    ensures SortedBy([t[0]] + rest, key)
  {
    forall y | y in rest ensures key(t[0]) <= key(y) {
      assert y in multiset(t[1..]) + multiset{x};
      if y != x {
        var k :| 0 <= k < |t[1..]| && t[1..][k] == y;
        assert t[k + 1] == y;
      }
    }
    assert t == [t[0]] + t[1..];
  }

  /** Inserting keeps the equal-key elements of `t` ahead of `x`. */
  lemma {:induction false} InsertStable<T>(t: seq<T>, x: T, key: T -> int, k: int)
    requires SortedBy(t, key)
    ensures WithKey(Insert(t, x, key), key, k) == WithKey(t, key, k) + WithKey([x], key, k)
  {
    if t == [] {
      assert [] + [x] == [x];
    } else if key(t[0]) <= key(x) {
      assert SortedBy(t[1..], key);
      InsertStable(t[1..], x, key, k);
      WithKeyBehind(t[0], t[1..], Insert(t[1..], x, key), [x], key, k);
      assert t == [t[0]] + t[1..];
    } else {
      InsertStableAhead(t, x, key, k);
    }
  }

  /** Putting one element ahead of both sides keeps a per-key split. */
  lemma WithKeyBehind<T>(h: T, tail: seq<T>, rest: seq<T>, xs: seq<T>, key: T -> int, k: int)
    requires WithKey(rest, key, k) == WithKey(tail, key, k) + WithKey(xs, key, k)
    ensures WithKey([h] + rest, key, k) == WithKey([h] + tail, key, k) + WithKey(xs, key, k)
  {
    var hk := WithKey([h], key, k);
    calc {
      WithKey([h] + rest, key, k);
      { WithKeyAppend([h], rest, key, k); }
      hk + WithKey(rest, key, k);
      hk + (WithKey(tail, key, k) + WithKey(xs, key, k));
      (hk + WithKey(tail, key, k)) + WithKey(xs, key, k);
      { WithKeyAppend([h], tail, key, k); }
      WithKey([h] + tail, key, k) + WithKey(xs, key, k);
    }
  }

  lemma InsertStableAhead<T>(t: seq<T>, x: T, key: T -> int, k: int)
    requires t != [] && SortedBy(t, key) && key(x) < key(t[0])
    ensures WithKey(Insert(t, x, key), key, k) == WithKey(t, key, k) + WithKey([x], key, k)
  {
    assert Insert(t, x, key) == [x] + t;
    WithKeyAppend([x], t, key, k);
    if key(x) == k {
      forall i | 0 <= i < |t| ensures key(t[i]) != k {
        assert key(t[0]) <= key(t[i]);
      }
      WithKeyAbsent(t, key, k);
      assert WithKey(t, key, k) + WithKey([x], key, k) == WithKey([x], key, k) + WithKey(t, key, k);
    } else {
      WithKeyAbsent([x], key, k);
      assert WithKey(t, key, k) + [] == [] + WithKey(t, key, k);
    }
  }

  /** The sorted order of `s`. */
  function Sort<T>(s: seq<T>, key: T -> int): (r: seq<T>)
    ensures SortedBy(r, key)
    ensures multiset(r) == multiset(s)
    ensures |r| == |s|
  {
    if s == [] then []
    else
      var n := |s| - 1;
      assert s == s[..n] + [s[n]];
      Insert(Sort(s[..n], key), s[n], key)
  }

  /** Stability: for every key, the elements carrying it keep their order. */
  lemma {:induction false} SortStable<T>(s: seq<T>, key: T -> int, k: int)
    ensures WithKey(Sort(s, key), key, k) == WithKey(s, key, k)
  {
    if s != [] {
      var n := |s| - 1;
      SortStable(s[..n], key, k);
      InsertStable(Sort(s[..n], key), s[n], key, k);
      assert s == s[..n] + [s[n]];
      WithKeyAppend(s[..n], [s[n]], key, k);
    }
  }

  /** A sorted permutation holds exactly the elements of the input. */
  lemma SortMembers<T>(s: seq<T>, key: T -> int, x: T)
    ensures x in Sort(s, key) <==> x in s
  {
    var r := Sort(s, key);
    assert x in r <==> x in multiset(r);
    assert x in s <==> x in multiset(s);
  }
}
