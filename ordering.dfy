/**
 * numpy's `argsort` and the rank vector `v.argsort().argsort()`.
 *
 * `argsort` returns an order of the indices that lists the values in
 * non-decreasing order. numpy's default sort is not stable, so which order it
 * picks among equal values is unspecified: the model computes one such order
 * (a stable insertion sort), and the rank properties are proved for every
 * order numpy might pick.
 */
module Ordering {

  /** Every entry of `s` is an index into a sequence of length `n`. */
  ghost predicate InRange(s: seq<int>, n: nat) {
    forall k :: 0 <= k < |s| ==> 0 <= s[k] < n
  }

  /** No index is listed twice. */
  ghost predicate Distinct(s: seq<int>) {
    forall a, b :: 0 <= a < b < |s| ==> s[a] != s[b]
  }

  /** `p` lists each of 0..n-1 exactly once. */
  ghost predicate IsPermutation(p: seq<int>, n: nat) {
    |p| == n && InRange(p, n) && Distinct(p)
  }

  /** The indices `s` list the keys in non-decreasing order. */
  ghost predicate SortedBy(s: seq<int>, key: seq<real>) {
    InRange(s, |key|) && forall a, b :: 0 <= a < b < |s| ==> key[s[a]] <= key[s[b]]
  }

  /** `p` is an order `argsort(key)` may return. */
  ghost predicate SortsBy(p: seq<int>, key: seq<real>) {
    IsPermutation(p, |key|) && SortedBy(p, key)
  }

  /** Inserts index `i` into the index list `s`, after the leading entries whose key is not greater. */
  function Insert(i: int, s: seq<int>, key: seq<real>): (r: seq<int>)
    requires 0 <= i < |key| && InRange(s, |key|)
    ensures |r| == |s| + 1
    ensures forall x :: x in r <==> x == i || x in s
    ensures InRange(r, |key|)
  {
    if s == [] || key[i] < key[s[0]] then [i] + s
    else
      var t := Insert(i, s[1..], key);
      assert forall x :: x in s[1..] ==> x in s;
      [s[0]] + t
  }

  /** Inserting into a sorted list keeps it sorted. */
  lemma {:induction false} InsertSorted(i: int, s: seq<int>, key: seq<real>)
    requires 0 <= i < |key| && SortedBy(s, key)
    ensures SortedBy(Insert(i, s, key), key)
  {
    if s == [] || key[i] < key[s[0]] {
    } else {
      var t := Insert(i, s[1..], key);
      InsertSorted(i, s[1..], key);
      forall b | 0 <= b < |t| ensures key[s[0]] <= key[t[b]] {
        if t[b] != i {
          assert t[b] in s[1..];
          var j :| 0 <= j < |s[1..]| && s[1..][j] == t[b];
          assert s[j + 1] == t[b];
        }
      }
      var r := [s[0]] + t;
      forall a, b | 0 <= a < b < |r| ensures key[r[a]] <= key[r[b]] {
        if a > 0 {
          assert r[a] == t[a - 1] && r[b] == t[b - 1];
        } else {
          assert r[b] == t[b - 1];
        }
      }
    }
  }

  /** Inserting a new index into a list without repetitions keeps it without repetitions. */
  lemma {:induction false} InsertDistinct(i: int, s: seq<int>, key: seq<real>)
    requires 0 <= i < |key| && InRange(s, |key|) && Distinct(s) && i !in s
    ensures Distinct(Insert(i, s, key))
  {
    if s == [] || key[i] < key[s[0]] {
    } else {
      var t := Insert(i, s[1..], key);
      assert forall x :: x in s[1..] ==> x in s;
      InsertDistinct(i, s[1..], key);
      forall j | 0 <= j < |s[1..]| ensures s[1..][j] != s[0] {
        assert s[1..][j] == s[j + 1];
      }
      assert s[0] !in t;
      var r := [s[0]] + t;
      forall a, b | 0 <= a < b < |r| ensures r[a] != r[b] {
        if a > 0 {
          assert r[a] == t[a - 1] && r[b] == t[b - 1];
        } else {
          assert r[b] == t[b - 1];
        }
      }
    }
  }

  /** An argsort of the first `m` keys. */
  function ArgsortPrefix(key: seq<real>, m: nat): (p: seq<int>)
    requires m <= |key|
    ensures |p| == m && InRange(p, |key|) && SortedBy(p, key) && Distinct(p)
    ensures forall x :: x in p <==> 0 <= x < m
  {
    if m == 0 then []
    else
      var s := ArgsortPrefix(key, m - 1);
      InsertSorted(m - 1, s, key);
      InsertDistinct(m - 1, s, key);
      Insert(m - 1, s, key)
  }

  /** `key.argsort()`: a permutation of the indices that sorts the keys. */
  function Argsort(key: seq<real>): (p: seq<int>)
    ensures SortsBy(p, key)
  {
    ArgsortPrefix(key, |key|)
  }

  /** An index vector as a float array, the way numpy sorts it a second time. */
  function AsKeys(p: seq<int>): (k: seq<real>)
    ensures |k| == |p|
    ensures forall j :: 0 <= j < |p| ==> k[j] == p[j] as real
  {
    seq(|p|, j requires 0 <= j < |p| => p[j] as real)
  }

  /**
   * `v.argsort().argsort()`: the rank of each value, a permutation of 0..n-1
   * that puts smaller values first.
   */
  function Ranks(v: seq<real>): (r: seq<int>)
    ensures IsPermutation(r, |v|)
    ensures forall m :: 0 <= m < |v| ==> m in r
    ensures forall i, j :: 0 <= i < |v| && 0 <= j < |v| && v[i] < v[j] ==> r[i] < r[j]
    ensures forall i, j :: 0 <= i < |v| && 0 <= j < |v| && r[i] < r[j] ==> v[i] <= v[j]
  {
    var p := Argsort(v);
    var q := Argsort(AsKeys(p));
    DoubleArgsortRanks(v, p, q);
    q
  }

  /**
   * Whatever sorting orders `p` of `v` and `q` of `p` numpy picks, `q` is the
   * inverse of `p`, hence a permutation, and it ranks `v` consistently with its order.
   */
  lemma DoubleArgsortRanks(v: seq<real>, p: seq<int>, q: seq<int>)
    requires SortsBy(p, v) && SortsBy(q, AsKeys(p))
    ensures forall m :: 0 <= m < |v| ==> q[p[m]] == m && p[q[m]] == m
    ensures IsPermutation(q, |v|)
    ensures forall m :: 0 <= m < |v| ==> m in q
    ensures forall i, j :: 0 <= i < |v| && 0 <= j < |v| && v[i] < v[j] ==> q[i] < q[j]
    ensures forall i, j :: 0 <= i < |v| && 0 <= j < |v| && q[i] < q[j] ==> v[i] <= v[j]
  {
    var n := |v|;
    var s := seq(n, k requires 0 <= k < n => p[q[k]]);
    forall a, b | 0 <= a < b < n ensures s[a] < s[b] {
      assert AsKeys(p)[q[a]] <= AsKeys(p)[q[b]];
      assert q[a] != q[b];
    }
    IncreasingIsIdentity(s, n);
    forall m | 0 <= m < n ensures q[p[m]] == m {
      var k := p[m];
      assert s[k] == k;
    }
    forall m | 0 <= m < n ensures m in q {
      assert q[p[m]] == m;
    }
    forall i, j | 0 <= i < n && 0 <= j < n && q[i] < q[j] ensures v[i] <= v[j] {
      assert p[q[i]] == i && p[q[j]] == j;
    }
  }

  /** A strictly increasing sequence of n values in 0..n-1 is 0, 1, ..., n-1. */
  lemma IncreasingIsIdentity(s: seq<int>, n: nat)
    requires |s| == n && InRange(s, n)
    requires forall a, b :: 0 <= a < b < n ==> s[a] < s[b]
    ensures forall k :: 0 <= k < n ==> s[k] == k
  {
    forall k | 0 <= k < n ensures s[k] == k {
      IncreasingGap(s, 0, k);
      IncreasingGap(s, k, n - 1);
    }
  }

  /** In a strictly increasing integer sequence, values grow at least as fast as positions. */
  lemma {:induction false} IncreasingGap(s: seq<int>, a: nat, b: nat)
    requires a <= b < |s|
    requires forall x, y :: 0 <= x < y < |s| ==> s[x] < s[y]
    ensures s[b] - s[a] >= b - a
    decreases b - a
  {
    if a < b {
      IncreasingGap(s, a + 1, b);
    }
  }
}
