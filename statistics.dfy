/**
 * The column statistics pandas computes with `skipna`: the present values of a
 * column and their minimum, maximum, mean and median.
 */
module Statistics {
  import opened Wrappers

  /** The present values of a column, in row order (`dropna`). */
  function Present(cells: seq<Option<real>>): (xs: seq<real>)
    ensures |xs| <= |cells|
    ensures forall y :: y in xs <==> exists i :: 0 <= i < |cells| && cells[i] == Some(y)
    ensures xs == [] <==> forall i :: 0 <= i < |cells| ==> cells[i].None?
  {
    if cells == [] then []
    else
      var rest := Present(cells[1..]);
      assert forall i :: 0 < i < |cells| ==> cells[i] == cells[1..][i - 1];
      if cells[0].Some? then [cells[0].value] + rest else rest
  }

  /** The present values of a run of cells followed by another are those of each, in row order. */
  lemma {:induction false} PresentAppend(a: seq<Option<real>>, b: seq<Option<real>>)
    ensures Present(a + b) == Present(a) + Present(b)
    decreases |a|
  {
    if a == [] {
      assert a + b == b;
    } else {
      var c, t := a[0], a[1..];
      var h := if c.Some? then [c.value] else [];
      calc {
        Present(a + b);
        { assert a + b == [c] + (t + b); }
        Present([c] + (t + b));
        { PresentCons(c, t + b); }
        h + Present(t + b);
        { PresentAppend(t, b); }
        h + (Present(t) + Present(b));
        (h + Present(t)) + Present(b);
        { PresentCons(c, t); assert a == [c] + t; }
        Present(a) + Present(b);
      }
    }
  }

  /** A present first cell contributes its value first; a missing one contributes nothing. */
  lemma PresentCons(c: Option<real>, cells: seq<Option<real>>)
    ensures Present([c] + cells) == (if c.Some? then [c.value] else []) + Present(cells)
  {
    assert ([c] + cells)[0] == c && ([c] + cells)[1..] == cells;
  }

  /** A single cell: its value if present, nothing if missing. */
  lemma PresentOne(c: Option<real>)
    ensures Present([c]) == if c.Some? then [c.value] else []
  {
    PresentCons(c, []);
    assert [c] + [] == [c];
  }

  /** The smallest value. */
  function Min(xs: seq<real>): (m: real)
    requires xs != []
    ensures m in xs
    ensures forall k :: 0 <= k < |xs| ==> m <= xs[k]
  {
    if |xs| == 1 then xs[0]
    else
      var r := Min(xs[1..]);
      if xs[0] <= r then xs[0] else r
  }

  /** The largest value. */
  function Max(xs: seq<real>): (m: real)
    requires xs != []
    ensures m in xs
    ensures forall k :: 0 <= k < |xs| ==> xs[k] <= m
  {
    if |xs| == 1 then xs[0]
    else
      var r := Max(xs[1..]);
      if xs[0] >= r then xs[0] else r
  }

  /** A value of the sequence that bounds every value from below is its minimum. */
  lemma MinIsLowerBound(xs: seq<real>, m: real)
    requires m in xs && forall k :: 0 <= k < |xs| ==> m <= xs[k]
    ensures Min(xs) == m
  {
    var j :| 0 <= j < |xs| && xs[j] == Min(xs);
    var i :| 0 <= i < |xs| && xs[i] == m;
    assert Min(xs) <= xs[i] && m <= xs[j];
  }

  /** A value of the sequence that bounds every value from above is its maximum. */
  lemma MaxIsUpperBound(xs: seq<real>, m: real)
    requires m in xs && forall k :: 0 <= k < |xs| ==> xs[k] <= m
    ensures Max(xs) == m
  {
    var j :| 0 <= j < |xs| && xs[j] == Max(xs);
    var i :| 0 <= i < |xs| && xs[i] == m;
    assert xs[i] <= Max(xs) && xs[j] <= m;
  }

  function Sum(xs: seq<real>): real {
    if xs == [] then 0.0 else xs[0] + Sum(xs[1..])
  }

  /** A sum of n values between lo and hi lies between n * lo and n * hi. */
  lemma {:induction false} SumBounds(xs: seq<real>, lo: real, hi: real)
    requires forall k :: 0 <= k < |xs| ==> lo <= xs[k] <= hi
    ensures (|xs| as real) * lo <= Sum(xs) <= (|xs| as real) * hi
  {
    if xs != [] {
      SumBounds(xs[1..], lo, hi);
      var n := (|xs| - 1) as real;
      assert (|xs| as real) * lo == n * lo + lo;
      assert (|xs| as real) * hi == n * hi + hi;
    }
  }

  /** `Series.mean()`: the arithmetic mean of the present values, which lies within their range. */
  function Mean(xs: seq<real>): (m: real)
    requires xs != []
    ensures Min(xs) <= m <= Max(xs)
  {
    AverageWithin(xs, Min(xs), Max(xs));
    Sum(xs) / (|xs| as real)
  }

  /** The sum divided by the count lies between any bounds of the values. */
  lemma AverageWithin(xs: seq<real>, lo: real, hi: real)
    requires xs != [] && forall k :: 0 <= k < |xs| ==> lo <= xs[k] <= hi
    ensures lo <= Sum(xs) / (|xs| as real) <= hi
  {
    SumBounds(xs, lo, hi);
    DivideBounds(Sum(xs), |xs| as real, lo, hi);
  }

  lemma DivideBounds(s: real, n: real, lo: real, hi: real)
    requires n > 0.0 && n * lo <= s <= n * hi
    ensures lo <= s / n <= hi
  {
    assert s / n * n == s;
  }

  ghost predicate Sorted(ys: seq<real>) {
    forall a, b :: 0 <= a < b < |ys| ==> ys[a] <= ys[b]
  }

  /** `x` put in front of the first value not below it. */
  function InsertValue(x: real, ys: seq<real>): (r: seq<real>)
    ensures |r| == |ys| + 1
    ensures multiset(r) == multiset(ys) + multiset{x}
    ensures r[0] == x || (ys != [] && r[0] == ys[0])
  {
    if ys == [] || x <= ys[0] then [x] + ys
    else
      assert ys == [ys[0]] + ys[1..];
      [ys[0]] + InsertValue(x, ys[1..])
  }

  /** Inserting into a sorted sequence keeps it sorted. */
  lemma {:induction false} InsertValueSorted(x: real, ys: seq<real>)
    requires Sorted(ys)
    ensures Sorted(InsertValue(x, ys))
  {
    if ys == [] || x <= ys[0] {
      SortedCons(x, ys);
    } else {
      var rest := InsertValue(x, ys[1..]);
      SortedTail(ys);
      InsertValueSorted(x, ys[1..]);
      assert ys[0] <= rest[0] by {
        if |ys| > 1 {
          assert ys[0] <= ys[1];
        }
      }
      SortedCons(ys[0], rest);
    }
  }

  /** A value not above the first of a sorted sequence may be put in front of it. */
  lemma SortedCons(x: real, ys: seq<real>)
    requires Sorted(ys) && (ys == [] || x <= ys[0])
    ensures Sorted([x] + ys)
  {
    var r := [x] + ys;
    forall a, b | 0 <= a < b < |r| ensures r[a] <= r[b] {
      if a == 0 {
        assert ys[0] <= ys[b - 1];
      } else {
        assert r[a] == ys[a - 1] && r[b] == ys[b - 1];
      }
    }
  }

  /** The values in non-decreasing order: a sorted permutation of them. */
  function SortedValues(xs: seq<real>): (ys: seq<real>)
    ensures |ys| == |xs|
    ensures multiset(ys) == multiset(xs)
    ensures Sorted(ys)
  {
    if xs == [] then []
    else
      assert xs == [xs[0]] + xs[1..];
      InsertValueSorted(xs[0], SortedValues(xs[1..]));
      InsertValue(xs[0], SortedValues(xs[1..]))
  }

  /**
   * `Series.median()`: the middle sorted value, or the mean of the two middle
   * ones for an even count; it lies within the range of the values.
   */
  function Median(xs: seq<real>): (m: real)
    requires xs != []
    ensures Min(xs) <= m <= Max(xs)
  {
    MiddleWithin(xs);
    Middle(SortedValues(xs))
  }

  /** The middle value of a non-empty sorted sequence, or the mean of its two middle values. */
  function Middle(ys: seq<real>): real
    requires ys != []
  {
    var n := |ys|;
    if n % 2 == 1 then ys[n / 2] else (ys[n / 2 - 1] + ys[n / 2]) / 2.0
  }

  /** Both middle values of the sorted values are values, so the middle lies within their range. */
  lemma MiddleWithin(xs: seq<real>)
    requires xs != []
    ensures Min(xs) <= Middle(SortedValues(xs)) <= Max(xs)
  {
    var ys := SortedValues(xs);
    var n := |ys|;
    SortedValueWithin(xs, n / 2);
    if n % 2 == 0 {
      SortedValueWithin(xs, n / 2 - 1);
    }
  }

  lemma SortedValueWithin(xs: seq<real>, i: nat)
    requires i < |xs|
    ensures Min(xs) <= SortedValues(xs)[i] <= Max(xs)
  {
    var v := SortedValues(xs)[i];
    assert v in multiset(SortedValues(xs));
    var j :| 0 <= j < |xs| && xs[j] == v;
  }

  /** Two sorted sequences holding the same values are the same sequence. */
  lemma {:induction false} SortedUnique(a: seq<real>, b: seq<real>)
    requires Sorted(a) && Sorted(b) && multiset(a) == multiset(b)
    ensures a == b
    decreases |a|
  {
    assert |a| == |multiset(a)| == |b|;
    if |a| > 0 {
      SortedHeadsAgree(a, b);
      SameTails(a, b);
      SortedTail(a);
      SortedTail(b);
      SortedUnique(a[1..], b[1..]);
      assert a == [a[0]] + a[1..] && b == [b[0]] + b[1..];
    }
  }

  /** Sorted sequences holding the same values start with the same (least) value. */
  lemma SortedHeadsAgree(a: seq<real>, b: seq<real>)
    requires Sorted(a) && Sorted(b) && multiset(a) == multiset(b) && |a| > 0 && |b| > 0
    ensures a[0] == b[0]
  {
    assert b[0] in multiset(a) && a[0] in multiset(b);
    SortedHeadLeast(a, b[0]);
    SortedHeadLeast(b, a[0]);
  }

  /** Removing the same first value from sequences with the same values leaves the same values. */
  lemma SameTails(a: seq<real>, b: seq<real>)
    requires multiset(a) == multiset(b) && |a| > 0 && |b| > 0 && a[0] == b[0]
    ensures multiset(a[1..]) == multiset(b[1..])
  {
    assert multiset(a) == multiset{a[0]} + multiset(a[1..]) by { assert a == [a[0]] + a[1..]; }
    assert multiset(b) == multiset{b[0]} + multiset(b[1..]) by { assert b == [b[0]] + b[1..]; }
    assert multiset(a[1..]) == multiset(a) - multiset{a[0]};
  }

  lemma SortedHeadLeast(a: seq<real>, x: real)
    requires Sorted(a) && x in a
    ensures a[0] <= x
  {
    var i :| 0 <= i < |a| && a[i] == x;
    if i > 0 {
      assert a[0] <= a[i];
    }
  }

  lemma SortedTail(a: seq<real>)
    requires Sorted(a) && |a| > 0
    ensures Sorted(a[1..])
  {
    forall i, j | 0 <= i < j < |a| - 1 ensures a[1..][i] <= a[1..][j] {
      assert a[1..][i] == a[i + 1] && a[1..][j] == a[j + 1];
    }
  }

  /** The median depends only on the values, not on the order of the rows holding them. */
  lemma MedianIgnoresOrder(xs: seq<real>, ys: seq<real>)
    requires xs != [] && multiset(xs) == multiset(ys)
    ensures ys != [] && Median(xs) == Median(ys)
  {
    assert |xs| == |multiset(xs)| == |ys|;
    SortedUnique(SortedValues(xs), SortedValues(ys));
  }
}
