/** The parts of Python's `statistics` module that the latency endpoint
    calls: `mean`, and `quantiles` with its default exclusive method,
    together with the `sorted` that `quantiles` applies to its data.
    Numbers are exact reals. */
module Statistics {
  import opened Outcomes

  /** Sum of a sequence of samples. */
  function Sum(xs: seq<real>): real
  {
    if xs == [] then 0.0 else xs[0] + Sum(xs[1..])
  }

  /** `statistics.mean`: the arithmetic mean of a non-empty sample. */
  function Mean(xs: seq<real>): real
    requires xs != []
  {
    Sum(xs) / (|xs| as real)
  }

  /** The mean lies within any bounds that hold of every sample, in
      particular between the smallest and the largest sample. */
  lemma MeanBetween(xs: seq<real>, lo: real, hi: real)
    requires xs != []
    requires forall i :: 0 <= i < |xs| ==> lo <= xs[i] <= hi
    ensures lo <= Mean(xs) <= hi
  {
    SumBounds(xs, lo, hi);
    QuotientBounds(Sum(xs), |xs| as real, lo, hi);
  }

  lemma QuotientBounds(total: real, n: real, lo: real, hi: real)
    requires n > 0.0 && n * lo <= total <= n * hi
    ensures lo <= total / n <= hi
  {
  }

  /** A sum of samples that lie in [lo, hi] lies in [n * lo, n * hi]. */
  lemma {:induction false} SumBounds(xs: seq<real>, lo: real, hi: real)
    requires forall i :: 0 <= i < |xs| ==> lo <= xs[i] <= hi
    ensures (|xs| as real) * lo <= Sum(xs) <= (|xs| as real) * hi
  {
    if xs != [] {
      SumBounds(xs[1..], lo, hi);
    }
  }

  ghost predicate Sorted(s: seq<real>)
  {
    forall i, j :: 0 <= i < j < |s| ==> s[i] <= s[j]
  }

  /** Insertion of one sample into a sorted sequence. */
  function Insert(x: real, s: seq<real>): (r: seq<real>)
    requires Sorted(s)
    ensures Sorted(r)
    ensures multiset(r) == multiset(s) + multiset{x}
    ensures |r| == |s| + 1
    ensures r[0] == x || (s != [] && r[0] == s[0])
  {
    if s == [] || x <= s[0] then [x] + s
    else
      var rest := Insert(x, s[1..]);
      InsertStep(x, s, rest);
      [s[0]] + rest
  }

  /** The step of Insert past a head smaller than the new sample. */
  lemma InsertStep(x: real, s: seq<real>, rest: seq<real>)
    requires Sorted(s) && s != [] && x > s[0]
    requires Sorted(rest) && multiset(rest) == multiset(s[1..]) + multiset{x}
    requires |rest| == |s| && (rest[0] == x || (|s| > 1 && rest[0] == s[1]))
    ensures Sorted([s[0]] + rest)
    ensures multiset([s[0]] + rest) == multiset(s) + multiset{x}
  {
    assert s == [s[0]] + s[1..];
    var r := [s[0]] + rest;
    forall i, j | 0 <= i < j < |r|
      ensures r[i] <= r[j]
    {
      if i > 0 {
        assert r[i] == rest[i - 1] && r[j] == rest[j - 1];
      } else {
        assert r[j] == rest[j - 1] && rest[0] <= rest[j - 1];
      }
    }
  }

  /** Python's `sorted` on numbers: the ascending permutation of the sample. */
  function Sort(s: seq<real>): (r: seq<real>)
    ensures Sorted(r)
    ensures multiset(r) == multiset(s)
    ensures |r| == |s|
  {
    if s == [] then []
    else
      assert s == [s[0]] + s[1..];
      Insert(s[0], Sort(s[1..]))
  }

  /** Two sorted sequences with the same elements are equal: every sorting
      procedure, stable or not, gives the sequence `Sort` gives. */
  lemma {:induction false} SortedUnique(a: seq<real>, b: seq<real>)
    requires Sorted(a) && Sorted(b)
    requires multiset(a) == multiset(b)
    ensures a == b
  {
    if a != [] {
      assert |b| == |multiset(b)| == |multiset(a)| == |a|;
      assert a[0] in multiset(b) && b[0] in multiset(a);
      assert a[0] == b[0];
      assert a == [a[0]] + a[1..];
      assert b == [b[0]] + b[1..];
      assert multiset(a[1..]) == multiset(a) - multiset{a[0]};
      assert multiset(b[1..]) == multiset(b) - multiset{b[0]};
      SortedUnique(a[1..], b[1..]);
    }
  }

  /** Sorting depends only on which samples there are, not on their order. */
  lemma SortPermutation(a: seq<real>, b: seq<real>)
    requires multiset(a) == multiset(b)
    ensures Sort(a) == Sort(b)
  {
    SortedUnique(Sort(a), Sort(b));
  }

  lemma {:induction false} SumInsert(x: real, s: seq<real>)
    requires Sorted(s)
    ensures Sum(Insert(x, s)) == x + Sum(s)
  {
    if s != [] && x > s[0] {
      SumInsert(x, s[1..]);
      assert Insert(x, s)[1..] == Insert(x, s[1..]);
    }
  }

  lemma {:induction false} SumSort(s: seq<real>)
    ensures Sum(Sort(s)) == Sum(s)
  {
    if s != [] {
      SumSort(s[1..]);
      SumInsert(s[0], Sort(s[1..]));
    }
  }

  /** The mean does not depend on the order of the samples. */
  lemma MeanPermutation(a: seq<real>, b: seq<real>)
    requires a != [] && multiset(a) == multiset(b)
    ensures b != [] && Mean(a) == Mean(b)
  {
    assert |a| == |multiset(a)| == |multiset(b)| == |b|;
    SortPermutation(a, b);
    SumSort(a);
    SumSort(b);
  }

  /** The first and the last element of a sorted ordering of a sample bound
      every sample, and both are samples. */
  lemma SortedEnds(s: seq<real>, xs: seq<real>)
    requires Sorted(s) && multiset(s) == multiset(xs) && xs != []
    ensures |s| == |xs|
    ensures forall i :: 0 <= i < |xs| ==> s[0] <= xs[i] <= s[|s| - 1]
    ensures s[0] in xs && s[|s| - 1] in xs
  {
    assert |s| == |multiset(s)| == |multiset(xs)| == |xs|;
    assert s[0] in multiset(s) && s[|s| - 1] in multiset(s);
    forall i | 0 <= i < |xs|
      ensures s[0] <= xs[i] <= s[|s| - 1]
    {
      assert xs[i] in multiset(s);
    }
  }

  /** The index `j` of the exclusive method: `i * m // n` with `m = ld + 1`,
      clamped to 1 .. ld - 1. */
  function CutIndex(i: int, n: int, ld: int): (j: int)
    requires 1 <= i < n && ld >= 2
    ensures 1 <= j <= ld - 1
    ensures 1 <= i * (ld + 1) / n <= ld - 1 ==> j == i * (ld + 1) / n
    ensures i * (ld + 1) / n < 1 ==> j == 1
    ensures i * (ld + 1) / n > ld - 1 ==> j == ld - 1
  {
    var j := i * (ld + 1) / n;
    if j < 1 then 1 else if j > ld - 1 then ld - 1 else j
  }

  /** The i-th of n cut points of a sorted sample by the exclusive method:
      the weighted average of data[j - 1] and data[j] with the integer
      weights n - delta and delta, where delta = i * m - j * n. When j was
      clamped, delta may fall outside [0, n] and the cut point extrapolates. */
  function CutPoint(s: seq<real>, i: int, n: int): real
    requires 1 <= i < n && |s| >= 2
  {
    var j := CutIndex(i, n, |s|);
    var delta := i * (|s| + 1) - j * n;
    (s[j - 1] * ((n - delta) as real) + s[j] * (delta as real)) / (n as real)
  }

  /** `statistics.quantiles(data, n=n)` with the default exclusive method:
      the n - 1 cut points of the sorted data, or StatisticsError for n < 1
      or fewer than two data points (the behaviour before Python 3.13). */
  function Quantiles(data: seq<real>, n: int): (r: Result<seq<real>>)
    ensures r.Success? <==> n >= 1 && |data| >= 2
    ensures r.Success? ==> |r.value| == n - 1
  {
    if n < 1 then Failure(StatisticsError("n must be at least 1"))
    else if |data| < 2 then Failure(StatisticsError("must have at least two data points"))
    else Success(CutPoints(Sort(data), n))
  }

  /** The n - 1 cut points of a sorted sample, for i = 1 .. n - 1. */
  function CutPoints(s: seq<real>, n: int): (r: seq<real>)
    requires n >= 1 && |s| >= 2
    ensures |r| == n - 1
  {
    seq(n - 1, k requires 0 <= k < n - 1 => CutPoint(s, k + 1, n))
  }

  /** The weighted average with integer weights n - d and d, rewritten as a
      step of d / n from a towards b. */
  lemma Interpolation(a: real, b: real, d: real, n: real)
    requires n > 0.0
    ensures (a * (n - d) + b * d) / n == a + (b - a) * (d / n)
  {
  }

  lemma MulNonneg(x: real, y: real)
    requires x >= 0.0 && y >= 0.0
    ensures x * y >= 0.0
  {
  }

  /** With weights in [0, n], the weighted average lies between a and b. */
  lemma WeightedBetween(a: real, b: real, d: real, n: real)
    requires n > 0.0 && 0.0 <= d <= n && a <= b
    ensures a <= (a * (n - d) + b * d) / n <= b
  {
    var w := a * (n - d) + b * d;
    MulNonneg(b - a, d);
    MulNonneg(b - a, n - d);
    assert w - n * a == (b - a) * d;
    assert n * b - w == (b - a) * (n - d);
    QuotientBounds(w, n, a, b);
  }

  /** Integer weights n - d and d add up to n, so they average two equal
      values to that value. */
  lemma WeightedSame(a: real, b: real, d: int, n: int)
    requires n > 0 && a == b
    ensures (a * ((n - d) as real) + b * (d as real)) / (n as real) == a
  {
    assert a * ((n - d) as real) + a * (d as real) == a * (n as real);
  }

  /** With d >= n the weight of a is not positive and the weighted average
      lands at or beyond b. */
  lemma WeightedBeyond(a: real, b: real, d: real, n: real)
    requires n > 0.0 && d >= n && a <= b
    ensures (a * (n - d) + b * d) / n >= b
    ensures (a * (n - d) + b * d) / n == b <==> d == n || a == b
  {
    Interpolation(a, b, d, n);
    var t := d / n;
    assert t >= 1.0;
    assert t == 1.0 <==> d == n;
    assert a + (b - a) * t == b + (b - a) * (t - 1.0);
    assert (b - a) * (t - 1.0) >= 0.0;
    assert (b - a) * (t - 1.0) == 0.0 <==> b == a || t == 1.0;
  }

  /** Floor division leaves a remainder in [0, n). */
  lemma DivRemainder(p: int, n: int)
    requires n > 0
    ensures 0 <= p - (p / n) * n < n
  {
  }

  /** When the index needs no clamping, the cut point lies between the two
      order statistics it interpolates. */
  lemma CutPointInterior(s: seq<real>, i: int, n: int)
    requires Sorted(s) && 1 <= i < n && |s| >= 2
    requires 1 <= i * (|s| + 1) / n <= |s| - 1
    ensures var j := i * (|s| + 1) / n; s[j - 1] <= CutPoint(s, i, n) <= s[j]
  {
    var p := i * (|s| + 1);
    var j := p / n;
    DivRemainder(p, n);
    var delta := p - j * n;
    assert CutIndex(i, n, |s|) == j;
    WeightedBetween(s[j - 1], s[j], delta as real, n as real);
  }

  /** A cut point of a constant sample is that constant: the two weights
      n - delta and delta always add up to n. */
  lemma CutPointConstant(s: seq<real>, i: int, n: int, c: real)
    requires 1 <= i < n && |s| >= 2
    requires forall k :: 0 <= k < |s| ==> s[k] == c
    ensures CutPoint(s, i, n) == c
  {
    var j := CutIndex(i, n, |s|);
    var delta := i * (|s| + 1) - j * n;
    CutPointAt(s, i, n, j, delta);
    WeightedSame(s[j - 1], s[j], delta, n);
  }

  /** The cut point for a known index j and offset delta. */
  lemma CutPointAt(s: seq<real>, i: int, n: int, j: int, delta: int)
    requires 1 <= i < n && |s| >= 2
    requires j == CutIndex(i, n, |s|) && delta == i * (|s| + 1) - j * n
    ensures 1 <= j <= |s| - 1
    ensures CutPoint(s, i, n) == (s[j - 1] * ((n - delta) as real) + s[j] * (delta as real)) / (n as real)
  {
  }

  /** The quantiles depend only on which samples there are, not on their order. */
  lemma QuantilesPermutation(a: seq<real>, b: seq<real>, n: int)
    requires multiset(a) == multiset(b)
    ensures Quantiles(a, n) == Quantiles(b, n)
  {
    assert |a| == |multiset(a)| == |multiset(b)| == |b|;
    SortPermutation(a, b);
  }

  /** Every cut point of a constant sample is that constant. */
  lemma QuantilesConstant(xs: seq<real>, n: int, c: real)
    requires n >= 1 && |xs| >= 2
    requires forall k :: 0 <= k < |xs| ==> xs[k] == c
    ensures forall k :: 0 <= k < n - 1 ==> Quantiles(xs, n).value[k] == c
  {
    var s := Sort(xs);
    forall k | 0 <= k < |s|
      ensures s[k] == c
    {
      assert s[k] in multiset(xs);
    }
    forall k | 0 <= k < n - 1
      ensures Quantiles(xs, n).value[k] == c
    {
      CutPointConstant(s, k + 1, n, c);
    }
  }

  /** Element k of the quantiles list is the (k + 1)-th cut point. */
  lemma QuantileAt(xs: seq<real>, n: int, k: int)
    requires n >= 1 && |xs| >= 2 && 0 <= k < n - 1
    ensures Quantiles(xs, n).value[k] == CutPoint(Sort(xs), k + 1, n)
  {
    CutPointsAt(Sort(xs), n, k);
  }

  lemma CutPointsAt(s: seq<real>, n: int, k: int)
    requires n >= 1 && |s| >= 2 && 0 <= k < n - 1
    ensures CutPoints(s, n)[k] == CutPoint(s, k + 1, n)
  {
  }

  /** The unclamped index 95 * (L + 1) // 100 of the 95th cut point: inside
      1 .. L - 1 from 20 samples on, and past L - 1 (so clamped) below that. */
  lemma P95Index(L: int)
    requires L >= 2
    ensures L >= 20 ==> 1 <= 95 * (L + 1) / 100 <= L - 1
    ensures L <= 19 ==> 95 * (L + 1) / 100 >= L
  {
    DivRemainder(95 * (L + 1), 100);
  }

  /** On a sorted sample of at least 20 values the 95th of 100 cut points
      lies between the first and the last value. */
  lemma CutPoint95Within(s: seq<real>)
    requires Sorted(s) && |s| >= 20
    ensures s[0] <= CutPoint(s, 95, 100) <= s[|s| - 1]
  {
    var L := |s|;
    P95Index(L);
    var j := 95 * (L + 1) / 100;
    CutPointInterior(s, 95, 100);
    assert s[0] <= s[j - 1] && s[j] <= s[L - 1];
  }

  /** On a sorted sample of 2 to 19 values the index is clamped to the top
      pair and the 95th cut point is at least the last value: beyond it for
      2 to 18 values whose top two differ, equal to it at 19 values or when
      the top two are equal. */
  lemma CutPoint95Beyond(s: seq<real>)
    requires Sorted(s) && 2 <= |s| <= 19
    ensures CutPoint(s, 95, 100) >= s[|s| - 1]
    ensures CutPoint(s, 95, 100) == s[|s| - 1] <==> |s| == 19 || s[|s| - 2] == s[|s| - 1]
  {
    var L := |s|;
    P95Index(L);
    assert CutIndex(95, 100, L) == L - 1;
    var delta := 95 * (L + 1) - (L - 1) * 100;
    assert delta >= 100 && (delta == 100 <==> L == 19);
    WeightedBeyond(s[L - 2], s[L - 1], delta as real, 100.0);
  }

  /** The 95th of 100 cut points of a sample of at least 20 lies within any
      bounds that hold of every sample: between its minimum and maximum. */
  lemma P95Within(xs: seq<real>, lo: real, hi: real)
    requires |xs| >= 20
    requires forall i :: 0 <= i < |xs| ==> lo <= xs[i] <= hi
    ensures lo <= Quantiles(xs, 100).value[94] <= hi
  {
    var s := Sort(xs);
    QuantileAt(xs, 100, 94);
    CutPoint95Within(s);
    SortedEnds(s, xs);
  }

  /** For a sample of 2 to 19 values the 95th cut point is at least the
      maximum, and equals it exactly for 19 values or when the two largest
      values are equal; otherwise it extrapolates beyond the maximum. */
  lemma P95AtLeastMax(xs: seq<real>)
    requires 2 <= |xs| <= 19
    ensures forall i :: 0 <= i < |xs| ==> xs[i] <= Quantiles(xs, 100).value[94]
    ensures var s := Sort(xs);
      Quantiles(xs, 100).value[94] == s[|xs| - 1] <==> |xs| == 19 || s[|xs| - 2] == s[|xs| - 1]
  {
    var s := Sort(xs);
    var q := Quantiles(xs, 100).value[94];
    assert q == CutPoint(s, 95, 100) by {
      QuantileAt(xs, 100, 94);
    }
    assert q >= s[|s| - 1] && (q == s[|s| - 1] <==> |s| == 19 || s[|s| - 2] == s[|s| - 1]) by {
      CutPoint95Beyond(s);
    }
    SortedEnds(s, xs);
  }

  /** Sorting a sorted sample leaves it as it is. */
  lemma SortSorted(xs: seq<real>)
    requires Sorted(xs)
    ensures Sort(xs) == xs
  {
    SortedUnique(Sort(xs), xs);
  }

  /** Latencies 10, 20, 30, 40, 50: the index 95 * 6 // 100 = 5 is clamped
      to 4, so delta = 570 - 400 = 170 and the 95th cut point is
      (40 * -70 + 50 * 170) / 100 = 57, beyond the maximum 50. */
  lemma P95Example()
    ensures Quantiles([10.0, 20.0, 30.0, 40.0, 50.0], 100).value[94] == 57.0
  {
    P95OfFive([10.0, 20.0, 30.0, 40.0, 50.0]);
  }

  /** For five sorted points the 95th cut point extrapolates from the top
      two with weights -70 and 170. */
  lemma P95OfFive(xs: seq<real>)
    requires |xs| == 5 && Sorted(xs)
    ensures Quantiles(xs, 100).value[94] == (xs[3] * -70.0 + xs[4] * 170.0) / 100.0
  {
    QuantileOfSorted(xs, 100, 94);
    assert 95 * (5 + 1) / 100 == 5;
    assert CutIndex(95, 100, 5) == 4;
    CutPointAt(xs, 95, 100, 4, 170);
    FiveWeights(xs[3], xs[4]);
  }

  /** The weights 100 - 170 and 170 of the five-point case, as reals. */
  lemma FiveWeights(a: real, b: real)
    ensures (a * ((100 - 170) as real) + b * (170 as real)) / (100 as real) == (a * -70.0 + b * 170.0) / 100.0
  {
  }

  /** On already sorted data, element k of the quantiles is the (k + 1)-th
      cut point of the data itself. */
  lemma QuantileOfSorted(xs: seq<real>, n: int, k: int)
    requires Sorted(xs) && n >= 1 && |xs| >= 2 && 0 <= k < n - 1
    ensures Quantiles(xs, n).value[k] == CutPoint(xs, k + 1, n)
  {
    SortSorted(xs);
    QuantileAt(xs, n, k);
  }
}
