/** The statistics aggregator of lab1.py: column mean (`mean`), the
    order-statistic confidence band (`conf_interval`) and the empirical
    half-width `exp_error` computed from it. */
module Stats {
  import opened Wrappers
  import opened Matrix
  import opened Sorting

  // ---------------------------------------------------------------- mean

  /** `np.mean(vs, axis=0)`: the arithmetic mean of each column. */
  function Mean(vs: seq<seq<real>>, n: nat): (r: seq<real>)
    requires |vs| > 0 && IsMatrix(vs, n)
    ensures |r| == n
  {
    seq(n, j requires 0 <= j < n => ColumnSum(vs, n, j) / |vs| as real)
  }

  /** Entry j of the mean is the sum of column j divided by the number of
      rows: the arithmetic mean of that column. */
  lemma MeanIsColumnAverage(vs: seq<seq<real>>, n: nat, j: nat)
    requires |vs| > 0 && IsMatrix(vs, n) && j < n
    ensures Mean(vs, n)[j] == SeqSum(Column(vs, n, j)) / |vs| as real
  {
    ColumnSumIsSeqSum(vs, n, j);
  }

  /** Each column mean lies between that column's minimum and maximum. */
  lemma MeanWithinColumn(vs: seq<seq<real>>, n: nat, j: nat)
    requires |vs| > 0 && IsMatrix(vs, n) && j < n
    ensures MinOf(Column(vs, n, j)) <= Mean(vs, n)[j] <= MaxOf(Column(vs, n, j))
  {
    var col := Column(vs, n, j);
    var lo, hi := MinOf(col), MaxOf(col);
    forall k | 0 <= k < |vs|
      ensures lo <= vs[k][j] <= hi
    {
      assert col[k] == vs[k][j];
    }
    ColumnMeanBounds(vs, n, j, lo, hi);
  }

  /** Bounds on every entry of column j carry over to its mean. */
  lemma ColumnMeanBounds(vs: seq<seq<real>>, n: nat, j: nat, lo: real, hi: real)
    requires |vs| > 0 && IsMatrix(vs, n) && j < n
    requires forall k :: 0 <= k < |vs| ==> lo <= vs[k][j] <= hi
    ensures lo <= Mean(vs, n)[j] <= hi
  {
    ColumnSumBounds(vs, n, j, lo, hi);
    var total := ColumnSum(vs, n, j);
    QuotientBounds(total, |vs| as real, lo, hi);
    assert Mean(vs, n)[j] == total / |vs| as real;
  }

  /** Dividing a value between m·lo and m·hi by m > 0 lands in [lo, hi]. */
  lemma QuotientBounds(total: real, m: real, lo: real, hi: real)
    requires 0.0 < m && m * lo <= total <= m * hi
    ensures lo <= total / m <= hi
  {
    var q := total / m;
    assert total == q * m;
  }

  /** Bounds shared by every entry carry over to the column means. */
  lemma MeanWithinBounds(vs: seq<seq<real>>, n: nat, lo: real, hi: real)
    requires |vs| > 0 && IsMatrix(vs, n)
    requires forall k, j :: 0 <= k < |vs| && 0 <= j < n ==> lo <= vs[k][j] <= hi
    ensures forall j :: 0 <= j < n ==> lo <= Mean(vs, n)[j] <= hi
  {
    forall j | 0 <= j < n
      ensures lo <= Mean(vs, n)[j] <= hi
    {
      ColumnMeanBounds(vs, n, j, lo, hi);
    }
  }

  /** The mean does not depend on the order of the rows. */
  lemma MeanRowPermutation(vs: seq<seq<real>>, ws: seq<seq<real>>, n: nat)
    requires |vs| > 0 && IsMatrix(vs, n) && IsMatrix(ws, n)
    requires multiset(vs) == multiset(ws)
    ensures |ws| == |vs|
    ensures Mean(vs, n) == Mean(ws, n)
  {
    assert |vs| == |multiset(vs)| == |multiset(ws)| == |ws|;
    forall j | 0 <= j < n
      ensures Mean(vs, n)[j] == Mean(ws, n)[j]
    {
      ColumnSumPermutation(vs, ws, n, j);
    }
  }

  // --------------------------------------------------------------- ranks

  /** Python's `int(x)` on a number: truncation toward zero. */
  function Trunc(x: real): (r: int)
    ensures 0.0 <= x ==> 0 <= r && r as real <= x < r as real + 1.0
    ensures x < 0.0 ==> r <= 0 && r as real - 1.0 < x <= r as real
  {
    if x >= 0.0 then x.Floor else -((-x).Floor)
  }

  /** `m_down = int(m * ((1 - alpha) / 2))`. */
  function LowerRank(m: int, alpha: real): (r: int)
  {
    Trunc(m as real * ((1.0 - alpha) / 2.0))
  }

  /** `m_up = m - m_down - 1`. */
  function UpperRank(m: int, alpha: real): (r: int)
  {
    m - LowerRank(m, alpha) - 1
  }

  /** Truncation is monotone on non-negative numbers. */
  lemma TruncMonotone(x: real, y: real)
    requires 0.0 <= x <= y
    ensures Trunc(x) <= Trunc(y)
  {
    assert Trunc(x) as real <= x <= y < Trunc(y) as real + 1.0;
  }

  /** Scaling by a non-negative factor preserves order. */
  lemma ScaleMonotone(m: real, c1: real, c2: real)
    requires 0.0 <= m && c1 <= c2
    ensures m * c1 <= m * c2
    ensures 0.0 < m && c1 < c2 ==> m * c1 < m * c2
  {
  }

  /** The real number `m_down` truncates: M·(1 − alpha)/2, which for
      0 ≤ alpha ≤ 1 lies in [0, M/2], strictly below M/2 when alpha > 0 and
      equal to M/2 when alpha = 0. */
  lemma LowerRankArgument(m: int, alpha: real)
    requires m >= 2 && 0.0 <= alpha <= 1.0
    ensures 0.0 <= m as real * ((1.0 - alpha) / 2.0) <= m as real / 2.0
    ensures alpha > 0.0 ==> m as real * ((1.0 - alpha) / 2.0) < m as real / 2.0
    ensures alpha == 0.0 ==> m as real * ((1.0 - alpha) / 2.0) == m as real / 2.0
  {
    var c := (1.0 - alpha) / 2.0;
    assert 0.0 <= c <= 0.5;
    ScaleMonotone(m as real, 0.0, c);
    ScaleMonotone(m as real, c, 0.5);
  }

  /** For a validated run `m_down` is the largest integer not above
      M·(1 − alpha)/2, which is not negative. */
  lemma LowerRankIsFloor(m: int, alpha: real)
    requires m >= 2 && 0.0 <= alpha <= 1.0
    ensures 0 <= LowerRank(m, alpha)
    ensures LowerRank(m, alpha) as real <= m as real * ((1.0 - alpha) / 2.0)
    ensures m as real * ((1.0 - alpha) / 2.0) < LowerRank(m, alpha) as real + 1.0
  {
    LowerRankArgument(m, alpha);
  }

  /** Counted from the end of a column of length M (Python index −(m_down + 1)),
      the element at `m_down` is the element `m_up` counted from the start: the
      upper edge is the m_down-th largest value where the lower edge is the
      m_down-th smallest. */
  lemma UpperRankFromEnd(t: seq<real>, alpha: real)
    requires 0 <= LowerRank(|t|, alpha) < |t|
    ensures 0 <= UpperRank(|t|, alpha) < |t|
    ensures PyIndex(t, UpperRank(|t|, alpha)) == PyIndex(t, -(LowerRank(|t|, alpha) + 1))
  {
    var d := LowerRank(|t|, alpha);
    assert PyIndex(t, -(d + 1)) == Some(t[|t| - d - 1]);
  }

  /** For a validated run both ranks index the sorted column, they sum to
      M − 1, and the lower one is at most M/2. */
  lemma RanksInRange(m: int, alpha: real)
    requires m >= 2 && 0.0 <= alpha <= 1.0
    ensures 0 <= LowerRank(m, alpha) <= m / 2
    ensures 0 <= UpperRank(m, alpha) <= m - 1
    ensures LowerRank(m, alpha) + UpperRank(m, alpha) == m - 1
  {
    LowerRankArgument(m, alpha);
    var d := LowerRank(m, alpha);
    assert d as real <= m as real / 2.0;
    assert 2 * d <= m;
  }

  /** The ranks are ordered exactly when alpha is positive or M is odd; when
      they cross (alpha = 0, M even) the lower rank is the upper one plus 1. */
  lemma RanksOrdered(m: int, alpha: real)
    requires m >= 2 && 0.0 <= alpha <= 1.0
    ensures LowerRank(m, alpha) <= UpperRank(m, alpha) <==> (alpha > 0.0 || m % 2 == 1)
    ensures LowerRank(m, alpha) > UpperRank(m, alpha) ==> LowerRank(m, alpha) == UpperRank(m, alpha) + 1
    ensures alpha == 0.0 && m % 2 == 0 ==> LowerRank(m, alpha) == m / 2 && UpperRank(m, alpha) == m / 2 - 1
  {
    LowerRankArgument(m, alpha);
    var x := m as real * ((1.0 - alpha) / 2.0);
    var d := LowerRank(m, alpha);
    assert d as real <= x < d as real + 1.0;
    var h := m / 2;
    assert m == 2 * h + m % 2;
    if alpha > 0.0 {
      assert 2 * d < m;
    } else if m % 2 == 0 {
      assert x == h as real;
      assert d == h;
    } else {
      assert x == h as real + 0.5;
      assert d == h;
    }
  }

  /** Raising alpha never raises the lower rank (and so never lowers the
      upper one). */
  lemma LowerRankAntitone(m: int, a1: real, a2: real)
    requires m >= 2 && 0.0 <= a1 <= a2 <= 1.0
    ensures LowerRank(m, a2) <= LowerRank(m, a1)
    ensures UpperRank(m, a1) <= UpperRank(m, a2)
  {
    LowerRankArgument(m, a2);
    ScaleMonotone(m as real, (1.0 - a2) / 2.0, (1.0 - a1) / 2.0);
    TruncMonotone(m as real * ((1.0 - a2) / 2.0), m as real * ((1.0 - a1) / 2.0));
  }


  // ---------------------------------------------------------------- band

  /** Python indexing `s[i]`: a negative index counts from the end, and an
      index outside [-|s|, |s|) raises IndexError (None here). */
  function PyIndex(s: seq<real>, i: int): (r: Option<real>)
    ensures r.Some? <==> -|s| <= i < |s|
    ensures r.Some? ==> r.value in s
  {
    if 0 <= i < |s| then Some(s[i])
    else if -|s| <= i < 0 then Some(s[|s| + i])
    else None
  }

  /** Lower and upper edge of the band, one entry per step. */
  datatype Band = Band(lower: seq<real>, upper: seq<real>)

  /** Why `conf_interval` raises: numpy refuses to apply a function along an
      axis when there are no columns (ValueError), and a rank outside the
      column raises IndexError. */
  datatype BandError = EmptyIteration | IndexOutOfRange

  /** `conf_interval(vs, alpha)`: sort every column, then take its entries at
      ranks `m_down` and `m_up` (Python indexing). Column 0 is processed first,
      and every column has the same length, so a rank that misses one column
      misses column 0. */
  function ConfInterval(vs: seq<seq<real>>, n: nat, alpha: real): (r: Result<Band, BandError>)
    requires IsMatrix(vs, n)
    ensures r == Failure(EmptyIteration) <==> n == 0
    ensures r == Failure(IndexOutOfRange) <==>
      n > 0 && (PyIndex(Sort(Column(vs, n, 0)), LowerRank(|vs|, alpha)).None?
             || PyIndex(Sort(Column(vs, n, 0)), UpperRank(|vs|, alpha)).None?)
    ensures r.Success? ==> |r.value.lower| == n && |r.value.upper| == n
  {
    var m := |vs|;
    var down, up := LowerRank(m, alpha), UpperRank(m, alpha);
    if n == 0 then Failure(EmptyIteration)
    else if !(-m <= down < m && -m <= up < m) then Failure(IndexOutOfRange)
    else
      Success(Band(
        seq(n, j requires 0 <= j < n => PyIndex(Sort(Column(vs, n, j)), down).value),
        seq(n, j requires 0 <= j < n => PyIndex(Sort(Column(vs, n, j)), up).value)))
  }

  /** Whatever alpha is, every band value that `conf_interval` returns is a
      value of its own column. */
  lemma BandValuesInColumn(vs: seq<seq<real>>, n: nat, alpha: real, j: nat)
    requires IsMatrix(vs, n) && ConfInterval(vs, n, alpha).Success? && j < n
    ensures ConfInterval(vs, n, alpha).value.lower[j] in Column(vs, n, j)
    ensures ConfInterval(vs, n, alpha).value.upper[j] in Column(vs, n, j)
  {
    var t := Sort(Column(vs, n, j));
    var b := ConfInterval(vs, n, alpha).value;
    assert b.lower[j] in multiset(t);
    assert b.upper[j] in multiset(t);
  }

  /** `exp_error = (upper - lower) / 2`, elementwise. */
  function ExpError(b: Band): (e: seq<real>)
    requires |b.lower| == |b.upper|
    ensures |e| == |b.lower|
    ensures forall j :: 0 <= j < |e| ==> (0.0 <= e[j] <==> b.lower[j] <= b.upper[j])
    ensures forall j :: 0 <= j < |e| ==> b.lower[j] + e[j] == b.upper[j] - e[j]
  {
    seq(|b.lower|, j requires 0 <= j < |b.lower| => (b.upper[j] - b.lower[j]) / 2.0)
  }

  // ------------------------------------------------------ band properties

  /** Shape and parameters accepted by the validation of `run_experiment`
      (M > 1 rows, N > 1 columns, 0 ≤ alpha ≤ 1), for a matrix of shape (M, N). */
  ghost predicate ValidRun(vs: seq<seq<real>>, n: nat, alpha: real)
  {
    && IsMatrix(vs, n)
    && |vs| > 1 && n > 1
    && 0.0 <= alpha <= 1.0
  }

  /** After validation `conf_interval` never raises: both ranks are in range. */
  lemma ConfIntervalSucceeds(vs: seq<seq<real>>, n: nat, alpha: real)
    requires ValidRun(vs, n, alpha)
    ensures ConfInterval(vs, n, alpha).Success?
  {
    RanksInRange(|vs|, alpha);
  }

  /** The band does not depend on which sorting algorithm is used: for any
      ascending permutation t of column j, the band edges are t at the two
      ranks (Python indexing). */
  lemma BandFromAnySortedColumn(vs: seq<seq<real>>, n: nat, alpha: real, j: nat, t: seq<real>)
    requires IsMatrix(vs, n) && ConfInterval(vs, n, alpha).Success?
    requires j < n
    requires Sorted(t) && multiset(t) == multiset(Column(vs, n, j))
    ensures PyIndex(t, LowerRank(|vs|, alpha)) == Some(ConfInterval(vs, n, alpha).value.lower[j])
    ensures PyIndex(t, UpperRank(|vs|, alpha)) == Some(ConfInterval(vs, n, alpha).value.upper[j])
  {
    SortIsTheSortedPermutation(Column(vs, n, j), t);
  }

  /** After validation, the lower edge of column j is its m_down-th smallest
      value and the upper edge its m_up-th smallest value (from 0). */
  lemma BandIsOrderStatistic(vs: seq<seq<real>>, n: nat, alpha: real, j: nat)
    requires ValidRun(vs, n, alpha) && j < n
    ensures ConfInterval(vs, n, alpha).Success?
    ensures IsKthSmallest(Column(vs, n, j), LowerRank(|vs|, alpha), ConfInterval(vs, n, alpha).value.lower[j])
    ensures IsKthSmallest(Column(vs, n, j), UpperRank(|vs|, alpha), ConfInterval(vs, n, alpha).value.upper[j])
  {
    ConfIntervalSucceeds(vs, n, alpha);
    RanksInRange(|vs|, alpha);
    var col := Column(vs, n, j);
    SortedPermutationKthSmallest(col, Sort(col), LowerRank(|vs|, alpha));
    SortedPermutationKthSmallest(col, Sort(col), UpperRank(|vs|, alpha));
  }

  /** After validation the band is ordered (lower ≤ upper in every column)
      when alpha > 0 or M is odd; for alpha = 0 and even M the ranks cross and
      the edges are reversed (upper ≤ lower in every column). */
  lemma BandOrdered(vs: seq<seq<real>>, n: nat, alpha: real)
    requires ValidRun(vs, n, alpha)
    ensures ConfInterval(vs, n, alpha).Success?
    ensures (alpha > 0.0 || |vs| % 2 == 1) ==>
      forall j :: 0 <= j < n ==> ConfInterval(vs, n, alpha).value.lower[j] <= ConfInterval(vs, n, alpha).value.upper[j]
    ensures (alpha == 0.0 && |vs| % 2 == 0) ==>
      forall j :: 0 <= j < n ==> ConfInterval(vs, n, alpha).value.upper[j] <= ConfInterval(vs, n, alpha).value.lower[j]
  {
    ConfIntervalSucceeds(vs, n, alpha);
    RanksInRange(|vs|, alpha);
    RanksOrdered(|vs|, alpha);
    var b := ConfInterval(vs, n, alpha).value;
    var down, up := LowerRank(|vs|, alpha), UpperRank(|vs|, alpha);
    forall j | 0 <= j < n
      ensures down <= up ==> b.lower[j] <= b.upper[j]
      ensures up <= down ==> b.upper[j] <= b.lower[j]
    {
      var t := Sort(Column(vs, n, j));
      assert b.lower[j] == t[down] && b.upper[j] == t[up];
    }
  }

  /** After validation the empirical half-width is non-negative in every
      column when alpha > 0 or M is odd, and non-positive in every column
      when alpha = 0 and M is even. */
  lemma ExpErrorSign(vs: seq<seq<real>>, n: nat, alpha: real)
    requires ValidRun(vs, n, alpha)
    ensures ConfInterval(vs, n, alpha).Success?
    ensures |ExpError(ConfInterval(vs, n, alpha).value)| == n
    ensures (alpha > 0.0 || |vs| % 2 == 1) ==>
      forall j :: 0 <= j < n ==> 0.0 <= ExpError(ConfInterval(vs, n, alpha).value)[j]
    ensures (alpha == 0.0 && |vs| % 2 == 0) ==>
      forall j :: 0 <= j < n ==> ExpError(ConfInterval(vs, n, alpha).value)[j] <= 0.0
  {
    BandOrdered(vs, n, alpha);
  }

  /** Column j after validation, when alpha > 0 or M is odd: the edges are
      ordered. */
  lemma ColumnOrdered(vs: seq<seq<real>>, n: nat, alpha: real, j: nat)
    requires ValidRun(vs, n, alpha) && j < n
    requires alpha > 0.0 || |vs| % 2 == 1
    ensures ConfInterval(vs, n, alpha).Success?
    ensures ConfInterval(vs, n, alpha).value.lower[j] <= ConfInterval(vs, n, alpha).value.upper[j]
  {
    BandEdges(vs, n, alpha, j);
    RanksOrdered(|vs|, alpha);
    var t := Sort(Column(vs, n, j));
    var d, u := LowerRank(|vs|, alpha), UpperRank(|vs|, alpha);
    assert d == u || t[d] <= t[u];
  }

  /** Column j after validation, when alpha = 0 and M is even: the lower edge
      is the sorted column at M/2 and the upper edge the sorted column at
      M/2 − 1. */
  lemma ColumnCrossed(vs: seq<seq<real>>, n: nat, j: nat)
    requires ValidRun(vs, n, 0.0) && j < n && |vs| % 2 == 0
    ensures ConfInterval(vs, n, 0.0).Success?
    ensures ConfInterval(vs, n, 0.0).value.lower[j] == Sort(Column(vs, n, j))[|vs| / 2]
    ensures ConfInterval(vs, n, 0.0).value.upper[j] == Sort(Column(vs, n, j))[|vs| / 2 - 1]
  {
    RanksOrdered(|vs|, 0.0);
    var h := |vs| / 2;
    assert LowerRank(|vs|, 0.0) == h && UpperRank(|vs|, 0.0) == h - 1;
    BandEdges(vs, n, 0.0, j);
  }

  /** After validation exp_error is negative in column j exactly when
      alpha = 0, M is even and the two middle values of the sorted column
      differ. */
  lemma ExpErrorNegative(vs: seq<seq<real>>, n: nat, alpha: real, j: nat)
    requires ValidRun(vs, n, alpha) && j < n
    ensures ConfInterval(vs, n, alpha).Success?
    ensures ExpError(ConfInterval(vs, n, alpha).value)[j] < 0.0 <==>
      alpha == 0.0 && |vs| % 2 == 0
      && Sort(Column(vs, n, j))[|vs| / 2 - 1] < Sort(Column(vs, n, j))[|vs| / 2]
  {
    if alpha == 0.0 && |vs| % 2 == 0 {
      ColumnCrossed(vs, n, j);
    } else {
      ColumnOrdered(vs, n, alpha, j);
    }
    var b := ConfInterval(vs, n, alpha).value;
    assert ExpError(b)[j] < 0.0 <==> b.upper[j] < b.lower[j];
  }

  /** Sorting two values puts the smaller first. */
  lemma SortTwo(a: real, b: real)
    ensures Sort([a, b]) == if a <= b then [a, b] else [b, a]
  {
    if a <= b {
      SortIsTheSortedPermutation([a, b], [a, b]);
    } else {
      assert multiset([b, a]) == multiset([a, b]);
      SortIsTheSortedPermutation([a, b], [b, a]);
    }
  }

  /** Two series and alpha = 0: wherever the two trajectories differ, the
      "lower" edge is the larger value, the "upper" edge the smaller one, and
      exp_error is minus half their distance, so it is negative. */
  lemma TwoSeriesCrossed(vs: seq<seq<real>>, n: nat, j: nat)
    requires ValidRun(vs, n, 0.0) && |vs| == 2 && j < n
    requires vs[0][j] != vs[1][j]
    ensures ConfInterval(vs, n, 0.0).Success?
    ensures ConfInterval(vs, n, 0.0).value.lower[j] == (if vs[0][j] <= vs[1][j] then vs[1][j] else vs[0][j])
    ensures ConfInterval(vs, n, 0.0).value.upper[j] == (if vs[0][j] <= vs[1][j] then vs[0][j] else vs[1][j])
    ensures ExpError(ConfInterval(vs, n, 0.0).value)[j] < 0.0
  {
    RanksOrdered(2, 0.0);
    BandEdges(vs, n, 0.0, j);
    var a, b := vs[0][j], vs[1][j];
    assert Column(vs, n, j) == [a, b];
    SortTwo(a, b);
  }

  /** A smaller alpha gives a narrower band: the lower edge rises and the
      upper edge falls (non-strictly) in every column. */
  lemma BandNarrowsAsAlphaDecreases(vs: seq<seq<real>>, n: nat, a1: real, a2: real)
    requires ValidRun(vs, n, a1) && ValidRun(vs, n, a2) && a1 <= a2
    ensures ConfInterval(vs, n, a1).Success? && ConfInterval(vs, n, a2).Success?
    ensures forall j :: 0 <= j < n ==>
      ConfInterval(vs, n, a2).value.lower[j] <= ConfInterval(vs, n, a1).value.lower[j]
    ensures forall j :: 0 <= j < n ==>
      ConfInterval(vs, n, a1).value.upper[j] <= ConfInterval(vs, n, a2).value.upper[j]
  {
    ConfIntervalSucceeds(vs, n, a1);
    ConfIntervalSucceeds(vs, n, a2);
    forall j | 0 <= j < n
      ensures ConfInterval(vs, n, a2).value.lower[j] <= ConfInterval(vs, n, a1).value.lower[j]
      ensures ConfInterval(vs, n, a1).value.upper[j] <= ConfInterval(vs, n, a2).value.upper[j]
    {
      ColumnNarrows(vs, n, a1, a2, j);
    }
  }

  /** One column of `BandNarrowsAsAlphaDecreases`. */
  lemma ColumnNarrows(vs: seq<seq<real>>, n: nat, a1: real, a2: real, j: nat)
    requires ValidRun(vs, n, a1) && ValidRun(vs, n, a2) && a1 <= a2 && j < n
    ensures ConfInterval(vs, n, a1).Success? && ConfInterval(vs, n, a2).Success?
    ensures ConfInterval(vs, n, a2).value.lower[j] <= ConfInterval(vs, n, a1).value.lower[j]
    ensures ConfInterval(vs, n, a1).value.upper[j] <= ConfInterval(vs, n, a2).value.upper[j]
  {
    BandEdges(vs, n, a1, j);
    BandEdges(vs, n, a2, j);
    LowerRankAntitone(|vs|, a1, a2);
    var t := Sort(Column(vs, n, j));
    var d1, d2 := LowerRank(|vs|, a1), LowerRank(|vs|, a2);
    var u1, u2 := UpperRank(|vs|, a1), UpperRank(|vs|, a2);
    assert d2 == d1 || t[d2] <= t[d1];
    assert u1 == u2 || t[u1] <= t[u2];
  }

  /** After validation, the band edges of column j are the sorted column at
      the two ranks, both of which are ordinary (non-negative) indexes. */
  lemma BandEdges(vs: seq<seq<real>>, n: nat, alpha: real, j: nat)
    requires ValidRun(vs, n, alpha) && j < n
    ensures 0 <= LowerRank(|vs|, alpha) < |vs| && 0 <= UpperRank(|vs|, alpha) < |vs|
    ensures ConfInterval(vs, n, alpha).Success?
    ensures ConfInterval(vs, n, alpha).value.lower[j] == Sort(Column(vs, n, j))[LowerRank(|vs|, alpha)]
    ensures ConfInterval(vs, n, alpha).value.upper[j] == Sort(Column(vs, n, j))[UpperRank(|vs|, alpha)]
  {
    RanksInRange(|vs|, alpha);
  }
}
