# Coin-flip frequency experiment — statistical kernel

A Dafny model of the statistics behind `lab1.py`, a small desktop program that
flips a fair coin N times per series, repeats M series, and plots:

- the running success frequency of each series (success = outcome 0, "heads");
- the mean of those trajectories at every step;
- an empirical confidence band built from order statistics at every step;
- the empirical half-width of that band.

The random source, the window and the plots are not modelled. The coin draws
are an input: a function `draw: nat -> Coin` that gives the k-th value
`randint(0, 1)` would have returned. Series k reads draws k·N … k·N+N−1, in the
order the Python loop consumes them. Python floats are modelled as exact
`real`s.

Modules:

- `Trials` (`trials.dfy`): `experiment` and `exp_series`. It also gives the
  closed form of a trajectory, `IsTrajectory`: entry i is the number of
  successes in the first i+1 flips divided by i+1.
- `Matrix` (`matrix.dfy`): the M×N matrix as a sequence of rows, its columns,
  and column sums, minimum and maximum.
- `Sorting` (`sorting.dfy`): the per-column ascending sort, specified as
  "sorted and a permutation". It proves that only one such permutation exists,
  and that entry k of it is the k-th smallest value, defined by counting.
- `Stats` (`stats.dfy`): `mean`, the ranks `m_down` and `m_up`,
  `conf_interval` and `exp_error`, with their properties.
- `Lab` (`run.dfy`): the input checks and the computational part of
  `run_experiment`.
- `Wrappers` (`wrappers.dfy`): `Option` and `Result`.
- `SeqFacts` (`seqfacts.dfy`): a multiset fact shared by the permutation proofs.

Behaviour worth knowing, all proved:

- For validated inputs (N > 1, M > 1, 0 ≤ alpha ≤ 1) both ranks lie in
  [0, M−1] and `m_down + m_up = M − 1`, so `conf_interval` never raises.
- With exact arithmetic the ranks are ordered (`m_down ≤ m_up`) exactly when
  alpha > 0 or M is odd; Python's floats can move this boundary (see "Left
  out"). Whenever the ranks are ordered, lower ≤ upper in every column. With
  alpha = 0 and M even the ranks cross (`m_down = m_up + 1`). Then
  upper ≤ lower, with equality in the columns whose two middle sorted values
  agree, and `exp_error` is ≤ 0. It is strictly negative exactly where those
  two middle values differ. Two series whose
  trajectories differ at a step are the smallest case
  (`Stats.TwoSeriesCrossed`). A common reading assumes lower ≤ upper always;
  the code does not guarantee it, and the model follows the code.
- `conf_interval` itself does not check alpha. Outside [0, 1] the model
  follows Python. `int()` truncates toward zero, and negative indexes count
  from the end of the column. A rank outside [−M, M) raises IndexError. A
  matrix with no columns makes numpy's `apply_along_axis` raise ValueError.
- The second input check compares alpha with 1, although its message says
  alpha must be below 2. The model follows the comparison.

## Model

| member | source | states |
|---|---|---|
| Trials.Successes | lab1.py:16-20 | the success counter over a prefix never exceeds the number of flips in it |
| Trials.Experiment | lab1.py:14-22 | the trajectory has one entry per flip; entry i equals (successes among flips 0..i)/(i+1); every entry lies in [0,1] |
| Trials.TrajectoryInUnit | lab1.py:16-21 | any sequence meeting the closed form has every entry in [0,1] |
| Trials.TrajectoryStep | lab1.py:17-21 | (i+1)·r[i] − i·r[i−1] is 1 when flip i is a success and 0 otherwise, so the hidden counter is non-decreasing and grows by at most 1 per step |
| Trials.ExpSeries | lab1.py:25-29 | M rows of length N; row k is the trajectory of its own window of N draws, so rows share no state |
| Trials.RowsTileTheDraws | lab1.py:17-18 | the series consume the draw stream in turn: the flips of rows 0 … M−1, laid end to end, are exactly the first M·N draws, none skipped and none reused |
| Matrix.ColumnSumPermutation | lab1.py:32-33 | a column sum is the same for any reordering of the rows (equal multisets of rows) |
| Matrix.ColumnSumBounds | lab1.py:32-33 | if every entry of a column lies in [lo, hi], the column sum lies in [M·lo, M·hi] |
| Stats.Mean | lab1.py:32-33 | returns one value per column |
| Matrix.ColumnSumIsSeqSum | lab1.py:32-33 | the column sum used by the mean equals the plain left-to-right sum of the column's values |
| Stats.MeanIsColumnAverage | lab1.py:32-33 | entry j of the mean is the plain sum of the values of column j divided by the number of rows M |
| Stats.MeanWithinColumn | lab1.py:32-33 | each column mean lies between that column's minimum and maximum |
| Stats.ColumnMeanBounds | lab1.py:32-33 | if every entry of column j lies in [lo, hi], so does its mean |
| Stats.MeanWithinBounds | lab1.py:32-33 | bounds shared by all matrix entries also hold for every column mean |
| Stats.MeanRowPermutation | lab1.py:32-33 | permuting the rows leaves the mean vector unchanged |
| Sorting.Sort | lab1.py:41 | the sorted column is ascending and a permutation of the column |
| Sorting.SortedPermutationUnique | lab1.py:41 | two ascending permutations of the same values are equal, so any sorting algorithm gives the same column |
| Sorting.SortedPermutationKthSmallest | lab1.py:41-42 | entry k of an ascending permutation is the k-th smallest value: at most k values are below it and more than k are at most it |
| Stats.Trunc | lab1.py:39 | `int()` truncates toward zero: the result is the integer part of x on both sides of 0 |
| Stats.TruncMonotone | lab1.py:39 | truncation is monotone on non-negative numbers |
| Stats.LowerRankIsFloor | lab1.py:38-39 | for M ≥ 2 and 0 ≤ alpha ≤ 1, m_down is the largest integer not above M·(1 − alpha)/2, and it is not negative |
| Stats.UpperRankFromEnd | lab1.py:40-42 | in a column of length M, the value at m_up is the value at Python index −(m_down + 1): the upper edge is the m_down-th largest value, as the lower edge is the m_down-th smallest |
| Stats.LowerRankArgument | lab1.py:38-39 | the number truncated into m_down lies in [0, M/2], below M/2 exactly when alpha > 0 |
| Stats.RanksInRange | lab1.py:37-40 | for M ≥ 2 and 0 ≤ alpha ≤ 1: 0 ≤ m_down ≤ M/2, 0 ≤ m_up ≤ M−1, m_down + m_up = M−1 |
| Stats.RanksOrdered | lab1.py:38-40 | m_down ≤ m_up exactly when alpha > 0 or M is odd; crossed ranks differ by one, and for alpha = 0 and even M they are M/2 and M/2 − 1 |
| Stats.LowerRankAntitone | lab1.py:38-40 | a larger alpha never raises m_down and never lowers m_up |
| Stats.PyIndex | lab1.py:42 | Python indexing: defined exactly for indexes in [−len, len), and the value is an element of the sequence |
| Stats.ConfInterval | lab1.py:36-42 | ValueError exactly when there are no columns; IndexError exactly when a rank misses the column (Python indexing); otherwise N lower and N upper values |
| Stats.BandValuesInColumn | lab1.py:41-42 | for any alpha, every band value returned is a value of its own column |
| Stats.ConfIntervalSucceeds | lab1.py:37-42 | after validation, conf_interval returns a band and raises nothing |
| Stats.BandEdges | lab1.py:37-42 | after validation both ranks are ordinary indexes into the column and the edges are the sorted column at those ranks |
| Stats.BandFromAnySortedColumn | lab1.py:41-42 | for any ascending permutation t of column j, the band edges are t at the ranks m_down and m_up |
| Stats.BandIsOrderStatistic | lab1.py:37-42 | after validation, the lower edge of column j is its m_down-th smallest value and the upper edge its m_up-th smallest |
| Stats.BandOrdered | lab1.py:38-42 | after validation: lower ≤ upper in every column if alpha > 0 or M is odd; upper ≤ lower in every column if alpha = 0 and M is even |
| Stats.BandNarrowsAsAlphaDecreases | lab1.py:38-42 | for fixed data, a smaller alpha raises the lower edge and lowers the upper edge (non-strictly) |
| Stats.ColumnNarrows | lab1.py:38-42 | the one-column case of the narrowing property |
| Stats.ExpError | lab1.py:85 | one half-width per column; it is ≥ 0 exactly when that column's band is ordered; lower + e = upper − e |
| Stats.ExpErrorSign | lab1.py:85 | after validation exp_error is ≥ 0 everywhere when alpha > 0 or M is odd, and ≤ 0 everywhere when alpha = 0 and M is even |
| Stats.ColumnOrdered | lab1.py:38-42 | after validation with alpha > 0 or M odd, the lower edge of column j is at most its upper edge |
| Stats.ColumnCrossed | lab1.py:38-42 | after validation with alpha = 0 and M even, the lower edge of column j is the sorted column at M/2 and the upper edge the sorted column at M/2 − 1 |
| Stats.ExpErrorNegative | lab1.py:37-42 | after validation, exp_error of column j is negative exactly when alpha = 0, M is even and the two middle values of the sorted column differ |
| Stats.SortTwo | lab1.py:41 | sorting two values puts the smaller first |
| Stats.TwoSeriesCrossed | lab1.py:37-42 | with two series and alpha = 0, wherever the series differ the lower edge is the larger value, the upper edge the smaller, and exp_error is negative |
| Lab.Validate | lab1.py:58-62 | accepts exactly when N > 1, M > 1 and 0 ≤ alpha ≤ 1; the size error comes first, and the alpha error exactly when sizes pass and alpha is outside [0, 1] |
| Lab.RunExperiment | lab1.py:52-85 | fails exactly on invalid inputs, with the error of the checks; otherwise an M×N matrix of trajectories from consecutive windows of draws, means in [0,1], a band that exists with edges in [0,1], exp_error = (upper − lower)/2, and exp_error ≥ 0 when alpha > 0 or M is odd |

## Left out

- The tkinter window, widgets, the error label, `hide_error_label` and the 5-second `root.after` timer (lab1.py:48-49, 67-154 apart from 74 and 85): user-interface plumbing with no computational content.
- The matplotlib figures and plotting calls: rendering only.
- `flip_coin` / `randint` (lab1.py:10-11): an external random source. It is replaced by the `draw` parameter.
- `normal_quantile` and `theory_error` (lab1.py:45-46, 87-91): fractional powers and `math.sqrt` on floats, which exact reals cannot express faithfully.
- Parsing the three text fields with `int(...)` and `float(...)` (lab1.py:54-56), and the ValueError a non-numeric field raises: the model takes N and M as `int` and alpha as `real`.
- Floating-point behaviour: rounding in `counter / (i + 1)`, in numpy's summation for the mean and in `m * ((1 - alpha) / 2)`, and NaN or infinite alpha. A NaN alpha passes both comparisons in Python. All arithmetic here is exact, and every statement about the ranks holds for exact arithmetic only. Rounding can change the integer rank. With alpha = 0.8 and M = 10, Python computes `int(0.9999999999999998)` = 0 and takes ranks 0 and 9, where the exact value 1.0 gives ranks 1 and 8. With a tiny positive alpha such as 1e-17, `1 - alpha` rounds to 1.0, so for even M Python's ranks cross although alpha > 0.
- The text of the two error messages (only their kind is modelled). The second message says "less than 2"; the enforced bound is 1.
- The sorting algorithm numpy uses: `Sorting.SortedPermutationUnique` shows that every correct ascending sort gives the same column, so insertion sort stands in for it.
- Stats.Mean: requires at least one row, because `np.mean` over zero rows returns NaN, which has no `real` counterpart; every call in the program has M > 1.
- Trials.ExpSeries: takes M and N as natural numbers. `np.zeros` rejects negative sizes, and the program calls `exp_series` only after its inputs pass the checks.
