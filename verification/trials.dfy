/** The trial engine of lab1.py: running success frequencies of coin flips.

    The random source (`randint(0, 1)`) is an input: a Trial is the sequence of
    outcomes it produced, and a whole run reads the draws `draw(0), draw(1), ...`
    of one stream in order. */
module Trials {

  /** One outcome of `randint(0, 1)`; 0 ("heads") is the success. */
  type Coin = c: int | 0 <= c <= 1

  /** Number of successes (0-outcomes) in `flips`. */
  function Successes(flips: seq<Coin>): (count: nat)
    ensures count <= |flips|
  {
    if |flips| == 0 then 0
    else Successes(flips[..|flips| - 1]) + (if flips[|flips| - 1] == 0 then 1 else 0)
  }

  /** `r` is the frequency trajectory of `flips`: entry i is the fraction of
      successes among the first i+1 flips. */
  ghost predicate IsTrajectory(flips: seq<Coin>, r: seq<real>)
  {
    && |r| == |flips|
    && forall i :: 0 <= i < |r| ==> r[i] == Successes(flips[..i + 1]) as real / (i + 1) as real
  }

  /** `experiment(N)` with the N flips given: a running counter of successes,
      divided by the number of flips so far after each flip. */
  method Experiment(flips: seq<Coin>) returns (r: seq<real>)
    ensures |r| == |flips|
    ensures forall i :: 0 <= i < |r| ==> r[i] == Successes(flips[..i + 1]) as real / (i + 1) as real
    ensures forall i :: 0 <= i < |r| ==> 0.0 <= r[i] <= 1.0
  {
    r := [];
    var counter: nat := 0;
    var i := 0;
    while i < |flips|
      invariant 0 <= i <= |flips|
      invariant |r| == i
      invariant counter == Successes(flips[..i])
      invariant forall k :: 0 <= k < i ==> r[k] == Successes(flips[..k + 1]) as real / (k + 1) as real
      invariant forall k :: 0 <= k < i ==> 0.0 <= r[k] <= 1.0
    {
      assert flips[..i + 1][..i] == flips[..i];
      if flips[i] == 0 {
        counter := counter + 1;
      }
      FractionInUnit(counter, i + 1);
      r := r + [counter as real / (i + 1) as real];
      i := i + 1;
    }
  }

  /** A count of at most `total` items, divided by `total`, lies in [0, 1]. */
  lemma FractionInUnit(count: nat, total: nat)
    requires 0 < total && count <= total
    ensures 0.0 <= count as real / total as real <= 1.0
  {
  }

  /** Every trajectory entry lies in [0, 1]. */
  lemma TrajectoryInUnit(flips: seq<Coin>, r: seq<real>, i: int)
    requires IsTrajectory(flips, r)
    requires 0 <= i < |r|
    ensures 0.0 <= r[i] <= 1.0
  {
    FractionInUnit(Successes(flips[..i + 1]), i + 1);
  }

  /** The counter behind a trajectory grows by exactly one on a success and
      stays put on a failure: (i+1)·r[i] − i·r[i−1] is 1 or 0 accordingly. */
  lemma TrajectoryStep(flips: seq<Coin>, r: seq<real>, i: int)
    requires IsTrajectory(flips, r)
    requires 1 <= i < |r|
    ensures (i + 1) as real * r[i] - i as real * r[i - 1] == (if flips[i] == 0 then 1.0 else 0.0)
    ensures 0.0 <= (i + 1) as real * r[i] - i as real * r[i - 1] <= 1.0
  {
    var prev := Successes(flips[..i]);
    var cur := Successes(flips[..i + 1]);
    assert flips[..i + 1][..i] == flips[..i];
    assert cur == prev + (if flips[i] == 0 then 1 else 0);
    assert (i + 1) as real * r[i] == cur as real;
    assert i as real * r[i - 1] == prev as real;
  }

  /** The k-th row's flips: the N draws that follow the k*N draws consumed by
      the rows before it. */
  function RowFlips(draw: nat -> Coin, n: nat, k: nat): (flips: seq<Coin>)
    ensures |flips| == n
    ensures forall i :: 0 <= i < n ==> flips[i] == draw(k * n + i)
  {
    seq(n, i requires 0 <= i < n => draw(k * n + i))
  }

  /** The first `len` values of the draw stream, in the order they are drawn. */
  function Prefix(draw: nat -> Coin, len: nat): (s: seq<Coin>)
  {
    seq(len, i requires 0 <= i < len => draw(i))
  }

  /** The flips of rows 0 .. m−1 laid end to end. */
  function Concat(draw: nat -> Coin, n: nat, m: nat): (s: seq<Coin>)
  {
    if m == 0 then [] else Concat(draw, n, m - 1) + RowFlips(draw, n, m - 1)
  }

  /** The rows of `exp_series` take the stream in turn: laid end to end, the
      flips of the first M rows are exactly the first M·N draws, none skipped
      and none used twice. */
  lemma {:induction false} RowsTileTheDraws(draw: nat -> Coin, n: nat, m: nat)
    ensures Concat(draw, n, m) == Prefix(draw, m * n)
  {
    if m > 0 {
      RowsTileTheDraws(draw, n, m - 1);
      var front, row := Prefix(draw, (m - 1) * n), RowFlips(draw, n, m - 1);
      assert m * n == (m - 1) * n + n;
      forall i | 0 <= i < m * n
        ensures (front + row)[i] == Prefix(draw, m * n)[i]
      {
        if i >= (m - 1) * n {
          assert row[i - (m - 1) * n] == draw((m - 1) * n + (i - (m - 1) * n));
        }
      }
    }
  }

  /** `exp_series(M, N)`: M trajectories of length N, row k computed from its
      own window of draws only. */
  method ExpSeries(m: nat, n: nat, draw: nat -> Coin) returns (vs: seq<seq<real>>)
    ensures |vs| == m
    ensures forall k :: 0 <= k < m ==> |vs[k]| == n
    ensures forall k :: 0 <= k < m ==> IsTrajectory(RowFlips(draw, n, k), vs[k])
  {
    vs := [];
    var k := 0;
    while k < m
      invariant 0 <= k <= m
      invariant |vs| == k
      invariant forall j :: 0 <= j < k ==> IsTrajectory(RowFlips(draw, n, j), vs[j])
    {
      var row := Experiment(RowFlips(draw, n, k));
      vs := vs + [row];
      k := k + 1;
    }
  }
}
