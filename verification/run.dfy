/** `run_experiment` without its user interface: validate the three inputs,
    build the trajectory matrix, and derive the mean, the confidence band and
    the empirical half-width that the program plots. */
module Lab {
  import opened Wrappers
  import opened Trials
  import opened Matrix
  import opened Stats

  /** The two ValueErrors raised by the input checks. The message of the
      second says alpha must be below 2, but the comparison enforces 1. */
  datatype ValidationError = CountNotAboveOne | AlphaOutOfRange

  /** The input checks: N and M must exceed 1 (checked first), then alpha
      must lie in [0, 1]. */
  function Validate(n: int, m: int, alpha: real): (r: Result<(), ValidationError>)
    ensures r.Success? <==> n > 1 && m > 1 && 0.0 <= alpha <= 1.0
    ensures r == Failure(CountNotAboveOne) <==> n <= 1 || m <= 1
    ensures r == Failure(AlphaOutOfRange) <==> n > 1 && m > 1 && (alpha < 0.0 || alpha > 1.0)
  {
    if n <= 1 || m <= 1 then Failure(CountNotAboveOne)
    else if alpha > 1.0 || alpha < 0.0 then Failure(AlphaOutOfRange)
    else Success(())
  }

  /** What one successful run hands to the plotting code. */
  datatype Report = Report(vs: seq<seq<real>>, means: seq<real>, band: Band, expError: seq<real>)

  /** One press of the run button, with the coin draws taken from `draw`. */
  method RunExperiment(n: int, m: int, alpha: real, draw: nat -> Coin) returns (r: Result<Report, ValidationError>)
    ensures r.Success? <==> n > 1 && m > 1 && 0.0 <= alpha <= 1.0
    ensures r.Failure? ==> Validate(n, m, alpha) == Failure(r.error)
    ensures r.Success? ==> |r.value.vs| == m && IsMatrix(r.value.vs, n)
    ensures r.Success? ==> forall k :: 0 <= k < m ==> IsTrajectory(RowFlips(draw, n, k), r.value.vs[k])
    ensures r.Success? ==> r.value.means == Mean(r.value.vs, n)
    ensures r.Success? ==> forall j :: 0 <= j < n ==> 0.0 <= r.value.means[j] <= 1.0
    ensures r.Success? ==> ConfInterval(r.value.vs, n, alpha) == Success(r.value.band)
    ensures r.Success? ==> |r.value.band.lower| == n && |r.value.band.upper| == n && |r.value.expError| == n
    ensures r.Success? ==> forall j :: 0 <= j < n ==>
      r.value.expError[j] == (r.value.band.upper[j] - r.value.band.lower[j]) / 2.0
    ensures r.Success? ==> forall j :: 0 <= j < n ==>
      0.0 <= r.value.band.lower[j] <= 1.0 && 0.0 <= r.value.band.upper[j] <= 1.0
    ensures r.Success? && (alpha > 0.0 || m % 2 == 1) ==> forall j :: 0 <= j < n ==> 0.0 <= r.value.expError[j]
  {
    var checked := Validate(n, m, alpha);
    if checked.Failure? {
      return Failure(checked.error);
    }
    var vs := ExpSeries(m, n, draw);
    forall k, j | 0 <= k < m && 0 <= j < n
      ensures 0.0 <= vs[k][j] <= 1.0
    {
      TrajectoryInUnit(RowFlips(draw, n, k), vs[k], j);
    }
    var means := Mean(vs, n);
    MeanWithinBounds(vs, n, 0.0, 1.0);
    ExpErrorSign(vs, n, alpha);
    var band := ConfInterval(vs, n, alpha).value;
    forall j | 0 <= j < n
      ensures 0.0 <= band.lower[j] <= 1.0 && 0.0 <= band.upper[j] <= 1.0
    {
      BandValuesInColumn(vs, n, alpha, j);
      var col := Column(vs, n, j);
      var lo :| 0 <= lo < m && col[lo] == band.lower[j];
      var up :| 0 <= up < m && col[up] == band.upper[j];
    }
    var expError := ExpError(band);
    return Success(Report(vs, means, band, expError));
  }
}
