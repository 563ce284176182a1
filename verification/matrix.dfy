/** The M×N trajectory matrix as a sequence of rows, and its columns. */
module Matrix {
  import opened SeqFacts

  /** Every row of `vs` has `n` entries: `vs` has shape (|vs|, n). */
  ghost predicate IsMatrix(vs: seq<seq<real>>, n: nat)
  {
    forall k :: 0 <= k < |vs| ==> |vs[k]| == n
  }

  /** Column `j` of `vs`, top row first. */
  function Column(vs: seq<seq<real>>, n: nat, j: nat): (col: seq<real>)
    requires IsMatrix(vs, n) && j < n
    ensures |col| == |vs|
    ensures forall k :: 0 <= k < |vs| ==> col[k] == vs[k][j]
  {
    seq(|vs|, k requires 0 <= k < |vs| => vs[k][j])
  }

  /** Sum of column `j` over the rows of `vs`. */
  function ColumnSum(vs: seq<seq<real>>, n: nat, j: nat): (r: real)
    requires IsMatrix(vs, n) && j < n
  {
    if |vs| == 0 then 0.0 else vs[0][j] + ColumnSum(vs[1..], n, j)
  }

  /** Sum of a sequence of reals, last element added last. */
  function SeqSum(s: seq<real>): (r: real)
  {
    if |s| == 0 then 0.0 else SeqSum(s[..|s| - 1]) + s[|s| - 1]
  }

  /** Summing a sequence front to back gives its sum. */
  lemma {:induction false} SeqSumFront(s: seq<real>)
    requires |s| > 0
    ensures SeqSum(s) == s[0] + SeqSum(s[1..])
    decreases |s|
  {
    if |s| > 1 {
      var init := s[..|s| - 1];
      assert init[1..] == s[1..][..|s[1..]| - 1];
      SeqSumFront(init);
    } else {
      assert s[..0] == [] && s[1..] == [];
    }
  }

  /** The row-by-row column sum is the plain sum of the column. */
  lemma {:induction false} ColumnSumIsSeqSum(vs: seq<seq<real>>, n: nat, j: nat)
    requires IsMatrix(vs, n) && j < n
    ensures ColumnSum(vs, n, j) == SeqSum(Column(vs, n, j))
    decreases |vs|
  {
    if |vs| > 0 {
      ColumnSumIsSeqSum(vs[1..], n, j);
      assert Column(vs[1..], n, j) == Column(vs, n, j)[1..];
      SeqSumFront(Column(vs, n, j));
    }
  }

  /** Stacking two blocks of rows adds their column sums. */
  lemma {:induction false} ColumnSumAppend(a: seq<seq<real>>, b: seq<seq<real>>, n: nat, j: nat)
    requires IsMatrix(a, n) && IsMatrix(b, n) && j < n
    ensures IsMatrix(a + b, n)
    ensures ColumnSum(a + b, n, j) == ColumnSum(a, n, j) + ColumnSum(b, n, j)
    decreases |a|
  {
    if |a| > 0 {
      assert (a + b)[1..] == a[1..] + b;
      ColumnSumAppend(a[1..], b, n, j);
    } else {
      assert a + b == b;
    }
  }

  /** A column sum does not depend on the order of the rows. */
  lemma {:induction false} ColumnSumPermutation(vs: seq<seq<real>>, ws: seq<seq<real>>, n: nat, j: nat)
    requires IsMatrix(vs, n) && IsMatrix(ws, n) && j < n
    requires multiset(vs) == multiset(ws)
    ensures ColumnSum(vs, n, j) == ColumnSum(ws, n, j)
    decreases |vs|
  {
    assert |vs| == |multiset(vs)| == |multiset(ws)| == |ws|;
    if |vs| > 0 {
      var i := MatchHead(vs, ws);
      var front, back := ws[..i], ws[i + 1..];
      assert ws == front + ([vs[0]] + back);
      ColumnSumAppend(front, [vs[0]] + back, n, j);
      ColumnSumAppend(front, back, n, j);
      assert ([vs[0]] + back)[1..] == back;
      ColumnSumPermutation(vs[1..], front + back, n, j);
    }
  }

  /** Column sums scale with bounds on the column: if every entry lies in
      [lo, hi] then the sum lies in [M·lo, M·hi]. */
  lemma {:induction false} ColumnSumBounds(vs: seq<seq<real>>, n: nat, j: nat, lo: real, hi: real)
    requires IsMatrix(vs, n) && j < n
    requires forall k :: 0 <= k < |vs| ==> lo <= vs[k][j] <= hi
    ensures |vs| as real * lo <= ColumnSum(vs, n, j) <= |vs| as real * hi
    decreases |vs|
  {
    if |vs| > 0 {
      ColumnSumBounds(vs[1..], n, j, lo, hi);
      assert |vs| as real * lo == lo + (|vs| - 1) as real * lo;
      assert |vs| as real * hi == hi + (|vs| - 1) as real * hi;
    }
  }

  /** The smallest value of a non-empty sequence. */
  function MinOf(s: seq<real>): (r: real)
    requires |s| > 0
    ensures r in s
    ensures forall k :: 0 <= k < |s| ==> r <= s[k]
  {
    if |s| == 1 then s[0]
    else
      var rest := MinOf(s[1..]);
      if s[0] <= rest then s[0] else rest
  }

  /** The largest value of a non-empty sequence. */
  function MaxOf(s: seq<real>): (r: real)
    requires |s| > 0
    ensures r in s
    ensures forall k :: 0 <= k < |s| ==> s[k] <= r
  {
    if |s| == 1 then s[0]
    else
      var rest := MaxOf(s[1..]);
      if s[0] >= rest then s[0] else rest
  }
}
