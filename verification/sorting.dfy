/** Ascending sort of one column, as `np.sort(vs, axis=0)` does per column.

    The sort is specified by what it must produce: an ascending permutation of
    its input. `SortedPermutationUnique` shows that there is only one such
    permutation, so any correct sort gives the same column as `Sort`. */
module Sorting {
  import opened SeqFacts

  /** `s` is in ascending order. */
  predicate Sorted(s: seq<real>)
  {
    forall i, j :: 0 <= i < j < |s| ==> s[i] <= s[j]
  }

  /** `x` inserted into the sorted sequence `s` at its place. */
  function Insert(x: real, s: seq<real>): (r: seq<real>)
    requires Sorted(s)
    ensures Sorted(r)
    ensures multiset(r) == multiset(s) + multiset{x}
    ensures |r| == |s| + 1
  {
    if |s| == 0 then [x]
    else if x <= s[0] then
      ConsSorted(x, s);
      [x] + s
    else
      var rest := Insert(x, s[1..]);
      assert s == [s[0]] + s[1..];
      LowerBoundOfPermutation(s[0], s[1..] + [x], rest);
      ConsSorted(s[0], rest);
      [s[0]] + rest
  }

  /** Prefixing a lower bound to an ascending sequence keeps it ascending. */
  lemma ConsSorted(h: real, s: seq<real>)
    requires Sorted(s)
    requires forall k :: 0 <= k < |s| ==> h <= s[k]
    ensures Sorted([h] + s)
  {
  }

  /** A lower bound of every element is a lower bound of every permutation. */
  lemma LowerBoundOfPermutation(b: real, a: seq<real>, c: seq<real>)
    requires multiset(a) == multiset(c)
    requires forall k :: 0 <= k < |a| ==> b <= a[k]
    ensures forall k :: 0 <= k < |c| ==> b <= c[k]
  {
    forall k | 0 <= k < |c|
      ensures b <= c[k]
    {
      assert c[k] in multiset(a);
      var i :| 0 <= i < |a| && a[i] == c[k];
    }
  }

  /** An ascending permutation of `s` (insertion sort). */
  function Sort(s: seq<real>): (t: seq<real>)
    ensures Sorted(t)
    ensures multiset(t) == multiset(s)
    ensures |t| == |s|
  {
    if |s| == 0 then []
    else
      assert s == [s[0]] + s[1..];
      Insert(s[0], Sort(s[1..]))
  }

  /** The head of a non-empty ascending permutation of `s` is no larger than
      any element of `s`. */
  lemma SortedHeadIsLeast(t: seq<real>, s: seq<real>, i: int)
    requires Sorted(t) && multiset(t) == multiset(s)
    requires 0 <= i < |s|
    ensures |t| > 0 && t[0] <= s[i]
  {
    assert s[i] in multiset(t);
    var k :| 0 <= k < |t| && t[k] == s[i];
    assert k == 0 || t[0] <= t[k];
  }

  /** Two ascending permutations of the same values are equal. */
  lemma {:induction false} SortedPermutationUnique(t: seq<real>, u: seq<real>)
    requires Sorted(t) && Sorted(u)
    requires multiset(t) == multiset(u)
    ensures t == u
    decreases |t|
  {
    assert |t| == |multiset(t)| == |multiset(u)| == |u|;
    if |t| > 0 {
      SortedHeadIsLeast(t, u, 0);
      SortedHeadIsLeast(u, t, 0);
      var head := t[0];
      assert t == [head] + t[1..];
      assert u == [head] + u[1..];
      assert multiset(t[1..]) == multiset(t) - multiset{head};
      assert multiset(u[1..]) == multiset(u) - multiset{head};
      SortedPermutationUnique(t[1..], u[1..]);
    }
  }

  /** The ascending permutation of `s` is `Sort(s)`. */
  lemma SortIsTheSortedPermutation(s: seq<real>, t: seq<real>)
    requires Sorted(t) && multiset(t) == multiset(s)
    ensures t == Sort(s)
  {
    SortedPermutationUnique(t, Sort(s));
  }

  /** Number of elements of `s` below `x` (strictly when `strict`, otherwise
      at most `x`). */
  function Count(s: seq<real>, x: real, strict: bool): (c: nat)
    ensures c <= |s|
  {
    if |s| == 0 then 0
    else (if (if strict then s[0] < x else s[0] <= x) then 1 else 0) + Count(s[1..], x, strict)
  }

  /** `x` is the k-th smallest value of `s` (counting from 0): fewer than k+1
      values lie strictly below it and more than k values are at most it. */
  ghost predicate IsKthSmallest(s: seq<real>, k: int, x: real)
  {
    && x in s
    && Count(s, x, true) <= k < Count(s, x, false)
  }

  /** Counting over a concatenation adds the counts of the parts. */
  lemma {:induction false} CountAppend(a: seq<real>, b: seq<real>, x: real, strict: bool)
    ensures Count(a + b, x, strict) == Count(a, x, strict) + Count(b, x, strict)
    decreases |a|
  {
    if |a| == 0 {
      assert a + b == b;
    } else {
      assert (a + b)[1..] == a[1..] + b;
      CountAppend(a[1..], b, x, strict);
    }
  }

  /** Counts do not depend on the order of the elements. */
  lemma {:induction false} CountPermutation(a: seq<real>, b: seq<real>, x: real, strict: bool)
    requires multiset(a) == multiset(b)
    ensures Count(a, x, strict) == Count(b, x, strict)
    decreases |a|
  {
    assert |a| == |multiset(a)| == |multiset(b)| == |b|;
    if |a| > 0 {
      var i := MatchHead(a, b);
      var front, back := b[..i], b[i + 1..];
      assert b == front + ([a[0]] + back);
      CountAppend(front, [a[0]] + back, x, strict);
      CountAppend(front, back, x, strict);
      assert ([a[0]] + back)[1..] == back;
      CountPermutation(a[1..], front + back, x, strict);
    }
  }

  /** When every element is at most `x`, all of them are counted. */
  lemma {:induction false} CountAllAtMost(s: seq<real>, x: real)
    requires forall k :: 0 <= k < |s| ==> s[k] <= x
    ensures Count(s, x, false) == |s|
    decreases |s|
  {
    if |s| > 0 {
      CountAllAtMost(s[1..], x);
    }
  }

  /** When no element is below `x`, none is counted strictly. */
  lemma {:induction false} CountNoneBelow(s: seq<real>, x: real)
    requires forall k :: 0 <= k < |s| ==> x <= s[k]
    ensures Count(s, x, true) == 0
    decreases |s|
  {
    if |s| > 0 {
      CountNoneBelow(s[1..], x);
    }
  }

  /** In an ascending sequence at most i values lie strictly below entry i. */
  lemma SortedCountBelow(t: seq<real>, i: int)
    requires Sorted(t) && 0 <= i < |t|
    ensures Count(t, t[i], true) <= i
  {
    var before, after := t[..i], t[i..];
    assert t == before + after;
    CountAppend(before, after, t[i], true);
    forall k | 0 <= k < |after|
      ensures t[i] <= after[k]
    {
      assert after[k] == t[i + k];
    }
    CountNoneBelow(after, t[i]);
  }

  /** In an ascending sequence at least i+1 values are at most entry i. */
  lemma SortedCountAtMost(t: seq<real>, i: int)
    requires Sorted(t) && 0 <= i < |t|
    ensures i + 1 <= Count(t, t[i], false)
  {
    var upTo, beyond := t[..i + 1], t[i + 1..];
    assert t == upTo + beyond;
    CountAppend(upTo, beyond, t[i], false);
    forall k | 0 <= k < |upTo|
      ensures upTo[k] <= t[i]
    {
      assert upTo[k] == t[k];
    }
    CountAllAtMost(upTo, t[i]);
  }

  /** In an ascending sequence, entry i is the i-th smallest value. */
  lemma SortedEntryIsKthSmallest(t: seq<real>, i: int)
    requires Sorted(t) && 0 <= i < |t|
    ensures IsKthSmallest(t, i, t[i])
  {
    SortedCountBelow(t, i);
    SortedCountAtMost(t, i);
  }

  /** The i-th entry of any ascending permutation of `s` is the i-th smallest
      value of `s`. */
  lemma SortedPermutationKthSmallest(s: seq<real>, t: seq<real>, i: int)
    requires Sorted(t) && multiset(t) == multiset(s)
    requires 0 <= i < |t|
    ensures IsKthSmallest(s, i, t[i])
  {
    SortedEntryIsKthSmallest(t, i);
    CountPermutation(t, s, t[i], true);
    CountPermutation(t, s, t[i], false);
    assert t[i] in multiset(s);
  }
}
