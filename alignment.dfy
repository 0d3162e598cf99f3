/** The alignment table of delta.go (sequence): a dynamic-programming table
    over every pair of prefixes of the two word sequences, indexed from -1
    and stored shifted by one, whose border holds 1 instead of the textbook 0. */
module Alignment {

  /** (i, j) names a cell of the logical table: -1 stands for the empty prefix. */
  predicate InRange(prev: seq<string>, curr: seq<string>, i: int, j: int)
  {
    -1 <= i < |prev| && -1 <= j < |curr|
  }

  /** The value the table holds at (i, j): the LCS recurrence with border 1.
      It lies between 1 and one more than the shorter prefix length. */
  function Score(prev: seq<string>, curr: seq<string>, i: int, j: int): (r: int)
    requires InRange(prev, curr, i, j)
    ensures 1 <= r <= 1 + (if i < j then i + 1 else j + 1)
    decreases i + j + 2
  {
    if i == -1 || j == -1 then 1
    else if prev[i] == curr[j] then Score(prev, curr, i - 1, j - 1) + 1
    else if Score(prev, curr, i, j - 1) > Score(prev, curr, i - 1, j) then Score(prev, curr, i, j - 1)
    else Score(prev, curr, i - 1, j)
  }

  /** Neighbouring cells differ by 0 or 1: the table never decreases along a
      row or a column, and each step adds at most one. */
  lemma {:induction false} ScoreSteps(prev: seq<string>, curr: seq<string>, i: int, j: int)
    requires InRange(prev, curr, i, j)
    ensures j >= 0 ==> Score(prev, curr, i, j - 1) <= Score(prev, curr, i, j) <= Score(prev, curr, i, j - 1) + 1
    ensures i >= 0 ==> Score(prev, curr, i - 1, j) <= Score(prev, curr, i, j) <= Score(prev, curr, i - 1, j) + 1
    decreases i + j + 2
  {
    if i >= 0 && j >= 0 {
      ScoreSteps(prev, curr, i, j - 1);
      ScoreSteps(prev, curr, i - 1, j);
    }
  }

  /** The table is monotone across any block of cells, not only neighbours. */
  lemma {:induction false} ScoreMonotone(prev: seq<string>, curr: seq<string>, i: int, j: int, i': int, j': int)
    requires InRange(prev, curr, i, j) && InRange(prev, curr, i', j')
    requires i <= i' && j <= j'
    ensures Score(prev, curr, i, j) <= Score(prev, curr, i', j')
    decreases i' - i + j' - j
  {
    if i < i' {
      ScoreMonotone(prev, curr, i, j, i' - 1, j');
      ScoreSteps(prev, curr, i', j');
    } else if j < j' {
      ScoreMonotone(prev, curr, i, j, i', j' - 1);
      ScoreSteps(prev, curr, i', j');
    }
  }

  // ---------------------------------------------------------------------
  // Common subsequences: the reference the table is measured against
  // ---------------------------------------------------------------------

  /** `s` can be obtained from `t` by deleting elements. */
  predicate IsSubseq(s: seq<string>, t: seq<string>)
    decreases |t|
  {
    if |s| == 0 then true
    else if |t| == 0 then false
    else
      (s[|s| - 1] == t[|t| - 1] && IsSubseq(s[..|s| - 1], t[..|t| - 1]))
      || IsSubseq(s, t[..|t| - 1])
  }

  /** Appending to the longer sequence keeps a subsequence a subsequence. */
  lemma IsSubseqExtend(s: seq<string>, t: seq<string>, y: string)
    requires IsSubseq(s, t)
    ensures IsSubseq(s, t + [y])
  {
    assert (t + [y])[..|t|] == t;
  }

  /** No common subsequence of the prefixes prev[..i+1] and curr[..j+1] is
      longer than the table value at (i, j) minus one. */
  lemma {:induction false} CommonBoundedByScore(prev: seq<string>, curr: seq<string>, i: int, j: int, s: seq<string>)
    requires InRange(prev, curr, i, j)
    requires IsSubseq(s, prev[..i + 1]) && IsSubseq(s, curr[..j + 1])
    ensures |s| <= Score(prev, curr, i, j) - 1
    decreases i + j + 2
  {
    if |s| > 0 {
      SubseqOfPrefix(s, prev, i + 1);
      SubseqOfPrefix(s, curr, j + 1);
      ScoreSteps(prev, curr, i, j);
      if IsSubseq(s, prev[..i]) {
        CommonBoundedByScore(prev, curr, i - 1, j, s);
      } else if IsSubseq(s, curr[..j]) {
        CommonBoundedByScore(prev, curr, i, j - 1, s);
      } else {
        CommonBoundedByScore(prev, curr, i - 1, j - 1, s[..|s| - 1]);
      }
    }
  }

  /** A subsequence of a non-empty prefix either skips the prefix's last
      element or ends with it. */
  lemma SubseqOfPrefix(s: seq<string>, t: seq<string>, n: int)
    requires 0 < n <= |t| && |s| > 0 && IsSubseq(s, t[..n])
    ensures IsSubseq(s, t[..n - 1]) || (s[|s| - 1] == t[n - 1] && IsSubseq(s[..|s| - 1], t[..n - 1]))
  {
    assert t[..n][..n - 1] == t[..n - 1];
  }

  // ---------------------------------------------------------------------
  // The table as an array, shifted by one: cell (i, j) is stored at [i+1, j+1]
  // ---------------------------------------------------------------------

  /** What the finished array holds at [a, b]. Row |prev|+1 and column
      |curr|+1 are allocated by the loop bounds of `sequence` in delta.go
      but never updated, so they keep the initial 1. */
  function Cell(prev: seq<string>, curr: seq<string>, a: int, b: int): int
    requires 0 <= a <= |prev| + 1 && 0 <= b <= |curr| + 1
  {
    if a <= |prev| && b <= |curr| then Score(prev, curr, a - 1, b - 1) else 1
  }

  /** `c` is the finished table for `prev` and `curr`. */
  predicate IsTable(c: array2<int>, prev: seq<string>, curr: seq<string>)
    reads c
  {
    c.Length0 == |prev| + 2 && c.Length1 == |curr| + 2
    && forall a, b :: 0 <= a < c.Length0 && 0 <= b < c.Length1 ==> c[a, b] == Cell(prev, curr, a, b)
  }

  /** What the array holds at [a, b] once rows 0 .. i-1 of the logical
      table and the first j cells of row i are computed. */
  function Partial(prev: seq<string>, curr: seq<string>, i: int, j: int, a: int, b: int): int
    requires 0 <= a <= |prev| + 1 && 0 <= b <= |curr| + 1
    requires 0 <= i <= |prev| && 0 <= j <= |curr| && (j > 0 ==> i < |prev|)
  {
    if (1 <= a <= i && 1 <= b <= |curr|) || (a == i + 1 && 1 <= b <= j) then Score(prev, curr, a - 1, b - 1) else 1
  }

  /** Builds the table: first every cell, including the extra row and column,
      is set to 1; then the interior is filled row by row with the recurrence. */
  method Sequence(prev: seq<string>, curr: seq<string>) returns (c: array2<int>)
    ensures fresh(c) && IsTable(c, prev, curr)
    ensures forall a, b :: 0 <= a < c.Length0 && 0 <= b < c.Length1 ==>
      (a == 0 || b == 0 || a == |prev| + 1 || b == |curr| + 1) ==> c[a, b] == 1
  {
    c := new int[|prev| + 2, |curr| + 2];
    SetOnes(c);
    Fill(c, prev, curr);
  }

  /** The first phase: every cell of the logical range -1 .. len, in both
      dimensions, is set to 1. */
  method SetOnes(c: array2<int>)
    modifies c
    ensures forall a, b :: 0 <= a < c.Length0 && 0 <= b < c.Length1 ==> c[a, b] == 1
  {
    for i := -1 to c.Length0 - 1
      invariant forall a, b :: 0 <= a < i + 1 && 0 <= b < c.Length1 ==> c[a, b] == 1
    {
      var row := i + 1;
      for j := -1 to c.Length1 - 1
        invariant forall a, b :: 0 <= a < row && 0 <= b < c.Length1 ==> c[a, b] == 1
        invariant forall b :: 0 <= b < j + 1 ==> c[row, b] == 1
      {
        c[i + 1, j + 1] := 1;
      }
    }
  }

  /** The second phase: cell (i, j) gets one more than its diagonal
      neighbour when the words match, and otherwise the larger of its left
      and upper neighbours, the upper one on a tie. */
  method Fill(c: array2<int>, prev: seq<string>, curr: seq<string>)
    requires c.Length0 == |prev| + 2 && c.Length1 == |curr| + 2
    requires forall a, b :: 0 <= a < c.Length0 && 0 <= b < c.Length1 ==> c[a, b] == 1
    modifies c
    ensures IsTable(c, prev, curr)
  {
    var n, m := |prev|, |curr|;
    for i := 0 to n
      invariant forall a, b :: 0 <= a < n + 2 && 0 <= b < m + 2 ==> c[a, b] == Partial(prev, curr, i, 0, a, b)
    {
      for j := 0 to m
        invariant forall a, b :: 0 <= a < n + 2 && 0 <= b < m + 2 ==> c[a, b] == Partial(prev, curr, i, j, a, b)
      {
        assert c[i, j] == Score(prev, curr, i - 1, j - 1);
        assert c[i + 1, j] == Score(prev, curr, i, j - 1);
        assert c[i, j + 1] == Score(prev, curr, i - 1, j);
        if prev[i] == curr[j] {
          c[i + 1, j + 1] := c[i, j] + 1;
        } else {
          var max;
          if c[i + 1, j] > c[i, j + 1] {
            max := c[i + 1, j];
          } else {
            max := c[i, j + 1];
          }
          c[i + 1, j + 1] := max;
        }
        assert c[i + 1, j + 1] == Score(prev, curr, i, j);
      }
    }
  }
}
