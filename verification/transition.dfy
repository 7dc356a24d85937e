/** The Probability Transition Matrix (PTM) derived from the adjacency matrix:
    every row is divided by its degree, the number of edges incident to the node. */
module Transition {
  import opened Sums

  /** Each entry of row divided by d. */
  function Divided(row: seq<int>, d: real): (p: seq<real>)
    requires d != 0.0
    ensures |p| == |row|
  {
    seq(|row|, j requires 0 <= j < |row| => row[j] as real / d)
  }

  /** One row of the PTM: entry j is row[j] / deg where deg is the row's sum;
      a row whose degree is zero is left all zero. */
  function ProbabilityRow(row: seq<int>): (p: seq<real>)
    ensures |p| == |row|
    ensures Sum(row) == 0 ==> forall j :: 0 <= j < |row| ==> p[j] == 0.0
  {
    var deg := Sum(row);
    if deg == 0 then seq(|row|, _ => 0.0) else Divided(row, deg as real)
  }

  /** The PTM of an adjacency matrix, row by row. */
  function ProbabilityMatrix(g: seq<seq<int>>): (ptm: seq<seq<real>>)
    ensures |ptm| == |g|
    ensures forall i :: 0 <= i < |g| ==> |ptm[i]| == |g[i]|
  {
    seq(|g|, i requires 0 <= i < |g| => ProbabilityRow(g[i]))
  }

  /** Dividing every entry by d divides the sum by d. */
  lemma {:induction false} DividedSum(row: seq<int>, d: real)
    requires d != 0.0
    ensures SumReal(Divided(row, d)) == Sum(row) as real / d
  {
    if row != [] {
      assert Divided(row, d)[1..] == Divided(row[1..], d);
      DividedSum(row[1..], d);
    }
  }

  /** A row with at least one edge is a probability distribution: it sums to one. */
  lemma RowStochastic(row: seq<int>)
    requires Sum(row) != 0
    ensures SumReal(ProbabilityRow(row)) == 1.0
  {
    var d := Sum(row) as real;
    DividedSum(row, d);
    assert ProbabilityRow(row) == Divided(row, d);
    assert d / d == 1.0;
  }

  /** In a 0/1 adjacency row, an entry of the PTM row is positive exactly where there is an edge. */
  lemma PositiveIffEdge(row: seq<int>, j: int)
    requires forall k :: 0 <= k < |row| ==> row[k] == 0 || row[k] == 1
    requires 0 <= j < |row|
    ensures ProbabilityRow(row)[j] > 0.0 <==> row[j] == 1
  {
    SumAtLeastEntry(row, j);
  }

  /** Every entry of the PTM row of a 0/1 row lies between 0 and 1. */
  lemma {:induction false} EntriesAreProbabilities(row: seq<int>, j: int)
    requires forall k :: 0 <= k < |row| ==> row[k] == 0 || row[k] == 1
    requires 0 <= j < |row|
    ensures 0.0 <= ProbabilityRow(row)[j] <= 1.0
  {
    SumAtLeastEntry(row, j);
    SumNonNegative(row);
  }
}
