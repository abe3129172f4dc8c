/** The two-pass reductions of the Bench kernels: a filled matrix Aij is
    contracted row by row against XY into sumAi and amix. The reducers read
    whatever Aij holds; RowDot is the row dot product of those contents. */
module Reducer {
  import opened Mixing

  /** The weights, the n-by-n matrix being reduced, and the row-sum buffer. */
  predicate ReduceArgs(n: nat, XY: seq<real>, Aij: array2<real>, sumAi: array<real>)
  {
    |XY| == n && SquareArray(n, Aij) && sumAi.Length == n
  }

  /** `sumAi[i] += XY[j] * Aij[i, j]` over each row, then `amix += sumAi[i] * XY[i]`
      (the second loop of CalcAmixArraysInner, CalcAmixMirroredArraysInner and
      CalcAmixMirroredSpansInner, Program.cs:127-135, 311-319 and 396-404). The
      row sums are added to what sumAi held, so they are the row dot products
      only when sumAi starts zeroed. */
  method AccumulateRows(n: nat, XY: seq<real>, Aij: array2<real>, sumAi: array<real>) returns (amix: real)
    requires ReduceArgs(n, XY, Aij, sumAi)
    modifies sumAi
    ensures forall r :: 0 <= r < n ==> sumAi[r] == old(sumAi[r]) + RowDot(XY, Aij, r, n)
    ensures amix == Weighted(XY, sumAi[..], n)
  {
    amix := 0.0;
    for i := 0 to n
      invariant forall r {:trigger sumAi[r]} :: 0 <= r < i ==> sumAi[r] == old(sumAi[r]) + RowDot(XY, Aij, r, n)
      invariant forall r {:trigger sumAi[r]} :: i <= r < n ==> sumAi[r] == old(sumAi[r])
      invariant amix == Weighted(XY, sumAi[..], i)
    {
      ghost var before := sumAi[..];
      AccumulateRow(n, XY, Aij, sumAi, i);
      WeightedPrefix(XY, before, sumAi[..], i);
      amix := amix + sumAi[i] * XY[i];
    }
  }

  /** Row i of AccumulateRows: `sumAi[i] += XY[j] * Aij[i, j]` for each j; the
      other row sums do not change. */
  method AccumulateRow(n: nat, XY: seq<real>, Aij: array2<real>, sumAi: array<real>, i: nat)
    requires ReduceArgs(n, XY, Aij, sumAi) && i < n
    modifies sumAi
    ensures sumAi[i] == old(sumAi[i]) + RowDot(XY, Aij, i, n)
    ensures forall r {:trigger sumAi[r]} :: 0 <= r < n && r != i ==> sumAi[r] == old(sumAi[r])
  {
    for j := 0 to n
      invariant sumAi[i] == old(sumAi[i]) + RowDot(XY, Aij, i, j)
      invariant forall r {:trigger sumAi[r]} :: 0 <= r < n && r != i ==> sumAi[r] == old(sumAi[r])
    {
      sumAi[i] := sumAi[i] + XY[j] * Aij[i, j];
    }
  }

  /** Each row summed into a local `sum`, stored into sumAi[i], then
      `amix += sum * XY[i]` (the second loop of CalcAmixArraysInner2,
      CalcAmixSpansInner, CalcAmixMirroredArraysInner2 and
      CalcAmixMirroredSpansInner2, Program.cs:149-159, 204-214, 336-346 and
      426-436). Whatever sumAi held is overwritten. */
  method SumRows(n: nat, XY: seq<real>, Aij: array2<real>, sumAi: array<real>) returns (amix: real)
    requires ReduceArgs(n, XY, Aij, sumAi)
    modifies sumAi
    ensures forall r :: 0 <= r < n ==> sumAi[r] == RowDot(XY, Aij, r, n)
    ensures amix == Weighted(XY, sumAi[..], n)
  {
    amix := 0.0;
    for i := 0 to n
      invariant forall r :: 0 <= r < i ==> sumAi[r] == RowDot(XY, Aij, r, n)
      invariant amix == Weighted(XY, sumAi[..], i)
    {
      var sum := 0.0;
      for j := 0 to n
        invariant sum == RowDot(XY, Aij, i, j)
      {
        sum := sum + XY[j] * Aij[i, j];
      }
      ghost var before := sumAi[..];
      sumAi[i] := sum;
      WeightedPrefix(XY, before, sumAi[..], i);
      amix := amix + sum * XY[i];
    }
  }
}
