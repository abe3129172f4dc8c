/** The Bench kernels over bounds-checked two-dimensional arrays
    (AMixBenchmark/Program.cs:114-186 and 299-472). Each fills Aij from ai and
    kijm and reduces it against XY into sumAi and the returned amix, either in
    two passes (a MatrixBuilder fill, then a Reducer pass) or fused, reducing
    each row while it is filled.

    CalcAmixSpansInner has the body of CalcAmixArraysInner2, and
    CalcAmixMirroredSpansInner, -Inner2 and -Inner3 have the bodies of
    CalcAmixMirroredArraysInner, -Inner2 and -Inner3; their spans only change the
    type of XY, ai and sumAi, so each pair is one method here.

    Every kernel's result is stated against AMixSpec over reals; the strategies'
    doubles agree only up to rounding, since their summation orders differ. */
module Bench {
  import opened Mixing
  import MatrixBuilder
  import Reducer

  /** The arguments of a kernel: inputs sized n, an n-by-n Aij and a row-sum
      buffer of length n. */
  predicate KernelArgs(n: nat, XY: seq<real>, ai: seq<real>, kijm: Matrix, Aij: array2<real>, sumAi: array<real>)
  {
    Conforms(n, XY, ai, kijm) && SquareArray(n, Aij) && sumAi.Length == n
  }

  /** The row sums of a correctly filled matrix are its RowSpec, and they weight up to AMixSpec. */
  lemma FilledReduces(s: Strategy, sqrt: TotalFn, n: nat, XY: seq<real>, ai: seq<real>, kijm: Matrix, Aij: array2<real>)
    requires Conforms(n, XY, ai, kijm) && SquareArray(n, Aij)
    requires forall r, c :: 0 <= r < n && 0 <= c < n ==> Aij[r, c] == Cell(s, sqrt, ai, kijm, r, c)
    ensures forall r :: 0 <= r < n ==> RowDot(XY, Aij, r, n) == RowSpec(s, sqrt, XY, ai, kijm, r, n)
  {
    forall r | 0 <= r < n
      ensures RowDot(XY, Aij, r, n) == RowSpec(s, sqrt, XY, ai, kijm, r, n)
    {
      RowDotMatchesSpec(s, sqrt, XY, ai, kijm, Aij, r, n);
    }
  }

  /** Branch-on-diagonal fill, then `+=` reduction (Program.cs:114-136). */
  method CalcAmixArraysInner(sqrt: TotalFn, n: nat, XY: seq<real>, ai: seq<real>, kijm: Matrix,
                             Aij: array2<real>, sumAi: array<real>) returns (amix: real)
    requires KernelArgs(n, XY, ai, kijm, Aij, sumAi)
    modifies Aij, sumAi
    ensures forall r, c :: 0 <= r < n && 0 <= c < n ==> Aij[r, c] == Cell(Full, sqrt, ai, kijm, r, c)
    ensures forall r :: 0 <= r < n ==> sumAi[r] == old(sumAi[r]) + RowDot(XY, Aij, r, n)
    ensures forall r :: 0 <= r < n ==> sumAi[r] == old(sumAi[r]) + RowSpec(Full, sqrt, XY, ai, kijm, r, n)
    ensures amix == Weighted(XY, sumAi[..], n)
    ensures (forall r :: 0 <= r < n ==> old(sumAi[r]) == 0.0) ==> amix == AMixSpec(Full, sqrt, XY, ai, kijm, n)
  {
    MatrixBuilder.DoAllItemsDiagonalSpecialCase(sqrt, n, ai, kijm, Aij);
    amix := Reducer.AccumulateRows(n, XY, Aij, sumAi);
    FilledReduces(Full, sqrt, n, XY, ai, kijm, Aij);
    if forall r :: 0 <= r < n ==> old(sumAi[r]) == 0.0 {
      WeightedMatchesSpec(Full, sqrt, XY, ai, kijm, sumAi[..], n);
    }
  }

  /** Fill every cell, overwrite the diagonal, then reduce through a local `sum`
      (Program.cs:138-160; CalcAmixSpansInner, Program.cs:188-215, is the same code). */
  method CalcAmixArraysInner2(sqrt: TotalFn, n: nat, XY: seq<real>, ai: seq<real>, kijm: Matrix,
                              Aij: array2<real>, sumAi: array<real>) returns (amix: real)
    requires KernelArgs(n, XY, ai, kijm, Aij, sumAi)
    modifies Aij, sumAi
    ensures forall r, c :: 0 <= r < n && 0 <= c < n ==> Aij[r, c] == Cell(Full, sqrt, ai, kijm, r, c)
    ensures forall r :: 0 <= r < n ==> sumAi[r] == RowDot(XY, Aij, r, n)
    ensures forall r :: 0 <= r < n ==> sumAi[r] == RowSpec(Full, sqrt, XY, ai, kijm, r, n)
    ensures amix == Weighted(XY, sumAi[..], n)
    ensures amix == AMixSpec(Full, sqrt, XY, ai, kijm, n)
  {
    MatrixBuilder.DoAllItemsDiagonalLast(sqrt, n, ai, kijm, Aij);
    amix := Reducer.SumRows(n, XY, Aij, sumAi);
    FilledReduces(Full, sqrt, n, XY, ai, kijm, Aij);
    WeightedMatchesSpec(Full, sqrt, XY, ai, kijm, sumAi[..], n);
  }

  /** The inner loop of CalcAmixArraysInner3 (Program.cs:171-176): every cell
      of row i, the diagonal included, gets the computed term, which is added
      to a sum that started at XY[i] * ai[i]; no other row changes. */
  method FusedRowTerms(sqrt: TotalFn, n: nat, XY: seq<real>, ai: seq<real>, kijm: Matrix,
                       Aij: array2<real>, i: nat) returns (sum: real)
    requires Conforms(n, XY, ai, kijm) && SquareArray(n, Aij) && i < n
    modifies Aij
    ensures forall c :: 0 <= c < n ==> Aij[i, c] == Cell(TermsOnly, sqrt, ai, kijm, i, c)
    ensures forall r, c :: 0 <= r < n && 0 <= c < n && r != i ==> Aij[r, c] == old(Aij[r, c])
    ensures sum == XY[i] * ai[i] + RowSpec(TermsOnly, sqrt, XY, ai, kijm, i, n)
  {
    var aii := ai[i];
    sum := XY[i] * aii;
    for j := 0 to n
      invariant forall c :: 0 <= c < j ==> Aij[i, c] == Cell(TermsOnly, sqrt, ai, kijm, i, c)
      invariant forall r, c :: 0 <= r < n && 0 <= c < n && r != i ==> Aij[r, c] == old(Aij[r, c])
      invariant sum == XY[i] * aii + RowSpec(TermsOnly, sqrt, XY, ai, kijm, i, j)
    {
      var value := Term(sqrt, aii, ai[j], kijm[i][j]);
      assert value == Cell(TermsOnly, sqrt, ai, kijm, i, j);
      assert RowSpec(TermsOnly, sqrt, XY, ai, kijm, i, j + 1) == RowSpec(TermsOnly, sqrt, XY, ai, kijm, i, j) + XY[j] * value;
      Aij[i, j] := value;
      sum := sum + XY[j] * value;
    }
  }

  /** Cancellation at the end of a whole row: subtracting the computed diagonal
      term from that sum leaves the full fill's row sum. */
  lemma DropDiagonal(sqrt: TotalFn, XY: seq<real>, ai: seq<real>, kijm: Matrix, i: nat, sum: real, d: real)
    requires Conforms(|ai|, XY, ai, kijm) && i < |ai|
    requires sum == XY[i] * ai[i] + RowSpec(TermsOnly, sqrt, XY, ai, kijm, i, |ai|)
    requires d == Cell(TermsOnly, sqrt, ai, kijm, i, i)
    ensures sum - XY[i] * d == RowSpec(Full, sqrt, XY, ai, kijm, i, |ai|)
  {
    Cancellation(sqrt, XY, ai, kijm, i, |ai|);
  }

  /** One row of the fused full fill (the body of the outer loop of
      CalcAmixArraysInner3, Program.cs:168-179): row i gets its final values,
      every other row is untouched, and the returned sum is the row's RowSpec. */
  method FusedFullRow(sqrt: TotalFn, n: nat, XY: seq<real>, ai: seq<real>, kijm: Matrix,
                      Aij: array2<real>, i: nat) returns (sum: real)
    requires Conforms(n, XY, ai, kijm) && SquareArray(n, Aij) && i < n
    modifies Aij
    ensures forall c :: 0 <= c < n ==> Aij[i, c] == Cell(Full, sqrt, ai, kijm, i, c)
    ensures forall r, c :: 0 <= r < n && 0 <= c < n && r != i ==> Aij[r, c] == old(Aij[r, c])
    ensures sum == RowSpec(Full, sqrt, XY, ai, kijm, i, n)
  {
    var aii := ai[i];
    sum := FusedRowTerms(sqrt, n, XY, ai, kijm, Aij, i);
    DropDiagonal(sqrt, XY, ai, kijm, i, sum, Aij[i, i]);
    sum := sum - XY[i] * Aij[i, i];
    Aij[i, i] := aii;
  }

  /** Fused full fill (Program.cs:162-186): the row sum starts at XY[i] * ai[i],
      takes every computed term, the diagonal one included, and then drops the
      computed diagonal term before the diagonal is overwritten with ai[i]. */
  method CalcAmixArraysInner3(sqrt: TotalFn, n: nat, XY: seq<real>, ai: seq<real>, kijm: Matrix,
                              Aij: array2<real>, sumAi: array<real>) returns (amix: real)
    requires KernelArgs(n, XY, ai, kijm, Aij, sumAi)
    modifies Aij, sumAi
    ensures forall r, c :: 0 <= r < n && 0 <= c < n ==> Aij[r, c] == Cell(Full, sqrt, ai, kijm, r, c)
    ensures forall r :: 0 <= r < n ==> sumAi[r] == RowDot(XY, Aij, r, n)
    ensures forall r :: 0 <= r < n ==> sumAi[r] == RowSpec(Full, sqrt, XY, ai, kijm, r, n)
    ensures amix == Weighted(XY, sumAi[..], n)
    ensures amix == AMixSpec(Full, sqrt, XY, ai, kijm, n)
  {
    amix := 0.0;
    for i := 0 to n
      invariant forall r, c {:trigger Aij[r, c]} :: 0 <= r < i && 0 <= c < n ==> Aij[r, c] == Cell(Full, sqrt, ai, kijm, r, c)
      invariant forall r {:trigger sumAi[r]} :: 0 <= r < i ==> sumAi[r] == RowSpec(Full, sqrt, XY, ai, kijm, r, n)
      invariant amix == AMixSpec(Full, sqrt, XY, ai, kijm, i)
    {
      var sum := FusedFullRow(sqrt, n, XY, ai, kijm, Aij, i);
      sumAi[i] := sum;
      amix := amix + sum * XY[i];
    }
    FilledReduces(Full, sqrt, n, XY, ai, kijm, Aij);
    WeightedMatchesSpec(Full, sqrt, XY, ai, kijm, sumAi[..], n);
  }

  /** Mirrored fill that copies each upper cell back out of the matrix, then `+=`
      reduction (Program.cs:299-320; CalcAmixMirroredSpansInner, Program.cs:379-405,
      is the same code). */
  method CalcAmixMirroredArraysInner(sqrt: TotalFn, n: nat, XY: seq<real>, ai: seq<real>, kijm: Matrix,
                                     Aij: array2<real>, sumAi: array<real>) returns (amix: real)
    requires KernelArgs(n, XY, ai, kijm, Aij, sumAi)
    modifies Aij, sumAi
    ensures forall r, c :: 0 <= r < n && 0 <= c < n ==> Aij[r, c] == Cell(Mirrored, sqrt, ai, kijm, r, c)
    ensures forall r, c :: 0 <= r < n && 0 <= c < n ==> Aij[r, c] == Aij[c, r]
    ensures forall r :: 0 <= r < n ==> sumAi[r] == old(sumAi[r]) + RowDot(XY, Aij, r, n)
    ensures forall r :: 0 <= r < n ==> sumAi[r] == old(sumAi[r]) + RowSpec(Mirrored, sqrt, XY, ai, kijm, r, n)
    ensures amix == Weighted(XY, sumAi[..], n)
    ensures (forall r :: 0 <= r < n ==> old(sumAi[r]) == 0.0) ==> amix == AMixSpec(Mirrored, sqrt, XY, ai, kijm, n)
  {
    MatrixBuilder.MirrorItemsReadBack(sqrt, n, ai, kijm, Aij);
    amix := Reducer.AccumulateRows(n, XY, Aij, sumAi);
    FilledReduces(Mirrored, sqrt, n, XY, ai, kijm, Aij);
    if forall r :: 0 <= r < n ==> old(sumAi[r]) == 0.0 {
      WeightedMatchesSpec(Mirrored, sqrt, XY, ai, kijm, sumAi[..], n);
    }
  }

  /** Mirrored fill through a local `value`, then reduction through a local `sum`
      (Program.cs:322-347; CalcAmixMirroredSpansInner2, Program.cs:407-437, is the
      same code). */
  method CalcAmixMirroredArraysInner2(sqrt: TotalFn, n: nat, XY: seq<real>, ai: seq<real>, kijm: Matrix,
                                      Aij: array2<real>, sumAi: array<real>) returns (amix: real)
    requires KernelArgs(n, XY, ai, kijm, Aij, sumAi)
    modifies Aij, sumAi
    ensures forall r, c :: 0 <= r < n && 0 <= c < n ==> Aij[r, c] == Cell(Mirrored, sqrt, ai, kijm, r, c)
    ensures forall r, c :: 0 <= r < n && 0 <= c < n ==> Aij[r, c] == Aij[c, r]
    ensures forall r :: 0 <= r < n ==> sumAi[r] == RowDot(XY, Aij, r, n)
    ensures forall r :: 0 <= r < n ==> sumAi[r] == RowSpec(Mirrored, sqrt, XY, ai, kijm, r, n)
    ensures amix == Weighted(XY, sumAi[..], n)
    ensures amix == AMixSpec(Mirrored, sqrt, XY, ai, kijm, n)
  {
    MatrixBuilder.MirrorItemsDiagonalFirst(sqrt, n, ai, kijm, Aij);
    amix := Reducer.SumRows(n, XY, Aij, sumAi);
    FilledReduces(Mirrored, sqrt, n, XY, ai, kijm, Aij);
    WeightedMatchesSpec(Mirrored, sqrt, XY, ai, kijm, sumAi[..], n);
  }

  /** The first inner loop of CalcAmixMirroredArraysInner3 (Program.cs:357-360):
      the cells (i, j) with j < i, already written by the mirror writes of
      rows j, are read and summed. Nothing is written. */
  method SumWrittenPrefix(sqrt: TotalFn, n: nat, XY: seq<real>, ai: seq<real>, kijm: Matrix,
                          Aij: array2<real>, i: nat) returns (sum: real)
    requires Conforms(n, XY, ai, kijm) && SquareArray(n, Aij) && i < n
    requires forall c :: 0 <= c < i ==> Aij[i, c] == Cell(Mirrored, sqrt, ai, kijm, i, c)
    ensures sum == RowSpec(Mirrored, sqrt, XY, ai, kijm, i, i)
  {
    sum := 0.0;
    for j := 0 to i
      invariant sum == RowSpec(Mirrored, sqrt, XY, ai, kijm, i, j)
    {
      sum := sum + XY[j] * Aij[i, j];
    }
  }

  /** The diagonal and the second inner loop of CalcAmixMirroredArraysInner3
      (Program.cs:361-368): the diagonal is set, each upper cell of row i is
      computed and written to (i, j) and (j, i), and the sum is carried on from
      `sum`. The cells already final stay so, and the cells in rows and columns
      beyond i are not touched. */
  method MirroredUpperTerms(sqrt: TotalFn, n: nat, XY: seq<real>, ai: seq<real>, kijm: Matrix,
                            Aij: array2<real>, i: nat, prefix: real) returns (sum: real)
    requires Conforms(n, XY, ai, kijm) && SquareArray(n, Aij) && i < n
    requires forall r, c {:trigger Aij[r, c]} :: 0 <= r < n && 0 <= c < n && (r < i || c < i) ==> Aij[r, c] == Cell(Mirrored, sqrt, ai, kijm, r, c)
    requires prefix == RowSpec(Mirrored, sqrt, XY, ai, kijm, i, i)
    modifies Aij
    ensures forall r, c {:trigger Aij[r, c]} :: 0 <= r < n && 0 <= c < n && (r <= i || c <= i) ==> Aij[r, c] == Cell(Mirrored, sqrt, ai, kijm, r, c)
    ensures forall r, c {:trigger Aij[r, c]} :: i < r < n && i < c < n ==> Aij[r, c] == old(Aij[r, c])
    ensures sum == RowSpec(Mirrored, sqrt, XY, ai, kijm, i, n)
  {
    var aii := ai[i];
    Aij[i, i] := aii;
    sum := prefix + XY[i] * aii;
    assert sum == RowSpec(Mirrored, sqrt, XY, ai, kijm, i, i + 1);
    for j := i + 1 to n
      invariant forall r, c {:trigger Aij[r, c]} :: 0 <= r < n && 0 <= c < n && (r < i || c < i) ==> Aij[r, c] == Cell(Mirrored, sqrt, ai, kijm, r, c)
      invariant Aij[i, i] == aii
      invariant forall c {:trigger Aij[i, c]} :: i < c < j ==> Aij[i, c] == Cell(Mirrored, sqrt, ai, kijm, i, c)
      invariant forall c {:trigger Aij[c, i]} :: i < c < j ==> Aij[c, i] == Cell(Mirrored, sqrt, ai, kijm, c, i)
      invariant forall r, c {:trigger Aij[r, c]} :: i < r < n && i < c < n ==> Aij[r, c] == old(Aij[r, c])
      invariant sum == RowSpec(Mirrored, sqrt, XY, ai, kijm, i, j)
    {
      var value := Term(sqrt, aii, ai[j], kijm[i][j]);
      assert value == Cell(Mirrored, sqrt, ai, kijm, i, j) == Cell(Mirrored, sqrt, ai, kijm, j, i);
      assert RowSpec(Mirrored, sqrt, XY, ai, kijm, i, j + 1) == RowSpec(Mirrored, sqrt, XY, ai, kijm, i, j) + XY[j] * value;
      Aij[i, j] := value;
      Aij[j, i] := value;
      sum := sum + XY[j] * value;
    }
  }

  /** One row of the fused mirrored fill (the body of the outer loop of
      CalcAmixMirroredArraysInner3, Program.cs:355-370). Before it every cell in a
      row or column below i holds its mirrored value; after it the same holds
      for row and column i too, the cells in rows and columns beyond i keep
      what they held, and the returned sum is the row's RowSpec. */
  method FusedMirroredRow(sqrt: TotalFn, n: nat, XY: seq<real>, ai: seq<real>, kijm: Matrix,
                          Aij: array2<real>, i: nat) returns (sum: real)
    requires Conforms(n, XY, ai, kijm) && SquareArray(n, Aij) && i < n
    requires forall r, c :: 0 <= r < n && 0 <= c < n && (r < i || c < i) ==> Aij[r, c] == Cell(Mirrored, sqrt, ai, kijm, r, c)
    modifies Aij
    ensures forall r, c :: 0 <= r < n && 0 <= c < n && (r <= i || c <= i) ==> Aij[r, c] == Cell(Mirrored, sqrt, ai, kijm, r, c)
    ensures forall r, c {:trigger Aij[r, c]} :: i < r < n && i < c < n ==> Aij[r, c] == old(Aij[r, c])
    ensures sum == RowSpec(Mirrored, sqrt, XY, ai, kijm, i, n)
  {
    sum := SumWrittenPrefix(sqrt, n, XY, ai, kijm, Aij, i);
    sum := MirroredUpperTerms(sqrt, n, XY, ai, kijm, Aij, i, sum);
  }

  /** Fused mirrored fill and reduction (Program.cs:349-377;
      CalcAmixMirroredSpansInner3, Program.cs:439-472, is the same code). At the
      start of row i every cell (i, j) with j < i was written by row j's mirror
      write, so the row sum reads it; the diagonal and the upper cells are
      computed, mirrored and summed on the way. The result does not depend on
      what Aij held on entry. */
  method CalcAmixMirroredArraysInner3(sqrt: TotalFn, n: nat, XY: seq<real>, ai: seq<real>, kijm: Matrix,
                                      Aij: array2<real>, sumAi: array<real>) returns (amix: real)
    requires KernelArgs(n, XY, ai, kijm, Aij, sumAi)
    modifies Aij, sumAi
    ensures forall r, c :: 0 <= r < n && 0 <= c < n ==> Aij[r, c] == Cell(Mirrored, sqrt, ai, kijm, r, c)
    ensures forall r, c :: 0 <= r < n && 0 <= c < n ==> Aij[r, c] == Aij[c, r]
    ensures forall r :: 0 <= r < n ==> sumAi[r] == RowDot(XY, Aij, r, n)
    ensures forall r :: 0 <= r < n ==> sumAi[r] == RowSpec(Mirrored, sqrt, XY, ai, kijm, r, n)
    ensures amix == Weighted(XY, sumAi[..], n)
    ensures amix == AMixSpec(Mirrored, sqrt, XY, ai, kijm, n)
  {
    amix := 0.0;
    for i := 0 to n
      invariant forall r, c {:trigger Aij[r, c]} :: 0 <= r < n && 0 <= c < n && (r < i || c < i) ==> Aij[r, c] == Cell(Mirrored, sqrt, ai, kijm, r, c)
      invariant forall r {:trigger sumAi[r]} :: 0 <= r < i ==> sumAi[r] == RowSpec(Mirrored, sqrt, XY, ai, kijm, r, n)
      invariant amix == AMixSpec(Mirrored, sqrt, XY, ai, kijm, i)
    {
      var sum := FusedMirroredRow(sqrt, n, XY, ai, kijm, Aij, i);
      sumAi[i] := sum;
      amix := amix + sum * XY[i];
    }
    FilledReduces(Mirrored, sqrt, n, XY, ai, kijm, Aij);
    WeightedMatchesSpec(Mirrored, sqrt, XY, ai, kijm, sumAi[..], n);
  }
}
