/** The fill routines of BenchArray (AMixBenchmark/Program.cs:569-724), over
    bounds-checked two-dimensional arrays. BenchArray keeps n, ai, kijm and Aij
    in fields that its constructor sets once; here they are the parameters of
    each routine. The Bench kernels whose first phase is one of these loops call
    the routine instead of repeating it. MirrorItemsReadBack is no BenchArray
    routine: it is the first loop of two of those kernels, kept here beside the
    fills it resembles. */
module MatrixBuilder {
  import opened Mixing

  /** The inputs of a fill and the n-by-n matrix it writes. */
  predicate FillArgs(n: nat, ai: seq<real>, kijm: Matrix, Aij: array2<real>)
  {
    |ai| == n && SquareMatrix(n, kijm) && SquareArray(n, Aij)
  }

  /** Branch on the diagonal for every cell (Program.cs:584-597; also the first
      loop of CalcAmixArraysInner, Program.cs:116-125). */
  method DoAllItemsDiagonalSpecialCase(sqrt: TotalFn, n: nat, ai: seq<real>, kijm: Matrix, Aij: array2<real>)
    requires FillArgs(n, ai, kijm, Aij)
    modifies Aij
    ensures forall r, c :: 0 <= r < n && 0 <= c < n ==> Aij[r, c] == Cell(Full, sqrt, ai, kijm, r, c)
  {
    for i := 0 to n
      invariant forall r, c :: 0 <= r < i && 0 <= c < n ==> Aij[r, c] == Cell(Full, sqrt, ai, kijm, r, c)
    {
      var aii := ai[i];
      for j := 0 to n
        invariant forall r, c :: 0 <= r < i && 0 <= c < n ==> Aij[r, c] == Cell(Full, sqrt, ai, kijm, r, c)
        invariant forall c :: 0 <= c < j ==> Aij[i, c] == Cell(Full, sqrt, ai, kijm, i, c)
      {
        if i == j {
          Aij[i, j] := aii;
        } else {
          Aij[i, j] := Term(sqrt, aii, ai[j], kijm[i][j]);
        }
      }
    }
  }

  /** Columns left of the diagonal, then the diagonal, then the columns right of
      it (Program.cs:600-613). */
  method DoAllItemsSegmented(sqrt: TotalFn, n: nat, ai: seq<real>, kijm: Matrix, Aij: array2<real>)
    requires FillArgs(n, ai, kijm, Aij)
    modifies Aij
    ensures forall r, c :: 0 <= r < n && 0 <= c < n ==> Aij[r, c] == Cell(Full, sqrt, ai, kijm, r, c)
  {
    for i := 0 to n
      invariant forall r, c :: 0 <= r < i && 0 <= c < n ==> Aij[r, c] == Cell(Full, sqrt, ai, kijm, r, c)
    {
      var aii := ai[i];
      for j := 0 to i
        invariant forall r, c :: 0 <= r < i && 0 <= c < n ==> Aij[r, c] == Cell(Full, sqrt, ai, kijm, r, c)
        invariant forall c :: 0 <= c < j ==> Aij[i, c] == Cell(Full, sqrt, ai, kijm, i, c)
      {
        Aij[i, j] := Term(sqrt, aii, ai[j], kijm[i][j]);
      }
      Aij[i, i] := aii;
      for j := i + 1 to n
        invariant forall r, c :: 0 <= r < i && 0 <= c < n ==> Aij[r, c] == Cell(Full, sqrt, ai, kijm, r, c)
        invariant forall c :: 0 <= c < j ==> Aij[i, c] == Cell(Full, sqrt, ai, kijm, i, c)
      {
        Aij[i, j] := Term(sqrt, aii, ai[j], kijm[i][j]);
      }
    }
  }

  /** Compute every cell of the row, the diagonal included, then overwrite the
      diagonal with ai[i] (Program.cs:616-626; also the first loop of
      CalcAmixArraysInner2 and CalcAmixSpansInner, Program.cs:140-147 and 195-202). */
  method DoAllItemsDiagonalLast(sqrt: TotalFn, n: nat, ai: seq<real>, kijm: Matrix, Aij: array2<real>)
    requires FillArgs(n, ai, kijm, Aij)
    modifies Aij
    ensures forall r, c :: 0 <= r < n && 0 <= c < n ==> Aij[r, c] == Cell(Full, sqrt, ai, kijm, r, c)
  {
    for i := 0 to n
      invariant forall r, c :: 0 <= r < i && 0 <= c < n ==> Aij[r, c] == Cell(Full, sqrt, ai, kijm, r, c)
    {
      var aii := ai[i];
      for j := 0 to n
        invariant forall r, c :: 0 <= r < i && 0 <= c < n ==> Aij[r, c] == Cell(Full, sqrt, ai, kijm, r, c)
        invariant forall c :: 0 <= c < j ==> Aij[i, c] == Cell(TermsOnly, sqrt, ai, kijm, i, c)
      {
        Aij[i, j] := Term(sqrt, aii, ai[j], kijm[i][j]);
      }
      Aij[i, i] := aii;
    }
  }

  /** Diagonal first, then each upper cell written to (i, j) and (j, i)
      (Program.cs:646-659; also the first loop of CalcAmixMirroredArraysInner2 and
      CalcAmixMirroredSpansInner2, Program.cs:324-334 and 414-424). */
  method MirrorItemsDiagonalFirst(sqrt: TotalFn, n: nat, ai: seq<real>, kijm: Matrix, Aij: array2<real>)
    requires FillArgs(n, ai, kijm, Aij)
    modifies Aij
    ensures forall r, c :: 0 <= r < n && 0 <= c < n ==> Aij[r, c] == Cell(Mirrored, sqrt, ai, kijm, r, c)
    ensures forall r, c :: 0 <= r < n && 0 <= c < n ==> Aij[r, c] == Aij[c, r]
  {
    for i := 0 to n
      invariant forall r, c :: 0 <= r < n && 0 <= c < n && (r < i || c < i) ==> Aij[r, c] == Cell(Mirrored, sqrt, ai, kijm, r, c)
    {
      var aii := ai[i];
      Aij[i, i] := aii;
      for j := i + 1 to n
        invariant forall r, c :: 0 <= r < n && 0 <= c < n && (r < i || c < i) ==> Aij[r, c] == Cell(Mirrored, sqrt, ai, kijm, r, c)
        invariant Aij[i, i] == aii
        invariant forall c :: i < c < j ==> Aij[i, c] == Cell(Mirrored, sqrt, ai, kijm, i, c) && Aij[c, i] == Cell(Mirrored, sqrt, ai, kijm, c, i)
      {
        var value := Term(sqrt, aii, ai[j], kijm[i][j]);
        Aij[i, j] := value;
        Aij[j, i] := value;
      }
    }
  }

  /** As MirrorItemsDiagonalFirst, but the mirror write copies the cell just
      written back out of the matrix (the first loop of CalcAmixMirroredArraysInner
      and CalcAmixMirroredSpansInner, Program.cs:301-309 and 386-394). */
  method MirrorItemsReadBack(sqrt: TotalFn, n: nat, ai: seq<real>, kijm: Matrix, Aij: array2<real>)
    requires FillArgs(n, ai, kijm, Aij)
    modifies Aij
    ensures forall r, c :: 0 <= r < n && 0 <= c < n ==> Aij[r, c] == Cell(Mirrored, sqrt, ai, kijm, r, c)
    ensures forall r, c :: 0 <= r < n && 0 <= c < n ==> Aij[r, c] == Aij[c, r]
  {
    for i := 0 to n
      invariant forall r, c :: 0 <= r < n && 0 <= c < n && (r < i || c < i) ==> Aij[r, c] == Cell(Mirrored, sqrt, ai, kijm, r, c)
    {
      Aij[i, i] := ai[i];
      for j := i + 1 to n
        invariant forall r, c :: 0 <= r < n && 0 <= c < n && (r < i || c < i) ==> Aij[r, c] == Cell(Mirrored, sqrt, ai, kijm, r, c)
        invariant Aij[i, i] == ai[i]
        invariant forall c :: i < c < j ==> Aij[i, c] == Cell(Mirrored, sqrt, ai, kijm, i, c) && Aij[c, i] == Cell(Mirrored, sqrt, ai, kijm, c, i)
      {
        Aij[i, j] := Term(sqrt, ai[i], ai[j], kijm[i][j]);
        Aij[j, i] := Aij[i, j];
      }
    }
  }

  /** Mirror the upper cells of the row first, the diagonal last (Program.cs:662-675). */
  method MirrorItemsDiagonalLast(sqrt: TotalFn, n: nat, ai: seq<real>, kijm: Matrix, Aij: array2<real>)
    requires FillArgs(n, ai, kijm, Aij)
    modifies Aij
    ensures forall r, c :: 0 <= r < n && 0 <= c < n ==> Aij[r, c] == Cell(Mirrored, sqrt, ai, kijm, r, c)
    ensures forall r, c :: 0 <= r < n && 0 <= c < n ==> Aij[r, c] == Aij[c, r]
  {
    for i := 0 to n
      invariant forall r, c :: 0 <= r < n && 0 <= c < n && (r < i || c < i) ==> Aij[r, c] == Cell(Mirrored, sqrt, ai, kijm, r, c)
    {
      var aii := ai[i];
      for j := i + 1 to n
        invariant forall r, c :: 0 <= r < n && 0 <= c < n && (r < i || c < i) ==> Aij[r, c] == Cell(Mirrored, sqrt, ai, kijm, r, c)
        invariant forall c :: i < c < j ==> Aij[i, c] == Cell(Mirrored, sqrt, ai, kijm, i, c) && Aij[c, i] == Cell(Mirrored, sqrt, ai, kijm, c, i)
      {
        var value := Term(sqrt, aii, ai[j], kijm[i][j]);
        Aij[i, j] := value;
        Aij[j, i] := value;
      }
      Aij[i, i] := aii;
    }
  }

  /** Diagonal and upper triangle only (Program.cs:678-687): every cell with
      column >= row gets its value, and the strict lower triangle keeps whatever
      it held. */
  method DoJustHalf(sqrt: TotalFn, n: nat, ai: seq<real>, kijm: Matrix, Aij: array2<real>)
    requires FillArgs(n, ai, kijm, Aij)
    modifies Aij
    ensures forall r, c :: 0 <= r <= c < n ==> Aij[r, c] == Cell(Mirrored, sqrt, ai, kijm, r, c)
    ensures forall r, c :: 0 <= c < r < n ==> Aij[r, c] == old(Aij[r, c])
  {
    for i := 0 to n
      invariant forall r, c :: 0 <= r < i && r <= c < n ==> Aij[r, c] == Cell(Mirrored, sqrt, ai, kijm, r, c)
      invariant forall r, c :: 0 <= r < n && 0 <= c < n && !(r < i && r <= c) ==> Aij[r, c] == old(Aij[r, c])
    {
      var aii := ai[i];
      Aij[i, i] := aii;
      for j := i + 1 to n
        invariant forall r, c :: 0 <= r < i && r <= c < n ==> Aij[r, c] == Cell(Mirrored, sqrt, ai, kijm, r, c)
        invariant forall c :: i <= c < j ==> Aij[i, c] == Cell(Mirrored, sqrt, ai, kijm, i, c)
        invariant forall r, c :: 0 <= r < n && 0 <= c < n && !(r < i && r <= c) && !(r == i && i <= c < j) ==> Aij[r, c] == old(Aij[r, c])
      {
        Aij[i, j] := Term(sqrt, aii, ai[j], kijm[i][j]);
      }
    }
  }

  /** DoJustHalf, then each upper cell copied down into its mirror, row by row
      of the upper triangle (Program.cs:690-705). */
  method DoJustHalfThenMirrorByColumn(sqrt: TotalFn, n: nat, ai: seq<real>, kijm: Matrix, Aij: array2<real>)
    requires FillArgs(n, ai, kijm, Aij)
    modifies Aij
    ensures forall r, c :: 0 <= r < n && 0 <= c < n ==> Aij[r, c] == Cell(Mirrored, sqrt, ai, kijm, r, c)
    ensures forall r, c :: 0 <= r < n && 0 <= c < n ==> Aij[r, c] == Aij[c, r]
  {
    DoJustHalf(sqrt, n, ai, kijm, Aij);
    for i := 0 to n
      invariant forall r, c :: 0 <= r <= c < n ==> Aij[r, c] == Cell(Mirrored, sqrt, ai, kijm, r, c)
      invariant forall r, c :: 0 <= c < r < n && c < i ==> Aij[r, c] == Cell(Mirrored, sqrt, ai, kijm, r, c)
    {
      for j := i + 1 to n
        invariant forall r, c :: 0 <= r <= c < n ==> Aij[r, c] == Cell(Mirrored, sqrt, ai, kijm, r, c)
        invariant forall r, c :: 0 <= c < r < n && c < i ==> Aij[r, c] == Cell(Mirrored, sqrt, ai, kijm, r, c)
        invariant forall r :: i < r < j ==> Aij[r, i] == Cell(Mirrored, sqrt, ai, kijm, r, i)
      {
        Aij[j, i] := Aij[i, j];
      }
    }
  }

  /** DoJustHalf, then each lower cell copied up from its mirror, row by row of
      the lower triangle (Program.cs:708-723). */
  method DoJustHalfThenMirrorByRow(sqrt: TotalFn, n: nat, ai: seq<real>, kijm: Matrix, Aij: array2<real>)
    requires FillArgs(n, ai, kijm, Aij)
    modifies Aij
    ensures forall r, c :: 0 <= r < n && 0 <= c < n ==> Aij[r, c] == Cell(Mirrored, sqrt, ai, kijm, r, c)
    ensures forall r, c :: 0 <= r < n && 0 <= c < n ==> Aij[r, c] == Aij[c, r]
  {
    DoJustHalf(sqrt, n, ai, kijm, Aij);
    for i := 0 to n
      invariant forall r, c :: 0 <= r <= c < n ==> Aij[r, c] == Cell(Mirrored, sqrt, ai, kijm, r, c)
      invariant forall r, c :: 0 <= c < r < i ==> Aij[r, c] == Cell(Mirrored, sqrt, ai, kijm, r, c)
    {
      for j := 0 to i
        invariant forall r, c :: 0 <= r <= c < n ==> Aij[r, c] == Cell(Mirrored, sqrt, ai, kijm, r, c)
        invariant forall r, c :: 0 <= c < r < i ==> Aij[r, c] == Cell(Mirrored, sqrt, ai, kijm, r, c)
        invariant forall c :: 0 <= c < j ==> Aij[i, c] == Cell(Mirrored, sqrt, ai, kijm, i, c)
      {
        Aij[i, j] := Aij[j, i];
      }
    }
  }

  /** MirrorItemsConditional as written (Program.cs:629-643). At row i the branch
      i > j copies Aij[i, j], a lower cell that nothing has written, over the
      upper cell Aij[j, i] computed at row j. The result is symmetric, but every
      computed term is lost: each off-diagonal pair holds the incoming value of
      its lower cell. */
  method MirrorItemsConditional(sqrt: TotalFn, n: nat, ai: seq<real>, kijm: Matrix, Aij: array2<real>)
    requires FillArgs(n, ai, kijm, Aij)
    modifies Aij
    ensures forall r :: 0 <= r < n ==> Aij[r, r] == ai[r]
    ensures forall r, c :: 0 <= r < c < n ==> Aij[r, c] == old(Aij[c, r])
    ensures forall r, c :: 0 <= c < r < n ==> Aij[r, c] == old(Aij[r, c])
    ensures forall r, c :: 0 <= r < n && 0 <= c < n ==> Aij[r, c] == Aij[c, r]
  {
    for i := 0 to n
      invariant forall r :: 0 <= r < i ==> Aij[r, r] == ai[r]
      invariant forall r :: i <= r < n ==> Aij[r, r] == old(Aij[r, r])
      invariant forall r, c :: 0 <= r < c < i ==> Aij[r, c] == old(Aij[c, r])
      invariant forall r, c :: 0 <= r < i <= c < n ==> Aij[r, c] == Term(sqrt, ai[r], ai[c], kijm[r][c])
      invariant forall r, c :: i <= r < c < n ==> Aij[r, c] == old(Aij[r, c])
      invariant forall r, c :: 0 <= c < r < n ==> Aij[r, c] == old(Aij[r, c])
    {
      ConditionalRow(sqrt, n, ai, kijm, Aij, i);
    }
  }

  /** Row i of MirrorItemsConditional (Program.cs:633-641): for j < i the upper
      cell (j, i) gets the current lower cell (i, j); for j >= i the cell (i, j)
      gets the computed term; then the diagonal is set to ai[i]. Nothing else
      changes. */
  method ConditionalRow(sqrt: TotalFn, n: nat, ai: seq<real>, kijm: Matrix, Aij: array2<real>, i: nat)
    requires FillArgs(n, ai, kijm, Aij) && i < n
    modifies Aij
    ensures forall r {:trigger Aij[r, i]} :: 0 <= r < i ==> Aij[r, i] == old(Aij[i, r])
    ensures Aij[i, i] == ai[i]
    ensures forall c {:trigger Aij[i, c]} :: i < c < n ==> Aij[i, c] == Term(sqrt, ai[i], ai[c], kijm[i][c])
    ensures forall r, c {:trigger Aij[r, c]} :: 0 <= r < n && 0 <= c < n && r != i && c != i ==> Aij[r, c] == old(Aij[r, c])
    ensures forall c {:trigger Aij[i, c]} :: 0 <= c < i ==> Aij[i, c] == old(Aij[i, c])
    ensures forall r {:trigger Aij[r, i]} :: i < r < n ==> Aij[r, i] == old(Aij[r, i])
  {
    var aii := ai[i];
    for j := 0 to n
      invariant forall r {:trigger Aij[r, i]} :: 0 <= r < i && r < j ==> Aij[r, i] == old(Aij[i, r])
      invariant forall r {:trigger Aij[r, i]} :: 0 <= r < n && (j <= r || i < r) ==> Aij[r, i] == old(Aij[r, i])
      invariant forall c {:trigger Aij[i, c]} :: i <= c < j ==> Aij[i, c] == Term(sqrt, aii, ai[c], kijm[i][c])
      invariant forall c {:trigger Aij[i, c]} :: 0 <= c < n && (c < i || j <= c) ==> Aij[i, c] == old(Aij[i, c])
      invariant forall r, c {:trigger Aij[r, c]} :: 0 <= r < n && 0 <= c < n && r != i && c != i ==> Aij[r, c] == old(Aij[r, c])
    {
      if i > j {
        Aij[j, i] := Aij[i, j];
      } else {
        Aij[i, j] := Term(sqrt, aii, ai[j], kijm[i][j]);
      }
    }
    Aij[i, i] := aii;
  }

  /** A freshly allocated (zero) matrix, ai = [4, 9] and kijm 0.1 off the
      diagonal: with sqrt(36) = 6 the cell (0, 1) should be 6 * 0.9 = 5.4, but
      MirrorItemsConditional leaves 0 there. */
  method ConditionalMirrorLosesTerms(sqrt: TotalFn) returns (got: real, intended: real)
    requires sqrt[36.0] == 6.0
    ensures got == 0.0 && intended == 5.4
  {
    var ai := [4.0, 9.0];
    var kijm := [[0.0, 0.1], [0.1, 0.0]];
    var Aij := new real[2, 2]((i, j) => 0.0);
    MirrorItemsConditional(sqrt, 2, ai, kijm, Aij);
    got := Aij[0, 1];
    assert ai[0] * ai[1] == 36.0;
    intended := Term(sqrt, ai[0], ai[1], kijm[0][1]);
  }

  /** MirrorItemsConditional with the copy in the intended direction: the lower
      cell takes the value of the upper cell computed at an earlier row. */
  method MirrorItemsConditionalIntended(sqrt: TotalFn, n: nat, ai: seq<real>, kijm: Matrix, Aij: array2<real>)
    requires FillArgs(n, ai, kijm, Aij)
    modifies Aij
    ensures forall r, c :: 0 <= r < n && 0 <= c < n ==> Aij[r, c] == Cell(Mirrored, sqrt, ai, kijm, r, c)
    ensures forall r, c :: 0 <= r < n && 0 <= c < n ==> Aij[r, c] == Aij[c, r]
  {
    for i := 0 to n
      invariant forall r, c :: 0 <= r < i && 0 <= c < n ==> Aij[r, c] == Cell(Mirrored, sqrt, ai, kijm, r, c)
    {
      var aii := ai[i];
      for j := 0 to n
        invariant forall r, c :: 0 <= r < i && 0 <= c < n ==> Aij[r, c] == Cell(Mirrored, sqrt, ai, kijm, r, c)
        invariant forall c :: 0 <= c < j && c != i ==> Aij[i, c] == Cell(Mirrored, sqrt, ai, kijm, i, c)
      {
        if i > j {
          Aij[i, j] := Aij[j, i];
        } else {
          Aij[i, j] := Term(sqrt, aii, ai[j], kijm[i][j]);
        }
      }
      Aij[i, i] := aii;
    }
  }
}
