/** The amix mixing rule as a specification over real numbers.

    Every kernel of the benchmark computes, for n components with weights XY,
    self-coefficients ai and interaction corrections kijm,

        Aij[i, i] = ai[i]
        Aij[i, j] = sqrt(ai[i] * ai[j]) * (1 - kijm[i][j])      (i != j)
        sumAi[i]  = sum over j of XY[j] * Aij[i, j]
        amix      = sum over i of sumAi[i] * XY[i]

    Doubles are modelled as reals and Math.Sqrt as an arbitrary total
    function `sqrt` on the reals, a TotalFn value that every member takes as a
    parameter; nothing is assumed of it where a lemma does not say so. Equalities between
    strategies proved here therefore hold over the reals; over doubles the
    strategies agree only up to the rounding of their different summation
    orders.

    The kernels only read XY, ai and kijm, so these inputs are values here:
    sequences, and a sequence of rows for kijm. Aij and sumAi, which the
    kernels write, stay arrays. */
module Mixing {

  /** How a fill strategy defines the cell (i, j) of the interaction matrix. */
  datatype Strategy =
    | Full       // every off-diagonal cell from its own kijm[i][j]; diagonal from ai
    | Mirrored   // upper triangle computed, lower triangle its mirror image; diagonal from ai
    | TermsOnly  // every cell, the diagonal included, is the computed term (before the diagonal is overwritten)

  /** A total function on the reals, as a value (it stands for Math.Sqrt). */
  type TotalFn = f: imap<real, real> | forall x :: x in f ghost witness imap x: real :: x

  /** The computed off-diagonal term sqrt(x * y) * (1 - k). */
  function Term(sqrt: TotalFn, x: real, y: real, k: real): real
  {
    sqrt[x * y] * (1.0 - k)
  }

  /** A read-only double[,] input, as a value: a sequence of rows. */
  type Matrix = seq<seq<real>>

  /** An n-by-n matrix value. */
  predicate SquareMatrix(n: nat, m: Matrix)
  {
    |m| == n && forall i :: 0 <= i < n ==> |m[i]| == n
  }

  /** An n-by-n two-dimensional array. */
  predicate SquareArray(n: nat, m: array2<real>)
  {
    m.Length0 == n && m.Length1 == n
  }

  /** The three inputs of the kernel are sized consistently with n. */
  predicate Conforms(n: nat, XY: seq<real>, ai: seq<real>, kijm: Matrix)
  {
    |XY| == n && |ai| == n && SquareMatrix(n, kijm)
  }

  /** The implicit precondition of the mirrored strategies. */
  predicate Symmetric(kijm: Matrix)
  {
    SquareMatrix(|kijm|, kijm) &&
    forall i, j :: 0 <= i < |kijm| && 0 <= j < |kijm| ==> kijm[i][j] == kijm[j][i]
  }

  /** The cell (i, j) of the interaction matrix built by strategy `s`.
      The mirrored strategy reads kijm only at (row, column) with row < column. */
  function Cell(s: Strategy, sqrt: TotalFn, ai: seq<real>, kijm: Matrix, i: nat, j: nat): real
    requires SquareMatrix(|ai|, kijm) && i < |ai| && j < |ai|
  {
    match s
    case TermsOnly => Term(sqrt, ai[i], ai[j], kijm[i][j])
    case Full => if i == j then ai[i] else Term(sqrt, ai[i], ai[j], kijm[i][j])
    case Mirrored =>
      if i == j then ai[i]
      else if i < j then Term(sqrt, ai[i], ai[j], kijm[i][j])
      else Term(sqrt, ai[j], ai[i], kijm[j][i])
  }

  /** XY[0] * Cell(i, 0) + ... + XY[m - 1] * Cell(i, m - 1), summed left to right. */
  function RowSpec(s: Strategy, sqrt: TotalFn, XY: seq<real>, ai: seq<real>, kijm: Matrix, i: nat, m: nat): real
    requires Conforms(|ai|, XY, ai, kijm) && i < |ai| && m <= |ai|
  {
    if m == 0 then 0.0
    else RowSpec(s, sqrt, XY, ai, kijm, i, m - 1) + XY[m - 1] * Cell(s, sqrt, ai, kijm, i, m - 1)
  }

  /** The sum over the first m rows of RowSpec(row) * XY[row]: amix when m == n. */
  function AMixSpec(s: Strategy, sqrt: TotalFn, XY: seq<real>, ai: seq<real>, kijm: Matrix, m: nat): real
    requires Conforms(|ai|, XY, ai, kijm) && m <= |ai|
  {
    if m == 0 then 0.0
    else AMixSpec(s, sqrt, XY, ai, kijm, m - 1) + RowSpec(s, sqrt, XY, ai, kijm, m - 1, |ai|) * XY[m - 1]
  }

  /** XY[0] * A[i, 0] + ... + XY[m - 1] * A[i, m - 1]: the dot product of a row
      of whatever matrix A holds with the weights. */
  ghost function RowDot(XY: seq<real>, A: array2<real>, i: nat, m: nat): real
    requires SquareArray(|XY|, A) && i < |XY| && m <= |XY|
    reads A
  {
    if m == 0 then 0.0 else RowDot(XY, A, i, m - 1) + XY[m - 1] * A[i, m - 1]
  }

  /** sums[0] * XY[0] + ... + sums[m - 1] * XY[m - 1]: amix from the row sums. */
  function Weighted(XY: seq<real>, sums: seq<real>, m: nat): real
    requires |sums| == |XY| && m <= |XY|
  {
    if m == 0 then 0.0 else Weighted(XY, sums, m - 1) + sums[m - 1] * XY[m - 1]
  }

  /** The double sum of XY[i] * XY[j] * Cell(i, j) over the first m columns of row i. */
  function QuadRow(s: Strategy, sqrt: TotalFn, XY: seq<real>, ai: seq<real>, kijm: Matrix, i: nat, m: nat): real
    requires Conforms(|ai|, XY, ai, kijm) && i < |ai| && m <= |ai|
  {
    if m == 0 then 0.0
    else QuadRow(s, sqrt, XY, ai, kijm, i, m - 1) + XY[i] * XY[m - 1] * Cell(s, sqrt, ai, kijm, i, m - 1)
  }

  /** The quadratic form sum_i sum_j XY[i] * XY[j] * Cell(i, j) over the first m rows. */
  function Quad(s: Strategy, sqrt: TotalFn, XY: seq<real>, ai: seq<real>, kijm: Matrix, m: nat): real
    requires Conforms(|ai|, XY, ai, kijm) && m <= |ai|
  {
    if m == 0 then 0.0
    else Quad(s, sqrt, XY, ai, kijm, m - 1) + QuadRow(s, sqrt, XY, ai, kijm, m - 1, |ai|)
  }

  // ---------------------------------------------------------------------------
  // Reductions of a filled matrix

  /** A row whose first m cells hold the strategy's values reduces to RowSpec. */
  lemma {:induction false} RowDotMatchesSpec(s: Strategy, sqrt: TotalFn, XY: seq<real>, ai: seq<real>, kijm: Matrix,
                                            A: array2<real>, i: nat, m: nat)
    requires Conforms(|ai|, XY, ai, kijm) && SquareArray(|ai|, A) && i < |ai| && m <= |ai|
    requires forall j :: 0 <= j < m ==> A[i, j] == Cell(s, sqrt, ai, kijm, i, j)
    ensures RowDot(XY, A, i, m) == RowSpec(s, sqrt, XY, ai, kijm, i, m)
  {
    if m > 0 {
      RowDotMatchesSpec(s, sqrt, XY, ai, kijm, A, i, m - 1);
    }
  }

  /** Row sums that equal RowSpec weight up to AMixSpec. */
  lemma {:induction false} WeightedMatchesSpec(s: Strategy, sqrt: TotalFn, XY: seq<real>, ai: seq<real>, kijm: Matrix,
                                              sums: seq<real>, m: nat)
    requires Conforms(|ai|, XY, ai, kijm) && |sums| == |ai| && m <= |ai|
    requires forall r :: 0 <= r < m ==> sums[r] == RowSpec(s, sqrt, XY, ai, kijm, r, |ai|)
    ensures Weighted(XY, sums, m) == AMixSpec(s, sqrt, XY, ai, kijm, m)
  {
    if m > 0 {
      WeightedMatchesSpec(s, sqrt, XY, ai, kijm, sums, m - 1);
    }
  }

  /** Weighted(.., m) depends only on the first m row sums. */
  lemma {:induction false} WeightedPrefix(XY: seq<real>, a: seq<real>, b: seq<real>, m: nat)
    requires |a| == |XY| && |b| == |XY| && m <= |XY|
    requires forall k :: 0 <= k < m ==> a[k] == b[k]
    ensures Weighted(XY, a, m) == Weighted(XY, b, m)
  {
    if m > 0 {
      WeightedPrefix(XY, a, b, m - 1);
    }
  }

  // ---------------------------------------------------------------------------
  // Relations between strategies

  /** Starting a row sum at XY[i] * ai[i], adding every computed term, the
      diagonal one included, and subtracting the computed diagonal term gives the
      row sum of the full fill (over reals: the two diagonal terms cancel).
      Stated for a prefix of m columns; m == n is the fused full-fill kernel. */
  lemma {:induction false} Cancellation(sqrt: TotalFn, XY: seq<real>, ai: seq<real>, kijm: Matrix, i: nat, m: nat)
    requires Conforms(|ai|, XY, ai, kijm) && i < |ai| && m <= |ai|
    ensures i < m ==>
      XY[i] * ai[i] + RowSpec(TermsOnly, sqrt, XY, ai, kijm, i, m) - XY[i] * Cell(TermsOnly, sqrt, ai, kijm, i, i)
        == RowSpec(Full, sqrt, XY, ai, kijm, i, m)
    ensures m <= i ==> RowSpec(TermsOnly, sqrt, XY, ai, kijm, i, m) == RowSpec(Full, sqrt, XY, ai, kijm, i, m)
  {
    if m > 0 {
      Cancellation(sqrt, XY, ai, kijm, i, m - 1);
    }
  }

  /** The mirrored cell is the full-fill cell of the upper triangle, read at (min, max). */
  lemma MirroredReadsUpperTriangle(sqrt: TotalFn, ai: seq<real>, kijm: Matrix, i: nat, j: nat)
    requires SquareMatrix(|ai|, kijm) && i < |ai| && j < |ai|
    ensures Cell(Mirrored, sqrt, ai, kijm, i, j) == Cell(Full, sqrt, ai, kijm, if i < j then i else j, if i < j then j else i)
    ensures Cell(Mirrored, sqrt, ai, kijm, i, j) == Cell(Mirrored, sqrt, ai, kijm, j, i)
  {
  }

  /** With a symmetric kijm the mirrored fill is the full fill, cell by cell. */
  lemma MirroredMatchesFull(sqrt: TotalFn, ai: seq<real>, kijm: Matrix, i: nat, j: nat)
    requires SquareMatrix(|ai|, kijm) && Symmetric(kijm) && i < |ai| && j < |ai|
    ensures Cell(Mirrored, sqrt, ai, kijm, i, j) == Cell(Full, sqrt, ai, kijm, i, j)
  {
    if j < i {
      assert kijm[j][i] == kijm[i][j];
      assert ai[j] * ai[i] == ai[i] * ai[j];
    }
  }

  /** With a symmetric kijm the mirrored row sums are the full-fill row sums. */
  lemma {:induction false} MirroredRowMatchesFull(sqrt: TotalFn, XY: seq<real>, ai: seq<real>, kijm: Matrix, i: nat, m: nat)
    requires Conforms(|ai|, XY, ai, kijm) && Symmetric(kijm) && i < |ai| && m <= |ai|
    ensures RowSpec(Mirrored, sqrt, XY, ai, kijm, i, m) == RowSpec(Full, sqrt, XY, ai, kijm, i, m)
  {
    if m > 0 {
      MirroredRowMatchesFull(sqrt, XY, ai, kijm, i, m - 1);
      MirroredMatchesFull(sqrt, ai, kijm, i, m - 1);
    }
  }

  /** With a symmetric kijm every mirrored strategy yields the amix of the full fill. */
  lemma {:induction false} MirroredAMixMatchesFull(sqrt: TotalFn, XY: seq<real>, ai: seq<real>, kijm: Matrix, m: nat)
    requires Conforms(|ai|, XY, ai, kijm) && Symmetric(kijm) && m <= |ai|
    ensures AMixSpec(Mirrored, sqrt, XY, ai, kijm, m) == AMixSpec(Full, sqrt, XY, ai, kijm, m)
  {
    if m > 0 {
      MirroredAMixMatchesFull(sqrt, XY, ai, kijm, m - 1);
      MirroredRowMatchesFull(sqrt, XY, ai, kijm, m - 1, |ai|);
    }
  }

  /** amix computed row by row is the quadratic form of the interaction matrix. */
  lemma {:induction false} AMixIsQuadraticForm(s: Strategy, sqrt: TotalFn, XY: seq<real>, ai: seq<real>, kijm: Matrix, m: nat)
    requires Conforms(|ai|, XY, ai, kijm) && m <= |ai|
    ensures AMixSpec(s, sqrt, XY, ai, kijm, m) == Quad(s, sqrt, XY, ai, kijm, m)
  {
    if m > 0 {
      var row := RowSpec(s, sqrt, XY, ai, kijm, m - 1, |ai|);
      calc {
        AMixSpec(s, sqrt, XY, ai, kijm, m);
        AMixSpec(s, sqrt, XY, ai, kijm, m - 1) + row * XY[m - 1];
        { AMixIsQuadraticForm(s, sqrt, XY, ai, kijm, m - 1); }
        Quad(s, sqrt, XY, ai, kijm, m - 1) + row * XY[m - 1];
        { RowIsQuadRow(s, sqrt, XY, ai, kijm, m - 1, |ai|); }
        Quad(s, sqrt, XY, ai, kijm, m - 1) + QuadRow(s, sqrt, XY, ai, kijm, m - 1, |ai|);
        Quad(s, sqrt, XY, ai, kijm, m);
      }
    }
  }

  lemma {:induction false} RowIsQuadRow(s: Strategy, sqrt: TotalFn, XY: seq<real>, ai: seq<real>, kijm: Matrix, i: nat, m: nat)
    requires Conforms(|ai|, XY, ai, kijm) && i < |ai| && m <= |ai|
    ensures RowSpec(s, sqrt, XY, ai, kijm, i, m) * XY[i] == QuadRow(s, sqrt, XY, ai, kijm, i, m)
  {
    if m > 0 {
      RowIsQuadRow(s, sqrt, XY, ai, kijm, i, m - 1);
      var r := RowSpec(s, sqrt, XY, ai, kijm, i, m - 1);
      var c := Cell(s, sqrt, ai, kijm, i, m - 1);
      assert (r + XY[m - 1] * c) * XY[i] == r * XY[i] + XY[i] * XY[m - 1] * c;
    }
  }

  // ---------------------------------------------------------------------------
  // Edge cases and a worked example

  /** No components: amix is 0. One component: amix is XY[0]^2 * ai[0]. */
  lemma SmallCases(s: Strategy, sqrt: TotalFn, XY: seq<real>, ai: seq<real>, kijm: Matrix)
    requires Conforms(|ai|, XY, ai, kijm) && |ai| <= 1 && s != TermsOnly
    ensures |ai| == 0 ==> AMixSpec(s, sqrt, XY, ai, kijm, 0) == 0.0
    ensures |ai| == 1 ==> AMixSpec(s, sqrt, XY, ai, kijm, 1) == XY[0] * XY[0] * ai[0]
  {
    if |ai| == 1 {
      assert RowSpec(s, sqrt, XY, ai, kijm, 0, 1) == XY[0] * ai[0];
      assert AMixSpec(s, sqrt, XY, ai, kijm, 1) == XY[0] * ai[0] * XY[0];
    }
  }

  /** Two components with ai = [4, 9], kijm[0][1] = kijm[1][0] = 0.1 and XY = [0.5, 0.5]:
      the off-diagonal cells are sqrt(36) * 0.9 = 5.4, the row sums 4.7 and 7.2,
      and amix is 5.95. */
  lemma WorkedExample(s: Strategy, sqrt: TotalFn, XY: seq<real>, ai: seq<real>, kijm: Matrix)
    requires Conforms(2, XY, ai, kijm) && s != TermsOnly
    requires XY[0] == 0.5 && XY[1] == 0.5 && ai[0] == 4.0 && ai[1] == 9.0
    requires kijm[0][1] == 0.1 && kijm[1][0] == 0.1 && sqrt[36.0] == 6.0
    ensures Cell(s, sqrt, ai, kijm, 0, 1) == 5.4 && Cell(s, sqrt, ai, kijm, 1, 0) == 5.4
    ensures RowSpec(s, sqrt, XY, ai, kijm, 0, 2) == 4.7 && RowSpec(s, sqrt, XY, ai, kijm, 1, 2) == 7.2
    ensures AMixSpec(s, sqrt, XY, ai, kijm, 2) == 5.95
  {
    assert ai[1] * ai[0] == 36.0 && ai[0] * ai[1] == 36.0;
    assert Cell(s, sqrt, ai, kijm, 0, 1) == 5.4;
    assert Cell(s, sqrt, ai, kijm, 1, 0) == 5.4;
    assert RowSpec(s, sqrt, XY, ai, kijm, 0, 1) == 2.0;
    assert RowSpec(s, sqrt, XY, ai, kijm, 0, 2) == 4.7;
    assert RowSpec(s, sqrt, XY, ai, kijm, 1, 1) == 2.7;
    assert RowSpec(s, sqrt, XY, ai, kijm, 1, 2) == 7.2;
    assert AMixSpec(s, sqrt, XY, ai, kijm, 1) == 2.35;
  }

  /** With ai >= 0, kijm <= 1 and a square root that is non-negative on
      non-negative arguments, every cell is non-negative. */
  lemma NonNegativeCells(s: Strategy, sqrt: TotalFn, ai: seq<real>, kijm: Matrix, i: nat, j: nat)
    requires SquareMatrix(|ai|, kijm) && i < |ai| && j < |ai|
    requires forall x :: x >= 0.0 ==> sqrt[x] >= 0.0
    requires forall k :: 0 <= k < |ai| ==> ai[k] >= 0.0
    requires forall p, q :: 0 <= p < |ai| && 0 <= q < |ai| ==> kijm[p][q] <= 1.0
    ensures Cell(s, sqrt, ai, kijm, i, j) >= 0.0
  {
    var p, q := if s == Mirrored && j < i then j else i, if s == Mirrored && j < i then i else j;
    assert ai[p] * ai[q] >= 0.0;
    assert sqrt[ai[p] * ai[q]] >= 0.0;
    assert 1.0 - kijm[p][q] >= 0.0;
  }
}
