/** The row-major storage of an n-by-n double[,] seen as one contiguous run of
    n * n elements, as the span and pointer kernels address it.

    Offsets are built from RowStart(n, i), the start of row i, defined by
    adding n once per row; RowStartIsProduct shows it is i * n. Row and column
    are recovered from an offset by RowOf and ColOf, Euclidean division and
    remainder by n written as repeated subtraction. */
module FlatLayout {

  /** The offset where row i begins: i rows of n elements each. */
  function RowStart(n: nat, i: nat): nat
  {
    if i == 0 then 0 else RowStart(n, i - 1) + n
  }

  lemma {:induction false} RowStartIsProduct(n: nat, i: nat)
    ensures RowStart(n, i) == i * n
  {
    if i > 0 {
      RowStartIsProduct(n, i - 1);
      assert i * n == (i - 1) * n + n;
    }
  }

  /** The number of cells of an n-by-n matrix, n * n (AreaIsSquare). */
  function Area(n: nat): nat
  {
    RowStart(n, n)
  }

  lemma AreaIsSquare(n: nat)
    ensures Area(n) == n * n
  {
    RowStartIsProduct(n, n);
  }

  /** Later rows start at least one row further on. */
  lemma {:induction false} RowStartMonotone(n: nat, i: nat, k: nat)
    requires i < k
    ensures RowStart(n, i) + n <= RowStart(n, k)
  {
    if i + 1 < k {
      RowStartMonotone(n, i, k - 1);
    }
  }

  /** Row i (i < n) fits inside the n * n elements. */
  lemma RowFits(n: nat, i: nat)
    requires i < n
    ensures RowStart(n, i) + n <= Area(n)
  {
    RowStartMonotone(n, i, n);
  }

  /** The row of offset p: Euclidean p / n. */
  function RowOf(n: nat, p: nat): nat
    requires n > 0
    decreases p
  {
    if p < n then 0 else 1 + RowOf(n, p - n)
  }

  /** The column of offset p: Euclidean p % n. */
  function ColOf(n: nat, p: nat): nat
    requires n > 0
    decreases p
  {
    if p < n then p else ColOf(n, p - n)
  }

  lemma {:induction false} RowColOfOffset(n: nat, i: nat, j: nat)
    requires j < n
    ensures RowOf(n, RowStart(n, i) + j) == i && ColOf(n, RowStart(n, i) + j) == j
  {
    if i > 0 {
      RowColOfOffset(n, i - 1, j);
    }
  }

  /** The flat offset of cell (i, j): every such offset lies in [0, n * n) and
      determines its row and column, so distinct cells never share an offset. */
  function Offset(n: nat, i: nat, j: nat): (p: nat)
    requires i < n && j < n
    ensures p < Area(n)
    ensures RowOf(n, p) == i && ColOf(n, p) == j
  {
    RowFits(n, i);
    RowColOfOffset(n, i, j);
    RowStart(n, i) + j
  }

  /** The offset that the source computes as i * n + j. */
  lemma OffsetIsProduct(n: nat, i: nat, j: nat)
    requires i < n && j < n
    ensures Offset(n, i, j) == i * n + j
  {
    RowStartIsProduct(n, i);
  }

  /** Appending row k - 1 to the storage of rows 0 .. k - 2 gives the storage
      of rows 0 .. k - 1. */
  lemma AppendRow(n: nat, m: seq<seq<real>>, k: nat, prev: seq<real>)
    requires |m| == n && (forall i :: 0 <= i < n ==> |m[i]| == n) && 0 < k <= n
    requires |prev| == RowStart(n, k - 1)
    requires forall i, j :: 0 <= i < k - 1 && 0 <= j < n ==>
      Offset(n, i, j) < |prev| && prev[Offset(n, i, j)] == m[i][j]
    ensures |prev + m[k - 1]| == RowStart(n, k)
    ensures forall i, j :: 0 <= i < k && 0 <= j < n ==>
      Offset(n, i, j) < RowStart(n, k) && (prev + m[k - 1])[Offset(n, i, j)] == m[i][j]
  {
    forall i, j | 0 <= i < k && 0 <= j < n
      ensures Offset(n, i, j) < RowStart(n, k) && (prev + m[k - 1])[Offset(n, i, j)] == m[i][j]
    {
      if i < k - 1 {
        RowStartMonotone(n, i, k - 1);
      }
    }
  }

  /** The first k rows of the n-by-n matrix m laid out one after another. */
  function RowMajorPrefix(n: nat, m: seq<seq<real>>, k: nat): (flat: seq<real>)
    requires |m| == n && (forall i :: 0 <= i < n ==> |m[i]| == n) && k <= n
    ensures |flat| == RowStart(n, k)
    ensures forall i, j :: 0 <= i < k && 0 <= j < n ==>
      Offset(n, i, j) < |flat| && flat[Offset(n, i, j)] == m[i][j]
  {
    if k == 0 then []
    else
      var prev := RowMajorPrefix(n, m, k - 1);
      AppendRow(n, m, k, prev);
      prev + m[k - 1]
  }

  /** flat is the storage of the n-by-n matrix m: n * n elements, cell (i, j)
      being the element at Offset(n, i, j). */
  predicate StoresRowMajor(n: nat, m: seq<seq<real>>, flat: seq<real>)
    requires |m| == n && forall i :: 0 <= i < n ==> |m[i]| == n
  {
    |flat| == Area(n) &&
    forall i, j {:trigger flat[Offset(n, i, j)]} :: 0 <= i < n && 0 <= j < n ==> flat[Offset(n, i, j)] == m[i][j]
  }

  /** The storage of an n-by-n double[,]: its rows one after another. */
  function RowMajor(n: nat, m: seq<seq<real>>): (flat: seq<real>)
    requires |m| == n && forall i :: 0 <= i < n ==> |m[i]| == n
    ensures StoresRowMajor(n, m, flat)
  {
    RowMajorPrefix(n, m, n)
  }

  /** A Span<double> over the flat storage: its start offset and its length. */
  datatype Window = Window(start: nat, len: nat)

  /** Span.Slice(k): the window k elements further on (bounds-checked). */
  function Slice(w: Window, k: nat): Window
    requires k <= w.len
  {
    Window(w.start + k, w.len - k)
  }

  /** The storage offset of element j of the window (bounds-checked). */
  function Index(w: Window, j: nat): nat
    requires j < w.len
  {
    w.start + j
  }

  /** The window from the start of row k to the end of the n * n elements: the
      window over the whole storage after k calls to Slice(n) (SliceRowWindow).
      While k < n it holds a whole row, whose element j is then at
      Offset(n, k, j). */
  function RowWindow(n: nat, k: nat): (w: Window)
    requires k <= n
    ensures w.start == RowStart(n, k) && w.start + w.len == Area(n)
    ensures k < n ==> w.len >= n
  {
    RowFitsWhenInside(n, k);
    if k < n then Window(RowStart(n, k), Area(n) - RowStart(n, k)) else Window(Area(n), 0)
  }

  lemma RowFitsWhenInside(n: nat, i: nat)
    ensures i < n ==> RowStart(n, i) + n <= Area(n)
  {
    if i < n {
      RowFits(n, i);
    }
  }

  /** The window over the storage is the window at row 0, and Slice(n) moves
      the window at row k to the window at row k + 1. */
  lemma SliceRowWindow(n: nat, k: nat)
    requires k < n
    ensures Window(0, Area(n)) == RowWindow(n, 0)
    ensures Slice(RowWindow(n, k), n) == RowWindow(n, k + 1)
    ensures forall j :: 0 <= j < n ==> Index(RowWindow(n, k), j) == Offset(n, k, j)
  {
  }

  /** The source's AijSpan.Slice(k * n) starts where row k begins: it is the
      window after k calls to Slice(n). */
  lemma SliceToRow(n: nat, k: nat)
    requires k <= n
    ensures k * n <= Area(n)
    ensures Slice(Window(0, Area(n)), k * n) == RowWindow(n, k)
  {
    RowStartIsProduct(n, k);
    if k < n {
      RowFits(n, k);
    }
  }

  /** The column pointer &Aij[(i + 1) * n + i] of the mirrored pointer kernel:
      it addresses cell (i + 1, i) while i + 1 < n, and for the last row it lies
      past the end of the storage. */
  lemma ColumnCursor(n: nat, i: nat)
    requires i < n
    ensures (i + 1) * n + i == RowStart(n, i + 1) + i
    ensures i + 1 < n ==> (i + 1) * n + i == Offset(n, i + 1, i)
    ensures i + 1 == n ==> (i + 1) * n + i >= Area(n)
  {
    RowStartIsProduct(n, i + 1);
  }
}
