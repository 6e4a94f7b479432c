/** Row-major layout of a `rows` x `cols` buffer: cell (r, c) lives at
    position r * cols + c of one flat buffer. */
module Layout {

  /** Position of cell (r, c) in a row-major buffer with `cols` columns. */
  function FlatIndex(cols: nat, r: nat, c: nat): nat
  {
    r * cols + c
  }

  /** The strict bounds an element access needs. */
  predicate InBounds(rows: nat, cols: nat, r: nat, c: nat)
  {
    r < rows && c < cols
  }

  /** The guard that `at` asserts as written: both comparisons are `<=`. */
  predicate AtGuardAsWritten(rows: nat, cols: nat, r: nat, c: nat)
  {
    c <= cols && r <= rows
  }

  lemma MulMonotone(a: nat, b: nat, k: nat)
    requires a <= b
    ensures a * k <= b * k
  {
    assert b * k == a * k + (b - a) * k;
  }

  /** Every in-bounds cell maps to a position inside a buffer of
      rows * cols elements. */
  lemma FlatIndexInRange(rows: nat, cols: nat, r: nat, c: nat)
    requires InBounds(rows, cols, r, c)
    ensures FlatIndex(cols, r, c) < rows * cols
  {
    MulMonotone(r + 1, rows, cols);
    assert (r + 1) * cols == r * cols + cols;
  }

  /** The position `at` indexes for an in-bounds cell, which lies inside a
      buffer of rows * cols elements. */
  function CellIndex(rows: nat, cols: nat, r: nat, c: nat): (k: nat)
    requires InBounds(rows, cols, r, c)
    ensures k == FlatIndex(cols, r, c) && k < rows * cols
  {
    FlatIndexInRange(rows, cols, r, c);
    FlatIndex(cols, r, c)
  }

  /** The cell stored at position k of a rows * cols buffer: the inverse of
      `CellIndex`. */
  function CellOf(rows: nat, cols: nat, k: nat): (rc: (nat, nat))
    requires k < rows * cols
    ensures InBounds(rows, cols, rc.0, rc.1) && FlatIndex(cols, rc.0, rc.1) == k
  {
    FlatIndexOnto(rows, cols, k);
    (k / cols, k % cols)
  }

  /** Row-major order: a cell that comes earlier (an earlier row, or the same
      row and an earlier column) has a strictly smaller position. */
  lemma FlatIndexMonotone(cols: nat, r1: nat, c1: nat, r2: nat, c2: nat)
    requires c1 < cols && c2 < cols
    requires r1 < r2 || (r1 == r2 && c1 < c2)
    ensures FlatIndex(cols, r1, c1) < FlatIndex(cols, r2, c2)
  {
    if r1 < r2 {
      MulMonotone(r1 + 1, r2, cols);
      assert (r1 + 1) * cols == r1 * cols + cols;
    }
  }

  /** Distinct in-bounds cells never share a position. */
  lemma FlatIndexInjective(cols: nat, r1: nat, c1: nat, r2: nat, c2: nat)
    requires c1 < cols && c2 < cols
    requires FlatIndex(cols, r1, c1) == FlatIndex(cols, r2, c2)
    ensures r1 == r2 && c1 == c2
  {
    if r1 < r2 || (r1 == r2 && c1 < c2) {
      FlatIndexMonotone(cols, r1, c1, r2, c2);
    } else if r2 < r1 || (r1 == r2 && c2 < c1) {
      FlatIndexMonotone(cols, r2, c2, r1, c1);
    }
  }

  /** Every position of a rows * cols buffer is the position of exactly the
      cell (k / cols, k % cols), which is in bounds. */
  lemma FlatIndexOnto(rows: nat, cols: nat, k: nat)
    requires k < rows * cols
    ensures cols > 0
    ensures InBounds(rows, cols, k / cols, k % cols)
    ensures FlatIndex(cols, k / cols, k % cols) == k
  {
    if k / cols >= rows {
      MulMonotone(rows, k / cols, cols);
      assert false;
    }
  }

  /** `CellOf` and `CellIndex` are inverse bijections between the in-bounds
      cells and the positions of the buffer. */
  lemma CellIndexRoundTrip(rows: nat, cols: nat, r: nat, c: nat, k: nat)
    requires InBounds(rows, cols, r, c) && k < rows * cols
    ensures CellOf(rows, cols, CellIndex(rows, cols, r, c)) == (r, c)
    ensures CellIndex(rows, cols, CellOf(rows, cols, k).0, CellOf(rows, cols, k).1) == k
  {
    var rc := CellOf(rows, cols, CellIndex(rows, cols, r, c));
    FlatIndexInjective(cols, rc.0, rc.1, r, c);
  }

  /** The guard as written admits the cell just past the last row, whose
      position lies outside the buffer, and the cell just past the last
      column, whose position is that of the first cell of the next row. */
  lemma AtGuardAsWrittenAdmitsOutOfRange(rows: nat, cols: nat)
    requires rows > 0 && cols > 0
    ensures AtGuardAsWritten(rows, cols, rows, 0) && !InBounds(rows, cols, rows, 0)
    ensures FlatIndex(cols, rows, 0) >= rows * cols
    ensures AtGuardAsWritten(rows, cols, 0, cols) && !InBounds(rows, cols, 0, cols)
    ensures FlatIndex(cols, 0, cols) == FlatIndex(cols, 1, 0)
  {
  }

  /** The strict guard admits a subset of what the guard as written admits,
      and every cell it admits is inside the buffer. */
  lemma InBoundsIsSafe(rows: nat, cols: nat, r: nat, c: nat)
    requires InBounds(rows, cols, r, c)
    ensures AtGuardAsWritten(rows, cols, r, c)
    ensures FlatIndex(cols, r, c) < rows * cols
  {
    FlatIndexInRange(rows, cols, r, c);
  }

  /** The positions a row-major loop nest over the first n rows writes, in
      the order it writes them. */
  function RowMajorPositions(cols: nat, n: nat): seq<int>
  {
    if n == 0 then [] else RowMajorPositions(cols, n - 1) + seq(cols, c requires 0 <= c < cols => FlatIndex(cols, n - 1, c))
  }

  /** A row-major loop nest over rows x cols cells writes the positions
      0, 1, ..., rows * cols - 1 in that order: every position of the buffer
      exactly once, and no position outside it. */
  lemma {:induction false} RowMajorPositionsAreConsecutive(cols: nat, n: nat)
    ensures RowMajorPositions(cols, n) == seq(n * cols, k => k)
  {
    if n > 0 {
      RowMajorPositionsAreConsecutive(cols, n - 1);
      var m := (n - 1) * cols;
      assert n * cols == m + cols;
      var ps := RowMajorPositions(cols, n);
      assert |ps| == n * cols;
      forall k | 0 <= k < n * cols
        ensures ps[k] == k
      {
        if k >= m {
          assert ps[k] == FlatIndex(cols, n - 1, k - m);
        }
      }
    }
  }
}
