/** The concrete matrix: the one entity that owns storage. Its shape is fixed
    when it is built and its elements live in one row-major buffer. */
module Matrices {
  import opened Layout
  import opened Expressions

  class Matrix {
    const rows: nat
    const cols: nat
    const data: array<int>

    /** The buffer holds exactly one element per cell. */
    predicate Valid()
    {
      data.Length == rows * cols
    }

    /** The matrix as a value, the way an expression leaf over it reads it. */
    function Snapshot(): (g: Grid)
      reads data
      requires Valid()
      ensures g.WellFormed() && g.rows == rows && g.cols == cols
    {
      Grid(rows, cols, data[..])
    }

    /** The matrix used as an operand of `+`, `-` or `*`: a leaf whose shape
        is the matrix's and whose cells are the matrix's elements. */
    function AsExpr(): (e: Expr)
      reads data
      requires Valid()
      ensures WellShaped(e) && Rows(e) == rows && Cols(e) == cols
      ensures forall r: nat, c: nat | r < rows && c < cols :: ValueAt(e, r, c) == At(r, c)
    {
      Leaf(Snapshot())
    }

    /** The default constructor: an empty 0 x 0 matrix. */
    constructor ()
      ensures Valid() && rows == 0 && cols == 0 && data.Length == 0
      ensures fresh(data)
    {
      rows, cols := 0, 0;
      data := new int[0];
    }

    /** Builds a matrix from its shape and a row-major copy of its elements. */
    constructor FromData(rows: nat, columns: nat, values: seq<int>)
      requires |values| == rows * columns
      ensures Valid() && this.rows == rows && cols == columns
      ensures data[..] == values
      ensures forall r: nat, c: nat | r < rows && c < columns :: At(r, c) == values[CellIndex(rows, columns, r, c)]
      ensures fresh(data)
    {
      this.rows, this.cols := rows, columns;
      data := new int[|values|](k requires 0 <= k < |values| => values[k]);
      new;
      assert data[..] == values;
    }

    /** Builds a matrix from a non-empty list of rows that all have the
        length of the first one, writing each element through `Set`. */
    constructor FromRows(list: seq<seq<int>>)
      requires |list| > 0
      requires forall i | 0 <= i < |list| :: |list[i]| == |list[0]|
      ensures Valid() && rows == |list| && cols == |list[0]|
      ensures forall r: nat, c: nat | r < rows && c < cols :: At(r, c) == list[r][c]
      ensures fresh(data)
    {
      rows, cols := |list|, |list[0]|;
      data := new int[|list| * |list[0]|];
      new;
      var curRow := 0;
      while curRow < |list|
        invariant 0 <= curRow <= rows
        invariant forall r: nat, c: nat | r < curRow && c < cols :: At(r, c) == list[r][c]
      {
        var row := list[curRow];
        var curCol := 0;
        while curCol < |row|
          invariant 0 <= curCol <= cols
          invariant forall r: nat, c: nat | r < curRow && c < cols :: At(r, c) == list[r][c]
          invariant forall c: nat | c < curCol :: At(curRow, c) == list[curRow][c]
        {
          Set(curRow, curCol, row[curCol]);
          curCol := curCol + 1;
        }
        curRow := curRow + 1;
      }
    }

    /** Reading `at`: the element at (r, c), stored at position r * cols + c,
        which lies inside the buffer. */
    function At(r: nat, c: nat): (v: int)
      reads data
      requires Valid() && InBounds(rows, cols, r, c)
      ensures FlatIndex(cols, r, c) < data.Length && v == data[FlatIndex(cols, r, c)]
    {
      data[CellIndex(rows, cols, r, c)]
    }

    /** Writing through the reference `at` returns: cell (r, c) becomes v and
        every other cell keeps its element. */
    method Set(r: nat, c: nat, v: int)
      requires Valid() && InBounds(rows, cols, r, c)
      modifies data
      ensures data[..] == old(data[..])[CellIndex(rows, cols, r, c) := v]
      ensures At(r, c) == v
      ensures forall i: nat, j: nat | InBounds(rows, cols, i, j) && (i != r || j != c) :: At(i, j) == old(At(i, j))
    {
      data[CellIndex(rows, cols, r, c)] := v;
      forall i: nat, j: nat | InBounds(rows, cols, i, j) && (i != r || j != c)
        ensures At(i, j) == old(At(i, j))
      {
        if FlatIndex(cols, i, j) == FlatIndex(cols, r, c) {
          FlatIndexInjective(cols, i, j, r, c);
        }
      }
    }

    /** `max`: the largest element, found by one pass over the buffer that
        starts from its first element. It needs at least one element. */
    method Max() returns (m: int)
      requires Valid() && data.Length > 0
      ensures m in data[..]
      ensures forall k | 0 <= k < data.Length :: data[k] <= m
    {
      m := data[0];
      for k := 0 to data.Length
        invariant m in data[..]
        invariant forall t | 0 <= t < k :: data[t] <= m
      {
        m := if m > data[k] then m else data[k];
      }
    }

    /** The evaluator: builds a matrix with the expression's shape and fills
        every cell once, in row-major order, from the expression's `at`. The
        ghost trace `written` records the position of every write.
        Reading the result back gives the expression's value in every cell. */
    constructor FromExpr(e: Expr)
      requires WellShaped(e)
      ensures Valid() && rows == Rows(e) && cols == Cols(e)
      ensures forall i: nat, j: nat | i < rows && j < cols :: At(i, j) == ValueAt(e, i, j)
      ensures SameValues(AsExpr(), e)
      ensures fresh(data)
    {
      rows, cols := Rows(e), Cols(e);
      data := new int[Rows(e) * Cols(e)];
      new;
      ghost var written: seq<int> := [];
      for i := 0 to rows
        invariant FilledBefore(data[..], e, i, 0)
        invariant written == RowMajorPositions(cols, i)
      {
        for j := 0 to cols
          invariant FilledBefore(data[..], e, i, j)
          invariant written == RowMajorPositions(cols, i) + seq(j, c requires 0 <= c < j => FlatIndex(cols, i, c))
        {
          var v := Expressions.At(e, i, j);
          ghost var before := data[..];
          data[CellIndex(rows, cols, i, j)] := v;
          written := written + [CellIndex(rows, cols, i, j)];
          assert data[..] == before[CellIndex(rows, cols, i, j) := v];
          FillStep(before, e, i, j, v);
        }
      }
      // The positions written, in order, are 0, 1, ..., rows * cols - 1.
      RowMajorPositionsAreConsecutive(cols, rows);
      assert written == seq(rows * cols, k => k);
    }

    /** Corrected `+=`: adds `other` into this matrix cell by cell, in place,
        when the shapes agree; otherwise changes nothing. */
    method AddAssign(other: Matrix) returns (ok: bool)
      requires Valid() && other.Valid()
      modifies data
      ensures ok <==> rows == other.rows && cols == other.cols
      ensures !ok ==> data[..] == old(data[..])
      ensures ok ==> forall r: nat, c: nat | r < rows && c < cols ::
        At(r, c) == old(At(r, c)) + old(other.At(r, c))
    {
      ok := rows == other.rows && cols == other.cols;
      if ok {
        for k := 0 to data.Length
          invariant forall t | 0 <= t < k :: data[t] == old(data[t]) + old(other.data[t])
          invariant forall t | k <= t < data.Length :: data[t] == old(data[t])
          invariant forall t | k <= t < other.data.Length :: other.data[t] == old(other.data[t])
        {
          data[k] := data[k] + other.data[k];
        }
      }
    }

    /** Corrected `-=`: subtracts `other` from this matrix cell by cell, in
        place, when the shapes agree; otherwise changes nothing. */
    method SubAssign(other: Matrix) returns (ok: bool)
      requires Valid() && other.Valid()
      modifies data
      ensures ok <==> rows == other.rows && cols == other.cols
      ensures !ok ==> data[..] == old(data[..])
      ensures ok ==> forall r: nat, c: nat | r < rows && c < cols ::
        At(r, c) == old(At(r, c)) - old(other.At(r, c))
    {
      ok := rows == other.rows && cols == other.cols;
      if ok {
        for k := 0 to data.Length
          invariant forall t | 0 <= t < k :: data[t] == old(data[t]) - old(other.data[t])
          invariant forall t | k <= t < data.Length :: data[t] == old(data[t])
          invariant forall t | k <= t < other.data.Length :: other.data[t] == old(other.data[t])
        {
          data[k] := data[k] - other.data[k];
        }
      }
    }

    /** Corrected `*=` by a scalar: multiplies every cell by s in place. */
    method ScaleAssign(s: int)
      requires Valid()
      modifies data
      ensures forall r: nat, c: nat | r < rows && c < cols :: At(r, c) == s * old(At(r, c))
    {
      for k := 0 to data.Length
        invariant forall t | 0 <= t < k :: data[t] == s * old(data[t])
        invariant forall t | k <= t < data.Length :: data[t] == old(data[t])
      {
        data[k] := s * data[k];
      }
    }
  }

  /** Row-major order on cells: (r, c) is visited before (i, j). */
  predicate Before(r: nat, c: nat, i: nat, j: nat)
  {
    r < i || (r == i && c < j)
  }

  /** Every cell visited before (i, j) holds the expression's value at the
      position the evaluator writes it to. */
  ghost predicate FilledBefore(s: seq<int>, e: Expr, i: nat, j: nat)
    requires WellShaped(e) && |s| == Rows(e) * Cols(e)
  {
    forall r: nat, c: nat | InBounds(Rows(e), Cols(e), r, c) && Before(r, c, i, j) ::
      s[CellIndex(Rows(e), Cols(e), r, c)] == ValueAt(e, r, c)
  }

  /** Writing the value of cell (i, j) at its position extends the filled
      part by that cell and leaves every earlier cell as it was: the
      position of (i, j) is beyond that of every earlier cell, so no cell is
      written twice. */
  lemma FillStep(s: seq<int>, e: Expr, i: nat, j: nat, v: int)
    requires WellShaped(e) && |s| == Rows(e) * Cols(e)
    requires InBounds(Rows(e), Cols(e), i, j) && v == ValueAt(e, i, j)
    requires FilledBefore(s, e, i, j)
    ensures FilledBefore(s[CellIndex(Rows(e), Cols(e), i, j) := v], e, i, j + 1)
    ensures j + 1 == Cols(e) ==> FilledBefore(s[CellIndex(Rows(e), Cols(e), i, j) := v], e, i + 1, 0)
  {
    var rows, cols := Rows(e), Cols(e);
    var s' := s[CellIndex(rows, cols, i, j) := v];
    forall r: nat, c: nat | InBounds(rows, cols, r, c) && Before(r, c, i, j + 1)
      ensures s'[CellIndex(rows, cols, r, c)] == ValueAt(e, r, c)
    {
      if Before(r, c, i, j) {
        FlatIndexMonotone(cols, r, c, i, j);
      }
    }
  }
}
