/** Worked examples on small matrices (1 x 1, 1 x 2 and 2 x 2): the values
    the operators give, the shape errors they report, and what the compound
    operators leave in their left operand. */
module Scenarios {
  import opened Layout
  import opened Expressions

  /** The four cells of a 2 x 2 expression in row-major order. */
  function Cells2x2(e: Expr): seq<int>
    requires WellShaped(e) && Rows(e) == 2 && Cols(e) == 2
  {
    [ValueAt(e, 0, 0), ValueAt(e, 0, 1), ValueAt(e, 1, 0), ValueAt(e, 1, 1)]
  }

  /** A 2 x 2 leaf reads its buffer in row-major order. */
  lemma TwoByTwoLeaf(g: Grid)
    requires g.rows == 2 && g.cols == 2 && |g.data| == 4
    ensures WellShaped(Leaf(g)) && Rows(Leaf(g)) == 2 && Cols(Leaf(g)) == 2
    ensures Cells2x2(Leaf(g)) == g.data
  {
    assert FlatIndex(2, 1, 1) == 3;
  }

  /** With a shared dimension of two, a product cell is the sum of two
      products. */
  lemma SharedDimTwo(a: Expr, b: Expr, r: nat, c: nat)
    requires WellShaped(a) && WellShaped(b) && Cols(a) == 2 && Rows(b) == 2
    requires r < Rows(a) && c < Cols(b)
    ensures WellShaped(MatMul(a, b))
    ensures ValueAt(MatMul(a, b), r, c) == ValueAt(a, r, 0) * ValueAt(b, 0, c) + ValueAt(a, r, 1) * ValueAt(b, 1, c)
  {
    assert Dot(MatMul(a, b), r, c, 1) == ValueAt(a, r, 0) * ValueAt(b, 0, c);
  }

  /** A = [[1, 2], [3, 4]] and B = [[5, 6], [7, 8]] give A + B = [[6, 8], [10, 12]],
      A - B = [[-4, -4], [-4, -4]] and A * B = [[19, 22], [43, 50]]. */
  lemma SumSubProductOfTwoByTwo(ga: Grid, gb: Grid)
    requires ga.rows == 2 && ga.cols == 2 && ga.data == [1, 2, 3, 4]
    requires gb.rows == 2 && gb.cols == 2 && gb.data == [5, 6, 7, 8]
    ensures Plus(Leaf(ga), Leaf(gb)).Ok? && Minus(Leaf(ga), Leaf(gb)).Ok?
    ensures Times(Expression(Leaf(ga)), Expression(Leaf(gb))).Ok?
    ensures WellShaped(Leaf(ga)) && WellShaped(Leaf(gb))
    ensures Cells2x2(Plus(Leaf(ga), Leaf(gb)).value) == [6, 8, 10, 12]
    ensures Cells2x2(Minus(Leaf(ga), Leaf(gb)).value) == [-4, -4, -4, -4]
    ensures Cells2x2(Times(Expression(Leaf(ga)), Expression(Leaf(gb))).value) == [19, 22, 43, 50]
  {
    TwoByTwoLeaf(ga);
    TwoByTwoLeaf(gb);
    SharedDimTwo(Leaf(ga), Leaf(gb), 0, 0);
    SharedDimTwo(Leaf(ga), Leaf(gb), 0, 1);
    SharedDimTwo(Leaf(ga), Leaf(gb), 1, 0);
    SharedDimTwo(Leaf(ga), Leaf(gb), 1, 1);
  }

  /** A = [[1, 2], [3, 4]] and s = 10 give s * A = A * s = [[10, 20], [30, 40]]. */
  lemma ScalarTimesTwoByTwo(ga: Grid, s: int)
    requires ga.rows == 2 && ga.cols == 2 && ga.data == [1, 2, 3, 4] && s == 10
    ensures WellShaped(Leaf(ga))
    ensures Cells2x2(Times(Scalar(s), Expression(Leaf(ga))).value) == [10, 20, 30, 40]
    ensures Cells2x2(Times(Expression(Leaf(ga)), Scalar(s)).value) == [10, 20, 30, 40]
  {
    TwoByTwoLeaf(ga);
  }

  /** A 1 x 1 matrix is not a scalar: multiplying it with a 2 x 2 matrix, on
      either side, is a matrix product with mismatched shapes. */
  lemma OneByOneIsNotScalar(ga: Grid, gb: Grid)
    requires ga.rows == 1 && ga.cols == 1 && gb.rows == 2 && gb.cols == 2
    ensures Times(Expression(Leaf(ga)), Expression(Leaf(gb))) == Err(ShapeMismatch(1, 1, 2, 2))
    ensures Times(Expression(Leaf(gb)), Expression(Leaf(ga))) == Err(ShapeMismatch(2, 2, 1, 1))
  {
  }

  /** Building A + B or A - B where A has fewer rows than B fails before any
      cell is read. */
  lemma SumShapeMismatch(ga: Grid, gb: Grid)
    requires ga.rows == 1 && ga.cols == 2 && gb.rows == 2 && gb.cols == 2
    ensures Plus(Leaf(ga), Leaf(gb)) == Err(ShapeMismatch(1, 2, 2, 2))
    ensures Minus(Leaf(ga), Leaf(gb)) == Err(ShapeMismatch(1, 2, 2, 2))
  {
  }

  /** `operator+=` leaves its left operand as it was: for A = [[1]] the
      left operand still reads 1 after `A += A`, where a compound assignment
      would leave 2, the value in the node the operator returns. */
  lemma PlusAssignLeavesLhs(ga: Grid)
    requires ga.rows == 1 && ga.cols == 1 && ga.data == [1]
    ensures WellShaped(Leaf(ga)) && PlusAssign(Leaf(ga), Leaf(ga)).Ok?
    ensures WellShaped(PlusAssign(Leaf(ga), Leaf(ga)).value)
    ensures ValueAt(PlusAssign(Leaf(ga), Leaf(ga)).value, 0, 0) == 2
    ensures ValueAt(Leaf(ga), 0, 0) == 1
  {
    assert ValueAt(Leaf(ga), 0, 0) == ga.data[0];
  }

  /** `operator-=` leaves its left operand as it was: for A = [[5]] and
      B = [[2]] the left operand still reads 5 after `A -= B`, where a
      compound assignment would leave 3. */
  lemma MinusAssignLeavesLhs(ga: Grid, gb: Grid)
    requires ga.rows == 1 && ga.cols == 1 && ga.data == [5]
    requires gb.rows == 1 && gb.cols == 1 && gb.data == [2]
    ensures WellShaped(Leaf(ga)) && MinusAssign(Leaf(ga), Leaf(gb)).Ok?
    ensures WellShaped(MinusAssign(Leaf(ga), Leaf(gb)).value)
    ensures ValueAt(MinusAssign(Leaf(ga), Leaf(gb)).value, 0, 0) == 3
    ensures ValueAt(Leaf(ga), 0, 0) == 5
  {
    assert ValueAt(Leaf(ga), 0, 0) == ga.data[0];
    assert ValueAt(Leaf(gb), 0, 0) == gb.data[0];
  }

  /** `operator*=` leaves its left operand as it was: for A = [[2]] the
      left operand still reads 2 after `A *= 3`, where a compound assignment
      would leave 6. */
  lemma TimesAssignLeavesLhs(ga: Grid, s: int)
    requires ga.rows == 1 && ga.cols == 1 && ga.data == [2] && s == 3
    ensures WellShaped(Leaf(ga)) && TimesAssign(Expression(Leaf(ga)), Scalar(s)).Ok?
    ensures WellShaped(TimesAssign(Expression(Leaf(ga)), Scalar(s)).value)
    ensures ValueAt(TimesAssign(Expression(Leaf(ga)), Scalar(s)).value, 0, 0) == 6
    ensures ValueAt(Leaf(ga), 0, 0) == 2
  {
    assert ValueAt(Leaf(ga), 0, 0) == ga.data[0];
  }
}
