/** What the expression nodes compute, stated against independent
    definitions and as algebraic laws the nodes satisfy. */
module Algebra {
  import opened Layout
  import opened Expressions

  /** Dot product of two equally long vectors, summed from the front. */
  function DotProduct(u: seq<int>, v: seq<int>): int
    requires |u| == |v|
  {
    if |u| == 0 then 0 else u[0] * v[0] + DotProduct(u[1..], v[1..])
  }

  /** Row r of an expression. */
  function RowOf(e: Expr, r: nat): (row: seq<int>)
    requires WellShaped(e) && r < Rows(e)
    ensures |row| == Cols(e)
    ensures forall k | 0 <= k < Cols(e) :: row[k] == ValueAt(e, r, k)
  {
    seq(Cols(e), k requires 0 <= k < Cols(e) => ValueAt(e, r, k))
  }

  /** Column c of an expression. */
  function ColOf(e: Expr, c: nat): (col: seq<int>)
    requires WellShaped(e) && c < Cols(e)
    ensures |col| == Rows(e)
    ensures forall k | 0 <= k < Rows(e) :: col[k] == ValueAt(e, k, c)
  {
    seq(Rows(e), k requires 0 <= k < Rows(e) => ValueAt(e, k, c))
  }

  /** Extending both vectors by one element adds one product to the sum. */
  lemma {:induction false} DotProductSnoc(u: seq<int>, v: seq<int>, x: int, y: int)
    requires |u| == |v|
    ensures DotProduct(u + [x], v + [y]) == DotProduct(u, v) + x * y
  {
    if |u| > 0 {
      assert (u + [x])[1..] == u[1..] + [x];
      assert (v + [y])[1..] == v[1..] + [y];
      DotProductSnoc(u[1..], v[1..], x, y);
    }
  }

  /** The product's loop accumulates the dot product of prefixes. */
  lemma {:induction false} DotIsPrefixDotProduct(e: Expr, r: nat, c: nat, k: nat)
    requires e.MatMul? && WellShaped(e) && r < Rows(e) && c < Cols(e)
    requires k <= Cols(e.lhs)
    ensures Dot(e, r, c, k) == DotProduct(RowOf(e.lhs, r)[..k], ColOf(e.rhs, c)[..k])
  {
    if k > 0 {
      var u, v := RowOf(e.lhs, r), ColOf(e.rhs, c);
      DotIsPrefixDotProduct(e, r, c, k - 1);
      assert u[..k] == u[..k - 1] + [u[k - 1]];
      assert v[..k] == v[..k - 1] + [v[k - 1]];
      DotProductSnoc(u[..k - 1], v[..k - 1], u[k - 1], v[k - 1]);
    }
  }

  /** Cell (r, c) of a matrix product is the dot product of row r of the
      left operand with column c of the right operand. */
  lemma MatMulIsDotProduct(a: Expr, b: Expr, r: nat, c: nat)
    requires WellShaped(a) && WellShaped(b) && Cols(a) == Rows(b)
    requires r < Rows(a) && c < Cols(b)
    ensures WellShaped(MatMul(a, b))
    ensures ValueAt(MatMul(a, b), r, c) == DotProduct(RowOf(a, r), ColOf(b, c))
  {
    var e := MatMul(a, b);
    DotIsPrefixDotProduct(e, r, c, Cols(a));
    assert RowOf(a, r)[..Cols(a)] == RowOf(a, r);
    assert ColOf(b, c)[..Cols(a)] == ColOf(b, c);
  }

  /** Prefix sums of A * (B + C) split into those of A * B and A * C. */
  lemma {:induction false} DotDistributes(a: Expr, b: Expr, d: Expr, r: nat, c: nat, k: nat)
    requires WellShaped(a) && WellShaped(b) && WellShaped(d)
    requires Cols(a) == Rows(b) && Rows(b) == Rows(d) && Cols(b) == Cols(d)
    requires r < Rows(a) && c < Cols(b) && k <= Cols(a)
    ensures WellShaped(MatMul(a, Sum(b, d))) && WellShaped(MatMul(a, b)) && WellShaped(MatMul(a, d))
    ensures Dot(MatMul(a, Sum(b, d)), r, c, k) == Dot(MatMul(a, b), r, c, k) + Dot(MatMul(a, d), r, c, k)
  {
    if k > 0 {
      DotDistributes(a, b, d, r, c, k - 1);
      var x := ValueAt(a, r, k - 1);
      assert x * (ValueAt(b, k - 1, c) + ValueAt(d, k - 1, c))
          == x * ValueAt(b, k - 1, c) + x * ValueAt(d, k - 1, c);
    }
  }

  /** A * (B + C) == A * B + A * C, cell by cell. */
  lemma MatMulDistributesOverSum(a: Expr, b: Expr, d: Expr)
    requires WellShaped(a) && WellShaped(b) && WellShaped(d)
    requires Cols(a) == Rows(b) && Rows(b) == Rows(d) && Cols(b) == Cols(d)
    ensures WellShaped(MatMul(a, Sum(b, d)))
    ensures WellShaped(Sum(MatMul(a, b), MatMul(a, d)))
    ensures SameValues(MatMul(a, Sum(b, d)), Sum(MatMul(a, b), MatMul(a, d)))
  {
    assert WellShaped(MatMul(a, b)) && WellShaped(MatMul(a, d));
    assert WellShaped(Sum(MatMul(a, b), MatMul(a, d)));
    forall r: nat, c: nat | r < Rows(a) && c < Cols(b)
      ensures ValueAt(MatMul(a, Sum(b, d)), r, c) == ValueAt(Sum(MatMul(a, b), MatMul(a, d)), r, c)
    {
      DotDistributes(a, b, d, r, c, Cols(a));
      assert ValueAt(Sum(MatMul(a, b), MatMul(a, d)), r, c)
          == Dot(MatMul(a, b), r, c, Cols(a)) + Dot(MatMul(a, d), r, c, Cols(a));
    }
  }

  /** Prefix sums of (s * A) * B are s times those of A * B. */
  lemma {:induction false} DotScales(s: int, a: Expr, b: Expr, r: nat, c: nat, k: nat)
    requires WellShaped(MatMul(ScalL(s, a), b))
    requires r < Rows(a) && c < Cols(b) && k <= Cols(a)
    ensures WellShaped(MatMul(a, b))
    ensures Dot(MatMul(ScalL(s, a), b), r, c, k) == s * Dot(MatMul(a, b), r, c, k)
  {
    if k > 0 {
      DotScales(s, a, b, r, c, k - 1);
      var x, y := ValueAt(a, r, k - 1), ValueAt(b, k - 1, c);
      assert (s * x) * y == s * (x * y);
      assert s * Dot(MatMul(a, b), r, c, k - 1) + s * (x * y) == s * (Dot(MatMul(a, b), r, c, k - 1) + x * y);
    }
  }

  /** (s * A) * B == s * (A * B), cell by cell: a scalar factor can be moved
      out of a matrix product. */
  lemma ScalarCommutesWithMatMul(s: int, a: Expr, b: Expr)
    requires WellShaped(a) && WellShaped(b) && Cols(a) == Rows(b)
    ensures WellShaped(MatMul(ScalL(s, a), b)) && WellShaped(ScalL(s, MatMul(a, b)))
    ensures SameValues(MatMul(ScalL(s, a), b), ScalL(s, MatMul(a, b)))
  {
    forall r: nat, c: nat | r < Rows(a) && c < Cols(b)
      ensures ValueAt(MatMul(ScalL(s, a), b), r, c) == ValueAt(ScalL(s, MatMul(a, b)), r, c)
    {
      DotScales(s, a, b, r, c, Cols(a));
    }
  }

  /** s * M and M * s build different nodes with the same shape and the same
      value in every cell. */
  lemma ScalarSidesAgree(s: int, m: Expr)
    requires WellShaped(m)
    ensures Times(Scalar(s), Expression(m)).Ok? && Times(Expression(m), Scalar(s)).Ok?
    ensures Times(Scalar(s), Expression(m)).value != Times(Expression(m), Scalar(s)).value
    ensures WellShaped(Times(Scalar(s), Expression(m)).value)
    ensures WellShaped(Times(Expression(m), Scalar(s)).value)
    ensures SameValues(Times(Scalar(s), Expression(m)).value, Times(Expression(m), Scalar(s)).value)
  {
  }

  /** A - B and B - A are negations of each other in every cell. */
  lemma SubAntisymmetric(a: Expr, b: Expr)
    requires WellShaped(a) && WellShaped(b) && Rows(a) == Rows(b) && Cols(a) == Cols(b)
    ensures WellShaped(Sub(a, b)) && WellShaped(Sub(b, a))
    ensures SameValues(Sub(a, b), ScalL(-1, Sub(b, a)))
  {
  }

  /** (A + B) + C and A + (B + C) agree in every cell. */
  lemma SumAssociative(a: Expr, b: Expr, d: Expr)
    requires WellShaped(a) && WellShaped(b) && WellShaped(d)
    requires Rows(a) == Rows(b) == Rows(d) && Cols(a) == Cols(b) == Cols(d)
    ensures WellShaped(Sum(Sum(a, b), d)) && WellShaped(Sum(a, Sum(b, d)))
    ensures SameValues(Sum(Sum(a, b), d), Sum(a, Sum(b, d)))
  {
  }
}
