/** Lazy matrix expressions: the nodes `+`, `-` and `*` build over concrete
    matrices and scalars, the shape each node fixes when it is built, and the
    value each node computes for a cell on demand. */
module Expressions {
  import opened Layout

  /** The value of a concrete matrix as an expression leaf sees it: its shape
      and its row-major buffer. */
  datatype Grid = Grid(rows: nat, cols: nat, data: seq<int>) {
    predicate WellFormed()
    {
      |data| == rows * cols
    }

    /** The element at (r, c) of a well-formed grid. */
    function Cell(r: nat, c: nat): int
      requires WellFormed() && InBounds(rows, cols, r, c)
    {
      data[CellIndex(rows, cols, r, c)]
    }
  }

  /** An expression tree. `Leaf` is a concrete matrix; `Sum` and `Sub` are
      elementwise; `MatMul` is the matrix x matrix product; `ScalL` is
      scalar x matrix and `ScalR` is matrix x scalar. */
  datatype Expr =
    | Leaf(grid: Grid)
    | Sum(lhs: Expr, rhs: Expr)
    | Sub(lhs: Expr, rhs: Expr)
    | MatMul(lhs: Expr, rhs: Expr)
    | ScalL(scalar: int, rhs: Expr)
    | ScalR(lhs: Expr, scalar: int)

  /** An operand of `*`: a scalar, or anything with a shape and cells. */
  datatype Operand = Scalar(value: int) | Expression(expr: Expr)

  /** Why building a node failed: the two operand shapes. */
  datatype ShapeError = ShapeMismatch(lhsRows: nat, lhsCols: nat, rhsRows: nat, rhsCols: nat)

  datatype Result<T> = Ok(value: T) | Err(error: ShapeError)

  /** Number of rows each node fixes when it is built. */
  function Rows(e: Expr): nat
  {
    match e
    case Leaf(g) => g.rows
    case Sum(a, _) => Rows(a)
    case Sub(a, _) => Rows(a)
    case MatMul(a, _) => Rows(a)
    case ScalL(_, b) => Rows(b)
    case ScalR(a, _) => Rows(a)
  }

  /** Number of columns each node fixes when it is built. */
  function Cols(e: Expr): nat
  {
    match e
    case Leaf(g) => g.cols
    case Sum(a, _) => Cols(a)
    case Sub(a, _) => Cols(a)
    case MatMul(_, b) => Cols(b)
    case ScalL(_, b) => Cols(b)
    case ScalR(a, _) => Cols(a)
  }

  /** The shape checks every node's constructor makes, holding throughout the
      tree, and every leaf buffer holding rows * cols elements. */
  predicate WellShaped(e: Expr)
  {
    match e
    case Leaf(g) => g.WellFormed()
    case Sum(a, b) => WellShaped(a) && WellShaped(b) && Rows(a) == Rows(b) && Cols(a) == Cols(b)
    case Sub(a, b) => WellShaped(a) && WellShaped(b) && Rows(a) == Rows(b) && Cols(a) == Cols(b)
    case MatMul(a, b) => WellShaped(a) && WellShaped(b) && Cols(a) == Rows(b)
    case ScalL(_, b) => WellShaped(b)
    case ScalR(a, _) => WellShaped(a)
  }

  /** The value of cell (r, c) of an expression. */
  function ValueAt(e: Expr, r: nat, c: nat): int
    requires WellShaped(e) && r < Rows(e) && c < Cols(e)
    decreases e, 1
  {
    match e
    case Leaf(g) => g.Cell(r, c)
    case Sum(a, b) => ValueAt(a, r, c) + ValueAt(b, r, c)
    case Sub(a, b) => ValueAt(a, r, c) - ValueAt(b, r, c)
    case MatMul(a, _) => Dot(e, r, c, Cols(a))
    case ScalL(s, b) => s * ValueAt(b, r, c)
    case ScalR(a, s) => s * ValueAt(a, r, c)
  }

  /** The first k terms of the dot product of row r of a product's left
      operand with column c of its right operand. */
  function Dot(e: Expr, r: nat, c: nat, k: nat): int
    requires e.MatMul? && WellShaped(e) && r < Rows(e) && c < Cols(e)
    requires k <= Cols(e.lhs)
    decreases e, 0, k
  {
    if k == 0 then 0
    else Dot(e, r, c, k - 1) + ValueAt(e.lhs, r, k - 1) * ValueAt(e.rhs, k - 1, c)
  }

  /** Two expressions have the same shape and agree on every cell. */
  ghost predicate SameValues(x: Expr, y: Expr)
    requires WellShaped(x) && WellShaped(y)
  {
    && Rows(x) == Rows(y)
    && Cols(x) == Cols(y)
    && forall r: nat, c: nat | r < Rows(x) && c < Cols(x) :: ValueAt(x, r, c) == ValueAt(y, r, c)
  }

  /** `operator+`: builds a sum node, whose constructor asserts that both
      operands have the same shape. */
  function Plus(lhs: Expr, rhs: Expr): (r: Result<Expr>)
    ensures r.Ok? <==> Rows(lhs) == Rows(rhs) && Cols(lhs) == Cols(rhs)
    ensures r.Err? ==> r.error == ShapeMismatch(Rows(lhs), Cols(lhs), Rows(rhs), Cols(rhs))
    ensures r.Ok? ==> Rows(r.value) == Rows(lhs) && Cols(r.value) == Cols(lhs)
    ensures r.Ok? && WellShaped(lhs) && WellShaped(rhs) ==>
      && WellShaped(r.value)
      && forall i: nat, j: nat | i < Rows(lhs) && j < Cols(lhs) ::
           ValueAt(r.value, i, j) == ValueAt(lhs, i, j) + ValueAt(rhs, i, j)
  {
    if Rows(lhs) == Rows(rhs) && Cols(lhs) == Cols(rhs) then Ok(Sum(lhs, rhs))
    else Err(ShapeMismatch(Rows(lhs), Cols(lhs), Rows(rhs), Cols(rhs)))
  }

  /** `operator+=`: takes its left operand by constant reference and returns
      the node `operator+` returns. */
  function PlusAssign(lhs: Expr, rhs: Expr): (r: Result<Expr>)
    ensures r == Plus(lhs, rhs)
  {
    Plus(lhs, rhs)
  }

  /** `operator-`: builds a difference node, whose constructor asserts that
      both operands have the same shape. */
  function Minus(lhs: Expr, rhs: Expr): (r: Result<Expr>)
    ensures r.Ok? <==> Rows(lhs) == Rows(rhs) && Cols(lhs) == Cols(rhs)
    ensures r.Err? ==> r.error == ShapeMismatch(Rows(lhs), Cols(lhs), Rows(rhs), Cols(rhs))
    ensures r.Ok? ==> Rows(r.value) == Rows(lhs) && Cols(r.value) == Cols(lhs)
    ensures r.Ok? && WellShaped(lhs) && WellShaped(rhs) ==>
      && WellShaped(r.value)
      && forall i: nat, j: nat | i < Rows(lhs) && j < Cols(lhs) ::
           ValueAt(r.value, i, j) == ValueAt(lhs, i, j) - ValueAt(rhs, i, j)
  {
    if Rows(lhs) == Rows(rhs) && Cols(lhs) == Cols(rhs) then Ok(Sub(lhs, rhs))
    else Err(ShapeMismatch(Rows(lhs), Cols(lhs), Rows(rhs), Cols(rhs)))
  }

  /** `operator-=`: takes its left operand by constant reference and returns
      the node `operator-` returns. */
  function MinusAssign(lhs: Expr, rhs: Expr): (r: Result<Expr>)
    ensures r == Minus(lhs, rhs)
  {
    Minus(lhs, rhs)
  }

  /** `operator*`: the variant is chosen by which operand is a scalar. Two
      expressions make a matrix product, whose constructor asserts that the
      left operand has as many columns as the right one has rows; a scalar on
      either side scales the other operand, which keeps its shape. A 1 x 1
      matrix is an expression, never a scalar. Two scalars never reach this
      operator: they multiply as plain numbers. */
  function Times(lhs: Operand, rhs: Operand): (r: Result<Expr>)
    requires lhs.Expression? || rhs.Expression?
    ensures r.Err? <==> lhs.Expression? && rhs.Expression? && Cols(lhs.expr) != Rows(rhs.expr)
    ensures r.Err? ==> r.error == ShapeMismatch(Rows(lhs.expr), Cols(lhs.expr), Rows(rhs.expr), Cols(rhs.expr))
    ensures r.Ok? && lhs.Expression? && rhs.Expression? ==>
      r.value == MatMul(lhs.expr, rhs.expr) && Rows(r.value) == Rows(lhs.expr) && Cols(r.value) == Cols(rhs.expr)
    ensures lhs.Scalar? ==> r.Ok? && Rows(r.value) == Rows(rhs.expr) && Cols(r.value) == Cols(rhs.expr)
    ensures rhs.Scalar? ==> r.Ok? && Rows(r.value) == Rows(lhs.expr) && Cols(r.value) == Cols(lhs.expr)
    ensures r.Ok? ==> (WellShaped(r.value) <==>
      (lhs.Expression? ==> WellShaped(lhs.expr)) && (rhs.Expression? ==> WellShaped(rhs.expr)))
    ensures lhs.Scalar? && WellShaped(rhs.expr) ==>
      forall i: nat, j: nat | i < Rows(rhs.expr) && j < Cols(rhs.expr) ::
        ValueAt(r.value, i, j) == lhs.value * ValueAt(rhs.expr, i, j)
    ensures rhs.Scalar? && WellShaped(lhs.expr) ==>
      forall i: nat, j: nat | i < Rows(lhs.expr) && j < Cols(lhs.expr) ::
        ValueAt(r.value, i, j) == rhs.value * ValueAt(lhs.expr, i, j)
  {
    match (lhs, rhs)
    case (Scalar(s), Expression(b)) => Ok(ScalL(s, b))
    case (Expression(a), Scalar(s)) => Ok(ScalR(a, s))
    case (Expression(a), Expression(b)) =>
      if Cols(a) == Rows(b) then Ok(MatMul(a, b))
      else Err(ShapeMismatch(Rows(a), Cols(a), Rows(b), Cols(b)))
  }

  /** `operator*=`: takes its left operand by constant reference and returns
      the node `operator*` returns. */
  function TimesAssign(lhs: Operand, rhs: Operand): (r: Result<Expr>)
    requires lhs.Expression? || rhs.Expression?
    ensures r == Times(lhs, rhs)
  {
    Times(lhs, rhs)
  }

  /** `at` on a node, computed on demand from the operands' `at`; the matrix
      product accumulates its dot product in a loop over the shared
      dimension. */
  method At(e: Expr, r: nat, c: nat) returns (v: int)
    requires WellShaped(e) && r < Rows(e) && c < Cols(e)
    ensures v == ValueAt(e, r, c)
    decreases e
  {
    match e
    case Leaf(g) =>
      v := g.data[CellIndex(g.rows, g.cols, r, c)];
    case Sum(a, b) =>
      var x := At(a, r, c);
      var y := At(b, r, c);
      v := x + y;
    case Sub(a, b) =>
      var x := At(a, r, c);
      var y := At(b, r, c);
      v := x - y;
    case MatMul(a, b) =>
      var sharedDim := Cols(a);
      var dotProduct := 0;
      for i := 0 to sharedDim
        invariant dotProduct == Dot(e, r, c, i)
      {
        var x := At(a, r, i);
        var y := At(b, i, c);
        dotProduct := dotProduct + x * y;
      }
      v := dotProduct;
    case ScalL(s, b) =>
      var y := At(b, r, c);
      v := s * y;
    case ScalR(a, s) =>
      var x := At(a, r, c);
      v := s * x;
  }
}
