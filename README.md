# Lazy matrix expressions, modelled in Dafny

The library is a single C++ header, `matrix.hpp`. It defines a concrete
`matrix<T>` that stores `rows * cols` elements in one row-major buffer. It
also defines three lazy expression nodes: `matrix_sum`, `matrix_sub` and
`matrix_prod`. `matrix_prod` comes in three variants: matrix x matrix,
scalar x matrix and matrix x scalar. Writing `a + b * c` builds a tree of
nodes and computes nothing. A node's constructor checks the operand shapes
and fixes the node's own shape. A node computes a cell only when its `at`
is called. Constructing a `matrix` from an expression evaluates every cell
once, in row-major order, and stores the result.

The model has five modules:

- `Layout` (`layout.dfy`) is the row-major indexing `r * cols + c`. It holds:
  - the strict bounds an access needs, and the guard `at` asserts as written;
  - proofs that the index is in range, order-preserving, injective and onto;
  - the positions a row-major loop nest writes, proved to be `0, 1, ..., rows * cols - 1` in order. The evaluating constructor's loop records its writes in a ghost trace and is proved to write exactly this sequence, so each position is written exactly once.
- `Expressions` (`expressions.dfy`) is the expression tree as a datatype.
  - Each node's shape is given by `Rows`/`Cols`, its constructor checks by `WellShaped`, and its cell values by `ValueAt`/`Dot`.
  - The operators `+`, `-`, `*` and their compound forms become functions that return `Result<Expr>`. A failed shape assertion becomes a `ShapeMismatch` error.
  - The nodes' `at` is a recursive method whose matrix-product case is the source's accumulation loop, proved against `ValueAt`.
- `Algebra` (`algebra.dfy`) holds the laws the nodes satisfy:
  - a product cell against an independent dot-product definition;
  - distributivity of the product over sums;
  - a scalar moving out of a product;
  - both scalar variants agreeing;
  - antisymmetry of difference and associativity of sum.
- `Scenarios` (`scenarios.dfy`) works out concrete 1 x 1 and 2 x 2 examples. It also holds the counterexamples behind the findings below.
- `Matrices` (`matrix.dfy`) is the concrete `matrix` as a class over an `array<int>`. It has:
  - the constructors, `at` for reading and for writing, and `max`;
  - the evaluating constructor, proved to store exactly the expression's values;
  - corrected in-place `+=`, `-=` and `*=`.

A `Leaf` holds the *value* of the matrix it refers to (a `Grid`: shape plus
row-major buffer). The source holds a constant reference instead.

## Model

| member | source | states |
|---|---|---|
| Layout.CellIndex | matrix.hpp:84-94 | the position `at` computes for an in-bounds cell is `r * cols + c` and lies inside a buffer of `rows * cols` elements |
| Layout.CellOf | matrix.hpp:87 | every buffer position is the position of an in-bounds cell; it inverts the row-major index |
| Layout.CellIndexRoundTrip | matrix.hpp:87 | cell-to-position and position-to-cell are mutually inverse bijections between in-bounds cells and buffer positions |
| Layout.FlatIndexInRange | matrix.hpp:87 | an in-bounds cell's position is below `rows * cols` |
| Layout.FlatIndexMonotone | matrix.hpp:112-114 | a cell earlier in row-major order has a strictly smaller position |
| Layout.FlatIndexInjective | matrix.hpp:87 | distinct in-bounds cells never share a position |
| Layout.FlatIndexOnto | matrix.hpp:110-114 | each position `k < rows * cols` is the position of cell `(k / cols, k % cols)`, which is in bounds |
| Layout.RowMajorPositionsAreConsecutive | matrix.hpp:112-114 | the positions a row-major loop nest writes, which the evaluating constructor's ghost write trace is proved to equal, are exactly `0, 1, ..., rows * cols - 1`, in that order: each once |
| Layout.AtGuardAsWritten | matrix.hpp:85-92 | the guard (lines 85-86 and 91-92) `at` asserts as written: `col <= cols` and `row <= rows` |
| Layout.AtGuardAsWrittenAdmitsOutOfRange | matrix.hpp:84-94 | the `<=` guards admit `(rows, 0)`, whose position is past the end of the buffer, and `(0, cols)`, whose position is that of `(1, 0)` |
| Layout.InBoundsIsSafe | matrix.hpp:84-94 | the strict guard admits only cells the `<=` guard admits, and each lies inside the buffer |
| Expressions.Rows | matrix.hpp:130-247 | the number of rows each node's constructor fixes (lines 130, 162, 201, 226, 247): the left operand's for a sum, a difference, a matrix product and matrix x scalar; the matrix operand's for scalar x matrix |
| Expressions.Cols | matrix.hpp:131-248 | the number of columns each node's constructor fixes (lines 131, 163, 202, 227, 248): the left operand's for a sum, a difference and matrix x scalar; the right operand's for a matrix product and scalar x matrix |
| Expressions.WellShaped | matrix.hpp:128-200 | every node in the tree passed its constructor's shape assert (lines 128-129, 160-161, 200) (equal shapes for sum and difference, matching shared dimension for a product), and every leaf buffer holds `rows * cols` elements |
| Expressions.ValueAt | matrix.hpp:134-253 | the value each node's `at` gives a cell (lines 134-136, 166-168, 205-211, 230-232, 251-253): the leaf's buffer element, the sum or difference of the operands' cells, the accumulated dot product, or the scalar times the matrix operand's cell |
| Expressions.Dot | matrix.hpp:206-209 | the product's accumulator after `k` iterations: the sum of the first `k` products of row elements with column elements |
| Expressions.Plus | matrix.hpp:127-143 | a sum node is built exactly when the shapes agree, and otherwise fails with both shapes; its shape is the left operand's; it is well-shaped when its operands are; each cell is the sum of the operands' cells |
| Expressions.PlusAssign | matrix.hpp:145-148 | `+=` returns the same node as `+` |
| Expressions.Minus | matrix.hpp:159-175 | a difference node is built exactly when the shapes agree, and otherwise fails with both shapes; its shape is the left operand's; each cell is the difference of the operands' cells |
| Expressions.MinusAssign | matrix.hpp:177-180 | `-=` returns the same node as `-` |
| Expressions.Times | matrix.hpp:189-259 | two expressions form a product exactly when the left's columns equal the right's rows; the product has the left's rows and the right's columns; a scalar on either side always succeeds, keeps the matrix operand's shape and scales each cell; otherwise it fails with both shapes |
| Expressions.TimesAssign | matrix.hpp:261-264 | `*=` returns the same node as `*` |
| Expressions.At | matrix.hpp:25-27 | evaluating any node's `at` (a leaf's buffer read, elementwise sum or difference, the product's accumulation loop, scaling) yields the cell value `ValueAt` defines |
| Algebra.MatMulIsDotProduct | matrix.hpp:205-211 | a product cell `(r, c)` is the dot product of row `r` of the left operand with column `c` of the right operand |
| Algebra.DotIsPrefixDotProduct | matrix.hpp:206-209 | after `k` iterations the product's accumulator holds the dot product of the first `k` elements of the row and the column |
| Algebra.DotProductSnoc | matrix.hpp:208 | one more iteration adds exactly one product to the accumulated sum |
| Algebra.MatMulDistributesOverSum | matrix.hpp:205-211 | `A * (B + C)` and `A * B + A * C` are both well-shaped and agree in shape and in every cell |
| Algebra.DotDistributes | matrix.hpp:205-211 | the accumulated prefix sums of `A * (B + C)` are those of `A * B` plus those of `A * C` |
| Algebra.ScalarCommutesWithMatMul | matrix.hpp:205-232 | `(s * A) * B` and `s * (A * B)` agree in shape and in every cell |
| Algebra.DotScales | matrix.hpp:205-232 | the accumulated prefix sums of `(s * A) * B` are `s` times those of `A * B` |
| Algebra.ScalarSidesAgree | matrix.hpp:214-253 | `s * M` and `M * s` both succeed and build different nodes with the same shape and the same value in every cell |
| Algebra.SubAntisymmetric | matrix.hpp:159-168 | `A - B` agrees in every cell with `-1 * (B - A)` |
| Algebra.SumAssociative | matrix.hpp:127-136 | `(A + B) + C` and `A + (B + C)` agree in shape and in every cell |
| Scenarios.TwoByTwoLeaf | matrix.hpp:84-88 | a 2 x 2 matrix reads its buffer in row-major order |
| Scenarios.SharedDimTwo | matrix.hpp:205-211 | with a shared dimension of two, a product cell is the sum of two products |
| Scenarios.SumSubProductOfTwoByTwo | matrix.hpp:127-211 | `[[1,2],[3,4]]` and `[[5,6],[7,8]]` give sum `[[6,8],[10,12]]`, difference `[[-4,-4],[-4,-4]]` and product `[[19,22],[43,50]]` |
| Scenarios.ScalarTimesTwoByTwo | matrix.hpp:214-253 | `10 * [[1,2],[3,4]]` and `[[1,2],[3,4]] * 10` are both `[[10,20],[30,40]]` |
| Scenarios.OneByOneIsNotScalar | matrix.hpp:188-203 | a 1 x 1 matrix times a 2 x 2 matrix, on either side, is a matrix product and fails its shape check |
| Scenarios.SumShapeMismatch | matrix.hpp:127-132 | sum and difference of a 1 x 2 and a 2 x 2 matrix fail with both shapes |
| Scenarios.PlusAssignLeavesLhs | matrix.hpp:145-148 | after `A += A` with `A = [[1]]`, the returned node reads 2 while the left operand still reads 1 |
| Scenarios.MinusAssignLeavesLhs | matrix.hpp:177-180 | after `A -= B` with `A = [[5]]` and `B = [[2]]`, the returned node reads 3 while `A` still reads 5 |
| Scenarios.TimesAssignLeavesLhs | matrix.hpp:261-264 | after `A *= 3` with `A = [[2]]`, the returned node reads 6 while `A` still reads 2 |
| Matrices.Matrix.AsExpr | matrix.hpp:43-44 | a matrix used as an operand is a well-shaped leaf with the matrix's shape, whose cells are the matrix's elements |
| Matrices.Matrix.constructor | matrix.hpp:55 | the default constructor gives an empty 0 x 0 matrix |
| Matrices.Matrix.FromData | matrix.hpp:57-60 | the shape is the one given and the buffer is a copy of the data, so cell `(r, c)` is element `r * cols + c` |
| Matrices.Matrix.FromRows | matrix.hpp:64-82 | from a non-empty, rectangular list of rows: as many rows as the list, as many columns as its first row, and cell `(r, c)` is element `c` of row `r` |
| Matrices.Matrix.At | matrix.hpp:84-88 | reading `at` returns the buffer element at `r * cols + c`, which lies inside the buffer |
| Matrices.Matrix.Set | matrix.hpp:90-94 | writing through `at` changes cell `(r, c)` to the new value and no other cell |
| Matrices.Matrix.Max | matrix.hpp:96-102 | on a non-empty matrix, `max` returns an element of the matrix that no element exceeds |
| Matrices.Matrix.FromExpr | matrix.hpp:106-115 | evaluating an expression gives a matrix with the expression's shape whose every cell holds the expression's value; as an operand it agrees with the expression; its loop writes the positions `0, 1, ..., rows * cols - 1` in order, each once |
| Matrices.FillStep | matrix.hpp:112-114 | one step of the evaluation loop stores the current cell's value and leaves every earlier cell as it was |
| Matrices.Matrix.AddAssign | matrix.hpp:145-148 | corrected `+=`: when the shapes agree every cell becomes its old value plus the other's, and otherwise nothing changes |
| Matrices.Matrix.SubAssign | matrix.hpp:177-180 | corrected `-=`: when the shapes agree every cell becomes its old value minus the other's, and otherwise nothing changes |
| Matrices.Matrix.ScaleAssign | matrix.hpp:261-264 | corrected `*=` by a scalar: every cell becomes `s` times its old value |

## Left out

- `operator<<` (matrix.hpp:29-40) is left out because it is output. It only reads the `rows x cols` cells in row-major order, which `Layout.RowMajorPositionsAreConsecutive` describes for the evaluation loop.
- The timing program `matrixtest.cpp` is not part of this model. It times `+`, `-`, `*` by a scalar and `*` on two 20 x 20 matrices and prints the results. The laws in `Algebra` and the worked examples in `Scenarios` cover the same operations.
- The element type is fixed to unbounded `int`. Floating point, `std::complex` and the `is_scalar`/`is_complex` trait dispatch are not modelled. The choice of product variant is the `Operand` constructor (`Scalar` or `Expression`).
- Overflow of `T`, and of the product's accumulator `auto dot_product = 0` (an `int` whatever `T` is), is not modelled: sums and products are exact.
- `static_cast<T>` conversions of computed cells are not modelled. They are the identity on `int`.
- The CRTP dispatch of `at` through `matrix_expr` is modelled as pattern matching on `Expr`.
- Nodes hold constant references to their operands. The model holds operand values, so dangling references and later changes to a referenced matrix are not modelled.
- Matrices.Matrix.constructor: the source's defaulted constructor leaves the shape fields indeterminate. The model picks 0 x 0.
- Matrices.Matrix.FromData: the source does not check that the data has `rows * columns` elements. The model requires it, because every later access depends on it.
- Matrices.Matrix.FromRows: the source's `assert` that every row has the first row's length, and its reading of the first row of a list that must not be empty, are modelled as preconditions, not as error results.
- Matrices.Matrix.Max: reading element 0 of an empty buffer is undefined in the source. The model requires a non-empty matrix.
- Matrices.Matrix.At and Matrices.Matrix.Set use the strict bounds `r < rows && c < cols`. The `<=` guards as written are modelled separately: see Findings.
- Expressions.Plus, Expressions.Minus and Expressions.Times: a failed shape `assert` aborts the source program. The model returns `Err(ShapeMismatch(...))` instead.
- Copy construction and assignment of `matrix` are not modelled: `c = a + b` is `FromExpr`.
- Matrices.Matrix.ScaleAssign is the corrected `*=` for a scalar right operand only. An in-place `*=` by a matrix would need a temporary and is not modelled.

## Findings

| source | as written | input that shows it | evidently intended | confidence | as-written member | corrected member |
|---|---|---|---|---|---|---|
| matrix.hpp:85-86, 91-92 | `at` asserts `col <= num_cols_` and `row <= num_rows_` | a 2 x 2 matrix: `at(2, 0)` passes the guard and reads position 4 of a 4-element buffer; `at(0, 2)` passes and reads cell `(1, 0)` | strict `<` in both comparisons | high (not executed) | Layout.AtGuardAsWrittenAdmitsOutOfRange | Layout.InBoundsIsSafe |
| matrix.hpp:145-148 | `operator+=` takes `lhs` by constant reference and returns a new sum node | `A = [[1]]`, `A += A`: `A` still reads 1 | `A` becomes `A + B` in place, as the C++ convention for compound assignment leads a reader to expect; the intent is inferred from that convention alone, since no operator of the library otherwise changes a matrix | low (not executed) | Scenarios.PlusAssignLeavesLhs | Matrices.Matrix.AddAssign |
| matrix.hpp:177-180 | `operator-=` takes `lhs` by constant reference and returns a new difference node | `A = [[5]]`, `B = [[2]]`, `A -= B`: `A` still reads 5 | `A` becomes `A - B` in place, as the C++ convention for compound assignment leads a reader to expect; the intent is inferred from that convention alone, since no operator of the library otherwise changes a matrix | low (not executed) | Scenarios.MinusAssignLeavesLhs | Matrices.Matrix.SubAssign |
| matrix.hpp:261-264 | `operator*=` takes `lhs` by constant reference and returns a new product node | `A = [[2]]`, `A *= 3`: `A` still reads 2 | `A` becomes `A * s` in place, as the C++ convention for compound assignment leads a reader to expect; the intent is inferred from that convention alone, since no operator of the library otherwise changes a matrix | low (not executed) | Scenarios.TimesAssignLeavesLhs | Matrices.Matrix.ScaleAssign |
