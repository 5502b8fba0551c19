# Matrix library: a verified Dafny model

This project models `MatrixLibrary.Matrix`, a dense two-dimensional matrix of
floating-point numbers. A matrix is a thin wrapper around one
`double[rows, columns]` array, `mx`. Its shape is the array's extents and never
changes. Its cells change in place through the indexer. It offers:

- two constructors: zero-filled by dimensions, or wrapping a caller's array without copying it;
- `Rows` and `Columns`;
- an indexer whose getter and setter map any bad index to `ArgumentException`;
- a deep `Clone`;
- `+`, `-` and `*` as operators, and `Add`, `Subtract` and `Multiply` as instance methods;
- an `Equals` that is not matrix equality.

The model keeps the library's own rules, including where they depart from
textbook arithmetic:

- `+` and `-` are shaped like the first operand. A second operand that is too small raises `MatrixException`. Extra rows and columns of a larger one are never read.
- Instance `Add` and `Subtract` are shaped like the argument but loop over the receiver. `Add` computes `argument + this` and `Subtract` computes `this - argument`. Cells outside the receiver stay 0.
- `*` has `max(columns1, columns2)` columns. Columns at and beyond the second operand's column count stay 0.
- `*` raises `MatrixException` in three cases: a read outside the second operand, a result with no cell `(0, 0)`, or a cell `(0, 0)` that is exactly 0.
- `Equals` walks the other matrix's rows. In each row it stops at the first cell equal to the receiver's. A read outside the receiver makes it false. Otherwise it is true when some row had a match.

Files:

- `errors.dfy` (module `MatrixErrors`): the error kinds, one per exception type: `OutOfRange`, `NullArgument`, `BadIndex`, `MatrixError`. Also `Result`, `Outcome` and `Option`.
- `grid.dfy` (module `MatrixSpec`): a matrix's contents as a value, `Grid`. It keeps its shape and its rows of cells, and keeps the column count even when there are no rows. It also holds what each operation computes from its operands' contents and exactly when it fails, plus the textbook references (`Identity`, `SumFrom`, `Product`).
- `matrix.dfy` (module `MatrixLibrary`): the class `Matrix` over `const mx: array2<real>`. The ghost `Value()` is its contents. Each operation is a method with the source's loops, proved against `MatrixSpec`.
- `laws.dfy` (module `MatrixLaws`): lemmas relating the operations to each other and to the textbook definitions.
- `examples.dfy` (module `MatrixExamples`): concrete cases of the rules above.

The constructors that can throw become static methods returning a `Result`:
`Create` for `new Matrix(rows, columns)` and `FromArray` for
`new Matrix(array)`. They build the object with the Dafny constructors `OfShape`
and `Wrap`, which cannot fail. An operand that may be null is a `Matrix?`.
`Equals` takes an `object?` and tests `is Matrix`. In the source a non-Matrix
object makes the cast throw, and null passes the cast but makes the read of
`matrix.mx` throw. Both exceptions are caught and give false, which is what
the test gives.
The result of an arithmetic operation is written into its fresh array directly
rather than through the indexer. Every index written there is inside the
result's shape, so the indexer could not fail at that point.

## Model

| member | source | states |
|---|---|---|
| MatrixLibrary.Matrix.Rows | Matrix/Matrix.cs:35-38 | the row count is the array's first extent, the rows of `Value()` |
| MatrixLibrary.Matrix.Columns | Matrix/Matrix.cs:43-46 | the column count is the array's second extent, the columns of `Value()` |
| MatrixLibrary.Matrix.OfShape | Matrix/Matrix.cs:66 | a new array of the given shape, every cell 0 |
| MatrixLibrary.Matrix.Wrap | Matrix/Matrix.cs:80 | the matrix stores the given array itself |
| MatrixLibrary.Matrix.Create | Matrix/Matrix.cs:62-67 | fails with OutOfRange exactly when rows < 0 or columns < 0; otherwise a fresh rows-by-columns matrix of zeros |
| MatrixLibrary.Matrix.FromArray | Matrix/Matrix.cs:74-82 | fails with NullArgument exactly when the array is null; otherwise the matrix aliases that array (no copy), and Rows/Columns are its extents |
| MatrixLibrary.Matrix.Get | Matrix/Matrix.cs:93-100 | succeeds exactly when 0 <= row < Rows and 0 <= column < Columns, returning that cell; otherwise BadIndex |
| MatrixLibrary.Matrix.Set | Matrix/Matrix.cs:101-108 | succeeds exactly for an index inside the shape and then changes only that cell; otherwise BadIndex and nothing changes |
| MatrixSpec.Update | Matrix/Matrix.cs:105 | writing cell (i, j) keeps the shape, sets that cell and leaves every other cell as it was |
| MatrixLibrary.Matrix.Clone | Matrix/Matrix.cs:115-120 | a fresh matrix over a fresh array with the same shape and cells |
| MatrixLibrary.CloneIsDeep | Matrix/Matrix.cs:115-120 | after cloning, a write through the clone and a write through the original, at any two cells, each change only the matrix written: the clone holds the old contents updated by its write alone, the original by its write alone |
| MatrixSpec.SameCells | Matrix/Matrix.cs:31 | two matrix contents with the same shape and the same cells are the same value |
| MatrixSpec.OverrunsExactly | Matrix/Matrix.cs:137-141 | a loop over one matrix's extents that reads another faults exactly when the first has a cell and the second is shorter or narrower |
| MatrixSpec.Plus | Matrix/Matrix.cs:130-147 | `+` fails exactly when matrix1 has a cell and matrix2 has fewer rows or columns; otherwise the result has matrix1's shape |
| MatrixLibrary.Matrix.Plus | Matrix/Matrix.cs:130-147 | a null operand gives NullArgument; otherwise a fresh matrix with the cells MatrixSpec.Plus gives, or MatrixError where it fails; neither operand is modified |
| MatrixSpec.Minus | Matrix/Matrix.cs:157-174 | `-` fails exactly when matrix1 has a cell and matrix2 has fewer rows or columns; otherwise the result has matrix1's shape |
| MatrixLibrary.Matrix.Minus | Matrix/Matrix.cs:157-174 | a null operand gives NullArgument; otherwise a fresh matrix with the cells MatrixSpec.Minus gives, or MatrixError where it fails |
| MatrixSpec.Add | Matrix/Matrix.cs:224-245 | instance Add fails exactly when the receiver has a cell and the argument has fewer rows or columns; otherwise the result has the argument's shape and 0 outside the receiver |
| MatrixLibrary.Matrix.Add | Matrix/Matrix.cs:224-245 | a null argument gives NullArgument; otherwise a fresh matrix with the cells MatrixSpec.Add gives, or MatrixError where it fails |
| MatrixSpec.Subtract | Matrix/Matrix.cs:253-274 | instance Subtract fails exactly when the receiver has a cell and the argument has fewer rows or columns; otherwise the result has the argument's shape and 0 outside the receiver |
| MatrixLibrary.Matrix.Subtract | Matrix/Matrix.cs:253-274 | a null argument gives NullArgument; otherwise a fresh matrix with the cells MatrixSpec.Subtract gives, or MatrixError where it fails |
| MatrixSpec.TimesOverrunsExactly | Matrix/Matrix.cs:196-204 | the k loop reads outside matrix2 exactly when matrix1 has a row, matrix2 has a column and matrix2 has fewer rows than matrix1 has columns |
| MatrixSpec.Accumulated | Matrix/Matrix.cs:191-205 | without a fault, the loops leave a matrix1.Rows by max(m1C, m2C) result |
| MatrixSpec.Times | Matrix/Matrix.cs:185-217 | `*` succeeds exactly when m1R > 0, m2C > 0, m1C <= matrix2.Rows and the accumulated cell (0, 0) is not 0; the result is m1R by max(m1C, m2C); each cell (i, j) with j < m2C holds the left-to-right sum of m1[i, k] * m2[k, j] over k < m1C, and every column from m2C on is 0 |
| MatrixLibrary.Matrix.Times | Matrix/Matrix.cs:185-217 | a null operand gives NullArgument; otherwise a fresh matrix with the cells MatrixSpec.Times gives, or MatrixError where it fails |
| MatrixLibrary.Matrix.CheckCorner | Matrix/Matrix.cs:206-211 | given a result the loops filled without a fault, reads cell (0, 0) through the indexer and yields exactly what MatrixSpec.Times gives: MatrixError when that cell is missing or 0, otherwise the result itself |
| MatrixLibrary.Matrix.Fill | Matrix/Matrix.cs:196-205 | the i loop succeeds exactly when no read falls outside matrix2, and then leaves MatrixSpec.Accumulated in the result |
| MatrixLibrary.Matrix.FillRow | Matrix/Matrix.cs:198-204 | the j loop for row i fills the columns below m2C with the accumulated sums, leaves the others 0, and changes no other row |
| MatrixLibrary.Matrix.Accumulate | Matrix/Matrix.cs:200-203 | the k loop for one cell leaves the left-to-right sum of m1[i, k] * m2[k, j] in it, fails exactly when matrix2 has too few rows, and changes no other cell |
| MatrixLibrary.Matrix.Multiply | Matrix/Matrix.cs:282-314 | behaves as `this * matrix`: the receiver plays matrix1 |
| MatrixLibrary.Matrix.Equals | Matrix/Matrix.cs:321-346 | true exactly when obj is a Matrix and MatrixSpec.Equals holds of this matrix and obj: no scanned cell lies outside this matrix and some row of obj has a cell equal to this matrix's before the scan moves on |
| MatrixLaws.PlusCommutes | Matrix/Matrix.cs:130-147 | between matrices of one shape, `+` succeeds and a + b == b + a |
| MatrixLaws.PlusZeros | Matrix/Matrix.cs:136-143 | adding a zero matrix of the same shape gives back the first operand |
| MatrixLaws.MinusThenPlus | Matrix/Matrix.cs:157-174 | between matrices of one shape, (a - b) + b == a |
| MatrixLaws.MinusSelf | Matrix/Matrix.cs:157-174 | a - a is the zero matrix of a's shape |
| MatrixLaws.PlusReadsOnlyOverlap | Matrix/Matrix.cs:137-142 | `+` and `-` depend only on the second operand's cells inside the first operand's shape |
| MatrixLaws.AddIsPaddedPlus | Matrix/Matrix.cs:231-238 | for a receiver inside the argument, `this.Add(arg)` is `this + arg` padded with zeros to arg's shape |
| MatrixLaws.SubtractIsPaddedMinus | Matrix/Matrix.cs:260-267 | for a receiver inside the argument, `this.Subtract(arg)` is `this - arg` padded with zeros to arg's shape |
| MatrixLaws.AddIsPlus | Matrix/Matrix.cs:224-245 | between matrices of one shape, `a.Add(b)` == a + b == b + a |
| MatrixLaws.SubtractIsMinus | Matrix/Matrix.cs:253-274 | between matrices of one shape, `a.Subtract(b)` == a - b (receiver on the left) |
| MatrixLaws.DotIdentity | Matrix/Matrix.cs:200-203 | accumulating against the identity picks out a[i, j] |
| MatrixLaws.TimesIdentity | Matrix/Matrix.cs:185-217 | a * I gives back a exactly when a has a cell and a[0, 0] != 0, and fails otherwise |
| MatrixLaws.DotIsSum | Matrix/Matrix.cs:200-203 | the k loop's left-to-right accumulation equals the textbook sum |
| MatrixLaws.TimesIsProduct | Matrix/Matrix.cs:191-205 | when m1C == matrix2.Rows, `*` succeeds exactly when the textbook product has a nonzero cell (0, 0); its first m2C columns are the textbook product, and it is the textbook product when m2C >= m1C |
| MatrixLaws.EqualsSelf | Matrix/Matrix.cs:321-346 | a matrix Equals itself exactly when it has a cell |
| MatrixLaws.EqualsOnOneCell | Matrix/Matrix.cs:328-337 | between matrices of one shape, one agreeing cell is enough for Equals |
| MatrixLaws.EqualsSameShape | Matrix/Matrix.cs:321-346 | between matrices of one shape, Equals holds exactly when some cell agrees |
| MatrixExamples.PlusExample | Matrix/Matrix.cs:136-143 | [[1,2],[3,4]] + [[5,6],[7,8]] == [[6,8],[10,12]] |
| MatrixExamples.PlusSmallerSecondFails | Matrix/Matrix.cs:134-146 | a 2-by-2 plus a 1-by-1 fails; the 1-by-1 plus the 2-by-2 succeeds with one cell |
| MatrixExamples.AddTakesArgumentShape | Matrix/Matrix.cs:231-238 | [[5]].Add(2-by-2) is 2-by-2 with only cell (0, 0) filled; the other way round it fails |
| MatrixExamples.TimesZeroCornerFails | Matrix/Matrix.cs:206-210 | the 2-by-2 zero matrix times the identity fails |
| MatrixExamples.AccumulatedWide | Matrix/Matrix.cs:194-204 | the loops of [[1,2]] * [[3],[4]] read nothing out of range and fill [[11,0]] |
| MatrixExamples.TimesWidensToLargerColumnCount | Matrix/Matrix.cs:191-198 | [[1,2]] * [[3],[4]] is the 1-by-2 [[11,0]] |
| MatrixExamples.EqualsOnSharedCell | Matrix/Matrix.cs:328-337 | [[1,2],[3,4]] Equals [[9,2],[9,9]] |
| MatrixExamples.EqualsLaterRowFaults | Matrix/Matrix.cs:330-337 | a match in row 0 is undone by an out-of-range read in row 1 |
| MatrixExamples.EqualsNotSymmetric | Matrix/Matrix.cs:321-346 | [[5]] does not Equal [[5,0],[0,0]], but [[5,0],[0,0]] Equals [[5]] |

## Left out

- Floating point: cells are `real`. Rounding, NaN (never equal to itself) and `-0.0 == 0.0` are not modelled. Sums are exact, so the order of accumulation does not matter in the model. The zero check compares the exact sum with 0.
- `MatrixException` (lines 7-27) is reduced to the error kind `MatrixError`. Its constructors, serialization, message strings and the inner exception passed on at lines 146, 173, 215, 243, 272 and 312 are not modelled. The same goes for the messages of the other exceptions.
- `GetHashCode` (line 348) uses the runtime's identity-based hash; there is nothing to state about it.
- `ICloneable` and `MemberwiseClone`: `Clone` is modelled directly as "a new object over a copied array". It returns a `Matrix`, not an `object`.
- The `Array` getter (lines 51-54) returns `mx` itself; the model exposes the field `mx` directly, with the same aliasing.
- 32-bit `int` dimensions and indices are unbounded integers. Nothing can overflow: the source does no arithmetic on dimensions, and every loop counter stays below an array extent.
- MatrixLibrary.Matrix.Create: allocation failure is not modelled. `new double[rows, columns]` (line 66) throws `OutOfMemoryException` for a shape past the runtime's array limit, e.g. 65536 by 65536. In the constructor that exception escapes as is. In `+`, `-`, `*`, `Add`, `Subtract` and `Multiply` the allocation sits inside the `try`, so it becomes `MatrixException`. The model returns `Ok` for every such shape (`Create`, `Plus`, `Minus`, `Times`, `Add`, `Subtract`, `Multiply`).
- Partial results: when an operation fails midway, its half-filled result is dropped, as in the source. The model does not describe that discarded array.
