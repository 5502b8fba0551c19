/**
 * The Matrix class: a dense two-dimensional grid of numbers whose shape is
 * fixed by its backing array and whose cells change in place through the
 * indexer. Each operation is proved against the value-level specification in
 * MatrixSpec.
 */
module MatrixLibrary {
  import opened MatrixErrors
  import opened MatrixSpec

  class Matrix {
    /** The backing array. It is never replaced; the constructor from an array shares the caller's. */
    const mx: array2<real>

    /** The current contents of the matrix as a value. */
    ghost function Value(): Grid
      reads mx
    {
      Table(mx.Length0, mx.Length1,
        seq(mx.Length0, i requires 0 <= i < mx.Length0 reads mx =>
          seq(mx.Length1, j requires 0 <= j < mx.Length1 reads mx => mx[i, j])))
    }

    /** Number of rows: the first extent of the backing array. */
    function Rows(): (n: nat)
      ensures n == Value().rows
    {
      mx.Length0
    }

    /** Number of columns: the second extent of the backing array. */
    function Columns(): (n: nat)
      ensures n == Value().cols
    {
      mx.Length1
    }

    /** A matrix over a new rows-by-columns array of zeros. */
    constructor OfShape(rows: nat, columns: nat)
      ensures fresh(mx)
      ensures mx.Length0 == rows && mx.Length1 == columns
      ensures forall i, j :: 0 <= i < rows && 0 <= j < columns ==> mx[i, j] == 0.0
      ensures Value() == Zeros(rows, columns)
    {
      mx := new real[rows, columns]((_, _) => 0.0);
      new;
      SameCells(Value(), Zeros(rows, columns));
    }

    /** A matrix that stores `elements` itself: later writes to either are seen by both. */
    constructor Wrap(elements: array2<real>)
      ensures mx == elements
    {
      mx := elements;
    }

    /** `new Matrix(rows, columns)`: negative dimensions are out of range; otherwise all cells are 0. */
    static method Create(rows: int, columns: int) returns (r: Result<Matrix>)
      ensures r.Err? <==> rows < 0 || columns < 0
      ensures r.Err? ==> r.error == OutOfRange
      ensures r.Ok? ==> fresh(r.value) && fresh(r.value.mx)
      ensures r.Ok? ==> r.value.Value() == Zeros(rows, columns)
    {
      if rows < 0 || columns < 0 {
        return Err(OutOfRange);
      }
      var m := new Matrix.OfShape(rows, columns);
      return Ok(m);
    }

    /** `new Matrix(array)`: a null array is rejected; otherwise the matrix aliases it, with its extents as shape. */
    static method FromArray(elements: array2?<real>) returns (r: Result<Matrix>)
      ensures r.Err? <==> elements == null
      ensures r.Err? ==> r.error == NullArgument
      ensures r.Ok? ==> fresh(r.value) && r.value.mx == elements
      ensures r.Ok? ==> r.value.Rows() == elements.Length0 && r.value.Columns() == elements.Length1
    {
      if elements == null {
        return Err(NullArgument);
      }
      var m := new Matrix.Wrap(elements);
      return Ok(m);
    }

    /** The indexer's getter: the cell at (row, column), or BadIndex outside the shape. */
    method Get(row: int, column: int) returns (r: Result<real>)
      ensures r.Ok? <==> 0 <= row < Rows() && 0 <= column < Columns()
      ensures r.Ok? ==> r.value == mx[row, column]
      ensures r.Err? ==> r.error == BadIndex
    {
      if 0 <= row < mx.Length0 && 0 <= column < mx.Length1 {
        return Ok(mx[row, column]);
      }
      return Err(BadIndex);
    }

    /** The indexer's setter: writes only cell (row, column); outside the shape it fails and writes nothing. */
    method Set(row: int, column: int, value: real) returns (r: Outcome)
      modifies mx
      ensures r.Pass? <==> 0 <= row < Rows() && 0 <= column < Columns()
      ensures r.Fail? ==> r.error == BadIndex && unchanged(mx)
      ensures r.Pass? ==> Value() == Update(old(Value()), row, column, value)
    {
      if 0 <= row < mx.Length0 && 0 <= column < mx.Length1 {
        ghost var before := Value();
        mx[row, column] := value;
        SameCells(Value(), Update(before, row, column, value));
        return Pass;
      }
      return Fail(BadIndex);
    }

    /** A deep copy: same shape and cells, over a new array. */
    method Clone() returns (c: Matrix)
      ensures fresh(c) && fresh(c.mx)
      ensures c.Value() == Value()
    {
      var copy := new real[mx.Length0, mx.Length1]((i, j) requires 0 <= i < mx.Length0 && 0 <= j < mx.Length1 reads mx => mx[i, j]);
      c := new Matrix.Wrap(copy);
      SameCells(c.Value(), Value());
    }

    /** The operator `matrix1 + matrix2`. */
    static method Plus(matrix1: Matrix?, matrix2: Matrix?) returns (r: Result<Matrix>)
      ensures matrix1 == null || matrix2 == null ==> r == Err(NullArgument)
      ensures matrix1 != null && matrix2 != null ==> Yields(r, MatrixSpec.Plus(matrix1.Value(), matrix2.Value()))
      ensures r.Ok? ==> fresh(r.value) && fresh(r.value.mx)
    {
      if matrix1 == null || matrix2 == null {
        return Err(NullArgument);
      }
      ghost var a, b := matrix1.Value(), matrix2.Value();
      var result := new Matrix.OfShape(matrix1.mx.Length0, matrix1.mx.Length1);
      for i := 0 to matrix1.mx.Length0
        invariant i > 0 && a.cols > 0 ==> i <= b.rows && a.cols <= b.cols
        invariant forall i', j' :: 0 <= i' < a.rows && 0 <= j' < a.cols ==>
          result.mx[i', j'] == if i' < i then a.cells[i'][j'] + b.cells[i'][j'] else 0.0
      {
        for j := 0 to matrix1.mx.Length1
          invariant j > 0 ==> i < b.rows && j <= b.cols
          invariant forall i', j' :: 0 <= i' < a.rows && 0 <= j' < a.cols ==>
            result.mx[i', j'] == if i' < i || (i' == i && j' < j) then a.cells[i'][j'] + b.cells[i'][j'] else 0.0
        {
          if i >= matrix2.mx.Length0 || j >= matrix2.mx.Length1 {
            assert !InShape(b, i, j);
            return Err(MatrixError);
          }
          result.mx[i, j] := matrix1.mx[i, j] + matrix2.mx[i, j];
        }
      }
      OverrunsExactly(a, b);
      SameCells(result.Value(), MatrixSpec.Plus(a, b).value);
      return Ok(result);
    }

    /** The operator `matrix1 - matrix2`. */
    static method Minus(matrix1: Matrix?, matrix2: Matrix?) returns (r: Result<Matrix>)
      ensures matrix1 == null || matrix2 == null ==> r == Err(NullArgument)
      ensures matrix1 != null && matrix2 != null ==> Yields(r, MatrixSpec.Minus(matrix1.Value(), matrix2.Value()))
      ensures r.Ok? ==> fresh(r.value) && fresh(r.value.mx)
    {
      if matrix1 == null || matrix2 == null {
        return Err(NullArgument);
      }
      ghost var a, b := matrix1.Value(), matrix2.Value();
      var result := new Matrix.OfShape(matrix1.mx.Length0, matrix1.mx.Length1);
      for i := 0 to matrix1.mx.Length0
        invariant i > 0 && a.cols > 0 ==> i <= b.rows && a.cols <= b.cols
        invariant forall i', j' :: 0 <= i' < a.rows && 0 <= j' < a.cols ==>
          result.mx[i', j'] == if i' < i then a.cells[i'][j'] - b.cells[i'][j'] else 0.0
      {
        for j := 0 to matrix1.mx.Length1
          invariant j > 0 ==> i < b.rows && j <= b.cols
          invariant forall i', j' :: 0 <= i' < a.rows && 0 <= j' < a.cols ==>
            result.mx[i', j'] == if i' < i || (i' == i && j' < j) then a.cells[i'][j'] - b.cells[i'][j'] else 0.0
        {
          if i >= matrix2.mx.Length0 || j >= matrix2.mx.Length1 {
            assert !InShape(b, i, j);
            return Err(MatrixError);
          }
          result.mx[i, j] := matrix1.mx[i, j] - matrix2.mx[i, j];
        }
      }
      OverrunsExactly(a, b);
      SameCells(result.Value(), MatrixSpec.Minus(a, b).value);
      return Ok(result);
    }

    /** `this.Add(matrix)`: shaped like the argument, summed over this matrix's extents. */
    method Add(matrix: Matrix?) returns (r: Result<Matrix>)
      ensures matrix == null ==> r == Err(NullArgument)
      ensures matrix != null ==> Yields(r, MatrixSpec.Add(Value(), matrix.Value()))
      ensures r.Ok? ==> fresh(r.value) && fresh(r.value.mx)
    {
      if matrix == null {
        return Err(NullArgument);
      }
      ghost var self, arg := Value(), matrix.Value();
      var result := new Matrix.OfShape(matrix.mx.Length0, matrix.mx.Length1);
      for i := 0 to mx.Length0
        invariant i > 0 && self.cols > 0 ==> i <= arg.rows && self.cols <= arg.cols
        invariant forall i', j' :: 0 <= i' < arg.rows && 0 <= j' < arg.cols ==>
          result.mx[i', j'] == if InShape(self, i', j') && i' < i then arg.cells[i'][j'] + self.cells[i'][j'] else 0.0
      {
        for j := 0 to mx.Length1
          invariant j > 0 ==> i < arg.rows && j <= arg.cols
          invariant forall i', j' :: 0 <= i' < arg.rows && 0 <= j' < arg.cols ==>
            result.mx[i', j'] ==
              if InShape(self, i', j') && (i' < i || (i' == i && j' < j)) then arg.cells[i'][j'] + self.cells[i'][j'] else 0.0
        {
          if i >= matrix.mx.Length0 || j >= matrix.mx.Length1 {
            assert !InShape(arg, i, j);
            return Err(MatrixError);
          }
          result.mx[i, j] := matrix.mx[i, j] + mx[i, j];
        }
      }
      OverrunsExactly(self, arg);
      SameCells(result.Value(), MatrixSpec.Add(self, arg).value);
      return Ok(result);
    }

    /** `this.Subtract(matrix)`: shaped like the argument, this minus the argument over this matrix's extents. */
    method Subtract(matrix: Matrix?) returns (r: Result<Matrix>)
      ensures matrix == null ==> r == Err(NullArgument)
      ensures matrix != null ==> Yields(r, MatrixSpec.Subtract(Value(), matrix.Value()))
      ensures r.Ok? ==> fresh(r.value) && fresh(r.value.mx)
    {
      if matrix == null {
        return Err(NullArgument);
      }
      ghost var self, arg := Value(), matrix.Value();
      var result := new Matrix.OfShape(matrix.mx.Length0, matrix.mx.Length1);
      for i := 0 to mx.Length0
        invariant i > 0 && self.cols > 0 ==> i <= arg.rows && self.cols <= arg.cols
        invariant forall i', j' :: 0 <= i' < arg.rows && 0 <= j' < arg.cols ==>
          result.mx[i', j'] == if InShape(self, i', j') && i' < i then self.cells[i'][j'] - arg.cells[i'][j'] else 0.0
      {
        for j := 0 to mx.Length1
          invariant j > 0 ==> i < arg.rows && j <= arg.cols
          invariant forall i', j' :: 0 <= i' < arg.rows && 0 <= j' < arg.cols ==>
            result.mx[i', j'] ==
              if InShape(self, i', j') && (i' < i || (i' == i && j' < j)) then self.cells[i'][j'] - arg.cells[i'][j'] else 0.0
        {
          if i >= matrix.mx.Length0 || j >= matrix.mx.Length1 {
            assert !InShape(arg, i, j);
            return Err(MatrixError);
          }
          result.mx[i, j] := mx[i, j] - matrix.mx[i, j];
        }
      }
      OverrunsExactly(self, arg);
      SameCells(result.Value(), MatrixSpec.Subtract(self, arg).value);
      return Ok(result);
    }

    /** The operator `matrix1 * matrix2`. */
    static method Times(matrix1: Matrix?, matrix2: Matrix?) returns (r: Result<Matrix>)
      ensures matrix1 == null || matrix2 == null ==> r == Err(NullArgument)
      ensures matrix1 != null && matrix2 != null ==> Yields(r, MatrixSpec.Times(matrix1.Value(), matrix2.Value()))
      ensures r.Ok? ==> fresh(r.value) && fresh(r.value.mx)
    {
      if matrix1 == null || matrix2 == null {
        return Err(NullArgument);
      }
      var m1R := matrix1.mx.Length0;
      var m1C := matrix1.mx.Length1;
      var m2C := matrix2.mx.Length1;
      var columns := if m1C > m2C then m1C else m2C;
      var result := new Matrix.OfShape(m1R, columns);
      var ok := Fill(result, matrix1, matrix2);
      ghost var a, b := matrix1.Value(), matrix2.Value();
      if !ok {
        assert MatrixSpec.Times(a, b) == None;
        return Err(MatrixError);
      }
      r := CheckCorner(result, a, b);
    }

    /**
     * The zero check of multiplication, once the loops have filled result
     * without a fault: a missing or zero cell (0, 0) fails, read through the
     * indexer; otherwise result itself is returned.
     */
    static method CheckCorner(result: Matrix, ghost a: Grid, ghost b: Grid) returns (r: Result<Matrix>)
      requires !TimesOverruns(a, b) && result.Value() == Accumulated(a, b)
      ensures Yields(r, MatrixSpec.Times(a, b))
      ensures r.Ok? ==> r.value == result
    {
      ghost var acc := result.Value();
      TimesOfAccumulated(a, b);
      var corner := result.Get(0, 0);
      if corner.Err? || corner.value == 0.0 {
        assert IsEmpty(acc) || acc.cells[0][0] == 0.0;
        return Err(MatrixError);
      }
      assert acc.cells[0][0] == corner.value;
      return Ok(result);
    }

    /**
     * The i loop of multiplication: fills result row by row, and reports false
     * on a read outside matrix2.
     */
    static method Fill(result: Matrix, matrix1: Matrix, matrix2: Matrix) returns (ok: bool)
      requires result.mx != matrix1.mx && result.mx != matrix2.mx
      requires result.Rows() == matrix1.Rows() && result.Columns() == Max(matrix1.Columns(), matrix2.Columns())
      requires forall i, j :: 0 <= i < result.Rows() && 0 <= j < result.Columns() ==> result.mx[i, j] == 0.0
      modifies result.mx
      ensures ok <==> !TimesOverruns(matrix1.Value(), matrix2.Value())
      ensures ok ==> result.Value() == Accumulated(matrix1.Value(), matrix2.Value())
    {
      ghost var a, b := matrix1.Value(), matrix2.Value();
      TimesOverrunsExactly(a, b);
      var m1R, m1C, m2C := matrix1.mx.Length0, matrix1.mx.Length1, matrix2.mx.Length1;
      for i := 0 to m1R
        invariant i > 0 && m2C > 0 ==> m1C <= b.rows
        invariant forall i', j' :: 0 <= i' < m1R && 0 <= j' < result.Columns() ==>
          result.mx[i', j'] == if i' < i && j' < m2C then Dot(a, b, i', j', m1C) else 0.0
      {
        ok := FillRow(result, matrix1, matrix2, i);
        if !ok {
          return false;
        }
      }
      SameCells(result.Value(), Accumulated(a, b));
      return true;
    }

    /**
     * The j loop of multiplication for row i: fills the columns of result below
     * matrix2's column count and reports false on a read outside matrix2. No
     * other row of result changes.
     */
    static method FillRow(result: Matrix, matrix1: Matrix, matrix2: Matrix, i: nat) returns (ok: bool)
      requires result.mx != matrix1.mx && result.mx != matrix2.mx
      requires i < matrix1.Rows() && i < result.Rows() && matrix2.Columns() <= result.Columns()
      requires forall j :: 0 <= j < result.Columns() ==> result.mx[i, j] == 0.0
      modifies result.mx
      ensures ok <==> matrix2.Columns() == 0 || matrix1.Columns() <= matrix2.Rows()
      ensures ok ==> forall j :: 0 <= j < result.Columns() ==>
        result.mx[i, j] == if j < matrix2.Columns() then Dot(matrix1.Value(), matrix2.Value(), i, j, matrix1.Columns()) else 0.0
      ensures forall i', j :: 0 <= i' < result.Rows() && 0 <= j < result.Columns() && i' != i ==>
        result.mx[i', j] == old(result.mx[i', j])
    {
      ghost var a, b := matrix1.Value(), matrix2.Value();
      for j := 0 to matrix2.mx.Length1
        invariant j > 0 ==> a.cols <= b.rows
        invariant forall j' :: 0 <= j' < result.Columns() ==>
          result.mx[i, j'] == if j' < j then Dot(a, b, i, j', a.cols) else 0.0
        invariant forall i', j' :: 0 <= i' < result.Rows() && 0 <= j' < result.Columns() && i' != i ==>
          result.mx[i', j'] == old(result.mx[i', j'])
      {
        ok := Accumulate(result, matrix1, matrix2, i, j);
        if !ok {
          return false;
        }
      }
      return true;
    }

    /**
     * The k loop of multiplication for one cell: adds matrix1[i, k] * matrix2[k, j]
     * into result[i, j] for every column k of matrix1, and reports false when
     * matrix2 has no row k. No other cell of result changes.
     */
    static method Accumulate(result: Matrix, matrix1: Matrix, matrix2: Matrix, i: nat, j: nat) returns (ok: bool)
      requires result.mx != matrix1.mx && result.mx != matrix2.mx
      requires i < matrix1.Rows() && i < result.Rows() && j < matrix2.Columns() && j < result.Columns()
      requires result.mx[i, j] == 0.0
      modifies result.mx
      ensures ok <==> matrix1.Columns() <= matrix2.Rows()
      ensures ok ==> result.mx[i, j] == Dot(matrix1.Value(), matrix2.Value(), i, j, matrix1.Columns())
      ensures forall i', j' :: 0 <= i' < result.Rows() && 0 <= j' < result.Columns() && (i', j') != (i, j) ==>
        result.mx[i', j'] == old(result.mx[i', j'])
    {
      ghost var a, b := matrix1.Value(), matrix2.Value();
      for k := 0 to matrix1.mx.Length1
        invariant k <= b.rows
        invariant result.mx[i, j] == Dot(a, b, i, j, k)
        invariant forall i', j' :: 0 <= i' < result.Rows() && 0 <= j' < result.Columns() && (i', j') != (i, j) ==>
          result.mx[i', j'] == old(result.mx[i', j'])
      {
        if k >= matrix2.mx.Length0 {
          return false;
        }
        result.mx[i, j] := result.mx[i, j] + matrix1.mx[i, k] * matrix2.mx[k, j];
      }
      return true;
    }

    /** `this.Multiply(matrix)`: the operator `this * matrix`. */
    method Multiply(matrix: Matrix?) returns (r: Result<Matrix>)
      ensures matrix == null ==> r == Err(NullArgument)
      ensures matrix != null ==> Yields(r, MatrixSpec.Times(Value(), matrix.Value()))
      ensures r.Ok? ==> fresh(r.value) && fresh(r.value.mx)
    {
      r := Times(this, matrix);
    }

    /**
     * `this.Equals(obj)`: walks obj's rows; in each row it scans the columns up to
     * the first cell equal to this matrix's and then moves to the next row. A read
     * outside this matrix, a null obj or one that is not a Matrix gives false;
     * otherwise the answer is whether some row had a match.
     */
    method Equals(obj: object?) returns (b: bool)
      ensures b <==> obj is Matrix && MatrixSpec.Equals(Value(), (obj as Matrix).Value())
    {
      if !(obj is Matrix) {
        return false;
      }
      var matrix := obj as Matrix;
      ghost var self, other := Value(), matrix.Value();
      var isEqual := false;
      var temp := matrix.mx;
      for i := 0 to temp.Length0
        invariant other.cols > 0 ==> i <= self.rows
        invariant other.cols > 0 && self.cols < other.cols ==> forall i' :: 0 <= i' < i ==> RowMatches(self, other, i')
        invariant isEqual <==> exists i' :: 0 <= i' < i && i' < self.rows && RowMatches(self, other, i')
      {
        for j := 0 to temp.Length1
          invariant j > 0 ==> i < self.rows && j <= self.cols
          invariant i < self.rows ==> forall j' :: 0 <= j' < j ==> !Agree(self, other, i, j')
          invariant isEqual <==> exists i' :: 0 <= i' < i && i' < self.rows && RowMatches(self, other, i')
        {
          if i >= mx.Length0 || j >= mx.Length1 {
            // the read of this[i, j] throws, and the handler answers false
            assert i < self.rows ==> !RowMatches(self, other, i);
            return false;
          }
          if mx[i, j] == temp[i, j] {
            assert Agree(self, other, i, j);
            assert RowMatches(self, other, i);
            isEqual := true;
            break;
          }
        }
      }
      return isEqual;
    }
  }

  /** r is what an arithmetic operation returns when its specification gives g: the cells of g, or a MatrixException. */
  ghost predicate Yields(r: Result<Matrix>, g: Option<Grid>)
    reads if r.Ok? then {r.value.mx} else {}
  {
    match g
    case None => r == Err(MatrixError)
    case Some(v) => r.Ok? && r.value.Value() == v
  }

  /**
   * A clone is independent of its original: a write through the clone and a
   * write through the original each reach only the matrix written, whichever
   * cells they hit.
   */
  method CloneIsDeep(m: Matrix, row: int, column: int, v: real, row2: int, column2: int, w: real) returns (c: Matrix)
    modifies m.mx
    ensures fresh(c) && fresh(c.mx)
    ensures c.Value() ==
      if InShape(old(m.Value()), row, column) then Update(old(m.Value()), row, column, v) else old(m.Value())
    ensures m.Value() ==
      if InShape(old(m.Value()), row2, column2) then Update(old(m.Value()), row2, column2, w) else old(m.Value())
  {
    c := m.Clone();
    var _ := c.Set(row, column, v);
    var _ := m.Set(row2, column2, w);
  }
}
