/**
 * Properties of the matrix operations, stated on the value-level
 * specification: how the operators relate to each other and to the textbook
 * definitions, and where the library's own rules depart from them.
 */
module MatrixLaws {
  import opened MatrixErrors
  import opened MatrixSpec

  /** Between matrices of one shape, + succeeds and is commutative. */
  lemma PlusCommutes(a: Grid, b: Grid)
    requires a.rows == b.rows && a.cols == b.cols
    ensures Plus(a, b).Some? && Plus(a, b) == Plus(b, a)
  {
    SameCells(Plus(a, b).value, Plus(b, a).value);
  }

  /** Adding a zero matrix of the same shape (a fresh `new Matrix(rows, columns)`) gives back a. */
  lemma PlusZeros(a: Grid)
    ensures Plus(a, Zeros(a.rows, a.cols)) == Some(a)
  {
    SameCells(Plus(a, Zeros(a.rows, a.cols)).value, a);
  }

  /** - undoes +: between matrices of one shape, (a - b) + b is a again. */
  lemma MinusThenPlus(a: Grid, b: Grid)
    requires a.rows == b.rows && a.cols == b.cols
    ensures Minus(a, b).Some? && Plus(Minus(a, b).value, b) == Some(a)
  {
    SameCells(Plus(Minus(a, b).value, b).value, a);
  }

  /** a - a is the zero matrix of a's shape. */
  lemma MinusSelf(a: Grid)
    ensures Minus(a, a) == Some(Zeros(a.rows, a.cols))
  {
    SameCells(Minus(a, a).value, Zeros(a.rows, a.cols));
  }

  /**
   * The second operand of + and - may be larger than the first: its extra rows
   * and columns are never read, so only its top-left corner matters.
   */
  lemma PlusReadsOnlyOverlap(a: Grid, b: Grid, c: Grid)
    requires a.rows <= b.rows && a.cols <= b.cols && a.rows <= c.rows && a.cols <= c.cols
    requires forall i, j :: InShape(a, i, j) ==> b.cells[i][j] == c.cells[i][j]
    ensures Plus(a, b) == Plus(a, c) && Minus(a, b) == Minus(a, c)
  {
    SameCells(Plus(a, b).value, Plus(a, c).value);
    SameCells(Minus(a, b).value, Minus(a, c).value);
  }

  /**
   * `self.Add(arg)`, for a receiver that fits inside the argument, is
   * `self + arg` computed over the receiver's shape and then padded with zero
   * cells to the argument's shape: the argument's cells outside the receiver
   * are dropped, not copied.
   */
  lemma AddIsPaddedPlus(self: Grid, arg: Grid)
    requires self.rows <= arg.rows && self.cols <= arg.cols
    ensures Plus(self, arg).Some? && Add(self, arg) == Some(Padded(Plus(self, arg).value, arg.rows, arg.cols))
  {
    SameCells(Add(self, arg).value, Padded(Plus(self, arg).value, arg.rows, arg.cols));
  }

  /**
   * `self.Subtract(arg)`, for a receiver that fits inside the argument, is
   * `self - arg` over the receiver's shape, padded with zero cells to the
   * argument's shape.
   */
  lemma SubtractIsPaddedMinus(self: Grid, arg: Grid)
    requires self.rows <= arg.rows && self.cols <= arg.cols
    ensures Minus(self, arg).Some? && Subtract(self, arg) == Some(Padded(Minus(self, arg).value, arg.rows, arg.cols))
  {
    SameCells(Subtract(self, arg).value, Padded(Minus(self, arg).value, arg.rows, arg.cols));
  }

  /** Padding a grid to its own shape changes nothing. */
  lemma PaddedToOwnShape(g: Grid)
    ensures Padded(g, g.rows, g.cols) == g
  {
    SameCells(Padded(g, g.rows, g.cols), g);
  }

  /** Between matrices of one shape, `self.Add(arg)` is `self + arg`, which is `arg + self`. */
  lemma AddIsPlus(self: Grid, arg: Grid)
    requires self.rows == arg.rows && self.cols == arg.cols
    ensures Add(self, arg) == Plus(self, arg) == Plus(arg, self)
  {
    AddIsPaddedPlus(self, arg);
    PaddedToOwnShape(Plus(self, arg).value);
    PlusCommutes(self, arg);
  }

  /** Between matrices of one shape, `self.Subtract(arg)` is `self - arg`, receiver on the left. */
  lemma SubtractIsMinus(self: Grid, arg: Grid)
    requires self.rows == arg.rows && self.cols == arg.cols
    ensures Subtract(self, arg) == Minus(self, arg)
  {
    SubtractIsPaddedMinus(self, arg);
    PaddedToOwnShape(Minus(self, arg).value);
  }

  /** g extended with zero cells to rows by cols (rows and cols at least g's). */
  function Padded(g: Grid, rows: nat, cols: nat): (r: Grid)
    requires g.rows <= rows && g.cols <= cols
    ensures r.rows == rows && r.cols == cols
    ensures forall i, j :: InShape(r, i, j) ==> r.cells[i][j] == if InShape(g, i, j) then g.cells[i][j] else 0.0
  {
    Table(rows, cols, seq(rows, i requires 0 <= i < rows =>
      seq(cols, j requires 0 <= j < cols => if InShape(g, i, j) then g.cells[i][j] else 0.0)))
  }

  /** Multiplying by the identity of matching size accumulates just a[i, j] (or 0 past column n). */
  lemma {:induction false} DotIdentity(a: Grid, i: nat, j: nat, n: nat)
    requires i < a.rows && j < a.cols && n <= a.cols
    ensures Dot(a, Identity(a.cols), i, j, n) == if j < n then a.cells[i][j] else 0.0
  {
    if n > 0 {
      DotIdentity(a, i, j, n - 1);
    }
  }

  /**
   * a * I, with I the identity of a's column count, gives back a exactly when a
   * has a cell and a[0, 0] is not 0; otherwise it fails.
   */
  lemma TimesIdentity(a: Grid)
    ensures Times(a, Identity(a.cols)) == if IsEmpty(a) || a.cells[0][0] == 0.0 then None else Some(a)
  {
    var id := Identity(a.cols);
    if !IsEmpty(a) {
      TimesOverrunsExactly(a, id);
      forall i, j | InShape(a, i, j)
        ensures Accumulated(a, id).cells[i][j] == a.cells[i][j]
      {
        DotIdentity(a, i, j, a.cols);
      }
      SameCells(Accumulated(a, id), a);
      DotIdentity(a, 0, 0, a.cols);
    }
  }

  /** The textbook sum grows by one term at its upper end. */
  lemma {:induction false} SumFromExtend(a: Grid, b: Grid, i: nat, j: nat, k: nat, n: nat)
    requires i < a.rows && j < b.cols && k <= n < a.cols && n < b.rows
    ensures SumFrom(a, b, i, j, k, n + 1) == SumFrom(a, b, i, j, k, n) + a.cells[i][n] * b.cells[n][j]
    decreases n - k
  {
    if k < n {
      SumFromExtend(a, b, i, j, k + 1, n);
    }
  }

  /** The left-to-right accumulation of the k loop is the textbook sum. */
  lemma {:induction false} DotIsSum(a: Grid, b: Grid, i: nat, j: nat, n: nat)
    requires i < a.rows && j < b.cols && n <= a.cols && n <= b.rows
    ensures Dot(a, b, i, j, n) == SumFrom(a, b, i, j, 0, n)
  {
    if n > 0 {
      DotIsSum(a, b, i, j, n - 1);
      SumFromExtend(a, b, i, j, 0, n - 1);
    }
  }

  /**
   * For operands whose shapes agree (a.cols == b.rows), multiplication succeeds
   * exactly when a has a row, b a column and the textbook product's cell (0, 0)
   * is not 0; its first b.cols columns are the textbook product, and it is the
   * textbook product itself when b has at least as many columns as a.
   */
  lemma TimesIsProduct(a: Grid, b: Grid)
    requires a.cols == b.rows
    ensures Times(a, b).Some? <==> a.rows > 0 && b.cols > 0 && Product(a, b).cells[0][0] != 0.0
    ensures Times(a, b).Some? ==>
      forall i, j :: InShape(Product(a, b), i, j) ==> Times(a, b).value.cells[i][j] == Product(a, b).cells[i][j]
    ensures Times(a, b).Some? && a.cols <= b.cols ==> Times(a, b).value == Product(a, b)
  {
    TimesOverrunsExactly(a, b);
    if a.rows > 0 && b.cols > 0 {
      DotIsSum(a, b, 0, 0, a.cols);
    }
    if Times(a, b).Some? {
      forall i, j | InShape(Product(a, b), i, j)
        ensures Times(a, b).value.cells[i][j] == Product(a, b).cells[i][j]
      {
        DotIsSum(a, b, i, j, a.cols);
      }
      if a.cols <= b.cols {
        SameCells(Times(a, b).value, Product(a, b));
      }
    }
  }

  /**
   * Equals compares a matrix with itself as true exactly when it has a cell:
   * every scanned cell matches, so nothing is read out of range.
   */
  lemma EqualsSelf(g: Grid)
    ensures Equals(g, g) <==> !IsEmpty(g)
  {
    if !IsEmpty(g) {
      assert Agree(g, g, 0, 0);
      assert RowMatches(g, g, 0);
    }
  }

  /**
   * Equals only needs one equal cell: whenever self and other share a shape
   * and agree at some cell, Equals holds, however much else differs.
   */
  lemma EqualsOnOneCell(self: Grid, other: Grid, i: nat, j: nat)
    requires self.rows == other.rows && self.cols == other.cols
    requires InShape(self, i, j) && self.cells[i][j] == other.cells[i][j]
    ensures Equals(self, other)
  {
    assert Agree(self, other, i, j);
    assert RowMatches(self, other, i);
  }

  /** Equals between matrices of one shape holds exactly when some cell agrees. */
  lemma EqualsSameShape(self: Grid, other: Grid)
    requires self.rows == other.rows && self.cols == other.cols
    ensures Equals(self, other) <==> exists i, j :: InShape(self, i, j) && self.cells[i][j] == other.cells[i][j]
  {
    if exists i, j :: InShape(self, i, j) && self.cells[i][j] == other.cells[i][j] {
      var i, j :| InShape(self, i, j) && self.cells[i][j] == other.cells[i][j];
      EqualsOnOneCell(self, other, i, j);
    }
  }
}
