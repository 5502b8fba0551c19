/**
 * Value-level specification of the matrix library: a matrix's contents as a
 * Grid, and what each operation computes from the contents of its operands,
 * including exactly when it fails.
 */
module MatrixSpec {
  import opened MatrixErrors

  /** A shape and the cells, row by row. The shape is kept even when a dimension is 0. */
  datatype Table = Table(rows: nat, cols: nat, cells: seq<seq<real>>)
  {
    predicate Shaped() {
      |cells| == rows && forall i :: 0 <= i < rows ==> |cells[i]| == cols
    }
  }

  /** A Table whose cells match its shape: the contents of a `double[rows, cols]`. */
  type Grid = g: Table | g.Shaped() witness Table(0, 0, [])


  /** (i, j) indexes a cell of g. */
  predicate InShape(g: Grid, i: int, j: int) {
    0 <= i < g.rows && 0 <= j < g.cols
  }

  /** A Grid is determined by its shape and its cells. */
  lemma {:induction false} SameCells(g: Grid, h: Grid)
    requires g.rows == h.rows && g.cols == h.cols
    requires forall i, j :: InShape(g, i, j) ==> g.cells[i][j] == h.cells[i][j]
    ensures g == h
  {
    forall i | 0 <= i < g.rows
      ensures g.cells[i] == h.cells[i]
    {
      forall j | 0 <= j < g.cols
        ensures g.cells[i][j] == h.cells[i][j]
      {
        assert InShape(g, i, j);
      }
    }
  }

  /** g has no cell at all. */
  predicate IsEmpty(g: Grid) {
    g.rows == 0 || g.cols == 0
  }

  /** A rows-by-cols grid of zeros: a freshly allocated `double[rows, cols]`. */
  function Zeros(rows: nat, cols: nat): Grid {
    Table(rows, cols, seq(rows, _ => seq(cols, _ => 0.0)))
  }

  /** g with cell (i, j) replaced by v: the indexer's setter. */
  function Update(g: Grid, i: int, j: int, v: real): (r: Grid)
    requires InShape(g, i, j)
    ensures r.rows == g.rows && r.cols == g.cols
    ensures r.cells[i][j] == v
    ensures forall i', j' :: InShape(g, i', j') && (i', j') != (i, j) ==> r.cells[i'][j'] == g.cells[i'][j']
  {
    Table(g.rows, g.cols, g.cells[i := g.cells[i][j := v]])
  }

  /**
   * A double loop over walk's extents that reads target[i, j] reaches a cell
   * target does not have. This is the fault behind every MatrixException that
   * addition and subtraction raise.
   */
  predicate Overruns(walk: Grid, target: Grid) {
    exists i, j :: 0 <= i < walk.rows && 0 <= j < walk.cols && !InShape(target, i, j)
  }

  /** The loop over walk's extents faults exactly when walk has a cell and target is shorter or narrower. */
  lemma OverrunsExactly(walk: Grid, target: Grid)
    ensures Overruns(walk, target) <==>
      !IsEmpty(walk) && (target.rows < walk.rows || target.cols < walk.cols)
  {
    if !IsEmpty(walk) && (target.rows < walk.rows || target.cols < walk.cols) {
      assert !InShape(target, walk.rows - 1, walk.cols - 1);
    }
  }

  /** `matrix1 + matrix2`: loops over matrix1's extents; a read outside matrix2 fails. */
  function Plus(a: Grid, b: Grid): (r: Option<Grid>)
    ensures r.None? <==> !IsEmpty(a) && (b.rows < a.rows || b.cols < a.cols)
    ensures r.Some? ==> r.value.rows == a.rows && r.value.cols == a.cols
  {
    OverrunsExactly(a, b);
    if Overruns(a, b) then None
    else Some(Table(a.rows, a.cols,
      seq(a.rows, i requires 0 <= i < a.rows =>
        seq(a.cols, j requires 0 <= j < a.cols => a.cells[i][j] + b.cells[i][j]))))
  }

  /** `matrix1 - matrix2`: loops over matrix1's extents; a read outside matrix2 fails. */
  function Minus(a: Grid, b: Grid): (r: Option<Grid>)
    ensures r.None? <==> !IsEmpty(a) && (b.rows < a.rows || b.cols < a.cols)
    ensures r.Some? ==> r.value.rows == a.rows && r.value.cols == a.cols
  {
    OverrunsExactly(a, b);
    if Overruns(a, b) then None
    else Some(Table(a.rows, a.cols,
      seq(a.rows, i requires 0 <= i < a.rows =>
        seq(a.cols, j requires 0 <= j < a.cols => a.cells[i][j] - b.cells[i][j]))))
  }

  /**
   * `self.Add(arg)`: the result is shaped like arg, but the loops run over
   * self's extents and compute arg + self; cells outside self stay 0.
   */
  function Add(self: Grid, arg: Grid): (r: Option<Grid>)
    ensures r.None? <==> !IsEmpty(self) && (arg.rows < self.rows || arg.cols < self.cols)
    ensures r.Some? ==> r.value.rows == arg.rows && r.value.cols == arg.cols
    ensures r.Some? ==> forall i, j :: InShape(arg, i, j) && !InShape(self, i, j) ==> r.value.cells[i][j] == 0.0
  {
    OverrunsExactly(self, arg);
    if Overruns(self, arg) then None
    else Some(Table(arg.rows, arg.cols,
      seq(arg.rows, i requires 0 <= i < arg.rows =>
        seq(arg.cols, j requires 0 <= j < arg.cols =>
          if InShape(self, i, j) then arg.cells[i][j] + self.cells[i][j] else 0.0))))
  }

  /**
   * `self.Subtract(arg)`: the result is shaped like arg, but the loops run over
   * self's extents and compute self - arg; cells outside self stay 0.
   */
  function Subtract(self: Grid, arg: Grid): (r: Option<Grid>)
    ensures r.None? <==> !IsEmpty(self) && (arg.rows < self.rows || arg.cols < self.cols)
    ensures r.Some? ==> r.value.rows == arg.rows && r.value.cols == arg.cols
    ensures r.Some? ==> forall i, j :: InShape(arg, i, j) && !InShape(self, i, j) ==> r.value.cells[i][j] == 0.0
  {
    OverrunsExactly(self, arg);
    if Overruns(self, arg) then None
    else Some(Table(arg.rows, arg.cols,
      seq(arg.rows, i requires 0 <= i < arg.rows =>
        seq(arg.cols, j requires 0 <= j < arg.cols =>
          if InShape(self, i, j) then self.cells[i][j] - arg.cells[i][j] else 0.0))))
  }

  function Max(x: nat, y: nat): nat {
    if x > y then x else y
  }

  /**
   * The accumulator of the `k` loop of multiplication after n steps:
   * a[i, 0] * b[0, j] + ... + a[i, n - 1] * b[n - 1, j], added left to right.
   */
  function Dot(a: Grid, b: Grid, i: nat, j: nat, n: nat): real
    requires i < a.rows && j < b.cols && n <= a.cols && n <= b.rows
  {
    if n == 0 then 0.0 else Dot(a, b, i, j, n - 1) + a.cells[i][n - 1] * b.cells[n - 1][j]
  }

  /**
   * The k loop reads b[k, j] for every row of a, every column j of b and every
   * column k of a: it faults when one of those k is not a row of b.
   */
  predicate TimesOverruns(a: Grid, b: Grid) {
    a.rows > 0 && exists k, j :: 0 <= k < a.cols && 0 <= j < b.cols && !InShape(b, k, j)
  }

  /** Multiplication reads outside b exactly when a has a row, b has a column and b has fewer rows than a has columns. */
  lemma TimesOverrunsExactly(a: Grid, b: Grid)
    ensures TimesOverruns(a, b) <==> a.rows > 0 && b.cols > 0 && b.rows < a.cols
  {
    if a.rows > 0 && b.cols > 0 && b.rows < a.cols {
      assert !InShape(b, a.cols - 1, 0);
    }
  }

  /**
   * The result the loops of multiplication fill in when no read faults:
   * a.rows by max(a.cols, b.cols) cells, the accumulated products in the
   * columns below b.cols and 0 in the columns beyond.
   */
  function Accumulated(a: Grid, b: Grid): (r: Grid)
    requires !TimesOverruns(a, b)
    ensures r.rows == a.rows && r.cols == Max(a.cols, b.cols)
  {
    TimesOverrunsExactly(a, b);
    Table(a.rows, Max(a.cols, b.cols),
      seq(a.rows, i requires 0 <= i < a.rows =>
        seq(Max(a.cols, b.cols), j requires 0 <= j < Max(a.cols, b.cols) =>
          if j < b.cols then Dot(a, b, i, j, a.cols) else 0.0)))
  }

  /**
   * `matrix1 * matrix2`: fails on a read outside b, when the result has no
   * cell (0, 0), and when that cell is exactly 0; otherwise the accumulated
   * result.
   */
  function Times(a: Grid, b: Grid): (r: Option<Grid>)
    ensures r.Some? <==> a.rows > 0 && b.cols > 0 && a.cols <= b.rows && Dot(a, b, 0, 0, a.cols) != 0.0
    ensures r.Some? ==> r.value.rows == a.rows && r.value.cols == Max(a.cols, b.cols)
    ensures r.Some? ==> forall i, j :: 0 <= i < a.rows && 0 <= j < b.cols ==> r.value.cells[i][j] == Dot(a, b, i, j, a.cols)
    ensures r.Some? ==> forall i, j :: 0 <= i < a.rows && b.cols <= j < r.value.cols ==> r.value.cells[i][j] == 0.0
  {
    TimesOverrunsExactly(a, b);
    if TimesOverruns(a, b) then None
    else
      var product := Accumulated(a, b);
      if IsEmpty(product) then None          // result[0, 0] is out of range
      else if product.cells[0][0] == 0.0 then None
      else Some(product)
  }

  /** Once the loops have run without a fault, multiplication returns their result unless its cell (0, 0) is missing or 0. */
  lemma TimesOfAccumulated(a: Grid, b: Grid)
    requires !TimesOverruns(a, b)
    ensures Accumulated(a, b).rows == a.rows && Accumulated(a, b).cols == Max(a.cols, b.cols)
    ensures Times(a, b) ==
      if IsEmpty(Accumulated(a, b)) || Accumulated(a, b).cells[0][0] == 0.0 then None else Some(Accumulated(a, b))
  {
  }

  /** In row i, before the scan of Equals leaves self's columns, some cell of other equals self's. */
  predicate RowMatches(self: Grid, other: Grid, i: nat)
    requires i < self.rows && i < other.rows
  {
    exists j :: 0 <= j < self.cols && j < other.cols && Agree(self, other, i, j)
  }

  /** self and other hold the same value at (i, j). */
  predicate Agree(self: Grid, other: Grid, i: nat, j: nat)
    requires InShape(self, i, j) && InShape(other, i, j)
  {
    self.cells[i][j] == other.cells[i][j]
  }

  /**
   * The scan of `self.Equals(other)` reads a cell self does not have: a row of
   * other below self's rows, or a row whose scan passes self's last column
   * without a match.
   */
  predicate ScanFaults(self: Grid, other: Grid) {
    other.cols > 0 &&
    (self.rows < other.rows ||
     (self.cols < other.cols && exists i :: 0 <= i < other.rows && !RowMatches(self, other, i)))
  }

  /** `self.Equals(other)`: the scan does not fault and some row of other has a matching cell. */
  predicate Equals(self: Grid, other: Grid) {
    !ScanFaults(self, other) &&
    exists i :: 0 <= i < other.rows && i < self.rows && RowMatches(self, other, i)
  }

  /** The n-by-n identity matrix: a reference for multiplication. */
  function Identity(n: nat): Grid {
    Table(n, n, seq(n, i => seq(n, j => if i == j then 1.0 else 0.0)))
  }

  /** a[i, k] * b[k, j] + ... + a[i, n - 1] * b[n - 1, j]: the textbook sum, taken from k upwards. */
  function SumFrom(a: Grid, b: Grid, i: nat, j: nat, k: nat, n: nat): real
    requires i < a.rows && j < b.cols && k <= n <= a.cols && n <= b.rows
    decreases n - k
  {
    if k == n then 0.0 else a.cells[i][k] * b.cells[k][j] + SumFrom(a, b, i, j, k + 1, n)
  }

  /** The textbook product of an m-by-n and an n-by-p matrix: a reference for multiplication. */
  function Product(a: Grid, b: Grid): Grid
    requires a.cols == b.rows
  {
    Table(a.rows, b.cols,
      seq(a.rows, i requires 0 <= i < a.rows =>
        seq(b.cols, j requires 0 <= j < b.cols => SumFrom(a, b, i, j, 0, a.cols))))
  }
}
