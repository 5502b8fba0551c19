/**
 * Worked cases of the library's rules on small matrices, including the ones
 * where it departs from textbook matrix arithmetic.
 */
module MatrixExamples {
  import opened MatrixErrors
  import opened MatrixSpec
  import opened MatrixLaws

  /** [[1, 2], [3, 4]] */
  function A(): Grid { Table(2, 2, [[1.0, 2.0], [3.0, 4.0]]) }

  /** [[5, 6], [7, 8]] */
  function B(): Grid { Table(2, 2, [[5.0, 6.0], [7.0, 8.0]]) }

  /** [[5]] */
  function Five(): Grid { Table(1, 1, [[5.0]]) }

  /** Two 2-by-2 matrices add cell by cell. */
  lemma PlusExample()
    ensures Plus(A(), B()) == Some(Table(2, 2, [[6.0, 8.0], [10.0, 12.0]]))
  {
    SameCells(Plus(A(), B()).value, Table(2, 2, [[6.0, 8.0], [10.0, 12.0]]));
  }

  /** A smaller second operand makes + fail; a smaller first operand does not. */
  lemma PlusSmallerSecondFails()
    ensures Plus(A(), Five()) == None
    ensures Plus(Five(), A()) == Some(Table(1, 1, [[6.0]]))
  {
    SameCells(Plus(Five(), A()).value, Table(1, 1, [[6.0]]));
  }

  /** `[[5]].Add(A)` is shaped like A, with only the receiver's cell filled; `A.Add([[5]])` fails. */
  lemma AddTakesArgumentShape()
    ensures Add(Five(), A()) == Some(Table(2, 2, [[6.0, 0.0], [0.0, 0.0]]))
    ensures Add(A(), Five()) == None
  {
    SameCells(Add(Five(), A()).value, Table(2, 2, [[6.0, 0.0], [0.0, 0.0]]));
  }

  /**
   * A product whose cell (0, 0) is 0 fails although every read is in range;
   * this follows by direct computation of the corner.
   */
  lemma TimesZeroCornerFails()
    ensures Times(Table(2, 2, [[0.0, 0.0], [0.0, 0.0]]), Identity(2)) == None
  {
  }

  /** [[1, 2]] */
  function Row12(): Grid { Table(1, 2, [[1.0, 2.0]]) }

  /** [[3], [4]] */
  function Column34(): Grid { Table(2, 1, [[3.0], [4.0]]) }

  /** The loops of [[1, 2]] * [[3], [4]] fill a 1-by-2 result: 1 * 3 + 2 * 4 = 11, then a column left 0. */
  lemma AccumulatedWide()
    ensures !TimesOverruns(Row12(), Column34())
    ensures Accumulated(Row12(), Column34()) == Table(1, 2, [[11.0, 0.0]])
  {
    var a, b := Row12(), Column34();
    TimesOverrunsExactly(a, b);
    assert Dot(a, b, 0, 0, 2) == 11.0;
    var acc := Accumulated(a, b);
    assert acc.cells[0][0] == 11.0 && acc.cells[0][1] == 0.0;
    SameCells(acc, Table(1, 2, [[11.0, 0.0]]));
  }

  /** A 1-by-2 times a 2-by-1 matrix gives 1-by-2, not 1-by-1: the extra column stays 0. */
  lemma TimesWidensToLargerColumnCount()
    ensures Times(Row12(), Column34()) == Some(Table(1, 2, [[11.0, 0.0]]))
  {
    AccumulatedWide();
    TimesOfAccumulated(Row12(), Column34());
  }

  /** Equals holds for two matrices that agree at one cell only. */
  lemma EqualsOnSharedCell()
    ensures Equals(A(), Table(2, 2, [[9.0, 2.0], [9.0, 9.0]]))
  {
    EqualsOnOneCell(A(), Table(2, 2, [[9.0, 2.0], [9.0, 9.0]]), 0, 1);
  }

  /**
   * The break leaves only the inner loop: row 0 matches, but the scan of row 1
   * reads past the receiver's single column, so Equals is false.
   */
  lemma EqualsLaterRowFaults()
    ensures !Equals(Table(2, 1, [[1.0], [3.0]]), Table(2, 2, [[1.0, 0.0], [5.0, 6.0]]))
  {
    var self: Grid := Table(2, 1, [[1.0], [3.0]]);
    var other: Grid := Table(2, 2, [[1.0, 0.0], [5.0, 6.0]]);
    assert !Agree(self, other, 1, 0);
    assert !RowMatches(self, other, 1);
  }

  /** Equals is not symmetric: [[5]] against a larger matrix faults, the other way round it matches. */
  lemma EqualsNotSymmetric()
    ensures !Equals(Five(), Table(2, 2, [[5.0, 0.0], [0.0, 0.0]]))
    ensures Equals(Table(2, 2, [[5.0, 0.0], [0.0, 0.0]]), Five())
  {
    var big: Grid := Table(2, 2, [[5.0, 0.0], [0.0, 0.0]]);
    assert Agree(big, Five(), 0, 0);
    assert RowMatches(big, Five(), 0);
  }
}
