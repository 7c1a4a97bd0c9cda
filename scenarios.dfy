/**
 * Concrete uses of the matrix, following the repository's unit tests, and
 * the round trips that combine several operations.
 */
module Scenarios {
  import opened Grids
  import LineFill
  import opened Matrices

  /** Filling `[0, 2) x [0, 2)` of a 3 by 3 matrix sets exactly the four
      cells of that square; `(2, 2)` keeps the default. */
  lemma FillRegionSquare<T>(d: T, v: T)
    ensures Grids.FillRegion(Filled(3, 3, d), 0, 0, 2, 2, v) == [[v, v, d], [v, v, d], [d, d, d]]
  {
    var g := Grids.FillRegion(Filled(3, 3, d), 0, 0, 2, 2, v);
    assert |g[0]| == 3 && |g[1]| == 3 && |g[2]| == 3;
    assert g[0] == [v, v, d];
    assert g[1] == [v, v, d];
    assert g[2] == [d, d, d];
  }

  /** The diagonal fill of a 3 by 3 matrix from `(0, 0)` with steps `(1, 1)`
      sets `(0, 0)`, `(1, 1)` and `(2, 2)` and nothing else. */
  lemma FillLineDiagonal<T>(d: T, v: T)
    ensures LineFill.FillLine(Filled(3, 3, d), 0, 0, 1, 1, 3, 3, v) == ([[v, d, d], [d, v, d], [d, d, v]], Pass)
  {
    var g := Filled(3, 3, d);
    var ps := LineFill.LinePoints(0, 0, 1, 1, 3, 3);
    assert ps == [(0, 0), (1, 1), (2, 2)] by {
      assert LineFill.LinePoints(3, 3, 1, 1, 3, 3) == [];
      assert LineFill.LinePoints(2, 2, 1, 1, 3, 3) == [(2, 2)];
      assert LineFill.LinePoints(1, 1, 1, 1, 3, 3) == [(1, 1), (2, 2)];
    }
    LineFill.LineInsideGrid(g, 3, 3, 0, 0, 1, 1, 3, 3);
    LineFill.FillLineMarksLine(g, 0, 0, 1, 1, 3, 3, v);
    var res := LineFill.FillLine(g, 0, 0, 1, 1, 3, 3, v);
    assert |res.0[0]| == 3 && |res.0[1]| == 3 && |res.0[2]| == 3;
    assert res.0 == [[v, d, d], [d, v, d], [d, d, v]] by {
      assert res.0[0] == [v, d, d];
      assert res.0[1] == [d, v, d];
      assert res.0[2] == [d, d, v];
    }
  }

  /** Steps of opposite signs: the anti-diagonal fill from `(2, 0)` with steps
      `(-1, 1)` sets `(2, 0)`, `(1, 1)` and `(0, 2)`, then stops without a fault
      because the column reaches its end. */
  lemma FillLineAntiDiagonal<T>(d: T, v: T)
    ensures LineFill.FillLine(Filled(3, 3, d), 2, 0, -1, 1, 3, 3, v) == ([[d, d, v], [d, v, d], [v, d, d]], Pass)
  {
    var g := Filled(3, 3, d);
    var g1 := Update(g, 2, 0, v);
    var g2 := Update(g1, 1, 1, v);
    var g3 := Update(g2, 0, 2, v);
    assert LineFill.FillLine(g, 2, 0, -1, 1, 3, 3, v) == LineFill.FillLine(g3, -1, 3, -1, 1, 3, 3, v);
    assert |g3[0]| == 3 && |g3[1]| == 3 && |g3[2]| == 3;
    assert g3 == [[d, d, v], [d, v, d], [v, d, d]] by {
      assert g3[0] == [d, d, v];
      assert g3[1] == [d, v, d];
      assert g3[2] == [v, d, d];
    }
  }

  /** With both steps zero, a start that is not below both ends writes
      nothing, and a start below both ends but outside the matrix faults at
      once. */
  lemma ZeroStepFills<T>(g: seq<seq<T>>, v: T)
    requires IsGrid(g, 2, 2)
    ensures LineFill.FillLine(g, 0, 0, 0, 0, 0, 0, v) == (g, Pass)
    ensures LineFill.FillLine(g, 5, 5, 0, 0, 9, 9, v) == (g, Fail(OutOfBounds))
  {
  }

  /** Two column insertions at index 1 of a 2 by 2 matrix of zeros, the
      first with the default and the second with `[9, 9]`, give a 2 by 4
      matrix: the second insertion adds a column, it does not overwrite one. */
  lemma InsertTwoColumns()
    ensures Grids.InsertCol(Grids.InsertCol(Filled(2, 2, 0), 1, Constant(2, 0)), 1, [9, 9])
         == [[0, 9, 0, 0], [0, 9, 0, 0]]
  {
    var once := Grids.InsertCol(Filled(2, 2, 0), 1, Constant(2, 0));
    assert |once[0]| == 3 && |once[1]| == 3;
    assert once[0] == [0, 0, 0] && once[1] == [0, 0, 0];
    var twice := Grids.InsertCol(once, 1, [9, 9]);
    assert |twice[0]| == 4 && |twice[1]| == 4;
    assert twice[0] == [0, 9, 0, 0] && twice[1] == [0, 9, 0, 0];
  }

  /** A row inserted with explicit values reads back those values, and the
      row it displaced reads one index further down. */
  lemma InsertedRowReadsBack<T>(g: seq<seq<T>>, h: nat, w: nat, r: nat, row: seq<T>, c: nat)
    requires IsGrid(g, h, w) && r <= h && |row| == w && c < w
    ensures InBounds(Grids.InsertRow(g, r, row), r, c) && Grids.InsertRow(g, r, row)[r][c] == row[c]
    ensures r < h ==> Grids.InsertRow(g, r, row)[r + 1][c] == g[r][c]
  {
    InsertRowShape(g, h, w, r, row);
  }

  /** Setting a cell and then reading it back gives the value just set. */
  method SetThenGet<T(==)>(m: MatrixV0<T>, row: int, col: int, val: T) returns (got: Result<T>)
    requires m.Valid()
    modifies m, m.values
    ensures m.Valid() && m.width == old(m.width) && m.height == old(m.height)
    ensures got == if InBounds(old(m.Cells), row, col) then Ok(val) else Err(OutOfBounds)
  {
    var _ := m.Set(row, col, val);
    got := m.Get(row, col);
  }

  /** Deleting a row right after inserting it gives back the original
      contents and height. */
  method InsertThenDeleteRow<T(==)>(m: MatrixV0<T>, row: int, vals: seq<T>) returns (o: Outcome)
    requires m.Valid()
    modifies m
    ensures m.Valid() && m.width == old(m.width)
    ensures o == if !(0 <= row <= old(m.height)) then Fail(OutOfBounds)
                 else if |vals| != old(m.width) then Fail(SizeMismatch)
                 else Pass
    ensures m.height == old(m.height) && m.Cells == old(m.Cells)
  {
    o := m.InsertRowValues(row, vals);
    if o.Pass? {
      o := m.DeleteRow(row);
      DeleteRowAfterInsertRow(old(m.Cells), row, vals);
    }
  }

  /** Deleting a column right after inserting it gives back the original
      contents and width. */
  method InsertThenDeleteCol<T(==)>(m: MatrixV0<T>, col: int, vals: seq<T>) returns (o: Outcome)
    requires m.Valid()
    modifies m
    ensures m.Valid() && m.height == old(m.height)
    ensures o == if !(0 <= col <= old(m.width)) then Fail(OutOfBounds)
                 else if |vals| != old(m.height) then Fail(SizeMismatch)
                 else Pass
    ensures m.width == old(m.width) && m.Cells == old(m.Cells)
  {
    o := m.InsertColValues(col, vals);
    if o.Pass? {
      o := m.DeleteCol(col);
      DeleteColAfterInsertCol(old(m.Cells), old(m.height), old(m.width), col, vals);
    }
  }

  /** A clone equals its original, and a later write to the clone leaves the
      original as it was. */
  method CloneThenSetCopy<T(==)>(m: MatrixV0<T>, row: int, col: int, val: T) returns (copy: MatrixV0<T>, equal: bool)
    requires m.Valid()
    ensures equal
    ensures fresh(copy) && copy.Valid() && m.Valid() && m.Cells == old(m.Cells)
    ensures copy.Cells == if InBounds(m.Cells, row, col) then Update(m.Cells, row, col, val) else m.Cells
  {
    copy := m.Clone();
    equal := m.Equals(copy);
    var _ := copy.Set(row, col, val);
  }

  /** A write to the original after cloning leaves the clone as it was. */
  method CloneThenSetOriginal<T(==)>(m: MatrixV0<T>, row: int, col: int, val: T) returns (copy: MatrixV0<T>)
    requires m.Valid()
    modifies m, m.values
    ensures fresh(copy) && copy.Valid() && m.Valid()
    ensures copy.Cells == old(m.Cells)
    ensures m.Cells == if InBounds(old(m.Cells), row, col) then Update(old(m.Cells), row, col, val) else old(m.Cells)
  {
    copy := m.Clone();
    var _ := m.Set(row, col, val);
  }

  /** The repository's fill-region test: a 3 by 3 matrix of zeros, the square
      `[0, 2) x [0, 2)` filled with 9, then `(1, 1)` holds 9 and `(2, 2)` still 0. */
  method FillRegionThreeByThree() returns (inside: Result<int>, outside: Result<int>)
    ensures inside == Ok(9) && outside == Ok(0)
  {
    var m := new MatrixV0<int>.Init(3, 3, 0);
    var o := m.FillRegion(0, 0, 2, 2, 9);
    FillRegionSquare(0, 9);
    inside := m.Get(1, 1);
    outside := m.Get(2, 2);
  }

  /** The repository's fill-line test: the diagonal of a 3 by 3 matrix filled
      with "L" holds "L" at `(1, 1)`, while `(0, 1)` keeps the default. */
  method FillLineThreeByThree() returns (onLine: Result<string>, offLine: Result<string>)
    ensures onLine == Ok("L") && offLine == Ok("default")
  {
    var m := new MatrixV0<string>.Init(3, 3, "default");
    var o := m.FillLine(0, 0, 1, 1, 3, 3, "L");
    FillLineDiagonal("default", "L");
    onLine := m.Get(1, 1);
    offLine := m.Get(0, 1);
  }

  /** The repository's height and width tests: a matrix built 4 wide and 5
      high reports height 5 and width 4. */
  method HeightAndWidthFourByFive() returns (h: nat, w: nat)
    ensures h == 5 && w == 4
  {
    var m := new MatrixV0<string>.Init(4, 5, "default");
    h := m.Height();
    w := m.Width();
  }

  /** The repository's row insertion test: a default row inserted at 1 of a
      3 by 3 matrix makes it 4 rows high. */
  method InsertRowThreeByThree() returns (o: Outcome, h: nat)
    ensures o == Pass && h == 4
  {
    var m := new MatrixV0<int>.Init(3, 3, 0);
    o := m.InsertRow(1);
    h := m.Height();
  }

  /** The repository's column insertion test: a default column inserted at 1
      of a 2 by 2 matrix makes it 3 columns wide. */
  method InsertColTwoByTwo() returns (o: Outcome, w: nat)
    ensures o == Pass && w == 3
  {
    var m := new MatrixV0<int>.Init(2, 2, 0);
    o := m.InsertCol(1);
    w := m.Width();
  }

  /** The repository's test of a column inserted with values: after inserting
      `["A", "B"]` at column 1, `(0, 1)` holds "A". */
  method InsertColValuesTwoByTwo() returns (o: Outcome, got: Result<string>)
    ensures o == Pass && got == Ok("A")
  {
    var m := new MatrixV0<string>.Init(2, 2, "default");
    o := m.InsertColValues(1, ["A", "B"]);
    got := m.Get(0, 1);
  }

  /** The repository's row deletion test: deleting row 1 of a 2 by 2 matrix
      leaves it 1 row high. */
  method DeleteRowTwoByTwo() returns (o: Outcome, h: nat)
    ensures o == Pass && h == 1
  {
    var m := new MatrixV0<string>.Init(2, 2, "default");
    o := m.DeleteRow(1);
    h := m.Height();
  }

  /** The repository's column deletion test: deleting column 1 of a 2 by 2
      matrix leaves it 1 column wide. */
  method DeleteColTwoByTwo() returns (o: Outcome, w: nat)
    ensures o == Pass && w == 1
  {
    var m := new MatrixV0<string>.Init(2, 2, "default");
    o := m.DeleteCol(1);
    w := m.Width();
  }

  /** The repository's equality test: two separately built 2 by 2 matrices
      filled with "A" are equal. */
  method EqualsSameContents() returns (e: bool)
    ensures e
  {
    var a := new MatrixV0<string>.Init(2, 2, "A");
    var b := new MatrixV0<string>.Init(2, 2, "A");
    e := a.Equals(b);
  }

  /** A negative dimension is refused before anything is built. */
  method NegativeSizeRefused() returns (r: Result<MatrixV0<int>>)
    ensures r == Err(InvalidSize)
  {
    r := MatrixV0<int>.Create(-1, 2, 0);
  }
}
