/**
 * A generic dense matrix stored row by row in a two-dimensional array,
 * with a width, a height and a default value used for every cell that an
 * operation creates without being given a value.  The ghost field `Cells`
 * is the matrix as a grid of values; every method states its effect on it
 * with the functions of module Grids.
 */
module Matrices {
  import opened Grids
  import LineFill

  /** Row `di` of `dst` becomes a copy of row `si` of `src`, as `insertRow`
      and `deleteRow` do when they move a row into the new store. */
  method CopyRow<T>(src: array2<T>, si: nat, dst: array2<T>, di: nat)
    requires src != dst && si < src.Length0 && di < dst.Length0 && src.Length1 == dst.Length1
    modifies dst
    ensures forall j :: 0 <= j < dst.Length1 ==> dst[di, j] == src[si, j]
    ensures forall i, j :: 0 <= i < dst.Length0 && i != di && 0 <= j < dst.Length1 ==> dst[i, j] == old(dst[i, j])
  {
    for j := 0 to dst.Length1
      invariant forall j' :: 0 <= j' < j ==> dst[di, j'] == src[si, j']
      invariant forall i, j' :: 0 <= i < dst.Length0 && i != di && 0 <= j' < dst.Length1 ==> dst[i, j'] == old(dst[i, j'])
    {
      dst[di, j] := src[si, j];
    }
  }

  /** Row `di` of `dst` becomes `row`. */
  method WriteRow<T>(dst: array2<T>, di: nat, row: seq<T>)
    requires di < dst.Length0 && |row| == dst.Length1
    modifies dst
    ensures forall j :: 0 <= j < dst.Length1 ==> dst[di, j] == row[j]
    ensures forall i, j :: 0 <= i < dst.Length0 && i != di && 0 <= j < dst.Length1 ==> dst[i, j] == old(dst[i, j])
  {
    for j := 0 to dst.Length1
      invariant forall j' :: 0 <= j' < j ==> dst[di, j'] == row[j']
      invariant forall i, j' :: 0 <= i < dst.Length0 && i != di && 0 <= j' < dst.Length1 ==> dst[i, j'] == old(dst[i, j'])
    {
      dst[di, j] := row[j];
    }
  }

  /** Row `i` of `dst` becomes row `i` of `src` with `x` placed at column
      `col`: the cells before `col` stay where they are and the others move
      one to the right. */
  method InsertCellInRow<T>(src: array2<T>, dst: array2<T>, i: nat, col: nat, x: T)
    requires src != dst && i < src.Length0 == dst.Length0
    requires col <= src.Length1 && dst.Length1 == src.Length1 + 1
    modifies dst
    ensures forall j :: 0 <= j < col ==> dst[i, j] == src[i, j]
    ensures dst[i, col] == x
    ensures forall j :: col < j < dst.Length1 ==> dst[i, j] == src[i, j - 1]
    ensures forall i', j :: 0 <= i' < dst.Length0 && i' != i && 0 <= j < dst.Length1 ==> dst[i', j] == old(dst[i', j])
  {
    for j := 0 to col
      invariant forall j' :: 0 <= j' < j ==> dst[i, j'] == src[i, j']
      invariant forall i', j' :: 0 <= i' < dst.Length0 && i' != i && 0 <= j' < dst.Length1 ==> dst[i', j'] == old(dst[i', j'])
    {
      dst[i, j] := src[i, j];
    }
    dst[i, col] := x;
    for j := col to src.Length1
      invariant forall j' :: 0 <= j' < col ==> dst[i, j'] == src[i, j']
      invariant dst[i, col] == x
      invariant forall j' :: col < j' <= j ==> dst[i, j'] == src[i, j' - 1]
      invariant forall i', j' :: 0 <= i' < dst.Length0 && i' != i && 0 <= j' < dst.Length1 ==> dst[i', j'] == old(dst[i', j'])
    {
      dst[i, j + 1] := src[i, j];
    }
  }

  /** Row `i` of `dst` becomes row `i` of `src` without its cell at column
      `col`: the cells after `col` move one to the left. */
  method DeleteCellInRow<T>(src: array2<T>, dst: array2<T>, i: nat, col: nat)
    requires src != dst && i < src.Length0 == dst.Length0
    requires col < src.Length1 && dst.Length1 == src.Length1 - 1
    modifies dst
    ensures forall j :: 0 <= j < col ==> dst[i, j] == src[i, j]
    ensures forall j :: col <= j < dst.Length1 ==> dst[i, j] == src[i, j + 1]
    ensures forall i', j :: 0 <= i' < dst.Length0 && i' != i && 0 <= j < dst.Length1 ==> dst[i', j] == old(dst[i', j])
  {
    for j := 0 to col
      invariant forall j' :: 0 <= j' < j ==> dst[i, j'] == src[i, j']
      invariant forall i', j' :: 0 <= i' < dst.Length0 && i' != i && 0 <= j' < dst.Length1 ==> dst[i', j'] == old(dst[i', j'])
    {
      dst[i, j] := src[i, j];
    }
    for j := col + 1 to src.Length1
      invariant forall j' :: 0 <= j' < col ==> dst[i, j'] == src[i, j']
      invariant forall j' :: col <= j' < j - 1 ==> dst[i, j'] == src[i, j' + 1]
      invariant forall i', j' :: 0 <= i' < dst.Length0 && i' != i && 0 <= j' < dst.Length1 ==> dst[i', j'] == old(dst[i', j'])
    {
      dst[i, j - 1] := src[i, j];
    }
  }

  class MatrixV0<T(==)> {
    var width: nat
    var height: nat
    var defaultVal: T
    var values: array2<T>
    /** The contents: `Cells[r][c]` is the value at row `r`, column `c`. */
    ghost var Cells: seq<seq<T>>

    /** The store has `height` rows of `width` cells, and they hold `Cells`. */
    ghost predicate Valid()
      reads this, values
    {
      && values.Length0 == height && values.Length1 == width
      && IsGrid(Cells, height, width)
      && forall i, j :: 0 <= i < height && 0 <= j < width ==> values[i, j] == Cells[i][j]
    }

    /** A `height` by `width` matrix whose every cell is `def`. */
    constructor Init(width: nat, height: nat, def: T)
      ensures Valid() && fresh(values)
      ensures this.width == width && this.height == height && defaultVal == def
      ensures Cells == Filled(height, width, def)
    {
      this.width := width;
      this.height := height;
      defaultVal := def;
      values := new T[height, width]((i, j) => def);
      Cells := Filled(height, width, def);
    }

    /** Builds a matrix, or fails with `InvalidSize` when a dimension is negative. */
    static method Create(width: int, height: int, def: T) returns (r: Result<MatrixV0<T>>)
      ensures r.Err? <==> width < 0 || height < 0
      ensures r.Err? ==> r.error == InvalidSize
      ensures r.Ok? ==> && fresh(r.value) && fresh(r.value.values) && r.value.Valid()
                        && r.value.width == width && r.value.height == height
                        && r.value.defaultVal == def
                        && r.value.Cells == Filled(height, width, def)
    {
      if width < 0 || height < 0 {
        return Err(InvalidSize);
      }
      var m := new MatrixV0.Init(width, height, def);
      return Ok(m);
    }

    /** The number of rows. */
    function Height(): (h: nat)
      reads this, values
      requires Valid()
      ensures h == |Cells| && h == values.Length0
    {
      height
    }

    /** The number of columns. */
    function Width(): (w: nat)
      reads this, values
      requires Valid()
      ensures w == values.Length1
      ensures forall i :: 0 <= i < |Cells| ==> |Cells[i]| == w
    {
      width
    }

    /** The value at `(row, col)`, or `OutOfBounds` when that is not a cell. */
    function Get(row: int, col: int): (r: Result<T>)
      reads this, values
      requires Valid()
      ensures r.Ok? <==> InBounds(Cells, row, col)
      ensures r.Ok? ==> r.value == Cells[row][col]
      ensures r.Err? ==> r.error == OutOfBounds
    {
      if row < 0 || row >= height || col < 0 || col >= width then Err(OutOfBounds)
      else Ok(values[row, col])
    }

    /** Replaces the value at `(row, col)`, or fails with `OutOfBounds` and changes nothing. */
    method Set(row: int, col: int, val: T) returns (o: Outcome)
      requires Valid()
      modifies this, values
      ensures Valid() && values == old(values)
      ensures width == old(width) && height == old(height) && defaultVal == old(defaultVal)
      ensures o == if InBounds(old(Cells), row, col) then Pass else Fail(OutOfBounds)
      ensures Cells == if o.Pass? then Update(old(Cells), row, col, val) else old(Cells)
    {
      if row < 0 || row >= height || col < 0 || col >= width {
        return Fail(OutOfBounds);
      }
      values[row, col] := val;
      Cells := Update(Cells, row, col, val);
      return Pass;
    }

    /** Rebuilds the store with `vals` as the new row `row`. */
    method PlaceRow(row: nat, vals: seq<T>)
      requires Valid() && row <= height && |vals| == width
      modifies this
      ensures Valid() && fresh(values)
      ensures width == old(width) && height == old(height) + 1 && defaultVal == old(defaultVal)
      ensures Cells == Grids.InsertRow(old(Cells), row, vals)
    {
      var d := defaultVal;
      var nv := new T[height + 1, width]((i, j) => d);
      for i := 0 to row
        modifies nv
        invariant forall i', j :: 0 <= i' < i && 0 <= j < width ==> nv[i', j] == values[i', j]
      {
        CopyRow(values, i, nv, i);
      }
      WriteRow(nv, row, vals);
      for i := row to height
        modifies nv
        invariant forall i', j :: 0 <= i' < row && 0 <= j < width ==> nv[i', j] == values[i', j]
        invariant forall j :: 0 <= j < width ==> nv[row, j] == vals[j]
        invariant forall i', j :: row < i' <= i && 0 <= j < width ==> nv[i', j] == values[i' - 1, j]
      {
        CopyRow(values, i, nv, i + 1);
      }
      InsertRowShape(Cells, height, width, row, vals);
      values := nv;
      height := height + 1;
      Cells := Grids.InsertRow(Cells, row, vals);
    }

    /** Inserts a row of default values at index `row`, which may be `height`
        (an append); any other index fails with `OutOfBounds` and changes nothing. */
    method InsertRow(row: int) returns (o: Outcome)
      requires Valid()
      modifies this
      ensures Valid() && width == old(width) && defaultVal == old(defaultVal)
      ensures o == if 0 <= row <= old(height) then Pass else Fail(OutOfBounds)
      ensures o.Pass? ==> && height == old(height) + 1 && fresh(values)
                          && Cells == Grids.InsertRow(old(Cells), row, Constant(width, defaultVal))
      ensures o.Fail? ==> height == old(height) && values == old(values) && Cells == old(Cells)
    {
      if row < 0 || row > height {
        return Fail(OutOfBounds);
      }
      PlaceRow(row, Constant(width, defaultVal));
      return Pass;
    }

    /** Inserts `vals` as a new row at index `row`.  The index is checked
        first, then the length of `vals`; on either failure nothing changes. */
    method InsertRowValues(row: int, vals: seq<T>) returns (o: Outcome)
      requires Valid()
      modifies this
      ensures Valid() && width == old(width) && defaultVal == old(defaultVal)
      ensures o == if !(0 <= row <= old(height)) then Fail(OutOfBounds)
                   else if |vals| != old(width) then Fail(SizeMismatch)
                   else Pass
      ensures o.Pass? ==> && height == old(height) + 1 && fresh(values)
                          && Cells == Grids.InsertRow(old(Cells), row, vals)
      ensures o.Fail? ==> height == old(height) && values == old(values) && Cells == old(Cells)
    {
      if row < 0 || row > height {
        return Fail(OutOfBounds);
      }
      if |vals| != width {
        return Fail(SizeMismatch);
      }
      PlaceRow(row, vals);
      return Pass;
    }

    /** Rebuilds the store with `vals[i]` placed at column `col` of every row `i`. */
    method PlaceCol(col: nat, vals: seq<T>)
      requires Valid() && col <= width && |vals| == height
      modifies this
      ensures Valid() && fresh(values)
      ensures width == old(width) + 1 && height == old(height) && defaultVal == old(defaultVal)
      ensures Cells == Grids.InsertCol(old(Cells), col, vals)
    {
      var d := defaultVal;
      var nv := new T[height, width + 1]((i, j) => d);
      ghost var g' := Grids.InsertCol(Cells, col, vals);
      for i := 0 to height
        modifies nv
        invariant forall i', j :: 0 <= i' < i && 0 <= j < width + 1 ==> nv[i', j] == g'[i'][j]
      {
        InsertCellInRow(values, nv, i, col, vals[i]);
        assert forall j :: 0 <= j < width + 1 ==> nv[i, j] == g'[i][j];
      }
      values := nv;
      width := width + 1;
      Cells := g';
    }

    /** Inserts a column of default values at index `col`, which may be
        `width` (an append); any other index fails with `OutOfBounds` and
        changes nothing. */
    method InsertCol(col: int) returns (o: Outcome)
      requires Valid()
      modifies this
      ensures Valid() && height == old(height) && defaultVal == old(defaultVal)
      ensures o == if 0 <= col <= old(width) then Pass else Fail(OutOfBounds)
      ensures o.Pass? ==> && width == old(width) + 1 && fresh(values)
                          && Cells == Grids.InsertCol(old(Cells), col, Constant(height, defaultVal))
      ensures o.Fail? ==> width == old(width) && values == old(values) && Cells == old(Cells)
    {
      if col < 0 || col > width {
        return Fail(OutOfBounds);
      }
      PlaceCol(col, Constant(height, defaultVal));
      return Pass;
    }

    /** Inserts `vals`, one value per row, as a new column at index `col`.
        The index is checked first, then the length of `vals`; on either
        failure nothing changes. */
    method InsertColValues(col: int, vals: seq<T>) returns (o: Outcome)
      requires Valid()
      modifies this
      ensures Valid() && height == old(height) && defaultVal == old(defaultVal)
      ensures o == if !(0 <= col <= old(width)) then Fail(OutOfBounds)
                   else if |vals| != old(height) then Fail(SizeMismatch)
                   else Pass
      ensures o.Pass? ==> && width == old(width) + 1 && fresh(values)
                          && Cells == Grids.InsertCol(old(Cells), col, vals)
      ensures o.Fail? ==> width == old(width) && values == old(values) && Cells == old(Cells)
    {
      if col < 0 || col > width {
        return Fail(OutOfBounds);
      }
      if |vals| != height {
        return Fail(SizeMismatch);
      }
      PlaceCol(col, vals);
      return Pass;
    }

    /** Removes row `row`; the rows below it move up.  An index outside
        `[0, height)` fails with `OutOfBounds` and changes nothing. */
    method DeleteRow(row: int) returns (o: Outcome)
      requires Valid()
      modifies this
      ensures Valid() && width == old(width) && defaultVal == old(defaultVal)
      ensures o == if 0 <= row < old(height) then Pass else Fail(OutOfBounds)
      ensures o.Pass? ==> && height == old(height) - 1 && fresh(values)
                          && Cells == Grids.DeleteRow(old(Cells), row)
      ensures o.Fail? ==> height == old(height) && values == old(values) && Cells == old(Cells)
    {
      if row < 0 || row >= height {
        return Fail(OutOfBounds);
      }
      var d := defaultVal;
      var nv := new T[height - 1, width]((i, j) => d);
      for i := 0 to row
        modifies nv
        invariant forall i', j :: 0 <= i' < i && 0 <= j < width ==> nv[i', j] == values[i', j]
      {
        CopyRow(values, i, nv, i);
      }
      for i := row + 1 to height
        modifies nv
        invariant forall i', j :: 0 <= i' < row && 0 <= j < width ==> nv[i', j] == values[i', j]
        invariant forall i', j :: row <= i' < i - 1 && 0 <= j < width ==> nv[i', j] == values[i' + 1, j]
      {
        CopyRow(values, i, nv, i - 1);
      }
      DeleteRowShape(Cells, height, width, row);
      values := nv;
      height := height - 1;
      Cells := Grids.DeleteRow(Cells, row);
      return Pass;
    }

    /** Removes column `col` from every row; the cells after it move left.
        An index outside `[0, width)` fails with `OutOfBounds` and changes
        nothing. */
    method DeleteCol(col: int) returns (o: Outcome)
      requires Valid()
      modifies this
      ensures Valid() && height == old(height) && defaultVal == old(defaultVal)
      ensures o == if 0 <= col < old(width) then Pass else Fail(OutOfBounds)
      ensures o.Pass? ==> && width == old(width) - 1 && fresh(values)
                          && Cells == Grids.DeleteCol(old(Cells), col)
      ensures o.Fail? ==> width == old(width) && values == old(values) && Cells == old(Cells)
    {
      if col < 0 || col >= width {
        return Fail(OutOfBounds);
      }
      var d := defaultVal;
      var nv := new T[height, width - 1]((i, j) => d);
      ghost var g' := Grids.DeleteCol(Cells, col);
      for i := 0 to height
        modifies nv
        invariant forall i', j :: 0 <= i' < i && 0 <= j < width - 1 ==> nv[i', j] == g'[i'][j]
      {
        DeleteCellInRow(values, nv, i, col);
        assert forall j :: 0 <= j < width - 1 ==> nv[i, j] == g'[i][j];
      }
      values := nv;
      width := width - 1;
      Cells := g';
      return Pass;
    }

    /** Sets every cell of `[startRow, endRow) x [startCol, endCol)` to `val`.
        It fails with `OutOfBounds`, changing nothing, when the region
        reaches above, left of, below or right of the matrix; an empty
        region is allowed and changes nothing. */
    method FillRegion(startRow: int, startCol: int, endRow: int, endCol: int, val: T) returns (o: Outcome)
      requires Valid()
      modifies this, values
      ensures Valid() && values == old(values)
      ensures width == old(width) && height == old(height) && defaultVal == old(defaultVal)
      ensures o == if startRow < 0 || startCol < 0 || endRow > old(height) || endCol > old(width)
                   then Fail(OutOfBounds) else Pass
      ensures Cells == if o.Pass? then Grids.FillRegion(old(Cells), startRow, startCol, endRow, endCol, val)
                       else old(Cells)
    {
      if startRow < 0 || startCol < 0 || endRow > height || endCol > width {
        return Fail(OutOfBounds);
      }
      var i := startRow;
      while i < endRow
        modifies values
        invariant startRow <= i && (i > startRow ==> i <= endRow)
        invariant forall r, c :: 0 <= r < height && 0 <= c < width ==>
          values[r, c] == if InRegion(r, c, startRow, startCol, i, endCol) then val else old(values[r, c])
      {
        var j := startCol;
        while j < endCol
          modifies values
          invariant startCol <= j && (j > startCol ==> j <= endCol)
          invariant forall r, c :: 0 <= r < height && 0 <= c < width ==>
            values[r, c] == if InRegion(r, c, startRow, startCol, i, endCol) || (r == i && startCol <= c < j)
                            then val else old(values[r, c])
        {
          values[i, j] := val;
          j := j + 1;
        }
        i := i + 1;
      }
      Cells := Grids.FillRegion(Cells, startRow, startCol, endRow, endCol, val);
      return Pass;
    }

    /** Sets the cells `(startRow + k * deltaRow, startCol + k * deltaCol)`
        for k = 0, 1, ... while the row is below `endRow` and the column below
        `endCol`.  Nothing is checked beforehand: a write outside the matrix
        stops the fill with `OutOfBounds`, keeping the writes before it.  With
        both steps zero the loop would never end once it has written its first
        cell, so only the calls that stop at once are admitted. */
    method FillLine(startRow: int, startCol: int, deltaRow: int, deltaCol: int, endRow: int, endCol: int, val: T)
      returns (o: Outcome)
      requires Valid()
      requires deltaRow != 0 || deltaCol != 0 || !(startRow < endRow && startCol < endCol)
            || !(0 <= startRow < height && 0 <= startCol < width)
      modifies this, values
      ensures Valid() && values == old(values)
      ensures width == old(width) && height == old(height) && defaultVal == old(defaultVal)
      ensures (Cells, o) == LineFill.FillLine(old(Cells), startRow, startCol, deltaRow, deltaCol, endRow, endCol, val)
    {
      var row, col := startRow, startCol;
      while row < endRow && col < endCol
        invariant Valid() && values == old(values)
        invariant width == old(width) && height == old(height) && defaultVal == old(defaultVal)
        invariant deltaRow != 0 || deltaCol != 0 || (row == startRow && col == startCol)
        invariant LineFill.FillLine(Cells, row, col, deltaRow, deltaCol, endRow, endCol, val)
               == LineFill.FillLine(old(Cells), startRow, startCol, deltaRow, deltaCol, endRow, endCol, val)
        decreases LineFill.LineMeasure(row, col, deltaRow, deltaCol, endRow, endCol)
      {
        if row < 0 || row >= height || col < 0 || col >= width {
          return Fail(OutOfBounds);
        }
        values[row, col] := val;
        Cells := Update(Cells, row, col, val);
        row := row + deltaRow;
        col := col + deltaCol;
      }
      return Pass;
    }

    /** A new matrix with the same width, height, default value and cells,
        in a store of its own. */
    method Clone() returns (copy: MatrixV0<T>)
      requires Valid()
      ensures fresh(copy) && fresh(copy.values) && copy.Valid()
      ensures copy.width == width && copy.height == height && copy.defaultVal == defaultVal
      ensures copy.Cells == Cells
    {
      copy := new MatrixV0.Init(width, height, defaultVal);
      for i := 0 to height
        invariant fresh(copy) && fresh(copy.values) && copy.Valid()
        invariant copy.width == width && copy.height == height && copy.defaultVal == defaultVal
        invariant forall r, c :: 0 <= r < i && 0 <= c < width ==> copy.Cells[r][c] == Cells[r][c]
      {
        for j := 0 to width
          invariant fresh(copy) && fresh(copy.values) && copy.Valid()
          invariant copy.width == width && copy.height == height && copy.defaultVal == defaultVal
          invariant forall r, c :: 0 <= r < i && 0 <= c < width ==> copy.Cells[r][c] == Cells[r][c]
          invariant forall c :: 0 <= c < j ==> copy.Cells[i][c] == Cells[i][c]
        {
          var _ := copy.Set(i, j, values[i, j]);
        }
      }
      assert forall r :: 0 <= r < height ==> copy.Cells[r] == Cells[r];
    }

    /** Whether `other` has the same width and height as this matrix and the
        same value in every cell.  The default values are not compared. */
    method Equals(other: MatrixV0<T>) returns (eq: bool)
      requires Valid() && other.Valid()
      ensures eq <==> width == other.width && height == other.height && Cells == other.Cells
    {
      if width != other.width || height != other.height {
        return false;
      }
      for row := 0 to height
        invariant forall r, c :: 0 <= r < row && 0 <= c < width ==> Cells[r][c] == other.Cells[r][c]
      {
        for col := 0 to width
          invariant forall r, c :: 0 <= r < row && 0 <= c < width ==> Cells[r][c] == other.Cells[r][c]
          invariant forall c :: 0 <= c < col ==> Cells[row][c] == other.Cells[row][c]
        {
          var thisValue := Get(row, col).value;
          var otherValue := other.Get(row, col).value;
          if thisValue != otherValue {
            return false;
          }
        }
      }
      assert forall r :: 0 <= r < height ==> Cells[r] == other.Cells[r];
      return true;
    }
  }
}
