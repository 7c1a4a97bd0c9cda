# MatrixV0 in Dafny

A verified model of `MatrixV0<T>`, the generic dense matrix of the
`edu.grinnell.csc207.util` package. The matrix has a width, a height and a
default value. Its row-major store can be read and written cell by cell
(`get`, `set`), resized by inserting or deleting a row or a column,
bulk-written over a rectangle (`fillRegion`) or along a line (`fillLine`),
cloned, and compared cell by cell (`equals`).

The project has four modules:

- `Grids` (grids.dfy) describes the contents of a matrix as a value: a
  `seq<seq<T>>` of rows. It has one function per structural operation
  (`Update`, `InsertRow`, `DeleteRow`, `InsertCol`, `DeleteCol`,
  `FillRegion`) and the lemmas linking them: shape is preserved, delete
  undoes insert (rows and columns, both directions), an empty fill changes
  nothing, and filling twice is the same as filling once. It also defines the
  error kinds `InvalidSize | OutOfBounds | SizeMismatch` and the result types
  `Outcome` and `Result`.
- `LineFill` (line_fill.dfy) models the `fillLine` loop, including the fault
  when a write falls outside the store. It also gives the positions the loop
  visits. For non-negative steps its lemmas prove:
  - the k-th visited cell is `(startRow + k·deltaRow, startCol + k·deltaCol)`;
  - the loop stops at the first position that leaves the bounds;
  - the fill succeeds iff every visited cell is inside the grid;
  - when it succeeds, exactly the visited cells change.
- `Matrices` (matrix_v0.dfy) holds the class `MatrixV0<T(==)>`. Its fields
  are `width`, `height`, `defaultVal` and an `array2<T>` store, plus the
  ghost field `Cells`. `Valid()` says the store has `height` rows of `width`
  cells and holds `Cells`. Each method uses the Java method's loops over the
  array. Its contract gives the error outcome exactly, using the same checks
  in the same order as the Java code. It also states the new `Cells` in terms
  of the `Grids` functions, and what stays the same. Resizing builds a fresh
  store, as the Java code does.
- `Scenarios` (scenarios.dfy) covers each of the fourteen unit tests in
  `TestsByStudent.java` with a member whose contract is the test's assertion,
  and round trips across several calls:
  - set then get;
  - insert then delete, for rows and for columns;
  - cloning, then writing to one copy without affecting the other.

Java exceptions become return values. A constructor with a negative size
(`NegativeArraySizeException`) becomes `Create` returning `Err(InvalidSize)`.
`IndexOutOfBoundsException` becomes `OutOfBounds`, and `ArraySizeException`
becomes `SizeMismatch`. Every failing operation except `fillLine` returns
before it changes anything, and the contracts say so.

`insertCol(col, vals)` always adds a new column and never overwrites one.
Inserting a default column and then `[9, 9]` at index 1 of a 2×2 grid of
zeros gives `[[0,9,0,0],[0,9,0,0]]` (`Scenarios.InsertTwoColumns`).

## Model

| member | source | states |
|---|---|---|
| `Grids.Filled` | src/main/java/edu/grinnell/csc207/util/MatrixV0.java:62-67 | a fresh store has `height` rows of `width` cells, every one equal to the default |
| `Grids.Update` | src/main/java/edu/grinnell/csc207/util/MatrixV0.java:115 | writing one cell keeps the shape, sets that cell, and leaves every other cell unchanged |
| `Grids.InsertRow` | src/main/java/edu/grinnell/csc207/util/MatrixV0.java:150-159 | one more row; rows before `r` kept, row `r` is the new row, old rows from `r` on sit one index lower |
| `Grids.DeleteRow` | src/main/java/edu/grinnell/csc207/util/MatrixV0.java:266-274 | one row fewer; rows before `r` kept, rows after `r` move up by one |
| `Grids.InsertCol` | src/main/java/edu/grinnell/csc207/util/MatrixV0.java:204-215 | each row one cell longer; cells before `c` kept, cell `c` of row `i` is `col[i]`, old cells from `c` on move right by one |
| `Grids.DeleteCol` | src/main/java/edu/grinnell/csc207/util/MatrixV0.java:290-300 | each row one cell shorter; cells before `c` kept, cells after `c` move left by one |
| `Grids.FillRegion` | src/main/java/edu/grinnell/csc207/util/MatrixV0.java:321-325 | shape kept; a cell becomes `v` exactly when it lies in `[sr, er) x [sc, ec)`, all others unchanged |
| `Grids.InsertRowShape` | src/main/java/edu/grinnell/csc207/util/MatrixV0.java:150-160 | inserting a row of `width` cells into a `height` by `width` grid yields a `height + 1` by `width` grid |
| `Grids.DeleteRowShape` | src/main/java/edu/grinnell/csc207/util/MatrixV0.java:266-275 | deleting a row of a `height` by `width` grid yields a `height - 1` by `width` grid |
| `Grids.DeleteRowAfterInsertRow` | src/main/java/edu/grinnell/csc207/util/MatrixV0.java:173-190 | deleting row `r` right after inserting a row at `r` restores the original contents |
| `Grids.InsertRowAfterDeleteRow` | src/main/java/edu/grinnell/csc207/util/MatrixV0.java:261-276 | re-inserting the deleted row at its index restores the original contents |
| `Grids.DeleteColAfterInsertCol` | src/main/java/edu/grinnell/csc207/util/MatrixV0.java:229-252 | deleting column `c` right after inserting a column at `c` restores the original contents |
| `Grids.InsertColAfterDeleteCol` | src/main/java/edu/grinnell/csc207/util/MatrixV0.java:285-302 | re-inserting the deleted column at its index restores the original contents |
| `Grids.FillEmptyRegion` | src/main/java/edu/grinnell/csc207/util/MatrixV0.java:321-325 | a region with `er <= sr` or `ec <= sc` changes nothing |
| `Grids.FillRegionIdempotent` | src/main/java/edu/grinnell/csc207/util/MatrixV0.java:316-326 | filling the same region with the same value twice equals filling it once |
| `Grids.FillRegionLastRow` | src/main/java/edu/grinnell/csc207/util/MatrixV0.java:321-325 | a region splits off its last row: filling rows `[sr, er)` equals filling rows `[sr, er - 1)` and then the one-row region `[er - 1, er)` |
| `LineFill.FillLine` | src/main/java/edu/grinnell/csc207/util/MatrixV0.java:341-349 | the loop's writes and outcome, for steps of any sign: shape kept; a start already past an end is a no-op success; the only failure is `OutOfBounds` |
| `LineFill.LinePoints` | src/main/java/edu/grinnell/csc207/util/MatrixV0.java:342-348 | for non-negative steps, the visited positions all lie in `[startRow, endRow) x [startCol, endCol)` |
| `LineFill.LinePointAt` | src/main/java/edu/grinnell/csc207/util/MatrixV0.java:344-347 | the k-th visited position is `(startRow + k·deltaRow, startCol + k·deltaCol)` |
| `LineFill.LineStops` | src/main/java/edu/grinnell/csc207/util/MatrixV0.java:344 | after `n` writes, the next position has its row at or past `endRow` or its column at or past `endCol` |
| `LineFill.FillLineSucceedsIff` | src/main/java/edu/grinnell/csc207/util/MatrixV0.java:341-349 | for non-negative steps, the fill succeeds iff every visited position is a cell of the grid |
| `LineFill.FillLineMarksLine` | src/main/java/edu/grinnell/csc207/util/MatrixV0.java:341-349 | for non-negative steps staying in the grid, the fill succeeds and a cell becomes `v` iff it is a visited position; all others unchanged |
| `LineFill.LineInsideGrid` | src/main/java/edu/grinnell/csc207/util/MatrixV0.java:341-349 | a line starting at non-negative indices and ending no further than the grid's height and width never leaves the grid |
| `Matrices.CopyRow` | src/main/java/edu/grinnell/csc207/util/MatrixV0.java:151-153 | the destination row equals the source row; all other destination rows unchanged |
| `Matrices.WriteRow` | src/main/java/edu/grinnell/csc207/util/MatrixV0.java:155 | the destination row equals the given row; all other destination rows unchanged |
| `Matrices.InsertCellInRow` | src/main/java/edu/grinnell/csc207/util/MatrixV0.java:206-212 | within row `i`: cells before `col` copied, cell `col` is `x`, later cells shifted right by one; other rows unchanged |
| `Matrices.DeleteCellInRow` | src/main/java/edu/grinnell/csc207/util/MatrixV0.java:292-298 | within row `i`: cells before `col` copied, later cells shifted left by one; other rows unchanged |
| `Matrices.MatrixV0.Init` | src/main/java/edu/grinnell/csc207/util/MatrixV0.java:59-67 | the new matrix is valid, has the given width, height and default, and every cell is the default |
| `Matrices.MatrixV0.Create` | src/main/java/edu/grinnell/csc207/util/MatrixV0.java:55-68 | fails with `InvalidSize` iff width or height is negative; otherwise a fresh matrix of those dimensions filled with the default |
| `Matrices.MatrixV0.Height` | src/main/java/edu/grinnell/csc207/util/MatrixV0.java:124-126 | the number of rows of the contents and of the store |
| `Matrices.MatrixV0.Width` | src/main/java/edu/grinnell/csc207/util/MatrixV0.java:134-136 | the number of columns of the store and the length of every row of the contents |
| `Matrices.MatrixV0.Get` | src/main/java/edu/grinnell/csc207/util/MatrixV0.java:95-100 | the cell's value iff `0 <= row < height` and `0 <= col < width`; `OutOfBounds` otherwise |
| `Matrices.MatrixV0.Set` | src/main/java/edu/grinnell/csc207/util/MatrixV0.java:111-116 | `OutOfBounds` and no change iff the cell is outside; otherwise only that cell changes; dimensions and default kept |
| `Matrices.MatrixV0.PlaceRow` | src/main/java/edu/grinnell/csc207/util/MatrixV0.java:180-189 | a freshly built store holding the contents with the new row inserted; height one larger, width kept |
| `Matrices.MatrixV0.InsertRow` | src/main/java/edu/grinnell/csc207/util/MatrixV0.java:145-161 | valid iff `0 <= row <= height`; then a default row is inserted at `row` and the height grows by one; otherwise nothing changes |
| `Matrices.MatrixV0.InsertRowValues` | src/main/java/edu/grinnell/csc207/util/MatrixV0.java:173-190 | index checked first (`OutOfBounds`), then `|vals| == width` (`SizeMismatch`); on failure nothing changes; on success `vals` is the new row |
| `Matrices.MatrixV0.PlaceCol` | src/main/java/edu/grinnell/csc207/util/MatrixV0.java:238-251 | a freshly built store holding the contents with the new column inserted; width one larger, height kept |
| `Matrices.MatrixV0.InsertCol` | src/main/java/edu/grinnell/csc207/util/MatrixV0.java:199-217 | valid iff `0 <= col <= width`; then a default column is inserted at `col` and the width grows by one; otherwise nothing changes |
| `Matrices.MatrixV0.InsertColValues` | src/main/java/edu/grinnell/csc207/util/MatrixV0.java:229-252 | index checked first (`OutOfBounds`), then `|vals| == height` (`SizeMismatch`); on failure nothing changes; on success row `i` gets `vals[i]` at `col` |
| `Matrices.MatrixV0.DeleteRow` | src/main/java/edu/grinnell/csc207/util/MatrixV0.java:261-276 | valid iff `0 <= row < height` (so never on an empty matrix); then that row is removed and the height shrinks by one; otherwise nothing changes |
| `Matrices.MatrixV0.DeleteCol` | src/main/java/edu/grinnell/csc207/util/MatrixV0.java:285-302 | valid iff `0 <= col < width`; then that column is removed from every row and the width shrinks by one; otherwise nothing changes |
| `Matrices.MatrixV0.FillRegion` | src/main/java/edu/grinnell/csc207/util/MatrixV0.java:316-326 | fails, changing nothing, iff `startRow < 0`, `startCol < 0`, `endRow > height` or `endCol > width`; otherwise exactly the region's cells become `val` |
| `Matrices.MatrixV0.FillLine` | src/main/java/edu/grinnell/csc207/util/MatrixV0.java:341-349 | the new contents and outcome are those of `LineFill.FillLine` on the old contents; dimensions, default and store kept |
| `Matrices.MatrixV0.Clone` | src/main/java/edu/grinnell/csc207/util/MatrixV0.java:357-365 | a fresh, valid matrix in a fresh store with the same width, height, default and contents |
| `Matrices.MatrixV0.Equals` | src/main/java/edu/grinnell/csc207/util/MatrixV0.java:382-398 | true iff widths and heights agree and every cell is equal; the default values are not compared |
| `Scenarios.FillRegionSquare` | src/test/java/edu/grinnell/csc207/util/TestsByStudent.java:122-126 | filling `(0,0)`–`(2,2)` (exclusive) of a 3 by 3 grid sets exactly the four cells of that square |
| `Scenarios.FillLineDiagonal` | src/test/java/edu/grinnell/csc207/util/TestsByStudent.java:132-136 | the diagonal fill of a 3 by 3 grid sets `(0,0)`, `(1,1)`, `(2,2)` and nothing else, and succeeds |
| `Scenarios.FillLineAntiDiagonal` | src/main/java/edu/grinnell/csc207/util/MatrixV0.java:341-349 | with steps `(-1, 1)` from `(2, 0)` of a 3 by 3 grid the fill sets `(2,0)`, `(1,1)`, `(0,2)` and stops without a fault when the column reaches its end |
| `Scenarios.ZeroStepFills` | src/main/java/edu/grinnell/csc207/util/MatrixV0.java:341-349 | with both steps zero, a start not below both ends writes nothing, and a start outside the matrix faults with `OutOfBounds` at once |
| `Scenarios.InsertTwoColumns` | src/main/java/edu/grinnell/csc207/util/MatrixV0.java:199-252 | a default column and then `[9, 9]` inserted at index 1 of a 2 by 2 grid of zeros give `[[0,9,0,0],[0,9,0,0]]` |
| `Scenarios.InsertedRowReadsBack` | src/test/java/edu/grinnell/csc207/util/TestsByStudent.java:69-73 | the inserted row reads back its values, also when appended after the last row; a row it displaced is one index lower |
| `Scenarios.SetThenGet` | src/test/java/edu/grinnell/csc207/util/TestsByStudent.java:18-32 | reading a cell right after setting it gives the value set, or `OutOfBounds` for a non-cell |
| `Scenarios.InsertThenDeleteRow` | src/main/java/edu/grinnell/csc207/util/MatrixV0.java:173-276 | on a matrix object, deleting the row just inserted restores height and contents |
| `Scenarios.InsertThenDeleteCol` | src/main/java/edu/grinnell/csc207/util/MatrixV0.java:229-302 | on a matrix object, deleting the column just inserted restores width and contents |
| `Scenarios.CloneThenSetCopy` | src/test/java/edu/grinnell/csc207/util/TestsByStudent.java:142-146 | a clone `equals` its original, and writing to the clone leaves the original unchanged |
| `Scenarios.CloneThenSetOriginal` | src/main/java/edu/grinnell/csc207/util/MatrixV0.java:357-365 | writing to the original after cloning leaves the clone unchanged |
| `Scenarios.FillRegionThreeByThree` | src/test/java/edu/grinnell/csc207/util/TestsByStudent.java:122-126 | after the test's fill, `(1,1)` holds 9 and `(2,2)` still holds 0 |
| `Scenarios.FillLineThreeByThree` | src/test/java/edu/grinnell/csc207/util/TestsByStudent.java:132-136 | after the test's diagonal fill, `(1,1)` holds "L" and `(0,1)` the default |
| `Scenarios.HeightAndWidthFourByFive` | src/test/java/edu/grinnell/csc207/util/TestsByStudent.java:38-52 | a matrix built 4 wide and 5 high reports height 5 and width 4 |
| `Scenarios.InsertRowThreeByThree` | src/test/java/edu/grinnell/csc207/util/TestsByStudent.java:58-63 | inserting a default row at 1 of a 3 by 3 matrix passes and gives height 4 |
| `Scenarios.InsertColTwoByTwo` | src/test/java/edu/grinnell/csc207/util/TestsByStudent.java:79-84 | inserting a default column at 1 of a 2 by 2 matrix passes and gives width 3 |
| `Scenarios.InsertColValuesTwoByTwo` | src/test/java/edu/grinnell/csc207/util/TestsByStudent.java:90-94 | inserting `["A", "B"]` at column 1 of a 2 by 2 matrix passes and `(0,1)` then holds "A" |
| `Scenarios.DeleteRowTwoByTwo` | src/test/java/edu/grinnell/csc207/util/TestsByStudent.java:100-105 | deleting row 1 of a 2 by 2 matrix passes and gives height 1 |
| `Scenarios.DeleteColTwoByTwo` | src/test/java/edu/grinnell/csc207/util/TestsByStudent.java:111-116 | deleting column 1 of a 2 by 2 matrix passes and gives width 1 |
| `Scenarios.EqualsSameContents` | src/test/java/edu/grinnell/csc207/util/TestsByStudent.java:152-156 | two separately built 2 by 2 matrices filled with "A" are equal |
| `Scenarios.NegativeSizeRefused` | src/main/java/edu/grinnell/csc207/util/MatrixV0.java:56-58 | a negative width is refused with `InvalidSize` |

## Left out

- `hashCode` (MatrixV0.java:407-413) is not modelled. It depends on Java's 32-bit wrap-around arithmetic and on `Arrays.hashCode` of opaque elements.
- The two-argument constructor with a `null` default (MatrixV0.java:79-81) is not modelled. Dafny has no `null` for an arbitrary `T`, so every matrix is built with an explicit default.
- `equals(Object)` accepts any object and tests `instanceof Matrix<?>`. That dispatch is not modelled: `Equals` compares with another `MatrixV0<T>`, and Java's null-aware element comparison becomes Dafny equality on `T(==)`.
- The `Matrix<T>` interface and the `ArraySizeException` class are not part of this model. The exception is the `SizeMismatch` error.
- Java's 32-bit `int` is modelled as an unbounded integer. So `height + 1` overflowing in a resize, or `row += deltaRow` wrapping in `fillLine`, are not modelled.
- The store is an `array2<T>`, not an array of row arrays. Java copies row references when it moves a row; the model copies the row's cells (`CopyRow`). The two give the same contents, but the model has no row sharing.
- `InsertRowValues` stores the caller's `vals` as a snapshot (`seq<T>`). In the Java code the stored row is the caller's array itself, so later changes to that array show up in the matrix. The model leaves that aliasing out.
- The constructor's `Arrays.fill` loop (MatrixV0.java:65-67) is modelled by the array's initialiser, which puts the default in every cell.
- `Matrices.MatrixV0.FillLine` and `LineFill.FillLine` do not admit one kind of call: both steps zero, with the start below both ends and inside the matrix. The Java loop then writes the same cell forever. Every other call is modelled, including zero-step calls that stop at once. A write outside the matrix returns `OutOfBounds` and keeps the writes made before it, like the Java array's index fault.
- `LineFill.LinePoints` and the lemmas built on it (`LinePointAt`, `LineStops`, `FillLineSucceedsIff`, `FillLineMarksLine`) hold only for non-negative steps. With a negative step, the loop ends either when the other coordinate reaches its bound or through the out-of-bounds fault. These lemmas do not describe such fills; `LineFill.FillLine`, the method's contract and `Scenarios.FillLineAntiDiagonal` do.
- Unchecked generic array casts (MatrixV0.java:62, 150 and others) have no counterpart, because Dafny arrays are typed.
