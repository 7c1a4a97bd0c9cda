/**
 * The abstract contents of a dense matrix: a sequence of rows, each a
 * sequence of cells, indexed `g[row][col]`.  Every structural operation of
 * the matrix class is specified by one of the functions below, and the
 * lemmas state how those operations relate to each other.
 */
module Grids {

  /** The ways an operation on a matrix can fail. */
  datatype Error = InvalidSize | OutOfBounds | SizeMismatch

  /** The result of an operation that returns nothing when it succeeds. */
  datatype Outcome = Pass | Fail(error: Error)

  /** The result of an operation that returns a value when it succeeds. */
  datatype Result<R> = Ok(value: R) | Err(error: Error)

  /** `g` has exactly `h` rows of exactly `w` cells each. */
  predicate IsGrid<T>(g: seq<seq<T>>, h: int, w: int) {
    |g| == h && forall i :: 0 <= i < |g| ==> |g[i]| == w
  }

  /** `(r, c)` names a cell of `g`. */
  predicate InBounds<T>(g: seq<seq<T>>, r: int, c: int) {
    0 <= r < |g| && 0 <= c < |g[r]|
  }

  /** A row of `n` copies of `d`. */
  function Constant<T>(n: nat, d: T): (row: seq<T>)
    ensures |row| == n
    ensures forall j :: 0 <= j < n ==> row[j] == d
  {
    seq(n, _ => d)
  }

  /** A grid of `h` rows and `w` columns whose every cell is `d`. */
  function Filled<T>(h: nat, w: nat, d: T): (g: seq<seq<T>>)
    ensures IsGrid(g, h, w)
    ensures forall i, j :: 0 <= i < h && 0 <= j < w ==> g[i][j] == d
  {
    seq(h, _ => Constant(w, d))
  }

  /** Column `c` of `g`, top to bottom. */
  function Column<T>(g: seq<seq<T>>, c: int): (col: seq<T>)
    requires 0 <= c && forall i :: 0 <= i < |g| ==> c < |g[i]|
    ensures |col| == |g|
    ensures forall i :: 0 <= i < |g| ==> col[i] == g[i][c]
  {
    seq(|g|, i requires 0 <= i < |g| => g[i][c])
  }

  /** `g` with the one cell `(r, c)` replaced by `v`. */
  function Update<T>(g: seq<seq<T>>, r: int, c: int, v: T): (g': seq<seq<T>>)
    requires InBounds(g, r, c)
    ensures |g'| == |g| && forall i :: 0 <= i < |g| ==> |g'[i]| == |g[i]|
    ensures g'[r][c] == v
    ensures forall i, j :: 0 <= i < |g| && 0 <= j < |g[i]| && (i != r || j != c) ==> g'[i][j] == g[i][j]
  {
    g[r := g[r][c := v]]
  }

  /** `g` with `row` placed at index `r`; the rows from `r` on move down by one. */
  function InsertRow<T>(g: seq<seq<T>>, r: int, row: seq<T>): (g': seq<seq<T>>)
    requires 0 <= r <= |g|
    ensures |g'| == |g| + 1
    ensures forall i :: 0 <= i < r ==> g'[i] == g[i]
    ensures g'[r] == row
    ensures forall i :: r < i <= |g| ==> g'[i] == g[i - 1]
  {
    g[..r] + [row] + g[r..]
  }

  /** `g` without row `r`; the rows after it move up by one. */
  function DeleteRow<T>(g: seq<seq<T>>, r: int): (g': seq<seq<T>>)
    requires 0 <= r < |g|
    ensures |g'| == |g| - 1
    ensures forall i :: 0 <= i < r ==> g'[i] == g[i]
    ensures forall i :: r <= i < |g| - 1 ==> g'[i] == g[i + 1]
  {
    g[..r] + g[r + 1..]
  }

  /** `g` with `col[i]` placed at column `c` of every row `i`; the cells from `c` on move right by one. */
  function InsertCol<T>(g: seq<seq<T>>, c: int, col: seq<T>): (g': seq<seq<T>>)
    requires 0 <= c && |col| == |g|
    requires forall i :: 0 <= i < |g| ==> c <= |g[i]|
    ensures |g'| == |g|
    ensures forall i :: 0 <= i < |g| ==> |g'[i]| == |g[i]| + 1
    ensures forall i, j :: 0 <= i < |g| && 0 <= j < c ==> g'[i][j] == g[i][j]
    ensures forall i :: 0 <= i < |g| ==> g'[i][c] == col[i]
    ensures forall i, j :: 0 <= i < |g| && c < j <= |g[i]| ==> g'[i][j] == g[i][j - 1]
  {
    seq(|g|, i requires 0 <= i < |g| => g[i][..c] + [col[i]] + g[i][c..])
  }

  /** `g` without column `c`; in every row the cells after `c` move left by one. */
  function DeleteCol<T>(g: seq<seq<T>>, c: int): (g': seq<seq<T>>)
    requires 0 <= c && forall i :: 0 <= i < |g| ==> c < |g[i]|
    ensures |g'| == |g|
    ensures forall i :: 0 <= i < |g| ==> |g'[i]| == |g[i]| - 1
    ensures forall i, j :: 0 <= i < |g| && 0 <= j < c ==> g'[i][j] == g[i][j]
    ensures forall i, j :: 0 <= i < |g| && c <= j < |g[i]| - 1 ==> g'[i][j] == g[i][j + 1]
  {
    seq(|g|, i requires 0 <= i < |g| => g[i][..c] + g[i][c + 1..])
  }

  /** The cell `(i, j)` lies in the half-open region `[sr, er) x [sc, ec)`. */
  predicate InRegion(i: int, j: int, sr: int, sc: int, er: int, ec: int) {
    sr <= i < er && sc <= j < ec
  }

  /** `g` with every cell of the region `[sr, er) x [sc, ec)` set to `v`. */
  function FillRegion<T>(g: seq<seq<T>>, sr: int, sc: int, er: int, ec: int, v: T): (g': seq<seq<T>>)
    ensures |g'| == |g| && forall i :: 0 <= i < |g| ==> |g'[i]| == |g[i]|
    ensures forall i, j :: 0 <= i < |g| && 0 <= j < |g[i]| ==>
      g'[i][j] == if InRegion(i, j, sr, sc, er, ec) then v else g[i][j]
  {
    seq(|g|, i requires 0 <= i < |g| =>
      seq(|g[i]|, j requires 0 <= j < |g[i]| => if InRegion(i, j, sr, sc, er, ec) then v else g[i][j]))
  }

  // ---------------------------------------------------------------------
  // Shape: every successful operation keeps the grid rectangular.
  // ---------------------------------------------------------------------

  lemma InsertRowShape<T>(g: seq<seq<T>>, h: nat, w: nat, r: int, row: seq<T>)
    requires IsGrid(g, h, w) && 0 <= r <= h && |row| == w
    ensures IsGrid(InsertRow(g, r, row), h + 1, w)
  {
  }

  lemma DeleteRowShape<T>(g: seq<seq<T>>, h: nat, w: nat, r: int)
    requires IsGrid(g, h, w) && 0 <= r < h
    ensures IsGrid(DeleteRow(g, r), h - 1, w)
  {
  }

  // ---------------------------------------------------------------------
  // Inverses: deleting what was just inserted gives back the original,
  // and re-inserting what was just deleted does too.
  // ---------------------------------------------------------------------

  lemma DeleteRowAfterInsertRow<T>(g: seq<seq<T>>, r: int, row: seq<T>)
    requires 0 <= r <= |g|
    ensures DeleteRow(InsertRow(g, r, row), r) == g
  {
  }

  lemma InsertRowAfterDeleteRow<T>(g: seq<seq<T>>, r: int)
    requires 0 <= r < |g|
    ensures InsertRow(DeleteRow(g, r), r, g[r]) == g
  {
  }

  lemma {:induction false} DeleteColAfterInsertCol<T>(g: seq<seq<T>>, h: nat, w: nat, c: int, col: seq<T>)
    requires IsGrid(g, h, w) && 0 <= c <= w && |col| == h
    ensures DeleteCol(InsertCol(g, c, col), c) == g
  {
    var ins := InsertCol(g, c, col);
    var g' := DeleteCol(ins, c);
    forall i | 0 <= i < h ensures g'[i] == g[i] {
      assert |g'[i]| == |g[i]|;
      forall j | 0 <= j < w ensures g'[i][j] == g[i][j] {
        if j >= c {
          assert g'[i][j] == ins[i][j + 1];
        }
      }
    }
  }

  lemma {:induction false} InsertColAfterDeleteCol<T>(g: seq<seq<T>>, h: nat, w: nat, c: int)
    requires IsGrid(g, h, w) && 0 <= c < w
    ensures InsertCol(DeleteCol(g, c), c, Column(g, c)) == g
  {
    var del := DeleteCol(g, c);
    var g' := InsertCol(del, c, Column(g, c));
    forall i | 0 <= i < h ensures g'[i] == g[i] {
      assert |g'[i]| == |g[i]|;
      forall j | 0 <= j < w ensures g'[i][j] == g[i][j] {
        if j > c {
          assert g'[i][j] == del[i][j - 1];
        }
      }
    }
  }

  // ---------------------------------------------------------------------
  // Filling a region.
  // ---------------------------------------------------------------------

  /** An empty region changes nothing. */
  lemma {:induction false} FillEmptyRegion<T>(g: seq<seq<T>>, sr: int, sc: int, er: int, ec: int, v: T)
    requires er <= sr || ec <= sc
    ensures FillRegion(g, sr, sc, er, ec, v) == g
  {
    var g' := FillRegion(g, sr, sc, er, ec, v);
    forall i | 0 <= i < |g| ensures g'[i] == g[i] {
      assert |g'[i]| == |g[i]|;
    }
  }

  /** Filling the same region with the same value twice is the same as filling it once. */
  lemma {:induction false} FillRegionIdempotent<T>(g: seq<seq<T>>, sr: int, sc: int, er: int, ec: int, v: T)
    ensures FillRegion(FillRegion(g, sr, sc, er, ec, v), sr, sc, er, ec, v) == FillRegion(g, sr, sc, er, ec, v)
  {
    var once := FillRegion(g, sr, sc, er, ec, v);
    var twice := FillRegion(once, sr, sc, er, ec, v);
    forall i | 0 <= i < |g| ensures twice[i] == once[i] {
      assert |twice[i]| == |once[i]|;
    }
  }

  /** A region splits off its last row: filling rows `[sr, er)` equals
      filling rows `[sr, er - 1)` and then the one-row region `[er - 1, er)`. */
  lemma {:induction false} FillRegionLastRow<T>(g: seq<seq<T>>, sr: int, sc: int, er: int, ec: int, v: T)
    requires sr < er
    ensures FillRegion(g, sr, sc, er, ec, v)
         == FillRegion(FillRegion(g, sr, sc, er - 1, ec, v), er - 1, sc, er, ec, v)
  {
    var whole := FillRegion(g, sr, sc, er, ec, v);
    var split := FillRegion(FillRegion(g, sr, sc, er - 1, ec, v), er - 1, sc, er, ec, v);
    forall i | 0 <= i < |g| ensures whole[i] == split[i] {
      assert |whole[i]| == |split[i]|;
    }
  }
}
