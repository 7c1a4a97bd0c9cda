/**
 * The line fill of the matrix: starting at `(r, c)`, the current cell is
 * set and the position advances by `(dr, dc)` for as long as the row stays
 * below `er` and the column below `ec`.  The matrix performs no bounds check
 * of its own here, so a write outside the grid is the store's own
 * out-of-bounds fault: the fill stops with `OutOfBounds` and keeps the
 * writes made before it.
 */
module LineFill {
  import opened Grids

  /** A bound on the remaining steps of the loop, which shrinks with every write
      that stays inside the grid, whatever the signs of the steps, as long as
      they are not both zero. */
  function LineMeasure(r: int, c: int, dr: int, dc: int, er: int, ec: int): nat {
    if dr > 0 then (if r < er then er - r else 0)
    else if dr < 0 then (if r >= 0 then r + 1 else 0)
    else if dc > 0 then (if c < ec then ec - c else 0)
    else if c >= 0 then c + 1 else 0
  }

  /** The cells the fill writes, in order, and its outcome.  With both steps
      zero the loop ends only when it stops at once: the start is not below
      both ends, or it is outside the grid. */
  function FillLine<T>(g: seq<seq<T>>, r: int, c: int, dr: int, dc: int, er: int, ec: int, v: T)
    : (res: (seq<seq<T>>, Outcome))
    requires dr != 0 || dc != 0 || !(r < er && c < ec) || !InBounds(g, r, c)
    ensures |res.0| == |g| && forall i :: 0 <= i < |g| ==> |res.0[i]| == |g[i]|
    ensures !(r < er && c < ec) ==> res == (g, Pass)
    ensures res.1 == Pass || res.1 == Fail(OutOfBounds)
    decreases LineMeasure(r, c, dr, dc, er, ec)
  {
    if !(r < er && c < ec) then (g, Pass)
    else if !InBounds(g, r, c) then (g, Fail(OutOfBounds))
    else FillLine(Update(g, r, c, v), r + dr, c + dc, dr, dc, er, ec, v)
  }

  /** The positions the loop visits when both steps are non-negative: they
      all keep the row below `er` and the column below `ec`, and never go
      back above or left of the start. */
  function LinePoints(r: int, c: int, dr: int, dc: int, er: int, ec: int): (ps: seq<(int, int)>)
    requires dr >= 0 && dc >= 0 && (dr > 0 || dc > 0)
    ensures forall p :: p in ps ==> r <= p.0 < er && c <= p.1 < ec
    decreases LineMeasure(r, c, dr, dc, er, ec)
  {
    if r < er && c < ec then [(r, c)] + LinePoints(r + dr, c + dc, dr, dc, er, ec) else []
  }

  /** The `k`-th visited position is the start advanced `k` times. */
  lemma {:induction false} LinePointAt(r: int, c: int, dr: int, dc: int, er: int, ec: int, k: nat)
    requires dr >= 0 && dc >= 0 && (dr > 0 || dc > 0)
    requires k < |LinePoints(r, c, dr, dc, er, ec)|
    ensures LinePoints(r, c, dr, dc, er, ec)[k] == (r + k * dr, c + k * dc)
    decreases k
  {
    if k > 0 {
      LinePointAt(r + dr, c + dc, dr, dc, er, ec, k - 1);
      assert (r + dr) + (k - 1) * dr == r + k * dr;
      assert (c + dc) + (k - 1) * dc == c + k * dc;
    }
  }

  /** The loop stops at the first position that leaves the bounds: after `n`
      writes, the start advanced `n` times has its row at or past `er` or its
      column at or past `ec`. */
  lemma {:induction false} LineStops(r: int, c: int, dr: int, dc: int, er: int, ec: int)
    requires dr >= 0 && dc >= 0 && (dr > 0 || dc > 0)
    ensures var n := |LinePoints(r, c, dr, dc, er, ec)|;
      !(r + n * dr < er && c + n * dc < ec)
    decreases LineMeasure(r, c, dr, dc, er, ec)
  {
    var n := |LinePoints(r, c, dr, dc, er, ec)|;
    if r < er && c < ec {
      LineStops(r + dr, c + dc, dr, dc, er, ec);
      assert (r + dr) + (n - 1) * dr == r + n * dr;
      assert (c + dc) + (n - 1) * dc == c + n * dc;
    }
  }

  /** With non-negative steps the fill fails exactly when some visited
      position lies outside the grid. */
  lemma {:induction false} FillLineSucceedsIff<T>(g: seq<seq<T>>, r: int, c: int, dr: int, dc: int, er: int, ec: int, v: T)
    requires dr >= 0 && dc >= 0 && (dr > 0 || dc > 0)
    ensures FillLine(g, r, c, dr, dc, er, ec, v).1 == Pass
        <==> forall p :: p in LinePoints(r, c, dr, dc, er, ec) ==> InBounds(g, p.0, p.1)
    decreases LineMeasure(r, c, dr, dc, er, ec)
  {
    if r < er && c < ec {
      var ps := LinePoints(r, c, dr, dc, er, ec);
      assert ps == [(r, c)] + LinePoints(r + dr, c + dc, dr, dc, er, ec);
      assert (r, c) in ps;
      if InBounds(g, r, c) {
        var g' := Update(g, r, c, v);
        FillLineSucceedsIff(g', r + dr, c + dc, dr, dc, er, ec, v);
        forall i: int, j: int ensures InBounds(g', i, j) == InBounds(g, i, j) {
          if 0 <= i < |g| {
            assert |g'[i]| == |g[i]|;
          }
        }
      }
    }
  }

  /** With non-negative steps and every visited position inside the grid, the
      fill succeeds and sets exactly the visited cells to `v`; every other
      cell keeps its value. */
  lemma {:induction false} FillLineMarksLine<T>(g: seq<seq<T>>, r: int, c: int, dr: int, dc: int, er: int, ec: int, v: T)
    requires dr >= 0 && dc >= 0 && (dr > 0 || dc > 0)
    requires forall p :: p in LinePoints(r, c, dr, dc, er, ec) ==> InBounds(g, p.0, p.1)
    ensures FillLine(g, r, c, dr, dc, er, ec, v).1 == Pass
    ensures forall i, j :: InBounds(g, i, j) ==>
      FillLine(g, r, c, dr, dc, er, ec, v).0[i][j]
        == if (i, j) in LinePoints(r, c, dr, dc, er, ec) then v else g[i][j]
    decreases LineMeasure(r, c, dr, dc, er, ec)
  {
    if r < er && c < ec {
      var ps := LinePoints(r, c, dr, dc, er, ec);
      var rest := LinePoints(r + dr, c + dc, dr, dc, er, ec);
      assert ps == [(r, c)] + rest;
      assert (r, c) in ps;
      var g' := Update(g, r, c, v);
      forall p | p in rest ensures InBounds(g', p.0, p.1) {
        assert p in ps;
      }
      FillLineMarksLine(g', r + dr, c + dc, dr, dc, er, ec, v);
      var res := FillLine(g, r, c, dr, dc, er, ec, v);
      assert res == FillLine(g', r + dr, c + dc, dr, dc, er, ec, v);
      forall i, j | InBounds(g, i, j) ensures res.0[i][j] == if (i, j) in ps then v else g[i][j] {
        assert |g'[i]| == |g[i]|;
        assert InBounds(g', i, j);
      }
    }
  }

  /** A fill that starts inside the grid and ends no further than its far
      edges never leaves it. */
  lemma LineInsideGrid<T>(g: seq<seq<T>>, h: nat, w: nat, r: int, c: int, dr: int, dc: int, er: int, ec: int)
    requires dr >= 0 && dc >= 0 && (dr > 0 || dc > 0)
    requires IsGrid(g, h, w) && 0 <= r && 0 <= c && er <= h && ec <= w
    ensures forall p :: p in LinePoints(r, c, dr, dc, er, ec) ==> InBounds(g, p.0, p.1)
  {
  }
}
