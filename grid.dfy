/** The module grid of a symbol: row y, column x, `true` for dark. The source keeps
    the grid as one flat vector indexed `y * size + x`; here it is a sequence of
    rows, which has the same cells. */
module Grids {
  type Grid = seq<seq<bool>>

  /** A square grid of side n. */
  predicate IsGrid(g: Grid, n: int)
  {
    |g| == n && forall y :: 0 <= y < n ==> |g[y]| == n
  }

  predicate InGrid(n: int, x: int, y: int)
  {
    0 <= x < n && 0 <= y < n
  }

  /** The all-light grid a new symbol starts from (`vec![false; size * size]`). */
  function Blank(n: nat): (g: Grid)
    ensures IsGrid(g, n)
    ensures forall y, x :: InGrid(n, x, y) ==> !g[y][x]
  {
    seq(n, _ => seq(n, _ => false))
  }

  /** The grid with the one cell (x, y) set to v. */
  function Set(g: Grid, x: int, y: int, v: bool): (r: Grid)
    requires 0 <= y < |g| && 0 <= x < |g[y]|
    ensures |r| == |g| && forall yy :: 0 <= yy < |g| ==> |r[yy]| == |g[yy]|
    ensures forall yy, xx :: 0 <= yy < |g| && 0 <= xx < |g[yy]| ==>
              r[yy][xx] == if yy == y && xx == x then v else g[yy][xx]
  {
    g[y := g[y][x := v]]
  }

  /** Two grids of the same side with the same cells are equal. */
  lemma GridExt(a: Grid, b: Grid, n: int)
    requires IsGrid(a, n) && IsGrid(b, n)
    requires forall y, x :: InGrid(n, x, y) ==> a[y][x] == b[y][x]
    ensures a == b
  {
    forall y | 0 <= y < n
      ensures a[y] == b[y]
    {
      assert forall x :: 0 <= x < n ==> a[y][x] == b[y][x] by {
        forall x | 0 <= x < n
          ensures a[y][x] == b[y][x]
        {
          assert InGrid(n, x, y);
        }
      }
    }
  }
}
