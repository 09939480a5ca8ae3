/** The eight mask patterns of `apply_mask` and what masking does to a grid. */
module Masks {
  import opened QrTypes
  import opened Grids

  /** Whether mask m inverts the module at column x, row y. The coordinates are never
      negative, so the remainders agree with the source's. */
  function Inverts(m: Mask, x: nat, y: nat): bool
  {
    match m
    case 0 => (x + y) % 2 == 0
    case 1 => y % 2 == 0
    case 2 => x % 3 == 0
    case 3 => (x + y) % 3 == 0
    case 4 => (x / 3 + y / 2) % 2 == 0
    case 5 => x * y % 2 + x * y % 3 == 0
    case 6 => (x * y % 2 + x * y % 3) % 2 == 0
    case 7 => ((x + y) % 2 + x * y % 3) % 2 == 0
  }

  /** One cell after masking: flipped when the mask inverts it and it is not a
      function module. */
  function MaskedCell(m: Mask, x: nat, y: nat, dark: bool, isfunction: bool): bool
  {
    dark != (Inverts(m, x, y) && !isfunction)
  }

  /** The grid after `apply_mask(m)`. */
  function Masked(g: Grid, isfunction: Grid, m: Mask, n: nat): (r: Grid)
    requires IsGrid(g, n) && IsGrid(isfunction, n)
    ensures IsGrid(r, n)
  {
    seq(n, y requires 0 <= y < n =>
      seq(n, x requires 0 <= x < n => MaskedCell(m, x, y, g[y][x], isfunction[y][x])))
  }

  /** Masking never changes a function module, and changes a data module exactly
      where the pattern says so. */
  lemma MaskedCells(g: Grid, isfunction: Grid, m: Mask, n: nat, x: nat, y: nat)
    requires IsGrid(g, n) && IsGrid(isfunction, n) && InGrid(n, x, y)
    ensures isfunction[y][x] ==> Masked(g, isfunction, m, n)[y][x] == g[y][x]
    ensures !isfunction[y][x] ==> (Masked(g, isfunction, m, n)[y][x] != g[y][x] <==> Inverts(m, x, y))
  {
  }

  /** Applying the same mask twice restores the grid, which is what lets the mask
      search undo each trial mask by applying it again. */
  lemma MaskedTwice(g: Grid, isfunction: Grid, m: Mask, n: nat)
    requires IsGrid(g, n) && IsGrid(isfunction, n)
    ensures Masked(Masked(g, isfunction, m, n), isfunction, m, n) == g
  {
    var once := Masked(g, isfunction, m, n);
    var twice := Masked(once, isfunction, m, n);
    forall y, x | InGrid(n, x, y)
      ensures twice[y][x] == g[y][x]
    {
      assert once[y][x] == MaskedCell(m, x, y, g[y][x], isfunction[y][x]);
    }
    GridExt(twice, g, n);
  }
  /** Progress of the masking loop: the cells before row `row`, and those of row `row`
      left of column `col`, are masked; the rest are as in g0. */
  ghost predicate MaskedUpTo(g: Grid, g0: Grid, isfunction: Grid, m: Mask, n: nat, row: int, col: int)
  {
    IsGrid(g, n) && IsGrid(g0, n) && IsGrid(isfunction, n) &&
    forall y, x :: InGrid(n, x, y) ==>
      g[y][x] == if y < row || (y == row && x < col) then MaskedCell(m, x, y, g0[y][x], isfunction[y][x]) else g0[y][x]
  }

  lemma MaskedAll(g: Grid, g0: Grid, isfunction: Grid, m: Mask, n: nat)
    requires MaskedUpTo(g, g0, isfunction, m, n, n, 0)
    ensures g == Masked(g0, isfunction, m, n)
  {
    GridExt(g, Masked(g0, isfunction, m, n), n);
  }
}
