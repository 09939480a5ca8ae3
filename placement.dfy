/** Zigzag placement of the codeword bits (`draw_codewords`): the symbol is swept in
    column pairs from the right edge to the left, alternately upwards and downwards,
    and every module that is not a function module takes the next bit. */
module Placement {
  import opened QrTypes
  import opened Grids
  import opened Capacity

  datatype Pos = Pos(x: int, y: int)

  /** Whether the pair whose right column is `right` is swept from the bottom up:
      `(right + 1) & 2 == 0`, that is, bit 1 of right + 1 is clear. */
  function Upward(right: int): bool
  {
    (right + 1) % 4 < 2
  }

  /** The row visited at step `vert` of the pair `right`. */
  function RowAt(n: int, right: int, vert: int): int
  {
    if Upward(right) then n - 1 - vert else vert
  }

  /** The step at which the pair `right` visits row y; the inverse of RowAt. */
  function StepOf(n: int, right: int, y: int): int
  {
    if Upward(right) then n - 1 - y else y
  }

  /** The cells of the pair `right` from step `vert`, column `right - j` onwards:
      at each step the right column first, then the left one. */
  function PairFrom(n: int, right: int, vert: int, j: int): seq<Pos>
    requires 0 <= j <= 2
    decreases n - vert, 2 - j
  {
    if vert >= n then []
    else if j == 2 then PairFrom(n, right, vert + 1, 0)
    else [Pos(right - j, RowAt(n, right, vert))] + PairFrom(n, right, vert, j + 1)
  }

  /** The column pair that starts at `right`: the pair whose right column would be
      the vertical timing line (column 6) starts at column 5 instead. */
  function PairRight(right: int): int
  {
    if right == 6 then 5 else right
  }

  /** The cells visited from the pair `right` leftwards. */
  function Sweep(n: int, right: int): seq<Pos>
    decreases right
  {
    if right < 1 then [] else PairFrom(n, PairRight(right), 0, 0) + Sweep(n, PairRight(right) - 2)
  }

  predicate AllInGrid(n: int, cells: seq<Pos>)
  {
    forall k :: 0 <= k < |cells| ==> InGrid(n, cells[k].x, cells[k].y)
  }

  predicate Distinct(cells: seq<Pos>)
  {
    forall a, b :: 0 <= a < b < |cells| ==> cells[a] != cells[b]
  }

  /** Where a cell of the pair `right` visited from step `vert`, column `right - j`,
      can lie: in the pair's two columns, at a step from `vert` on, and at step
      `vert` itself no further right than column `right - j`. */
  predicate PairCell(n: int, right: int, vert: int, j: int, c: Pos)
  {
    (c.x == right || c.x == right - 1) && vert <= StepOf(n, right, c.y) < n &&
    (StepOf(n, right, c.y) == vert ==> c.x <= right - j)
  }

  /** Every cell of a pair lies where `PairCell` says. */
  lemma {:induction false} PairMembers(n: int, right: int, vert: int, j: int)
    requires 0 <= j <= 2
    ensures forall c :: c in PairFrom(n, right, vert, j) ==> PairCell(n, right, vert, j, c)
    decreases n - vert, 2 - j
  {
    if vert < n {
      if j == 2 {
        PairMembers(n, right, vert + 1, 0);
      } else {
        PairMembers(n, right, vert, j + 1);
        var head := Pos(right - j, RowAt(n, right, vert));
        assert PairFrom(n, right, vert, j) == [head] + PairFrom(n, right, vert, j + 1);
        assert StepOf(n, right, head.y) == vert;
      }
    }
  }

  /** The cells of a pair lie inside the symbol. */
  lemma PairInGrid(n: int, right: int, vert: int, j: int)
    requires 0 <= j <= 2 && 0 <= vert && 1 <= right < n
    ensures AllInGrid(n, PairFrom(n, right, vert, j))
  {
    var p := PairFrom(n, right, vert, j);
    PairMembers(n, right, vert, j);
    forall k | 0 <= k < |p|
      ensures InGrid(n, p[k].x, p[k].y)
    {
      assert p[k] in p;
    }
  }

  /** The cells of a sweep lie at or left of its first column, and inside the symbol
      when that column is. */
  lemma {:induction false} SweepMembers(n: int, right: int)
    ensures forall c :: c in Sweep(n, right) ==> c.x <= right
    ensures right < n ==> forall c :: c in Sweep(n, right) ==> InGrid(n, c.x, c.y)
    decreases right
  {
    if right >= 1 {
      var r := PairRight(right);
      PairMembers(n, r, 0, 0);
      SweepMembers(n, r - 2);
      assert Sweep(n, right) == PairFrom(n, r, 0, 0) + Sweep(n, r - 2);
    }
  }

  /** A sweep is its first column pair, then the sweep from the next pair on. */
  lemma SweepCons(n: int, right: int)
    requires right >= 1
    ensures Sweep(n, right) == PairFrom(n, PairRight(right), 0, 0) + Sweep(n, PairRight(right) - 2)
  {
  }

  /** The cells of a sweep lie inside the symbol. */
  lemma SweepFacts(n: int, right: int)
    requires right < n
    ensures AllInGrid(n, Sweep(n, right))
  {
    var cells := Sweep(n, right);
    SweepMembers(n, right);
    forall k | 0 <= k < |cells|
      ensures InGrid(n, cells[k].x, cells[k].y)
    {
      assert cells[k] in cells;
    }
  }

  /** All the cells of a symbol's sweep, which starts at its right edge. */
  function SymbolCells(n: int): (r: seq<Pos>)
    ensures AllInGrid(n, r)
  {
    SweepFacts(n, n - 1);
    Sweep(n, n - 1)
  }

  /** The sweep of a whole symbol starts at its right edge, which is an even column. */
  predicate SweepStart(right: int)
  {
    (right % 2 == 0 && right >= 6) || (right % 2 == 1 && right < 6)
  }

  /** The pair after the first one of a sweep starts a sweep too. */
  lemma SweepStartNext(right: int)
    requires SweepStart(right) && PairRight(right) >= 3
    ensures SweepStart(PairRight(right) - 2)
  {
    if right != 6 {
      assert (right - 2) % 2 == right % 2;
    }
  }

  /** No cell of the sweep lies on the vertical timing line. */
  lemma {:induction false} SweepSkipsColumn6(n: int, right: int)
    requires SweepStart(right) || right < 1
    ensures forall y :: Pos(6, y) !in Sweep(n, right)
    decreases right
  {
    if right >= 1 {
      var r := PairRight(right);
      if r >= 3 {
        SweepStartNext(right);
      }
      SweepSkipsColumn6(n, r - 2);
      PairMembers(n, r, 0, 0);
      assert r != 6 && r - 1 != 6;
      assert Sweep(n, right) == PairFrom(n, r, 0, 0) + Sweep(n, r - 2);
      forall y
        ensures Pos(6, y) !in Sweep(n, right)
      {
        assert !PairCell(n, r, 0, 0, Pos(6, y));
      }
    }
  }

  /** Every cell of the pair's two columns is visited at the step of its row. */
  lemma {:induction false} PairCovers(n: int, right: int, vert: int, x: int, y: int)
    requires 1 <= right < n && 0 <= vert && 0 <= y < n && (x == right || x == right - 1)
    requires vert <= StepOf(n, right, y)
    ensures Pos(x, y) in PairFrom(n, right, vert, 0)
    decreases n - vert
  {
    var rest := PairFrom(n, right, vert + 1, 0);
    assert PairFrom(n, right, vert, 2) == rest;
    assert PairFrom(n, right, vert, 0) ==
           [Pos(right, RowAt(n, right, vert))] + ([Pos(right - 1, RowAt(n, right, vert))] + rest);
    if vert < StepOf(n, right, y) {
      PairCovers(n, right, vert + 1, x, y);
    }
  }

  /** The sweep visits every module of its columns outside column 6. */
  lemma {:induction false} SweepCovers(n: int, right: int, x: int, y: int)
    requires SweepStart(right) && right < n
    requires 0 <= x <= right && x != 6 && 0 <= y < n
    ensures Pos(x, y) in Sweep(n, right)
    decreases right
  {
    var r := PairRight(right);
    var pair := PairFrom(n, r, 0, 0);
    var rest := Sweep(n, r - 2);
    assert Sweep(n, right) == pair + rest;
    if x >= r - 1 {
      PairCovers(n, r, 0, x, y);
      assert Pos(x, y) in pair;
    } else {
      SweepStartNext(right);
      SweepCovers(n, r - 2, x, y);
      assert Pos(x, y) in rest;
    }
  }

  /** The cells of one pair are all different. */
  lemma {:induction false} PairDistinct(n: int, right: int, vert: int, j: int)
    requires 0 <= j <= 2
    ensures Distinct(PairFrom(n, right, vert, j))
    decreases n - vert, 2 - j
  {
    if vert < n {
      if j == 2 {
        PairDistinct(n, right, vert + 1, 0);
      } else {
        PairDistinct(n, right, vert, j + 1);
        PairMembers(n, right, vert, j + 1);
        var c := Pos(right - j, RowAt(n, right, vert));
        var rest := PairFrom(n, right, vert, j + 1);
        assert StepOf(n, right, c.y) == vert;
        assert c !in rest;
        assert PairFrom(n, right, vert, j) == [c] + rest;
        DistinctCons(c, rest);
      }
    }
  }

  lemma DistinctCons(c: Pos, rest: seq<Pos>)
    requires Distinct(rest) && c !in rest
    ensures Distinct([c] + rest)
  {
    forall a, b | 0 <= a < b < |[c] + rest|
      ensures ([c] + rest)[a] != ([c] + rest)[b]
    {
      assert ([c] + rest)[b] == rest[b - 1];
      if a > 0 {
        assert ([c] + rest)[a] == rest[a - 1];
      }
    }
  }

  /** The sweep visits no cell twice. */
  lemma {:induction false} SweepDistinct(n: int, right: int)
    ensures Distinct(Sweep(n, right))
    decreases right
  {
    if right >= 1 {
      var r := PairRight(right);
      var pair := PairFrom(n, r, 0, 0);
      var rest := Sweep(n, r - 2);
      PairDistinct(n, r, 0, 0);
      SweepDistinct(n, r - 2);
      PairMembers(n, r, 0, 0);
      SweepMembers(n, r - 2);
      forall c | c in pair
        ensures c !in rest
      {
      }
      assert Sweep(n, right) == pair + rest;
      DistinctAppend(pair, rest);
    }
  }

  lemma DistinctAppend(a: seq<Pos>, b: seq<Pos>)
    requires Distinct(a) && Distinct(b) && forall c :: c in a ==> c !in b
    ensures Distinct(a + b)
  {
    forall i, k | 0 <= i < k < |a + b|
      ensures (a + b)[i] != (a + b)[k]
    {
      if k < |a| {
        assert (a + b)[i] == a[i] && (a + b)[k] == a[k];
      } else if i >= |a| {
        assert (a + b)[i] == b[i - |a|] && (a + b)[k] == b[k - |a|];
      } else {
        assert (a + b)[i] == a[i] && a[i] in a;
        assert (a + b)[k] == b[k - |a|] && b[k - |a|] in b;
      }
    }
  }

  /** Successive pairs of a symbol's sweep run in opposite directions, the first
      one upwards. */
  lemma SweepAlternates(ver: Version, right: int)
    requires SweepStart(right) && 3 <= right
    ensures Upward(Size(ver) - 1)
    ensures Upward(PairRight(right)) != Upward(PairRight(PairRight(right) - 2))
  {
  }

  /** Where the placement stands: the modules so far and the index of the next bit. */
  datatype Placing = Placing(grid: Grid, next: nat)

  /** Bit i of the codeword sequence, the most significant bit of each codeword first. */
  function DataBit(data: seq<byte>, i: nat): bool
    requires i < |data| * 8
  {
    GetBit(data[i / 8], 7 - i % 8)
  }

  /** Bits a (inclusive) to b (exclusive) of the codeword sequence. */
  function DataBits(data: seq<byte>, a: nat, b: nat): (r: seq<bool>)
    requires a <= b <= |data| * 8
    ensures |r| == b - a && forall k :: 0 <= k < b - a ==> r[k] == DataBit(data, a + k)
  {
    seq(b - a, k requires 0 <= k < b - a => DataBit(data, a + k))
  }

  /** One visited cell: a free module takes the next bit while bits remain. */
  function PlaceOne(s: Placing, f: Grid, data: seq<byte>, n: nat, c: Pos): (r: Placing)
    requires IsGrid(s.grid, n) && IsGrid(f, n) && InGrid(n, c.x, c.y)
    ensures IsGrid(r.grid, n)
  {
    if !f[c.y][c.x] && s.next < |data| * 8 then
      Placing(Set(s.grid, c.x, c.y, DataBit(data, s.next)), s.next + 1)
    else s
  }

  /** The cells visited in order. */
  function PlaceAll(s: Placing, f: Grid, data: seq<byte>, n: nat, cells: seq<Pos>): (r: Placing)
    requires IsGrid(s.grid, n) && IsGrid(f, n) && AllInGrid(n, cells)
    ensures IsGrid(r.grid, n)
    decreases |cells|
  {
    if cells == [] then s else PlaceAll(PlaceOne(s, f, data, n, cells[0]), f, data, n, cells[1..])
  }

  /** The modules after `draw_codewords` draws `data` over g, f marking the function
      modules; behind one layer so that the drawing method does not unfold the
      placement, and opened by `PlacedDef`. */
  function Placed(g: Grid, f: Grid, data: seq<byte>, n: nat): (r: Grid)
    requires IsGrid(g, n) && IsGrid(f, n)
    ensures IsGrid(r, n)
  {
    PlacedLayer(g, f, data, n, 1)
  }

  function PlacedLayer(g: Grid, f: Grid, data: seq<byte>, n: nat, k: nat): (r: Grid)
    requires IsGrid(g, n) && IsGrid(f, n)
    ensures IsGrid(r, n)
    decreases k
  {
    if k > 0 then PlacedLayer(g, f, data, n, k - 1) else PlaceAll(Placing(g, 0), f, data, n, SymbolCells(n)).grid
  }

  lemma PlacedDef(g: Grid, f: Grid, data: seq<byte>, n: nat)
    requires IsGrid(g, n) && IsGrid(f, n)
    ensures Placed(g, f, data, n) == PlaceAll(Placing(g, 0), f, data, n, SymbolCells(n)).grid
  {
    assert Placed(g, f, data, n) == PlacedLayer(g, f, data, n, 0);
  }

  /** How many bits `draw_codewords` places: one per free module, while bits remain. */
  function PlacedBits(f: Grid, data: seq<byte>, n: nat): nat
    requires IsGrid(f, n)
  {
    if FreeCount(f, n, SymbolCells(n)) <= |data| * 8 then FreeCount(f, n, SymbolCells(n)) else |data| * 8
  }

  /** How many of the cells are free (not function modules). */
  function FreeCount(f: Grid, n: nat, cells: seq<Pos>): (r: nat)
    requires IsGrid(f, n) && AllInGrid(n, cells)
    ensures r <= |cells|
    decreases |cells|
  {
    if cells == [] then 0
    else (if f[cells[0].y][cells[0].x] then 0 else 1) + FreeCount(f, n, cells[1..])
  }

  /** The colours of the free cells among `cells`, in order: what a reader following
      the same sweep takes out of the symbol. */
  function ReadBack(g: Grid, f: Grid, n: nat, cells: seq<Pos>): (r: seq<bool>)
    requires IsGrid(g, n) && IsGrid(f, n) && AllInGrid(n, cells)
    ensures |r| == FreeCount(f, n, cells)
    decreases |cells|
  {
    if cells == [] then []
    else (if f[cells[0].y][cells[0].x] then [] else [g[cells[0].y][cells[0].x]]) + ReadBack(g, f, n, cells[1..])
  }

  /** Placing one more cell in front of the rest. */
  lemma PlaceAllCons(s: Placing, f: Grid, data: seq<byte>, n: nat, c: Pos, rest: seq<Pos>)
    requires IsGrid(s.grid, n) && IsGrid(f, n) && InGrid(n, c.x, c.y) && AllInGrid(n, rest)
    ensures AllInGrid(n, [c] + rest)
    ensures PlaceAll(s, f, data, n, [c] + rest) == PlaceAll(PlaceOne(s, f, data, n, c), f, data, n, rest)
  {
    assert ([c] + rest)[1..] == rest;
  }

  /** One step of the loops of `draw_codewords`: the cell at step `vert`, column
      `right - j` is placed, and the rest of the pair and of the sweep remain. */
  lemma PlaceStep(s: Placing, f: Grid, data: seq<byte>, n: nat, right: int, vert: int, j: int, rest: seq<Pos>)
    requires IsGrid(s.grid, n) && IsGrid(f, n) && AllInGrid(n, rest)
    requires 1 <= right < n && 0 <= vert < n && 0 <= j < 2
    ensures InGrid(n, right - j, RowAt(n, right, vert))
    ensures AllInGrid(n, PairFrom(n, right, vert, j) + rest)
    ensures AllInGrid(n, PairFrom(n, right, vert, j + 1) + rest)
    ensures PlaceAll(s, f, data, n, PairFrom(n, right, vert, j) + rest) ==
            PlaceAll(PlaceOne(s, f, data, n, Pos(right - j, RowAt(n, right, vert))), f, data, n,
                     PairFrom(n, right, vert, j + 1) + rest)
  {
    var c := Pos(right - j, RowAt(n, right, vert));
    var tail := PairFrom(n, right, vert, j + 1) + rest;
    PairRestInGrid(n, right, vert, j, rest);
    PairRestInGrid(n, right, vert, j + 1, rest);
    PairFirst(n, right, vert, j, rest);
    PlaceAllCons(s, f, data, n, c, tail);
  }

  /** Placing from modules g and bit `next` over `cells` ends in `final`; hidden
      behind one layer so that the drawing loops do not unfold the placement, and
      opened by `ContinuesDef`. */
  ghost predicate Continues(g: Grid, next: nat, f: Grid, data: seq<byte>, n: nat, cells: seq<Pos>, final: Grid)
  {
    ContinuesLayer(g, next, f, data, n, cells, final, 1)
  }

  ghost predicate ContinuesLayer(g: Grid, next: nat, f: Grid, data: seq<byte>, n: nat, cells: seq<Pos>, final: Grid,
                                 k: nat)
    decreases k
  {
    if k > 0 then ContinuesLayer(g, next, f, data, n, cells, final, k - 1)
    else IsGrid(g, n) && IsGrid(f, n) && AllInGrid(n, cells) && PlaceAll(Placing(g, next), f, data, n, cells).grid == final
  }

  lemma ContinuesDef(g: Grid, next: nat, f: Grid, data: seq<byte>, n: nat, cells: seq<Pos>, final: Grid)
    ensures Continues(g, next, f, data, n, cells, final) <==>
            IsGrid(g, n) && IsGrid(f, n) && AllInGrid(n, cells) && PlaceAll(Placing(g, next), f, data, n, cells).grid == final
  {
    assert Continues(g, next, f, data, n, cells, final) == ContinuesLayer(g, next, f, data, n, cells, final, 0);
  }

  /** One module of a column pair: when it is free and bits remain it takes the next
      bit, and placing goes on from the module after it. */
  lemma ContinuesStep(g: Grid, next: nat, f: Grid, data: seq<byte>, n: nat, right: int, vert: int, j: int,
                      rest: seq<Pos>, final: Grid)
    requires 1 <= right < n && 0 <= vert < n && 0 <= j < 2
    requires Continues(g, next, f, data, n, PairFrom(n, right, vert, j) + rest, final)
    ensures IsGrid(g, n) && IsGrid(f, n) && InGrid(n, right - j, RowAt(n, right, vert))
    ensures var x := right - j;
            var y := RowAt(n, right, vert);
            if !f[y][x] && next < |data| * 8
            then Continues(Set(g, x, y, DataBit(data, next)), next + 1, f, data, n, PairFrom(n, right, vert, j + 1) + rest, final)
            else Continues(g, next, f, data, n, PairFrom(n, right, vert, j + 1) + rest, final)
  {
    var cells := PairFrom(n, right, vert, j);
    ContinuesDef(g, next, f, data, n, cells + rest, final);
    AllInGridSuffix(n, cells, rest);
    PlaceStep(Placing(g, next), f, data, n, right, vert, j, rest);
    var s1 := PlaceOne(Placing(g, next), f, data, n, Pos(right - j, RowAt(n, right, vert)));
    ContinuesDef(s1.grid, s1.next, f, data, n, PairFrom(n, right, vert, j + 1) + rest, final);
  }

  lemma AllInGridSuffix(n: int, a: seq<Pos>, b: seq<Pos>)
    requires AllInGrid(n, a + b)
    ensures AllInGrid(n, b)
  {
    forall k | 0 <= k < |b|
      ensures InGrid(n, b[k].x, b[k].y)
    {
      assert b[k] == (a + b)[|a| + k];
    }
  }

  /** Placing over no cells ends where it started. */
  lemma ContinuesEnd(g: Grid, next: nat, f: Grid, data: seq<byte>, n: nat, final: Grid)
    requires Continues(g, next, f, data, n, [], final)
    ensures g == final
  {
    ContinuesDef(g, next, f, data, n, [], final);
  }

  /** Placing over the whole sweep from the blank start ends in the placed symbol. */
  lemma ContinuesStart(g: Grid, f: Grid, data: seq<byte>, n: nat)
    requires IsGrid(g, n) && IsGrid(f, n)
    ensures Continues(g, 0, f, data, n, Sweep(n, n - 1), Placed(g, f, data, n))
  {
    PlacedDef(g, f, data, n);
    assert SymbolCells(n) == Sweep(n, n - 1);
    ContinuesDef(g, 0, f, data, n, Sweep(n, n - 1), Placed(g, f, data, n));
  }

  lemma PairFirst(n: int, right: int, vert: int, j: int, rest: seq<Pos>)
    requires 0 <= vert < n && 0 <= j < 2
    ensures PairFrom(n, right, vert, j) + rest == [Pos(right - j, RowAt(n, right, vert))] + (PairFrom(n, right, vert, j + 1) + rest)
  {
  }

  lemma PairRestInGrid(n: int, right: int, vert: int, j: int, rest: seq<Pos>)
    requires 1 <= right < n && 0 <= vert && 0 <= j <= 2 && AllInGrid(n, rest)
    ensures AllInGrid(n, PairFrom(n, right, vert, j) + rest)
  {
    PairInGrid(n, right, vert, j);
    AllInGridAppend(n, PairFrom(n, right, vert, j), rest);
  }

  lemma AllInGridAppend(n: int, a: seq<Pos>, b: seq<Pos>)
    requires AllInGrid(n, a) && AllInGrid(n, b)
    ensures AllInGrid(n, a + b)
  {
    forall k | |a| <= k < |a + b|
      ensures InGrid(n, (a + b)[k].x, (a + b)[k].y)
    {
      assert (a + b)[k] == b[k - |a|];
    }
  }

  /** Only free cells among those visited change. */
  lemma {:induction false} PlaceAllKeeps(s: Placing, f: Grid, data: seq<byte>, n: nat, cells: seq<Pos>, x: int, y: int)
    requires IsGrid(s.grid, n) && IsGrid(f, n) && AllInGrid(n, cells) && InGrid(n, x, y)
    requires f[y][x] || Pos(x, y) !in cells
    ensures PlaceAll(s, f, data, n, cells).grid[y][x] == s.grid[y][x]
    decreases |cells|
  {
    if cells != [] {
      assert Pos(x, y) !in cells[1..] || f[y][x];
      PlaceAllKeeps(PlaceOne(s, f, data, n, cells[0]), f, data, n, cells[1..], x, y);
    }
  }

  /** The placement takes as many bits as there are free cells, or all of them. */
  lemma {:induction false} PlaceAllCount(s: Placing, f: Grid, data: seq<byte>, n: nat, cells: seq<Pos>)
    requires IsGrid(s.grid, n) && IsGrid(f, n) && AllInGrid(n, cells) && s.next <= |data| * 8
    ensures PlaceAll(s, f, data, n, cells).next ==
            if s.next + FreeCount(f, n, cells) <= |data| * 8 then s.next + FreeCount(f, n, cells) else |data| * 8
    decreases |cells|
  {
    if cells != [] {
      PlaceAllCount(PlaceOne(s, f, data, n, cells[0]), f, data, n, cells[1..]);
    }
  }

  /** Reading the free cells among `cells` back in order, after placing from s,
      yields the bits that were placed, in order. */
  ghost predicate ReadsBackInOrder(s: Placing, f: Grid, data: seq<byte>, n: nat, cells: seq<Pos>)
    requires IsGrid(s.grid, n) && IsGrid(f, n) && AllInGrid(n, cells)
  {
    var r := PlaceAll(s, f, data, n, cells);
    s.next <= r.next <= |data| * 8 && r.next - s.next <= FreeCount(f, n, cells) &&
    ReadBack(r.grid, f, n, cells)[..r.next - s.next] == DataBits(data, s.next, r.next)
  }

  lemma {:induction false} PlaceAllReadsBack(s: Placing, f: Grid, data: seq<byte>, n: nat, cells: seq<Pos>)
    requires IsGrid(s.grid, n) && IsGrid(f, n) && AllInGrid(n, cells) && Distinct(cells)
    requires s.next <= |data| * 8
    ensures ReadsBackInOrder(s, f, data, n, cells)
    decreases |cells|
  {
    PlaceAllCount(s, f, data, n, cells);
    if cells != [] {
      var c := cells[0];
      DistinctTail(cells);
      PlaceAllReadsBack(PlaceOne(s, f, data, n, c), f, data, n, cells[1..]);
      if !f[c.y][c.x] && s.next < |data| * 8 {
        ReadsBackFree(s, f, data, n, cells);
      } else {
        ReadsBackSkip(s, f, data, n, cells);
      }
    }
  }

  /** The first cell is free and takes the next bit, which is the first one read back. */
  lemma ReadsBackFree(s: Placing, f: Grid, data: seq<byte>, n: nat, cells: seq<Pos>)
    requires IsGrid(s.grid, n) && IsGrid(f, n) && AllInGrid(n, cells) && cells != []
    requires cells[0] !in cells[1..] && !f[cells[0].y][cells[0].x] && s.next < |data| * 8
    requires ReadsBackInOrder(PlaceOne(s, f, data, n, cells[0]), f, data, n, cells[1..])
    ensures ReadsBackInOrder(s, f, data, n, cells)
  {
    var c := cells[0];
    var rest := cells[1..];
    var s1 := PlaceOne(s, f, data, n, c);
    FreeFirst(s, f, data, n, cells);
    var r := PlaceAll(s1, f, data, n, rest);
    var tail := ReadBack(r.grid, f, n, rest);
    assert s1.next <= r.next <= |data| * 8 && r.next - s1.next <= FreeCount(f, n, rest);
    assert tail[..r.next - s1.next] == DataBits(data, s1.next, r.next);
    ReadBackFirst(r.grid, f, n, cells);
    assert ReadBack(r.grid, f, n, cells) == [r.grid[c.y][c.x]] + tail;
    assert FreeCount(f, n, cells) == 1 + FreeCount(f, n, rest);
    assert r.grid[c.y][c.x] == DataBit(data, s.next);
    DataBitsCons(r.grid[c.y][c.x], tail, data, s.next, s1.next, r.next);
  }

  /** A free first cell takes bit `s.next`, and no later cell overwrites it. */
  lemma FreeFirst(s: Placing, f: Grid, data: seq<byte>, n: nat, cells: seq<Pos>)
    requires IsGrid(s.grid, n) && IsGrid(f, n) && AllInGrid(n, cells) && cells != []
    requires cells[0] !in cells[1..] && !f[cells[0].y][cells[0].x] && s.next < |data| * 8
    ensures PlaceOne(s, f, data, n, cells[0]).next == s.next + 1
    ensures PlaceAll(s, f, data, n, cells) == PlaceAll(PlaceOne(s, f, data, n, cells[0]), f, data, n, cells[1..])
    ensures PlaceAll(s, f, data, n, cells).grid[cells[0].y][cells[0].x] == DataBit(data, s.next)
  {
    var c := cells[0];
    var s1 := PlaceOne(s, f, data, n, c);
    PlaceAllKeeps(s1, f, data, n, cells[1..], c.x, c.y);
  }

  /** The first cell is a function module, or no bits remain: it reads back nothing
      that was placed. */
  lemma ReadsBackSkip(s: Placing, f: Grid, data: seq<byte>, n: nat, cells: seq<Pos>)
    requires IsGrid(s.grid, n) && IsGrid(f, n) && AllInGrid(n, cells) && cells != []
    requires f[cells[0].y][cells[0].x] || s.next == |data| * 8
    requires ReadsBackInOrder(PlaceOne(s, f, data, n, cells[0]), f, data, n, cells[1..])
    ensures ReadsBackInOrder(s, f, data, n, cells)
  {
    var c := cells[0];
    var rest := cells[1..];
    SkipFirst(s, f, data, n, cells);
    assert ReadsBackInOrder(s, f, data, n, rest);
    var r := PlaceAll(s, f, data, n, rest);
    ReadBackFirst(r.grid, f, n, cells);
    if f[c.y][c.x] {
      assert ReadBack(r.grid, f, n, cells) == ReadBack(r.grid, f, n, rest);
    } else {
      assert r.next == s.next;
    }
  }

  /** A first cell that takes no bit leaves the placement state as it was. */
  lemma SkipFirst(s: Placing, f: Grid, data: seq<byte>, n: nat, cells: seq<Pos>)
    requires IsGrid(s.grid, n) && IsGrid(f, n) && AllInGrid(n, cells) && cells != []
    requires f[cells[0].y][cells[0].x] || s.next == |data| * 8
    ensures PlaceOne(s, f, data, n, cells[0]) == s
    ensures PlaceAll(s, f, data, n, cells) == PlaceAll(s, f, data, n, cells[1..])
  {
  }

  lemma DistinctTail(cells: seq<Pos>)
    requires Distinct(cells) && cells != []
    ensures Distinct(cells[1..]) && cells[0] !in cells[1..]
  {
    forall a, b | 0 <= a < b < |cells| - 1
      ensures cells[1..][a] != cells[1..][b]
    {
      assert cells[1..][a] == cells[a + 1] && cells[1..][b] == cells[b + 1];
    }
    forall b | 0 <= b < |cells| - 1
      ensures cells[1..][b] != cells[0]
    {
      assert cells[1..][b] == cells[b + 1];
    }
  }

  lemma ReadBackFirst(g: Grid, f: Grid, n: nat, cells: seq<Pos>)
    requires IsGrid(g, n) && IsGrid(f, n) && AllInGrid(n, cells) && cells != []
    ensures ReadBack(g, f, n, cells) ==
            (if f[cells[0].y][cells[0].x] then [] else [g[cells[0].y][cells[0].x]]) + ReadBack(g, f, n, cells[1..])
  {
  }

  /** Bit a followed by the bits a + 1 .. b is the bits a .. b. */
  lemma DataBitsCons(h: bool, tail: seq<bool>, data: seq<byte>, a: nat, a1: nat, b: nat)
    requires a1 == a + 1 && a1 <= b <= |data| * 8 && h == DataBit(data, a)
    requires b - a1 <= |tail| && tail[..b - a1] == DataBits(data, a1, b)
    ensures ([h] + tail)[..b - a] == DataBits(data, a, b)
  {
    assert ([h] + tail)[..b - a] == [h] + tail[..b - a1];
  }

  /** `draw_codewords` leaves the function modules and column 6 as they were. */
  lemma PlacedKeeps(g: Grid, f: Grid, data: seq<byte>, n: nat, x: int, y: int)
    requires IsGrid(g, n) && IsGrid(f, n) && n % 2 == 1 && n >= 7
    requires InGrid(n, x, y) && (f[y][x] || x == 6)
    ensures Placed(g, f, data, n)[y][x] == g[y][x]
  {
    SweepSkipsColumn6(n, n - 1);
    PlacedDef(g, f, data, n);
    PlaceAllKeeps(Placing(g, 0), f, data, n, SymbolCells(n), x, y);
  }

  /** A reader sweeping the symbol the way `draw_codewords` does reads the codeword
      bits back in order: all of them when the free modules suffice, as many as fit
      otherwise. */
  lemma PlacedReadsBack(g: Grid, f: Grid, data: seq<byte>, n: nat)
    requires IsGrid(g, n) && IsGrid(f, n)
    ensures PlacedBits(f, data, n) <= |ReadBack(Placed(g, f, data, n), f, n, SymbolCells(n))|
    ensures ReadBack(Placed(g, f, data, n), f, n, SymbolCells(n))[..PlacedBits(f, data, n)] ==
            DataBits(data, 0, PlacedBits(f, data, n))
  {
    var cells := SymbolCells(n);
    assert cells == Sweep(n, n - 1);
    SweepDistinct(n, n - 1);
    var start := Placing(g, 0);
    PlaceAllReadsBack(start, f, data, n, cells);
    PlaceAllCount(start, f, data, n, cells);
    var r := PlaceAll(start, f, data, n, cells);
    PlacedDef(g, f, data, n);
    assert r.next == PlacedBits(f, data, n);
    assert ReadBack(r.grid, f, n, cells)[..r.next - start.next] == DataBits(data, start.next, r.next);
  }

  /** The sweep of a symbol visits every module outside column 6, each once. */
  lemma SymbolSweep(ver: Version)
    ensures Distinct(SymbolCells(Size(ver)))
    ensures forall x, y :: InGrid(Size(ver), x, y) && x != 6 ==> Pos(x, y) in SymbolCells(Size(ver))
    ensures forall y :: Pos(6, y) !in SymbolCells(Size(ver))
  {
    var n := Size(ver);
    SizeSweepStart(ver);
    SweepDistinct(n, n - 1);
    SweepSkipsColumn6(n, n - 1);
    forall x, y | InGrid(n, x, y) && x != 6
      ensures Pos(x, y) in Sweep(n, n - 1)
    {
      SweepCovers(n, n - 1, x, y);
    }
  }

  /** A symbol's sweep starts at its right edge, an even column right of column 6. */
  lemma SizeSweepStart(ver: Version)
    ensures SweepStart(Size(ver) - 1)
  {
    var h := 2 * ver + 8;
    assert Size(ver) - 1 == 2 * h;
  }
}
