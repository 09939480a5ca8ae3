/** How many modules the function patterns leave for data: at least the raw module
    count of the version, so that `draw_codewords` always finds a free module for
    every bit it is given. The function modules are covered by a few rectangles with
    column 6 and row 6 (the timing lines) cut out, and the cells of each rectangle
    are counted. */
module FreeModules {
  import opened QrTypes
  import opened Grids
  import opened Capacity
  import opened FormatInfo
  import opened FunctionPatterns
  import opened Placement

  /*---- Rectangles of cells off the timing lines ----*/

  /** How many of the columns (or rows) a .. b - 1 are not the timing line 6. */
  function Span(a: int, b: int): nat
    decreases b - a
  {
    if b <= a then 0 else Span(a, b - 1) + (if b - 1 == 6 then 0 else 1)
  }

  lemma {:induction false} SpanClosed(a: int, b: int)
    requires a <= b
    ensures Span(a, b) == (b - a) - (if a <= 6 < b then 1 else 0)
    decreases b - a
  {
    if a < b {
      SpanClosed(a, b - 1);
    }
  }

  /** The cells (x, y) with a <= x < b, x != 6. */
  function Row(a: int, b: int, y: int): set<Pos>
  {
    set x: int | a <= x < b && x != 6 :: Pos(x, y)
  }

  /** The cells (x, y) with x0 <= x < x1, y0 <= y < y1, x != 6 and y != 6. */
  function Box(x0: int, x1: int, y0: int, y1: int): set<Pos>
  {
    set x: int, y: int | x0 <= x < x1 && y0 <= y < y1 && x != 6 && y != 6 :: Pos(x, y)
  }

  lemma UnionCard(a: set<Pos>, b: set<Pos>)
    ensures |a + b| <= |a| + |b|
  {
    assert |a + b| + |a * b| == |a| + |b|;
  }

  lemma {:induction false} RowCard(a: int, b: int, y: int)
    ensures |Row(a, b, y)| <= Span(a, b)
    decreases b - a
  {
    if a < b {
      RowCard(a, b - 1, y);
      var rest := Row(a, b - 1, y);
      if b - 1 == 6 {
        assert Row(a, b, y) == rest;
      } else {
        assert Row(a, b, y) == rest + {Pos(b - 1, y)};
        UnionCard(rest, {Pos(b - 1, y)});
      }
    } else {
      assert Row(a, b, y) == {};
    }
  }

  lemma {:induction false} BoxCard(x0: int, x1: int, y0: int, y1: int)
    ensures |Box(x0, x1, y0, y1)| <= Span(x0, x1) * Span(y0, y1)
    decreases y1 - y0
  {
    if y0 < y1 {
      BoxCard(x0, x1, y0, y1 - 1);
      var w, h := Span(x0, x1), Span(y0, y1 - 1);
      var rest := Box(x0, x1, y0, y1 - 1);
      if y1 - 1 != 6 {
        var row := Row(x0, x1, y1 - 1);
        assert Box(x0, x1, y0, y1) == rest + row;
        RowCard(x0, x1, y1 - 1);
        UnionCard(rest, row);
        assert |rest + row| <= w * h + w;
        assert Span(y0, y1) == h + 1;
        MulSucc(w, h);
      } else {
        assert Box(x0, x1, y0, y1) == rest;
        assert Span(y0, y1) == h;
      }
    } else {
      assert Box(x0, x1, y0, y1) == {};
    }
  }

  lemma MulSucc(w: nat, h: nat)
    ensures w * (h + 1) == w * h + w
  {
  }

  /*---- The cells each pattern may flag ----*/

  function Lo(a: int): int
  {
    if a < 0 then 0 else a
  }

  function Hi(n: int, b: int): int
  {
    if b > n then n else b
  }

  /** The cells off the timing lines that pattern p colours lie in Part(p, n); the
      timing pattern's own part is row 6. */
  function Part(p: Pattern, n: int): set<Pos>
  {
    match p
    case Timing => Row(0, n, 6)
    case Finder(cx, cy) => Box(Lo(cx - 4), Hi(n, cx + 5), Lo(cy - 4), Hi(n, cy + 5))
    case Alignment(cx, cy) => Box(cx - 2, cx + 3, cy - 2, cy + 3)
    case FormatArea(_) => FormatPart(n)
    case VersionArea(_) => VersionPart(n)
  }

  /** The format area: column 8 down to row 8 and row 8 left to column 7 around the
      top-left finder, row 8 under the top-right finder, column 8 beside the
      bottom-left finder (the dark module included). */
  function FormatPart(n: int): set<Pos>
  {
    Box(8, 9, 0, 9) + Box(7, 8, 8, 9) + Box(0, 6, 8, 9) + Box(n - 8, n, 8, 9) + Box(8, 9, n - 8, n)
  }

  /** The two 3x6 version blocks, beside the top-right and bottom-left finders. */
  function VersionPart(n: int): set<Pos>
  {
    Box(n - 11, n - 8, 0, 6) + Box(0, 6, n - 11, n - 8)
  }

  /** An upper bound on the size of Part(p, n). */
  function Bound(p: Pattern, n: int): nat
  {
    match p
    case Timing => Span(0, n)
    case Finder(cx, cy) => Span(Lo(cx - 4), Hi(n, cx + 5)) * Span(Lo(cy - 4), Hi(n, cy + 5))
    case Alignment(cx, cy) => Span(cx - 2, cx + 3) * Span(cy - 2, cy + 3)
    case FormatArea(_) => 31
    case VersionArea(_) => 36
  }

  /** No part holds more cells than its bound. */
  lemma PartCard(p: Pattern, n: int)
    requires n >= 21
    ensures |Part(p, n)| <= Bound(p, n)
  {
    match p
    case Timing =>
      RowCard(0, n, 6);
    case Finder(cx, cy) =>
      BoxCard(Lo(cx - 4), Hi(n, cx + 5), Lo(cy - 4), Hi(n, cy + 5));
    case Alignment(cx, cy) =>
      BoxCard(cx - 2, cx + 3, cy - 2, cy + 3);
    case FormatArea(_) =>
      FormatPartCard(n);
    case VersionArea(_) =>
      VersionPartCard(n);
  }

  /** BoxCard for a box whose spans are known. */
  lemma BoxAtMost(x0: int, x1: int, y0: int, y1: int, w: nat, h: nat)
    requires x0 <= x1 && y0 <= y1
    requires (x1 - x0) - (if x0 <= 6 < x1 then 1 else 0) == w
    requires (y1 - y0) - (if y0 <= 6 < y1 then 1 else 0) == h
    ensures |Box(x0, x1, y0, y1)| <= w * h
  {
    SpanClosed(x0, x1);
    SpanClosed(y0, y1);
    BoxCard(x0, x1, y0, y1);
  }

  lemma FormatPartCard(n: int)
    requires n >= 21
    ensures |FormatPart(n)| <= 31
  {
    var a, b, c, d, e := Box(8, 9, 0, 9), Box(7, 8, 8, 9), Box(0, 6, 8, 9), Box(n - 8, n, 8, 9), Box(8, 9, n - 8, n);
    BoxAtMost(8, 9, 0, 9, 1, 8);
    BoxAtMost(7, 8, 8, 9, 1, 1);
    BoxAtMost(0, 6, 8, 9, 6, 1);
    BoxAtMost(n - 8, n, 8, 9, 8, 1);
    BoxAtMost(8, 9, n - 8, n, 1, 8);
    UnionCard(a, b);
    UnionCard(a + b, c);
    UnionCard(a + b + c, d);
    UnionCard(a + b + c + d, e);
  }

  lemma VersionPartCard(n: int)
    requires n >= 21
    ensures |VersionPart(n)| <= 36
  {
    BoxAtMost(n - 11, n - 8, 0, 6, 3, 6);
    BoxAtMost(0, 6, n - 11, n - 8, 6, 3);
    UnionCard(Box(n - 11, n - 8, 0, 6), Box(0, 6, n - 11, n - 8));
  }

  /** Every cell off the timing lines that p colours is in Part(p, n). */
  lemma PartCovers(p: Pattern, n: int, x: int, y: int)
    requires InGrid(n, x, y) && x != 6 && y != 6
    requires PatternCell(p, n, x, y).Some?
    ensures Pos(x, y) in Part(p, n)
  {
    match p
    case Timing =>
    case Finder(cx, cy) =>
      assert Pos(x, y) in Box(Lo(cx - 4), Hi(n, cx + 5), Lo(cy - 4), Hi(n, cy + 5));
    case Alignment(cx, cy) =>
      assert Pos(x, y) in Box(cx - 2, cx + 3, cy - 2, cy + 3);
    case FormatArea(_) =>
      FormatPartCovers(n, x, y);
    case VersionArea(_) =>
      VersionPartCovers(n, x, y);
  }

  lemma FormatPartCovers(n: int, x: int, y: int)
    requires InGrid(n, x, y) && x != 6 && y != 6
    requires FormatIndex(n, x, y).Some?
    ensures Pos(x, y) in FormatPart(n)
  {
    if x == 8 && 0 <= y < 9 {
      assert Pos(x, y) in Box(8, 9, 0, 9);
    } else if x == 7 && y == 8 {
      assert Pos(x, y) in Box(7, 8, 8, 9);
    } else if y == 8 && 0 <= x <= 5 {
      assert Pos(x, y) in Box(0, 6, 8, 9);
    } else if y == 8 && n - 8 <= x {
      assert Pos(x, y) in Box(n - 8, n, 8, 9);
    } else {
      assert Pos(x, y) in Box(8, 9, n - 8, n);
    }
  }

  lemma VersionPartCovers(n: int, x: int, y: int)
    requires InGrid(n, x, y) && x != 6 && y != 6
    requires VersionIndex(n, x, y).Some?
    ensures Pos(x, y) in VersionPart(n)
  {
    if n - 11 <= x <= n - 9 && 0 <= y <= 5 {
      assert Pos(x, y) in Box(n - 11, n - 8, 0, 6);
      assert Pos(x, y) in Box(n - 11, n - 8, 0, 6);
    } else {
      assert n - 11 <= y <= n - 9 && 0 <= x <= 5;
      assert Pos(x, y) in Box(0, 6, n - 11, n - 8);
      assert Pos(x, y) in Box(0, 6, n - 11, n - 8);
    }
  }

  /*---- A list of patterns ----*/

  function Cover(ps: seq<Pattern>, n: int): set<Pos>
    decreases |ps|
  {
    if ps == [] then {} else Part(ps[0], n) + Cover(ps[1..], n)
  }

  function SumBound(ps: seq<Pattern>, n: int): nat
    decreases |ps|
  {
    if ps == [] then 0 else Bound(ps[0], n) + SumBound(ps[1..], n)
  }

  /** The cover holds no more cells than the bounds of its parts add up to. */
  lemma {:induction false} CoverCard(ps: seq<Pattern>, n: int)
    requires n >= 21
    ensures |Cover(ps, n)| <= SumBound(ps, n)
    decreases |ps|
  {
    if ps != [] {
      CoverCard(ps[1..], n);
      PartCard(ps[0], n);
      UnionCard(Part(ps[0], n), Cover(ps[1..], n));
    }
  }

  /** A cell off the timing lines that some pattern of the list colours is in the cover. */
  lemma {:induction false} CoverHas(ps: seq<Pattern>, n: int, k: nat, x: int, y: int)
    requires k < |ps| && InGrid(n, x, y) && x != 6 && y != 6
    requires PatternCell(ps[k], n, x, y).Some?
    ensures Pos(x, y) in Cover(ps, n)
    decreases k
  {
    if k == 0 {
      PartCovers(ps[0], n, x, y);
    } else {
      CoverHas(ps[1..], n, k - 1, x, y);
    }
  }

  lemma {:induction false} SumBoundAppend(ps: seq<Pattern>, qs: seq<Pattern>, n: int)
    ensures SumBound(ps + qs, n) == SumBound(ps, n) + SumBound(qs, n)
    decreases |ps|
  {
    if ps == [] {
      assert ps + qs == qs;
    } else {
      assert (ps + qs)[1..] == ps[1..] + qs;
      SumBoundAppend(ps[1..], qs, n);
    }
  }

  /*---- Counting free cells ----*/

  /** When every flagged cell of a list of distinct cells lies in s, at most |s| of
      the cells are flagged. */
  lemma {:induction false} FreeAtLeast(f: Grid, n: nat, cells: seq<Pos>, s: set<Pos>)
    requires IsGrid(f, n) && AllInGrid(n, cells) && Distinct(cells)
    requires forall k :: 0 <= k < |cells| && f[cells[k].y][cells[k].x] ==> cells[k] in s
    ensures FreeCount(f, n, cells) + |s| >= |cells|
    decreases |cells|
  {
    if cells != [] {
      var c, rest := cells[0], cells[1..];
      assert AllInGrid(n, rest) by {
        forall k | 0 <= k < |rest|
          ensures InGrid(n, rest[k].x, rest[k].y)
        {
          assert rest[k] == cells[k + 1];
        }
      }
      assert Distinct(rest) by {
        forall a, b | 0 <= a < b < |rest|
          ensures rest[a] != rest[b]
        {
          assert rest[a] == cells[a + 1] && rest[b] == cells[b + 1];
        }
      }
      if f[c.y][c.x] {
        var s' := s - {c};
        forall k | 0 <= k < |rest| && f[rest[k].y][rest[k].x]
          ensures rest[k] in s'
        {
          assert rest[k] == cells[k + 1];
          assert cells[0] != cells[k + 1];
        }
        FreeAtLeast(f, n, rest, s');
      } else {
        forall k | 0 <= k < |rest| && f[rest[k].y][rest[k].x]
          ensures rest[k] in s
        {
          assert rest[k] == cells[k + 1];
        }
        FreeAtLeast(f, n, rest, s);
      }
    }
  }

  /** A column pair from step `vert` visits two cells a step. */
  lemma {:induction false} PairLength(n: int, right: int, vert: int, j: int)
    requires 0 <= j <= 2 && vert <= n
    ensures |PairFrom(n, right, vert, j)| == if vert == n then 0 else 2 * (n - vert) - j
    decreases n - vert, 2 - j
  {
    if vert < n {
      if j == 2 {
        PairLength(n, right, vert + 1, 0);
      } else {
        PairLength(n, right, vert, j + 1);
      }
    }
  }

  /** A sweep from the pair `right` visits each column 0 .. right but column 6 once,
      n cells each. */
  lemma {:induction false} SweepLength(n: nat, right: int)
    requires SweepStart(right)
    ensures |Sweep(n, right)| == n * Span(0, right + 1)
    decreases right
  {
    if right >= 1 {
      var r := PairRight(right);
      PairLength(n, r, 0, 0);
      SpanClosed(0, right + 1);
      SpanClosed(0, r - 1);
      if r >= 3 {
        SweepStartNext(right);
        SweepLength(n, r - 2);
      }
      assert Span(0, right + 1) == 2 + Span(0, r - 1);
      MulAdd(n, Span(0, r - 1));
    } else if right >= 0 {
      SpanClosed(0, right + 1);
    }
  }

  lemma MulAdd(n: int, k: int)
    ensures n * (2 + k) == 2 * n + n * k
  {
  }

  /*---- The alignment patterns ----*/

  /** A bound on the cells of the alignment pattern at the centre pair (i, j): none
      at the finders' corners, 4 x 5 beside a timing line (centre 6), 5 x 5 elsewhere. */
  function AlignWeight(na: int, i: int, j: int): nat
  {
    if IsCorner(na, i, j) then 0 else (if i == 0 then 4 else 5) * (if j == 0 then 4 else 5)
  }

  /** The weights of the centre pairs from (i, j) on, in the order of AlignmentsFrom. */
  function AlignSum(na: nat, i: nat, j: nat): nat
    requires i <= na && j <= na
    decreases na - i, na - j
  {
    if i == na then 0
    else if j == na then AlignSum(na, i + 1, 0)
    else AlignWeight(na, i, j) + AlignSum(na, i, j + 1)
  }

  lemma MulMono(a: nat, b: nat, c: nat, d: nat)
    requires a <= c && b <= d
    ensures a * b <= c * d
  {
    assert a * b <= c * b;
  }

  lemma AlignmentBound(pos: seq<int>, n: int, i: nat, j: nat)
    requires i < |pos| && j < |pos|
    requires pos[0] == 6 && forall k :: 1 <= k < |pos| ==> pos[k] != 6
    ensures Bound(Alignment(pos[i], pos[j]), n) <= AlignWeight(|pos|, i, j) || IsCorner(|pos|, i, j)
  {
    SpanClosed(pos[i] - 2, pos[i] + 3);
    SpanClosed(pos[j] - 2, pos[j] + 3);
    MulMono(Span(pos[i] - 2, pos[i] + 3), Span(pos[j] - 2, pos[j] + 3),
            if i == 0 then 4 else 5, if j == 0 then 4 else 5);
  }

  /** The alignment patterns from the centre pair (i, j) on cover no more than their weights. */
  lemma {:induction false} AlignmentsBound(pos: seq<int>, n: int, i: nat, j: nat)
    requires i <= |pos| && j <= |pos|
    requires |pos| > 0 ==> pos[0] == 6
    requires forall k :: 1 <= k < |pos| ==> pos[k] != 6
    ensures SumBound(AlignmentsFrom(pos, i, j), n) <= AlignSum(|pos|, i, j)
    decreases |pos| - i, |pos| - j
  {
    if i < |pos| {
      if j == |pos| {
        AlignmentsBound(pos, n, i + 1, 0);
      } else {
        var head: seq<Pattern> := if IsCorner(|pos|, i, j) then [] else [Alignment(pos[i], pos[j])];
        AlignmentsBound(pos, n, i, j + 1);
        SumBoundAppend(head, AlignmentsFrom(pos, i, j + 1), n);
        AlignmentBound(pos, n, i, j);
        assert SumBound(head, n) <= AlignWeight(|pos|, i, j);
      }
    }
  }

  /** The weights of row i of centre pairs from column j >= 1 on. */
  lemma {:induction false} AlignRowFrom(na: nat, i: nat, j: nat)
    requires 2 <= na && i < na && 1 <= j <= na
    ensures AlignSum(na, i, j) ==
            AlignSum(na, i + 1, 0) + (if j == na then 0 else if i == 0 then 20 * (na - 1 - j) else 25 * (na - j))
    decreases na - j
  {
    if j < na {
      AlignRowFrom(na, i, j + 1);
    }
  }

  /** The weights of rows i .. na - 1, for i >= 1: 20 + 25 * (na - 1) for each row but
      the last, whose first pair is a corner. */
  lemma {:induction false} AlignRows(na: nat, i: nat)
    requires 2 <= na && 1 <= i <= na
    ensures AlignSum(na, i, 0) == if i == na then 0 else (na - 1 - i) * (20 + 25 * (na - 1)) + 25 * (na - 1)
    decreases na - i
  {
    if i < na {
      AlignRowFrom(na, i, 1);
      AlignRows(na, i + 1);
      if i < na - 1 {
        var m := 20 + 25 * (na - 1);
        assert (na - 1 - i) * m == (na - 2 - i) * m + m;
      }
    }
  }

  /** With na centres the alignment patterns cover at most 25 * (na^2 - 3) - 10 * (na - 2)
      cells off the timing lines. */
  lemma AlignTotal(na: nat)
    requires 2 <= na <= 7
    ensures AlignSum(na, 0, 0) == 25 * (na * na - 3) - 10 * (na - 2)
  {
    AlignRowFrom(na, 0, 1);
    AlignRows(na, 1);
    AlignArith(na);
  }

  lemma AlignArith(na: int)
    ensures (na - 2) * (20 + 25 * (na - 1)) + 25 * (na - 1) + 20 * (na - 2) == 25 * (na * na - 3) - 10 * (na - 2)
  {
    assert (na - 2) * (20 + 25 * (na - 1)) == 20 * (na - 2) + 25 * ((na - 2) * (na - 1));
    assert (na - 2) * (na - 1) == na * na - 3 * na + 2;
  }

  /*---- The whole symbol ----*/

  /** Row 6 and the three finders with their separators: n - 1 + 7 * 7 + 8 * 7 + 7 * 8. */
  lemma FinderStageBound(n: int)
    requires n >= 21
    ensures SumBound(FinderStage(n), n) == (n - 1) + 49 + 56 + 56
  {
    var ps := FinderStage(n);
    SpanClosed(0, n);
    SpanClosed(0, 8);
    SpanClosed(n - 8, n);
    var t3 := [Finder(3, n - 4)];
    var t2 := [Finder(n - 4, 3)] + t3;
    var t1 := [Finder(3, 3)] + t2;
    assert ps == [Timing] + t1;
    assert SumBound(t3, n) == 56 by {
      assert t3[1..] == [];
    }
    assert SumBound(t2, n) == 56 + 56 by {
      assert t2[1..] == t3;
    }
    assert SumBound(t1, n) == 49 + 56 + 56 by {
      assert t1[1..] == t2;
    }
    assert ([Timing] + t1)[1..] == t1;
  }

  /** No alignment centre but the first is 6. */
  lemma PositionsOff6(ver: Version)
    ensures var pos := AlignmentPatternPositions(ver);
            (|pos| > 0 ==> pos[0] == 6) && forall k :: 1 <= k < |pos| ==> pos[k] != 6
  {
    var pos := AlignmentPatternPositions(ver);
    forall k | 1 <= k < |pos|
      ensures pos[k] != 6
    {
      assert pos[0] < pos[k];
    }
  }

  /** The bound AlignTotal gives for a version's alignment patterns. */
  function AlignArea(ver: Version): int
  {
    var na := ver / 7 + 2;
    if ver >= 2 then 25 * (na * na - 3) - 10 * (na - 2) else 0
  }

  lemma AlignmentsOfVersion(ver: Version, n: int)
    ensures SumBound(AlignmentsFrom(AlignmentPatternPositions(ver), 0, 0), n) <= AlignArea(ver)
  {
    var pos := AlignmentPatternPositions(ver);
    PositionsOff6(ver);
    AlignmentsBound(pos, n, 0, 0);
    if ver >= 2 {
      AlignTotal(|pos|);
    } else {
      assert AlignmentsFrom(pos, 0, 0) == [];
    }
  }

  /** The bounds of everything `draw_function_patterns` draws, added up. */
  lemma FunctionPatternsBound(ver: Version, ecl: Ecc)
    ensures SumBound(FunctionPatternList(ver, ecl), Size(ver)) <=
              (Size(ver) - 1) + 161 + AlignArea(ver) + 31 + (if ver >= 7 then 36 else 0)
  {
    var n := Size(ver);
    var a, b, c, d := FinderStage(n), AlignmentsFrom(AlignmentPatternPositions(ver), 0, 0),
                      [FormatArea(FormatWord(ecl, 0))], VersionStage(ver);
    SumBoundStages(a, b, c, d, n);
    FinderStageBound(n);
    AlignmentsOfVersion(ver, n);
    LastStagesBound(ver, ecl, n);
  }

  lemma SumBoundStages(a: seq<Pattern>, b: seq<Pattern>, c: seq<Pattern>, d: seq<Pattern>, n: int)
    ensures SumBound(a + b + c + d, n) == SumBound(a, n) + SumBound(b, n) + SumBound(c, n) + SumBound(d, n)
  {
    SumBoundAppend(a + b + c, d, n);
    SumBoundAppend(a + b, c, n);
    SumBoundAppend(a, b, n);
  }

  lemma LastStagesBound(ver: Version, ecl: Ecc, n: int)
    ensures SumBound([FormatArea(FormatWord(ecl, 0))], n) == 31
    ensures SumBound(VersionStage(ver), n) == if ver >= 7 then 36 else 0
  {
    OneAreaBound(FormatArea(FormatWord(ecl, 0)), n);
    if ver >= 7 {
      OneAreaBound(VersionArea(VersionWord(ver)), n);
    }
  }

  lemma OneAreaBound(p: Pattern, n: int)
    ensures SumBound([p], n) == Bound(p, n)
  {
    assert [p][1..] == [];
  }

  /** The modules `draw_codewords` finds free in a symbol, once the function patterns
      are drawn, are at least the version's raw module count: every codeword bit of
      a full data area has its module. */
  lemma FunctionModulesLeaveRaw(ver: Version, ecl: Ecc)
    ensures var n := Size(ver);
            FreeCount(MarkAll(Blank(n), n, FunctionPatternList(ver, ecl)), n, SymbolCells(n)) >= RawDataModules(ver)
  {
    var n := Size(ver);
    var ps := FunctionPatternList(ver, ecl);
    var free, marked := FreeCount(MarkAll(Blank(n), n, ps), n, SymbolCells(n)), SumBound(ps, n);
    FreePlusMarked(ver, ecl);
    FunctionPatternsBound(ver, ecl);
    RawDataModulesArea(ver);
    var side: int := n;
    RawAreaSum(side * side, n, free, marked, AlignArea(ver), if ver >= 7 then 36 else 0);
  }

  /** Every swept cell is free or in the cover, and the cover is no larger than its bounds. */
  lemma FreePlusMarked(ver: Version, ecl: Ecc)
    ensures var n := Size(ver);
            var ps := FunctionPatternList(ver, ecl);
            FreeCount(MarkAll(Blank(n), n, ps), n, SymbolCells(n)) + SumBound(ps, n) >= Size(ver) * Size(ver) - Size(ver)
  {
    var n := Size(ver);
    var ps := FunctionPatternList(ver, ecl);
    FlaggedInCover(ver, ecl);
    SymbolSweep(ver);
    FreeAtLeast(MarkAll(Blank(n), n, ps), n, SymbolCells(n), Cover(ps, n));
    CoverCard(ps, n);
    CellCount(ver);
  }

  /** The count of free cells, against the raw module count, with the square as an atom. */
  lemma RawAreaSum(sq: int, n: int, free: int, marked: int, align: int, ver7: int)
    requires free + marked >= sq - n
    requires marked <= (n - 1) + 161 + align + 31 + ver7
    ensures free >= sq - 3 * 64 - 2 * (n - 16) - 31 - align - ver7
  {
  }

  /** The sweep visits n * (n - 1) cells: all but column 6. */
  lemma CellCount(ver: Version)
    ensures |SymbolCells(Size(ver))| == Size(ver) * Size(ver) - Size(ver)
  {
    var n := Size(ver);
    SizeSweepStart(ver);
    SweepLength(n, n - 1);
    SpanClosed(0, n);
    assert |SymbolCells(n)| == |Sweep(n, n - 1)| == n * (n - 1);
    MulPred(n);
  }

  lemma MulPred(n: int)
    ensures n * (n - 1) == n * n - n
  {
  }

  /** Every function module the sweep visits lies in the cover of the pattern list. */
  lemma FlaggedInCover(ver: Version, ecl: Ecc)
    ensures var n := Size(ver);
            var cells := SymbolCells(n);
            var f := MarkAll(Blank(n), n, FunctionPatternList(ver, ecl));
            forall k :: 0 <= k < |cells| && f[cells[k].y][cells[k].x] ==> cells[k] in Cover(FunctionPatternList(ver, ecl), n)
  {
    var n := Size(ver);
    var cells := SymbolCells(n);
    var f := MarkAll(Blank(n), n, FunctionPatternList(ver, ecl));
    forall k | 0 <= k < |cells| && f[cells[k].y][cells[k].x]
      ensures cells[k] in Cover(FunctionPatternList(ver, ecl), n)
    {
      FlaggedCovered(ver, ecl, cells[k]);
    }
  }

  /** A function module the sweep visits lies in the cover of the pattern list. */
  lemma FlaggedCovered(ver: Version, ecl: Ecc, c: Pos)
    requires c in SymbolCells(Size(ver))
    requires var n := Size(ver);
             InGrid(n, c.x, c.y) && MarkAll(Blank(n), n, FunctionPatternList(ver, ecl))[c.y][c.x]
    ensures c in Cover(FunctionPatternList(ver, ecl), Size(ver))
  {
    var n := Size(ver);
    var ps := FunctionPatternList(ver, ecl);
    SymbolSweep(ver);
    assert c.x != 6;
    MarkAllCell(Blank(n), n, ps, c.x, c.y);
    var j :| 0 <= j < |ps| && PatternCell(ps[j], n, c.x, c.y).Some?;
    if c.y == 6 {
      assert ps[0] == Timing;
      assert c in Row(0, n, 6);
    } else {
      CoverHas(ps, n, j, c.x, c.y);
    }
  }
}
