/** The function patterns of a symbol — timing lines, finders, alignment patterns,
    format and version information — as cell-by-cell paintings of the grid, in the
    order `draw_function_patterns` draws them. */
module FunctionPatterns {
  import opened QrTypes
  import opened Grids
  import opened Capacity
  import opened FormatInfo

  datatype Pattern =
    | Timing
    | Finder(cx: int, cy: int)
    | Alignment(cx: int, cy: int)
    | FormatArea(word: nat)
    | VersionArea(word: nat)

  function Abs(a: int): nat
  {
    if a < 0 then -a else a
  }

  /** Chebyshev distance of an offset from the centre (`max(dx.abs(), dy.abs())`). */
  function Ring(dx: int, dy: int): nat
  {
    if Abs(dx) < Abs(dy) then Abs(dy) else Abs(dx)
  }

  /** Which of the 15 format bits the cell (x, y) holds in a symbol of side n, 15
      standing for the module that is always dark; None off the format area. */
  function FormatIndex(n: int, x: int, y: int): (r: Option<nat>)
    ensures r.Some? ==> r.value <= 15
  {
    if x == 8 && 0 <= y <= 5 then Some(y)
    else if x == 8 && y == 7 then Some(6)
    else if x == 8 && y == 8 then Some(7)
    else if x == 7 && y == 8 then Some(8)
    else if y == 8 && 0 <= x <= 5 then Some(14 - x)
    else if y == 8 && n - 8 <= x <= n - 1 then Some(n - 1 - x)
    else if x == 8 && n - 7 <= y <= n - 1 then Some(y - n + 15)
    else if x == 8 && y == n - 8 then Some(15)
    else None
  }

  /** Which of the 18 version bits the cell (x, y) holds: bit i sits at
      (n - 11 + i % 3, i / 3) and at its mirror image across the diagonal. */
  function VersionIndex(n: int, x: int, y: int): (r: Option<nat>)
    ensures r.Some? ==> r.value < 18
  {
    if n - 11 <= x <= n - 9 && 0 <= y <= 5 then Some(3 * y + (x - (n - 11)))
    else if n - 11 <= y <= n - 9 && 0 <= x <= 5 then Some(3 * x + (y - (n - 11)))
    else None
  }

  /** The colour a pattern gives the cell (x, y), or None where it leaves the cell alone. */
  function PatternCell(p: Pattern, n: int, x: int, y: int): Option<bool>
  {
    match p
    case Timing =>
      if x == 6 then Some(y % 2 == 0) else if y == 6 then Some(x % 2 == 0) else None
    case Finder(cx, cy) =>
      if Abs(x - cx) <= 4 && Abs(y - cy) <= 4 then Some(Ring(x - cx, y - cy) != 2 && Ring(x - cx, y - cy) != 4)
      else None
    case Alignment(cx, cy) =>
      if Abs(x - cx) <= 2 && Abs(y - cy) <= 2 then Some(Ring(x - cx, y - cy) != 1) else None
    case FormatArea(w) =>
      (match FormatIndex(n, x, y)
       case Some(i) => Some(i == 15 || GetBit(w, i))
       case None => None)
    case VersionArea(w) =>
      match VersionIndex(n, x, y)
      case Some(i) => Some(GetBit(w, i))
      case None => None
  }

  /** The modules after drawing pattern p. */
  function Paint(g: Grid, n: nat, p: Pattern): (r: Grid)
    requires IsGrid(g, n)
    ensures IsGrid(r, n)
  {
    seq(n, y requires 0 <= y < n =>
      seq(n, x requires 0 <= x < n =>
        match PatternCell(p, n, x, y)
        case Some(v) => v
        case None => g[y][x]))
  }

  /** The function-module flags after drawing pattern p: every cell it colours is set. */
  function Mark(g: Grid, n: nat, p: Pattern): (r: Grid)
    requires IsGrid(g, n)
    ensures IsGrid(r, n)
  {
    seq(n, y requires 0 <= y < n =>
      seq(n, x requires 0 <= x < n => g[y][x] || PatternCell(p, n, x, y).Some?))
  }

  /** Patterns drawn one after another, the first one first. */
  function PaintAll(g: Grid, n: nat, ps: seq<Pattern>): (r: Grid)
    requires IsGrid(g, n)
    ensures IsGrid(r, n)
    decreases |ps|
  {
    if ps == [] then g else PaintAll(Paint(g, n, ps[0]), n, ps[1..])
  }

  function MarkAll(g: Grid, n: nat, ps: seq<Pattern>): (r: Grid)
    requires IsGrid(g, n)
    ensures IsGrid(r, n)
    decreases |ps|
  {
    if ps == [] then g else MarkAll(Mark(g, n, ps[0]), n, ps[1..])
  }

  lemma PaintAllAppend(g: Grid, n: nat, ps: seq<Pattern>, qs: seq<Pattern>)
    requires IsGrid(g, n)
    ensures PaintAll(g, n, ps + qs) == PaintAll(PaintAll(g, n, ps), n, qs)
    decreases |ps|
  {
    if ps != [] {
      assert (ps + qs)[1..] == ps[1..] + qs;
      PaintAllAppend(Paint(g, n, ps[0]), n, ps[1..], qs);
    } else {
      assert ps + qs == qs;
    }
  }

  lemma MarkAllAppend(g: Grid, n: nat, ps: seq<Pattern>, qs: seq<Pattern>)
    requires IsGrid(g, n)
    ensures MarkAll(g, n, ps + qs) == MarkAll(MarkAll(g, n, ps), n, qs)
    decreases |ps|
  {
    if ps != [] {
      assert (ps + qs)[1..] == ps[1..] + qs;
      MarkAllAppend(Mark(g, n, ps[0]), n, ps[1..], qs);
    } else {
      assert ps + qs == qs;
    }
  }

  /** A cell is a function module after a series of patterns exactly when it was one
      before or some pattern of the series colours it. */
  lemma {:induction false} MarkAllCell(g: Grid, n: nat, ps: seq<Pattern>, x: int, y: int)
    requires IsGrid(g, n) && InGrid(n, x, y)
    ensures MarkAll(g, n, ps)[y][x] <==>
            g[y][x] || exists k :: 0 <= k < |ps| && PatternCell(ps[k], n, x, y).Some?
    decreases |ps|
  {
    if ps != [] {
      MarkAllCell(Mark(g, n, ps[0]), n, ps[1..], x, y);
      if exists k :: 0 <= k < |ps| - 1 && PatternCell(ps[1..][k], n, x, y).Some? {
        var k :| 0 <= k < |ps| - 1 && PatternCell(ps[1..][k], n, x, y).Some?;
        assert PatternCell(ps[k + 1], n, x, y).Some?;
      }
      if exists k :: 0 <= k < |ps| && PatternCell(ps[k], n, x, y).Some? {
        var k :| 0 <= k < |ps| && PatternCell(ps[k], n, x, y).Some?;
        if k > 0 {
          assert PatternCell(ps[1..][k - 1], n, x, y).Some?;
        }
      }
    }
  }

  /** A cell no pattern of the series colours keeps its colour. */
  lemma {:induction false} PaintAllOutside(g: Grid, n: nat, ps: seq<Pattern>, x: int, y: int)
    requires IsGrid(g, n) && InGrid(n, x, y)
    requires forall k :: 0 <= k < |ps| ==> PatternCell(ps[k], n, x, y).None?
    ensures PaintAll(g, n, ps)[y][x] == g[y][x]
    decreases |ps|
  {
    if ps != [] {
      assert PatternCell(ps[0], n, x, y).None?;
      PaintAllOutside(Paint(g, n, ps[0]), n, ps[1..], x, y);
    }
  }

  /** Drawing a list that starts with p is drawing p, then the rest. */
  lemma PaintAllCons(g: Grid, n: nat, p: Pattern, qs: seq<Pattern>)
    requires IsGrid(g, n)
    ensures PaintAll(g, n, [p] + qs) == PaintAll(Paint(g, n, p), n, qs)
    ensures MarkAll(g, n, [p] + qs) == MarkAll(Mark(g, n, p), n, qs)
  {
    assert ([p] + qs)[1..] == qs;
  }

  /*---- The patterns of one version ----*/

  /** The pairs of centres the finders occupy: first with first, first with last,
      last with first. */
  predicate IsCorner(k: int, i: int, j: int)
  {
    (i == 0 && j == 0) || (i == 0 && j == k - 1) || (i == k - 1 && j == 0)
  }

  /** Alignment patterns at every pair of listed centres, row-major from (i, j), except
      at the three corners the finders take. */
  function AlignmentsFrom(pos: seq<int>, i: nat, j: nat): seq<Pattern>
    requires i <= |pos| && j <= |pos|
    decreases |pos| - i, |pos| - j
  {
    if i == |pos| then []
    else if j == |pos| then AlignmentsFrom(pos, i + 1, 0)
    else
      (if IsCorner(|pos|, i, j) then [] else [Alignment(pos[i], pos[j])]) + AlignmentsFrom(pos, i, j + 1)
  }

  /** Every alignment pattern in the list has its centre at a pair of listed positions. */
  lemma {:induction false} AlignmentsFromCentres(pos: seq<int>, i: nat, j: nat, k: nat)
    requires i <= |pos| && j <= |pos| && k < |AlignmentsFrom(pos, i, j)|
    ensures AlignmentsFrom(pos, i, j)[k].Alignment?
    ensures AlignmentsFrom(pos, i, j)[k].cx in pos && AlignmentsFrom(pos, i, j)[k].cy in pos
    decreases |pos| - i, |pos| - j
  {
    if i < |pos| {
      if j == |pos| {
        AlignmentsFromCentres(pos, i + 1, 0, k);
      } else {
        var head: seq<Pattern> := if IsCorner(|pos|, i, j) then [] else [Alignment(pos[i], pos[j])];
        if k >= |head| {
          AlignmentsFromCentres(pos, i, j + 1, k - |head|);
        }
      }
    }
  }

  /** The timing lines and the three finders, in the order they are drawn. */
  function FinderStage(n: int): (r: seq<Pattern>)
    ensures |r| == 4 && r[0] == Timing && r[1] == Finder(3, 3)
    ensures r[2] == Finder(n - 4, 3) && r[3] == Finder(3, n - 4)
  {
    [Timing, Finder(3, 3), Finder(n - 4, 3), Finder(3, n - 4)]
  }

  /** The version area, present from version 7 on. */
  function VersionStage(ver: Version): (r: seq<Pattern>)
    ensures ver >= 7 ==> r == [VersionArea(VersionWord(ver))]
    ensures ver < 7 ==> r == []
  {
    if ver >= 7 then [VersionArea(VersionWord(ver))] else []
  }

  /** What `draw_function_patterns` draws, in its order: the timing lines, the three
      finders, the alignment patterns, the format area for mask 0 and, from version 7
      on, the version area. */
  function FunctionPatternList(ver: Version, ecl: Ecc): seq<Pattern>
  {
    FinderStage(Size(ver)) + AlignmentsFrom(AlignmentPatternPositions(ver), 0, 0)
      + [FormatArea(FormatWord(ecl, 0))] + VersionStage(ver)
  }

  /** Drawing a list of at most one pattern. */
  lemma PaintAllShort(g: Grid, n: nat, ps: seq<Pattern>)
    requires IsGrid(g, n) && |ps| <= 1
    ensures PaintAll(g, n, ps) == if ps == [] then g else Paint(g, n, ps[0])
    ensures MarkAll(g, n, ps) == if ps == [] then g else Mark(g, n, ps[0])
  {
    if ps != [] {
      PaintAllCons(g, n, ps[0], []);
      assert [ps[0]] + [] == ps;
    }
  }

  /** The function patterns of one version drawn stage by stage, as
      `draw_function_patterns` calls its helpers: the timing lines, the three
      finders, the alignment patterns, the format area and the version area. */
  lemma FunctionPatternStages(g: Grid, f: Grid, n: nat, ver: Version, ecl: Ecc)
    requires n == Size(ver) && IsGrid(g, n) && IsGrid(f, n)
    ensures PaintAll(g, n, FunctionPatternList(ver, ecl))
            == Staged(Paint(PaintAll(Paint(Paint(Paint(Paint(g, n, Timing), n, Finder(3, 3)), n, Finder(n - 4, 3)), n, Finder(3, n - 4)),
                                     n, AlignmentsFrom(AlignmentPatternPositions(ver), 0, 0)), n, FormatArea(FormatWord(ecl, 0))),
                      n, ver, false)
    ensures MarkAll(f, n, FunctionPatternList(ver, ecl))
            == Staged(Mark(MarkAll(Mark(Mark(Mark(Mark(f, n, Timing), n, Finder(3, 3)), n, Finder(n - 4, 3)), n, Finder(3, n - 4)),
                                   n, AlignmentsFrom(AlignmentPatternPositions(ver), 0, 0)), n, FormatArea(FormatWord(ecl, 0))),
                      n, ver, true)
  {
    var head := FinderStage(n);
    var aligns := AlignmentsFrom(AlignmentPatternPositions(ver), 0, 0);
    var fmt := [FormatArea(FormatWord(ecl, 0))];
    var last := VersionStage(ver);
    assert FunctionPatternList(ver, ecl) == head + aligns + fmt + last;
    PaintStages(g, n, head, aligns, fmt, last, ver, ecl);
    MarkStages(f, n, head, aligns, fmt, last, ver, ecl);
  }

  /** The last stage: the version area from version 7 on, painted or marked. */
  function Staged(g: Grid, n: nat, ver: Version, mark: bool): (r: Grid)
    requires IsGrid(g, n)
    ensures IsGrid(r, n)
  {
    if ver < 7 then g
    else if mark then Mark(g, n, VersionArea(VersionWord(ver)))
    else Paint(g, n, VersionArea(VersionWord(ver)))
  }

  lemma PaintStages(g: Grid, n: nat, head: seq<Pattern>, aligns: seq<Pattern>, fmt: seq<Pattern>, last: seq<Pattern>,
                    ver: Version, ecl: Ecc)
    requires IsGrid(g, n) && n == Size(ver) && head == FinderStage(n) && fmt == [FormatArea(FormatWord(ecl, 0))]
    requires aligns == AlignmentsFrom(AlignmentPatternPositions(ver), 0, 0) && last == VersionStage(ver)
    ensures PaintAll(g, n, head + aligns + fmt + last)
            == Staged(Paint(PaintAll(Paint(Paint(Paint(Paint(g, n, Timing), n, Finder(3, 3)), n, Finder(n - 4, 3)), n, Finder(3, n - 4)),
                                     n, aligns), n, FormatArea(FormatWord(ecl, 0))),
                      n, ver, false)
  {
    Stages(g, g, n, head, aligns, fmt, last);
    var g1 := Paint(Paint(Paint(Paint(g, n, Timing), n, Finder(3, 3)), n, Finder(n - 4, 3)), n, Finder(3, n - 4));
    assert g1 == Paint(Paint(Paint(Paint(g, n, head[0]), n, head[1]), n, head[2]), n, head[3]);
  }

  lemma MarkStages(f: Grid, n: nat, head: seq<Pattern>, aligns: seq<Pattern>, fmt: seq<Pattern>, last: seq<Pattern>,
                   ver: Version, ecl: Ecc)
    requires IsGrid(f, n) && n == Size(ver) && head == FinderStage(n) && fmt == [FormatArea(FormatWord(ecl, 0))]
    requires aligns == AlignmentsFrom(AlignmentPatternPositions(ver), 0, 0) && last == VersionStage(ver)
    ensures MarkAll(f, n, head + aligns + fmt + last)
            == Staged(Mark(MarkAll(Mark(Mark(Mark(Mark(f, n, Timing), n, Finder(3, 3)), n, Finder(n - 4, 3)), n, Finder(3, n - 4)),
                                   n, aligns), n, FormatArea(FormatWord(ecl, 0))),
                      n, ver, true)
  {
    Stages(f, f, n, head, aligns, fmt, last);
    var f1 := Mark(Mark(Mark(Mark(f, n, Timing), n, Finder(3, 3)), n, Finder(n - 4, 3)), n, Finder(3, n - 4));
    assert f1 == Mark(Mark(Mark(Mark(f, n, head[0]), n, head[1]), n, head[2]), n, head[3]);
  }

  lemma Stages(g: Grid, f: Grid, n: nat, head: seq<Pattern>, aligns: seq<Pattern>, fmt: seq<Pattern>, last: seq<Pattern>)
    requires IsGrid(g, n) && IsGrid(f, n) && |head| == 4 && |fmt| == 1 && |last| <= 1
    ensures var g1 := Paint(Paint(Paint(Paint(g, n, head[0]), n, head[1]), n, head[2]), n, head[3]);
      var g2 := Paint(PaintAll(g1, n, aligns), n, fmt[0]);
      PaintAll(g, n, head + aligns + fmt + last) == if last != [] then Paint(g2, n, last[0]) else g2
    ensures var f1 := Mark(Mark(Mark(Mark(f, n, head[0]), n, head[1]), n, head[2]), n, head[3]);
      var f2 := Mark(MarkAll(f1, n, aligns), n, fmt[0]);
      MarkAll(f, n, head + aligns + fmt + last) == if last != [] then Mark(f2, n, last[0]) else f2
  {
    PaintAllAppend(g, n, head + aligns + fmt, last);
    PaintAllAppend(g, n, head + aligns, fmt);
    PaintAllAppend(g, n, head, aligns);
    MarkAllAppend(f, n, head + aligns + fmt, last);
    MarkAllAppend(f, n, head + aligns, fmt);
    MarkAllAppend(f, n, head, aligns);
    HeadStages(g, n, head);
    HeadStages(f, n, head);
    PaintAllShort(PaintAll(PaintAll(g, n, head), n, aligns), n, fmt);
    PaintAllShort(MarkAll(MarkAll(f, n, head), n, aligns), n, fmt);
    PaintAllShort(PaintAll(PaintAll(PaintAll(g, n, head), n, aligns), n, fmt), n, last);
    PaintAllShort(MarkAll(MarkAll(MarkAll(f, n, head), n, aligns), n, fmt), n, last);
  }

  lemma HeadStages(g: Grid, n: nat, head: seq<Pattern>)
    requires IsGrid(g, n) && |head| == 4
    ensures PaintAll(g, n, head) == Paint(Paint(Paint(Paint(g, n, head[0]), n, head[1]), n, head[2]), n, head[3])
    ensures MarkAll(g, n, head) == Mark(Mark(Mark(Mark(g, n, head[0]), n, head[1]), n, head[2]), n, head[3])
  {
    var g1, f1 := Paint(g, n, head[0]), Mark(g, n, head[0]);
    var g2, f2 := Paint(g1, n, head[1]), Mark(f1, n, head[1]);
    var g3, f3 := Paint(g2, n, head[2]), Mark(f2, n, head[2]);
    PaintAllFirst(g, n, head);
    PaintAllFirst(g1, n, head[1..]);
    PaintAllFirst(f1, n, head[1..]);
    PaintAllFirst(g2, n, head[1..][1..]);
    PaintAllFirst(f2, n, head[1..][1..]);
    PaintAllShort(g3, n, head[1..][1..][1..]);
    PaintAllShort(f3, n, head[1..][1..][1..]);
  }

  /** Drawing a non-empty list is drawing its first pattern, then the rest. */
  lemma PaintAllFirst(g: Grid, n: nat, ps: seq<Pattern>)
    requires IsGrid(g, n) && ps != []
    ensures PaintAll(g, n, ps) == PaintAll(Paint(g, n, ps[0]), n, ps[1..])
    ensures MarkAll(g, n, ps) == MarkAll(Mark(g, n, ps[0]), n, ps[1..])
  {
  }

  /*---- Reading the format and version areas back ----*/

  /** The cell of the first copy of format bit i (i < 15), next to the top-left finder. */
  function FirstFormatCell(i: nat): (int, int)
    requires i < 15
  {
    if i < 6 then (8, i)
    else if i == 6 then (8, 7)
    else if i == 7 then (8, 8)
    else if i == 8 then (7, 8)
    else (14 - i, 8)
  }

  /** The cell of the second copy of format bit i, split between the other two finders. */
  function SecondFormatCell(n: int, i: nat): (int, int)
    requires i < 15
  {
    if i < 8 then (n - 1 - i, 8) else (8, n - 15 + i)
  }

  /** Both copies of every format bit lie in the format area, at that bit's index. */
  lemma FormatCellsIndexed(n: int, i: nat)
    requires n >= 21 && i < 15
    ensures FormatIndex(n, FirstFormatCell(i).0, FirstFormatCell(i).1) == Some(i)
    ensures FormatIndex(n, SecondFormatCell(n, i).0, SecondFormatCell(n, i).1) == Some(i)
  {
  }

  /** The number a reader assembles from the cells of one copy, bit i from cells(i). */
  function ReadFormatBits(g: Grid, n: nat, second: bool, k: nat): nat
    requires IsGrid(g, n) && n >= 21 && k <= 15
  {
    if k == 0 then 0
    else
      var c := if second then SecondFormatCell(n, k - 1) else FirstFormatCell(k - 1);
      ReadFormatBits(g, n, second, k - 1) + (if g[c.1][c.0] then Pow2(k - 1) else 0)
  }

  /** Bits 0 .. k - 1 of w, weighted, add up to w modulo 2^k. */
  lemma LowBits(w: nat, k: nat)
    ensures w % Pow2(k + 1) == w % Pow2(k) + (if GetBit(w, k) then Pow2(k) else 0)
  {
    var p := Pow2(k);
    assert Pow2(k + 1) == 2 * p;
    GetBitShift(w, k);
    ModDouble(w, p);
  }

  /** w modulo 2p is w modulo p, plus p when w / p is odd. */
  lemma ModDouble(w: nat, p: nat)
    requires p > 0
    ensures w % (2 * p) == w % p + (if (w / p) % 2 == 1 then p else 0)
  {
    var q := w / p;
    var r := w % p;
    DivMod(w, p);
    var q2 := q / 2;
    var b := q % 2;
    SplitQuotient(w, p, q, r, q2, b);
    DivUnique(w, 2 * p, q2, p * b + r);
  }

  lemma DivMod(w: nat, p: nat)
    requires p > 0
    ensures w == p * (w / p) + w % p && w % p < p
  {
  }

  /** w = p q + r with q = 2 q2 + b, b a bit: w = 2p q2 + (p b + r) and p b + r < 2p. */
  lemma SplitQuotient(w: nat, p: nat, q: nat, r: nat, q2: nat, b: nat)
    requires p > 0 && w == p * q + r && r < p && q == 2 * q2 + b && b <= 1
    ensures w == (2 * p) * q2 + (p * b + r) && p * b + r < 2 * p
    ensures p * b == if b == 1 then p else 0
  {
    assert p * q == (2 * p) * q2 + p * b by {
      assert p * (2 * q2 + b) == p * (2 * q2) + p * b;
    }
  }

  /** Either copy of the format area painted with w reads back as w. */
  lemma {:induction false} ReadFormatPainted(g: Grid, n: nat, w: nat, second: bool, k: nat)
    requires IsGrid(g, n) && n >= 21 && k <= 15
    ensures ReadFormatBits(Paint(g, n, FormatArea(w)), n, second, k) == w % Pow2(k)
  {
    if k > 0 {
      ReadFormatPainted(g, n, w, second, k - 1);
      FormatCellsIndexed(n, k - 1);
      LowBits(w, k - 1);
    } else {
      assert w % 1 == 0;
    }
  }

  /** A reader of either copy of the format area recovers the level and the mask. */
  lemma FormatAreaDecodes(g: Grid, n: nat, ecl: Ecc, mask: Mask, second: bool)
    requires IsGrid(g, n) && n >= 21
    ensures DecodeFormat(ReadFormatBits(Paint(g, n, FormatArea(FormatWord(ecl, mask))), n, second, 15))
            == Some((ecl, mask))
  {
    var w := FormatWord(ecl, mask);
    ReadFormatPainted(g, n, w, second, 15);
    Pow2Values();
    DivUnique(w, 32768, 0, w);
    DecodeFormatWord(ecl, mask);
  }

  /** The number read from one copy of the version area, bit i from cell
      (n - 11 + i % 3, i / 3), or from its mirror image when `mirrored`. */
  function ReadVersionBits(g: Grid, n: nat, mirrored: bool, k: nat): nat
    requires IsGrid(g, n) && n >= 21 && k <= 18
  {
    if k == 0 then 0
    else
      var a := n - 11 + (k - 1) % 3;
      var b := (k - 1) / 3;
      var dark := if mirrored then g[a][b] else g[b][a];
      ReadVersionBits(g, n, mirrored, k - 1) + (if dark then Pow2(k - 1) else 0)
  }

  lemma {:induction false} ReadVersionPainted(g: Grid, n: nat, w: nat, mirrored: bool, k: nat)
    requires IsGrid(g, n) && n >= 21 && k <= 18
    ensures ReadVersionBits(Paint(g, n, VersionArea(w)), n, mirrored, k) == w % Pow2(k)
  {
    if k > 0 {
      var i := k - 1;
      var pg := Paint(g, n, VersionArea(w));
      ReadVersionPainted(g, n, w, mirrored, i);
      VersionCellPainted(g, n, w, mirrored, i);
      assert ReadVersionBits(pg, n, mirrored, k) ==
             ReadVersionBits(pg, n, mirrored, i) + (if GetBit(w, i) then Pow2(i) else 0);
      LowBits(w, i);
    } else {
      assert w % 1 == 0;
    }
  }

  /** Bit i of the version area painted with w sits in cell (n - 11 + i % 3, i / 3)
      and in its mirror image. */
  lemma VersionCellPainted(g: Grid, n: nat, w: nat, mirrored: bool, i: nat)
    requires IsGrid(g, n) && n >= 21 && i < 18
    ensures var pg := Paint(g, n, VersionArea(w));
            var a := n - 11 + i % 3;
            var b := i / 3;
            (if mirrored then pg[a][b] else pg[b][a]) == GetBit(w, i)
  {
    var pg := Paint(g, n, VersionArea(w));
    var a := n - 11 + i % 3;
    var b := i / 3;
    assert 0 <= b <= 5 && n - 11 <= a <= n - 9 && 3 * b + (a - (n - 11)) == i;
    assert VersionIndex(n, a, b) == Some(i) && VersionIndex(n, b, a) == Some(i);
    if mirrored {
      assert pg[a][b] == GetBit(w, i);
    } else {
      assert pg[b][a] == GetBit(w, i);
    }
  }

  /** Both copies of the version area read back as the version word, whose top six
      bits are the version number. */
  lemma VersionAreaDecodes(g: Grid, ver: Version, mirrored: bool)
    requires IsGrid(g, Size(ver))
    ensures ReadVersionBits(Paint(g, Size(ver), VersionArea(VersionWord(ver))), Size(ver), mirrored, 18) / 4096
            == ver as nat
  {
    var n := Size(ver);
    var w := VersionWord(ver);
    ReadVersionPainted(g, n, w, mirrored, 18);
    Pow2Values();
    VersionWordDecode(ver);
    DivUnique(w, 262144, 0, w);
    assert ReadVersionBits(Paint(g, n, VersionArea(w)), n, mirrored, 18) == w;
  }
}

/** The progress of a drawing loop: which cells of a pattern it has drawn so far. */
module Drawing {
  import opened QrTypes
  import opened Grids
  import opened FunctionPatterns

  /** How far a drawing loop has come. */
  datatype Progress =
    | BoxUpTo(cx: int, cy: int, dy: int, dx: int)  // rows above cy + dy, then row cy + dy left of cx + dx
    | TimingUpTo(down: int, across: int)           // column 6 above row `down`, row 6 left of column `across`
    | FormatUpTo(first: int, second: int)          // bits below `first` of the first copy, below `second` of the second
    | VersionUpTo(upper: int, lower: int)          // bits below `upper` of the top-right copy, below `lower` of the bottom-left one

  predicate Selected(pr: Progress, n: int, x: int, y: int)
  {
    match pr
    case BoxUpTo(cx, cy, dy, dx) => y - cy < dy || (y - cy == dy && x - cx < dx)
    case TimingUpTo(down, across) => (x == 6 && y < down) || (y == 6 && x < across)
    case FormatUpTo(a, b) =>
      (match FormatIndex(n, x, y)
       case Some(k) => if x <= 8 && y <= 8 then k < a else k < b
       case None => false)
    case VersionUpTo(a, b) =>
      (match VersionIndex(n, x, y)
       case Some(k) => if y <= 5 then k < a else k < b
       case None => false)
  }

  /** What pattern p gives the cell once the loop has reached it. */
  function Drawn(p: Pattern, pr: Progress, n: int, x: int, y: int): Option<bool>
  {
    if Selected(pr, n, x, y) then PatternCell(p, n, x, y) else None
  }

  /** The modules g and flags f are g0 and f0 with the selected cells of p drawn. */
  ghost predicate PartlyPainted(g: Grid, g0: Grid, f: Grid, f0: Grid, n: nat, p: Pattern, pr: Progress)
  {
    IsGrid(g, n) && IsGrid(g0, n) && IsGrid(f, n) && IsGrid(f0, n) &&
    PaintedCells(g, g0, f, f0, n, p, pr, 1)
  }

  /** The cell-by-cell part of `PartlyPainted`, behind one layer so that the drawing
      methods pass it along without unfolding it; `PaintedCellsDef` opens it. */
  ghost predicate PaintedCells(g: Grid, g0: Grid, f: Grid, f0: Grid, n: nat, p: Pattern, pr: Progress, k: nat)
    requires IsGrid(g, n) && IsGrid(g0, n) && IsGrid(f, n) && IsGrid(f0, n)
    decreases k
  {
    if k > 0 then PaintedCells(g, g0, f, f0, n, p, pr, k - 1)
    else
      forall y, x :: InGrid(n, x, y) ==>
        g[y][x] == (match Drawn(p, pr, n, x, y) case Some(v) => v case None => g0[y][x]) &&
        f[y][x] == (f0[y][x] || Drawn(p, pr, n, x, y).Some?)
  }

  lemma PaintedCellsDef(g: Grid, g0: Grid, f: Grid, f0: Grid, n: nat, p: Pattern, pr: Progress)
    requires IsGrid(g, n) && IsGrid(g0, n) && IsGrid(f, n) && IsGrid(f0, n)
    ensures PartlyPainted(g, g0, f, f0, n, p, pr) <==>
      forall y, x :: InGrid(n, x, y) ==>
        g[y][x] == (match Drawn(p, pr, n, x, y) case Some(v) => v case None => g0[y][x]) &&
        f[y][x] == (f0[y][x] || Drawn(p, pr, n, x, y).Some?)
  {
    assert PaintedCells(g, g0, f, f0, n, p, pr, 1) == PaintedCells(g, g0, f, f0, n, p, pr, 0);
  }

  /** Two progress marks that select the same cells of the pattern. */
  ghost predicate SameCells(p: Pattern, n: int, pr1: Progress, pr2: Progress)
  {
    forall y, x :: InGrid(n, x, y) && PatternCell(p, n, x, y).Some? ==>
      (Selected(pr1, n, x, y) <==> Selected(pr2, n, x, y))
  }

  /** pr2 selects what pr1 does plus the one cell (cx, cy). */
  ghost predicate OneMore(p: Pattern, n: int, pr1: Progress, pr2: Progress, cx: int, cy: int)
  {
    forall y, x :: InGrid(n, x, y) && PatternCell(p, n, x, y).Some? ==>
      (Selected(pr2, n, x, y) <==> Selected(pr1, n, x, y) || (x == cx && y == cy))
  }

  lemma NothingPainted(g: Grid, f: Grid, n: nat, p: Pattern, pr: Progress)
    requires IsGrid(g, n) && IsGrid(f, n)
    requires forall y, x :: InGrid(n, x, y) && PatternCell(p, n, x, y).Some? ==> !Selected(pr, n, x, y)
    ensures PartlyPainted(g, g, f, f, n, p, pr)
  {
    PaintedCellsDef(g, g, f, f, n, p, pr);
  }

  lemma Reselect(g: Grid, g0: Grid, f: Grid, f0: Grid, n: nat, p: Pattern, pr1: Progress, pr2: Progress)
    requires PartlyPainted(g, g0, f, f0, n, p, pr1) && SameCells(p, n, pr1, pr2)
    ensures PartlyPainted(g, g0, f, f0, n, p, pr2)
  {
    PaintedCellsDef(g, g0, f, f0, n, p, pr1);
    PaintedCellsDef(g, g0, f, f0, n, p, pr2);
    forall y, x | InGrid(n, x, y)
      ensures Drawn(p, pr1, n, x, y) == Drawn(p, pr2, n, x, y)
    {
    }
  }

  /** Drawing the next cell of the pattern (the source's `set_function_module`). */
  lemma PaintStep(g: Grid, g0: Grid, f: Grid, f0: Grid, n: nat, p: Pattern, pr1: Progress, pr2: Progress,
                  cx: int, cy: int, v: bool)
    requires PartlyPainted(g, g0, f, f0, n, p, pr1) && InGrid(n, cx, cy)
    requires PatternCell(p, n, cx, cy) == Some(v) && OneMore(p, n, pr1, pr2, cx, cy)
    ensures PartlyPainted(Set(g, cx, cy, v), g0, Set(f, cx, cy, true), f0, n, p, pr2)
  {
    var g2 := Set(g, cx, cy, v);
    var f2 := Set(f, cx, cy, true);
    PaintedCellsDef(g, g0, f, f0, n, p, pr1);
    forall y, x | InGrid(n, x, y)
      ensures g2[y][x] == (match Drawn(p, pr2, n, x, y) case Some(w) => w case None => g0[y][x])
      ensures f2[y][x] == (f0[y][x] || Drawn(p, pr2, n, x, y).Some?)
    {
      if x == cx && y == cy {
        assert Drawn(p, pr2, n, x, y) == Some(v);
      } else {
        assert Drawn(p, pr2, n, x, y) == Drawn(p, pr1, n, x, y);
        assert g2[y][x] == g[y][x] && f2[y][x] == f[y][x];
      }
    }
    PaintedCellsDef(g2, g0, f2, f0, n, p, pr2);
  }

  /** Once every cell of the pattern is selected, the grid is the painted one. */
  lemma FullyPainted(g: Grid, g0: Grid, f: Grid, f0: Grid, n: nat, p: Pattern, pr: Progress)
    requires PartlyPainted(g, g0, f, f0, n, p, pr)
    requires forall y, x :: InGrid(n, x, y) && PatternCell(p, n, x, y).Some? ==> Selected(pr, n, x, y)
    ensures g == Paint(g0, n, p) && f == Mark(f0, n, p)
  {
    PaintedCellsDef(g, g0, f, f0, n, p, pr);
    forall y, x | InGrid(n, x, y)
      ensures g[y][x] == Paint(g0, n, p)[y][x] && f[y][x] == Mark(f0, n, p)[y][x]
    {
    }
    GridExt(g, Paint(g0, n, p), n);
    GridExt(f, Mark(f0, n, p), n);
  }
  /*---- The order the format and version areas are drawn in ----*/

  lemma FormatFirstStep(n: int, w: nat, i: nat, x: int, y: int)
    requires n >= 21 && i < 15 && (x, y) == FirstFormatCell(i)
    ensures InGrid(n, x, y) && PatternCell(FormatArea(w), n, x, y) == Some(GetBit(w, i))
    ensures OneMore(FormatArea(w), n, FormatUpTo(i, 0), FormatUpTo(i + 1, 0), x, y)
  {
    FormatCellsIndexed(n, i);
  }

  lemma FormatSecondStep(n: int, w: nat, i: nat, x: int, y: int)
    requires n >= 21 && i < 15 && (x, y) == SecondFormatCell(n, i)
    ensures InGrid(n, x, y) && PatternCell(FormatArea(w), n, x, y) == Some(GetBit(w, i))
    ensures OneMore(FormatArea(w), n, FormatUpTo(15, i), FormatUpTo(15, i + 1), x, y)
  {
    FormatCellsIndexed(n, i);
  }

  /** The always-dark module comes last, and then the whole area is drawn. */
  lemma FormatDarkStep(n: int, w: nat)
    requires n >= 21
    ensures InGrid(n, 8, n - 8) && PatternCell(FormatArea(w), n, 8, n - 8) == Some(true)
    ensures OneMore(FormatArea(w), n, FormatUpTo(15, 15), FormatUpTo(15, 16), 8, n - 8)
    ensures forall y, x :: InGrid(n, x, y) && PatternCell(FormatArea(w), n, x, y).Some? ==>
              Selected(FormatUpTo(15, 16), n, x, y)
  {
  }

  /** Bit i of the version word goes to (a, b) and to (b, a), with a = n - 11 + i % 3
      and b = i / 3. */
  lemma VersionSteps(n: int, w: nat, i: nat, a: int, b: int)
    requires n >= 21 && i < 18 && a == n - 11 + i % 3 && b == i / 3
    ensures InGrid(n, a, b) && InGrid(n, b, a)
    ensures PatternCell(VersionArea(w), n, a, b) == Some(GetBit(w, i))
    ensures PatternCell(VersionArea(w), n, b, a) == Some(GetBit(w, i))
    ensures OneMore(VersionArea(w), n, VersionUpTo(i, i), VersionUpTo(i + 1, i), a, b)
    ensures OneMore(VersionArea(w), n, VersionUpTo(i + 1, i), VersionUpTo(i + 1, i + 1), b, a)
  {
    assert 3 * b + (a - (n - 11)) == i;
  }

  lemma VersionAllSelected(n: int, w: nat)
    ensures forall y, x :: InGrid(n, x, y) && PatternCell(VersionArea(w), n, x, y).Some? ==>
              Selected(VersionUpTo(18, 18), n, x, y)
  {
  }
}
