/** The penalty score `get_penalty_score` gives a masked symbol: long runs of one
    colour, finder-like patterns in rows and columns, 2x2 blocks of one colour, and
    the imbalance of dark against light. */
module Penalty {
  import opened Grids

  const PenaltyN1: int := 3
  const PenaltyN2: int := 3
  const PenaltyN3: int := 40
  const PenaltyN4: int := 10

  /*---- The finder-pattern detector (`FinderPenalty`) ----*/

  /** `add_history` on a run history, newest run first: the new run goes in front and
      the oldest falls off; a first run (empty history) is lengthened by the light
      border of `qrSize` modules outside the symbol. */
  function AddHistoryF(qrSize: int, rh: seq<int>, cur: int): (r: seq<int>)
    requires |rh| == 7
    ensures |r| == 7 && r[1..] == rh[..6]
    ensures r[0] == if rh[0] == 0 then cur + qrSize else cur
  {
    [if rh[0] == 0 then cur + qrSize else cur] + rh[..6]
  }

  /** `count_patterns`: how many finder-like patterns (dark:light:dark:light:dark in
      ratio 1:1:3:1:1, with light of four times the unit on one side and at least the
      unit on the other) the history ends with, counting each side once. */
  function FinderCount(rh: seq<int>): (r: int)
    requires |rh| == 7
    ensures 0 <= r <= 2
    ensures r > 0 ==> rh[1] > 0 && rh[2] == rh[1] && rh[3] == 3 * rh[1] && rh[4] == rh[1] && rh[5] == rh[1]
  {
    var n := rh[1];
    var core := n > 0 && rh[2] == n && rh[3] == n * 3 && rh[4] == n && rh[5] == n;
    (if core && rh[0] >= n * 4 && rh[6] >= n then 1 else 0)
      + (if core && rh[6] >= n * 4 && rh[0] >= n then 1 else 0)
  }

  function Mirror(rh: seq<int>): (r: seq<int>)
    requires |rh| == 7
    ensures |r| == 7
  {
    [rh[6], rh[5], rh[4], rh[3], rh[2], rh[1], rh[0]]
  }

  /** The detector does not care which way the line is read: the two sides of the
      pattern swap roles. */
  lemma FinderCountMirror(rh: seq<int>)
    requires |rh| == 7
    ensures FinderCount(Mirror(rh)) == FinderCount(rh)
  {
    var m := Mirror(rh);
    assert m[0] == rh[6] && m[1] == rh[5] && m[2] == rh[4] && m[3] == rh[3];
    assert m[4] == rh[2] && m[5] == rh[1] && m[6] == rh[0];
  }

  /** `terminate_and_count`: closes the line as if a light border of `qrSize`
      modules followed it, then counts. */
  function TerminateCount(qrSize: int, rh: seq<int>, color: bool, len: int): (r: int)
    requires |rh| == 7
    ensures 0 <= r <= 2
  {
    var h := if color then AddHistoryF(qrSize, rh, len) else rh;
    var l := if color then 0 else len;
    FinderCount(AddHistoryF(qrSize, h, l + qrSize))
  }

  /** The detector as the source keeps it: a side length and seven run lengths. */
  class FinderPenalty {
    const qrSize: int
    const runHistory: array<int>

    /** Seven runs, none longer than three symbol widths: a run lies within one line
        of `qrSize` modules, and only the first run of a line, or the light run that
        closes it, is lengthened by a border of `qrSize` more. */
    ghost predicate Valid()
      reads this, runHistory
    {
      runHistory.Length == 7 && 0 <= qrSize
        && forall k :: 0 <= k < 7 ==> 0 <= runHistory[k] <= 3 * qrSize
    }

    constructor (size: int)
      requires 0 <= size
      ensures Valid() && qrSize == size && fresh(runHistory)
      ensures runHistory[..] == [0, 0, 0, 0, 0, 0, 0]
    {
      qrSize := size;
      runHistory := new int[7](_ => 0);
    }

    method AddHistory(currentrunlength: int)
      requires Valid() && 0 <= currentrunlength <= 2 * qrSize
      modifies runHistory
      ensures Valid()
      ensures runHistory[..] == AddHistoryF(qrSize, old(runHistory[..]), currentrunlength)
    {
      var cur := currentrunlength;
      if runHistory[0] == 0 {
        cur := cur + qrSize;
      }
      for i := runHistory.Length - 1 downto 0
        invariant forall k :: 0 <= k <= i ==> runHistory[k] == old(runHistory[k])
        invariant forall k :: i < k < 7 ==> runHistory[k] == old(runHistory[k - 1])
      {
        runHistory[i + 1] := runHistory[i];
      }
      runHistory[0] := cur;
    }

    /** `count_patterns`; the unit run it reads is at most three symbol widths, the
        bound the source asserts in debug builds. */
    function CountPatterns(): (r: int)
      requires Valid()
      reads this, runHistory
      ensures 0 <= runHistory[1] <= 3 * qrSize
      ensures 0 <= r <= 2
    {
      FinderCount(runHistory[..])
    }

    method TerminateAndCount(currentruncolor: bool, currentrunlength: int) returns (r: int)
      requires Valid() && 0 <= currentrunlength <= qrSize
      modifies runHistory
      ensures r == TerminateCount(qrSize, old(runHistory[..]), currentruncolor, currentrunlength)
    {
      var len := currentrunlength;
      if currentruncolor {
        AddHistory(len);
        len := 0;
      }
      len := len + qrSize;
      AddHistory(len);
      r := CountPatterns();
    }
  }

  /*---- Scoring one row or column ----*/

  /** The scanner's state after part of a line: the colour and length of the current
      run, the run history, and the score so far. */
  datatype RunState = RunState(color: bool, len: int, history: seq<int>, score: int)

  const Start: RunState := RunState(false, 0, [0, 0, 0, 0, 0, 0, 0], 0)

  /** One module of the line: a run of the same colour grows (N1 at length 5, one
      more point for each module past it); a change of colour closes the run, and
      closing a light run may complete a finder-like pattern (N3 each). */
  function StepRun(qrSize: int, st: RunState, dark: bool): (r: RunState)
    requires |st.history| == 7
    ensures |r.history| == 7
  {
    if dark == st.color then
      var len := st.len + 1;
      st.(len := len, score := st.score + (if len == 5 then PenaltyN1 else if len > 5 then 1 else 0))
    else
      var h := AddHistoryF(qrSize, st.history, st.len);
      RunState(dark, 1, h, st.score + (if !st.color then FinderCount(h) * PenaltyN3 else 0))
  }

  /** The state after scanning the whole of `line`, first module first. */
  function Scan(qrSize: int, line: seq<bool>): (r: RunState)
    ensures |r.history| == 7
  {
    if line == [] then Start else StepRun(qrSize, Scan(qrSize, line[..|line| - 1]), line[|line| - 1])
  }

  /** The penalty of one row or column, the closing finder count included; behind
      one layer so that the symbol's score does not unfold every scan, and opened by
      `LinePenaltyDef`. */
  function LinePenalty(qrSize: int, line: seq<bool>): int
  {
    LinePenaltyLayer(qrSize, line, 1)
  }

  function LinePenaltyLayer(qrSize: int, line: seq<bool>, k: nat): int
    decreases k
  {
    if k > 0 then LinePenaltyLayer(qrSize, line, k - 1)
    else
      var st := Scan(qrSize, line);
      st.score + TerminateCount(qrSize, st.history, st.color, st.len) * PenaltyN3
  }

  lemma LinePenaltyDef(qrSize: int, line: seq<bool>)
    ensures var st := Scan(qrSize, line);
            LinePenalty(qrSize, line) == st.score + TerminateCount(qrSize, st.history, st.color, st.len) * PenaltyN3
  {
    assert LinePenalty(qrSize, line) == LinePenaltyLayer(qrSize, line, 0);
  }

  /** The scan never loses points and gains at most 83 per module (3 for a run, 80
      for two finder-like patterns), and the current run is never longer than the line. */
  lemma {:induction false} ScanBounds(qrSize: int, line: seq<bool>)
    ensures 0 <= Scan(qrSize, line).score <= 83 * |line|
    ensures 0 <= Scan(qrSize, line).len <= |line|
    ensures line != [] ==> Scan(qrSize, line).len >= 1
  {
    if line != [] {
      ScanBounds(qrSize, line[..|line| - 1]);
    }
  }

  lemma LinePenaltyBounds(qrSize: int, line: seq<bool>)
    ensures 0 <= LinePenalty(qrSize, line) <= 83 * |line| + 80
  {
    ScanBounds(qrSize, line);
    LinePenaltyDef(qrSize, line);
  }

  /** The scanner of `get_penalty_score`'s row and column loops, over one line. */
  method ScanLine(qrSize: int, line: seq<bool>) returns (score: int)
    requires |line| <= qrSize
    ensures score == LinePenalty(qrSize, line)
  {
    var runcolor := false;
    var runlen := 0;
    var runhistory := new FinderPenalty(qrSize);
    score := 0;
    for i := 0 to |line|
      invariant runhistory.Valid() && runhistory.qrSize == qrSize
      invariant RunState(runcolor, runlen, runhistory.runHistory[..], score) == Scan(qrSize, line[..i])
    {
      assert line[..i + 1][..i] == line[..i];
      ghost var st := Scan(qrSize, line[..i]);
      assert Scan(qrSize, line[..i + 1]) == StepRun(qrSize, st, line[i]);
      ScanBounds(qrSize, line[..i]);
      assert 0 <= runlen <= qrSize;
      if line[i] == runcolor {
        runlen := runlen + 1;
        if runlen == 5 {
          score := score + PenaltyN1;
        } else if runlen > 5 {
          score := score + 1;
        }
      } else {
        runhistory.AddHistory(runlen);
        if !runcolor {
          score := score + runhistory.CountPatterns() * PenaltyN3;
        }
        runcolor := line[i];
        runlen := 1;
      }
    }
    assert line[..|line|] == line;
    ScanBounds(qrSize, line);
    var closing := runhistory.TerminateAndCount(runcolor, runlen);
    score := score + closing * PenaltyN3;
    LinePenaltyDef(qrSize, line);
  }

  /*---- The whole grid ----*/

  function Column(g: Grid, n: nat, x: nat): (r: seq<bool>)
    requires IsGrid(g, n) && x < n
    ensures |r| == n && forall y :: 0 <= y < n ==> r[y] == g[y][x]
  {
    seq(n, y requires 0 <= y < n => g[y][x])
  }

  /** Run and finder penalties of rows 0 .. k - 1. */
  function RowsPenalty(g: Grid, n: nat, k: nat): int
    requires IsGrid(g, n) && k <= n
  {
    if k == 0 then 0 else RowsPenalty(g, n, k - 1) + LinePenalty(n, g[k - 1])
  }

  /** Run and finder penalties of columns 0 .. k - 1. */
  function ColumnsPenalty(g: Grid, n: nat, k: nat): int
    requires IsGrid(g, n) && k <= n
  {
    if k == 0 then 0 else ColumnsPenalty(g, n, k - 1) + LinePenalty(n, Column(g, n, k - 1))
  }

  /** The 2x2 block with top-left corner (x, y) is all one colour. */
  predicate UniformBlock(g: Grid, n: nat, x: nat, y: nat)
    requires IsGrid(g, n) && x + 1 < n && y + 1 < n
  {
    g[y][x] == g[y][x + 1] && g[y][x] == g[y + 1][x] && g[y][x] == g[y + 1][x + 1]
  }

  /** Uniform blocks with top-left corner in row y, left of column k. */
  function BlocksInRow(g: Grid, n: nat, y: nat, k: nat): (r: nat)
    requires IsGrid(g, n) && y + 1 < n && k < n
    ensures r <= k
  {
    if k == 0 then 0 else BlocksInRow(g, n, y, k - 1) + (if UniformBlock(g, n, k - 1, y) then 1 else 0)
  }

  /** Uniform blocks with top-left corner above row k. */
  function Blocks(g: Grid, n: nat, k: nat): (r: nat)
    requires IsGrid(g, n) && 0 < n && k < n
    ensures r <= k * (n - 1)
  {
    if k == 0 then 0 else Blocks(g, n, k - 1) + BlocksInRow(g, n, k - 1, n - 1)
  }

  /** Dark modules in a row. */
  function DarkInRow(row: seq<bool>): (r: nat)
    ensures r <= |row|
  {
    if row == [] then 0 else DarkInRow(row[..|row| - 1]) + (if row[|row| - 1] then 1 else 0)
  }

  /** Dark modules in rows 0 .. k - 1. */
  function DarkModules(g: Grid, n: nat, k: nat): (r: nat)
    requires IsGrid(g, n) && k <= n
    ensures r <= k * n
  {
    if k == 0 then 0 else DarkModules(g, n, k - 1) + DarkInRow(g[k - 1])
  }

  /** How many 5% steps the share of dark modules lies away from one half, rounded
      up, less one: 0 for 45%..55%, 1 for 40%..60%, and so on. */
  function BalanceSteps(dark: int, total: int): int
    requires total > 0
  {
    var d := dark * 20 - total * 10;
    ((if d < 0 then -d else d) + total - 1) / total - 1
  }

  /** The balance rule never scores below zero or above 90 in a symbol, whose module
      count is odd so that the dark share is never exactly one half. */
  lemma BalanceStepsBounds(dark: int, total: int)
    requires total > 0 && total % 2 == 1 && 0 <= dark <= total
    ensures 0 <= BalanceSteps(dark, total) <= 9
  {
    var d := dark * 20 - total * 10;
    var a := if d < 0 then -d else d;
    assert d != 0;
    assert a <= 10 * total;
    DivBounds(a + total - 1, total);
  }

  /** The bounds of a quotient used above: a numerator from total to 11 * total - 1
      gives a quotient from 1 to 10. */
  lemma DivBounds(a: int, total: int)
    requires total > 0 && total <= a < 11 * total
    ensures 1 <= a / total <= 10
  {
    var q := a / total;
    assert a == total * q + a % total;
    if q < 1 {
      assert false;
    }
    if q > 10 {
      assert false;
    }
  }

  /** `get_penalty_score`: rows, columns, blocks and balance. */
  function PenaltyScore(g: Grid, n: nat): int
    requires IsGrid(g, n) && 0 < n
  {
    RowsPenalty(g, n, n) + ColumnsPenalty(g, n, n) + Blocks(g, n, n - 1) * PenaltyN2
      + BalanceSteps(DarkModules(g, n, n), n * n) * PenaltyN4
  }
  lemma {:induction false} RowsPenaltyBounds(g: Grid, n: nat, k: nat)
    requires IsGrid(g, n) && k <= n
    ensures 0 <= RowsPenalty(g, n, k) <= k * (83 * n + 80)
  {
    if k > 0 {
      RowsPenaltyBounds(g, n, k - 1);
      LinePenaltyBounds(n, g[k - 1]);
      MulSucc(k - 1, 83 * n + 80);
    }
  }

  lemma {:induction false} ColumnsPenaltyBounds(g: Grid, n: nat, k: nat)
    requires IsGrid(g, n) && k <= n
    ensures 0 <= ColumnsPenalty(g, n, k) <= k * (83 * n + 80)
  {
    if k > 0 {
      ColumnsPenaltyBounds(g, n, k - 1);
      LinePenaltyBounds(n, Column(g, n, k - 1));
      MulSucc(k - 1, 83 * n + 80);
    }
  }

  lemma MulSucc(a: nat, b: nat)
    ensures (a + 1) * b == a * b + b
  {
  }

  /** The body of `get_penalty_score` over the grid g of side n: runs and
      finder-like patterns in every row and column, uniform 2x2 blocks, and the
      dark/light balance. */
  method GridPenalty(g: Grid, n: nat) returns (result: int)
    requires IsGrid(g, n) && 0 < n
    ensures result == PenaltyScore(g, n)
  {
    result := ScoreRows(g, n);
    var columns := ScoreColumns(g, n);
    result := result + columns;
    // 2x2 blocks of one colour
    var blocks := CountUniformBlocks(g, n);
    result := result + blocks * PenaltyN2;
    // N4: the 5% steps by which the dark share is away from one half
    var dark := DarkModules(g, n, n);
    var k := BalanceRule(dark, n);
    result := result + k * PenaltyN4;
  }

  /** The row loop of `get_penalty_score`. */
  method ScoreRows(g: Grid, n: nat) returns (result: int)
    requires IsGrid(g, n)
    ensures result == RowsPenalty(g, n, n)
  {
    result := 0;
    for y := 0 to n
      invariant result == RowsPenalty(g, n, y)
    {
      var line := ScanLine(n, g[y]);
      result := result + line;
    }
  }

  /** The column loop of `get_penalty_score`. */
  method ScoreColumns(g: Grid, n: nat) returns (result: int)
    requires IsGrid(g, n)
    ensures result == ColumnsPenalty(g, n, n)
  {
    result := 0;
    for x := 0 to n
      invariant result == ColumnsPenalty(g, n, x)
    {
      var line := ScanLine(n, Column(g, n, x));
      result := result + line;
    }
  }

  /** The block loop of `get_penalty_score`: how many 2x2 blocks are one colour. */
  method CountUniformBlocks(g: Grid, n: nat) returns (count: nat)
    requires IsGrid(g, n) && 0 < n
    ensures count == Blocks(g, n, n - 1)
  {
    count := 0;
    for y := 0 to n - 1
      invariant count == Blocks(g, n, y)
    {
      for x := 0 to n - 1
        invariant count == Blocks(g, n, y) + BlocksInRow(g, n, y, x)
      {
        var color := g[y][x];
        if color == g[y][x + 1] && color == g[y + 1][x] && color == g[y + 1][x + 1] {
          count := count + 1;
        }
      }
    }
  }

  /** The balance lines of `get_penalty_score`, for `dark` dark modules out of n * n. */
  method BalanceRule(dark: nat, n: nat) returns (k: int)
    requires 0 < n
    ensures k == BalanceSteps(dark, n * n)
  {
    var total := n * n;
    MulMono(1, 1, n, n);
    var d := dark * 20 - total * 10;
    k := ((if d < 0 then -d else d) + total - 1) / total - 1;
  }

  lemma MulMono(a: nat, b: nat, c: nat, d: nat)
    requires a <= c && b <= d
    ensures a * b <= c * d
  {
    assert a * b <= c * b;
  }

  /** On every symbol (odd side from 21 to 177) the score is non-negative and below
      `i32::MAX`, which the mask search starts from: so the first mask tried always
      becomes the candidate, and the sum never overflows the source's `i32`. */
  lemma PenaltyScoreBounds(g: Grid, n: nat)
    requires IsGrid(g, n) && 21 <= n <= 177 && n % 2 == 1
    ensures 0 <= PenaltyScore(g, n) < 0x7FFF_FFFF
  {
    RowsPenaltyBounds(g, n, n);
    ColumnsPenaltyBounds(g, n, n);
    MulMono(n, 83 * n + 80, 177, 83 * 177 + 80);
    MulMono(n - 1, n - 1, 176, 176);
    MulMono(n, n, 177, 177);
    OddSquare(n);
    BalanceStepsBounds(DarkModules(g, n, n), n * n);
  }

  lemma OddSquare(n: nat)
    requires n % 2 == 1
    ensures (n * n) % 2 == 1
  {
    var h := n / 2;
    assert n == 2 * h + 1;
    assert n * n == 2 * (2 * h * h + 2 * h) + 1;
  }
}
