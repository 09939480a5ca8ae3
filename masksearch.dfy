/** The mask choice of `encode_codewords`: every mask is tried on the unmasked
    symbol, with its own format bits drawn, and the first one with the least penalty
    is kept. */
module MaskSearch {
  import opened QrTypes
  import opened Grids
  import opened Capacity
  import opened FormatInfo
  import opened FunctionPatterns
  import opened Masks
  import opened Penalty

  /** The symbol g with mask m applied and the format bits of (ecl, m) drawn. */
  function Trial(g: Grid, f: Grid, n: nat, ecl: Ecc, m: Mask): (r: Grid)
    requires IsGrid(g, n) && IsGrid(f, n)
    ensures IsGrid(r, n)
  {
    Paint(Masked(g, f, m, n), n, FormatArea(FormatWord(ecl, m)))
  }

  /** The penalty score of a trial. */
  function TrialPenalty(g: Grid, f: Grid, n: nat, ecl: Ecc, m: Mask): int
    requires IsGrid(g, n) && IsGrid(f, n) && 0 < n
  {
    TrialPenaltyLayer(g, f, n, ecl, m, 1)
  }

  /** `TrialPenalty` behind one layer, so that proofs about the search do not unfold
      the penalty rules; `TrialPenaltyDef` opens it. */
  function TrialPenaltyLayer(g: Grid, f: Grid, n: nat, ecl: Ecc, m: Mask, k: nat): int
    requires IsGrid(g, n) && IsGrid(f, n) && 0 < n
    decreases k
  {
    if k > 0 then TrialPenaltyLayer(g, f, n, ecl, m, k - 1) else PenaltyScore(Trial(g, f, n, ecl, m), n)
  }

  lemma TrialPenaltyDef(g: Grid, f: Grid, n: nat, ecl: Ecc, m: Mask)
    requires IsGrid(g, n) && IsGrid(f, n) && 0 < n
    ensures TrialPenalty(g, f, n, ecl, m) == PenaltyScore(Trial(g, f, n, ecl, m), n)
  {
    assert TrialPenalty(g, f, n, ecl, m) == TrialPenaltyLayer(g, f, n, ecl, m, 0);
  }

  /** The penalties of the eight trials, by mask number. */
  function TrialPenalties(g: Grid, f: Grid, n: nat, ecl: Ecc): (r: seq<int>)
    requires IsGrid(g, n) && IsGrid(f, n) && 0 < n
    ensures |r| == 8
  {
    seq(8, m requires 0 <= m < 8 => TrialPenalty(g, f, n, ecl, m))
  }

  /** The index kept after scanning p[0], ..., p[k - 1] in turn, starting from a
      bound above all of them: a later entry replaces the kept one only when it is
      strictly smaller. */
  function FirstMinimum(p: seq<int>, k: nat): (r: nat)
    requires 1 <= k <= |p|
    ensures r < k
  {
    if k == 1 then 0
    else
      var best := FirstMinimum(p, k - 1);
      if p[k - 1] < p[best] then k - 1 else best
  }

  /** b is where p is least, and every earlier entry is strictly greater. */
  predicate IsFirstMinimum(p: seq<int>, b: int)
  {
    0 <= b < |p| && (forall m :: 0 <= m < |p| ==> p[b] <= p[m]) && (forall m :: 0 <= m < b ==> p[b] < p[m])
  }

  /** The kept index holds the least entry scanned, and every earlier entry is
      strictly greater. */
  lemma {:induction false} FirstMinimumScan(p: seq<int>, k: nat)
    requires 1 <= k <= |p|
    ensures forall m :: 0 <= m < k ==> p[FirstMinimum(p, k)] <= p[m]
    ensures forall m :: 0 <= m < FirstMinimum(p, k) ==> p[FirstMinimum(p, k)] < p[m]
  {
    if k > 1 {
      FirstMinimumScan(p, k - 1);
    }
  }

  /** Scanning the whole sequence keeps its first minimum, and that index is the
      only one with both properties. */
  lemma FirstMinimumIsFirst(p: seq<int>)
    requires 1 <= |p|
    ensures IsFirstMinimum(p, FirstMinimum(p, |p|))
    ensures forall b :: IsFirstMinimum(p, b) ==> b == FirstMinimum(p, |p|)
  {
    FirstMinimumScan(p, |p|);
  }

  /** What the search has kept after scanning p[0], ..., p[i - 1]: nothing yet, with
      the bound `i32::MAX`, or the first minimum with its entry. */
  predicate Kept(p: seq<int>, i: nat, kept: Option<Mask>, least: int)
    requires i <= |p|
  {
    if i == 0 then kept.None? && least == 0x7FFF_FFFF
    else kept == Some(FirstMinimum(p, i)) && least == p[FirstMinimum(p, i)]
  }

  /** One turn of the search: entry i, below the starting bound, replaces the kept
      one only when strictly smaller. */
  lemma KeptStep(p: seq<int>, i: nat, kept: Option<Mask>, least: int)
    requires i < |p| && i < 8 && Kept(p, i, kept, least) && p[i] < 0x7FFF_FFFF
    ensures p[i] < least ==> Kept(p, i + 1, Some(i), p[i])
    ensures p[i] >= least ==> Kept(p, i + 1, kept, least)
  {
  }

  /** The mask `encode_codewords` keeps when none is forced. */
  function BestMask(g: Grid, f: Grid, n: nat, ecl: Ecc): Mask
    requires IsGrid(g, n) && IsGrid(f, n) && 0 < n
  {
    FirstMinimum(TrialPenalties(g, f, n, ecl), 8)
  }

  /** With no mask forced, the symbol gets a mask of least penalty over all eight,
      ties going to the lowest mask number, and no other mask is both. */
  lemma BestMaskIsFirstMinimum(g: Grid, f: Grid, n: nat, ecl: Ecc)
    requires IsGrid(g, n) && IsGrid(f, n) && 0 < n
    ensures IsFirstMinimum(TrialPenalties(g, f, n, ecl), BestMask(g, f, n, ecl))
    ensures forall b :: IsFirstMinimum(TrialPenalties(g, f, n, ecl), b) ==> b == BestMask(g, f, n, ecl)
  {
    FirstMinimumIsFirst(TrialPenalties(g, f, n, ecl));
  }

  /** Every module of the format area is a function module. */
  ghost predicate FormatCovered(f: Grid, n: nat)
  {
    IsGrid(f, n) && forall x, y :: InGrid(n, x, y) && FormatIndex(n, x, y).Some? ==> f[y][x]
  }

  /** Two grids that differ at most in the format area. */
  ghost predicate SameOutsideFormat(a: Grid, b: Grid, n: nat)
  {
    IsGrid(a, n) && IsGrid(b, n) &&
    forall x, y :: InGrid(n, x, y) && FormatIndex(n, x, y).None? ==> a[y][x] == b[y][x]
  }

  /** A trial does not depend on what the format area held before. */
  lemma TrialOutsideFormat(a: Grid, b: Grid, f: Grid, n: nat, ecl: Ecc, m: Mask)
    requires SameOutsideFormat(a, b, n) && FormatCovered(f, n)
    ensures Trial(a, f, n, ecl, m) == Trial(b, f, n, ecl, m)
  {
    var ta := Trial(a, f, n, ecl, m);
    var tb := Trial(b, f, n, ecl, m);
    forall y, x | InGrid(n, x, y)
      ensures ta[y][x] == tb[y][x]
    {
      if FormatIndex(n, x, y).None? {
        assert Masked(a, f, m, n)[y][x] == Masked(b, f, m, n)[y][x];
      }
    }
    GridExt(ta, tb, n);
  }

  /** Applying the trial mask again undoes the trial outside the format area: what
      the search does after scoring each mask. */
  lemma UndoTrial(g: Grid, f: Grid, n: nat, ecl: Ecc, m: Mask)
    requires IsGrid(g, n) && FormatCovered(f, n)
    ensures SameOutsideFormat(Masked(Trial(g, f, n, ecl, m), f, m, n), g, n)
  {
    var t := Trial(g, f, n, ecl, m);
    forall x, y | InGrid(n, x, y) && FormatIndex(n, x, y).None?
      ensures Masked(t, f, m, n)[y][x] == g[y][x]
    {
      assert t[y][x] == Masked(g, f, m, n)[y][x];
    }
  }

  lemma SameOutsideFormatTrans(a: Grid, b: Grid, c: Grid, n: nat)
    requires SameOutsideFormat(a, b, n) && SameOutsideFormat(b, c, n)
    ensures SameOutsideFormat(a, c, n)
  {
  }

  /** Drawing format bits where the flags already cover the format area leaves the
      flags as they were. */
  lemma MarkCoveredFormat(f: Grid, n: nat, w: nat)
    requires FormatCovered(f, n)
    ensures Mark(f, n, FormatArea(w)) == f
  {
    GridExt(Mark(f, n, FormatArea(w)), f, n);
  }

  /** The function patterns of a symbol cover its format area. */
  lemma FunctionPatternsCoverFormat(f: Grid, ver: Version, ecl: Ecc)
    requires IsGrid(f, Size(ver))
    ensures FormatCovered(MarkAll(f, Size(ver), FunctionPatternList(ver, ecl)), Size(ver))
  {
    var n := Size(ver);
    var ps := FunctionPatternList(ver, ecl);
    var w := FormatWord(ecl, 0);
    var k := FormatInList(ver, ecl);
    forall x, y | InGrid(n, x, y) && FormatIndex(n, x, y).Some?
      ensures MarkAll(f, n, ps)[y][x]
    {
      FormatAreaCell(w, n, x, y);
      assert PatternCell(ps[k], n, x, y).Some?;
      MarkAllCell(f, n, ps, x, y);
    }
  }

  /** The format area is one of the function patterns. */
  lemma FormatInList(ver: Version, ecl: Ecc) returns (k: nat)
    ensures k < |FunctionPatternList(ver, ecl)|
    ensures FunctionPatternList(ver, ecl)[k] == FormatArea(FormatWord(ecl, 0))
  {
    var head := FinderStage(Size(ver)) + AlignmentsFrom(AlignmentPatternPositions(ver), 0, 0);
    k := |head|;
    assert FunctionPatternList(ver, ecl) == head + [FormatArea(FormatWord(ecl, 0))] + VersionStage(ver);
  }

  /** The format area claims every cell with a format index. */
  lemma FormatAreaCell(w: nat, n: nat, x: int, y: int)
    requires FormatIndex(n, x, y).Some?
    ensures PatternCell(FormatArea(w), n, x, y).Some?
  {
  }

}
