/** The `QrCode` symbol: its grid of modules and the steps of `encode_codewords` that
    draw into it. */
module QrCodes {
  import opened QrTypes
  import opened Grids
  import opened Capacity
  import opened FormatInfo
  import opened FunctionPatterns
  import opened Drawing
  import opened Masks
  import opened Penalty
  import opened Placement
  import opened Interleave
  import opened MaskSearch
  import opened FreeModules

  /** The function modules of a symbol: every module some function pattern colours. */
  function FunctionModules(ver: Version, ecl: Ecc): (r: Grid)
    ensures IsGrid(r, Size(ver))
  {
    MarkAll(Blank(Size(ver)), Size(ver), FunctionPatternList(ver, ecl))
  }

  /** A symbol before masking: its function patterns (with the format bits of mask 0)
      and, in the free modules, the data codewords with their error correction. */
  function Unmasked(ver: Version, ecl: Ecc, data: seq<byte>): (r: Grid)
    requires |data| == DataCodewords(ver, ecl)
    ensures IsGrid(r, Size(ver))
  {
    DataFitsLayout(ver, ecl, data);
    Placed(PaintAll(Blank(Size(ver)), Size(ver), FunctionPatternList(ver, ecl)), FunctionModules(ver, ecl),
           Codewords(data, LayoutOf(ver, ecl)), Size(ver))
  }

  /** Every bit of a full codeword sequence finds a free module: `draw_codewords`
      places all 8 * |data| bits, as its closing debug assertion demands, and reading
      the free modules back in zigzag order gives the bits again, in order. */
  lemma AllCodewordBitsPlaced(ver: Version, ecl: Ecc, g: Grid, data: seq<byte>)
    requires IsGrid(g, Size(ver)) && |data| == RawDataModules(ver) / 8
    ensures PlacedBits(FunctionModules(ver, ecl), data, Size(ver)) == |data| * 8
    ensures var bits := ReadBack(Placed(g, FunctionModules(ver, ecl), data, Size(ver)), FunctionModules(ver, ecl),
                                 Size(ver), SymbolCells(Size(ver)));
            |data| * 8 <= |bits| && bits[..|data| * 8] == DataBits(data, 0, |data| * 8)
  {
    FunctionModulesLeaveRaw(ver, ecl);
    PlacedReadsBack(g, FunctionModules(ver, ecl), data, Size(ver));
  }

  /** The unmasked symbol carries the whole codeword sequence: its free modules, read
      in zigzag order, begin with every bit of every codeword. */
  lemma UnmaskedReadsBack(ver: Version, ecl: Ecc, data: seq<byte>)
    requires |data| == DataCodewords(ver, ecl)
    ensures FitsLayout(data, LayoutOf(ver, ecl))
    ensures |Codewords(data, LayoutOf(ver, ecl))| == RawDataModules(ver) / 8
    ensures var cw := Codewords(data, LayoutOf(ver, ecl));
            var bits := ReadBack(Unmasked(ver, ecl, data), FunctionModules(ver, ecl), Size(ver), SymbolCells(Size(ver)));
            |cw| * 8 <= |bits| && bits[..|cw| * 8] == DataBits(cw, 0, |cw| * 8)
  {
    CodewordsLength(ver, ecl, data);
    AllCodewordBitsPlaced(ver, ecl, PaintAll(Blank(Size(ver)), Size(ver), FunctionPatternList(ver, ecl)),
                          Codewords(data, LayoutOf(ver, ecl)));
  }

  /** q is the symbol `encode_codewords` builds from these data codewords and mask
      choice: its function modules, its mask (the forced one, or else the first of
      least penalty) and its modules, the unmasked symbol with that mask and its format
      bits. */
  ghost predicate Encodes(q: QrCode, data: seq<byte>, msk: Option<Mask>)
    reads q
  {
    var ver := q.version;
    var ecl := q.errorcorrectionlevel;
    q.Valid() && |data| == DataCodewords(ver, ecl) &&
    q.isfunction == FunctionModules(ver, ecl) &&
    (msk.Some? ==> q.mask == msk.value) &&
    (msk.None? ==> q.mask == BestMask(Unmasked(ver, ecl, data), FunctionModules(ver, ecl), Size(ver), ecl)) &&
    q.modules == Trial(Unmasked(ver, ecl, data), FunctionModules(ver, ecl), Size(ver), ecl, q.mask)
  }

  class QrCode {
    const version: Version
    const size: int
    const errorcorrectionlevel: Ecc
    var mask: Mask
    /** The modules, `true` for dark. */
    var modules: Grid
    /** Which modules belong to function patterns, which masking leaves alone. */
    var isfunction: Grid

    ghost predicate Valid()
      reads this
    {
      size == Size(version) && IsGrid(modules, size) && IsGrid(isfunction, size)
    }

    /** `encode_codewords`: draws the function patterns, places the codewords with
        their error correction, then applies the forced mask or, with none forced, the
        first mask of least penalty, and draws that mask's format bits. */
    constructor EncodeCodewords(ver: Version, ecl: Ecc, datacodewords: seq<byte>, msk: Option<Mask>)
      requires |datacodewords| == DataCodewords(ver, ecl)
      ensures Valid() && version == ver && errorcorrectionlevel == ecl
      ensures isfunction == FunctionModules(ver, ecl)
      ensures msk.Some? ==> mask == msk.value
      ensures msk.None? ==> mask == BestMask(Unmasked(ver, ecl, datacodewords), FunctionModules(ver, ecl), Size(ver), ecl)
      ensures modules == Trial(Unmasked(ver, ecl, datacodewords), FunctionModules(ver, ecl), Size(ver), ecl, mask)
      ensures Encodes(this, datacodewords, msk)
    {
      version := ver;
      size := Size(ver);
      errorcorrectionlevel := ecl;
      mask := 0;
      modules := Blank(Size(ver));
      isfunction := Blank(Size(ver));
      new;
      DrawFunctionsAndCodewords(datacodewords);
      ghost var unmasked := modules;
      var chosen: Mask;
      if msk.None? {
        chosen := SearchMask();
      } else {
        chosen := msk.value;
      }
      CommitMask(chosen, unmasked);
    }

    /** The first half of `encode_codewords`: the function patterns over the blank
        symbol, then the codewords with their error correction. */
    method DrawFunctionsAndCodewords(datacodewords: seq<byte>)
      requires Valid() && |datacodewords| == DataCodewords(version, errorcorrectionlevel)
      requires modules == Blank(size) && isfunction == Blank(size)
      modifies this
      ensures Valid() && mask == old(mask)
      ensures modules == Unmasked(version, errorcorrectionlevel, datacodewords)
      ensures isfunction == FunctionModules(version, errorcorrectionlevel)
      ensures FormatCovered(isfunction, size)
    {
      DrawFunctionPatterns();
      var allcodewords := AddEccAndInterleave(version, errorcorrectionlevel, datacodewords);
      DrawCodewords(allcodewords);
      FunctionPatternsCoverFormat(Blank(size), version, errorcorrectionlevel);
    }

    /** The end of `encode_codewords`: the chosen mask is recorded and applied, and
        its format bits drawn over the symbol, which differs from `unmasked` at most in
        its format area. */
    method CommitMask(chosen: Mask, ghost unmasked: Grid)
      requires Valid() && FormatCovered(isfunction, size) && SameOutsideFormat(modules, unmasked, size)
      modifies this
      ensures Valid() && mask == chosen && isfunction == old(isfunction)
      ensures modules == Trial(unmasked, isfunction, size, errorcorrectionlevel, chosen)
    {
      ghost var start := modules;
      mask := chosen;
      ApplyMask(chosen);
      DrawFormatBits(chosen);
      MarkCoveredFormat(old(isfunction), size, FormatWord(errorcorrectionlevel, chosen));
      TrialOutsideFormat(start, unmasked, isfunction, size, errorcorrectionlevel, chosen);
    }

    /** The mask search of `encode_codewords`: each mask in turn is applied, its
        format bits drawn and the symbol scored, and the mask applied again to undo
        it; a mask is kept when its penalty is strictly below the least so far. */
    method SearchMask() returns (best: Mask)
      requires Valid() && FormatCovered(isfunction, size)
      modifies this
      ensures Valid() && mask == old(mask) && isfunction == old(isfunction)
      ensures SameOutsideFormat(modules, old(modules), size)
      ensures best == BestMask(old(modules), isfunction, size, errorcorrectionlevel)
    {
      ghost var p := TrialPenalties(modules, isfunction, size, errorcorrectionlevel);
      var msk: Option<Mask> := None;
      var minpenalty := 0x7FFF_FFFF;
      for i := 0 to 8
        invariant Valid() && mask == old(mask) && isfunction == old(isfunction)
        invariant SameOutsideFormat(modules, old(modules), size)
        invariant Kept(p, i, msk, minpenalty)
      {
        var penalty := ScoreMask(i, old(modules));
        KeptStep(p, i, msk, minpenalty);
        if penalty < minpenalty {
          msk := Some(i);
          minpenalty := penalty;
        }
      }
      best := msk.value;
    }

    /** One round of the mask search: returns the penalty of mask m on the symbol,
        which differs from g at most in its format area, and leaves it that way. */
    method ScoreMask(m: Mask, ghost g: Grid) returns (penalty: int)
      requires Valid() && FormatCovered(isfunction, size) && SameOutsideFormat(modules, g, size)
      modifies this
      ensures Valid() && mask == old(mask) && isfunction == old(isfunction)
      ensures SameOutsideFormat(modules, g, size)
      ensures penalty == TrialPenalty(g, isfunction, size, errorcorrectionlevel, m) < 0x7FFF_FFFF
    {
      ghost var start := modules;
      ApplyMask(m);
      DrawFormatBits(m);
      MarkCoveredFormat(old(isfunction), size, FormatWord(errorcorrectionlevel, m));
      penalty := GetPenaltyScore();
      TrialOutsideFormat(start, g, isfunction, size, errorcorrectionlevel, m);
      TrialPenaltyDef(g, isfunction, size, errorcorrectionlevel, m);
      PenaltyScoreBounds(modules, size);
      ApplyMask(m);
      UndoTrial(start, isfunction, size, errorcorrectionlevel, m);
      SameOutsideFormatTrans(modules, start, g, size);
    }

    /** `get_module`: the colour of (x, y), light outside the symbol. */
    function GetModule(x: int, y: int): (dark: bool)
      requires Valid()
      reads this
      ensures dark ==> InGrid(size, x, y)
      ensures InGrid(size, x, y) ==> (dark <==> modules[y][x])
    {
      0 <= x < size && 0 <= y < size && modules[y][x]
    }

    method SetFunctionModule(x: int, y: int, isdark: bool)
      requires Valid() && InGrid(size, x, y)
      modifies this
      ensures Valid() && mask == old(mask)
      ensures modules == Set(old(modules), x, y, isdark)
      ensures isfunction == Set(old(isfunction), x, y, true)
    {
      modules := Set(modules, x, y, isdark);
      isfunction := Set(isfunction, x, y, true);
    }

    /** `set_function_module` as one step of drawing pattern p over g0 and f0: the
        cell (x, y) is the one the step adds to the drawn part. */
    method PaintModule(x: int, y: int, isdark: bool, ghost g0: Grid, ghost f0: Grid, ghost p: Pattern,
                       ghost pr1: Progress, ghost pr2: Progress)
      requires Valid() && InGrid(size, x, y) && PartlyPainted(modules, g0, isfunction, f0, size, p, pr1)
      requires PatternCell(p, size, x, y) == Some(isdark) && OneMore(p, size, pr1, pr2, x, y)
      modifies this
      ensures Valid() && mask == old(mask)
      ensures PartlyPainted(modules, g0, isfunction, f0, size, p, pr2)
    {
      PaintStep(modules, g0, isfunction, f0, size, p, pr1, pr2, x, y, isdark);
      SetFunctionModule(x, y, isdark);
    }

    /** Draws the 9x9 finder (with its separator) centred at (cx, cy), clipped to the symbol. */
    method DrawFinderPattern(cx: int, cy: int)
      requires Valid()
      modifies this
      ensures Valid() && mask == old(mask)
      ensures modules == Paint(old(modules), size, Finder(cx, cy))
      ensures isfunction == Mark(old(isfunction), size, Finder(cx, cy))
    {
      ghost var p := Finder(cx, cy);
      NothingPainted(modules, isfunction, size, p, BoxUpTo(cx, cy, -4, -4));
      for dy := -4 to 5
        invariant Valid() && mask == old(mask)
        invariant PartlyPainted(modules, old(modules), isfunction, old(isfunction), size, p, BoxUpTo(cx, cy, dy, -4))
      {
        for dx := -4 to 5
          invariant Valid() && mask == old(mask)
          invariant PartlyPainted(modules, old(modules), isfunction, old(isfunction), size, p, BoxUpTo(cx, cy, dy, dx))
        {
          var xx := cx + dx;
          var yy := cy + dy;
          if 0 <= xx < size && 0 <= yy < size {
            var dist := Ring(dx, dy);
            PaintModule(xx, yy, dist != 2 && dist != 4, old(modules), old(isfunction), p,
                        BoxUpTo(cx, cy, dy, dx), BoxUpTo(cx, cy, dy, dx + 1));
          } else {
            Reselect(modules, old(modules), isfunction, old(isfunction), size, p,
                     BoxUpTo(cx, cy, dy, dx), BoxUpTo(cx, cy, dy, dx + 1));
          }
        }
        Reselect(modules, old(modules), isfunction, old(isfunction), size, p,
                 BoxUpTo(cx, cy, dy, 5), BoxUpTo(cx, cy, dy + 1, -4));
      }
      FullyPainted(modules, old(modules), isfunction, old(isfunction), size, p, BoxUpTo(cx, cy, 5, -4));
    }

    /** Draws the 5x5 alignment pattern centred at (cx, cy), which lies inside the symbol. */
    method DrawAlignmentPattern(cx: int, cy: int)
      requires Valid() && 2 <= cx < size - 2 && 2 <= cy < size - 2
      modifies this
      ensures Valid() && mask == old(mask)
      ensures modules == Paint(old(modules), size, Alignment(cx, cy))
      ensures isfunction == Mark(old(isfunction), size, Alignment(cx, cy))
    {
      ghost var p := Alignment(cx, cy);
      NothingPainted(modules, isfunction, size, p, BoxUpTo(cx, cy, -2, -2));
      for dy := -2 to 3
        invariant Valid() && mask == old(mask)
        invariant PartlyPainted(modules, old(modules), isfunction, old(isfunction), size, p, BoxUpTo(cx, cy, dy, -2))
      {
        for dx := -2 to 3
          invariant Valid() && mask == old(mask)
          invariant PartlyPainted(modules, old(modules), isfunction, old(isfunction), size, p, BoxUpTo(cx, cy, dy, dx))
        {
          PaintModule(cx + dx, cy + dy, Ring(dx, dy) != 1, old(modules), old(isfunction), p,
                      BoxUpTo(cx, cy, dy, dx), BoxUpTo(cx, cy, dy, dx + 1));
        }
        Reselect(modules, old(modules), isfunction, old(isfunction), size, p,
                 BoxUpTo(cx, cy, dy, 3), BoxUpTo(cx, cy, dy + 1, -2));
      }
      FullyPainted(modules, old(modules), isfunction, old(isfunction), size, p, BoxUpTo(cx, cy, 3, -2));
    }
      /** `draw_function_patterns`: every function pattern of this version, in order,
        with the format area drawn for mask 0. */
    method DrawFunctionPatterns()
      requires Valid()
      modifies this
      ensures Valid() && mask == old(mask)
      ensures modules == PaintAll(old(modules), size, FunctionPatternList(version, errorcorrectionlevel))
      ensures isfunction == MarkAll(old(isfunction), size, FunctionPatternList(version, errorcorrectionlevel))
    {
      var size := this.size;
      ghost var g0, f0 := modules, isfunction;
      DrawTimingPatterns();
      DrawFinderPattern(3, 3);
      DrawFinderPattern(size - 4, 3);
      DrawFinderPattern(3, size - 4);
      ghost var g1, f1 := modules, isfunction;
      assert g1 == Paint(Paint(Paint(Paint(g0, size, Timing), size, Finder(3, 3)), size, Finder(size - 4, 3)), size, Finder(3, size - 4));
      assert f1 == Mark(Mark(Mark(Mark(f0, size, Timing), size, Finder(3, 3)), size, Finder(size - 4, 3)), size, Finder(3, size - 4));
      DrawAlignmentPatterns();
      DrawFormatBits(0);
      ghost var g2, f2 := modules, isfunction;
      assert g2 == Paint(PaintAll(g1, size, AlignmentsFrom(AlignmentPatternPositions(version), 0, 0)), size, FormatArea(FormatWord(errorcorrectionlevel, 0)));
      assert f2 == Mark(MarkAll(f1, size, AlignmentsFrom(AlignmentPatternPositions(version), 0, 0)), size, FormatArea(FormatWord(errorcorrectionlevel, 0)));
      DrawVersion();
      assert modules == Staged(g2, size, version, false) && isfunction == Staged(f2, size, version, true);
      FunctionPatternStages(g0, f0, size, version, errorcorrectionlevel);
    }

    /** The two timing lines along row 6 and column 6. */
    method DrawTimingPatterns()
      requires Valid()
      modifies this
      ensures Valid() && mask == old(mask)
      ensures modules == Paint(old(modules), size, Timing)
      ensures isfunction == Mark(old(isfunction), size, Timing)
    {
      NothingPainted(modules, isfunction, size, Timing, TimingUpTo(0, 0));
      for i := 0 to size
        invariant Valid() && mask == old(mask)
        invariant PartlyPainted(modules, old(modules), isfunction, old(isfunction), size, Timing, TimingUpTo(i, i))
      {
        PaintModule(6, i, i % 2 == 0, old(modules), old(isfunction), Timing,
                    TimingUpTo(i, i), TimingUpTo(i + 1, i));
        PaintModule(i, 6, i % 2 == 0, old(modules), old(isfunction), Timing,
                    TimingUpTo(i + 1, i), TimingUpTo(i + 1, i + 1));
      }
      FullyPainted(modules, old(modules), isfunction, old(isfunction), size, Timing, TimingUpTo(size, size));
    }

    /** Alignment patterns at every pair of listed centres except the three finder corners. */
    method DrawAlignmentPatterns()
      requires Valid()
      modifies this
      ensures Valid() && mask == old(mask)
      ensures modules == PaintAll(old(modules), size, AlignmentsFrom(AlignmentPatternPositions(version), 0, 0))
      ensures isfunction == MarkAll(old(isfunction), size, AlignmentsFrom(AlignmentPatternPositions(version), 0, 0))
    {
      var alignpatpos := AlignmentPatternPositions(version);
      var numalign := |alignpatpos|;
      ghost var gt := PaintAll(modules, size, AlignmentsFrom(alignpatpos, 0, 0));
      ghost var ft := MarkAll(isfunction, size, AlignmentsFrom(alignpatpos, 0, 0));
      for i := 0 to numalign
        invariant Valid() && mask == old(mask)
        invariant PaintAll(modules, size, AlignmentsFrom(alignpatpos, i, 0)) == gt
        invariant MarkAll(isfunction, size, AlignmentsFrom(alignpatpos, i, 0)) == ft
      {
        DrawAlignmentRow(alignpatpos, i, gt, ft);
      }
    }

    /** The inner loop of `draw_alignment_patterns`: the alignment patterns centred in
        row `alignpatpos[i]`, skipping the finder corners. */
    method DrawAlignmentRow(alignpatpos: seq<int>, i: nat, ghost gt: Grid, ghost ft: Grid)
      requires Valid() && alignpatpos == AlignmentPatternPositions(version) && i < |alignpatpos|
      requires PaintAll(modules, size, AlignmentsFrom(alignpatpos, i, 0)) == gt
      requires MarkAll(isfunction, size, AlignmentsFrom(alignpatpos, i, 0)) == ft
      modifies this
      ensures Valid() && mask == old(mask)
      ensures PaintAll(modules, size, AlignmentsFrom(alignpatpos, i + 1, 0)) == gt
      ensures MarkAll(isfunction, size, AlignmentsFrom(alignpatpos, i + 1, 0)) == ft
    {
      var numalign := |alignpatpos|;
      for j := 0 to numalign
        invariant Valid() && mask == old(mask)
        invariant PaintAll(modules, size, AlignmentsFrom(alignpatpos, i, j)) == gt
        invariant MarkAll(isfunction, size, AlignmentsFrom(alignpatpos, i, j)) == ft
      {
        if !IsCorner(numalign, i, j) {
          PaintAllCons(modules, size, Alignment(alignpatpos[i], alignpatpos[j]), AlignmentsFrom(alignpatpos, i, j + 1));
          PaintAllCons(isfunction, size, Alignment(alignpatpos[i], alignpatpos[j]), AlignmentsFrom(alignpatpos, i, j + 1));
          DrawAlignmentPattern(alignpatpos[i], alignpatpos[j]);
        } else {
          assert AlignmentsFrom(alignpatpos, i, j) == AlignmentsFrom(alignpatpos, i, j + 1);
        }
      }
      assert AlignmentsFrom(alignpatpos, i, numalign) == AlignmentsFrom(alignpatpos, i + 1, 0);
    }

    /** Both copies of the format word for this level and mask m, plus the dark module. */
    method DrawFormatBits(m: Mask)
      requires Valid()
      modifies this
      ensures Valid() && mask == old(mask)
      ensures modules == Paint(old(modules), size, FormatArea(FormatWord(errorcorrectionlevel, m)))
      ensures isfunction == Mark(old(isfunction), size, FormatArea(FormatWord(errorcorrectionlevel, m)))
    {
      var bits := ComputeFormatWord(errorcorrectionlevel, m);
      ghost var p := FormatArea(bits);
      NothingPainted(modules, isfunction, size, p, FormatUpTo(0, 0));
      DrawFirstFormatCopy(bits, old(modules), old(isfunction));
      DrawSecondFormatCopy(bits, old(modules), old(isfunction));
      FormatDarkStep(size, bits);
      FullyPainted(modules, old(modules), isfunction, old(isfunction), size, p, FormatUpTo(15, 16));
    }

    /** The first copy of format word `bits`, beside the top-left finder. */
    method DrawFirstFormatCopy(bits: nat, ghost g0: Grid, ghost f0: Grid)
      requires Valid() && PartlyPainted(modules, g0, isfunction, f0, size, FormatArea(bits), FormatUpTo(0, 0))
      modifies this
      ensures Valid() && mask == old(mask)
      ensures PartlyPainted(modules, g0, isfunction, f0, size, FormatArea(bits), FormatUpTo(15, 0))
    {
      ghost var p := FormatArea(bits);
      for i := 0 to 6
        invariant Valid() && mask == old(mask)
        invariant PartlyPainted(modules, g0, isfunction, f0, size, p, FormatUpTo(i, 0))
      {
        FormatFirstStep(size, bits, i, 8, i);
        PaintModule(8, i, GetBit(bits, i), g0, f0, p, FormatUpTo(i, 0), FormatUpTo(i + 1, 0));
      }
      DrawFormatCorner(bits, g0, f0);
      for i := 9 to 15
        invariant Valid() && mask == old(mask)
        invariant PartlyPainted(modules, g0, isfunction, f0, size, p, FormatUpTo(i, 0))
      {
        FormatFirstStep(size, bits, i, 14 - i, 8);
        PaintModule(14 - i, 8, GetBit(bits, i), g0, f0, p, FormatUpTo(i, 0), FormatUpTo(i + 1, 0));
      }
    }

    /** Bits 6 to 8 of the first copy, around the corner of the top-left finder. */
    method DrawFormatCorner(bits: nat, ghost g0: Grid, ghost f0: Grid)
      requires Valid() && PartlyPainted(modules, g0, isfunction, f0, size, FormatArea(bits), FormatUpTo(6, 0))
      modifies this
      ensures Valid() && mask == old(mask)
      ensures PartlyPainted(modules, g0, isfunction, f0, size, FormatArea(bits), FormatUpTo(9, 0))
    {
      ghost var p := FormatArea(bits);
      FormatFirstStep(size, bits, 6, 8, 7);
      PaintModule(8, 7, GetBit(bits, 6), g0, f0, p, FormatUpTo(6, 0), FormatUpTo(7, 0));
      FormatFirstStep(size, bits, 7, 8, 8);
      PaintModule(8, 8, GetBit(bits, 7), g0, f0, p, FormatUpTo(7, 0), FormatUpTo(8, 0));
      FormatFirstStep(size, bits, 8, 7, 8);
      PaintModule(7, 8, GetBit(bits, 8), g0, f0, p, FormatUpTo(8, 0), FormatUpTo(9, 0));
    }

    /** The second copy, split between the other two finders, and the dark module. */
    method DrawSecondFormatCopy(bits: nat, ghost g0: Grid, ghost f0: Grid)
      requires Valid() && PartlyPainted(modules, g0, isfunction, f0, size, FormatArea(bits), FormatUpTo(15, 0))
      modifies this
      ensures Valid() && mask == old(mask)
      ensures PartlyPainted(modules, g0, isfunction, f0, size, FormatArea(bits), FormatUpTo(15, 16))
    {
      ghost var p := FormatArea(bits);
      var size := this.size;
      for i := 0 to 8
        invariant Valid() && mask == old(mask)
        invariant PartlyPainted(modules, g0, isfunction, f0, size, p, FormatUpTo(15, i))
      {
        FormatSecondStep(size, bits, i, size - 1 - i, 8);
        PaintModule(size - 1 - i, 8, GetBit(bits, i), g0, f0, p, FormatUpTo(15, i), FormatUpTo(15, i + 1));
      }
      for i := 8 to 15
        invariant Valid() && mask == old(mask)
        invariant PartlyPainted(modules, g0, isfunction, f0, size, p, FormatUpTo(15, i))
      {
        FormatSecondStep(size, bits, i, 8, size - 15 + i);
        PaintModule(8, size - 15 + i, GetBit(bits, i), g0, f0, p, FormatUpTo(15, i), FormatUpTo(15, i + 1));
      }
      FormatDarkStep(size, bits);
      PaintModule(8, size - 8, true, g0, f0, p, FormatUpTo(15, 15), FormatUpTo(15, 16));
    }

    /** Both copies of the version word, from version 7 on; nothing below it. */
    method DrawVersion()
      requires Valid()
      modifies this
      ensures Valid() && mask == old(mask)
      ensures version >= 7 ==> modules == Paint(old(modules), size, VersionArea(VersionWord(version)))
      ensures version >= 7 ==> isfunction == Mark(old(isfunction), size, VersionArea(VersionWord(version)))
      ensures version < 7 ==> modules == old(modules) && isfunction == old(isfunction)
    {
      if version < 7 {
        return;
      }
      var bits := ComputeVersionWord(version);
      ghost var p := VersionArea(bits);
      NothingPainted(modules, isfunction, size, p, VersionUpTo(0, 0));
      for i := 0 to 18
        invariant Valid() && mask == old(mask)
        invariant PartlyPainted(modules, old(modules), isfunction, old(isfunction), size, p, VersionUpTo(i, i))
      {
        DrawVersionBit(bits, i, old(modules), old(isfunction));
      }
      VersionAllSelected(size, bits);
      FullyPainted(modules, old(modules), isfunction, old(isfunction), size, p, VersionUpTo(18, 18));
    }

    /** Bit i of version word `bits`, in both copies. */
    method DrawVersionBit(bits: nat, i: nat, ghost g0: Grid, ghost f0: Grid)
      requires Valid() && 7 <= version && bits == VersionWord(version) && i < 18
      requires PartlyPainted(modules, g0, isfunction, f0, size, VersionArea(bits), VersionUpTo(i, i))
      modifies this
      ensures Valid() && mask == old(mask)
      ensures PartlyPainted(modules, g0, isfunction, f0, size, VersionArea(bits), VersionUpTo(i + 1, i + 1))
    {
      var bit := GetBit(bits, i);
      var a := size - 11 + i % 3;
      var b := i / 3;
      VersionSteps(size, bits, i, a, b);
      PaintModule(a, b, bit, g0, f0, VersionArea(bits), VersionUpTo(i, i), VersionUpTo(i + 1, i));
      PaintModule(b, a, bit, g0, f0, VersionArea(bits), VersionUpTo(i + 1, i), VersionUpTo(i + 1, i + 1));
    }

    /** `draw_codewords`: the codeword bits, most significant first, go into the free
        modules in zigzag order; the length check of the source is the precondition. */
    method DrawCodewords(data: seq<byte>)
      requires Valid() && |data| == RawDataModules(version) / 8
      modifies this
      ensures Valid() && mask == old(mask) && isfunction == old(isfunction)
      ensures modules == Placed(old(modules), isfunction, data, size)
      ensures isfunction == FunctionModules(version, errorcorrectionlevel) ==>
                var bits := ReadBack(modules, isfunction, size, SymbolCells(size));
                |data| * 8 <= |bits| && bits[..|data| * 8] == DataBits(data, 0, |data| * 8)
    {
      ghost var final := Placed(modules, isfunction, data, size);
      var i: nat := 0;
      var right := size - 1;
      ContinuesStart(modules, isfunction, data, size);
      while right >= 1
        invariant Valid() && mask == old(mask) && isfunction == old(isfunction)
        invariant -1 <= right < size && Continues(modules, i, isfunction, data, size, Sweep(size, right), final)
      {
        SweepCons(size, right);
        if right == 6 {
          right := 5;
        }
        i := DrawColumnPair(data, right, i, Sweep(size, right - 2), final);
        right := right - 2;
      }
      ContinuesEnd(modules, i, isfunction, data, size, final);
      if isfunction == FunctionModules(version, errorcorrectionlevel) {
        AllCodewordBitsPlaced(version, errorcorrectionlevel, old(modules), data);
      }
    }

    /** One column pair of `draw_codewords`, from its first step to its last. */
    method DrawColumnPair(data: seq<byte>, right: int, i0: nat, ghost rest: seq<Pos>, ghost final: Grid)
      returns (i: nat)
      requires Valid() && 1 <= right < size
      requires Continues(modules, i0, isfunction, data, size, PairFrom(size, right, 0, 0) + rest, final)
      modifies this
      ensures Valid() && mask == old(mask) && isfunction == old(isfunction)
      ensures Continues(modules, i, isfunction, data, size, rest, final)
    {
      i := i0;
      for vert := 0 to size
        invariant Valid() && mask == old(mask) && isfunction == old(isfunction)
        invariant Continues(modules, i, isfunction, data, size, PairFrom(size, right, vert, 0) + rest, final)
      {
        i := DrawPairStep(data, right, vert, i, rest, final);
      }
      assert PairFrom(size, right, size, 0) + rest == rest;
    }

    /** One step of a column pair of `draw_codewords`: the module in the right column,
        then the one in the left column. */
    method DrawPairStep(data: seq<byte>, right: int, vert: int, i0: nat, ghost rest: seq<Pos>, ghost final: Grid)
      returns (i: nat)
      requires Valid() && 1 <= right < size && 0 <= vert < size
      requires Continues(modules, i0, isfunction, data, size, PairFrom(size, right, vert, 0) + rest, final)
      modifies this
      ensures Valid() && mask == old(mask) && isfunction == old(isfunction)
      ensures Continues(modules, i, isfunction, data, size, PairFrom(size, right, vert + 1, 0) + rest, final)
    {
      i := i0;
      for j := 0 to 2
        invariant Valid() && mask == old(mask) && isfunction == old(isfunction)
        invariant Continues(modules, i, isfunction, data, size, PairFrom(size, right, vert, j) + rest, final)
      {
        i := DrawCodewordModule(data, right, vert, j, i, rest, final);
      }
      assert PairFrom(size, right, vert, 2) == PairFrom(size, right, vert + 1, 0);
    }

    /** The body of the innermost loop of `draw_codewords`: the module at step `vert`
        of the pair, in column `right - j`, takes bit i when it is free and bits remain. */
    method DrawCodewordModule(data: seq<byte>, right: int, vert: int, j: int, i0: nat,
                              ghost rest: seq<Pos>, ghost final: Grid) returns (i: nat)
      requires Valid() && 1 <= right < size && 0 <= vert < size && 0 <= j < 2
      requires Continues(modules, i0, isfunction, data, size, PairFrom(size, right, vert, j) + rest, final)
      modifies this
      ensures Valid() && mask == old(mask) && isfunction == old(isfunction)
      ensures Continues(modules, i, isfunction, data, size, PairFrom(size, right, vert, j + 1) + rest, final)
    {
      i := i0;
      var x := right - j;
      var upward := (right + 1) % 4 < 2;
      var y := if upward then size - 1 - vert else vert;
      ContinuesStep(modules, i, isfunction, data, size, right, vert, j, rest, final);
      if !isfunction[y][x] && i < |data| * 8 {
        modules := Set(modules, x, y, GetBit(data[i / 8], 7 - i % 8));
        i := i + 1;
      }
    }

    /** `apply_mask`: XORs every non-function module with mask `msk`'s pattern. */
    method ApplyMask(msk: Mask)
      requires Valid()
      modifies this
      ensures Valid() && mask == old(mask) && isfunction == old(isfunction)
      ensures modules == Masked(old(modules), isfunction, msk, size)
    {
      for y := 0 to size
        invariant Valid() && mask == old(mask) && isfunction == old(isfunction)
        invariant MaskedUpTo(modules, old(modules), isfunction, msk, size, y, 0)
      {
        for x := 0 to size
          invariant Valid() && mask == old(mask) && isfunction == old(isfunction)
          invariant MaskedUpTo(modules, old(modules), isfunction, msk, size, y, x)
        {
          var invert := Inverts(msk, x, y);
          modules := Set(modules, x, y, modules[y][x] != (invert && !isfunction[y][x]));
        }
      }
      MaskedAll(modules, old(modules), isfunction, msk, size);
    }

    /** `get_penalty_score`: runs and finder-like patterns in every row and column,
        uniform 2x2 blocks, and the dark/light balance. */
    method GetPenaltyScore() returns (result: int)
      requires Valid()
      ensures result == PenaltyScore(modules, size)
    {
      result := GridPenalty(modules, size);
    }
  }
}
