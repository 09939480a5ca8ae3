/** Capacity of a symbol (qrcode-lib/src/qrcode.rs): the number of modules left for
    codewords, the split of codewords into error correction blocks driven by the
    two static tables, and the positions of the alignment patterns. */
module Capacity {
  import opened QrTypes

  /** Modules per side: `version * 4 + 17`. */
  function Size(ver: Version): (r: nat)
    ensures 21 <= r <= 177 && r % 2 == 1
    ensures r == 4 * ver + 17
  {
    ver * 4 + 17
  }

  /** `ECC_CODEWORDS_PER_BLOCK`: error correction codewords in each block, by level
      ordinal and version (the entry for version 0 is unused). */
  const EccCodewordsPerBlock: seq<seq<int>> := [
    [-1,  7, 10, 15, 20, 26, 18, 20, 24, 30, 18, 20, 24, 26, 30, 22, 24, 28, 30, 28, 28, 28, 28, 30, 30, 26, 28, 30, 30, 30, 30, 30, 30, 30, 30, 30, 30, 30, 30, 30, 30],
    [-1, 10, 16, 26, 18, 24, 16, 18, 22, 22, 26, 30, 22, 22, 24, 24, 28, 28, 26, 26, 26, 26, 28, 28, 28, 28, 28, 28, 28, 28, 28, 28, 28, 28, 28, 28, 28, 28, 28, 28, 28],
    [-1, 13, 22, 18, 26, 18, 24, 18, 22, 20, 24, 28, 26, 24, 20, 30, 24, 28, 28, 26, 30, 28, 30, 30, 30, 30, 28, 30, 30, 30, 30, 30, 30, 30, 30, 30, 30, 30, 30, 30, 30],
    [-1, 17, 28, 22, 16, 22, 28, 26, 26, 24, 28, 24, 28, 22, 24, 24, 30, 28, 28, 26, 28, 30, 24, 30, 30, 30, 30, 30, 30, 30, 30, 30, 30, 30, 30, 30, 30, 30, 30, 30, 30]
  ]

  /** `NUM_ERROR_CORRECTION_BLOCKS`: the number of error correction blocks, by level
      ordinal and version (the entry for version 0 is unused). */
  const NumErrorCorrectionBlocks: seq<seq<int>> := [
    [-1, 1, 1, 1, 1, 1, 2, 2, 2, 2, 4,  4,  4,  4,  4,  6,  6,  6,  6,  7,  8,  8,  9,  9, 10, 12, 12, 12, 13, 14, 15, 16, 17, 18, 19, 19, 20, 21, 22, 24, 25],
    [-1, 1, 1, 1, 2, 2, 4, 4, 4, 5, 5,  5,  8,  9,  9, 10, 10, 11, 13, 14, 16, 17, 17, 18, 20, 21, 23, 25, 26, 28, 29, 31, 33, 35, 37, 38, 40, 43, 45, 47, 49],
    [-1, 1, 1, 2, 2, 4, 4, 6, 6, 8, 8,  8, 10, 12, 16, 12, 17, 16, 18, 21, 20, 23, 23, 25, 27, 29, 34, 34, 35, 38, 40, 43, 45, 48, 51, 53, 56, 59, 62, 65, 68],
    [-1, 1, 1, 2, 4, 4, 4, 5, 6, 8, 8, 11, 11, 16, 16, 18, 16, 19, 21, 25, 25, 25, 34, 30, 32, 35, 37, 40, 42, 45, 48, 51, 54, 57, 60, 63, 66, 70, 74, 77, 81]
  ]

  /** Both tables have four rows of 41 entries. */
  predicate IsCapacityTable(table: seq<seq<int>>)
  {
    |table| == 4 && forall i :: 0 <= i < 4 ==> |table[i]| == 41
  }

  /** `table_get`: the entry for a version and level. */
  function TableGet(table: seq<seq<int>>, ver: Version, ecl: Ecc): int
    requires IsCapacityTable(table)
  {
    TableEntry(table, ver, ecl, 1)
  }

  /** The table lookup behind `k` layers: the solver looks an entry up only when the
      version is known, instead of splitting on all 40 versions wherever a table
      entry appears. */
  function TableEntry(table: seq<seq<int>>, ver: Version, ecl: Ecc, k: nat): int
    requires IsCapacityTable(table)
    decreases k, ver
  {
    if k == 0 then table[Ordinal(ecl)][ver] else TableEntry(table, ver, ecl, k - 1)
  }

  /** `get_num_raw_data_modules`: the modules of a symbol not taken by function patterns,
      that is, the bits available for data and error correction codewords together
      (including the remainder bits that do not fill a whole codeword). */
  function RawDataModules(ver: Version): int
  {
    RawModules(ver, 1)
  }

  /** The count of `get_num_raw_data_modules` behind `k` layers, so that the solver
      evaluates the polynomial only for a known version (or through `RawModulesDef`). */
  function RawModules(ver: Version, k: nat): int
    decreases k, ver
  {
    if k > 0 then RawModules(ver, k - 1)
    else
      var base := (16 * ver + 128) * ver + 64;
      if ver >= 2 then
        var numalign := ver / 7 + 2;
        var afterAlign := base - ((25 * numalign - 10) * numalign - 55);
        if ver >= 7 then afterAlign - 36 else afterAlign
      else base
  }

  /** The polynomial of `get_num_raw_data_modules`: the area (16 v + 128) v + 64 of a
      symbol with its timing patterns, less the alignment patterns from version 2 and
      the version information from version 7. */
  lemma RawModulesDef(ver: Version)
    ensures RawDataModules(ver) ==
      var base := (16 * ver + 128) * ver + 64;
      if ver >= 2 then
        var numalign := ver / 7 + 2;
        var afterAlign := base - ((25 * numalign - 10) * numalign - 55);
        if ver >= 7 then afterAlign - 36 else afterAlign
      else base
  {
    assert RawDataModules(ver) == RawModules(ver, 0);
  }

  /** A usable block layout for `rawcodewords` codewords: at least one block, 7 to 30
      error correction codewords per block, and at least one data codeword in every
      block (the short blocks hold `rawcodewords / blocks` codewords). */
  predicate LayoutFits(rawcodewords: int, blocks: int, ecc: int)
  {
    1 <= blocks <= 81 && 7 <= ecc <= 30 && 0 <= rawcodewords && ecc + 1 <= rawcodewords / blocks
  }

  /** The table entries of one version and level describe a usable block layout. */
  predicate LayoutOk(ver: Version, ecl: Ecc)
  {
    LayoutFits(RawDataModules(ver) / 8, TableGet(NumErrorCorrectionBlocks, ver, ecl), TableGet(EccCodewordsPerBlock, ver, ecl))
  }

  predicate VersionOk(ver: Version, ecl: Ecc)
  {
    208 <= RawDataModules(ver) <= 29648 && LayoutOk(ver, ecl)
  }

  // Each version's table entries, checked one version at a time.
  lemma Version1Ok(ecl: Ecc) ensures VersionOk(1, ecl) { assert RawModules(1, 0) == 208; }
  lemma Version2Ok(ecl: Ecc) ensures VersionOk(2, ecl) { assert RawModules(2, 0) == 359; }
  lemma Version3Ok(ecl: Ecc) ensures VersionOk(3, ecl) { assert RawModules(3, 0) == 567; }
  lemma Version4Ok(ecl: Ecc) ensures VersionOk(4, ecl) { assert RawModules(4, 0) == 807; }
  lemma Version5Ok(ecl: Ecc) ensures VersionOk(5, ecl) { assert RawModules(5, 0) == 1079; }
  lemma Version6Ok(ecl: Ecc) ensures VersionOk(6, ecl) { assert RawModules(6, 0) == 1383; }
  lemma Version7Ok(ecl: Ecc) ensures VersionOk(7, ecl) { assert RawModules(7, 0) == 1568; }
  lemma Version8Ok(ecl: Ecc) ensures VersionOk(8, ecl) { assert RawModules(8, 0) == 1936; }
  lemma Version9Ok(ecl: Ecc) ensures VersionOk(9, ecl) { assert RawModules(9, 0) == 2336; }
  lemma Version10Ok(ecl: Ecc) ensures VersionOk(10, ecl) { assert RawModules(10, 0) == 2768; }
  lemma Version11Ok(ecl: Ecc) ensures VersionOk(11, ecl) { assert RawModules(11, 0) == 3232; }
  lemma Version12Ok(ecl: Ecc) ensures VersionOk(12, ecl) { assert RawModules(12, 0) == 3728; }
  lemma Version13Ok(ecl: Ecc) ensures VersionOk(13, ecl) { assert RawModules(13, 0) == 4256; }
  lemma Version14Ok(ecl: Ecc) ensures VersionOk(14, ecl) { assert RawModules(14, 0) == 4651; }
  lemma Version15Ok(ecl: Ecc) ensures VersionOk(15, ecl) { assert RawModules(15, 0) == 5243; }
  lemma Version16Ok(ecl: Ecc) ensures VersionOk(16, ecl) { assert RawModules(16, 0) == 5867; }
  lemma Version17Ok(ecl: Ecc) ensures VersionOk(17, ecl) { assert RawModules(17, 0) == 6523; }
  lemma Version18Ok(ecl: Ecc) ensures VersionOk(18, ecl) { assert RawModules(18, 0) == 7211; }
  lemma Version19Ok(ecl: Ecc) ensures VersionOk(19, ecl) { assert RawModules(19, 0) == 7931; }
  lemma Version20Ok(ecl: Ecc) ensures VersionOk(20, ecl) { assert RawModules(20, 0) == 8683; }
  lemma Version21Ok(ecl: Ecc) ensures VersionOk(21, ecl) { assert RawModules(21, 0) == 9252; }
  lemma Version22Ok(ecl: Ecc) ensures VersionOk(22, ecl) { assert RawModules(22, 0) == 10068; }
  lemma Version23Ok(ecl: Ecc) ensures VersionOk(23, ecl) { assert RawModules(23, 0) == 10916; }
  lemma Version24Ok(ecl: Ecc) ensures VersionOk(24, ecl) { assert RawModules(24, 0) == 11796; }
  lemma Version25Ok(ecl: Ecc) ensures VersionOk(25, ecl) { assert RawModules(25, 0) == 12708; }
  lemma Version26Ok(ecl: Ecc) ensures VersionOk(26, ecl) { assert RawModules(26, 0) == 13652; }
  lemma Version27Ok(ecl: Ecc) ensures VersionOk(27, ecl) { assert RawModules(27, 0) == 14628; }
  lemma Version28Ok(ecl: Ecc) ensures VersionOk(28, ecl) { assert RawModules(28, 0) == 15371; }
  lemma Version29Ok(ecl: Ecc) ensures VersionOk(29, ecl) { assert RawModules(29, 0) == 16411; }
  lemma Version30Ok(ecl: Ecc) ensures VersionOk(30, ecl) { assert RawModules(30, 0) == 17483; }
  lemma Version31Ok(ecl: Ecc) ensures VersionOk(31, ecl) { assert RawModules(31, 0) == 18587; }
  lemma Version32Ok(ecl: Ecc) ensures VersionOk(32, ecl) { assert RawModules(32, 0) == 19723; }
  lemma Version33Ok(ecl: Ecc) ensures VersionOk(33, ecl) { assert RawModules(33, 0) == 20891; }
  lemma Version34Ok(ecl: Ecc) ensures VersionOk(34, ecl) { assert RawModules(34, 0) == 22091; }
  lemma Version35Ok(ecl: Ecc) ensures VersionOk(35, ecl) { assert RawModules(35, 0) == 23008; }
  lemma Version36Ok(ecl: Ecc) ensures VersionOk(36, ecl) { assert RawModules(36, 0) == 24272; }
  lemma Version37Ok(ecl: Ecc) ensures VersionOk(37, ecl) { assert RawModules(37, 0) == 25568; }
  lemma Version38Ok(ecl: Ecc) ensures VersionOk(38, ecl) { assert RawModules(38, 0) == 26896; }
  lemma Version39Ok(ecl: Ecc) ensures VersionOk(39, ecl) { assert RawModules(39, 0) == 28256; }
  lemma Version40Ok(ecl: Ecc) ensures VersionOk(40, ecl) { assert RawModules(40, 0) == 29648; }

  /** Every version's table entries describe usable block layouts, and its raw module
      count lies in the range 208 to 29648 that the source asserts. */
  lemma AllVersionsOk(ver: Version, ecl: Ecc)
    ensures VersionOk(ver, ecl)
  {
    if ver == 1 { Version1Ok(ecl); }
    else if ver == 2 { Version2Ok(ecl); }
    else if ver == 3 { Version3Ok(ecl); }
    else if ver == 4 { Version4Ok(ecl); }
    else if ver == 5 { Version5Ok(ecl); }
    else if ver == 6 { Version6Ok(ecl); }
    else if ver == 7 { Version7Ok(ecl); }
    else if ver == 8 { Version8Ok(ecl); }
    else if ver == 9 { Version9Ok(ecl); }
    else if ver == 10 { Version10Ok(ecl); }
    else if ver == 11 { Version11Ok(ecl); }
    else if ver == 12 { Version12Ok(ecl); }
    else if ver == 13 { Version13Ok(ecl); }
    else if ver == 14 { Version14Ok(ecl); }
    else if ver == 15 { Version15Ok(ecl); }
    else if ver == 16 { Version16Ok(ecl); }
    else if ver == 17 { Version17Ok(ecl); }
    else if ver == 18 { Version18Ok(ecl); }
    else if ver == 19 { Version19Ok(ecl); }
    else if ver == 20 { Version20Ok(ecl); }
    else if ver == 21 { Version21Ok(ecl); }
    else if ver == 22 { Version22Ok(ecl); }
    else if ver == 23 { Version23Ok(ecl); }
    else if ver == 24 { Version24Ok(ecl); }
    else if ver == 25 { Version25Ok(ecl); }
    else if ver == 26 { Version26Ok(ecl); }
    else if ver == 27 { Version27Ok(ecl); }
    else if ver == 28 { Version28Ok(ecl); }
    else if ver == 29 { Version29Ok(ecl); }
    else if ver == 30 { Version30Ok(ecl); }
    else if ver == 31 { Version31Ok(ecl); }
    else if ver == 32 { Version32Ok(ecl); }
    else if ver == 33 { Version33Ok(ecl); }
    else if ver == 34 { Version34Ok(ecl); }
    else if ver == 35 { Version35Ok(ecl); }
    else if ver == 36 { Version36Ok(ecl); }
    else if ver == 37 { Version37Ok(ecl); }
    else if ver == 38 { Version38Ok(ecl); }
    else if ver == 39 { Version39Ok(ecl); }
    else { Version40Ok(ecl); }
  }

  lemma DivMulLe(a: nat, b: nat)
    requires b > 0
    ensures (a / b) * b <= a
  {
  }

  lemma MulLe(a: nat, b: nat, c: nat)
    requires a <= b
    ensures a * c <= b * c
  {
  }

  /** In a usable layout the error correction codewords leave at least one data
      codeword per block. */
  lemma LayoutArith(rawcodewords: int, blocks: int, ecc: int)
    requires LayoutFits(rawcodewords, blocks, ecc)
    ensures blocks <= rawcodewords - ecc * blocks <= rawcodewords
  {
    DivMulLe(rawcodewords, blocks);
    MulLe(ecc + 1, rawcodewords / blocks, blocks);
  }

  lemma BlockLayout(ver: Version, ecl: Ecc)
    ensures LayoutOk(ver, ecl)
  {
    AllVersionsOk(ver, ecl);
  }

  /** `get_num_data_codewords`: the 8-bit data codewords a symbol holds once the error
      correction codewords of every block are set aside. Every block keeps at least
      one data codeword, and the data never needs more than the raw modules. */
  function DataCodewords(ver: Version, ecl: Ecc): (r: nat)
    ensures r >= 1
    ensures 8 * r <= RawDataModules(ver)
  {
    DataCodewordsLayer(ver, ecl, 1)
  }

  /** The count of `get_num_data_codewords` behind `k` layers, so that the solver does
      not multiply table entries wherever a capacity appears; `DataCodewordsDef`
      states the definition. */
  function DataCodewordsLayer(ver: Version, ecl: Ecc, k: nat): (r: nat)
    ensures r >= 1
    ensures 8 * r <= RawDataModules(ver)
    decreases k, ver
  {
    if k > 0 then DataCodewordsLayer(ver, ecl, k - 1)
    else
      var blocks := TableGet(NumErrorCorrectionBlocks, ver, ecl);
      var ecc := TableGet(EccCodewordsPerBlock, ver, ecl);
      var raw := RawDataModules(ver);
      BlockLayout(ver, ecl);
      LayoutArith(raw / 8, blocks, ecc);
      raw / 8 - ecc * blocks
  }

  /** The data codewords are the raw codewords less the error correction codewords of
      every block. */
  lemma DataCodewordsDef(ver: Version, ecl: Ecc)
    ensures DataCodewords(ver, ecl) == RawDataModules(ver) / 8 -
              TableGet(EccCodewordsPerBlock, ver, ecl) * TableGet(NumErrorCorrectionBlocks, ver, ecl)
  {
    assert DataCodewords(ver, ecl) == DataCodewordsLayer(ver, ecl, 0);
  }

  /** Every block keeps at least one data codeword. */
  lemma DataCodewordsPerBlock(ver: Version, ecl: Ecc)
    ensures DataCodewords(ver, ecl) >= TableGet(NumErrorCorrectionBlocks, ver, ecl)
  {
    BlockLayout(ver, ecl);
    DataCodewordsDef(ver, ecl);
    LayoutArith(RawDataModules(ver) / 8, TableGet(NumErrorCorrectionBlocks, ver, ecl), TableGet(EccCodewordsPerBlock, ver, ecl));
  }

  /** The raw module count is the symbol's area less every function pattern: three
      finder patterns with their separators (64 modules each), two timing patterns
      (size - 16 modules each beyond the finders), two copies of the format information
      and the dark module (31), alignment patterns (25 modules each, n * n - 3 of them,
      less 10 timing modules each of 2 * (n - 2) of them already counted) and two
      copies of the version information from version 7 on (36). */
  lemma RawDataModulesArea(ver: Version)
    ensures var size := Size(ver);
            var n := ver / 7 + 2;
            RawDataModules(ver) == size * size - 3 * 64 - 2 * (size - 16) - 31
                                   - (if ver >= 2 then 25 * (n * n - 3) - 10 * (n - 2) else 0)
                                   - (if ver >= 7 then 36 else 0)
  {
    RawModulesDef(ver);
  }

  /** The 208 to 29648 range of the raw module count. */
  lemma RawDataModulesBounds(ver: Version)
    ensures 208 <= RawDataModules(ver) <= 29648
  {
    AllVersionsOk(ver, Low);
  }

  /** Distance between consecutive alignment pattern centres after the first. */
  function AlignmentStep(ver: Version): int
  {
    var numalign := ver / 7 + 2;
    (ver * 8 + numalign * 3 + 5) / (numalign * 4 - 4) * 2
  }

  function Reverse<T>(s: seq<T>): (r: seq<T>)
    ensures |r| == |s| && forall i :: 0 <= i < |s| ==> r[i] == s[|s| - 1 - i]
  {
    if s == [] then [] else Reverse(s[1..]) + [s[0]]
  }

  /** `get_alignment_pattern_positions`: the ascending centre coordinates of the
      alignment patterns on each axis. None at version 1; otherwise ver / 7 + 2 of
      them, the first at 6, the last at size - 7, the others spaced by the same even step. */
  function AlignmentPatternPositions(ver: Version): (r: seq<int>)
    ensures ver == 1 ==> r == []
    ensures ver >= 2 ==> |r| == ver / 7 + 2 && r[0] == 6 && r[|r| - 1] == Size(ver) - 7
    ensures forall i, j :: 0 <= i < j < |r| ==> r[i] < r[j]
    ensures forall i :: 0 <= i < |r| ==> 6 <= r[i] <= Size(ver) - 7
    ensures forall i :: 1 <= i < |r| - 1 ==> r[i + 1] - r[i] == AlignmentStep(ver)
    ensures ver >= 2 ==> AlignmentStep(ver) > 0 && AlignmentStep(ver) % 2 == 0
  {
    if ver == 1 then []
    else
      var numalign := ver / 7 + 2;
      var step := AlignmentStep(ver);
      var size := Size(ver);
      AlignmentStepOk(ver);
      var down := seq(numalign - 1, i requires 0 <= i < numalign - 1 => size - 7 - i * step);
      AscendingPositions(down, size, step, numalign - 1);
      Reverse(down + [6])
  }

  /** The computed centres, listed from size - 7 downwards by `step`, followed by 6,
      read in reverse are ascending and evenly spaced after the first. */
  lemma AscendingPositions(down: seq<int>, size: int, step: int, k: nat)
    requires step >= 2 && |down| == k >= 1
    requires forall i :: 0 <= i < k ==> down[i] == size - 7 - i * step
    requires size - 7 - (k - 1) * step > 6
    ensures var r := Reverse(down + [6]);
            |r| == k + 1 && r[0] == 6 && r[k] == size - 7 &&
            (forall i, j :: 0 <= i < j < |r| ==> r[i] < r[j]) &&
            (forall i :: 0 <= i < |r| ==> 6 <= r[i] <= size - 7) &&
            (forall i :: 1 <= i < |r| - 1 ==> r[i + 1] - r[i] == step)
  {
    DescendingPositions(down, size, step, k);
    var s := down + [6];
    var r := Reverse(s);
    forall i | 1 <= i < |r| - 1
      ensures r[i + 1] - r[i] == step
    {
      assert r[i] == down[k - i] && r[i + 1] == down[k - i - 1];
    }
  }

  lemma DescendingPositions(down: seq<int>, size: int, step: int, k: nat)
    requires step >= 2 && |down| == k >= 1
    requires forall i :: 0 <= i < k ==> down[i] == size - 7 - i * step
    requires size - 7 - (k - 1) * step > 6
    ensures forall i, j :: 0 <= i < j < k ==> down[i] > down[j]
    ensures forall i :: 0 <= i < k ==> 6 < down[i] <= size - 7
  {
    forall i, j | 0 <= i < j < k
      ensures down[i] > down[j]
    {
      MulLe(i + 1, j, step);
    }
    forall i | 0 <= i < k
      ensures 6 < down[i] <= size - 7
    {
      MulLe(i, k - 1, step);
    }
  }

  /** The step is positive and even, and the innermost computed position lies beyond 6. */
  lemma AlignmentStepOk(ver: Version)
    requires ver >= 2
    ensures AlignmentStep(ver) >= 2 && AlignmentStep(ver) % 2 == 0
    ensures Size(ver) - 7 - (ver / 7) * AlignmentStep(ver) > 6
  {
    var n := ver / 7;
    if n == 0 {
      assert AlignmentStep(ver) == (ver * 8 + 11) / 4 * 2;
    } else if n == 1 {
      assert AlignmentStep(ver) == (ver * 8 + 14) / 8 * 2;
    } else if n == 2 {
      assert AlignmentStep(ver) == (ver * 8 + 17) / 12 * 2;
    } else if n == 3 {
      assert AlignmentStep(ver) == (ver * 8 + 20) / 16 * 2;
    } else if n == 4 {
      assert AlignmentStep(ver) == (ver * 8 + 23) / 20 * 2;
    } else {
      assert AlignmentStep(ver) == (ver * 8 + 26) / 24 * 2;
    }
  }
}
