/** Error correction and interleaving (`add_ecc_and_interleave`, qrcode-lib/src/qrcode.rs):
    the data codewords are cut into blocks, each block is followed by its Reed-Solomon
    error correction codewords, and the blocks are read out column by column. */
module Interleave {
  import opened QrTypes
  import opened Capacity
  import opened ReedSolomon

  /** The block structure of one version and level: how many blocks, how many error
      correction codewords each, how many of the blocks are short (one data codeword
      fewer) and the length of a short block including its error correction. */
  datatype Layout = Layout(numBlocks: nat, eccLen: nat, numShort: nat, shortLen: nat)

  /** The layout of `raw` codewords in `nb` blocks with `ecc` error correction
      codewords each: the short blocks hold `raw / nb` codewords, and `raw % nb` of
      the blocks hold one more. The blocks then hold exactly `raw` codewords, of
      which `raw - ecc * nb` are data. */
  function MakeLayout(raw: nat, nb: nat, ecc: nat): (l: Layout)
    requires nb >= 1 && ecc < raw / nb
    ensures 1 <= l.numShort <= l.numBlocks == nb && l.eccLen == ecc && ecc < l.shortLen
    ensures raw == (l.shortLen + 1) * l.numBlocks - l.numShort
    ensures raw - ecc * nb == nb * (l.shortLen - ecc) + (nb - l.numShort)
  {
    var l := Layout(nb, ecc, nb - raw % nb, raw / nb);
    assert nb * (raw / nb) - ecc * nb == nb * (raw / nb - ecc);
    l
  }

  /** The layout of a version and level, read from the two tables. Its blocks hold
      exactly the data codewords and, with their error correction, exactly the raw
      codewords of the version. */
  function LayoutOf(ver: Version, ecl: Ecc): (l: Layout)
    ensures 1 <= l.numShort <= l.numBlocks
    ensures 7 <= l.eccLen <= 30 && l.eccLen < l.shortLen
    ensures RawDataModules(ver) / 8 == (l.shortLen + 1) * l.numBlocks - l.numShort
    ensures DataCodewords(ver, ecl) == l.numBlocks * (l.shortLen - l.eccLen) + (l.numBlocks - l.numShort)
  {
    BlockLayout(ver, ecl);
    DataCodewordsDef(ver, ecl);
    MakeLayout(RawDataModules(ver) / 8, TableGet(NumErrorCorrectionBlocks, ver, ecl),
               TableGet(EccCodewordsPerBlock, ver, ecl))
  }

  /** Data codewords in block i: one more in the long blocks, which come last. */
  function DataLen(l: Layout, i: nat): nat
    requires l.eccLen <= l.shortLen
  {
    l.shortLen - l.eccLen + (if i >= l.numShort then 1 else 0)
  }

  /** Index of the first data codeword of block i: i short data parts, and one more
      codeword for each long block before block i. */
  function Offset(l: Layout, i: nat): nat
    requires l.eccLen <= l.shortLen
  {
    i * (l.shortLen - l.eccLen) + (if i > l.numShort then i - l.numShort else 0)
  }

  /** Block i + 1 starts where block i ends. */
  lemma OffsetStep(l: Layout, i: nat)
    requires l.eccLen <= l.shortLen
    ensures Offset(l, i + 1) == Offset(l, i) + DataLen(l, i)
  {
    assert (i + 1) * (l.shortLen - l.eccLen) == i * (l.shortLen - l.eccLen) + (l.shortLen - l.eccLen);
  }

  /** Block i ends no later than block j starts, for i < j. */
  lemma {:induction false} OffsetMonotone(l: Layout, i: nat, j: nat)
    requires l.eccLen <= l.shortLen && i < j
    ensures Offset(l, i) + DataLen(l, i) <= Offset(l, j)
    decreases j
  {
    OffsetStep(l, i);
    if i + 1 < j {
      OffsetStep(l, j - 1);
      OffsetMonotone(l, i, j - 1);
    }
  }

  /** Whether `data` holds exactly the data codewords of the layout. */
  predicate FitsLayout(data: seq<byte>, l: Layout)
  {
    1 <= l.numShort <= l.numBlocks && 1 <= l.eccLen <= 255 && l.eccLen + 1 <= l.shortLen &&
    |data| == Offset(l, l.numBlocks)
  }

  /** The data codewords of block i. */
  function BlockData(data: seq<byte>, l: Layout, i: nat): (r: seq<byte>)
    requires FitsLayout(data, l) && i < l.numBlocks
    ensures |r| == DataLen(l, i)
  {
    OffsetMonotone(l, i, l.numBlocks);
    data[Offset(l, i) .. Offset(l, i) + DataLen(l, i)]
  }

  /** The divisor of degree e: the generator polynomial without its leading 1. */
  function Divisor(e: nat): (r: seq<byte>)
    ensures |r| == e
  {
    Generator(e)[1..]
  }

  /** Block i as it is interleaved: its data, a placeholder 0 in a short block so
      that every block has the same length, then its error correction codewords. */
  function Block(data: seq<byte>, l: Layout, i: nat): (r: seq<byte>)
    requires FitsLayout(data, l) && i < l.numBlocks
    ensures |r| == l.shortLen + 1
  {
    var dat := BlockData(data, l, i);
    dat + (if i < l.numShort then [0] else []) + Remainder(dat, Divisor(l.eccLen))
  }

  /** The interleaver skips the placeholder: in column `shortLen - eccLen` it starts
      at the first long block. */
  function Skip(l: Layout, i: nat): nat
  {
    if i + l.eccLen == l.shortLen then l.numShort else 0
  }

  /** Whether every one of the blocks has the interleaved length. */
  predicate WellShaped(blocks: seq<seq<byte>>, l: Layout)
  {
    |blocks| == l.numBlocks && forall j :: 0 <= j < |blocks| ==> |blocks[j]| == l.shortLen + 1
  }

  /** Entry i of blocks 0 to j - 1, leaving out the skipped ones. */
  function ColumnUpTo(blocks: seq<seq<byte>>, l: Layout, i: nat, j: nat): (r: seq<byte>)
    requires WellShaped(blocks, l) && i <= l.shortLen && j <= l.numBlocks
    ensures |r| == if j >= Skip(l, i) then j - Skip(l, i) else 0
  {
    if j == 0 then []
    else ColumnUpTo(blocks, l, i, j - 1) + (if j - 1 >= Skip(l, i) then [blocks[j - 1][i]] else [])
  }

  /** Columns 0 to n - 1 of the blocks, one after the other. */
  function Interleaved(blocks: seq<seq<byte>>, l: Layout, n: nat): (r: seq<byte>)
    requires WellShaped(blocks, l) && n <= l.shortLen + 1
  {
    if n == 0 then []
    else Interleaved(blocks, l, n - 1) + ColumnUpTo(blocks, l, n - 1, l.numBlocks)
  }

  /** Where column i starts in the output. */
  function ColumnStart(l: Layout, i: nat): int
  {
    i * l.numBlocks - (if i + l.eccLen > l.shortLen then l.numShort else 0)
  }

  /** Where entry i of block j lands in the output. */
  function Position(l: Layout, i: nat, j: nat): int
  {
    ColumnStart(l, i) + j - Skip(l, i)
  }

  /** Column i of the output holds one entry of every block but the skipped ones. */
  lemma ColumnStartStep(l: Layout, i: nat)
    requires l.eccLen <= l.shortLen && l.numShort <= l.numBlocks
    ensures ColumnStart(l, i + 1) == ColumnStart(l, i) + l.numBlocks - Skip(l, i)
  {
    assert (i + 1) * l.numBlocks == i * l.numBlocks + l.numBlocks;
  }

  lemma {:induction false} InterleavedLength(blocks: seq<seq<byte>>, l: Layout, n: nat)
    requires WellShaped(blocks, l) && n <= l.shortLen + 1
    requires l.eccLen <= l.shortLen && l.numShort <= l.numBlocks
    ensures |Interleaved(blocks, l, n)| == ColumnStart(l, n)
  {
    if n > 0 {
      InterleavedLength(blocks, l, n - 1);
      ColumnStartStep(l, n - 1);
    }
  }

  lemma {:induction false} ColumnUpToAt(blocks: seq<seq<byte>>, l: Layout, i: nat, j: nat, k: nat)
    requires WellShaped(blocks, l) && i <= l.shortLen && j <= l.numBlocks
    requires Skip(l, i) <= k < j
    ensures ColumnUpTo(blocks, l, i, j)[k - Skip(l, i)] == blocks[k][i]
  {
    if k < j - 1 {
      ColumnUpToAt(blocks, l, i, j - 1, k);
    }
  }

  /** Entry i of block j is at `Position(l, i, j)`, for every entry but the
      placeholders of the short blocks. */
  lemma {:induction false} InterleavedAt(blocks: seq<seq<byte>>, l: Layout, n: nat, i: nat, j: nat)
    requires WellShaped(blocks, l) && n <= l.shortLen + 1
    requires l.eccLen <= l.shortLen && l.numShort <= l.numBlocks
    requires i < n && Skip(l, i) <= j < l.numBlocks
    ensures 0 <= Position(l, i, j) < |Interleaved(blocks, l, n)|
    ensures Interleaved(blocks, l, n)[Position(l, i, j)] == blocks[j][i]
  {
    InterleavedLength(blocks, l, n);
    InterleavedLength(blocks, l, n - 1);
    if i < n - 1 {
      InterleavedAt(blocks, l, n - 1, i, j);
    } else {
      ColumnUpToAt(blocks, l, i, l.numBlocks, j);
    }
  }

  /** Distinct entries land at distinct positions: with the length, the interleaving
      is a permutation of the block entries other than the placeholders. */
  lemma PositionInjective(l: Layout, i1: nat, j1: nat, i2: nat, j2: nat)
    requires l.numShort <= l.numBlocks && i1 <= l.shortLen && i2 <= l.shortLen
    requires Skip(l, i1) <= j1 < l.numBlocks && Skip(l, i2) <= j2 < l.numBlocks
    requires Position(l, i1, j1) == Position(l, i2, j2)
    ensures i1 == i2 && j1 == j2
  {
    if i1 < i2 {
      ColumnStartMonotone(l, i1 + 1, i2);
      assert false;
    } else if i2 < i1 {
      ColumnStartMonotone(l, i2 + 1, i1);
      assert false;
    }
  }

  lemma {:induction false} ColumnStartMonotone(l: Layout, i: nat, j: nat)
    requires l.numShort <= l.numBlocks && 1 <= i <= j
    ensures ColumnStart(l, i - 1) + l.numBlocks - Skip(l, i - 1) <= ColumnStart(l, i) <= ColumnStart(l, j)
    decreases j
  {
    if i < j {
      ColumnStartMonotone(l, i, j - 1);
      assert ColumnStart(l, j) >= ColumnStart(l, j - 1);
    }
  }

  /** All the columns make up the whole symbol: `(shortLen + 1) * numBlocks`
      entries less the placeholders. */
  lemma ColumnStartLast(l: Layout)
    requires l.eccLen < l.shortLen && l.numShort <= l.numBlocks
    ensures ColumnStart(l, l.shortLen + 1) == (l.shortLen + 1) * l.numBlocks - l.numShort
  {
  }

  function AllBlocks(data: seq<byte>, l: Layout): (r: seq<seq<byte>>)
    requires FitsLayout(data, l)
    ensures WellShaped(r, l)
  {
    seq(l.numBlocks, j requires 0 <= j < l.numBlocks => Block(data, l, j))
  }

  /** The codeword sequence of a symbol: the blocks of `data` interleaved. */
  function Codewords(data: seq<byte>, l: Layout): (r: seq<byte>)
    requires FitsLayout(data, l)
  {
    Interleaved(AllBlocks(data, l), l, l.shortLen + 1)
  }

  /** Entry i of block j is at `Position(l, i, j)` of the codeword sequence. */
  lemma CodewordsAt(data: seq<byte>, l: Layout, i: nat, j: nat)
    requires FitsLayout(data, l) && i <= l.shortLen && Skip(l, i) <= j < l.numBlocks
    ensures 0 <= Position(l, i, j) < |Codewords(data, l)|
    ensures Codewords(data, l)[Position(l, i, j)] == Block(data, l, j)[i]
  {
    var blocks := AllBlocks(data, l);
    assert Codewords(data, l) == Interleaved(blocks, l, l.shortLen + 1);
    assert blocks[j] == Block(data, l, j);
    InterleavedAt(blocks, l, l.shortLen + 1, i, j);
  }

  /** Data codeword t of block j is at `Position(l, t, j)` of the output. */
  lemma DataPlacement(data: seq<byte>, l: Layout, j: nat, t: nat)
    requires FitsLayout(data, l) && j < l.numBlocks && t < DataLen(l, j)
    ensures 0 <= Position(l, t, j) < |Codewords(data, l)|
    ensures Codewords(data, l)[Position(l, t, j)] == BlockData(data, l, j)[t]
  {
    CodewordsAt(data, l, t, j);
  }

  /** Error correction codeword k of block j, coefficient k of the remainder of that
      block's data, is at `Position(l, shortLen - eccLen + 1 + k, j)` of the output. */
  lemma EccPlacement(data: seq<byte>, l: Layout, j: nat, k: nat)
    requires FitsLayout(data, l) && j < l.numBlocks && k < l.eccLen
    ensures 0 <= Position(l, l.shortLen - l.eccLen + 1 + k, j) < |Codewords(data, l)|
    ensures Codewords(data, l)[Position(l, l.shortLen - l.eccLen + 1 + k, j)]
              == Remainder(BlockData(data, l, j), Divisor(l.eccLen))[k]
  {
    CodewordsAt(data, l, l.shortLen - l.eccLen + 1 + k, j);
  }

  /** Every block's data followed by its error correction codewords is a Reed-Solomon
      codeword: a multiple of the generator of degree `eccLen`, so that running it
      through the division again leaves remainder zero. */
  lemma BlocksAreCodewords(data: seq<byte>, l: Layout, j: nat)
    requires FitsLayout(data, l) && j < l.numBlocks
    ensures var dat := BlockData(data, l, j);
            dat + Remainder(dat, Divisor(l.eccLen)) == PolyMul(Quotient(dat, Divisor(l.eccLen)), Generator(l.eccLen))
    ensures var dat := BlockData(data, l, j);
            Remainder(dat + Remainder(dat, Divisor(l.eccLen)), Divisor(l.eccLen)) == Zeros(l.eccLen)
  {
    CodewordIsGeneratorMultiple(BlockData(data, l, j), l.eccLen);
    CodewordHasZeroRemainder(BlockData(data, l, j), Divisor(l.eccLen));
  }

  /** A block is made of the data slice at its offset, the placeholder of a short
      block and the remainder of that slice. */
  lemma BlockParts(data: seq<byte>, l: Layout, i: nat, dat: seq<byte>, ecc: seq<byte>)
    requires FitsLayout(data, l) && i < l.numBlocks
    requires Offset(l, i) + DataLen(l, i) <= |data|
    requires dat == data[Offset(l, i) .. Offset(l, i) + DataLen(l, i)]
    requires ecc == Remainder(dat, Divisor(l.eccLen))
    ensures (if i < l.numShort then dat + [0] else dat) + ecc == Block(data, l, i)
  {
    assert dat == BlockData(data, l, i);
    if i >= l.numShort {
      assert dat + [] == dat;
    }
  }

  /** The data codewords of a version and level fill its block layout exactly. */
  lemma DataFitsLayout(ver: Version, ecl: Ecc, data: seq<byte>)
    requires |data| == DataCodewords(ver, ecl)
    ensures FitsLayout(data, LayoutOf(ver, ecl))
  {
    var l := LayoutOf(ver, ecl);
    assert RawDataModules(ver) / 8 == (l.shortLen + 1) * l.numBlocks - l.numShort;
  }

  /** `add_ecc_and_interleave`: the data codewords of a symbol with their error
      correction, as the symbol carries them; the length check of the source is the
      precondition. */
  method AddEccAndInterleave(ver: Version, ecl: Ecc, data: seq<byte>) returns (result: seq<byte>)
    requires |data| == DataCodewords(ver, ecl)
    ensures FitsLayout(data, LayoutOf(ver, ecl))
    ensures |result| == RawDataModules(ver) / 8
    ensures result == Codewords(data, LayoutOf(ver, ecl))
  {
    var l := LayoutOf(ver, ecl);
    var raw := RawDataModules(ver) / 8;
    assert raw == (l.shortLen + 1) * l.numBlocks - l.numShort;
    assert FitsLayout(data, l);
    result := EncodeBlocks(data, l);
    assert |result| == (l.shortLen + 1) * l.numBlocks - l.numShort;
  }

  /** The codeword sequence of a version's data fills its raw modules, 8 bits a
      codeword. */
  lemma CodewordsLength(ver: Version, ecl: Ecc, data: seq<byte>)
    requires |data| == DataCodewords(ver, ecl)
    ensures FitsLayout(data, LayoutOf(ver, ecl))
    ensures |Codewords(data, LayoutOf(ver, ecl))| == RawDataModules(ver) / 8
  {
    var l := LayoutOf(ver, ecl);
    DataFitsLayout(ver, ecl, data);
    assert RawDataModules(ver) / 8 == (l.shortLen + 1) * l.numBlocks - l.numShort;
    CodewordsCount(data, l);
  }

  lemma CodewordsCount(data: seq<byte>, l: Layout)
    requires FitsLayout(data, l)
    ensures |Codewords(data, l)| == (l.shortLen + 1) * l.numBlocks - l.numShort
  {
    InterleavedLength(AllBlocks(data, l), l, l.shortLen + 1);
    ColumnStartLast(l);
  }

  /** The body of `add_ecc_and_interleave` once the table entries are read: `numShort`
      is `numblocks - rawcodewords % numblocks` and `shortLen` is
      `rawcodewords / numblocks`. */
  method EncodeBlocks(data: seq<byte>, l: Layout) returns (result: seq<byte>)
    requires FitsLayout(data, l)
    ensures |result| == (l.shortLen + 1) * l.numBlocks - l.numShort
    ensures result == Codewords(data, l)
  {
    var blocks := SplitBlocks(data, l);
    result := InterleaveBlocks(blocks, l);
    InterleavedLength(blocks, l, l.shortLen + 1);
    ColumnStartLast(l);
  }

  /** The first loop of `add_ecc_and_interleave`: cut the data into blocks and append
      to each its placeholder and its error correction codewords. */
  method SplitBlocks(data: seq<byte>, l: Layout) returns (blocks: seq<seq<byte>>)
    requires FitsLayout(data, l)
    ensures blocks == AllBlocks(data, l)
  {
    var numblocks := l.numBlocks;
    var blockecclen := l.eccLen;
    var numshortblocks := l.numShort;
    var shortblocklen := l.shortLen;

    blocks := [];
    var rsdiv := ReedSolomonComputeDivisor(blockecclen);
    assert rsdiv == Divisor(blockecclen);
    var k := 0;
    for i := 0 to numblocks
      invariant |blocks| == i && k == Offset(l, i)
      invariant forall j :: 0 <= j < i ==> blocks[j] == Block(data, l, j)
    {
      var datlen := shortblocklen - blockecclen + (if i >= numshortblocks then 1 else 0);
      OffsetMonotone(l, i, numblocks);
      OffsetStep(l, i);
      var dat := data[k .. k + datlen];
      k := k + datlen;
      var ecc := ReedSolomonComputeRemainder(dat, rsdiv);
      BlockParts(data, l, i, dat, ecc);
      if i < numshortblocks {
        dat := dat + [0];
      }
      dat := dat + ecc;
      blocks := blocks + [dat];
    }
  }

  /** The second loop of `add_ecc_and_interleave`: read the blocks out column by
      column, leaving out the placeholders of the short blocks. */
  method InterleaveBlocks(blocks: seq<seq<byte>>, l: Layout) returns (result: seq<byte>)
    requires WellShaped(blocks, l) && l.eccLen <= l.shortLen
    ensures result == Interleaved(blocks, l, l.shortLen + 1)
  {
    var numblocks := l.numBlocks;
    var blockecclen := l.eccLen;
    var numshortblocks := l.numShort;
    var shortblocklen := l.shortLen;

    result := [];
    for i := 0 to shortblocklen + 1
      invariant result == Interleaved(blocks, l, i)
    {
      for j := 0 to numblocks
        invariant result == Interleaved(blocks, l, i) + ColumnUpTo(blocks, l, i, j)
      {
        if i != shortblocklen - blockecclen || j >= numshortblocks {
          result := result + [blocks[j][i]];
        }
      }
    }
  }
}
