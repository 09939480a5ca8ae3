# QR Code symbol construction, modelled in Dafny

This project models the core of the `qrcode-lib` crate: the part that turns text or
bytes into a QR Code symbol (Model 2, versions 1 to 40, error correction levels
L/M/Q/H, mask patterns 0 to 7). It follows the crate's own pipeline:

1. **Segments** (`segment.rs`): numeric, alphanumeric, byte and ECI segments are built
   as bit strings. `make_segments` picks one mode for a whole text, and
   `get_total_bits` measures the segments for a version.
2. **Version and level choice** (`encode_segments_advanced`): the smallest version
   in range whose data capacity holds the segments is chosen. The level is then
   raised while the data still fits. The bit stream is concatenated, terminated,
   padded with `0xEC`/`0x11` and packed into bytes, big-endian.
3. **Error correction** (`add_ecc_and_interleave`): data codewords are split into
   short and long blocks. Each block gets its Reed-Solomon remainder over GF(2^8),
   reduced by `0x11D`. The blocks are then interleaved column by column.
4. **Drawing** (`encode_codewords`, `draw_*`): function patterns are drawn:
   - timing, finder and alignment patterns;
   - the BCH(15,5) format word, in two copies;
   - for versions 7 and up, the BCH(18,6) version word, in two copies.

   The codewords are then laid out in the zigzag column-pair sweep. For each of the
   eight masks the penalty score is computed. The first mask with the smallest score
   is applied, and its format bits are drawn.
5. **Base64** (`base64_encode_svg` in `examples/branded.rs`): standard base64 with
   `=` padding, behind a `data:image/svg+xml;base64,` prefix.

Each file of the model follows one stage:

- **types.dfy:** levels, versions, masks, `get_bit` and bit strings.
- **grid.dfy:** the grid of modules.
- **segment.dfy:** segments and the bit buffer.
- **tables.dfy:** the capacity tables and alignment positions.
- **planner.dfy:** the version search, the level boost and the data stream.
- **reedsolomon.dfy:** GF(2^8) and Reed-Solomon.
- **interleave.dfy:** the blocks.
- **format.dfy:** the BCH words, and polynomials over GF(2) to prove that each is a
  codeword (a multiple of its generator) with unique check bits.
- **patterns.dfy:** the function patterns as values, and the drawing steps.
- **placement.dfy:** the codeword sweep.
- **freemodules.dfy:** the count of modules the function patterns leave free.
- **masks.dfy:** the masks.
- **penalty.dfy:** the penalty score.
- **masksearch.dfy:** the mask choice.
- **qrcode.dfy:** the `QrCode` class that draws in place.
- **encoder.dfy:** the factory functions.
- **base64.dfy:** base64.

The object that the source mutates, the `QrCode` being built and the `FinderPenalty`
run history, is a Dafny `class`, and its drawing methods update its fields in
place. Each method is proved against a pure specification function: the grid after
the call equals a function of the grid before it. The properties are then proved
about those functions:

- round trips: format and version words decode back, base64 decodes back, bytes
  pack back into bits, segment payloads decode back;
- every data bit is read back from the cell that the sweep gave it, and every
  codeword bit finds a free module;
- masks are involutions;
- the chosen mask is the first minimum;
- the chosen version is the smallest that fits;
- each block followed by its ECC codewords is a multiple of the generator
  polynomial: the ECC codewords are the unique remainder of polynomial division.

## Model

| member | source | states |
|---|---|---|
| QrTypes.Ordinal | qrcode-lib/src/types.rs:26-34 | the table index of a level is below 4 |
| QrTypes.OrdinalFollowsDeclarationOrder | qrcode-lib/src/types.rs:13-34 | the ordinals are Low < Medium < Quartile < High, matching the derived ordering, and tell the levels apart |
| QrTypes.FormatBits | qrcode-lib/src/types.rs:37-45 | the format code of a level is a 2-bit value |
| QrTypes.FormatBitsBijective | qrcode-lib/src/types.rs:37-45 | the four format codes are exactly 0..3 and distinct, so the level can be read back from them |
| QrTypes.NewVersion | qrcode-lib/src/types.rs:62-65 | `Version::new` accepts exactly 1..40 and keeps the number |
| QrTypes.NewMask | qrcode-lib/src/types.rs:81-84 | `Mask::new` accepts exactly 0..7 and keeps the number |
| QrTypes.GetBitShift | qrcode-lib/src/types.rs:125-127 | `get_bit(x, i)` is the low bit of `x >> i`, i.e. of x / 2^i |
| QrTypes.ToBits | qrcode-lib/src/segment.rs:238-241 | the bits appended by `append_bits(val, len)` are exactly `len` bits long |
| QrTypes.ToBitsGetBit | qrcode-lib/src/segment.rs:240 | position k of the appended bits is `get_bit(val, len - 1 - k)`, most significant first |
| QrTypes.FromBits | qrcode-lib/src/qrcode.rs:174-177 | the big-endian value of a bit string of length k is below 2^k |
| QrTypes.FromToBits | qrcode-lib/src/segment.rs:238-241 | round trip: a value below 2^len reads back from its `len` appended bits |
| QrTypes.ToFromBits | qrcode-lib/src/segment.rs:238-241 | round trip: every bit string is the `append_bits` output of its own value |
| QrTypes.ToBitsInjective | qrcode-lib/src/segment.rs:238-241 | two values below 2^len that append the same bits are equal |
| Grids.Blank | qrcode-lib/src/qrcode.rs:198-199 | a new symbol's grid is size x size and all light |
| Grids.Set | qrcode-lib/src/qrcode.rs:269-271 | writing one module changes that cell to the new value and leaves every other cell and the shape unchanged |
| Grids.GridExt | qrcode-lib/src/qrcode.rs:265 | two grids of one size that agree on every (x, y) are the same grid |
| Segments.ModeBits | qrcode-lib/src/segment.rs:32-41 | the mode indicator fits in 4 bits |
| Segments.ModeIndicatorsDistinct | qrcode-lib/src/segment.rs:32-41 | the five mode indicators are distinct, so a reader can tell the mode from them |
| Segments.Tier | qrcode-lib/src/segment.rs:53 | `(ver + 7) / 17` is tier 0 for versions 1-9, 1 for 10-26 and 2 for 27-40 |
| Segments.CharCountBits | qrcode-lib/src/segment.rs:45-54 | the count field is at most 16 bits wide, and is empty exactly for ECI |
| Segments.CharCountBitsMonotone | qrcode-lib/src/segment.rs:45-54 | a higher version never has a narrower count field |
| Segments.BitBuffer.constructor | qrcode-lib/src/segment.rs:232 | a new bit buffer is empty |
| Segments.BitBuffer.AppendBits | qrcode-lib/src/segment.rs:238-241 | `append_bits` requires `len <= 31` and `val < 2^len`, and extends the buffer by the `len` low bits of `val`, most significant first |
| Segments.DecimalValue | qrcode-lib/src/segment.rs:105-106 | the left fold `acc * 10 + digit` of k digits is below 10^k |
| Segments.DigitsOfDecimalValue | qrcode-lib/src/segment.rs:105-106 | the fold is invertible: the k digits of a k-digit string's value are that string |
| Segments.NumericBitsLength | qrcode-lib/src/segment.rs:104-108 | a numeric segment of k digits has 10 bits per full group of three, plus 4 or 7 for a trailing group of one or two |
| Segments.ChunkFitsNumeric | qrcode-lib/src/segment.rs:107 | a value of n digits fits its `3n + 1` bit field |
| Segments.NumericChunkFits | qrcode-lib/src/segment.rs:104-107 | the value of each chunk of one to three digits fits its 4, 7 or 10 bits, as the assertion in `append_bits` demands |
| Segments.NumericBitsStep | qrcode-lib/src/segment.rs:104-108 | the bits of the text from position i are the next chunk's bits followed by the bits of the rest |
| Segments.NumericChunkStep | qrcode-lib/src/segment.rs:104-108 | appending one chunk's bits to the bits emitted so far leaves exactly the rest of the text to encode |
| Segments.NumericRoundTrip | qrcode-lib/src/segment.rs:100-110 | decoding the data bits of a numeric segment gives back its digits |
| Segments.MakeNumeric | qrcode-lib/src/segment.rs:100-110 | `make_numeric` returns a numeric segment counting the digits, whose data is the chunk encoding, which decodes back to the text |
| Segments.CharsetIndex | qrcode-lib/src/segment.rs:227 | `ALPHANUMERIC_CHARSET.find` returns the position of the character in the 45-character set, or nothing when it is absent |
| Segments.CharsetIndexUnique | qrcode-lib/src/segment.rs:227 | the 45 characters are distinct, so `find` returns the only position of a character |
| Segments.AlphanumericIsAscii | qrcode-lib/src/segment.rs:220-222 | alphanumeric text is ASCII, so testing characters (as `is_alphanumeric` does) and testing bytes (as `make_alphanumeric` does) agree |
| Segments.NumericIsAlphanumeric | qrcode-lib/src/segment.rs:138-141 | numeric text is also alphanumeric, which is why numeric mode is tried first |
| Segments.AlphanumericBitsLength | qrcode-lib/src/segment.rs:121-125 | k alphanumeric characters take 11 bits per pair plus 6 for a trailing single |
| Segments.AlnumSingle | qrcode-lib/src/segment.rs:122-123 | a one-character chunk folds to that character's index |
| Segments.AlnumPair | qrcode-lib/src/segment.rs:122-123 | a two-character chunk folds to `45 * first + second` |
| Segments.AlnumChunk | qrcode-lib/src/segment.rs:122-124 | a chunk fits its 6 or 11 bits, and reads back as its own characters |
| Segments.DecodeAlphanumericStep | qrcode-lib/src/segment.rs:121-125 | decoding reads one chunk, then decodes the rest |
| Segments.AlphanumericBitsStep | qrcode-lib/src/segment.rs:121-125 | the bits of the text from position i are the next chunk's bits followed by the bits of the rest |
| Segments.AlphanumericChunkStep | qrcode-lib/src/segment.rs:121-125 | appending one chunk's bits leaves exactly the rest of the text to encode, and the chunk fits its field |
| Segments.AlphanumericRoundTrip | qrcode-lib/src/segment.rs:118-127 | decoding the data bits of an alphanumeric segment gives back its characters |
| Segments.MakeAlphanumeric | qrcode-lib/src/segment.rs:118-127 | `make_alphanumeric` returns an alphanumeric segment counting the characters, whose data is the pair encoding |
| Segments.ByteBits | qrcode-lib/src/segment.rs:91-93 | a byte segment has exactly 8 bits per byte |
| Segments.ByteBitsStep | qrcode-lib/src/segment.rs:91-93 | the bits from byte i are that byte's 8 bits followed by the bits of the rest |
| Segments.BytesRoundTrip | qrcode-lib/src/segment.rs:89-95 | decoding the data bits of a byte segment gives back its bytes |
| Segments.MakeBytes | qrcode-lib/src/segment.rs:89-95 | `make_bytes` returns a byte segment counting the bytes, with 8 bits per byte, most significant first |
| Segments.EciRoundTrip | qrcode-lib/src/segment.rs:151-165 | an ECI designator is 8 bits below 2^7, 16 below 2^14 and 24 below 1,000,000, and its prefix `0`/`10`/`110` lets it decode back to the value |
| Segments.MakeEci | qrcode-lib/src/segment.rs:151-165 | `make_eci` returns an ECI segment with count 0 and the designator bits; values of 1,000,000 or more are refused, as the panic does |
| Segments.MakeSegments | qrcode-lib/src/segment.rs:133-147 | empty text gives no segment; otherwise exactly one segment, in the first mode among numeric, alphanumeric and byte that holds every character, counting the characters and decoding back to the text |
| Segments.TotalBitsStep | qrcode-lib/src/segment.rs:195-205 | one more segment adds `4 + width + data length` while its count fits its field, and otherwise gives None |
| Segments.GetTotalBits | qrcode-lib/src/segment.rs:193-207 | `get_total_bits` is None exactly when some segment's count is at least 2^width of its field, and otherwise is the sum of mode, count and data bits over all segments |
| Capacity.Size | qrcode-lib/src/qrcode.rs:192 | a symbol of version v is `4v + 17` modules on a side: odd, from 21 to 177 |
| Capacity.RawModulesDef | qrcode-lib/src/qrcode.rs:563-575 | the raw data module count is `(16v + 128)v + 64`, less the alignment patterns from version 2 on and a further 36 from version 7 on |
| Capacity.RawDataModulesArea | qrcode-lib/src/qrcode.rs:563-575 | that count is the symbol's area less three finders with separators and format areas, the timing lines, the alignment patterns that do not overlap timing, and the two version blocks |
| Capacity.RawDataModulesBounds | qrcode-lib/src/qrcode.rs:573 | the raw module count lies in 208..29648, as the source's debug assertion says |
| Capacity.Version1Ok | qrcode-lib/src/qrcode.rs:677-689 | at version 1 and every level, the raw module count is in 208..29648, and the ECC codewords of all blocks leave each block at least one data codeword |
| Capacity.Version2Ok | qrcode-lib/src/qrcode.rs:677-689 | at version 2 and every level, the raw module count is in 208..29648, and the ECC codewords of all blocks leave each block at least one data codeword |
| Capacity.Version3Ok | qrcode-lib/src/qrcode.rs:677-689 | at version 3 and every level, the raw module count is in 208..29648, and the ECC codewords of all blocks leave each block at least one data codeword |
| Capacity.Version4Ok | qrcode-lib/src/qrcode.rs:677-689 | at version 4 and every level, the raw module count is in 208..29648, and the ECC codewords of all blocks leave each block at least one data codeword |
| Capacity.Version5Ok | qrcode-lib/src/qrcode.rs:677-689 | at version 5 and every level, the raw module count is in 208..29648, and the ECC codewords of all blocks leave each block at least one data codeword |
| Capacity.Version6Ok | qrcode-lib/src/qrcode.rs:677-689 | at version 6 and every level, the raw module count is in 208..29648, and the ECC codewords of all blocks leave each block at least one data codeword |
| Capacity.Version7Ok | qrcode-lib/src/qrcode.rs:677-689 | at version 7 and every level, the raw module count is in 208..29648, and the ECC codewords of all blocks leave each block at least one data codeword |
| Capacity.Version8Ok | qrcode-lib/src/qrcode.rs:677-689 | at version 8 and every level, the raw module count is in 208..29648, and the ECC codewords of all blocks leave each block at least one data codeword |
| Capacity.Version9Ok | qrcode-lib/src/qrcode.rs:677-689 | at version 9 and every level, the raw module count is in 208..29648, and the ECC codewords of all blocks leave each block at least one data codeword |
| Capacity.Version10Ok | qrcode-lib/src/qrcode.rs:677-689 | at version 10 and every level, the raw module count is in 208..29648, and the ECC codewords of all blocks leave each block at least one data codeword |
| Capacity.Version11Ok | qrcode-lib/src/qrcode.rs:677-689 | at version 11 and every level, the raw module count is in 208..29648, and the ECC codewords of all blocks leave each block at least one data codeword |
| Capacity.Version12Ok | qrcode-lib/src/qrcode.rs:677-689 | at version 12 and every level, the raw module count is in 208..29648, and the ECC codewords of all blocks leave each block at least one data codeword |
| Capacity.Version13Ok | qrcode-lib/src/qrcode.rs:677-689 | at version 13 and every level, the raw module count is in 208..29648, and the ECC codewords of all blocks leave each block at least one data codeword |
| Capacity.Version14Ok | qrcode-lib/src/qrcode.rs:677-689 | at version 14 and every level, the raw module count is in 208..29648, and the ECC codewords of all blocks leave each block at least one data codeword |
| Capacity.Version15Ok | qrcode-lib/src/qrcode.rs:677-689 | at version 15 and every level, the raw module count is in 208..29648, and the ECC codewords of all blocks leave each block at least one data codeword |
| Capacity.Version16Ok | qrcode-lib/src/qrcode.rs:677-689 | at version 16 and every level, the raw module count is in 208..29648, and the ECC codewords of all blocks leave each block at least one data codeword |
| Capacity.Version17Ok | qrcode-lib/src/qrcode.rs:677-689 | at version 17 and every level, the raw module count is in 208..29648, and the ECC codewords of all blocks leave each block at least one data codeword |
| Capacity.Version18Ok | qrcode-lib/src/qrcode.rs:677-689 | at version 18 and every level, the raw module count is in 208..29648, and the ECC codewords of all blocks leave each block at least one data codeword |
| Capacity.Version19Ok | qrcode-lib/src/qrcode.rs:677-689 | at version 19 and every level, the raw module count is in 208..29648, and the ECC codewords of all blocks leave each block at least one data codeword |
| Capacity.Version20Ok | qrcode-lib/src/qrcode.rs:677-689 | at version 20 and every level, the raw module count is in 208..29648, and the ECC codewords of all blocks leave each block at least one data codeword |
| Capacity.Version21Ok | qrcode-lib/src/qrcode.rs:677-689 | at version 21 and every level, the raw module count is in 208..29648, and the ECC codewords of all blocks leave each block at least one data codeword |
| Capacity.Version22Ok | qrcode-lib/src/qrcode.rs:677-689 | at version 22 and every level, the raw module count is in 208..29648, and the ECC codewords of all blocks leave each block at least one data codeword |
| Capacity.Version23Ok | qrcode-lib/src/qrcode.rs:677-689 | at version 23 and every level, the raw module count is in 208..29648, and the ECC codewords of all blocks leave each block at least one data codeword |
| Capacity.Version24Ok | qrcode-lib/src/qrcode.rs:677-689 | at version 24 and every level, the raw module count is in 208..29648, and the ECC codewords of all blocks leave each block at least one data codeword |
| Capacity.Version25Ok | qrcode-lib/src/qrcode.rs:677-689 | at version 25 and every level, the raw module count is in 208..29648, and the ECC codewords of all blocks leave each block at least one data codeword |
| Capacity.Version26Ok | qrcode-lib/src/qrcode.rs:677-689 | at version 26 and every level, the raw module count is in 208..29648, and the ECC codewords of all blocks leave each block at least one data codeword |
| Capacity.Version27Ok | qrcode-lib/src/qrcode.rs:677-689 | at version 27 and every level, the raw module count is in 208..29648, and the ECC codewords of all blocks leave each block at least one data codeword |
| Capacity.Version28Ok | qrcode-lib/src/qrcode.rs:677-689 | at version 28 and every level, the raw module count is in 208..29648, and the ECC codewords of all blocks leave each block at least one data codeword |
| Capacity.Version29Ok | qrcode-lib/src/qrcode.rs:677-689 | at version 29 and every level, the raw module count is in 208..29648, and the ECC codewords of all blocks leave each block at least one data codeword |
| Capacity.Version30Ok | qrcode-lib/src/qrcode.rs:677-689 | at version 30 and every level, the raw module count is in 208..29648, and the ECC codewords of all blocks leave each block at least one data codeword |
| Capacity.Version31Ok | qrcode-lib/src/qrcode.rs:677-689 | at version 31 and every level, the raw module count is in 208..29648, and the ECC codewords of all blocks leave each block at least one data codeword |
| Capacity.Version32Ok | qrcode-lib/src/qrcode.rs:677-689 | at version 32 and every level, the raw module count is in 208..29648, and the ECC codewords of all blocks leave each block at least one data codeword |
| Capacity.Version33Ok | qrcode-lib/src/qrcode.rs:677-689 | at version 33 and every level, the raw module count is in 208..29648, and the ECC codewords of all blocks leave each block at least one data codeword |
| Capacity.Version34Ok | qrcode-lib/src/qrcode.rs:677-689 | at version 34 and every level, the raw module count is in 208..29648, and the ECC codewords of all blocks leave each block at least one data codeword |
| Capacity.Version35Ok | qrcode-lib/src/qrcode.rs:677-689 | at version 35 and every level, the raw module count is in 208..29648, and the ECC codewords of all blocks leave each block at least one data codeword |
| Capacity.Version36Ok | qrcode-lib/src/qrcode.rs:677-689 | at version 36 and every level, the raw module count is in 208..29648, and the ECC codewords of all blocks leave each block at least one data codeword |
| Capacity.Version37Ok | qrcode-lib/src/qrcode.rs:677-689 | at version 37 and every level, the raw module count is in 208..29648, and the ECC codewords of all blocks leave each block at least one data codeword |
| Capacity.Version38Ok | qrcode-lib/src/qrcode.rs:677-689 | at version 38 and every level, the raw module count is in 208..29648, and the ECC codewords of all blocks leave each block at least one data codeword |
| Capacity.Version39Ok | qrcode-lib/src/qrcode.rs:677-689 | at version 39 and every level, the raw module count is in 208..29648, and the ECC codewords of all blocks leave each block at least one data codeword |
| Capacity.Version40Ok | qrcode-lib/src/qrcode.rs:677-689 | at version 40 and every level, the raw module count is in 208..29648, and the ECC codewords of all blocks leave each block at least one data codeword |
| Capacity.AllVersionsOk | qrcode-lib/src/qrcode.rs:563-585 | for every version and level, the table entries describe a usable block layout and the raw module count is in range |
| Capacity.LayoutArith | qrcode-lib/src/qrcode.rs:397-404 | in a usable layout the data codewords number at least one per block and at most the raw codewords |
| Capacity.BlockLayout | qrcode-lib/src/qrcode.rs:394-404 | every version and level has a usable block layout |
| Capacity.DataCodewords | qrcode-lib/src/qrcode.rs:577-581 | `get_num_data_codewords` is at least 1, and its bits never exceed the raw data modules |
| Capacity.DataCodewordsDef | qrcode-lib/src/qrcode.rs:577-585 | the data codewords are the raw codewords less the ECC codewords per block times the number of blocks, as looked up in the tables |
| Capacity.DataCodewordsPerBlock | qrcode-lib/src/qrcode.rs:397-404 | there are at least as many data codewords as blocks, so no block has a negative data length |
| Capacity.Reverse | qrcode-lib/src/qrcode.rs:558 | `reverse` keeps the length and puts element i at position `len - 1 - i` |
| Capacity.AlignmentPatternPositions | qrcode-lib/src/qrcode.rs:548-561 | no positions for version 1; otherwise `v / 7 + 2` strictly increasing positions, from 6 to `size - 7`, evenly spaced after the first by a positive even step |
| Capacity.AscendingPositions | qrcode-lib/src/qrcode.rs:555-559 | the computed centres, downwards from `size - 7` then 6, read in reverse are ascending, bounded and evenly spaced after the first |
| Capacity.DescendingPositions | qrcode-lib/src/qrcode.rs:555-556 | the centres `size - 7 - i * step` decrease strictly and stay above 6 |
| Capacity.AlignmentStepOk | qrcode-lib/src/qrcode.rs:553-554 | from version 2 on the step is even and at least 2, and the innermost computed centre lies beyond column 6 |
| Planner.FindVersion | qrcode-lib/src/qrcode.rs:121-138 | the version loop returns the smallest version in `minversion..maxversion` whose counts fit their fields and whose bits fit the data capacity, along with the bits used; it fails exactly when no version in range fits, with `SegmentTooLong` when the counts do not fit at `maxversion` and `DataOverCapacity(used, capacity)` otherwise |
| Planner.NoneFitsExtend | qrcode-lib/src/qrcode.rs:125-137 | a version that does not fit extends the range of versions known not to fit |
| Planner.BoostEcl | qrcode-lib/src/qrcode.rs:140-145 | without `boostecl` the level is kept; with it the level becomes the strongest of Medium, Quartile and High that still holds the data, or stays when none does |
| Planner.LastFittingLevels | qrcode-lib/src/qrcode.rs:141-145 | visiting Medium, Quartile and High in turn and keeping the last that fits gives the strongest level that fits |
| Planner.BoostKeepsFit | qrcode-lib/src/qrcode.rs:140-145 | the boost never lowers the level, and data that fits at the requested level still fits at the boosted one |
| Planner.SegmentStream | qrcode-lib/src/qrcode.rs:149-153 | the stream of one segment is exactly as long as the capacity query counts: 4 + count width + data length |
| Planner.Concat | qrcode-lib/src/qrcode.rs:148-154 | the concatenated segment bits are exactly as long as `get_total_bits` says, as the debug assertion at line 154 expects |
| Planner.PadBytes | qrcode-lib/src/qrcode.rs:166-171 | n pad codewords, alternating 0xEC and 0x11 from 0xEC |
| Planner.Terminated | qrcode-lib/src/qrcode.rs:157-160 | the terminator adds zero bits without going past the capacity |
| Planner.Aligned | qrcode-lib/src/qrcode.rs:161-163 | `wrapping_neg() & 7` zero bits bring the length to the next multiple of eight, adding fewer than eight |
| Planner.AlignedFits | qrcode-lib/src/qrcode.rs:158-162 | aligning to a byte stays within a capacity of whole bytes |
| Planner.Unpadded | qrcode-lib/src/qrcode.rs:147-163 | segments, terminator and alignment make a whole number of bytes, between the segment bits and the capacity |
| Planner.DataStream | qrcode-lib/src/qrcode.rs:147-171 | the final bit stream fills the data capacity exactly and is a whole number of bytes |
| Planner.DataStreamPrefix | qrcode-lib/src/qrcode.rs:147-163 | the stream starts with the segment bits, followed only by zero bits up to the end of the alignment |
| Planner.AlignedZeros | qrcode-lib/src/qrcode.rs:156-163 | terminating and aligning keep the bits and append only zero bits |
| Planner.DataCodewordsLayout | qrcode-lib/src/qrcode.rs:147-177 | the data codewords are the packed segments, terminator and alignment, followed by the pad bytes 0xEC, 0x11, ... up to the capacity |
| Planner.Pack | qrcode-lib/src/qrcode.rs:173-177 | packing n bits gives n / 8 bytes |
| Planner.ByteBitsAt | qrcode-lib/src/qrcode.rs:176 | byte k of a byte string sits in bits 8k..8k+7, most significant first |
| Planner.PackByteBits | qrcode-lib/src/qrcode.rs:173-177 | round trip: packing the bits of bytes gives the bytes back |
| Planner.UnpackPack | qrcode-lib/src/qrcode.rs:173-177 | round trip: the bits of the packed codewords are the whole bit stream, so packing loses nothing |
| Planner.PackAppend | qrcode-lib/src/qrcode.rs:173-177 | packing a whole number of bytes followed by more bits packs each part separately |
| Planner.PackTail | qrcode-lib/src/qrcode.rs:173-177 | the codewords after the first are the packing of the bits after the first eight |
| Planner.EncodeData | qrcode-lib/src/qrcode.rs:147-177 | the data codewords are exactly `cap` bytes, the packing of the terminated, aligned and padded segment stream |
| Planner.AppendSegments | qrcode-lib/src/qrcode.rs:148-153 | the loop over segments appends each one's mode indicator, count and data, i.e. their concatenation |
| Planner.ConcatStep | qrcode-lib/src/qrcode.rs:149-153 | one more segment appends its own stream to the concatenation |
| Planner.AppendTerminator | qrcode-lib/src/qrcode.rs:156-163 | the terminator and alignment steps turn the buffer into its terminated, byte-aligned form |
| Planner.AppendPadding | qrcode-lib/src/qrcode.rs:165-171 | the padding loop appends the bits of 0xEC, 0x11, ... until the buffer fills the capacity exactly |
| Planner.PadStep | qrcode-lib/src/qrcode.rs:166-170 | each round of the cycle appends the next pad codeword |
| Planner.PackBits | qrcode-lib/src/qrcode.rs:173-177 | the packing loop, OR-ing bit i into byte `i >> 3` at weight `7 - (i & 7)`, computes the big-endian packing of the stream |
| Planner.Packed | qrcode-lib/src/qrcode.rs:174-177 | the codeword buffer midway through the packing loop has one entry per byte |
| Planner.PackedStart | qrcode-lib/src/qrcode.rs:174 | the codeword buffer starts all zero |
| Planner.PackedEnd | qrcode-lib/src/qrcode.rs:175-177 | after the last bit, the buffer is the packing of the stream |
| Planner.PackedStep | qrcode-lib/src/qrcode.rs:176 | setting bit i adds its weight to byte i / 8 only, and the byte stays below 256 |
| Planner.PackedIndex | qrcode-lib/src/qrcode.rs:175-177 | midway through, bytes before i / 8 are complete, byte i / 8 is partial and later bytes are zero |
| Planner.ByteStep | qrcode-lib/src/qrcode.rs:176 | setting bit `8q + r` into the partial byte keeps it below 256, and after bit 7 the byte is complete |
| Planner.PartialValueAt | qrcode-lib/src/qrcode.rs:176 | the partial byte holds the bits set so far at their big-endian weights |
| Planner.PartialStepAt | qrcode-lib/src/qrcode.rs:176 | the partial byte's value grows by exactly the weight of the bit just set |
| GaloisField.XorDef | qrcode-lib/src/qrcode.rs:597-611 | byte XOR is the bitwise exclusive or of the eight bits |
| GaloisField.XorGetBit | qrcode-lib/src/qrcode.rs:597-611 | bit i of `a ^ c` is set exactly when bit i is set in one operand only |
| GaloisField.XorZero | qrcode-lib/src/qrcode.rs:597-611 | 0 is neutral for field addition |
| GaloisField.XorSelf | qrcode-lib/src/qrcode.rs:608 | every element is its own additive inverse, so addition is also subtraction |
| GaloisField.XorComm | qrcode-lib/src/qrcode.rs:597-611 | field addition is commutative |
| GaloisField.XorAssoc | qrcode-lib/src/qrcode.rs:597-611 | field addition is associative |
| GaloisField.XorAcross | qrcode-lib/src/qrcode.rs:611 | a sum of four regroups freely |
| GaloisField.SelectAcross | qrcode-lib/src/qrcode.rs:621 | `bit * x` distributes over a sum, as used when a bit of y selects x |
| GaloisField.XTimeDef | qrcode-lib/src/qrcode.rs:620 | one step of `(z << 1) ^ ((z >> 7) * 0x1D)` on a `u8`: double modulo 256, then XOR 0x1D when bit 7 was set |
| GaloisField.XTimeZero | qrcode-lib/src/qrcode.rs:620 | the shift step maps 0 to 0 |
| GaloisField.XTimeLow | qrcode-lib/src/qrcode.rs:620 | below 128 the shift step doubles and does no reduction |
| GaloisField.XTimeHigh | qrcode-lib/src/qrcode.rs:620 | from 128 on bit 7 is shifted out and 0x1D is added, i.e. reduction by 0x11D |
| GaloisField.XTimeLinearLowLow | qrcode-lib/src/qrcode.rs:620 | multiplication by alpha distributes over addition when neither operand has bit 7 set |
| GaloisField.XTimeLinearHighLow | qrcode-lib/src/qrcode.rs:620 | the same when exactly one operand has bit 7 set |
| GaloisField.XTimeLinearHighHigh | qrcode-lib/src/qrcode.rs:620 | the same when both have bit 7 set: the two reductions cancel |
| GaloisField.XTimeLinear | qrcode-lib/src/qrcode.rs:620 | multiplication by alpha is linear over field addition |
| ReedSolomon.XTimesLinear | qrcode-lib/src/qrcode.rs:619-622 | multiplication by alpha^k is linear over field addition |
| ReedSolomon.XTimesSucc | qrcode-lib/src/qrcode.rs:619-622 | alpha^k times alpha times h is alpha^(k+1) times h |
| ReedSolomon.XTimesZero | qrcode-lib/src/qrcode.rs:619-622 | alpha^k times 0 is 0 |
| ReedSolomon.HornerTail | qrcode-lib/src/qrcode.rs:619-622 | the top-down accumulation of bits 7..i of y, scaled by alpha^i, equals the sum of x times alpha^j over the set bits j >= i |
| ReedSolomon.ReedSolomonMultiply | qrcode-lib/src/qrcode.rs:617-624 | `reed_solomon_multiply` returns the field product: the sum of x times alpha^j over the set bits j of y, modulo 0x11D |
| ReedSolomon.BitSumByZero | qrcode-lib/src/qrcode.rs:617-624 | no set bits of y, no terms |
| ReedSolomon.BitSumOfZero | qrcode-lib/src/qrcode.rs:617-624 | every term of 0 times a power of alpha is 0 |
| ReedSolomon.MulZero | qrcode-lib/src/qrcode.rs:617-624 | zero absorbs the product on either side |
| ReedSolomon.MulOne | qrcode-lib/src/qrcode.rs:617-624 | 1 is neutral for the product |
| ReedSolomon.MulOneLeft | qrcode-lib/src/qrcode.rs:617-624 | 1 is neutral on the left too: `reed_solomon_multiply(1, y) == y` |
| ReedSolomon.HornerOfOne | qrcode-lib/src/qrcode.rs:619-622 | with x = 1 the accumulation over the bits 7 down to i of y is y / 2^i |
| ReedSolomon.ShiftInBit | qrcode-lib/src/qrcode.rs:620-621 | one accumulation step with x = 1, doubling w / 2 and adding bit 0 of w, gives w back |
| ReedSolomon.MulTwo | qrcode-lib/src/qrcode.rs:600 | multiplying by 0x02, as the divisor loop does to advance the root, is multiplying by alpha |
| ReedSolomon.BitSumLinear | qrcode-lib/src/qrcode.rs:617-624 | each bit term distributes over field addition |
| ReedSolomon.MulDistributes | qrcode-lib/src/qrcode.rs:617-624 | the product distributes over field addition |
| ReedSolomon.Zeros | qrcode-lib/src/qrcode.rs:606 | `vec![0u8; n]` is n zeros |
| ReedSolomon.MulLinear | qrcode-lib/src/qrcode.rs:593-601 | multiplying by (x + r) raises the degree by one |
| ReedSolomon.Generator | qrcode-lib/src/qrcode.rs:587-603 | the generator of degree k, the product of (x + alpha^i) for i < k, has k + 1 coefficients and is monic |
| ReedSolomon.MulLinearMonic | qrcode-lib/src/qrcode.rs:593-601 | multiplying a monic polynomial by (x + r) keeps it monic |
| ReedSolomon.Window | qrcode-lib/src/qrcode.rs:589-590 | the divisor array of n entries holds the coefficients of x^(n-1) down to x^0 |
| ReedSolomon.DivisorStep | qrcode-lib/src/qrcode.rs:594-599 | one outer round keeps the array length |
| ReedSolomon.CoefOfMulLinear | qrcode-lib/src/qrcode.rs:594-599 | coefficient t of p(x)(x + r) is `p_t * r + p_(t-1)` |
| ReedSolomon.WindowStep | qrcode-lib/src/qrcode.rs:594-599 | the in-place round `result[j] = result[j] * root ^ result[j+1]` multiplies the polynomial held in the array by (x + root) |
| ReedSolomon.WindowStepAt | qrcode-lib/src/qrcode.rs:595-598 | entry j after the round is entry j of the window of the product |
| ReedSolomon.DivisorStepEntry | qrcode-lib/src/qrcode.rs:595-598 | entry j after the round is `entry_j * root` plus the old entry to its right, zero past the end |
| ReedSolomon.WindowOfGeneratorZero | qrcode-lib/src/qrcode.rs:589-590 | the initial array `[0, ..., 0, 1]` holds the constant polynomial 1 |
| ReedSolomon.GeneratorStep | qrcode-lib/src/qrcode.rs:593-601 | round i turns the array of the degree-i generator into that of degree i + 1 |
| ReedSolomon.WindowOfGenerator | qrcode-lib/src/qrcode.rs:587-603 | after all rounds, the array holds every generator coefficient except the leading 1 |
| ReedSolomon.DivisorRound | qrcode-lib/src/qrcode.rs:594-599 | the inner loop over j, reading each right neighbour before it is updated, computes one round |
| ReedSolomon.ReedSolomonComputeDivisor | qrcode-lib/src/qrcode.rs:587-603 | for a degree in 1..255, `reed_solomon_compute_divisor` returns `degree` coefficients which, preceded by the implicit leading 1, are the generator polynomial, the product of (x + alpha^i) for i < degree |
| ReedSolomon.RemainderStep | qrcode-lib/src/qrcode.rs:607-612 | one data byte through the division keeps the remainder length |
| ReedSolomon.RemainderFrom | qrcode-lib/src/qrcode.rs:606-614 | the remainder after any number of bytes has the divisor's length |
| ReedSolomon.Remainder | qrcode-lib/src/qrcode.rs:605-615 | the ECC codewords are as many as the divisor's coefficients |
| ReedSolomon.RemainderFromConcat | qrcode-lib/src/qrcode.rs:607-613 | dividing a concatenation continues from the first part's remainder |
| ReedSolomon.RemainderCancels | qrcode-lib/src/qrcode.rs:607-613 | feeding a remainder its own coefficients cancels them one by one |
| ReedSolomon.CodewordHasZeroRemainder | qrcode-lib/src/qrcode.rs:605-615 | a block followed by its ECC codewords, run through the same byte-by-byte division again, leaves remainder zero (the check a reader makes; that the codeword is a multiple of the generator is `CodewordIsGeneratorMultiple`) |
| ReedSolomon.PolyMulSnoc | qrcode-lib/src/qrcode.rs:605-615 | the product of q followed by f with g is x times the product of q with g, plus f times g |
| ReedSolomon.DivisionStep | qrcode-lib/src/qrcode.rs:607-612 | one loop turn (`factor = b ^ result.remove(0)`, shift, add `divisor * factor`) keeps `done(x) x^n + result(x) == q(x) (x^n + divisor(x))`, with the factor as the next quotient coefficient |
| ReedSolomon.StepEntries | qrcode-lib/src/qrcode.rs:607-612 | the bytes after one loop turn are the old ones, shifted, plus `factor` times the monic divisor, the leading coefficient cancelling to the data byte |
| ReedSolomon.DivisionFrom | qrcode-lib/src/qrcode.rs:606-614 | the loop over the data bytes keeps that identity to the end |
| ReedSolomon.DivisionIdentity | qrcode-lib/src/qrcode.rs:605-615 | division with remainder: `data(x) x^n + ecc(x) == q(x) (x^n + divisor(x))` for the remainder ecc and the quotient q, coefficient by coefficient, the product being an independent polynomial multiplication |
| ReedSolomon.ExtendPrefix | qrcode-lib/src/qrcode.rs:605-615 | appending a coefficient f to q keeps as many leading coefficients of q times a monic g as q has and adds f to the next |
| ReedSolomon.ExtendEntries | qrcode-lib/src/qrcode.rs:605-615 | adding f times a monic g at position m keeps the first m coefficients and adds f to coefficient m |
| ReedSolomon.ExtendKeeps | qrcode-lib/src/qrcode.rs:605-615 | adding a polynomial that is zero in its first m coefficients keeps those coefficients |
| ReedSolomon.PrefixStable | qrcode-lib/src/qrcode.rs:605-615 | the first k coefficients of q times a monic g depend on the first k coefficients of q only |
| ReedSolomon.EntryAt | qrcode-lib/src/qrcode.rs:605-615 | coefficient k of q times a monic g is q_k plus what the earlier coefficients of q contribute |
| ReedSolomon.XorCancel | qrcode-lib/src/qrcode.rs:610 | field addition cancels: `c + a == c + b` implies `a == b` |
| ReedSolomon.QuotientPrefix | qrcode-lib/src/qrcode.rs:605-615 | two multiples of a monic g that agree in their leading coefficients have the same quotient coefficients |
| ReedSolomon.RemainderUnique | qrcode-lib/src/qrcode.rs:605-615 | the quotient and remainder are unique: any q and r of the right lengths with `data(x) x^n + r(x) == q(x) (x^n + divisor(x))` are the ones computed, so `Remainder` is the polynomial remainder and nothing else |
| ReedSolomon.CodewordIsGeneratorMultiple | qrcode-lib/src/qrcode.rs:587-615 | with the divisor of degree n, the data followed by its ECC codewords is a multiple of the generator, the product of (x + alpha^i) for i < n: a Reed-Solomon codeword |
| ReedSolomon.ReedSolomonComputeRemainder | qrcode-lib/src/qrcode.rs:605-615 | `reed_solomon_compute_remainder` returns `Remainder(data, divisor)`, and `data(x) x^n + result(x)` is the quotient times the monic `x^n + divisor(x)`: the remainder of the division (unique by `RemainderUnique`) |
| Interleave.MakeLayout | qrcode-lib/src/qrcode.rs:394-398 | `numshortblocks = numblocks - raw % numblocks` lies in 1..numblocks, and `shortblocklen = raw / numblocks` exceeds the ECC length; the blocks cover the raw codewords exactly, and the data codewords are the data parts of all blocks |
| Interleave.LayoutOf | qrcode-lib/src/qrcode.rs:394-398 | the layout of a version and level has 7..30 ECC codewords per block and at least one short block, and its blocks cover both the raw and the data codewords exactly |
| Interleave.OffsetStep | qrcode-lib/src/qrcode.rs:404-406 | block i + 1's data starts where block i's ends (`k += datlen`) |
| Interleave.OffsetMonotone | qrcode-lib/src/qrcode.rs:404-406 | the data slices of the blocks do not overlap |
| Interleave.BlockData | qrcode-lib/src/qrcode.rs:404-405 | block i takes `shortblocklen - blockecclen` data codewords, one more in the long blocks |
| Interleave.Divisor | qrcode-lib/src/qrcode.rs:401 | the divisor of degree e has e coefficients |
| Interleave.Block | qrcode-lib/src/qrcode.rs:404-412 | every block, with its placeholder and ECC codewords, is `shortblocklen + 1` long |
| Interleave.ColumnUpTo | qrcode-lib/src/qrcode.rs:417-421 | column i of the first j blocks holds one entry per block not skipped |
| Interleave.ColumnStartStep | qrcode-lib/src/qrcode.rs:416-422 | each column adds one entry for every block but the skipped placeholders |
| Interleave.InterleavedLength | qrcode-lib/src/qrcode.rs:415-422 | the first n columns of output are as long as where column n starts |
| Interleave.ColumnUpToAt | qrcode-lib/src/qrcode.rs:417-421 | block k's entry in column i is at its index within the column |
| Interleave.InterleavedAt | qrcode-lib/src/qrcode.rs:415-423 | entry i of block j, placeholders excepted, is output at `Position(i, j)` |
| Interleave.PositionInjective | qrcode-lib/src/qrcode.rs:415-423 | distinct entries land at distinct positions; with the length, the interleaving is a permutation of the block entries other than the placeholders |
| Interleave.ColumnStartMonotone | qrcode-lib/src/qrcode.rs:416-422 | later columns start later |
| Interleave.ColumnStartLast | qrcode-lib/src/qrcode.rs:415-423 | all columns together hold `(shortblocklen + 1) * numblocks - numshortblocks` entries, i.e. every raw codeword |
| Interleave.AllBlocks | qrcode-lib/src/qrcode.rs:400-413 | every block has the interleaved length |
| Interleave.CodewordsAt | qrcode-lib/src/qrcode.rs:389-424 | entry i of block j is at `Position(i, j)` of the codeword sequence |
| Interleave.DataPlacement | qrcode-lib/src/qrcode.rs:389-424 | data codeword t of block j appears in the output at `Position(t, j)` |
| Interleave.EccPlacement | qrcode-lib/src/qrcode.rs:389-424 | ECC codeword k of block j, coefficient k of the remainder of that block's data, appears in the output at `Position(shortblocklen - blockecclen + 1 + k, j)` |
| Interleave.BlocksAreCodewords | qrcode-lib/src/qrcode.rs:401-411 | every block's data followed by its ECC codewords is a multiple of the generator of degree `blockecclen` (a Reed-Solomon codeword), and running it through the division again leaves remainder zero |
| Interleave.BlockParts | qrcode-lib/src/qrcode.rs:404-411 | a block is its data slice, a 0 placeholder if it is short, then the remainder of the slice |
| Interleave.DataFitsLayout | qrcode-lib/src/qrcode.rs:392 | data of `get_num_data_codewords` bytes fills the block layout exactly |
| Interleave.CodewordsLength | qrcode-lib/src/qrcode.rs:389-424 | the interleaved codewords of a version's data number `get_num_raw_data_modules / 8`, the length `draw_codewords` demands |
| Interleave.AddEccAndInterleave | qrcode-lib/src/qrcode.rs:389-424 | given exactly the data codewords (the source's assertion), `add_ecc_and_interleave` returns `raw / 8` codewords: the blocks' data, placeholders and ECC interleaved column by column, skipping the placeholders |
| Interleave.EncodeBlocks | qrcode-lib/src/qrcode.rs:400-423 | the two loops produce the interleaved codewords, `(shortblocklen + 1) * numblocks - numshortblocks` of them |
| Interleave.SplitBlocks | qrcode-lib/src/qrcode.rs:400-413 | the first loop cuts the data into blocks and appends the placeholder and the ECC codewords to each |
| Interleave.InterleaveBlocks | qrcode-lib/src/qrcode.rs:415-423 | the second loop reads the blocks column by column, leaving out the short blocks' placeholders |
| FormatInfo.BchStep | qrcode-lib/src/qrcode.rs:309 | one turn of `rem = (rem << 1) ^ ((rem >> deg-1) * gen)` keeps the register within `deg` bits |
| FormatInfo.GeneratorsOk | qrcode-lib/src/qrcode.rs:309 | 0x537 and 0x1F25 have their top bit at 10 and 12, as the shifts `rem >> 9` and `rem >> 11` need |
| FormatInfo.BchStepDef | qrcode-lib/src/qrcode.rs:309 | a turn of the register shifts it left and XORs the generator in when the shifted-out bit is set |
| FormatInfo.BchRemainder | qrcode-lib/src/qrcode.rs:307-310 | the register after any number of turns stays within `deg` bits (that it is the remainder of a division is BchDivision) |
| FormatInfo.BchStepBound | qrcode-lib/src/qrcode.rs:309 | the shifted-out top bit cancels the generator's top bit |
| FormatInfo.BchRemainderZero | qrcode-lib/src/qrcode.rs:307-310 | zero data gives a zero remainder |
| FormatInfo.FormatData | qrcode-lib/src/qrcode.rs:306 | `format_bits() << 3 \| mask` has five bits |
| FormatInfo.FormatDataParts | qrcode-lib/src/qrcode.rs:306 | its top two bits are the level's format bits and its low three bits are the mask |
| FormatInfo.FormatCheck | qrcode-lib/src/qrcode.rs:307-310 | the ten check bits are below 1024; FormatCodewordIsMultiple and FormatCheckUnique state what they are |
| FormatInfo.FormatCheckDef | qrcode-lib/src/qrcode.rs:307-310 | the check bits are ten turns of the register with generator 0x537, starting from the data |
| FormatInfo.FormatStep | qrcode-lib/src/qrcode.rs:308-310 | one more turn of the format loop |
| FormatInfo.FormatCodeword | qrcode-lib/src/qrcode.rs:311 | `data << 10 \| rem` has 15 bits |
| FormatInfo.FormatCodewordParts | qrcode-lib/src/qrcode.rs:311 | its top five bits are the data and its low ten bits the check bits |
| FormatInfo.FormatWord | qrcode-lib/src/qrcode.rs:305-313 | the drawn format word has 15 bits, as the debug assertion `bits >> 15 == 0` expects |
| FormatInfo.MaskFormat | qrcode-lib/src/qrcode.rs:311 | XOR with 0x5412 keeps 15 bits |
| FormatInfo.MaskFormatDef | qrcode-lib/src/qrcode.rs:311 | the mask is a bitwise XOR on 15 bits |
| FormatInfo.MaskFormatInvolution | qrcode-lib/src/qrcode.rs:311 | XOR with 0x5412 twice gives back the word, so a reader can unmask |
| FormatInfo.EccOfFormatBits | qrcode-lib/src/types.rs:37-45 | inverse of `format_bits`: defined exactly on 0..3 and gives the level with those bits |
| FormatInfo.DecodeFormatWord | qrcode-lib/src/qrcode.rs:304-313 | round trip: the reader unmasks the format word, finds its check bits equal to those it re-derives from the data bits, and gives back the level and the mask |
| FormatInfo.DecodeFormatSound | qrcode-lib/src/qrcode.rs:304-313 | any 15-bit word the reader accepts is the format word of the level and mask it returns, so the reader accepts exactly the 32 format words |
| FormatInfo.FormatWordInjective | qrcode-lib/src/qrcode.rs:304-313 | the 32 level and mask pairs give 32 distinct format words |
| FormatInfo.NatXorBits | qrcode-lib/src/qrcode.rs:309 | the loop's fixed-width XOR agrees with the XOR of polynomials over GF(2) on numbers within the width |
| FormatInfo.NatXorComm | qrcode-lib/src/qrcode.rs:309 | polynomial addition over GF(2) is commutative |
| FormatInfo.NatXorAssoc | qrcode-lib/src/qrcode.rs:309 | polynomial addition over GF(2) is associative |
| FormatInfo.NatXorLow | qrcode-lib/src/qrcode.rs:311 | `data << k \| rem` with `rem` below 2^k is `data << k` plus `rem` as polynomials |
| FormatInfo.NatXorKeepsHigh | qrcode-lib/src/qrcode.rs:309 | adding a polynomial of lower degree keeps the bit at `m` or above |
| FormatInfo.ClMulLinear | qrcode-lib/src/qrcode.rs:309 | the product over GF(2), defined without the loop, distributes over addition |
| FormatInfo.ClMulAtLeast | qrcode-lib/src/qrcode.rs:309 | a nonzero multiple of a generator of degree `deg` has degree at least `deg` |
| FormatInfo.ShlPow2 | qrcode-lib/src/qrcode.rs:311 | shifting left by `k` multiplies by 2^k |
| FormatInfo.BchTurn | qrcode-lib/src/qrcode.rs:309 | one turn keeps the division identity: shifted data plus register is a multiple of the generator |
| FormatInfo.TurnAlgebra | qrcode-lib/src/qrcode.rs:309 | the algebra of one turn: doubling both sides and adding the generator when the quotient bit is 1 |
| FormatInfo.BchDivisionStep | qrcode-lib/src/qrcode.rs:308-310 | the division identity holds after turn s + 1 when it held after turn s |
| FormatInfo.BchDivision | qrcode-lib/src/qrcode.rs:307-310 | after any number of turns, `data << steps` plus the register is the generator times the bits shifted out: the register is a remainder of polynomial division |
| FormatInfo.MultipleUnique | qrcode-lib/src/qrcode.rs:307-310 | two remainders below the generator's degree that complete the same polynomial to a multiple are equal |
| FormatInfo.BchRemainderUnique | qrcode-lib/src/qrcode.rs:307-310 | any `r` below 2^deg that completes `data << steps` to a multiple of the generator is the register's value |
| FormatInfo.FormatCodewordIsMultiple | qrcode-lib/src/qrcode.rs:306-311 | the unmasked format word `data << 10 \| rem` is a multiple of 0x537 over GF(2): a codeword of the (15, 5) BCH code |
| FormatInfo.FormatCheckUnique | qrcode-lib/src/qrcode.rs:306-311 | the ten check bits are the only ten bits that make `data << 10` plus them a multiple of 0x537 |
| FormatInfo.ComputeFormatWord | qrcode-lib/src/qrcode.rs:305-312 | the remainder loop of `draw_format_bits`, with the codeword and the XOR mask, computes the format word |
| FormatInfo.FormatCodewordMediumZero | qrcode-lib/src/qrcode.rs:305-312 | level M with mask 0 has an all-zero codeword |
| FormatInfo.MaskFormatZero | qrcode-lib/src/qrcode.rs:311 | the mask of 0 is 0x5412 |
| FormatInfo.FormatWordMediumZero | qrcode-lib/src/qrcode.rs:300-312 | the placeholder format drawn by `draw_function_patterns`, level M with mask 0, is the XOR mask 0x5412 itself |
| FormatInfo.VersionCheck | qrcode-lib/src/qrcode.rs:344-347 | the twelve check bits are below 4096; VersionWordIsMultiple and VersionCheckUnique state what they are |
| FormatInfo.VersionCheckDef | qrcode-lib/src/qrcode.rs:344-347 | they are twelve turns of the register with generator 0x1F25, starting from the version |
| FormatInfo.VersionWordDecode | qrcode-lib/src/qrcode.rs:342-350 | the version word has 18 bits, as the debug assertion expects, and its top six bits are the version number |
| FormatInfo.VersionWordIsMultiple | qrcode-lib/src/qrcode.rs:342-348 | the version word `data << 12 \| rem` is a multiple of 0x1F25 over GF(2): a codeword of the (18, 6) BCH code |
| FormatInfo.VersionCheckUnique | qrcode-lib/src/qrcode.rs:342-348 | the twelve check bits are the only twelve bits that make `ver << 12` plus them a multiple of 0x1F25 |
| FormatInfo.ComputeVersionWord | qrcode-lib/src/qrcode.rs:342-349 | the remainder loop of `draw_version` computes the 18-bit version word |
| FunctionPatterns.FormatIndex | qrcode-lib/src/qrcode.rs:315-334 | each format-area cell holds one of the 15 format bits, or is the always-dark module (index 15) |
| FunctionPatterns.VersionIndex | qrcode-lib/src/qrcode.rs:352-358 | each version-area cell holds one of the 18 version bits |
| FunctionPatterns.Paint | qrcode-lib/src/qrcode.rs:382-385 | shape only: drawing a pattern keeps the grid size x size (what it colours is stated by `FunctionPatterns.PaintAllOutside` and `Drawing.FullyPainted`) |
| FunctionPatterns.Mark | qrcode-lib/src/qrcode.rs:384 | shape only: marking keeps the grid size x size (which cells are flagged is stated by `FunctionPatterns.MarkAllCell`) |
| FunctionPatterns.PaintAll | qrcode-lib/src/qrcode.rs:275-302 | shape only: drawing in sequence keeps the grid size x size (colours: `FunctionPatterns.PaintAllOutside`, `FunctionPatterns.FormatAreaDecodes`, `FunctionPatterns.VersionAreaDecodes`) |
| FunctionPatterns.MarkAll | qrcode-lib/src/qrcode.rs:275-302 | shape only: marking in sequence keeps the grid size x size (flags: `FunctionPatterns.MarkAllCell`) |
| FunctionPatterns.PaintAllAppend | qrcode-lib/src/qrcode.rs:275-302 | drawing two lists is drawing the first, then the second |
| FunctionPatterns.MarkAllAppend | qrcode-lib/src/qrcode.rs:275-302 | the same for the function-module flags |
| FunctionPatterns.MarkAllCell | qrcode-lib/src/qrcode.rs:384 | a cell is a function module after a series of patterns exactly when it was one before, or some pattern of the series draws it |
| FunctionPatterns.PaintAllOutside | qrcode-lib/src/qrcode.rs:382-385 | a cell no pattern draws keeps its colour |
| FunctionPatterns.PaintAllCons | qrcode-lib/src/qrcode.rs:275-302 | drawing a list starting with p is drawing p, then the rest |
| FunctionPatterns.PaintAllFirst | qrcode-lib/src/qrcode.rs:275-302 | the same, for any non-empty list |
| FunctionPatterns.PaintAllShort | qrcode-lib/src/qrcode.rs:337-340 | a list of at most one pattern, such as the optional version area, draws that pattern or nothing |
| FunctionPatterns.AlignmentsFromCentres | qrcode-lib/src/qrcode.rs:289-297 | every alignment pattern drawn is centred on a pair of listed positions |
| FunctionPatterns.FinderStage | qrcode-lib/src/qrcode.rs:277-286 | the timing lines come first, then the finders at (3, 3), (size - 4, 3) and (3, size - 4) |
| FunctionPatterns.VersionStage | qrcode-lib/src/qrcode.rs:337-358 | the version area is drawn exactly from version 7 on |
| FunctionPatterns.FunctionPatternStages | qrcode-lib/src/qrcode.rs:275-302 | `draw_function_patterns` draws timing, the three finders, the alignment patterns, the format area for mask 0, then the version area, in that order |
| FunctionPatterns.Staged | qrcode-lib/src/qrcode.rs:301 | the last stage keeps the grid size x size |
| FunctionPatterns.PaintStages | qrcode-lib/src/qrcode.rs:275-302 | the drawn colours are the stages applied in order |
| FunctionPatterns.MarkStages | qrcode-lib/src/qrcode.rs:275-302 | the function flags are the stages applied in order |
| FunctionPatterns.Stages | qrcode-lib/src/qrcode.rs:275-302 | a list of four head patterns, the alignments, the format and an optional last one draws stage by stage |
| FunctionPatterns.HeadStages | qrcode-lib/src/qrcode.rs:277-286 | the first four patterns draw one after another |
| FunctionPatterns.FormatCellsIndexed | qrcode-lib/src/qrcode.rs:315-333 | both copies of every format bit lie in the format area, at that bit's index |
| FunctionPatterns.LowBits | qrcode-lib/src/types.rs:125-127 | the low k + 1 bits of w are its low k bits plus bit k at weight 2^k |
| FunctionPatterns.ReadFormatPainted | qrcode-lib/src/qrcode.rs:315-333 | either copy of the format area, painted with w, reads back as w |
| FunctionPatterns.FormatAreaDecodes | qrcode-lib/src/qrcode.rs:304-335 | a reader of either format copy recovers the level and the mask |
| FunctionPatterns.ReadVersionPainted | qrcode-lib/src/qrcode.rs:352-358 | either copy of the version area, painted with w, reads back as w |
| FunctionPatterns.VersionCellPainted | qrcode-lib/src/qrcode.rs:352-358 | bit i of the version word sits at (size - 11 + i % 3, i / 3) and at its mirror image |
| FunctionPatterns.VersionAreaDecodes | qrcode-lib/src/qrcode.rs:337-358 | both version copies read back as the version word, whose top six bits are the version number |
| Drawing.PaintedCellsDef | qrcode-lib/src/qrcode.rs:382-385 | the partial drawing invariant says: the cells selected so far have the pattern's colour and are flagged, and the others are unchanged |
| Drawing.NothingPainted | qrcode-lib/src/qrcode.rs:361-380 | before the loops have selected a cell, nothing is drawn |
| Drawing.Reselect | qrcode-lib/src/qrcode.rs:361-380 | two loop positions selecting the same cells describe the same partial drawing |
| Drawing.PaintStep | qrcode-lib/src/qrcode.rs:382-385 | `set_function_module` on the next pattern cell extends the partial drawing by that cell |
| Drawing.FullyPainted | qrcode-lib/src/qrcode.rs:361-380 | once every pattern cell is selected, the modules are the painted grid and the flags the marked grid |
| Drawing.FormatFirstStep | qrcode-lib/src/qrcode.rs:316-324 | bit i of the first copy goes to its format cell with colour `get_bit(bits, i)` |
| Drawing.FormatSecondStep | qrcode-lib/src/qrcode.rs:327-333 | bit i of the second copy goes to its format cell with colour `get_bit(bits, i)` |
| Drawing.FormatDarkStep | qrcode-lib/src/qrcode.rs:334 | the always-dark module at (8, size - 8) comes last and completes the format area |
| Drawing.VersionSteps | qrcode-lib/src/qrcode.rs:352-358 | bit i of the version word goes to (a, b) and to (b, a) |
| Drawing.VersionAllSelected | qrcode-lib/src/qrcode.rs:352-358 | after 18 rounds every version cell is drawn |
| Placement.PairMembers | qrcode-lib/src/qrcode.rs:435-445 | every cell the inner loops visit for a column pair lies in its two columns, at a step from `vert` on |
| Placement.PairInGrid | qrcode-lib/src/qrcode.rs:435-445 | the cells of a pair lie inside the symbol |
| Placement.SweepMembers | qrcode-lib/src/qrcode.rs:430-447 | the sweep never visits a column right of where it starts, and stays inside the symbol |
| Placement.SweepCons | qrcode-lib/src/qrcode.rs:431-447 | a sweep is its first column pair, with column 6 skipped to 5, then the sweep from two columns further left |
| Placement.SweepFacts | qrcode-lib/src/qrcode.rs:430-447 | the cells of a sweep lie inside the symbol |
| Placement.SymbolCells | qrcode-lib/src/qrcode.rs:430-447 | the cells `draw_codewords` visits for a symbol, in order, lie inside it |
| Placement.SweepStartNext | qrcode-lib/src/qrcode.rs:431-446 | after the first pair, the sweep goes on from a column of the right parity |
| Placement.SweepSkipsColumn6 | qrcode-lib/src/qrcode.rs:432-434 | no cell on the vertical timing line (column 6) is ever visited |
| Placement.PairCovers | qrcode-lib/src/qrcode.rs:435-445 | every cell of a pair's two columns is visited |
| Placement.SweepCovers | qrcode-lib/src/qrcode.rs:430-447 | the sweep visits every module of the symbol outside column 6 |
| Placement.PairDistinct | qrcode-lib/src/qrcode.rs:435-445 | a pair visits no cell twice |
| Placement.DistinctCons | qrcode-lib/src/qrcode.rs:430-447 | a new cell in front of distinct cells keeps them distinct |
| Placement.SweepDistinct | qrcode-lib/src/qrcode.rs:430-447 | the sweep visits no cell twice |
| Placement.DistinctAppend | qrcode-lib/src/qrcode.rs:430-447 | two disjoint distinct lists make a distinct list |
| Placement.SweepAlternates | qrcode-lib/src/qrcode.rs:438-439 | the first pair runs upwards, and successive pairs run in opposite directions |
| Placement.DataBits | qrcode-lib/src/qrcode.rs:441 | bits a..b of the codewords, bit i being `get_bit(data[i >> 3], 7 - (i & 7))` |
| Placement.PlaceOne | qrcode-lib/src/qrcode.rs:440-443 | shape only: one visited cell keeps the grid size x size (contents: `Placement.PlacedReadsBack`) |
| Placement.PlaceAll | qrcode-lib/src/qrcode.rs:431-447 | shape only: the visited cells in order keep the grid size x size (contents: `Placement.PlaceAllReadsBack`, `Placement.PlaceAllKeeps`) |
| Placement.Placed | qrcode-lib/src/qrcode.rs:426-449 | shape only: the symbol after `draw_codewords` keeps its size (contents: `Placement.PlacedReadsBack`, `QrCodes.AllCodewordBitsPlaced`) |
| Placement.PlacedDef | qrcode-lib/src/qrcode.rs:426-449 | `draw_codewords` is the placement over the symbol's sweep, from bit 0 |
| Placement.FreeCount | qrcode-lib/src/qrcode.rs:440 | the free cells among some cells are no more than the cells |
| Placement.ReadBack | qrcode-lib/src/qrcode.rs:440 | a reader following the sweep takes one bit per free cell |
| Placement.PlaceAllCons | qrcode-lib/src/qrcode.rs:431-447 | placing a cell in front of the rest is placing it, then the rest |
| Placement.PlaceStep | qrcode-lib/src/qrcode.rs:436-444 | one iteration of the inner loop places the cell at step `vert`, column `right - j`, and leaves the rest of the pair and the sweep |
| Placement.ContinuesDef | qrcode-lib/src/qrcode.rs:431-447 | the loop invariant says placing the remaining cells from here ends in the final grid |
| Placement.ContinuesStep | qrcode-lib/src/qrcode.rs:437-443 | a free module takes the next bit while bits remain, and placing goes on from the cell after it |
| Placement.ContinuesEnd | qrcode-lib/src/qrcode.rs:447-448 | with no cells left, the grid is final |
| Placement.ContinuesStart | qrcode-lib/src/qrcode.rs:429-431 | at the start, placing the whole sweep from bit 0 gives the placed symbol |
| Placement.PlaceAllKeeps | qrcode-lib/src/qrcode.rs:440 | only free cells among those visited change |
| Placement.PlaceAllCount | qrcode-lib/src/qrcode.rs:440-442 | placement takes one bit per free cell, capped at the number of bits |
| Placement.PlaceAllReadsBack | qrcode-lib/src/qrcode.rs:426-449 | over distinct cells, reading the free cells back in order yields the bits placed, in order |
| Placement.ReadsBackFree | qrcode-lib/src/qrcode.rs:440-443 | a free first cell takes the next bit, which is the first read back |
| Placement.FreeFirst | qrcode-lib/src/qrcode.rs:440-443 | a free first cell takes bit `next`, and no later distinct cell overwrites it |
| Placement.ReadsBackSkip | qrcode-lib/src/qrcode.rs:440 | a function-module first cell, or one reached with no bits left, reads back nothing placed |
| Placement.SkipFirst | qrcode-lib/src/qrcode.rs:440 | a cell that takes no bit leaves the placement state unchanged |
| Placement.ReadBackFirst | qrcode-lib/src/qrcode.rs:440 | reading back takes the first cell's colour if it is free, then reads the rest |
| Placement.DataBitsCons | qrcode-lib/src/qrcode.rs:441-442 | bit a followed by bits a + 1..b is bits a..b |
| Placement.PlacedKeeps | qrcode-lib/src/qrcode.rs:426-449 | `draw_codewords` leaves the function modules and column 6 unchanged |
| Placement.PlacedReadsBack | qrcode-lib/src/qrcode.rs:426-449 | a reader following the sweep over the free modules gets back the placed codeword bits in order, all of them when there are enough free modules |
| Placement.SymbolSweep | qrcode-lib/src/qrcode.rs:430-447 | the sweep of a symbol visits every module outside column 6 exactly once, and none in column 6 |
| Placement.SizeSweepStart | qrcode-lib/src/qrcode.rs:430 | the sweep starts at `size - 1`, an even column right of column 6 |
| Masks.Masked | qrcode-lib/src/qrcode.rs:451-468 | shape only: the grid after `apply_mask` keeps its size (contents: `Masks.MaskedCells`) |
| Masks.MaskedCells | qrcode-lib/src/qrcode.rs:454-465 | masking never changes a function module, and changes a data module exactly where the pattern's formula holds |
| Masks.MaskedTwice | qrcode-lib/src/qrcode.rs:451-467 | applying the same mask twice restores the grid, which is what lets the mask search undo each trial |
| Masks.MaskedAll | qrcode-lib/src/qrcode.rs:452-467 | once the loops have covered every row, the grid is the masked grid |
| Penalty.AddHistoryF | qrcode-lib/src/qrcode.rs:640-649 | `add_history` shifts the seven run lengths right by one and puts the new run in front, adding `qr_size` to it when the history is still empty (the light border) |
| Penalty.FinderCount | qrcode-lib/src/qrcode.rs:651-659 | `count_patterns` scores 0 to 2, and scores only when the history ends in runs n, n, 3n, n, n with n > 0 |
| Penalty.Mirror | qrcode-lib/src/qrcode.rs:655-658 | reversing the history keeps its seven entries |
| Penalty.FinderCountMirror | qrcode-lib/src/qrcode.rs:651-659 | the detector does not care which way the line is read: the two sides of the pattern swap roles |
| Penalty.TerminateCount | qrcode-lib/src/qrcode.rs:661-669 | `terminate_and_count` closes the line with a light border of `qr_size` modules and scores 0 to 2 |
| Penalty.FinderPenalty.constructor | qrcode-lib/src/qrcode.rs:633-638 | `FinderPenalty::new` keeps the (non-negative) size and starts from seven zero runs, a valid history |
| Penalty.FinderPenalty.AddHistory | qrcode-lib/src/qrcode.rs:640-649 | the in-place shift of the run-history array performs `AddHistoryF` on its contents; for a run of at most `2 * qr_size` (a line plus its border) it keeps every run within `3 * qr_size` |
| Penalty.FinderPenalty.CountPatterns | qrcode-lib/src/qrcode.rs:651-659 | `count_patterns` scores 0 to 2 and reads a unit run `rh[1]` of at most `3 * qr_size`, the bound of its `debug_assert!` |
| Penalty.FinderPenalty.TerminateAndCount | qrcode-lib/src/qrcode.rs:661-669 | for a final run no longer than the line, `terminate_and_count` on the array scores as `TerminateCount` does on its contents |
| Penalty.StepRun | qrcode-lib/src/qrcode.rs:479-495 | one module of a line keeps the seven-entry history |
| Penalty.Scan | qrcode-lib/src/qrcode.rs:475-496 | the scanner's state after a line keeps the seven-entry history |
| Penalty.LinePenaltyDef | qrcode-lib/src/qrcode.rs:475-496 | the penalty of a line is the scan's score plus N3 times the finder count at the line's end |
| Penalty.ScanBounds | qrcode-lib/src/qrcode.rs:479-495 | the scan never loses points and gains at most 83 per module, and the current run is never longer than the line |
| Penalty.LinePenaltyBounds | qrcode-lib/src/qrcode.rs:475-496 | a line scores between 0 and `83 * length + 80` |
| Penalty.ScanLine | qrcode-lib/src/qrcode.rs:476-496 | for a line no longer than the symbol, the inner loop of the row and column passes computes the run (N1 at five, +1 beyond) and finder-like (N3) penalties of one line, every run it records staying within the detector's bound |
| Penalty.Column | qrcode-lib/src/qrcode.rs:500-522 | column x lists the modules (x, 0..n) in order |
| Penalty.BlocksInRow | qrcode-lib/src/qrcode.rs:526-533 | a row has at most one uniform block per column |
| Penalty.Blocks | qrcode-lib/src/qrcode.rs:525-534 | the uniform 2x2 blocks above row k are at most `k * (n - 1)` |
| Penalty.DarkInRow | qrcode-lib/src/qrcode.rs:537 | a row has no more dark modules than modules |
| Penalty.DarkModules | qrcode-lib/src/qrcode.rs:537 | the first k rows have at most `k * n` dark modules |
| Penalty.BalanceStepsBounds | qrcode-lib/src/qrcode.rs:538-540 | with an odd module count, `((dark * 20 - total * 10).abs() + total - 1) / total - 1` lies in 0..9, as the debug assertion says |
| Penalty.DivBounds | qrcode-lib/src/qrcode.rs:539 | a numerator from total to `11 * total - 1` gives a quotient from 1 to 10 |
| Penalty.RowsPenaltyBounds | qrcode-lib/src/qrcode.rs:475-497 | the first k rows score between 0 and `k * (83n + 80)` |
| Penalty.ColumnsPenaltyBounds | qrcode-lib/src/qrcode.rs:500-522 | the first k columns score between 0 and `k * (83n + 80)` |
| Penalty.GridPenalty | qrcode-lib/src/qrcode.rs:470-544 | `get_penalty_score` returns rows + columns + N2 per uniform 2x2 block + N4 times the balance steps |
| Penalty.ScoreRows | qrcode-lib/src/qrcode.rs:475-497 | the row pass sums the line penalty of every row |
| Penalty.ScoreColumns | qrcode-lib/src/qrcode.rs:500-522 | the column pass sums the line penalty of every column |
| Penalty.CountUniformBlocks | qrcode-lib/src/qrcode.rs:525-534 | the block pass counts the 2x2 blocks of one colour |
| Penalty.BalanceRule | qrcode-lib/src/qrcode.rs:537-541 | the balance lines compute the 5% steps of dark share away from one half |
| Penalty.PenaltyScoreBounds | qrcode-lib/src/qrcode.rs:542 | for any symbol size, the score is non-negative and below `i32::MAX`, so the search's starting bound is beaten by the first mask and the sum never overflows |
| Penalty.OddSquare | qrcode-lib/src/qrcode.rs:538 | the module count of a symbol is odd |
| MaskSearch.Trial | qrcode-lib/src/qrcode.rs:211-213 | shape only: a trial (mask applied, then its format bits drawn) keeps the grid size x size (contents: `MaskSearch.TrialOutsideFormat`) |
| MaskSearch.TrialPenaltyDef | qrcode-lib/src/qrcode.rs:211-214 | a trial's penalty is the penalty score of the trial grid |
| MaskSearch.TrialPenalties | qrcode-lib/src/qrcode.rs:210-220 | the search scores all eight masks |
| MaskSearch.FirstMinimum | qrcode-lib/src/qrcode.rs:215-218 | the strict `<` comparison keeps an index among those scanned |
| MaskSearch.FirstMinimumScan | qrcode-lib/src/qrcode.rs:209-220 | the kept index holds the least entry scanned, and every earlier entry is strictly greater |
| MaskSearch.FirstMinimumIsFirst | qrcode-lib/src/qrcode.rs:209-220 | the scan keeps the first minimum, the only index with both properties |
| MaskSearch.KeptStep | qrcode-lib/src/qrcode.rs:214-218 | one turn of the search replaces the kept mask only when the new penalty is strictly smaller |
| MaskSearch.BestMaskIsFirstMinimum | qrcode-lib/src/qrcode.rs:208-222 | with no mask forced, the symbol gets a mask of least penalty over all eight, ties going to the lowest mask number |
| MaskSearch.TrialOutsideFormat | qrcode-lib/src/qrcode.rs:211-213 | a trial does not depend on what the format area held before |
| MaskSearch.UndoTrial | qrcode-lib/src/qrcode.rs:219 | applying the trial mask again undoes the trial everywhere outside the format area |
| MaskSearch.SameOutsideFormatTrans | qrcode-lib/src/qrcode.rs:210-220 | agreeing outside the format area is transitive |
| MaskSearch.MarkCoveredFormat | qrcode-lib/src/qrcode.rs:304-335 | drawing format bits where the flags already cover the format area leaves the flags unchanged |
| MaskSearch.FunctionPatternsCoverFormat | qrcode-lib/src/qrcode.rs:275-302 | after `draw_function_patterns`, every format-area module is a function module |
| MaskSearch.FormatInList | qrcode-lib/src/qrcode.rs:300 | the format area is one of the function patterns drawn |
| QrCodes.FunctionModules | qrcode-lib/src/qrcode.rs:275-302 | shape only: the function-module flags drawn by `draw_function_patterns` form a size x size grid (which cells: `FunctionPatterns.MarkAllCell`; how many stay free: `FreeModules.FunctionModulesLeaveRaw`) |
| QrCodes.Unmasked | qrcode-lib/src/qrcode.rs:199-203 | shape only: the symbol before masking (function patterns, then the interleaved codewords in the free modules) is a size x size grid (contents: `QrCodes.UnmaskedReadsBack`) |
| QrCodes.AllCodewordBitsPlaced | qrcode-lib/src/qrcode.rs:426-448 | with the function modules of its version, `draw_codewords` places exactly `8 * data.len()` bits, the count its closing debug assertion checks, and the free modules read back in sweep order begin with all of them |
| QrCodes.UnmaskedReadsBack | qrcode-lib/src/qrcode.rs:199-203 | the interleaved codewords number `get_num_raw_data_modules / 8`, and the unmasked symbol's free modules, read in sweep order, begin with every bit of every codeword |
| QrCodes.QrCode.EncodeCodewords | qrcode-lib/src/qrcode.rs:190-230 | `encode_codewords` keeps the version and level, flags exactly the function modules, uses the forced mask or else the first mask of least penalty, and its modules are the unmasked symbol with that mask applied and its format bits drawn |
| QrCodes.QrCode.DrawFunctionsAndCodewords | qrcode-lib/src/qrcode.rs:201-203 | drawing the function patterns over a blank symbol and then the codewords with their error correction gives the unmasked symbol, with the format area flagged |
| QrCodes.QrCode.CommitMask | qrcode-lib/src/qrcode.rs:222-225 | storing the mask, applying it and drawing its format bits gives the trial grid of that mask, whatever the format area held before |
| QrCodes.QrCode.SearchMask | qrcode-lib/src/qrcode.rs:208-221 | the mask loop returns the first mask of least penalty and leaves the symbol as it found it outside the format area |
| QrCodes.QrCode.ScoreMask | qrcode-lib/src/qrcode.rs:211-219 | one round applies mask m, draws its format bits, scores the symbol, and undoes the mask: the penalty is the trial penalty and lies below `i32::MAX` |
| QrCodes.QrCode.GetModule | qrcode-lib/src/qrcode.rs:259-261 | `get_module` is dark only inside the symbol, and there it is the stored colour |
| QrCodes.QrCode.SetFunctionModule | qrcode-lib/src/qrcode.rs:382-385 | `set_function_module` sets the colour of one module and flags it, and changes nothing else |
| QrCodes.QrCode.PaintModule | qrcode-lib/src/qrcode.rs:382-385 | one `set_function_module` call extends the drawn part of a pattern by the one cell it colours |
| QrCodes.QrCode.DrawFinderPattern | qrcode-lib/src/qrcode.rs:361-372 | `draw_finder_pattern` paints and flags the 9x9 finder with its separator, clipped to the symbol |
| QrCodes.QrCode.DrawAlignmentPattern | qrcode-lib/src/qrcode.rs:374-380 | `draw_alignment_pattern` paints and flags the 5x5 alignment pattern |
| QrCodes.QrCode.DrawFunctionPatterns | qrcode-lib/src/qrcode.rs:275-302 | `draw_function_patterns` paints and flags the timing lines, three finders, the alignment patterns, the format area for mask 0 and the version area, in that order |
| QrCodes.QrCode.DrawTimingPatterns | qrcode-lib/src/qrcode.rs:277-281 | the timing loop paints and flags row 6 and column 6, dark on even positions |
| QrCodes.QrCode.DrawAlignmentPatterns | qrcode-lib/src/qrcode.rs:288-296 | the alignment loops draw every pair of listed centres except the three finder corners |
| QrCodes.QrCode.DrawAlignmentRow | qrcode-lib/src/qrcode.rs:292-296 | the inner alignment loop draws the patterns of one row of centres |
| QrCodes.QrCode.DrawFormatBits | qrcode-lib/src/qrcode.rs:304-335 | `draw_format_bits` paints and flags both copies of the format word for this level and the mask, and the dark module |
| QrCodes.QrCode.DrawFirstFormatCopy | qrcode-lib/src/qrcode.rs:315-324 | the first copy puts format bits 0 to 14 around the top-left finder |
| QrCodes.QrCode.DrawFormatCorner | qrcode-lib/src/qrcode.rs:319-321 | bits 6, 7 and 8 go to (8, 7), (8, 8) and (7, 8), skipping the timing lines |
| QrCodes.QrCode.DrawSecondFormatCopy | qrcode-lib/src/qrcode.rs:326-334 | the second copy puts bits 0 to 7 along row 8 from the right edge and bits 8 to 14 down column 8 at the bottom, then the dark module at (8, size - 8) |
| QrCodes.QrCode.DrawVersion | qrcode-lib/src/qrcode.rs:337-358 | `draw_version` paints and flags both copies of the version word from version 7 on and changes nothing below it |
| QrCodes.QrCode.DrawVersionBit | qrcode-lib/src/qrcode.rs:352-357 | bit i of the version word goes to (size - 11 + i % 3, i / 3) and its mirror |
| QrCodes.QrCode.DrawCodewords | qrcode-lib/src/qrcode.rs:426-449 | `draw_codewords` gives the free modules the codeword bits in zigzag order, most significant bit first, and leaves the function modules alone; over the function modules of its version, reading the free modules back yields all `8 * data.len()` bits, so every bit was placed (the closing `debug_assert_eq!(i, data.len() * 8)`) |
| QrCodes.QrCode.DrawColumnPair | qrcode-lib/src/qrcode.rs:435-446 | one column pair takes the next bits for its free modules in its direction |
| QrCodes.QrCode.DrawPairStep | qrcode-lib/src/qrcode.rs:436-445 | one step of a pair visits the right module, then the left one |
| QrCodes.QrCode.DrawCodewordModule | qrcode-lib/src/qrcode.rs:437-444 | a module takes bit i when it is free and bits remain, and i then moves on by one |
| QrCodes.QrCode.ApplyMask | qrcode-lib/src/qrcode.rs:451-467 | `apply_mask` flips exactly the non-function modules where the mask condition holds |
| QrCodes.QrCode.GetPenaltyScore | qrcode-lib/src/qrcode.rs:470-544 | `get_penalty_score` computes the penalty of the stored modules |
| Encoder.SegmentCodewords | qrcode-lib/src/qrcode.rs:147-181 | the segment bits, terminator, bit padding and pad bytes fill exactly the data capacity of the version and level |
| Encoder.ChooseVersionAndLevel | qrcode-lib/src/qrcode.rs:123-145 | the version loop fails exactly when no version in the range holds the data, reporting `SegmentTooLong` or the over-capacity bit counts at the last version; otherwise it picks the smallest version that holds it, and the boost loop raises the level as far as the data still fits |
| Encoder.EncodeSegmentsAdvanced | qrcode-lib/src/qrcode.rs:117-184 | `encode_segments_advanced` fails exactly when no version in the range fits; otherwise the symbol has the smallest fitting version, a level no lower than asked that still fits, and encodes the packed data codewords |
| Encoder.EncodeSegments | qrcode-lib/src/qrcode.rs:99-101 | `encode_segments` is the advanced call over versions 1 to 40 with an automatic mask and boosting |
| Encoder.EncodeBinary | qrcode-lib/src/qrcode.rs:81-84 | `encode_binary` encodes one byte-mode segment of the data, with the same failure and choice rules |
| Encoder.EncodeText | qrcode-lib/src/qrcode.rs:68-71 | `encode_text` encodes the segments `make_segments` picks, with the same failure and choice rules; empty text always gives a version 1 symbol |
| Encoder.EmptyFitsFirst | qrcode-lib/src/qrcode.rs:123-130 | no segments always fit version 1 |
| Base64.AlphabetRanges | qrcode-lib/examples/branded.rs:237 | the alphabet has 64 characters: capitals, small letters, digits, `+` and `/` |
| Base64.SextetOfAlphabet | qrcode-lib/examples/branded.rs:237 | every alphabet character has its own index, and `=` is not in the alphabet |
| Base64.SextetOfChar | qrcode-lib/examples/branded.rs:237 | the index of character k is k |
| Base64.CharOfSextet | qrcode-lib/examples/branded.rs:237 | the character at the index of c is c |
| Base64.Sextets | qrcode-lib/examples/branded.rs:245-248 | the four groups of a 3-byte buffer are each below 64 |
| Base64.SextetsBigEndian | qrcode-lib/examples/branded.rs:245-248 | the four groups are the buffer's 24-bit value taken 6 bits at a time from the top |
| Base64.EncodeChunk | qrcode-lib/examples/branded.rs:239-253 | every chunk becomes four characters |
| Base64.Buffer | qrcode-lib/examples/branded.rs:240-243 | the buffer holds the chunk followed by zero bytes |
| Base64.Base64EncodeSvg | qrcode-lib/examples/branded.rs:231-257 | `base64_encode_svg` returns the data-URI prefix followed by the base64 text of the bytes |
| Base64.PushChunk | qrcode-lib/examples/branded.rs:239-253 | one turn of the chunk loop appends the chunk's four characters |
| Base64.PushSextets | qrcode-lib/examples/branded.rs:245-252 | the four pushes append the chunk's characters, with `=` for each byte the chunk lacks |
| Base64.EncodeChunkBytes | qrcode-lib/examples/branded.rs:245-252 | the chunk's characters are read from its zero-filled buffer by the shifts and masks of the source |
| Base64.EncodeLength | qrcode-lib/examples/branded.rs:239-253 | the text has four characters per started chunk of three bytes |
| Base64.ChunkPadding | qrcode-lib/examples/branded.rs:251-252 | a chunk of n bytes ends in 3 - n padding characters |
| Base64.EncodePadding | qrcode-lib/examples/branded.rs:239-253 | the text is alphabet characters followed by two `=` after a last chunk of one byte, one after a last chunk of two, none otherwise |
| Base64.ChunkAt | qrcode-lib/examples/branded.rs:239 | `chunks(3)` gives chunks of one to three bytes |
| Base64.EncodeAt | qrcode-lib/examples/branded.rs:239-253 | characters 4k to 4k + 3 of the text are those of chunk k |
| Base64.EncodeCons | qrcode-lib/examples/branded.rs:239 | the text is the first chunk's characters followed by the text of the rest |
| Base64.SextetValue | qrcode-lib/examples/branded.rs:237 | a character stands for a group below 64 |
| Base64.GroupValue | qrcode-lib/examples/branded.rs:245-248 | four characters stand for a value below 2^24 |
| Base64.ValueBytes | qrcode-lib/examples/branded.rs:245-248 | a 24-bit value splits into three bytes |
| Base64.BytesOfValue | qrcode-lib/examples/branded.rs:245-248 | three bytes come back from their 24-bit value |
| Base64.ChunkSextets | qrcode-lib/examples/branded.rs:245-248 | a chunk has four groups |
| Base64.PaddedSextets | qrcode-lib/examples/branded.rs:251-252 | the groups a padding character replaces are zero |
| Base64.ChunkCharValue | qrcode-lib/examples/branded.rs:249-252 | character j of a chunk stands for group j of the chunk |
| Base64.ChunkGroupValue | qrcode-lib/examples/branded.rs:245-252 | a chunk's four characters carry the 24-bit value of its buffer |
| Base64.ChunkGroupLength | qrcode-lib/examples/branded.rs:251-252 | the padding of a chunk's characters tells the chunk's length |
| Base64.DecodeChunk | qrcode-lib/examples/branded.rs:239-253 | decoding a chunk's characters gives the chunk back |
| Base64.DecodeEncode | qrcode-lib/examples/branded.rs:231-257 | decoding the text gives the bytes back, so the encoding loses nothing |
| FreeModules.FunctionModulesLeaveRaw | qrcode-lib/src/qrcode.rs:563-575 | once `draw_function_patterns` has run, the modules the `draw_codewords` sweep finds not flagged as function modules number at least `get_num_raw_data_modules(ver)`, so a data array of `raw / 8` codewords always has a module for each of its bits |
| FreeModules.FunctionPatternsBound | qrcode-lib/src/qrcode.rs:275-302 | the function modules off the timing lines are at most `(size - 1) + 161 + align + 31 + (36 from version 7)`, summed over the timing row, the three finders, the alignment patterns, the format bits and the version blocks |
| FreeModules.FinderStageBound | qrcode-lib/src/qrcode.rs:277-286 | the timing row and the three finder patterns with their separators add `size - 1`, 7 x 7, 8 x 7 and 7 x 8 cells off the timing column |
| FreeModules.AlignmentsOfVersion | qrcode-lib/src/qrcode.rs:288-297 | the alignment patterns a version draws (the three finder corners skipped) cover at most `25 * numalign^2 - 10 * numalign - 55` cells off the timing lines, the figure `get_num_raw_data_modules` subtracts, and none from version 1 |
| FreeModules.AlignTotal | qrcode-lib/src/qrcode.rs:567-568 | for 2 to 7 alignment centres the weights of the drawn alignment patterns add up to `25 * (na^2 - 3) - 10 * (na - 2)`, which is `(25 * na - 10) * na - 55` |
| FreeModules.AlignmentsBound | qrcode-lib/src/qrcode.rs:291-297 | every alignment pattern the nested loop draws is bounded by its weight: 5 x 5, 4 x 5 beside a timing line, none at a finder corner |
| FreeModules.PositionsOff6 | qrcode-lib/src/qrcode.rs:548-560 | the first alignment centre is 6 and no other one is, so only the first row and column of patterns meet a timing line |
| FreeModules.LastStagesBound | qrcode-lib/src/qrcode.rs:300-301 | the format bits take 31 cells off the timing lines, and the version blocks 36 from version 7 on and none before |
| FreeModules.PartCovers | qrcode-lib/src/qrcode.rs:361-380 | every cell off the timing lines that a timing, finder or alignment pattern (or the format or version area) colours lies in that pattern's rectangle |
| FreeModules.FormatPartCovers | qrcode-lib/src/qrcode.rs:304-335 | every cell the format bits and the dark module occupy, off the timing lines, lies in the five strips beside the finders |
| FreeModules.VersionPartCovers | qrcode-lib/src/qrcode.rs:337-358 | every cell the version bits occupy lies in the two 3 x 6 blocks beside the top-right and bottom-left finders |
| FreeModules.PartCard | qrcode-lib/src/qrcode.rs:361-380 | the rectangle of a pattern, clipped to the symbol, holds no more cells than its bound |
| FreeModules.FormatPartCard | qrcode-lib/src/qrcode.rs:304-335 | the format area holds at most 31 cells off the timing lines (15 bits twice and the dark module) |
| FreeModules.VersionPartCard | qrcode-lib/src/qrcode.rs:337-358 | the version area holds at most 36 cells (18 bits twice) |
| FreeModules.CoverCard | qrcode-lib/src/qrcode.rs:275-302 | the union of the rectangles of a list of patterns holds no more cells than their bounds add up to |
| FreeModules.CoverHas | qrcode-lib/src/qrcode.rs:275-302 | a cell off the timing lines that any pattern of the list colours is in the union of their rectangles |
| FreeModules.FlaggedInCover | qrcode-lib/src/qrcode.rs:437-440 | every module the `draw_codewords` sweep visits that is flagged as a function module lies in the union of the patterns' rectangles |
| FreeModules.FlaggedCovered | qrcode-lib/src/qrcode.rs:437-440 | the same for one visited module |
| FreeModules.FreeAtLeast | qrcode-lib/src/qrcode.rs:437-441 | when the flagged cells among distinct visited cells all lie in a set s, at least the number visited minus the size of s are free |
| FreeModules.SweepLength | qrcode-lib/src/qrcode.rs:429-446 | the sweep from column pair `right` visits `size` cells in every column from 0 to `right` but column 6 |
| FreeModules.CellCount | qrcode-lib/src/qrcode.rs:429-446 | the whole sweep visits `size * (size - 1)` cells: every module outside column 6 |
| FreeModules.FreePlusMarked | qrcode-lib/src/qrcode.rs:429-446 | every cell of the sweep is either free or in the cover of the function patterns, whose size is at most the sum of their bounds |

## Left out

- Rendering, the user interface and I/O are not part of this model. That covers `render.rs` and `fancy.rs` (SVG, ASCII and debug rendering, with `f32` geometry), the `qrcode-app` crate (its UI, downloads and clipboard), `lib.rs` (only re-exports), and the example programs apart from `base64_encode_svg`. `save_svg` and the rest of `examples/branded.rs` write files and print. The identical copy of `base64_encode_svg` in `qrcode-app/src/components/home.rs` is modelled once, as `Base64.Base64EncodeSvg`.
- The getters `version`, `size`, `error_correction_level` and `mask` return fields. In the model those are fields of `QrCodes.QrCode` and are read directly.
- The grid is a sequence of rows indexed `[y][x]`. The source uses one flat vector indexed `y * size + x`. The colours and flags are the same, but the model does not capture the index arithmetic.
- `encode_codewords` ends by clearing `isfunction` and shrinking it. That only frees memory, so the model keeps the flags, and the constructor's contract speaks about them.
- Integer widths are not modelled. The source works in `i32`, `u8`, `u32` and `usize`, and the model uses unbounded integers with explicit ranges. The `checked_add` in `get_total_bits` becomes a plain sum: it reports `None` only on a `usize` overflow, which needs more input than a symbol can hold. The `u8` shifts and masks of `reed_solomon_multiply` and `base64_encode_svg` are written as division and remainder by powers of two.
- Text (`&str`) is modelled as its UTF-8 bytes. The numeric and alphanumeric character sets are ASCII, so testing the characters and testing the bytes agree.
- Panics (`assert!`, `expect`, `unwrap` on an impossible case) become preconditions. This covers the range checks of `Version::new`, `Mask::new` and `make_eci`, the character checks of `make_numeric` and `make_alphanumeric`, the length checks of `add_ecc_and_interleave` and `draw_codewords`, the width check of `append_bits`, and `minversion <= maxversion`.
- `debug_assert!`s are proved as contracts or lemmas, except the bound noted for `Penalty.PenaltyScoreBounds` below. The count check at the end of `draw_codewords` is `QrCodes.AllCodewordBitsPlaced`, and the run bound in `count_patterns` is a postcondition of `Penalty.FinderPenalty.CountPatterns`.
- Kanji mode is a mode with its indicator and count widths, as in the source. The source offers no constructor for Kanji segments, so the model has none either.
- The penalty loops and `add_ecc_and_interleave` are methods over the grid and the codewords. They are not members of `QrCode`, because they only read the symbol. `QrCode.GetPenaltyScore` connects the class to them.
- The upward test `(right + 1) & 2 == 0` in `draw_codewords` is written as `(right + 1) % 4 < 2`, which is the same for the non-negative `right` the loop uses.
- The documented capacity guarantees are not modelled: at most 738 characters of text, or 2953 bytes, at level L. They appear only in comments; the model proves the exact fit test instead.
- Penalty.PenaltyScoreBounds: states `0 <= score < i32::MAX`, which is what the mask search and the `i32` sum need. It does not state the source's tighter debug bound of 2568888, because the per-line bound the proof uses is too coarse to reach it.
- FreeModules.FunctionModulesLeaveRaw: proves that at least `get_num_raw_data_modules` modules are free, which is what `draw_codewords` needs to place every bit. It does not prove that the count is exact, so the model does not state that only the 0 to 7 remainder modules are left without a bit.
