/** The first half of `encode_segments_advanced` (qrcode-lib/src/qrcode.rs): choosing
    the smallest version that holds the segments, raising the error correction level
    while the data still fits, and assembling the data codewords (segment bits,
    terminator, alignment to a byte, alternating pad bytes, packing into bytes). */
module Planner {
  import opened QrTypes
  import opened Segments
  import opened Capacity

  /*---- Version selection ----*/

  /** The segments fit `ver` at level `ecl`: every character count fits its field and
      the bits fit the data codewords. */
  predicate Fits(segs: seq<Segment>, ver: Version, ecl: Ecc)
  {
    TotalBits(segs, ver).Some? && TotalBits(segs, ver).value <= 8 * DataCodewords(ver, ecl)
  }

  /** The error reported when the largest allowed version does not hold the segments:
      a character count too large for its field, or the bits used against the bits
      available. */
  function TooLong(segs: seq<Segment>, maxv: Version, ecl: Ecc): DataTooLong
  {
    match TotalBits(segs, maxv)
    case None => SegmentTooLong
    case Some(n) => DataOverCapacity(n, 8 * DataCodewords(maxv, ecl))
  }

  /** The version loop: the smallest version in `minv .. maxv` that holds the
      segments, with the number of bits they use there; an error exactly when no
      version in the range holds them. The assertion of the source on the range is
      the precondition. */
  method FindVersion(segs: seq<Segment>, ecl: Ecc, minv: Version, maxv: Version)
    returns (r: Result<Version, DataTooLong>, used: nat)
    requires minv <= maxv
    ensures r.Ok? ==> minv <= r.value <= maxv && Fits(segs, r.value, ecl)
    ensures r.Ok? ==> TotalBits(segs, r.value) == Some(used)
    ensures r.Ok? ==> forall v: Version :: minv <= v < r.value ==> !Fits(segs, v, ecl)
    ensures r.Err? <==> forall v: Version :: minv <= v <= maxv ==> !Fits(segs, v, ecl)
    ensures r.Err? ==> r.error == TooLong(segs, maxv, ecl)
  {
    var version := minv;
    while true
      invariant minv <= version <= maxv
      invariant forall v: Version :: minv <= v < version ==> !Fits(segs, v, ecl)
      decreases maxv - version
    {
      var datacapacitybits := DataCodewords(version, ecl) * 8;
      var dataused := GetTotalBits(segs, version);
      if dataused.Some? && dataused.value <= datacapacitybits {
        assert Fits(segs, version, ecl);
        return Ok(version), dataused.value;
      }
      assert !Fits(segs, version, ecl);
      NoneFitsExtend(segs, ecl, minv, version);
      if version >= maxv {
        assert version == maxv && dataused == TotalBits(segs, maxv);
        var err := match dataused
          case None => SegmentTooLong
          case Some(n) => DataOverCapacity(n, datacapacitybits);
        return Err(err), 0;
      }
      version := NewVersion(version + 1);
    }
  }

  /** One more version that does not hold the segments. */
  lemma NoneFitsExtend(segs: seq<Segment>, ecl: Ecc, minv: Version, ver: Version)
    requires forall v: Version :: minv <= v < ver ==> !Fits(segs, v, ecl)
    requires !Fits(segs, ver, ecl)
    ensures forall v: Version :: minv <= v <= ver ==> !Fits(segs, v, ecl)
  {
  }

  /*---- Error correction boost ----*/

  /** The strongest of Medium, Quartile and High whose data codewords still hold
      `used` bits at `ver`, or `ecl` when none of them does. */
  function Boosted(used: nat, ver: Version, ecl: Ecc): Ecc
  {
    if used <= 8 * DataCodewords(ver, High) then High
    else if used <= 8 * DataCodewords(ver, Quartile) then Quartile
    else if used <= 8 * DataCodewords(ver, Medium) then Medium
    else ecl
  }

  /** The level after the boost loop has looked at `levels`: the last of them that
      holds the data, or `ecl`. */
  function LastFitting(used: nat, ver: Version, levels: seq<Ecc>, ecl: Ecc): Ecc
  {
    if levels == [] then ecl
    else if used <= 8 * DataCodewords(ver, levels[|levels| - 1]) then levels[|levels| - 1]
    else LastFitting(used, ver, levels[..|levels| - 1], ecl)
  }

  /** The boost loop: with `boostecl` the level becomes the strongest one that still
      holds the data, otherwise it stays. The version is an input and is not changed. */
  method BoostEcl(used: nat, ver: Version, ecl: Ecc, boostecl: bool) returns (e: Ecc)
    ensures !boostecl ==> e == ecl
    ensures boostecl ==> e == Boosted(used, ver, ecl)
  {
    e := ecl;
    var levels := [Medium, Quartile, High];
    for i := 0 to |levels|
      invariant e == if boostecl then LastFitting(used, ver, levels[..i], ecl) else ecl
    {
      assert levels[..i + 1][..i] == levels[..i];
      var newecl := levels[i];
      if boostecl && used <= DataCodewords(ver, newecl) * 8 {
        e := newecl;
      }
    }
    assert levels[..3] == levels;
    LastFittingLevels(used, ver, ecl);
  }

  /** Looking at Medium, Quartile and High in turn leaves the strongest that fits. */
  lemma LastFittingLevels(used: nat, ver: Version, ecl: Ecc)
    ensures LastFitting(used, ver, [Medium, Quartile, High], ecl) == Boosted(used, ver, ecl)
  {
    var levels := [Medium, Quartile, High];
    assert levels[..2] == [Medium, Quartile];
    assert [Medium, Quartile][..1] == [Medium];
    assert [Medium][..0] == [];
    assert LastFitting(used, ver, [], ecl) == ecl;
    var m := LastFitting(used, ver, [Medium], ecl);
    assert m == if used <= 8 * DataCodewords(ver, Medium) then Medium else ecl;
    var q := LastFitting(used, ver, [Medium, Quartile], ecl);
    assert q == if used <= 8 * DataCodewords(ver, Quartile) then Quartile else m;
  }

  /** The boost never lowers the level and never loses the data: if the data fits at
      `ecl`, it fits at the boosted level, which is at least `ecl`. */
  lemma BoostKeepsFit(used: nat, ver: Version, ecl: Ecc)
    requires used <= 8 * DataCodewords(ver, ecl)
    ensures used <= 8 * DataCodewords(ver, Boosted(used, ver, ecl))
    ensures Ordinal(ecl) <= Ordinal(Boosted(used, ver, ecl))
  {
  }

  /*---- Data bit stream ----*/

  /** The bits of one segment: its 4-bit mode indicator, its character count in the
      width of the version's count field, then its data bits. */
  function SegmentStream(seg: Segment, ver: Version): (r: seq<bool>)
    ensures |r| == SegmentBits(seg, ver)
  {
    ToBits(ModeBits(seg.mode), 4) + ToBits(seg.numChars, CharCountBits(seg.mode, ver)) + seg.data
  }

  /** All segments one after the other, as long as the capacity query says. */
  function Concat(segs: seq<Segment>, ver: Version): (r: seq<bool>)
    ensures |r| == SumBits(segs, ver)
  {
    if segs == [] then [] else Concat(segs[..|segs| - 1], ver) + SegmentStream(segs[|segs| - 1], ver)
  }

  /** The pad codewords: 0xEC and 0x11 in turn, starting with 0xEC. */
  function PadBytes(n: nat): (r: seq<byte>)
    ensures |r| == n
  {
    seq(n, k => if k % 2 == 0 then 0xEC else 0x11)
  }

  /** The segment bits followed by the terminator: up to four zero bits, fewer only
      when the capacity ends sooner. */
  function Terminated(bits: seq<bool>, capbits: nat): (r: seq<bool>)
    requires |bits| <= capbits
    ensures |bits| <= |r| <= capbits
  {
    bits + ToBits(0, Min(4, capbits - |bits|))
  }

  /** Zero bits up to the next multiple of eight. */
  function Aligned(bits: seq<bool>): (r: seq<bool>)
    ensures |r| % 8 == 0 && |bits| <= |r| < |bits| + 8
  {
    bits + ToBits(0, (8 - |bits| % 8) % 8)
  }

  /** The data bit stream for `cap` data codewords: segments, terminator, alignment,
      then pad bytes until the capacity is reached. */
  function DataStream(segs: seq<Segment>, ver: Version, cap: nat): (r: seq<bool>)
    requires SumBits(segs, ver) <= 8 * cap
    ensures |r| == 8 * cap && |r| % 8 == 0
  {
    var a := Unpadded(segs, ver, cap);
    a + ByteBits(PadBytes(cap - |a| / 8))
  }

  /** The stream before the pad bytes: segments, terminator and alignment, a whole
      number of bytes within the capacity. */
  function Unpadded(segs: seq<Segment>, ver: Version, cap: nat): (a: seq<bool>)
    requires SumBits(segs, ver) <= 8 * cap
    ensures |a| % 8 == 0 && |Concat(segs, ver)| <= |a| <= 8 * cap
  {
    AlignedFits(|Terminated(Concat(segs, ver), 8 * cap)|, cap);
    Aligned(Terminated(Concat(segs, ver), 8 * cap))
  }

  /** Rounding up to a multiple of eight stays within a capacity of whole bytes. */
  lemma AlignedFits(n: nat, cap: nat)
    requires n <= 8 * cap
    ensures n + (8 - n % 8) % 8 <= 8 * cap
  {
  }

  /** The bytes whose bits, most significant first, are `bits`. */
  function Pack(bits: seq<bool>): (r: seq<byte>)
    requires |bits| % 8 == 0
    ensures |r| == |bits| / 8
  {
    seq(|bits| / 8, k requires 0 <= k < |bits| / 8 => PackByte(bits, k))
  }

  /** Byte k of a bit string: bits 8k to 8k + 7, most significant first. */
  function PackByte(bits: seq<bool>, k: nat): (r: byte)
    requires 8 * k + 8 <= |bits|
  {
    Pow2Eight();
    FromBits(bits[8 * k .. 8 * k + 8])
  }

  lemma Pow2Eight()
    ensures Pow2(8) == 256
  {
    assert Pow2(4) == 16;
  }

  lemma ByteBitsAppend(d: seq<byte>, x: byte)
    ensures ByteBits(d + [x]) == ByteBits(d) + ToBits(x, 8)
    decreases |d|
  {
    if d != [] {
      assert (d + [x])[1..] == d[1..] + [x];
      ByteBitsAppend(d[1..], x);
    }
  }

  /** Byte k of the bits of `d` is the eight bits at 8k. */
  lemma {:induction false} ByteBitsAt(d: seq<byte>, k: nat)
    requires k < |d|
    ensures ByteBits(d)[8 * k .. 8 * k + 8] == ToBits(d[k], 8)
  {
    var first := ToBits(d[0], 8);
    assert ByteBits(d) == first + ByteBits(d[1..]);
    if k > 0 {
      ByteBitsAt(d[1..], k - 1);
      BitsAfter(first, ByteBits(d[1..]), 8 * k, 8 * k + 8);
    } else {
      assert ByteBits(d)[..8] == first;
    }
  }

  lemma BitsAfter(head: seq<bool>, tail: seq<bool>, i: nat, j: nat)
    requires |head| <= i <= j <= |head| + |tail|
    ensures (head + tail)[i..j] == tail[i - |head| .. j - |head|]
  {
  }

  /** Unpacking then packing is the identity on bytes. */
  lemma PackByteBits(d: seq<byte>)
    ensures Pack(ByteBits(d)) == d
  {
    Pow2Eight();
    forall k | 0 <= k < |d|
      ensures Pack(ByteBits(d))[k] == d[k]
    {
      ByteBitsAt(d, k);
      FromToBits(d[k], 8);
    }
  }

  /** Packing a whole number of bytes followed by more bits packs each part. */
  lemma PackAppend(a: seq<bool>, b: seq<bool>)
    requires |a| % 8 == 0 && |b| % 8 == 0
    ensures Pack(a + b) == Pack(a) + Pack(b)
  {
    var p := Pack(a + b);
    var na := |a| / 8;
    assert |a| == 8 * na;
    forall k | 0 <= k < |p|
      ensures p[k] == (Pack(a) + Pack(b))[k]
    {
      if k < na {
        BitsBefore(a, b, 8 * k, 8 * k + 8);
        assert p[k] == PackByte(a, k);
      } else {
        var k2 := k - na;
        BitsAfter(a, b, 8 * k, 8 * k + 8);
        assert 8 * k - |a| == 8 * k2;
        assert p[k] == PackByte(b, k2);
      }
    }
  }

  lemma BitsBefore(head: seq<bool>, tail: seq<bool>, i: nat, j: nat)
    requires i <= j <= |head|
    ensures (head + tail)[i..j] == head[i..j]
  {
  }

  /** The data codewords: the packed segments, terminator and alignment, then the
      pad bytes 0xEC, 0x11, 0xEC, ... up to the capacity. */
  lemma DataCodewordsLayout(segs: seq<Segment>, ver: Version, cap: nat)
    requires SumBits(segs, ver) <= 8 * cap
    ensures var a := Unpadded(segs, ver, cap);
            Pack(DataStream(segs, ver, cap)) == Pack(a) + PadBytes(cap - |a| / 8)
  {
    var a := Unpadded(segs, ver, cap);
    PackAppend(a, ByteBits(PadBytes(cap - |a| / 8)));
    PackByteBits(PadBytes(cap - |a| / 8));
  }

  /** The stream starts with the segment bits, then the terminator's zero bits
      (four, or as many as the capacity leaves), then zero bits up to a byte. */
  lemma DataStreamPrefix(segs: seq<Segment>, ver: Version, cap: nat)
    requires SumBits(segs, ver) <= 8 * cap
    ensures var s := DataStream(segs, ver, cap);
            var n := |Concat(segs, ver)|;
            s[..n] == Concat(segs, ver) &&
            forall i :: n <= i < |Unpadded(segs, ver, cap)| ==> !s[i]
  {
    var bits := Concat(segs, ver);
    var a := Unpadded(segs, ver, cap);
    AlignedZeros(bits, 8 * cap);
    var s := DataStream(segs, ver, cap);
    assert s == a + ByteBits(PadBytes(cap - |a| / 8));
    assert s[..|a|] == a;
  }

  /** Terminating and aligning appends zero bits only. */
  lemma AlignedZeros(bits: seq<bool>, capbits: nat)
    requires |bits| <= capbits
    ensures var a := Aligned(Terminated(bits, capbits));
            a[..|bits|] == bits && forall i :: |bits| <= i < |a| ==> !a[i]
  {
    var n := |bits|;
    var tb := Terminated(bits, capbits);
    var t := |tb|;
    var a := Aligned(tb);
    forall i | n <= i < |a|
      ensures !a[i]
    {
      if i < t {
        ToBitsZero(Min(4, capbits - n), i - n);
      } else {
        ToBitsZero((8 - t % 8) % 8, i - t);
      }
    }
  }

  /** Every bit of the bit string of 0 is clear. */
  lemma ToBitsZero(len: nat, k: nat)
    requires k < len
    ensures !ToBits(0, len)[k]
  {
    ToBitsGetBit(0, len, k);
    GetBitShift(0, len - 1 - k);
  }

  /** Packing loses nothing: the bits of the data codewords are the whole stream. */
  lemma {:induction false} UnpackPack(bits: seq<bool>)
    requires |bits| % 8 == 0
    ensures ByteBits(Pack(bits)) == bits
    decreases |bits|
  {
    if bits != [] {
      var p := Pack(bits);
      Pow2Eight();
      assert p[0] == FromBits(bits[..8]);
      ToFromBits(bits[..8]);
      PackTail(bits);
      UnpackPack(bits[8..]);
      assert bits == bits[..8] + bits[8..];
    }
  }

  lemma PackTail(bits: seq<bool>)
    requires |bits| % 8 == 0 && bits != []
    ensures Pack(bits)[1..] == Pack(bits[8..])
  {
    forall k | 0 <= k < |bits| / 8 - 1
      ensures Pack(bits)[1..][k] == Pack(bits[8..])[k]
    {
      assert bits[8..][8 * k .. 8 * k + 8] == bits[8 * (k + 1) .. 8 * (k + 1) + 8];
    }
  }

  /*---- Assembly ----*/

  /** The terminator, the alignment and the padding of `encode_segments_advanced`,
      then the packing of the bits into `cap` data codewords; `cap` is the data
      codeword count of the chosen version and level. */
  method EncodeData(segs: seq<Segment>, ver: Version, cap: nat) returns (codewords: seq<byte>)
    requires TotalBits(segs, ver).Some? && SumBits(segs, ver) <= 8 * cap
    ensures |codewords| == cap
    ensures codewords == Pack(DataStream(segs, ver, cap))
  {
    var bb := new BitBuffer();
    AppendSegments(bb, segs, ver);
    assert bb.bits == Concat(segs, ver);
    AppendTerminator(bb, cap);
    assert bb.bits == Unpadded(segs, ver, cap);
    AppendPadding(bb, cap);
    assert bb.bits == DataStream(segs, ver, cap);
    codewords := PackBits(bb.bits);
  }

  /** The terminator and the alignment of `encode_segments_advanced`: up to four zero
      bits within the capacity, then zero bits up to a byte boundary. */
  method AppendTerminator(bb: BitBuffer, cap: nat)
    requires |bb.bits| <= 8 * cap
    modifies bb
    ensures bb.bits == Aligned(Terminated(old(bb.bits), 8 * cap))
  {
    var datacapacitybits := cap * 8;
    var numzerobits := Min(4, datacapacitybits - |bb.bits|);
    bb.AppendBits(0, numzerobits);
    ghost var t := bb.bits;
    assert t == Terminated(old(bb.bits), datacapacitybits);
    numzerobits := (8 - |bb.bits| % 8) % 8;
    bb.AppendBits(0, numzerobits);
  }

  /** The padding loop of `encode_segments_advanced`: 0xEC and 0x11 in turn until
      the bit stream fills the `cap` data codewords. */
  method AppendPadding(bb: BitBuffer, cap: nat)
    requires |bb.bits| % 8 == 0 && |bb.bits| <= 8 * cap
    modifies bb
    ensures bb.bits == old(bb.bits) + ByteBits(PadBytes(cap - |old(bb.bits)| / 8))
    ensures |bb.bits| == 8 * cap
  {
    ghost var a := bb.bits;
    ghost var m := |a| / 8;
    assert |a| == 8 * m && m <= cap;
    var datacapacitybits := cap * 8;
    var padcount := 0;
    while |bb.bits| < datacapacitybits
      invariant bb.bits == a + ByteBits(PadBytes(padcount))
      invariant |bb.bits| == 8 * (m + padcount) && m + padcount <= cap
      decreases datacapacitybits - |bb.bits|
    {
      var padbyte: byte := if padcount % 2 == 0 then 0xEC else 0x11;
      Pow2Eight();
      PadStep(a, padcount);
      bb.AppendBits(padbyte, 8);
      padcount := padcount + 1;
    }
    assert padcount == cap - m;
  }

  /** The concatenation loop of `encode_segments_advanced`: for each segment its mode
      indicator, its character count and its data bits. Every count fits its field,
      as the capacity query found. */
  method AppendSegments(bb: BitBuffer, segs: seq<Segment>, ver: Version)
    requires TotalBits(segs, ver).Some?
    modifies bb
    ensures bb.bits == old(bb.bits) + Concat(segs, ver)
  {
    ghost var start := bb.bits;
    for i := 0 to |segs|
      invariant bb.bits == start + Concat(segs[..i], ver)
    {
      var seg := segs[i];
      ghost var before := bb.bits;
      assert FitsCountField(seg, ver);
      assert Pow2(4) == 16;
      bb.AppendBits(ModeBits(seg.mode), 4);
      bb.AppendBits(seg.numChars, CharCountBits(seg.mode, ver));
      bb.bits := bb.bits + seg.data;
      AppendThree(before, ToBits(ModeBits(seg.mode), 4), ToBits(seg.numChars, CharCountBits(seg.mode, ver)), seg.data);
      ConcatStep(segs, i, ver);
      assert bb.bits == before + SegmentStream(seg, ver);
      AppendTwo(start, Concat(segs[..i], ver), SegmentStream(seg, ver));
    }
    assert segs[..|segs|] == segs;
  }

  /** Appending the segments one by one builds their concatenation. */
  lemma ConcatStep(segs: seq<Segment>, i: nat, ver: Version)
    requires i < |segs|
    ensures Concat(segs[..i + 1], ver) == Concat(segs[..i], ver) + SegmentStream(segs[i], ver)
  {
    assert segs[..i + 1][..i] == segs[..i];
  }

  lemma AppendTwo(p: seq<bool>, a: seq<bool>, b: seq<bool>)
    ensures p + a + b == p + (a + b)
  {
  }

  lemma AppendThree(p: seq<bool>, a: seq<bool>, b: seq<bool>, c: seq<bool>)
    ensures p + a + b + c == p + (a + b + c)
  {
  }

  /** One more pad byte: the bits of the next pad codeword follow. */
  lemma PadStep(a: seq<bool>, p: nat)
    ensures (a + ByteBits(PadBytes(p))) + ToBits(if p % 2 == 0 then 0xEC else 0x11, 8) ==
            a + ByteBits(PadBytes(p + 1))
  {
    var x: byte := if p % 2 == 0 then 0xEC else 0x11;
    ByteBitsAppend(PadBytes(p), x);
    assert PadBytes(p + 1) == PadBytes(p) + [x];
  }

  /** The packing loop: bit i is set into byte i / 8 with weight 2^(7 - i % 8). The
      source ORs the weight into the byte; the bit it sets is still clear, so the
      model adds the weight. */
  method PackBits(bits: seq<bool>) returns (codewords: seq<byte>)
    requires |bits| % 8 == 0
    ensures codewords == Pack(bits)
  {
    var n := |bits| / 8;
    var datacodewords := new byte[n](_ => 0);
    PackedStart(bits);
    for i := 0 to |bits|
      invariant forall k :: 0 <= k < n ==> datacodewords[k] as int == Packed(bits, i)[k]
    {
      var q := i / 8;
      var r := i % 8;
      PackedStep(bits, i, q, r);
      datacodewords[q] := datacodewords[q] + (if bits[i] then Pow2(7 - r) else 0);
    }
    PackedEnd(bits);
    codewords := datacodewords[..];
    assert forall k :: 0 <= k < n ==> codewords[k] == Pack(bits)[k];
  }

  /** The codeword buffer once bits 0 .. i - 1 are set: whole bytes before byte
      i / 8, the partial byte i / 8, zeros after it. */
  function Packed(bits: seq<bool>, i: nat): (r: seq<int>)
    requires i <= |bits| && |bits| % 8 == 0
    ensures |r| == |bits| / 8
  {
    seq(|bits| / 8, k requires 0 <= k < |bits| / 8 =>
      if k < i / 8 then PackByte(bits, k) else if k == i / 8 then PartialValue(bits, i) else 0)
  }

  lemma PackedStart(bits: seq<bool>)
    requires |bits| % 8 == 0
    ensures forall k :: 0 <= k < |bits| / 8 ==> Packed(bits, 0)[k] == 0
  {
    PartialValueAt(bits, 0, 0, 0);
    assert bits[0..0] == [];
  }

  lemma PackedEnd(bits: seq<bool>)
    requires |bits| % 8 == 0
    ensures Packed(bits, |bits|) == Pack(bits)
  {
  }

  /** Setting bit i adds its weight to byte i / 8 and keeps it a byte. */
  lemma PackedStep(bits: seq<bool>, i: nat, q: nat, r: nat)
    requires i < |bits| && |bits| % 8 == 0 && q == i / 8 && r == i % 8
    ensures q < |bits| / 8
    ensures Packed(bits, i)[q] + (if bits[i] then Pow2(7 - r) else 0) < 256
    ensures forall k :: 0 <= k < |bits| / 8 ==>
              Packed(bits, i + 1)[k] == if k == q then Packed(bits, i)[q] + (if bits[i] then Pow2(7 - r) else 0)
                                        else Packed(bits, i)[k]
  {
    var m := |bits| / 8;
    var w := if bits[i] then Pow2(7 - r) else 0;
    var q1 := if r == 7 then q + 1 else q;
    ByteStep(bits, i, q, r);
    var before := Packed(bits, i);
    var after := Packed(bits, i + 1);
    forall k | 0 <= k < m
      ensures after[k] == if k == q then before[q] + w else before[k]
    {
      PackedIndex(bits, i, q, k);
      PackedIndex(bits, i + 1, q1, k);
    }
  }

  /** Byte k of the buffer once bits 0 .. i - 1 are set, with q = i / 8. */
  lemma PackedIndex(bits: seq<bool>, i: nat, q: nat, k: nat)
    requires i <= |bits| && |bits| % 8 == 0 && i / 8 == q && k < |bits| / 8
    ensures Packed(bits, i)[k] == if k < q then PackByte(bits, k) else if k == q then PartialValue(bits, i) else 0
  {
  }

  /** The value of byte i / 8 once bits up to i - 1 are set into it. */
  function PartialValue(bits: seq<bool>, i: nat): nat
    requires i <= |bits|
  {
    PartialValueLayer(bits, i, 1)
  }

  /** `PartialValue` behind one layer, so that the packing proof does not unfold its
      product; `PartialValueAt` opens it. */
  function PartialValueLayer(bits: seq<bool>, i: nat, k: nat): nat
    requires i <= |bits|
    decreases k
  {
    if k > 0 then PartialValueLayer(bits, i, k - 1) else FromBits(bits[8 * (i / 8) .. i]) * Pow2(8 - i % 8)
  }

  /** Setting bit i = 8 q + r into the partial byte: it grows by the bit's weight and
      stays a byte; after bit 7 it is the whole byte and the next one starts from 0. */
  lemma ByteStep(bits: seq<bool>, i: nat, q: nat, r: nat)
    requires i < |bits| && i == 8 * q + r && r < 8
    ensures (i + 1) / 8 == if r == 7 then q + 1 else q
    ensures PartialValue(bits, i) + (if bits[i] then Pow2(7 - r) else 0) < 256
    ensures r == 7 ==> PackByte(bits, q) == PartialValue(bits, i) + (if bits[i] then 1 else 0)
    ensures r == 7 ==> PartialValue(bits, i + 1) == 0
    ensures r < 7 ==> PartialValue(bits, i + 1) == PartialValue(bits, i) + (if bits[i] then Pow2(7 - r) else 0)
  {
    PartialValueAt(bits, i, q, r);
    PartialStepAt(bits, i, q, r);
    var whole := FromBits(bits[8 * q .. i + 1]);
    if r == 7 {
      PartialValueAt(bits, i + 1, q + 1, 0);
      assert bits[8 * (q + 1) .. i + 1] == [];
      assert 8 * q + 8 == i + 1;
      assert PackByte(bits, q) == whole;
    } else {
      PartialValueAt(bits, i + 1, q, r + 1);
      assert 8 - (r + 1) == 7 - r;
    }
  }

  /** The partial byte of bit position i = 8 q + r: bits 8 q .. i - 1 are set in it. */
  lemma PartialValueAt(bits: seq<bool>, i: nat, q: nat, r: nat)
    requires i <= |bits| && i == 8 * q + r && r < 8
    ensures i / 8 == q && i % 8 == r
    ensures PartialValue(bits, i) == FromBits(bits[8 * q .. i]) * Pow2(8 - r)
  {
    DivUnique(i, 8, q, r);
    assert PartialValue(bits, i) == PartialValueLayer(bits, i, 0);
  }

  /** Setting bit i = 8 q + r: the partial byte grows by the bit's weight and stays
      a byte; after bit 7 of a byte it is the whole byte. */
  lemma PartialStepAt(bits: seq<bool>, i: nat, q: nat, r: nat)
    requires i < |bits| && i == 8 * q + r && r < 8
    ensures FromBits(bits[8 * q .. i]) * Pow2(8 - r) + (if bits[i] then Pow2(7 - r) else 0) < 256
    ensures FromBits(bits[8 * q .. i + 1]) * Pow2(7 - r) ==
            FromBits(bits[8 * q .. i]) * Pow2(8 - r) + (if bits[i] then Pow2(7 - r) else 0)
    ensures r == 7 ==>
            FromBits(bits[8 * q .. i + 1]) == FromBits(bits[8 * q .. i]) * Pow2(8 - r) + (if bits[i] then 1 else 0)
  {
    var s := bits[8 * q .. i];
    var b := bits[i];
    assert |s| == r;
    assert bits[8 * q .. i + 1] == s + [b];
    FromBitsSnoc(s, b);
    ByteWeights(FromBits(s + [b]), FromBits(s), b, r);
  }

  /** The arithmetic of one packing step: v = 2 x + b with x below 2^r. */
  lemma ByteWeights(v: nat, x: nat, b: bool, r: nat)
    requires r < 8 && v == 2 * x + (if b then 1 else 0) && v < Pow2(r + 1)
    ensures x * Pow2(8 - r) + (if b then Pow2(7 - r) else 0) < 256
    ensures v * Pow2(7 - r) == x * Pow2(8 - r) + (if b then Pow2(7 - r) else 0)
    ensures r == 7 ==> v == x * Pow2(8 - r) + (if b then 1 else 0)
  {
    Pow2Split(r);
    PartialByte(v, x, b, Pow2(7 - r), Pow2(8 - r), Pow2(r + 1));
    if r == 7 {
      assert Pow2(7 - r) == 1;
    }
  }

  lemma Pow2Split(n: nat)
    requires n < 8
    ensures Pow2(n + 1) * Pow2(7 - n) == 256 && Pow2(8 - n) == 2 * Pow2(7 - n)
  {
    Pow2Add(n + 1, 7 - n);
    assert n + 1 + (7 - n) == 8;
    Pow2Eight();
  }

  lemma FromBitsSnoc(s: seq<bool>, b: bool)
    ensures FromBits(s + [b]) == 2 * FromBits(s) + (if b then 1 else 0)
    ensures FromBits(s + [b]) < Pow2(|s| + 1)
  {
    assert (s + [b])[..|s|] == s;
  }

  lemma PartialByte(v: nat, x: nat, b: bool, p: nat, q: nat, high: nat)
    requires v == 2 * x + (if b then 1 else 0) && v < high && q == 2 * p && high * p == 256
    ensures v * p == x * q + (if b then p else 0) && v * p < 256
  {
    MulAddDistrib(2 * x, if b then 1 else 0, p);
    MulLt(v, high, p);
  }

  lemma MulAddDistrib(a: nat, b: nat, c: nat)
    ensures (a + b) * c == a * c + b * c
  {
  }

  lemma MulLt(a: nat, b: nat, c: nat)
    requires a < b && c > 0
    ensures a * c < b * c
  {
  }
}
