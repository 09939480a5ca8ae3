/** The static factory functions of `QrCode`: `encode_segments_advanced` and the
    entry points built on it, which choose the version and level, assemble the data
    codewords and hand them to `encode_codewords`. */
module Encoder {
  import opened QrTypes
  import opened Segments
  import opened Capacity
  import opened Planner
  import opened QrCodes

  /** The level the symbol gets at `ver`: the boosted one with `boostecl`, else `ecl`. */
  function FinalEcl(segs: seq<Segment>, ver: Version, ecl: Ecc, boostecl: bool): Ecc
    requires TotalBits(segs, ver).Some?
  {
    if boostecl then Boosted(TotalBits(segs, ver).value, ver, ecl) else ecl
  }

  /** The data codewords of the segments at (ver, ecl): segment bits, terminator,
      alignment and pad bytes, packed most significant bit first. */
  function SegmentCodewords(segs: seq<Segment>, ver: Version, ecl: Ecc): (r: seq<byte>)
    requires Fits(segs, ver, ecl)
    ensures |r| == DataCodewords(ver, ecl)
  {
    Pack(DataStream(segs, ver, DataCodewords(ver, ecl)))
  }

  /** ver is the smallest version of minv .. maxv that holds the segments at ecl. */
  predicate SmallestFitting(segs: seq<Segment>, ecl: Ecc, minv: Version, maxv: Version, ver: Version)
  {
    minv <= ver <= maxv && Fits(segs, ver, ecl) &&
    forall v: Version :: minv <= v < ver ==> !Fits(segs, v, ecl)
  }

  /** `encode_segments_advanced`: an error exactly when no version in range holds
      the segments at `ecl`; otherwise a new symbol at the smallest version that
      does, at the boosted level (never weaker than `ecl`, and still holding the
      data), encoding the assembled data codewords with the mask choice `msk`. The
      assertion of the source on the range is the precondition. */
  method EncodeSegmentsAdvanced(segs: seq<Segment>, ecl: Ecc, minversion: Version, maxversion: Version,
                                msk: Option<Mask>, boostecl: bool)
    returns (r: Result<QrCode, DataTooLong>)
    requires minversion <= maxversion
    ensures r.Err? <==> forall v: Version :: minversion <= v <= maxversion ==> !Fits(segs, v, ecl)
    ensures r.Err? ==> r.error == TooLong(segs, maxversion, ecl)
    ensures r.Ok? ==> fresh(r.value)
    ensures r.Ok? ==> SmallestFitting(segs, ecl, minversion, maxversion, r.value.version)
    ensures r.Ok? ==> r.value.errorcorrectionlevel == FinalEcl(segs, r.value.version, ecl, boostecl)
    ensures r.Ok? ==> Ordinal(ecl) <= Ordinal(r.value.errorcorrectionlevel)
    ensures r.Ok? ==> Fits(segs, r.value.version, r.value.errorcorrectionlevel)
    ensures r.Ok? ==> Encodes(r.value, SegmentCodewords(segs, r.value.version, r.value.errorcorrectionlevel), msk)
  {
    var found, e := ChooseVersionAndLevel(segs, ecl, minversion, maxversion, boostecl);
    if found.Err? {
      return Err(found.error);
    }
    var version := found.value;
    var datacodewords := EncodeData(segs, version, DataCodewords(version, e));
    var q := new QrCode.EncodeCodewords(version, e, datacodewords, msk);
    return Ok(q);
  }

  /** The version loop and the boost loop of `encode_segments_advanced`. */
  method ChooseVersionAndLevel(segs: seq<Segment>, ecl: Ecc, minversion: Version, maxversion: Version, boostecl: bool)
    returns (r: Result<Version, DataTooLong>, e: Ecc)
    requires minversion <= maxversion
    ensures r.Err? <==> forall v: Version :: minversion <= v <= maxversion ==> !Fits(segs, v, ecl)
    ensures r.Err? ==> r.error == TooLong(segs, maxversion, ecl)
    ensures r.Ok? ==> SmallestFitting(segs, ecl, minversion, maxversion, r.value)
    ensures r.Ok? ==> e == FinalEcl(segs, r.value, ecl, boostecl)
    ensures r.Ok? ==> Ordinal(ecl) <= Ordinal(e) && Fits(segs, r.value, e)
  {
    var datausedbits;
    r, datausedbits := FindVersion(segs, ecl, minversion, maxversion);
    if r.Err? {
      return r, ecl;
    }
    e := BoostEcl(datausedbits, r.value, ecl, boostecl);
    BoostKeepsFit(datausedbits, r.value, ecl);
  }

  /** `encode_segments`: the whole version range, automatic mask, boosted level. */
  method EncodeSegments(segs: seq<Segment>, ecl: Ecc) returns (r: Result<QrCode, DataTooLong>)
    ensures r.Err? <==> forall v: Version :: !Fits(segs, v, ecl)
    ensures r.Err? ==> r.error == TooLong(segs, 40, ecl)
    ensures r.Ok? ==> fresh(r.value)
    ensures r.Ok? ==> SmallestFitting(segs, ecl, 1, 40, r.value.version)
    ensures r.Ok? ==> r.value.errorcorrectionlevel == FinalEcl(segs, r.value.version, ecl, true)
    ensures r.Ok? ==> Ordinal(ecl) <= Ordinal(r.value.errorcorrectionlevel)
    ensures r.Ok? ==> Fits(segs, r.value.version, r.value.errorcorrectionlevel)
    ensures r.Ok? ==> Encodes(r.value, SegmentCodewords(segs, r.value.version, r.value.errorcorrectionlevel), None)
  {
    r := EncodeSegmentsAdvanced(segs, ecl, 1, 40, None, true);
  }

  /** `encode_binary`: one byte-mode segment holding the data. */
  method EncodeBinary(data: seq<byte>, ecl: Ecc) returns (r: Result<QrCode, DataTooLong>)
    ensures r.Err? <==> forall v: Version :: !Fits([Segment(Byte, |data|, ByteBits(data))], v, ecl)
    ensures r.Err? ==> r.error == TooLong([Segment(Byte, |data|, ByteBits(data))], 40, ecl)
    ensures r.Ok? ==> fresh(r.value)
    ensures r.Ok? ==> SmallestFitting([Segment(Byte, |data|, ByteBits(data))], ecl, 1, 40, r.value.version)
    ensures r.Ok? ==> r.value.errorcorrectionlevel == FinalEcl([Segment(Byte, |data|, ByteBits(data))], r.value.version, ecl, true)
    ensures r.Ok? ==> Fits([Segment(Byte, |data|, ByteBits(data))], r.value.version, r.value.errorcorrectionlevel)
    ensures r.Ok? ==> Encodes(r.value, SegmentCodewords([Segment(Byte, |data|, ByteBits(data))], r.value.version, r.value.errorcorrectionlevel), None)
  {
    var seg := MakeBytes(data);
    r := EncodeSegments([seg], ecl);
  }

  /** `encode_text`: the single segment `make_segments` picks for the text. */
  method EncodeText(text: seq<byte>, ecl: Ecc) returns (r: Result<QrCode, DataTooLong>)
    ensures r.Err? <==> forall v: Version :: !Fits(TextSegments(text), v, ecl)
    ensures r.Err? ==> r.error == TooLong(TextSegments(text), 40, ecl)
    ensures r.Ok? ==> fresh(r.value)
    ensures r.Ok? ==> SmallestFitting(TextSegments(text), ecl, 1, 40, r.value.version)
    ensures r.Ok? ==> r.value.errorcorrectionlevel == FinalEcl(TextSegments(text), r.value.version, ecl, true)
    ensures r.Ok? ==> Fits(TextSegments(text), r.value.version, r.value.errorcorrectionlevel)
    ensures r.Ok? ==> Encodes(r.value, SegmentCodewords(TextSegments(text), r.value.version, r.value.errorcorrectionlevel), None)
    ensures text == [] ==> r.Ok? && r.value.version == 1
  {
    var segs := MakeSegments(text);
    r := EncodeSegments(segs, ecl);
    if text == [] {
      EmptyFitsFirst(ecl);
    }
  }

  /** No segments fit the smallest version at any level. */
  lemma EmptyFitsFirst(ecl: Ecc)
    ensures Fits([], 1, ecl)
  {
  }
}
