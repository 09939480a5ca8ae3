/** Segment encoding and mode selection (qrcode-lib/src/segment.rs).

    A text string is modelled by its UTF-8 bytes. The numeric and alphanumeric
    character sets are ASCII, so testing every character of the string (as the
    source's `is_numeric` and `is_alphanumeric` do) and testing every byte agree. */
module Segments {
  import opened QrTypes

  /** How the data bits of a segment are interpreted. */
  datatype Mode = Numeric | Alphanumeric | Byte | Kanji | Eci

  /** The 4-bit mode indicator. */
  function ModeBits(m: Mode): (r: nat)
    ensures r < 16
  {
    match m
    case Numeric => 0x1
    case Alphanumeric => 0x2
    case Byte => 0x4
    case Kanji => 0x8
    case Eci => 0x7
  }

  /** A reader can tell the mode from its indicator. */
  lemma ModeIndicatorsDistinct()
    ensures forall a: Mode, b: Mode :: ModeBits(a) == ModeBits(b) ==> a == b
  {
  }

  /** The width tier of the character-count field: `(ver + 7) / 17`. */
  function Tier(ver: Version): (r: nat)
    ensures r == (if ver <= 9 then 0 else if ver <= 26 then 1 else 2)
  {
    (ver + 7) / 17
  }

  /** Width of the character-count field of a segment of mode `m` at version `ver`. */
  function CharCountBits(m: Mode, ver: Version): (r: nat)
    ensures r <= 16
    ensures r == 0 <==> m == Eci
  {
    var widths := match m
      case Numeric => [10, 12, 14]
      case Alphanumeric => [9, 11, 13]
      case Byte => [8, 16, 16]
      case Kanji => [8, 10, 12]
      case Eci => [0, 0, 0];
    widths[Tier(ver)]
  }

  /** A larger version never has a narrower count field. */
  lemma CharCountBitsMonotone(m: Mode, v1: Version, v2: Version)
    requires v1 <= v2
    ensures CharCountBits(m, v1) <= CharCountBits(m, v2)
  {
  }

  /** An immutable segment: its mode, its character count (digits, characters
      or bytes; 0 for ECI) and its packed data bits. */
  datatype Segment = Segment(mode: Mode, numChars: nat, data: seq<bool>)

  /** An appendable sequence of bits. */
  class BitBuffer {
    var bits: seq<bool>

    constructor ()
      ensures bits == []
    {
      bits := [];
    }

    /** Appends the `len` low-order bits of `val`, most significant first. */
    method AppendBits(val: nat, len: nat)
      requires len <= 31 && val < Pow2(len)
      modifies this
      ensures bits == old(bits) + ToBits(val, len)
    {
      bits := bits + ToBits(val, len);
    }
  }

  /** Moving a chunk from the pending suffix to the emitted prefix keeps the whole. */
  lemma ShiftChunk<T>(done: seq<T>, chunk: seq<T>, rest: seq<T>, whole: seq<T>)
    requires done + (chunk + rest) == whole
    ensures (done + chunk) + rest == whole
  {
    assert (done + chunk) + rest == done + (chunk + rest);
  }

  lemma Pow2Constants()
    ensures Pow2(2) == 4 && Pow2(3) == 8 && Pow2(4) == 16 && Pow2(6) == 64 && Pow2(7) == 128
    ensures Pow2(8) == 256 && Pow2(10) == 1024 && Pow2(11) == 2048 && Pow2(14) == 16384
    ensures Pow2(21) == 2097152
  {
  }

  /*---- Numeric mode ----*/

  predicate IsDigit(b: byte)
  {
    '0' as int <= b <= '9' as int
  }

  /** `is_numeric`: every character is a decimal digit. */
  predicate IsNumeric(text: seq<byte>)
  {
    forall i :: 0 <= i < |text| ==> IsDigit(text[i])
  }

  /** An ASCII decimal digit. */
  type Digit = b: byte | '0' as int <= b <= '9' as int witness '0' as int

  function Pow10(n: nat): (r: nat)
    ensures r >= 1
  {
    if n == 0 then 1 else 10 * Pow10(n - 1)
  }

  /** The decimal value of a digit string, folded from the left as `acc * 10 + digit`. */
  function DecimalValue(s: seq<Digit>): (r: nat)
    ensures r < Pow10(|s|)
  {
    if s == [] then 0 else DecimalValue(s[..|s| - 1]) * 10 + (s[|s| - 1] - '0' as int)
  }

  /** The `n` decimal digits of `v`, most significant first, as ASCII bytes. */
  function DigitsOf(v: nat, n: nat): (r: seq<Digit>)
    ensures |r| == n
  {
    if n == 0 then [] else DigitsOf(v / 10, n - 1) + [('0' as int) + v % 10]
  }

  lemma {:induction false} DigitsOfDecimalValue(s: seq<Digit>)
    ensures DigitsOf(DecimalValue(s), |s|) == s
  {
    if s != [] {
      var init := s[..|s| - 1];
      DigitsOfDecimalValue(init);
      assert DecimalValue(s) / 10 == DecimalValue(init);
    }
  }

  function Min(a: nat, b: nat): nat
  {
    if a < b then a else b
  }

  /** The data bits of a numeric segment: each chunk of 3, 2 or 1 digits holds
      its decimal value in 10, 7 or 4 bits. */
  function NumericBits(text: seq<Digit>): (r: seq<bool>)
    decreases |text|
  {
    if text == [] then []
    else
      var n := Min(3, |text|);
      ToBits(DecimalValue(text[..n]), 3 * n + 1) + NumericBits(text[n..])
  }

  /** A numeric segment of k digits occupies 10 bits per full group of three,
      plus 4 or 7 bits for a trailing group of one or two digits. */
  lemma {:induction false} NumericBitsLength(text: seq<Digit>)
    ensures |NumericBits(text)| == 10 * (|text| / 3) + [0, 4, 7][|text| % 3]
  {
    if text != [] {
      NumericBitsLength(text[Min(3, |text|)..]);
    }
  }

  /** Reads `count` digits back out of numeric-mode data bits. */
  function DecodeNumeric(bits: seq<bool>, count: nat): seq<byte>
    decreases count
  {
    if count == 0 then []
    else
      var n := Min(3, count);
      var w := 3 * n + 1;
      if |bits| < w then []
      else DigitsOf(FromBits(bits[..w]), n) + DecodeNumeric(bits[w..], count - n)
  }

  lemma ChunkFitsNumeric(n: nat, v: nat)
    requires 1 <= n <= 3 && v < Pow10(n)
    ensures v < Pow2(3 * n + 1)
  {
    Pow2Constants();
    assert Pow10(3) == 1000;
  }

  /** Decoding the data bits of a numeric segment gives back its digits. */
  lemma {:induction false} NumericRoundTrip(text: seq<Digit>)
    ensures DecodeNumeric(NumericBits(text), |text|) == text
  {
    if text != [] {
      var n := Min(3, |text|);
      var v := DecimalValue(text[..n]);
      var head := ToBits(v, 3 * n + 1);
      var bits := NumericBits(text);
      assert bits == head + NumericBits(text[n..]);
      assert bits[..3 * n + 1] == head;
      assert bits[3 * n + 1..] == NumericBits(text[n..]);
      ChunkFitsNumeric(n, v);
      FromToBits(v, 3 * n + 1);
      DigitsOfDecimalValue(text[..n]);
      NumericRoundTrip(text[n..]);
      assert text == text[..n] + text[n..];
    }
  }

  /** The text from position i starts with a chunk of n = min(3, remaining) digits. */
  lemma NumericBitsStep(text: seq<Digit>, i: nat, n: nat)
    requires i < |text| && n == Min(3, |text| - i)
    ensures NumericBits(text[i..]) == ToBits(DecimalValue(text[i..i + n]), 3 * n + 1) + NumericBits(text[i + n..])
  {
    var rest := text[i..];
    assert rest[..n] == text[i..i + n] && rest[n..] == text[i + n..];
  }

  /** A chunk of one to three digits fits its 4-, 7- or 10-bit field. */
  lemma NumericChunkFits(c: seq<Digit>)
    requires 1 <= |c| <= 3
    ensures DecimalValue(c) < Pow2(3 * |c| + 1)
  {
    ChunkFitsNumeric(|c|, DecimalValue(c));
  }

  /** One iteration of `make_numeric`: appending the next chunk's bits to the bits
      emitted so far leaves exactly the rest of the text to encode. */
  lemma NumericChunkStep(text: seq<Digit>, i: nat, n: nat, done: seq<bool>)
    requires i < |text| && n == Min(3, |text| - i)
    requires done + NumericBits(text[i..]) == NumericBits(text)
    ensures DecimalValue(text[i..i + n]) < Pow2(3 * n + 1)
    ensures done + ToBits(DecimalValue(text[i..i + n]), 3 * n + 1) + NumericBits(text[i + n..]) == NumericBits(text)
  {
    NumericBitsStep(text, i, n);
    NumericChunkFits(text[i..i + n]);
    ShiftChunk(done, ToBits(DecimalValue(text[i..i + n]), 3 * n + 1), NumericBits(text[i + n..]), NumericBits(text));
  }

  /** `make_numeric`: a numeric-mode segment; the assertion that every byte is a digit
      is the element type of the text. */
  method MakeNumeric(text: seq<Digit>) returns (seg: Segment)
    ensures seg == Segment(Numeric, |text|, NumericBits(text))
  {
    var bb := new BitBuffer();
    var i := 0;
    while i < |text|
      invariant 0 <= i <= |text|
      invariant bb.bits + NumericBits(text[i..]) == NumericBits(text)
    {
      var n := Min(3, |text| - i);
      NumericChunkStep(text, i, n, bb.bits);
      bb.AppendBits(DecimalValue(text[i..i + n]), 3 * n + 1);
      i := i + n;
    }
    assert text[|text|..] == [];
    seg := Segment(Numeric, |text|, bb.bits);
  }

  /*---- Alphanumeric mode ----*/

  /** Character k of `ALPHANUMERIC_CHARSET`, "0123456789ABCDEFGHIJKLMNOPQRSTUVWXYZ $%*+-./:",
      as its ASCII code; a character's position in this list is its alphanumeric value. */
  function CharsetAt(k: nat): (r: byte)
    requires k < 45
  {
    if k < 10 then '0' as int + k
    else if k < 36 then 'A' as int + (k - 10)
    else if k == 36 then ' ' as int
    else if k == 37 then '$' as int
    else if k == 38 then '%' as int
    else if k == 39 then '*' as int
    else if k == 40 then '+' as int
    else if k == 41 then '-' as int
    else if k == 42 then '.' as int
    else if k == 43 then '/' as int
    else ':' as int
  }

  /** `ALPHANUMERIC_CHARSET.find(c)`: the position of a byte in the character set, if it is there. */
  function CharsetIndex(b: byte): (r: Option<nat>)
    ensures r.Some? ==> r.value < 45 && CharsetAt(r.value) == b
    ensures r.None? ==> forall k :: 0 <= k < 45 ==> CharsetAt(k) != b
  {
    if '0' as int <= b <= '9' as int then Some(b - '0' as int)
    else if 'A' as int <= b <= 'Z' as int then Some(b - 'A' as int + 10)
    else if b == ' ' as int then Some(36)
    else if b == '$' as int then Some(37)
    else if b == '%' as int then Some(38)
    else if b == '*' as int then Some(39)
    else if b == '+' as int then Some(40)
    else if b == '-' as int then Some(41)
    else if b == '.' as int then Some(42)
    else if b == '/' as int then Some(43)
    else if b == ':' as int then Some(44)
    else None
  }

  /** The 45 characters are distinct, so the position `find` returns is the only one. */
  lemma CharsetIndexUnique(b: byte, k: nat)
    requires k < 45 && CharsetAt(k) == b
    ensures CharsetIndex(b) == Some(k)
  {
  }

  /** `is_alphanumeric`: every character is in the 45-symbol set. */
  predicate IsAlphanumeric(text: seq<byte>)
  {
    forall i :: 0 <= i < |text| ==> CharsetIndex(text[i]).Some?
  }

  /** A character of the 45-symbol alphanumeric set. */
  type AlnumChar = b: byte | CharsetIndex(b).Some? witness '0' as int

  /** Alphanumeric text is ASCII, so testing its characters and testing its bytes agree. */
  lemma AlphanumericIsAscii(text: seq<byte>)
    requires IsAlphanumeric(text)
    ensures forall i :: 0 <= i < |text| ==> text[i] < 128
  {
    forall i | 0 <= i < |text|
      ensures text[i] < 128
    {
      assert CharsetIndex(text[i]).Some?;
    }
  }

  /** Digits are alphanumeric characters too; this is why mode selection tries numeric first. */
  lemma NumericIsAlphanumeric(text: seq<byte>)
    requires IsNumeric(text)
    ensures IsAlphanumeric(text)
  {
    forall i | 0 <= i < |text|
      ensures CharsetIndex(text[i]).Some?
    {
      assert IsDigit(text[i]);
    }
  }

  /** The value of a chunk of alphanumeric characters, folded as `acc * 45 + index`. */
  function AlnumValue(s: seq<AlnumChar>): (r: nat)
  {
    if s == [] then 0 else AlnumValue(s[..|s| - 1]) * 45 + CharsetIndex(s[|s| - 1]).value
  }

  /** The data bits of an alphanumeric segment: each pair of characters as
      `45 * first + second` in 11 bits, a trailing single character in 6 bits. */
  function AlphanumericBits(text: seq<AlnumChar>): (r: seq<bool>)
    decreases |text|
  {
    if text == [] then []
    else
      var n := Min(2, |text|);
      ToBits(AlnumValue(text[..n]), 5 * n + 1) + AlphanumericBits(text[n..])
  }

  lemma {:induction false} AlphanumericBitsLength(text: seq<AlnumChar>)
    ensures |AlphanumericBits(text)| == 11 * (|text| / 2) + 6 * (|text| % 2)
  {
    if text != [] {
      AlphanumericBitsLength(text[Min(2, |text|)..]);
    }
  }

  /** The characters of a chunk value: one character for a 6-bit chunk, two for an 11-bit one. */
  function CharsOfAlnum(v: nat, n: nat): seq<byte>
    requires v < 45 * 45
  {
    if n == 1 then (if v < 45 then [CharsetAt(v)] else [])
    else [CharsetAt(v / 45), CharsetAt(v % 45)]
  }

  /** Reads `count` characters back out of alphanumeric-mode data bits. */
  function DecodeAlphanumeric(bits: seq<bool>, count: nat): seq<byte>
    decreases count
  {
    if count == 0 then []
    else
      var n := Min(2, count);
      var w := 5 * n + 1;
      if |bits| < w then []
      else
        var v := FromBits(bits[..w]);
        if v >= 45 * 45 then []
        else CharsOfAlnum(v, n) + DecodeAlphanumeric(bits[w..], count - n)
  }

  lemma AlnumSingle(s: seq<AlnumChar>)
    requires |s| == 1
    ensures AlnumValue(s) == CharsetIndex(s[0]).value
  {
    assert s[..0] == [];
  }

  lemma AlnumPair(s: seq<AlnumChar>)
    requires |s| == 2
    ensures AlnumValue(s) == CharsetIndex(s[0]).value * 45 + CharsetIndex(s[1]).value
  {
    AlnumSingle(s[..1]);
  }

  lemma Pow2Six()
    ensures Pow2(6) == 64 && Pow2(11) == 2048
  {
  }

  /** A chunk of one or two characters fits its 6- or 11-bit field and reads back as itself. */
  lemma AlnumChunk(s: seq<AlnumChar>)
    requires 1 <= |s| <= 2
    ensures AlnumValue(s) < Pow2(5 * |s| + 1) && AlnumValue(s) < 45 * 45
    ensures CharsOfAlnum(AlnumValue(s), |s|) == s
  {
    Pow2Six();
    var i0 := CharsetIndex(s[0]).value;
    if |s| == 1 {
      AlnumSingle(s);
    } else {
      var i1 := CharsetIndex(s[1]).value;
      AlnumPair(s);
      assert (i0 * 45 + i1) / 45 == i0 && (i0 * 45 + i1) % 45 == i1;
    }
  }

  /** The two halves of a concatenation are its prefix and suffix. */
  lemma SplitConcat<T>(a: seq<T>, b: seq<T>)
    ensures (a + b)[..|a|] == a && (a + b)[|a|..] == b
  {
  }

  /** Decoding reads one chunk, then decodes the rest. */
  lemma DecodeAlphanumericStep(head: seq<bool>, tail: seq<bool>, count: nat, n: nat)
    requires count > 0 && n == Min(2, count) && |head| == 5 * n + 1 && FromBits(head) < 45 * 45
    ensures DecodeAlphanumeric(head + tail, count)
            == CharsOfAlnum(FromBits(head), n) + DecodeAlphanumeric(tail, count - n)
  {
    SplitConcat(head, tail);
  }

  /** Decoding the data bits of an alphanumeric segment gives back its characters. */
  lemma {:induction false} AlphanumericRoundTrip(text: seq<AlnumChar>)
    ensures DecodeAlphanumeric(AlphanumericBits(text), |text|) == text
  {
    if text != [] {
      var n := Min(2, |text|);
      var v := AlnumValue(text[..n]);
      var head := ToBits(v, 5 * n + 1);
      assert AlphanumericBits(text) == head + AlphanumericBits(text[n..]);
      AlnumChunk(text[..n]);
      FromToBits(v, 5 * n + 1);
      DecodeAlphanumericStep(head, AlphanumericBits(text[n..]), |text|, n);
      AlphanumericRoundTrip(text[n..]);
      assert text == text[..n] + text[n..];
    }
  }

  /** The text from position i starts with a chunk of n = min(2, remaining) characters. */
  lemma AlphanumericBitsStep(text: seq<AlnumChar>, i: nat, n: nat)
    requires i < |text| && n == Min(2, |text| - i)
    ensures AlphanumericBits(text[i..]) == ToBits(AlnumValue(text[i..i + n]), 5 * n + 1) + AlphanumericBits(text[i + n..])
  {
    var rest := text[i..];
    assert rest[..n] == text[i..i + n] && rest[n..] == text[i + n..];
  }

  /** One iteration of `make_alphanumeric`, as for the numeric mode. */
  lemma AlphanumericChunkStep(text: seq<AlnumChar>, i: nat, n: nat, done: seq<bool>)
    requires i < |text| && n == Min(2, |text| - i)
    requires done + AlphanumericBits(text[i..]) == AlphanumericBits(text)
    ensures AlnumValue(text[i..i + n]) < Pow2(5 * n + 1)
    ensures done + ToBits(AlnumValue(text[i..i + n]), 5 * n + 1) + AlphanumericBits(text[i + n..]) == AlphanumericBits(text)
  {
    AlphanumericBitsStep(text, i, n);
    AlnumChunk(text[i..i + n]);
    ShiftChunk(done, ToBits(AlnumValue(text[i..i + n]), 5 * n + 1), AlphanumericBits(text[i + n..]), AlphanumericBits(text));
  }

  /** `make_alphanumeric`: an alphanumeric-mode segment; the `expect` on unencodable
      characters is the element type of the text. */
  method MakeAlphanumeric(text: seq<AlnumChar>) returns (seg: Segment)
    ensures seg == Segment(Alphanumeric, |text|, AlphanumericBits(text))
  {
    var bb := new BitBuffer();
    var i := 0;
    while i < |text|
      invariant 0 <= i <= |text|
      invariant bb.bits + AlphanumericBits(text[i..]) == AlphanumericBits(text)
    {
      var n := Min(2, |text| - i);
      AlphanumericChunkStep(text, i, n, bb.bits);
      bb.AppendBits(AlnumValue(text[i..i + n]), 5 * n + 1);
      i := i + n;
    }
    assert text[|text|..] == [];
    seg := Segment(Alphanumeric, |text|, bb.bits);
  }

  /*---- Byte mode ----*/

  /** The data bits of a byte segment: 8 bits per byte, most significant first. */
  function ByteBits(data: seq<byte>): (r: seq<bool>)
    ensures |r| == 8 * |data|
  {
    if data == [] then [] else ToBits(data[0], 8) + ByteBits(data[1..])
  }

  /** Reads `count` bytes back out of byte-mode data bits. */
  function DecodeBytes(bits: seq<bool>, count: nat): seq<byte>
  {
    if count == 0 || |bits| < 8 then []
    else
      Pow2Constants();
      [FromBits(bits[..8])] + DecodeBytes(bits[8..], count - 1)
  }

  /** Decoding the data bits of a byte segment gives back its bytes. */
  lemma {:induction false} BytesRoundTrip(data: seq<byte>)
    ensures DecodeBytes(ByteBits(data), |data|) == data
  {
    if data != [] {
      var bits := ByteBits(data);
      Pow2Constants();
      assert bits[..8] == ToBits(data[0], 8);
      assert bits[8..] == ByteBits(data[1..]);
      FromToBits(data[0], 8);
      BytesRoundTrip(data[1..]);
      assert data == [data[0]] + data[1..];
    }
  }

  lemma ByteBitsStep(data: seq<byte>, i: nat)
    requires i < |data|
    ensures ByteBits(data[i..]) == ToBits(data[i], 8) + ByteBits(data[i + 1..])
  {
    assert data[i..][1..] == data[i + 1..];
  }

  /** `make_bytes`: a byte-mode segment counting the bytes. */
  method MakeBytes(data: seq<byte>) returns (seg: Segment)
    ensures seg == Segment(Byte, |data|, ByteBits(data))
  {
    var bb := new BitBuffer();
    var i := 0;
    assert Pow2(8) == 256;
    while i < |data|
      invariant 0 <= i <= |data|
      invariant bb.bits + ByteBits(data[i..]) == ByteBits(data)
    {
      ByteBitsStep(data, i);
      ShiftChunk(bb.bits, ToBits(data[i], 8), ByteBits(data[i + 1..]), ByteBits(data));
      bb.AppendBits(data[i], 8);
      i := i + 1;
    }
    assert data[|data|..] == [];
    seg := Segment(Byte, |data|, bb.bits);
  }

  /*---- ECI designator ----*/

  /** The bits of an ECI designator: 8 bits below 2^7, `10` and 14 bits below 2^14,
      `110` and 21 bits below 1,000,000. */
  function EciBits(assignVal: nat): (r: seq<bool>)
    requires assignVal < 1000000
  {
    if assignVal < 128 then ToBits(assignVal, 8)
    else if assignVal < 16384 then ToBits(2, 2) + ToBits(assignVal, 14)
    else ToBits(6, 3) + ToBits(assignVal, 21)
  }

  /** Reads an ECI designator: the leading bits `0`, `10` or `110` give its length. */
  function DecodeEci(bits: seq<bool>): nat
  {
    if |bits| == 8 && !bits[0] then FromBits(bits)
    else if |bits| == 16 && bits[..2] == [true, false] then FromBits(bits[2..])
    else if |bits| == 24 && bits[..3] == [true, true, false] then FromBits(bits[3..])
    else 0
  }

  /** An ECI designator is one, two or three bytes long and decodes to its value. */
  lemma EciRoundTrip(assignVal: nat)
    requires assignVal < 1000000
    ensures |EciBits(assignVal)| == (if assignVal < 128 then 8 else if assignVal < 16384 then 16 else 24)
    ensures DecodeEci(EciBits(assignVal)) == assignVal
  {
    Pow2Constants();
    if assignVal < 128 {
      ToBitsGetBit(assignVal, 8, 0);
      GetBitShift(assignVal, 7);
      assert assignVal / Pow2(7) == 0;
      FromToBits(assignVal, 8);
    } else if assignVal < 16384 {
      assert ToBits(2, 2) == [true, false];
      SplitConcat(ToBits(2, 2), ToBits(assignVal, 14));
      FromToBits(assignVal, 14);
    } else {
      assert ToBits(6, 3) == [true, true, false];
      SplitConcat(ToBits(6, 3), ToBits(assignVal, 21));
      FromToBits(assignVal, 21);
    }
  }

  /** `make_eci`: an ECI segment with character count 0; the panic on
      values of 1,000,000 and more is the precondition. */
  method MakeEci(assignVal: nat) returns (seg: Segment)
    requires assignVal < 1000000
    ensures seg == Segment(Eci, 0, EciBits(assignVal))
  {
    Pow2Constants();
    var bb := new BitBuffer();
    if assignVal < 128 {
      bb.AppendBits(assignVal, 8);
    } else if assignVal < 16384 {
      bb.AppendBits(2, 2);
      bb.AppendBits(assignVal, 14);
    } else {
      bb.AppendBits(6, 3);
      bb.AppendBits(assignVal, 21);
    }
    seg := Segment(Eci, 0, bb.bits);
  }

  /*---- Mode selection ----*/

  /** The text a segment's data bits stand for, read according to its mode. */
  function DecodeSegment(seg: Segment): seq<byte>
  {
    match seg.mode
    case Numeric => DecodeNumeric(seg.data, seg.numChars)
    case Alphanumeric => DecodeAlphanumeric(seg.data, seg.numChars)
    case Byte => DecodeBytes(seg.data, seg.numChars)
    case _ => []
  }

  /** The segments `make_segments` chooses for the text. */
  function TextSegments(text: seq<byte>): seq<Segment>
  {
    if text == [] then []
    else if IsNumeric(text) then [Segment(Numeric, |text|, NumericBits(text))]
    else if IsAlphanumeric(text) then [Segment(Alphanumeric, |text|, AlphanumericBits(text))]
    else [Segment(Byte, |text|, ByteBits(text))]
  }

  /** `make_segments`: no segment for empty text, otherwise exactly one segment in the
      first mode that can hold every character (numeric, then alphanumeric, then byte). */
  method MakeSegments(text: seq<byte>) returns (segs: seq<Segment>)
    ensures text == [] ==> segs == []
    ensures text != [] ==> |segs| == 1 && segs[0].numChars == |text| && DecodeSegment(segs[0]) == text
    ensures text != [] ==> segs[0].mode == (if IsNumeric(text) then Numeric
                                            else if IsAlphanumeric(text) then Alphanumeric
                                            else Byte)
    ensures text != [] && IsNumeric(text) ==> segs[0].data == NumericBits(text)
    ensures text != [] && !IsNumeric(text) && IsAlphanumeric(text) ==> segs[0].data == AlphanumericBits(text)
    ensures text != [] && !IsAlphanumeric(text) ==> segs[0].data == ByteBits(text)
    ensures segs == TextSegments(text)
  {
    if text == [] {
      segs := [];
    } else {
      var seg: Segment;
      if IsNumeric(text) {
        seg := MakeNumeric(text);
        NumericRoundTrip(text);
      } else if IsAlphanumeric(text) {
        seg := MakeAlphanumeric(text);
        AlphanumericRoundTrip(text);
      } else {
        seg := MakeBytes(text);
        BytesRoundTrip(text);
      }
      segs := [seg];
    }
  }

  /*---- Capacity query ----*/

  /** The segment's character count fits the width of its count field at `ver`. */
  predicate FitsCountField(seg: Segment, ver: Version)
  {
    seg.numChars < Pow2(CharCountBits(seg.mode, ver))
  }

  /** Bits one segment needs at `ver`: mode indicator, count field, data. */
  function SegmentBits(seg: Segment, ver: Version): nat
  {
    4 + CharCountBits(seg.mode, ver) + |seg.data|
  }

  function SumBits(segs: seq<Segment>, ver: Version): nat
  {
    if segs == [] then 0 else SumBits(segs[..|segs| - 1], ver) + SegmentBits(segs[|segs| - 1], ver)
  }

  /** The bits all segments need at `ver`, or None when some count does not fit its field. */
  function TotalBits(segs: seq<Segment>, ver: Version): Option<nat>
  {
    if forall i :: 0 <= i < |segs| ==> FitsCountField(segs[i], ver) then Some(SumBits(segs, ver)) else None
  }

  /** One more segment: its bits are added while its count fits its field. */
  lemma TotalBitsStep(segs: seq<Segment>, ver: Version, i: nat)
    requires i < |segs|
    ensures TotalBits(segs[..i + 1], ver) ==
            if TotalBits(segs[..i], ver).Some? && FitsCountField(segs[i], ver)
            then Some(TotalBits(segs[..i], ver).value + SegmentBits(segs[i], ver))
            else None
  {
    var pre := segs[..i];
    var next := segs[..i + 1];
    assert next[..i] == pre && next[i] == segs[i];
    assert SumBits(next, ver) == SumBits(pre, ver) + SegmentBits(segs[i], ver);
    if TotalBits(pre, ver).Some? && FitsCountField(segs[i], ver) {
      forall j | 0 <= j < i + 1
        ensures FitsCountField(next[j], ver)
      {
        if j < i {
          assert next[j] == pre[j];
        }
      }
    } else if TotalBits(pre, ver).None? {
      var j :| 0 <= j < i && !FitsCountField(pre[j], ver);
      assert next[j] == pre[j];
    }
  }

  /** `get_total_bits`: None exactly when some segment's count reaches 2 to the width
      of its count field; otherwise the sum over segments of 4 + width + data length. */
  method GetTotalBits(segs: seq<Segment>, ver: Version) returns (r: Option<nat>)
    ensures r.None? <==> exists i :: 0 <= i < |segs| && !FitsCountField(segs[i], ver)
    ensures r.Some? ==> r.value == SumBits(segs, ver)
    ensures r == TotalBits(segs, ver)
  {
    var result := 0;
    var i := 0;
    while i < |segs|
      invariant 0 <= i <= |segs|
      invariant TotalBits(segs[..i], ver) == Some(result)
    {
      var seg := segs[i];
      var ccbits := CharCountBits(seg.mode, ver);
      if seg.numChars >= Pow2(ccbits) {
        assert !FitsCountField(segs[i], ver);
        return None;
      }
      TotalBitsStep(segs, ver, i);
      result := result + 4 + ccbits;
      result := result + |seg.data|;
      i := i + 1;
    }
    assert segs[..|segs|] == segs;
    r := Some(result);
  }
}
