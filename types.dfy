/** Value types shared by the whole QR Code pipeline (qrcode-lib/src/types.rs):
    the error-correction level, the range-checked version and mask numbers,
    the DataTooLong error, and the bit test `get_bit` together with the
    most-significant-bit-first bit strings that every encoder builds from it. */
module QrTypes {

  datatype Option<T> = None | Some(value: T)

  datatype Result<T, E> = Ok(value: T) | Err(error: E)

  /** A byte of text or binary payload (Rust `u8`). */
  type byte = b: int | 0 <= b < 256

  /** The error correction level; the declaration order is the derived ordering,
      from the weakest (about 7% of codewords recoverable) to the strongest (about 30%). */
  datatype Ecc = Low | Medium | Quartile | High

  /** Index of the level into the per-version capacity tables. */
  function Ordinal(e: Ecc): (r: nat)
    ensures r < 4
  {
    match e
    case Low => 0
    case Medium => 1
    case Quartile => 2
    case High => 3
  }

  /** The 2-bit code of the level inside the format information word. */
  function FormatBits(e: Ecc): (r: nat)
    ensures r < 4
  {
    match e
    case Low => 1
    case Medium => 0
    case Quartile => 3
    case High => 2
  }

  /** The ordinal follows the declaration order Low < Medium < Quartile < High
      and tells the levels apart. */
  lemma OrdinalFollowsDeclarationOrder()
    ensures Ordinal(Low) < Ordinal(Medium) < Ordinal(Quartile) < Ordinal(High)
    ensures forall a: Ecc, b: Ecc :: Ordinal(a) == Ordinal(b) ==> a == b
  {
  }

  /** The format code is a bijection between the four levels and 0..3,
      so a reader of the format information recovers the level. */
  lemma FormatBitsBijective()
    ensures forall a: Ecc, b: Ecc :: FormatBits(a) == FormatBits(b) ==> a == b
    ensures {FormatBits(Low), FormatBits(Medium), FormatBits(Quartile), FormatBits(High)} == {0, 1, 2, 3}
  {
    assert FormatBits(Medium) == 0 && FormatBits(Low) == 1;
    assert FormatBits(High) == 2 && FormatBits(Quartile) == 3;
  }

  const MinVersion: int := 1
  const MaxVersion: int := 40

  /** A QR Code version number, 1 to 40 inclusive. */
  type Version = v: int | MinVersion <= v <= MaxVersion witness MinVersion

  /** `Version::new`: the assertion of the source is the precondition. */
  function NewVersion(ver: nat): (r: Version)
    requires MinVersion <= ver <= MaxVersion
    ensures r as int == ver
  {
    ver
  }

  /** A mask pattern number, 0 to 7 inclusive. */
  type Mask = m: int | 0 <= m <= 7

  /** `Mask::new`: the assertion of the source is the precondition. */
  function NewMask(mask: nat): (r: Mask)
    requires mask <= 7
    ensures r as int == mask
  {
    mask
  }

  /** Why no version in the requested range holds the segments. */
  datatype DataTooLong =
    | SegmentTooLong
    | DataOverCapacity(dataLen: nat, maxCapacity: nat)

  function Pow2(n: nat): (r: nat)
    ensures r >= 1
  {
    if n == 0 then 1 else 2 * Pow2(n - 1)
  }

  lemma {:induction false} Pow2Add(a: nat, b: nat)
    ensures Pow2(a + b) == Pow2(a) * Pow2(b)
  {
    if a > 0 {
      Pow2Add(a - 1, b);
    }
  }

  lemma {:induction false} Pow2Monotone(a: nat, b: nat)
    requires a <= b
    ensures Pow2(a) <= Pow2(b)
  {
    if a < b {
      Pow2Monotone(a, b - 1);
    }
  }

  /** True iff bit i of x is set: bit 0 is the parity, bit i + 1 is bit i of x / 2. */
  function GetBit(x: nat, i: nat): bool
  {
    if i == 0 then x % 2 == 1 else GetBit(x / 2, i - 1)
  }

  lemma {:induction false} DivPow2Succ(x: nat, i: nat)
    ensures x / Pow2(i + 1) == (x / 2) / Pow2(i)
  {
    var p := Pow2(i);
    assert Pow2(i + 1) == 2 * p;
    var q := (x / 2) / p;
    var r1 := x % 2;
    var r2 := (x / 2) % p;
    assert x / 2 == q * p + r2;
    assert x == 2 * (x / 2) + r1;
    assert x == (2 * p) * q + (2 * r2 + r1);
    assert 0 <= 2 * r2 + r1 < 2 * p;
    DivUnique(x, 2 * p, q, 2 * r2 + r1);
  }

  lemma DivUnique(x: nat, d: nat, q: nat, r: nat)
    requires d > 0 && r < d && x == d * q + r
    ensures x / d == q && x % d == r
  {
    var q0, r0 := x / d, x % d;
    assert x == d * q0 + r0;
    if q0 < q {
      MulAtLeast(d, q - q0);
    } else if q0 > q {
      MulAtLeast(d, q0 - q);
    }
  }

  lemma MulAtLeast(d: nat, k: nat)
    requires k >= 1
    ensures d * k >= d
  {
  }

  /** `get_bit` as the source computes it, `(x >> i) & 1 != 0`: shifting right by i
      divides by 2^i, and the low bit of the result is its parity. */
  lemma {:induction false} GetBitShift(x: nat, i: nat)
    ensures GetBit(x, i) == ((x / Pow2(i)) % 2 == 1)
  {
    if i > 0 {
      DivPow2Succ(x, i - 1);
      GetBitShift(x / 2, i - 1);
    }
  }

  /** Bit i + 1 of x is bit i of x / 2. */
  lemma GetBitHalf(x: nat, i: nat)
    ensures GetBit(x, i + 1) == GetBit(x / 2, i)
  {
  }

  /** The `len` low-order bits of `val`, most significant first. */
  function ToBits(val: nat, len: nat): (r: seq<bool>)
    ensures |r| == len
  {
    if len == 0 then [] else ToBits(val / 2, len - 1) + [val % 2 == 1]
  }

  /** The number whose binary digits, most significant first, are `s`. */
  function FromBits(s: seq<bool>): (r: nat)
    ensures r < Pow2(|s|)
  {
    if s == [] then 0 else 2 * FromBits(s[..|s| - 1]) + (if s[|s| - 1] then 1 else 0)
  }

  /** Bit string position k holds bit `len - 1 - k` of the value: `ToBits` is
      `(0 .. len).rev().map(|i| get_bit(val, i))`. */
  lemma {:induction false} ToBitsGetBit(val: nat, len: nat, k: nat)
    requires k < len
    ensures ToBits(val, len)[k] == GetBit(val, len - 1 - k)
  {
    if k == len - 1 {
      assert Pow2(0) == 1;
    } else {
      ToBitsGetBit(val / 2, len - 1, k);
      GetBitHalf(val, len - 2 - k);
    }
  }

  /** Round trip: the bit string of a value that fits in `len` bits reads back as that value. */
  lemma {:induction false} FromToBits(val: nat, len: nat)
    requires val < Pow2(len)
    ensures FromBits(ToBits(val, len)) == val
  {
    if len == 0 {
    } else {
      var s := ToBits(val, len);
      assert s[..|s| - 1] == ToBits(val / 2, len - 1);
      FromToBits(val / 2, len - 1);
    }
  }

  /** Round trip the other way: every bit string is the bit string of its value. */
  lemma {:induction false} ToFromBits(s: seq<bool>)
    ensures ToBits(FromBits(s), |s|) == s
  {
    if s != [] {
      var init := s[..|s| - 1];
      var v := FromBits(s);
      ToFromBits(init);
      assert v / 2 == FromBits(init);
      assert (v % 2 == 1) == s[|s| - 1];
    }
  }

  /** Bit strings of one width are equal exactly when their values are. */
  lemma ToBitsInjective(a: nat, b: nat, len: nat)
    requires a < Pow2(len) && b < Pow2(len)
    requires ToBits(a, len) == ToBits(b, len)
    ensures a == b
  {
    FromToBits(a, len);
    FromToBits(b, len);
  }
}
