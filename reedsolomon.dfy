/** The field GF(2^8) used by QR Code error correction, on bytes (Rust `u8`, the
    integers 0 to 255). As a field element, bit i of a byte is the coefficient of
    x^i, addition is bitwise XOR and products are reduced modulo the polynomial
    x^8 + x^4 + x^3 + x^2 + 1 (0x11D). */
module GaloisField {
  import opened QrTypes

  /** Bitwise XOR of the low n bits of two naturals. */
  function XorBits(a: nat, c: nat, n: nat): nat
  {
    if n == 0 then 0
    else 2 * XorBits(a / 2, c / 2, n - 1) + Differ(a, c)
  }

  /** The XOR of n bits fits in n bits. */
  lemma {:induction false} XorBitsBelow(a: nat, c: nat, n: nat)
    ensures XorBits(a, c, n) < Pow2(n)
  {
    if n > 0 {
      XorBitsBelow(a / 2, c / 2, n - 1);
    }
  }

  /** 1 when the lowest bits of a and c differ. */
  function Differ(a: nat, c: nat): nat
  {
    if a % 2 == c % 2 then 0 else 1
  }

  /** `a ^ c` on bytes: the field's addition, which is also its subtraction. Bit i
      of the result is set where bit i of the operands differs. */
  function Xor(a: byte, c: byte): byte
  {
    XorLayer(a, c, 2)
  }

  /** The solver does not unfold these layers unasked, so that proofs about field
      elements do not drag the bit arithmetic along; XorDef states the definition. */
  function XorLayer(a: byte, c: byte, k: nat): byte
    decreases k, a, c
  {
    if k == 0 then
      Differ(a, c) + 2 * Differ(a / 2, c / 2) + 4 * Differ(a / 4, c / 4) + 8 * Differ(a / 8, c / 8)
      + 16 * Differ(a / 16, c / 16) + 32 * Differ(a / 32, c / 32) + 64 * Differ(a / 64, c / 64)
      + 128 * Differ(a / 128, c / 128)
    else XorLayer(a, c, k - 1)
  }

  /** The eight weighted bit differences are the bit recursion XorBits over eight bits. */
  lemma XorDef(a: byte, c: byte)
    ensures Xor(a, c) == XorBits(a, c, 8)
  {
    assert XorLayer(a, c, 2) == XorLayer(a, c, 1) == XorLayer(a, c, 0);
    assert a / 2 / 2 == a / 4 && c / 2 / 2 == c / 4;
    assert a / 4 / 2 == a / 8 && c / 4 / 2 == c / 8;
    assert a / 8 / 2 == a / 16 && c / 8 / 2 == c / 16;
    assert a / 16 / 2 == a / 32 && c / 16 / 2 == c / 32;
    assert a / 32 / 2 == a / 64 && c / 32 / 2 == c / 64;
    assert a / 64 / 2 == a / 128 && c / 64 / 2 == c / 128;
    assert XorBits(a / 128, c / 128, 1) == Differ(a / 128, c / 128);
    assert XorBits(a / 64, c / 64, 2) == Differ(a / 64, c / 64) + 2 * Differ(a / 128, c / 128);
    assert XorBits(a / 32, c / 32, 3) == Differ(a / 32, c / 32) + 2 * XorBits(a / 64, c / 64, 2);
    assert XorBits(a / 16, c / 16, 4) == Differ(a / 16, c / 16) + 2 * XorBits(a / 32, c / 32, 3);
    assert XorBits(a / 8, c / 8, 5) == Differ(a / 8, c / 8) + 2 * XorBits(a / 16, c / 16, 4);
    assert XorBits(a / 4, c / 4, 6) == Differ(a / 4, c / 4) + 2 * XorBits(a / 8, c / 8, 5);
    assert XorBits(a / 2, c / 2, 7) == Differ(a / 2, c / 2) + 2 * XorBits(a / 4, c / 4, 6);
  }

  /** Bit i of `a ^ c` is set exactly when bit i is set in one operand only. */
  lemma {:induction false} XorBitsGetBit(a: nat, c: nat, n: nat, i: nat)
    requires i < n
    ensures GetBit(XorBits(a, c, n), i) == (GetBit(a, i) != GetBit(c, i))
  {
    if i == 0 {
      assert Pow2(0) == 1;
    } else {
      GetBitHalf(XorBits(a, c, n), i - 1);
      GetBitHalf(a, i - 1);
      GetBitHalf(c, i - 1);
      XorBitsGetBit(a / 2, c / 2, n - 1, i - 1);
    }
  }

  lemma {:induction false} XorBitsComm(a: nat, c: nat, n: nat)
    ensures XorBits(a, c, n) == XorBits(c, a, n)
  {
    if n > 0 {
      XorBitsComm(a / 2, c / 2, n - 1);
    }
  }

  lemma {:induction false} XorBitsZero(a: nat, n: nat)
    requires a < Pow2(n)
    ensures XorBits(a, 0, n) == a
  {
    if n > 0 {
      XorBitsZero(a / 2, n - 1);
    }
  }

  lemma {:induction false} XorBitsSelf(a: nat, n: nat)
    ensures XorBits(a, a, n) == 0
  {
    if n > 0 {
      XorBitsSelf(a / 2, n - 1);
    }
  }

  lemma {:induction false} XorBitsAssoc(a: nat, c: nat, d: nat, n: nat)
    ensures XorBits(XorBits(a, c, n), d, n) == XorBits(a, XorBits(c, d, n), n)
  {
    if n > 0 {
      var ac, cd := XorBits(a, c, n), XorBits(c, d, n);
      assert ac / 2 == XorBits(a / 2, c / 2, n - 1) && ac % 2 == (if a % 2 == c % 2 then 0 else 1);
      assert cd / 2 == XorBits(c / 2, d / 2, n - 1) && cd % 2 == (if c % 2 == d % 2 then 0 else 1);
      XorBitsAssoc(a / 2, c / 2, d / 2, n - 1);
    }
  }

  /** Doubling both operands shifts their XOR up one bit. */
  lemma XorBitsDouble(a: nat, c: nat, n: nat)
    ensures XorBits(2 * a, 2 * c, n + 1) == 2 * XorBits(a, c, n)
  {
    assert (2 * a) / 2 == a && (2 * c) / 2 == c;
  }

  /** Operands below 2^n have no bit n to contribute. */
  lemma {:induction false} XorBitsWiden(a: nat, c: nat, n: nat)
    requires a < Pow2(n) && c < Pow2(n)
    ensures XorBits(a, c, n + 1) == XorBits(a, c, n)
  {
    if n > 0 {
      XorBitsWiden(a / 2, c / 2, n - 1);
    }
  }

  /** Bit k set in the first operand only is set in the XOR, above the XOR of the rest. */
  lemma {:induction false} XorBitsHigh(k: nat, l1: nat, l2: nat)
    requires l1 < Pow2(k) && l2 < Pow2(k)
    ensures XorBits(Pow2(k) + l1, l2, k + 1) == Pow2(k) + XorBits(l1, l2, k)
  {
    if k > 0 {
      var h := Pow2(k - 1);
      assert Pow2(k) == 2 * h;
      assert (2 * h + l1) / 2 == h + l1 / 2 && (2 * h + l1) % 2 == l1 % 2;
      XorBitsHigh(k - 1, l1 / 2, l2 / 2);
    }
  }

  /** Bit k set in both operands cancels. */
  lemma {:induction false} XorBitsHighHigh(k: nat, l1: nat, l2: nat)
    requires l1 < Pow2(k) && l2 < Pow2(k)
    ensures XorBits(Pow2(k) + l1, Pow2(k) + l2, k + 1) == XorBits(l1, l2, k)
  {
    if k > 0 {
      var h := Pow2(k - 1);
      assert Pow2(k) == 2 * h;
      assert (2 * h + l1) / 2 == h + l1 / 2 && (2 * h + l1) % 2 == l1 % 2;
      assert (2 * h + l2) / 2 == h + l2 / 2 && (2 * h + l2) % 2 == l2 % 2;
      XorBitsHighHigh(k - 1, l1 / 2, l2 / 2);
    }
  }

  /** XOR on bytes is bitwise: bit i of the sum is the exclusive or of the operands' bits. */
  lemma XorGetBit(a: byte, c: byte, i: nat)
    requires i < 8
    ensures GetBit(Xor(a, c), i) == (GetBit(a, i) != GetBit(c, i))
  {
    XorDef(a, c);
    XorBitsGetBit(a, c, 8, i);
  }

  lemma XorZero(a: byte)
    ensures Xor(a, 0) == a && Xor(0, a) == a
  {
    assert Pow2(8) == 256;
    XorDef(a, 0);
    XorDef(0, a);
    XorBitsZero(a, 8);
    XorBitsComm(a, 0, 8);
  }

  /** Every element is its own additive inverse. */
  lemma XorSelf(a: byte)
    ensures Xor(a, a) == 0
  {
    XorDef(a, a);
    XorBitsSelf(a, 8);
  }

  lemma XorComm(a: byte, c: byte)
    ensures Xor(a, c) == Xor(c, a)
  {
    XorDef(a, c);
    XorDef(c, a);
    XorBitsComm(a, c, 8);
  }

  lemma XorAssoc(a: byte, c: byte, d: byte)
    ensures Xor(Xor(a, c), d) == Xor(a, Xor(c, d))
  {
    XorDef(a, c);
    XorDef(Xor(a, c), d);
    XorDef(c, d);
    XorDef(a, Xor(c, d));
    XorBitsAssoc(a, c, d, 8);
  }

  /** Regrouping a sum of four. */
  lemma XorAcross(p: byte, q: byte, r: byte, s: byte)
    ensures Xor(Xor(p, q), Xor(r, s)) == Xor(Xor(p, r), Xor(q, s))
  {
    XorAssoc(p, q, Xor(r, s));
    XorAssoc(q, r, s);
    XorComm(q, r);
    XorAssoc(r, q, s);
    XorAssoc(p, r, Xor(q, s));
  }

  /** `v` when the bit is set, else zero: `bit * v` for a bit of 0 or 1. */
  function Select(b: bool, v: byte): byte
  {
    if b then v else 0
  }

  lemma SelectAcross(b: bool, p: byte, q: byte, r: byte, s: byte)
    ensures Xor(Select(b, Xor(p, q)), Xor(r, s)) == Xor(Xor(Select(b, p), r), Xor(Select(b, q), s))
  {
    if b {
      XorAcross(p, q, r, s);
    } else {
      XorZero(r);
      XorZero(s);
      XorZero(Xor(r, s));
    }
  }

  /** `(z << 1) ^ ((z >> 7) * 0x1D)` on a `u8`: the shift drops bit 7, which comes
      back as the reduction by 0x11D. This is multiplication by alpha = x. */
  function XTime(z: byte): byte
  {
    XTimeLayer(z, 1)
  }

  /** `XTime` behind one layer, so that the field lemmas do not unfold its shift and
      reduction; `XTimeDef` opens it. */
  function XTimeLayer(z: byte, k: nat): byte
    decreases k
  {
    if k > 0 then XTimeLayer(z, k - 1) else Xor((2 * z as int) % 256, (z / 128) * 0x1D)
  }

  lemma XTimeDef(z: byte)
    ensures XTime(z) == Xor((2 * z as int) % 256, (z / 128) * 0x1D)
  {
    assert XTime(z) == XTimeLayer(z, 0);
  }

  /** Bytes below 128 sum to a byte below 128. */
  lemma XorLowLow(a: byte, c: byte)
    requires a < 128 && c < 128
    ensures Xor(a, c) == XorBits(a, c, 7) < 128
  {
    assert Pow2(7) == 128;
    XorDef(a, c);
    XorBitsWiden(a, c, 7);
    XorBitsBelow(a, c, 7);
  }

  /** Bit 7 set on one side only is set in the sum, above the sum of the rest. */
  lemma XorHighLow(a: byte, c: byte)
    requires a >= 128 && c < 128
    ensures Xor(a, c) == 128 + XorBits(a - 128, c, 7) && XorBits(a - 128, c, 7) < 128
  {
    assert Pow2(7) == 128;
    var l := a - 128;
    XorDef(a, c);
    XorBitsHigh(7, l, c);
    assert Pow2(7) + l == a;
    XorBitsBelow(l, c, 7);
  }

  /** Bit 7 set on both sides cancels. */
  lemma XorHighHigh(a: byte, c: byte)
    requires a >= 128 && c >= 128
    ensures Xor(a, c) == XorBits(a - 128, c - 128, 7) < 128
  {
    assert Pow2(7) == 128;
    var l1, l2 := a - 128, c - 128;
    XorDef(a, c);
    XorBitsHighHigh(7, l1, l2);
    assert Pow2(7) + l1 == a && Pow2(7) + l2 == c;
    XorBitsBelow(l1, l2, 7);
  }

  /** Sums of doubled bytes below 128 are the doubled sums. */
  lemma XorDouble(a: byte, c: byte)
    requires a < 128 && c < 128
    ensures Xor(2 * a, 2 * c) == 2 * XorBits(a, c, 7)
  {
    XorDef(2 * a, 2 * c);
    XorBitsDouble(a, c, 7);
  }

  lemma XTimeZero()
    ensures XTime(0) == 0
  {
    XTimeDef(0);
    XorZero(0);
  }

  /** Below 128 the shift loses nothing and no reduction happens. */
  lemma XTimeLow(z: byte)
    requires z < 128
    ensures XTime(z) == 2 * z
  {
    XTimeDef(z);
    assert z / 128 == 0;
    assert (2 * z as int) % 256 == 2 * z;
    XorZero(2 * z);
  }

  /** From 128 on, bit 7 is shifted out and 0x1D is added back. */
  lemma XTimeHigh(z: byte)
    requires z >= 128
    ensures XTime(z) == Xor(2 * (z - 128), 0x1D)
  {
    XTimeDef(z);
    assert z / 128 == 1;
    assert (2 * z as int) % 256 == 2 * (z - 128);
  }

  /** The case of XTimeLinear where neither operand has bit 7 set. */
  lemma XTimeLinearLowLow(a: byte, c: byte)
    requires a < 128 && c < 128
    ensures XTime(Xor(a, c)) == Xor(XTime(a), XTime(c))
  {
    XorLowLow(a, c);
    XorDouble(a, c);
    XTimeLow(a);
    XTimeLow(c);
    XTimeLow(Xor(a, c));
  }

  /** The case of XTimeLinear where only the first operand has bit 7 set. */
  lemma XTimeLinearHighLow(a: byte, c: byte)
    requires a >= 128 && c < 128
    ensures XTime(Xor(a, c)) == Xor(XTime(a), XTime(c))
  {
    XorHighLow(a, c);
    var p, q := 2 * (a - 128), 2 * c;
    XTimeHigh(a);
    XTimeLow(c);
    XorDouble(a - 128, c);
    XTimeHigh(Xor(a, c));
    assert XTime(Xor(a, c)) == Xor(Xor(p, q), 0x1D);
    XorAssoc(p, 0x1D, q);
    XorComm(0x1D, q);
    XorAssoc(p, q, 0x1D);
  }

  /** The case of XTimeLinear where both operands have bit 7 set: the two
      reductions cancel. */
  lemma XTimeLinearHighHigh(a: byte, c: byte)
    requires a >= 128 && c >= 128
    ensures XTime(Xor(a, c)) == Xor(XTime(a), XTime(c))
  {
    XorHighHigh(a, c);
    var p, q := 2 * (a - 128), 2 * (c - 128);
    XorDouble(a - 128, c - 128);
    XTimeHigh(a);
    XTimeHigh(c);
    XTimeLow(Xor(a, c));
    XorAcross(p, 0x1D, q, 0x1D);
    XorSelf(0x1D);
    XorZero(Xor(p, q));
  }

  /** Multiplication by alpha distributes over addition. */
  lemma XTimeLinear(a: byte, c: byte)
    ensures XTime(Xor(a, c)) == Xor(XTime(a), XTime(c))
  {
    if a < 128 && c < 128 {
      XTimeLinearLowLow(a, c);
    } else if c < 128 {
      XTimeLinearHighLow(a, c);
    } else if a < 128 {
      XTimeLinearHighLow(c, a);
      XorComm(a, c);
      XorComm(XTime(a), XTime(c));
    } else {
      XTimeLinearHighHigh(a, c);
    }
  }

  lemma {:induction false} NoBitOfZero(i: nat)
    ensures !GetBit(0, i)
  {
    if i > 0 {
      GetBitHalf(0, i - 1);
      NoBitOfZero(i - 1);
    }
  }

  lemma NoHighBitOfOne(i: nat)
    requires 1 <= i
    ensures !GetBit(1, i)
  {
    GetBitHalf(1, i - 1);
    NoBitOfZero(i - 1);
  }

  lemma NoHighBitOfTwo(i: nat)
    requires 2 <= i
    ensures !GetBit(2, i)
  {
    GetBitHalf(2, i - 1);
    NoHighBitOfOne(i - 1);
  }

  lemma LowBits()
    ensures GetBit(1, 0) && !GetBit(2, 0) && GetBit(2, 1)
  {
    assert Pow2(1) == 2;
  }
}

/** Reed-Solomon error correction as in qrcode-lib/src/qrcode.rs: multiplication of
    field elements, the generator polynomial of a given degree (the divisor) and
    the remainder of a message divided by it. Polynomials are sequences of
    coefficients from the highest power down. */
module ReedSolomon {
  import opened QrTypes
  import opened GaloisField

  /*---- Multiplication ----*/

  /** x times alpha to the k. */
  function XTimes(x: byte, k: nat): byte
    decreases k, x
  {
    if k == 0 then x else XTime(XTimes(x, k - 1))
  }

  /** alpha to the i. */
  function Alpha(i: nat): byte
  {
    XTimes(1, i)
  }

  /** The sum, over the set bits j >= i of y, of x times alpha to the j. */
  function BitSum(x: byte, y: byte, i: nat): byte
    requires i <= 8
    decreases 8 - i, x, y
  {
    if i == 8 then 0 else Xor(Select(GetBit(y, i), XTimes(x, i)), BitSum(x, y, i + 1))
  }

  /** The field product, as polynomials over GF(2) reduced modulo 0x11D: the sum of
      x times alpha to the j over the set bits j of y. */
  function Mul(x: byte, y: byte): byte
  {
    BitSum(x, y, 0)
  }

  /** The product as `reed_solomon_multiply` accumulates it, from the top bit of y
      down: the value once the bits 7 down to i have been taken in. */
  function Horner(x: byte, y: byte, i: nat): byte
    requires i <= 8
    decreases 8 - i, x, y
  {
    if i == 8 then 0 else Xor(XTime(Horner(x, y, i + 1)), Select(GetBit(y, i), x))
  }

  lemma {:induction false} XTimesLinear(a: byte, c: byte, k: nat)
    ensures XTimes(Xor(a, c), k) == Xor(XTimes(a, k), XTimes(c, k))
  {
    if k > 0 {
      XTimesLinear(a, c, k - 1);
      XTimeLinear(XTimes(a, k - 1), XTimes(c, k - 1));
    }
  }

  lemma {:induction false} XTimesSucc(h: byte, k: nat)
    ensures XTimes(XTime(h), k) == XTimes(h, k + 1)
  {
    if k > 0 {
      XTimesSucc(h, k - 1);
    }
  }

  lemma {:induction false} XTimesZero(k: nat)
    ensures XTimes(0, k) == 0
  {
    XTimeZero();
    if k > 0 {
      XTimesZero(k - 1);
    }
  }

  /** Horner's accumulation of the bits >= i, times alpha to the i, is their bit sum. */
  lemma {:induction false} HornerTail(x: byte, y: byte, i: nat)
    requires i <= 8
    ensures XTimes(Horner(x, y, i), i) == BitSum(x, y, i)
    decreases 8 - i
  {
    if i == 8 {
      XTimesZero(i);
    } else {
      var h := Select(GetBit(y, i), x);
      var hi := Horner(x, y, i + 1);
      HornerTail(x, y, i + 1);
      XTimesLinear(XTime(hi), h, i);
      XTimesSucc(hi, i);
      XTimesZero(i);
      XorComm(XTimes(hi, i + 1), XTimes(h, i));
    }
  }

  /** `reed_solomon_multiply`: the product of two field elements, accumulated from
      the top bit of y down by doubling (`(z << 1) ^ ((z >> 7) * 0x1D)`) and adding
      x wherever y has a set bit. */
  method ReedSolomonMultiply(x: byte, y: byte) returns (z: byte)
    ensures z == Mul(x, y)
  {
    z := 0;
    var i := 8;
    while i > 0
      invariant 0 <= i <= 8
      invariant z == Horner(x, y, i)
    {
      i := i - 1;
      XTimeDef(z);
      z := Xor((2 * z as int) % 256, (z / 128) * 0x1D);
      z := Xor(z, Select(GetBit(y, i), x));
    }
    HornerTail(x, y, 0);
  }

  lemma {:induction false} BitSumByZero(x: byte, i: nat)
    requires i <= 8
    ensures BitSum(x, 0, i) == 0
    decreases 8 - i
  {
    if i < 8 {
      NoBitOfZero(i);
      BitSumByZero(x, i + 1);
      XorZero(0);
    }
  }

  lemma {:induction false} BitSumOfZero(y: byte, i: nat)
    requires i <= 8
    ensures BitSum(0, y, i) == 0
    decreases 8 - i
  {
    if i < 8 {
      XTimesZero(i);
      BitSumOfZero(y, i + 1);
      XorZero(0);
    }
  }

  lemma {:induction false} BitSumHighBitsOfOne(x: byte, i: nat)
    requires 1 <= i <= 8
    ensures BitSum(x, 1, i) == 0
    decreases 8 - i
  {
    if i < 8 {
      NoHighBitOfOne(i);
      BitSumHighBitsOfOne(x, i + 1);
      XorZero(0);
    }
  }

  lemma {:induction false} BitSumHighBitsOfTwo(x: byte, i: nat)
    requires 2 <= i <= 8
    ensures BitSum(x, 2, i) == 0
    decreases 8 - i
  {
    if i < 8 {
      NoHighBitOfTwo(i);
      BitSumHighBitsOfTwo(x, i + 1);
      XorZero(0);
    }
  }

  /** Zero absorbs on either side. */
  lemma MulZero(x: byte)
    ensures Mul(x, 0) == 0 && Mul(0, x) == 0
  {
    BitSumByZero(x, 0);
    BitSumOfZero(x, 0);
  }

  /** One is neutral. */
  lemma MulOne(x: byte)
    ensures Mul(x, 1) == x
  {
    BitSumHighBitsOfOne(x, 1);
    LowBits();
    assert Mul(x, 1) == Xor(x, BitSum(x, 1, 1));
    XorZero(x);
  }

  /** One is neutral on the left too: with x = 1 the accumulation reads y back. */
  lemma MulOneLeft(y: byte)
    ensures Mul(1, y) == y
  {
    HornerTail(1, y, 0);
    HornerOfOne(y, 0);
    assert Pow2(0) == 1 && y / 1 == y;
    assert XTimes(Horner(1, y, 0), 0) == Horner(1, y, 0);
  }

  /** Horner's accumulation of the bits 7 down to i of y, with x = 1, is y / 2^i. */
  lemma {:induction false} HornerOfOne(y: byte, i: nat)
    requires i <= 8
    ensures Horner(1, y, i) == y / Pow2(i)
    decreases 8 - i
  {
    if i == 8 {
      assert Pow2(8) == 256;
    } else {
      HornerOfOne(y, i + 1);
      DivPow2Twice(y, i);
      DivAtMost(y, Pow2(i));
      GetBitShift(y, i);
      ShiftInBit(y / Pow2(i));
    }
  }

  /** A byte is twice its half plus its lowest bit: doubling the half and adding
      the bit gives it back. */
  lemma ShiftInBit(w: byte)
    ensures Xor(XTime(w / 2), Select(w % 2 == 1, 1)) == w
  {
    XTimeLow(w / 2);
    XorLowBit(w / 2, w % 2 == 1);
  }

  lemma DivAtMost(x: nat, a: nat)
    requires a > 0
    ensures x / a <= x
  {
    var q := x / a;
    assert x == a * q + x % a;
    MulAtLeast(q, a);
    assert q * a == a * q;
  }

  /** Halving the quotient by 2^i gives the quotient by 2^(i+1). */
  lemma {:induction false} DivPow2Twice(x: nat, i: nat)
    ensures (x / Pow2(i)) / 2 == x / Pow2(i + 1)
  {
    if i == 0 {
      assert Pow2(0) == 1 && Pow2(1) == 2;
    } else {
      DivPow2Succ(x, i - 1);
      DivPow2Twice(x / 2, i - 1);
      DivPow2Succ(x, i);
    }
  }

  /** Adding 0 or 1 to an even byte sets its lowest bit. */
  lemma XorLowBit(z: byte, b: bool)
    requires z < 128
    ensures Xor(2 * z, Select(b, 1)) == 2 * z + (if b then 1 else 0)
  {
    if b {
      XorDef(2 * z, 1);
      assert (2 * z) / 2 == z && 1 / 2 == 0;
      assert Pow2(7) == 128;
      XorBitsZero(z, 7);
    } else {
      XorZero(2 * z);
    }
  }

  /** Multiplying by 0x02 is multiplying by alpha. */
  lemma MulTwo(x: byte)
    ensures Mul(x, 2) == XTime(x)
  {
    BitSumHighBitsOfTwo(x, 2);
    LowBits();
    assert BitSum(x, 2, 1) == Xor(XTimes(x, 1), BitSum(x, 2, 2));
    assert XTimes(x, 1) == XTime(x);
    XorZero(XTime(x));
    assert Mul(x, 2) == Xor(0, BitSum(x, 2, 1));
  }

  lemma {:induction false} BitSumLinear(a: byte, c: byte, y: byte, i: nat)
    requires i <= 8
    ensures BitSum(Xor(a, c), y, i) == Xor(BitSum(a, y, i), BitSum(c, y, i))
    decreases 8 - i
  {
    if i == 8 {
      XorZero(0);
    } else {
      XTimesLinear(a, c, i);
      BitSumLinear(a, c, y, i + 1);
      SelectAcross(GetBit(y, i), XTimes(a, i), XTimes(c, i), BitSum(a, y, i + 1), BitSum(c, y, i + 1));
    }
  }

  /** Multiplication distributes over addition of field elements. */
  lemma MulDistributes(a: byte, c: byte, y: byte)
    ensures Mul(Xor(a, c), y) == Xor(Mul(a, y), Mul(c, y))
  {
    BitSumLinear(a, c, y, 0);
  }

  /*---- Polynomials ----*/

  function Zeros(n: nat): (r: seq<byte>)
    ensures |r| == n && forall i :: 0 <= i < n ==> r[i] == 0
  {
    seq(n, _ => 0)
  }

  /** The coefficient of x^t in p(x) * (x + r). */
  function LinearCoef(p: seq<byte>, r: byte, t: int): byte
  {
    Xor(Coef(p, t - 1), Mul(Coef(p, t), r))
  }

  /** The product of polynomial p with (x + r); subtraction is addition here. */
  function MulLinear(p: seq<byte>, r: byte): (q: seq<byte>)
    ensures |q| == |p| + 1
  {
    seq(|p| + 1, k => LinearCoef(p, r, |p| - k))
  }

  /** The generator polynomial of degree k: the product of (x + alpha^i) for i < k.
      It is monic. */
  function Generator(k: nat): (g: seq<byte>)
    ensures |g| == k + 1 && g[0] == 1
  {
    if k == 0 then [1]
    else
      var p := Generator(k - 1);
      MulLinearMonic(p, Alpha(k - 1));
      MulLinear(p, Alpha(k - 1))
  }

  /** Multiplying a monic polynomial by (x + r) keeps it monic. */
  lemma MulLinearMonic(p: seq<byte>, r: byte)
    requires |p| > 0 && p[0] == 1
    ensures MulLinear(p, r)[0] == 1
  {
    assert MulLinear(p, r)[0] == LinearCoef(p, r, |p|);
    assert Coef(p, |p|) == 0 && Coef(p, |p| - 1) == 1;
    MulZero(r);
    XorZero(1);
  }

  /** Entry j of s, zero outside it. */
  function At(s: seq<byte>, j: int): byte
  {
    if 0 <= j < |s| then s[j] else 0
  }

  /** The coefficient of x^t in p. */
  function Coef(p: seq<byte>, t: int): byte
  {
    At(p, |p| - 1 - t)
  }

  /** The coefficients of x^(n-1) down to x^0 of p: what the divisor's array of n
      entries holds while p is built up. */
  function Window(p: seq<byte>, n: nat): (w: seq<byte>)
    ensures |w| == n
    ensures forall j :: 0 <= j < n ==> w[j] == Coef(p, n - 1 - j)
  {
    seq(n, j => Coef(p, n - 1 - j))
  }

  /** One outer round of `reed_solomon_compute_divisor` on its array: each entry j
      becomes `entry * root` plus the entry to its right (zero past the end). */
  function DivisorStep(a: seq<byte>, root: byte): (c: seq<byte>)
    ensures |c| == |a|
  {
    seq(|a|, j => Xor(Mul(At(a, j), root), At(a, j + 1)))
  }

  lemma CoefOfMulLinear(p: seq<byte>, root: byte, t: int)
    requires 0 <= t
    ensures Coef(MulLinear(p, root), t) == Xor(Mul(Coef(p, t), root), Coef(p, t - 1))
  {
    if t > |p| {
      MulZero(root);
      XorZero(0);
    } else {
      assert MulLinear(p, root)[|p| - t] == LinearCoef(p, root, t);
      XorComm(Coef(p, t - 1), Mul(Coef(p, t), root));
    }
  }

  /** The in-place round multiplies the polynomial held in the window by (x + root). */
  lemma WindowStep(p: seq<byte>, root: byte, n: nat)
    ensures Window(MulLinear(p, root), n) == DivisorStep(Window(p, n), root)
  {
    var lhs := Window(MulLinear(p, root), n);
    var rhs := DivisorStep(Window(p, n), root);
    forall j | 0 <= j < n
      ensures lhs[j] == rhs[j]
    {
      WindowStepAt(p, root, n, j);
    }
  }

  lemma WindowStepAt(p: seq<byte>, root: byte, n: nat, j: nat)
    requires j < n
    ensures Window(MulLinear(p, root), n)[j] == DivisorStep(Window(p, n), root)[j]
  {
    var w := Window(p, n);
    CoefOfMulLinear(p, root, n - 1 - j);
    DivisorStepEntry(w, root, j);
    var right := if j + 1 < n then w[j + 1] else 0;
    assert right == Coef(p, n - 1 - j - 1);
  }

  lemma DivisorStepEntry(a: seq<byte>, root: byte, j: nat)
    requires j < |a|
    ensures DivisorStep(a, root)[j] == Xor(Mul(a[j], root), if j + 1 < |a| then a[j + 1] else 0)
  {
  }

  /** Before the first round the array holds the constant polynomial 1. */
  lemma WindowOfGeneratorZero(degree: nat)
    requires degree >= 1
    ensures Zeros(degree - 1) + [1] == Window(Generator(0), degree)
  {
    var w := Window(Generator(0), degree);
    forall j | 0 <= j < degree
      ensures (Zeros(degree - 1) + [1])[j] == w[j]
    {
    }
  }

  /** Round i turns the window of the degree-i generator into that of degree i + 1. */
  lemma GeneratorStep(i: nat, n: nat)
    requires i < n
    ensures Window(Generator(i + 1), n) == DivisorStep(Window(Generator(i), n), Alpha(i))
  {
    WindowStep(Generator(i), Alpha(i), n);
  }

  /** Once all `degree` roots are multiplied in, the window holds every coefficient
      but the leading one. */
  lemma WindowOfGenerator(degree: nat)
    ensures Window(Generator(degree), degree) == Generator(degree)[1..]
  {
    var g := Generator(degree);
    forall j | 0 <= j < degree
      ensures Window(g, degree)[j] == g[1..][j]
    {
    }
  }

  /** One round of the outer loop of `reed_solomon_compute_divisor`: the array is
      multiplied by (x + root) in place, left to right, each entry reading its right
      neighbour before that is updated. */
  method DivisorRound(a: seq<byte>, root: byte) returns (result: seq<byte>)
    ensures result == DivisorStep(a, root)
  {
    result := a;
    ghost var step := DivisorStep(a, root);
    for j := 0 to |a|
      invariant |result| == |a|
      invariant forall k :: 0 <= k < j ==> result[k] == step[k]
      invariant forall k :: j <= k < |a| ==> result[k] == a[k]
    {
      DivisorStepEntry(a, root, j);
      var v := ReedSolomonMultiply(result[j], root);
      if j + 1 < |a| {
        v := Xor(v, result[j + 1]);
      } else {
        XorZero(v);
      }
      assert v == step[j];
      result := result[j := v];
    }
  }

  /** `reed_solomon_compute_divisor`: the generator polynomial of the given degree
      without its leading coefficient 1; the assertion on the degree is the
      precondition. Round i multiplies the polynomial held in `result` by
      (x + alpha^i). */
  method ReedSolomonComputeDivisor(degree: nat) returns (result: seq<byte>)
    requires 1 <= degree <= 255
    ensures |result| == degree
    ensures [1] + result == Generator(degree)
  {
    result := Zeros(degree - 1) + [1];
    WindowOfGeneratorZero(degree);
    var root := 1;
    for i := 0 to degree
      invariant result == Window(Generator(i), degree)
      invariant root == Alpha(i)
    {
      GeneratorStep(i, degree);
      result := DivisorRound(result, root);
      MulTwo(root);
      root := ReedSolomonMultiply(root, 2);
    }
    WindowOfGenerator(degree);
  }

  /*---- The remainder ----*/

  /** One data byte through the division: the leading remainder coefficient is
      shifted out, and the divisor scaled by `byte + that coefficient` is added. */
  function RemainderStep(rem: seq<byte>, divisor: seq<byte>, b: byte): (r: seq<byte>)
    requires |rem| == |divisor| >= 1
    ensures |r| == |divisor|
  {
    var factor := Xor(b, rem[0]);
    seq(|divisor|, j => Xor(At(rem, j + 1), Mul(At(divisor, j), factor)))
  }

  /** The remainder after the bytes of `data`, starting from `rem`. */
  function RemainderFrom(rem: seq<byte>, data: seq<byte>, divisor: seq<byte>): (r: seq<byte>)
    requires |rem| == |divisor| && (|divisor| >= 1 || data == [])
    ensures |r| == |divisor|
    decreases |data|
  {
    if data == [] then rem
    else RemainderFrom(RemainderStep(rem, divisor, data[0]), data[1..], divisor)
  }

  /** The remainder of data(x) * x^n divided by the monic polynomial x^n + divisor(x),
      n = |divisor|, computed byte by byte. */
  function Remainder(data: seq<byte>, divisor: seq<byte>): (r: seq<byte>)
    requires |divisor| >= 1 || data == []
    ensures |r| == |divisor|
  {
    RemainderFrom(Zeros(|divisor|), data, divisor)
  }

  /** Dividing a concatenation: the second part continues from the first part's remainder. */
  lemma {:induction false} RemainderFromConcat(rem: seq<byte>, a: seq<byte>, c: seq<byte>, divisor: seq<byte>)
    requires |rem| == |divisor| >= 1
    ensures RemainderFrom(rem, a + c, divisor) == RemainderFrom(RemainderFrom(rem, a, divisor), c, divisor)
    decreases |a|
  {
    if a != [] {
      assert (a + c)[0] == a[0] && (a + c)[1..] == a[1..] + c;
      RemainderFromConcat(RemainderStep(rem, divisor, a[0]), a[1..], c, divisor);
    } else {
      assert a + c == c;
    }
  }

  /** Feeding a remainder its own leading coefficients cancels them one by one. */
  lemma {:induction false} RemainderCancels(u: seq<byte>, m: nat, divisor: seq<byte>)
    requires |u| + m == |divisor| >= 1
    ensures RemainderFrom(u + Zeros(m), u, divisor) == Zeros(|divisor|)
    decreases |u|
  {
    if u == [] {
      assert u + Zeros(m) == Zeros(|divisor|);
    } else {
      var rem := u + Zeros(m);
      var next := RemainderStep(rem, divisor, u[0]);
      XorSelf(u[0]);
      forall j | 0 <= j < |divisor|
        ensures next[j] == (u[1..] + Zeros(m + 1))[j]
      {
        MulZero(divisor[j]);
        XorZero((rem[1..] + [0])[j]);
      }
      assert next == u[1..] + Zeros(m + 1);
      RemainderCancels(u[1..], m + 1, divisor);
    }
  }

  /** A message followed by its error correction codewords leaves remainder zero
      when it is run through the same byte-by-byte division, which is what a reader
      checks. */
  lemma CodewordHasZeroRemainder(data: seq<byte>, divisor: seq<byte>)
    requires |divisor| >= 1
    ensures Remainder(data + Remainder(data, divisor), divisor) == Zeros(|divisor|)
  {
    var ecc := Remainder(data, divisor);
    RemainderFromConcat(Zeros(|divisor|), data, ecc, divisor);
    assert ecc + Zeros(0) == ecc;
    RemainderCancels(ecc, 0, divisor);
  }

  /*---- Division with remainder ----*/

  /** The sum of two polynomials given with the same number of coefficients. */
  function AddPoly(a: seq<byte>, c: seq<byte>): (r: seq<byte>)
    requires |a| == |c|
    ensures |r| == |a|
  {
    seq(|a|, j requires 0 <= j < |a| => Xor(a[j], c[j]))
  }

  /** g(x) times the constant f. */
  function Scale(g: seq<byte>, f: byte): (r: seq<byte>)
    ensures |r| == |g|
  {
    seq(|g|, j requires 0 <= j < |g| => Mul(g[j], f))
  }

  /** The product q(x) * g(x), by Horner's rule on q: when q is q' followed by its
      constant coefficient f, q(x) g(x) = x (q'(x) g(x)) + f g(x). */
  function PolyMul(q: seq<byte>, g: seq<byte>): (r: seq<byte>)
    requires |g| >= 1
    ensures |r| == |q| + |g| - 1
    decreases |q|
  {
    if q == [] then Zeros(|g| - 1)
    else
      var m := |q| - 1;
      AddPoly(PolyMul(q[..m], g) + [0], Zeros(m) + Scale(g, q[m]))
  }

  /** The quotient digits: the factor by which each data byte scales the divisor. */
  function QuotientFrom(rem: seq<byte>, data: seq<byte>, divisor: seq<byte>): (q: seq<byte>)
    requires |rem| == |divisor| >= 1
    ensures |q| == |data|
    decreases |data|
  {
    if data == [] then []
    else [Xor(data[0], rem[0])] + QuotientFrom(RemainderStep(rem, divisor, data[0]), data[1..], divisor)
  }

  function Quotient(data: seq<byte>, divisor: seq<byte>): (q: seq<byte>)
    requires |divisor| >= 1
    ensures |q| == |data|
  {
    QuotientFrom(Zeros(|divisor|), data, divisor)
  }

  /** One data byte keeps `done(x) x^n + rem(x) == q(x) (x^n + divisor(x))`. */
  lemma DivisionStep(done: seq<byte>, rem: seq<byte>, q: seq<byte>, divisor: seq<byte>, b: byte)
    requires |rem| == |divisor| >= 1 && |q| == |done|
    requires done + rem == PolyMul(q, [1] + divisor)
    ensures done + [b] + RemainderStep(rem, divisor, b) == PolyMul(q + [Xor(b, rem[0])], [1] + divisor)
  {
    PolyMulSnoc(q, Xor(b, rem[0]), [1] + divisor);
    StepEntries(done, rem, divisor, b);
  }

  /** The byte step, coefficient by coefficient: the data byte lands where the
      leading remainder coefficient was, and the rest is the shifted remainder plus
      the scaled divisor. */
  lemma StepEntries(done: seq<byte>, rem: seq<byte>, divisor: seq<byte>, b: byte)
    requires |rem| == |divisor| >= 1
    ensures var f := Xor(b, rem[0]);
            done + [b] + RemainderStep(rem, divisor, b) == AddPoly(done + rem + [0], Zeros(|done|) + Scale([1] + divisor, f))
  {
    var g, f, m, n := [1] + divisor, Xor(b, rem[0]), |done|, |divisor|;
    var next := RemainderStep(rem, divisor, b);
    var a, c := done + rem + [0], Zeros(m) + Scale(g, f);
    var lhs, rhs := done + [b] + next, AddPoly(a, c);
    forall t | 0 <= t < m + n + 1
      ensures lhs[t] == rhs[t]
    {
      if t < m {
        XorZero(done[t]);
      } else if t == m {
        MulOneLeft(f);
        LeadCancels(b, rem[0]);
      } else {
        var j := t - m - 1;
        assert lhs[t] == next[j];
        assert a[t] == At(rem, j + 1) && c[t] == Mul(divisor[j], f);
      }
    }
  }

  /** The leading remainder coefficient plus the factor is the data byte. */
  lemma LeadCancels(b: byte, r: byte)
    ensures Xor(r, Xor(b, r)) == b
  {
    XorComm(b, r);
    XorAssoc(r, r, b);
    XorSelf(r);
    XorZero(b);
  }

  lemma {:induction false} DivisionFrom(done: seq<byte>, rem: seq<byte>, q: seq<byte>, data: seq<byte>, divisor: seq<byte>)
    requires |rem| == |divisor| >= 1 && |q| == |done|
    requires done + rem == PolyMul(q, [1] + divisor)
    ensures done + data + RemainderFrom(rem, data, divisor) == PolyMul(q + QuotientFrom(rem, data, divisor), [1] + divisor)
    decreases |data|
  {
    if data == [] {
      assert done + data == done && q + [] == q;
    } else {
      var b := data[0];
      var next, f := RemainderStep(rem, divisor, b), Xor(b, rem[0]);
      DivisionStep(done, rem, q, divisor, b);
      DivisionFrom(done + [b], next, q + [f], data[1..], divisor);
      ConsRegroup(done, b, data[1..], data);
      ConsRegroup(q, f, QuotientFrom(next, data[1..], divisor), QuotientFrom(rem, data, divisor));
    }
  }

  lemma ConsRegroup(a: seq<byte>, x: byte, b: seq<byte>, c: seq<byte>)
    requires c == [x] + b
    ensures a + [x] + b == a + c
  {
  }

  /** Division with remainder: with n = |divisor|, data(x) x^n + ecc(x) equals
      q(x) (x^n + divisor(x)), where ecc is the remainder of the byte-by-byte
      division and q its quotient; subtraction is addition in this field. */
  lemma DivisionIdentity(data: seq<byte>, divisor: seq<byte>)
    requires |divisor| >= 1
    ensures data + Remainder(data, divisor) == PolyMul(Quotient(data, divisor), [1] + divisor)
  {
    var n, none := |divisor|, [];
    assert PolyMul(none, [1] + divisor) == Zeros(n);
    assert none + Zeros(n) == Zeros(n);
    DivisionFrom(none, Zeros(n), none, data, divisor);
    assert none + data == data;
    assert none + Quotient(data, divisor) == Quotient(data, divisor);
  }

  /** Appending a constant coefficient f to q leaves the first |q| coefficients of
      the product alone and adds f to the next one, g being monic. */
  lemma ExtendPrefix(q: seq<byte>, f: byte, g: seq<byte>)
    requires |g| >= 2 && g[0] == 1
    ensures PolyMul(q + [f], g)[..|q|] == PolyMul(q, g)[..|q|]
    ensures PolyMul(q + [f], g)[|q|] == Xor(PolyMul(q, g)[|q|], f)
  {
    PolyMulSnoc(q, f, g);
    ExtendEntries(PolyMul(q, g), f, g, |q|);
  }

  /** The same on the unfolded sum: p stands for q(x) g(x), m for |q|. */
  lemma ExtendEntries(p: seq<byte>, f: byte, g: seq<byte>, m: nat)
    requires |g| >= 2 && g[0] == 1 && |p| == m + |g| - 1
    ensures AddPoly(p + [0], Zeros(m) + Scale(g, f))[..m] == p[..m]
    ensures AddPoly(p + [0], Zeros(m) + Scale(g, f))[m] == Xor(p[m], f)
  {
    var c := Zeros(m) + Scale(g, f);
    ExtendKeeps(p, c, m);
    assert c[m] == Mul(1, f);
    MulOneLeft(f);
  }

  /** The product with q followed by f, unfolded once. */
  lemma PolyMulSnoc(q: seq<byte>, f: byte, g: seq<byte>)
    requires |g| >= 1
    ensures PolyMul(q + [f], g) == AddPoly(PolyMul(q, g) + [0], Zeros(|q|) + Scale(g, f))
  {
    assert (q + [f])[..|q|] == q;
  }

  /** Adding c, zero in its first m entries, keeps the first m entries of p. */
  lemma ExtendKeeps(p: seq<byte>, c: seq<byte>, m: nat)
    requires m <= |p| && |p| + 1 == |c|
    requires forall t :: 0 <= t < m ==> c[t] == 0
    ensures AddPoly(p + [0], c)[..m] == p[..m]
  {
    var r := AddPoly(p + [0], c);
    forall t | 0 <= t < m
      ensures r[t] == p[t]
    {
      XorZero(p[t]);
    }
  }

  /** The first k coefficients of q(x) g(x) depend on the first k of q only. */
  lemma {:induction false} PrefixStable(q: seq<byte>, k: nat, g: seq<byte>)
    requires k <= |q| && |g| >= 2 && g[0] == 1
    ensures PolyMul(q, g)[..k] == PolyMul(q[..k], g)[..k]
    decreases |q|
  {
    if k < |q| {
      var m := |q| - 1;
      var q0 := q[..m];
      assert q == q0 + [q[m]];
      ExtendPrefix(q0, q[m], g);
      PrefixStable(q0, k, g);
      assert q0[..k] == q[..k];
      assert PolyMul(q, g)[..k] == PolyMul(q, g)[..m][..k];
      assert PolyMul(q0, g)[..k] == PolyMul(q0, g)[..m][..k];
    } else {
      assert q[..k] == q;
    }
  }

  /** Coefficient k of q(x) g(x), for k < |q|, is q_k plus what q's earlier
      coefficients put there. */
  lemma EntryAt(q: seq<byte>, k: nat, g: seq<byte>)
    requires k < |q| && |g| >= 2 && g[0] == 1
    ensures PolyMul(q, g)[k] == Xor(PolyMul(q[..k], g)[k], q[k])
  {
    PrefixStable(q, k + 1, g);
    assert q[..k + 1] == q[..k] + [q[k]];
    ExtendPrefix(q[..k], q[k], g);
    assert PolyMul(q, g)[k] == PolyMul(q, g)[..k + 1][k];
  }

  lemma XorCancel(c: byte, a: byte, b: byte)
    requires Xor(c, a) == Xor(c, b)
    ensures a == b
  {
    XorAssoc(c, c, a);
    XorAssoc(c, c, b);
    XorSelf(c);
    XorZero(a);
    XorZero(b);
  }

  /** Two multiples of a monic g whose leading |q| coefficients agree have the same
      first k quotient coefficients. */
  lemma {:induction false} QuotientPrefix(q1: seq<byte>, q2: seq<byte>, g: seq<byte>, k: nat)
    requires |q1| == |q2| && k <= |q1| && |g| >= 2 && g[0] == 1
    requires PolyMul(q1, g)[..|q1|] == PolyMul(q2, g)[..|q2|]
    ensures q1[..k] == q2[..k]
  {
    if k > 0 {
      QuotientPrefix(q1, q2, g, k - 1);
      var i := k - 1;
      EntryAt(q1, i, g);
      EntryAt(q2, i, g);
      assert PolyMul(q1, g)[i] == PolyMul(q1, g)[..|q1|][i];
      assert PolyMul(q2, g)[i] == PolyMul(q2, g)[..|q2|][i];
      XorCancel(PolyMul(q1[..i], g)[i], q1[i], q2[i]);
      assert q1[..k] == q1[..i] + [q1[i]] && q2[..k] == q2[..i] + [q2[i]];
    }
  }

  /** The quotient and the remainder are unique: any q and r of the right lengths
      with data(x) x^n + r(x) == q(x) (x^n + divisor(x)) are the ones the division
      computes. */
  lemma RemainderUnique(data: seq<byte>, divisor: seq<byte>, q: seq<byte>, r: seq<byte>)
    requires |divisor| >= 1 && |r| == |divisor| && |q| == |data|
    requires data + r == PolyMul(q, [1] + divisor)
    ensures q == Quotient(data, divisor) && r == Remainder(data, divisor)
  {
    var g, m := [1] + divisor, |data|;
    var q0, r0 := Quotient(data, divisor), Remainder(data, divisor);
    DivisionIdentity(data, divisor);
    assert (data + r)[..m] == data == (data + r0)[..m];
    QuotientPrefix(q, q0, g, m);
    assert q == q[..m] && q0 == q0[..m];
    assert r == (data + r)[m..] && r0 == (data + r0)[m..];
  }

  /** With the divisor of degree n, a block followed by its error correction
      codewords is a multiple of the generator, the product of (x + alpha^i) for
      i < n: it is a Reed-Solomon codeword. */
  lemma CodewordIsGeneratorMultiple(data: seq<byte>, n: nat)
    requires n >= 1
    ensures var divisor := Generator(n)[1..];
            data + Remainder(data, divisor) == PolyMul(Quotient(data, divisor), Generator(n))
  {
    var g := Generator(n);
    assert [1] + g[1..] == g;
    DivisionIdentity(data, g[1..]);
  }

  /** `reed_solomon_compute_remainder`: the error correction codewords of `data`. */
  method ReedSolomonComputeRemainder(data: seq<byte>, divisor: seq<byte>) returns (result: seq<byte>)
    requires |divisor| >= 1 || data == []
    ensures result == Remainder(data, divisor)
    ensures |divisor| >= 1 ==> data + result == PolyMul(Quotient(data, divisor), [1] + divisor)
  {
    result := Zeros(|divisor|);
    for i := 0 to |data|
      invariant |result| == |divisor|
      invariant RemainderFrom(result, data[i..], divisor) == Remainder(data, divisor)
    {
      assert data[i..][0] == data[i] && data[i..][1..] == data[i + 1..];
      ghost var target := RemainderStep(result, divisor, data[i]);
      var factor := Xor(data[i], result[0]);
      result := result[1..];
      result := result + [0];
      ghost var shifted := result;
      for j := 0 to |divisor|
        invariant |result| == |divisor|
        invariant forall k :: 0 <= k < j ==> result[k] == target[k]
        invariant forall k :: j <= k < |divisor| ==> result[k] == shifted[k]
      {
        var prod := ReedSolomonMultiply(divisor[j], factor);
        result := result[j := Xor(result[j], prod)];
      }
      assert result == target;
    }
    assert data[|data|..] == [];
    if |divisor| >= 1 {
      DivisionIdentity(data, divisor);
    }
  }
}
