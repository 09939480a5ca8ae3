/** Format information (error correction level and mask, protected by a (15, 5) BCH
    code and XORed with 0x5412) and version information (the version number,
    protected by an (18, 6) BCH code), as `draw_format_bits` and `draw_version`
    compute them before drawing. */
module FormatInfo {
  import opened QrTypes
  import opened GaloisField

  const FormatGenerator: nat := 0x537
  const FormatXorMask: nat := 0x5412
  const VersionGenerator: nat := 0x1F25

  lemma Pow2Values()
    ensures Pow2(9) == 512 && Pow2(10) == 1024 && Pow2(11) == 2048
    ensures Pow2(12) == 4096 && Pow2(13) == 8192 && Pow2(15) == 32768 && Pow2(18) == 262144
  {
  }

  /*---- The remainder loop ----*/

  /** A generator of degree `deg`: its top bit is bit `deg`. */
  predicate IsGenerator(deg: nat, gen: nat)
  {
    deg >= 1 && Pow2(deg) <= gen < Pow2(deg + 1)
  }

  /** 0x537 has degree 10 and 0x1F25 degree 12. */
  lemma GeneratorsOk()
    ensures IsGenerator(10, FormatGenerator) && IsGenerator(12, VersionGenerator)
  {
    Pow2Values();
  }

  /** One turn of the remainder loop, `rem = (rem << 1) ^ ((rem >> (deg - 1)) * gen)`:
      shift left, and when a bit leaves the `deg`-bit register XOR the generator in.
      The register has `deg` bits, so `rem >> (deg - 1)` is its top bit and the
      product is the generator or 0. Both operands are below 2^(deg + 1), so the XOR
      of that many bits is exact. */
  function BchStep(rem: nat, deg: nat, gen: nat): (r: nat)
    requires IsGenerator(deg, gen) && rem < Pow2(deg)
    ensures r < Pow2(deg)
  {
    BchStepLayer(rem, deg, gen, 1)
  }

  /** `BchStep` behind one layer, so that proofs about many turns do not unroll the
      bits of each; `BchStepDef` opens it. */
  function BchStepLayer(rem: nat, deg: nat, gen: nat, k: nat): (r: nat)
    requires IsGenerator(deg, gen) && rem < Pow2(deg)
    ensures r < Pow2(deg)
    decreases k
  {
    if k > 0 then BchStepLayer(rem, deg, gen, k - 1)
    else
      BchStepBound(rem, deg, gen);
      XorBits(2 * rem, if rem >= Pow2(deg - 1) then gen else 0, deg + 1)
  }

  lemma BchStepDef(rem: nat, deg: nat, gen: nat)
    requires IsGenerator(deg, gen) && rem < Pow2(deg)
    ensures BchStep(rem, deg, gen) == XorBits(2 * rem, if rem >= Pow2(deg - 1) then gen else 0, deg + 1)
  {
    assert BchStep(rem, deg, gen) == BchStepLayer(rem, deg, gen, 0);
  }

  /** The register after `steps` turns of the loop, starting from the data. */
  function BchRemainder(data: nat, deg: nat, gen: nat, steps: nat): (r: nat)
    requires IsGenerator(deg, gen) && data < Pow2(deg)
    ensures r < Pow2(deg)
  {
    if steps == 0 then data else BchStep(BchRemainder(data, deg, gen, steps - 1), deg, gen)
  }

  /** The shifted-out bit cancels the generator's top bit, so the register keeps
      `deg` bits. */
  lemma BchStepBound(rem: nat, deg: nat, gen: nat)
    requires IsGenerator(deg, gen) && rem < Pow2(deg)
    ensures XorBits(2 * rem, if rem >= Pow2(deg - 1) then gen else 0, deg + 1) < Pow2(deg)
  {
    var half := Pow2(deg - 1);
    assert Pow2(deg) == 2 * half;
    assert Pow2(deg + 1) == 2 * Pow2(deg);
    if rem < half {
      XorBitsZero(2 * rem, deg + 1);
    } else {
      var l1 := 2 * rem - Pow2(deg);
      var l2 := gen - Pow2(deg);
      assert 2 * rem == Pow2(deg) + l1 && gen == Pow2(deg) + l2;
      XorBitsHighHigh(deg, l1, l2);
      XorBitsBelow(l1, l2, deg);
    }
  }

  /*---- Polynomials over GF(2) ----*/

  // Bit i of a natural is the coefficient of x^i of a polynomial over GF(2). The
  // definitions below do not use the remainder loop; they state what it computes.

  /** The sum of two polynomials over GF(2): the XOR of all their bits, of any width. */
  function NatXor(a: nat, c: nat): nat
    decreases a + c
  {
    if a == 0 && c == 0 then 0 else 2 * NatXor(a / 2, c / 2) + Differ(a, c)
  }

  /** The product q(x) g(x) over GF(2), by Horner's rule from the top bit of q: double
      the product of the higher bits, then add g when the lowest bit of q is set. */
  function ClMul(q: nat, g: nat): nat
    decreases q
  {
    if q == 0 then 0 else NatXor(2 * ClMul(q / 2, g), if q % 2 == 1 then g else 0)
  }

  /** `x << k`: x doubled k times, the polynomial x(X) times X^k. */
  function Shl(x: nat, k: nat): nat
  {
    if k == 0 then x else 2 * Shl(x, k - 1)
  }

  lemma {:induction false} ShlPow2(x: nat, k: nat)
    ensures Shl(x, k) == x * Pow2(k)
  {
    if k > 0 {
      ShlPow2(x, k - 1);
      assert x * Pow2(k) == x * (2 * Pow2(k - 1)) == 2 * (x * Pow2(k - 1));
    }
  }

  lemma NatXorUnfold(a: nat, c: nat)
    ensures NatXor(a, c) == 2 * NatXor(a / 2, c / 2) + Differ(a, c)
  {
    if a == 0 && c == 0 {
      assert NatXor(0, 0) == 0;
    }
  }

  lemma {:induction false} Pow2Exceeds(n: nat)
    ensures n < Pow2(n)
  {
    if n > 0 {
      Pow2Exceeds(n - 1);
    }
  }

  /** On operands of n bits, the XOR of the register is the polynomial sum. */
  lemma {:induction false} NatXorBits(a: nat, c: nat, n: nat)
    requires a < Pow2(n) && c < Pow2(n)
    ensures XorBits(a, c, n) == NatXor(a, c)
  {
    NatXorUnfold(a, c);
    if n > 0 {
      assert Pow2(n) == 2 * Pow2(n - 1);
      NatXorBits(a / 2, c / 2, n - 1);
    }
  }

  lemma NatXorBelow(a: nat, c: nat, n: nat)
    requires a < Pow2(n) && c < Pow2(n)
    ensures NatXor(a, c) < Pow2(n)
  {
    NatXorBits(a, c, n);
    XorBitsBelow(a, c, n);
  }

  lemma NatXorComm(a: nat, c: nat)
    ensures NatXor(a, c) == NatXor(c, a)
  {
    Pow2Exceeds(a + c);
    NatXorBits(a, c, a + c);
    NatXorBits(c, a, a + c);
    XorBitsComm(a, c, a + c);
  }

  lemma NatXorZero(a: nat)
    ensures NatXor(a, 0) == a && NatXor(0, a) == a
  {
    Pow2Exceeds(a);
    NatXorBits(a, 0, a);
    XorBitsZero(a, a);
    NatXorComm(a, 0);
  }

  lemma NatXorSelf(a: nat)
    ensures NatXor(a, a) == 0
  {
    Pow2Exceeds(a);
    NatXorBits(a, a, a);
    XorBitsSelf(a, a);
  }

  lemma NatXorAssoc(a: nat, c: nat, d: nat)
    ensures NatXor(NatXor(a, c), d) == NatXor(a, NatXor(c, d))
  {
    var n := a + c + d;
    Pow2Exceeds(n);
    NatXorBelow(a, c, n);
    NatXorBelow(c, d, n);
    NatXorBits(a, c, n);
    NatXorBits(c, d, n);
    NatXorBits(NatXor(a, c), d, n);
    NatXorBits(a, NatXor(c, d), n);
    XorBitsAssoc(a, c, d, n);
  }

  /** A sum of four regroups freely. */
  lemma NatXorAcross(a: nat, b: nat, c: nat, d: nat)
    ensures NatXor(NatXor(a, b), NatXor(c, d)) == NatXor(NatXor(a, c), NatXor(b, d))
  {
    NatXorAssoc(a, b, NatXor(c, d));
    NatXorAssoc(b, c, d);
    NatXorComm(b, c);
    NatXorAssoc(c, b, d);
    NatXorAssoc(a, c, NatXor(b, d));
  }

  /** Adding a twice cancels it. */
  lemma NatXorCancel(h: nat, a: nat, c: nat)
    ensures NatXor(NatXor(h, a), NatXor(h, c)) == NatXor(a, c)
  {
    NatXorAcross(h, a, h, c);
    NatXorSelf(h);
    NatXorZero(NatXor(a, c));
  }

  /** Two polynomials whose sum is zero are equal. */
  lemma NatXorZeroEqual(a: nat, c: nat)
    requires NatXor(a, c) == 0
    ensures a == c
  {
    NatXorAssoc(a, c, c);
    NatXorSelf(c);
    NatXorZero(a);
    NatXorZero(c);
  }

  /** Multiplying both operands by x multiplies their sum by x. */
  lemma NatXorDouble(a: nat, c: nat)
    ensures NatXor(2 * a, 2 * c) == 2 * NatXor(a, c)
  {
    NatXorUnfold(2 * a, 2 * c);
    assert (2 * a) / 2 == a && (2 * c) / 2 == c;
  }

  /** Adding a polynomial of degree below k to a multiple of x^k sets its low bits. */
  lemma {:induction false} NatXorLow(h: nat, r: nat, k: nat)
    requires r < Pow2(k)
    ensures NatXor(Shl(h, k), r) == Shl(h, k) + r
  {
    if k == 0 {
      NatXorZero(h);
    } else {
      var m := Shl(h, k - 1);
      assert Pow2(k) == 2 * Pow2(k - 1);
      NatXorLow(h, r / 2, k - 1);
      NatXorUnfold(2 * m, r);
      assert (2 * m) / 2 == m;
    }
  }

  /** Adding a polynomial of degree below m keeps a term of degree m or more. */
  lemma {:induction false} NatXorKeepsHigh(a: nat, c: nat, m: nat)
    requires c < Pow2(m) <= a
    ensures NatXor(a, c) >= Pow2(m)
  {
    if m == 0 {
      NatXorZero(a);
    } else {
      assert Pow2(m) == 2 * Pow2(m - 1);
      NatXorUnfold(a, c);
      NatXorKeepsHigh(a / 2, c / 2, m - 1);
    }
  }

  lemma ClMulUnfold(q: nat, g: nat)
    ensures ClMul(q, g) == NatXor(2 * ClMul(q / 2, g), if q % 2 == 1 then g else 0)
  {
    if q == 0 {
      NatXorZero(0);
    }
  }

  /** The lowest bit of a sum of polynomials selects g as the two lowest bits do. */
  lemma SelectSum(p: nat, q: nat, g: nat)
    ensures NatXor(if p % 2 == 1 then g else 0, if q % 2 == 1 then g else 0)
         == if NatXor(p, q) % 2 == 1 then g else 0
  {
    NatXorUnfold(p, q);
    NatXorZero(g);
    NatXorSelf(g);
    NatXorSelf(0);
  }

  /** The product distributes over the sum of the first factors. */
  lemma {:induction false} ClMulLinear(p: nat, q: nat, g: nat)
    ensures NatXor(ClMul(p, g), ClMul(q, g)) == ClMul(NatXor(p, q), g)
    decreases p + q
  {
    if p == 0 && q == 0 {
      NatXorSelf(0);
    } else {
      var s := NatXor(p, q);
      NatXorUnfold(p, q);
      assert s / 2 == NatXor(p / 2, q / 2);
      ClMulLinear(p / 2, q / 2, g);
      ClMulUnfold(p, g);
      ClMulUnfold(q, g);
      ClMulUnfold(s, g);
      var a, c := ClMul(p / 2, g), ClMul(q / 2, g);
      NatXorAcross(2 * a, if p % 2 == 1 then g else 0, 2 * c, if q % 2 == 1 then g else 0);
      NatXorDouble(a, c);
      SelectSum(p, q, g);
    }
  }

  /** A nonzero multiple of a generator of degree deg has degree deg or more. */
  lemma {:induction false} ClMulAtLeast(q: nat, g: nat, deg: nat)
    requires IsGenerator(deg, g)
    ensures q == 0 || ClMul(q, g) >= Pow2(deg)
    decreases q
  {
    if q > 0 {
      ClMulUnfold(q, g);
      if q == 1 {
        NatXorZero(g);
      } else {
        ClMulAtLeast(q / 2, g, deg);
        assert Pow2(deg + 1) == 2 * Pow2(deg);
        NatXorKeepsHigh(2 * ClMul(q / 2, g), if q % 2 == 1 then g else 0, deg + 1);
      }
    }
  }

  /** The quotient bits the remainder loop shifts out, one per turn: bit 0 is the
      turn just taken, set when the register's top bit was. */
  function BchQuotient(data: nat, deg: nat, gen: nat, steps: nat): nat
    requires IsGenerator(deg, gen) && data < Pow2(deg)
  {
    if steps == 0 then 0
    else
      2 * BchQuotient(data, deg, gen, steps - 1)
      + (if BchRemainder(data, deg, gen, steps - 1) >= Pow2(deg - 1) then 1 else 0)
  }

  /** Division with remainder over GF(2): after `steps` turns the register r satisfies
      data(x) x^steps + r(x) == q(x) gen(x), q being the bits shifted out. */
  /** Division with remainder over GF(2): after `steps` turns the register r satisfies
      data(x) x^steps + r(x) == q(x) gen(x), q being the bits shifted out. */
  lemma BchDivision(data: nat, deg: nat, gen: nat, steps: nat)
    requires IsGenerator(deg, gen) && data < Pow2(deg)
    ensures NatXor(Shl(data, steps), BchRemainder(data, deg, gen, steps))
         == ClMul(BchQuotient(data, deg, gen, steps), gen)
  {
    BchDivisionStart(data, deg, gen);
    for s := 0 to steps
      invariant NatXor(Shl(data, s), BchRemainder(data, deg, gen, s))
             == ClMul(BchQuotient(data, deg, gen, s), gen)
    {
      BchDivisionStep(data, deg, gen, s);
    }
  }

  /** Before the first turn the register holds the data and the quotient is empty. */
  lemma BchDivisionStart(data: nat, deg: nat, gen: nat)
    requires IsGenerator(deg, gen) && data < Pow2(deg)
    ensures NatXor(Shl(data, 0), BchRemainder(data, deg, gen, 0)) == ClMul(BchQuotient(data, deg, gen, 0), gen)
  {
    NatXorSelf(data);
    assert BchRemainder(data, deg, gen, 0) == data && BchQuotient(data, deg, gen, 0) == 0;
    assert ClMul(0, gen) == 0;
  }

  /** One turn of the loop carries the division identity from s turns to s + 1. */
  lemma BchDivisionStep(data: nat, deg: nat, gen: nat, s: nat)
    requires IsGenerator(deg, gen) && data < Pow2(deg)
    requires NatXor(Shl(data, s), BchRemainder(data, deg, gen, s)) == ClMul(BchQuotient(data, deg, gen, s), gen)
    ensures NatXor(Shl(data, s + 1), BchRemainder(data, deg, gen, s + 1))
         == ClMul(BchQuotient(data, deg, gen, s + 1), gen)
  {
    var rem, q := BchRemainder(data, deg, gen, s), BchQuotient(data, deg, gen, s);
    BchTurn(Shl(data, s), rem, q, deg, gen);
    BchQuotientStep(data, deg, gen, s);
  }

  lemma BchQuotientStep(data: nat, deg: nat, gen: nat, s: nat)
    requires IsGenerator(deg, gen) && data < Pow2(deg)
    ensures var rem := BchRemainder(data, deg, gen, s);
      BchRemainder(data, deg, gen, s + 1) == BchStep(rem, deg, gen) &&
      BchQuotient(data, deg, gen, s + 1)
        == 2 * BchQuotient(data, deg, gen, s) + (if rem >= Pow2(deg - 1) then 1 else 0)
  {
  }

  /** One turn of the loop keeps the division identity, with the shifted-out bit
      appended to the quotient. */
  lemma BchTurn(h: nat, rem: nat, q: nat, deg: nat, gen: nat)
    requires IsGenerator(deg, gen) && rem < Pow2(deg)
    requires NatXor(h, rem) == ClMul(q, gen)
    ensures NatXor(2 * h, BchStep(rem, deg, gen))
         == ClMul(2 * q + (if rem >= Pow2(deg - 1) then 1 else 0), gen)
  {
    var top := if rem >= Pow2(deg - 1) then gen else 0;
    BchStepDef(rem, deg, gen);
    assert Pow2(deg + 1) == 2 * Pow2(deg);
    NatXorBits(2 * rem, top, deg + 1);
    TurnAlgebra(h, rem, q, if rem >= Pow2(deg - 1) then 1 else 0, gen, BchStep(rem, deg, gen));
  }

  /** Shifting `h + rem == q gen` by x and adding the bit t of the quotient times the
      generator gives `2h + next == (2q + t) gen`, next being the new register. */
  lemma TurnAlgebra(h: nat, rem: nat, q: nat, t: nat, gen: nat, next: nat)
    requires t <= 1 && NatXor(h, rem) == ClMul(q, gen)
    requires next == NatXor(2 * rem, if t == 1 then gen else 0)
    ensures NatXor(2 * h, next) == ClMul(2 * q + t, gen)
  {
    var top := if t == 1 then gen else 0;
    ClMulUnfold(2 * q + t, gen);
    assert (2 * q + t) / 2 == q && (2 * q + t) % 2 == t;
    assert ClMul(2 * q + t, gen) == NatXor(2 * ClMul(q, gen), top);
    NatXorDouble(h, rem);
    NatXorAssoc(2 * h, 2 * rem, top);
  }

  /** The register is the only polynomial of degree below deg that completes
      data(x) x^steps to a multiple of the generator. */
  lemma BchRemainderUnique(data: nat, deg: nat, gen: nat, steps: nat, q: nat, r: nat)
    requires IsGenerator(deg, gen) && data < Pow2(deg) && r < Pow2(deg)
    requires NatXor(Shl(data, steps), r) == ClMul(q, gen)
    ensures r == BchRemainder(data, deg, gen, steps)
  {
    BchDivision(data, deg, gen, steps);
    MultipleUnique(Shl(data, steps), r, BchRemainder(data, deg, gen, steps),
      q, BchQuotient(data, deg, gen, steps), deg, gen);
  }

  /** Two polynomials of degree below deg that complete h(x) to multiples of the
      generator are equal: their sum is a multiple of degree below deg, so zero. */
  lemma MultipleUnique(h: nat, r1: nat, r2: nat, q1: nat, q2: nat, deg: nat, gen: nat)
    requires IsGenerator(deg, gen) && r1 < Pow2(deg) && r2 < Pow2(deg)
    requires NatXor(h, r1) == ClMul(q1, gen) && NatXor(h, r2) == ClMul(q2, gen)
    ensures r1 == r2
  {
    NatXorCancel(h, r1, r2);
    ClMulLinear(q1, q2, gen);
    NatXorBelow(r1, r2, deg);
    ClMulAtLeast(NatXor(q1, q2), gen, deg);
    assert ClMul(0, gen) == 0;
    NatXorZeroEqual(r1, r2);
  }

  /*---- Format information ----*/

  /** The five data bits: the level's two format bits, then the three mask bits
      (`format_bits() << 3 | mask`; the OR is an addition, the mask being below 8). */
  function FormatData(ecl: Ecc, mask: Mask): (r: nat)
    ensures r < 32
  {
    FormatBits(ecl) * 8 + mask
  }

  /** The ten check bits: the remainder loop run ten times with generator 0x537. */
  function FormatCheck(ecl: Ecc, mask: Mask): (r: nat)
    ensures r < 1024
  {
    FormatCheckLayer(ecl, mask, 1)
  }

  /** `FormatCheck` behind one layer, so that proofs about the word do not unroll the
      ten turns of the loop; `FormatCheckDef` opens it. */
  function FormatCheckLayer(ecl: Ecc, mask: Mask, k: nat): (r: nat)
    ensures r < 1024
    decreases k
  {
    if k > 0 then FormatCheckLayer(ecl, mask, k - 1)
    else
      Pow2Values();
      BchRemainder(FormatData(ecl, mask), 10, FormatGenerator, 10)
  }

  lemma FormatCheckDef(ecl: Ecc, mask: Mask)
    ensures Pow2(10) == 1024
    ensures FormatCheck(ecl, mask) == BchRemainder(FormatData(ecl, mask), 10, FormatGenerator, 10)
  {
    Pow2Values();
    assert FormatCheck(ecl, mask) == FormatCheckLayer(ecl, mask, 0);
  }

  /** The unmasked 15-bit codeword `data << 10 | rem`. */
  function FormatCodeword(ecl: Ecc, mask: Mask): (r: nat)
    ensures r < 32768
  {
    FormatData(ecl, mask) * 1024 + FormatCheck(ecl, mask)
  }

  /** The drawn format word: the codeword XOR 0x5412. */
  function FormatWord(ecl: Ecc, mask: Mask): (r: nat)
    ensures r < 32768
  {
    MaskFormat(FormatCodeword(ecl, mask))
  }

  /** XOR with 0x5412 on 15 bits. */
  function MaskFormat(w: nat): (r: nat)
    ensures r < 32768
  {
    MaskFormatLayer(w, 1)
  }

  /** `MaskFormat` behind one layer, so that proofs about format words do not unroll
      the fifteen bits of the XOR; `MaskFormatDef` opens it. */
  function MaskFormatLayer(w: nat, k: nat): (r: nat)
    ensures r < 32768
    decreases k
  {
    if k > 0 then MaskFormatLayer(w, k - 1)
    else
      XorBitsBelow(w, FormatXorMask, 15);
      Pow2Values();
      XorBits(w, FormatXorMask, 15)
  }

  lemma MaskFormatDef(w: nat)
    ensures MaskFormat(w) == XorBits(w, FormatXorMask, 15)
  {
    assert MaskFormat(w) == MaskFormatLayer(w, 0);
  }

  /** XORing with the mask twice gives back a 15-bit value. */
  lemma MaskFormatInvolution(w: nat)
    requires w < 32768
    ensures MaskFormat(MaskFormat(w)) == w
  {
    MaskFormatDef(w);
    MaskFormatDef(MaskFormat(w));
    XorBitsAssoc(w, FormatXorMask, FormatXorMask, 15);
    XorBitsSelf(FormatXorMask, 15);
    Pow2Values();
    XorBitsZero(w, 15);
  }

  /** The error correction level whose format bits are `b` (the inverse of `format_bits`). */
  function EccOfFormatBits(b: nat): (r: Option<Ecc>)
    ensures r.Some? <==> b < 4
    ensures r.Some? ==> FormatBits(r.value) == b
  {
    if b == 1 then Some(Low)
    else if b == 0 then Some(Medium)
    else if b == 3 then Some(Quartile)
    else if b == 2 then Some(High)
    else None
  }

  /** What a reader recovers from a format word: unmask, re-derive the ten check bits
      from the five data bits and compare them with those read, then split the level
      bits from the mask bits. */
  function DecodeFormat(word: nat): (r: Option<(Ecc, Mask)>)
  {
    var codeword := MaskFormat(word);
    var data := codeword / 1024;
    Pow2Values();
    GeneratorsOk();
    if codeword % 1024 != BchRemainder(data, 10, FormatGenerator, 10) then None
    else
      match EccOfFormatBits(data / 8)
      case Some(ecl) => Some((ecl, NewMask(data % 8)))
      case None => None
  }

  /** The format word carries the level and the mask: decoding it gives them back,
      so the eight masks and four levels give 32 distinct words. */
  lemma DecodeFormatWord(ecl: Ecc, mask: Mask)
    ensures DecodeFormat(FormatWord(ecl, mask)) == Some((ecl, mask))
  {
    MaskFormatInvolution(FormatCodeword(ecl, mask));
    FormatCodewordParts(ecl, mask);
    FormatDataParts(ecl, mask);
    FormatCheckDef(ecl, mask);
    assert EccOfFormatBits(FormatBits(ecl)) == Some(ecl);
  }

  /** A word the reader accepts is the format word of the level and mask it reads:
      with the round trip, the reader accepts exactly the 32 format words. */
  lemma DecodeFormatSound(word: nat, ecl: Ecc, mask: Mask)
    requires word < 32768 && DecodeFormat(word) == Some((ecl, mask))
    ensures word == FormatWord(ecl, mask)
  {
    var codeword := MaskFormat(word);
    var data := codeword / 1024;
    assert FormatBits(ecl) == data / 8 && mask == data % 8;
    assert data == FormatData(ecl, mask);
    FormatCheckDef(ecl, mask);
    assert codeword == FormatCodeword(ecl, mask);
    MaskFormatInvolution(word);
  }

  lemma FormatCodewordParts(ecl: Ecc, mask: Mask)
    ensures FormatCodeword(ecl, mask) / 1024 == FormatData(ecl, mask)
    ensures FormatCodeword(ecl, mask) % 1024 == FormatCheck(ecl, mask)
  {
    DivUnique(FormatCodeword(ecl, mask), 1024, FormatData(ecl, mask), FormatCheck(ecl, mask));
  }

  lemma FormatDataParts(ecl: Ecc, mask: Mask)
    ensures FormatData(ecl, mask) / 8 == FormatBits(ecl) && FormatData(ecl, mask) % 8 == mask
  {
    DivUnique(FormatData(ecl, mask), 8, FormatBits(ecl), mask);
  }

  lemma FormatWordInjective(e1: Ecc, m1: Mask, e2: Ecc, m2: Mask)
    requires FormatWord(e1, m1) == FormatWord(e2, m2)
    ensures e1 == e2 && m1 == m2
  {
    DecodeFormatWord(e1, m1);
    DecodeFormatWord(e2, m2);
  }

  /** The bits the format loop shifts out: the quotient of `data << 10` by 0x537. */
  function FormatQuotient(ecl: Ecc, mask: Mask): nat
  {
    Pow2Values();
    GeneratorsOk();
    BchQuotient(FormatData(ecl, mask), 10, FormatGenerator, 10)
  }

  /** The unmasked format word is a codeword of the (15, 5) BCH code: as a polynomial
      over GF(2) it is a multiple of the generator 0x537. */
  lemma FormatCodewordIsMultiple(ecl: Ecc, mask: Mask)
    ensures FormatCodeword(ecl, mask) == ClMul(FormatQuotient(ecl, mask), FormatGenerator)
  {
    var data := FormatData(ecl, mask);
    Pow2Values();
    GeneratorsOk();
    FormatCheckDef(ecl, mask);
    BchDivision(data, 10, FormatGenerator, 10);
    NatXorLow(data, FormatCheck(ecl, mask), 10);
    ShlPow2(data, 10);
  }

  /** The check bits are the only ten bits that complete `data << 10` to a multiple
      of 0x537: they are the remainder of the division. */
  lemma FormatCheckUnique(ecl: Ecc, mask: Mask, q: nat, r: nat)
    requires r < 1024 && FormatData(ecl, mask) * 1024 + r == ClMul(q, FormatGenerator)
    ensures r == FormatCheck(ecl, mask)
  {
    var data := FormatData(ecl, mask);
    Pow2Values();
    GeneratorsOk();
    FormatCheckDef(ecl, mask);
    ShlPow2(data, 10);
    NatXorLow(data, r, 10);
    BchRemainderUnique(data, 10, FormatGenerator, 10, q, r);
  }

  /** The remainder loop of `draw_format_bits`, then the codeword and the XOR mask. */
  method ComputeFormatWord(ecl: Ecc, mask: Mask) returns (bits: nat)
    ensures bits == FormatWord(ecl, mask)
  {
    var data := FormatBits(ecl) * 8 + mask;
    var rem := data;
    Pow2Values();
    GeneratorsOk();
    for i := 0 to 10
      invariant rem == BchRemainder(data, 10, FormatGenerator, i) < 1024
    {
      FormatStep(data, i);
      rem := XorBits(2 * rem, if rem >= 512 then FormatGenerator else 0, 11);
    }
    FormatCheckDef(ecl, mask);
    var codeword := data * 1024 + rem;
    assert codeword == FormatCodeword(ecl, mask);
    bits := XorBits(codeword, FormatXorMask, 15);
    MaskFormatDef(codeword);
  }

  /** Level M with mask 0 has all five data bits clear, so its check bits are clear
      too and the drawn word is the XOR mask 0x5412 itself. */
  lemma FormatWordMediumZero()
    ensures FormatWord(Medium, 0) == FormatXorMask
  {
    FormatCodewordMediumZero();
    MaskFormatZero();
  }

  lemma FormatCodewordMediumZero()
    ensures FormatCodeword(Medium, 0) == 0
  {
    assert FormatData(Medium, 0) == 0;
    FormatCheckDef(Medium, 0);
    BchRemainderZero(10, FormatGenerator, 10);
  }

  lemma MaskFormatZero()
    ensures MaskFormat(0) == FormatXorMask
  {
    MaskFormatDef(0);
    XorBitsComm(0, FormatXorMask, 15);
    Pow2Values();
    XorBitsZero(FormatXorMask, 15);
  }

  lemma {:induction false} BchRemainderZero(deg: nat, gen: nat, steps: nat)
    requires IsGenerator(deg, gen)
    ensures BchRemainder(0, deg, gen, steps) == 0
  {
    if steps > 0 {
      BchRemainderZero(deg, gen, steps - 1);
      BchStepDef(0, deg, gen);
      XorBitsZero(0, deg + 1);
    }
  }

  lemma FormatStep(data: nat, i: nat)
    requires data < 32
    ensures Pow2(10) == 1024
    ensures var rem := BchRemainder(data, 10, FormatGenerator, i);
      rem < 1024 &&
      BchRemainder(data, 10, FormatGenerator, i + 1) ==
      XorBits(2 * rem, if rem >= 512 then FormatGenerator else 0, 11)
  {
    Pow2Values();
    BchStepDef(BchRemainder(data, 10, FormatGenerator, i), 10, FormatGenerator);
  }

  /*---- Version information ----*/

  /** The twelve check bits: the remainder loop run twelve times with generator 0x1F25. */
  function VersionCheck(ver: Version): (r: nat)
    ensures r < 4096
  {
    VersionCheckLayer(ver, 1)
  }

  function VersionCheckLayer(ver: Version, k: nat): (r: nat)
    ensures r < 4096
    decreases k
  {
    if k > 0 then VersionCheckLayer(ver, k - 1)
    else
      Pow2Values();
      BchRemainder(ver as nat, 12, VersionGenerator, 12)
  }

  lemma VersionCheckDef(ver: Version)
    ensures Pow2(12) == 4096
    ensures VersionCheck(ver) == BchRemainder(ver as nat, 12, VersionGenerator, 12)
  {
    Pow2Values();
    assert VersionCheck(ver) == VersionCheckLayer(ver, 0);
  }

  /** The 18-bit version word `ver << 12 | rem` (no XOR mask). */
  function VersionWord(ver: Version): nat
  {
    ver * 4096 + VersionCheck(ver)
  }

  /** The version word has 18 bits and its top six are the version number. */
  lemma VersionWordDecode(ver: Version)
    ensures VersionWord(ver) < 262144
    ensures VersionWord(ver) / 4096 == ver as nat
  {
    DivUnique(VersionWord(ver), 4096, ver as nat, VersionCheck(ver));
  }

  /** The bits the version loop shifts out: the quotient of `ver << 12` by 0x1F25. */
  function VersionQuotient(ver: Version): nat
  {
    Pow2Values();
    GeneratorsOk();
    BchQuotient(ver as nat, 12, VersionGenerator, 12)
  }

  /** The version word is a codeword of the (18, 6) BCH code: as a polynomial over
      GF(2) it is a multiple of the generator 0x1F25. */
  lemma VersionWordIsMultiple(ver: Version)
    ensures VersionWord(ver) == ClMul(VersionQuotient(ver), VersionGenerator)
  {
    Pow2Values();
    GeneratorsOk();
    VersionCheckDef(ver);
    BchDivision(ver as nat, 12, VersionGenerator, 12);
    NatXorLow(ver as nat, VersionCheck(ver), 12);
    ShlPow2(ver as nat, 12);
  }

  /** The check bits are the only twelve bits that complete `ver << 12` to a multiple
      of 0x1F25. */
  lemma VersionCheckUnique(ver: Version, q: nat, r: nat)
    requires r < 4096 && ver * 4096 + r == ClMul(q, VersionGenerator)
    ensures r == VersionCheck(ver)
  {
    Pow2Values();
    GeneratorsOk();
    VersionCheckDef(ver);
    ShlPow2(ver as nat, 12);
    NatXorLow(ver as nat, r, 12);
    BchRemainderUnique(ver as nat, 12, VersionGenerator, 12, q, r);
  }

  /** The remainder loop of `draw_version`. */
  method ComputeVersionWord(ver: Version) returns (bits: nat)
    ensures bits == VersionWord(ver) && bits < 262144
  {
    Pow2Values();
    var data: nat := ver as nat;
    var rem := data;
    for i := 0 to 12
      invariant rem == BchRemainder(data, 12, VersionGenerator, i)
    {
      BchStepDef(rem, 12, VersionGenerator);
      rem := XorBits(2 * rem, if rem >= 2048 then VersionGenerator else 0, 13);
    }
    VersionCheckDef(ver);
    bits := data * 4096 + rem;
    VersionWordDecode(ver);
  }
}
