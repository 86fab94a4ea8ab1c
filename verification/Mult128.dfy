/** The long multiplications of XXH3 out of 32-bit halves. */
module Mult128 {
  import opened Words
  import opened Bits
  import opened Xxh3

  /** XXH_mult64to128, the portable form; every operation wraps at 64 bits. */
  method PortableMult64to128(lhs: u64, rhs: u64) returns (r: Hash128)
    ensures r.high64 * TWO64 + r.low64 == lhs * rhs
  {
    var loLo := Mult32to64(lhs % TWO32, rhs % TWO32);
    var hiLo := Mult32to64(lhs / TWO32, rhs % TWO32);
    var loHi := Mult32to64(lhs % TWO32, rhs / TWO32);
    var hiHi := Mult32to64(lhs / TWO32, rhs / TWO32);
    Halves(lhs, rhs, loLo, hiLo, loHi, hiHi);
    r := AddProducts(loLo, hiLo, loHi, hiHi);
  }

  /** The sums of the portable form never wrap when each operand is a product of two 32-bit numbers. */
  method AddProducts(loLo: u64, hiLo: u64, loHi: u64, hiHi: u64) returns (r: Hash128)
    requires loLo <= MAX_PRODUCT && hiLo <= MAX_PRODUCT && loHi <= MAX_PRODUCT && hiHi <= MAX_PRODUCT
    ensures r.high64 * TWO64 + r.low64 == hiHi * TWO64 + (hiLo + loHi) * TWO32 + loLo
  {
    var cross: u64 := Add(Add(loLo / TWO32, hiLo % TWO32), loHi);
    assert cross == loLo / TWO32 + hiLo % TWO32 + loHi;
    var upper: u64 := Add(Add(hiLo / TWO32, cross / TWO32), hiHi);
    assert upper == hiLo / TWO32 + cross / TWO32 + hiHi;
    JoinHalves(cross, loLo);
    Carry(loLo, hiLo, loHi, hiHi, cross, upper);
    var lower: u64 := OrNat(ShiftUp32(cross), loLo % TWO32);
    r := Hash128(lower, upper);
  }

  lemma Carry(loLo: u64, hiLo: u64, loHi: u64, hiHi: u64, cross: u64, upper: u64)
    requires cross == loLo / TWO32 + hiLo % TWO32 + loHi
    requires upper == hiLo / TWO32 + cross / TWO32 + hiHi
    ensures upper * TWO64 + (Lo(cross) * TWO32 + Lo(loLo)) == hiHi * TWO64 + (hiLo + loHi) * TWO32 + loLo
  {
    assert loLo == loLo / TWO32 * TWO32 + Lo(loLo);
    assert hiLo == hiLo / TWO32 * TWO32 + hiLo % TWO32;
    assert cross == cross / TWO32 * TWO32 + Lo(cross);
  }

  const MAX_PRODUCT: int := 0xffff_fffe_0000_0001

  /** The four cross products, and what they add up to. */
  lemma Halves(lhs: u64, rhs: u64, loLo: u64, hiLo: u64, loHi: u64, hiHi: u64)
    requires loLo == Mult32to64(lhs % TWO32, rhs % TWO32) && hiLo == Mult32to64(lhs / TWO32, rhs % TWO32)
    requires loHi == Mult32to64(lhs % TWO32, rhs / TWO32) && hiHi == Mult32to64(lhs / TWO32, rhs / TWO32)
    ensures loLo <= MAX_PRODUCT && hiLo <= MAX_PRODUCT && loHi <= MAX_PRODUCT && hiHi <= MAX_PRODUCT
    ensures lhs * rhs == hiHi * TWO64 + (hiLo + loHi) * TWO32 + loLo
  {
    var a, b, c, d := Hi(lhs), Lo(lhs), Hi(rhs), Lo(rhs);
    assert Lo(a) == a && Lo(b) == b && Lo(c) == c && Lo(d) == d;
    ProductBound(b, d);
    ProductBound(a, d);
    ProductBound(b, c);
    ProductBound(a, c);
    Expand(lhs, rhs, a, b, c, d);
  }

  lemma Expand(x: int, y: int, a: int, b: int, c: int, d: int)
    requires x == a * TWO32 + b && y == c * TWO32 + d
    ensures x * y == a * c * TWO64 + (a * d + b * c) * TWO32 + b * d
  {
  }

  lemma JoinHalves(cross: u64, loLo: u64)
    ensures OrNat(ShiftUp32(cross), loLo % TWO32) == Lo(cross) * TWO32 + Lo(loLo)
    ensures Lo(cross) * TWO32 + Lo(loLo) < TWO64
  {
    ShiftUp32Drops(cross);
    Pow2Values();
    OrDisjoint(Lo(cross), Lo(loLo), 32);
  }

  /** XXH3_len_9to16_128b adds the middle product in one of two ways; the 32-bit form ... */
  function MiddleOn32Bit(high: u64, inputHi: u64): u64 {
    Add(high, Add(inputHi - Lo(inputHi), Mult32to64(Lo(inputHi), PRIME32_2)))
  }

  /** ... and the 64-bit form, without the mask ... */
  function MiddleOn64Bit(high: u64, inputHi: u64): u64 {
    Add(high, Add(inputHi, Mult32to64(Lo(inputHi), PRIME32_2 - 1)))
  }

  /** ... agree, although they wrap at different places. */
  lemma MiddleFormsAgree(high: u64, inputHi: u64)
    ensures MiddleOn32Bit(high, inputHi) == MiddleOn64Bit(high, inputHi)
  {
    var lo: int := Lo(inputHi);
    assert Lo(lo) == lo;
    assert lo * PRIME32_2 == lo * (PRIME32_2 - 1) + lo;
  }

  /** A bit of the fold is set exactly when the product has different bits there and 64 places up. */
  lemma FoldBits(lhs: u64, rhs: u64, i: nat)
    requires i < 64
    ensures lhs * rhs >= 0 && (Bit(Fold64(lhs, rhs), i) <==> Bit(lhs * rhs, i) != Bit(lhs * rhs, 64 + i))
  {
    WideProduct(lhs, rhs);
    var product: nat := lhs * rhs;
    Pow2Values();
    BitXor(product % TWO64, product / TWO64, i);
    BitMod(product, 64, i);
    ShrIsDiv(product, 64);
    ShrShr(product, i, 64);
  }

  /** XXH3_mul128_fold64 */
  method Mul128Fold64(lhs: u64, rhs: u64) returns (r: u64)
    ensures r == Fold64(lhs, rhs)
    ensures lhs * rhs >= 0 && forall i: nat | i < 64 :: Bit(r, i) <==> Bit(lhs * rhs, i) != Bit(lhs * rhs, 64 + i)
  {
    WideProduct(lhs, rhs);
    forall i: nat | i < 64
      ensures Bit(Fold64(lhs, rhs), i) <==> Bit(lhs * rhs, i) != Bit(lhs * rhs, 64 + i)
    {
      FoldBits(lhs, rhs, i);
    }
    var product := PortableMult64to128(lhs, rhs);
    DivModUnique(lhs * rhs, TWO64, product.high64, product.low64);
    r := Xor(product.low64, product.high64);
  }

  lemma WideProduct(lhs: u64, rhs: u64)
    ensures 0 <= lhs * rhs && 0 <= lhs * rhs / TWO64 < TWO64
  {
    MulLe(lhs, 0, rhs);
    MulLe(lhs, rhs, TWO64);
    MulLe(TWO64, lhs, TWO64 - 1);
  }

  /** The low half of the true product, mixed with the high half. */
  function Fold64(lhs: u64, rhs: u64): u64 {
    WideProduct(lhs, rhs);
    Xor(lhs * rhs % TWO64, lhs * rhs / TWO64)
  }
}
