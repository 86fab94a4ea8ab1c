/** Bitwise operators and wrapping arithmetic on non-negative integers. */
module Bits {
  import opened Words

  function Pow2(k: nat): (p: nat)
    ensures p > 0
  {
    if k == 0 then 1 else 2 * Pow2(k - 1)
  }

  lemma Pow2Values()
    ensures Pow2(32) == TWO32 && Pow2(64) == TWO64
  {
    assert Pow2(8) == 0x100;
    assert Pow2(16) == 0x1_0000;
    assert Pow2(24) == 0x100_0000;
    assert Pow2(32) == 0x1_0000_0000;
    assert Pow2(40) == 0x100_0000_0000;
    assert Pow2(48) == 0x1_0000_0000_0000;
    assert Pow2(56) == 0x100_0000_0000_0000;
  }

  /** x >> k */
  function Shr(x: nat, k: nat): (r: nat)
    ensures r <= x
  {
    if k == 0 then x else Shr(x / 2, k - 1)
  }

  predicate Bit(x: nat, i: nat) {
    Shr(x, i) % 2 == 1
  }

  function XorNat(a: nat, b: nat): nat {
    if a == 0 && b == 0 then 0 else 2 * XorNat(a / 2, b / 2) + (if a % 2 != b % 2 then 1 else 0)
  }

  function OrNat(a: nat, b: nat): nat {
    if a == 0 && b == 0 then 0 else 2 * OrNat(a / 2, b / 2) + (if a % 2 == 1 || b % 2 == 1 then 1 else 0)
  }

  lemma {:induction false} XorBound(a: nat, b: nat, k: nat)
    requires a < Pow2(k) && b < Pow2(k)
    ensures XorNat(a, b) < Pow2(k)
  {
    if k != 0 {
      XorBound(a / 2, b / 2, k - 1);
    }
  }

  lemma {:induction false} OrWithZero(b: nat)
    ensures OrNat(0, b) == b
  {
    if b != 0 {
      OrWithZero(b / 2);
    }
  }

  /** Or of disjoint bit ranges is their sum. */
  lemma {:induction false} OrDisjoint(a: nat, b: nat, k: nat)
    requires b < Pow2(k)
    ensures a * Pow2(k) >= 0 && OrNat(a * Pow2(k), b) == a * Pow2(k) + b
  {
    if k == 0 {
      OrSymmetric(a, 0);
      OrWithZero(a);
    } else {
      var shifted := a * Pow2(k - 1);
      assert a * Pow2(k) == 2 * shifted;
      OrDisjoint(a, b / 2, k - 1);
      if a * Pow2(k) != 0 || b != 0 {
        assert OrNat(2 * shifted, b) == 2 * OrNat(shifted, b / 2) + b % 2;
      }
    }
  }

  // ----- Bit by bit -----

  lemma {:induction false} ShrZero(i: nat)
    ensures Shr(0, i) == 0
  {
    if i != 0 {
      ShrZero(i - 1);
    }
  }

  lemma {:induction false} ShrOr(a: nat, b: nat, i: nat)
    ensures Shr(OrNat(a, b), i) == OrNat(Shr(a, i), Shr(b, i))
  {
    if i != 0 {
      assert OrNat(a, b) / 2 == OrNat(a / 2, b / 2);
      ShrOr(a / 2, b / 2, i - 1);
    }
  }

  lemma BitOr(a: nat, b: nat, i: nat)
    ensures Bit(OrNat(a, b), i) <==> Bit(a, i) || Bit(b, i)
  {
    ShrOr(a, b, i);
    LowestOr(Shr(a, i), Shr(b, i));
  }

  lemma LowestOr(a: nat, b: nat)
    ensures OrNat(a, b) % 2 == 1 <==> a % 2 == 1 || b % 2 == 1
  {
    Parity(OrNat(a / 2, b / 2), if a % 2 == 1 || b % 2 == 1 then 1 else 0);
  }

  lemma Parity(x: nat, b: nat)
    requires b < 2
    ensures (2 * x + b) % 2 == b && (2 * x + b) / 2 == x
  {
  }

  lemma {:induction false} ShrShr(x: nat, i: nat, k: nat)
    ensures Shr(Shr(x, k), i) == Shr(x, k + i)
  {
    if k != 0 {
      ShrShr(x / 2, i, k - 1);
    }
  }

  lemma {:induction false} ShrXor(a: nat, b: nat, i: nat)
    ensures Shr(XorNat(a, b), i) == XorNat(Shr(a, i), Shr(b, i))
  {
    if i != 0 {
      assert XorNat(a, b) / 2 == XorNat(a / 2, b / 2);
      ShrXor(a / 2, b / 2, i - 1);
    }
  }

  /** A bit of an exclusive or is set exactly when the two bits differ. */
  lemma BitXor(a: nat, b: nat, i: nat)
    ensures Bit(XorNat(a, b), i) <==> Bit(a, i) != Bit(b, i)
  {
    ShrXor(a, b, i);
    LowestXor(Shr(a, i), Shr(b, i));
  }

  lemma LowestXor(a: nat, b: nat)
    ensures XorNat(a, b) % 2 == 1 <==> a % 2 != b % 2
  {
    Parity(XorNat(a / 2, b / 2), if a % 2 != b % 2 then 1 else 0);
  }

  /** The second exclusive or undoes the first. */
  lemma {:induction false} XorUndone(a: nat, b: nat)
    ensures XorNat(XorNat(a, b), b) == a
  {
    if a != 0 || b != 0 {
      XorUndone(a / 2, b / 2);
      assert XorNat(a, b) / 2 == XorNat(a / 2, b / 2);
    }
  }

  lemma {:induction false} XorSelf(a: nat)
    ensures XorNat(a, a) == 0
  {
    if a != 0 {
      XorSelf(a / 2);
    }
  }

  lemma {:induction false} XorWithZero(a: nat)
    ensures XorNat(a, 0) == a
  {
    if a != 0 {
      XorWithZero(a / 2);
    }
  }

  lemma {:induction false} XorSymmetric(a: nat, b: nat)
    ensures XorNat(a, b) == XorNat(b, a)
  {
    if a != 0 || b != 0 {
      XorSymmetric(a / 2, b / 2);
    }
  }

  lemma {:induction false} ShrSmall(x: nat, k: nat)
    requires x < Pow2(k)
    ensures Shr(x, k) == 0
  {
    if k != 0 {
      ShrSmall(x / 2, k - 1);
    }
  }

  /** Dividing by 2p is halving, then dividing by p. */
  lemma HalveFirst(x: nat, p: nat)
    requires p > 0
    ensures x / (2 * p) == x / 2 / p && x % (2 * p) == 2 * (x / 2 % p) + x % 2
  {
    var q, r := x / 2 / p, x / 2 % p;
    assert x / 2 == q * p + r;
    assert x == q * (2 * p) + (2 * r + x % 2);
    DivModUnique(x, 2 * p, q, 2 * r + x % 2);
  }

  /** A shift is a division by a power of two. */
  lemma {:induction false} ShrIsDiv(x: nat, k: nat)
    ensures Shr(x, k) == x / Pow2(k)
  {
    if k != 0 {
      ShrIsDiv(x / 2, k - 1);
      HalveFirst(x, Pow2(k - 1));
    }
  }

  /** Below bit k the remainder modulo 2^k has the bits of the number. */
  lemma {:induction false} BitMod(x: nat, k: nat, i: nat)
    requires i < k
    ensures Bit(x % Pow2(k), i) <==> Bit(x, i)
  {
    HalveFirst(x, Pow2(k - 1));
    var y := x % Pow2(k);
    assert y % 2 == x % 2 && y / 2 == x / 2 % Pow2(k - 1);
    if i != 0 {
      BitMod(x / 2, k - 1, i - 1);
    }
  }

  lemma {:induction false} OrSymmetric(a: nat, b: nat)
    ensures OrNat(a, b) == OrNat(b, a)
  {
    if a != 0 || b != 0 {
      OrSymmetric(a / 2, b / 2);
    }
  }

  function Xor(a: u64, b: u64): u64 {
    Pow2Values();
    XorBound(a, b, 64);
    XorNat(a, b)
  }

  /** An exclusive or with a shift by at least half the width is undone by repeating it. */
  lemma XorShiftUndone(x: nat, k: nat)
    requires x < Pow2(2 * k)
    ensures var y := XorNat(x, Shr(x, k)); XorNat(y, Shr(y, k)) == x
  {
    ShrXor(x, Shr(x, k), k);
    ShrShr(x, k, k);
    ShrSmall(x, 2 * k);
    XorWithZero(Shr(x, k));
    XorUndone(x, Shr(x, k));
  }

  lemma {:induction false} Pow2Monotone(a: nat, b: nat)
    requires a <= b
    ensures Pow2(a) <= Pow2(b)
  {
    if a < b {
      Pow2Monotone(a, b - 1);
    }
  }

  function Lo(x: u64): u32 {
    x % TWO32
  }

  function Hi(x: u64): u32 {
    x / TWO32
  }

  function Add(a: u64, b: u64): u64 {
    if a + b < TWO64 then a + b else a + b - TWO64
  }

  function Sub(a: u64, b: u64): u64 {
    if a >= b then a - b else a - b + TWO64
  }

  function Mul(a: u64, b: u64): u64 {
    a * b % TWO64
  }

  /** XXH_mult32to64: the full product of the low halves. */
  function Mult32to64(x: u64, y: u64): (p: u64)
    ensures p == Lo(x) * Lo(y)
  {
    ProductBound(Lo(x), Lo(y));
    Lo(x) * Lo(y)
  }

  lemma AddWraps(a: u64, b: u64)
    ensures Add(a, b) == (a + b) % TWO64 && Sub(Add(a, b), b) == a && Add(Sub(a, b), b) == a
  {
  }

  /** Multiplication by p is undone by its inverse modulo 2^64. */
  lemma MulUndone(x: u64, p: u64, inverse: u64, q: int)
    requires p * inverse == q * TWO64 + 1
    ensures Mul(Mul(x, p), inverse) == x
  {
    var a, r: int := x * p / TWO64, x * p % TWO64;
    assert x * p == a * TWO64 + r;
    assert r * inverse == x * (p * inverse) - a * TWO64 * inverse by {
      assert (x * p) * inverse == x * (p * inverse);
      assert (a * TWO64 + r) * inverse == a * TWO64 * inverse + r * inverse;
    }
    assert x * (q * TWO64 + 1) == x * q * TWO64 + x;
    assert r * inverse == (x * q - a * inverse) * TWO64 + x;
    DivModUnique(r * inverse, TWO64, x * q - a * inverse, x);
  }

  lemma MulLe(a: int, b: int, c: int)
    requires a >= 0 && b <= c
    ensures a * b <= a * c
  {
  }

  lemma ProductBound(x: u32, y: u32)
    ensures 0 <= x * y <= 0xffff_fffe_0000_0001
  {
    MulLe(x, 0, y);
    MulLe(x, y, 0xffff_ffff);
    MulLe(0xffff_ffff, x, 0xffff_ffff);
  }

  /** x << 32 */
  function ShiftUp32(x: u64): u64 {
    x * TWO32 % TWO64
  }

  lemma ShiftUp32Drops(x: u64)
    ensures ShiftUp32(x) == Lo(x) * TWO32
  {
    assert x == Hi(x) * TWO32 + Lo(x);
    DivModUnique(x * TWO32, TWO64, Hi(x), Lo(x) * TWO32);
  }
}
