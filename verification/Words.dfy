/** Fixed-width machine words, modelled as bounded integers with explicit wrap-around. */
module Words {

  const TWO32: int := 0x1_0000_0000
  const TWO64: int := 0x1_0000_0000_0000_0000

  type u8 = x: int | 0 <= x < 0x100
  type u32 = x: int | 0 <= x < 0x1_0000_0000
  type u64 = x: int | 0 <= x < 0x1_0000_0000_0000_0000

  datatype Option<+T> = None | Some(value: T)

  /** Little-endian reads; XXH_readLE32 and XXH_readLE64. */
  function ReadLE32(p: seq<u8>, i: nat): u32 {
    if i + 4 > |p| then 0
    else p[i] as int + p[i + 1] as int * 0x100 + p[i + 2] as int * 0x1_0000 + p[i + 3] as int * 0x100_0000
  }

  function ReadLE64(p: seq<u8>, i: nat): u64 {
    ReadLE32(p, i) as int + ReadLE32(p, i + 4) as int * 0x1_0000_0000
  }

  /** The j-th byte of a number, counted from the low end. */
  function ByteAt(v: nat, j: nat): u8 {
    if j == 0 then v % 0x100 else ByteAt(v / 0x100, j - 1)
  }

  /** XXH_writeLE64 */
  function WriteLE64(v: u64): (r: seq<u8>)
    ensures |r| == 8
  {
    seq(8, j requires 0 <= j < 8 => ByteAt(v, j))
  }

  lemma LowByte(b: int, x: int)
    requires 0 <= b < 0x100 && 0 <= x
    ensures (b + 0x100 * x) % 0x100 == b && (b + 0x100 * x) / 0x100 == x
  {
    DivModUnique(b + 0x100 * x, 0x100, x, b);
  }

  lemma Skip4(v: nat)
    ensures ByteAt(v, 0) == v % 0x100 && ByteAt(v, 1) == v / 0x100 % 0x100
    ensures ByteAt(v, 2) == v / 0x100 / 0x100 % 0x100 && ByteAt(v, 3) == v / 0x100 / 0x100 / 0x100 % 0x100
    ensures forall j: nat :: ByteAt(v, 4 + j) == ByteAt(v / 0x100 / 0x100 / 0x100 / 0x100, j)
  {
    var v1 := v / 0x100;
    var v2 := v1 / 0x100;
    var v3 := v2 / 0x100;
    assert ByteAt(v, 2) == ByteAt(v1, 1) && ByteAt(v, 3) == ByteAt(v1, 2) && ByteAt(v1, 2) == ByteAt(v2, 1);
    forall j: nat
      ensures ByteAt(v, 4 + j) == ByteAt(v3 / 0x100, j)
    {
      assert ByteAt(v, 4 + j) == ByteAt(v1, 3 + j) && ByteAt(v1, 3 + j) == ByteAt(v2, 2 + j);
      assert ByteAt(v2, 2 + j) == ByteAt(v3, 1 + j) && ByteAt(v3, 1 + j) == ByteAt(v3 / 0x100, j);
    }
  }

  lemma FourBytes(b0: u8, b1: u8, b2: u8, b3: u8, x: nat)
    ensures var v := b0 + b1 * 0x100 + b2 * 0x1_0000 + b3 * 0x100_0000 + x * 0x1_0000_0000;
            && ByteAt(v, 0) == b0 && ByteAt(v, 1) == b1 && ByteAt(v, 2) == b2 && ByteAt(v, 3) == b3
            && forall j: nat :: ByteAt(v, 4 + j) == ByteAt(x, j)
  {
    var v3 := b3 + 0x100 * x;
    var v2 := b2 + 0x100 * v3;
    var v1 := b1 + 0x100 * v2;
    var v := b0 + 0x100 * v1;
    LowByte(b3, x);
    LowByte(b2, v3);
    LowByte(b1, v2);
    LowByte(b0, v1);
    Skip4(v);
    assert v / 0x100 / 0x100 / 0x100 / 0x100 == x;
  }

  /** The bytes of what was read are the bytes in memory, lowest first. */
  lemma ReadShows32(p: seq<u8>, i: nat, j: nat)
    requires j < 4 && i + 4 <= |p|
    ensures ByteAt(ReadLE32(p, i), j) == p[i + j]
  {
    FourBytes(p[i], p[i + 1], p[i + 2], p[i + 3], 0);
  }

  lemma ReadShows64(p: seq<u8>, i: nat, j: nat)
    requires j < 8 && i + 8 <= |p|
    ensures ByteAt(ReadLE64(p, i), j) == p[i + j]
  {
    FourBytes(p[i], p[i + 1], p[i + 2], p[i + 3], ReadLE32(p, i + 4));
    if j >= 4 {
      ReadShows32(p, i + 4, j - 4);
      assert ByteAt(ReadLE64(p, i), 4 + (j - 4)) == ByteAt(ReadLE32(p, i + 4), j - 4);
    }
  }

  /** Writing back what was read changes nothing. */
  lemma WriteRead64(p: seq<u8>, i: nat)
    requires i + 8 <= |p|
    ensures WriteLE64(ReadLE64(p, i)) == p[i..i + 8]
  {
    forall j | 0 <= j < 8
      ensures WriteLE64(ReadLE64(p, i))[j] == p[i + j]
    {
      ReadShows64(p, i, j);
    }
  }

  lemma Digits(v: nat)
    ensures var hi := v / 0x100 / 0x100 / 0x100 / 0x100;
            v == ByteAt(v, 0) as int + ByteAt(v, 1) * 0x100 + ByteAt(v, 2) * 0x1_0000 + ByteAt(v, 3) * 0x100_0000
                 + hi * 0x1_0000_0000
  {
    Skip4(v);
  }

  /** Reading back what was written. */
  lemma ReadWrite64(v: u64)
    ensures ReadLE64(WriteLE64(v), 0) == v
  {
    var w, hi := WriteLE64(v), v / 0x100 / 0x100 / 0x100 / 0x100;
    Skip4(v);
    assert w[4] == ByteAt(v, 4 + 0) && w[5] == ByteAt(v, 4 + 1) && w[6] == ByteAt(v, 4 + 2) && w[7] == ByteAt(v, 4 + 3);
    Digits(v);
    Digits(hi);
    assert hi / 0x100 / 0x100 / 0x100 / 0x100 == 0;
    assert ReadLE32(w, 4) == hi;
  }

  lemma ReadWithin(p: seq<u8>, from: nat, to: nat, i: nat)
    requires from + i + 4 <= to <= |p|
    ensures ReadLE32(p[from..to], i) == ReadLE32(p, from + i)
  {
  }

  lemma ReadWithin64(p: seq<u8>, from: nat, to: nat, i: nat)
    requires from + i + 8 <= to <= |p|
    ensures ReadLE64(p[from..to], i) == ReadLE64(p, from + i)
  {
    ReadWithin(p, from, to, i);
    ReadWithin(p, from, to, i + 4);
  }

  lemma MulAtLeast(d: int, m: nat)
    requires d >= 1
    ensures d * m >= m
  {
  }

  /** Quotient and remainder are determined by the division equation. */
  lemma DivModUnique(x: int, m: nat, q: int, r: int)
    requires m > 0 && x == q * m + r && 0 <= r < m
    ensures x / m == q && x % m == r
  {
    var d := q - x / m;
    assert x == (x / m) * m + x % m;
    assert d * m == q * m - (x / m) * m;
    if d >= 1 {
      MulAtLeast(d, m);
    } else if d <= -1 {
      MulAtLeast(-d, m);
    }
  }

  /** A counter that wraps after every addition is the true total, wrapped once. */
  lemma WrapAdd(total: nat, len: nat, m: nat)
    requires m > 0
    ensures (total % m + len) % m == (total + len) % m
  {
    var q, r := (total + len) / m, (total + len) % m;
    assert total + len == q * m + r;
    assert total == (total / m) * m + total % m;
    assert total % m + len == (q - total / m) * m + r;
    DivModUnique(total % m + len, m, q - total / m, r);
  }

  /** memcpy of `src` into `dst` from index `at` on. */
  method CopyInto<T>(dst: array<T>, at: nat, src: seq<T>)
    requires at + |src| <= dst.Length
    modifies dst
    ensures dst[..] == old(dst[..at]) + src + old(dst[at + |src|..])
  {
    forall i | 0 <= i < |src| {
      dst[at + i] := src[i];
    }
    assert forall i :: at <= i < at + |src| ==> dst[i] == src[i - at];
  }
}
