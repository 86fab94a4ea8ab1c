/**
 The lane arithmetic of XXH3 on concrete words: the scalar loops and the SSE2, AVX2 and AVX-512 forms
 compute the same lanes, and together they make a kernel.
 */
module Xxh3Lanes {
  import opened Words
  import opened Bits
  import opened Xxh3
  import Mult128

  /** The eight 64-bit lanes of 64 bytes. */
  function LanesOf(p: seq<u8>): Acc
    requires |p| >= 64
  {
    [ReadLE64(p, 0), ReadLE64(p, 8), ReadLE64(p, 16), ReadLE64(p, 24),
     ReadLE64(p, 32), ReadLE64(p, 40), ReadLE64(p, 48), ReadLE64(p, 56)]
  }

  /** The neighbour lane, i ^ 1. */
  function Neighbour(i: nat): nat {
    if i % 2 == 0 then i + 1 else i - 1
  }

  /** The bytes of the lanes are those in memory. */
  lemma LanesShowBytes(p: seq<u8>, i: nat, j: nat)
    requires |p| >= 64 && i < 8 && j < 8
    ensures ByteAt(LanesOf(p)[i], j) == p[8 * i + j]
  {
    LaneAt(p, i);
    ReadShows64(p, 8 * i, j);
  }

  lemma LaneAt(p: seq<u8>, i: nat)
    requires |p| >= 64 && i < 8
    ensures LanesOf(p)[i] == ReadLE64(p, 8 * i)
  {
  }

  lemma NeighbourIsXor(i: nat)
    ensures Neighbour(i) == XorNat(i, 1)
  {
    XorWithZero(i / 2);
  }

  // ----- What each lane becomes -----

  /** Lane i gains its neighbour's data and the product of the halves of its own keyed data. */
  function AccumulateLane(acc: u64, own: u64, key: u64, neighbour: u64): u64 {
    Add(Add(acc, neighbour), Mult32to64(Lo(Xor(own, key)), Hi(Xor(own, key))))
  }

  function ScrambleLane(acc: u64, key: u64): u64 {
    Mul(Xor(Xor(acc, acc / 0x8000_0000_0000), key), PRIME32_1)
  }

  /** The inverse of PRIME32_1 modulo 2^64. */
  const PRIME32_1_INVERSE: u64 := 0xCFA4A56B0E8B2F51

  lemma Pow2Shifts()
    ensures Pow2(32) == TWO32 && Pow2(37) == 0x20_0000_0000 && Pow2(47) == 0x8000_0000_0000 && Pow2(64) == TWO64
  {
    Pow2Values();
    assert Pow2(37) == 32 * Pow2(32);
    assert Pow2(42) == 32 * Pow2(37);
    assert Pow2(47) == 32 * Pow2(42);
  }

  /** x ^ (x >> k) is undone by repeating it, for shifts of at least half a word. */
  lemma XorShift(x: u64, shifted: u64, y: u64, k: nat, p: nat)
    requires 32 <= k && p == Pow2(k) && shifted == x / p && y == Xor(x, shifted)
    ensures 0 <= y / p < TWO64 && Xor(y, y / p) == x
  {
    Pow2Values();
    ShrIsDiv(x, k);
    ShrIsDiv(y, k);
    Pow2Monotone(64, 2 * k);
    XorShiftUndone(x, k);
  }

  lemma UnkeyedLane(acc: u64, own: u64, neighbour: u64)
    ensures AccumulateLane(acc, own, 0, neighbour) == (acc + neighbour + Lo(own) * Hi(own)) % TWO64
    ensures AccumulateLane(acc, 0, own, 0) == (acc + Lo(own) * Hi(own)) % TWO64
  {
    XorWithZero(own);
    XorSymmetric(0, own);
    HalvesAreLow(own);
    var p := Mult32to64(Lo(own), Hi(own));
    AddWraps(acc, neighbour);
    AddWraps(Add(acc, neighbour), p);
    WrapAdd(acc + neighbour, p, TWO64);
    AddWraps(acc, p);
  }

  /** Undoes one lane of a scramble under the same key. */
  function UnscrambleLane(lane: u64, key: u64): u64 {
    var mixed := Xor(Mul(lane, PRIME32_1_INVERSE), key);
    Xor(mixed, mixed / 0x8000_0000_0000)
  }

  /** A scramble loses nothing: every lane can be had back. */
  lemma ScrambleUndone(acc: u64, key: u64)
    ensures UnscrambleLane(ScrambleLane(acc, key), key) == acc
  {
    Pow2Shifts();
    var shifted: u64 := acc / 0x8000_0000_0000;
    var mixed := Xor(acc, shifted);
    MulUndone(Xor(mixed, key), PRIME32_1, PRIME32_1_INVERSE, 0x80549D2C);
    XorUndone(mixed, key);
    XorShift(acc, shifted, mixed, 47, 0x8000_0000_0000);
  }

  function AccumulateLanes(acc: Acc, data: Acc, key: Acc): Acc {
    seq(8, i requires 0 <= i < 8 => AccumulateLane(acc[i], data[i], key[i], data[Neighbour(i)]))
  }

  function ScrambleLanes(acc: Acc, key: Acc): Acc {
    seq(8, i requires 0 <= i < 8 => ScrambleLane(acc[i], key[i]))
  }

  // ----- Scalar -----

  lemma AddCommutes(a: u64, b: u64, c: u64)
    ensures Add(Add(a, b), c) == Add(Add(a, c), b) && Add(a, b) == Add(b, a)
    ensures Add(a, Add(b, c)) == Add(Add(a, b), c)
  {
  }

  /** What lane i multiplies up. */
  function Products(data: Acc, key: Acc): Acc {
    seq(8, i requires 0 <= i < 8 => Mult32to64(Lo(Xor(data[i], key[i])), Hi(Xor(data[i], key[i]))))
  }

  /** The lanes after the first n scalar rounds: a round touches two lanes, so a lane is complete only after
      two rounds, which bring its two contributions in either order. */
  ghost predicate ScalarRounds(before: Acc, data: Acc, products: Acc, after: seq<u64>, n: nat) {
    |after| == 8 && forall j :: 0 <= j < 8 ==> after[j] == Partial(before, data, products, j, n)
  }

  /** Lane j after the first n rounds. */
  function Partial(before: Acc, data: Acc, products: Acc, j: nat, n: nat): u64
    requires j < 8
  {
    var withNeighbour := if Neighbour(j) < n then Add(before[j], data[Neighbour(j)]) else before[j];
    if j < n then Add(withNeighbour, products[j]) else withNeighbour
  }

  lemma ScalarRound(before: Acc, data: Acc, products: Acc, now: seq<u64>, next: seq<u64>, i: nat)
    requires i < 8 && ScalarRounds(before, data, products, now, i)
    requires |next| == 8 && next[i] == Add(now[i], products[i])
    requires next[Neighbour(i)] == Add(now[Neighbour(i)], data[i])
    requires forall j :: 0 <= j < 8 && j != i && j != Neighbour(i) ==> next[j] == now[j]
    ensures ScalarRounds(before, data, products, next, i + 1)
  {
    var n := Neighbour(i);
    AddCommutes(before[n], data[i], products[n]);
  }

  lemma AllRounds(before: Acc, data: Acc, key: Acc, after: seq<u64>)
    requires ScalarRounds(before, data, Products(data, key), after, 8)
    ensures after == AccumulateLanes(before, data, key)
  {
    var products := Products(data, key);
    forall j | 0 <= j < 8
      ensures after[j] == AccumulateLane(before[j], data[j], key[j], data[Neighbour(j)])
    {
      assert after[j] == Partial(before, data, products, j, 8);
    }
  }

  /** XXH3_accumulate_512_scalar */
  method AccumulateScalar(acc: array<u64>, data: Acc, key: Acc)
    requires acc.Length == 8
    modifies acc
    ensures acc[..] == AccumulateLanes(old(acc[..]), data, key)
  {
    ghost var before := acc[..];
    ghost var products := Products(data, key);
    for i := 0 to 8
      invariant ScalarRounds(before, data, products, acc[..], i)
    {
      ghost var now := acc[..];
      var dataVal := data[i];
      var dataKey := Xor(dataVal, key[i]);
      var product := Mult32to64(Lo(dataKey), Hi(dataKey));
      assert product == products[i];
      acc[Neighbour(i)] := Add(acc[Neighbour(i)], dataVal);
      acc[i] := Add(acc[i], product);
      ScalarRound(before, data, products, now, acc[..], i);
    }
    AllRounds(before, data, key, acc[..]);
  }

  /** XXH3_scrambleAcc_scalar */
  method ScrambleScalar(acc: array<u64>, key: Acc)
    requires acc.Length == 8
    modifies acc
    ensures acc[..] == ScrambleLanes(old(acc[..]), key)
  {
    ghost var before := acc[..];
    for i := 0 to 8
      invariant forall j :: 0 <= j < 8 ==> acc[j] == if j < i then ScrambleLane(before[j], key[j]) else before[j]
    {
      var acc64 := acc[i];
      acc64 := Xor(acc64, acc64 / 0x8000_0000_0000);
      acc64 := Xor(acc64, key[i]);
      acc64 := Mul(acc64, PRIME32_1);
      acc[i] := acc64;
    }
  }

  // ----- Vectors of 2, 4 or 8 lanes: SSE2, AVX2, AVX-512 -----

  /** set1_epi32 of XXH_PRIME32_1 puts it in both halves of a lane. */
  const PRIME_PAIR: u64 := 0x9E3779B1_9E3779B1

  /** A register, as its 64-bit lanes; an even number, since the 128-bit halves act alone. */
  type Vec = v: seq<u64> | |v| == 2 || |v| == 4 || |v| == 8 witness [0, 0]

  /** The j-th 32-bit element of the h-th 128-bit part. */
  function Dword(v: Vec, h: nat, j: nat): u32
    requires 2 * h + 1 < |v| && j < 4
  {
    if j % 2 == 0 then Lo(v[2 * h + j / 2]) else Hi(v[2 * h + j / 2])
  }

  /** shuffle_epi32 with _MM_SHUFFLE(z, y, x, w), within each 128-bit part. */
  function Shuffle(v: Vec, z: nat, y: nat, x: nat, w: nat): (r: Vec)
    requires z < 4 && y < 4 && x < 4 && w < 4
    ensures |r| == |v|
  {
    seq(|v|, i requires 0 <= i < |v| =>
      if i % 2 == 0 then Dword(v, i / 2, w) + Dword(v, i / 2, x) * 0x1_0000_0000
      else Dword(v, i / 2, y) + Dword(v, i / 2, z) * 0x1_0000_0000)
  }

  function XorVec(a: Vec, b: Vec): (r: Vec)
    requires |a| == |b|
    ensures |r| == |a|
  {
    seq(|a|, i requires 0 <= i < |a| => Xor(a[i], b[i]))
  }

  function AddVec(a: Vec, b: Vec): (r: Vec)
    requires |a| == |b|
    ensures |r| == |a|
  {
    seq(|a|, i requires 0 <= i < |a| => Add(a[i], b[i]))
  }

  /** mul_epu32: the low halves of the lanes. */
  function MulVec(a: Vec, b: Vec): (r: Vec)
    requires |a| == |b|
    ensures |r| == |a|
  {
    seq(|a|, i requires 0 <= i < |a| => Mult32to64(a[i], b[i]))
  }

  function ShiftDown47(a: Vec): (r: Vec)
    ensures |r| == |a|
  {
    seq(|a|, i requires 0 <= i < |a| => a[i] / 0x8000_0000_0000)
  }

  function ShiftUpVec32(a: Vec): (r: Vec)
    ensures |r| == |a|
  {
    seq(|a|, i requires 0 <= i < |a| => ShiftUp32(a[i]))
  }

  function Broadcast(v: u64, width: nat): (r: Vec)
    requires width in {2, 4, 8}
    ensures |r| == width
  {
    seq(width, i => v)
  }

  /** One register's worth of XXH3_accumulate_512. */
  function AccumulateVec(acc: Vec, data: Vec, key: Vec): (r: Vec)
    requires |acc| == |data| == |key|
    ensures |r| == |acc|
  {
    var dataKey := XorVec(data, key);
    var dataKeyLo := Shuffle(dataKey, 0, 3, 0, 1);
    var product := MulVec(dataKey, dataKeyLo);
    var dataSwap := Shuffle(data, 1, 0, 3, 2);
    var sum := AddVec(acc, dataSwap);
    AddVec(product, sum)
  }

  /** One register's worth of XXH3_scrambleAcc. */
  function ScrambleVec(acc: Vec, key: Vec): (r: Vec)
    requires |acc| == |key|
    ensures |r| == |acc|
  {
    var data := XorVec(acc, ShiftDown47(acc));
    var dataKey := XorVec(data, key);
    var dataKeyHi := Shuffle(dataKey, 0, 3, 0, 1);
    var prime := Broadcast(PRIME_PAIR, |acc|);
    var prodLo := MulVec(dataKey, prime);
    var prodHi := MulVec(dataKeyHi, prime);
    AddVec(prodLo, ShiftUpVec32(prodHi))
  }

  /** The swap of the 128-bit parts is the neighbour lane. */
  lemma SwapIsNeighbour(v: Vec, i: nat)
    requires i < |v|
    ensures Neighbour(i) < |v| && Shuffle(v, 1, 0, 3, 2)[i] == v[Neighbour(i)]
  {
    assert forall x: u64 :: Lo(x) + Hi(x) * 0x1_0000_0000 == x;
  }

  /** The other shuffle brings the high half of every lane down. */
  lemma ShuffleBringsHigh(v: Vec, i: nat)
    requires i < |v|
    ensures Lo(Shuffle(v, 0, 3, 0, 1)[i]) == Hi(v[i])
  {
  }

  lemma LowHalvesMatter(x: u64, y: u64, x': u64, y': u64)
    requires Lo(x) == Lo(x') && Lo(y) == Lo(y')
    ensures Mult32to64(x, y) == Mult32to64(x', y')
  {
  }

  lemma HalvesAreLow(x: u64)
    ensures Lo(Lo(x)) == Lo(x) && Lo(Hi(x)) == Hi(x)
  {
  }

  lemma ProductLane(v: Vec, i: nat)
    requires i < |v|
    ensures MulVec(v, Shuffle(v, 0, 3, 0, 1))[i] == Mult32to64(Lo(v[i]), Hi(v[i]))
  {
    ShuffleBringsHigh(v, i);
    HalvesAreLow(v[i]);
    LowHalvesMatter(v[i], Shuffle(v, 0, 3, 0, 1)[i], Lo(v[i]), Hi(v[i]));
  }

  lemma AccumulateVecLane(acc: Vec, data: Vec, key: Vec, i: nat)
    requires |acc| == |data| == |key| && i < |acc|
    ensures Neighbour(i) < |acc|
    ensures AccumulateVec(acc, data, key)[i] == AccumulateLane(acc[i], data[i], key[i], data[Neighbour(i)])
  {
    var dataKey := XorVec(data, key);
    SwapIsNeighbour(data, i);
    ProductLane(dataKey, i);
    AddCommutes(Mult32to64(Lo(dataKey[i]), Hi(dataKey[i])), Add(acc[i], data[Neighbour(i)]), 0);
  }

  lemma PrimeLanes(v: Vec, i: nat)
    requires i < |v|
    ensures MulVec(v, Broadcast(PRIME_PAIR, |v|))[i] == Lo(v[i]) * PRIME32_1
  {
  }

  lemma ScrambleVecLane(acc: Vec, key: Vec, i: nat)
    requires |acc| == |key| && i < |acc|
    ensures ScrambleVec(acc, key)[i] == ScrambleLane(acc[i], key[i])
  {
    var dataKey := XorVec(XorVec(acc, ShiftDown47(acc)), key);
    var dataKeyHi := Shuffle(dataKey, 0, 3, 0, 1);
    ShuffleBringsHigh(dataKey, i);
    PrimeLanes(dataKey, i);
    PrimeLanes(dataKeyHi, i);
    SplitProduct(dataKey[i], PRIME32_1);
  }

  /** The two 32-bit products recombine to the 64-bit product modulo 2^64. */
  lemma SplitProduct(x: u64, prime: u32)
    ensures Lo(x) * prime < TWO64 && Hi(x) * prime < TWO64
    ensures Add(Lo(x) * prime, ShiftUp32(Hi(x) * prime)) == Mul(x, prime)
  {
    ProductBound(Lo(x), prime);
    ProductBound(Hi(x), prime);
    var a, b: int := Lo(x) * prime, Hi(x) * prime;
    ShiftUp32Drops(b);
    assert x * prime == a + b * TWO32 by {
      assert x == Lo(x) + Hi(x) * TWO32;
      assert (Lo(x) + Hi(x) * TWO32) * prime == Lo(x) * prime + Hi(x) * prime * TWO32;
    }
    var sum := Add(a, Lo(b) * TWO32);
    assert b == Hi(b) * TWO32 + Lo(b);
    DivModUnique(x * prime, TWO64, Hi(b) + (if a + Lo(b) * TWO32 < TWO64 then 0 else 1), sum);
  }

  /** Loading a register, mixing it and storing it back is mixing its lanes. */
  lemma AccumulateRegister(before: seq<u64>, data: Acc, key: Acc, base: nat, width: nat, j: nat)
    requires |before| == 8 && width in {2, 4, 8} && base % 2 == 0 && base + width <= 8 && base <= j < base + width
    ensures AccumulateVec(before[base..base + width], data[base..base + width], key[base..base + width])[j - base]
         == AccumulateLane(before[j], data[j], key[j], data[Neighbour(j)])
  {
    var a, d, k: Vec := before[base..base + width], data[base..base + width], key[base..base + width];
    var i := j - base;
    assert a[i] == before[j] && d[i] == data[j] && k[i] == key[j];
    assert Neighbour(i) < width && d[Neighbour(i)] == data[Neighbour(j)];
    AccumulateVecLane(a, d, k, i);
  }

  lemma ScrambleRegister(before: seq<u64>, key: Acc, base: nat, width: nat, j: nat)
    requires |before| == 8 && width in {2, 4, 8} && base + width <= 8 && base <= j < base + width
    ensures ScrambleVec(before[base..base + width], key[base..base + width])[j - base]
         == ScrambleLane(before[j], key[j])
  {
    var a, k: Vec := before[base..base + width], key[base..base + width];
    assert a[j - base] == before[j] && k[j - base] == key[j];
    ScrambleVecLane(a, k, j - base);
  }

  /** The lanes below `done` are mixed, the others are as before. */
  ghost predicate AccumulatedUpTo(before: seq<u64>, data: Acc, key: Acc, after: seq<u64>, done: nat) {
    && |before| == 8 && |after| == 8
    && forall j :: 0 <= j < 8 ==>
         after[j] == if j < done then AccumulateLane(before[j], data[j], key[j], data[Neighbour(j)]) else before[j]
  }

  ghost predicate ScrambledUpTo(before: seq<u64>, key: Acc, after: seq<u64>, done: nat) {
    && |before| == 8 && |after| == 8
    && forall j :: 0 <= j < 8 ==> after[j] == if j < done then ScrambleLane(before[j], key[j]) else before[j]
  }

  /** Element j of a register that was stored back at `base`. */
  lemma Spliced(now: seq<u64>, r: seq<u64>, base: nat, j: nat)
    requires base + |r| <= |now| && j < |now|
    ensures (now[..base] + r + now[base + |r|..])[j] == if base <= j < base + |r| then r[j - base] else now[j]
  {
  }

  /** The lanes of one mixed register. */
  ghost predicate AccumulatedLanes(before: seq<u64>, data: Acc, key: Acc, base: nat, r: seq<u64>) {
    && |before| == 8 && base + |r| <= 8
    && forall j :: base <= j < base + |r| ==>
         r[j - base] == AccumulateLane(before[j], data[j], key[j], data[Neighbour(j)])
  }

  ghost predicate ScrambledLanes(before: seq<u64>, key: Acc, base: nat, r: seq<u64>) {
    && |before| == 8 && base + |r| <= 8
    && forall j :: base <= j < base + |r| ==> r[j - base] == ScrambleLane(before[j], key[j])
  }

  lemma AccumulateRegisterLanes(before: seq<u64>, data: Acc, key: Acc, base: nat, width: nat)
    requires |before| == 8 && width in {2, 4, 8} && base % 2 == 0 && base + width <= 8
    ensures AccumulatedLanes(before, data, key, base,
              AccumulateVec(before[base..base + width], data[base..base + width], key[base..base + width]))
  {
    forall j | base <= j < base + width
      ensures AccumulateVec(before[base..base + width], data[base..base + width], key[base..base + width])[j - base]
           == AccumulateLane(before[j], data[j], key[j], data[Neighbour(j)])
    {
      AccumulateRegister(before, data, key, base, width, j);
    }
  }

  lemma ScrambleRegisterLanes(before: seq<u64>, key: Acc, base: nat, width: nat)
    requires |before| == 8 && width in {2, 4, 8} && base + width <= 8
    ensures ScrambledLanes(before, key, base, ScrambleVec(before[base..base + width], key[base..base + width]))
  {
    forall j | base <= j < base + width
      ensures ScrambleVec(before[base..base + width], key[base..base + width])[j - base]
           == ScrambleLane(before[j], key[j])
    {
      ScrambleRegister(before, key, base, width, j);
    }
  }

  /** Storing back a register whose lanes are mixed. */
  lemma AccumulateAdvance(before: seq<u64>, data: Acc, key: Acc, now: seq<u64>, r: seq<u64>, base: nat)
    requires AccumulatedUpTo(before, data, key, now, base) && AccumulatedLanes(before, data, key, base, r)
    ensures AccumulatedUpTo(before, data, key, now[..base] + r + now[base + |r|..], base + |r|)
  {
    forall j: nat | j < 8
      ensures (now[..base] + r + now[base + |r|..])[j] == if base <= j < base + |r| then r[j - base] else now[j]
    {
      Spliced(now, r, base, j);
    }
  }

  lemma ScrambleAdvance(before: seq<u64>, key: Acc, now: seq<u64>, r: seq<u64>, base: nat)
    requires ScrambledUpTo(before, key, now, base) && ScrambledLanes(before, key, base, r)
    ensures ScrambledUpTo(before, key, now[..base] + r + now[base + |r|..], base + |r|)
  {
    forall j: nat | j < 8
      ensures (now[..base] + r + now[base + |r|..])[j] == if base <= j < base + |r| then r[j - base] else now[j]
    {
      Spliced(now, r, base, j);
    }
  }

  /** Nothing from `base` on has been touched yet. */
  lemma AccumulateLoads(before: seq<u64>, data: Acc, key: Acc, now: seq<u64>, base: nat, width: nat)
    requires AccumulatedUpTo(before, data, key, now, base) && base + width <= 8
    ensures now[base..base + width] == before[base..base + width]
  {
  }

  lemma ScrambleLoads(before: seq<u64>, key: Acc, now: seq<u64>, base: nat, width: nat)
    requires ScrambledUpTo(before, key, now, base) && base + width <= 8
    ensures now[base..base + width] == before[base..base + width]
  {
  }

  /** Registers of `width` lanes tile `total` lanes; `base` is where the next one starts. */
  ghost predicate Tiled(base: int, width: nat, total: nat) {
    && width in {2, 4, 8} && total in {8, 24} && 0 <= base <= total
    && base % 2 == 0 && (width == 4 ==> base % 4 == 0) && (width == 8 ==> base % 8 == 0)
  }

  lemma NextRegister(base: int, width: nat, total: nat)
    requires Tiled(base, width, total) && base < total
    ensures Tiled(base + width, width, total)
  {
  }

  /** XXH3_accumulate_512_sse2, _avx2 and _avx512: registers of 2, 4 and 8 lanes. */
  method AccumulateVector(acc: array<u64>, data: Acc, key: Acc, width: nat)
    requires acc.Length == 8 && width in {2, 4, 8}
    modifies acc
    ensures acc[..] == AccumulateLanes(old(acc[..]), data, key)
  {
    ghost var before := acc[..];
    var base := 0;
    while base < 8
      invariant Tiled(base, width, 8)
      invariant AccumulatedUpTo(before, data, key, acc[..], base)
    {
      NextRegister(base, width, 8);
      ghost var now := acc[..];
      AccumulateLoads(before, data, key, now, base, width);
      AccumulateRegisterLanes(before, data, key, base, width);
      var r := AccumulateVec(acc[base..base + width], data[base..base + width], key[base..base + width]);
      CopyInto(acc, base, r);
      AccumulateAdvance(before, data, key, now, r, base);
      base := base + width;
    }
  }

  /** XXH3_scrambleAcc_sse2, _avx2 and _avx512. */
  method ScrambleVector(acc: array<u64>, key: Acc, width: nat)
    requires acc.Length == 8 && width in {2, 4, 8}
    modifies acc
    ensures acc[..] == ScrambleLanes(old(acc[..]), key)
  {
    ghost var before := acc[..];
    var base := 0;
    while base < 8
      invariant Tiled(base, width, 8)
      invariant ScrambledUpTo(before, key, acc[..], base)
    {
      NextRegister(base, width, 8);
      ghost var now := acc[..];
      ScrambleLoads(before, key, now, base, width);
      ScrambleRegisterLanes(before, key, base, width);
      var r := ScrambleVec(acc[base..base + width], key[base..base + width]);
      CopyInto(acc, base, r);
      ScrambleAdvance(before, key, now, r, base);
      base := base + width;
    }
  }

  // ----- The secret derived from a seed -----

  /** The seed is added to the even lanes of the default secret and subtracted from the odd ones. */
  function SecretLane(secret: DefaultSecret, seed: u64, i: nat): u64 {
    if i % 2 == 0 then Add(ReadLE64(secret, 8 * i), seed) else Sub(ReadLE64(secret, 8 * i), seed)
  }

  /** The first n lanes, as bytes. */
  function LaneBytes(lane: nat -> u64, n: nat): (r: seq<u8>)
    ensures |r| == 8 * n
  {
    if n == 0 then [] else LaneBytes(lane, n - 1) + WriteLE64(lane(n - 1))
  }

  function SecretLanesOf(secret: DefaultSecret, seed: u64): nat -> u64 {
    (i: nat) => SecretLane(secret, seed, i)
  }

  function CustomSecret(secret: DefaultSecret, seed: u64): DefaultSecret {
    LaneBytes(SecretLanesOf(secret, seed), |secret| / 8)
  }

  /** Store a 64-bit lane of the secret. */
  method StoreLane(customSecret: array<u8>, ghost lane: nat -> u64, n: nat, v: u64)
    requires customSecret.Length == SECRET_DEFAULT_SIZE && n < 24
    requires customSecret[..8 * n] == LaneBytes(lane, n) && v == lane(n)
    modifies customSecret
    ensures customSecret[..8 * n + 8] == LaneBytes(lane, n + 1)
  {
    CopyInto(customSecret, 8 * n, WriteLE64(v));
    assert customSecret[..8 * n + 8] == LaneBytes(lane, n) + WriteLE64(v);
  }

  /** One round of the scalar loop: an even and an odd lane. */
  method SecretPair(secret: DefaultSecret, seed: u64, n: nat) returns (lo: u64, hi: u64)
    requires n < 23 && n % 2 == 0
    ensures lo == SecretLanesOf(secret, seed)(n) && hi == SecretLanesOf(secret, seed)(n + 1)
  {
    lo := Add(ReadLE64(secret, 8 * n), seed);
    hi := Sub(ReadLE64(secret, 8 * n + 8), seed);
  }

  method StorePair(customSecret: array<u8>, ghost lane: nat -> u64, n: nat, lo: u64, hi: u64)
    requires customSecret.Length == SECRET_DEFAULT_SIZE && n < 23
    requires customSecret[..8 * n] == LaneBytes(lane, n) && lo == lane(n) && hi == lane(n + 1)
    modifies customSecret
    ensures customSecret[..8 * (n + 2)] == LaneBytes(lane, n + 2)
  {
    StoreLane(customSecret, lane, n, lo);
    StoreLane(customSecret, lane, n + 1, hi);
  }

  /** XXH3_initCustomSecret_scalar */
  method InitCustomSecretScalar(customSecret: array<u8>, secret: DefaultSecret, seed: u64)
    requires customSecret.Length == SECRET_DEFAULT_SIZE
    modifies customSecret
    ensures customSecret[..] == CustomSecret(secret, seed)
  {
    var n := 0;
    while n < 24
      invariant Tiled(n, 2, 24)
      invariant customSecret[..8 * n] == LaneBytes(SecretLanesOf(secret, seed), n)
    {
      NextRegister(n, 2, 24);
      var lo, hi := SecretPair(secret, seed, n);
      StorePair(customSecret, SecretLanesOf(secret, seed), n, lo, hi);
      n := n + 2;
    }
    assert customSecret[..] == customSecret[..8 * (|secret| / 8)];
  }

  lemma AddingTheNegative(x: u64, seed: u64)
    ensures Add(x, Sub(0, seed)) == Sub(x, seed)
  {
  }

  /** The seed register alternates seed and -seed. */
  function SeedVec(seed: u64, width: nat): (r: Vec)
    requires width in {2, 4, 8}
    ensures |r| == width
  {
    seq(width, i => if i % 2 == 0 then seed else Sub(0, seed))
  }

  /** The default secret as 64-bit lanes. */
  function SecretLanes(secret: DefaultSecret, n: nat): (r: seq<u64>)
    ensures |r| == n && forall i :: 0 <= i < n ==> r[i] == ReadLE64(secret, 8 * i)
  {
    if n == 0 then [] else SecretLanes(secret, n - 1) + [ReadLE64(secret, 8 * (n - 1))]
  }

  function LoadSecret(secret: DefaultSecret, base: nat, width: nat): (r: Vec)
    requires width in {2, 4, 8} && base + width <= 24
    ensures |r| == width && forall i :: 0 <= i < width ==> r[i] == ReadLE64(secret, 8 * (base + i))
  {
    SecretLanes(secret, |secret| / 8)[base..base + width]
  }

  lemma SeedLane(x: u64, seed: u64, width: nat, i: nat)
    requires width in {2, 4, 8} && i < width
    ensures Add(x, SeedVec(seed, width)[i]) == if i % 2 == 0 then Add(x, seed) else Sub(x, seed)
  {
    AddingTheNegative(x, seed);
  }

  lemma SameParity(base: nat, i: nat)
    requires base % 2 == 0
    ensures (base + i) % 2 == i % 2
  {
  }

  lemma SecretRegister(secret: DefaultSecret, seed: u64, base: nat, width: nat, i: nat)
    requires width in {2, 4, 8} && base + width <= 24 && base % 2 == 0 && i < width
    ensures AddVec(LoadSecret(secret, base, width), SeedVec(seed, width))[i]
         == SecretLanesOf(secret, seed)(base + i)
  {
    var loaded := LoadSecret(secret, base, width);
    SeedLane(loaded[i], seed, width, i);
    SameParity(base, i);
  }

  /** One register of the secret. */
  method StoreRegister(customSecret: array<u8>, ghost lane: nat -> u64, base: nat, sum: Vec)
    requires customSecret.Length == SECRET_DEFAULT_SIZE && base + |sum| <= 24
    requires customSecret[..8 * base] == LaneBytes(lane, base)
    requires forall i: nat :: i < |sum| ==> sum[i] == lane(base + i)
    modifies customSecret
    ensures customSecret[..8 * (base + |sum|)] == LaneBytes(lane, base + |sum|)
  {
    for i := 0 to |sum|
      invariant customSecret[..8 * (base + i)] == LaneBytes(lane, base + i)
    {
      StoreLane(customSecret, lane, base + i, sum[i]);
    }
  }

  /** XXH3_initCustomSecret_sse2, _avx2 and _avx512. */
  method InitCustomSecretVector(customSecret: array<u8>, secret: DefaultSecret, seed: u64, width: nat)
    requires customSecret.Length == SECRET_DEFAULT_SIZE && width in {2, 4, 8}
    modifies customSecret
    ensures customSecret[..] == CustomSecret(secret, seed)
  {
    var base := 0;
    while base < 24
      invariant Tiled(base, width, 24)
      invariant customSecret[..8 * base] == LaneBytes(SecretLanesOf(secret, seed), base)
    {
      NextRegister(base, width, 24);
      var sum := AddVec(LoadSecret(secret, base, width), SeedVec(seed, width));
      forall i: nat | i < |sum|
        ensures sum[i] == SecretLanesOf(secret, seed)(base + i)
      {
        SecretRegister(secret, seed, base, width, i);
      }
      StoreRegister(customSecret, SecretLanesOf(secret, seed), base, sum);
      base := base + width;
    }
    assert customSecret[..] == customSecret[..8 * (|secret| / 8)];
  }

  lemma {:induction false} LaneBytesAt(lane: nat -> u64, n: nat, i: nat)
    requires i < n
    ensures LaneBytes(lane, n)[8 * i..8 * i + 8] == WriteLE64(lane(i))
  {
    if i < n - 1 {
      LaneBytesAt(lane, n - 1, i);
      assert LaneBytes(lane, n)[..8 * (n - 1)] == LaneBytes(lane, n - 1);
      assert LaneBytes(lane, n - 1)[8 * i..8 * i + 8] == LaneBytes(lane, n)[8 * i..8 * i + 8];
    }
  }

  /** Each word of the seeded secret differs from the default one by the seed, up in the even words, down in the odd
      ones. */
  lemma SeedShows(secret: DefaultSecret, seed: u64, i: nat)
    requires i < 24
    ensures var change := if i % 2 == 0 then seed else TWO64 - seed;
            ReadLE64(CustomSecret(secret, seed), 8 * i) == (ReadLE64(secret, 8 * i) + change) % TWO64
  {
    WordOfLanes(SecretLanesOf(secret, seed), CustomSecret(secret, seed), i);
    SubAdds(ReadLE64(secret, 8 * i), seed, i % 2 == 0);
  }

  lemma WordOfLanes(lane: nat -> u64, bytes: seq<u8>, i: nat)
    requires i < 24 && bytes == LaneBytes(lane, 24)
    ensures ReadLE64(bytes, 8 * i) == lane(i)
  {
    LaneBytesAt(lane, 24, i);
    ReadWithin64(bytes, 8 * i, 8 * i + 8, 0);
    ReadWrite64(lane(i));
  }

  lemma SubAdds(x: u64, seed: u64, up: bool)
    ensures var change := if up then seed else TWO64 - seed;
            (if up then Add(x, seed) else Sub(x, seed)) == (x + change) % TWO64
  {
  }

  lemma NegatedUndoes(x: u64, seed: u64)
    ensures Add(Sub(x, seed), seed) == x && Add(Add(x, seed), Sub(0, seed)) == x && Sub(Sub(x, seed), Sub(0, seed)) == x
  {
  }

  lemma {:induction false} LanesAreBytes(secret: DefaultSecret, lane: nat -> u64, n: nat)
    requires n <= 24 && forall i: nat :: i < n ==> lane(i) == ReadLE64(secret, 8 * i)
    ensures LaneBytes(lane, n) == secret[..8 * n]
  {
    if n > 0 {
      LanesAreBytes(secret, lane, n - 1);
      WriteRead64(secret, 8 * (n - 1));
      assert secret[..8 * n] == secret[..8 * (n - 1)] + secret[8 * (n - 1)..8 * n];
    }
  }

  /** Seeding with the negated seed leads back to the default secret. */
  lemma SeedUndone(secret: DefaultSecret, seed: u64)
    ensures CustomSecret(CustomSecret(secret, seed), Sub(0, seed)) == secret
  {
    var custom := CustomSecret(secret, seed);
    var lane := SecretLanesOf(custom, Sub(0, seed));
    forall i: nat | i < 24
      ensures lane(i) == ReadLE64(secret, 8 * i)
    {
      WordOfLanes(SecretLanesOf(secret, seed), custom, i);
      NegatedUndoes(ReadLE64(secret, 8 * i), seed);
    }
    LanesAreBytes(secret, lane, 24);
  }

  // ----- Merging the lanes -----

  /** XXH3_avalanche */
  function Avalanche(h: u64): u64 {
    var h := Mul(Xor(h, h / 0x20_0000_0000), 0x165667919E3779F9);
    Xor(h, h / TWO32)
  }

  const AVALANCHE_INVERSE: u64 := 0x08DA8EE41D6DF849

  function Unavalanche(h: u64): u64 {
    var h := Mul(Xor(h, h / TWO32), AVALANCHE_INVERSE);
    Xor(h, h / 0x20_0000_0000)
  }

  /** The avalanche loses nothing either. */
  lemma AvalancheUndone(h: u64)
    ensures Unavalanche(Avalanche(h)) == h
  {
    Pow2Shifts();
    var mixed := Xor(h, h / 0x20_0000_0000);
    var product := Mul(mixed, 0x165667919E3779F9);
    XorShift(h, h / 0x20_0000_0000, mixed, 37, 0x20_0000_0000);
    XorShift(product, product / TWO32, Xor(product, product / TWO32), 32, TWO32);
    MulUndone(mixed, 0x165667919E3779F9, AVALANCHE_INVERSE, 0xC5C54893EADCB1);
  }

  /** The first n of the four folded products. */
  function MergeSum(acc: Acc, secret: seq<u8>, start: u64, n: nat): u64
    requires |secret| >= 64 && n <= 4
  {
    if n == 0 then start
    else Add(MergeSum(acc, secret, start, n - 1),
             Mult128.Fold64(Xor(acc[2 * n - 2], ReadLE64(secret, 16 * n - 16)),
                            Xor(acc[2 * n - 1], ReadLE64(secret, 16 * n - 8))))
  }

  lemma {:induction false} MergeAddsStart(acc: Acc, secret: seq<u8>, start: u64, n: nat)
    requires |secret| >= 64 && n <= 4
    ensures MergeSum(acc, secret, start, n) == Add(start, MergeSum(acc, secret, 0, n))
  {
    if n > 0 {
      MergeAddsStart(acc, secret, start, n - 1);
      var folded := Mult128.Fold64(Xor(acc[2 * n - 2], ReadLE64(secret, 16 * n - 16)),
                                   Xor(acc[2 * n - 1], ReadLE64(secret, 16 * n - 8)));
      AddCommutes(start, MergeSum(acc, secret, 0, n - 1), folded);
    }
  }

  lemma FoldZero(x: u64)
    ensures Mult128.Fold64(0, x) == 0 == Mult128.Fold64(x, 0)
  {
    XorSelf(0);
  }

  /** Neighbouring lanes are multiplied: where one of a pair equals its word of the secret, the other one has no
      effect. */
  lemma {:induction false} PairsMultiply(acc: Acc, secret: seq<u8>, start: u64, n: nat, i: nat, v: u64)
    requires |secret| >= 64 && n <= 4 && i < 8 && acc[Neighbour(i)] == ReadLE64(secret, 8 * Neighbour(i))
    ensures MergeSum(acc[i := v], secret, start, n) == MergeSum(acc, secret, start, n)
  {
    if n > 0 {
      PairsMultiply(acc, secret, start, n - 1, i, v);
      PairUnchanged(acc, secret, n - 1, i, v);
    }
  }

  lemma PairUnchanged(acc: Acc, secret: seq<u8>, m: nat, i: nat, v: u64)
    requires |secret| >= 64 && m < 4 && i < 8 && acc[Neighbour(i)] == ReadLE64(secret, 8 * Neighbour(i))
    ensures Mult128.Fold64(Xor(acc[i := v][2 * m], ReadLE64(secret, 16 * m)),
                           Xor(acc[i := v][2 * m + 1], ReadLE64(secret, 16 * m + 8)))
         == Mult128.Fold64(Xor(acc[2 * m], ReadLE64(secret, 16 * m)),
                           Xor(acc[2 * m + 1], ReadLE64(secret, 16 * m + 8)))
  {
    if i / 2 == m {
      XorSelf(acc[Neighbour(i)]);
      FoldZero(Xor(acc[i], ReadLE64(secret, 8 * i)));
      FoldZero(Xor(v, ReadLE64(secret, 8 * i)));
    }
  }

  /** XXH3_mergeAccs, with the portable multiplication. */
  method MergeAccs(acc: Acc, secret: seq<u8>, start: u64) returns (r: u64)
    requires |secret| >= 64
    ensures r == Avalanche(MergeSum(acc, secret, start, 4))
  {
    r := start;
    for i := 0 to 4
      invariant r == MergeSum(acc, secret, start, i)
    {
      var mixed := Mult128.Mul128Fold64(Xor(acc[2 * i], ReadLE64(secret, 16 * i)),
                                        Xor(acc[2 * i + 1], ReadLE64(secret, 16 * i + 8)));
      r := Add(r, mixed);
    }
    r := Avalanche(r);
  }
}
