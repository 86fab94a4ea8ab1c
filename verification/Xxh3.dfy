/**
 XXH3 over long inputs. `Kernel` holds the routines that the header passes around as function
 pointers, plus the mixing of short inputs; the streaming theorem holds for every choice of them.
 */
module Xxh3 {
  import opened Words

  const STRIPE_LEN := 64
  const CONSUME_RATE := 8
  const BUFFER_SIZE := 256
  const BUFFER_STRIPES := 4
  const SECRET_SIZE_MIN := 136
  const SECRET_DEFAULT_SIZE := 192
  const MIDSIZE_MAX := 240
  const LASTACC_START := 7
  const MERGEACCS_START := 11

  const PRIME32_1: u64 := 0x9E3779B1
  const PRIME32_2: u64 := 0x85EBCA77
  const PRIME32_3: u64 := 0xC2B2AE3D
  const PRIME64_1: u64 := 0x9E3779B185EBCA87
  const PRIME64_2: u64 := 0xC2B2AE3D27D4EB4F
  const PRIME64_3: u64 := 0x165667B19E3779F9
  const PRIME64_4: u64 := 0x85EBCA77C2B2AE63
  const PRIME64_5: u64 := 0x27D4EB2F165667C5

  type Acc = a: seq<u64> | |a| == 8 witness seq(8, _ => 0)
  type DefaultSecret = s: seq<u8> | |s| == 192 witness seq(192, _ => 0)
  type Secret = s: seq<u8> | |s| >= 136 witness seq(136, _ => 0)

  const INIT_ACC: Acc :=
    [PRIME32_3, PRIME64_1, PRIME64_2, PRIME64_3, PRIME64_4, PRIME32_2, PRIME64_5, PRIME32_1]

  datatype Hash128 = Hash128(low64: u64, high64: u64)

  /** accumulate512(acc, stripe, secret segment), scramble(acc, secret segment), the secret derived
      from a seed, the merge of the lanes (acc, secret segment, start), and the hashes of at most 240
      bytes (input, secret, seed). */
  datatype Kernel = Kernel(
    accumulate512: (Acc, seq<u8>, seq<u8>) -> Acc,
    scramble: (Acc, seq<u8>) -> Acc,
    defaultSecret: DefaultSecret,
    customSecret: u64 -> DefaultSecret,
    mergeAccs: (Acc, seq<u8>, u64) -> u64,
    short64: (seq<u8>, seq<u8>, u64) -> u64,
    short128: (seq<u8>, seq<u8>, u64) -> Hash128)

  // ----- Reference definition: one stripe at a time -----

  /** Lanes and position inside the current block. */
  datatype Cursor = Cursor(acc: Acc, soFar: nat)

  function StripesPerBlock(secret: Secret): (n: nat)
    ensures n >= 9 && CONSUME_RATE * n + STRIPE_LEN <= |secret|
  {
    (|secret| - STRIPE_LEN) / CONSUME_RATE
  }

  function Stripe(input: seq<u8>, i: nat): seq<u8>
    requires STRIPE_LEN * (i + 1) <= |input|
  {
    input[STRIPE_LEN * i..STRIPE_LEN * (i + 1)]
  }

  function Segment(secret: seq<u8>, start: nat): seq<u8>
    requires start + STRIPE_LEN <= |secret|
  {
    secret[start..start + STRIPE_LEN]
  }

  /** Mix one stripe; a completed block is scrambled at once. */
  function Step(k: Kernel, secret: Secret, c: Cursor, stripe: seq<u8>): (r: Cursor)
    requires c.soFar < StripesPerBlock(secret)
    ensures r.soFar < StripesPerBlock(secret)
  {
    var acc := k.accumulate512(c.acc, stripe, Segment(secret, CONSUME_RATE * c.soFar));
    if c.soFar + 1 == StripesPerBlock(secret)
    then Cursor(k.scramble(acc, Segment(secret, |secret| - STRIPE_LEN)), 0)
    else Cursor(acc, c.soFar + 1)
  }

  /** The first n stripes of the input, in order. */
  function Consume(k: Kernel, secret: Secret, c: Cursor, input: seq<u8>, n: nat): (r: Cursor)
    requires c.soFar < StripesPerBlock(secret)
    requires STRIPE_LEN * n <= |input|
    ensures r.soFar < StripesPerBlock(secret)
  {
    if n == 0 then c
    else Step(k, secret, Consume(k, secret, c, input, n - 1), Stripe(input, n - 1))
  }

  const START := Cursor(INIT_ACC, 0)

  /** All whole stripes that leave at least one byte, then the last 64 bytes under another secret. */
  function LongAcc(k: Kernel, secret: Secret, data: seq<u8>): Acc
    requires |data| > STRIPE_LEN
  {
    var c := Consume(k, secret, START, data, (|data| - 1) / STRIPE_LEN);
    k.accumulate512(c.acc, data[|data| - STRIPE_LEN..], Segment(secret, |secret| - STRIPE_LEN - LASTACC_START))
  }

  /** The end of XXH3_hashLong_64b_internal and of the long XXH3_64bits_digest. */
  function Finish64(k: Kernel, acc: Acc, secret: Secret, len: nat): u64 {
    k.mergeAccs(acc, Segment(secret, MERGEACCS_START), len * PRIME64_1 % TWO64)
  }

  /** The same for 128 bits; the high half has its own secret segment and start. */
  function Finish128(k: Kernel, acc: Acc, secret: Secret, len: nat): Hash128 {
    Hash128(k.mergeAccs(acc, Segment(secret, MERGEACCS_START), len * PRIME64_1 % TWO64),
            k.mergeAccs(acc, Segment(secret, |secret| - 64 - MERGEACCS_START),
                        TWO64 - 1 - len * PRIME64_2 % TWO64))
  }

  /** How a hash is keyed: the plain, _withSecret and _withSeed entry points. */
  datatype Key = Plain | WithSecret(secret: Secret) | WithSeed(seed: u64)

  function LongSecret(k: Kernel, key: Key): Secret {
    match key
    case Plain => k.defaultSecret
    case WithSecret(s) => s
    case WithSeed(v) => if v == 0 then k.defaultSecret else k.customSecret(v)
  }

  function ShortSecret(k: Kernel, key: Key): Secret {
    if key.WithSecret? then key.secret else k.defaultSecret
  }

  function SeedOf(key: Key): u64 {
    if key.WithSeed? then key.seed else 0
  }

  function Hash64(k: Kernel, key: Key, data: seq<u8>): u64 {
    if |data| <= MIDSIZE_MAX then k.short64(data, ShortSecret(k, key), SeedOf(key))
    else Finish64(k, LongAcc(k, LongSecret(k, key), data), LongSecret(k, key), |data|)
  }

  function Hash128Of(k: Kernel, key: Key, data: seq<u8>): Hash128 {
    if |data| <= MIDSIZE_MAX then k.short128(data, ShortSecret(k, key), SeedOf(key))
    else Finish128(k, LongAcc(k, LongSecret(k, key), data), LongSecret(k, key), |data|)
  }

  // ----- What the hashes of long inputs are made of -----

  /** The low half of the 128-bit hash of a long input is its 64-bit hash. */
  lemma LowHalfIsHash64(k: Kernel, key: Key, data: seq<u8>)
    requires |data| > MIDSIZE_MAX
    ensures Hash128Of(k, key, data).low64 == Hash64(k, key, data)
  {
  }

  /** Both halves merge the same lanes: the low one under the 64 bytes that begin eleven bytes into the secret, the
      high one under those that end eleven bytes before its end, from the complement of the other multiple of the
      length. */
  lemma HalvesOfLong(k: Kernel, key: Key, data: seq<u8>, front: seq<u8>, segment: seq<u8>, back: seq<u8>, start: u64)
    requires |data| > MIDSIZE_MAX && LongSecret(k, key) == front + segment + back && |segment| == 64
    ensures |front| == 11 && start == |data| * PRIME64_1 % TWO64 ==>
              Hash128Of(k, key, data).low64 == k.mergeAccs(LongAcc(k, LongSecret(k, key), data), segment, start)
    ensures |back| == 11 && (start + |data| * PRIME64_2 + 1) % TWO64 == 0 ==>
              Hash128Of(k, key, data).high64 == k.mergeAccs(LongAcc(k, LongSecret(k, key), data), segment, start)
  {
    var secret := LongSecret(k, key);
    assert secret[|front|..|front| + 64] == segment;
    if (start + |data| * PRIME64_2 + 1) % TWO64 == 0 {
      Complement(start, |data| * PRIME64_2);
    }
  }

  lemma Complement(start: u64, x: nat)
    requires (start + x + 1) % TWO64 == 0
    ensures start == TWO64 - 1 - x % TWO64
  {
    var q := (start + x + 1) / TWO64;
    assert start + x + 1 == q * TWO64;
    DivModUnique(x, TWO64, q - 1, TWO64 - 1 - start);
  }

  /** One stripe, with its place in the block made explicit. */
  lemma StepAt(k: Kernel, secret: Secret, c: Cursor, stripe: seq<u8>, at: nat, block: nat)
    requires c.soFar == at < block == (|secret| - 64) / 8
    ensures 8 * at + 64 <= |secret| &&
            var mixed := k.accumulate512(c.acc, stripe, secret[8 * at..8 * at + 64]);
            Step(k, secret, c, stripe).acc
            == if at + 1 == block then k.scramble(mixed, secret[|secret| - 64..]) else mixed
  {
    assert secret[|secret| - 64..] == Segment(secret, |secret| - 64);
  }

  /** The schedule: stripe n is mixed under the secret 8 bytes further on than the one before, from the start again
      after every block, and the end of the secret scrambles each block that is complete. */
  lemma Schedule(k: Kernel, secret: Secret, input: seq<u8>, n: nat, block: nat, at: nat)
    requires 64 * (n + 1) <= |input| && block == (|secret| - 64) / 8 && at == n % block
    ensures 8 * at + 64 <= |secret| &&
            var mixed := k.accumulate512(Consume(k, secret, START, input, n).acc, input[64 * n..64 * n + 64],
                                         secret[8 * at..8 * at + 64]);
            Consume(k, secret, START, input, n + 1).acc
            == if (n + 1) % block == 0 then k.scramble(mixed, secret[|secret| - 64..]) else mixed
  {
    SoFarIsModulo(k, secret, input, n);
    NextModulo(n, block);
    StepAt(k, secret, Consume(k, secret, START, input, n), Stripe(input, n), at, block);
  }

  // ----- Facts about Consume -----

  /** Consuming a + n stripes is consuming a, then n of the rest. */
  lemma {:induction false} ConsumeSplit(k: Kernel, secret: Secret, c: Cursor, input: seq<u8>, a: nat, n: nat)
    requires c.soFar < StripesPerBlock(secret)
    requires STRIPE_LEN * (a + n) <= |input|
    ensures Consume(k, secret, c, input, a + n)
         == Consume(k, secret, Consume(k, secret, c, input, a), input[STRIPE_LEN * a..], n)
  {
    if n != 0 {
      ConsumeSplit(k, secret, c, input, a, n - 1);
      assert Stripe(input, a + n - 1) == Stripe(input[STRIPE_LEN * a..], n - 1);
    }
  }

  /** Only the consumed bytes matter. */
  lemma {:induction false} ConsumePrefix(k: Kernel, secret: Secret, c: Cursor, x: seq<u8>, y: seq<u8>, n: nat)
    requires c.soFar < StripesPerBlock(secret)
    requires STRIPE_LEN * n <= |x| && STRIPE_LEN * n <= |y|
    requires x[..STRIPE_LEN * n] == y[..STRIPE_LEN * n]
    ensures Consume(k, secret, c, x, n) == Consume(k, secret, c, y, n)
  {
    if n != 0 {
      var m := STRIPE_LEN * (n - 1);
      assert x[..m] == x[..STRIPE_LEN * n][..m] && y[..m] == y[..STRIPE_LEN * n][..m];
      ConsumePrefix(k, secret, c, x, y, n - 1);
      assert Stripe(x, n - 1) == x[..STRIPE_LEN * n][m..];
      assert Stripe(y, n - 1) == y[..STRIPE_LEN * n][m..];
    }
  }

  /** Mixing n more stripes after the first `a` of `whole`. */
  lemma ConsumeMore(k: Kernel, secret: Secret, whole: seq<u8>, a: nat, chunk: seq<u8>, n: nat)
    requires STRIPE_LEN * (a + n) <= |whole| && STRIPE_LEN * n <= |chunk|
    requires chunk[..STRIPE_LEN * n] == whole[STRIPE_LEN * a..STRIPE_LEN * (a + n)]
    ensures Consume(k, secret, START, whole, a + n)
         == Consume(k, secret, Consume(k, secret, START, whole, a), chunk, n)
  {
    ConsumeSplit(k, secret, START, whole, a, n);
    assert whole[STRIPE_LEN * a..][..STRIPE_LEN * n] == whole[STRIPE_LEN * a..STRIPE_LEN * (a + n)];
    ConsumePrefix(k, secret, Consume(k, secret, START, whole, a), whole[STRIPE_LEN * a..], chunk, n);
  }

  /** The position inside the block is the number of consumed stripes modulo the block length. */
  lemma {:induction false} SoFarIsModulo(k: Kernel, secret: Secret, input: seq<u8>, n: nat)
    requires STRIPE_LEN * n <= |input|
    ensures Consume(k, secret, START, input, n).soFar == n % StripesPerBlock(secret)
  {
    if n != 0 {
      SoFarIsModulo(k, secret, input, n - 1);
      NextModulo(n - 1, StripesPerBlock(secret));
    }
  }

  lemma NextModulo(n: nat, m: nat)
    requires m > 1
    ensures (n + 1) % m == if n % m + 1 == m then 0 else n % m + 1
  {
    var q := n / m;
    assert n == q * m + n % m;
    if n % m + 1 == m {
      assert (q + 1) * m == q * m + m;
      DivModUnique(n + 1, m, q + 1, 0);
    } else {
      DivModUnique(n + 1, m, q, n % m + 1);
    }
  }

  /** Accumulation of n stripes that stays inside one block. */
  function Accumulated(k: Kernel, secret: Secret, acc: Acc, input: seq<u8>, first: nat, n: nat): Acc
    requires first + n <= StripesPerBlock(secret)
    requires STRIPE_LEN * n <= |input|
  {
    if n == 0 then acc
    else k.accumulate512(Accumulated(k, secret, acc, input, first, n - 1), Stripe(input, n - 1),
                         Segment(secret, CONSUME_RATE * (first + n - 1)))
  }

  /** Inside a block, consuming is accumulating. */
  lemma {:induction false} ConsumeInBlock(k: Kernel, secret: Secret, c: Cursor, input: seq<u8>, n: nat)
    requires c.soFar + n < StripesPerBlock(secret)
    requires STRIPE_LEN * n <= |input|
    ensures Consume(k, secret, c, input, n)
         == Cursor(Accumulated(k, secret, c.acc, input, c.soFar, n), c.soFar + n)
  {
    if n != 0 {
      ConsumeInBlock(k, secret, c, input, n - 1);
    }
  }

  /** Up to the block end: accumulate, scramble, start over. */
  lemma ConsumeToBlockEnd(k: Kernel, secret: Secret, c: Cursor, input: seq<u8>, n: nat)
    requires n > 0 && c.soFar + n == StripesPerBlock(secret)
    requires STRIPE_LEN * n <= |input|
    ensures Consume(k, secret, c, input, n)
         == Cursor(k.scramble(Accumulated(k, secret, c.acc, input, c.soFar, n),
                              Segment(secret, |secret| - STRIPE_LEN)), 0)
  {
    ConsumeInBlock(k, secret, c, input, n - 1);
  }

  // ----- XXH3_accumulate and XXH3_consumeStripes, in place on the lanes -----

  method SetLanes(acc: array<u64>, lanes: Acc)
    requires acc.Length == 8
    modifies acc
    ensures acc[..] == lanes
  {
    for i := 0 to 8
      invariant acc[..i] == lanes[..i]
    {
      acc[i] := lanes[i];
    }
    assert acc[..] == acc[..8] && lanes == lanes[..8];
  }

  /** XXH3_accumulate: `first` is the secret offset in stripes. */
  method Accumulate(k: Kernel, acc: array<u64>, input: seq<u8>, secret: Secret, first: nat, nbStripes: nat)
    requires acc.Length == 8
    requires first + nbStripes <= StripesPerBlock(secret)
    requires STRIPE_LEN * nbStripes <= |input|
    modifies acc
    ensures acc[..] == Accumulated(k, secret, old(acc[..]), input, first, nbStripes)
  {
    ghost var before := acc[..];
    for n := 0 to nbStripes
      invariant acc[..] == Accumulated(k, secret, before, input, first, n)
    {
      var mixed := k.accumulate512(acc[..], Stripe(input, n), Segment(secret, CONSUME_RATE * (first + n)));
      SetLanes(acc, mixed);
    }
  }

  method Scramble(k: Kernel, acc: array<u64>, secret: Secret)
    requires acc.Length == 8
    modifies acc
    ensures acc[..] == k.scramble(old(acc[..]), Segment(secret, |secret| - STRIPE_LEN))
  {
    var mixed := k.scramble(acc[..], Segment(secret, |secret| - STRIPE_LEN));
    SetLanes(acc, mixed);
  }

  /** XXH3_consumeStripes: at most one scramble is needed because nbStripes fits in a block. */
  method ConsumeStripes(k: Kernel, acc: array<u64>, soFar: nat, perBlock: nat, input: seq<u8>, nbStripes: nat,
                        secret: Secret)
    returns (soFar': nat)
    requires acc.Length == 8
    requires perBlock == StripesPerBlock(secret)
    requires soFar < perBlock && nbStripes <= perBlock
    requires STRIPE_LEN * nbStripes <= |input|
    modifies acc
    ensures Cursor(acc[..], soFar') == Consume(k, secret, Cursor(old(acc[..]), soFar), input, nbStripes)
  {
    ghost var c := Cursor(acc[..], soFar);
    if perBlock - soFar <= nbStripes {
      var toEnd := perBlock - soFar;
      var after := nbStripes - toEnd;
      ConsumeSplit(k, secret, c, input, toEnd, after);
      ConsumeToBlockEnd(k, secret, c, input, toEnd);
      Accumulate(k, acc, input, secret, soFar, toEnd);
      Scramble(k, acc, secret);
      ConsumeInBlock(k, secret, Cursor(acc[..], 0), input[STRIPE_LEN * toEnd..], after);
      Accumulate(k, acc, input[STRIPE_LEN * toEnd..], secret, 0, after);
      soFar' := after;
    } else {
      ConsumeInBlock(k, secret, c, input, nbStripes);
      Accumulate(k, acc, input, secret, soFar, nbStripes);
      soFar' := soFar + nbStripes;
    }
  }
}
