/** The one-shot XXH3 entry points, block by block as the header computes them. */
module Xxh3OneShot {
  import opened Words
  import opened Xxh3

  /** XXH3_hashLong_internal_loop: whole blocks, a partial block, then the last stripe. */
  method HashLongLoop(k: Kernel, acc: array<u64>, input: seq<u8>, secret: Secret)
    requires acc.Length == 8 && acc[..] == INIT_ACC
    requires |input| > STRIPE_LEN
    modifies acc
    ensures acc[..] == LongAcc(k, secret, input)
  {
    var perBlock := (|secret| - STRIPE_LEN) / CONSUME_RATE;
    var nbBlocks, done, nbStripes := SplitBlocks(|input|, perBlock);
    MixBlocks(k, acc, input, secret, perBlock, nbBlocks);
    MixTail(k, acc, input, secret, done, nbStripes, perBlock * nbBlocks);
  }

  /** How many whole blocks, how many bytes they take, and how many stripes follow them. */
  method SplitBlocks(len: nat, perBlock: nat) returns (nbBlocks: nat, done: nat, nbStripes: nat)
    requires len > STRIPE_LEN && perBlock > 0
    ensures done == STRIPE_LEN * (perBlock * nbBlocks) <= len && nbStripes < perBlock
    ensures perBlock * nbBlocks + nbStripes == (len - 1) / STRIPE_LEN
  {
    var blockLen := STRIPE_LEN * perBlock;
    nbBlocks := (len - 1) / blockLen;
    BlocksFit(len, perBlock);
    done := blockLen * nbBlocks;
    nbStripes := (len - 1 - done) / STRIPE_LEN;
  }

  /** The partial block and the last stripe, after `a` stripes in whole blocks. */
  method MixTail(k: Kernel, acc: array<u64>, input: seq<u8>, secret: Secret, done: nat, nbStripes: nat, ghost a: nat)
    requires acc.Length == 8 && |input| > STRIPE_LEN
    requires nbStripes < StripesPerBlock(secret)
    requires done == STRIPE_LEN * a && a + nbStripes == (|input| - 1) / STRIPE_LEN
    requires Cursor(acc[..], 0) == Consume(k, secret, START, input, a)
    modifies acc
    ensures acc[..] == LongAcc(k, secret, input)
  {
    MixRest(k, acc, input[done..], secret, nbStripes, input, a);
    var last := k.accumulate512(acc[..], input[|input| - STRIPE_LEN..],
                                Segment(secret, |secret| - STRIPE_LEN - LASTACC_START));
    SetLanes(acc, last);
  }

  /** The loop over the whole blocks. */
  method MixBlocks(k: Kernel, acc: array<u64>, input: seq<u8>, secret: Secret, perBlock: nat, nbBlocks: nat)
    requires acc.Length == 8 && acc[..] == INIT_ACC
    requires perBlock == StripesPerBlock(secret) && STRIPE_LEN * (perBlock * nbBlocks) <= |input|
    modifies acc
    ensures Cursor(acc[..], 0) == Consume(k, secret, START, input, perBlock * nbBlocks)
  {
    for n := 0 to nbBlocks
      invariant perBlock * n <= perBlock * nbBlocks
      invariant Cursor(acc[..], 0) == Consume(k, secret, START, input, perBlock * n)
    {
      BlockBounds(n, nbBlocks, perBlock);
      MixBlock(k, acc, input[STRIPE_LEN * perBlock * n..], secret, perBlock, input, perBlock * n);
    }
  }

  /** One round of the block loop; `a` stripes of `whole` are done. */
  method MixBlock(k: Kernel, acc: array<u64>, block: seq<u8>, secret: Secret, perBlock: nat,
                  ghost whole: seq<u8>, ghost a: nat)
    requires acc.Length == 8 && perBlock == StripesPerBlock(secret)
    requires STRIPE_LEN * (a + perBlock) <= |whole| && block == whole[STRIPE_LEN * a..]
    requires Cursor(acc[..], 0) == Consume(k, secret, START, whole, a)
    modifies acc
    ensures Cursor(acc[..], 0) == Consume(k, secret, START, whole, a + perBlock)
  {
    ConsumeMore(k, secret, whole, a, block, perBlock);
    ConsumeToBlockEnd(k, secret, Cursor(acc[..], 0), block, perBlock);
    Accumulate(k, acc, block, secret, 0, perBlock);
    Scramble(k, acc, secret);
  }

  /** The stripes of the last, partial block. */
  method MixRest(k: Kernel, acc: array<u64>, rest: seq<u8>, secret: Secret, nbStripes: nat,
                 ghost whole: seq<u8>, ghost a: nat)
    requires acc.Length == 8 && nbStripes < StripesPerBlock(secret)
    requires STRIPE_LEN * (a + nbStripes) <= |whole| && rest == whole[STRIPE_LEN * a..]
    requires Cursor(acc[..], 0) == Consume(k, secret, START, whole, a)
    modifies acc
    ensures Cursor(acc[..], nbStripes) == Consume(k, secret, START, whole, a + nbStripes)
  {
    ConsumeMore(k, secret, whole, a, rest, nbStripes);
    ConsumeInBlock(k, secret, Cursor(acc[..], 0), rest, nbStripes);
    Accumulate(k, acc, rest, secret, 0, nbStripes);
  }

  /** The whole blocks and the stripes of the partial block are exactly the (len - 1) / 64 stripes. */
  lemma BlocksFit(len: nat, perBlock: nat)
    requires len > STRIPE_LEN && perBlock > 0
    ensures var blockLen := STRIPE_LEN * perBlock;
            var nbBlocks := (len - 1) / blockLen;
            var nbStripes := (len - 1 - blockLen * nbBlocks) / STRIPE_LEN;
            && blockLen * nbBlocks <= len - 1
            && blockLen * nbBlocks == STRIPE_LEN * (perBlock * nbBlocks)
            && 0 <= nbStripes < perBlock
            && perBlock * nbBlocks + nbStripes == (len - 1) / STRIPE_LEN
  {
    var blockLen := STRIPE_LEN * perBlock;
    var nbBlocks := (len - 1) / blockLen;
    assert blockLen * nbBlocks == STRIPE_LEN * (perBlock * nbBlocks);
    assert (len - 1) == blockLen * nbBlocks + (len - 1) % blockLen;
  }

  lemma BlockBounds(n: nat, nbBlocks: nat, perBlock: nat)
    requires n < nbBlocks
    ensures STRIPE_LEN * perBlock * n == STRIPE_LEN * (perBlock * n)
    ensures perBlock * (n + 1) == perBlock * n + perBlock
    ensures perBlock * (n + 1) <= perBlock * nbBlocks
  {
  }

  method HashLong64(k: Kernel, input: seq<u8>, secret: Secret) returns (h: u64)
    requires |input| > MIDSIZE_MAX
    ensures h == Finish64(k, LongAcc(k, secret, input), secret, |input|)
  {
    var acc := new u64[8](i requires 0 <= i < 8 => INIT_ACC[i]);
    assert acc[..] == INIT_ACC;
    HashLongLoop(k, acc, input, secret);
    h := k.mergeAccs(acc[..], Segment(secret, MERGEACCS_START), |input| * PRIME64_1 % TWO64);
  }

  method HashLong128(k: Kernel, input: seq<u8>, secret: Secret) returns (h: Hash128)
    requires |input| > MIDSIZE_MAX
    ensures h == Finish128(k, LongAcc(k, secret, input), secret, |input|)
  {
    var acc := new u64[8](i requires 0 <= i < 8 => INIT_ACC[i]);
    assert acc[..] == INIT_ACC;
    HashLongLoop(k, acc, input, secret);
    var low := k.mergeAccs(acc[..], Segment(secret, MERGEACCS_START), |input| * PRIME64_1 % TWO64);
    var high := k.mergeAccs(acc[..], Segment(secret, |secret| - 64 - MERGEACCS_START),
                            TWO64 - 1 - |input| * PRIME64_2 % TWO64);
    h := Hash128(low, high);
  }

  /** XXH3_64bits, XXH3_64bits_withSecret and XXH3_64bits_withSeed. */
  method OneShot64(k: Kernel, key: Key, input: seq<u8>) returns (h: u64)
    ensures h == Hash64(k, key, input)
  {
    match key
    case Plain =>
      if |input| <= MIDSIZE_MAX {
        return k.short64(input, k.defaultSecret, 0);
      }
      h := HashLong64(k, input, k.defaultSecret);
    case WithSecret(secret) =>
      if |input| <= MIDSIZE_MAX {
        return k.short64(input, secret, 0);
      }
      h := HashLong64(k, input, secret);
    case WithSeed(seed) =>
      if |input| <= MIDSIZE_MAX {
        return k.short64(input, k.defaultSecret, seed);
      }
      if seed == 0 {
        h := HashLong64(k, input, k.defaultSecret);
      } else {
        h := HashLong64(k, input, k.customSecret(seed));
      }
  }

  /** XXH3_128bits, XXH3_128bits_withSecret and XXH3_128bits_withSeed. */
  method OneShot128(k: Kernel, key: Key, input: seq<u8>) returns (h: Hash128)
    ensures h == Hash128Of(k, key, input)
    ensures |input| > MIDSIZE_MAX ==> h.low64 == Hash64(k, key, input)
  {
    match key
    case Plain =>
      if |input| <= MIDSIZE_MAX {
        return k.short128(input, k.defaultSecret, 0);
      }
      h := HashLong128(k, input, k.defaultSecret);
    case WithSecret(secret) =>
      if |input| <= MIDSIZE_MAX {
        return k.short128(input, secret, 0);
      }
      h := HashLong128(k, input, secret);
    case WithSeed(seed) =>
      if |input| <= MIDSIZE_MAX {
        return k.short128(input, k.defaultSecret, seed);
      }
      if seed == 0 {
        h := HashLong128(k, input, k.defaultSecret);
      } else {
        h := HashLong128(k, input, k.customSecret(seed));
      }
  }
}
