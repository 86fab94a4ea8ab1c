/**
 The routines that XXH_VECTOR selects, as one kernel: whatever the instruction set, they compute its fields, so
 the streaming theorem holds of the lanes that the processor really mixes.
 */
module Xxh3Dispatch {
  import opened Words
  import opened Bits
  import opened Xxh3
  import opened Xxh3Lanes
  import Stripes
  import Xxh3Stream

  datatype Vector = Scalar | Sse2 | Avx2 | Avx512

  /** Lanes in a register. */
  function Width(v: Vector): (w: nat)
    requires !v.Scalar?
    ensures w in {2, 4, 8}
  {
    if v.Sse2? then 2 else if v.Avx2? then 4 else 8
  }

  /** The hashes of short inputs, which stay arbitrary. */
  datatype Short = Short(h64: (seq<u8>, seq<u8>, u64) -> u64, h128: (seq<u8>, seq<u8>, u64) -> Hash128)

  function Accumulated512(acc: Acc, stripe: seq<u8>, segment: seq<u8>): Acc {
    if |stripe| >= 64 && |segment| >= 64 then AccumulateLanes(acc, LanesOf(stripe), LanesOf(segment)) else acc
  }

  function Scrambled(acc: Acc, segment: seq<u8>): Acc {
    if |segment| >= 64 then ScrambleLanes(acc, LanesOf(segment)) else acc
  }

  function Merged(acc: Acc, segment: seq<u8>, start: u64): u64 {
    if |segment| >= 64 then Avalanche(MergeSum(acc, segment, start, 4)) else start
  }

  function LaneKernel(secret: DefaultSecret, short: Short): Kernel {
    Kernel(Accumulated512, Scrambled, secret, (seed: u64) => CustomSecret(secret, seed), Merged, short.h64, short.h128)
  }

  const ZEROS: seq<u8> := seq(64, _ => 0)

  lemma ZeroLane(i: nat)
    requires i < 8
    ensures LanesOf(ZEROS)[i] == 0
  {
    LaneAt(ZEROS, i);
  }

  /** Whose words are the data: under a zero key each lane gains the neighbouring word of the stripe and the product
      of the halves of its own one ... */
  lemma ZeroKey(acc: Acc, stripe: seq<u8>, i: nat)
    requires |stripe| >= 64 && i < 8
    ensures var own, other := ReadLE64(stripe, 8 * i), ReadLE64(stripe, 8 * Neighbour(i));
            Accumulated512(acc, stripe, ZEROS)[i] == (acc[i] + other + Lo(own) * Hi(own)) % TWO64
  {
    LaneAt(stripe, i);
    LaneAt(stripe, Neighbour(i));
    ZeroLane(i);
    UnkeyedLane(acc[i], ReadLE64(stripe, 8 * i), ReadLE64(stripe, 8 * Neighbour(i)));
  }

  /** ... and a zero stripe leaves only the products of the key. */
  lemma ZeroStripe(acc: Acc, segment: seq<u8>, i: nat)
    requires |segment| >= 64 && i < 8
    ensures var key := ReadLE64(segment, 8 * i);
            Accumulated512(acc, ZEROS, segment)[i] == (acc[i] + Lo(key) * Hi(key)) % TWO64
  {
    LaneAt(segment, i);
    ZeroLane(i);
    ZeroLane(Neighbour(i));
    UnkeyedLane(acc[i], ReadLE64(segment, 8 * i), 0);
  }

  /** XXH3_accumulate_512 */
  method Accumulate512(v: Vector, acc: array<u64>, stripe: seq<u8>, segment: seq<u8>,
                       ghost secret: DefaultSecret, ghost short: Short)
    requires acc.Length == 8 && |stripe| >= STRIPE_LEN && |segment| >= STRIPE_LEN
    modifies acc
    ensures acc[..] == LaneKernel(secret, short).accumulate512(old(acc[..]), stripe, segment)
  {
    if v.Scalar? {
      AccumulateScalar(acc, LanesOf(stripe), LanesOf(segment));
    } else {
      AccumulateVector(acc, LanesOf(stripe), LanesOf(segment), Width(v));
    }
  }

  /** XXH3_scrambleAcc */
  method ScrambleAcc(v: Vector, acc: array<u64>, segment: seq<u8>, ghost secret: DefaultSecret,
                     ghost short: Short)
    requires acc.Length == 8 && |segment| >= STRIPE_LEN
    modifies acc
    ensures acc[..] == LaneKernel(secret, short).scramble(old(acc[..]), segment)
  {
    if v.Scalar? {
      ScrambleScalar(acc, LanesOf(segment));
    } else {
      ScrambleVector(acc, LanesOf(segment), Width(v));
    }
  }

  /** XXH3_initCustomSecret */
  method InitCustomSecret(v: Vector, customSecret: array<u8>, seed: u64, secret: DefaultSecret,
                          ghost short: Short)
    requires customSecret.Length == SECRET_DEFAULT_SIZE
    modifies customSecret
    ensures customSecret[..] == LaneKernel(secret, short).customSecret(seed)
  {
    if v.Scalar? {
      InitCustomSecretScalar(customSecret, secret, seed);
    } else {
      InitCustomSecretVector(customSecret, secret, seed, Width(v));
    }
  }

  /** XXH3_mergeAccs */
  method Merge(acc: Acc, segment: seq<u8>, start: u64, ghost secret: DefaultSecret, ghost short: Short)
    returns (r: u64)
    requires |segment| >= STRIPE_LEN
    ensures r == LaneKernel(secret, short).mergeAccs(acc, segment, start)
  {
    r := MergeAccs(acc, segment, start);
  }

  /** Streaming is the one-shot hash on these lanes. */
  method StreamedOnLanes(secret: DefaultSecret, short: Short, key: Key, chunks: seq<seq<u8>>)
    returns (streamed64: u64, oneShot64: u64, streamed128: Hash128, oneShot128: Hash128)
    requires |Stripes.Joined(chunks)| < TWO64
    requires key.WithSecret? ==> |key.secret| < TWO64
    ensures streamed64 == oneShot64 == Hash64(LaneKernel(secret, short), key, Stripes.Joined(chunks))
    ensures streamed128 == oneShot128 == Hash128Of(LaneKernel(secret, short), key, Stripes.Joined(chunks))
  {
    var state := new Xxh3Stream.State(LaneKernel(secret, short));
    streamed64, oneShot64, streamed128, oneShot128 := Xxh3Stream.StreamedEqualsOneShot(state, key, chunks);
  }
}
