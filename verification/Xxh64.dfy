/** XXH64: the streaming state computes the one-shot hash, whatever the cuts. */
module Xxh64 {
  import opened Words
  import opened Stripes

  const STRIPE := 32
  const PRIME64_1: u64 := 0x9E3779B185EBCA87
  const PRIME64_2: u64 := 0xC2B2AE3D27D4EB4F
  const PRIME64_5: u64 := 0x27D4EB2F165667C5

  datatype Lanes = Lanes(v1: u64, v2: u64, v3: u64, v4: u64)

  /** The mixing steps: XXH64_round, the merge of the lanes with its four mergeRound calls, the steps of
      XXH64_finalize for eight, four and one bytes, and XXH64_avalanche. */
  datatype Kernel = Kernel(
    round: (u64, u64) -> u64,
    converge: Lanes -> u64,
    process8: (u64, u64) -> u64,
    process4: (u64, u32) -> u64,
    process1: (u64, u8) -> u64,
    avalanche: u64 -> u64)

  function Init(seed: u64): Lanes {
    Lanes((seed + PRIME64_1 + PRIME64_2) % TWO64, (seed + PRIME64_2) % TWO64, seed, (seed - PRIME64_1) % TWO64)
  }

  /** The lanes start PRIME64_1, PRIME64_2 and PRIME64_1 apart, the third one at the seed. */
  lemma InitSpacing(seed: u64)
    ensures var l := Init(seed);
            && l.v3 == seed && (l.v2 + PRIME64_1) % TWO64 == l.v1 && (l.v3 + PRIME64_2) % TWO64 == l.v2
            && (l.v4 + PRIME64_1) % TWO64 == l.v3
  {
  }

  function Mix(k: Kernel): (Lanes, seq<u8>) -> Lanes {
    (l: Lanes, s: seq<u8>) =>
      Lanes(k.round(l.v1, ReadLE64(s, 0)), k.round(l.v2, ReadLE64(s, 8)),
            k.round(l.v3, ReadLE64(s, 16)), k.round(l.v4, ReadLE64(s, 24)))
  }

  /** Words of eight bytes, at most one of four, then single bytes. */
  function Finalize(k: Kernel, h: u64, tail: seq<u8>): u64
    decreases |tail|
  {
    if |tail| >= 8 then Finalize(k, k.process8(h, ReadLE64(tail, 0)), tail[8..])
    else if |tail| >= 4 then Finalize(k, k.process4(h, ReadLE32(tail, 0)), tail[4..])
    else if |tail| > 0 then Finalize(k, k.process1(h, tail[0]), tail[1..])
    else k.avalanche(h)
  }

  function Hash(k: Kernel, seed: u64, data: seq<u8>): u64 {
    var start := if |data| >= STRIPE then k.converge(Fold(Mix(k), STRIPE, Init(seed), data))
                 else (seed + PRIME64_5) % TWO64;
    Finalize(k, (start + |data|) % TWO64, Tail(STRIPE, data))
  }

  /** XXH64_finalize: `totalLen` is masked to the bytes that are left. */
  method FinalizeLoop(k: Kernel, h: u64, ptr: seq<u8>, totalLen: nat) returns (r: u64)
    requires totalLen % STRIPE <= |ptr|
    ensures r == Finalize(k, h, ptr[..totalLen % STRIPE])
  {
    r := FinalizeTail(k, h, ptr[..totalLen % STRIPE]);
  }

  /** One step of the finish at position p. */
  lemma FinalizeStep(k: Kernel, h: u64, tail: seq<u8>, p: nat)
    requires p < |tail|
    ensures Finalize(k, h, tail[p..]) ==
            if p + 8 <= |tail| then Finalize(k, k.process8(h, ReadLE64(tail, p)), tail[p + 8..])
            else if p + 4 <= |tail| then Finalize(k, k.process4(h, ReadLE32(tail, p)), tail[p + 4..])
            else Finalize(k, k.process1(h, tail[p]), tail[p + 1..])
  {
    if p + 8 <= |tail| {
      assert tail[p..][8..] == tail[p + 8..];
      ReadWithin64(tail, p, |tail|, 0);
    } else if p + 4 <= |tail| {
      assert tail[p..][4..] == tail[p + 4..];
      ReadWithin(tail, p, |tail|, 0);
    } else {
      assert tail[p..][1..] == tail[p + 1..];
    }
  }

  method FinalizeTail(k: Kernel, h: u64, tail: seq<u8>) returns (r: u64)
    ensures r == Finalize(k, h, tail)
  {
    var h64, p, len := h, 0, |tail|;
    assert tail[p..] == tail;
    while len >= 8
      invariant 0 <= p && 0 <= len && p + len == |tail|
      invariant Finalize(k, h64, tail[p..]) == Finalize(k, h, tail)
    {
      FinalizeStep(k, h64, tail, p);
      h64 := k.process8(h64, ReadLE64(tail, p));
      p, len := p + 8, len - 8;
    }
    if len >= 4 {
      FinalizeStep(k, h64, tail, p);
      h64 := k.process4(h64, ReadLE32(tail, p));
      p, len := p + 4, len - 4;
    }
    while len > 0
      invariant 0 <= p && 0 <= len < 4 && p + len == |tail|
      invariant Finalize(k, h64, tail[p..]) == Finalize(k, h, tail)
    {
      FinalizeStep(k, h64, tail, p);
      h64 := k.process1(h64, tail[p]);
      p, len := p + 1, len - 1;
    }
    assert tail[p..] == [];
    return k.avalanche(h64);
  }

  /** The stripe loop that XXH64_endian_align and XXH64_update share. */
  method MixStripes(k: Kernel, lanes: Lanes, input: seq<u8>, start: nat) returns (l: Lanes, p: nat)
    requires start <= |input|
    ensures start <= p <= |input| && input[p..] == Tail(STRIPE, input[start..])
    ensures l == Fold(Mix(k), STRIPE, lanes, input[start..])
  {
    l, p := lanes, start;
    while p + STRIPE <= |input|
      invariant start <= p <= |input|
      invariant Fold(Mix(k), STRIPE, l, input[p..]) == Fold(Mix(k), STRIPE, lanes, input[start..])
      invariant Tail(STRIPE, input[p..]) == Tail(STRIPE, input[start..])
    {
      assert input[p..][..STRIPE] == input[p..p + STRIPE] && input[p..][STRIPE..] == input[p + STRIPE..];
      ReadWithin64(input, p, p + STRIPE, 0);
      ReadWithin64(input, p, p + STRIPE, 8);
      ReadWithin64(input, p, p + STRIPE, 16);
      ReadWithin64(input, p, p + STRIPE, 24);
      var v1 := k.round(l.v1, ReadLE64(input, p));
      var v2 := k.round(l.v2, ReadLE64(input, p + 8));
      var v3 := k.round(l.v3, ReadLE64(input, p + 16));
      var v4 := k.round(l.v4, ReadLE64(input, p + 24));
      l := Lanes(v1, v2, v3, v4);
      p := p + STRIPE;
    }
  }

  /** XXH64_endian_align */
  method OneShot(k: Kernel, seed: u64, input: seq<u8>) returns (h: u64)
    requires |input| < TWO64
    ensures h == Hash(k, seed, input)
  {
    var h64: u64;
    var p := 0;
    assert input[0..] == input;
    ghost var _ := TailLength(STRIPE, input);
    if |input| >= STRIPE {
      var lanes;
      lanes, p := MixStripes(k, Init(seed), input, 0);
      h64 := k.converge(lanes);
    } else {
      h64 := (seed + PRIME64_5) % TWO64;
    }
    h64 := (h64 + |input|) % TWO64;
    assert input[p..] == input[p..][..|input| % STRIPE];
    h := FinalizeLoop(k, h64, input[p..], |input|);
  }

  /** The hash from the mixed lanes and the left-over bytes; the third lane holds the seed while nothing is mixed. */
  lemma HashFromLanes(k: Kernel, seed: u64, data: seq<u8>, lanes: Lanes, tail: seq<u8>)
    requires lanes == Fold(Mix(k), STRIPE, Init(seed), data) && tail == Tail(STRIPE, data)
    ensures var start := if |data| >= STRIPE then k.converge(lanes) else (lanes.v3 + PRIME64_5) % TWO64;
            Hash(k, seed, data) == Finalize(k, (start + |data|) % TWO64, tail)
  {
    assert |data| < STRIPE ==> lanes == Init(seed);
  }

  /** XXH64_state_t; the ghost fields are the seed and every byte since the reset. */
  class State {
    const k: Kernel
    const mem: array<u8>
    var totalLen: u64
    var lanes: Lanes
    var memsize: nat
    ghost var seed: u64
    ghost var data: seq<u8>

    ghost predicate Valid()
      reads this, mem
    {
      && mem.Length == STRIPE && memsize < STRIPE
      && mem[..memsize] == Tail(STRIPE, data)
      && lanes == Fold(Mix(k), STRIPE, Init(seed), data)
      && totalLen == |data| % TWO64
    }

    /** A state right after XXH64_reset. */
    constructor (kernel: Kernel, newSeed: u64)
      ensures Valid() && k == kernel && seed == newSeed && data == [] && fresh(mem)
    {
      k := kernel;
      mem := new u8[STRIPE];
      totalLen, memsize := 0, 0;
      lanes := Init(newSeed);
      seed, data := newSeed, [];
    }

    /** XXH64_reset */
    method Reset(newSeed: u64)
      requires mem.Length == STRIPE
      modifies this
      ensures Valid() && seed == newSeed && data == []
    {
      totalLen, memsize := 0, 0;
      lanes := Init(newSeed);
      seed, data := newSeed, [];
    }

    /** XXH64_update. No input pointer is an error that changes nothing. */
    method Update(input: Option<seq<u8>>) returns (ok: bool)
      requires Valid()
      modifies this, mem
      ensures Valid() && seed == old(seed) && ok == input.Some?
      ensures data == if input.Some? then old(data) + input.value else old(data)
    {
      if input.None? {
        return false;
      }
      var bytes := input.value;
      WrapAdd(|data|, |bytes|, TWO64);
      totalLen := (totalLen + |bytes|) % TWO64;
      Resume(Mix(k), STRIPE, Init(seed), data, bytes);
      if memsize + |bytes| < STRIPE {
        ghost var pending := mem[..memsize];
        CopyInto(mem, memsize, bytes);
        memsize := memsize + |bytes|;
        assert mem[..memsize] == pending + bytes;
      } else {
        Absorb(bytes);
      }
      data := data + bytes;
      return true;
    }

    /** Complete the pending stripe, mix whole stripes, keep the rest. */
    method Absorb(bytes: seq<u8>)
      requires mem.Length == STRIPE && memsize < STRIPE && memsize + |bytes| >= STRIPE
      modifies this`lanes, this`memsize, mem
      ensures memsize < STRIPE
      ensures mem[..memsize] == Tail(STRIPE, old(mem[..memsize]) + bytes)
      ensures lanes == Fold(Mix(k), STRIPE, old(lanes), old(mem[..memsize]) + bytes)
    {
      ghost var whole := mem[..memsize] + bytes;
      var p := 0;
      if memsize != 0 {
        p := STRIPE - memsize;
        CopyInto(mem, memsize, bytes[..p]);
        assert mem[..] == whole[..STRIPE] && whole[STRIPE..] == bytes[p..];
        lanes := Lanes(k.round(lanes.v1, ReadLE64(mem[..], 0)), k.round(lanes.v2, ReadLE64(mem[..], 8)),
                       k.round(lanes.v3, ReadLE64(mem[..], 16)), k.round(lanes.v4, ReadLE64(mem[..], 24)));
        memsize := 0;
      } else {
        assert whole == bytes[p..];
      }
      lanes, p := MixStripes(k, lanes, bytes, p);
      if p < |bytes| {
        CopyInto(mem, 0, bytes[p..]);
        memsize := |bytes| - p;
      }
      assert mem[..memsize] == bytes[p..];
    }

    /** memsize always equals the total length modulo 32. */
    lemma MaskedTotal()
      requires Valid() && |data| < TWO64
      ensures totalLen == |data| && memsize == totalLen % STRIPE
      ensures mem[..][..totalLen % STRIPE] == Tail(STRIPE, data)
    {
      var n := TailLength(STRIPE, data);
      assert mem[..][..memsize] == mem[..memsize];
    }

    /** XXH64_digest: the third lane still holds the seed while nothing was mixed, and the masked total is the
        number of pending bytes. */
    method Digest() returns (h: u64)
      requires Valid()
      requires |data| < TWO64
      ensures h == Hash(k, seed, data)
    {
      MaskedTotal();
      HashFromLanes(k, seed, data, lanes, Tail(STRIPE, data));
      var h64: u64 := if totalLen >= STRIPE then k.converge(lanes) else (lanes.v3 + PRIME64_5) % TWO64;
      h64 := (h64 + totalLen) % TWO64;
      h := FinalizeLoop(k, h64, mem[..], totalLen);
    }
  }

  /** Any number of updates. */
  method UpdateAll(state: State, chunks: seq<seq<u8>>)
    requires state.Valid() && state.data == []
    modifies state, state.mem
    ensures state.Valid() && state.data == Joined(chunks) && state.seed == old(state.seed)
  {
    for i := 0 to |chunks|
      invariant state.Valid() && state.seed == old(state.seed)
      invariant state.data == Joined(chunks[..i])
    {
      var _ := state.Update(Some(chunks[i]));
      assert chunks[..i + 1][..i] == chunks[..i];
    }
    assert chunks[..|chunks|] == chunks;
  }

  /** Streaming is the one-shot hash, for every seed and every way of cutting the input; the state may
      have been used before. */
  method StreamedEqualsOneShot(state: State, seed: u64, chunks: seq<seq<u8>>) returns (streamed: u64, oneShot: u64)
    requires |Joined(chunks)| < TWO64
    requires state.mem.Length == STRIPE
    modifies state, state.mem
    ensures streamed == oneShot == Hash(state.k, seed, Joined(chunks))
  {
    state.Reset(seed);
    UpdateAll(state, chunks);
    streamed := state.Digest();
    oneShot := OneShot(state.k, seed, Joined(chunks));
  }
}
