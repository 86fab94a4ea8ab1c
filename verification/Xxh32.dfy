/** XXH32: the streaming state computes the one-shot hash, whatever the cuts and beyond 4 GiB. */
module Xxh32 {
  import opened Words
  import opened Stripes

  const STRIPE := 16
  const PRIME32_1: u32 := 0x9E3779B1
  const PRIME32_2: u32 := 0x85EBCA77
  const PRIME32_3: u32 := 0xC2B2AE3D
  const PRIME32_5: u32 := 0x165667B1

  datatype Lanes = Lanes(v1: u32, v2: u32, v3: u32, v4: u32)

  /** The mixing steps: XXH32_round, the final merge of the lanes, XXH_PROCESS4, XXH_PROCESS1 and
      XXH32_avalanche. The streaming theorem holds for every choice of them. */
  datatype Kernel = Kernel(
    round: (u32, u32) -> u32,
    converge: Lanes -> u32,
    process4: (u32, u32) -> u32,
    process1: (u32, u8) -> u32,
    avalanche: u32 -> u32)

  function Init(seed: u32): Lanes {
    Lanes((seed + PRIME32_1 + PRIME32_2) % TWO32, (seed + PRIME32_2) % TWO32, seed, (seed - PRIME32_1) % TWO32)
  }

  /** The lanes start PRIME32_1, PRIME32_2 and PRIME32_1 apart, the third one at the seed. */
  lemma InitSpacing(seed: u32)
    ensures var l := Init(seed);
            && l.v3 == seed && (l.v2 + PRIME32_1) % TWO32 == l.v1 && (l.v3 + PRIME32_2) % TWO32 == l.v2
            && (l.v4 + PRIME32_1) % TWO32 == l.v3
  {
  }

  function Mix(k: Kernel): (Lanes, seq<u8>) -> Lanes {
    (l: Lanes, s: seq<u8>) =>
      Lanes(k.round(l.v1, ReadLE32(s, 0)), k.round(l.v2, ReadLE32(s, 4)),
            k.round(l.v3, ReadLE32(s, 8)), k.round(l.v4, ReadLE32(s, 12)))
  }

  /** Words of four bytes, then single bytes. */
  function Finalize(k: Kernel, h: u32, tail: seq<u8>): u32
    decreases |tail|
  {
    if |tail| >= 4 then Finalize(k, k.process4(h, ReadLE32(tail, 0)), tail[4..])
    else if |tail| > 0 then Finalize(k, k.process1(h, tail[0]), tail[1..])
    else k.avalanche(h)
  }

  /** The specification's algorithm: stripes into the lanes, the length, then the left-over bytes. */
  function Hash(k: Kernel, seed: u32, data: seq<u8>): u32 {
    var start := if |data| >= STRIPE then k.converge(Fold(Mix(k), STRIPE, Init(seed), data))
                 else (seed + PRIME32_5) % TWO32;
    Finalize(k, (start + |data|) % TWO32, Tail(STRIPE, data))
  }

  /** XXH_PROCESS4 and XXH_PROCESS1: one step of the finish at position p. */
  lemma FinalizeStep(k: Kernel, h: u32, tail: seq<u8>, p: nat)
    requires p < |tail|
    ensures Finalize(k, h, tail[p..]) ==
            if p + 4 <= |tail| then Finalize(k, k.process4(h, ReadLE32(tail, p)), tail[p + 4..])
            else Finalize(k, k.process1(h, tail[p]), tail[p + 1..])
  {
    if p + 4 <= |tail| {
      assert tail[p..][4..] == tail[p + 4..];
      ReadWithin(tail, p, |tail|, 0);
    } else {
      assert tail[p..][1..] == tail[p + 1..];
    }
  }

  /** XXH32_finalize, rerolled. */
  method FinalizeRerolled(k: Kernel, h: u32, tail: seq<u8>) returns (r: u32)
    requires |tail| < 16
    ensures r == Finalize(k, h, tail)
  {
    var h32, p, len := h, 0, |tail|;
    assert tail[p..] == tail;
    while len >= 4
      invariant 0 <= p && 0 <= len && p + len == |tail|
      invariant Finalize(k, h32, tail[p..]) == Finalize(k, h, tail)
    {
      FinalizeStep(k, h32, tail, p);
      h32 := k.process4(h32, ReadLE32(tail, p));
      p, len := p + 4, len - 4;
    }
    while len > 0
      invariant 0 <= p && 0 <= len < 4 && p + len == |tail|
      invariant Finalize(k, h32, tail[p..]) == Finalize(k, h, tail)
    {
      FinalizeStep(k, h32, tail, p);
      h32 := k.process1(h32, tail[p]);
      p, len := p + 1, len - 1;
    }
    assert tail[p..] == [];
    return k.avalanche(h32);
  }

  /** XXH_PROCESS4 */
  method Process4(k: Kernel, h: u32, tail: seq<u8>, p: nat) returns (h': u32, p': nat)
    requires p + 4 <= |tail|
    ensures p' == p + 4 && Finalize(k, h', tail[p'..]) == Finalize(k, h, tail[p..])
  {
    FinalizeStep(k, h, tail, p);
    h', p' := k.process4(h, ReadLE32(tail, p)), p + 4;
  }

  /** XXH_PROCESS1, once fewer than four bytes are left. */
  method Process1(k: Kernel, h: u32, tail: seq<u8>, p: nat) returns (h': u32, p': nat)
    requires p < |tail| < p + 4
    ensures p' == p + 1 && Finalize(k, h', tail[p'..]) == Finalize(k, h, tail[p..])
  {
    FinalizeStep(k, h, tail, p);
    h', p' := k.process1(h, tail[p]), p + 1;
  }

  /** The labels 12, 8 and 4, falling through in this order. */
  method Cases12And8And4(k: Kernel, h: u32, tail: seq<u8>) returns (r: u32)
    requires |tail| in {12, 8, 4}
    ensures r == Finalize(k, h, tail)
  {
    var p: nat := 0;
    r := h;
    assert tail[p..] == tail;
    if |tail| >= 12 { r, p := Process4(k, r, tail, p); }
    if |tail| >= 8 { r, p := Process4(k, r, tail, p); }
    r, p := Process4(k, r, tail, p);
    assert tail[p..] == [];
    return k.avalanche(r);
  }

  /** The labels 13, 9 and 5. */
  method Cases13And9And5(k: Kernel, h: u32, tail: seq<u8>) returns (r: u32)
    requires |tail| in {13, 9, 5}
    ensures r == Finalize(k, h, tail)
  {
    var p: nat := 0;
    r := h;
    assert tail[p..] == tail;
    if |tail| >= 13 { r, p := Process4(k, r, tail, p); }
    if |tail| >= 9 { r, p := Process4(k, r, tail, p); }
    r, p := Process4(k, r, tail, p);
    r, p := Process1(k, r, tail, p);
    assert tail[p..] == [];
    return k.avalanche(r);
  }

  /** The labels 14, 10 and 6. */
  method Cases14And10And6(k: Kernel, h: u32, tail: seq<u8>) returns (r: u32)
    requires |tail| in {14, 10, 6}
    ensures r == Finalize(k, h, tail)
  {
    var p: nat := 0;
    r := h;
    assert tail[p..] == tail;
    if |tail| >= 14 { r, p := Process4(k, r, tail, p); }
    if |tail| >= 10 { r, p := Process4(k, r, tail, p); }
    r, p := Process4(k, r, tail, p);
    r, p := Process1(k, r, tail, p);
    r, p := Process1(k, r, tail, p);
    assert tail[p..] == [];
    return k.avalanche(r);
  }

  /** The labels 15, 11, 7, 3, 2, 1 and 0. */
  method Cases15To0(k: Kernel, h: u32, tail: seq<u8>) returns (r: u32)
    requires |tail| in {15, 11, 7, 3, 2, 1, 0}
    ensures r == Finalize(k, h, tail)
  {
    var p: nat := 0;
    r := h;
    assert tail[p..] == tail;
    if |tail| >= 15 { r, p := Process4(k, r, tail, p); }
    if |tail| >= 11 { r, p := Process4(k, r, tail, p); }
    if |tail| >= 7 { r, p := Process4(k, r, tail, p); }
    if |tail| >= 3 { r, p := Process1(k, r, tail, p); }
    if |tail| >= 2 { r, p := Process1(k, r, tail, p); }
    if |tail| >= 1 { r, p := Process1(k, r, tail, p); }
    assert tail[p..] == [];
    return k.avalanche(r);
  }

  /** XXH32_finalize, as the switch over len & 15: a label enters its group and falls through to the group's end. */
  method FinalizeSwitch(k: Kernel, h: u32, tail: seq<u8>) returns (r: u32)
    requires |tail| < 16
    ensures r == Finalize(k, h, tail)
  {
    match |tail| % 16 {
      case 12 | 8 | 4 => r := Cases12And8And4(k, h, tail);
      case 13 | 9 | 5 => r := Cases13And9And5(k, h, tail);
      case 14 | 10 | 6 => r := Cases14And10And6(k, h, tail);
      case 15 | 11 | 7 | 3 | 2 | 1 | 0 => r := Cases15To0(k, h, tail);
    }
  }

  /** The stripe loop that XXH32_endian_align and XXH32_update share. */
  method MixStripes(k: Kernel, lanes: Lanes, input: seq<u8>, start: nat) returns (l: Lanes, p: nat)
    requires start <= |input|
    ensures start <= p <= |input| && input[p..] == Tail(STRIPE, input[start..])
    ensures l == Fold(Mix(k), STRIPE, lanes, input[start..])
  {
    l, p := lanes, start;
    while p <= |input| - STRIPE
      invariant start <= p <= |input|
      invariant Fold(Mix(k), STRIPE, l, input[p..]) == Fold(Mix(k), STRIPE, lanes, input[start..])
      invariant Tail(STRIPE, input[p..]) == Tail(STRIPE, input[start..])
    {
      assert input[p..][..STRIPE] == input[p..p + STRIPE] && input[p..][STRIPE..] == input[p + STRIPE..];
      ReadWithin(input, p, p + STRIPE, 0);
      ReadWithin(input, p, p + STRIPE, 4);
      ReadWithin(input, p, p + STRIPE, 8);
      ReadWithin(input, p, p + STRIPE, 12);
      var v1 := k.round(l.v1, ReadLE32(input, p));
      var v2 := k.round(l.v2, ReadLE32(input, p + 4));
      var v3 := k.round(l.v3, ReadLE32(input, p + 8));
      var v4 := k.round(l.v4, ReadLE32(input, p + 12));
      l := Lanes(v1, v2, v3, v4);
      p := p + STRIPE;
    }
  }

  /** XXH32_endian_align */
  method OneShot(k: Kernel, seed: u32, input: seq<u8>) returns (h: u32)
    ensures h == Hash(k, seed, input)
  {
    var h32: u32;
    var p := 0;
    assert input[0..] == input;
    if |input| >= STRIPE {
      var lanes;
      lanes, p := MixStripes(k, Init(seed), input, 0);
      h32 := k.converge(lanes);
    } else {
      h32 := (seed + PRIME32_5) % TWO32;
    }
    h32 := (h32 + |input| % TWO32) % TWO32;
    WrapAdd(|input|, if |input| >= STRIPE then k.converge(Fold(Mix(k), STRIPE, Init(seed), input))
                     else (seed + PRIME32_5) % TWO32, TWO32);
    h := FinalizeSwitch(k, h32, input[p..]);
  }

  /** XXH32_state_t; the ghost fields are the seed and every byte since the reset. */
  class State {
    const k: Kernel
    const mem: array<u8>
    var totalLen32: u32
    var largeLen: bool
    var lanes: Lanes
    var memsize: nat
    ghost var seed: u32
    ghost var data: seq<u8>

    ghost predicate Valid()
      reads this, mem
    {
      && mem.Length == STRIPE && memsize < STRIPE
      && mem[..memsize] == Tail(STRIPE, data)
      && lanes == Fold(Mix(k), STRIPE, Init(seed), data)
      && totalLen32 == |data| % TWO32
      && (largeLen <==> |data| >= STRIPE)
    }

    /** A state right after XXH32_reset. */
    constructor (kernel: Kernel, newSeed: u32)
      ensures Valid() && k == kernel && seed == newSeed && data == [] && fresh(mem)
    {
      k := kernel;
      mem := new u8[STRIPE];
      totalLen32, largeLen, memsize := 0, false, 0;
      lanes := Init(newSeed);
      seed, data := newSeed, [];
    }

    /** XXH32_reset */
    method Reset(newSeed: u32)
      requires mem.Length == STRIPE
      modifies this
      ensures Valid() && seed == newSeed && data == []
    {
      totalLen32, largeLen, memsize := 0, false, 0;
      lanes := Init(newSeed);
      seed, data := newSeed, [];
    }

    /** XXH32_update. No input pointer is an error that changes nothing. */
    method Update(input: Option<seq<u8>>) returns (ok: bool)
      requires Valid()
      modifies this, mem
      ensures Valid() && seed == old(seed) && ok == input.Some?
      ensures data == if input.Some? then old(data) + input.value else old(data)
    {
      if input.None? {
        return false;
      }
      var bytes := input.value;
      Count(|bytes|);
      Resume(Mix(k), STRIPE, Init(seed), data, bytes);
      if memsize + |bytes| < STRIPE {
        ghost var pending := mem[..memsize];
        CopyInto(mem, memsize, bytes);
        memsize := memsize + |bytes|;
        assert mem[..memsize] == pending + bytes;
      } else {
        Absorb(bytes);
      }
      data := data + bytes;
      return true;
    }

    /** The counters: the 32-bit total wraps, yet the flag stays exact. */
    method Count(len: nat)
      requires totalLen32 == |data| % TWO32 && (largeLen <==> |data| >= STRIPE)
      modifies this`totalLen32, this`largeLen
      ensures totalLen32 == (|data| + len) % TWO32
      ensures largeLen <==> |data| + len >= STRIPE
    {
      WrapAdd(len, totalLen32, TWO32);
      WrapAdd(|data|, len, TWO32);
      totalLen32 := (totalLen32 + len % TWO32) % TWO32;
      largeLen := largeLen || len >= STRIPE || totalLen32 >= STRIPE;
    }

    /** Complete the pending stripe, mix whole stripes, keep the rest. */
    method Absorb(bytes: seq<u8>)
      requires mem.Length == STRIPE && memsize < STRIPE && memsize + |bytes| >= STRIPE
      modifies this`lanes, this`memsize, mem
      ensures memsize < STRIPE
      ensures mem[..memsize] == Tail(STRIPE, old(mem[..memsize]) + bytes)
      ensures lanes == Fold(Mix(k), STRIPE, old(lanes), old(mem[..memsize]) + bytes)
    {
      ghost var whole := mem[..memsize] + bytes;
      var p := 0;
      if memsize != 0 {
        p := STRIPE - memsize;
        CopyInto(mem, memsize, bytes[..p]);
        assert mem[..] == whole[..STRIPE] && whole[STRIPE..] == bytes[p..];
        lanes := Lanes(k.round(lanes.v1, ReadLE32(mem[..], 0)), k.round(lanes.v2, ReadLE32(mem[..], 4)),
                       k.round(lanes.v3, ReadLE32(mem[..], 8)), k.round(lanes.v4, ReadLE32(mem[..], 12)));
        memsize := 0;
      } else {
        assert whole == bytes[p..];
      }
      lanes, p := MixStripes(k, lanes, bytes, p);
      if p < |bytes| {
        CopyInto(mem, 0, bytes[p..]);
        memsize := |bytes| - p;
      }
      assert mem[..memsize] == bytes[p..];
    }

    /** XXH32_digest: the third lane still holds the seed while nothing was mixed. */
    method Digest() returns (h: u32)
      requires Valid()
      ensures h == Hash(k, seed, data)
    {
      var h32: u32 := if largeLen then k.converge(lanes) else (lanes.v3 + PRIME32_5) % TWO32;
      WrapAdd(|data|, h32, TWO32);
      h32 := (h32 + totalLen32) % TWO32;
      h := FinalizeSwitch(k, h32, mem[..memsize]);
    }
  }

  /** Any number of updates. */
  method UpdateAll(state: State, chunks: seq<seq<u8>>)
    requires state.Valid() && state.data == []
    modifies state, state.mem
    ensures state.Valid() && state.data == Joined(chunks) && state.seed == old(state.seed)
  {
    for i := 0 to |chunks|
      invariant state.Valid() && state.seed == old(state.seed)
      invariant state.data == Joined(chunks[..i])
    {
      var _ := state.Update(Some(chunks[i]));
      assert chunks[..i + 1][..i] == chunks[..i];
    }
    assert chunks[..|chunks|] == chunks;
  }

  /** Streaming is the one-shot hash, for every seed and every way of cutting the input, of any length; the state may
      have been used before. */
  method StreamedEqualsOneShot(state: State, seed: u32, chunks: seq<seq<u8>>) returns (streamed: u32, oneShot: u32)
    requires state.mem.Length == STRIPE
    modifies state, state.mem
    ensures streamed == oneShot == Hash(state.k, seed, Joined(chunks))
  {
    state.Reset(seed);
    UpdateAll(state, chunks);
    streamed := state.Digest();
    oneShot := OneShot(state.k, seed, Joined(chunks));
  }
}
