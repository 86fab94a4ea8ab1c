/** The streaming form of XXH3: a 256-byte buffer in front of the block machine. */
module Xxh3Stream {
  import opened Words
  import opened Xxh3
  import opened Stripes
  import Xxh3OneShot

  /** The lanes after `chunks` whole buffer lengths of `whole`. */
  ghost predicate Mixed(k: Kernel, secret: Secret, whole: seq<u8>, chunks: nat, lanes: seq<u64>, soFar: nat) {
    && |lanes| == 8 && BUFFER_SIZE * chunks <= |whole|
    && Cursor(lanes, soFar) == Consume(k, secret, START, whole, BUFFER_STRIPES * chunks)
  }

  /** The buffer: pending bytes in front, and behind them the tail of the bytes mixed last. */
  ghost predicate Buffered(data: seq<u8>, chunks: nat, buffered: nat, buf: seq<u8>) {
    && |buf| == BUFFER_SIZE && buffered <= BUFFER_SIZE
    && |data| == BUFFER_SIZE * chunks + buffered
    && (data != [] ==> buffered > 0)
    && buf[..buffered] == data[BUFFER_SIZE * chunks..]
    && (chunks > 0 ==>
          forall i :: BUFFER_SIZE - STRIPE_LEN <= i < BUFFER_SIZE && buffered <= i
            ==> buf[i] == data[BUFFER_SIZE * (chunks - 1) + i])
  }

  lemma MixedExtends(k: Kernel, secret: Secret, data: seq<u8>, bytes: seq<u8>, chunks: nat, lanes: seq<u64>, soFar: nat)
    requires Mixed(k, secret, data, chunks, lanes, soFar)
    ensures Mixed(k, secret, data + bytes, chunks, lanes, soFar)
  {
    assert data[..BUFFER_SIZE * chunks] == (data + bytes)[..BUFFER_SIZE * chunks];
    ConsumePrefix(k, secret, START, data, data + bytes, BUFFER_STRIPES * chunks);
  }

  /** Where a slice of the new bytes lies in the whole input. */
  lemma InWhole(data: seq<u8>, bytes: seq<u8>, p: nat, q: nat)
    requires p <= q <= |bytes|
    ensures bytes[p..q] == (data + bytes)[|data| + p..|data| + q]
  {
    assert forall i :: p <= i < q ==> (data + bytes)[|data| + i] == bytes[i];
  }

  /** One consumeStripes call over one buffer length. */
  method MixChunk(k: Kernel, acc: array<u64>, soFar: nat, perBlock: nat, chunk: seq<u8>, secret: Secret,
                  ghost whole: seq<u8>, ghost chunks: nat)
    returns (soFar': nat)
    requires acc.Length == 8 && perBlock == StripesPerBlock(secret)
    requires Mixed(k, secret, whole, chunks, acc[..], soFar)
    requires BUFFER_SIZE * (chunks + 1) <= |whole|
    requires chunk == whole[BUFFER_SIZE * chunks..BUFFER_SIZE * (chunks + 1)]
    modifies acc
    ensures Mixed(k, secret, whole, chunks + 1, acc[..], soFar')
  {
    assert chunk == chunk[..STRIPE_LEN * BUFFER_STRIPES];
    ConsumeMore(k, secret, whole, BUFFER_STRIPES * chunks, chunk, BUFFER_STRIPES);
    soFar' := ConsumeStripes(k, acc, soFar, perBlock, chunk, BUFFER_STRIPES, secret);
  }

  /** Appending to a buffer that does not overflow. */
  lemma BufferedAppend(data: seq<u8>, bytes: seq<u8>, chunks: nat, buffered: nat, buf: seq<u8>, buf': seq<u8>)
    requires Buffered(data, chunks, buffered, buf) && buffered + |bytes| <= BUFFER_SIZE
    requires buf' == buf[..buffered] + bytes + buf[buffered + |bytes|..]
    ensures Buffered(data + bytes, chunks, buffered + |bytes|, buf')
  {
    assert buf'[..buffered + |bytes|] == buf[..buffered] + bytes == (data + bytes)[BUFFER_SIZE * chunks..];
    forall i | chunks > 0 && BUFFER_SIZE - STRIPE_LEN <= i < BUFFER_SIZE && buffered + |bytes| <= i
      ensures buf'[i] == (data + bytes)[BUFFER_SIZE * (chunks - 1) + i]
    {
      assert buf'[i] == buf[i];
    }
  }

  method Keep(buffer: array<u8>, bufferedSize: nat, bytes: seq<u8>, ghost data: seq<u8>, ghost chunks: nat)
    requires buffer.Length == BUFFER_SIZE && bufferedSize + |bytes| <= BUFFER_SIZE
    requires Buffered(data, chunks, bufferedSize, buffer[..])
    modifies buffer
    ensures Buffered(data + bytes, chunks, bufferedSize + |bytes|, buffer[..])
  {
    ghost var before := buffer[..];
    CopyInto(buffer, bufferedSize, bytes);
    BufferedAppend(data, bytes, chunks, bufferedSize, before, buffer[..]);
  }

  /** Completing the buffer yields the next chunk of the input. */
  lemma BufferedComplete(data: seq<u8>, bytes: seq<u8>, chunks: nat, buffered: nat, buf: seq<u8>, buf': seq<u8>)
    requires Buffered(data, chunks, buffered, buf) && buffered + |bytes| > BUFFER_SIZE
    requires buf' == buf[..buffered] + bytes[..BUFFER_SIZE - buffered]
    ensures buf' == (data + bytes)[BUFFER_SIZE * chunks..BUFFER_SIZE * (chunks + 1)]
  {
  }

  /** Keeping what is left over, with the last mixed stripe still behind it. */
  lemma BufferedRest(whole: seq<u8>, chunks: nat, rest: seq<u8>, buf: seq<u8>, buf': seq<u8>)
    requires |buf| == BUFFER_SIZE && 0 < |rest| <= BUFFER_SIZE
    requires BUFFER_SIZE * chunks + |rest| == |whole| && rest == whole[BUFFER_SIZE * chunks..]
    requires chunks > 0 ==> TailOf(whole, chunks, buf)
    requires buf' == rest + buf[|rest|..]
    ensures Buffered(whole, chunks, |rest|, buf')
  {
    if chunks > 0 {
      forall i | BUFFER_SIZE - STRIPE_LEN <= i < BUFFER_SIZE && |rest| <= i
        ensures buf'[i] == whole[BUFFER_SIZE * (chunks - 1) + i]
      {
        assert buf'[i] == buf[i];
      }
    }
  }

  /** The last 64 bytes of the buffer are the last 64 mixed ones. */
  ghost predicate TailOf(whole: seq<u8>, chunks: nat, buf: seq<u8>)
    requires chunks > 0 && |buf| == BUFFER_SIZE && BUFFER_SIZE * chunks <= |whole|
  {
    forall i :: BUFFER_SIZE - STRIPE_LEN <= i < BUFFER_SIZE ==> buf[i] == whole[BUFFER_SIZE * (chunks - 1) + i]
  }

  /** The loop of XXH3_update: mix whole buffer lengths straight from the input, always leaving 1 to
      256 bytes of it. */
  method MixInput(k: Kernel, acc: array<u64>, soFar: nat, perBlock: nat, bytes: seq<u8>, start: nat, secret: Secret,
                  ghost data: seq<u8>, ghost chunks: nat)
    returns (p: nat, soFar': nat, ghost chunks': nat)
    requires acc.Length == 8 && perBlock == StripesPerBlock(secret)
    requires start < |bytes| && |bytes| - start > BUFFER_SIZE && |data| + start == BUFFER_SIZE * chunks
    requires Mixed(k, secret, data + bytes, chunks, acc[..], soFar)
    modifies acc
    ensures BUFFER_SIZE <= p < |bytes| <= p + BUFFER_SIZE && |data| + p == BUFFER_SIZE * chunks' && chunks' > 0
    ensures Mixed(k, secret, data + bytes, chunks', acc[..], soFar')
  {
    p, soFar', chunks' := start, soFar, chunks;
    var limit := |bytes| - BUFFER_SIZE;
    while p < limit
      invariant p < |bytes| && |data| + p == BUFFER_SIZE * chunks'
      invariant p < limit || p >= BUFFER_SIZE
      invariant Mixed(k, secret, data + bytes, chunks', acc[..], soFar')
    {
      InWhole(data, bytes, p, p + BUFFER_SIZE);
      soFar' := MixChunk(k, acc, soFar', perBlock, bytes[p..p + BUFFER_SIZE], secret, data + bytes, chunks');
      p, chunks' := p + BUFFER_SIZE, chunks' + 1;
    }
  }

  /** The bytes kept after that loop are the tail a digest needs. */
  lemma TailKept(data: seq<u8>, bytes: seq<u8>, chunks: nat, p: nat, buf: seq<u8>, buf': seq<u8>)
    requires |buf| == BUFFER_SIZE && BUFFER_SIZE <= p <= |bytes| && |data| + p == BUFFER_SIZE * chunks
    requires buf' == buf[..BUFFER_SIZE - STRIPE_LEN] + bytes[p - STRIPE_LEN..p]
    ensures chunks > 0 && TailOf(data + bytes, chunks, buf')
  {
  }

  /** With at least 64 pending bytes, the last stripe is the end of the pending bytes ... */
  lemma LastStripePending(data: seq<u8>, chunks: nat, buffered: nat, buf: seq<u8>)
    requires Buffered(data, chunks, buffered, buf) && buffered >= STRIPE_LEN
    ensures buf[buffered - STRIPE_LEN..buffered] == data[|data| - STRIPE_LEN..]
  {
    assert buf[buffered - STRIPE_LEN..buffered] == buf[..buffered][buffered - STRIPE_LEN..];
  }

  /** ... otherwise it starts in the tail of the bytes mixed last. */
  lemma LastStripeAcross(data: seq<u8>, chunks: nat, buffered: nat, buf: seq<u8>)
    requires Buffered(data, chunks, buffered, buf) && buffered < STRIPE_LEN && chunks > 0
    ensures buf[BUFFER_SIZE - (STRIPE_LEN - buffered)..] + buf[..buffered] == data[|data| - STRIPE_LEN..]
  {
    var catchup := STRIPE_LEN - buffered;
    assert buf[BUFFER_SIZE - catchup..] == data[BUFFER_SIZE * chunks - catchup..BUFFER_SIZE * chunks];
    assert data[|data| - STRIPE_LEN..]
        == data[BUFFER_SIZE * chunks - catchup..BUFFER_SIZE * chunks] + data[BUFFER_SIZE * chunks..];
  }

  /** XXH3_update on the lanes and the buffer, when the input does not fit the buffer: complete and mix
      the buffer, mix what exceeds one buffer length, then keep the rest. */
  method Absorb(k: Kernel, acc: array<u64>, soFar: nat, perBlock: nat, buffer: array<u8>, bufferedSize: nat,
                bytes: seq<u8>, secret: Secret, ghost data: seq<u8>, ghost chunks: nat)
    returns (bufferedSize': nat, soFar': nat, ghost chunks': nat)
    requires acc.Length == 8 && buffer.Length == BUFFER_SIZE && perBlock == StripesPerBlock(secret)
    requires bufferedSize + |bytes| > BUFFER_SIZE
    requires Buffered(data, chunks, bufferedSize, buffer[..])
    requires Mixed(k, secret, data + bytes, chunks, acc[..], soFar)
    modifies acc, buffer
    ensures Buffered(data + bytes, chunks', bufferedSize', buffer[..])
    ensures Mixed(k, secret, data + bytes, chunks', acc[..], soFar')
  {
    var p;
    p, soFar', chunks' := FlushBuffer(k, acc, soFar, perBlock, buffer, bufferedSize, bytes, secret, data, chunks);
    p, soFar', chunks' := MixDirect(k, acc, soFar', perBlock, buffer, bytes, p, secret, data, chunks');
    InWhole(data, bytes, p, |bytes|);
    KeepRest(buffer, bytes[p..], data + bytes, chunks');
    bufferedSize' := |bytes| - p;
  }

  method KeepRest(buffer: array<u8>, rest: seq<u8>, ghost whole: seq<u8>, ghost chunks: nat)
    requires buffer.Length == BUFFER_SIZE && 0 < |rest| <= BUFFER_SIZE
    requires BUFFER_SIZE * chunks + |rest| == |whole| && rest == whole[BUFFER_SIZE * chunks..]
    requires chunks > 0 ==> TailOf(whole, chunks, buffer[..])
    modifies buffer
    ensures Buffered(whole, chunks, |rest|, buffer[..])
  {
    ghost var before := buffer[..];
    CopyInto(buffer, 0, rest);
    assert before[..0] + rest + before[|rest|..] == rest + before[|rest|..];
    BufferedRest(whole, chunks, rest, before, buffer[..]);
  }

  /** Complete the buffer and mix it: afterwards nothing is pending before bytes[p]. */
  method FlushBuffer(k: Kernel, acc: array<u64>, soFar: nat, perBlock: nat, buffer: array<u8>, bufferedSize: nat,
                     bytes: seq<u8>, secret: Secret, ghost data: seq<u8>, ghost chunks: nat)
    returns (p: nat, soFar': nat, ghost chunks': nat)
    requires acc.Length == 8 && buffer.Length == BUFFER_SIZE && perBlock == StripesPerBlock(secret)
    requires bufferedSize + |bytes| > BUFFER_SIZE
    requires Buffered(data, chunks, bufferedSize, buffer[..])
    requires Mixed(k, secret, data + bytes, chunks, acc[..], soFar)
    modifies acc, buffer
    ensures p < |bytes| && |data| + p == BUFFER_SIZE * chunks'
    ensures Mixed(k, secret, data + bytes, chunks', acc[..], soFar')
    ensures chunks' > 0 ==> TailOf(data + bytes, chunks', buffer[..])
  {
    p, soFar', chunks' := 0, soFar, chunks;
    if bufferedSize != 0 {
      var loadSize := BUFFER_SIZE - bufferedSize;
      ghost var before := buffer[..];
      CopyInto(buffer, bufferedSize, bytes[..loadSize]);
      p := loadSize;
      BufferedComplete(data, bytes, chunks, bufferedSize, before, buffer[..]);
      soFar' := MixChunk(k, acc, soFar, perBlock, buffer[..], secret, data + bytes, chunks);
      chunks' := chunks + 1;
    }
  }

  /** Mix what exceeds one buffer length, and keep the last stripe for a digest that must look back. */
  method MixDirect(k: Kernel, acc: array<u64>, soFar: nat, perBlock: nat, buffer: array<u8>, bytes: seq<u8>,
                   start: nat, secret: Secret, ghost data: seq<u8>, ghost chunks: nat)
    returns (p: nat, soFar': nat, ghost chunks': nat)
    requires acc.Length == 8 && buffer.Length == BUFFER_SIZE && perBlock == StripesPerBlock(secret)
    requires start < |bytes| && |data| + start == BUFFER_SIZE * chunks
    requires Mixed(k, secret, data + bytes, chunks, acc[..], soFar)
    requires chunks > 0 ==> TailOf(data + bytes, chunks, buffer[..])
    modifies acc, buffer
    ensures p < |bytes| <= p + BUFFER_SIZE && |data| + p == BUFFER_SIZE * chunks'
    ensures Mixed(k, secret, data + bytes, chunks', acc[..], soFar')
    ensures chunks' > 0 ==> TailOf(data + bytes, chunks', buffer[..])
  {
    p, soFar', chunks' := start, soFar, chunks;
    if |bytes| - p > BUFFER_SIZE {
      p, soFar', chunks' := MixInput(k, acc, soFar, perBlock, bytes, p, secret, data, chunks);
      ghost var before := buffer[..];
      CopyInto(buffer, BUFFER_SIZE - STRIPE_LEN, bytes[p - STRIPE_LEN..p]);
      TailKept(data, bytes, chunks', p, before, buffer[..]);
    }
  }

  /** A short input is still entirely in the buffer. */
  lemma ShortInput(data: seq<u8>, chunks: nat, buffered: nat, buf: seq<u8>)
    requires Buffered(data, chunks, buffered, buf) && |data| <= MIDSIZE_MAX
    ensures buf[..|data|] == data
  {
  }

  /** XXH3_digest_long, on a copy of the lanes. */
  method DigestLong(k: Kernel, lanes: array<u64>, soFar: nat, perBlock: nat, buffer: seq<u8>, bufferedSize: nat,
                    secret: Secret, ghost data: seq<u8>, ghost chunks: nat)
    requires lanes.Length == 8 && perBlock == StripesPerBlock(secret)
    requires Buffered(data, chunks, bufferedSize, buffer)
    requires Mixed(k, secret, data, chunks, lanes[..], soFar)
    requires |data| > STRIPE_LEN
    modifies lanes
    ensures lanes[..] == LongAcc(k, secret, data)
  {
    if bufferedSize >= STRIPE_LEN {
      DigestPending(k, lanes, soFar, perBlock, buffer, bufferedSize, secret, data, chunks);
      LastStripePending(data, chunks, bufferedSize, buffer);
      var last := buffer[bufferedSize - STRIPE_LEN..bufferedSize];
      SetLanes(lanes, k.accumulate512(lanes[..], last, Segment(secret, |secret| - STRIPE_LEN - LASTACC_START)));
    } else {
      LastStripeAcross(data, chunks, bufferedSize, buffer);
      var catchupSize := STRIPE_LEN - bufferedSize;
      var last := buffer[BUFFER_SIZE - catchupSize..] + buffer[..bufferedSize];
      SetLanes(lanes, k.accumulate512(lanes[..], last, Segment(secret, |secret| - STRIPE_LEN - LASTACC_START)));
    }
  }

  /** The stripes of the pending bytes that leave at least one byte. */
  method DigestPending(k: Kernel, lanes: array<u64>, soFar: nat, perBlock: nat, buffer: seq<u8>, bufferedSize: nat,
                       secret: Secret, ghost data: seq<u8>, ghost chunks: nat)
    requires lanes.Length == 8 && perBlock == StripesPerBlock(secret)
    requires Buffered(data, chunks, bufferedSize, buffer) && bufferedSize >= STRIPE_LEN
    requires Mixed(k, secret, data, chunks, lanes[..], soFar)
    modifies lanes
    ensures lanes[..] == Consume(k, secret, START, data, (|data| - 1) / STRIPE_LEN).acc
  {
    var nbStripes := (bufferedSize - 1) / STRIPE_LEN;
    DivModUnique(|data| - 1, STRIPE_LEN, BUFFER_STRIPES * chunks + nbStripes, (bufferedSize - 1) % STRIPE_LEN);
    var pending := buffer[..bufferedSize];
    ConsumeMore(k, secret, data, BUFFER_STRIPES * chunks, pending, nbStripes);
    var _ := ConsumeStripes(k, lanes, soFar, perBlock, pending, nbStripes, secret);
  }

  /** XXH3_state_t. The ghost fields are what the last successful reset asked for, every byte given to
      Update since, and how many buffer lengths of them are mixed into the lanes. */
  class State {
    const k: Kernel
    const acc: array<u64>
    const customSecret: array<u8>
    const buffer: array<u8>
    var bufferedSize: nat
    var nbStripesSoFar: nat
    var totalLen: u64
    var nbStripesPerBlock: nat
    var secretLimit: u64
    var seed: u64
    var extSecret: Option<seq<u8>>

    ghost var key: Key
    ghost var data: seq<u8>
    ghost var chunks: nat

    /** Holds from creation on, even after a failed reset: a non-zero seed always matches the cached
        custom secret. */
    ghost predicate Coherent()
      reads this, customSecret
    {
      && acc.Length == 8 && customSecret.Length == SECRET_DEFAULT_SIZE && buffer.Length == BUFFER_SIZE
      && (seed != 0 ==> customSecret[..] == k.customSecret(seed))
    }

    /** The secret fields are those of `key`. */
    ghost predicate Keyed()
      reads this, customSecret
    {
      && Coherent()
      && seed == SeedOf(key)
      && extSecret == (if seed != 0 then None else Some(LongSecret(k, key)))
      && secretLimit == |LongSecret(k, key)| - STRIPE_LEN
      && nbStripesPerBlock == StripesPerBlock(LongSecret(k, key))
    }

    ghost predicate Valid()
      reads this, acc, customSecret, buffer
    {
      && Keyed()
      && totalLen == |data| % TWO64
      && Mixed(k, LongSecret(k, key), data, chunks, acc[..], nbStripesSoFar)
      && Buffered(data, chunks, bufferedSize, buffer[..])
    }

    /** XXH3_createState with XXH3_INITSTATE: only the seed is set. */
    constructor (kernel: Kernel)
      ensures Coherent() && k == kernel && seed == 0
      ensures fresh(acc) && fresh(customSecret) && fresh(buffer)
    {
      k := kernel;
      acc := new u64[8];
      customSecret := new u8[SECRET_DEFAULT_SIZE];
      buffer := new u8[BUFFER_SIZE];
      seed := 0;
    }

    /** XXH3_reset_internal. The size computation wraps like size_t. */
    method ResetInternal(newSeed: u64, secret: Option<seq<u8>>, secretSize: u64)
      requires Coherent()
      requires newSeed != 0 ==> customSecret[..] == k.customSecret(newSeed)
      modifies this, acc
      ensures Coherent()
      ensures bufferedSize == 0 && nbStripesSoFar == 0 && totalLen == 0 && acc[..] == INIT_ACC
      ensures seed == newSeed && extSecret == secret
      ensures secretLimit == (secretSize - STRIPE_LEN) % TWO64
      ensures nbStripesPerBlock == secretLimit / CONSUME_RATE
      ensures data == [] && chunks == 0
    {
      bufferedSize, nbStripesSoFar, totalLen := 0, 0, 0;
      SetLanes(acc, INIT_ACC);
      seed := newSeed;
      extSecret := secret;
      secretLimit := (secretSize - STRIPE_LEN) % TWO64;
      nbStripesPerBlock := secretLimit / CONSUME_RATE;
      data, chunks := [], 0;
    }

    /** XXH3_64bits_reset and XXH3_128bits_reset. */
    method Reset()
      requires Coherent()
      modifies this, acc
      ensures Valid() && data == [] && key == Plain
    {
      ResetInternal(0, Some(k.defaultSecret), SECRET_DEFAULT_SIZE);
      key := Plain;
    }

    /** XXH3_64bits_reset_withSecret and XXH3_128bits_reset_withSecret: a missing or short secret is
        reported only after the state was overwritten, and leaves a state that no key describes. */
    method ResetWithSecret(secret: Option<seq<u8>>, secretSize: u64) returns (ok: bool)
      requires Coherent()
      requires secret.Some? ==> |secret.value| == secretSize
      modifies this, acc
      ensures ok <==> secret.Some? && secretSize >= SECRET_SIZE_MIN
      ensures ok ==> Valid() && data == [] && key == Key.WithSecret(secret.value)
      ensures !ok ==>
                && !Valid()
                && bufferedSize == 0 && nbStripesSoFar == 0 && totalLen == 0 && acc[..] == INIT_ACC
                && extSecret == secret && secretLimit == (secretSize - STRIPE_LEN) % TWO64
      ensures Coherent() && seed == 0
    {
      ResetInternal(0, secret, secretSize);
      if secret.None? || secretSize < SECRET_SIZE_MIN {
        return false;
      }
      key := Key.WithSecret(secret.value);
      return true;
    }

    /** XXH3_64bits_reset_withSeed and XXH3_128bits_reset_withSeed: the custom secret is rebuilt only
        when the seed differs from the one of the previous reset. */
    method ResetWithSeed(newSeed: u64)
      requires Coherent()
      modifies this, acc, customSecret
      ensures Valid() && data == []
      ensures key == if newSeed == 0 then Plain else Key.WithSeed(newSeed)
    {
      if newSeed == 0 {
        Reset();
        return;
      }
      if newSeed != seed {
        CopyInto(customSecret, 0, k.customSecret(newSeed));
        seed := 0;
      }
      ResetInternal(newSeed, None, SECRET_DEFAULT_SIZE);
      key := Key.WithSeed(newSeed);
    }

    /** The secret the code picks. */
    function ActiveSecret(): (s: Secret)
      requires Keyed()
      reads this, customSecret
      ensures s == LongSecret(k, key)
    {
      if extSecret.None? then customSecret[..] else extSecret.value
    }

    /** XXH3_update. No input pointer is an error that changes nothing. */
    method Update(input: Option<seq<u8>>) returns (ok: bool)
      requires Valid()
      modifies this, acc, buffer
      ensures Valid() && key == old(key)
      ensures ok == input.Some?
      ensures data == if input.Some? then old(data) + input.value else old(data)
    {
      if input.None? {
        return false;
      }
      MixedExtends(k, ActiveSecret(), data, input.value, chunks, acc[..], nbStripesSoFar);
      if bufferedSize + |input.value| <= BUFFER_SIZE {
        FillBuffer(input.value, LongSecret(k, key), acc[..], nbStripesSoFar);
      } else {
        Overflow(input.value);
      }
      return true;
    }

    /** The 64-bit total wraps. */
    method AddLength(len: nat)
      requires totalLen == |data| % TWO64
      modifies this`totalLen
      ensures totalLen == (|data| + len) % TWO64
    {
      WrapAdd(|data|, len, TWO64);
      totalLen := (totalLen + len) % TWO64;
    }

    /** The state now stands for `whole`. */
    ghost method StandFor(whole: seq<u8>, secret: Secret, lanes: seq<u64>, soFar: nat)
      requires Keyed() && totalLen == |whole| % TWO64
      requires secret == LongSecret(k, key) && lanes == acc[..] && soFar == nbStripesSoFar
      requires Mixed(k, secret, whole, chunks, lanes, soFar)
      requires Buffered(whole, chunks, bufferedSize, buffer[..])
      modifies this`data
      ensures Valid() && data == whole
    {
      data := whole;
    }

    /** The input fits the buffer. */
    method FillBuffer(bytes: seq<u8>, ghost secret: Secret, ghost lanes: seq<u64>, ghost soFar: nat)
      requires Valid() && bufferedSize + |bytes| <= BUFFER_SIZE
      requires secret == LongSecret(k, key) && lanes == acc[..] && soFar == nbStripesSoFar
      requires Mixed(k, secret, data + bytes, chunks, lanes, soFar)
      modifies this`bufferedSize, this`totalLen, this`data, buffer
      ensures Valid() && data == old(data) + bytes
    {
      ghost var whole := data + bytes;
      assert buffer != customSecret;
      ghost var cached := customSecret[..];
      AddLength(|bytes|);
      Keep(buffer, bufferedSize, bytes, data, chunks);
      assert customSecret[..] == cached;
      bufferedSize := bufferedSize + |bytes|;
      assert acc[..] == lanes;
      StandFor(whole, secret, lanes, soFar);
    }

    /** The input does not fit the buffer. */
    method Overflow(bytes: seq<u8>)
      requires Valid() && bufferedSize + |bytes| > BUFFER_SIZE
      requires Mixed(k, LongSecret(k, key), data + bytes, chunks, acc[..], nbStripesSoFar)
      modifies this`bufferedSize, this`nbStripesSoFar, this`totalLen, this`data, this`chunks, acc, buffer
      ensures Valid() && data == old(data) + bytes
    {
      AddLength(|bytes|);
      bufferedSize, nbStripesSoFar, chunks :=
        Absorb(k, acc, nbStripesSoFar, nbStripesPerBlock, buffer, bufferedSize, bytes, ActiveSecret(), data, chunks);
      StandFor(data + bytes, LongSecret(k, key), acc[..], nbStripesSoFar);
    }

    /** The lanes a long digest merges; the state is left as it was. */
    method LanesOfDigest() returns (lanes: array<u64>)
      requires Valid() && |data| > MIDSIZE_MAX
      ensures fresh(lanes) && lanes.Length == 8 && lanes[..] == LongAcc(k, LongSecret(k, key), data)
    {
      lanes := new u64[8];
      SetLanes(lanes, acc[..]);
      DigestLong(k, lanes, nbStripesSoFar, nbStripesPerBlock, buffer[..], bufferedSize, ActiveSecret(), data, chunks);
    }

    /** What holds in every reachable state: the mixed bytes come in whole buffer lengths, the position in the
        block is the number of mixed stripes modulo the block length, 1 to 256 bytes are pending once any came,
        and the stale end of the buffer is the end of the bytes mixed last. */
    lemma StateShape()
      requires Valid()
      ensures |data| == BUFFER_SIZE * chunks + bufferedSize
      ensures nbStripesSoFar == BUFFER_STRIPES * chunks % nbStripesPerBlock
      ensures data != [] ==> 1 <= bufferedSize <= BUFFER_SIZE
      ensures chunks > 0 ==>
                forall i :: BUFFER_SIZE - STRIPE_LEN <= i < BUFFER_SIZE && bufferedSize <= i
                  ==> buffer[i] == data[BUFFER_SIZE * (chunks - 1) + i]
      ensures seed != 0 ==> customSecret[..] == k.customSecret(seed)
    {
      SoFarIsModulo(k, LongSecret(k, key), data, BUFFER_STRIPES * chunks);
    }

    /** The key under which a digest of a short input calls the one-shot hash. */
    function ShortKey(): Key
      requires Keyed()
      reads this, customSecret
    {
      if seed != 0 then Key.WithSeed(seed) else Key.WithSecret(ActiveSecret())
    }

    lemma ShortDigest()
      requires Valid() && |data| <= MIDSIZE_MAX
      ensures totalLen == |data| && buffer[..totalLen] == data
      ensures Hash64(k, ShortKey(), data) == Hash64(k, key, data)
      ensures Hash128Of(k, ShortKey(), data) == Hash128Of(k, key, data)
    {
      ShortInput(data, chunks, bufferedSize, buffer[..]);
    }

    /** XXH3_64bits_digest. */
    method Digest64() returns (h: u64)
      requires Valid()
      requires |data| < TWO64
      ensures h == Hash64(k, key, data)
    {
      if totalLen > MIDSIZE_MAX {
        var lanes := LanesOfDigest();
        h := k.mergeAccs(lanes[..], Segment(ActiveSecret(), MERGEACCS_START), totalLen * PRIME64_1 % TWO64);
      } else {
        ShortDigest();
        h := Xxh3OneShot.OneShot64(k, ShortKey(), buffer[..totalLen]);
      }
    }

    /** XXH3_128bits_digest. */
    method Digest128() returns (h: Hash128)
      requires Valid()
      requires |data| < TWO64
      ensures h == Hash128Of(k, key, data)
      ensures |data| > MIDSIZE_MAX ==> h.low64 == Hash64(k, key, data)
    {
      if totalLen > MIDSIZE_MAX {
        var lanes := LanesOfDigest();
        var secret := ActiveSecret();
        var low := k.mergeAccs(lanes[..], Segment(secret, MERGEACCS_START), totalLen * PRIME64_1 % TWO64);
        var high := k.mergeAccs(lanes[..], Segment(secret, secretLimit + STRIPE_LEN - 64 - MERGEACCS_START),
                                TWO64 - 1 - totalLen * PRIME64_2 % TWO64);
        h := Hash128(low, high);
      } else {
        ShortDigest();
        h := Xxh3OneShot.OneShot128(k, ShortKey(), buffer[..totalLen]);
      }
    }
  }

  /** The reset that asks for a key; the state may have been used before. */
  method ResetFor(state: State, key: Key)
    requires state.Coherent()
    requires key.WithSecret? ==> |key.secret| < TWO64
    modifies state, state.acc, state.customSecret
    ensures state.Valid() && state.data == []
    ensures forall d :: Hash64(state.k, state.key, d) == Hash64(state.k, key, d)
    ensures forall d :: Hash128Of(state.k, state.key, d) == Hash128Of(state.k, key, d)
  {
    match key {
      case Plain => state.Reset();
      case WithSecret(secret) => var _ := state.ResetWithSecret(Some(secret), |secret|);
      case WithSeed(seed) => state.ResetWithSeed(seed);
    }
  }

  /** Any number of updates. */
  method UpdateAll(state: State, chunks: seq<seq<u8>>)
    requires state.Valid() && state.data == []
    modifies state, state.acc, state.buffer
    ensures state.Valid() && state.data == Joined(chunks) && state.key == old(state.key)
  {
    for i := 0 to |chunks|
      invariant state.Valid() && state.key == old(state.key)
      invariant state.data == Joined(chunks[..i])
    {
      var _ := state.Update(Some(chunks[i]));
      assert chunks[..i + 1][..i] == chunks[..i];
    }
    assert chunks[..|chunks|] == chunks;
  }

  /** Streaming is the one-shot hash, for every key and every way of cutting the input. */
  method StreamedEqualsOneShot(state: State, key: Key, chunks: seq<seq<u8>>)
    returns (streamed64: u64, oneShot64: u64, streamed128: Hash128, oneShot128: Hash128)
    requires state.Coherent() && |Joined(chunks)| < TWO64
    requires key.WithSecret? ==> |key.secret| < TWO64
    modifies state, state.acc, state.buffer, state.customSecret
    ensures streamed64 == oneShot64 == Hash64(state.k, key, Joined(chunks))
    ensures streamed128 == oneShot128 == Hash128Of(state.k, key, Joined(chunks))
    ensures |Joined(chunks)| > MIDSIZE_MAX ==> streamed128.low64 == streamed64
  {
    ResetFor(state, key);
    UpdateAll(state, chunks);
    streamed64 := state.Digest64();
    streamed128 := state.Digest128();
    oneShot64 := Xxh3OneShot.OneShot64(state.k, key, Joined(chunks));
    oneShot128 := Xxh3OneShot.OneShot128(state.k, key, Joined(chunks));
  }
}
