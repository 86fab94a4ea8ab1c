/** Buffers that grow exponentially: next_pow2 and afl_realloc, on a machine with a 64-bit size_t. */
module GrowthBuffer {
  import opened Words
  import opened Bits

  const INITIAL_GROWTH_SIZE: int := 64
  const AFL_ALLOC_SIZE_OFFSET: int := 8

  // ----- Smearing the highest bit downwards -----

  /** in - 1 on size_t */
  function Pred(x: u64): u64 {
    if x == 0 then TWO64 - 1 else x - 1
  }

  function OrWord(a: u64, b: u64): (r: u64)
    ensures r == OrNat(a, b) && r >= a
  {
    Pow2Values();
    OrBound(a, b, 64);
    OrAtLeast(a, b);
    OrNat(a, b)
  }

  function Smear(x: u64): (r: u64)
    ensures r >= x
  {
    var out := OrWord(x, Shr(x, 1));
    var out := OrWord(out, Shr(out, 2));
    var out := OrWord(out, Shr(out, 4));
    var out := OrWord(out, Shr(out, 8));
    OrWord(out, Shr(out, 16))
  }

  /** next_pow2 */
  function NextPow2(size: u64): u64 {
    var out := Smear(Pred(size));
    if out == TWO64 - 1 then 0 else out + 1
  }

  lemma {:induction false} OrAtLeast(a: nat, b: nat)
    ensures OrNat(a, b) >= a
  {
    if a != 0 || b != 0 {
      OrAtLeast(a / 2, b / 2);
    }
  }

  lemma {:induction false} OrBound(a: nat, b: nat, k: nat)
    requires a < Pow2(k) && b < Pow2(k)
    ensures OrNat(a, b) < Pow2(k)
  {
    if k != 0 {
      OrBound(a / 2, b / 2, k - 1);
    }
  }

  /** One of the bits i .. i+w is set. */
  predicate Window(x: nat, i: nat, w: nat) {
    exists j: nat :: i <= j < i + w && Bit(x, j)
  }

  /** Bit i of `y` is set exactly when one of the bits i .. i+w of `x` is. */
  ghost predicate Spread(x: nat, y: nat, w: nat) {
    forall i: nat :: Bit(y, i) <==> Window(x, i, w)
  }

  lemma SpreadDoubles(x: nat, y: nat, w: nat)
    requires Spread(x, y, w)
    ensures Spread(x, OrNat(y, Shr(y, w)), 2 * w)
  {
    forall i: nat
      ensures Bit(OrNat(y, Shr(y, w)), i) <==> Window(x, i, 2 * w)
    {
      BitOr(y, Shr(y, w), i);
      ShrShr(y, i, w);
      assert Bit(Shr(y, w), i) <==> Bit(y, i + w);
    }
  }

  lemma SmearSpreads(x: u64)
    ensures Spread(x, Smear(x), 32)
  {
    assert Spread(x, x, 1);
    SpreadDoubles(x, x, 1);
    var out := OrWord(x, Shr(x, 1));
    SpreadDoubles(x, out, 2);
    out := OrWord(out, Shr(out, 2));
    SpreadDoubles(x, out, 4);
    out := OrWord(out, Shr(out, 4));
    SpreadDoubles(x, out, 8);
    out := OrWord(out, Shr(out, 8));
    SpreadDoubles(x, out, 16);
  }

  /** The number of significant bits. */
  function Width(x: nat): (n: nat)
    ensures x < Pow2(n)
    ensures x > 0 ==> n > 0 && Pow2(n - 1) <= x
  {
    if x == 0 then 0 else 1 + Width(x / 2)
  }

  lemma {:induction false} BitsBelowWidth(x: nat, i: nat)
    ensures Shr(x, i) == 0 <==> i >= Width(x)
    ensures i + 1 == Width(x) ==> Bit(x, i)
  {
    if x != 0 && i != 0 {
      BitsBelowWidth(x / 2, i - 1);
    } else if x == 0 {
      ShrZero(i);
    }
  }

  /** A number whose lowest n bits are all set, and no other, is 2^n - 1; and conversely. */
  lemma {:induction false} OnesBits(y: nat, n: nat)
    ensures y == Pow2(n) - 1 <==> forall i: nat :: Bit(y, i) <==> i < n
  {
    if y == Pow2(n) - 1 {
      forall i: nat
        ensures Bit(y, i) <==> i < n
      {
        BitOfOnes(n, i);
      }
    }
    if forall i: nat :: Bit(y, i) <==> i < n {
      OnesFromBits(y, n);
    }
  }

  lemma {:induction false} BitOfOnes(n: nat, i: nat)
    ensures Bit(Pow2(n) - 1, i) <==> i < n
  {
    if n == 0 {
      ShrZero(i);
    } else if i != 0 {
      assert (Pow2(n) - 1) / 2 == Pow2(n - 1) - 1;
      BitOfOnes(n - 1, i - 1);
    }
  }

  lemma {:induction false} OnesFromBits(y: nat, n: nat)
    requires forall i: nat :: Bit(y, i) <==> i < n
    ensures y == Pow2(n) - 1
  {
    assert Bit(y, 0) <==> y % 2 == 1;
    if n == 0 {
      BitsBelowWidth(y, if y == 0 then 0 else Width(y) - 1);
    } else {
      forall i: nat
        ensures Bit(y / 2, i) <==> i < n - 1
      {
        assert Bit(y / 2, i) <==> Bit(y, i + 1);
      }
      OnesFromBits(y / 2, n - 1);
    }
  }

  // ----- When the smear is complete -----

  /** No 32 neighbouring zero bits below the highest set bit. */
  ghost predicate NoGap(x: nat) {
    forall i: nat | i < Width(x) :: Window(x, i, 32)
  }

  lemma NoWindowAbove(x: nat, i: nat, w: nat)
    requires i >= Width(x)
    ensures !Window(x, i, w)
  {
    forall j: nat | i <= j
      ensures !Bit(x, j)
    {
      BitsBelowWidth(x, j);
    }
  }

  /** A spread over 32 bits fills everything below the highest bit exactly when there is no gap of 32 zeros. */
  lemma SpreadCompletes(x: nat, y: nat)
    requires Spread(x, y, 32)
    ensures y == Pow2(Width(x)) - 1 <==> NoGap(x)
  {
    forall i: nat | i >= Width(x)
      ensures !Bit(y, i)
    {
      NoWindowAbove(x, i, 32);
    }
    OnesBits(y, Width(x));
  }

  lemma SmallHasNoGap(x: nat)
    requires x < TWO32
    ensures NoGap(x)
  {
    var n := Width(x);
    if n > 32 {
      Pow2Values();
      Pow2Monotone(32, n - 1);
    } else {
      forall i: nat | i < n
        ensures Window(x, i, 32)
      {
        BitsBelowWidth(x, n - 1);
      }
    }
  }

  /** The least power of two that is at least `size`. */
  function CeilPow2(size: nat): (p: nat)
    requires size > 0
    ensures size <= p < 2 * size
  {
    Pow2(Width(size - 1))
  }

  lemma CeilPow2IsLeast(size: nat, n: nat)
    requires 0 < size <= Pow2(n)
    ensures CeilPow2(size) <= Pow2(n)
  {
    var m := Width(size - 1);
    if n < m {
      Pow2Monotone(n, m - 1);
    } else {
      Pow2Monotone(m, n);
    }
  }

  /** What next_pow2 means, zero standing for 2^64. */
  function Meant(p: u64): nat {
    if p == 0 then TWO64 else p
  }

  lemma SmearExact(x: u64)
    ensures Smear(x) + 1 == Pow2(Width(x)) <==> NoGap(x)
  {
    SmearSpreads(x);
    SpreadCompletes(x, Smear(x));
  }

  lemma MeantIsSmear(size: u64)
    requires size > 0
    ensures Meant(NextPow2(size)) == Smear(size - 1) + 1
  {
  }

  /** next_pow2 keeps its promise for every argument whose predecessor has no gap of 32 zero bits, and for no
      other: the step that would shift by 32 is missing. */
  lemma NextPow2Exact(size: u64)
    requires size > 0
    ensures Meant(NextPow2(size)) == CeilPow2(size) <==> NoGap(size - 1)
  {
    MeantIsSmear(size);
    SmearExact(size - 1);
  }

  /** Zero wraps to all ones and back. */
  lemma NextPow2OfZero()
    ensures NextPow2(0) == 0
  {
  }

  lemma {:induction false} BitOfPow2(n: nat, i: nat)
    ensures Bit(Pow2(n), i) <==> i == n
  {
    if i != 0 && n != 0 {
      BitOfPow2(n - 1, i - 1);
    } else if i != 0 {
      ShrZero(i - 1);
    }
  }

  /** The arguments it first fails for: one above a power of two from 2^32 on. */
  lemma NextPow2Misses(n: nat, size: u64)
    requires n >= 32 && size == Pow2(n) + 1
    ensures Meant(NextPow2(size)) != CeilPow2(size)
  {
    BitsBelowWidth(Pow2(n), 0);
    forall j: nat | j < 32
      ensures !Bit(Pow2(n), j)
    {
      BitOfPow2(n, j);
    }
    assert !Window(Pow2(n), 0, 32);
    NextPow2Exact(size);
  }

  // ----- The sizes a buffer goes through -----

  /** The size of the block that holds `need` bytes; on overflow the exact size. */
  function NextSize(need: u64): (n: u64)
    ensures n >= need && n >= INITIAL_GROWTH_SIZE
  {
    if need < INITIAL_GROWTH_SIZE then INITIAL_GROWTH_SIZE
    else
      var p := NextPow2(need);
      if p == 0 then need else p
  }

  /** Blocks are rounded up to a power of two from 64 on, wherever next_pow2 keeps its promise; where the power does not
      fit a size_t, the size itself is taken. */
  lemma NextSizeIsCeil(need: u64)
    requires need <= INITIAL_GROWTH_SIZE || NoGap(need - 1)
    ensures var p := CeilPow2(if need < INITIAL_GROWTH_SIZE then INITIAL_GROWTH_SIZE else need);
            NextSize(need) == if p < TWO64 then p else need
  {
    SixtyFour();
    if need > 0 {
      CeilFits(need);
      if need <= INITIAL_GROWTH_SIZE {
        SmallHasNoGap(need - 1);
      }
      NextPow2Exact(need);
    }
  }

  lemma SixtyFour()
    ensures Pow2(5) == 32 && Pow2(6) == 64 && CeilPow2(64) == 64
  {
    assert Pow2(3) == 8;
    assert Pow2(5) == 4 * Pow2(3);
    CeilPow2IsLeast(64, 6);
  }

  lemma CeilFits(size: u64)
    requires size > 0
    ensures CeilPow2(size) <= TWO64
  {
    Pow2Values();
    CeilPow2IsLeast(size, 64);
  }

  /** size_needed plus the header, on size_t */
  function WithHeader(size: u64): (need: u64)
    ensures need == (size + AFL_ALLOC_SIZE_OFFSET) % TWO64
  {
    if size + AFL_ALLOC_SIZE_OFFSET < TWO64 then size + AFL_ALLOC_SIZE_OFFSET
    else size + AFL_ALLOC_SIZE_OFFSET - TWO64
  }

  function Last(blocks: seq<u64>): u64 {
    if blocks == [] then 0 else blocks[|blocks| - 1]
  }

  /** The blocks allocated so far, after one more request was granted. */
  function Request(blocks: seq<u64>, size: u64): seq<u64> {
    if Last(blocks) >= WithHeader(size) then blocks else blocks + [NextSize(WithHeader(size))]
  }

  /** A request so large that adding the header wraps is met by any block of the few bytes that are left of it, and
      otherwise by one of the smallest size. */
  lemma WrappedRequest(blocks: seq<u64>, size: u64)
    requires size + AFL_ALLOC_SIZE_OFFSET >= TWO64
    ensures Last(Request(blocks, size)) ==
            if Last(blocks) >= AFL_ALLOC_SIZE_OFFSET - (TWO64 - size) then Last(blocks) else INITIAL_GROWTH_SIZE
  {
  }

  function Requests(sizes: seq<u64>): seq<u64> {
    if sizes == [] then [] else Request(Requests(sizes[..|sizes| - 1]), sizes[|sizes| - 1])
  }

  /** Powers of two from 64 on, each at least twice the one before. */
  ghost predicate Doubling(blocks: seq<u64>) {
    blocks != [] ==>
      && (exists n: nat :: n >= 6 && Last(blocks) == Pow2(n))
      && 2 * Last(blocks[..|blocks| - 1]) <= Last(blocks)
      && Doubling(blocks[..|blocks| - 1])
  }

  function Sum(blocks: seq<u64>): nat {
    if blocks == [] then 0 else Sum(blocks[..|blocks| - 1]) + Last(blocks)
  }

  lemma {:induction false} SumSplits(a: seq<u64>, b: seq<u64>)
    ensures Sum(a + b) == Sum(a) + Sum(b)
    ensures |b| == 1 ==> Sum(b) == b[0]
  {
    if b == [] {
      assert a + b == a;
    } else {
      var n := |b| - 1;
      SumSplits(a, b[..n]);
      assert (a + b)[..|a| + n] == a + b[..n];
    }
  }

  /** Two different powers of two are a factor of two apart. */
  lemma Pow2Gap(a: nat, b: nat)
    requires Pow2(a) < Pow2(b)
    ensures 2 * Pow2(a) <= Pow2(b)
  {
    if b <= a {
      Pow2Monotone(b, a);
    } else {
      Pow2Monotone(a + 1, b);
    }
  }

  lemma CeilFrom64(size: nat) returns (n: nat)
    requires size >= 64
    ensures n >= 6 && CeilPow2(size) == Pow2(n)
  {
    n := Width(size - 1);
    if n < 6 {
      SixtyFour();
      Pow2Monotone(n, 5);
    }
  }

  lemma NextSizeIsPow2(need: u64) returns (n: nat)
    requires need <= TWO32
    ensures n >= 6 && NextSize(need) == Pow2(n)
  {
    if need > INITIAL_GROWTH_SIZE {
      SmallHasNoGap(need - 1);
    }
    NextSizeIsCeil(need);
    n := CeilFrom64(if need < INITIAL_GROWTH_SIZE then INITIAL_GROWTH_SIZE else need);
  }

  lemma RequestDoubles(blocks: seq<u64>, size: u64)
    requires Doubling(blocks) && size + AFL_ALLOC_SIZE_OFFSET <= TWO32
    ensures Doubling(Request(blocks, size))
    ensures Last(Request(blocks, size)) >= size + AFL_ALLOC_SIZE_OFFSET
    ensures Last(Request(blocks, size)) >= Last(blocks)
  {
    var need := WithHeader(size);
    if Last(blocks) < need {
      var next := blocks + [NextSize(need)];
      assert next[..|next| - 1] == blocks;
      var n := NextSizeIsPow2(need);
      if blocks != [] {
        var m: nat :| m >= 6 && Last(blocks) == Pow2(m);
        Pow2Gap(m, n);
      }
    }
  }

  lemma {:induction false} SumBelowTwice(blocks: seq<u64>)
    requires Doubling(blocks) && blocks != []
    ensures Sum(blocks) < 2 * Last(blocks)
  {
    if |blocks| > 1 {
      SumBelowTwice(blocks[..|blocks| - 1]);
    } else {
      assert Sum(blocks[..0]) == 0;
      var n: nat :| n >= 6 && Last(blocks) == Pow2(n);
    }
  }

  /** Whatever is requested, in whatever order: the capacity is a power of two that covers every request made so
      far, and all blocks ever allocated together are smaller than twice the last one. */
  lemma {:induction false} GeometricGrowth(sizes: seq<u64>)
    requires forall i :: 0 <= i < |sizes| ==> sizes[i] + AFL_ALLOC_SIZE_OFFSET <= TWO32
    ensures Doubling(Requests(sizes))
    ensures forall i :: 0 <= i < |sizes| ==> Last(Requests(sizes)) >= sizes[i] + AFL_ALLOC_SIZE_OFFSET
    ensures sizes != [] ==> Sum(Requests(sizes)) < 2 * Last(Requests(sizes))
  {
    if sizes != [] {
      var before, last := sizes[..|sizes| - 1], sizes[|sizes| - 1];
      GeometricGrowth(before);
      var blocks := Request(Requests(before), last);
      RequestDoubles(Requests(before), last);
      assert Requests(sizes) == blocks && blocks != [];
      SumBelowTwice(blocks);
      forall i | 0 <= i < |sizes|
        ensures Last(blocks) >= sizes[i] + AFL_ALLOC_SIZE_OFFSET
      {
        if i < |before| {
          assert before[i] == sizes[i];
        }
      }
    }
  }

  /** At any size, a granted request leaves room for itself exactly when adding the header does not wrap. */
  lemma RoomExactly(blocks: seq<u64>, size: u64)
    ensures Last(Request(blocks, size)) >= size + AFL_ALLOC_SIZE_OFFSET <==> size + AFL_ALLOC_SIZE_OFFSET < TWO64
  {
  }

  // ----- The buffer -----

  /** A pointer to a growing buffer, with the size kept in front of the data. */
  class Buffer {
    var buf: array?<u8>
    var completeSize: u64
    /** The sizes of all blocks since the pointer was last null. */
    ghost var blocks: seq<u64>

    ghost predicate Valid()
      reads this
    {
      && (buf == null <==> blocks == [])
      && (buf != null ==> completeSize == Last(blocks) == buf.Length + AFL_ALLOC_SIZE_OFFSET)
    }

    constructor ()
      ensures Valid() && buf == null
    {
      buf, completeSize, blocks := null, 0, [];
    }

    /** The size of the next block. */
    static method ChooseSize(need: u64) returns (nextSize: u64)
      ensures nextSize == NextSize(need)
    {
      nextSize := INITIAL_GROWTH_SIZE;
      if need >= INITIAL_GROWTH_SIZE {
        nextSize := NextPow2(need);
        if nextSize == 0 {
          nextSize := need;
        }
      }
    }

    /** afl_realloc; `granted` is the answer of the system's realloc. */
    method AflRealloc(size: u64, granted: bool) returns (r: array?<u8>)
      requires Valid()
      modifies this
      ensures Valid() && r == buf
      ensures Last(old(blocks)) >= WithHeader(size) ==> buf == old(buf) && blocks == old(blocks)
      ensures Last(old(blocks)) < WithHeader(size) && granted ==>
                fresh(buf) && blocks == Request(old(blocks), size)
                && (old(buf) != null ==>
                      buf.Length >= old(buf.Length) && buf[..old(buf.Length)] == old(buf[..]))
      ensures Last(old(blocks)) < WithHeader(size) && !granted ==> buf == null && blocks == []
    {
      var currentSize: u64 := 0;
      if buf != null {
        currentSize := completeSize;
      }
      var need := WithHeader(size);
      if currentSize >= need {
        return buf;
      }
      var nextSize := ChooseSize(need);
      if !granted {
        buf, blocks := null, [];
        return null;
      }
      var newer := new u8[nextSize - AFL_ALLOC_SIZE_OFFSET];
      if buf != null {
        CopyInto(newer, 0, buf[..]);
      }
      buf, completeSize, blocks := newer, nextSize, blocks + [nextSize];
      return buf;
    }

    /** A whole life of requests, some of which may fail. */
    method Serve(sizes: seq<u64>, grants: seq<bool>)
      requires Valid() && Doubling(blocks) && |sizes| == |grants|
      requires forall i :: 0 <= i < |sizes| ==> sizes[i] + AFL_ALLOC_SIZE_OFFSET <= TWO32
      modifies this
      ensures Valid() && Doubling(blocks)
      ensures buf != null ==> Sum(blocks) < 2 * completeSize
      ensures sizes != [] && grants[|sizes| - 1] ==> buf != null && buf.Length >= sizes[|sizes| - 1]
      ensures (forall i :: 0 <= i < |grants| ==> grants[i]) && old(buf == null) ==> blocks == Requests(sizes)
    {
      ghost var fromNull := buf == null;
      for i := 0 to |sizes|
        invariant Valid() && Doubling(blocks)
        invariant i > 0 && grants[i - 1] ==> buf != null && buf.Length >= sizes[i - 1]
        invariant (forall j :: 0 <= j < |grants| ==> grants[j]) && fromNull ==> blocks == Requests(sizes[..i])
      {
        RequestDoubles(blocks, sizes[i]);
        var r := AflRealloc(sizes[i], grants[i]);
        assert sizes[..i + 1][..i] == sizes[..i] && sizes[..i + 1][i] == sizes[i];
      }
      assert sizes[..|sizes|] == sizes;
      if buf != null {
        SumBelowTwice(blocks);
      }
    }
  }
}
