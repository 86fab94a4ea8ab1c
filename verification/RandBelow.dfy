/**
 Random numbers below a limit by rejection. The generator itself is arbitrary: an object of class `Rng` holds the
 draws that it will produce, and `None` stands for draws that ran out before one was accepted.
 */
module RandBelow {
  import opened Words

  const RESEED_RNG: int := 2500000
  const UINT64_MAX: int := 0xffff_ffff_ffff_ffff

  /** Draws from here on are rejected. */
  function Bound(limit: u32): (b: u64)
    requires limit > 0
    ensures b == UINT64_MAX / limit * limit
  {
    UINT64_MAX - UINT64_MAX % limit
  }

  predicate Accepted(limit: u32, draw: u64)
    requires limit > 0
  {
    draw < Bound(limit)
  }

  // ----- Uniformity -----

  /** How many of the draws below n give the result r. */
  function Hits(limit: u32, r: nat, n: nat): nat
    requires limit > 0 && n <= TWO64
  {
    if n == 0 then 0
    else
      Hits(limit, r, n - 1) + (if Accepted(limit, n - 1) && (n - 1) % limit == r then 1 else 0)
  }

  /** As long as nothing is rejected, results come round robin. */
  lemma {:induction false} HitsRoundRobin(limit: u32, r: nat, n: nat, q: nat, rem: nat)
    requires limit > 0 && r < limit && n == q * limit + rem && rem < limit && n <= Bound(limit)
    ensures Hits(limit, r, n) == q + (if r < rem then 1 else 0)
  {
    if rem > 0 {
      DivModUnique(n - 1, limit, q, rem - 1);
      HitsRoundRobin(limit, r, n - 1, q, rem - 1);
    } else if q > 0 {
      assert n - 1 == (q - 1) * limit + (limit - 1);
      DivModUnique(n - 1, limit, q - 1, limit - 1);
      HitsRoundRobin(limit, r, n - 1, q - 1, limit - 1);
    }
  }

  lemma {:induction false} HitsAboveBound(limit: u32, r: nat, n: nat)
    requires limit > 0 && Bound(limit) <= n <= TWO64
    ensures Hits(limit, r, n) == Hits(limit, r, Bound(limit))
  {
    if n > Bound(limit) {
      HitsAboveBound(limit, r, n - 1);
    }
  }

  /** With 64-bit draws every result has the same number of accepted draws, and at most `limit` draws of all are
      rejected. */
  lemma Unbiased(limit: u32, r: nat)
    requires r < limit
    ensures Hits(limit, r, TWO64) == UINT64_MAX / limit
    ensures 0 < TWO64 - Bound(limit) <= limit
  {
    HitsRoundRobin(limit, r, Bound(limit), UINT64_MAX / limit, 0);
    HitsAboveBound(limit, r, TWO64);
  }

  lemma NarrowHits(limit: u32, r: nat, q: nat, rem: nat)
    requires r < limit && TWO32 == q * limit + rem && rem < limit
    ensures Hits(limit, r, TWO32) == q + (if r < rem then 1 else 0)
  {
    NarrowDrawsAccepted(limit);
    HitsRoundRobin(limit, r, TWO32, q, rem);
  }

  /** On 32-bit hosts a draw has 32 bits and none is ever rejected: the result is uniform only for the limits that
      divide 2^32. */
  lemma NarrowDrawsUnbiased(limit: u32)
    requires limit > 0
    ensures (forall r: nat | r < limit :: Hits(limit, r, TWO32) == Hits(limit, 0, TWO32)) <==> TWO32 % limit == 0
    ensures forall draw: u32 :: Accepted(limit, draw)
  {
    NarrowDrawsAccepted(limit);
    var q, rem := TWO32 / limit, TWO32 % limit;
    if rem == 0 {
      forall r: nat | r < limit
        ensures Hits(limit, r, TWO32) == Hits(limit, 0, TWO32)
      {
        NarrowHits(limit, r, q, 0);
        NarrowHits(limit, 0, q, 0);
      }
    } else {
      NarrowHits(limit, 0, q, rem);
      NarrowHits(limit, limit - 1, q, rem);
      assert Hits(limit, limit - 1, TWO32) != Hits(limit, 0, TWO32);
    }
  }

  lemma NarrowDrawsAccepted(limit: u32)
    requires limit > 0
    ensures TWO32 <= Bound(limit)
  {
    assert UINT64_MAX % limit < limit;
  }

  // ----- The generator -----

  /** The index of the first accepted draw. */
  function FirstAccepted(limit: u32, draws: seq<u64>): (k: Option<nat>)
    requires limit > 0
    ensures k.Some? ==> k.value < |draws| && Accepted(limit, draws[k.value])
    ensures forall i :: 0 <= i < (if k.Some? then k.value else |draws|) ==> !Accepted(limit, draws[i])
  {
    if draws == [] then None
    else if Accepted(limit, draws[0]) then Some(0)
    else match FirstAccepted(limit, draws[1..]) {
      case None => None
      case Some(k) => Some(k + 1)
    }
  }

  /** What the generator will still produce, and its countdown to the next seed. */
  datatype Gen = Gen(draws: seq<u64>, cnt: u32)

  /** Where seeds come from: a fixed seed is never replaced; otherwise `word` is the middle word of the next one
      and `seeded` what the generator produces from it. */
  datatype Source = Source(fixedSeed: bool, word: u64, seeded: seq<u64>)

  /** One step of the countdown. */
  function Counted(src: Source, g: Gen): Gen {
    if g.cnt > 0 then Gen(g.draws, g.cnt - 1)
    else if src.fixedSeed then Gen(g.draws, TWO32 - 1)
    else Gen(src.seeded, RESEED_RNG / 2 + src.word % RESEED_RNG)
  }

  /** A result, and the generator that is left. */
  datatype Outcome = Outcome(r: Option<u32>, rest: Gen)

  /** The first accepted draw modulo the limit. */
  function Below(src: Source, limit: u32, g: Gen): Outcome {
    if limit <= 1 then Outcome(Some(0), g)
    else
      var c := Counted(src, g);
      match FirstAccepted(limit, c.draws) {
        case None => Outcome(None, Gen([], c.cnt))
        case Some(k) => Outcome(Some(c.draws[k] % limit), Gen(c.draws[k + 1..], c.cnt))
      }
  }

  /** Draw by draw: the first one decides if it is accepted, and is skipped otherwise. */
  lemma BelowOfDraw(src: Source, limit: u32, draw: u64, rest: seq<u64>, cnt: u32)
    requires limit > 1 && cnt > 0
    ensures Below(src, limit, Gen([draw] + rest, cnt)) ==
            if Accepted(limit, draw) then Outcome(Some(draw % limit), Gen(rest, cnt - 1))
            else Below(src, limit, Gen(rest, cnt))
  {
    var draws := [draw] + rest;
    assert draws[1..] == rest;
    var k := FirstAccepted(limit, rest);
    if !Accepted(limit, draw) && k.Some? {
      assert draws[k.value + 2..] == rest[k.value + 1..];
    }
  }

  /** What `Hits` counts are the results of rand_below over the draws. */
  lemma HitsCountResults(src: Source, limit: u32, r: nat, draw: u64)
    requires limit > 1
    ensures Hits(limit, r, draw + 1) - Hits(limit, r, draw) ==
            if Below(src, limit, Gen([draw], 1)).r == Some(r) then 1 else 0
  {
    BelowOfDraw(src, limit, draw, [], 1);
    assert [draw] + [] == [draw];
  }

  /** How the draws of rand_below_datalen make up its result. */
  function Combine(choice: nat, a: nat, b: nat, c: nat): nat {
    if choice == 0 then a
    else if choice == 1 then a % (1 + b)
    else a % (1 + b) % (1 + c)
  }

  /** The smaller moduli of rand_below_datalen, for a first draw `a`. */
  function Reduced(src: Source, limit: u32, choice: u32, a: u32, g: Gen): Outcome
    requires a < limit && limit > 1
  {
    var b := Below(src, limit - 1, g);
    if b.r.None? then b
    else if choice == 1 then
      CombineBelow(1, a, b.r.value, 0, limit);
      Outcome(Some(Combine(1, a, b.r.value, 0)), b.rest)
    else
      var c := Below(src, limit - 1, b.rest);
      if c.r.None? then c
      else
        CombineBelow(2, a, b.r.value, c.r.value, limit);
        Outcome(Some(Combine(2, a, b.r.value, c.r.value)), c.rest)
  }

  /** Each draw of rand_below_datalen is taken from what the one before left. */
  function Datalen(src: Source, limit: u32, g: Gen): Outcome
    requires limit > 1
  {
    var choice := Below(src, 3, g);
    if choice.r.None? then choice
    else
      var a := Below(src, limit, choice.rest);
      if a.r.None? || choice.r.value == 0 then a
      else Reduced(src, limit, choice.r.value, a.r.value, a.rest)
  }

  /** From accepted draws: the first one modulo 3 chooses the case, the second one below the limit is reduced by none,
      one or two further ones below the limit less one. */
  lemma DatalenOfDraws(src: Source, limit: u32, d: seq<u64>, rest: seq<u64>, cnt: u32)
    requires limit > 2 && |d| == 4 && cnt >= 4 && Accepted(3, d[0]) && Accepted(limit, d[1])
    requires Accepted(limit - 1, d[2]) && Accepted(limit - 1, d[3])
    ensures var a, b, c := d[1] % limit, d[2] % (limit - 1), d[3] % (limit - 1);
            Datalen(src, limit, Gen(d + rest, cnt)) ==
            match d[0] % 3 {
              case 0 => Outcome(Some(a), Gen([d[2], d[3]] + rest, cnt - 2))
              case 1 => Outcome(Some(a % (1 + b)), Gen([d[3]] + rest, cnt - 3))
              case _ => Outcome(Some(a % (1 + b) % (1 + c)), Gen(rest, cnt - 4))
            }
  {
    var r3 := [d[3]] + rest;
    var r2 := [d[2]] + r3;
    var r1 := [d[1]] + r2;
    assert d + rest == [d[0]] + r1 && [d[2], d[3]] + rest == r2;
    BelowOfDraw(src, 3, d[0], r1, cnt);
    BelowOfDraw(src, limit, d[1], r2, cnt - 1);
    BelowOfDraw(src, limit - 1, d[2], r3, cnt - 2);
    BelowOfDraw(src, limit - 1, d[3], rest, cnt - 3);
  }

  /** A fresh seed outlasts any one call, so that one source answers for all of its draws. */
  lemma SeedOutlastsCall(src: Source, g: Gen)
    requires g.cnt == 0 && !src.fixedSeed
    ensures Counted(src, g).cnt > 4
  {
  }

  lemma ModBelow(a: nat, m: nat)
    requires m > 0
    ensures 0 <= a % m <= a && a % m < m
  {
    if a < m {
      DivModUnique(a, m, 0, a);
    }
  }

  lemma CombineBelow(choice: nat, a: nat, b: nat, c: nat, limit: nat)
    requires a < limit
    ensures Combine(choice, a, b, c) < limit
  {
    ModBelow(a, 1 + b);
    ModBelow(a % (1 + b), 1 + c);
  }

  // ----- Lower values are preferred -----

  lemma ModStepsDown(a: nat, m: nat)
    requires m > 0 && a % m > 0
    ensures a > 0 && (a - 1) % m == a % m - 1
  {
    ModBelow(a, m);
    DivModUnique(a - 1, m, a / m, a % m - 1);
  }

  /** Whatever is combined: if a first draw leads to v + 1, then the next lower first draw leads to v. */
  lemma CombineStepsDown(choice: nat, a: nat, b: nat, c: nat)
    requires Combine(choice, a, b, c) > 0
    ensures a > 0 && Combine(choice, a - 1, b, c) == Combine(choice, a, b, c) - 1
  {
    if choice == 1 {
      ModStepsDown(a, 1 + b);
    } else if choice > 1 {
      ModBelow(a % (1 + b), 1 + c);
      ModStepsDown(a, 1 + b);
      ModStepsDown(a % (1 + b), 1 + c);
    }
  }

  /** How many first draws below n lead to v, the other draws being fixed. */
  function Ways(choice: nat, b: nat, c: nat, v: nat, n: nat): nat {
    if n == 0 then 0
    else
      Ways(choice, b, c, v, n - 1) + (if Combine(choice, n - 1, b, c) == v then 1 else 0)
  }

  lemma {:induction false} WaysShift(choice: nat, b: nat, c: nat, v: nat, n: nat)
    ensures Ways(choice, b, c, v + 1, n + 1) <= Ways(choice, b, c, v, n)
  {
    if Combine(choice, n, b, c) == v + 1 {
      CombineStepsDown(choice, n, b, c);
    }
    if n > 0 {
      WaysShift(choice, b, c, v, n - 1);
    }
  }

  /** In each of the three cases, and for any values of the other draws, a result is never less likely than the
      next higher one. */
  lemma LowerIsLikelier(choice: nat, b: nat, c: nat, v: nat, limit: nat)
    ensures Ways(choice, b, c, v + 1, limit) <= Ways(choice, b, c, v, limit)
  {
    if limit > 0 {
      WaysShift(choice, b, c, v, limit - 1);
    }
  }

  /** A result beyond the value of a later draw never comes up, so that low ones are strictly preferred; without later
      draws every result comes up once. */
  lemma {:induction false} NoneBeyond(choice: nat, b: nat, c: nat, v: nat, n: nat)
    ensures choice == 1 && v > b ==> Ways(choice, b, c, v, n) == 0
    ensures choice > 1 && (v > b || v > c) ==> Ways(choice, b, c, v, n) == 0
    ensures choice == 0 ==> Ways(choice, b, c, v, n) == if v < n then 1 else 0
  {
    if n > 0 {
      NoneBeyond(choice, b, c, v, n - 1);
      CombineIsRemainder(choice, n - 1, b, c);
    }
  }

  /** What is combined is a remainder: multiples of the second draw plus one are taken off, then of the third. */
  lemma CombineIsRemainder(choice: nat, a: nat, b: nat, c: nat)
    ensures choice == 0 ==> Combine(choice, a, b, c) == a
    ensures choice == 1 ==> Combine(choice, a, b, c) <= b && (a - Combine(choice, a, b, c)) % (1 + b) == 0
    ensures choice > 1 ==>
              && Combine(choice, a, b, c) <= b && Combine(choice, a, b, c) <= c
              && (Combine(1, a, b, c) - Combine(choice, a, b, c)) % (1 + c) == 0
  {
    ModBelow(a, 1 + b);
    var r := a % (1 + b);
    DivModUnique(a - r, 1 + b, a / (1 + b), 0);
    ModBelow(r, 1 + c);
    DivModUnique(r - r % (1 + c), 1 + c, r / (1 + c), 0);
  }

  class Rng {
    const fixedSeed: bool
    var randCnt: u32
    /** What rand_next will return. */
    var draws: seq<u64>

    constructor (fixedSeed: bool, draws: seq<u64>)
      ensures this.fixedSeed == fixedSeed && this.randCnt == 0 && this.draws == draws
    {
      this.fixedSeed, this.randCnt, this.draws := fixedSeed, 0, draws;
    }

    function Now(): Gen
      reads this
    {
      Gen(draws, randCnt)
    }

    /** Counts down, and reads a new seed every so often. */
    method Tick(src: Source)
      requires src.fixedSeed == fixedSeed
      modifies this
      ensures Now() == Counted(src, old(Now()))
    {
      var due := randCnt == 0;
      randCnt := if randCnt == 0 then TWO32 - 1 else randCnt - 1;
      if due && !fixedSeed {
        draws := src.seeded;
        randCnt := RESEED_RNG / 2 + src.word % RESEED_RNG;
      }
    }

    /** The loop that skips rejected draws. */
    method NextAccepted(limit: u32) returns (r: Option<u64>)
      requires limit > 1
      modifies this`draws
      ensures match FirstAccepted(limit, old(draws)) {
          case None => r == None && draws == []
          case Some(k) => r == Some(old(draws)[k]) && draws == old(draws)[k + 1..]
        }
    {
      ghost var from, k := draws, FirstAccepted(limit, draws);
      ghost var skipped := 0;
      while draws != []
        invariant skipped <= |from| && draws == from[skipped..]
        invariant k.Some? ==> skipped <= k.value
        decreases |draws|
      {
        var unbiased := draws[0];
        assert from[skipped] == unbiased;
        draws := draws[1..];
        if !(unbiased >= UINT64_MAX - UINT64_MAX % limit) {
          return Some(unbiased);
        }
        skipped := skipped + 1;
      }
      return None;
    }

    /** rand_below */
    method RandBelow(limit: u32, src: Source) returns (r: Option<u32>)
      requires src.fixedSeed == fixedSeed
      modifies this
      ensures Outcome(r, Now()) == Below(src, limit, old(Now()))
      ensures r.Some? && limit > 0 ==> r.value < limit
    {
      if limit <= 1 {
        return Some(0);
      }
      Tick(src);
      var unbiased := NextAccepted(limit);
      if unbiased.None? {
        return None;
      }
      return Some(unbiased.value % limit);
    }

    /** rand_below_datalen: no modulus is ever zero. */
    method RandBelowDatalen(limit: u32, src: Source) returns (r: Option<u32>)
      requires src.fixedSeed == fixedSeed
      modifies this
      ensures Outcome(r, Now()) == if limit <= 1 then Outcome(Some(0), old(Now())) else Datalen(src, limit, old(Now()))
      ensures r.Some? && limit > 1 ==> r.value < limit
    {
      if limit <= 1 {
        return Some(0);
      }
      var choice := RandBelow(3, src);
      if choice.None? {
        return None;
      }
      var first := RandBelow(limit, src);
      if first.None? {
        return None;
      }
      if choice.value == 0 {
        return first;
      }
      r := Reduce(limit, choice.value, first.value, src);
    }

    /** Cases 1 and 2 of rand_below_datalen. */
    method Reduce(limit: u32, choice: u32, first: u32, src: Source) returns (r: Option<u32>)
      requires src.fixedSeed == fixedSeed && first < limit && limit > 1
      modifies this
      ensures Outcome(r, Now()) == Reduced(src, limit, choice, first, old(Now()))
      ensures r.Some? ==> r.value < limit
    {
      var second := RandBelow(limit - 1, src);
      if second.None? {
        return None;
      }
      if choice == 1 {
        CombineBelow(1, first, second.value, 0, limit);
        return Some(first % (1 + second.value));
      }
      var third := RandBelow(limit - 1, src);
      if third.None? {
        return None;
      }
      CombineBelow(2, first, second.value, third.value, limit);
      return Some(first % (1 + second.value) % (1 + third.value));
    }
  }
}
