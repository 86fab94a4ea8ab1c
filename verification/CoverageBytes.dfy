/** What the coverage verdicts mean, byte by byte. */
module CoverageBytes {

  type byte = bv8

  /** A byte that was never touched is hit. */
  predicate NewTuple(t: byte, v: byte) {
    t != 0 && v == 0xff
  }

  /** Some bit is still in the virgin map. */
  predicate NewBits(t: byte, v: byte) {
    t & v != 0
  }

  predicate Any<B>(hit: (B, B) -> bool, trace: seq<B>, virgin: seq<B>)
    requires |trace| == |virgin|
  {
    exists i :: 0 <= i < |trace| && hit(trace[i], virgin[i])
  }

  /** 2: a byte of the trace meets a byte of the virgin map that was never touched; 1: only known bytes show
      new bits; 0: nothing new. */
  function Verdict(trace: seq<byte>, virgin: seq<byte>): nat
    requires |trace| == |virgin|
  {
    if Any(NewTuple, trace, virgin) then 2 else if Any(NewBits, trace, virgin) then 1 else 0
  }

  function ClearByte(v: byte, t: byte): byte {
    v & !t
  }

  function OrByte(a: byte, b: byte): byte {
    a | b
  }

  function Zip<B>(f: (B, B) -> B, a: seq<B>, b: seq<B>): (r: seq<B>)
    requires |a| == |b|
    ensures |r| == |a|
    ensures forall i :: 0 <= i < |r| ==> r[i] == f(a[i], b[i])
  {
    seq(|a|, i requires 0 <= i < |a| => f(a[i], b[i]))
  }

  /** The virgin map without the bits of a trace. */
  function Clear(virgin: seq<byte>, trace: seq<byte>): (r: seq<byte>)
    requires |trace| == |virgin|
    ensures |r| == |virgin|
  {
    Zip(ClearByte, virgin, trace)
  }

  function Max(a: nat, b: nat): nat {
    if a < b then b else a
  }

  lemma AnyConcat<B>(hit: (B, B) -> bool, t1: seq<B>, t2: seq<B>, v1: seq<B>, v2: seq<B>)
    requires |t1| == |v1| && |t2| == |v2|
    ensures Any(hit, t1 + t2, v1 + v2) <==> Any(hit, t1, v1) || Any(hit, t2, v2)
  {
    var t, v, n := t1 + t2, v1 + v2, |t1|;
    if i :| 0 <= i < |t1| && hit(t1[i], v1[i]) {
      assert hit(t[i], v[i]);
    }
    if i :| 0 <= i < |t2| && hit(t2[i], v2[i]) {
      assert hit(t[n + i], v[n + i]);
    }
  }

  lemma VerdictConcat(t1: seq<byte>, t2: seq<byte>, v1: seq<byte>, v2: seq<byte>)
    requires |t1| == |v1| && |t2| == |v2|
    ensures Verdict(t1 + t2, v1 + v2) == Max(Verdict(t1, v1), Verdict(t2, v2))
  {
    AnyConcat(NewTuple, t1, t2, v1, v2);
    AnyConcat(NewBits, t1, t2, v1, v2);
  }

  lemma ZipConcat<B>(f: (B, B) -> B, a1: seq<B>, a2: seq<B>, b1: seq<B>, b2: seq<B>)
    requires |a1| == |b1| && |a2| == |b2|
    ensures Zip(f, a1 + a2, b1 + b2) == Zip(f, a1, b1) + Zip(f, a2, b2)
  {
  }

  lemma ClearConcat(v1: seq<byte>, v2: seq<byte>, t1: seq<byte>, t2: seq<byte>)
    requires |t1| == |v1| && |t2| == |v2|
    ensures Clear(v1 + v2, t1 + t2) == Clear(v1, t1) + Clear(v2, t2)
  {
    ZipConcat(ClearByte, v1, v2, t1, t2);
  }

  // ----- Over a whole campaign -----

  /** All bits any of the traces showed. */
  function Seen(traces: seq<seq<byte>>, n: nat): (r: seq<byte>)
    requires forall t :: t in traces ==> |t| == n
    ensures |r| == n
  {
    if traces == [] then seq(n, _ => 0)
    else
      Zip(OrByte, Seen(traces[..|traces| - 1], n), traces[|traces| - 1])
  }

  function VirginAfter(virgin: seq<byte>, traces: seq<seq<byte>>): (r: seq<byte>)
    requires forall t :: t in traces ==> |t| == |virgin|
    ensures |r| == |virgin|
  {
    if traces == [] then virgin
    else Clear(VirginAfter(virgin, traces[..|traces| - 1]), traces[|traces| - 1])
  }

  /** The verdicts of the traces, in order. */
  function Verdicts(virgin: seq<byte>, traces: seq<seq<byte>>): (r: seq<nat>)
    requires forall t :: t in traces ==> |t| == |virgin|
    ensures |r| == |traces|
  {
    if traces == [] then []
    else
      var before := traces[..|traces| - 1];
      Verdicts(virgin, before) + [Verdict(traces[|traces| - 1], VirginAfter(virgin, before))]
  }

  /** The virgin map is its initial value with all seen bits cleared. */
  lemma {:induction false} VirginIsInitialMinusSeen(virgin: seq<byte>, traces: seq<seq<byte>>)
    requires forall t :: t in traces ==> |t| == |virgin|
    ensures VirginAfter(virgin, traces) == Clear(virgin, Seen(traces, |virgin|))
  {
    var n := |virgin|;
    if traces == [] {
      forall i | 0 <= i < n
        ensures virgin[i] == ClearByte(virgin[i], Seen(traces, n)[i])
      {
        ClearNothing(virgin[i]);
      }
    } else {
      var before, last := traces[..|traces| - 1], traces[|traces| - 1];
      VirginIsInitialMinusSeen(virgin, before);
      var seen := Seen(before, n);
      forall i | 0 <= i < n
        ensures ClearByte(ClearByte(virgin[i], seen[i]), last[i]) == ClearByte(virgin[i], OrByte(seen[i], last[i]))
      {
        ClearTwice(virgin[i], seen[i], last[i]);
      }
    }
  }

  lemma ClearNothing(v: byte)
    ensures ClearByte(v, 0) == v
  {
  }

  lemma ClearTwice(v: byte, a: byte, b: byte)
    ensures ClearByte(ClearByte(v, a), b) == ClearByte(v, OrByte(a, b))
  {
  }

  function PopCount(b: byte): nat {
    (if b & 1 != 0 then 1 else 0) + (if b & 2 != 0 then 1 else 0) + (if b & 4 != 0 then 1 else 0)
    + (if b & 8 != 0 then 1 else 0) + (if b & 16 != 0 then 1 else 0) + (if b & 32 != 0 then 1 else 0)
    + (if b & 64 != 0 then 1 else 0) + (if b & 128 != 0 then 1 else 0)
  }

  function IsPristine(b: byte): nat {
    if b == 0xff then 1 else 0
  }

  function Total<B>(weight: B -> nat, s: seq<B>): nat {
    if s == [] then 0 else Total(weight, s[..|s| - 1]) + weight(s[|s| - 1])
  }

  function SetBits(s: seq<byte>): nat {
    Total(PopCount, s)
  }

  function Pristine(s: seq<byte>): nat {
    Total(IsPristine, s)
  }

  lemma {:induction false} TotalAtMost<B(!new)>(weight: B -> nat, s: seq<B>, m: nat)
    requires forall b :: weight(b) <= m
    ensures Total(weight, s) <= m * |s|
  {
    if s != [] {
      TotalAtMost(weight, s[..|s| - 1], m);
    }
  }

  /** A map of n bytes has no more than 8n set bits and n pristine bytes. */
  lemma MapBounds(s: seq<byte>)
    ensures SetBits(s) <= 8 * |s| && Pristine(s) <= |s|
  {
    TotalAtMost(PopCount, s, 8);
    TotalAtMost(IsPristine, s, 1);
  }

  /** Where clearing never adds weight and a hit costs some, a hit anywhere costs some in total. */
  lemma {:induction false} HitCosts<B(!new)>(weight: B -> nat, clear: (B, B) -> B, hit: (B, B) -> bool,
                                             trace: seq<B>, virgin: seq<B>)
    requires |trace| == |virgin|
    requires forall t, v :: weight(clear(v, t)) + (if hit(t, v) then 1 else 0) <= weight(v)
    ensures Total(weight, Zip(clear, virgin, trace)) + (if Any(hit, trace, virgin) then 1 else 0)
            <= Total(weight, virgin)
  {
    if trace != [] {
      var n := |trace| - 1;
      HitCosts(weight, clear, hit, trace[..n], virgin[..n]);
      assert Zip(clear, virgin, trace)[..n] == Zip(clear, virgin[..n], trace[..n]);
      assert trace == trace[..n] + [trace[n]] && virgin == virgin[..n] + [virgin[n]];
      AnyConcat(hit, trace[..n], [trace[n]], virgin[..n], [virgin[n]]);
    }
  }

  lemma PopCountDrops(t: byte, v: byte)
    ensures PopCount(ClearByte(v, t)) + (if NewBits(t, v) then 1 else 0) <= PopCount(v)
    ensures !NewBits(t, v) ==> PopCount(ClearByte(v, t)) == PopCount(v)
  {
  }

  lemma PristineDrops(t: byte, v: byte)
    ensures IsPristine(ClearByte(v, t)) + (if NewTuple(t, v) then 1 else 0) == IsPristine(v)
    ensures NewTuple(t, v) ==> NewBits(t, v)
  {
  }

  /** Where no byte is hit, the total stays the same. */
  lemma {:induction false} NoHitCostsNothing<B(!new)>(weight: B -> nat, clear: (B, B) -> B, hit: (B, B) -> bool,
                                                      trace: seq<B>, virgin: seq<B>)
    requires |trace| == |virgin| && !Any(hit, trace, virgin)
    requires forall t, v :: !hit(t, v) ==> weight(clear(v, t)) == weight(v)
    ensures Total(weight, Zip(clear, virgin, trace)) == Total(weight, virgin)
  {
    if trace != [] {
      var n := |trace| - 1;
      assert !hit(trace[n], virgin[n]);
      assert forall i :: 0 <= i < n ==> !hit(trace[i], virgin[i]);
      NoHitCostsNothing(weight, clear, hit, trace[..n], virgin[..n]);
      assert Zip(clear, virgin, trace)[..n] == Zip(clear, virgin[..n], trace[..n]);
    }
  }

  /** A verdict is non-zero exactly if a set bit is used up, and 2 exactly if a pristine byte is; nothing ever comes
      back. */
  lemma VerdictCosts(trace: seq<byte>, virgin: seq<byte>)
    requires |trace| == |virgin|
    ensures SetBits(Clear(virgin, trace)) <= SetBits(virgin) && Pristine(Clear(virgin, trace)) <= Pristine(virgin)
    ensures Verdict(trace, virgin) != 0 <==> SetBits(Clear(virgin, trace)) < SetBits(virgin)
    ensures Verdict(trace, virgin) == 2 <==> Pristine(Clear(virgin, trace)) < Pristine(virgin)
  {
    forall t, v
      ensures PopCount(ClearByte(v, t)) + (if NewBits(t, v) then 1 else 0) <= PopCount(v)
      ensures !NewBits(t, v) ==> PopCount(ClearByte(v, t)) == PopCount(v)
      ensures IsPristine(ClearByte(v, t)) + (if NewTuple(t, v) then 1 else 0) == IsPristine(v)
      ensures NewTuple(t, v) ==> NewBits(t, v)
    {
      PopCountDrops(t, v);
      PristineDrops(t, v);
    }
    HitCosts(PopCount, ClearByte, NewBits, trace, virgin);
    HitCosts(IsPristine, ClearByte, NewTuple, trace, virgin);
    if !Any(NewBits, trace, virgin) {
      NoHitCostsNothing(PopCount, ClearByte, NewBits, trace, virgin);
    }
    if !Any(NewTuple, trace, virgin) {
      NoHitCostsNothing(IsPristine, ClearByte, NewTuple, trace, virgin);
    }
  }

  /** However long the campaign: at most one interesting trace per set bit of the initial map, and at most one
      with a new tuple per pristine byte. */
  lemma {:induction false} CampaignBounds(virgin: seq<byte>, traces: seq<seq<byte>>)
    requires forall t :: t in traces ==> |t| == |virgin|
    ensures var verdicts := Verdicts(virgin, traces);
            && |verdicts| - multiset(verdicts)[0] + SetBits(VirginAfter(virgin, traces)) <= SetBits(virgin)
            && multiset(verdicts)[2] + Pristine(VirginAfter(virgin, traces)) <= Pristine(virgin)
    ensures SetBits(virgin) <= 8 * |virgin| && Pristine(virgin) <= |virgin|
  {
    MapBounds(virgin);
    if traces != [] {
      var before, last := traces[..|traces| - 1], traces[|traces| - 1];
      CampaignBounds(virgin, before);
      VerdictCosts(last, VirginAfter(virgin, before));
      var vs := Verdicts(virgin, traces);
      assert vs == Verdicts(virgin, before) + [Verdict(last, VirginAfter(virgin, before))];
    }
  }
}
