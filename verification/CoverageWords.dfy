/**
 The coverage kernels, eight or four bytes at a time. A word is given by its bytes in memory order; `Value64`
 and `Value32` are what a little-endian machine loads, and all word-wise tests are on those.
 */
module CoverageWords {
  import opened CoverageBytes

  datatype Word64 = Word64(b0: byte, b1: byte, b2: byte, b3: byte, b4: byte, b5: byte, b6: byte, b7: byte)
  datatype Word32 = Word32(b0: byte, b1: byte, b2: byte, b3: byte)

  function Value64(w: Word64): bv64 {
    (w.b0 as bv64) | ((w.b1 as bv64) << 8) | ((w.b2 as bv64) << 16) | ((w.b3 as bv64) << 24)
    | ((w.b4 as bv64) << 32) | ((w.b5 as bv64) << 40) | ((w.b6 as bv64) << 48) | ((w.b7 as bv64) << 56)
  }

  function Store64(v: bv64): Word64 {
    Word64((v & 0xff) as byte, ((v >> 8) & 0xff) as byte, ((v >> 16) & 0xff) as byte, ((v >> 24) & 0xff) as byte,
           ((v >> 32) & 0xff) as byte, ((v >> 40) & 0xff) as byte, ((v >> 48) & 0xff) as byte, (v >> 56) as byte)
  }

  function Value32(w: Word32): bv32 {
    (w.b0 as bv32) | ((w.b1 as bv32) << 8) | ((w.b2 as bv32) << 16) | ((w.b3 as bv32) << 24)
  }

  function Store32(v: bv32): Word32 {
    Word32((v & 0xff) as byte, ((v >> 8) & 0xff) as byte, ((v >> 16) & 0xff) as byte, (v >> 24) as byte)
  }

  function BytesOf64(w: Word64): seq<byte> {
    [w.b0, w.b1, w.b2, w.b3, w.b4, w.b5, w.b6, w.b7]
  }

  function BytesOf32(w: Word32): seq<byte> {
    [w.b0, w.b1, w.b2, w.b3]
  }

  function Bytes64(ws: seq<Word64>): (r: seq<byte>)
    ensures |r| == 8 * |ws|
  {
    if ws == [] then [] else Bytes64(ws[..|ws| - 1]) + BytesOf64(ws[|ws| - 1])
  }

  function Bytes32(ws: seq<Word32>): (r: seq<byte>)
    ensures |r| == 4 * |ws|
  {
    if ws == [] then [] else Bytes32(ws[..|ws| - 1]) + BytesOf32(ws[|ws| - 1])
  }

  // ----- One word -----

  /** The words have a bit in common. */
  predicate Meet64(t: Word64, v: Word64) {
    Value64(t) & Value64(v) != 0
  }

  predicate Meet32(t: Word32, v: Word32) {
    Value32(t) & Value32(v) != 0
  }

  function AndNot64(v: Word64, t: Word64): Word64 {
    Store64(Value64(v) & !Value64(t))
  }

  function AndNot32(v: Word32, t: Word32): Word32 {
    Store32(Value32(v) & !Value32(t))
  }

  lemma NewBitsRaw(t: byte, v: byte)
    ensures NewBits(t, v) == (t & v != 0)
  {
  }

  lemma Meet64OfBytes(a0: byte, a1: byte, a2: byte, a3: byte, a4: byte, a5: byte, a6: byte, a7: byte,
                      b0: byte, b1: byte, b2: byte, b3: byte, b4: byte, b5: byte, b6: byte, b7: byte)
    ensures (Value64(Word64(a0, a1, a2, a3, a4, a5, a6, a7)) & Value64(Word64(b0, b1, b2, b3, b4, b5, b6, b7)) != 0)
        == (a0 & b0 != 0 || a1 & b1 != 0 || a2 & b2 != 0 || a3 & b3 != 0
            || a4 & b4 != 0 || a5 & b5 != 0 || a6 & b6 != 0 || a7 & b7 != 0)
  {
  }

  lemma Meet32OfBytes(a0: byte, a1: byte, a2: byte, a3: byte,
                      b0: byte, b1: byte, b2: byte, b3: byte)
    ensures (Value32(Word32(a0, a1, a2, a3)) & Value32(Word32(b0, b1, b2, b3)) != 0)
        == (a0 & b0 != 0 || a1 & b1 != 0 || a2 & b2 != 0 || a3 & b3 != 0)
  {
  }

  lemma MeetByBytes64(t: Word64, v: Word64)
    ensures Meet64(t, v) ==
            (NewBits(t.b0, v.b0) || NewBits(t.b1, v.b1) || NewBits(t.b2, v.b2) || NewBits(t.b3, v.b3)
             || NewBits(t.b4, v.b4) || NewBits(t.b5, v.b5) || NewBits(t.b6, v.b6) || NewBits(t.b7, v.b7))
  {
    Meet64OfBytes(t.b0, t.b1, t.b2, t.b3, t.b4, t.b5, t.b6, t.b7,
                  v.b0, v.b1, v.b2, v.b3, v.b4, v.b5, v.b6, v.b7);
    NewBitsRaw(t.b0, v.b0);
    NewBitsRaw(t.b1, v.b1);
    NewBitsRaw(t.b2, v.b2);
    NewBitsRaw(t.b3, v.b3);
    NewBitsRaw(t.b4, v.b4);
    NewBitsRaw(t.b5, v.b5);
    NewBitsRaw(t.b6, v.b6);
    NewBitsRaw(t.b7, v.b7);
  }

  lemma MeetByBytes32(t: Word32, v: Word32)
    ensures Meet32(t, v) ==
            (NewBits(t.b0, v.b0) || NewBits(t.b1, v.b1) || NewBits(t.b2, v.b2) || NewBits(t.b3, v.b3))
  {
    Meet32OfBytes(t.b0, t.b1, t.b2, t.b3,
                  v.b0, v.b1, v.b2, v.b3);
    NewBitsRaw(t.b0, v.b0);
    NewBitsRaw(t.b1, v.b1);
    NewBitsRaw(t.b2, v.b2);
    NewBitsRaw(t.b3, v.b3);
  }

  lemma AndNotByBytes64(v: Word64, t: Word64)
    ensures AndNot64(v, t) ==
            Word64(ClearByte(v.b0, t.b0), ClearByte(v.b1, t.b1), ClearByte(v.b2, t.b2), ClearByte(v.b3, t.b3),
                   ClearByte(v.b4, t.b4), ClearByte(v.b5, t.b5), ClearByte(v.b6, t.b6), ClearByte(v.b7, t.b7))
  {
  }

  lemma AndNotByBytes32(v: Word32, t: Word32)
    ensures AndNot32(v, t) ==
            Word32(ClearByte(v.b0, t.b0), ClearByte(v.b1, t.b1), ClearByte(v.b2, t.b2), ClearByte(v.b3, t.b3))
  {
  }

  lemma TupleHasBits(t: seq<byte>, v: seq<byte>)
    requires |t| == |v| && Any(NewTuple, t, v)
    ensures Any(NewBits, t, v)
  {
    var i :| 0 <= i < |t| && NewTuple(t[i], v[i]);
    PristineDrops(t[i], v[i]);
  }

  /** An untouched byte that is hit has a bit to show. */
  lemma VerdictZero(t: seq<byte>, v: seq<byte>)
    requires |t| == |v|
    ensures Verdict(t, v) != 0 <==> Any(NewBits, t, v)
  {
    if Any(NewTuple, t, v) {
      TupleHasBits(t, v);
    }
  }

  lemma NothingToClear(t: seq<byte>, v: seq<byte>)
    requires |t| == |v| && !Any(NewBits, t, v)
    ensures Clear(v, t) == v
  {
    forall i | 0 <= i < |t|
      ensures ClearByte(v[i], t[i]) == v[i]
    {
      assert !NewBits(t[i], v[i]);
      NothingInCommon(t[i], v[i]);
    }
  }

  lemma NothingInCommon(t: byte, v: byte)
    requires !NewBits(t, v)
    ensures ClearByte(v, t) == v
  {
  }

  lemma NothingInZeroes(t: seq<byte>, v: seq<byte>)
    requires |t| == |v| && forall i :: 0 <= i < |t| ==> t[i] == 0
    ensures Verdict(t, v) == 0 && Clear(v, t) == v
  {
    forall i | 0 <= i < |t|
      ensures !NewBits(t[i], v[i])
    {
      assert t[i] & v[i] == 0;
    }
    NothingToClear(t, v);
  }

  lemma AnyOfFour(hit: (byte, byte) -> bool, t0: byte, t1: byte, t2: byte, t3: byte, v0: byte, v1: byte, v2: byte,
                  v3: byte)
    ensures Any(hit, [t0, t1, t2, t3], [v0, v1, v2, v3]) <==>
            hit(t0, v0) || hit(t1, v1) || hit(t2, v2) || hit(t3, v3)
  {
    var a, c := [t0, t1, t2, t3], [v0, v1, v2, v3];
    assert a[0] == t0 && a[1] == t1 && a[2] == t2 && a[3] == t3;
    assert c[0] == v0 && c[1] == v1 && c[2] == v2 && c[3] == v3;
  }

  lemma AnyOfBytes64(hit: (byte, byte) -> bool, t: Word64, v: Word64)
    ensures Any(hit, BytesOf64(t), BytesOf64(v)) <==>
            || hit(t.b0, v.b0) || hit(t.b1, v.b1) || hit(t.b2, v.b2) || hit(t.b3, v.b3)
            || hit(t.b4, v.b4) || hit(t.b5, v.b5) || hit(t.b6, v.b6) || hit(t.b7, v.b7)
  {
    AnyOfFour(hit, t.b0, t.b1, t.b2, t.b3, v.b0, v.b1, v.b2, v.b3);
    AnyOfFour(hit, t.b4, t.b5, t.b6, t.b7, v.b4, v.b5, v.b6, v.b7);
    AnyConcat(hit, [t.b0, t.b1, t.b2, t.b3], [t.b4, t.b5, t.b6, t.b7],
              [v.b0, v.b1, v.b2, v.b3], [v.b4, v.b5, v.b6, v.b7]);
    assert BytesOf64(t) == [t.b0, t.b1, t.b2, t.b3] + [t.b4, t.b5, t.b6, t.b7];
    assert BytesOf64(v) == [v.b0, v.b1, v.b2, v.b3] + [v.b4, v.b5, v.b6, v.b7];
  }

  lemma ZipOfBytes64(f: (byte, byte) -> byte, v: Word64, t: Word64, r: Word64)
    requires r == Word64(f(v.b0, t.b0), f(v.b1, t.b1), f(v.b2, t.b2), f(v.b3, t.b3),
                           f(v.b4, t.b4), f(v.b5, t.b5), f(v.b6, t.b6), f(v.b7, t.b7))
    ensures BytesOf64(r) == Zip(f, BytesOf64(v), BytesOf64(t))
  {
  }

  /** The word-wise test is the byte-wise one. */
  lemma MeetIsVerdict64(t: Word64, v: Word64)
    ensures Meet64(t, v) <==> Any(NewBits, BytesOf64(t), BytesOf64(v))
    ensures Meet64(t, v) <==> Verdict(BytesOf64(t), BytesOf64(v)) != 0
  {
    var meet := Meet64(t, v);
    MeetByBytes64(t, v);
    AnyOfBytes64(NewBits, t, v);
    VerdictZero(BytesOf64(t), BytesOf64(v));
  }

  /** discover_word, 64 bits: the verdict so far is raised to that of the word. */
  method DiscoverWord64(ret: nat, current: Word64, virgin: Word64) returns (ret': nat, virgin': Word64)
    requires ret <= 2
    ensures ret' == Max(ret, Verdict(BytesOf64(current), BytesOf64(virgin)))
    ensures BytesOf64(virgin') == Clear(BytesOf64(virgin), BytesOf64(current))
  {
    ret', virgin' := ret, virgin;
    MeetIsVerdict64(current, virgin);
    AndNotByBytes64(virgin, current);
    ZipOfBytes64(ClearByte, virgin, current, AndNot64(virgin, current));
    if Meet64(current, virgin) {
      AnyOfBytes64(NewTuple, current, virgin);
      if ret < 2 {
        if (current.b0 != 0 && virgin.b0 == 0xff) || (current.b1 != 0 && virgin.b1 == 0xff)
           || (current.b2 != 0 && virgin.b2 == 0xff) || (current.b3 != 0 && virgin.b3 == 0xff)
           || (current.b4 != 0 && virgin.b4 == 0xff) || (current.b5 != 0 && virgin.b5 == 0xff)
           || (current.b6 != 0 && virgin.b6 == 0xff) || (current.b7 != 0 && virgin.b7 == 0xff) {
          ret' := 2;
        } else {
          ret' := 1;
        }
      }
      virgin' := AndNot64(virgin, current);
    } else {
      NothingToClear(BytesOf64(current), BytesOf64(virgin));
    }
  }

  // ----- A whole map, 64 bits -----

  const ZERO64 := Word64(0, 0, 0, 0, 0, 0, 0, 0)

  lemma ZeroWord64(v: Word64)
    ensures Verdict(BytesOf64(ZERO64), BytesOf64(v)) == 0
    ensures Clear(BytesOf64(v), BytesOf64(ZERO64)) == BytesOf64(v)
  {
    NothingInZeroes(BytesOf64(ZERO64), BytesOf64(v));
  }

  /** The first n words are done: their verdict, and their part of the virgin map. */
  ghost predicate Done64(trace: seq<Word64>, before: seq<Word64>, now: seq<Word64>, n: nat, ret: nat) {
    && |before| == |now| == |trace| && n <= |trace|
    && now[n..] == before[n..]
    && ret == Verdict(Bytes64(trace[..n]), Bytes64(before[..n]))
    && Bytes64(now[..n]) == Clear(Bytes64(before[..n]), Bytes64(trace[..n]))
  }

  lemma Advance64(trace: seq<Word64>, before: seq<Word64>, now: seq<Word64>, n: nat, ret: nat, word: Word64, ret': nat)
    requires Done64(trace, before, now, n, ret) && n < |trace|
    requires ret' == Max(ret, Verdict(BytesOf64(trace[n]), BytesOf64(before[n])))
    requires BytesOf64(word) == Clear(BytesOf64(before[n]), BytesOf64(trace[n]))
    ensures Done64(trace, before, now[n := word], n + 1, ret')
  {
    var next := now[n := word];
    assert trace[..n + 1][..n] == trace[..n] && before[..n + 1][..n] == before[..n] && next[..n + 1][..n] == now[..n];
    VerdictConcat(Bytes64(trace[..n]), BytesOf64(trace[n]), Bytes64(before[..n]), BytesOf64(before[n]));
    ClearConcat(Bytes64(before[..n]), BytesOf64(before[n]), Bytes64(trace[..n]), BytesOf64(trace[n]));
  }

  /** One round of has_new_bits: zero words are not even compared. */
  method VisitWord64(trace: seq<Word64>, virgin: array<Word64>, i: nat, ret: nat, ghost before: seq<Word64>)
    returns (ret': nat)
    requires i < |trace| && ret <= 2 && Done64(trace, before, virgin[..], i, ret)
    modifies virgin
    ensures ret' <= 2 && Done64(trace, before, virgin[..], i + 1, ret')
  {
    ghost var now := virgin[..];
    assert now[i..][0] == before[i..][0];
    if trace[i] != ZERO64 {
      var word;
      ret', word := DiscoverWord64(ret, trace[i], virgin[i]);
      Advance64(trace, before, now, i, ret, word, ret');
      virgin[i] := word;
    } else {
      ret' := ret;
      ZeroWord64(before[i]);
      Advance64(trace, before, now, i, ret, now[i], ret);
      assert now[i := now[i]] == now;
    }
  }

  /** has_new_bits, 64 bits, on the first `words` words. */
  method HasNewBits64(trace: seq<Word64>, virgin: array<Word64>, words: nat) returns (ret: nat)
    requires virgin.Length == |trace| && words <= |trace|
    modifies virgin
    ensures ret == Verdict(Bytes64(trace[..words]), Bytes64(old(virgin[..words])))
    ensures Bytes64(virgin[..words]) == Clear(Bytes64(old(virgin[..words])), Bytes64(trace[..words]))
    ensures virgin[words..] == old(virgin[words..])
  {
    ghost var before := virgin[..];
    ret := 0;
    var i := 0;
    while i < words
      invariant 0 <= i <= words && ret <= 2
      invariant Done64(trace, before, virgin[..], i, ret)
    {
      ret := VisitWord64(trace, virgin, i, ret, before);
      i := i + 1;
    }
    assert before[..words] == old(virgin[..words]) && virgin[..][..words] == virgin[..words];
    assert before[words..] == old(virgin[words..]) && virgin[..][words..] == virgin[words..];
  }

  lemma AnyOfBytes32(hit: (byte, byte) -> bool, t: Word32, v: Word32)
    ensures Any(hit, BytesOf32(t), BytesOf32(v)) <==>
            || hit(t.b0, v.b0) || hit(t.b1, v.b1) || hit(t.b2, v.b2) || hit(t.b3, v.b3)
  {
    AnyOfFour(hit, t.b0, t.b1, t.b2, t.b3, v.b0, v.b1, v.b2, v.b3);
  }

  lemma ZipOfBytes32(f: (byte, byte) -> byte, v: Word32, t: Word32, r: Word32)
    requires r == Word32(f(v.b0, t.b0), f(v.b1, t.b1), f(v.b2, t.b2), f(v.b3, t.b3))
    ensures BytesOf32(r) == Zip(f, BytesOf32(v), BytesOf32(t))
  {
  }

  /** The word-wise test is the byte-wise one. */
  lemma MeetIsVerdict32(t: Word32, v: Word32)
    ensures Meet32(t, v) <==> Any(NewBits, BytesOf32(t), BytesOf32(v))
    ensures Meet32(t, v) <==> Verdict(BytesOf32(t), BytesOf32(v)) != 0
  {
    var meet := Meet32(t, v);
    MeetByBytes32(t, v);
    AnyOfBytes32(NewBits, t, v);
    VerdictZero(BytesOf32(t), BytesOf32(v));
  }

  /** discover_word, 32 bits: the verdict so far is raised to that of the word. */
  method DiscoverWord32(ret: nat, current: Word32, virgin: Word32) returns (ret': nat, virgin': Word32)
    requires ret <= 2
    ensures ret' == Max(ret, Verdict(BytesOf32(current), BytesOf32(virgin)))
    ensures BytesOf32(virgin') == Clear(BytesOf32(virgin), BytesOf32(current))
  {
    ret', virgin' := ret, virgin;
    MeetIsVerdict32(current, virgin);
    AndNotByBytes32(virgin, current);
    ZipOfBytes32(ClearByte, virgin, current, AndNot32(virgin, current));
    if Meet32(current, virgin) {
      AnyOfBytes32(NewTuple, current, virgin);
      if ret < 2 {
        if (current.b0 != 0 && virgin.b0 == 0xff) || (current.b1 != 0 && virgin.b1 == 0xff)
           || (current.b2 != 0 && virgin.b2 == 0xff) || (current.b3 != 0 && virgin.b3 == 0xff) {
          ret' := 2;
        } else {
          ret' := 1;
        }
      }
      virgin' := AndNot32(virgin, current);
    } else {
      NothingToClear(BytesOf32(current), BytesOf32(virgin));
    }
  }

  // ----- A whole map, 32 bits -----

  const ZERO32 := Word32(0, 0, 0, 0)

  lemma ZeroWord32(v: Word32)
    ensures Verdict(BytesOf32(ZERO32), BytesOf32(v)) == 0
    ensures Clear(BytesOf32(v), BytesOf32(ZERO32)) == BytesOf32(v)
  {
    NothingInZeroes(BytesOf32(ZERO32), BytesOf32(v));
  }

  /** The first n words are done: their verdict, and their part of the virgin map. */
  ghost predicate Done32(trace: seq<Word32>, before: seq<Word32>, now: seq<Word32>, n: nat, ret: nat) {
    && |before| == |now| == |trace| && n <= |trace|
    && now[n..] == before[n..]
    && ret == Verdict(Bytes32(trace[..n]), Bytes32(before[..n]))
    && Bytes32(now[..n]) == Clear(Bytes32(before[..n]), Bytes32(trace[..n]))
  }

  lemma Advance32(trace: seq<Word32>, before: seq<Word32>, now: seq<Word32>, n: nat, ret: nat, word: Word32, ret': nat)
    requires Done32(trace, before, now, n, ret) && n < |trace|
    requires ret' == Max(ret, Verdict(BytesOf32(trace[n]), BytesOf32(before[n])))
    requires BytesOf32(word) == Clear(BytesOf32(before[n]), BytesOf32(trace[n]))
    ensures Done32(trace, before, now[n := word], n + 1, ret')
  {
    var next := now[n := word];
    assert trace[..n + 1][..n] == trace[..n] && before[..n + 1][..n] == before[..n] && next[..n + 1][..n] == now[..n];
    VerdictConcat(Bytes32(trace[..n]), BytesOf32(trace[n]), Bytes32(before[..n]), BytesOf32(before[n]));
    ClearConcat(Bytes32(before[..n]), BytesOf32(before[n]), Bytes32(trace[..n]), BytesOf32(trace[n]));
  }

  /** One round of has_new_bits: zero words are not even compared. */
  method VisitWord32(trace: seq<Word32>, virgin: array<Word32>, i: nat, ret: nat, ghost before: seq<Word32>)
    returns (ret': nat)
    requires i < |trace| && ret <= 2 && Done32(trace, before, virgin[..], i, ret)
    modifies virgin
    ensures ret' <= 2 && Done32(trace, before, virgin[..], i + 1, ret')
  {
    ghost var now := virgin[..];
    assert now[i..][0] == before[i..][0];
    if trace[i] != ZERO32 {
      var word;
      ret', word := DiscoverWord32(ret, trace[i], virgin[i]);
      Advance32(trace, before, now, i, ret, word, ret');
      virgin[i] := word;
    } else {
      ret' := ret;
      ZeroWord32(before[i]);
      Advance32(trace, before, now, i, ret, now[i], ret);
      assert now[i := now[i]] == now;
    }
  }

  /** has_new_bits, 32 bits, on the first `words` words. */
  method HasNewBits32(trace: seq<Word32>, virgin: array<Word32>, words: nat) returns (ret: nat)
    requires virgin.Length == |trace| && words <= |trace|
    modifies virgin
    ensures ret == Verdict(Bytes32(trace[..words]), Bytes32(old(virgin[..words])))
    ensures Bytes32(virgin[..words]) == Clear(Bytes32(old(virgin[..words])), Bytes32(trace[..words]))
    ensures virgin[words..] == old(virgin[words..])
  {
    ghost var before := virgin[..];
    ret := 0;
    var i := 0;
    while i < words
      invariant 0 <= i <= words && ret <= 2
      invariant Done32(trace, before, virgin[..], i, ret)
    {
      ret := VisitWord32(trace, virgin, i, ret, before);
      i := i + 1;
    }
    assert before[..words] == old(virgin[..words]) && virgin[..][..words] == virgin[..words];
    assert before[words..] == old(virgin[words..]) && virgin[..][words..] == virgin[words..];
  }
}
