/**
 Classifying hit counts, and the read-only scan that decides whether the slow path is needed at all. The
 lookup table is arbitrary.
 */
module CoverageSkim {
  import opened CoverageBytes
  import opened CoverageWords

  /** What count_class_lookup16 does to two neighbouring bytes. */
  type PairTable = (byte, byte) -> (byte, byte)

  /** classify_word */
  function ClassifyWord64(t: PairTable, w: Word64): Word64 {
    var (b0, b1) := t(w.b0, w.b1);
    var (b2, b3) := t(w.b2, w.b3);
    var (b4, b5) := t(w.b4, w.b5);
    var (b6, b7) := t(w.b6, w.b7);
    Word64(b0, b1, b2, b3, b4, b5, b6, b7)
  }

  function ClassifyWord32(t: PairTable, w: Word32): Word32 {
    var (b0, b1) := t(w.b0, w.b1);
    var (b2, b3) := t(w.b2, w.b3);
    Word32(b0, b1, b2, b3)
  }

  /** Pair k of a classified word is the table's answer to pair k. */
  lemma ClassifiedPair64(t: PairTable, w: Word64, k: nat)
    requires k < 4
    ensures var before, after := BytesOf64(w), BytesOf64(ClassifyWord64(t, w));
            (after[2 * k], after[2 * k + 1]) == t(before[2 * k], before[2 * k + 1])
  {
    match k
    case 0 =>
    case 1 =>
    case 2 =>
    case _ =>
  }

  lemma ClassifiedPair32(t: PairTable, w: Word32, k: nat)
    requires k < 2
    ensures var before, after := BytesOf32(w), BytesOf32(ClassifyWord32(t, w));
            (after[2 * k], after[2 * k + 1]) == t(before[2 * k], before[2 * k + 1])
  {
  }

  /** A word without any hit is left alone, whatever the table says about zero. */
  function Classified64(t: PairTable, w: Word64): Word64 {
    if w == ZERO64 then w else ClassifyWord64(t, w)
  }

  function Classified32(t: PairTable, w: Word32): Word32 {
    if w == ZERO32 then w else ClassifyWord32(t, w)
  }

  function ClassifiedMap64(t: PairTable, ws: seq<Word64>): (r: seq<Word64>)
    ensures |r| == |ws| && forall i :: 0 <= i < |ws| ==> r[i] == Classified64(t, ws[i])
  {
    seq(|ws|, i requires 0 <= i < |ws| => Classified64(t, ws[i]))
  }

  function ClassifiedMap32(t: PairTable, ws: seq<Word32>): (r: seq<Word32>)
    ensures |r| == |ws| && forall i :: 0 <= i < |ws| ==> r[i] == Classified32(t, ws[i])
  {
    seq(|ws|, i requires 0 <= i < |ws| => Classified32(t, ws[i]))
  }

  /** classify_counts, 64 bits. */
  method ClassifyCounts64(t: PairTable, mem: array<Word64>)
    modifies mem
    ensures mem[..] == ClassifiedMap64(t, old(mem[..]))
  {
    for i := 0 to mem.Length
      invariant forall j :: 0 <= j < mem.Length ==>
                  mem[j] == if j < i then Classified64(t, old(mem[j])) else old(mem[j])
    {
      if mem[i] != ZERO64 {
        mem[i] := ClassifyWord64(t, mem[i]);
      }
    }
  }

  /** classify_counts, 32 bits. */
  method ClassifyCounts32(t: PairTable, mem: array<Word32>)
    modifies mem
    ensures mem[..] == ClassifiedMap32(t, old(mem[..]))
  {
    for i := 0 to mem.Length
      invariant forall j :: 0 <= j < mem.Length ==>
                  mem[j] == if j < i then Classified32(t, old(mem[j])) else old(mem[j])
    {
      if mem[i] != ZERO32 {
        mem[i] := ClassifyWord32(t, mem[i]);
      }
    }
  }

  lemma Front<B>(a: seq<B>, b: seq<B>, i: nat, j: nat)
    requires i <= j <= |a|
    ensures (a + b)[i..j] == a[i..j]
  {
  }

  lemma {:induction false} BytesAt64(ws: seq<Word64>, i: nat)
    requires i < |ws|
    ensures Bytes64(ws)[8 * i..8 * i + 8] == BytesOf64(ws[i])
  {
    if i < |ws| - 1 {
      var m := |ws| - 1;
      BytesAt64(ws[..m], i);
      Front(Bytes64(ws[..m]), BytesOf64(ws[m]), 8 * i, 8 * i + 8);
    }
  }

  lemma Silent64(w: Word64)
    ensures w == ZERO64 <==> forall j :: 0 <= j < 8 ==> BytesOf64(w)[j] == 0
  {
    var b := BytesOf64(w);
    assert b[0] == w.b0 && b[1] == w.b1 && b[2] == w.b2 && b[3] == w.b3;
    assert b[4] == w.b4 && b[5] == w.b5 && b[6] == w.b6 && b[7] == w.b7;
  }

  /** What classification does to the bytes of a map: pair k of word i becomes the table's answer to it, unless the
      whole word is silent. */
  lemma ClassifiedBytes64(t: PairTable, ws: seq<Word64>, i: nat, k: nat)
    requires i < |ws| && k < 4
    ensures var before := Bytes64(ws)[8 * i..8 * i + 8];
            var after := Bytes64(ClassifiedMap64(t, ws))[8 * i..8 * i + 8];
            (after[2 * k], after[2 * k + 1]) == if forall j :: 0 <= j < 8 ==> before[j] == 0
                                                then (before[2 * k], before[2 * k + 1])
                                                else t(before[2 * k], before[2 * k + 1])
  {
    BytesAt64(ws, i);
    BytesAt64(ClassifiedMap64(t, ws), i);
    Silent64(ws[i]);
    ClassifiedPair64(t, ws[i], k);
  }
  lemma {:induction false} BytesAt32(ws: seq<Word32>, i: nat)
    requires i < |ws|
    ensures Bytes32(ws)[4 * i..4 * i + 4] == BytesOf32(ws[i])
  {
    if i < |ws| - 1 {
      var m := |ws| - 1;
      BytesAt32(ws[..m], i);
      Front(Bytes32(ws[..m]), BytesOf32(ws[m]), 4 * i, 4 * i + 4);
    }
  }

  lemma Silent32(w: Word32)
    ensures w == ZERO32 <==> forall j :: 0 <= j < 4 ==> BytesOf32(w)[j] == 0
  {
    var b := BytesOf32(w);
    assert b[0] == w.b0 && b[1] == w.b1;
    assert b[2] == w.b2 && b[3] == w.b3;
  }

  /** What classification does to the bytes of a map: pair k of word i becomes the table's answer to it, unless the
      whole word is silent. */
  lemma ClassifiedBytes32(t: PairTable, ws: seq<Word32>, i: nat, k: nat)
    requires i < |ws| && k < 2
    ensures var before := Bytes32(ws)[4 * i..4 * i + 4];
            var after := Bytes32(ClassifiedMap32(t, ws))[4 * i..4 * i + 4];
            (after[2 * k], after[2 * k + 1]) == if forall j :: 0 <= j < 4 ==> before[j] == 0
                                                then (before[2 * k], before[2 * k + 1])
                                                else t(before[2 * k], before[2 * k + 1])
  {
    BytesAt32(ws, i);
    BytesAt32(ClassifiedMap32(t, ws), i);
    Silent32(ws[i]);
    ClassifiedPair32(t, ws[i], k);
  }
  // ----- The test one word at a time -----

  /** What the scan asks of a word: is it zero, and would it meet the virgin word once classified? */
  datatype Test<!W> = Test(zero: W -> bool, meets: (W, W) -> bool) {
    predicate Hot(current: W, virgin: W) {
      !zero(current) && meets(current, virgin)
    }

    predicate AnyHot(current: seq<W>, virgin: seq<W>)
      requires |current| == |virgin|
    {
      exists i :: 0 <= i < |current| && Hot(current[i], virgin[i])
    }
  }

  function Test64(t: PairTable): Test<Word64> {
    Test(w => w == ZERO64, (current, virgin) => Meet64(ClassifyWord64(t, current), virgin))
  }

  function Test32(t: PairTable): Test<Word32> {
    Test(w => w == ZERO32, (current, virgin) => Meet32(ClassifyWord32(t, current), virgin))
  }

  lemma AnyHotExtends<W>(test: Test<W>, current: seq<W>, virgin: seq<W>)
    requires |current| == |virgin| > 0
    ensures var n := |current| - 1;
            test.AnyHot(current, virgin) <==>
            test.AnyHot(current[..n], virgin[..n]) || test.Hot(current[n], virgin[n])
  {
  }

  lemma HotIsVerdict64(t: PairTable, current: Word64, virgin: Word64)
    ensures Test64(t).Hot(current, virgin) <==>
            Verdict(BytesOf64(Classified64(t, current)), BytesOf64(virgin)) != 0
  {
    if current == ZERO64 {
      ZeroWord64(virgin);
    } else {
      MeetIsVerdict64(ClassifyWord64(t, current), virgin);
    }
  }

  lemma HotIsVerdict32(t: PairTable, current: Word32, virgin: Word32)
    ensures Test32(t).Hot(current, virgin) <==>
            Verdict(BytesOf32(Classified32(t, current)), BytesOf32(virgin)) != 0
  {
    if current == ZERO32 {
      ZeroWord32(virgin);
    } else {
      MeetIsVerdict32(ClassifyWord32(t, current), virgin);
    }
  }

  /** Some word is hot exactly when the classified map would get a verdict. */
  lemma {:induction false} AnyHotIsVerdict64(t: PairTable, current: seq<Word64>, virgin: seq<Word64>)
    requires |current| == |virgin|
    ensures Test64(t).AnyHot(current, virgin) <==>
            Verdict(Bytes64(ClassifiedMap64(t, current)), Bytes64(virgin)) != 0
  {
    if current != [] {
      var n := |current| - 1;
      AnyHotIsVerdict64(t, current[..n], virgin[..n]);
      HotIsVerdict64(t, current[n], virgin[n]);
      var classified := ClassifiedMap64(t, current);
      assert classified[..n] == ClassifiedMap64(t, current[..n]);
      VerdictConcat(Bytes64(classified[..n]), BytesOf64(classified[n]), Bytes64(virgin[..n]), BytesOf64(virgin[n]));
      AnyHotExtends(Test64(t), current, virgin);
    }
  }

  lemma {:induction false} AnyHotIsVerdict32(t: PairTable, current: seq<Word32>, virgin: seq<Word32>)
    requires |current| == |virgin|
    ensures Test32(t).AnyHot(current, virgin) <==>
            Verdict(Bytes32(ClassifiedMap32(t, current)), Bytes32(virgin)) != 0
  {
    if current != [] {
      var n := |current| - 1;
      AnyHotIsVerdict32(t, current[..n], virgin[..n]);
      HotIsVerdict32(t, current[n], virgin[n]);
      var classified := ClassifiedMap32(t, current);
      assert classified[..n] == ClassifiedMap32(t, current[..n]);
      VerdictConcat(Bytes32(classified[..n]), BytesOf32(classified[n]), Bytes32(virgin[..n]), BytesOf32(virgin[n]));
      AnyHotExtends(Test32(t), current, virgin);
    }
  }

  // ----- The scans -----

  /** The portable scan, four words a round. */
  method Scan<W>(test: Test<W>, virgin: seq<W>, current: seq<W>) returns (r: int)
    requires |virgin| == |current| && |current| % 4 == 0
    ensures r == if test.AnyHot(current, virgin) then 1 else 0
  {
    var i := 0;
    while i < |current|
      invariant 0 <= i <= |current| && i % 4 == 0
      invariant forall j :: 0 <= j < i ==> !test.Hot(current[j], virgin[j])
    {
      if !test.zero(current[i]) && test.meets(current[i], virgin[i]) { return 1; }
      if !test.zero(current[i + 1]) && test.meets(current[i + 1], virgin[i + 1]) { return 1; }
      if !test.zero(current[i + 2]) && test.meets(current[i + 2], virgin[i + 2]) { return 1; }
      if !test.zero(current[i + 3]) && test.meets(current[i + 3], virgin[i + 3]) { return 1; }
      i := i + 4;
    }
    return 0;
  }

  /** movemask_epi8 of cmpeq_epi64 with zero: eight mask bits per zero lane. */
  function Movemask(z0: bool, z1: bool, z2: bool, z3: bool): bv32 {
    (if z0 then 0xff else 0) | (if z1 then 0xff00 else 0)
    | (if z2 then 0xff0000 else 0) | (if z3 then 0xff000000 else 0)
  }

  lemma MovemaskLanes(z0: bool, z1: bool, z2: bool, z3: bool)
    ensures var m := Movemask(z0, z1, z2, z3);
            && (m & 0xff == 0 <==> !z0) && (m & 0xff00 == 0 <==> !z1)
            && (m & 0xff0000 == 0 <==> !z2) && (m & 0xff000000 == 0 <==> !z3)
            && (m == 0xffffffff <==> z0 && z1 && z2 && z3)
  {
  }

  /** One round of the AVX2 scan. */
  method RoundAvx2<W>(test: Test<W>, v: seq<W>, c: seq<W>, i: nat) returns (hot: bool)
    requires |v| == |c| && i + 4 <= |c|
    ensures hot <==> exists j :: i <= j < i + 4 && test.Hot(c[j], v[j])
  {
    var mask := Movemask(test.zero(c[i]), test.zero(c[i + 1]), test.zero(c[i + 2]), test.zero(c[i + 3]));
    MovemaskLanes(test.zero(c[i]), test.zero(c[i + 1]), test.zero(c[i + 2]), test.zero(c[i + 3]));
    if mask == 0xffffffff {
      return false;
    }
    if mask & 0xff == 0 && test.meets(c[i], v[i]) { return true; }
    if mask & 0xff00 == 0 && test.meets(c[i + 1], v[i + 1]) { return true; }
    if mask & 0xff0000 == 0 && test.meets(c[i + 2], v[i + 2]) { return true; }
    if mask & 0xff000000 == 0 && test.meets(c[i + 3], v[i + 3]) { return true; }
    return false;
  }

  method ScanAvx2<W>(test: Test<W>, virgin: seq<W>, current: seq<W>) returns (r: int)
    requires |virgin| == |current| && |current| % 4 == 0
    ensures r == if test.AnyHot(current, virgin) then 1 else 0
  {
    var i := 0;
    while i < |current|
      invariant 0 <= i <= |current| && i % 4 == 0
      invariant forall j :: 0 <= j < i ==> !test.Hot(current[j], virgin[j])
    {
      var hot := RoundAvx2(test, virgin, current, i);
      if hot {
        return 1;
      }
      i := i + 4;
    }
    return 0;
  }

  /** testn_epi64_mask: one mask bit per zero lane. */
  function TestnMask(z0: bool, z1: bool, z2: bool, z3: bool, z4: bool, z5: bool, z6: bool, z7: bool): bv8 {
    (if z0 then 1 else 0) | (if z1 then 2 else 0) | (if z2 then 4 else 0) | (if z3 then 8 else 0)
    | (if z4 then 16 else 0) | (if z5 then 32 else 0) | (if z6 then 64 else 0) | (if z7 then 128 else 0)
  }

  lemma TestnMaskLanes(z0: bool, z1: bool, z2: bool, z3: bool, z4: bool, z5: bool, z6: bool, z7: bool)
    ensures var m := TestnMask(z0, z1, z2, z3, z4, z5, z6, z7);
            && (m & 1 == 0 <==> !z0) && (m & 2 == 0 <==> !z1) && (m & 4 == 0 <==> !z2) && (m & 8 == 0 <==> !z3)
            && (m & 16 == 0 <==> !z4) && (m & 32 == 0 <==> !z5) && (m & 64 == 0 <==> !z6) && (m & 128 == 0 <==> !z7)
            && (m == 0xff <==> z0 && z1 && z2 && z3 && z4 && z5 && z6 && z7)
  {
  }

  /** One round of the AVX-512 scan. */
  method RoundAvx512<W>(test: Test<W>, v: seq<W>, c: seq<W>, i: nat) returns (hot: bool)
    requires |v| == |c| && i + 8 <= |c|
    ensures hot <==> exists j :: i <= j < i + 8 && test.Hot(c[j], v[j])
  {
    var mask := TestnMask(test.zero(c[i]), test.zero(c[i + 1]), test.zero(c[i + 2]), test.zero(c[i + 3]),
                          test.zero(c[i + 4]), test.zero(c[i + 5]), test.zero(c[i + 6]), test.zero(c[i + 7]));
    TestnMaskLanes(test.zero(c[i]), test.zero(c[i + 1]), test.zero(c[i + 2]), test.zero(c[i + 3]),
                   test.zero(c[i + 4]), test.zero(c[i + 5]), test.zero(c[i + 6]), test.zero(c[i + 7]));
    if mask == 0xff {
      return false;
    }
    if mask & 1 == 0 && test.meets(c[i], v[i]) { return true; }
    if mask & 2 == 0 && test.meets(c[i + 1], v[i + 1]) { return true; }
    if mask & 4 == 0 && test.meets(c[i + 2], v[i + 2]) { return true; }
    if mask & 8 == 0 && test.meets(c[i + 3], v[i + 3]) { return true; }
    if mask & 16 == 0 && test.meets(c[i + 4], v[i + 4]) { return true; }
    if mask & 32 == 0 && test.meets(c[i + 5], v[i + 5]) { return true; }
    if mask & 64 == 0 && test.meets(c[i + 6], v[i + 6]) { return true; }
    if mask & 128 == 0 && test.meets(c[i + 7], v[i + 7]) { return true; }
    return false;
  }

  /** The AVX-512 scan; its loop ends only on an exact multiple. */
  method ScanAvx512<W>(test: Test<W>, virgin: seq<W>, current: seq<W>) returns (r: int)
    requires |virgin| == |current| && |current| % 8 == 0
    ensures r == if test.AnyHot(current, virgin) then 1 else 0
  {
    var i := 0;
    while i != |current|
      invariant 0 <= i <= |current| && i % 8 == 0
      invariant forall j :: 0 <= j < i ==> !test.Hot(current[j], virgin[j])
      decreases |current| - i
    {
      var hot := RoundAvx512(test, virgin, current, i);
      if hot {
        return 1;
      }
      i := i + 8;
    }
    return 0;
  }

  datatype Target = Portable | Avx2 | Avx512

  /** PACK_SIZE in 64-bit words. */
  function PackWords(target: Target): nat {
    if target.Avx512? then 8 else 4
  }

  /** skim, 64 bits: whatever the vector unit, 1 exactly when the classified map would get a verdict. */
  method Skim64(target: Target, t: PairTable, virgin: seq<Word64>, current: seq<Word64>) returns (r: int)
    requires |virgin| == |current| && |current| % PackWords(target) == 0
    ensures r == if Verdict(Bytes64(ClassifiedMap64(t, current)), Bytes64(virgin)) != 0 then 1 else 0
  {
    AnyHotIsVerdict64(t, current, virgin);
    match target
    case Portable => r := Scan(Test64(t), virgin, current);
    case Avx2 => r := ScanAvx2(Test64(t), virgin, current);
    case Avx512 => r := ScanAvx512(Test64(t), virgin, current);
  }

  /** skim, 32 bits. */
  method Skim32(t: PairTable, virgin: seq<Word32>, current: seq<Word32>) returns (r: int)
    requires |virgin| == |current| && |current| % 4 == 0
    ensures r == if Verdict(Bytes32(ClassifiedMap32(t, current)), Bytes32(virgin)) != 0 then 1 else 0
  {
    AnyHotIsVerdict32(t, current, virgin);
    r := Scan(Test32(t), virgin, current);
  }

  // ----- 32 and 64 bits -----

  function LowHalf(w: Word64): Word32 {
    Word32(w.b0, w.b1, w.b2, w.b3)
  }

  function HighHalf(w: Word64): Word32 {
    Word32(w.b4, w.b5, w.b6, w.b7)
  }

  /** A 64-bit map as 32-bit words. */
  function Halves(ws: seq<Word64>): (r: seq<Word32>)
    ensures |r| == 2 * |ws|
  {
    if ws == [] then []
    else
      Halves(ws[..|ws| - 1]) + [LowHalf(ws[|ws| - 1])] + [HighHalf(ws[|ws| - 1])]
  }

  lemma BytesOfHalves(w: Word64)
    ensures BytesOf64(w) == BytesOf32(LowHalf(w)) + BytesOf32(HighHalf(w))
  {
  }

  lemma Bytes32Append(hs: seq<Word32>, h: Word32)
    ensures Bytes32(hs + [h]) == Bytes32(hs) + BytesOf32(h)
  {
    assert (hs + [h])[..|hs|] == hs;
  }

  lemma HalvesAppend(hs: seq<Word32>, w: Word64)
    ensures Bytes32(hs + [LowHalf(w)] + [HighHalf(w)]) == Bytes32(hs) + BytesOf64(w)
  {
    Bytes32Append(hs, LowHalf(w));
    Bytes32Append(hs + [LowHalf(w)], HighHalf(w));
    BytesOfHalves(w);
  }

  /** Both kernels look at the same bytes. */
  lemma {:induction false} SameBytes(ws: seq<Word64>)
    ensures Bytes32(Halves(ws)) == Bytes64(ws)
  {
    if ws != [] {
      var before, w := ws[..|ws| - 1], ws[|ws| - 1];
      SameBytes(before);
      HalvesAppend(Halves(before), w);
    }
  }

  lemma ClassifyHalf(t: PairTable, w: Word64)
    requires t(0, 0) == (0, 0)
    ensures LowHalf(Classified64(t, w)) == Classified32(t, LowHalf(w))
    ensures HighHalf(Classified64(t, w)) == Classified32(t, HighHalf(w))
  {
  }

  lemma Classified32Append(t: PairTable, hs: seq<Word32>, h: Word32)
    ensures ClassifiedMap32(t, hs + [h]) == ClassifiedMap32(t, hs) + [Classified32(t, h)]
  {
  }

  lemma {:induction false} ClassifyHalves(t: PairTable, ws: seq<Word64>)
    requires t(0, 0) == (0, 0)
    ensures ClassifiedMap32(t, Halves(ws)) == Halves(ClassifiedMap64(t, ws))
  {
    if ws != [] {
      var n := |ws| - 1;
      var before, w := ws[..n], ws[n];
      ClassifyHalves(t, before);
      ClassifyHalf(t, w);
      Classified32Append(t, Halves(before), LowHalf(w));
      Classified32Append(t, Halves(before) + [LowHalf(w)], HighHalf(w));
      assert ClassifiedMap64(t, ws)[..n] == ClassifiedMap64(t, before);
    }
  }

  /** The two kernels classify alike exactly when the table maps zero to zero: a word with one silent half is
      classified as a whole by the wide kernel only. */
  lemma ClassifyAgrees(t: PairTable)
    ensures t(0, 0) == (0, 0) <==>
            forall ws: seq<Word64> :: Bytes32(ClassifiedMap32(t, Halves(ws))) == Bytes64(ClassifiedMap64(t, ws))
  {
    if t(0, 0) == (0, 0) {
      forall ws: seq<Word64>
        ensures Bytes32(ClassifiedMap32(t, Halves(ws))) == Bytes64(ClassifiedMap64(t, ws))
      {
        ClassifyHalves(t, ws);
        SameBytes(ClassifiedMap64(t, ws));
      }
    } else {
      ClassifyDiffers(t);
    }
  }

  /** One hit in the low half, none in the high half. */
  const LOPSIDED := Word64(1, 0, 0, 0, 0, 0, 0, 0)

  lemma ClassifyDiffers(t: PairTable)
    requires t(0, 0) != (0, 0)
    ensures Bytes32(ClassifiedMap32(t, Halves([LOPSIDED]))) != Bytes64(ClassifiedMap64(t, [LOPSIDED]))
  {
    var w := LOPSIDED;
    assert Halves([w]) == [Word32(1, 0, 0, 0), ZERO32] by {
      assert [w][..0] == [];
    }
    var narrow := ClassifiedMap32(t, [Word32(1, 0, 0, 0), ZERO32]);
    assert narrow[1] == ZERO32;
    assert narrow[..2] == narrow && narrow[..1] == [narrow[0]];
    assert Bytes32(narrow)[4] == 0 && Bytes32(narrow)[5] == 0;
    var wide := ClassifiedMap64(t, [w]);
    assert Bytes64(wide)[4] == t(0, 0).0 && Bytes64(wide)[5] == t(0, 0).1;
  }
}
