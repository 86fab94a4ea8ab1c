/** has_new_bits_unclassified: the read-only scan in front of classification and has_new_bits. */
module CoverageShortcut {
  import opened CoverageBytes
  import opened CoverageWords
  import opened CoverageSkim

  // ----- 64 bits -----

  /** Taking the last element off, before or after the cut. */
  lemma LastOff<W>(ws: seq<W>, n: nat)
    requires n < |ws|
    ensures var m := |ws| - 1;
            ws[..m][..n] == ws[..n] && ws[..m][n..] == ws[n..][..m - n] && ws[n..][m - n] == ws[m]
  {
  }

  lemma {:induction false} Bytes64Split(ws: seq<Word64>, n: nat)
    requires n <= |ws|
    ensures Bytes64(ws) == Bytes64(ws[..n]) + Bytes64(ws[n..])
  {
    if n == |ws| {
      assert ws[..n] == ws && ws[n..] == [];
    } else {
      var m := |ws| - 1;
      Bytes64Split(ws[..m], n);
      LastOff(ws, n);
    }
  }

  /** The verdict of the first n words, and that of the others. */
  function Front64(trace: seq<Word64>, virgin: seq<Word64>, n: nat): nat
    requires |trace| == |virgin| && n <= |trace|
  {
    Verdict(Bytes64(trace[..n]), Bytes64(virgin[..n]))
  }

  function Back64(trace: seq<Word64>, virgin: seq<Word64>, n: nat): nat
    requires |trace| == |virgin| && n <= |trace|
  {
    Verdict(Bytes64(trace[n..]), Bytes64(virgin[n..]))
  }

  lemma VerdictSplit64(trace: seq<Word64>, virgin: seq<Word64>, n: nat)
    requires |trace| == |virgin| && n <= |trace|
    ensures Verdict(Bytes64(trace), Bytes64(virgin)) == Max(Front64(trace, virgin, n), Back64(trace, virgin, n))
    ensures Front64(trace, virgin, n) == 0 ==> Clear(Bytes64(virgin[..n]), Bytes64(trace[..n])) == Bytes64(virgin[..n])
  {
    Bytes64Split(trace, n);
    Bytes64Split(virgin, n);
    VerdictConcat(Bytes64(trace[..n]), Bytes64(trace[n..]), Bytes64(virgin[..n]), Bytes64(virgin[n..]));
    VerdictZero(Bytes64(trace[..n]), Bytes64(virgin[..n]));
    if Front64(trace, virgin, n) == 0 {
      NothingToClear(Bytes64(trace[..n]), Bytes64(virgin[..n]));
    }
  }

  /** A zero result leaves the trace alone, unless only words out of use show something new and the table changes
      some word. */
  predicate KeepsTrace64(t: PairTable, trace: seq<Word64>, virgin: seq<Word64>, words: nat)
    requires |trace| == |virgin| && words <= |trace|
  {
    var classified := ClassifiedMap64(t, trace);
    Front64(classified, virgin, words) != 0 || Back64(classified, virgin, words) == 0 || classified == trace
  }

  /** has_new_bits_unclassified, 64 bits: the scan looks at the whole map, the slow path at the words in use. The
      shortcut changes neither the verdict nor the virgin map. */
  method HasNewBitsUnclassified64(target: Target, t: PairTable, trace: array<Word64>, virgin: array<Word64>, words: nat)
    returns (ret: nat)
    requires trace.Length == virgin.Length && trace.Length % PackWords(target) == 0 && trace != virgin
    requires words <= trace.Length
    modifies trace, virgin
    ensures var classified := ClassifiedMap64(t, old(trace[..]));
            && ret == Front64(classified, old(virgin[..]), words)
            && Bytes64(virgin[..words]) == Clear(Bytes64(old(virgin[..])[..words]), Bytes64(classified[..words]))
            && virgin[words..] == old(virgin[words..])
            && trace[..] == if Verdict(Bytes64(classified), Bytes64(old(virgin[..]))) != 0 then classified
                            else old(trace[..])
    ensures (ret == 0 ==> trace[..] == old(trace[..])) <==> KeepsTrace64(t, old(trace[..]), old(virgin[..]), words)
  {
    VerdictSplit64(ClassifiedMap64(t, trace[..]), virgin[..], words);
    assert old(virgin[..])[..words] == virgin[..words];
    var skimmed := Skim64(target, t, virgin[..], trace[..]);
    if skimmed == 0 {
      return 0;
    }
    ClassifyCounts64(t, trace);
    ret := HasNewBits64(trace[..], virgin, words);
  }

  // ----- 32 bits -----

  lemma {:induction false} Bytes32Split(ws: seq<Word32>, n: nat)
    requires n <= |ws|
    ensures Bytes32(ws) == Bytes32(ws[..n]) + Bytes32(ws[n..])
  {
    if n == |ws| {
      assert ws[..n] == ws && ws[n..] == [];
    } else {
      var m := |ws| - 1;
      Bytes32Split(ws[..m], n);
      LastOff(ws, n);
    }
  }

  /** The verdict of the first n words, and that of the others. */
  function Front32(trace: seq<Word32>, virgin: seq<Word32>, n: nat): nat
    requires |trace| == |virgin| && n <= |trace|
  {
    Verdict(Bytes32(trace[..n]), Bytes32(virgin[..n]))
  }

  function Back32(trace: seq<Word32>, virgin: seq<Word32>, n: nat): nat
    requires |trace| == |virgin| && n <= |trace|
  {
    Verdict(Bytes32(trace[n..]), Bytes32(virgin[n..]))
  }

  lemma VerdictSplit32(trace: seq<Word32>, virgin: seq<Word32>, n: nat)
    requires |trace| == |virgin| && n <= |trace|
    ensures Verdict(Bytes32(trace), Bytes32(virgin)) == Max(Front32(trace, virgin, n), Back32(trace, virgin, n))
    ensures Front32(trace, virgin, n) == 0 ==> Clear(Bytes32(virgin[..n]), Bytes32(trace[..n])) == Bytes32(virgin[..n])
  {
    Bytes32Split(trace, n);
    Bytes32Split(virgin, n);
    VerdictConcat(Bytes32(trace[..n]), Bytes32(trace[n..]), Bytes32(virgin[..n]), Bytes32(virgin[n..]));
    VerdictZero(Bytes32(trace[..n]), Bytes32(virgin[..n]));
    if Front32(trace, virgin, n) == 0 {
      NothingToClear(Bytes32(trace[..n]), Bytes32(virgin[..n]));
    }
  }

  /** A zero result leaves the trace alone, unless only words out of use show something new and the table changes
      some word. */
  predicate KeepsTrace32(t: PairTable, trace: seq<Word32>, virgin: seq<Word32>, words: nat)
    requires |trace| == |virgin| && words <= |trace|
  {
    var classified := ClassifiedMap32(t, trace);
    Front32(classified, virgin, words) != 0 || Back32(classified, virgin, words) == 0 || classified == trace
  }

  /** has_new_bits_unclassified, 32 bits: the scan looks at the whole map, the slow path at the words in use. The
      shortcut changes neither the verdict nor the virgin map. */
  method HasNewBitsUnclassified32(t: PairTable, trace: array<Word32>, virgin: array<Word32>, words: nat)
    returns (ret: nat)
    requires trace.Length == virgin.Length && trace.Length % 4 == 0 && trace != virgin
    requires words <= trace.Length
    modifies trace, virgin
    ensures var classified := ClassifiedMap32(t, old(trace[..]));
            && ret == Front32(classified, old(virgin[..]), words)
            && Bytes32(virgin[..words]) == Clear(Bytes32(old(virgin[..])[..words]), Bytes32(classified[..words]))
            && virgin[words..] == old(virgin[words..])
            && trace[..] == if Verdict(Bytes32(classified), Bytes32(old(virgin[..]))) != 0 then classified
                            else old(trace[..])
    ensures (ret == 0 ==> trace[..] == old(trace[..])) <==> KeepsTrace32(t, old(trace[..]), old(virgin[..]), words)
  {
    VerdictSplit32(ClassifiedMap32(t, trace[..]), virgin[..], words);
    assert old(virgin[..])[..words] == virgin[..words];
    var skimmed := Skim32(t, virgin[..], trace[..]);
    if skimmed == 0 {
      return 0;
    }
    ClassifyCounts32(t, trace);
    ret := HasNewBits32(trace[..], virgin, words);
  }

  // ----- Where a zero result does not leave the trace alone -----

  /** A table that puts a count of 3 into the bucket of 4. */
  function Bucket(b: byte): byte {
    if b == 3 then 4 else b
  }

  function BucketPair(lo: byte, hi: byte): (byte, byte) {
    (Bucket(lo), Bucket(hi))
  }

  const UNTOUCHED: Word64 := Word64(0xff, 0xff, 0xff, 0xff, 0xff, 0xff, 0xff, 0xff)
  const THREE: Word64 := Word64(3, 0, 0, 0, 0, 0, 0, 0)
  const FOUR: Word64 := Word64(4, 0, 0, 0, 0, 0, 0, 0)

  lemma ThreeIsNew()
    ensures Classified64(BucketPair, THREE) == FOUR && Verdict(BytesOf64(FOUR), BytesOf64(UNTOUCHED)) == 2
  {
    assert NewTuple(BytesOf64(FOUR)[0], BytesOf64(UNTOUCHED)[0]);
  }

  lemma OneWord(w: Word64)
    ensures Bytes64([w]) == BytesOf64(w)
  {
    assert [w][..0] == [];
  }

  /** Eight words, the only hit in the last one. */
  function OnlyInLast(hit: Word64): (trace: seq<Word64>)
    ensures |trace| == 8 && trace[7] == hit
  {
    [ZERO64, ZERO64, ZERO64, ZERO64, ZERO64, ZERO64, ZERO64, hit]
  }

  lemma OnlyTheLastIsNew(classified: seq<Word64>, virgin: seq<Word64>)
    requires classified == OnlyInLast(FOUR) && |virgin| == 8 && virgin[7] == UNTOUCHED
    ensures Front64(classified, virgin, 7) == 0 && Verdict(Bytes64(classified), Bytes64(virgin)) != 0
  {
    ThreeIsNew();
    NothingInZeroWords(classified[..7], virgin[..7]);
    assert classified[7..] == [FOUR] && virgin[7..] == [UNTOUCHED];
    OneWord(FOUR);
    OneWord(UNTOUCHED);
    VerdictSplit64(classified, virgin, 7);
  }

  lemma ClassifiedHit()
    ensures ClassifiedMap64(BucketPair, OnlyInLast(THREE)) == OnlyInLast(FOUR)
  {
    ThreeIsNew();
  }

  /** With seven of the words in use the result is 0, yet the hit was rewritten. */
  method ShowRewrittenTrace(target: Target, trace: array<Word64>, virgin: array<Word64>) returns (ret: nat)
    requires trace[..] == OnlyInLast(THREE) && virgin.Length == 8 && virgin[7] == UNTOUCHED && trace != virgin
    modifies trace, virgin
    ensures ret == 0 && trace[..] == OnlyInLast(FOUR)
  {
    ClassifiedHit();
    OnlyTheLastIsNew(ClassifiedMap64(BucketPair, trace[..]), virgin[..]);
    ret := HasNewBitsUnclassified64(target, BucketPair, trace, virgin, 7);
  }

  /** The promise holds of every trace that is silent behind the words in use. */
  lemma SilentBehindKeeps(t: PairTable, trace: seq<Word64>, virgin: seq<Word64>, words: nat)
    requires |trace| == |virgin| && words <= |trace| && forall i :: words <= i < |trace| ==> trace[i] == ZERO64
    ensures KeepsTrace64(t, trace, virgin, words)
  {
    NothingInZeroWords(ClassifiedMap64(t, trace)[words..], virgin[words..]);
  }

  lemma {:induction false} NothingInZeroWords(trace: seq<Word64>, virgin: seq<Word64>)
    requires |trace| == |virgin| && forall i :: 0 <= i < |trace| ==> trace[i] == ZERO64
    ensures Verdict(Bytes64(trace), Bytes64(virgin)) == 0
  {
    if trace != [] {
      var n := |trace| - 1;
      NothingInZeroWords(trace[..n], virgin[..n]);
      ZeroWord64(virgin[n]);
      VerdictConcat(Bytes64(trace[..n]), BytesOf64(trace[n]), Bytes64(virgin[..n]), BytesOf64(virgin[n]));
    }
  }
}
