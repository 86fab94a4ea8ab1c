/** The coverage kernels over many traces, and the two kernels side by side. */
module CoverageCampaign {
  import opened Words
  import opened CoverageBytes
  import opened CoverageWords
  import opened CoverageSkim
  import opened CoverageShortcut

  lemma OneMore<T>(s: seq<T>, i: nat)
    requires i < |s|
    ensures s[..i + 1] == s[..i] + [s[i]]
  {
  }

  lemma Ends<T>(s: seq<T>)
    ensures s[..0] == [] && s[..|s|] == s
  {
  }

  /** All traces cover the map. */
  ghost predicate Cover(traces: seq<seq<byte>>, n: nat) {
    forall t :: t in traces ==> |t| == n
  }

  /** After some traces: the verdicts so far, and the map as it is now. */
  ghost predicate Reached(virgin: seq<byte>, traces: seq<seq<byte>>, verdicts: seq<nat>, now: seq<byte>) {
    Cover(traces, |virgin|) && verdicts == Verdicts(virgin, traces) && now == VirginAfter(virgin, traces)
  }

  lemma ReachedStart(virgin: seq<byte>)
    ensures Reached(virgin, [], [], virgin)
  {
  }

  /** One more trace. */
  lemma ReachedNext(virgin: seq<byte>, traces: seq<seq<byte>>, verdicts: seq<nat>, now: seq<byte>, last: seq<byte>)
    requires Reached(virgin, traces, verdicts, now) && |last| == |virgin|
    ensures |now| == |virgin| && Reached(virgin, traces + [last], verdicts + [Verdict(last, now)], Clear(now, last))
  {
    var all := traces + [last];
    assert all[..|all| - 1] == traces && all[|all| - 1] == last;
  }

  /** What the whole campaign amounts to. */
  lemma ReachedEnd(virgin: seq<byte>, traces: seq<seq<byte>>, verdicts: seq<nat>, now: seq<byte>)
    requires Reached(virgin, traces, verdicts, now)
    ensures now == Clear(virgin, Seen(traces, |virgin|))
    ensures |verdicts| - multiset(verdicts)[0] + SetBits(now) <= SetBits(virgin)
    ensures multiset(verdicts)[2] + Pristine(now) <= Pristine(virgin)
  {
    VirginIsInitialMinusSeen(virgin, traces);
    CampaignBounds(virgin, traces);
  }

  // ----- 64 bits -----

  /** What each trace shows in its first n words. */
  function Used64(traces: seq<seq<Word64>>, n: nat): (r: seq<seq<byte>>)
    requires forall i :: 0 <= i < |traces| ==> n <= |traces[i]|
    ensures |r| == |traces|
    ensures forall i :: 0 <= i < |r| ==> r[i] == Bytes64(traces[i][..n])
    ensures forall t :: t in r ==> |t| == 8 * n
  {
    seq(|traces|, i requires 0 <= i < |traces| => Bytes64(traces[i][..n]))
  }

  /** One trace of a campaign. */
  method Visit64(trace: seq<Word64>, virgin: array<Word64>, words: nat, ghost before: seq<byte>,
                 ghost used: seq<seq<byte>>, ghost verdicts: seq<nat>)
    returns (verdict: nat)
    requires virgin.Length == |trace| && words <= |trace| && |before| == 8 * words
    requires Reached(before, used, verdicts, Bytes64(virgin[..words]))
    modifies virgin
    ensures Reached(before, used + [Bytes64(trace[..words])], verdicts + [verdict], Bytes64(virgin[..words]))
    ensures virgin[words..] == old(virgin[words..])
  {
    ReachedNext(before, used, verdicts, Bytes64(virgin[..words]), Bytes64(trace[..words]));
    verdict := HasNewBits64(trace, virgin, words);
  }

  /** One campaign: has_new_bits on trace after trace. The verdicts and the virgin map are those of the byte-wise
      definition; the map is its initial value with all seen bits cleared; non-zero verdicts use up its bits,
      verdicts of 2 its untouched bytes. */
  method Campaign64(traces: seq<seq<Word64>>, virgin: array<Word64>, words: nat) returns (verdicts: seq<nat>)
    requires words <= virgin.Length && forall i :: 0 <= i < |traces| ==> |traces[i]| == virgin.Length
    modifies virgin
    ensures var before, used := Bytes64(old(virgin[..words])), Used64(traces, words);
            var after := Bytes64(virgin[..words]);
            && verdicts == Verdicts(before, used)
            && after == Clear(before, Seen(used, |before|))
            && |verdicts| - multiset(verdicts)[0] + SetBits(after) <= SetBits(before)
            && multiset(verdicts)[2] + Pristine(after) <= Pristine(before)
    ensures virgin[words..] == old(virgin[words..])
  {
    ghost var before, used := Bytes64(virgin[..words]), Used64(traces, words);
    verdicts := [];
    ReachedStart(before);
    Ends(used);
    for i := 0 to |traces|
      invariant virgin[words..] == old(virgin[words..])
      invariant Reached(before, used[..i], verdicts, Bytes64(virgin[..words]))
    {
      var verdict := Visit64(traces[i], virgin, words, before, used[..i], verdicts);
      OneMore(used, i);
      verdicts := verdicts + [verdict];
    }
    ReachedEnd(before, used, verdicts, Bytes64(virgin[..words]));
  }

  // ----- 32 bits -----

  /** What each trace shows in its first n words. */
  function Used32(traces: seq<seq<Word32>>, n: nat): (r: seq<seq<byte>>)
    requires forall i :: 0 <= i < |traces| ==> n <= |traces[i]|
    ensures |r| == |traces|
    ensures forall i :: 0 <= i < |r| ==> r[i] == Bytes32(traces[i][..n])
    ensures forall t :: t in r ==> |t| == 4 * n
  {
    seq(|traces|, i requires 0 <= i < |traces| => Bytes32(traces[i][..n]))
  }

  /** One trace of a campaign. */
  method Visit32(trace: seq<Word32>, virgin: array<Word32>, words: nat, ghost before: seq<byte>,
                 ghost used: seq<seq<byte>>, ghost verdicts: seq<nat>)
    returns (verdict: nat)
    requires virgin.Length == |trace| && words <= |trace| && |before| == 4 * words
    requires Reached(before, used, verdicts, Bytes32(virgin[..words]))
    modifies virgin
    ensures Reached(before, used + [Bytes32(trace[..words])], verdicts + [verdict], Bytes32(virgin[..words]))
    ensures virgin[words..] == old(virgin[words..])
  {
    ReachedNext(before, used, verdicts, Bytes32(virgin[..words]), Bytes32(trace[..words]));
    verdict := HasNewBits32(trace, virgin, words);
  }

  /** One campaign: has_new_bits on trace after trace. The verdicts and the virgin map are those of the byte-wise
      definition; the map is its initial value with all seen bits cleared; non-zero verdicts use up its bits,
      verdicts of 2 its untouched bytes. */
  method Campaign32(traces: seq<seq<Word32>>, virgin: array<Word32>, words: nat) returns (verdicts: seq<nat>)
    requires words <= virgin.Length && forall i :: 0 <= i < |traces| ==> |traces[i]| == virgin.Length
    modifies virgin
    ensures var before, used := Bytes32(old(virgin[..words])), Used32(traces, words);
            var after := Bytes32(virgin[..words]);
            && verdicts == Verdicts(before, used)
            && after == Clear(before, Seen(used, |before|))
            && |verdicts| - multiset(verdicts)[0] + SetBits(after) <= SetBits(before)
            && multiset(verdicts)[2] + Pristine(after) <= Pristine(before)
    ensures virgin[words..] == old(virgin[words..])
  {
    ghost var before, used := Bytes32(virgin[..words]), Used32(traces, words);
    verdicts := [];
    ReachedStart(before);
    Ends(used);
    for i := 0 to |traces|
      invariant virgin[words..] == old(virgin[words..])
      invariant Reached(before, used[..i], verdicts, Bytes32(virgin[..words]))
    {
      var verdict := Visit32(traces[i], virgin, words, before, used[..i], verdicts);
      OneMore(used, i);
      verdicts := verdicts + [verdict];
    }
    ReachedEnd(before, used, verdicts, Bytes32(virgin[..words]));
  }

  // ----- Both kernels on the same map -----

  /** The words that has_new_bits visits for a map of `size` bytes. */
  function Visited64(size: nat): nat {
    (size + 7) / 8
  }

  function Visited32(size: nat): nat {
    (size + 3) / 4
  }

  /** The last word of the wide kernel reaches four bytes further than that of the narrow one. */
  predicate Overhangs(size: nat) {
    1 <= size % 8 <= 4
  }

  lemma {:induction false} HalvesSplit(ws: seq<Word64>, n: nat)
    requires n <= |ws|
    ensures Halves(ws) == Halves(ws[..n]) + Halves(ws[n..])
  {
    if n == |ws| {
      assert ws[..n] == ws && ws[n..] == [];
    } else {
      var m := |ws| - 1;
      HalvesSplit(ws[..m], n);
      LastOff(ws, n);
    }
  }

  lemma CutOf<T>(whole: seq<T>, a: seq<T>, lo: T, hi: T, c: seq<T>, k: nat)
    requires whole == a + [lo] + [hi] + c && k == |a| + 1
    ensures whole[..k] == a + [lo] && whole[k..] == [hi] + c
  {
  }

  lemma HalvesLast(ws: seq<Word64>, n: nat)
    requires n < |ws|
    ensures Halves(ws[..n + 1]) == Halves(ws[..n]) + [LowHalf(ws[n])] + [HighHalf(ws[n])]
  {
    assert ws[..n + 1][..n] == ws[..n];
  }

  lemma HalvesParts(ws: seq<Word64>, n: nat)
    requires n < |ws|
    ensures Halves(ws) == Halves(ws[..n]) + [LowHalf(ws[n])] + [HighHalf(ws[n])] + Halves(ws[n + 1..])
  {
    HalvesSplit(ws, n + 1);
    HalvesLast(ws, n);
  }

  /** The narrow words of a wide one that is cut in the middle. */
  lemma HalvesCut(ws: seq<Word64>, n: nat)
    requires n < |ws|
    ensures Halves(ws)[..2 * n + 1] == Halves(ws[..n]) + [LowHalf(ws[n])]
    ensures Halves(ws)[2 * n + 1..] == [HighHalf(ws[n])] + Halves(ws[n + 1..])
  {
    HalvesParts(ws, n);
    CutOf(Halves(ws), Halves(ws[..n]), LowHalf(ws[n]), HighHalf(ws[n]), Halves(ws[n + 1..]), 2 * n + 1);
  }

  lemma BytesCut(ws: seq<Word64>, n: nat)
    requires n < |ws|
    ensures Bytes64(ws[..n + 1]) == Bytes32(Halves(ws)[..2 * n + 1]) + BytesOf32(HighHalf(ws[n]))
  {
    HalvesCut(ws, n);
    HalvesLast(ws, n);
    SameBytes(ws[..n + 1]);
    Bytes32Append(Halves(ws[..n]) + [LowHalf(ws[n])], HighHalf(ws[n]));
  }

  lemma ClearedIffNew(virgin: seq<byte>, trace: seq<byte>)
    requires |virgin| == |trace|
    ensures Clear(virgin, trace) == virgin <==> Verdict(trace, virgin) == 0
  {
    VerdictZero(trace, virgin);
    if Verdict(trace, virgin) == 0 {
      NothingToClear(trace, virgin);
    } else {
      var i :| 0 <= i < |trace| && NewBits(trace[i], virgin[i]);
      NewBitIsCleared(trace[i], virgin[i]);
      assert Clear(virgin, trace)[i] == ClearByte(virgin[i], trace[i]);
    }
  }

  lemma NewBitIsCleared(t: byte, v: byte)
    requires NewBits(t, v)
    ensures ClearByte(v, t) != v
  {
  }

  /** What has_new_bits leaves of a map, as bytes: the visited words cleared, the others as they were. */
  lemma Left64(trace: seq<Word64>, before: seq<Word64>, after: seq<Word64>, words: nat)
    requires |trace| == |before| == |after| && words <= |trace| && after[words..] == before[words..]
    requires Bytes64(after[..words]) == Clear(Bytes64(before[..words]), Bytes64(trace[..words]))
    ensures Bytes64(after) == Clear(Bytes64(before[..words]), Bytes64(trace[..words])) + Bytes64(before[words..])
  {
    Bytes64Split(after, words);
  }

  lemma Left32(trace: seq<Word32>, before: seq<Word32>, after: seq<Word32>, words: nat)
    requires |trace| == |before| == |after| && words <= |trace| && after[words..] == before[words..]
    requires Bytes32(after[..words]) == Clear(Bytes32(before[..words]), Bytes32(trace[..words]))
    ensures Bytes32(after) == Clear(Bytes32(before[..words]), Bytes32(trace[..words])) + Bytes32(before[words..])
  {
    Bytes32Split(after, words);
  }

  /** Where the two kernels visit the same bytes. */
  lemma SameVisit(trace: seq<Word64>, before: seq<Word64>, n: nat)
    requires |trace| == |before| && n <= |trace|
    ensures Bytes32(Halves(trace)[..2 * n]) == Bytes64(trace[..n])
    ensures Bytes32(Halves(before)[..2 * n]) == Bytes64(before[..n])
    ensures Bytes32(Halves(before)[2 * n..]) == Bytes64(before[n..])
  {
    HalvesSplit(trace, n);
    HalvesSplit(before, n);
    assert Halves(trace)[..2 * n] == Halves(trace[..n]);
    assert Halves(before)[..2 * n] == Halves(before[..n]) && Halves(before)[2 * n..] == Halves(before[n..]);
    SameBytes(trace[..n]);
    SameBytes(before[..n]);
    SameBytes(before[n..]);
  }

  /** The four bytes by which the wide kernel overhangs. */
  function Overhang(ws: seq<Word64>, n: nat): seq<byte>
    requires n < |ws|
  {
    BytesOf32(HighHalf(ws[n]))
  }

  /** Where the wide kernel overhangs by half a word: the verdicts, and the maps. */
  lemma CutVerdict(trace: seq<Word64>, before: seq<Word64>, n: nat)
    requires |trace| == |before| && n < |trace|
    ensures Verdict(Bytes64(trace[..n + 1]), Bytes64(before[..n + 1])) ==
            Max(Verdict(Bytes32(Halves(trace)[..2 * n + 1]), Bytes32(Halves(before)[..2 * n + 1])),
                Verdict(Overhang(trace, n), Overhang(before, n)))
  {
    BytesCut(trace, n);
    BytesCut(before, n);
    VerdictConcat(Bytes32(Halves(trace)[..2 * n + 1]), Overhang(trace, n), Bytes32(Halves(before)[..2 * n + 1]),
                  Overhang(before, n));
  }

  lemma CutClear(trace: seq<Word64>, before: seq<Word64>, n: nat)
    requires |trace| == |before| && n < |trace|
    ensures Clear(Bytes64(before[..n + 1]), Bytes64(trace[..n + 1])) ==
            Clear(Bytes32(Halves(before)[..2 * n + 1]), Bytes32(Halves(trace)[..2 * n + 1]))
            + Clear(Overhang(before, n), Overhang(trace, n))
  {
    BytesCut(trace, n);
    BytesCut(before, n);
    ClearConcat(Bytes32(Halves(before)[..2 * n + 1]), Overhang(before, n), Bytes32(Halves(trace)[..2 * n + 1]),
                Overhang(trace, n));
  }

  lemma CutRest(before: seq<Word64>, n: nat)
    requires n < |before|
    ensures Bytes32(Halves(before)[2 * n + 1..]) == Overhang(before, n) + Bytes64(before[n + 1..])
  {
    HalvesCut(before, n);
    FirstWord32(HighHalf(before[n]), Halves(before[n + 1..]));
    SameBytes(before[n + 1..]);
  }

  lemma FirstWord32(w: Word32, ws: seq<Word32>)
    ensures Bytes32([w] + ws) == BytesOf32(w) + Bytes32(ws)
  {
    Bytes32Split([w] + ws, 1);
    assert ([w] + ws)[..1] == [w] && ([w] + ws)[1..] == ws && [w][..0] == [];
  }

  /** What has_new_bits makes of a map, as bytes. */
  ghost predicate Result64(trace: seq<Word64>, before: seq<Word64>, words: nat, r: nat, after: seq<byte>) {
    && |trace| == |before| && words <= |trace|
    && r == Verdict(Bytes64(trace[..words]), Bytes64(before[..words]))
    && after == Clear(Bytes64(before[..words]), Bytes64(trace[..words])) + Bytes64(before[words..])
  }

  ghost predicate Result32(trace: seq<Word32>, before: seq<Word32>, words: nat, r: nat, after: seq<byte>) {
    && |trace| == |before| && words <= |trace|
    && r == Verdict(Bytes32(trace[..words]), Bytes32(before[..words]))
    && after == Clear(Bytes32(before[..words]), Bytes32(trace[..words])) + Bytes32(before[words..])
  }

  method Run64(trace: seq<Word64>, virgin: array<Word64>, words: nat) returns (r: nat)
    requires virgin.Length == |trace| && words <= |trace|
    modifies virgin
    ensures Result64(trace, old(virgin[..]), words, r, Bytes64(virgin[..]))
  {
    ghost var before := virgin[..];
    r := HasNewBits64(trace, virgin, words);
    assert virgin[..][..words] == virgin[..words] && before[..words] == old(virgin[..words]);
    assert virgin[..][words..] == virgin[words..] && before[words..] == old(virgin[words..]);
    Left64(trace, before, virgin[..], words);
  }

  method Run32(trace: seq<Word32>, virgin: array<Word32>, words: nat) returns (r: nat)
    requires virgin.Length == |trace| && words <= |trace|
    modifies virgin
    ensures Result32(trace, old(virgin[..]), words, r, Bytes32(virgin[..]))
  {
    ghost var before := virgin[..];
    r := HasNewBits32(trace, virgin, words);
    assert virgin[..][..words] == virgin[..words] && before[..words] == old(virgin[..words]);
    assert virgin[..][words..] == virgin[words..] && before[words..] == old(virgin[words..]);
    Left32(trace, before, virgin[..], words);
  }

  /** The verdict on the bytes that only the wide kernel visits. */
  function More(trace: seq<Word64>, before: seq<Word64>, size: nat): nat
    requires |trace| == |before| && Visited64(size) <= |trace|
  {
    VisitedWords(size);
    if Overhangs(size) then Verdict(Overhang(trace, size / 8), Overhang(before, size / 8)) else 0
  }

  /** Both kernels, on a map of `size` bytes: the wide one's verdict is the larger of the narrow one's and that on
      the bytes it visits alone; the virgin maps agree exactly when there is nothing new in those. */
  method BothKernels(trace: seq<Word64>, v64: array<Word64>, v32: array<Word32>, size: nat)
    returns (r64: nat, r32: nat)
    requires v64.Length == |trace| && v32[..] == Halves(v64[..]) && Visited64(size) <= |trace|
    modifies v64, v32
    ensures Result64(trace, old(v64[..]), Visited64(size), r64, Bytes64(v64[..]))
    ensures Result32(Halves(trace), old(v32[..]), Visited32(size), r32, Bytes32(v32[..]))
    ensures r64 == Max(r32, More(trace, old(v64[..]), size))
    ensures Bytes64(v64[..]) == Bytes32(v32[..]) <==> More(trace, old(v64[..]), size) == 0
  {
    ghost var before := v64[..];
    VisitedWords(size);
    r64 := Run64(trace, v64, Visited64(size));
    r32 := Run32(Halves(trace), v32, Visited32(size));
    AgreeOnBytes(trace, before, Overhangs(size), size / 8, Visited64(size), Visited32(size), r64, r32,
                 Bytes64(v64[..]), Bytes32(v32[..]));
  }

  lemma VisitedWords(size: nat)
    ensures Overhangs(size) ==> Visited64(size) == size / 8 + 1 && Visited32(size) == 2 * (size / 8) + 1
    ensures !Overhangs(size) ==> Visited32(size) == 2 * Visited64(size)
  {
    var q, r := size / 8, size % 8;
    assert size == 8 * q + r;
    if r == 0 {
      DivModUnique(size + 7, 8, q, 7);
      DivModUnique(size + 3, 4, 2 * q, 3);
    } else {
      DivModUnique(size + 7, 8, q + 1, r - 1);
      if r <= 4 {
        DivModUnique(size + 3, 4, 2 * q + 1, r - 1);
      } else {
        DivModUnique(size + 3, 4, 2 * q + 2, r - 5);
      }
    }
  }

  lemma AgreeOnBytes(trace: seq<Word64>, before: seq<Word64>, overhangs: bool, n: nat, w64: nat, w32: nat, r64: nat,
                     r32: nat, wide: seq<byte>, narrow: seq<byte>)
    requires |trace| == |before| && w64 <= |trace|
    requires if overhangs then w64 == n + 1 && w32 == 2 * n + 1 else w32 == 2 * w64
    requires Result64(trace, before, w64, r64, wide)
    requires Result32(Halves(trace), Halves(before), w32, r32, narrow)
    ensures var more := if overhangs then Verdict(Overhang(trace, n), Overhang(before, n)) else 0;
            r64 == Max(r32, more) && (wide == narrow <==> more == 0)
  {
    if overhangs {
      AgreeOverhanging(trace, before, n, r64, r32, wide, narrow);
    } else {
      AgreeEven(trace, before, w64, r64, r32, wide, narrow);
    }
  }

  lemma AgreeEven(trace: seq<Word64>, before: seq<Word64>, n: nat, r64: nat, r32: nat, wide: seq<byte>,
                  narrow: seq<byte>)
    requires |trace| == |before| && n <= |trace|
    requires Result64(trace, before, n, r64, wide)
    requires Result32(Halves(trace), Halves(before), 2 * n, r32, narrow)
    ensures r64 == r32 && wide == narrow
  {
    SameVisit(trace, before, n);
  }

  lemma AgreeOverhanging(trace: seq<Word64>, before: seq<Word64>, n: nat, r64: nat, r32: nat, wide: seq<byte>,
                         narrow: seq<byte>)
    requires |trace| == |before| && n < |trace|
    requires Result64(trace, before, n + 1, r64, wide)
    requires Result32(Halves(trace), Halves(before), 2 * n + 1, r32, narrow)
    ensures r64 == Max(r32, Verdict(Overhang(trace, n), Overhang(before, n)))
    ensures wide == narrow <==> Verdict(Overhang(trace, n), Overhang(before, n)) == 0
  {
    CutVerdict(trace, before, n);
    CutClear(trace, before, n);
    CutRest(before, n);
    CutAgrees(Clear(Bytes32(Halves(before)[..2 * n + 1]), Bytes32(Halves(trace)[..2 * n + 1])), Overhang(trace, n),
              Overhang(before, n), Bytes64(before[n + 1..]), wide, narrow);
  }

  /** A common front, then bytes that only the wide map had cleared, then a common rest. */
  lemma CutAgrees(c: seq<byte>, t: seq<byte>, v: seq<byte>, rest: seq<byte>, wide: seq<byte>, narrow: seq<byte>)
    requires |t| == |v| && wide == c + Clear(v, t) + rest && narrow == c + (v + rest)
    ensures wide == narrow <==> Verdict(t, v) == 0
  {
    ClearedIffNew(v, t);
    Middle(c, Clear(v, t), v, rest);
  }

  lemma Middle(a: seq<byte>, b: seq<byte>, c: seq<byte>, d: seq<byte>)
    requires |b| == |c|
    ensures a + b + d == a + (c + d) <==> b == c
  {
    var x, y := a + b + d, a + (c + d);
    assert x[|a|..|a| + |b|] == b && y[|a|..|a| + |b|] == c;
  }

  // ----- Both kernels over many traces -----

  lemma LastBytes(x: seq<byte>, y: seq<byte>, a: Word32, b: Word32)
    requires |x| == |y| && x + BytesOf32(a) == y + BytesOf32(b)
    ensures x == y && a == b
  {
    var u, v := x + BytesOf32(a), y + BytesOf32(b);
    assert u[..|x|] == x && v[..|x|] == y;
    assert u[|x|..] == BytesOf32(a) && v[|x|..] == BytesOf32(b);
    assert BytesOf32(a)[0] == a.b0 && BytesOf32(a)[1] == a.b1 && BytesOf32(a)[2] == a.b2 && BytesOf32(a)[3] == a.b3;
  }

  /** The bytes of a map determine its words. */
  lemma {:induction false} BytesDetermine(a: seq<Word32>, b: seq<Word32>)
    requires |a| == |b| && Bytes32(a) == Bytes32(b)
    ensures a == b
  {
    if a != [] {
      var n := |a| - 1;
      LastBytes(Bytes32(a[..n]), Bytes32(b[..n]), a[n], b[n]);
      BytesDetermine(a[..n], b[..n]);
      OneMore(a, n);
      OneMore(b, n);
    }
  }

  /** The trace shows nothing in bytes that only the wide kernel visits. */
  ghost predicate NoneHidden(trace: seq<Word64>, size: nat)
    requires Visited64(size) <= |trace|
  {
    VisitedWords(size);
    Overhangs(size) ==> HighHalf(trace[size / 8]) == ZERO32
  }

  function HalvesOf(traces: seq<seq<Word64>>): (r: seq<seq<Word32>>)
    ensures |r| == |traces| && forall i :: 0 <= i < |r| ==> r[i] == Halves(traces[i])
  {
    seq(|traces|, i requires 0 <= i < |traces| => Halves(traces[i]))
  }

  predicate AllZero(s: seq<byte>) {
    forall i :: 0 <= i < |s| ==> s[i] == 0
  }

  /** The wide trace is the narrow one with `n` silent bytes behind it. */
  ghost predicate SilentTail(narrow: seq<byte>, wide: seq<byte>, n: nat) {
    |wide| == |narrow| + n && wide[..|narrow|] == narrow && AllZero(wide[|narrow|..])
  }

  /** Each wide trace is the narrow one with `n` silent bytes behind it. */
  ghost predicate SilentTails(narrow: seq<seq<byte>>, wide: seq<seq<byte>>, n: nat) {
    |wide| == |narrow| && forall i :: 0 <= i < |wide| ==> SilentTail(narrow[i], wide[i], n)
  }

  lemma SilentTailStep(t: seq<byte>, t': seq<byte>, v: seq<byte>, o: seq<byte>)
    requires |t| == |v| && SilentTail(t, t', |o|)
    ensures |t'| == |v + o| && Verdict(t', v + o) == Verdict(t, v) && Clear(v + o, t') == Clear(v, t) + o
  {
    assert t' == t + t'[|t|..];
    VerdictConcat(t, t'[|t|..], v, o);
    ClearConcat(v, o, t, t'[|t|..]);
    NothingInZeroes(t'[|t|..], o);
  }

  /** Bytes in which no trace shows anything change no verdict and stay as they are. */
  lemma SilentTailsAgree(virgin: seq<byte>, o: seq<byte>, narrow: seq<seq<byte>>, wide: seq<seq<byte>>)
    returns (verdicts: seq<nat>, now: seq<byte>)
    requires Cover(narrow, |virgin|) && SilentTails(narrow, wide, |o|)
    ensures Reached(virgin, narrow, verdicts, now) && Reached(virgin + o, wide, verdicts, now + o)
  {
    verdicts, now := [], virgin;
    ReachedStart(virgin);
    ReachedStart(virgin + o);
    Ends(narrow);
    Ends(wide);
    for i := 0 to |wide|
      invariant Reached(virgin, narrow[..i], verdicts, now) && Reached(virgin + o, wide[..i], verdicts, now + o)
    {
      assert narrow[i] in narrow;
      ReachedNext(virgin, narrow[..i], verdicts, now, narrow[i]);
      SilentTailStep(narrow[i], wide[i], now, o);
      ReachedNext(virgin + o, wide[..i], verdicts, now + o, wide[i]);
      OneMore(narrow, i);
      OneMore(wide, i);
      verdicts, now := verdicts + [Verdict(narrow[i], now)], Clear(now, narrow[i]);
    }
  }

  lemma Tailed(a: seq<byte>, z: seq<byte>, wide: seq<byte>)
    requires wide == a + z && AllZero(z)
    ensures SilentTail(a, wide, |z|)
  {
    assert wide[..|a|] == a && wide[|a|..] == z;
  }

  lemma ZeroHalf(trace: seq<Word64>, n: nat)
    requires n < |trace| && HighHalf(trace[n]) == ZERO32
    ensures AllZero(Overhang(trace, n)) && |Overhang(trace, n)| == 4
  {
  }

  lemma TraceTailed(trace: seq<Word64>, n: nat)
    requires n < |trace| && HighHalf(trace[n]) == ZERO32
    ensures SilentTail(Bytes32(Halves(trace)[..2 * n + 1]), Bytes64(trace[..n + 1]), 4)
  {
    BytesCut(trace, n);
    ZeroHalf(trace, n);
    Tailed(Bytes32(Halves(trace)[..2 * n + 1]), Overhang(trace, n), Bytes64(trace[..n + 1]));
  }

  lemma Regroup(a: seq<byte>, o: seq<byte>, c: seq<byte>)
    ensures a + o + c == a + (o + c)
  {
  }

  /** What a kernel makes of a campaign: the bytes it visits, what the traces show there, the bytes behind them. */
  datatype Part = Part(front: seq<byte>, used: seq<seq<byte>>, rest: seq<byte>)

  ghost function Part64(traces: seq<seq<Word64>>, before: seq<Word64>, words: nat): Part
    requires words <= |before| && forall i :: 0 <= i < |traces| ==> |traces[i]| == |before|
  {
    Part(Bytes64(before[..words]), Used64(traces, words), Bytes64(before[words..]))
  }

  ghost function Part32(traces: seq<seq<Word32>>, before: seq<Word32>, words: nat): Part
    requires words <= |before| && forall i :: 0 <= i < |traces| ==> |traces[i]| == |before|
  {
    Part(Bytes32(before[..words]), Used32(traces, words), Bytes32(before[words..]))
  }

  /** Verdicts and map are those of the byte-wise campaign. */
  ghost predicate LeftBy(p: Part, verdicts: seq<nat>, map': seq<byte>) {
    && Cover(p.used, |p.front|)
    && verdicts == Verdicts(p.front, p.used) && map' == VirginAfter(p.front, p.used) + p.rest
  }

  /** Where the kernels visit the same bytes, the byte-wise campaigns are one and the same. */
  lemma SameCampaign(traces: seq<seq<Word64>>, before: seq<Word64>, n: nat, w32: nat)
    requires n <= |before| && w32 == 2 * n && forall i :: 0 <= i < |traces| ==> |traces[i]| == |before|
    ensures Part64(traces, before, n) == Part32(HalvesOf(traces), Halves(before), w32)
  {
    SameVisit(before, before, n);
    SameUse(traces, |before|, n);
  }

  lemma SameUse(traces: seq<seq<Word64>>, length: nat, n: nat)
    requires n <= length && forall i :: 0 <= i < |traces| ==> |traces[i]| == length
    ensures Used64(traces, n) == Used32(HalvesOf(traces), 2 * n)
  {
    forall i | 0 <= i < |traces|
      ensures Used64(traces, n)[i] == Used32(HalvesOf(traces), 2 * n)[i]
    {
      SameVisit(traces[i], traces[i], n);
    }
  }

  /** Where the wide kernel overhangs: how the maps and the traces lie to each other. */
  lemma CutMap(before: seq<Word64>, n: nat, w64: nat, w32: nat)
    requires n < |before| && w64 == n + 1 && w32 == 2 * n + 1
    ensures Bytes64(before[..w64]) == Bytes32(Halves(before)[..w32]) + Overhang(before, n)
    ensures Bytes32(Halves(before)[w32..]) == Overhang(before, n) + Bytes64(before[w64..])
  {
    BytesCut(before, n);
    CutRest(before, n);
  }

  lemma CutTraces(traces: seq<seq<Word64>>, length: nat, n: nat, w64: nat, w32: nat)
    requires n < length && w64 == n + 1 && w32 == 2 * n + 1
    requires forall i :: 0 <= i < |traces| ==> |traces[i]| == length && HighHalf(traces[i][n]) == ZERO32
    ensures SilentTails(Used32(HalvesOf(traces), w32), Used64(traces, w64), 4)
  {
    forall i | 0 <= i < |traces|
      ensures SilentTail(Used32(HalvesOf(traces), w32)[i], Used64(traces, w64)[i], 4)
    {
      TraceTailed(traces[i], n);
    }
  }

  /** The wide campaign runs over four silent bytes that the narrow one leaves in its rest. */
  ghost predicate Widened(narrow: Part, wide: Part) {
    exists o: seq<byte> ::
      && |o| == 4 && wide.front == narrow.front + o && narrow.rest == o + wide.rest
      && SilentTails(narrow.used, wide.used, 4)
  }

  /** Two campaigns with the same verdicts that leave the same bytes. */
  ghost predicate Alike(narrow: Part, wide: Part) {
    Cover(narrow.used, |narrow.front|) && Cover(wide.used, |wide.front|) ==>
      && Verdicts(wide.front, wide.used) == Verdicts(narrow.front, narrow.used)
      && VirginAfter(wide.front, wide.used) + wide.rest == VirginAfter(narrow.front, narrow.used) + narrow.rest
  }

  lemma WidenedIsAlike(narrow: Part, wide: Part)
    requires Widened(narrow, wide)
    ensures Alike(narrow, wide)
  {
    if Cover(narrow.used, |narrow.front|) && Cover(wide.used, |wide.front|) {
      var o :| && |o| == 4 && wide.front == narrow.front + o && narrow.rest == o + wide.rest
               && SilentTails(narrow.used, wide.used, 4);
      var verdicts, now := SilentTailsAgree(narrow.front, o, narrow.used, wide.used);
      Regroup(now, o, wide.rest);
    }
  }

  lemma CutIsWidened(traces: seq<seq<Word64>>, before: seq<Word64>, n: nat, w64: nat, w32: nat)
    requires n < |before| && w64 == n + 1 && w32 == 2 * n + 1
    requires forall i :: 0 <= i < |traces| ==> |traces[i]| == |before| && HighHalf(traces[i][n]) == ZERO32
    ensures Widened(Part32(HalvesOf(traces), Halves(before), w32), Part64(traces, before, w64))
  {
    CutMap(before, n, w64, w32);
    CutTraces(traces, |before|, n, w64, w32);
    assert |Overhang(before, n)| == 4;
  }

  lemma CutIsAlike(traces: seq<seq<Word64>>, before: seq<Word64>, n: nat, w64: nat, w32: nat)
    requires n < |before| && w64 == n + 1 && w32 == 2 * n + 1
    requires forall i :: 0 <= i < |traces| ==> |traces[i]| == |before| && HighHalf(traces[i][n]) == ZERO32
    ensures Alike(Part32(HalvesOf(traces), Halves(before), w32), Part64(traces, before, w64))
  {
    CutIsWidened(traces, before, n, w64, w32);
    WidenedIsAlike(Part32(HalvesOf(traces), Halves(before), w32), Part64(traces, before, w64));
  }

  lemma LeftByCampaign64(traces: seq<seq<Word64>>, before: seq<Word64>, after: seq<Word64>, words: nat,
                         verdicts: seq<nat>)
    requires words <= |before| == |after| && after[words..] == before[words..]
    requires forall i :: 0 <= i < |traces| ==> |traces[i]| == |before|
    requires verdicts == Verdicts(Bytes64(before[..words]), Used64(traces, words))
    requires Bytes64(after[..words]) == Clear(Bytes64(before[..words]), Seen(Used64(traces, words), 8 * words))
    ensures LeftBy(Part64(traces, before, words), verdicts, Bytes64(after))
  {
    VirginIsInitialMinusSeen(Bytes64(before[..words]), Used64(traces, words));
    Bytes64Split(after, words);
  }

  lemma LeftByCampaign32(traces: seq<seq<Word32>>, before: seq<Word32>, after: seq<Word32>, words: nat,
                         verdicts: seq<nat>)
    requires words <= |before| == |after| && after[words..] == before[words..]
    requires forall i :: 0 <= i < |traces| ==> |traces[i]| == |before|
    requires verdicts == Verdicts(Bytes32(before[..words]), Used32(traces, words))
    requires Bytes32(after[..words]) == Clear(Bytes32(before[..words]), Seen(Used32(traces, words), 4 * words))
    ensures LeftBy(Part32(traces, before, words), verdicts, Bytes32(after))
  {
    VirginIsInitialMinusSeen(Bytes32(before[..words]), Used32(traces, words));
    Bytes32Split(after, words);
  }

  method Trail64(traces: seq<seq<Word64>>, virgin: array<Word64>, words: nat) returns (verdicts: seq<nat>)
    requires words <= virgin.Length && forall i :: 0 <= i < |traces| ==> |traces[i]| == virgin.Length
    modifies virgin
    ensures LeftBy(Part64(traces, old(virgin[..]), words), verdicts, Bytes64(virgin[..]))
  {
    ghost var before := virgin[..];
    verdicts := Campaign64(traces, virgin, words);
    assert before[..words] == old(virgin[..words]) && virgin[..][..words] == virgin[..words];
    assert before[words..] == old(virgin[words..]) && virgin[..][words..] == virgin[words..];
    LeftByCampaign64(traces, before, virgin[..], words, verdicts);
  }

  method Trail32(traces: seq<seq<Word32>>, virgin: array<Word32>, words: nat) returns (verdicts: seq<nat>)
    requires words <= virgin.Length && forall i :: 0 <= i < |traces| ==> |traces[i]| == virgin.Length
    modifies virgin
    ensures LeftBy(Part32(traces, old(virgin[..]), words), verdicts, Bytes32(virgin[..]))
  {
    ghost var before := virgin[..];
    verdicts := Campaign32(traces, virgin, words);
    assert before[..words] == old(virgin[..words]) && virgin[..][..words] == virgin[..words];
    assert before[words..] == old(virgin[words..]) && virgin[..][words..] == virgin[words..];
    LeftByCampaign32(traces, before, virgin[..], words, verdicts);
  }

  /** Where both kernels visit the same bytes. */
  lemma EvenCampaigns(traces: seq<seq<Word64>>, before: seq<Word64>, n: nat, w32: nat, verdicts64: seq<nat>,
                      verdicts32: seq<nat>, wide: seq<byte>, narrow: seq<byte>)
    requires n <= |before| && w32 == 2 * n && forall i :: 0 <= i < |traces| ==> |traces[i]| == |before|
    requires LeftBy(Part64(traces, before, n), verdicts64, wide)
    requires LeftBy(Part32(HalvesOf(traces), Halves(before), w32), verdicts32, narrow)
    ensures verdicts64 == verdicts32 && wide == narrow
  {
    SameCampaign(traces, before, n, w32);
  }

  /** Where the wide kernel visits a half word more. */
  lemma OverhangingCampaigns(traces: seq<seq<Word64>>, before: seq<Word64>, n: nat, w64: nat, w32: nat,
                             verdicts64: seq<nat>, verdicts32: seq<nat>, wide: seq<byte>, narrow: seq<byte>)
    requires n < |before| && w64 == n + 1 && w32 == 2 * n + 1
    requires forall i :: 0 <= i < |traces| ==> |traces[i]| == |before| && HighHalf(traces[i][n]) == ZERO32
    requires LeftBy(Part64(traces, before, w64), verdicts64, wide)
    requires LeftBy(Part32(HalvesOf(traces), Halves(before), w32), verdicts32, narrow)
    ensures verdicts64 == verdicts32 && wide == narrow
  {
    CutIsAlike(traces, before, n, w64, w32);
  }

  /** Two campaigns on one map of `size` bytes, one with each kernel, give the same verdicts and the same map, as long
      as no trace shows anything in bytes that only the wide kernel visits; there are none unless the size modulo 8 is
      1 to 4. */
  method BothCampaigns(traces: seq<seq<Word64>>, v64: array<Word64>, v32: array<Word32>, size: nat)
    returns (verdicts64: seq<nat>, verdicts32: seq<nat>)
    requires v32[..] == Halves(v64[..]) && Visited64(size) <= v64.Length
    requires forall i :: 0 <= i < |traces| ==> |traces[i]| == v64.Length
    requires forall i :: 0 <= i < |traces| ==> NoneHidden(traces[i], size)
    modifies v64, v32
    ensures LeftBy(Part64(traces, old(v64[..]), Visited64(size)), verdicts64, Bytes64(v64[..]))
    ensures verdicts32 == verdicts64 && v32[..] == Halves(v64[..])
  {
    VisitedWords(size);
    ghost var before := v64[..];
    verdicts64 := Trail64(traces, v64, Visited64(size));
    verdicts32 := Trail32(HalvesOf(traces), v32, Visited32(size));
    if Overhangs(size) {
      OverhangingCampaigns(traces, before, size / 8, Visited64(size), Visited32(size), verdicts64, verdicts32,
                           Bytes64(v64[..]), Bytes32(v32[..]));
    } else {
      EvenCampaigns(traces, before, Visited64(size), Visited32(size), verdicts64, verdicts32, Bytes64(v64[..]),
                    Bytes32(v32[..]));
    }
    SameBytes(v64[..]);
    BytesDetermine(v32[..], Halves(v64[..]));
  }
}
