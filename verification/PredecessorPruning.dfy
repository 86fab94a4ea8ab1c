/**
 The GCC and LLVM passes skip a block unless one of its predecessors can go elsewhere. At a ratio of 100
 the hits still spell out the whole path: it can be decoded step by step from the entry.
 */
module PredecessorPruning {

  import opened Words

  type Block = nat

  /** Successor edges with multiplicity (a switch may name one target twice). `exit` is the exit marker
      block of a GCC function, which is never instrumented; an LLVM function has none. */
  datatype Cfg = Cfg(entry: Block, succ: map<Block, seq<Block>>, exit: Option<Block>) {

    ghost predicate WellFormed() {
      && entry in succ
      && (forall b, s :: b in succ && s in succ[b] ==> s in succ)
      && (exit.Some? ==> exit.value in succ && succ[exit.value] == [])
    }

    ghost predicate IsPath(p: seq<Block>) {
      && |p| > 0
      && (forall i :: 0 <= i < |p| ==> p[i] in succ)
      && (forall i :: 0 < i < |p| ==> p[i] in succ[p[i - 1]])
    }

    /** Ends where nothing follows. */
    ghost predicate Complete(p: seq<Block>) {
      IsPath(p) && succ[p[|p| - 1]] == []
    }

    predicate Branches(b: Block)
      requires b in succ
    {
      |succ[b]| > 1
    }

    /** Some predecessor has more than one successor edge. */
    predicate AfterBranch(b: Block) {
      exists p :: p in succ && b in succ[p] && Branches(p)
    }

    /** instrument_block_p of the GCC pass at ratio 100: single_succ_p fails for some predecessor. */
    predicate InstrumentedGcc(b: Block) {
      exit != Some(b) && AfterBranch(b)
    }

    /** The LLVM pass: a function of one block is instrumented in any case. */
    predicate InstrumentedLlvm(b: Block) {
      |succ| <= 1 || AfterBranch(b)
    }
  }

  function GccSites(g: Cfg): set<Block> {
    set b | b in g.succ && g.InstrumentedGcc(b)
  }

  function LlvmSites(g: Cfg): set<Block> {
    set b | b in g.succ && g.InstrumentedLlvm(b)
  }

  /** All that decoding needs of the instrumented blocks. */
  ghost predicate Sound(g: Cfg, sites: set<Block>) {
    && (forall b :: b in g.succ && g.AfterBranch(b) && g.exit != Some(b) ==> b in sites)
    && (g.exit.Some? ==> g.exit.value !in sites)
  }

  /** The instrumented blocks of a path, in order. */
  function Hits(sites: set<Block>, p: seq<Block>): seq<Block> {
    if p == [] then []
    else (if p[0] in sites then [p[0]] else []) + Hits(sites, p[1..])
  }

  /** Rebuild a path from its first block and the hits after it, at most `fuel` blocks long. At a branch the
      next hit names the successor, except that a branch to the exit marker leaves no hit at all. */
  function Decode(g: Cfg, sites: set<Block>, b: Block, hits: seq<Block>, fuel: nat): seq<Block>
    decreases fuel
  {
    if fuel == 0 || b !in g.succ then []
    else if g.succ[b] == [] then [b]
    else if |g.succ[b]| == 1 then
      var next := g.succ[b][0];
      var rest := if next in sites && hits != [] then hits[1..] else hits;
      [b] + Decode(g, sites, next, rest, fuel - 1)
    else if hits != [] then [b] + Decode(g, sites, hits[0], hits[1..], fuel - 1)
    else if g.exit.Some? then [b] + Decode(g, sites, g.exit.value, [], fuel - 1)
    else [b]
  }

  /** Round trip: decoding the hits of a complete path gives the path back. */
  lemma {:induction false} DecodeHits(g: Cfg, sites: set<Block>, p: seq<Block>, fuel: nat)
    requires g.WellFormed() && Sound(g, sites) && g.Complete(p) && fuel >= |p|
    ensures Decode(g, sites, p[0], Hits(sites, p[1..]), fuel) == p
  {
    if |p| == 1 {
      assert p[1..] == [];
    } else {
      var b, rest := p[0], p[1..];
      assert rest[0] in g.succ[b];
      CompleteRest(g, p);
      DecodeHits(g, sites, rest, fuel - 1);
      assert p == [b] + rest;
      if |rest| == 1 {
        assert rest[1..] == [] && Hits(sites, rest[1..]) == [];
      } else {
        Continues(g, rest);
      }
      var hits, after := Hits(sites, rest), Hits(sites, rest[1..]);
      assert if rest[0] in sites then hits[0] == rest[0] && hits[1..] == after else hits == after;
      if |g.succ[b]| > 1 {
        assert g.Branches(b) && g.AfterBranch(rest[0]);
      }
    }
  }

  lemma CompleteRest(g: Cfg, p: seq<Block>)
    requires g.Complete(p) && |p| > 1
    ensures g.Complete(p[1..])
  {
    forall i | 0 < i < |p[1..]|
      ensures p[1..][i] in g.succ[p[1..][i - 1]]
    {
      assert p[i + 1] in g.succ[p[i + 1 - 1]];
    }
  }

  lemma Continues(g: Cfg, p: seq<Block>)
    requires g.IsPath(p) && |p| > 1
    ensures g.succ[p[0]] != []
  {
    assert p[1] in g.succ[p[0]];
  }

  /** No information is lost: complete paths from the entry with the same hits are equal. */
  lemma SameHitsSamePath(g: Cfg, sites: set<Block>, p: seq<Block>, q: seq<Block>)
    requires g.WellFormed() && Sound(g, sites)
    requires g.Complete(p) && p[0] == g.entry && g.Complete(q) && q[0] == g.entry
    requires Hits(sites, p) == Hits(sites, q)
    ensures p == q
  {
    var fuel := |p| + |q|;
    DecodeHits(g, sites, p, fuel);
    DecodeHits(g, sites, q, fuel);
    var n := if g.entry in sites then 1 else 0;
    assert Hits(sites, p)[n..] == Hits(sites, p[1..]);
    assert Hits(sites, q)[n..] == Hits(sites, q[1..]);
  }

  /** The GCC pass loses nothing, on any function with its exit marker. */
  lemma GccPruningDecodes(g: Cfg, p: seq<Block>, q: seq<Block>)
    requires g.WellFormed() && g.exit.Some?
    requires g.Complete(p) && p[0] == g.entry && g.Complete(q) && q[0] == g.entry
    requires Hits(GccSites(g), p) == Hits(GccSites(g), q)
    ensures p == q
  {
    SameHitsSamePath(g, GccSites(g), p, q);
  }

  /** The LLVM pass loses nothing, on any function. */
  lemma LlvmPruningDecodes(g: Cfg, p: seq<Block>, q: seq<Block>)
    requires g.WellFormed() && g.exit.None?
    requires g.Complete(p) && p[0] == g.entry && g.Complete(q) && q[0] == g.entry
    requires Hits(LlvmSites(g), p) == Hits(LlvmSites(g), q)
    ensures p == q
  {
    SameHitsSamePath(g, LlvmSites(g), p, q);
  }

  // ----- Which runs are seen at all -----

  ghost predicate Reachable(g: Cfg, b: Block) {
    exists w :: g.IsPath(w) && w[0] == g.entry && w[|w| - 1] == b
  }

  /** A complete path without a branch has only one way to go: it visits whatever can be reached. */
  lemma {:induction false} StraightVisitsAll(g: Cfg, p: seq<Block>, w: seq<Block>)
    requires g.Complete(p) && g.IsPath(w) && w[0] == p[0] && forall i :: 0 <= i < |p| ==> !g.Branches(p[i])
    ensures w[|w| - 1] in p
  {
    if |w| > 1 {
      var n := |w| - 1;
      assert w[n] in g.succ[w[n - 1]];
      StraightVisitsAll(g, p, w[..n]);
      var i :| 0 <= i < |p| && p[i] == w[n - 1];
      assert i + 1 < |p| && p[i + 1] in g.succ[p[i]];
      assert p[i + 1] == w[n];
    }
  }

  /** The LLVM rule sees a run exactly if the function has a single block or branches somewhere: straight code of two
      blocks or more leaves no hit at all. */
  lemma LlvmSeesRun(g: Cfg, p: seq<Block>)
    requires g.WellFormed() && (forall b :: b in g.succ ==> Reachable(g, b)) && g.Complete(p) && p[0] == g.entry
    ensures (exists b :: b in p && b in LlvmSites(g)) <==> |g.succ| <= 1 || exists b :: b in g.succ && g.Branches(b)
  {
    if |g.succ| <= 1 {
      assert p[0] in LlvmSites(g);
    } else if b :| b in g.succ && g.Branches(b) {
      BranchOnTheWay(g, p, b);
    }
  }

  /** If the function branches anywhere, a complete path does, and its next block is instrumented. */
  lemma BranchOnTheWay(g: Cfg, p: seq<Block>, b: Block)
    requires g.WellFormed() && g.Complete(p) && p[0] == g.entry
    requires b in g.succ && Reachable(g, b) && g.Branches(b)
    ensures exists c :: c in p && c in LlvmSites(g)
  {
    if forall i :: 0 <= i < |p| ==> !g.Branches(p[i]) {
      var w :| g.IsPath(w) && w[0] == g.entry && w[|w| - 1] == b;
      StraightVisitsAll(g, p, w);
    } else {
      var i :| 0 <= i < |p| && g.Branches(p[i]);
      assert i + 1 < |p| && p[i + 1] in g.succ[p[i]];
      assert p[i + 1] in LlvmSites(g);
    }
  }

  /** The smallest function whose only run goes unseen: the entry, and the block it leads to. */
  lemma TwoBlocksUnseen(b: Block)
    requires b != 0
    ensures var g := Cfg(0, map[0 := [b], b := []], None);
            g.WellFormed() && g.Complete([0, b]) && LlvmSites(g) == {}
  {
    var g := Cfg(0, map[0 := [b], b := []], None);
    assert g.succ.Keys == {0, b};
    assert |g.succ.Keys| == 2;
  }

  /** The predecessor scan of the LLVM pass. `preds` lists the predecessor edges in any order. */
  method SkipsBlock(g: Cfg, b: Block, preds: seq<Block>) returns (skip: bool)
    requires forall p :: p in preds <==> p in g.succ && b in g.succ[p]
    ensures skip <==> !g.InstrumentedLlvm(b)
  {
    var moreThanOne := -1;
    for i := 0 to |preds|
      invariant moreThanOne in {-1, 0, 1}
      invariant moreThanOne == 1 <==> exists j :: 0 <= j < i && g.Branches(preds[j])
    {
      var pred := preds[i];
      var count := 0;
      if moreThanOne == -1 {
        moreThanOne := 0;
      }
      for k := 0 to |g.succ[pred]|
        invariant count == k
      {
        count := count + 1;
      }
      if count > 1 {
        moreThanOne := 1;
      }
    }
    skip := |g.succ| > 1 && moreThanOne != 1;
  }

  /** The GCC predicate: stop at the first predecessor edge whose source has another one. */
  method InstrumentBlock(g: Cfg, b: Block, preds: seq<Block>) returns (instrument: bool)
    requires g.exit != Some(b)
    requires forall p :: p in preds <==> p in g.succ && b in g.succ[p]
    ensures instrument <==> g.InstrumentedGcc(b)
  {
    for i := 0 to |preds|
      invariant forall j :: 0 <= j < i ==> !g.Branches(preds[j])
    {
      if |g.succ[preds[i]]| != 1 {
        return true;
      }
    }
    return false;
  }
}
