/**
 Which blocks SanitizerCoverage instruments, and why skipping the others loses nothing: on a graph
 without critical edges the instrumented blocks a run hits determine every block and every edge it
 visits.
 */
module DominatorPruning {

  type Block = nat

  /** A function body. Successor lists are sets: splitting every critical edge leaves no parallel ones. */
  datatype Cfg = Cfg(entry: Block, blocks: set<Block>, succ: map<Block, set<Block>>) {

    ghost predicate WellFormed() {
      && entry in blocks
      && succ.Keys == blocks
      && (forall b :: b in blocks ==> succ[b] <= blocks)
      && Preds(entry) == {}
      && (forall b :: b in blocks ==> Reachable(b))
    }

    function Preds(b: Block): set<Block> {
      set p | p in succ && b in succ[p]
    }

    ghost predicate IsPath(p: seq<Block>) {
      && |p| > 0
      && (forall i :: 0 <= i < |p| ==> p[i] in succ)
      && (forall i :: 0 < i < |p| ==> Edge(p[i - 1], p[i]))
    }

    ghost predicate Edge(u: Block, v: Block) {
      u in succ && v in succ[u]
    }

    ghost predicate PathTo(p: seq<Block>, b: Block) {
      IsPath(p) && p[0] == entry && p[|p| - 1] == b
    }

    ghost predicate Reachable(b: Block) {
      exists p :: PathTo(p, b)
    }

    /** From the entry to a block without successors. */
    ghost predicate IsRun(p: seq<Block>) {
      IsPath(p) && p[0] == entry && succ[p[|p| - 1]] == {}
    }

    ghost predicate Dominates(a: Block, b: Block) {
      forall p :: PathTo(p, b) ==> a in p
    }

    /** Every way from b to a block without successors passes a. */
    ghost predicate PostDominates(a: Block, b: Block) {
      forall p :: IsPath(p) && p[0] == b && succ[p[|p| - 1]] == {} ==> a in p
    }

    /** isFullDominator */
    ghost predicate FullDominator(b: Block)
      requires b in succ
    {
      succ[b] != {} && forall s :: s in succ[b] ==> Dominates(b, s)
    }

    /** isFullPostDominator */
    ghost predicate FullPostDominator(b: Block) {
      Preds(b) != {} && forall p :: p in Preds(b) ==> PostDominates(b, p)
    }

    ghost predicate SinglePredecessor(b: Block) {
      |Preds(b)| == 1
    }

    /** shouldInstrumentBlock of the PCGUARD pass, for edge coverage with pruning on. */
    ghost predicate Instrumented(b: Block)
      requires b in succ
    {
      b == entry || (!FullDominator(b) && !(FullPostDominator(b) && !SinglePredecessor(b)))
    }

    /** shouldInstrumentBlock of the LTO pass: the entry of a larger function is dropped as well. */
    ghost predicate InstrumentedLto(b: Block)
      requires b in succ
    {
      if b == entry then |blocks| <= 1
      else !FullDominator(b) && !(FullPostDominator(b) && !SinglePredecessor(b))
    }

    ghost predicate CriticalEdge(u: Block, v: Block)
      requires u in succ
    {
      v in succ[u] && |succ[u]| > 1 && |Preds(v)| > 1
    }

    /** What SplitAllCriticalEdges establishes before the pruning. */
    ghost predicate NoCriticalEdges() {
      forall u, v :: u in succ && v in succ[u] ==> !CriticalEdge(u, v)
    }
  }

  // ----- Paths -----

  lemma Concat(g: Cfg, p: seq<Block>, q: seq<Block>)
    requires g.IsPath(p) && g.IsPath(q) && q[0] in g.succ[p[|p| - 1]]
    ensures g.IsPath(p + q)
  {
  }

  lemma Prefix(g: Cfg, p: seq<Block>, n: nat)
    requires g.IsPath(p) && 0 < n <= |p|
    ensures g.IsPath(p[..n])
  {
  }

  lemma Suffix(g: Cfg, p: seq<Block>, n: nat)
    requires g.IsPath(p) && n < |p|
    ensures g.IsPath(p[n..])
  {
  }

  lemma {:induction false} LastIndex(p: seq<Block>, x: Block) returns (i: nat)
    requires x in p
    ensures i < |p| && p[i] == x && forall m :: i < m < |p| ==> p[m] != x
  {
    i := |p| - 1;
    if p[i] != x {
      assert p == p[..i] + [p[i]];
      i := LastIndex(p[..i], x);
    }
  }

  lemma {:induction false} FirstIndex(p: seq<Block>, x: Block) returns (i: nat)
    requires x in p
    ensures i < |p| && p[i] == x && x !in p[..i]
  {
    i := 0;
    if p[0] != x {
      assert p == [p[0]] + p[1..];
      var j := FirstIndex(p[1..], x);
      i := j + 1;
      assert p[..i] == [p[0]] + p[1..][..j];
    }
  }

  /** A run that visits a block visits its dominators. */
  lemma VisitsDominator(g: Cfg, q: seq<Block>, x: Block, y: Block)
    requires g.IsPath(q) && q[0] == g.entry && y in q && g.Dominates(x, y)
    ensures x in q
  {
    var i := FirstIndex(q, y);
    Prefix(g, q, i + 1);
    assert g.PathTo(q[..i + 1], y);
    assert x in q[..i + 1];
  }

  /** A run that visits a block visits its post-dominators. */
  lemma VisitsPostDominator(g: Cfg, q: seq<Block>, x: Block, w: Block)
    requires g.IsRun(q) && w in q && g.PostDominates(x, w)
    ensures x in q
  {
    var i := FirstIndex(q, w);
    Suffix(g, q, i);
    assert x in q[i..];
  }

  /** Where x is not the last block, its only successor follows. */
  lemma FollowedBy(g: Cfg, p: seq<Block>, x: Block, y: Block)
    requires g.IsPath(p) && x in p && p[|p| - 1] != x && g.succ[x] == {y}
    ensures y in p
  {
    var i := FirstIndex(p, x);
    assert p[i + 1] in g.succ[x];
  }

  // ----- Critical edges -----

  /** x dominates y and leads nowhere else; w reaches another predecessor z of y. Then every path to a
      successor s of y passes y: otherwise it could be prolonged along w to z and into y, around x. */
  lemma NoWayAround(g: Cfg, x: Block, y: Block, z: Block, w: seq<Block>, s: Block, path: seq<Block>)
    requires g.WellFormed() && g.NoCriticalEdges()
    requires x != y && x in g.succ && g.succ[x] == {y} && g.Dominates(x, y)
    requires z != x && z in g.Preds(y) && g.PathTo(w, z)
    requires y in w && y in g.succ && s in g.succ[y] && g.PathTo(path, s)
    ensures y in path
  {
    assert y in g.Preds(s) && !g.CriticalEdge(y, s);
    if |g.Preds(s)| <= 1 {
      OnlyMember(g.Preds(s), y);
      assert path[|path| - 2] in g.Preds(s);
    } else {
      OnlyMember(g.succ[y], s);
      var j := LastIndex(w, y);
      if j + 1 < |w| {
        assert w[j + 1] == s;
        var back := w[j + 1..];
        Suffix(g, w, j + 1);
        Detour(g, path, back, y);
        assert x in path + back[1..] + [y];
        if x in path && path[|path| - 1] != x {
          FollowedBy(g, path, x, y);
        } else {
          assert x in back;
          FollowedBy(g, back, x, y);
        }
      }
    }
  }

  /** A path to the first block of another one, that one, and one more step. */
  lemma Detour(g: Cfg, path: seq<Block>, back: seq<Block>, y: Block)
    requires |back| > 0 && g.PathTo(path, back[0]) && g.IsPath(back)
    requires y in g.succ && y in g.succ[back[|back| - 1]]
    ensures g.PathTo(path + back[1..] + [y], y)
  {
    if |back| > 1 {
      Suffix(g, back, 1);
      Concat(g, path, back[1..]);
    } else {
      assert path + back[1..] == path;
    }
    Concat(g, path + back[1..], [y]);
  }

  /** Without critical edges, a join y right behind a full dominator x is itself a full dominator: what the
      post-dominator rule could drop there, the dominator rule drops anyway. */
  lemma JoinIsFullDominator(g: Cfg, x: Block, y: Block)
    requires g.WellFormed() && g.NoCriticalEdges()
    requires x != y && x in g.succ && y in g.succ[x] && g.Dominates(x, y)
    requires |g.Preds(y)| != 1
    ensures y in g.succ && g.FullDominator(y)
  {
    assert x in g.Preds(y);
    var z := OtherMember(g.Preds(y), x);
    OneMember(g.Preds(y), x, z);
    assert !g.CriticalEdge(x, y);
    OnlyMember(g.succ[x], y);
    var w := LoopPath(g, x, y, z);
    forall s | s in g.succ[y]
      ensures g.Dominates(y, s)
    {
      forall path | g.PathTo(path, s)
        ensures y in path
      {
        NoWayAround(g, x, y, z, w, s, path);
      }
    }
    HasSuccessor(g, w, y, z);
  }

  /** The way to z passes y behind x. */
  lemma LoopPath(g: Cfg, x: Block, y: Block, z: Block) returns (w: seq<Block>)
    requires g.WellFormed() && x != y && z != x && x in g.succ && g.succ[x] == {y} && g.Dominates(x, y)
    requires z in g.Preds(y)
    ensures g.PathTo(w, z) && y in w && y in g.succ
  {
    assert g.Reachable(z);
    w :| g.PathTo(w, z);
    Concat(g, w, [y]);
    assert g.PathTo(w + [y], y);
    assert x in w;
    FollowedBy(g, w, x, y);
  }

  lemma HasSuccessor(g: Cfg, w: seq<Block>, y: Block, z: Block)
    requires g.PathTo(w, z) && y in w && z in g.Preds(y)
    ensures g.succ[y] != {}
  {
    var i := FirstIndex(w, y);
    if i + 1 < |w| {
      assert w[i + 1] in g.succ[y];
    } else {
      assert y in g.succ[z];
    }
  }

  lemma OtherMember(s: set<Block>, x: Block) returns (z: Block)
    requires x in s && |s| != 1
    ensures z in s && z != x
  {
    assert |s - {x}| == |s| - 1;
    z :| z in s - {x};
  }

  lemma OneMember(s: set<Block>, x: Block, z: Block)
    requires x in s && z in s && x != z
    ensures |s| > 1
  {
    assert |s - {x}| == |s| - 1;
    assert |s - {x} - {z}| == |s - {x}| - 1;
  }

  lemma OnlyMember(s: set<Block>, y: Block)
    requires y in s && |s| <= 1
    ensures s == {y}
  {
    forall x | x in s
      ensures x == y
    {
      if x != y {
        OneMember(s, x, y);
      }
    }
  }

  // ----- The walks -----

  lemma DominatesThrough(g: Cfg, x: Block, y: Block, b: Block)
    requires g.Dominates(x, y) && g.Dominates(y, b)
    ensures g.Dominates(x, b)
  {
    forall p | g.PathTo(p, b)
      ensures x in p
    {
      VisitsDominator(g, p, x, y);
    }
  }

  /** An edge is critical exactly if there is another way out of its source and another way into its target. */
  lemma CriticalExactly(g: Cfg, u: Block, v: Block)
    requires g.WellFormed() && u in g.succ && v in g.succ[u]
    ensures g.CriticalEdge(u, v) <==> exists w, x :: w != v && x != u && w in g.succ[u] && x in g.Preds(v)
  {
    assert u in g.Preds(v);
    if g.CriticalEdge(u, v) {
      var w := OtherMember(g.succ[u], v);
      var x := OtherMember(g.Preds(v), u);
    }
    if w, x :| w != v && x != u && w in g.succ[u] && x in g.Preds(v) {
      OneMember(g.succ[u], v, w);
      OneMember(g.Preds(v), u, x);
    }
  }

  /** From a full dominator the walk forward, from its last occurrence in p, meets an instrumented block that it
      dominates. */
  lemma {:induction false} WalkOn(g: Cfg, p: seq<Block>, i: nat) returns (b: Block)
    requires g.WellFormed() && g.NoCriticalEdges() && g.IsRun(p)
    requires i < |p| && (forall m :: i < m < |p| ==> p[m] != p[i]) && g.FullDominator(p[i])
    ensures b in p && b in g.succ && b != g.entry && g.Instrumented(b) && g.Dominates(p[i], b)
    decreases |p| - i
  {
    assert i + 1 < |p|;
    var x, y := p[i], p[i + 1];
    assert y in g.succ[x] && x in g.Preds(y) && g.Dominates(x, y);
    if g.Instrumented(y) {
      b := y;
    } else {
      if !g.FullDominator(y) {
        JoinIsFullDominator(g, x, y);
      }
      var j := LastIndex(p, y);
      b := WalkOn(g, p, j);
      DominatesThrough(g, x, y, b);
    }
  }

  /** A full dominator that only p visits: the walk forward meets an instrumented block that only p visits. */
  lemma WalkForward(g: Cfg, p: seq<Block>, q: seq<Block>, i: nat) returns (b: Block)
    requires g.WellFormed() && g.NoCriticalEdges() && g.IsRun(p) && g.IsRun(q)
    requires i < |p| && (forall m :: i < m < |p| ==> p[m] != p[i]) && p[i] !in q && g.FullDominator(p[i])
    ensures b in p && b !in q && b in g.succ && b != g.entry && g.Instrumented(b)
  {
    b := WalkOn(g, p, i);
    if b in q {
      VisitsDominator(g, q, p[i], b);
    }
  }

  /** A block that only p visits: the walk backward in p, with forward walks from full dominators, meets an
      instrumented block that only p visits. */
  lemma {:induction false} WalkBackward(g: Cfg, p: seq<Block>, q: seq<Block>, i: nat) returns (b: Block)
    requires g.WellFormed() && g.NoCriticalEdges() && g.IsRun(p) && g.IsRun(q)
    requires i < |p| && p[i] !in q
    ensures b in p && b !in q && b in g.succ && b != g.entry && g.Instrumented(b)
    decreases i
  {
    var x := p[i];
    assert x != g.entry by { assert q[0] == g.entry; }
    if g.Instrumented(x) {
      b := x;
    } else if g.FullDominator(x) {
      var j := LastIndex(p, x);
      b := WalkForward(g, p, q, j);
    } else {
      var w := p[i - 1];
      assert w in g.Preds(x) && g.PostDominates(x, w);
      if w in q {
        VisitsPostDominator(g, q, x, w);
      }
      b := WalkBackward(g, p, q, i - 1);
    }
  }

  // ----- The theorems -----

  /** PCGUARD: the instrumented blocks a run hits determine the blocks it visits. */
  lemma PruningIsLossless(g: Cfg, p: seq<Block>, q: seq<Block>)
    requires g.WellFormed() && g.NoCriticalEdges() && g.IsRun(p) && g.IsRun(q)
    requires forall b :: b in g.succ && g.Instrumented(b) ==> (b in p <==> b in q)
    ensures forall b :: b in p <==> b in q
  {
    forall b | b in p || b in q
      ensures b in p && b in q
    {
      if b !in q {
        var i := FirstIndex(p, b);
        var c := WalkBackward(g, p, q, i);
      } else if b !in p {
        var i := FirstIndex(q, b);
        var c := WalkBackward(g, q, p, i);
      }
    }
  }

  /** LTO: also when the entry carries no instrumentation. */
  lemma LtoPruningIsLossless(g: Cfg, p: seq<Block>, q: seq<Block>)
    requires g.WellFormed() && g.NoCriticalEdges() && g.IsRun(p) && g.IsRun(q)
    requires forall b :: b in g.succ && g.InstrumentedLto(b) ==> (b in p <==> b in q)
    ensures forall b :: b in p <==> b in q
  {
    assert p[0] == g.entry && q[0] == g.entry;
    PruningIsLossless(g, p, q);
  }

  /** The two rules differ at the entry of larger functions only. */
  lemma LtoDropsEntry(g: Cfg, b: Block)
    requires b in g.succ
    ensures g.Instrumented(b) <==> g.InstrumentedLto(b) || (b == g.entry && |g.blocks| > 1)
  {
  }

  /** The entry of a larger function is a full dominator. */
  lemma EntryIsFullDominator(g: Cfg)
    requires g.WellFormed() && |g.blocks| > 1
    ensures g.FullDominator(g.entry)
  {
    var other := OtherMember(g.blocks, g.entry);
    assert g.Reachable(other);
    var w :| g.PathTo(w, other);
    assert w[1] in g.succ[g.entry];
  }

  /** Every run is seen: it hits an instrumented block, under PCGUARD the entry itself. */
  lemma EveryRunIsSeen(g: Cfg, p: seq<Block>)
    requires g.WellFormed() && g.NoCriticalEdges() && g.IsRun(p)
    ensures g.entry in p && g.Instrumented(g.entry)
    ensures exists b :: b in p && b in g.succ && g.InstrumentedLto(b)
  {
    if |g.blocks| > 1 {
      EntryIsFullDominator(g);
      assert p[0] == g.entry;
      var i := LastIndex(p, g.entry);
      var b := WalkOn(g, p, i);
      assert g.InstrumentedLto(b);
    } else {
      assert p[0] == g.entry && g.InstrumentedLto(g.entry);
    }
  }

  // ----- The decision as the passes make it -----

  /** What dominator tree and post-dominator tree answer. */
  datatype Trees = Trees(dominates: (Block, Block) -> bool, postDominates: (Block, Block) -> bool) {
    ghost predicate Right(g: Cfg) {
      forall a, b :: (dominates(a, b) <==> g.Dominates(a, b)) && (postDominates(a, b) <==> g.PostDominates(a, b))
    }
  }

  /** isFullDominator */
  method IsFullDominator(g: Cfg, b: Block, succs: seq<Block>, trees: Trees) returns (r: bool)
    requires b in g.succ && trees.Right(g) && forall s :: s in succs <==> s in g.succ[b]
    ensures r <==> g.FullDominator(b)
  {
    if succs == [] {
      return false;
    }
    assert succs[0] in g.succ[b];
    for i := 0 to |succs|
      invariant forall j :: 0 <= j < i ==> g.Dominates(b, succs[j])
    {
      if !trees.dominates(b, succs[i]) {
        assert succs[i] in g.succ[b];
        return false;
      }
    }
    return true;
  }

  /** isFullPostDominator */
  method IsFullPostDominator(g: Cfg, b: Block, preds: seq<Block>, trees: Trees) returns (r: bool)
    requires trees.Right(g) && forall p :: p in preds <==> p in g.Preds(b)
    ensures r <==> g.FullPostDominator(b)
  {
    if preds == [] {
      return false;
    }
    assert preds[0] in g.Preds(b);
    for i := 0 to |preds|
      invariant forall j :: 0 <= j < i ==> g.PostDominates(b, preds[j])
    {
      if !trees.postDominates(b, preds[i]) {
        assert preds[i] in g.Preds(b);
        return false;
      }
    }
    return true;
  }

  lemma {:induction false} DistinctCount(s: seq<Block>, t: set<Block>)
    requires (forall i, j :: 0 <= i < j < |s| ==> s[i] != s[j]) && forall x :: x in s <==> x in t
    ensures |s| == |t|
  {
    if s != [] {
      var n := |s| - 1;
      assert s == s[..n] + [s[n]];
      DistinctCount(s[..n], t - {s[n]});
    }
  }

  /** shouldInstrumentBlock of the PCGUARD pass (`lto` false) and of the LTO pass. */
  method ShouldInstrumentBlock(g: Cfg, b: Block, succs: seq<Block>, preds: seq<Block>, trees: Trees, lto: bool)
    returns (r: bool)
    requires b in g.succ && trees.Right(g) && forall s :: s in succs <==> s in g.succ[b]
    requires forall i, j :: 0 <= i < j < |preds| ==> preds[i] != preds[j]
    requires forall p :: p in preds <==> p in g.Preds(b)
    ensures r <==> if lto then g.InstrumentedLto(b) else g.Instrumented(b)
  {
    if lto && g.entry == b && |g.blocks| > 1 {
      return false;
    }
    if g.entry == b {
      return true;
    }
    var fullDominator := IsFullDominator(g, b, succs, trees);
    var fullPostDominator := IsFullPostDominator(g, b, preds, trees);
    DistinctCount(preds, g.Preds(b));
    return !fullDominator && !(fullPostDominator && |preds| != 1);
  }

  // ----- Edges -----

  ghost predicate Traverses(p: seq<Block>, u: Block, v: Block) {
    exists i :: 0 < i < |p| && p[i - 1] == u && p[i] == v
  }

  lemma SameBlocksSameEdge(g: Cfg, p: seq<Block>, q: seq<Block>, u: Block, v: Block)
    requires g.WellFormed() && g.NoCriticalEdges() && g.IsRun(p) && g.IsRun(q)
    requires forall b :: b in p <==> b in q
    requires Traverses(p, u, v)
    ensures Traverses(q, u, v)
  {
    var i :| 0 < i < |p| && p[i - 1] == u && p[i] == v;
    assert u in q && v in q && u in g.Preds(v) && !g.CriticalEdge(u, v);
    if |g.succ[u]| <= 1 {
      OnlyMember(g.succ[u], v);
      var j := FirstIndex(q, u);
      assert q[j + 1] in g.succ[u];
      assert q[(j + 1) - 1] == u && q[j + 1] == v;
    } else {
      OnlyMember(g.Preds(v), u);
      var j := FirstIndex(q, v);
      assert q[j - 1] in g.Preds(v);
    }
  }

  /** Edge coverage: the instrumented blocks even determine the edges a run takes. */
  lemma HitsDetermineEdges(g: Cfg, p: seq<Block>, q: seq<Block>, u: Block, v: Block)
    requires g.WellFormed() && g.NoCriticalEdges() && g.IsRun(p) && g.IsRun(q)
    requires
      || (forall b :: b in g.succ && g.Instrumented(b) ==> (b in p <==> b in q))
      || (forall b :: b in g.succ && g.InstrumentedLto(b) ==> (b in p <==> b in q))
    ensures Traverses(p, u, v) <==> Traverses(q, u, v)
  {
    if forall b :: b in g.succ && g.Instrumented(b) ==> (b in p <==> b in q) {
      PruningIsLossless(g, p, q);
    } else {
      LtoPruningIsLossless(g, p, q);
    }
    if Traverses(p, u, v) {
      SameBlocksSameEdge(g, p, q, u, v);
    }
    if Traverses(q, u, v) {
      SameBlocksSameEdge(g, q, p, u, v);
    }
  }

  // ----- The hypothesis is needed -----

  /** 0 -> 1, 4; 1 -> 2; 2 -> 3, 4; 3 -> 2: the edges 0 -> 4 and 2 -> 4 are critical. */
  const UNSPLIT := Cfg(0, {0, 1, 2, 3, 4}, map[0 := {1, 4}, 1 := {2}, 2 := {3, 4}, 3 := {2}, 4 := {}])

  lemma {:induction false} OnlyThroughOne(p: seq<Block>)
    requires UNSPLIT.IsPath(p) && p[0] == 0 && 1 !in p
    ensures p[|p| - 1] != 2 && p[|p| - 1] != 3
  {
    if |p| > 1 {
      Prefix(UNSPLIT, p, |p| - 1);
      OnlyThroughOne(p[..|p| - 1]);
      assert p[|p| - 2] == p[..|p| - 1][|p| - 2];
    }
  }

  lemma UnsplitShape()
    ensures UNSPLIT.WellFormed()
    ensures UNSPLIT.Preds(2) == {1, 3} && UNSPLIT.Preds(4) == {0, 2}
  {
    var g := UNSPLIT;
    assert g.PathTo([0], 0);
    assert g.PathTo([0, 1], 1);
    assert g.PathTo([0, 1, 2], 2);
    assert g.PathTo([0, 1, 2, 3], 3);
    assert g.PathTo([0, 4], 4);
  }

  lemma UnsplitPrunesOne()
    ensures !UNSPLIT.Instrumented(1)
  {
    forall p | UNSPLIT.PathTo(p, 2)
      ensures 1 in p
    {
      if 1 !in p {
        OnlyThroughOne(p);
      }
    }
  }

  lemma UnsplitPrunesTwo()
    ensures !UNSPLIT.Instrumented(2)
  {
    UnsplitShape();
    forall p | UNSPLIT.IsPath(p) && p[0] in {1, 3} && UNSPLIT.succ[p[|p| - 1]] == {}
      ensures 2 in p
    {
      assert p[1] in UNSPLIT.succ[p[0]];
    }
  }

  lemma UnsplitPrunesFour()
    ensures !UNSPLIT.Instrumented(4)
  {
    UnsplitShape();
    forall p | UNSPLIT.IsPath(p) && UNSPLIT.succ[p[|p| - 1]] == {}
      ensures 4 in p
    {
      assert p[|p| - 1] == 4;
    }
  }

  lemma UnsplitIsCritical()
    ensures !UNSPLIT.NoCriticalEdges()
  {
    UnsplitShape();
    OneMember(UNSPLIT.succ[0], 1, 4);
    OneMember(UNSPLIT.Preds(4), 0, 2);
    assert UNSPLIT.CriticalEdge(0, 4);
  }

  lemma UnsplitRuns()
    ensures UNSPLIT.IsRun([0, 1, 2, 4]) && UNSPLIT.IsRun([0, 4])
  {
  }

  /** Without the split, two runs can hit the same instrumented blocks and visit different ones. */
  lemma CriticalEdgesLoseCoverage(p: seq<Block>, q: seq<Block>)
    requires p == [0, 1, 2, 4] && q == [0, 4]
    ensures UNSPLIT.WellFormed() && !UNSPLIT.NoCriticalEdges() && UNSPLIT.IsRun(p) && UNSPLIT.IsRun(q)
    ensures forall c :: c in UNSPLIT.succ && UNSPLIT.Instrumented(c) ==> (c in p <==> c in q)
    ensures 1 in p && 1 !in q
  {
    UnsplitShape();
    UnsplitIsCritical();
    UnsplitRuns();
    UnsplitInstrumented();
  }

  lemma UnsplitInstrumented()
    ensures forall c :: c in UNSPLIT.succ && UNSPLIT.Instrumented(c) ==> c == 0 || c == 3
  {
    UnsplitPrunesOne();
    UnsplitPrunesTwo();
    UnsplitPrunesFour();
  }
}
