/** Dominance frontiers and reverse dominance frontiers, computed by walking up the
    immediate dominators. */
module DominanceFrontiers {
  import opened BasicBlocks
  import opened Graphs
  import opened UnionFindForest
  import opened NumberedGraph
  import opened DominatorComputation
  import opened DynamicArrays

  // ------------------------------------------------------------- definitions

  /** y is in the frontier of x: x dominates a predecessor of y but not strictly y itself. */
  ghost predicate InFrontier(g: Graph, r: int, x: int, y: int) {
    && 0 <= x < |g|
    && !StrictlyDominates(g, r, x, y)
    && exists p :: Edge(g, p, y) && Dominates(g, r, x, p)
  }

  ghost predicate AllReachable(g: Graph, r: int) {
    0 <= r < |g| && forall v :: 0 <= v < |g| ==> Reachable(g, r, v)
  }

  ghost function StrictDominators(g: Graph, r: int, v: int): set<int> {
    set d | 0 <= d < |g| && StrictlyDominates(g, r, d, v)
  }

  /** Climbing to the immediate dominator leaves exactly the vertex climbed from behind. */
  lemma ClimbDominators(g: Graph, r: int, i: int, v: int)
    requires Reachable(g, r, v) && IsImmediateDominator(g, r, i, v)
    ensures StrictDominators(g, r, i) < StrictDominators(g, r, v) && !Dominates(g, r, v, i) && Reachable(g, r, i)
    ensures forall x :: 0 <= x < |g| ==> (Dominates(g, r, x, v) <==> x == v || Dominates(g, r, x, i))
  {
    DominatorReachable(g, r, i, v);
    forall x | 0 <= x < |g|
      ensures Dominates(g, r, x, v) <==> x == v || Dominates(g, r, x, i)
    {
      DominatesReflexive(g, r, v);
      if Dominates(g, r, x, i) { DominatesTransitive(g, r, x, i, v); }
    }
    forall x | x in StrictDominators(g, r, i)
      ensures x in StrictDominators(g, r, v)
    {
      DominatesTransitive(g, r, x, i, v);
      if x == v { DominatesAntisymmetric(g, r, i, v); }
    }
    if Dominates(g, r, v, i) { DominatesAntisymmetric(g, r, i, v); }
    assert i in StrictDominators(g, r, v) && i !in StrictDominators(g, r, i);
  }

  /** The strict dominators of y are the dominators of its immediate dominator. */
  lemma StrictDominatorsAbove(g: Graph, r: int, i: int, x: int, y: int)
    requires AllReachable(g, r) && 0 <= y < |g| && IsImmediateDominator(g, r, i, y)
    ensures StrictlyDominates(g, r, x, y) <==> Dominates(g, r, x, i)
  {
    if Dominates(g, r, x, i) {
      DominatesTransitive(g, r, x, i, y);
      if x == y { DominatesAntisymmetric(g, r, i, y); }
    }
  }

  // -------------------------------------------------------- frontier storage

  function FrontierOf(dir: Direction, b: BasicBlock): seq<BasicBlock>
    reads b`dominanceFrontier, b`reverseDominanceFrontier
  {
    if dir.Forward? then b.dominanceFrontier else b.reverseDominanceFrontier
  }

  /** The stored frontiers hold exactly the pairs done, without duplicates. */
  ghost predicate FrontierAt(dir: Direction, fb: seq<BasicBlock>, done: set<(int, int)>, x: int)
    reads fb`dominanceFrontier, fb`reverseDominanceFrontier
  {
    && 0 <= x < |fb|
    && Distinct(FrontierOf(dir, fb[x]))
    && (forall k {:trigger FrontierOf(dir, fb[x])[k]} :: 0 <= k < |FrontierOf(dir, fb[x])| ==>
          FrontierOf(dir, fb[x])[k] in fb)
    && (forall y {:trigger (x, y) in done} :: 0 <= y < |fb| ==>
          (fb[y] in FrontierOf(dir, fb[x]) <==> (x, y) in done))
  }

  ghost predicate Frontiers(dir: Direction, fb: seq<BasicBlock>, done: set<(int, int)>)
    reads fb`dominanceFrontier, fb`reverseDominanceFrontier
  {
    forall x {:trigger FrontierAt(dir, fb, done, x)} :: 0 <= x < |fb| ==> FrontierAt(dir, fb, done, x)
  }

  function Opposite(dir: Direction): Direction {
    if dir.Forward? then Backward else Forward
  }

  twostate predicate OppositeFrontiersKept(dir: Direction, fb: seq<BasicBlock>)
    reads fb`dominanceFrontier, fb`reverseDominanceFrontier
  {
    forall i {:trigger fb[i]} :: 0 <= i < |fb| ==>
      FrontierOf(Opposite(dir), fb[i]) == old(FrontierOf(Opposite(dir), fb[i]))
  }

  /** add_block_to_dominance_frontier and its reverse twin. */
  method AddBlockToFrontier(dir: Direction, block: BasicBlock, dfBlock: BasicBlock,
                            ghost fb: seq<BasicBlock>, ghost done: set<(int, int)>, ghost x: int, ghost y: int)
    requires Distinct(fb) && IsNumber(fb, block, x) && IsNumber(fb, dfBlock, y)
    requires Frontiers(dir, fb, done)
    modifies block`dominanceFrontier, block`reverseDominanceFrontier
    ensures Frontiers(dir, fb, done + {(x, y)}) && OppositeFrontiersKept(dir, fb)
  {
    assert FrontierAt(dir, fb, done, x);
    for i := 0 to |FrontierOf(dir, block)|
      invariant forall k :: 0 <= k < i ==> FrontierOf(dir, block)[k] != dfBlock
    {
      if FrontierOf(dir, block)[i] == dfBlock {
        assert (x, y) in done && done + {(x, y)} == done;
        return;
      }
    }
    AppendToFrontier(dir, block, dfBlock);
    forall z | 0 <= z < |fb|
      ensures FrontierAt(dir, fb, done + {(x, y)}, z)
    {
      assert old(FrontierAt(dir, fb, done, z));
      assert z != x ==> fb[z] != block;
    }
  }

  method AppendToFrontier(dir: Direction, block: BasicBlock, dfBlock: BasicBlock)
    modifies block`dominanceFrontier, block`reverseDominanceFrontier
    ensures FrontierOf(dir, block) == old(FrontierOf(dir, block)) + [dfBlock]
    ensures FrontierOf(Opposite(dir), block) == old(FrontierOf(Opposite(dir), block))
  {
    if dir.Forward? {
      block.dominanceFrontier := block.dominanceFrontier + [dfBlock];
    } else {
      block.reverseDominanceFrontier := block.reverseDominanceFrontier + [dfBlock];
    }
  }

  // ------------------------------------------------------------- the walks

  /** done' adds to done the pairs (x, y) for the dominators x of p that are not strict
      dominators of y. */
  ghost predicate AddsWalk(g: Graph, r: int, y: int, p: int, done: set<(int, int)>, done': set<(int, int)>) {
    forall x, z {:trigger (x, z) in done'} :: (x, z) in done' <==>
      (x, z) in done || (z == y && 0 <= x < |g| && Dominates(g, r, x, p) && !StrictlyDominates(g, r, x, y))
  }

  ghost predicate AllCorrect(dir: Direction, fb: seq<BasicBlock>, g: Graph, r: int)
    reads fb`immediateDominator, fb`immediatePostdominator
  {
    && |fb| == |g|
    && forall v {:trigger Correct(dir, fb, g, r, v)} :: 0 <= v < |fb| ==> Correct(dir, fb, g, r, v)
  }

  /** Where the cursor goes next: the immediate dominator of c, or nowhere from the root. */
  lemma NextCursor(dir: Direction, fb: seq<BasicBlock>, g: Graph, r: int, c: int) returns (next: int)
    requires Reachable(g, r, c) && AllCorrect(dir, fb, g, r) && 0 <= c < |fb|
    ensures c == r ==> next == -1 && Immediate(dir, fb[c]) == null
    ensures c != r ==> IsImmediateDominator(g, r, next, c) && IsNumber(fb, Immediate(dir, fb[c]), next)
    ensures forall x :: 0 <= x < |g| ==>
              (Dominates(g, r, x, c) <==> x == c || (next >= 0 && Dominates(g, r, x, next)))
    ensures next >= 0 ==> (
              && StrictDominators(g, r, next) < StrictDominators(g, r, c)
              && !Dominates(g, r, c, next) && Reachable(g, r, next))
  {
    assert Correct(dir, fb, g, r, c);
    next := -1;
    if c != r {
      next :| IsImmediateDominator(g, r, next, c) && IsNumber(fb, Immediate(dir, fb[c]), next);
      ClimbDominators(g, r, next, c);
    } else {
      DominatesReflexive(g, r, r);
      forall x | 0 <= x < |g| && Dominates(g, r, x, r) ensures x == r { RootDominators(g, r, x); }
    }
  }

  /** The walk stops at stop: the immediate dominator of y, or -1 past the root when y is the root. */
  ghost predicate StopsAt(dir: Direction, fb: seq<BasicBlock>, g: Graph, r: int, y: int, p: int, stop: int)
    reads fb`immediateDominator, fb`immediatePostdominator
  {
    && 0 <= y < |fb|
    && (stop == -1 ==> Immediate(dir, fb[y]) == null)
    && (stop >= 0 ==> IsNumber(fb, Immediate(dir, fb[y]), stop) && Dominates(g, r, stop, p))
    && (stop == -1 || stop >= 0)
    && forall x :: 0 <= x < |g| ==> (StrictlyDominates(g, r, x, y) <==> stop >= 0 && Dominates(g, r, x, stop))
  }

  lemma FindStop(dir: Direction, fb: seq<BasicBlock>, g: Graph, r: int, y: int, p: int) returns (stop: int)
    requires AllReachable(g, r) && AllCorrect(dir, fb, g, r) && Edge(g, p, y)
    ensures StopsAt(dir, fb, g, r, y, p, stop)
  {
    stop := NextCursor(dir, fb, g, r, y);
    if stop >= 0 {
      StrictDominatorOfPredecessor(g, r, stop, p, y);
      forall x | 0 <= x < |g|
        ensures StrictlyDominates(g, r, x, y) <==> Dominates(g, r, x, stop)
      {
        StrictDominatorsAbove(g, r, stop, x, y);
      }
    }
  }

  /** The pairs stored while the cursor has climbed from p to c. */
  ghost predicate Climbed(g: Graph, r: int, y: int, p: int, c: int, done: set<(int, int)>, done': set<(int, int)>) {
    forall x, z {:trigger (x, z) in done'} :: (x, z) in done' <==>
      (x, z) in done || (z == y && 0 <= x < |g| && Dominates(g, r, x, p) && !(c >= 0 && Dominates(g, r, x, c)))
  }

  /** One step of the cursor keeps account of the stored pairs, and never climbs past stop. */
  lemma ClimbStep(dir: Direction, fb: seq<BasicBlock>, g: Graph, r: int, y: int, p: int, stop: int, c: int,
                  done: set<(int, int)>, done': set<(int, int)>) returns (next: int)
    requires AllReachable(g, r) && AllCorrect(dir, fb, g, r) && 0 <= c < |fb|
    requires Climbed(g, r, y, p, c, done, done') && Dominates(g, r, c, p)
    requires stop >= 0 ==> Dominates(g, r, stop, c) && stop != c
    ensures next == -1 ==> Immediate(dir, fb[c]) == null && stop < 0
    ensures next != -1 ==> (
              && IsNumber(fb, Immediate(dir, fb[c]), next) && Dominates(g, r, next, p)
              && StrictDominators(g, r, next) < StrictDominators(g, r, c))
    ensures stop >= 0 ==> Dominates(g, r, stop, next)
    ensures Climbed(g, r, y, p, next, done, done' + {(c, y)})
  {
    next := NextCursor(dir, fb, g, r, c);
    if c == r {
      if stop >= 0 { DominatorReachable(g, r, stop, c); RootDominators(g, r, stop); }
    } else {
      DominatesTransitive(g, r, next, c, p);
    }
    forall x | 0 <= x < |g| && Dominates(g, r, x, c)
      ensures Dominates(g, r, x, p)
    {
      DominatesTransitive(g, r, x, c, p);
    }
    forall x, z
      ensures (x, z) in done' + {(c, y)} <==>
        (x, z) in done || (z == y && 0 <= x < |g| && Dominates(g, r, x, p) && !(next >= 0 && Dominates(g, r, x, next)))
    {
    }
  }

  /** The cursor walk from a predecessor p of y up to the immediate dominator of y. */
  method WalkToImmediate(dir: Direction, block: BasicBlock, predecessor: BasicBlock, ghost fb: seq<BasicBlock>,
                         ghost g: Graph, ghost r: int, ghost y: int, ghost p: int, ghost done: set<(int, int)>)
    returns (ghost done': set<(int, int)>)
    requires Distinct(fb) && AllReachable(g, r) && AllCorrect(dir, fb, g, r)
    requires IsNumber(fb, block, y) && IsNumber(fb, predecessor, p) && Edge(g, p, y)
    requires Frontiers(dir, fb, done)
    modifies fb`dominanceFrontier, fb`reverseDominanceFrontier
    ensures Frontiers(dir, fb, done') && AddsWalk(g, r, y, p, done, done')
    ensures OppositeFrontiersKept(dir, fb)
  {
    done' := done;
    var cursor: BasicBlock? := predecessor;
    ghost var c := p;
    DominatesReflexive(g, r, p);
    ghost var stop := FindStop(dir, fb, g, r, y, p);
    while cursor != Immediate(dir, block)
      invariant c == -1 || c >= 0
      invariant if c >= 0 then IsNumber(fb, cursor, c) && Dominates(g, r, c, p) else cursor == null && stop == -1
      invariant stop >= 0 ==> Dominates(g, r, stop, c)
      invariant Frontiers(dir, fb, done') && OppositeFrontiersKept(dir, fb)
      invariant Climbed(g, r, y, p, c, done, done')
      decreases c >= 0, StrictDominators(g, r, c)
    {
      AddBlockToFrontier(dir, cursor, block, fb, done', c, y);
      ghost var next := ClimbStep(dir, fb, g, r, y, p, stop, c, done, done');
      done' := done' + {(c, y)};
      cursor := Immediate(dir, cursor);
      c := next;
    }
    assert c == stop;
  }

  // ------------------------------------------------------- whole functions

  /** done' adds the pairs (x, y) for the dominators x of the predecessors ps of y. */
  ghost predicate AddsWalks(g: Graph, r: int, y: int, ps: set<int>, done: set<(int, int)>, done': set<(int, int)>) {
    forall x, z {:trigger (x, z) in done'} :: (x, z) in done' <==>
      (x, z) in done || (z == y && 0 <= x < |g| && !StrictlyDominates(g, r, x, y) && DominatesSome(g, r, x, ps))
  }

  ghost predicate DominatesSome(g: Graph, r: int, x: int, ps: set<int>) {
    exists p :: p in ps && Dominates(g, r, x, p)
  }

  lemma AddOneWalk(g: Graph, r: int, y: int, ps: set<int>, p: int,
                   done: set<(int, int)>, done1: set<(int, int)>, done2: set<(int, int)>)
    requires AddsWalks(g, r, y, ps, done, done1) && AddsWalk(g, r, y, p, done1, done2)
    ensures AddsWalks(g, r, y, ps + {p}, done, done2)
  {
  }

  lemma PredecessorAt(dir: Direction, fb: seq<BasicBlock>, g: Graph, y: int, j: int) returns (p: int)
    requires InModelled(dir, fb, g, y) && 0 <= j < |InEdges(dir, fb[y])|
    ensures Edge(g, p, y) && fb[p] == InEdges(dir, fb[y])[j]
  {
    var predecessor := InEdges(dir, fb[y])[j];
    p :| Edge(g, p, y) && fb[p] == predecessor;
  }

  /** The predecessor loop for one block y. */
  method WalkPredecessors(dir: Direction, block: BasicBlock, ghost fb: seq<BasicBlock>, ghost g: Graph, ghost r: int,
                          ghost y: int, ghost done: set<(int, int)>)
    returns (ghost done': set<(int, int)>, ghost ps: set<int>)
    requires Models(dir, fb, g) && AllReachable(g, r) && AllCorrect(dir, fb, g, r)
    requires IsNumber(fb, block, y) && Frontiers(dir, fb, done)
    modifies fb`dominanceFrontier, fb`reverseDominanceFrontier
    ensures Frontiers(dir, fb, done') && AddsWalks(g, r, y, ps, done, done')
    ensures forall p :: p in ps <==> Edge(g, p, y)
    ensures OppositeFrontiersKept(dir, fb)
  {
    done', ps := done, {};
    assert InModelled(dir, fb, g, y);
    for j := 0 to |InEdges(dir, block)|
      invariant Frontiers(dir, fb, done') && AddsWalks(g, r, y, ps, done, done')
      invariant OppositeFrontiersKept(dir, fb)
      invariant forall p :: p in ps ==> Edge(g, p, y)
      invariant forall k :: 0 <= k < j ==> exists p :: p in ps && fb[p] == InEdges(dir, block)[k]
    {
      ghost var p := PredecessorAt(dir, fb, g, y, j);
      ghost var before := done';
      done' := WalkToImmediate(dir, block, InEdges(dir, block)[j], fb, g, r, y, p, done');
      AddOneWalk(g, r, y, ps, p, done, before, done');
      assert p in ps + {p};
      ps := ps + {p};
    }
    forall p | Edge(g, p, y)
      ensures p in ps
    {
      var k :| 0 <= k < |InEdges(dir, block)| && InEdges(dir, block)[k] == fb[p];
    }
  }

  /** The pairs stored once the blocks below n have been looked at. */
  ghost predicate StoredBelow(dir: Direction, fb: seq<BasicBlock>, g: Graph, r: int, n: int, done: set<(int, int)>)
    reads fb`successors, fb`predecessors
  {
    forall x, y {:trigger (x, y) in done} :: (x, y) in done <==>
      0 <= y < n && y < |fb| && InFrontier(g, r, x, y) && |InEdges(dir, fb[y])| >= 2
  }

  lemma StoreBlock(dir: Direction, fb: seq<BasicBlock>, g: Graph, r: int, y: int, ps: set<int>,
                   done: set<(int, int)>, done': set<(int, int)>, next: int)
    requires 0 <= y < |fb| && |InEdges(dir, fb[y])| >= 2 && next == y + 1
    requires StoredBelow(dir, fb, g, r, y, done) && AddsWalks(g, r, y, ps, done, done')
    requires forall p :: p in ps <==> Edge(g, p, y)
    ensures StoredBelow(dir, fb, g, r, next, done')
  {
  }

  /** A vertex other than the root all of whose predecessors are p is dominated by p. */
  lemma OnlyPredecessorDominates(g: Graph, r: int, p: int, y: int)
    requires y != r && forall u :: Edge(g, u, y) ==> u == p
    ensures Dominates(g, r, p, y)
  {
    forall q | PathFromTo(g, q, r, y)
      ensures p in q
    {
      assert Edge(g, q[|q| - 2], q[|q| - 1]);
    }
  }

  /** A vertex whose only predecessor is itself cannot be entered. */
  lemma {:induction false} NotEntered(g: Graph, r: int, y: int, q: seq<int>)
    requires PathFromTo(g, q, r, y) && forall u :: Edge(g, u, y) ==> u == y
    ensures y == r
  {
    if |q| <= 1 {
    } else {
      var k := |q| - 2;
      assert Edge(g, q[k], q[k + 1]);
      SubPath(g, q, 0, k);
      NotEntered(g, r, y, q[0..k + 1]);
    }
  }

  lemma OnePredecessor(dir: Direction, fb: seq<BasicBlock>, g: Graph, y: int, p: int)
    requires Models(dir, fb, g) && Edge(g, p, y) && |InEdges(dir, fb[y])| < 2
    ensures |InEdges(dir, fb[y])| == 1 && forall u :: Edge(g, u, y) ==> u == p
  {
    assert InModelled(dir, fb, g, y);
    assert fb[p] in InEdges(dir, fb[y]);
    forall u | Edge(g, u, y)
      ensures u == p
    {
      assert fb[u] in InEdges(dir, fb[y]);
    }
  }

  /** Without a path into it from elsewhere, a vertex with the sole predecessor p is either
      the root or has no frontier to be in. */
  lemma SolePredecessor(g: Graph, r: int, x: int, y: int, p: int)
    requires Reachable(g, r, y) && Reachable(g, r, p) && Dominates(g, r, x, p) && !StrictlyDominates(g, r, x, y)
    requires forall u :: Edge(g, u, y) ==> u == p
    ensures y == r
  {
    if y != r {
      OnlyPredecessorDominates(g, r, p, y);
      DominatesTransitive(g, r, x, p, y);
      DominatesAntisymmetric(g, r, p, y);
      var q :| PathFromTo(g, q, r, y);
      NotEntered(g, r, y, q);
    }
  }

  /** Skipping a block with fewer than two predecessors loses nothing, unless it is the root. */
  lemma SkippedBlocks(dir: Direction, fb: seq<BasicBlock>, g: Graph, r: int, x: int, y: int)
    requires Models(dir, fb, g) && AllReachable(g, r) && 0 <= y < |fb|
    requires InFrontier(g, r, x, y) && |InEdges(dir, fb[y])| < 2
    ensures y == r && |InEdges(dir, fb[y])| == 1
  {
    var p :| Edge(g, p, y) && Dominates(g, r, x, p);
    OnePredecessor(dir, fb, g, y, p);
    SolePredecessor(g, r, x, y, p);
  }

  /** With one predecessor the root is in its own frontier, so the skip makes the result wrong. */
  lemma SkippedRoot(dir: Direction, fb: seq<BasicBlock>, g: Graph, r: int)
    requires Models(dir, fb, g) && 0 <= r < |fb| && |InEdges(dir, fb[r])| == 1
    ensures InFrontier(g, r, r, r)
  {
    assert InModelled(dir, fb, g, r);
    var p := PredecessorAt(dir, fb, g, r, 0);
    RootDominatesAll(g, r, p);
  }

  /** x's stored frontier: as the definition says, except that a root with exactly one
      predecessor is in no frontier. */
  ghost predicate StoresFrontier(dir: Direction, fb: seq<BasicBlock>, g: Graph, r: int, x: int)
    reads fb`dominanceFrontier, fb`reverseDominanceFrontier, fb`successors, fb`predecessors
  {
    && 0 <= x < |fb| && 0 <= r < |fb|
    && Distinct(FrontierOf(dir, fb[x]))
    && (forall b {:trigger b in FrontierOf(dir, fb[x])} :: b in FrontierOf(dir, fb[x]) ==> b in fb)
    && forall y {:trigger InFrontier(g, r, x, y)} :: 0 <= y < |fb| ==>
         (fb[y] in FrontierOf(dir, fb[x]) <==> InFrontier(g, r, x, y) && !(y == r && |InEdges(dir, fb[r])| == 1))
  }

  /** calculate_dominance_frontiers and calculate_reverse_dominance_frontiers. */
  method CalculateFrontiers(dir: Direction, functionBlocks: seq<BasicBlock>, ghost g: Graph, ghost r: int)
    requires Models(dir, functionBlocks, g) && AllReachable(g, r) && AllCorrect(dir, functionBlocks, g, r)
    requires forall i {:trigger functionBlocks[i]} :: 0 <= i < |functionBlocks| ==> FrontierOf(dir, functionBlocks[i]) == []
    modifies functionBlocks`dominanceFrontier, functionBlocks`reverseDominanceFrontier
    ensures forall x {:trigger StoresFrontier(dir, functionBlocks, g, r, x)} :: 0 <= x < |functionBlocks| ==>
              StoresFrontier(dir, functionBlocks, g, r, x)
    ensures OppositeFrontiersKept(dir, functionBlocks)
  {
    ghost var done: set<(int, int)> := {};
    assert Frontiers(dir, functionBlocks, done) by {
      forall x | 0 <= x < |functionBlocks|
        ensures FrontierAt(dir, functionBlocks, done, x)
      {
        assert FrontierOf(dir, functionBlocks[x]) == [];
      }
    }
    var i := 0;
    while i < |functionBlocks|
      invariant 0 <= i <= |functionBlocks|
      invariant Frontiers(dir, functionBlocks, done) && StoredBelow(dir, functionBlocks, g, r, i, done)
      invariant OppositeFrontiersKept(dir, functionBlocks)
    {
      var block := functionBlocks[i];
      var next := i + 1;
      if |InEdges(dir, block)| >= 2 {
        ghost var before := done;
        ghost var ps;
        done, ps := WalkPredecessors(dir, block, functionBlocks, g, r, i, done);
        StoreBlock(dir, functionBlocks, g, r, i, ps, before, done, next);
      }
      i := next;
    }
    forall x | 0 <= x < |functionBlocks|
      ensures StoresFrontier(dir, functionBlocks, g, r, x)
    {
      FrontierStored(dir, functionBlocks, g, r, done, i, x);
    }
  }

  lemma FrontierStored(dir: Direction, fb: seq<BasicBlock>, g: Graph, r: int, done: set<(int, int)>, n: int, x: int)
    requires Models(dir, fb, g) && AllReachable(g, r) && 0 <= x < |fb| == n
    requires Frontiers(dir, fb, done) && StoredBelow(dir, fb, g, r, n, done)
    ensures StoresFrontier(dir, fb, g, r, x)
  {
    assert FrontierAt(dir, fb, done, x);
    forall y {:trigger InFrontier(g, r, x, y)} | 0 <= y < |fb|
      ensures fb[y] in FrontierOf(dir, fb[x]) <==> (InFrontier(g, r, x, y) && !(y == r && |InEdges(dir, fb[r])| == 1))
    {
      assert fb[y] in FrontierOf(dir, fb[x]) <==> (x, y) in done;
      if InFrontier(g, r, x, y) && |InEdges(dir, fb[y])| < 2 {
        SkippedBlocks(dir, fb, g, r, x, y);
      }
    }
  }

  /** The stored frontiers are the frontiers of the definition exactly when the root does not
      have one predecessor; with one, the root's own frontier lacks the root. */
  lemma FrontiersExact(dir: Direction, fb: seq<BasicBlock>, g: Graph, r: int)
    requires Models(dir, fb, g) && 0 <= r < |fb|
    requires forall x {:trigger StoresFrontier(dir, fb, g, r, x)} :: 0 <= x < |fb| ==> StoresFrontier(dir, fb, g, r, x)
    ensures |InEdges(dir, fb[r])| != 1 <==>
              forall x, y {:trigger InFrontier(g, r, x, y)} :: 0 <= x < |fb| && 0 <= y < |fb| ==>
                (fb[y] in FrontierOf(dir, fb[x]) <==> InFrontier(g, r, x, y))
  {
    if |InEdges(dir, fb[r])| == 1 {
      SkippedRoot(dir, fb, g, r);
      assert StoresFrontier(dir, fb, g, r, r);
    } else {
      forall x, y {:trigger InFrontier(g, r, x, y)} | 0 <= x < |fb| && 0 <= y < |fb|
        ensures fb[y] in FrontierOf(dir, fb[x]) <==> InFrontier(g, r, x, y)
      {
        assert StoresFrontier(dir, fb, g, r, x);
      }
    }
  }
}
