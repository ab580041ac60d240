/** Dominator trees, postdominance as dominance in the reversed graph, the search for the
    nearest marked postdominator, and the routine that computes every relation. */
module ControlFlowRelations {
  import opened BasicBlocks
  import opened Graphs
  import opened UnionFindForest
  import opened NumberedGraph
  import opened DominatorComputation
  import opened DynamicArrays
  import opened DominanceFrontiers

  // -------------------------------------------------------- dominator trees

  /** The children stored at x once the blocks from number `from` on have been looked at. */
  ghost predicate ChildrenFrom(fb: seq<BasicBlock>, from: int, x: int)
    reads fb`dominatorChildren, fb`immediateDominator
  {
    && 0 <= x < |fb| && Distinct(fb[x].dominatorChildren)
    && (forall k {:trigger fb[x].dominatorChildren[k]} :: 0 <= k < |fb[x].dominatorChildren| ==>
          fb[x].dominatorChildren[k] in fb)
    && forall y {:trigger fb[y]} :: 0 <= y < |fb| ==>
         (fb[y] in fb[x].dominatorChildren <==> from <= y && fb[y].immediateDominator == fb[x])
  }

  method AddDominatorChild(dominator: BasicBlock, dominated: BasicBlock)
    modifies dominator`dominatorChildren
    ensures dominator.dominatorChildren ==
              old(dominator.dominatorChildren) + if dominated in old(dominator.dominatorChildren) then [] else [dominated]
  {
    if dominated !in dominator.dominatorChildren {
      dominator.dominatorChildren := dominator.dominatorChildren + [dominated];
    }
  }

  /** x's stored children: the reachable blocks whose immediate dominator is x. */
  ghost predicate StoresChildren(fb: seq<BasicBlock>, g: Graph, r: int, x: int)
    reads fb`dominatorChildren
  {
    && 0 <= x < |fb| && Distinct(fb[x].dominatorChildren)
    && (forall b {:trigger b in fb[x].dominatorChildren} :: b in fb[x].dominatorChildren ==> b in fb)
    && forall y {:trigger IsImmediateDominator(g, r, x, y)} :: 0 <= y < |fb| ==>
         (fb[y] in fb[x].dominatorChildren <==> Reachable(g, r, y) && IsImmediateDominator(g, r, x, y))
  }

  /** build_dominator_trees. */
  method BuildDominatorTrees(functionBlocks: seq<BasicBlock>, ghost g: Graph, ghost r: int)
    requires Distinct(functionBlocks) && AllCorrect(Forward, functionBlocks, g, r) && 0 <= r < |functionBlocks|
    requires forall i {:trigger functionBlocks[i]} :: 0 <= i < |functionBlocks| ==> functionBlocks[i].dominatorChildren == []
    modifies functionBlocks`dominatorChildren
    ensures forall x {:trigger StoresChildren(functionBlocks, g, r, x)} :: 0 <= x < |functionBlocks| ==>
              StoresChildren(functionBlocks, g, r, x)
  {
    var i := |functionBlocks| - 1;
    ghost var from := i + 1;
    while i >= 0
      invariant -1 <= i < |functionBlocks| && from == i + 1
      invariant forall x {:trigger ChildrenFrom(functionBlocks, from, x)} :: 0 <= x < |functionBlocks| ==>
                  ChildrenFrom(functionBlocks, from, x)
    {
      var current := functionBlocks[i];
      var dominator := current.immediateDominator;
      label Before:
      if dominator != null {
        assert Correct(Forward, functionBlocks, g, r, i);
        assert dominator in functionBlocks;
        AddDominatorChild(dominator, current);
      }
      ghost var below := i;
      forall x | 0 <= x < |functionBlocks|
        ensures ChildrenFrom(functionBlocks, below, x)
      {
        assert old@Before(ChildrenFrom(functionBlocks, from, x));
        assert functionBlocks[below] == current;
      }
      from := below;
      i := i - 1;
    }
    forall x | 0 <= x < |functionBlocks|
      ensures StoresChildren(functionBlocks, g, r, x)
    {
      ChildrenStored(functionBlocks, g, r, from, x);
    }
  }

  lemma ChildrenStored(fb: seq<BasicBlock>, g: Graph, r: int, from: int, x: int)
    requires Distinct(fb) && AllCorrect(Forward, fb, g, r) && 0 <= r < |fb| && from == 0 && 0 <= x < |fb|
    requires ChildrenFrom(fb, from, x)
    ensures StoresChildren(fb, g, r, x)
  {
    forall y | 0 <= y < |fb|
      ensures fb[y].immediateDominator == fb[x] <==> Reachable(g, r, y) && IsImmediateDominator(g, r, x, y)
    {
      assert Correct(Forward, fb, g, r, y);
      if Reachable(g, r, y) && IsImmediateDominator(g, r, x, y) {
        if y == r { RootDominators(g, r, x); }
        var d :| IsImmediateDominator(g, r, d, y) && IsNumber(fb, Immediate(Forward, fb[y]), d);
        ImmediateDominatorUnique(g, r, d, x, y);
      }
    }
  }

  // --------------------------------------------------------- postdominance

  /** d lies on every path from v to the exit. */
  ghost predicate Postdominates(f: Graph, exit: int, d: int, v: int) {
    forall p :: PathFromTo(f, p, v, exit) ==> d in p
  }

  ghost predicate Transposed(f: Graph, g: Graph) {
    |f| == |g| && forall u, v :: Edge(f, u, v) <==> Edge(g, v, u)
  }

  /** The graphs of one set of blocks along successors and along predecessors. */
  lemma ModelsTransposed(fb: seq<BasicBlock>, f: Graph, g: Graph)
    requires Models(Forward, fb, f) && Models(Backward, fb, g)
    ensures Transposed(f, g)
  {
    forall u, v
      ensures Edge(f, u, v) <==> Edge(g, v, u)
    {
      if Edge(f, u, v) {
        assert InModelled(Forward, fb, f, v) && OutModelled(Backward, fb, g, v);
        assert fb[u] in fb[v].predecessors;
        var k :| 0 <= k < |g[v]| && fb[g[v][k]] == fb[u];
        assert g[v][k] == u;
      }
      if Edge(g, v, u) {
        assert InModelled(Backward, fb, g, u) && OutModelled(Forward, fb, f, u);
        assert fb[v] in fb[u].successors;
        var k :| 0 <= k < |f[u]| && fb[f[u][k]] == fb[v];
        assert f[u][k] == v;
      }
    }
  }

  function Backwards(p: seq<int>): (q: seq<int>)
    ensures |q| == |p| && (forall k :: 0 <= k < |p| ==> q[k] == p[|p| - 1 - k])
    ensures forall x :: x in q <==> x in p
  {
    if p == [] then [] else Backwards(p[1..]) + [p[0]]
  }

  lemma PathBackwards(f: Graph, g: Graph, p: seq<int>, u: int, v: int)
    requires Transposed(f, g) && PathFromTo(f, p, u, v)
    ensures PathFromTo(g, Backwards(p), v, u)
  {
  }

  /** Postdominance is dominance in the reversed graph. */
  lemma PostdominatesReversed(f: Graph, g: Graph, exit: int, d: int, v: int)
    requires Transposed(f, g)
    ensures Postdominates(f, exit, d, v) <==> Dominates(g, exit, d, v)
  {
    forall p | Postdominates(f, exit, d, v) && PathFromTo(g, p, exit, v)
      ensures d in p
    {
      PathBackwards(g, f, p, exit, v);
    }
    forall p | Dominates(g, exit, d, v) && PathFromTo(f, p, v, exit)
      ensures d in p
    {
      PathBackwards(f, g, p, v, exit);
    }
  }

  // ------------------------------------------- nearest marked postdominator

  ghost predicate MarkedAbove(fb: seq<BasicBlock>, f: Graph, exit: int, v: int, m: int)
    reads fb`containsMark
  {
    0 <= m < |fb| && fb[m].containsMark && m != v && Postdominates(f, exit, m, v)
  }

  /** Every marked strict postdominator of v is a dominator of c in the reversed graph. */
  ghost predicate MarksAbove(fb: seq<BasicBlock>, g: Graph, r: int, v: int, c: int)
    reads fb`containsMark
  {
    forall m {:trigger StrictlyDominates(g, r, m, v)} ::
      0 <= m < |fb| && fb[m].containsMark && StrictlyDominates(g, r, m, v) ==> c >= 0 && Dominates(g, r, m, c)
  }

  lemma FirstCursor(fb: seq<BasicBlock>, g: Graph, r: int, v: int) returns (c: int)
    requires AllCorrect(Backward, fb, g, r) && 0 <= v < |fb| && Reachable(g, r, v)
    ensures c == -1 ==> fb[v].immediatePostdominator == null
    ensures c >= 0 ==> (
              && IsNumber(fb, fb[v].immediatePostdominator, c) && Reachable(g, r, c)
              && StrictlyDominates(g, r, c, v) && MarksAbove(fb, g, r, v, c))
    ensures c >= -1
    ensures c == -1 ==> forall m :: 0 <= m < |fb| ==> !StrictlyDominates(g, r, m, v)
  {
    c := NextCursor(Backward, fb, g, r, v);
  }

  /** get_nearest_marked_postdominator, once the postdominators have been computed. */
  method GetNearestMarkedPostdominator(block: BasicBlock, ghost fb: seq<BasicBlock>, ghost f: Graph, ghost g: Graph,
                                       ghost exit: int, ghost v: int)
    returns (nearest: BasicBlock?)
    requires Transposed(f, g) && AllCorrect(Backward, fb, g, exit) && IsNumber(fb, block, v) && Reachable(f, v, exit)
    ensures nearest == null <==> forall m :: !MarkedAbove(fb, f, exit, v, m)
    ensures nearest != null ==>
              exists m :: IsNumber(fb, nearest, m) && MarkedAbove(fb, f, exit, v, m)
                && forall x :: MarkedAbove(fb, f, exit, v, x) ==> Postdominates(f, exit, x, m)
  {
    ReachableReversed(f, g, v, exit);
    var cursor := block.immediatePostdominator;
    ghost var c := FirstCursor(fb, g, exit, v);
    while cursor != null
      invariant c >= -1
      invariant if c >= 0 then IsNumber(fb, cursor, c) else cursor == null
      invariant c >= 0 ==> Reachable(g, exit, c) && StrictlyDominates(g, exit, c, v)
      invariant MarksAbove(fb, g, exit, v, c)
      decreases c >= 0, StrictDominators(g, exit, c)
    {
      if cursor.containsMark {
        NearestFound(fb, f, g, exit, v, c);
        return cursor;
      }
      c := ClimbMarks(fb, g, exit, v, c);
      cursor := cursor.immediatePostdominator;
    }
    forall m
      ensures !MarkedAbove(fb, f, exit, v, m)
    {
      PostdominatesReversed(f, g, exit, m, v);
      assert 0 <= m < |fb| && fb[m].containsMark ==> !StrictlyDominates(g, exit, m, v);
    }
    return null;
  }

  lemma ReachableReversed(f: Graph, g: Graph, u: int, v: int)
    requires Transposed(f, g) && Reachable(f, u, v)
    ensures Reachable(g, v, u)
  {
    var p :| PathFromTo(f, p, u, v);
    PathBackwards(f, g, p, u, v);
  }

  lemma NearestFound(fb: seq<BasicBlock>, f: Graph, g: Graph, exit: int, v: int, m: int)
    requires Transposed(f, g) && 0 <= m < |fb| && fb[m].containsMark
    requires StrictlyDominates(g, exit, m, v) && MarksAbove(fb, g, exit, v, m)
    ensures MarkedAbove(fb, f, exit, v, m)
    ensures forall x :: MarkedAbove(fb, f, exit, v, x) ==> Postdominates(f, exit, x, m)
  {
    PostdominatesReversed(f, g, exit, m, v);
    forall x | MarkedAbove(fb, f, exit, v, x)
      ensures Postdominates(f, exit, x, m)
    {
      PostdominatesReversed(f, g, exit, x, v);
      assert StrictlyDominates(g, exit, x, v);
      PostdominatesReversed(f, g, exit, x, m);
    }
  }

  /** Climbing past an unmarked block loses no marked postdominator. */
  lemma ClimbMarks(fb: seq<BasicBlock>, g: Graph, r: int, v: int, c: int) returns (next: int)
    requires AllCorrect(Backward, fb, g, r) && 0 <= c < |fb| && Reachable(g, r, c) && !fb[c].containsMark
    requires StrictlyDominates(g, r, c, v) && MarksAbove(fb, g, r, v, c)
    ensures next >= -1 && MarksAbove(fb, g, r, v, next)
    ensures next == -1 ==> fb[c].immediatePostdominator == null
    ensures next >= 0 ==> (
              && IsNumber(fb, fb[c].immediatePostdominator, next) && Reachable(g, r, next)
              && StrictlyDominates(g, r, next, v)
              && StrictDominators(g, r, next) < StrictDominators(g, r, c))
  {
    next := NextCursor(Backward, fb, g, r, c);
    if next >= 0 {
      DominatesTransitive(g, r, next, c, v);
      if next == v { DominatesAntisymmetric(g, r, c, v); }
    }
  }

  // ------------------------------------------------------ every relation

  /** The relations along successors, stated on the successor graph. */
  ghost predicate ForwardRelations(fb: seq<BasicBlock>, f: Graph, entry: int, x: int)
    reads fb`immediateDominator, fb`immediatePostdominator, fb`dominatorChildren, fb`dominanceFrontier,
          fb`reverseDominanceFrontier, fb`successors, fb`predecessors
  {
    Correct(Forward, fb, f, entry, x) && StoresChildren(fb, f, entry, x) && StoresFrontier(Forward, fb, f, entry, x)
  }

  /** The relations along predecessors, stated on the reversed graph. */
  ghost predicate BackwardRelations(fb: seq<BasicBlock>, g: Graph, exit: int, x: int)
    reads fb`immediateDominator, fb`immediatePostdominator, fb`dominanceFrontier,
          fb`reverseDominanceFrontier, fb`successors, fb`predecessors
  {
    Correct(Backward, fb, g, exit, x) && StoresFrontier(Backward, fb, g, exit, x)
  }

  /** The dominators and the dominator tree. */
  method ComputeDominatorTrees(entryBlock: BasicBlock, functionBlocks: seq<BasicBlock>, ghost f: Graph, ghost entry: int)
    requires Models(Forward, functionBlocks, f) && IsNumber(functionBlocks, entryBlock, entry)
    requires forall i {:trigger functionBlocks[i]} :: 0 <= i < |functionBlocks| ==> functionBlocks[i].dominatorChildren == []
    modifies functionBlocks`ancestor, functionBlocks`optimalCandidate, functionBlocks`semidominatorNumber,
             functionBlocks`parent, functionBlocks`dfsNumber, functionBlocks`worklist,
             functionBlocks`immediateDominator, functionBlocks`immediatePostdominator, functionBlocks`dominatorChildren
    ensures AllCorrect(Forward, functionBlocks, f, entry)
    ensures forall x {:trigger StoresChildren(functionBlocks, f, entry, x)} :: 0 <= x < |functionBlocks| ==>
              StoresChildren(functionBlocks, f, entry, x)
  {
    ComputeImmediate(Forward, entryBlock, functionBlocks, f, entry);
    BuildDominatorTrees(functionBlocks, f, entry);
  }

  method CalculateForwardRelations(entryBlock: BasicBlock, functionBlocks: seq<BasicBlock>, ghost f: Graph, ghost entry: int)
    requires Models(Forward, functionBlocks, f) && IsNumber(functionBlocks, entryBlock, entry) && AllReachable(f, entry)
    requires forall i {:trigger functionBlocks[i]} :: 0 <= i < |functionBlocks| ==>
               functionBlocks[i].dominatorChildren == functionBlocks[i].dominanceFrontier == []
    modifies functionBlocks`ancestor, functionBlocks`optimalCandidate, functionBlocks`semidominatorNumber,
             functionBlocks`parent, functionBlocks`dfsNumber, functionBlocks`worklist,
             functionBlocks`immediateDominator, functionBlocks`immediatePostdominator,
             functionBlocks`dominatorChildren, functionBlocks`dominanceFrontier, functionBlocks`reverseDominanceFrontier
    ensures forall x {:trigger ForwardRelations(functionBlocks, f, entry, x)} :: 0 <= x < |functionBlocks| ==>
              ForwardRelations(functionBlocks, f, entry, x)
    ensures OppositeFrontiersKept(Forward, functionBlocks)
  {
    ComputeDominatorTrees(entryBlock, functionBlocks, f, entry);
    CalculateFrontiers(Forward, functionBlocks, f, entry);
  }

  /** The postdominators, leaving the relations along successors as they are. */
  method ComputePostdominators(exitBlock: BasicBlock, functionBlocks: seq<BasicBlock>, ghost f: Graph, ghost g: Graph,
                               ghost entry: int, ghost exit: int)
    requires Models(Backward, functionBlocks, g) && IsNumber(functionBlocks, exitBlock, exit)
    requires forall x {:trigger ForwardRelations(functionBlocks, f, entry, x)} :: 0 <= x < |functionBlocks| ==>
              ForwardRelations(functionBlocks, f, entry, x)
    modifies functionBlocks`ancestor, functionBlocks`optimalCandidate, functionBlocks`semidominatorNumber,
             functionBlocks`parent, functionBlocks`dfsNumber, functionBlocks`worklist,
             functionBlocks`immediateDominator, functionBlocks`immediatePostdominator
    ensures forall x {:trigger ForwardRelations(functionBlocks, f, entry, x)} :: 0 <= x < |functionBlocks| ==>
              ForwardRelations(functionBlocks, f, entry, x)
    ensures AllCorrect(Backward, functionBlocks, g, exit)
  {
    ComputeImmediate(Backward, exitBlock, functionBlocks, g, exit);
    forall x | 0 <= x < |functionBlocks|
      ensures ForwardRelations(functionBlocks, f, entry, x)
    {
      assert old(ForwardRelations(functionBlocks, f, entry, x));
      assert functionBlocks[x].immediateDominator == old(functionBlocks[x].immediateDominator);
    }
  }

  /** The reverse frontiers, leaving the relations along successors as they are. */
  method ComputeReverseFrontiers(functionBlocks: seq<BasicBlock>, ghost f: Graph, ghost g: Graph, ghost entry: int, ghost exit: int)
    requires Models(Backward, functionBlocks, g) && AllReachable(g, exit) && AllCorrect(Backward, functionBlocks, g, exit)
    requires forall i {:trigger functionBlocks[i]} :: 0 <= i < |functionBlocks| ==>
               functionBlocks[i].reverseDominanceFrontier == []
    requires forall x {:trigger ForwardRelations(functionBlocks, f, entry, x)} :: 0 <= x < |functionBlocks| ==>
              ForwardRelations(functionBlocks, f, entry, x)
    modifies functionBlocks`dominanceFrontier, functionBlocks`reverseDominanceFrontier
    ensures forall x {:trigger ForwardRelations(functionBlocks, f, entry, x)} :: 0 <= x < |functionBlocks| ==>
              ForwardRelations(functionBlocks, f, entry, x)
    ensures forall x {:trigger BackwardRelations(functionBlocks, g, exit, x)} :: 0 <= x < |functionBlocks| ==>
              BackwardRelations(functionBlocks, g, exit, x)
  {
    CalculateFrontiers(Backward, functionBlocks, g, exit);
    forall x | 0 <= x < |functionBlocks|
      ensures Correct(Forward, functionBlocks, f, entry, x) && StoresChildren(functionBlocks, f, entry, x)
      ensures StoresFrontier(Forward, functionBlocks, f, entry, x)
    {
      assert old(ForwardRelations(functionBlocks, f, entry, x));
      assert old(StoresFrontier(Forward, functionBlocks, f, entry, x));
      assert functionBlocks[x].dominanceFrontier == old(functionBlocks[x].dominanceFrontier);
    }
  }

  // ------------------------------------- every relation, field by field

  /** d is a postdominator of v other than v, and every other one postdominates d. */
  ghost predicate IsImmediatePostdominator(f: Graph, exit: int, d: int, v: int) {
    && 0 <= d < |f| && d != v && Postdominates(f, exit, d, v)
    && forall x :: x != v && Postdominates(f, exit, x, v) ==> Postdominates(f, exit, x, d)
  }

  /** x postdominates a successor of y but not, as another block, y itself. */
  ghost predicate InReverseFrontier(f: Graph, exit: int, x: int, y: int) {
    && 0 <= x < |f|
    && !(x != y && Postdominates(f, exit, x, y))
    && exists s :: Edge(f, y, s) && Postdominates(f, exit, x, s)
  }

  /** The edges of vertex x are the successors of its block. */
  ghost predicate EdgesFrom(fb: seq<BasicBlock>, f: Graph, x: int)
    reads fb`successors
  {
    0 <= x < |fb| && forall y {:trigger Edge(f, x, y)} :: 0 <= y < |fb| ==> (Edge(f, x, y) <==> fb[y] in fb[x].successors)
  }

  /** What the fields of block x that hold blocks around it say, on the successor graph alone. */
  ghost predicate DominatorFields(fb: seq<BasicBlock>, f: Graph, entry: int, x: int)
    reads fb`immediateDominator, fb`dominatorChildren, fb`dominanceFrontier, fb`predecessors
  {
    && 0 <= x < |fb| && 0 <= entry < |fb|
    && (if x == entry then fb[x].immediateDominator == null
        else exists d :: IsImmediateDominator(f, entry, d, x) && d < |fb| && fb[x].immediateDominator == fb[d])
    && (forall y {:trigger IsImmediateDominator(f, entry, x, y)} :: 0 <= y < |fb| ==>
          (fb[y] in fb[x].dominatorChildren <==> IsImmediateDominator(f, entry, x, y)))
    && (forall y {:trigger InFrontier(f, entry, x, y)} :: 0 <= y < |fb| ==>
          (fb[y] in fb[x].dominanceFrontier <==>
           InFrontier(f, entry, x, y) && !(y == entry && |fb[entry].predecessors| == 1)))
  }

  ghost predicate PostdominatorFields(fb: seq<BasicBlock>, f: Graph, exit: int, x: int)
    reads fb`immediatePostdominator, fb`reverseDominanceFrontier, fb`successors
  {
    && 0 <= x < |fb| && 0 <= exit < |fb|
    && (if x == exit then fb[x].immediatePostdominator == null
        else exists d :: IsImmediatePostdominator(f, exit, d, x) && d < |fb| && fb[x].immediatePostdominator == fb[d])
    && forall y {:trigger InReverseFrontier(f, exit, x, y)} :: 0 <= y < |fb| ==>
         (fb[y] in fb[x].reverseDominanceFrontier <==>
          InReverseFrontier(f, exit, x, y) && !(y == exit && |fb[exit].successors| == 1))
  }

  lemma ModelledEdges(fb: seq<BasicBlock>, f: Graph, x: int)
    requires Models(Forward, fb, f) && 0 <= x < |fb|
    ensures EdgesFrom(fb, f, x)
  {
    assert OutModelled(Forward, fb, f, x);
    forall y | 0 <= y < |fb|
      ensures Edge(f, x, y) <==> fb[y] in fb[x].successors
    {
      if fb[y] in fb[x].successors {
        var k :| 0 <= k < |fb[x].successors| && fb[x].successors[k] == fb[y];
        assert fb[f[x][k]] == fb[y];
      }
    }
  }

  lemma ForwardFields(fb: seq<BasicBlock>, f: Graph, entry: int, x: int)
    requires AllReachable(f, entry) && |f| == |fb| && 0 <= entry < |fb| && ForwardRelations(fb, f, entry, x)
    ensures DominatorFields(fb, f, entry, x)
  {
    assert Reachable(f, entry, x) && Correct(Forward, fb, f, entry, x);
    if x != entry {
      var d :| IsImmediateDominator(f, entry, d, x) && IsNumber(fb, Immediate(Forward, fb[x]), d);
      assert fb[x].immediateDominator == fb[d];
    }
    forall y | 0 <= y < |fb|
      ensures fb[y] in fb[x].dominatorChildren <==> IsImmediateDominator(f, entry, x, y)
    {
      assert Reachable(f, entry, y);
    }
    assert StoresFrontier(Forward, fb, f, entry, x);
    forall y | 0 <= y < |fb|
      ensures fb[y] in fb[x].dominanceFrontier <==>
                InFrontier(f, entry, x, y) && !(y == entry && |fb[entry].predecessors| == 1)
    {
      assert fb[y] in FrontierOf(Forward, fb[x]) <==>
             InFrontier(f, entry, x, y) && !(y == entry && |InEdges(Forward, fb[entry])| == 1);
    }
  }

  /** The immediate dominator in the reversed graph is the immediate postdominator. */
  lemma ImmediateReversed(f: Graph, g: Graph, exit: int, d: int, v: int)
    requires Transposed(f, g)
    ensures IsImmediateDominator(g, exit, d, v) <==> IsImmediatePostdominator(f, exit, d, v)
  {
    forall x, y
      ensures Postdominates(f, exit, x, y) <==> Dominates(g, exit, x, y)
    {
      PostdominatesReversed(f, g, exit, x, y);
    }
    assert forall x :: StrictlyDominates(g, exit, x, v) <==> x != v && Postdominates(f, exit, x, v);
  }

  /** And the frontier there is the reverse frontier. */
  lemma FrontierReversed(f: Graph, g: Graph, exit: int, x: int, y: int)
    requires Transposed(f, g)
    ensures InFrontier(g, exit, x, y) <==> InReverseFrontier(f, exit, x, y)
  {
    PostdominatesReversed(f, g, exit, x, y);
    forall s
      ensures Edge(g, s, y) && Dominates(g, exit, x, s) <==> Edge(f, y, s) && Postdominates(f, exit, x, s)
    {
      PostdominatesReversed(f, g, exit, x, s);
    }
  }

  lemma BackwardFields(fb: seq<BasicBlock>, f: Graph, g: Graph, exit: int, x: int)
    requires Transposed(f, g) && AllReachable(g, exit) && |g| == |fb| && 0 <= exit < |fb| && BackwardRelations(fb, g, exit, x)
    ensures PostdominatorFields(fb, f, exit, x)
  {
    assert Reachable(g, exit, x);
    if x != exit {
      var d :| IsImmediateDominator(g, exit, d, x) && IsNumber(fb, Immediate(Backward, fb[x]), d);
      ImmediateReversed(f, g, exit, d, x);
    }
    forall y | 0 <= y < |fb|
      ensures fb[y] in fb[x].reverseDominanceFrontier <==>
                InReverseFrontier(f, exit, x, y) && !(y == exit && |fb[exit].successors| == 1)
    {
      FrontierReversed(f, g, exit, x, y);
    }
  }

  /** calculate_all_control_flow_relations_for_function. */
  method CalculateAllControlFlowRelations(entryBlock: BasicBlock, exitBlock: BasicBlock, functionBlocks: seq<BasicBlock>,
                                          ghost f: Graph, ghost g: Graph, ghost entry: int, ghost exit: int)
    requires Models(Forward, functionBlocks, f) && Models(Backward, functionBlocks, g)
    requires IsNumber(functionBlocks, entryBlock, entry) && IsNumber(functionBlocks, exitBlock, exit)
    requires AllReachable(f, entry) && AllReachable(g, exit)
    requires forall i {:trigger functionBlocks[i]} :: 0 <= i < |functionBlocks| ==>
               && functionBlocks[i].dominatorChildren == functionBlocks[i].dominanceFrontier == []
               && functionBlocks[i].reverseDominanceFrontier == []
    modifies functionBlocks`ancestor, functionBlocks`optimalCandidate, functionBlocks`semidominatorNumber,
             functionBlocks`parent, functionBlocks`dfsNumber, functionBlocks`worklist,
             functionBlocks`immediateDominator, functionBlocks`immediatePostdominator,
             functionBlocks`dominatorChildren, functionBlocks`dominanceFrontier, functionBlocks`reverseDominanceFrontier
    ensures forall x {:trigger ForwardRelations(functionBlocks, f, entry, x)} :: 0 <= x < |functionBlocks| ==>
              ForwardRelations(functionBlocks, f, entry, x)
    ensures forall x {:trigger BackwardRelations(functionBlocks, g, exit, x)} :: 0 <= x < |functionBlocks| ==>
              BackwardRelations(functionBlocks, g, exit, x)
    ensures forall x {:trigger functionBlocks[x]} :: 0 <= x < |functionBlocks| ==>
              && EdgesFrom(functionBlocks, f, x) && DominatorFields(functionBlocks, f, entry, x)
              && PostdominatorFields(functionBlocks, f, exit, x)
  {
    ModelsTransposed(functionBlocks, f, g);
    forall x | 0 <= x < |functionBlocks|
      ensures EdgesFrom(functionBlocks, f, x)
    {
      ModelledEdges(functionBlocks, f, x);
    }
    ComputeEveryRelation(entryBlock, exitBlock, functionBlocks, f, g, entry, exit);
    forall x | 0 <= x < |functionBlocks|
      ensures DominatorFields(functionBlocks, f, entry, x) && PostdominatorFields(functionBlocks, f, exit, x)
    {
      assert ForwardRelations(functionBlocks, f, entry, x) && BackwardRelations(functionBlocks, g, exit, x);
      ForwardFields(functionBlocks, f, entry, x);
      BackwardFields(functionBlocks, f, g, exit, x);
    }
  }

  /** The five computations, in the order of the source. */
  method ComputeEveryRelation(entryBlock: BasicBlock, exitBlock: BasicBlock, functionBlocks: seq<BasicBlock>,
                              ghost f: Graph, ghost g: Graph, ghost entry: int, ghost exit: int)
    requires Models(Forward, functionBlocks, f) && Models(Backward, functionBlocks, g)
    requires IsNumber(functionBlocks, entryBlock, entry) && IsNumber(functionBlocks, exitBlock, exit)
    requires AllReachable(f, entry) && AllReachable(g, exit)
    requires forall i {:trigger functionBlocks[i]} :: 0 <= i < |functionBlocks| ==>
               && functionBlocks[i].dominatorChildren == functionBlocks[i].dominanceFrontier == []
               && functionBlocks[i].reverseDominanceFrontier == []
    modifies functionBlocks`ancestor, functionBlocks`optimalCandidate, functionBlocks`semidominatorNumber,
             functionBlocks`parent, functionBlocks`dfsNumber, functionBlocks`worklist,
             functionBlocks`immediateDominator, functionBlocks`immediatePostdominator,
             functionBlocks`dominatorChildren, functionBlocks`dominanceFrontier, functionBlocks`reverseDominanceFrontier
    ensures forall x {:trigger ForwardRelations(functionBlocks, f, entry, x)} :: 0 <= x < |functionBlocks| ==>
              ForwardRelations(functionBlocks, f, entry, x)
    ensures forall x {:trigger BackwardRelations(functionBlocks, g, exit, x)} :: 0 <= x < |functionBlocks| ==>
              BackwardRelations(functionBlocks, g, exit, x)
  {
    CalculateForwardRelations(entryBlock, functionBlocks, f, entry);
    ComputePostdominators(exitBlock, functionBlocks, f, g, entry, exit);
    ComputeReverseFrontiers(functionBlocks, f, g, entry, exit);
  }
}
