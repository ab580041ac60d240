/** The two passes of the dominator computation that follow the numbering: the loop
    over blocks in reverse numbering order (semidominators and deferred buckets), and
    the repair pass. The ghost sequence sem mirrors the stored semidominator numbers. */
module LengauerTarjan {
  import opened BasicBlocks
  import opened Graphs
  import opened SemidominatorTheory
  import opened UnionFindForest

  // ------------------------------------------------------- semidominator scan

  /** sem lists the semidominators of the vertices above w. */
  ghost predicate SemidominatorsAbove(h: Graph, sem: seq<int>, w: int) {
    && |sem| == |h|
    && forall v {:trigger sem[v]} :: 0 <= w < v < |h| ==> IsSemidominator(h, sem[v], v)
  }

  /** Blocks that have not been processed store their own number. */
  ghost predicate OwnNumbersBelow(order: seq<BasicBlock>, lo: int)
    reads order`semidominatorNumber
  {
    forall v {:trigger order[v]} :: 0 <= v < |order| && v < lo ==> order[v].semidominatorNumber == v
  }

  /** s is at most everything that predecessor v of w can contribute. */
  ghost predicate Bounds(t: DfsTree, sem: seq<int>, s: int, v: int, w: int) {
    && (v < w ==> s <= v)
    && forall u {:trigger t.IsAncestor(u, v)} :: 0 <= w < u < |sem| && t.IsAncestor(u, v) ==> s <= sem[u]
  }

  /** The predecessor lists agree with the renumbered graph h; unreachable predecessors have no number. */
  ghost predicate KnowsPredecessors(dir: Direction, blocks: set<BasicBlock>, order: seq<BasicBlock>, h: Graph, v: int)
    reads order`successors, order`predecessors, blocks`dfsNumber
  {
    && 0 <= v < |order|
    && (forall k {:trigger InEdges(dir, order[v])[k]} :: 0 <= k < |InEdges(dir, order[v])| ==>
          var p := InEdges(dir, order[v])[k];
          p in blocks && (p.dfsNumber == UNNUMBERED ||
                          (IsNumber(order, p, p.dfsNumber) && Edge(h, p.dfsNumber, v))))
    && (forall u {:trigger Edge(h, u, v)} :: Edge(h, u, v) && u < |order| ==> order[u] in InEdges(dir, order[v]))
  }

  method LowerSemidominator(workingBlock: BasicBlock, s: int, ghost order: seq<BasicBlock>,
                            ghost t: DfsTree, ghost sem: seq<int>, ghost w: int)
    requires Forest(order, t, sem, w) && OwnNumbersBelow(order, w) && IsNumber(order, workingBlock, w)
    modifies workingBlock`semidominatorNumber
    ensures Forest(order, t, sem, w) && OwnNumbersBelow(order, w)
    ensures workingBlock.semidominatorNumber == s
  {
    workingBlock.semidominatorNumber := s;
    forall v | 0 <= v < |order|
      ensures ForestEntry(order, t, sem, w, v)
    {
      assert old(ForestEntry(order, t, sem, w, v));
    }
  }

  /** One step of the scan: afterwards the number at w accounts for predecessor v. */
  method ConsiderPredecessor(workingBlock: BasicBlock, predecessor: BasicBlock, ghost order: seq<BasicBlock>,
                             ghost h: Graph, ghost t: DfsTree, ghost sem: seq<int>, ghost v: int, ghost w: int)
    requires t.Spans(h) && Forest(order, t, sem, w) && OwnNumbersBelow(order, w) && SemidominatorsAbove(h, sem, w)
    requires IsNumber(order, workingBlock, w) && 0 < w && IsNumber(order, predecessor, v) && Edge(h, v, w)
    modifies workingBlock`semidominatorNumber, order`ancestor, order`optimalCandidate
    ensures Forest(order, t, sem, w) && OwnNumbersBelow(order, w)
    ensures workingBlock.semidominatorNumber <= old(workingBlock.semidominatorNumber)
    ensures || workingBlock.semidominatorNumber == old(workingBlock.semidominatorNumber)
            || SemiReaches(h, workingBlock.semidominatorNumber, w)
    ensures Bounds(t, sem, workingBlock.semidominatorNumber, v, w)
  {
    var candidate := predecessor;
    if predecessor.dfsNumber < workingBlock.dfsNumber {
      SemiViaEdge(h, v, w);
    } else {
      candidate := Evaluate(predecessor, order, t, sem, w, v);
      if w < v {
        ghost var l := candidate.dfsNumber;
        SemiViaTree(h, t, sem[l], l, v, w);
      }
    }
    if candidate.semidominatorNumber < workingBlock.semidominatorNumber {
      LowerSemidominator(workingBlock, candidate.semidominatorNumber, order, t, sem, w);
    }
  }

  ghost function DfsNumbers(some: seq<BasicBlock>): (numbers: seq<int>)
    reads some`dfsNumber
    ensures |numbers| == |some| && forall k {:trigger numbers[k]} {:trigger some[k]} :: 0 <= k < |some| ==> numbers[k] == some[k].dfsNumber
  {
    if some == [] then [] else DfsNumbers(some[..|some| - 1]) + [some[|some| - 1].dfsNumber]
  }

  /** The bound s accounts for the first j of the numbered predecessors. */
  ghost predicate BoundsFirst(t: DfsTree, sem: seq<int>, numbers: seq<int>, s: int, w: int, j: int) {
    forall k {:trigger numbers[k]} :: 0 <= k < j && k < |numbers| ==> numbers[k] == UNNUMBERED || Bounds(t, sem, s, numbers[k], w)
  }

  lemma BoundsNext(t: DfsTree, sem: seq<int>, numbers: seq<int>, s: int, lower: int, w: int, j: int, next: int)
    requires BoundsFirst(t, sem, numbers, s, w, j) && lower <= s && 0 <= j < |numbers| && next == j + 1
    requires numbers[j] == UNNUMBERED || Bounds(t, sem, lower, numbers[j], w)
    ensures BoundsFirst(t, sem, numbers, lower, w, next)
  {
  }

  lemma NumbersKnown(dir: Direction, workingBlock: BasicBlock, blocks: set<BasicBlock>, order: seq<BasicBlock>, h: Graph, w: int)
    requires KnowsPredecessors(dir, blocks, order, h, w) && IsNumber(order, workingBlock, w) && |order| == |h|
    requires forall v {:trigger order[v]} :: 0 <= v < |order| ==> order[v].dfsNumber == v
    ensures forall v {:trigger Edge(h, v, w)} :: Edge(h, v, w) ==> v in DfsNumbers(InEdges(dir, workingBlock))
  {
  }

  lemma BoundsAll(h: Graph, t: DfsTree, sem: seq<int>, numbers: seq<int>, s: int, w: int)
    requires BoundsFirst(t, sem, numbers, s, w, |numbers|)
    requires forall v {:trigger Edge(h, v, w)} :: Edge(h, v, w) ==> v in numbers
    ensures forall v {:trigger Edge(h, v, w)} :: Edge(h, v, w) ==> Bounds(t, sem, s, v, w)
  {
  }

  /** The predecessor loop for block w computes its semidominator. */
  method ScanPredecessors(dir: Direction, workingBlock: BasicBlock, ghost blocks: set<BasicBlock>,
                          ghost order: seq<BasicBlock>, ghost h: Graph, ghost t: DfsTree, ghost sem: seq<int>, ghost w: int)
    requires t.Spans(h) && Forest(order, t, sem, w) && OwnNumbersBelow(order, w) && SemidominatorsAbove(h, sem, w)
    requires IsNumber(order, workingBlock, w) && 0 < w && workingBlock.semidominatorNumber == w
    requires KnowsPredecessors(dir, blocks, order, h, w)
    modifies workingBlock`semidominatorNumber, order`ancestor, order`optimalCandidate
    ensures Forest(order, t, sem, w) && OwnNumbersBelow(order, w)
    ensures IsSemidominator(h, workingBlock.semidominatorNumber, w)
  {
    ghost var numbers := DfsNumbers(InEdges(dir, workingBlock));
    NumbersKnown(dir, workingBlock, blocks, order, h, w);
    for j := 0 to |InEdges(dir, workingBlock)|
      invariant Forest(order, t, sem, w) && OwnNumbersBelow(order, w)
      invariant workingBlock.semidominatorNumber == w || SemiReaches(h, workingBlock.semidominatorNumber, w)
      invariant BoundsFirst(t, sem, numbers, workingBlock.semidominatorNumber, w, j)
    {
      var predecessor := InEdges(dir, workingBlock)[j];
      ghost var before, next := workingBlock.semidominatorNumber, j + 1;
      if predecessor.dfsNumber != UNNUMBERED {
        ConsiderPredecessor(workingBlock, predecessor, order, h, t, sem, predecessor.dfsNumber, w);
      }
      BoundsNext(t, sem, numbers, before, workingBlock.semidominatorNumber, w, j, next);
    }
    ghost var s := workingBlock.semidominatorNumber;
    BoundsAll(h, t, sem, numbers, s, w);
    ScanComputesSemidominator(h, t, sem, w, s);
  }

  // ------------------------------------------------------------ the buckets

  /** The child of s towards v has not been linked yet: s has a proper descendant, at or
      below stage, that is an ancestor of v. */
  ghost predicate Awaits(t: DfsTree, s: int, stage: int, v: int) {
    exists u :: s < u <= stage && t.IsAncestor(u, v)
  }

  /** d is what the bucket pass must store for v: with u the vertex of least semidominator
      strictly between the semidominator s of v and v, either u or s itself. */
  ghost predicate ProvisionalValue(order: seq<BasicBlock>, t: DfsTree, sem: seq<int>, v: int, d: BasicBlock?) {
    && 0 <= v < |sem|
    && var s := sem[v];
    && 0 <= s < v
    && exists u :: LeastOnPath(t, sem, s, s, u, v) && IsNumber(order, d, if sem[u] < s then u else s)
  }

  /** A processed block v either waits in its semidominator's bucket or has its provisional value. */
  ghost predicate VertexState(dir: Direction, order: seq<BasicBlock>, t: DfsTree, sem: seq<int>, stage: int, v: int)
    reads order`worklist, order`immediateDominator, order`immediatePostdominator
  {
    && 0 <= v < |order| == |sem|
    && var s := sem[v];
    && 0 <= s < v && t.IsAncestor(s, v)
    && (if Awaits(t, s, stage, v) then order[v] in order[s].worklist
        else ProvisionalValue(order, t, sem, v, Immediate(dir, order[v])))
  }

  /** The bucket of x holds only processed blocks whose semidominator is x and who still wait. */
  ghost predicate BucketState(order: seq<BasicBlock>, t: DfsTree, sem: seq<int>, lo: int, stage: int, x: int)
    reads order`worklist, order`dfsNumber
  {
    && 0 <= x < |order| == |sem|
    && forall k {:trigger order[x].worklist[k]} :: 0 <= k < |order[x].worklist| ==>
         var b := order[x].worklist[k];
         && b in order && IsNumber(order, b, b.dfsNumber)
         && lo <= b.dfsNumber && sem[b.dfsNumber] == x && Awaits(t, x, stage, b.dfsNumber)
  }

  ghost predicate Buckets(dir: Direction, order: seq<BasicBlock>, t: DfsTree, sem: seq<int>, lo: int, stage: int)
    reads order`worklist, order`dfsNumber, order`immediateDominator, order`immediatePostdominator
  {
    && (forall v {:trigger VertexState(dir, order, t, sem, stage, v)} :: 0 <= lo <= v < |order| ==>
          VertexState(dir, order, t, sem, stage, v))
    && (forall x {:trigger BucketState(order, t, sem, lo, stage, x)} :: 0 <= x < |order| ==>
          BucketState(order, t, sem, lo, stage, x))
  }

  /** Block w joins the bucket of its semidominator; sem' records that semidominator. */
  method AddToBucket(dir: Direction, workingBlock: BasicBlock, semidominator: BasicBlock, ghost order: seq<BasicBlock>,
                     ghost h: Graph, ghost t: DfsTree, ghost sem: seq<int>, ghost sem': seq<int>, ghost lo: int, ghost w: int)
    requires t.Spans(h) && Indexed(order, t) && |order| == |h| == |sem| && lo == w + 1
    requires IsNumber(order, workingBlock, w) && 0 < w && sem' == sem[w := workingBlock.semidominatorNumber]
    requires IsNumber(order, semidominator, sem'[w])
    requires IsSemidominator(h, sem'[w], w)
    requires Buckets(dir, order, t, sem, lo, w)
    modifies semidominator`worklist
    ensures Buckets(dir, order, t, sem', w, w)
  {
    ghost var s := sem'[w];
    SemidominatorIsAncestor(h, t, s, w);
    semidominator.worklist := semidominator.worklist + [workingBlock];
    assert t.IsAncestor(w, w) && Awaits(t, s, w, w);
    forall v | w <= v < |order|
      ensures VertexState(dir, order, t, sem', w, v)
    {
      if v != w {
        assert old(VertexState(dir, order, t, sem, w, v));
        ProvisionalKept(order, t, sem, sem', w, v, Immediate(dir, order[v]));
      }
    }
    forall x | 0 <= x < |order|
      ensures BucketState(order, t, sem', w, w, x)
    {
      assert old(BucketState(order, t, sem, lo, w, x));
    }
  }

  /** A provisional value does not depend on the semidominator of a block still waited for. */
  lemma ProvisionalKept(order: seq<BasicBlock>, t: DfsTree, sem: seq<int>, sem': seq<int>, w: int, v: int, d: BasicBlock?)
    requires 0 <= w < v < |sem| == |sem'| && sem' == sem[w := sem'[w]]
    requires !Awaits(t, sem[v], w, v) ==> ProvisionalValue(order, t, sem, v, d)
    ensures !Awaits(t, sem'[v], w, v) ==> ProvisionalValue(order, t, sem', v, d)
  {
    var s := sem[v];
    if !Awaits(t, s, w, v) {
      var u :| LeastOnPath(t, sem, s, s, u, v) && IsNumber(order, d, if sem[u] < s then u else s);
      assert LeastOnPath(t, sem', s, s, u, v);
    }
  }

  /** A block waiting in the bucket of w's parent is in the subtree of w, which is the
      child it was waiting for. */
  lemma WaitingBelowChild(h: Graph, t: DfsTree, stage: int, w: int, v: int)
    requires stage == w - 1 && t.Spans(h) && 0 < w <= v < |h| && Awaits(t, t.par[w], w, v)
    ensures t.IsAncestor(w, v)
    ensures forall u :: t.par[w] < u && t.IsAncestor(u, v) ==> w <= u
    ensures !Awaits(t, t.par[w], stage, v)
  {
  }

  /** Linking w ends the wait of exactly the blocks in the bucket of w's parent. */
  lemma WaitEndsAtParent(h: Graph, t: DfsTree, s: int, stage: int, w: int, v: int)
    requires stage == w - 1 && t.Spans(h) && 0 < w <= v < |h| && t.IsAncestor(s, v)
    requires Awaits(t, s, w, v) && !Awaits(t, s, stage, v)
    ensures s == t.par[w]
  {
    var u :| s < u <= w && t.IsAncestor(u, v);
    assert u == w && t.IsAncestor(s, w);
    if s < t.par[w] {
      assert t.IsAncestor(t.par[w], v);
    }
  }

  /** The first n blocks of a bucket have their provisional values. */
  ghost predicate ProvisionalPrefix(dir: Direction, order: seq<BasicBlock>, t: DfsTree, sem: seq<int>,
                                    bucket: seq<BasicBlock>, n: int)
    reads bucket`dfsNumber, bucket`immediateDominator, bucket`immediatePostdominator
  {
    forall k {:trigger bucket[k]} :: 0 <= k < n && k < |bucket| ==>
      ProvisionalValue(order, t, sem, bucket[k].dfsNumber, Immediate(dir, bucket[k]))
  }

  method StoreProvisional(dir: Direction, parent: BasicBlock, b: BasicBlock, d: BasicBlock, ghost order: seq<BasicBlock>,
                          ghost t: DfsTree, ghost sem: seq<int>, ghost stage: int, ghost w: int, ghost v: int, ghost k: int)
    requires Forest(order, t, sem, stage) && Buckets(dir, order, t, sem, w, w)
    requires 0 <= w <= v && IsNumber(order, b, v) && Awaits(t, sem[v], w, v)
    requires 0 <= k < |parent.worklist| && parent.worklist[k] == b
    requires ProvisionalPrefix(dir, order, t, sem, parent.worklist, k) && ProvisionalValue(order, t, sem, v, d)
    modifies b`immediateDominator, b`immediatePostdominator
    ensures Forest(order, t, sem, stage) && Buckets(dir, order, t, sem, w, w)
    ensures ProvisionalPrefix(dir, order, t, sem, parent.worklist, k + 1)
    ensures dir.Forward? ==> b.immediatePostdominator == old(b.immediatePostdominator)
    ensures dir.Backward? ==> b.immediateDominator == old(b.immediateDominator)
  {
    SetImmediate(dir, b, d);
    forall m | 0 <= m < k + 1
      ensures ProvisionalValue(order, t, sem, parent.worklist[m].dfsNumber, Immediate(dir, parent.worklist[m]))
    {
      if parent.worklist[m] != b {
        assert old(ProvisionalValue(order, t, sem, parent.worklist[m].dfsNumber, Immediate(dir, parent.worklist[m])));
      }
    }
    forall x | w <= x < |order|
      ensures VertexState(dir, order, t, sem, w, x)
    {
      assert old(VertexState(dir, order, t, sem, w, x));
    }
    forall x | 0 <= x < |order|
      ensures BucketState(order, t, sem, w, w, x)
    {
      assert old(BucketState(order, t, sem, w, w, x));
    }
  }

  /** The provisional dominator of a bucket block, found by evaluate. */
  method ChooseProvisional(dir: Direction, parent: BasicBlock, b: BasicBlock, ghost order: seq<BasicBlock>, ghost h: Graph,
                           ghost t: DfsTree, ghost sem: seq<int>, ghost stage: int, ghost w: int, ghost v: int, ghost k: int)
    returns (d: BasicBlock)
    requires t.Spans(h) && |order| == |h| && Forest(order, t, sem, stage)
    requires Buckets(dir, order, t, sem, w, w) && ProvisionalPrefix(dir, order, t, sem, parent.worklist, k)
    requires stage == w - 1 && 0 < w <= v < |h| && IsNumber(order, parent, t.par[w]) && IsNumber(order, b, v)
    requires sem[v] == t.par[w] && Awaits(t, t.par[w], w, v)
    modifies order`ancestor, order`optimalCandidate
    ensures Forest(order, t, sem, stage)
    ensures Buckets(dir, order, t, sem, w, w) && ProvisionalPrefix(dir, order, t, sem, parent.worklist, k)
    ensures ProvisionalValue(order, t, sem, v, d)
  {
    WaitingBelowChild(h, t, stage, w, v);
    var candidate := Evaluate(b, order, t, sem, stage, v);
    ghost var u, s := candidate.dfsNumber, t.par[w];
    assert LeastOnPath(t, sem, s, s, u, v);
    d := if candidate.semidominatorNumber < b.semidominatorNumber then candidate else parent;
    assert IsNumber(order, d, if sem[u] < s then u else s);
  }

  /** One bucket block: its provisional dominator is stored, nothing else changes. */
  method ProcessBucketBlock(dir: Direction, parent: BasicBlock, b: BasicBlock, ghost order: seq<BasicBlock>, ghost h: Graph,
                            ghost t: DfsTree, ghost sem: seq<int>, ghost stage: int, ghost w: int, ghost v: int, ghost k: int)
    requires t.Spans(h) && |order| == |h| && Forest(order, t, sem, stage) && Buckets(dir, order, t, sem, w, w)
    requires stage == w - 1 && 0 < w <= v < |h| && IsNumber(order, parent, t.par[w]) && IsNumber(order, b, v)
    requires 0 <= k < |parent.worklist| && parent.worklist[k] == b
    requires ProvisionalPrefix(dir, order, t, sem, parent.worklist, k)
    requires sem[v] == t.par[w] && Awaits(t, t.par[w], w, v)
    modifies order`ancestor, order`optimalCandidate, b`immediateDominator, b`immediatePostdominator
    ensures Forest(order, t, sem, stage) && Buckets(dir, order, t, sem, w, w)
    ensures ProvisionalPrefix(dir, order, t, sem, parent.worklist, k + 1)
    ensures dir.Forward? ==> b.immediatePostdominator == old(b.immediatePostdominator)
    ensures dir.Backward? ==> b.immediateDominator == old(b.immediateDominator)
  {
    var d := ChooseProvisional(dir, parent, b, order, h, t, sem, stage, w, v, k);
    StoreProvisional(dir, parent, b, d, order, t, sem, stage, w, v, k);
  }

  method ClearBucket(dir: Direction, parent: BasicBlock, ghost order: seq<BasicBlock>, ghost h: Graph,
                     ghost t: DfsTree, ghost sem: seq<int>, ghost stage: int, ghost w: int)
    requires t.Spans(h) && |order| == |h| && Indexed(order, t) && Buckets(dir, order, t, sem, w, w)
    requires stage == w - 1 && 0 < w < |h| && IsNumber(order, parent, t.par[w])
    requires ProvisionalPrefix(dir, order, t, sem, parent.worklist, |parent.worklist|)
    modifies parent`worklist
    ensures Buckets(dir, order, t, sem, w, stage)
  {
    ghost var p := t.par[w];
    assert BucketState(order, t, sem, w, w, p);
    parent.worklist := [];
    forall v | w <= v < |order|
      ensures VertexState(dir, order, t, sem, stage, v)
    {
      assert old(VertexState(dir, order, t, sem, w, v));
      var s := sem[v];
      if Awaits(t, s, stage, v) {
        assert Awaits(t, s, w, v);
        if s == p { WaitingBelowChild(h, t, stage, w, v); }
      } else if Awaits(t, s, w, v) {
        WaitEndsAtParent(h, t, s, stage, w, v);
        assert order[v] in old(parent.worklist);
      }
    }
    forall x | 0 <= x < |order|
      ensures BucketState(order, t, sem, w, stage, x)
    {
      assert old(BucketState(order, t, sem, w, w, x));
      if x != p {
        forall k | 0 <= k < |order[x].worklist|
          ensures Awaits(t, x, stage, order[x].worklist[k].dfsNumber)
        {
          var v := order[x].worklist[k].dfsNumber;
          assert old(VertexState(dir, order, t, sem, w, v));
          if !Awaits(t, x, stage, v) { WaitEndsAtParent(h, t, x, stage, w, v); }
        }
      }
    }
  }

  /** Computing dominators leaves postdominators alone, and the other way round. */
  twostate predicate OtherDirectionKept(dir: Direction, order: seq<BasicBlock>)
    reads order
  {
    forall x {:trigger order[x]} :: 0 <= x < |order| ==>
      && (dir.Forward? ==> order[x].immediatePostdominator == old(order[x].immediatePostdominator))
      && (dir.Backward? ==> order[x].immediateDominator == old(order[x].immediateDominator))
  }

  /** The bucket loop for block w's parent. */
  method ProcessBucket(dir: Direction, parent: BasicBlock, ghost order: seq<BasicBlock>, ghost h: Graph,
                       ghost t: DfsTree, ghost sem: seq<int>, ghost stage: int, ghost w: int)
    requires t.Spans(h) && |order| == |h| && Forest(order, t, sem, stage) && Buckets(dir, order, t, sem, w, w)
    requires stage == w - 1 && 0 < w < |h| && IsNumber(order, parent, t.par[w])
    modifies order`ancestor, order`optimalCandidate, order`immediateDominator, order`immediatePostdominator
    modifies parent`worklist
    ensures Forest(order, t, sem, stage) && Buckets(dir, order, t, sem, w, stage)
    ensures OtherDirectionKept(dir, order)
  {
    for k := 0 to |parent.worklist|
      invariant Forest(order, t, sem, stage) && Buckets(dir, order, t, sem, w, w)
      invariant parent.worklist == old(parent.worklist)
      invariant ProvisionalPrefix(dir, order, t, sem, parent.worklist, k)
      invariant OtherDirectionKept(dir, order)
    {
      assert BucketState(order, t, sem, w, w, t.par[w]);
      var b := parent.worklist[k];
      ProcessBucketBlock(dir, parent, b, order, h, t, sem, stage, w, b.dfsNumber, k);
    }
    ClearBucket(dir, parent, order, h, t, sem, stage, w);
  }

  // --------------------------------------------------------- the main loop

  /** What the numbering pass established and the later passes leave alone. */
  ghost predicate Numbered(dir: Direction, blocks: set<BasicBlock>, order: seq<BasicBlock>, h: Graph, t: DfsTree)
    reads order`successors, order`predecessors, order`parent, order`dfsNumber, blocks`dfsNumber
  {
    && t.Spans(h) && |order| == |h|
    && Indexed(order, t)
    && (forall v {:trigger order[v].parent} :: 0 < v < |order| ==> IsNumber(order, order[v].parent, t.par[v]))
    && (forall v {:trigger KnowsPredecessors(dir, blocks, order, h, v)} :: 0 <= v < |order| ==>
          KnowsPredecessors(dir, blocks, order, h, v))
  }

  /** The state before block stage is processed; lo is stage + 1. */
  ghost predicate LoopState(dir: Direction, order: seq<BasicBlock>, h: Graph, t: DfsTree, sem: seq<int>, lo: int, stage: int)
    reads order`ancestor, order`optimalCandidate, order`dfsNumber, order`semidominatorNumber,
          order`worklist, order`immediateDominator, order`immediatePostdominator
  {
    && lo == stage + 1
    && Forest(order, t, sem, stage)
    && OwnNumbersBelow(order, lo)
    && SemidominatorsAbove(h, sem, stage)
    && Buckets(dir, order, t, sem, lo, stage)
  }

  ghost predicate MappingHolds(mapping: array<BasicBlock?>, order: seq<BasicBlock>)
    reads mapping
  {
    |order| <= mapping.Length && forall k {:trigger mapping[k]} :: 0 <= k < |order| ==> mapping[k] == order[k]
  }

  /** First half of an iteration: the semidominator of block w, and its bucket. */
  method FindSemidominator(dir: Direction, mapping: array<BasicBlock?>, workingBlock: BasicBlock,
                           ghost blocks: set<BasicBlock>, ghost order: seq<BasicBlock>, ghost h: Graph,
                           ghost t: DfsTree, ghost sem: seq<int>, ghost lo: int, ghost w: int)
    returns (ghost sem': seq<int>)
    requires t.Spans(h) && MappingHolds(mapping, order)
    requires KnowsPredecessors(dir, blocks, order, h, w)
    requires LoopState(dir, order, h, t, sem, lo, w) && 0 < w < |order| && order[w] == workingBlock
    modifies workingBlock`semidominatorNumber, order`ancestor, order`optimalCandidate, order`worklist
    ensures Forest(order, t, sem', w) && OwnNumbersBelow(order, w)
    ensures |sem'| == |h| && workingBlock.semidominatorNumber == sem'[w]
    ensures IsSemidominator(h, sem'[w], w) && SemidominatorsAbove(h, sem', w)
    ensures Buckets(dir, order, t, sem', w, w)
  {
    ScanPredecessors(dir, workingBlock, blocks, order, h, t, sem, w);
    SemidominatorIsAncestor(h, t, workingBlock.semidominatorNumber, w);
    sem' := sem[w := workingBlock.semidominatorNumber];
    ForestIgnoresStage(order, t, sem, sem', w);
    var semidominator := mapping[workingBlock.semidominatorNumber];
    AddToBucket(dir, workingBlock, semidominator, order, h, t, sem, sem', lo, w);
  }

  /** Second half: block w is linked below its parent, whose bucket is emptied. */
  method LinkAndProcess(dir: Direction, parent: BasicBlock, workingBlock: BasicBlock, ghost order: seq<BasicBlock>,
                        ghost h: Graph, ghost t: DfsTree, ghost sem: seq<int>, ghost stage: int, ghost w: int)
    requires t.Spans(h) && |order| == |h| == |sem| && 0 < w < |order|
    requires Forest(order, t, sem, w) && OwnNumbersBelow(order, w)
    requires workingBlock.semidominatorNumber == sem[w]
    requires IsSemidominator(h, sem[w], w) && SemidominatorsAbove(h, sem, w)
    requires Buckets(dir, order, t, sem, w, w)
    requires order[w] == workingBlock && stage == w - 1
    requires IsNumber(order, parent, t.par[w])
    modifies order`ancestor, order`optimalCandidate, order`immediateDominator, order`immediatePostdominator,
             order`worklist
    ensures LoopState(dir, order, h, t, sem, w, stage)
    ensures OtherDirectionKept(dir, order)
  {
    LinkAncestor(parent, workingBlock, order, t, sem, stage, w, t.par[w]);
    ProcessBucket(dir, parent, order, h, t, sem, stage, w);
  }

  method ProcessBlock(dir: Direction, mapping: array<BasicBlock?>, workingBlock: BasicBlock,
                      ghost blocks: set<BasicBlock>, ghost order: seq<BasicBlock>, ghost h: Graph,
                      ghost t: DfsTree, ghost sem: seq<int>, ghost lo: int, ghost stage: int, ghost w: int)
    returns (ghost sem': seq<int>)
    requires Numbered(dir, blocks, order, h, t) && MappingHolds(mapping, order)
    requires LoopState(dir, order, h, t, sem, lo, w) && 0 < w < |order| && order[w] == workingBlock && stage == w - 1
    modifies order`ancestor, order`optimalCandidate, order`immediateDominator, order`immediatePostdominator,
             order`worklist, order`semidominatorNumber
    ensures LoopState(dir, order, h, t, sem', w, stage)
    ensures OtherDirectionKept(dir, order)
  {
    assert KnowsPredecessors(dir, blocks, order, h, w);
    assert IsNumber(order, workingBlock.parent, t.par[w]);
    sem' := FindSemidominator(dir, mapping, workingBlock, blocks, order, h, t, sem, lo, w);
    LinkAndProcess(dir, workingBlock.parent, workingBlock, order, h, t, sem', stage, w);
  }

  /** The loop over the blocks in reverse numbering order. */
  method ComputeProvisional(dir: Direction, mapping: array<BasicBlock?>, count: int, ghost blocks: set<BasicBlock>,
                            ghost order: seq<BasicBlock>, ghost h: Graph, ghost t: DfsTree, ghost sem: seq<int>, ghost last: int)
    returns (ghost sem': seq<int>)
    requires Numbered(dir, blocks, order, h, t) && MappingHolds(mapping, order) && count == |order|
    requires LoopState(dir, order, h, t, sem, count, last) && last == count - 1
    modifies order`ancestor, order`optimalCandidate, order`immediateDominator, order`immediatePostdominator,
             order`worklist, order`semidominatorNumber
    ensures LoopState(dir, order, h, t, sem', 1, 0)
    ensures OtherDirectionKept(dir, order)
  {
    var i := count - 1;
    ghost var lo := count;
    sem' := sem;
    while i > 0
      invariant 0 <= i < count
      invariant Numbered(dir, blocks, order, h, t) && MappingHolds(mapping, order)
      invariant LoopState(dir, order, h, t, sem', lo, i)
      invariant OtherDirectionKept(dir, order)
    {
      var workingBlock := mapping[i];
      var next := i - 1;
      sem' := ProcessBlock(dir, mapping, workingBlock, blocks, order, h, t, sem', lo, next, i);
      lo := i;
      i := next;
    }
    assert lo == 1 && i == 0;
  }

  // -------------------------------------------------------- the repair pass

  /** b is the block of v's immediate dominator. */
  ghost predicate IsFinalValue(order: seq<BasicBlock>, h: Graph, v: int, b: BasicBlock?) {
    exists d :: IsImmediateDominator(h, 0, d, v) && IsNumber(order, b, d)
  }

  /** Block v stores its immediate dominator. */
  ghost predicate StoresImmediate(dir: Direction, order: seq<BasicBlock>, h: Graph, v: int)
    reads order`immediateDominator, order`immediatePostdominator
  {
    0 <= v < |order| && IsFinalValue(order, h, v, Immediate(dir, order[v]))
  }

  /** Blocks below i are final, the others still provisional. */
  ghost predicate RepairedBelow(dir: Direction, order: seq<BasicBlock>, h: Graph, t: DfsTree, sem: seq<int>, i: int, v: int)
    reads order`immediateDominator, order`immediatePostdominator
  {
    && 0 < v < |order|
    && (if v < i then StoresImmediate(dir, order, h, v)
        else ProvisionalValue(order, t, sem, v, Immediate(dir, order[v])))
  }

  ghost predicate RepairState(dir: Direction, order: seq<BasicBlock>, h: Graph, t: DfsTree, sem: seq<int>, i: int)
    reads order`immediateDominator, order`immediatePostdominator
  {
    forall v {:trigger RepairedBelow(dir, order, h, t, sem, i, v)} :: 0 < v < |order| ==>
      RepairedBelow(dir, order, h, t, sem, i, v)
  }

  /** What the provisional value of w is, and the final value of the block it names. */
  lemma ReadProvisional(dir: Direction, order: seq<BasicBlock>, h: Graph, t: DfsTree, sem: seq<int>, w: int)
    returns (u: int, e: int)
    requires Indexed(order, t) && 0 < w < |order| == |sem|
    requires RepairState(dir, order, h, t, sem, w)
    ensures 0 <= sem[w] && LeastOnPath(t, sem, sem[w], sem[w], u, w)
    ensures sem[w] <= sem[u] ==> IsNumber(order, Immediate(dir, order[w]), sem[w])
    ensures sem[u] < sem[w] ==>
      && u < w && Immediate(dir, order[w]) == order[u] && order[u] != order[sem[w]]
      && IsImmediateDominator(h, 0, e, u) && IsNumber(order, Immediate(dir, order[u]), e)
  {
    assert RepairedBelow(dir, order, h, t, sem, w, w);
    var s := sem[w];
    u :| LeastOnPath(t, sem, s, s, u, w) && IsNumber(order, Immediate(dir, order[w]), if sem[u] < s then u else s);
    e := 0;
    if sem[u] < s {
      assert order[u].dfsNumber != order[s].dfsNumber;
      assert 0 < u < w;
      assert RepairedBelow(dir, order, h, t, sem, w, u);
      assert IsFinalValue(order, h, u, Immediate(dir, order[u]));
      e :| IsImmediateDominator(h, 0, e, u) && IsNumber(order, Immediate(dir, order[u]), e);
    }
  }

  /** The repaired value of w is its immediate dominator. */
  lemma RepairedValue(h: Graph, t: DfsTree, sem: seq<int>, w: int, u: int, e: int)
    requires t.Spans(h) && SemidominatorsAre(h, sem) && 0 < w < |h|
    requires LeastOnPath(t, sem, sem[w], sem[w], u, w)
    requires sem[u] < sem[w] ==> u < w && IsImmediateDominator(h, 0, e, u)
    ensures IsImmediateDominator(h, 0, if sem[u] < sem[w] then e else sem[w], w)
  {
    if sem[u] < sem[w] {
      ImmediateDominatorShared(h, t, sem, u, w, e);
    } else {
      SemidominatorIsImmediate(h, t, sem, w);
    }
  }

  /** The correction for block w: when the stored value is not the semidominator, it is the
      block below it with the least semidominator, which shares w's immediate dominator. */
  method RepairBlock(dir: Direction, workingBlock: BasicBlock, semidominator: BasicBlock, ghost order: seq<BasicBlock>,
                     ghost h: Graph, ghost t: DfsTree, ghost sem: seq<int>, ghost w: int, ghost next: int)
    requires t.Spans(h) && SemidominatorsAre(h, sem) && Indexed(order, t) && |order| == |h|
    requires 0 < w < |order| && order[w] == workingBlock && next == w + 1
    requires IsNumber(order, semidominator, sem[w])
    requires RepairState(dir, order, h, t, sem, w)
    modifies workingBlock`immediateDominator, workingBlock`immediatePostdominator
    ensures RepairState(dir, order, h, t, sem, next)
    ensures dir.Forward? ==> workingBlock.immediatePostdominator == old(workingBlock.immediatePostdominator)
    ensures dir.Backward? ==> workingBlock.immediateDominator == old(workingBlock.immediateDominator)
  {
    ghost var u, e := ReadProvisional(dir, order, h, t, sem, w);
    ghost var d := if sem[u] < sem[w] then e else sem[w];
    RepairedValue(h, t, sem, w, u, e);
    if Immediate(dir, workingBlock) != semidominator {
      SetImmediate(dir, workingBlock, Immediate(dir, Immediate(dir, workingBlock)));
    }
    assert IsNumber(order, Immediate(dir, workingBlock), d);
    assert IsFinalValue(order, h, w, Immediate(dir, workingBlock));
    forall v | 0 < v < |order|
      ensures RepairedBelow(dir, order, h, t, sem, next, v)
    {
      assert old(RepairedBelow(dir, order, h, t, sem, w, v));
      if v != w {
        assert order[v].dfsNumber == v && order[v] != workingBlock;
        assert Immediate(dir, order[v]) == old(Immediate(dir, order[v]));
      }
    }
  }

  method RepairPass(dir: Direction, mapping: array<BasicBlock?>, count: int, ghost order: seq<BasicBlock>,
                    ghost h: Graph, ghost t: DfsTree, ghost sem: seq<int>)
    requires t.Spans(h) && SemidominatorsAre(h, sem) && Indexed(order, t) && |order| == |h|
    requires MappingHolds(mapping, order) && count == |order|
    requires StoresSemidominators(order, sem, 0)
    requires RepairState(dir, order, h, t, sem, 1)
    modifies order`immediateDominator, order`immediatePostdominator
    ensures forall v {:trigger StoresImmediate(dir, order, h, v)} :: 0 < v < |order| ==> StoresImmediate(dir, order, h, v)
    ensures OtherDirectionKept(dir, order)
  {
    var i := 1;
    while i < count
      invariant 1 <= i <= count
      invariant RepairState(dir, order, h, t, sem, i)
      invariant OtherDirectionKept(dir, order)
    {
      var workingBlock := mapping[i];
      SemidominatorIsAncestor(h, t, sem[i], i);
      var semidominator := mapping[workingBlock.semidominatorNumber];
      var next := i + 1;
      RepairBlock(dir, workingBlock, semidominator, order, h, t, sem, i, next);
      i := next;
    }
    forall v | 0 < v < |order|
      ensures StoresImmediate(dir, order, h, v)
    {
      assert RepairedBelow(dir, order, h, t, sem, i, v);
    }
  }
}
