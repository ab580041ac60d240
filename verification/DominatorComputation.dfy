/** compute_immediate_dominators and compute_immediate_postdominators. The two routines
    of the source are mirror images of each other; here they are one method with a
    direction, run along successor edges from the entry block or along predecessor
    edges from the exit block. */
module DominatorComputation {
  import opened BasicBlocks
  import opened Graphs
  import opened SemidominatorTheory
  import opened DepthFirstNumbering
  import opened UnionFindForest
  import opened LengauerTarjan
  import opened Renumbering
  import opened NumberedGraph

  /** The state every block is reset to before numbering. */
  ghost predicate Reset(dir: Direction, b: BasicBlock)
    reads b`dfsNumber, b`worklist, b`immediateDominator, b`immediatePostdominator
  {
    b.dfsNumber == UNNUMBERED && b.worklist == [] && Immediate(dir, b) == null
  }

  /** initialize_block_for_idom_computation and its postdominator twin. */
  method InitializeBlock(dir: Direction, block: BasicBlock)
    modifies block`ancestor, block`optimalCandidate, block`semidominatorNumber, block`parent, block`dfsNumber,
             block`worklist, block`immediateDominator, block`immediatePostdominator
    ensures Reset(dir, block)
    ensures block.ancestor == null && block.optimalCandidate == null && block.parent == null
    ensures block.semidominatorNumber == UNNUMBERED
    ensures dir.Forward? ==> block.immediatePostdominator == old(block.immediatePostdominator)
    ensures dir.Backward? ==> block.immediateDominator == old(block.immediateDominator)
  {
    block.ancestor := null;
    SetImmediate(dir, block, null);
    block.optimalCandidate := null;
    block.semidominatorNumber := UNNUMBERED;
    block.parent := null;
    block.dfsNumber := UNNUMBERED;
    block.worklist := [];
  }

  method InitializeBlocks(dir: Direction, functionBlocks: seq<BasicBlock>)
    modifies functionBlocks`ancestor, functionBlocks`optimalCandidate, functionBlocks`semidominatorNumber,
             functionBlocks`parent, functionBlocks`dfsNumber, functionBlocks`worklist,
             functionBlocks`immediateDominator, functionBlocks`immediatePostdominator
    ensures forall i {:trigger functionBlocks[i]} :: 0 <= i < |functionBlocks| ==> Reset(dir, functionBlocks[i])
    ensures OtherDirectionKept(dir, functionBlocks)
  {
    for i := 0 to |functionBlocks|
      invariant forall k {:trigger functionBlocks[k]} :: 0 <= k < i ==> Reset(dir, functionBlocks[k])
      invariant OtherDirectionKept(dir, functionBlocks)
    {
      InitializeBlock(dir, functionBlocks[i]);
    }
  }

  /** What block v must store: nothing for the root and for unreachable blocks, and the
      immediate dominator otherwise. */
  ghost predicate Correct(dir: Direction, fb: seq<BasicBlock>, g: Graph, r: int, v: int)
    reads fb`immediateDominator, fb`immediatePostdominator
  {
    && 0 <= v < |fb|
    && (if v == r || !Reachable(g, r, v) then Immediate(dir, fb[v]) == null
        else exists d :: IsImmediateDominator(g, r, d, v) && IsNumber(fb, Immediate(dir, fb[v]), d))
  }

  /** The numbering pass on freshly reset blocks. */
  method NumberBlocks(dir: Direction, root: BasicBlock, functionBlocks: seq<BasicBlock>, mapping: array<BasicBlock?>,
                      ghost g: Graph, ghost r: int)
    returns (count: int, ghost t: DfsTree)
    requires Models(dir, functionBlocks, g) && IsNumber(functionBlocks, root, r)
    requires mapping.Length == |functionBlocks|
    requires forall i {:trigger functionBlocks[i]} :: 0 <= i < |functionBlocks| ==> Reset(dir, functionBlocks[i])
    modifies mapping
    modifies functionBlocks`dfsNumber, functionBlocks`semidominatorNumber, functionBlocks`optimalCandidate,
             functionBlocks`ancestor, functionBlocks`parent
    ensures NumberingDone(dir, functionBlocks, g, r, mapping, t) && count == |t.end|
  {
    ghost var blocks := BlockSet(functionBlocks);
    assert Closed(dir, blocks) by {
      forall b, k {:trigger OutEdges(dir, b)[k]} | b in blocks && 0 <= k < |OutEdges(dir, b)|
        ensures OutEdges(dir, b)[k] in blocks
      {
        var v := IndexIn(functionBlocks, b);
        assert OutModelled(dir, functionBlocks, g, v);
        assert g[v][k] < |functionBlocks|;
      }
    }
    assert Unnumbered(blocks) == blocks;
    BlockSetSize(functionBlocks);
    ghost var empty := DfsTree([], []);
    assert NumberingInvariant(dir, blocks, mapping, empty, {});
    count, t := DfsNumberBlock(dir, root, mapping, 0, blocks, empty, {}, -1);
  }

  lemma {:induction false} BlockSetSize(fb: seq<BasicBlock>)
    ensures |BlockSet(fb)| <= |fb|
  {
    if fb == [] {
      assert BlockSet(fb) == {};
    } else {
      var n := |fb| - 1;
      BlockSetSize(fb[..n]);
      assert BlockSet(fb) == BlockSet(fb[..n]) + {fb[n]};
    }
  }

  /** The state in which the main loop starts. */
  lemma LoopStart(dir: Direction, fb: seq<BasicBlock>, g: Graph, r: int, mapping: array<BasicBlock?>, t: DfsTree, w: View,
                  sem: seq<int>, last: int)
    requires NumberingDone(dir, fb, g, r, mapping, t) && IsView(fb, g, mapping, t, w)
    requires Numbered(dir, BlockSet(fb), w.order, w.h, t)
    requires |sem| == |w.h| && last == |w.order| - 1
    requires forall i {:trigger fb[i]} :: 0 <= i < |fb| ==> fb[i].worklist == []
    ensures LoopState(dir, w.order, w.h, t, sem, |w.order|, last)
  {
    forall v | 0 <= v < |w.order|
      ensures ForestEntry(w.order, t, sem, last, v) && w.order[v].semidominatorNumber == v && w.order[v].worklist == []
    {
      assert Recorded(dir, BlockSet(fb), t, {}, w.order[v]);
    }
  }

  /** Only reachable blocks get a number. */
  lemma NumberedReachable(g: Graph, r: int, h: Graph, t: DfsTree, num: seq<int>, vert: seq<int>, v: int)
    requires Renumbers(g, r, h, num, vert) && t.Spans(h) && 0 <= v < |g| && num[v] >= 0
    ensures Reachable(g, r, v)
  {
    var q := TreePath(h, t, 0, num[v]);
    var p := PathToVertices(g, r, h, num, vert, q);
    assert vert[0] == r && vert[num[v]] == v;
  }

  /** Reading the result off the numbered blocks. */
  lemma ResultCorrect(dir: Direction, fb: seq<BasicBlock>, g: Graph, r: int, h: Graph, t: DfsTree,
                      num: seq<int>, vert: seq<int>, order: seq<BasicBlock>, v: int)
    requires t.Spans(h)
    requires |fb| == |g| && |order| == |h| && Renumbers(g, r, h, num, vert)
    requires forall i {:trigger order[i]} :: 0 <= i < |order| ==> fb[vert[i]] == order[i]
    requires 0 <= v < |fb|
    requires num[v] <= 0 ==> Immediate(dir, fb[v]) == null
    requires num[v] > 0 ==> IsFinalValue(order, h, num[v], Immediate(dir, fb[v]))
    ensures Correct(dir, fb, g, r, v)
  {
    if num[v] >= 0 {
      assert vert[0] == r && vert[num[v]] == v;
    }
    if v != r && Reachable(g, r, v) {
      ReachableNumbered(g, r, h, num, vert, v);
      var d :| IsImmediateDominator(h, 0, d, num[v]) && IsNumber(order, Immediate(dir, fb[v]), d);
      ImmediateDominatorOfNumber(g, r, h, num, vert, d, v);
      assert IsNumber(fb, Immediate(dir, fb[v]), vert[d]);
    } else if !Reachable(g, r, v) && num[v] >= 0 {
      NumberedReachable(g, r, h, t, num, vert, v);
    }
  }

  /** The passes after the numbering, on the numbered blocks. */
  method ComputeFromNumbering(dir: Direction, mapping: array<BasicBlock?>, count: int, ghost fb: seq<BasicBlock>,
                              ghost g: Graph, ghost r: int, ghost t: DfsTree, ghost w: View, ghost last: int)
    requires NumberingDone(dir, fb, g, r, mapping, t) && IsView(fb, g, mapping, t, w)
    requires Renumbers(g, r, w.h, w.num, w.vert)
    requires Numbered(dir, BlockSet(fb), w.order, w.h, t) && MappingHolds(mapping, w.order)
    requires count == |w.order| && last == count - 1
    requires forall i {:trigger fb[i]} :: 0 <= i < |fb| ==> fb[i].worklist == []
    modifies w.order`ancestor, w.order`optimalCandidate, w.order`immediateDominator, w.order`immediatePostdominator,
             w.order`worklist, w.order`semidominatorNumber
    ensures forall i {:trigger w.order[i]} :: 0 < i < |w.order| ==> IsFinalValue(w.order, w.h, i, Immediate(dir, w.order[i]))
    ensures OtherDirectionKept(dir, w.order)
  {
    ghost var sem := seq(|w.h|, i => 0);
    LoopStart(dir, fb, g, r, mapping, t, w, sem, last);
    sem := ComputeProvisional(dir, mapping, count, BlockSet(fb), w.order, w.h, t, sem, last);
    SecondHalf(dir, mapping, count, w.order, w.h, t, sem);
  }

  method SecondHalf(dir: Direction, mapping: array<BasicBlock?>, count: int, ghost order: seq<BasicBlock>,
                    ghost h: Graph, ghost t: DfsTree, ghost sem: seq<int>)
    requires t.Spans(h) && |order| == |h| && MappingHolds(mapping, order) && count == |order|
    requires LoopState(dir, order, h, t, sem, 1, 0)
    modifies order`immediateDominator, order`immediatePostdominator
    ensures forall i {:trigger order[i]} :: 0 < i < |order| ==> IsFinalValue(order, h, i, Immediate(dir, order[i]))
    ensures OtherDirectionKept(dir, order)
  {
    forall v | 0 < v < |order|
      ensures RepairedBelow(dir, order, h, t, sem, 1, v)
    {
      assert VertexState(dir, order, t, sem, 0, v);
    }
    RepairPass(dir, mapping, count, order, h, t, sem);
    forall i | 0 < i < |order|
      ensures IsFinalValue(order, h, i, Immediate(dir, order[i]))
    {
      assert StoresImmediate(dir, order, h, i);
    }
  }

  /** The block is not one of the numbered ones, or it stores its final value. */
  ghost predicate Settled(dir: Direction, fb: seq<BasicBlock>, w: View, v: int)
    reads fb`immediateDominator, fb`immediatePostdominator
  {
    && 0 <= v < |fb| == |w.num|
    && (w.num[v] <= 0 ==> Immediate(dir, fb[v]) == null)
    && (w.num[v] > 0 ==> IsFinalValue(w.order, w.h, w.num[v], Immediate(dir, fb[v])))
  }

  /** The numbers, order and graph of a view belong together, whatever the blocks now store. */
  ghost predicate Placed(fb: seq<BasicBlock>, g: Graph, r: int, t: DfsTree, w: View) {
    && |fb| == |g| && |w.order| == |w.h| && t.Spans(w.h)
    && Renumbers(g, r, w.h, w.num, w.vert)
    && forall i {:trigger w.order[i]} {:trigger w.vert[i]} :: 0 <= i < |w.order| ==> fb[w.vert[i]] == w.order[i]
  }

  /** The numbered blocks belong to the function, and the unnumbered ones are not among them. */
  lemma OrderWithin(fb: seq<BasicBlock>, g: Graph, mapping: array<BasicBlock?>, t: DfsTree, w: View)
    requires IsView(fb, g, mapping, t, w)
    ensures forall b {:trigger b in w.order} :: b in w.order ==> b in fb
    ensures forall v {:trigger w.num[v]} :: 0 <= v < |fb| && w.num[v] < 0 ==> fb[v] !in w.order
  {
  }

  /** The passes after the numbering, read back at the level of the function's blocks. */
  method ComputeNumbered(dir: Direction, root: BasicBlock, functionBlocks: seq<BasicBlock>,
                         mapping: array<BasicBlock?>, count: int, ghost g: Graph, ghost r: int, ghost t: DfsTree)
    returns (ghost w: View)
    requires NumberingDone(dir, functionBlocks, g, r, mapping, t)
    requires IsNumber(functionBlocks, root, r) && count == |t.end|
    requires forall i {:trigger functionBlocks[i]} :: 0 <= i < |functionBlocks| ==> Cleared(dir, functionBlocks[i])
    modifies functionBlocks`ancestor, functionBlocks`optimalCandidate, functionBlocks`semidominatorNumber,
             functionBlocks`worklist, functionBlocks`immediateDominator, functionBlocks`immediatePostdominator
    ensures Placed(functionBlocks, g, r, t, w)
    ensures forall v {:trigger Settled(dir, functionBlocks, w, v)} :: 0 <= v < |functionBlocks| ==>
              v == r || Settled(dir, functionBlocks, w, v)
    ensures OtherDirectionKept(dir, functionBlocks)
  {
    w := MakeView(dir, functionBlocks, g, r, mapping, t);
    ViewNumbered(dir, functionBlocks, g, r, mapping, t, w);
    OrderWithin(functionBlocks, g, mapping, t, w);
    ghost var last := count - 1;
    ComputeSettled(dir, mapping, count, functionBlocks, g, r, t, w, last);
  }

  method ComputeSettled(dir: Direction, mapping: array<BasicBlock?>, count: int, ghost fb: seq<BasicBlock>,
                        ghost g: Graph, ghost r: int, ghost t: DfsTree, ghost w: View, ghost last: int)
    requires NumberingDone(dir, fb, g, r, mapping, t) && IsView(fb, g, mapping, t, w) && Placed(fb, g, r, t, w)
    requires Numbered(dir, BlockSet(fb), w.order, w.h, t) && MappingHolds(mapping, w.order)
    requires count == |w.order| && last == count - 1
    requires forall i {:trigger fb[i]} :: 0 <= i < |fb| ==> Cleared(dir, fb[i])
    requires forall v {:trigger w.num[v]} :: 0 <= v < |fb| && w.num[v] < 0 ==> fb[v] !in w.order
    modifies w.order`ancestor, w.order`optimalCandidate, w.order`immediateDominator, w.order`immediatePostdominator,
             w.order`worklist, w.order`semidominatorNumber
    ensures forall v {:trigger Settled(dir, fb, w, v)} :: 0 <= v < |fb| ==> v == r || Settled(dir, fb, w, v)
    ensures OtherDirectionKept(dir, fb)
  {
    ComputeFromNumbering(dir, mapping, count, fb, g, r, t, w, last);
    forall v | 0 <= v < |fb| && v != r
      ensures Settled(dir, fb, w, v)
    {
      SettledOne(dir, fb, g, r, t, w, v);
    }
  }

  lemma SettledOne(dir: Direction, fb: seq<BasicBlock>, g: Graph, r: int, t: DfsTree, w: View, v: int)
    requires Placed(fb, g, r, t, w) && 0 <= v < |fb| && v != r
    requires w.num[v] < 0 ==> Immediate(dir, fb[v]) == null
    requires forall i {:trigger w.order[i]} :: 0 < i < |w.order| ==> IsFinalValue(w.order, w.h, i, Immediate(dir, w.order[i]))
    ensures Settled(dir, fb, w, v)
  {
  }

  ghost predicate Cleared(dir: Direction, b: BasicBlock)
    reads b`worklist, b`immediateDominator, b`immediatePostdominator
  {
    b.worklist == [] && Immediate(dir, b) == null
  }

  /** Numbering freshly reset blocks with a fresh mapping. */
  method NumberFresh(dir: Direction, root: BasicBlock, functionBlocks: seq<BasicBlock>, ghost g: Graph, ghost r: int)
    returns (mapping: array<BasicBlock?>, count: int, ghost t: DfsTree)
    requires Models(dir, functionBlocks, g) && IsNumber(functionBlocks, root, r)
    requires forall i {:trigger functionBlocks[i]} :: 0 <= i < |functionBlocks| ==> Reset(dir, functionBlocks[i])
    modifies functionBlocks`dfsNumber, functionBlocks`semidominatorNumber, functionBlocks`optimalCandidate,
             functionBlocks`ancestor, functionBlocks`parent
    ensures NumberingDone(dir, functionBlocks, g, r, mapping, t) && count == |t.end|
  {
    mapping := new BasicBlock?[|functionBlocks|](_ => null);
    count, t := NumberBlocks(dir, root, functionBlocks, mapping, g, r);
  }

  /** Resetting and numbering the blocks of a function. */
  method StartComputation(dir: Direction, root: BasicBlock, functionBlocks: seq<BasicBlock>, ghost g: Graph, ghost r: int)
    returns (mapping: array<BasicBlock?>, count: int, ghost t: DfsTree)
    requires Models(dir, functionBlocks, g) && IsNumber(functionBlocks, root, r)
    modifies functionBlocks`ancestor, functionBlocks`optimalCandidate, functionBlocks`semidominatorNumber,
             functionBlocks`parent, functionBlocks`dfsNumber, functionBlocks`worklist,
             functionBlocks`immediateDominator, functionBlocks`immediatePostdominator
    ensures NumberingDone(dir, functionBlocks, g, r, mapping, t) && count == |t.end|
    ensures forall i {:trigger functionBlocks[i]} :: 0 <= i < |functionBlocks| ==> Cleared(dir, functionBlocks[i])
    ensures OtherDirectionKept(dir, functionBlocks)
  {
    InitializeBlocks(dir, functionBlocks);
    mapping, count, t := NumberFresh(dir, root, functionBlocks, g, r);
  }

  /** compute_immediate_dominators (Forward, from the entry block) and
      compute_immediate_postdominators (Backward, from the exit block). */
  method ComputeImmediate(dir: Direction, root: BasicBlock, functionBlocks: seq<BasicBlock>, ghost g: Graph, ghost r: int)
    requires Models(dir, functionBlocks, g) && IsNumber(functionBlocks, root, r)
    modifies functionBlocks`ancestor, functionBlocks`optimalCandidate, functionBlocks`semidominatorNumber,
             functionBlocks`parent, functionBlocks`dfsNumber, functionBlocks`worklist,
             functionBlocks`immediateDominator, functionBlocks`immediatePostdominator
    ensures forall v {:trigger Correct(dir, functionBlocks, g, r, v)} :: 0 <= v < |functionBlocks| ==>
              Correct(dir, functionBlocks, g, r, v)
    ensures OtherDirectionKept(dir, functionBlocks)
  {
    assert forall u :: 0 <= u < |functionBlocks| && functionBlocks[u] == root ==> u == r;
    ghost var t;
    var mapping, count;
    mapping, count, t := StartComputation(dir, root, functionBlocks, g, r);
    ghost var w := ComputeNumbered(dir, root, functionBlocks, mapping, count, g, r, t);
    label Finished:
    SetImmediate(dir, root, null);
    forall v | 0 <= v < |functionBlocks|
      ensures Correct(dir, functionBlocks, g, r, v)
    {
      if v != r {
        assert old@Finished(Settled(dir, functionBlocks, w, v));
        ResultCorrect(dir, functionBlocks, g, r, w.h, t, w.num, w.vert, w.order, v);
      }
    }
  }
}
