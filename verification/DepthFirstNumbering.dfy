/** The recursive numbering pass that starts the dominator computation. */
module DepthFirstNumbering {
  import opened BasicBlocks
  import opened SemidominatorTheory

  // ------------------------------------------------------- the growing tree

  /** What a depth-first tree on 0..n-1, whose current path is open, says about u <= v:
      subtrees are nested intervals, par[v] is the closest proper ancestor of v, and the
      subtrees of open vertices still reach to n. */
  ghost predicate Nested(t: DfsTree, open: set<int>, u: int, v: int) {
    && 0 <= u <= v < |t.end| == |t.par|
    && u < t.end[u] <= |t.end|
    && (u in open ==> t.end[u] == |t.end|)
    && (v < t.end[u] ==> t.end[v] <= t.end[u] && (v in open ==> u in open))
    && (0 < v ==> 0 <= t.par[v] < v < t.end[t.par[v]])
    && (0 < v && t.par[v] < u < v ==> t.end[u] <= v)
  }

  ghost predicate Growing(t: DfsTree, open: set<int>) {
    && |t.end| == |t.par|
    && (forall x :: x in open ==> 0 <= x < |t.end|)
    && forall u, v {:trigger Nested(t, open, u, v)} :: 0 <= u <= v < |t.end| ==> Nested(t, open, u, v)
  }

  /** p is the innermost open vertex, or there is nothing yet. */
  ghost predicate Innermost(open: set<int>, p: int, n: int) {
    if n == 0 then open == {} else p in open && forall x :: x in open ==> x <= p
  }

  ghost function Push(t: DfsTree, open: set<int>, p: int): (t': DfsTree)
    requires |t.end| == |t.par|
    ensures |t'.end| == |t'.par| == |t.end| + 1
    ensures forall i :: 0 <= i < |t.end| ==>
              t'.par[i] == t.par[i] && t'.end[i] == if i in open then |t.end| + 1 else t.end[i]
    ensures t'.par[|t.end|] == p && t'.end[|t.end|] == |t.end| + 1
  {
    var n := |t.end|;
    DfsTree(t.par + [p],
            seq(n + 1, i requires 0 <= i < n + 1 => if i == n || i in open then n + 1 else t.end[i]))
  }

  lemma PushKeepsGrowing(t: DfsTree, open: set<int>, p: int)
    requires Growing(t, open) && Innermost(open, p, |t.end|)
    ensures Growing(Push(t, open, p), open + {|t.end|})
  {
    var n, t', open' := |t.end|, Push(t, open, p), open + {|t.end|};
    forall u, v | 0 <= u <= v < n + 1
      ensures Nested(t', open', u, v)
    {
      if v < n {
        assert Nested(t, open, u, v);
        assert v > 0 ==> Nested(t, open, t.par[v], v);
      } else if u < n {
        assert Nested(t, open, u, u) && Nested(t, open, p, p);
      }
    }
  }

  lemma PopKeepsGrowing(t: DfsTree, open: set<int>, p: int)
    requires Growing(t, open) && p in open && forall x :: x in open ==> x <= p
    ensures Growing(t, open - {p})
  {
    forall u, v | 0 <= u <= v < |t.end|
      ensures Nested(t, open - {p}, u, v)
    {
      assert Nested(t, open, u, v);
    }
  }

  // --------------------------------------------------- the numbered blocks

  /** Every neighbour of a block of the function is a block of the function. */
  ghost predicate Closed(dir: Direction, blocks: set<BasicBlock>)
    reads blocks`successors, blocks`predecessors
  {
    forall b, k {:trigger OutEdges(dir, b)[k]} :: b in blocks && 0 <= k < |OutEdges(dir, b)| ==>
      OutEdges(dir, b)[k] in blocks
  }

  ghost function Unnumbered(blocks: set<BasicBlock>): set<BasicBlock>
    reads blocks`dfsNumber
  {
    set b | b in blocks && b.dfsNumber == UNNUMBERED
  }

  ghost predicate HoldsNumber(blocks: set<BasicBlock>, mapping: array<BasicBlock?>, i: int)
    reads blocks`dfsNumber, mapping
  {
    0 <= i < mapping.Length && mapping[i] in blocks && mapping[i].dfsNumber == i
  }

  /** The numbers 0..count-1 are in use, and mapping takes them back to their blocks. */
  ghost predicate NumberedSoFar(blocks: set<BasicBlock>, count: int, mapping: array<BasicBlock?>)
    reads blocks`dfsNumber, mapping
  {
    && 0 <= count && count + |Unnumbered(blocks)| <= mapping.Length
    && (forall i {:trigger HoldsNumber(blocks, mapping, i)} :: 0 <= i < count ==> HoldsNumber(blocks, mapping, i))
    && (forall b :: b in blocks ==>
          b.dfsNumber == UNNUMBERED || (0 <= b.dfsNumber < count && mapping[b.dfsNumber] == b))
  }

  /** The first n neighbours of b are numbered, and those numbered after u lie below end. */
  ghost predicate EdgesStay(dir: Direction, blocks: set<BasicBlock>, b: BasicBlock, n: int, u: int, end: int)
    reads b`successors, b`predecessors, blocks`dfsNumber
  {
    forall k :: 0 <= k < n && k < |OutEdges(dir, b)| ==>
      && OutEdges(dir, b)[k] in blocks
      && OutEdges(dir, b)[k].dfsNumber != UNNUMBERED
      && (u < OutEdges(dir, b)[k].dfsNumber ==> OutEdges(dir, b)[k].dfsNumber < end)
  }

  /** What is recorded at a numbered block: it is its own candidate and heads its own
      forest tree, it was reached over an edge from its parent, and once it is no longer
      open its edges stay in its subtree or lead back. */
  ghost predicate Recorded(dir: Direction, blocks: set<BasicBlock>, t: DfsTree, open: set<int>, b: BasicBlock)
    reads b, blocks`dfsNumber, blocks`successors, blocks`predecessors
  {
    && 0 <= b.dfsNumber < |t.par| == |t.end|
    && b.semidominatorNumber == b.dfsNumber && b.optimalCandidate == b && b.ancestor == null
    && (b.dfsNumber > 0 ==>
          && b.parent in blocks
          && 0 <= b.parent.dfsNumber == t.par[b.dfsNumber]
          && b in OutEdges(dir, b.parent))
    && (b.dfsNumber !in open ==>
          EdgesStay(dir, blocks, b, |OutEdges(dir, b)|, b.dfsNumber, t.end[b.dfsNumber]))
  }

  ghost predicate NumberingInvariant(dir: Direction, blocks: set<BasicBlock>, mapping: array<BasicBlock?>,
                                     t: DfsTree, open: set<int>)
    reads blocks, mapping
  {
    && Closed(dir, blocks)
    && Growing(t, open)
    && NumberedSoFar(blocks, |t.end|, mapping)
    && forall b {:trigger Recorded(dir, blocks, t, open, b)} :: b in blocks && b.dfsNumber != UNNUMBERED ==>
         Recorded(dir, blocks, t, open, b)
  }

  /** Blocks that had a number keep it. */
  twostate predicate NumbersKept(blocks: set<BasicBlock>)
    reads blocks`dfsNumber
  {
    forall b {:trigger b.dfsNumber} :: b in blocks && old(b.dfsNumber) != UNNUMBERED ==>
      b.dfsNumber == old(b.dfsNumber)
  }

  method InitializeLabels(block: BasicBlock, current: nat)
    modifies block`dfsNumber, block`semidominatorNumber, block`optimalCandidate, block`ancestor
    ensures block.dfsNumber == block.semidominatorNumber == current
    ensures block.optimalCandidate == block && block.ancestor == null
  {
    block.dfsNumber := current;
    block.semidominatorNumber := current;
    block.optimalCandidate := block;
    block.ancestor := null;
  }

  /** The number, label and forest fields of a block the pass has just reached. */
  method AssignNumber(dir: Direction, block: BasicBlock, mapping: array<BasicBlock?>, current: nat,
                      ghost blocks: set<BasicBlock>, ghost t: DfsTree, ghost open: set<int>, ghost p: int)
    requires block in blocks && block.dfsNumber == UNNUMBERED
    requires NumberingInvariant(dir, blocks, mapping, t, open) && current == |t.end|
    requires Innermost(open, p, current)
    requires current > 0 ==>
      block.parent in blocks && block.parent.dfsNumber == p && block in OutEdges(dir, block.parent)
    modifies mapping
    modifies block`dfsNumber, block`semidominatorNumber, block`optimalCandidate, block`ancestor
    ensures NumberingInvariant(dir, blocks, mapping, Push(t, open, p), open + {current})
    ensures block.dfsNumber == current
    ensures Unnumbered(blocks) == old(Unnumbered(blocks)) - {block}
  {
    ghost var before := Unnumbered(blocks);
    assert block in before;
    mapping[current] := block;
    InitializeLabels(block, current);
    ghost var t', open' := Push(t, open, p), open + {current};
    PushKeepsGrowing(t, open, p);
    assert Unnumbered(blocks) == before - {block};
    forall k | 0 <= k < current + 1
      ensures HoldsNumber(blocks, mapping, k)
    {
      assert k < current ==> old(HoldsNumber(blocks, mapping, k));
    }
    assert NumberedSoFar(blocks, current + 1, mapping);
    forall b | b in blocks && b.dfsNumber != UNNUMBERED
      ensures Recorded(dir, blocks, t', open', b)
    {
      if b != block {
        assert old(Recorded(dir, blocks, t, open, b));
      }
    }
    assert NumberingInvariant(dir, blocks, mapping, t', open');
  }

  method SetParent(dir: Direction, child: BasicBlock, block: BasicBlock, ghost mapping: array<BasicBlock?>,
                   ghost blocks: set<BasicBlock>, ghost t: DfsTree, ghost open: set<int>)
    requires child in blocks && child.dfsNumber == UNNUMBERED
    requires NumberingInvariant(dir, blocks, mapping, t, open)
    modifies child`parent
    ensures NumberingInvariant(dir, blocks, mapping, t, open)
    ensures child.parent == block
  {
    child.parent := block;
    forall b | b in blocks && b.dfsNumber != UNNUMBERED
      ensures Recorded(dir, blocks, t, open, b)
    {
      assert old(Recorded(dir, blocks, t, open, b));
    }
  }

  /** A block all of whose neighbours are numbered is finished. */
  lemma CloseBlock(dir: Direction, block: BasicBlock, mapping: array<BasicBlock?>,
                   blocks: set<BasicBlock>, t: DfsTree, open: set<int>, open': set<int>)
    requires block in blocks && NumberingInvariant(dir, blocks, mapping, t, open')
    requires block.dfsNumber in open' && open == open' - {block.dfsNumber}
    requires forall x :: x in open' ==> x <= block.dfsNumber
    requires FirstNumbered(dir, blocks, block, |OutEdges(dir, block)|)
    ensures NumberingInvariant(dir, blocks, mapping, t, open)
  {
    var c := block.dfsNumber;
    PopKeepsGrowing(t, open', c);
    assert Nested(t, open', c, c);
    assert EdgesStay(dir, blocks, block, |OutEdges(dir, block)|, c, |t.end|);
    forall b | b in blocks && b.dfsNumber != UNNUMBERED
      ensures Recorded(dir, blocks, t, open, b)
    {
      assert Recorded(dir, blocks, t, open', b);
      if b.dfsNumber == c {
        assert mapping[c] == b == block;
      }
    }
  }

  ghost predicate FirstNumbered(dir: Direction, blocks: set<BasicBlock>, b: BasicBlock, n: int)
    reads b`successors, b`predecessors, blocks`dfsNumber
  {
    forall k :: 0 <= k < n && k < |OutEdges(dir, b)| ==>
      OutEdges(dir, b)[k] in blocks && OutEdges(dir, b)[k].dfsNumber != UNNUMBERED
  }

  method VisitSuccessor(dir: Direction, block: BasicBlock, i: nat, mapping: array<BasicBlock?>, current: nat,
                        ghost blocks: set<BasicBlock>, ghost t: DfsTree, ghost open: set<int>)
    returns (next: nat, ghost t': DfsTree)
    requires block in blocks && i < |OutEdges(dir, block)| && FirstNumbered(dir, blocks, block, i)
    requires NumberingInvariant(dir, blocks, mapping, t, open) && current == |t.end| > 0
    requires Innermost(open, block.dfsNumber, current)
    modifies mapping
    modifies blocks`dfsNumber, blocks`semidominatorNumber, blocks`optimalCandidate, blocks`ancestor, blocks`parent
    ensures next == |t'.end| && current <= next
    ensures NumberingInvariant(dir, blocks, mapping, t', open)
    ensures block.dfsNumber == old(block.dfsNumber) && FirstNumbered(dir, blocks, block, i + 1)
    ensures NumbersKept(blocks)
    ensures Unnumbered(blocks) <= old(Unnumbered(blocks))
    decreases Unnumbered(blocks), 1
  {
    next, t' := current, t;
    var successor := OutEdges(dir, block)[i];
    if successor.dfsNumber == UNNUMBERED {
      SetParent(dir, successor, block, mapping, blocks, t, open);
      next, t' := DfsNumberBlock(dir, successor, mapping, current, blocks, t, open, block.dfsNumber);
    }
  }

  /** Numbering block and everything reachable from it through unnumbered blocks. */
  method DfsNumberBlock(dir: Direction, block: BasicBlock, mapping: array<BasicBlock?>, current: nat,
                        ghost blocks: set<BasicBlock>, ghost t: DfsTree, ghost open: set<int>, ghost p: int)
    returns (next: nat, ghost t': DfsTree)
    requires block in blocks && block.dfsNumber == UNNUMBERED
    requires NumberingInvariant(dir, blocks, mapping, t, open) && current == |t.end|
    requires Innermost(open, p, current)
    requires current > 0 ==>
      block.parent in blocks && block.parent.dfsNumber == p && block in OutEdges(dir, block.parent)
    modifies mapping
    modifies blocks`dfsNumber, blocks`semidominatorNumber, blocks`optimalCandidate, blocks`ancestor, blocks`parent
    ensures next == |t'.end| && current < next
    ensures NumberingInvariant(dir, blocks, mapping, t', open)
    ensures block.dfsNumber == current && t'.end[current] == next
    ensures NumbersKept(blocks)
    decreases Unnumbered(blocks), 0
  {
    ghost var before := Unnumbered(blocks);
    assert block in before;
    AssignNumber(dir, block, mapping, current, blocks, t, open, p);
    next := current + 1;
    t' := Push(t, open, p);
    ghost var open' := open + {current};
    assert open == open' - {current};

    for i := 0 to |OutEdges(dir, block)|
      invariant next == |t'.end| && current < next
      invariant NumberingInvariant(dir, blocks, mapping, t', open')
      invariant block.dfsNumber == current
      invariant FirstNumbered(dir, blocks, block, i)
      invariant Unnumbered(blocks) <= before - {block}
      invariant NumbersKept(blocks)
    {
      next, t' := VisitSuccessor(dir, block, i, mapping, next, blocks, t', open');
    }
    assert Nested(t', open', current, current);
    CloseBlock(dir, block, mapping, blocks, t', open, open');
  }
}
