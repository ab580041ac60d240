/** The final layout: a breadth-first chain of blocks in which a jump to the next block is
    deleted, and which blocks it holds. */
module BlockLayout {
  import opened BasicBlocks
  import opened DynamicArrays
  import opened Postprocessor
  import opened LayoutOrder

  // ----------------------------------------------------------------- the chain

  ghost predicate LinkAt(chain: seq<BasicBlock>, code: OriginalCode, k: int)
    reads chain`statements, chain`directSuccessor
  {
    && 0 <= k < |chain| && chain[k] in code
    && chain[k].directSuccessor == (if k + 1 < |chain| then chain[k + 1] else null)
    && chain[k].statements == LaidCode(code[chain[k]], chain[k].directSuccessor)
  }

  /** The blocks of the chain are linked in order; the others are as they were. */
  ghost predicate LinkedChain(blocks: set<BasicBlock>, chain: seq<BasicBlock>, code: OriginalCode)
    reads blocks`statements, blocks`directSuccessor, chain`statements, chain`directSuccessor
  {
    && code.Keys == blocks && Distinct(chain)
    && (forall b {:trigger b in chain} :: b in chain ==> b in blocks)
    && (forall k {:trigger LinkAt(chain, code, k)} :: 0 <= k < |chain| ==> LinkAt(chain, code, k))
    && (forall b {:trigger b in blocks} :: b in blocks && b !in chain ==> b.directSuccessor == null && b.statements == code[b])
  }

  /** Some block has s as a successor other than the target of its final jump. */
  ghost predicate PlainSuccessor(blocks: set<BasicBlock>, code: OriginalCode, s: BasicBlock)
    reads blocks`successors
  {
    exists a {:trigger s in a.successors} :: a in blocks && a in code && s in a.successors && JumpingTo(code[a]) != s
  }

  /** Whatever is marked visited is in the chain, or was empty from the start and met as a plain
      successor. */
  ghost predicate VisitedChain(blocks: set<BasicBlock>, chain: seq<BasicBlock>, code: OriginalCode)
    reads blocks`visited, blocks`successors
  {
    && code.Keys == blocks
    && forall b {:trigger b in blocks} {:trigger b in chain} :: b in blocks ==>
         (b in chain ==> b.visited) && (b.visited && b !in chain ==> code[b] == [] && PlainSuccessor(blocks, code, b))
  }

  /** The successors of the chain's blocks have been visited or are waiting. */
  ghost predicate Covered(chain: seq<BasicBlock>, visited: set<BasicBlock>, queue: seq<BasicBlock>)
    reads chain`successors
  {
    forall b {:trigger b in chain} :: b in chain ==> CoveredFrom(b, visited, queue, |b.successors|)
  }

  ghost predicate CoveredFrom(b: BasicBlock, visited: set<BasicBlock>, queue: seq<BasicBlock>, n: nat)
    reads b`successors
  {
    forall k {:trigger b.successors[k]} :: 0 <= k < n && k < |b.successors| ==>
      b.successors[k] in visited || b.successors[k] in queue
  }

  // ------------------------------------------------------- what is enqueued

  /** Taking a off the queue can put b in: b is a successor that is not empty, or a's code ends in
      a jump to b. */
  ghost predicate Leads(code: OriginalCode, a: BasicBlock, b: BasicBlock)
    reads a`successors
  {
    a in code && b in code && b in a.successors && (code[b] != [] || JumpingTo(code[a]) == b)
  }

  /** b is reached from the entry over n such steps. */
  ghost predicate EnqueuedAfter(blocks: set<BasicBlock>, code: OriginalCode, entry: BasicBlock, b: BasicBlock, n: nat)
    reads blocks`successors
    decreases n
  {
    && b in blocks
    && (b == entry ||
        (n > 0 && exists a {:trigger Leads(code, a, b)} ::
           a in blocks && Leads(code, a, b) && EnqueuedAfter(blocks, code, entry, a, n - 1)))
  }

  ghost predicate Enqueued(blocks: set<BasicBlock>, code: OriginalCode, entry: BasicBlock, b: BasicBlock)
    reads blocks`successors
  {
    exists n: nat :: EnqueuedAfter(blocks, code, entry, b, n)
  }

  lemma EnqueuedNext(blocks: set<BasicBlock>, code: OriginalCode, entry: BasicBlock, a: BasicBlock, b: BasicBlock)
    requires a in blocks && b in blocks && Enqueued(blocks, code, entry, a) && Leads(code, a, b)
    ensures Enqueued(blocks, code, entry, b)
  {
    var n: nat :| EnqueuedAfter(blocks, code, entry, a, n);
    assert EnqueuedAfter(blocks, code, entry, b, n + 1);
  }

  ghost predicate AllEnqueued(blocks: set<BasicBlock>, code: OriginalCode, entry: BasicBlock, some: seq<BasicBlock>)
    reads blocks`successors
  {
    forall b {:trigger b in some} :: b in some ==> b in blocks && Enqueued(blocks, code, entry, b)
  }

  ghost function Visited(blocks: set<BasicBlock>): set<BasicBlock>
    reads blocks`visited
  {
    set b | b in blocks && b.visited
  }

  ghost function Stale(queue: seq<BasicBlock>, visited: set<BasicBlock>): nat {
    if queue == [] then 0 else (if queue[0] in visited then 1 else 0) + Stale(queue[1..], visited)
  }

  lemma {:induction false} StaleAppend(queue: seq<BasicBlock>, visited: set<BasicBlock>, b: BasicBlock)
    requires b !in visited
    ensures Stale(queue + [b], visited) == Stale(queue, visited)
  {
    if queue == [] {
      assert queue + [b] == [b];
      assert [b][1..] == [];
    } else {
      assert (queue + [b])[1..] == queue[1..] + [b];
      StaleAppend(queue[1..], visited, b);
    }
  }

  // ----------------------------------------------------------------- the steps

  /** One more block at the end of the chain, deleting the jump it makes needless. */
  method AppendToChain(previous: BasicBlock, current: BasicBlock, ghost blocks: set<BasicBlock>,
                       ghost chain: seq<BasicBlock>, ghost code: OriginalCode)
    requires LinkedChain(blocks, chain, code) && |chain| > 0 && chain[|chain| - 1] == previous
    requires current in blocks && current !in chain
    modifies previous`directSuccessor, previous`statements
    ensures LinkedChain(blocks, chain + [current], code)
  {
    ghost var last := |chain| - 1;
    assert LinkAt(chain, code, last) && previous in chain;
    SetDirectSuccessor(previous, current);
    ghost var longer := chain + [current];
    forall k | 0 <= k < |longer|
      ensures LinkAt(longer, code, k)
    {
      if k < last {
        assert old(LinkAt(chain, code, k));
        assert chain[k] != previous && longer[k] == chain[k] && longer[k + 1] == chain[k + 1];
      }
    }
  }

  method SetDirectSuccessor(previous: BasicBlock, current: BasicBlock)
    modifies previous`directSuccessor, previous`statements
    ensures previous.directSuccessor == current
    ensures previous.statements == LaidCode(old(previous.statements), current)
  {
    previous.directSuccessor := current;
    if JumpingTo(previous.statements) == previous.directSuccessor {
      previous.statements := previous.statements[..|previous.statements| - 1];
    }
  }

  /** What the chain starts from: every block's jumps go to its successors, inside the function. */
  ghost predicate OriginalTargets(blocks: set<BasicBlock>, code: OriginalCode)
    reads blocks`successors
  {
    && code.Keys == blocks
    && forall b {:trigger b in blocks} :: b in blocks ==>
         TargetsIn(code[b], b.successors) && forall s {:trigger s in b.successors} :: s in b.successors ==> s in blocks
  }

  /** The state between two steps of the traversal, apart from what it still has to cover. */
  ghost predicate Traversing(blocks: set<BasicBlock>, chain: seq<BasicBlock>, code: OriginalCode)
    reads blocks`statements, blocks`directSuccessor, blocks`visited, blocks`successors,
          chain`statements, chain`directSuccessor
  {
    && LinkedChain(blocks, chain, code) && VisitedChain(blocks, chain, code)
    && OriginalTargets(blocks, code)
  }

  /** The final jump of a block that has been laid out is that of its original code, unless that
      jump has been deleted because its target follows in the chain. */
  lemma CurrentJump(blocks: set<BasicBlock>, chain: seq<BasicBlock>, code: OriginalCode, current: BasicBlock)
    requires Traversing(blocks, chain, code) && current in blocks
    ensures JumpingTo(current.statements) != null ==> JumpingTo(current.statements) in current.successors
    ensures current.statements != code[current] ==> current in chain && JumpingTo(code[current]) in chain
    ensures current !in chain ==> current.statements == code[current]
  {
    if current in chain {
      var k :| 0 <= k < |chain| && chain[k] == current;
      assert LinkAt(chain, code, k);
    }
    var n := |current.statements|;
    if n > 0 {
      assert current.statements[n - 1] == code[current][n - 1];
    }
  }

  /** The queue, everything in which leads from the entry. */
  ghost predicate Waiting(blocks: set<BasicBlock>, code: OriginalCode, entry: BasicBlock, queue: seq<BasicBlock>, current: BasicBlock)
    reads blocks`successors
  {
    AllEnqueued(blocks, code, entry, queue) && current in blocks && Enqueued(blocks, code, entry, current)
  }

  /** An unvisited block goes to the back of the queue. */
  method Enqueue(queue: seq<BasicBlock>, block: BasicBlock, ghost blocks: set<BasicBlock>, ghost code: OriginalCode,
                 ghost entry: BasicBlock)
    returns (queue': seq<BasicBlock>)
    requires block in blocks && !block.visited && AllEnqueued(blocks, code, entry, queue) && Enqueued(blocks, code, entry, block)
    ensures queue' == queue + [block] && AllEnqueued(blocks, code, entry, queue')
    ensures Stale(queue', Visited(blocks)) == Stale(queue, Visited(blocks))
  {
    queue' := queue + [block];
    StaleAppend(queue, Visited(blocks), block);
  }

  method MarkVisited(block: BasicBlock, ghost blocks: set<BasicBlock>, ghost chain: seq<BasicBlock>, ghost code: OriginalCode)
    requires Traversing(blocks, chain, code) && block in blocks
    requires block in chain || (code[block] == [] && PlainSuccessor(blocks, code, block))
    modifies block`visited
    ensures Traversing(blocks, chain, code)
    ensures Visited(blocks) == old(Visited(blocks)) + {block}
  {
    block.visited := true;
  }

  lemma CoveredMore(b: BasicBlock, visited: set<BasicBlock>, visited': set<BasicBlock>,
                    queue: seq<BasicBlock>, queue': seq<BasicBlock>, n: nat)
    requires CoveredFrom(b, visited, queue, n) && visited <= visited' && queue <= queue'
    ensures CoveredFrom(b, visited', queue', n)
  {
  }

  /** Of current's successors the first n, and the target of its final jump, have been visited or
      are waiting. */
  ghost predicate SeenTo(blocks: set<BasicBlock>, current: BasicBlock, directEnd: BasicBlock?, queue: seq<BasicBlock>, n: nat)
    reads current`statements, current`successors, blocks`visited
  {
    && directEnd == JumpingTo(current.statements)
    && (directEnd != null ==> directEnd in Visited(blocks) || directEnd in queue)
    && CoveredFrom(current, Visited(blocks), queue, n)
  }

  lemma SeenToNext(blocks: set<BasicBlock>, current: BasicBlock, directEnd: BasicBlock?, visited: set<BasicBlock>,
                   queue: seq<BasicBlock>, queue': seq<BasicBlock>, n: nat, next: nat)
    requires directEnd == JumpingTo(current.statements)
    requires directEnd != null ==> directEnd in visited || directEnd in queue
    requires CoveredFrom(current, visited, queue, n)
    requires visited <= Visited(blocks) && queue <= queue' && next == n + 1 <= |current.successors|
    requires current.successors[n] in Visited(blocks) || current.successors[n] in queue'
    ensures SeenTo(blocks, current, directEnd, queue', next)
  {
  }

  /** What successor number idx adds to the discoveries, and to the blocks passed by. */
  ghost function OtherAt(jump: BasicBlock?, current: BasicBlock, idx: nat, code: OriginalCode): seq<BasicBlock>
    requires idx < |current.successors|
    reads current`successors
  {
    var s := current.successors[idx];
    if s != jump && s in code && code[s] != [] then [s] else []
  }

  ghost function PassedAt(jump: BasicBlock?, current: BasicBlock, idx: nat, code: OriginalCode): set<BasicBlock>
    requires idx < |current.successors|
    reads current`successors
  {
    var s := current.successors[idx];
    if s != jump && s in code && code[s] == [] then {s} else {}
  }

  /** The state of the successor loop before number n: what it has added to the queue and marked. */
  ghost predicate LoopTo(jump: BasicBlock?, current: BasicBlock, code: OriginalCode, visited: set<BasicBlock>,
                         queue: seq<BasicBlock>, n: nat, queue': seq<BasicBlock>, visited': set<BasicBlock>)
    reads current`successors
  {
    && n <= |current.successors|
    && queue' == queue + Unseen(Others(jump, current.successors[..n], code), visited)
    && visited' == visited + Passed(jump, current.successors[..n], code)
  }

  lemma LoopNext(jump: BasicBlock?, current: BasicBlock, code: OriginalCode, visited: set<BasicBlock>,
                 queue: seq<BasicBlock>, n: nat, next: nat, queue1: seq<BasicBlock>, visited1: set<BasicBlock>,
                 queue2: seq<BasicBlock>, visited2: set<BasicBlock>)
    requires LoopTo(jump, current, code, visited, queue, n, queue1, visited1) && next == n + 1 <= |current.successors|
    requires queue2 == queue1 + Unseen(OtherAt(jump, current, n, code), visited1)
    requires visited2 == visited1 + PassedAt(jump, current, n, code)
    ensures LoopTo(jump, current, code, visited, queue, next, queue2, visited2)
  {
    var s, shorter := current.successors[n], current.successors[..n];
    assert current.successors[..next] == shorter + [s];
    OneMoreOther(jump, shorter, s, OtherAt(jump, current, n, code), code, visited, visited1);
    OneMorePassed(jump, shorter, s, code);
    Regrouped(queue, Unseen(Others(jump, shorter, code), visited), Unseen(OtherAt(jump, current, n, code), visited1));
  }

  lemma OneMoreOther(jump: BasicBlock?, successors: seq<BasicBlock>, s: BasicBlock, at: seq<BasicBlock>, code: OriginalCode,
                     visited: set<BasicBlock>, visited1: set<BasicBlock>)
    requires at == if s != jump && s in code && code[s] != [] then [s] else []
    requires visited1 == visited + Passed(jump, successors, code)
    ensures Unseen(Others(jump, successors + [s], code), visited) == Unseen(Others(jump, successors, code), visited) + Unseen(at, visited1)
  {
    var before := Others(jump, successors, code);
    assert (successors + [s])[..|successors|] == successors;
    assert Others(jump, successors + [s], code) == before + at;
    UnseenAppend(before, at, visited);
    if at != [] {
      assert s in visited1 <==> s in visited;
      assert Unseen([s], visited1) == Unseen([s], visited);
    }
  }

  lemma OneMorePassed(jump: BasicBlock?, successors: seq<BasicBlock>, s: BasicBlock, code: OriginalCode)
    ensures Passed(jump, successors + [s], code) ==
              Passed(jump, successors, code) + if s != jump && s in code && code[s] == [] then {s} else {}
  {
  }

  /** One step of the successor loop. */
  method VisitSuccessor(current: BasicBlock, idx: nat, directEnd: BasicBlock?, queue: seq<BasicBlock>,
                        ghost blocks: set<BasicBlock>, ghost chain: seq<BasicBlock>, ghost code: OriginalCode,
                        ghost entry: BasicBlock, ghost next: nat, ghost visited: set<BasicBlock>, ghost start: seq<BasicBlock>)
    returns (queue': seq<BasicBlock>)
    requires Traversing(blocks, chain, code) && Waiting(blocks, code, entry, queue, current)
    requires SeenTo(blocks, current, directEnd, queue, idx) && next == idx + 1 <= |current.successors|
    requires LoopTo(directEnd, current, code, visited, start, idx, queue, Visited(blocks))
    modifies blocks`visited
    ensures Traversing(blocks, chain, code) && Waiting(blocks, code, entry, queue', current) && queue <= queue'
    ensures SeenTo(blocks, current, directEnd, queue', next)
    ensures LoopTo(directEnd, current, code, visited, start, next, queue', Visited(blocks))
    ensures old(Visited(blocks)) <= Visited(blocks)
    ensures Visited(blocks) == old(Visited(blocks)) ==> Stale(queue', Visited(blocks)) == Stale(queue, old(Visited(blocks)))
  {
    ghost var before := Visited(blocks);
    queue' := VisitOne(current, idx, directEnd, queue, blocks, chain, code, entry);
    SeenToNext(blocks, current, directEnd, before, queue, queue', idx, next);
    LoopNext(directEnd, current, code, visited, start, idx, next, queue, before, queue', Visited(blocks));
  }

  method VisitOne(current: BasicBlock, idx: nat, directEnd: BasicBlock?, queue: seq<BasicBlock>,
                  ghost blocks: set<BasicBlock>, ghost chain: seq<BasicBlock>, ghost code: OriginalCode,
                  ghost entry: BasicBlock)
    returns (queue': seq<BasicBlock>)
    requires Traversing(blocks, chain, code) && Waiting(blocks, code, entry, queue, current)
    requires SeenTo(blocks, current, directEnd, queue, idx) && idx < |current.successors|
    modifies blocks`visited
    ensures Traversing(blocks, chain, code) && Waiting(blocks, code, entry, queue', current) && queue <= queue'
    ensures current.successors[idx] in Visited(blocks) || current.successors[idx] in queue'
    ensures old(Visited(blocks)) <= Visited(blocks)
    ensures Visited(blocks) == old(Visited(blocks)) ==> Stale(queue', Visited(blocks)) == Stale(queue, old(Visited(blocks)))
    ensures queue' == queue + Unseen(OtherAt(directEnd, current, idx, code), old(Visited(blocks)))
    ensures Visited(blocks) == old(Visited(blocks)) + PassedAt(directEnd, current, idx, code)
  {
    queue' := queue;
    var successor := current.successors[idx];
    assert successor in current.successors && successor in blocks;
    CurrentJump(blocks, chain, code, successor);
    if successor == directEnd {
      return;
    }
    if successor.statements == [] {
      CurrentJump(blocks, chain, code, current);
      assert successor in chain || PlainSuccessor(blocks, code, successor);
      MarkVisited(successor, blocks, chain, code);
      return;
    }
    if !successor.visited {
      EnqueuedNext(blocks, code, entry, current, successor);
      queue' := Enqueue(queue, successor, blocks, code, entry);
    }
  }

  /** A block that comes off the queue is still as it was, or its successors have been seen to. */
  ghost predicate Fresh(blocks: set<BasicBlock>, code: OriginalCode, current: BasicBlock, queue: seq<BasicBlock>)
    reads current`statements, current`successors, blocks`visited
  {
    current in code && (current.statements == code[current] || CoveredFrom(current, Visited(blocks), queue, |current.successors|))
  }

  /** The target of the current block's final jump is visited or goes into the queue first. */
  method EnqueueFinalJump(current: BasicBlock, queue: seq<BasicBlock>, ghost blocks: set<BasicBlock>,
                          ghost chain: seq<BasicBlock>, ghost code: OriginalCode, ghost entry: BasicBlock)
    returns (directEnd: BasicBlock?, queue': seq<BasicBlock>)
    requires Traversing(blocks, chain, code) && Waiting(blocks, code, entry, queue, current) && Fresh(blocks, code, current, queue)
    ensures Waiting(blocks, code, entry, queue', current) && queue <= queue'
    ensures SeenTo(blocks, current, directEnd, queue', 0)
    ensures Stale(queue', Visited(blocks)) == Stale(queue, Visited(blocks))
    ensures directEnd == JumpingTo(current.statements)
    ensures queue' == queue + Unseen(if directEnd != null then [directEnd] else [], Visited(blocks))
  {
    queue' := queue;
    CurrentJump(blocks, chain, code, current);
    directEnd := JumpingTo(current.statements);
    if directEnd != null && !directEnd.visited {
      if current.statements == code[current] {
        EnqueuedNext(blocks, code, entry, current, directEnd);
      } else {
        ghost var k :| 0 <= k < |current.successors| && current.successors[k] == directEnd;
        assert directEnd in queue;
      }
      queue' := Enqueue(queue', directEnd, blocks, code, entry);
    }
  }

  /** The successor loop. */
  method VisitOthers(current: BasicBlock, directEnd: BasicBlock?, queue: seq<BasicBlock>, ghost blocks: set<BasicBlock>,
                     ghost chain: seq<BasicBlock>, ghost code: OriginalCode, ghost entry: BasicBlock)
    returns (queue': seq<BasicBlock>)
    requires Traversing(blocks, chain, code) && Waiting(blocks, code, entry, queue, current)
    requires SeenTo(blocks, current, directEnd, queue, 0)
    modifies blocks`visited
    ensures Traversing(blocks, chain, code) && Waiting(blocks, code, entry, queue', current) && queue <= queue'
    ensures SeenTo(blocks, current, directEnd, queue', |current.successors|)
    ensures LoopTo(directEnd, current, code, old(Visited(blocks)), queue, |current.successors|, queue', Visited(blocks))
    ensures old(Visited(blocks)) <= Visited(blocks)
    ensures Visited(blocks) == old(Visited(blocks)) ==> Stale(queue', Visited(blocks)) == Stale(queue, old(Visited(blocks)))
  {
    ghost var visited := Visited(blocks);
    queue' := queue;
    assert current.successors[..0] == [];
    var idx := 0;
    while idx < |current.successors|
      invariant 0 <= idx <= |current.successors|
      invariant Traversing(blocks, chain, code) && Waiting(blocks, code, entry, queue', current) && queue <= queue'
      invariant SeenTo(blocks, current, directEnd, queue', idx)
      invariant LoopTo(directEnd, current, code, visited, queue, idx, queue', Visited(blocks))
      invariant visited <= Visited(blocks)
      invariant Visited(blocks) == visited ==> Stale(queue', Visited(blocks)) == Stale(queue, visited)
    {
      ghost var next := idx + 1;
      queue' := VisitSuccessor(current, idx, directEnd, queue', blocks, chain, code, entry, next, visited, queue);
      idx := idx + 1;
    }
  }

  /** The rest of one iteration: the final jump's target first, then the other successors. */
  method VisitSuccessors(current: BasicBlock, queue: seq<BasicBlock>, ghost blocks: set<BasicBlock>,
                         ghost chain: seq<BasicBlock>, ghost code: OriginalCode, ghost entry: BasicBlock)
    returns (queue': seq<BasicBlock>)
    requires Traversing(blocks, chain, code) && Waiting(blocks, code, entry, queue, current) && Fresh(blocks, code, current, queue)
    modifies blocks`visited
    ensures Traversing(blocks, chain, code) && Waiting(blocks, code, entry, queue', current) && queue <= queue'
    ensures CoveredFrom(current, Visited(blocks), queue', |current.successors|)
    ensures old(Visited(blocks)) <= Visited(blocks)
    ensures Visited(blocks) == old(Visited(blocks)) ==> Stale(queue', Visited(blocks)) == Stale(queue, old(Visited(blocks)))
    ensures queue' == queue + Unseen(Found(JumpingTo(current.statements), current.successors, code), old(Visited(blocks)))
    ensures Visited(blocks) == old(Visited(blocks)) + Passed(JumpingTo(current.statements), current.successors, code)
  {
    var directEnd, start;
    directEnd, start := EnqueueFinalJump(current, queue, blocks, chain, code, entry);
    ghost var visited := Visited(blocks);
    queue' := VisitOthers(current, directEnd, start, blocks, chain, code, entry);
    LoopDone(directEnd, current, code, visited, queue, start, |current.successors|, queue', Visited(blocks));
  }

  lemma LoopDone(jump: BasicBlock?, current: BasicBlock, code: OriginalCode, visited: set<BasicBlock>, queue: seq<BasicBlock>,
                 start: seq<BasicBlock>, n: nat, queue': seq<BasicBlock>, visited': set<BasicBlock>)
    requires LoopTo(jump, current, code, visited, start, n, queue', visited') && n == |current.successors|
    requires start == queue + Unseen(if jump != null then [jump] else [], visited)
    ensures queue' == queue + Unseen(Found(jump, current.successors, code), visited)
    ensures visited' == visited + Passed(jump, current.successors, code)
  {
    assert current.successors[..n] == current.successors;
    var first, others := if jump != null then [jump] else [], Others(jump, current.successors, code);
    UnseenAppend(first, others, visited);
    Regrouped(queue, Unseen(first, visited), Unseen(others, visited));
  }

  /** Where the traversal stands: nothing taken yet, or previous at the end of the chain. */
  ghost predicate At(entry: BasicBlock, previous: BasicBlock?, queue: seq<BasicBlock>, chain: seq<BasicBlock>) {
    if previous == null then chain == [] && queue == [entry]
    else |chain| > 0 && chain[0] == entry && chain[|chain| - 1] == previous
  }

  ghost predicate Progress(entry: BasicBlock, previous: BasicBlock?, queue: seq<BasicBlock>, blocks: set<BasicBlock>,
                           chain: seq<BasicBlock>, code: OriginalCode)
    reads blocks`statements, blocks`directSuccessor, blocks`visited, blocks`successors,
          chain`statements, chain`directSuccessor, chain`successors
  {
    && At(entry, previous, queue, chain) && Traversing(blocks, chain, code)
    && AllEnqueued(blocks, code, entry, queue) && AllEnqueued(blocks, code, entry, chain)
    && Covered(chain, Visited(blocks), queue)
  }

  /** Taking a block off the queue: it joins the chain unless it has been visited. */
  method TakeBlock(entry: BasicBlock, previous: BasicBlock?, current: BasicBlock, ghost blocks: set<BasicBlock>,
                   ghost chain: seq<BasicBlock>, ghost code: OriginalCode)
    returns (previous': BasicBlock, ghost chain': seq<BasicBlock>)
    requires At(entry, previous, [current], chain) && Traversing(blocks, chain, code) && current in blocks
    requires previous == null ==> !current.visited
    modifies blocks`statements, blocks`directSuccessor, blocks`visited
    ensures At(entry, previous', [], chain') && Traversing(blocks, chain', code)
    ensures chain' == if old(current.visited) then chain else chain + [current]
    ensures old(current.visited) <==> current in old(Visited(blocks))
    ensures current in chain ==> old(current.visited)
    ensures current !in chain ==> current.statements == code[current]
    ensures Visited(blocks) == old(Visited(blocks)) + {current}
  {
    chain' := chain;
    if previous == null {
      previous' := current;
      chain' := [current];
      assert LinkedChain(blocks, chain', code) by {
        assert LinkAt(chain', code, 0);
      }
    } else {
      previous' := previous;
      assert previous in chain;
      if previous != current && !current.visited {
        AppendToChain(previous, current, blocks, chain, code);
        previous' := current;
        chain' := chain + [current];
      }
    }
    SetVisited(current, blocks);
  }

  method SetVisited(block: BasicBlock, ghost blocks: set<BasicBlock>)
    requires block in blocks
    modifies block`visited
    ensures block.visited && Visited(blocks) == old(Visited(blocks)) + {block}
  {
    block.visited := true;
  }

  lemma SmallerRemainder(blocks: set<BasicBlock>, before: set<BasicBlock>, after: set<BasicBlock>)
    requires before < after && after <= blocks
    ensures |blocks - after| < |blocks - before|
  {
    assert blocks - before == (blocks - after) + (after - before) && after - before != {};
  }

  /** The queue has lost its front block, which is now visited. */
  lemma CoveredDequeue(chain: seq<BasicBlock>, visited: set<BasicBlock>, visited': set<BasicBlock>, queue: seq<BasicBlock>)
    requires Covered(chain, visited, queue) && |queue| > 0 && visited' == visited + {queue[0]}
    ensures Covered(chain, visited', queue[1..])
  {
    assert queue == [queue[0]] + queue[1..];
  }

  lemma ProgressMade(entry: BasicBlock, previous: BasicBlock, current: BasicBlock, visited: set<BasicBlock>,
                     rest: seq<BasicBlock>, queue': seq<BasicBlock>, blocks: set<BasicBlock>, chain: seq<BasicBlock>,
                     chain': seq<BasicBlock>, code: OriginalCode)
    requires chain' == chain || chain' == chain + [current]
    requires At(entry, previous, [], chain') && Traversing(blocks, chain', code) && AllEnqueued(blocks, code, entry, chain')
    requires Waiting(blocks, code, entry, queue', current)
    requires Covered(chain, visited, rest) && visited <= Visited(blocks) && rest <= queue'
    requires CoveredFrom(current, Visited(blocks), queue', |current.successors|)
    ensures Progress(entry, previous, queue', blocks, chain', code)
  {
    forall b | b in chain'
      ensures CoveredFrom(b, Visited(blocks), queue', |b.successors|)
    {
      if b in chain {
        CoveredMore(b, visited, Visited(blocks), rest, queue', |b.successors|);
      }
    }
  }

  ghost predicate AreSuccessors(blocks: set<BasicBlock>, succ: SuccessorLists)
    reads blocks`successors
  {
    succ.Keys == blocks && forall b {:trigger succ[b]} :: b in blocks ==> succ[b] == b.successors
  }

  /** The first half of an iteration: the front of the queue is taken. */
  method Dequeue(entry: BasicBlock, previous: BasicBlock?, queue: seq<BasicBlock>, ghost blocks: set<BasicBlock>,
                 ghost chain: seq<BasicBlock>, ghost code: OriginalCode, ghost succ: SuccessorLists)
    returns (previous': BasicBlock, current: BasicBlock, rest: seq<BasicBlock>, ghost chain': seq<BasicBlock>)
    requires Progress(entry, previous, queue, blocks, chain, code) && queue != []
    requires previous == null ==> !entry.visited
    requires AreSuccessors(blocks, succ)
    modifies blocks`statements, blocks`directSuccessor, blocks`visited
    ensures queue == [current] + rest && At(entry, previous', [], chain') && (chain' == chain || chain' == chain + [current])
    ensures chain' == if current in old(Visited(blocks)) then chain else chain + [current]
    ensures JumpSeen(code, succ, current, JumpingTo(current.statements), chain, Visited(blocks))
    ensures SuccessorsSeen(succ, current, chain, rest, Visited(blocks))
    ensures Traversing(blocks, chain', code) && Waiting(blocks, code, entry, rest, current)
    ensures AllEnqueued(blocks, code, entry, chain')
    ensures Fresh(blocks, code, current, rest) && Covered(chain, Visited(blocks), rest)
    ensures Visited(blocks) == old(Visited(blocks)) + {current}
  {
    current, rest := queue[0], queue[1..];
    assert queue == [current] + rest;
    assert current in queue && current in blocks;
    assert forall b :: b in rest ==> b in queue;
    ghost var before := Visited(blocks);
    previous', chain' := TakeBlock(entry, previous, current, blocks, chain, code);
    CoveredDequeue(chain, before, Visited(blocks), queue);
    SeenAgain(blocks, chain, chain', code, succ, current, rest);
  }

  /** What the traversal finds at the block it takes. */
  lemma SeenAgain(blocks: set<BasicBlock>, chain: seq<BasicBlock>, chain': seq<BasicBlock>, code: OriginalCode,
                  succ: SuccessorLists, current: BasicBlock, rest: seq<BasicBlock>)
    requires Traversing(blocks, chain', code) && current in blocks && Covered(chain, Visited(blocks), rest)
    requires current !in chain ==> current.statements == code[current]
    requires AreSuccessors(blocks, succ)
    requires chain' == chain || chain' == chain + [current]
    ensures JumpSeen(code, succ, current, JumpingTo(current.statements), chain, Visited(blocks))
    ensures SuccessorsSeen(succ, current, chain, rest, Visited(blocks))
  {
    CurrentJump(blocks, chain', code, current);
    forall s | current in chain && s in current.successors
      ensures s in Visited(blocks) || s in rest
    {
      var k :| 0 <= k < |current.successors| && current.successors[k] == s;
      assert CoveredFrom(current, Visited(blocks), rest, |current.successors|);
    }
  }

  /** One iteration of the traversal, added to its run. */
  method TraverseOne(entry: BasicBlock, previous: BasicBlock?, queue: seq<BasicBlock>, ghost blocks: set<BasicBlock>,
                     ghost chain: seq<BasicBlock>, ghost code: OriginalCode, ghost succ: SuccessorLists, ghost run: seq<State>)
    returns (previous': BasicBlock, queue': seq<BasicBlock>, ghost chain': seq<BasicBlock>, ghost run': seq<State>)
    requires Progress(entry, previous, queue, blocks, chain, code) && queue != []
    requires previous == null ==> !entry.visited
    requires AreSuccessors(blocks, succ)
    requires IsRun(entry, code, succ, run) && RunAt(run, queue, Visited(blocks), chain)
    modifies blocks`statements, blocks`directSuccessor, blocks`visited
    ensures Progress(entry, previous', queue', blocks, chain', code)
    ensures IsRun(entry, code, succ, run') && RunAt(run', queue', Visited(blocks), chain')
    ensures old(Visited(blocks)) <= Visited(blocks)
    ensures Visited(blocks) == old(Visited(blocks)) ==> Stale(queue', Visited(blocks)) < Stale(queue, old(Visited(blocks)))
  {
    var current, rest;
    previous', current, rest, chain' := Dequeue(entry, previous, queue, blocks, chain, code, succ);
    ghost var taken := Visited(blocks);
    ghost var jump := JumpingTo(current.statements);
    queue' := VisitSuccessors(current, rest, blocks, chain', code, entry);
    assert Visited(blocks) == old(Visited(blocks)) ==> taken == old(Visited(blocks));
    ProgressMade(entry, previous', current, taken, rest, queue', blocks, chain, chain', code);
    run' := RunOn(entry, code, succ, run, queue, current, rest, old(Visited(blocks)), taken, chain,
                  State(queue', Visited(blocks), chain', jump));
  }

  /** The run goes on with the iteration that takes current. */
  lemma RunOn(entry: BasicBlock, code: OriginalCode, succ: SuccessorLists, run: seq<State>, queue: seq<BasicBlock>,
              current: BasicBlock, rest: seq<BasicBlock>, visited: set<BasicBlock>, taken: set<BasicBlock>,
              chain: seq<BasicBlock>, state: State)
    returns (run': seq<State>)
    requires IsRun(entry, code, succ, run) && RunAt(run, queue, visited, chain)
    requires queue == [current] + rest && taken == visited + {current}
    requires JumpSeen(code, succ, current, state.jump, chain, taken) && SuccessorsSeen(succ, current, chain, rest, taken)
    requires current in succ && state.queue == rest + Unseen(Found(state.jump, succ[current], code), taken)
    requires state.visited == taken + Passed(state.jump, succ[current], code)
    requires state.chain == if current in visited then chain else chain + [current]
    ensures IsRun(entry, code, succ, run') && RunAt(run', state.queue, state.visited, state.chain)
  {
    assert queue[1..] == rest;
    LongerRun(entry, code, succ, run, state);
    run' := run + [state];
  }

  /** Every iteration visits a block for the first time, or uses up a visited entry of the queue. */
  method TraverseStep(entry: BasicBlock, previous: BasicBlock?, queue: seq<BasicBlock>, ghost blocks: set<BasicBlock>,
                      ghost chain: seq<BasicBlock>, ghost code: OriginalCode, ghost succ: SuccessorLists, ghost run: seq<State>)
    returns (previous': BasicBlock, queue': seq<BasicBlock>, ghost chain': seq<BasicBlock>, ghost run': seq<State>)
    requires Progress(entry, previous, queue, blocks, chain, code) && queue != []
    requires previous == null ==> !entry.visited
    requires AreSuccessors(blocks, succ)
    requires IsRun(entry, code, succ, run) && RunAt(run, queue, Visited(blocks), chain)
    modifies blocks`statements, blocks`directSuccessor, blocks`visited
    ensures AreSuccessors(blocks, succ)
    ensures Progress(entry, previous', queue', blocks, chain', code)
    ensures IsRun(entry, code, succ, run') && RunAt(run', queue', Visited(blocks), chain')
    ensures Unvisited(blocks) < old(Unvisited(blocks)) ||
            (Unvisited(blocks) == old(Unvisited(blocks)) && Stale(queue', Visited(blocks)) < Stale(queue, old(Visited(blocks))))
  {
    ghost var before := Visited(blocks);
    previous', queue', chain', run' := TraverseOne(entry, previous, queue, blocks, chain, code, succ, run);
    if Visited(blocks) != before {
      SmallerRemainder(blocks, before, Visited(blocks));
    }
  }

  ghost function Unvisited(blocks: set<BasicBlock>): nat
    reads blocks`visited
  {
    |blocks - Visited(blocks)|
  }

  function NextIn(layout: seq<BasicBlock>, k: nat): BasicBlock? {
    if k + 1 < |layout| then layout[k + 1] else null
  }

  /** The layout before: one chain through all the blocks of the function. */
  ghost predicate OldLayout(blocks: set<BasicBlock>, entry: BasicBlock, layout: seq<BasicBlock>)
    reads blocks`directSuccessor
  {
    && |layout| > 0 && layout[0] == entry && Distinct(layout) && blocks == (set b | b in layout)
    && forall k {:trigger layout[k]} :: 0 <= k < |layout| ==>
         layout[k] in blocks && layout[k].directSuccessor == NextIn(layout, k)
  }

  /** reset_function_visited_status, forgetting the layout as well. */
  method ResetFunctionVisitedStatus(entry: BasicBlock, ghost blocks: set<BasicBlock>, ghost layout: seq<BasicBlock>)
    requires OldLayout(blocks, entry, layout)
    modifies blocks`visited, blocks`directSuccessor
    ensures forall b {:trigger b in blocks} :: b in blocks ==> !b.visited && b.directSuccessor == null
  {
    var current: BasicBlock? := entry;
    ghost var i := 0;
    while current != null
      invariant 0 <= i <= |layout| && current == if i < |layout| then layout[i] else null
      invariant forall k {:trigger layout[k]} :: 0 <= k < i ==> !layout[k].visited && layout[k].directSuccessor == null
      invariant forall k {:trigger layout[k]} :: i <= k < |layout| ==>
                  layout[k].directSuccessor == NextIn(layout, k)
      decreases |layout| - i
    {
      current.visited := false;
      var next := current.directSuccessor;
      current.directSuccessor := null;
      current := next;
      i := i + 1;
    }
  }

  /** Every block of the chain once, linked in order, everything else as it was. What is in the
      chain leads from the entry; a successor of a block of the chain is in it too, unless it is
      empty and met as a plain successor. */
  ghost predicate LaidOut(blocks: set<BasicBlock>, entry: BasicBlock, chain: seq<BasicBlock>, code: OriginalCode)
    reads blocks`statements, blocks`directSuccessor, blocks`successors, chain`statements, chain`directSuccessor, chain`successors
  {
    && |chain| > 0 && chain[0] == entry && LinkedChain(blocks, chain, code)
    && OriginalTargets(blocks, code) && AllEnqueued(blocks, code, entry, chain)
    && forall b, s {:trigger b in chain, s in b.successors} :: b in chain && s in b.successors ==>
         s in blocks && (s in chain || (code[s] == [] && PlainSuccessor(blocks, code, s)))
  }

  /** Resetting the blocks and building the chain. */
  method BuildChain(entry: BasicBlock, ghost blocks: set<BasicBlock>, ghost layout: seq<BasicBlock>, ghost code: OriginalCode,
                    ghost succ: SuccessorLists)
    returns (ghost chain: seq<BasicBlock>, ghost taken: seq<BasicBlock>)
    requires OriginalTargets(blocks, code) && OldLayout(blocks, entry, layout) && code == CodeOf(blocks)
    requires AreSuccessors(blocks, succ)
    modifies blocks`statements, blocks`directSuccessor, blocks`visited
    ensures LaidOut(blocks, entry, chain, code)
    ensures Discovered(entry, code, succ, taken, chain)
  {
    assert layout[0] in blocks;
    ResetFunctionVisitedStatus(entry, blocks, layout);
    chain, taken := Traverse(entry, blocks, code, succ);
  }

  /** reorder_blocks, on the blocks of the old layout, whether or not they still belong to the
      function. */
  method ReorderBlocks(entry: BasicBlock, ghost blocks: set<BasicBlock>, ghost layout: seq<BasicBlock>)
    returns (ghost chain: seq<BasicBlock>, ghost taken: seq<BasicBlock>)
    requires AllLeaveWithin(blocks) && OldLayout(blocks, entry, layout)
    modifies blocks`statements, blocks`directSuccessor, blocks`visited
    ensures LaidOut(blocks, entry, chain, old(CodeOf(blocks)))
    ensures Discovered(entry, old(CodeOf(blocks)), old(SuccessorsOf(blocks)), taken, chain)
  {
    ghost var code, succ := CodeOf(blocks), SuccessorsOf(blocks);
    StartTargets(blocks);
    chain, taken := BuildChain(entry, blocks, layout, code, succ);
  }

  lemma StartProgress(entry: BasicBlock, blocks: set<BasicBlock>, code: OriginalCode)
    requires OriginalTargets(blocks, code) && entry in blocks
    requires forall b {:trigger b in blocks} :: b in blocks ==>
               !b.visited && b.directSuccessor == null && b.statements == code[b]
    ensures Progress(entry, null, [entry], blocks, [], code)
  {
    assert EnqueuedAfter(blocks, code, entry, entry, 0);
  }

  /** The breadth-first loop. */
  method TraverseAll(entry: BasicBlock, ghost blocks: set<BasicBlock>, ghost code: OriginalCode, ghost succ: SuccessorLists)
    returns (previous: BasicBlock?, ghost chain: seq<BasicBlock>, ghost run: seq<State>)
    requires Progress(entry, null, [entry], blocks, [], code) && AreSuccessors(blocks, succ)
    requires !entry.visited && Visited(blocks) == {}
    modifies blocks`statements, blocks`directSuccessor, blocks`visited
    ensures Progress(entry, previous, [], blocks, chain, code)
    ensures IsRun(entry, code, succ, run) && RunAt(run, [], Visited(blocks), chain)
  {
    previous := null;
    var queue := [entry];
    chain, run := [], [State([entry], {}, [], null)];
    while queue != []
      invariant Progress(entry, previous, queue, blocks, chain, code) && AreSuccessors(blocks, succ)
      invariant previous == null ==> !entry.visited
      invariant IsRun(entry, code, succ, run) && RunAt(run, queue, Visited(blocks), chain)
      decreases Unvisited(blocks), Stale(queue, Visited(blocks))
    {
      previous, queue, chain, run := TraverseStep(entry, previous, queue, blocks, chain, code, succ, run);
    }
  }

  /** The run has got to this queue, these visited blocks and this chain. */
  ghost predicate RunAt(run: seq<State>, queue: seq<BasicBlock>, visited: set<BasicBlock>, chain: seq<BasicBlock>) {
    |run| > 0 && var last := run[|run| - 1]; last.queue == queue && last.visited == visited && last.chain == chain
  }

  /** The traversal, from freshly reset blocks. */
  method Traverse(entry: BasicBlock, ghost blocks: set<BasicBlock>, ghost code: OriginalCode, ghost succ: SuccessorLists)
    returns (ghost chain: seq<BasicBlock>, ghost taken: seq<BasicBlock>)
    requires OriginalTargets(blocks, code) && entry in blocks && AreSuccessors(blocks, succ)
    requires forall b {:trigger b in blocks} :: b in blocks ==>
               !b.visited && b.directSuccessor == null && b.statements == code[b]
    modifies blocks`statements, blocks`directSuccessor, blocks`visited
    ensures LaidOut(blocks, entry, chain, code)
    ensures Discovered(entry, code, succ, taken, chain)
  {
    StartProgress(entry, blocks, code);
    assert Visited(blocks) == {};
    var previous;
    ghost var run;
    previous, chain, run := TraverseAll(entry, blocks, code, succ);
    LaidOutAtEnd(entry, previous, blocks, chain, code);
    taken := RunDiscovers(entry, code, succ, run, run[|run| - 1]);
  }

  lemma LaidOutAtEnd(entry: BasicBlock, previous: BasicBlock?, blocks: set<BasicBlock>, chain: seq<BasicBlock>, code: OriginalCode)
    requires Progress(entry, previous, [], blocks, chain, code)
    ensures LaidOut(blocks, entry, chain, code)
  {
    forall b, s | b in chain && s in b.successors
      ensures s in blocks && (s in chain || (code[s] == [] && PlainSuccessor(blocks, code, s)))
    {
      var k :| 0 <= k < |b.successors| && b.successors[k] == s;
      assert CoveredFrom(b, Visited(blocks), [], |b.successors|);
      assert s in Visited(blocks);
    }
  }

  ghost function SuccessorsOf(blocks: set<BasicBlock>): SuccessorLists
    reads blocks`successors
  {
    map b | b in blocks :: b.successors
  }

  ghost function CodeOf(blocks: set<BasicBlock>): OriginalCode
    reads blocks`statements
  {
    map b | b in blocks :: b.statements
  }

  lemma StartTargets(blocks: set<BasicBlock>)
    requires AllLeaveWithin(blocks)
    ensures OriginalTargets(blocks, CodeOf(blocks))
  {
  }
}
