/** A whole function through the postprocessor: branch reductions, any number of them, and then
    the final layout. A block that has been merged away stays in the old layout, which
    reorder_blocks still walks; it is not in the new one. */
module FunctionPostprocessing {
  import opened BasicBlocks
  import opened BlockExecution
  import opened Postprocessor
  import opened LayoutOrder
  import opened BlockLayout
  import opened LayoutExecution

  /** Between two reductions: live is what is left of the function, layout the old order of all its
      blocks. */
  ghost predicate Condensing(blocks: set<BasicBlock>, live: set<BasicBlock>, entry: BasicBlock, layout: seq<BasicBlock>)
    reads blocks`predecessors, blocks`statements, blocks`successors, blocks`jumpTable, blocks`directSuccessor,
          live`predecessors, live`statements, live`successors, live`jumpTable, entry`predecessors
  {
    && live <= blocks && SoundCfg(live) && entry in live && entry.predecessors == []
    && AllLeaveWithin(blocks) && OldLayout(blocks, entry, layout)
  }

  /** Two programs that do the same from the entry on, whatever the branch outcomes. */
  ghost predicate SameRuns(p: Program, q: Program, entry: BasicBlock) {
    forall outcomes, ending, operations {:trigger Ends(p, outcomes, entry, [], ending, operations)}
                                        {:trigger Ends(q, outcomes, entry, [], ending, operations)} ::
      Ends(p, outcomes, entry, [], ending, operations) <==> Ends(q, outcomes, entry, [], ending, operations)
  }

  lemma SameRunsTransitive(p: Program, q: Program, r: Program, entry: BasicBlock)
    requires SameRuns(p, q, entry) && SameRuns(q, r, entry)
    ensures SameRuns(p, r, entry)
  {
  }

  lemma LiveSameRuns(blocks: set<BasicBlock>, live: set<BasicBlock>, entry: BasicBlock)
    requires live <= blocks && SoundCfg(live) && entry in live
    ensures SameRuns(Snapshot(live), Snapshot(blocks), entry)
  {
    forall outcomes, ending, operations
      ensures Ends(Snapshot(live), outcomes, entry, [], ending, operations) <==>
                Ends(Snapshot(blocks), outcomes, entry, [], ending, operations)
    {
      DroppedKeepsRuns(blocks, live, outcomes, entry, [], ending, operations);
    }
  }

  /** The laid out code does what the original did, unless the original falls off a block. */
  ghost predicate LaidOutRuns(original: Program, after: Program, next: NextBlocks, entry: BasicBlock) {
    forall outcomes, ending, operations {:trigger Ends(original, outcomes, entry, [], ending, operations)}
                                        {:trigger EndsLaid(after, next, outcomes, entry, [], ending, operations)} ::
      !FallsOff(original, outcomes, entry, []) ==>
        (Ends(original, outcomes, entry, [], ending, operations) <==>
         EndsLaid(after, next, outcomes, entry, [], ending, operations))
  }

  lemma LaidOutAsOriginal(original: Program, before: Program, after: Program, next: NextBlocks, entry: BasicBlock)
    requires SameRuns(original, before, entry) && LaidProgram(before, after, next) && entry in after
    ensures LaidOutRuns(original, after, next, entry)
  {
    forall outcomes, ending, operations | !FallsOff(original, outcomes, entry, [])
      ensures Ends(original, outcomes, entry, [], ending, operations) <==>
                EndsLaid(after, next, outcomes, entry, [], ending, operations)
    {
      assert !FallsOff(before, outcomes, entry, []);
      LayoutKeepsRuns(before, after, next, outcomes, entry, ending, operations);
    }
  }

  /** The block ends in a jump to target, it is the entry or reached from another block, and the
      target has what the hoisting arm reads of it. */
  ghost predicate EndsInJump(current: BasicBlock, target: BasicBlock, entry: BasicBlock)
    reads current`statements, current`predecessors, target`statements, target`successors, target`predecessors
  {
    && |current.statements| > 0 && current.statements[|current.statements| - 1] == Jump(target)
    && (current == entry || exists p :: p in current.predecessors && p != current)
    && (|target.predecessors| != 1 ==> target.statements != [] && target.successors != [])
  }

  /** The last two statements are a jump or branch to target and a jump there. */
  ghost predicate LastTwoLead(statements: seq<Statement>, target: BasicBlock) {
    && |statements| >= 2 && statements[|statements| - 1] == Jump(target)
    && var first := statements[|statements| - 2];
       first == Jump(target) || (first.Branch? && first.target == target)
  }

  /** What a block ending in a jump goes through in branch_reduce_postprocess, unless the
      empty-block bypass takes it. */
  method ReduceBlock(current: BasicBlock, target: BasicBlock, ghost entry: BasicBlock, ghost blocks: set<BasicBlock>,
                     ghost live: set<BasicBlock>, ghost layout: seq<BasicBlock>, ghost original: Program)
    returns (changed: bool, ghost remaining: set<BasicBlock>)
    requires Condensing(blocks, live, entry, layout) && SameRuns(original, Snapshot(live), entry)
    requires current in live && EndsInJump(current, target, entry)
    modifies live`statements, live`successors, live`predecessors, live`jumpTable, live`blockType
    ensures Condensing(blocks, remaining, entry, layout) && SameRuns(original, Snapshot(remaining), entry) && remaining <= live
    ensures changed <==>
              (|| LastTwoLead(old(current.statements), target)
               || ArmApplies(old(current.statements), target, |old(target.predecessors)|, old(target.statements)))
    ensures !LastTwoLead(old(current.statements), target) ==>
              remaining == if changed && |old(target.predecessors)| == 1 then live - {target} else live
  {
    changed := false;
    if EndsInTwoJumps(current) {
      DeleteFirstOfTwo(current, target, entry, blocks, live, layout, original);
      changed := true;
    }
    var more;
    more, remaining := ReduceJump(current, target, entry, blocks, live, layout, original);
    changed := changed || more;
  }

  /** The arm for two jumps to one block. */
  method DeleteFirstOfTwo(current: BasicBlock, target: BasicBlock, ghost entry: BasicBlock, ghost blocks: set<BasicBlock>,
                          ghost live: set<BasicBlock>, ghost layout: seq<BasicBlock>, ghost original: Program)
    requires Condensing(blocks, live, entry, layout) && SameRuns(original, Snapshot(live), entry)
    requires current in live && EndsInJump(current, target, entry) && EndsInTwoJumps(current)
    modifies current`statements
    ensures Condensing(blocks, live, entry, layout) && SameRuns(original, Snapshot(live), entry)
    ensures EndsInJump(current, target, entry)
  {
    ghost var before := Snapshot(live);
    DeleteRedundantJump(current, live);
    assert SameRuns(before, Snapshot(live), entry);
    SameRunsTransitive(original, before, Snapshot(live), entry);
    StillWithin(blocks, live);
    assert current.predecessors == old(current.predecessors);
  }

  /** A sound function leaves within any larger set. */
  lemma StillWithin(blocks: set<BasicBlock>, live: set<BasicBlock>)
    requires SoundCfg(live) && live <= blocks
    requires forall b {:trigger b in blocks} :: b in blocks && b !in live ==> LeavesWithin(blocks, b)
    ensures AllLeaveWithin(blocks)
  {
    forall b | b in blocks
      ensures LeavesWithin(blocks, b)
    {
      assert b in live ==> SoundBlock(live, b);
    }
  }

  /** The arms for a block with one jump to its target. */
  method ReduceJump(current: BasicBlock, target: BasicBlock, ghost entry: BasicBlock, ghost blocks: set<BasicBlock>,
                    ghost live: set<BasicBlock>, ghost layout: seq<BasicBlock>, ghost original: Program)
    returns (changed: bool, ghost remaining: set<BasicBlock>)
    requires Condensing(blocks, live, entry, layout) && SameRuns(original, Snapshot(live), entry)
    requires current in live && EndsInJump(current, target, entry)
    modifies live`statements, live`successors, live`predecessors, live`jumpTable, live`blockType
    ensures Condensing(blocks, remaining, entry, layout) && SameRuns(original, Snapshot(remaining), entry) && remaining <= live
    ensures changed <==> ArmApplies(old(current.statements), target, |old(target.predecessors)|, old(target.statements))
    ensures remaining == if changed && |old(target.predecessors)| == 1 then live - {target} else live
  {
    ghost var before := Snapshot(live);
    changed, remaining := ReduceFinalJump(current, entry, live);
    SameRunsTransitive(original, before, Snapshot(remaining), entry);
    forall b | b in blocks
      ensures LeavesWithin(blocks, b)
    {
      assert b in live ==> LeavesWithin(live, b);
      assert b !in live ==> old(LeavesWithin(blocks, b));
    }
  }

  ghost predicate SuccessorsWithin(live: set<BasicBlock>)
    reads live`successors
  {
    forall a, s {:trigger s in a.successors} :: a in live && s in a.successors ==> s in live
  }

  /** What is put into the queue still belongs to the function. */
  lemma {:induction false} EnqueuedLive(blocks: set<BasicBlock>, live: set<BasicBlock>, entry: BasicBlock, code: OriginalCode,
                                        b: BasicBlock, n: nat)
    requires SuccessorsWithin(live) && entry in live && EnqueuedAfter(blocks, code, entry, b, n)
    ensures b in live
    decreases n
  {
    if b == entry {
    } else {
      var a :| a in blocks && Leads(code, a, b) && EnqueuedAfter(blocks, code, entry, a, n - 1);
      EnqueuedLive(blocks, live, entry, code, a, n - 1);
    }
  }

  lemma ChainLive(blocks: set<BasicBlock>, live: set<BasicBlock>, entry: BasicBlock, chain: seq<BasicBlock>, code: OriginalCode)
    requires LaidOut(blocks, entry, chain, code) && SuccessorsWithin(live) && entry in live
    ensures forall b {:trigger b in chain} :: b in chain ==> b in live
  {
    forall b | b in chain
      ensures b in live
    {
      var n: nat :| EnqueuedAfter(blocks, code, entry, b, n);
      EnqueuedLive(blocks, live, entry, code, b, n);
    }
  }

  lemma LiveWithin(live: set<BasicBlock>)
    requires SoundCfg(live)
    ensures SuccessorsWithin(live)
  {
    forall a, s | a in live && s in a.successors
      ensures s in live
    {
      assert SoundBlock(live, a);
    }
  }

  /** reorder_blocks after any number of reductions. */
  method LayOut(entry: BasicBlock, ghost blocks: set<BasicBlock>, ghost live: set<BasicBlock>, ghost layout: seq<BasicBlock>,
                ghost original: Program)
    returns (ghost chain: seq<BasicBlock>)
    requires Condensing(blocks, live, entry, layout) && SameRuns(original, Snapshot(live), entry)
    modifies blocks`statements, blocks`directSuccessor, blocks`visited
    ensures LaidOut(blocks, entry, chain, old(CodeOf(blocks)))
    ensures LaidOutRuns(original, Emitted(chain), NextOf(chain), entry)
    ensures forall b {:trigger b in chain} :: b in chain ==> b in live
  {
    ghost var code, before := CodeOf(blocks), Snapshot(blocks);
    LiveSameRuns(blocks, live, entry);
    SameRunsTransitive(original, Snapshot(live), before, entry);
    LiveWithin(live);
    chain := ReorderFunction(entry, blocks, layout);
    ChainLive(blocks, live, entry, chain, code);
    LaidOutAsOriginal(original, before, Emitted(chain), NextOf(chain), entry);
  }

  /** One branch reduction followed by the final layout, from a function that has not been touched:
      the chain holds no block that was merged away, and does what the function did. */
  method ReduceAndLayOut(current: BasicBlock, target: BasicBlock, entry: BasicBlock, ghost blocks: set<BasicBlock>,
                         ghost layout: seq<BasicBlock>)
    returns (changed: bool, ghost remaining: set<BasicBlock>, ghost chain: seq<BasicBlock>)
    requires SoundCfg(blocks) && OldLayout(blocks, entry, layout) && entry.predecessors == []
    requires current in blocks && EndsInJump(current, target, entry)
    modifies blocks`statements, blocks`successors, blocks`predecessors, blocks`jumpTable, blocks`blockType,
             blocks`directSuccessor, blocks`visited
    ensures LaidOutRuns(old(Snapshot(blocks)), Emitted(chain), NextOf(chain), entry)
    ensures changed <==>
              (|| LastTwoLead(old(current.statements), target)
               || ArmApplies(old(current.statements), target, |old(target.predecessors)|, old(target.statements)))
    ensures !LastTwoLead(old(current.statements), target) ==>
              remaining == if changed && |old(target.predecessors)| == 1 then blocks - {target} else blocks
    ensures |chain| > 0 && chain[0] == entry && remaining <= blocks
    ensures forall b {:trigger b in chain} :: b in chain ==> b in remaining
  {
    ghost var original := Snapshot(blocks);
    assert layout[0] in blocks;
    changed, remaining := ReduceBlock(current, target, entry, blocks, blocks, layout, original);
    chain := LayOut(entry, blocks, remaining, layout, original);
  }
}
