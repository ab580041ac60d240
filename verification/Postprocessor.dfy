/** The branch reductions of the postprocessor: deleting a redundant conditional jump,
    merging a block into its only predecessor, and hoisting a ret block. */
module Postprocessor {
  import opened BasicBlocks
  import opened BlockExecution
  import opened DynamicArrays

  // ---------------------------------------------------- control flow graphs

  ghost function Snapshot(blocks: set<BasicBlock>): Program
    reads blocks`statements, blocks`jumpTable
  {
    map b | b in blocks :: Code(b.statements, b.jumpTable)
  }

  predicate HasTarget(statement: Statement) {
    statement.Jump? || statement.Branch?
  }

  ghost predicate TargetsIn(statements: seq<Statement>, successors: seq<BasicBlock>) {
    forall k {:trigger statements[k]} :: 0 <= k < |statements| && HasTarget(statements[k]) ==> statements[k].target in successors
  }

  /** An indirect jump is only ever the last statement, and only then is there a jump table. */
  ghost predicate TableFits(statements: seq<Statement>, table: seq<BasicBlock>) {
    && (forall k {:trigger statements[k]} :: 0 <= k < |statements| - 1 ==> !statements[k].IndirectJump?)
    && (table != [] ==> |statements| > 0 && statements[|statements| - 1].IndirectJump?)
  }

  /** A block goes only to its successors, which are blocks of the function. */
  ghost predicate LeavesWithin(blocks: set<BasicBlock>, block: BasicBlock)
    reads block`statements, block`successors, block`jumpTable
  {
    && TargetsIn(block.statements, block.successors) && AllIn(block.jumpTable, block.successors)
    && forall s {:trigger s in block.successors} :: s in block.successors ==> s in blocks
  }

  /** Besides, each of those lists it as a predecessor. */
  ghost predicate SoundBlock(blocks: set<BasicBlock>, block: BasicBlock)
    reads blocks`predecessors, block`statements, block`successors, block`jumpTable
  {
    && LeavesWithin(blocks, block)
    && TableFits(block.statements, block.jumpTable)
    && Distinct(block.successors)
    && (forall s {:trigger s in block.successors} :: s in block.successors && s in blocks ==> block in s.predecessors)
  }

  ghost predicate SoundCfg(blocks: set<BasicBlock>)
    reads blocks`predecessors, blocks`statements, blocks`successors, blocks`jumpTable
  {
    forall block {:trigger SoundBlock(blocks, block)} {:trigger block in blocks} :: block in blocks ==> SoundBlock(blocks, block)
  }

  /** Every block of the function, also one that nothing leads to any more, goes only to its
      successors inside the function. */
  ghost predicate AllLeaveWithin(blocks: set<BasicBlock>)
    reads blocks`statements, blocks`successors, blocks`jumpTable
  {
    forall block {:trigger LeavesWithin(blocks, block)} {:trigger block in blocks} :: block in blocks ==> LeavesWithin(blocks, block)
  }

  /** A block without predecessors stays without. */
  twostate predicate NoFirstPredecessor(blocks: set<BasicBlock>)
    reads blocks`predecessors
  {
    forall s {:trigger s.predecessors} :: s in blocks && old(s.predecessors) == [] ==> s.predecessors == []
  }

  /** delete_successor. */
  method DeleteSuccessor(target: BasicBlock, successor: BasicBlock)
    modifies target`successors, successor`predecessors
    ensures target.successors == Without(old(target.successors), successor)
    ensures successor.predecessors == Without(old(successor.predecessors), target)
    ensures FirstRemoved(old(target.successors), successor, target.successors)
    ensures FirstRemoved(old(successor.predecessors), target, successor.predecessors)
  {
    WithoutRemovesFirst(target.successors, successor);
    WithoutRemovesFirst(successor.predecessors, target);
    successor.predecessors := Without(successor.predecessors, target);
    target.successors := Without(target.successors, successor);
  }

  /** add_successor. */
  method AddSuccessor(target: BasicBlock, successor: BasicBlock)
    modifies target`successors, successor`predecessors
    ensures target.successors == Including(old(target.successors), successor)
    ensures successor.predecessors == Including(old(successor.predecessors), target)
    ensures target.successors ==
              old(target.successors) + if successor in old(target.successors) then [] else [successor]
    ensures successor.predecessors ==
              old(successor.predecessors) + if target in old(successor.predecessors) then [] else [target]
  {
    target.successors := Including(target.successors, successor);
    successor.predecessors := Including(successor.predecessors, target);
  }

  /** does_block_contain_more_than_one_jump_to_target. */
  method ContainsMoreThanOneJump(source: BasicBlock, target: BasicBlock) returns (more: bool)
    ensures more <==> exists i, j {:trigger source.statements[i], source.statements[j]} ::
              0 <= i < j < |source.statements| && JumpsTo(source.statements[i], target) && JumpsTo(source.statements[j], target)
  {
    var numberOfJumps: nat := 0;
    var i := |source.statements|;
    ghost var found := -1;
    while i > 0
      invariant 0 <= i <= |source.statements|
      invariant numberOfJumps == 0 <==> found == -1
      invariant found == -1 ==> forall k {:trigger source.statements[k]} :: i <= k < |source.statements| ==> !JumpsTo(source.statements[k], target)
      invariant found != -1 ==> i <= found < |source.statements| && JumpsTo(source.statements[found], target)
      invariant numberOfJumps == 1 ==> forall k {:trigger source.statements[k]} ::
                  i <= k < |source.statements| && k != found ==> !JumpsTo(source.statements[k], target)
      invariant numberOfJumps > 1 ==> exists a, b {:trigger source.statements[a], source.statements[b]} ::
                  i <= a < b < |source.statements| && JumpsTo(source.statements[a], target) && JumpsTo(source.statements[b], target)
    {
      i := i - 1;
      if JumpsTo(source.statements[i], target) {
        numberOfJumps := numberOfJumps + 1;
        found := i;
      }
    }
    return numberOfJumps > 1;
  }

  predicate JumpsTo(statement: Statement, target: BasicBlock) {
    HasTarget(statement) && statement.target == target
  }

  // ------------------------------------------- a redundant conditional jump

  /** The block ends in two jumps to the same block. */
  predicate EndsInTwoJumps(block: BasicBlock)
    reads block`statements
  {
    var n := |block.statements|;
    n >= 2 && block.statements[n - 1].Jump? && HasTarget(block.statements[n - 2])
    && block.statements[n - 2].target == block.statements[n - 1].target
  }

  /** Deleting the first of two final jumps to one block changes nothing the block does. */
  lemma RedundantJump(init: seq<Statement>, first: Statement, last: Statement, table: seq<BasicBlock>,
                      outcomes: Outcomes, trace: seq<nat>)
    requires last.Jump? && HasTarget(first) && first.target == last.target
    requires forall k :: 0 <= k < |init| ==> !init[k].IndirectJump?
    ensures RunStatements(init + [last], table, outcomes, trace) == RunStatements(init + [first, last], table, outcomes, trace)
  {
    RunConcat(init, [last], table, table, outcomes, trace);
    RunConcat(init, [first, last], table, table, outcomes, trace);
    assert [first, last][1..] == [last];
  }

  /** The first arm of branch_reduce_postprocess. */
  method DeleteRedundantJump(current: BasicBlock, ghost blocks: set<BasicBlock>)
    requires SoundCfg(blocks) && current in blocks && EndsInTwoJumps(current)
    modifies current`statements
    ensures SoundCfg(blocks)
    ensures var n := |old(current.statements)|;
            current.statements == old(current.statements)[..n - 2] + [old(current.statements)[n - 1]]
    ensures forall outcomes, block, trace, ending, operations :: block in blocks ==>
              (Ends(old(Snapshot(blocks)), outcomes, block, trace, ending, operations) <==>
               Ends(Snapshot(blocks), outcomes, block, trace, ending, operations))
  {
    assert SoundBlock(blocks, current);
    ghost var statements := current.statements;
    var n := |current.statements|;
    current.statements := current.statements[..n - 2] + [current.statements[n - 1]];
    assert statements == statements[..n - 2] + [statements[n - 2], statements[n - 1]];
    forall block | block in blocks
      ensures SoundBlock(blocks, block)
    {
      assert old(SoundBlock(blocks, block));
    }
    ghost var before, after := old(Snapshot(blocks)), Snapshot(blocks);
    forall outcomes
      ensures JumpFolded(before, after, outcomes, current, current)
    {
      forall trace: seq<nat>
        ensures FoldedExit(before, outcomes, current, current, trace, RunBlock(after, outcomes, current, trace))
      {
        RedundantJump(statements[..n - 2], statements[n - 2], statements[n - 1], current.jumpTable, outcomes, trace);
      }
    }
    forall outcomes, block, trace, ending, operations | block in blocks
      ensures Ends(before, outcomes, block, trace, ending, operations) <==> Ends(after, outcomes, block, trace, ending, operations)
    {
      FoldingKeepsRuns(before, after, outcomes, current, current, block, trace, ending, operations);
    }
  }

  // ------------------------------------------------------- combining blocks

  /** The list with every b replaced by a. */
  function Replaced(s: seq<BasicBlock>, b: BasicBlock, a: BasicBlock): (r: seq<BasicBlock>)
    ensures |r| == |s| && forall i {:trigger r[i]} {:trigger s[i]} :: 0 <= i < |s| ==> r[i] == if s[i] == b then a else s[i]
  {
    seq(|s|, i requires 0 <= i < |s| => if s[i] == b then a else s[i])
  }

  method ReplacePredecessor(successor: BasicBlock, b: BasicBlock, a: BasicBlock)
    modifies successor`predecessors
    ensures successor.predecessors == Replaced(old(successor.predecessors), b, a)
  {
    var j := 0;
    while j < |successor.predecessors|
      invariant 0 <= j <= |successor.predecessors| == |old(successor.predecessors)|
      invariant successor.predecessors[..j] == Replaced(old(successor.predecessors), b, a)[..j]
      invariant successor.predecessors[j..] == old(successor.predecessors)[j..]
    {
      if successor.predecessors[j] == b {
        successor.predecessors := successor.predecessors[j := a];
      }
      j := j + 1;
    }
  }

  function AddAll(s: seq<BasicBlock>, more: seq<BasicBlock>): seq<BasicBlock> {
    if more == [] then s else Including(AddAll(s, more[..|more| - 1]), more[|more| - 1])
  }

  lemma {:induction false} AddAllContents(s: seq<BasicBlock>, more: seq<BasicBlock>)
    requires Distinct(s)
    ensures Distinct(AddAll(s, more))
    ensures forall x {:trigger x in AddAll(s, more)} {:trigger x in s} {:trigger x in more} ::
              x in s || x in more ==> x in AddAll(s, more)
    ensures forall x {:trigger x in AddAll(s, more)} {:trigger x in s} {:trigger x in more} ::
              x in AddAll(s, more) ==> x in s || x in more
  {
    if more == [] {
    } else {
      AddAllContents(s, more[..|more| - 1]);
      assert more == more[..|more| - 1] + [more[|more| - 1]];
    }
  }

  /** Those of some blocks that are not in a list, in order. */
  ghost function Missing(s: seq<BasicBlock>, more: seq<BasicBlock>): seq<BasicBlock> {
    if more == [] then []
    else
      var n := |more| - 1;
      Missing(s, more[..n]) + if more[n] in s then [] else [more[n]]
  }

  /** Adding different blocks one by one appends those that are missing. */
  lemma {:induction false} AddAllAppends(s: seq<BasicBlock>, more: seq<BasicBlock>)
    requires Distinct(s) && Distinct(more)
    ensures AddAll(s, more) == s + Missing(s, more)
    decreases |more|
  {
    if more == [] {
    } else {
      var n := |more| - 1;
      AddAllAppends(s, more[..n]);
      AddAllContents(s, more[..n]);
      assert more[n] !in more[..n];
      assert more[n] in AddAll(s, more[..n]) <==> more[n] in s;
    }
  }

  /** The successor loop of combine_blocks. */
  method MergeSuccessors(a: BasicBlock, b: BasicBlock)
    requires a != b && b !in b.successors && Distinct(b.successors)
    modifies a`successors, b.successors`predecessors
    ensures a.successors == AddAll(old(a.successors), b.successors)
    ensures forall s {:trigger s in b.successors} :: s in b.successors ==>
              s.predecessors == Replaced(old(s.predecessors), b, a)
  {
    var i := 0;
    while i < |b.successors|
      invariant 0 <= i <= |b.successors|
      invariant a.successors == AddAll(old(a.successors), b.successors[..i])
      invariant forall k {:trigger b.successors[k]} :: 0 <= k < i ==>
                  b.successors[k].predecessors == Replaced(old(b.successors[k].predecessors), b, a)
      invariant forall k {:trigger b.successors[k]} :: i <= k < |b.successors| ==>
                  b.successors[k].predecessors == old(b.successors[k].predecessors)
    {
      var successor := b.successors[i];
      a.successors := Including(a.successors, successor);
      ReplacePredecessor(successor, b, a);
      assert b.successors[..i + 1][..i] == b.successors[..i];
      i := i + 1;
    }
    assert b.successors[..i] == b.successors;
  }

  /** combine_blocks: a takes b's statements, successors, jump table and, unless it is a
      function entry, its type. */
  method CombineBlocks(a: BasicBlock, b: BasicBlock, ghost successors: set<BasicBlock>)
    requires a != b && b !in b.successors && Distinct(b.successors) && successors == set s | s in b.successors
    modifies a`statements, a`successors, a`jumpTable, a`blockType, successors`predecessors
    ensures a.statements == old(a.statements) + b.statements
    ensures a.successors == AddAll(old(a.successors), b.successors)
    ensures forall s {:trigger s in b.successors} :: s in b.successors ==>
              s.predecessors == Replaced(old(s.predecessors), b, a)
    ensures a.jumpTable == if b.jumpTable != [] then b.jumpTable else old(a.jumpTable)
    ensures a.blockType == if old(a.blockType) != FunctionEntry then b.blockType else FunctionEntry
  {
    a.statements := a.statements + b.statements;
    MergeSuccessors(a, b);
    if a.blockType != FunctionEntry {
      a.blockType := b.blockType;
    }
    if b.jumpTable != [] {
      a.jumpTable := b.jumpTable;
    }
  }

  // -------------------------------------------------- merging with the target

  /** The block ends in an unconditional jump to target, and has no other jump to it. */
  ghost predicate OneJumpTo(statements: seq<Statement>, target: BasicBlock) {
    && |statements| > 0 && statements[|statements| - 1] == Jump(target)
    && forall k {:trigger statements[k]} :: 0 <= k < |statements| - 1 ==> !JumpsTo(statements[k], target)
  }

  /** a's statements but the final jump, followed by what b does. */
  lemma FoldedStatements(a: seq<Statement>, copy: seq<Statement>, b: seq<Statement>, target: BasicBlock,
                         tableA: seq<BasicBlock>, tableB: seq<BasicBlock>, outcomes: Outcomes, trace: seq<nat>)
    requires OneJumpTo(a, target) && TableFits(a, tableA)
    requires copy == b || copy == WithoutPhis(b)
    ensures var first := RunStatements(a, tableA, outcomes, trace);
            RunStatements(a[..|a| - 1] + copy, tableB, outcomes, trace) ==
              if first == Goto(target, first.trace) then RunStatements(b, tableB, outcomes, first.trace) else first
  {
    var init := a[..|a| - 1];
    assert a == init + [Jump(target)];
    assert forall k :: 0 <= k < |init| ==> !init[k].IndirectJump?;
    RunConcat(init, [Jump(target)], tableA, tableA, outcomes, trace);
    RunConcat(init, copy, tableA, tableB, outcomes, trace);
    var exit := RunStatements(init, tableA, outcomes, trace);
    LeavesElsewhere(init, target, tableA, outcomes, trace);
    if exit == Ended(FellOff, exit.trace) {
      PhisDoNothing(b, tableB, outcomes, exit.trace);
    }
  }

  lemma {:induction false} LeavesElsewhere(statements: seq<Statement>, target: BasicBlock, table: seq<BasicBlock>,
                                           outcomes: Outcomes, trace: seq<nat>)
    requires forall k {:trigger statements[k]} :: 0 <= k < |statements| ==>
               !JumpsTo(statements[k], target) && !statements[k].IndirectJump?
    ensures var exit := RunStatements(statements, table, outcomes, trace); exit.Goto? ==> exit.block != target
  {
    if statements == [] {
    } else {
      LeavesElsewhere(statements[1..], target, table, outcomes,
                      if statements[0].Operation? then trace + [statements[0].code] else trace);
    }
  }

  /** What merging leaves: every block but a and b is as before, except for the predecessor
      lists, where a takes b's place. */
  twostate predicate MergedInto(blocks: set<BasicBlock>, a: BasicBlock, b: BasicBlock)
    reads blocks
  {
    && a in blocks && b in blocks && a != b
    && (forall p {:trigger p in blocks} :: p in blocks && p != a ==>
          && p.statements == old(p.statements) && p.successors == old(p.successors) && p.jumpTable == old(p.jumpTable))
    && |old(a.statements)| > 0 && a.statements == old(a.statements)[..|old(a.statements)| - 1] + b.statements
    && a.successors == AddAll(Without(old(a.successors), b), b.successors)
    && a.jumpTable == (if b.jumpTable != [] then b.jumpTable else old(a.jumpTable))
    && a.blockType == (if old(a.blockType) != FunctionEntry then old(b.blockType) else FunctionEntry)
    && (forall s {:trigger s in blocks} :: s in blocks && s != b ==>
          s.predecessors == if s in b.successors then Replaced(old(s.predecessors), b, a) else old(s.predecessors))
  }

  /** delete_statement, delete_successor and combine_blocks, as the merging arm calls them. */
  method DoMerge(current: BasicBlock, jumpingTo: BasicBlock, ghost blocks: set<BasicBlock>)
    requires SoundCfg(blocks) && current in blocks && jumpingTo in blocks && current != jumpingTo
    requires OneJumpTo(current.statements, jumpingTo) && jumpingTo.predecessors == [current]
    modifies blocks`statements, blocks`successors, blocks`predecessors, blocks`jumpTable, blocks`blockType
    ensures MergedInto(blocks, current, jumpingTo)
  {
    assert SoundBlock(blocks, current) && SoundBlock(blocks, jumpingTo);
    current.statements := current.statements[..|current.statements| - 1];
    DeleteSuccessor(current, jumpingTo);
    ghost var successors := set s | s in jumpingTo.successors;
    assert successors <= blocks;
    CombineBlocks(current, jumpingTo, successors);
  }

  /** One predecessor list after the merge. */
  lemma MergedPredecessors(before: seq<BasicBlock>, after: seq<BasicBlock>, successors: seq<BasicBlock>,
                           s: BasicBlock, a: BasicBlock, b: BasicBlock)
    requires after == if s in successors then Replaced(before, b, a) else before
    ensures forall x {:trigger x in after} {:trigger x in before} :: x in before && x != b ==> x in after
    ensures s in successors && b in before ==> a in after
  {
  }

  /** The statements and successors of a merged block fit together. */
  lemma MergedStatements(statements: seq<Statement>, successors: seq<BasicBlock>, table: seq<BasicBlock>,
                         statementsB: seq<Statement>, successorsB: seq<BasicBlock>, tableB: seq<BasicBlock>, b: BasicBlock)
    requires OneJumpTo(statements, b) && TargetsIn(statements, successors) && TableFits(statements, table) && Distinct(successors)
    requires TargetsIn(statementsB, successorsB) && TableFits(statementsB, tableB) && AllIn(tableB, successorsB)
    ensures var merged, all := statements[..|statements| - 1] + statementsB, AddAll(Without(successors, b), successorsB);
            TargetsIn(merged, all) && TableFits(merged, tableB) && AllIn(tableB, all) && Distinct(all) && table == []
    ensures forall s {:trigger s in AddAll(Without(successors, b), successorsB)} ::
              s in AddAll(Without(successors, b), successorsB) ==> (s in successors && s != b) || s in successorsB
  {
    var merged, all := statements[..|statements| - 1] + statementsB, AddAll(Without(successors, b), successorsB);
    WithoutKeeps(successors, b);
    WithoutDistinct(successors, b);
    AddAllContents(Without(successors, b), successorsB);
    forall k | 0 <= k < |merged| && HasTarget(merged[k])
      ensures merged[k].target in all
    {
      if k < |statements| - 1 {
        assert merged[k] == statements[k] && !JumpsTo(statements[k], b);
      } else {
        assert merged[k] == statementsB[k - (|statements| - 1)];
      }
    }
    forall k | 0 <= k < |merged| - 1
      ensures !merged[k].IndirectJump?
    {
      if k < |statements| - 1 {
        assert merged[k] == statements[k];
      } else {
        assert merged[k] == statementsB[k - (|statements| - 1)];
      }
    }
  }

  /** merged is the code of a followed, in place of its jump to b, by the code of b. */
  ghost predicate MergedCode(before: Program, after: Program, a: BasicBlock, b: BasicBlock) {
    && a in before && b in before && before.Keys == after.Keys
    && OneJumpTo(before[a].statements, b) && TableFits(before[a].statements, before[a].table)
    && (forall block {:trigger after[block]} :: block in before && block != a ==> after[block] == before[block])
    && (|| after[a].statements == before[a].statements[..|before[a].statements| - 1] + before[b].statements
        || after[a].statements == before[a].statements[..|before[a].statements| - 1] + WithoutPhis(before[b].statements))
    && after[a].table == before[b].table
  }

  lemma MergedCodeFolds(before: Program, after: Program, a: BasicBlock, b: BasicBlock, outcomes: Outcomes)
    requires MergedCode(before, after, a, b)
    ensures JumpFolded(before, after, outcomes, a, b)
  {
    forall trace: seq<nat>
      ensures FoldedExit(before, outcomes, a, b, trace, RunBlock(after, outcomes, a, trace))
    {
      var init := before[a].statements[..|before[a].statements| - 1];
      FoldedStatements(before[a].statements, before[b].statements, before[b].statements, b,
                       before[a].table, before[b].table, outcomes, trace);
      FoldedStatements(before[a].statements, WithoutPhis(before[b].statements), before[b].statements, b,
                       before[a].table, before[b].table, outcomes, trace);
    }
  }

  // ------------------------------------------------------- dropping a block

  /** Blocks outside a closed set never run once a block of the set does. */
  lemma {:induction false} ClosedRuns(program: Program, some: Program, outcomes: Outcomes, block: BasicBlock, trace: seq<nat>, n: nat)
    requires block in some && forall x {:trigger some[x]} :: x in some ==> x in program && program[x] == some[x]
    requires forall x {:trigger some[x]} :: x in some ==> ClosedCode(some[x], some.Keys)
    ensures Run(program, outcomes, block, trace, n) == Run(some, outcomes, block, trace, n)
    decreases n
  {
    if n == 0 {
    } else {
      var exit := RunBlock(some, outcomes, block, trace);
      assert exit == RunBlock(program, outcomes, block, trace);
      if exit.Goto? {
        StaysInside(some[block].statements, some[block].table, some.Keys, outcomes, trace);
        ClosedRuns(program, some, outcomes, exit.block, exit.trace, n - 1);
      }
    }
  }

  ghost predicate ClosedCode(code: Code, blocks: set<BasicBlock>) {
    && (forall k {:trigger code.statements[k]} :: 0 <= k < |code.statements| && HasTarget(code.statements[k]) ==>
          code.statements[k].target in blocks)
    && forall k {:trigger code.table[k]} :: 0 <= k < |code.table| ==> code.table[k] in blocks
  }

  lemma {:induction false} StaysInside(statements: seq<Statement>, table: seq<BasicBlock>, blocks: set<BasicBlock>,
                                       outcomes: Outcomes, trace: seq<nat>)
    requires ClosedCode(Code(statements, table), blocks)
    ensures var exit := RunStatements(statements, table, outcomes, trace); exit.Goto? ==> exit.block in blocks
  {
    if statements == [] {
    } else {
      var code, rest := Code(statements, table), Code(statements[1..], table);
      forall k | 0 <= k < |rest.statements| && HasTarget(rest.statements[k])
        ensures rest.statements[k].target in blocks
      {
        assert rest.statements[k] == code.statements[k + 1];
      }
      assert HasTarget(code.statements[0]) ==> code.statements[0].target in blocks;
      assert forall k :: 0 <= k < |table| ==> code.table[k] in blocks;
      StaysInside(statements[1..], table, blocks, outcomes,
                  if statements[0].Operation? then trace + [statements[0].code] else trace);
    }
  }

  lemma SoundClosed(blocks: set<BasicBlock>, block: BasicBlock)
    requires SoundCfg(blocks) && block in blocks
    ensures ClosedCode(Snapshot(blocks)[block], blocks)
  {
    assert SoundBlock(blocks, block);
    forall k | 0 <= k < |block.jumpTable|
      ensures block.jumpTable[k] in blocks
    {
      assert block.jumpTable[k] in block.jumpTable;
    }
  }

  /** Dropping the blocks outside a sound set changes no run that starts in it. */
  lemma DroppedKeepsRuns(blocks: set<BasicBlock>, some: set<BasicBlock>, outcomes: Outcomes, block: BasicBlock,
                         trace: seq<nat>, ending: Ending, operations: seq<nat>)
    requires some <= blocks && SoundCfg(some) && block in some
    ensures Ends(Snapshot(blocks), outcomes, block, trace, ending, operations) <==>
              Ends(Snapshot(some), outcomes, block, trace, ending, operations)
  {
    forall x | x in some
      ensures ClosedCode(Snapshot(some)[x], some)
    {
      SoundClosed(some, x);
    }
    forall n: nat
      ensures Run(Snapshot(blocks), outcomes, block, trace, n) == Run(Snapshot(some), outcomes, block, trace, n)
    {
      ClosedRuns(Snapshot(blocks), Snapshot(some), outcomes, block, trace, n);
    }
  }

  // --------------------------------------------------------- the two arms

  /** A block jumps to the target it ends in, so the target's only predecessor is that block. */
  lemma OnlyPredecessor(blocks: set<BasicBlock>, current: BasicBlock, jumpingTo: BasicBlock)
    requires SoundCfg(blocks) && current in blocks && jumpingTo in blocks && current != jumpingTo
    requires OneJumpTo(current.statements, jumpingTo) && |jumpingTo.predecessors| == 1
    ensures jumpingTo.predecessors == [current] && jumpingTo in current.successors
    ensures forall p {:trigger p in blocks} :: p in blocks && p != current ==> jumpingTo !in p.successors
    ensures jumpingTo.jumpTable == [] ==> current.jumpTable == []
  {
  }

  method MergeSoundly(current: BasicBlock, jumpingTo: BasicBlock, ghost blocks: set<BasicBlock>)
    requires SoundCfg(blocks) && current in blocks && jumpingTo in blocks && current != jumpingTo
    requires OneJumpTo(current.statements, jumpingTo) && |jumpingTo.predecessors| == 1
    modifies blocks`statements, blocks`successors, blocks`predecessors, blocks`jumpTable, blocks`blockType
    ensures MergedInto(blocks, current, jumpingTo) && SoundCfg(blocks - {jumpingTo})
    ensures AllLeaveWithin(blocks) && NoFirstPredecessor(blocks)
  {
    OnlyPredecessor(blocks, current, jumpingTo);
    assert SoundBlock(blocks, current) && SoundBlock(blocks, jumpingTo);
    MergedStatements(current.statements, current.successors, current.jumpTable,
                     jumpingTo.statements, jumpingTo.successors, jumpingTo.jumpTable, jumpingTo);
    DoMerge(current, jumpingTo, blocks);
    forall p | p in blocks - {jumpingTo}
      ensures SoundBlock(blocks - {jumpingTo}, p)
    {
      assert old(SoundBlock(blocks, p));
      forall s | s in p.successors
        ensures s in blocks - {jumpingTo} && p in s.predecessors
      {
        MergedPredecessors(old(s.predecessors), s.predecessors, jumpingTo.successors, s, current, jumpingTo);
      }
    }
    forall p | p in blocks
      ensures LeavesWithin(blocks, p)
    {
      assert p != jumpingTo ==> SoundBlock(blocks - {jumpingTo}, p);
    }
  }

  /** The merging arm: the block jumped to has one predecessor, and current jumps to it once.
      The merged block is left out of the graph, and every run stays the same. */
  method MergeWithTarget(current: BasicBlock, jumpingTo: BasicBlock, ghost blocks: set<BasicBlock>)
    requires SoundCfg(blocks) && current in blocks && jumpingTo in blocks && current != jumpingTo
    requires OneJumpTo(current.statements, jumpingTo) && |jumpingTo.predecessors| == 1
    modifies blocks`statements, blocks`successors, blocks`predecessors, blocks`jumpTable, blocks`blockType
    ensures SoundCfg(blocks - {jumpingTo}) && MergedInto(blocks, current, jumpingTo)
    ensures AllLeaveWithin(blocks) && NoFirstPredecessor(blocks)
    ensures MergedCode(old(Snapshot(blocks)), Snapshot(blocks), current, jumpingTo)
    ensures current.statements == old(current.statements)[..|old(current.statements)| - 1] + old(jumpingTo.statements)
    ensures var others := Without(old(current.successors), jumpingTo);
            current.successors == others + Missing(others, old(jumpingTo.successors))
  {
    OnlyPredecessor(blocks, current, jumpingTo);
    assert SoundBlock(blocks, current) && SoundBlock(blocks, jumpingTo);
    WithoutDistinct(current.successors, jumpingTo);
    AddAllAppends(Without(current.successors, jumpingTo), jumpingTo.successors);
    MergeSoundly(current, jumpingTo, blocks);
  }

  // ----------------------------------------------------------- ret hoisting

  const MAX_INSTRUCTIONS_FOR_HOISTING: nat := 2

  predicate Disqualifies(statement: Statement) {
    HasTarget(statement) || statement.IndirectJump? || (statement.Operation? && statement.kind.InlineAssembly?)
  }

  /** Pops, and additions to the stack pointer, are free. */
  predicate Counts(statement: Statement) {
    !(statement.Operation? && (statement.kind.CallManagement? || statement.kind.StackPointerAdd?))
  }

  function CountOf(statements: seq<Statement>): nat {
    if statements == [] then 0 else (if Counts(statements[0]) then 1 else 0) + CountOf(statements[1..])
  }

  ghost predicate Hoistable(statements: seq<Statement>) {
    && |statements| > 0 && statements[|statements| - 1].Return?
    && (forall k {:trigger statements[k]} :: 0 <= k < |statements| - 1 ==> !Disqualifies(statements[k]))
    && CountOf(statements[..|statements| - 1]) <= MAX_INSTRUCTIONS_FOR_HOISTING
  }

  // ---------------------------------------- the conditions, statement by statement

  /** A statement that rules out hoisting: a jump of any kind, or inline assembly. */
  ghost predicate RulesOut(statement: Statement) {
    || statement == IndirectJump || statement.Jump? || statement.Branch?
    || (statement.Operation? && statement.kind == InlineAssembly)
  }

  /** A statement that is neither a pop nor an addition to the stack pointer. */
  ghost predicate Costs(statement: Statement) {
    statement.Operation? ==> statement.kind != CallManagement && statement.kind != StackPointerAdd
  }

  /** Where the first n statements cost something. */
  ghost function CostsBelow(statements: seq<Statement>, n: int): set<int> {
    set k | 0 <= k < n && k < |statements| && Costs(statements[k])
  }

  /** A return, with nothing before it that rules it out and at most two statements that cost. */
  ghost predicate ShortReturn(statements: seq<Statement>) {
    && statements != []
    && var n := |statements| - 1;
       && statements[n] == Return && |CostsBelow(statements, n)| <= 2
       && forall k {:trigger statements[k]} :: 0 <= k < n ==> !RulesOut(statements[k])
  }

  lemma {:induction false} CountIsCosts(statements: seq<Statement>, n: nat)
    requires n <= |statements|
    ensures CountOf(statements[..n]) == |CostsBelow(statements, n)|
    decreases n
  {
    if n == 0 {
      assert CostsBelow(statements, n) == {};
    } else {
      CountIsCosts(statements, n - 1);
      CountAppend(statements[..n - 1], statements[n - 1]);
      assert statements[..n] == statements[..n - 1] + [statements[n - 1]];
      assert CostsBelow(statements, n) ==
             CostsBelow(statements, n - 1) + if Costs(statements[n - 1]) then {n - 1} else {};
    }
  }

  lemma {:induction false} CountAppend(statements: seq<Statement>, last: Statement)
    ensures CountOf(statements + [last]) == CountOf(statements) + if Costs(last) then 1 else 0
    decreases |statements|
  {
    if statements == [] {
      assert statements + [last] == [last];
    } else {
      assert (statements + [last])[1..] == statements[1..] + [last];
      CountAppend(statements[1..], last);
    }
  }

  lemma HoistableIsShort(statements: seq<Statement>)
    ensures Hoistable(statements) <==> ShortReturn(statements)
  {
    if statements != [] {
      CountIsCosts(statements, |statements| - 1);
    }
  }

  /** The last statement is a jump to target, and no other jump or branch goes there. */
  ghost predicate OnlyLastLeads(statements: seq<Statement>, target: BasicBlock) {
    && statements != [] && statements[|statements| - 1] == Jump(target)
    && forall k {:trigger statements[k]} :: 0 <= k < |statements| - 1 ==>
         statements[k] != Jump(target) && (statements[k].Branch? ==> statements[k].target != target)
  }

  /** An arm applies: the block is left for target by its final jump only, and target has no other
      predecessor or is a short return. */
  ghost predicate ArmApplies(statements: seq<Statement>, target: BasicBlock, predecessors: nat, code: seq<Statement>) {
    OnlyLastLeads(statements, target) && (predecessors == 1 || ShortReturn(code))
  }

  lemma ReducibleMeans(statements: seq<Statement>, target: BasicBlock, predecessors: nat, code: seq<Statement>)
    ensures Reducible(statements, target, predecessors, code) <==> ArmApplies(statements, target, predecessors, code)
  {
    HoistableIsShort(code);
  }

  /** is_block_eligible_for_ret_hoisting, for a block that is not empty. */
  method IsEligibleForRetHoisting(block: BasicBlock) returns (eligible: bool)
    requires block.statements != []
    ensures eligible <==> Hoistable(block.statements)
    ensures eligible <==> ShortReturn(block.statements)
  {
    HoistableIsShort(block.statements);
    var n := |block.statements|;
    if !block.statements[n - 1].Return? {
      return false;
    }
    var count: nat := 0;
    var i := n - 1;
    while i > 0
      invariant 0 <= i <= n - 1
      invariant forall k {:trigger block.statements[k]} :: i <= k < n - 1 ==> !Disqualifies(block.statements[k])
      invariant count == CountOf(block.statements[i..n - 1])
    {
      i := i - 1;
      if Disqualifies(block.statements[i]) {
        return false;
      }
      assert block.statements[i..n - 1] == [block.statements[i]] + block.statements[i + 1..n - 1];
      if Counts(block.statements[i]) {
        count := count + 1;
      }
    }
    assert block.statements[0..n - 1] == block.statements[..n - 1];
    return count <= MAX_INSTRUCTIONS_FOR_HOISTING;
  }

  lemma {:induction false} WithoutPhisAppend(statements: seq<Statement>, last: Statement)
    ensures WithoutPhis(statements + [last]) == WithoutPhis(statements) + if last.PhiFunction? then [] else [last]
  {
    if statements == [] {
      assert statements + [last] == [last];
      assert [last][1..] == [];
    } else {
      assert (statements + [last])[1..] == statements[1..] + [last];
      WithoutPhisAppend(statements[1..], last);
    }
  }

  /** copy_block: everything but the phi functions. A clone stands for the same operation. */
  method CopyBlock(destination: BasicBlock, source: BasicBlock)
    requires destination != source
    modifies destination`statements
    ensures destination.statements == old(destination.statements) + WithoutPhis(source.statements)
  {
    var cursor := 0;
    while cursor < |source.statements|
      invariant 0 <= cursor <= |source.statements|
      invariant destination.statements == old(destination.statements) + WithoutPhis(source.statements[..cursor])
    {
      WithoutPhisAppend(source.statements[..cursor], source.statements[cursor]);
      assert source.statements[..cursor + 1] == source.statements[..cursor] + [source.statements[cursor]];
      if !source.statements[cursor].PhiFunction? {
        destination.statements := destination.statements + [source.statements[cursor]];
      }
      cursor := cursor + 1;
    }
    assert source.statements[..cursor] == source.statements;
  }

  /** The statements and successors of a block a ret block has been hoisted into. */
  lemma HoistedStatements(statements: seq<Statement>, successors: seq<BasicBlock>, table: seq<BasicBlock>,
                          ret: seq<Statement>, b: BasicBlock, end: BasicBlock)
    requires OneJumpTo(statements, b) && TargetsIn(statements, successors) && TableFits(statements, table) && Distinct(successors)
    requires Hoistable(ret)
    ensures var hoisted, all := statements[..|statements| - 1] + WithoutPhis(ret), Including(Without(successors, b), end);
            TargetsIn(hoisted, all) && TableFits(hoisted, []) && Distinct(all) && table == []
    ensures forall s {:trigger s in Including(Without(successors, b), end)} ::
              s in Including(Without(successors, b), end) ==> (s in successors && s != b) || s == end
  {
    var hoisted, all := statements[..|statements| - 1] + WithoutPhis(ret), Including(Without(successors, b), end);
    WithoutKeeps(successors, b);
    WithoutDistinct(successors, b);
    forall k | 0 <= k < |hoisted|
      ensures (HasTarget(hoisted[k]) ==> hoisted[k].target in all) && !hoisted[k].IndirectJump?
    {
      if k < |statements| - 1 {
        assert hoisted[k] == statements[k] && !JumpsTo(statements[k], b);
      } else {
        var statement := WithoutPhis(ret)[k - (|statements| - 1)];
        assert hoisted[k] == statement && statement in ret;
        var m :| 0 <= m < |ret| && ret[m] == statement;
      }
    }
  }

  /** Every predecessor but current is still listed. */
  twostate predicate OthersListed(blocks: set<BasicBlock>, current: BasicBlock)
    reads blocks`predecessors
  {
    forall s, p {:trigger p in s.predecessors} :: s in blocks && p in blocks && p in old(s.predecessors) && p != current ==>
      p in s.predecessors
  }

  /** delete_statement, delete_successor, copy_block and add_successor, as the hoisting arm calls them. */
  method DoHoist(current: BasicBlock, jumpingTo: BasicBlock, end: BasicBlock, ghost blocks: set<BasicBlock>)
    requires current != jumpingTo && current.statements != [] && jumpingTo.successors != [] && jumpingTo.successors[0] == end
    modifies current`statements, current`successors, jumpingTo`predecessors, end`predecessors
    ensures current.statements == old(current.statements)[..|old(current.statements)| - 1] + WithoutPhis(jumpingTo.statements)
    ensures current.successors == Including(Without(old(current.successors), jumpingTo), end)
    ensures current in end.predecessors && OthersListed(blocks, current)
    ensures forall s {:trigger s.predecessors} :: s in blocks && s != jumpingTo && current in old(s.predecessors) ==> current in s.predecessors
  {
    WithoutKeeps(jumpingTo.predecessors, current);
    current.statements := current.statements[..|current.statements| - 1];
    DeleteSuccessor(current, jumpingTo);
    CopyBlock(current, jumpingTo);
    AddSuccessor(current, end);
  }

  method HoistSoundly(current: BasicBlock, jumpingTo: BasicBlock, end: BasicBlock, ghost blocks: set<BasicBlock>)
    requires SoundCfg(blocks) && current in blocks && jumpingTo in blocks && end in blocks && current != jumpingTo
    requires OneJumpTo(current.statements, jumpingTo) && Hoistable(jumpingTo.statements)
    requires jumpingTo.successors != [] && jumpingTo.successors[0] == end
    modifies current`statements, current`successors, jumpingTo`predecessors, end`predecessors
    ensures SoundCfg(blocks)
    ensures current.statements == old(current.statements)[..|old(current.statements)| - 1] + WithoutPhis(jumpingTo.statements)
  {
    assert SoundBlock(blocks, current);
    HoistedStatements(current.statements, current.successors, current.jumpTable, jumpingTo.statements, jumpingTo, end);
    DoHoist(current, jumpingTo, end, blocks);
    forall p | p in blocks
      ensures SoundBlock(blocks, p)
    {
      assert old(SoundBlock(blocks, p));
    }
  }

  /** The hoisting arm: a copy of the short ret block replaces the jump to it. */
  method HoistReturn(current: BasicBlock, jumpingTo: BasicBlock, ghost blocks: set<BasicBlock>)
    requires SoundCfg(blocks) && current in blocks && jumpingTo in blocks
    requires OneJumpTo(current.statements, jumpingTo) && Hoistable(jumpingTo.statements) && jumpingTo.successors != []
    modifies blocks`statements, blocks`successors, blocks`predecessors
    ensures SoundCfg(blocks) && NoFirstPredecessor(blocks)
    ensures MergedCode(old(Snapshot(blocks)), Snapshot(blocks), current, jumpingTo)
    ensures current.statements == old(current.statements)[..|old(current.statements)| - 1] + WithoutPhis(old(jumpingTo.statements))
  {
    assert SoundBlock(blocks, current) && SoundBlock(blocks, jumpingTo);
    var end := jumpingTo.successors[0];
    assert end in jumpingTo.successors && jumpingTo.jumpTable == current.jumpTable == [];
    assert end.predecessors != [] && jumpingTo.predecessors != [];
    HoistSoundly(current, jumpingTo, end, blocks);
  }

  // --------------------------------------------------------- the final jump

  /** A block ending in a jump jumps to that target once, unless it has two jumps to it. */
  lemma OneJumpUnlessMore(statements: seq<Statement>, target: BasicBlock)
    requires |statements| > 0 && statements[|statements| - 1] == Jump(target)
    ensures OneJumpTo(statements, target) <==>
              !exists i, j {:trigger statements[i], statements[j]} ::
                 0 <= i < j < |statements| && JumpsTo(statements[i], target) && JumpsTo(statements[j], target)
  {
  }

  /** Folding and dropping together: the runs from the entry block are kept. */
  lemma MergeKeepsRuns(before: Program, blocks: set<BasicBlock>, remaining: set<BasicBlock>, current: BasicBlock,
                       target: BasicBlock, entry: BasicBlock, outcomes: Outcomes, ending: Ending, operations: seq<nat>)
    requires MergedCode(before, Snapshot(blocks), current, target)
    requires remaining <= blocks && SoundCfg(remaining) && entry in remaining
    ensures Ends(before, outcomes, entry, [], ending, operations) <==>
              Ends(Snapshot(remaining), outcomes, entry, [], ending, operations)
  {
    MergedCodeFolds(before, Snapshot(blocks), current, target, outcomes);
    FoldingKeepsRuns(before, Snapshot(blocks), outcomes, current, target, entry, [], ending, operations);
    DroppedKeepsRuns(blocks, remaining, outcomes, entry, [], ending, operations);
  }

  /** When one of the two arms applies to a block that ends in a jump to target. */
  ghost predicate Reducible(statements: seq<Statement>, target: BasicBlock, predecessors: nat, code: seq<Statement>) {
    OneJumpTo(statements, target) && (predecessors == 1 || Hoistable(code))
  }

  /** What a block that ends in a jump knows of the block it jumps to. */
  lemma JumpedTo(current: BasicBlock, jumpingTo: BasicBlock, entry: BasicBlock, blocks: set<BasicBlock>)
    requires SoundCfg(blocks) && current in blocks && entry in blocks && entry.predecessors == []
    requires current.statements != [] && current.statements[|current.statements| - 1] == Jump(jumpingTo)
    requires current == entry || exists p :: p in current.predecessors && p != current
    ensures jumpingTo in blocks && jumpingTo != entry
    ensures |jumpingTo.predecessors| == 1 ==> current != jumpingTo
  {
    assert SoundBlock(blocks, current);
    assert HasTarget(current.statements[|current.statements| - 1]);
    assert jumpingTo in current.successors && current in jumpingTo.predecessors;
  }

  /** The arm for a target with one predecessor. */
  method TryMerge(current: BasicBlock, jumpingTo: BasicBlock, ghost blocks: set<BasicBlock>)
    returns (changed: bool, ghost remaining: set<BasicBlock>)
    requires SoundCfg(blocks) && current in blocks && jumpingTo in blocks && current != jumpingTo
    requires current.statements != [] && current.statements[|current.statements| - 1] == Jump(jumpingTo)
    requires |jumpingTo.predecessors| == 1
    modifies blocks`statements, blocks`successors, blocks`predecessors, blocks`jumpTable, blocks`blockType
    ensures changed <==> OneJumpTo(old(current.statements), jumpingTo)
    ensures if changed then MergedCode(old(Snapshot(blocks)), Snapshot(blocks), current, jumpingTo)
            else Snapshot(blocks) == old(Snapshot(blocks))
    ensures remaining == (if changed then blocks - {jumpingTo} else blocks) && SoundCfg(remaining)
    ensures AllLeaveWithin(blocks) && NoFirstPredecessor(blocks)
  {
    changed, remaining := false, blocks;
    var more := ContainsMoreThanOneJump(current, jumpingTo);
    OneJumpUnlessMore(current.statements, jumpingTo);
    if !more {
      MergeWithTarget(current, jumpingTo, blocks);
      changed, remaining := true, blocks - {jumpingTo};
    }
  }

  /** The arm for a target with several predecessors. */
  method TryHoist(current: BasicBlock, jumpingTo: BasicBlock, ghost blocks: set<BasicBlock>) returns (changed: bool)
    requires SoundCfg(blocks) && current in blocks && jumpingTo in blocks
    requires current.statements != [] && current.statements[|current.statements| - 1] == Jump(jumpingTo)
    requires jumpingTo.statements != [] && jumpingTo.successors != []
    modifies blocks`statements, blocks`successors, blocks`predecessors
    ensures changed <==> OneJumpTo(old(current.statements), jumpingTo) && Hoistable(old(jumpingTo.statements))
    ensures if changed then MergedCode(old(Snapshot(blocks)), Snapshot(blocks), current, jumpingTo)
            else Snapshot(blocks) == old(Snapshot(blocks))
    ensures SoundCfg(blocks) && NoFirstPredecessor(blocks)
  {
    changed := false;
    var eligible := IsEligibleForRetHoisting(jumpingTo);
    var more := ContainsMoreThanOneJump(current, jumpingTo);
    OneJumpUnlessMore(current.statements, jumpingTo);
    if eligible && !more {
      HoistReturn(current, jumpingTo, blocks);
      changed := true;
    }
  }

  /** The merging and hoisting arms of branch_reduce_postprocess, for a block that is reached
      from elsewhere or is the entry. */
  method ReduceFinalJump(current: BasicBlock, ghost entry: BasicBlock, ghost blocks: set<BasicBlock>)
    returns (changed: bool, ghost remaining: set<BasicBlock>)
    requires SoundCfg(blocks) && current in blocks && entry in blocks && entry.predecessors == []
    requires current.statements != [] && current.statements[|current.statements| - 1].Jump?
    requires current == entry || exists p :: p in current.predecessors && p != current
    requires var jumpingTo := current.statements[|current.statements| - 1].target;
             |jumpingTo.predecessors| != 1 ==> jumpingTo.statements != [] && jumpingTo.successors != []
    modifies blocks`statements, blocks`successors, blocks`predecessors, blocks`jumpTable, blocks`blockType
    ensures remaining <= blocks && SoundCfg(remaining) && entry in remaining && entry.predecessors == []
    ensures AllLeaveWithin(blocks)
    ensures var jumpingTo := old(current.statements[|current.statements| - 1].target);
            && (changed <==> Reducible(old(current.statements), jumpingTo, |old(jumpingTo.predecessors)|, old(jumpingTo.statements)))
            && (changed <==> ArmApplies(old(current.statements), jumpingTo, |old(jumpingTo.predecessors)|, old(jumpingTo.statements)))
            && (if changed then MergedCode(old(Snapshot(blocks)), Snapshot(blocks), current, jumpingTo)
                else Snapshot(blocks) == old(Snapshot(blocks)))
            && remaining == if changed && |old(jumpingTo.predecessors)| == 1 then blocks - {jumpingTo} else blocks
    ensures forall outcomes, ending, operations ::
              Ends(old(Snapshot(blocks)), outcomes, entry, [], ending, operations) <==>
              Ends(Snapshot(remaining), outcomes, entry, [], ending, operations)
  {
    ghost var before := Snapshot(blocks);
    var jumpingTo := current.statements[|current.statements| - 1].target;
    JumpedTo(current, jumpingTo, entry, blocks);
    ReducibleMeans(current.statements, jumpingTo, |jumpingTo.predecessors|, jumpingTo.statements);
    remaining := blocks;
    if |jumpingTo.predecessors| == 1 {
      changed, remaining := TryMerge(current, jumpingTo, blocks);
    } else {
      changed := TryHoist(current, jumpingTo, blocks);
    }
    if changed {
      forall outcomes, ending, operations
        ensures Ends(before, outcomes, entry, [], ending, operations) <==>
                  Ends(Snapshot(remaining), outcomes, entry, [], ending, operations)
      {
        MergeKeepsRuns(before, blocks, remaining, current, jumpingTo, entry, outcomes, ending, operations);
      }
    }
  }
}
