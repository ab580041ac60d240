/** What the laid out code does when it runs: only the blocks of the chain are there, each goes on
    to the next one when it falls off its end. */
module LayoutExecution {
  import opened DynamicArrays
  import opened BasicBlocks
  import opened BlockExecution
  import opened Postprocessor
  import opened LayoutOrder
  import opened BlockLayout

  type NextBlocks = map<BasicBlock, BasicBlock?>

  /** The code of the chain, and what follows each of its blocks. */
  ghost function Emitted(chain: seq<BasicBlock>): Program
    reads chain`statements, chain`jumpTable
  {
    map b | b in chain :: Code(b.statements, b.jumpTable)
  }

  ghost function NextOf(chain: seq<BasicBlock>): NextBlocks
    reads chain`directSuccessor
  {
    map b | b in chain :: b.directSuccessor
  }

  /** Laid out code falls through from the end of a block to the block after it. */
  function RunLaidBlock(program: Program, next: NextBlocks, outcomes: Outcomes, block: BasicBlock, trace: seq<nat>): Exit {
    var exit := RunBlock(program, outcomes, block, trace);
    if exit.Ended? && exit.ending.FellOff? && block in next && next[block] != null then Goto(next[block], exit.trace) else exit
  }

  function RunLaid(program: Program, next: NextBlocks, outcomes: Outcomes, block: BasicBlock, trace: seq<nat>, n: nat): Exit
    decreases n
  {
    if n == 0 then Goto(block, trace)
    else
      var exit := RunLaidBlock(program, next, outcomes, block, trace);
      if exit.Goto? then RunLaid(program, next, outcomes, exit.block, exit.trace, n - 1) else exit
  }

  ghost predicate EndsLaid(program: Program, next: NextBlocks, outcomes: Outcomes, block: BasicBlock, trace: seq<nat>,
                           ending: Ending, operations: seq<nat>) {
    exists n :: RunLaid(program, next, outcomes, block, trace, n) == Ended(ending, operations)
  }

  ghost function EmptyBlocks(program: Program): set<BasicBlock> {
    set b | b in program && program[b].statements == []
  }

  /** after is before laid out: some of its blocks, each without a final jump to the block after
      it, and leading only to each other and to empty blocks. */
  ghost predicate LaidProgram(before: Program, after: Program, next: NextBlocks) {
    && after.Keys == next.Keys && after.Keys <= before.Keys
    && forall b {:trigger after[b]} {:trigger b in after} :: b in after ==>
         && after[b].statements == LaidCode(before[b].statements, next[b]) && after[b].table == before[b].table
         && ClosedCode(before[b], after.Keys + EmptyBlocks(before))
  }

  /** Unless the original block falls off its end, the laid out block is left in the same way. */
  lemma LaidBlockExit(before: Program, after: Program, next: NextBlocks, outcomes: Outcomes, block: BasicBlock, trace: seq<nat>)
    requires LaidProgram(before, after, next) && block in after
    ensures var exit := RunBlock(before, outcomes, block, trace);
            exit == Ended(FellOff, exit.trace) || RunLaidBlock(after, next, outcomes, block, trace) == exit
  {
    var statements, table := before[block].statements, before[block].table;
    assert after[block].statements == LaidCode(statements, next[block]) && after[block].table == table;
    if next[block] != null && JumpingTo(statements) == next[block] {
      var init := statements[..|statements| - 1];
      assert statements == init + [Jump(next[block])];
      RunConcat(init, [Jump(next[block])], table, table, outcomes, trace);
    }
  }

  /** Where a laid out block goes is laid out too, or falls off at once. */
  lemma StaysLaidOut(before: Program, after: Program, next: NextBlocks, outcomes: Outcomes, block: BasicBlock, trace: seq<nat>)
    requires LaidProgram(before, after, next) && block in after
    ensures var exit := RunBlock(before, outcomes, block, trace);
            exit.Goto? && exit.block !in after ==> RunBlock(before, outcomes, exit.block, exit.trace) == Ended(FellOff, exit.trace)
  {
    StaysInside(before[block].statements, before[block].table, after.Keys + EmptyBlocks(before), outcomes, trace);
  }

  /** Every run of the original that ends other than by falling off a block ends the same way
      in the laid out code. */
  lemma {:induction false} LayoutForward(before: Program, after: Program, next: NextBlocks, outcomes: Outcomes,
                                         block: BasicBlock, trace: seq<nat>, n: nat, ending: Ending, operations: seq<nat>)
    requires LaidProgram(before, after, next) && block in after && !ending.FellOff?
    requires Run(before, outcomes, block, trace, n) == Ended(ending, operations)
    ensures RunLaid(after, next, outcomes, block, trace, n) == Ended(ending, operations)
    decreases n
  {
    LaidBlockExit(before, after, next, outcomes, block, trace);
    StaysLaidOut(before, after, next, outcomes, block, trace);
    var exit := RunBlock(before, outcomes, block, trace);
    if !exit.Goto? {
    } else {
      LayoutForward(before, after, next, outcomes, exit.block, exit.trace, n - 1, ending, operations);
    }
  }

  /** Every run of the laid out code that ends does so in the original, or the original falls off. */
  lemma {:induction false} LayoutBackward(before: Program, after: Program, next: NextBlocks, outcomes: Outcomes,
                                          block: BasicBlock, trace: seq<nat>, n: nat, ending: Ending, operations: seq<nat>)
    requires LaidProgram(before, after, next) && block in after
    requires RunLaid(after, next, outcomes, block, trace, n) == Ended(ending, operations)
    ensures Ends(before, outcomes, block, trace, ending, operations) || FallsOff(before, outcomes, block, trace)
    decreases n
  {
    LaidBlockExit(before, after, next, outcomes, block, trace);
    StaysLaidOut(before, after, next, outcomes, block, trace);
    var exit := RunBlock(before, outcomes, block, trace);
    if exit.Goto? && exit.block in after {
      LayoutBackward(before, after, next, outcomes, exit.block, exit.trace, n - 1, ending, operations);
      if Ends(before, outcomes, exit.block, exit.trace, ending, operations) {
        EndsOneLater(before, outcomes, block, trace, ending, operations);
      } else {
        var operations' :| Ends(before, outcomes, exit.block, exit.trace, FellOff, operations');
        EndsOneLater(before, outcomes, block, trace, FellOff, operations');
      }
    } else if exit.Goto? {
      assert Run(before, outcomes, exit.block, exit.trace, 1) == Ended(FellOff, exit.trace);
      EndsOneLater(before, outcomes, block, trace, FellOff, exit.trace);
    } else {
      assert Run(before, outcomes, block, trace, 1) == exit;
      assert Ends(before, outcomes, block, trace, exit.ending, exit.trace);
    }
  }

  lemma EndsOneLater(program: Program, outcomes: Outcomes, block: BasicBlock, trace: seq<nat>, ending: Ending, operations: seq<nat>)
    requires RunBlock(program, outcomes, block, trace).Goto?
    requires Ends(program, outcomes, RunBlock(program, outcomes, block, trace).block,
                  RunBlock(program, outcomes, block, trace).trace, ending, operations)
    ensures Ends(program, outcomes, block, trace, ending, operations)
  {
    var exit := RunBlock(program, outcomes, block, trace);
    var k: nat :| Run(program, outcomes, exit.block, exit.trace, k) == Ended(ending, operations);
    assert Run(program, outcomes, block, trace, k + 1) == Ended(ending, operations);
  }

  ghost predicate FallsOff(program: Program, outcomes: Outcomes, block: BasicBlock, trace: seq<nat>) {
    exists operations :: Ends(program, outcomes, block, trace, FellOff, operations)
  }

  /** The layout does what the function did: any run of the function from its entry that does
      not fall off the end of a block ends in the laid out code just as it did before. */
  lemma LayoutKeepsRuns(before: Program, after: Program, next: NextBlocks, outcomes: Outcomes, entry: BasicBlock,
                        ending: Ending, operations: seq<nat>)
    requires LaidProgram(before, after, next) && entry in after && !FallsOff(before, outcomes, entry, [])
    ensures Ends(before, outcomes, entry, [], ending, operations) <==>
              EndsLaid(after, next, outcomes, entry, [], ending, operations)
  {
    if Ends(before, outcomes, entry, [], ending, operations) {
      var n: nat :| Run(before, outcomes, entry, [], n) == Ended(ending, operations);
      LayoutForward(before, after, next, outcomes, entry, [], n, ending, operations);
    }
    if EndsLaid(after, next, outcomes, entry, [], ending, operations) {
      var n: nat :| RunLaid(after, next, outcomes, entry, [], n) == Ended(ending, operations);
      LayoutBackward(before, after, next, outcomes, entry, [], n, ending, operations);
    }
  }

  /** before is the program of the blocks with this code, whose jump tables they still have. */
  ghost predicate ProgramOf(before: Program, blocks: set<BasicBlock>, code: OriginalCode)
    reads blocks`jumpTable, blocks`successors
  {
    && before.Keys == code.Keys == blocks
    && forall b {:trigger before[b]} {:trigger b in before} :: b in before ==>
         before[b] == Code(code[b], b.jumpTable) && AllIn(b.jumpTable, b.successors)
  }

  /** The chain that reorder_blocks leaves is the function laid out. */
  lemma LaidOutProgram(blocks: set<BasicBlock>, entry: BasicBlock, chain: seq<BasicBlock>, code: OriginalCode, before: Program)
    requires LaidOut(blocks, entry, chain, code) && ProgramOf(before, blocks, code)
    ensures LaidProgram(before, Emitted(chain), NextOf(chain)) && entry in Emitted(chain)
  {
    var allowed := Emitted(chain).Keys + EmptyBlocks(before);
    forall b | b in chain
      ensures b.statements == LaidCode(before[b].statements, b.directSuccessor) && ClosedCode(before[b], allowed)
    {
      var k :| 0 <= k < |chain| && chain[k] == b;
      assert LinkAt(chain, code, k);
      SuccessorsAllowed(blocks, entry, chain, code, before, b);
    }
    assert chain[0] in chain;
  }

  /** reorder_blocks, and the program it leaves. */
  method ReorderFunction(entry: BasicBlock, ghost blocks: set<BasicBlock>, ghost layout: seq<BasicBlock>)
    returns (ghost chain: seq<BasicBlock>)
    requires AllLeaveWithin(blocks) && OldLayout(blocks, entry, layout)
    modifies blocks`statements, blocks`directSuccessor, blocks`visited
    ensures LaidOut(blocks, entry, chain, old(CodeOf(blocks)))
    ensures LaidProgram(old(Snapshot(blocks)), Emitted(chain), NextOf(chain)) && entry in Emitted(chain)
  {
    ghost var code, before := CodeOf(blocks), Snapshot(blocks);
    assert ProgramOf(before, blocks, code);
    ghost var taken;
    chain, taken := ReorderBlocks(entry, blocks, layout);
    LaidOutProgram(blocks, entry, chain, code, before);
  }

  lemma SuccessorsAllowed(blocks: set<BasicBlock>, entry: BasicBlock, chain: seq<BasicBlock>, code: OriginalCode,
                          before: Program, b: BasicBlock)
    requires LaidOut(blocks, entry, chain, code) && ProgramOf(before, blocks, code) && b in chain
    ensures ClosedCode(before[b], Emitted(chain).Keys + EmptyBlocks(before))
  {
    var allowed := Emitted(chain).Keys + EmptyBlocks(before);
    forall s | s in b.successors
      ensures s in allowed
    {
      assert s in chain || code[s] == [];
      assert s in before;
    }
    assert TargetsIn(code[b], b.successors);
    forall k | 0 <= k < |b.jumpTable|
      ensures b.jumpTable[k] in b.successors
    {
      assert b.jumpTable[k] in b.jumpTable;
    }
  }
}
