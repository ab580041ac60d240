/** What a function's blocks do when they run: the sequence of operations from the entry
    block to a return, for any interpretation of the operations and any branch outcomes. */
module BlockExecution {
  import opened BasicBlocks

  /** The code of a block: its statements, and the jump table of its indirect jump. */
  datatype Code = Code(statements: seq<Statement>, table: seq<BasicBlock>)

  type Program = map<BasicBlock, Code>

  /** How branches are decided. Whatever the operations compute, a branch outcome is a
      function of the operations executed so far. */
  datatype Outcomes = Outcomes(taken: (seq<nat>, nat) -> bool, choice: seq<nat> -> nat)

  datatype Ending = Returned | FellOff | Stuck

  /** How a block is left: to the start of another block, or for good. */
  datatype Exit =
    | Goto(block: BasicBlock, trace: seq<nat>)
    | Ended(ending: Ending, trace: seq<nat>)

  /** Running statements, after the operations in trace. */
  function RunStatements(statements: seq<Statement>, table: seq<BasicBlock>, outcomes: Outcomes, trace: seq<nat>): Exit {
    if statements == [] then Ended(FellOff, trace)
    else
      var rest := statements[1..];
      match statements[0]
      case PhiFunction => RunStatements(rest, table, outcomes, trace)
      case Operation(code, _) => RunStatements(rest, table, outcomes, trace + [code])
      case Jump(target) => Goto(target, trace)
      case Branch(condition, target) =>
        if outcomes.taken(trace, condition) then Goto(target, trace) else RunStatements(rest, table, outcomes, trace)
      case IndirectJump =>
        if outcomes.choice(trace) < |table| then Goto(table[outcomes.choice(trace)], trace) else Ended(Stuck, trace)
      case Return => Ended(Returned, trace)
  }

  function RunBlock(program: Program, outcomes: Outcomes, block: BasicBlock, trace: seq<nat>): Exit {
    if block in program then RunStatements(program[block].statements, program[block].table, outcomes, trace)
    else Ended(Stuck, trace)
  }

  /** Running up to n blocks. */
  function Run(program: Program, outcomes: Outcomes, block: BasicBlock, trace: seq<nat>, n: nat): Exit
    decreases n
  {
    if n == 0 then Goto(block, trace)
    else
      var exit := RunBlock(program, outcomes, block, trace);
      if exit.Goto? then Run(program, outcomes, exit.block, exit.trace, n - 1) else exit
  }

  /** The run from block on ends in this way, with this sequence of operations. */
  ghost predicate Ends(program: Program, outcomes: Outcomes, block: BasicBlock, trace: seq<nat>,
                       ending: Ending, operations: seq<nat>) {
    exists n :: Run(program, outcomes, block, trace, n) == Ended(ending, operations)
  }

  // ------------------------------------------------- concatenated statements

  /** Running first + second: either first is left for good, or second is run after it. */
  lemma {:induction false} RunConcat(first: seq<Statement>, second: seq<Statement>, table: seq<BasicBlock>,
                                     table': seq<BasicBlock>, outcomes: Outcomes, trace: seq<nat>)
    requires (forall k :: 0 <= k < |first| ==> !first[k].IndirectJump?) || table == table'
    ensures var exit := RunStatements(first, table, outcomes, trace);
            RunStatements(first + second, table', outcomes, trace) ==
              if exit == Ended(FellOff, exit.trace) then RunStatements(second, table', outcomes, exit.trace) else exit
    decreases |first|
  {
    if first == [] {
      assert first + second == second;
    } else {
      assert (first + second)[1..] == first[1..] + second;
      var trace' := if first[0].Operation? then trace + [first[0].code] else trace;
      RunConcat(first[1..], second, table, table', outcomes, trace');
    }
  }

  /** The statements other than phi functions. */
  function WithoutPhis(statements: seq<Statement>): (r: seq<Statement>)
    ensures forall k :: 0 <= k < |r| ==> r[k] in statements && r[k] != PhiFunction
  {
    if statements == [] then []
    else (if statements[0].PhiFunction? then [] else [statements[0]]) + WithoutPhis(statements[1..])
  }

  lemma {:induction false} PhisDoNothing(statements: seq<Statement>, table: seq<BasicBlock>, outcomes: Outcomes, trace: seq<nat>)
    ensures RunStatements(WithoutPhis(statements), table, outcomes, trace) == RunStatements(statements, table, outcomes, trace)
    decreases |statements|
  {
    if statements == [] {
    } else {
      var first, rest := statements[0], statements[1..];
      var trace' := if first.Operation? then trace + [first.code] else trace;
      PhisDoNothing(rest, table, outcomes, trace');
      if first.PhiFunction? {
        assert WithoutPhis(statements) == WithoutPhis(rest);
      } else {
        var kept := WithoutPhis(statements);
        assert kept == [first] + WithoutPhis(rest);
        assert kept != [] && kept[0] == first && kept[1..] == WithoutPhis(rest);
      }
    }
  }

  // -------------------------------------------------------- folding a jump

  /** Leaving a by its final jump to b is replaced by running b's code straight away. */
  ghost predicate JumpFolded(before: Program, after: Program, outcomes: Outcomes, a: BasicBlock, b: BasicBlock) {
    && a in before && before.Keys == after.Keys
    && (forall block {:trigger after[block]} :: block in before && block != a ==> after[block] == before[block])
    && forall trace: seq<nat> {:trigger RunBlock(after, outcomes, a, trace)} ::
         FoldedExit(before, outcomes, a, b, trace, RunBlock(after, outcomes, a, trace))
  }

  /** exit is a's exit, or that of b after a's jump to b. */
  ghost predicate FoldedExit(program: Program, outcomes: Outcomes, a: BasicBlock, b: BasicBlock, trace: seq<nat>, exit: Exit) {
    var first := RunBlock(program, outcomes, a, trace);
    exit == first || (first == Goto(b, first.trace) && exit == RunBlock(program, outcomes, b, first.trace))
  }

  lemma {:induction false} FoldedForward(before: Program, after: Program, outcomes: Outcomes, a: BasicBlock, b: BasicBlock,
                                         block: BasicBlock, trace: seq<nat>, n: nat, ending: Ending, operations: seq<nat>)
    requires JumpFolded(before, after, outcomes, a, b)
    requires Run(before, outcomes, block, trace, n) == Ended(ending, operations)
    ensures Ends(after, outcomes, block, trace, ending, operations)
    decreases n
  {
    var exit, exit' := RunBlock(before, outcomes, block, trace), RunBlock(after, outcomes, block, trace);
    assert block == a ==> FoldedExit(before, outcomes, a, b, trace, exit');
    var m := n - 1;
    if exit' != exit {
      exit, m := RunBlock(before, outcomes, b, exit.trace), n - 2;
    }
    if exit.Goto? {
      FoldedForward(before, after, outcomes, a, b, exit.block, exit.trace, m, ending, operations);
      var k: nat :| Run(after, outcomes, exit.block, exit.trace, k) == Ended(ending, operations);
      assert Run(after, outcomes, block, trace, k + 1) == Ended(ending, operations);
    } else {
      assert Run(after, outcomes, block, trace, 1) == Ended(ending, operations);
    }
  }

  lemma {:induction false} FoldedBackward(before: Program, after: Program, outcomes: Outcomes, a: BasicBlock, b: BasicBlock,
                                          block: BasicBlock, trace: seq<nat>, n: nat, ending: Ending, operations: seq<nat>)
    requires JumpFolded(before, after, outcomes, a, b)
    requires Run(after, outcomes, block, trace, n) == Ended(ending, operations)
    ensures Ends(before, outcomes, block, trace, ending, operations)
    decreases n
  {
    var exit, exit' := RunBlock(before, outcomes, block, trace), RunBlock(after, outcomes, block, trace);
    assert block == a ==> FoldedExit(before, outcomes, a, b, trace, exit');
    var k: nat := 0;
    if exit'.Goto? {
      FoldedBackward(before, after, outcomes, a, b, exit'.block, exit'.trace, n - 1, ending, operations);
      k :| Run(before, outcomes, exit'.block, exit'.trace, k) == Ended(ending, operations);
    }
    if exit' == exit {
      assert Run(before, outcomes, block, trace, k + 1) == Ended(ending, operations);
    } else {
      assert Run(before, outcomes, b, exit.trace, k + 1) == Ended(ending, operations);
      assert Run(before, outcomes, block, trace, k + 2) == Ended(ending, operations);
    }
  }

  /** Folding a jump changes no run, from any block. */
  lemma FoldingKeepsRuns(before: Program, after: Program, outcomes: Outcomes, a: BasicBlock, b: BasicBlock,
                         block: BasicBlock, trace: seq<nat>, ending: Ending, operations: seq<nat>)
    requires JumpFolded(before, after, outcomes, a, b)
    ensures Ends(before, outcomes, block, trace, ending, operations) <==> Ends(after, outcomes, block, trace, ending, operations)
  {
    if Ends(before, outcomes, block, trace, ending, operations) {
      var n :| Run(before, outcomes, block, trace, n) == Ended(ending, operations);
      FoldedForward(before, after, outcomes, a, b, block, trace, n, ending, operations);
    }
    if Ends(after, outcomes, block, trace, ending, operations) {
      var n :| Run(after, outcomes, block, trace, n) == Ended(ending, operations);
      FoldedBackward(before, after, outcomes, a, b, block, trace, n, ending, operations);
    }
  }
}
