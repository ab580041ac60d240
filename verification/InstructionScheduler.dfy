/** Building the data dependences of a block from reaching definitions. */
module InstructionScheduler {
  import opened Instructions
  import opened Wrappers
  import opened DataDependencyGraph
  import opened DependenceLinks

  /** The stack pointer and the instruction pointer, which are never looked up. */
  datatype SpecialVariables = SpecialVariables(stackPointer: Variable, instructionPointer: Variable)

  predicate IsSkipped(variable: Option<Variable>, special: SpecialVariables) {
    || variable.None?
    || variable.value.address == special.stackPointer.address
    || variable.value.address == special.instructionPointer.address
  }

  /** cmp and test define their symbolic assignee, everything else its two destinations. */
  predicate Defines(instruction: Instruction, variable: Option<Variable>) {
    if instruction.kind.Compare? then VariablesEqual(instruction.assignee, variable)
    else VariablesEqual(instruction.destination, variable) || VariablesEqual(instruction.destination2, variable)
  }

  function SomeOf(variables: seq<Variable>): (s: seq<Option<Variable>>)
    ensures |s| == |variables| && forall k :: 0 <= k < |s| ==> s[k] == Some(variables[k])
  {
    seq(|variables|, k requires 0 <= k < |variables| => Some(variables[k]))
  }

  /** is_destination_also_operand, decided by the opcode. */
  predicate IsDestinationAlsoOperand(instruction: Instruction) {
    instruction.kind.Ordinary? && instruction.kind.destinationAlsoOperand
  }

  /** The variables whose definitions an instruction looks up, in order. */
  function Lookups(instruction: Instruction): seq<Option<Variable>> {
    match instruction.kind
    case ConditionConsumer => [instruction.reliesOn]
    case Phi => []
    case IndirectCall => [instruction.source1] + SomeOf(instruction.parameters)
    case DirectCall => SomeOf(instruction.parameters)
    case _ =>
      (if IsDestinationAlsoOperand(instruction) then [instruction.destination] else [])
      + [instruction.source1, instruction.source2, instruction.address1, instruction.address2]
  }

  /** d is the last instruction before i that defines the variable. */
  ghost predicate Reaches(instructions: seq<Instruction>, d: int, i: int, variable: Option<Variable>) {
    && 0 <= d < i < |instructions|
    && Defines(instructions[d], variable)
    && forall k {:trigger instructions[k]} :: d < k < i ==> !Defines(instructions[k], variable)
  }

  /** Instruction i looks up, among variables, one whose reaching definition is d. */
  ghost predicate LooksUp(instructions: seq<Instruction>, special: SpecialVariables, d: int, i: int,
                          variables: seq<Option<Variable>>) {
    exists k :: 0 <= k < |variables| && !IsSkipped(variables[k], special) && Reaches(instructions, d, i, variables[k])
  }

  ghost predicate DependsOn(instructions: seq<Instruction>, special: SpecialVariables, d: int, i: int) {
    0 <= i < |instructions| && LooksUp(instructions, special, d, i, Lookups(instructions[i]))
  }

  // ------------------------------------------------- dependences by operand

  /** x is an operand that this kind of instruction reads. */
  ghost predicate Reads(instruction: Instruction, x: Variable) {
    || (instruction.kind == ConditionConsumer && instruction.reliesOn == Some(x))
    || (instruction.kind == IndirectCall && (instruction.source1 == Some(x) || x in instruction.parameters))
    || (instruction.kind == DirectCall && x in instruction.parameters)
    || ((instruction.kind == Compare || instruction.kind.Ordinary?)
        && (|| instruction.source1 == Some(x) || instruction.source2 == Some(x)
            || instruction.address1 == Some(x) || instruction.address2 == Some(x)))
    || (instruction.kind == Ordinary(true) && instruction.destination == Some(x))
  }

  ghost predicate Named(variable: Option<Variable>, name: VariableName) {
    variable.Some? && variable.value.name == name
  }

  /** The instruction gives the variable with this name a new value. */
  ghost predicate Writes(instruction: Instruction, name: VariableName) {
    if instruction.kind == Compare then Named(instruction.assignee, name)
    else Named(instruction.destination, name) || Named(instruction.destination2, name)
  }

  /** d is the last instruction before v to write the operand x of v, which is not one of the two
      special variables. */
  ghost predicate FeedsOperand(instructions: seq<Instruction>, special: SpecialVariables, d: int, v: int, x: Variable) {
    && 0 <= d < v < |instructions| && Reads(instructions[v], x)
    && x.address != special.stackPointer.address && x.address != special.instructionPointer.address
    && Writes(instructions[d], x.name)
    && forall k {:trigger instructions[k]} :: d < k < v ==> !Writes(instructions[k], x.name)
  }

  ghost predicate Feeds(instructions: seq<Instruction>, special: SpecialVariables, d: int, v: int) {
    exists x :: FeedsOperand(instructions, special, d, v, x)
  }

  /** What an instruction looks up is what it reads. */
  lemma LookupsAreReads(instruction: Instruction, x: Variable)
    ensures Some(x) in Lookups(instruction) <==> Reads(instruction, x)
  {
    var variables := SomeOf(instruction.parameters);
    if x in instruction.parameters {
      var k :| 0 <= k < |instruction.parameters| && instruction.parameters[k] == x;
      assert variables[k] == Some(x);
    }
    assert Some(x) in variables ==> x in instruction.parameters;
  }

  /** An instruction depends on another exactly when that one is the last to write one of the
      operands it reads. */
  lemma DependsOnOperands(instructions: seq<Instruction>, special: SpecialVariables, d: int, v: int)
    ensures DependsOn(instructions, special, d, v) <==> Feeds(instructions, special, d, v)
  {
    if DependsOn(instructions, special, d, v) {
      var lookups := Lookups(instructions[v]);
      var k :| 0 <= k < |lookups| && !IsSkipped(lookups[k], special) && Reaches(instructions, d, v, lookups[k]);
      LookupsAreReads(instructions[v], lookups[k].value);
      assert FeedsOperand(instructions, special, d, v, lookups[k].value);
    }
    if Feeds(instructions, special, d, v) {
      var x :| FeedsOperand(instructions, special, d, v, x);
      LookupsAreReads(instructions[v], x);
      var k :| 0 <= k < |Lookups(instructions[v])| && Lookups(instructions[v])[k] == Some(x);
      assert Reaches(instructions, d, v, Some(x));
    }
  }

  // --------------------------------------------------------- construction

  /** links' adds the dependences of instruction i on the reaching definitions of variables. */
  ghost predicate Adds(instructions: seq<Instruction>, special: SpecialVariables, i: int, variables: seq<Option<Variable>>,
                       links: set<(int, int)>, links': set<(int, int)>) {
    forall u, v {:trigger (u, v) in links'} ::
      (u, v) in links' <==> (u, v) in links || (v == i && LooksUp(instructions, special, u, i, variables))
  }

  lemma AddsNothing(instructions: seq<Instruction>, special: SpecialVariables, i: int, links: set<(int, int)>)
    ensures Adds(instructions, special, i, [], links, links)
  {
  }

  lemma AddsMore(instructions: seq<Instruction>, special: SpecialVariables, i: int, variables: seq<Option<Variable>>,
                 variable: Option<Variable>, links: set<(int, int)>, links1: set<(int, int)>, links2: set<(int, int)>)
    requires Adds(instructions, special, i, variables, links, links1)
    requires Adds(instructions, special, i, [variable], links1, links2)
    ensures Adds(instructions, special, i, variables + [variable], links, links2)
  {
    forall u, v
      ensures (u, v) in links2 <==>
        (u, v) in links || (v == i && LooksUp(instructions, special, u, i, variables + [variable]))
    {
      LooksUpMore(instructions, special, u, i, variables, variable);
      assert (u, v) in links2 <==> (u, v) in links1 || (v == i && LooksUp(instructions, special, u, i, [variable]));
    }
  }

  lemma LooksUpMore(instructions: seq<Instruction>, special: SpecialVariables, d: int, i: int,
                    variables: seq<Option<Variable>>, variable: Option<Variable>)
    ensures LooksUp(instructions, special, d, i, variables + [variable]) <==>
              LooksUp(instructions, special, d, i, variables) || LooksUp(instructions, special, d, i, [variable])
  {
    var more := variables + [variable];
    if LooksUp(instructions, special, d, i, variables) {
      var k :| 0 <= k < |variables| && !IsSkipped(variables[k], special) && Reaches(instructions, d, i, variables[k]);
      assert more[k] == variables[k];
    }
    if LooksUp(instructions, special, d, i, [variable]) {
      assert more[|variables|] == variable && [variable][0] == variable;
    }
    if LooksUp(instructions, special, d, i, more) {
      var k :| 0 <= k < |more| && !IsSkipped(more[k], special) && Reaches(instructions, d, i, more[k]);
      if k == |variables| {
        assert [variable][0] == more[k];
      } else {
        assert more[k] == variables[k];
      }
    }
  }

  lemma NothingReaches(instructions: seq<Instruction>, special: SpecialVariables, i: int, variable: Option<Variable>,
                       links: set<(int, int)>)
    requires 0 <= i < |instructions|
    requires IsSkipped(variable, special) || forall k {:trigger instructions[k]} :: 0 <= k < i ==> !Defines(instructions[k], variable)
    ensures Adds(instructions, special, i, [variable], links, links)
  {
  }

  lemma OneDefinitionReaches(instructions: seq<Instruction>, d: int, u: int, i: int, variable: Option<Variable>)
    requires Reaches(instructions, d, i, variable) && Reaches(instructions, u, i, variable)
    ensures d == u
  {
  }

  lemma FirstReaches(instructions: seq<Instruction>, special: SpecialVariables, i: int, variable: Option<Variable>, d: int,
                     links: set<(int, int)>)
    requires !IsSkipped(variable, special) && Reaches(instructions, d, i, variable)
    ensures Adds(instructions, special, i, [variable], links, links + {(d, i)})
  {
    assert [variable][0] == variable;
    forall u
      ensures LooksUp(instructions, special, u, i, [variable]) <==> u == d
    {
      if LooksUp(instructions, special, u, i, [variable]) {
        assert Reaches(instructions, u, i, variable);
        OneDefinitionReaches(instructions, d, u, i, variable);
      }
    }
  }

  /** update_dependence_for_variable, for the variable looked up by instruction i. */
  method UpdateDependenceForVariable(graph: DependencyGraph, given: Instruction, instructions: seq<Instruction>,
                                     variable: Option<Variable>, start: int, special: SpecialVariables,
                                     ghost i: int, ghost links: set<(int, int)>)
    returns (ghost links': set<(int, int)>)
    requires NodesFor(graph.nodes, instructions) && Linked(graph.nodes, links)
    requires 0 <= i < |instructions| && instructions[i] == given && start == i - 1
    modifies graph.nodes`reliesOnCount, graph.nodes`reliedOnByCount, graph.nodes`neighbors
    ensures Linked(graph.nodes, links') && Adds(instructions, special, i, [variable], links, links')
  {
    links' := links;
    if IsSkipped(variable, special) {
      NothingReaches(instructions, special, i, variable, links);
      return;
    }
    var j := start;
    while j >= 0
      invariant -1 <= j < i
      invariant forall k {:trigger instructions[k]} :: j < k < i ==> !Defines(instructions[k], variable)
    {
      var current := instructions[j];
      if Defines(current, variable) {
        var found;
        found, links' := AddDependence(graph, given, current, instructions, links);
        assert links' == links + {(j, i)};
        FirstReaches(instructions, special, i, variable, j, links);
        return;
      }
      j := j - 1;
    }
    NothingReaches(instructions, special, i, variable, links);
  }

  /** The parameter loop of both kinds of calls. */
  method UpdateDependencesForParameters(graph: DependencyGraph, current: Instruction, instructions: seq<Instruction>,
                                        start: int, special: SpecialVariables, ghost i: int,
                                        ghost before: seq<Option<Variable>>, ghost links: set<(int, int)>,
                                        ghost links0: set<(int, int)>)
    returns (ghost links': set<(int, int)>)
    requires NodesFor(graph.nodes, instructions) && Linked(graph.nodes, links0)
    requires 0 <= i < |instructions| && instructions[i] == current && start == i - 1
    requires Adds(instructions, special, i, before, links, links0)
    modifies graph.nodes`reliesOnCount, graph.nodes`reliedOnByCount, graph.nodes`neighbors
    ensures Linked(graph.nodes, links')
    ensures Adds(instructions, special, i, before + SomeOf(current.parameters), links, links')
  {
    links' := links0;
    ghost var variables := before;
    for j := 0 to |current.parameters|
      invariant variables == before + SomeOf(current.parameters)[..j]
      invariant Linked(graph.nodes, links') && Adds(instructions, special, i, variables, links, links')
    {
      ghost var now := links';
      links' := UpdateDependenceForVariable(graph, current, instructions, Some(current.parameters[j]), start, special, i, now);
      AddsMore(instructions, special, i, variables, Some(current.parameters[j]), links, now, links');
      variables := variables + [Some(current.parameters[j])];
    }
    assert variables == before + SomeOf(current.parameters);
  }

  /** One more variable after those already looked up. */
  method UpdateNext(graph: DependencyGraph, current: Instruction, instructions: seq<Instruction>,
                    variable: Option<Variable>, start: int, special: SpecialVariables, ghost i: int,
                    ghost before: seq<Option<Variable>>, ghost links: set<(int, int)>, ghost links0: set<(int, int)>)
    returns (ghost links': set<(int, int)>)
    requires NodesFor(graph.nodes, instructions) && Linked(graph.nodes, links0)
    requires 0 <= i < |instructions| && instructions[i] == current && start == i - 1
    requires Adds(instructions, special, i, before, links, links0)
    modifies graph.nodes`reliesOnCount, graph.nodes`reliedOnByCount, graph.nodes`neighbors
    ensures Linked(graph.nodes, links') && Adds(instructions, special, i, before + [variable], links, links')
  {
    links' := UpdateDependenceForVariable(graph, current, instructions, variable, start, special, i, links0);
    AddsMore(instructions, special, i, before, variable, links, links0, links');
  }

  lemma DefaultLookups(current: Instruction, before: seq<Option<Variable>>)
    requires current.kind.Compare? || current.kind.Ordinary?
    requires before == if IsDestinationAlsoOperand(current) then [] + [current.destination] else []
    ensures Lookups(current) ==
              before + [current.source1] + [current.source2] + [current.address1] + [current.address2]
  {
  }

  /** The default arm: the destination when it is read too, the sources and the addresses. */
  method UpdateDefault(graph: DependencyGraph, current: Instruction, instructions: seq<Instruction>, start: int,
                       special: SpecialVariables, ghost i: int, ghost links: set<(int, int)>)
    returns (ghost links': set<(int, int)>)
    requires NodesFor(graph.nodes, instructions) && Linked(graph.nodes, links)
    requires 0 <= i < |instructions| && instructions[i] == current && start == i - 1
    requires current.kind.Compare? || current.kind.Ordinary?
    modifies graph.nodes`reliesOnCount, graph.nodes`reliedOnByCount, graph.nodes`neighbors
    ensures Linked(graph.nodes, links') && Adds(instructions, special, i, Lookups(current), links, links')
  {
    AddsNothing(instructions, special, i, links);
    links' := links;
    ghost var before: seq<Option<Variable>> := [];
    if IsDestinationAlsoOperand(current) {
      links' := UpdateNext(graph, current, instructions, current.destination, start, special, i, before, links, links');
      before := before + [current.destination];
    }
    DefaultLookups(current, before);
    links' := UpdateNext(graph, current, instructions, current.source1, start, special, i, before, links, links');
    before := before + [current.source1];
    links' := UpdateNext(graph, current, instructions, current.source2, start, special, i, before, links, links');
    before := before + [current.source2];
    links' := UpdateNext(graph, current, instructions, current.address1, start, special, i, before, links, links');
    before := before + [current.address1];
    links' := UpdateNext(graph, current, instructions, current.address2, start, special, i, before, links, links');
  }

  lemma CallLookups(current: Instruction, before: seq<Option<Variable>>)
    requires current.kind.IndirectCall? || current.kind.DirectCall?
    requires before == if current.kind.IndirectCall? then [] + [current.source1] else []
    ensures Lookups(current) == before + SomeOf(current.parameters)
  {
  }

  /** The arms of the calls: an indirect one looks up its source, both their parameters. */
  method UpdateCall(graph: DependencyGraph, current: Instruction, instructions: seq<Instruction>, start: int,
                    special: SpecialVariables, ghost i: int, ghost links: set<(int, int)>)
    returns (ghost links': set<(int, int)>)
    requires NodesFor(graph.nodes, instructions) && Linked(graph.nodes, links)
    requires 0 <= i < |instructions| && instructions[i] == current && start == i - 1
    requires current.kind.IndirectCall? || current.kind.DirectCall?
    modifies graph.nodes`reliesOnCount, graph.nodes`reliedOnByCount, graph.nodes`neighbors
    ensures Linked(graph.nodes, links') && Adds(instructions, special, i, Lookups(current), links, links')
  {
    AddsNothing(instructions, special, i, links);
    links' := links;
    ghost var before: seq<Option<Variable>> := [];
    if current.kind.IndirectCall? {
      links' := UpdateNext(graph, current, instructions, current.source1, start, special, i, before, links, links');
      before := before + [current.source1];
    }
    CallLookups(current, before);
    links' := UpdateDependencesForParameters(graph, current, instructions, start, special, i, before, links, links');
  }

  /** links' adds what feeds an operand of instruction i. */
  ghost predicate AddsFeeds(instructions: seq<Instruction>, special: SpecialVariables, i: int,
                            links: set<(int, int)>, links': set<(int, int)>) {
    forall u, v {:trigger (u, v) in links'} ::
      (u, v) in links' <==> (u, v) in links || (v == i && Feeds(instructions, special, u, i))
  }

  lemma AddsWhatFeeds(instructions: seq<Instruction>, special: SpecialVariables, i: int, links: set<(int, int)>, links': set<(int, int)>)
    requires 0 <= i < |instructions| && Adds(instructions, special, i, Lookups(instructions[i]), links, links')
    ensures AddsFeeds(instructions, special, i, links, links')
  {
    forall u, v
      ensures (u, v) in links' <==> (u, v) in links || (v == i && Feeds(instructions, special, u, i))
    {
      DependsOnOperands(instructions, special, u, i);
      assert (u, v) in links' <==> (u, v) in links || (v == i && DependsOn(instructions, special, u, i));
    }
  }

  /** One instruction's dependences: on whatever feeds its operands. */
  method UpdateInstruction(graph: DependencyGraph, current: Instruction, instructions: seq<Instruction>, start: int,
                           special: SpecialVariables, ghost i: int, ghost links: set<(int, int)>)
    returns (ghost links': set<(int, int)>)
    requires NodesFor(graph.nodes, instructions) && Linked(graph.nodes, links)
    requires 0 <= i < |instructions| && instructions[i] == current && start == i - 1
    modifies graph.nodes`reliesOnCount, graph.nodes`reliedOnByCount, graph.nodes`neighbors
    ensures Linked(graph.nodes, links') && Adds(instructions, special, i, Lookups(current), links, links')
    ensures AddsFeeds(instructions, special, i, links, links')
  {
    links' := UpdateDependences(graph, current, instructions, start, special, i, links);
    AddsWhatFeeds(instructions, special, i, links, links');
  }

  /** The switch on the instruction's kind. */
  method UpdateDependences(graph: DependencyGraph, current: Instruction, instructions: seq<Instruction>, start: int,
                           special: SpecialVariables, ghost i: int, ghost links: set<(int, int)>)
    returns (ghost links': set<(int, int)>)
    requires NodesFor(graph.nodes, instructions) && Linked(graph.nodes, links)
    requires 0 <= i < |instructions| && instructions[i] == current && start == i - 1
    modifies graph.nodes`reliesOnCount, graph.nodes`reliedOnByCount, graph.nodes`neighbors
    ensures Linked(graph.nodes, links') && Adds(instructions, special, i, Lookups(current), links, links')
  {
    AddsNothing(instructions, special, i, links);
    links' := links;
    match current.kind
    case ConditionConsumer =>
      links' := UpdateNext(graph, current, instructions, current.reliesOn, start, special, i, [], links, links');
      assert [] + [current.reliesOn] == Lookups(current);
    case Phi =>
    case IndirectCall =>
      links' := UpdateCall(graph, current, instructions, start, special, i, links);
    case DirectCall =>
      links' := UpdateCall(graph, current, instructions, start, special, i, links);
    case _ =>
      links' := UpdateDefault(graph, current, instructions, start, special, i, links);
  }

  /** The dependences of the instructions above number i. */
  ghost predicate LinksAbove(instructions: seq<Instruction>, special: SpecialVariables, i: int, links: set<(int, int)>) {
    forall u, v {:trigger (u, v) in links} :: (u, v) in links <==> v > i && DependsOn(instructions, special, u, v)
  }

  /** build_dependency_graph_for_block. */
  method BuildDependencyGraphForBlock(graph: DependencyGraph, instructions: seq<Instruction>, special: SpecialVariables)
    returns (ghost links: set<(int, int)>)
    requires NodesFor(graph.nodes, instructions) && Bare(graph.nodes)
    modifies graph.nodes`reliesOnCount, graph.nodes`reliedOnByCount, graph.nodes`neighbors
    ensures Linked(graph.nodes, links)
    ensures forall u, v {:trigger (u, v) in links} :: (u, v) in links <==> DependsOn(instructions, special, u, v)
    ensures forall u, v {:trigger (u, v) in links} :: (u, v) in links <==> Feeds(instructions, special, u, v)
  {
    links := {};
    BareLinked(graph.nodes);
    var i := |instructions| - 1;
    while i >= 1
      invariant i < |instructions| && (i >= 0 || |instructions| == 0)
      invariant Linked(graph.nodes, links) && LinksAbove(instructions, special, i, links)
    {
      ghost var below := i - 1;
      links := UpdateInstruction(graph, instructions[i], instructions, i - 1, special, i, links);
      assert LinksAbove(instructions, special, below, links);
      i := i - 1;
    }
    forall u, v
      ensures DependsOn(instructions, special, u, v) <==> Feeds(instructions, special, u, v)
    {
      DependsOnOperands(instructions, special, u, v);
    }
  }
}
