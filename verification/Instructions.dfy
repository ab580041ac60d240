/** The part of an instruction that the scheduler reads: which variables it defines and
    which ones it looks up. Instructions are compared by identity. */
module Instructions {

  import opened Wrappers

  /** What variables_equal compares: the number of a temporary, or the symbol and SSA
      generation of any other kind of variable. */
  datatype VariableName =
    | Temporary(number: nat)
    | Symbol(kind: nat, linkedVar: nat, generation: nat)

  /** A variable record: its address and its name. */
  datatype Variable = Variable(address: nat, name: VariableName)

  datatype InstructionKind =
    | Compare                              // cmp and test: the symbolic assignee is the definition
    | ConditionConsumer                    // setcc and conditional jumps
    | Phi
    | DirectCall
    | IndirectCall
    | Ordinary(destinationAlsoOperand: bool)

  class Instruction {
    const kind: InstructionKind
    const assignee: Option<Variable>
    const destination: Option<Variable>
    const destination2: Option<Variable>
    const source1: Option<Variable>
    const source2: Option<Variable>
    const address1: Option<Variable>
    const address2: Option<Variable>
    const reliesOn: Option<Variable>
    const parameters: seq<Variable>

    constructor (kind: InstructionKind, assignee: Option<Variable>, destination: Option<Variable>,
                 destination2: Option<Variable>, source1: Option<Variable>, source2: Option<Variable>,
                 address1: Option<Variable>, address2: Option<Variable>, reliesOn: Option<Variable>,
                 parameters: seq<Variable>)
      ensures this.kind == kind && this.assignee == assignee
      ensures this.destination == destination && this.destination2 == destination2
      ensures this.source1 == source1 && this.source2 == source2
      ensures this.address1 == address1 && this.address2 == address2
      ensures this.reliesOn == reliesOn && this.parameters == parameters
    {
      this.kind, this.assignee := kind, assignee;
      this.destination, this.destination2 := destination, destination2;
      this.source1, this.source2 := source1, source2;
      this.address1, this.address2 := address1, address2;
      this.reliesOn, this.parameters := reliesOn, parameters;
    }
  }

  /** variables_equal: a missing variable equals nothing. */
  predicate VariablesEqual(a: Option<Variable>, b: Option<Variable>) {
    a.Some? && b.Some? && a.value.name == b.value.name
  }
}
