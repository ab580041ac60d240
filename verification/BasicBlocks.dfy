/** The part of a basic block that the control-flow analyses and the postprocessor read and
    overwrite. */
module BasicBlocks {

  /** Dominators are computed along successor edges from the entry block,
      postdominators along predecessor edges from the exit block. */
  datatype Direction = Forward | Backward

  datatype BlockType = FunctionEntry | OtherBlock(kind: nat)

  /** How an ordinary instruction counts when a block is considered for ret hoisting. */
  datatype OperationKind = CallManagement | StackPointerAdd | InlineAssembly | PlainOperation

  /** An instruction after register allocation, as far as control flow is concerned. */
  datatype Statement =
    | PhiFunction
    | Operation(code: nat, kind: OperationKind)
    | Jump(target: BasicBlock)
    | Branch(condition: nat, target: BasicBlock)
    | IndirectJump
    | Return

  class BasicBlock {
    var statements: seq<Statement>
    var successors: seq<BasicBlock>
    var predecessors: seq<BasicBlock>
    var jumpTable: seq<BasicBlock>
    var directSuccessor: BasicBlock?
    var blockType: BlockType
    var containsMark: bool
    var visited: bool

    // dominator_info
    var immediateDominator: BasicBlock?
    var immediatePostdominator: BasicBlock?
    var dfsNumber: int
    var semidominatorNumber: int
    var parent: BasicBlock?
    var ancestor: BasicBlock?
    var optimalCandidate: BasicBlock?
    var worklist: seq<BasicBlock>

    var dominatorChildren: seq<BasicBlock>
    var dominanceFrontier: seq<BasicBlock>
    var reverseDominanceFrontier: seq<BasicBlock>

    constructor ()
      ensures statements == [] && successors == predecessors == jumpTable == []
      ensures directSuccessor == null && blockType == OtherBlock(0) && !containsMark && !visited
      ensures immediateDominator == immediatePostdominator == null
      ensures dominatorChildren == dominanceFrontier == reverseDominanceFrontier == []
    {
      statements, successors, predecessors, jumpTable := [], [], [], [];
      directSuccessor, blockType, containsMark, visited := null, OtherBlock(0), false, false;
      immediateDominator, immediatePostdominator := null, null;
      dfsNumber, semidominatorNumber := UNNUMBERED, UNNUMBERED;
      parent, ancestor, optimalCandidate := null, null, null;
      worklist := [];
      dominatorChildren, dominanceFrontier, reverseDominanceFrontier := [], [], [];
    }
  }

  const UNNUMBERED: int := -1

  function OutEdges(dir: Direction, b: BasicBlock): seq<BasicBlock>
    reads b`successors, b`predecessors
  {
    if dir.Forward? then b.successors else b.predecessors
  }

  function InEdges(dir: Direction, b: BasicBlock): seq<BasicBlock>
    reads b`successors, b`predecessors
  {
    if dir.Forward? then b.predecessors else b.successors
  }

  function Immediate(dir: Direction, b: BasicBlock): BasicBlock?
    reads b`immediateDominator, b`immediatePostdominator
  {
    if dir.Forward? then b.immediateDominator else b.immediatePostdominator
  }

  method SetImmediate(dir: Direction, b: BasicBlock, d: BasicBlock?)
    modifies b`immediateDominator, b`immediatePostdominator
    ensures Immediate(dir, b) == d
    ensures dir.Forward? ==> b.immediatePostdominator == old(b.immediatePostdominator)
    ensures dir.Backward? ==> b.immediateDominator == old(b.immediateDominator)
  {
    if dir.Forward? {
      b.immediateDominator := d;
    } else {
      b.immediatePostdominator := d;
    }
  }
}
