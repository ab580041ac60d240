# Ollie compiler: graph algorithms and stream transformations

A Dafny model of the back half of the Ollie compiler (`oc/compiler`) and of its macro and module front end,
with proofs of what those parts compute. The model follows the C code branch by branch: objects whose fields
the code overwrites are classes, its loops and recursive procedures are methods with invariants, and each
method is tied to a path-based, set-based or purely functional definition that does not mention the algorithm.

| part | modules | what is established |
|---|---|---|
| dominance (`graph_analyzer.c`) | `Graphs`, `SemidominatorTheory`, `Renumbering`, `BasicBlocks`, `DepthFirstNumbering`, `UnionFindForest`, `LengauerTarjan`, `NumberedGraph`, `DominatorComputation`, `DominanceFrontiers`, `ControlFlowRelations` | the Lengauer-Tarjan computation stores every reachable block's immediate dominator in the sense of paths; trees, frontiers, reverse frontiers and the nearest marked postdominator follow |
| scheduling graph (`data_dependency_graph.c`, `instruction_scheduler.c`) | `AcyclicGraphs`, `BitMatrices`, `Instructions`, `DataDependencyGraph`, `DependenceLinks`, `InstructionScheduler`, `WeightedPaths`, `SchedulingPriorities`, `ReachingDefinitions`, `BlockScheduling` | dependences are the reaching definitions, sorting and closure are right, priorities are longest weighted paths, and exactly when reordering keeps what reaches an operand |
| module build (`build_system.c`) | `ModuleImports`, `ImportText`, `BuildSystem` | imports are read off the text of a file, the build succeeds exactly when every reachable module resolves and none imports itself, and then emits the modules once each, imports first |
| preprocessor (`preprocessor.c`) | `MacroExpansion`, `MacroMeaning`, `MacroLaws`, `TokenArrays`, `MacroReplacement`, `DirectiveGrammar`, `ConsumedStreams`, `DirectiveMeaning`, `DirectiveLaws`, `MacroConsumption`, `Preprocessor` | what directives a text holds, which macros they define, and what its calls mean are said without the functions that parse and expand; both passes succeed exactly when there is such a meaning and then leave it |
| interference graph (`interference_graph.c`) | `InterferenceGraph` | lists, degrees and matrix hold one relation, exactly when coalescing keeps them in agreement and keeps colourings, and exactly when the 16-bit offsets are safe |
| postprocessor (`postprocessor.c`) | `BlockExecution`, `Postprocessor`, `LayoutOrder`, `BlockLayout`, `LaidOutBlocks`, `LayoutExecution`, `FunctionPostprocessing` | the branch reductions, and the final layout after any number of them, change no run of the function; which blocks the layout holds, and in which order |

`Wrappers` and `DynamicArrays` are shared helpers.

## How to read the model

* `Direction`. The C code writes the dominator and the postdominator computation out twice, as it does the two
  frontier computations. The model has each once, with a direction: `Forward` runs from the entry block along
  successors, `Backward` from the exit block along predecessors. Every statement therefore covers both C routines,
  and `ControlFlowRelations.PostdominatesReversed` says what the backward one means in the original graph.
* Inline loops of long C functions are methods of their own, so that each has a contract. Where two C functions
  share a loop body (`find_or_create_module` and `handle_main_file_tokenization`; the import and the module
  directive) the model has that body once.
* Ghost parameters carry the abstract value of the mutable state: the graph `g` that the blocks form, the
  semidominators found so far, the set of pairs a matrix holds.
* Some contracts name a function that the method's body uses or mirrors: what an instruction looks up, what a file
  imports, how a directive parses, what a call expands to, which direction an edge has. Each of these is tied, by an
  if-and-only-if over all inputs, to a description in terms of fields, token text or paths that shares nothing with
  it (`InstructionScheduler.Feeds`, `ImportText`, `DirectiveMeaning`, `MacroMeaning`, `LayoutOrder.Discovered`,
  `ControlFlowRelations.DominatorFields`, `Postprocessor.ArmApplies`).
* The conditions that methods place on their callers are those the C code relies on. Predecessor and successor
  lists mirror each other (`NumberedGraph.Models`, `Postprocessor.SoundCfg`). The layout walks the old chain, in
  which blocks that were merged away remain; of those it asks only that they lead to blocks of the function. The
  frontier walks do not guard their cursor (graph_analyzer.c:968), so they need every block to be reachable, and
  they need the frontier arrays to be empty, as `cleanup_all_control_relations` leaves them. Dominator computation
  itself needs neither: unreachable blocks are covered.

## Where the code falls short of its stated intent

* The frontier loop skips blocks with fewer than two predecessors. That loses the root's own membership when the
  root has exactly one predecessor; `DominanceFrontiers.FrontiersExact` shows the stored frontiers are exact if
  and only if the root's in-degree is not one. With no predecessors of the entry, as the compiler builds it, they
  are exact.
* The reversal loop of the topological sort counts in `int16_t`. `DataDependencyGraph.InplaceTopologicalSort`
  states that freshly added nodes end up sorted and numbered if and only if there are at most 32768 of them.
* Matrix offsets of the interference graph are 16 bits wide. `InterferenceGraph.MatrixRightUpTo256` shows that a
  matrix answers right for every relation if and only if there are at most 256 live ranges; beyond that
  `InterferenceGraph.MisreadRelation` gives a single interference that is read back as another one.
* Coalescing into a range that is pinned to the stack or instruction pointer updates the matrix but not the lists.
  The guard of the callers lets such a target through (register_allocator.c:2548-2566).
  `InterferenceGraph.CoalesceLiveRanges` says that lists and matrix agree afterwards if and only if the target is
  not pinned or the coalescee has no neighbors, `InterferenceGraph.PinnedTargetDisagrees` gives the input, and
  `InterferenceGraph.ListColouringsExtend` says that colouring by the lists stays sound in exactly those cases.
* No dependence between two definitions of one variable is recorded, so reordering can change which of them
  reaches a use. `ReachingDefinitions.ReachingDefinitionKept` says exactly when every order that respects the
  dependences keeps what reaches an operand; `BlockScheduling.TwoDefinitionsReordered` gives a block of three
  instructions for which the order that the sort computes does not.
* The breadth-first layout marks an empty block met as a plain successor as visited without going on to its own
  successors (postprocessor.c:900-903): a block reached only through it is left out (`LaidOutBlocks.HiddenBehindEmpty`). It
  also takes an empty block when some block's last statement jumps straight to it (postprocessor.c:881;
  `LaidOutBlocks.EmptyBlockInChain`, `LaidOutBlocks.EmptyMember`). Where no block ends in a jump to an empty one,
  `LaidOutBlocks.ChainExact` says exactly which blocks the chain holds, and `LaidOutBlocks.ChainComplete` when those
  are all the reachable blocks that are not empty.
* Recorded import and module directives increase the count of macros (preprocessor.c:661-789), so a file with
  nothing but imports is still run through the replacement pass. `DirectiveGrammar.Consume` counts as the code does.

## Model

| member | source | states |
|---|---|---|
| `Graphs.ImmediateDominatorUnique` | oc/compiler/graph_analyzer/graph_analyzer.c:436-607 | A reachable vertex has at most one immediate dominator, so what the computation stores is determined by the graph. |
| `SemidominatorTheory.ScanComputesSemidominator` | oc/compiler/graph_analyzer/graph_analyzer.c:476-509 | A number that has a semi-path to w and is at most everything the predecessor scan sees is the semidominator of w: the least vertex with a path to w whose interior is numbered above w. |
| `SemidominatorTheory.DominatorDominatesSemidominator` | oc/compiler/graph_analyzer/graph_analyzer.c:535-549 | Every strict dominator of w dominates the semidominator of w, which is why the immediate dominator is the semidominator or above it. |
| `SemidominatorTheory.SemidominatorIsImmediate` | oc/compiler/graph_analyzer/graph_analyzer.c:564-568 | When nothing strictly between the semidominator and w has a smaller semidominator, the semidominator is the immediate dominator. |
| `SemidominatorTheory.ImmediateDominatorShared` | oc/compiler/graph_analyzer/graph_analyzer.c:575-600 | Otherwise w shares its immediate dominator with the vertex of least semidominator between them: the theorem behind the correction pass. |
| `Renumbering.DominatesNumbers` | oc/compiler/graph_analyzer/graph_analyzer.c:448-461 | Dominance among depth-first numbers is dominance among the blocks. |
| `Renumbering.ImmediateDominatorOfNumber` | oc/compiler/graph_analyzer/graph_analyzer.c:468-600 | An immediate dominator found among the numbers names the immediate dominator among the blocks. |
| `DepthFirstNumbering.DfsNumberBlock` | oc/compiler/graph_analyzer/graph_analyzer.c:115-153 | Numbers a block and everything reachable from it through unnumbered blocks in depth-first preorder: subtrees are nested intervals, every parent is the closest proper ancestor, edges to higher numbers stay inside the subtree of their source; blocks numbered before keep their number, and every numbered block heads its own forest tree. |
| `UnionFindForest.ForestMinimumIsLeast` | oc/compiler/graph_analyzer/graph_analyzer.c:329-346 | Whatever shape the forest has, climbing from a linked block to just below its root finds the least semidominator number among its linked tree ancestors. |
| `UnionFindForest.PathCompression` | oc/compiler/graph_analyzer/graph_analyzer.c:265-316 | The forest stays a forest of proper tree ancestors with best candidates, the block ends up directly below a root, nothing above it is touched, and no block's minimum changes. |
| `UnionFindForest.LeastJoins` | oc/compiler/graph_analyzer/graph_analyzer.c:302-315 | The better of the best candidates of two adjoining path pieces is the best of the whole path. |
| `UnionFindForest.Evaluate` | oc/compiler/graph_analyzer/graph_analyzer.c:329-346 | Returns the block of least semidominator number on the linked part of the tree path, root excluded; the block itself if it is a root; no block's minimum changes. |
| `UnionFindForest.LinkAncestor` | oc/compiler/graph_analyzer/graph_analyzer.c:355-357 | Linking a block below its tree parent gives the forest of the next stage. |
| `LengauerTarjan.ConsiderPredecessor` | oc/compiler/graph_analyzer/graph_analyzer.c:479-508 | Afterwards the stored number accounts for everything this predecessor can contribute, and it is still the old one or the start of a semi-path. |
| `LengauerTarjan.ScanPredecessors` | oc/compiler/graph_analyzer/graph_analyzer.c:476-509 | After the loop over the predecessors, unnumbered ones skipped, the block stores its semidominator. |
| `LengauerTarjan.AddToBucket` | oc/compiler/graph_analyzer/graph_analyzer.c:511-524 | Putting the block in the bucket of its semidominator keeps the account of who waits where. |
| `LengauerTarjan.ProcessBucket` | oc/compiler/graph_analyzer/graph_analyzer.c:534-572 | Emptying the parent's bucket gives exactly the blocks that stopped waiting their provisional dominators: the semidominator, or the block with the least semidominator below it. |
| `LengauerTarjan.ProcessBlock` | oc/compiler/graph_analyzer/graph_analyzer.c:468-573 | One iteration of the main loop moves the whole loop state one block down, leaving the relations of the other direction alone. |
| `LengauerTarjan.ComputeProvisional` | oc/compiler/graph_analyzer/graph_analyzer.c:468-573 | The main loop leaves every numbered block with its semidominator and its provisional dominator. |
| `LengauerTarjan.RepairedValue` | oc/compiler/graph_analyzer/graph_analyzer.c:597-599 | The value the correction chooses is the immediate dominator. |
| `LengauerTarjan.RepairPass` | oc/compiler/graph_analyzer/graph_analyzer.c:586-600 | The correction pass turns all provisional values into immediate dominators. |
| `NumberedGraph.ViewNumbered` | oc/compiler/graph_analyzer/graph_analyzer.c:459-461 | A finished numbering is a renumbering of the reachable part of the control-flow graph with a spanning depth-first tree, and the predecessor lists agree with it. |
| `DominatorComputation.InitializeBlock` | oc/compiler/graph_analyzer/graph_analyzer.c:38-82 | A reset block has no number, semidominator, candidate, ancestor or parent, an empty bucket and no immediate dominator in this direction; the other direction keeps its own. |
| `DominatorComputation.ComputeImmediate` | oc/compiler/graph_analyzer/graph_analyzer.c:436-607 | For every graph and root, every reachable block but the root stores its immediate dominator as defined by paths; the root and unreachable blocks store none; the other direction's results are kept. Run backward it is compute_immediate_postdominators. |
| `DominanceFrontiers.ClimbDominators` | oc/compiler/graph_analyzer/graph_analyzer.c:967-977 | Climbing to the immediate dominator leaves exactly the block climbed from behind, so the walk gets strictly closer to the root. |
| `DominanceFrontiers.AddBlockToFrontier` | oc/compiler/graph_analyzer/graph_analyzer.c:911-927 | Adds one pair to the stored frontiers, without duplicates and without touching the opposite frontiers. |
| `DominanceFrontiers.WalkToImmediate` | oc/compiler/graph_analyzer/graph_analyzer.c:967-977 | The cursor walk from a predecessor terminates and stores exactly the dominators of the predecessor that do not strictly dominate the block. |
| `DominanceFrontiers.SkippedBlocks` | oc/compiler/graph_analyzer/graph_analyzer.c:959-961 | Skipping a block with fewer than two predecessors loses nothing unless the block is the root with one predecessor. |
| `DominanceFrontiers.SkippedRoot` | oc/compiler/graph_analyzer/graph_analyzer.c:959-961 | A root with one predecessor is in its own frontier, which the skip loses. |
| `DominanceFrontiers.CalculateFrontiers` | oc/compiler/graph_analyzer/graph_analyzer.c:952-980 | Every block's stored frontier, without duplicates, is the set of blocks of which it dominates a predecessor but which it does not strictly dominate, save for the root with one predecessor. |
| `DominanceFrontiers.FrontiersExact` | oc/compiler/graph_analyzer/graph_analyzer.c:952-961 | The stored frontiers agree with the definition everywhere if and only if the root does not have exactly one predecessor. |
| `ControlFlowRelations.AddDominatorChild` | oc/compiler/graph_analyzer/graph_analyzer.c:858-868 | The child is appended unless it is there already. |
| `ControlFlowRelations.BuildDominatorTrees` | oc/compiler/graph_analyzer/graph_analyzer.c:880-905 | Every block's children are, once each, the reachable blocks whose immediate dominator it is. |
| `ControlFlowRelations.ModelsTransposed` | oc/compiler/graph_analyzer/graph_analyzer.c:688-852 | The graph along predecessors is the edge-reversed graph along successors. |
| `ControlFlowRelations.PostdominatesReversed` | oc/compiler/graph_analyzer/graph_analyzer.c:688-852 | A block lies on every path from v to the exit if and only if it dominates v in the edge-reversed graph. |
| `ControlFlowRelations.GetNearestMarkedPostdominator` | oc/compiler/graph_analyzer/graph_analyzer.c:1181-1200 | Returns no block exactly when v has no marked strict postdominator; otherwise a marked strict postdominator that every other one postdominates. |
| `ControlFlowRelations.ImmediateReversed` | oc/compiler/graph_analyzer/graph_analyzer.c:688-852 | The immediate dominator in the edge-reversed graph is the immediate postdominator, by paths to the exit. |
| `ControlFlowRelations.FrontierReversed` | oc/compiler/graph_analyzer/graph_analyzer.c:1026-1054 | The dominance frontier in the edge-reversed graph is the reverse frontier, by paths to the exit. |
| `ControlFlowRelations.CalculateAllControlFlowRelations` | oc/compiler/graph_analyzer/graph_analyzer.c:1214-1258 | All relations at once, field by field and on the graph of the blocks' successors alone: immediate dominators, dominator children, frontiers, immediate postdominators and reverse frontiers are those defined by paths from the entry and to the exit, none disturbed by computing the others. |
| `AcyclicGraphs.HasPathFirstEdge` | oc/compiler/data_dependency_graph/data_dependency_graph.c:373-423 | A non-empty path is an edge, or an edge followed by a non-empty path: the recurrence the closure loop uses. |
| `AcyclicGraphs.UpwardAcyclic` | oc/compiler/data_dependency_graph/data_dependency_graph.c:102-144 | A graph whose edges all lead to larger positions has no cycle, and its paths lead to larger positions. |
| `AcyclicGraphs.FewerDescendants` | oc/compiler/data_dependency_graph/data_dependency_graph.c:265-318 | In an acyclic graph a node has strictly more descendants than any of its descendants. |
| `BitMatrices.OffsetInjective` | oc/compiler/data_dependency_graph/data_dependency_graph.c:332-350 | Different cells of a matrix have different offsets. |
| `BitMatrices.CellWritten` | oc/compiler/data_dependency_graph/data_dependency_graph.c:332-423 | Writing one cell changes the relation a matrix holds at that pair only. |
| `DataDependencyGraph.DependencyGraph.constructor` | oc/compiler/data_dependency_graph/data_dependency_graph.c:18-39 | A new graph has no nodes and two separate matrices of zeros. |
| `DataDependencyGraph.TopologicalSortVisitNode` | oc/compiler/data_dependency_graph/data_dependency_graph.c:67-87 | Visiting a node of an acyclic graph terminates and extends the output by a post-order: every node after all its successors, visited flags and output in agreement; and everything it adds is the node itself or something it leads to. |
| `DataDependencyGraph.ReverseIntoGraph` | oc/compiler/data_dependency_graph/data_dependency_graph.c:125-140 | With up to 32768 nodes the buffer is reversed into the graph and every node is given its position; with more the 16-bit counter starts negative and nothing is moved. |
| `DataDependencyGraph.ReversedPostOrder` | oc/compiler/data_dependency_graph/data_dependency_graph.c:102-144 | Reversing a finished post-order permutes the nodes and makes every edge lead upward. |
| `DataDependencyGraph.InplaceTopologicalSort` | oc/compiler/data_dependency_graph/data_dependency_graph.c:102-144 | On every acyclic graph: a permutation of the nodes; with up to 32768 nodes every edge leads upward, every node knows its position, and nodes from which the search starts later come first; with more nothing is moved or numbered, so unnumbered nodes end up sorted and numbered if and only if there are at most 32768. |
| `DataDependencyGraph.ConstructAdjacencyMatrix` | oc/compiler/data_dependency_graph/data_dependency_graph.c:332-350 | Only cells inside the matrix are written, and once the nodes are numbered it holds exactly the edges. |
| `DataDependencyGraph.CloseRow` | oc/compiler/data_dependency_graph/data_dependency_graph.c:394-421 | Following the edges of one row of a sorted graph, the rows below being closed, gives exactly the row's non-empty paths. |
| `DataDependencyGraph.ComputeTransitiveClosure` | oc/compiler/data_dependency_graph/data_dependency_graph.c:373-423 | On sorted and numbered nodes the closure holds the pair (u, v) if and only if a non-empty path runs from u to v. |
| `DataDependencyGraph.FinalizeGraph` | oc/compiler/data_dependency_graph/data_dependency_graph.c:913-924 | Any acyclic graph of any size ends up with its nodes permuted; freshly added nodes end up sorted, numbered, with the edges in one matrix and the non-empty paths in the other, if and only if there are at most 32768 of them. |
| `DataDependencyGraph.GetNumberOfNodeDescendants` | oc/compiler/data_dependency_graph/data_dependency_graph.c:235-250 | Counts the nodes that a non-empty path leads to. |
| `DataDependencyGraph.TieBreak` | oc/compiler/data_dependency_graph/data_dependency_graph.c:265-318 | More descendants win, then more dependents, then more cycles, then the first; hence an ancestor is always preferred to its transitive dependent. |
| `DependenceLinks.AddNode` | oc/compiler/data_dependency_graph/data_dependency_graph.c:150-168 | Appends a node for the instruction without any dependence; the estimated cycle count is a parameter. |
| `DependenceLinks.GetDependencyNode` | oc/compiler/data_dependency_graph/data_dependency_graph.c:218-228 | Finds the node of an instruction, or nothing exactly when there is none. |
| `DependenceLinks.AddDependence` | oc/compiler/data_dependency_graph/data_dependency_graph.c:933-959 | Adds one dependence, unless it is known already, keeping neighbor lists without duplicates and both counters right; found is false where the code exits with an error. |
| `InstructionScheduler.UpdateDependenceForVariable` | oc/compiler/instruction_scheduler/instruction_scheduler.c:36-108 | Adds a dependence on the reaching definition of the variable, and nothing when it is missing, special or not defined above. |
| `InstructionScheduler.DependsOnOperands` | oc/compiler/instruction_scheduler/instruction_scheduler.c:126-224 | One instruction depends on another if and only if that is the last before it to write one of the operands that its kind reads: the flags of a condition consumer, the source and parameters of an indirect call, the parameters of a direct call, the sources, addresses and a destination that is read too of anything else, nothing for a phi function; the two special variables aside. |
| `InstructionScheduler.UpdateDependences` | oc/compiler/instruction_scheduler/instruction_scheduler.c:126-224 | Adds the dependences on the reaching definitions of everything this kind of instruction looks up. |
| `InstructionScheduler.UpdateInstruction` | oc/compiler/instruction_scheduler/instruction_scheduler.c:126-224 | One instruction's dependences are on exactly the instructions that feed its operands. |
| `InstructionScheduler.BuildDependencyGraphForBlock` | oc/compiler/instruction_scheduler/instruction_scheduler.c:114-226 | The dependences are exactly the pairs of an instruction and a later one of which it feeds an operand, and the nodes are linked accordingly. |
| `WeightedPaths.RelaxedAtStart` | oc/compiler/data_dependency_graph/data_dependency_graph.c:783-790 | The initial distances are right for the empty path. |
| `WeightedPaths.NoOverflow` | oc/compiler/data_dependency_graph/data_dependency_graph.c:803-817 | As long as all cycles sum up to less than 2^31, no sum overflows and no real distance is mistaken for INT_MIN. |
| `WeightedPaths.RelaxOne` | oc/compiler/data_dependency_graph/data_dependency_graph.c:803-817 | Relaxing one edge keeps every distance the weight of a path and at least that of every path considered so far. |
| `WeightedPaths.PriorityOfRoot` | oc/compiler/data_dependency_graph/data_dependency_graph.c:844-872 | The priority of a root is 0. |
| `WeightedPaths.PriorityFalls` | oc/compiler/data_dependency_graph/data_dependency_graph.c:844-872 | Over an edge the priority falls by at least the cycles of its source. |
| `WeightedPaths.PriorityAttained` | oc/compiler/data_dependency_graph/data_dependency_graph.c:844-872 | The priority of a node that is not a root is its cycles plus the largest priority of its neighbors. |
| `SchedulingPriorities.ComputeLongestPathToRootNode` | oc/compiler/data_dependency_graph/data_dependency_graph.c:775-825 | The weight of the heaviest path between two different nodes, and nothing positive if there is none. |
| `SchedulingPriorities.GetRootNodes` | oc/compiler/data_dependency_graph/data_dependency_graph.c:194-207 | Lists exactly the nodes without neighbors, once each. |
| `SchedulingPriorities.ComputeLongestWeightedPathHeuristic` | oc/compiler/data_dependency_graph/data_dependency_graph.c:844-872 | The weight of the heaviest path from the node to any root. |
| `SchedulingPriorities.ComputePrioritiesForAllNodes` | oc/compiler/data_dependency_graph/data_dependency_graph.c:882-902 | Every node stores the weight of its heaviest path to any root. |
| `SchedulingPriorities.PrioritiesFall` | oc/compiler/data_dependency_graph/data_dependency_graph.c:882-902 | The stored priorities fall along every edge by at least the cycles of its source, strictly if that is at least one. |
| `BlockScheduling.BuiltGraph` | oc/compiler/instruction_scheduler/instruction_scheduler.c:114-226 | The graph built for a block has the dependences as its edges, all leading from an earlier to a later instruction, so it is acyclic. |
| `BlockScheduling.SortedRespects` | oc/compiler/instruction_scheduler/instruction_scheduler.c:317-327 | The sorted nodes list the block's instructions, each after all those it depends on. |
| `ReachingDefinitions.LeadsOrdered` | oc/compiler/instruction_scheduler/instruction_scheduler.c:36-226 | In any order that respects the dependences, what an instruction depends on, however indirectly, comes before it. |
| `ReachingDefinitions.NotClearLost` | oc/compiler/instruction_scheduler/instruction_scheduler.c:36-226 | For a definition that is not ordered against an operand and what reaches it there is an order that respects all dependences and changes what the operand gets. |
| `ReachingDefinitions.ReachingDefinitionKept` | oc/compiler/instruction_scheduler/instruction_scheduler.c:36-226 | Every order that respects the dependences keeps what an operand of instruction v gets, a definition in the block or none, if and only if each definition e of its variable is the one that reaches it, or is v itself, or v leads to e, or e leads to the one that reaches it. |
| `ReachingDefinitions.OneDefinitionKept` | oc/compiler/instruction_scheduler/instruction_scheduler.c:36-226 | In particular for an operand whose variable is defined once, and not after its use. |
| `BlockScheduling.TwoDefinitionsReordered` | oc/compiler/instruction_scheduler/instruction_scheduler.c:36-226 | A concrete block of two definitions of a variable and its use, which is sorted so that the wrong definition reaches the use. |
| `BlockScheduling.SumPermuted` | oc/compiler/data_dependency_graph/data_dependency_graph.c:882-902 | Sorting does not change the sum of the cycles. |
| `BlockScheduling.ScheduleInstructionsInBlock` | oc/compiler/instruction_scheduler/instruction_scheduler.c:265-369 | Steps 1 to 5 for a whole block: sorted nodes that respect the dependences, in the order that the depth-first search gives them, and carry their own cycle counts, both matrices right, and every priority the heaviest path to a root. |
| `ImportText.ImportsOfText` | oc/compiler/build_system/build_system.c:580-611 | A module file that is three tokens, some import statements and then something else imports exactly the names in the statements, in order; so does the main file from its first token. It resolves, unless it is a main file that starts with a module directive. |
| `ImportText.MalformedImport` | oc/compiler/build_system/build_system.c:320-436 | With a malformed statement the file does not resolve, and no import behind that statement counts. |
| `ImportText.ResolvesText` | oc/compiler/build_system/build_system.c:487-680 | A module resolves if and only if it has a file that tokenizes and whose text has this form. |
| `ModuleImports.CycleOnStack` | oc/compiler/build_system/build_system.c:501-516 | Importing a module that is still in progress means that a reachable module imports itself. |
| `ModuleImports.ChainInOrder` | oc/compiler/build_system/build_system.c:487-621 | In a build order every chain of imports runs backwards. |
| `ModuleImports.BuildOrderSuffices` | oc/compiler/build_system/build_system.c:487-721 | A build order that holds the main file shows that the program can be built, and covers every reachable module. |
| `BuildSystem.NextImport` | oc/compiler/build_system/build_system.c:320-436 | One import statement: malformed ones make the module unresolvable, well formed ones add one name to the import list. |
| `BuildSystem.AddDependency` | oc/compiler/dependency_graph/dependency_graph.c:56-67 | Records the dependence, leaving the traversal as it is. |
| `BuildSystem.GetDependencySubtree` | oc/compiler/build_system/build_system.c:320-436 | Fails only if the program cannot be built; otherwise the imported module and everything below it has been emitted and the cursor is behind the semicolon. |
| `BuildSystem.FindOrCreateModule` | oc/compiler/build_system/build_system.c:487-621 | Success, found or created, means the module has been emitted and the traversal is otherwise as before; any other status means the program cannot be built: circular exactly if the module is in progress, not found exactly if it is new and has no file, failed tokenization exactly if it is new and its file does not tokenize. |
| `BuildSystem.ProcessImports` | oc/compiler/build_system/build_system.c:582-611 | The import loop ends with all imports emitted and recorded, or shows that the program cannot be built. |
| `BuildSystem.HandleMainFile` | oc/compiler/build_system/build_system.c:636-721 | On success the main module is emitted last; on failure the program cannot be built. |
| `BuildSystem.ConstructBuildOrder` | oc/compiler/build_system/build_system.c:733-785 | Succeeds if and only if every module reachable from main resolves and none imports itself; then the order holds exactly those modules, once each, every import before its importer, main last, each node with the nodes of its imports. |
| `MacroExpansion.SlicesAdjacent` | oc/compiler/preprocessor/preprocessor.c:805-918 | The slices of an argument list follow each other, none empty, with a comma between two of them and the closing parenthesis after the last. |
| `MacroExpansion.ArgumentsAreSlices` | oc/compiler/preprocessor/preprocessor.c:953-1076 | The arguments taken are exactly the slices of a plain parenthesis-depth scan, split at depth-one commas, each expanded on its own. |
| `MacroExpansion.ScanPastCall` | oc/compiler/preprocessor/preprocessor.c:879-903 | The plain scan passes over a nested macro call just as its expansion does. |
| `MacroExpansion.RangeNonEmpty` | oc/compiler/preprocessor/preprocessor.c:820-846 | The expansion of a non-empty argument is not empty. |
| `MacroExpansion.CallNonEmpty` | oc/compiler/preprocessor/preprocessor.c:1145-1152 | The expansion of a macro call is not empty. |
| `MacroExpansion.CallEndsInside` | oc/compiler/preprocessor/preprocessor.c:131-143 | A call never reads past the last token of a stream. |
| `MacroExpansion.NothingToExpand` | oc/compiler/preprocessor/preprocessor.c:1163-1232 | Without macros and flagged tokens a stream is its own expansion. |
| `MacroLaws.ArgumentEndIsFirst` | oc/compiler/preprocessor/preprocessor.c:805-918 | An argument ends at the first comma or closing parenthesis up to which as many parentheses are opened as closed. |
| `MacroLaws.CallPieces` | oc/compiler/preprocessor/preprocessor.c:1078-1108 | The expansion of a call is one piece for each body token, in order: for a parameter token what the source slice with the number of the parameter of its name expands to, for any other the token itself; there are as many slices as parameters. |
| `MacroLaws.CallMeaning` | oc/compiler/preprocessor/preprocessor.c:953-1152 | A call expands to something if and only if it means that: the body, with the meaning of the p-th argument in place of each token that names the p-th parameter. |
| `MacroLaws.RangeMeaning` | oc/compiler/preprocessor/preprocessor.c:805-918 | A range of tokens expands to something if and only if that is the concatenation, in stream order, of its tokens and of the meanings of its calls. |
| `MacroLaws.StreamMeaning` | oc/compiler/preprocessor/preprocessor.c:1163-1232 | A stream expands to something if and only if that is the concatenation, in stream order, of its unflagged tokens and of the meanings of its calls. |
| `MacroReplacement.GenerateParameterSubstitutionArray` | oc/compiler/preprocessor/preprocessor.c:805-918 | Succeeds exactly when the argument has an expansion, collects that expansion, stops before the separator, and leaves the shared parenthesis stack and the nesting level as they were. |
| `MacroReplacement.ReadArguments` | oc/compiler/preprocessor/preprocessor.c:992-1047 | Succeeds exactly when the argument list has an expansion; the kept substitutions are the expanded arguments. |
| `MacroReplacement.SpliceBody` | oc/compiler/preprocessor/preprocessor.c:1078-1108 | Appends the body with every parameter token replaced by the argument given for the parameter of its name. |
| `MacroReplacement.PerformParameterizedSubstitution` | oc/compiler/preprocessor/preprocessor.c:953-1117 | Succeeds exactly when the call has an expansion, appends it, moves the cursor behind the call and restores the parenthesis stack. |
| `MacroReplacement.PerformNonParameterizedSubstitution` | oc/compiler/preprocessor/preprocessor.c:1124-1136 | Appends the body unchanged. |
| `MacroReplacement.PerformMacroSubstitution` | oc/compiler/preprocessor/preprocessor.c:1145-1152 | The same for either kind of macro. |
| `MacroReplacement.MacroReplacementPass` | oc/compiler/preprocessor/preprocessor.c:1163-1232 | Succeeds if and only if the stream has a meaning, and then replaces it by that: flagged tokens dropped, calls expanded argument by argument, bodies not rescanned, all else in order; the parenthesis stack is restored. |
| `MacroConsumption.ProcessMacroParameter` | oc/compiler/preprocessor/preprocessor.c:170-211 | Accepts an identifier that is not yet a parameter, and flags it. |
| `MacroConsumption.ProcessParameters` | oc/compiler/preprocessor/preprocessor.c:279-331 | Accepts exactly the parameter lists of the grammar and pops the parenthesis that opened the list. |
| `MacroConsumption.ProcessBody` | oc/compiler/preprocessor/preprocessor.c:335-415 | Accepts exactly a non-empty body without nested definition; every token is flagged, identifiers that name a parameter become parameter tokens with its number. |
| `MacroConsumption.ProcessMacro` | oc/compiler/preprocessor/preprocessor.c:221-421 | Succeeds exactly as the definition parses; then the table has gained one new name, the one behind the keyword, for the macro that the text defines there. |
| `MacroConsumption.SkipOunitDirective` | oc/compiler/preprocessor/preprocessor.c:434-543 | Accepts exactly the unit test directives of the grammar and flags them. |
| `MacroConsumption.SkipNamedDirective` | oc/compiler/preprocessor/preprocessor.c:554-645 | Accepts exactly an import of a string or a module name with its semicolon, and flags the three tokens. |
| `MacroConsumption.ConsumeOther` | oc/compiler/preprocessor/preprocessor.c:708-785 | One iteration at a token that does not start a macro does one step of the grammar. |
| `DirectiveLaws.ParsedDefines` | oc/compiler/preprocessor/preprocessor.c:247-417 | A parsed macro is the one that the text defines: the name behind the keyword, the parameters in order, and every body token in order with its lexeme. |
| `DirectiveLaws.DefinesParsed` | oc/compiler/preprocessor/preprocessor.c:247-417 | A definition that stands in the text is parsed, unless its name is taken. |
| `DirectiveLaws.ConsumptionMeaning` | oc/compiler/preprocessor/preprocessor.c:661-789 | A stream is consumed if and only if it divides into well formed directives and other tokens, imports before everything else and the module directive before them, with no name defined twice or again; then the table gains what they define, their tokens are flagged, the others left alone, and they are counted. |
| `DirectiveLaws.NamesAreRecorded` | oc/compiler/preprocessor/preprocessor.c:247-417 | The new names in the table are exactly those behind the stream's macro keywords, each once, and each stands for the macro defined there. |
| `MacroConsumption.MacroConsumptionPass` | oc/compiler/preprocessor/preprocessor.c:661-789 | Accepts exactly those streams, and leaves such tokens, such a table and such counts; the parenthesis stack is restored. |
| `ConsumedStreams.ParametersDistinct` | oc/compiler/preprocessor/preprocessor.c:170-211 | The parameters of a macro have different names. |
| `ConsumedStreams.ConsumedRecorded` | oc/compiler/preprocessor/preprocessor.c:335-417 | Every recorded macro has a non-empty body in which a token is a parameter token exactly if it names a parameter, numbered with the only parameter of that name. |
| `ConsumedStreams.ConsumedTokens` | oc/compiler/preprocessor/preprocessor.c:661-789 | Consuming only flags tokens, never the end of the stream; every directive ends up flagged; and when nothing was counted nothing has changed. |
| `Preprocessor.PreprocessFile` | oc/compiler/preprocessor/preprocessor.c:1253-1296 | One file is consumed and then expanded; skipping the expansion while nothing has been counted gives the same result. |
| `Preprocessor.PreprocessInOrder` | oc/compiler/preprocessor/preprocessor.c:1240-1300 | Succeeds exactly when preprocessing the files one after the other is defined, each with the macros of all files before it, and leaves every stream with its result. |
| `Preprocessor.PreprocessingMeaning` | oc/compiler/preprocessor/preprocessor.c:1249-1300 | Every file gets its meaning with the macros of all files before it, up to the first file that fails: one whose directives are not well formed, or with a call that has no meaning. |
| `Preprocessor.Preprocess` | oc/compiler/preprocessor/preprocessor.c:1308-1352 | From an empty macro table: on success all files hold their meanings, on failure one of them has none. |
| `InterferenceGraph.OffsetsCollideBeyond256` | oc/compiler/interference_graph/interference_graph.c:40-49 | Two cells share a 16-bit offset if and only if there are more than 256 live ranges. |
| `InterferenceGraph.StoreBoth` | oc/compiler/interference_graph/interference_graph.c:40-49 | Storing through 16-bit offsets changes the relation in the matrix at one pair, both ways. |
| `InterferenceGraph.AddInterference` | oc/compiler/interference_graph/interference_graph.c:55-102 | The lists gain the pair, both ways, without duplicates and with matching degrees; nothing changes for a range with itself or for a general purpose range in the stack or instruction pointer. |
| `InterferenceGraph.RemoveInterference` | oc/compiler/interference_graph/interference_graph.c:109-126 | Lists, degrees and matrix lose the pair, both ways, even where lists and matrix disagree. |
| `InterferenceGraph.DoLiveRangesInterfere` | oc/compiler/interference_graph/interference_graph.c:245-256 | The matrix answers as the lists do; a range interferes with itself. |
| `InterferenceGraph.MatrixRightUpTo256` | oc/compiler/interference_graph/interference_graph.c:205-256 | Reading every pair back from the matrix built for a relation on n ranges gives that relation, whatever relation it is, if and only if n is at most 256. |
| `InterferenceGraph.ConstructFromAdjacencyLists` | oc/compiler/interference_graph/interference_graph.c:205-237 | For any number of ranges: every range knows its row, and a cell is set if and only if some pair of the lists has its 16-bit offset; up to 256 ranges the matrix holds exactly the relation of the lists. |
| `InterferenceGraph.MoveNeighbors` | oc/compiler/interference_graph/interference_graph.c:148-164 | Handing the neighbors over one by one leaves the coalescee with none; in the matrix the target has both sets of interferences, in the lists it gains those where neither side is pinned. |
| `InterferenceGraph.HandOverNeighbors` | oc/compiler/interference_graph/interference_graph.c:148-164 | Lists and matrix agree after the handover if and only if each of the coalescee's neighbors is the target's already or can be recorded as its neighbor. |
| `InterferenceGraph.JoinsAllUnlessPinned` | oc/compiler/interference_graph/interference_graph.c:55-73 | While pinned ranges have no neighbors, that is so if and only if the target is not pinned or the coalescee has no neighbors. |
| `InterferenceGraph.AgreementAfterwards` | oc/compiler/interference_graph/interference_graph.c:135-199 | The relation recorded in the lists equals the one in the matrix if and only if every neighbor of the coalescee was recordable or known. |
| `InterferenceGraph.PinnedTargetDisagrees` | oc/compiler/register_allocator/register_allocator.c:2548-2566 | When the stack pointer's range takes over a range with one neighbor, the matrix ends up with an interference that the lists lack. |
| `InterferenceGraph.MoveVariables` | oc/compiler/interference_graph/interference_graph.c:136-146 | The coalescee's variables are appended to the target's and belong to the target. |
| `InterferenceGraph.CoalesceLiveRanges` | oc/compiler/interference_graph/interference_graph.c:135-199 | For any two ranges that do not interfere, pinned or not: what lists and matrix hold afterwards, and that they agree if and only if the target is not pinned or the coalescee has no neighbors; pinned ranges stay without neighbors unless a target with neighbors takes a pinned register; variables, register, parameter order and counts are merged. |
| `InterferenceGraph.CoalescedLists` | oc/compiler/interference_graph/interference_graph.c:148-164 | In the lists: the target's neighbors are its old ones and those of the coalescee's that could be recorded, and the coalescee has none. |
| `InterferenceGraph.CoalescingKeepsColourings` | oc/compiler/interference_graph/interference_graph.c:135-199 | A colouring is valid for the matrix after coalescing if and only if it is valid before with the target's colour given to the coalescee. |
| `InterferenceGraph.ListColouringsExtend` | oc/compiler/interference_graph/interference_graph.c:135-199 | Every colouring valid for the lists after coalescing extends to the graph before it if and only if lists and matrix agree. |
| `BlockExecution.RunConcat` | oc/compiler/postprocessor/postprocessor.c:43-107 | Running concatenated statements is running the first and, unless it is left, the second. |
| `BlockExecution.PhisDoNothing` | oc/compiler/postprocessor/postprocessor.c:601-619 | Leaving out the phi functions changes nothing a block does. |
| `BlockExecution.FoldingKeepsRuns` | oc/compiler/postprocessor/postprocessor.c:719-771 | Replacing a block's jump by the code it jumps to changes no run, for any branch outcomes. |
| `Postprocessor.DeleteSuccessor` | oc/compiler/cfg/cfg.c:8036-8051 | Removes the edge from both lists, where it is first, and leaves the others in order. |
| `Postprocessor.AddSuccessor` | oc/compiler/cfg/cfg.c:7948-8006 | Adds the edge at the end of both lists, once. |
| `Postprocessor.ContainsMoreThanOneJump` | oc/compiler/postprocessor/postprocessor.c:380-421 | True exactly when two statements of the block jump to the target. |
| `Postprocessor.DeleteRedundantJump` | oc/compiler/postprocessor/postprocessor.c:675-687 | Deleting a conditional jump to the target of the final jump leaves the graph sound, and the run from any block, for any branch outcomes, ends as before. |
| `Postprocessor.CombineBlocks` | oc/compiler/postprocessor/postprocessor.c:43-107 | Statements are appended, successors united, the successors' predecessor entries renamed, and jump table and block type taken over where the code says. |
| `Postprocessor.MergeWithTarget` | oc/compiler/postprocessor/postprocessor.c:719-736 | Merging a block into its only predecessor leaves a sound graph without it, in which the jump has been replaced by the merged code, with the block type, jump table and successors that go with it, those that are missing behind its own; the block merged away still leads only to blocks of the function. |
| `Postprocessor.IsEligibleForRetHoisting` | oc/compiler/postprocessor/postprocessor.c:430-514 | True exactly for a block that ends in a return, has no jump, branch, indirect jump or inline assembly before it and at most two statements that are neither pops nor additions to the stack pointer. |
| `Postprocessor.CopyBlock` | oc/compiler/postprocessor/postprocessor.c:601-619 | Appends everything but the phi functions. |
| `Postprocessor.HoistReturn` | oc/compiler/postprocessor/postprocessor.c:744-770 | Hoisting leaves the graph sound, with the jump replaced by the ret block's code. |
| `Postprocessor.DroppedKeepsRuns` | oc/compiler/postprocessor/postprocessor.c:719-736 | Leaving out blocks that a sound set does not lead to changes no run that starts in the set. |
| `Postprocessor.MergeKeepsRuns` | oc/compiler/postprocessor/postprocessor.c:719-771 | Folding a jump and dropping the block folded keeps the runs from the entry block. |
| `Postprocessor.ReduceFinalJump` | oc/compiler/postprocessor/postprocessor.c:719-771 | An arm is taken exactly when the block is left for the target by its final jump only and the target has no other predecessor or is a short return; what it leaves; and whether or not one is, for every interpretation of the operations and every branch outcome the run from the entry block ends in the same way with the same operations. |
| `BlockLayout.AppendToChain` | oc/compiler/postprocessor/postprocessor.c:855-871 | Links one more block and deletes the jump that it makes needless; the rest of the chain is unchanged. |
| `BlockLayout.VisitSuccessors` | oc/compiler/postprocessor/postprocessor.c:876-909 | Puts what the block discovers and has not been visited at the end of the queue, the target of its final jump first and then its other successors that are not empty, in list order, and marks the empty ones it passes by; nothing else changes. |
| `BlockLayout.TraverseStep` | oc/compiler/postprocessor/postprocessor.c:843-910 | Each iteration visits a block for the first time, or uses up a queue entry that was visited already. |
| `LayoutOrder.RunDiscovers` | oc/compiler/postprocessor/postprocessor.c:843-910 | Every run of the queue takes the blocks in the order in which they are first discovered, takes everything discovered that was not passed by before, and drops from the chain only what was passed by before it was taken. |
| `BlockLayout.ReorderBlocks` | oc/compiler/postprocessor/postprocessor.c:826-911 | On the blocks of the old layout, merged away or not: terminates; the chain starts with the entry, holds every block at most once and only what the queue can reach, with each of its blocks every successor but the empty ones met as plain successors, and jumps are deleted exactly where the block they target follows. The chain is in the order of discovery. |
| `LaidOutBlocks.EntryJumpFollows` | oc/compiler/postprocessor/postprocessor.c:862-884 | If the entry ends in a jump to another block, that block is the second of the chain and the jump is gone. |
| `LaidOutBlocks.EarlierDiscoveredFirst` | oc/compiler/postprocessor/postprocessor.c:843-910 | What an earlier block discovers comes before what only a later block discovers. |
| `LaidOutBlocks.DiscoversInOrder` | oc/compiler/postprocessor/postprocessor.c:876-909 | A block discovers the target of its final jump before its other successors, and those in list order. |
| `LaidOutBlocks.SameBlockInOrder` | oc/compiler/postprocessor/postprocessor.c:876-909 | What one block is the first to discover comes in the order in which it discovers it. |
| `LaidOutBlocks.ChainSorted` | oc/compiler/postprocessor/postprocessor.c:826-911 | Where no block ends in a jump to an empty block, the chain itself lists the entry and whatever its blocks discover, in that order. |
| `LaidOutBlocks.ReachedInChain` | oc/compiler/postprocessor/postprocessor.c:876-909 | Every block that is reached from the entry over blocks that are not empty is in the chain. |
| `LaidOutBlocks.ChainExact` | oc/compiler/postprocessor/postprocessor.c:826-911 | Where no block ends in a jump to an empty block, the chain holds exactly the entry and the blocks reached from it over blocks that are not empty, and no empty block but possibly the entry. |
| `LaidOutBlocks.ChainComplete` | oc/compiler/postprocessor/postprocessor.c:826-911 | There, the chain holds every reachable block that is not empty if and only if each of them is reached over blocks that are not empty. |
| `LaidOutBlocks.HiddenBehindEmpty` | oc/compiler/postprocessor/postprocessor.c:900-903 | A function in which a reachable block that is not empty is left out, because it is behind an empty one. |
| `LaidOutBlocks.EmptyMember` | oc/compiler/postprocessor/postprocessor.c:881-903 | An empty block can be in the chain only through a final jump of a block that was enqueued, and is in it if a block of the chain ends in a jump to it and none has it as a plain successor. |
| `LaidOutBlocks.EmptyBlockInChain` | oc/compiler/postprocessor/postprocessor.c:881-884 | A function in which an empty block is in the chain, because the entry ends in a jump to it. |
| `LayoutExecution.LaidBlockExit` | oc/compiler/postprocessor/postprocessor.c:855-867 | Falling through where a jump was deleted reaches the block that the jump targeted. |
| `LayoutExecution.StaysLaidOut` | oc/compiler/postprocessor/postprocessor.c:876-909 | A block of the chain goes only to blocks of the chain, or to an empty block at which the run falls off at once. |
| `LayoutExecution.LayoutKeepsRuns` | oc/compiler/postprocessor/postprocessor.c:826-911 | Every run from the entry that does not fall off a block ends in the code of the chain alone as it did in the whole function, and the other way round. |
| `LayoutExecution.ReorderFunction` | oc/compiler/postprocessor/postprocessor.c:826-911 | The code that reorder_blocks leaves in the chain is that of the function, with each final jump to the following block gone, and leads only to the chain and to empty blocks. |
| `FunctionPostprocessing.ReduceBlock` | oc/compiler/postprocessor/postprocessor.c:662-773 | For a block that ends in a jump, from any state between two reductions to another such state: says, statement by statement, exactly when one of the three arms is taken and which block goes, and keeps the runs of the original function; blocks merged away stay in the old layout. |
| `FunctionPostprocessing.LayOut` | oc/compiler/postprocessor/postprocessor.c:826-911 | After any number of such reductions the layout holds no block that was merged away, and runs as the original function does. |
| `FunctionPostprocessing.ReduceAndLayOut` | oc/compiler/postprocessor/postprocessor.c:929-952 | A reduction followed by the layout, starting from any sound function: the chain starts with the entry, holds only blocks that are left, and runs as the function did. |

## Left out

- BlockScheduling.ScheduleInstructionsInBlock: stated for blocks of up to 32768 instructions, beyond which `DataDependencyGraph.InplaceTopologicalSort` says that nothing is sorted or numbered, and for cycle counts that sum up to less than 2^31, beyond which the distances of the priorities can wrap around; ends with the priorities, where the code ends (instruction_scheduler.c:356-365); memory dependences are not tracked, so nothing is said about memory order.
- InterferenceGraph.CoalesceLiveRanges: asks for two ranges that do not interfere, which the callers check (register_allocator.c:2688, 2731, 2857), and for a graph of up to 256 ranges, where `InterferenceGraph.MatrixRightUpTo256` puts the limit; spill cost and assignment count are unbounded here.
- InterferenceGraph.DoLiveRangesInterfere: stated while lists and matrix agree; when they agree after a coalescing is what `InterferenceGraph.CoalesceLiveRanges` says.
- Postprocessor.ReduceFinalJump: a block that only jumps to itself is not merged with itself here, which can only arise for an unreachable block; a block considered for hoisting is not empty and has a successor, since the code reads its last statement and its first successor without a check.
- Postprocessor.CombineBlocks: statements are sequences, so the links between instructions, their back pointers to the block, the instruction count and the removal from the list of created blocks are not modelled.
- FunctionPostprocessing.ReduceBlock: the arm that bypasses a block holding only a jump is not modelled.
- LayoutExecution.LayoutKeepsRuns: says nothing for functions in which a run falls off the end of a block, since the layout gives such a fall a new meaning.
- Load-delay estimation (data_dependency_graph.c:426-749): cycle counts are inputs.
- Empty-block bypass, the condense fixpoint and remove_useless_moves of the postprocessor: each branch reduction is modelled as one step, and what holds between two steps is kept by every one.
- Angle-bracket imports, the directory search and file access: the file found for a module name is a finite map.
- Hash collisions in the module and macro tables: they are maps by exact name.
- Arrays of more than 65535 elements: dynamic_array_contains returns a 16-bit index, which only then is ambiguous.
- Lexing, parsing, constant folding, instruction selection, register assignment and printing: token arrays, blocks and live ranges are taken as given.
- Error messages, line numbers, token totals, timing and memory management.
- Reads past the end of a token array: they give a blank or end token here, as zeroed spare capacity would.
- Post-order traversals for other passes (graph_analyzer.c:1061-1143): nothing here uses them.
