/** The scheduling of one block as far as the repository implements it: dependences,
    sorting, closure and priorities; and a block whose sorted order loses a definition. */
module BlockScheduling {
  import opened DynamicArrays
  import opened Instructions
  import opened Wrappers
  import opened Graphs
  import opened AcyclicGraphs
  import opened BitMatrices
  import opened WeightedPaths
  import opened DataDependencyGraph
  import opened DependenceLinks
  import opened SchedulingPriorities
  import opened InstructionScheduler
  import opened ReachingDefinitions

  // -------------------------------------------------------- whole blocks

  /** The graph built for a block: its edges are the dependences, so they all lead forward. */
  lemma BuiltGraph(nodes: seq<DependencyNode>, instructions: seq<Instruction>, special: SpecialVariables,
                   links: set<(int, int)>)
    requires NodesFor(nodes, instructions) && Linked(nodes, links)
    requires forall u, v {:trigger (u, v) in links} :: (u, v) in links <==> DependsOn(instructions, special, u, v)
    ensures Closed(nodes) && Upward(GraphOf(nodes))
    ensures forall u, v {:trigger Edge(GraphOf(nodes), u, v)} :: Edge(GraphOf(nodes), u, v) <==> DependsOn(instructions, special, u, v)
    ensures forall v {:trigger nodes[v]} :: 0 <= v < |nodes| ==> CountsAgree(nodes, nodes[v])
  {
    forall u | 0 <= u < |nodes|
      ensures NeighborsWithin(nodes, u)
    {
      assert NodeLinks(nodes, links, u);
    }
    forall u, v
      ensures Edge(GraphOf(nodes), u, v) <==> DependsOn(instructions, special, u, v)
    {
      if 0 <= u < |nodes| && 0 <= v < |nodes| {
        assert NodeLinks(nodes, links, u);
        EdgeIsNeighbor(nodes, u, v);
        assert (u, v) in links <==> DependsOn(instructions, special, u, v);
      }
    }
    forall v | 0 <= v < |nodes|
      ensures CountsAgree(nodes, nodes[v])
    {
      BuiltCounts(nodes, links, v);
    }
  }

  lemma BuiltCounts(nodes: seq<DependencyNode>, links: set<(int, int)>, v: int)
    requires Linked(nodes, links) && 0 <= v < |nodes|
    ensures CountsAgree(nodes, nodes[v])
  {
    assert NodeLinks(nodes, links, v);
    forall other | nodes[v].reliesOnCount == 0 && other in nodes
      ensures nodes[v] !in other.neighbors
    {
      var u :| 0 <= u < |nodes| && nodes[u] == other;
      assert NodeLinks(nodes, links, u);
      assert Sources(|nodes|, links, v) == {};
      assert u !in Sources(|nodes|, links, v);
      assert (u, v) !in links;
    }
  }

  function InstructionsOf(nodes: seq<DependencyNode>): (s: seq<Instruction>)
    ensures |s| == |nodes| && forall i {:trigger s[i]} {:trigger nodes[i]} :: 0 <= i < |nodes| ==> s[i] == nodes[i].instruction
  {
    seq(|nodes|, i requires 0 <= i < |nodes| => nodes[i].instruction)
  }

  /** The instructions of the sorted nodes respect the dependences of the block. */
  lemma SortedRespects(nodes: seq<DependencyNode>, nodes': seq<DependencyNode>, instructions: seq<Instruction>,
                       special: SpecialVariables)
    requires NodesFor(nodes, instructions) && Closed(nodes) && Closed(nodes') && Permuted(nodes', nodes)
    requires Upward(GraphOf(nodes'))
    requires forall u, v {:trigger Edge(GraphOf(nodes), u, v)} :: Edge(GraphOf(nodes), u, v) <==> DependsOn(instructions, special, u, v)
    ensures RespectsDependences(instructions, special, InstructionsOf(nodes'))
  {
    var sorted := InstructionsOf(nodes');
    forall a | 0 <= a < |sorted|
      ensures sorted[a] in instructions
    {
      var u := NodeAt(nodes, nodes', instructions, a);
    }
    assert Distinct(sorted) by {
      forall a, b | 0 <= a < b < |sorted|
        ensures sorted[a] != sorted[b]
      {
        var u := NodeAt(nodes, nodes', instructions, a);
        var v := NodeAt(nodes, nodes', instructions, b);
        assert u != v;
      }
    }
    forall u, v, a, b | DependsOn(instructions, special, u, v) && IsAt(sorted, a, instructions, u) && IsAt(sorted, b, instructions, v)
      ensures a < b
    {
      var x := NodeAt(nodes, nodes', instructions, a);
      var y := NodeAt(nodes, nodes', instructions, b);
      assert x == u && y == v;
      assert Edge(GraphOf(nodes), u, v);
      EdgeIsNeighbor(nodes, u, v);
      EdgeIsNeighbor(nodes', a, b);
    }
  }

  /** Where the node at position a came from. */
  lemma NodeAt(nodes: seq<DependencyNode>, nodes': seq<DependencyNode>, instructions: seq<Instruction>, a: int) returns (u: int)
    requires NodesFor(nodes, instructions) && Permuted(nodes', nodes) && 0 <= a < |nodes'|
    ensures 0 <= u < |nodes| && nodes[u] == nodes'[a] && nodes'[a].instruction == instructions[u]
  {
    assert nodes'[a] in nodes;
    u :| 0 <= u < |nodes| && nodes[u] == nodes'[a];
  }

  // -------------------------------------------- sums under permutation

  lemma {:induction false} SumOfTail(cycles: seq<nat>, i: nat)
    requires i < |cycles|
    ensures SumFrom(cycles, i + 1) == SumFrom(cycles[1..], i)
    decreases |cycles| - i
  {
    if i + 1 >= |cycles| {
    } else {
      SumOfTail(cycles, i + 1);
    }
  }

  lemma {:induction false} SumWithout(cycles: seq<nat>, k: nat)
    requires k < |cycles|
    ensures SumFrom(cycles, 0) == cycles[k] + SumFrom(cycles[..k] + cycles[k + 1..], 0)
  {
    var rest := cycles[..k] + cycles[k + 1..];
    SumOfTail(cycles, 0);
    if k == 0 {
      assert rest == cycles[1..];
    } else {
      SumWithout(cycles[1..], k - 1);
      SumOfTail(rest, 0);
      assert rest[1..] == cycles[1..][..k - 1] + cycles[1..][k..];
    }
  }

  lemma {:induction false} SumPermuted(a: seq<DependencyNode>, b: seq<DependencyNode>)
    requires Permuted(a, b)
    ensures SumFrom(CyclesOf(a), 0) == SumFrom(CyclesOf(b), 0)
  {
    if a != [] {
      assert a[0] in b;
      var k :| 0 <= k < |b| && b[k] == a[0];
      var a', b' := a[1..], b[..k] + b[k + 1..];
      RemovePermuted(a, b, k);
      SumPermuted(a', b');
      SumWithout(CyclesOf(a), 0);
      SumWithout(CyclesOf(b), k);
      assert CyclesOf(a)[..0] + CyclesOf(a)[0 + 1..] == CyclesOf(a');
      assert CyclesOf(b)[..k] + CyclesOf(b)[k + 1..] == CyclesOf(b');
    } else {
      assert b == [];
    }
  }

  lemma RemovePermuted(a: seq<DependencyNode>, b: seq<DependencyNode>, k: nat)
    requires Permuted(a, b) && k < |b| && a != [] && b[k] == a[0]
    ensures Permuted(a[1..], b[..k] + b[k + 1..])
  {
    var a', b' := a[1..], b[..k] + b[k + 1..];
    forall x | x in a'
      ensures x in b'
    {
      var i :| 0 <= i < |a'| && a'[i] == x;
      assert a[i + 1] == x && x in b;
      var j :| 0 <= j < |b| && b[j] == x;
      assert x == b'[if j < k then j else j - 1];
    }
    forall x | x in b'
      ensures x in a'
    {
      var j :| 0 <= j < |b'| && b'[j] == x;
      assert x == b[if j < k then j else j + 1];
      assert x in b && x in a;
      var i :| 0 <= i < |a| && a[i] == x;
      assert a'[i - 1] == x;
    }
  }

  // ------------------------------------------------------------ one block

  /** Adding a node for every instruction of the block. */
  method AddNodes(graph: DependencyGraph, instructions: seq<Instruction>, cycles: seq<nat>)
    requires graph.nodeCount == |instructions| == |cycles| && Distinct(instructions) && graph.nodes == []
    modifies graph`nodes
    ensures NodesFor(graph.nodes, instructions) && Bare(graph.nodes) && Unnumbered(graph.nodes) && fresh(graph.nodes)
    ensures CyclesOf(graph.nodes) == cycles
  {
    var i := 0;
    while i < |instructions|
      invariant 0 <= i <= |instructions|
      invariant NodesFor(graph.nodes, instructions[..i]) && Bare(graph.nodes) && Unnumbered(graph.nodes) && fresh(graph.nodes)
      invariant forall k {:trigger graph.nodes[k]} :: 0 <= k < i ==> graph.nodes[k].cyclesToComplete == cycles[k]
    {
      ghost var before := graph.nodes;
      AddNode(graph, instructions[i], cycles[i], instructions[..i]);
      assert instructions[..i] + [instructions[i]] == instructions[..i + 1];
      assert forall k :: 0 <= k < i ==> graph.nodes[k] == before[k];
      i := i + 1;
    }
    assert instructions[..i] == instructions;
  }

  /** The dependences of the block, and the same block's nodes in sorted order. */
  ghost predicate SortedBlock(graph: DependencyGraph, instructions: seq<Instruction>, special: SpecialVariables)
    reads graph, graph.nodes`neighbors, graph.nodes`index, graph.transitiveClosure, graph.adjacencyMatrix
  {
    && Finalized(graph) && |graph.nodes| == |instructions|
    && RespectsDependences(instructions, special, InstructionsOf(graph.nodes))
    && forall u, v, a, b {:trigger DependsOn(instructions, special, u, v), graph.nodes[a], graph.nodes[b]} ::
         0 <= a < |graph.nodes| && 0 <= b < |graph.nodes|
         && IsAt(InstructionsOf(graph.nodes), a, instructions, u) && IsAt(InstructionsOf(graph.nodes), b, instructions, v)
         ==> (DependsOn(instructions, special, u, v) <==> graph.nodes[b] in graph.nodes[a].neighbors)
  }

  lemma SortedNeighbors(graph: DependencyGraph, nodes: seq<DependencyNode>, instructions: seq<Instruction>,
                        special: SpecialVariables, u: int, v: int, a: int, b: int)
    requires NodesFor(nodes, instructions) && Closed(nodes) && Permuted(graph.nodes, nodes)
    requires forall u, v {:trigger Edge(GraphOf(nodes), u, v)} :: Edge(GraphOf(nodes), u, v) <==> DependsOn(instructions, special, u, v)
    requires 0 <= a < |graph.nodes| && 0 <= b < |graph.nodes|
    requires IsAt(InstructionsOf(graph.nodes), a, instructions, u) && IsAt(InstructionsOf(graph.nodes), b, instructions, v)
    ensures DependsOn(instructions, special, u, v) <==> graph.nodes[b] in graph.nodes[a].neighbors
  {
    var x := NodeAt(nodes, graph.nodes, instructions, a);
    var y := NodeAt(nodes, graph.nodes, instructions, b);
    assert x == u && y == v;
    EdgeIsNeighbor(nodes, u, v);
    assert Edge(GraphOf(nodes), u, v) <==> DependsOn(instructions, special, u, v);
  }

  lemma CountsPermuted(nodes: seq<DependencyNode>, nodes': seq<DependencyNode>)
    requires Permuted(nodes', nodes)
    requires forall v {:trigger nodes[v]} :: 0 <= v < |nodes| ==> CountsAgree(nodes, nodes[v])
    ensures forall v {:trigger nodes'[v]} :: 0 <= v < |nodes'| ==> CountsAgree(nodes', nodes'[v])
  {
    forall v | 0 <= v < |nodes'|
      ensures CountsAgree(nodes', nodes'[v])
    {
      assert nodes'[v] in nodes;
      var u :| 0 <= u < |nodes| && nodes[u] == nodes'[v];
      assert CountsAgree(nodes, nodes[u]);
    }
  }

  /** Sorting the built graph, and what the priorities need of it afterwards. */
  method SortBlock(graph: DependencyGraph, instructions: seq<Instruction>, special: SpecialVariables, ghost links: set<(int, int)>)
    requires NodesFor(graph.nodes, instructions) && Linked(graph.nodes, links) && Unnumbered(graph.nodes)
    requires forall u, v {:trigger (u, v) in links} :: (u, v) in links <==> DependsOn(instructions, special, u, v)
    requires |graph.nodes| == graph.nodeCount <= 0x8000 && SumFrom(CyclesOf(graph.nodes), 0) <= INT_MAX
    requires graph.adjacencyMatrix != graph.transitiveClosure
    requires Holds(graph.adjacencyMatrix[..], graph.nodeCount, {}) && Holds(graph.transitiveClosure[..], graph.nodeCount, {})
    modifies graph`nodes, graph.nodes`visited, graph.nodes`index, graph.adjacencyMatrix, graph.transitiveClosure
    ensures SortedBlock(graph, instructions, special) && Permuted(graph.nodes, old(graph.nodes))
    ensures LaterStartsFirst(old(graph.nodes), old(GraphOf(graph.nodes)), graph.nodes)
    ensures Prioritizable(graph.nodes)
  {
    ghost var nodes := graph.nodes;
    BuiltGraph(nodes, instructions, special, links);
    UpwardAcyclic(GraphOf(nodes));
    FinalizeGraph(graph);
    AfterSorting(graph, nodes, instructions, special, links);
  }

  lemma AfterSorting(graph: DependencyGraph, nodes: seq<DependencyNode>, instructions: seq<Instruction>,
                     special: SpecialVariables, links: set<(int, int)>)
    requires NodesFor(nodes, instructions) && Linked(nodes, links)
    requires forall u, v {:trigger (u, v) in links} :: (u, v) in links <==> DependsOn(instructions, special, u, v)
    requires Finalized(graph) && Permuted(graph.nodes, nodes) && SumFrom(CyclesOf(nodes), 0) <= INT_MAX
    ensures SortedBlock(graph, instructions, special) && Prioritizable(graph.nodes)
  {
    BuiltGraph(nodes, instructions, special, links);
    SortedRespects(nodes, graph.nodes, instructions, special);
    CountsPermuted(nodes, graph.nodes);
    SumPermuted(graph.nodes, nodes);
    forall u, v, a, b | 0 <= a < |graph.nodes| && 0 <= b < |graph.nodes|
      && IsAt(InstructionsOf(graph.nodes), a, instructions, u) && IsAt(InstructionsOf(graph.nodes), b, instructions, v)
      ensures DependsOn(instructions, special, u, v) <==> graph.nodes[b] in graph.nodes[a].neighbors
    {
      SortedNeighbors(graph, nodes, instructions, special, u, v, a, b);
    }
  }

  method BuildGraph(instructions: seq<Instruction>, cycles: seq<nat>, special: SpecialVariables)
    returns (graph: DependencyGraph, ghost links: set<(int, int)>)
    requires Distinct(instructions) && |cycles| == |instructions|
    ensures fresh(graph) && fresh(graph.nodes) && fresh(graph.adjacencyMatrix) && fresh(graph.transitiveClosure)
    ensures graph.adjacencyMatrix != graph.transitiveClosure && graph.nodeCount == |instructions|
    ensures Holds(graph.adjacencyMatrix[..], graph.nodeCount, {}) && Holds(graph.transitiveClosure[..], graph.nodeCount, {})
    ensures NodesFor(graph.nodes, instructions) && Linked(graph.nodes, links) && CyclesOf(graph.nodes) == cycles
    ensures Unnumbered(graph.nodes)
    ensures forall u, v {:trigger (u, v) in links} :: (u, v) in links <==> DependsOn(instructions, special, u, v)
  {
    graph := new DependencyGraph(|instructions|);
    AddNodes(graph, instructions, cycles);
    links := BuildDependencyGraphForBlock(graph, instructions, special);
  }

  method PrioritizeSorted(graph: DependencyGraph, instructions: seq<Instruction>, special: SpecialVariables,
                          ghost nodes: set<DependencyNode>)
    returns (ghost priorities: seq<int>)
    requires SortedBlock(graph, instructions, special) && Prioritizable(graph.nodes)
    requires nodes == set x | x in graph.nodes
    modifies nodes`priority
    ensures SortedBlock(graph, instructions, special)
    ensures |priorities| == |graph.nodes| && StorePriorities(graph.nodes, priorities)
    ensures ArePriorities(GraphOf(graph.nodes), CyclesOf(graph.nodes), priorities)
  {
    priorities := ComputePrioritiesForAllNodes(graph);
  }

  method SortAndPrioritize(graph: DependencyGraph, instructions: seq<Instruction>, special: SpecialVariables,
                           ghost links: set<(int, int)>)
    returns (ghost priorities: seq<int>)
    requires NodesFor(graph.nodes, instructions) && Linked(graph.nodes, links) && Unnumbered(graph.nodes)
    requires forall u, v {:trigger (u, v) in links} :: (u, v) in links <==> DependsOn(instructions, special, u, v)
    requires |graph.nodes| == graph.nodeCount <= 0x8000 && SumFrom(CyclesOf(graph.nodes), 0) <= INT_MAX
    requires graph.adjacencyMatrix != graph.transitiveClosure
    requires Holds(graph.adjacencyMatrix[..], graph.nodeCount, {}) && Holds(graph.transitiveClosure[..], graph.nodeCount, {})
    modifies graph`nodes, graph.nodes`visited, graph.nodes`index, graph.nodes`priority,
             graph.adjacencyMatrix, graph.transitiveClosure
    ensures SortedBlock(graph, instructions, special) && Permuted(graph.nodes, old(graph.nodes))
    ensures LaterStartsFirst(old(graph.nodes), old(GraphOf(graph.nodes)), graph.nodes)
    ensures |priorities| == |graph.nodes| && StorePriorities(graph.nodes, priorities)
    ensures ArePriorities(GraphOf(graph.nodes), CyclesOf(graph.nodes), priorities)
  {
    ghost var nodes := set x | x in graph.nodes;
    SortBlock(graph, instructions, special, links);
    assert nodes == set x | x in graph.nodes;
    priorities := PrioritizeSorted(graph, instructions, special, nodes);
  }

  /** Every node carries the cycle count of its own instruction. */
  ghost predicate CyclesMatch(nodes: seq<DependencyNode>, instructions: seq<Instruction>, cycles: seq<nat>)
    reads nodes`cyclesToComplete
  {
    && |cycles| == |instructions|
    && forall a, u {:trigger IsAt(InstructionsOf(nodes), a, instructions, u)} ::
         IsAt(InstructionsOf(nodes), a, instructions, u) ==> nodes[a].cyclesToComplete == cycles[u]
  }

  lemma PermutedCycles(nodes: seq<DependencyNode>, nodes': seq<DependencyNode>, instructions: seq<Instruction>, cycles: seq<nat>)
    requires NodesFor(nodes, instructions) && CyclesOf(nodes) == cycles && Permuted(nodes', nodes)
    ensures CyclesMatch(nodes', instructions, cycles)
  {
    forall a, u | IsAt(InstructionsOf(nodes'), a, instructions, u)
      ensures nodes'[a].cyclesToComplete == cycles[u]
    {
      var v := NodeAt(nodes, nodes', instructions, a);
    }
  }

  /** In the sorted instructions, an instruction that neither u nor anything before u leads to
      comes before u, although it came after it. */
  ghost predicate LaterInstructionsFirst(instructions: seq<Instruction>, g: Graph, sorted: seq<Instruction>) {
    forall u, w, a, b {:trigger StartsLater(g, u, w), IsAt(sorted, a, instructions, u), IsAt(sorted, b, instructions, w)} ::
      StartsLater(g, u, w) && IsAt(sorted, a, instructions, u) && IsAt(sorted, b, instructions, w) ==> b < a
  }

  lemma LaterNodesFirst(nodes: seq<DependencyNode>, g: Graph, nodes': seq<DependencyNode>, instructions: seq<Instruction>)
    requires NodesFor(nodes, instructions) && Permuted(nodes', nodes) && LaterStartsFirst(nodes, g, nodes')
    ensures LaterInstructionsFirst(instructions, g, InstructionsOf(nodes'))
  {
    var sorted := InstructionsOf(nodes');
    forall u, w, a, b | StartsLater(g, u, w) && IsAt(sorted, a, instructions, u) && IsAt(sorted, b, instructions, w)
      ensures b < a
    {
      var x := NodeAt(nodes, nodes', instructions, a);
      var y := NodeAt(nodes, nodes', instructions, b);
      assert x == u && y == w;
    }
  }

  /** schedule_instructions_in_block, for a block of up to 32768 instructions whose cycle
      counts, however they were estimated, sum up to less than 2^31; g is the graph built. */
  method ScheduleInstructionsInBlock(instructions: seq<Instruction>, cycles: seq<nat>, special: SpecialVariables)
    returns (graph: DependencyGraph, ghost priorities: seq<int>, ghost g: Graph)
    requires Distinct(instructions) && |cycles| == |instructions| <= 0x8000 && SumFrom(cycles, 0) <= INT_MAX
    ensures SortedBlock(graph, instructions, special) && CyclesMatch(graph.nodes, instructions, cycles)
    ensures IsDependenceGraph(g, instructions, special)
    ensures LaterInstructionsFirst(instructions, g, InstructionsOf(graph.nodes))
    ensures |priorities| == |graph.nodes| && StorePriorities(graph.nodes, priorities)
    ensures ArePriorities(GraphOf(graph.nodes), CyclesOf(graph.nodes), priorities)
  {
    ghost var links;
    graph, links := BuildGraph(instructions, cycles, special);
    ghost var nodes := graph.nodes;
    g := GraphOf(nodes);
    BuiltGraph(nodes, instructions, special, links);
    priorities := SortAndPrioritize(graph, instructions, special, links);
    PermutedCycles(nodes, graph.nodes, instructions, cycles);
    LaterNodesFirst(nodes, g, graph.nodes, instructions);
  }

  /** A variable defined twice can lose its reaching definition: the block [d0, d1, use], where d0
      also defines a second variable that use reads, is sorted into [d1, d0, use]. */
  lemma TwoDefinitionsReordered(d0: Instruction, d1: Instruction, use: Instruction, special: SpecialVariables,
                                x: Variable, y: Variable, g: Graph, sorted: seq<Instruction>)
    requires d0 != d1 && d1 != use && d0 != use && x.name != y.name
    requires !IsSkipped(Some(x), special) && !IsSkipped(Some(y), special)
    requires d0.kind == Ordinary(false) && d0.destination == Some(x) && d0.destination2 == Some(y)
    requires d0.source1 == d0.source2 == d0.address1 == d0.address2 == None
    requires d1.kind == Ordinary(false) && d1.destination == Some(x) && d1.destination2 == None
    requires d1.source1 == d1.source2 == d1.address1 == d1.address2 == None
    requires use.kind == Ordinary(false) && use.source1 == Some(x) && use.source2 == Some(y)
    requires use.destination == use.destination2 == use.address1 == use.address2 == None
    requires IsDependenceGraph(g, [d0, d1, use], special) && RespectsDependences([d0, d1, use], special, sorted)
    requires LaterInstructionsFirst([d0, d1, use], g, sorted)
    ensures sorted == [d1, d0, use]
    ensures Reaches([d0, d1, use], 1, 2, Some(x)) && !Reaches(sorted, 0, 2, Some(x))
  {
    var before := [d0, d1, use];
    assert before[0] == d0 && before[1] == d1 && before[2] == use;
    assert Lookups(use)[0] == Some(x) && Lookups(use)[1] == Some(y);
    assert Reaches(before, 1, 2, Some(x)) && Reaches(before, 0, 2, Some(y));
    assert LooksUp(before, special, 1, 2, Lookups(use)) && LooksUp(before, special, 0, 2, Lookups(use));
    var a0 := Listed(before, special, sorted, 0);
    var a1 := Listed(before, special, sorted, 1);
    var a2 := Listed(before, special, sorted, 2);
    assert DependsOn(before, special, 1, 2) && DependsOn(before, special, 0, 2);
    FirstStartsLater(d0, d1, use, special, g);
    assert a1 < a0 < a2;
    assert Defines(sorted[1], Some(x));
  }

  /** Nothing leads to the second definition. */
  lemma FirstStartsLater(d0: Instruction, d1: Instruction, use: Instruction, special: SpecialVariables, g: Graph)
    requires d1.kind == Ordinary(false) && d1.source1 == d1.source2 == d1.address1 == d1.address2 == None
    requires IsDependenceGraph(g, [d0, d1, use], special)
    ensures StartsLater(g, 0, 1)
  {
    var before := [d0, d1, use];
    assert forall k :: 0 <= k < 4 ==> Lookups(before[1])[k] == None;
    forall u
      ensures !Edge(g, u, 1)
    {
      assert !DependsOn(before, special, u, 1);
    }
    forall p | IsPath(g, p) && |p| > 1
      ensures p[|p| - 1] != 1
    {
      assert Edge(g, p[|p| - 2], p[|p| - 1]);
    }
  }
}
